/** Border moves on the heap (texel/workspace_layout.go:209-358, 552-597). */
module BorderHeap {
  import opened Ratios
  import opened PaneTree
  import opened Layout
  import opened Edits
  import opened Borders
  import opened TreeHeap
  import opened RemoveHeap

  lemma {:induction false} RatiosRep(t: Shape, q: Path, rs: seq<real>, m: map<Node, Fields>, m': map<Node, Fields>)
    requires Distinct(t) && HasPath(t, q) && At(t, q).Branch? && RepIn(t, null, m)
    requires var n := At(t, q).node; n in m && Rewritten(Nodes(t), n, m[n].(ratios := rs), m, m')
    ensures RepIn(SetRatios(t, q, rs), null, m')
  {
    hide RepIn, HasPath, At, Put, Distinct, Nodes, ParentOf, Agree, Rewritten;
    var g := At(t, q);
    Inside(t, q);
    RepInAt(t, q, null, m);
    AgreeParts(t, q, g.node, m[g.node].(ratios := rs), m, m');
    ReratioRep(g, ParentOf(t, q, null), rs, m, m');
    RepPut(t, q, g.(ratios := rs), null, m, m');
  }

  lemma {:induction false} ReratioRep(g: Shape, up: Node?, rs: seq<real>, m: map<Node, Fields>, m': map<Node, Fields>)
    requires g.Branch? && Distinct(g) && RepIn(g, up, m)
    requires Rewritten(Nodes(g), g.node, m[g.node].(ratios := rs), m, m')
    ensures RepIn(g.(ratios := rs), up, m')
  {
    forall i | 0 <= i < |g.kids| ensures RepIn(g.kids[i], g.node, m') {
      AgreeKid(g, i, g.node, m'[g.node], m, m');
    }
  }

  /** Give the group at q new ratios. */
  method StoreRatios(node: Node, rs: seq<real>, ghost t: Shape, ghost q: Path)
    requires WellFormed(t) && Distinct(t) && Rep(t, null) && HasPath(t, q) && At(t, q).Branch? && At(t, q).node == node
    requires |rs| == |At(t, q).kids| && Fits(rs)
    modifies node`ratios
    ensures Rep(SetRatios(t, q, rs), null)
  {
    hide Rep, RepIn, HasPath, At, Distinct, Nodes, SetRatios, WellFormed;
    assert allocated(Nodes(t));
    ghost var s := Nodes(t);
    RepIsRepIn(t, null, s);
    ghost var m := Contents(s);
    Inside(t, q);
    node.ratios := rs;
    RatiosRep(t, q, rs, m, Contents(s));
    SetRatiosKeeps(t, q, rs);
    RepIsRepIn(SetRatios(t, q, rs), null, s);
  }

  /** The shares of all children but index and index + 1. */
  method SumOthers(ratios: seq<real>, index: nat) returns (sum: real)
    requires index + 1 < |ratios|
    ensures sum == Sum(Masked(ratios, index))
  {
    sum := 0.0;
    ghost var masked := Masked(ratios, index);
    for i := 0 to |ratios|
      invariant sum == Sum(masked[..i])
    {
      assert masked[..i + 1][..i] == masked[..i];
      if i == index || i == index + 1 { continue; }
      sum := sum + ratios[i];
    }
    assert masked[..|masked|] == masked;
  }

  method ScaleOthers(ratios: seq<real>, index: nat, first: real, second: real, scale: real) returns (rs: seq<real>)
    requires index + 1 < |ratios|
    ensures rs == Times(ratios, scale)[index := first][index + 1 := second]
  {
    hide Times;
    rs := ratios[index := first][index + 1 := second];
    ghost var scaled := Times(ratios, scale);
    for i := 0 to |rs|
      invariant |rs| == |ratios| && rs[index] == first && rs[index + 1] == second
      invariant forall j :: 0 <= j < i && j != index && j != index + 1 ==> rs[j] == scaled[j]
      invariant forall j :: i <= j < |rs| && j != index && j != index + 1 ==> rs[j] == ratios[j]
    {
      if i == index || i == index + 1 { continue; }
      assert scaled[i] == rs[i] * scale;
      rs := rs[i := rs[i] * scale];
    }
  }

  /** The loops of applyBorderRatios (texel/workspace_layout.go:319-358). */
  method BorderRatios(ratios: seq<real>, index: nat, first: real, second: real) returns (rs: seq<real>)
    requires index + 1 < |ratios|
    ensures rs == ApplyBorder(ratios, index, first, second)
  {
    hide Sum, Masked, Times, Normalised;
    var sumOthers := SumOthers(ratios, index);
    rs := ratios[index := first][index + 1 := second];
    var remaining := 1.0 - (first + second);
    if sumOthers > 0.0 {
      if remaining < 0.0 { remaining := 0.0; }
      rs := ScaleOthers(ratios, index, first, second, remaining / sumOthers);
    }
    rs := Renormalise(rs);
  }

  /** A border of the tree: a group at q and two neighbouring children of it. */
  ghost predicate OnBorder(t: Shape, q: Path, border: Border) {
    && HasPath(t, q) && At(t, q).Branch? && At(t, q).node == border.node
    && 0 <= border.index && border.index + 1 < |At(t, q).kids|
  }

  /** The group's rectangle and its ratios after a drag to (x, y). */
  ghost function Dragged(t: Shape, q: Path, i: nat, r: Rect, x: int, y: int): seq<real>
    requires HasPath(t, q) && At(t, q).Branch? && i + 1 < |At(t, q).ratios| && WellFormed(t)
  {
    var g, a := At(t, q), RectAt(t, q, r);
    if g.split.Vertical? then Drag(g.ratios, i, a.w, x - a.x, MinPaneWidth)
    else Drag(g.ratios, i, a.h, y - a.y, MinPaneHeight)
  }

  lemma {:induction false} DraggedFits(t: Shape, q: Path, i: nat, r: Rect, x: int, y: int)
    requires WellFormed(t) && r.Proper() && HasPath(t, q) && At(t, q).Branch? && i + 1 < |At(t, q).kids|
    ensures |At(t, q).ratios| == |At(t, q).kids|
    ensures |Dragged(t, q, i, r, x, y)| == |At(t, q).kids| && Fits(Dragged(t, q, i, r, x, y))
    ensures Fills(At(t, q).ratios) ==> Fills(Dragged(t, q, i, r, x, y))
  {
    hide Drag, RectAt, At, HasPath, Sum, Nodes, Panes, Distinct;
    Inside(t, q);
    RectWithin(t, q, r);
    var a := RectAt(t, q, r);
    DragFills(At(t, q).ratios, i, a.w, x - a.x, MinPaneWidth);
    DragFills(At(t, q).ratios, i, a.h, y - a.y, MinPaneHeight);
  }

  /** What the bounds of the two children and of the group tell a drag. */
  lemma {:induction false} BorderRects(t: Shape, q: Path, i: nat, r: Rect)
    requires WellFormed(t) && r.Proper() && HasPath(t, q) && At(t, q).Branch? && i + 1 < |At(t, q).kids|
    ensures WellFormed(At(t, q)) && RectAt(t, q, r).Proper()
    ensures var g, a := At(t, q), RectAt(t, q, r);
      var k, k' := ChildRect(g.split, g.ratios, a, i), ChildRect(g.split, g.ratios, a, i + 1);
      && k.Proper() && k'.Proper()
      && (g.split.Vertical? ==>
            k.x == a.x + Offset(g.ratios, a.w, i) && k'.x + k'.w == a.x + Edge(g.ratios, a.w, i + 2))
      && (g.split.Horizontal? ==>
            k.y == a.y + Offset(g.ratios, a.h, i) && k'.y + k'.h == a.y + Edge(g.ratios, a.h, i + 2))
  {
    Inside(t, q);
    RectWithin(t, q, r);
    var g, a := At(t, q), RectAt(t, q, r);
    ChildWithin(g, a, i);
    ChildWithin(g, a, i + 1);
    Edges(g.ratios, a.w, i + 1, i + 2);
    Edges(g.ratios, a.h, i + 1, i + 2);
  }

  /** adjustBorderToX up to the ratios it stores (texel/workspace_layout.go:209-256). */
  method DragToX(border: Border, x: int, ghost t: Shape, ghost q: Path, ghost r: Rect) returns (rs: seq<real>)
    requires WellFormed(t) && Rep(t, null) && r.Proper() && Laid(t, r) && OnBorder(t, q, border)
    requires At(t, q).split.Vertical?
    ensures var a := RectAt(t, q, r);
      border.index + 1 < |At(t, q).ratios| &&
      rs == Drag(At(t, q).ratios, border.index, a.w, x - a.x, MinPaneWidth)
  {
    hide Rep, HasPath, At, WellFormed, Nodes, Panes, Laid, RectAt, Offset, Size, Edge, ApplyBorder;
    var parent := border.node;
    assert allocated(Nodes(t)) && allocated(Panes(t));
    BorderShapes(t, q, border, r);
    ghost var g, a := At(t, q), RectAt(t, q, r);
    var lx0, _, _, _, okLeft := NodeBounds(parent.children[border.index], g.kids[border.index], parent,
                                           ChildRect(g.split, g.ratios, a, border.index));
    BorderShapes(t, q, border, r);
    var _, _, rx1, _, okRight := NodeBounds(parent.children[border.index + 1], g.kids[border.index + 1], parent,
                                            ChildRect(g.split, g.ratios, a, border.index + 1));
    BorderShapes(t, q, border, r);
    var px0, _, px1, _, okParent := NodeBounds(parent, g, parent.parent, a);
    BorderShapes(t, q, border, r);
    BorderRects(t, q, border.index, r);
    var minX := lx0 + MinPaneWidth;
    var maxX := rx1 - MinPaneWidth;
    rs := parent.ratios;
    if maxX <= minX { return; }
    var at := x;
    if at < minX { at := minX; }
    if at > maxX { at := maxX; }
    var parentWidth := px1 - px0;
    if parentWidth <= 0 { return; }
    var leftWidth := at - lx0;
    var rightWidth := rx1 - at;
    if leftWidth < MinPaneWidth { leftWidth := MinPaneWidth; }
    if rightWidth < MinPaneWidth { rightWidth := MinPaneWidth; }
    rs := BorderRatios(parent.ratios, border.index, leftWidth as real / parentWidth as real,
                       rightWidth as real / parentWidth as real);
  }

  /** adjustBorderToY up to the ratios it stores (texel/workspace_layout.go:264-311). */
  method DragToY(border: Border, y: int, ghost t: Shape, ghost q: Path, ghost r: Rect) returns (rs: seq<real>)
    requires WellFormed(t) && Rep(t, null) && r.Proper() && Laid(t, r) && OnBorder(t, q, border)
    requires At(t, q).split.Horizontal?
    ensures var a := RectAt(t, q, r);
      border.index + 1 < |At(t, q).ratios| &&
      rs == Drag(At(t, q).ratios, border.index, a.h, y - a.y, MinPaneHeight)
  {
    hide Rep, HasPath, At, WellFormed, Nodes, Panes, Laid, RectAt, Offset, Size, Edge, ApplyBorder;
    var parent := border.node;
    assert allocated(Nodes(t)) && allocated(Panes(t));
    BorderShapes(t, q, border, r);
    ghost var g, a := At(t, q), RectAt(t, q, r);
    var _, ty0, _, _, okTop := NodeBounds(parent.children[border.index], g.kids[border.index], parent,
                                          ChildRect(g.split, g.ratios, a, border.index));
    BorderShapes(t, q, border, r);
    var _, _, _, by1, okBottom := NodeBounds(parent.children[border.index + 1], g.kids[border.index + 1], parent,
                                             ChildRect(g.split, g.ratios, a, border.index + 1));
    BorderShapes(t, q, border, r);
    var _, py0, _, py1, okParent := NodeBounds(parent, g, parent.parent, a);
    BorderShapes(t, q, border, r);
    BorderRects(t, q, border.index, r);
    var minY := ty0 + MinPaneHeight;
    var maxY := by1 - MinPaneHeight;
    rs := parent.ratios;
    if maxY <= minY { return; }
    var at := y;
    if at < minY { at := minY; }
    if at > maxY { at := maxY; }
    var parentHeight := py1 - py0;
    if parentHeight <= 0 { return; }
    var topHeight := at - ty0;
    var bottomHeight := by1 - at;
    if topHeight < MinPaneHeight { topHeight := MinPaneHeight; }
    if bottomHeight < MinPaneHeight { bottomHeight := MinPaneHeight; }
    rs := BorderRatios(parent.ratios, border.index, topHeight as real / parentHeight as real,
                       bottomHeight as real / parentHeight as real);
  }

  lemma {:induction false} GroupChild(g: Shape, up: Node?, a: Rect, j: nat)
    requires g.Branch? && WellFormed(g) && Rep(g, up) && Laid(g, a) && a.Proper() && j < |g.kids|
    ensures |g.ratios| == |g.kids| && g.node.ratios == g.ratios && |g.node.children| == |g.kids|
    ensures g.node.children[j] == g.kids[j].node && Rep(g.kids[j], g.node) && WellFormed(g.kids[j])
    ensures Laid(g.kids[j], ChildRect(g.split, g.ratios, a, j))
  {
  }

  /** The heap and the rectangles around a border. */
  lemma {:induction false} BorderShapes(t: Shape, q: Path, border: Border, r: Rect)
    requires WellFormed(t) && Rep(t, null) && r.Proper() && Laid(t, r) && OnBorder(t, q, border)
    ensures var g, a, i := At(t, q), RectAt(t, q, r), border.index;
      && WellFormed(g) && |g.ratios| == |g.kids| && Rep(g, border.node.parent) && Laid(g, a) && a.Proper()
      && border.node.ratios == g.ratios && i + 1 < |border.node.children|
      && forall j :: i <= j <= i + 1 ==>
           && border.node.children[j] == g.kids[j].node && Rep(g.kids[j], border.node) && WellFormed(g.kids[j])
           && Laid(g.kids[j], ChildRect(g.split, g.ratios, a, j)) && ChildRect(g.split, g.ratios, a, j).Proper()
  {
    hide At, HasPath, Laid, Nodes, Panes, Distinct, RectAt, ChildRect, Fits;
    var g, a, i := At(t, q), RectAt(t, q, r), border.index;
    Inside(t, q);
    NodeAt(t, q);
    ParentOfNode(t, q);
    LaidAt(t, q, r);
    RectWithin(t, q, r);
    ChildWithin(g, a, i);
    ChildWithin(g, a, i + 1);
    GroupChild(g, border.node.parent, a, i);
    GroupChild(g, border.node.parent, a, i + 1);
  }

  lemma {:induction false} ParentOfNode(t: Shape, q: Path)
    requires Rep(t, null) && HasPath(t, q)
    ensures ParentOf(t, q, null) == At(t, q).node.parent
  {
    NodeAt(t, q);
  }
}
