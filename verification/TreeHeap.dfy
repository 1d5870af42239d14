/** The tree object of texel/tree.go over the heap of nodes and panes. */
module TreeHeap {
  import opened Prelude
  import opened Ratios
  import opened PaneTree
  import opened Layout
  import opened Navigation
  import opened Edits

  /** What a tree object stands for: its shape and the path of its active leaf. */
  datatype View = View(tree: Shape, focus: Path)

  // ------------------------------------------------------------------ climbing

  /** One step of a climb from the leaf at f: p is the node just left. */
  lemma {:induction false} Climb(t: Shape, f: Path, p: Path, d: Direction)
    requires HasPath(t, f) && p <= f && p != [] && HasPath(t, p)
    requires HasPath(At(t, p), f[|p|..]) && Crossing(At(t, p), f[|p|..], d).None?
    ensures Spot(t, Init(p), Last(p)) && At(t, Init(p)).kids[Last(p)] == At(t, p)
    ensures HasPath(At(t, Init(p)), f[|p| - 1..])
    ensures Crossing(At(t, Init(p)), f[|p| - 1..], d) == Here(At(t, Init(p)), Last(p), d)
    ensures Here(At(t, Init(p)), Last(p), d).Some? ==>
      Crossing(t, f, d) == Some(Here(At(t, Init(p)), Last(p), d).value.(at := Init(p)))
  {
    var q, i := Init(p), Last(p);
    PathLast(t, p);
    var s := f[|q|..];
    assert s[0] == i && s[1..] == f[|p|..];
    assert f == q + s;
    if Here(At(t, q), i, d).Some? {
      CrossingLift(t, q, s, d, Here(At(t, q), i, d).value);
      assert q + [] == q;
    }
  }

  lemma {:induction false} ParentIs(t: Shape, p: Path, parent: Node?)
    requires HasPath(t, p) && p != []
    ensures HasPath(t, Init(p)) && ParentOf(t, p, parent) == At(t, Init(p)).node
  {
    PathLast(t, p);
    if |p| > 1 {
      ParentIs(t.kids[p[0]], p[1..], t.node);
      assert Init(p)[1..] == Init(p[1..]);
    }
  }

  /** What the fields of the node at p hold. */
  lemma {:induction false} NodeAt(t: Shape, p: Path)
    requires HasPath(t, p) && Rep(t, null)
    ensures At(t, p).node in Nodes(t) && Rep(At(t, p), ParentOf(t, p, null))
    ensures At(t, p).node.parent == null <==> p == []
    ensures p != [] ==> HasPath(t, Init(p)) && At(t, p).node.parent == At(t, Init(p)).node
  {
    Inside(t, p);
    RepAt(t, p, null);
    if p != [] { ParentIs(t, p, null); }
  }

  lemma {:induction false} SplitField(t: Shape, p: Path)
    requires Rep(t, null) && HasPath(t, p) && At(t, p).Branch?
    ensures var n := At(t, p).node;
      && n.split == At(t, p).split && n.children == KidNodes(At(t, p).kids)
      && n.ratios == At(t, p).ratios && n.pane == null
  {
    NodeAt(t, p);
  }

  lemma {:induction false} LeafField(t: Shape, p: Path)
    requires Rep(t, null) && LeafPath(t, p)
    ensures At(t, p).node.pane == At(t, p).pane && At(t, p).node.children == []
  {
    NodeAt(t, p);
  }

  lemma {:induction false} ChildIndex(g: Shape, i: nat)
    requires g.Branch? && Distinct(g) && i < |g.kids|
    ensures forall j :: 0 <= j < |g.kids| && KidNodes(g.kids)[j] == g.kids[i].node ==> j == i
  {
    forall j | 0 <= j < |g.kids| && j != i ensures g.kids[j].node != g.kids[i].node {
      KidsApart(g, j, i);
      assert g.kids[j].node in Nodes(g.kids[j]) && g.kids[i].node in Nodes(g.kids[i]);
    }
  }

  /** First position of child in children, or -1. */
  method IndexOf(children: seq<Node>, child: Node) returns (index: int)
    ensures -1 <= index < |children|
    ensures index >= 0 ==> children[index] == child
    ensures index == -1 ==> child !in children
  {
    index := -1;
    for i := 0 to |children|
      invariant child !in children[..i]
    {
      if children[i] == child { return i; }
    }
  }

  /** The loop of ratiosAreEqual. */
  method RatiosAreEqual(ratios: seq<real>) returns (equal: bool)
    ensures equal == RatiosEqual(ratios)
  {
    if |ratios| <= 1 { return true; }
    for i := 1 to |ratios|
      invariant forall j :: 1 <= j < i ==> Abs(ratios[j] - ratios[0]) <= 0.001
    {
      if Abs(ratios[i] - ratios[0]) > 0.001 { return false; }
    }
    return true;
  }

  // ----------------------------------------------------------- read-only walks

  /** findFirstLeaf (texel/tree.go:319-329). */
  method FindFirstLeaf(node: Node, ghost t: Shape, ghost parent: Node?) returns (leaf: Node)
    requires t.node == node && WellFormed(t) && Rep(t, parent)
    ensures LeafPath(t, FirstLeaf(t)) && leaf == At(t, FirstLeaf(t)).node
  {
    leaf := node;
    ghost var s, p, up := t, [], parent;
    while |leaf.children| > 0
      invariant HasPath(t, p) && s == At(t, p) && leaf == s.node && WellFormed(s)
      invariant Rep(s, up)
      invariant FirstLeaf(t) == p + FirstLeaf(s)
      decreases s
    {
      PathStep(t, p, 0);
      assert FirstLeaf(s) == [0] + FirstLeaf(s.kids[0]);
      assert Rep(s.kids[0], leaf);
      leaf, s, p, up := leaf.children[0], s.kids[0], p + [0], leaf;
    }
    assert s.Leaf?;
    assert p + [] == p;
  }

  /** findParentOf (texel/tree.go:390-403) agrees with the parent pointers. */
  method FindParentOf(current: Node, parent: Node?, target: Node, ghost t: Shape) returns (found: Node?)
    requires t.node == current && Rep(t, parent) && Distinct(t)
    ensures target in Nodes(t) ==> found == target.parent
    ensures target !in Nodes(t) ==> found == null
    decreases t
  {
    if current == target { return parent; }
    for i := 0 to |current.children|
      invariant Rep(t, parent)
      invariant forall j :: 0 <= j < i ==> target !in Nodes(t.kids[j])
    {
      assert allocated(Nodes(t)) && Rep(t.kids[i], current);
      if target in Nodes(t.kids[i]) { ParentNotNull(t.kids[i], target, current); }
      found := FindParentOf(current.children[i], current, target, t.kids[i]);
      if found != null { return; }
    }
    return null;
  }

  /** Below a node every parent pointer is set. */
  lemma {:induction false} ParentNotNull(t: Shape, n: Node, parent: Node)
    requires Rep(t, parent) && n in Nodes(t)
    ensures n.parent != null
  {
    if n != t.node {
      var i :| 0 <= i < |t.kids| && n in Nodes(t.kids[i]);
      ParentNotNull(t.kids[i], n, t.node);
    }
  }

  lemma {:induction false} SomeChildHolds(t: Shape, r: Rect, x: int, y: int)
    requires WellFormed(t) && t.Branch? && r.Proper()
    ensures r.Holds(x, y) ==> exists i :: 0 <= i < |t.kids| && ChildRect(t.split, t.ratios, r, i).Holds(x, y)
  {
    if r.Holds(x, y) {
      var v := t.split.Vertical?;
      var i := FindSpan(t.ratios, if v then r.w else r.h, if v then x - r.x else y - r.y, 0);
      assert ChildRect(t.split, t.ratios, r, i).Holds(x, y);
    }
  }

  /** findLeafAt (texel/tree.go:541-557): the one leaf whose rectangle holds the point. */
  method FindLeafAt(node: Node, x: int, y: int, ghost t: Shape, ghost parent: Node?, ghost r: Rect)
    returns (hit: Node?, ghost p: Path)
    requires t.node == node && Rep(t, parent) && WellFormed(t) && Laid(t, r) && r.Proper()
    ensures hit == null <==> !r.Holds(x, y)
    ensures hit != null ==> LeafPath(t, p) && hit == At(t, p).node && RectAt(t, p, r).Holds(x, y)
    decreases t
  {
    p := [];
    if node.pane != null {
      var q := node.pane;
      if q.absX0 <= x < q.absX1 && q.absY0 <= y < q.absY1 { return node, p; }
      return null, p;
    }
    for i := 0 to |node.children|
      invariant Rep(t, parent) && Laid(t, r)
      invariant forall j :: 0 <= j < i ==> !ChildRect(t.split, t.ratios, r, j).Holds(x, y)
    {
      assert allocated(Nodes(t)) && allocated(Panes(t));
      assert Rep(t.kids[i], node);
      ChildWithin(t, r, i);
      hit, p := FindLeafAt(node.children[i], x, y, t.kids[i], node, ChildRect(t.split, t.ratios, r, i));
      if hit != null {
        ghost var q := p;
        p := [i] + q;
        assert p[1..] == q;
        return;
      }
    }
    SomeChildHolds(t, r, x, y);
    return null, [];
  }

  /** NodeBounds (texel/tree.go:350-387): the union of a subtree's panes is its rectangle. */
  method NodeBounds(node: Node, ghost t: Shape, ghost parent: Node?, ghost r: Rect)
    returns (x0: int, y0: int, x1: int, y1: int, ok: bool)
    requires t.node == node && Rep(t, parent) && WellFormed(t) && Laid(t, r) && r.Proper()
    ensures ok && x0 == r.x && y0 == r.y && x1 == r.x + r.w && y1 == r.y + r.h
    decreases t
  {
    if node.pane != null {
      return node.pane.absX0, node.pane.absY0, node.pane.absX1, node.pane.absY1, true;
    }
    ok := false;
    x0, y0, x1, y1 := 0, 0, 0, 0;
    ghost var len := if t.split.Vertical? then r.w else r.h;
    for i := 0 to |node.children|
      invariant Rep(t, parent) && Laid(t, r)
      invariant ok <==> i > 0
      invariant ok ==> x0 == r.x && y0 == r.y
      invariant ok && t.split.Vertical? ==> y1 == r.y + r.h && x1 == r.x + Edge(t.ratios, len, i)
      invariant ok && t.split.Horizontal? ==> x1 == r.x + r.w && y1 == r.y + Edge(t.ratios, len, i)
    {
      assert allocated(Nodes(t)) && allocated(Panes(t));
      assert Rep(t.kids[i], node);
      ChildWithin(t, r, i);
      Edges(t.ratios, len, i, i + 1);
      Edges(t.ratios, len, 0, i);
      var cx0, cy0, cx1, cy1, found :=
        NodeBounds(node.children[i], t.kids[i], node, ChildRect(t.split, t.ratios, r, i));
      if !found { continue; }
      if !ok {
        x0, y0, x1, y1, ok := cx0, cy0, cx1, cy1, true;
        continue;
      }
      if cx0 < x0 { x0 := cx0; }
      if cy0 < y0 { y0 := cy0; }
      if cx1 > x1 { x1 := cx1; }
      if cy1 > y1 { y1 := cy1; }
    }
  }

  // -------------------------------------------------------------------- layout

  /** resizeNode (texel/tree.go:429-508): lay t out over r. */
  method ResizeNode(node: Node, x: int, y: int, w: int, h: int, ghost t: Shape, ghost parent: Node?)
    requires t.node == node && Rep(t, parent) && WellFormed(t) && Distinct(t) && w >= 0 && h >= 0
    modifies Panes(t)`absX0, Panes(t)`absY0, Panes(t)`absX1, Panes(t)`absY1
    ensures Laid(t, Rect(x, y, w, h))
    decreases t, 1
  {
    if |node.children| == 0 && node.pane != null {
      var p := node.pane;
      p.absX0, p.absY0, p.absX1, p.absY1 := x, y, x + w, y + h;
      return;
    }
    if node.split == Vertical {
      ResizeColumns(node, x, y, w, h, t, parent);
    } else {
      ResizeRows(node, x, y, w, h, t, parent);
    }
  }

  /** The panes of the first i children of t. */
  ghost function FirstPanes(t: Shape, i: nat): set<Pane>
    requires t.Branch? && i <= |t.kids|
  {
    set j, o | 0 <= j < i && o in Panes(t.kids[j]) :: o
  }

  /** The first i children of t are laid out. */
  ghost predicate LaidFirst(t: Shape, r: Rect, i: nat)
    requires t.Branch? && WellFormed(t) && i <= |t.kids|
    reads FirstPanes(t, i)`absX0, FirstPanes(t, i)`absY0, FirstPanes(t, i)`absX1, FirstPanes(t, i)`absY1
  {
    forall j :: 0 <= j < i ==> Laid(t.kids[j], ChildRect(t.split, t.ratios, r, j))
  }

  lemma {:induction false} LaidNext(t: Shape, r: Rect, i: nat, cr: Rect)
    requires t.Branch? && WellFormed(t) && i < |t.kids| && LaidFirst(t, r, i)
    requires cr == ChildRect(t.split, t.ratios, r, i) && Laid(t.kids[i], cr)
    ensures LaidFirst(t, r, i + 1)
  {
  }

  lemma {:induction false} FirstPanesApart(t: Shape, i: nat)
    requires t.Branch? && Distinct(t) && i < |t.kids|
    ensures FirstPanes(t, i) !! Panes(t.kids[i])
  {
    forall j | 0 <= j < i ensures Panes(t.kids[j]) !! Panes(t.kids[i]) { KidsApart(t, j, i); }
  }

  /** What a laid-out loop reads of a group, and of its child i. */
  lemma {:induction false} GroupHeap(t: Shape, parent: Node?)
    requires t.Branch? && Rep(t, parent) && WellFormed(t)
    ensures |t.node.children| == |t.kids| == |t.ratios| && t.node.ratios == t.ratios && Fits(t.ratios)
  {
  }

  lemma {:induction false} ChildHeap(t: Shape, parent: Node?, i: nat)
    requires t.Branch? && Rep(t, parent) && WellFormed(t) && Distinct(t) && i < |t.kids|
    ensures |t.node.children| == |t.kids| && t.node.children[i] == t.kids[i].node && Rep(t.kids[i], t.node)
    ensures WellFormed(t.kids[i]) && Distinct(t.kids[i]) && Panes(t.kids[i]) <= Panes(t) && Nodes(t.kids[i]) <= Nodes(t)
    ensures FirstPanes(t, i) <= Panes(t) && Fits(t.ratios)
  {
  }

  /** The running edge, the child's size and the next edge. */
  lemma {:induction false} SizeEdge(rs: seq<real>, len: int, i: nat)
    requires Fits(rs) && len >= 0 && i < |rs|
    ensures Edge(rs, len, i) == Offset(rs, len, i) && Size(rs, len, i) >= 0
    ensures Size(rs, len, i) == if i == |rs| - 1 then len - Edge(rs, len, i) else Share(len, rs[i])
    ensures Edge(rs, len, i + 1) == Edge(rs, len, i) + Size(rs, len, i) && Edge(rs, len, 0) == 0
  {
    Edges(rs, len, i, i + 1);
  }

  lemma {:induction false} NothingLaid(t: Shape, r: Rect)
    requires t.Branch? && WellFormed(t)
    ensures LaidFirst(t, r, 0) && |t.kids| == |t.ratios| >= 2
    ensures Edge(t.ratios, r.w, 0) == 0 && Edge(t.ratios, r.h, 0) == 0
  {
  }

  lemma {:induction false} LaidAll(t: Shape, r: Rect)
    requires t.Branch? && WellFormed(t) && LaidFirst(t, r, |t.kids|)
    ensures Laid(t, r)
  {
  }

  method ResizeColumns(node: Node, x: int, y: int, w: int, h: int, ghost t: Shape, ghost parent: Node?)
    requires t.Branch? && t.split.Vertical?
    requires t.node == node && Rep(t, parent) && WellFormed(t) && Distinct(t) && w >= 0 && h >= 0
    modifies Panes(t)`absX0, Panes(t)`absY0, Panes(t)`absX1, Panes(t)`absY1
    ensures Laid(t, Rect(x, y, w, h))
    decreases t, 0
  {
    hide Rep, WellFormed, Distinct, Nodes, Panes, Laid, LaidFirst, FirstPanes, Edge, Offset, Size, Share;
    ghost var r := Rect(x, y, w, h);
    GroupHeap(t, parent);
    NothingLaid(t, r);
    var n := |node.children|;
    var currentX := x;
    for i := 0 to n
      invariant Rep(t, parent) && |node.children| == n == |t.kids| == |t.ratios| && node.ratios == t.ratios
      invariant currentX == x + Edge(t.ratios, w, i)
      invariant LaidFirst(t, r, i)
    {
      ChildHeap(t, parent, i);
      SizeEdge(t.ratios, w, i);
      var childW := Share(w, node.ratios[i]);
      if i == n - 1 { childW := w - (currentX - x); }
      assert allocated(Nodes(t)) && allocated(Nodes(t.kids[i])) && allocated(FirstPanes(t, i));
      FirstPanesApart(t, i);
      ghost var cr := ChildRect(t.split, t.ratios, r, i);
      label Before:
      ResizeNode(node.children[i], currentX, y, childW, h, t.kids[i], node);
      assert old@Before(Rep(t, parent)) == Rep(t, parent) && old@Before(LaidFirst(t, r, i)) == LaidFirst(t, r, i);
      LaidNext(t, r, i, cr);
      currentX := currentX + childW;
    }
    LaidAll(t, r);
  }

  method ResizeRows(node: Node, x: int, y: int, w: int, h: int, ghost t: Shape, ghost parent: Node?)
    requires t.Branch? && t.split.Horizontal?
    requires t.node == node && Rep(t, parent) && WellFormed(t) && Distinct(t) && w >= 0 && h >= 0
    modifies Panes(t)`absX0, Panes(t)`absY0, Panes(t)`absX1, Panes(t)`absY1
    ensures Laid(t, Rect(x, y, w, h))
    decreases t, 0
  {
    hide Rep, WellFormed, Distinct, Nodes, Panes, Laid, LaidFirst, FirstPanes, Edge, Offset, Size, Share;
    ghost var r := Rect(x, y, w, h);
    GroupHeap(t, parent);
    NothingLaid(t, r);
    var n := |node.children|;
    var currentY := y;
    for i := 0 to n
      invariant Rep(t, parent) && |node.children| == n == |t.kids| == |t.ratios| && node.ratios == t.ratios
      invariant currentY == y + Edge(t.ratios, h, i)
      invariant LaidFirst(t, r, i)
    {
      ChildHeap(t, parent, i);
      SizeEdge(t.ratios, h, i);
      var childH := Share(h, node.ratios[i]);
      if i == n - 1 { childH := h - (currentY - y); }
      assert allocated(Nodes(t)) && allocated(Nodes(t.kids[i])) && allocated(FirstPanes(t, i));
      FirstPanesApart(t, i);
      ghost var cr := ChildRect(t.split, t.ratios, r, i);
      label Before:
      ResizeNode(node.children[i], x, currentY, w, childH, t.kids[i], node);
      assert old@Before(Rep(t, parent)) == Rep(t, parent) && old@Before(LaidFirst(t, r, i)) == LaidFirst(t, r, i);
      LaidNext(t, r, i, cr);
      currentY := currentY + childH;
    }
    LaidAll(t, r);
  }

  // ------------------------------------------------------------------- updates

  lemma {:induction false} NodeHasPath(t: Shape, n: Node) returns (p: Path)
    requires n in Nodes(t)
    ensures HasPath(t, p) && At(t, p).node == n
  {
    if n == t.node {
      p := [];
    } else {
      var i :| 0 <= i < |t.kids| && n in Nodes(t.kids[i]);
      var q := NodeHasPath(t.kids[i], n);
      p := [i] + q;
      assert p[1..] == q;
    }
  }

  /** A pane sits in the one node of its leaf. */
  lemma {:induction false} PaneNode(t: Shape, m: map<Node, Fields>, f: Path, n: Node)
    requires Distinct(t) && RepIn(t, null, m) && LeafPath(t, f) && n in Nodes(t)
    ensures n in m && (m[n].pane == At(t, f).pane <==> n == At(t, f).node)
  {
    var p := NodeHasPath(t, n);
    RepInAt(t, p, null, m);
    RepInAt(t, f, null, m);
    if m[n].pane == At(t, f).pane { SamePaneSamePath(t, p, f); }
  }

  ghost function ExchangedIn(p: Pane?, x: Pane, y: Pane): Pane? {
    if p == x then y else if p == y then x else p
  }

  lemma {:induction false} SwapRep(t: Shape, up: Node?, x: Pane, y: Pane, m: map<Node, Fields>, m': map<Node, Fields>)
    requires RepIn(t, up, m)
    requires forall n | n in Nodes(t) :: n in m && n in m' && m'[n] == m[n].(pane := ExchangedIn(m[n].pane, x, y))
    ensures RepIn(Swap(t, x, y), up, m')
  {
    assert t.node in Nodes(t);
    if t.Branch? {
      var t' := Swap(t, x, y);
      forall i | 0 <= i < |t.kids| ensures RepIn(t'.kids[i], t.node, m') && t'.kids[i].node == t.kids[i].node {
        SwapRep(t.kids[i], t.node, x, y, m, m');
        SwapNodes(t.kids[i], x, y);
      }
      assert KidNodes(t'.kids) == KidNodes(t.kids);
    }
  }

  /** Two leaves exchange their panes (texel/tree.go:241). */
  method ExchangePanes(a: Node, b: Node, ghost t: Shape, ghost f: Path, ghost g: Path)
    requires Distinct(t) && Rep(t, null) && LeafPath(t, f) && LeafPath(t, g)
    requires At(t, f).node == a && At(t, g).node == b
    modifies a`pane, b`pane
    ensures Rep(Swap(t, At(t, f).pane, At(t, g).pane), null)
  {
    hide Rep, RepIn, HasPath, At, Distinct, Nodes, Swap;
    assert allocated(Nodes(t));
    ghost var s := Nodes(t);
    ghost var x, y := At(t, f).pane, At(t, g).pane;
    LeafField(t, f);
    LeafField(t, g);
    RepIsRepIn(t, null, s);
    ghost var m := Contents(s);
    forall n | n in s
      ensures (m[n].pane == x <==> n == a) && (m[n].pane == y <==> n == b)
    {
      PaneNode(t, m, f, n);
      PaneNode(t, m, g, n);
    }
    a.pane, b.pane := b.pane, a.pane;
    ghost var m' := Contents(s);
    assert forall n | n in s :: m'[n] == m[n].(pane := ExchangedIn(m[n].pane, x, y));
    SwapRep(t, null, x, y, m, m');
    SwapNodes(t, x, y);
    RepIsRepIn(Swap(t, x, y), null, s);
  }

  /** Well-formed, without sharing, focused on a leaf. */
  ghost predicate Sound(v: View) {
    WellFormed(v.tree) && Distinct(v.tree) && LeafPath(v.tree, v.focus)
  }

  /** Only the focused pane is marked active. */
  ghost predicate Marked(t: Shape, active: Pane)
    reads Panes(t)
  {
    forall p | p in Panes(t) :: p.isActive <==> p == active
  }

  /** One node of a recorded heap rewritten, others possibly added. */
  ghost predicate Rewritten(s: set<Node>, n: Node, f: Fields, m: map<Node, Fields>, m': map<Node, Fields>) {
    n in m' && m'[n] == f && Agree(s - {n}, m, m')
  }

  lemma {:induction false} AgreeKid(s: Shape, i: nat, n: Node, f: Fields, m: map<Node, Fields>, m': map<Node, Fields>)
    requires s.Branch? && Distinct(s) && i < |s.kids| && n == s.node
    requires RepIn(s.kids[i], n, m) && Rewritten(Nodes(s), n, f, m, m')
    ensures RepIn(s.kids[i], n, m')
  {
    assert n !in Nodes(s.kids[i]);
    assert Agree(Nodes(s.kids[i]), m, m');
    RepAgree(s.kids[i], n, m, m');
  }

  lemma {:induction false} RepInAt(t: Shape, p: Path, parent: Node?, m: map<Node, Fields>)
    requires HasPath(t, p) && RepIn(t, parent, m)
    ensures RepIn(At(t, p), ParentOf(t, p, parent), m)
  {
    if p != [] { RepInAt(t.kids[p[0]], p[1..], t.node, m); }
  }

  lemma {:induction false} GrownRep(g: Shape, up: Node?, b: Node, pane: Pane,
                                    m: map<Node, Fields>, m': map<Node, Fields>)
    requires g.Branch? && Distinct(g) && RepIn(g, up, m)
    requires Rewritten(Nodes(g), g.node,
                       m[g.node].(children := m[g.node].children + [b], ratios := Equal(|g.kids| + 1)), m, m')
    requires b in m' && m'[b].parent == g.node && m'[b].pane == pane && m'[b].children == []
    ensures RepIn(Grown(g, b, pane), up, m')
  {
    var s := Grown(g, b, pane);
    forall i | 0 <= i < |s.kids| ensures RepIn(s.kids[i], g.node, m') {
      if i < |g.kids| {
        AgreeKid(g, i, g.node, m'[g.node], m, m');
      }
    }
    assert KidNodes(s.kids) == KidNodes(g.kids) + [b];
  }

  lemma {:induction false} AgreeParts(t: Shape, p: Path, n: Node, f: Fields, m: map<Node, Fields>,
                                      m': map<Node, Fields>)
    requires HasPath(t, p) && At(t, p).node == n && Rewritten(Nodes(t), n, f, m, m')
    ensures Rewritten(Nodes(At(t, p)), n, f, m, m')
    ensures Agree(Nodes(t) - Nodes(At(t, p)), m, m')
  {
    Inside(t, p);
    assert n in Nodes(At(t, p));
  }

  lemma {:induction false} JoinRep(t: Shape, q: Path, b: Node, pane: Pane,
                                   m: map<Node, Fields>, m': map<Node, Fields>)
    requires Distinct(t) && HasPath(t, q) && At(t, q).Branch? && RepIn(t, null, m)
    requires At(t, q).node in m
    requires var g := At(t, q);
      Rewritten(Nodes(t), g.node,
                m[g.node].(children := m[g.node].children + [b], ratios := Equal(|g.kids| + 1)), m, m')
    requires b in m' && m'[b].parent == At(t, q).node && m'[b].pane == pane && m'[b].children == []
    ensures RepIn(Join(t, q, b, pane), null, m')
  {
    hide RepIn, HasPath, At, Put, Distinct, Nodes, ParentOf, Agree, Rewritten;
    var g := At(t, q);
    Inside(t, q);
    RepInAt(t, q, null, m);
    AgreeParts(t, q, g.node, m[g.node].(children := m[g.node].children + [b], ratios := Equal(|g.kids| + 1)), m, m');
    GrownRep(g, ParentOf(t, q, null), b, pane, m, m');
    RepPut(t, q, Grown(g, b, pane), null, m, m');
  }

  /** No pane of s is marked active. */
  ghost predicate Unmarked(s: set<Pane>)
    reads s
  {
    forall p | p in s :: !p.isActive
  }

  /** The active pane loses its mark. */
  method Deactivate(pane: Pane, ghost t: Shape)
    requires Marked(t, pane)
    modifies pane`isActive
    ensures Unmarked(Panes(t)) && !pane.isActive
  {
    pane.isActive := false;
  }

  /** An unmarked tree gets its one active pane. */
  method Activate(pane: Pane, ghost t: Shape)
    requires Unmarked(Panes(t) - {pane})
    modifies pane`isActive
    ensures Marked(t, pane)
  {
    pane.isActive := true;
  }

  /** Append a leaf to a node's children and share its width equally (texel/tree.go:117-130). */
  method AppendLeaf(parent: Node, newPane: Pane) returns (newNode: Node)
    modifies parent
    ensures fresh(newNode) && newNode.parent == parent && newNode.pane == newPane && newNode.children == []
    ensures parent.children == old(parent.children) + [newNode]
    ensures parent.ratios == Equal(|old(parent.children)| + 1)
    ensures parent.parent == old(parent.parent) && parent.split == old(parent.split) && parent.pane == old(parent.pane)
  {
    newNode := new Node(parent, newPane);
    parent.children := parent.children + [newNode];
    parent.ratios := Equal(|parent.children|);
  }

  /** The group at q gains a leaf. */
  method JoinGroup(parent: Node, newPane: Pane, ghost t: Shape, ghost q: Path) returns (newNode: Node)
    requires WellFormed(t) && Distinct(t) && Rep(t, null)
    requires HasPath(t, q) && At(t, q).Branch? && At(t, q).node == parent && newPane !in Panes(t)
    modifies parent
    ensures fresh(newNode) && newNode !in Nodes(t)
    ensures Rep(Join(t, q, newNode, newPane), null)
  {
    hide RepIn, Rep, HasPath, At, Put, WellFormed, Distinct, Nodes, Join;
    assert allocated(Nodes(t));
    ghost var s, g := Nodes(t), At(t, q);
    Inside(t, q);
    SplitField(t, q);
    RepIsRepIn(t, null, s);
    ghost var m := Contents(s);
    newNode := AppendLeaf(parent, newPane);
    ghost var m' := Contents(s + {newNode});
    assert Rewritten(s, parent, m[parent].(children := m[parent].children + [newNode],
                                           ratios := Equal(|g.kids| + 1)), m, m');
    JoinRep(t, q, newNode, newPane, m, m');
    JoinKeeps(t, q, newNode, newPane);
    RepIsRepIn(Join(t, q, newNode, newPane), null, s + {newNode});
  }

  lemma {:induction false} PairRep(l: Shape, up: Node?, dir: SplitType, a: Node, b: Node, pane: Pane,
                                   m': map<Node, Fields>)
    requires l.Leaf? && l.node in m' && m'[l.node] == Fields(up, dir, null, [0.5, 0.5], [a, b])
    requires a in m' && m'[a].parent == l.node && m'[a].pane == l.pane && m'[a].children == []
    requires b in m' && m'[b].parent == l.node && m'[b].pane == pane && m'[b].children == []
    ensures RepIn(Pair(l, dir, a, b, pane), up, m')
  {
    var s := Pair(l, dir, a, b, pane);
    assert KidNodes(s.kids) == [a, b];
    assert RepIn(s.kids[0], s.node, m') && RepIn(s.kids[1], s.node, m');
  }

  lemma {:induction false} LeafFields(l: Shape, up: Node?, m: map<Node, Fields>)
    requires l.Leaf? && RepIn(l, up, m)
    ensures l.node in m && m[l.node].parent == up && m[l.node].pane == l.pane && m[l.node].children == []
  {
  }

  lemma {:induction false} DivideRep(t: Shape, f: Path, dir: SplitType, a: Node, b: Node, pane: Pane,
                                     m: map<Node, Fields>, m': map<Node, Fields>)
    requires Distinct(t) && LeafPath(t, f) && RepIn(t, null, m)
    requires At(t, f).node in m
    requires var n := At(t, f).node;
      && Rewritten(Nodes(t), n, Fields(m[n].parent, dir, null, [0.5, 0.5], [a, b]), m, m')
      && a in m' && m'[a].parent == n && m'[a].pane == At(t, f).pane && m'[a].children == []
      && b in m' && m'[b].parent == n && m'[b].pane == pane && m'[b].children == []
    ensures RepIn(Divide(t, f, dir, a, b, pane), null, m')
  {
    hide RepIn, HasPath, At, Put, Distinct, Nodes, ParentOf, Agree;
    var l := At(t, f);
    Inside(t, f);
    RepInAt(t, f, null, m);
    LeafFields(l, ParentOf(t, f, null), m);
    AgreeParts(t, f, l.node, Fields(m[l.node].parent, dir, null, [0.5, 0.5], [a, b]), m, m');
    PairRep(l, ParentOf(t, f, null), dir, a, b, pane, m');
    RepPut(t, f, Pair(l, dir, a, b, pane), null, m, m');
  }

  /** Turn a leaf into a group of two (texel/tree.go:137-147). */
  method GrowPair(node: Node, dir: SplitType, newPane: Pane) returns (child1: Node, child2: Node)
    modifies node
    ensures fresh(child1) && fresh(child2) && child1 != child2
    ensures child1.parent == node && child1.pane == old(node.pane) && child1.children == []
    ensures child2.parent == node && child2.pane == newPane && child2.children == []
    ensures node.parent == old(node.parent) && node.split == dir && node.pane == null
    ensures node.ratios == [0.5, 0.5] && node.children == [child1, child2]
  {
    var originalPane := node.pane;
    node.pane := null;
    node.split := dir;
    node.ratios := [0.5, 0.5];
    child1 := new Node(node, originalPane);
    child2 := new Node(node, newPane);
    node.children := [child1, child2];
  }

  method DivideLeaf(node: Node, dir: SplitType, newPane: Pane, ghost t: Shape, ghost f: Path)
    returns (child1: Node, child2: Node)
    requires WellFormed(t) && Distinct(t) && Rep(t, null)
    requires LeafPath(t, f) && At(t, f).node == node && newPane !in Panes(t)
    modifies node
    ensures fresh(child1) && fresh(child2) && child1 != child2 && child1 !in Nodes(t) && child2 !in Nodes(t)
    ensures Rep(Divide(t, f, dir, child1, child2, newPane), null)
  {
    hide RepIn, Rep, HasPath, At, Put, WellFormed, Distinct, Nodes, Divide;
    assert allocated(Nodes(t));
    ghost var s := Nodes(t);
    Inside(t, f);
    LeafField(t, f);
    RepIsRepIn(t, null, s);
    ghost var m := Contents(s);
    child1, child2 := GrowPair(node, dir, newPane);
    ghost var m' := Contents(s + {child1, child2});
    assert Rewritten(s, node, Fields(m[node].parent, dir, null, [0.5, 0.5], [child1, child2]), m, m');
    DivideRep(t, f, dir, child1, child2, newPane, m, m');
    DivideKeeps(t, f, dir, child1, child2, newPane);
    RepIsRepIn(Divide(t, f, dir, child1, child2, newPane), null, s + {child1, child2});
  }

  /** Whether the leaf's parent can take the new pane into its group (texel/tree.go:100-114). */
  method FindGroup(root: Node, leaf: Node, dir: SplitType, ghost t: Shape, ghost f: Path)
    returns (parent: Node?, joins: bool)
    requires Sound(View(t, f)) && Rep(t, null) && t.node == root && At(t, f).node == leaf
    ensures joins == Joins(t, f, dir)
    ensures joins ==> parent != null && f != [] && HasPath(t, Init(f)) && parent == At(t, Init(f)).node
    ensures joins ==> parent in Nodes(t)
  {
    assert allocated(Nodes(t));
    NodeAt(t, f);
    parent := FindParentOf(root, null, leaf, t);
    joins := false;
    if f != [] {
      PathLast(t, f);
      NodeAt(t, Init(f));
    }
    if parent != null && parent.split == dir {
      joins := RatiosAreEqual(parent.ratios);
    }
  }

  lemma {:induction false} SplitViewKeeps(t: Shape, f: Path, dir: SplitType, a: Node, b: Node, pane: Pane)
    requires Sound(View(t, f)) && a !in Nodes(t) && b !in Nodes(t) && pane !in Panes(t)
    requires a != b || Joins(t, f, dir)
    ensures var v := View(Split(t, f, dir, a, b, pane), SplitFocus(t, f, dir));
      && Sound(v) && At(v.tree, v.focus) == Leaf(b, pane)
      && Panes(v.tree) == Panes(t) + {pane} && v.tree.node == t.node
  {
    if Joins(t, f, dir) {
      JoinKeeps(t, Init(f), b, pane);
      if Init(f) != [] { PutAt(t, Init(f), At(Join(t, Init(f), b, pane), [])); }
    } else {
      SplitKeeps(t, f, dir, a, b, pane);
    }
  }

  /** The tree part of SplitActive. */
  method SplitLeaf(root: Node, leaf: Node, dir: SplitType, newPane: Pane, ghost t: Shape, ghost f: Path)
    returns (newNode: Node, ghost first: Node)
    requires Sound(View(t, f)) && Rep(t, null) && t.node == root && At(t, f).node == leaf
    requires newPane !in Panes(t)
    modifies Nodes(t)
    ensures fresh(newNode) && fresh(first)
    ensures newNode !in Nodes(t) && first !in Nodes(t) && (first != newNode || Joins(t, f, dir))
    ensures Rep(Split(t, f, dir, first, newNode, newPane), null)
  {
    assert allocated(Nodes(t));
    var parent, joins := FindGroup(root, leaf, dir, t, f);
    assert Rep(t, null);
    Inside(t, f);
    if joins {
      newNode := JoinGroup(parent, newPane, t, Init(f));
      first := newNode;
    } else {
      first, newNode := DivideLeaf(leaf, dir, newPane, t, f);
    }
  }

  /** The border between children index and index + 1 of node (texel/workspace.go:56-59). */
  datatype Border = Border(node: Node, index: int)

  /** The border crossed on the way from the leaf at f in direction d. */
  ghost function BorderOf(t: Shape, f: Path, d: Direction): Option<Border>
    requires HasPath(t, f)
  {
    match Crossing(t, f, d)
    case None => None
    case Some(c) => CrossingOnPath(t, f, d); Some(Border(At(t, c.at).node, c.Index()))
  }

  /** A climb from the leaf at f has reached p without finding a crossing. */
  ghost predicate Climbing(t: Shape, f: Path, p: Path, d: Direction) {
    && HasPath(t, f) && p <= f && HasPath(t, p) && HasPath(At(t, p), f[|p|..])
    && Crossing(At(t, p), f[|p|..], d).None?
  }

  /** cur, the node at p, hangs from its parent as child i. */
  ghost predicate Hangs(t: Shape, p: Path, cur: Node, i: int)
    reads cur, cur.parent
  {
    && p != [] && HasPath(t, Init(p)) && cur.parent != null && At(t, Init(p)).node == cur.parent
    && At(t, Init(p)).Branch?
    && 0 <= i < |cur.parent.children| && cur.parent.children[i] == cur
    && forall j :: 0 <= j < |cur.parent.children| && cur.parent.children[j] == cur ==> j == i
  }

  lemma {:induction false} ClimbStart(t: Shape, f: Path, d: Direction)
    requires HasPath(t, f)
    ensures Climbing(t, f, f, d)
  {
    assert f[|f|..] == [];
  }

  lemma {:induction false} ClimbEnd(t: Shape, f: Path, d: Direction)
    requires Climbing(t, f, [], d)
    ensures Crossing(t, f, d).None?
  {
    assert f[0..] == f;
  }

  lemma {:induction false} ParentField(t: Shape, p: Path)
    requires Distinct(t) && Rep(t, null) && HasPath(t, p)
    ensures At(t, p).node.parent == null <==> p == []
    ensures p != [] ==> Hangs(t, p, At(t, p).node, Last(p))
  {
    NodeAt(t, p);
    if p != [] {
      PathLast(t, p);
      NodeAt(t, Init(p));
      Inside(t, Init(p));
      ChildIndex(At(t, Init(p)), Last(p));
    }
  }

  lemma {:induction false} ChildFields(t: Shape, q: Path, i: nat)
    requires Rep(t, null) && Spot(t, q, i)
    ensures var g := At(t, q);
      i < |g.node.children| && g.node.children[i] == g.kids[i].node && Rep(g.kids[i], g.node)
  {
    NodeAt(t, q);
  }

  /** leaf is the node focus moves to in direction d, or null if there is none. */
  ghost predicate IsNeighbor(t: Shape, f: Path, d: Direction, leaf: Node?)
    requires HasPath(t, f)
  {
    match Neighbor(t, f, d)
    case None => leaf == null
    case Some(m) => LeafPath(t, m) && leaf == At(t, m).node
  }

  lemma {:induction false} NeighborLeafPath(t: Shape, f: Path, d: Direction, leaf: Node?)
    requires WellFormed(t) && LeafPath(t, f) && Distinct(t) && IsNeighbor(t, f, d, leaf)
    ensures Neighbor(t, f, d).None? <==> leaf == null
    ensures leaf != null ==> var m := Neighbor(t, f, d).value;
      LeafPath(t, m) && leaf == At(t, m).node && At(t, m).pane != At(t, f).pane
  {
    if leaf != null {
      NeighborIsLeaf(t, f, d);
      if At(t, Neighbor(t, f, d).value).pane == At(t, f).pane {
        SamePaneSamePath(t, Neighbor(t, f, d).value, f);
      }
    }
  }

  lemma {:induction false} NoNeighbor(t: Shape, f: Path, d: Direction)
    requires HasPath(t, f) && Crossing(t, f, d).None?
    ensures IsNeighbor(t, f, d, null)
  {
  }

  lemma {:induction false} NeighborFound(t: Shape, f: Path, d: Direction, c: Cross, leaf: Node)
    requires WellFormed(t) && HasPath(t, f) && Crossing(t, f, d) == Some(c) && Spot(t, c.at, c.to)
    requires var k := At(t, c.at).kids[c.to]; HasPath(k, FirstLeaf(k)) && leaf == At(k, FirstLeaf(k)).node
    ensures IsNeighbor(t, f, d, leaf)
  {
    ArrivalIsLeaf(t, c.at, c.to);
  }

  /** One step up: a crossing here, or the climb goes on. */
  lemma {:induction false} ClimbStep(t: Shape, f: Path, p: Path, d: Direction, up: Node, i: nat)
    requires Rep(t, null) && Climbing(t, f, p, d) && p != [] && i == Last(p)
    requires HasPath(t, Init(p)) && At(t, Init(p)).node == up && At(t, Init(p)).Branch?
    ensures match Sibling(d, up.split, i, |up.children|)
      case None => Climbing(t, f, Init(p), d)
      case Some(j) => Spot(t, Init(p), j) && Crossing(t, f, d) == Some(Cross(Init(p), i, j))
  {
    SplitField(t, Init(p));
    Climb(t, f, p, d);
  }

  /** borderForNeighbor (texel/workspace_navigation.go:137-177). */
  method BorderForNeighbor(node: Node, dir: Direction, ghost t: Shape, ghost f: Path)
    returns (border: Option<Border>)
    requires Sound(View(t, f)) && Rep(t, null) && At(t, f).node == node
    ensures border == BorderOf(t, f, dir)
  {
    hide Rep, Crossing, HasPath, At, WellFormed, Distinct, Nodes;
    var current := node;
    ghost var p := f;
    ClimbStart(t, f, dir);
    ParentField(t, p);
    while current.parent != null
      invariant Rep(t, null) && Climbing(t, f, p, dir) && current == At(t, p).node
      invariant if current.parent == null then p == [] else p != [] && Hangs(t, p, current, Last(p))
      decreases |p|
    {
      var parent := current.parent;
      assert allocated(Nodes(t));
      label Search:
      var index := IndexOf(parent.children, current);
      assert old@Search(Rep(t, null)) == Rep(t, null);
      ClimbStep(t, f, p, dir, parent, index);
      match dir {
        case DirLeft =>
          if parent.split == Vertical && index > 0 { return Some(Border(parent, index - 1)); }
        case DirRight =>
          if parent.split == Vertical && index < |parent.children| - 1 { return Some(Border(parent, index)); }
        case DirUp =>
          if parent.split == Horizontal && index > 0 { return Some(Border(parent, index - 1)); }
        case DirDown =>
          if parent.split == Horizontal && index < |parent.children| - 1 { return Some(Border(parent, index)); }
        case DirNone =>
      }
      current, p := parent, Init(p);
      ParentField(t, p);
    }
    ClimbEnd(t, f, dir);
    return None;
  }

  /** findBorderToResize (texel/workspace_layout.go:502-534), before it marks the two sides. */
  method FindBorder(leaf: Node, d: Direction, ghost t: Shape, ghost f: Path) returns (border: Option<Border>)
    requires Sound(View(t, f)) && Rep(t, null) && At(t, f).node == leaf
    ensures border == BorderOf(t, f, d)
  {
    hide Rep, Crossing, HasPath, At, WellFormed, Distinct, Nodes;
    border := None;
    var curr := leaf;
    ghost var p := f;
    ClimbStart(t, f, d);
    ParentField(t, p);
    while curr.parent != null
      invariant border == None
      invariant Rep(t, null) && Climbing(t, f, p, d) && curr == At(t, p).node
      invariant if curr.parent == null then p == [] else p != [] && Hangs(t, p, curr, Last(p))
      decreases |p|
    {
      var parent := curr.parent;
      ClimbStep(t, f, p, d, parent, Last(p));
      if (d == DirLeft || d == DirRight) && parent.split == Vertical {
        for i := 0 to |parent.children|
          invariant border == None && i <= Last(p)
        {
          if parent.children[i] == curr {
            if d == DirRight && i < |parent.children| - 1 {
              border := Some(Border(parent, i));
            } else if d == DirLeft && i > 0 {
              border := Some(Border(parent, i - 1));
            }
            break;
          }
        }
      } else if (d == DirUp || d == DirDown) && parent.split == Horizontal {
        for i := 0 to |parent.children|
          invariant border == None && i <= Last(p)
        {
          if parent.children[i] == curr {
            if d == DirDown && i < |parent.children| - 1 {
              border := Some(Border(parent, i));
            } else if d == DirUp && i > 0 {
              border := Some(Border(parent, i - 1));
            }
            break;
          }
        }
      }
      if border != None { break; }
      curr, p := parent, Init(p);
      ParentField(t, p);
    }
    if border == None { ClimbEnd(t, f, d); }
  }

  /** The layout tree of one workspace (texel/tree.go:40-43). */
  class Tree {
    var root: Node?
    var activeLeaf: Node?
    ghost var view: Option<View>

    /** The tree holds at least one pane and matches its view. */
    ghost predicate Valid()
      reads this, if view.Some? then Nodes(view.value.tree) else {}
    {
      view.Some? && Sound(view.value) &&
      var t := view.value.tree;
      root == t.node && Rep(t, null) && activeLeaf == At(t, view.value.focus).node
    }

    ghost predicate Empty()
      reads this
    {
      view.None? && root == null && activeLeaf == null
    }

    ghost function Active(): Pane
      requires view.Some? && Sound(view.value)
      reads this
    {
      At(view.value.tree, view.value.focus).pane
    }

    constructor NewTree()
      ensures Empty()
    {
      root, activeLeaf, view := null, null, None;
    }

    /** SetRoot (texel/tree.go:51-62): a single leaf, whose pane the caller activates. */
    method SetRoot(p: Pane)
      modifies this
      ensures Valid() && fresh(root) && view == Some(View(Leaf(root, p), []))
    {
      var leaf := new Node(null, p);
      root := leaf;
      activeLeaf := leaf;
      view := Some(View(Leaf(leaf, p), []));
    }

    /** Take over a rebuilt heap. */
    method Adopt(newRoot: Node, active: Node, ghost v: View)
      requires Sound(v) && Rep(v.tree, null) && newRoot == v.tree.node && active == At(v.tree, v.focus).node
      modifies this
      ensures Valid() && view == Some(v) && root == newRoot && activeLeaf == active
    {
      hide Rep, HasPath, At, WellFormed, Distinct, Nodes;
      assert allocated(Nodes(v.tree));
      label Start:
      root, activeLeaf, view := newRoot, active, Some(v);
      assert old@Start(Rep(v.tree, null)) == Rep(v.tree, null);
    }

    /** The tree's own part of a split: new nodes and the new active leaf. */
    method Graft(splitDir: SplitType, newPane: Pane) returns (newNode: Node, ghost first: Node)
      requires Valid() && newPane !in Panes(view.value.tree)
      modifies this, Nodes(view.value.tree)
      ensures Valid() && fresh(newNode) && fresh(first) && newNode == activeLeaf
      ensures var v := old(view.value);
        newNode !in Nodes(v.tree) && first !in Nodes(v.tree) && (first != newNode || Joins(v.tree, v.focus, splitDir))
      ensures var v := old(view.value);
        && view == Some(View(Split(v.tree, v.focus, splitDir, first, newNode, newPane),
                             SplitFocus(v.tree, v.focus, splitDir)))
        && Active() == newPane && Panes(view.value.tree) == Panes(v.tree) + {newPane}
    {
      hide Rep, HasPath, At, Put, WellFormed, Distinct, Nodes;
      ghost var t, f := view.value.tree, view.value.focus;
      newNode, first := SplitLeaf(root, activeLeaf, splitDir, newPane, t, f);
      SplitViewKeeps(t, f, splitDir, first, newNode, newPane);
      ghost var t' := Split(t, f, splitDir, first, newNode, newPane);
      assert allocated(Nodes(t'));
      label Built:
      activeLeaf := newNode;
      view := Some(View(t', SplitFocus(t, f, splitDir)));
      assert old@Built(Rep(t', null)) == Rep(t', null);
    }

    /** SplitActive once a leaf is active. */
    method SplitFocused(splitDir: SplitType, newPane: Pane) returns (newNode: Node, ghost first: Node)
      requires Valid() && newPane !in Panes(view.value.tree) && Marked(view.value.tree, Active())
      modifies this, Nodes(view.value.tree), Panes(view.value.tree)`isActive, newPane`isActive
      ensures Valid() && fresh(newNode) && fresh(first) && newNode == activeLeaf
      ensures var v := old(view.value);
        newNode !in Nodes(v.tree) && first !in Nodes(v.tree) && (first != newNode || Joins(v.tree, v.focus, splitDir))
      ensures var v := old(view.value);
        && view == Some(View(Split(v.tree, v.focus, splitDir, first, newNode, newPane),
                             SplitFocus(v.tree, v.focus, splitDir)))
        && Panes(view.value.tree) == Panes(v.tree) + {newPane}
      ensures Marked(view.value.tree, newPane) && Active() == newPane
    {
      hide Rep, HasPath, At, Put, WellFormed, Distinct, Nodes, Panes, Split;
      ghost var t := view.value.tree;
      LeafField(t, view.value.focus);
      Inside(t, view.value.focus);
      assert allocated(Nodes(t)) && allocated(Panes(t));
      label Start:
      if activeLeaf.pane != null { Deactivate(activeLeaf.pane, t); }
      assert old@Start(Valid()) == Valid();
      label Unmarked:
      newNode, first := Graft(splitDir, newPane);
      assert old@Unmarked(Unmarked(Panes(t))) == Unmarked(Panes(t));
      assert allocated(Nodes(view.value.tree));
      label Grafted:
      Activate(newPane, view.value.tree);
      assert old@Grafted(Valid()) == Valid();
    }

    /** SplitActive (texel/tree.go:81-167): nothing happens without an active leaf. */
    method SplitActive(splitDir: SplitType, newPane: Pane) returns (newNode: Node?, ghost first: Node?)
      requires Empty() || (Valid() && newPane !in Panes(view.value.tree) && Marked(view.value.tree, Active()))
      modifies this, if view.Some? then Nodes(view.value.tree) else {}
      modifies (if view.Some? then Panes(view.value.tree) else {})`isActive, newPane`isActive
      ensures old(Empty()) ==> newNode == null && Empty()
      ensures old(Valid()) ==>
        && Valid() && newNode != null && first != null && fresh(newNode) && fresh(first) && newNode == activeLeaf
        && Marked(view.value.tree, newPane) && Active() == newPane
        && var v := old(view.value);
           view == Some(View(Split(v.tree, v.focus, splitDir, first, newNode, newPane),
                             SplitFocus(v.tree, v.focus, splitDir)))
    {
      if activeLeaf == null { return null, null; }
      newNode, first := SplitFocused(splitDir, newPane);
    }

    /** findNeighbor (texel/tree.go:275-316). */
    method FindNeighbor(d: Direction) returns (leaf: Node?)
      requires Valid()
      ensures IsNeighbor(view.value.tree, view.value.focus, d, leaf)
    {
      hide Rep, Crossing, HasPath, At, WellFormed, Distinct, Nodes, FirstLeaf, IsNeighbor;
      ghost var t, f, p := view.value.tree, view.value.focus, view.value.focus;
      var curr := activeLeaf;
      ClimbStart(t, f, d);
      ParentField(t, p);
      while curr.parent != null
        invariant Rep(t, null) && Climbing(t, f, p, d) && curr == At(t, p).node
        invariant if curr.parent == null then p == [] else p != [] && Hangs(t, p, curr, Last(p))
        decreases |p|
      {
        var parent := curr.parent;
        assert allocated(Nodes(t));
        label Search:
        var myIndex := IndexOf(parent.children, curr);
        assert old@Search(Rep(t, null)) == Rep(t, null);
        ClimbStep(t, f, p, d, parent, myIndex);
        var next := -1;
        match d {
          case DirRight => if parent.split == Vertical && myIndex + 1 < |parent.children| { next := myIndex + 1; }
          case DirLeft => if parent.split == Vertical && myIndex - 1 >= 0 { next := myIndex - 1; }
          case DirDown => if parent.split == Horizontal && myIndex + 1 < |parent.children| { next := myIndex + 1; }
          case DirUp => if parent.split == Horizontal && myIndex - 1 >= 0 { next := myIndex - 1; }
          case DirNone =>
        }
        if next >= 0 {
          ChildFields(t, Init(p), next);
          ArrivalIsLeaf(t, Init(p), next);
          leaf := FindFirstLeaf(parent.children[next], At(t, Init(p)).kids[next], parent);
          NeighborFound(t, f, d, Cross(Init(p), Last(p), next), leaf);
          return;
        }
        curr, p := parent, Init(p);
        ParentField(t, p);
      }
      ClimbEnd(t, f, d);
      NoNeighbor(t, f, d);
      return null;
    }

    /** SwapActivePane (texel/tree.go:235-245): the panes move, the active pane stays active. */
    method SwapActivePane(d: Direction)
      requires Valid() && Marked(view.value.tree, Active())
      modifies this`activeLeaf, this`view, Panes(view.value.tree)`isActive, Nodes(view.value.tree)`pane
      ensures Valid() && view == Some(Swapped(old(view.value), d))
      ensures Active() == old(Active()) && Marked(view.value.tree, Active())
    {
      hide Rep, HasPath, At, WellFormed, Distinct, Nodes, Panes, Neighbor, Swap, Marked, MarkedAmong;
      ghost var v := view.value;
      ghost var x := Active();
      assert allocated(Nodes(v.tree)) && allocated(Panes(v.tree));
      Inside(v.tree, v.focus);
      SwappedSound(v, d);
      MarkedIs(v.tree, x);
      label Search:
      var neighbor := FindNeighbor(d);
      assert old@Search(Valid()) == Valid();
      assert old@Search(MarkedAmong(Panes(v.tree))) == MarkedAmong(Panes(v.tree));
      NeighborLeafPath(v.tree, v.focus, d, neighbor);
      MarkedIs(v.tree, x);
      if neighbor == null { return; }
      ghost var m := Neighbor(v.tree, v.focus, d).value;
      Inside(v.tree, m);
      HalfSwapped(v, d, m);
      ghost var t' := Swap(v.tree, x, At(v.tree, m).pane);
      label Exchange:
      ExchangePanes(activeLeaf, neighbor, v.tree, v.focus, m);
      assert old@Exchange(MarkedAmong(Panes(v.tree))) == MarkedAmong(Panes(v.tree));
      label Built:
      view := Some(View(t', v.focus));
      assert old@Built(Rep(t', null)) == Rep(t', null);
      label Move:
      MoveActive(d);
      RemarkedBack(Panes(t'), x, At(v.tree, m).pane, old@Move(MarkedAmong(Panes(t'))), MarkedAmong(Panes(t')));
      MarkedIs(t', x);
    }

    /** MoveActive (texel/tree.go:248-259): focus and the active mark go to the neighbour. */
    method MoveActive(d: Direction)
      requires Valid()
      modifies this`activeLeaf, this`view, Panes(view.value.tree)`isActive
      ensures Valid() && view == Some(old(view.value).(focus := MovedFocus(old(view.value), d)))
      ensures Remarked(Panes(view.value.tree), old(Active()), Active(),
                       old(MarkedAmong(Panes(view.value.tree))), MarkedAmong(Panes(view.value.tree)))
    {
      hide Rep, HasPath, At, WellFormed, Distinct, Nodes, Panes, Neighbor;
      ghost var t, f := view.value.tree, view.value.focus;
      assert allocated(Nodes(t)) && allocated(Panes(t));
      label Search:
      var target := FindNeighbor(d);
      assert old@Search(Valid()) == Valid();
      NeighborLeafPath(t, f, d, target);
      if target != null {
        ghost var m := Neighbor(t, f, d).value;
        LeafField(t, f);
        Inside(t, f);
        LeafField(t, m);
        Inside(t, m);
        label Found:
        if activeLeaf.pane != null { activeLeaf.pane.isActive := false; }
        activeLeaf := target;
        if activeLeaf.pane != null { activeLeaf.pane.isActive := true; }
        view := Some(View(t, m));
        assert old@Found(Rep(t, null)) == Rep(t, null);
      }
    }
  }

  /** What SwapActivePane makes of a view. */
  ghost function Swapped(v: View, d: Direction): View
    requires Sound(v)
  {
    match Neighbor(v.tree, v.focus, d)
    case None => v
    case Some(m) =>
      NeighborIsLeaf(v.tree, v.focus, d);
      View(Swap(v.tree, At(v.tree, v.focus).pane, At(v.tree, m).pane), m)
  }

  /** The swapped view is sound, keeps its panes and focuses the pane that was focused. */
  lemma {:induction false} SwappedSound(v: View, d: Direction)
    requires Sound(v)
    ensures var w := Swapped(v, d);
      && Sound(w) && Panes(w.tree) == Panes(v.tree) && Nodes(w.tree) == Nodes(v.tree)
      && w.tree.node == v.tree.node && At(w.tree, w.focus).pane == At(v.tree, v.focus).pane
  {
    if Neighbor(v.tree, v.focus, d).Some? {
      var m := Neighbor(v.tree, v.focus, d).value;
      NeighborIsLeaf(v.tree, v.focus, d);
      var x, y := At(v.tree, v.focus).pane, At(v.tree, m).pane;
      Inside(v.tree, v.focus);
      Inside(v.tree, m);
      SwapKeeps(v.tree, x, y);
      SwapNodes(v.tree, x, y);
      SwapAt(v.tree, x, y, m);
    }
  }

  /** Between the exchange and the move, the focus is still on the old leaf. */
  lemma {:induction false} HalfSwapped(v: View, d: Direction, m: Path)
    requires Sound(v) && Neighbor(v.tree, v.focus, d) == Some(m) && LeafPath(v.tree, m)
    ensures var t' := Swap(v.tree, At(v.tree, v.focus).pane, At(v.tree, m).pane);
      && Sound(View(t', v.focus)) && t'.node == v.tree.node
      && At(t', v.focus).node == At(v.tree, v.focus).node && At(t', v.focus).pane == At(v.tree, m).pane
      && Nodes(t') == Nodes(v.tree) && Panes(t') == Panes(v.tree)
      && Neighbor(t', v.focus, d) == Some(m)
      && Swapped(v, d) == View(t', m)
  {
    var x, y := At(v.tree, v.focus).pane, At(v.tree, m).pane;
    Inside(v.tree, v.focus);
    Inside(v.tree, m);
    SwapKeeps(v.tree, x, y);
    SwapNodes(v.tree, x, y);
    SwapAt(v.tree, x, y, v.focus);
    SwapNeighbor(v.tree, x, y, v.focus, d);
  }

  lemma {:induction false} RemarkedBack(s: set<Pane>, x: Pane, y: Pane, before: set<Pane>, after: set<Pane>)
    requires x in s && y in s && before == {x} && Remarked(s, y, x, before, after)
    ensures after == {x}
  {
  }

  lemma {:induction false} MarkedIs(t: Shape, active: Pane)
    requires active in Panes(t)
    ensures Marked(t, active) <==> MarkedAmong(Panes(t)) == {active}
  {
    if MarkedAmong(Panes(t)) == {active} {
      assert forall p | p in Panes(t) :: p.isActive <==> p in MarkedAmong(Panes(t));
    }
  }

  /** Where MoveActive leaves the focus. */
  ghost function MovedFocus(v: View, d: Direction): Path
    requires LeafPath(v.tree, v.focus)
  {
    match Neighbor(v.tree, v.focus, d)
    case None => v.focus
    case Some(m) => m
  }

  ghost function MarkedAmong(s: set<Pane>): set<Pane>
    reads s
  {
    set p | p in s && p.isActive
  }

  /** The mark left pane x and went to pane y, or stayed where it was. */
  ghost predicate Remarked(s: set<Pane>, x: Pane, y: Pane, before: set<Pane>, after: set<Pane>) {
    if x == y then after == before else after == before - {x} + {y}
  }
}
