/**
 * What the operations of a workspace do to its tree and on the screen, read off
 * the state before and after, without the functions that compute the step.
 */
module StepLaws {
  import opened Prelude
  import opened Ratios
  import opened PaneTree
  import opened Layout
  import opened Navigation
  import opened Edits
  import opened Borders
  import opened TreeHeap
  import opened BorderHeap
  import opened RemoveHeap
  import opened Runs
  import opened SplitGuard

  // ---------------------------------------------------------- what is the same

  /** The same node with the same fields, ratios aside when they are `free`. */
  predicate Alike(a: Shape, b: Shape, free: bool) {
    a.node == b.node &&
    match a
    case Leaf(_, p) => b.Leaf? && b.pane == p
    case Branch(_, split, rs, kids) =>
      b.Branch? && b.split == split && |b.kids| == |kids| && |b.ratios| == |rs| && (free || b.ratios == rs)
  }

  /** The same tree but for the ratios of the group at q. */
  ghost predicate SameBut(t: Shape, t': Shape, q: Path) {
    forall p: Path ::
      (HasPath(t, p) <==> HasPath(t', p)) && (HasPath(t, p) ==> Alike(At(t, p), At(t', p), p == q))
  }

  lemma {:induction false} SetRatiosPath(t: Shape, q: Path, rs: seq<real>, p: Path)
    requires HasPath(t, q) && At(t, q).Branch? && |rs| == |At(t, q).ratios|
    ensures var t' := SetRatios(t, q, rs);
      (HasPath(t, p) <==> HasPath(t', p)) && (HasPath(t, p) ==> Alike(At(t, p), At(t', p), p == q))
  {
    if p != [] && q != [] && p[0] == q[0] {
      SetRatiosPath(t.kids[q[0]], q[1..], rs, p[1..]);
      assert p == [p[0]] + p[1..] && q == [q[0]] + q[1..];
    }
  }

  lemma {:induction false} SetRatiosOnly(t: Shape, q: Path, rs: seq<real>)
    requires HasPath(t, q) && At(t, q).Branch? && |rs| == |At(t, q).ratios|
    ensures var t' := SetRatios(t, q, rs);
      SameBut(t, t', q) && HasPath(t', q) && At(t', q) == At(t, q).(ratios := rs)
  {
    forall p: Path
      ensures var t' := SetRatios(t, q, rs);
        (HasPath(t, p) <==> HasPath(t', p)) && (HasPath(t, p) ==> Alike(At(t, p), At(t', p), p == q))
    {
      SetRatiosPath(t, q, rs, p);
    }
    SetTwice(t, q, rs, rs);
  }

  // ----------------------------------------------------------------- keyboard

  /** The direction runs along the split. */
  predicate RunsAlong(d: Direction, split: SplitType) {
    match split
    case Vertical => d.DirLeft? || d.DirRight?
    case Horizontal => d.DirUp? || d.DirDown?
  }

  /**
   * A key press along the split of the selected border: right and down grow the
   * child before it and shrink the one after, left and up the reverse, by one
   * cell of the area, or by what is left above a tenth. Nothing else changes.
   */
  lemma {:induction false} KeyMoves(s: State, d: Direction, q: Path)
    requires Inv(s) && s.selection.Some? && OnBorder(s.view.tree, q, s.selection.value)
    requires RunsAlong(d, At(s.view.tree, q).split)
    ensures Enabled(s, KeyOp(d)) && |At(s.view.tree, q).ratios| == |At(s.view.tree, q).kids|
    ensures var t, t' := s.view.tree, Step(s, KeyOp(d)).view.tree;
      var g, i := At(t, q), s.selection.value.index;
      var forth := d.DirRight? || d.DirDown?;
      var grow, shrink := if forth then i else i + 1, if forth then i + 1 else i;
      var size := if g.split.Vertical? then s.area.w else s.area.h;
      var cell := 1.0 / (if size < 1 then 1 else size) as real;
      var spare := if g.ratios[shrink] <= 0.1 then 0.0 else g.ratios[shrink] - 0.1;
      var amount := if cell < spare then cell else spare;
      && SameBut(t, t', q) && Step(s, KeyOp(d)) == s.(view := View(t', s.view.focus))
      && HasPath(t', q) && At(t', q).ratios == g.ratios[grow := g.ratios[grow] + amount]
                                                       [shrink := g.ratios[shrink] - amount]
  {
    hide HasPath, At, SameBut, Step, Enabled, Inv, Shift, SetRatios;
    KeySteps(s, d, q);
    var g, i := At(s.view.tree, q), s.selection.value.index;
    var size := if g.split.Vertical? then s.area.w else s.area.h;
    ShiftMoves(g.ratios, i, i + 1, size);
    ShiftMoves(g.ratios, i + 1, i, size);
  }

  /** Which ratios a key press stores. */
  lemma {:induction false} KeySteps(s: State, d: Direction, q: Path)
    requires Inv(s) && s.selection.Some? && OnBorder(s.view.tree, q, s.selection.value)
    ensures Enabled(s, KeyOp(d)) && |At(s.view.tree, q).ratios| == |At(s.view.tree, q).kids|
    ensures var t, t' := s.view.tree, Step(s, KeyOp(d)).view.tree;
      && SameBut(t, t', q) && Step(s, KeyOp(d)) == s.(view := View(t', s.view.focus)) && HasPath(t', q)
      && At(t', q).ratios == Pressed(Divider(At(t, q).split, At(t, q).ratios), s.selection.value.index, d, s.area)
  {
    hide HasPath, At, Distinct, Names, Nodes, Panes, WellFormed, SameBut, Shift, SetRatios;
    var t, b := s.view.tree, s.selection.value;
    SpotNames(t, q, b.index);
    NamesExactly(s);
    var grip := Selected(s);
    NodeAtOnePath(t, q, grip.at);
    GroupFits(t, q);
    KeyedFits(t, grip, d, s.area);
    SetRatiosOnly(t, q, Keyed(t, grip, d, s.area));
  }

  /** A key press across the split changes nothing. */
  lemma {:induction false} KeyAcross(s: State, d: Direction, q: Path)
    requires Inv(s) && s.selection.Some? && OnBorder(s.view.tree, q, s.selection.value)
    requires !RunsAlong(d, At(s.view.tree, q).split)
    ensures Enabled(s, KeyOp(d)) && Step(s, KeyOp(d)) == s
  {
    hide HasPath, At, Distinct, Names, Nodes, Panes, WellFormed;
    var t, b := s.view.tree, s.selection.value;
    SpotNames(t, q, b.index);
    NamesExactly(s);
    NodeAtOnePath(t, q, Selected(s).at);
    SetSameRatios(t, q);
  }

  // -------------------------------------------------------------------- mouse

  /** The rectangle of child i of the group at q. */
  function ChildAt(t: Shape, q: Path, i: nat, r: Rect): Rect
    requires WellFormed(t) && Spot(t, q, i)
  {
    PathStep(t, q, i);
    RectAt(t, q + [i], r)
  }

  /** Where a rectangle begins and ends along a split. */
  function Near(r: Rect, split: SplitType): int { if split.Vertical? then r.x else r.y }
  function Far(r: Rect, split: SplitType): int { if split.Vertical? then r.x + r.w else r.y + r.h }

  /** Nothing beside children i and i + 1 has a share. */
  predicate NoOthers(rs: seq<real>, i: nat) {
    forall j :: 0 <= j < |rs| && j != i && j != i + 1 ==> rs[j] == 0.0
  }

  lemma {:induction false} SumOfNothing(rs: seq<real>)
    requires NonNegative(rs)
    ensures Sum(rs) == 0.0 <==> forall j :: 0 <= j < |rs| ==> rs[j] == 0.0
  {
    SumNonNegative(rs);
    if rs != [] && forall j :: 0 <= j < |rs| ==> rs[j] == 0.0 {
      SumConstant(|rs|, 0.0);
      assert rs == seq(|rs|, i => 0.0);
    }
  }

  lemma {:induction false} OthersSum(rs: seq<real>, i: nat)
    requires NonNegative(rs) && i + 1 < |rs|
    ensures Sum(Masked(rs, i)) > 0.0 <==> !NoOthers(rs, i)
    ensures Sum(Masked(rs, i)) >= 0.0
  {
    var m := Masked(rs, i);
    MaskedNonNegative(rs, i);
    SumOfNothing(m);
    forall j | 0 <= j < |rs| && j != i && j != i + 1 ensures m[j] == rs[j] {}
    if NoOthers(rs, i) { forall j | 0 <= j < |rs| ensures m[j] == 0.0 {} }
  }

  /** The rectangles a drag reads, in the terms of its arithmetic. */
  lemma {:induction false} DragSees(t: Shape, q: Path, i: nat, r: Rect)
    requires WellFormed(t) && r.Proper() && HasPath(t, q) && At(t, q).Branch? && i + 1 < |At(t, q).kids|
    ensures var g, a := At(t, q), RectAt(t, q, r);
      var len := Extent(a, g.split);
      && len >= 0 && |g.ratios| == |g.kids| && Fits(g.ratios)
      && Near(ChildAt(t, q, i, r), g.split) == Near(a, g.split) + Offset(g.ratios, len, i)
      && Extent(ChildAt(t, q, i, r), g.split) == Size(g.ratios, len, i)
      && Near(ChildAt(t, q, i + 1, r), g.split) == Near(a, g.split) + Offset(g.ratios, len, i + 1)
      && Extent(ChildAt(t, q, i + 1, r), g.split) == Size(g.ratios, len, i + 1)
      && Far(ChildAt(t, q, i + 1, r), g.split) == Near(a, g.split) + Edge(g.ratios, len, i + 2)
  {
    hide HasPath, At, RectAt, Offset, Size, Edge, Distinct, Nodes, Panes;
    var g, a := At(t, q), RectAt(t, q, r);
    GroupFits(t, q);
    RectWithin(t, q, r);
    PathStep(t, q, i);
    PathStep(t, q, i + 1);
    ChildRectAt(t, q, i, r);
    ChildRectAt(t, q, i + 1, r);
    DragExtent(g.ratios, i, Extent(a, g.split));
  }

  /** Other ratios at q leave the group's own rectangle. */
  lemma {:induction false} ReshapedRect(t: Shape, q: Path, rs: seq<real>, r: Rect)
    requires WellFormed(t) && HasPath(t, q) && At(t, q).Branch? && |rs| == |At(t, q).kids| && Fits(rs)
    ensures var t' := SetRatios(t, q, rs);
      WellFormed(t') && HasPath(t', q) && RectAt(t', q, r) == RectAt(t, q, r)
  {
    Inside(t, q);
    RectAtPut(t, q, At(t, q).(ratios := rs), r);
  }

  /** There is room for two minimal children between the outer edges of the held border's two. */
  predicate RoomToDrag(t: Shape, b: Grip, r: Rect)
    requires WellFormed(t) && GripOn(t, b)
  {
    var split := At(t, b.at).split;
    var least := if split.Vertical? then 20 else 8;
    Near(ChildAt(t, b.at, b.index, r), split) + least < Far(ChildAt(t, b.at, b.index + 1, r), split) - least
  }

  /** Where the border goes: the pointer, kept the minimum away from the outer edges. */
  function BorderGoal(t: Shape, b: Grip, r: Rect, x: int, y: int): int
    requires WellFormed(t) && GripOn(t, b)
  {
    var split := At(t, b.at).split;
    var least := if split.Vertical? then 20 else 8;
    var lo := Near(ChildAt(t, b.at, b.index, r), split) + least;
    var hi := Far(ChildAt(t, b.at, b.index + 1, r), split) - least;
    var pos := if split.Vertical? then x else y;
    if pos < lo then lo else if pos > hi then hi else pos
  }

  /** Without a border held, or without room, a drag changes nothing. */
  lemma {:induction false} DragStays(s: State, x: int, y: int)
    requires Inv(s) && (s.grip.None? || !RoomToDrag(s.view.tree, s.grip.value, s.area))
    ensures Step(s, DragOp(x, y)) == s
  {
    hide HasPath, At, RectAt, Offset, Edge, Distinct, Nodes, Panes;
    if s.grip.Some? {
      var b := s.grip.value;
      DragSees(s.view.tree, b.at, b.index, s.area);
      SetSameRatios(s.view.tree, b.at);
    }
  }

  /**
   * A drag: the child before the held border ends at the pointer, kept the
   * minimum away from the outer edges and measured from where it began; the
   * child after it is at least as long as the rest. The first border of a group
   * lands on that very coordinate. The other siblings keep their proportions,
   * and nothing else changes.
   */
  lemma {:induction false} DragMoves(s: State, x: int, y: int)
    requires Inv(s) && s.grip.Some? && RoomToDrag(s.view.tree, s.grip.value, s.area)
    requires var g := At(s.view.tree, s.grip.value.at); |g.kids| == 2 || !NoOthers(g.ratios, s.grip.value.index)
    ensures var t, t', r := s.view.tree, Step(s, DragOp(x, y)).view.tree, s.area;
      var b, q, i := s.grip.value, s.grip.value.at, s.grip.value.index;
      var split, at := At(t, q).split, BorderGoal(t, b, r, x, y);
      && SameBut(t, t', q) && Step(s, DragOp(x, y)) == s.(view := View(t', s.view.focus))
      && WellFormed(t') && Spot(t', q, i + 1) && RectAt(t', q, r) == RectAt(t, q, r)
      && Extent(ChildAt(t', q, i, r), split) == at - Near(ChildAt(t, q, i, r), split)
      && Extent(ChildAt(t', q, i + 1, r), split) >= Far(ChildAt(t, q, i + 1, r), split) - at
      && (i == 0 ==> Far(ChildAt(t', q, i, r), split) == Near(ChildAt(t', q, i + 1, r), split) == at)
      && Fills(At(t', q).ratios)
      && |At(t', q).ratios| == |At(t, q).ratios| && Proportional(At(t, q).ratios, At(t', q).ratios, i)
  {
    hide HasPath, At, RectAt, Offset, Edge, Size, Distinct, Nodes, Panes, Drag, Sum, Masked, Proportional, Fits, Fills;
    var t, r := s.view.tree, s.area;
    var q, i := s.grip.value.at, s.grip.value.index;
    var g, a := At(t, q), RectAt(t, q, r);
    var len := Extent(a, g.split);
    DragSees(t, q, i, r);
    DraggedFits(t, q, i, r, x, y);
    var rs := Dragged(t, q, i, r, x, y);
    SetRatiosOnly(t, q, rs);
    ReshapedRect(t, q, rs, r);
    DragSees(SetRatios(t, q, rs), q, i, r);
    OthersOf(g.ratios, i);
    DragExtent(g.ratios, i, len);
    var pos := if g.split.Vertical? then x - a.x else y - a.y;
    DragLands(g.ratios, i, len, pos, if g.split.Vertical? then 20 else 8);
    if i == 0 { FirstBorder(rs, len); }
  }

  lemma {:induction false} OthersOf(rs: seq<real>, i: nat)
    requires Fits(rs) && i + 1 < |rs|
    ensures Sum(Masked(rs, i)) > 0.0 <==> !NoOthers(rs, i)
  {
    OthersSum(rs, i);
  }

  /** Two shares of a parent, made to fill it. */
  lemma SharesOfTwo(a: int, b: int, len: int)
    requires a > 0 && b > 0 && len > 0
    ensures Part(a, len) + Part(b, len) > 0.0
    ensures Part(a, len) / (Part(a, len) + Part(b, len)) == a as real / (a + b) as real
  {
    var x, y, z := a as real, b as real, len as real;
    DivideBy(x, z);
    DivideBy(y, z);
    assert (x / z + y / z) * z == x + y;
    Product(x / z, z);
    SameRatio(x / z, x / z + y / z, z);
  }

  lemma SameRatio(u: real, v: real, z: real)
    requires v > 0.0 && z > 0.0
    ensures v * z > 0.0 && u / v == u * z / (v * z)
  {
    var k := u / v;
    DivideBy(u, v);
    assert k * (v * z) == (k * v) * z;
    assert u * z / (v * z) == k * (v * z) / (v * z);
  }

  /** Other siblings without any share do not grow: the two fill the group between them. */
  lemma {:induction false} DragTakesAll(s: State, x: int, y: int)
    requires Inv(s) && s.grip.Some? && RoomToDrag(s.view.tree, s.grip.value, s.area)
    requires var g := At(s.view.tree, s.grip.value.at); |g.kids| > 2 && NoOthers(g.ratios, s.grip.value.index)
    ensures var t, t', r := s.view.tree, Step(s, DragOp(x, y)).view.tree, s.area;
      var b, q, i := s.grip.value, s.grip.value.at, s.grip.value.index;
      var split, at := At(t, q).split, BorderGoal(t, b, r, x, y);
      var lo, hi := Near(ChildAt(t, q, i, r), split), Far(ChildAt(t, q, i + 1, r), split);
      && SameBut(t, t', q) && Step(s, DragOp(x, y)) == s.(view := View(t', s.view.focus))
      && HasPath(t', q) && At(t', q).Branch? && |At(t', q).ratios| == |At(t, q).kids| && lo < at < hi
      && At(t', q).ratios[i] == (at - lo) as real / (hi - lo) as real
      && At(t', q).ratios[i + 1] == (hi - at) as real / (hi - lo) as real
      && NoOthers(At(t', q).ratios, i)
  {
    hide HasPath, At, RectAt, Offset, Edge, Size, Distinct, Nodes, Panes, Sum, Masked, Fits, Drag, Part, NoOthers;
    var t, r := s.view.tree, s.area;
    var q, i := s.grip.value.at, s.grip.value.index;
    var g, a := At(t, q), RectAt(t, q, r);
    var len := Extent(a, g.split);
    DragSees(t, q, i, r);
    DraggedFits(t, q, i, r, x, y);
    SetRatiosOnly(t, q, Dragged(t, q, i, r, x, y));
    DragExtent(g.ratios, i, len);
    var pos := if g.split.Vertical? then x - a.x else y - a.y;
    DragAlone(g.ratios, i, len, pos, if g.split.Vertical? then 20 else 8);
  }

  lemma {:induction false} DragAlone(rs: seq<real>, i: nat, len: int, pos: int, least: int)
    requires Fits(rs) && i + 1 < |rs| && NoOthers(rs, i) && CanDrag(rs, i, len, least) && least > 0
    ensures var lo, hi := Offset(rs, len, i), Edge(rs, len, i + 2);
      var at, r := Clamp(pos, lo + least, hi - least), Drag(rs, i, len, pos, least);
      && |r| == |rs| && NoOthers(r, i)
      && r[i] == (at - lo) as real / (hi - lo) as real && r[i + 1] == (hi - at) as real / (hi - lo) as real
  {
    hide Offset, Edge, Sum, Masked, Fits, Part;
    var lo, hi := Offset(rs, len, i), Edge(rs, len, i + 2);
    var at := Clamp(pos, lo + least, hi - least);
    var a, b := at - lo, hi - at;
    OthersOf(rs, i);
    SharesOfTwo(a, b, len);
    SharesOfTwo(b, a, len);
    AllTheRest(rs, i, Part(a, len), Part(b, len));
  }

  lemma {:induction false} AllTheRest(rs: seq<real>, i: nat, first: real, second: real)
    requires Fits(rs) && i + 1 < |rs| && NoOthers(rs, i) && first + second > 0.0
    ensures var r := ApplyBorder(rs, i, first, second);
      && |r| == |rs| && NoOthers(r, i) && r[i] == first / (first + second) && r[i + 1] == second / (first + second)
  {
    hide Sum, Masked;
    OthersSum(rs, i);
    MaskedSum(rs, i, first, second);
    var w := rs[i := first][i + 1 := second];
    assert Rescaled(rs, i, first, second) == w && Sum(w) == first + second;
    var r := Divided(w, first + second);
    forall j | 0 <= j < |rs| && j != i && j != i + 1 ensures r[j] == 0.0 { assert w[j] == 0.0; }
  }

  // ------------------------------------------------------------- move and swap

  /** Focus goes to the neighbour in that direction, if there is one, and nothing else changes. */
  lemma {:induction false} MoveGoes(s: State, d: Direction)
    requires Inv(s)
    ensures var to := Neighbor(s.view.tree, s.view.focus, d);
      Step(s, MoveOp(d)) == s.(view := View(s.view.tree, if to.Some? then to.value else s.view.focus))
  {
  }

  /**
   * A swap exchanges the focused pane with its neighbour's and focus goes with
   * it; every other leaf keeps its pane, and nothing moves without a neighbour.
   */
  lemma {:induction false} SwapExchanges(s: State, d: Direction)
    requires Inv(s)
    ensures var t, f, to := s.view.tree, s.view.focus, Neighbor(s.view.tree, s.view.focus, d);
      var t' := Step(s, SwapOp(d)).view.tree;
      && (to.None? ==> Step(s, SwapOp(d)) == s)
      && (to.Some? ==>
            && LeafPath(t, to.value) && to.value != f && Step(s, SwapOp(d)) == s.(view := View(t', to.value))
            && forall p: Path ::
                 && (HasPath(t, p) <==> HasPath(t', p))
                 && (HasPath(t, p) ==>
                       && (At(t, p).Branch? ==> Alike(At(t, p), At(t', p), false))
                       && (At(t, p).Leaf? ==>
                             At(t', p) == Leaf(At(t, p).node, if p == f then At(t, to.value).pane
                                                              else if p == to.value then At(t, f).pane
                                                              else At(t, p).pane))))
  {
    hide Distinct, Nodes, Panes, Neighbor, WellFormed;
    var t, f := s.view.tree, s.view.focus;
    if Neighbor(t, f, d).Some? {
      var m := Neighbor(t, f, d).value;
      NeighborIsLeaf(t, f, d);
      var t' := Swap(t, At(t, f).pane, At(t, m).pane);
      forall p: Path
        ensures HasPath(t, p) <==> HasPath(t', p)
        ensures HasPath(t, p) && At(t, p).Branch? ==> Alike(At(t, p), At(t', p), false)
        ensures LeafPath(t, p) ==>
          At(t', p) == Leaf(At(t, p).node, if p == f then At(t, m).pane else if p == m then At(t, f).pane
                                           else At(t, p).pane)
      {
        SwapAt(t, At(t, f).pane, At(t, m).pane, p);
        if LeafPath(t, p) {
          if At(t, p).pane == At(t, f).pane { PaneAtOnePath(t, p, f); }
          if At(t, p).pane == At(t, m).pane { PaneAtOnePath(t, p, m); }
        } else if HasPath(t, p) {
          SwapNodes(At(t, p), At(t, f).pane, At(t, m).pane);
        }
      }
    }
  }

  lemma {:induction false} PaneAtOnePath(t: Shape, p: Path, q: Path)
    requires Distinct(t) && LeafPath(t, p) && LeafPath(t, q) && At(t, p).pane == At(t, q).pane
    ensures p == q
  {
    if p != [] {
      Inside(t.kids[p[0]], p[1..]);
      Inside(t.kids[q[0]], q[1..]);
      if p[0] != q[0] { KidsApart(t, p[0], q[0]); }
      PaneAtOnePath(t.kids[p[0]], p[1..], q[1..]);
      assert p == [p[0]] + p[1..] && q == [q[0]] + q[1..];
    }
  }

  // --------------------------------------------------------- split and removal

  /** Equal up to 0.001, measured from the first. */
  predicate NearlyEqual(rs: seq<real>) {
    forall i :: 0 < i < |rs| ==> -0.001 <= rs[i] - rs[0] <= 0.001
  }

  lemma {:induction false} PutPath(t: Shape, q: Path, x: Shape, p: Path)
    requires HasPath(t, q) && HasPath(t, p) && !(q <= p)
    ensures HasPath(Put(t, q, x), p) && Alike(At(t, p), At(Put(t, q, x), p), false)
  {
    if p != [] && p[0] == q[0] {
      assert p == [p[0]] + p[1..] && q == [q[0]] + q[1..];
      PutPath(t.kids[q[0]], q[1..], x, p[1..]);
    }
  }

  /**
   * A split of the focused pane: into the group it is in, when that runs the
   * same way and has nearly equal ratios, as its last child and shared equally;
   * else into a group of two halves in its place. Focus goes to the new pane.
   */
  lemma {:induction false} SplitPlaces(s: State, op: Op)
    requires Inv(s) && op.SplitOp? && Enabled(s, op)
    ensures s.view.focus != [] ==> HasPath(s.view.tree, Init(s.view.focus))
    ensures var t, f, t' := s.view.tree, s.view.focus, Step(s, op).view.tree;
      var joins := f != [] && var g := At(t, Init(f)); g.Branch? && g.split == op.dir && NearlyEqual(g.ratios);
      var q := if joins then Init(f) else f;
      && HasPath(t', q) && At(t', q).Branch? && At(t', q).node == At(t, q).node && At(t', q).split == op.dir
      && (joins ==>
            var n := |At(t, q).kids|;
            && At(t', q).kids == At(t, q).kids + [Leaf(op.second, op.pane)]
            && At(t', q).ratios == seq(n + 1, _ => 1.0 / (n + 1) as real)
            && Step(s, op) == s.(view := View(t', q + [n])))
      && (!joins ==>
            && At(t', q).kids == [Leaf(op.first, At(t, f).pane), Leaf(op.second, op.pane)]
            && At(t', q).ratios == [0.5, 0.5]
            && Step(s, op) == s.(view := View(t', f + [1])))
      && forall p: Path :: HasPath(t, p) && !(q <= p) ==> HasPath(t', p) && Alike(At(t, p), At(t', p), false)
  {
    hide Distinct, Nodes, Panes, WellFormed, HasPath, At, Put;
    var t, f := s.view.tree, s.view.focus;
    if f != [] { PathLast(t, f); }
    var q := if Joins(t, f, op.dir) then Init(f) else f;
    var x := if Joins(t, f, op.dir) then Grown(At(t, q), op.second, op.pane)
             else Pair(At(t, f), op.dir, op.first, op.second, op.pane);
    PutAt(t, q, x);
    forall p: Path | HasPath(t, p) && !(q <= p)
      ensures HasPath(Put(t, q, x), p) && Alike(At(t, p), At(Put(t, q, x), p), false)
    {
      PutPath(t, q, x, p);
    }
  }

  /**
   * A removal takes one child out of its group. A group of two gives way to the
   * other child; a larger one shares its space among the rest in proportion, if
   * they had any. Nothing else changes, and focus stays on its pane if that is left.
   */
  lemma {:induction false} RemovePlaces(s: State, p: Path)
    requires Inv(s) && Enabled(s, RemoveOp(p))
    ensures HasPath(s.view.tree, Init(p)) && At(s.view.tree, Init(p)).Branch?
    ensures Last(p) < |At(s.view.tree, Init(p)).kids| == |At(s.view.tree, Init(p)).ratios|
    ensures var t, q, i, s' := s.view.tree, Init(p), Last(p), Step(s, RemoveOp(p));
      var t', g := s'.view.tree, At(t, q);
      var left := g.ratios[..i] + g.ratios[i + 1..];
      && HasPath(t', q)
      && (|g.kids| == 2 ==> At(t', q) == g.kids[1 - i])
      && (|g.kids| > 2 ==>
            && At(t', q).Branch? && At(t', q).node == g.node && At(t', q).split == g.split
            && At(t', q).kids == g.kids[..i] + g.kids[i + 1..] && |At(t', q).ratios| == |left|
            && (Sum(left) <= 0.0 ==> At(t', q).ratios == left)
            && (Sum(left) > 0.0 ==> forall j :: 0 <= j < |left| ==> At(t', q).ratios[j] * Sum(left) == left[j]))
      && (forall r: Path :: HasPath(t, r) && !(q <= r) ==> HasPath(t', r) && Alike(At(t, r), At(t', r), false))
      && (s.view.focus != p ==> LeafPath(t', s'.view.focus) && At(t', s'.view.focus) == At(t, s.view.focus))
      && s' == s.(view := s'.view, grip := None, detached := s'.detached)
  {
    hide Distinct, Nodes, Panes, HasPath, At, Put, Sum, RemoveFocus, Fits, LeftOf;
    var t, q, i := s.view.tree, Init(p), Last(p);
    RemovableLeaf(t, p);
    GroupFits(t, q);
    PutAt(t, q, Survivors(t, p));
    RemoveFocusIs(t, p, s.view.focus);
    forall r: Path | HasPath(t, r) && !(q <= r)
      ensures HasPath(Remove(t, p), r) && Alike(At(t, r), At(Remove(t, p), r), false)
    {
      PutPath(t, q, Survivors(t, p), r);
    }
    InProportion(Without(At(t, q).ratios, i));
  }

  lemma {:induction false} InProportion(left: seq<real>)
    ensures |Normalised(left)| == |left| && (Sum(left) <= 0.0 ==> Normalised(left) == left)
    ensures Sum(left) > 0.0 ==> forall j :: 0 <= j < |left| ==> Normalised(left)[j] * Sum(left) == left[j]
  {
    hide Sum;
    if Sum(left) > 0.0 {
      forall j | 0 <= j < |left| ensures Normalised(left)[j] * Sum(left) == left[j] { DivideBy(left[j], Sum(left)); }
    }
  }

  lemma {:induction false} FirstLeafPane(t: Shape)
    requires WellFormed(t)
    ensures HasPath(t, FirstLeaf(t)) && At(t, FirstLeaf(t)).Leaf?
    ensures Leaves(t) != [] && At(t, FirstLeaf(t)).pane == Leaves(t)[0]
  {
    if t.Branch? {
      FirstLeafPane(t.kids[0]);
      assert FirstLeaf(t)[1..] == FirstLeaf(t.kids[0]);
    }
  }

  /**
   * When the focused pane is closed, focus goes to the pane after it on the
   * screen's left-to-right order while its group has one there, and else to the
   * first pane of the child before it.
   */
  lemma {:induction false} RemoveFocuses(s: State)
    requires Inv(s) && s.view.focus != []
    ensures var t, f, op := s.view.tree, s.view.focus, RemoveOp(s.view.focus);
      && Enabled(s, op) && Inv(Step(s, op)) && HasPath(t, Init(f)) && At(t, Init(f)).Branch?
      && if Last(f) + 1 < |At(t, Init(f)).kids| then
           After(t, f) != [] && Focused(Step(s, op)) == After(t, f)[0]
         else
           0 < Last(f) <= |At(t, Init(f)).kids| &&
           Leaves(At(t, Init(f)).kids[Last(f) - 1]) != [] &&
           Focused(Step(s, op)) == Leaves(At(t, Init(f)).kids[Last(f) - 1])[0]
  {
    hide Distinct, Nodes, Panes, HasPath, At, Put, Leaves, Before, After, Remove, FirstLeaf;
    var t, f := s.view.tree, s.view.focus;
    var q, i := Init(f), Last(f);
    RemovableLeaf(t, f);
    StepKeeps(s, RemoveOp(f));
    Inside(t, q);
    var g := At(t, q);
    var j := if i + 1 < |g.kids| then i + 1 else i - 1;
    NextFocusSpot(t, f);
    FirstLeafPane(g.kids[j]);
    BeforeLast(t, f);
    if i + 1 < |g.kids| { LeavesFrom(g.kids, i + 1); }
  }

  lemma {:induction false} LeavesFrom(kids: seq<Shape>, j: nat)
    requires j < |kids| && Leaves(kids[j]) != []
    ensures LeavesOf(kids[j..]) != [] && LeavesOf(kids[j..])[0] == Leaves(kids[j])[0]
  {
  }

  // ----------------------------------------------------------- the first key

  /**
   * The first key press selects a border exactly when there is a neighbour that
   * way: the border between the child the focused pane is in and the child that
   * neighbour is in, which is the edge of the focused pane on that side.
   */
  lemma {:induction false} FirstKeySelects(s: State, d: Direction) returns (q: Path)
    requires Inv(s) && s.selection.None?
    ensures Enabled(s, KeyOp(d))
    ensures var t, f, to := s.view.tree, s.view.focus, Neighbor(s.view.tree, s.view.focus, d);
      && (to.None? ==> Step(s, KeyOp(d)) == s)
      && (to.Some? ==>
            && Step(s, KeyOp(d)).selection.Some?
            && var b := Step(s, KeyOp(d)).selection.value;
            && Step(s, KeyOp(d)) == s.(selection := Some(b)) && OnBorder(t, q, b) && !d.DirNone?
            && var from, into := if d.DirRight? || d.DirDown? then b.index else b.index + 1,
                                 if d.DirRight? || d.DirDown? then b.index + 1 else b.index;
            && RunsAlong(d, At(t, q).split) && q + [from] <= f && q + [into] <= to.value
            && Near(ChildAt(t, q, b.index + 1, s.area), At(t, q).split) == Side(RectAt(t, f, s.area), d))
  {
    hide HasPath, At, Distinct, Nodes, Panes, WellFormed, RectAt, Crossing;
    var t, f := s.view.tree, s.view.focus;
    q := [];
    if Crossing(t, f, d).Some? {
      var c := Crossing(t, f, d).value;
      CrossingOnPath(t, f, d);
      q := c.at;
      assert q + [c.from] == f[..|q| + 1];
      CrossingMeets(t, f, d, s.area, c);
      PathStep(t, q, c.from);
      PathStep(t, q, c.to);
      if d.DirLeft? || d.DirUp? { ChildrenTouch(t, q, c.to, s.area); }
    }
  }

  /** Child i ends where child i + 1 begins. */
  lemma {:induction false} ChildrenTouch(t: Shape, q: Path, i: nat, r: Rect)
    requires WellFormed(t) && r.Proper() && HasPath(t, q) && At(t, q).Branch? && i + 1 < |At(t, q).kids|
    ensures Far(ChildAt(t, q, i, r), At(t, q).split) == Near(ChildAt(t, q, i + 1, r), At(t, q).split)
  {
    DragSees(t, q, i, r);
    Edges(At(t, q).ratios, Extent(RectAt(t, q, r), At(t, q).split), i, i + 1);
  }

  // ------------------------------------------------------- what is not touched

  /** Which parts of the state an operation leaves as they were. */
  lemma {:induction false} StepTouches(s: State, op: Op)
    requires Inv(s) && Enabled(s, op)
    ensures var s' := Step(s, op);
      && (!op.AreaOp? ==> s'.area == s.area) && (op.AreaOp? ==> s' == s.(area := op.area))
      && (!op.KeyOp? && !op.LeaveOp? ==> s'.selection == s.selection)
      && (!op.LeaveOp? && !op.RemoveOp? ==> s'.detached == s.detached)
      && (op.LeaveOp? ==> s' == s.(selection := None, detached := None))
      && (op.RemoveOp? || op.ReplaceOp? || op.ReleaseOp? ==> s'.grip == None)
      && (!op.RemoveOp? && !op.ReplaceOp? && !op.ReleaseOp? && !op.GrabOp? ==> s'.grip == s.grip)
      && (op.GrabOp? ==> s' == s.(grip := Some(op.border))) && (op.ReleaseOp? ==> s' == s.(grip := None))
      && (op.FocusOp? ==> s' == s.(view := View(s.view.tree, op.leaf)))
      && (op.KeyOp? || op.DragOp? || op.FrameOp? ==> s'.view.focus == s.view.focus)
      && (op.ReplaceOp? ==> s'.view == View(Leaf(op.root, op.pane), []))
  {
    hide Distinct, Nodes, Panes, WellFormed, HasPath, At, Split, Remove, Put, Names;
  }

  /** A frame stores its ratios in its group. */
  lemma {:induction false} FrameStores(s: State, q: Path, rs: seq<real>)
    requires Inv(s) && Enabled(s, FrameOp(q, rs))
    ensures var t' := Step(s, FrameOp(q, rs)).view.tree;
      && SameBut(s.view.tree, t', q) && HasPath(t', q) && At(t', q) == At(s.view.tree, q).(ratios := rs)
      && Step(s, FrameOp(q, rs)) == s.(view := View(t', s.view.focus))
  {
    hide Distinct, Nodes, Panes, HasPath, At, Fits, WellFormed;
    GroupFits(s.view.tree, q);
    SetRatiosOnly(s.view.tree, q, rs);
  }
}
