/**
 * Directional navigation (texel/tree.go:274-329) and border selection
 * (texel/workspace_layout.go:502-534, texel/workspace_navigation.go:137-177)
 * as functions of the tree, and what they mean on the screen.
 */
module Navigation {
  import opened Prelude
  import opened Ratios
  import opened PaneTree
  import opened Layout

  /** DirNone is the source's -1, for a key that is not an arrow. */
  datatype Direction = DirUp | DirDown | DirLeft | DirRight | DirNone

  predicate Along(d: Direction, split: SplitType) {
    match d
    case DirLeft => split.Vertical?
    case DirRight => split.Vertical?
    case DirUp => split.Horizontal?
    case DirDown => split.Horizontal?
    case DirNone => false
  }

  predicate Forward(d: Direction) { d.DirRight? || d.DirDown? }

  function Opposite(d: Direction): Direction {
    match d
    case DirLeft => DirRight
    case DirRight => DirLeft
    case DirUp => DirDown
    case DirDown => DirUp
    case DirNone => DirNone
  }

  /** The child next to child i in direction d, if the split runs that way. */
  function Sibling(d: Direction, split: SplitType, i: nat, n: nat): Option<nat> {
    if Along(d, split) && Forward(d) && i + 1 < n then Some(i + 1)
    else if Along(d, split) && !Forward(d) && i >= 1 then Some(i - 1)
    else None
  }

  /** A step from child `from` to child `to` of the node at `at`. */
  datatype Cross = Cross(at: Path, from: nat, to: nat) {
    /** The border crossed: it separates children index and index + 1. */
    function Index(): nat { if from < to then from else to }
  }

  /** q leads to a split with a child i. */
  predicate Spot(t: Shape, q: Path, i: nat) {
    HasPath(t, q) && At(t, q).Branch? && i < |At(t, q).kids|
  }

  /** The deepest ancestor of p at which direction d leads to a sibling. */
  function Crossing(t: Shape, p: Path, d: Direction): Option<Cross>
    requires HasPath(t, p)
  {
    if p == [] then None
    else match Crossing(t.kids[p[0]], p[1..], d)
      case Some(c) => Some(Cross([p[0]] + c.at, c.from, c.to))
      case None => Here(t, p[0], d)
  }

  /** c is the crossing from p in direction d, and lies on p. */
  predicate Crosses(t: Shape, p: Path, d: Direction, c: Cross) {
    && HasPath(t, p) && Crossing(t, p, d) == Some(c)
    && !d.DirNone? && Spot(t, c.at, c.from) && Spot(t, c.at, c.to)
    && |c.at| < |p| && c.at == p[..|c.at|] && c.from == p[|c.at|]
    && Sibling(d, At(t, c.at).split, c.from, |At(t, c.at).kids|) == Some(c.to)
  }

  /** The crossing at the root of t, seen from child i. */
  function Here(t: Shape, i: nat, d: Direction): Option<Cross>
    requires t.Branch?
  {
    match Sibling(d, t.split, i, |t.kids|)
    case Some(j) => Some(Cross([], i, j))
    case None => None
  }

  function FirstLeaf(t: Shape): Path {
    if t.Leaf? || t.kids == [] then [] else [0] + FirstLeaf(t.kids[0])
  }

  /** Where focus goes from the leaf at p. */
  function Neighbor(t: Shape, p: Path, d: Direction): Option<Path>
    requires HasPath(t, p)
  {
    match Crossing(t, p, d)
    case Some(c) => CrossingOnPath(t, p, d); Some(Arrival(t, c.at, c.to))
    case None => None
  }

  /** The first leaf of child i of the node at q. */
  function Arrival(t: Shape, q: Path, i: nat): Path
    requires Spot(t, q, i)
  {
    q + [i] + FirstLeaf(At(t, q).kids[i])
  }

  // ----------------------------------------------------------- shape lemmas

  lemma {:induction false} CrossingOnPath(t: Shape, p: Path, d: Direction)
    requires HasPath(t, p)
    ensures Crossing(t, p, d).Some? ==> Crosses(t, p, d, Crossing(t, p, d).value)
  {
    if p != [] {
      var k := t.kids[p[0]];
      CrossingOnPath(k, p[1..], d);
      if Crossing(k, p[1..], d).Some? {
        var b := Crossing(k, p[1..], d).value;
        var q := [p[0]] + b.at;
        assert q[1..] == b.at && p == [p[0]] + p[1..];
        assert At(t, q) == At(k, b.at);
      }
    }
  }

  /** A crossing found below q is the crossing of the whole path. */
  lemma {:induction false} CrossingLift(t: Shape, q: Path, s: Path, d: Direction, c: Cross)
    requires HasPath(t, q) && HasPath(At(t, q), s) && HasPath(t, q + s)
    requires Crossing(At(t, q), s, d) == Some(c)
    ensures Crossing(t, q + s, d) == Some(Cross(q + c.at, c.from, c.to))
  {
    if q == [] {
      assert q + s == s && q + c.at == c.at;
    } else {
      assert (q + s)[1..] == q[1..] + s;
      assert (q + s)[0] == q[0];
      CrossingLift(t.kids[q[0]], q[1..], s, d, c);
      assert [q[0]] + (q[1..] + c.at) == q + c.at;
    }
  }

  lemma {:induction false} FirstLeafIsLeaf(t: Shape)
    requires WellFormed(t)
    ensures LeafPath(t, FirstLeaf(t))
  {
    if t.Branch? {
      FirstLeafIsLeaf(t.kids[0]);
      assert FirstLeaf(t)[1..] == FirstLeaf(t.kids[0]);
    }
  }

  lemma {:induction false} ArrivalIsLeaf(t: Shape, q: Path, i: nat)
    requires WellFormed(t) && Spot(t, q, i)
    ensures HasPath(t, q + [i]) && At(t, q + [i]) == At(t, q).kids[i]
    ensures WellFormed(At(t, q).kids[i]) && LeafPath(At(t, q).kids[i], FirstLeaf(At(t, q).kids[i]))
    ensures LeafPath(t, Arrival(t, q, i))
    ensures At(t, Arrival(t, q, i)) == At(At(t, q).kids[i], FirstLeaf(At(t, q).kids[i]))
  {
    Inside(t, q);
    PathStep(t, q, i);
    var k := At(t, q).kids[i];
    FirstLeafIsLeaf(k);
    PathConcat(t, q + [i], FirstLeaf(k));
  }

  lemma {:induction false} NeighborIsLeaf(t: Shape, p: Path, d: Direction)
    requires WellFormed(t) && LeafPath(t, p) && Neighbor(t, p, d).Some?
    ensures LeafPath(t, Neighbor(t, p, d).value) && Neighbor(t, p, d).value != p
  {
    CrossingOnPath(t, p, d);
    var c := Crossing(t, p, d).value;
    ArrivalIsLeaf(t, c.at, c.to);
    assert Arrival(t, c.at, c.to)[|c.at|] == c.to;
  }

  // --------------------------------------------------------------- geometry

  /** The coordinate of r's edge on side d. */
  function Side(r: Rect, d: Direction): int
    requires !d.DirNone?
  {
    match d
    case DirLeft => r.x
    case DirRight => r.x + r.w
    case DirUp => r.y
    case DirDown => r.y + r.h
  }

  /** Leaving child i along its split, one reaches child j's near side. */
  lemma {:induction false} SiblingsMeet(t: Shape, r: Rect, i: nat, d: Direction)
    requires WellFormed(t) && t.Branch? && r.Proper() && i < |t.kids|
    requires Sibling(d, t.split, i, |t.kids|).Some?
    ensures var j := Sibling(d, t.split, i, |t.kids|).value;
      Side(ChildRect(t.split, t.ratios, r, i), d) == Side(ChildRect(t.split, t.ratios, r, j), Opposite(d))
  {
    var len := if t.split.Vertical? then r.w else r.h;
    var a := if Forward(d) then i else i - 1;
    Edges(t.ratios, len, a, a);
    Edges(t.ratios, len, a + 1, a + 1);
  }

  /** With no sibling that way, child i reaches its parent's side d. */
  lemma {:induction false} OutermostChild(t: Shape, r: Rect, i: nat, d: Direction)
    requires WellFormed(t) && t.Branch? && r.Proper() && i < |t.kids| && !d.DirNone?
    requires Sibling(d, t.split, i, |t.kids|).None?
    ensures Side(ChildRect(t.split, t.ratios, r, i), d) == Side(r, d)
  {
    var len := if t.split.Vertical? then r.w else r.h;
    Edges(t.ratios, len, i, i);
  }

  lemma {:induction false} NoCrossingTouches(t: Shape, p: Path, d: Direction, r: Rect)
    requires WellFormed(t) && HasPath(t, p) && r.Proper() && !d.DirNone?
    requires Crossing(t, p, d).None?
    ensures Side(RectAt(t, p, r), d) == Side(r, d)
  {
    if p != [] {
      ChildWithin(t, r, p[0]);
      NoCrossingTouches(t.kids[p[0]], p[1..], d, ChildRect(t.split, t.ratios, r, p[0]));
      OutermostChild(t, r, p[0], d);
    }
  }

  lemma {:induction false} FirstLeafCorner(t: Shape, r: Rect)
    requires WellFormed(t) && HasPath(t, FirstLeaf(t))
    ensures RectAt(t, FirstLeaf(t), r).x == r.x && RectAt(t, FirstLeaf(t), r).y == r.y
  {
    if t.Branch? {
      assert FirstLeaf(t)[1..] == FirstLeaf(t.kids[0]);
      FirstLeafCorner(t.kids[0], ChildRect(t.split, t.ratios, r, 0));
    }
  }

  /** The sibling subtree entered by a crossing starts where the leaf ends. */
  lemma {:induction false} CrossingMeets(t: Shape, p: Path, d: Direction, r: Rect, c: Cross)
    requires WellFormed(t) && r.Proper() && Crosses(t, p, d, c)
    ensures HasPath(t, c.at + [c.to])
    ensures Side(RectAt(t, c.at + [c.to], r), Opposite(d)) == Side(RectAt(t, p, r), d)
  {
    PathStep(t, c.at, c.to);
    var k, kr := t.kids[p[0]], ChildRect(t.split, t.ratios, r, p[0]);
    ChildWithin(t, r, p[0]);
    if Crossing(k, p[1..], d).Some? {
      var b := Crossing(k, p[1..], d).value;
      CrossingOnPath(k, p[1..], d);
      CrossingMeets(k, p[1..], d, kr, b);
      assert (c.at + [c.to])[1..] == b.at + [b.to];
    } else {
      NoCrossingTouches(k, p[1..], d, kr);
      SiblingsMeet(t, r, p[0], d);
      assert c.at + [c.to] == [c.to];
      assert [c.to][1..] == [];
    }
  }

  /**
   * Right and down reach a leaf whose near edge is the active leaf's far edge;
   * left and up reach the first leaf of a subtree whose far edge is its near edge.
   */
  lemma {:induction false} NeighborAdjacent(t: Shape, p: Path, d: Direction, r: Rect)
    requires WellFormed(t) && LeafPath(t, p) && r.Proper() && !d.DirNone? && Neighbor(t, p, d).Some?
    ensures LeafPath(t, Neighbor(t, p, d).value)
    ensures Forward(d) ==>
      Side(RectAt(t, Neighbor(t, p, d).value, r), Opposite(d)) == Side(RectAt(t, p, r), d)
    ensures !Forward(d) ==> exists s: Path ::
      && HasPath(t, s) && Side(RectAt(t, s, r), Opposite(d)) == Side(RectAt(t, p, r), d)
      && Neighbor(t, p, d).value == s + FirstLeaf(At(t, s))
  {
    var c := Crossing(t, p, d).value;
    CrossingOnPath(t, p, d);
    CrossingMeets(t, p, d, r, c);
    NeighborIsLeaf(t, p, d);
    ArrivalIsLeaf(t, c.at, c.to);
    var s := c.at + [c.to];
    var k := At(t, s);
    Inside(t, s);
    RectConcat(t, s, FirstLeaf(k), r);
    FirstLeafIsLeaf(k);
    FirstLeafCorner(k, RectAt(t, s, r));
  }

  lemma {:induction false} ChildRectAt(t: Shape, q: Path, i: nat, r: Rect)
    requires WellFormed(t) && Spot(t, q, i) && HasPath(t, q + [i])
    ensures i < |At(t, q).ratios|
    ensures RectAt(t, q + [i], r) == ChildRect(At(t, q).split, At(t, q).ratios, RectAt(t, q, r), i)
  {
    Inside(t, q);
    RectConcat(t, q, [i], r);
  }

  ghost predicate NoEmptyLeaf(t: Shape, r: Rect)
    requires WellFormed(t)
  {
    forall p | LeafPath(t, p) :: RectAt(t, p, r).w > 0 && RectAt(t, p, r).h > 0
  }

  /** Navigation stops exactly at the edge of the area. */
  lemma {:induction false} StopsAtTheEdge(t: Shape, p: Path, d: Direction, r: Rect)
    requires WellFormed(t) && LeafPath(t, p) && r.Proper() && !d.DirNone?
    requires NoEmptyLeaf(t, r)
    ensures Neighbor(t, p, d).None? <==> Side(RectAt(t, p, r), d) == Side(r, d)
  {
    if Crossing(t, p, d).None? {
      NoCrossingTouches(t, p, d, r);
    } else {
      var c := Crossing(t, p, d).value;
      CrossingOnPath(t, p, d);
      CrossingMeets(t, p, d, r, c);
      ArrivalIsLeaf(t, c.at, c.to);
      var s, m := c.at + [c.to], Arrival(t, c.at, c.to);
      Inside(t, s);
      RectConcat(t, s, FirstLeaf(At(t, s)), r);
      RectWithin(t, s, r);
      RectWithin(At(t, s), FirstLeaf(At(t, s)), RectAt(t, s, r));
    }
  }

  // ---------------------------------------------------------------- reversal

  /** No split on the way to the first leaf runs along d. */
  predicate ClearFirstChain(t: Shape, d: Direction) {
    t.Leaf? || t.kids == [] || (!Along(d, t.split) && ClearFirstChain(t.kids[0], d))
  }

  lemma {:induction false} FirstLeafCrossing(t: Shape, d: Direction)
    requires WellFormed(t) && HasPath(t, FirstLeaf(t)) && !d.DirNone?
    ensures !Forward(d) ==> Crossing(t, FirstLeaf(t), d).None?
    ensures Forward(d) ==> (Crossing(t, FirstLeaf(t), d).None? <==> ClearFirstChain(t, d))
  {
    if t.Branch? {
      assert FirstLeaf(t)[1..] == FirstLeaf(t.kids[0]);
      FirstLeafCrossing(t.kids[0], d);
    }
  }

  /** Going back from the arrival point: out of its subtree, or within it. */
  lemma {:induction false} BackFrom(t: Shape, p: Path, d: Direction, c: Cross)
    requires WellFormed(t) && Crosses(t, p, d, c)
    ensures LeafPath(t, Arrival(t, c.at, c.to))
    ensures var back := Neighbor(t, Arrival(t, c.at, c.to), Opposite(d));
      if Forward(d) || ClearFirstChain(At(t, c.at).kids[c.to], d)
      then back == Some(Arrival(t, c.at, c.from))
      else back.Some? && c.at + [c.to] <= back.value
  {
    var m, o := Arrival(t, c.at, c.to), Opposite(d);
    ArrivalIsLeaf(t, c.at, c.to);
    var a := At(t, c.at);
    var k := a.kids[c.to];
    var f := FirstLeaf(k);
    FirstLeafCrossing(k, o);
    ClearChainOpposite(k, d);
    match Crossing(k, f, o)
    case Some(b) =>
      CrossingLift(t, c.at + [c.to], f, o, b);
    case None =>
      BackAcross(t, p, d, c);
  }

  /** The case in which the way back leaves the entered subtree. */
  lemma {:induction false} BackAcross(t: Shape, p: Path, d: Direction, c: Cross)
    requires WellFormed(t) && Crosses(t, p, d, c) && LeafPath(t, Arrival(t, c.at, c.to))
    requires var k := At(t, c.at).kids[c.to];
      HasPath(k, FirstLeaf(k)) && Crossing(k, FirstLeaf(k), Opposite(d)).None?
    ensures Neighbor(t, Arrival(t, c.at, c.to), Opposite(d)) == Some(Arrival(t, c.at, c.from))
  {
    var a, o := At(t, c.at), Opposite(d);
    var s := [c.to] + FirstLeaf(a.kids[c.to]);
    assert s[1..] == FirstLeaf(a.kids[c.to]);
    assert Crossing(a, s, o) == Here(a, c.to, o) == Some(Cross([], c.to, c.from));
    assert c.at + s == Arrival(t, c.at, c.to);
    CrossingLift(t, c.at, s, o, Cross([], c.to, c.from));
    assert c.at + [] == c.at;
  }

  lemma {:induction false} ClearChainOpposite(t: Shape, d: Direction)
    ensures ClearFirstChain(t, d) == ClearFirstChain(t, Opposite(d))
  {
    if t.Branch? && t.kids != [] { ClearChainOpposite(t.kids[0], d); }
  }

  /**
   * The way back leads to the first leaf of the subtree one came from: always
   * after right and down, and after left and up exactly when no split on the
   * way to the first leaf of the entered subtree runs along the direction.
   */
  lemma {:induction false} NavigationReverses(t: Shape, p: Path, d: Direction, c: Cross)
    requires WellFormed(t) && Crosses(t, p, d, c)
    ensures Neighbor(t, p, d) == Some(Arrival(t, c.at, c.to)) && HasPath(t, Arrival(t, c.at, c.to))
    ensures Neighbor(t, Arrival(t, c.at, c.to), Opposite(d)) == Some(Arrival(t, c.at, c.from))
      <==> (Forward(d) || ClearFirstChain(At(t, c.at).kids[c.to], d))
  {
    BackFrom(t, p, d, c);
    assert Arrival(t, c.at, c.from)[|c.at|] == c.from;
  }

  /** A vertical group of two leaves beside a third leaf, inside a vertical group. */
  function Nested(n: Node, inner: Node, a: Node, b: Node, c: Node, p: Pane, q: Pane, r: Pane): Shape {
    Branch(n, Vertical, [0.6, 0.4], [Branch(inner, Vertical, [0.5, 0.5], [Leaf(a, p), Leaf(b, q)]), Leaf(c, r)])
  }

  /** Left then right need not come back: from the third leaf they lead to the second. */
  lemma {:induction false} LeftThenRightCanStay(n: Node, inner: Node, a: Node, b: Node, c: Node,
                                                p: Pane, q: Pane, r: Pane)
    requires Different([n, inner, a, b, c]) && Different([p, q, r])
    ensures var t := Nested(n, inner, a, b, c, p, q, r);
      && WellFormed(t) && Filled(t) && Distinct(t)
      && LeafPath(t, [1]) && Neighbor(t, [1], DirLeft) == Some([0, 0])
      && LeafPath(t, [0, 0]) && Neighbor(t, [0, 0], DirRight) == Some([0, 1])
  {
    var t := Nested(n, inner, a, b, c, p, q, r);
    NestedForm(n, inner, a, b, c, p, q, r);
    NestedDistinct(n, inner, a, b, c, p, q, r);
    assert [1][1..] == [] && [0, 0][1..] == [0] && [0][1..] == [];
    assert Crossing(t, [1], DirLeft) == Some(Cross([], 1, 0));
    assert Crossing(t.kids[0], [0], DirRight) == Some(Cross([], 0, 1));
    assert At(t, [0, 0]) == At(t.kids[0], [0]) == Leaf(a, p);
    assert Crossing(t, [0, 0], DirRight) == Some(Cross([0] + [], 0, 1));
    assert FirstLeaf(Leaf(a, p)) == [] && FirstLeaf(Leaf(b, q)) == [];
    assert FirstLeaf(t.kids[0]) == [0] + FirstLeaf(t.kids[0].kids[0]) == [0];
    assert At(t, [0]) == t.kids[0];
    assert [0] + [] == [0];
    assert [] + [0] + [0] == [0, 0] && [0] + [1] + [] == [0, 1];
  }

  lemma {:induction false} NestedForm(n: Node, inner: Node, a: Node, b: Node, c: Node, p: Pane, q: Pane, r: Pane)
    ensures WellFormed(Nested(n, inner, a, b, c, p, q, r)) && Filled(Nested(n, inner, a, b, c, p, q, r))
  {
    PairSum(0.5, 0.5);
    PairSum(0.6, 0.4);
  }

  lemma {:induction false} PairSum(x: real, y: real)
    ensures Sum([x, y]) == x + y
  {
    assert [x, y] == [x] + [y];
    SumConcat([x], [y]);
    SumOne(x);
    SumOne(y);
  }

  lemma {:induction false} NestedDistinct(n: Node, inner: Node, a: Node, b: Node, c: Node, p: Pane, q: Pane, r: Pane)
    requires Different([n, inner, a, b, c]) && Different([p, q, r])
    ensures Distinct(Nested(n, inner, a, b, c, p, q, r))
  {
    var g := Branch(inner, Vertical, [0.5, 0.5], [Leaf(a, p), Leaf(b, q)]);
    assert g.kids[0] == Leaf(a, p) && g.kids[1] == Leaf(b, q);
    assert forall x :: x in Nodes(g) ==> x == inner || x == a || x == b;
    assert forall x :: x in Panes(g) ==> x == p || x == q;
    var ns, ps := [n, inner, a, b, c], [p, q, r];
    assert ns[0] != ns[1] && ns[0] != ns[2] && ns[0] != ns[3] && ns[0] != ns[4] && ns[1] != ns[2];
    assert ns[1] != ns[3] && ns[1] != ns[4] && ns[2] != ns[3] && ns[2] != ns[4] && ns[3] != ns[4];
    assert ps[0] != ps[1] && ps[0] != ps[2] && ps[1] != ps[2];
  }
}
