/**
 * Runs from one pane that end where a promise fails: a group without any width
 * (texel/workspace_layout.go:147-155), a step left and right that does not come
 * back (texel/tree.go:275-329), and a selected border that is gone
 * (texel/workspace_layout.go:552-590).
 */
module RunExamples {
  import opened Prelude
  import opened Ratios
  import opened PaneTree
  import opened Layout
  import opened Navigation
  import opened Edits
  import opened Borders
  import opened TreeHeap
  import opened Runs

  /** A vertical group of leaves. */
  function Row(n: Node, ls: seq<Node>, ps: seq<Pane>, rs: seq<real>): Shape
    requires |ls| == |ps|
  {
    Branch(n, Vertical, rs, seq(|ls|, i requires 0 <= i < |ls| => Leaf(ls[i], ps[i])))
  }

  lemma {:induction false} RowKids(n: Node, ls: seq<Node>, ps: seq<Pane>, rs: seq<real>)
    requires |ls| == |ps|
    ensures var t := Row(n, ls, ps, rs);
      |t.kids| == |ls| && forall i :: 0 <= i < |ls| ==> t.kids[i] == Leaf(ls[i], ps[i])
  {
  }

  lemma {:induction false} RowObjects(n: Node, ls: seq<Node>, ps: seq<Pane>, rs: seq<real>)
    requires |ls| == |ps|
    ensures var t := Row(n, ls, ps, rs);
      && (forall o :: o in Nodes(t) <==> o == n || o in ls) && (forall o :: o in Panes(t) <==> o in ps)
  {
    var t := Row(n, ls, ps, rs);
    RowKids(n, ls, ps, rs);
    forall o | o in ls ensures o in Nodes(t) {
      var k :| 0 <= k < |ls| && ls[k] == o;
      assert o in Nodes(t.kids[k]);
    }
    forall o | o in ps ensures o in Panes(t) {
      var k :| 0 <= k < |ps| && ps[k] == o;
      assert o in Panes(t.kids[k]);
    }
  }

  lemma {:induction false} RowForm(n: Node, ls: seq<Node>, ps: seq<Pane>, rs: seq<real>)
    requires |ls| == |ps| == |rs| >= 2 && Fits(rs) && Different(ls) && n !in ls && Different(ps)
    ensures var t := Row(n, ls, ps, rs);
      WellFormed(t) && Distinct(t) && forall i: nat :: i < |ls| ==> LeafPath(t, [i])
  {
    hide Fits;
    var t := Row(n, ls, ps, rs);
    RowKids(n, ls, ps, rs);
    forall i: nat | i < |ls| ensures LeafPath(t, [i]) {
      assert [i][1..] == [] && HasPath(t.kids[i], []) && At(t, [i]) == At(t.kids[i], []) == t.kids[i];
    }
  }

  /** A row of panes over an area, with its border b held. */
  function RowState(n: Node, ls: seq<Node>, ps: seq<Pane>, rs: seq<real>, width: int, b: Option<Grip>): State
    requires |ls| == |ps| && |ls| > 0
  {
    State(View(Row(n, ls, ps, rs), [|ls| - 1]), Rect(0, 0, width, 100), b, None, None)
  }

  ghost predicate RowFits(n: Node, ls: seq<Node>, ps: seq<Pane>, rs: seq<real>, width: int, b: Option<Grip>) {
    && |ls| == |ps| == |rs| >= 2 && Fits(rs) && Different(ls) && n !in ls && Different(ps) && width >= 0
    && (b.Some? ==> b.value.at == [] && b.value.index + 1 < |ls|)
  }

  lemma {:induction false} RowInv(n: Node, ls: seq<Node>, ps: seq<Pane>, rs: seq<real>, width: int, b: Option<Grip>)
    requires RowFits(n, ls, ps, rs, width, b)
    ensures Inv(RowState(n, ls, ps, rs, width, b))
  {
    RowForm(n, ls, ps, rs);
  }

  // ------------------------------------------------------------------- splits

  /** Splitting the last pane of an equal row adds one to the row. */
  lemma {:induction false} RowSplits(n: Node, ls: seq<Node>, ps: seq<Pane>, width: int, l: Node, p: Pane)
    requires |ls| >= 2 && RowFits(n, ls, ps, Equal(|ls|), width, None)
    requires Different(ls + [l]) && l != n && Different(ps + [p])
    ensures var s, op := RowState(n, ls, ps, Equal(|ls|), width, None), SplitOp(Vertical, l, l, p);
      && Inv(s) && Enabled(s, op)
      && Step(s, op) == RowState(n, ls + [l], ps + [p], Equal(|ls| + 1), width, None)
  {
    var k := |ls|;
    var t, f := Row(n, ls, ps, Equal(k)), [k - 1];
    RowInv(n, ls, ps, Equal(k), width, None);
    RowForm(n, ls, ps, Equal(k));
    RowObjects(n, ls, ps, Equal(k));
    NewOne(ls, l);
    NewOne(ps, p);
    assert f[..0] == [] && Init(f) == [];
    assert Joins(t, f, Vertical);
    assert Grown(t, l, p) == Row(n, ls + [l], ps + [p], Equal(k + 1)) by {
      var r := Row(n, ls + [l], ps + [p], Equal(k + 1));
      forall i | 0 <= i <= k ensures Grown(t, l, p).kids[i] == r.kids[i] {}
      assert Grown(t, l, p).kids == r.kids;
    }
    assert Init(f) + [k] == [k];
  }

  lemma {:induction false} NewOne<T>(s: seq<T>, x: T)
    requires Different(s + [x])
    ensures x !in s && Different(s)
  {
    var all := s + [x];
    forall i | 0 <= i < |s| ensures s[i] != x { assert all[i] == s[i] && all[|s|] == x; }
    forall i, j | 0 <= i < j < |s| ensures s[i] != s[j] { assert all[i] == s[i] && all[j] == s[j]; }
  }

  lemma {:induction false} FirstSplit(n: Node, a: Node, b: Node, p: Pane, q: Pane)
    requires Different([n, a, b]) && Different([p, q])
    ensures var s, op := Start(n, p, Rect(0, 0, 1000, 100)), SplitOp(Vertical, a, b, q);
      && Inv(s) && Enabled(s, op) && Step(s, op) == RowState(n, [a, b], [p, q], Equal(2), 1000, None)
  {
    var ns, ps := [n, a, b], [p, q];
    assert ns[0] != ns[1] && ns[0] != ns[2] && ns[1] != ns[2] && ps[0] != ps[1];
    StartHolds(n, p, Rect(0, 0, 1000, 100));
    assert Equal(2) == [0.5, 0.5];
    assert [Leaf(a, p), Leaf(b, q)] == Row(n, [a, b], [p, q], Equal(2)).kids;
    assert [] + [1] == [1];
  }

  // -------------------------------------------------------------------- drags

  lemma {:induction false} RowDrags(n: Node, ls: seq<Node>, ps: seq<Pane>, rs: seq<real>, width: int, b: Grip, x: int)
    requires RowFits(n, ls, ps, rs, width, Some(b))
    ensures var s, op := RowState(n, ls, ps, rs, width, Some(b)), DragOp(x, 0);
      && Inv(s) && Enabled(s, op) && RowFits(n, ls, ps, Drag(rs, b.index, width, x, MinPaneWidth), width, Some(b))
      && Step(s, op) == RowState(n, ls, ps, Drag(rs, b.index, width, x, MinPaneWidth), width, Some(b))
  {
    hide Drag, Fits;
    RowInv(n, ls, ps, rs, width, Some(b));
    DragFills(rs, b.index, width, x, MinPaneWidth);
  }

  lemma {:induction false} RowGrabs(n: Node, ls: seq<Node>, ps: seq<Pane>, rs: seq<real>, width: int,
                                    b: Option<Grip>, g: Grip)
    requires RowFits(n, ls, ps, rs, width, b) && RowFits(n, ls, ps, rs, width, Some(g))
    ensures var s, op := RowState(n, ls, ps, rs, width, b), GrabOp(g);
      && Inv(s) && Enabled(s, op) && Step(s, op) == RowState(n, ls, ps, rs, width, Some(g))
  {
    RowInv(n, ls, ps, rs, width, b);
  }

  lemma {:induction false} RowNarrows(n: Node, ls: seq<Node>, ps: seq<Pane>, rs: seq<real>, width: int,
                                      b: Option<Grip>, w: nat)
    requires RowFits(n, ls, ps, rs, width, b)
    ensures var s, op := RowState(n, ls, ps, rs, width, b), AreaOp(Rect(0, 0, w, 100));
      && Inv(s) && Enabled(s, op) && Step(s, op) == RowState(n, ls, ps, rs, w, b)
  {
    RowInv(n, ls, ps, rs, width, b);
  }

  lemma {:induction false} FourSum(w: real, x: real, y: real, z: real)
    ensures Sum([w, x, y, z]) == w + x + y + z
  {
    PairSum(w, x);
    PairSum(y, z);
    SumConcat([w, x], [y, z]);
    assert [w, x] + [y, z] == [w, x, y, z];
  }

  /** A drag that leaves the others a total of `left`, scaled by k from what they had. */
  lemma {:induction false} DragIs(rs: seq<real>, i: nat, len: int, pos: int, k: real)
    requires Fits(rs) && i + 1 < |rs| && CanDrag(rs, i, len, 20) && Sum(Masked(rs, i)) > 0.0
    requires Offset(rs, len, i) + 20 <= pos <= Edge(rs, len, i + 2) - 20
    requires var f, g := Part(pos - Offset(rs, len, i), len), Part(Edge(rs, len, i + 2) - pos, len);
      f > 0.0 && g > 0.0 && f + g <= 1.0 && 1.0 - (f + g) == k * Sum(Masked(rs, i))
    ensures Drag(rs, i, len, pos, 20) ==
            Times(rs, k)[i := Part(pos - Offset(rs, len, i), len)][i + 1 := Part(Edge(rs, len, i + 2) - pos, len)]
  {
    hide Offset, Edge, Part, Sum, Masked;
    var f, g := Part(pos - Offset(rs, len, i), len), Part(Edge(rs, len, i + 2) - pos, len);
    var others := Sum(Masked(rs, i));
    OverTimes(k, others);
    assert (1.0 - (f + g)) / others == k;
    RescaledSum(rs, i, f, g);
    MaskedNonNegative(rs, i);
    assert 1.0 - (f + g) >= 0.0;
    assert Rescaled(rs, i, f, g) == Times(rs, k)[i := f][i + 1 := g];
    DividedByOne(Rescaled(rs, i, f, g));
  }

  lemma {:induction false} OverTimes(k: real, x: real)
    requires x != 0.0
    ensures k * x / x == k
  {
  }

  const Quarters := [0.25, 0.25, 0.25, 0.25]
  const Once := [0.02, 0.48, 0.25, 0.25]
  const Twice := [0.02, 0.02, 0.71, 0.25]
  const Thrice := [0.02, 0.02, 0.48, 0.48]
  const Narrow := [0.0, 0.0, 24.0 / 49.0, 25.0 / 49.0]

  lemma {:induction false} Offsets(rs: seq<real>, len: int)
    requires |rs| == 4
    ensures Offset(rs, len, 0) == 0 && Offset(rs, len, 1) == Share(len, rs[0])
    ensures Offset(rs, len, 2) == Share(len, rs[0]) + Share(len, rs[1])
    ensures Offset(rs, len, 3) == Share(len, rs[0]) + Share(len, rs[1]) + Share(len, rs[2])
  {
    assert Offset(rs, len, 1) == Offset(rs, len, 0) + Share(len, rs[0]);
    assert Offset(rs, len, 2) == Offset(rs, len, 1) + Share(len, rs[1]);
    assert Offset(rs, len, 3) == Offset(rs, len, 2) + Share(len, rs[2]);
  }

  lemma {:induction false} FourFit(rs: seq<real>, i: nat)
    requires |rs| == 4 && i < 3 && NonNegative(rs) && rs[0] + rs[1] + rs[2] + rs[3] == 1.0
    ensures Fits(rs) && Fills(rs) && Sum(Masked(rs, i)) == 1.0 - rs[i] - rs[i + 1]
  {
    hide Sum;
    assert rs == [rs[0], rs[1], rs[2], rs[3]];
    FourSum(rs[0], rs[1], rs[2], rs[3]);
    var m := Masked(rs, i);
    assert m == [m[0], m[1], m[2], m[3]];
    FourSum(m[0], m[1], m[2], m[3]);
  }

  lemma {:induction false} FirstDrag()
    ensures Drag(Quarters, 0, 1000, 20, 20) == Once
  {
    FourFit(Quarters, 0);
    Offsets(Quarters, 1000);
    DragIs(Quarters, 0, 1000, 20, 1.0);
  }

  lemma {:induction false} SecondDrag()
    ensures Drag(Once, 1, 1000, 40, 20) == Twice
  {
    FourFit(Once, 1);
    Offsets(Once, 1000);
    DragIs(Once, 1, 1000, 40, 1.0);
  }

  lemma {:induction false} ThirdDrag()
    ensures Drag(Twice, 2, 1000, 520, 20) == Thrice
  {
    FourFit(Twice, 2);
    Offsets(Twice, 1000);
    DragIs(Twice, 2, 1000, 520, 1.0);
  }

  lemma {:induction false} LastDrag()
    ensures Drag(Thrice, 2, 49, 24, 20) == Narrow
  {
    FourFit(Thrice, 2);
    Offsets(Thrice, 49);
    DragIs(Thrice, 2, 49, 24, 0.0);
  }

  // ----------------------------------------------------------------- removals

  lemma {:induction false} RowWithout(n: Node, ls: seq<Node>, ps: seq<Pane>, rs: seq<real>, j: nat)
    requires RowFits(n, ls, ps, rs, 0, None) && |ls| >= 3 && j < |ls|
    ensures var t := Row(n, ls, ps, rs);
      && WellFormed(t) && LeafPath(t, [j]) && Removable(t, [j])
      && Remove(t, [j]) == Row(n, Without(ls, j), Without(ps, j), Normalised(Without(rs, j)))
  {
    hide Fits, Normalised;
    var t := Row(n, ls, ps, rs);
    RowForm(n, ls, ps, rs);
    RowKids(n, ls, ps, rs);
    RowSurvives(n, ls, ps, rs, j);
    assert [j][..0] == [] && Init([j]) == [];
    RemovableLeaf(t, [j]);
  }

  lemma {:induction false} RowRefocused(n: Node, ls: seq<Node>, ps: seq<Pane>, rs: seq<real>, j: nat)
    requires |ls| == |ps| >= 3 && j < |ls| && Removable(Row(n, ls, ps, rs), [j])
    ensures RemoveFocus(Row(n, ls, ps, rs), [j], [|ls| - 1]) == [|ls| - 2]
  {
    var t, k := Row(n, ls, ps, rs), |ls|;
    RowKids(n, ls, ps, rs);
    assert [j][..0] == [] && Init([j]) == [];
    if j == k - 1 {
      var kids := Without(t.kids, j);
      assert kids[k - 2] == Leaf(ls[k - 2], ps[k - 2]) && FirstLeaf(kids[k - 2]) == [];
      assert [] + [k - 2] + [] == [k - 2];
    } else {
      assert [k - 1][0 + 1..] == [] && [] + [k - 1 - 1] + [] == [k - 2];
    }
  }

  /** Removing pane j of a row of three or more. */
  lemma {:induction false} RowRemoves(n: Node, ls: seq<Node>, ps: seq<Pane>, rs: seq<real>, width: int, b: Option<Grip>,
                                      j: nat)
    requires RowFits(n, ls, ps, rs, width, b) && |ls| >= 3 && j < |ls|
    ensures var s, op := RowState(n, ls, ps, rs, width, b), RemoveOp([j]);
      var rs' := Normalised(Without(rs, j));
      && Inv(s) && Enabled(s, op) && RowFits(n, Without(ls, j), Without(ps, j), rs', width, None)
      && Step(s, op) == RowState(n, Without(ls, j), Without(ps, j), rs', width, None)
  {
    hide Fits, Normalised, Row, Remove, RemoveFocus, HasPath, At, WellFormed, Distinct;
    RowInv(n, ls, ps, rs, width, b);
    RestFits(rs, j);
    RowWithout(n, ls, ps, rs, j);
    RowRefocused(n, ls, ps, rs, j);
  }

  lemma {:induction false} RowSurvives(n: Node, ls: seq<Node>, ps: seq<Pane>, rs: seq<real>, j: nat)
    requires |ls| == |ps| == |rs| >= 3 && j < |ls|
    ensures var t := Row(n, ls, ps, rs);
      Branch(n, Vertical, Normalised(Without(rs, j)), Without(t.kids, j))
      == Row(n, Without(ls, j), Without(ps, j), Normalised(Without(rs, j)))
  {
    hide Normalised;
    var t, r := Row(n, ls, ps, rs), Row(n, Without(ls, j), Without(ps, j), Normalised(Without(rs, j)));
    RowKids(n, ls, ps, rs);
    RowKids(n, Without(ls, j), Without(ps, j), Normalised(Without(rs, j)));
    assert r.kids == Without(t.kids, j);
  }

  lemma {:induction false} FirstRemoval()
    ensures Normalised(Without(Narrow, 2)) == [0.0, 0.0, 1.0]
  {
    var left := Without(Narrow, 2);
    assert left == [0.0, 0.0] + [25.0 / 49.0];
    PairSum(0.0, 0.0);
    SumOne(25.0 / 49.0);
    SumConcat([0.0, 0.0], [25.0 / 49.0]);
    assert Normalised(left) == [0.0, 0.0, 1.0];
  }

  lemma {:induction false} SecondRemoval()
    ensures Normalised(Without([0.0, 0.0, 1.0], 2)) == [0.0, 0.0] && !Fills([0.0, 0.0])
  {
    assert Without([0.0, 0.0, 1.0], 2) == [0.0, 0.0];
    PairSum(0.0, 0.0);
  }

  // ----------------------------------------------------------------- the run

  /** Four equal panes: three splits. */
  function Splits(a: Node, b: Node, c: Node, d: Node, q: Pane, r: Pane, u: Pane): seq<Op> {
    [SplitOp(Vertical, a, b, q)] + ([SplitOp(Vertical, c, c, r)] + ([SplitOp(Vertical, d, d, u)] + []))
  }

  /** The three borders are dragged, the area narrows, and the last border is dragged again. */
  const Drags := [GrabOp(Grip([], 0))] + ([DragOp(20, 0)] + ([GrabOp(Grip([], 1))] + ([DragOp(40, 0)] +
                 ([GrabOp(Grip([], 2))] + ([DragOp(520, 0)] + ([AreaOp(Rect(0, 0, 49, 100))] +
                 ([DragOp(24, 0)] + [])))))))

  /** The third pane is closed, and then the one that takes its place. */
  const Closes := [RemoveOp([2])] + ([RemoveOp([2])] + [])

  lemma {:induction false} EqualFour()
    ensures Equal(4) == Quarters
  {
  }

  lemma {:induction false} SplitRun(n: Node, a: Node, b: Node, c: Node, d: Node, p: Pane, q: Pane, r: Pane, u: Pane)
    requires Different([a, b, c, d]) && n !in [a, b, c, d] && Different([p, q, r, u])
    ensures var s := Start(n, p, Rect(0, 0, 1000, 100));
      && Inv(s) && Legal(s, Splits(a, b, c, d, q, r, u))
      && RowFits(n, [a, b, c, d], [p, q, r, u], Quarters, 1000, None)
      && Run(s, Splits(a, b, c, d, q, r, u)) == RowState(n, [a, b, c, d], [p, q, r, u], Quarters, 1000, None)
  {
    hide Step, Enabled, Inv, Legal, Run, Equal, Fits, RowState;
    var ns, ps := [a, b, c, d], [p, q, r, u];
    assert ns[0] == a && ns[1] == b && ns[2] == c && ns[3] == d;
    assert ps[0] == p && ps[1] == q && ps[2] == r && ps[3] == u;
    EqualFills(2);
    EqualFills(3);
    EqualFills(4);
    FillsFits(Equal(2));
    FillsFits(Equal(3));
    FillsFits(Equal(4));
    EqualFour();
    FirstSplit(n, a, b, p, q);
    assert [a, b] + [c] == [a, b, c] && [p, q] + [r] == [p, q, r];
    RowSplits(n, [a, b], [p, q], 1000, c, r);
    assert [a, b, c] + [d] == ns && [p, q, r] + [u] == ps;
    RowSplits(n, [a, b, c], [p, q, r], 1000, d, u);
    RowInv(n, ns, ps, Equal(4), 1000, None);
    var s3 := RowState(n, ns, ps, Equal(4), 1000, None);
    RunNone(s3);
    RunFirst(RowState(n, [a, b, c], [p, q, r], Equal(3), 1000, None), SplitOp(Vertical, d, d, u), []);
    RunFirst(RowState(n, [a, b], [p, q], Equal(2), 1000, None), SplitOp(Vertical, c, c, r),
             [SplitOp(Vertical, d, d, u)] + []);
    RunFirst(Start(n, p, Rect(0, 0, 1000, 100)), SplitOp(Vertical, a, b, q),
             [SplitOp(Vertical, c, c, r)] + ([SplitOp(Vertical, d, d, u)] + []));
  }

  lemma {:induction false} DragRun(n: Node, ls: seq<Node>, ps: seq<Pane>)
    requires |ls| == 4 && RowFits(n, ls, ps, Quarters, 1000, None)
    ensures var s := RowState(n, ls, ps, Quarters, 1000, None);
      && Inv(s) && Legal(s, Drags) && RowFits(n, ls, ps, Narrow, 49, Some(Grip([], 2)))
      && Run(s, Drags) == RowState(n, ls, ps, Narrow, 49, Some(Grip([], 2)))
  {
    hide Step, Enabled, Inv, Legal, Run, Fits, RowState, Drag;
    var g0, g1, g2 := Some(Grip([], 0)), Some(Grip([], 1)), Some(Grip([], 2));
    FirstDrag();
    SecondDrag();
    ThirdDrag();
    LastDrag();
    RowGrabs(n, ls, ps, Quarters, 1000, None, g0.value);
    RowDrags(n, ls, ps, Quarters, 1000, g0.value, 20);
    RowGrabs(n, ls, ps, Once, 1000, g0, g1.value);
    RowDrags(n, ls, ps, Once, 1000, g1.value, 40);
    RowGrabs(n, ls, ps, Twice, 1000, g1, g2.value);
    RowDrags(n, ls, ps, Twice, 1000, g2.value, 520);
    RowNarrows(n, ls, ps, Thrice, 1000, g2, 49);
    RowDrags(n, ls, ps, Thrice, 49, g2.value, 24);
    RowInv(n, ls, ps, Narrow, 49, g2);
    var r7 := [DragOp(24, 0)] + [];
    var r6 := [AreaOp(Rect(0, 0, 49, 100))] + r7;
    var r5 := [DragOp(520, 0)] + r6;
    var r4 := [GrabOp(Grip([], 2))] + r5;
    var r3 := [DragOp(40, 0)] + r4;
    var r2 := [GrabOp(Grip([], 1))] + r3;
    var r1 := [DragOp(20, 0)] + r2;
    RunNone(RowState(n, ls, ps, Narrow, 49, g2));
    RunFirst(RowState(n, ls, ps, Thrice, 49, g2), DragOp(24, 0), []);
    RunFirst(RowState(n, ls, ps, Thrice, 1000, g2), AreaOp(Rect(0, 0, 49, 100)), r7);
    RunFirst(RowState(n, ls, ps, Twice, 1000, g2), DragOp(520, 0), r6);
    RunFirst(RowState(n, ls, ps, Twice, 1000, g1), GrabOp(Grip([], 2)), r5);
    RunFirst(RowState(n, ls, ps, Once, 1000, g1), DragOp(40, 0), r4);
    RunFirst(RowState(n, ls, ps, Once, 1000, g0), GrabOp(Grip([], 1)), r3);
    RunFirst(RowState(n, ls, ps, Quarters, 1000, g0), DragOp(20, 0), r2);
    RunFirst(RowState(n, ls, ps, Quarters, 1000, None), GrabOp(Grip([], 0)), r1);
  }

  lemma {:induction false} CloseRun(n: Node, ls: seq<Node>, ps: seq<Pane>)
    requires |ls| == 4 && RowFits(n, ls, ps, Narrow, 49, Some(Grip([], 2)))
    ensures var s := RowState(n, ls, ps, Narrow, 49, Some(Grip([], 2)));
      && Inv(s) && Legal(s, Closes)
      && Run(s, Closes) == RowState(n, ls[..2], ps[..2], [0.0, 0.0], 49, None)
  {
    hide Step, Enabled, Inv, Legal, Run, Fits, RowState, Normalised;
    FirstRemoval();
    SecondRemoval();
    RowRemoves(n, ls, ps, Narrow, 49, Some(Grip([], 2)), 2);
    var ls', ps' := Without(ls, 2), Without(ps, 2);
    RowRemoves(n, ls', ps', [0.0, 0.0, 1.0], 49, None, 2);
    assert Without(ls', 2) == ls[..2] && Without(ps', 2) == ps[..2];
    RowInv(n, ls[..2], ps[..2], [0.0, 0.0], 49, None);
    RunNone(RowState(n, ls[..2], ps[..2], [0.0, 0.0], 49, None));
    RunFirst(RowState(n, ls', ps', [0.0, 0.0, 1.0], 49, None), RemoveOp([2]), []);
    RunFirst(RowState(n, ls, ps, Narrow, 49, Some(Grip([], 2))), RemoveOp([2]), [RemoveOp([2])] + []);
  }

  /**
   * A run of splits, drags and closes from one pane after which the two panes
   * left have no width at all: the source does not renormalise a total of zero.
   */
  lemma {:induction false} RunCanUnfill(n: Node, a: Node, b: Node, c: Node, d: Node, p: Pane, q: Pane, r: Pane, u: Pane)
    requires Different([a, b, c, d]) && n !in [a, b, c, d] && Different([p, q, r, u])
    ensures var s, ops := Start(n, p, Rect(0, 0, 1000, 100)), Splits(a, b, c, d, q, r, u) + (Drags + Closes);
      && Inv(s) && Filled(s.view.tree) && Legal(s, ops)
      && Run(s, ops).view.tree == Row(n, [a, b], [p, q], [0.0, 0.0]) && !Filled(Run(s, ops).view.tree)
  {
    hide Step, Enabled, Inv, Legal, Run, Fits;
    var s := Start(n, p, Rect(0, 0, 1000, 100));
    var ls, ps := [a, b, c, d], [p, q, r, u];
    SplitRun(n, a, b, c, d, p, q, r, u);
    DragRun(n, ls, ps);
    CloseRun(n, ls, ps);
    SecondRemoval();
    var s4 := RowState(n, ls, ps, Quarters, 1000, None);
    RunBoth(s4, Drags, Closes);
    RunBoth(s, Splits(a, b, c, d, q, r, u), Drags + Closes);
    assert ls[..2] == [a, b] && ps[..2] == [p, q];
  }

  // ------------------------------------------------------------- left and right

  /** Split, drag, step left and split again: a group inside a group along the same direction. */
  function Nesting(a: Node, b: Node, c: Node, d: Node, q: Pane, r: Pane): seq<Op> {
    [SplitOp(Vertical, a, b, q)] + ([GrabOp(Grip([], 0))] + ([DragOp(600, 0)] + ([MoveOp(DirLeft)] +
    ([SplitOp(Vertical, c, d, r)] + ([MoveOp(DirRight)] + [])))))
  }

  lemma {:induction false} WideDrag()
    ensures Drag([0.5, 0.5], 0, 1000, 600, 20) == [0.6, 0.4]
  {
    var rs: seq<real> := [0.5, 0.5];
    PairSum(0.5, 0.5);
    PairSum(0.6, 0.4);
    PairSum(0.0, 0.0);
    assert Masked(rs, 0) == [0.0, 0.0];
    assert Offset(rs, 1000, 0) == 0 && Edge(rs, 1000, 2) == 1000;
    assert Rescaled(rs, 0, 0.6, 0.4) == [0.6, 0.4];
    DividedByOne([0.6, 0.4]);
  }

  lemma {:induction false} RowLeft(n: Node, a: Node, b: Node, p: Pane, q: Pane, rs: seq<real>)
    requires |rs| == 2
    ensures var t := Row(n, [a, b], [p, q], rs);
      LeafPath(t, [1]) && Neighbor(t, [1], DirLeft) == Some([0])
  {
    var t := Row(n, [a, b], [p, q], rs);
    RowKids(n, [a, b], [p, q], rs);
    assert t.kids[1] == Leaf(b, q) && t.kids[0] == Leaf(a, p) && [1][1..] == [];
    assert At(t, [1]) == At(t.kids[1], []) == Leaf(b, q);
    assert Crossing(t.kids[1], [], DirLeft) == None;
    assert Crossing(t, [1], DirLeft) == Some(Cross([], 1, 0));
    assert [] + [0] + [] == [0];
  }

  lemma {:induction false} RowNests(n: Node, a: Node, b: Node, c: Node, d: Node, p: Pane, q: Pane, r: Pane)
    ensures var t := Row(n, [a, b], [p, q], [0.6, 0.4]);
      && LeafPath(t, [0]) && !Joins(t, [0], Vertical)
      && Split(t, [0], Vertical, c, d, r) == Nested(n, a, c, d, b, p, r, q)
      && SplitFocus(t, [0], Vertical) == [0, 1]
  {
    var t := Row(n, [a, b], [p, q], [0.6, 0.4]);
    RowKids(n, [a, b], [p, q], [0.6, 0.4]);
    assert t.kids[0] == Leaf(a, p) && t.kids[1] == Leaf(b, q) && [0][1..] == [] && [0][..0] == [];
    assert At(t, [0]) == At(t.kids[0], []) == Leaf(a, p);
    assert Init([0]) == [] && Abs(t.ratios[1] - t.ratios[0]) > 0.001;
    var g := Pair(Leaf(a, p), Vertical, c, d, r);
    assert Put(t.kids[0], [], g) == g;
    assert t.kids[0 := g] == Nested(n, a, c, d, b, p, r, q).kids;
    assert [0] + [1] == [0, 1];
  }

  lemma {:induction false} NestedRight(n: Node, inner: Node, a: Node, b: Node, c: Node, p: Pane, q: Pane, r: Pane)
    ensures var t := Nested(n, inner, a, b, c, p, q, r);
      && LeafPath(t, [0, 1]) && Neighbor(t, [0, 1], DirRight) == Some([1])
      && LeafPath(t, [1]) && At(t, [1]).pane == r && At(t, [0, 1]).pane == q
  {
    var t := Nested(n, inner, a, b, c, p, q, r);
    assert [0, 1][1..] == [1] && [1][1..] == [];
    assert At(t, [0, 1]) == At(t.kids[0], [1]) == Leaf(b, q) && At(t, [1]) == Leaf(c, r);
    assert Crossing(t.kids[0].kids[1], [], DirRight) == None;
    assert Crossing(t.kids[0], [1], DirRight) == None;
    assert Crossing(t, [0, 1], DirRight) == Some(Cross([], 0, 1));
    assert [] + [1] + [] == [1];
  }

  lemma {:induction false} MoveIs(s: State, d: Direction, f: Path)
    requires Inv(s) && Neighbor(s.view.tree, s.view.focus, d) == Some(f)
    ensures Enabled(s, MoveOp(d)) && Step(s, MoveOp(d)) == s.(view := View(s.view.tree, f)) && Inv(Step(s, MoveOp(d)))
  {
    hide Neighbor, HasPath, At, WellFormed, Distinct;
    StepKeeps(s, MoveOp(d));
  }

  lemma {:induction false} NestingRun(n: Node, a: Node, b: Node, c: Node, d: Node, p: Pane, q: Pane, r: Pane)
    requires Different([n, a, c, d, b]) && Different([p, r, q])
    ensures var s := Start(n, p, Rect(0, 0, 1000, 100));
      && Inv(s) && Legal(s, Nesting(a, b, c, d, q, r))
      && Inv(Run(s, Nesting(a, b, c, d, q, r)))
      && Run(s, Nesting(a, b, c, d, q, r)) ==
           State(View(Nested(n, a, c, d, b, p, r, q), [1]), Rect(0, 0, 1000, 100), Some(Grip([], 0)), None, None)
  {
    hide Step, Enabled, Inv, Legal, Run, Fits, Drag, Nested, Neighbor, Split, SplitFocus, Row;
    var g, area := Grip([], 0), Rect(0, 0, 1000, 100);
    DistinctNames(n, a, c, d, b, p, r, q);
    EqualFills(2);
    FillsFits(Equal(2));
    assert Equal(2) == [0.5, 0.5];
    WideDrag();
    FirstSplit(n, a, b, p, q);
    RowGrabs(n, [a, b], [p, q], Equal(2), 1000, None, g);
    RowDrags(n, [a, b], [p, q], Equal(2), 1000, g, 600);
    var s0, s1 := Start(n, p, area), RowState(n, [a, b], [p, q], Equal(2), 1000, None);
    var s2 := RowState(n, [a, b], [p, q], Equal(2), 1000, Some(g));
    var s3 := RowState(n, [a, b], [p, q], [0.6, 0.4], 1000, Some(g));
    RowInv(n, [a, b], [p, q], [0.6, 0.4], 1000, Some(g));
    RowLeft(n, a, b, p, q, [0.6, 0.4]);
    MoveIs(s3, DirLeft, [0]);
    var s4 := s3.(view := View(s3.view.tree, [0]));
    NestIs(n, a, b, c, d, p, q, r, s4);
    var s5 := s4.(view := View(Nested(n, a, c, d, b, p, r, q), [0, 1]));
    NestedRight(n, a, c, d, b, p, r, q);
    MoveIs(s5, DirRight, [1]);
    var s6 := s5.(view := View(s5.view.tree, [1]));
    var o5 := [MoveOp(DirRight)] + [];
    var o4 := [SplitOp(Vertical, c, d, r)] + o5;
    var o3 := [MoveOp(DirLeft)] + o4;
    var o2 := [DragOp(600, 0)] + o3;
    var o1 := [GrabOp(g)] + o2;
    RunNone(s6);
    RunFirst(s5, MoveOp(DirRight), []);
    RunFirst(s4, SplitOp(Vertical, c, d, r), o5);
    RunFirst(s3, MoveOp(DirLeft), o4);
    RunFirst(s2, DragOp(600, 0), o3);
    RunFirst(s1, GrabOp(g), o2);
    RunFirst(s0, SplitOp(Vertical, a, b, q), o1);
  }

  lemma {:induction false} DistinctNames(n: Node, a: Node, c: Node, d: Node, b: Node, p: Pane, r: Pane, q: Pane)
    requires Different([n, a, c, d, b]) && Different([p, r, q])
    ensures Different([n, a, b]) && Different([p, q]) && Different([a, b]) && n !in [a, b]
    ensures c !in [n, a, b] && d !in [n, a, b] && c != d && r !in [p, q]
  {
    var ns, ps := [n, a, c, d, b], [p, r, q];
    assert ns[0] != ns[1] && ns[0] != ns[2] && ns[0] != ns[3] && ns[0] != ns[4] && ns[1] != ns[2];
    assert ns[1] != ns[3] && ns[1] != ns[4] && ns[2] != ns[3] && ns[2] != ns[4] && ns[3] != ns[4];
    assert ps[0] != ps[1] && ps[0] != ps[2] && ps[1] != ps[2];
  }

  lemma {:induction false} NestIs(n: Node, a: Node, b: Node, c: Node, d: Node, p: Pane, q: Pane, r: Pane, s: State)
    requires Inv(s) && s.selection == None && s.view == View(Row(n, [a, b], [p, q], [0.6, 0.4]), [0])
    requires c !in [n, a, b] && d !in [n, a, b] && c != d && r !in [p, q]
    ensures var op := SplitOp(Vertical, c, d, r);
      && Enabled(s, op) && Step(s, op) == s.(view := View(Nested(n, a, c, d, b, p, r, q), [0, 1])) && Inv(Step(s, op))
  {
    hide Row, Nested, Split, SplitFocus, HasPath, At, WellFormed, Distinct, Joins;
    RowNests(n, a, b, c, d, p, q, r);
    RowObjects(n, [a, b], [p, q], [0.6, 0.4]);
    StepKeeps(s, SplitOp(Vertical, c, d, r));
  }

  /** A run from one pane after which left and then right focus another pane than before. */
  lemma {:induction false} LeftThenRightCanStayRun(n: Node, a: Node, b: Node, c: Node, d: Node,
                                                   p: Pane, q: Pane, r: Pane)
    requires Different([n, a, c, d, b]) && Different([p, r, q])
    ensures var s, ops := Start(n, p, Rect(0, 0, 1000, 100)), Nesting(a, b, c, d, q, r);
      var back := ops + ([MoveOp(DirLeft)] + ([MoveOp(DirRight)] + []));
      && Inv(s) && Legal(s, ops) && Inv(Run(s, ops)) && Legal(s, back) && Inv(Run(s, back))
      && Focused(Run(s, ops)) == q && Focused(Run(s, back)) == r != q
  {
    hide Step, Enabled, Legal, Run, Nested, Neighbor, WellFormed, Distinct;
    NestingRun(n, a, b, c, d, p, q, r);
    DistinctNames(n, a, c, d, b, p, r, q);
    LeftThenRightCanStay(n, a, c, d, b, p, r, q);
    NestedRight(n, a, c, d, b, p, r, q);
    var s, ops := Start(n, p, Rect(0, 0, 1000, 100)), Nesting(a, b, c, d, q, r);
    var s6 := Run(s, ops);
    MoveIs(s6, DirLeft, [0, 0]);
    var s7 := s6.(view := View(s6.view.tree, [0, 0]));
    MoveIs(s7, DirRight, [0, 1]);
    var s8 := s7.(view := View(s7.view.tree, [0, 1]));
    RunNone(s8);
    RunFirst(s7, MoveOp(DirRight), []);
    RunFirst(s6, MoveOp(DirLeft), [MoveOp(DirRight)] + []);
    RunBoth(s, ops, [MoveOp(DirLeft)] + ([MoveOp(DirRight)] + []));
  }

  // -------------------------------------------------------- a lost selection

  /** Split, select the border, and lose the pane on its right. */
  function Losing(a: Node, b: Node, q: Pane): seq<Op> {
    [SplitOp(Vertical, a, b, q)] + ([KeyOp(DirLeft)] + ([RemoveOp([1])] + []))
  }

  /** Two panes with the border between them selected. */
  function SelectedPair(n: Node, a: Node, b: Node, p: Pane, q: Pane): State {
    RowState(n, [a, b], [p, q], Equal(2), 1000, None).(selection := Some(Border(n, 0)))
  }

  /** One pane, with the border that was to its right still selected. */
  function Lost(n: Node, a: Node, p: Pane): State {
    State(View(Leaf(a, p), []), Rect(0, 0, 1000, 100), None, Some(Border(n, 0)), Some(Divider(Vertical, [0.5])))
  }

  lemma {:induction false} PairSelects(n: Node, a: Node, b: Node, p: Pane, q: Pane)
    requires Different([n, a, b]) && Different([p, q])
    ensures var s := RowState(n, [a, b], [p, q], Equal(2), 1000, None);
      && Inv(s) && Enabled(s, KeyOp(DirLeft)) && Step(s, KeyOp(DirLeft)) == SelectedPair(n, a, b, p, q)
      && Inv(SelectedPair(n, a, b, p, q))
  {
    hide Names, HasPath, At, WellFormed, Distinct, Row;
    var s, t := RowState(n, [a, b], [p, q], Equal(2), 1000, None), Row(n, [a, b], [p, q], Equal(2));
    FirstSplit(n, a, b, p, q);
    StepKeeps(Start(n, p, Rect(0, 0, 1000, 100)), SplitOp(Vertical, a, b, q));
    RowBorder(n, a, b, p, q, Equal(2));
    StepKeeps(s, KeyOp(DirLeft));
  }

  lemma {:induction false} RowBorder(n: Node, a: Node, b: Node, p: Pane, q: Pane, rs: seq<real>)
    requires |rs| == 2
    ensures var t := Row(n, [a, b], [p, q], rs);
      HasPath(t, [1]) && BorderOf(t, [1], DirLeft) == Some(Border(n, 0))
  {
    var t := Row(n, [a, b], [p, q], rs);
    RowKids(n, [a, b], [p, q], rs);
    assert t.kids[1] == Leaf(b, q) && [1][1..] == [];
    assert Crossing(t.kids[1], [], DirLeft) == None;
    assert Crossing(t, [1], DirLeft) == Some(Cross([], 1, 0));
  }

  lemma {:induction false} PairLoses(n: Node, a: Node, b: Node, p: Pane, q: Pane)
    requires Different([n, a, b]) && Different([p, q])
    ensures var s := SelectedPair(n, a, b, p, q);
      && Inv(s) && Enabled(s, RemoveOp([1])) && Step(s, RemoveOp([1])) == Lost(n, a, p) && Inv(Lost(n, a, p))
  {
    hide Names;
    var s, t := SelectedPair(n, a, b, p, q), Row(n, [a, b], [p, q], Equal(2));
    PairSelects(n, a, b, p, q);
    RowKids(n, [a, b], [p, q], Equal(2));
    assert t.kids[1] == Leaf(b, q) && t.kids[0] == Leaf(a, p) && [1][1..] == [] && [1][..0] == [];
    assert At(t, [1]) == At(t.kids[1], []) == Leaf(b, q) && Init([1]) == [];
    assert Without(t.kids, 1) == [Leaf(a, p)] && Without(Equal(2), 1) == [0.5];
    StepKeeps(s, RemoveOp([1]));
  }

  /**
   * A run from one pane after which the border selected is gone and a further
   * key press left or right fails; up and down do nothing.
   */
  lemma {:induction false} SelectionCanBeLost(n: Node, a: Node, b: Node, p: Pane, q: Pane)
    requires Different([n, a, b]) && Different([p, q])
    ensures var s, ops := Start(n, p, Rect(0, 0, 1000, 100)), Losing(a, b, q);
      && Inv(s) && Legal(s, ops) && Inv(Run(s, ops))
      && Run(s, ops).selection == Some(Border(n, 0)) && !Names(Run(s, ops).view.tree, Border(n, 0))
      && (forall d :: !Enabled(Run(s, ops), KeyOp(d)) <==> d.DirLeft? || d.DirRight?)
      && (forall d: Direction | !d.DirLeft? && !d.DirRight? :: Step(Run(s, ops), KeyOp(d)) == Run(s, ops))
  {
    hide Step, Enabled, Inv, Legal, Run, RowState, SelectedPair, Names;
    var s0, s1 := Start(n, p, Rect(0, 0, 1000, 100)), RowState(n, [a, b], [p, q], Equal(2), 1000, None);
    var s2, s3 := SelectedPair(n, a, b, p, q), Lost(n, a, p);
    FirstSplit(n, a, b, p, q);
    PairSelects(n, a, b, p, q);
    PairLoses(n, a, b, p, q);
    RunNone(s3);
    RunFirst(s2, RemoveOp([1]), []);
    RunFirst(s1, KeyOp(DirLeft), [RemoveOp([1])] + []);
    RunFirst(s0, SplitOp(Vertical, a, b, q), [KeyOp(DirLeft)] + ([RemoveOp([1])] + []));
    LeafNamesNone(s3.view.tree, Border(n, 0));
    forall d: Direction ensures !Enabled(s3, KeyOp(d)) <==> d.DirLeft? || d.DirRight?
      ensures !d.DirLeft? && !d.DirRight? ==> Step(s3, KeyOp(d)) == s3
    {
      KeyPanicsExactly(s3, d);
    }
  }
}
