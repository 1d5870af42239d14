/**
 * The guard of PerformSplit, half of the active pane's width at least the
 * minimum (texel/workspace_layout.go:366-379), against the widths the split
 * produces (texel/tree.go:117-142, 474-477). The height axis is the same.
 */
module SplitGuard {
  import opened Ratios
  import opened PaneTree
  import opened Layout
  import opened Navigation
  import opened Edits
  import opened Borders
  import opened Runs

  /** Every child of a group laid out over len is at least `least` long. */
  ghost predicate AllAtLeast(rs: seq<real>, len: int, least: int) {
    forall i :: 0 <= i < |rs| ==> Size(rs, len, i) >= least
  }

  /** A child of an equal group of n, other than the last, gets len / n cells. */
  lemma {:induction false} EqualShare(n: nat, len: int)
    requires n > 0 && len >= 0
    ensures Share(len, 1.0 / n as real) == len / n
  {
    var q, r := len / n, len % n;
    assert len == q * n + r;
    var x := len as real * (1.0 / n as real);
    QuotientFloor(len, n, q, r);
  }

  lemma QuotientFloor(len: int, n: nat, q: int, r: int)
    requires n > 0 && 0 <= r < n && len == q * n + r
    ensures (len as real * (1.0 / n as real)).Floor == q
  {
    var x, m := len as real * (1.0 / n as real), n as real;
    DivideBy(1.0, m);
    assert x * m == len as real == q as real * m + r as real;
    Cancel(q as real, x, m);
    CancelStrict(x, q as real + 1.0, m);
  }

  lemma {:induction false} EqualOffset(n: nat, len: int, i: nat)
    requires n > 0 && len >= 0 && i <= n
    ensures Offset(Equal(n), len, i) == i * (len / n)
  {
    if i > 0 {
      EqualOffset(n, len, i - 1);
      EqualShare(n, len);
      assert Equal(n)[i - 1] == 1.0 / n as real;
      assert i * (len / n) == (i - 1) * (len / n) + len / n;
    }
  }

  /** Sizes in an equal group: whole shares, and the remainder for the last. */
  lemma {:induction false} EqualSize(n: nat, len: int, i: nat)
    requires n > 0 && len >= 0 && i < n
    ensures Size(Equal(n), len, i) == if i < n - 1 then len / n else len / n + len % n
  {
    hide Offset, Share;
    EqualOffset(n, len, i);
    EqualShare(n, len);
    assert Equal(n)[i] == 1.0 / n as real;
    if i == n - 1 {
      assert len == n * (len / n) + len % n;
      assert n * (len / n) == (n - 1) * (len / n) + len / n;
    }
  }

  /** All children of an equal group reach the minimum exactly when the parent has room for them. */
  lemma {:induction false} EqualAllAtLeast(n: nat, len: int, least: nat)
    requires n > 0 && len >= 0
    ensures AllAtLeast(Equal(n), len, least) <==> len >= least * n
  {
    hide Size, Offset;
    Quotient(n, len, least);
    forall i | 0 <= i < n
      ensures Size(Equal(n), len, i) == if i < n - 1 then len / n else len / n + len % n
    {
      EqualSize(n, len, i);
    }
    if AllAtLeast(Equal(n), len, least) {
      assert Size(Equal(n), len, 0) >= least;
    }
  }

  lemma Quotient(n: nat, len: int, least: nat)
    requires n > 0 && len >= 0
    ensures len / n >= least <==> len >= least * n
  {
    var q, r := len / n, len % n;
    assert len == q * n + r && 0 <= r < n;
    if q >= least {
      assert (q - least) * n >= 0 by { NatProduct(q - least, n); }
      assert (q - least) * n == q * n - least * n;
    } else {
      NatProduct(least - 1 - q, n);
      assert (least - 1 - q) * n == least * n - n - q * n;
    }
  }

  lemma NatProduct(a: nat, b: nat)
    ensures a * b >= 0
  {
  }

  lemma HalfSizes(len: int)
    requires len >= 0
    ensures Size([0.5, 0.5], len, 0) == len / 2 && Size([0.5, 0.5], len, 1) == len - len / 2
  {
    assert Equal(2) == [0.5, 0.5];
    EqualSize(2, len, 0);
    EqualSize(2, len, 1);
  }

  /** Splitting a pane into a new group: the guard is exactly what is needed. */
  lemma {:induction false} NewPairFits(len: int, least: nat)
    requires len >= 0
    ensures AllAtLeast([0.5, 0.5], len, least) <==> len / 2 >= least
  {
    HalfSizes(len);
    assert |[0.5, 0.5]| == 2;
  }

  /**
   * Joining an equal group of n panes: if some pane of the group passes the
   * guard, all n + 1 panes of the grown group reach the minimum, for n <= least + 1.
   */
  lemma {:induction false} JoinedGroupFits(n: nat, len: int, i: nat, least: nat)
    requires 2 <= n <= least + 1 && len >= 0 && i < n
    requires Size(Equal(n), len, i) / 2 >= least
    ensures AllAtLeast(Equal(n + 1), len, least)
  {
    hide Size, Offset, AllAtLeast, Equal;
    EqualSize(n, len, i);
    EqualAllAtLeast(n + 1, len, least);
    var q, r := len / n, len % n;
    assert len == n * q + r;
    if q >= 2 * least { ManyCells(n, q, least); } else { ManyRest(n, q, r, least); }
  }

  lemma ManyCells(n: nat, q: int, least: nat)
    requires n >= 1 && q >= 2 * least
    ensures n * q >= least * (n + 1)
  {
    Monotone(n, 2 * least, q);
    NatProduct(least, n - 1);
    assert n * (2 * least) - least * (n + 1) == least * (n - 1);
  }

  /** The last pane passed the guard thanks to its remainder. */
  lemma ManyRest(n: nat, q: int, r: int, least: nat)
    requires 2 <= n <= least + 1 && r < n && q + r >= 2 * least
    ensures n * q + r >= least * (n + 1)
  {
    var m := n - 1;
    Monotone(m, 2 * least - m, q);
    Expand(m, least);
    NatProduct(m, least - m);
    assert n * q == m * q + q;
  }

  lemma Monotone(k: nat, a: int, b: int)
    requires a <= b
    ensures k * a <= k * b
  {
    NatProduct(k, b - a);
    assert k * (b - a) == k * b - k * a;
  }

  lemma Expand(m: int, least: int)
    ensures m * (2 * least - m) + 2 * least - least * (m + 2) == m * (least - m)
  {
    assert m * (2 * least - m) == 2 * (m * least) - m * m;
    assert least * (m + 2) == m * least + 2 * least;
    assert m * (least - m) == m * least - m * m;
  }

  /** At the minimum width of 20 the bound of 21 panes is tight: with 22 it fails. */
  lemma {:induction false} JoinedGroupBoundIsTight()
    ensures Size(Equal(22), 439, 21) / 2 >= MinPaneWidth
    ensures !AllAtLeast(Equal(23), 439, MinPaneWidth)
  {
    EqualSize(22, 439, 21);
    EqualAllAtLeast(23, 439, MinPaneWidth);
  }

  // ------------------------------------------------------------- in the tree

  function Least(dir: SplitType): nat {
    if dir.Vertical? then MinPaneWidth else MinPaneHeight
  }

  /** The side of a rectangle a split divides. */
  function Extent(r: Rect, dir: SplitType): int {
    if dir.Vertical? then r.w else r.h
  }

  /** Replacing a subtree leaves the rectangle it is laid out over. */
  lemma {:induction false} RectAtPut(t: Shape, p: Path, s: Shape, r: Rect)
    requires WellFormed(t) && HasPath(t, p) && WellFormed(s)
    ensures WellFormed(Put(t, p, s)) && HasPath(Put(t, p, s), p) && At(Put(t, p, s), p) == s
    ensures RectAt(Put(t, p, s), p, r) == RectAt(t, p, r)
  {
    PutWellFormed(t, p, s);
    PutAt(t, p, s);
    if p != [] { RectAtPut(t.kids[p[0]], p[1..], s, ChildRect(t.split, t.ratios, r, p[0])); }
  }

  /** Every child of the group at q is laid out at least `least` long along its split. */
  ghost predicate ReachMinimum(t: Shape, q: Path, r: Rect, least: int)
    requires WellFormed(t) && HasPath(t, q) && At(t, q).Branch?
  {
    forall i: nat :: i < |At(t, q).kids| ==>
      HasPath(t, q + [i]) && Extent(RectAt(t, q + [i], r), At(t, q).split) >= least
  }

  lemma {:induction false} ChildrenAtLeast(t: Shape, q: Path, r: Rect, least: int)
    requires WellFormed(t) && HasPath(t, q) && At(t, q).Branch?
    ensures |At(t, q).ratios| == |At(t, q).kids|
    ensures ReachMinimum(t, q, r, least) <==>
            AllAtLeast(At(t, q).ratios, Extent(RectAt(t, q, r), At(t, q).split), least)
  {
    hide RectAt, Size;
    Inside(t, q);
    forall i: nat | i < |At(t, q).kids|
      ensures HasPath(t, q + [i])
      ensures Extent(RectAt(t, q + [i], r), At(t, q).split)
              == Size(At(t, q).ratios, Extent(RectAt(t, q, r), At(t, q).split), i)
    {
      PathStep(t, q, i);
      ChildRectAt(t, q, i, r);
    }
  }

  /** The group a split adds its pane to. */
  function Target(t: Shape, f: Path, dir: SplitType): Path
    requires HasPath(t, f)
  {
    if Joins(t, f, dir) then Init(f) else f
  }

  /** The group a split leaves there: equal shares, over the rectangle there was. */
  lemma {:induction false} TargetGroup(s: State, op: Op)
    requires Inv(s) && op.SplitOp? && Enabled(s, op)
    ensures var t, t', q := s.view.tree, Step(s, op).view.tree, Target(s.view.tree, s.view.focus, op.dir);
      && WellFormed(t') && HasPath(t', q) && At(t', q).Branch? && At(t', q).split == op.dir
      && |At(t', q).kids| == (if Joins(t, s.view.focus, op.dir) then |At(t, q).kids| + 1 else 2)
      && At(t', q).ratios == Equal(|At(t', q).kids|)
      && RectAt(t', q, s.area) == RectAt(t, q, s.area) && RectAt(t, q, s.area).Proper()
  {
    hide RectAt, HasPath, At, Put, Distinct, Nodes, Panes;
    var t, f, dir := s.view.tree, s.view.focus, op.dir;
    var q := Target(t, f, dir);
    RectWithin(t, q, s.area);
    if Joins(t, f, dir) {
      Inside(t, q);
      GrownForm(At(t, q), op.second, op.pane);
      RectAtPut(t, q, Grown(At(t, q), op.second, op.pane), s.area);
    } else {
      assert Equal(2) == [0.5, 0.5];
      PairForm(At(t, f), dir, op.first, op.second, op.pane);
      RectAtPut(t, q, Pair(At(t, f), dir, op.first, op.second, op.pane), s.area);
    }
  }

  /**
   * After a split, guarded or not, all panes of the group the new one is in
   * reach the minimum exactly when the group is long enough for that many.
   */
  lemma {:induction false} SplitReachesMinimumExactly(s: State, op: Op)
    requires Inv(s) && op.SplitOp? && Enabled(s, op)
    ensures var t, f, t' := s.view.tree, s.view.focus, Step(s, op).view.tree;
      var q := Target(t, f, op.dir);
      var n := if Joins(t, f, op.dir) then |At(t, q).kids| else 1;
      && WellFormed(t') && HasPath(t', q) && At(t', q).Branch? && |At(t', q).kids| == n + 1
      && (ReachMinimum(t', q, s.area, Least(op.dir)) <==>
            Extent(RectAt(t, q, s.area), op.dir) >= Least(op.dir) * (n + 1))
  {
    hide RectAt, HasPath, At, Put, AllAtLeast, Size, Distinct, Nodes, Panes, ReachMinimum, Step, Joins;
    TargetGroup(s, op);
    var t', q := Step(s, op).view.tree, Target(s.view.tree, s.view.focus, op.dir);
    ChildrenAtLeast(t', q, s.area, Least(op.dir));
    EqualAllAtLeast(|At(t', q).kids|, Extent(RectAt(t', q, s.area), op.dir), Least(op.dir));
  }

  /**
   * So the guard is enough for a new group, and for an equal group joined that
   * had at most one pane more than the minimum has cells.
   */
  lemma {:induction false} SplitReachesMinimum(s: State, op: Op)
    requires Inv(s) && op.SplitOp? && Enabled(s, op) && RoomToSplit(s, op.dir)
    requires Joins(s.view.tree, s.view.focus, op.dir) ==>
      var g := At(s.view.tree, Init(s.view.focus));
      0 < |g.kids| <= Least(op.dir) + 1 && g.ratios == Equal(|g.kids|)
    ensures var t', q := Step(s, op).view.tree, Target(s.view.tree, s.view.focus, op.dir);
      && WellFormed(t') && HasPath(t', q) && At(t', q).Branch?
      && ReachMinimum(t', q, s.area, Least(op.dir))
  {
    hide RectAt, HasPath, At, Put, AllAtLeast, Size, Distinct, Nodes, Panes, ReachMinimum, Step;
    var t, f, dir := s.view.tree, s.view.focus, op.dir;
    var q := Target(t, f, dir);
    SplitReachesMinimumExactly(s, op);
    RectWithin(t, q, s.area);
    var len := Extent(RectAt(t, q, s.area), dir);
    if Joins(t, f, dir) {
      var n := |At(t, q).kids|;
      Inside(t, q);
      PathLast(t, f);
      assert q + [Last(f)] == f;
      ChildRectAt(t, q, Last(f), s.area);
      JoinedGroupFits(n, len, Last(f), Least(dir));
      EqualAllAtLeast(n + 1, len, Least(dir));
    }
  }

  /**
   * The guard lets a split through exactly when the active pane is twice the
   * minimum long, which for a new pair is when both panes reach the minimum.
   */
  lemma {:induction false} GuardExactly(s: State, op: Op)
    requires Inv(s) && op.SplitOp? && Enabled(s, op)
    ensures RoomToSplit(s, op.dir) <==>
            Extent(RectAt(s.view.tree, s.view.focus, s.area), op.dir) >= if op.dir.Vertical? then 40 else 16
    ensures !Joins(s.view.tree, s.view.focus, op.dir) ==>
      var f, t' := s.view.focus, Step(s, op).view.tree;
      && WellFormed(t') && HasPath(t', f) && At(t', f).Branch? && |At(t', f).kids| == 2
      && (RoomToSplit(s, op.dir) <==> ReachMinimum(t', f, s.area, if op.dir.Vertical? then 20 else 8))
  {
    hide RectAt, HasPath, At, Put, Distinct, Nodes, Panes, ReachMinimum, Step, Joins;
    SplitReachesMinimumExactly(s, op);
  }

  lemma {:induction false} GrownForm(g: Shape, b: Node, pane: Pane)
    requires g.Branch? && WellFormed(g)
    ensures WellFormed(Grown(g, b, pane))
  {
    EqualFills(|g.kids| + 1);
  }

  lemma {:induction false} PairForm(l: Shape, dir: SplitType, a: Node, b: Node, pane: Pane)
    requires l.Leaf?
    ensures WellFormed(Pair(l, dir, a, b, pane))
  {
    HalvesFill();
  }
}
