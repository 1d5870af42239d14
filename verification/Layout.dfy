/**
 * Integer layout of a tree over an area (Tree.Resize, texel/tree.go:417-508):
 * every child but the last gets its truncated share, the last gets the rest.
 */
module Layout {
  import opened Prelude
  import opened Ratios
  import opened PaneTree

  datatype Rect = Rect(x: int, y: int, w: int, h: int) {
    predicate Holds(px: int, py: int) {
      x <= px < x + w && y <= py < y + h
    }

    predicate Within(r: Rect) {
      r.x <= x && x + w <= r.x + r.w && r.y <= y && y + h <= r.y + r.h
    }

    predicate Proper() { w >= 0 && h >= 0 }
  }

  function Share(len: int, r: real): int {
    Trunc(len as real * r)
  }

  /** Where child i starts, relative to its parent's start. */
  function Offset(rs: seq<real>, len: int, i: nat): int
    requires i <= |rs|
  {
    if i == 0 then 0 else Offset(rs, len, i - 1) + Share(len, rs[i - 1])
  }

  function Size(rs: seq<real>, len: int, i: nat): int
    requires i < |rs|
  {
    if i == |rs| - 1 then len - Offset(rs, len, i) else Share(len, rs[i])
  }

  function ChildRect(split: SplitType, rs: seq<real>, r: Rect, i: nat): Rect
    requires i < |rs|
  {
    match split
    case Vertical => Rect(r.x + Offset(rs, r.w, i), r.y, Size(rs, r.w, i), r.h)
    case Horizontal => Rect(r.x, r.y + Offset(rs, r.h, i), r.w, Size(rs, r.h, i))
  }

  /** The rectangle the node at p receives when t is laid out over r. */
  function RectAt(t: Shape, p: Path, r: Rect): Rect
    requires WellFormed(t) && HasPath(t, p)
  {
    if p == [] then r
    else RectAt(t.kids[p[0]], p[1..], ChildRect(t.split, t.ratios, r, p[0]))
  }

  // -------------------------------------------------------- one-axis tiling

  lemma ShareBounds(len: int, r: real)
    requires len >= 0 && r >= 0.0
    ensures 0 <= Share(len, r)
    ensures Share(len, r) as real <= len as real * r < Share(len, r) as real + 1.0
  {
    assert len as real * r >= 0.0;
  }

  /** The truncated shares never exceed the exact ones. */
  lemma {:induction false} OffsetBound(rs: seq<real>, len: int, i: nat)
    requires NonNegative(rs) && len >= 0 && i <= |rs|
    ensures 0 <= Offset(rs, len, i)
    ensures Offset(rs, len, i) as real <= len as real * Sum(rs[..i])
  {
    if i > 0 {
      OffsetBound(rs, len, i - 1);
      ShareBounds(len, rs[i - 1]);
      assert rs[..i][..i - 1] == rs[..i - 1];
      var a, b, l := Sum(rs[..i - 1]), rs[i - 1], len as real;
      assert Sum(rs[..i]) == a + b;
      assert l * (a + b) == l * a + l * b;
    }
  }

  lemma Scaled(l: real, s: real)
    requires l >= 0.0 && s <= 1.0
    ensures l * s <= l
  {
  }

  lemma {:induction false} OffsetFits(rs: seq<real>, len: int, i: nat)
    requires Fits(rs) && len >= 0 && i <= |rs|
    ensures 0 <= Offset(rs, len, i) <= len
  {
    hide Sum, Offset;
    OffsetBound(rs, len, i);
    SumConcat(rs[..i], rs[i..]);
    assert rs == rs[..i] + rs[i..];
    SumNonNegative(rs[i..]);
    Scaled(len as real, Sum(rs[..i]));
  }

  /** End of child i: the start of child i + 1, or the end of the parent. */
  function Edge(rs: seq<real>, len: int, i: nat): int
    requires i <= |rs|
  {
    if i == |rs| then len else Offset(rs, len, i)
  }

  lemma {:induction false} Edges(rs: seq<real>, len: int, i: nat, j: nat)
    requires Fits(rs) && len >= 0 && i <= j <= |rs|
    ensures 0 <= Edge(rs, len, i) <= Edge(rs, len, j) <= len
    ensures i < |rs| ==> Edge(rs, len, i + 1) == Offset(rs, len, i) + Size(rs, len, i) && Size(rs, len, i) >= 0
    decreases j - i
  {
    OffsetFits(rs, len, i);
    if i < |rs| { ShareBounds(len, rs[i]); }
    if i < j { Edges(rs, len, i + 1, j); }
  }

  /** Every position of the parent lies in exactly one child. */
  lemma {:induction false} FindSpan(rs: seq<real>, len: int, z: int, k: nat) returns (i: nat)
    requires Fits(rs) && 0 <= z < len && k < |rs| && Offset(rs, len, k) <= z
    ensures i < |rs| && Offset(rs, len, i) <= z < Offset(rs, len, i) + Size(rs, len, i)
    decreases |rs| - k
  {
    Edges(rs, len, k, k);
    if z < Edge(rs, len, k + 1) {
      i := k;
    } else {
      i := FindSpan(rs, len, z, k + 1);
    }
  }

  // --------------------------------------------------------- tiling theorem

  lemma ChildWithin(t: Shape, r: Rect, i: nat)
    requires WellFormed(t) && t.Branch? && i < |t.kids| && r.Proper()
    ensures ChildRect(t.split, t.ratios, r, i).Within(r)
    ensures ChildRect(t.split, t.ratios, r, i).Proper()
  {
    var len := if t.split.Vertical? then r.w else r.h;
    Edges(t.ratios, len, i, i);
    Edges(t.ratios, len, i + 1, |t.ratios|);
  }

  lemma ChildrenApart(t: Shape, r: Rect, i: nat, j: nat, x: int, y: int)
    requires WellFormed(t) && t.Branch? && i < |t.kids| && j < |t.kids| && i != j && r.Proper()
    requires ChildRect(t.split, t.ratios, r, i).Holds(x, y)
    ensures !ChildRect(t.split, t.ratios, r, j).Holds(x, y)
  {
    var len := if t.split.Vertical? then r.w else r.h;
    var a, b := if i < j then i else j, if i < j then j else i;
    Edges(t.ratios, len, a, a);
    Edges(t.ratios, len, a + 1, b);
  }

  lemma {:induction false} RectWithin(t: Shape, p: Path, r: Rect)
    requires WellFormed(t) && HasPath(t, p) && r.Proper()
    ensures RectAt(t, p, r).Within(r) && RectAt(t, p, r).Proper()
  {
    if p != [] {
      ChildWithin(t, r, p[0]);
      RectWithin(t.kids[p[0]], p[1..], ChildRect(t.split, t.ratios, r, p[0]));
    }
  }

  /** No point lies in two leaves. */
  lemma {:induction false} LeavesDisjoint(t: Shape, p: Path, q: Path, r: Rect, x: int, y: int)
    requires WellFormed(t) && LeafPath(t, p) && LeafPath(t, q) && r.Proper()
    requires RectAt(t, p, r).Holds(x, y) && RectAt(t, q, r).Holds(x, y)
    ensures p == q
  {
    if t.Branch? {
      var a, b := ChildRect(t.split, t.ratios, r, p[0]), ChildRect(t.split, t.ratios, r, q[0]);
      ChildWithin(t, r, p[0]);
      ChildWithin(t, r, q[0]);
      RectWithin(t.kids[p[0]], p[1..], a);
      RectWithin(t.kids[q[0]], q[1..], b);
      if p[0] != q[0] { ChildrenApart(t, r, p[0], q[0], x, y); }
      LeavesDisjoint(t.kids[p[0]], p[1..], q[1..], a, x, y);
      assert p == [p[0]] + p[1..] && q == [q[0]] + q[1..];
    }
  }

  /** Every point of the area lies in some leaf. */
  lemma {:induction false} LeavesCover(t: Shape, r: Rect, x: int, y: int) returns (p: Path)
    requires WellFormed(t) && r.Proper() && r.Holds(x, y)
    ensures LeafPath(t, p) && RectAt(t, p, r).Holds(x, y)
  {
    if t.Leaf? {
      p := [];
    } else {
      var vertical := t.split.Vertical?;
      var i := FindSpan(t.ratios, if vertical then r.w else r.h, if vertical then x - r.x else y - r.y, 0);
      ChildWithin(t, r, i);
      var q := LeavesCover(t.kids[i], ChildRect(t.split, t.ratios, r, i), x, y);
      p := [i] + q;
      assert p[1..] == q;
    }
  }

  /** The leaf rectangles partition r. */
  ghost predicate Tiles(t: Shape, r: Rect)
    requires WellFormed(t)
  {
    && (forall p | LeafPath(t, p) :: RectAt(t, p, r).Proper() && RectAt(t, p, r).Within(r))
    && (forall x, y | r.Holds(x, y) :: exists p :: LeafPath(t, p) && RectAt(t, p, r).Holds(x, y))
    && (forall p, q, x, y | LeafPath(t, p) && LeafPath(t, q)
          && RectAt(t, p, r).Holds(x, y) && RectAt(t, q, r).Holds(x, y) :: p == q)
  }

  /** Every well-formed tree tiles every area exactly. */
  lemma LayoutTiles(t: Shape, r: Rect)
    requires WellFormed(t) && r.Proper()
    ensures Tiles(t, r)
  {
    forall p | LeafPath(t, p) ensures RectAt(t, p, r).Proper() && RectAt(t, p, r).Within(r) {
      RectWithin(t, p, r);
    }
    forall x, y | r.Holds(x, y) ensures exists p :: LeafPath(t, p) && RectAt(t, p, r).Holds(x, y) {
      var p := LeavesCover(t, r, x, y);
    }
    forall p, q, x, y | LeafPath(t, p) && LeafPath(t, q)
        && RectAt(t, p, r).Holds(x, y) && RectAt(t, q, r).Holds(x, y)
      ensures p == q
    {
      LeavesDisjoint(t, p, q, r, x, y);
    }
  }

  // ------------------------------------------------------------ composition

  lemma {:induction false} RectConcat(t: Shape, p: Path, q: Path, r: Rect)
    requires WellFormed(t) && HasPath(t, p) && HasPath(At(t, p), q) && HasPath(t, p + q)
    requires WellFormed(At(t, p))
    ensures RectAt(t, p + q, r) == RectAt(At(t, p), q, RectAt(t, p, r))
  {
    if p == [] {
      assert p + q == q;
    } else {
      assert (p + q)[1..] == p[1..] + q;
      RectConcat(t.kids[p[0]], p[1..], q, ChildRect(t.split, t.ratios, r, p[0]));
    }
  }

  /** The panes below t hold the rectangles of t laid out over r. */
  ghost predicate Laid(t: Shape, r: Rect)
    requires WellFormed(t)
    reads Panes(t)`absX0, Panes(t)`absY0, Panes(t)`absX1, Panes(t)`absY1
  {
    match t
    case Leaf(_, p) => p.absX0 == r.x && p.absY0 == r.y && p.absX1 == r.x + r.w && p.absY1 == r.y + r.h
    case Branch(_, split, ratios, kids) =>
      forall i :: 0 <= i < |kids| ==> Laid(kids[i], ChildRect(split, ratios, r, i))
  }

  lemma {:induction false} LaidAt(t: Shape, p: Path, r: Rect)
    requires WellFormed(t) && HasPath(t, p) && Laid(t, r)
    ensures WellFormed(At(t, p)) && Laid(At(t, p), RectAt(t, p, r))
  {
    if p != [] { LaidAt(t.kids[p[0]], p[1..], ChildRect(t.split, t.ratios, r, p[0])); }
  }
}
