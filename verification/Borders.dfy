/**
 * Border resizing: the keyboard's one-cell transfer and the mouse's drag
 * (texel/workspace_layout.go:209-358, 552-597), along one axis.
 */
module Borders {
  import opened Ratios
  import opened Layout

  const MinPaneWidth := 20
  const MinPaneHeight := 8
  const MinRatio := 0.1

  function Max(a: int, b: int): int { if a < b then b else a }

  // ---------------------------------------------------------------- keyboard

  /** Move one cell's worth of ratio between two children of a group. */
  function Shift(rs: seq<real>, grow: nat, shrink: nat, size: int): seq<real>
    requires grow < |rs| && shrink < |rs| && grow != shrink
  {
    if rs[shrink] <= MinRatio then rs
    else
      var step := 1.0 / Max(size, 1) as real;
      var amount := if rs[shrink] - step < MinRatio then rs[shrink] - MinRatio else step;
      if amount <= 0.0 then rs
      else rs[grow := rs[grow] + amount][shrink := rs[shrink] - amount]
  }

  /** The keyboard never changes the total and never takes a child below 10%. */
  lemma {:induction false} ShiftKeeps(rs: seq<real>, grow: nat, shrink: nat, size: int)
    requires grow < |rs| && shrink < |rs| && grow != shrink && NonNegative(rs)
    ensures |Shift(rs, grow, shrink, size)| == |rs|
    ensures Sum(Shift(rs, grow, shrink, size)) == Sum(rs) && NonNegative(Shift(rs, grow, shrink, size))
    ensures Shift(rs, grow, shrink, size)[shrink] >= MinRatio || Shift(rs, grow, shrink, size) == rs
    ensures forall k :: 0 <= k < |rs| && k != grow && k != shrink ==> Shift(rs, grow, shrink, size)[k] == rs[k]
  {
    var r := Shift(rs, grow, shrink, size);
    if r != rs {
      var amount := rs[shrink] - r[shrink];
      SumUpdate(rs, grow, rs[grow] + amount);
      SumUpdate(rs[grow := rs[grow] + amount], shrink, rs[shrink] - amount);
    }
  }

  /** The one takes from the other a cell, or what it has above a tenth if that is less. */
  lemma {:induction false} ShiftMoves(rs: seq<real>, grow: nat, shrink: nat, size: int)
    requires grow < |rs| && shrink < |rs| && grow != shrink
    ensures var cell := 1.0 / (if size < 1 then 1 else size) as real;
      var spare := if rs[shrink] <= 0.1 then 0.0 else rs[shrink] - 0.1;
      var amount := if cell < spare then cell else spare;
      Shift(rs, grow, shrink, size) == rs[grow := rs[grow] + amount][shrink := rs[shrink] - amount]
  {
    var one: real := Max(size, 1) as real;
    DivideBy(1.0, one);
    assert 1.0 / one > 0.0;
  }

  // ------------------------------------------------------------------- mouse

  /** rs without the shares of children i and i + 1. */
  function Masked(rs: seq<real>, i: nat): seq<real>
    requires i + 1 < |rs|
  {
    rs[i := 0.0][i + 1 := 0.0]
  }

  /** Children i and i + 1 get first and second, the others share what is left. */
  function Rescaled(rs: seq<real>, i: nat, first: real, second: real): seq<real>
    requires i + 1 < |rs|
  {
    var others := Sum(Masked(rs, i));
    var left := if 1.0 - (first + second) < 0.0 then 0.0 else 1.0 - (first + second);
    if others > 0.0 then Times(rs, left / others)[i := first][i + 1 := second]
    else rs[i := first][i + 1 := second]
  }

  function ApplyBorder(rs: seq<real>, i: nat, first: real, second: real): seq<real>
    requires i + 1 < |rs|
  {
    Normalised(Rescaled(rs, i, first, second))
  }

  /** There is room for two minimal children between the two outer borders. */
  predicate CanDrag(rs: seq<real>, i: nat, len: int, least: int)
    requires i + 1 < |rs|
  {
    Offset(rs, len, i) + least < Edge(rs, len, i + 2) - least && len > 0
  }

  /** Dragging the border between children i and i + 1 to offset pos of a parent of length len. */
  function Drag(rs: seq<real>, i: nat, len: int, pos: int, least: int): seq<real>
    requires i + 1 < |rs|
  {
    var lo, hi := Offset(rs, len, i), Edge(rs, len, i + 2);
    if !CanDrag(rs, i, len, least) then rs
    else
      var at := Clamp(pos, lo + least, hi - least);
      ApplyBorder(rs, i, Part(at - lo, len), Part(hi - at, len))
  }

  /** The ratio of a parent that so many cells make up. */
  function Part(cells: int, len: int): real
    requires len != 0
  {
    cells as real / len as real
  }

  function Clamp(x: int, lo: int, hi: int): (r: int)
    requires lo <= hi
    ensures lo <= r <= hi && (lo <= x <= hi ==> r == x)
  {
    if x < lo then lo else if x > hi then hi else x
  }

  lemma {:induction false} MaskedSum(rs: seq<real>, i: nat, a: real, b: real)
    requires i + 1 < |rs|
    ensures Sum(rs[i := a][i + 1 := b]) == Sum(Masked(rs, i)) + a + b
  {
    SumUpdate(rs, i, a);
    SumUpdate(rs[i := a], i + 1, b);
    SumUpdate(rs, i, 0.0);
    SumUpdate(rs[i := 0.0], i + 1, 0.0);
  }

  lemma {:induction false} MaskedTimes(rs: seq<real>, i: nat, k: real)
    requires i + 1 < |rs|
    ensures Sum(Masked(Times(rs, k), i)) == Sum(Masked(rs, i)) * k
  {
    assert Masked(Times(rs, k), i) == Times(Masked(rs, i), k) by {
      forall j | 0 <= j < |rs| ensures Masked(Times(rs, k), i)[j] == Times(Masked(rs, i), k)[j] {
        if j == i || j == i + 1 { assert Masked(rs, i)[j] == 0.0; } else { assert Masked(rs, i)[j] == rs[j]; }
      }
    }
    SumTimes(Masked(rs, i), k);
  }

  lemma {:induction false} TimesNonNegative(rs: seq<real>, k: real)
    requires NonNegative(rs) && k >= 0.0
    ensures NonNegative(Times(rs, k))
  {
    forall i | 0 <= i < |rs| ensures Times(rs, k)[i] >= 0.0 { Product(rs[i], k); }
  }

  lemma {:induction false} MaskedNonNegative(rs: seq<real>, i: nat)
    requires NonNegative(rs) && i + 1 < |rs|
    ensures NonNegative(Masked(rs, i)) && Sum(Masked(rs, i)) >= 0.0
  {
    SumNonNegative(Masked(rs, i));
  }

  /** The total before renormalising: 1, or only the two shares when the others have none. */
  lemma {:induction false} RescaledSum(rs: seq<real>, i: nat, first: real, second: real)
    requires i + 1 < |rs| && NonNegative(rs) && first > 0.0 && second > 0.0 && first + second <= 1.0
    ensures |Rescaled(rs, i, first, second)| == |rs| && NonNegative(Rescaled(rs, i, first, second))
    ensures Sum(Masked(rs, i)) > 0.0 ==> Sum(Rescaled(rs, i, first, second)) == 1.0
    ensures Sum(Masked(rs, i)) <= 0.0 ==> Sum(Rescaled(rs, i, first, second)) == first + second
  {
    hide Sum, Masked;
    MaskedNonNegative(rs, i);
    var others, left := Sum(Masked(rs, i)), 1.0 - (first + second);
    if others > 0.0 {
      DivideBy(left, others);
      TimesNonNegative(rs, left / others);
      MaskedTimes(rs, i, left / others);
      MaskedSum(Times(rs, left / others), i, first, second);
    } else {
      MaskedSum(rs, i, first, second);
    }
  }

  /** A border move always leaves ratios that fill the group. */
  lemma {:induction false} ApplyBorderFills(rs: seq<real>, i: nat, first: real, second: real)
    requires i + 1 < |rs| && NonNegative(rs) && first > 0.0 && second > 0.0 && first + second <= 1.0
    ensures |ApplyBorder(rs, i, first, second)| == |rs| && Fills(ApplyBorder(rs, i, first, second))
  {
    RescaledSum(rs, i, first, second);
    NormalisedFills(Rescaled(rs, i, first, second));
  }

  lemma {:induction false} DividedByOne(rs: seq<real>)
    ensures Divided(rs, 1.0) == rs
  {
  }

  predicate Other(rs: seq<real>, i: nat, k: int) {
    0 <= k < |rs| && k != i && k != i + 1
  }

  /** The siblings of children i and i + 1 are all scaled by c. */
  ghost predicate ScaledBy(rs: seq<real>, r: seq<real>, i: nat, c: real)
    requires |r| == |rs|
  {
    forall j | Other(rs, i, j) :: r[j] == rs[j] * c
  }

  /** They keep their shares relative to each other. */
  ghost predicate Proportional(rs: seq<real>, r: seq<real>, i: nat)
    requires |r| == |rs|
  {
    exists c :: ScaledBy(rs, r, i, c)
  }

  lemma {:induction false} RescaledProportional(rs: seq<real>, i: nat, first: real, second: real)
    requires i + 1 < |rs|
    ensures |Rescaled(rs, i, first, second)| == |rs| && Proportional(rs, Rescaled(rs, i, first, second), i)
  {
    var others := Sum(Masked(rs, i));
    var left := if 1.0 - (first + second) < 0.0 then 0.0 else 1.0 - (first + second);
    assert ScaledBy(rs, Rescaled(rs, i, first, second), i, if others > 0.0 then left / others else 1.0);
  }

  /**
   * The two children get exactly their shares when the others had any, or
   * when there are no others; the others keep their proportions.
   */
  lemma {:induction false} ApplyBorderExact(rs: seq<real>, i: nat, first: real, second: real)
    requires i + 1 < |rs| && NonNegative(rs) && first > 0.0 && second > 0.0 && first + second <= 1.0
    requires Sum(Masked(rs, i)) > 0.0 || first + second == 1.0
    ensures var r := ApplyBorder(rs, i, first, second);
      |r| == |rs| && r[i] == first && r[i + 1] == second && Proportional(rs, r, i)
  {
    RescaledSum(rs, i, first, second);
    RescaledProportional(rs, i, first, second);
    DividedByOne(Rescaled(rs, i, first, second));
  }

  /** A share made of whole cells is laid out as those cells. */
  lemma {:induction false} WholeShare(len: int, cells: int)
    requires 0 <= cells && 0 < len
    ensures len as real * Part(cells, len) == cells as real && Share(len, Part(cells, len)) == cells
  {
    DivideBy(cells as real, len as real);
  }

  /** What a drag can see of the group: the two children's extent, inside the parent. */
  lemma {:induction false} DragExtent(rs: seq<real>, i: nat, len: int)
    requires Fits(rs) && i + 1 < |rs| && len >= 0
    ensures 0 <= Offset(rs, len, i) <= Edge(rs, len, i + 2) <= len
    ensures Edge(rs, len, i + 2) == Offset(rs, len, i + 1) + Size(rs, len, i + 1)
  {
    Edges(rs, len, i, i + 2);
    Edges(rs, len, i + 1, i + 2);
  }

  lemma Parts(a: int, b: int, len: int)
    requires 0 < a && 0 < b && a + b <= len
    ensures Part(a, len) > 0.0 && Part(b, len) > 0.0 && Part(a, len) + Part(b, len) <= 1.0
    ensures a + b == len ==> Part(a, len) + Part(b, len) == 1.0
  {
    assert Part(a, len) + Part(b, len) == (a + b) as real / len as real;
  }

  /** Every drag leaves ratios that fit; one that moves the border leaves ratios that fill the group. */
  lemma {:induction false} DragFills(rs: seq<real>, i: nat, len: int, pos: int, least: int)
    requires Fits(rs) && i + 1 < |rs| && len >= 0 && least > 0
    ensures |Drag(rs, i, len, pos, least)| == |rs| && Fits(Drag(rs, i, len, pos, least))
    ensures Fills(Drag(rs, i, len, pos, least)) <==> Fills(rs) || CanDrag(rs, i, len, least)
  {
    hide Sum, Offset, Edge, ApplyBorder, Part;
    DragExtent(rs, i, len);
    if CanDrag(rs, i, len, least) {
      var lo, hi := Offset(rs, len, i), Edge(rs, len, i + 2);
      var at := Clamp(pos, lo + least, hi - least);
      Parts(at - lo, hi - at, len);
      ApplyBorderFills(rs, i, Part(at - lo, len), Part(hi - at, len));
    }
  }

  /** The last child's rest is at least its exact share. */
  lemma {:induction false} RestCovers(rs: seq<real>, len: int)
    requires Fits(rs) && rs != [] && len >= 0
    ensures Size(rs, len, |rs| - 1) as real >= len as real * rs[|rs| - 1]
  {
    var n := |rs| - 1;
    OffsetBound(rs, len, n);
    var a, b, l := Sum(rs[..n]), rs[n], len as real;
    assert Sum(rs) == a + b <= 1.0;
    Scaled(l, a + b);
    assert l * a + l * b == l * (a + b) <= l;
  }

  /** Shares of a cells and b cells come out as a cells and at least b cells. */
  lemma {:induction false} SharesLand(r: seq<real>, i: nat, len: int, a: int, b: int)
    requires Fills(r) && i + 1 < |r| && len > 0 && 0 < a && 0 < b
    requires r[i] == Part(a, len) && r[i + 1] == Part(b, len)
    ensures Size(r, len, i) == a && Size(r, len, i + 1) >= b
  {
    WholeShare(len, a);
    WholeShare(len, b);
    if i + 2 == |r| { RestCovers(r, len); }
  }

  lemma {:induction false} BorderLands(rs: seq<real>, i: nat, len: int, a: int, b: int)
    requires Fits(rs) && i + 1 < |rs| && 0 < a && 0 < b && a + b <= len
    requires Sum(Masked(rs, i)) > 0.0 || a + b == len
    ensures var r := ApplyBorder(rs, i, Part(a, len), Part(b, len));
      && |r| == |rs| && Fills(r) && Proportional(rs, r, i)
      && Size(r, len, i) == a && Size(r, len, i + 1) >= b
  {
    Parts(a, b, len);
    var f, g := Part(a, len), Part(b, len);
    ApplyBorderFills(rs, i, f, g);
    ApplyBorderExact(rs, i, f, g);
    SharesLand(ApplyBorder(rs, i, f, g), i, len, a, b);
  }

  lemma {:induction false} TwoChildren(rs: seq<real>, len: int)
    requires |rs| == 2
    ensures Offset(rs, len, 0) == 0 && Edge(rs, len, 2) == len
  {
  }

  lemma {:induction false} FirstBorder(rs: seq<real>, len: int)
    requires |rs| >= 2
    ensures Offset(rs, len, 0) == 0 && Offset(rs, len, 1) == Size(rs, len, 0)
  {
  }

  /**
   * A drag gives the left child exactly the clamped width and the right child
   * at least its own, both at least the minimum, provided the other siblings
   * had any share, or there are none. The border of the first two children
   * lands exactly on the clamped position.
   */
  lemma {:induction false} DragLands(rs: seq<real>, i: nat, len: int, pos: int, least: int)
    requires Fits(rs) && i + 1 < |rs| && len > 0 && least > 0
    requires Sum(Masked(rs, i)) > 0.0 || |rs| == 2
    requires CanDrag(rs, i, len, least)
    ensures var lo, hi := Offset(rs, len, i), Edge(rs, len, i + 2);
      var at := Clamp(pos, lo + least, hi - least);
      var r := Drag(rs, i, len, pos, least);
      && |r| == |rs| && Fills(r)
      && Size(r, len, i) == at - lo >= least && Size(r, len, i + 1) >= hi - at >= least
      && (i == 0 ==> Offset(r, len, 1) == at)
      && Proportional(rs, r, i)
  {
    hide Sum, Masked, Offset, Size, Edge, Fills, Part, Proportional, ApplyBorder;
    var lo, hi := Offset(rs, len, i), Edge(rs, len, i + 2);
    var at := Clamp(pos, lo + least, hi - least);
    var r := Drag(rs, i, len, pos, least);
    DragExtent(rs, i, len);
    if |rs| == 2 { TwoChildren(rs, len); }
    BorderLands(rs, i, len, at - lo, hi - at);
    if i == 0 { FirstBorder(rs, len); FirstBorder(r, len); }
  }
}
