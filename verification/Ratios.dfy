/** Vectors of split ratios. Go's float64 is idealised to exact reals. */
module Ratios {

  ghost predicate NonNegative(rs: seq<real>) {
    forall i :: 0 <= i < |rs| ==> rs[i] >= 0.0
  }

  ghost predicate Positive(rs: seq<real>) {
    forall i :: 0 <= i < |rs| ==> rs[i] > 0.0
  }

  function Abs(x: real): real {
    if x < 0.0 then -x else x
  }

  /** Sum from the left, in the order of the source's loops. */
  function Sum(rs: seq<real>): real {
    if rs == [] then 0.0 else Sum(rs[..|rs| - 1]) + rs[|rs| - 1]
  }

  /** Ratios whose shares are non-negative and fill the parent exactly. */
  ghost predicate Fills(rs: seq<real>) {
    NonNegative(rs) && Sum(rs) == 1.0
  }

  /** Ratios that lay out within their parent: non-negative, and no more than the whole. */
  ghost predicate Fits(rs: seq<real>) {
    NonNegative(rs) && Sum(rs) <= 1.0
  }

  function Equal(n: nat): seq<real>
    requires n > 0
  {
    seq(n, i => 1.0 / n as real)
  }

  function Without<T>(s: seq<T>, i: nat): (r: seq<T>)
    requires i < |s|
    ensures |r| == |s| - 1
    ensures forall k :: 0 <= k < |r| ==> r[k] == s[if k < i then k else k + 1]
  {
    s[..i] + s[i + 1..]
  }

  function Times(rs: seq<real>, k: real): (r: seq<real>)
    ensures |r| == |rs| && forall i :: 0 <= i < |rs| ==> r[i] == rs[i] * k
  {
    seq(|rs|, i requires 0 <= i < |rs| => rs[i] * k)
  }

  lemma {:induction false} SumNonNegative(rs: seq<real>)
    requires NonNegative(rs)
    ensures Sum(rs) >= 0.0
    ensures forall i :: 0 <= i < |rs| ==> rs[i] <= Sum(rs)
  {
    if rs != [] {
      SumNonNegative(rs[..|rs| - 1]);
      forall i | 0 <= i < |rs| ensures rs[i] <= Sum(rs) {
        if i < |rs| - 1 { assert rs[i] == rs[..|rs| - 1][i]; }
      }
    }
  }

  lemma {:induction false} SumConcat(a: seq<real>, b: seq<real>)
    ensures Sum(a + b) == Sum(a) + Sum(b)
  {
    if b == [] {
      assert a + b == a;
    } else {
      SumConcat(a, b[..|b| - 1]);
      assert (a + b)[..|a + b| - 1] == a + b[..|b| - 1];
    }
  }

  lemma {:induction false} SumWithout(rs: seq<real>, i: nat)
    requires i < |rs|
    ensures Sum(Without(rs, i)) == Sum(rs) - rs[i]
  {
    hide Sum;
    SumOne(rs[i]);
    SumConcat(rs[..i], [rs[i]]);
    SumConcat(rs[..i] + [rs[i]], rs[i + 1..]);
    SumConcat(rs[..i], rs[i + 1..]);
    assert rs == rs[..i] + [rs[i]] + rs[i + 1..];
  }

  lemma {:induction false} SumOne(r: real)
    ensures Sum([r]) == r
  {
    assert [r][..0] == [];
  }

  lemma {:induction false} SumUpdate(rs: seq<real>, i: nat, r: real)
    requires i < |rs|
    ensures Sum(rs[i := r]) == Sum(rs) - rs[i] + r
  {
    SumWithout(rs, i);
    SumWithout(rs[i := r], i);
    assert Without(rs, i) == Without(rs[i := r], i);
  }

  lemma {:induction false} TimesPrefix(rs: seq<real>, k: real)
    requires rs != []
    ensures var n := |rs| - 1; Times(rs, k)[..n] == Times(rs[..n], k) && Times(rs, k)[n] == rs[n] * k
  {
    var n := |rs| - 1;
    forall i | 0 <= i < n ensures Times(rs, k)[..n][i] == Times(rs[..n], k)[i] { assert rs[..n][i] == rs[i]; }
  }

  lemma {:induction false} SumTimes(rs: seq<real>, k: real)
    ensures Sum(Times(rs, k)) == Sum(rs) * k
  {
    if rs != [] {
      var n := |rs| - 1;
      SumTimes(rs[..n], k);
      TimesPrefix(rs, k);
      Distribute(Sum(rs[..n]), rs[n], k);
    }
  }

  lemma Distribute(a: real, b: real, k: real)
    ensures (a + b) * k == a * k + b * k
  {
  }

  lemma {:induction false} SumConstant(n: nat, r: real)
    ensures Sum(seq(n, i => r)) == n as real * r
  {
    if n > 0 {
      SumConstant(n - 1, r);
      assert seq(n, i => r)[..n - 1] == seq(n - 1, i => r);
    }
  }

  lemma EqualFills(n: nat)
    requires n > 0
    ensures |Equal(n)| == n && Fills(Equal(n)) && Positive(Equal(n))
  {
    SumConstant(n, 1.0 / n as real);
  }

  function Over(a: real, k: real): real
    requires k != 0.0
  {
    a / k
  }

  function Divided(rs: seq<real>, k: real): (r: seq<real>)
    requires k != 0.0
    ensures |r| == |rs| && forall i :: 0 <= i < |rs| ==> r[i] == Over(rs[i], k)
  {
    seq(|rs|, i requires 0 <= i < |rs| => Over(rs[i], k))
  }

  lemma OverSum(a: real, b: real, k: real)
    requires k != 0.0
    ensures Over(a, k) + Over(b, k) == Over(a + b, k) && Over(0.0, k) == 0.0
  {
  }

  lemma {:induction false} SumDivided(rs: seq<real>, k: real)
    requires k != 0.0
    ensures Sum(Divided(rs, k)) == Over(Sum(rs), k)
  {
    hide Over;
    OverSum(0.0, 0.0, k);
    if rs != [] {
      var r := rs[..|rs| - 1];
      SumDivided(r, k);
      var t := Divided(rs, k);
      forall i | 0 <= i < |r| ensures t[i] == Divided(r, k)[i] { assert r[i] == rs[i]; }
      assert t[..|t| - 1] == Divided(r, k);
      OverSum(Sum(r), rs[|r|], k);
    }
  }

  /** The source's renormalisation: divide by the total when it is positive. */
  function Normalised(rs: seq<real>): seq<real> {
    if Sum(rs) > 0.0 then Divided(rs, Sum(rs)) else rs
  }

  lemma FillsFits(rs: seq<real>)
    requires Fills(rs)
    ensures Fits(rs)
  {
  }

  lemma Product(a: real, b: real)
    requires a >= 0.0 && b >= 0.0
    ensures a * b >= 0.0
  {
  }

  lemma Cancel(a: real, b: real, m: real)
    requires m > 0.0 && a * m <= b * m
    ensures a <= b
  {
  }

  lemma CancelStrict(a: real, b: real, m: real)
    requires m > 0.0 && a * m < b * m
    ensures a < b
  {
  }

  lemma OverSelf(k: real)
    requires k > 0.0
    ensures Over(k, k) == 1.0
  {
  }

  lemma DivideBy(a: real, k: real)
    requires k > 0.0
    ensures a / k * k == a && (a >= 0.0 ==> a / k >= 0.0)
  {
  }

  lemma {:induction false} DividedNonNegative(rs: seq<real>, k: real)
    requires NonNegative(rs) && k > 0.0
    ensures NonNegative(Divided(rs, k))
    ensures forall i :: 0 <= i < |rs| ==> Divided(rs, k)[i] * k == rs[i]
  {
    forall i | 0 <= i < |rs| ensures Divided(rs, k)[i] * k == rs[i] && Divided(rs, k)[i] >= 0.0 {
      DivideBy(rs[i], k);
    }
  }

  /** Renormalising fills the parent exactly when the total is positive. */
  lemma {:induction false} NormalisedFills(rs: seq<real>)
    requires NonNegative(rs)
    ensures NonNegative(Normalised(rs)) && |Normalised(rs)| == |rs|
    ensures Fills(Normalised(rs)) <==> Sum(rs) > 0.0
    ensures Sum(rs) > 0.0 ==> forall i :: 0 <= i < |rs| ==> Normalised(rs)[i] * Sum(rs) == rs[i]
  {
    hide Sum, Over;
    SumNonNegative(rs);
    var k := Sum(rs);
    if k > 0.0 {
      DividedNonNegative(rs, k);
      SumDivided(rs, k);
      OverSelf(k);
    }
  }

  /** Dropping a share and renormalising leaves ratios that fit, and fill when any share is left. */
  lemma {:induction false} RestFits(rs: seq<real>, i: nat)
    requires Fits(rs) && i < |rs|
    ensures var left := Without(rs, i); Fits(Normalised(left)) && |Normalised(left)| == |rs| - 1
    ensures Fills(Normalised(Without(rs, i))) <==> Sum(Without(rs, i)) > 0.0
  {
    SumWithout(rs, i);
    SumNonNegative(Without(rs, i));
    NormalisedFills(Without(rs, i));
  }
}
