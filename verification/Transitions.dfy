/**
 * Layout animations (texel/layout_transitions.go): targets of a removal,
 * easing curves, interpolated frames and their early completion.
 */
module Transitions {
  import opened Ratios
  import opened PaneTree

  /** Spring is a function of the progress whose values are not modelled. */
  datatype Easing = Linear | Smoothstep | EaseInOut | Spring(curve: real -> real) | Other

  /** applyEasing (texel/layout_transitions.go:284-306). */
  function Ease(e: Easing, t: real): real {
    match e
    case Linear => t
    case Smoothstep => Smooth(t)
    case EaseInOut => if t < 0.5 then Bowl(t) else 1.0 - Bowl(1.0 - t)
    case Spring(curve) => curve(t)
    case Other => Smooth(t)
  }

  function Smooth(t: real): real { t * t * (3.0 - 2.0 * t) }

  function Bowl(t: real): real { 2.0 * t * t }

  function Mix(a: real, b: real, k: real): real {
    a + (b - a) * k
  }

  /** A frame between start and target at eased progress k. */
  function Frame(start: seq<real>, target: seq<real>, k: real): (r: seq<real>)
    requires |start| == |target|
    ensures |r| == |start| && forall i :: 0 <= i < |r| ==> r[i] == Mix(start[i], target[i], k)
  {
    seq(|start|, i requires 0 <= i < |start| => Mix(start[i], target[i], k))
  }

  // ------------------------------------------------------------ frames' sums

  lemma {:induction false} SumOfMix(start: seq<real>, target: seq<real>, f: seq<real>, k: real)
    requires |start| == |target| == |f|
    requires forall i :: 0 <= i < |f| ==> f[i] == Mix(start[i], target[i], k)
    ensures Sum(f) == Mix(Sum(start), Sum(target), k)
  {
    hide Mix;
    MixSum(0.0, 0.0, 0.0, 0.0, k);
    if start != [] {
      var n := |start| - 1;
      SumOfMix(start[..n], target[..n], f[..n], k);
      MixSum(Sum(start[..n]), start[n], Sum(target[..n]), target[n], k);
    }
  }

  /** Every frame, for any easing, keeps the sum both ends have. */
  lemma {:induction false} FrameSum(start: seq<real>, target: seq<real>, k: real)
    requires |start| == |target|
    ensures Sum(Frame(start, target, k)) == Mix(Sum(start), Sum(target), k)
  {
    SumOfMix(start, target, Frame(start, target, k), k);
  }

  lemma MixSum(a: real, b: real, c: real, d: real, k: real)
    ensures Mix(a, c, k) + Mix(b, d, k) == Mix(a + b, c + d, k) && Mix(0.0, 0.0, k) == 0.0
  {
  }

  lemma Between(a: real, b: real, k: real)
    requires a >= 0.0 && b >= 0.0 && 0.0 <= k <= 1.0
    ensures Mix(a, b, k) >= 0.0
  {
    assert a + (b - a) * k == a * (1.0 - k) + b * k;
    Product(a, 1.0 - k);
    Product(b, k);
  }

  /** A frame at eased progress within [0, 1] fills its group. */
  lemma {:induction false} FrameFills(start: seq<real>, target: seq<real>, k: real)
    requires |start| == |target| && Fills(start) && Fills(target) && 0.0 <= k <= 1.0
    ensures Fills(Frame(start, target, k))
  {
    FrameSum(start, target, k);
    forall i | 0 <= i < |start| ensures Frame(start, target, k)[i] >= 0.0 {
      Between(start[i], target[i], k);
    }
  }

  // ------------------------------------------------------------------ easing

  /** The polynomial curves start at 0, end at 1 and never fall in between. */
  lemma {:induction false} EaseMonotone(e: Easing, s: real, t: real)
    requires !e.Spring? && 0.0 <= s <= t <= 1.0
    ensures 0.0 <= Ease(e, s) <= Ease(e, t) <= 1.0
    ensures Ease(e, 0.0) == 0.0 && Ease(e, 1.0) == 1.0
  {
    hide Smooth, Bowl;
    SmoothMonotone(0.0, s);
    SmoothMonotone(s, t);
    SmoothMonotone(t, 1.0);
    BowlMonotone(0.0, s);
    BowlMonotone(0.0, 1.0 - t);
    if t < 0.5 {
      BowlMonotone(s, t);
      BowlMonotone(t, 0.5);
    } else if s < 0.5 {
      BowlMonotone(s, 0.5);
      BowlMonotone(1.0 - t, 0.5);
    } else {
      BowlMonotone(1.0 - t, 1.0 - s);
      BowlMonotone(1.0 - s, 0.5);
    }
  }

  lemma BowlMonotone(a: real, b: real)
    requires 0.0 <= a <= b
    ensures 0.0 <= Bowl(a) <= Bowl(b) && Bowl(0.0) == 0.0 && Bowl(0.5) == 0.5
  {
    SquareMonotone(a, b);
    assert Bowl(a) == 2.0 * (a * a) && Bowl(b) == 2.0 * (b * b);
  }

  lemma SquareMonotone(a: real, b: real)
    requires 0.0 <= a <= b
    ensures 0.0 <= a * a <= b * b
  {
    Product(a, a);
    Product(b - a, b + a);
    assert (b - a) * (b + a) == b * b - a * a;
  }

  lemma SmoothMonotone(s: real, t: real)
    requires 0.0 <= s <= t <= 1.0
    ensures Smooth(s) <= Smooth(t) && Smooth(0.0) == 0.0 && Smooth(1.0) == 1.0
  {
    var a, b, c := s * s, t * t, s * t;
    var d := t - s;
    var e := 3.0 * (t + s) - 2.0 * (b + c + a);
    assert d * e == t * t * (3.0 - 2.0 * t) - s * s * (3.0 - 2.0 * s) by {
      Cube(s, t);
    }
    assert e >= 0.0 by {
      SquareMonotone(t, 1.0);
      Product(t, 1.0 - t);
      Product(s, 1.0 - s);
      Product(t, 1.0 - s);
      Product(s, 1.0 - t);
      assert t * (1.0 - t) == t - b && s * (1.0 - s) == s - a;
      assert t * (1.0 - s) == t - c && s * (1.0 - t) == s - c;
      assert e == 2.0 * (t - b) + 2.0 * (s - a) + (t - c) + (s - c);
    }
    Product(d, e);
  }

  lemma Cube(s: real, t: real)
    ensures (t - s) * (3.0 * (t + s) - 2.0 * (t * t + s * t + s * s))
         == t * t * (3.0 - 2.0 * t) - s * s * (3.0 - 2.0 * s)
  {
    assert (t - s) * (t + s) == t * t - s * s;
    assert (t - s) * (t * t + s * t + s * s) == t * t * t - s * s * s;
  }

  /** The three polynomial curves are symmetric about the half, and the smoother is slower to start. */
  lemma {:induction false} EaseShapes(t: real)
    ensures Ease(Linear, t) == t && Ease(Other, t) == Ease(Smoothstep, t)
    ensures Ease(Smoothstep, t) + Ease(Smoothstep, 1.0 - t) == 1.0
    ensures t != 0.5 ==> Ease(EaseInOut, t) + Ease(EaseInOut, 1.0 - t) == 1.0
    ensures 0.0 < t < 0.5 ==> 0.0 < Ease(EaseInOut, t) < Ease(Smoothstep, t) < t
    ensures Ease(EaseInOut, 0.25) == 0.125 && Ease(Smoothstep, 0.25) == 0.15625
  {
    var u, a := 1.0 - t, t * t;
    assert t * u == t - a && u * u == 1.0 - 2.0 * t + a;
    assert Smooth(t) == 3.0 * a - 2.0 * (a * t);
    assert Smooth(u) == 3.0 * (u * u) - 2.0 * (u * u * u);
    assert u * u * u == (1.0 - 2.0 * t + a) * (1.0 - t) == 1.0 - 3.0 * t + 3.0 * a - a * t;
    if 0.0 < t < 0.5 { SlowStart(t); }
  }

  lemma SlowStart(t: real)
    requires 0.0 < t < 0.5
    ensures 0.0 < Bowl(t) < Smooth(t) < t
  {
    var half := 1.0 - 2.0 * t;
    Positives(t, half);
    Positives(t, t * half);
    Positives(t, 1.0 - t);
    Positives(t * (1.0 - t), 1.0 - 2.0 * t);
    assert Smooth(t) - Bowl(t) == t * (t * half);
    assert t - Smooth(t) == t * (1.0 - t) * (1.0 - 2.0 * t);
    Positives(t, 2.0 * t);
    assert Bowl(t) == t * (2.0 * t);
  }

  lemma Positives(a: real, b: real)
    requires a > 0.0 && b > 0.0
    ensures a * b > 0.0
  {
  }

  /** A frame of one of the polynomial curves at progress t fills its group. */
  lemma {:induction false} CurveFrameFills(e: Easing, start: seq<real>, target: seq<real>, t: real)
    requires !e.Spring? && 0.0 <= t <= 1.0 && |start| == |target| && Fills(start) && Fills(target)
    ensures Fills(Frame(start, target, Ease(e, t)))
  {
    EaseMonotone(e, t, t);
    FrameFills(start, target, Ease(e, t));
  }

  // ----------------------------------------------------------------- targets

  /** The targets of AnimateRemoval (texel/layout_transitions.go:155-169). */
  method RemovalTargets(n: nat, closingIndex: nat) returns (targets: seq<real>)
    requires closingIndex < n
    ensures |targets| == n && Fills(targets) && Positive(targets)
    ensures n == 1 ==> targets == [1.0]
    ensures n > 1 ==> targets[closingIndex] == 0.001
    ensures forall i :: 0 <= i < n && i != closingIndex ==> targets[i] == 0.999 / (n - 1) as real
  {
    targets := seq(n, i => 0.0);
    var remaining := 0.999;
    var numOthers := n - 1;
    if numOthers > 0 {
      var share := remaining / numOthers as real;
      for i := 0 to n
        invariant |targets| == n
        invariant forall j :: 0 <= j < i ==> targets[j] == if j == closingIndex then 0.001 else share
      {
        targets := targets[i := if i == closingIndex then 0.001 else remaining / numOthers as real];
      }
      TargetSum(targets, closingIndex, share);
    } else {
      targets := targets[closingIndex := 1.0];
      assert targets == [1.0] && [1.0][..0] == [];
    }
  }

  lemma {:induction false} TargetSum(targets: seq<real>, closing: nat, share: real)
    requires closing < |targets| && |targets| >= 2 && share == 0.999 / (|targets| - 1) as real
    requires forall j :: 0 <= j < |targets| ==> targets[j] == if j == closing then 0.001 else share
    ensures Sum(targets) == 1.0
  {
    var n := |targets| - 1;
    SumConstant(n + 1, share);
    var all := seq(n + 1, i => share);
    SumUpdate(all, closing, 0.001);
    assert targets == all[closing := 0.001];
    DivideBy(0.999, n as real);
    assert (n + 1) as real * share == n as real * share + share;
  }

  /** What an animated split starts from: one hundredth for the new pane, the rest shared equally. */
  function SplitInitial(n: nat): (r: seq<real>)
    requires n >= 2
    ensures |r| == n && forall i :: 0 <= i < n ==> r[i] == if i == n - 1 then 0.01 else Over(0.99, (n - 1) as real)
  {
    seq(n, i => if i == n - 1 then 0.01 else Over(0.99, (n - 1) as real))
  }

  lemma {:induction false} SplitInitialFills(n: nat)
    requires n >= 2
    ensures Fills(SplitInitial(n)) && Positive(SplitInitial(n))
  {
    var rs, share := SplitInitial(n), Over(0.99, (n - 1) as real);
    DivideBy(0.99, (n - 1) as real);
    assert rs[..n - 1] == seq(n - 1, i => share);
    SumConstant(n - 1, share);
    assert (n - 1) as real * share == 0.99;
  }

  /** The initial ratios of an animated split (texel/workspace_layout.go:446-460). */
  method SplitStart(n: nat, joins: bool) returns (initial: seq<real>)
    requires n >= 2 && (!joins ==> n == 2)
    ensures initial == SplitInitial(n) && Fills(initial) && Positive(initial)
  {
    SplitInitialFills(n);
    if joins {
      var remaining := 0.99;
      initial := seq(n, i => 0.0);
      for i := 0 to n - 1
        invariant |initial| == n
        invariant forall j :: 0 <= j < i ==> initial[j] == SplitInitial(n)[j]
      {
        initial := initial[i := remaining / (n - 1) as real];
      }
      initial := initial[n - 1 := 0.01];
    } else {
      initial := [0.99, 0.01];
    }
    assert initial == SplitInitial(n);
  }

  // ------------------------------------------------------------ the manager

  /** A ratio animation of one node; removes is set when a callback finishes it. */
  datatype Transition = Transition(start: seq<real>, target: seq<real>, startTime: int, duration: int,
                                   easing: Easing, removes: bool)

  datatype Shot = Shot(node: Node, ratios: seq<real>, done: bool)

  ghost predicate Sane(s: Transition) {
    |s.start| == |s.target| && s.duration > 0
  }

  /** Both ends fill the group. */
  ghost predicate Full(s: Transition) {
    Fills(s.start) && Fills(s.target)
  }

  function Progress(s: Transition, now: int): real
    requires s.duration > 0
  {
    (now - s.startTime) as real / s.duration as real
  }

  /** A removal ends early once its closing child is thin enough. */
  predicate Thin(s: Transition, ratios: seq<real>, i: int)
    requires |ratios| == |s.target|
  {
    0 <= i < |ratios| && s.target[i] < 0.01 && ratios[i] < 0.005
  }

  /** The frame one tick sends for an animation. */
  ghost function Tick(s: Transition, now: int): (seq<real>, bool)
    requires |s.start| == |s.target| && s.duration > 0
  {
    if Progress(s, now) >= 1.0 then (s.target, true)
    else
      var f := Frame(s.start, s.target, Ease(s.easing, Progress(s, now)));
      if s.removes && exists i :: Thin(s, f, i) then (s.target, true) else (f, false)
  }

  /** A frame between ratios that fit fits, at eased progress within [0, 1]. */
  lemma {:induction false} FrameFits(start: seq<real>, target: seq<real>, k: real)
    requires |start| == |target| && Fits(start) && Fits(target) && 0.0 <= k <= 1.0
    ensures Fits(Frame(start, target, k))
  {
    FrameSum(start, target, k);
    var a, b := Sum(start), Sum(target);
    Product(1.0 - a, 1.0 - k);
    Product(1.0 - b, k);
    assert 1.0 - (a + (b - a) * k) == (1.0 - a) * (1.0 - k) + (1.0 - b) * k;
    forall i | 0 <= i < |start| ensures Frame(start, target, k)[i] >= 0.0 { Between(start[i], target[i], k); }
  }

  /** Where ratio i is on its way, by the eased part of the time gone. */
  function Way(s: Transition, now: int, i: nat): real
    requires Sane(s) && i < |s.start|
  {
    s.start[i] + (s.target[i] - s.start[i]) * Ease(s.easing, (now - s.startTime) as real / s.duration as real)
  }

  /**
   * A tick ends the animation exactly when its time is up, or when a callback
   * waits and some child with a target below 0.01 has come below 0.005; else each
   * ratio has gone the eased part of its way.
   */
  lemma {:induction false} TickExactly(s: Transition, now: int)
    requires Sane(s)
    ensures var (ratios, done) := Tick(s, now);
      && (done <==>
            || now - s.startTime >= s.duration
            || (s.removes && exists i :: 0 <= i < |s.start| && s.target[i] < 0.01 && Way(s, now, i) < 0.005))
      && (done ==> ratios == s.target)
      && (!done ==> |ratios| == |s.start| && forall i :: 0 <= i < |s.start| ==> ratios[i] == Way(s, now, i))
  {
    hide Ease;
    TimeIsUp(now - s.startTime, s.duration);
    var f := Frame(s.start, s.target, Ease(s.easing, Progress(s, now)));
    assert forall i :: 0 <= i < |s.start| ==> f[i] == Way(s, now, i);
    if exists i :: 0 <= i < |s.start| && s.target[i] < 0.01 && f[i] < 0.005 {
      var i :| 0 <= i < |s.start| && s.target[i] < 0.01 && f[i] < 0.005;
      assert Thin(s, f, i);
    }
  }

  lemma TimeIsUp(elapsed: int, duration: int)
    requires duration > 0
    ensures elapsed as real / duration as real >= 1.0 <==> elapsed >= duration
  {
    var e, d := elapsed as real, duration as real;
    DivideBy(e, d);
    SignOf(e / d - 1.0, d);
    assert (e / d - 1.0) * d == e - d;
  }

  /**
   * A tick sends the target or a blend of both totals; it keeps a total both
   * ends share; and under a polynomial curve what it sends fits its group.
   */
  lemma {:induction false} TickFills(s: Transition, now: int)
    requires Sane(s) && Fits(s.start) && Fits(s.target)
    ensures var (ratios, done) := Tick(s, now);
      && |ratios| == |s.start|
      && (done ==> ratios == s.target)
      && (Full(s) ==> Sum(ratios) == 1.0)
      && (!s.easing.Spring? && now >= s.startTime ==> Fits(ratios))
  {
    var t := Progress(s, now);
    FrameSum(s.start, s.target, Ease(s.easing, t));
    if t < 1.0 && !s.easing.Spring? && now >= s.startTime {
      Quotient((now - s.startTime) as real, s.duration as real);
      EaseMonotone(s.easing, t, t);
      FrameFits(s.start, s.target, Ease(s.easing, t));
    }
  }

  // -------------------------------------------------------------- overshooting

  /**
   * A removal's frames fit their group, however far the curve overshoots short
   * of fourfold: past the target the closing pane is thin, and the animation
   * has ended.
   */
  lemma {:induction false} RemovalOvershootFills(s: Transition, now: int, c: nat)
    requires Sane(s) && Fits(s.start) && Fits(s.target) && s.removes && c < |s.target| && s.target[c] == 0.001
    requires Progress(s, now) < 1.0 ==> 0.0 <= Ease(s.easing, Progress(s, now)) <= 4.0
    ensures Fits(Tick(s, now).0) && (Full(s) ==> Fills(Tick(s, now).0))
  {
    TickFills(s, now);
    if Progress(s, now) < 1.0 {
      var k := Ease(s.easing, Progress(s, now));
      var f := Frame(s.start, s.target, k);
      if k > 1.0 {
        PastTarget(s.start[c], 0.001, k);
        assert Thin(s, f, c);
      } else {
        FrameFits(s.start, s.target, k);
      }
    }
  }

  lemma PastTarget(a: real, b: real, k: real)
    requires a >= 0.0 && k >= 1.0
    ensures Mix(a, b, k) <= b * k
  {
    Product(a, k - 1.0);
    assert Mix(a, b, k) == b * k - a * (k - 1.0);
  }

  /** A ratio that is non-negative at eased progress 0 and m is so in between. */
  lemma MixLine(a: real, b: real, k: real, m: real)
    requires a >= 0.0 && 0.0 <= k <= m && Mix(a, b, m) >= 0.0
    ensures Mix(a, b, k) >= 0.0
  {
    if b >= a {
      Product(b - a, k);
    } else {
      Product(a - b, m - k);
      assert (a - b) * (m - k) == (b - a) * k - (b - a) * m;
    }
  }

  lemma SignOf(a: real, b: real)
    requires b > 0.0
    ensures a * b >= 0.0 <==> a >= 0.0
  {
  }

  /** What keeps an animated split to n panes from negative shares at eased
      progress k: the first bound is the new pane's, the second that of the others. */
  predicate SplitBears(n: nat, k: real) {
    (n as real - 100.0) * k <= n as real && (100.0 - n as real) * k <= 99.0 * n as real
  }

  /** The new pane's share over the frames. */
  lemma LastShare(b: real, x: real, k: real)
    requires x >= 2.0 && b * x == 1.0
    ensures Mix(0.01, b, k) >= 0.0 <==> (x - 100.0) * k <= x
  {
    assert Mix(0.01, b, k) * (100.0 * x) == x + (100.0 * (b * x) - x) * k;
    assert (100.0 - x) * k == -((x - 100.0) * k);
    SignOf(Mix(0.01, b, k), 100.0 * x);
  }

  /** The share of each of the others. */
  lemma OtherShare(a: real, b: real, x: real, k: real)
    requires x >= 2.0 && a * (x - 1.0) == 0.99 && b * x == 1.0
    ensures Mix(a, b, k) >= 0.0 <==> (100.0 - x) * k <= 99.0 * x
  {
    var y := x - 1.0;
    assert b * y == 1.0 - b;
    assert Mix(a, b, k) * y == 0.99 + (b * y - 0.99) * k;
    assert (b * y - 0.99) * x == 0.01 * x - 1.0;
    assert Mix(a, b, k) * y * x == 0.99 * x + ((b * y - 0.99) * x) * k;
    assert (100.0 - x) * k == -((x - 100.0) * k);
    SignOf(Mix(a, b, k), y);
    SignOf(Mix(a, b, k) * y, x);
  }

  /** A frame of an animated split has no negative share exactly when the split bears its eased progress. */
  lemma {:induction false} SplitFrameExactly(n: nat, k: real)
    requires n >= 2
    ensures NonNegative(Frame(SplitInitial(n), Equal(n), k)) <==> SplitBears(n, k)
  {
    hide Mix;
    var a, b, x := Over(0.99, (n - 1) as real), 1.0 / n as real, n as real;
    var f := Frame(SplitInitial(n), Equal(n), k);
    DivideBy(0.99, x - 1.0);
    DivideBy(1.0, x);
    LastShare(b, x, k);
    OtherShare(a, b, x, k);
    assert f[n - 1] == Mix(0.01, b, k) && f[0] == Mix(a, b, k);
    assert forall i :: 0 <= i < n - 1 ==> f[i] == Mix(a, b, k);
  }

  /** So under a curve that climbs from 0 to a peak m, no frame does exactly when the split bears the peak. */
  lemma {:induction false} SplitOvershootExactly(n: nat, m: real)
    requires n >= 2 && m >= 0.0
    ensures (forall k :: 0.0 <= k <= m ==> NonNegative(Frame(SplitInitial(n), Equal(n), k))) <==> SplitBears(n, m)
  {
    hide Mix, SplitBears;
    var start, target := SplitInitial(n), Equal(n);
    SplitFrameExactly(n, m);
    SplitInitialFills(n);
    if SplitBears(n, m) {
      forall k | 0.0 <= k <= m ensures NonNegative(Frame(start, target, k)) {
        forall i | 0 <= i < n ensures Frame(start, target, k)[i] >= 0.0 {
          assert Frame(start, target, m)[i] >= 0.0;
          MixLine(start[i], target[i], k, m);
        }
      }
    }
  }

  /** A tick of an animated split fills its group exactly when it ends the animation or the split bears it. */
  lemma {:induction false} SplitTickExactly(s: Transition, now: int, n: nat)
    requires n >= 2 && s.start == SplitInitial(n) && s.target == Equal(n) && Sane(s)
    ensures Fills(Tick(s, now).0) <==> Tick(s, now).1 || SplitBears(n, Ease(s.easing, Progress(s, now)))
  {
    hide Sum, Ease, SplitBears;
    SplitInitialFills(n);
    EqualFills(n);
    var k := Ease(s.easing, Progress(s, now));
    SplitFrameExactly(n, k);
    FrameSum(s.start, s.target, k);
  }

  /** In particular every tick fills the group when the split bears the curve's peak, spring or not. */
  lemma {:induction false} SplitOvershootFills(s: Transition, now: int, n: nat, m: real)
    requires n >= 2 && s.start == SplitInitial(n) && s.target == Equal(n) && Sane(s)
    requires SplitBears(n, m) && (Progress(s, now) < 1.0 ==> 0.0 <= Ease(s.easing, Progress(s, now)) <= m)
    ensures Fills(Tick(s, now).0)
  {
    hide Sum, Ease, SplitBears;
    SplitTickExactly(s, now, n);
    if Progress(s, now) < 1.0 {
      var k := Ease(s.easing, Progress(s, now));
      SplitOvershootExactly(n, m);
      SplitFrameExactly(n, k);
    }
  }

  /**
   * The spring curve is 1 - exp(-5t)cos(5*pi*t). At a fifth of the duration its
   * cosine is -1 and its value 1 + 1/e, which sends a negative share exactly
   * when the split is to more than 100(e + 1) panes.
   */
  lemma {:induction false} SpringTickExactly(s: Transition, now: int, n: nat, e: real)
    requires n >= 2 && s.start == SplitInitial(n) && s.target == Equal(n) && Sane(s) && !s.removes
    requires s.easing.Spring? && Progress(s, now) == 0.2 && e >= 2.0 && s.easing.curve(0.2) == 1.0 + 1.0 / e
    ensures NonNegative(Tick(s, now).0) <==> n as real <= 100.0 * (e + 1.0)
  {
    hide Fits, SplitBears, NonNegative;
    SplitFrameExactly(n, 1.0 + 1.0 / e);
    AtFifth(n, e);
  }

  lemma AtFifth(n: nat, e: real)
    requires n >= 2 && e >= 2.0
    ensures SplitBears(n, 1.0 + 1.0 / e) <==> n as real <= 100.0 * (e + 1.0)
  {
    var x, k := n as real, 1.0 + 1.0 / e;
    DivideBy(1.0, e);
    assert k * e == e + 1.0;
    SignOf(x - (x - 100.0) * k, e);
    assert (x - (x - 100.0) * k) * e == x * e - (x - 100.0) * (k * e) == 100.0 * (e + 1.0) - x;
    Reciprocal(e);
    Product(x - 2.0, k);
    assert (100.0 - x) * k <= 98.0 * k;
  }

  lemma Reciprocal(e: real)
    requires e >= 2.0
    ensures 0.0 < 1.0 / e <= 0.5
  {
  }

  lemma Quotient(a: real, b: real)
    requires a >= 0.0 && b > 0.0
    ensures a / b >= 0.0
  {
  }

  /** shot is the frame its node's animation sends at this time. */
  ghost predicate Sends(animating: map<Node, Transition>, now: int, shot: Shot) {
    shot.node in animating && var s := animating[shot.node];
    |s.start| == |s.target| && s.duration > 0 && (shot.ratios, shot.done) == Tick(s, now)
  }

  ghost predicate Finished(animating: map<Node, Transition>, now: int, n: Node) {
    n in animating && var s := animating[n];
    |s.start| == |s.target| && s.duration > 0 && Tick(s, now).1
  }

  ghost function Unfinished(animating: map<Node, Transition>, now: int): map<Node, Transition> {
    map n | n in animating && !Finished(animating, now, n) :: animating[n]
  }

  lemma RestIsUnfinished(animating: map<Node, Transition>, now: int, completed: set<Node>)
    requires forall n | n in completed :: Finished(animating, now, n)
    requires forall n | n in animating && n !in completed :: !Finished(animating, now, n)
    ensures animating - completed == Unfinished(animating, now)
    ensures forall n | n in animating - completed :: n in animating && (animating - completed)[n] == animating[n]
  {
  }

  /** The nodes that got a frame. */
  ghost function Served(shots: seq<Shot>): set<Node> {
    set k | 0 <= k < |shots| :: shots[k].node
  }

  lemma SendsFrame(animating: map<Node, Transition>, now: int, node: Node, ratios: seq<real>, done: bool)
    requires node in animating && Sane(animating[node]) && (ratios, done) == Tick(animating[node], now)
    ensures Sends(animating, now, Shot(node, ratios, done)) && (Finished(animating, now, node) <==> done)
  {
  }

  lemma ServedNone()
    ensures Served([]) == {}
  {
  }

  lemma SaneFacts(s: Transition)
    requires Sane(s)
    ensures |s.start| == |s.target| && s.duration > 0
  {
  }

  lemma ServedNext(shots: seq<Shot>, shot: Shot)
    ensures Served(shots + [shot]) == Served(shots) + {shot.node}
  {
    var all := shots + [shot];
    assert all[|shots|] == shot;
    forall n | n in Served(shots) ensures n in Served(all) {
      var k :| 0 <= k < |shots| && shots[k].node == n;
      assert all[k] == shots[k];
    }
  }

  class LayoutTransitionManager {
    var animating: map<Node, Transition>

    constructor ()
      ensures animating == map[]
    {
      animating := map[];
    }

    ghost predicate Valid()
      reads this
    {
      forall n | n in animating :: Sane(animating[n])
    }

    /** animateSplitWithCallback once animations are on (texel/layout_transitions.go:199-216). */
    method Animate(node: Node, target: seq<real>, now: int, duration: int, easing: Easing, removes: bool)
      requires Valid() && |target| == |node.ratios| && duration > 0
      modifies this
      ensures Valid()
      ensures animating == old(animating)[node := Transition(node.ratios, target, now, duration, easing, removes)]
    {
      animating := animating[node := Transition(node.ratios, target, now, duration, easing, removes)];
    }

    /** updateAnimations (texel/layout_transitions.go:222-281): one frame per animated
        node, in any order; finished animations are forgotten. */
    method UpdateAnimations(now: int) returns (shots: seq<Shot>)
      requires Valid()
      modifies this
      ensures Valid()
      ensures forall k :: 0 <= k < |shots| ==> Sends(old(animating), now, shots[k])
      ensures Served(shots) == old(animating).Keys && |shots| == |old(animating)|
      ensures animating == Unfinished(old(animating), now)
    {
      hide Tick, Served, Sane, Frame, Ease, Unfinished, Finished, Sends;
      shots := [];
      ServedNone();
      var completed: set<Node> := {};
      var todo := animating.Keys;
      while todo != {}
        invariant Valid() && animating == old(animating) && todo <= animating.Keys
        invariant |shots| + |todo| == |animating.Keys| && Served(shots) == animating.Keys - todo
        invariant forall k :: 0 <= k < |shots| ==> Sends(animating, now, shots[k])
        invariant forall n | n in completed :: Finished(animating, now, n) && n !in todo
        invariant forall n | n in animating && n !in todo && n !in completed :: !Finished(animating, now, n)
        decreases |todo|
      {
        var node :| node in todo;
        var state := animating[node];
        SaneFacts(state);
        var ratios, done := NextFrame(state, now);
        SendsFrame(animating, now, node, ratios, done);
        if done { completed := completed + {node}; }
        ServedNext(shots, Shot(node, ratios, done));
        shots := shots + [Shot(node, ratios, done)];
        todo := todo - {node};
      }
      RestIsUnfinished(animating, now, completed);
      animating := animating - completed;
    }

    /** The body of the loop: interpolate, or finish. */
    method NextFrame(state: Transition, now: int) returns (ratios: seq<real>, done: bool)
      requires Sane(state)
      ensures (ratios, done) == Tick(state, now)
    {
      hide Mix, Ease;
      var progress := (now - state.startTime) as real / state.duration as real;
      if progress >= 1.0 { return state.target, true; }
      var t := Ease(state.easing, progress);
      ratios := seq(|state.start|, i => 0.0);
      for i := 0 to |ratios|
        invariant |ratios| == |state.start|
        invariant forall j :: 0 <= j < i ==> ratios[j] == Frame(state.start, state.target, t)[j]
      {
        ratios := ratios[i := Mix(state.start[i], state.target[i], t)];
      }
      assert ratios == Frame(state.start, state.target, t);
      done := false;
      if state.removes {
        for i := 0 to |ratios|
          invariant forall j :: 0 <= j < i ==> !Thin(state, ratios, j)
        {
          if state.target[i] < 0.01 && ratios[i] < 0.005 {
            assert Thin(state, ratios, i);
            return state.target, true;
          }
        }
      }
    }
  }
}
