/**
 * Layout animations carried through the workspace's state machine: the frames
 * of successive ticks, the splits they follow and the removals they precede.
 */
module Animations {
  import opened Ratios
  import opened PaneTree
  import opened Edits
  import opened TreeHeap
  import opened Runs
  import opened SplitGuard
  import opened Transitions

  /** The ratios sent by ticks at these times, up to the one that ends the animation. */
  ghost function Sent(a: Transition, times: seq<int>): seq<seq<real>>
    requires Sane(a)
  {
    if times == [] then []
    else
      var (ratios, done) := Tick(a, times[0]);
      [ratios] + if done then [] else Sent(a, times[1..])
  }

  /** One of the ticks ends the animation. */
  ghost predicate Ends(a: Transition, times: seq<int>)
    requires Sane(a)
  {
    times != [] && (Tick(a, times[0]).1 || Ends(a, times[1..]))
  }

  /** These ratios applied to the group at q, one after the other (texel/desktop_engine_core.go:1225-1231). */
  function Frames(q: Path, rss: seq<seq<real>>): (ops: seq<Op>)
    ensures |ops| == |rss| && forall i :: 0 <= i < |ops| ==> ops[i] == FrameOp(q, rss[i])
  {
    seq(|rss|, i requires 0 <= i < |rss| => FrameOp(q, rss[i]))
  }

  ghost predicate AllSuit(t: Shape, q: Path, rss: seq<seq<real>>) {
    forall i :: 0 <= i < |rss| ==> Suits(t, q, rss[i])
  }

  /** The state with other ratios at q. */
  function Reshared(s: State, q: Path, rs: seq<real>): State
    requires HasPath(s.view.tree, q) && At(s.view.tree, q).Branch?
  {
    s.(view := View(SetRatios(s.view.tree, q, rs), s.view.focus))
  }

  // ------------------------------------------------------------------- frames

  /** Frames of one group are legal, and leave the last of them. */
  lemma {:induction false} FramesRun(s: State, q: Path, rss: seq<seq<real>>)
    requires Inv(s) && AllSuit(s.view.tree, q, rss)
    ensures Legal(s, Frames(q, rss))
    ensures rss == [] ==> Run(s, Frames(q, rss)) == s
    ensures rss != [] ==>
      && HasPath(s.view.tree, q) && At(s.view.tree, q).Branch?
      && Run(s, Frames(q, rss)) == Reshared(s, q, rss[|rss| - 1])
    decreases |rss|
  {
    hide Inv, HasPath, At, Fits, SetRatios;
    if rss != [] {
      var op := FrameOp(q, rss[0]);
      var s' := Reshared(s, q, rss[0]);
      assert Suits(s.view.tree, q, rss[0]);
      StepKeeps(s, op);
      forall i | 0 <= i < |rss| ensures Suits(s'.view.tree, q, rss[i]) {
        assert Suits(s.view.tree, q, rss[i]);
        SetTwice(s.view.tree, q, rss[0], rss[i]);
      }
      FramesRun(s', q, rss[1..]);
      RunFirst(s, op, Frames(q, rss[1..]));
      assert Frames(q, rss) == [op] + Frames(q, rss[1..]);
      SetTwice(s.view.tree, q, rss[0], rss[|rss| - 1]);
    } else {
      RunNone(s);
    }
  }

  lemma {:induction false} SentLast(a: Transition, times: seq<int>)
    requires Sane(a)
    ensures times != [] ==> Sent(a, times) != []
    ensures Ends(a, times) ==> var r := Sent(a, times); r != [] && r[|r| - 1] == a.target
  {
    if times != [] && !Tick(a, times[0]).1 { SentLast(a, times[1..]); }
  }

  /**
   * The frames successive ticks send for a group are a legal run, the area is
   * tiled after each of them, nothing but the group's ratios changes, and an
   * animation that ends leaves its target.
   */
  lemma {:induction false} AnimationRuns(s: State, q: Path, a: Transition, times: seq<int>)
    requires Inv(s) && Sane(a) && AllSuit(s.view.tree, q, Sent(a, times))
    ensures TiledThroughout(s, Frames(q, Sent(a, times)))
    ensures Ends(a, times) ==>
      && Suits(s.view.tree, q, a.target)
      && Run(s, Frames(q, Sent(a, times))) == Reshared(s, q, a.target)
  {
    hide Inv, Legal, Run, TiledAfter, Tick, Suits;
    var rss := Sent(a, times);
    FramesRun(s, q, rss);
    RunsTile(s, Frames(q, rss));
    SentLast(a, times);
  }

  // ---------------------------------------------------- which animations suit

  /**
   * Ticks whose ratios fit: the last one, any under a polynomial curve, those of
   * a removal under a curve below fourfold, and those of a split that bears them.
   */
  ghost predicate Tame(a: Transition, now: int)
    requires Sane(a)
  {
    var k := Ease(a.easing, Progress(a, now));
    || Progress(a, now) >= 1.0
    || (!a.easing.Spring? && now >= a.startTime)
    || (0.0 <= k <= 4.0 && a.removes && 0.001 in a.target)
    || (exists n: nat | n >= 2 :: a.start == SplitInitial(n) && a.target == Equal(n) && SplitBears(n, k))
  }

  lemma {:induction false} TameFits(a: Transition, now: int)
    requires Sane(a) && Fits(a.start) && Fits(a.target) && Tame(a, now)
    ensures Fits(Tick(a, now).0)
  {
    hide Ease, SplitBears, Fits;
    var k := Ease(a.easing, Progress(a, now));
    TickFills(a, now);
    if Progress(a, now) >= 1.0 || (!a.easing.Spring? && now >= a.startTime) {
    } else if 0.0 <= k <= 4.0 && a.removes && 0.001 in a.target {
      var c :| 0 <= c < |a.target| && a.target[c] == 0.001;
      RemovalOvershootFills(a, now, c);
    } else {
      var n: nat :| n >= 2 && a.start == SplitInitial(n) && a.target == Equal(n) && SplitBears(n, k);
      SplitTickExactly(a, now, n);
      FillsFits(Tick(a, now).0);
    }
  }

  /** All frames of an animation with such ticks suit its group. */
  lemma {:induction false} TameSuits(t: Shape, q: Path, a: Transition, times: seq<int>)
    requires Sane(a) && Fits(a.start) && Fits(a.target)
    requires HasPath(t, q) && At(t, q).Branch? && |a.target| == |At(t, q).kids|
    requires forall i :: 0 <= i < |times| ==> Tame(a, times[i])
    ensures AllSuit(t, q, Sent(a, times))
    decreases |times|
  {
    hide HasPath, At, Tame, Fits;
    if times != [] {
      TameFits(a, times[0]);
      TickFills(a, times[0]);
      TameSuits(t, q, a, times[1..]);
    }
  }

  // ------------------------------------------------------------------- splits

  /**
   * PerformSplit with its animation: the split, the initial ratios, the frames.
   * An animation that ends leaves exactly what the split alone does.
   */
  lemma {:induction false} AnimatedSplit(s: State, op: Op, a: Transition, times: seq<int>)
    requires Inv(s) && op.SplitOp? && Enabled(s, op) && Sane(a)
    requires var n := if Joins(s.view.tree, s.view.focus, op.dir) then |At(s.view.tree, Init(s.view.focus)).kids| + 1
                      else 2;
      n >= 2 && a.start == SplitInitial(n) && a.target == Equal(n)
    requires forall i :: 0 <= i < |times| ==> Tame(a, times[i])
    ensures var q := Target(s.view.tree, s.view.focus, op.dir);
      var ops := [op] + Frames(q, [a.start] + Sent(a, times));
      && TiledThroughout(s, ops)
      && (Ends(a, times) ==> Run(s, ops) == Step(s, op))
  {
    hide HasPath, At, Tame, Tick, Step, Legal, Run, TiledAfter, Fits, Joins, Frames;
    var s1, q := Step(s, op), Target(s.view.tree, s.view.focus, op.dir);
    StepKeeps(s, op);
    TargetGroup(s, op);
    var n := |a.target|;
    SplitInitialFills(n);
    EqualFills(n);
    FillsFits(a.start);
    FillsFits(a.target);
    TameSuits(s1.view.tree, q, a, times);
    var rss := [a.start] + Sent(a, times);
    FramesRun(s1, q, rss);
    var ops := [op] + Frames(q, rss);
    RunFirst(s, op, Frames(q, rss));
    RunsTile(s, ops);
    if Ends(a, times) {
      SentLast(a, times);
      assert rss[|rss| - 1] == a.target;
      SetSameRatios(s1.view.tree, q);
    }
  }

  // ----------------------------------------------------------------- removals

  /** The targets of a removal of child c of n (texel/layout_transitions.go:155-169). */
  ghost predicate Closing(target: seq<real>, c: nat) {
    |target| >= 2 &&
    forall i :: 0 <= i < |target| ==> target[i] == if i == c then 0.001 else 0.999 / (|target| - 1) as real
  }

  /** Renormalised without the closing child they are equal. */
  lemma {:induction false} ClosedEqual(target: seq<real>, c: nat)
    requires Closing(target, c) && c < |target|
    ensures Normalised(Without(target, c)) == Equal(|target| - 1)
  {
    hide Sum;
    var n := |target| - 1;
    var share, rest := 0.999 / n as real, Without(target, c);
    assert rest == seq(n, i => share);
    SumConstant(n, share);
    DivideBy(0.999, n as real);
    SameShare(share, n as real);
    assert Sum(rest) == 0.999;
    assert forall i :: 0 <= i < n ==> Normalised(rest)[i] == share / 0.999;
  }

  lemma SameShare(share: real, x: real)
    requires x > 0.0 && share * x == 0.999
    ensures share / 0.999 == 1.0 / x
  {
    DivideBy(1.0, x);
    assert (1.0 / x * 0.999) * x == 0.999;
    assert (share - 1.0 / x * 0.999) * x == 0.0;
  }

  /** What a removal leaves does not depend on the group's ratios but for the survivors' own. */
  lemma {:induction false} RemoveAfter(t: Shape, p: Path, f: Path, rs: seq<real>)
    requires Removable(t, p) && LeafPath(t, f) && WellFormed(t) && Distinct(t) && Suits(t, Init(p), rs)
    ensures var t' := SetRatios(t, Init(p), rs);
      && Removable(t', p) && RemoveFocus(t', p, f) == RemoveFocus(t, p, f)
      && (Collapses(t, p) ==> Remove(t', p) == Remove(t, p))
      && (!Collapses(t, p) ==>
            && HasPath(Remove(t, p), Init(p)) && At(Remove(t, p), Init(p)).Branch?
            && Remove(t', p) == SetRatios(Remove(t, p), Init(p), Normalised(Without(rs, Last(p)))))
  {
    hide Distinct, Fits, Normalised, HasPath, At, Put, WellFormed;
    var q, t' := Init(p), SetRatios(t, Init(p), rs);
    SetRatiosKeeps(t, q, rs);
    SetRatiosAt(t, q, rs, p);
    SetTwice(t, q, rs, rs);
    RemovableLeaf(t', p);
    GroupFits(t, q);
    PutTwice(t, q, At(t, q).(ratios := rs), Survivors(t', p));
    PutTwice(t, q, Survivors(t, p), Survivors(t', p));
    PutAt(t, q, Survivors(t, p));
  }

  /**
   * removeNode with its animation: the frames, then the removal. It closes the
   * pane and moves focus as the removal alone does, but the survivors of the
   * group come out equal, whatever they had.
   */
  lemma {:induction false} AnimatedRemoval(s: State, p: Path, a: Transition, times: seq<int>)
    requires Inv(s) && Enabled(s, RemoveOp(p)) && Removable(s.view.tree, p)
    requires Sane(a) && Fits(a.start) && Closing(a.target, Last(p))
    requires |a.target| == |At(s.view.tree, Init(p)).kids|
    requires Ends(a, times) && forall i :: 0 <= i < |times| ==> Tame(a, times[i])
    ensures var t, q, ops := s.view.tree, Init(p), Frames(Init(p), Sent(a, times)) + [RemoveOp(p)];
      && TiledThroughout(s, ops)
      && Run(s, ops).view.focus == RemoveFocus(t, p, s.view.focus)
      && (Collapses(t, p) ==> Run(s, ops).view.tree == Remove(t, p))
      && (!Collapses(t, p) ==>
            && HasPath(Remove(t, p), q) && At(Remove(t, p), q).Branch?
            && Run(s, ops).view.tree == SetRatios(Remove(t, p), q, Equal(|a.target| - 1)))
  {
    hide HasPath, At, Tame, Tick, Legal, Run, TiledAfter, Fits, Frames, Remove, RemoveFocus, WellFormed, Distinct;
    var t, q := s.view.tree, Init(p);
    var frames := Frames(q, Sent(a, times));
    var ops := frames + [RemoveOp(p)];
    ClosingFits(a.target, Last(p));
    TameSuits(t, q, a, times);
    AnimationRuns(s, q, a, times);
    ClosedEqual(a.target, Last(p));
    RemoveAfter(t, p, s.view.focus, a.target);
    var s1 := Reshared(s, q, a.target);
    RunsKeep(s, frames);
    assert Enabled(s1, RemoveOp(p));
    StepKeeps(s1, RemoveOp(p));
    RunNone(Step(s1, RemoveOp(p)));
    RunFirst(s1, RemoveOp(p), []);
    assert [RemoveOp(p)] + [] == [RemoveOp(p)];
    RunBoth(s, frames, [RemoveOp(p)]);
    RunsTile(s, ops);
  }

  lemma {:induction false} ClosingFits(target: seq<real>, c: nat)
    requires Closing(target, c) && c < |target|
    ensures Fits(target)
  {
    TargetSum(target, c, 0.999 / (|target| - 1) as real);
  }

  // ------------------------------------------------------------- the manager

  /** What the manager still animates after ticks at these times. */
  ghost function After(animating: map<Node, Transition>, times: seq<int>): map<Node, Transition>
    decreases |times|
  {
    if times == [] then animating else After(Unfinished(animating, times[0]), times[1..])
  }

  /** An animation is forgotten at the tick that ends it, and unchanged until then. */
  lemma {:induction false} ForgottenAtEnd(animating: map<Node, Transition>, times: seq<int>, n: Node)
    requires n in animating && Sane(animating[n])
    ensures n in After(animating, times) <==> !Ends(animating[n], times)
    ensures n in After(animating, times) ==> After(animating, times)[n] == animating[n]
    decreases |times|
  {
    hide Tick;
    if times != [] {
      if Finished(animating, times[0], n) {
        NotAfter(Unfinished(animating, times[0]), times[1..], n);
      } else {
        ForgottenAtEnd(Unfinished(animating, times[0]), times[1..], n);
      }
    }
  }

  lemma {:induction false} NotAfter(animating: map<Node, Transition>, times: seq<int>, n: Node)
    requires n !in animating
    ensures n !in After(animating, times)
    decreases |times|
  {
    if times != [] { NotAfter(Unfinished(animating, times[0]), times[1..], n); }
  }
}
