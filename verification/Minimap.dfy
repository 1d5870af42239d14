/**
 * The scroll bar's background minimap (apps/texelterm/scrollbar.go:185-245,
 * 255-286, 305-402) as interleaved critical sections. What a minimap shows is
 * reduced to its number of rows, the search set and the version of the terminal
 * contents it was drawn from.
 */
module Minimap {
  type Search = set<int>

  /** `late` records, for the proofs only, that the job was launched for a height the bar no longer had. */
  datatype Minimap =
    | Blank(height: nat)
    | Drawn(height: nat, search: Search, version: nat, late: bool)

  /** The fields the mutex guards, with the contents' version at the last invalidation that took effect. */
  datatype Bar = Bar(height: nat, cached: Minimap, valid: bool, computing: bool, generation: nat,
                     search: Search, pending: bool, fence: nat)

  /** What a worker was asked to draw, and under which generation. */
  datatype Job = Job(height: nat, generation: nat, search: Search, late: bool)

  /** A worker before it has read the lines, and after. */
  datatype Worker =
    | Starting(job: Job)
    | Drawing(job: Job, version: nat)

  /** A render: height read, first section passed (with a worker to launch or not), served. */
  datatype Render =
    | Asked(height: nat)
    | Launching(height: nat, job: Job)
    | Looking(height: nat)
    | Served(height: nat, result: Minimap)

  datatype System = System(bar: Bar, contents: nat, renders: map<nat, Render>, workers: map<nat, Worker>)

  const Start := System(Bar(0, Blank(0), false, false, 0, {}, false, 0), 0, map[], map[])

  // ------------------------------------------------------- critical sections

  /** Mark the cache stale and cancel the computation under way. */
  function Bumped(b: Bar, contents: nat): Bar {
    b.(valid := false, generation := b.generation + 1, fence := contents)
  }

  function Resized(b: Bar, height: nat, contents: nat): Bar {
    if b.height == height then b else Bumped(b, contents).(height := height)
  }

  /** The debounce timer's callback. */
  function Fired(b: Bar, contents: nat): Bar {
    if b.pending then Bumped(b, contents).(pending := false) else b
  }

  function Searched(b: Bar, search: Search, contents: nat): Bar {
    Bumped(b, contents).(search := search)
  }

  predicate Hit(b: Bar, height: nat) {
    b.valid && b.cached.height == height
  }

  /** First section of calculateBrailleMinimap: what becomes of the render. */
  function Checked(b: Bar, height: nat): (Bar, Render) {
    if Hit(b, height) then (b, Served(height, b.cached))
    else if !b.computing then
      (b.(computing := true), Launching(height, Job(height, b.generation, b.search, height != b.height)))
    else (b, Looking(height))
  }

  /** Second section: the cache if it has the right height, else an empty minimap. */
  function Looked(b: Bar, height: nat): Minimap {
    if b.cached.height == height then b.cached else Blank(height)
  }

  /** A worker's last section: retry with the current parameters, or commit and end. */
  function Finished(b: Bar, job: Job, version: nat): (Bar, set<Worker>) {
    if b.generation != job.generation then (b, {Starting(Job(b.height, b.generation, b.search, false))})
    else (b.(cached := Drawn(job.height, job.search, version, job.late), valid := true, computing := false), {})
  }

  // ------------------------------------------------------------------ actions

  datatype Action =
    | Resize(height: nat)
    | Invalidate
    | Fire
    | SetSearch(search: Search)
    | Output
    | Ask(render: nat)
    | Check(render: nat)
    | Go(render: nat, worker: nat)
    | Look(render: nat)
    | Read(worker: nat, empty: bool)
    | Finish(worker: nat)

  /** A timer may fire late, after it was stopped, so firing is always possible. */
  predicate Enabled(s: System, a: Action) {
    match a
    case Ask(id) => s.bar.height > 0 && (id in s.renders ==> s.renders[id].Served?)
    case Check(id) => id in s.renders && s.renders[id].Asked?
    case Go(id, w) => id in s.renders && s.renders[id].Launching? && w !in s.workers
    case Look(id) => id in s.renders && s.renders[id].Looking?
    case Read(w, _) => w in s.workers && s.workers[w].Starting?
    case Finish(w) => w in s.workers && s.workers[w].Drawing?
    case _ => true
  }

  function Step(s: System, a: Action): System
    requires Enabled(s, a)
  {
    match a
    case Resize(height) => s.(bar := Resized(s.bar, height, s.contents))
    case Invalidate => s.(bar := s.bar.(pending := true))
    case Fire => s.(bar := Fired(s.bar, s.contents))
    case SetSearch(search) => s.(bar := Searched(s.bar, search, s.contents))
    case Output => s.(contents := s.contents + 1)
    case Ask(id) => s.(renders := s.renders[id := Asked(s.bar.height)])
    case Check(id) =>
      var (bar, render) := Checked(s.bar, s.renders[id].height);
      s.(bar := bar, renders := s.renders[id := render])
    case Go(id, w) =>
      var render := s.renders[id];
      s.(renders := s.renders[id := Looking(render.height)], workers := s.workers[w := Starting(render.job)])
    case Look(id) =>
      var height := s.renders[id].height;
      s.(renders := s.renders[id := Served(height, Looked(s.bar, height))])
    case Read(w, empty) =>
      var job := s.workers[w].job;
      if empty || job.height == 0 then s.(bar := s.bar.(computing := false), workers := s.workers - {w})
      else s.(workers := s.workers[w := Drawing(job, s.contents)])
    case Finish(w) =>
      var (bar, next) := Finished(s.bar, s.workers[w].job, s.workers[w].version);
      s.(bar := bar, workers := if next == {} then s.workers - {w}
                                else s.workers[w := Starting(Job(bar.height, bar.generation, bar.search, false))])
  }

  ghost predicate Possible(run: seq<Action>)
    decreases |run|, 0
  {
    run == [] || (Possible(run[..|run| - 1]) && Enabled(After(run[..|run| - 1]), run[|run| - 1]))
  }

  /** The system after a run. */
  ghost function After(run: seq<Action>): System
    requires Possible(run)
    decreases |run|, 1
  {
    if run == [] then Start else Step(After(run[..|run| - 1]), run[|run| - 1])
  }

  // --------------------------------------------------------------- invariants

  function Launchers(renders: map<nat, Render>): set<nat> {
    set id | id in renders && renders[id].Launching?
  }

  /** Workers running or about to be launched: one exactly while `computing` is set. */
  predicate OneWorker(s: System) {
    |Launchers(s.renders)| + |s.workers| == if s.bar.computing then 1 else 0
  }

  /** A job of the current generation is for the current search set. */
  predicate Current(b: Bar, job: Job) {
    job.generation <= b.generation && (job.generation == b.generation ==> job.search == b.search)
  }

  predicate JobsCurrent(s: System) {
    && (forall id :: id in s.renders && s.renders[id].Launching? ==> Current(s.bar, s.renders[id].job))
    && (forall w :: w in s.workers ==> Current(s.bar, s.workers[w].job))
  }

  /** Lines read under the current generation are no older than its beginning. */
  predicate LinesFresh(s: System) {
    && s.bar.fence <= s.contents
    && forall w :: w in s.workers && s.workers[w].Drawing? ==>
         && s.workers[w].version <= s.contents
         && (s.workers[w].job.generation == s.bar.generation ==> s.workers[w].version >= s.bar.fence)
  }

  /** A cache marked valid was drawn for the search set in force, from contents the last invalidation covers. */
  predicate CacheHonest(s: System) {
    s.bar.valid ==> s.bar.cached.Drawn? && s.bar.cached.search == s.bar.search && s.bar.cached.version >= s.bar.fence
  }

  /** Under one generation the bar keeps its height, so a job is for it unless it was launched late. */
  predicate HeightsTold(s: System) {
    && (forall id :: id in s.renders && s.renders[id].Launching? ==> Told(s.bar, s.renders[id].job))
    && (forall w :: w in s.workers ==> Told(s.bar, s.workers[w].job))
    && (s.bar.valid ==> s.bar.cached.Drawn? && (s.bar.cached.late <==> s.bar.cached.height != s.bar.height))
  }

  predicate Told(b: Bar, job: Job) {
    job.generation <= b.generation && (job.generation == b.generation ==> (job.late <==> job.height != b.height))
  }

  /** A render is handed as many rows as it asked for. */
  predicate RightHeight(s: System) {
    forall id :: id in s.renders && s.renders[id].Served? ==> s.renders[id].result.height == s.renders[id].height
  }

  predicate Safe(s: System) {
    OneWorker(s) && JobsCurrent(s) && LinesFresh(s) && CacheHonest(s) && HeightsTold(s) && RightHeight(s)
  }

  lemma {:induction false} StepKeepsJobs(s: System, a: Action)
    requires JobsCurrent(s) && Enabled(s, a)
    ensures JobsCurrent(Step(s, a))
  {
  }

  lemma {:induction false} StepKeepsLines(s: System, a: Action)
    requires LinesFresh(s) && JobsCurrent(s) && Enabled(s, a)
    ensures LinesFresh(Step(s, a))
  {
  }

  lemma {:induction false} StepKeepsCache(s: System, a: Action)
    requires CacheHonest(s) && LinesFresh(s) && JobsCurrent(s) && Enabled(s, a)
    ensures CacheHonest(Step(s, a))
  {
  }

  lemma {:induction false} StepKeepsTold(s: System, a: Action)
    requires HeightsTold(s) && Enabled(s, a)
    ensures HeightsTold(Step(s, a))
  {
  }

  lemma {:induction false} StepKeepsHeights(s: System, a: Action)
    requires RightHeight(s) && Enabled(s, a)
    ensures RightHeight(Step(s, a))
  {
  }

  lemma {:induction false} StepKeepsOneWorker(s: System, a: Action)
    requires Safe(s) && Enabled(s, a)
    ensures OneWorker(Step(s, a))
  {
    var t := Step(s, a);
    match a
    case Check(id) => LaunchersUpdate(s.renders, id, t.renders[id]);
    case Go(id, w) =>
      LaunchersUpdate(s.renders, id, t.renders[id]);
      assert |s.workers[w := Starting(s.renders[id].job)].Keys| == |s.workers.Keys + {w}| == |s.workers.Keys| + 1;
    case Look(id) => LaunchersUpdate(s.renders, id, t.renders[id]);
    case Ask(id) => LaunchersUpdate(s.renders, id, t.renders[id]);
    case Read(w, _) => WorkerUpdate(s.workers, w, t.workers);
    case Finish(w) => WorkerUpdate(s.workers, w, t.workers);
    case _ =>
  }

  lemma {:induction false} LaunchersUpdate(renders: map<nat, Render>, id: nat, r: Render)
    ensures var was := if id in Launchers(renders) then 1 else 0;
      |Launchers(renders[id := r])| == |Launchers(renders)| - was + if r.Launching? then 1 else 0
  {
    var before := Launchers(renders);
    assert Launchers(renders[id := r]) == if r.Launching? then before + {id} else before - {id};
  }

  lemma {:induction false} WorkerUpdate(before: map<nat, Worker>, w: nat, after: map<nat, Worker>)
    requires w in before && (after.Keys == before.Keys || after.Keys == before.Keys - {w})
    ensures |after| == if w in after then |before| else |before| - 1
  {
    assert |after| == |after.Keys| && |before| == |before.Keys|;
  }

  /** Every interleaving keeps the protocol's promises. */
  lemma {:induction false} RunsAreSafe(run: seq<Action>)
    requires Possible(run)
    ensures Safe(After(run))
    decreases |run|
  {
    hide Step, Enabled, OneWorker, JobsCurrent, LinesFresh, CacheHonest, HeightsTold, RightHeight;
    if run == [] {
      StartIsSafe();
    } else {
      var before := run[..|run| - 1];
      RunsAreSafe(before);
      StepKeepsJobs(After(before), run[|run| - 1]);
      StepKeepsLines(After(before), run[|run| - 1]);
      StepKeepsCache(After(before), run[|run| - 1]);
      StepKeepsTold(After(before), run[|run| - 1]);
      StepKeepsHeights(After(before), run[|run| - 1]);
      StepKeepsOneWorker(After(before), run[|run| - 1]);
    }
  }

  lemma {:induction false} StartIsSafe()
    ensures Safe(Start)
  {
    assert Launchers(Start.renders) == {};
  }

  /** At most one worker exists in any run, and none is launched while one exists. */
  lemma {:induction false} AtMostOneWorker(run: seq<Action>, v: nat, w: nat)
    requires Possible(run) && v in After(run).workers && w in After(run).workers
    ensures v == w && After(run).bar.computing && Launchers(After(run).renders) == {}
  {
    hide Step, Enabled, After;
    RunsAreSafe(run);
    var s := After(run);
    assert |s.workers| == |s.workers.Keys|;
    if v != w {
      assert |{v, w}| == 2 && {v, w} <= s.workers.Keys;
      Subset({v, w}, s.workers.Keys);
    } else {
      Subset({v}, s.workers.Keys);
    }
  }

  lemma {:induction false} Subset(a: set<nat>, b: set<nat>)
    requires a <= b
    ensures |a| <= |b|
  {
    assert b == a + (b - a);
  }

  /** `computing` is set exactly while a worker runs or is about to be launched. */
  lemma {:induction false} ComputingMeansWorker(run: seq<Action>)
    requires Possible(run)
    ensures var s := After(run); s.bar.computing <==> s.workers != map[] || Launchers(s.renders) != {}
  {
    hide Step, Enabled, After;
    RunsAreSafe(run);
    var s := After(run);
    assert |s.workers| == |s.workers.Keys|;
  }

  /**
   * A render that hits the cache gets its height, the search set in force and
   * contents no older than the last invalidation.
   */
  lemma {:induction false} HitIsCurrent(run: seq<Action>, id: nat)
    requires Possible(run) && Enabled(After(run), Check(id)) && Hit(After(run).bar, After(run).renders[id].height)
    ensures var s := After(run); var r := Step(s, Check(id)).renders[id];
      && r.Served? && r.result.Drawn? && r.result.height == r.height
      && r.result.search == s.bar.search && r.result.version >= s.bar.fence
  {
    hide After;
    RunsAreSafe(run);
  }

  /** A render that read height 10 launches its worker after a resize to 20. */
  lemma {:induction false} LateLaunch() returns (run: seq<Action>)
    ensures Possible(run)
    ensures var s := After(run);
      && s.bar.height == 20 && s.bar.generation == 2 && s.workers == map[]
      && 0 in s.renders && s.renders[0] == Launching(10, Job(10, 2, s.bar.search, true))
  {
    hide Possible, After;
    NoRun();
    RunStep([], Resize(10));
    var r1, s1 := [] + [Resize(10)], Step(Start, Resize(10));
    RunStep(r1, Ask(0));
    var r2, s2 := r1 + [Ask(0)], Step(s1, Ask(0));
    RunStep(r2, Resize(20));
    var r3, s3 := r2 + [Resize(20)], Step(s2, Resize(20));
    assert s3.bar == Bar(20, Blank(0), false, false, 2, {}, false, 0) && s3.renders[0] == Asked(10);
    RunStep(r3, Check(0));
    run := r3 + [Check(0)];
  }

  /**
   * A valid cache has another height than the bar exactly when its worker was
   * launched late: by a render that had read its height before a resize.
   */
  lemma {:induction false} ValidHeightExactly(run: seq<Action>)
    requires Possible(run) && After(run).bar.valid
    ensures var b := After(run).bar; b.cached.Drawn? && (b.cached.height != b.height <==> b.cached.late)
  {
    hide Step, Enabled, After;
    RunsAreSafe(run);
  }

  /** A run in which it has. */
  lemma {:induction false} ValidCacheCanHaveOldHeight()
    ensures exists run :: Possible(run) && After(run).bar.valid && After(run).bar.cached.height != After(run).bar.height
  {
    hide Possible, After;
    var r4 := LateLaunch();
    var s4 := After(r4);
    RunStep(r4, Go(0, 0));
    var r5, s5 := r4 + [Go(0, 0)], Step(s4, Go(0, 0));
    assert s5.workers[0] == Starting(s4.renders[0].job);
    RunStep(r5, Read(0, false));
    var r6, s6 := r5 + [Read(0, false)], Step(s5, Read(0, false));
    assert s6.workers[0] == Drawing(s4.renders[0].job, s5.contents);
    RunStep(r6, Finish(0));
    assert After(r6 + [Finish(0)]).bar.cached.height == 10;
  }

  lemma {:induction false} NoRun()
    ensures Possible([]) && After([]) == Start
  {
  }

  lemma {:induction false} RunStep(run: seq<Action>, a: Action)
    requires Possible(run) && Enabled(After(run), a)
    ensures Possible(run + [a]) && After(run + [a]) == Step(After(run), a)
  {
    assert (run + [a])[..|run|] == run;
  }

  // -------------------------------------------------------------------- class

  /** The bar itself; each method is one critical section. */
  class ScrollBar {
    var height: nat
    var cached: Minimap
    var valid: bool
    var computing: bool
    var generation: nat
    var search: Search
    var pending: bool
    ghost var fence: nat

    ghost function Now(): Bar
      reads this
    {
      Bar(height, cached, valid, computing, generation, search, pending, fence)
    }

    constructor ()
      ensures Now() == Start.bar
    {
      height, cached, valid, computing := 0, Blank(0), false, false;
      generation, search, pending, fence := 0, {}, false, 0;
    }

    method Resize(h: nat, ghost contents: nat)
      modifies this
      ensures Now() == Resized(old(Now()), h, contents)
      ensures height == h && (h != old(height) ==> !valid && generation > old(generation))
    {
      if height != h {
        height := h;
        valid := false;
        generation := generation + 1;
        fence := contents;
      }
    }

    method Invalidate()
      modifies this
      ensures Now() == old(Now()).(pending := true)
    {
      pending := true;
    }

    method FireTimer(ghost contents: nat)
      modifies this
      ensures Now() == Fired(old(Now()), contents)
      ensures !pending && (old(pending) ==> !valid && generation > old(generation) && fence == contents)
    {
      if pending {
        valid := false;
        generation := generation + 1;
        fence := contents;
        pending := false;
      }
    }

    /** The search set is rebuilt from the results' line indices. */
    method SetSearchResults(results: seq<int>, ghost contents: nat)
      modifies this
      ensures Now() == Searched(old(Now()), (set line | line in results), contents)
    {
      search := {};
      for i := 0 to |results|
        invariant search == set line | line in results[..i]
        invariant Now() == old(Now()).(search := search)
      {
        search := search + {results[i]};
      }
      assert results[..|results|] == results;
      valid := false;
      generation := generation + 1;
      fence := contents;
    }

    /** The first section of calculateBrailleMinimap. */
    method CheckCache(h: nat) returns (render: Render)
      modifies this
      ensures (Now(), render) == Checked(old(Now()), h)
      ensures computing ==> old(computing) || render.Launching?
      ensures old(computing) ==> !render.Launching?
      ensures render.Launching? ==> computing && Current(Now(), render.job) && Told(Now(), render.job)
      ensures render.Served? <==> valid && cached.height == h
      ensures render.Served? ==> render.result == cached
      ensures cached == old(cached) && valid == old(valid) && height == old(height)
      ensures render.Launching? <==> !render.Served? && !old(computing)
      ensures render.Launching? ==>
        && render.job.height == h && render.job.generation == generation == old(generation)
        && render.job.search == search == old(search)
    {
      if valid && cached.height == h { return Served(h, cached); }
      if !computing {
        computing := true;
        return Launching(h, Job(h, generation, search, h != height));
      }
      return Looking(h);
    }

    /** The second section of calculateBrailleMinimap. */
    method LookAtCache(h: nat) returns (result: Minimap)
      ensures result == Looked(Now(), h) && result.height == h
      ensures result == if cached.height == h then cached else Blank(h)
    {
      if cached.height == h { return cached; }
      return Blank(h);
    }

    /** The last section of recomputeMinimap: whether the worker goes round again, and with what. */
    method FinishWork(job: Job, version: nat) returns (again: bool, next: Job)
      modifies this
      ensures var (bar, workers) := Finished(old(Now()), job, version);
        Now() == bar && workers == if again then {Starting(next)} else {}
      ensures again ==> computing == old(computing) && Current(Now(), next) && Told(Now(), next) && !next.late
      ensures again <==> old(generation) != job.generation
      ensures again ==> Now() == old(Now()) && next == Job(height, generation, search, false)
      ensures !again ==> !computing && valid && (Current(old(Now()), job) ==> cached.search == search)
      ensures !again ==> cached == Drawn(job.height, job.search, version, job.late)
    {
      next := job;
      again := generation != job.generation;
      if again {
        next := Job(height, generation, search, false);
      } else {
        cached := Drawn(job.height, job.search, version, job.late);
        valid := true;
        computing := false;
      }
    }
  }
}
