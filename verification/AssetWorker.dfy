/**
 The worker of the asset load machine left to itself: when it drains its queue, and what stops it.
 */
module AssetWorker {

  import opened Common
  import R = ResourcePool
  import opened AssetMachine

  // ---------------------------------------------------------------- parents

  /** The parent a job for `id` asks for: valid, of the same type and another asset. (Naming itself only makes it fail.) */
  function NextParent(parents: map<Maid, Maid>, id: Maid): Option<Maid> {
    if id in parents && ValidId(parents[id]) && parents[id].kind == id.kind && parents[id] != id then Some(parents[id]) else None
  }

  /** The chain of parents from `id` on ends within `n` links. */
  predicate Ends(parents: map<Maid, Maid>, id: Maid, n: nat)
    decreases n
  {
    NextParent(parents, id).None? || (n > 0 && Ends(parents, NextParent(parents, id).value, n - 1))
  }

  /** The links from `id` to the end of its chain. */
  function Links(parents: map<Maid, Maid>, id: Maid, n: nat): (k: nat)
    requires Ends(parents, id, n)
    ensures k <= n && Ends(parents, id, k)
    decreases n
  {
    if NextParent(parents, id).None? then 0 else 1 + Links(parents, NextParent(parents, id).value, n - 1)
  }

  lemma {:induction false} LinksSame(parents: map<Maid, Maid>, id: Maid, m: nat, n: nat)
    requires Ends(parents, id, m) && Ends(parents, id, n)
    ensures Links(parents, id, m) == Links(parents, id, n)
    decreases m
  {
    if NextParent(parents, id).Some? { LinksSame(parents, NextParent(parents, id).value, m - 1, n - 1); }
  }

  lemma {:induction false} EndsLater(parents: map<Maid, Maid>, id: Maid, m: nat, n: nat)
    requires Ends(parents, id, m) && m <= n
    ensures Ends(parents, id, n)
    decreases m
  {
    if NextParent(parents, id).Some? { EndsLater(parents, NextParent(parents, id).value, m - 1, n - 1); }
  }

  /** The assets on a chain that ends are different ones. */
  lemma {:induction false} ChainSet(parents: map<Maid, Maid>, id: Maid, n: nat) returns (chain: set<Maid>)
    requires Ends(parents, id, n)
    ensures chain <= parents.Keys && |chain| == Links(parents, id, n)
    ensures forall c | c in chain :: Ends(parents, c, n) && Links(parents, c, n) <= Links(parents, id, n)
    decreases n
  {
    chain := {};
    if NextParent(parents, id).Some? {
      var next := NextParent(parents, id).value;
      var rest := ChainSet(parents, next, n - 1);
      forall c | c in rest ensures Ends(parents, c, n) && Links(parents, c, n) <= Links(parents, next, n - 1) {
        EndsLater(parents, c, n - 1, n);
        LinksSame(parents, c, n - 1, n);
      }
      assert id !in rest;
      chain := rest + {id};
    }
  }

  /** A chain that ends at all does so within as many links as there are files that name a parent. */
  lemma EndsSoon(parents: map<Maid, Maid>, id: Maid, n: nat)
    requires Ends(parents, id, n)
    ensures Ends(parents, id, |parents|) && Links(parents, id, |parents|) == Links(parents, id, n)
  {
    var chain := ChainSet(parents, id, n);
    SubsetSize(chain, parents.Keys);
    assert |parents.Keys| == |parents|;
    EndsLater(parents, id, Links(parents, id, n), |parents|);
    LinksSame(parents, id, n, |parents|);
  }

  // ---------------------------------------------------------------- draining

  predicate ByWorker(ev: Event) { ev.Begin? || ev.Compile? || ev.AskParent? || ev.Prepared? || ev.Fail? || ev.Succeed? }

  /** What the worker does with files that name these parents: it asks for the named one, and goes on only when that is loaded. */
  predicate Follows(s: System, ev: Event, parents: map<Maid, Maid>) {
    match ev
    case AskParent(parent) => s.running.Some? && NextParent(parents, s.running.value) == Some(parent)
    case Prepared =>
      s.running.Some? && s.running.value in parents && ValidId(parents[s.running.value]) ==>
        parents[s.running.value].kind == s.running.value.kind && StageOf(s, parents[s.running.value]) == Loaded
    case _ => true
  }

  /** A step the worker can take, with files that name these parents and dependencies among the given assets. */
  ghost predicate WorkerStep(s: System, ev: Event, parents: map<Maid, Maid>, assets: set<Maid>) {
    Possible(s, ev) && ByWorker(ev) && Follows(s, ev, parents) && (ev.Succeed? ==> forall d | d in ev.deps :: d in assets)
  }

  /** A run of the worker alone. */
  ghost predicate WorkerRun(s: System, events: seq<Event>, parents: map<Maid, Maid>, assets: set<Maid>): (r: bool)
    ensures r ==> AllPossible(s, events)
    decreases |events|
  {
    events == [] || (WorkerStep(s, events[0], parents, assets) && WorkerRun(Step(s, events[0]), events[1..], parents, assets))
  }

  /** Parents of assets are assets, and every chain of them ends. */
  ghost predicate ParentsEnd(parents: map<Maid, Maid>, assets: set<Maid>) {
    forall id | id in assets ::
      Ends(parents, id, |parents|) && (NextParent(parents, id).Some? ==> NextParent(parents, id).value in assets)
  }

  /** Stages, jobs and handle bits agree; nothing is said about the pools. */
  ghost predicate StagesOk(s: System) {
    && JobsOk(s)
    && forall id | id in s.registry ::
         match s.registry[id].stage
         case Unloaded => true
         case Loading => s.running == Some(id) || !s.registry[id].handle.template
         case Compiling => s.running == Some(id) && s.registry[id].handle.template
         case Loaded => true
  }

  lemma InvStages(s: System)
    requires Inv(s)
    ensures StagesOk(s)
  {
    forall id | id in s.registry ensures EntryOk(s.pools[id.kind], s.registry[id], s.running == Some(id)) {}
  }

  ghost function NotLoaded(s: System, assets: set<Maid>): set<Maid> {
    set id | id in assets && StageOf(s, id) != Loaded
  }

  function Phase(s: System): nat {
    if s.running.None? || s.running.value !in s.registry then 0
    else if Entry(s).stage == Compiling then 2
    else if Entry(s).handle.template then 1 else 3
  }

  /** The steps a queued job can take, with the jobs for its parents that it can lead to. */
  function Weight(parents: map<Maid, Maid>, id: Maid): nat {
    if Ends(parents, id, |parents|) then 6 * (Links(parents, id, |parents|) + 1) else 0
  }

  function QueueWeight(parents: map<Maid, Maid>, queue: seq<Maid>): nat {
    if queue == [] then 0 else QueueWeight(parents, queue[..|queue| - 1]) + Weight(parents, queue[|queue| - 1])
  }

  /** The job for the parent that the running job may still request. */
  function Budget(s: System, parents: map<Maid, Maid>): nat {
    if Phase(s) >= 2 && NextParent(parents, s.running.value).Some? && StageOf(s, NextParent(parents, s.running.value).value) == Unloaded
    then 1 + Weight(parents, NextParent(parents, s.running.value).value) else 0
  }

  /** An upper bound on the steps the worker can take. */
  ghost function Work(s: System, parents: map<Maid, Maid>, assets: set<Maid>): nat {
    (6 * |parents| + 7) * |NotLoaded(s, assets)| + QueueWeight(parents, s.queue) + Phase(s) + Budget(s, parents)
  }

  /** What every step of the worker keeps, with fewer steps left after it. */
  ghost predicate Less(t: System, s: System, parents: map<Maid, Maid>, assets: set<Maid>) {
    Work(t, parents, assets) < Work(s, parents, assets) && Kept(t, assets)
  }

  ghost predicate Kept(s: System, assets: set<Maid>) {
    && StagesOk(s) && s.registry.Keys <= assets && (forall id | id in s.queue :: id in assets)
    && (s.running.Some? ==> s.running.value in s.registry)
  }

  lemma {:induction false} QueueSplit(parents: map<Maid, Maid>, id: Maid, queue: seq<Maid>)
    ensures QueueWeight(parents, [id] + queue) == Weight(parents, id) + QueueWeight(parents, queue)
    decreases |queue|
  {
    if queue == [] {
      QueueSnoc(parents, [], id);
      assert [id] + queue == [] + [id];
    } else {
      var front, last := queue[..|queue| - 1], queue[|queue| - 1];
      QueueSplit(parents, id, front);
      QueueSnoc(parents, [id] + front, last);
      assert [id] + queue == ([id] + front) + [last];
    }
  }

  lemma QueueSnoc(parents: map<Maid, Maid>, queue: seq<Maid>, id: Maid)
    ensures QueueWeight(parents, queue + [id]) == QueueWeight(parents, queue) + Weight(parents, id)
  {
    assert (queue + [id])[..|queue|] == queue;
  }

  /** The weight of a job is that of the job for its parent and more. */
  lemma ParentWeight(parents: map<Maid, Maid>, id: Maid)
    requires Ends(parents, id, |parents|)
    ensures Weight(parents, id) <= 6 * |parents| + 6
    ensures NextParent(parents, id).Some? ==> Weight(parents, id) == 6 + Weight(parents, NextParent(parents, id).value)
  {
    if NextParent(parents, id).Some? {
      EndsSoon(parents, NextParent(parents, id).value, |parents| - 1);
    }
  }

  /** Stages and jobs after the worker has taken a job from the queue. */
  lemma BeginStages(s: System)
    requires StagesOk(s) && Possible(s, Begin)
    ensures var t := Step(s, Begin); StagesOk(t) && Running(t, Loading) && !Entry(t).handle.template
  {
    var t := Step(s, Begin);
    var id := s.queue[0];
    assert s.queue == [id] + s.queue[1..];
    assert multiset(s.queue) == multiset{id} + multiset(t.queue);
    forall j ensures Jobs(t, j) == if InProgress(StageOf(t, j)) then 1 else 0 {
      assert Jobs(t, j) == Jobs(s, j);
    }
    assert Jobs(s, id) == 1;
  }

  lemma BeginWork(s: System, parents: map<Maid, Maid>, assets: set<Maid>)
    requires Kept(s, assets) && Possible(s, Begin) && ParentsEnd(parents, assets)
    ensures Less(Step(s, Begin), s, parents, assets)
  {
    BeginStages(s);
    var t, id := Step(s, Begin), s.queue[0];
    assert s.queue == [id] + t.queue;
    QueueSplit(parents, id, t.queue);
    ParentWeight(parents, id);
    assert NotLoaded(t, assets) == NotLoaded(s, assets);
  }

  /** A step that rewrites the running entry and leaves queue and job as they are. */
  lemma EntryStages(s: System, t: System, a: Asset)
    requires StagesOk(s) && s.running.Some? && InProgress(StageOf(s, s.running.value)) && InProgress(a.stage)
    requires t.registry == s.registry[s.running.value := a] && t.queue == s.queue && t.running == s.running
    requires a.stage == Compiling ==> a.handle.template
    ensures StagesOk(t)
  {
    forall j ensures Jobs(t, j) == if InProgress(StageOf(t, j)) then 1 else 0 {
      assert Jobs(t, j) == Jobs(s, j);
    }
  }

  lemma CompileWork(s: System, parents: map<Maid, Maid>, assets: set<Maid>)
    requires Kept(s, assets) && Possible(s, Compile)
    ensures Less(Step(s, Compile), s, parents, assets)
  {
    var t := Step(s, Compile);
    EntryStages(s, t, t.registry[s.running.value]);
    assert NotLoaded(t, assets) == NotLoaded(s, assets);
  }

  lemma PreparedWork(s: System, parents: map<Maid, Maid>, assets: set<Maid>)
    requires Kept(s, assets) && Possible(s, Prepared)
    ensures Less(Step(s, Prepared), s, parents, assets)
  {
    var t := Step(s, Prepared);
    EntryStages(s, t, Entry(s).(stage := Loading));
    assert NotLoaded(t, assets) == NotLoaded(s, assets);
  }

  lemma EnqueuedStages(s: System, id: Maid)
    requires StagesOk(s) && StageOf(s, id) == Unloaded
    ensures StagesOk(Enqueued(s, id)) && s.running != Some(id)
  {
    EnqueueJobs(s, id);
    assert Jobs(s, id) == 0;
  }

  /** Asking for the parent trades the budget for a queued job. */
  lemma AskWork(s: System, parent: Maid, parents: map<Maid, Maid>, assets: set<Maid>)
    requires Kept(s, assets) && Possible(s, AskParent(parent)) && ParentsEnd(parents, assets)
    requires NextParent(parents, s.running.value) == Some(parent)
    ensures Less(Step(s, AskParent(parent)), s, parents, assets)
  {
    var t := Step(s, AskParent(parent));
    assert t == Enqueued(s, parent);
    EnqueuedStages(s, parent);
    QueueSnoc(parents, s.queue, parent);
    assert NotLoaded(t, assets) == NotLoaded(s, assets);
  }

  /** The job is over: its entry is rewritten and no job is left for it. */
  lemma OverStages(s: System, t: System, a: Asset)
    requires StagesOk(s) && s.running.Some? && !InProgress(a.stage)
    requires t.registry == s.registry[s.running.value := a] && t.queue == s.queue && t.running == None
    ensures StagesOk(t)
  {
    assert Jobs(s, s.running.value) == 1;
    forall j ensures Jobs(t, j) == if InProgress(StageOf(t, j)) then 1 else 0 {
      if j != s.running.value { assert Jobs(t, j) == Jobs(s, j); }
    }
  }

  lemma FailWork(s: System, parents: map<Maid, Maid>, assets: set<Maid>)
    requires Kept(s, assets) && Possible(s, Fail)
    ensures Less(Step(s, Fail), s, parents, assets)
  {
    var t := Step(s, Fail);
    OverStages(s, t, NoAsset(s.running.value, Unloaded));
    assert NotLoaded(t, assets) == NotLoaded(s, assets);
  }

  lemma EnqueuedKept(s: System, id: Maid, parents: map<Maid, Maid>, assets: set<Maid>)
    requires Kept(s, assets) && id in assets && StageOf(s, id) == Unloaded && ParentsEnd(parents, assets)
    ensures var t := Enqueued(s, id);
            && Kept(t, assets) && NotLoaded(t, assets) == NotLoaded(s, assets) && s.running != Some(id)
            && QueueWeight(parents, t.queue) <= QueueWeight(parents, s.queue) + 6 * |parents| + 6
  {
    EnqueuedStages(s, id);
    assert NotLoaded(Enqueued(s, id), assets) == NotLoaded(s, assets);
    ParentWeight(parents, id);
    QueueSnoc(parents, s.queue, id);
  }

  /** A request of a job adds at most one job, and makes no asset loaded or not loaded. */
  lemma RequestWork(s: System, ids: seq<Maid>, parents: map<Maid, Maid>, assets: set<Maid>)
    requires Kept(s, assets) && s.running.Some? && (forall d | d in ids :: d in assets) && ParentsEnd(parents, assets)
    ensures var t := Requested(s, ids).0;
            && Kept(t, assets) && NotLoaded(t, assets) == NotLoaded(s, assets)
            && t.running == s.running && t.registry[s.running.value] == s.registry[s.running.value]
            && QueueWeight(parents, t.queue) <= QueueWeight(parents, s.queue) + 6 * |parents| + 6
  {
    RequestMeaning(s, ids);
    var (t, job) := Requested(s, ids);
    if job.Some? { EnqueuedKept(s, job.value, parents, assets); }
  }

  /** The state after the running asset has been marked loaded. */
  lemma LoadedKept(s: System, t: System, a: Asset, assets: set<Maid>)
    requires Kept(s, assets) && s.running.Some? && StageOf(s, s.running.value) != Loaded && a.stage == Loaded
    requires t.registry == s.registry[s.running.value := a] && t.queue == s.queue && t.running == None
    ensures Kept(t, assets) && |NotLoaded(s, assets)| == |NotLoaded(t, assets)| + 1
  {
    OverStages(s, t, a);
    assert s.running.value in NotLoaded(s, assets);
    assert NotLoaded(t, assets) == NotLoaded(s, assets) - {s.running.value};
  }

  /** A finished job leaves one asset less to load, and at most one job more. */
  lemma SucceedKeeps(s: System, deps: seq<Maid>, parents: map<Maid, Maid>, assets: set<Maid>)
    requires Kept(s, assets) && Possible(s, Succeed(deps)) && (forall d | d in deps :: d in assets) && ParentsEnd(parents, assets)
    ensures var t := Step(s, Succeed(deps));
            && Kept(t, assets) && t.running == None && |NotLoaded(s, assets)| == |NotLoaded(t, assets)| + 1
            && QueueWeight(parents, t.queue) <= QueueWeight(parents, s.queue) + 6 * |parents| + 6
  {
    RequestWork(s, deps, parents, assets);
    LoadedKept(Requested(s, deps).0, Step(s, Succeed(deps)), Entry(s).(stage := Loaded), assets);
  }

  lemma SucceedWork(s: System, deps: seq<Maid>, parents: map<Maid, Maid>, assets: set<Maid>)
    requires Kept(s, assets) && Possible(s, Succeed(deps)) && (forall d | d in deps :: d in assets) && ParentsEnd(parents, assets)
    ensures Less(Step(s, Succeed(deps)), s, parents, assets)
  {
    SucceedKeeps(s, deps, parents, assets);
    WorkSinks(Step(s, Succeed(deps)), s, parents, assets);
  }

  lemma WorkSinks(t: System, s: System, parents: map<Maid, Maid>, assets: set<Maid>)
    requires t.running == None && |NotLoaded(s, assets)| == |NotLoaded(t, assets)| + 1
    requires QueueWeight(parents, t.queue) <= QueueWeight(parents, s.queue) + 6 * |parents| + 6
    ensures Work(t, parents, assets) < Work(s, parents, assets)
  {
    OneLess(6 * |parents| + 7, |NotLoaded(t, assets)|, |NotLoaded(s, assets)|);
  }

  lemma OneLess(c: nat, m: nat, n: nat)
    requires n == m + 1
    ensures c * n == c * m + c
  {
  }

  lemma WorkDecreases(s: System, ev: Event, parents: map<Maid, Maid>, assets: set<Maid>)
    requires Kept(s, assets) && ParentsEnd(parents, assets) && WorkerRun(s, [ev], parents, assets)
    ensures Less(Step(s, ev), s, parents, assets)
  {
    match ev
    case Begin => BeginWork(s, parents, assets);
    case Compile => CompileWork(s, parents, assets);
    case AskParent(parent) => AskWork(s, parent, parents, assets);
    case Prepared => PreparedWork(s, parents, assets);
    case Fail => FailWork(s, parents, assets);
    case Succeed(deps) => SucceedWork(s, deps, parents, assets);
  }

  /**
   When every chain of parents ends, the worker left to itself stops, whatever the dependencies (cyclic ones too)
   and however often a pool slot is reused.
   */
  lemma {:induction false} WorkerStops(s: System, events: seq<Event>, parents: map<Maid, Maid>, assets: set<Maid>)
    requires Kept(s, assets) && ParentsEnd(parents, assets) && WorkerRun(s, events, parents, assets)
    ensures |events| <= Work(s, parents, assets)
    decreases |events|
  {
    if events != [] {
      assert [events[0]][1..] == [];
      WorkDecreases(s, events[0], parents, assets);
      WorkerStops(Step(s, events[0]), events[1..], parents, assets);
    }
  }

  predicate Idle(s: System) { s.queue == [] && s.running.None? }

  /** A run that cannot be continued. */
  ghost predicate Final(s: System, parents: map<Maid, Maid>, assets: set<Maid>) {
    forall ev :: !WorkerStep(s, ev, parents, assets)
  }

  /**
   The running job is about to create its resource and cannot: the process stops at the assertion of the lookup (or all
   indices of the pool are in use).
   */
  predicate Trapped(s: System) { Running(s, Loading) && !Entry(s).handle.template && !CanCreate(s, s.running.value.kind, true) }

  /** The worker stops only when nothing is left to do or at a failing assertion. */
  lemma WorkerNotStuck(s: System, parents: map<Maid, Maid>, assets: set<Maid>)
    requires Inv(s)
    ensures Final(s, parents, assets) <==> Idle(s) || Trapped(s)
  {
    if !Idle(s) && !Trapped(s) {
      var ev := NextStep(s, parents);
      assert WorkerStep(s, ev, parents, assets);
    }
  }

  lemma NextStep(s: System, parents: map<Maid, Maid>) returns (ev: Event)
    requires Inv(s) && !Idle(s) && !Trapped(s)
    ensures ByWorker(ev) && Possible(s, ev) && Follows(s, ev, parents) && (ev.Succeed? ==> ev.deps == [])
  {
    if s.running.None? {
      ev := Begin;
    } else {
      OneJob(s);
      var id := s.running.value;
      assert Jobs(s, id) == 1;
      assert EntryOk(s.pools[id.kind], Entry(s), true);
      if Entry(s).stage == Compiling {
        var next := NextParent(parents, id);
        if id !in parents || !ValidId(parents[id]) || (next.Some? && StageOf(s, next.value) == Loaded) { ev := Prepared; }
        else if next.Some? && StageOf(s, next.value) == Unloaded { ev := AskParent(next.value); }
        else { ev := Fail; HandleCurrent(s); }
      }
      else if Entry(s).handle.template { ev := Succeed([]); }
      else { ev := Compile; }
    }
  }

  /** When it has stopped with nothing left to do, every asset is loaded or unloaded. */
  lemma DrainedMeaning(s: System, id: Maid)
    requires Inv(s) && Idle(s)
    ensures StageOf(s, id) == Loaded || StageOf(s, id) == Unloaded
  {
    assert Jobs(s, id) == 0;
  }

  /** The worker left to itself takes a bounded number of steps, and whenever it can take no more nothing is left to do. */
  ghost predicate Drains(s: System, parents: map<Maid, Maid>, assets: set<Maid>) {
    && (exists bound: nat :: BoundedBy(s, parents, assets, bound))
    && forall events | WorkerRun(s, events, parents, assets) && Final(Run(s, events), parents, assets) :: Idle(Run(s, events))
  }

  ghost predicate BoundedBy(s: System, parents: map<Maid, Maid>, assets: set<Maid>, bound: nat) {
    forall events | WorkerRun(s, events, parents, assets) :: |events| <= bound
  }

  /** When every chain of parents ends, a state drains if and only if no run from it meets a failing assertion. */
  lemma DrainsUnlessTrapped(s: System, parents: map<Maid, Maid>, assets: set<Maid>)
    requires Inv(s) && Kept(s, assets) && ParentsEnd(parents, assets)
    ensures Drains(s, parents, assets) <==> NeverTraps(s, parents, assets)
  {
    forall events | WorkerRun(s, events, parents, assets)
      ensures |events| <= Work(s, parents, assets) && EndsWell(Run(s, events), parents, assets)
    {
      WorkerStops(s, events, parents, assets);
      RunKeepsInv(s, events);
      WorkerNotStuck(Run(s, events), parents, assets);
    }
    assert BoundedBy(s, parents, assets, Work(s, parents, assets));
  }

  ghost predicate EndsWell(s: System, parents: map<Maid, Maid>, assets: set<Maid>) {
    (Final(s, parents, assets) <==> Idle(s) || Trapped(s)) && !(Idle(s) && Trapped(s))
  }

  ghost predicate NeverTraps(s: System, parents: map<Maid, Maid>, assets: set<Maid>) {
    forall events | WorkerRun(s, events, parents, assets) :: !Trapped(Run(s, events))
  }

  // ---------------------------------------------------------------- the slots of a worker left alone

  /** The slots from the first free one on: it has been destroyed `g` times, those behind it were never used. */
  ghost predicate Tidy(slots: seq<R.Slot>, g: nat) {
    && 0 < R.FirstFree(slots) && R.NextGeneration(slots) == g
    && forall j | R.FirstFree(slots) < j < |slots| :: !slots[j].used && slots[j].generation == 0
  }

  lemma FirstFreeIs(slots: seq<R.Slot>, k: nat)
    requires k <= |slots| && (forall j | 0 <= j < k :: slots[j].used) && (k < |slots| ==> !slots[k].used)
    ensures R.FirstFree(slots) == k
  {
  }

  /** Creating a template takes the first free slot, with its generation in the handle. */
  lemma TidyCreate(w: R.World, g: nat)
    requires Tidy(w.pool.templates, g) && g < 256 && R.Possible(w, R.Create(true))
    ensures var k := R.FirstFree(w.pool.templates);
            var slots := R.Step(w, R.Create(true)).pool.templates;
            && R.Created(w.pool, true).1 == R.Eye(k, true, g) && slots[k].generation == g
            && R.FirstFree(slots) == k + 1 && Tidy(slots, 0)
  {
    var k := R.FirstFree(w.pool.templates);
    R.CreatedSlots(w.pool, true);
    FirstFreeIs(R.Step(w, R.Create(true)).pool.templates, k + 1);
  }

  /** Destroying the last used slot frees it again. */
  lemma TidyDestroy(w: R.World, e: R.Eye)
    requires Tidy(w.pool.templates, 0) && e.template && 0 < e.index == R.FirstFree(w.pool.templates) - 1
    requires R.Possible(w, R.Destroy(e)) && w.pool.templates[e.index].generation == e.generation < 256
    ensures var slots := R.Step(w, R.Destroy(e)).pool.templates;
            R.FirstFree(slots) == e.index && Tidy(slots, e.generation + 1)
  {
    FirstFreeIs(R.Step(w, R.Destroy(e)).pool.templates, e.index);
  }

  // ---------------------------------------------------------------- a chain that is too long

  /** One asset is queued and nothing else is going on; the slot it will get has been destroyed `g` times. */
  ghost predicate OnlyQueued(s: System, id: Maid, g: nat) {
    && Inv(s) && s.running == None && s.queue == [id] && id in s.registry && s.registry[id] == NoAsset(id, Loading)
    && (forall j | j in s.registry && j != id :: s.registry[j].stage == Unloaded)
    && id.kind in s.pools && R.FirstFree(s.pools[id.kind].pool.templates) == 1 && Tidy(s.pools[id.kind].pool.templates, g)
  }

  /** The running job waits for the parent it has asked for. */
  predicate Waiting(s: System, parents: map<Maid, Maid>) {
    Running(s, Compiling) && var next := NextParent(parents, s.running.value); next.Some? && StageOf(s, next.value) == Loading
  }

  /** The files can be read: a job fails only for the lack of the parent it waits for. */
  predicate Readable(s: System, ev: Event, parents: map<Maid, Maid>) { ev.Fail? ==> Waiting(s, parents) }

  ghost predicate AllReadable(s: System, events: seq<Event>, parents: map<Maid, Maid>)
    requires AllPossible(s, events)
    decreases |events|
  {
    events == [] || (Readable(s, events[0], parents) && AllReadable(Step(s, events[0]), events[1..], parents))
  }

  /** There is something to do, and one thing only. */
  ghost predicate OnlyWay(s: System, ev: Event, parents: map<Maid, Maid>, assets: set<Maid>) {
    ReadableStep(s, ev, parents, assets) && !Idle(s) && forall other | ReadableStep(s, other, parents, assets) :: other == ev
  }

  ghost predicate ReadableStep(s: System, ev: Event, parents: map<Maid, Maid>, assets: set<Maid>) {
    WorkerStep(s, ev, parents, assets) && Readable(s, ev, parents)
  }

  /** From one state to the other there is one way, and nothing to stop before. */
  ghost predicate Forces(s: System, path: seq<Event>, t: System, parents: map<Maid, Maid>, assets: set<Maid>)
    decreases |path|
  {
    if path == [] then s == t
    else OnlyWay(s, path[0], parents, assets) && Forces(Step(s, path[0]), path[1..], t, parents, assets)
  }

  lemma TwoForced(s: System, a: Event, b: Event, t: System, parents: map<Maid, Maid>, assets: set<Maid>)
    requires OnlyWay(s, a, parents, assets) && OnlyWay(Step(s, a), b, parents, assets) && t == Step(Step(s, a), b)
    ensures Forces(s, [a, b], t, parents, assets)
  {
    assert [a, b][1..] == [b] && [b][1..] == [];
    assert Forces(t, [], t, parents, assets) && Forces(Step(s, a), [b], t, parents, assets);
  }

  lemma {:induction false} ForcesJoin(s: System, path: seq<Event>, t: System, more: seq<Event>, u: System,
        parents: map<Maid, Maid>, assets: set<Maid>)
    requires Forces(s, path, t, parents, assets) && Forces(t, more, u, parents, assets)
    ensures Forces(s, path + more, u, parents, assets)
    decreases |path|
  {
    if path == [] {
      assert path + more == more;
    } else {
      assert (path + more)[0] == path[0] && (path + more)[1..] == path[1..] + more;
      ForcesJoin(Step(s, path[0]), path[1..], t, more, u, parents, assets);
    }
  }

  /** Every run of readable files goes that way. */
  lemma {:induction false} ForcesAll(s: System, path: seq<Event>, t: System, events: seq<Event>, parents: map<Maid, Maid>, assets: set<Maid>)
    requires Forces(s, path, t, parents, assets) && Stopped(t, parents, assets)
    requires WorkerRun(s, events, parents, assets) && AllReadable(s, events, parents)
    ensures StopsAfter(Run(s, events), |events|, |path|, parents, assets)
    decreases |path|
  {
    if events != [] {
      assert ReadableStep(s, events[0], parents, assets);
      assert path != [];
      ForcesAll(Step(s, path[0]), path[1..], t, events[1..], parents, assets);
    }
  }

  /** After `k` steps there is something left to do; it is `total` steps until the process stops. */
  ghost predicate StopsAfter(s: System, k: nat, total: nat, parents: map<Maid, Maid>, assets: set<Maid>) {
    !Idle(s) && k <= total && (Final(s, parents, assets) <==> k == total) && (k == total ==> Trapped(s))
  }

  /** And there is such a run. */
  lemma {:induction false} ForcesRun(s: System, path: seq<Event>, t: System, parents: map<Maid, Maid>, assets: set<Maid>)
    requires Forces(s, path, t, parents, assets)
    ensures WorkerRun(s, path, parents, assets) && AllReadable(s, path, parents) && Run(s, path) == t
    decreases |path|
  {
    if path != [] { ForcesRun(Step(s, path[0]), path[1..], t, parents, assets); }
  }

  /** What a worker can do while a job waits, is about to compile, may ask for its parent, or has asked. */
  lemma NothingElse(s: System, ev: Event, parents: map<Maid, Maid>, assets: set<Maid>)
    requires ReadableStep(s, ev, parents, assets)
    ensures s.running.None? ==> ev == Begin
    ensures Running(s, Loading) && !Entry(s).handle.template ==> ev == Compile
    ensures Running(s, Compiling) && NextParent(parents, s.running.value).Some? ==>
              var next := NextParent(parents, s.running.value).value;
              (StageOf(s, next) == Unloaded ==> ev == AskParent(next))
    ensures Waiting(s, parents) ==> ev == Fail
  {
  }

  lemma Forced(s: System, ev: Event, parents: map<Maid, Maid>, assets: set<Maid>)
    requires WorkerStep(s, ev, parents, assets)
    requires match ev
             case Begin => s.running.None?
             case Compile => true
             case AskParent(next) => true
             case Fail => Waiting(s, parents)
             case _ => false
    ensures OnlyWay(s, ev, parents, assets)
  {
    forall other | ReadableStep(s, other, parents, assets) ensures other == ev { NothingElse(s, other, parents, assets); }
  }

  /** One asset is on the worker and nothing else is going on. */
  ghost predicate OnlyRunning(s: System, id: Maid) {
    && s.running == Some(id) && s.queue == [] && id in s.registry && id.kind in s.pools
    && forall j | j in s.registry && j != id :: s.registry[j].stage == Unloaded
  }

  lemma BeginForced(s: System, id: Maid, g: nat, parents: map<Maid, Maid>, assets: set<Maid>)
    requires OnlyQueued(s, id, g)
    ensures OnlyWay(s, Begin, parents, assets)
    ensures var t := Step(s, Begin); Inv(t) && OnlyRunning(t, id) && t.registry == s.registry && t.pools == s.pools
  {
    Forced(s, Begin, parents, assets);
    BeginKeepsInv(s);
  }

  lemma CompileForced(s: System, id: Maid, g: nat, parents: map<Maid, Maid>, assets: set<Maid>)
    requires Inv(s) && OnlyRunning(s, id) && s.registry[id] == NoAsset(id, Loading) && g < 256
    requires R.FirstFree(s.pools[id.kind].pool.templates) == 1 && Tidy(s.pools[id.kind].pool.templates, g)
    ensures OnlyWay(s, Compile, parents, assets)
    ensures var t := Step(s, Compile);
            && Inv(t) && OnlyRunning(t, id) && t.registry[id].stage == Compiling && t.registry[id].handle == R.Eye(1, true, g)
            && LastUsed(t, id, g)
  {
    CanCreateExact(s, id.kind, true);
    Forced(s, Compile, parents, assets);
    CompileKeepsInv(s);
    CompileSlot(s, id, g);
  }

  lemma CompileSlot(s: System, id: Maid, g: nat)
    requires Possible(s, Compile) && s.running == Some(id) && g < 256
    requires R.FirstFree(s.pools[id.kind].pool.templates) == 1 && Tidy(s.pools[id.kind].pool.templates, g)
    ensures var t := Step(s, Compile); t.registry[id].handle == R.Eye(1, true, g) && id.kind in t.pools && LastUsed(t, id, g)
  {
    TidyCreate(s.pools[id.kind], g);
  }

  lemma FailSlot(s: System, id: Maid, g: nat)
    requires Possible(s, Fail) && s.running == Some(id) && id.kind in s.pools && g < 256
    requires s.registry[id].handle == R.Eye(1, true, g) && LastUsed(s, id, g)
    ensures var slots := Step(s, Fail).pools[id.kind].pool.templates; R.FirstFree(slots) == 1 && Tidy(slots, g + 1)
  {
    TidyDestroy(s.pools[id.kind], s.registry[id].handle);
  }

  /** The slot of the asset is the last one in use. */
  ghost predicate LastUsed(s: System, id: Maid, g: nat)
    requires id.kind in s.pools
  {
    var slots := s.pools[id.kind].pool.templates;
    R.FirstFree(slots) == 2 && Tidy(slots, 0) && slots[1].generation == g
  }

  /** The running asset has asked for its parent. */
  ghost predicate Asked(s: System, id: Maid, next: Maid) {
    && id != next && id.kind == next.kind && s.running == Some(id) && s.queue == [next] && id in s.registry && next in s.registry
    && id.kind in s.pools && s.registry[id].stage == Compiling && s.registry[next] == NoAsset(next, Loading)
    && forall j | j in s.registry && j != id && j != next :: s.registry[j].stage == Unloaded
  }

  lemma AskForced(s: System, id: Maid, next: Maid, parents: map<Maid, Maid>, assets: set<Maid>)
    requires OnlyRunning(s, id) && s.registry[id].stage == Compiling && NextParent(parents, id) == Some(next)
    ensures OnlyWay(s, AskParent(next), parents, assets) && Step(s, AskParent(next)) == Enqueued(s, next)
    ensures Asked(Enqueued(s, next), id, next)
  {
    Forced(s, AskParent(next), parents, assets);
  }

  lemma FailForced(s: System, id: Maid, next: Maid, parents: map<Maid, Maid>, assets: set<Maid>)
    requires Inv(s) && Asked(s, id, next) && NextParent(parents, id) == Some(next)
    ensures OnlyWay(s, Fail, parents, assets) && Inv(Step(s, Fail))
  {
    assert EntryOk(s.pools[id.kind], Entry(s), true);
    HandleCurrent(s);
    Forced(s, Fail, parents, assets);
    FailKeepsInv(s);
  }

  lemma FailLeaves(s: System, id: Maid, next: Maid, g: nat)
    requires Asked(s, id, next) && Possible(s, Fail) && Inv(Step(s, Fail)) && g < 256
    requires s.registry[id].handle == R.Eye(1, true, g) && LastUsed(s, id, g)
    ensures OnlyQueued(Step(s, Fail), next, g + 1)
  {
    FailSlot(s, id, g);
  }

  lemma AskedFails(s: System, id: Maid, next: Maid, g: nat, parents: map<Maid, Maid>, assets: set<Maid>)
    requires Inv(s) && Asked(s, id, next) && NextParent(parents, id) == Some(next) && g < 256
    requires s.registry[id].handle == R.Eye(1, true, g) && LastUsed(s, id, g)
    ensures OnlyWay(s, Fail, parents, assets) && OnlyQueued(Step(s, Fail), next, g + 1)
  {
    FailForced(s, id, next, parents, assets);
    FailLeaves(s, id, next, g);
  }

  lemma RoundEnds(s: System, id: Maid, next: Maid, g: nat, parents: map<Maid, Maid>, assets: set<Maid>) returns (t: System)
    requires Inv(s) && OnlyRunning(s, id) && s.registry[id].stage == Compiling && NextParent(parents, id) == Some(next) && g < 256
    requires s.registry[id].handle == R.Eye(1, true, g) && LastUsed(s, id, g)
    ensures Forces(s, [AskParent(next), Fail], t, parents, assets) && OnlyQueued(t, next, g + 1)
  {
    AskForced(s, id, next, parents, assets);
    EnqueueKeepsInv(s, next);
    AskedFails(Enqueued(s, next), id, next, g, parents, assets);
    t := Step(Enqueued(s, next), Fail);
    TwoForced(s, AskParent(next), Fail, t, parents, assets);
  }

  lemma RoundBegins(s: System, id: Maid, g: nat, parents: map<Maid, Maid>, assets: set<Maid>) returns (t: System)
    requires OnlyQueued(s, id, g) && g < 256
    ensures Forces(s, [Begin, Compile], t, parents, assets)
    ensures Inv(t) && OnlyRunning(t, id) && t.registry[id].stage == Compiling && t.registry[id].handle == R.Eye(1, true, g) && LastUsed(t, id, g)
  {
    BeginForced(s, id, g, parents, assets);
    CompileForced(Step(s, Begin), id, g, parents, assets);
    t := Step(Step(s, Begin), Compile);
    TwoForced(s, Begin, Compile, t, parents, assets);
  }

  /**
   One job that asks for its parent. If the files can be read nothing else can happen: the parent is queued, nothing
   else is going on, and the slot has been destroyed once more.
   */
  lemma ParentRound(s: System, id: Maid, g: nat, parents: map<Maid, Maid>, assets: set<Maid>) returns (t: System)
    requires OnlyQueued(s, id, g) && g < 256 && NextParent(parents, id).Some?
    ensures var next := NextParent(parents, id).value;
            Forces(s, [Begin, Compile] + [AskParent(next), Fail], t, parents, assets) && OnlyQueued(t, next, g + 1)
  {
    var next := NextParent(parents, id).value;
    var mid := RoundBegins(s, id, g, parents, assets);
    t := RoundEnds(mid, id, next, g, parents, assets);
    ForcesJoin(s, [Begin, Compile], mid, [AskParent(next), Fail], t, parents, assets);
  }

  /** The slot to be given out has been destroyed 256 times: the process stops. */
  lemma WornTraps(s: System, id: Maid, parents: map<Maid, Maid>, assets: set<Maid>)
    requires OnlyQueued(s, id, 256)
    ensures var t := Step(s, Begin); Forces(s, [Begin], t, parents, assets) && Stopped(t, parents, assets)
  {
    BeginForced(s, id, 256, parents, assets);
    var t := Step(s, Begin);
    assert Forces(t, [], t, parents, assets) && [Begin][1..] == [];
    CanCreateExact(t, id.kind, true);
    WorkerNotStuck(t, parents, assets);
  }

  ghost predicate Stopped(s: System, parents: map<Maid, Maid>, assets: set<Maid>) {
    Trapped(s) && Final(s, parents, assets) && !Idle(s)
  }

  /** A chain of parents that is longer than what is left of the slot wears it out. */
  lemma {:induction false} WornOutByChain(s: System, id: Maid, g: nat, parents: map<Maid, Maid>, assets: set<Maid>)
    returns (path: seq<Event>, t: System)
    requires OnlyQueued(s, id, g) && g <= 256 && (g < 256 ==> !Ends(parents, id, 255 - g))
    ensures |path| == 4 * (256 - g) + 1 && Forces(s, path, t, parents, assets) && Stopped(t, parents, assets)
    decreases 256 - g
  {
    if g == 256 {
      WornTraps(s, id, parents, assets);
      path, t := [Begin], Step(s, Begin);
    } else {
      var next := NextParent(parents, id).value;
      var mid := ParentRound(s, id, g, parents, assets);
      var round := [Begin, Compile] + [AskParent(next), Fail];
      path, t := WornOutByChain(mid, next, g + 1, parents, assets);
      ForcesJoin(s, round, mid, path, t, parents, assets);
      path := round + path;
    }
  }

  /** The first request. */
  lemma FirstRequest(s: System, id: Maid)
    requires Fresh(s) && ValidId(id) && id.kind in s.pools
    ensures OnlyQueued(Step(s, Request([id])), id, 0)
    ensures var t := Step(s, Request([id])); t.pools == s.pools && t.registry.Keys == {id}
  {
    FreshInv(s);
    RequestKeepsInv(s, [id]);
    FreshTidy();
  }

  lemma FreshTidy()
    ensures R.FirstFree(R.Initial().templates) == 1 && Tidy(R.Initial().templates, 0)
  {
    FirstFreeIs(R.Initial().templates, 1);
  }

  /**
   After a first request for an asset whose chain of parents does not end within 255 links, the worker never gets to an
   end as long as the files can be read: every job fails for the lack of its parent, until the 257th stops at the
   assertion of the lookup.
   */
  lemma LongChainTraps(s: System, id: Maid, events: seq<Event>, parents: map<Maid, Maid>, assets: set<Maid>)
    requires Fresh(s) && ValidId(id) && id.kind in s.pools && !Ends(parents, id, 255)
    requires WorkerRun(Step(s, Request([id])), events, parents, assets)
    requires AllReadable(Step(s, Request([id])), events, parents)
    ensures StopsAfter(Run(Step(s, Request([id])), events), |events|, 4 * 256 + 1, parents, assets)
  {
    FirstRequest(s, id);
    var t := Step(s, Request([id]));
    var path, u := WornOutByChain(t, id, 0, parents, assets);
    ForcesAll(t, path, u, events, parents, assets);
  }

  /** Two assets that name each other as parents are such a case. */
  lemma CyclicParents(s: System, a: Maid, b: Maid, events: seq<Event>)
    requires Fresh(s) && ValidId(a) && ValidId(b) && a != b && a.kind == b.kind && a.kind in s.pools
    requires WorkerRun(Step(s, Request([a])), events, map[a := b, b := a], {a, b})
    requires AllReadable(Step(s, Request([a])), events, map[a := b, b := a])
    ensures StopsAfter(Run(Step(s, Request([a])), events), |events|, 4 * 256 + 1, map[a := b, b := a], {a, b})
  {
    var parents := map[a := b, b := a];
    NoEnd(parents, a, b, 255);
    LongChainTraps(s, a, events, parents, {a, b});
  }

  lemma {:induction false} NoEnd(parents: map<Maid, Maid>, a: Maid, b: Maid, n: nat)
    requires NextParent(parents, a) == Some(b) && NextParent(parents, b) == Some(a)
    ensures !Ends(parents, a, n)
    decreases n
  {
    if n > 0 { NoEnd(parents, b, a, n - 1); }
  }

  // ---------------------------------------------------------------- chains that are short enough

  /** The job that has no handle yet. */
  function Due(s: System): Option<Maid> {
    if s.running.None? then (if s.queue == [] then None else Some(s.queue[0]))
    else if s.running.value in s.registry && Entry(s).handle.template then None else s.running
  }

  predicate Holding(s: System) { s.running.Some? && s.running.value in s.registry && Entry(s).handle.template }

  /** Used slots are those of loaded assets and of the running job; the next slot of the job ahead has been destroyed `g` times. */
  ghost predicate PoolTidy(s: System, kind: nat, g: nat, assets: set<Maid>)
    requires kind in s.pools
  {
    var slots := s.pools[kind].pool.templates;
    && Tidy(slots, if Due(s).Some? && Due(s).value.kind == kind then g else 0)
    && R.FirstFree(slots) + |NotLoaded(s, assets)| <= |assets| + 1 + if Holding(s) && s.running.value.kind == kind then 1 else 0
  }

  /** There is one job, or a job and its parent; what is left of the chain fits what is left of the slot. */
  ghost predicate JobAhead(s: System, g: nat, parents: map<Maid, Maid>)
    requires g <= 255
  {
    && (s.running.None? ==> |s.queue| <= 1)
    && (s.running.Some? ==> s.queue == [] || (Running(s, Compiling) && |s.queue| == 1 && NextParent(parents, s.running.value) == Some(s.queue[0])))
    && (Due(s).Some? ==> Ends(parents, Due(s).value, 255 - g))
    && (Holding(s) ==>
          && Ends(parents, s.running.value, 255 - g) && s.running.value.kind in s.pools && Entry(s).handle.generation == g
          && Entry(s).handle.index + 1 == R.FirstFree(s.pools[s.running.value.kind].pool.templates))
  }

  ghost predicate AllTidy(s: System, g: nat, assets: set<Maid>) {
    forall kind | kind in s.pools :: PoolTidy(s, kind, g, assets)
  }

  ghost predicate Smooth(s: System, g: nat, parents: map<Maid, Maid>, assets: set<Maid>)
    requires g <= 255
  {
    Idle(s) || (JobAhead(s, g, parents) && AllTidy(s, g, assets))
  }

  /** No chain of parents is longer than 255 links. */
  ghost predicate ShortChains(parents: map<Maid, Maid>, assets: set<Maid>) {
    forall id | id in assets :: Ends(parents, id, 255) && (NextParent(parents, id).Some? ==> NextParent(parents, id).value in assets)
  }

  lemma ShortEnds(parents: map<Maid, Maid>, assets: set<Maid>)
    requires ShortChains(parents, assets)
    ensures ParentsEnd(parents, assets)
  {
    forall id | id in assets ensures Ends(parents, id, |parents|) { EndsSoon(parents, id, 255); }
  }

  /** A job that is due finds a slot that can be given out. */
  lemma SmoothNotTrapped(s: System, g: nat, parents: map<Maid, Maid>, assets: set<Maid>)
    requires g <= 255 && Inv(s) && Kept(s, assets) && Smooth(s, g, parents, assets) && |assets| < R.INDEX_UNITS
    ensures !Trapped(s)
  {
    if Running(s, Loading) && !Entry(s).handle.template {
      OneJob(s);
      var id := s.running.value;
      assert PoolTidy(s, id.kind, g, assets);
      assert id in NotLoaded(s, assets);
      assert |NotLoaded(s, assets)| > 0;
      CanCreateExact(s, id.kind, true);
    }
  }

  lemma SmoothBegin(s: System, g: nat, parents: map<Maid, Maid>, assets: set<Maid>)
    requires g <= 255 && Smooth(s, g, parents, assets) && Possible(s, Begin) && s.queue[0] in s.registry
    requires !s.registry[s.queue[0]].handle.template
    ensures Smooth(Step(s, Begin), g, parents, assets)
  {
    var t := Step(s, Begin);
    assert NotLoaded(t, assets) == NotLoaded(s, assets);
    forall kind | kind in t.pools ensures PoolTidy(t, kind, g, assets) { assert PoolTidy(s, kind, g, assets); }
  }

  lemma SmoothCompile(s: System, g: nat, parents: map<Maid, Maid>, assets: set<Maid>)
    requires g <= 255 && Smooth(s, g, parents, assets) && Possible(s, Compile)
    ensures Smooth(Step(s, Compile), g, parents, assets)
  {
    assert PoolTidy(s, s.running.value.kind, g, assets);
    CompileAhead(s, g, parents, assets);
    forall kind | kind in s.pools ensures PoolTidy(Step(s, Compile), kind, g, assets) { CompilePool(s, kind, g, assets); }
  }

  lemma CompileAhead(s: System, g: nat, parents: map<Maid, Maid>, assets: set<Maid>)
    requires g <= 255 && JobAhead(s, g, parents) && Possible(s, Compile) && PoolTidy(s, s.running.value.kind, g, assets)
    ensures JobAhead(Step(s, Compile), g, parents)
  {
    TidyCreate(s.pools[s.running.value.kind], g);
  }

  lemma CompilePool(s: System, kind: nat, g: nat, assets: set<Maid>)
    requires g <= 255 && Possible(s, Compile) && kind in s.pools && PoolTidy(s, kind, g, assets)
    ensures PoolTidy(Step(s, Compile), kind, g, assets)
  {
    if kind == s.running.value.kind { TidyCreate(s.pools[kind], g); }
    assert NotLoaded(Step(s, Compile), assets) == NotLoaded(s, assets);
  }

  lemma SmoothAsk(s: System, g: nat, parent: Maid, parents: map<Maid, Maid>, assets: set<Maid>)
    requires g <= 255 && Smooth(s, g, parents, assets) && Possible(s, AskParent(parent)) && Follows(s, AskParent(parent), parents)
    requires Entry(s).handle.template && s.queue == [] && s.running.value != parent
    ensures Smooth(Step(s, AskParent(parent)), g, parents, assets)
  {
    var t := Step(s, AskParent(parent));
    assert t == Enqueued(s, parent);
    assert NotLoaded(t, assets) == NotLoaded(s, assets);
    forall kind | kind in t.pools ensures PoolTidy(t, kind, g, assets) { assert PoolTidy(s, kind, g, assets); }
  }

  lemma SmoothPrepared(s: System, g: nat, parents: map<Maid, Maid>, assets: set<Maid>)
    requires g <= 255 && Smooth(s, g, parents, assets) && Possible(s, Prepared)
    requires Entry(s).handle.template && s.queue == []
    ensures Smooth(Step(s, Prepared), g, parents, assets)
  {
    assert JobAhead(Step(s, Prepared), g, parents);
    forall kind | kind in s.pools ensures PoolTidy(Step(s, Prepared), kind, g, assets) { PreparedPool(s, kind, g, assets); }
  }

  lemma PreparedPool(s: System, kind: nat, g: nat, assets: set<Maid>)
    requires Possible(s, Prepared) && Entry(s).handle.template && kind in s.pools && PoolTidy(s, kind, g, assets)
    ensures PoolTidy(Step(s, Prepared), kind, g, assets)
  {
    assert NotLoaded(Step(s, Prepared), assets) == NotLoaded(s, assets);
  }

  /** A failed job has worn its slot and gone one link down the chain, or left nothing to do. */
  lemma SmoothFail(s: System, g: nat, parents: map<Maid, Maid>, assets: set<Maid>) returns (h: nat)
    requires g <= 255 && Smooth(s, g, parents, assets) && Possible(s, Fail) && LastGeneration(s)
    requires s.queue != [] ==> s.running.value != s.queue[0] && s.queue[0] in s.registry && StageOf(s, s.queue[0]) == Loading
    ensures h <= 255 && Smooth(Step(s, Fail), h, parents, assets)
  {
    h := 0;
    if s.queue != [] {
      h := g + 1;
      assert JobAhead(Step(s, Fail), h, parents);
      forall kind | kind in s.pools ensures PoolTidy(Step(s, Fail), kind, h, assets) { FailPool(s, kind, g, parents, assets); }
    }
  }

  predicate LastGeneration(s: System)
    requires s.running.Some? && s.running.value in s.registry && CanDestroy(s, s.running.value.kind, Entry(s).handle)
  {
    var e := Entry(s).handle;
    e.template && 0 < e.index && s.pools[s.running.value.kind].pool.templates[e.index].generation == e.generation
  }

  lemma FailPool(s: System, kind: nat, g: nat, parents: map<Maid, Maid>, assets: set<Maid>)
    requires g < 255 && JobAhead(s, g, parents) && Possible(s, Fail) && LastGeneration(s) && |s.queue| == 1
    requires s.queue[0].kind == s.running.value.kind && kind in s.pools && PoolTidy(s, kind, g, assets)
    ensures PoolTidy(Step(s, Fail), kind, g + 1, assets)
  {
    if kind == s.running.value.kind { TidyDestroy(s.pools[kind], Entry(s).handle); }
    assert NotLoaded(Step(s, Fail), assets) == NotLoaded(s, assets);
  }

  /** A finished job keeps its slot, so what it leads to starts with a fresh one. */
  lemma SmoothSucceed(s: System, g: nat, t: System, parents: map<Maid, Maid>, assets: set<Maid>)
    requires g <= 255 && Smooth(s, g, parents, assets) && Holding(s) && ShortChains(parents, assets)
    requires t.running == None && t.pools == s.pools && |NotLoaded(s, assets)| == |NotLoaded(t, assets)| + 1
    requires t.queue == [] || (|t.queue| == 1 && t.queue[0] in assets)
    ensures Smooth(t, 0, parents, assets)
  {
    forall kind | kind in t.pools ensures PoolTidy(t, kind, 0, assets) { assert PoolTidy(s, kind, g, assets); }
  }

  lemma SucceedLeaves(s: System, g: nat, deps: seq<Maid>, parents: map<Maid, Maid>, assets: set<Maid>)
    requires g <= 255 && JobAhead(s, g, parents) && Kept(s, assets) && WorkerStep(s, Succeed(deps), parents, assets) && ParentsEnd(parents, assets)
    ensures var t := Step(s, Succeed(deps));
            && t.running == None && t.pools == s.pools && |NotLoaded(s, assets)| == |NotLoaded(t, assets)| + 1
            && (t.queue == [] || (|t.queue| == 1 && t.queue[0] in assets))
  {
    RequestMeaning(s, deps);
    SucceedKeeps(s, deps, parents, assets);
  }

  /** The running job has a handle when it compiles, and the parent it has asked for waits behind it. */
  predicate JobSound(s: System) {
    s.running.Some? ==>
      && s.running.value in s.registry && (Running(s, Compiling) ==> Holding(s))
      && (Holding(s) ==> CanDestroy(s, s.running.value.kind, Entry(s).handle) && LastGeneration(s))
      && (s.queue != [] ==> s.queue[0] in s.registry && StageOf(s, s.queue[0]) == Loading && s.running.value != s.queue[0])
  }

  lemma SoundJob(s: System, g: nat, parents: map<Maid, Maid>)
    requires g <= 255 && Inv(s) && JobAhead(s, g, parents)
    ensures JobSound(s)
  {
    if s.running.Some? {
      RunningJob(s);
      if s.queue != [] { AskedParent(s); }
    }
  }

  lemma RunningJob(s: System)
    requires Inv(s) && s.running.Some?
    ensures s.running.value in s.registry && (Running(s, Compiling) ==> Holding(s))
    ensures Holding(s) ==> CanDestroy(s, s.running.value.kind, Entry(s).handle) && LastGeneration(s)
  {
    OneJob(s);
    assert EntryOk(s.pools[s.running.value.kind], Entry(s), true);
    if Holding(s) { HandleCurrent(s); assert R.Good(s.pools[s.running.value.kind]); }
  }

  lemma AskedParent(s: System)
    requires EntriesOk(s) && JobsOk(s) && s.running.Some? && |s.queue| == 1
    ensures s.queue[0] in s.registry && StageOf(s, s.queue[0]) == Loading && s.running.value != s.queue[0]
  {
    var next := s.queue[0];
    assert s.queue == [next];
    assert Jobs(s, next) == 1 + if s.running == Some(next) then 1 else 0;
    assert EntryOk(s.pools[next.kind], s.registry[next], s.running == Some(next));
  }

  lemma SmoothWork(s: System, g: nat, ev: Event, parents: map<Maid, Maid>, assets: set<Maid>) returns (h: nat)
    requires g <= 255 && Smooth(s, g, parents, assets) && WorkerStep(s, ev, parents, assets) && !ev.Begin? && !ev.Succeed?
    requires JobSound(s)
    ensures h <= 255 && Smooth(Step(s, ev), h, parents, assets)
  {
    h := g;
    match ev
    case Compile => SmoothCompile(s, g, parents, assets);
    case AskParent(parent) => SmoothAsk(s, g, parent, parents, assets);
    case Prepared => SmoothPrepared(s, g, parents, assets);
    case Fail => h := SmoothFail(s, g, parents, assets);
  }

  lemma WorkerKeeps(s: System, ev: Event, parents: map<Maid, Maid>, assets: set<Maid>)
    requires Inv(s) && Kept(s, assets) && WorkerStep(s, ev, parents, assets) && ParentsEnd(parents, assets)
    ensures Inv(Step(s, ev)) && Kept(Step(s, ev), assets)
  {
    StepKeepsInv(s, ev);
    assert [ev][1..] == [];
    WorkDecreases(s, ev, parents, assets);
  }

  lemma SmoothStep(s: System, g: nat, ev: Event, parents: map<Maid, Maid>, assets: set<Maid>) returns (h: nat)
    requires g <= 255 && Inv(s) && Kept(s, assets) && Smooth(s, g, parents, assets)
    requires WorkerStep(s, ev, parents, assets) && ShortChains(parents, assets)
    ensures h <= 255 && Inv(Step(s, ev)) && Kept(Step(s, ev), assets) && Smooth(Step(s, ev), h, parents, assets)
  {
    ShortEnds(parents, assets);
    WorkerKeeps(s, ev, parents, assets);
    match ev
    case Begin =>
      h := g;
      BeginKeepsInv(s);
      SmoothBegin(s, g, parents, assets);
    case Succeed(deps) =>
      h := 0;
      SucceedLeaves(s, g, deps, parents, assets);
      SmoothSucceed(s, g, Step(s, ev), parents, assets);
    case _ =>
      SoundJob(s, g, parents);
      h := SmoothWork(s, g, ev, parents, assets);
  }

  lemma {:induction false} SmoothRun(s: System, g: nat, events: seq<Event>, parents: map<Maid, Maid>, assets: set<Maid>)
    requires g <= 255 && Inv(s) && Kept(s, assets) && Smooth(s, g, parents, assets)
    requires ShortChains(parents, assets) && |assets| < R.INDEX_UNITS
    requires WorkerRun(s, events, parents, assets)
    ensures !Trapped(Run(s, events))
    decreases |events|
  {
    if events == [] {
      SmoothNotTrapped(s, g, parents, assets);
    } else {
      var h := SmoothStep(s, g, events[0], parents, assets);
      SmoothRun(Step(s, events[0]), h, events[1..], parents, assets);
    }
  }

  lemma SmoothFirst(s: System, id: Maid, parents: map<Maid, Maid>, assets: set<Maid>)
    requires Fresh(s) && ValidId(id) && id.kind in s.pools && id in assets && ShortChains(parents, assets)
    ensures var t := Step(s, Request([id])); Inv(t) && Kept(t, assets) && Smooth(t, 0, parents, assets)
  {
    FirstRequest(s, id);
    var t := Step(s, Request([id]));
    InvStages(t);
    FreshTidy();
    SubsetSize(NotLoaded(t, assets), assets);
    forall kind | kind in t.pools ensures PoolTidy(t, kind, 0, assets) {}
  }

  /**
   From the start, after a request for any of the assets, the worker left to itself drains the queue if and only if
   no chain of parents has more than 255 links.
   */
  lemma DrainsExactly(s: System, parents: map<Maid, Maid>, assets: set<Maid>)
    requires Fresh(s) && (forall id | id in assets :: ValidId(id) && id.kind in s.pools) && |assets| < R.INDEX_UNITS
    requires forall id | id in assets && NextParent(parents, id).Some? :: NextParent(parents, id).value in assets
    ensures (forall id | id in assets :: Drains(Step(s, Request([id])), parents, assets))
            <==> (forall id | id in assets :: Ends(parents, id, 255))
  {
    if ShortChains(parents, assets) {
      forall id | id in assets ensures Drains(Step(s, Request([id])), parents, assets) { ShortChainsDrain(s, id, parents, assets); }
    }
    forall id | id in assets && !Ends(parents, id, 255) ensures !Drains(Step(s, Request([id])), parents, assets) {
      LongChainStays(s, id, parents, assets);
    }
  }

  lemma ShortChainsDrain(s: System, id: Maid, parents: map<Maid, Maid>, assets: set<Maid>)
    requires Fresh(s) && ValidId(id) && id.kind in s.pools && id in assets && ShortChains(parents, assets) && |assets| < R.INDEX_UNITS
    ensures Drains(Step(s, Request([id])), parents, assets)
  {
    SmoothFirst(s, id, parents, assets);
    ShortEnds(parents, assets);
    var t := Step(s, Request([id]));
    forall events | WorkerRun(t, events, parents, assets) ensures !Trapped(Run(t, events)) {
      SmoothRun(t, 0, events, parents, assets);
    }
    DrainsUnlessTrapped(t, parents, assets);
  }

  lemma LongChainStays(s: System, id: Maid, parents: map<Maid, Maid>, assets: set<Maid>)
    requires Fresh(s) && ValidId(id) && id.kind in s.pools && !Ends(parents, id, 255)
    ensures !Drains(Step(s, Request([id])), parents, assets)
  {
    FirstRequest(s, id);
    var t := Step(s, Request([id]));
    var path, u := WornOutByChain(t, id, 0, parents, assets);
    ForcesStay(t, path, u, parents, assets);
  }

  lemma ForcesStay(s: System, path: seq<Event>, t: System, parents: map<Maid, Maid>, assets: set<Maid>)
    requires Forces(s, path, t, parents, assets) && Stopped(t, parents, assets)
    ensures !Drains(s, parents, assets)
  {
    ForcesRun(s, path, t, parents, assets);
  }

  // ---------------------------------------------------------------- the longest chain that drains

  /** Asset `k` names asset `k - 1`. */
  function Ladder(n: nat): map<Maid, Maid> { map m: Maid | m in Rungs(n) && 0 < m.id :: Maid(m.id - 1, 1) }

  function Rungs(n: nat): set<Maid> { set k: nat | k <= n :: Maid(k, 1) }

  lemma {:induction false} LadderEnds(n: nat, k: nat, m: nat)
    requires k <= n < 0xFFFF_FFFF
    ensures NextParent(Ladder(n), Maid(k, 1)) == if k == 0 then None else Some(Maid(k - 1, 1))
    ensures Ends(Ladder(n), Maid(k, 1), m) <==> k <= m
    decreases k
  {
    assert Maid(k, 1) in Rungs(n);
    if k > 0 && m > 0 { LadderEnds(n, k - 1, m - 1); }
  }

  lemma {:induction false} RungCount(n: nat)
    ensures |Rungs(n)| == n + 1
    decreases n
  {
    if n == 0 {
      assert Rungs(0) == {Maid(0, 1)};
    } else {
      RungCount(n - 1);
      assert Rungs(n) == Rungs(n - 1) + {Maid(n, 1)};
    }
  }

  /** A chain of 255 links drains; one of 256 links, which ends as well, does not. */
  lemma LongestChain(s: System)
    requires Fresh(s) && 1 in s.pools
    ensures Drains(Step(s, Request([Maid(255, 1)])), Ladder(255), Rungs(255))
    ensures !Drains(Step(s, Request([Maid(256, 1)])), Ladder(256), Rungs(256))
    ensures Ends(Ladder(256), Maid(256, 1), 256)
  {
    forall id | id in Rungs(255)
      ensures Ends(Ladder(255), id, 255) && (NextParent(Ladder(255), id).Some? ==> NextParent(Ladder(255), id).value in Rungs(255))
    {
      LadderEnds(255, id.id, 255);
    }
    RungCount(255);
    ShortChainsDrain(s, Maid(255, 1), Ladder(255), Rungs(255));
    LadderEnds(256, 256, 256);
    LadderEnds(256, 256, 255);
    LongChainStays(s, Maid(256, 1), Ladder(256), Rungs(256));
  }
}
