/**
 The asset load machine: a registry of template assets, a queue of compiler jobs served by one worker, and
 one resource pool per asset type that has a loader.
 */
module AssetMachine {

  import opened Common
  import R = ResourcePool

  datatype Maid = Maid(id: nat, kind: nat)

  predicate ValidId(m: Maid) { m.id != 0xFFFF_FFFF && 0 < m.kind < 7 }

  datatype Stage = Unloaded | Loading | Compiling | Loaded

  /** A registry entry; `content` is the shared pointer to the pool's object. */
  datatype Asset = Asset(id: Maid, handle: R.Eye, stage: Stage, content: Option<nat>)

  function NoAsset(id: Maid, stage: Stage): Asset { Asset(id, R.EYE_INVALID, stage, None) }

  /** `running` is the job on the worker; a type is in `pools` when it has a loader. */
  datatype System = System(registry: map<Maid, Asset>, queue: seq<Maid>, running: Option<Maid>, pools: map<nat, R.World>)

  function StageOf(s: System, id: Maid): Stage { if id in s.registry then s.registry[id].stage else Unloaded }

  predicate InProgress(st: Stage) { st == Loading || st == Compiling }

  function With(s: System, id: Maid, a: Asset): System { s.(registry := s.registry[id := a]) }

  // ---------------------------------------------------------------- steps

  function Enqueued(s: System, id: Maid): System {
    With(s, id, NoAsset(id, Loading)).(queue := s.queue + [id])
  }

  /** A request returns with the first job it enqueues. */
  function Requested(s: System, ids: seq<Maid>): (System, Option<Maid>)
    decreases |ids|
  {
    if ids == [] || ids[0].kind !in s.pools then (s, None)
    else if StageOf(s, ids[0]) == Unloaded then (Enqueued(s, ids[0]), Some(ids[0]))
    else Requested(s, ids[1..])
  }

  /**
   What can happen, one step at a time. The worker's job goes through `Begin`, `Compile`, and then `Fail`, or
   `Prepared` followed by `Fail` or `Succeed`. While it compiles it requests the parent that the file names
   (`AskParent`, when that makes a difference). The other events come from outside at any time.
   */
  datatype Event =
    | Request(ids: seq<Maid>)
    | Begin
    | Compile
    | AskParent(parent: Maid)
    | Prepared
    | Fail
    | Succeed(deps: seq<Maid>)
    | Unload(id: Maid, handle: R.Eye)
    | CreateAsset(id: Maid, template: bool)

  predicate Running(s: System, st: Stage) {
    s.running.Some? && s.running.value in s.registry && s.registry[s.running.value].stage == st
  }

  function Entry(s: System): Asset
    requires s.running.Some? && s.running.value in s.registry
  {
    s.registry[s.running.value]
  }

  predicate CanDestroy(s: System, kind: nat, e: R.Eye) {
    kind in s.pools && R.Possible(s.pools[kind], R.Destroy(e))
  }

  /**
   There is room, and the lookup that follows every creation finds the new object; where it would fail its assertion
   the process stops, so the machine has no step.
   */
  predicate CanCreate(s: System, kind: nat, template: bool) {
    kind in s.pools && R.Possible(s.pools[kind], R.Create(template)) && NewContent(s, kind, template).Some?
  }

  /** When an event can occur; unloads are of current handles, and of loaded assets if they name a template. */
  predicate Possible(s: System, ev: Event) {
    match ev
    case Request(ids) => forall id | id in ids :: ValidId(id)
    case Begin => s.running.None? && s.queue != []
    case Compile => Running(s, Loading) && !Entry(s).handle.template && CanCreate(s, s.running.value.kind, true)
    case AskParent(parent) =>
      Running(s, Compiling) && ValidId(parent) && parent.kind == s.running.value.kind && parent.kind in s.pools && StageOf(s, parent) == Unloaded
    case Prepared => Running(s, Compiling)
    case Fail =>
      && (Running(s, Compiling) || (Running(s, Loading) && Entry(s).handle.template))
      && CanDestroy(s, s.running.value.kind, Entry(s).handle)
    case Succeed(deps) => Running(s, Loading) && Entry(s).handle.template && forall d | d in deps :: ValidId(d)
    case Unload(id, handle) =>
      handle == R.EYE_INVALID || (CanDestroy(s, id.kind, handle) && (handle.template ==> Current(s, id, handle)))
    case CreateAsset(id, template) => CanCreate(s, id.kind, template) && (template ==> id !in s.registry)
  }

  predicate Current(s: System, id: Maid, handle: R.Eye) {
    id in s.registry && s.registry[id].stage == Loaded && s.registry[id].handle == handle
  }

  function PoolStep(s: System, kind: nat, op: R.Op): System
    requires kind in s.pools && R.Possible(s.pools[kind], op)
  {
    s.(pools := s.pools[kind := R.Step(s.pools[kind], op)])
  }

  /** The handle a creation in the pool of a type returns. */
  function NewHandle(s: System, kind: nat, template: bool): R.Eye
    requires kind in s.pools
  {
    R.Created(s.pools[kind].pool, template).1
  }

  /** What looking up that handle gives, which is the asset's content. */
  function NewContent(s: System, kind: nat, template: bool): Option<nat>
    requires kind in s.pools
  {
    var (pool, handle) := R.Created(s.pools[kind].pool, template);
    R.Resolve(pool, handle)
  }

  /** Unloading resets the registry entry, whatever it is, and destroys the handle. */
  function AfterUnload(s: System, id: Maid, handle: R.Eye): System
    requires CanDestroy(s, id.kind, handle)
  {
    var after := PoolStep(s, id.kind, R.Destroy(handle));
    if handle.template && id in s.registry then With(after, id, NoAsset(id, Unloaded)) else after
  }

  function Step(s: System, ev: Event): System
    requires Possible(s, ev)
  {
    match ev
    case Request(ids) => Requested(s, ids).0
    case Begin => s.(running := Some(s.queue[0]), queue := s.queue[1..])
    case Compile =>
      var id := s.running.value;
      With(PoolStep(s, id.kind, R.Create(true)), id, Asset(id, NewHandle(s, id.kind, true), Compiling, NewContent(s, id.kind, true)))
    case AskParent(parent) => Requested(s, [parent]).0
    case Prepared => With(s, s.running.value, Entry(s).(stage := Loading))
    case Fail =>
      With(PoolStep(s, s.running.value.kind, R.Destroy(Entry(s).handle)), s.running.value, NoAsset(s.running.value, Unloaded)).(running := None)
    case Succeed(deps) =>
      var after := Requested(s, deps).0;
      With(after, s.running.value, Entry(s).(stage := Loaded)).(running := None)
    case Unload(id, handle) => if handle == R.EYE_INVALID then s else AfterUnload(s, id, handle)
    case CreateAsset(id, template) =>
      var after := PoolStep(s, id.kind, R.Create(template));
      if template then With(after, id, Asset(id, NewHandle(s, id.kind, true), Loaded, NewContent(s, id.kind, true))) else after
  }

  // ---------------------------------------------------------------- the invariant

  function Jobs(s: System, id: Maid): nat {
    multiset(s.queue)[id] + if s.running == Some(id) then 1 else 0
  }

  /** The entry's handle is a current template handle and its content is the object the handle stands for. */
  ghost predicate Held(w: R.World, a: Asset) {
    a.handle.template && a.handle in w.live && a.content == Some(w.live[a.handle])
  }

  ghost predicate EntryOk(w: R.World, a: Asset, running: bool) {
    match a.stage
    case Unloaded => a == NoAsset(a.id, Unloaded)
    case Loading => a == NoAsset(a.id, Loading) || (Held(w, a) && running)
    case Compiling => Held(w, a) && running
    case Loaded => Held(w, a)
  }

  ghost predicate EntriesOk(s: System) {
    forall id | id in s.registry ::
      s.registry[id].id == id && id.kind in s.pools && EntryOk(s.pools[id.kind], s.registry[id], s.running == Some(id))
  }

  /** Loading or compiling means exactly one job, pending or running; otherwise there is none. */
  ghost predicate JobsOk(s: System) {
    forall id :: Jobs(s, id) == if InProgress(StageOf(s, id)) then 1 else 0
  }

  ghost predicate HandlesOnce(s: System) {
    forall i, j | i in s.registry && j in s.registry && i.kind == j.kind && s.registry[i].handle.template
                  && s.registry[i].handle == s.registry[j].handle :: i == j
  }

  ghost predicate HasOwner(s: System, kind: nat, e: R.Eye) {
    exists id :: id in s.registry && id.kind == kind && s.registry[id].handle == e
  }

  ghost predicate HandlesOwned(s: System) {
    forall kind, e | kind in s.pools && e in s.pools[kind].live && e.template :: HasOwner(s, kind, e)
  }

  ghost predicate PoolsGood(s: System) {
    forall kind | kind in s.pools :: R.Good(s.pools[kind])
  }

  ghost predicate Inv(s: System) {
    EntriesOk(s) && JobsOk(s) && HandlesOnce(s) && HandlesOwned(s) && PoolsGood(s)
  }

  // ---------------------------------------------------------------- what a request does

  /** What a request does: nothing, or it enqueues the first unloaded asset all of whose predecessors are busy or loaded. */
  lemma {:induction false} RequestMeaning(s: System, ids: seq<Maid>)
    ensures var (after, job) := Requested(s, ids);
            match job
            case None => after == s
            case Some(id) =>
              && after == Enqueued(s, id) && id.kind in s.pools && StageOf(s, id) == Unloaded
              && exists k :: 0 <= k < |ids| && ids[k] == id && forall j | 0 <= j < k :: ids[j].kind in s.pools && StageOf(s, ids[j]) != Unloaded
    decreases |ids|
  {
    if ids != [] && ids[0].kind in s.pools && StageOf(s, ids[0]) != Unloaded {
      RequestMeaning(s, ids[1..]);
      var (after, job) := Requested(s, ids[1..]);
      if job.Some? {
        var k :| 0 <= k < |ids[1..]| && ids[1..][k] == job.value && forall j | 0 <= j < k :: ids[1..][j].kind in s.pools && StageOf(s, ids[1..][j]) != Unloaded;
        assert ids[k + 1] == job.value;
        forall j | 0 <= j < k + 1 ensures ids[j].kind in s.pools && StageOf(s, ids[j]) != Unloaded {
          if j > 0 { assert ids[j] == ids[1..][j - 1]; }
        }
      }
    }
  }

  /** `ids[k]` is the first that can be requested and is not loaded, and all before it are busy or loaded. */
  ghost predicate Wanted(s: System, ids: seq<Maid>, k: int) {
    && 0 <= k < |ids| && ids[k].kind in s.pools && StageOf(s, ids[k]) == Unloaded
    && forall j | 0 <= j < k :: ids[j].kind in s.pools && StageOf(s, ids[j]) != Unloaded
  }

  /** Exactly that one is enqueued. */
  lemma {:induction false} RequestExact(s: System, ids: seq<Maid>)
    ensures forall k | Wanted(s, ids, k) :: Requested(s, ids) == (Enqueued(s, ids[k]), Some(ids[k]))
    ensures (forall k :: !Wanted(s, ids, k)) ==> Requested(s, ids) == (s, None)
    decreases |ids|
  {
    if ids != [] {
      var rest := ids[1..];
      RequestExact(s, rest);
      if ids[0].kind in s.pools && StageOf(s, ids[0]) == Unloaded { assert Wanted(s, ids, 0); }
      forall k | Wanted(s, ids, k) && k > 0 ensures Wanted(s, rest, k - 1) && rest[k - 1] == ids[k] {
        forall j | 0 <= j < k - 1 ensures rest[j].kind in s.pools && StageOf(s, rest[j]) != Unloaded { assert rest[j] == ids[j + 1]; }
      }
      if ids[0].kind in s.pools && StageOf(s, ids[0]) != Unloaded {
        forall k | Wanted(s, rest, k) ensures Wanted(s, ids, k + 1) { assert ids[k + 1] == rest[k]; }
      }
    }
  }

  /**
   A load that succeeds makes its asset loaded and requests the dependencies: the first one that is wanted is put behind
   all queued jobs, and if none is the queue stays as it is. No other asset changes its stage.
   */
  lemma SucceedMeaning(s: System, deps: seq<Maid>)
    requires Possible(s, Succeed(deps))
    ensures var id, t := s.running.value, Step(s, Succeed(deps));
            && t.running == None && StageOf(t, id) == Loaded && t.registry[id].handle == s.registry[id].handle
            && (forall k | Wanted(s, deps, k) ::
                  && deps[k] != id && StageOf(t, deps[k]) == Loading && t.queue == s.queue + [deps[k]]
                  && forall j | j != id && j != deps[k] :: StageOf(t, j) == StageOf(s, j))
            && ((forall k :: !Wanted(s, deps, k)) ==> t.queue == s.queue && forall j | j != id :: StageOf(t, j) == StageOf(s, j))
  {
    RequestExact(s, deps);
    RequestMeaning(s, deps);
  }

  // ---------------------------------------------------------------- replacing one entry

  function Prior(s: System, id: Maid): R.Eye { if id in s.registry then s.registry[id].handle else R.EYE_INVALID }

  /** `w` has the current handles of `v`, but possibly without `prior` and possibly with `next`. */
  ghost predicate LiveKept(v: R.World, w: R.World, prior: R.Eye, next: R.Eye) {
    && (forall e | e in w.live && e.template :: e == next || (e in v.live && e != prior))
    && (forall e | e in v.live && e.template && e != prior :: e in w.live && w.live[e] == v.live[e])
    && (next.template ==> next == prior || next !in v.live)
  }

  /** The state after the entry of `a.id` and the pool of its type have been replaced. */
  function Replaced(s: System, a: Asset, w: R.World, running: Option<Maid>): System {
    System(s.registry[a.id := a], s.queue, running, s.pools[a.id.kind := w])
  }

  lemma ReplaceKeepsInv(s: System, a: Asset, w: R.World, running: Option<Maid>)
    requires Inv(s) && a.id.kind in s.pools && R.Good(w)
    requires EntryOk(w, a, running == Some(a.id)) && LiveKept(s.pools[a.id.kind], w, Prior(s, a.id), a.handle)
    requires running == s.running || (s.running == Some(a.id) && running == None)
    requires Jobs(Replaced(s, a, w, running), a.id) == if InProgress(a.stage) then 1 else 0
    ensures Inv(Replaced(s, a, w, running))
  {
    EntriesReplaced(s, a, w, running);
    JobsReplaced(s, a, w, running);
    OwnersKept(s, a, w, running);
  }

  lemma EntriesReplaced(s: System, a: Asset, w: R.World, running: Option<Maid>)
    requires EntriesOk(s) && HandlesOnce(s) && a.id.kind in s.pools
    requires EntryOk(w, a, running == Some(a.id)) && LiveKept(s.pools[a.id.kind], w, Prior(s, a.id), a.handle)
    requires running == s.running || (s.running == Some(a.id) && running == None)
    ensures EntriesOk(Replaced(s, a, w, running)) && HandlesOnce(Replaced(s, a, w, running))
  {
    var t := Replaced(s, a, w, running);
    forall j | j in t.registry && j != a.id
      ensures EntryOk(t.pools[j.kind], t.registry[j], t.running == Some(j))
      ensures j.kind == a.id.kind && t.registry[j].handle.template ==> t.registry[j].handle != a.handle
    {
      EntryKept(s, a, w, j, running);
    }
  }

  lemma JobsReplaced(s: System, a: Asset, w: R.World, running: Option<Maid>)
    requires JobsOk(s) && a.id.kind in s.pools
    requires running == s.running || (s.running == Some(a.id) && running == None)
    requires Jobs(Replaced(s, a, w, running), a.id) == if InProgress(a.stage) then 1 else 0
    ensures JobsOk(Replaced(s, a, w, running))
  {
    var t := Replaced(s, a, w, running);
    forall j ensures Jobs(t, j) == if InProgress(StageOf(t, j)) then 1 else 0 {
      if j != a.id { assert Jobs(t, j) == Jobs(s, j); }
    }
  }

  lemma EntryKept(s: System, a: Asset, w: R.World, j: Maid, running: Option<Maid>)
    requires EntriesOk(s) && HandlesOnce(s) && a.id.kind in s.pools && j in s.registry && j != a.id
    requires LiveKept(s.pools[a.id.kind], w, Prior(s, a.id), a.handle)
    requires s.running == Some(j) ==> running == Some(j)
    ensures var world := if j.kind == a.id.kind then w else s.pools[j.kind];
            EntryOk(world, s.registry[j], running == Some(j))
    ensures j.kind == a.id.kind && s.registry[j].handle.template ==> s.registry[j].handle != a.handle
  {
    var b := s.registry[j];
    assert EntryOk(s.pools[j.kind], b, s.running == Some(j));
    if b.handle.template && j.kind == a.id.kind {
      assert Held(s.pools[j.kind], b);
      assert b.handle != Prior(s, a.id);
    }
  }

  lemma OwnersKept(s: System, a: Asset, w: R.World, running: Option<Maid>)
    requires HandlesOwned(s) && a.id.kind in s.pools && LiveKept(s.pools[a.id.kind], w, Prior(s, a.id), a.handle)
    ensures HandlesOwned(Replaced(s, a, w, running))
  {
    var t := Replaced(s, a, w, running);
    forall kind, e | kind in t.pools && e in t.pools[kind].live && e.template ensures HasOwner(t, kind, e) {
      if kind == a.id.kind && a.handle == e {
        assert t.registry[a.id].handle == e;
      } else {
        assert HasOwner(s, kind, e);
        var o :| o in s.registry && o.kind == kind && s.registry[o].handle == e;
        assert o != a.id;
        assert t.registry[o].handle == e;
      }
    }
  }

  /** A step of a pool that leaves its template handles alone. */
  lemma InstanceStep(s: System, kind: nat, w: R.World)
    requires Inv(s) && kind in s.pools && R.Good(w)
    requires forall e: R.Eye | e.template ::
               (e in s.pools[kind].live <==> e in w.live) && (e in w.live ==> w.live[e] == s.pools[kind].live[e])
    ensures Inv(s.(pools := s.pools[kind := w]))
  {
    var t := s.(pools := s.pools[kind := w]);
    forall j ensures Jobs(t, j) == if InProgress(StageOf(t, j)) then 1 else 0 {
      assert Jobs(s, j) == Jobs(t, j);
    }
    forall j | j in t.registry ensures EntryOk(t.pools[j.kind], t.registry[j], t.running == Some(j)) {
      assert EntryOk(s.pools[j.kind], s.registry[j], s.running == Some(j));
    }
    forall k, e | k in t.pools && e in t.pools[k].live && e.template ensures HasOwner(t, k, e) {
      assert HasOwner(s, k, e);
      var o :| o in s.registry && o.kind == k && s.registry[o].handle == e;
      assert t.registry[o].handle == e;
    }
  }

  // ---------------------------------------------------------------- requests keep the invariant

  lemma EnqueueKeepsInv(s: System, id: Maid)
    requires Inv(s) && id.kind in s.pools && StageOf(s, id) == Unloaded
    ensures Inv(Enqueued(s, id))
  {
    var a, w := NoAsset(id, Loading), s.pools[id.kind];
    assert s.pools[id.kind := w] == s.pools;
    assert !Prior(s, id).template;
    assert Enqueued(s, id) == Replaced(s, a, w, s.running).(queue := s.queue + [id]);
    EntriesReplaced(s, a, w, s.running);
    OwnersKept(s, a, w, s.running);
    QueueOnly(Replaced(s, a, w, s.running), s.queue + [id]);
    EnqueueJobs(s, id);
  }

  /** The queue matters only for counting jobs. */
  lemma QueueOnly(s: System, queue: seq<Maid>)
    requires HandlesOwned(s)
    ensures HandlesOwned(s.(queue := queue))
  {
    var t := s.(queue := queue);
    forall kind, e | kind in t.pools && e in t.pools[kind].live && e.template ensures HasOwner(t, kind, e) {
      assert HasOwner(s, kind, e);
    }
  }

  lemma EnqueueJobs(s: System, id: Maid)
    requires JobsOk(s) && StageOf(s, id) == Unloaded
    ensures JobsOk(Enqueued(s, id))
  {
    var t := Enqueued(s, id);
    assert Jobs(s, id) == 0;
    assert multiset(t.queue) == multiset(s.queue) + multiset{id};
    forall j ensures Jobs(t, j) == if InProgress(StageOf(t, j)) then 1 else 0 {
      assert Jobs(s, j) == if InProgress(StageOf(s, j)) then 1 else 0;
    }
  }

  lemma RequestKeepsInv(s: System, ids: seq<Maid>)
    requires Inv(s)
    ensures Inv(Requested(s, ids).0)
  {
    RequestMeaning(s, ids);
    var (after, job) := Requested(s, ids);
    if job.Some? { EnqueueKeepsInv(s, job.value); }
  }

  // ---------------------------------------------------------------- the other steps

  lemma BeginKeepsInv(s: System)
    requires Inv(s) && Possible(s, Begin)
    ensures Inv(Step(s, Begin)) && Running(Step(s, Begin), Loading) && !Entry(Step(s, Begin)).handle.template
  {
    var t := Step(s, Begin);
    var id := s.queue[0];
    assert s.queue == [id] + s.queue[1..];
    assert multiset(s.queue) == multiset{id} + multiset(t.queue);
    forall j ensures Jobs(t, j) == if InProgress(StageOf(t, j)) then 1 else 0 {
      assert Jobs(t, j) == Jobs(s, j);
    }
    assert Jobs(s, id) == 1;
    forall kind, e | kind in t.pools && e in t.pools[kind].live && e.template ensures HasOwner(t, kind, e) {
      assert HasOwner(s, kind, e);
      var o :| o in s.registry && o.kind == kind && s.registry[o].handle == e;
      assert t.registry[o].handle == e;
    }
  }

  /** A slot can be given out exactly as long as its generation fits a handle. */
  lemma CanCreateExact(s: System, kind: nat, template: bool)
    requires kind in s.pools && R.Good(s.pools[kind])
    ensures var slots := R.Side(s.pools[kind].pool, template);
            && (CanCreate(s, kind, template) <==> R.FirstFree(slots) < R.INDEX_UNITS && R.NextGeneration(slots) < 256)
            && (CanCreate(s, kind, template) ==> NewContent(s, kind, template) == Some(s.pools[kind].pool.created))
  {
    if R.Possible(s.pools[kind], R.Create(template)) { R.NewHandleResolves(s.pools[kind].pool, template); }
  }

  /** A creation adds one current handle that nothing held before. */
  lemma CreatedHandle(w: R.World, template: bool)
    requires R.Good(w) && R.Allowed(w, R.Create(template))
    ensures var e := R.Created(w.pool, template).1;
            var after := R.Step(w, R.Create(template));
            && R.Good(after) && e.template == template && e !in w.live && after.live == w.live[e := w.pool.created]
  {
    R.CreateKeepsGood(w, template);
    var e := R.Created(w.pool, template).1;
    if e in w.live {
      R.CreateKeepsHandle(w.pool, template, e);
      assert false;
    }
  }

  lemma DestroyedHandle(w: R.World, e: R.Eye)
    requires R.Good(w) && R.Allowed(w, R.Destroy(e))
    ensures var after := R.Step(w, R.Destroy(e)); R.Good(after) && after.live == w.live - {e}
  {
    R.DestroyKeepsGood(w, e);
  }

  /** The worker's entry belongs to a job of its own. */
  lemma OneJob(s: System)
    requires Inv(s) && s.running.Some?
    ensures var id := s.running.value; id in s.registry && id.kind in s.pools && s.registry[id].id == id && multiset(s.queue)[id] == 0
  {
    assert Jobs(s, s.running.value) == 1;
  }

  lemma CompileKeepsInv(s: System)
    requires Inv(s) && Possible(s, Compile)
    ensures Inv(Step(s, Compile)) && Running(Step(s, Compile), Compiling)
  {
    OneJob(s);
    var id := s.running.value;
    var w := R.Step(s.pools[id.kind], R.Create(true));
    var a := Asset(id, NewHandle(s, id.kind, true), Compiling, NewContent(s, id.kind, true));
    CanCreateExact(s, id.kind, true);
    CreatedHandle(s.pools[id.kind], true);
    assert Step(s, Compile) == Replaced(s, a, w, s.running);
    ReplaceKeepsInv(s, a, w, s.running);
  }

  lemma PreparedKeepsInv(s: System)
    requires Inv(s) && Possible(s, Prepared)
    ensures Inv(Step(s, Prepared)) && Running(Step(s, Prepared), Loading) && Entry(Step(s, Prepared)).handle.template
  {
    OneJob(s);
    var id := s.running.value;
    var w, a := s.pools[id.kind], Entry(s).(stage := Loading);
    assert EntryOk(w, s.registry[id], true);
    assert s.pools[id.kind := w] == s.pools;
    ReplaceKeepsInv(s, a, w, s.running);
  }

  /** Giving up a handle. */
  lemma ReleaseKeepsInv(s: System, id: Maid, running: Option<Maid>)
    requires Inv(s) && id in s.registry && CanDestroy(s, id.kind, s.registry[id].handle)
    requires running == s.running || (s.running == Some(id) && running == None)
    requires multiset(s.queue)[id] == 0 && running != Some(id)
    ensures Inv(Replaced(s, NoAsset(id, Unloaded), R.Step(s.pools[id.kind], R.Destroy(s.registry[id].handle)), running))
  {
    Released(s.pools[id.kind], s.registry[id].handle);
    ReplaceKeepsInv(s, NoAsset(id, Unloaded), R.Step(s.pools[id.kind], R.Destroy(s.registry[id].handle)), running);
  }

  lemma Released(w: R.World, e: R.Eye)
    requires R.Good(w) && R.Allowed(w, R.Destroy(e))
    ensures var after := R.Step(w, R.Destroy(e)); R.Good(after) && LiveKept(w, after, e, R.EYE_INVALID)
  {
    DestroyedHandle(w, e);
  }

  lemma FailKeepsInv(s: System)
    requires Inv(s) && Possible(s, Fail)
    ensures Inv(Step(s, Fail))
  {
    OneJob(s);
    FailReplaces(s);
    ReleaseKeepsInv(s, s.running.value, None);
  }

  lemma FailReplaces(s: System)
    requires Possible(s, Fail)
    ensures var id := s.running.value;
            Step(s, Fail) == Replaced(s, NoAsset(id, Unloaded), R.Step(s.pools[id.kind], R.Destroy(Entry(s).handle)), None)
  {
  }

  lemma SucceedKeepsInv(s: System, deps: seq<Maid>)
    requires Inv(s) && Possible(s, Succeed(deps))
    ensures Inv(Step(s, Succeed(deps)))
  {
    RequestKeepsInv(s, deps);
    RequestMeaning(s, deps);
    var id := s.running.value;
    var mid := Requested(s, deps).0;
    assert mid.running == s.running && mid.registry[id] == s.registry[id] && mid.pools == s.pools;
    FinishKeepsInv(mid);
    OneJob(s);
  }

  lemma FinishKeepsInv(s: System)
    requires Inv(s) && Running(s, Loading) && Entry(s).handle.template
    ensures Inv(s.(registry := s.registry[s.running.value := Entry(s).(stage := Loaded)], running := None))
  {
    OneJob(s);
    var id := s.running.value;
    var w, a := s.pools[id.kind], Entry(s).(stage := Loaded);
    assert EntryOk(w, s.registry[id], true);
    assert s.pools[id.kind := w] == s.pools;
    ReplaceKeepsInv(s, a, w, None);
  }

  lemma UnloadKeepsInv(s: System, id: Maid, handle: R.Eye)
    requires Inv(s) && Possible(s, Unload(id, handle))
    ensures Inv(Step(s, Unload(id, handle)))
  {
    if handle.template {
      assert Jobs(s, id) == 0;
      UnloadReplaces(s, id);
      ReleaseKeepsInv(s, id, s.running);
    } else if handle != R.EYE_INVALID {
      DestroyedHandle(s.pools[id.kind], handle);
      InstanceStep(s, id.kind, R.Step(s.pools[id.kind], R.Destroy(handle)));
    }
  }

  lemma UnloadReplaces(s: System, id: Maid)
    requires id in s.registry && s.registry[id].handle.template && CanDestroy(s, id.kind, s.registry[id].handle)
    ensures var e := s.registry[id].handle;
            AfterUnload(s, id, e) == Replaced(s, NoAsset(id, Unloaded), R.Step(s.pools[id.kind], R.Destroy(e)), s.running)
  {
  }

  lemma StillRunning(s: System, id: Maid)
    requires Inv(s) && id in s.registry && s.registry[id].handle.template && CanDestroy(s, id.kind, s.registry[id].handle)
    requires s.registry[id].stage != Loaded
    ensures !JobsOk(AfterUnload(s, id, s.registry[id].handle))
  {
    assert EntryOk(s.pools[id.kind], s.registry[id], s.running == Some(id));
    var t := AfterUnload(s, id, s.registry[id].handle);
    assert Jobs(t, id) == Jobs(s, id) == 1;
    assert StageOf(t, id) == Unloaded;
  }

  /** Unloading an asset by its current handle is sound exactly when its load is over. */
  lemma UnloadWhileLoading(s: System, id: Maid)
    requires Inv(s) && id in s.registry && s.registry[id].handle.template && CanDestroy(s, id.kind, s.registry[id].handle)
    ensures Inv(AfterUnload(s, id, s.registry[id].handle)) <==> s.registry[id].stage == Loaded
  {
    var e := s.registry[id].handle;
    if s.registry[id].stage == Loaded {
      UnloadKeepsInv(s, id, e);
    } else {
      StillRunning(s, id);
    }
  }

  lemma CreateAssetKeepsInv(s: System, id: Maid, template: bool)
    requires Inv(s) && Possible(s, CreateAsset(id, template))
    ensures Inv(Step(s, CreateAsset(id, template)))
  {
    var w := R.Step(s.pools[id.kind], R.Create(template));
    CanCreateExact(s, id.kind, template);
    CreatedHandle(s.pools[id.kind], template);
    if template {
      assert Jobs(s, id) == 0;
      var a := Asset(id, NewHandle(s, id.kind, true), Loaded, NewContent(s, id.kind, true));
      assert Step(s, CreateAsset(id, true)) == Replaced(s, a, w, s.running);
      ReplaceKeepsInv(s, a, w, s.running);
    } else {
      InstanceStep(s, id.kind, w);
    }
  }

  lemma StepKeepsInv(s: System, ev: Event)
    requires Inv(s) && Possible(s, ev)
    ensures Inv(Step(s, ev))
  {
    match ev
    case Request(ids) => RequestKeepsInv(s, ids);
    case Begin => BeginKeepsInv(s);
    case Compile => CompileKeepsInv(s);
    case AskParent(parent) => RequestKeepsInv(s, [parent]);
    case Prepared => PreparedKeepsInv(s);
    case Fail => FailKeepsInv(s);
    case Succeed(deps) => SucceedKeepsInv(s, deps);
    case Unload(id, handle) => UnloadKeepsInv(s, id, handle);
    case CreateAsset(id, template) => CreateAssetKeepsInv(s, id, template);
  }

  // ---------------------------------------------------------------- runs

  ghost predicate AllPossible(s: System, events: seq<Event>)
    decreases |events|
  {
    events == [] || (Possible(s, events[0]) && AllPossible(Step(s, events[0]), events[1..]))
  }

  ghost function Run(s: System, events: seq<Event>): System
    requires AllPossible(s, events)
    decreases |events|
  {
    if events == [] then s else Run(Step(s, events[0]), events[1..])
  }

  lemma {:induction false} RunKeepsInv(s: System, events: seq<Event>)
    requires Inv(s) && AllPossible(s, events)
    ensures Inv(Run(s, events))
    decreases |events|
  {
    if events != [] {
      StepKeepsInv(s, events[0]);
      RunKeepsInv(Step(s, events[0]), events[1..]);
    }
  }

  /** The job an event adds to the queue, if any. */
  function Enqueues(s: System, ev: Event): seq<Maid> {
    var job := match ev
      case Request(ids) => Requested(s, ids).1
      case AskParent(parent) => Requested(s, [parent]).1
      case Succeed(deps) => Requested(s, deps).1
      case _ => None;
    if job.Some? then [job.value] else []
  }

  ghost function AllEnqueued(s: System, events: seq<Event>): seq<Maid>
    requires AllPossible(s, events)
    decreases |events|
  {
    if events == [] then [] else Enqueues(s, events[0]) + AllEnqueued(Step(s, events[0]), events[1..])
  }

  /** The jobs the worker takes up, in order. */
  ghost function AllBegun(s: System, events: seq<Event>): seq<Maid>
    requires AllPossible(s, events)
    decreases |events|
  {
    if events == [] then []
    else (if events[0].Begin? then [Step(s, events[0]).running.value] else []) + AllBegun(Step(s, events[0]), events[1..])
  }

  /** Jobs are taken up in the order in which they were enqueued, none is lost and none is made up. */
  lemma {:induction false} FirstInFirstOut(s: System, events: seq<Event>)
    requires AllPossible(s, events)
    ensures s.queue + AllEnqueued(s, events) == AllBegun(s, events) + Run(s, events).queue
    decreases |events|
  {
    if events != [] {
      var t, rest := Step(s, events[0]), events[1..];
      OneInOneOut(s, events[0]);
      FirstInFirstOut(t, rest);
      var begun := if events[0].Begin? then [t.running.value] else [];
      Regrouped(s.queue, Enqueues(s, events[0]), AllEnqueued(t, rest), begun, t.queue, AllBegun(t, rest), Run(t, rest).queue);
    }
  }

  lemma Regrouped<T>(queue: seq<T>, added: seq<T>, later: seq<T>, begun: seq<T>, next: seq<T>, others: seq<T>, last: seq<T>)
    requires queue + added == begun + next && next + later == others + last
    ensures queue + (added + later) == (begun + others) + last
  {
    assert queue + (added + later) == (queue + added) + later;
    assert (begun + next) + later == begun + (next + later);
    assert begun + (others + last) == (begun + others) + last;
  }

  lemma OneInOneOut(s: System, ev: Event)
    requires Possible(s, ev)
    ensures ev.Begin? ==> Step(s, ev).running.Some?
    ensures s.queue + Enqueues(s, ev) == (if ev.Begin? then [Step(s, ev).running.value] else []) + Step(s, ev).queue
  {
    match ev
    case Request(ids) => RequestMeaning(s, ids);
    case AskParent(parent) => RequestMeaning(s, [parent]);
    case Succeed(deps) => RequestMeaning(s, deps);
    case _ =>
  }

  /** At the start nothing is registered and every pool holds its bad data only. */
  predicate Fresh(s: System) {
    && s.registry == map[] && s.queue == [] && s.running == None
    && forall kind | kind in s.pools :: s.pools[kind] == R.World(R.Initial(), map[], {})
  }

  lemma FreshInv(s: System)
    requires Fresh(s)
    ensures Inv(s)
  {
    R.InitialGood();
  }

  /** After every run from the start: stages, jobs and pools agree. */
  lemma LoadMachine(s: System, events: seq<Event>, id: Maid)
    requires Fresh(s) && AllPossible(s, events)
    ensures var t := Run(s, events);
            && (InProgress(StageOf(t, id)) <==> Jobs(t, id) == 1) && Jobs(t, id) <= 1
            && (StageOf(t, id) == Loaded ==>
                  id.kind in t.pools && R.Resolve(t.pools[id.kind].pool, t.registry[id].handle) == t.registry[id].content
                  && t.registry[id].content.Some? && t.registry[id].handle.index != 0)
            && (id in t.registry && StageOf(t, id) == Unloaded ==> t.registry[id].handle == R.EYE_INVALID)
  {
    FreshInv(s);
    RunKeepsInv(s, events);
    var t := Run(s, events);
    assert Jobs(t, id) == if InProgress(StageOf(t, id)) then 1 else 0;
    if id in t.registry {
      assert EntryOk(t.pools[id.kind], t.registry[id], t.running == Some(id));
      assert R.Good(t.pools[id.kind]);
    }
  }

  /** Handles held by entries and current template handles are in bijection, type by type. */
  lemma HandleBijection(s: System, events: seq<Event>, kind: nat, e: R.Eye)
    requires Fresh(s) && AllPossible(s, events) && kind in Run(s, events).pools && e.template
    ensures var t := Run(s, events);
            && (HasOwner(t, kind, e) <==> e in t.pools[kind].live)
            && forall i, j | i in t.registry && j in t.registry && i.kind == j.kind == kind
                             && t.registry[i].handle == e && t.registry[j].handle == e :: i == j
  {
    FreshInv(s);
    RunKeepsInv(s, events);
    var t := Run(s, events);
    if HasOwner(t, kind, e) {
      var id :| id in t.registry && id.kind == kind && t.registry[id].handle == e;
      assert EntryOk(t.pools[kind], t.registry[id], t.running == Some(id));
    }
  }

  // ---------------------------------------------------------------- an unload at the wrong time

  /** While its job compiles, an asset has a current handle by which it can be unloaded; its job goes on. */
  lemma UnloadedTooEarly(s: System, id: Maid)
    requires Fresh(s) && ValidId(id) && id.kind in s.pools
    ensures var t1 := Step(s, Request([id]));
            && Possible(s, Request([id])) && Possible(t1, Begin) && Possible(Step(t1, Begin), Compile)
            && var t := Step(Step(t1, Begin), Compile);
            && Inv(t) && id in t.registry && t.registry[id].handle.template && CanDestroy(t, id.kind, t.registry[id].handle)
            && !Inv(AfterUnload(t, id, t.registry[id].handle)) && Jobs(AfterUnload(t, id, t.registry[id].handle), id) == 1
  {
    FreshInv(s);
    var t1 := Step(s, Request([id]));
    StepKeepsInv(s, Request([id]));
    BeginKeepsInv(t1);
    var t2 := Step(t1, Begin);
    assert R.Initial().templates[0].used && !R.Initial().templates[1].used;
    CanCreateExact(t2, id.kind, true);
    StepKeepsInv(t2, Compile);
    var t := Step(t2, Compile);
    HandleCurrent(t);
    UnloadWhileLoading(t, id);
  }

  // ---------------------------------------------------------------- the asset system

  /** How a load turns out: the file cannot be read up to its header, or one of the type-specific parts fails, or all goes well. */
  datatype Outcome = Unreadable | CompileFails | InitializeFails | Works

  /** The stage of a parent while the job for `id` compiles. */
  function ParentStage(s: System, id: Maid, parent: Maid): Stage { if parent == id then Compiling else StageOf(s, parent) }

  /** The steps of the job at the head of the queue, whose file names a parent or none. */
  function JobEvents(s: System, parent: Option<Maid>, outcome: Outcome, deps: seq<Maid>): seq<Event>
    requires s.queue != []
  {
    var id := s.queue[0];
    if outcome == Unreadable then [Begin, Compile, Fail]
    else if parent.Some? && (parent.value.kind != id.kind || ParentStage(s, id, parent.value) != Loaded) then
      if parent.value.kind == id.kind && ParentStage(s, id, parent.value) == Unloaded
      then [Begin, Compile, AskParent(parent.value), Fail] else [Begin, Compile, Fail]
    else
      match outcome
      case InitializeFails => [Begin, Compile, Prepared, Fail]
      case Works => [Begin, Compile, Prepared, Succeed(deps)]
      case _ => [Begin, Compile, Fail]
  }

  class AssetSystem {
    var registry: map<Maid, Asset>
    var queue: seq<Maid>
    var running: Option<Maid>
    var pools: map<nat, R.Pool>
    ghost var worlds: map<nat, R.World>

    ghost function State(): System
      reads this
    {
      System(registry, queue, running, worlds)
    }

    /** The pools are those of the state. */
    ghost predicate Valid()
      reads this
    {
      pools.Keys == worlds.Keys && forall kind | kind in pools :: pools[kind] == worlds[kind].pool
    }

    method RequestLoadTemplate(ids: seq<Maid>) returns (job: Option<Maid>)
      requires Valid() && forall id | id in ids :: ValidId(id)
      modifies this
      ensures Valid() && State() == Requested(old(State()), ids).0 && job == Requested(old(State()), ids).1
    {
      ghost var s := State();
      for i := 0 to |ids|
        invariant State() == s && pools == old(pools) && Requested(s, ids[i..]) == Requested(s, ids)
      {
        assert ids[i..][1..] == ids[i + 1..];
        var id := ids[i];
        if id.kind !in pools { return None; }
        var stage := if id in registry then registry[id].stage else Unloaded;
        if stage == Unloaded {
          registry := registry[id := NoAsset(id, Loading)];
          queue := queue + [id];
          return Some(id);
        }
      }
      job := None;
    }

    /** The pool of a type makes a step. */
    method CreateResource(kind: nat, template: bool) returns (e: R.Eye, obj: Option<nat>)
      requires Valid() && CanCreate(State(), kind, template)
      modifies this`pools, this`worlds
      ensures State() == PoolStep(old(State()), kind, R.Create(template))
      ensures Valid()
      ensures e == NewHandle(old(State()), kind, template) && obj == NewContent(old(State()), kind, template)
    {
      var (pool, handle) := R.Created(pools[kind], template);
      obj := R.Resolve(pool, handle);
      e := handle;
      worlds := worlds[kind := R.Step(worlds[kind], R.Create(template))];
      pools := pools[kind := pool];
    }

    method DestroyResource(kind: nat, e: R.Eye)
      requires Valid() && CanDestroy(State(), kind, e)
      modifies this`pools, this`worlds
      ensures State() == PoolStep(old(State()), kind, R.Destroy(e))
      ensures Valid()
    {
      var pool := R.Destroyed(pools[kind], e);
      worlds := worlds[kind := R.Step(worlds[kind], R.Destroy(e))];
      pools := pools[kind := pool];
    }

    method BeginJob()
      requires Valid() && Possible(State(), Begin)
      modifies this`queue, this`running
      ensures Valid() && State() == Step(old(State()), Begin)
    {
      running := Some(queue[0]);
      queue := queue[1..];
    }

    /** The first half of `meAssetCompile`. */
    method BeginCompile()
      requires Valid() && Possible(State(), Compile)
      modifies this
      ensures Valid() && State() == Step(old(State()), Compile)
    {
      var id := running.value;
      var e, obj := CreateResource(id.kind, true);
      registry := registry[id := Asset(id, e, Compiling, obj)];
    }

    /** The failure branch of `meAssetLoad`. */
    method FailJob()
      requires Valid() && Possible(State(), Fail)
      modifies this
      ensures Valid() && State() == Step(old(State()), Fail)
    {
      var id := running.value;
      var failedHandle := registry[id].handle;
      registry := registry[id := NoAsset(id, Unloaded)];
      DestroyResource(id.kind, failedHandle);
      running := None;
    }

    /** The parent of a file being read is requested; with one worker it is there only if it was loaded before. */
    method LoadParent(parent: Maid) returns (ok: bool)
      requires Valid() && ValidId(parent) && Running(State(), Compiling) && running.value.kind in pools
      modifies this
      ensures Valid() && State().running == old(State()).running
      ensures ok <==> parent.kind == running.value.kind && StageOf(old(State()), parent) == Loaded
      ensures State() == if parent.kind == running.value.kind && StageOf(old(State()), parent) == Unloaded
                         then Step(old(State()), AskParent(parent)) else old(State())
    {
      if parent.kind != running.value.kind { return false; }
      ghost var s := State();
      RequestMeaning(s, [parent]);
      var _ := RequestLoadTemplate([parent]);
      ok := parent in registry && registry[parent].stage == Loaded;
    }

    /** Compiled: the asset is `Loading` again while its runtime data is initialised. */
    method BeginInitialize()
      requires Valid() && Possible(State(), Prepared)
      modifies this`registry
      ensures Valid() && State() == Step(old(State()), Prepared)
    {
      var id := running.value;
      registry := registry[id := registry[id].(stage := Loading)];
    }

    /** The success branch: request the dependencies, then mark the asset loaded. */
    method FinishJob(deps: seq<Maid>)
      requires Valid() && Possible(State(), Succeed(deps))
      modifies this
      ensures Valid() && State() == Step(old(State()), Succeed(deps))
    {
      ghost var s := State();
      RequestMeaning(s, deps);
      var id := running.value;
      var _ := RequestLoadTemplate(deps);
      registry := registry[id := registry[id].(stage := Loaded)];
      running := None;
    }

    method UnloadBlocking(id: Maid, handle: R.Eye)
      requires Valid() && Possible(State(), Unload(id, handle))
      modifies this
      ensures Valid() && State() == Step(old(State()), Unload(id, handle))
    {
      if handle.template && id in registry {
        registry := registry[id := NoAsset(id, Unloaded)];
      }
      if handle != R.EYE_INVALID {
        DestroyResource(id.kind, handle);
      }
    }

    method CreateNewAsset(id: Maid, template: bool) returns (asset: Asset)
      requires Valid() && Possible(State(), CreateAsset(id, template))
      modifies this
      ensures Valid() && State() == Step(old(State()), CreateAsset(id, template))
      ensures asset == Asset(id, NewHandle(old(State()), id.kind, template), Loaded, NewContent(old(State()), id.kind, template))
    {
      var e, obj := CreateResource(id.kind, template);
      asset := Asset(id, e, Loaded, obj);
      if template { registry := registry[id := asset]; }
    }

    /** `meAssetCompile`: create the resource, read the file and its parent, and the type-specific part. */
    method CompileJob(parent: Option<Maid>, outcome: Outcome, ghost s: System) returns (ok: bool)
      requires Valid() && s.queue != [] && State().running == Some(s.queue[0]) && Possible(State(), Compile)
      requires (parent.Some? ==> ValidId(parent.value)) && Compiles(s, Step(State(), Compile), s.queue[0])
      modifies this
      ensures Valid() && ok == !EndsEarly(s, parent, outcome)
      ensures var mid := Step(old(State()), Compile);
              if Asks(s, parent, outcome) then Possible(mid, AskParent(parent.value)) && State() == Step(mid, AskParent(parent.value))
              else State() == mid
    {
      BeginCompile();
      ok := outcome != Unreadable;
      if ok && parent.Some? {
        ok := LoadParent(parent.value);
      }
      ok := ok && outcome != CompileFails;
    }

    /** One job from start to end, with nothing happening in between. */
    method RunJob(parent: Option<Maid>, outcome: Outcome, deps: seq<Maid>)
      requires Valid() && MayRunJob(State(), parent, deps)
      modifies this
      ensures Valid() && AllPossible(old(State()), JobEvents(old(State()), parent, outcome, deps))
      ensures State() == Run(old(State()), JobEvents(old(State()), parent, outcome, deps))
    {
      ghost var s := State();
      ghost var s1, s2 := JobCompiles(s, parent, deps);
      ghost var s3 := JobPrepares(s, s2, queue[0], deps);
      BeginJob();
      var ok := CompileJob(parent, outcome, s);
      if !ok {
        JobEnds(s, s1, s2, State(), parent, outcome, deps);
        FailJob();
        return;
      }
      JobGoesOn(s, s1, s2, s3, parent, outcome, deps);
      BeginInitialize();
      if outcome == InitializeFails {
        FailJob();
      } else {
        FinishJob(deps);
      }
    }
  }

  ghost predicate MayRunJob(s: System, parent: Option<Maid>, deps: seq<Maid>) {
    && Inv(s) && Possible(s, Begin) && CanCreate(s, s.queue[0].kind, true)
    && (parent.Some? ==> ValidId(parent.value)) && forall d | d in deps :: ValidId(d)
  }

  ghost predicate OneStep(s: System, ev: Event, t: System) { Possible(s, ev) && t == Step(s, ev) }

  /** The state in which the job at the head of the queue compiles. */
  ghost predicate Compiles(s: System, t: System, id: Maid) {
    && Inv(t) && t.running == Some(id) && Running(t, Compiling) && id.kind in t.pools
    && forall p :: StageOf(t, p) == ParentStage(s, id, p)
  }

  lemma JobCompiles(s: System, parent: Option<Maid>, deps: seq<Maid>) returns (s1: System, s2: System)
    requires MayRunJob(s, parent, deps)
    ensures OneStep(s, Begin, s1) && OneStep(s1, Compile, s2) && Compiles(s, s2, s.queue[0])
  {
    BeginKeepsInv(s);
    s1 := Step(s, Begin);
    CompileKeepsInv(s1);
    s2 := Step(s1, Compile);
    OneJob(s2);
  }

  lemma JobPrepares(s: System, t: System, id: Maid, deps: seq<Maid>) returns (s3: System)
    requires Compiles(s, t, id) && forall d | d in deps :: ValidId(d)
    ensures Possible(t, Fail) && OneStep(t, Prepared, s3) && Possible(s3, Fail) && Possible(s3, Succeed(deps))
  {
    OneJob(t);
    assert EntryOk(t.pools[id.kind], t.registry[id], true);
    HandleCurrent(t);
    PreparedKeepsInv(t);
    s3 := Step(t, Prepared);
    HandleCurrent(s3);
  }

  lemma AskedThenFails(s: System, t: System, id: Maid, parent: Maid)
    requires Compiles(s, t, id) && Possible(t, Fail) && ValidId(parent) && parent.kind == id.kind && StageOf(t, parent) == Unloaded
    ensures Possible(t, AskParent(parent)) && Possible(Step(t, AskParent(parent)), Fail)
  {
    assert Step(t, AskParent(parent)) == Enqueued(t, parent);
    assert parent != id;
  }

  /** The job fails while it compiles. */
  predicate EndsEarly(s: System, parent: Option<Maid>, outcome: Outcome)
    requires s.queue != []
  {
    var id := s.queue[0];
    outcome == Unreadable || outcome == CompileFails
    || (parent.Some? && (parent.value.kind != id.kind || ParentStage(s, id, parent.value) != Loaded))
  }

  predicate Asks(s: System, parent: Option<Maid>, outcome: Outcome)
    requires s.queue != []
  {
    var id := s.queue[0];
    outcome != Unreadable && parent.Some? && parent.value.kind == id.kind && ParentStage(s, id, parent.value) == Unloaded
  }

  lemma EarlyEvents(s: System, parent: Option<Maid>, outcome: Outcome, deps: seq<Maid>)
    requires s.queue != [] && EndsEarly(s, parent, outcome)
    ensures JobEvents(s, parent, outcome, deps) ==
              if Asks(s, parent, outcome) then [Begin, Compile, AskParent(parent.value), Fail] else [Begin, Compile, Fail]
  {
  }

  /** A job that fails while it compiles, after asking for its parent or not. */
  lemma JobEnds(s: System, s1: System, s2: System, t: System, parent: Option<Maid>, outcome: Outcome, deps: seq<Maid>)
    requires s.queue != [] && OneStep(s, Begin, s1) && OneStep(s1, Compile, s2) && Compiles(s, s2, s.queue[0]) && Possible(s2, Fail)
    requires (parent.Some? ==> ValidId(parent.value)) && EndsEarly(s, parent, outcome)
    requires Asks(s, parent, outcome) ==> Possible(s2, AskParent(parent.value)) && t == Step(s2, AskParent(parent.value))
    requires !Asks(s, parent, outcome) ==> t == s2
    ensures Possible(t, Fail)
    ensures var events := JobEvents(s, parent, outcome, deps); AllPossible(s, events) && Run(s, events) == Step(t, Fail)
  {
    EarlyEvents(s, parent, outcome, deps);
    if Asks(s, parent, outcome) {
      AskedThenFails(s, s2, s.queue[0], parent.value);
      RunFour(s, s1, s2, t, Begin, Compile, AskParent(parent.value), Fail);
    } else {
      RunThree(s, s1, s2, Begin, Compile, Fail);
    }
  }

  /** A job that compiles, and is initialised or not. */
  lemma JobGoesOn(s: System, s1: System, s2: System, s3: System, parent: Option<Maid>, outcome: Outcome, deps: seq<Maid>)
    requires s.queue != [] && OneStep(s, Begin, s1) && OneStep(s1, Compile, s2) && OneStep(s2, Prepared, s3)
    requires Possible(s3, Fail) && Possible(s3, Succeed(deps)) && !EndsEarly(s, parent, outcome)
    ensures var events := JobEvents(s, parent, outcome, deps);
            AllPossible(s, events) && Run(s, events) == Step(s3, if outcome == InitializeFails then Fail else Succeed(deps))
  {
    RunFour(s, s1, s2, s3, Begin, Compile, Prepared, if outcome == InitializeFails then Fail else Succeed(deps));
  }

  /** A job at the head of the queue can run to its end, whichever way it goes. */
  lemma JobAllowed(s: System, parent: Option<Maid>, outcome: Outcome, deps: seq<Maid>)
    requires MayRunJob(s, parent, deps)
    ensures AllPossible(s, JobEvents(s, parent, outcome, deps))
  {
    var s1, s2 := JobCompiles(s, parent, deps);
    var s3 := JobPrepares(s, s2, s.queue[0], deps);
    if !EndsEarly(s, parent, outcome) {
      JobGoesOn(s, s1, s2, s3, parent, outcome, deps);
    } else if Asks(s, parent, outcome) {
      AskedThenFails(s, s2, s.queue[0], parent.value);
      JobEnds(s, s1, s2, Step(s2, AskParent(parent.value)), parent, outcome, deps);
    } else {
      JobEnds(s, s1, s2, s2, parent, outcome, deps);
    }
  }

  /** A job that succeeds: its asset is loaded and the first dependency that was wanted waits behind all other jobs. */
  lemma JobLoadsDependency(s: System, parent: Option<Maid>, deps: seq<Maid>)
    requires MayRunJob(s, parent, deps) && !EndsEarly(s, parent, Works)
    ensures AllPossible(s, JobEvents(s, parent, Works, deps))
    ensures var id, t := s.queue[0], Run(s, JobEvents(s, parent, Works, deps));
            && t.running == None && StageOf(t, id) == Loaded
            && (forall k | Wanted(s, deps, k) :: StageOf(t, deps[k]) == Loading && t.queue == s.queue[1..] + [deps[k]])
            && ((forall k :: !Wanted(s, deps, k)) ==> t.queue == s.queue[1..])
  {
    var s1, s2 := JobCompiles(s, parent, deps);
    var s3 := JobPrepares(s, s2, s.queue[0], deps);
    JobGoesOn(s, s1, s2, s3, parent, Works, deps);
    HeadLoading(s);
    PreparedStages(s, s1, s2, s3);
    LoadedThenWanted(s, s3, deps);
  }

  lemma HeadLoading(s: System)
    requires Inv(s) && Possible(s, Begin)
    ensures StageOf(s, s.queue[0]) == Loading
  {
    BeginKeepsInv(s);
  }

  /** Nothing happens to the stages before the end. */
  lemma PreparedStages(s: System, s1: System, s2: System, s3: System)
    requires OneStep(s, Begin, s1) && OneStep(s1, Compile, s2) && OneStep(s2, Prepared, s3) && StageOf(s, s.queue[0]) == Loading
    ensures s3.running == Some(s.queue[0]) && s3.queue == s.queue[1..] && s3.pools.Keys == s.pools.Keys
    ensures forall j :: StageOf(s3, j) == StageOf(s, j)
  {
    assert s1.registry == s.registry && s1.pools == s.pools;
    assert s2.pools.Keys == s1.pools.Keys;
  }

  lemma LoadedThenWanted(s: System, t: System, deps: seq<Maid>)
    requires s.queue != [] && t.running == Some(s.queue[0]) && t.queue == s.queue[1..] && t.pools.Keys == s.pools.Keys
    requires Possible(t, Succeed(deps)) && forall j :: StageOf(t, j) == StageOf(s, j)
    ensures var u := Step(t, Succeed(deps));
            && u.running == None && StageOf(u, s.queue[0]) == Loaded
            && (forall k | Wanted(s, deps, k) :: StageOf(u, deps[k]) == Loading && u.queue == s.queue[1..] + [deps[k]])
            && ((forall k :: !Wanted(s, deps, k)) ==> u.queue == s.queue[1..])
  {
    forall k ensures Wanted(s, deps, k) <==> Wanted(t, deps, k) {}
    SucceedMeaning(t, deps);
  }

  /** The handle of a compiled entry can be destroyed. */
  lemma HandleCurrent(s: System)
    requires Inv(s) && s.running.Some? && s.running.value in s.registry && Entry(s).handle.template
    ensures s.running.value.kind in s.pools
    ensures CanDestroy(s, s.running.value.kind, Entry(s).handle)
  {
    var id := s.running.value;
    assert EntryOk(s.pools[id.kind], s.registry[id], true);
    assert R.Good(s.pools[id.kind]);
  }

  lemma RunOne(s: System, a: Event)
    requires Possible(s, a)
    ensures AllPossible(s, [a]) && Run(s, [a]) == Step(s, a)
  {
    assert [a][1..] == [];
    assert AllPossible(Step(s, a), []);
  }

  lemma RunMore(s: System, a: Event, more: seq<Event>)
    requires Possible(s, a) && AllPossible(Step(s, a), more)
    ensures AllPossible(s, [a] + more) && Run(s, [a] + more) == Run(Step(s, a), more)
  {
    assert ([a] + more)[1..] == more;
  }

  lemma RunThree(s: System, s1: System, s2: System, a: Event, b: Event, c: Event)
    requires OneStep(s, a, s1) && OneStep(s1, b, s2) && Possible(s2, c)
    ensures AllPossible(s, [a, b, c]) && Run(s, [a, b, c]) == Step(s2, c)
  {
    RunOne(s2, c);
    RunMore(s1, b, [c]);
    RunMore(s, a, [b] + [c]);
    assert [a] + ([b] + [c]) == [a, b, c];
  }

  lemma RunFour(s: System, s1: System, s2: System, s3: System, a: Event, b: Event, c: Event, d: Event)
    requires OneStep(s, a, s1) && OneStep(s1, b, s2) && OneStep(s2, c, s3) && Possible(s3, d)
    ensures AllPossible(s, [a, b, c, d]) && Run(s, [a, b, c, d]) == Step(s3, d)
  {
    RunThree(s1, s2, s3, b, c, d);
    RunMore(s, a, [b, c, d]);
    assert [a] + [b, c, d] == [a, b, c, d];
  }
}
