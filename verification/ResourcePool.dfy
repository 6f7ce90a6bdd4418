/**
 Runtime handles and the pools that issue them. A handle packs an index (23 bits), the template bit and a
 generation (8 bits) into 32 bits; a slot counts its generations in 16 bits.
 */
module ResourcePool {

  import opened Common

  // ---------------------------------------------------------------- handles

  const INDEX_UNITS := 0x80_0000
  const GENERATION_UNIT := 0x100_0000
  const SLOT_GENERATIONS := 0x1_0000
  const BLOCK_SIZE := 32

  /** The three bit fields. */
  datatype Eye = Eye(index: nat, template: bool, generation: nat)

  const EYE_INVALID := Eye(0, false, 0)

  predicate Fits(e: Eye) { e.index < INDEX_UNITS && e.generation < 256 }

  /** Construction cuts every value to the width of its field. */
  function MakeEye(index: nat, generation: nat, template: bool): (e: Eye)
    ensures Fits(e)
    ensures index < INDEX_UNITS && generation < 256 ==> e == Eye(index, template, generation)
  {
    Eye(index % INDEX_UNITS, template, generation % 256)
  }

  /** The same 32 bits as one number. */
  function Pack(e: Eye): (bits: nat)
    requires Fits(e)
    ensures bits < 0x1_0000_0000
  {
    e.index + (if e.template then INDEX_UNITS else 0) + e.generation * GENERATION_UNIT
  }

  function Unpack(bits: nat): (e: Eye)
    requires bits < 0x1_0000_0000
    ensures Fits(e)
  {
    Eye(bits % INDEX_UNITS, bits / INDEX_UNITS % 2 == 1, bits / GENERATION_UNIT)
  }

  /** The fields do not overlap and leave no bit out, so comparing handles as numbers compares the fields. */
  lemma UnpackPack(e: Eye)
    requires Fits(e)
    ensures Unpack(Pack(e)) == e
  {
    var t := if e.template then 1 else 0;
    var q := t + 2 * e.generation;
    assert Pack(e) == e.index + INDEX_UNITS * q;
    assert Pack(e) / INDEX_UNITS == q && Pack(e) % INDEX_UNITS == e.index;
    assert Pack(e) == (e.index + INDEX_UNITS * t) + GENERATION_UNIT * e.generation;
  }

  lemma PackUnpack(bits: nat)
    requires bits < 0x1_0000_0000
    ensures Pack(Unpack(bits)) == bits
  {
    assert bits / INDEX_UNITS / 2 == bits / GENERATION_UNIT;
    assert bits / INDEX_UNITS == 2 * (bits / INDEX_UNITS / 2) + bits / INDEX_UNITS % 2;
  }

  // ---------------------------------------------------------------- slots

  /** A slot of a block list; `used` is the negated free bit. Objects are numbered in order of creation. */
  datatype Slot = Slot(obj: Option<nat>, generation: nat, used: bool)

  datatype Pool = Pool(templates: seq<Slot>, instances: seq<Slot>, created: nat)

  function Side(p: Pool, template: bool): seq<Slot> { if template then p.templates else p.instances }

  function WithSide(p: Pool, template: bool, slots: seq<Slot>): Pool {
    if template then p.(templates := slots) else p.(instances := slots)
  }

  function FreshSlots(n: nat): (s: seq<Slot>)
    ensures |s| == n && forall k | 0 <= k < n :: s[k] == Slot(None, 0, false)
  {
    if n == 0 then [] else FreshSlots(n - 1) + [Slot(None, 0, false)]
  }

  function FirstFree(slots: seq<Slot>): (k: nat)
    ensures k <= |slots|
    ensures forall j | 0 <= j < k :: slots[j].used
    ensures k < |slots| ==> !slots[k].used
  {
    if slots == [] || !slots[0].used then 0
    else
      var k := FirstFree(slots[1..]);
      assert forall j | 1 <= j < 1 + k :: slots[j] == slots[1..][j - 1];
      1 + k
  }

  /** The slots with room for one more: a new block when all are used. */
  function Grown(slots: seq<Slot>): seq<Slot> {
    if FirstFree(slots) < |slots| then slots else slots + FreshSlots(BLOCK_SIZE)
  }

  /** The generation of the slot that is given out next. */
  function NextGeneration(slots: seq<Slot>): nat { Grown(slots)[FirstFree(slots)].generation }

  /** A new object in the first free slot, which keeps its generation. */
  function Created(p: Pool, template: bool): (Pool, Eye) {
    var k := FirstFree(Side(p, template));
    var slots := Grown(Side(p, template));
    var g := slots[k].generation;
    (WithSide(p, template, slots[k := Slot(Some(p.created), g, true)]).(created := p.created + 1), MakeEye(k, g, template))
  }

  /** Index 0 is never destroyed; any other handle must name a used slot. */
  predicate MayDestroy(p: Pool, e: Eye) {
    e.index == 0 || (e.index < |Side(p, e.template)| && Side(p, e.template)[e.index].used)
  }

  function Destroyed(p: Pool, e: Eye): Pool
    requires MayDestroy(p, e)
  {
    if e.index == 0 then p
    else
      var slots := Side(p, e.template);
      var g := slots[e.index].generation;
      WithSide(p, e.template, slots[e.index := Slot(None, (g + 1) % SLOT_GENERATIONS, false)])
  }

  /** What a handle stands for; `None` where the lookup fails one of its assertions. */
  function Resolve(p: Pool, e: Eye): Option<nat> {
    var slots := Side(p, e.template);
    if e.index < |slots| && slots[e.index].used && slots[e.index].generation == e.generation then slots[e.index].obj else None
  }

  /** Both lists start with the bad-data object. */
  function Initial(): Pool {
    Pool([Slot(Some(0), 0, true)] + FreshSlots(BLOCK_SIZE - 1), [Slot(Some(1), 0, true)] + FreshSlots(BLOCK_SIZE - 1), 2)
  }

  class Resources {
    var templates: seq<Slot>
    var instances: seq<Slot>
    var created: nat

    ghost function State(): Pool
      reads this
    {
      Pool(templates, instances, created)
    }

    constructor ()
      ensures State() == Initial()
    {
      templates := [Slot(Some(0), 0, true)] + FreshSlots(BLOCK_SIZE - 1);
      instances := [Slot(Some(1), 0, true)] + FreshSlots(BLOCK_SIZE - 1);
      created := 2;
    }

    /** `meBlockList::push`: the first free slot, in a new block if need be. */
    method Push(slots: seq<Slot>) returns (grown: seq<Slot>, k: nat)
      ensures k == FirstFree(slots) && grown == Grown(slots)
    {
      k := 0;
      while k < |slots| && slots[k].used
        invariant k <= |slots| && forall j | 0 <= j < k :: slots[j].used
      {
        k := k + 1;
      }
      grown := if k < |slots| then slots else slots + FreshSlots(BLOCK_SIZE);
    }

    method Create(template: bool) returns (e: Eye)
      modifies this
      ensures (State(), e) == Created(old(State()), template)
    {
      var slots, k := Push(if template then templates else instances);
      var g := slots[k].generation;
      slots := slots[k := Slot(Some(created), g, true)];
      if template { templates := slots; } else { instances := slots; }
      created := created + 1;
      e := MakeEye(k, g, template);
    }

    method Destroy(e: Eye)
      requires MayDestroy(State(), e)
      modifies this
      ensures State() == Destroyed(old(State()), e)
    {
      if e.index == 0 { return; }
      var slots := if e.template then templates else instances;
      var slot := slots[e.index];
      slots := slots[e.index := Slot(None, (slot.generation + 1) % SLOT_GENERATIONS, false)];
      if e.template { templates := slots; } else { instances := slots; }
    }

    method GetShared(e: Eye) returns (obj: Option<nat>)
      ensures obj == Resolve(State(), e)
    {
      var slots := if e.template then templates else instances;
      if e.index < |slots| && slots[e.index].used && slots[e.index].generation == e.generation {
        obj := slots[e.index].obj;
      } else {
        obj := None;
      }
    }
  }

  // ---------------------------------------------------------------- the bounds of the bit fields

  /** A new handle stands for the new object exactly as long as index and generation fit their fields. */
  lemma NewHandleResolves(p: Pool, template: bool)
    requires 0 < FirstFree(Side(p, template))
    requires FirstFree(Side(p, template)) < INDEX_UNITS
    ensures var (after, e) := Created(p, template);
            Resolve(after, e) == if NextGeneration(Side(p, template)) < 256 then Some(p.created) else None
  {
    var k := FirstFree(Side(p, template));
  }

  // ---------------------------------------------------------------- runs

  datatype Op = Create(template: bool) | Destroy(eye: Eye)

  /** A pool with the handles it has issued: those still current with their objects, and the destroyed ones. */
  datatype World = World(pool: Pool, live: map<Eye, nat>, dead: set<Eye>)

  /** What callers keep to: fewer than 2^23 slots, and only current handles destroyed. */
  predicate Possible(w: World, op: Op) {
    match op
    case Create(template) => FirstFree(Side(w.pool, template)) < INDEX_UNITS
    case Destroy(e) => e in w.live && MayDestroy(w.pool, e)
  }

  /** And no slot is given out again once it has been destroyed 256 times. */
  predicate Allowed(w: World, op: Op) {
    Possible(w, op) && (op.Create? ==> NextGeneration(Side(w.pool, op.template)) < 256)
  }

  function Step(w: World, op: Op): World
    requires Possible(w, op)
  {
    match op
    case Create(template) =>
      var (pool, e) := Created(w.pool, template);
      World(pool, w.live[e := w.pool.created], w.dead)
    case Destroy(e) => World(Destroyed(w.pool, e), w.live - {e}, w.dead + {e})
  }

  ghost predicate AllAllowed(w: World, ops: seq<Op>)
    decreases |ops|
  {
    ops == [] || (Allowed(w, ops[0]) && AllAllowed(Step(w, ops[0]), ops[1..]))
  }

  ghost function Run(w: World, ops: seq<Op>): World
    requires AllAllowed(w, ops)
    decreases |ops|
  {
    if ops == [] then w else Run(Step(w, ops[0]), ops[1..])
  }

  /** Used slots beyond the first are exactly the current handles of one side. */
  ghost predicate SlotsGood(slots: seq<Slot>, template: bool, live: map<Eye, nat>) {
    && |slots| > 0 && slots[0].used
    && forall k | 1 <= k < |slots| ::
         && slots[k].generation <= 256
         && (slots[k].used ==> k < INDEX_UNITS && Eye(k, template, slots[k].generation) in live)
  }

  ghost predicate LiveGood(p: Pool, live: map<Eye, nat>) {
    forall e | e in live :: e.index != 0 && Fits(e) && Resolve(p, e) == Some(live[e]) && live[e] < p.created
  }

  ghost predicate DeadGood(p: Pool, dead: set<Eye>) {
    forall e | e in dead ::
      var slots := Side(p, e.template);
      0 < e.index < |slots| && e.generation < slots[e.index].generation
  }

  ghost predicate Injective(live: map<Eye, nat>) {
    forall e, f | e in live && f in live && live[e] == live[f] :: e == f
  }

  ghost predicate Good(w: World) {
    && SlotsGood(w.pool.templates, true, w.live) && SlotsGood(w.pool.instances, false, w.live)
    && LiveGood(w.pool, w.live) && DeadGood(w.pool, w.dead) && Injective(w.live)
  }

  lemma InitialGood()
    ensures Good(World(Initial(), map[], {}))
  {
  }

  /** The one slot a creation changes. */
  lemma CreatedSlots(p: Pool, template: bool)
    ensures var k := FirstFree(Side(p, template));
            var (after, e) := Created(p, template);
            && Side(after, !template) == Side(p, !template)
            && k < |Side(after, template)| && |Side(p, template)| <= |Side(after, template)|
            && Side(after, template)[k] == Slot(Some(p.created), if k < |Side(p, template)| then Side(p, template)[k].generation else 0, true)
            && (forall j | 0 <= j < |Side(p, template)| && j != k :: Side(after, template)[j] == Side(p, template)[j])
            && (forall j | |Side(p, template)| <= j < |Side(after, template)| && j != k :: Side(after, template)[j] == Slot(None, 0, false))
            && e == MakeEye(k, Side(after, template)[k].generation, template)
            && after.created == p.created + 1
  {
  }

  /** Handles that stood for something stand for the same thing, and the new handle is not among them. */
  lemma CreateKeepsHandle(p: Pool, template: bool, f: Eye)
    requires Resolve(p, f).Some?
    ensures Resolve(Created(p, template).0, f) == Resolve(p, f)
    ensures FirstFree(Side(p, template)) < INDEX_UNITS ==> f != Created(p, template).1
  {
    CreatedSlots(p, template);
  }

  lemma CreateKeepsSlots(w: World, template: bool, side: bool)
    requires Good(w) && Allowed(w, Create(template))
    ensures SlotsGood(Side(Created(w.pool, template).0, side), side, Step(w, Create(template)).live)
  {
    CreatedSlots(w.pool, template);
    assert SlotsGood(Side(w.pool, side), side, w.live);
  }

  lemma CreateKeepsDead(w: World, template: bool)
    requires Good(w)
    ensures DeadGood(Created(w.pool, template).0, w.dead)
  {
    CreatedSlots(w.pool, template);
  }

  lemma CreateKeepsGood(w: World, template: bool)
    requires Good(w) && Allowed(w, Create(template))
    ensures Good(Step(w, Create(template)))
  {
    var (after, e) := Created(w.pool, template);
    var live := w.live[e := w.pool.created];
    CreateKeepsSlots(w, template, true);
    CreateKeepsSlots(w, template, false);
    CreateKeepsDead(w, template);
    NewHandle(w, template);
    forall f | f in live && f != e ensures f.index != 0 && Fits(f) && Resolve(after, f) == Some(live[f]) && live[f] < w.pool.created {
      CreateKeepsHandle(w.pool, template, f);
    }
    assert LiveGood(after, live);
  }

  lemma NewHandle(w: World, template: bool)
    requires Good(w) && Allowed(w, Create(template))
    ensures var (after, e) := Created(w.pool, template);
            e.index != 0 && Resolve(after, e) == Some(w.pool.created) && after.created == w.pool.created + 1
  {
    CreatedSlots(w.pool, template);
  }

  lemma DestroyKeepsGood(w: World, e: Eye)
    requires Good(w) && Allowed(w, Destroy(e))
    ensures Good(Step(w, Destroy(e)))
  {
    var p, template, k := w.pool, e.template, e.index;
    var after := Destroyed(p, e);
    var live := w.live - {e};
    assert Resolve(p, e) == Some(w.live[e]);
    forall f | f in live ensures Resolve(after, f) == Some(live[f]) {
      assert Resolve(p, f) == Some(w.live[f]);
      if f.template == template && f.index == k {
        assert false;
      }
    }
    DestroyKeepsSlots(w, e, true);
    DestroyKeepsSlots(w, e, false);
  }

  lemma DestroyKeepsSlots(w: World, e: Eye, template: bool)
    requires Good(w) && Allowed(w, Destroy(e))
    ensures SlotsGood(Side(Destroyed(w.pool, e), template), template, w.live - {e})
  {
    var slots, after := Side(w.pool, template), Side(Destroyed(w.pool, e), template);
    assert Resolve(w.pool, e) == Some(w.live[e]);
    forall j | 1 <= j < |after| && after[j].used ensures Eye(j, template, after[j].generation) in w.live - {e} {
      assert after[j] == slots[j];
    }
  }

  lemma {:induction false} RunKeepsGood(w: World, ops: seq<Op>)
    requires Good(w) && AllAllowed(w, ops)
    ensures Good(Run(w, ops))
    decreases |ops|
  {
    if ops != [] {
      match ops[0] {
        case Create(template) => CreateKeepsGood(w, template);
        case Destroy(e) => DestroyKeepsGood(w, e);
      }
      RunKeepsGood(Step(w, ops[0]), ops[1..]);
    }
  }

  /**
   Over every run: current handles stand for the objects they were created for, and for different ones;
   destroyed handles match nothing any more; index 0 is never issued and the bad data never goes away.
   */
  lemma HandleSafety(ops: seq<Op>)
    requires AllAllowed(World(Initial(), map[], {}), ops)
    ensures var w := Run(World(Initial(), map[], {}), ops);
            && (forall e | e in w.live :: Resolve(w.pool, e) == Some(w.live[e]) && e.index != 0)
            && (forall e, f | e in w.live && f in w.live && e != f :: w.live[e] != w.live[f])
            && (forall e | e in w.dead :: Resolve(w.pool, e) == None && e !in w.live)
            && |w.pool.templates| > 0 && w.pool.templates[0].used && |w.pool.instances| > 0 && w.pool.instances[0].used
  {
    InitialGood();
    RunKeepsGood(World(Initial(), map[], {}), ops);
    var w := Run(World(Initial(), map[], {}), ops);
    forall e | e in w.dead ensures Resolve(w.pool, e) == None && e !in w.live {
      assert e.generation < Side(w.pool, e.template)[e.index].generation;
    }
  }

  // ---------------------------------------------------------------- one destruction too many

  /** The pool after a template has been created and destroyed `n` times. */
  function Worn(n: nat): Pool { Initial().(templates := [Slot(Some(0), 0, true), Slot(None, n, false)] + FreshSlots(BLOCK_SIZE - 2), created := 2 + n) }

  ghost function AfterRounds(n: nat): (w: World)
    requires n < SLOT_GENERATIONS
    ensures w.pool == Worn(n) && w.live == map[]
  {
    if n == 0 then
      assert FreshSlots(BLOCK_SIZE - 1) == [Slot(None, 0, false)] + FreshSlots(BLOCK_SIZE - 2);
      World(Initial(), map[], {})
    else
      var w := AfterRounds(n - 1);
      var e := Created(w.pool, true).1;
      WornRound(w, n - 1);
      Step(Step(w, Create(true)), Destroy(e))
  }

  /** The first free slot is the one that was freed last. */
  lemma WornFree(n: nat)
    ensures FirstFree(Worn(n).templates) == 1 && Grown(Worn(n).templates) == Worn(n).templates
  {
    var slots := Worn(n).templates;
    assert slots[0].used && !slots[1].used;
  }

  lemma WornRound(w: World, n: nat)
    requires w.pool == Worn(n) && w.live == map[] && n + 1 < SLOT_GENERATIONS
    ensures var e := Created(w.pool, true).1;
            && Possible(w, Create(true)) && Possible(Step(w, Create(true)), Destroy(e))
            && var t := Step(Step(w, Create(true)), Destroy(e)); t.pool == Worn(n + 1) && t.live == map[]
  {
    WornFree(n);
    var e := Created(w.pool, true).1;
    var t := Step(Step(w, Create(true)), Destroy(e));
    assert e.index == 1;
    assert t.pool.templates == Worn(n + 1).templates;
    assert t.live == map[];
  }

  /** After `n` rounds of creating and destroying a template the next handle resolves exactly when there were fewer than 256. */
  lemma WornOut(n: nat)
    requires n < SLOT_GENERATIONS
    ensures var w := AfterRounds(n);
            var e := Created(w.pool, true).1;
            && Possible(w, Create(true)) && e == Eye(1, true, n % 256)
            && Resolve(Step(w, Create(true)).pool, e) == if n < 256 then Some(2 + n) else None
  {
    WornFree(n);
    assert AfterRounds(n).pool == Worn(n);
  }
}
