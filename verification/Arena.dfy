/**
 The bump allocator: allocation, resizing (in place for the most recent block), clearing and temporary marks.
 Addresses count from the start of the backing memory; sizes are 64-bit and wrap around.
 */
module Arena {

  import opened Common
  import opened Bytes

  const TWO_64: int := 0x1_0000_0000_0000_0000

  function Wrap(n: nat): nat { n % TWO_64 }

  function Min(a: nat, b: nat): nat { if a < b then a else b }

  // ---------------------------------------------------------------- the operations

  /** Backing memory and the two offsets. */
  datatype Raw = Raw(mem: bytes, offset: nat, prev: nat)

  function Allocated(r: Raw, size: nat): (Raw, Option<nat>) {
    if Wrap(r.offset + size) > |r.mem| then (r, None)
    else (r.(prev := r.offset, offset := Wrap(r.offset + size)), Some(r.offset))
  }

  function Copied(mem: bytes, from: nat, to: nat, n: nat): bytes
    requires from + n <= |mem| && to + n <= |mem|
  {
    mem[..to] + mem[from..from + n] + mem[to + n..]
  }

  /**
   What becomes of a resize: it is refused (null), it yields an address, its copy leaves the backing memory, or the
   block is out of range, which stops the process at an assertion.
   */
  datatype Resizing = Refused | At(addr: nat) | Fault | OutOfRange

  function Resized(r: Raw, addr: nat, oldSize: nat, newSize: nat): (Raw, Resizing) {
    if addr >= r.offset then (r, OutOfRange)
    else if addr == r.prev then (r.(offset := Wrap(r.prev + newSize)), At(addr))
    else
      var n := Min(oldSize, newSize);
      var (after, p) := Allocated(r, newSize);
      if p.None? then (after, if n == 0 then Refused else Fault)
      else if addr + n <= |r.mem| && p.value + n <= |r.mem| then (after.(mem := Copied(r.mem, addr, p.value, n)), At(p.value))
      else (after, Fault)
  }

  function Cleared(r: Raw): Raw { r.(offset := 0, prev := 0) }

  datatype Temp = Temp(offset: nat, prev: nat)

  class ArenaAllocator {
    const backing: array<byte>
    var offset: nat
    var prevOffset: nat

    ghost function State(): Raw
      reads this, backing
    {
      Raw(backing[..], offset, prevOffset)
    }

    constructor (size: nat)
      ensures fresh(backing) && backing.Length == size && offset == 0 && prevOffset == 0
    {
      backing := new byte[size](_ => 0);
      offset := 0;
      prevOffset := 0;
    }

    method Alloc(size: nat) returns (p: Option<nat>)
      modifies this
      ensures State() == Allocated(old(State()), size).0 && p == Allocated(old(State()), size).1
    {
      var isOutOfMem := Wrap(offset + size) > backing.Length;
      if isOutOfMem { return None; }
      p := Some(offset);
      prevOffset := offset;
      offset := Wrap(offset + size);
    }

    method Resize(oldMem: nat, oldSize: nat, newSize: nat) returns (p: Resizing)
      modifies this, backing
      ensures (State(), p) == Resized(old(State()), oldMem, oldSize, newSize)
    {
      var isOldMemInRange := oldMem < offset;
      if !isOldMemInRange { return OutOfRange; }
      if oldMem == prevOffset {
        offset := Wrap(prevOffset + newSize);
        return At(oldMem);
      }
      var newMem := Alloc(newSize);
      var copySize := if oldSize < newSize then oldSize else newSize;
      if newMem.None? { return if copySize == 0 then Refused else Fault; }
      if oldMem + copySize > backing.Length || newMem.value + copySize > backing.Length { return Fault; }
      Move(oldMem, newMem.value, copySize);
      p := At(newMem.value);
    }

    /** Copies to a place that does not overlap from below. */
    method Move(from: nat, to: nat, n: nat)
      requires from <= to && from + n <= backing.Length && to + n <= backing.Length
      modifies backing
      ensures backing[..] == Copied(old(backing[..]), from, to, n)
    {
      ghost var before := backing[..];
      var k := n;
      while k > 0
        invariant 0 <= k <= n
        invariant forall i | 0 <= i < backing.Length && !(to + k <= i < to + n) :: backing[i] == before[i]
        invariant forall j | to + k <= j < to + n :: backing[j] == before[j - to + from]
      {
        k := k - 1;
        backing[to + k] := backing[from + k];
      }
    }

    method Clear()
      modifies this
      ensures State() == Cleared(old(State()))
    {
      offset := 0;
      prevOffset := 0;
    }

    method TempInit() returns (t: Temp)
      ensures t == Temp(offset, prevOffset)
    {
      t := Temp(offset, prevOffset);
    }

    method TempEnd(t: Temp)
      modifies this
      ensures State() == old(State()).(offset := t.offset, prev := t.prev)
    {
      offset := t.offset;
      prevOffset := t.prev;
    }
  }

  // ---------------------------------------------------------------- live blocks

  datatype Block = Block(start: nat, size: nat)

  /** A temporary mark with the blocks that were live when it was set. */
  datatype Mark = Mark(temp: Temp, live: seq<Block>)

  /** An arena with the blocks its callers hold, in order of address, and the marks still open, outermost first. */
  datatype Arena = Arena(raw: Raw, live: seq<Block>, marks: seq<Mark>)

  function End(b: Block): nat { b.start + b.size }

  ghost predicate Ordered(live: seq<Block>) {
    forall i, j | 0 <= i < j < |live| :: End(live[i]) <= live[j].start
  }

  /** A live block lies before the most recent allocation, or is that allocation. */
  ghost predicate BlockOk(b: Block, offset: nat, prev: nat) {
    End(b) <= prev || (b.start == prev && End(b) == offset)
  }

  ghost predicate BlocksOk(live: seq<Block>, offset: nat, prev: nat) {
    && prev <= offset && Ordered(live)
    && forall i | 0 <= i < |live| :: BlockOk(live[i], offset, prev)
  }

  /** The marks lie below each other and below the offset. */
  ghost predicate MarksOk(marks: seq<Mark>, offset: nat) {
    marks != [] ==>
      var m := marks[|marks| - 1];
      BlocksOk(m.live, m.temp.offset, m.temp.prev) && m.temp.offset <= offset && MarksOk(marks[..|marks| - 1], m.temp.offset)
  }

  ghost predicate Ok(a: Arena) {
    && a.raw.offset <= |a.raw.mem| < TWO_64
    && BlocksOk(a.live, a.raw.offset, a.raw.prev) && MarksOk(a.marks, a.raw.offset)
  }

  /** Where the innermost mark is. */
  function Base(a: Arena): nat { if a.marks == [] then 0 else a.marks[|a.marks| - 1].temp.offset }

  // ---------------------------------------------------------------- events

  /** A 64-bit size. */
  type Size = n: int | 0 <= n < TWO_64

  datatype Event = Alloc(size: Size) | Resize(i: nat, newSize: Size) | Clear | Begin | Finish

  predicate Returns(r: Resizing) { r.Refused? || r.At? }

  /** The event refers to a live block, which is in range, or to an open mark, and no copy leaves the memory. */
  predicate Possible(a: Arena, ev: Event) {
    match ev
    case Resize(i, newSize) => i < |a.live| && Returns(Resized(a.raw, a.live[i].start, a.live[i].size, newSize).1)
    case Finish => a.marks != []
    case _ => true
  }

  function Step(a: Arena, ev: Event): Arena
    requires Possible(a, ev)
  {
    match ev
    case Alloc(size) =>
      var (raw, p) := Allocated(a.raw, size);
      if p.None? then a else Arena(raw, a.live + [Block(p.value, size)], a.marks)
    case Resize(i, newSize) =>
      var b := a.live[i];
      var (raw, p) := Resized(a.raw, b.start, b.size, newSize);
      if p.At? then Arena(raw, a.live[..i] + a.live[i + 1..] + [Block(p.addr, newSize)], a.marks) else a
    case Clear => Arena(Cleared(a.raw), [], a.marks)
    case Begin => a.(marks := a.marks + [Mark(Temp(a.raw.offset, a.raw.prev), a.live)])
    case Finish =>
      var m := a.marks[|a.marks| - 1];
      Arena(a.raw.(offset := m.temp.offset, prev := m.temp.prev), m.live, a.marks[..|a.marks| - 1])
  }

  /** The blocks allocated after block `i` are all empty. */
  predicate OnlyEmptyAfter(live: seq<Block>, i: nat) {
    forall j | i < j < |live| :: live[j].size == 0
  }

  /** The new end of a block resized in place lies in the memory, not below the innermost mark and not below a later block. */
  predicate FitsInPlace(a: Arena, i: nat, newSize: nat) {
    Base(a) <= a.raw.prev + newSize <= |a.raw.mem| && OnlyEmptyAfter(a.live, i)
  }

  /**
   What callers have to keep to. An allocation is refused or its end does not wrap around. A block resized in place is
   not an empty one at the offset and still fits; one that has to move finds room, or is empty and the allocation is
   refused. Clearing keeps the marks.
   */
  predicate Allowed(a: Arena, ev: Event) {
    match ev
    case Alloc(size) => a.raw.offset + size < TWO_64 || Allocated(a.raw, size).1.None?
    case Resize(i, newSize) =>
      && i < |a.live|
      && if a.live[i].start == a.raw.prev then a.raw.prev < a.raw.offset && FitsInPlace(a, i, newSize)
         else a.raw.offset + newSize <= |a.raw.mem| || (a.live[i].size == 0 && Allocated(a.raw, newSize).1.None?)
    case Clear => Base(a) == 0
    case Begin => true
    case Finish => a.marks != []
  }

  // ---------------------------------------------------------------- every event keeps the blocks apart

  /** A block at the offset goes after all others. */
  lemma Appended(live: seq<Block>, offset: nat, size: nat)
    requires Ordered(live) && forall i | 0 <= i < |live| :: End(live[i]) <= offset
    ensures BlocksOk(live + [Block(offset, size)], offset + size, offset)
  {
  }

  lemma AllBelow(live: seq<Block>, offset: nat, prev: nat)
    requires BlocksOk(live, offset, prev)
    ensures forall i | 0 <= i < |live| :: End(live[i]) <= offset
  {
    forall i | 0 <= i < |live| ensures End(live[i]) <= offset { assert BlockOk(live[i], offset, prev); }
  }

  /** The last live block does not end where the arena believes, so the blocks are not in order. */
  lemma LastBlockBad(a: Arena, t: Arena, b: Block)
    requires t.live != [] && t.live[|t.live| - 1] == b && |t.raw.mem| == |a.raw.mem| < End(b)
    ensures !Ok(t)
  {
    assert BlocksOk(t.live, t.raw.offset, t.raw.prev) ==> BlockOk(b, t.raw.offset, t.raw.prev);
  }

  /** An allocation is sound exactly when it is refused or the addition did not wrap around. */
  lemma AllocExact(a: Arena, size: Size)
    requires Ok(a)
    ensures Ok(Step(a, Alloc(size))) <==> Allocated(a.raw, size).1.None? || a.raw.offset + size < TWO_64
  {
    AllBelow(a.live, a.raw.offset, a.raw.prev);
    if Allocated(a.raw, size).1.Some? {
      if a.raw.offset + size < TWO_64 {
        Appended(a.live, a.raw.offset, size);
      } else {
        LastBlockBad(a, Step(a, Alloc(size)), Block(a.raw.offset, size));
      }
    }
  }

  /** Blocks after one that starts at the most recent allocation start there too. */
  lemma AfterMostRecent(live: seq<Block>, offset: nat, prev: nat, i: nat, j: nat)
    requires BlocksOk(live, offset, prev) && i < j < |live| && live[i].start == prev
    ensures live[j].start == prev && live[i].size == 0 && (live[j].size > 0 ==> End(live[j]) == offset > prev)
  {
    assert End(live[i]) <= live[j].start;
    assert BlockOk(live[j], offset, prev);
  }

  lemma ResizeInPlaceKeepsOk(a: Arena, i: nat, newSize: Size)
    requires Ok(a) && i < |a.live| && a.live[i].start == a.raw.prev < a.raw.offset && FitsInPlace(a, i, newSize)
    ensures Possible(a, Resize(i, newSize)) && Ok(Step(a, Resize(i, newSize)))
  {
    var t := Step(a, Resize(i, newSize));
    var others := a.live[..i] + a.live[i + 1..];
    OthersOrdered(a.live, i);
    forall k | 0 <= k < |others| ensures End(others[k]) <= a.raw.prev {
      if k < i {
        assert others[k] == a.live[k] && End(a.live[k]) <= a.live[i].start;
      } else {
        assert others[k] == a.live[k + 1];
        AfterMostRecent(a.live, a.raw.offset, a.raw.prev, i, k + 1);
      }
    }
    Appended(others, a.raw.prev, newSize);
  }

  lemma LaterBlockCutOff(live: seq<Block>, i: nat, j: nat, b: Block)
    requires i < j < |live| && live[j].start == b.start && live[j].size > 0
    ensures !Ordered(live[..i] + live[i + 1..] + [b])
  {
    var after := live[..i] + live[i + 1..] + [b];
    assert after[j - 1] == live[j] && after[|live| - 1] == b;
    assert End(after[j - 1]) > after[|live| - 1].start;
  }

  /**
   In place nothing is checked but that the block is in range, which an empty block at the offset is not. The result is
   sound exactly when the new end lies in the backing memory, not below the innermost mark, and no block that holds
   anything was allocated after this one.
   */
  lemma ResizeInPlaceExact(a: Arena, i: nat, newSize: Size)
    requires Ok(a) && i < |a.live| && a.live[i].start == a.raw.prev
    ensures Possible(a, Resize(i, newSize)) <==> a.raw.prev < a.raw.offset
    ensures Possible(a, Resize(i, newSize)) ==>
              (Ok(Step(a, Resize(i, newSize))) <==>
                 Base(a) <= a.raw.prev + newSize <= |a.raw.mem| && forall j | i < j < |a.live| :: a.live[j].size == 0)
  {
    if a.raw.prev < a.raw.offset {
      var t := Step(a, Resize(i, newSize));
      if FitsInPlace(a, i, newSize) {
        ResizeInPlaceKeepsOk(a, i, newSize);
      } else if a.raw.prev + newSize > |a.raw.mem| {
        LastBlockBad(a, t, Block(a.raw.prev, newSize));
      } else if a.raw.prev + newSize < Base(a) {
        assert t.raw.offset < Base(t);
      } else {
        var j :| i < j < |a.live| && a.live[j].size > 0;
        AfterMostRecent(a.live, a.raw.offset, a.raw.prev, i, j);
        LaterBlockCutOff(a.live, i, j, Block(a.raw.prev, newSize));
      }
    }
  }

  /** A block that is not the most recent one moves; this is sound exactly when there is room, or nothing to move. */
  lemma ResizeByMovingExact(a: Arena, i: nat, newSize: Size)
    requires Ok(a) && i < |a.live| && a.live[i].start != a.raw.prev
    ensures Possible(a, Resize(i, newSize)) && Ok(Step(a, Resize(i, newSize))) <==>
              || a.raw.offset + newSize <= |a.raw.mem|
              || (a.live[i].size == 0 && Allocated(a.raw, newSize).1.None?)
  {
    var others := a.live[..i] + a.live[i + 1..];
    AllBelow(a.live, a.raw.offset, a.raw.prev);
    assert BlockOk(a.live[i], a.raw.offset, a.raw.prev);
    if Allocated(a.raw, newSize).1.Some? && Possible(a, Resize(i, newSize)) {
      if a.raw.offset + newSize <= |a.raw.mem| {
        forall k | 0 <= k < |others| ensures End(others[k]) <= a.raw.offset {
          assert others[k] == if k < i then a.live[k] else a.live[k + 1];
        }
        OthersOrdered(a.live, i);
        Appended(others, a.raw.offset, newSize);
      } else {
        LastBlockBad(a, Step(a, Resize(i, newSize)), Block(a.raw.offset, newSize));
      }
    }
  }

  lemma OthersOrdered(live: seq<Block>, i: nat)
    requires Ordered(live) && i < |live|
    ensures Ordered(live[..i] + live[i + 1..])
  {
    var others := live[..i] + live[i + 1..];
    forall j, k | 0 <= j < k < |others| ensures End(others[j]) <= others[k].start {
      assert others[j] == live[if j < i then j else j + 1] && others[k] == live[if k < i then k else k + 1];
    }
  }

  /** An event leaves every live block in bounds and apart from the others, marks included, exactly when it is allowed. */
  lemma StepExact(a: Arena, ev: Event)
    requires Ok(a)
    ensures Allowed(a, ev) <==> Possible(a, ev) && Ok(Step(a, ev))
  {
    match ev
    case Alloc(size) => AllocExact(a, size);
    case Resize(i, newSize) =>
      if i < |a.live| {
        if a.live[i].start == a.raw.prev { ResizeInPlaceExact(a, i, newSize); } else { ResizeByMovingExact(a, i, newSize); }
      }
    case Clear =>
    case Begin =>
      var t := Step(a, Begin);
      assert t.marks[..|t.marks| - 1] == a.marks;
    case Finish =>
  }

  // ---------------------------------------------------------------- contents

  function Content(a: Arena, b: Block): bytes
    requires End(b) <= |a.raw.mem|
  {
    a.raw.mem[b.start..End(b)]
  }

  /** No event writes below the old offset, that is, into any live block. */
  lemma NothingOverwritten(a: Arena, ev: Event)
    requires Ok(a) && Allowed(a, ev)
    ensures Possible(a, ev)
    ensures |Step(a, ev).raw.mem| == |a.raw.mem| && Step(a, ev).raw.mem[..a.raw.offset] == a.raw.mem[..a.raw.offset]
  {
    StepExact(a, ev);
    if ev.Resize? { assert BlockOk(a.live[ev.i], a.raw.offset, a.raw.prev); }
  }

  /** A resize keeps the common part of the block, or does nothing at all. */
  lemma ResizeKeepsContent(a: Arena, i: nat, newSize: Size)
    requires Ok(a) && Allowed(a, Resize(i, newSize))
    ensures Possible(a, Resize(i, newSize)) && End(a.live[i]) <= |a.raw.mem|
    ensures var t := Step(a, Resize(i, newSize));
            if Resized(a.raw, a.live[i].start, a.live[i].size, newSize).1.Refused? then t == a
            else
              var n := Min(a.live[i].size, newSize);
              var b := t.live[|t.live| - 1];
              && b.size == newSize && End(b) <= |t.raw.mem| && Content(t, b)[..n] == Content(a, a.live[i])[..n]
              && t.live[..|t.live| - 1] == a.live[..i] + a.live[i + 1..]
  {
    StepExact(a, Resize(i, newSize));
    AllBelow(a.live, a.raw.offset, a.raw.prev);
    if Resized(a.raw, a.live[i].start, a.live[i].size, newSize).1.At? {
      var t := Step(a, Resize(i, newSize));
      var last := t.live[|t.live| - 1];
      AllBelow(t.live, t.raw.offset, t.raw.prev);
      KeepsCommonPart(a, i, newSize);
      var n := Min(a.live[i].size, newSize);
      Prefix(t.raw.mem, last.start, End(last), n);
      Prefix(a.raw.mem, a.live[i].start, End(a.live[i]), n);
    }
  }

  lemma Prefix(m: bytes, lo: nat, hi: nat, n: nat)
    requires lo + n <= hi <= |m|
    ensures m[lo..hi][..n] == m[lo..lo + n]
  {
  }

  /** No event changes the contents of a live block; a resize may only move one. */
  lemma EventKeepsContents(a: Arena, ev: Event, k: nat)
    requires Ok(a) && Allowed(a, ev) && k < |a.live|
    ensures Possible(a, ev)
    ensures End(a.live[k]) <= |a.raw.mem| == |Step(a, ev).raw.mem| && Content(Step(a, ev), a.live[k]) == Content(a, a.live[k])
  {
    NothingOverwritten(a, ev);
    AllBelow(a.live, a.raw.offset, a.raw.prev);
    SliceBelow(Step(a, ev).raw.mem, a.raw.mem, a.raw.offset, a.live[k].start, End(a.live[k]));
  }

  lemma SliceBelow(x: bytes, y: bytes, n: nat, lo: nat, hi: nat)
    requires lo <= hi <= n <= |x| && n <= |y| && x[..n] == y[..n]
    ensures x[lo..hi] == y[lo..hi]
  {
    assert x[lo..hi] == x[..n][lo..hi] && y[lo..hi] == y[..n][lo..hi];
  }

  lemma KeepsCommonPart(a: Arena, i: nat, newSize: nat)
    requires Ok(a) && i < |a.live| && Resized(a.raw, a.live[i].start, a.live[i].size, newSize).1.At?
    ensures var n := Min(a.live[i].size, newSize);
            var (raw, p) := Resized(a.raw, a.live[i].start, a.live[i].size, newSize);
            a.live[i].start + n <= |a.raw.mem| && p.addr + n <= |raw.mem|
            && raw.mem[p.addr..p.addr + n] == a.raw.mem[a.live[i].start..a.live[i].start + n]
  {
    assert BlockOk(a.live[i], a.raw.offset, a.raw.prev);
  }

  // ---------------------------------------------------------------- runs

  ghost predicate AllAllowed(a: Arena, events: seq<Event>)
    requires Ok(a)
    decreases |events|
  {
    events == [] || (Allowed(a, events[0]) && (StepExact(a, events[0]); AllAllowed(Step(a, events[0]), events[1..])))
  }

  ghost function Run(a: Arena, events: seq<Event>): (t: Arena)
    requires Ok(a) && AllAllowed(a, events)
    ensures Ok(t)
    decreases |events|
  {
    if events == [] then a else (StepExact(a, events[0]); Run(Step(a, events[0]), events[1..]))
  }

  /** An empty arena over some memory. */
  function Empty(mem: bytes): Arena { Arena(Raw(mem, 0, 0), [], []) }

  /** After every run the live blocks are in bounds and pairwise disjoint. */
  lemma BlocksDisjoint(mem: bytes, events: seq<Event>, i: nat, j: nat)
    requires |mem| < TWO_64 && AllAllowed(Empty(mem), events)
    requires i < |Run(Empty(mem), events).live| && j < |Run(Empty(mem), events).live| && i != j
    ensures var a := Run(Empty(mem), events);
            && |a.raw.mem| >= End(a.live[i])
            && (End(a.live[i]) <= a.live[j].start || End(a.live[j]) <= a.live[i].start)
  {
    var a := Run(Empty(mem), events);
    assert BlockOk(a.live[i], a.raw.offset, a.raw.prev);
    if i < j { assert End(a.live[i]) <= a.live[j].start; } else { assert End(a.live[j]) <= a.live[i].start; }
  }

  /** The events stay under the first `d` marks. */
  ghost predicate Under(a: Arena, events: seq<Event>, d: nat)
    requires Ok(a) && AllAllowed(a, events)
    decreases |events|
  {
    |a.marks| >= d && (events == [] || (StepExact(a, events[0]); Under(Step(a, events[0]), events[1..], d)))
  }

  /** The first `d` marks and the memory below the last of them stay as they are. */
  ghost predicate Protected(a: Arena, t: Arena, d: nat) {
    && 0 < d <= |a.marks| && d <= |t.marks| && t.marks[..d] == a.marks[..d]
    && a.marks[d - 1].temp.offset <= |a.raw.mem| == |t.raw.mem|
    && t.raw.mem[..a.marks[d - 1].temp.offset] == a.raw.mem[..a.marks[d - 1].temp.offset]
  }

  lemma {:induction false} MarkBelow(marks: seq<Mark>, offset: nat, k: nat)
    requires MarksOk(marks, offset) && k < |marks|
    ensures marks[k].temp.offset <= offset
    decreases |marks|
  {
    var n := |marks| - 1;
    if k < n { MarkBelow(marks[..n], marks[n].temp.offset, k); }
  }

  lemma MarksKept(a: Arena, ev: Event, d: nat)
    requires Possible(a, ev) && d <= |a.marks| && d <= |Step(a, ev).marks|
    ensures Step(a, ev).marks[..d] == a.marks[..d]
  {
  }

  lemma StepProtected(a: Arena, ev: Event, d: nat)
    requires Ok(a) && Allowed(a, ev) && 0 < d <= |a.marks|
    ensures Possible(a, ev)
    ensures d <= |Step(a, ev).marks| ==> Protected(a, Step(a, ev), d)
  {
    NothingOverwritten(a, ev);
    MarkBelow(a.marks, a.raw.offset, d - 1);
    var t := Step(a, ev);
    var m := a.marks[d - 1].temp.offset;
    SliceBelow(t.raw.mem, a.raw.mem, a.raw.offset, 0, m);
    if d <= |t.marks| { MarksKept(a, ev, d); }
  }

  lemma {:induction false} RunProtected(a: Arena, events: seq<Event>, d: nat)
    requires Ok(a) && AllAllowed(a, events) && Under(a, events, d) && d > 0
    ensures Protected(a, Run(a, events), d)
    decreases |events|
  {
    if events == [] {
      MarkBelow(a.marks, a.raw.offset, d - 1);
    } else {
      StepExact(a, events[0]);
      StepProtected(a, events[0], d);
      RunProtected(Step(a, events[0]), events[1..], d);
    }
  }

  /**
   Whatever happens between setting a mark and ending it, properly nested: offsets, live blocks and their contents
   are afterwards what they were before.
   */
  lemma TempRestores(a: Arena, events: seq<Event>)
    requires Ok(a)
    requires var b := Step(a, Begin); Ok(b) && AllAllowed(b, events) && Under(b, events, |b.marks|)
    requires |Run(Step(a, Begin), events).marks| == |a.marks| + 1
    ensures var t := Step(Run(Step(a, Begin), events), Finish);
            && t.raw.offset == a.raw.offset && t.raw.prev == a.raw.prev && t.live == a.live && t.marks == a.marks
            && |t.raw.mem| == |a.raw.mem| && t.raw.mem[..a.raw.offset] == a.raw.mem[..a.raw.offset]
  {
    var b := Step(a, Begin);
    var c := Run(b, events);
    var n := |a.marks|;
    RunProtected(b, events, n + 1);
    assert b.marks[n] == Mark(Temp(a.raw.offset, a.raw.prev), a.live);
    assert c.marks[..n + 1][n] == b.marks[..n + 1][n];
    assert c.marks[..n] == c.marks[..n + 1][..n] && b.marks[..n + 1][..n] == a.marks;
  }

  // ---------------------------------------------------------------- the ways in which it goes wrong

  /** An arena with one block of 8 bytes, and the same with a mark set after it. */
  function OneBlock(mem: bytes): Arena { Arena(Raw(mem, 8, 0), [Block(0, 8)], []) }
  function Marked(mem: bytes): Arena { OneBlock(mem).(marks := [Mark(Temp(8, 0), [Block(0, 8)])]) }

  lemma OneBlockReached(mem: bytes)
    requires |mem| == 16
    ensures Step(Empty(mem), Alloc(8)) == OneBlock(mem) && Ok(OneBlock(mem))
  {
    StepExact(Empty(mem), Alloc(8));
  }

  lemma MarkedReached(mem: bytes)
    requires |mem| == 16
    ensures Step(Step(Empty(mem), Alloc(8)), Begin) == Marked(mem) && Ok(Marked(mem))
  {
    OneBlockReached(mem);
    StepExact(OneBlock(mem), Begin);
    assert Step(OneBlock(mem), Begin) == Marked(mem);
  }

  /** A shrink that fits the memory hands out bytes that belong to the block again when the mark is ended. */
  lemma ShrinkBelowMark(mem: bytes)
    requires |mem| == 16
    ensures var a := Marked(mem);
            && a.raw.prev + 4 <= |mem| && Possible(a, Resize(0, 4)) && !Ok(Step(a, Resize(0, 4)))
            && var t := Step(Step(a, Resize(0, 4)), Alloc(4));
            t.live == [Block(0, 4), Block(4, 4)] && Step(t, Finish).live == [Block(0, 8)]
  {
    MarkedReached(mem);
    StepExact(Marked(mem), Resize(0, 4));
    var shrunk := Marked(mem).(raw := Raw(mem, 4, 0), live := [Block(0, 4)]);
    assert Step(Marked(mem), Resize(0, 4)) == shrunk;
    HandedOut(shrunk);
  }

  lemma HandedOut(a: Arena)
    requires a.marks == [Mark(Temp(8, 0), [Block(0, 8)])] && a.live == [Block(0, 4)] && a.raw.offset == 4 && |a.raw.mem| == 16
    ensures var t := Step(a, Alloc(4)); t.live == [Block(0, 4), Block(4, 4)] && Possible(t, Finish) && Step(t, Finish).live == [Block(0, 8)]
  {
  }

  /** A growth in place is not refused and leaves the memory. */
  lemma GrowBeyondMemory(mem: bytes)
    requires |mem| == 16
    ensures var a := Step(Empty(mem), Alloc(8));
            && Ok(a) && Possible(a, Resize(0, 32)) && |Step(a, Resize(0, 32)).live| == 1 && End(Step(a, Resize(0, 32)).live[0]) > |mem|
  {
    OneBlockReached(mem);
  }

  /** An empty block shares its address with the next one: resizing it cuts the next one off. */
  lemma EmptyBlockShares(mem: bytes)
    requires |mem| == 16
    ensures var a := Step(Step(Empty(mem), Alloc(0)), Alloc(8));
            && Ok(a) && a.live == [Block(0, 0), Block(0, 8)]
            && Possible(a, Resize(0, 4)) && Step(a, Resize(0, 4)).live == [Block(0, 8), Block(0, 4)]
  {
    var first := Arena(Raw(mem, 0, 0), [Block(0, 0)], []);
    StepExact(Empty(mem), Alloc(0));
    assert Step(Empty(mem), Alloc(0)) == first;
    StepExact(first, Alloc(8));
    CutOff(mem, Step(first, Alloc(8)));
  }

  lemma CutOff(mem: bytes, a: Arena)
    requires a == Arena(Raw(mem, 8, 0), [Block(0, 0), Block(0, 8)], [])
    ensures Possible(a, Resize(0, 4)) && Step(a, Resize(0, 4)).live == [Block(0, 8), Block(0, 4)]
  {
  }

  /** An allocation whose end wraps around succeeds, and the next one is given memory in use. */
  lemma AllocWraps(mem: bytes)
    requires |mem| == 16
    ensures var a := Step(Empty(mem), Alloc(8));
            && Ok(a) && Allocated(a.raw, TWO_64 - 4).1 == Some(8)
            && Step(Step(a, Alloc(TWO_64 - 4)), Alloc(4)).live == [Block(0, 8), Block(8, TWO_64 - 4), Block(4, 4)]
  {
    OneBlockReached(mem);
    assert Step(OneBlock(mem), Alloc(TWO_64 - 4)) == Arena(Raw(mem, 4, 8), [Block(0, 8), Block(8, TWO_64 - 4)], []);
  }

  /** Clearing under an open mark hands out bytes that belong to the block again when the mark is ended. */
  lemma ClearUnderMark(mem: bytes)
    requires |mem| == 16
    ensures var a := Marked(mem);
            && Ok(a) && !Ok(Step(a, Clear))
            && var t := Step(Step(a, Clear), Alloc(4)); t.live == [Block(0, 4)] && Possible(t, Finish) && Step(t, Finish).live == [Block(0, 8)]
  {
    MarkedReached(mem);
    StepExact(Marked(mem), Clear);
    ClearedHandsOut(Marked(mem).(raw := Raw(mem, 0, 0), live := []));
  }

  lemma ClearedHandsOut(a: Arena)
    requires a.marks == [Mark(Temp(8, 0), [Block(0, 8)])] && a.live == [] && a.raw.offset == 0 && |a.raw.mem| == 16
    ensures var t := Step(a, Alloc(4)); t.live == [Block(0, 4)] && Possible(t, Finish) && Step(t, Finish).live == [Block(0, 8)]
  {
  }

  /** A block that has to move when there is no room is copied to null. */
  lemma MoveWithoutRoom(mem: bytes)
    requires |mem| == 16
    ensures var a := Step(Step(Empty(mem), Alloc(8)), Alloc(4));
            && Ok(a) && a.live == [Block(0, 8), Block(8, 4)]
            && Allocated(a.raw, 12).1.None? && Resized(a.raw, 0, 8, 12).1 == Fault && !Possible(a, Resize(0, 12))
  {
    OneBlockReached(mem);
    StepExact(OneBlock(mem), Alloc(4));
    assert Step(OneBlock(mem), Alloc(4)) == Arena(Raw(mem, 12, 8), [Block(0, 8), Block(8, 4)], []);
  }

  /** An empty block at the offset is out of range for a resize. */
  lemma EmptyOutOfRange(mem: bytes)
    requires |mem| == 16
    ensures var a := Step(Empty(mem), Alloc(0));
            Ok(a) && a.live == [Block(0, 0)] && Resized(a.raw, 0, 0, 4).1 == OutOfRange && !Possible(a, Resize(0, 4))
  {
    StepExact(Empty(mem), Alloc(0));
    assert Step(Empty(mem), Alloc(0)) == Arena(Raw(mem, 0, 0), [Block(0, 0)], []);
  }
}
