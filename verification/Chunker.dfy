/** The cursor object that drives one pass over a binary buffer. */
module Chunker {
  import opened Bytes
  import opened BinaryFormat

  datatype Pass = Write | Read | Measure | Verify

  /** A snapshot of a chunker: what its methods' contracts compare. */
  datatype State = State(pass: Pass, cursor: nat, mem: bytes, mismatch: bool) {
    /** Outside Measure the cursor has not left the buffer. */
    ghost predicate Valid() { pass != Measure ==> cursor <= |mem| }

    ghost function Unread(): bytes
      requires cursor <= |mem|
    {
      mem[cursor..]
    }
  }

  /** What handing `data` to a chunker that is not reading leads to. */
  ghost predicate Pushed(s: State, data: bytes, s': State) {
    && s'.cursor == s.cursor + |data|
    && s'.pass == (if s.pass != Measure && s'.cursor > |s.mem| then Measure else s.pass)
    && |s'.mem| == |s.mem|
    && (if s'.pass == Write
        then s'.mem == s.mem[..s.cursor] + data + s.mem[s'.cursor..]
        else if s.pass == Write
        then s.cursor <= |s.mem| && s'.mem[..s.cursor] == s.mem[..s.cursor]
        else s'.mem == s.mem)
    && (s'.pass == Verify ==> s'.mismatch == (s.mismatch || s.mem[s.cursor..s'.cursor] != data))
  }

  lemma PushedNothing(s: State)
    requires s.Valid()
    ensures Pushed(s, [], s)
  {
    if s.pass == Write { assert s.mem == s.mem[..s.cursor] + [] + s.mem[s.cursor..]; }
  }

  /** Pushing `a` and then `b` is pushing `a + b`. */
  lemma PushedTwice(s: State, a: bytes, s1: State, b: bytes, s2: State)
    requires s.Valid() && s1.Valid() && Pushed(s, a, s1) && Pushed(s1, b, s2)
    ensures Pushed(s, a + b, s2)
  {
    if s2.pass == Write {
      assert s1.mem[..s1.cursor] == s.mem[..s.cursor] + a;
      assert s1.mem[s2.cursor..] == s.mem[s2.cursor..];
    } else if s1.pass == Write {
      assert s2.mem[..s.cursor] == s2.mem[..s1.cursor][..s.cursor];
      assert s1.mem[..s1.cursor][..s.cursor] == s1.mem[..s.cursor];
    }
    if s2.pass == Verify {
      var here := s.mem[s.cursor..s2.cursor];
      assert here == s.mem[s.cursor..s1.cursor] + s.mem[s1.cursor..s2.cursor];
      assert (a + b)[..|a|] == a && (a + b)[|a|..] == b;
      assert here[..|a|] == s.mem[s.cursor..s1.cursor] && here[|a|..] == s.mem[s1.cursor..s2.cursor];
    }
  }

  /** What a successful read of everything up to `rest` leads to. */
  ghost predicate Pulled(s: State, rest: bytes, s': State) {
    && s'.pass == Read && s'.mem == s.mem
    && |rest| <= |s.mem| && s'.cursor == |s.mem| - |rest| && s.mem[s'.cursor..] == rest
  }

  /** ME_MEMCPY into the buffer. */
  method CopyInto(dst: array<byte>, at: nat, data: bytes)
    requires at + |data| <= dst.Length
    modifies dst
    ensures dst[..] == old(dst[..at]) + data + old(dst[at + |data|..])
  {
    for i := 0 to |data|
      invariant dst[..at] == old(dst[..at])
      invariant dst[at..at + i] == data[..i]
      invariant dst[at + i..] == old(dst[at + i..])
    {
      dst[at + i] := data[i];
      assert dst[at..at + i + 1] == data[..i] + [data[i]];
    }
    assert dst[..] == dst[..at] + dst[at..at + |data|] + dst[at + |data|..];
  }

  class Chunker {
    const buf: array<byte>
    var pass: Pass
    var cursor: nat
    var mismatch: bool       // an assertion of a Verify pass has been hit

    ghost function Snap(): State
      reads this, buf
    {
      State(pass, cursor, buf[..], mismatch)
    }

    constructor (pass: Pass, buf: array<byte>)
      ensures this.buf == buf && Snap() == State(pass, 0, buf[..], false) && Snap().Valid()
    {
      this.pass, this.buf := pass, buf;
      cursor, mismatch := 0, false;
    }

    /**
     The one place that touches the buffer. A step that would leave the buffer switches
     the chunker to Measure first, so nothing is ever copied from or to the outside.
     */
    method DoBinaryVoid(data: bytes) returns (out: bytes)
      requires Snap().Valid()
      modifies this, buf
      ensures Snap().Valid() && |out| == |data|
      ensures old(pass) != Read ==> out == data && Pushed(old(Snap()), data, Snap())
      ensures old(pass) == Read ==>
                var s := old(Snap());
                if s.cursor + |data| <= |s.mem|
                then out == s.Unread()[..|data|] && Pulled(s, s.Unread()[|data|..], Snap())
                else out == data && pass == Measure && Snap().mem == s.mem
    {
      ghost var s := Snap();
      var size := |data|;
      if pass != Measure && cursor + size > buf.Length {
        pass := Measure;
      }
      out := data;
      match pass {
        case Write => CopyInto(buf, cursor, data);
        case Read =>
          out := buf[cursor..cursor + size];
          assert out == s.Unread()[..size];
        case Measure =>
        case Verify => mismatch := mismatch || buf[cursor..cursor + size] != data;
      }
      cursor := cursor + size;
    }

    /** `Do` on a u32. */
    method DoU32(x: u32) returns (out: u32)
      requires Snap().Valid()
      modifies this, buf
      ensures Snap().Valid()
      ensures old(pass) != Read ==> out == x && Pushed(old(Snap()), LE32(x), Snap())
      ensures old(pass) == Read ==>
                var s := old(Snap());
                if s.cursor + 4 <= |s.mem|
                then out == FromLE32(s.Unread()[..4]) && Pulled(s, s.Unread()[4..], Snap())
                else out == x && pass == Measure && Snap().mem == s.mem
    {
      var b := DoBinaryVoid(LE32(x));
      LE32RoundTrip(x);
      out := FromLE32(b);
    }

    /** `DoBytes` and the binary branch of `DoString`: a u32 length, then the bytes. */
    method DoSized(data: bytes) returns (out: bytes)
      requires Snap().Valid()
      modifies this, buf
      ensures Snap().Valid()
      ensures old(pass) != Read ==> out == data && Pushed(old(Snap()), SizedBytes(data), Snap())
      ensures old(pass) == Read ==>
                var s := old(Snap());
                match ReadSized(s.Unread())
                case Got(x, rest) => out == x && Pulled(s, rest, Snap())
                case _ => pass == Measure && Snap().mem == s.mem
    {
      ghost var s := Snap();
      var wasReading := pass == Read;
      var size := DoU32(|data| % TWO_32);
      if pass == Read {
        out := DoBinaryVoid(seq(size, _ => 0));
      } else if wasReading {
        // The length itself was cut off: what follows only measures.
        out := data;
        var _ := DoBinaryVoid(Truncated(data));
      } else {
        ghost var s1 := Snap();
        var _ := DoBinaryVoid(Truncated(data));
        out := data;
        PushedTwice(s, LE32(|data| % TWO_32), s1, Truncated(data), Snap());
      }
    }
  }
}
