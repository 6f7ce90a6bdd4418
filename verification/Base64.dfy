/**
 The base64 decoder of `cgltf_load_buffer_base64`: a 32-bit buffer that takes in six bits a character and gives out
 eight bits a byte.
 */
module Base64 {

  import opened Common
  import opened Bytes

  // ---------------------------------------------------------------- bits

  function Pow2(n: nat): (p: nat)
    ensures p > 0
  {
    if n == 0 then 1 else 2 * Pow2(n - 1)
  }

  /** The low `w` bits of `v`, most significant first. */
  function Bits(v: nat, w: nat): (r: seq<bool>)
    ensures |r| == w
  {
    if w == 0 then [] else Bits(v / 2, w - 1) + [v % 2 == 1]
  }

  /** Writing a number of `k` bits after another one. */
  lemma {:induction false} BitsJoin(v: nat, x: nat, y: nat, w: nat, k: nat, p: nat)
    requires p == Pow2(k) && y < p && v == x * p + y
    ensures Bits(v, w + k) == Bits(x, w) + Bits(y, k)
    decreases k
  {
    if k > 0 {
      var q := Pow2(k - 1);
      Double(x, p, q);
      Halve(x * q, y, v, x * p);
      BitsJoin(v / 2, x, y / 2, w, k - 1, q);
      Regroup(Bits(x, w), Bits(y / 2, k - 1), [y % 2 == 1]);
    } else {
      assert v == x;
    }
  }

  lemma Double(x: nat, p: nat, q: nat)
    requires p == 2 * q
    ensures x * p == 2 * (x * q)
  {
  }

  lemma Regroup<T>(a: seq<T>, b: seq<T>, c: seq<T>)
    ensures (a + b) + c == a + (b + c)
  {
  }

  lemma Halve(h: nat, y: nat, v: nat, d: nat)
    requires d == 2 * h && v == d + y
    ensures v / 2 == h + y / 2 && v % 2 == y % 2
  {
  }

  /** Only the low bits count. */
  lemma {:induction false} BitsLow(v: nat, q: nat, w: nat, k: nat)
    requires w <= k
    ensures Bits(v + q * Pow2(k), w) == Bits(v, w)
    decreases w
  {
    if w > 0 {
      var d := q * Pow2(k);
      assert d == 2 * (q * Pow2(k - 1));
      Halve(q * Pow2(k - 1), v, d + v, d);
      BitsLow(v / 2, q, w - 1, k - 1);
    }
  }

  /** The bits of a number within its range determine it. */
  lemma {:induction false} BitsInjective(x: nat, y: nat, w: nat)
    requires x < Pow2(w) && y < Pow2(w) && Bits(x, w) == Bits(y, w)
    ensures x == y
  {
    if w > 0 {
      assert Bits(x, w)[..w - 1] == Bits(x / 2, w - 1) && Bits(y, w)[..w - 1] == Bits(y / 2, w - 1);
      assert Bits(x, w)[w - 1] == (x % 2 == 1) && Bits(y, w)[w - 1] == (y % 2 == 1);
      BitsInjective(x / 2, y / 2, w - 1);
    }
  }

  function DataBits(d: bytes): (r: seq<bool>)
    ensures |r| == 8 * |d|
  {
    if d == [] then [] else DataBits(d[..|d| - 1]) + Bits(d[|d| - 1], 8)
  }

  lemma {:induction false} DataBitsInjective(c: bytes, d: bytes)
    requires |c| == |d| && DataBits(c) == DataBits(d)
    ensures c == d
    decreases |c|
  {
    if c != [] {
      var n := |c| - 1;
      assert DataBits(c)[..8 * n] == DataBits(c[..n]) && DataBits(d)[..8 * n] == DataBits(d[..n]);
      assert DataBits(c)[8 * n..] == Bits(c[n], 8) && DataBits(d)[8 * n..] == Bits(d[n], 8);
      DataBitsInjective(c[..n], d[..n]);
      PowersOfTwo();
      BitsInjective(c[n], d[n], 8);
      assert c == c[..n] + [c[n]] && d == d[..n] + [d[n]];
    }
  }

  lemma PowersOfTwo()
    ensures Pow2(0) == 1 && Pow2(1) == 2 && Pow2(2) == 4 && Pow2(4) == 16 && Pow2(6) == 64 && Pow2(8) == 256
  {
    assert Pow2(3) == 8 && Pow2(5) == 32 && Pow2(7) == 128;
  }

  // ---------------------------------------------------------------- characters

  /** The six-bit value of a character; -1 outside the alphabet. */
  function Index(c: char): (i: int)
    ensures -1 <= i < 64
  {
    if 'A' <= c <= 'Z' then c as int - 'A' as int
    else if 'a' <= c <= 'z' then c as int - 'a' as int + 26
    else if '0' <= c <= '9' then c as int - '0' as int + 52
    else if c == '+' then 62
    else if c == '/' then 63
    else -1
  }

  /** The alphabet of RFC 4648, section 4. */
  function Digit(i: nat): (c: char)
    requires i < 64
    ensures Index(c) == i
  {
    if i < 26 then ('A' as int + i) as char
    else if i < 52 then ('a' as int + i - 26) as char
    else if i < 62 then ('0' as int + i - 52) as char
    else if i == 62 then '+'
    else '/'
  }

  const UPPER := "ABCDEFGHIJKLMNOPQRSTUVWXYZ"
  const LOWER := "abcdefghijklmnopqrstuvwxyz"
  const NUMERALS := "0123456789"
  const ALPHABET := UPPER + LOWER + NUMERALS + "+/"

  /** A character stands for its place in the alphabet, and every other one for nothing. */
  lemma AlphabetExact(c: char, i: int)
    ensures |ALPHABET| == 64
    ensures i >= 0 ==> (Index(c) == i <==> i < 64 && ALPHABET[i] == c)
    ensures Index(c) == -1 <==> c !in ALPHABET
  {
    if Index(c) >= 0 { Standing(Index(c)); }
    if 0 <= i < 64 { Standing(i); }
    if c in ALPHABET {
      var k: nat :| k < |ALPHABET| && ALPHABET[k] == c;
      Standing(k);
    }
  }

  lemma Standing(i: nat)
    requires i < 64
    ensures ALPHABET[i] == Digit(i)
  {
    if i < 26 {
      assert UPPER[i] == ('A' as int + i) as char;
      assert ALPHABET[i] == UPPER[i];
    } else if i < 52 {
      assert LOWER[i - 26] == ('a' as int + i - 26) as char;
      assert ALPHABET[i] == LOWER[i - 26];
    } else if i < 62 {
      assert NUMERALS[i - 52] == ('0' as int + i - 52) as char;
      assert ALPHABET[i] == NUMERALS[i - 52];
    } else {
      assert ALPHABET[i] == "+/"[i - 62];
    }
  }

  predicate Decodable(s: string) {
    forall k | 0 <= k < |s| :: Index(s[k]) >= 0
  }

  function CharBits(s: string): (r: seq<bool>)
    requires Decodable(s)
    ensures |r| == 6 * |s|
  {
    if s == [] then [] else CharBits(s[..|s| - 1]) + Bits(Index(s[|s| - 1]), 6)
  }

  /** The characters that hold the bits of `size` bytes. */
  function Needed(size: nat): nat { (8 * size + 5) / 6 }

  // ---------------------------------------------------------------- the decoder

  /** The bytes given out and the pending bits are the bits of the characters taken in. */
  ghost predicate Holding(d: bytes, buffer: nat, w: nat, s: string, at: nat) {
    at <= |s| && Decodable(s[..at]) && DataBits(d) + Bits(buffer, w) == CharBits(s[..at])
  }

  lemma HoldingCount(d: bytes, buffer: nat, w: nat, s: string, at: nat)
    requires Holding(d, buffer, w, s, at)
    ensures 8 * |d| + w == 6 * at
  {
    assert |DataBits(d) + Bits(buffer, w)| == |CharBits(s[..at])|;
  }

  lemma HoldingIn(d: bytes, buffer: nat, b: nat, w: nat, s: string, at: nat)
    requires Holding(d, buffer, w, s, at) && w < 8 && at < |s| && Index(s[at]) >= 0
    requires b == (buffer * 64 + Index(s[at])) % TWO_32
    ensures Holding(d, b, w + 6, s, at + 1)
  {
    TakeIn(d, buffer, b, w, s[..at], s[at]);
    assert s[..at] + [s[at]] == s[..at + 1];
  }

  lemma HoldingOut(d: bytes, buffer: nat, w: nat, s: string, at: nat)
    requires Holding(d, buffer, w, s, at) && w >= 8
    ensures Holding(d + [buffer / Pow2(w - 8) % 256], buffer, w - 8, s, at)
  {
    GiveOut(d, buffer, w);
  }

  /** A bad or missing character among the needed ones. */
  lemma BadCharacter(size: nat, s: string, at: nat)
    requires at < Needed(size) && at <= |s| && (at < |s| ==> Index(s[at]) < 0)
    ensures !(Needed(size) <= |s| && Decodable(s[..Needed(size)]))
  {
    if Needed(size) <= |s| {
      assert s[..Needed(size)][at] == s[at];
    }
  }

  lemma AllTaken(d: bytes, buffer: nat, w: nat, s: string, at: nat)
    requires Holding(d, buffer, w, s, at) && w < 6
    ensures at == Needed(|d|) && DataBits(d) <= CharBits(s[..at])
  {
    HoldingCount(d, buffer, w, s, at);
  }

  /** Takes in characters until there are bits for a byte. */
  method Refill(ghost d: bytes, base64: string, buffer: nat, bufferBits: nat, at: nat, ghost size: nat)
      returns (ok: bool, b: nat, w: nat, next: nat)
    requires Holding(d, buffer, bufferBits, base64, at) && bufferBits < 6 && |d| < size
    ensures ok ==> Holding(d, b, w, base64, next) && 8 <= w < 14
    ensures !ok ==> !(Needed(size) <= |base64| && Decodable(base64[..Needed(size)]))
  {
    ok, b, w, next := true, buffer, bufferBits, at;
    while w < 8
      invariant Holding(d, b, w, base64, next) && w < 14
      decreases 14 - w
    {
      var index := if next < |base64| then Index(base64[next]) else -1;
      if index < 0 {
        HoldingCount(d, b, w, base64, next);
        BadCharacter(size, base64, next);
        ok := false;
        return;
      }
      ghost var before := b;
      b := (b * 64 + index) % TWO_32;
      HoldingIn(d, before, b, w, base64, next);
      w := w + 6;
      next := next + 1;
    }
  }

  /**
   Decodes `size` bytes. It takes the characters that hold so many bits and no more, and fails exactly when one of
   those is missing or outside the alphabet (a missing one reads as the terminating zero).
   */
  method Decode(size: nat, base64: string) returns (result: Option<bytes>, ghost consumed: nat)
    ensures result.Some? <==> Needed(size) <= |base64| && Decodable(base64[..Needed(size)])
    ensures result.Some? ==>
              && consumed == Needed(size) && |result.value| == size
              && DataBits(result.value) <= CharBits(base64[..consumed])
  {
    var data := new byte[size];
    var buffer: nat := 0;
    var bufferBits: nat := 0;
    var at: nat := 0;
    for i := 0 to size
      invariant Holding(data[..i], buffer, bufferBits, base64, at) && bufferBits < 6
    {
      ghost var before := data[..i];
      var ok;
      ok, buffer, bufferBits, at := Refill(before, base64, buffer, bufferBits, at, size);
      if !ok { return None, at; }
      HoldingOut(before, buffer, bufferBits, base64, at);
      data[i] := buffer / Pow2(bufferBits - 8) % 256;
      assert data[..i + 1] == before + [data[i]];
      bufferBits := bufferBits - 8;
    }
    assert data[..size] == data[..];
    AllTaken(data[..], buffer, bufferBits, base64, at);
    result, consumed := Some(data[..]), at;
  }

  /** Shifting six bits in; the 32-bit buffer never loses a pending bit. */
  lemma TakeIn(d: bytes, buffer: nat, b: nat, w: nat, s: string, c: char)
    requires w < 8 && Decodable(s) && Index(c) >= 0 && b == (buffer * 64 + Index(c)) % TWO_32
    requires DataBits(d) + Bits(buffer, w) == CharBits(s)
    ensures Decodable(s + [c]) && DataBits(d) + Bits(b, w + 6) == CharBits(s + [c])
  {
    TakenBits(buffer, Index(c), w);
    CharBitsSnoc(s, c);
    Regroup(DataBits(d), Bits(buffer, w), Bits(Index(c), 6));
  }

  lemma TakenBits(buffer: nat, index: nat, w: nat)
    requires w < 8 && index < 64
    ensures Bits((buffer * 64 + index) % TWO_32, w + 6) == Bits(buffer, w) + Bits(index, 6)
  {
    PowersOfTwo();
    BitsJoin(buffer * 64 + index, buffer, index, w, 6, 64);
    Wrap(buffer * 64 + index, w + 6);
  }

  lemma CharBitsSnoc(s: string, c: char)
    requires Decodable(s) && Index(c) >= 0
    ensures Decodable(s + [c]) && CharBits(s + [c]) == CharBits(s) + Bits(Index(c), 6)
  {
    assert (s + [c])[..|s + [c]| - 1] == s;
  }

  lemma Wrap(v: nat, w: nat)
    requires w <= 32
    ensures Bits(v % TWO_32, w) == Bits(v, w)
  {
    PowersOfTwo();
    Pow32();
    BitsLow(v % TWO_32, v / TWO_32, w, 32);
  }

  lemma Pow32()
    ensures Pow2(32) == TWO_32
  {
    PowersOfTwo();
    assert Pow2(12) == 4096 by { assert Pow2(10) == 1024; }
    assert Pow2(16) == 65536 by { assert Pow2(14) == 16384; }
    assert Pow2(20) == 1048576 by { assert Pow2(18) == 262144; }
    assert Pow2(24) == 16777216 by { assert Pow2(22) == 4194304; }
    assert Pow2(28) == 268435456 by { assert Pow2(26) == 67108864; }
    assert Pow2(30) == 1073741824;
  }

  /** The top eight of the pending bits become a byte. */
  lemma GiveOut(d: bytes, buffer: nat, w: nat)
    requires w >= 8
    ensures var b: byte := buffer / Pow2(w - 8) % 256;
            DataBits(d + [b]) + Bits(buffer, w - 8) == DataBits(d) + Bits(buffer, w)
  {
    var b: byte := buffer / Pow2(w - 8) % 256;
    TopBits(buffer, w);
    assert (d + [b])[..|d|] == d;
    Regroup(DataBits(d), Bits(b, 8), Bits(buffer, w - 8));
  }

  lemma TopBits(buffer: nat, w: nat)
    requires w >= 8
    ensures Bits(buffer, w) == Bits(buffer / Pow2(w - 8) % 256, 8) + Bits(buffer, w - 8)
  {
    var p := Pow2(w - 8);
    var x, y := Divided(buffer, p);
    TopAndRest(buffer, x, y, w, p);
  }

  lemma TopAndRest(v: nat, x: nat, y: nat, w: nat, p: nat)
    requires w >= 8 && p == Pow2(w - 8) && y < p && v == x * p + y
    ensures Bits(v, w) == Bits(x % 256, 8) + Bits(v, w - 8)
  {
    BitsJoin(v, x, y, 8, w - 8, p);
    LowByte(x);
    LowPart(v, x, y, w - 8, p);
  }

  lemma Divided(v: nat, p: nat) returns (x: nat, y: nat)
    requires p > 0
    ensures x == v / p && y < p && v == x * p + y
  {
    x, y := v / p, v % p;
  }

  lemma LowPart(v: nat, x: nat, y: nat, k: nat, p: nat)
    requires p == Pow2(k) && v == x * p + y
    ensures Bits(v, k) == Bits(y, k)
  {
    BitsLow(y, x, k, k);
  }

  lemma LowByte(x: nat)
    ensures Bits(x, 8) == Bits(x % 256, 8)
  {
    PowersOfTwo();
    BitsLow(x % 256, x / 256, 8, 8);
  }

  // ---------------------------------------------------------------- the encoding

  /** RFC 4648, section 4: three bytes to four characters, padded with `=` at the end. */
  function Encode(d: bytes): string {
    if |d| == 0 then ""
    else if |d| == 1 then [Digit(d[0] / 4), Digit(d[0] % 4 * 16), '=', '=']
    else if |d| == 2 then [Digit(d[0] / 4), Digit(d[0] % 4 * 16 + d[1] / 16), Digit(d[1] % 16 * 4), '=']
    else [Digit(d[0] / 4), Digit(d[0] % 4 * 16 + d[1] / 16), Digit(d[1] % 16 * 4 + d[2] / 64), Digit(d[2] % 64)] + Encode(d[3..])
  }

  lemma {:induction false} DataBitsCons(b: byte, d: bytes)
    ensures DataBits([b] + d) == Bits(b, 8) + DataBits(d)
    decreases |d|
  {
    if d == [] {
      assert [b] + d == [b] && [b][..0] == [];
      assert DataBits([b]) == DataBits([]) + Bits(b, 8);
    } else {
      var n := |d| - 1;
      assert ([b] + d)[..n + 1] == [b] + d[..n];
      DataBitsCons(b, d[..n]);
    }
  }

  lemma {:induction false} CharBitsCons(c: char, s: string)
    requires Index(c) >= 0 && Decodable(s)
    ensures Decodable([c] + s) && CharBits([c] + s) == Bits(Index(c), 6) + CharBits(s)
    decreases |s|
  {
    if s == [] {
      assert [c] + s == [c] && [c][..0] == [];
      assert CharBits([c]) == CharBits([]) + Bits(Index(c), 6);
    } else {
      var n := |s| - 1;
      assert ([c] + s)[..n + 1] == [c] + s[..n];
      CharBitsCons(c, s[..n]);
      assert ([c] + s)[n + 1] == s[n];
      Regroup(Bits(Index(c), 6), CharBits(s[..n]), Bits(Index(s[n]), 6));
    }
  }

  /** The first two characters of a group hold the first byte and the start of the second. */
  lemma FirstChars(a: byte, b: byte)
    ensures Bits(a / 4, 6) + Bits(a % 4 * 16 + b / 16, 6) == Bits(a, 8) + Bits(b / 16, 4)
  {
    PowersOfTwo();
    BitsJoin(a, a / 4, a % 4, 6, 2, 4);
    BitsJoin(a % 4 * 16 + b / 16, a % 4, b / 16, 2, 4, 16);
    Regroup(Bits(a / 4, 6), Bits(a % 4, 2), Bits(b / 16, 4));
  }

  /** The third holds the end of the second byte and two more bits. */
  lemma ThirdChar(b: byte, more: nat, i: nat)
    requires more < 4 && i == b % 16 * 4 + more
    ensures Bits(b / 16, 4) + Bits(i, 6) == Bits(b, 8) + Bits(more, 2)
  {
    PowersOfTwo();
    BitsJoin(b, b / 16, b % 16, 4, 4, 16);
    BitsJoin(i, b % 16, more, 4, 2, 4);
    Regroup(Bits(b / 16, 4), Bits(b % 16, 4), Bits(more, 2));
  }

  lemma FourthChar(c: byte)
    ensures Bits(c / 64, 2) + Bits(c % 64, 6) == Bits(c, 8)
  {
    PowersOfTwo();
    BitsJoin(c, c / 64, c % 64, 2, 6, 64);
  }

  /** The encoding has the needed characters, and their bits start with those of the data. */
  lemma {:induction false} EncodeBits(d: bytes)
    ensures Starts(d, Encode(d), Needed(|d|))
    decreases |d|
  {
    if |d| == 0 {
    } else if |d| == 1 {
      OneByteEncoded(d, Encode(d));
    } else if |d| == 2 {
      TwoBytesEncoded(d, Encode(d));
    } else {
      EncodeBits(d[3..]);
      NeededStep(|d|);
      LongEncoded(d, Encode(d[3..]), Needed(|d| - 3));
    }
  }

  lemma LongEncoded(d: bytes, e: string, n: nat)
    requires |d| >= 3 && e == Encode(d[3..]) && Starts(d[3..], e, n)
    ensures Starts(d, Encode(d), 4 + n)
  {
    EncodeStep(d);
    GroupStarts(d, e, n, Encode(d));
  }

  lemma OneByteEncoded(d: bytes, s: string)
    requires |d| == 1 && s == [Digit(d[0] / 4), Digit(d[0] % 4 * 16), '=', '=']
    ensures Starts(d, s, 2)
  {
    var c0, c1 := Digit(d[0] / 4), Digit(d[0] % 4 * 16);
    FirstChars(d[0], 0);
    TwoChars(c0, c1);
    OneByte(d);
    assert s[..2] == [c0, c1];
  }

  lemma TwoBytesEncoded(d: bytes, s: string)
    requires |d| == 2 && s == [Digit(d[0] / 4), Digit(d[0] % 4 * 16 + d[1] / 16), Digit(d[1] % 16 * 4), '=']
    ensures Starts(d, s, 3)
  {
    var bits := ThreeDigits(d[0] / 4, d[0] % 4 * 16 + d[1] / 16, d[1] % 16 * 4, s[..3]);
    TwoBytes(d);
    PartGroup(d[0], d[1]);
  }

  lemma ThreeDigits(i0: nat, i1: nat, i2: nat, s: string) returns (bits: seq<bool>)
    requires i0 < 64 && i1 < 64 && i2 < 64 && s == [Digit(i0), Digit(i1), Digit(i2)]
    ensures Decodable(s) && bits == CharBits(s) && bits == Bits(i0, 6) + (Bits(i1, 6) + Bits(i2, 6))
  {
    TwoChars(Digit(i1), Digit(i2));
    CharBitsCons(Digit(i0), [Digit(i1), Digit(i2)]);
    assert s == [Digit(i0)] + [Digit(i1), Digit(i2)];
    bits := CharBits(s);
  }

  lemma PartGroup(a: byte, b: byte)
    ensures Bits(a, 8) + Bits(b, 8) <= Bits(a / 4, 6) + (Bits(a % 4 * 16 + b / 16, 6) + Bits(b % 16 * 4, 6))
  {
    FirstChars(a, b);
    ThirdChar(b, 0, b % 16 * 4);
    Part(Bits(a / 4, 6), Bits(a % 4 * 16 + b / 16, 6), Bits(b % 16 * 4, 6), Bits(a, 8), Bits(b, 8), Bits(b / 16, 4), Bits(0, 2));
  }

  lemma Part<T>(c0: seq<T>, c1: seq<T>, c2: seq<T>, a: seq<T>, b: seq<T>, x: seq<T>, y: seq<T>)
    requires c0 + c1 == a + x && x + c2 == b + y
    ensures a + b <= c0 + (c1 + c2)
  {
    Regroup(c0, c1, c2);
    Regroup(a, x, c2);
    Regroup(a, b, y);
  }

  /** The first `n` characters of `s` can be decoded and start with the bits of `d`. */
  ghost predicate Starts(d: bytes, s: string, n: nat) {
    n <= |s| && Decodable(s[..n]) && DataBits(d) <= CharBits(s[..n])
  }

  lemma NeededStep(size: nat)
    requires size >= 3
    ensures Needed(size) == 4 + Needed(size - 3)
  {
  }

  lemma EncodeStep(d: bytes)
    requires |d| >= 3
    ensures Encode(d) == GroupOf(d, Encode(d[3..]))
  {
  }

  lemma GroupStarts(d: bytes, e: string, n: nat, s: string)
    requires |d| >= 3 && Starts(d[3..], e, n) && s == GroupOf(d, e)
    ensures Starts(d, s, 4 + n)
  {
    GroupPrefix(d, e[..n]);
    assert GroupOf(d, e)[..4 + n] == GroupOf(d, e[..n]);
  }

  /** The four characters of three bytes, before other characters. */
  function GroupOf(d: bytes, rest: string): string
    requires |d| >= 3
  {
    [Digit(d[0] / 4), Digit(d[0] % 4 * 16 + d[1] / 16), Digit(d[1] % 16 * 4 + d[2] / 64), Digit(d[2] % 64)] + rest
  }

  lemma GroupPrefix(d: bytes, rest: string)
    requires |d| >= 3 && Decodable(rest) && DataBits(d[3..]) <= CharBits(rest)
    ensures Decodable(GroupOf(d, rest)) && DataBits(d) <= CharBits(GroupOf(d, rest))
  {
    var bits := GroupCharBits(d, rest);
    ThreeBytes(d);
    Combine(DataBits(d), bits, Bits(d[0], 8), Bits(d[1], 8), Bits(d[2], 8), DataBits(d[3..]), CharBits(rest));
  }

  lemma GroupCharBits(d: bytes, rest: string) returns (bits: seq<bool>)
    requires |d| >= 3 && Decodable(rest)
    ensures Decodable(GroupOf(d, rest)) && bits == CharBits(GroupOf(d, rest))
    ensures bits == Bits(d[0], 8) + (Bits(d[1], 8) + (Bits(d[2], 8) + CharBits(rest)))
  {
    bits := FourDigits(d[0] / 4, d[0] % 4 * 16 + d[1] / 16, d[1] % 16 * 4 + d[2] / 64, d[2] % 64, rest);
    WholeGroup(d[0], d[1], d[2], CharBits(rest));
  }

  lemma FourDigits(i0: nat, i1: nat, i2: nat, i3: nat, rest: string) returns (bits: seq<bool>)
    requires i0 < 64 && i1 < 64 && i2 < 64 && i3 < 64 && Decodable(rest)
    ensures var s := [Digit(i0), Digit(i1), Digit(i2), Digit(i3)] + rest; Decodable(s) && bits == CharBits(s)
    ensures bits == Bits(i0, 6) + (Bits(i1, 6) + (Bits(i2, 6) + (Bits(i3, 6) + CharBits(rest))))
  {
    FourChars(Digit(i0), Digit(i1), Digit(i2), Digit(i3), rest);
    bits := CharBits([Digit(i0), Digit(i1), Digit(i2), Digit(i3)] + rest);
  }

  lemma Combine<T>(data: seq<T>, chars: seq<T>, a: seq<T>, b: seq<T>, c: seq<T>, d: seq<T>, e: seq<T>)
    requires data == a + (b + (c + d)) && chars == a + (b + (c + e)) && d <= e
    ensures data <= chars
  {
    Prefixed(a, b, c, d, e);
  }

  lemma FourChars(c0: char, c1: char, c2: char, c3: char, rest: string)
    requires Index(c0) >= 0 && Index(c1) >= 0 && Index(c2) >= 0 && Index(c3) >= 0 && Decodable(rest)
    ensures var s := [c0, c1, c2, c3] + rest;
            Decodable(s) && CharBits(s) == Bits(Index(c0), 6) + (Bits(Index(c1), 6) + (Bits(Index(c2), 6) + (Bits(Index(c3), 6) + CharBits(rest))))
  {
    CharBitsCons(c3, rest);
    CharBitsCons(c2, [c3] + rest);
    CharBitsCons(c1, [c2] + ([c3] + rest));
    CharBitsCons(c0, [c1] + ([c2] + ([c3] + rest)));
    assert [c0, c1, c2, c3] + rest == [c0] + ([c1] + ([c2] + ([c3] + rest)));
  }

  lemma FirstByte(d: bytes)
    requires d != []
    ensures DataBits(d) == Bits(d[0], 8) + DataBits(d[1..])
  {
    assert d == [d[0]] + d[1..];
    DataBitsCons(d[0], d[1..]);
  }

  lemma ThreeBytes(d: bytes)
    requires |d| >= 3
    ensures DataBits(d) == Bits(d[0], 8) + (Bits(d[1], 8) + (Bits(d[2], 8) + DataBits(d[3..])))
  {
    FirstByte(d);
    FirstByte(d[1..]);
    FirstByte(d[2..]);
    assert d[1..][1..] == d[2..] && d[2..][1..] == d[3..];
  }

  lemma TwoChars(c: char, d: char)
    requires Index(c) >= 0 && Index(d) >= 0
    ensures CharBits([c, d]) == Bits(Index(c), 6) + Bits(Index(d), 6)
  {
    CharBitsCons(d, []);
    CharBitsCons(c, [d]);
    assert [c] + [d] == [c, d] && [d] + [] == [d];
    assert Bits(Index(d), 6) + [] == Bits(Index(d), 6);
  }

  lemma OneByte(d: bytes)
    requires |d| == 1
    ensures DataBits(d) == Bits(d[0], 8)
  {
    assert d == [d[0]] + [];
    DataBitsCons(d[0], []);
  }

  lemma TwoBytes(d: bytes)
    requires |d| == 2
    ensures DataBits(d) == Bits(d[0], 8) + Bits(d[1], 8)
  {
    assert d == [d[0]] + [d[1]];
    DataBitsCons(d[0], [d[1]]);
    OneByte([d[1]]);
  }

  lemma WholeGroup(a: byte, b: byte, c: byte, rest: seq<bool>)
    ensures Bits(a / 4, 6) + (Bits(a % 4 * 16 + b / 16, 6) + (Bits(b % 16 * 4 + c / 64, 6) + (Bits(c % 64, 6) + rest)))
         == Bits(a, 8) + (Bits(b, 8) + (Bits(c, 8) + rest))
  {
    FirstChars(a, b);
    ThirdChar(b, c / 64, b % 16 * 4 + c / 64);
    FourthChar(c);
    Whole(Bits(a / 4, 6), Bits(a % 4 * 16 + b / 16, 6), Bits(b % 16 * 4 + c / 64, 6), Bits(c % 64, 6),
      Bits(a, 8), Bits(b, 8), Bits(c, 8), Bits(b / 16, 4), Bits(c / 64, 2), rest);
  }

  lemma Whole<T>(c0: seq<T>, c1: seq<T>, c2: seq<T>, c3: seq<T>, a: seq<T>, b: seq<T>, c: seq<T>, x: seq<T>, y: seq<T>, rest: seq<T>)
    requires c0 + c1 == a + x && x + c2 == b + y && y + c3 == c
    ensures c0 + (c1 + (c2 + (c3 + rest))) == a + (b + (c + rest))
  {
    Regroup(c0, c1, c2 + (c3 + rest));
    Regroup(a, x, c2 + (c3 + rest));
    Regroup(x, c2, c3 + rest);
    Regroup(b, y, c3 + rest);
    Regroup(y, c3, rest);
  }

  lemma Prefixed<T>(a: seq<T>, b: seq<T>, c: seq<T>, d: seq<T>, e: seq<T>)
    requires d <= e
    ensures a + (b + (c + d)) <= a + (b + (c + e))
  {
  }

  /** Decoding inverts the encoding of every byte sequence, and never looks at the padding. */
  method EncodeThenDecode(d: bytes) returns (result: Option<bytes>, ghost consumed: nat)
    ensures result == Some(d) && consumed == Needed(|d|)
  {
    EncodeBits(d);
    result, consumed := Decode(|d|, Encode(d));
    Unique(result.value, d, CharBits(Encode(d)[..consumed]));
  }

  /** There is only one byte sequence with given leading bits, so the decoder's contract leaves no choice. */
  lemma Unique(c: bytes, d: bytes, bits: seq<bool>)
    requires |c| == |d| && DataBits(c) <= bits && DataBits(d) <= bits
    ensures c == d
  {
    assert DataBits(c) == bits[..8 * |c|] && DataBits(d) == bits[..8 * |d|];
    DataBitsInjective(c, d);
  }

  /** The characters after the data bits are the padding. */
  lemma {:induction false} PaddingFollows(d: bytes)
    ensures |Encode(d)| == (|d| + 2) / 3 * 4
    ensures forall k | Needed(|d|) <= k < |Encode(d)| :: Encode(d)[k] == '='
    decreases |d|
  {
    if |d| >= 3 {
      PaddingFollows(d[3..]);
      forall k | Needed(|d|) <= k < |Encode(d)| ensures Encode(d)[k] == '=' {
        assert Encode(d)[k] == Encode(d[3..])[k - 4];
      }
    }
  }
}
