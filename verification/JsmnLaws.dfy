/**
 What every accepted text is like, whether or not it is JSON, and which texts are refused: the laws the tokenizer keeps
 over all inputs.
 */
module JsmnLaws {
  import opened JsmnSpec
  import JsmnTree

  // ---------------------------------------------------------------- the two scanners

  predicate HexDigit(c: char) { c in "0123456789abcdefABCDEF" }

  /** String contents as RFC 8259, section 7, has them, except that control characters may stand unescaped. */
  predicate Contents(s: string)
    decreases |s|
  {
    if s == "" then true
    else if s[0] == '\\' then
      || (|s| >= 2 && s[1] in ['\"', '\\', '/', 'b', 'f', 'n', 'r', 't'] && Contents(s[2..]))
      || (|s| >= 6 && s[1] == 'u' && HexDigit(s[2]) && HexDigit(s[3]) && HexDigit(s[4]) && HexDigit(s[5]) && Contents(s[6..]))
    else s[0] != '\"' && s[0] != '\0' && Contents(s[1..])
  }

  /** A string ends at the quote behind legal contents, and nowhere else. */
  lemma {:induction false} StringExact(js: string, p: nat, q: nat)
    requires p <= |js|
    ensures ScanString(js, p) == Found(q) <==> p <= q < |js| && js[q] == '\"' && Contents(js[p..q])
    decreases |js| - p
  {
    ScanBounds(js, p);
    if !AtEnd(js, p) && js[p] != '\"' {
      if js[p] == '\\' && p + 1 < |js| {
        EscapeExact(js, p, q);
      } else {
        StringExact(js, p + 1, q);
        if p < q < |js| { assert js[p..q][1..] == js[p + 1..q]; }
      }
    }
  }

  lemma {:induction false} EscapeExact(js: string, p: nat, q: nat)
    requires p + 1 < |js| && js[p] == '\\'
    ensures ScanString(js, p) == Found(q) <==> p <= q < |js| && js[q] == '\"' && Contents(js[p..q])
    decreases |js| - p, 1
  {
    ScanBounds(js, p);
    if js[p + 1] == 'u' {
      HexEscapeExact(js, p, q);
    } else {
      if IsSimpleEscape(js[p + 1]) { StringExact(js, p + 2, q); }
      if p + 2 <= q < |js| { assert js[p..q][2..] == js[p + 2..q]; }
    }
  }

  lemma {:induction false} HexEscapeExact(js: string, p: nat, q: nat)
    requires p + 1 < |js| && js[p] == '\\' && js[p + 1] == 'u'
    ensures ScanString(js, p) == Found(q) <==> p <= q < |js| && js[q] == '\"' && Contents(js[p..q])
    decreases |js| - p, 0
  {
    ScanBounds(js, p);
    if FourDigits(js, p + 2) {
      FourTaken(js, p + 2);
      StringExact(js, p + 6, q);
    } else {
      FourNeeded(js, p + 2);
    }
    if p + 6 <= q < |js| { HexContents(js, p, q); }
  }

  lemma HexContents(js: string, p: nat, q: nat)
    requires p + 6 <= q < |js| && js[p] == '\\' && js[p + 1] == 'u'
    ensures Contents(js[p..q]) <==> FourDigits(js, p + 2) && Contents(js[p + 6..q])
  {
    var s := js[p..q];
    assert s[0] == '\\' && s[1] == 'u' && s[6..] == js[p + 6..q];
    assert s[2] == js[p + 2] && s[3] == js[p + 3] && s[4] == js[p + 4] && s[5] == js[p + 5];
    SameDigits(s[2], s[3], s[4], s[5]);
  }

  predicate FourDigits(js: string, p: nat) {
    p + 4 <= |js| && IsHex(js[p]) && IsHex(js[p + 1]) && IsHex(js[p + 2]) && IsHex(js[p + 3])
  }

  lemma SameDigits(a: char, b: char, c: char, d: char)
    ensures IsHex(a) && IsHex(b) && IsHex(c) && IsHex(d) <==> HexDigit(a) && HexDigit(b) && HexDigit(c) && HexDigit(d)
  {
    SameDigit(a);
    SameDigit(b);
    SameDigit(c);
    SameDigit(d);
  }

  lemma SameDigit(c: char)
    ensures IsHex(c) <==> HexDigit(c)
  {
    var all := "0123456789abcdefABCDEF";
    if '0' <= c <= '9' { assert all[c as int - '0' as int] == c; }
    if 'a' <= c <= 'f' { assert all[10 + c as int - 'a' as int] == c; }
    if 'A' <= c <= 'F' { assert all[16 + c as int - 'A' as int] == c; }
  }

  lemma FourTaken(js: string, p: nat)
    requires FourDigits(js, p)
    ensures ScanHex(js, p, 4) == Found(p + 4)
  {
    assert ScanHex(js, p + 4, 0) == Found(p + 4);
    assert ScanHex(js, p + 3, 1) == Found(p + 4);
    assert ScanHex(js, p + 2, 2) == Found(p + 4);
    assert ScanHex(js, p + 1, 3) == Found(p + 4);
  }

  /** With fewer digits the escape is wrong or the input ends in it. */
  lemma FourNeeded(js: string, p: nat)
    requires p <= |js| && !FourDigits(js, p)
    ensures var h := ScanHex(js, p, 4); h.Found? ==> AtEnd(js, h.at)
  {
    DigitsTaken(js, p, 4);
  }

  lemma {:induction false} DigitsTaken(js: string, p: nat, n: nat)
    requires p <= |js|
    ensures var h := ScanHex(js, p, n);
            h.Found? ==> p <= h.at <= |js| && (forall k | p <= k < h.at :: IsHex(js[k])) && (h.at == p + n || AtEnd(js, h.at))
    decreases n
  {
    if n > 0 && p < |js| { DigitsTaken(js, p + 1, n - 1); }
  }

  /** A primitive ends at the delimiter behind printable characters that are none. */
  predicate Bare(c: char) { ' ' < c <= '~' && c !in [',', ']', '}'] }

  lemma {:induction false} PrimitiveExact(js: string, p: nat, q: nat)
    ensures ScanPrimitive(js, p) == Found(q) <==>
            p <= q < |js| && js[q] in [' ', '\t', '\r', '\n', ',', ']', '}'] && forall k | p <= k < q :: Bare(js[k])
    decreases |js| - p
  {
    if p < |js| { PrimitiveExact(js, p + 1, q); }
  }

  // ---------------------------------------------------------------- what is accepted

  /** What stands in the text where a token says it is. A container that is still open has no end. */
  predicate Reads(js: string, t: Token, limit: nat)
    requires limit <= |js|
  {
    match t.kind
    case OBJECT => 0 <= t.start < limit && js[t.start] == '{' && (t.end == -1 || (t.start < t.end - 1 < limit && js[t.end - 1] == '}'))
    case ARRAY => 0 <= t.start < limit && js[t.start] == '[' && (t.end == -1 || (t.start < t.end - 1 < limit && js[t.end - 1] == ']'))
    case STRING => 0 < t.start <= t.end < limit && js[t.start - 1] == '\"' && js[t.end] == '\"' && Contents(js[t.start..t.end])
    case PRIMITIVE =>
      && 0 <= t.start < t.end <= limit && js[t.start] in "-0123456789tfn"
      && (forall k | t.start <= k < t.end :: Bare(js[k]))
      && (t.end < |js| && js[t.end] in [' ', '\t', '\r', '\n', ',', ']', '}'])
    case UNDEFINED => false
  }

  /** How many tokens name `p` as their parent. */
  function Children(toks: seq<Token>, p: int): nat {
    if toks == [] then 0 else Children(toks[..|toks| - 1], p) + if toks[|toks| - 1].parent == p then 1 else 0
  }

  /** A primitive never stands where a key belongs, and hangs under a key only as the first value there. */
  predicate NoKey(toks: seq<Token>, i: nat)
    requires i < |toks| && -1 <= toks[i].parent < i
  {
    toks[i].kind == PRIMITIVE && toks[i].parent != -1 ==>
      var owner := toks[toks[i].parent];
      owner.kind != OBJECT && (owner.kind == STRING ==> forall j | 0 <= j < i :: toks[j].parent != toks[i].parent)
  }

  /** The tokens are those of the text so far: in its order, each in its place, counting their children. */
  ghost predicate Sound(js: string, st: State) {
    && st.Linked() && st.pos <= |js|
    && AllRead(js, st.toks, st.pos) && InOrder(st.toks) && OwnBrackets(st.toks)
    && Counted(st.toks) && NoKeys(st.toks)
  }

  predicate AllRead(js: string, toks: seq<Token>, limit: nat)
    requires limit <= |js|
  {
    forall i | 0 <= i < |toks| :: Reads(js, toks[i], limit)
  }

  predicate Counted(toks: seq<Token>) { forall i | 0 <= i < |toks| :: toks[i].size == Children(toks, i) }

  predicate NoKeys(toks: seq<Token>) { forall i | 0 <= i < |toks| :: -1 <= toks[i].parent < i && NoKey(toks, i) }

  predicate InOrder(toks: seq<Token>) { forall i, j | 0 <= i < j < |toks| :: toks[i].start < toks[j].start }

  predicate IsContainer(t: Token) { t.kind == OBJECT || t.kind == ARRAY }

  /** No bracket closes two containers. */
  predicate OwnBrackets(toks: seq<Token>) {
    forall i, j | 0 <= i < j < |toks| && IsContainer(toks[i]) && IsContainer(toks[j]) && toks[i].end == toks[j].end :: toks[i].IsOpen()
  }

  lemma {:induction false} SameParents(a: seq<Token>, b: seq<Token>, p: int)
    requires |a| == |b| && forall i | 0 <= i < |a| :: a[i].parent == b[i].parent
    ensures Children(a, p) == Children(b, p)
    decreases |a|
  {
    if a != [] { SameParents(a[..|a| - 1], b[..|b| - 1], p); }
  }

  lemma {:induction false} NoChildYet(toks: seq<Token>, p: int)
    ensures Children(toks, p) == 0 <==> forall i | 0 <= i < |toks| :: toks[i].parent != p
    decreases |toks|
  {
    if toks != [] {
      var init := toks[..|toks| - 1];
      NoChildYet(init, p);
      forall i | 0 <= i < |init| ensures init[i] == toks[i] {}
    }
  }

  lemma AddCounted(toks: seq<Token>, super: int, t: Token)
    requires -1 <= super < |toks| && t.parent == super && t.size == 0 && Counted(toks) && NoKeys(toks)
    ensures Counted(Bump(toks, super) + [t])
  {
    var bumped := Bump(toks, super);
    var r := bumped + [t];
    assert r[..|toks|] == bumped;
    forall i | 0 <= i < |r| ensures r[i].size == Children(r, i) {
      SameParents(bumped, toks, i);
      if i == |toks| { NoChildYet(toks, i); }
    }
  }

  lemma AddNoKeys(st: State, t: Token)
    requires st.Linked() && t.parent == st.super && (t.kind == PRIMITIVE ==> !PrimitiveMisplaced(st))
    requires Counted(st.toks) && NoKeys(st.toks)
    ensures NoKeys(Bump(st.toks, st.super) + [t])
  {
    var r := Bump(st.toks, st.super) + [t];
    NoChildYet(st.toks, st.super);
    forall i | 0 <= i < |r| ensures -1 <= r[i].parent < i && NoKey(r, i) {
      if i < |st.toks| { assert NoKey(st.toks, i); }
    }
  }

  lemma ReadsOn(js: string, t: Token, limit: nat, pos: nat, size: nat)
    requires limit <= pos <= |js| && Reads(js, t, limit)
    ensures Reads(js, t.(size := size), pos)
  {
  }

  lemma AddRead(js: string, toks: seq<Token>, super: int, t: Token, limit: nat, pos: nat)
    requires limit <= pos <= |js| && AllRead(js, toks, limit) && -1 <= super < |toks| && Reads(js, t, pos)
    ensures AllRead(js, Bump(toks, super) + [t], pos)
  {
    var r := Bump(toks, super) + [t];
    forall i | 0 <= i < |r| ensures Reads(js, r[i], pos) {
      if i < |toks| { ReadsOn(js, toks[i], limit, pos, r[i].size); }
    }
  }

  lemma AddBrackets(toks: seq<Token>, super: int, t: Token)
    requires OwnBrackets(toks) && InOrder(toks) && -1 <= super < |toks| && (IsContainer(t) ==> t.end == -1)
    requires forall i | 0 <= i < |toks| :: 0 <= toks[i].start < t.start
    ensures OwnBrackets(Bump(toks, super) + [t]) && InOrder(Bump(toks, super) + [t])
  {
    var r := Bump(toks, super) + [t];
    forall i, j | 0 <= i < j < |r| && IsContainer(r[i]) && IsContainer(r[j]) && r[i].end == r[j].end ensures r[i].IsOpen() {
      assert IsContainer(toks[i]) && toks[i].end == r[i].end;
    }
  }

  /** A new token under the owner of the position. */
  lemma AddSound(js: string, st: State, t: Token, pos: nat, super: int)
    requires Sound(js, st) && st.pos < pos <= |js| && t.parent == st.super && t.size == 0 && Reads(js, t, pos)
    requires st.pos <= t.start && (IsContainer(t) ==> t.end == -1)
    requires t.kind == PRIMITIVE ==> !PrimitiveMisplaced(st)
    requires -1 <= super <= |st.toks|
    ensures Sound(js, State(pos, super, Bump(st.toks, st.super) + [t]))
  {
    AddCounted(st.toks, st.super, t);
    AddNoKeys(st, t);
    AddRead(js, st.toks, st.super, t, st.pos, pos);
    StartsBefore(js, st);
    AddBrackets(st.toks, st.super, t);
  }

  lemma StartsBefore(js: string, st: State)
    requires Sound(js, st)
    ensures forall i | 0 <= i < |st.toks| :: st.toks[i].start < st.pos
  {
    forall i | 0 <= i < |st.toks| ensures st.toks[i].start < st.pos { assert Reads(js, st.toks[i], st.pos); }
  }

  /** An open container gets its end. */
  lemma CloseSound(js: string, st: State, i: nat, super: int)
    requires Sound(js, st) && st.pos < |js| && i < |st.toks| && st.toks[i].IsOpen() && -1 <= super < |st.toks|
    requires (js[st.pos] == '}' && st.toks[i].kind == OBJECT) || (js[st.pos] == ']' && st.toks[i].kind == ARRAY)
    ensures Sound(js, State(st.pos + 1, super, st.toks[i := st.toks[i].(end := st.pos + 1)]))
  {
    var r := st.toks[i := st.toks[i].(end := st.pos + 1)];
    CloseRead(js, st, i);
    forall k | 0 <= k < |r| ensures r[k].size == Children(r, k) { SameParents(r, st.toks, k); }
    forall k | 0 <= k < |r| ensures -1 <= r[k].parent < k && NoKey(r, k) { assert NoKey(st.toks, k); }
  }

  lemma CloseRead(js: string, st: State, i: nat)
    requires Sound(js, st) && st.pos < |js| && i < |st.toks| && st.toks[i].IsOpen()
    requires (js[st.pos] == '}' && st.toks[i].kind == OBJECT) || (js[st.pos] == ']' && st.toks[i].kind == ARRAY)
    ensures var r := st.toks[i := st.toks[i].(end := st.pos + 1)]; AllRead(js, r, st.pos + 1) && OwnBrackets(r)
  {
    var r := st.toks[i := st.toks[i].(end := st.pos + 1)];
    forall k | 0 <= k < |r| ensures Reads(js, r[k], st.pos + 1) {
      if k != i { ReadsOn(js, st.toks[k], st.pos, st.pos + 1, st.toks[k].size); }
    }
    forall a, b | 0 <= a < b < |r| && IsContainer(r[a]) && IsContainer(r[b]) && r[a].end == r[b].end ensures r[a].IsOpen() {
      assert Reads(js, st.toks[a], st.pos) && Reads(js, st.toks[b], st.pos);
    }
  }

  /** Going on without a new token. */
  lemma MoveSound(js: string, st: State, super: int)
    requires Sound(js, st) && st.pos < |js| && -1 <= super < |st.toks|
    ensures Sound(js, State(st.pos + 1, super, st.toks))
  {
    forall i | 0 <= i < |st.toks| ensures Reads(js, st.toks[i], st.pos + 1) { ReadsOn(js, st.toks[i], st.pos, st.pos + 1, st.toks[i].size); }
  }

  lemma StepSound(js: string, st: State, cap: nat)
    requires Sound(js, st) && !AtEnd(js, st.pos)
    ensures FillStep(js, st, cap).Ok? ==> Sound(js, FillStep(js, st, cap).value)
  {
    var c, r := js[st.pos], FillStep(js, st, cap);
    if r.Ok? {
      if c == '{' || c == '[' {
        OpenStep(js, st, cap);
      } else if c == '}' || c == ']' {
        CloseStep(js, st, cap);
      } else if c == '\"' {
        StringStep(js, st, cap);
      } else if IsSpace(c) || c == ':' || c == ',' {
        MoveSound(js, st, r.value.super);
      } else {
        PrimitiveStep(js, st, cap);
      }
    }
  }

  lemma OpenStep(js: string, st: State, cap: nat)
    requires Sound(js, st) && !AtEnd(js, st.pos) && js[st.pos] in ['{', '['] && FillStep(js, st, cap).Ok?
    ensures Sound(js, FillStep(js, st, cap).value)
  {
    var t := Token(if js[st.pos] == '{' then OBJECT else ARRAY, st.pos, -1, 0, st.super);
    Opens(js, st, cap, t);
    AddSound(js, st, t, st.pos + 1, |st.toks|);
  }

  lemma Opens(js: string, st: State, cap: nat, t: Token)
    requires st.Linked() && !AtEnd(js, st.pos) && js[st.pos] in ['{', '['] && FillStep(js, st, cap).Ok?
    requires t == Token(if js[st.pos] == '{' then OBJECT else ARRAY, st.pos, -1, 0, st.super)
    ensures Reads(js, t, st.pos + 1) && FillStep(js, st, cap).value == State(st.pos + 1, |st.toks|, Bump(st.toks, st.super) + [t])
  {
  }

  lemma CloseStep(js: string, st: State, cap: nat)
    requires Sound(js, st) && !AtEnd(js, st.pos) && js[st.pos] in ['}', ']'] && FillStep(js, st, cap).Ok?
    ensures Sound(js, FillStep(js, st, cap).value)
  {
    var kind := if js[st.pos] == '}' then OBJECT else ARRAY;
    assert FillStep(js, st, cap) == CloseBracket(st, kind);
    BracketSound(js, st, kind);
  }

  lemma BracketSound(js: string, st: State, kind: Kind)
    requires Sound(js, st) && st.pos < |js| && CloseBracket(st, kind).Ok?
    requires (js[st.pos] == '}' && kind == OBJECT) || (js[st.pos] == ']' && kind == ARRAY)
    ensures Sound(js, CloseBracket(st, kind).value)
  {
    var i := ClosesOne(st, kind);
    if i < |st.toks| { CloseSound(js, st, i, st.toks[i].parent); } else { MoveSound(js, st, st.super); }
  }

  /** What a closing bracket does: it closes an open container of its kind, or nothing at all. */
  lemma ClosesOne(st: State, kind: Kind) returns (i: nat)
    requires st.Linked() && CloseBracket(st, kind).Ok?
    ensures if i < |st.toks| then
              && st.toks[i].IsOpen() && st.toks[i].kind == kind
              && CloseBracket(st, kind).value == State(st.pos + 1, st.toks[i].parent, st.toks[i := st.toks[i].(end := st.pos + 1)])
            else CloseBracket(st, kind).value == State(st.pos + 1, st.super, st.toks)
  {
    FindOpenBounds(st.toks, |st.toks| - 1, kind, st.super);
    var f := FindOpen(st.toks, |st.toks| - 1, kind, st.super);
    i := if f.Closes? then f.i else |st.toks|;
  }

  lemma StringStep(js: string, st: State, cap: nat)
    requires Sound(js, st) && !AtEnd(js, st.pos) && js[st.pos] == '\"' && FillStep(js, st, cap).Ok?
    ensures Sound(js, FillStep(js, st, cap).value)
  {
    var p := st.pos;
    var q := ScanString(js, p + 1).at;
    StringExact(js, p + 1, q);
    AddSound(js, st, Token(STRING, p + 1, q, 0, st.super), q + 1, st.super);
  }

  lemma PrimitiveStep(js: string, st: State, cap: nat)
    requires Sound(js, st) && !AtEnd(js, st.pos) && StartsPrimitive(js[st.pos]) && FillStep(js, st, cap).Ok?
    ensures Sound(js, FillStep(js, st, cap).value)
  {
    var p := st.pos;
    var q := ScanPrimitive(js, p).at;
    PrimitiveExact(js, p, q);
    LeadCharacter(js[p]);
    AddSound(js, st, Token(PRIMITIVE, p, q, 0, st.super), q, st.super);
  }

  lemma LeadCharacter(c: char)
    ensures StartsPrimitive(c) <==> c in "-0123456789tfn"
  {
    var all := "-0123456789tfn";
    if '0' <= c <= '9' { assert all[1 + c as int - '0' as int] == c; }
    assert all[0] == '-' && all[11] == 't' && all[12] == 'f' && all[13] == 'n';
  }

  lemma {:induction false} RunSound(js: string, st: State, cap: nat, toks: seq<Token>) returns (end: nat)
    requires Sound(js, st) && FillFrom(js, st, cap) == Ok(toks)
    ensures end <= |js| && AtEnd(js, end) && Sound(js, State(end, -1, toks))
    ensures forall i | 0 <= i < |toks| :: !toks[i].IsOpen()
    decreases |js| - st.pos
  {
    if AtEnd(js, st.pos) {
      end := st.pos;
    } else {
      StepSound(js, st, cap);
      end := RunSound(js, FillStep(js, st, cap).value, cap, toks);
    }
  }

  /**
   Every accepted text, JSON or not: all tokens are closed and stand where the text has their quotes, brackets or delimiter,
   in the order of the text; no bracket closes two containers; sizes count children; and no primitive is a key.
   */
  lemma AcceptedMeaning(js: string, cap: nat, toks: seq<Token>)
    requires FillFrom(js, START, cap) == Ok(toks)
    ensures AllRead(js, toks, |js|) && InOrder(toks) && Counted(toks) && NoKeys(toks)
    ensures forall i, j | 0 <= i < j < |toks| && IsContainer(toks[i]) && IsContainer(toks[j]) :: toks[i].end != -1 && toks[i].end != toks[j].end
  {
    assert Sound(js, START);
    var end := RunSound(js, START, cap, toks);
    forall i | 0 <= i < |toks| ensures Reads(js, toks[i], |js|) { ReadsOn(js, toks[i], end, |js|, toks[i].size); }
  }

  // ---------------------------------------------------------------- texts cut short

  lemma {:induction false} CutHex(js: string, p: nat, n: nat, k: nat)
    requires p <= k <= |js| && ScanHex(js, p, n).Found?
    ensures ScanHex(js[..k], p, n) == Found(if ScanHex(js, p, n).at <= k then ScanHex(js, p, n).at else k)
    decreases n
  {
    if n > 0 && p < k && !AtEnd(js, p) { CutHex(js, p + 1, n - 1, k); }
  }

  lemma {:induction false} CutString(js: string, p: nat, k: nat)
    requires p <= k <= |js| && ScanString(js, p).Found?
    ensures ScanString(js[..k], p) == if ScanString(js, p).at < k then ScanString(js, p) else Failed(ERROR_PART)
    decreases |js| - p
  {
    ScanBounds(js, p);
    if p < k && js[p] != '\"' {
      if js[p] == '\\' && p + 1 < |js| {
        CutEscape(js, p, k);
      } else {
        CutString(js, p + 1, k);
      }
    }
  }

  lemma {:induction false} CutEscape(js: string, p: nat, k: nat)
    requires p < k <= |js| && p + 1 < |js| && js[p] == '\\' && ScanString(js, p).Found?
    ensures ScanString(js[..k], p) == if ScanString(js, p).at < k then ScanString(js, p) else Failed(ERROR_PART)
    decreases |js| - p, 0
  {
    if p + 1 == k {
      assert AtEnd(js[..k], p + 1);
      ScanBounds(js, if IsSimpleEscape(js[p + 1]) then p + 2 else ScanHex(js, p + 2, 4).at);
    } else if IsSimpleEscape(js[p + 1]) {
      CutString(js, p + 2, k);
    } else {
      var q := ScanHex(js, p + 2, 4).at;
      CutHex(js, p + 2, 4, k);
      if q <= k { CutString(js, q, k); } else { ScanBounds(js, q); }
    }
  }

  lemma {:induction false} CutPrimitive(js: string, p: nat, k: nat)
    requires p <= k <= |js| && ScanPrimitive(js, p).Found?
    ensures ScanPrimitive(js[..k], p) == if ScanPrimitive(js, p).at < k then ScanPrimitive(js, p) else Failed(ERROR_PART)
    decreases |js| - p
  {
    ScanBounds(js, p);
    if p < k && !EndsPrimitive(js[p]) { CutPrimitive(js, p + 1, k); }
  }

  /** A step over a text cut at `k` is the same, or it meets the cut. */
  lemma CutStep(js: string, st: State, cap: nat, k: nat)
    requires st.Linked() && st.pos < k <= |js| && !AtEnd(js, st.pos) && FillStep(js, st, cap).Ok?
    ensures var r := FillStep(js[..k], st, cap); r == Error(ERROR_PART) || (r == FillStep(js, st, cap) && r.value.pos <= k)
  {
    var c := js[st.pos];
    ScanBounds(js, st.pos + 1);
    if c == '\"' {
      CutString(js, st.pos + 1, k);
    } else if StartsPrimitive(c) {
      CutPrimitive(js, st.pos, k);
    }
  }

  /** The first token keeps its kind and its place, and its end once it has one. */
  lemma StepKeepsFirst(js: string, st: State, cap: nat)
    requires Sound(js, st) && !AtEnd(js, st.pos) && FillStep(js, st, cap).Ok?
    ensures var r := FillStep(js, st, cap).value;
            if st.toks == [] then r.toks == [] || r.toks[0].start >= st.pos
            else
              && r.toks != [] && r.toks[0].kind == st.toks[0].kind && r.toks[0].start == st.toks[0].start
              && (st.toks[0].end != -1 ==> r.toks[0].end == st.toks[0].end)
  {
    if js[st.pos] in ['}', ']'] { var _ := ClosesOne(st, if js[st.pos] == '}' then OBJECT else ARRAY); }
  }

  lemma {:induction false} KeepsFirst(js: string, st: State, cap: nat, toks: seq<Token>)
    requires Sound(js, st) && FillFrom(js, st, cap) == Ok(toks) && toks != []
    ensures if st.toks == [] then toks[0].start >= st.pos
            else
              && toks[0].kind == st.toks[0].kind && toks[0].start == st.toks[0].start
              && (st.toks[0].end != -1 ==> toks[0].end == st.toks[0].end)
    decreases |js| - st.pos
  {
    if !AtEnd(js, st.pos) {
      StepSound(js, st, cap);
      StepKeepsFirst(js, st, cap);
      KeepsFirst(js, FillStep(js, st, cap).value, cap, toks);
    }
  }

  /** Where the cut falls within the first container, that container is still open. */
  lemma CutLeavesOpen(js: string, st: State, cap: nat, toks: seq<Token>, k: nat)
    requires Sound(js, st) && FillFrom(js, st, cap) == Ok(toks) && st.pos <= k <= |js| && AtEnd(js[..k], st.pos)
    requires toks != [] && IsContainer(toks[0]) && toks[0].start < k < toks[0].end
    ensures st.toks != [] && st.toks[0].IsOpen()
  {
    KeepsFirst(js, st, cap, toks);
    if st.toks != [] { assert Reads(js, st.toks[0], st.pos); }
  }

  /** From a state before the cut the run over the text cut short ends in the error for a part of a text. */
  lemma {:induction false} CutRun(js: string, st: State, cap: nat, toks: seq<Token>, k: nat)
    requires Sound(js, st) && FillFrom(js, st, cap) == Ok(toks) && st.pos <= k <= |js|
    requires toks != [] && IsContainer(toks[0]) && toks[0].start < k < toks[0].end
    ensures FillFrom(js[..k], st, cap) == Error(ERROR_PART)
    decreases |js| - st.pos
  {
    if AtEnd(js[..k], st.pos) {
      CutLeavesOpen(js, st, cap, toks, k);
    } else {
      CutStep(js, st, cap, k);
      StepSound(js, st, cap);
      if FillStep(js[..k], st, cap).Ok? { CutRun(js, FillStep(js, st, cap).value, cap, toks, k); }
    }
  }

  /** A text accepted as a container is not accepted when it is cut within that container: the error says that a part is missing. */
  lemma TruncationDetected(js: string, cap: nat, toks: seq<Token>, k: nat)
    requires FillFrom(js, START, cap) == Ok(toks) && toks != [] && IsContainer(toks[0]) && toks[0].start < k < toks[0].end
    ensures k <= |js| && FillFrom(js[..k], START, cap) == Error(ERROR_PART)
  {
    AcceptedMeaning(js, cap, toks);
    assert Reads(js, toks[0], |js|);
    CutRun(js, START, cap, toks, k);
  }

  /** So a rendered document is told from every text that stops before its last bracket. */
  lemma DocumentCutShort(before: string, j: JsmnTree.Json, after: string, cap: nat, k: nat)
    requires (j.JArray? || j.JObject?) && JsmnTree.Legal(j) && JsmnTree.Spaces(before) && JsmnTree.Spaces(after) && JsmnTree.Tokens(j) <= cap
    requires |before| < k < |before| + |JsmnTree.Render(j)|
    ensures FillFrom((before + JsmnTree.Render(j) + after)[..k], START, cap) == Error(ERROR_PART)
  {
    JsmnTree.TokenizeDocument(before, j, after, cap);
    TruncationDetected(before + JsmnTree.Render(j) + after, cap, JsmnTree.Flatten(j, |before|, 0, -1), k);
  }

  // ---------------------------------------------------------------- which container a bracket closes

  /** `a` is `i` or a container or key that `i` hangs under, directly or not. */
  predicate Above(toks: seq<Token>, a: int, i: int)
    requires 0 <= i < |toks| && forall k | 0 <= k < |toks| :: -1 <= toks[k].parent < k
    decreases i
  {
    a == i || (toks[i].parent != -1 && Above(toks, a, toks[i].parent))
  }

  /**
   A bracket closes the innermost open container that the last token stands in, when that is of its kind. It goes unnoticed
   if and only if the last token stands in no open container, the outermost thing it stands in is of its kind and there
   is an owner for a next value; otherwise it is an error.
   */
  lemma {:induction false} FindOpenExact(toks: seq<Token>, i: nat, kind: Kind, super: int)
    requires i < |toks| && forall k | 0 <= k < |toks| :: -1 <= toks[k].parent < k
    ensures forall k: nat :: FindOpen(toks, i, kind, super) == Closes(k) <==>
              && k < |toks| && Above(toks, k, i) && toks[k].IsOpen() && toks[k].kind == kind
              && forall a | k < a < |toks| && Above(toks, a, i) :: !toks[a].IsOpen()
    ensures FindOpen(toks, i, kind, super) == ClosesNothing <==>
              && super != -1
              && (forall a | 0 <= a < |toks| && Above(toks, a, i) :: !toks[a].IsOpen())
              && exists a :: 0 <= a < |toks| && Above(toks, a, i) && toks[a].parent == -1 && toks[a].kind == kind
    decreases i
  {
    AboveSelf(toks, i);
    if !toks[i].IsOpen() && toks[i].parent != -1 {
      var p := toks[i].parent;
      FindOpenExact(toks, p, kind, super);
      forall a | 0 <= a < |toks| ensures Above(toks, a, i) <==> a == i || Above(toks, a, p) {}
      AboveSelf(toks, p);
    }
  }

  lemma {:induction false} AboveSelf(toks: seq<Token>, i: nat)
    requires i < |toks| && forall k | 0 <= k < |toks| :: -1 <= toks[k].parent < k
    ensures Above(toks, i, i) && forall a | 0 <= a < |toks| && Above(toks, a, i) :: a <= i
    decreases i
  {
    if toks[i].parent != -1 { AboveSelf(toks, toks[i].parent); }
  }

  /** Not only JSON is accepted: behind a colon a closing bracket of the same kind goes unnoticed. */
  lemma StrayBracket()
    ensures FillFrom("[]:]", START, 1) == Ok([Token(ARRAY, 0, 2, 0, -1)])
  {
    EmptyArrayRead();
    ColonThenBracket();
  }

  lemma EmptyArrayRead()
    ensures var st := State(2, -1, [Token(ARRAY, 0, 2, 0, -1)]); st.Linked() && FillFrom("[]:]", START, 1) == FillFrom("[]:]", st, 1)
  {
    var js := "[]:]";
    var begun, done := Token(ARRAY, 0, -1, 0, -1), Token(ARRAY, 0, 2, 0, -1);
    assert js[0] == '[' && js[1] == ']';
    assert [begun][0 := done] == [done];
    assert Bump([], -1) + [begun] == [begun];
    assert FillStep(js, START, 1) == Ok(State(1, 0, [begun]));
    assert FindOpen([begun], 0, ARRAY, 0) == Closes(0);
    assert CloseBracket(State(1, 0, [begun]), ARRAY) == Ok(State(2, -1, [done]));
    assert FillStep(js, State(1, 0, [begun]), 1) == Ok(State(2, -1, [done]));
  }

  lemma ColonThenBracket()
    ensures var st := State(2, -1, [Token(ARRAY, 0, 2, 0, -1)]); st.Linked() && FillFrom("[]:]", st, 1) == Ok(st.toks)
  {
    var js := "[]:]";
    var toks := [Token(ARRAY, 0, 2, 0, -1)];
    assert js[2] == ':' && js[3] == ']';
    assert FillStep(js, State(2, -1, toks), 1) == Ok(State(3, 0, toks));
    assert FindOpen(toks, 0, ARRAY, 0) == ClosesNothing;
    assert CloseBracket(State(3, 0, toks), ARRAY) == Ok(State(4, 0, toks));
    assert FillStep(js, State(3, 0, toks), 1) == Ok(State(4, 0, toks));
    assert FillFrom(js, State(4, 0, toks), 1) == Ok(toks);
  }
}
