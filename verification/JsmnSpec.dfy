/**
 The jsmn tokenizer as cgltf configures it (strict mode, parent links), as functions of the
 input text. A `char` stands for one byte of the input.
 `CountFrom` is the pass without a token array, `FillFrom` the pass with one.
 */
module JsmnSpec {
  datatype Kind = UNDEFINED | OBJECT | ARRAY | STRING | PRIMITIVE

  datatype Token = Token(kind: Kind, start: int, end: int, size: nat, parent: int) {
    predicate IsOpen() { start != -1 && end == -1 }
  }

  datatype Error = ERROR_NOMEM | ERROR_INVAL | ERROR_PART

  predicate IsSpace(c: char) { c == ' ' || c == '\t' || c == '\r' || c == '\n' }
  predicate StartsPrimitive(c: char) { c == '-' || '0' <= c <= '9' || c == 't' || c == 'f' || c == 'n' }
  predicate EndsPrimitive(c: char) { IsSpace(c) || c == ',' || c == ']' || c == '}' }
  predicate IsHex(c: char) { '0' <= c <= '9' || 'A' <= c <= 'F' || 'a' <= c <= 'f' }
  predicate IsSimpleEscape(c: char) { c in "\"/\\bfrnt" }

  /** The scan has reached the end of the input or a NUL. */
  predicate AtEnd(js: string, p: nat) { p >= |js| || js[p] == '\0' }

  /** Where a scan stopped, or why it failed. */
  datatype Scan = Found(at: nat) | Failed(error: Error)

  /** The delimiter behind a primitive. Strict mode wants one. */
  function ScanPrimitive(js: string, p: nat): Scan
    decreases |js| - p
  {
    if AtEnd(js, p) then Failed(ERROR_PART)
    else if EndsPrimitive(js[p]) then Found(p)
    else if js[p] < ' ' || js[p] > '~' then Failed(ERROR_INVAL)
    else ScanPrimitive(js, p + 1)
  }

  /** Up to four hex digits of a \u escape: the position behind them. */
  function ScanHex(js: string, p: nat, digits: nat): (r: Scan)
    ensures r.Found? ==> p <= r.at && (p <= |js| ==> r.at <= |js|)
    decreases digits
  {
    if digits == 0 || AtEnd(js, p) then Found(p)
    else if !IsHex(js[p]) then Failed(ERROR_INVAL)
    else ScanHex(js, p + 1, digits - 1)
  }

  /** The closing quote of a string whose contents start at `p`. */
  function ScanString(js: string, p: nat): Scan
    decreases |js| - p
  {
    if AtEnd(js, p) then Failed(ERROR_PART)
    else if js[p] == '\"' then Found(p)
    else if js[p] == '\\' && p + 1 < |js| then
      if IsSimpleEscape(js[p + 1]) then ScanString(js, p + 2)
      else if js[p + 1] == 'u' then
        match ScanHex(js, p + 2, 4)
        case Found(q) => ScanString(js, q)
        case Failed(e) => Failed(e)
      else Failed(ERROR_INVAL)
    else ScanString(js, p + 1)
  }

  /** A scan ends inside the input and not before it started. */
  lemma {:induction false} ScanBounds(js: string, p: nat)
    ensures ScanPrimitive(js, p).Found? ==> p <= ScanPrimitive(js, p).at < |js|
    ensures ScanPrimitive(js, p).Failed? ==> ScanPrimitive(js, p).error != ERROR_NOMEM
    ensures ScanString(js, p).Found? ==> p <= ScanString(js, p).at < |js|
    ensures ScanString(js, p).Failed? ==> ScanString(js, p).error != ERROR_NOMEM
    decreases |js| - p
  {
    if p < |js| {
      ScanBounds(js, p + 1);
      if p + 1 < |js| {
        ScanBounds(js, p + 2);
        var h := ScanHex(js, p + 2, 4);
        HexError(js, p + 2, 4);
        if h.Found? { ScanBounds(js, h.at); }
      }
    }
  }

  lemma {:induction false} HexError(js: string, p: nat, digits: nat)
    ensures ScanHex(js, p, digits).Failed? ==> ScanHex(js, p, digits).error != ERROR_NOMEM
    decreases digits
  {
    if digits > 0 { HexError(js, p + 1, digits - 1); }
  }

  // ---------------------------------------------------------------- counting

  datatype Outcome<+T> = Ok(value: T) | Error(error: Error)

  function CountFrom(js: string, p: nat, n: nat): Outcome<nat>
    decreases |js| - p
  {
    if AtEnd(js, p) then Ok(n) else
    var c := js[p];
    if c == '{' || c == '[' then CountFrom(js, p + 1, n + 1)
    else if c == '}' || c == ']' || IsSpace(c) || c == ':' || c == ',' then CountFrom(js, p + 1, n)
    else if c == '\"' then
      match ScanString(js, p + 1)
      case Found(q) => if q >= p then CountFrom(js, q + 1, n + 1) else Error(ERROR_PART)
      case Failed(e) => Error(e)
    else if StartsPrimitive(c) then
      match ScanPrimitive(js, p)
      case Found(q) => if q > p then CountFrom(js, q, n + 1) else Error(ERROR_PART)
      case Failed(e) => Error(e)
    else Error(ERROR_INVAL)
  }

  // ---------------------------------------------------------------- filling

  /** Parser fields and the tokens handed out so far; `toknext` is their number. */
  datatype State = State(pos: nat, super: int, toks: seq<Token>) {
    /** Every link points to an earlier token, and `super` to an existing one. */
    ghost predicate Linked() {
      && -1 <= super < |toks|
      && forall i | 0 <= i < |toks| :: -1 <= toks[i].parent < i && toks[i].start >= 0
    }
  }

  function Bump(toks: seq<Token>, i: int): (r: seq<Token>)
    requires -1 <= i < |toks|
    ensures |r| == |toks|
  {
    if i == -1 then toks else toks[i := toks[i].(size := toks[i].size + 1)]
  }

  /** Which token a closing bracket closes. */
  datatype Closing = Closes(i: nat) | ClosesNothing | Mismatch

  function FindOpen(toks: seq<Token>, i: nat, kind: Kind, super: int): Closing
    requires i < |toks| && forall k | 0 <= k < |toks| :: -1 <= toks[k].parent < k
    decreases i
  {
    if toks[i].IsOpen() then (if toks[i].kind == kind then Closes(i) else Mismatch)
    else if toks[i].parent == -1 then (if toks[i].kind != kind || super == -1 then Mismatch else ClosesNothing)
    else FindOpen(toks, toks[i].parent, kind, super)
  }

  lemma {:induction false} FindOpenBounds(toks: seq<Token>, i: nat, kind: Kind, super: int)
    requires i < |toks| && forall k | 0 <= k < |toks| :: -1 <= toks[k].parent < k
    ensures var c := FindOpen(toks, i, kind, super); c.Closes? ==> c.i <= i && toks[c.i].IsOpen() && toks[c.i].kind == kind
    decreases i
  {
    if !toks[i].IsOpen() && toks[i].parent != -1 { FindOpenBounds(toks, toks[i].parent, kind, super); }
  }

  function CloseBracket(st: State, kind: Kind): (r: Outcome<State>)
    requires st.Linked()
    ensures r.Ok? ==> r.value.Linked() && r.value.pos == st.pos + 1 && |r.value.toks| == |st.toks|
  {
    if st.toks == [] then Error(ERROR_INVAL) else
    var c := FindOpen(st.toks, |st.toks| - 1, kind, st.super);
    FindOpenBounds(st.toks, |st.toks| - 1, kind, st.super);
    match c
    case Mismatch => Error(ERROR_INVAL)
    case ClosesNothing => Ok(State(st.pos + 1, st.super, st.toks))
    case Closes(i) => Ok(State(st.pos + 1, st.toks[i].parent, st.toks[i := st.toks[i].(end := st.pos + 1)]))
  }

  /** A comma leaves a key or a scalar that owns the position. */
  function AfterComma(st: State): int
    requires st.Linked()
  {
    if st.super != -1 && st.toks[st.super].kind != ARRAY && st.toks[st.super].kind != OBJECT
    then st.toks[st.super].parent else st.super
  }

  /** Strict mode: a primitive is neither a key nor a second value. */
  predicate PrimitiveMisplaced(st: State)
    requires st.Linked()
  {
    st.super != -1 &&
    (st.toks[st.super].kind == OBJECT || (st.toks[st.super].kind == STRING && st.toks[st.super].size != 0))
  }

  /** One iteration of the filling loop at a character that is not the end. */
  function FillStep(js: string, st: State, cap: nat): (r: Outcome<State>)
    requires st.Linked() && !AtEnd(js, st.pos)
    ensures r.Ok? ==> r.value.Linked() && st.pos < r.value.pos <= |js|
  {
    var c, p, toks, super := js[st.pos], st.pos, st.toks, st.super;
    if c == '{' || c == '[' then
      if |toks| >= cap then Error(ERROR_NOMEM)
      else Ok(State(p + 1, |toks|, Bump(toks, super) + [Token(if c == '{' then OBJECT else ARRAY, p, -1, 0, super)]))
    else if c == '}' || c == ']' then CloseBracket(st, if c == '}' then OBJECT else ARRAY)
    else if c == '\"' then
      ScanBounds(js, p + 1);
      match ScanString(js, p + 1)
      case Failed(e) => Error(e)
      case Found(q) =>
        if |toks| >= cap then Error(ERROR_NOMEM)
        else Ok(State(q + 1, super, Bump(toks, super) + [Token(STRING, p + 1, q, 0, super)]))
    else if IsSpace(c) then Ok(State(p + 1, super, toks))
    else if c == ':' then Ok(State(p + 1, |toks| - 1, toks))
    else if c == ',' then Ok(State(p + 1, AfterComma(st), toks))
    else if StartsPrimitive(c) then
      if PrimitiveMisplaced(st) then Error(ERROR_INVAL) else
      ScanBounds(js, p + 1);
      assert ScanPrimitive(js, p) == if c > '~' then Failed(ERROR_INVAL) else ScanPrimitive(js, p + 1);
      match ScanPrimitive(js, p)
      case Failed(e) => Error(e)
      case Found(q) =>
        if |toks| >= cap then Error(ERROR_NOMEM)
        else Ok(State(q, super, Bump(toks, super) + [Token(PRIMITIVE, p, q, 0, super)]))
    else Error(ERROR_INVAL)
  }

  /** The rest of the filling loop, and the check for containers left open. */
  function FillFrom(js: string, st: State, cap: nat): Outcome<seq<Token>>
    requires st.Linked()
    decreases |js| - st.pos
  {
    if AtEnd(js, st.pos) then
      if exists i | 0 <= i < |st.toks| :: st.toks[i].IsOpen() then Error(ERROR_PART) else Ok(st.toks)
    else
      match FillStep(js, st, cap)
      case Error(e) => Error(e)
      case Ok(st') => FillFrom(js, st', cap)
  }

  const START := State(0, -1, [])

  // ---------------------------------------------------------------- the two passes agree

  /** One filling step does to the count what the counting loop does at the same position. */
  lemma StepCounts(js: string, st: State, cap: nat)
    requires st.Linked() && !AtEnd(js, st.pos)
    ensures var r := FillStep(js, st, cap);
            r.Ok? ==> CountFrom(js, st.pos, |st.toks|) == CountFrom(js, r.value.pos, |r.value.toks|)
  {
    ScanBounds(js, st.pos + 1);
    ScanBounds(js, st.pos);
  }

  lemma {:induction false} CountGrows(js: string, p: nat, n: nat)
    ensures CountFrom(js, p, n).Ok? ==> CountFrom(js, p, n).value >= n
    decreases |js| - p
  {
    if !AtEnd(js, p) {
      CountGrows(js, p + 1, n);
      CountGrows(js, p + 1, n + 1);
      ScanBounds(js, p + 1);
      ScanBounds(js, p);
      var a, b := ScanString(js, p + 1), ScanPrimitive(js, p);
      if a.Found? { CountGrows(js, a.at + 1, n + 1); }
      if b.Found? && b.at > p { CountGrows(js, b.at, n + 1); }
    }
  }

  /** A counted container or scalar needs a slot: the count is strictly larger than what is in use. */
  lemma StepNeedsRoom(js: string, st: State, cap: nat)
    requires st.Linked() && !AtEnd(js, st.pos) && FillStep(js, st, cap) == Error(ERROR_NOMEM)
    ensures CountFrom(js, st.pos, |st.toks|).Ok? ==> CountFrom(js, st.pos, |st.toks|).value > cap
  {
    var p, n := st.pos, |st.toks|;
    CountGrows(js, p + 1, n + 1);
    ScanBounds(js, p + 1);
    ScanBounds(js, p);
    var a, b := ScanString(js, p + 1), ScanPrimitive(js, p);
    if a.Found? { CountGrows(js, a.at + 1, n + 1); }
    if b.Found? && b.at > p { CountGrows(js, b.at, n + 1); }
    if js[p] == '}' || js[p] == ']' {
      assert CloseBracket(st, if js[p] == '}' then OBJECT else ARRAY) != Error(ERROR_NOMEM);
    }
  }

  /** Every parent is in front of its child and no container is left open. */
  ghost predicate Settled(toks: seq<Token>) {
    forall i | 0 <= i < |toks| :: -1 <= toks[i].parent < i && !toks[i].IsOpen()
  }

  /**
   For every byte string: filling can only succeed when counting does, with exactly the counted
   number of tokens, all containers closed and every parent in front of its child;
   and it runs out of tokens only when given fewer than were counted.
   */
  lemma {:induction false} PassesAgree(js: string, st: State, cap: nat)
    requires st.Linked()
    ensures var r := FillFrom(js, st, cap);
            var n := CountFrom(js, st.pos, |st.toks|);
            && (r.Ok? ==> n == Ok(|r.value|) && Settled(r.value))
            && (r == Error(ERROR_NOMEM) && n.Ok? ==> n.value > cap)
    decreases |js| - st.pos
  {
    if !AtEnd(js, st.pos) {
      StepCounts(js, st, cap);
      match FillStep(js, st, cap)
      case Ok(st') => PassesAgree(js, st', cap);
      case Error(e) => if e == ERROR_NOMEM { StepNeedsRoom(js, st, cap); }
    }
  }

  /** More room changes nothing when there is enough, and a filled array is never larger than its room. */
  lemma {:induction false} MoreRoom(js: string, st: State, n: nat, cap: nat)
    requires st.Linked() && |st.toks| <= n <= cap
    ensures FillFrom(js, st, n).Ok? ==> FillFrom(js, st, cap) == FillFrom(js, st, n) && |FillFrom(js, st, n).value| <= n
    decreases |js| - st.pos
  {
    if !AtEnd(js, st.pos) {
      RoomForStep(js, st, n, cap);
      match FillStep(js, st, n)
      case Ok(st') => MoreRoom(js, st', n, cap);
      case Error(_) =>
    }
  }

  lemma RoomForStep(js: string, st: State, n: nat, cap: nat)
    requires st.Linked() && !AtEnd(js, st.pos) && |st.toks| <= n <= cap
    ensures FillStep(js, st, n).Ok? ==> FillStep(js, st, cap) == FillStep(js, st, n) && |FillStep(js, st, n).value.toks| <= n
  {
  }

  /** When the counted number of tokens is enough, a number given instead is enough if and only if it is no smaller. */
  lemma GivenCount(js: string, cap: nat)
    requires CountFrom(js, 0, 0).Ok? && FillFrom(js, START, CountFrom(js, 0, 0).value).Ok?
    ensures FillFrom(js, START, cap).Ok? <==> cap >= CountFrom(js, 0, 0).value
    ensures FillFrom(js, START, cap).Ok? ==> FillFrom(js, START, cap) == FillFrom(js, START, CountFrom(js, 0, 0).value)
  {
    var n := CountFrom(js, 0, 0).value;
    if cap >= n {
      MoreRoom(js, START, n, cap);
    } else {
      MoreRoom(js, START, cap, cap);
      PassesAgree(js, START, cap);
    }
  }
}
