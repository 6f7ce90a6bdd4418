/** The jsmn parser object over a token array, and the token walk `cgltf_skip_json`. */
module Jsmn {
  import opened JsmnSpec

  const NO_TOKEN := Token(UNDEFINED, -1, -1, 0, -1)

  /** `jsmn_parse_primitive` up to its token: the delimiter behind the primitive at `start`. */
  method ParsePrimitive(js: string, start: nat) returns (r: Scan)
    ensures r == ScanPrimitive(js, start)
  {
    var p := start;
    while p < |js| && js[p] != '\0'
      invariant ScanPrimitive(js, start) == ScanPrimitive(js, p)
    {
      if EndsPrimitive(js[p]) {
        return Found(p);
      }
      if js[p] < ' ' || js[p] > '~' {
        return Failed(ERROR_INVAL);
      }
      p := p + 1;
    }
    return Failed(ERROR_PART);
  }

  /** `jsmn_parse_string` up to its token: the closing quote of the string opened at `start`. */
  method ParseString(js: string, start: nat) returns (r: Scan)
    ensures r == ScanString(js, start + 1)
  {
    var p := start + 1;
    while p < |js| && js[p] != '\0'
      invariant ScanString(js, start + 1) == ScanString(js, p)
      decreases |js| - p
    {
      var c := js[p];
      if c == '\"' {
        return Found(p);
      }
      if c == '\\' && p + 1 < |js| {
        p := p + 1;
        if IsSimpleEscape(js[p]) {
        } else if js[p] == 'u' {
          p := p + 1;
          var i := 0;
          ghost var hex := ScanHex(js, p, 4);
          while i < 4 && p < |js| && js[p] != '\0'
            invariant i <= 4 && p <= |js|
            invariant hex == ScanHex(js, p, 4 - i)
          {
            if !IsHex(js[p]) {
              return Failed(ERROR_INVAL);
            }
            p := p + 1;
            i := i + 1;
          }
          p := p - 1;
        } else {
          return Failed(ERROR_INVAL);
        }
      }
      p := p + 1;
    }
    return Failed(ERROR_PART);
  }

  class Parser {
    var pos: nat
    var toknext: nat
    var toksuper: int

    /** cgltf starts the counting pass from an all-zero parser. */
    constructor Zero()
      ensures pos == 0 && toknext == 0 && toksuper == 0
    {
      pos, toknext, toksuper := 0, 0, 0;
    }

    /** `jsmn_init`. */
    method Init()
      modifies this
      ensures pos == 0 && toknext == 0 && toksuper == -1
    {
      pos, toknext, toksuper := 0, 0, -1;
    }

    /** `jsmn_parse` without a token array. */
    method Count(js: string) returns (r: Outcome<nat>)
      requires pos == 0 && toknext == 0
      modifies this
      ensures r == CountFrom(js, 0, 0)
    {
      var count := toknext;
      while pos < |js| && js[pos] != '\0'
        invariant CountFrom(js, 0, 0) == CountFrom(js, pos, count)
        decreases |js| - pos
      {
        var c := js[pos];
        if c == '{' || c == '[' {
          count := count + 1;
        } else if c == '\"' {
          ScanBounds(js, pos + 1);
          var s := ParseString(js, pos);
          if s.Failed? {
            return Error(s.error);
          }
          pos := s.at;
          count := count + 1;
        } else if c == '}' || c == ']' || IsSpace(c) || c == ':' || c == ',' {
          toksuper := if c == ':' then toknext - 1 else toksuper;
        } else if StartsPrimitive(c) {
          ScanBounds(js, pos);
          ScanBounds(js, pos + 1);
          var s := ParsePrimitive(js, pos);
          if s.Failed? {
            return Error(s.error);
          }
          pos := s.at - 1;
          count := count + 1;
        } else {
          return Error(ERROR_INVAL);
        }
        pos := pos + 1;
      }
      return Ok(count);
    }

    ghost function Now(tokens: array<Token>): State
      requires toknext <= tokens.Length
      reads this, tokens
    {
      State(pos, toksuper, tokens[..toknext])
    }

    /** The parser is inside the first `cap` slots of the array and all links are in order. */
    ghost predicate Valid(tokens: array<Token>, cap: nat)
      reads this, tokens
    {
      toknext <= cap <= tokens.Length && Now(tokens).Linked()
    }

    /** `jsmn_alloc_token` and `jsmn_fill_token`, counting the new token with its parent. */
    method Push(tokens: array<Token>, cap: nat, t: Token) returns (ok: bool)
      requires Valid(tokens, cap) && t.parent == toksuper
      modifies this, tokens
      ensures pos == old(pos) && toksuper == old(toksuper)
      ensures ok == (old(toknext) < cap)
      ensures if ok then toknext == old(toknext) + 1 && tokens[..toknext] == Bump(old(tokens[..toknext]), toksuper) + [t]
              else toknext == old(toknext) && tokens[..] == old(tokens[..])
    {
      if toknext >= cap {
        return false;
      }
      tokens[toknext] := t;
      toknext := toknext + 1;
      if toksuper != -1 {
        tokens[toksuper] := tokens[toksuper].(size := tokens[toksuper].size + 1);
      }
      ok := true;
      assert tokens[..toknext] == Bump(old(tokens[..toknext]), toksuper) + [t];
    }

    /** Climb from the last token to the container that a bracket closes. */
    method Close(tokens: array<Token>, cap: nat, kind: Kind) returns (ok: bool)
      requires Valid(tokens, cap)
      modifies this, tokens
      ensures toknext == old(toknext) && pos == old(pos)
      ensures var r := CloseBracket(old(Now(tokens)), kind);
              && (ok <==> r.Ok?) && (!ok ==> r == Error(ERROR_INVAL))
              && (ok ==> State(pos + 1, toksuper, tokens[..toknext]) == r.value)
    {
      if toknext < 1 {
        return false;
      }
      ghost var toks := tokens[..toknext];
      var i := toknext - 1;
      while true
        invariant 0 <= i < toknext == |toks| && toks == tokens[..toknext] == old(tokens[..toknext]) && toksuper == old(toksuper)
        invariant pos == old(pos) && toknext == old(toknext)
        invariant FindOpen(toks, toknext - 1, kind, toksuper) == FindOpen(toks, i, kind, toksuper)
        decreases i
      {
        var t := tokens[i];
        assert t == toks[i];
        if t.IsOpen() {
          if t.kind != kind {
            return false;
          }
          tokens[i] := t.(end := pos + 1);
          toksuper := t.parent;
          assert tokens[..toknext] == toks[i := t.(end := pos + 1)];
          return true;
        }
        if t.parent == -1 {
          return t.kind == kind && toksuper != -1;
        }
        i := t.parent;
      }
    }

    /** One round of the filling loop; the result is how many tokens it counts. */
    method Step(js: string, tokens: array<Token>, cap: nat) returns (r: Outcome<nat>)
      requires Valid(tokens, cap) && !AtEnd(js, pos)
      modifies this, tokens
      ensures var f := old(FillStep(js, Now(tokens), cap));
              if r.Ok? then Valid(tokens, cap) && f == Ok(Now(tokens)) && toknext == old(toknext) + r.value else f == Error(r.error)
    {
      var c, counted := js[pos], 0;
      if c == '{' || c == '[' {
        var ok := Push(tokens, cap, Token(if c == '{' then OBJECT else ARRAY, pos, -1, 0, toksuper));
        if !ok {
          return Error(ERROR_NOMEM);
        }
        toksuper := toknext - 1;
        counted := 1;
      } else if c == '}' || c == ']' {
        var ok := Close(tokens, cap, if c == '}' then OBJECT else ARRAY);
        if !ok {
          return Error(ERROR_INVAL);
        }
      } else if c == '\"' {
        r := StringToken(js, tokens, cap);
        return;
      } else if IsSpace(c) {
      } else if c == ':' {
        toksuper := toknext - 1;
      } else if c == ',' {
        if toksuper != -1 && tokens[toksuper].kind != ARRAY && tokens[toksuper].kind != OBJECT {
          toksuper := tokens[toksuper].parent;
        }
      } else if StartsPrimitive(c) {
        r := PrimitiveToken(js, tokens, cap);
        return;
      } else {
        return Error(ERROR_INVAL);
      }
      pos := pos + 1;
      r := Ok(counted);
    }

    method StringToken(js: string, tokens: array<Token>, cap: nat) returns (r: Outcome<nat>)
      requires Valid(tokens, cap) && !AtEnd(js, pos) && js[pos] == '\"'
      modifies this, tokens
      ensures var f := old(FillStep(js, Now(tokens), cap));
              if r.Ok? then Valid(tokens, cap) && f == Ok(Now(tokens)) && toknext == old(toknext) + r.value else f == Error(r.error)
    {
      ScanBounds(js, pos + 1);
      var s := ParseString(js, pos);
      if s.Failed? {
        return Error(s.error);
      }
      var ok := Push(tokens, cap, Token(STRING, pos + 1, s.at, 0, toksuper));
      if !ok {
        return Error(ERROR_NOMEM);
      }
      pos := s.at + 1;
      r := Ok(1);
    }

    method PrimitiveToken(js: string, tokens: array<Token>, cap: nat) returns (r: Outcome<nat>)
      requires Valid(tokens, cap) && !AtEnd(js, pos) && StartsPrimitive(js[pos])
      modifies this, tokens
      ensures var f := old(FillStep(js, Now(tokens), cap));
              if r.Ok? then Valid(tokens, cap) && f == Ok(Now(tokens)) && toknext == old(toknext) + r.value else f == Error(r.error)
    {
      ScanBounds(js, pos);
      if toksuper != -1 {
        var t := tokens[toksuper];
        assert t == Now(tokens).toks[toksuper];
        if t.kind == OBJECT || (t.kind == STRING && t.size != 0) {
          return Error(ERROR_INVAL);
        }
      }
      var s := ParsePrimitive(js, pos);
      if s.Failed? {
        return Error(s.error);
      }
      var ok := Push(tokens, cap, Token(PRIMITIVE, pos, s.at, 0, toksuper));
      if !ok {
        return Error(ERROR_NOMEM);
      }
      pos := s.at;
      r := Ok(1);
    }

    /** `jsmn_parse` with a token array of which `cap` slots may be used. */
    method Fill(js: string, tokens: array<Token>, cap: nat) returns (r: Outcome<nat>)
      requires pos == 0 && toknext == 0 && toksuper == -1 && cap <= tokens.Length
      modifies this, tokens
      ensures match FillFrom(js, START, cap)
              case Ok(toks) => |toks| <= cap && r == Ok(|toks|) && tokens[..|toks|] == toks
              case Error(e) => r == Error(e)
    {
      assert Now(tokens) == START;
      var count := toknext;
      while pos < |js| && js[pos] != '\0'
        invariant count == toknext
        invariant Valid(tokens, cap) && FillFrom(js, START, cap) == FillFrom(js, Now(tokens), cap)
        decreases |js| - pos
      {
        var s := Step(js, tokens, cap);
        if s.Error? {
          return Error(s.error);
        }
        count := count + s.value;
      }
      var i := toknext;
      while i > 0
        invariant 0 <= i <= toknext && Valid(tokens, cap) && FillFrom(js, START, cap) == FillFrom(js, Now(tokens), cap) && AtEnd(js, pos)
        invariant forall k | i <= k < toknext :: !Now(tokens).toks[k].IsOpen()
      {
        i := i - 1;
        assert tokens[i] == Now(tokens).toks[i];
        if tokens[i].IsOpen() {
          return Error(ERROR_PART);
        }
      }
      r := Ok(count);
    }
  }

  /** The number of tokens to allocate: what the caller says, or else what the first pass counts. */
  function Capacity(js: string, tokenCount: nat): Outcome<nat> {
    if tokenCount != 0 then Ok(tokenCount) else CountFrom(js, 0, 0)
  }

  /**
   The parsing front of `cgltf_parse_json`: count unless the caller gives the number of tokens, allocate one slot more,
   fill, mark the end.
   */
  method TokenizeJson(js: string, tokenCount: nat) returns (r: Outcome<nat>, tokens: array<Token>)
    ensures fresh(tokens)
    ensures var cap := Capacity(js, tokenCount);
            r.Ok? <==> cap.Ok? && cap.value > 0 && FillFrom(js, START, cap.value).Ok? && FillFrom(js, START, cap.value).value != []
    ensures r.Ok? ==>
              var cap := Capacity(js, tokenCount).value;
              && tokens.Length == cap + 1 && r.value <= cap && FillFrom(js, START, cap) == Ok(tokens[..r.value])
              && tokens[r.value].kind == UNDEFINED && CountFrom(js, 0, 0) == r && Settled(tokens[..r.value])
    ensures r.Error? ==> r.error == ERROR_INVAL
    ensures tokenCount == 0 && CountFrom(js, 0, 0).Ok? ==> FillFrom(js, START, CountFrom(js, 0, 0).value) != Error(ERROR_NOMEM)
  {
    tokens := new Token[0];
    var parser := new Parser.Zero();
    var cap := tokenCount;
    if tokenCount == 0 {
      var counted := parser.Count(js);
      if counted.Ok? { PassesAgree(js, START, counted.value); }
      if counted.Error? || counted.value == 0 {
        return Error(ERROR_INVAL), tokens;
      }
      cap := counted.value;
    }
    tokens := new Token[cap + 1](_ => NO_TOKEN);
    parser.Init();
    r := parser.Fill(js, tokens, cap);
    PassesAgree(js, START, cap);
    if r.Error? || r.value == 0 {
      return Error(ERROR_INVAL), tokens;
    }
    tokens[r.value] := tokens[r.value].(kind := UNDEFINED);
  }
}
