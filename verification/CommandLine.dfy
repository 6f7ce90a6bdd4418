/**
 Rendering a command line for a Ninja response file: Windows argument quoting, then Ninja's
 escaping. The printers are proved against two independent readers: Ninja's rule for a
 variable value and the Microsoft C/C++ rules for splitting a command line.
 Strings are C strings: they hold no NUL.
 */
module CommandLine {

  import opened Common

  function Backslashes(n: nat): (s: string)
    ensures |s| == n && forall i | 0 <= i < n :: s[i] == '\\'
  {
    seq(n, _ => '\\')
  }

  // ---------------------------------------------------------------- printing

  predicate Special(c: char) { c == ' ' || c == '\t' || c == '\n' || c == '\U{000B}' || c == '\"' }

  predicate NeedsQuotes(arg: string) { arg == "" || exists i | 0 <= i < |arg| :: Special(arg[i]) }

  /** The inside of a quoted argument, `pending` backslashes having just been written. */
  function QuotedBody(arg: string, pending: nat): string
    decreases |arg|
  {
    if arg == "" then Backslashes(pending)
    else if arg[0] == '\\' then "\\" + QuotedBody(arg[1..], pending + 1)
    else if arg[0] == '\"' then Backslashes(1 + pending) + "\"" + QuotedBody(arg[1..], 0)
    else [arg[0]] + QuotedBody(arg[1..], 0)
  }

  function QuoteArg(arg: string): string {
    if NeedsQuotes(arg) then "\"" + QuotedBody(arg, 0) + "\"" else arg
  }

  /** The arguments from index `i` on, each but the very first after a space. */
  function QuoteFrom(args: seq<string>, i: nat): string
    decreases |args| - i
  {
    if i >= |args| then "" else (if i > 0 then " " else "") + QuoteArg(args[i]) + QuoteFrom(args, i + 1)
  }

  function QuoteAll(args: seq<string>): string { QuoteFrom(args, 0) }

  /** `Ninja::escaped`. */
  function Escaped(value: string, path: bool): string {
    if value == "" then ""
    else (if value[0] == '$' || (path && (value[0] == ' ' || value[0] == ':')) then "$" else "")
         + [value[0]] + Escaped(value[1..], path)
  }

  class StringBuilder {
    var text: string

    constructor ()
      ensures text == ""
    {
      text := "";
    }

    method Append(c: char)
      modifies this
      ensures text == old(text) + [c]
    {
      text := text + [c];
    }

    method AppendMany(s: string)
      modifies this
      ensures text == old(text) + s
    {
      text := text + s;
    }
  }

  /** `nob__win32_cmd_quote`. */
  method CmdQuote(args: seq<string>, quoted: StringBuilder)
    modifies quoted
    ensures quoted.text == old(quoted.text) + QuoteAll(args)
  {
    ghost var start := quoted.text;
    var i := 0;
    while i < |args|
      invariant 0 <= i <= |args|
      invariant start + QuoteFrom(args, 0) == quoted.text + QuoteFrom(args, i)
    {
      ghost var before, space := quoted.text, if i > 0 then " " else "";
      if i > 0 {
        quoted.Append(' ');
      }
      QuoteOne(args[i], quoted);
      Regroup(before, space, QuoteArg(args[i]), QuoteFrom(args, i + 1));
      assert quoted.text == before + space + QuoteArg(args[i]);
      i := i + 1;
    }
  }

  lemma Regroup(a: string, b: string, c: string, d: string)
    ensures a + (b + c + d) == a + b + c + d
  {
  }

  /** One round of `nob__win32_cmd_quote`: the loop over the characters of an argument. */
  method QuoteOne(arg: string, quoted: StringBuilder)
    modifies quoted
    ensures quoted.text == old(quoted.text) + QuoteArg(arg)
  {
    var plain := arg != "";
    for j := 0 to |arg|
      invariant plain <==> arg != "" && forall k | 0 <= k < j :: !Special(arg[k])
    {
      plain := plain && !Special(arg[j]);
    }
    if plain {
      quoted.AppendMany(arg);
      return;
    }
    assert NeedsQuotes(arg);
    ghost var start := quoted.text;
    quoted.Append('\"');
    QuoteCharacters(arg, quoted);
    quoted.Append('\"');
    Regroup(start, "\"", QuotedBody(arg, 0), "\"");
  }

  /** Backslashes are written as they come and once more when a quote follows or the argument ends. */
  method QuoteCharacters(arg: string, quoted: StringBuilder)
    modifies quoted
    ensures quoted.text == old(quoted.text) + QuotedBody(arg, 0)
  {
    ghost var start := quoted.text;
    var backslashes := 0;
    assert arg[0..] == arg;
    for j := 0 to |arg|
      invariant start + QuotedBody(arg, 0) == quoted.text + QuotedBody(arg[j..], backslashes)
    {
      var x := arg[j];
      assert arg[j..][0] == x && arg[j..][1..] == arg[j + 1..];
      ghost var before, pending := quoted.text, backslashes;
      if x == '\\' {
        backslashes := backslashes + 1;
      } else {
        if x == '\"' {
          AppendBackslashes(quoted, 1 + backslashes);
        }
        backslashes := 0;
      }
      quoted.Append(x);
      Regroup(before, if x == '\"' then Backslashes(1 + pending) else "", [x], QuotedBody(arg[j + 1..], backslashes));
      assert quoted.text == before + (if x == '\"' then Backslashes(1 + pending) else "") + [x];
    }
    assert arg[|arg|..] == "";
    AppendBackslashes(quoted, backslashes);
  }

  method AppendBackslashes(sb: StringBuilder, n: nat)
    modifies sb
    ensures sb.text == old(sb.text) + Backslashes(n)
  {
    for k := 0 to n
      invariant sb.text == old(sb.text) + Backslashes(k)
    {
      sb.Append('\\');
      assert Backslashes(k + 1) == Backslashes(k) + ['\\'];
    }
  }

  /** `render`: the quoted command line in a builder of its own. */
  method Render(args: seq<string>) returns (line: string)
    ensures line == QuoteAll(args)
  {
    var text := new StringBuilder();
    CmdQuote(args, text);
    line := text.text;
  }

  /** The Ninja generator's text buffer. */
  class Ninja {
    const text: StringBuilder

    constructor (text: StringBuilder)
      ensures this.text == text
    {
      this.text := text;
    }

    /** `escaped`: a dollar in front of every character Ninja would take for its own. */
    method Escape(value: string, path: bool)
      modifies text
      ensures text.text == old(text.text) + Escaped(value, path)
    {
      ghost var start := text.text;
      assert value[0..] == value;
      for i := 0 to |value|
        invariant start + Escaped(value, path) == text.text + Escaped(value[i..], path)
      {
        var c := value[i];
        assert value[i..][0] == c && value[i..][1..] == value[i + 1..];
        ghost var before := text.text;
        ghost var dollar := if c == '$' || (path && (c == ' ' || c == ':')) then "$" else "";
        if c == '$' || (path && (c == ' ' || c == ':')) {
          text.Append('$');
        }
        text.Append(c);
        Regroup(before, dollar, [c], Escaped(value[i + 1..], path));
        assert text.text == before + dollar + [c];
      }
      assert value[|value|..] == "";
    }

    /** `variable`: one indented line of a build statement. */
    method Variable(name: string, value: string)
      modifies text
      ensures text.text == old(text.text) + ("  " + name + " = ") + Escaped(value, false) + "\n"
    {
      text.AppendMany("  " + name + " = ");
      Escape(value, false);
      text.Append('\n');
    }

    /** The arguments of a `cc` edge, as `ccCommand` writes them. */
    method Arguments(args: seq<string>)
      modifies text
      ensures text.text == old(text.text) + "  args = " + Escaped(QuoteAll(args), false) + "\n"
    {
      var line := Render(args);
      Variable("args", line);
      assert "  " + "args" + " = " == "  args = ";
    }
  }

  // ---------------------------------------------------------------- the readers

  /** A Ninja variable value: leading spaces are skipped, `$$`, `$ ` and `$:` stand for the second character. */
  function ReadNinjaValue(s: string): Option<string> {
    if s != "" && s[0] == ' ' then ReadNinjaValue(s[1..]) else Unescape(s)
  }

  function Unescape(s: string): Option<string> {
    if s == "" then Some("")
    else if s[0] == '\n' || s[0] == '\r' then None
    else if s[0] == '$' then
      if |s| > 1 && (s[1] == '$' || s[1] == ' ' || s[1] == ':') then Cons(s[1], Unescape(s[2..])) else None
    else Cons(s[0], Unescape(s[1..]))
  }

  function Cons(c: char, r: Option<string>): Option<string> {
    if r.Some? then Some([c] + r.value) else None
  }

  predicate Delimiter(c: char) { c == ' ' || c == '\t' }

  /**
   One argument by the Microsoft rules: backslashes are literal unless a quote follows; 2n of them
   before a quote stand for n and the quote delimits, 2n+1 stand for n and the quote is literal.
   `doubled` adds the later rule that two quotes inside quotes are one literal quote.
   The result is the argument and what is left of the line.
   */
  function ReadArg(s: string, inQuotes: bool, pending: nat, doubled: bool): (string, string)
    decreases |s|
  {
    if s == "" then (Backslashes(pending), "")
    else if s[0] == '\\' then ReadArg(s[1..], inQuotes, pending + 1, doubled)
    else if s[0] == '\"' then
      var half := Backslashes(pending / 2);
      if pending % 2 == 1 then Before(half + "\"", ReadArg(s[1..], inQuotes, 0, doubled))
      else if doubled && inQuotes && |s| > 1 && s[1] == '\"' then Before(half + "\"", ReadArg(s[2..], true, 0, doubled))
      else Before(half, ReadArg(s[1..], !inQuotes, 0, doubled))
    else if Delimiter(s[0]) && !inQuotes then (Backslashes(pending), s)
    else Before(Backslashes(pending) + [s[0]], ReadArg(s[1..], inQuotes, 0, doubled))
  }

  function Before(prefix: string, r: (string, string)): (string, string) { (prefix + r.0, r.1) }

  lemma {:induction false} ReadArgShrinks(s: string, inQuotes: bool, pending: nat, doubled: bool)
    ensures |ReadArg(s, inQuotes, pending, doubled).1| <= |s|
    ensures s != "" && !Delimiter(s[0]) ==> |ReadArg(s, inQuotes, pending, doubled).1| < |s|
    decreases |s|
  {
    if s != "" {
      ReadArgShrinks(s[1..], inQuotes, pending + 1, doubled);
      ReadArgShrinks(s[1..], inQuotes, 0, doubled);
      ReadArgShrinks(s[1..], !inQuotes, 0, doubled);
      if |s| > 1 { ReadArgShrinks(s[2..], true, 0, doubled); }
    }
  }

  /** The whole line. */
  function SplitLine(s: string, doubled: bool): seq<string>
    decreases |s|
  {
    if s == "" then []
    else if Delimiter(s[0]) then SplitLine(s[1..], doubled)
    else
      ReadArgShrinks(s, false, 0, doubled);
      var (arg, rest) := ReadArg(s, false, 0, doubled);
      [arg] + SplitLine(rest, doubled)
  }

  // ---------------------------------------------------------------- reading undoes printing

  /** What may follow an argument on the line. */
  predicate ArgEnds(tail: string) { tail == "" || tail[0] == ' ' }

  /** Inside quotes: the reader gets the argument back, pending backslashes included. */
  lemma {:induction false} ReadQuotedBody(arg: string, pending: nat, tail: string, doubled: bool)
    requires ArgEnds(tail)
    ensures ReadArg(QuotedBody(arg, pending) + "\"" + tail, true, pending, doubled) == (Backslashes(pending) + arg, tail)
    decreases |arg|
  {
    var s := QuotedBody(arg, pending) + "\"" + tail;
    if arg == "" {
      assert s == Backslashes(pending) + ("\"" + tail);
      ReadBackslashes(pending, "\"" + tail, true, pending, doubled);
      assert ("\"" + tail)[1..] == tail;
      assert ReadArg(tail, false, 0, doubled) == ("", tail);
      assert 2 * pending / 2 == pending;
    } else {
      var rest := arg[1..];
      if arg[0] == '\\' {
        assert s[1..] == QuotedBody(rest, pending + 1) + "\"" + tail;
        ReadQuotedBody(rest, pending + 1, tail, doubled);
        assert Backslashes(pending + 1) + rest == Backslashes(pending) + arg;
      } else if arg[0] == '\"' {
        var later := QuotedBody(rest, 0) + "\"" + tail;
        assert s == Backslashes(1 + pending) + ("\"" + later);
        ReadEscapedQuote(pending, later, doubled);
        ReadQuotedBody(rest, 0, tail, doubled);
        assert Backslashes(pending) + "\"" + ("" + rest) == Backslashes(pending) + arg;
      } else {
        assert s[1..] == QuotedBody(rest, 0) + "\"" + tail;
        ReadQuotedBody(rest, 0, tail, doubled);
        assert Backslashes(pending) + [arg[0]] + ("" + rest) == Backslashes(pending) + arg;
      }
    }
  }

  lemma {:induction false} ReadBackslashes(n: nat, tail: string, inQuotes: bool, pending: nat, doubled: bool)
    ensures ReadArg(Backslashes(n) + tail, inQuotes, pending, doubled) == ReadArg(tail, inQuotes, pending + n, doubled)
    decreases n
  {
    var s := Backslashes(n) + tail;
    if n == 0 {
      assert s == tail;
    } else {
      assert s[1..] == Backslashes(n - 1) + tail;
      ReadBackslashes(n - 1, tail, inQuotes, pending + 1, doubled);
    }
  }

  /** A quote after one more than twice as many backslashes as were meant is a literal quote. */
  lemma ReadEscapedQuote(pending: nat, later: string, doubled: bool)
    ensures ReadArg(Backslashes(1 + pending) + ("\"" + later), true, pending, doubled)
         == Before(Backslashes(pending) + "\"", ReadArg(later, true, 0, doubled))
  {
    ReadBackslashes(1 + pending, "\"" + later, true, pending, doubled);
    assert ("\"" + later)[1..] == later;
    assert (2 * pending + 1) / 2 == pending;
  }

  /** An argument that was printed as it is. */
  lemma {:induction false} ReadPlain(arg: string, pending: nat, tail: string, doubled: bool)
    requires ArgEnds(tail) && forall i | 0 <= i < |arg| :: !Special(arg[i])
    ensures ReadArg(arg + tail, false, pending, doubled) == (Backslashes(pending) + arg, tail)
    decreases |arg|
  {
    if arg == "" {
      assert arg + tail == tail && Backslashes(pending) + "" == Backslashes(pending);
    } else {
      assert (arg + tail)[1..] == arg[1..] + tail;
      ReadPlain(arg[1..], if arg[0] == '\\' then pending + 1 else 0, tail, doubled);
      if arg[0] == '\\' {
        assert Backslashes(pending + 1) + arg[1..] == Backslashes(pending) + arg;
      } else {
        assert Backslashes(pending) + [arg[0]] + ("" + arg[1..]) == Backslashes(pending) + arg;
      }
    }
  }

  lemma ReadOne(arg: string, tail: string, doubled: bool)
    requires ArgEnds(tail)
    ensures ReadArg(QuoteArg(arg) + tail, false, 0, doubled) == (arg, tail)
    ensures QuoteArg(arg) != "" && !Delimiter(QuoteArg(arg)[0])
  {
    if NeedsQuotes(arg) { ReadOneQuoted(arg, tail, doubled); } else { ReadPlain(arg, 0, tail, doubled); }
    assert Backslashes(0) + arg == arg;
  }

  lemma ReadOneQuoted(arg: string, tail: string, doubled: bool)
    requires ArgEnds(tail) && NeedsQuotes(arg)
    ensures ReadArg(QuoteArg(arg) + tail, false, 0, doubled) == (arg, tail)
  {
    var body := QuotedBody(arg, 0) + "\"" + tail;
    QuoteShape(QuotedBody(arg, 0), tail);
    OpenQuote(body, doubled);
    ReadQuotedBody(arg, 0, tail, doubled);
    assert Backslashes(0) + (Backslashes(0) + arg) == arg;
  }

  lemma QuoteShape(body: string, tail: string)
    ensures "\"" + body + "\"" + tail == "\"" + (body + "\"" + tail)
  {
  }

  lemma OpenQuote(s: string, doubled: bool)
    ensures ReadArg("\"" + s, false, 0, doubled) == Before(Backslashes(0), ReadArg(s, true, 0, doubled))
  {
    assert ("\"" + s)[1..] == s;
  }

  lemma SplitFirst(arg: string, tail: string, doubled: bool)
    requires ArgEnds(tail)
    ensures SplitLine(QuoteArg(arg) + tail, doubled) == [arg] + SplitLine(tail, doubled)
  {
    ReadOne(arg, tail, doubled);
    var s := QuoteArg(arg) + tail;
    assert s != "" && !Delimiter(s[0]);
    ReadArgShrinks(s, false, 0, doubled);
  }

  lemma SplitSpace(s: string, doubled: bool)
    ensures SplitLine(" " + s, doubled) == SplitLine(s, doubled)
  {
    assert (" " + s)[1..] == s;
  }

  lemma QuoteFromParts(args: seq<string>, i: nat)
    requires i < |args|
    ensures var rest := QuoteArg(args[i]) + QuoteFrom(args, i + 1);
            QuoteFrom(args, i) == if i > 0 then " " + rest else rest
  {
    Regroup("", if i > 0 then " " else "", QuoteArg(args[i]), QuoteFrom(args, i + 1));
  }

  /** Splitting the rendered line gives back exactly the arguments, empty ones included. */
  lemma {:induction false} SplitQuoted(args: seq<string>, i: nat, doubled: bool)
    requires i <= |args|
    ensures i > 0 ==> ArgEnds(QuoteFrom(args, i))
    ensures SplitLine(QuoteFrom(args, i), doubled) == args[i..]
    decreases |args| - i
  {
    if i < |args| {
      var tail := QuoteFrom(args, i + 1);
      SplitQuoted(args, i + 1, doubled);
      SplitFirst(args[i], tail, doubled);
      SplitSpace(QuoteArg(args[i]) + tail, doubled);
      QuoteFromParts(args, i);
      assert args[i..] == [args[i]] + args[i + 1..];
    } else {
      assert args[i..] == [];
    }
  }

  // ---------------------------------------------------------------- what is left as it is

  predicate Has(s: string, c: char) { exists i | 0 <= i < |s| :: s[i] == c }

  /** Only an empty argument or one with white space or a quote in it is put in quotes; every other stays as it is. */
  lemma PlainExact(arg: string)
    ensures QuoteArg(arg) == arg <==> arg != "" && !Has(arg, ' ') && !Has(arg, '\t') && !Has(arg, '\n') && !Has(arg, '\U{000B}') && !Has(arg, '\"')
    ensures QuoteArg(arg) != arg ==> |QuoteArg(arg)| >= |arg| + 2 && QuoteArg(arg)[0] == '\"' && QuoteArg(arg)[|QuoteArg(arg)| - 1] == '\"'
  {
    BodyLength(arg, 0);
    if NeedsQuotes(arg) && arg != "" { var i :| 0 <= i < |arg| && Special(arg[i]); }
  }

  lemma {:induction false} BodyLength(arg: string, pending: nat)
    ensures |QuotedBody(arg, pending)| >= |arg|
    decreases |arg|
  {
    if arg != "" { BodyLength(arg[1..], if arg[0] == '\\' then pending + 1 else 0); }
  }

  /** Escaping leaves a text alone when it has no dollar and, in a path, no space and no colon. */
  lemma {:induction false} EscapedExact(value: string, path: bool)
    ensures Escaped(value, path) == value <==> !Has(value, '$') && (path ==> !Has(value, ' ') && !Has(value, ':'))
    ensures |Escaped(value, path)| >= |value| && (|Escaped(value, path)| == |value| ==> Escaped(value, path) == value)
    decreases |value|
  {
    if value != "" {
      EscapedExact(value[1..], path);
      HasEither(value, '$');
      HasEither(value, ' ');
      HasEither(value, ':');
    }
  }

  lemma HasEither(s: string, c: char)
    requires s != ""
    ensures Has(s, c) <==> s[0] == c || Has(s[1..], c)
  {
    if i :| 0 <= i < |s| - 1 && s[1..][i] == c { assert s[i + 1] == c; }
    if i :| 0 < i < |s| && s[i] == c { assert s[1..][i - 1] == c; }
  }

  // ---------------------------------------------------------------- line breaks

  /** Ninja takes a line break for the end of the value; everything else passes through its escaping. */
  predicate NoLineBreak(s: string) { forall i | 0 <= i < |s| :: s[i] != '\n' && s[i] != '\r' }

  lemma {:induction false} UnescapeEscaped(value: string, path: bool)
    ensures Unescape(Escaped(value, path)) == if NoLineBreak(value) then Some(value) else None
    decreases |value|
  {
    if value != "" {
      UnescapeEscaped(value[1..], path);
      var e, rest := Escaped(value, path), Escaped(value[1..], path);
      if value[0] == '$' || (path && (value[0] == ' ' || value[0] == ':')) {
        assert e[2..] == rest;
      } else {
        assert e == [value[0]] + rest && e[1..] == rest;
      }
      assert value == [value[0]] + value[1..];
      assert NoLineBreak(value) <==> value[0] != '\n' && value[0] != '\r' && NoLineBreak(value[1..]);
    }
  }

  lemma BreakFreeConcat(a: string, b: string)
    ensures NoLineBreak(a + b) <==> NoLineBreak(a) && NoLineBreak(b)
  {
    var s := a + b;
    if NoLineBreak(s) {
      forall i | 0 <= i < |a| ensures a[i] != '\n' && a[i] != '\r' { assert s[i] == a[i]; }
      forall i | 0 <= i < |b| ensures b[i] != '\n' && b[i] != '\r' { assert s[|a| + i] == b[i]; }
    }
  }

  lemma {:induction false} BodyLineBreaks(arg: string, pending: nat)
    ensures NoLineBreak(QuotedBody(arg, pending)) <==> NoLineBreak(arg)
    decreases |arg|
  {
    if arg != "" {
      var rest := QuotedBody(arg[1..], if arg[0] == '\\' then pending + 1 else 0);
      BodyLineBreaks(arg[1..], if arg[0] == '\\' then pending + 1 else 0);
      assert arg == [arg[0]] + arg[1..];
      BreakFreeConcat([arg[0]], arg[1..]);
      BreakFreeConcat(if arg[0] == '\"' then Backslashes(1 + pending) + "\"" else [arg[0]], rest);
      if arg[0] == '\"' { BreakFreeConcat(Backslashes(1 + pending), "\""); }
    }
  }

  lemma {:induction false} LineBreaks(args: seq<string>, i: nat)
    requires i <= |args|
    ensures NoLineBreak(QuoteFrom(args, i)) <==> forall k | i <= k < |args| :: NoLineBreak(args[k])
    decreases |args| - i
  {
    if i < |args| {
      var arg, space := args[i], if i > 0 then " " else "";
      LineBreaks(args, i + 1);
      BodyLineBreaks(arg, 0);
      BreakFreeConcat("\"" + QuotedBody(arg, 0), "\"");
      BreakFreeConcat("\"", QuotedBody(arg, 0));
      BreakFreeConcat(space, QuoteArg(arg));
      BreakFreeConcat(space + QuoteArg(arg), QuoteFrom(args, i + 1));
    }
  }

  /**
   Quote/escape round trip: Ninja's value of the escaped line, split by the Microsoft rules, is the
   argument list exactly when no argument contains a line break.
   */
  lemma ResponseFileRoundTrip(args: seq<string>, doubled: bool)
    ensures var value := ReadNinjaValue(Escaped(QuoteAll(args), false));
            (value.Some? && SplitLine(value.value, doubled) == args)
            <==> forall k | 0 <= k < |args| :: NoLineBreak(args[k])
  {
    var line := QuoteAll(args);
    LineBreaks(args, 0);
    UnescapeEscaped(line, false);
    if args != [] {
      ReadOne(args[0], "", doubled);
      assert line[0] == QuoteArg(args[0])[0];
      assert Escaped(line, false)[0] != ' ';
    }
    SplitQuoted(args, 0, doubled);
    assert args[0..] == args;
  }

  /** An argument with a line break is lost: the line cannot be read as a Ninja value. */
  lemma LineBreakLost()
    ensures ReadNinjaValue(Escaped(QuoteAll(["a\nb"]), false)) == None
  {
    var arg := "a\nb";
    assert arg[1] == '\n' && Special(arg[1]) && NeedsQuotes(arg);
    var line := QuoteAll([arg]);
    assert line == QuoteArg(arg) + QuoteFrom([arg], 1) == QuoteArg(arg);
    LineBreaks([arg], 0);
    UnescapeEscaped(line, false);
    assert line[0] == '\"' && Escaped(line, false)[0] == '\"';
    assert [arg][0] == arg && !NoLineBreak(arg);
  }
}
