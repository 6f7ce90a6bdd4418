/**
 JSON texts as the RFC 8259 grammar produces them (sections 2 to 7, with any whitespace the
 grammar allows), and the token array jsmn makes of them: the pre-order flattening of the tree.
 Primitives are taken more generally than the RFC does: any run of the characters that numbers
 and literals are made of.
 */
module JsmnTree {
  import opened JsmnSpec

  datatype Json =
    | JString(body: string)
    | JPrimitive(text: string)
    | JArray(lead: string, items: seq<Item>)
    | JObject(lead: string, members: seq<Member>)

  datatype Item = Item(before: string, value: Json, after: string)
  datatype Member = Member(before: string, key: string, afterKey: string, beforeValue: string, value: Json, after: string)

  predicate Spaces(s: string) { forall i | 0 <= i < |s| :: IsSpace(s[i]) }

  /** The contents of a string literal: plain characters and legal escapes. */
  predicate ValidBody(s: string)
    decreases |s|
  {
    if s == "" then true
    else if s[0] == '\\' then
      && |s| >= 2
      && if s[1] == 'u' then |s| >= 6 && (forall i | 2 <= i < 6 :: IsHex(s[i])) && ValidBody(s[6..])
         else IsSimpleEscape(s[1]) && ValidBody(s[2..])
    else s[0] >= ' ' && s[0] != '\"' && ValidBody(s[1..])
  }

  predicate ValidPrimitive(s: string) {
    s != "" && StartsPrimitive(s[0])
    && forall i | 0 <= i < |s| :: s[i] in "+-." || '0' <= s[i] <= '9' || 'a' <= s[i] <= 'z' || 'A' <= s[i] <= 'Z'
  }

  ghost predicate Legal(j: Json)
    decreases j
  {
    match j
    case JString(body) => ValidBody(body)
    case JPrimitive(text) => ValidPrimitive(text)
    case JArray(lead, items) =>
      Spaces(lead) && (forall x | x in items :: Spaces(x.before) && Spaces(x.after) && Legal(x.value))
    case JObject(lead, members) =>
      Spaces(lead)
      && (forall m | m in members ::
            Spaces(m.before) && ValidBody(m.key) && Spaces(m.afterKey) && Spaces(m.beforeValue) && Spaces(m.after) && Legal(m.value))
  }

  function Quoted(s: string): string { "\"" + s + "\"" }

  function Render(j: Json): (r: string)
    ensures |r| >= 1 || (j.JPrimitive? && j.text == "")
    decreases j, 0
  {
    match j
    case JString(body) => Quoted(body)
    case JPrimitive(text) => text
    case JArray(lead, items) => "[" + lead + RenderItems(items) + "]"
    case JObject(lead, members) => "{" + lead + RenderMembers(members) + "}"
  }

  function RenderItem(x: Item): string
    decreases x, 1
  {
    x.before + Render(x.value) + x.after
  }

  function RenderItems(items: seq<Item>): string
    decreases items, 0
  {
    if items == [] then "" else RenderItem(items[0]) + (if |items| == 1 then "" else "," + RenderItems(items[1..]))
  }

  function MemberHead(m: Member): string { m.before + Quoted(m.key) + m.afterKey + ":" + m.beforeValue }

  function RenderMember(m: Member): string
    decreases m, 1
  {
    MemberHead(m) + Render(m.value) + m.after
  }

  function RenderMembers(members: seq<Member>): string
    decreases members, 0
  {
    if members == [] then "" else RenderMember(members[0]) + (if |members| == 1 then "" else "," + RenderMembers(members[1..]))
  }

  /** Number of tokens of a subtree. */
  function Tokens(j: Json): (n: nat)
    ensures n >= 1
    decreases j, 0
  {
    match j
    case JArray(_, items) => 1 + ItemTokens(items)
    case JObject(_, members) => 1 + MemberTokens(members)
    case _ => 1
  }

  function ItemTokens(items: seq<Item>): nat
    decreases items, 0
  {
    if items == [] then 0 else Tokens(items[0].value) + ItemTokens(items[1..])
  }

  function MemberTokens(members: seq<Member>): nat
    decreases members, 0
  {
    if members == [] then 0 else 1 + Tokens(members[0].value) + MemberTokens(members[1..])
  }

  /** The tokens of a subtree rendered at `off`, first index `idx`, hanging under `parent`. */
  function Flatten(j: Json, off: nat, idx: nat, parent: int): (r: seq<Token>)
    ensures |r| == Tokens(j)
    decreases j, 0
  {
    var end := off + |Render(j)|;
    match j
    case JString(body) => [Token(STRING, off + 1, off + 1 + |body|, 0, parent)]
    case JPrimitive(text) => [Token(PRIMITIVE, off, end, 0, parent)]
    case JArray(lead, items) =>
      [Token(ARRAY, off, end, |items|, parent)] + FlattenItems(items, off + 1 + |lead|, idx + 1, idx)
    case JObject(lead, members) =>
      [Token(OBJECT, off, end, |members|, parent)] + FlattenMembers(members, off + 1 + |lead|, idx + 1, idx)
  }

  function FlattenItems(items: seq<Item>, off: nat, idx: nat, parent: int): (r: seq<Token>)
    ensures |r| == ItemTokens(items)
    decreases items, 0
  {
    if items == [] then [] else
    Flatten(items[0].value, off + |items[0].before|, idx, parent)
    + FlattenItems(items[1..], off + |RenderItem(items[0])| + 1, idx + Tokens(items[0].value), parent)
  }

  /** The token of a member's key. */
  function KeyToken(m: Member, off: nat, size: nat, parent: int): Token {
    Token(STRING, off + |m.before| + 1, off + |m.before| + 1 + |m.key|, size, parent)
  }

  function MemberBlock(m: Member, off: nat, idx: nat, parent: int): (r: seq<Token>)
    ensures |r| == 1 + Tokens(m.value)
    decreases m, 1
  {
    [KeyToken(m, off, 1, parent)] + Flatten(m.value, off + |MemberHead(m)|, idx + 1, idx)
  }

  /** A key counts its value: its token has size 1 and the value hangs under it. */
  function FlattenMembers(members: seq<Member>, off: nat, idx: nat, parent: int): (r: seq<Token>)
    ensures |r| == MemberTokens(members)
    decreases members, 0
  {
    if members == [] then [] else
    var m := members[0];
    MemberBlock(m, off, idx, parent) + FlattenMembers(members[1..], off + |RenderMember(m)| + 1, idx + 1 + Tokens(m.value), parent)
  }

  // ---------------------------------------------------------------- scanning rendered text

  /** `s` stands in `js` at `p`. */
  predicate At(js: string, p: nat, s: string) {
    p + |s| <= |js| && forall i | 0 <= i < |s| :: s[i] == js[p + i]
  }

  lemma AtSplit(js: string, p: nat, a: string, b: string)
    requires At(js, p, a + b)
    ensures At(js, p, a) && At(js, p + |a|, b)
    ensures a != "" ==> js[p] == a[0]
    ensures b != "" ==> js[p + |a|] == b[0]
  {
    var s := a + b;
    forall i | 0 <= i < |a| ensures a[i] == js[p + i] { assert s[i] == a[i]; }
    forall i | 0 <= i < |b| ensures b[i] == js[p + |a| + i] { assert s[|a| + i] == b[i]; }
  }

  lemma AtJoin(js: string, p: nat, a: string, b: string)
    requires At(js, p, a) && At(js, p + |a|, b)
    ensures At(js, p, a + b)
  {
    var s := a + b;
    forall i | 0 <= i < |s| ensures s[i] == js[p + i] {
      if i >= |a| { assert s[i] == b[i - |a|]; }
    }
  }

  lemma AtChar(js: string, p: nat, s: string, i: nat)
    requires At(js, p, s) && i < |s|
    ensures js[p + i] == s[i]
  {
  }

  lemma {:induction false} ScanStringBody(js: string, p: nat, body: string)
    requires At(js, p, body + "\"") && ValidBody(body)
    ensures ScanString(js, p) == Found(p + |body|)
    decreases |body|
  {
    AtSplit(js, p, body, "\"");
    if body != "" {
      AtChar(js, p, body, 0);
      var k := if body[0] != '\\' then 1 else if body[1] == 'u' then 6 else 2;
      assert body + "\"" == body[..k] + (body[k..] + "\"");
      AtSplit(js, p, body[..k], body[k..] + "\"");
      if body[0] == '\\' {
        AtChar(js, p, body, 1);
        if body[1] == 'u' {
          assert js[p + 2] == body[2] && js[p + 3] == body[3] && js[p + 4] == body[4] && js[p + 5] == body[5];
          assert ScanHex(js, p + 6, 0) == Found(p + 6);
          assert ScanHex(js, p + 5, 1) == Found(p + 6);
          assert ScanHex(js, p + 4, 2) == Found(p + 6);
          assert ScanHex(js, p + 3, 3) == Found(p + 6);
          assert ScanHex(js, p + 2, 4) == Found(p + 6);
        }
      }
      ScanStringBody(js, p + k, body[k..]);
    }
  }

  lemma {:induction false} ScanPrimitiveText(js: string, p: nat, q: nat, text: string)
    requires At(js, p, text) && ValidPrimitive(text) && p <= q <= p + |text|
    requires p + |text| < |js| && EndsPrimitive(js[p + |text|])
    ensures ScanPrimitive(js, q) == Found(p + |text|)
    decreases p + |text| - q
  {
    if q < p + |text| {
      AtChar(js, p, text, q - p);
      ScanPrimitiveText(js, p, q + 1, text);
    }
  }

  // ---------------------------------------------------------------- running the filling loop

  /** Something computed from a state that no step of the filling loop changes. */
  type Run = State -> Outcome<seq<Token>>

  ghost predicate PreservedBySteps(js: string, cap: nat, run: Run) {
    forall s: State {:trigger FillStep(js, s, cap)} ::
      s.Linked() && !AtEnd(js, s.pos) && FillStep(js, s, cap).Ok? ==> run(s) == run(FillStep(js, s, cap).value)
  }

  lemma {:induction false} FillSpaces(js: string, st: State, ws: string, cap: nat, run: Run)
    requires PreservedBySteps(js, cap, run)
    requires st.Linked() && At(js, st.pos, ws) && Spaces(ws)
    ensures run(st) == run(State(st.pos + |ws|, st.super, st.toks))
    decreases |ws|
  {
    if ws != "" {
      assert ws == ws[..1] + ws[1..];
      AtSplit(js, st.pos, ws[..1], ws[1..]);
      AtChar(js, st.pos, ws, 0);
      assert FillStep(js, st, cap) == Ok(State(st.pos + 1, st.super, st.toks));
      FillSpaces(js, State(st.pos + 1, st.super, st.toks), ws[1..], cap, run);
    }
  }

  /** A value may come next: at the top, in an array, or behind a key that has none yet. */
  predicate Ready(st: State)
    requires st.Linked()
  {
    st.super == -1 || st.toks[st.super].kind == ARRAY || (st.toks[st.super].kind == STRING && st.toks[st.super].size == 0)
  }

  /** `toks` where token `n` has gained `k` children. */
  function Grown(toks: seq<Token>, n: nat, k: nat): seq<Token>
    requires n < |toks|
  {
    toks[n := toks[n].(size := toks[n].size + k)]
  }

  /** Everything behind the open container `n` is closed and hangs under it. */
  ghost predicate Inside(toks: seq<Token>, n: nat) {
    n < |toks| && toks[n].IsOpen() && forall i | n < i < |toks| :: !toks[i].IsOpen() && n <= toks[i].parent < i
  }

  lemma {:induction false} ClimbToOpen(toks: seq<Token>, i: nat, n: nat, super: int)
    requires n <= i < |toks| && Inside(toks, n) && forall k | 0 <= k < |toks| :: -1 <= toks[k].parent < k
    ensures FindOpen(toks, i, toks[n].kind, super) == Closes(n)
    decreases i
  {
    if i > n { ClimbToOpen(toks, toks[i].parent, n, super); }
  }

  /** Tokens with indices from `idx` on that are closed and hang under `parent` or under each other. */
  ghost predicate Hung(r: seq<Token>, idx: nat, parent: int) {
    forall i | 0 <= i < |r| :: !r[i].IsOpen() && r[i].start >= 0 && parent <= r[i].parent < idx + i
  }

  lemma HungConcat(a: seq<Token>, b: seq<Token>, idx: nat, parent: int)
    requires Hung(a, idx, parent) && Hung(b, idx + |a|, parent)
    ensures Hung(a + b, idx, parent)
  {
  }

  /** A subtree hangs under its parent, and all but its root under its root. */
  lemma {:induction false} FlattenHung(j: Json, off: nat, idx: nat, parent: int)
    requires parent < idx
    ensures var r := Flatten(j, off, idx, parent); Hung(r, idx, parent) && Hung(r[1..], idx + 1, idx)
    decreases j, 0
  {
    var r := Flatten(j, off, idx, parent);
    match j
    case JArray(lead, items) =>
      FlattenItemsHung(items, off + 1 + |lead|, idx + 1, idx);
      assert r[1..] == FlattenItems(items, off + 1 + |lead|, idx + 1, idx);
      HungUnderRoot(r[0], r[1..], idx, parent);
    case JObject(lead, members) =>
      FlattenMembersHung(members, off + 1 + |lead|, idx + 1, idx);
      assert r[1..] == FlattenMembers(members, off + 1 + |lead|, idx + 1, idx);
      HungUnderRoot(r[0], r[1..], idx, parent);
    case _ =>
  }

  lemma HungUnderRoot(root: Token, rest: seq<Token>, idx: nat, parent: int)
    requires !root.IsOpen() && root.start >= 0 && root.parent == parent < idx && Hung(rest, idx + 1, idx)
    ensures Hung([root] + rest, idx, parent)
  {
  }

  lemma {:induction false} FlattenItemsHung(items: seq<Item>, off: nat, idx: nat, parent: nat)
    requires parent < idx
    ensures Hung(FlattenItems(items, off, idx, parent), idx, parent)
    decreases items, 0
  {
    if items != [] {
      var off', idx' := off + |RenderItem(items[0])| + 1, idx + Tokens(items[0].value);
      FlattenHung(items[0].value, off + |items[0].before|, idx, parent);
      FlattenItemsHung(items[1..], off', idx', parent);
      HungConcat(Flatten(items[0].value, off + |items[0].before|, idx, parent), FlattenItems(items[1..], off', idx', parent), idx, parent);
    }
  }

  lemma {:induction false} FlattenMembersHung(members: seq<Member>, off: nat, idx: nat, parent: nat)
    requires parent < idx
    ensures Hung(FlattenMembers(members, off, idx, parent), idx, parent)
    decreases members, 0
  {
    if members != [] {
      var m := members[0];
      var off', idx' := off + |RenderMember(m)| + 1, idx + 1 + Tokens(m.value);
      FlattenHung(m.value, off + |MemberHead(m)|, idx + 1, idx);
      HungUnderRoot(KeyToken(m, off, 1, parent), Flatten(m.value, off + |MemberHead(m)|, idx + 1, idx), idx, parent);
      FlattenMembersHung(members[1..], off', idx', parent);
      HungConcat(MemberBlock(m, off, idx, parent), FlattenMembers(members[1..], off', idx', parent), idx, parent);
    }
  }

  /** The state behind a value that was read in state `st`. */
  function After(st: State, j: Json): State
    requires st.Linked()
  {
    State(st.pos + |Render(j)|, st.super, Bump(st.toks, st.super) + Flatten(j, st.pos, |st.toks|, st.super))
  }

  lemma AfterLinked(st: State, j: Json)
    requires st.Linked()
    ensures After(st, j).Linked()
  {
    FlattenHung(j, st.pos, |st.toks|, st.super);
  }

  /** A primitive needs a delimiter behind it; other values do not. */
  predicate Delimited(js: string, p: nat, j: Json) {
    j.JPrimitive? ==> p < |js| && EndsPrimitive(js[p])
  }

  lemma {:induction false} FillValue(js: string, st: State, j: Json, cap: nat, run: Run)
    requires PreservedBySteps(js, cap, run)
    requires st.Linked() && Ready(st) && Legal(j) && At(js, st.pos, Render(j))
    requires Delimited(js, st.pos + |Render(j)|, j) && |st.toks| + Tokens(j) <= cap
    ensures After(st, j).Linked() && run(st) == run(After(st, j))
    decreases j, 1
  {
    AfterLinked(st, j);
    match j {
      case JString(_) => FillString(js, st, j, cap, run);
      case JPrimitive(_) => FillPrimitive(js, st, j, cap, run);
      case JArray(_, _) => FillArray(js, st, j, cap, run);
      case JObject(_, _) => FillObject(js, st, j, cap, run);
    }
  }

  lemma FillString(js: string, st: State, j: Json, cap: nat, run: Run)
    requires PreservedBySteps(js, cap, run)
    requires j.JString? && st.Linked() && ValidBody(j.body) && At(js, st.pos, Quoted(j.body)) && |st.toks| < cap
    ensures After(st, j).Linked() && run(st) == run(After(st, j))
  {
    AfterLinked(st, j);
    assert Quoted(j.body) == "\"" + (j.body + "\"");
    AtSplit(js, st.pos, "\"", j.body + "\"");
    ScanStringBody(js, st.pos + 1, j.body);
    assert FillStep(js, st, cap) == Ok(After(st, j));
  }

  lemma FillPrimitive(js: string, st: State, j: Json, cap: nat, run: Run)
    requires PreservedBySteps(js, cap, run)
    requires j.JPrimitive? && st.Linked() && Ready(st) && ValidPrimitive(j.text) && At(js, st.pos, j.text) && |st.toks| < cap
    requires Delimited(js, st.pos + |j.text|, j)
    ensures After(st, j).Linked() && run(st) == run(After(st, j))
  {
    AfterLinked(st, j);
    AtChar(js, st.pos, j.text, 0);
    ScanPrimitiveText(js, st.pos, st.pos, j.text);
    assert FillStep(js, st, cap) == Ok(After(st, j));
  }

  /** Behind an opening bracket. */
  function Opened(st: State, kind: Kind): (r: State)
    requires st.Linked()
    ensures r.Linked() && Inside(r.toks, |st.toks|)
  {
    State(st.pos + 1, |st.toks|, Bump(st.toks, st.super) + [Token(kind, st.pos, -1, 0, st.super)])
  }

  /** Behind the closing bracket of container `n`. */
  function Closed(st: State, n: nat): State
    requires st.Linked() && n < |st.toks|
  {
    State(st.pos + 1, st.toks[n].parent, st.toks[n := st.toks[n].(end := st.pos + 1)])
  }

  /** A closing bracket behind the finished contents of container `n`. */
  lemma CloseContainer(js: string, st: State, n: nat, cap: nat, run: Run)
    requires PreservedBySteps(js, cap, run)
    requires st.Linked() && Inside(st.toks, n) && st.pos < |js|
    requires (st.toks[n].kind == ARRAY && js[st.pos] == ']') || (st.toks[n].kind == OBJECT && js[st.pos] == '}')
    ensures Closed(st, n).Linked() && run(st) == run(Closed(st, n))
  {
    ClimbToOpen(st.toks, |st.toks| - 1, n, st.super);
    assert FillStep(js, st, cap) == Ok(Closed(st, n));
  }

  lemma OpenContainer(js: string, st: State, kind: Kind, cap: nat, run: Run)
    requires PreservedBySteps(js, cap, run)
    requires st.Linked() && st.pos < |js| && |st.toks| < cap
    requires (kind == ARRAY && js[st.pos] == '[') || (kind == OBJECT && js[st.pos] == '{')
    ensures run(st) == run(Opened(st, kind))
  {
    assert FillStep(js, st, cap) == Ok(Opened(st, kind));
  }

  /** The first entry of a comma-separated list and what follows it. */
  lemma ListText(js: string, p: nat, first: string, others: string, single: bool, close: string)
    requires At(js, p, first + (if single then "" else "," + others) + close)
    ensures At(js, p, first + if single then close else "," + (others + close))
    ensures !single ==> var q := p + |first|; q < |js| && js[q] == ',' && At(js, q + 1, others + close)
  {
    AtSplit(js, p, first + (if single then "" else "," + others), close);
    AtSplit(js, p, first, if single then "" else "," + others);
    if single {
      AtJoin(js, p, first, close);
    } else {
      SeparatedText(js, p + |first|, others, close);
      AtJoin(js, p, first, "," + (others + close));
    }
  }

  lemma SeparatedText(js: string, q: nat, others: string, close: string)
    requires At(js, q, "," + others) && At(js, q + 1 + |others|, close)
    ensures js[q] == ',' && At(js, q + 1, others + close) && At(js, q, "," + (others + close))
  {
    AtSplit(js, q, ",", others);
    AtJoin(js, q + 1, others, close);
    AtJoin(js, q, ",", others + close);
  }

  // ---------------------------------------------------------------- arrays

  /** The pieces of `open + lead + contents + close` and where they stand. */
  lemma ContainerText(js: string, p: nat, open: string, lead: string, contents: string, close: string)
    requires At(js, p, open + lead + contents + close) && |open| == |close| == 1
    ensures p < |js| && js[p] == open[0] && At(js, p + 1, lead) && At(js, p + 1 + |lead|, contents + close)
    ensures var q := p + 1 + |lead| + |contents|; q < |js| && js[q] == close[0]
  {
    AtSplit(js, p, open + lead + contents, close);
    AtSplit(js, p, open + lead, contents);
    AtSplit(js, p, open, lead);
    AtJoin(js, p + 1 + |lead|, contents, close);
  }

  /** Behind an opening bracket and the white space that follows it. */
  function Entered(st: State, kind: Kind, lead: string): (r: State)
    requires st.Linked()
    ensures r.Linked() && r.super == |st.toks| && In(r, |st.toks|, kind)
  {
    var st1 := Opened(st, kind);
    State(st1.pos + |lead|, st1.super, st1.toks)
  }

  lemma EnterContainer(js: string, st: State, kind: Kind, lead: string, cap: nat, run: Run)
    requires PreservedBySteps(js, cap, run)
    requires st.Linked() && st.pos < |js| && |st.toks| < cap && Spaces(lead) && At(js, st.pos + 1, lead)
    requires (kind == ARRAY && js[st.pos] == '[') || (kind == OBJECT && js[st.pos] == '{')
    ensures run(st) == run(Entered(st, kind, lead))
  {
    OpenContainer(js, st, kind, cap, run);
    FillSpaces(js, Opened(st, kind), lead, cap, run);
  }

  lemma {:induction false} FillArray(js: string, st: State, j: Json, cap: nat, run: Run)
    requires PreservedBySteps(js, cap, run)
    requires j.JArray? && st.Linked() && Legal(j) && At(js, st.pos, Render(j)) && |st.toks| + Tokens(j) <= cap
    ensures After(st, j).Linked() && run(st) == run(After(st, j))
    decreases j, 0
  {
    ContainerText(js, st.pos, "[", j.lead, RenderItems(j.items), "]");
    EnterContainer(js, st, ARRAY, j.lead, cap, run);
    var st2 := Entered(st, ARRAY, j.lead);
    FillItems(js, st2, j.items, cap, run);
    CloseContainer(js, AfterItems(st2, j.items), |st.toks|, cap, run);
    ArrayResult(st, j);
  }

  lemma ArrayResult(st: State, j: Json)
    requires j.JArray? && st.Linked()
    ensures var st3 := AfterItems(Entered(st, ARRAY, j.lead), j.items);
            st3.Linked() ==> Closed(st3, |st.toks|) == After(st, j)
  {
    var st2 := Entered(st, ARRAY, j.lead);
    var st3 := AfterItems(st2, j.items);
    var kids := FlattenItems(j.items, st2.pos, |st2.toks|, st2.super);
    var n := |st.toks|;
    var root := Token(ARRAY, st.pos, st3.pos + 1, |j.items|, st.super);
    assert st3.toks == Bump(st.toks, st.super) + [root.(end := -1)] + kids;
    assert Bump(st.toks, st.super) + [root] + kids == Bump(st.toks, st.super) + ([root] + kids);
    if st3.Linked() { assert Closed(st3, n).toks == Bump(st.toks, st.super) + [root] + kids; }
  }

  function AfterItems(st: State, items: seq<Item>): State
    requires 0 <= st.super < |st.toks|
  {
    State(st.pos + |RenderItems(items)|, st.super,
          Grown(st.toks, st.super, |items|) + FlattenItems(items, st.pos, |st.toks|, st.super))
  }

  ghost predicate LegalItems(items: seq<Item>) {
    forall x | x in items :: Spaces(x.before) && Spaces(x.after) && Legal(x.value)
  }

  /** Directly inside the open container `n` of the given kind. */
  ghost predicate In(st: State, n: nat, kind: Kind) {
    st.Linked() && n < |st.toks| && st.toks[n].kind == kind && Inside(st.toks, n)
  }

  /** Attaching finished tokens under an open container keeps it the open one. */
  lemma InsideGrows(st: State, n: nat, kind: Kind, r: seq<Token>, st': State)
    requires In(st, n, kind) && Hung(r, |st.toks|, n)
    requires st'.toks == Grown(st.toks, n, 1) + r && -1 <= st'.super < |st'.toks|
    ensures In(st', n, kind)
  {
  }

  function AfterItem(st: State, x: Item): State
    requires st.Linked()
  {
    var st1 := State(st.pos + |x.before|, st.super, st.toks);
    var st2 := After(st1, x.value);
    State(st2.pos + |x.after|, st.super, st2.toks)
  }

  lemma AfterItemInside(st: State, x: Item)
    requires st.super >= 0 && In(st, st.super, ARRAY)
    ensures In(AfterItem(st, x), st.super, ARRAY)
  {
    var off := st.pos + |x.before|;
    FlattenHung(x.value, off, |st.toks|, st.super);
    InsideGrows(st, st.super, ARRAY, Flatten(x.value, off, |st.toks|, st.super), AfterItem(st, x));
  }

  /** Where the parts of an item stand. */
  lemma ThreeTexts(js: string, p: nat, a: string, b: string, c: string, more: string)
    requires At(js, p, a + b + c + more) && more != ""
    ensures var q := p + |a|;
            var r := q + |b|;
            && At(js, p, a) && At(js, q, b) && At(js, r, c) && At(js, r + |c|, more)
            && js[r] == if c == "" then more[0] else c[0]
  {
    AtSplit(js, p, a + b + c, more);
    AtSplit(js, p, a + b, c);
    AtSplit(js, p, a, b);
  }

  lemma ItemText(js: string, p: nat, x: Item, more: string)
    requires At(js, p, RenderItem(x) + more) && more != "" && EndsPrimitive(more[0]) && Spaces(x.after)
    ensures var q := p + |x.before|;
            var r := q + |Render(x.value)|;
            && At(js, p, x.before) && At(js, q, Render(x.value)) && Delimited(js, r, x.value)
            && At(js, r, x.after) && At(js, r + |x.after|, more)
  {
    ThreeTexts(js, p, x.before, Render(x.value), x.after, more);
  }

  lemma {:induction false} FillItem(js: string, st: State, x: Item, more: string, cap: nat, run: Run)
    requires PreservedBySteps(js, cap, run)
    requires st.super >= 0 && In(st, st.super, ARRAY) && Spaces(x.before) && Spaces(x.after) && Legal(x.value)
    requires |st.toks| + Tokens(x.value) <= cap
    requires At(js, st.pos, RenderItem(x) + more) && more != "" && EndsPrimitive(more[0])
    ensures AfterItem(st, x).Linked() && run(st) == run(AfterItem(st, x))
    decreases x, 2
  {
    ItemText(js, st.pos, x, more);
    FillSpaces(js, st, x.before, cap, run);
    var st1 := State(st.pos + |x.before|, st.super, st.toks);
    FillValue(js, st1, x.value, cap, run);
    FillSpaces(js, After(st1, x.value), x.after, cap, run);
  }

  /** A comma between two items changes only the position. */
  lemma ItemComma(js: string, st: State, cap: nat, run: Run)
    requires PreservedBySteps(js, cap, run)
    requires st.super >= 0 && In(st, st.super, ARRAY) && st.pos < |js| && js[st.pos] == ','
    ensures run(st) == run(State(st.pos + 1, st.super, st.toks))
  {
    assert FillStep(js, st, cap) == Ok(State(st.pos + 1, st.super, st.toks));
  }

  lemma {:induction false} FillItems(js: string, st: State, items: seq<Item>, cap: nat, run: Run)
    requires PreservedBySteps(js, cap, run)
    requires st.super >= 0 && In(st, st.super, ARRAY) && LegalItems(items)
    requires At(js, st.pos, RenderItems(items) + "]") && |st.toks| + ItemTokens(items) <= cap
    ensures In(AfterItems(st, items), st.super, ARRAY) && run(st) == run(AfterItems(st, items))
    decreases items, 0
  {
    if items == [] {
      assert AfterItems(st, items) == st;
      return;
    }
    var x, rest := items[0], items[1..];
    assert items == [x] + rest && forall y | y in rest :: y in items;
    FillFirstItem(js, st, x, rest, cap, run);
    ItemsCompose(st, x, rest);
    if rest != [] {
      FillItems(js, PastItem(st, x, rest), rest, cap, run);
    }
  }

  /** After an item and the comma that follows it, if any. */
  ghost function PastItem(st: State, x: Item, rest: seq<Item>): State
    requires st.Linked()
  {
    var st1 := AfterItem(st, x);
    if rest == [] then st1 else State(st1.pos + 1, st1.super, st1.toks)
  }

  lemma {:induction false} FillFirstItem(js: string, st: State, x: Item, rest: seq<Item>, cap: nat, run: Run)
    requires PreservedBySteps(js, cap, run)
    requires st.super >= 0 && In(st, st.super, ARRAY) && Spaces(x.before) && Spaces(x.after) && Legal(x.value)
    requires At(js, st.pos, RenderItems([x] + rest) + "]") && |st.toks| + Tokens(x.value) <= cap
    ensures var st1 := PastItem(st, x, rest);
            && st1.super == st.super && In(st1, st.super, ARRAY) && run(st) == run(st1)
            && (rest != [] ==> At(js, st1.pos, RenderItems(rest) + "]"))
    decreases x, 3
  {
    ItemsText(js, st.pos, x, rest);
    FillItem(js, st, x, if rest == [] then "]" else "," + (RenderItems(rest) + "]"), cap, run);
    AfterItemInside(st, x);
    if rest != [] { ItemComma(js, AfterItem(st, x), cap, run); }
  }

  /** Where the first item of several stands, and what follows it. */
  lemma ItemsText(js: string, p: nat, x: Item, rest: seq<Item>)
    requires At(js, p, RenderItems([x] + rest) + "]")
    ensures At(js, p, RenderItem(x) + if rest == [] then "]" else "," + (RenderItems(rest) + "]"))
    ensures rest != [] ==> var q := p + |RenderItem(x)|; q < |js| && js[q] == ',' && At(js, q + 1, RenderItems(rest) + "]")
  {
    assert ([x] + rest)[1..] == rest;
    ListText(js, p, RenderItem(x), RenderItems(rest), rest == [], "]");
  }

  /** One item and then the rest is all items. */
  lemma ItemsCompose(st: State, x: Item, rest: seq<Item>)
    requires st.super >= 0 && st.Linked()
    ensures var st1 := AfterItem(st, x);
            && 0 <= st1.super < |st1.toks|
            && AfterItems(st, [x] + rest) ==
               if rest == [] then st1 else AfterItems(State(st1.pos + 1, st1.super, st1.toks), rest)
  {
    var items := [x] + rest;
    assert items[1..] == rest;
    var st1 := AfterItem(st, x);
    var here := Flatten(x.value, st.pos + |x.before|, |st.toks|, st.super);
    var later := FlattenItems(rest, st1.pos + 1, |st1.toks|, st.super);
    assert FlattenItems(items, st.pos, |st.toks|, st.super) == here + later;
    assert st1.toks == Grown(st.toks, st.super, 1) + here;
    if rest == [] {
      assert later == [] && here + later == here;
    } else {
      assert Grown(st1.toks, st.super, |rest|) == Grown(st.toks, st.super, |items|) + here;
      assert Grown(st.toks, st.super, |items|) + here + later == Grown(st.toks, st.super, |items|) + (here + later);
    }
  }

  // ---------------------------------------------------------------- objects

  lemma {:induction false} FillObject(js: string, st: State, j: Json, cap: nat, run: Run)
    requires PreservedBySteps(js, cap, run)
    requires j.JObject? && st.Linked() && Legal(j) && At(js, st.pos, Render(j)) && |st.toks| + Tokens(j) <= cap
    ensures After(st, j).Linked() && run(st) == run(After(st, j))
    decreases j, 0
  {
    ContainerText(js, st.pos, "{", j.lead, RenderMembers(j.members), "}");
    EnterContainer(js, st, OBJECT, j.lead, cap, run);
    var st2 := Entered(st, OBJECT, j.lead);
    FillMembers(js, st2, j.members, cap, run);
    CloseContainer(js, AfterMembers(st2, j.members), |st.toks|, cap, run);
    ObjectResult(st, j);
  }

  lemma ObjectResult(st: State, j: Json)
    requires j.JObject? && st.Linked()
    ensures var st3 := AfterMembers(Entered(st, OBJECT, j.lead), j.members);
            st3.Linked() ==> Closed(st3, |st.toks|) == After(st, j)
  {
    var st2 := Entered(st, OBJECT, j.lead);
    var st3 := AfterMembers(st2, j.members);
    var kids := FlattenMembers(j.members, st2.pos, |st2.toks|, st2.super);
    var root := Token(OBJECT, st.pos, st3.pos + 1, |j.members|, st.super);
    assert st3.toks == Bump(st.toks, st.super) + [root.(end := -1)] + kids;
    assert Bump(st.toks, st.super) + [root] + kids == Bump(st.toks, st.super) + ([root] + kids);
    if st3.Linked() { assert Closed(st3, |st.toks|).toks == Bump(st.toks, st.super) + [root] + kids; }
  }

  /** The parser is left at the key whose value came last. */
  function LastKey(members: seq<Member>, idx: nat, n: nat): nat {
    if members == [] then n
    else if |members| == 1 then idx
    else LastKey(members[1..], idx + 1 + Tokens(members[0].value), n)
  }

  function AfterMembers(st: State, members: seq<Member>): State
    requires 0 <= st.super < |st.toks|
  {
    State(st.pos + |RenderMembers(members)|, LastKey(members, |st.toks|, st.super),
          Grown(st.toks, st.super, |members|) + FlattenMembers(members, st.pos, |st.toks|, st.super))
  }

  ghost predicate LegalMember(m: Member) {
    Spaces(m.before) && ValidBody(m.key) && Spaces(m.afterKey) && Spaces(m.beforeValue) && Spaces(m.after) && Legal(m.value)
  }

  /** Behind the colon of a member: its key token stands and owns the position. */
  function AfterHead(st: State, m: Member): State
    requires 0 <= st.super < |st.toks|
  {
    State(st.pos + |MemberHead(m)|, |st.toks|, Grown(st.toks, st.super, 1) + [KeyToken(m, st.pos, 0, st.super)])
  }

  lemma AfterHeadInside(st: State, m: Member)
    requires st.super >= 0 && In(st, st.super, OBJECT)
    ensures In(AfterHead(st, m), st.super, OBJECT) && Ready(AfterHead(st, m))
  {
    InsideGrows(st, st.super, OBJECT, [KeyToken(m, st.pos, 0, st.super)], AfterHead(st, m));
  }

  lemma HeadText(js: string, p: nat, m: Member)
    requires At(js, p, MemberHead(m))
    ensures At(js, p, m.before) && At(js, p + |m.before|, Quoted(m.key))
    ensures var q := p + |m.before| + |Quoted(m.key)|;
            var r := q + |m.afterKey|;
            && At(js, q, m.afterKey) && r < |js| && js[r] == ':' && At(js, r + 1, m.beforeValue)
  {
    var a, b, c := m.before, Quoted(m.key), m.afterKey;
    AtSplit(js, p, a + b + c + ":", m.beforeValue);
    AtSplit(js, p, a + b + c, ":");
    AtSplit(js, p, a + b, c);
    AtSplit(js, p, a, b);
  }

  lemma FillHead(js: string, st: State, m: Member, cap: nat, run: Run)
    requires PreservedBySteps(js, cap, run)
    requires st.super >= 0 && In(st, st.super, OBJECT) && LegalMember(m) && At(js, st.pos, MemberHead(m)) && |st.toks| < cap
    ensures AfterHead(st, m).Linked() && run(st) == run(AfterHead(st, m))
  {
    HeadText(js, st.pos, m);
    FillSpaces(js, st, m.before, cap, run);
    var st1 := State(st.pos + |m.before|, st.super, st.toks);
    FillString(js, st1, JString(m.key), cap, run);
    var st2 := After(st1, JString(m.key));
    FillSpaces(js, st2, m.afterKey, cap, run);
    var st3 := State(st2.pos + |m.afterKey|, st2.super, st2.toks);
    var st4 := State(st3.pos + 1, |st3.toks| - 1, st3.toks);
    assert FillStep(js, st3, cap) == Ok(st4);
    FillSpaces(js, st4, m.beforeValue, cap, run);
    assert st4.toks == AfterHead(st, m).toks;
  }

  function AfterMember(st: State, m: Member): State
    requires 0 <= st.super < |st.toks|
  {
    State(st.pos + |RenderMember(m)|, |st.toks|, Grown(st.toks, st.super, 1) + MemberBlock(m, st.pos, |st.toks|, st.super))
  }

  lemma AfterMemberInside(st: State, m: Member)
    requires st.super >= 0 && In(st, st.super, OBJECT)
    ensures In(AfterMember(st, m), st.super, OBJECT)
  {
    var k := |st.toks|;
    FlattenHung(m.value, st.pos + |MemberHead(m)|, k + 1, k);
    HungUnderRoot(KeyToken(m, st.pos, 1, st.super), Flatten(m.value, st.pos + |MemberHead(m)|, k + 1, k), k, st.super);
    InsideGrows(st, st.super, OBJECT, MemberBlock(m, st.pos, k, st.super), AfterMember(st, m));
  }

  /** The value gives its key the size 1. */
  lemma HeadThenValue(st: State, m: Member)
    requires st.super >= 0 && In(st, st.super, OBJECT) && AfterHead(st, m).Linked()
    ensures After(AfterHead(st, m), m.value).toks == AfterMember(st, m).toks
  {
    var base, k := Grown(st.toks, st.super, 1), |st.toks|;
    var key0, key1 := KeyToken(m, st.pos, 0, st.super), KeyToken(m, st.pos, 1, st.super);
    var value := Flatten(m.value, st.pos + |MemberHead(m)|, k + 1, k);
    assert Bump(base + [key0], k) == base + [key1];
    assert base + [key1] + value == base + ([key1] + value);
  }

  lemma {:induction false} FillMember(js: string, st: State, m: Member, more: string, cap: nat, run: Run)
    requires PreservedBySteps(js, cap, run)
    requires st.super >= 0 && In(st, st.super, OBJECT) && LegalMember(m)
    requires |st.toks| + 1 + Tokens(m.value) <= cap
    requires At(js, st.pos, RenderMember(m) + more) && more != "" && EndsPrimitive(more[0])
    ensures AfterMember(st, m).Linked() && run(st) == run(AfterMember(st, m))
    decreases m, 2
  {
    ThreeTexts(js, st.pos, MemberHead(m), Render(m.value), m.after, more);
    FillHead(js, st, m, cap, run);
    AfterHeadInside(st, m);
    var st1 := AfterHead(st, m);
    FillValue(js, st1, m.value, cap, run);
    FillSpaces(js, After(st1, m.value), m.after, cap, run);
    HeadThenValue(st, m);
    AfterMemberInside(st, m);
  }

  /** A comma behind a member leads back from its key to the object. */
  lemma MemberComma(js: string, st: State, m: Member, cap: nat, run: Run)
    requires PreservedBySteps(js, cap, run)
    requires st.super >= 0 && In(st, st.super, OBJECT)
    requires var st1 := AfterMember(st, m); st1.pos < |js| && js[st1.pos] == ','
    ensures var st1 := AfterMember(st, m); run(st1) == run(State(st1.pos + 1, st.super, st1.toks))
  {
    AfterMemberInside(st, m);
    var st1 := AfterMember(st, m);
    assert st1.toks[st1.super] == KeyToken(m, st.pos, 1, st.super);
    assert FillStep(js, st1, cap) == Ok(State(st1.pos + 1, st.super, st1.toks));
  }

  /** Where the first member of several stands, and what follows it. */
  lemma MembersText(js: string, p: nat, m: Member, rest: seq<Member>)
    requires At(js, p, RenderMembers([m] + rest) + "}")
    ensures At(js, p, RenderMember(m) + if rest == [] then "}" else "," + (RenderMembers(rest) + "}"))
    ensures rest != [] ==> var q := p + |RenderMember(m)|; q < |js| && js[q] == ',' && At(js, q + 1, RenderMembers(rest) + "}")
  {
    assert ([m] + rest)[1..] == rest;
    ListText(js, p, RenderMember(m), RenderMembers(rest), rest == [], "}");
  }

  lemma {:induction false} FillMembers(js: string, st: State, members: seq<Member>, cap: nat, run: Run)
    requires PreservedBySteps(js, cap, run)
    requires st.super >= 0 && In(st, st.super, OBJECT) && (forall m | m in members :: LegalMember(m))
    requires At(js, st.pos, RenderMembers(members) + "}") && |st.toks| + MemberTokens(members) <= cap
    ensures In(AfterMembers(st, members), st.super, OBJECT) && run(st) == run(AfterMembers(st, members))
    decreases members, 0
  {
    if members == [] {
      assert AfterMembers(st, members) == st;
      return;
    }
    var m, rest := members[0], members[1..];
    assert members == [m] + rest && forall y | y in rest :: y in members;
    FillFirstMember(js, st, m, rest, cap, run);
    MembersCompose(st, m, rest);
    if rest != [] {
      FillMembers(js, PastMember(st, m, rest), rest, cap, run);
    }
  }

  /** After a member and the comma that follows it, if any. */
  ghost function PastMember(st: State, m: Member, rest: seq<Member>): State
    requires 0 <= st.super < |st.toks|
  {
    var st1 := AfterMember(st, m);
    if rest == [] then st1 else State(st1.pos + 1, st.super, st1.toks)
  }

  lemma {:induction false} FillFirstMember(js: string, st: State, m: Member, rest: seq<Member>, cap: nat, run: Run)
    requires PreservedBySteps(js, cap, run)
    requires st.super >= 0 && In(st, st.super, OBJECT) && LegalMember(m)
    requires At(js, st.pos, RenderMembers([m] + rest) + "}") && |st.toks| + 1 + Tokens(m.value) <= cap
    ensures var st1 := PastMember(st, m, rest);
            && In(State(st1.pos, st.super, st1.toks), st.super, OBJECT) && run(st) == run(st1)
            && (rest != [] ==> st1.super == st.super && At(js, st1.pos, RenderMembers(rest) + "}"))
    decreases m, 3
  {
    MembersText(js, st.pos, m, rest);
    FillMember(js, st, m, if rest == [] then "}" else "," + (RenderMembers(rest) + "}"), cap, run);
    AfterMemberInside(st, m);
    if rest != [] { MemberComma(js, st, m, cap, run); }
  }

  /** One member and then the rest is all members. */
  lemma MembersCompose(st: State, m: Member, rest: seq<Member>)
    requires st.super >= 0 && st.Linked()
    ensures var st1 := AfterMember(st, m);
            && 0 <= st.super < |st1.toks|
            && AfterMembers(st, [m] + rest) ==
               if rest == [] then st1 else AfterMembers(State(st1.pos + 1, st.super, st1.toks), rest)
  {
    var members := [m] + rest;
    assert members[1..] == rest;
    var st1 := AfterMember(st, m);
    var k := |st.toks|;
    var here := MemberBlock(m, st.pos, k, st.super);
    var later := FlattenMembers(rest, st1.pos + 1, |st1.toks|, st.super);
    assert FlattenMembers(members, st.pos, k, st.super) == here + later;
    assert st1.toks == Grown(st.toks, st.super, 1) + here;
    if rest == [] {
      assert later == [] && here + later == here;
    } else {
      assert Grown(st1.toks, st.super, |rest|) == Grown(st.toks, st.super, |members|) + here;
      assert Grown(st.toks, st.super, |members|) + here + later == Grown(st.toks, st.super, |members|) + (here + later);
    }
  }

  // ---------------------------------------------------------------- whole documents

  /**
   Tokenizing a rendered container with white space around it, given at least as many tokens as
   the tree has: the token array is the pre-order flattening of the tree, and the counting pass
   counts exactly its tokens.
   */
  lemma TokenizeDocument(before: string, j: Json, after: string, cap: nat)
    requires (j.JArray? || j.JObject?) && Legal(j) && Spaces(before) && Spaces(after) && Tokens(j) <= cap
    ensures var js := before + Render(j) + after;
            && FillFrom(js, START, cap) == Ok(Flatten(j, |before|, 0, -1))
            && CountFrom(js, 0, 0) == Ok(Tokens(j))
  {
    var js := before + Render(j) + after;
    var run: Run := (s: State) => if s.Linked() then FillFrom(js, s, cap) else Error(ERROR_PART);
    assert PreservedBySteps(js, cap, run);
    FillDocument(before, j, after, cap, run);
    var st := State(|js|, -1, Flatten(j, |before|, 0, -1));
    FlattenHung(j, |before|, 0, -1);
    assert st.Linked();
    assert FillFrom(js, START, cap) == FillFrom(js, st, cap) == Ok(st.toks);
    PassesAgree(js, START, cap);
  }

  lemma FillDocument(before: string, j: Json, after: string, cap: nat, run: Run)
    requires (j.JArray? || j.JObject?) && Legal(j) && Spaces(before) && Spaces(after) && Tokens(j) <= cap
    requires PreservedBySteps(before + Render(j) + after, cap, run)
    ensures run(START) == run(State(|before + Render(j) + after|, -1, Flatten(j, |before|, 0, -1)))
  {
    var js := before + Render(j) + after;
    DocumentText(before, Render(j), after);
    FillSpaces(js, START, before, cap, run);
    FillValue(js, State(|before|, -1, []), j, cap, run);
    var st := AfterRoot(|before|, j);
    FillSpaces(js, st, after, cap, run);
  }

  lemma AfterRoot(off: nat, j: Json) returns (st: State)
    ensures st == State(off + |Render(j)|, -1, Flatten(j, off, 0, -1)) == After(State(off, -1, []), j)
    ensures st.Linked()
  {
    st := After(State(off, -1, []), j);
    assert st.toks == Flatten(j, off, 0, -1);
    AfterLinked(State(off, -1, []), j);
  }

  lemma DocumentText(a: string, b: string, c: string)
    ensures At(a + b + c, 0, a) && At(a + b + c, |a|, b) && At(a + b + c, |a| + |b|, c)
  {
    AtSplit(a + b + c, 0, a + b, c);
    AtSplit(a + b + c, 0, a, b);
  }
}
