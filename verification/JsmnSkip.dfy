/** `cgltf_skip_json`: stepping over a subtree by counting the children still owed. */
module JsmnSkip {
  import opened JsmnSpec
  import opened JsmnTree

  /** How many more tokens a token announces. */
  function Owed(t: Token): nat {
    if t.kind == OBJECT then 2 * t.size else if t.kind == ARRAY then t.size else 0
  }

  /** The loop at index `i` with bound `end`; -1 at an undefined token. */
  function SkipFrom(toks: seq<Token>, i: nat, end: int): int
    decreases |toks| - i
  {
    if i >= end then i
    else if i >= |toks| || toks[i].kind == UNDEFINED then -1
    else SkipFrom(toks, i + 1, end + Owed(toks[i]))
  }

  /** The sentinel behind the last token keeps every read inside the array. */
  method SkipJson(tokens: array<Token>, start: nat) returns (r: int)
    requires start < tokens.Length && tokens[tokens.Length - 1].kind == UNDEFINED
    ensures r == SkipFrom(tokens[..], start, start + 1)
  {
    var i, end := start, start + 1;
    while i < end
      invariant 0 <= i < tokens.Length
      invariant SkipFrom(tokens[..], start, start + 1) == SkipFrom(tokens[..], i, end)
      decreases tokens.Length - i
    {
      match tokens[i].kind {
        case OBJECT => end := end + tokens[i].size * 2;
        case ARRAY => end := end + tokens[i].size;
        case PRIMITIVE =>
        case STRING =>
        case UNDEFINED => return -1;
      }
      i := i + 1;
    }
    r := i;
  }

  /** The tokens `r` stand in `toks` from index `i` on. */
  ghost predicate Holds(toks: seq<Token>, i: nat, r: seq<Token>) {
    i + |r| <= |toks| && forall k | 0 <= k < |r| :: r[k] == toks[i + k]
  }

  lemma HoldsSplit(toks: seq<Token>, i: nat, a: seq<Token>, b: seq<Token>)
    requires Holds(toks, i, a + b)
    ensures Holds(toks, i, a) && Holds(toks, i + |a|, b)
  {
    forall k | 0 <= k < |a| ensures a[k] == toks[i + k] { assert (a + b)[k] == a[k]; }
    forall k | 0 <= k < |b| ensures b[k] == toks[i + |a| + k] { assert (a + b)[|a| + k] == b[k]; }
  }

  lemma RootThenItems(j: Json, off: nat, idx: nat, parent: int) returns (root: seq<Token>)
    requires j.JArray?
    ensures |root| == 1 && root[0].kind == ARRAY && root[0].size == |j.items| && Flatten(j, off, idx, parent) == root + FlattenItems(j.items, off + 1 + |j.lead|, idx + 1, idx)
  {
    root := [Token(ARRAY, off, off + |Render(j)|, |j.items|, parent)];
  }

  lemma RootThenMembers(j: Json, off: nat, idx: nat, parent: int) returns (root: seq<Token>)
    requires j.JObject?
    ensures |root| == 1 && root[0].kind == OBJECT && root[0].size == |j.members| && Flatten(j, off, idx, parent) == root + FlattenMembers(j.members, off + 1 + |j.lead|, idx + 1, idx)
  {
    root := [Token(OBJECT, off, off + |Render(j)|, |j.members|, parent)];
  }

  lemma {:induction false} SkipValue(toks: seq<Token>, i: nat, end: int, j: Json, off: nat, idx: nat, parent: int)
    requires Holds(toks, i, Flatten(j, off, idx, parent)) && i < end
    ensures SkipFrom(toks, i, end) == SkipFrom(toks, i + Tokens(j), end + Tokens(j) - 1)
    decreases j, 1
  {
    match j {
      case JArray(_, _) => SkipArray(toks, i, end, j, off, idx, parent);
      case JObject(_, _) => SkipObject(toks, i, end, j, off, idx, parent);
      case _ => assert toks[i] == Flatten(j, off, idx, parent)[0];
    }
  }

  lemma {:induction false} SkipArray(toks: seq<Token>, i: nat, end: int, j: Json, off: nat, idx: nat, parent: int)
    requires j.JArray? && Holds(toks, i, Flatten(j, off, idx, parent)) && i < end
    ensures SkipFrom(toks, i, end) == SkipFrom(toks, i + Tokens(j), end + Tokens(j) - 1)
    decreases j, 0
  {
    var root := RootThenItems(j, off, idx, parent);
    HoldsSplit(toks, i, root, FlattenItems(j.items, off + 1 + |j.lead|, idx + 1, idx));
    assert toks[i] == root[0];
    SkipItems(toks, i + 1, end + |j.items|, j.items, off + 1 + |j.lead|, idx + 1, idx);
  }

  lemma {:induction false} SkipObject(toks: seq<Token>, i: nat, end: int, j: Json, off: nat, idx: nat, parent: int)
    requires j.JObject? && Holds(toks, i, Flatten(j, off, idx, parent)) && i < end
    ensures SkipFrom(toks, i, end) == SkipFrom(toks, i + Tokens(j), end + Tokens(j) - 1)
    decreases j, 0
  {
    var root := RootThenMembers(j, off, idx, parent);
    HoldsSplit(toks, i, root, FlattenMembers(j.members, off + 1 + |j.lead|, idx + 1, idx));
    assert toks[i] == root[0];
    SkipMembers(toks, i + 1, end + 2 * |j.members|, j.members, off + 1 + |j.lead|, idx + 1, idx);
  }

  lemma {:induction false} SkipItems(toks: seq<Token>, i: nat, end: int, items: seq<Item>, off: nat, idx: nat, parent: int)
    requires Holds(toks, i, FlattenItems(items, off, idx, parent)) && i + |items| <= end
    ensures SkipFrom(toks, i, end) == SkipFrom(toks, i + ItemTokens(items), end + ItemTokens(items) - |items|)
    decreases items, 0
  {
    if items != [] {
      var x, n := items[0], Tokens(items[0].value);
      var off', idx' := off + |RenderItem(x)| + 1, idx + n;
      HoldsSplit(toks, i, Flatten(x.value, off + |x.before|, idx, parent), FlattenItems(items[1..], off', idx', parent));
      SkipValue(toks, i, end, x.value, off + |x.before|, idx, parent);
      SkipItems(toks, i + n, end + n - 1, items[1..], off', idx', parent);
    }
  }

  lemma {:induction false} SkipMembers(toks: seq<Token>, i: nat, end: int, members: seq<Member>, off: nat, idx: nat, parent: int)
    requires Holds(toks, i, FlattenMembers(members, off, idx, parent)) && i + 2 * |members| <= end
    ensures SkipFrom(toks, i, end) == SkipFrom(toks, i + MemberTokens(members), end + MemberTokens(members) - 2 * |members|)
    decreases members, 0
  {
    if members != [] {
      var m, n := members[0], Tokens(members[0].value);
      var off', idx' := off + |RenderMember(m)| + 1, idx + 1 + n;
      HoldsSplit(toks, i, MemberBlock(m, off, idx, parent), FlattenMembers(members[1..], off', idx', parent));
      SkipMember(toks, i, end, m, off, idx, parent);
      SkipMembers(toks, i + 1 + n, end + n - 1, members[1..], off', idx', parent);
    }
  }

  /** A key and its value. */
  lemma {:induction false} SkipMember(toks: seq<Token>, i: nat, end: int, m: Member, off: nat, idx: nat, parent: int)
    requires Holds(toks, i, MemberBlock(m, off, idx, parent)) && i + 2 <= end
    ensures SkipFrom(toks, i, end) == SkipFrom(toks, i + 1 + Tokens(m.value), end + Tokens(m.value) - 1)
    decreases m, 1
  {
    var key := KeyToken(m, off, 1, parent);
    HoldsSplit(toks, i, [key], Flatten(m.value, off + |MemberHead(m)|, idx + 1, idx));
    assert toks[i] == [key][0];
    SkipValue(toks, i + 1, end, m.value, off + |MemberHead(m)|, idx + 1, idx);
  }

  /** `s` is a subtree of `j`, with the index its first token has when `j`'s first token has index `idx`. */
  ghost predicate Subtree(j: Json, idx: nat, s: Json, sidx: nat)
    decreases j, 0
  {
    || (j == s && idx == sidx)
    || (j.JArray? && SubtreeOfItems(j.items, idx + 1, s, sidx))
    || (j.JObject? && SubtreeOfMembers(j.members, idx + 1, s, sidx))
  }

  ghost predicate SubtreeOfItems(items: seq<Item>, idx: nat, s: Json, sidx: nat)
    decreases items, 0
  {
    items != [] && (Subtree(items[0].value, idx, s, sidx) || SubtreeOfItems(items[1..], idx + Tokens(items[0].value), s, sidx))
  }

  ghost predicate SubtreeOfMembers(members: seq<Member>, idx: nat, s: Json, sidx: nat)
    decreases members, 0
  {
    members != [] && (Subtree(members[0].value, idx + 1, s, sidx) || SubtreeOfMembers(members[1..], idx + 1 + Tokens(members[0].value), s, sidx))
  }

  lemma HoldsAfter(a: seq<Token>, r: seq<Token>, k: nat, f: seq<Token>)
    requires Holds(r, k, f)
    ensures Holds(a + r, |a| + k, f)
  {
    forall i | 0 <= i < |f| ensures f[i] == (a + r)[|a| + k + i] { assert f[i] == r[k + i]; }
  }

  lemma HoldsBefore(r: seq<Token>, b: seq<Token>, k: nat, f: seq<Token>)
    requires Holds(r, k, f)
    ensures Holds(r + b, k, f)
  {
    forall i | 0 <= i < |f| ensures f[i] == (r + b)[k + i] { assert f[i] == r[k + i]; }
  }

  /** The flattening of a tree contains that of each of its subtrees; where it was rendered comes back. */
  lemma {:induction false} SubtreeTokens(j: Json, off: nat, idx: nat, parent: int, s: Json, sidx: nat) returns (soff: nat, sparent: int)
    requires Subtree(j, idx, s, sidx)
    ensures idx <= sidx && Holds(Flatten(j, off, idx, parent), sidx - idx, Flatten(s, soff, sidx, sparent))
    decreases j, 0
  {
    if j == s && idx == sidx {
      return off, parent;
    }
    if j.JArray? {
      var root := RootThenItems(j, off, idx, parent);
      soff, sparent := SubtreeItemTokens(j.items, off + 1 + |j.lead|, idx + 1, idx, s, sidx);
      HoldsAfter(root, FlattenItems(j.items, off + 1 + |j.lead|, idx + 1, idx), sidx - idx - 1, Flatten(s, soff, sidx, sparent));
    } else {
      var root := RootThenMembers(j, off, idx, parent);
      soff, sparent := SubtreeMemberTokens(j.members, off + 1 + |j.lead|, idx + 1, idx, s, sidx);
      HoldsAfter(root, FlattenMembers(j.members, off + 1 + |j.lead|, idx + 1, idx), sidx - idx - 1, Flatten(s, soff, sidx, sparent));
    }
  }

  lemma {:induction false} SubtreeItemTokens(items: seq<Item>, off: nat, idx: nat, parent: int, s: Json, sidx: nat) returns (soff: nat, sparent: int)
    requires SubtreeOfItems(items, idx, s, sidx)
    ensures idx <= sidx && Holds(FlattenItems(items, off, idx, parent), sidx - idx, Flatten(s, soff, sidx, sparent))
    decreases items, 1
  {
    if Subtree(items[0].value, idx, s, sidx) {
      soff, sparent := SubtreeInFirst(items, off, idx, parent, s, sidx);
    } else {
      soff, sparent := SubtreeInOthers(items, off, idx, parent, s, sidx);
    }
  }

  lemma {:induction false} SubtreeInFirst(items: seq<Item>, off: nat, idx: nat, parent: int, s: Json, sidx: nat) returns (soff: nat, sparent: int)
    requires items != [] && Subtree(items[0].value, idx, s, sidx)
    ensures idx <= sidx && Holds(FlattenItems(items, off, idx, parent), sidx - idx, Flatten(s, soff, sidx, sparent))
    decreases items, 0
  {
    soff, sparent := SubtreeTokens(items[0].value, off + |items[0].before|, idx, parent, s, sidx);
    InFirstItem(items, off, idx, parent, sidx - idx, Flatten(s, soff, sidx, sparent));
  }

  lemma {:induction false} SubtreeInOthers(items: seq<Item>, off: nat, idx: nat, parent: int, s: Json, sidx: nat) returns (soff: nat, sparent: int)
    requires items != [] && SubtreeOfItems(items[1..], idx + Tokens(items[0].value), s, sidx)
    ensures idx <= sidx && Holds(FlattenItems(items, off, idx, parent), sidx - idx, Flatten(s, soff, sidx, sparent))
    decreases items, 0
  {
    var rest, off', idx' := items[1..], off + |RenderItem(items[0])| + 1, idx + Tokens(items[0].value);
    soff, sparent := SubtreeItemTokens(rest, off', idx', parent, s, sidx);
    InOtherItems(items, off, idx, parent, sidx - idx', Flatten(s, soff, sidx, sparent));
  }

  /** Tokens found in the first item, or in the others, are found in all. */
  lemma InFirstItem(items: seq<Item>, off: nat, idx: nat, parent: int, k: nat, f: seq<Token>)
    requires items != [] && Holds(Flatten(items[0].value, off + |items[0].before|, idx, parent), k, f)
    ensures Holds(FlattenItems(items, off, idx, parent), k, f)
  {
    var x := items[0];
    HoldsBefore(Flatten(x.value, off + |x.before|, idx, parent), FlattenItems(items[1..], off + |RenderItem(x)| + 1, idx + Tokens(x.value), parent), k, f);
  }

  lemma InOtherItems(items: seq<Item>, off: nat, idx: nat, parent: int, k: nat, f: seq<Token>)
    requires items != [] && Holds(FlattenItems(items[1..], off + |RenderItem(items[0])| + 1, idx + Tokens(items[0].value), parent), k, f)
    ensures Holds(FlattenItems(items, off, idx, parent), Tokens(items[0].value) + k, f)
  {
    var x := items[0];
    HoldsAfter(Flatten(x.value, off + |x.before|, idx, parent), FlattenItems(items[1..], off + |RenderItem(x)| + 1, idx + Tokens(x.value), parent), k, f);
  }

  lemma {:induction false} SubtreeMemberTokens(members: seq<Member>, off: nat, idx: nat, parent: int, s: Json, sidx: nat) returns (soff: nat, sparent: int)
    requires SubtreeOfMembers(members, idx, s, sidx)
    ensures idx <= sidx && Holds(FlattenMembers(members, off, idx, parent), sidx - idx, Flatten(s, soff, sidx, sparent))
    decreases members, 0
  {
    var m := members[0];
    var off', idx' := off + |RenderMember(m)| + 1, idx + 1 + Tokens(m.value);
    var head := MemberBlock(m, off, idx, parent);
    var tail := FlattenMembers(members[1..], off', idx', parent);
    if Subtree(m.value, idx + 1, s, sidx) {
      soff, sparent := SubtreeInMember(m, off, idx, parent, s, sidx);
      HoldsBefore(head, tail, sidx - idx, Flatten(s, soff, sidx, sparent));
    } else {
      soff, sparent := SubtreeMemberTokens(members[1..], off', idx', parent, s, sidx);
      HoldsAfter(head, tail, sidx - idx', Flatten(s, soff, sidx, sparent));
    }
  }

  lemma {:induction false} SubtreeInMember(m: Member, off: nat, idx: nat, parent: int, s: Json, sidx: nat) returns (soff: nat, sparent: int)
    requires Subtree(m.value, idx + 1, s, sidx)
    ensures idx < sidx && Holds(MemberBlock(m, off, idx, parent), sidx - idx, Flatten(s, soff, sidx, sparent))
    decreases m, 1
  {
    soff, sparent := SubtreeTokens(m.value, off + |MemberHead(m)|, idx + 1, idx, s, sidx);
    InMember(m, off, idx, parent, sidx - idx - 1, Flatten(s, soff, sidx, sparent));
  }

  lemma InMember(m: Member, off: nat, idx: nat, parent: int, k: nat, f: seq<Token>)
    requires Holds(Flatten(m.value, off + |MemberHead(m)|, idx + 1, idx), k, f)
    ensures Holds(MemberBlock(m, off, idx, parent), k + 1, f)
  {
    HoldsAfter([KeyToken(m, off, 1, parent)], Flatten(m.value, off + |MemberHead(m)|, idx + 1, idx), k, f);
  }

  /**
   In the token array of a document, followed by the undefined sentinel, skipping from the root of
   any subtree lands exactly one past that subtree.
   */
  lemma SkipAnySubtree(off: nat, j: Json, s: Json, sidx: nat, last: Token)
    requires Subtree(j, 0, s, sidx)
    ensures var toks := Flatten(j, off, 0, -1) + [last];
            sidx + Tokens(s) < |toks| && SkipFrom(toks, sidx, sidx + 1) == sidx + Tokens(s)
  {
    var soff, sparent := SubtreeTokens(j, off, 0, -1, s, sidx);
    HoldsBefore(Flatten(j, off, 0, -1), [last], sidx, Flatten(s, soff, sidx, sparent));
    SkipValue(Flatten(j, off, 0, -1) + [last], sidx, sidx + 1, s, soff, sidx, sparent);
  }
}
