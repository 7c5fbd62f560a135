/**
 * The line tokenizer. The importer splits a line with one global regular
 * expression, `\s*(?:(\w+):)?(\[[^\]]+\]|[^\[\]: ]+)`, run repeatedly from
 * where the previous match ended. This module spells that expression out as
 * a lexer: at each position it tries the leading whitespace longest first,
 * the optional `label:` before the bare value, the bracketed list before the
 * bare value, and if nothing matches it moves one character on. The
 * expression has no anchors, so a match depends only on the text from its
 * starting position onwards, and the lexer works on suffixes.
 */
module Tokenizer {
  import opened Text

  /** One match: the whole match trimmed, the label (`tag`) before `:` if there is
      one, and the value, trimmed, with the brackets of a list removed. */
  datatype LinePart = LinePart(text: string, tag: Option<string>, value: string)

  /** The label-and-value tail of the expression matched at the start of a
      string: characters consumed, the label group and the raw value group. */
  datatype RawMatch = RawMatch(len: nat, tag: Option<string>, raw: string)

  /** `[^\[\]: ]`: a character of a bare value. */
  predicate IsAtomChar(c: char) { c != '[' && c != ']' && c != ':' && c != ' ' }

  /** `[^\]]`: a character inside a bracketed list. */
  predicate IsListChar(c: char) { c != ']' }

  predicate IsWord(l: string) { |l| > 0 && All(l, IsWordChar) }

  predicate LabelOk(tag: Option<string>) { tag.Some? ==> IsWord(tag.value) }

  /** The value group `(\[[^\]]+\]|[^\[\]: ]+)` at the start of `u`: a
      bracketed list closed by the first `]` and holding at least one
      character, else the longest run of bare-value characters. */
  function ValueLen(u: string): (r: Option<nat>)
    ensures r.Some? ==> 1 <= r.value <= |u|
  {
    if |u| > 0 && u[0] == '[' && 1 <= Span(u[1..], IsListChar) < |u| - 1 then
      Some(Span(u[1..], IsListChar) + 2)
    else if Span(u, IsAtomChar) > 0 then
      Some(Span(u, IsAtomChar))
    else
      None
  }

  /** What the value group matches: a list closed by its first `]`, or a
      longest run of bare-value characters; and when it matches nothing. */
  lemma ValueLenMeaning(u: string)
    ensures var r := ValueLen(u);
      && (r.Some? && u[0] == '[' ==>
            && 3 <= r.value && u[r.value - 1] == ']'
            && forall i :: 1 <= i < r.value - 1 ==> u[i] != ']')
      && (r.Some? && u[0] != '[' ==>
            && (forall i :: 0 <= i < r.value ==> IsAtomChar(u[i]))
            && (r.value < |u| ==> !IsAtomChar(u[r.value])))
      && (r.None? <==>
            |u| == 0 || (!IsAtomChar(u[0]) && !(u[0] == '[' && |u| >= 3 && u[1] != ']' && ']' in u[2..])))
  {
    SpanMeaning(u, IsAtomChar);
    if |u| > 0 && u[0] == '[' {
      SpanMeaning(u[1..], IsListChar);
      var k := Span(u[1..], IsListChar);
      assert forall i :: 1 <= i < k + 1 ==> u[i] == u[1..][i - 1];
      if k + 1 < |u| { assert u[k + 1] == u[1..][k]; }
      if |u| >= 3 && u[1] != ']' && ']' in u[2..] {
        var j :| 2 <= j < |u| && u[j] == ']';
        assert u[1..][j - 1] == ']';
      }
    }
  }

  /** `(?:(\w+):)?` followed by the value group, at the start of `u`. The
      label is tried first; `\w+` can only be followed by `:` at the end of
      the longest word run, so shorter runs need not be tried. */
  function TryAt(u: string): (r: Option<RawMatch>)
    ensures r.Some? ==> 1 <= r.value.len <= |u|
    ensures r.Some? && r.value.tag.Some? ==> StartsWith(u, r.value.tag.value + ":")
  {
    var w := Span(u, IsWordChar);
    if 0 < w < |u| && u[w] == ':' && ValueLen(u[w + 1..]).Some? then
      var v := ValueLen(u[w + 1..]).value;
      Some(RawMatch(w + 1 + v, Some(u[..w]), u[w + 1..w + 1 + v]))
    else
      var v := ValueLen(u);
      if v.Some? then Some(RawMatch(v.value, None, u[..v.value])) else None
  }

  /** `\s*` with backtracking: `k` leading whitespace characters are tried
      first, then fewer. */
  function MatchFrom(s: string, k: nat): (r: Option<(nat, RawMatch)>)
    requires k <= |s|
    ensures r.Some? ==> r.value.0 <= k && 1 <= r.value.0 + r.value.1.len <= |s|
    decreases k
  {
    var t := TryAt(s[k..]);
    if t.Some? then Some((k, t.value)) else if k == 0 then None else MatchFrom(s, k - 1)
  }

  /** A list value loses its brackets. */
  function StripList(v: string): string {
    if |v| >= 2 && v[0] == '[' && v[|v| - 1] == ']' then v[1..|v| - 1] else v
  }

  /** The part a match yields, from the matched text and its groups. */
  function MakePart(matched: string, m: RawMatch): LinePart {
    LinePart(Trim(matched), m.tag, StripList(Trim(m.raw)))
  }

  /** The match of the whole expression at the start of `s`, if any: the
      number of characters it consumes and its groups. */
  function MatchAt(s: string): (r: Option<(nat, RawMatch)>)
    ensures r.Some? ==> 1 <= r.value.0 <= |s|
  {
    var f := MatchFrom(s, Span(s, IsWs));
    if f.None? then None else Some((f.value.0 + f.value.1.len, f.value.1))
  }

  /** All matches of the expression in `s`, left to right, as parts. Where no
      match starts, the search moves one character on. */
  function ParseLine(s: string): (r: seq<LinePart>)
    ensures |r| <= |s|
    decreases |s|
  {
    if |s| == 0 then []
    else
      var r := MatchAt(s);
      if r.Some? then [MakePart(s[..r.value.0], r.value.1)] + ParseLine(s[r.value.0..])
      else ParseLine(s[1..])
  }

  // ---------------------------------------------------------------------
  // The tokens the exporter writes, and how the tokenizer reads them back.

  /** A bare value, `label:value`, or `label:[list]`. */
  datatype Tok = Bare(t: string) | Tagged(tag: string, t: string) | TaggedList(tag: string, inner: string)

  predicate IsPlainChar(c: char) { IsAtomChar(c) && !IsWs(c) }

  /** A bare value with no whitespace, so that trimming leaves it alone. */
  predicate IsPlain(t: string) { |t| > 0 && All(t, IsPlainChar) }

  predicate ValidTok(tok: Tok) {
    match tok
    case Bare(t) => IsPlain(t)
    case Tagged(l, t) => IsWord(l) && IsPlain(t)
    case TaggedList(l, inner) => IsWord(l) && |inner| > 0 && ']' !in inner
  }

  function TokText(tok: Tok): string {
    match tok
    case Bare(t) => t
    case Tagged(l, t) => l + ":" + t
    case TaggedList(l, inner) => l + ":[" + inner + "]"
  }

  function TokPart(tok: Tok): LinePart {
    match tok
    case Bare(t) => LinePart(t, None, t)
    case Tagged(l, t) => LinePart(l + ":" + t, Some(l), t)
    case TaggedList(l, inner) => LinePart(l + ":[" + inner + "]", Some(l), inner)
  }

  /** What may follow a token: the end of the text or a separating space. */
  predicate Ends(rest: string) { rest == [] || rest[0] == ' ' }

  lemma WordIsNotWs(c: char)
    requires IsWordChar(c)
    ensures !IsWs(c) && IsPlainChar(c)
  {
  }

  /** A plain value is read as a bare value up to the next space. */
  lemma PlainValue(t: string, rest: string)
    requires IsPlain(t) && Ends(rest)
    ensures ValueLen(t + rest) == Some(|t|)
  {
    var s := t + rest;
    assert s[0] == t[0];
    SpanIs(s, IsAtomChar, |t|);
  }

  /** A closed non-empty list is read up to its closing bracket. */
  lemma ListValue(inner: string, rest: string)
    requires |inner| > 0 && ']' !in inner
    ensures ValueLen("[" + inner + "]" + rest) == Some(|inner| + 2)
  {
    var u := "[" + inner + "]" + rest;
    assert u[1..] == inner + "]" + rest;
    forall i | 0 <= i < |inner| ensures IsListChar(u[1..][i]) {
      assert u[1..][i] == inner[i];
    }
    SpanIs(u[1..], IsListChar, |inner|);
  }

  /** No label is seen in a plain value: its word run never meets a `:`. */
  lemma PlainHasNoLabel(t: string, rest: string)
    requires IsPlain(t) && Ends(rest)
    ensures TryAt(t + rest) == Some(RawMatch(|t|, None, t))
  {
    var s := t + rest;
    var w := Span(s, IsWordChar);
    SpanMeaning(s, IsWordChar);
    assert w <= |t| by {
      if |rest| > 0 { assert s[|t|] == ' '; }
    }
    assert w < |s| ==> s[w] != ':' by {
      if w < |t| { assert s[w] == t[w]; }
    }
    PlainValue(t, rest);
    assert s[..|t|] == t;
  }

  /** The labelled alternative, once its pieces are known. */
  lemma TryAtTagged(u: string, w: nat, v: nat)
    requires w == Span(u, IsWordChar) && 0 < w < |u| && u[w] == ':'
    requires ValueLen(u[w + 1..]) == Some(v)
    ensures TryAt(u) == Some(RawMatch(w + 1 + v, Some(u[..w]), u[w + 1..w + 1 + v]))
  {
  }

  /** A label can be read at `i`: a `\w+` word up to a `:` at `i`, and after
      the `:` something the value group matches. */
  predicate LabelledAt(u: string, i: int) {
    0 < i < |u| && u[i] == ':' && All(u[..i], IsWordChar) && ValueLen(u[i + 1..]).Some?
  }

  /** The optional label is tried first: whenever a word, a `:` and a value
      follow one another at the start, they are the match, with the word as
      its label; otherwise the value group alone is, without a label. Any
      label is a `\w+` word. */
  lemma TryAtMeaning(u: string)
    ensures var r := TryAt(u);
      && (r.Some? ==> LabelOk(r.value.tag))
      && (forall i :: LabelledAt(u, i) ==>
            var v := ValueLen(u[i + 1..]).value;
            r == Some(RawMatch(i + 1 + v, Some(u[..i]), u[i + 1..i + 1 + v])))
      && ((forall i :: !LabelledAt(u, i)) ==>
            r == if ValueLen(u).Some? then Some(RawMatch(ValueLen(u).value, None, u[..ValueLen(u).value])) else None)
  {
    var w := Span(u, IsWordChar);
    SpanMeaning(u, IsWordChar);
    forall i | LabelledAt(u, i) ensures i == w {
      forall j | 0 <= j < i ensures IsWordChar(u[j]) {
        assert u[..i][j] == u[j];
      }
      SpanIs(u, IsWordChar, i);
    }
    if 0 < w < |u| && u[w] == ':' && ValueLen(u[w + 1..]).Some? {
      assert All(u[..w], IsWordChar) by {
        forall j | 0 <= j < w ensures IsWordChar(u[..w][j]) {
          assert u[..w][j] == u[j];
        }
      }
      assert LabelledAt(u, w);
    }
  }

  /** A word, a colon and a value the value group reads whole. */
  lemma TaggedAt(l: string, v: string, rest: string)
    requires IsWord(l) && ValueLen(v + rest) == Some(|v|)
    ensures TryAt(l + ":" + v + rest) == Some(RawMatch(|l| + 1 + |v|, Some(l), v))
  {
    var s := l + ":" + v + rest;
    assert s[|l|] == ':';
    assert forall i :: 0 <= i < |l| ==> s[i] == l[i];
    SpanIs(s, IsWordChar, |l|);
    Infix(l + ":", v, rest);
    assert s[..|l|] == l;
    TryAtTagged(s, |l|, |v|);
  }

  lemma TaggedMatch(l: string, t: string, rest: string)
    requires IsWord(l) && IsPlain(t) && Ends(rest)
    ensures TryAt(l + ":" + t + rest) == Some(RawMatch(|l| + 1 + |t|, Some(l), t))
  {
    PlainValue(t, rest);
    TaggedAt(l, t, rest);
  }

  lemma TaggedListMatch(l: string, inner: string, rest: string)
    requires IsWord(l) && |inner| > 0 && ']' !in inner
    ensures TryAt(l + ":[" + inner + "]" + rest) == Some(RawMatch(|l| + 3 + |inner|, Some(l), "[" + inner + "]"))
  {
    var list := "[" + inner + "]";
    ListValue(inner, rest);
    TaggedAt(l, list, rest);
    assert l + ":" + list + rest == l + ":[" + inner + "]" + rest;
  }

  lemma MatchFromStart(s: string, m: RawMatch)
    requires |s| > 0 && TryAt(s) == Some(m)
    ensures MatchFrom(s, 0) == Some((0, m))
  {
    assert s[0..] == s;
  }

  lemma MatchAtFrom(s: string, k: nat, m: RawMatch)
    requires MatchFrom(s, Span(s, IsWs)) == Some((k, m))
    ensures MatchAt(s) == Some((k + m.len, m))
  {
  }

  /** When `s` starts with a non-space character, its match starts there. */
  lemma MatchAtNoWs(s: string, m: RawMatch)
    requires |s| > 0 && !IsWs(s[0]) && TryAt(s) == Some(m)
    ensures MatchAt(s) == Some((m.len, m))
  {
    SpanIs(s, IsWs, 0);
    MatchFromStart(s, m);
    MatchAtFrom(s, 0, m);
  }

  lemma TrimList(inner: string)
    ensures Trim("[" + inner + "]") == "[" + inner + "]"
    ensures StripList("[" + inner + "]") == inner
  {
    var raw := "[" + inner + "]";
    assert raw[0] == '[' && raw[|raw| - 1] == ']';
    assert raw[1..|raw| - 1] == inner;
    TrimKeeps(raw);
  }

  lemma TrimWordStart(l: string, t: string)
    requires IsWord(l) && |t| > 0 && !IsWs(t[|t| - 1])
    ensures Trim(l + t) == l + t
  {
    WordIsNotWs(l[0]);
    assert (l + t)[0] == l[0];
    assert (l + t)[|l + t| - 1] == t[|t| - 1];
    TrimKeeps(l + t);
  }

  lemma PartBare(t: string, n: nat)
    requires IsPlain(t)
    ensures MakePart(t, RawMatch(n, None, t)) == LinePart(t, None, t)
  {
    TrimKeeps(t);
  }

  lemma PartTagged(l: string, t: string, n: nat)
    requires IsWord(l) && IsPlain(t)
    ensures MakePart(l + ":" + t, RawMatch(n, Some(l), t)) == LinePart(l + ":" + t, Some(l), t)
  {
    TrimWordStart(l, ":" + t);
    assert l + (":" + t) == l + ":" + t;
    TrimKeeps(t);
  }

  lemma PartList(l: string, inner: string, n: nat)
    requires IsWord(l)
    ensures MakePart(l + ":[" + inner + "]", RawMatch(n, Some(l), "[" + inner + "]"))
         == LinePart(l + ":[" + inner + "]", Some(l), inner)
  {
    TrimWordStart(l, ":[" + inner + "]");
    assert l + (":[" + inner + "]") == l + ":[" + inner + "]";
    TrimList(inner);
  }

  /** The groups the expression yields for a written token. */
  function TokRaw(tok: Tok): RawMatch {
    match tok
    case Bare(t) => RawMatch(|t|, None, t)
    case Tagged(l, t) => RawMatch(|l| + 1 + |t|, Some(l), t)
    case TaggedList(l, inner) => RawMatch(|l| + 3 + |inner|, Some(l), "[" + inner + "]")
  }

  /** The label-and-value groups read a written token whole. */
  lemma TryTok(tok: Tok, rest: string)
    requires ValidTok(tok) && Ends(rest)
    ensures TryAt(TokText(tok) + rest) == Some(TokRaw(tok))
  {
    match tok
    case Bare(t) =>
      assert TokText(tok) == t && TokRaw(tok) == RawMatch(|t|, None, t);
      PlainHasNoLabel(t, rest);
    case Tagged(l, t) =>
      assert TokText(tok) == l + ":" + t && TokRaw(tok) == RawMatch(|l| + 1 + |t|, Some(l), t);
      TaggedMatch(l, t, rest);
    case TaggedList(l, inner) =>
      assert TokText(tok) == l + ":[" + inner + "]" && TokRaw(tok) == RawMatch(|l| + 3 + |inner|, Some(l), "[" + inner + "]");
      TaggedListMatch(l, inner, rest);
  }

  /** A written token is matched whole, with the groups `TokRaw` names. */
  lemma MatchTok(tok: Tok, rest: string)
    requires ValidTok(tok) && Ends(rest)
    ensures MatchAt(TokText(tok) + rest) == Some((|TokText(tok)|, TokRaw(tok)))
  {
    var x := TokText(tok) + rest;
    TryTok(tok, rest);
    TokStart(tok);
    assert x[0] == TokText(tok)[0];
    MatchAtNoWs(x, TokRaw(tok));
  }

  /** The groups of a written token make its part. */
  lemma PartTok(tok: Tok)
    requires ValidTok(tok)
    ensures MakePart(TokText(tok), TokRaw(tok)) == TokPart(tok)
  {
    match tok
    case Bare(t) => PartBare(t, |t|);
    case Tagged(l, t) => PartTagged(l, t, |l| + 1 + |t|);
    case TaggedList(l, inner) => PartList(l, inner, |l| + 3 + |inner|);
  }

  /** One step of the scan: a match, then the scan of what follows it. */
  lemma ParseLineStep(s: string, n: nat, m: RawMatch)
    requires MatchAt(s) == Some((n, m))
    ensures ParseLine(s) == [MakePart(s[..n], m)] + ParseLine(s[n..])
  {
  }

  /** Reading a written token and what follows it. */
  lemma ParseTok(tok: Tok, rest: string)
    requires ValidTok(tok) && Ends(rest)
    ensures ParseLine(TokText(tok) + rest) == [TokPart(tok)] + ParseLine(rest)
  {
    var x := TokText(tok) + rest;
    MatchTok(tok, rest);
    ParseLineStep(x, |TokText(tok)|, TokRaw(tok));
    Infix(TokText(tok), rest, "");
    assert x[..|TokText(tok)|] == TokText(tok);
    assert x[|TokText(tok)|..] == rest;
    PartTok(tok);
  }

  /** Text whose match starts at its first character. */
  lemma TryAtOfMatch(s: string)
    requires |s| > 0 && !IsWs(s[0]) && MatchAt(s).Some?
    ensures TryAt(s).Some?
  {
    SpanIs(s, IsWs, 0);
    assert s[0..] == s;
  }

  /** A space in front of such text is absorbed by the same match. */
  lemma MatchAtSpace(s: string, m: RawMatch)
    requires |s| > 0 && !IsWs(s[0]) && TryAt(s) == Some(m)
    ensures MatchAt(" " + s) == Some((1 + m.len, m))
  {
    var ss := " " + s;
    SpanIs(ss, IsWs, 1);
    assert ss[1..] == s;
    assert MatchFrom(ss, 1) == Some((1, m));
    MatchAtFrom(ss, 1, m);
  }

  /** Leading whitespace in the matched text is trimmed away. */
  lemma MakePartSpace(x: string, m: RawMatch)
    ensures MakePart([' '] + x, m) == MakePart(x, m)
  {
    TrimSkipsLeading(' ', x);
  }

  lemma SpaceSlices(s: string, n: nat)
    requires n <= |s|
    ensures (" " + s)[1 + n..] == s[n..]
    ensures (" " + s)[..1 + n] == [' '] + s[..n]
  {
  }

  lemma ParseAfterSpace(s: string, m: RawMatch)
    requires |s| > 0 && !IsWs(s[0]) && TryAt(s) == Some(m)
    ensures ParseLine(" " + s) == [MakePart(s[..m.len], m)] + ParseLine(s[m.len..])
  {
    MatchAtSpace(s, m);
    ParseLineStep(" " + s, 1 + m.len, m);
    SpaceSlices(s, m.len);
    MakePartSpace(s[..m.len], m);
  }

  /** A separating space before a token is consumed by the token's match. */
  lemma ParseSpace(s: string)
    requires |s| > 0 && !IsWs(s[0]) && MatchAt(s).Some?
    ensures ParseLine(" " + s) == ParseLine(s)
  {
    TryAtOfMatch(s);
    var m := TryAt(s).value;
    MatchAtNoWs(s, m);
    ParseLineStep(s, m.len, m);
    ParseAfterSpace(s, m);
  }

  /** The first character of a written token. */
  lemma TokStart(tok: Tok)
    requires ValidTok(tok)
    ensures |TokText(tok)| > 0 && !IsWs(TokText(tok)[0])
  {
    match tok
    case Bare(t) =>
    case Tagged(l, t) => WordIsNotWs(l[0]);
    case TaggedList(l, inner) => WordIsNotWs(l[0]);
  }

  /** A space and then a written token, and what follows it. */
  lemma ParseSpaceTok(tok: Tok, rest: string)
    requires ValidTok(tok) && Ends(rest)
    ensures ParseLine(" " + TokText(tok) + rest) == [TokPart(tok)] + ParseLine(rest)
  {
    var s := TokText(tok) + rest;
    MatchTok(tok, rest);
    TokStart(tok);
    assert s[0] == TokText(tok)[0];
    assert " " + TokText(tok) + rest == " " + s;
    ParseSpace(s);
    ParseTok(tok, rest);
  }

  /** Tokens each preceded by a space. */
  function SpaceToks(ts: seq<Tok>): string {
    if |ts| == 0 then "" else " " + TokText(ts[0]) + SpaceToks(ts[1..])
  }

  predicate AllValid(ts: seq<Tok>) {
    forall k :: 0 <= k < |ts| ==> ValidTok(ts[k])
  }

  /** Space-separated written tokens are read back one part each, in order. */
  lemma {:induction false} ParseSpaceToks(ts: seq<Tok>)
    requires AllValid(ts)
    ensures ParseLine(SpaceToks(ts)) == Map(ts, TokPart)
  {
    if |ts| > 0 {
      var rest := SpaceToks(ts[1..]);
      assert ValidTok(ts[0]);
      assert AllValid(ts[1..]) by {
        forall k | 0 <= k < |ts[1..]| ensures ValidTok(ts[1..][k]) { assert ts[1..][k] == ts[k + 1]; }
      }
      ParseSpaceToks(ts[1..]);
      assert Ends(rest);
      ParseSpaceTok(ts[0], rest);
      assert Map(ts, TokPart) == [TokPart(ts[0])] + Map(ts[1..], TokPart);
    }
  }

  /** A line of written tokens separated by single spaces. */
  lemma ParseToks(t0: Tok, ts: seq<Tok>)
    requires ValidTok(t0) && AllValid(ts)
    ensures ParseLine(TokText(t0) + SpaceToks(ts)) == [TokPart(t0)] + Map(ts, TokPart)
  {
    assert Ends(SpaceToks(ts));
    ParseTok(t0, SpaceToks(ts));
    ParseSpaceToks(ts);
  }

  /** What is left of `ns:[]` after `ns` matches nothing. */
  lemma EmptyListTail()
    ensures ParseLine(":[]") == []
  {
    SpanIs(":[]", IsWs, 0);
    SpanIs(":[]", IsWordChar, 0);
    assert MatchAt(":[]") == None;
    assert ":[]"[1..] == "[]";
    SpanIs("[]", IsWs, 0);
    SpanIs("[]", IsWordChar, 0);
    assert MatchAt("[]") == None;
    assert "[]"[1..] == "]";
    SpanIs("]", IsWs, 0);
    SpanIs("]", IsWordChar, 0);
    assert MatchAt("]") == None;
    assert "]"[1..] == "";
  }

  /** An empty list `ns:[]` does not match as a labelled list: the value
      group fails on `[]`, so the label is given up and `ns` is read alone. */
  lemma EmptyListMatch(l: string)
    requires IsWord(l)
    ensures MatchAt(l + ":[]") == Some((|l|, RawMatch(|l|, None, l)))
  {
    var s := l + ":[]";
    assert s[|l|] == ':';
    SpanIs(s, IsWordChar, |l|);
    assert s[|l| + 1..] == "[]";
    assert ValueLen("[]") == None;
    forall i | 0 <= i < |l| ensures IsAtomChar(s[i]) {
      assert s[i] == l[i];
      WordIsNotWs(l[i]);
    }
    SpanIs(s, IsAtomChar, |l|);
    assert s[..|l|] == l;
    WordIsNotWs(l[0]);
    MatchAtNoWs(s, RawMatch(|l|, None, l));
  }

  /** So `ns:[]` reads as the single bare value `ns`. */
  lemma EmptyListIsBare(l: string)
    requires IsWord(l)
    ensures ParseLine(l + ":[]") == [LinePart(l, None, l)]
  {
    var s := l + ":[]";
    EmptyListMatch(l);
    ParseLineStep(s, |l|, RawMatch(|l|, None, l));
    assert s[..|l|] == l;
    assert s[|l|..] == ":[]";
    WordIsNotWs(l[0]);
    WordIsNotWs(l[|l| - 1]);
    TrimKeeps(l);
    EmptyListTail();
  }
}
