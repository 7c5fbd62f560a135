/**
 * String primitives the wire-schema codec is built from, with the
 * JavaScript semantics the importer relies on: the `\s` and `\w`
 * character classes, `String.prototype.trim`, `startsWith`, and
 * `split`/`join` on a one-character separator.
 */
module Text {

  datatype Option<+T> = None | Some(value: T)

  /** JavaScript's `\s` class; `trim` strips exactly these characters. */
  predicate IsWs(c: char) {
    || c == ' ' || c == '\t' || c == '\n' || c == '\r'
    || c == '\U{000B}' || c == '\U{000C}' || c == '\U{00A0}' || c == '\U{1680}'
    || ('\U{2000}' <= c <= '\U{200A}')
    || c == '\U{2028}' || c == '\U{2029}' || c == '\U{202F}' || c == '\U{205F}'
    || c == '\U{3000}' || c == '\U{FEFF}'
  }

  /** JavaScript's `\w` class. */
  predicate IsWordChar(c: char) {
    ('a' <= c <= 'z') || ('A' <= c <= 'Z') || ('0' <= c <= '9') || c == '_'
  }

  predicate All(s: string, p: char -> bool) {
    forall i :: 0 <= i < |s| ==> p(s[i])
  }

  lemma AllConcat(a: string, b: string, p: char -> bool)
    ensures All(a + b, p) <==> All(a, p) && All(b, p)
  {
    if All(a, p) && All(b, p) {
      forall i | 0 <= i < |a + b| ensures p((a + b)[i]) {
        if i >= |a| { assert (a + b)[i] == b[i - |a|]; }
      }
    }
    if All(a + b, p) {
      forall i | 0 <= i < |a| ensures p(a[i]) { assert (a + b)[i] == a[i]; }
      forall i | 0 <= i < |b| ensures p(b[i]) { assert (a + b)[|a| + i] == b[i]; }
    }
  }

  lemma NotInAll(s: string, p: char -> bool, c: char)
    requires All(s, p) && !p(c)
    ensures c !in s
  {
  }

  /** The middle piece of a concatenation, cut out again. */
  lemma Infix(a: string, b: string, c: string)
    ensures (a + b + c)[|a|..|a| + |b|] == b
    ensures (a + b + c)[..|a|] == a
    ensures (a + b + c)[|a|..] == b + c
  {
  }

  /** Length of the longest prefix of `s` whose characters all satisfy `p`. */
  function Span(s: string, p: char -> bool): (n: nat)
    ensures n <= |s|
  {
    if |s| > 0 && p(s[0]) then 1 + Span(s[1..], p) else 0
  }

  /** `Span` is the longest such prefix: all of it satisfies `p`, the next character does not. */
  lemma {:induction false} SpanMeaning(s: string, p: char -> bool)
    ensures forall i :: 0 <= i < Span(s, p) ==> p(s[i])
    ensures Span(s, p) < |s| ==> !p(s[Span(s, p)])
  {
    if |s| > 0 && p(s[0]) {
      SpanMeaning(s[1..], p);
      forall i | 1 <= i < Span(s, p) ensures p(s[i]) {
        assert s[i] == s[1..][i - 1];
      }
      if Span(s, p) < |s| {
        assert s[Span(s, p)] == s[1..][Span(s[1..], p)];
      }
    }
  }

  /** The maximal-prefix property determines `Span` uniquely. */
  lemma {:induction false} SpanIs(s: string, p: char -> bool, n: nat)
    requires n <= |s|
    requires forall i :: 0 <= i < n ==> p(s[i])
    requires n < |s| ==> !p(s[n])
    ensures Span(s, p) == n
  {
    if n > 0 {
      assert p(s[0]);
      forall i | 0 <= i < n - 1 ensures p(s[1..][i]) {
        assert s[1..][i] == s[i + 1];
      }
      if n - 1 < |s| - 1 { assert s[1..][n - 1] == s[n]; }
      SpanIs(s[1..], p, n - 1);
    }
  }

  predicate StartsWith(s: string, prefix: string) {
    |prefix| <= |s| && s[..|prefix|] == prefix
  }

  /** `s` without its leading whitespace. */
  function TrimStart(s: string): (r: string)
    ensures |r| <= |s|
  {
    s[Span(s, IsWs)..]
  }

  /** `s` without its trailing whitespace. */
  function TrimEnd(s: string): (r: string)
    ensures |r| <= |s|
  {
    if |s| > 0 && IsWs(s[|s| - 1]) then TrimEnd(s[..|s| - 1]) else s
  }

  /** JavaScript's `trim`: drops whitespace at both ends and nothing else. */
  function Trim(s: string): (r: string)
    ensures |r| <= |s|
  {
    TrimEnd(TrimStart(s))
  }

  lemma TrimStartMeaning(s: string)
    ensures var r := TrimStart(s);
      && r == s[|s| - |r|..]
      && (|r| > 0 ==> !IsWs(r[0]))
      && (forall i :: 0 <= i < |s| - |r| ==> IsWs(s[i]))
  {
    SpanMeaning(s, IsWs);
  }

  lemma {:induction false} TrimEndMeaning(s: string)
    ensures var r := TrimEnd(s);
      && r == s[..|r|]
      && (|r| > 0 ==> !IsWs(r[|r| - 1]))
      && (forall i :: |r| <= i < |s| ==> IsWs(s[i]))
  {
    if |s| > 0 && IsWs(s[|s| - 1]) {
      TrimEndMeaning(s[..|s| - 1]);
    }
  }

  /** What `trim` keeps: no whitespace at either end of the result, the whole
      string when it has none there, and nothing when it is all whitespace. */
  lemma TrimMeaning(s: string)
    ensures var r := Trim(s);
      && (|r| > 0 ==> !IsWs(r[0]) && !IsWs(r[|r| - 1]))
      && (|s| > 0 && !IsWs(s[0]) && !IsWs(s[|s| - 1]) ==> r == s)
      && (|r| == 0 <==> All(s, IsWs))
  {
    var t := TrimStart(s);
    TrimStartMeaning(s);
    TrimEndMeaning(t);
    var r := Trim(s);
    if |s| > 0 && !IsWs(s[0]) {
      assert Span(s, IsWs) == 0;
      assert t == s;
    }
    if |r| > 0 {
      assert r[0] == t[0];
    }
    if |r| == 0 {
      assert |t| == 0;
    }
  }

  /** A string with no whitespace at either end is its own trim. */
  lemma TrimKeeps(s: string)
    requires |s| > 0 && !IsWs(s[0]) && !IsWs(s[|s| - 1])
    ensures Trim(s) == s
  {
    TrimMeaning(s);
  }

  /** Leading whitespace never survives trimming. */
  lemma {:induction false} TrimSkipsLeading(w: char, s: string)
    requires IsWs(w)
    ensures Trim([w] + s) == Trim(s)
  {
    var ws := [w] + s;
    assert ws[1..] == s;
    assert Span(ws, IsWs) == 1 + Span(s, IsWs);
    assert ws[1 + Span(s, IsWs)..] == s[Span(s, IsWs)..];
    assert TrimStart(ws) == TrimStart(s);
  }

  /** Applies `f` to every element, keeping the order. */
  function Map<A, B>(xs: seq<A>, f: A -> B): (r: seq<B>)
    ensures |r| == |xs|
    ensures forall k :: 0 <= k < |xs| ==> r[k] == f(xs[k])
  {
    if |xs| == 0 then [] else [f(xs[0])] + Map(xs[1..], f)
  }

  lemma {:induction false} MapAppend<A, B>(xs: seq<A>, ys: seq<A>, f: A -> B)
    ensures Map(xs + ys, f) == Map(xs, f) + Map(ys, f)
  {
    if |xs| == 0 {
      assert xs + ys == ys;
    } else {
      assert (xs + ys)[1..] == xs[1..] + ys;
      assert (xs + ys)[0] == xs[0];
      MapAppend(xs[1..], ys, f);
    }
  }

  /** JavaScript's `split` on a one-character separator: the pieces between
      separators, so `k` separators give `k + 1` pieces. */
  function Split(s: string, sep: char): (r: seq<string>)
    ensures |r| >= 1
    ensures forall k :: 0 <= k < |r| ==> sep !in r[k]
  {
    if |s| == 0 then [""]
    else
      var rest := Split(s[1..], sep);
      if s[0] == sep then [""] + rest
      else [[s[0]] + rest[0]] + rest[1..]
  }

  /** JavaScript's `join` on a one-character separator. */
  function Join(ps: seq<string>, sep: char): (r: string)
    requires |ps| >= 1
  {
    if |ps| == 1 then ps[0] else ps[0] + [sep] + Join(ps[1..], sep)
  }

  /** Joining pieces that lack `c` with a separator other than `c` gives a string without `c`. */
  lemma {:induction false} JoinHasNo(ps: seq<string>, sep: char, c: char)
    requires |ps| >= 1 && c != sep
    requires forall k :: 0 <= k < |ps| ==> c !in ps[k]
    ensures c !in Join(ps, sep)
  {
    if |ps| > 1 {
      JoinHasNo(ps[1..], sep, c);
    }
  }

  /** Concatenation grouped from the right. */
  lemma Assoc<T>(a: seq<T>, b: seq<T>, c: seq<T>)
    ensures a + b + c == a + (b + c)
  {
  }

  /** The head and tail of a sequence with one element in front. */
  lemma ConsParts<T>(x: T, xs: seq<T>)
    ensures ([x] + xs)[0] == x && ([x] + xs)[1..] == xs
  {
  }

  /** A first element, two runs and a last element, grouped from the right. */
  lemma Regroup<T>(h: T, a: seq<T>, b: seq<T>, z: T)
    ensures [h] + a + b + [z] == [h] + (a + (b + [z]))
  {
  }

  /** Every piece followed by `sep`: how a file of terminated lines is laid out. */
  function Terminated(ps: seq<string>, sep: char): string {
    if |ps| == 0 then "" else ps[0] + [sep] + Terminated(ps[1..], sep)
  }

  /** Splitting terminated pieces gives the pieces back, then whatever follows. */
  lemma {:induction false} SplitTerminated(ps: seq<string>, sep: char, tail: string)
    requires forall k :: 0 <= k < |ps| ==> sep !in ps[k]
    ensures Split(Terminated(ps, sep) + tail, sep) == ps + Split(tail, sep)
  {
    if |ps| > 0 {
      SplitTerminated(ps[1..], sep, tail);
      assert Terminated(ps, sep) + tail == ps[0] + [sep] + (Terminated(ps[1..], sep) + tail);
      SplitAt(ps[0], Terminated(ps[1..], sep) + tail, sep);
      assert ps == [ps[0]] + ps[1..];
    } else {
      assert Terminated(ps, sep) + tail == tail;
    }
  }

  /** A separator-free prefix is glued onto the first piece. */
  lemma {:induction false} SplitPrefix(a: string, b: string, sep: char)
    requires sep !in a
    ensures Split(a + b, sep) == [a + Split(b, sep)[0]] + Split(b, sep)[1..]
  {
    if |a| > 0 {
      assert (a + b)[1..] == a[1..] + b;
      SplitPrefix(a[1..], b, sep);
      assert [a[0]] + (a[1..] + Split(b, sep)[0]) == a + Split(b, sep)[0];
    } else {
      assert a + b == b;
      assert a + Split(b, sep)[0] == Split(b, sep)[0];
    }
  }

  lemma SplitNoSep(a: string, sep: char)
    requires sep !in a
    ensures Split(a, sep) == [a]
  {
    SplitPrefix(a, "", sep);
    assert a + "" == a;
  }

  /** Splitting `a + sep + b` yields `a` followed by the pieces of `b`. */
  lemma SplitAt(a: string, b: string, sep: char)
    requires sep !in a
    ensures Split(a + [sep] + b, sep) == [a] + Split(b, sep)
  {
    assert a + [sep] + b == a + ([sep] + b);
    SplitPrefix(a, [sep] + b, sep);
    assert ([sep] + b)[1..] == b;
    assert Split([sep] + b, sep) == [""] + Split(b, sep);
    assert a + "" == a;
  }

  /** `split` undoes `join` when no piece holds the separator. */
  lemma {:induction false} SplitJoin(ps: seq<string>, sep: char)
    requires |ps| >= 1
    requires forall k :: 0 <= k < |ps| ==> sep !in ps[k]
    ensures Split(Join(ps, sep), sep) == ps
  {
    if |ps| == 1 {
      SplitNoSep(ps[0], sep);
    } else {
      SplitJoin(ps[1..], sep);
      SplitAt(ps[0], Join(ps[1..], sep), sep);
      assert [ps[0]] + ps[1..] == ps;
    }
  }

  /** `join` undoes `split`, whatever the input. */
  lemma {:induction false} JoinSplit(s: string, sep: char)
    ensures Join(Split(s, sep), sep) == s
  {
    if |s| > 0 {
      var rest := Split(s[1..], sep);
      JoinSplit(s[1..], sep);
      if s[0] == sep {
        assert Split(s, sep) == [""] + rest;
        assert ([""] + rest)[1..] == rest;
        assert s == [sep] + s[1..];
      } else {
        var r := Split(s, sep);
        assert r == [[s[0]] + rest[0]] + rest[1..];
        if |rest| == 1 {
          assert s == [s[0]] + s[1..];
        } else {
          assert r[1..] == rest[1..];
          assert Join(rest, sep) == rest[0] + [sep] + Join(rest[1..], sep);
          assert s == [s[0]] + s[1..];
        }
      }
    }
  }
}
