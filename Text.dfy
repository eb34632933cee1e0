/**
 * The JavaScript string primitives the core relies on: `\s` / `trim()`
 * whitespace, `split` on a one-character separator, `join`, and a global
 * one-character `replace`.
 */
module Text {

  /** The ECMAScript WhiteSpace and LineTerminator code points: the set that
      both the regular-expression class `\s` and `String.prototype.trim` use. */
  predicate IsWs(c: char) {
    || c == '\t' || c == '\n' || c == '\U{B}' || c == '\U{C}' || c == '\r' || c == ' '
    || c == '\U{A0}' || c == '\U{1680}' || ('\U{2000}' <= c <= '\U{200A}')
    || c == '\U{2028}' || c == '\U{2029}' || c == '\U{202F}' || c == '\U{205F}'
    || c == '\U{3000}' || c == '\U{FEFF}'
  }

  /** No whitespace at either end: what `trim()` returns. */
  predicate IsTrimmed(s: string) {
    s == [] || (!IsWs(s[0]) && !IsWs(s[|s| - 1]))
  }

  /** Number of occurrences of `c` in `s`. */
  function Count(s: string, c: char): (n: nat)
    ensures n <= |s|
  {
    if s == [] then 0
    else (if s[0] == c then 1 else 0) + Count(s[1..], c)
  }

  /** No occurrence, count zero. */
  lemma {:induction false} CountZero(s: string, c: char)
    ensures Count(s, c) == 0 <==> c !in s
  {
    if s != [] {
      assert s == [s[0]] + s[1..];
      CountZero(s[1..], c);
    }
  }

  lemma {:induction false} CountAppend(a: string, b: string, c: char)
    ensures Count(a + b, c) == Count(a, c) + Count(b, c)
  {
    if a == [] {
      assert a + b == b;
    } else {
      assert (a + b)[1..] == a[1..] + b;
      CountAppend(a[1..], b, c);
    }
  }

  /** `s.split(sep)` for a one-character separator: the pieces between the
      separators, so always one more piece than there are separators, and
      the empty string splits into `[""]`. */
  function Split(s: string, sep: char): (parts: seq<string>)
    ensures |parts| == Count(s, sep) + 1
    ensures forall i :: 0 <= i < |parts| ==> sep !in parts[i]
  {
    if s == [] then [""]
    else
      var rest := Split(s[1..], sep);
      if s[0] == sep then [""] + rest
      else [[s[0]] + rest[0]] + rest[1..]
  }

  /** `parts.join(sep)`; `[].join(sep)` is the empty string. */
  function Join(parts: seq<string>, sep: string): string {
    if |parts| == 0 then ""
    else if |parts| == 1 then parts[0]
    else parts[0] + sep + Join(parts[1..], sep)
  }

  /** `s.replace(/c/g, rep)` for a single character `c`. */
  function Replace(s: string, c: char, rep: string): (r: string)
    ensures c !in rep ==> c !in r
  {
    if s == [] then ""
    else (if s[0] == c then rep else [s[0]]) + Replace(s[1..], c, rep)
  }

  /** `s.trimStart()`: drops the longest all-whitespace prefix. */
  function TrimStart(s: string): (r: string)
    ensures |r| <= |s| && r == s[|s| - |r|..]
    ensures forall i :: 0 <= i < |s| - |r| ==> IsWs(s[i])
    ensures r == [] || !IsWs(r[0])
  {
    if s != [] && IsWs(s[0]) then
      var r := TrimStart(s[1..]);
      assert forall i :: 1 <= i < |s| - |r| ==> s[i] == s[1..][i - 1];
      r
    else
      s
  }

  /** `s.trimEnd()`: drops the longest all-whitespace suffix. */
  function TrimEnd(s: string): (r: string)
    ensures |r| <= |s| && r == s[..|r|]
    ensures forall i :: |r| <= i < |s| ==> IsWs(s[i])
    ensures r == [] || !IsWs(r[|r| - 1])
  {
    if s != [] && IsWs(s[|s| - 1]) then TrimEnd(s[..|s| - 1]) else s
  }

  /** `r` is `s` from index `a` on, with only white space before it and
      after it. */
  predicate StripsTo(s: string, a: int, r: string) {
    && 0 <= a <= |s| - |r|
    && r == s[a..a + |r|]
    && (forall i :: 0 <= i < a ==> IsWs(s[i]))
    && (forall i :: a + |r| <= i < |s| ==> IsWs(s[i]))
  }

  /** `s.trim()`. The result has no whitespace at either end, and an
      already trimmed string is left alone (so trimming is idempotent);
      `TrimStripsEnds` shows it is `s` less its white-space ends. */
  function Trim(s: string): (r: string)
    ensures |r| <= |s| && IsTrimmed(r)
    ensures IsTrimmed(s) ==> r == s
  {
    var u := TrimStart(s);
    var r := TrimEnd(u);
    assert r != [] ==> r[0] == u[0];
    r
  }

  /** Trimming removes white space from the two ends and nothing else: the
      result is a slice of `s` with only white space before and after it. */
  lemma TrimStripsEnds(s: string)
    ensures exists a :: StripsTo(s, a, Trim(s))
  {
    var u := TrimStart(s);
    var r := TrimEnd(u);
    assert Trim(s) == r;
    var a := |s| - |u|;
    assert r == s[a..a + |r|];
    assert forall i :: a + |r| <= i < |s| ==> s[i] == u[i - a];
    assert StripsTo(s, a, r);
  }

  /** A line trims to the empty string exactly when it is all whitespace. */
  lemma TrimIsEmptyIff(s: string)
    ensures Trim(s) == [] <==> forall i :: 0 <= i < |s| ==> IsWs(s[i])
  {
    var u := TrimStart(s);
    assert forall i :: 0 <= i < |u| ==> u[i] == s[|s| - |u| + i];
  }

  /** Trimming only removes characters: one absent from `s` is absent from
      the result. */
  lemma TrimAddsNothing(s: string, c: char)
    requires c !in s
    ensures c !in Trim(s)
  {
    TrimStripsEnds(s);
    var r := Trim(s);
    var a :| StripsTo(s, a, r);
    assert forall i :: 0 <= i < |r| ==> r[i] == s[a + i];
  }

  /** Splitting and joining again with the same separator gives back the
      string, and more generally joining the pieces with `rep` is the global
      replacement of the separator by `rep`. */
  lemma {:induction false} JoinSplitIsReplace(s: string, c: char, rep: string)
    ensures Join(Split(s, c), rep) == Replace(s, c, rep)
  {
    if s != [] {
      var rest := Split(s[1..], c);
      JoinSplitIsReplace(s[1..], c, rep);
      if s[0] == c {
        assert ([""] + rest)[1..] == rest;
      } else {
        var parts := [[s[0]] + rest[0]] + rest[1..];
        if |rest| > 1 {
          assert parts[1..] == rest[1..];
        }
      }
    }
  }

  lemma {:induction false} ReplaceBySelf(s: string, c: char)
    ensures Replace(s, c, [c]) == s
  {
    if s != [] {
      ReplaceBySelf(s[1..], c);
      assert s == [s[0]] + s[1..];
    }
  }

  /** `s.split(c).join(c) == s`. */
  lemma JoinSplit(s: string, c: char)
    ensures Join(Split(s, c), [c]) == s
  {
    JoinSplitIsReplace(s, c, [c]);
    ReplaceBySelf(s, c);
  }

  /** A separator-free string is a single piece. */
  lemma {:induction false} SplitNoSeparator(a: string, c: char)
    requires c !in a
    ensures Split(a, c) == [a]
  {
    if a != [] {
      assert a == [a[0]] + a[1..];
      SplitNoSeparator(a[1..], c);
      SplitAtOther(a[0], a[1..], c);
    }
  }

  /** Splitting is a homomorphism over a separator: the pieces of
      `a + c + b` are the pieces of `a` followed by the pieces of `b`. */
  lemma {:induction false} SplitConcat(a: string, b: string, c: char)
    ensures Split(a + [c] + b, c) == Split(a, c) + Split(b, c)
  {
    if a == [] {
      assert a + [c] + b == [c] + b;
      SplitAtSeparator(b, c);
    } else {
      var s, t := a + [c] + b, a[1..] + [c] + b;
      assert s[0] == a[0] && s[1..] == t;
      SplitConcat(a[1..], b, c);
      var x, y := Split(a[1..], c), Split(b, c);
      if a[0] == c {
        assert Split(s, c) == [""] + Split(t, c);
        assert Split(a, c) == [""] + x;
      } else {
        assert Split(s, c) == [[a[0]] + Split(t, c)[0]] + Split(t, c)[1..];
        assert Split(a, c) == [[a[0]] + x[0]] + x[1..];
        ConsHead(a[0], x, y);
      }
    }
  }

  /** One unfolding of `Split` on a string that starts with the separator. */
  lemma SplitAtSeparator(t: string, c: char)
    ensures Split([c] + t, c) == [""] + Split(t, c)
  {
    assert ([c] + t)[1..] == t;
  }

  /** One unfolding of `Split` on a string that starts with another character. */
  lemma SplitAtOther(h: char, t: string, c: char)
    requires h != c
    ensures Split([h] + t, c) == [[h] + Split(t, c)[0]] + Split(t, c)[1..]
  {
    assert ([h] + t)[0] == h && ([h] + t)[1..] == t;
  }

  lemma ConsHead(h: char, x: seq<string>, y: seq<string>)
    requires |x| > 0
    ensures [[h] + (x + y)[0]] + (x + y)[1..] == ([[h] + x[0]] + x[1..]) + y
  {
    assert (x + y)[1..] == x[1..] + y;
  }

  /** Joining separator-free pieces and splitting again gives back the
      pieces. */
  lemma {:induction false} SplitJoin(parts: seq<string>, c: char)
    requires |parts| > 0
    requires forall i :: 0 <= i < |parts| ==> c !in parts[i]
    ensures Split(Join(parts, [c]), c) == parts
  {
    if |parts| == 1 {
      SplitNoSeparator(parts[0], c);
    } else {
      var more := parts[1..];
      SplitJoin(more, c);
      SplitConcat(parts[0], Join(more, [c]), c);
      SplitNoSeparator(parts[0], c);
      assert [parts[0]] + more == parts;
    }
  }
}
