/** The address check `isValidEmail`: the pattern `^[^\s@]+@[^\s@]+\.[^\s@]+$`. */
module Addresses {
  import opened Text

  /** A character of the class `[^\s@]`. */
  predicate IsAddrChar(c: char) {
    !IsWs(c) && c != '@'
  }

  predicate AllAddrChars(s: string) {
    forall i :: 0 <= i < |s| ==> IsAddrChar(s[i])
  }

  /** The pattern matches: the string splits as local part, `@`, domain,
      `.`, top-level part, each of the three parts one or more characters of
      `[^\s@]`. The domain and the top-level part may themselves contain
      dots, as the pattern allows. */
  predicate IsValidEmail(s: string)
    ensures IsValidEmail(s) ==> |s| >= 5
  {
    exists at, dot | 0 < at < |s| && 0 < dot < |s| ::
      && at + 1 < dot && dot + 1 < |s|
      && s[at] == '@' && s[dot] == '.'
      && AllAddrChars(s[..at]) && AllAddrChars(s[at + 1..dot]) && AllAddrChars(s[dot + 1..])
  }

  /** A `.` with at least one character on each side. */
  predicate HasInnerDot(d: string) {
    exists p | 0 < p < |d| :: p + 1 < |d| && d[p] == '.'
  }

  /** The pattern in plain words: no whitespace, exactly one `@`, something
      before it, and after it a `.` with at least one character on each
      side. */
  predicate IsPlainAddress(s: string) {
    && (forall i :: 0 <= i < |s| ==> !IsWs(s[i]))
    && Count(s, '@') == 1
    && (exists k | 0 < k < |s| :: s[k] == '@' && HasInnerDot(s[k + 1..]))
  }

  /** An address has no whitespace anywhere. */
  lemma ValidEmailHasNoWs(s: string)
    requires IsValidEmail(s)
    ensures s != [] && forall i :: 0 <= i < |s| ==> !IsWs(s[i])
  {
    ValidIsPlain(s);
  }

  /** `isValidEmail` holds exactly for the plain-words description. */
  lemma IsValidEmailIff(s: string)
    ensures IsValidEmail(s) <==> IsPlainAddress(s)
  {
    if IsValidEmail(s) {
      ValidIsPlain(s);
    }
    if IsPlainAddress(s) {
      PlainIsValid(s);
    }
  }

  lemma ValidIsPlain(s: string)
    requires IsValidEmail(s)
    ensures IsPlainAddress(s)
  {
    var at, dot :| 0 < at < |s| && 0 < dot < |s| && at + 1 < dot && dot + 1 < |s|
      && s[at] == '@' && s[dot] == '.'
      && AllAddrChars(s[..at]) && AllAddrChars(s[at + 1..dot]) && AllAddrChars(s[dot + 1..]);
    forall i | 0 <= i < |s| ensures !IsWs(s[i]) {
      if i < at {
        assert s[..at][i] == s[i];
      } else if at < i < dot {
        assert s[at + 1..dot][i - at - 1] == s[i];
      } else if dot < i {
        assert s[dot + 1..][i - dot - 1] == s[i];
      }
    }
    OnlyOneAt(s, at, dot);
    var d := s[at + 1..];
    assert d[dot - at - 1] == '.';
    assert HasInnerDot(d);
  }

  lemma PlainIsValid(s: string)
    requires IsPlainAddress(s)
    ensures IsValidEmail(s)
  {
    var k :| 0 < k < |s| && s[k] == '@' && HasInnerDot(s[k + 1..]);
    var d := s[k + 1..];
    var p :| 0 < p < |d| && p + 1 < |d| && d[p] == '.';
    AtIsUnique(s, k);
    var dot := k + 1 + p;
    assert s[dot] == '.';
    assert AllAddrChars(s[..k]) by {
      forall i | 0 <= i < k ensures IsAddrChar(s[..k][i]) {
        assert s[..k][i] == s[i];
      }
    }
    var domain, top := s[k + 1..dot], s[dot + 1..];
    assert AllAddrChars(domain) by {
      forall i | 0 <= i < |domain| ensures IsAddrChar(domain[i]) {
        assert domain[i] == s[k + 1 + i];
      }
    }
    assert AllAddrChars(top) by {
      forall i | 0 <= i < |top| ensures IsAddrChar(top[i]) {
        assert top[i] == s[dot + 1 + i];
      }
    }
  }

  /** The `@` at `at` is the only one when the three parts are `@`-free. */
  lemma OnlyOneAt(s: string, at: int, dot: int)
    requires 0 < at < dot < |s| && s[at] == '@' && s[dot] == '.'
    requires AllAddrChars(s[..at]) && AllAddrChars(s[at + 1..dot]) && AllAddrChars(s[dot + 1..])
    ensures Count(s, '@') == 1
  {
    var rest := s[at + 1..];
    assert s == s[..at] + [s[at]] + rest;
    assert '@' !in s[..at] by {
      forall i | 0 <= i < at ensures s[..at][i] != '@' {
        assert IsAddrChar(s[..at][i]);
      }
    }
    assert '@' !in rest by {
      forall i | 0 <= i < |rest| ensures rest[i] != '@' {
        if i < dot - at - 1 {
          assert rest[i] == s[at + 1..dot][i];
        } else if i > dot - at - 1 {
          assert rest[i] == s[dot + 1..][i - (dot - at)];
        }
      }
    }
    CountZero(s[..at], '@');
    CountZero(rest, '@');
    CountAppend(s[..at] + [s[at]], rest, '@');
    CountAppend(s[..at], [s[at]], '@');
  }

  /** With a single `@`, every other position holds something else. */
  lemma AtIsUnique(s: string, k: int)
    requires 0 <= k < |s| && s[k] == '@' && Count(s, '@') == 1
    ensures forall j :: 0 <= j < |s| && j != k ==> s[j] != '@'
  {
    var before, after := s[..k], s[k + 1..];
    assert s == before + [s[k]] + after;
    CountAppend(before + [s[k]], after, '@');
    CountAppend(before, [s[k]], '@');
    CountZero(before, '@');
    CountZero(after, '@');
    forall j | 0 <= j < |s| && j != k ensures s[j] != '@' {
      if j < k {
        assert s[j] == before[j];
      } else {
        assert s[j] == after[j - k - 1];
      }
    }
  }
}
