/**
 * The two recipient-box parsers of app.js: `split('\n')`, `trim()` each
 * line, then keep the non-blank lines (saving a named list) or the
 * non-blank lines that pass `isValidEmail` (sending).
 */
module Recipients {
  import opened Text
  import opened Lists
  import opened Addresses

  /** `lines.map(e => e.trim())`. */
  function TrimLines(lines: seq<string>): (r: seq<string>)
    ensures |r| == |lines|
    ensures forall i :: 0 <= i < |r| ==> r[i] == Trim(lines[i])
  {
    seq(|lines|, i requires 0 <= i < |lines| => Trim(lines[i]))
  }

  /** The filter of the send path: `e => e && isValidEmail(e)`. It is
      stricter than the filter of the save path. */
  predicate KeepForSend(e: string)
    ensures KeepForSend(e) ==> KeepForSave(e) && |e| >= 5
  {
    e != "" && IsValidEmail(e)
  }

  /** The filter of the save path: `e => e`. */
  predicate KeepForSave(e: string) {
    e != ""
  }

  /** `text.split('\n').map(e => e.trim()).filter(keep)`. */
  function ParseLines(text: string, keep: string -> bool): (r: seq<string>)
    ensures |r| <= Count(text, '\n') + 1
    ensures forall i :: 0 <= i < |r| ==> keep(r[i]) && IsTrimmed(r[i]) && '\n' !in r[i]
  {
    var trimmed := TrimLines(Split(text, '\n'));
    TrimmedLinesAreClean(Split(text, '\n'));
    FilterKeepsProperty(trimmed, keep, IsCleanLine);
    Filter(trimmed, keep)
  }

  /** What a trimmed piece of a newline split looks like. */
  predicate IsCleanLine(e: string) {
    IsTrimmed(e) && '\n' !in e
  }

  /** The recipient list `sendEmails` builds from the box. */
  function ParseForSend(text: string): (r: seq<string>)
    ensures |r| <= Count(text, '\n') + 1
    ensures forall i :: 0 <= i < |r| ==> IsValidEmail(r[i]) && IsTrimmed(r[i]) && '\n' !in r[i]
  {
    ParseLines(text, KeepForSend)
  }

  /** The list `saveNewClient` stores: trimmed non-blank lines, not
      checked as addresses. */
  function ParseForSave(text: string): (r: seq<string>)
    ensures |r| <= Count(text, '\n') + 1
    ensures forall i :: 0 <= i < |r| ==> r[i] != "" && IsTrimmed(r[i]) && '\n' !in r[i]
  {
    ParseLines(text, KeepForSave)
  }

  lemma TrimmedLinesAreClean(lines: seq<string>)
    requires forall i :: 0 <= i < |lines| ==> '\n' !in lines[i]
    ensures forall i :: 0 <= i < |lines| ==> IsCleanLine(TrimLines(lines)[i])
  {
    forall i | 0 <= i < |lines| ensures IsCleanLine(TrimLines(lines)[i]) {
      TrimAddsNothing(lines[i], '\n');
    }
  }

  lemma TrimLinesAppend(a: seq<string>, b: seq<string>)
    ensures TrimLines(a + b) == TrimLines(a) + TrimLines(b)
  {
  }

  /** Parsing goes line by line: the result for `a + "\n" + b` is the
      result for `a` followed by the result for `b`, so the kept lines keep
      their order and duplicates are kept. */
  lemma ParseLinesConcat(a: string, b: string, keep: string -> bool)
    ensures ParseLines(a + "\n" + b, keep) == ParseLines(a, keep) + ParseLines(b, keep)
  {
    SplitConcat(a, b, '\n');
    TrimLinesAppend(Split(a, '\n'), Split(b, '\n'));
    FilterAppend(TrimLines(Split(a, '\n')), TrimLines(Split(b, '\n')), keep);
  }

  /** A single line yields its trimmed self when kept, and nothing
      otherwise. */
  lemma ParseLinesOneLine(line: string, keep: string -> bool)
    requires '\n' !in line
    ensures ParseLines(line, keep) == if keep(Trim(line)) then [Trim(line)] else []
  {
    var t := Trim(line);
    assert TrimLines(Split(line, '\n')) == [t] by {
      SplitNoSeparator(line, '\n');
    }
    assert Filter([t], keep) == (if keep(t) then [t] else []) + Filter([], keep);
  }

  /** Every line counts once: the kept lines plus the dropped lines (blank
      or, when sending, not an address) are all the lines of the box. */
  lemma ParseLinesCount(text: string, keep: string -> bool, drop: string -> bool)
    requires forall x :: drop(x) == !keep(x)
    ensures |ParseLines(text, keep)| + |Filter(TrimLines(Split(text, '\n')), drop)| == Count(text, '\n') + 1
  {
    var t := TrimLines(Split(text, '\n'));
    assert ParseLines(text, keep) == Filter(t, keep);
    FilterPartition(t, keep, drop);
  }

  /** The send list is the saved list with the non-addresses dropped: a
      list that was saved and loaded back sends to exactly its valid
      entries. */
  lemma SendListIsValidPartOfSaveList(text: string)
    ensures ParseForSend(text) == Filter(ParseForSave(text), IsValidEmail)
  {
    FilterFilter(TrimLines(Split(text, '\n')), KeepForSave, IsValidEmail, KeepForSend);
  }

  /** Saving what loading put in the box: a non-empty list of trimmed,
      non-blank, newline-free entries joined with newlines parses back to
      itself. */
  lemma ParseForSaveOfJoin(entries: seq<string>)
    requires |entries| > 0
    requires forall i :: 0 <= i < |entries| ==> entries[i] != "" && IsTrimmed(entries[i]) && '\n' !in entries[i]
    ensures ParseForSave(Join(entries, "\n")) == entries
  {
    SplitJoin(entries, '\n');
    assert TrimLines(entries) == entries;
    FilterAll(entries, KeepForSave);
  }

  /** An address passes the send filter untouched by trimming. */
  lemma AddressIsKeptAsIs(e: string)
    requires IsValidEmail(e)
    ensures Trim(e) == e && KeepForSend(e) && '\n' !in e
  {
    ValidEmailHasNoWs(e);
    assert IsTrimmed(e);
    assert IsWs('\n');
  }

  /** A first line holding an address (surrounding blanks allowed) is the
      first recipient. */
  lemma SendKeepsAddressLine(line: string, rest: string)
    requires '\n' !in line && IsValidEmail(Trim(line))
    ensures ParseForSend(line + "\n" + rest) == [Trim(line)] + ParseForSend(rest)
  {
    ParseLinesConcat(line, rest, KeepForSend);
    ParseLinesOneLine(line, KeepForSend);
  }

  /** A first line that is blank or not an address is skipped. */
  lemma SendSkipsOtherLine(line: string, rest: string)
    requires '\n' !in line && !IsValidEmail(Trim(line))
    ensures ParseForSend(line + "\n" + rest) == ParseForSend(rest)
  {
    ParseLinesConcat(line, rest, KeepForSend);
    ParseLinesOneLine(line, KeepForSend);
    assert [] + ParseForSend(rest) == ParseForSend(rest);
  }
}
