/**
 * The `.env` reading inside `loadEnv`: each line is split on `=`, and a
 * line whose first two pieces are non-empty and whose trimmed first piece
 * is `BREVO_API_KEY` sets the key to its trimmed second piece.
 */
module EnvFile {
  import opened Wrappers
  import opened Text

  const ApiKeyName: string := "BREVO_API_KEY"

  /** The value one line gives the API key, if it gives one:
      `const [key, value] = line.split('=')`, then `key && value`, then the
      trimmed key compared with `BREVO_API_KEY`. Only the second piece is
      used, so anything after a second `=` is ignored. */
  function Assignment(line: string): (v: Option<string>)
    ensures v.Some? ==> IsTrimmed(v.value) && '=' !in v.value && '=' in line
  {
    var parts := Split(line, '=');
    if |parts| >= 2 && parts[0] != "" && parts[1] != "" && Trim(parts[0]) == ApiKeyName then
      TrimAddsNothing(parts[1], '=');
      CountZero(line, '=');
      Some(Trim(parts[1]))
    else
      None
  }

  /** The key after the lines have been applied in order, starting from
      `prior`: the last line that gives a value decides. The key is never
      anything but the earlier value or a value one of the lines gives. */
  function ApplyEnv(lines: seq<string>, prior: string): (key: string)
    ensures key == prior || exists i :: 0 <= i < |lines| && Assignment(lines[i]) == Some(key)
  {
    if |lines| == 0 then prior
    else match Assignment(lines[|lines| - 1])
      case Some(v) => v
      case None =>
        var init := lines[..|lines| - 1];
        assert forall i :: 0 <= i < |init| ==> init[i] == lines[i];
        ApplyEnv(init, prior)
  }

  /** The pieces `split(c)` gives for `a c b` when neither piece holds `c`. */
  lemma SplitPair(a: string, b: string, c: char)
    requires c !in a && c !in b
    ensures Split(a + [c] + b, c) == [a, b]
  {
    SplitNoSeparator(a, c);
    SplitNoSeparator(b, c);
    SplitConcat(a, b, c);
  }

  /** The pieces `split(c)` gives for `a c b c t`: the first two are `a` and `b`. */
  lemma SplitPairThenMore(a: string, b: string, t: string, c: char)
    requires c !in a && c !in b
    ensures Split(a + [c] + b + [c] + t, c) == [a, b] + Split(t, c)
  {
    var tail := b + [c] + t;
    assert Split(tail, c) == [b] + Split(t, c) by {
      SplitNoSeparator(b, c);
      SplitConcat(b, t, c);
    }
    assert Split(a + [c] + tail, c) == [a] + Split(tail, c) by {
      SplitNoSeparator(a, c);
      SplitConcat(a, tail, c);
    }
    assert a + [c] + b + [c] + t == a + [c] + tail;
  }

  /** `KEY=value` sets the trimmed value, and so does `KEY=value=more`:
      the text after a second `=` is dropped. */
  lemma AssignmentOfKeyValue(key: string, value: string, more: string)
    requires '=' !in key && '=' !in value && key != "" && value != ""
    requires Trim(key) == ApiKeyName
    ensures Assignment(key + "=" + value) == Some(Trim(value))
    ensures Assignment(key + "=" + value + "=" + more) == Some(Trim(value))
  {
    SplitPair(key, value, '=');
    SplitPairThenMore(key, value, more, '=');
  }

  /** Only the key line gives a value: when `key=value` or
      `key=value=more` gives one, the key is non-empty and trims to
      `BREVO_API_KEY` and the value is non-empty. */
  lemma AssignmentNeedsKey(key: string, value: string, more: string)
    requires '=' !in key && '=' !in value
    ensures Assignment(key + "=" + value).Some? ==>
      key != "" && value != "" && Trim(key) == ApiKeyName
    ensures Assignment(key + "=" + value + "=" + more).Some? ==>
      key != "" && value != "" && Trim(key) == ApiKeyName
  {
    SplitPair(key, value, '=');
    SplitPairThenMore(key, value, more, '=');
  }

  /** A line without `=` gives no value. */
  lemma AssignmentNeedsSeparator(line: string)
    requires '=' !in line
    ensures Assignment(line) == None
  {
    SplitNoSeparator(line, '=');
  }

  /** When no line gives a value, the key keeps its earlier value. */
  lemma {:induction false} NoAssignmentKeepsPrior(lines: seq<string>, prior: string)
    requires forall i :: 0 <= i < |lines| ==> Assignment(lines[i]).None?
    ensures ApplyEnv(lines, prior) == prior
  {
    if |lines| > 0 {
      NoAssignmentKeepsPrior(lines[..|lines| - 1], prior);
    }
  }

  /** The last line that gives a value decides the key. */
  lemma {:induction false} LastAssignmentWins(lines: seq<string>, prior: string, j: int)
    requires 0 <= j < |lines| && Assignment(lines[j]).Some?
    requires forall i :: j < i < |lines| ==> Assignment(lines[i]).None?
    ensures ApplyEnv(lines, prior) == Assignment(lines[j]).value
  {
    if j < |lines| - 1 {
      var init := lines[..|lines| - 1];
      assert forall i :: j <= i < |init| ==> init[i] == lines[i];
      LastAssignmentWins(init, prior, j);
    }
  }
}
