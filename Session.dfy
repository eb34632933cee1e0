/**
 * The page-level state of app.js that the send path reads and writes: the
 * API key (set from `.env` by `loadEnv`), the signed-in sender address and
 * the results of the last run, with `loadEnv` and `sendEmails` updating
 * them.
 */
module Session {
  import opened Wrappers
  import opened Text
  import opened Recipients
  import opened EnvFile
  import opened Delivery

  /** The key app.js starts with, which counts as not configured. */
  const PlaceholderKey: string := "YOUR_BREVO_API_KEY"

  /** `!BREVO_API_KEY || BREVO_API_KEY === 'YOUR_BREVO_API_KEY'`, negated. */
  predicate KeyConfigured(apiKey: string) {
    apiKey != "" && apiKey != PlaceholderKey
  }

  /** `googleUserEmail` is neither null nor empty. */
  predicate SignedIn(sender: Option<string>) {
    sender.Some? && sender.value != ""
  }

  /** Why `sendEmails` returned before sending anything. */
  datatype Rejection = NotSignedIn | KeyNotConfigured | NoValidRecipients | EmptyMessage

  /** What one call of `sendEmails` ends with. */
  datatype SendOutcome = Rejected(reason: Rejection) | Completed(sent: nat, failed: nat, verdict: Verdict)

  /** The four checks `sendEmails` makes before its loop, in their order;
      the first that fails is reported. When all pass, the result is the
      list of recipients to send to. */
  function Precheck(sender: Option<string>, apiKey: string, recipientsText: string, message: string)
    : (r: Result<seq<string>, Rejection>)
    ensures r.Ok? <==>
      SignedIn(sender) && KeyConfigured(apiKey) && ParseForSend(recipientsText) != [] && Trim(message) != ""
    ensures r.Ok? ==> r.value == ParseForSend(recipientsText) && |r.value| > 0
    ensures r == Err(NotSignedIn) <==> !SignedIn(sender)
    ensures r == Err(KeyNotConfigured) <==> SignedIn(sender) && !KeyConfigured(apiKey)
    ensures r == Err(NoValidRecipients) <==>
      SignedIn(sender) && KeyConfigured(apiKey) && ParseForSend(recipientsText) == []
    ensures r == Err(EmptyMessage) <==>
      SignedIn(sender) && KeyConfigured(apiKey) && ParseForSend(recipientsText) != [] && Trim(message) == ""
  {
    if !SignedIn(sender) then Err(NotSignedIn)
    else if !KeyConfigured(apiKey) then Err(KeyNotConfigured)
    else
      var recipientList := ParseForSend(recipientsText);
      if |recipientList| == 0 then Err(NoValidRecipients)
      else if Trim(message) == "" then Err(EmptyMessage)
      else Ok(recipientList)
  }

  class Mailer {
    var apiKey: string
    var sender: Option<string>
    var deliveryResults: Option<seq<Outcome>>

    /** The page as loaded: the placeholder key, no results yet. */
    constructor (sender: Option<string>)
      ensures apiKey == PlaceholderKey && this.sender == sender && deliveryResults == None
    {
      apiKey := PlaceholderKey;
      this.sender := sender;
      deliveryResults := None;
    }

    /** `loadEnv`: `envFile` is the text of `.env`, or `None` when it could
        not be fetched. Each line is applied in order; the key ends as the
        fold of the lines over its earlier value. */
    method LoadEnv(envFile: Option<string>)
      modifies this`apiKey
      ensures envFile.None? ==> apiKey == old(apiKey)
      ensures envFile.Some? ==> apiKey == ApplyEnv(Split(envFile.value, '\n'), old(apiKey))
    {
      if envFile.None? {
        return;
      }
      var lines := Split(envFile.value, '\n');
      for i := 0 to |lines|
        invariant apiKey == ApplyEnv(lines[..i], old(apiKey))
      {
        assert lines[..i + 1][..i] == lines[..i];
        var assignment := Assignment(lines[i]);
        if assignment.Some? {
          apiKey := assignment.value;
        }
      }
      assert lines[..|lines|] == lines;
    }

    /** `sendEmails`: `providerOk(i)` stands for whether attempt `i` got a
        success answer. A rejected call sends nothing and keeps the earlier
        results; a run sends one request per recipient, in list order,
        replaces the results with this run's outcomes and reports the
        tallies and the summary. */
    method SendEmails(recipientsText: string, message: string, providerOk: nat -> bool)
      returns (outcome: SendOutcome, requests: seq<Request>)
      modifies this`deliveryResults
      ensures var check := Precheck(sender, apiKey, recipientsText, message);
        check.Err? ==>
          outcome == Rejected(check.error) && requests == [] && deliveryResults == old(deliveryResults)
      ensures var check := Precheck(sender, apiKey, recipientsText, message);
        check.Ok? ==>
          && deliveryResults.Some?
          && |deliveryResults.value| == |check.value| == |requests|
          && (forall i :: 0 <= i < |check.value| ==>
                deliveryResults.value[i] == Outcome(check.value[i], StatusOf(providerOk, i)))
          && (forall i :: 0 <= i < |check.value| ==>
                requests[i] == MakeRequest(apiKey, sender.value, check.value[i], message))
          && outcome.Completed?
          && outcome.sent == SentCount(deliveryResults.value)
          && outcome.failed == FailedCount(deliveryResults.value)
          && outcome.sent + outcome.failed == |check.value|
          && (outcome.verdict == AllSent <==> forall i :: 0 <= i < |check.value| ==> providerOk(i))
          && (outcome.verdict == NoneSent <==> forall i :: 0 <= i < |check.value| ==> !providerOk(i))
    {
      var check := Precheck(sender, apiKey, recipientsText, message);
      if check.Err? {
        return Rejected(check.error), [];
      }
      var recipientList := check.value;
      var results;
      results, requests := DeliverBatch(apiKey, sender.value, message, recipientList, providerOk);
      deliveryResults := Some(results);
      var sent := SentCount(results);
      var failed := FailedCount(results);
      VerdictOfBatch(recipientList, results, providerOk);
      outcome := Completed(sent, failed, Judge(sent, failed));
    }
  }
}
