/**
 * One send run of `sendEmails` once its checks have passed: one request
 * per recipient in list order, one outcome per request, then the sent and
 * failed tallies and the summary they lead to.
 */
module Delivery {
  import opened Text
  import opened Lists

  const ProviderUrl: string := "https://api.brevo.com/v3/smtp/email"
  const SenderName: string := "Smart Send"
  const Subject: string := "Message from Smart Send"

  datatype Status = Sent | Failed

  /** What the run records for one recipient. */
  datatype Outcome = Outcome(email: string, status: Status)

  /** The JSON body of one request to the provider's transactional endpoint,
      with the `api-key` header it is sent with. */
  datatype Request = Request(
    url: string,
    apiKey: string,
    senderName: string,
    senderEmail: string,
    to: seq<string>,
    subject: string,
    htmlContent: string,
    textContent: string)

  /** The HTML form of the message: every newline becomes `<br>` and the
      whole is wrapped in one paragraph. */
  function HtmlBody(message: string): (html: string)
    ensures html == "<p>" + Join(Split(message, '\n'), "<br>") + "</p>"
    ensures '\n' !in html
  {
    JoinSplitIsReplace(message, '\n', "<br>");
    "<p>" + Replace(message, '\n', "<br>") + "</p>"
  }

  /** The request for one recipient: the fixed endpoint, sender name and subject,
      the signed-in address as sender, the message as plain text and HTML. */
  function MakeRequest(apiKey: string, senderEmail: string, email: string, message: string): (r: Request)
    ensures r.url == ProviderUrl
    ensures r.to == [email] && r.apiKey == apiKey && r.senderEmail == senderEmail
    ensures r.senderName == SenderName && r.subject == Subject
    ensures r.textContent == message && r.htmlContent == HtmlBody(message)
  {
    Request(ProviderUrl, apiKey, SenderName, senderEmail, [email], Subject, HtmlBody(message), message)
  }

  /** The status the run records for attempt `i`: sent when the provider
      answered with a success code, failed on any other answer or error. */
  function StatusOf(providerOk: nat -> bool, i: nat): Status {
    if providerOk(i) then Sent else Failed
  }

  /** Sends to every recipient in order, one at a time. `providerOk(i)` is
      whether attempt `i` got a success answer; a failure does not stop the
      run. */
  method DeliverBatch(apiKey: string, senderEmail: string, message: string,
                      recipients: seq<string>, providerOk: nat -> bool)
    returns (results: seq<Outcome>, requests: seq<Request>)
    ensures |results| == |recipients| && |requests| == |recipients|
    ensures forall i :: 0 <= i < |recipients| ==>
      results[i] == Outcome(recipients[i], StatusOf(providerOk, i))
    ensures forall i :: 0 <= i < |recipients| ==>
      requests[i] == MakeRequest(apiKey, senderEmail, recipients[i], message)
  {
    results := [];
    requests := [];
    for i := 0 to |recipients|
      invariant |results| == i && |requests| == i
      invariant forall k :: 0 <= k < i ==> results[k] == Outcome(recipients[k], StatusOf(providerOk, k))
      invariant forall k :: 0 <= k < i ==> requests[k] == MakeRequest(apiKey, senderEmail, recipients[k], message)
    {
      var email := recipients[i];
      requests := requests + [MakeRequest(apiKey, senderEmail, email, message)];
      var status := if providerOk(i) then Sent else Failed;
      results := results + [Outcome(email, status)];
    }
  }

  predicate IsSent(o: Outcome) { o.status == Sent }
  predicate IsFailed(o: Outcome) { o.status == Failed }

  /** `results.filter(r => r.status === 'sent').length` */
  function SentCount(results: seq<Outcome>): (n: nat)
    ensures n <= |results|
  {
    |Filter(results, IsSent)|
  }

  /** `results.filter(r => r.status === 'failed').length` */
  function FailedCount(results: seq<Outcome>): (n: nat)
    ensures n <= |results|
  {
    |Filter(results, IsFailed)|
  }

  /** Every outcome is counted exactly once. */
  lemma TallyAddsUp(results: seq<Outcome>)
    ensures SentCount(results) + FailedCount(results) == |results|
  {
    FilterPartition(results, IsSent, IsFailed);
  }

  /** Nothing was sent exactly when every outcome is a failure. */
  lemma NoneSentIff(results: seq<Outcome>)
    ensures SentCount(results) == 0 <==> forall i :: 0 <= i < |results| ==> results[i].status == Failed
  {
    if exists i :: 0 <= i < |results| && results[i].status == Sent {
      var i :| 0 <= i < |results| && results[i].status == Sent;
      FilterKeepsPassing(results, IsSent, i);
    } else {
      FilterKeepsProperty(results, IsSent, IsFailed);
      var kept := Filter(results, IsSent);
      assert |kept| > 0 ==> IsSent(kept[0]) && IsFailed(kept[0]);
    }
  }

  /** Nothing failed exactly when every outcome is a success. */
  lemma NoneFailedIff(results: seq<Outcome>)
    ensures FailedCount(results) == 0 <==> forall i :: 0 <= i < |results| ==> results[i].status == Sent
  {
    TallyAddsUp(results);
    if forall i :: 0 <= i < |results| ==> results[i].status == Sent {
      FilterAll(results, IsSent);
    } else {
      var i :| 0 <= i < |results| && results[i].status == Failed;
      FilterKeepsPassing(results, IsFailed, i);
    }
  }

  /** The summary shown at the end of a run. */
  datatype Verdict = AllSent | PartlySent | NoneSent

  /** `failed === 0 && sent > 0`, then `sent > 0`, else nothing sent. */
  function Judge(sent: nat, failed: nat): (v: Verdict)
    ensures v == AllSent <==> sent > 0 && failed == 0
    ensures v == PartlySent <==> sent > 0 && failed > 0
    ensures v == NoneSent <==> sent == 0
  {
    if failed == 0 && sent > 0 then AllSent
    else if sent > 0 then PartlySent
    else NoneSent
  }

  /** The summary of a non-empty run, in terms of the outcomes themselves. */
  lemma VerdictOfResults(results: seq<Outcome>)
    requires |results| > 0
    ensures var v := Judge(SentCount(results), FailedCount(results));
      && (v == AllSent <==> forall i :: 0 <= i < |results| ==> results[i].status == Sent)
      && (v == NoneSent <==> forall i :: 0 <= i < |results| ==> results[i].status == Failed)
      && (v == PartlySent <==>
            (exists i :: 0 <= i < |results| && results[i].status == Sent) &&
            (exists j :: 0 <= j < |results| && results[j].status == Failed))
  {
    NoneSentIff(results);
    NoneFailedIff(results);
    // Mentioning `results[0]` lets the solver pick a witness for the
    // existentials of the mixed case.
    assert results[0] == results[0];
  }

  /** The summary of a run that `DeliverBatch` recorded, in terms of the
      provider's answers: all sent exactly when every attempt succeeded,
      none sent exactly when every attempt failed. */
  lemma VerdictOfBatch(recipients: seq<string>, results: seq<Outcome>, providerOk: nat -> bool)
    requires |recipients| > 0 && |results| == |recipients|
    requires forall i :: 0 <= i < |recipients| ==>
      results[i] == Outcome(recipients[i], StatusOf(providerOk, i))
    ensures SentCount(results) + FailedCount(results) == |recipients|
    ensures var v := Judge(SentCount(results), FailedCount(results));
      && (v == AllSent <==> forall i :: 0 <= i < |recipients| ==> providerOk(i))
      && (v == NoneSent <==> forall i :: 0 <= i < |recipients| ==> !providerOk(i))
  {
    TallyAddsUp(results);
    VerdictOfResults(results);
    assert forall i :: 0 <= i < |results| ==> (results[i].status == Sent <==> providerOk(i));
  }
}
