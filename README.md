# smartsend core, modelled in Dafny

smartsend is a single-page bulk-email tool (`app.js`). A signed-in user
types recipient addresses into a box, one per line, and writes a message.
The page sends one transactional email per address through the Brevo HTTP
API and reports which sends succeeded. Recipient lists can be saved under a
client name, loaded back and deleted. The API key comes from a `.env` file.

This project models the deterministic core of that page:

- `Text`: the string built-ins the page relies on. These are `split` on one
  character, `join`, `trim` (with the ECMAScript white-space table) and the
  global replacement of a character.
- `Lists`: `Array.prototype.filter`.
- `Addresses`: `isValidEmail`, the pattern `^[^\s@]+@[^\s@]+\.[^\s@]+$`,
  written as a predicate and proved equal to a plain-words description.
- `Recipients`: the two recipient-box parsers, one for sending and one for
  saving a client.
- `Clients`: the client store, a class holding a name-to-list map. Its
  methods are `saveNewClient`, `loadClient` and `deleteClient`.
- `EnvFile`: how the lines of `.env` fold into the API key.
- `Delivery`: one send run. This covers the request built for each
  recipient, the loop that records one outcome per recipient, the tallies
  and the three-way summary.
- `Session`: the page state that `loadEnv` and `sendEmails` update. This is
  a class with the API key, the signed-in sender and the last run's results.

The provider is an oracle. `providerOk(i)` says whether attempt `i` got a
success status without an exception.

## Model

| member | source | states |
|---|---|---|
| Text.Split | app.js:13 | `split` on one character gives one more piece than there are separators, and no piece holds the separator |
| Text.Trim | app.js:238 | `trim` leaves no white space at either end, never lengthens, and leaves an already trimmed string alone |
| Text.TrimStripsEnds | app.js:238 | `trim` returns a slice of the input with only white space before and after it, so only the white-space ends are removed |
| Text.TrimIsEmptyIff | app.js:238-239 | a string trims to empty exactly when it is all white space (the `!name` test after `trim`) |
| Text.TrimAddsNothing | app.js:246 | trimming never introduces a character that was not there |
| Text.SplitConcat | app.js:245 | the pieces of `a + sep + b` are the pieces of `a` followed by those of `b` |
| Text.SplitNoSeparator | app.js:13 | a string without the separator is a single piece |
| Text.Join | app.js:290 | `join` puts the separator between consecutive parts; its contract is carried by `Text.JoinSplit` and `Text.SplitJoin`, which make it the inverse of `Text.Split` |
| Text.Replace | app.js:365 | replacing every `c` by a text without `c` leaves no `c` |
| Text.JoinSplit | app.js:290 | splitting and joining with the same separator gives back the string |
| Text.SplitJoin | app.js:290 | joining separator-free pieces and splitting again gives back the pieces |
| Text.JoinSplitIsReplace | app.js:365 | replacing every separator with `rep` is the same as splitting and joining with `rep` |
| Lists.Filter | app.js:247 | `filter` keeps only elements that pass and never lengthens |
| Lists.FilterKeepsPassing | app.js:328 | every element that passes is kept |
| Lists.FilterAppend | app.js:328 | filtering distributes over concatenation, so order is kept |
| Lists.FilterPartition | app.js:402-403 | what a predicate keeps plus what its complement keeps is everything |
| Lists.FilterFilter | app.js:328 | filtering twice is filtering once by the conjunction |
| Addresses.IsValidEmail | app.js:232-234 | the pattern, as local part, `@`, domain, `.`, top-level part, each one or more characters that are neither white space nor `@`; a match is at least five characters |
| Addresses.IsValidEmailIff | app.js:232-234 | the pattern matches exactly when the string has no white space, exactly one `@` with something before it, and after it a `.` with a character on each side |
| Addresses.ValidEmailHasNoWs | app.js:233 | a matching string is non-empty and holds no white space |
| Recipients.TrimLines | app.js:246 | the trimmed lines, one per line and in order |
| Recipients.KeepForSend | app.js:328 | the send filter keeps only what the save filter keeps, and only strings of five or more characters |
| Recipients.KeepForSave | app.js:247 | the save filter keeps a line exactly when it is non-empty |
| Recipients.ParseLines | app.js:244-247 | the kept lines are trimmed, newline-free and pass the filter, at most one per line |
| Recipients.ParseForSend | app.js:325-328 | every recipient to send to is a trimmed, newline-free valid address; there are at most as many as lines |
| Recipients.ParseForSave | app.js:244-247 | every saved entry is trimmed, non-blank and newline-free; there are at most as many as lines |
| Recipients.ParseLinesConcat | app.js:325-328 | parsing two blocks of lines joined by a newline is parsing each block in order, duplicates included |
| Recipients.ParseLinesOneLine | app.js:325-328 | a single line gives its trimmed form when the filter keeps it, else nothing |
| Recipients.ParseLinesCount | app.js:325-328 | kept lines plus dropped lines make up every line of the box |
| Recipients.SendListIsValidPartOfSaveList | app.js:244-247 | the send list is the saved list with the invalid addresses dropped |
| Recipients.ParseForSaveOfJoin | app.js:244-247 | a list of trimmed, non-blank, newline-free entries joined by newlines parses back to itself |
| Recipients.SendKeepsAddressLine | app.js:325-328 | a first line holding an address becomes the first recipient |
| Recipients.SendSkipsOtherLine | app.js:325-328 | a first line that is blank or not an address is dropped |
| Recipients.AddressIsKeptAsIs | app.js:327-328 | a valid address passes the send filter unchanged by trimming |
| Clients.ClientStore.constructor | app.js:254 | the store starts empty and well formed, as an absent saved map reads as `{}` |
| Clients.ClientStore.SaveNewClient | app.js:237-256 | an empty trimmed name is refused first, then a box with no non-blank line; both leave the store unchanged; otherwise the parsed list replaces whatever the name held and no other name changes |
| Clients.ClientStore.LoadClient | app.js:288-290 | the box receives the stored list joined with newlines |
| Clients.ClientStore.DeleteClient | app.js:295-298 | unconfirmed changes nothing; confirmed removes that name only; a missing name changes nothing |
| Clients.LoadThenSaveIsIdentity | app.js:244-256 | saving back a loaded list under its own name leaves the store as it was |
| Clients.ReloadAndSave | app.js:288-290 | the store's load followed by save leaves every list as it was |
| EnvFile.Assignment | app.js:13-18 | a line only ever gives a trimmed value without `=`, and only if it contains `=` |
| EnvFile.AssignmentNeedsKey | app.js:13-17 | a line `key=value` or `key=value=more` gives a value only when the key is non-empty and trims to `BREVO_API_KEY` and the value is non-empty |
| EnvFile.AssignmentOfKeyValue | app.js:13-18 | `BREVO_API_KEY=v` and `BREVO_API_KEY=v=w` both give the trimmed `v` |
| EnvFile.AssignmentNeedsSeparator | app.js:13-14 | a line without `=` gives nothing |
| EnvFile.ApplyEnv | app.js:12-21 | the key after the lines is either its earlier value or a value that one of the lines gives |
| EnvFile.NoAssignmentKeepsPrior | app.js:11-21 | when no line qualifies, the key keeps its earlier value |
| EnvFile.LastAssignmentWins | app.js:11-21 | the last qualifying line decides the key |
| Session.Mailer.LoadEnv | app.js:6-25 | a missing file leaves the key alone; otherwise the key is the fold of the file's lines over its earlier value |
| Delivery.HtmlBody | app.js:365 | the HTML body is one paragraph, the message's lines joined by `<br>`, with no newline left |
| Delivery.MakeRequest | app.js:348-367 | each request goes to the fixed endpoint for one recipient, from the signed-in sender under the fixed name and subject, with the message as text and its HTML form |
| Delivery.StatusOf | app.js:370-389 | an attempt is recorded as sent when the provider answered with success, and as failed on any other answer or an error |
| Delivery.DeliverBatch | app.js:343-394 | one outcome and one request per recipient, in list order; outcome `i` is sent exactly when attempt `i` succeeded |
| Delivery.SentCount | app.js:402 | the number of sent outcomes, never more than the outcomes |
| Delivery.FailedCount | app.js:403 | the number of failed outcomes, never more than the outcomes |
| Delivery.TallyAddsUp | app.js:402-403 | sent plus failed is the number of outcomes |
| Delivery.NoneSentIff | app.js:402 | nothing was sent exactly when every outcome failed |
| Delivery.NoneFailedIff | app.js:403 | nothing failed exactly when every outcome was sent |
| Delivery.Judge | app.js:405-411 | all sent exactly when `sent > 0` and `failed == 0`; partly exactly when both are positive; none exactly when `sent == 0`; one of the three always applies |
| Delivery.VerdictOfResults | app.js:402-411 | for a non-empty run, the summary is all sent, none sent or partly sent exactly as the outcomes are all sent, all failed or mixed |
| Delivery.VerdictOfBatch | app.js:343-411 | the summary of a recorded run is all sent exactly when every attempt succeeded, and none sent exactly when every attempt failed |
| Session.KeyConfigured | app.js:320 | a key counts as configured when it is neither empty nor the placeholder |
| Session.SignedIn | app.js:315 | a sender is present when it is neither null nor empty |
| Session.Precheck | app.js:315-338 | the four guards run in order and the first that fails is reported; all pass exactly when there is a sender, a real key, a valid recipient and a non-blank message |
| Session.Mailer.SendEmails | app.js:314-411 | a refused call sends nothing and keeps the earlier results; a run sends one request per recipient, replaces the results with this run's outcomes, and reports tallies and a summary that match the provider's answers |
| Session.Mailer.constructor | app.js:2-37 | the page starts with the placeholder key and no results |

## Left out

- Page rendering is not modelled. This covers DOM access, notifications,
  modals, theme switching, the button state during a run, clearing the name
  box after a save, `renderClients` with its quote escaping, `showReport`
  and the warning toast of `initBrevo`. None of them changes the modelled
  state. The condition `initBrevo` tests is `Session.KeyConfigured`.
- `fetch` is not modelled: neither the HTTP request, nor JSON
  serialisation, nor `response.json()`, nor `console` output. Each attempt
  is the oracle `providerOk(i)`. `DeliverBatch` returns the request it
  would send, so what is sent is still stated.
- The 300 ms pause between sends is not modelled, and neither is the
  `async`/`await` suspension. app.js reads the API key, the signed-in
  address and the message box afresh for every request, so a sign-out or an
  edit of the message during a run changes the requests after it; the model
  fixes all three when the run starts.
- `localStorage` and `JSON.parse`/`JSON.stringify` of the client map are not
  modelled. The map is a field of `ClientStore`. Names such as `__proto__`,
  which behave specially on a JavaScript object, are ordinary keys here.
- `prompt` and `confirm` are not modelled. The answer to `confirm` is the
  `confirmed` parameter of `DeleteClient`.
- Sign-in, sign-out and the restoring of the saved sender are not modelled.
  The sender is the `sender` field of `Mailer`; `None` stands for `null`.
- `startNewBatch` and clearing the message box are not modelled. They only
  reset inputs.
- Clients.ClientStore.LoadClient: for a name with no stored list, app.js
  throws a `TypeError` before touching the box. The model returns `None`
  instead.
- Characters are Unicode scalar values, not UTF-16 code units. `IsWs` is the
  ECMAScript WhiteSpace and LineTerminator table, which both `\s` and
  `trim` use.
