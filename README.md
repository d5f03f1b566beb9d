# TN election survey: the OTP-gated vote workflow in Dafny

The survey backend records one vote per verified email address. A voter first
asks for a one-time code (`POST /api/request-otp`). The server refuses an email
that already has a vote. Otherwise it stores a four-digit code for that email
in a process-local table (`otpStore`) and mails it. The voter then submits the
email, the code and a party (`POST /api/vote`). The server compares the code
with the table entry, checks the vote collection again, inserts the vote and
deletes the table entry.

This project models that workflow as a sequential state machine with two
pieces of state: the pending-code table, a `map<string, string>`, and the vote
collection, a `seq<Vote>` queried by email.

- `wrappers.dfy`: `Option`, used for a table lookup that finds nothing and for
  a request field that is absent.
- `votes.dfy` (module `Votes`): the vote record, the "find one by email"
  query, and the facts about insertion that the uniqueness proof uses.
- `otp_code.dfy` (module `OtpCode`): the decimal rendering of the drawn number
  that becomes the stored code, and its reading back.
- `workflow.dfy` (module `Workflow`): the state, the replies with their HTTP
  status and body, each handler as a step function, the invariant kept
  between requests, runs of many requests, and the lemmas.
- `server.dfy` (module `Server`): class `VoteServer` with the fields
  `otpStore` and `votes`. Its methods update them in place, and each method
  is specified by the matching `Workflow` step.

The code check is JavaScript `!==` on values that may be `undefined`. Both the
pending entry and the submitted code are therefore `Option<string>`, and two
absent values compare equal. As a result, an email with no pending code and
no vote that is submitted without a code passes the check and gets a vote
recorded
(`Workflow.VoteWithoutOtp`). The model keeps this behaviour as written.

Two consequences of the code as written (server.js:96, 101-108):
- A submission with no code passes the check when no code is pending for
  the email, so a missing pending code does not by itself refuse it.
- A replay of a recorded payload that carries a code gets "Invalid OTP",
  not "Already voted", because the `delete` at server.js:108 removed the
  pending entry. Only a replay without a code reaches "Already voted"
  (`Workflow.ReplayFails`).

Inputs from outside the program are parameters. The drawn number `n`
(1000..9999) replaces `Math.floor(1000 + Math.random() * 9000)`, and the
boolean `sendOk`/`sent` replaces the outcome of the mail transport.

## Model

| member | source | states |
|---|---|---|
| `Votes.FindByEmail` | server.js:61 | the lookup finds a record exactly when some vote carries the email, and any record it finds is in the collection and carries that email |
| `Votes.HasVotedAfterInsert` | server.js:106 | after inserting a vote, the emails that have voted are the earlier ones plus the new vote's email |
| `Votes.InsertKeepsEmailsUnique` | server.js:101-106 | inserting a vote whose email has no vote keeps emails unique in the collection |
| `OtpCode.DigitChar` | server.js:66 | each digit 0..9 becomes a decimal digit character denoting that digit |
| `OtpCode.DecimalString` | server.js:66 | the rendering of a number (`toString()`) is a non-empty string of decimal digits with no leading zero; zero renders as "0" |
| `OtpCode.DecimalStringRoundTrip` | server.js:66 | reading the rendering as decimal digits gives back the number, so distinct draws give distinct codes |
| `OtpCode.CodeIsFourDigits` | server.js:66 | every drawn number in 1000..9999 renders as exactly four digits whose first digit is not zero |
| `Workflow.Start` | server.js:47 | at process start the pending-code table is empty and the vote collection is what the database already holds |
| `Workflow.Reply.Status` | server.js:63-109 | a reply has status 200 exactly when its body is a `message`; refusals are 400, except the mail failure, which is 500 |
| `Workflow.Reply.Body` | server.js:63-109 | the body is a `message` exactly for "OTP Sent" and "Vote Recorded"; every other reply carries an `error` |
| `Workflow.Lookup` | server.js:96 | reading `otpStore[email]` yields a value exactly when the email has an entry, and then that entry; a missing entry reads as absent (`undefined`) |
| `Workflow.RequestOtp` | server.js:57-90 | the code-request handler as one step: it never changes the votes, touches no other email's entry, either leaves the state as it was or leaves the new code pending for the email, and replies "OTP Sent" only when the mail went out; the lemmas below pin down each branch |
| `Workflow.SubmitVote` | server.js:93-110 | the vote handler as one step: it appends at most the one vote {email, party}, touches no other email's entry, and replies "Vote Recorded" only when the code equalled the pending entry, which is then gone; the lemmas below pin down each branch |
| `Workflow.Handle` | server.js:57-110 | serving either request never removes or changes a recorded vote |
| `Workflow.RequestOtpWhenVoted` | server.js:61-64 | a code request for an email with a vote replies "This email has already voted." and changes neither the table nor the votes |
| `Workflow.RequestOtpStoresCode` | server.js:66-67 | for an email with no vote, the table maps the email to the new code, replacing any earlier one; every other entry and the votes stay as they were |
| `Workflow.RequestOtpSendOutcome` | server.js:67-89 | the code is stored whether or not the mail goes out; only the reply differs: "OTP Sent" (200) or "Email failed" (500) |
| `Workflow.RequestOtpPreservesInvariant` | server.js:57-90 | a code request keeps emails unique among the votes and gives no pending code to an email that has voted |
| `Workflow.SubmitVoteInvalidOtp` | server.js:96-98 | a submission is refused as "Invalid OTP" exactly when its code differs from the pending entry (absent counting as a value), and then nothing is written |
| `Workflow.SubmitVoteWhenVoted` | server.js:101-103 | a submission that passes the code check for an email with a vote is refused as "Already voted"; no vote is written and the pending entry stays |
| `Workflow.SubmitVoteRecords` | server.js:93-110 | "Vote Recorded" is replied exactly when the code matches and the email has no vote; then exactly the vote {email, party} is appended and only that email's entry is removed; any other reply leaves the state unchanged |
| `Workflow.ReplayFails` | server.js:96-108 | replaying a recorded payload fails and writes nothing: "Invalid OTP" if it carries a code, "Already voted" if it does not |
| `Workflow.SubmitVotePreservesInvariant` | server.js:93-110 | a submission keeps emails unique among the votes and gives no pending code to an email that has voted |
| `Workflow.VoteWithoutOtp` | server.js:96 | an email with no pending code and no vote, submitted without a code, passes the check and gets its vote recorded |
| `Workflow.AlreadyVotedOnlyWithoutOtp` | server.js:96-103 | between requests, a submission can be refused as "Already voted" only when it carries no code and the email has no pending entry |
| `Workflow.RequestThenSubmit` | server.js:57-110 | requesting a code for an email with no vote and then submitting that code records exactly that one vote and leaves no entry for the email, even if the mail failed |
| `Workflow.HandlePreservesInvariant` | server.js:57-110 | either handler keeps the invariant |
| `Workflow.RunPreservesInvariant` | server.js:57-110 | any sequence of requests served one at a time keeps the invariant |
| `Workflow.NoDuplicateVotes` | server.js:61-106 | from a collection without duplicate emails and an empty table, no sequence of requests served one at a time ever stores two votes for one email; it rests on the vote check before the insert (lines 101-103), while the check at lines 61-64 keeps an email that has voted from holding a pending code |
| `Workflow.VotesOnlyGrow` | server.js:106 | votes are only appended: the collection before a run is a prefix of the collection after it |
| `Server.VoteServer.constructor` | server.js:47 | a new server has an empty table beside the stored votes, and it satisfies the invariant exactly when the stored votes have no duplicate emails |
| `Server.VoteServer.RequestOtp` | server.js:57-90 | the new table, the votes and the reply are those of the `Workflow.RequestOtp` step on the old state with the rendered code; the invariant is kept |
| `Server.VoteServer.SubmitVote` | server.js:93-110 | the new table, the votes and the reply are those of the `Workflow.SubmitVote` step on the old state; the invariant is kept |

## Left out

- The HTTP layer: the Express setup, CORS, body parsing, static files, the
  `GET /` route and `app.listen`. They are library plumbing.
- The rate limiter on the code request (5 requests per client per hour) and
  its 429 reply. Its behaviour belongs to the `express-rate-limit` library.
- The database connection and Mongoose's query semantics. The collection is
  an abstract sequence with a find-by-email query, and records carry no
  timestamp, since its default is set by the library.
- The mail transport and the HTML body of the mail. Sending is reduced to a
  boolean outcome.
- The random draw of the code. The drawn number is a parameter in 1000..9999.
- Interleaving of concurrent requests at the `await` points. Each handler runs
  to completion before the next starts, so the duplicate vote that two racing
  submissions could produce lies outside the model.
- Code expiry. The mail says "Valid for 10 minutes", but no expiry exists in
  the code, so none is modelled.
- JavaScript object details of `otpStore`. Keys inherited from
  `Object.prototype` (such as `constructor`, or `__proto__`, whose assignment
  is ignored) are modelled as ordinary absent or present keys.
- Request bodies whose `email` or `party` is missing, or whose `otp` is not a
  string. `email` and `party` are always strings here. `otp` is a string or
  absent.
- Failures of the database calls themselves, which would end a handler
  with an unhandled rejection.
