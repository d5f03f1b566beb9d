/** The OTP-gated, one-vote-per-email workflow as a state machine on
    values. The state is the pending-code table (email to code) and the
    vote collection; each handler is one step that runs from start to
    finish without interleaving. The class in module Server performs the
    same steps in place and is specified by these functions. */
module Workflow {
  import opened Wrappers
  import opened Votes

  datatype State = State(pending: map<string, string>, votes: seq<Vote>)

  /** Server start: no pending codes, whatever votes the database holds. */
  function Start(stored: seq<Vote>): (s: State)
    ensures s.pending == map[] && s.votes == stored
  {
    State(map[], stored)
  }

  /** The JSON body of a reply: `{message: ...}` on success, `{error: ...}`
      on failure. */
  datatype Payload = Message(message: string) | Error(error: string)

  /** The replies the two handlers send, with their HTTP status and body. */
  datatype Reply =
    | OtpSent
    | EmailHasVoted
    | EmailFailed
    | InvalidOtp
    | AlreadyVoted
    | VoteRecorded
  {
    /** A reply is sent with status 200 exactly when its body is a
        message; every refusal is a 400 except the mail failure's 500. */
    function Status(): (code: nat)
      ensures code == 200 <==> Body().Message?
      ensures code != 200 ==> code == (if this == EmailFailed then 500 else 400)
    {
      match this
      case OtpSent => 200
      case EmailHasVoted => 400
      case EmailFailed => 500
      case InvalidOtp => 400
      case AlreadyVoted => 400
      case VoteRecorded => 200
    }

    function Body(): (p: Payload)
      ensures p.Message? <==> this == OtpSent || this == VoteRecorded
    {
      match this
      case OtpSent => Message("OTP Sent")
      case EmailHasVoted => Error("This email has already voted.")
      case EmailFailed => Error("Email failed")
      case InvalidOtp => Error("Invalid OTP")
      case AlreadyVoted => Error("Already voted")
      case VoteRecorded => Message("Vote Recorded")
    }
  }

  /** The state after a handler ran and the reply it sent. */
  datatype Step = Step(next: State, reply: Reply)

  /** Reading the pending-code table: a missing entry reads as absent
      (JavaScript's `undefined`), not as some string. */
  function Lookup(pending: map<string, string>, email: string): (r: Option<string>)
    ensures r.Some? <==> email in pending
    ensures r.Some? ==> r.value == pending[email]
  {
    if email in pending then Some(pending[email]) else None
  }

  /** `POST /api/request-otp`: refuse an email that has a vote; otherwise
      store the code for it (replacing any earlier one), then try to mail it.
      The outcome of the mail transport is the parameter `sent`. */
  function RequestOtp(s: State, email: string, code: string, sent: bool): (r: Step)
    ensures r.next.votes == s.votes
    ensures r.next == s || Lookup(r.next.pending, email) == Some(code)
    ensures forall e :: e != email ==> Lookup(r.next.pending, e) == Lookup(s.pending, e)
    ensures r.reply == OtpSent || r.reply == EmailFailed || r.reply == EmailHasVoted
    ensures r.reply == OtpSent ==> sent
  {
    if FindByEmail(s.votes, email).Some? then Step(s, EmailHasVoted)
    else
      var s' := State(s.pending[email := code], s.votes);
      if sent then Step(s', OtpSent) else Step(s', EmailFailed)
  }

  /** `POST /api/vote`: the submitted code must equal the pending entry,
      where both may be absent and two absent values are equal; then the
      collection is checked again, the vote inserted and the entry deleted. */
  function SubmitVote(s: State, email: string, otp: Option<string>, party: string): (r: Step)
    ensures r.next.votes == s.votes || r.next.votes == s.votes + [Vote(email, party)]
    ensures forall e :: e != email ==> Lookup(r.next.pending, e) == Lookup(s.pending, e)
    ensures r.reply == InvalidOtp || r.reply == AlreadyVoted || r.reply == VoteRecorded
    ensures r.reply == VoteRecorded ==> Lookup(s.pending, email) == otp && Lookup(r.next.pending, email) == None
  {
    if Lookup(s.pending, email) != otp then Step(s, InvalidOtp)
    else if FindByEmail(s.votes, email).Some? then Step(s, AlreadyVoted)
    else Step(State(s.pending - {email}, s.votes + [Vote(email, party)]), VoteRecorded)
  }

  /** What stays true between requests under sequential execution: no
      email has two votes, and no email that has voted has a pending code. */
  ghost predicate Invariant(s: State)
  {
    && NoDuplicateEmails(s.votes)
    && forall e :: e in s.pending ==> !HasVoted(s.votes, e)
  }

  // ---- OTP request ------------------------------------------------------

  /** An email that has voted is refused, and nothing changes. */
  lemma RequestOtpWhenVoted(s: State, email: string, code: string, sent: bool)
    requires HasVoted(s.votes, email)
    ensures RequestOtp(s, email, code, sent) == Step(s, EmailHasVoted)
    ensures RequestOtp(s, email, code, sent).reply.Body() == Error("This email has already voted.")
  {
  }

  /** For an email with no vote the new code replaces any earlier one for
      that email; every other entry and the vote collection are unchanged. */
  lemma RequestOtpStoresCode(s: State, email: string, code: string, sent: bool)
    requires !HasVoted(s.votes, email)
    ensures var s' := RequestOtp(s, email, code, sent).next;
      && Lookup(s'.pending, email) == Some(code)
      && (forall e :: e != email ==> Lookup(s'.pending, e) == Lookup(s.pending, e))
      && s'.pending.Keys == s.pending.Keys + {email}
      && s'.votes == s.votes
  {
  }

  /** The code is stored before the mail is attempted and is kept when the
      mail fails: the outcome of sending changes only the reply. */
  lemma RequestOtpSendOutcome(s: State, email: string, code: string)
    requires !HasVoted(s.votes, email)
    ensures RequestOtp(s, email, code, true).next == RequestOtp(s, email, code, false).next
    ensures RequestOtp(s, email, code, true).reply == OtpSent
    ensures RequestOtp(s, email, code, false).reply == EmailFailed
    ensures RequestOtp(s, email, code, false).reply.Status() == 500
  {
  }

  lemma RequestOtpPreservesInvariant(s: State, email: string, code: string, sent: bool)
    requires Invariant(s)
    ensures Invariant(RequestOtp(s, email, code, sent).next)
  {
  }

  // ---- vote submission --------------------------------------------------

  /** The submission is refused as "Invalid OTP" exactly when the submitted
      code differs from the pending entry, and then nothing is written. */
  lemma SubmitVoteInvalidOtp(s: State, email: string, otp: Option<string>, party: string)
    ensures SubmitVote(s, email, otp, party).reply == InvalidOtp <==> Lookup(s.pending, email) != otp
    ensures SubmitVote(s, email, otp, party).reply == InvalidOtp ==> SubmitVote(s, email, otp, party).next == s
  {
  }

  /** A submission that passes the code check for an email that has voted
      is refused as "Already voted"; no vote is written and the pending
      entry stays. */
  lemma SubmitVoteWhenVoted(s: State, email: string, otp: Option<string>, party: string)
    requires Lookup(s.pending, email) == otp
    requires HasVoted(s.votes, email)
    ensures SubmitVote(s, email, otp, party) == Step(s, AlreadyVoted)
  {
  }

  /** A successful submission appends exactly the vote `{email, party}`,
      removes only that email's pending entry, and reports "Vote Recorded";
      every other reply leaves the state as it was. */
  lemma SubmitVoteRecords(s: State, email: string, otp: Option<string>, party: string)
    ensures var r := SubmitVote(s, email, otp, party);
      r.reply == VoteRecorded <==> Lookup(s.pending, email) == otp && !HasVoted(s.votes, email)
    ensures var r := SubmitVote(s, email, otp, party);
      r.reply == VoteRecorded ==>
        && r.next.votes == s.votes + [Vote(email, party)]
        && r.next.pending.Keys == s.pending.Keys - {email}
        && (forall e :: e != email ==> Lookup(r.next.pending, e) == Lookup(s.pending, e))
    ensures var r := SubmitVote(s, email, otp, party);
      r.reply != VoteRecorded ==> r.next == s
  {
  }

  /** Replaying a payload after it was recorded fails and writes nothing:
      with a code it is "Invalid OTP" (the entry is gone), without one it
      passes the code check and is "Already voted". */
  lemma ReplayFails(s: State, email: string, otp: Option<string>, party: string)
    requires SubmitVote(s, email, otp, party).reply == VoteRecorded
    ensures var s' := SubmitVote(s, email, otp, party).next;
      SubmitVote(s', email, otp, party) == Step(s', if otp.Some? then InvalidOtp else AlreadyVoted)
  {
    var s' := SubmitVote(s, email, otp, party).next;
    HasVotedAfterInsert(s.votes, Vote(email, party), email);
    assert Lookup(s'.pending, email) == None;
  }

  lemma SubmitVotePreservesInvariant(s: State, email: string, otp: Option<string>, party: string)
    requires Invariant(s)
    ensures Invariant(SubmitVote(s, email, otp, party).next)
  {
    var r := SubmitVote(s, email, otp, party);
    if r.reply == VoteRecorded {
      var v := Vote(email, party);
      InsertKeepsEmailsUnique(s.votes, v);
      forall e | e in r.next.pending
        ensures !HasVoted(r.next.votes, e)
      {
        HasVotedAfterInsert(s.votes, v, e);
      }
    }
  }

  /** The code check compares possibly-absent values: an email with no
      pending code and no vote, submitted without a code, passes it, so a
      vote is recorded although no code is pending for that email. */
  lemma VoteWithoutOtp(s: State, email: string, party: string)
    requires email !in s.pending
    requires !HasVoted(s.votes, email)
    ensures SubmitVote(s, email, None, party).reply == VoteRecorded
    ensures SubmitVote(s, email, None, party).next.votes == s.votes + [Vote(email, party)]
  {
  }

  /** Between requests, the "Already voted" refusal of a submission is only
      reachable by omitting the code for an email with no pending entry. */
  lemma AlreadyVotedOnlyWithoutOtp(s: State, email: string, otp: Option<string>, party: string)
    requires Invariant(s)
    requires SubmitVote(s, email, otp, party).reply == AlreadyVoted
    ensures otp == None && email !in s.pending
  {
  }

  /** Requesting a code for an email with no vote and then submitting that
      code records exactly one vote with that email and party, whether or
      not the mail went out. */
  lemma RequestThenSubmit(s: State, email: string, code: string, sent: bool, party: string)
    requires !HasVoted(s.votes, email)
    ensures var s1 := RequestOtp(s, email, code, sent).next;
      var r := SubmitVote(s1, email, Some(code), party);
      && r.reply == VoteRecorded
      && r.next.votes == s.votes + [Vote(email, party)]
      && r.next.pending == s.pending - {email}
  {
    var s1 := RequestOtp(s, email, code, sent).next;
    RequestOtpStoresCode(s, email, code, sent);
    assert s1.pending - {email} == s.pending - {email};
  }

  // ---- sequences of requests ----------------------------------------------

  /** One request to either handler, with the outside world's contribution
      (the drawn code, the mail outcome) carried in the request. */
  datatype Request =
    | RequestOtpCall(email: string, code: string, sent: bool)
    | SubmitVoteCall(email: string, otp: Option<string>, party: string)

  function Handle(s: State, req: Request): (r: Step)
    ensures s.votes <= r.next.votes
  {
    match req
    case RequestOtpCall(email, code, sent) => RequestOtp(s, email, code, sent)
    case SubmitVoteCall(email, otp, party) => SubmitVote(s, email, otp, party)
  }

  /** The state after serving the requests one after another. */
  function Run(s: State, reqs: seq<Request>): (s': State)
    decreases |reqs|
  {
    if reqs == [] then s else Run(Handle(s, reqs[0]).next, reqs[1..])
  }

  lemma HandlePreservesInvariant(s: State, req: Request)
    requires Invariant(s)
    ensures Invariant(Handle(s, req).next)
  {
    match req
    case RequestOtpCall(email, code, sent) =>
      RequestOtpPreservesInvariant(s, email, code, sent);
    case SubmitVoteCall(email, otp, party) =>
      SubmitVotePreservesInvariant(s, email, otp, party);
  }

  lemma {:induction false} RunPreservesInvariant(s: State, reqs: seq<Request>)
    requires Invariant(s)
    ensures Invariant(Run(s, reqs))
    decreases |reqs|
  {
    if reqs != [] {
      HandlePreservesInvariant(s, reqs[0]);
      RunPreservesInvariant(Handle(s, reqs[0]).next, reqs[1..]);
    }
  }

  /** Served one at a time, any sequence of requests leaves the collection
      with at most one vote per email, provided it started that way. */
  lemma NoDuplicateVotes(stored: seq<Vote>, reqs: seq<Request>)
    requires NoDuplicateEmails(stored)
    ensures NoDuplicateEmails(Run(Start(stored), reqs).votes)
  {
    RunPreservesInvariant(Start(stored), reqs);
  }

  /** Votes are only ever appended: earlier records are never changed or
      removed. */
  lemma {:induction false} VotesOnlyGrow(s: State, reqs: seq<Request>)
    ensures s.votes <= Run(s, reqs).votes
    decreases |reqs|
  {
    if reqs != [] {
      var s1 := Handle(s, reqs[0]).next;
      VotesOnlyGrow(s1, reqs[1..]);
    }
  }
}
