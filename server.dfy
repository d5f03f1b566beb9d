/** The running server: the process-local pending-code table `otpStore`
    and the vote collection, updated in place by the two handlers. Each
    handler is specified by the matching step of module Workflow, so every
    property proved there holds of the object. */
module Server {
  import opened Wrappers
  import opened Votes
  import opened OtpCode
  import opened Workflow

  class VoteServer {
    /** Pending codes by email; entries are never expired. */
    var otpStore: map<string, string>
    /** The vote collection, in insertion order. */
    var votes: seq<Vote>

    function Snapshot(): (s: State)
      reads this
    {
      State(otpStore, votes)
    }

    ghost predicate Valid()
      reads this
    {
      Invariant(Snapshot())
    }

    /** Process start: an empty table beside the votes already stored. */
    constructor (stored: seq<Vote>)
      ensures Snapshot() == Start(stored)
      ensures Valid() <==> NoDuplicateEmails(stored)
    {
      otpStore := map[];
      votes := stored;
    }

    /** `POST /api/request-otp` for `email`. The drawn number `n` and the
        outcome `sendOk` of the mail transport come from outside. */
    method RequestOtp(email: string, n: nat, sendOk: bool) returns (reply: Reply)
      requires MIN_CODE <= n <= MAX_CODE
      modifies this
      ensures Step(Snapshot(), reply) == Workflow.RequestOtp(old(Snapshot()), email, DecimalString(n), sendOk)
      ensures old(Valid()) ==> Valid()
    {
      ghost var s := Snapshot();
      var existing := FindByEmail(votes, email);
      if existing.Some? {
        return EmailHasVoted;
      }
      var otp := DecimalString(n);
      otpStore := otpStore[email := otp];
      if sendOk {
        reply := OtpSent;
      } else {
        reply := EmailFailed;
      }
      if Invariant(s) {
        RequestOtpPreservesInvariant(s, email, otp, sendOk);
      }
    }

    /** `POST /api/vote` with the fields of the request body; `otp` is
        absent when the body has none. */
    method SubmitVote(email: string, otp: Option<string>, party: string) returns (reply: Reply)
      modifies this
      ensures Step(Snapshot(), reply) == Workflow.SubmitVote(old(Snapshot()), email, otp, party)
      ensures old(Valid()) ==> Valid()
    {
      ghost var s := Snapshot();
      var pending := Lookup(otpStore, email);
      if pending != otp {
        return InvalidOtp;
      }
      var existing := FindByEmail(votes, email);
      if existing.Some? {
        return AlreadyVoted;
      }
      votes := votes + [Vote(email, party)];
      otpStore := otpStore - {email};
      reply := VoteRecorded;
      if Invariant(s) {
        SubmitVotePreservesInvariant(s, email, otp, party);
      }
    }
  }
}
