/** The vote collection (the `Vote` model of server.js), seen abstractly:
    an ordered sequence of records with a "find by email" query and an
    insert that appends. The database's own timestamp default is not part
    of the record here. */
module Votes {
  import opened Wrappers

  /** One recorded vote: the voter's email and the chosen party. */
  datatype Vote = Vote(email: string, party: string)

  /** Some record in the collection carries this email. */
  ghost predicate HasVoted(votes: seq<Vote>, email: string)
  {
    exists i :: 0 <= i < |votes| && votes[i].email == email
  }

  /** No two records carry the same email. */
  ghost predicate NoDuplicateEmails(votes: seq<Vote>)
  {
    forall i, j :: 0 <= i < j < |votes| ==> votes[i].email != votes[j].email
  }

  /** The "find one by email" query: some record with that email, or
      nothing when there is none. */
  function FindByEmail(votes: seq<Vote>, email: string): (r: Option<Vote>)
    ensures r.Some? <==> HasVoted(votes, email)
    ensures r.Some? ==> r.value in votes && r.value.email == email
  {
    if votes == [] then None
    else if votes[0].email == email then Some(votes[0])
    else
      var rest := FindByEmail(votes[1..], email);
      assert HasVoted(votes[1..], email) ==> HasVoted(votes, email) by {
        if HasVoted(votes[1..], email) {
          var i :| 0 <= i < |votes[1..]| && votes[1..][i].email == email;
          assert votes[i + 1].email == email;
        }
      }
      rest
  }

  /** Inserting a record adds exactly its email to the set of emails that
      have voted. */
  lemma HasVotedAfterInsert(votes: seq<Vote>, v: Vote, email: string)
    ensures HasVoted(votes + [v], email) <==> HasVoted(votes, email) || v.email == email
  {
    var votes' := votes + [v];
    if HasVoted(votes', email) && v.email != email {
      var i :| 0 <= i < |votes'| && votes'[i].email == email;
      assert i < |votes| && votes[i].email == email;
    }
    if HasVoted(votes, email) {
      var i :| 0 <= i < |votes| && votes[i].email == email;
      assert votes'[i].email == email;
    }
    assert votes'[|votes|] == v;
  }

  /** Inserting a record whose email has not voted keeps emails unique. */
  lemma InsertKeepsEmailsUnique(votes: seq<Vote>, v: Vote)
    requires NoDuplicateEmails(votes)
    requires !HasVoted(votes, v.email)
    ensures NoDuplicateEmails(votes + [v])
  {
    var votes' := votes + [v];
    forall i, j | 0 <= i < j < |votes'|
      ensures votes'[i].email != votes'[j].email
    {
      if j == |votes| {
        assert votes'[i] == votes[i];
      }
    }
  }
}
