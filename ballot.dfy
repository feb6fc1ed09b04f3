/**
 * The ballot side of backend/app.py: the fixed candidate list, the vote
 * counters, the count of voters marked as having voted, and the ordered checks
 * of `vote` as a decision on the state before the request.
 */
module Ballot {
  import opened Wrappers
  import opened Wire
  import opened Matching
  import opened Registry

  /** The four names `initialize_db` seeds and `vote` accepts, in insertion order. */
  const Candidates: seq<string> := ["Tamilaga Vettri Kazhagam", "DMK", "NTK", "BJP"]

  function CandidateSet(): set<string> {
    set c | c in Candidates
  }

  /** The sum of the counters of the candidates `cands` (a missing counter adds nothing). */
  function Tally(votes: map<string, nat>, cands: seq<string>): nat
    decreases |cands|
  {
    if cands == [] then 0
    else
      var c := cands[|cands| - 1];
      Tally(votes, cands[..|cands| - 1]) + (if c in votes then votes[c] else 0)
  }

  /** The number of user ids in `order` whose row has has_voted set. */
  function VotedCount(order: seq<string>, voters: map<string, VoterRecord>): nat
    decreases |order|
  {
    if order == [] then 0
    else
      var u := order[|order| - 1];
      VotedCount(order[..|order| - 1], voters) + (if u in voters && voters[u].hasVoted then 1 else 0)
  }

  /** Counters all at zero add up to zero. */
  lemma {:induction false} TallyOfZeros(votes: map<string, nat>, cands: seq<string>)
    requires forall c :: c in votes ==> votes[c] == 0
    ensures Tally(votes, cands) == 0
    decreases |cands|
  {
    if cands != [] {
      TallyOfZeros(votes, cands[..|cands| - 1]);
    }
  }

  /** Changing a counter of a name outside `cands` does not change their sum. */
  lemma {:induction false} TallyFrame(votes: map<string, nat>, cands: seq<string>, c: string, n: nat)
    requires c !in cands
    ensures Tally(votes[c := n], cands) == Tally(votes, cands)
    decreases |cands|
  {
    if cands != [] {
      TallyFrame(votes, cands[..|cands| - 1], c, n);
    }
  }

  /** Adding one to the counter of a candidate listed once adds one to the sum. */
  lemma {:induction false} TallyIncrement(votes: map<string, nat>, cands: seq<string>, c: string)
    requires Distinct(cands) && c in cands && c in votes
    ensures Tally(votes[c := votes[c] + 1], cands) == Tally(votes, cands) + 1
    decreases |cands|
  {
    var prefix := cands[..|cands| - 1];
    assert Distinct(prefix);
    if cands[|cands| - 1] == c {
      assert c !in prefix;
      TallyFrame(votes, prefix, c, votes[c] + 1);
    } else {
      assert c in prefix;
      TallyIncrement(votes, prefix, c);
    }
  }

  /** Changing the row of a user id outside `order` does not change the count. */
  lemma {:induction false} VotedCountFrame(order: seq<string>, voters: map<string, VoterRecord>, u: string, r: VoterRecord)
    requires u !in order
    ensures VotedCount(order, voters[u := r]) == VotedCount(order, voters)
    decreases |order|
  {
    if order != [] {
      VotedCountFrame(order[..|order| - 1], voters, u, r);
    }
  }

  /** Setting has_voted on one voter who had not voted, listed once, adds one to the count. */
  lemma {:induction false} VotedCountMark(order: seq<string>, voters: map<string, VoterRecord>, u: string)
    requires Distinct(order) && u in order && u in voters && !voters[u].hasVoted
    ensures VotedCount(order, voters[u := voters[u].(hasVoted := true)]) == VotedCount(order, voters) + 1
    decreases |order|
  {
    var prefix := order[..|order| - 1];
    var r := voters[u].(hasVoted := true);
    assert Distinct(prefix);
    if order[|order| - 1] == u {
      assert u !in prefix;
      VotedCountFrame(prefix, voters, u, r);
    } else {
      assert u in prefix;
      VotedCountMark(prefix, voters, u);
    }
  }

  /** Appending a voter who has not voted leaves the count unchanged. */
  lemma AppendUnvoted(order: seq<string>, voters: map<string, VoterRecord>, u: string, template: Image)
    requires u !in order
    ensures VotedCount(order + [u], voters[u := VoterRecord(template, false)]) == VotedCount(order, voters)
  {
    assert (order + [u])[..|order + [u]| - 1] == order;
    VotedCountFrame(order, voters, u, VoterRecord(template, false));
  }

  /** Each listed voter contributes at most one. */
  lemma {:induction false} VotedCountAtMostRows(order: seq<string>, voters: map<string, VoterRecord>)
    ensures VotedCount(order, voters) <= |order|
    decreases |order|
  {
    if order != [] {
      VotedCountAtMostRows(order[..|order| - 1], voters);
    }
  }

  /** The answers of POST /api/vote that this model covers. */
  datatype VoteOutcome =
    | MissingFields
    | InvalidCandidate
    | NotRegistered
    | AlreadyVoted
    | VerificationFailed
    | Recorded(candidate: string)
  {
    function Status(): nat {
      match this
      case VerificationFailed => 401
      case Recorded(_) => 200
      case _ => 400
    }

    function Message(): string {
      match this
      case MissingFields => "Missing required fields"
      case InvalidCandidate => "Invalid candidate selection"
      case NotRegistered => "Voter not registered"
      case AlreadyVoted => "You have already voted"
      case VerificationFailed => "Fingerprint verification failed"
      case Recorded(c) => "Vote for " + c + " recorded successfully"
    }
  }

  predicate FieldsPresent(form: VoteForm) {
    form.name.Some? && form.fingerprint.Some? && form.candidate.Some?
  }

  /** All five checks pass: fields present, a listed candidate, registered, not yet voted, and the fingerprint identifies this very voter. */
  predicate Admissible(voters: map<string, VoterRecord>, stored: seq<StoredFingerprint>, form: VoteForm, m: Matcher) {
    && FieldsPresent(form)
    && form.candidate.value in Candidates
    && form.name.value in voters
    && !voters[form.name.value].hasVoted
    && MatchResult(m, form.fingerprint.value.content, stored) == Some(form.name.value)
  }

  /**
   * The answer `vote` gives, from the `voters` table and its rows in table order
   * before the request: the first failing check decides.
   */
  function Decide(voters: map<string, VoterRecord>, stored: seq<StoredFingerprint>, form: VoteForm, m: Matcher): (outcome: VoteOutcome)
    ensures outcome.Recorded? <==> Admissible(voters, stored, form, m)
    ensures outcome.Recorded? ==> outcome.candidate == form.candidate.value
  {
    if !FieldsPresent(form) then MissingFields
    else if form.candidate.value !in Candidates then InvalidCandidate
    else if form.name.value !in voters then NotRegistered
    else if voters[form.name.value].hasVoted then AlreadyVoted
    else if MatchResult(m, form.fingerprint.value.content, stored) != Some(form.name.value) then VerificationFailed
    else Recorded(form.candidate.value)
  }

  /** A voter whose row has has_voted set never gets a second ballot recorded, whatever the fingerprint. */
  lemma NoSecondBallot(voters: map<string, VoterRecord>, stored: seq<StoredFingerprint>, form: VoteForm, m: Matcher)
    requires FieldsPresent(form) && form.name.value in voters && voters[form.name.value].hasVoted
    ensures !Decide(voters, stored, form, m).Recorded?
  {
  }
}
