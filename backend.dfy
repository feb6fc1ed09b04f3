/**
 * The SQLite database of backend/app.py as an object: the `voters` table
 * (user id -> fingerprint, has_voted), the order its rows were inserted in,
 * and the `votes` table (candidate -> vote_count). Each Flask route that
 * touches the tables is a method or function of `Database`; requests are
 * handled one after another.
 */
module Backend {
  import opened Wrappers
  import opened Wire
  import opened Matching
  import opened Registry
  import opened Ballot
  import opened Decimal

  /** The answers of POST /api/register that this model covers. */
  datatype RegisterOutcome = NoValidVoters | Registered(count: nat)
  {
    function Status(): nat {
      if NoValidVoters? then 400 else 200
    }

    function Message(): string {
      match this
      case NoValidVoters => "No valid voters to register"
      case Registered(count) => "Successfully registered " + NatToString(count) + " voters"
    }
  }

  /** One entry of the GET /api/results body. */
  datatype CandidateCount = CandidateCount(candidate: string, voteCount: nat)

  /** One entry of the GET /api/voters body. */
  datatype VoterStatus = VoterStatus(name: string, hasVoted: bool)

  /**
   * The table invariant: every row listed once in rowid order, the four
   * candidates the only counters, and the sum of all vote counts equal to the
   * number of voters with has_voted set.
   */
  ghost predicate TablesValid(voters: map<string, VoterRecord>, rowOrder: seq<string>, votes: map<string, nat>) {
    && Distinct(rowOrder)
    && (forall i :: 0 <= i < |rowOrder| ==> rowOrder[i] in voters)
    && (forall u :: u in voters ==> u in rowOrder)
    && (forall c :: c in votes <==> c in Candidates)
    && Tally(votes, Candidates) == VotedCount(rowOrder, voters)
  }

  /** Under the invariant no more ballots are counted than there are voter rows: each voter adds at most one. */
  lemma BallotsAtMostVoters(voters: map<string, VoterRecord>, rowOrder: seq<string>, votes: map<string, nat>)
    requires TablesValid(voters, rowOrder, votes)
    ensures Tally(votes, Candidates) <= |rowOrder|
  {
    VotedCountAtMostRows(rowOrder, voters);
  }

  /** The rows `match_fingerprint` reads (`SELECT user_id, fingerprint FROM voters`), in table order. */
  function StoredRows(voters: map<string, VoterRecord>, rowOrder: seq<string>): (rows: seq<StoredFingerprint>)
    requires forall i :: 0 <= i < |rowOrder| ==> rowOrder[i] in voters
    ensures |rows| == |rowOrder|
    ensures forall i :: 0 <= i < |rows| ==> rows[i].userId == rowOrder[i] && rows[i].template == voters[rowOrder[i]].template
  {
    seq(|rowOrder|, i requires 0 <= i < |rowOrder| => StoredFingerprint(rowOrder[i], voters[rowOrder[i]].template))
  }

  /** Inserting a new user id with has_voted = 0 keeps the invariant. */
  lemma InsertKeepsValid(voters: map<string, VoterRecord>, rowOrder: seq<string>, votes: map<string, nat>, name: string, template: Image)
    requires TablesValid(voters, rowOrder, votes) && name !in voters
    ensures TablesValid(voters[name := VoterRecord(template, false)], rowOrder + [name], votes)
  {
    AppendUnvoted(rowOrder, voters, name, template);
  }

  /** Counting one ballot and marking its voter keeps the invariant. */
  lemma BallotKeepsValid(voters: map<string, VoterRecord>, rowOrder: seq<string>, votes: map<string, nat>, name: string, candidate: string)
    requires TablesValid(voters, rowOrder, votes)
    requires candidate in Candidates && name in voters && !voters[name].hasVoted
    ensures TablesValid(voters[name := voters[name].(hasVoted := true)], rowOrder, votes[candidate := votes[candidate] + 1])
  {
    assert Distinct(Candidates);
    TallyIncrement(votes, Candidates, candidate);
    VotedCountMark(rowOrder, voters, name);
  }

  /**
   * The loop of `register_voters` over indices 0 .. voterCount-1, on the
   * tables as the open transaction sees them: its own inserts count as present.
   */
  method StageInserts(form: RegisterForm, voterCount: nat, table: map<string, VoterRecord>, order: seq<string>, ghost votes: map<string, nat>)
    returns (newTable: map<string, VoterRecord>, newOrder: seq<string>, registeredCount: nat)
    requires TablesValid(table, order, votes)
    ensures TablesValid(newTable, newOrder, votes)
    ensures var added := Admitted(Batch(form, voterCount), table.Keys);
      && registeredCount == |added|
      && newOrder == order + Names(added)
      && newTable == InsertAll(table, added)
  {
    ghost var added: seq<Entry> := [];
    newTable, newOrder, registeredCount := table, order, 0;
    var i := 0;
    while i < voterCount
      invariant 0 <= i <= voterCount
      invariant added == Admitted(Batch(form, i), table.Keys)
      invariant registeredCount == |added|
      invariant newOrder == order + Names(added)
      invariant newTable == InsertAll(table, added)
    {
      newTable, newOrder, registeredCount, added := StageIndex(form, i, table, order, added, newTable, newOrder, registeredCount);
      i := i + 1;
    }
    AdmittedSound(Batch(form, voterCount), table.Keys);
    InsertAllKeepsValid(table, order, votes, added);
  }

  /**
   * One iteration of the insert loop: an index without both keys, with an
   * empty name or an unnamed file, or whose name the transaction already
   * sees, changes nothing; any other entry is inserted with has_voted 0 and
   * counted.
   */
  method StageIndex(form: RegisterForm, i: nat, ghost table: map<string, VoterRecord>, ghost order: seq<string>, ghost added: seq<Entry>,
                    newTable: map<string, VoterRecord>, newOrder: seq<string>, registeredCount: nat)
    returns (nextTable: map<string, VoterRecord>, nextOrder: seq<string>, nextCount: nat, ghost nextAdded: seq<Entry>)
    requires added == Admitted(Batch(form, i), table.Keys) && registeredCount == |added|
    requires newOrder == order + Names(added) && newTable == InsertAll(table, added)
    ensures var next := Admitted(Batch(form, i + 1), table.Keys);
      && nextCount == |next|
      && nextOrder == order + Names(next)
      && nextTable == InsertAll(table, next)
    ensures nextAdded == Admitted(Batch(form, i + 1), table.Keys)
  {
    StageStep(form, i, table, order, added, newTable, newOrder);
    nextTable, nextOrder, nextCount, nextAdded := newTable, newOrder, registeredCount, added;
    if i !in form.names || i !in form.fingerprints {
      return;
    }
    var name := form.names[i];
    var fingerprintFile := form.fingerprints[i];
    if name == "" || !Truthy(fingerprintFile) {
      return;
    }
    if name in newTable {
      return;
    }
    nextOrder := newOrder + [name];
    nextTable := newTable[name := VoterRecord(fingerprintFile.content, false)];
    nextAdded := added + [Entry(name, fingerprintFile)];
    nextCount := registeredCount + 1;
  }

  /**
   * The bookkeeping of one iteration: an index that is not well formed, or
   * whose name the transaction already sees, leaves the admitted entries as
   * they are; any other entry is admitted, appended to the row order and
   * inserted.
   */
  lemma StageStep(form: RegisterForm, i: nat, table: map<string, VoterRecord>, order: seq<string>,
                  added: seq<Entry>, newTable: map<string, VoterRecord>, newOrder: seq<string>)
    requires added == Admitted(Batch(form, i), table.Keys)
    requires newOrder == order + Names(added) && newTable == InsertAll(table, added)
    ensures !WellFormedAt(form, i) ==> Admitted(Batch(form, i + 1), table.Keys) == added
    ensures WellFormedAt(form, i) && form.names[i] in newTable ==> Admitted(Batch(form, i + 1), table.Keys) == added
    ensures WellFormedAt(form, i) && form.names[i] !in newTable ==>
      var e := EntryAt(form, i);
      && Admitted(Batch(form, i + 1), table.Keys) == added + [e]
      && order + Names(added + [e]) == newOrder + [e.name]
      && InsertAll(table, added + [e]) == newTable[e.name := VoterRecord(e.upload.content, false)]
  {
    if WellFormedAt(form, i) {
      var e := EntryAt(form, i);
      assert Batch(form, i + 1) == Batch(form, i) + [e];
      AdmittedStep(Batch(form, i), e, table.Keys);
      InsertStep(table, added, e);
      AppendAssociates(order, Names(added), e.name);
    } else {
      assert Batch(form, i + 1) == Batch(form, i);
    }
  }

  /** Inserting admitted entries one after another keeps the invariant. */
  lemma {:induction false} InsertAllKeepsValid(table: map<string, VoterRecord>, order: seq<string>, votes: map<string, nat>, added: seq<Entry>)
    requires TablesValid(table, order, votes)
    requires forall e :: e in added ==> e.name !in table
    requires Distinct(Names(added))
    ensures TablesValid(InsertAll(table, added), order + Names(added), votes)
    decreases |added|
  {
    if added == [] {
      assert order + Names(added) == order;
    } else {
      var prefix := added[..|added| - 1];
      var e := added[|added| - 1];
      assert added == prefix + [e];
      assert Distinct(Names(prefix)) by {
        assert forall i :: 0 <= i < |prefix| ==> Names(prefix)[i] == Names(added)[i];
      }
      assert e.name !in NameSet(prefix);
      InsertAllKeepsValid(table, order, votes, prefix);
      InsertOneMoreKeepsValid(table, order, votes, prefix, e);
    }
  }

  lemma InsertOneMoreKeepsValid(table: map<string, VoterRecord>, order: seq<string>, votes: map<string, nat>, prefix: seq<Entry>, e: Entry)
    requires TablesValid(InsertAll(table, prefix), order + Names(prefix), votes)
    requires e.name !in table && e.name !in NameSet(prefix)
    ensures TablesValid(InsertAll(table, prefix + [e]), order + Names(prefix + [e]), votes)
  {
    var t := InsertAll(table, prefix);
    var o := order + Names(prefix);
    InsertKeepsValid(t, o, votes, e.name, e.upload.content);
    InsertStep(table, prefix, e);
    AppendAssociates(order, Names(prefix), e.name);
  }

  lemma AppendAssociates(a: seq<string>, b: seq<string>, x: string)
    ensures (a + b) + [x] == a + (b + [x])
  {
  }

  class Database {
    /** user_id -> (fingerprint, has_voted). */
    var voters: map<string, VoterRecord>
    /** The user ids in rowid order, the order in which a plain `SELECT ... FROM voters` returns them. */
    var rowOrder: seq<string>
    /** candidate -> vote_count. */
    var votes: map<string, nat>

    ghost predicate Valid()
      reads this
    {
      TablesValid(voters, rowOrder, votes)
    }

    /** A fresh database file: empty tables, then `initialize_db`. */
    constructor ()
      ensures Valid()
      ensures voters == map[] && rowOrder == []
      ensures forall c :: c in votes <==> c in Candidates
      ensures forall c :: c in votes ==> votes[c] == 0
    {
      voters := map[];
      rowOrder := [];
      votes := map[];
      new;
      InitializeDb();
      TallyOfZeros(votes, Candidates);
    }

    /**
     * `initialize_db`: INSERT OR IGNORE each candidate with count 0. Counters
     * that exist keep their value; missing ones start at 0; voters are untouched.
     */
    method InitializeDb()
      modifies this
      ensures voters == old(voters) && rowOrder == old(rowOrder)
      ensures forall c :: c in votes <==> c in old(votes) || c in Candidates
      ensures forall c :: c in old(votes) ==> votes[c] == old(votes)[c]
      ensures forall c :: c in votes && c !in old(votes) ==> votes[c] == 0
      ensures old(Valid()) ==> votes == old(votes) && Valid()
    {
      var i := 0;
      while i < |Candidates|
        invariant 0 <= i <= |Candidates|
        invariant voters == old(voters) && rowOrder == old(rowOrder)
        invariant forall c :: c in votes <==> c in old(votes) || c in Candidates[..i]
        invariant forall c :: c in old(votes) ==> votes[c] == old(votes)[c]
        invariant forall c :: c in votes && c !in old(votes) ==> votes[c] == 0
      {
        var candidate := Candidates[i];
        assert Candidates[..i + 1] == Candidates[..i] + [candidate];
        if candidate !in votes {
          votes := votes[candidate := 0];
        }
        i := i + 1;
      }
      assert Candidates[..i] == Candidates;
      if old(Valid()) {
        assert votes.Keys == old(votes).Keys;
        assert votes == old(votes);
      }
    }

    /**
     * `register_voters`: a voter_count of 0 or less is refused with 400 and
     * nothing written; otherwise each well-formed index below voter_count whose
     * name is not yet a user id adds one row, existing rows stay as they were,
     * and the answer counts the rows added.
     */
    method RegisterVoters(form: RegisterForm) returns (outcome: RegisterOutcome)
      requires Valid()
      modifies this
      ensures Valid()
      ensures votes == old(votes)
      ensures VoterCount(form) <= 0 ==>
        outcome == NoValidVoters && voters == old(voters) && rowOrder == old(rowOrder)
      ensures VoterCount(form) > 0 ==>
        var added := Admitted(Batch(form, VoterCount(form)), old(voters).Keys);
        && outcome == Registered(|added|)
        && rowOrder == old(rowOrder) + Names(added)
        && voters == InsertAll(old(voters), added)
      ensures forall u :: u in old(voters) ==> u in voters && voters[u] == old(voters)[u]
    {
      var voterCount := VoterCount(form);
      if voterCount <= 0 {
        return NoValidVoters;
      }
      var newTable, newOrder, registeredCount := StageInserts(form, voterCount, voters, rowOrder, votes);
      AdmittedSound(Batch(form, voterCount), voters.Keys);
      InsertAllKeepsRows(voters, Admitted(Batch(form, voterCount), voters.Keys));
      // conn.commit()
      voters, rowOrder := newTable, newOrder;
      return Registered(registeredCount);
    }

    /**
     * `vote`: the answer is the first failing check, in the order the route
     * makes them; a rejected request changes nothing; an accepted one adds one
     * to the chosen counter and sets has_voted for that voter only.
     */
    method Vote(form: VoteForm, m: Matcher) returns (outcome: VoteOutcome)
      requires Valid()
      modifies this
      ensures Valid()
      ensures outcome == Decide(old(voters), StoredRows(old(voters), old(rowOrder)), form, m)
      ensures rowOrder == old(rowOrder)
      ensures outcome.Recorded? ==>
        && votes == old(votes)[outcome.candidate := old(votes)[outcome.candidate] + 1]
        && voters == old(voters)[form.name.value := old(voters)[form.name.value].(hasVoted := true)]
      ensures !outcome.Recorded? ==> votes == old(votes) && voters == old(voters)
    {
      if form.name.None? || form.fingerprint.None? || form.candidate.None? {
        return MissingFields;
      }
      var name := form.name.value;
      var fingerprintFile := form.fingerprint.value;
      var candidate := form.candidate.value;
      if candidate !in Candidates {
        return InvalidCandidate;
      }
      if name !in voters {
        return NotRegistered;
      }
      var record := voters[name];
      if record.hasVoted {
        return AlreadyVoted;
      }
      // The upload is written to temp_verify.png and read back: the probe is its content.
      var matchResult := MatchFingerprint(m, fingerprintFile.content, StoredRows(voters, rowOrder));
      if matchResult != Some(name) {
        return VerificationFailed;
      }
      RecordBallot(name, candidate);
      return Recorded(candidate);
    }

    /** The UPDATE of the candidate's counter and of the voter's has_voted flag, committed together. */
    method RecordBallot(name: string, candidate: string)
      requires Valid()
      requires candidate in Candidates && name in voters && !voters[name].hasVoted
      modifies this
      ensures Valid()
      ensures rowOrder == old(rowOrder)
      ensures votes == old(votes)[candidate := old(votes)[candidate] + 1]
      ensures voters == old(voters)[name := old(voters)[name].(hasVoted := true)]
    {
      BallotKeepsValid(voters, rowOrder, votes, name, candidate);
      votes := votes[candidate := votes[candidate] + 1];
      voters := voters[name := voters[name].(hasVoted := true)];
    }

    /** `get_results`: every counter, in the order the candidates were inserted. */
    function GetResults(): (results: seq<CandidateCount>)
      reads this
      requires Valid()
      ensures |results| == |Candidates|
      ensures forall i :: 0 <= i < |results| ==> results[i] == CandidateCount(Candidates[i], votes[Candidates[i]])
    {
      seq(|Candidates|, i requires 0 <= i < |Candidates| && Valid() reads this =>
        CandidateCount(Candidates[i], votes[Candidates[i]]))
    }

    /** `get_voters`: every voter with its has_voted flag, in table order. */
    function GetVoters(): (statuses: seq<VoterStatus>)
      reads this
      requires Valid()
      ensures |statuses| == |rowOrder|
      ensures forall i :: 0 <= i < |statuses| ==> statuses[i] == VoterStatus(rowOrder[i], voters[rowOrder[i]].hasVoted)
    {
      seq(|rowOrder|, i requires 0 <= i < |rowOrder| && Valid() reads this =>
        VoterStatus(rowOrder[i], voters[rowOrder[i]].hasVoted))
    }
  }
}
