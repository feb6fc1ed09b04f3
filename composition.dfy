/**
 * The frontend and the backend together: what `register_voters` does with
 * the request the registration pages build, and what `vote` does with the
 * candidate values the vote form offers.
 */
module Composition {
  import opened Wrappers
  import opened Decimal
  import opened Wire
  import opened Registry
  import opened Ballot
  import opened Backend
  import opened RegistrationForm
  import opened AppPage
  import Matching

  /** Files chosen in a browser carry a file name, so the server sees a truthy file part. */
  predicate FilesNamed(rows: seq<VoterRow>) {
    forall i :: 0 <= i < |rows| && rows[i].file.Some? ==> Truthy(rows[i].file.value)
  }

  function RowEntry(row: VoterRow): Entry
    requires IsComplete(row)
  {
    Entry(row.name, row.file.value)
  }

  /** The (name, file) pairs of the complete rows, in row order. */
  function CompleteEntries(rows: seq<VoterRow>): (entries: seq<Entry>)
    ensures |entries| == ValidCount(rows)
    decreases |rows|
  {
    if rows == [] then []
    else CompleteEntries(rows[..|rows| - 1]) + (if IsComplete(rows[|rows| - 1]) then [RowEntry(rows[|rows| - 1])] else [])
  }

  /** The value `voter_count` carries is the page's count spelled in decimal, and the server reads the same number back. */
  lemma VoterCountTextRoundTrip(rows: seq<VoterRow>)
    ensures VoterCount(EncodedForm(rows)) == DecimalValue(NatToString(ValidCount(rows))) == ValidCount(rows)
  {
    DecimalRoundTrip(ValidCount(rows));
  }

  /**
   * The server loop over `range(voter_count)` sees exactly the complete rows
   * among the first n rows: the keys it asks for are positions, and the page
   * wrote each complete row under its position.
   */
  lemma BatchOfEncodedForm(rows: seq<VoterRow>, n: nat)
    requires FilesNamed(rows) && n <= |rows|
    ensures Batch(EncodedForm(rows), n) == CompleteEntries(rows[..n])
  {
    var form := EncodedForm(rows);
    EncodedFormKeys(rows);
    forall i | 0 <= i < |rows|
      ensures (WellFormedAt(form, i) <==> IsComplete(rows[i]))
      ensures IsComplete(rows[i]) ==> WellFormedAt(form, i) && EntryAt(form, i) == RowEntry(rows[i])
    {
      assert i in form.names <==> IsComplete(rows[i]);
    }
    BatchOfPositionKeyedForm(form, rows, n);
  }

  /** A form holding each complete row under its position, and nothing else, yields the complete rows below n. */
  lemma {:induction false} BatchOfPositionKeyedForm(form: RegisterForm, rows: seq<VoterRow>, n: nat)
    requires n <= |rows|
    requires forall i :: 0 <= i < |rows| ==> (WellFormedAt(form, i) <==> IsComplete(rows[i]))
    requires forall i :: 0 <= i < |rows| && IsComplete(rows[i]) ==> WellFormedAt(form, i) && EntryAt(form, i) == RowEntry(rows[i])
    ensures Batch(form, n) == CompleteEntries(rows[..n])
    decreases n
  {
    if n > 0 {
      BatchOfPositionKeyedForm(form, rows, n - 1);
      assert rows[..n][..n - 1] == rows[..n - 1];
    }
  }

  lemma {:induction false} ValidCountPrefixMonotone(rows: seq<VoterRow>, a: nat, b: nat)
    requires a <= b <= |rows|
    ensures ValidCount(rows[..a]) <= ValidCount(rows[..b])
    decreases b - a
  {
    if a < b {
      ValidCountPrefixMonotone(rows, a, b - 1);
      assert rows[..b][..b - 1] == rows[..b - 1];
    }
  }

  /**
   * As written: a complete row at a position at or past the number of
   * complete rows is never examined by the server, so fewer complete rows
   * reach the insert loop than the page counted. The count sent is positive,
   * so `register_voters` takes its success branch and answers 200.
   */
  lemma LateRowIsLost(rows: seq<VoterRow>, k: nat)
    requires FilesNamed(rows)
    requires k < |rows| && IsComplete(rows[k]) && k >= ValidCount(rows)
    ensures |Batch(EncodedForm(rows), VoterCount(EncodedForm(rows)))| < ValidCount(rows)
    ensures VoterCount(EncodedForm(rows)) > 0
  {
    var v := ValidCount(rows);
    LateRowUncounted(rows, k);
    BatchOfEncodedForm(rows, v);
    assert VoterCount(EncodedForm(rows)) == v;
  }

  /** The complete rows among the first ValidCount(rows) rows miss the complete row at k ≥ ValidCount(rows). */
  lemma LateRowUncounted(rows: seq<VoterRow>, k: nat)
    requires k < |rows| && IsComplete(rows[k]) && k >= ValidCount(rows)
    ensures ValidCount(rows[..ValidCount(rows)]) < ValidCount(rows)
  {
    var v := ValidCount(rows);
    ValidCountPrefixMonotone(rows, v, k);
    assert rows[..k + 1][..k] == rows[..k];
    ValidCountPrefixMonotone(rows, k + 1, |rows|);
    assert rows[..|rows|] == rows;
  }

  /** Two rows, the first left empty: the second voter is sent as `name_1` with `voter_count` 1, and nobody is registered. */
  lemma EmptyFirstRowLosesVoter()
    ensures var rows := [VoterRow("0", "", None), VoterRow("1", "alice", Some(Upload("alice.png", [1])))];
      && VoterCount(EncodedForm(rows)) == 1
      && 1 in EncodedForm(rows).names && EncodedForm(rows).names[1] == "alice"
      && Admitted(Batch(EncodedForm(rows), 1), {}) == []
      && Registered(0).Status() == 200
      && Registered(0).Message() == "Successfully registered 0 voters"
  {
    var rows := [VoterRow("0", "", None), VoterRow("1", "alice", Some(Upload("alice.png", [1])))];
    assert rows[..1] == [rows[0]];
    assert ValidCount(rows[..1]) == 0;
    assert ValidCount(rows) == 1;
    assert !WellFormedAt(EncodedForm(rows), 0);
  }

  /**
   * Corrected encoding: the k-th complete row is written under key k, so the
   * keys are exactly 0 .. voter_count-1.
   */
  function EncodeByRank(rows: seq<VoterRow>): (form: RegisterForm)
    ensures form.voterCount == Some(ValidCount(rows))
    ensures forall k: nat :: (k in form.names <==> k < ValidCount(rows)) && (k in form.fingerprints <==> k < ValidCount(rows))
    ensures forall k :: 0 <= k < ValidCount(rows) ==> Entry(form.names[k], form.fingerprints[k]) == CompleteEntries(rows)[k]
  {
    ValidIndicesShape(rows);
    CompleteEntriesAtIndices(rows);
    var indices := ValidIndices(rows);
    RegisterForm(
      map k | 0 <= k < |indices| && indices[k] < |rows| && IsComplete(rows[indices[k]]) :: rows[indices[k]].name,
      map k | 0 <= k < |indices| && indices[k] < |rows| && IsComplete(rows[indices[k]]) :: rows[indices[k]].file.value,
      Some(|indices|))
  }

  lemma {:induction false} CompleteEntriesAtIndices(rows: seq<VoterRow>)
    ensures |CompleteEntries(rows)| == |ValidIndices(rows)|
    ensures forall k :: 0 <= k < |ValidIndices(rows)| ==>
      ValidIndices(rows)[k] < |rows| && IsComplete(rows[ValidIndices(rows)[k]])
      && CompleteEntries(rows)[k] == RowEntry(rows[ValidIndices(rows)[k]])
    decreases |rows|
  {
    ValidIndicesShape(rows);
    if rows != [] {
      var prefix := rows[..|rows| - 1];
      CompleteEntriesAtIndices(prefix);
      ValidIndicesShape(prefix);
      assert forall i :: 0 <= i < |prefix| ==> prefix[i] == rows[i];
    }
  }

  /** Every complete entry has a non-empty name and, when files carry names, a truthy file part. */
  lemma {:induction false} CompleteEntriesNamed(rows: seq<VoterRow>)
    requires FilesNamed(rows)
    ensures forall e :: e in CompleteEntries(rows) ==> e.name != "" && Truthy(e.upload)
    decreases |rows|
  {
    if rows != [] {
      var prefix := rows[..|rows| - 1];
      assert FilesNamed(prefix) by {
        assert forall i :: 0 <= i < |prefix| ==> prefix[i] == rows[i];
      }
      CompleteEntriesNamed(prefix);
    }
  }

  lemma BatchByRank(rows: seq<VoterRow>, n: nat)
    requires FilesNamed(rows) && n <= ValidCount(rows)
    ensures Batch(EncodeByRank(rows), n) == CompleteEntries(rows)[..n]
  {
    var form := EncodeByRank(rows);
    var entries := CompleteEntries(rows);
    CompleteEntriesNamed(rows);
    forall k | 0 <= k < |entries|
      ensures WellFormedAt(form, k) && EntryAt(form, k) == entries[k]
    {
      assert entries[k] in entries;
    }
    BatchOfRankKeyedForm(form, entries, n);
  }

  /** A form holding the k-th entry under key k yields the first n entries. */
  lemma {:induction false} BatchOfRankKeyedForm(form: RegisterForm, entries: seq<Entry>, n: nat)
    requires n <= |entries|
    requires forall k :: 0 <= k < |entries| ==> WellFormedAt(form, k) && EntryAt(form, k) == entries[k]
    ensures Batch(form, n) == entries[..n]
    decreases n
  {
    if n > 0 {
      BatchOfRankKeyedForm(form, entries, n - 1);
      assert entries[..n] == entries[..n - 1] + [entries[n - 1]];
    }
  }

  /** With the corrected encoding the server loop sees every complete row, in row order. */
  lemma EncodeByRankReachesEveryRow(rows: seq<VoterRow>)
    requires FilesNamed(rows)
    ensures VoterCount(EncodeByRank(rows)) == ValidCount(rows)
    ensures Batch(EncodeByRank(rows), VoterCount(EncodeByRank(rows))) == CompleteEntries(rows)
  {
    ValidIndicesShape(rows);
    CompleteEntriesAtIndices(rows);
    BatchByRank(rows, ValidCount(rows));
    assert CompleteEntries(rows)[..ValidCount(rows)] == CompleteEntries(rows);
  }

  /** The same two rows under the corrected encoding: the second voter is sent as `name_0` and is inserted. */
  lemma EmptyFirstRowKeptByRank(name: string, file: Upload)
    requires name != "" && Truthy(file)
    ensures var rows := [VoterRow("0", "", None), VoterRow("1", name, Some(file))];
      Admitted(Batch(EncodeByRank(rows), VoterCount(EncodeByRank(rows))), {}) == [Entry(name, file)]
  {
    var rows := [VoterRow("0", "", None), VoterRow("1", name, Some(file))];
    var e := Entry(name, file);
    assert FilesNamed(rows);
    EncodeByRankReachesEveryRow(rows);
    assert rows[..1] == [rows[0]];
    assert CompleteEntries(rows[..1]) == [];
    assert CompleteEntries(rows) == [e];
    assert [e][..0] == [];
    assert Admitted([e], {}) == Admitted([], {}) + [e];
  }

  /** Every candidate value the vote form offers is refused by `vote` as an invalid candidate. */
  lemma VoteFormOptionsRejected(voters: map<string, VoterRecord>, stored: seq<Matching.StoredFingerprint>, form: VoteForm, m: Matching.Matcher)
    requires FieldsPresent(form) && form.candidate.value in VoteFormOptions
    ensures Decide(voters, stored, form, m) == InvalidCandidate
    ensures Decide(voters, stored, form, m).Status() == 400
    ensures Decide(voters, stored, form, m).Message() == "Invalid candidate selection"
  {
    assert forall o :: o in VoteFormOptions ==> o !in Candidates by {
      assert "Candidate_A"[0] != "Tamilaga Vettri Kazhagam"[0];
      assert "Candidate_A"[0] != "DMK"[0] && "Candidate_A"[0] != "NTK"[0] && "Candidate_A"[0] != "BJP"[0];
      assert "Candidate_B"[0] != "Tamilaga Vettri Kazhagam"[0];
      assert "Candidate_C"[0] != "Tamilaga Vettri Kazhagam"[0];
    }
  }

  /** Corrected option values: the backend's own candidate names. */
  const CorrectedVoteFormOptions: seq<string> := Candidates

  /** A corrected option always passes the candidate check, so the answer depends on registration, has_voted and the fingerprint. */
  lemma CorrectedOptionsAccepted(voters: map<string, VoterRecord>, stored: seq<Matching.StoredFingerprint>, form: VoteForm, m: Matching.Matcher)
    requires FieldsPresent(form) && form.candidate.value in CorrectedVoteFormOptions
    ensures Decide(voters, stored, form, m) != InvalidCandidate
    ensures Decide(voters, stored, form, m) != MissingFields
  {
  }
}
