/**
 * What one POST /api/register request adds to the `voters` table
 * (`register_voters` in backend/app.py), as functions of the request and of
 * the user ids already present.
 */
module Registry {
  import opened Wrappers
  import opened Wire

  /** A row of the `voters` table, keyed by user id: the stored fingerprint and the has_voted flag. */
  datatype VoterRecord = VoterRecord(template: Image, hasVoted: bool)

  /** A (name, fingerprint file) pair taken from the request. */
  datatype Entry = Entry(name: string, upload: Upload)

  /** `int(request.form.get('voter_count', 0))`: a missing field reads as 0. */
  function VoterCount(form: RegisterForm): (n: int)
    ensures form.voterCount.None? ==> n == 0
    ensures form.voterCount.Some? ==> n == form.voterCount.value
  {
    match form.voterCount
    case None => 0
    case Some(n) => n
  }

  /** Index `i` has both keys, a non-empty name and a file part that has a file name. */
  predicate WellFormedAt(form: RegisterForm, i: nat) {
    && i in form.names && i in form.fingerprints
    && form.names[i] != "" && Truthy(form.fingerprints[i])
  }

  function EntryAt(form: RegisterForm, i: nat): Entry
    requires WellFormedAt(form, i)
  {
    Entry(form.names[i], form.fingerprints[i])
  }

  /** The well-formed entries among indices 0 .. n-1, in index order. */
  function Batch(form: RegisterForm, n: nat): seq<Entry>
    decreases n
  {
    if n == 0 then []
    else Batch(form, n - 1) + (if WellFormedAt(form, n - 1) then [EntryAt(form, n - 1)] else [])
  }

  function NameSet(entries: seq<Entry>): set<string> {
    set e | e in entries :: e.name
  }

  function Names(entries: seq<Entry>): (names: seq<string>)
    ensures |names| == |entries|
    ensures forall i :: 0 <= i < |entries| ==> names[i] == entries[i].name
  {
    seq(|entries|, i requires 0 <= i < |entries| => entries[i].name)
  }

  /**
   * The entries that are inserted, in order: an entry whose name is already a
   * user id, either before the request or from an earlier entry of the same
   * request, is skipped.
   */
  function Admitted(entries: seq<Entry>, present: set<string>): seq<Entry>
    decreases |entries|
  {
    if entries == [] then []
    else
      var prior := Admitted(entries[..|entries| - 1], present);
      var e := entries[|entries| - 1];
      if e.name in present || e.name in NameSet(prior) then prior else prior + [e]
  }

  /**
   * What is inserted comes from the request and is not yet present, no name is
   * inserted twice, and afterwards every name of the request is a user id.
   */
  lemma {:induction false} AdmittedSound(entries: seq<Entry>, present: set<string>)
    ensures var added := Admitted(entries, present);
      && |added| <= |entries|
      && (forall e :: e in added ==> e in entries && e.name !in present)
      && Distinct(Names(added))
      && (forall e :: e in entries ==> e.name in present || e.name in NameSet(added))
    decreases |entries|
  {
    if entries != [] {
      var prefix := entries[..|entries| - 1];
      AdmittedSound(prefix, present);
      var prior := Admitted(prefix, present);
      var e := entries[|entries| - 1];
      assert entries == prefix + [e];
      if !(e.name in present || e.name in NameSet(prior)) {
        assert Names(prior + [e]) == Names(prior) + [e.name];
      }
    }
  }

  /** The table after inserting the admitted entries: each file becomes a template, has_voted starts at 0. */
  function InsertAll(table: map<string, VoterRecord>, added: seq<Entry>): (result: map<string, VoterRecord>)
    ensures result.Keys == table.Keys + NameSet(added)
    decreases |added|
  {
    if added == [] then table
    else
      var e := added[|added| - 1];
      InsertAll(table, added[..|added| - 1])[e.name := VoterRecord(e.upload.content, false)]
  }

  /** Inserting names that are not yet user ids leaves every existing row as it was. */
  lemma {:induction false} InsertAllKeepsRows(table: map<string, VoterRecord>, added: seq<Entry>)
    requires forall e :: e in added ==> e.name !in table
    ensures forall u :: u in table ==> InsertAll(table, added)[u] == table[u]
    decreases |added|
  {
    if added != [] {
      InsertAllKeepsRows(table, added[..|added| - 1]);
    }
  }

  /** Only indices below `n` are examined, and every well-formed one among them is. */
  lemma {:induction false} BatchExamines(form: RegisterForm, n: nat)
    ensures forall i :: 0 <= i < n && WellFormedAt(form, i) ==> EntryAt(form, i) in Batch(form, n)
    ensures forall e :: e in Batch(form, n) ==> exists i :: 0 <= i < n && WellFormedAt(form, i) && e == EntryAt(form, i)
    decreases n
  {
    if n > 0 {
      BatchExamines(form, n - 1);
    }
  }

  /** The batch does not depend on anything the request holds at index `n` or above. */
  lemma {:induction false} BatchIgnoresHigherIndices(f: RegisterForm, g: RegisterForm, n: nat)
    requires forall i :: 0 <= i < n ==> WellFormedAt(f, i) == WellFormedAt(g, i)
    requires forall i :: 0 <= i < n && WellFormedAt(f, i) ==> EntryAt(f, i) == EntryAt(g, i)
    ensures Batch(f, n) == Batch(g, n)
    decreases n
  {
    if n > 0 {
      BatchIgnoresHigherIndices(f, g, n - 1);
    }
  }

  /** The first entry carrying a name that is not yet present is the one inserted for it. */
  lemma {:induction false} FirstOccurrenceAdmitted(entries: seq<Entry>, present: set<string>, k: nat)
    requires k < |entries| && entries[k].name !in present
    requires forall j :: 0 <= j < k ==> entries[j].name != entries[k].name
    ensures entries[k] in Admitted(entries, present)
    decreases |entries|
  {
    var prefix := entries[..|entries| - 1];
    if k < |entries| - 1 {
      assert prefix[k] == entries[k];
      FirstOccurrenceAdmitted(prefix, present, k);
    } else {
      AdmittedSound(prefix, present);
      var prior := Admitted(prefix, present);
      assert entries[k].name !in NameSet(prior);
    }
  }

  /** One more entry: it is inserted exactly when its name is neither present nor already inserted. */
  lemma AdmittedStep(entries: seq<Entry>, e: Entry, present: set<string>)
    ensures var prior := Admitted(entries, present);
      Admitted(entries + [e], present) == if e.name in present || e.name in NameSet(prior) then prior else prior + [e]
  {
    assert (entries + [e])[..|entries|] == entries;
  }

  lemma InsertStep(table: map<string, VoterRecord>, added: seq<Entry>, e: Entry)
    ensures InsertAll(table, added + [e]) == InsertAll(table, added)[e.name := VoterRecord(e.upload.content, false)]
    ensures Names(added + [e]) == Names(added) + [e.name]
  {
    assert (added + [e])[..|added|] == added;
  }
}
