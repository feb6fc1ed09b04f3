/**
 * The voter-registration helpers the React pages share (they appear twice,
 * in frontend/src/pages/register.jsx and in frontend/src/App.jsx): checking
 * the typed voter count, building the empty rows, changing one field of one
 * row, and encoding the filled-in rows as the multipart register request.
 */
module RegistrationForm {
  import opened Wrappers
  import opened Decimal
  import opened Wire

  /** One voter row of the page state: `{ id, name, file }`, with `file` null until a file is chosen. */
  datatype VoterRow = VoterRow(id: string, name: string, file: Option<Upload>)

  /** `voter.name && voter.file`: a non-empty name and a chosen file. */
  predicate IsComplete(row: VoterRow) {
    row.name != "" && row.file.Some?
  }

  /**
   * The guard `!count || isNaN(count) || Number(count) <= 0` and `Number(count)`:
   * the number of rows to build, or None when the count is refused. Only
   * strings of ASCII digits are read as numbers here.
   */
  function CheckCount(count: string): (r: Option<nat>)
    ensures r.Some? ==> r.value > 0 && IsDigits(count) && DecimalValue(count) == r.value
    ensures r.None? <==> count == "" || !IsDigits(count) || DecimalValue(count) == 0
  {
    if count == "" || !IsDigits(count) || DecimalValue(count) <= 0 then None
    else Some(DecimalValue(count))
  }

  /** Every positive number typed in its usual spelling is accepted as itself. */
  lemma CheckCountAcceptsNumerals(n: nat)
    requires n > 0
    ensures CheckCount(NatToString(n)) == Some(n)
  {
    DecimalRoundTrip(n);
  }

  /** The empty field, zero, and any spelling of zero are refused. */
  lemma {:induction false} CheckCountRefusesZero(count: string)
    requires count == "" || (IsDigits(count) && forall i :: 0 <= i < |count| ==> count[i] == '0')
    ensures CheckCount(count) == None
    decreases |count|
  {
    if count != "" {
      ZerosReadAsZero(count);
    }
  }

  lemma {:induction false} ZerosReadAsZero(s: string)
    requires IsDigits(s) && forall i :: 0 <= i < |s| ==> s[i] == '0'
    ensures DecimalValue(s) == 0
    decreases |s|
  {
    if s != [] {
      ZerosReadAsZero(s[..|s| - 1]);
    }
  }

  /** `Array.from({ length: n }, (_, index) => ({ id: index.toString(), name: '', file: null }))`. */
  function EmptyRows(n: nat): (rows: seq<VoterRow>)
    ensures |rows| == n
    ensures forall i :: 0 <= i < n ==> rows[i] == VoterRow(NatToString(i), "", None)
  {
    seq(n, i requires 0 <= i < n => VoterRow(NatToString(i), "", None))
  }

  /** The row ids are pairwise distinct, so each is a usable React key, and each reads back as its row index. */
  lemma EmptyRowIds(n: nat)
    ensures Distinct(seq(n, i requires 0 <= i < n => EmptyRows(n)[i].id))
    ensures forall i :: 0 <= i < n ==> DecimalValue(EmptyRows(n)[i].id) == i
  {
    forall i, j | 0 <= i < j < n
      ensures EmptyRows(n)[i].id != EmptyRows(n)[j].id
    {
      NatToStringInjective(i, j);
    }
    forall i | 0 <= i < n
      ensures DecimalValue(EmptyRows(n)[i].id) == i
    {
      DecimalRoundTrip(i);
    }
  }

  /** The field a change event writes: `name` from the text input, `file` from the file input (`files[0]`, possibly absent). */
  datatype Change = SetName(name: string) | SetFile(file: Option<Upload>)

  /** `{ ...row, [field]: value }`. */
  function Apply(row: VoterRow, change: Change): (r: VoterRow)
    ensures r.id == row.id
    ensures change.SetName? ==> r.name == change.name && r.file == row.file
    ensures change.SetFile? ==> r.file == change.file && r.name == row.name
  {
    match change
    case SetName(name) => row.(name := name)
    case SetFile(file) => row.(file := file)
  }

  /**
   * `handleRegisterChange(index, field, value)`: copy the row list, replace
   * row `index` by the changed row. The rows are the ones on screen, so
   * `index` is the position of an existing row.
   */
  method ChangeRow(rows: seq<VoterRow>, index: nat, change: Change) returns (newRows: seq<VoterRow>)
    requires index < |rows|
    ensures |newRows| == |rows|
    ensures newRows[index] == Apply(rows[index], change)
    ensures forall j :: 0 <= j < |rows| && j != index ==> newRows[j] == rows[j]
  {
    var copy := new VoterRow[|rows|](i requires 0 <= i < |rows| => rows[i]);
    copy[index] := Apply(copy[index], change);
    newRows := copy[..];
  }

  /** The number of complete rows: the `validVotersCount` the submit handler counts. */
  function ValidCount(rows: seq<VoterRow>): (n: nat)
    ensures n <= |rows|
    decreases |rows|
  {
    if rows == [] then 0
    else ValidCount(rows[..|rows| - 1]) + (if IsComplete(rows[|rows| - 1]) then 1 else 0)
  }

  /** The positions of the complete rows, in order: the indices the submit handler writes into the form keys. */
  function ValidIndices(rows: seq<VoterRow>): seq<nat>
    decreases |rows|
  {
    if rows == [] then []
    else ValidIndices(rows[..|rows| - 1]) + (if IsComplete(rows[|rows| - 1]) then [|rows| - 1] else [])
  }

  /**
   * There is one written index per complete row; the indices are exactly the
   * complete positions, strictly increasing, and the k-th is at least k, so
   * they run past ValidCount - 1 as soon as an incomplete row comes before a
   * complete one.
   */
  lemma {:induction false} ValidIndicesShape(rows: seq<VoterRow>)
    ensures |ValidIndices(rows)| == ValidCount(rows)
    ensures forall i: nat :: i in ValidIndices(rows) <==> i < |rows| && IsComplete(rows[i])
    ensures forall k, l :: 0 <= k < l < |ValidIndices(rows)| ==> ValidIndices(rows)[k] < ValidIndices(rows)[l]
    ensures forall k :: 0 <= k < |ValidIndices(rows)| ==> k <= ValidIndices(rows)[k] < |rows|
    decreases |rows|
  {
    if rows != [] {
      var prefix := rows[..|rows| - 1];
      ValidIndicesShape(prefix);
      assert forall i :: 0 <= i < |prefix| ==> prefix[i] == rows[i];
      var last := if IsComplete(rows[|rows| - 1]) then [|rows| - 1] else [];
      assert ValidIndices(rows) == ValidIndices(prefix) + last;
      forall i: nat
        ensures i in ValidIndices(rows) <==> i < |rows| && IsComplete(rows[i])
      {
        assert i in ValidIndices(rows) <==> i in ValidIndices(prefix) || i in last;
      }
    }
  }

  /** A fresh row list has no complete row. */
  lemma {:induction false} EmptyRowsNotValid(n: nat)
    ensures ValidCount(EmptyRows(n)) == 0
    decreases n
  {
    if n > 0 {
      assert EmptyRows(n)[..n - 1] == EmptyRows(n - 1);
      EmptyRowsNotValid(n - 1);
    }
  }

  /**
   * The request the submit handler builds: `name_<index>` and
   * `fingerprint_<index>` for every complete row under its position in the
   * list, and `voter_count` set to the number of complete rows.
   */
  function EncodedForm(rows: seq<VoterRow>): RegisterForm {
    RegisterForm(
      map i | 0 <= i < |rows| && IsComplete(rows[i]) :: rows[i].name,
      map i | 0 <= i < |rows| && IsComplete(rows[i]) :: rows[i].file.value,
      Some(ValidCount(rows)))
  }

  /**
   * The `registerVoters.forEach` loop of `handleRegisterSubmit`: append the two
   * parts of each complete row and count it, then append `voter_count`.
   */
  method EncodeRegistration(rows: seq<VoterRow>) returns (form: RegisterForm, validVotersCount: nat)
    ensures validVotersCount == ValidCount(rows)
    ensures form == EncodedForm(rows)
  {
    var names: map<nat, string> := map[];
    var fingerprints: map<nat, Upload> := map[];
    validVotersCount := 0;
    var index := 0;
    while index < |rows|
      invariant 0 <= index <= |rows|
      invariant validVotersCount == ValidCount(rows[..index])
      invariant names == map i | 0 <= i < index && IsComplete(rows[i]) :: rows[i].name
      invariant fingerprints == map i | 0 <= i < index && IsComplete(rows[i]) :: rows[i].file.value
    {
      assert rows[..index + 1][..index] == rows[..index];
      var voter := rows[index];
      if voter.name != "" && voter.file.Some? {
        names := names[index := voter.name];
        fingerprints := fingerprints[index := voter.file.value];
        validVotersCount := validVotersCount + 1;
      }
      index := index + 1;
    }
    assert rows[..index] == rows;
    form := RegisterForm(names, fingerprints, Some(validVotersCount));
  }

  /** The form's keys are the positions of the complete rows, and each carries that row's name and file. */
  lemma EncodedFormKeys(rows: seq<VoterRow>)
    ensures forall i: nat :: i in EncodedForm(rows).names <==> i < |rows| && IsComplete(rows[i])
    ensures EncodedForm(rows).names.Keys == EncodedForm(rows).fingerprints.Keys
    ensures forall i :: i in EncodedForm(rows).names ==>
      EncodedForm(rows).names[i] == rows[i].name && Some(EncodedForm(rows).fingerprints[i]) == rows[i].file
    ensures EncodedForm(rows).voterCount == Some(|ValidIndices(rows)|)
  {
    ValidIndicesShape(rows);
  }
}
