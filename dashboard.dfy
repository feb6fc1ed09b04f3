/**
 * The computations of the admin dashboard (frontend/src/pages/adminDashboard.jsx)
 * over the voter documents of the Appwrite collection: the four summary
 * statistics, `formatDate`, and the body rows of the exported PDF table.
 * The current instant enters as its `toISOString()` text.
 */
module Dashboard {
  import opened Wrappers
  import opened Decimal

  /** The attributes of a voter document the dashboard reads; an absent attribute is None. */
  datatype VoterDocument = VoterDocument(
    userId: string, name: string, dob: Option<string>, age: Option<int>, address: string, createdAt: Option<string>)

  /** `String.prototype.split(c)` for a one-character separator. */
  function Split(s: string, c: char): (parts: seq<string>)
    ensures |parts| >= 1
    decreases |s|
  {
    if s == [] then [""]
    else
      var rest := Split(s[1..], c);
      if s[0] == c then [""] + rest else [[s[0]] + rest[0]] + rest[1..]
  }

  /** `Array.prototype.join(c)` for a one-character separator. */
  function Join(parts: seq<string>, c: char): string
    requires |parts| >= 1
    decreases |parts|
  {
    if |parts| == 1 then parts[0] else parts[0] + [c] + Join(parts[1..], c)
  }

  lemma JoinThree(parts: seq<string>, c: char)
    requires |parts| == 3
    ensures Join(parts, c) == parts[0] + [c] + parts[1] + [c] + parts[2]
  {
    assert parts[1..][1..] == parts[2..];
    assert Join(parts[2..], c) == parts[2];
    assert Join(parts[1..], c) == parts[1] + [c] + parts[2];
  }

  /** Joining the pieces of a split with the same separator gives the string back. */
  lemma {:induction false} JoinSplit(s: string, c: char)
    ensures Join(Split(s, c), c) == s
    decreases |s|
  {
    if s != [] {
      var rest := Split(s[1..], c);
      JoinSplit(s[1..], c);
      if s[0] == c {
        assert ([""] + rest)[1..] == rest;
      } else if |rest| == 1 {
        assert [s[0]] + s[1..] == s;
      } else {
        var parts := [[s[0]] + rest[0]] + rest[1..];
        assert parts[1..] == rest[1..];
        assert Join(rest, c) == rest[0] + [c] + Join(rest[1..], c);
        assert Join(parts, c) == [s[0]] + (rest[0] + [c] + Join(rest[1..], c));
        assert [s[0]] + s[1..] == s;
      }
    }
  }

  /** A string without the separator splits into itself. */
  lemma {:induction false} SplitWithout(s: string, c: char)
    requires forall i :: 0 <= i < |s| ==> s[i] != c
    ensures Split(s, c) == [s]
    decreases |s|
  {
    if s != [] {
      SplitWithout(s[1..], c);
      assert [s[0]] + s[1..] == s;
    }
  }

  /** Splitting at the first separator: `a + c + b` with no `c` in `a` splits into `a` followed by the pieces of `b`. */
  lemma {:induction false} SplitAtFirst(a: string, c: char, b: string)
    requires forall i :: 0 <= i < |a| ==> a[i] != c
    ensures Split(a + [c] + b, c) == [a] + Split(b, c)
    decreases |a|
  {
    var s := a + [c] + b;
    if a == [] {
      assert s[1..] == b;
    } else {
      assert s[1..] == a[1..] + [c] + b;
      SplitAtFirst(a[1..], c, b);
      assert [a[0]] + a[1..] == a;
    }
  }

  /**
   * `formatDate(dateString)`: "N/A" for a missing or empty value; otherwise
   * the date is split at '-' and, when there are three pieces, put back
   * together with '-' in the same order, so every non-empty value comes back
   * unchanged.
   */
  function FormatDate(dateString: Option<string>): (r: string)
    ensures dateString.None? || dateString.value == "" ==> r == "N/A"
    ensures dateString.Some? && dateString.value != "" ==> r == dateString.value
  {
    if dateString.None? || dateString.value == "" then "N/A"
    else
      var s := dateString.value;
      var parts := Split(s, '-');
      if |parts| != 3 then s
      else
        JoinSplit(s, '-');
        JoinThree(parts, '-');
        parts[0] + "-" + parts[1] + "-" + parts[2]
  }

  /** `documents.filter(keep)`, in list order. */
  function Filter(docs: seq<VoterDocument>, keep: VoterDocument -> bool): (kept: seq<VoterDocument>)
    ensures |kept| <= |docs|
    ensures forall d :: d in kept ==> d in docs && keep(d)
    decreases |docs|
  {
    if docs == [] then []
    else Filter(docs[..|docs| - 1], keep) + (if keep(docs[|docs| - 1]) then [docs[|docs| - 1]] else [])
  }

  /** Every kept document is in the filtered list. */
  lemma {:induction false} FilterKeeps(docs: seq<VoterDocument>, keep: VoterDocument -> bool, d: VoterDocument)
    requires d in docs && keep(d)
    ensures d in Filter(docs, keep)
    decreases |docs|
  {
    var prefix := docs[..|docs| - 1];
    if d != docs[|docs| - 1] {
      assert docs == prefix + [docs[|docs| - 1]];
      FilterKeeps(prefix, keep, d);
    }
  }

  /** A looser test keeps at least as many documents. */
  lemma {:induction false} FilterMonotone(docs: seq<VoterDocument>, p: VoterDocument -> bool, q: VoterDocument -> bool)
    requires forall d :: d in docs && p(d) ==> q(d)
    ensures |Filter(docs, p)| <= |Filter(docs, q)|
    decreases |docs|
  {
    if docs != [] {
      var prefix := docs[..|docs| - 1];
      assert forall d :: d in prefix ==> d in docs;
      FilterMonotone(prefix, p, q);
    }
  }

  /** Two tests that agree on every document keep the same documents. */
  lemma {:induction false} FilterAgree(docs: seq<VoterDocument>, p: VoterDocument -> bool, q: VoterDocument -> bool)
    requires forall d :: d in docs ==> p(d) == q(d)
    ensures Filter(docs, p) == Filter(docs, q)
    decreases |docs|
  {
    if docs != [] {
      var prefix := docs[..|docs| - 1];
      assert forall d :: d in prefix ==> d in docs;
      FilterAgree(prefix, p, q);
    }
  }

  /** `voter.age >= 18 && voter.age <= 25`; a missing age fails every comparison. */
  predicate IsYoung(d: VoterDocument) {
    d.age.Some? && 18 <= d.age.value <= 25
  }

  /** `voter.age > 25`. */
  predicate IsOlder(d: VoterDocument) {
    d.age.Some? && d.age.value > 25
  }

  predicate IsAdult(d: VoterDocument) {
    d.age.Some? && d.age.value >= 18
  }

  /** The two age buckets split the voters of 18 and over, and nobody younger is in either. */
  lemma {:induction false} AgeBucketsPartition(docs: seq<VoterDocument>)
    ensures |Filter(docs, IsYoung)| + |Filter(docs, IsOlder)| == |Filter(docs, IsAdult)|
    ensures forall d :: d in Filter(docs, IsYoung) || d in Filter(docs, IsOlder) ==> d.age.Some? && d.age.value >= 18
    decreases |docs|
  {
    if docs != [] {
      AgeBucketsPartition(docs[..|docs| - 1]);
    }
  }

  /** `$createdAt.split('T')[0]`: the text before the first 'T'. */
  function DatePart(s: string): string {
    Split(s, 'T')[0]
  }

  function Reverse(parts: seq<string>): (r: seq<string>)
    ensures |r| == |parts|
    ensures forall i :: 0 <= i < |parts| ==> r[i] == parts[|parts| - 1 - i]
  {
    seq(|parts|, i requires 0 <= i < |parts| => parts[|parts| - 1 - i])
  }

  /** `new Date().toISOString().split('T')[0].split('-').reverse().join('-')`. */
  function Today(nowIso: string): (today: string)
    ensures var parts := Split(DatePart(nowIso), '-');
      |parts| == 3 ==> today == parts[2] + "-" + parts[1] + "-" + parts[0]
  {
    var parts := Split(DatePart(nowIso), '-');
    if |parts| == 3 then
      JoinThree(Reverse(parts), '-');
      Join(Reverse(parts), '-')
    else
    Join(Reverse(Split(DatePart(nowIso), '-')), '-')
  }

  predicate HasCreatedAt(d: VoterDocument) {
    d.createdAt.Some? && d.createdAt.value != ""
  }

  /** The date a document is compared with: its `$createdAt` date part, or today itself when it has none. */
  function CreatedOn(d: VoterDocument, today: string): string {
    if HasCreatedAt(d) then DatePart(d.createdAt.value) else today
  }

  /** The `todayCount` filter. */
  function RegisteredToday(docs: seq<VoterDocument>, nowIso: string): (n: nat)
    ensures |Filter(docs, d => !HasCreatedAt(d))| <= n <= |docs|
  {
    var today := Today(nowIso);
    FilterMonotone(docs, d => !HasCreatedAt(d), d => CreatedOn(d, today) == today);
    |Filter(docs, d => CreatedOn(d, today) == today)|
  }

  datatype Stats = Stats(totalVoters: nat, registeredToday: nat, votersAge18To25: nat, votersAge26Plus: nat)

  /**
   * The `setStats` call of `fetchVoters`: the number of documents, those
   * counted as registered today (every document without `$createdAt` among
   * them), and the two age buckets, which together never exceed the total.
   */
  function ComputeStats(docs: seq<VoterDocument>, nowIso: string): (stats: Stats)
    ensures stats.totalVoters == |docs|
    ensures stats.votersAge18To25 == |Filter(docs, IsYoung)| && stats.votersAge26Plus == |Filter(docs, IsOlder)|
    ensures stats.votersAge18To25 + stats.votersAge26Plus == |Filter(docs, IsAdult)| <= stats.totalVoters
    ensures |Filter(docs, d => !HasCreatedAt(d))| <= stats.registeredToday <= stats.totalVoters
  {
    AgeBucketsPartition(docs);
    Stats(|docs|, RegisteredToday(docs, nowIso), |Filter(docs, IsYoung)|, |Filter(docs, IsOlder)|)
  }

  /**
   * The shape `toISOString()` gives and Appwrite's `$createdAt` has:
   * YYYY-MM-DD followed by 'T'.
   */
  predicate IsoTimestamp(s: string) {
    && |s| >= 11
    && IsDigit(s[0]) && IsDigit(s[1]) && IsDigit(s[2]) && IsDigit(s[3]) && s[4] == '-'
    && IsDigit(s[5]) && IsDigit(s[6]) && s[7] == '-'
    && IsDigit(s[8]) && IsDigit(s[9]) && s[10] == 'T'
  }

  /** The date part of a timestamp is its first ten characters, YYYY-MM-DD. */
  lemma DatePartOfIso(s: string)
    requires IsoTimestamp(s)
    ensures DatePart(s) == s[..10]
  {
    assert s == s[..10] + ['T'] + s[11..];
    SplitAtFirst(s[..10], 'T', s[11..]);
  }

  /** For a timestamp the dashboard's today is DD-MM-YYYY. */
  lemma TodayOfIso(nowIso: string)
    requires IsoTimestamp(nowIso)
    ensures Today(nowIso) == nowIso[8..10] + "-" + nowIso[5..7] + "-" + nowIso[..4]
  {
    DatePartOfIso(nowIso);
    var date := nowIso[..10];
    var y, m, d := nowIso[..4], nowIso[5..7], nowIso[8..10];
    assert date == y + ['-'] + (m + ['-'] + d);
    SplitAtFirst(y, '-', m + ['-'] + d);
    SplitAtFirst(m, '-', d);
    SplitWithout(d, '-');
    assert Split(date, '-') == [y, m, d];
    assert Reverse([y, m, d]) == [d, m, y];
    JoinThree([d, m, y], '-');
  }

  /**
   * As written, a dated document never matches today's string: its date part
   * has a digit where today's DD-MM-YYYY has '-', so only the undated
   * documents are counted.
   */
  lemma RegisteredTodayCountsOnlyUndated(docs: seq<VoterDocument>, nowIso: string)
    requires IsoTimestamp(nowIso)
    requires forall d :: d in docs && HasCreatedAt(d) ==> IsoTimestamp(d.createdAt.value)
    ensures RegisteredToday(docs, nowIso) == |Filter(docs, d => !HasCreatedAt(d))|
  {
    var today := Today(nowIso);
    TodayOfIso(nowIso);
    assert today[2] == '-';
    forall d | d in docs && HasCreatedAt(d)
      ensures CreatedOn(d, today) != today
    {
      DatePartOfIso(d.createdAt.value);
      assert CreatedOn(d, today)[2] == d.createdAt.value[2];
    }
    FilterAgree(docs, d => CreatedOn(d, today) == today, d => !HasCreatedAt(d));
  }

  /** A voter registered a minute before the dashboard loads is not counted as registered today. */
  lemma RegisteredTodayMissesToday()
    ensures RegisteredToday([VoterDocument("u1", "Asha", None, Some(30), "Chennai", Some("2025-03-14T09:26:53.589+00:00"))],
      "2025-03-14T09:27:53.589Z") == 0
  {
    var doc := VoterDocument("u1", "Asha", None, Some(30), "Chennai", Some("2025-03-14T09:26:53.589+00:00"));
    var now := "2025-03-14T09:27:53.589Z";
    assert IsoTimestamp(now);
    assert IsoTimestamp(doc.createdAt.value);
    assert forall d :: d in [doc] ==> d == doc;
    RegisteredTodayCountsOnlyUndated([doc], now);
    assert HasCreatedAt(doc);
    assert [doc][..0] == [];
    assert Filter([doc], d => !HasCreatedAt(d)) == Filter([], d => !HasCreatedAt(d)) + [];
  }

  /** The count with both sides in YYYY-MM-DD form: `$createdAt` compared with the date part of the current timestamp. */
  function RegisteredTodayIso(docs: seq<VoterDocument>, nowIso: string): nat {
    var today := DatePart(nowIso);
    |Filter(docs, d => CreatedOn(d, today) == today)|
  }

  predicate SameDay(d: VoterDocument, nowIso: string)
    requires |nowIso| >= 10
  {
    HasCreatedAt(d) && |d.createdAt.value| >= 10 && d.createdAt.value[..10] == nowIso[..10]
  }

  /** With the same format on both sides, a dated document is counted exactly when it was created on the current date. */
  lemma RegisteredTodayIsoCountsSameDay(docs: seq<VoterDocument>, nowIso: string)
    requires IsoTimestamp(nowIso)
    requires forall d :: d in docs && HasCreatedAt(d) ==> IsoTimestamp(d.createdAt.value)
    ensures RegisteredTodayIso(docs, nowIso) == |Filter(docs, d => !HasCreatedAt(d) || SameDay(d, nowIso))|
  {
    var today := DatePart(nowIso);
    DatePartOfIso(nowIso);
    forall d | d in docs && HasCreatedAt(d)
      ensures CreatedOn(d, today) == DatePart(d.createdAt.value) == d.createdAt.value[..10]
    {
      DatePartOfIso(d.createdAt.value);
    }
    FilterAgree(docs, d => CreatedOn(d, today) == today, d => !HasCreatedAt(d) || SameDay(d, nowIso));
  }

  /** A document created on the current date is counted once both sides use YYYY-MM-DD. */
  lemma RegisteredTodayIsoCountsToday(doc: VoterDocument, nowIso: string)
    requires IsoTimestamp(nowIso) && HasCreatedAt(doc) && IsoTimestamp(doc.createdAt.value)
    requires doc.createdAt.value[..10] == nowIso[..10]
    ensures RegisteredTodayIso([doc], nowIso) == 1
  {
    var today := DatePart(nowIso);
    DatePartOfIso(nowIso);
    DatePartOfIso(doc.createdAt.value);
    assert CreatedOn(doc, today) == today;
    assert [doc][..0] == [];
    assert Filter([doc], d => CreatedOn(d, today) == today) == Filter([], d => CreatedOn(d, today) == today) + [doc];
  }

  /** One body row of the exported PDF: User ID, Name, Date of Birth, Age, Address. */
  datatype TableRow = TableRow(userId: string, name: string, dateOfBirth: string, age: Option<int>, address: string)

  /**
   * The `voters.forEach` loop of `exportToPDF`: one row per voter, in list
   * order, with the date of birth passed through `formatDate`.
   */
  method BuildTableRows(voters: seq<VoterDocument>) returns (tableRows: seq<TableRow>)
    ensures |tableRows| == |voters|
    ensures forall i :: 0 <= i < |voters| ==>
      tableRows[i] == TableRow(voters[i].userId, voters[i].name, FormatDate(voters[i].dob), voters[i].age, voters[i].address)
    ensures forall i :: 0 <= i < |voters| ==>
      tableRows[i].dateOfBirth == if voters[i].dob.None? || voters[i].dob.value == "" then "N/A" else voters[i].dob.value
  {
    tableRows := [];
    for i := 0 to |voters|
      invariant |tableRows| == i
      invariant forall j :: 0 <= j < i ==>
        tableRows[j] == TableRow(voters[j].userId, voters[j].name, FormatDate(voters[j].dob), voters[j].age, voters[j].address)
    {
      var voter := voters[i];
      var voterData := TableRow(voter.userId, voter.name, FormatDate(voter.dob), voter.age, voter.address);
      tableRows := tableRows + [voterData];
    }
  }
}
