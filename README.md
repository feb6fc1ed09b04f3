# Fingerprint voting: a verified model of the ballot backend and its forms

The system is a small election application. An administrator registers voters in a batch: each voter has a name and a fingerprint image. A voter then casts one ballot for one of four candidates, after the backend has matched a freshly uploaded fingerprint against the stored ones. The Flask backend (`backend/app.py`) keeps two SQLite tables:
- `voters`: user id → fingerprint, has_voted.
- `votes`: candidate → vote_count.

The React frontend builds the multipart requests. An admin dashboard summarises the voter documents kept in Appwrite.

This Dafny project models:

- **The backend tables and routes** (`backend.dfy`). Class `Backend.Database` has fields `voters`, `rowOrder` and `votes`. `rowOrder` is the rowid order in which SQLite returns rows. Each route that changes the tables is a method. Within a request the reads and updates are staged on values, and the commit at the end assigns them to the fields. The invariant `Valid()` states:
  - every row appears once in `rowOrder`;
  - the four candidates are the only counters;
  - the sum of all vote counts equals the number of voters with has_voted set.
  
  Every method preserves it, so no voter is ever counted twice.
- **Registration semantics** (`registry.dfy`): which indices of a register request are examined, which entries are inserted, and what the table looks like afterwards.
- **Ballot semantics** (`ballot.dfy`): the candidate list, the tallies, and the ordered checks of `vote` as the function `Decide`.
- **Fingerprint matching** (`matching.dfy`). The ORB feature extractor and the Hamming brute-force matcher are a `Matcher` value passed in. It offers `describe(image)`, which may find no descriptors, and `matchCount(d1, d2)`. The search loop is proved to compute the earliest argmax with the "> 15" threshold.
- **Frontend registration helpers** (`registration_form.dfy`), shared by the two page classes:
  - `RegisterPage.Page` for `frontend/src/pages/register.jsx`;
  - `AppPage.App` for `frontend/src/App.jsx`, which repeats the same helpers.
- **Dashboard computations** (`dashboard.dfy`): the statistics, `formatDate`, and the PDF body rows of `frontend/src/pages/adminDashboard.jsx`.
- **Frontend and backend together** (`composition.dfy`), where two defects become provable (see Findings).

Supporting modules:
- `wrappers.dfy`: Option and Distinct.
- `decimal.dfy`: decimal spelling of naturals, i.e. `toString()`, f-strings, and `Number` on digit strings.
- `wire.dfy`: the multipart request shapes. The field `name_<i>` is held under key `i`, and the `voter_count` field arrives as an integer.

### What the code does not do
The model captures each of these.
- A ballot is not stored as a record of its own: it only adds 1 to a per-candidate counter and sets the voter's has_voted flag.
- Registration does not check the voter's age.
- `get_results` has no ORDER BY, so the counters come back in insertion order.
- A match needs more than 15 cross-checked descriptor matches; exactly 15 is not a match.
- A probe image without descriptors is answered 401 "Fingerprint verification failed".
- The `has_voted` read and the two UPDATEs are separate statements.

## Model

| member | source | states |
|---|---|---|
| Backend.Database.constructor | backend/app.py:35-54 | A fresh database has no voters, exactly the four candidates, every count 0, and satisfies the invariant. |
| Backend.Database.InitializeDb | backend/app.py:51-52 | INSERT OR IGNORE: afterwards the counters are the old ones plus the four candidates. Existing counts keep their value, new ones start at 0, voters are untouched. On a valid database nothing changes. |
| Backend.Database.RegisterVoters | backend/app.py:90-134 | voter_count ≤ 0 gives 400 and writes nothing. Otherwise the table becomes `InsertAll(old table, Admitted(Batch(form, voter_count), old ids))` and row order grows by those names. The answer counts them, every pre-existing row (has_voted included) is unchanged, and the invariant holds. |
| Backend.StageInserts | backend/app.py:99-126 | The insert loop yields exactly the admitted entries, appended in order, with the invariant kept. |
| Backend.StageIndex | backend/app.py:101-126 | One iteration: an index without both keys, with an empty name or an unnamed file, or whose name the transaction already sees leaves the staged table, row order and count alone. Any other entry is inserted with has_voted 0, appended to the row order and counted. Either way the staged state afterwards is `InsertAll`/`Admitted` of the batch one index further on. |
| Backend.InsertAllKeepsValid | backend/app.py:124-125 | Inserting fresh, pairwise distinct names with has_voted 0 keeps the invariant. |
| Backend.InsertKeepsValid | backend/app.py:124-125 | One insert of a new user id with has_voted 0 keeps the invariant. |
| Backend.InsertOneMoreKeepsValid | backend/app.py:124-125 | Appending one more fresh name to an admitted batch keeps the invariant. |
| Backend.Database.Vote | backend/app.py:141-189 | The answer is `Decide` on the tables before the request. Any rejection leaves both tables unchanged. `Recorded` adds exactly 1 to that candidate, sets has_voted for that voter only, and keeps the invariant. |
| Backend.Database.RecordBallot | backend/app.py:181-183 | The two UPDATEs: counter + 1 and has_voted := 1, nothing else changed, invariant kept. |
| Backend.BallotKeepsValid | backend/app.py:181-182 | Counting a ballot for a voter who has not voted, and marking that voter, keeps sum of counts = number of voters marked. |
| Backend.BallotsAtMostVoters | backend/app.py:164-168 | Under the invariant the total count never exceeds the number of voter rows. |
| Backend.StoredRows | backend/app.py:60-61 | The rows the matcher sees are the voters in table order with their templates. |
| Backend.Database.GetResults | backend/app.py:196-207 | One entry per candidate in insertion order, carrying its current count. |
| Backend.Database.GetVoters | backend/app.py:214-225 | One entry per voter in table order, carrying its has_voted flag. |
| Registry.VoterCount | backend/app.py:92 | A request without `voter_count` reads as 0, which the route then refuses with 400. A present count is read as its value. |
| Registry.AdmittedSound | backend/app.py:113-126 | Inserted entries come from the request and were not present. No name is inserted twice (duplicates within one batch included). Afterwards every name of the batch is a user id. |
| Registry.FirstOccurrenceAdmitted | backend/app.py:113-116 | The first entry of the batch carrying a name not yet present is inserted. |
| Registry.BatchExamines | backend/app.py:100-111 | Only indices below voter_count are examined. Every index with both keys present, a non-empty name and a named file is among them, and nothing else is. |
| Registry.BatchIgnoresHigherIndices | backend/app.py:100 | Whatever the request holds at index voter_count or above has no effect. |
| Registry.InsertAll | backend/app.py:124-125 | The ids after the inserts are the old ids plus the admitted names. |
| Registry.InsertAllKeepsRows | backend/app.py:113-126 | Inserting names that are not yet ids leaves every existing row, has_voted included, as it was. |
| Ballot.Decide | backend/app.py:143-179 | A ballot is recorded exactly when all five checks pass, for the candidate the form names. |
| Ballot.NoSecondBallot | backend/app.py:166-168 | A voter already marked never gets a ballot recorded, whatever fingerprint is sent. |
| Ballot.TallyOfZeros | backend/app.py:52 | Counters all at 0 sum to 0. |
| Ballot.TallyIncrement | backend/app.py:181 | Adding 1 to a listed candidate's counter adds 1 to the sum. |
| Ballot.TallyFrame | backend/app.py:181 | Changing a counter outside the candidate list leaves the sum unchanged. |
| Ballot.VotedCountMark | backend/app.py:182 | Setting has_voted on one unmarked voter adds 1 to the number of marked voters. |
| Ballot.VotedCountFrame | backend/app.py:182 | Changing the row of a user id outside the list leaves the count unchanged. |
| Ballot.AppendUnvoted | backend/app.py:124-125 | A new row with has_voted 0 leaves the number of marked voters unchanged. |
| Ballot.VotedCountAtMostRows | backend/app.py:164-168 | Each voter row adds at most one to the marked count. |
| Matching.MatchFingerprint | backend/app.py:57-84 | The loop returns exactly `MatchResult`: rows lacking descriptors are skipped, a strictly larger count replaces the best, and the threshold applies at the end. |
| Matching.BestIndex | backend/app.py:71-82 | The chosen index has a maximal score, and every earlier index scores strictly less (earliest wins ties). |
| Matching.MatchResultIsEarliestArgmax | backend/app.py:68-84 | None exactly when no row scores above 15. Otherwise the user id returned owns a maximal score above 15, and every earlier row scores less. |
| Matching.NoProbeDescriptorsNoMatch | backend/app.py:74-75 | A probe without descriptors identifies nobody. |
| Matching.UniqueBestIsIdentified | backend/app.py:80-84 | A strictly unique best score above 15 identifies precisely its owner. |
| Decimal.DecimalRoundTrip | frontend/src/pages/register.jsx:78 | The decimal text of a count reads back as the same number. |
| Decimal.NatToStringInjective | frontend/src/pages/register.jsx:40 | Different indices give different id strings. |
| RegistrationForm.CheckCount | frontend/src/pages/register.jsx:34-39 | A count is accepted only when it is a non-empty string of digits with a positive value, and that value is the number of rows to build. The empty field, non-numbers and zero are refused. App.jsx:36-41 has the same guard. |
| RegistrationForm.CheckCountAcceptsNumerals | frontend/src/pages/register.jsx:34-39 | Every positive number in its usual spelling passes the guard and builds that many rows. |
| RegistrationForm.CheckCountRefusesZero | frontend/src/pages/register.jsx:34-37 | An empty count, "0" and any string of zeros are refused. |
| RegistrationForm.EmptyRows | frontend/src/pages/register.jsx:39-43 | Exactly n rows, row i carrying id String(i), name '' and no file. |
| RegistrationForm.EmptyRowIds | frontend/src/pages/register.jsx:39-43 | The row ids are pairwise distinct, and each reads back as its index. |
| RegistrationForm.EmptyRowsNotValid | frontend/src/pages/register.jsx:39-43 | A fresh row list has no complete row. |
| RegistrationForm.Apply | frontend/src/pages/register.jsx:52 | Only the named field changes; the id and the other field stay. |
| RegistrationForm.ChangeRow | frontend/src/pages/register.jsx:50-54 | The length is kept, row `index` gets the change, and every other row is equal to before. |
| RegistrationForm.ValidCount | frontend/src/pages/register.jsx:70-75 | The count of complete rows never exceeds the number of rows. |
| RegistrationForm.ValidIndicesShape | frontend/src/pages/register.jsx:70-76 | One written index per complete row, exactly the complete positions. The indices are strictly increasing, and the k-th is ≥ k. |
| RegistrationForm.EncodeRegistration | frontend/src/pages/register.jsx:67-78 | The forEach loop builds exactly `EncodedForm(rows)`, and its counter equals the number of complete rows. |
| RegistrationForm.EncodedFormKeys | frontend/src/pages/register.jsx:70-78 | The name and file keys are exactly the positions of the complete rows, carrying those rows' name and file. voter_count is their number. |
| RegisterPage.Page.constructor | frontend/src/pages/register.jsx:5-12 | The initial state: no rows, no message, not loading, count form shown. |
| RegisterPage.Page.DisplayMessage | frontend/src/pages/register.jsx:26-30 | Sets the text and type, shows the popup, and changes nothing else. |
| RegisterPage.Page.InitializeVoterForms | frontend/src/pages/register.jsx:33-47 | A refused count shows the error and keeps the rows. An accepted count n gives n empty rows and opens the row form. Row ids stay String(i). |
| RegisterPage.Page.HandleRegisterChange | frontend/src/pages/register.jsx:50-54 | Only the named field of row `index` changes. The length, all other rows and all other state are kept. |
| RegisterPage.Page.HandleRegisterSubmit | frontend/src/pages/register.jsx:63-84 | A request is sent exactly when some row is complete, and it is `EncodedForm(rows)`. With none, the error is shown, loading is cleared and nothing is sent. |
| AppPage.App.constructor | frontend/src/App.jsx:8-14 | The initial registration state. |
| AppPage.App.InitializeVoterForms | frontend/src/App.jsx:35-50 | A refused count sets the error message and keeps the rows. An accepted count n gives n empty rows, opens the form and clears the message. |
| AppPage.App.HandleRegisterChange | frontend/src/App.jsx:53-57 | Only the named field of row `index` changes, and the length and other rows are kept. |
| AppPage.App.HandleRegisterSubmit | frontend/src/App.jsx:66-88 | The message is cleared first. A request equal to `EncodedForm(rows)` is sent exactly when some row is complete; otherwise an error message is set and nothing is sent. |
| Dashboard.JoinSplit | frontend/src/pages/adminDashboard.jsx:75-78 | Joining the pieces of a split with the same separator gives back the original string. |
| Dashboard.FormatDate | frontend/src/pages/adminDashboard.jsx:73-79 | "N/A" for a missing or empty value. Every non-empty string comes back unchanged. |
| Dashboard.Filter | frontend/src/pages/adminDashboard.jsx:39-46 | A filter keeps only listed documents that pass the test, and never more than there are. |
| Dashboard.FilterKeeps | frontend/src/pages/adminDashboard.jsx:39-46 | Every listed document that passes the test is kept. |
| Dashboard.AgeBucketsPartition | frontend/src/pages/adminDashboard.jsx:45-46 | The 18–25 and 26+ counts add up to the number aged 18 or over, and nobody younger is in either. |
| Dashboard.ComputeStats | frontend/src/pages/adminDashboard.jsx:37-53 | The total is the number of documents. The two age buckets sum to the adults, at most the total. registeredToday counts every document without `$createdAt` and is at most the total. |
| Dashboard.DatePartOfIso | frontend/src/pages/adminDashboard.jsx:41 | For an ISO timestamp, `split('T')[0]` is its YYYY-MM-DD prefix. |
| Dashboard.Today | frontend/src/pages/adminDashboard.jsx:38 | When the current date splits on "-" into three parts, today is those parts reversed and joined with "-", i.e. DD-MM-YYYY from YYYY-MM-DD. |
| Dashboard.RegisteredToday | frontend/src/pages/adminDashboard.jsx:39-43 | The `todayCount` filter counts every document without `$createdAt`, since its date falls back to today, and at most all documents. |
| Dashboard.TodayOfIso | frontend/src/pages/adminDashboard.jsx:38 | "Today" is the current date rewritten as DD-MM-YYYY. |
| Dashboard.RegisteredTodayCountsOnlyUndated | frontend/src/pages/adminDashboard.jsx:38-43 | With ISO timestamps, registeredToday is exactly the number of documents without `$createdAt`. |
| Dashboard.RegisteredTodayMissesToday | frontend/src/pages/adminDashboard.jsx:38-43 | A voter created a minute before the dashboard loads counts 0. |
| Dashboard.RegisteredTodayIsoCountsSameDay | frontend/src/pages/adminDashboard.jsx:38-43 | Comparing YYYY-MM-DD with YYYY-MM-DD counts exactly the undated documents and those created on the current date. |
| Dashboard.RegisteredTodayIsoCountsToday | frontend/src/pages/adminDashboard.jsx:38-43 | Under that comparison, a document created on the current date counts 1. |
| Dashboard.BuildTableRows | frontend/src/pages/adminDashboard.jsx:107-119 | One PDF row per voter, in list order: (userId, name, formatDate(dob), age, address). The date of birth is unchanged when present and "N/A" otherwise. |
| Composition.VoterCountTextRoundTrip | backend/app.py:92 | The voter_count the page writes as text is read back by the server as the same number. |
| Composition.BatchOfEncodedForm | backend/app.py:100-111 | With the page's encoding, the server loop over the first n indices sees exactly the complete rows among the first n rows. |
| Composition.LateRowIsLost | backend/app.py:92-100 | A complete row at a position ≥ the number of complete rows means fewer entries reach the insert loop than were sent. The voter_count sent is positive, so the route passes its `voter_count <= 0` check and, by the contract of `Backend.Database.RegisterVoters`, answers 200 `Registered`. |
| Composition.EmptyFirstRowLosesVoter | frontend/src/pages/register.jsx:70-78 | Rows [empty, alice] send `name_1` with voter_count 1. Nobody is inserted, and the reply is "Successfully registered 0 voters" with 200. |
| Composition.EncodeByRank | frontend/src/pages/register.jsx:70-78 | Corrected encoding: voter_count is the number of complete rows, the keys are exactly 0 .. voter_count-1, and key k carries the name and file of the k-th complete row. |
| Composition.EncodeByRankReachesEveryRow | frontend/src/pages/register.jsx:70-78 | Corrected encoding: the server loop sees every complete row, in row order. |
| Composition.EmptyFirstRowKeptByRank | frontend/src/pages/register.jsx:70-78 | Corrected encoding: the same two rows register the second voter. |
| Composition.VoteFormOptionsRejected | frontend/src/App.jsx:343-346 | Each value the vote forms of App.jsx and pages/vote.jsx:154-156 offer (Candidate_A/B/C) makes `vote` answer 400 "Invalid candidate selection". |
| Composition.CorrectedOptionsAccepted | backend/app.py:150-151 | Options carrying the backend's candidate names always pass the candidate check. |

## Left out

- OpenCV ORB extraction and the BFMatcher (backend/app.py:64-66, 72-78): foreign library calls. They are the `Matcher` parameter.
- `generate_fingerprint`: noise and floating-point image synthesis, unused by the routes.
- Image files:
  - saving them, and `secure_filename`: I/O;
  - the fixed path `temp_verify.png`: I/O.
  
  A voter record holds the uploaded image itself. In the source, two names that `secure_filename` maps to the same file share one image file, and the later upload replaces it; the model does not capture this.
- SQLite connection/commit mechanics, Flask routing and JSON, and the 500 answers for exceptions: I/O. A request's updates are staged on values and committed together.
- Interleaving of simultaneous requests (the race between the has_voted SELECT and the UPDATE): requests are handled one after another.
- Registry.VoterCount: Python's `int()` parse of the `voter_count` text is not modelled. The request carries the integer already. A non-numeric value, which the source answers with 500, is not represented.
- RegistrationForm.CheckCount: only strings of ASCII digits are read as numbers. JavaScript's `Number` also accepts surrounding whitespace, a sign, fractions, exponents and hex. A fractional count builds the truncated number of rows, and a count too large for an array throws. These cases are left out.
- RegistrationForm.ChangeRow: requires the index of an existing row, the only indices the page passes. The JavaScript assignment past the end, which would grow the array with holes, is not modelled. `handleFileChange` is the `SetFile` change with `files[0]`.
- The answer handling after the POST in `handleRegisterSubmit` (success message, closing the row form, clearing the count, error text): it depends on the HTTP client.
- The 5-second popup timer, rendering, navigation, login and Appwrite sessions, `appwriteConfig.js`, hero/home/navbar: UI and foreign services.
- `vote.jsx` `handleVoteSubmit` and App.jsx:107-135: a thin non-empty guard around an HTTP POST. Only their candidate option values are modelled.
- `result.jsx` and the App.jsx bar widths: floating-point percentages.
- jsPDF styling, the summary text and footers, and `getVoterIdImageUrl`: foreign calls. The table body rows are modelled.
- Dashboard.VoterDocument: `age` is an integer or absent; a fractional age is not represented. JavaScript comparisons that coerce a string age are not modelled. User id, name and address are strings; an absent one, which the PDF would show empty, is not modelled.
- Dashboard.ComputeStats: the current instant is a parameter, the `toISOString()` text. `listDocuments` is the document list given.

## Findings

| source | as written | input that shows it | evidently intended | confidence | as-written member | corrected member |
|---|---|---|---|---|---|---|
| frontend/src/pages/register.jsx:70-78 | Each complete row is sent under its own row position (same in App.jsx:74-82), with voter_count = number of complete rows. The backend reads only keys 0 .. voter_count-1 (backend/app.py:100). | Rows [empty, alice]: the page sends `name_1`/`fingerprint_1` with voter_count 1. The backend looks only at index 0, inserts nobody, and answers 200 "Successfully registered 0 voters". | Every complete row reaches the insert loop, e.g. by writing the k-th complete row under key k. | not executed; high | Composition.LateRowIsLost | Composition.EncodeByRankReachesEveryRow |
| frontend/src/pages/adminDashboard.jsx:38-43 | `$createdAt.split('T')[0]` (YYYY-MM-DD) is compared with today as DD-MM-YYYY, so no dated document ever matches. Only undated documents are counted. | A document with `$createdAt` "2025-03-14T09:26:53.589+00:00", seen at "2025-03-14T09:27:53.589Z", counts 0. | Count the documents created on the current date, comparing both dates in one format. | not executed; high | Dashboard.RegisteredTodayCountsOnlyUndated | Dashboard.RegisteredTodayIsoCountsSameDay |
| frontend/src/App.jsx:343-346 | The vote form offers the values Candidate_A, Candidate_B and Candidate_C, and so does the routed vote page (frontend/src/pages/vote.jsx:154-156). The backend accepts only "Tamilaga Vettri Kazhagam", "DMK", "NTK" and "BJP" (backend/app.py:150-151). | Any ballot sent from either vote form, e.g. candidate "Candidate_A", is answered 400 "Invalid candidate selection". | The option values are the backend's candidate names. | not executed; high | Composition.VoteFormOptionsRejected | Composition.CorrectedOptionsAccepted |
