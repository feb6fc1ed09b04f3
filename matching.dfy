/**
 * `match_fingerprint` of backend/app.py: compare a probe image against every
 * stored fingerprint and return the user id with the most descriptor matches,
 * provided that number exceeds 15.
 *
 * ORB feature extraction and the brute-force Hamming matcher are foreign
 * library calls; here they are a capability passed in as a `Matcher` value.
 */
module Matching {
  import opened Wrappers
  import opened Wire

  /** ORB descriptors: one 32-byte binary row per keypoint. */
  type Descriptors = seq<seq<bv8>>

  /**
   * `describe` plays `orb.detectAndCompute` (None when no descriptors are found);
   * `matchCount` plays `len(bf.match(des1, des2))` for the cross-checked Hamming matcher.
   */
  datatype Matcher = Matcher(describe: Image -> Option<Descriptors>, matchCount: (Descriptors, Descriptors) -> nat)

  /** One row of `SELECT user_id, fingerprint_path FROM voters`, with the image the path holds. */
  datatype StoredFingerprint = StoredFingerprint(userId: string, template: Image)

  /** A best match counts only when it has strictly more than this many matches. */
  const MatchThreshold: nat := 15

  /** Whether both images yield descriptors, so that the row is compared at all. */
  predicate Comparable(m: Matcher, probe: Image, row: StoredFingerprint) {
    m.describe(probe).Some? && m.describe(row.template).Some?
  }

  /**
   * The number of matches a row contributes to the search. A row that is not
   * comparable is skipped, which has the same effect as a count of 0, because
   * the running maximum starts at 0 and only a strictly larger count replaces it.
   */
  function Score(m: Matcher, probe: Image, row: StoredFingerprint): nat {
    if Comparable(m, probe, row)
    then m.matchCount(m.describe(probe).value, m.describe(row.template).value)
    else 0
  }

  /** The earliest index whose score is maximal among all rows. */
  function BestIndex(m: Matcher, probe: Image, rows: seq<StoredFingerprint>): (k: nat)
    requires |rows| > 0
    ensures k < |rows|
    ensures forall j :: 0 <= j < |rows| ==> Score(m, probe, rows[j]) <= Score(m, probe, rows[k])
    ensures forall j :: 0 <= j < k ==> Score(m, probe, rows[j]) < Score(m, probe, rows[k])
    decreases |rows|
  {
    if |rows| == 1 then 0
    else
      var k := BestIndex(m, probe, rows[..|rows| - 1]);
      if Score(m, probe, rows[|rows| - 1]) > Score(m, probe, rows[k]) then |rows| - 1 else k
  }

  /**
   * The user id `match_fingerprint` identifies: the owner of the earliest
   * maximal score, provided that score exceeds the threshold.
   */
  function MatchResult(m: Matcher, probe: Image, rows: seq<StoredFingerprint>): Option<string> {
    if |rows| == 0 then None
    else
      var k := BestIndex(m, probe, rows);
      if Score(m, probe, rows[k]) > MatchThreshold then Some(rows[k].userId) else None
  }

  /**
   * No one is identified exactly when no score exceeds the threshold; someone
   * identified owns a maximal score above it, and every earlier row scores less.
   */
  lemma MatchResultIsEarliestArgmax(m: Matcher, probe: Image, rows: seq<StoredFingerprint>)
    ensures MatchResult(m, probe, rows).None? <==> forall j :: 0 <= j < |rows| ==> Score(m, probe, rows[j]) <= MatchThreshold
    ensures MatchResult(m, probe, rows).Some? ==>
      exists k :: 0 <= k < |rows| && rows[k].userId == MatchResult(m, probe, rows).value
                  && Score(m, probe, rows[k]) > MatchThreshold
                  && (forall j :: 0 <= j < |rows| ==> Score(m, probe, rows[j]) <= Score(m, probe, rows[k]))
                  && (forall j :: 0 <= j < k ==> Score(m, probe, rows[j]) < Score(m, probe, rows[k]))
  {
    if |rows| > 0 {
      var k := BestIndex(m, probe, rows);
      assert Score(m, probe, rows[k]) > MatchThreshold ==> rows[k].userId == MatchResult(m, probe, rows).value;
    }
  }

  /** When the probe has no descriptors, nobody is identified. */
  lemma NoProbeDescriptorsNoMatch(m: Matcher, probe: Image, rows: seq<StoredFingerprint>)
    requires m.describe(probe).None?
    ensures MatchResult(m, probe, rows) == None
  {
  }

  /** A strictly unique best score above the threshold identifies exactly its owner. */
  lemma UniqueBestIsIdentified(m: Matcher, probe: Image, rows: seq<StoredFingerprint>, k: nat)
    requires k < |rows| && Score(m, probe, rows[k]) > MatchThreshold
    requires forall j :: 0 <= j < |rows| && j != k ==> Score(m, probe, rows[j]) < Score(m, probe, rows[k])
    ensures MatchResult(m, probe, rows) == Some(rows[k].userId)
  {
    var b := BestIndex(m, probe, rows);
    assert b == k;
  }

  /** The search loop of `match_fingerprint`, over the stored rows in table order. */
  method MatchFingerprint(m: Matcher, probe: Image, storedFingerprints: seq<StoredFingerprint>)
    returns (result: Option<string>)
    ensures result == MatchResult(m, probe, storedFingerprints)
  {
    var probeDescriptors := m.describe(probe);
    var bestMatch: Option<string> := None;
    var maxMatches: nat := 0;
    var i := 0;
    while i < |storedFingerprints|
      invariant 0 <= i <= |storedFingerprints|
      invariant i == 0 ==> maxMatches == 0
      invariant i > 0 ==> maxMatches == Score(m, probe, storedFingerprints[BestIndex(m, probe, storedFingerprints[..i])])
      invariant maxMatches > 0 ==> i > 0 && bestMatch == Some(storedFingerprints[BestIndex(m, probe, storedFingerprints[..i])].userId)
    {
      var row := storedFingerprints[i];
      assert storedFingerprints[..i + 1][..i] == storedFingerprints[..i];
      assert storedFingerprints[..i + 1][i] == row;
      var storedDescriptors := m.describe(row.template);
      if probeDescriptors.None? || storedDescriptors.None? {
        i := i + 1;
        continue;
      }
      var matches := m.matchCount(probeDescriptors.value, storedDescriptors.value);
      if matches > maxMatches {
        maxMatches := matches;
        bestMatch := Some(row.userId);
      }
      i := i + 1;
    }
    assert storedFingerprints[..i] == storedFingerprints;
    if maxMatches > MatchThreshold {
      result := bestMatch;
    } else {
      result := None;
    }
  }
}
