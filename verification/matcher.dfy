/** The per-face decision inside `detect_known_faces`: compare the observed
    face with every stored one, take the nearest (`np.argmin`), and report its
    name only if the library's match flag for that entry is set. */
module Matcher {
  import opened Wrappers

  /** The name reported for a face that is not recognised. */
  const UnknownName: string := "Unknown"

  /** `k` is where `np.argmin` lands: a minimal distance, with every earlier
      distance strictly larger (the first minimum wins ties). */
  predicate IsFirstMin(d: seq<real>, k: nat) {
    && k < |d|
    && (forall j :: 0 <= j < |d| ==> d[k] <= d[j])
    && (forall j :: 0 <= j < k ==> d[k] < d[j])
  }

  /** At most one index is a first minimum. */
  lemma FirstMinUnique(d: seq<real>, k1: nat, k2: nat)
    requires IsFirstMin(d, k1) && IsFirstMin(d, k2)
    ensures k1 == k2
  {
    assert d[k1] == d[k2];
  }

  /** `np.argmin` over a non-empty distance vector. */
  function ArgMin(d: seq<real>): (k: nat)
    requires |d| > 0
    ensures IsFirstMin(d, k)
    decreases |d|
  {
    if |d| == 1 then 0
    else
      var prefix := d[..|d| - 1];
      var k := ArgMin(prefix);
      assert forall j :: 0 <= j < |d| - 1 ==> prefix[j] == d[j];
      if d[|d| - 1] < d[k] then |d| - 1 else k
  }

  /** The index whose name the matcher reports, or `None` for "Unknown":
      the nearest stored face, provided its match flag is set. */
  function MatchIndex(distances: seq<real>, matches: seq<bool>): (m: Option<nat>)
    requires |distances| > 0 && |matches| == |distances|
    ensures m.Some? ==> IsFirstMin(distances, m.value) && matches[m.value]
    ensures forall k: nat :: IsFirstMin(distances, k) ==> (m.Some? <==> matches[k])
  {
    var k := ArgMin(distances);
    assert forall k': nat :: IsFirstMin(distances, k') ==> k' == k by {
      forall k': nat | IsFirstMin(distances, k') ensures k' == k {
        FirstMinUnique(distances, k, k');
      }
    }
    if matches[k] then Some(k) else None
  }

  /** `np.argmin` raises on an empty distance vector: an observed face is
      compared against an empty store. */
  datatype MatchError = EmptyStore

  /** The name reported for one observed face, given the stored names, the
      distances to the stored encodings and the library's match flags (all
      parallel to the store). */
  function BestMatch(names: seq<string>, distances: seq<real>, matches: seq<bool>): (r: Result<string, MatchError>)
    requires |distances| == |names| && |matches| == |names|
    ensures r.Failure? <==> |names| == 0
    ensures r.Success? ==> r.value == UnknownName || r.value in names
    ensures forall k: nat :: IsFirstMin(distances, k) && matches[k] ==> r == Success(names[k])
    ensures forall k: nat :: IsFirstMin(distances, k) && !matches[k] ==> r == Success(UnknownName)
  {
    if |distances| == 0 then Failure(EmptyStore)
    else
      match MatchIndex(distances, matches)
      case Some(k) => Success(names[k])
      case None => Success(UnknownName)
  }

  /** The flags `compare_faces` returns for a tolerance: entry i matches
      exactly when its distance is within the tolerance. */
  predicate FlagsAgree(distances: seq<real>, matches: seq<bool>, tolerance: real) {
    |matches| == |distances|
    && forall i :: 0 <= i < |distances| ==> matches[i] == (distances[i] <= tolerance)
  }

  /** With the library's flags, the matcher recognises a face exactly when
      some stored face is within tolerance, and then it picks the first of
      the nearest stored faces. */
  lemma RecognisedIff(distances: seq<real>, matches: seq<bool>, tolerance: real)
    requires |distances| > 0 && FlagsAgree(distances, matches, tolerance)
    ensures MatchIndex(distances, matches).Some?
            <==> exists i :: 0 <= i < |distances| && distances[i] <= tolerance
    ensures forall k: nat :: (MatchIndex(distances, matches) == Some(k)
                              <==> IsFirstMin(distances, k) && distances[k] <= tolerance)
  {
    var k := ArgMin(distances);
    forall k': nat | IsFirstMin(distances, k') ensures k' == k {
      FirstMinUnique(distances, k, k');
    }
    if exists i :: 0 <= i < |distances| && distances[i] <= tolerance {
      var i :| 0 <= i < |distances| && distances[i] <= tolerance;
      assert distances[k] <= distances[i];
    }
  }

  /** Nearest wins: when two stored faces are both within tolerance and the
      first is strictly nearer, the second is never the one reported. */
  lemma NearestWins(distances: seq<real>, matches: seq<bool>, tolerance: real, i: nat, j: nat)
    requires FlagsAgree(distances, matches, tolerance)
    requires i < |distances| && j < |distances|
    requires distances[i] <= tolerance && distances[j] <= tolerance
    requires distances[i] < distances[j]
    ensures MatchIndex(distances, matches).Some?
    ensures MatchIndex(distances, matches) != Some(j)
    ensures distances[MatchIndex(distances, matches).value] <= distances[i]
  {
    RecognisedIff(distances, matches, tolerance);
  }

  /** Ties go to the earliest stored face: of two equally near faces the later
      one is never reported. */
  lemma EarliestWinsTies(distances: seq<real>, matches: seq<bool>, i: nat, j: nat)
    requires |matches| == |distances|
    requires i < j < |distances| && distances[i] == distances[j]
    ensures MatchIndex(distances, matches) != Some(j)
  {
  }

  /** A stored face is never overridden by the threshold alone: a store of a
      single entry still reports "Unknown" when that entry is too far away. */
  lemma SingleEntryNeedsThreshold(name: string, distance: real, matched: bool, tolerance: real)
    requires FlagsAgree([distance], [matched], tolerance)
    ensures BestMatch([name], [distance], [matched])
            == Success(if distance <= tolerance then name else UnknownName)
  {
    assert IsFirstMin([distance], 0);
  }

  /** A face at distance zero from some stored face (with non-negative
      distances and tolerance) is always recognised, as a stored face at
      distance zero. */
  lemma ExactFaceRecognised(distances: seq<real>, matches: seq<bool>, tolerance: real, i: nat)
    requires FlagsAgree(distances, matches, tolerance) && 0.0 <= tolerance
    requires forall j :: 0 <= j < |distances| ==> 0.0 <= distances[j]
    requires i < |distances| && distances[i] == 0.0
    ensures MatchIndex(distances, matches).Some?
    ensures distances[MatchIndex(distances, matches).value] == 0.0
  {
    RecognisedIff(distances, matches, tolerance);
  }
}
