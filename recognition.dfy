/**
 * The per-face decision of the recognition loop (test.py, lines 58-85).
 *
 * For every face found in a camera frame, the face library compares its
 * encoding with every enrolled encoding and answers with one boolean per
 * enrolled encoding (`matches`, aligned with `names`). When no entry is true
 * the face keeps the label "Visitor - Access Pending" and the script posts a
 * "No user Match" notification; otherwise the label is a name occurring most
 * often among the names of the matching encodings. Which most frequent name
 * is taken when several tie depends on the iteration order of a Python set,
 * so the model promises only some most frequent name.
 */
module Recognition {

  /** The label a face keeps when it matches no enrolled encoding. */
  const PendingLabel: string := "Visitor - Access Pending"

  /** Title and body of the notification posted for a face that matches nobody. */
  const AlertTitle: string := "No user Match"
  const AlertBody: string := "unregistred people"

  /** The JSON payload of one notification request. */
  datatype PushRequest = PushRequest(fcmToken: string, title: string, body: string)

  /**
   * The names of the matching encodings, in index order: the list
   * comprehension over `enumerate(matches)`. There is one name per true
   * entry, it is empty exactly when nothing matched, and every name is an
   * enrolled name.
   */
  function MatchedNames(matches: seq<bool>, names: seq<string>): (r: seq<string>)
    requires |matches| == |names|
    ensures |r| == multiset(matches)[true]
    ensures r == [] <==> true !in matches
    ensures forall x :: x in r ==> x in names
  {
    if matches == [] then []
    else
      var n := |matches| - 1;
      assert matches == matches[..n] + [matches[n]];
      MatchedNames(matches[..n], names[..n]) + (if matches[n] then [names[n]] else [])
  }

  /**
   * The positions of the true entries, in increasing order: an independent
   * description of which names the comprehension keeps.
   */
  function TrueIndices(matches: seq<bool>): (idx: seq<nat>)
    ensures forall k :: 0 <= k < |idx| ==> idx[k] < |matches| && matches[idx[k]]
    ensures forall i :: 0 <= i < |matches| && matches[i] ==> i in idx
    ensures forall k, l :: 0 <= k < l < |idx| ==> idx[k] < idx[l]
  {
    if matches == [] then []
    else
      var n := |matches| - 1;
      var init := TrueIndices(matches[..n]);
      var prefix := matches[..n];
      assert forall i :: 0 <= i < n ==> prefix[i] == matches[i];
      init + (if matches[n] then [n] else [])
  }

  /**
   * `MatchedNames` is exactly the subsequence of `names` at the positions where
   * `matches` is true, in index order.
   */
  lemma {:induction false} MatchedNamesSelect(matches: seq<bool>, names: seq<string>)
    requires |matches| == |names|
    ensures |MatchedNames(matches, names)| == |TrueIndices(matches)|
    ensures forall k :: 0 <= k < |TrueIndices(matches)| ==>
              MatchedNames(matches, names)[k] == names[TrueIndices(matches)[k]]
  {
    if matches != [] {
      var n := |matches| - 1;
      MatchedNamesSelect(matches[..n], names[..n]);
    }
  }

  /** How often `x` occurs in `s` (Python's `list.count`). */
  function Count(s: seq<string>, x: string): (n: nat)
    ensures n <= |s|
    ensures n > 0 <==> x in s
  {
    multiset(s)[x]
  }

  /** `x` occurs in `s`, and no name occurs in `s` more often than `x`. */
  ghost predicate IsMostFrequent(x: string, s: seq<string>) {
    x in s && forall y :: y in s ==> Count(s, y) <= Count(s, x)
  }

  /** Among a finite non-empty set of names, one occurs in `s` at least as often as each other. */
  lemma {:induction false} MostFrequentAmong(s: seq<string>, candidates: set<string>)
    requires candidates != {}
    ensures exists x :: x in candidates && forall y :: y in candidates ==> Count(s, y) <= Count(s, x)
    decreases |candidates|
  {
    var z :| z in candidates;
    var others := candidates - {z};
    if others != {} {
      MostFrequentAmong(s, others);
      var x :| x in others && forall y :: y in others ==> Count(s, y) <= Count(s, x);
      if Count(s, z) <= Count(s, x) {
        assert forall y :: y in candidates ==> Count(s, y) <= Count(s, x);
      } else {
        assert forall y :: y in candidates ==> Count(s, y) <= Count(s, z);
      }
    } else {
      assert candidates == {z};
    }
  }

  /** Every non-empty list of names has a most frequent name. */
  lemma MostFrequentExists(s: seq<string>)
    requires s != []
    ensures exists x :: IsMostFrequent(x, s)
  {
    var candidates := set y | y in s;
    assert s[0] in candidates;
    MostFrequentAmong(s, candidates);
    var x :| x in candidates && forall y :: y in candidates ==> Count(s, y) <= Count(s, x);
    assert IsMostFrequent(x, s);
  }

  /** Two different names together occur no more often than the list is long. */
  lemma {:induction false} DistinctCountsBounded(s: seq<string>, x: string, y: string)
    requires x != y
    ensures Count(s, x) + Count(s, y) <= |s|
  {
    if s != [] {
      assert s == [s[0]] + s[1..];
      DistinctCountsBounded(s[1..], x, y);
    }
  }

  /**
   * Majority vote: a name held by more than half of the matching encodings is
   * the only most frequent name, whatever the tie-break.
   */
  lemma StrictMajorityWins(s: seq<string>, x: string, w: string)
    requires IsMostFrequent(w, s)
    requires 2 * Count(s, x) > |s|
    ensures w == x
  {
    if w != x {
      DistinctCountsBounded(s, w, x);
    }
  }

  /**
   * `max(set(s), key=s.count)`: the first name in set iteration order is the
   * starting candidate, and a later name replaces it only when it occurs
   * strictly more often. The iteration order is left open.
   */
  method MostFrequent(s: seq<string>) returns (best: string)
    requires s != []
    ensures IsMostFrequent(best, s)
  {
    var candidates := set y | y in s;
    assert s[0] in candidates;
    best :| best in candidates;
    var remaining := candidates - {best};
    while remaining != {}
      invariant remaining <= candidates
      invariant best in candidates
      invariant forall y :: y in candidates && y !in remaining ==> Count(s, y) <= Count(s, best)
      decreases |remaining|
    {
      var y :| y in remaining;
      if Count(s, y) > Count(s, best) {
        best := y;
      }
      remaining := remaining - {y};
    }
  }

  /** The labels the decision may give a face with comparison results `matches`. */
  ghost predicate IsDecision(faceLabel: string, matches: seq<bool>, names: seq<string>)
    requires |matches| == |names|
  {
    if true in matches then IsMostFrequent(faceLabel, MatchedNames(matches, names))
    else faceLabel == PendingLabel
  }

  /** Every comparison result admits a label. */
  lemma DecisionExists(matches: seq<bool>, names: seq<string>)
    requires |matches| == |names|
    ensures exists faceLabel :: IsDecision(faceLabel, matches, names)
  {
    if true in matches {
      MostFrequentExists(MatchedNames(matches, names));
      var x :| IsMostFrequent(x, MatchedNames(matches, names));
      assert IsDecision(x, matches, names);
    } else {
      assert IsDecision(PendingLabel, matches, names);
    }
  }

  /** A name held by a strict majority of the matching encodings is the label. */
  lemma MajorityDecides(matches: seq<bool>, names: seq<string>, x: string, faceLabel: string)
    requires |matches| == |names|
    requires 2 * Count(MatchedNames(matches, names), x) > multiset(matches)[true]
    requires IsDecision(faceLabel, matches, names)
    ensures faceLabel == x
  {
    var m := MatchedNames(matches, names);
    assert x in multiset(m);
    StrictMajorityWins(m, x, faceLabel);
  }

  /**
   * The tie-break is not fixed: with two enrolled encodings of different people
   * that both match, either name is an admissible label.
   */
  lemma TieAdmitsEither()
    ensures IsDecision("alice", [true, true], ["alice", "bob"])
    ensures IsDecision("bob", [true, true], ["alice", "bob"])
  {
  }

  /**
   * The decision for one face: the pending label when nothing matched,
   * otherwise a most frequent name among the matching encodings, which is
   * then an enrolled name.
   */
  method DecideLabel(matches: seq<bool>, names: seq<string>) returns (faceLabel: string)
    requires |matches| == |names|
    ensures IsDecision(faceLabel, matches, names)
    ensures true in matches ==> faceLabel in names
    ensures true !in matches ==> faceLabel == PendingLabel
  {
    faceLabel := PendingLabel;
    if true in matches {
      var matchedNames := MatchedNames(matches, names);
      faceLabel := MostFrequent(matchedNames);
    }
  }

  /** How many faces in a frame matched no enrolled encoding. */
  function UnmatchedFaces(faceMatches: seq<seq<bool>>): (n: nat)
    ensures n <= |faceMatches|
    ensures n == 0 <==> forall k :: 0 <= k < |faceMatches| ==> true in faceMatches[k]
  {
    if faceMatches == [] then 0
    else (if true in faceMatches[0] then 0 else 1) + UnmatchedFaces(faceMatches[1..])
  }

  /**
   * One frame: every detected face gets its label, and every face that matched
   * nobody issues one notification request with the fixed title and body.
   */
  method LabelFaces(faceMatches: seq<seq<bool>>, names: seq<string>, fcmToken: string)
    returns (labels: seq<string>, requests: seq<PushRequest>)
    requires forall k :: 0 <= k < |faceMatches| ==> |faceMatches[k]| == |names|
    ensures |labels| == |faceMatches|
    ensures forall k :: 0 <= k < |faceMatches| ==> IsDecision(labels[k], faceMatches[k], names)
    ensures |requests| == UnmatchedFaces(faceMatches)
    ensures forall r :: r in requests ==> r == PushRequest(fcmToken, AlertTitle, AlertBody)
  {
    labels, requests := [], [];
    for k := 0 to |faceMatches|
      invariant |labels| == k
      invariant forall i :: 0 <= i < k ==> IsDecision(labels[i], faceMatches[i], names)
      invariant |requests| + UnmatchedFaces(faceMatches[k..]) == UnmatchedFaces(faceMatches)
      invariant forall r :: r in requests ==> r == PushRequest(fcmToken, AlertTitle, AlertBody)
    {
      var matches := faceMatches[k];
      var name := DecideLabel(matches, names);
      if true !in matches {
        requests := requests + [PushRequest(fcmToken, AlertTitle, AlertBody)];
      }
      labels := labels + [name];
      assert faceMatches[k..][1..] == faceMatches[k + 1..];
    }
  }
}
