/** One-directional nearest-neighbour matching of binary descriptors (src/matcher.rs). */
module Matcher {
  import opened Common
  import opened Hamming

  type Match = (KeyPoint, KeyPoint)

  /** A distance between descriptors. The scan below is stated for any such distance;
      `match_features` uses `Distance`. */
  type Metric = (Descriptor, Descriptor) -> nat

  /** The bit distance `match_features` uses: `hamming_distance` of the two byte strings. */
  function Distance(d1: Descriptor, d2: Descriptor): nat
  {
    HammingDistance(d1.bytes, d2.bytes)
  }

  /** No candidate lies within the cutoff. */
  predicate NoneQualifies(dist: Metric, d: Descriptor, cands: seq<Descriptor>, cutoff: nat)
  {
    forall k :: 0 <= k < |cands| ==> dist(d, cands[k]) > cutoff
  }

  /** `j` is within the cutoff, attains the minimum distance over all candidates,
      and every later candidate is strictly farther: the last index of the minimum. */
  predicate IsLastBest(dist: Metric, d: Descriptor, cands: seq<Descriptor>, cutoff: nat, j: nat)
  {
    j < |cands|
    && dist(d, cands[j]) <= cutoff
    && (forall k :: 0 <= k < |cands| ==> dist(d, cands[j]) <= dist(d, cands[k]))
    && (forall k :: j < k < |cands| ==> dist(d, cands[j]) < dist(d, cands[k]))
  }

  /** The candidate the inner loop of `match_features` keeps after scanning `cands`:
      a candidate replaces the running best when its distance is `<=` the best distance
      so far, which starts at the cutoff. */
  function BestCandidate(dist: Metric, d: Descriptor, cands: seq<Descriptor>, cutoff: nat): (r: Option<nat>)
    ensures r.Some? ==> r.value < |cands|
    decreases |cands|
  {
    if cands == [] then None
    else
      var last := |cands| - 1;
      var prev := BestCandidate(dist, d, cands[..last], cutoff);
      var bound := if prev.Some? then dist(d, cands[prev.value]) else cutoff;
      if dist(d, cands[last]) <= bound then Some(last) else prev
  }

  /** The scan keeps nothing exactly when no candidate is within the cutoff; otherwise it
      keeps the last index attaining the minimum distance (the `<=` lets later ties win). */
  lemma {:induction false} BestCandidateSpec(dist: Metric, d: Descriptor, cands: seq<Descriptor>, cutoff: nat)
    ensures BestCandidate(dist, d, cands, cutoff).None? <==> NoneQualifies(dist, d, cands, cutoff)
    ensures BestCandidate(dist, d, cands, cutoff).Some? ==>
              IsLastBest(dist, d, cands, cutoff, BestCandidate(dist, d, cands, cutoff).value)
    decreases |cands|
  {
    if cands != [] {
      var last := |cands| - 1;
      var init := cands[..last];
      BestCandidateSpec(dist, d, init, cutoff);
      assert forall k :: 0 <= k < last ==> init[k] == cands[k];
    }
  }

  /** One more step of the scan: candidate `j` replaces the running best when its distance
      is `<=` the running best distance. */
  lemma BestCandidateExtend(dist: Metric, d: Descriptor, ds: seq<Descriptor>, cutoff: nat, j: nat)
    requires j < |ds|
    ensures var prev := BestCandidate(dist, d, ds[..j], cutoff);
      var bound := if prev.Some? then dist(d, ds[prev.value]) else cutoff;
      BestCandidate(dist, d, ds[..j + 1], cutoff) == if dist(d, ds[j]) <= bound then Some(j) else prev
  {
    assert ds[..j + 1][..j] == ds[..j];
  }

  /** The kept candidate is determined by the distances alone. */
  lemma LastBestUnique(dist: Metric, d: Descriptor, cands: seq<Descriptor>, cutoff: nat, j1: nat, j2: nat)
    requires IsLastBest(dist, d, cands, cutoff, j1) && IsLastBest(dist, d, cands, cutoff, j2)
    ensures j1 == j2
  {
  }

  /** Number of features taking part on one side: `zip` stops at the shorter slice. */
  function Zipped(kps: seq<KeyPoint>, ds: seq<Descriptor>): nat
  {
    Min(|kps|, |ds|)
  }

  /** The match A-feature `i` contributes, if any. */
  function MatchOf(dist: Metric, kps1: seq<KeyPoint>, ds1: seq<Descriptor>, kps2: seq<KeyPoint>,
                   ds2: seq<Descriptor>, cutoff: nat, i: nat): Option<Match>
    requires i < Zipped(kps1, ds1)
  {
    match BestCandidate(dist, ds1[i], ds2[..Zipped(kps2, ds2)], cutoff)
    case None => None
    case Some(j) => Some((kps1[i], kps2[j]))
  }

  /** A-feature `i` is matched exactly when some zipped B-feature lies within the cutoff;
      its match pairs `keypoints1[i]` with the B keypoint of the last minimum-distance candidate. */
  lemma MatchOfSpec(dist: Metric, kps1: seq<KeyPoint>, ds1: seq<Descriptor>, kps2: seq<KeyPoint>,
                    ds2: seq<Descriptor>, cutoff: nat, i: nat)
    requires i < Zipped(kps1, ds1)
    ensures var r, cands := MatchOf(dist, kps1, ds1, kps2, ds2, cutoff, i), ds2[..Zipped(kps2, ds2)];
      && (r.None? <==> NoneQualifies(dist, ds1[i], cands, cutoff))
      && (r.Some? ==> r.value.0 == kps1[i])
      && (r.Some? ==> exists j: nat :: IsLastBest(dist, ds1[i], cands, cutoff, j) && r.value.1 == kps2[j])
  {
    BestCandidateSpec(dist, ds1[i], ds2[..Zipped(kps2, ds2)], cutoff);
  }

  /** The matches produced by the first `i` A-features, in A order. */
  function MatchesUpTo(dist: Metric, kps1: seq<KeyPoint>, ds1: seq<Descriptor>, kps2: seq<KeyPoint>,
                       ds2: seq<Descriptor>, cutoff: nat, i: nat): (r: seq<Match>)
    requires i <= Zipped(kps1, ds1)
    ensures |r| <= i
  {
    if i == 0 then []
    else
      var prev := MatchesUpTo(dist, kps1, ds1, kps2, ds2, cutoff, i - 1);
      match MatchOf(dist, kps1, ds1, kps2, ds2, cutoff, i - 1)
      case None => prev
      case Some(m) => prev + [m]
  }

  /** The A-indices that produced the matches of `MatchesUpTo`, in the same order. */
  function MatchedIndices(dist: Metric, kps1: seq<KeyPoint>, ds1: seq<Descriptor>, kps2: seq<KeyPoint>,
                          ds2: seq<Descriptor>, cutoff: nat, i: nat): (r: seq<nat>)
    requires i <= Zipped(kps1, ds1)
    ensures forall t :: 0 <= t < |r| ==> r[t] < i
    ensures forall s, t :: 0 <= s < t < |r| ==> r[s] < r[t]
  {
    if i == 0 then []
    else
      var prev := MatchedIndices(dist, kps1, ds1, kps2, ds2, cutoff, i - 1);
      if MatchOf(dist, kps1, ds1, kps2, ds2, cutoff, i - 1).Some? then prev + [i - 1] else prev
  }

  /** An A-feature is among the matched indices exactly when it has a match. */
  lemma {:induction false} MatchedIndicesComplete(dist: Metric, kps1: seq<KeyPoint>, ds1: seq<Descriptor>,
                                                  kps2: seq<KeyPoint>, ds2: seq<Descriptor>, cutoff: nat,
                                                  i: nat, a: nat)
    requires i <= Zipped(kps1, ds1) && a < i
    ensures a in MatchedIndices(dist, kps1, ds1, kps2, ds2, cutoff, i)
        <==> MatchOf(dist, kps1, ds1, kps2, ds2, cutoff, a).Some?
  {
    var prev := MatchedIndices(dist, kps1, ds1, kps2, ds2, cutoff, i - 1);
    if a < i - 1 {
      MatchedIndicesComplete(dist, kps1, ds1, kps2, ds2, cutoff, i - 1, a);
    } else {
      assert a !in prev;
    }
  }

  /** The matches are, in order, the matches of the matched A-indices. */
  lemma {:induction false} MatchesUpToShape(dist: Metric, kps1: seq<KeyPoint>, ds1: seq<Descriptor>,
                                            kps2: seq<KeyPoint>, ds2: seq<Descriptor>, cutoff: nat, i: nat)
    requires i <= Zipped(kps1, ds1)
    ensures var ms, idx := MatchesUpTo(dist, kps1, ds1, kps2, ds2, cutoff, i),
                           MatchedIndices(dist, kps1, ds1, kps2, ds2, cutoff, i);
      && |ms| == |idx|
      && forall t :: 0 <= t < |idx| ==>
           && MatchOf(dist, kps1, ds1, kps2, ds2, cutoff, idx[t]).Some?
           && ms[t] == MatchOf(dist, kps1, ds1, kps2, ds2, cutoff, idx[t]).value
  {
    if i > 0 {
      MatchesUpToShape(dist, kps1, ds1, kps2, ds2, cutoff, i - 1);
    }
  }

  /** The result of the nested scan over the zipped features of both sides. */
  function Matches(dist: Metric, kps1: seq<KeyPoint>, ds1: seq<Descriptor>, kps2: seq<KeyPoint>,
                   ds2: seq<Descriptor>, cutoff: nat): seq<Match>
  {
    MatchesUpTo(dist, kps1, ds1, kps2, ds2, cutoff, Zipped(kps1, ds1))
  }

  /** What the nested scan returns: at most one match per zipped A-feature, in increasing
      A order; each pairs `keypoints1[i]` with the B keypoint whose descriptor is the last one
      at minimum distance, that distance being within the cutoff; and A-feature `i` is matched
      exactly when some zipped B-feature is within the cutoff. */
  lemma MatchesSpec(dist: Metric, kps1: seq<KeyPoint>, ds1: seq<Descriptor>, kps2: seq<KeyPoint>,
                    ds2: seq<Descriptor>, cutoff: nat)
    ensures var ms, idx := Matches(dist, kps1, ds1, kps2, ds2, cutoff),
                           MatchedIndices(dist, kps1, ds1, kps2, ds2, cutoff, Zipped(kps1, ds1));
      var cands := ds2[..Zipped(kps2, ds2)];
      && |ms| == |idx| <= Zipped(kps1, ds1)
      && (forall t :: 0 <= t < |idx| ==> idx[t] < Zipped(kps1, ds1))
      && (forall s, t :: 0 <= s < t < |idx| ==> idx[s] < idx[t])
      && (forall t :: 0 <= t < |idx| ==> ms[t].0 == kps1[idx[t]])
      && (forall t :: 0 <= t < |idx| ==>
            exists j: nat :: IsLastBest(dist, ds1[idx[t]], cands, cutoff, j) && ms[t].1 == kps2[j])
      && (forall a :: 0 <= a < Zipped(kps1, ds1) ==> (a in idx <==> !NoneQualifies(dist, ds1[a], cands, cutoff)))
  {
    var n1, n2 := Zipped(kps1, ds1), Zipped(kps2, ds2);
    var ms, idx := Matches(dist, kps1, ds1, kps2, ds2, cutoff), MatchedIndices(dist, kps1, ds1, kps2, ds2, cutoff, n1);
    MatchesUpToShape(dist, kps1, ds1, kps2, ds2, cutoff, n1);
    forall t | 0 <= t < |idx|
      ensures exists j: nat :: IsLastBest(dist, ds1[idx[t]], ds2[..n2], cutoff, j) && ms[t].1 == kps2[j]
    {
      MatchOfSpec(dist, kps1, ds1, kps2, ds2, cutoff, idx[t]);
    }
    forall a | 0 <= a < n1
      ensures a in idx <==> !NoneQualifies(dist, ds1[a], ds2[..n2], cutoff)
    {
      MatchedIndicesComplete(dist, kps1, ds1, kps2, ds2, cutoff, n1, a);
      MatchOfSpec(dist, kps1, ds1, kps2, ds2, cutoff, a);
    }
  }

  /** With no zipped B-feature no A-feature is matched. */
  lemma {:induction false} MatchesUpToEmptyB(dist: Metric, kps1: seq<KeyPoint>, ds1: seq<Descriptor>,
                                             kps2: seq<KeyPoint>, ds2: seq<Descriptor>, cutoff: nat, i: nat)
    requires i <= Zipped(kps1, ds1) && Zipped(kps2, ds2) == 0
    ensures MatchesUpTo(dist, kps1, ds1, kps2, ds2, cutoff, i) == []
  {
    if i > 0 {
      MatchesUpToEmptyB(dist, kps1, ds1, kps2, ds2, cutoff, i - 1);
      MatchOfSpec(dist, kps1, ds1, kps2, ds2, cutoff, i - 1);
    }
  }

  /** An empty B side gives an empty result. */
  lemma MatchesEmptyB(dist: Metric, kps1: seq<KeyPoint>, ds1: seq<Descriptor>, kps2: seq<KeyPoint>,
                      ds2: seq<Descriptor>, cutoff: nat)
    requires Zipped(kps2, ds2) == 0
    ensures Matches(dist, kps1, ds1, kps2, ds2, cutoff) == []
  {
    MatchesUpToEmptyB(dist, kps1, ds1, kps2, ds2, cutoff, Zipped(kps1, ds1));
  }

  /** `match_features`: for each zipped A-feature, scan every zipped B-feature and keep
      the last one whose Hamming distance is `<=` the running best (initially the cutoff). */
  method MatchFeatures(keypoints1: seq<KeyPoint>, descriptors1: seq<Descriptor>,
                       keypoints2: seq<KeyPoint>, descriptors2: seq<Descriptor>,
                       maxHammingDistance: nat)
    returns (matches: seq<Match>)
    ensures matches == Matches(Distance, keypoints1, descriptors1, keypoints2, descriptors2, maxHammingDistance)
  {
    var n1 := Min(|keypoints1|, |descriptors1|);
    var n2 := Min(|keypoints2|, |descriptors2|);
    matches := [];
    var i := 0;
    while i < n1
      invariant 0 <= i <= n1
      invariant matches == MatchesUpTo(Distance, keypoints1, descriptors1, keypoints2, descriptors2, maxHammingDistance, i)
    {
      var keypoint1, descriptor1 := keypoints1[i], descriptors1[i];
      var bestDistance := maxHammingDistance;
      var bestMatch: Option<KeyPoint> := None;
      ghost var bestIndex: Option<nat> := None;
      var j := 0;
      while j < n2
        invariant 0 <= j <= n2
        invariant bestIndex == BestCandidate(Distance, descriptor1, descriptors2[..j], maxHammingDistance)
        invariant bestIndex.None? ==> bestMatch.None? && bestDistance == maxHammingDistance
        invariant bestIndex.Some? ==>
                    && bestIndex.value < j
                    && bestMatch == Some(keypoints2[bestIndex.value])
                    && bestDistance == Distance(descriptor1, descriptors2[bestIndex.value])
      {
        var keypoint2, descriptor2 := keypoints2[j], descriptors2[j];
        var distance := HammingDistance(descriptor1.bytes, descriptor2.bytes);
        BestCandidateExtend(Distance, descriptor1, descriptors2, maxHammingDistance, j);
        if distance <= bestDistance {
          bestDistance := distance;
          bestMatch := Some(keypoint2);
          bestIndex := Some(j);
        }
        j := j + 1;
      }
      assert descriptors2[..j] == descriptors2[..Zipped(keypoints2, descriptors2)];
      if bestMatch.Some? {
        matches := matches + [(keypoint1, bestMatch.value)];
      }
      i := i + 1;
    }
  }

  /** Descriptors that are distinct and of one length are at distance 0 exactly from
      themselves (the identity-of-indiscernibles half of `HammingZeroIff`). */
  lemma DistinctDescriptorsSeparated(ds: seq<Descriptor>, n: nat)
    requires n <= |ds|
    requires forall p, q :: 0 <= p < q < n ==> ds[p] != ds[q]
    requires forall p, q :: 0 <= p < n && 0 <= q < n ==> |ds[p].bytes| == |ds[q].bytes|
    ensures forall p, q :: 0 <= p < n && 0 <= q < n ==> (Distance(ds[p], ds[q]) == 0 <==> p == q)
  {
    forall p, q | 0 <= p < n && 0 <= q < n
      ensures Distance(ds[p], ds[q]) == 0 <==> p == q
    {
      HammingZeroIff(ds[p].bytes, ds[q].bytes);
      assert ds[p] == ds[q] <==> ds[p].bytes == ds[q].bytes;
    }
  }

  /** Within `n` descriptors that are at distance 0 exactly from themselves, each one's
      scan keeps itself. */
  lemma SelfIsBestCandidate(dist: Metric, ds: seq<Descriptor>, n: nat, cutoff: nat, a: nat)
    requires a < n <= |ds|
    requires forall p, q :: 0 <= p < n && 0 <= q < n ==> (dist(ds[p], ds[q]) == 0 <==> p == q)
    ensures BestCandidate(dist, ds[a], ds[..n], cutoff) == Some(a)
  {
    var cands := ds[..n];
    assert dist(ds[a], cands[a]) == 0;
    BestCandidateSpec(dist, ds[a], cands, cutoff);
    var j := BestCandidate(dist, ds[a], cands, cutoff).value;
    assert cands[j] == ds[j];
  }

  /** Matching a feature set against itself, when its descriptors are at distance 0 exactly
      from themselves, pairs every feature with itself, whatever the cutoff. */
  lemma {:induction false} MatchesUpToIdentical(dist: Metric, kps: seq<KeyPoint>, ds: seq<Descriptor>,
                                                cutoff: nat, i: nat)
    requires i <= Zipped(kps, ds)
    requires forall p, q :: 0 <= p < Zipped(kps, ds) && 0 <= q < Zipped(kps, ds) ==>
               (dist(ds[p], ds[q]) == 0 <==> p == q)
    ensures var r := MatchesUpTo(dist, kps, ds, kps, ds, cutoff, i);
      |r| == i && forall t :: 0 <= t < i ==> r[t] == (kps[t], kps[t])
  {
    if i > 0 {
      MatchesUpToIdentical(dist, kps, ds, cutoff, i - 1);
      SelfIsBestCandidate(dist, ds, Zipped(kps, ds), cutoff, i - 1);
      assert MatchOf(dist, kps, ds, kps, ds, cutoff, i - 1) == Some((kps[i - 1], kps[i - 1]));
    }
  }

  /** `match_features` of a feature set against itself, when its descriptors are distinct
      and of one length, pairs every feature with itself, whatever the cutoff. */
  lemma MatchesIdentical(kps: seq<KeyPoint>, ds: seq<Descriptor>, cutoff: nat)
    requires forall p, q :: 0 <= p < q < Zipped(kps, ds) ==> ds[p] != ds[q]
    requires forall p, q :: 0 <= p < Zipped(kps, ds) && 0 <= q < Zipped(kps, ds) ==> |ds[p].bytes| == |ds[q].bytes|
    ensures var r := Matches(Distance, kps, ds, kps, ds, cutoff);
      |r| == Zipped(kps, ds) && forall t :: 0 <= t < |r| ==> r[t] == (kps[t], kps[t])
  {
    DistinctDescriptorsSeparated(ds, Zipped(kps, ds));
    MatchesUpToIdentical(Distance, kps, ds, cutoff, Zipped(kps, ds));
  }

  /** The test vectors of `test_match_features`: keypoints at (0, 0), (1, 1), (2, 2) with
      orientation 0 (as IEEE-754 bit patterns) and three distinct 4-byte descriptors,
      matched against themselves with cutoffs 0 and 100. */
  lemma MatchFeaturesTestVectors()
    ensures
      var k0, k1, k2 := KeyPoint(0, 0, 0), KeyPoint(0x3F80_0000, 0x3F80_0000, 0), KeyPoint(0x4000_0000, 0x4000_0000, 0);
      var kps := [k0, k1, k2];
      var ds := [Descriptor([0x00, 0x00, 0x00, 0x00]), Descriptor([0x00, 0x00, 0x00, 0x03]),
                 Descriptor([0x68, 0x40, 0x10, 0x03])];
      && Matches(Distance, kps, ds, kps, ds, 0) == [(k0, k0), (k1, k1), (k2, k2)]
      && Matches(Distance, kps, ds, kps, ds, 100) == [(k0, k0), (k1, k1), (k2, k2)]
  {
    var k0, k1, k2 := KeyPoint(0, 0, 0), KeyPoint(0x3F80_0000, 0x3F80_0000, 0), KeyPoint(0x4000_0000, 0x4000_0000, 0);
    var kps := [k0, k1, k2];
    var ds := [Descriptor([0x00, 0x00, 0x00, 0x00]), Descriptor([0x00, 0x00, 0x00, 0x03]),
               Descriptor([0x68, 0x40, 0x10, 0x03])];
    MatchesIdentical(kps, ds, 0);
    MatchesIdentical(kps, ds, 100);
  }

  /** Ties go to the LATER candidate: with two B-features at the same minimum distance,
      `match_features` keeps the second one. */
  lemma TieKeepsLastCandidate()
    ensures
      var a, b1, b2 := KeyPoint(0, 0, 0), KeyPoint(0x3F80_0000, 0, 0), KeyPoint(0x4000_0000, 0, 0);
      var d := Descriptor([0x00]);
      Matches(Distance, [a], [d], [b1, b2], [d, d], 0) == [(a, b2)]
  {
    var d := Descriptor([0x00]);
    var cands := [d, d][..2];
    HammingSelf(d.bytes);
    BestCandidateSpec(Distance, d, cands, 0);
    assert BestCandidate(Distance, d, cands, 0) == Some(1);
  }
}
