/**
 * Feature extraction: turning the landmarks of one camera frame into a
 * gesture fingerprint, the vector of distances between every pair of
 * landmark points (main.py:379-389 and main.py:431-438).
 */
module Features {

  /** One detected landmark in normalised image coordinates; the detector's depth is not used. */
  datatype Landmark = Landmark(x: real, y: real)

  /** The landmarks of one detected hand, in the detector's fixed anatomical order. */
  type Hand = seq<Landmark>

  /** A gesture fingerprint: one distance per pair of landmark points. */
  type Fingerprint = seq<real>

  /** The Euclidean norm routine (numpy's `hypot`); the model never depends on its values. */
  type Hypot = (real, real) -> real

  function Distance(hypot: Hypot, p: Landmark, q: Landmark): real
  {
    hypot(p.x - q.x, p.y - q.y)
  }

  // ---------------------------------------------------------------------------
  // The pair ordering
  // ---------------------------------------------------------------------------

  /** The distances from point i to each later point, the later point ascending. */
  function Row(lm: seq<Landmark>, i: nat, hypot: Hypot): (r: seq<real>)
    requires i < |lm|
    ensures |r| == |lm| - 1 - i
  {
    seq(|lm| - 1 - i, k requires 0 <= k < |lm| - 1 - i => Distance(hypot, lm[i], lm[i + 1 + k]))
  }

  /** The rows of the points 0 .. i-1, one after the other. */
  function Rows(lm: seq<Landmark>, i: nat, hypot: Hypot): seq<real>
    requires i <= |lm|
  {
    if i == 0 then [] else Rows(lm, i - 1, hypot) + Row(lm, i - 1, hypot)
  }

  /** Every pairwise distance of `lm`, pairs (i, j) with i < j in lexicographic order. */
  function PairDistances(lm: seq<Landmark>, hypot: Hypot): seq<real>
  {
    Rows(lm, |lm|, hypot)
  }

  /** How many pairs (i, j) of n points have a first point below i. */
  function RowStart(n: nat, i: nat): nat
    requires i <= n
  {
    if i == 0 then 0 else RowStart(n, i - 1) + (n - i)
  }

  /** The position of the pair (i, j) among all pairs of n points in lexicographic order. */
  function PairIndex(n: nat, i: nat, j: nat): nat
    requires i < j < n
  {
    RowStart(n, i) + (j - i - 1)
  }

  /** The binomial coefficient C(n, 2). */
  function PairCount(n: nat): nat
  {
    if n == 0 then 0 else n * (n - 1) / 2
  }

  lemma {:induction false} RowStartClosedForm(n: nat, i: nat)
    requires i <= n
    ensures 2 * RowStart(n, i) == i * (2 * n - i - 1)
  {
    if i > 0 {
      RowStartClosedForm(n, i - 1);
      calc {
        2 * RowStart(n, i);
        2 * RowStart(n, i - 1) + 2 * (n - i);
        (i - 1) * (2 * n - i) + 2 * (n - i);
        { assert (i - 1) * (2 * n - i) == i * (2 * n - i) - (2 * n - i); }
        i * (2 * n - i) - (2 * n - i) + 2 * n - 2 * i;
        i * (2 * n - i) - i;
        i * (2 * n - i - 1);
      }
    }
  }

  lemma {:induction false} RowStartMonotonic(n: nat, i: nat, k: nat)
    requires i <= k <= n
    ensures RowStart(n, i) <= RowStart(n, k)
    decreases k - i
  {
    if i < k {
      RowStartMonotonic(n, i, k - 1);
    }
  }

  lemma {:induction false} RowsLength(lm: seq<Landmark>, i: nat, hypot: Hypot)
    requires i <= |lm|
    ensures |Rows(lm, i, hypot)| == RowStart(|lm|, i)
  {
    if i > 0 {
      RowsLength(lm, i - 1, hypot);
    }
  }

  lemma {:induction false} RowsAt(lm: seq<Landmark>, k: nat, i: nat, j: nat, hypot: Hypot)
    requires i < j < |lm| && i < k <= |lm|
    ensures PairIndex(|lm|, i, j) < |Rows(lm, k, hypot)|
    ensures Rows(lm, k, hypot)[PairIndex(|lm|, i, j)] == Distance(hypot, lm[i], lm[j])
  {
    RowsLength(lm, k - 1, hypot);
    if k == i + 1 {
      assert Rows(lm, k, hypot) == Rows(lm, i, hypot) + Row(lm, i, hypot);
      assert Row(lm, i, hypot)[j - i - 1] == Distance(hypot, lm[i], lm[j]);
    } else {
      RowsAt(lm, k - 1, i, j, hypot);
    }
  }

  /**
   * The fingerprint of n points has exactly C(n, 2) entries, and the entry at
   * the lexicographic position of the pair (i, j) is the distance from point i
   * to point j.
   */
  lemma PairDistancesAt(lm: seq<Landmark>, hypot: Hypot)
    ensures |PairDistances(lm, hypot)| == PairCount(|lm|)
    ensures forall i, j :: 0 <= i < j < |lm| ==>
      PairIndex(|lm|, i, j) < PairCount(|lm|) &&
      PairDistances(lm, hypot)[PairIndex(|lm|, i, j)] == Distance(hypot, lm[i], lm[j])
  {
    RowsLength(lm, |lm|, hypot);
    RowStartClosedForm(|lm|, |lm|);
    forall i, j | 0 <= i < j < |lm|
      ensures PairIndex(|lm|, i, j) < PairCount(|lm|)
      ensures PairDistances(lm, hypot)[PairIndex(|lm|, i, j)] == Distance(hypot, lm[i], lm[j])
    {
      RowsAt(lm, |lm|, i, j, hypot);
    }
  }

  /** Pair positions increase strictly with the lexicographic order of the pairs. */
  lemma PairIndexIncreasing(n: nat, i: nat, j: nat, i': nat, j': nat)
    requires i < j < n && i' < j' < n
    requires i < i' || (i == i' && j < j')
    ensures PairIndex(n, i, j) < PairIndex(n, i', j')
  {
    if i < i' {
      RowStartMonotonic(n, i + 1, i');
    }
  }

  lemma {:induction false} PairIndexOntoFrom(n: nat, i: nat, k: nat)
    requires i < n && RowStart(n, i) <= k < RowStart(n, n)
    ensures exists i', j' :: 0 <= i' < j' < n && PairIndex(n, i', j') == k
    decreases n - i
  {
    if k < RowStart(n, i + 1) {
      var j := k - RowStart(n, i) + i + 1;
      assert PairIndex(n, i, j) == k;
    } else {
      if i + 1 == n {
        assert false;
      }
      PairIndexOntoFrom(n, i + 1, k);
    }
  }

  /** Every position below C(n, 2) is the position of some pair, so the order covers all pairs. */
  lemma PairIndexOnto(n: nat, k: nat)
    requires k < PairCount(n)
    ensures exists i, j :: 0 <= i < j < n && PairIndex(n, i, j) == k
  {
    RowStartClosedForm(n, n);
    PairIndexOntoFrom(n, 0, k);
  }

  /**
   * calculate_distances (main.py:431-438): the nested loop over i < j,
   * appending one distance per pair.
   */
  method CalculateDistances(lm: seq<Landmark>, hypot: Hypot) returns (dists: seq<real>)
    ensures dists == PairDistances(lm, hypot)
    ensures |dists| == PairCount(|lm|)
    ensures forall i, j :: 0 <= i < j < |lm| ==>
      PairIndex(|lm|, i, j) < |dists| && dists[PairIndex(|lm|, i, j)] == Distance(hypot, lm[i], lm[j])
  {
    dists := [];
    var i := 0;
    while i < |lm|
      invariant 0 <= i <= |lm|
      invariant dists == Rows(lm, i, hypot)
    {
      var j := i + 1;
      while j < |lm|
        invariant i + 1 <= j <= |lm|
        invariant dists == Rows(lm, i, hypot) + Row(lm, i, hypot)[..j - i - 1]
      {
        assert Row(lm, i, hypot)[..j - i] == Row(lm, i, hypot)[..j - i - 1] + [Distance(hypot, lm[i], lm[j])];
        dists := dists + [Distance(hypot, lm[i], lm[j])];
        j := j + 1;
      }
      assert Row(lm, i, hypot)[..j - i - 1] == Row(lm, i, hypot);
      i := i + 1;
    }
    PairDistancesAt(lm, hypot);
  }

  // ---------------------------------------------------------------------------
  // From detector output to one landmark list
  // ---------------------------------------------------------------------------

  /** All landmarks of the hands, hand after hand. */
  function Flatten(hands: seq<Hand>): (r: seq<Landmark>)
    ensures forall p :: p in r <==> exists k :: 0 <= k < |hands| && p in hands[k]
  {
    if hands == [] then [] else hands[0] + Flatten(hands[1..])
  }

  /** The hand slots of one frame: a lone hand is copied into a second slot (main.py:385-387). */
  function HandSlots(hands: seq<Hand>): (r: seq<Hand>)
    ensures |r| == if |hands| == 1 then 2 else |hands|
    ensures r[..|hands|] == hands
    ensures forall k :: |hands| <= k < |r| ==> r[k] == hands[0]
    ensures forall h :: h in r <==> h in hands
  {
    if |hands| == 1 then hands + [hands[0]] else hands
  }

  /** The landmark list main.py:389 builds from the detector's hands. */
  function FrameLandmarks(hands: seq<Hand>): (r: seq<Landmark>)
    ensures forall p :: p in r <==> exists k :: 0 <= k < |hands| && p in hands[k]
    ensures 1 <= |hands| <= 2 ==> r == hands[0] + hands[|hands| - 1]
  {
    var slots := HandSlots(hands);
    if 1 <= |hands| <= 2 then
      assert |slots| == 2 && slots[0] == hands[0] && slots[1] == hands[|hands| - 1];
      assert slots[1..][1..] == [];
      assert Flatten(slots[1..]) == slots[1] + Flatten([]);
      Flatten(slots)
    else
      Flatten(slots)
  }

  /** The fingerprint of a frame in which at least one hand was detected. */
  function Extract(hands: seq<Hand>, hypot: Hypot): (r: Fingerprint)
    requires hands != []
    ensures var lm := FrameLandmarks(hands);
      && |r| == PairCount(|lm|)
      && forall i, j :: 0 <= i < j < |lm| ==>
           PairIndex(|lm|, i, j) < |r| && r[PairIndex(|lm|, i, j)] == Distance(hypot, lm[i], lm[j])
  {
    PairDistancesAt(FrameLandmarks(hands), hypot);
    PairDistances(FrameLandmarks(hands), hypot)
  }

  lemma {:induction false} FlattenUniform(hands: seq<Hand>, size: nat)
    requires forall k :: 0 <= k < |hands| ==> |hands[k]| == size
    ensures |Flatten(hands)| == |hands| * size
  {
    if hands != [] {
      FlattenUniform(hands[1..], size);
    }
  }

  /** A frame with one hand has the same landmarks, hence fingerprint, as the two-hand frame of that hand twice. */
  lemma LoneHandDuplicated(h: Hand, hypot: Hypot)
    ensures FrameLandmarks([h]) == h + h == FrameLandmarks([h, h])
    ensures Extract([h], hypot) == Extract([h, h], hypot)
  {
    assert [h, h][1..] == [h];
    assert [h][1..] == [];
    assert Flatten([h]) == h + [] == h;
  }

  /**
   * With hands of L landmarks each, one- and two-hand frames both give a
   * fingerprint of C(2L, 2) distances, so fingerprints are comparable
   * whatever the hand count.
   */
  lemma FingerprintLength(hands: seq<Hand>, size: nat, hypot: Hypot)
    requires 1 <= |hands| <= 2
    requires forall k :: 0 <= k < |hands| ==> |hands[k]| == size
    ensures |FrameLandmarks(hands)| == 2 * size
    ensures |Extract(hands, hypot)| == PairCount(2 * size)
  {
    FlattenUniform(HandSlots(hands), size);
    PairDistancesAt(FrameLandmarks(hands), hypot);
  }
}
