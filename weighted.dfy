/**
 * The weighted simhash fingerprint (`weighted_fingerprint` in `_simhash.c`).
 *
 * Each item is a pair (hash, weight). The weight is added to position k when
 * bit k of the hash is set and subtracted otherwise. Bit i of the fingerprint
 * is set when position i ends above `ALMOST_0`, a small negative threshold
 * that absorbs rounding. Unlike the unweighted fingerprint, there is no bit
 * reversal and no bit is lost. Weights are exact reals here.
 */
module WeightedFingerprint {
  import opened Words
  import opened Outcomes
  import Fingerprint

  /** `ALMOST_0`. */
  const AlmostZero: real := -0.0000001

  /** An element of the input sequence: a `(long long, float)` tuple or anything else. */
  datatype Item = Pair(hash: Word, weight: real) | Malformed

  datatype Error = TypeError(message: string)

  const InvalidItemMessage: string := "invalid item, expecting tuple of long long and float"

  predicate AllPairs(items: seq<Item>)
  {
    forall i :: 0 <= i < |items| ==> items[i].Pair?
  }

  /**
   * The signed weight that an item contributes to position k (a malformed
   * item is never added: the call fails first).
   */
  function WeightedVote(item: Item, k: nat): real
    requires k < WordSize
  {
    match item
    case Pair(hash, weight) => if hash[k] then weight else -weight
    case Malformed => 0.0
  }

  /** `sums[k]` once the given items have been added, in order. */
  function WeightedTally(items: seq<Item>, k: nat): real
    requires k < WordSize
  {
    if items == [] then 0.0
    else WeightedTally(items[..|items| - 1], k) + WeightedVote(items[|items| - 1], k)
  }

  /** The weighted fingerprint as a function of the items. */
  function WeightedFingerprintOf(items: seq<Item>): Word
  {
    seq(WordSize, k requires 0 <= k < WordSize => WeightedTally(items, k) > AlmostZero)
  }

  /** The token loop body for one valid item. */
  method AddWeightedVotes(sums: array<real>, hash: Word, weight: real)
    requires sums.Length == WordSize
    modifies sums
    ensures forall k :: 0 <= k < WordSize ==> sums[k] == old(sums[k]) + WeightedVote(Pair(hash, weight), k)
  {
    var hashval := hash;
    var index := 0;
    while index < WordSize
      invariant 0 <= index <= WordSize
      invariant hashval[..WordSize - index] == hash[index..]
      invariant forall k :: 0 <= k < index ==> sums[k] == old(sums[k]) + WeightedVote(Pair(hash, weight), k)
      invariant forall k :: index <= k < WordSize ==> sums[k] == old(sums[k])
    {
      LowBitTest(hashval);
      assert hashval[0] == hash[index];
      if And(hashval, One) != Zero {
        sums[index] := sums[index] + weight;
      } else {
        sums[index] := sums[index] - weight;
      }
      assert ShiftRightSigned1(hashval)[..WordSize - (index + 1)] == hash[index + 1..];
      hashval := ShiftRightSigned1(hashval);
      index := index + 1;
    }
  }

  /**
   * `weighted_fingerprint(seq)`: fails with a TypeError at the first item that
   * is not a pair, otherwise returns the fingerprint.
   */
  method ComputeWeightedFingerprint(items: seq<Item>) returns (r: Result<Word, Error>)
    ensures r.Failure? <==> !AllPairs(items)
    ensures r.Failure? ==> r.error == TypeError(InvalidItemMessage)
    ensures r.Success? ==> r.value == WeightedFingerprintOf(items)
  {
    var sums := new real[WordSize](_ => 0.0);
    var i := 0;
    while i < |items|
      invariant 0 <= i <= |items|
      invariant AllPairs(items[..i])
      invariant forall k :: 0 <= k < WordSize ==> sums[k] == WeightedTally(items[..i], k)
    {
      if items[i].Malformed? {
        return Failure(TypeError(InvalidItemMessage));
      }
      assert items[..i + 1][..i] == items[..i];
      AddWeightedVotes(sums, items[i].hash, items[i].weight);
      i := i + 1;
    }
    assert items[..|items|] == items;

    var result := Zero;
    i := 0;
    while i < WordSize
      invariant 0 <= i <= WordSize
      invariant forall k :: 0 <= k < WordSize ==> sums[k] == WeightedTally(items, k)
      invariant forall k :: 0 <= k < i ==> result[k] == (sums[k] > AlmostZero)
      invariant forall k :: i <= k < WordSize ==> !result[k]
    {
      var bit := if sums[i] > AlmostZero then One else Zero;
      ShiftLeftOne(i);
      assert ShiftLeft(Zero, i) == Zero;
      result := Or(result, ShiftLeft(bit, i));
      i := i + 1;
    }
    return Success(result);
  }

  lemma {:induction false} WeightedTallyAppend(s: seq<Item>, t: seq<Item>, k: nat)
    requires k < WordSize
    ensures WeightedTally(s + t, k) == WeightedTally(s, k) + WeightedTally(t, k)
  {
    if t == [] {
      assert s + t == s;
    } else {
      assert (s + t)[..|s + t| - 1] == s + t[..|t| - 1];
      WeightedTallyAppend(s, t[..|t| - 1], k);
    }
  }

  /** Taking one item out removes exactly its contribution. */
  lemma WeightedTallyRemove(t: seq<Item>, j: nat, k: nat)
    requires j < |t| && k < WordSize
    ensures WeightedTally(t, k) == WeightedTally(t[..j] + t[j + 1..], k) + WeightedVote(t[j], k)
  {
    assert t == t[..j] + [t[j]] + t[j + 1..];
    WeightedTallyAppend(t[..j], [t[j]], k);
    WeightedTallyAppend(t[..j] + [t[j]], t[j + 1..], k);
    WeightedTallyAppend(t[..j], t[j + 1..], k);
    assert WeightedTally([t[j]], k) == WeightedVote(t[j], k);
  }

  /** The weighted tally does not depend on the order of the items. */
  lemma {:induction false} WeightedTallyPermutation(s: seq<Item>, t: seq<Item>, k: nat)
    requires k < WordSize
    requires multiset(s) == multiset(t)
    ensures WeightedTally(s, k) == WeightedTally(t, k)
  {
    if s != [] {
      var x := s[|s| - 1];
      var s' := s[..|s| - 1];
      assert s == s' + [x];
      assert x in multiset(t);
      var j :| 0 <= j < |t| && t[j] == x;
      var t' := t[..j] + t[j + 1..];
      assert t == t[..j] + [x] + t[j + 1..];
      assert multiset(s') == multiset(s) - multiset{x};
      assert multiset(t') == multiset(t) - multiset{x};
      WeightedTallyRemove(t, j, k);
      WeightedTallyPermutation(s', t', k);
    } else {
      assert t == [];
    }
  }

  /** Reordering the items does not change the weighted fingerprint. */
  lemma WeightedFingerprintPermutation(s: seq<Item>, t: seq<Item>)
    requires multiset(s) == multiset(t)
    ensures WeightedFingerprintOf(s) == WeightedFingerprintOf(t)
  {
    forall k | 0 <= k < WordSize
      ensures WeightedTally(s, k) == WeightedTally(t, k)
    {
      WeightedTallyPermutation(s, t, k);
    }
  }

  lemma {:induction false} WeightedTallyZero(items: seq<Item>, k: nat)
    requires k < WordSize
    requires AllPairs(items)
    requires forall i :: 0 <= i < |items| ==> items[i].weight == 0.0
    ensures WeightedTally(items, k) == 0.0
  {
    if items != [] {
      WeightedTallyZero(items[..|items| - 1], k);
    }
  }

  /**
   * With no items, or only zero weights, every position sums to 0, which is
   * above `ALMOST_0`: the fingerprint is all ones (-1 as a `long long`).
   */
  lemma WeightedFingerprintZeroWeights(items: seq<Item>)
    requires AllPairs(items)
    requires forall i :: 0 <= i < |items| ==> items[i].weight == 0.0
    ensures WeightedFingerprintOf(items) == Ones(WordSize)
    ensures Signed(WeightedFingerprintOf(items)) == -1
  {
    var f := WeightedFingerprintOf(items);
    forall k | 0 <= k < WordSize
      ensures f[k]
    {
      WeightedTallyZero(items, k);
    }
    assert f == Ones(WordSize);
    ValueOnes(WordSize);
  }

  lemma WeightedFingerprintEmpty()
    ensures WeightedFingerprintOf([]) == Ones(WordSize)
    ensures Signed(WeightedFingerprintOf([])) == -1
  {
    WeightedFingerprintZeroWeights([]);
  }

  /** Every token with weight 1. */
  function UnitWeights(tokens: seq<Word>): (items: seq<Item>)
    ensures |items| == |tokens| && AllPairs(items)
    ensures forall i :: 0 <= i < |tokens| ==> items[i] == Pair(tokens[i], 1.0)
  {
    seq(|tokens|, i requires 0 <= i < |tokens| => Pair(tokens[i], 1.0))
  }

  lemma {:induction false} UnitTally(tokens: seq<Word>, k: nat)
    requires k < WordSize
    ensures WeightedTally(UnitWeights(tokens), k) == Fingerprint.Tally(tokens, k) as real
  {
    if tokens != [] {
      assert UnitWeights(tokens)[..|tokens| - 1] == UnitWeights(tokens[..|tokens| - 1]);
      UnitTally(tokens[..|tokens| - 1], k);
    }
  }

  /**
   * With unit weights the two fingerprints decide every position alike, but
   * the unweighted one stores position 64 - k in bit k and drops position 0.
   */
  lemma UnitWeightsAgree(tokens: seq<Word>, k: nat)
    requires 1 <= k < WordSize
    ensures WeightedFingerprintOf(UnitWeights(tokens))[WordSize - k] == Fingerprint.FingerprintOf(tokens)[k]
  {
    UnitTally(tokens, WordSize - k);
  }
}
