/**
 * `similar_indices` in `_simhash.c`: the near-duplicate finder.
 *
 * Every input hash is rotated left by `rotate_bits` and tagged with its
 * index; the records are sorted by the rotated value; then each record is
 * compared with the records after it for as long as their top `rotate_bits`
 * bits (the key) agree, and every pair within `maxbitdifference` bits is
 * reported with the lower index first. Sorting puts equal keys next to each
 * other, so stopping at the first key change misses nothing.
 */
module Similar {
  import opened Words
  import opened Hamming
  import opened HashRecords

  /** The two rotated hashes agree on the bits `mask` keeps. */
  predicate SameKey(x: Word, y: Word, r: nat)
    requires 1 <= r < WordSize
  {
    And(x, KeyMask(r)) == And(y, KeyMask(r))
  }

  /**
   * Inputs a < b that the finder must report: their hashes, rotated by r,
   * share the key and are at most maxd bits apart.
   */
  predicate SimilarPair(hashes: seq<Word>, maxd: int, r: nat, a: int, b: int)
    requires 1 <= r < WordSize
  {
    0 <= a < b < |hashes|
    && SameKey(RotateLeft(hashes[a], r), RotateLeft(hashes[b], r), r)
    && HamDist(RotateLeft(hashes[a], r), RotateLeft(hashes[b], r)) <= maxd
  }

  /**
   * The distance the scan compares is that of the rotated hashes, which is
   * the distance of the inputs themselves.
   */
  lemma SimilarPairOriginalDistance(hashes: seq<Word>, maxd: int, r: nat, a: int, b: int)
    requires 1 <= r < WordSize
    ensures SimilarPair(hashes, maxd, r, a, b) <==>
      0 <= a < b < |hashes|
      && SameKey(RotateLeft(hashes[a], r), RotateLeft(hashes[b], r), r)
      && HamDist(hashes[a], hashes[b]) <= maxd
  {
    if 0 <= a < b < |hashes| {
      HamDistRotate(hashes[a], hashes[b], r);
    }
  }

  /** `simvals` after the copy loop. */
  function Records(hashes: seq<Word>, r: nat): seq<HashRec>
    requires 1 <= r < WordSize
  {
    seq(|hashes|, i requires 0 <= i < |hashes| => HashRec(RotateLeft(hashes[i], r), i))
  }

  /** Positions p < q of the sorted records whose comparison emits a pair. */
  predicate Match(s: seq<HashRec>, maxd: int, r: nat, p: int, q: int)
    requires 1 <= r < WordSize
  {
    0 <= p < q < |s|
    && SameKey(s[p].hash, s[q].hash, r)
    && HamDist(s[p].hash, s[q].hash) <= maxd
  }

  /** The pair emitted for the records at positions p and q: smaller offset first. */
  function OffsetPair(s: seq<HashRec>, p: int, q: int): (int, int)
    requires 0 <= p < |s| && 0 <= q < |s|
  {
    if s[p].offset < s[q].offset then (s[p].offset, s[q].offset) else (s[q].offset, s[p].offset)
  }

  predicate LexLess(x: (int, int), y: (int, int))
  {
    x.0 < y.0 || (x.0 == y.0 && x.1 < y.1)
  }

  /** s holds every input's rotated hash exactly once, tagged with its index. */
  predicate IsRecordPermutation(s: seq<HashRec>, hashes: seq<Word>, r: nat)
    requires 1 <= r < WordSize
  {
    (forall k :: 0 <= k < |s| ==> s[k].offset < |hashes| && s[k].hash == RotateLeft(hashes[s[k].offset], r))
    && (forall k1, k2 :: 0 <= k1 < k2 < |s| ==> s[k1].offset != s[k2].offset)
    && (forall o :: 0 <= o < |hashes| ==> HasOffset(s, o))
  }

  predicate HasOffset(s: seq<HashRec>, o: int)
  {
    exists k :: 0 <= k < |s| && s[k].offset == o
  }

  /**
   * The pairs emitted so far: the t-th comes from the matching positions
   * origin[t], and those positions are visited in lexicographic order.
   */
  ghost predicate Emitted(s: seq<HashRec>, maxd: int, r: nat, origin: seq<(int, int)>, pairs: seq<(int, int)>)
    requires 1 <= r < WordSize
  {
    |origin| == |pairs|
    && (forall t :: 0 <= t < |origin| ==>
          Match(s, maxd, r, origin[t].0, origin[t].1) && pairs[t] == OffsetPair(s, origin[t].0, origin[t].1))
    && (forall t1, t2 :: 0 <= t1 < t2 < |origin| ==> LexLess(origin[t1], origin[t2]))
  }

  /** Every matching pair of positions whose first position is below i has been visited. */
  ghost predicate Covered(s: seq<HashRec>, maxd: int, r: nat, origin: seq<(int, int)>, i: int)
    requires 1 <= r < WordSize
  {
    forall p, q :: 0 <= p < i && Match(s, maxd, r, p, q) ==> (p, q) in origin
  }

  /**
   * `similar_indices(seq, keybits, maxbitdifference, rotate_bits)`: reports
   * every pair of inputs whose rotated hashes share the key and are within
   * maxd bits, lower index first, each exactly once. `keybits` is accepted
   * and ignored, as in the extension.
   */
  method SimilarIndices(hashes: seq<Word>, keybits: int, maxd: int, r: nat) returns (pairs: seq<(int, int)>)
    requires 1 <= r < WordSize
    ensures forall p :: p in pairs ==> SimilarPair(hashes, maxd, r, p.0, p.1)
    ensures forall a, b :: SimilarPair(hashes, maxd, r, a, b) ==> (a, b) in pairs
    ensures forall t1, t2 :: 0 <= t1 < t2 < |pairs| ==> pairs[t1] != pairs[t2]
  {
    var n := |hashes|;
    var simvals := CopyRecords(hashes, r);
    SortHashRecs(simvals);
    ghost var s := simvals[..];
    PermutedRecords(hashes, r, s);

    var mask := KeyMask(r);
    pairs := [];
    ghost var origin: seq<(int, int)> := [];
    var i := 0;
    while i < n - 1
      invariant 0 <= i <= n && (i == 0 || i <= n - 1)
      invariant simvals[..] == s
      invariant Emitted(s, maxd, r, origin, pairs)
      invariant forall t :: 0 <= t < |origin| ==> origin[t].0 < i
      invariant Covered(s, maxd, r, origin, i)
    {
      pairs, origin := ScanFrom(simvals, i, mask, maxd, r, pairs, origin);
      i := i + 1;
    }
    ScanComplete(hashes, maxd, r, s, origin, pairs);
  }

  /** The copy loop: `simvals[i]` is input i rotated left by r, with offset i. */
  method CopyRecords(hashes: seq<Word>, r: nat) returns (simvals: array<HashRec>)
    requires 1 <= r < WordSize
    ensures fresh(simvals)
    ensures simvals[..] == Records(hashes, r)
  {
    var n := |hashes|;
    simvals := new HashRec[n](_ => HashRec(Zero, 0));
    var i := 0;
    while i < n
      invariant 0 <= i <= n
      invariant forall k :: 0 <= k < i ==> simvals[k] == HashRec(RotateLeft(hashes[k], r), k)
    {
      var hashval := hashes[i];
      simvals[i] := HashRec(Or(ShiftLeft(hashval, r), ShiftRight(hashval, WordSize - r)), i);
      i := i + 1;
    }
  }

  /**
   * Once every position has been scanned, the emitted pairs are exactly the
   * pairs the finder must report, each once.
   */
  lemma ScanComplete(hashes: seq<Word>, maxd: int, r: nat, s: seq<HashRec>,
                     origin: seq<(int, int)>, pairs: seq<(int, int)>)
    requires 1 <= r < WordSize
    requires IsRecordPermutation(s, hashes, r) && |s| == |hashes|
    requires Emitted(s, maxd, r, origin, pairs)
    requires Covered(s, maxd, r, origin, |s| - 1)
    ensures forall p :: p in pairs ==> SimilarPair(hashes, maxd, r, p.0, p.1)
    ensures forall a, b :: SimilarPair(hashes, maxd, r, a, b) ==> (a, b) in pairs
    ensures forall t1, t2 :: 0 <= t1 < t2 < |pairs| ==> pairs[t1] != pairs[t2]
  {
    forall t1, t2 | 0 <= t1 < t2 < |pairs|
      ensures pairs[t1] != pairs[t2]
    {
      OffsetPairInjective(s, origin[t1].0, origin[t1].1, origin[t2].0, origin[t2].1);
    }
    forall p | p in pairs
      ensures SimilarPair(hashes, maxd, r, p.0, p.1)
    {
      var t :| 0 <= t < |pairs| && pairs[t] == p;
      MatchSimilar(hashes, maxd, r, s, origin[t].0, origin[t].1);
    }
    forall a, b | SimilarPair(hashes, maxd, r, a, b)
      ensures (a, b) in pairs
    {
      var p, q := SimilarMatch(hashes, maxd, r, s, a, b);
      var t :| 0 <= t < |origin| && origin[t] == (p, q);
      assert pairs[t] == (a, b);
    }
  }


  /**
   * One pass of the outer loop: compares the record at position i with the
   * records after it while their keys agree, appending a pair for each one
   * within maxd bits.
   */
  method ScanFrom(simvals: array<HashRec>, i: int, mask: Word, maxd: int, r: nat,
                  pairs0: seq<(int, int)>, ghost origin0: seq<(int, int)>)
    returns (pairs: seq<(int, int)>, ghost origin: seq<(int, int)>)
    requires 1 <= r < WordSize && mask == KeyMask(r)
    requires SortedByKey(simvals[..])
    requires 0 <= i < simvals.Length - 1
    requires Emitted(simvals[..], maxd, r, origin0, pairs0)
    requires forall t :: 0 <= t < |origin0| ==> origin0[t].0 < i
    requires Covered(simvals[..], maxd, r, origin0, i)
    ensures Emitted(simvals[..], maxd, r, origin, pairs)
    ensures forall t :: 0 <= t < |origin| ==> origin[t].0 <= i
    ensures Covered(simvals[..], maxd, r, origin, i + 1)
  {
    ghost var s := simvals[..];
    var n := simvals.Length;
    pairs, origin := pairs0, origin0;
    var ii := simvals[i].offset;
    var ihashval := simvals[i].hash;
    var key := And(ihashval, mask);
    var j := i + 1;
    ScanStart(s, maxd, r, origin, pairs, i);
    while j < n
      invariant ScanState(s, maxd, r, origin, pairs, i, j)
    {
      var jhashval := simvals[j].hash;
      assert s[i].hash == ihashval && s[j].hash == jhashval;
      if And(jhashval, mask) != key {
        ScanStop(s, maxd, r, origin, pairs, i, j);
        return;
      }
      if HamDist(ihashval, jhashval) <= maxd {
        ScanEmit(s, maxd, r, origin, pairs, i, j);
        if ii < simvals[j].offset {
          pairs := pairs + [(ii, simvals[j].offset)];
        } else {
          pairs := pairs + [(simvals[j].offset, ii)];
        }
        origin := origin + [(i, j)];
      } else {
        ScanSkip(s, maxd, r, origin, pairs, i, j);
      }
      j := j + 1;
    }
    ScanStop(s, maxd, r, origin, pairs, i, j);
  }

  /**
   * The state of the inner loop of ScanFrom before it looks at position j:
   * positions i+1 .. j-1 share the key of i, and every matching pair below
   * (i, j) in lexicographic order has been visited.
   */
  ghost predicate ScanState(s: seq<HashRec>, maxd: int, r: nat, origin: seq<(int, int)>, pairs: seq<(int, int)>, i: int, j: int)
    requires 1 <= r < WordSize
  {
    0 <= i < j <= |s|
    && (forall k :: i < k < j ==> SameKey(s[i].hash, s[k].hash, r))
    && Emitted(s, maxd, r, origin, pairs)
    && (forall t :: 0 <= t < |origin| ==> LexLess(origin[t], (i, j)))
    && Covered(s, maxd, r, origin, i)
    && (forall q :: i < q < j && Match(s, maxd, r, i, q) ==> (i, q) in origin)
  }

  lemma ScanStart(s: seq<HashRec>, maxd: int, r: nat, origin: seq<(int, int)>, pairs: seq<(int, int)>, i: int)
    requires 1 <= r < WordSize
    requires 0 <= i < |s| - 1
    requires Emitted(s, maxd, r, origin, pairs)
    requires forall t :: 0 <= t < |origin| ==> origin[t].0 < i
    requires Covered(s, maxd, r, origin, i)
    ensures ScanState(s, maxd, r, origin, pairs, i, i + 1)
  {
  }

  /** Appending the pair for a matching position j keeps the scan state. */
  lemma ScanEmit(s: seq<HashRec>, maxd: int, r: nat, origin: seq<(int, int)>, pairs: seq<(int, int)>, i: int, j: int)
    requires 1 <= r < WordSize
    requires ScanState(s, maxd, r, origin, pairs, i, j) && j < |s|
    requires SameKey(s[i].hash, s[j].hash, r) && HamDist(s[i].hash, s[j].hash) <= maxd
    ensures ScanState(s, maxd, r, origin + [(i, j)], pairs + [OffsetPair(s, i, j)], i, j + 1)
  {
    EmitAppend(s, maxd, r, origin, pairs, i, j);
  }

  /** Appending a matching pair of positions beyond all visited ones keeps the emitted pairs in order. */
  lemma EmitAppend(s: seq<HashRec>, maxd: int, r: nat, origin: seq<(int, int)>, pairs: seq<(int, int)>, i: int, j: int)
    requires 1 <= r < WordSize
    requires Emitted(s, maxd, r, origin, pairs)
    requires forall t :: 0 <= t < |origin| ==> LexLess(origin[t], (i, j))
    requires Match(s, maxd, r, i, j)
    ensures Emitted(s, maxd, r, origin + [(i, j)], pairs + [OffsetPair(s, i, j)])
  {
    var origin', pairs' := origin + [(i, j)], pairs + [OffsetPair(s, i, j)];
    assert forall t :: 0 <= t < |origin| ==> origin'[t] == origin[t] && pairs'[t] == pairs[t];
  }

  /** Passing over a position j with the key of i but too far from it keeps the scan state. */
  lemma ScanSkip(s: seq<HashRec>, maxd: int, r: nat, origin: seq<(int, int)>, pairs: seq<(int, int)>, i: int, j: int)
    requires 1 <= r < WordSize
    requires ScanState(s, maxd, r, origin, pairs, i, j) && j < |s|
    requires SameKey(s[i].hash, s[j].hash, r) && !(HamDist(s[i].hash, s[j].hash) <= maxd)
    ensures ScanState(s, maxd, r, origin, pairs, i, j + 1)
  {
  }

  /**
   * The scan from i ends at the last position or at the first position j
   * whose key differs; in sorted order every match of i has then been seen.
   */
  lemma ScanStop(s: seq<HashRec>, maxd: int, r: nat, origin: seq<(int, int)>, pairs: seq<(int, int)>, i: int, j: int)
    requires 1 <= r < WordSize
    requires SortedByKey(s)
    requires ScanState(s, maxd, r, origin, pairs, i, j)
    requires j == |s| || And(s[j].hash, KeyMask(r)) != And(s[i].hash, KeyMask(r))
    ensures Emitted(s, maxd, r, origin, pairs)
    ensures forall t :: 0 <= t < |origin| ==> origin[t].0 <= i
    ensures Covered(s, maxd, r, origin, i + 1)
  {
    if j < |s| {
      RunEnds(s, r, i, j);
    }
  }

  /**
   * When the key of position j differs from that of position i < j in sorted
   * order, no later position shares the key of i either.
   */
  lemma RunEnds(s: seq<HashRec>, r: nat, i: int, j: int)
    requires 1 <= r < WordSize
    requires SortedByKey(s)
    requires 0 <= i < j < |s|
    requires And(s[j].hash, KeyMask(r)) != And(s[i].hash, KeyMask(r))
    ensures forall q :: j <= q < |s| ==> !SameKey(s[i].hash, s[q].hash, r)
  {
    forall q | j <= q < |s|
      ensures !SameKey(s[i].hash, s[q].hash, r)
    {
      if SameKey(s[i].hash, s[q].hash, r) {
        KeyContiguous(s, r, i, j, q);
      }
    }
  }

  /**
   * Records with equal keys are contiguous in sorted order: a record lying
   * between two records with the same key has that key too.
   */
  lemma KeyContiguous(s: seq<HashRec>, r: nat, p: int, k: int, q: int)
    requires 1 <= r < WordSize
    requires SortedByKey(s)
    requires 0 <= p <= k <= q < |s|
    requires SameKey(s[p].hash, s[q].hash, r)
    ensures SameKey(s[p].hash, s[k].hash, r)
  {
    var m := WordSize - r;
    var x, y, z := s[p].hash, s[k].hash, s[q].hash;
    assert Signed(x) <= Signed(y) <= Signed(z) by {
      assert p < k ==> SortKey(s[p]) <= SortKey(s[k]);
      assert k < q ==> SortKey(s[k]) <= SortKey(s[q]);
    }
    MaskedEqual(x, z, r);
    TopMonotone(x, y, m);
    TopMonotone(y, z, m);
    SignedInjective(x[m..], y[m..]);
    MaskedEqual(x, y, r);
  }

  /** The signed value of the bits from m up is monotone in the signed value of the word. */
  lemma TopMonotone(x: Word, y: Word, m: nat)
    requires 0 < m < WordSize
    requires Signed(x) <= Signed(y)
    ensures SignedValue(x[m..]) <= SignedValue(y[m..])
  {
    SignedSplit(x, m);
    SignedSplit(y, m);
    ValueBound(x[..m]);
    ValueBound(y[..m]);
    QuotientMonotone(Value(x[..m]), SignedValue(x[m..]), Value(y[..m]), SignedValue(y[m..]), Pow2(m));
  }

  lemma QuotientMonotone(l1: int, k1: int, l2: int, k2: int, p: int)
    requires 0 <= l1 < p && 0 <= l2 < p
    requires l1 + p * k1 <= l2 + p * k2
    ensures k1 <= k2
  {
    var d := k1 - k2;
    assert p * d == p * k1 - p * k2;
    MulBelow(p, d);
  }

  lemma MulBelow(p: int, d: int)
    requires p > 0 && p * d < p
    ensures d < 1
  {
  }

  /** The facts the scan uses about the sorted copy of `Records(hashes, r)`. */
  lemma PermutedRecords(hashes: seq<Word>, r: nat, s: seq<HashRec>)
    requires 1 <= r < WordSize
    requires multiset(s) == multiset(Records(hashes, r))
    ensures IsRecordPermutation(s, hashes, r)
  {
    var recs := Records(hashes, r);
    forall k | 0 <= k < |s|
      ensures s[k].offset < |hashes| && s[k].hash == RotateLeft(hashes[s[k].offset], r)
    {
      assert s[k] in multiset(recs);
      var i :| 0 <= i < |recs| && recs[i] == s[k];
    }
    forall o | 0 <= o < |hashes|
      ensures HasOffset(s, o)
    {
      assert recs[o] in multiset(s);
      var k :| 0 <= k < |s| && s[k] == recs[o];
      assert s[k].offset == o;
    }
    forall k1, k2 | 0 <= k1 < k2 < |s|
      ensures s[k1].offset != s[k2].offset
    {
      Repeated(s, k1, k2);
      DistinctAtMostOnce(recs, s[k1]);
      assert s[k1] != s[k2];
    }
  }

  /** An element at two positions occurs at least twice. */
  lemma Repeated<T>(s: seq<T>, k1: int, k2: int)
    requires 0 <= k1 < k2 < |s|
    ensures s[k1] == s[k2] ==> multiset(s)[s[k1]] >= 2
  {
    assert s == s[..k1] + [s[k1]] + s[k1 + 1..k2] + [s[k2]] + s[k2 + 1..];
  }

  /** In a sequence without repeated elements nothing occurs twice. */
  lemma {:induction false} DistinctAtMostOnce<T>(t: seq<T>, x: T)
    requires forall i, j :: 0 <= i < j < |t| ==> t[i] != t[j]
    ensures multiset(t)[x] <= 1
  {
    if t != [] {
      var u := t[..|t| - 1];
      assert t == u + [t[|t| - 1]];
      DistinctAtMostOnce(u, x);
      assert t[|t| - 1] !in u by {
        forall i | 0 <= i < |u|
          ensures u[i] != t[|t| - 1]
        {
          assert u[i] == t[i];
        }
      }
    }
  }

  /** The pair emitted for two matching positions is a pair the finder must report. */
  lemma MatchSimilar(hashes: seq<Word>, maxd: int, r: nat, s: seq<HashRec>, p: int, q: int)
    requires 1 <= r < WordSize
    requires IsRecordPermutation(s, hashes, r)
    requires Match(s, maxd, r, p, q)
    ensures SimilarPair(hashes, maxd, r, OffsetPair(s, p, q).0, OffsetPair(s, p, q).1)
  {
    HamDistSymmetric(s[p].hash, s[q].hash);
  }

  /** Every pair the finder must report is emitted for some matching positions. */
  lemma SimilarMatch(hashes: seq<Word>, maxd: int, r: nat, s: seq<HashRec>, a: int, b: int)
    returns (p: int, q: int)
    requires 1 <= r < WordSize
    requires IsRecordPermutation(s, hashes, r)
    requires SimilarPair(hashes, maxd, r, a, b)
    ensures Match(s, maxd, r, p, q) && OffsetPair(s, p, q) == (a, b)
  {
    assert HasOffset(s, a) && HasOffset(s, b);
    var ka :| 0 <= ka < |s| && s[ka].offset == a;
    var kb :| 0 <= kb < |s| && s[kb].offset == b;
    HamDistSymmetric(s[ka].hash, s[kb].hash);
    if ka < kb {
      p, q := ka, kb;
    } else {
      p, q := kb, ka;
    }
  }

  /** Distinct position pairs emit distinct pairs, because offsets are distinct. */
  lemma OffsetPairInjective(s: seq<HashRec>, p1: int, q1: int, p2: int, q2: int)
    requires 0 <= p1 < q1 < |s| && 0 <= p2 < q2 < |s|
    requires forall k1, k2 :: 0 <= k1 < k2 < |s| ==> s[k1].offset != s[k2].offset
    requires LexLess((p1, q1), (p2, q2))
    ensures OffsetPair(s, p1, q1) != OffsetPair(s, p2, q2)
  {
  }

  // ---- the comparator as written loses a pair ----

  /**
   * Records whose hashes are 0, -2^63 (the sign bit alone) and 2^32 (bit 32
   * alone). Under `cmp_hashrec` as written they compare equal in every order,
   * so `qsort` may leave them in this order, although it is not sorted. With a
   * one-bit key the first and the last record match, but the scan from the
   * first breaks at the second, whose key differs, and the second does not
   * share the last one's key either: the pair is never emitted.
   */
  lemma AsWrittenScanLosesPair(s: seq<HashRec>)
    requires |s| == 3
    requires OnlyBit(s[0].hash, -1) && OnlyBit(s[1].hash, WordSize - 1) && OnlyBit(s[2].hash, 32)
    ensures SortKey(s[0]) == 0 && SortKey(s[1]) == -0x8000_0000_0000_0000 && SortKey(s[2]) == 0x1_0000_0000
    ensures !SortedByKey(s)
    ensures Match(s, 1, 1, 0, 2)
    ensures !SameKey(s[0].hash, s[1].hash, 1)
    ensures !SameKey(s[1].hash, s[2].hash, 1)
    ensures AsWrittenTies(s)
  {
    LostPairKeys(s);
    LostPairTies(s);
    LostPairUnsorted(s);
    LostPairMatch(s);
  }

  lemma LostPairTies(s: seq<HashRec>)
    requires |s| == 3
    requires OnlyBit(s[0].hash, -1) && OnlyBit(s[1].hash, WordSize - 1) && OnlyBit(s[2].hash, 32)
    ensures AsWrittenTies(s)
  {
    LostPairKeys(s);
    assert s == [s[0], s[1], s[2]];
    CmpAsWrittenTies(s[0], s[1], s[2]);
  }

  lemma LostPairUnsorted(s: seq<HashRec>)
    requires |s| == 3
    requires OnlyBit(s[0].hash, -1) && OnlyBit(s[1].hash, WordSize - 1) && OnlyBit(s[2].hash, 32)
    ensures !SortedByKey(s)
  {
    LostPairKeys(s);
    assert SortKey(s[0]) > SortKey(s[1]);
  }

  lemma LostPairMatch(s: seq<HashRec>)
    requires |s| == 3
    requires OnlyBit(s[0].hash, -1) && OnlyBit(s[1].hash, WordSize - 1) && OnlyBit(s[2].hash, 32)
    ensures Match(s, 1, 1, 0, 2)
    ensures !SameKey(s[0].hash, s[1].hash, 1)
    ensures !SameKey(s[1].hash, s[2].hash, 1)
  {
    LostPairBits(s[0].hash, s[1].hash, s[2].hash);
  }

  lemma LostPairKeys(s: seq<HashRec>)
    requires |s| == 3
    requires OnlyBit(s[0].hash, -1) && OnlyBit(s[1].hash, WordSize - 1) && OnlyBit(s[2].hash, 32)
    ensures SortKey(s[0]) == 0 && SortKey(s[1]) == -0x8000_0000_0000_0000 && SortKey(s[2]) == 0x1_0000_0000
  {
    OnlyBitZero(s[0].hash);
    OnlyBitValue(s[1].hash, WordSize - 1);
    OnlyBitValue(s[2].hash, 32);
    Pow2Word();
    Pow2ThirtyTwo();
  }

  /** Only the sign word has its top bit set, and 0 and 2^32 differ in one bit. */
  lemma LostPairBits(z: Word, m: Word, b: Word)
    requires OnlyBit(z, -1) && OnlyBit(m, WordSize - 1) && OnlyBit(b, 32)
    ensures SameKey(z, b, 1) && HamDist(z, b) == 1
    ensures !SameKey(z, m, 1) && !SameKey(m, b, 1)
  {
    assert z[WordSize - 1..] == [false];
    assert m[WordSize - 1..] == [true];
    assert b[WordSize - 1..] == [false];
    MaskedEqual(z, b, 1);
    MaskedEqual(z, m, 1);
    MaskedEqual(m, b, 1);
    assert Xor(z, b) == b;
    OnlyBitValue(b, 32);
  }

  lemma Pow2ThirtyTwo()
    ensures Pow2(32) == 0x1_0000_0000
  {
    assert Pow2(8) == 256;
    Pow2Add(8, 8);
    Pow2Add(16, 16);
  }
}
