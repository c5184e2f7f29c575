/**
 * The records `similar_indices` sorts (`struct hashrec`), the order it sorts
 * them in, and the in-place sort.
 *
 * The extension sorts with `qsort` and `cmp_hashrec`, which returns the
 * 64-bit difference of the two hashes converted to `int`. That conversion
 * keeps only the low 32 bits (GCC, two's complement), so the comparator is not
 * an order on 64-bit hashes. The model keeps that comparator as written, shows
 * where it fails, and sorts with a correct three-way comparison of the signed
 * hashes instead.
 */
module HashRecords {
  import opened Words

  /** `struct hashrec`: a rotated hash and the index it came from. */
  datatype HashRec = HashRec(hash: Word, offset: nat)

  /** The value `qsort` orders the records by: the hash as `PY_LONG_LONG`. */
  function SortKey(rec: HashRec): int
  {
    Signed(rec.hash)
  }

  /** x wrapped to a 64-bit two's-complement integer (`PY_LONG_LONG` arithmetic on x86-64). */
  function ToInt64(x: int): (y: int)
    ensures -0x8000_0000_0000_0000 <= y < 0x8000_0000_0000_0000
    ensures (x - y) % 0x1_0000_0000_0000_0000 == 0
  {
    (x + 0x8000_0000_0000_0000) % 0x1_0000_0000_0000_0000 - 0x8000_0000_0000_0000
  }

  /** x converted to a 32-bit `int`: GCC keeps the low 32 bits. */
  function ToInt32(x: int): (y: int)
    ensures -0x8000_0000 <= y < 0x8000_0000
    ensures (x - y) % 0x1_0000_0000 == 0
  {
    (x + 0x8000_0000) % 0x1_0000_0000 - 0x8000_0000
  }

  /**
   * `cmp_hashrec` as written: the `PY_LONG_LONG` difference of the two hashes,
   * returned as an `int`.
   */
  function CmpHashRecAsWritten(a: HashRec, b: HashRec): int
  {
    CmpKeysAsWritten(SortKey(a), SortKey(b))
  }

  /** The body of `cmp_hashrec` on the two keys: wrapped subtraction, then truncation to `int`. */
  function CmpKeysAsWritten(x: int, y: int): int
  {
    ToInt32(ToInt64(x - y))
  }

  /** The comparator the sort needs: the sign of the comparison of the two signed hashes. */
  function CmpHashRec(a: HashRec, b: HashRec): (c: int)
    ensures c < 0 <==> SortKey(a) < SortKey(b)
    ensures c == 0 <==> SortKey(a) == SortKey(b)
    ensures c > 0 <==> SortKey(a) > SortKey(b)
  {
    if SortKey(a) < SortKey(b) then -1 else if SortKey(a) > SortKey(b) then 1 else 0
  }

  /** Two records compare equal under the corrected comparator only when their hashes are equal. */
  lemma CmpHashRecEqual(a: HashRec, b: HashRec)
    ensures CmpHashRec(a, b) == 0 <==> a.hash == b.hash
  {
    if SortKey(a) == SortKey(b) {
      SignedInjective(a.hash, b.hash);
    }
  }

  /** Every signed 64-bit value is the key of some record. */
  lemma KeyRealizable(x: int, offset: nat)
    requires -0x8000_0000_0000_0000 <= x < 0x8000_0000_0000_0000
    ensures SortKey(HashRec(FromSigned(x), offset)) == x
  {
    SignedFromSigned(x);
  }

  /**
   * The comparator as written calls records with the hashes 0x100000000 and 0
   * equal, although their hashes differ.
   */
  lemma CmpAsWrittenMissesDifference(a: HashRec, b: HashRec)
    requires SortKey(a) == 0x1_0000_0000 && SortKey(b) == 0
    ensures a.hash != b.hash
    ensures CmpHashRecAsWritten(a, b) == 0
    ensures CmpHashRec(a, b) > 0
  {
  }

  /**
   * The comparator as written is not transitive: it puts the hashes 0,
   * 0x60000000 and 0xC0000000 in a cycle.
   */
  lemma CmpAsWrittenNotTransitive(a: HashRec, b: HashRec, c: HashRec)
    requires SortKey(a) == 0 && SortKey(b) == 0x6000_0000 && SortKey(c) == 0xC000_0000
    ensures CmpHashRecAsWritten(a, b) < 0 && CmpHashRecAsWritten(b, c) < 0
    ensures CmpHashRecAsWritten(a, c) > 0
  {
    assert ToInt64(-0x6000_0000) == -0x6000_0000 && ToInt32(-0x6000_0000) == -0x6000_0000;
    assert ToInt64(-0xC000_0000) == -0xC000_0000 && ToInt32(-0xC000_0000) == 0x4000_0000;
  }

  /**
   * The comparator as written calls every two records of s equal, so any
   * order of s is one `qsort` may return.
   */
  predicate AsWrittenTies(s: seq<HashRec>)
  {
    forall p, q :: 0 <= p < |s| && 0 <= q < |s| ==> CmpHashRecAsWritten(s[p], s[q]) == 0
  }

  /** The hashes 0, -2^63 and 2^32 compare equal in every order under the comparator as written. */
  lemma CmpAsWrittenTies(a: HashRec, b: HashRec, c: HashRec)
    requires SortKey(a) == 0 && SortKey(b) == -0x8000_0000_0000_0000 && SortKey(c) == 0x1_0000_0000
    ensures AsWrittenTies([a, b, c])
  {
    var s := [a, b, c];
    forall p, q | 0 <= p < 3 && 0 <= q < 3
      ensures CmpHashRecAsWritten(s[p], s[q]) == 0
    {
      CmpByKeys(s[p], s[q], SortKey(s[p]), SortKey(s[q]));
      if p == q {
        CmpKeysSame(SortKey(s[p]));
      } else if p == 0 && q == 1 {
        CmpZeroMin();
      } else if p == 1 && q == 0 {
        CmpMinZero();
      } else if p == 0 && q == 2 {
        CmpZeroBit32();
      } else if p == 2 && q == 0 {
        CmpBit32Zero();
      } else if p == 1 && q == 2 {
        CmpMinBit32();
      } else {
        CmpBit32Min();
      }
    }
  }

  lemma CmpByKeys(a: HashRec, b: HashRec, x: int, y: int)
    requires SortKey(a) == x && SortKey(b) == y
    ensures CmpHashRecAsWritten(a, b) == CmpKeysAsWritten(x, y)
  {
  }

  // One fact per lemma: together the modulo facts of the wrap-around overwhelm the solver.
  lemma CmpKeysSame(x: int) ensures CmpKeysAsWritten(x, x) == 0 {}
  lemma CmpZeroMin() ensures CmpKeysAsWritten(0, -0x8000_0000_0000_0000) == 0 {}
  lemma CmpMinZero() ensures CmpKeysAsWritten(-0x8000_0000_0000_0000, 0) == 0 {}
  lemma CmpZeroBit32() ensures CmpKeysAsWritten(0, 0x1_0000_0000) == 0 {}
  lemma CmpBit32Zero() ensures CmpKeysAsWritten(0x1_0000_0000, 0) == 0 {}
  lemma CmpMinBit32() ensures CmpKeysAsWritten(-0x8000_0000_0000_0000, 0x1_0000_0000) == 0 {}
  lemma CmpBit32Min() ensures CmpKeysAsWritten(0x1_0000_0000, -0x8000_0000_0000_0000) == 0 {}

  /** Sorted by the signed hash, smallest first. */
  predicate SortedByKey(s: seq<HashRec>)
  {
    forall i, j :: 0 <= i < j < |s| ==> SortKey(s[i]) <= SortKey(s[j])
  }

  /**
   * `qsort(simvals, seq_length, sizeof(struct hashrec), cmp_hashrec)` with the
   * corrected comparator, as an insertion sort by adjacent swaps.
   */
  method SortHashRecs(a: array<HashRec>)
    modifies a
    ensures SortedByKey(a[..])
    ensures multiset(a[..]) == multiset(old(a[..]))
  {
    var i := 0;
    while i < a.Length
      invariant 0 <= i <= a.Length
      invariant SortedByKey(a[..i])
      invariant multiset(a[..]) == multiset(old(a[..]))
    {
      InsertLast(a, i);
      i := i + 1;
    }
    assert a[..a.Length] == a[..];
  }

  /** Moves `a[i]` down into the sorted prefix `a[..i]`; the cells after i are untouched. */
  method InsertLast(a: array<HashRec>, i: nat)
    requires i < a.Length
    requires SortedByKey(a[..i])
    modifies a
    ensures SortedByKey(a[..i + 1])
    ensures multiset(a[..]) == multiset(old(a[..]))
    ensures a[i + 1..] == old(a[i + 1..])
  {
    InsertStart(a[..], i);
    var j := i;
    while j > 0 && CmpHashRec(a[j - 1], a[j]) > 0
      invariant 0 <= j <= i
      invariant Inserting(a[..], old(a[..]), i, j)
    {
      InsertStep(a[..], old(a[..]), i, j);
      Swap(a, j - 1, j);
      j := j - 1;
    }
    InsertDone(a[..], old(a[..]), i, j);
  }

  /**
   * The state of the insertion loop: `a[j]` is the record being moved, the
   * other cells up to i are in order and below it only where they are left of
   * it, and nothing after i has moved.
   */
  ghost predicate Inserting(s: seq<HashRec>, s0: seq<HashRec>, i: nat, j: nat)
  {
    j <= i < |s| == |s0|
    && multiset(s) == multiset(s0)
    && (forall p, q :: 0 <= p < q <= i && p != j && q != j ==> SortKey(s[p]) <= SortKey(s[q]))
    && (forall q :: j < q <= i ==> SortKey(s[j]) < SortKey(s[q]))
    && s[i + 1..] == s0[i + 1..]
  }

  /** The cells at p and q of s exchanged. */
  function Swapped(s: seq<HashRec>, p: nat, q: nat): (t: seq<HashRec>)
    requires p < |s| && q < |s|
    ensures |t| == |s| && t[p] == s[q] && t[q] == s[p]
    ensures forall m :: 0 <= m < |s| && m != p && m != q ==> t[m] == s[m]
    ensures multiset(t) == multiset(s)
  {
    s[p := s[q]][q := s[p]]
  }

  lemma InsertStart(s: seq<HashRec>, i: nat)
    requires i < |s| && SortedByKey(s[..i])
    ensures Inserting(s, s, i, i)
  {
    forall p, q | 0 <= p < q <= i && p != i && q != i
      ensures SortKey(s[p]) <= SortKey(s[q])
    {
      assert s[p] == s[..i][p] && s[q] == s[..i][q];
    }
  }

  lemma InsertStep(s: seq<HashRec>, s0: seq<HashRec>, i: nat, j: nat)
    requires Inserting(s, s0, i, j) && 0 < j
    requires SortKey(s[j - 1]) > SortKey(s[j])
    ensures Inserting(Swapped(s, j - 1, j), s0, i, j - 1)
  {
    var t := Swapped(s, j - 1, j);
    assert t[i + 1..] == s[i + 1..];
    forall p, q | 0 <= p < q <= i && p != j - 1 && q != j - 1
      ensures SortKey(t[p]) <= SortKey(t[q])
    {
      if p == j {
        assert t[p] == s[j - 1] && t[q] == s[q];
      } else if q == j {
        assert t[q] == s[j - 1] && t[p] == s[p];
      } else {
        assert t[p] == s[p] && t[q] == s[q];
      }
    }
    forall q | j - 1 < q <= i
      ensures SortKey(t[j - 1]) < SortKey(t[q])
    {
      if q != j {
        assert t[q] == s[q];
      }
    }
  }

  lemma InsertDone(s: seq<HashRec>, s0: seq<HashRec>, i: nat, j: nat)
    requires Inserting(s, s0, i, j)
    requires j == 0 || SortKey(s[j - 1]) <= SortKey(s[j])
    ensures SortedByKey(s[..i + 1])
  {
  }

  /** `a[i]` and `a[j]` exchanged. */
  method Swap(a: array<HashRec>, i: nat, j: nat)
    requires i < j < a.Length
    modifies a
    ensures a[..] == Swapped(old(a[..]), i, j)
  {
    var t := a[i];
    a[i] := a[j];
    a[j] := t;
  }
}
