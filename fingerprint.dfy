/**
 * The unweighted simhash fingerprint (`fingerprint` in `_simhash.c`).
 *
 * Every token hash votes on each of the 64 bit positions: +1 where its bit is
 * set, -1 where it is clear. The output loop then sets bit 0 of `result` to
 * the outcome of position i and shifts left, for i = 0 .. 63; so the outcome of
 * position 64 - k lands in bit k, the outcome of position 0 is shifted out, and
 * bit 0 of the fingerprint is always clear.
 */
module Fingerprint {
  import opened Words

  /** The vote of token t on bit position k. */
  function Vote(t: Word, k: nat): int
    requires k < WordSize
  {
    if t[k] then 1 else -1
  }

  /** `sums[k]` once the given tokens have been added, in order. */
  function Tally(tokens: seq<Word>, k: nat): int
    requires k < WordSize
  {
    if tokens == [] then 0
    else Tally(tokens[..|tokens| - 1], k) + Vote(tokens[|tokens| - 1], k)
  }

  /** The number of tokens with bit k set. */
  function SetCount(tokens: seq<Word>, k: nat): nat
    requires k < WordSize
  {
    if tokens == [] then 0
    else SetCount(tokens[..|tokens| - 1], k) + (if tokens[|tokens| - 1][k] then 1 else 0)
  }

  /** The fingerprint as a function of the tokens. */
  function FingerprintOf(tokens: seq<Word>): Word
  {
    seq(WordSize, k requires 0 <= k < WordSize => 1 <= k && Tally(tokens, WordSize - k) >= 0)
  }

  /** One pass of the token loop: the votes of `hashval` are added to `sums`. */
  method AddVotes(sums: array<int>, token: Word)
    requires sums.Length == WordSize
    modifies sums
    ensures forall k :: 0 <= k < WordSize ==> sums[k] == old(sums[k]) + Vote(token, k)
  {
    var hashval := token;
    var index := 0;
    while index < WordSize
      invariant 0 <= index <= WordSize
      invariant hashval[..WordSize - index] == token[index..]
      invariant forall k :: 0 <= k < index ==> sums[k] == old(sums[k]) + Vote(token, k)
      invariant forall k :: index <= k < WordSize ==> sums[k] == old(sums[k])
    {
      LowBitTest(hashval);
      assert hashval[0] == token[index];
      if And(hashval, One) != Zero {
        sums[index] := sums[index] + 1;
      } else {
        sums[index] := sums[index] - 1;
      }
      assert ShiftRightSigned1(hashval)[..WordSize - (index + 1)] == token[index + 1..];
      hashval := ShiftRightSigned1(hashval);
      index := index + 1;
    }
  }

  /** `fingerprint(seq)`: the tally loop and the output shift loop. */
  method ComputeFingerprint(tokens: seq<Word>) returns (result: Word)
    ensures result == FingerprintOf(tokens)
  {
    var sums := new int[WordSize](_ => 0);
    var i := 0;
    while i < |tokens|
      invariant 0 <= i <= |tokens|
      invariant forall k :: 0 <= k < WordSize ==> sums[k] == Tally(tokens[..i], k)
    {
      assert tokens[..i + 1][..i] == tokens[..i];
      AddVotes(sums, tokens[i]);
      i := i + 1;
    }
    assert tokens[..|tokens|] == tokens;

    result := Zero;
    i := 0;
    while i < WordSize
      invariant 0 <= i <= WordSize
      invariant !result[0]
      invariant forall k :: 1 <= k <= i && k < WordSize ==> result[k] == (sums[i - k] >= 0)
      invariant forall k :: i < k < WordSize ==> !result[k]
    {
      var nextval := sums[i];
      if nextval >= 0 {
        result := Or(result, One);
      }
      result := ShiftLeft(result, 1);
      i := i + 1;
    }
  }

  /** A position's tally is the set votes minus the clear votes. */
  lemma {:induction false} TallyCounts(tokens: seq<Word>, k: nat)
    requires k < WordSize
    ensures Tally(tokens, k) == SetCount(tokens, k) - (|tokens| - SetCount(tokens, k))
    ensures SetCount(tokens, k) <= |tokens|
  {
    if tokens != [] {
      TallyCounts(tokens[..|tokens| - 1], k);
    }
  }

  lemma {:induction false} TallyAppend(s: seq<Word>, t: seq<Word>, k: nat)
    requires k < WordSize
    ensures Tally(s + t, k) == Tally(s, k) + Tally(t, k)
  {
    if t == [] {
      assert s + t == s;
    } else {
      assert (s + t)[..|s + t| - 1] == s + t[..|t| - 1];
      TallyAppend(s, t[..|t| - 1], k);
    }
  }

  /** Taking one token out removes exactly its vote. */
  lemma TallyRemove(t: seq<Word>, j: nat, k: nat)
    requires j < |t| && k < WordSize
    ensures Tally(t, k) == Tally(t[..j] + t[j + 1..], k) + Vote(t[j], k)
  {
    assert t == t[..j] + [t[j]] + t[j + 1..];
    TallyAppend(t[..j], [t[j]], k);
    TallyAppend(t[..j] + [t[j]], t[j + 1..], k);
    TallyAppend(t[..j], t[j + 1..], k);
    assert Tally([t[j]], k) == Vote(t[j], k);
  }

  /** The tally does not depend on the order of the tokens. */
  lemma {:induction false} TallyPermutation(s: seq<Word>, t: seq<Word>, k: nat)
    requires k < WordSize
    requires multiset(s) == multiset(t)
    ensures Tally(s, k) == Tally(t, k)
  {
    if s != [] {
      var x := s[|s| - 1];
      var s' := s[..|s| - 1];
      assert s == s' + [x];
      assert x in multiset(t);
      var j :| 0 <= j < |t| && t[j] == x;
      var t' := t[..j] + t[j + 1..];
      assert t == t[..j] + [x] + t[j + 1..];
      assert multiset(s') == multiset(s) - multiset{x};
      assert multiset(t') == multiset(t) - multiset{x};
      TallyPermutation(s', t', k);
      TallyRemove(t, j, k);
    } else {
      assert t == [];
    }
  }

  /** Reordering the tokens does not change the fingerprint. */
  lemma FingerprintPermutation(s: seq<Word>, t: seq<Word>)
    requires multiset(s) == multiset(t)
    ensures FingerprintOf(s) == FingerprintOf(t)
  {
    forall j | 1 <= j < WordSize
      ensures Tally(s, j) == Tally(t, j)
    {
      TallyPermutation(s, t, j);
    }
  }

  /**
   * Bit k (1 <= k <= 63) of the fingerprint is set exactly when at least half
   * of the tokens have bit 64 - k set; bit 0 is never set.
   */
  lemma FingerprintMajority(tokens: seq<Word>, k: nat)
    requires k < WordSize
    ensures FingerprintOf(tokens)[k] <==> 1 <= k && 2 * SetCount(tokens, WordSize - k) >= |tokens|
  {
    if 1 <= k {
      TallyCounts(tokens, WordSize - k);
    }
  }

  lemma {:induction false} TallyDependsOnBit(s: seq<Word>, t: seq<Word>, k: nat)
    requires k < WordSize
    requires |s| == |t|
    requires forall i :: 0 <= i < |s| ==> s[i][k] == t[i][k]
    ensures Tally(s, k) == Tally(t, k)
  {
    if s != [] {
      TallyDependsOnBit(s[..|s| - 1], t[..|t| - 1], k);
    }
  }

  /**
   * `sums[0]` has no influence: tokens that differ only in their bit 0 give
   * the same fingerprint.
   */
  lemma FingerprintIgnoresBit0(s: seq<Word>, t: seq<Word>)
    requires |s| == |t|
    requires forall i, k :: 0 <= i < |s| && 1 <= k < WordSize ==> s[i][k] == t[i][k]
    ensures FingerprintOf(s) == FingerprintOf(t)
  {
    forall j | 1 <= j < WordSize
      ensures Tally(s, j) == Tally(t, j)
    {
      TallyDependsOnBit(s, t, j);
    }
  }

  /** An empty sequence has the fingerprint 0xFFFFFFFFFFFFFFFE. */
  lemma FingerprintEmpty()
    ensures FingerprintOf([]) == [false] + Ones(WordSize - 1)
    ensures Value(FingerprintOf([])) == 0xFFFF_FFFF_FFFF_FFFE
  {
    var f := FingerprintOf([]);
    var e := [false] + Ones(WordSize - 1);
    forall k | 0 <= k < WordSize
      ensures f[k] == e[k]
    {
      if k >= 1 {
        assert Tally([], WordSize - k) == 0;
      }
    }
    assert f == e;
    ValueShiftIn(Ones(WordSize - 1));
    ValueOnes(WordSize - 1);
    Pow2Word();
  }
}
