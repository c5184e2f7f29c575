/**
 * Hamming distance between two 64-bit hashes: the `hamdist` macro of
 * `_simhash.c` (`__builtin_popcountll(x ^ y)`) and the portable loop kept
 * beside it, which clears the lowest set bit of `x ^ y` until none is left.
 */
module Hamming {
  import opened Words

  /** `hamdist(x, y)`: the number of set bits of `x ^ y`. */
  function HamDist(x: Word, y: Word): (d: nat)
    ensures d <= WordSize
  {
    PopCountBound(Xor(x, y));
    PopCount(Xor(x, y))
  }

  /** The portable version: `for (val = x ^ y; val; val &= val - 1) ++dist;`. */
  method HamDistLoop(x: Word, y: Word) returns (dist: nat)
    ensures dist == HamDist(x, y)
  {
    var val: Word := Xor(x, y);
    dist := 0;
    while val != Zero
      invariant dist + PopCount(val) == HamDist(x, y)
      decreases PopCount(val)
    {
      PopCountZero(val);
      PopCountClearLowest(val);
      dist := dist + 1;
      val := And(val, Decrement(val));
    }
    PopCountZero(val);
  }

  lemma HamDistSymmetric(x: Word, y: Word)
    ensures HamDist(x, y) == HamDist(y, x)
  {
    assert Xor(x, y) == Xor(y, x);
  }

  /** Two hashes are at distance 0 exactly when they are equal. */
  lemma HamDistZero(x: Word, y: Word)
    ensures HamDist(x, y) == 0 <==> x == y
  {
    PopCountZero(Xor(x, y));
    if x != y {
      var i :| 0 <= i < WordSize && x[i] != y[i];
      assert Xor(x, y)[i];
    } else {
      assert Xor(x, y) == Zeros(WordSize);
    }
  }

  /** A hash and its complement `~x` differ in all 64 bits. */
  lemma HamDistComplement(x: Word)
    ensures HamDist(x, Not(x)) == WordSize
  {
    assert Xor(x, Not(x)) == Ones(WordSize);
    PopCountOnes(WordSize);
  }

  /** Rotating both hashes by the same amount keeps their distance. */
  lemma HamDistRotate(x: Word, y: Word, r: nat)
    requires 1 <= r < WordSize
    ensures HamDist(RotateLeft(x, r), RotateLeft(y, r)) == HamDist(x, y)
  {
    var m := WordSize - r;
    var d := Xor(x, y);
    RotateLeftSplit(x, r);
    RotateLeftSplit(y, r);
    assert Xor(RotateLeft(x, r), RotateLeft(y, r)) == d[m..] + d[..m];
    PopCountAppend(d[m..], d[..m]);
    PopCountAppend(d[..m], d[m..]);
    assert d == d[..m] + d[m..];
  }
}
