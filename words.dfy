/**
 * 64-bit machine words, as the C extension uses them (`PY_LONG_LONG`,
 * `unsigned PY_LONG_LONG`, `HASHBITS == 64`).
 *
 * A word is modelled by its bits, least significant first: `w[k]` is bit k.
 * Every operator the extension applies to hashes (`^`, `&`, `|`, `<<`, `>>`
 * on unsigned and signed operands, `- 1`) is defined on that view, and the
 * numeric reading of a bit string (`Value`, `Signed`) ties the definitions to
 * two's-complement arithmetic. The complement `~` is not used by the extension;
 * it is here to state the distance between a hash and its complement.
 */
module Words {

  const WordSize: nat := 64

  /** Bit strings; the operators below work on any width. */
  type Bits = seq<bool>

  /** A 64-bit word, bit k at index k. */
  type Word = w: Bits | |w| == WordSize witness Zeros(WordSize)

  function Zeros(n: nat): (s: Bits)
    ensures |s| == n
  {
    seq(n, i => false)
  }

  function Ones(n: nat): (s: Bits)
    ensures |s| == n
  {
    seq(n, i => true)
  }

  /** The word 0. */
  const Zero: Word := Zeros(WordSize)

  /** The word 1 (`1LL`). */
  const One: Word := [true] + Zeros(WordSize - 1)

  function Pow2(k: nat): (p: nat)
    ensures p >= 1
  {
    if k == 0 then 1 else 2 * Pow2(k - 1)
  }

  // ---- numeric reading ----

  /** 1 for a set bit, 0 for a clear one. */
  function BitValue(b: bool): nat
  {
    if b then 1 else 0
  }

  /** The unsigned number the bits spell. */
  function Value(s: Bits): nat
  {
    if s == [] then 0 else BitValue(s[0]) + 2 * Value(s[1..])
  }

  /** The two's-complement (signed) reading of a non-empty bit string. */
  function SignedValue(s: Bits): int
    requires |s| > 0
  {
    Value(s) - (if s[|s| - 1] then Pow2(|s|) else 0)
  }

  /** A word read as `PY_LONG_LONG`. */
  function Signed(w: Word): int
  {
    SignedValue(w)
  }

  // ---- operators ----

  /** `a ^ b`. */
  function Xor(a: Bits, b: Bits): (c: Bits)
    requires |a| == |b|
    ensures |c| == |a|
  {
    seq(|a|, i requires 0 <= i < |a| => a[i] != b[i])
  }

  /** `a & b`. */
  function And(a: Bits, b: Bits): (c: Bits)
    requires |a| == |b|
    ensures |c| == |a|
  {
    seq(|a|, i requires 0 <= i < |a| => a[i] && b[i])
  }

  /** `a | b`. */
  function Or(a: Bits, b: Bits): (c: Bits)
    requires |a| == |b|
    ensures |c| == |a|
  {
    seq(|a|, i requires 0 <= i < |a| => a[i] || b[i])
  }

  /** `~a`. */
  function Not(a: Bits): (c: Bits)
    ensures |c| == |a|
  {
    seq(|a|, i requires 0 <= i < |a| => !a[i])
  }

  /** `a << k` for a shift count below the width: the top k bits are lost. */
  function ShiftLeft(a: Bits, k: nat): (c: Bits)
    requires k <= |a|
    ensures |c| == |a|
  {
    Zeros(k) + a[..|a| - k]
  }

  /** `a >> k` on an unsigned operand: zeros come in at the top. */
  function ShiftRight(a: Bits, k: nat): (c: Bits)
    requires k <= |a|
    ensures |c| == |a|
  {
    a[k..] + Zeros(k)
  }

  /** `a >>= 1` on a signed operand (an arithmetic shift): the sign bit is kept. */
  function ShiftRightSigned1(a: Bits): (c: Bits)
    requires |a| > 0
    ensures |c| == |a|
  {
    a[1..] + [a[|a| - 1]]
  }

  /** `a - 1`, wrapping around at zero: the borrow runs through the low zeros. */
  function Decrement(a: Bits): (c: Bits)
    ensures |c| == |a|
  {
    if a == [] then []
    else if a[0] then [false] + a[1..]
    else [true] + Decrement(a[1..])
  }

  /** Number of set bits (`__builtin_popcountll`). */
  function PopCount(s: Bits): nat
  {
    if s == [] then 0 else BitValue(s[0]) + PopCount(s[1..])
  }

  /**
   * The rotation of `similar_indices`:
   * `(h << r) | ((unsigned PY_LONG_LONG)h >> (HASHBITS - r))`.
   * Both shift counts are below 64 only when 1 <= r <= 63.
   */
  function RotateLeft(h: Word, r: nat): Word
    requires 1 <= r < WordSize
  {
    Or(ShiftLeft(h, r), ShiftRight(h, WordSize - r))
  }

  /** The key mask of `similar_indices`: `((1LL << r) - 1) << (HASHBITS - r)`. */
  function KeyMask(r: nat): Word
    requires 1 <= r < WordSize
  {
    ShiftLeft(Decrement(ShiftLeft(One, r)), WordSize - r)
  }

  // ---- lemmas: the operators mean what the C operators mean ----

  /** `Value` is below 2^width. */
  lemma {:induction false} ValueBound(s: Bits)
    ensures Value(s) < Pow2(|s|)
  {
    if s != [] {
      ValueBound(s[1..]);
    }
  }

  /** Subtracting one wraps around modulo 2^width. */
  lemma {:induction false} DecrementValue(s: Bits)
    ensures Value(Decrement(s)) == if Value(s) == 0 then Pow2(|s|) - 1 else Value(s) - 1
  {
    if s != [] {
      DecrementValue(s[1..]);
      if s[0] {
        assert Decrement(s)[1..] == s[1..];
      } else {
        assert Decrement(s)[1..] == Decrement(s[1..]);
      }
    }
  }

  /** Shifting left by one doubles the value modulo 2^width. */
  lemma {:induction false} ShiftLeftValue(a: Bits)
    requires |a| > 0
    ensures Value(ShiftLeft(a, 1)) == 2 * Value(a) - (if a[|a| - 1] then Pow2(|a|) else 0)
  {
    var n := |a|;
    var lo := a[..n - 1];
    var top := a[n - 1];
    ValueAppend(lo, [top]);
    assert a == lo + [top];
    assert Value([top]) == BitValue(top);
    var q := Pow2(n - 1);
    assert q * BitValue(top) == if top then q else 0;
    assert Value(a) == Value(lo) + (if top then q else 0);
    assert Pow2(n) == 2 * q;
    var c := ShiftLeft(a, 1);
    assert c == [false] + lo;
    ValueShiftIn(lo);
    DoubleWrap(Value(c), Value(lo), Value(a), q, Pow2(n), top);
  }

  lemma {:induction false} DoubleWrap(vc: int, vlo: int, va: int, q: int, p: int, top: bool)
    requires vc == 2 * vlo && va == vlo + (if top then q else 0) && p == 2 * q
    ensures vc == 2 * va - (if top then p else 0)
  {
  }

  lemma {:induction false} ValueShiftIn(s: Bits)
    ensures Value([false] + s) == 2 * Value(s)
  {
    assert ([false] + s)[1..] == s;
  }

  /** The value of a concatenation: the second part sits above the first. */
  lemma {:induction false} ValueAppend(s: Bits, t: Bits)
    ensures Value(s + t) == Value(s) + Pow2(|s|) * Value(t)
  {
    if s == [] {
      assert s + t == t;
    } else {
      var s' := s[1..];
      var p, v := Pow2(|s'|), Value(t);
      assert (s + t)[1..] == s' + t;
      assert (s + t)[0] == s[0];
      ValueAppend(s', t);
      var a := Value(s' + t);
      assert a == Value(s') + p * v;
      assert Value(s + t) == BitValue(s[0]) + 2 * a;
      assert Value(s) == BitValue(s[0]) + 2 * Value(s');
      assert Pow2(|s|) == 2 * p;
      MulTwice(p, v);
    }
  }

  lemma {:induction false} ValueZeros(n: nat)
    ensures Value(Zeros(n)) == 0
  {
    if n > 0 {
      assert Zeros(n)[1..] == Zeros(n - 1);
      ValueZeros(n - 1);
    }
  }

  /** The word with bit m alone set has value 2^m and one set bit. */
  lemma {:induction false} SingleBit(m: nat, n: nat)
    ensures Value(Zeros(m) + [true] + Zeros(n)) == Pow2(m)
    ensures PopCount(Zeros(m) + [true] + Zeros(n)) == 1
  {
    var t := [true] + Zeros(n);
    assert Zeros(m) + [true] + Zeros(n) == Zeros(m) + t;
    assert t[1..] == Zeros(n);
    ValueZeros(m);
    ValueZeros(n);
    ValueAppend(Zeros(m), t);
    PopCountAppend(Zeros(m), t);
    PopCountZero(Zeros(m));
    PopCountZero(Zeros(n));
  }

  /** Bit k is the only set bit of w; with k outside 0..63, w is 0. */
  predicate OnlyBit(w: Word, k: int)
  {
    forall i :: 0 <= i < WordSize ==> (w[i] <==> i == k)
  }

  lemma OnlyBitZero(w: Word)
    requires OnlyBit(w, -1)
    ensures w == Zeros(WordSize)
    ensures Value(w) == 0 && Signed(w) == 0
  {
    ValueZeros(WordSize);
  }

  /** The word with bit k alone set is 2^k unsigned and has one set bit. */
  lemma OnlyBitValue(w: Word, k: nat)
    requires k < WordSize && OnlyBit(w, k)
    ensures Value(w) == Pow2(k) && PopCount(w) == 1
  {
    assert w == Zeros(k) + [true] + Zeros(WordSize - 1 - k);
    SingleBit(k, WordSize - 1 - k);
  }

  lemma {:induction false} MulTwice(p: nat, v: nat)
    ensures 2 * (p * v) == (2 * p) * v
  {
  }

  /** Different bit strings of one width have different values. */
  lemma {:induction false} ValueInjective(s: Bits, t: Bits)
    requires |s| == |t|
    requires Value(s) == Value(t)
    ensures s == t
  {
    if s != [] {
      assert s[0] == t[0];
      ValueInjective(s[1..], t[1..]);
      assert s == [s[0]] + s[1..];
      assert t == [t[0]] + t[1..];
    }
  }

  /** The signed reading is negative exactly when the top bit is set. */
  lemma {:induction false} SignedSign(s: Bits)
    requires |s| > 0
    ensures SignedValue(s) < 0 <==> s[|s| - 1]
    ensures -(Pow2(|s| - 1) as int) <= SignedValue(s) < Pow2(|s| - 1)
  {
    var n := |s|;
    ValueAppend(s[..n - 1], [s[n - 1]]);
    assert s == s[..n - 1] + [s[n - 1]];
    ValueBound(s[..n - 1]);
    assert Value([s[n - 1]]) == BitValue(s[n - 1]);
  }

  lemma {:induction false} SignedInjective(s: Bits, t: Bits)
    requires |s| == |t| > 0
    requires SignedValue(s) == SignedValue(t)
    ensures s == t
  {
    SignedSign(s);
    SignedSign(t);
    ValueInjective(s, t);
  }

  /** Clearing the lowest set bit (`v &= v - 1`) removes exactly one set bit. */
  lemma {:induction false} PopCountClearLowest(s: Bits)
    requires PopCount(s) > 0
    ensures PopCount(And(s, Decrement(s))) == PopCount(s) - 1
  {
    var c := And(s, Decrement(s));
    if s[0] {
      assert c[1..] == s[1..];
    } else {
      assert c[1..] == And(s[1..], Decrement(s[1..]));
      PopCountClearLowest(s[1..]);
    }
  }

  lemma {:induction false} PopCountAppend(s: Bits, t: Bits)
    ensures PopCount(s + t) == PopCount(s) + PopCount(t)
  {
    if s == [] {
      assert s + t == t;
    } else {
      assert (s + t)[1..] == s[1..] + t;
      PopCountAppend(s[1..], t);
    }
  }

  lemma {:induction false} PopCountBound(s: Bits)
    ensures PopCount(s) <= |s|
  {
    if s != [] {
      PopCountBound(s[1..]);
    }
  }

  /** No set bit is counted exactly when there is no set bit. */
  lemma {:induction false} PopCountZero(s: Bits)
    ensures PopCount(s) == 0 <==> s == Zeros(|s|)
  {
    if s != [] {
      PopCountZero(s[1..]);
      assert Zeros(|s|) == [false] + Zeros(|s| - 1);
      if s[0] {
        assert s[0] != Zeros(|s|)[0];
      } else {
        assert s == [false] + s[1..];
      }
    }
  }

  lemma {:induction false} PopCountOnes(n: nat)
    ensures PopCount(Ones(n)) == n
  {
    if n > 0 {
      assert Ones(n)[1..] == Ones(n - 1);
      PopCountOnes(n - 1);
    }
  }

  /** `(h << r) | (h >> (64 - r))` moves the top r bits to the bottom. */
  lemma {:induction false} RotateLeftSplit(h: Word, r: nat)
    requires 1 <= r < WordSize
    ensures RotateLeft(h, r) == h[WordSize - r..] + h[..WordSize - r]
  {
  }

  /** The key mask selects exactly the top r bits. */
  lemma {:induction false} KeyMaskBits(r: nat)
    requires 1 <= r < WordSize
    ensures KeyMask(r) == Zeros(WordSize - r) + Ones(r)
  {
    DecrementZerosOne(r, WordSize - 1 - r);
    assert ShiftLeft(One, r) == Zeros(r) + [true] + Zeros(WordSize - 1 - r);
  }

  lemma {:induction false} DecrementZerosOne(r: nat, m: nat)
    ensures Decrement(Zeros(r) + [true] + Zeros(m)) == Ones(r) + [false] + Zeros(m)
  {
    var s := Zeros(r) + [true] + Zeros(m);
    if r > 0 {
      assert s[1..] == Zeros(r - 1) + [true] + Zeros(m);
      DecrementZerosOne(r - 1, m);
    }
  }

  /** Two words agree under the key mask exactly when their top r bits agree. */
  lemma {:induction false} MaskedEqual(x: Word, y: Word, r: nat)
    requires 1 <= r < WordSize
    ensures And(x, KeyMask(r)) == And(y, KeyMask(r)) <==> x[WordSize - r..] == y[WordSize - r..]
  {
    KeyMaskBits(r);
    var m := WordSize - r;
    assert And(x, KeyMask(r)) == Zeros(m) + x[m..];
    assert And(y, KeyMask(r)) == Zeros(m) + y[m..];
    if x[m..] != y[m..] {
      var i :| 0 <= i < r && x[m..][i] != y[m..][i];
      assert And(x, KeyMask(r))[m + i] != And(y, KeyMask(r))[m + i];
    }
  }

  /** `h & 1` is non-zero exactly when bit 0 of h is set. */
  lemma {:induction false} LowBitTest(h: Word)
    ensures And(h, One) != Zero <==> h[0]
  {
    if h[0] {
      assert And(h, One)[0];
    } else {
      assert And(h, One) == Zero;
    }
  }

  /** `1LL << i` has bit i set and no other. */
  lemma {:induction false} ShiftLeftOne(i: nat)
    requires i < WordSize
    ensures ShiftLeft(One, i) == Zeros(i) + [true] + Zeros(WordSize - 1 - i)
  {
  }

  lemma {:induction false} ValueOnes(n: nat)
    ensures Value(Ones(n)) == Pow2(n) - 1
  {
    if n > 0 {
      assert Ones(n)[1..] == Ones(n - 1);
      ValueOnes(n - 1);
    }
  }

  lemma {:induction false} Pow2Add(a: nat, b: nat)
    ensures Pow2(a + b) == Pow2(a) * Pow2(b)
  {
    if a > 0 {
      Pow2Add(a - 1, b);
      assert Pow2(a + b) == 2 * Pow2(a - 1 + b);
      assert 2 * (Pow2(a - 1) * Pow2(b)) == (2 * Pow2(a - 1)) * Pow2(b);
    }
  }

  /** 2^63 and 2^64 written out. */
  lemma {:induction false} Pow2Word()
    ensures Pow2(WordSize - 1) == 0x8000_0000_0000_0000
    ensures Pow2(WordSize) == 0x1_0000_0000_0000_0000
  {
    assert Pow2(8) == 256;
    assert Pow2(7) == 128;
    Pow2Add(8, 8);
    Pow2Add(16, 16);
    Pow2Add(32, 32);
    Pow2Add(32, 31);
    Pow2Add(16, 15);
    Pow2Add(8, 7);
  }

  /** The `width` low bits of n. */
  function FromValue(n: nat, width: nat): (s: Bits)
    ensures |s| == width
  {
    if width == 0 then [] else [n % 2 == 1] + FromValue(n / 2, width - 1)
  }

  /** The word whose `PY_LONG_LONG` reading is x (two's complement). */
  function FromSigned(x: int): Word
    requires -0x8000_0000_0000_0000 <= x < 0x8000_0000_0000_0000
  {
    FromValue(if x < 0 then x + 0x1_0000_0000_0000_0000 else x, WordSize)
  }

  lemma {:induction false} FromValueValue(n: nat, width: nat)
    requires n < Pow2(width)
    ensures Value(FromValue(n, width)) == n
  {
    if width > 0 {
      FromValueValue(n / 2, width - 1);
      assert FromValue(n, width)[1..] == FromValue(n / 2, width - 1);
    }
  }

  /** Reading back the word built from a signed value gives that value. */
  lemma {:induction false} SignedFromSigned(x: int)
    requires -0x8000_0000_0000_0000 <= x < 0x8000_0000_0000_0000
    ensures Signed(FromSigned(x)) == x
  {
    var n := if x < 0 then x + 0x1_0000_0000_0000_0000 else x;
    Pow2Word();
    var w := FromSigned(x);
    FromValueValue(n, WordSize);
    assert Value(w) == n;
    SignedSign(w);
  }

  /**
   * A word read as `PY_LONG_LONG` is its low m bits plus 2^m times the signed
   * reading of its top 64 - m bits.
   */
  lemma {:induction false} SignedSplit(w: Word, m: nat)
    requires m < WordSize
    ensures Signed(w) == Value(w[..m]) + Pow2(m) * SignedValue(w[m..])
  {
    var lo, hi := w[..m], w[m..];
    var top := w[WordSize - 1];
    assert hi[|hi| - 1] == top;
    assert Signed(w) == Value(w) - (if top then Pow2(WordSize) else 0);
    assert SignedValue(hi) == Value(hi) - (if top then Pow2(WordSize - m) else 0);
    assert w == lo + hi;
    ValueAppend(lo, hi);
    Pow2Add(m, WordSize - m);
    SplitArith(Signed(w), Value(w), Value(lo), Value(hi), Pow2(m), Pow2(WordSize - m), top);
  }

  lemma {:induction false} SplitArith(sw: int, vw: int, vlo: int, vhi: int, p: int, q: int, top: bool)
    requires vw == vlo + p * vhi
    requires sw == vw - (if top then p * q else 0)
    ensures sw == vlo + p * (vhi - (if top then q else 0))
  {
    if top {
      assert p * (vhi - q) == p * vhi - p * q;
    }
  }
}
