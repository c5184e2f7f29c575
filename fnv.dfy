/**
 * The 64-bit FNV-1a hash of `fnv.h`, behind the `fnvhash` function.
 *
 * Each octet is XORed into the low end of the state and the state is then
 * multiplied by the FNV prime modulo 2^64 (bv64 arithmetic wraps). On x86
 * and x86-64 the header selects the shift-add form of the multiplication,
 * and `char` is signed there, so an octet of 0x80 or more is sign-extended
 * before the XOR; the model takes that platform.
 */
module Fnv {
  /** `FNV_INIT`, the 64-bit offset basis. */
  const FnvInit: bv64 := 0xcbf2_9ce4_8422_2325

  /**
   * `(uint64_t) octet` for a signed `char`: the low 8 bits are the octet and
   * the 56 bits above copy its top bit.
   */
  function OctetWord(c: bv8): (w: bv64)
    ensures w & 0xFF == c as bv64
    ensures w >> 8 == if c < 0x80 then 0 else 0xFF_FFFF_FFFF_FFFF
  {
    if c < 0x80 then c as bv64 else c as bv64 | 0xFFFF_FFFF_FFFF_FF00
  }

  /**
   * `a + b` on `uint64_t`, wrapping modulo 2^64. It is a function of its own
   * so that each partial sum of the shift-add form below stays one term.
   */
  function Add(a: bv64, b: bv64): bv64
  {
    a + b
  }

  /**
   * `x * FNV_PRIME` on `uint64_t`, modulo 2^64. `FNV_PRIME` is the 64-bit FNV
   * prime 0x100000001b3. It is written as a literal so that the
   * verifier multiplies by a constant.
   */
  function MulPrime(x: bv64): bv64
  {
    x * 0x100_0000_01b3
  }

  /** `hval ^= (uint64_t) octet`: the octet, widened, XORed into the state. */
  function XorOctet(hval: bv64, octet: bv8): bv64
  {
    hval ^ OctetWord(octet)
  }

  /** `fnv_pass` with `FNV_AVOID_MUL` off: XOR, then `hval *= FNV_PRIME`. */
  function FnvPassMultiply(hval: bv64, octet: bv8): bv64
  {
    MulPrime(XorOctet(hval, octet))
  }

  /**
   * `hval + ((hval << 1) + (hval << 4) + (hval << 5) + (hval << 7) +
   * (hval << 8) + (hval << 40))`, the right-hand side of the `+=` that
   * replaces the multiplication on x86.
   */
  function ShiftAddSum(x: bv64): bv64
  {
    Add(x, Add(Add(Add(Add(Add(x << 1, x << 4), x << 5), x << 7), x << 8), x << 40))
  }

  /**
   * `fnv_pass` as compiled on x86: XOR, then the shift-add form of the
   * multiplication, which gives the same value.
   */
  function FnvPass(hval: bv64, octet: bv8): (h: bv64)
    ensures h == FnvPassMultiply(hval, octet)
  {
    ShiftAddIsMultiply(XorOctet(hval, octet));
    ShiftAddSum(XorOctet(hval, octet))
  }

  /**
   * The shift-add sum is multiplication by 0x100000001b3 = 2^40 + 2^8 + 2^7
   * + 2^5 + 2^4 + 2^1 + 1 modulo 2^64, taken one shift at a time in the order
   * the sum is written.
   */
  lemma ShiftAddIsMultiply(x: bv64)
    ensures ShiftAddSum(x) == MulPrime(x)
  {
    ShiftAdd1(x);
    ShiftAdd4(x);
    ShiftAdd5(x);
    ShiftAdd7(x);
    ShiftAdd8(x);
    ShiftAdd40(x);
    ShiftAddLast(x);
  }

  lemma ShiftAdd1(x: bv64) ensures x << 1 == x * 2 {}
  lemma ShiftAdd4(x: bv64) ensures Add(x * 2, x << 4) == x * 18 { assert x * 2 + (x << 4) == x * 18; }
  lemma ShiftAdd5(x: bv64) ensures Add(x * 18, x << 5) == x * 50 { assert x * 18 + (x << 5) == x * 50; }
  lemma ShiftAdd7(x: bv64) ensures Add(x * 50, x << 7) == x * 178 { assert x * 50 + (x << 7) == x * 178; }
  lemma ShiftAdd8(x: bv64) ensures Add(x * 178, x << 8) == x * 434 { assert x * 178 + (x << 8) == x * 434; }
  lemma ShiftAdd40(x: bv64)
    ensures Add(x * 434, x << 40) == x * 0x100_0000_01b2
  {
    assert x * 434 + (x << 40) == x * 0x100_0000_01b2;
  }
  lemma ShiftAddLast(x: bv64)
    ensures Add(x, x * 0x100_0000_01b2) == MulPrime(x)
  {
    assert x + x * 0x100_0000_01b2 == x * 0x100_0000_01b3;
  }

  /** The state after `fnv_pass` has taken the octets in order, starting from hval. */
  function FnvFold(hval: bv64, octets: seq<bv8>): bv64
  {
    if octets == [] then hval
    else FnvPass(FnvFold(hval, octets[..|octets| - 1]), octets[|octets| - 1])
  }

  /** The hash of a sequence of octets. */
  function FnvHash(octets: seq<bv8>): bv64
  {
    FnvFold(FnvInit, octets)
  }

  /** Hashing a ++ b continues the fold over b from the hash state of a. */
  lemma {:induction false} FnvFoldAppend(hval: bv64, a: seq<bv8>, b: seq<bv8>)
    ensures FnvFold(hval, a + b) == FnvFold(FnvFold(hval, a), b)
  {
    if b == [] {
      assert a + b == a;
    } else {
      assert (a + b)[..|a + b| - 1] == a + b[..|b| - 1];
      FnvFoldAppend(hval, a, b[..|b| - 1]);
    }
  }

  lemma FnvHashAppend(a: seq<bv8>, b: seq<bv8>)
    ensures FnvHash(a + b) == FnvFold(FnvHash(a), b)
  {
    FnvFoldAppend(FnvInit, a, b);
  }

  /** `fnv_buf(buf, len)`: hashes exactly the first len octets of buf. */
  method FnvBuf(buf: seq<bv8>, len: nat) returns (hval: bv64)
    requires len <= |buf|
    ensures hval == FnvHash(buf[..len])
    ensures len == 0 ==> hval == FnvInit
  {
    var bp := 0;
    var be := len;
    hval := FnvInit;
    while bp < be
      invariant 0 <= bp <= be
      invariant hval == FnvHash(buf[..bp])
    {
      assert buf[..bp + 1][..bp] == buf[..bp];
      hval := FnvPass(hval, buf[bp]);
      bp := bp + 1;
    }
  }

  /** The length of the C string held in str: the position of its first NUL. */
  function CStringLength(str: seq<bv8>): (n: nat)
    requires 0 in str
    ensures n < |str| && str[n] == 0
    ensures forall i :: 0 <= i < n ==> str[i] != 0
  {
    if str[0] == 0 then 0 else 1 + CStringLength(str[1..])
  }

  /**
   * `fnv_str(str)`: hashes the octets before the first NUL, as `fnv_buf`
   * does with that length; the empty string hashes to `FNV_INIT`.
   */
  method FnvStr(str: seq<bv8>) returns (hval: bv64)
    requires 0 in str
    ensures hval == FnvHash(str[..CStringLength(str)])
    ensures str[0] == 0 ==> hval == 0xcbf2_9ce4_8422_2325
  {
    var p := 0;
    hval := FnvInit;
    while str[p] != 0
      invariant 0 <= p <= CStringLength(str)
      invariant hval == FnvHash(str[..p])
      decreases CStringLength(str) - p
    {
      assert str[..p + 1][..p] == str[..p];
      hval := FnvPass(hval, str[p]);
      p := p + 1;
    }
  }

  /** FNV-1a as published: the octet is XORed in as an unsigned value. */
  function TextbookPass(hval: bv64, octet: bv8): bv64
  {
    MulPrime(hval ^ octet as bv64)
  }

  function TextbookHash(octets: seq<bv8>): bv64
  {
    if octets == [] then FnvInit
    else TextbookPass(TextbookHash(octets[..|octets| - 1]), octets[|octets| - 1])
  }

  /** Below 0x80 the sign extension changes nothing: the hash is textbook FNV-1a. */
  lemma {:induction false} FnvHashAscii(octets: seq<bv8>)
    requires forall i :: 0 <= i < |octets| ==> octets[i] < 0x80
    ensures FnvHash(octets) == TextbookHash(octets)
  {
    if octets != [] {
      FnvHashAscii(octets[..|octets| - 1]);
      AsciiPass(FnvHash(octets[..|octets| - 1]), octets[|octets| - 1]);
    }
  }

  lemma AsciiPass(hval: bv64, octet: bv8)
    requires octet < 0x80
    ensures FnvPass(hval, octet) == TextbookPass(hval, octet)
  {
    AsciiXor(hval, octet);
  }

  lemma AsciiXor(hval: bv64, octet: bv8)
    requires octet < 0x80
    ensures XorOctet(hval, octet) == hval ^ octet as bv64
  {
  }

  /** The single octet 0x80 already hashes differently from textbook FNV-1a. */
  lemma FnvHashHighOctet()
    ensures FnvHash([0x80]) != TextbookHash([0x80])
  {
    assert FnvHash([0x80]) == FnvPass(FnvInit, 0x80);
    assert TextbookHash([0x80]) == TextbookPass(FnvInit, 0x80);
  }
}
