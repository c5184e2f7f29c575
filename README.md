# python-simhash in Dafny

This project models the core of python-simhash, a small C extension with a
Python wrapper. The extension computes simhash fingerprints of token hashes
and measures the Hamming distance between 64-bit hashes. It also finds the
pairs of hashes in a sequence that lie within a given distance, and it
implements 64-bit FNV-1a hashing of strings.

A 64-bit `PY_LONG_LONG` is a `Word`: a sequence of 64 booleans, least
significant bit first. Every C operator the core uses is defined on that
view: `^`, `&`, `|`, `<<`, the unsigned and arithmetic `>>`, `- 1`, the
rotation and the key mask. The complement `~` is defined too, although the C
never applies it: it only states the distance between a hash and its
complement. `Value` and `Signed` give the unsigned and two's-complement
readings, and lemmas tie the operators to arithmetic. FNV-1a works on
`uint64_t` and is modelled on `bv64`. Its result goes straight back to Python,
so no lemma relates the two encodings.

Modules:

- `Words`: the word view, its operators, population count and rotation.
- `Hamming`: the `hamdist` macro and its clear-lowest-bit loop.
- `Fingerprint`: `fingerprint`, a method over the `sums` tally array,
  specified by `FingerprintOf`.
- `WeightedFingerprint`: `weighted_fingerprint` over exact real weights. It
  includes the `TypeError` raised for an item that is not a (hash, weight)
  pair.
- `HashRecords`: `struct hashrec`, `cmp_hashrec` as written
  (`CmpHashRecAsWritten`, the truncated 64-bit difference), the corrected
  comparator `CmpHashRec`, and the in-place sort of the record array.
- `Similar`: `similar_indices`. It copies the records with rotation, sorts
  them, and runs the windowed scan over runs of equal key. Its result is
  proved to be exactly the set of similar pairs, lower index first, with no
  pair twice.
- `Fnv`: `fnv_pass` in both branches, and `fnv_buf` and `fnv_str` as loops.
  Both loops are specified by the fold `FnvHash`.
- `Simpair`: the Python `simpair_indices`, with its assertions modelled as
  error results.
- `Outcomes`: the `Result` type.

## Model

| member | source | states |
|---|---|---|
| Words.DecrementValue | simhash/_simhash.c:23 | `val - 1` on the bit view is subtraction of one modulo 2^64: 0 wraps to 2^64-1 |
| Words.PopCountClearLowest | simhash/_simhash.c:23 | `val &= val - 1` on a nonzero word clears exactly one set bit |
| Words.PopCountZero | simhash/_simhash.c:23 | the loop test `val` fails exactly when no bit is set |
| Words.PopCountBound | simhash/_simhash.c:16 | a population count never exceeds the width |
| Words.ShiftLeftValue | simhash/_simhash.c:76 | `<<= 1` doubles the value and drops the top bit (modulo 2^64) |
| Words.LowBitTest | simhash/_simhash.c:63 | `hashval & 1` is nonzero exactly when bit 0 is set |
| Words.ShiftLeftOne | simhash/_simhash.c:120 | `1 << i` is the word with bit i set and no other |
| Words.RotateLeftSplit | simhash/_simhash.c:158-159 | `(h << r) \| (h >> (64 - r))` with a logical right shift moves the top r bits to the bottom, in order |
| Words.KeyMaskBits | simhash/_simhash.c:167 | `((1 << r) - 1) << (64 - r)` sets exactly the top r bits |
| Words.DecrementZerosOne | simhash/_simhash.c:167 | subtracting one from a power of two gives all lower bits set |
| Words.MaskedEqual | simhash/_simhash.c:172-175 | two words agree under the mask exactly when their top r bits are equal |
| Words.ValueInjective | simhash/_simhash.c:126 | different words have different unsigned readings |
| Words.SignedSign | simhash/_simhash.c:126 | a `PY_LONG_LONG` is negative exactly when its top bit is set, and lies in [-2^63, 2^63) |
| Words.SignedInjective | simhash/_simhash.c:126 | different words have different signed readings, so equal sort keys mean equal hashes |
| Hamming.HamDist | simhash/_simhash.c:16 | `__builtin_popcountll(x ^ y)` lies between 0 and 64 |
| Hamming.HamDistLoop | simhash/_simhash.c:19-26 | the loop that clears the lowest set bit terminates and returns the popcount of `x ^ y`, which is the macro's value |
| Hamming.HamDistSymmetric | simhash/_simhash.c:16 | the distance is symmetric |
| Hamming.HamDistZero | simhash/_simhash.c:16 | the distance is 0 exactly when the two hashes are equal |
| Hamming.HamDistComplement | simhash/_simhash.c:16 | a hash and its complement are at distance 64 |
| Hamming.HamDistRotate | simhash/_simhash.c:158-159 | rotating both hashes by the same amount keeps their distance |
| Fingerprint.AddVotes | simhash/_simhash.c:62-68 | the inner loop adds +1 to `sums[k]` when bit k of the token is set and -1 when it is clear, for every k, using an arithmetic shift |
| Fingerprint.ComputeFingerprint | simhash/_simhash.c:38-79 | the token loop and the output loop compute `FingerprintOf(tokens)` |
| Fingerprint.TallyCounts | simhash/_simhash.c:51-69 | `sums[k]` is the number of tokens with bit k set minus the number with bit k clear |
| Fingerprint.TallyAppend | simhash/_simhash.c:51-69 | the tallies of a concatenation add up |
| Fingerprint.TallyRemove | simhash/_simhash.c:51-69 | removing one token subtracts its vote from the tally |
| Fingerprint.TallyPermutation | simhash/_simhash.c:51-69 | the tallies do not depend on the order of the tokens |
| Fingerprint.FingerprintPermutation | simhash/_simhash.c:38-79 | the fingerprint does not depend on the order of the tokens |
| Fingerprint.FingerprintMajority | simhash/_simhash.c:71-77 | bit 0 of the result is 0; bit k (1..63) is 1 exactly when at least half the tokens have bit 64-k set, that is when `sums[64-k] >= 0` |
| Fingerprint.TallyDependsOnBit | simhash/_simhash.c:51-69 | for every bit k of the 64, the tally of bit k depends only on bit k of the tokens |
| Fingerprint.FingerprintIgnoresBit0 | simhash/_simhash.c:71-77 | `sums[0]` is shifted out: tokens that differ only in bit 0 give the same fingerprint |
| Fingerprint.FingerprintEmpty | simhash/_simhash.c:71-77 | an empty sequence gives 0xFFFFFFFFFFFFFFFE |
| WeightedFingerprint.AddWeightedVotes | simhash/_simhash.c:108-114 | the inner loop adds the weight to `sums[k]` when bit k is set and subtracts it when bit k is clear |
| WeightedFingerprint.ComputeWeightedFingerprint | simhash/_simhash.c:81-123 | fails with `TypeError("invalid item, expecting tuple of long long and float")` exactly when some item is not a pair; otherwise returns the word whose bit i is `sums[i] > ALMOST_0` |
| WeightedFingerprint.WeightedTallyAppend | simhash/_simhash.c:94-115 | the weighted tallies of a concatenation add up |
| WeightedFingerprint.WeightedTallyRemove | simhash/_simhash.c:94-115 | removing one item subtracts its signed weight |
| WeightedFingerprint.WeightedTallyPermutation | simhash/_simhash.c:94-115 | the weighted tallies do not depend on the order of the items |
| WeightedFingerprint.WeightedFingerprintPermutation | simhash/_simhash.c:81-123 | the weighted fingerprint does not depend on the order of the items |
| WeightedFingerprint.WeightedTallyZero | simhash/_simhash.c:108-114 | zero weights leave every sum at 0 |
| WeightedFingerprint.WeightedFingerprintZeroWeights | simhash/_simhash.c:13 | with all weights 0, every bit passes the `> ALMOST_0` threshold: the result is all ones, -1 as `PY_LONG_LONG` |
| WeightedFingerprint.WeightedFingerprintEmpty | simhash/_simhash.c:117-121 | an empty sequence gives all ones (-1) |
| WeightedFingerprint.UnitTally | simhash/_simhash.c:108-114 | with unit weights the weighted sums equal the unweighted tallies |
| WeightedFingerprint.UnitWeightsAgree | simhash/_simhash.c:71-77 | with unit weights, bit 64-k of the weighted result equals bit k of the unweighted one (1 <= k <= 63): the output loops put the bits in opposite orders |
| HashRecords.ToInt64 | simhash/_simhash.c:131-132 | `PY_LONG_LONG` subtraction wraps into [-2^63, 2^63) and agrees with the exact difference modulo 2^64 |
| HashRecords.ToInt32 | simhash/_simhash.c:130-132 | the conversion to the `int` return type keeps the low 32 bits: the result is in [-2^31, 2^31) and agrees modulo 2^32 |
| HashRecords.CmpHashRec | simhash/_simhash.c:130-133 | corrected comparator: negative, zero or positive exactly when the first signed hash is below, equal to or above the second |
| HashRecords.CmpHashRecEqual | simhash/_simhash.c:130-133 | the corrected comparator returns 0 only for equal hashes |
| HashRecords.KeyRealizable | simhash/_simhash.c:125-128 | every signed 64-bit value is the hash of some record |
| HashRecords.CmpAsWrittenMissesDifference | simhash/_simhash.c:130-133 | as written, hashes 2^32 and 0 compare equal although they differ |
| HashRecords.CmpAsWrittenNotTransitive | simhash/_simhash.c:130-133 | as written, hashes 0, 0x60000000 and 0xC0000000 compare in a cycle |
| HashRecords.SortHashRecs | simhash/_simhash.c:164 | the sort leaves the records sorted by signed hash and a permutation of the input |
| HashRecords.InsertLast | simhash/_simhash.c:164 | one insertion step extends the sorted prefix by one, permutes the array and leaves the records after position i unchanged |
| HashRecords.InsertStep | simhash/_simhash.c:164 | swapping the inserted record with a larger left neighbour keeps the multiset, the order of the other records of the prefix and the records after it |
| HashRecords.InsertDone | simhash/_simhash.c:164 | once the left neighbour is not larger, the prefix up to i is sorted |
| HashRecords.Swapped | simhash/_simhash.c:164 | the exchange of two cells: the two cells trade places, every other cell is kept and so is the multiset |
| HashRecords.Swap | simhash/_simhash.c:164 | exchanging two records in the array is `Swapped` on its contents |
| HashRecords.CmpAsWrittenTies | simhash/_simhash.c:130-133 | as written, hashes 0, -2^63 and 2^32 compare equal in every order, both ways round |
| Similar.SimilarPairOriginalDistance | simhash/_simhash.c:177 | a pair is similar exactly when the rotated hashes share the key and the original hashes are within the distance |
| Similar.CopyRecords | simhash/_simhash.c:147-161 | `simvals[i]` is the i-th hash rotated left by `rotate_bits`, with offset i |
| Similar.PermutedRecords | simhash/_simhash.c:148-164 | after sorting, each record holds the rotation of the input its offset names, and the offsets are a permutation of 0..n-1 |
| Similar.SimilarIndices | simhash/_simhash.c:135-191 | every emitted pair (a, b) has a < b, shares the masked key and is within `maxbitdifference`; every such pair is emitted; no pair is emitted twice |
| Similar.ScanFrom | simhash/_simhash.c:170-187 | the inner loop for record i emits exactly the matches of i with the records after it, and the break at the first key change loses none |
| Similar.ScanStart | simhash/_simhash.c:173 | the inner loop starts at `j = i + 1` with every earlier match emitted |
| Similar.ScanEmit | simhash/_simhash.c:177-182 | a match of records i and j is emitted with the lower offset first |
| Similar.EmitAppend | simhash/_simhash.c:179-183 | appending a new match in scan order keeps the output free of duplicates |
| Similar.ScanSkip | simhash/_simhash.c:177 | a same-key record beyond the distance is skipped without loss |
| Similar.ScanStop | simhash/_simhash.c:175-176 | leaving the inner loop at the end or at the first key change covers all matches of record i |
| Similar.RunEnds | simhash/_simhash.c:175-176 | in sorted order, no record after the first key change shares the key of record i |
| Similar.KeyContiguous | simhash/_simhash.c:164-176 | in sorted order, records with equal key are contiguous |
| Similar.TopMonotone | simhash/_simhash.c:164 | sorting by signed hash also sorts by the signed value of the top bits |
| Similar.MatchSimilar | simhash/_simhash.c:177-182 | a match of two sorted records gives a similar pair of input indices |
| Similar.SimilarMatch | simhash/_simhash.c:169-188 | every similar pair is the match of two sorted records, in scan order |
| Similar.OffsetPairInjective | simhash/_simhash.c:179-182 | different record pairs give different index pairs |
| Similar.ScanComplete | simhash/_simhash.c:169-188 | once the outer loop is done the output is sound, complete and duplicate-free |
| Similar.AsWrittenScanLosesPair | simhash/_simhash.c:164-177 | with the comparator as written, records with hashes 0, -2^63 and 2^32 are all ties, so this unsorted order is a valid `qsort` result; with a one-bit key the first and the last match, but the scan from the first breaks at the second and the second does not share the last one's key |
| Fnv.OctetWord | simhash/fnv.h:26-29 | `(uint64_t) octet` for a signed `char`: the low byte is the octet and the 56 bits above copy its sign bit |
| Fnv.FnvPass | simhash/fnv.h:26-39 | the shift-add branch of `fnv_pass` equals the XOR followed by `hval *= FNV_PRIME` modulo 2^64 |
| Fnv.ShiftAddIsMultiply | simhash/fnv.h:32-36 | `h + (h<<1) + (h<<4) + (h<<5) + (h<<7) + (h<<8) + (h<<40)` equals `h * 0x100000001b3` modulo 2^64 |
| Fnv.FnvFoldAppend | simhash/fnv.h:60-62 | folding `fnv_pass` over a ++ b continues the fold over b from the state after a |
| Fnv.FnvHashAppend | simhash/fnv.h:50-65 | hashing a ++ b continues from the hash state of a |
| Fnv.FnvBuf | simhash/fnv.h:50-65 | `fnv_buf` hashes exactly the first len octets from `FNV_INIT`; with len 0 it returns `FNV_INIT` |
| Fnv.CStringLength | simhash/fnv.h:83 | the octets before the first NUL are all nonzero |
| Fnv.FnvStr | simhash/fnv.h:76-88 | `fnv_str` equals the hash of the octets before the first NUL; the empty string hashes to 0xcbf29ce484222325 |
| Fnv.FnvHashAscii | simhash/fnv.h:26-29 | for octets below 0x80 the hash is textbook FNV-1a |
| Fnv.AsciiPass | simhash/fnv.h:26-39 | below 0x80 one pass is the textbook FNV-1a pass |
| Fnv.AsciiXor | simhash/fnv.h:29 | below 0x80 the sign extension changes nothing in the XOR |
| Fnv.FnvHashHighOctet | simhash/fnv.h:29 | the single octet 0x80 hashes differently from textbook FNV-1a, because of the sign extension |
| Simpair.SimpairIndices | simhash/__init__.py:10-29 | the assertions checked in order decide the error (`maxbitdifference > 64`, division by zero, `keybits > 64 / maxbitdifference`, `rotate > 64`); if they pass, the result is what `similar_indices` returns: every similar pair exactly once, lower index first |

## Left out

- Python C-API glue is not modelled: argument parsing, sequence access, `PyLong` conversions, reference counting, list building, the method table and module init. Inputs are already `Word`s and outputs are sequences. The `hamming_distance` and `fnvhash` entry points are this glue around `hamdist` and `fnv_str`.
- Conversion errors are not modelled: a `PY_LONG_LONG` out of range, a failing `PySequence_GetItem`, or an `int` argument out of range. The only item error modelled is the `TypeError` for a weighted item that is not a (hash, weight) pair.
- WeightedFingerprint.ComputeWeightedFingerprint: the weights and the sums are exact reals. Float32 rounding is not modelled.
- Fingerprint.ComputeFingerprint: the `int` sums are unbounded. In C, a sequence of 2^31 or more tokens can overflow them: 2^31 tokens that all have a bit set already do, while a balanced sequence never does.
- Memory handling is not modelled: the unchecked `malloc` and the leak of `simvals` on early error returns have no counterpart.
- Similar.SimilarIndices: requires a rotation of 1 to 63 bits. At 0 and 64 the shifts at `_simhash.c:158-159` (`hashval >> 64` at 0, `hashval << 64` at 64) and at `_simhash.c:167` are undefined behaviour in C. The wrapper's default `rotate=0` and its `rotate <= 64` assertion do not prevent them, so Simpair.SimpairIndices passes this requirement on to its caller.
- `qsort` is not modelled: the sort is an insertion sort by adjacent swaps with the corrected comparator. The order of equal-key records (`qsort` is not stable) is therefore not modelled, and neither is the order of the output list. The contract is about its contents.
- Simpair.SimpairIndices: `64 / maxbitdifference` is Python 3 true division, taken as exact real division. The float rounding of the quotient is not modelled, and neither is Python 2 floor division.
- `keybits` is passed to `similar_indices` but never used there. The key mask comes from `rotate_bits` alone.
- Simpair.SimpairIndices: the defaults `maxbitdifference=3` and `rotate=0` of `__init__.py:10` are not modelled; every argument is passed explicitly.
- Simpair.SimpairIndices: under `python -O` the assertions at `__init__.py:25-27` are removed. The model keeps them as error results.
- Signed overflow and over-wide shifts are modelled as GCC's two's-complement wrap-around. In C these are undefined behaviour:
  - the subtraction at `_simhash.c:131`;
  - `hashval << rotate_bits` at `_simhash.c:158` for a negative `hashval` or one whose shifted bits overflow;
  - at `_simhash.c:167`, `1LL << 63` and `(1LL << 63) - 1` when `rotate_bits` is 63, and the final `<< (HASHBITS - rotate_bits)`, which sets bit 63 for every rotation and so always overflows;
  - the shift of a true comparison to bit 63 at `_simhash.c:120`;
  - `val - 1` at `_simhash.c:23`;
  - `result <<= 1` at `_simhash.c:76`.
- Fnv.FnvPass: modelled as compiled on x86 and x86-64, where `FNV_AVOID_MUL` is 1 and `char` is signed. On a platform with unsigned `char` the hash would be textbook FNV-1a; `FnvHashAscii` and `FnvHashHighOctet` mark where the two agree and differ.
- `__builtin_popcountll` is modelled as the specified bit count `PopCount`.
- Invalid arguments to `simpair_indices` raise `AssertionError` or `ZeroDivisionError`, as the wrapper's asserts do.
- Records are sorted by their signed `PY_LONG_LONG` value, the order `cmp_hashrec`'s subtraction aims at.
- The code and its docstrings disagree in these places, and the model follows the code:
  - The docstring at `__init__.py:13-14` and the method table at `_simhash.c:214` promise hashes that differ by less than the bound. The test at `_simhash.c:177` is `<=`, so pairs at exactly the bound are reported too.
  - The docstring at `__init__.py:16-17` says that `keybits` groups the candidate matches and that 0 finds all of them. `similar_indices` never reads `keybits`: the key is the top `rotate_bits` bits.

## Findings

| source | as written | input that shows it | evidently intended | confidence | as-written member | corrected member |
|---|---|---|---|---|---|---|
| simhash/_simhash.c:130-133 | `cmp_hashrec` returns the 64-bit difference truncated to `int`, so hashes that differ only above bit 31 compare equal | hashes 0x100000000 and 0 give 0 | a three-way comparison of the signed hashes | not executed | HashRecords.CmpAsWrittenMissesDifference | HashRecords.CmpHashRecEqual |
| simhash/_simhash.c:130-133 | the truncated difference is not a consistent order, so `qsort` may leave equal keys apart and the `break` in the scan then loses similar pairs | hashes 0, 0x60000000 and 0xC0000000: a < b, b < c, but c < a | a transitive order, under which equal keys are contiguous | not executed | HashRecords.CmpAsWrittenNotTransitive | HashRecords.SortHashRecs |
| simhash/_simhash.c:164-177 | with ties between unequal hashes, `qsort` may leave records of equal key apart, and the scan from the first stops at the key change | inputs 0, 2^62 and 2^31 with `rotate_bits` 1: the rotated hashes 0, -2^63 and 2^32 tie pairwise, their keys in this order are 0, 1, 0, and inputs 0 and 2^31 are one bit apart but never paired | every same-key pair within the distance is reported | not executed | Similar.AsWrittenScanLosesPair | Similar.SimilarIndices |
