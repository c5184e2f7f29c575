/**
 * `simpair_indices` in `simhash/__init__.py`: three assertions on the
 * arguments, then the call `_similar_indices(sequence_of_hashes, keybits,
 * maxbitdifference, rotate)`.
 *
 * The assertions run in order, so the first one that fails decides the
 * exception; `64 / maxbitdifference` is Python 3 true division and raises
 * ZeroDivisionError when maxbitdifference is 0.
 */
module Simpair {
  import opened Words
  import opened Outcomes
  import Similar

  datatype Error = AssertionError | ZeroDivisionError

  /** The arguments get past all three assertions. */
  predicate ArgumentsAccepted(keybits: int, maxd: int, rotate: int)
  {
    maxd <= 64 && maxd != 0 && (keybits as real) <= 64.0 / (maxd as real) && rotate <= 64
  }

  /**
   * `simpair_indices(sequence_of_hashes, keybits, maxbitdifference, rotate)`.
   * When the assertions pass, the result is what `similar_indices` returns:
   * every similar pair, lower index first, none twice. The extension is only
   * defined for a rotation of 1 to 63 bits, which the wrapper does not check,
   * so that is required of the caller.
   */
  method SimpairIndices(hashes: seq<Word>, keybits: int, maxd: int, rotate: int)
    returns (r: Result<seq<(int, int)>, Error>)
    requires ArgumentsAccepted(keybits, maxd, rotate) ==> 1 <= rotate < WordSize
    ensures maxd > 64 ==> r == Failure(AssertionError)
    ensures maxd == 0 ==> r == Failure(ZeroDivisionError)
    ensures maxd <= 64 && maxd != 0 && (keybits as real) > 64.0 / (maxd as real) ==> r == Failure(AssertionError)
    ensures maxd <= 64 && maxd != 0 && (keybits as real) <= 64.0 / (maxd as real) && rotate > 64 ==> r == Failure(AssertionError)
    ensures r.Success? <==> ArgumentsAccepted(keybits, maxd, rotate)
    ensures r.Success? ==> forall p :: p in r.value ==> 0 <= p.0 < p.1 < |hashes|
    ensures r.Success? ==> forall a, b ::
              (a, b) in r.value <==> Similar.SimilarPair(hashes, maxd, rotate, a, b)
    ensures r.Success? ==> forall t1, t2 :: 0 <= t1 < t2 < |r.value| ==> r.value[t1] != r.value[t2]
  {
    if !(maxd <= 64) {
      return Failure(AssertionError);
    }
    if maxd == 0 {
      return Failure(ZeroDivisionError);
    }
    if !((keybits as real) <= 64.0 / (maxd as real)) {
      return Failure(AssertionError);
    }
    if !(rotate <= 64) {
      return Failure(AssertionError);
    }
    var pairs := Similar.SimilarIndices(hashes, keybits, maxd, rotate);
    return Success(pairs);
  }
}
