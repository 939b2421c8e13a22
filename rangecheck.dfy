/**
 * The range guard of State::SetBatteryCharge and State::SetLocalizationScore.
 * In C++ `lo <= v <= hi` parses as `(lo <= v) <= hi`: the bool result of the first
 * comparison is promoted to 0.0 or 1.0 and then compared with hi.
 */
module RangeCheck {

  /** C++'s promotion of a bool to double. */
  function BoolToDouble(b: bool): (r: real)
    ensures r == 0.0 || r == 1.0
  {
    if b then 1.0 else 0.0
  }

  /** The guard as the source writes it: `(lo <= v) <= hi`. */
  function ChainedGuard(lo: real, v: real, hi: real): (ok: bool) {
    BoolToDouble(lo <= v) <= hi
  }

  /** The guard the doc comments describe: v lies in the closed interval [lo, hi]. */
  predicate InRange(lo: real, v: real, hi: real) {
    lo <= v && v <= hi
  }

  /** With an upper bound of at least 1.0 the written guard holds of every value. */
  lemma ChainedGuardAlwaysHolds(lo: real, v: real, hi: real)
    requires 1.0 <= hi
    ensures ChainedGuard(lo, v, hi)
  {
  }

  /** A battery charge of 150 % and a localization score of 1.5 both pass the written guard. */
  lemma ChainedGuardAcceptsOutOfRange()
    ensures ChainedGuard(0.0, 150.0, 100.0) && !InRange(0.0, 150.0, 100.0)
    ensures ChainedGuard(0.0, -5.0, 100.0) && !InRange(0.0, -5.0, 100.0)
    ensures ChainedGuard(0.0, 1.5, 1.0) && !InRange(0.0, 1.5, 1.0)
  {
  }

  /** The written guard and the intended one agree only inside the interval. */
  lemma ChainedGuardDiffersOutside(lo: real, v: real, hi: real)
    requires 1.0 <= hi && !InRange(lo, v, hi)
    ensures ChainedGuard(lo, v, hi) != InRange(lo, v, hi)
  {
  }
}
