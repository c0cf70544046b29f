/**
 * `allocationUnitsToFactor`: the number of bytes in one allocation unit of
 * an OVF descriptor, either a programmatic unit ending in `^n` ("byte * 2^20")
 * or a unit whose first letter is a binary prefix ("MegaBytes", "GB").
 */
module Units {
  import opened Wrappers
  import opened Bytes
  import opened Strings

  /** `MEMORY_UNIT_TO_FACTOR`: the factor of a lower-case prefix letter. */
  function PrefixFactor(c: char): Option<nat> {
    match c
    case 'k' => Some(1024)
    case 'm' => Some(1048576)
    case 'g' => Some(1073741824)
    case 't' => Some(1099511627776)
    case _ => None
  }

  /** The exponent `n` of a unit matching `/\^([0-9]+)$/`, found left to right. */
  function PowerSuffix(u: string): Option<nat> {
    if |u| < 2 then None
    else if u[0] == '^' && AllDigits(u[1..]) then Some(DecimalValue(u[1..]))
    else PowerSuffix(u[1..])
  }

  /** `unit` ends in a caret at `k` followed by one or more decimal digits. */
  ghost predicate PowerAt(u: string, k: int) {
    0 <= k && k + 1 < |u| && u[k] == '^' && AllDigits(u[k + 1..])
  }

  /** `allocationUnitsToFactor(unit)`; None stands for `undefined`. */
  function AllocationUnitsToFactor(unit: string): Option<nat> {
    match PowerSuffix(unit)
    case Some(n) => Some(Pow(2, n))
    case None => if unit == [] then None else PrefixFactor(LowerChar(unit[0]))
  }

  /** The scan finds the suffix exactly when one exists, and reads its digits. */
  lemma {:induction false} PowerSuffixMatches(u: string)
    ensures PowerSuffix(u).Some? <==> exists k :: PowerAt(u, k)
    ensures forall k :: PowerAt(u, k) ==> PowerSuffix(u) == Some(DecimalValue(u[k + 1..]))
  {
    if |u| < 2 {
      return;
    }
    if u[0] == '^' && AllDigits(u[1..]) {
      assert PowerAt(u, 0);
      forall k | PowerAt(u, k) ensures k == 0 { }
    } else {
      PowerSuffixMatches(u[1..]);
      forall k | PowerAt(u, k) ensures PowerAt(u[1..], k - 1) {
        assert u[1..][k - 1..] == u[k..];
        assert u[1..][k..] == u[k + 1..];
      }
      forall k | PowerAt(u[1..], k) ensures PowerAt(u, k + 1) {
        assert u[1..][k + 1..] == u[k + 2..];
      }
    }
  }

  /** A unit ending in `^d` has the factor 2^d, whatever comes before the caret. */
  lemma FactorOfPowerSuffix(p: string, d: string)
    requires d != [] && AllDigits(d)
    ensures AllocationUnitsToFactor(p + "^" + d) == Some(Pow(2, DecimalValue(d)))
  {
    var u := p + "^" + d;
    assert u[|p| + 1..] == d;
    assert PowerAt(u, |p|);
    PowerSuffixMatches(u);
  }

  /** Any other unit takes its factor from its first letter, lower-cased. */
  lemma FactorOfPrefix(u: string)
    requires forall k :: !PowerAt(u, k)
    ensures AllocationUnitsToFactor(u) == if u == [] then None else PrefixFactor(LowerChar(u[0]))
  {
    PowerSuffixMatches(u);
  }

  /** "byte * 2^20", the programmatic unit of a megabyte. */
  lemma FactorOfByteTimes2To20()
    ensures AllocationUnitsToFactor("byte * 2^20") == Some(1048576)
  {
    FactorOfPowerSuffix("byte * 2", "20");
    assert "byte * 2" + "^" + "20" == "byte * 2^20";
    assert DecimalValue("20") == 20 by {
      assert "20"[..1] == "2";
    }
    assert Pow(2, 5) == 32;
    PowAdd(2, 5, 5);
    assert Pow(2, 10) == 1024;
    PowAdd(2, 10, 10);
    assert Pow(2, 20) == 1048576;
    assert AllocationUnitsToFactor("byte * 2^20") == Some(Pow(2, 20));
  }

  /** "MegaBytes" and "GB" are read by their first letter. */
  lemma FactorOfNamedUnits()
    ensures AllocationUnitsToFactor("MegaBytes") == Some(1048576)
    ensures AllocationUnitsToFactor("GB") == Some(1073741824)
  {
    FactorOfPrefix("MegaBytes");
    FactorOfPrefix("GB");
  }
}
