/** The Luhn checksum of both implementations (app/inference/regex.py,
    site/src/scripts/redact.ts) as one sum over the digits.
 */
module LuhnSum {
  import opened Luhn

  /** The sum over the first `k` digits, read from the left: every second digit, counted
      from the one next to the last, counts with the digits of its double. */
  function Checksum(digits: seq<Digit>, k: nat): (r: int)
    requires k <= |digits|
  {
    if k == 0 then 0 else
      var d: int := digits[k - 1];
      Checksum(digits, k - 1) + if (|digits| - k) % 2 == 1 then 2 * d / 10 + 2 * d % 10 else d
  }

  lemma {:induction false} WeightedIsChecksum(digits: seq<Digit>, k: nat)
    requires k <= |digits|
    ensures Weighted(digits[..k], (|digits| - k) % 2 == 1) == Checksum(digits, k)
  {
    if k > 0 {
      WeightedIsChecksum(digits, k - 1);
      WeightedSnoc(digits, k - 1, (|digits| - k) % 2 == 1);
      ParityAlternates(|digits| - k + 1);
    }
  }

  /** So a number is accepted if and only if it has 13 to 19 digits and that sum over all
      of them ends in 0. */
  lemma AcceptedIffChecksum(digits: seq<Digit>)
    ensures Accepted(digits) <==> 13 <= |digits| <= 19 && Checksum(digits, |digits|) % 10 == 0
  {
    WeightedIsChecksum(digits, |digits|);
    assert digits[..|digits|] == digits;
  }
}
