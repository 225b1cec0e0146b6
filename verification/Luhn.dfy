/** The Luhn checksum in its two implementations: by index parity from the left
    (app/inference/regex.py) and alternating from the right
    (site/src/scripts/redact.ts).
 */
module Luhn {
  import opened Wrappers
  import opened Characters

  type Digit = d: int | 0 <= d <= 9 witness 0

  /** The value of each character that counts as a decimal digit.  Python takes the
      decimal digits of every script, the browser those of ASCII. */
  type Decimals = char -> Option<Digit>

  function Ascii(c: char): (d: Option<Digit>)
  {
    if IsDigit(c) then Some(c as int - '0' as int) else None
  }

  /** Agrees with ASCII on ASCII. */
  ghost predicate ExtendsAscii(decimals: Decimals)
  {
    forall c: char :: c < 128 as char ==> decimals(c) == Ascii(c)
  }

  /** The digits of a string, everything else removed. */
  function DigitsOf(s: string, decimals: Decimals): (r: seq<Digit>)
    ensures |r| <= |s|
  {
    if s == "" then []
    else (if decimals(s[0]).Some? then [decimals(s[0]).value] else []) + DigitsOf(s[1..], decimals)
  }

  function Double(d: Digit): (r: Digit) { if 2 * d > 9 then 2 * d - 9 else 2 * d }

  function Term(d: Digit, doubled: bool): (r: Digit) { if doubled then Double(d) else d }

  /** The checksum read from the right; `alt` says whether the last digit is doubled. */
  function Weighted(digits: seq<Digit>, alt: bool): (r: int)
  {
    if digits == [] then 0 else
      var n := |digits| - 1;
      Term(digits[n], alt) + Weighted(digits[..n], !alt)
  }

  /** A card number of 13 to 19 digits whose checksum ends in 0. */
  predicate Accepted(digits: seq<Digit>)
  {
    13 <= |digits| <= 19 && Weighted(digits, false) % 10 == 0
  }

  lemma WeightedSnoc(digits: seq<Digit>, k: nat, alt: bool)
    requires k < |digits|
    ensures Weighted(digits[..k + 1], alt) == Term(digits[k], alt) + Weighted(digits[..k], !alt)
  {
    assert digits[..k + 1][..k] == digits[..k];
  }

  /** Equal parity of index and length means odd distance from the last digit. */
  lemma ParityIsDistance(n: nat, i: nat)
    requires i < n
    ensures i % 2 == n % 2 <==> (n - i - 1) % 2 == 1
    ensures (n - i) % 2 == 1 <==> !((n - i - 1) % 2 == 1)
  {
  }

  /** The server: the digits at even distance from the end are told by parity. */
  method LuhnOk(number: string, decimals: Decimals) returns (r: bool)
    ensures r <==> Accepted(DigitsOf(number, decimals))
  {
    var digits := DigitsOf(number, decimals);
    var n := |digits|;
    if n < 13 || n > 19 {
      return false;
    }
    var total := 0;
    var parity := n % 2;
    for i := 0 to n
      invariant total == Weighted(digits[..i], (n - i) % 2 == 1)
    {
      var d: int := digits[i];
      ghost var alt := (n - i - 1) % 2 == 1;
      ParityIsDistance(n, i);
      WeightedSnoc(digits, i, alt);
      if i % 2 == parity {
        d := d * 2;
        if d > 9 {
          d := d - 9;
        }
      }
      total := total + d;
    }
    assert digits[..n] == digits;
    r := total % 10 == 0;
  }

  /** The browser: `luhn` on the digits of a match, and the length test of its caller. */
  method DemoLuhn(digits: seq<Digit>) returns (r: bool)
    ensures r <==> Weighted(digits, false) % 10 == 0
  {
    var sum := 0;
    var alt := false;
    var i := |digits| - 1;
    assert digits[..i + 1] == digits;
    while i >= 0
      invariant -1 <= i < |digits|
      invariant sum + Weighted(digits[..i + 1], alt) == Weighted(digits, false)
    {
      var n: int := digits[i];
      WeightedSnoc(digits, i, alt);
      if alt {
        n := n * 2;
        if n > 9 {
          n := n - 9;
        }
      }
      sum := sum + n;
      alt := !alt;
      i := i - 1;
    }
    r := sum % 10 == 0;
  }

  method DemoAcceptsCard(raw: string) returns (r: bool)
    ensures r <==> Accepted(DigitsOf(raw, Ascii))
  {
    var digits := DigitsOf(raw, Ascii);
    if |digits| < 13 || |digits| > 19 {
      return false;
    }
    r := DemoLuhn(digits);
  }

  /** Server and browser see the same digits of a text exactly when it holds no
      decimal digit outside ASCII; so they accept the same ASCII matches. */
  lemma {:induction false} SameDigits(s: string, decimals: Decimals)
    requires ExtendsAscii(decimals)
    ensures |DigitsOf(s, decimals)| >= |DigitsOf(s, Ascii)|
    ensures DigitsOf(s, decimals) == DigitsOf(s, Ascii)
        <==> forall c :: c in s && decimals(c).Some? ==> IsDigit(c)
  {
    if s != "" {
      SameDigits(s[1..], decimals);
      var ds, bs := DigitsOf(s[1..], decimals), DigitsOf(s[1..], Ascii);
      var c := s[0];
      assert forall x :: x in s <==> x == c || x in s[1..];
      if decimals(c).Some? && IsDigit(c) {
        assert decimals(c) == Ascii(c);
        assert ([decimals(c).value] + ds)[1..] == ds && ([decimals(c).value] + bs)[1..] == bs;
      } else if decimals(c).Some? {
        assert |DigitsOf(s, decimals)| > |DigitsOf(s, Ascii)|;
      } else {
        assert !IsDigit(c) by { assert c < 128 as char ==> decimals(c) == Ascii(c); }
        assert DigitsOf(s, decimals) == ds && DigitsOf(s, Ascii) == bs;
      }
    }
  }

  // ----- what the checksum detects -----

  lemma {:induction false} WeightedUpdate(digits: seq<Digit>, i: nat, v: Digit, alt: bool)
    requires i < |digits|
    ensures var doubled := alt != ((|digits| - 1 - i) % 2 == 1);
      Weighted(digits[i := v], alt) - Weighted(digits, alt) == Term(v, doubled) - Term(digits[i], doubled)
    decreases |digits|
  {
    var n := |digits| - 1;
    if i == n {
      assert digits[i := v][..n] == digits[..n];
    } else {
      assert digits[i := v][..n] == digits[..n][i := v];
      WeightedUpdate(digits[..n], i, v, !alt);
    }
  }

  /** Changing any single digit of an accepted number gets it rejected. */
  lemma DetectsSingleError(digits: seq<Digit>, i: nat, v: Digit)
    requires Accepted(digits) && i < |digits| && v != digits[i]
    ensures !Accepted(digits[i := v])
  {
    var doubled := (|digits| - 1 - i) % 2 == 1;
    WeightedUpdate(digits, i, v, false);
    TermsDiffer(v, digits[i], doubled);
    AddMultiple(Weighted(digits, false), Term(v, doubled) - Term(digits[i], doubled));
  }

  lemma TermsDiffer(a: Digit, b: Digit, doubled: bool)
    requires a != b
    ensures (Term(a, doubled) - Term(b, doubled)) % 10 != 0
  {
  }

  /** Swapping two neighbouring digits is detected exactly when they differ and
      are not 0 and 9. */
  lemma DetectsTransposition(digits: seq<Digit>, i: nat)
    requires Accepted(digits) && i + 1 < |digits|
    ensures var a, b := digits[i], digits[i + 1];
      Accepted(digits[i := b][i + 1 := a]) <==> a == b || (a == 0 && b == 9) || (a == 9 && b == 0)
  {
    var a, b := digits[i], digits[i + 1];
    var x := (|digits| - 1 - i) % 2 == 1;
    WeightedUpdate(digits, i, b, false);
    WeightedUpdate(digits[i := b], i + 1, a, false);
    ParityAlternates(|digits| - 1 - i);
    SwapTerms(a, b, x);
    AddMultiple(Weighted(digits, false), Term(b, x) - Term(a, x) + Term(a, !x) - Term(b, !x));
  }

  lemma ParityAlternates(k: int)
    ensures (k - 1) % 2 == 1 <==> !(k % 2 == 1)
  {
  }

  lemma AddMultiple(w: int, delta: int)
    requires w % 10 == 0
    ensures (w + delta) % 10 == 0 <==> delta % 10 == 0
  {
  }

  lemma SwapTerms(a: Digit, b: Digit, x: bool)
    ensures (Term(b, x) - Term(a, x) + Term(a, !x) - Term(b, !x)) % 10 == 0
        <==> a == b || (a == 0 && b == 9) || (a == 9 && b == 0)
  {
  }
}
