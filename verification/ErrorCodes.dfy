/** Error detection codes of `pycroft/helpers/errorcode.py`. */
module ErrorCodes {
  import opened Wrappers

  lemma Product(base: nat, q: nat)
    requires base >= 2
    ensures base * q >= 2 * q
  {}

  lemma Division(n: nat, base: nat)
    requires n >= base >= 2
    ensures 1 <= n / base < n && n % base < base && n == base * (n / base) + n % base
  {
    Product(base, n / base);
  }

  /** The digits of n, least significant first. */
  function DigitsOf(n: nat, base: nat): seq<nat>
    requires base >= 2
    decreases n
  {
    if n < base then [n] else
      Division(n, base);
      [n % base] + DigitsOf(n / base, base)
  }

  /** The generator `digits`; `None` stands for the `ValueError` on a small base. */
  method Digits(number: int, base: int) returns (r: Option<seq<nat>>)
    ensures r.None? <==> base < 2
    ensures r.Some? ==> r.value == DigitsOf(if number < 0 then -number else number, base)
  {
    if base < 2 {
      return None;
    }
    var n: nat := if number < 0 then -number else number;
    var out := [];
    while n >= base
      invariant out + DigitsOf(n, base) == DigitsOf(if number < 0 then -number else number, base)
      decreases n
    {
      Division(n, base);
      assert out + ([n % base] + DigitsOf(n / base, base)) == out + [n % base] + DigitsOf(n / base, base);
      out, n := out + [n % base], n / base;
    }
    return Some(out + [n]);
  }

  /** The number written with these digits. */
  function ValueOf(digits: seq<nat>, base: nat): nat {
    if digits == [] then 0 else digits[0] + base * ValueOf(digits[1..], base)
  }

  lemma OneDigit(ds: seq<nat>, base: nat)
    requires |ds| == 1
    ensures ValueOf(ds, base) == ds[0]
  {
    assert ds[1..] == [];
  }

  /** The digits are below the base, have no superfluous zero, and denote the number. */
  lemma {:induction false} DigitsMeaning(n: nat, base: nat)
    requires base >= 2
    ensures ValueOf(DigitsOf(n, base), base) == n
    ensures forall d :: d in DigitsOf(n, base) ==> d < base
    ensures var ds := DigitsOf(n, base); |ds| >= 1 && (|ds| > 1 ==> ds[|ds| - 1] != 0)
    decreases n
  {
    if n >= base {
      Division(n, base);
      DigitsMeaning(n / base, base);
      var rest := DigitsOf(n / base, base);
      assert ([n % base] + rest)[1..] == rest;
      assert ValueOf([n % base] + rest, base) == n % base + base * ValueOf(rest, base);
      if |rest| == 1 {
        OneDigit(rest, base);
      }
    } else {
      OneDigit([n], base);
    }
  }

  function Sum(s: seq<nat>): nat {
    if s == [] then 0 else s[0] + Sum(s[1..])
  }

  /** `DigitSumModNCode(10)`. */
  function Type1Code(number: nat): (code: nat)
    ensures code < 10
  {
    Sum(DigitsOf(number, 10)) % 10
  }

  /** `Mod97Code`: the check digits of ISO/IEC 7064, MOD 97-10. */
  function Type2Code(number: nat): (code: nat)
    ensures 2 <= code <= 98
  {
    98 - (number * 100) % 97
  }

  /** Digits and codes of two numbers. */
  lemma {:induction false} CodeExamples()
    ensures DigitsOf(0, 10) == [0] && DigitsOf(1234, 10) == [4, 3, 2, 1]
    ensures Type1Code(0) == 0 && Type1Code(1234) == 0 && Type2Code(0) == 98 && Type2Code(1234) == 82
  {
    assert DigitsOf(12, 10) == [2] + DigitsOf(1, 10) && DigitsOf(123, 10) == [3] + DigitsOf(12, 10);
    assert DigitsOf(1234, 10) == [4] + DigitsOf(123, 10);
    assert [4, 3, 2, 1][1..] == [3, 2, 1] && [3, 2, 1][1..] == [2, 1] && [2, 1][1..] == [1] && [1][1..] == [];
    assert Sum([2, 1]) == 3 && Sum([3, 2, 1]) == 6 && Sum([4, 3, 2, 1]) == 10;
  }

  predicate Type2Valid(number: nat, code: int) {
    (number * 100 + code) % 97 == 1
  }

  /** `is_valid` accepts the calculated code, and among 2..98 no other. */
  lemma {:induction false} Type2ValidIff(number: nat, code: int)
    requires 2 <= code <= 98
    ensures Type2Valid(number, code) <==> code == Type2Code(number)
  {
    var r, q := (number * 100) % 97, (number * 100) / 97;
    var excess := r + code - 98;
    if excess > 0 {
      Residue(number * 100 + code, q + 1, excess + 1);
    } else if excess == 0 {
      Residue(number * 100 + code, q + 1, 1);
    } else {
      Residue(number * 100 + code, q, excess + 98);
    }
  }

  lemma Residue(a: int, q: int, r: int)
    requires a == 97 * q + r && 0 < r <= 97
    ensures a % 97 == if r == 97 then 0 else r
  {}
}
