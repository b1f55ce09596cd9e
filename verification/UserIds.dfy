/** User ids with check codes: `pycroft/lib/user/user_id.py`. */
module UserIds {
  import opened Wrappers
  import opened ErrorCodes

  // ----- decimal numerals -----

  predicate IsDigit(c: char) {
    '0' <= c <= '9'
  }

  predicate AllDigits(s: string) {
    forall i :: 0 <= i < |s| ==> IsDigit(s[i])
  }

  function DigitValue(c: char): nat
    requires IsDigit(c)
  {
    (c - '0') as nat
  }

  function DigitChar(d: nat): (c: char)
    requires d < 10
    ensures IsDigit(c) && DigitValue(c) == d
  {
    '0' + d as char
  }

  /** `int(s)` of a digit string. */
  function ParseNat(s: string): nat
    requires AllDigits(s)
  {
    if s == "" then 0 else 10 * ParseNat(s[..|s| - 1]) + DigitValue(s[|s| - 1])
  }

  /** `format(n, "d")`. */
  function Decimal(n: nat): (s: string)
    ensures AllDigits(s) && |s| >= 1 && (|s| > 1 ==> s[0] != '0')
    ensures n > 0 ==> s[0] != '0'
    ensures n < 10 ==> |s| == 1
  {
    if n < 10 then [DigitChar(n)] else Decimal(n / 10) + [DigitChar(n % 10)]
  }

  /** Padding with zeros on the left: `format(n, "04d")`. */
  function Padded(s: string, width: nat): (r: string)
    requires AllDigits(s)
    ensures AllDigits(r) && |r| == if |s| >= width then |s| else width
    decreases width - |s|
  {
    if |s| >= width then s else Padded("0" + s, width)
  }

  function Format(n: nat, width: nat): (s: string)
    ensures AllDigits(s) && |s| >= width
  {
    Padded(Decimal(n), width)
  }

  lemma {:induction false} ParseDecimal(n: nat)
    ensures ParseNat(Decimal(n)) == n
  {
    if n >= 10 {
      ParseDecimal(n / 10);
      assert Decimal(n)[..|Decimal(n)| - 1] == Decimal(n / 10);
    } else {
      assert Decimal(n)[..0] == "";
    }
  }

  lemma {:induction false} ParseZero(s: string)
    requires AllDigits(s)
    ensures ParseNat("0" + s) == ParseNat(s)
  {
    var t := "0" + s;
    if s == "" {
      assert t[..0] == "";
    } else {
      ParseZero(s[..|s| - 1]);
      assert t[..|t| - 1] == "0" + s[..|s| - 1];
    }
  }

  lemma {:induction false} ParsePadded(s: string, width: nat)
    requires AllDigits(s)
    ensures ParseNat(Padded(s, width)) == ParseNat(s)
    decreases width - |s|
  {
    if |s| < width {
      ParsePadded("0" + s, width);
      ParseZero(s);
    }
  }

  lemma {:induction false} ParseFormat(n: nat, width: nat)
    ensures ParseNat(Format(n, width)) == n
  {
    ParseDecimal(n);
    ParsePadded(Decimal(n), width);
  }

  // ----- encoding and decoding -----

  function EncodeType1(id: nat): string {
    Format(id, 4) + "-" + Decimal(Type1Code(id))
  }

  function EncodeType2(id: nat): string {
    Format(id, 4) + "-" + Format(Type2Code(id), 2)
  }

  /** `s.split("-")`. */
  function Split(s: string): (parts: seq<string>)
    ensures |parts| >= 1
  {
    if s == "" then [""] else
      var rest := Split(s[1..]);
      if s[0] == '-' then [""] + rest else [[s[0]] + rest[0]] + rest[1..]
  }

  /** `$` also matches in front of a final newline. */
  function WithoutFinalNewline(s: string): string {
    if s != "" && s[|s| - 1] == '\n' then s[..|s| - 1] else s
  }

  /** The pattern of at least four digits, a dash and a code of the given length. */
  function Decode(s: string, codeLength: nat): Option<(string, string)> {
    var parts := Split(WithoutFinalNewline(s));
    if |parts| == 2 && |parts[0]| >= 4 && AllDigits(parts[0]) && |parts[1]| == codeLength && AllDigits(parts[1])
    then Some((parts[0], parts[1])) else None
  }

  /**
   `check_user_id`.  `int` raises on most first parts that are not plain digits, and parses some with
   signs, blanks or underscores, which no encoder prints; none of these is accepted.
   */
  predicate CheckUserId(s: string) {
    var parts := Split(s);
    s != "" && |parts| == 2 && parts[0] != "" && AllDigits(parts[0]) &&
    s == if |parts[1]| == 2 then EncodeType2(ParseNat(parts[0])) else EncodeType1(ParseNat(parts[0]))
  }

  predicate NoDash(s: string) {
    forall i :: 0 <= i < |s| ==> s[i] != '-'
  }

  lemma {:induction false} SplitNoDash(s: string)
    requires NoDash(s)
    ensures Split(s) == [s]
  {
    if s == "" {
    } else {
      SplitNoDash(s[1..]);
      assert [s[0]] + s[1..] == s;
    }
  }

  lemma {:induction false} SplitAtDash(a: string, b: string)
    requires NoDash(a) && NoDash(b)
    ensures Split(a + "-" + b) == [a, b]
  {
    var s := a + "-" + b;
    if a == "" {
      assert s[1..] == b;
      SplitNoDash(b);
    } else {
      assert s[1..] == a[1..] + "-" + b;
      SplitAtDash(a[1..], b);
      assert [a[0]] + a[1..] == a;
    }
  }

  lemma DigitsNoDash(s: string)
    requires AllDigits(s)
    ensures NoDash(s)
  {}

  lemma {:induction false} SplitEncoded(a: string, b: string)
    requires AllDigits(a) && AllDigits(b)
    ensures Split(a + "-" + b) == [a, b]
  {
    DigitsNoDash(a);
    DigitsNoDash(b);
    SplitAtDash(a, b);
  }

  lemma {:induction false} CodeLengths(id: nat)
    ensures |Decimal(Type1Code(id))| == 1 && |Format(Type2Code(id), 2)| == 2
  {
    var c := Type2Code(id);
    if c >= 10 {
      assert |Decimal(c / 10)| == 1;
    }
  }

  /** `check_user_id` accepts exactly what the encoders print. */
  lemma {:induction false} CheckAcceptsIff(s: string)
    ensures CheckUserId(s) <==> exists id :: s == EncodeType1(id) || s == EncodeType2(id)
  {
    if id :| s == EncodeType1(id) || s == EncodeType2(id) {
      EncodedAccepted(id);
    }
  }

  lemma {:induction false} EncodedAccepted(id: nat)
    ensures CheckUserId(EncodeType1(id)) && CheckUserId(EncodeType2(id))
  {
    CodeLengths(id);
    ParseFormat(id, 4);
    SplitEncoded(Format(id, 4), Decimal(Type1Code(id)));
    SplitEncoded(Format(id, 4), Format(Type2Code(id), 2));
  }

  /** Decoding gives the number and the code back, and the two types are never confused. */
  lemma {:induction false} DecodeEncoded(id: nat)
    ensures Decode(EncodeType1(id), 1) == Some((Format(id, 4), Decimal(Type1Code(id))))
            && Decode(EncodeType1(id), 2) == None
    ensures Decode(EncodeType2(id), 2) == Some((Format(id, 4), Format(Type2Code(id), 2)))
            && Decode(EncodeType2(id), 1) == None
    ensures ParseNat(Format(id, 4)) == id
  {
    CodeLengths(id);
    ParseFormat(id, 4);
    SplitEncoded(Format(id, 4), Decimal(Type1Code(id)));
    SplitEncoded(Format(id, 4), Format(Type2Code(id), 2));
    assert WithoutFinalNewline(EncodeType1(id)) == EncodeType1(id);
    assert WithoutFinalNewline(EncodeType2(id)) == EncodeType2(id);
  }

  lemma {:induction false} SplitJoins(s: string)
    ensures |Split(s)| == 1 ==> s == Split(s)[0]
    ensures |Split(s)| == 2 ==> s == Split(s)[0] + "-" + Split(s)[1]
  {
    if s == "" {
    } else {
      SplitJoins(s[1..]);
      assert s == [s[0]] + s[1..];
    }
  }

  /** Decoding recognises four or more digits, a dash and the digits of the code, with or without a final newline. */
  lemma {:induction false} DecodeIff(s: string, codeLength: nat, a: string, b: string)
    ensures Decode(s, codeLength) == Some((a, b)) <==>
      && AllDigits(a) && |a| >= 4 && AllDigits(b) && |b| == codeLength
      && (s == a + "-" + b || s == a + "-" + b + "\n")
  {
    if Decode(s, codeLength) == Some((a, b)) {
      SplitJoins(WithoutFinalNewline(s));
    }
    if AllDigits(a) && AllDigits(b) && (s == a + "-" + b || s == a + "-" + b + "\n") {
      SplitEncoded(a, b);
      assert WithoutFinalNewline(s) == a + "-" + b;
    }
  }

  /** 1234 and 7 as ids of both types. */
  lemma {:induction false} IdExamples()
    ensures EncodeType1(1234) == "1234-0" && EncodeType2(1234) == "1234-82"
    ensures EncodeType1(7) == "0007-7" && EncodeType2(7) == "0007-77"
  {
    CodeExamples();
    assert DigitsOf(7, 10) == [7] && Type1Code(7) == 7 && Type2Code(7) == 77;
    ShortNumerals();
    assert Decimal(12) == Decimal(1) + "2" && Decimal(123) == Decimal(12) + "3" && Decimal(1234) == Decimal(123) + "4";
    assert Format(1234, 4) == "1234";
  }

  lemma {:induction false} ShortNumerals()
    ensures Decimal(0) == "0" && Decimal(1) == "1" && Decimal(7) == "7"
    ensures Format(82, 2) == "82" && Format(77, 2) == "77" && Format(7, 4) == "0007"
  {
    assert Decimal(8) == "8" && Decimal(82) == Decimal(8) + "2" && Decimal(77) == Decimal(7) + "7";
    assert Padded("0007", 4) == "0007" && "0" + "007" == "0007" && Padded("007", 4) == "0007";
    assert "0" + "07" == "007" && Padded("07", 4) == "0007" && "0" + "7" == "07";
  }

  // ----- canonical numerals -----

  lemma {:induction false} DecimalCanonical(s: string)
    requires AllDigits(s) && |s| >= 1 && (|s| > 1 ==> s[0] != '0')
    ensures Decimal(ParseNat(s)) == s
    ensures s[0] != '0' ==> ParseNat(s) > 0
  {
    var init, d := s[..|s| - 1], DigitValue(s[|s| - 1]);
    if |s| == 1 {
      assert init == "" && s == [DigitChar(d)];
    } else {
      DecimalCanonical(init);
      assert (10 * ParseNat(init) + d) / 10 == ParseNat(init) && (10 * ParseNat(init) + d) % 10 == d;
      assert s == init + [DigitChar(d)];
    }
  }

  lemma {:induction false} PaddedStep(s: string, width: nat)
    requires AllDigits(s) && |s| < width
    ensures Padded(s, width) == "0" + Padded(s, width - 1)
    decreases width - |s|
  {
    if |s| < width - 1 {
      PaddedStep("0" + s, width);
    }
  }

  lemma {:induction false} FormatAgain(s: string, width: nat)
    requires AllDigits(s) && width >= 1 && (|s| == width || (|s| > width && s[0] != '0'))
    ensures Format(ParseNat(s), width) == s
    decreases |s|
  {
    if |s| == 1 || s[0] != '0' {
      DecimalCanonical(s);
    } else {
      var t := s[1..];
      FormatAgain(t, width - 1);
      assert s == "0" + t;
      ParseZero(t);
      assert Padded(Decimal(ParseNat(t)), width - 1) == t;
      PaddedStep(Decimal(ParseNat(t)), width);
    }
  }

  /** A digit string is a formatted number exactly when only the padding starts with zeros. */
  lemma {:induction false} FormatCanonical(s: string, width: nat)
    requires AllDigits(s) && width >= 1
    ensures Format(ParseNat(s), width) == s <==> |s| == width || (|s| > width && s[0] != '0')
  {
    if |s| == width || (|s| > width && s[0] != '0') {
      FormatAgain(s, width);
    } else {
      var digits := Decimal(ParseNat(s));
      assert |Format(ParseNat(s), width)| == if |digits| >= width then |digits| else width;
    }
  }

  // ----- errors a type-2 id detects -----

  /** x with k zeros appended. */
  function Shifted(x: int, k: nat): int {
    if k == 0 then x else 10 * Shifted(x, k - 1)
  }

  lemma {:induction false} ShiftedLinear(x: int, k: nat)
    ensures Shifted(-x, k) == -Shifted(x, k)
    ensures Shifted(9 * x, k) == 9 * Shifted(x, k)
  {
    if k > 0 {
      ShiftedLinear(x, k - 1);
    }
  }

  /** Changing one digit moves the number by the shifted difference. */
  lemma {:induction false} ParseChanged(s: string, i: nat, c: char)
    requires AllDigits(s) && i < |s| && IsDigit(c)
    ensures ParseNat(s[i := c]) == ParseNat(s) + Shifted(DigitValue(c) - DigitValue(s[i]), |s| - 1 - i)
  {
    var t := s[i := c];
    if i == |s| - 1 {
      assert t[..|t| - 1] == s[..|s| - 1];
    } else {
      assert t[..|t| - 1] == s[..|s| - 1][i := c];
      ParseChanged(s[..|s| - 1], i, c);
    }
  }

  /** 97 is prime to 10. */
  lemma TenTimes(y: int)
    requires (10 * y) % 97 == 0
    ensures y % 97 == 0
  {
    var q := (10 * y) / 97;
    assert y == 97 * (68 * q - 7 * y);
  }

  /** Appending zeros does not make a number a multiple of 97. */
  lemma {:induction false} NotMultipleOf97(x: int, k: nat)
    requires -97 < x < 97 && x != 0
    ensures Shifted(x, k) % 97 != 0
  {
    if k > 0 {
      NotMultipleOf97(x, k - 1);
      if Shifted(x, k) % 97 == 0 {
        TenTimes(Shifted(x, k - 1));
      }
    }
  }

  lemma {:induction false} SameResidue(a: int, b: int)
    requires a % 97 == 1 && b % 97 == 1
    ensures (a - b) % 97 == 0
  {
    assert a - b == 97 * (a / 97 - b / 97);
  }

  lemma {:induction false} ParseTwoMore(a: string, b: string)
    requires AllDigits(a) && AllDigits(b) && |b| == 2
    ensures ParseNat(a + b) == 100 * ParseNat(a) + ParseNat(b)
  {
    assert (a + b)[..|a + b| - 1] == a + [b[0]] && (a + [b[0]])[..|a|] == a;
    assert b[..1] == [b[0]] && b[..1][..0] == "";
    assert ParseNat([b[0]]) == DigitValue(b[0]);
  }

  lemma {:induction false} AcceptedCode(a: string, b: string)
    requires AllDigits(a) && AllDigits(b) && |b| == 2 && CheckUserId(a + "-" + b)
    ensures ParseNat(b) == Type2Code(ParseNat(a))
  {
    SplitEncoded(a, b);
    var n := ParseNat(a);
    CodeLengths(n);
    SplitEncoded(Format(n, 4), Format(Type2Code(n), 2));
    assert b == Format(Type2Code(n), 2);
    ParseFormat(Type2Code(n), 2);
  }

  lemma {:induction false} CodeCongruent(n: nat)
    ensures (100 * n + Type2Code(n)) % 97 == 1
  {
    Type2ValidIff(n, Type2Code(n));
  }

  /** An accepted id with two code digits is congruent to 1, read without its dash. */
  lemma {:induction false} AcceptedIsCongruent(a: string, b: string)
    requires AllDigits(a) && AllDigits(b) && |b| == 2 && CheckUserId(a + "-" + b)
    ensures ParseNat(a + b) % 97 == 1
  {
    AcceptedCode(a, b);
    ParseTwoMore(a, b);
    CodeCongruent(ParseNat(a));
  }

  /** A digit string with a dash at one place. */
  predicate Dashed(s: string, at: nat) {
    at < |s| && s[at] == '-' && forall i :: 0 <= i < |s| && i != at ==> IsDigit(s[i])
  }

  /** The position of a character once the dash is taken out. */
  function Undashed(i: nat, at: nat): nat {
    if i > at then i - 1 else i
  }

  function WithoutDash(s: string, at: nat): (r: string)
    requires at < |s|
    ensures Dashed(s, at) ==> AllDigits(r)
  {
    s[..at] + s[at + 1..]
  }

  lemma DashParts(s: string, at: nat)
    requires Dashed(s, at)
    ensures AllDigits(s[..at]) && AllDigits(s[at + 1..]) && s == s[..at] + "-" + s[at + 1..]
  {}

  /** An accepted id with two code digits, read without its dash. */
  lemma {:induction false} AcceptedDashed(s: string, at: nat)
    requires Dashed(s, at) && |s| == at + 3 && CheckUserId(s)
    ensures ParseNat(WithoutDash(s, at)) % 97 == 1
  {
    DashParts(s, at);
    AcceptedIsCongruent(s[..at], s[at + 1..]);
  }

  /** Every id of type 2 is such a string: at least four digits, a dash and two digits. */
  lemma {:induction false} Type2IsDashed(id: nat)
    ensures var s := EncodeType2(id);
      |s| >= 7 && Dashed(s, |s| - 3) && CheckUserId(s) && ParseNat(WithoutDash(s, |s| - 3)) == 100 * id + Type2Code(id)
  {
    var a, b := Format(id, 4), Format(Type2Code(id), 2);
    CodeLengths(id);
    EncodedAccepted(id);
    ParseFormat(id, 4);
    ParseFormat(Type2Code(id), 2);
    assert EncodeType2(id) == a + "-" + b && WithoutDash(a + "-" + b, |a|) == a + b;
    ParseTwoMore(a, b);
  }

  /** No change of a single digit of a valid type-2 id goes undetected. */
  lemma {:induction false} Type2DetectsChange(s: string, at: nat, i: nat, c: char)
    requires CheckUserId(s) && Dashed(s, at) && |s| == at + 3
    requires i < |s| && i != at && IsDigit(c) && c != s[i]
    ensures !CheckUserId(s[i := c])
  {
    ChangedNumber(s, at, i, c);
    Detected(s, s[i := c], at, DigitValue(c) - DigitValue(s[i]), at + 1 - Undashed(i, at));
  }

  /** Whatever moves the number by a shifted non-multiple of 97 is detected. */
  lemma {:induction false} Detected(s: string, s': string, at: nat, x: int, k: nat)
    requires Dashed(s, at) && Dashed(s', at) && |s| == |s'| == at + 3 && CheckUserId(s)
    requires -97 < x < 97 && x != 0
    requires ParseNat(WithoutDash(s', at)) - ParseNat(WithoutDash(s, at)) == Shifted(x, k)
    ensures !CheckUserId(s')
  {
    if CheckUserId(s') {
      AcceptedDashed(s, at);
      AcceptedDashed(s', at);
      ShiftedResidue(ParseNat(WithoutDash(s, at)), ParseNat(WithoutDash(s', at)), x, k);
    }
  }

  lemma {:induction false} ShiftedResidue(a: int, b: int, x: int, k: nat)
    requires -97 < x < 97 && x != 0 && b - a == Shifted(x, k) && a % 97 == 1
    ensures b % 97 != 1
  {
    NotMultipleOf97(x, k);
    if b % 97 == 1 {
      SameResidue(b, a);
    }
  }

  lemma ChangedNumber(s: string, at: nat, i: nat, c: char)
    requires Dashed(s, at) && |s| == at + 3 && i < |s| && i != at && IsDigit(c)
    ensures Dashed(s[i := c], at)
    ensures ParseNat(WithoutDash(s[i := c], at)) - ParseNat(WithoutDash(s, at))
            == Shifted(DigitValue(c) - DigitValue(s[i]), at + 1 - Undashed(i, at))
  {
    var t, j := WithoutDash(s, at), Undashed(i, at);
    assert WithoutDash(s[i := c], at) == t[j := c] && t[j] == s[i];
    ParseChanged(t, j, c);
  }

  /** No swap of two different neighbouring digits goes undetected, not even across the dash. */
  lemma {:induction false} Type2DetectsSwap(s: string, at: nat, i: nat, k: nat)
    requires CheckUserId(s) && Dashed(s, at) && |s| == at + 3
    requires i < k < |s| && i != at && k != at && Undashed(k, at) == Undashed(i, at) + 1 && s[i] != s[k]
    ensures !CheckUserId(s[i := s[k]][k := s[i]])
  {
    SwappedNumber(s, at, i, k);
    Detected(s, s[i := s[k]][k := s[i]], at, 9 * (DigitValue(s[k]) - DigitValue(s[i])), at + 1 - Undashed(k, at));
  }

  lemma SwappedNumber(s: string, at: nat, i: nat, k: nat)
    requires Dashed(s, at) && |s| == at + 3
    requires i < k < |s| && i != at && k != at && Undashed(k, at) == Undashed(i, at) + 1
    ensures
      var s' := s[i := s[k]][k := s[i]];
      && Dashed(s', at)
      && ParseNat(WithoutDash(s', at)) - ParseNat(WithoutDash(s, at))
         == Shifted(9 * (DigitValue(s[k]) - DigitValue(s[i])), at + 1 - Undashed(k, at))
  {
    ChangedNumber(s, at, i, s[k]);
    ChangedNumber(s[i := s[k]], at, k, s[i]);
    ShiftedLinear(DigitValue(s[k]) - DigitValue(s[i]), at + 1 - Undashed(k, at));
  }

  // ----- errors a type-1 id detects -----

  function CharSum(s: string): nat
    requires AllDigits(s)
  {
    if s == "" then 0 else CharSum(s[..|s| - 1]) + DigitValue(s[|s| - 1])
  }

  lemma {:induction false} CharSumDecimal(n: nat)
    ensures CharSum(Decimal(n)) == Sum(DigitsOf(n, 10))
  {
    if n >= 10 {
      CharSumDecimal(n / 10);
      assert Decimal(n)[..|Decimal(n)| - 1] == Decimal(n / 10);
      assert DigitsOf(n, 10)[1..] == DigitsOf(n / 10, 10);
    } else {
      assert Decimal(n)[..0] == "" && [n][1..] == [];
    }
  }

  lemma {:induction false} CharSumPadded(s: string, width: nat)
    requires AllDigits(s)
    ensures CharSum(Padded(s, width)) == CharSum(s)
    decreases width - |s|
  {
    if |s| < width {
      CharSumPadded("0" + s, width);
      CharSumZero(s);
    }
  }

  lemma {:induction false} CharSumZero(s: string)
    requires AllDigits(s)
    ensures CharSum("0" + s) == CharSum(s)
  {
    var t := "0" + s;
    if s == "" {
      assert t[..0] == "";
    } else {
      CharSumZero(s[..|s| - 1]);
      assert t[..|t| - 1] == "0" + s[..|s| - 1];
    }
  }

  lemma {:induction false} CharSumChanged(s: string, i: nat, c: char)
    requires AllDigits(s) && i < |s| && IsDigit(c)
    ensures CharSum(s[i := c]) == CharSum(s) + DigitValue(c) - DigitValue(s[i])
  {
    var t := s[i := c];
    if i == |s| - 1 {
      assert t[..|t| - 1] == s[..|s| - 1];
    } else {
      assert t[..|t| - 1] == s[..|s| - 1][i := c];
      CharSumChanged(s[..|s| - 1], i, c);
    }
  }

  lemma {:induction false} Type1Check(a: string, b: string)
    requires AllDigits(a) && AllDigits(b) && |b| == 1
    ensures CheckUserId(a + "-" + b) <==> a != "" && a == Format(ParseNat(a), 4) && b == Decimal(Type1Code(ParseNat(a)))
  {
    SplitEncoded(a, b);
    if a != "" {
      var n := ParseNat(a);
      CodeLengths(n);
      SplitEncoded(Format(n, 4), Decimal(Type1Code(n)));
    }
  }

  lemma {:induction false} Type1CodeIsSum(a: string)
    requires AllDigits(a) && a == Format(ParseNat(a), 4)
    ensures Type1Code(ParseNat(a)) == CharSum(a) % 10
  {
    CharSumDecimal(ParseNat(a));
    CharSumPadded(Decimal(ParseNat(a)), 4);
  }

  /** The accepted ids with one code digit: a formatted number and its digit sum. */
  lemma {:induction false} Type1AcceptedIff(a: string, b: string)
    requires AllDigits(a) && AllDigits(b) && |b| == 1
    ensures CheckUserId(a + "-" + b) <==>
            |a| >= 4 && (|a| > 4 ==> a[0] != '0') && DigitValue(b[0]) == CharSum(a) % 10
  {
    Type1Check(a, b);
    FormatCanonical(a, 4);
    if a == Format(ParseNat(a), 4) {
      Type1CodeIsSum(a);
      assert Decimal(Type1Code(ParseNat(a))) == [DigitChar(Type1Code(ParseNat(a)))];
    }
  }

  /** No change of a single digit of a valid type-1 id goes undetected. */
  lemma {:induction false} Type1DetectsChange(s: string, at: nat, i: nat, c: char)
    requires CheckUserId(s) && Dashed(s, at) && |s| == at + 2
    requires i < |s| && i != at && IsDigit(c) && c != s[i]
    ensures !CheckUserId(s[i := c])
  {
    var s' := s[i := c];
    DashParts(s, at);
    DashParts(s', at);
    var a, b, a', b' := s[..at], s[at + 1..], s'[..at], s'[at + 1..];
    if i < at {
      assert a' == a[i := c] && b' == b;
      DetectedInNumber(a, b, i, c);
    } else {
      assert a' == a;
      DetectedInCode(a, b, b');
    }
  }

  lemma LastDigitMoves(x: int, v: int, w: int)
    requires 0 <= v < 10 && 0 <= w < 10 && v != w
    ensures x % 10 != (x - v + w) % 10
  {
  }

  lemma {:induction false} SumMoves(a: string, i: nat, c: char)
    requires AllDigits(a) && i < |a| && IsDigit(c) && c != a[i]
    ensures AllDigits(a[i := c]) && CharSum(a[i := c]) % 10 != CharSum(a) % 10
  {
    CharSumChanged(a, i, c);
    LastDigitMoves(CharSum(a), DigitValue(a[i]), DigitValue(c));
  }

  lemma {:induction false} DetectedInNumber(a: string, b: string, i: nat, c: char)
    requires AllDigits(a) && AllDigits(b) && |b| == 1 && CheckUserId(a + "-" + b)
    requires i < |a| && IsDigit(c) && c != a[i]
    ensures !CheckUserId(a[i := c] + "-" + b)
  {
    SumMoves(a, i, c);
    Type1AcceptedIff(a, b);
    Type1AcceptedIff(a[i := c], b);
  }

  lemma {:induction false} DetectedInCode(a: string, b: string, b': string)
    requires AllDigits(a) && AllDigits(b) && AllDigits(b') && |b| == |b'| == 1
    requires CheckUserId(a + "-" + b) && b[0] != b'[0]
    ensures !CheckUserId(a + "-" + b')
  {
    Type1AcceptedIff(a, b);
    Type1AcceptedIff(a, b');
  }

  lemma {:induction false} SwappedSum(a: string, i: nat)
    requires AllDigits(a) && i + 1 < |a|
    ensures var a' := a[i := a[i + 1]][i + 1 := a[i]]; AllDigits(a') && CharSum(a') == CharSum(a)
  {
    CharSumChanged(a, i, a[i + 1]);
    CharSumChanged(a[i := a[i + 1]], i + 1, a[i]);
  }

  /** Swapping neighbouring digits of the number is detected only if it spoils the leading digit. */
  lemma {:induction false} Type1MissesSwap(s: string, at: nat, i: nat)
    requires CheckUserId(s) && Dashed(s, at) && |s| == at + 2 && i + 1 < at
    ensures var s' := s[i := s[i + 1]][i + 1 := s[i]];
            CheckUserId(s') <==> (at > 4 ==> s'[0] != '0')
  {
    var s' := s[i := s[i + 1]][i + 1 := s[i]];
    var a, b := s[..at], s[at + 1..];
    DashParts(s, at);
    DashParts(s', at);
    assert s'[..at] == a[i := a[i + 1]][i + 1 := a[i]] && s'[at + 1..] == b;
    SwappedSum(a, i);
    Type1AcceptedIff(a, b);
    Type1AcceptedIff(s'[..at], b);
  }
}
