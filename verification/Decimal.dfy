/** Decimal text: what Rust's integer formatting writes and its integer parsing reads. */
module Decimal {
  import opened Wrappers

  function Digit(d: nat): char
    requires d < 10
  {
    ('0' as int + d) as char
  }

  predicate IsDigit(c: char) {
    '0' <= c <= '9'
  }

  function DigitValue(c: char): nat
    requires IsDigit(c)
  {
    c as int - '0' as int
  }

  lemma DigitTable(d: nat)
    requires d < 10
    ensures Digit(d) == "0123456789"[d] && IsDigit(Digit(d)) && DigitValue(Digit(d)) == d
  {
  }

  /** `to_string` of an unsigned integer. */
  function Print(n: nat): string
  {
    if n < 10 then [Digit(n)] else Print(n / 10) + [Digit(n % 10)]
  }

  /** Left-to-right accumulation; the first non-digit or the first value above `max` fails. */
  function ParseDigits(s: string, max: nat): Option<nat>
  {
    if s == "" then Some(0)
    else
      match ParseDigits(s[..|s| - 1], max)
      case None => None
      case Some(high) =>
        var c := s[|s| - 1];
        if IsDigit(c) && high * 10 + DigitValue(c) <= max
        then Some(high * 10 + DigitValue(c))
        else None
  }

  /** `str::parse` for an unsigned type whose largest value is `max`: one leading '+' is allowed. */
  function Parse(s: string, max: nat): Option<nat>
  {
    if s == "" || s == "+" || s == "-" then None
    else if s[0] == '+' then ParseDigits(s[1..], max)
    else ParseDigits(s, max)
  }

  /** The usual notation: the last digit is the remainder by ten, and one-digit numbers are their digit. */
  lemma PrintExample()
    ensures Print(0) == "0" && Print(30303) == "30303"
  {
    assert Print(3030) == "3030" by {
      assert Print(303) == "303" by {
        assert Print(30) == "30";
      }
    }
  }

  lemma {:induction false} PrintedDigits(n: nat, max: nat)
    ensures |Print(n)| > 0 && IsDigit(Print(n)[0])
    ensures ParseDigits(Print(n), max) == if n <= max then Some(n) else None
  {
    var s := Print(n);
    if n < 10 {
      assert s[..|s| - 1] == "";
    } else {
      PrintedDigits(n / 10, max);
      assert s[..|s| - 1] == Print(n / 10);
    }
  }

  /** Printed numbers are read back, and rejected exactly when they do not fit the type. */
  lemma ParseOfPrint(n: nat, max: nat)
    ensures Parse(Print(n), max) == if n <= max then Some(n) else None
  {
    PrintedDigits(n, max);
  }

  /** Whatever the text, a number that is read fits the type. */
  lemma {:induction false} ParseStaysBelow(s: string, max: nat)
    ensures ParseDigits(s, max).Some? ==> ParseDigits(s, max).value <= max
    ensures Parse(s, max).Some? ==> Parse(s, max).value <= max
  {
    if s != "" {
      ParseStaysBelow(s[..|s| - 1], max);
      if s[0] == '+' && |s| > 1 {
        ParseStaysBelow(s[1..], max);
      }
    }
  }

  function Zeros(k: nat): (s: string)
    ensures |s| == k && forall i :: 0 <= i < k ==> s[i] == '0'
  {
    seq(k, _ => '0')
  }

  /** The text is that number as it is printed, after any zeros and perhaps a plus sign before them. */
  ghost predicate Denotes(s: string, n: nat) {
    exists k: nat :: s == Zeros(k) + Print(n) || s == "+" + (Zeros(k) + Print(n))
  }

  lemma {:induction false} DigitsOfPrinted(k: nat, n: nat, max: nat)
    ensures ParseDigits(Zeros(k) + Print(n), max) == if n <= max then Some(n) else None
    decreases n, k
  {
    var s := Zeros(k) + Print(n);
    if n >= 10 {
      DigitsOfPrinted(k, n / 10, max);
      assert s[..|s| - 1] == Zeros(k) + Print(n / 10);
    } else if k > 0 {
      DigitsOfPrinted(k - 1, 0, max);
      assert s[..|s| - 1] == Zeros(k - 1) + Print(0);
    } else {
      assert s[..|s| - 1] == "";
    }
  }

  lemma {:induction false} ParsedDigits(s: string, max: nat) returns (k: nat)
    requires s != "" && ParseDigits(s, max).Some?
    ensures s == Zeros(k) + Print(ParseDigits(s, max).value)
  {
    var past, c := s[..|s| - 1], s[|s| - 1];
    if past == "" {
      k := 0;
    } else {
      k := ParsedDigits(past, max);
      if ParseDigits(past, max).value == 0 {
        k := k + 1;
        assert past == Zeros(k);
      }
    }
  }

  /** A text that starts with a digit is read as its digits, with a plus sign before it or not. */
  lemma ParsedAsDigits(digits: string, max: nat)
    requires digits != "" && IsDigit(digits[0])
    ensures Parse(digits, max) == ParseDigits(digits, max) == Parse("+" + digits, max)
  {
    var signed := "+" + digits;
    assert |signed| > 1 && signed[0] == '+' && signed[1..] == digits;
  }

  lemma DenotedIsParsed(s: string, max: nat, n: nat)
    requires Denotes(s, n)
    ensures Parse(s, max) == if n <= max then Some(n) else None
  {
    var k: nat :| s == Zeros(k) + Print(n) || s == "+" + (Zeros(k) + Print(n));
    PrintedDigits(n, max);
    DigitsOfPrinted(k, n, max);
    ParsedAsDigits(Zeros(k) + Print(n), max);
  }

  lemma ParsedIsDenoted(s: string, max: nat)
    requires Parse(s, max).Some?
    ensures Denotes(s, Parse(s, max).value)
  {
    if s[0] == '+' {
      var k := ParsedDigits(s[1..], max);
      assert s == "+" + s[1..];
    } else {
      var k := ParsedDigits(s, max);
    }
  }

  /** A text is read as a number exactly when it denotes it and the number fits the type. */
  lemma ParseExactly(s: string, max: nat, n: nat)
    ensures Parse(s, max) == Some(n) <==> Denotes(s, n) && n <= max
  {
    if Denotes(s, n) {
      DenotedIsParsed(s, max, n);
    }
    if Parse(s, max) == Some(n) {
      ParsedIsDenoted(s, max);
      DenotedIsParsed(s, max, n);
    }
  }

  function Pow10(w: nat): nat
    ensures Pow10(w) > 0
  {
    if w == 0 then 1 else 10 * Pow10(w - 1)
  }

  /** Decimal text zero-padded to `w` digits. */
  function Padded(w: nat, n: nat): (s: string)
    requires n < Pow10(w)
    ensures |s| == w && forall i :: 0 <= i < w ==> IsDigit(s[i])
  {
    if w == 0 then "" else Padded(w - 1, n / 10) + [Digit(n % 10)]
  }

  lemma PaddedStep(w: nat, n: nat)
    requires w > 0 && n < Pow10(w)
    ensures n / 10 < Pow10(w - 1) && Padded(w, n) == Padded(w - 1, n / 10) + [Digit(n % 10)]
  {
  }

  lemma TwoDigits(n: nat)
    requires n < 100
    ensures n < Pow10(2) && Padded(2, n) == [Digit(n / 10), Digit(n % 10)]
  {
    assert Pow10(1) == 10 * Pow10(0) && Pow10(2) == 10 * Pow10(1);
    PaddedStep(2, n);
    PaddedStep(1, n / 10);
    assert n / 10 % 10 == n / 10;
  }

  lemma FourDigits(n: nat)
    requires n < 10000
    ensures n < Pow10(4)
    ensures Padded(4, n) == [Digit(n / 1000), Digit(n / 100 % 10), Digit(n / 10 % 10), Digit(n % 10)]
  {
    var a, b := n / 10, n / 100;
    assert b == a / 10 && n / 1000 == b / 10 && b < 100;
    TwoDigits(b);
    assert Pow10(3) == 10 * Pow10(2) && Pow10(4) == 10 * Pow10(3) && Pow10(2) == 100;
    PaddedStep(4, n);
    PaddedStep(3, a);
  }

  /** Padded texts of two different numbers first differ at a digit that orders them the same way. */
  lemma {:induction false} PaddedDiffer(w: nat, a: nat, b: nat) returns (i: nat)
    requires a < b < Pow10(w)
    ensures i < w && Padded(w, a)[..i] == Padded(w, b)[..i] && Padded(w, a)[i] < Padded(w, b)[i]
  {
    if a / 10 < b / 10 {
      i := PaddedDiffer(w - 1, a / 10, b / 10);
      assert Padded(w, a)[..i] == Padded(w - 1, a / 10)[..i];
      assert Padded(w, b)[..i] == Padded(w - 1, b / 10)[..i];
    } else {
      i := w - 1;
    }
  }

  /** Dividing by a thousand cuts off the last three digits of a padded text. */
  lemma PaddedThousands(w: nat, n: nat)
    requires w >= 3 && n < Pow10(w)
    ensures n / 1000 < Pow10(w - 3)
    ensures Padded(w, n)[..w - 3] == Padded(w - 3, n / 1000)
    ensures n % 1000 == 0 ==> forall i :: w - 3 <= i < w ==> Padded(w, n)[i] == '0'
  {
    var n1, n2, n3 := n / 10, n / 100, n / 1000;
    assert n2 == n1 / 10 && n3 == n2 / 10;
    assert Pow10(w) == 10 * Pow10(w - 1) && Pow10(w - 1) == 10 * Pow10(w - 2) && Pow10(w - 2) == 10 * Pow10(w - 3);
    assert Padded(w, n) == Padded(w - 1, n1) + [Digit(n % 10)];
    assert Padded(w - 1, n1) == Padded(w - 2, n2) + [Digit(n1 % 10)];
    assert Padded(w - 2, n2) == Padded(w - 3, n3) + [Digit(n2 % 10)];
  }
}
