/** Reading unsigned numbers as `str::parse` does for `u32` and `u64`, against their decimal texts. */
module Numerals {
  import opened Common

  predicate IsDigit(c: char) {
    '0' <= c <= '9'
  }

  function Digits(s: string, value: nat): Option<nat> {
    if s == [] then Some(value)
    else if IsDigit(s[0]) then Digits(s[1..], 10 * value + (s[0] as nat - '0' as nat))
    else None
  }

  /** An unsigned number in decimal, a plus sign allowed, no larger than `max`. */
  function Unsigned(s: string, max: nat): (n: Option<nat>)
    ensures n.Some? ==> n.value <= max
  {
    var digits := if s != [] && s[0] == '+' then s[1..] else s;
    var value := Digits(digits, 0);
    if digits == [] || value.None? || value.value > max then None else value
  }

  /** The decimal text of a number. */
  function Decimal(n: nat): (s: string)
    ensures s != []
  {
    if n < 10 then ["0123456789"[n]] else Decimal(n / 10) + ["0123456789"[n % 10]]
  }

  function Zeros(n: nat): string {
    seq(n, _ => '0')
  }

  /** A text for `n`: perhaps a plus sign, perhaps leading zeros, and its decimal text. */
  ghost predicate Denotes(s: string, n: nat) {
    exists zeros: nat :: s == Zeros(zeros) + Decimal(n) || s == "+" + (Zeros(zeros) + Decimal(n))
  }

  lemma DigitIs(d: nat)
    requires d < 10
    ensures IsDigit("0123456789"[d]) && "0123456789"[d] as nat - '0' as nat == d
  {
  }

  lemma DigitOf(c: char)
    requires IsDigit(c)
    ensures "0123456789"[c as nat - '0' as nat] == c
  {
  }

  lemma {:induction false} DigitsSnoc(s: string, c: char, value: nat)
    ensures Digits(s + [c], value) ==
      match Digits(s, value)
      case Some(n) => if IsDigit(c) then Some(10 * n + (c as nat - '0' as nat)) else None
      case None => None
  {
    if s == [] {
      assert ([] + [c])[1..] == [];
    } else {
      assert (s + [c])[0] == s[0] && (s + [c])[1..] == s[1..] + [c];
      if IsDigit(s[0]) { DigitsSnoc(s[1..], c, 10 * value + (s[0] as nat - '0' as nat)); }
    }
  }

  lemma {:induction false} DecimalReads(zeros: nat, n: nat)
    ensures Digits(Zeros(zeros) + Decimal(n), 0) == Some(n)
    decreases n
  {
    var last := "0123456789"[n % 10];
    DigitIs(n % 10);
    if n < 10 {
      ZerosRead(zeros);
      DigitsSnoc(Zeros(zeros), last, 0);
    } else {
      DecimalReads(zeros, n / 10);
      DigitsSnoc(Zeros(zeros) + Decimal(n / 10), last, 0);
      Assoc(Zeros(zeros), Decimal(n / 10), [last]);
    }
  }

  lemma {:induction false} ZerosRead(n: nat)
    ensures Digits(Zeros(n), 0) == Some(0)
  {
    if n > 0 {
      assert Zeros(n)[1..] == Zeros(n - 1);
      ZerosRead(n - 1);
    }
  }

  lemma OneDigit(c: char)
    requires IsDigit(c)
    ensures Decimal(c as nat - '0' as nat) == [c]
  {
    DigitOf(c);
  }

  lemma OneMoreDigit(before: nat, n: nat, c: char) returns (zeros: nat)
    requires IsDigit(c)
    ensures (Zeros(before) + Decimal(n)) + [c] == Zeros(zeros) + Decimal(10 * n + (c as nat - '0' as nat))
  {
    var d := c as nat - '0' as nat;
    if n == 0 {
      zeros := before + 1;
      OneDigit(c);
      assert Decimal(0) == ['0'] && Zeros(before) + ['0'] == Zeros(zeros);
    } else {
      zeros := before;
      DigitOf(c);
      assert (10 * n + d) / 10 == n && (10 * n + d) % 10 == d;
      assert Decimal(10 * n + d) == Decimal(n) + [c];
      Assoc(Zeros(before), Decimal(n), [c]);
    }
  }

  /** A text that reads as a number ends in a digit, and so does what stands before it. */
  lemma FrontReads(s: string, n: nat) returns (m: nat)
    requires s != [] && Digits(s, 0) == Some(n)
    ensures var c := s[|s| - 1];
      IsDigit(c) && Digits(s[..|s| - 1], 0) == Some(m) && n == 10 * m + (c as nat - '0' as nat)
  {
    var front, c := s[..|s| - 1], s[|s| - 1];
    assert s == front + [c];
    DigitsSnoc(front, c, 0);
    m := Digits(front, 0).value;
  }

  /** Whatever reads as a number is its decimal text behind some zeros. */
  lemma {:induction false} DigitsAreDecimal(s: string, n: nat) returns (zeros: nat)
    requires s != [] && Digits(s, 0) == Some(n)
    ensures s == Zeros(zeros) + Decimal(n)
    decreases |s|
  {
    var m := FrontReads(s, n);
    if |s| == 1 {
      zeros := 0;
      OneDigit(s[0]);
    } else {
      var before := DigitsAreDecimal(s[..|s| - 1], m);
      zeros := OneMoreDigit(before, m, s[|s| - 1]);
      assert s == s[..|s| - 1] + [s[|s| - 1]];
    }
  }

  /** A text reads as `n` exactly if it denotes `n` and `n` fits; any other text reads as no number. */
  lemma UnsignedIff(s: string, max: nat, n: nat)
    ensures Unsigned(s, max) == Some(n) <==> n <= max && Denotes(s, n)
  {
    var digits := if s != [] && s[0] == '+' then s[1..] else s;
    if Unsigned(s, max) == Some(n) {
      var zeros := DigitsAreDecimal(digits, n);
      if digits != s { assert s == "+" + digits; }
    }
    if zeros: nat :| s == Zeros(zeros) + Decimal(n) || s == "+" + (Zeros(zeros) + Decimal(n)) {
      DecimalReads(zeros, n);
      var plain := Zeros(zeros) + Decimal(n);
      FirstIsDigit(plain, n);
      if s != plain { assert s[1..] == plain; }
    }
  }

  lemma FirstIsDigit(s: string, n: nat)
    requires s != [] && Digits(s, 0) == Some(n)
    ensures s[0] != '+'
  {
  }
}
