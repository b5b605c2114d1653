/** Numerals as the display prints them, and their reading back. */
module Numerals {
  import opened Terminal

  const MINUS: Char := 45

  /** '0'..'9', then 'a'..'f'. */
  function DigitChar(d: nat): Char
    requires d < 16
  {
    if d < 10 then 48 + d else 97 + d - 10
  }

  function DigitValue(c: Char): int {
    if 48 <= c <= 57 then c - 48 else if 97 <= c <= 102 then c - 97 + 10 else -1
  }

  /** The two number bases the display prints in. */
  predicate IsBase(base: nat) {
    base == 10 || base == 16
  }

  function Quot(n: nat, base: nat): nat
    requires IsBase(base)
  {
    if base == 10 then n / 10 else n / 16
  }

  function Rem(n: nat, base: nat): nat
    requires IsBase(base)
  {
    if base == 10 then n % 10 else n % 16
  }

  /** The numeral of `n`, most significant digit first; nothing for 0. */
  function Digits(n: nat, base: nat): seq<Char>
    requires IsBase(base)
    decreases n
  {
    if n == 0 then [] else Digits(Quot(n, base), base) + [DigitChar(Rem(n, base))]
  }

  /** What the unsigned printers emit. */
  function Unsigned(n: nat, base: nat): seq<Char>
    requires IsBase(base)
  {
    if n == 0 then [DigitChar(0)] else Digits(n, base)
  }

  /** What `kprint_num` emits. */
  function Signed(n: int): seq<Char> {
    if n < 0 then [MINUS] + Unsigned(-n, 10) else Unsigned(n, 10)
  }

  predicate IsNumeral(s: seq<Char>, base: nat) {
    forall c :: c in s ==> 0 <= DigitValue(c) < base
  }

  /** Horner's rule. */
  function Value(s: seq<Char>, base: nat): int
    decreases |s|
  {
    if s == [] then 0 else Value(s[..|s| - 1], base) * base + DigitValue(s[|s| - 1])
  }

  function ParseSigned(s: seq<Char>): int {
    if s != [] && s[0] == MINUS then -Value(s[1..], 10) else Value(s, 10)
  }

  function Pow(base: nat, k: nat): nat {
    if k == 0 then 1 else base * Pow(base, k - 1)
  }

  lemma ValueSnoc(s: seq<Char>, c: Char, base: nat)
    ensures Value(s + [c], base) == Value(s, base) * base + DigitValue(c)
  {
    assert (s + [c])[..|s|] == s;
  }

  lemma QuotRem(n: nat, base: nat)
    requires IsBase(base)
    ensures n == Quot(n, base) * base + Rem(n, base) && Rem(n, base) < base
    ensures n > 0 ==> Quot(n, base) < n && (Quot(n, base) == 0 ==> Rem(n, base) > 0)
  {
  }

  lemma {:induction false} DigitsParse(n: nat, base: nat)
    requires IsBase(base)
    ensures IsNumeral(Digits(n, base), base) && Value(Digits(n, base), base) == n
    decreases n
  {
    if n > 0 {
      QuotRem(n, base);
      DigitsParse(Quot(n, base), base);
      ValueSnoc(Digits(Quot(n, base), base), DigitChar(Rem(n, base)), base);
      assert DigitValue(DigitChar(Rem(n, base))) == Rem(n, base);
    }
  }

  lemma {:induction false} LeadingDigit(n: nat, base: nat)
    requires IsBase(base) && n > 0
    ensures Digits(n, base) != [] && DigitValue(Digits(n, base)[0]) > 0
    decreases n
  {
    QuotRem(n, base);
    if Quot(n, base) > 0 {
      LeadingDigit(Quot(n, base), base);
    }
  }

  lemma DigitsStep(n: nat, base: nat, d: nat, q: nat)
    requires IsBase(base) && n > 0 && d == Rem(n, base) && q == Quot(n, base)
    ensures q < n && d < base && Digits(n, base) == Digits(q, base) + [DigitChar(d)]
  {
  }

  /** A number below base^k has at most k digits, so the digit buffers never overflow. */
  lemma {:induction false} DigitsFit(n: nat, base: nat, k: nat)
    requires IsBase(base) && n < Pow(base, k)
    ensures |Digits(n, base)| <= k
    decreases k
  {
    if n > 0 {
      QuotRem(n, base);
      assert Quot(n, base) < Pow(base, k - 1);
      DigitsFit(Quot(n, base), base, k - 1);
    }
  }

  lemma WordDigits(n: nat)
    requires n < 0x1_0000_0000
    ensures |Digits(n, 10)| <= 10 && |Digits(n, 16)| <= 8
  {
    assert Pow(10, 5) == 100000;
    assert Pow(10, 10) == 10000000000;
    assert Pow(16, 4) == 65536;
    assert Pow(16, 8) == 0x1_0000_0000;
    DigitsFit(n, 10, 10);
    DigitsFit(n, 16, 8);
  }

  /** The unsigned printers emit digits that read back as the number, with no leading zero. */
  lemma UnsignedParses(n: nat, base: nat)
    requires IsBase(base)
    ensures var s := Unsigned(n, base);
            && s != [] && IsNumeral(s, base) && Value(s, base) == n
            && (n > 0 ==> DigitValue(s[0]) > 0) && (n == 0 ==> |s| == 1)
  {
    DigitsParse(n, base);
    if n == 0 {
      assert Unsigned(n, base)[..0] == [];
    } else {
      LeadingDigit(n, base);
    }
  }

  lemma MinusFirst(s: seq<Char>)
    ensures ParseSigned([MINUS] + s) == -Value(s, 10)
  {
    assert ([MINUS] + s)[1..] == s;
  }

  /** The digit 0, or decimal digits that do not start with 0. */
  predicate IsDecimal(s: seq<Char>) {
    && (s == [48] || (s != [] && 49 <= s[0] <= 57))
    && forall k :: 0 <= k < |s| ==> 48 <= s[k] <= 57
  }

  lemma UnsignedShape(n: nat)
    ensures IsDecimal(Unsigned(n, 10)) && ParseSigned(Unsigned(n, 10)) == Value(Unsigned(n, 10), 10) == n
  {
    UnsignedParses(n, 10);
    var s := Unsigned(n, 10);
    forall k | 0 <= k < |s| ensures 48 <= s[k] <= 57 {
      assert s[k] in s;
    }
  }

  /** The signed printer emits a numeral that reads back as the number, for every number: a minus sign for the
      negative ones, then decimal digits, with no 0 in front of others. */
  lemma SignedParses(n: int)
    ensures ParseSigned(Signed(n)) == n
    ensures var s := Signed(n); if n < 0 then s != [] && s[0] == 45 && IsDecimal(s[1..]) else IsDecimal(s)
  {
    if n < 0 {
      UnsignedShape(-n);
      MinusFirst(Unsigned(-n, 10));
      assert Signed(n)[1..] == Unsigned(-n, 10);
    } else {
      UnsignedShape(n);
    }
  }
}
