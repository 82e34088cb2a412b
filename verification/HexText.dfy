/** Numbers as text. */
module HexText {
  function HexDigit(d: nat): char
    requires d < 16
  {
    "0123456789abcdef"[d]
  }

  /** Hexadecimal without leading zeros: `%x`, or `hex(n)[2:]`. */
  function Hex(n: nat): (s: string)
    ensures s != [] && (forall c | c in s :: IsHexDigit(c)) && '/' !in s
  {
    (if n < 16 then [] else Hex(n / 16)) + [HexDigit(n % 16)]
  }

  predicate IsHexDigit(c: char) {
    '0' <= c <= '9' || 'a' <= c <= 'f' || 'A' <= c <= 'F'
  }

  function DigitValue(c: char): (d: int)
    ensures IsHexDigit(c) ==> 0 <= d < 16
  {
    if '0' <= c <= '9' then c as int - '0' as int
    else if 'a' <= c <= 'f' then c as int - 'a' as int + 10
    else c as int - 'A' as int + 10
  }

  /** The number that a string of digits denotes in a base. */
  function NumberIn(base: nat, s: string): int {
    if s == [] then 0 else base * NumberIn(base, s[..|s| - 1]) + DigitValue(s[|s| - 1])
  }

  lemma {:induction false} NumberNonNegative(base: nat, s: string)
    requires forall c | c in s :: IsHexDigit(c)
    ensures NumberIn(base, s) >= 0
  {
    if s != [] {
      NumberNonNegative(base, s[..|s| - 1]);
      assert s[|s| - 1] in s;
    }
  }

  /** Printing a number in hexadecimal loses nothing. */
  lemma {:induction false} HexRoundTrip(n: nat)
    ensures NumberIn(16, Hex(n)) == n
  {
    var s := Hex(n);
    assert DigitValue(HexDigit(n % 16)) == n % 16;
    if n < 16 {
      assert s[..|s| - 1] == [];
    } else {
      assert s[..|s| - 1] == Hex(n / 16);
      HexRoundTrip(n / 16);
    }
  }

  function Upper(c: char): char {
    if 'a' <= c <= 'z' then ((c as int - 'a' as int) + 'A' as int) as char else c
  }

  function UpperAll(s: string): string {
    seq(|s|, i requires 0 <= i < |s| => Upper(s[i]))
  }

  /** Capital digits denote the same number. */
  lemma {:induction false} UpperKeepsNumber(s: string)
    requires forall c | c in s :: IsHexDigit(c)
    ensures NumberIn(16, UpperAll(s)) == NumberIn(16, s)
  {
    if s != [] {
      var front := s[..|s| - 1];
      UpperKeepsNumber(front);
      assert UpperAll(s)[..|s| - 1] == UpperAll(front);
      assert s[|s| - 1] in s;
    }
  }

  lemma UpperDigits(s: string)
    requires forall c | c in s :: IsHexDigit(c)
    ensures forall c | c in UpperAll(s) :: '0' <= c <= '9' || 'A' <= c <= 'F'
  {
    forall i | 0 <= i < |s| ensures '0' <= UpperAll(s)[i] <= '9' || 'A' <= UpperAll(s)[i] <= 'F' {
      assert s[i] in s;
    }
  }

  function ZeroFill(s: string, width: nat): string
    decreases width - |s|
  {
    if |s| >= width then s else ZeroFill("0" + s, width)
  }

  lemma {:induction false} LeadingZero(s: string)
    ensures NumberIn(16, "0" + s) == NumberIn(16, s)
  {
    if s == [] {
      assert ("0" + s)[..0] == [] && NumberIn(16, "0" + s) == 16 * NumberIn(16, []) + DigitValue('0');
    } else {
      assert ("0" + s)[..|s|] == "0" + s[..|s| - 1];
      LeadingZero(s[..|s| - 1]);
    }
  }

  lemma {:induction false} ZeroFillKeepsNumber(s: string, width: nat)
    requires forall c | c in s :: IsHexDigit(c)
    ensures NumberIn(16, ZeroFill(s, width)) == NumberIn(16, s)
    ensures forall c | c in ZeroFill(s, width) :: IsHexDigit(c)
    ensures |ZeroFill(s, width)| == if |s| < width then width else |s|
    decreases width - |s|
  {
    if |s| < width {
      LeadingZero(s);
      ZeroFillKeepsNumber("0" + s, width);
    }
  }
}
