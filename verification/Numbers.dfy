/** Number reading as strtoull and its kin define it (section 7.20.1.4 of ISO/IEC 9899:1999,
    64-bit long), and number printing as the decimal and hexadecimal conversions of printf. */
module Numbers {

  const U64 := 0x1_0000_0000_0000_0000
  const U32 := 0x1_0000_0000
  const I64_MAX := 0x7fff_ffff_ffff_ffff

  predicate IsSpace(c: char) {
    c == ' ' || 9 <= c as int <= 13
  }

  /** The digit a character stands for; 99 when it is none. */
  function DigitOf(c: char): (d: nat)
    ensures d == 99 || d < 36
  {
    if '0' <= c <= '9' then c as int - '0' as int
    else if 'a' <= c <= 'z' then c as int - 'a' as int + 10
    else if 'A' <= c <= 'Z' then c as int - 'A' as int + 10
    else 99
  }

  function SkipSpaces(s: string): string {
    if s != "" && IsSpace(s[0]) then SkipSpaces(s[1..]) else s
  }

  /** The digits s starts with, read in a base on top of what was read before. */
  function ReadDigits(s: string, base: nat, before: nat): nat {
    if s != "" && DigitOf(s[0]) < base then ReadDigits(s[1..], base, before * base + DigitOf(s[0])) else before
  }

  /** An optional 0x, or with base 0 an octal 0. */
  function ReadUnsigned(s: string, base: nat): nat {
    if (base == 0 || base == 16) && |s| >= 3 && s[0] == '0' && (s[1] == 'x' || s[1] == 'X') && DigitOf(s[2]) < 16 then
      ReadDigits(s[2..], 16, 0)
    else if base == 0 then
      ReadDigits(s, if s != "" && s[0] == '0' then 8 else 10, 0)
    else
      ReadDigits(s, base, 0)
  }

  datatype Signed = Signed(negative: bool, magnitude: nat)

  function ReadSigned(s: string, base: nat): Signed {
    var t := SkipSpaces(s);
    if t != "" && t[0] == '-' then Signed(true, ReadUnsigned(t[1..], base))
    else if t != "" && t[0] == '+' then Signed(false, ReadUnsigned(t[1..], base))
    else Signed(false, ReadUnsigned(t, base))
  }

  /** strtoull and strtoul. */
  function StrToU64(s: string, base: nat): (n: nat)
    ensures n < U64
  {
    var v := ReadSigned(s, base);
    if v.magnitude >= U64 then U64 - 1
    else if v.negative && v.magnitude != 0 then U64 - v.magnitude
    else v.magnitude
  }

  /** strtoll and strtol. */
  function StrToI64(s: string, base: nat): (n: int)
    ensures -I64_MAX - 1 <= n <= I64_MAX
  {
    var v := ReadSigned(s, base);
    if v.negative then (if v.magnitude > I64_MAX + 1 then -I64_MAX - 1 else 0 - v.magnitude)
    else if v.magnitude > I64_MAX then I64_MAX
    else v.magnitude
  }

  /** Conversion of an integer to a signed 32-bit type that wraps around. */
  function ToInt32(n: int): (r: int)
    ensures -0x8000_0000 <= r < 0x8000_0000
    ensures -0x8000_0000 <= n < 0x8000_0000 ==> r == n
  {
    (n + 0x8000_0000) % U32 - 0x8000_0000
  }

  // ---------------------------------------------------------------- printing

  function DigitChar(d: nat): char
    requires d < 16
  {
    if d < 10 then ('0' as int + d) as char else ('a' as int + d - 10) as char
  }

  /** %u and %x. */
  function Print(n: nat, base: nat): (s: string)
    requires base == 10 || base == 16
    ensures s != ""
    decreases n
  {
    if n < base then [DigitChar(n)] else Print(n / base, base) + [DigitChar(n % base)]
  }

  function Decimal(n: nat): string {
    Print(n, 10)
  }

  /** %d for a signed value. */
  function DecimalInt(n: int): string {
    if n < 0 then "-" + Decimal(-n) else Decimal(n)
  }

  /** %02u and %02x. */
  function TwoDigits(n: nat, base: nat): string
    requires base == 10 || base == 16
  {
    if n < base then "0" + Print(n, base) else Print(n, base)
  }

  ghost predicate Digits(s: string, base: nat) {
    forall i | 0 <= i < |s| :: DigitOf(s[i]) < base
  }

  lemma DigitCharIsDigit(d: nat)
    requires d < 16
    ensures DigitOf(DigitChar(d)) == d
    ensures DigitChar(d) == '0' <==> d == 0
  {
  }

  lemma {:induction false} ReadSnoc(s: string, c: char, base: nat, before: nat)
    requires Digits(s, base) && DigitOf(c) < base
    ensures ReadDigits(s + [c], base, before) == ReadDigits(s, base, before) * base + DigitOf(c)
  {
    if s == "" {
      assert ([c])[1..] == "";
      assert s + [c] == [c];
    } else {
      assert (s + [c])[1..] == s[1..] + [c];
      ReadSnoc(s[1..], c, base, before * base + DigitOf(s[0]));
    }
  }

  /** Reading the digits of a printed number gives the number; it starts with 0 only if it is 0. */
  lemma {:induction false} ReadPrint(n: nat, base: nat)
    requires base == 10 || base == 16
    ensures Digits(Print(n, base), base)
    ensures ReadDigits(Print(n, base), base, 0) == n
    ensures Print(n, base)[0] == '0' <==> n == 0
  {
    DigitCharIsDigit(n % base);
    if n < base {
      assert Print(n, base)[1..] == "";
    } else {
      assert 0 < n / base < n && n == n / base * base + n % base by {
        if base == 10 { assert n == n / 10 * 10 + n % 10; } else { assert n == n / 16 * 16 + n % 16; }
      }
      ReadPrint(n / base, base);
      ReadSnoc(Print(n / base, base), DigitChar(n % base), base, 0);
    }
  }

  lemma OctetLength(n: nat)
    requires n < 256
    ensures 1 <= |Decimal(n)| <= 3
  {
    assert n / 10 / 10 < 10;
    assert |Print(n / 10 / 10, 10)| == 1;
    assert |Print(n / 10, 10)| <= 2;
  }

  lemma ReadUnsignedOfPrint(n: nat)
    ensures ReadUnsigned(Decimal(n), 0) == n
    ensures ReadUnsigned(Decimal(n), 10) == n
  {
    ReadPrint(n, 10);
    var s := Decimal(n);
    assert |s| >= 2 ==> DigitOf(s[1]) < 10;
    if n == 0 {
      assert s[1..] == "" && DigitOf(s[0]) == 0;
      assert ReadDigits(s, 8, 0) == ReadDigits(s[1..], 8, 0);
    }
  }

  lemma NoLeadingSign(n: nat, base: nat)
    requires base == 10 || base == 16
    ensures var s := Print(n, base); SkipSpaces(s) == s && s[0] != '-' && s[0] != '+'
  {
    ReadPrint(n, base);
    assert DigitOf(Print(n, base)[0]) < base;
  }

  /** Unpadded decimals survive base-0 reading, up to the 64-bit limit and no further. */
  lemma U64RoundTrip(n: nat)
    ensures StrToU64(Decimal(n), 0) == n <==> n < U64
  {
    ReadUnsignedOfPrint(n);
    NoLeadingSign(n, 10);
  }

  lemma I64RoundTrip(n: int)
    ensures StrToI64(DecimalInt(n), 0) == n <==> -I64_MAX - 1 <= n <= I64_MAX
    ensures StrToI64(DecimalInt(n), 10) == n <==> -I64_MAX - 1 <= n <= I64_MAX
  {
    var m := if n < 0 then -n else n;
    ReadUnsignedOfPrint(m);
    NoLeadingSign(m, 10);
    if n < 0 {
      var s := "-" + Decimal(m);
      assert s[1..] == Decimal(m) && SkipSpaces(s) == s;
    }
  }

  /** Two-digit decimals under base 0: 08 and 09 stop at the 8 or 9, everything else is kept. */
  lemma TwoDigitRoundTrip(n: nat)
    requires n < 100
    ensures StrToU64(TwoDigits(n, 10), 0) == (if n == 8 || n == 9 then 0 else n)
  {
    if n < 10 {
      var s := TwoDigits(n, 10);
      DigitCharIsDigit(n);
      var t := s[1..];
      assert s[0] == '0' && t == [DigitChar(n)] && t[1..] == "";
      assert SkipSpaces(s) == s;
      assert ReadDigits(s, 8, 0) == ReadDigits(t, 8, 0);
    } else {
      U64RoundTrip(n);
    }
  }

  /** Two-digit hexadecimal octets under base 16. */
  lemma HexOctetRoundTrip(n: nat)
    requires n < 256
    ensures StrToU64(TwoDigits(n, 16), 16) == n && |TwoDigits(n, 16)| == 2
    ensures Digits(TwoDigits(n, 16), 16)
  {
    ReadPrint(n, 16);
    NoLeadingSign(n, 16);
    var s := TwoDigits(n, 16);
    if n < 16 {
      assert s[1..] == Print(n, 16) && s[0] == '0';
      assert ReadDigits(s, 16, 0) == ReadDigits(s[1..], 16, 0);
    } else {
      assert n / 16 < 16;
    }
    assert SkipSpaces(s) == s;
  }

  /** Base 0 takes a 0x prefix as hexadecimal. */
  lemma HexPrefixRoundTrip(n: nat)
    ensures StrToU64("0x" + Print(n, 16), 0) == n <==> n < U64
  {
    ReadPrint(n, 16);
    var s := "0x" + Print(n, 16);
    assert s[2..] == Print(n, 16) && SkipSpaces(s) == s;
    assert DigitOf(s[2]) < 16;
  }
}
