/** What the number parsers make of any numeral a file may hold: blanks before it, a sign,
    a base prefix, leading zeros, digits of either case and text after it.  The characters
    are written out here, so that these laws fix the tables and bases of module Numbers. */
module NumberTexts {
  import opened Text
  import opened Numbers
  import opened Values

  // ------------------------------------------------------------ numerals

  datatype Sign = NoSign | Plus | Minus

  datatype Form = Bare | Octal | Hex(capital: bool)

  datatype Numeral = Numeral(blanks: string, sign: Sign, form: Form, zeros: nat, upper: bool, n: nat, rest: string)

  const LOWER := "0123456789abcdef"
  const UPPER := "0123456789ABCDEF"

  /** The digits of n, without leading zeros. */
  function Spell(n: nat, radix: nat, digits: string): string
    requires 2 <= radix <= 16 && |digits| == 16
    decreases n
  {
    if n < radix then [digits[n]] else Spell(n / radix, radix, digits) + [digits[n % radix]]
  }

  function Zeros(k: nat): string {
    if k == 0 then "" else "0" + Zeros(k - 1)
  }

  function SignText(s: Sign): string {
    match s case NoSign => "" case Plus => "+" case Minus => "-"
  }

  function PrefixText(f: Form): string {
    match f case Bare => "" case Octal => "0" case Hex(capital) => if capital then "0X" else "0x"
  }

  /** What the digits of a numeral stand for when it is read in a base. */
  function Radix(f: Form, base: nat): nat {
    match f case Bare => (if base == 0 then 10 else base) case Octal => 8 case Hex(_) => 16
  }

  function DigitsText(x: Numeral, base: nat): string
    requires base == 0 || base == 10 || base == 16
  {
    Zeros(x.zeros) + Spell(x.n, Radix(x.form, base), if x.upper then UPPER else LOWER)
  }

  function NumeralText(x: Numeral, base: nat): string
    requires base == 0 || base == 10 || base == 16
  {
    x.blanks + (SignText(x.sign) + (PrefixText(x.form) + (DigitsText(x, base) + x.rest)))
  }

  ghost predicate OnlySpaces(s: string) {
    forall c | c in s :: c == ' ' || c == '\t' || c == '\n' || c == 11 as char || c == 12 as char || c == '\r'
  }

  predicate IsLetterOrDigit(c: char) {
    '0' <= c <= '9' || 'a' <= c <= 'z' || 'A' <= c <= 'Z'
  }

  /** A numeral for a base: base 0 takes a leading zero as octal, base 10 knows no prefix and
      base 16 takes leading zeros with or without one. */
  ghost predicate IsNumeral(x: Numeral, base: nat) {
    && OnlySpaces(x.blanks)
    && (x.rest != "" ==> !IsLetterOrDigit(x.rest[0]))
    && (base == 0 || base == 10 || base == 16)
    && (base == 0 && x.form.Bare? ==> x.zeros == 0)
    && (x.form.Octal? ==> base == 0)
    && (x.form.Hex? ==> base == 0 || base == 16)
  }

  // ------------------------------------------------------------ reading digits

  lemma DigitChars(d: nat)
    requires d < 16
    ensures DigitOf(LOWER[d]) == d && DigitOf(UPPER[d]) == d
    ensures IsLetterOrDigit(LOWER[d]) && IsLetterOrDigit(UPPER[d])
  {
  }

  lemma {:induction false} ReadSpelled(n: nat, radix: nat, digits: string)
    requires 2 <= radix <= 16 && (digits == LOWER || digits == UPPER)
    ensures Digits(Spell(n, radix, digits), radix) && Spell(n, radix, digits) != ""
    ensures ReadDigits(Spell(n, radix, digits), radix, 0) == n
    decreases n
  {
    if n < radix {
      DigitChars(n);
      assert Spell(n, radix, digits)[1..] == "";
    } else {
      Quotient(n, radix);
      ReadSpelled(n / radix, radix, digits);
      ReadOneMore(Spell(n / radix, radix, digits), n % radix, radix, digits);
    }
  }

  lemma ReadOneMore(s: string, d: nat, radix: nat, digits: string)
    requires d < radix <= 16 && (digits == LOWER || digits == UPPER) && Digits(s, radix)
    ensures Digits(s + [digits[d]], radix)
    ensures ReadDigits(s + [digits[d]], radix, 0) == ReadDigits(s, radix, 0) * radix + d
  {
    DigitChars(d);
    ReadSnoc(s, digits[d], radix, 0);
  }

  lemma Quotient(n: nat, radix: nat)
    requires 2 <= radix <= n
    ensures 0 < n / radix < n && n == n / radix * radix + n % radix
  {
  }

  lemma {:induction false} ReadZeros(k: nat, s: string, radix: nat)
    requires 2 <= radix <= 16 && Digits(s, radix)
    ensures Digits(Zeros(k) + s, radix)
    ensures ReadDigits(Zeros(k) + s, radix, 0) == ReadDigits(s, radix, 0)
  {
    if k == 0 {
      assert Zeros(k) + s == s;
    } else {
      ReadZeros(k - 1, s, radix);
      var t := Zeros(k) + s;
      assert t == "0" + (Zeros(k - 1) + s);
      assert t[1..] == Zeros(k - 1) + s && DigitOf(t[0]) == 0;
    }
  }

  /** Reading stops at the first character that is no digit. */
  lemma {:induction false} ReadStops(s: string, rest: string, radix: nat, before: nat)
    requires Digits(s, radix) && radix <= 16 && (rest != "" ==> !IsLetterOrDigit(rest[0]))
    ensures ReadDigits(s + rest, radix, before) == ReadDigits(s, radix, before)
  {
    if s == "" {
      assert s + rest == rest;
    } else {
      assert (s + rest)[1..] == s[1..] + rest;
      ReadStops(s[1..], rest, radix, before * radix + DigitOf(s[0]));
    }
  }

  lemma ReadDigitsText(x: Numeral, base: nat)
    requires IsNumeral(x, base)
    ensures var (s, radix) := (DigitsText(x, base), Radix(x.form, base));
      && s != "" && Digits(s, radix)
      && ReadDigits(s + x.rest, radix, 0) == x.n
  {
    var (radix, digits) := (Radix(x.form, base), if x.upper then UPPER else LOWER);
    ReadSpelled(x.n, radix, digits);
    ReadZeros(x.zeros, Spell(x.n, radix, digits), radix);
    ReadStops(DigitsText(x, base), x.rest, radix, 0);
  }

  /** A bare base-0 numeral starts with 0 only if it is 0. */
  lemma {:induction false} SpellStarts(n: nat, radix: nat, digits: string)
    requires 2 <= radix <= 16 && (digits == LOWER || digits == UPPER)
    ensures Spell(n, radix, digits) != "" && (Spell(n, radix, digits)[0] == '0' <==> n == 0)
    ensures n < radix ==> |Spell(n, radix, digits)| == 1
    decreases n
  {
    if n < radix {
      ZeroDigit(n);
    } else {
      Quotient(n, radix);
      SpellStarts(n / radix, radix, digits);
    }
  }

  lemma ZeroDigit(d: nat)
    requires d < 16
    ensures LOWER[d] == '0' <==> d == 0
    ensures UPPER[d] == '0' <==> d == 0
  {
  }

  /** Base 0 without a prefix is decimal. */
  lemma ReadBareZeroBase(x: Numeral)
    requires IsNumeral(x, 0) && x.form.Bare?
    ensures ReadUnsigned(DigitsText(x, 0) + x.rest, 0) == x.n
  {
    var digits := if x.upper then UPPER else LOWER;
    var spelled := Spell(x.n, 10, digits);
    SpellStarts(x.n, 10, digits);
    ReadDigitsText(x, 0);
    assert DigitsText(x, 0) == spelled;
    var t := spelled + x.rest;
    assert t[0] == spelled[0];
    if x.n == 0 {
      assert t[1..] == x.rest;
      assert |t| >= 2 ==> t[1] == x.rest[0];
      assert ReadDigits(t, 8, 0) == ReadDigits(x.rest, 8, 0);
    }
  }

  lemma ReadHex(x: Numeral, base: nat)
    requires IsNumeral(x, base) && x.form.Hex?
    ensures ReadUnsigned(PrefixText(x.form) + (DigitsText(x, base) + x.rest), base) == x.n
  {
    ReadDigitsText(x, base);
    var (s, d) := (PrefixText(x.form) + (DigitsText(x, base) + x.rest), DigitsText(x, base));
    assert s[2..] == d + x.rest;
    assert s[2] == d[0] && DigitOf(d[0]) < 16;
  }

  lemma ReadOctal(x: Numeral)
    requires IsNumeral(x, 0) && x.form.Octal?
    ensures ReadUnsigned(PrefixText(x.form) + (DigitsText(x, 0) + x.rest), 0) == x.n
  {
    ReadDigitsText(x, 0);
    var d := DigitsText(x, 0);
    var s := "0" + (d + x.rest);
    assert s[1..] == d + x.rest && s[0] == '0';
    assert s[1] == d[0] && DigitOf(d[0]) < 8;
    assert ReadDigits(s, 8, 0) == ReadDigits(s[1..], 8, 0);
  }

  /** Bare digits in base 10 or 16; the text after them begins no prefix. */
  lemma ReadBare(x: Numeral, base: nat)
    requires IsNumeral(x, base) && x.form.Bare? && base != 0
    ensures ReadUnsigned(DigitsText(x, base) + x.rest, base) == x.n
  {
    ReadDigitsText(x, base);
    var (d, s) := (DigitsText(x, base), DigitsText(x, base) + x.rest);
    if |s| >= 2 {
      if |d| >= 2 {
        assert s[1] == d[1] && DigitOf(d[1]) < base;
      } else {
        assert s[1] == x.rest[0];
      }
    }
  }

  lemma ReadMagnitude(x: Numeral, base: nat)
    requires IsNumeral(x, base)
    ensures ReadUnsigned(PrefixText(x.form) + (DigitsText(x, base) + x.rest), base) == x.n
  {
    match x.form
    case Bare =>
      assert PrefixText(x.form) + (DigitsText(x, base) + x.rest) == DigitsText(x, base) + x.rest;
      if base == 0 { ReadBareZeroBase(x); } else { ReadBare(x, base); }
    case Octal => ReadOctal(x);
    case Hex(_) => ReadHex(x, base);
  }

  lemma {:induction false} SpacesAreSkipped(blanks: string, t: string)
    requires OnlySpaces(blanks) && t != "" && !IsSpace(t[0])
    ensures SkipSpaces(blanks + t) == t
  {
    if blanks == "" {
      assert blanks + t == t;
    } else {
      assert blanks[0] in blanks && (blanks + t)[1..] == blanks[1..] + t;
      assert forall c | c in blanks[1..] :: c in blanks;
      SpacesAreSkipped(blanks[1..], t);
    }
  }

  /** The sign and the digits of a numeral are what is read. */
  lemma ReadNumeral(x: Numeral, base: nat)
    requires IsNumeral(x, base)
    ensures ReadSigned(NumeralText(x, base), base) == Signed(x.sign == Minus, x.n)
  {
    ReadMagnitude(x, base);
    BodyStarts(x, base);
    ReadSignAndBody(x.blanks, x.sign, PrefixText(x.form) + (DigitsText(x, base) + x.rest), base);
  }

  lemma BodyStarts(x: Numeral, base: nat)
    requires IsNumeral(x, base)
    ensures var body := PrefixText(x.form) + (DigitsText(x, base) + x.rest); body != "" && DigitOf(body[0]) < 16
  {
    ReadDigitsText(x, base);
    var d := DigitsText(x, base);
    assert DigitOf(d[0]) < Radix(x.form, base);
    match x.form
    case Bare => assert PrefixText(x.form) + (d + x.rest) == d + x.rest;
    case Octal =>
    case Hex(_) =>
  }

  lemma ReadSignAndBody(blanks: string, sign: Sign, body: string, base: nat)
    requires OnlySpaces(blanks) && body != "" && DigitOf(body[0]) < 16
    ensures ReadSigned(blanks + (SignText(sign) + body), base) == Signed(sign == Minus, ReadUnsigned(body, base))
  {
    var t := SignText(sign) + body;
    if sign == NoSign {
      assert t == body;
    } else {
      assert t[1..] == body;
    }
    SpacesAreSkipped(blanks, t);
  }

  // ------------------------------------------------------------ what comes out

  /** The unsigned 64-bit result: too large a number gives the largest, a minus sign wraps. */
  function Unsigned64(x: Numeral): nat {
    if x.n > 18446744073709551615 then 18446744073709551615
    else if x.sign == Minus && x.n != 0 then 18446744073709551616 - x.n
    else x.n
  }

  function LowOctet(x: Numeral): nat {
    Unsigned64(x) % 256
  }

  /** The signed 64-bit result stops at either end. */
  function Signed64(x: Numeral): int {
    if x.sign == Minus then (if x.n > 9223372036854775808 then -9223372036854775808 else 0 - x.n)
    else if x.n > 9223372036854775807 then 9223372036854775807
    else x.n
  }

  lemma UnsignedOfNumeral(x: Numeral, base: nat)
    requires IsNumeral(x, base)
    ensures StrToU64(NumeralText(x, base), base) == Unsigned64(x)
  {
    ReadNumeral(x, base);
  }

  lemma SignedOfNumeral(x: Numeral, base: nat)
    requires IsNumeral(x, base)
    ensures StrToI64(NumeralText(x, base), base) == Signed64(x)
  {
    ReadNumeral(x, base);
  }

  // ------------------------------------------------------------ the typed parsers

  /** The octet a base-0 numeral gives an address: whatever its sign, prefix and size, the low
      eight bits. */
  lemma OctetOfNumeral(x: Numeral)
    requires IsNumeral(x, 0)
    ensures NumeralText(x, 0) != "" && Octet(NumeralText(x, 0)) == LowOctet(x)
  {
    UnsignedOfNumeral(x, 0);
    NumeralIsNoBlank(x, 0);
  }

  /** An address of four parts, the octet of the first one highest. */
  lemma IpOfFour(ws: seq<string>, gaps: seq<string>, os: seq<nat>, was: IpAddress)
    requires |ws| == |os| == 4 && |gaps| == 3 && Words(ws, ".") && Gaps(gaps, ".")
    requires forall i | 0 <= i < 4 :: Octet(ws[i]) == os[i]
    ensures IpOf(Join(ws, gaps), was) == (true, IpAddress(Quad(os), true))
  {
    SplitUndoesJoin(ws, gaps, ".");
    IpPrefixIs(ws, os);
    IpOfTokens(Join(ws, gaps), ws, was);
  }

  /** Four octets, the first one highest. */
  function Quad(os: seq<nat>): nat
    requires |os| == 4
  {
    os[0] * 16777216 + os[1] * 65536 + os[2] * 256 + os[3]
  }

  lemma IpPrefixIs(ws: seq<string>, os: seq<nat>)
    requires |ws| == |os| == 4 && forall i | 0 <= i < 4 :: Octet(ws[i]) == os[i]
    ensures IpPrefix(ws, 4) == Quad(os)
  {
    assert IpPrefix(ws, 1) == os[0] * 16777216;
    assert IpPrefix(ws, 2) == IpPrefix(ws, 1) + os[1] * 65536;
    assert IpPrefix(ws, 3) == IpPrefix(ws, 2) + os[2] * 256;
  }

  lemma IpOfTokens(s: string, ws: seq<string>, was: IpAddress)
    requires Split(s, ".") == ws && |ws| == 4
    ensures IpOf(s, was) == (true, IpAddress(IpPrefix(ws, 4), true))
  {
  }

  lemma NumeralIsNoBlank(x: Numeral, base: nat)
    requires IsNumeral(x, base)
    ensures NumeralText(x, base) != ""
  {
    ReadDigitsText(x, base);
  }

  /** The printed dotted quad of any four octets names them in order. */
  lemma DottedQuad(a: nat, b: nat, c: nat, d: nat)
    requires a < 256 && b < 256 && c < 256 && d < 256
    ensures IpText(a * 16777216 + b * 65536 + c * 256 + d) == Decimal(a) + "." + (Decimal(b) + "." + (Decimal(c) + "." + Decimal(d)))
  {
    OctetsOf(a, b, c, d);
    JoinOfFour(Decimal(a), Decimal(b), Decimal(c), Decimal(d), ".");
  }

  lemma OctetsOf(a: nat, b: nat, c: nat, d: nat)
    requires a < 256 && b < 256 && c < 256 && d < 256
    ensures var v := a * 16777216 + b * 65536 + c * 256 + d;
      v / 0x100_0000 % 256 == a && v / 0x1_0000 % 256 == b && v / 0x100 % 256 == c && v % 256 == d
  {
    var v := a * 16777216 + b * 65536 + c * 256 + d;
    assert v / 0x100 == a * 65536 + b * 256 + c;
    assert v / 0x1_0000 == a * 256 + b;
    assert v / 0x100_0000 == a;
  }

  /** A MAC address of six base-16 numerals: digits of either case, with or without 0x. */
  lemma MacOfNumerals(xs: seq<Numeral>, was: MacAddress)
    requires |xs| == 6 && forall i | 0 <= i < 6 :: IsNumeral(xs[i], 16) && NoneIn(NumeralText(xs[i], 16), ":")
    ensures var (ok, address) := MacOf(Join(NumeralTexts(xs, 16), [":", ":", ":", ":", ":"]), was);
      && ok && address.hasValue && |address.octets| == 6
      && forall i | 0 <= i < 6 :: address.octets[i] == LowOctet(xs[i])
  {
    var ws := NumeralTexts(xs, 16);
    forall i | 0 <= i < 6 ensures ws[i] != "" && NoneIn(ws[i], ":") && MacOctet(ws[i]) == LowOctet(xs[i]) {
      UnsignedOfNumeral(xs[i], 16);
      NumeralIsNoBlank(xs[i], 16);
    }
    SplitUndoesJoin(ws, [":", ":", ":", ":", ":"], ":");
  }

  function NumeralTexts(xs: seq<Numeral>, base: nat): (ws: seq<string>)
    requires base == 0 || base == 10 || base == 16
    ensures |ws| == |xs|
    ensures forall i | 0 <= i < |xs| :: ws[i] == NumeralText(xs[i], base)
  {
    seq(|xs|, i requires 0 <= i < |xs| => NumeralText(xs[i], base))
  }

  /** A date-time of six base-0 numerals: the low 32 bits of each, taken as signed. */
  lemma DatetimeOfNumerals(xs: seq<Numeral>, was: DateTime)
    requires |xs| == 6
    requires forall i | 0 <= i < 6 :: IsNumeral(xs[i], 0) && NoneIn(NumeralText(xs[i], 0), "-:T")
    ensures var ws := NumeralTexts(xs, 0);
      DatetimeOf(Join([Join(ws[..3], ["-", "-"]), Join(ws[3..], [":", ":"])], ["T"]), was) ==
        (true, DateTime(Low32(xs[0]), Low32(xs[1]), Low32(xs[2]), Low32(xs[3]), Low32(xs[4]), Low32(xs[5]), 0, Timespan(0, true), true))
  {
    var ws := NumeralTexts(xs, 0);
    forall i | 0 <= i < 6
      ensures ws[i] != "" && NoneIn(ws[i], "-") && NoneIn(ws[i], ":") && NoneIn(ws[i], "T") && UnsignedField(ws[i]) == Low32(xs[i])
    {
      UnsignedOfNumeral(xs[i], 0);
      NumeralIsNoBlank(xs[i], 0);
      assert forall c | c in "-" + ":" + "T" :: c in "-:T";
    }
    DatetimeOfParts(ws[..3], ws[3..], was);
  }

  function Low32(x: Numeral): int {
    var low := Unsigned64(x) % 4294967296;
    if low < 2147483648 then low else low - 4294967296
  }

  lemma DatetimeOfParts(date: seq<string>, time: seq<string>, was: DateTime)
    requires |date| == |time| == 3
    requires forall i | 0 <= i < 3 :: date[i] != "" && NoneIn(date[i], "-") && NoneIn(date[i], "T")
    requires forall i | 0 <= i < 3 :: time[i] != "" && NoneIn(time[i], ":") && NoneIn(time[i], "T")
    ensures DatetimeOf(Join([Join(date, ["-", "-"]), Join(time, [":", ":"])], ["T"]), was) ==
              (true, DateTime(UnsignedField(date[0]), UnsignedField(date[1]), UnsignedField(date[2]),
                              UnsignedField(time[0]), UnsignedField(time[1]), UnsignedField(time[2]), 0, Timespan(0, true), true))
  {
    var d, t := Join(date, ["-", "-"]), Join(time, [":", ":"]);
    JoinAvoids(date, ["-", "-"], "T");
    JoinAvoids(time, [":", ":"], "T");
    JoinEndsInWord(date, ["-", "-"], "-");
    JoinEndsInWord(time, [":", ":"], ":");
    SplitUndoesJoin([d, t], ["T"], "T");
    SplitUndoesJoin(date, ["-", "-"], "-");
    SplitUndoesJoin(time, [":", ":"], ":");
  }

  /** Microseconds are read in base 0 and stop at the ends of 64 bits. */
  lemma MicrosecondsOfNumeral(x: Numeral, was: Timespan)
    requires IsNumeral(x, 0)
    ensures MicrosecondsOf(NumeralText(x, 0), was) == (true, Timespan(Signed64(x), true))
  {
    SignedOfNumeral(x, 0);
  }

  /** An interval of three decimals, in which leading zeros mean nothing, is read as
      3600h + 60m + s seconds exactly when that is at most 2147. */
  lemma TimespanOfNumerals(h: Numeral, m: Numeral, s: Numeral, was: Timespan)
    requires forall x | x in {h, m, s} :: IsNumeral(x, 10) && x.sign != Minus && NoneIn(NumeralText(x, 10), ":")
    ensures var t := TimespanOf(Join([NumeralText(h, 10), NumeralText(m, 10), NumeralText(s, 10)], [":", ":"]), was).1;
      t.hasValue && (GetSeconds(t) == 3600 * h.n + 60 * m.n + s.n <==> 3600 * h.n + 60 * m.n + s.n <= 2147)
  {
    SignedOfNumeral(h, 10);
    SignedOfNumeral(m, 10);
    SignedOfNumeral(s, 10);
    NumeralIsNoBlank(h, 10);
    NumeralIsNoBlank(m, 10);
    NumeralIsNoBlank(s, 10);
    TimespanOfWords(NumeralText(h, 10), NumeralText(m, 10), NumeralText(s, 10), was);
    SecondsRead(Signed64(h), Signed64(m), Signed64(s), h.n, m.n, s.n);
  }

  /** The sums of the parser, on what was read for three numbers. */
  lemma SecondsRead(a: int, b: int, c: int, h: nat, m: nat, s: nat)
    requires h <= 2147 ==> a == h
    requires m <= 2147 ==> b == m
    requires s <= 2147 ==> c == s
    ensures var read := ToInt32(ToInt32(ToInt32(ToInt32(a) * 60 * 60) + ToInt32(b) * 60) + ToInt32(c));
      GetSeconds(Timespan(MicrosecondsOfInt(read), true)) == 3600 * h + 60 * m + s <==> 3600 * h + 60 * m + s <= 2147
  {
    var total := 3600 * h + 60 * m + s;
    SecondsAreFew(ToInt32(ToInt32(ToInt32(ToInt32(a) * 60 * 60) + ToInt32(b) * 60) + ToInt32(c)));
    if total <= 2147 {
      MicrosecondsBound(total);
    }
  }

  // ------------------------------------------------------------ texts of the wrong shape

  /** An address text is accepted exactly when it has four parts; if not, the target is only
      marked as having no value. */
  lemma IpParts(ws: seq<string>, gaps: seq<string>, was: IpAddress)
    requires |gaps| + 1 == |ws| && Words(ws, ".") && Gaps(gaps, ".")
    ensures var (ok, address) := IpOf(Join(ws, gaps), was);
      && (ok <==> |ws| == 4) && address.hasValue == ok && (!ok ==> address.value == was.value)
    ensures IpOf("", was) == (false, was)
  {
    SplitUndoesJoin(ws, gaps, ".");
  }

  lemma MacParts(ws: seq<string>, gaps: seq<string>, was: MacAddress)
    requires |gaps| + 1 == |ws| && Words(ws, ":") && Gaps(gaps, ":")
    ensures var (ok, address) := MacOf(Join(ws, gaps), was);
      && (ok <==> |ws| == 6) && address.hasValue == ok && (!ok ==> address.octets == was.octets)
    ensures MacOf("", was) == (false, was)
  {
    SplitUndoesJoin(ws, gaps, ":");
  }

  /** A date-time text of two parts is accepted exactly when both have three parts.  With a
      malformed date nothing is stored, with a malformed time the date is. */
  lemma DatetimeParts(date: seq<string>, dashes: seq<string>, time: seq<string>, colons: seq<string>, ts: string, was: DateTime)
    requires |dashes| + 1 == |date| && Words(date, "-") && Gaps(dashes, "-") && forall w | w in date :: NoneIn(w, "T")
    requires |colons| + 1 == |time| && Words(time, ":") && Gaps(colons, ":") && forall w | w in time :: NoneIn(w, "T")
    requires ts != "" && AllIn(ts, "T")
    ensures var (ok, d) := DatetimeOf(Join([Join(date, dashes), Join(time, colons)], [ts]), was);
      && (ok <==> |date| == 3 && |time| == 3)
      && d.hasValue == ok && d.tzOffset == Timespan(0, true)
      && (!ok ==> (d.hours, d.minutes, d.seconds, d.milliseconds) == (was.hours, was.minutes, was.seconds, was.milliseconds))
      && (d.year, d.month, d.day) ==
           if |date| == 3 then (UnsignedField(date[0]), UnsignedField(date[1]), UnsignedField(date[2])) else (was.year, was.month, was.day)
  {
    var d, t := Join(date, dashes), Join(time, colons);
    forall g | g in dashes ensures NoneIn(g, "T") { assert forall c | c in g :: c in "-"; }
    forall g | g in colons ensures NoneIn(g, "T") { assert forall c | c in g :: c in ":"; }
    JoinAvoids(date, dashes, "T");
    JoinAvoids(time, colons, "T");
    JoinEndsInWord(date, dashes, "-");
    JoinEndsInWord(time, colons, ":");
    SplitUndoesJoin([d, t], [ts], "T");
    SplitUndoesJoin(date, dashes, "-");
    SplitUndoesJoin(time, colons, ":");
  }

  /** A text without exactly one T between two parts stores nothing. */
  lemma DatetimeHalves(ws: seq<string>, ts: seq<string>, was: DateTime)
    requires |ts| + 1 == |ws| != 2 && Words(ws, "T") && Gaps(ts, "T")
    ensures DatetimeOf(Join(ws, ts), was) == (false, was.(hasValue := false, tzOffset := Timespan(0, true)))
  {
    SplitUndoesJoin(ws, ts, "T");
  }

  /** An interval is stored exactly when it has three parts, and success is never reported. */
  lemma TimespanParts(ws: seq<string>, gaps: seq<string>, was: Timespan)
    requires |gaps| + 1 == |ws| && Words(ws, ":") && Gaps(gaps, ":")
    ensures var (ok, t) := TimespanOf(Join(ws, gaps), was); !ok && (|ws| == 3 ==> t.hasValue) && (|ws| != 3 ==> t == was)
  {
    SplitUndoesJoin(ws, gaps, ":");
  }

  /** Whole seconds are counted towards zero. */
  lemma SecondsAreTruncated(t: Timespan)
    ensures var s := GetSeconds(t);
      if t.microseconds >= 0 then 1000000 * s <= t.microseconds < 1000000 * (s + 1)
      else 1000000 * (s - 1) < t.microseconds <= 1000000 * s
  {
  }
}
