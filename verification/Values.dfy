/** The value parsers of the C runtime, and the printers they are the inverses of. */
module Values {
  import opened Text
  import opened Strings
  import opened Numbers

  /** Microseconds in a signed 64-bit field. */
  datatype Timespan = Timespan(microseconds: int, hasValue: bool)

  /** The value is an unsigned 32-bit number. */
  datatype IpAddress = IpAddress(value: nat, hasValue: bool)

  datatype MacAddress = MacAddress(octets: seq<nat>, hasValue: bool)

  datatype DateTime = DateTime(year: int, month: int, day: int, hours: int, minutes: int, seconds: int,
                               milliseconds: int, tzOffset: Timespan, hasValue: bool)

  const MICROSECONDS_PER_SECOND := 1_000_000

  /** Integer division of C: towards zero. */
  function TruncDiv(a: int, b: int): int
    requires b > 0
  {
    if a < 0 then -(-a / b) else a / b
  }

  // ------------------------------------------------------------ tokens

  lemma DigitsAvoid(s: string, base: nat, d: string)
    requires Digits(s, base) && base <= 16
    requires forall c | c in d :: DigitOf(c) == 99 || DigitOf(c) >= 16
    ensures NoneIn(s, d)
  {
    forall c | c in s ensures c !in d {
      var i :| 0 <= i < |s| && s[i] == c;
    }
  }

  lemma DecimalWord(n: nat, d: string)
    requires forall c | c in d :: DigitOf(c) == 99 || DigitOf(c) >= 16
    ensures Decimal(n) != "" && NoneIn(Decimal(n), d)
  {
    ReadPrint(n, 10);
    DigitsAvoid(Decimal(n), 10, d);
  }

  // ---------------------------------------------------------------- IPv4

  /** The low octet of a number token. */
  function Octet(token: string): (o: nat)
    ensures o < 256
  {
    StrToU64(token, 0) % 256
  }

  /** 1 << (32 - 8 * k). */
  function Weight(k: nat): (w: nat)
    requires 1 <= k <= 4
    ensures w > 0
  {
    if k == 1 then 0x100_0000 else if k == 2 then 0x1_0000 else if k == 3 then 0x100 else 1
  }

  /** The address after k octets have been or-ed in, the first one highest.  As the lemma
      below says, the bits the next octet goes to are still zero: or-ing is adding. */
  function IpPrefix(tokens: seq<string>, k: nat): nat
    requires k <= |tokens| && k <= 4
  {
    if k == 0 then 0 else IpPrefix(tokens, k - 1) + Octet(tokens[k - 1]) * Weight(k)
  }

  lemma NextOctetIsClear(tokens: seq<string>, k: nat)
    requires k < |tokens| && k < 4
    ensures IpPrefix(tokens, k) / Weight(k + 1) % 256 == 0
    ensures IpPrefix(tokens, k) % Weight(k + 1) == 0
  {
    if k > 0 {
      var a, b, c := Octet(tokens[0]), if k > 1 then Octet(tokens[1]) else 0, if k > 2 then Octet(tokens[2]) else 0;
      FilledOctets(a, b, c);
      assert IpPrefix(tokens, 1) == a * 0x100_0000;
      assert k > 1 ==> IpPrefix(tokens, 2) == IpPrefix(tokens, 1) + b * 0x1_0000;
      assert k > 2 ==> IpPrefix(tokens, 3) == IpPrefix(tokens, 2) + c * 0x100;
    }
  }

  lemma FilledOctets(a: nat, b: nat, c: nat)
    ensures (a * 0x100_0000) / 0x1_0000 % 256 == 0 && (a * 0x100_0000) % 0x1_0000 == 0
    ensures (a * 0x100_0000 + b * 0x1_0000) / 0x100 % 256 == 0 && (a * 0x100_0000 + b * 0x1_0000) % 0x100 == 0
    ensures (a * 0x100_0000 + b * 0x1_0000 + c * 0x100) % 256 == 0
  {
    assert (a * 0x100_0000) / 0x1_0000 == a * 256;
    assert (a * 0x100_0000 + b * 0x1_0000) / 0x100 == (a * 256 + b) * 256;
  }

  /** nvipfix_parse_ip_address on an address that held `was`. */
  function IpOf(s: string, was: IpAddress): (bool, IpAddress) {
    var tokens := Split(s, ".");
    if tokens == [] then (false, was)
    else if |tokens| == 4 then (true, IpAddress(IpPrefix(tokens, 4), true))
    else (false, was.(hasValue := false))
  }

  method ParseIpAddress(s: string, was: IpAddress) returns (result: bool, address: IpAddress)
    requires IsText(s)
    ensures (result, address) == IpOf(s, was)
  {
    result, address := false, was;
    var tokens := StringSplit(s, ".");
    if tokens == null {
      return;
    }
    if tokens.count == 4 {
      var token: StringItem? := tokens.head;
      address := address.(value := 0);
      var index := 0;
      while token != null
        invariant 0 <= index <= 4
        invariant token == if index < 4 then tokens.items[index] else null
        invariant address.value == IpPrefix(tokens.Contents, index)
        decreases 4 - index
      {
        index := index + 1;
        address := address.(value := address.value + Octet(token.value) * Weight(index));
        token := token.next;
      }
      result := index == 4;
    }
    address := address.(hasValue := result);
  }

  /** The text of nvipfix_ip_address_to_string: shift and mask. */
  function IpText(v: nat): string {
    Join([Decimal(v / 0x100_0000 % 256), Decimal(v / 0x1_0000 % 256), Decimal(v / 0x100 % 256), Decimal(v % 256)], [".", ".", "."])
  }

  lemma PrintedOctet(n: nat)
    requires n < 256
    ensures Octet(Decimal(n)) == n
    ensures Decimal(n) != "" && NoneIn(Decimal(n), ".") && |Decimal(n)| <= 3
  {
    U64RoundTrip(n);
    DecimalWord(n, ".");
    OctetLength(n);
  }

  lemma IpPrefixOfFour(a: string, b: string, c: string, d: string)
    ensures IpPrefix([a, b, c, d], 4) == Octet(a) * 0x100_0000 + Octet(b) * 0x1_0000 + Octet(c) * 0x100 + Octet(d)
  {
    var ws := [a, b, c, d];
    assert IpPrefix(ws, 1) == Octet(a) * 0x100_0000;
    assert IpPrefix(ws, 2) == IpPrefix(ws, 1) + Octet(b) * 0x1_0000;
    assert IpPrefix(ws, 3) == IpPrefix(ws, 2) + Octet(c) * 0x100;
  }

  lemma JoinOfFour(a: string, b: string, c: string, d: string, gap: string)
    ensures Join([a, b, c, d], [gap, gap, gap]) == a + gap + (b + gap + (c + gap + d))
  {
    assert [a, b, c, d][1..] == [b, c, d] && [b, c, d][1..] == [c, d] && [c, d][1..] == [d];
    assert [gap, gap, gap][1..] == [gap, gap] && [gap, gap][1..] == [gap];
    assert Join([c, d], [gap]) == c + gap + d;
    assert Join([b, c, d], [gap, gap]) == b + gap + Join([c, d], [gap]);
  }

  /** Parsing the printed form of any of the 2^32 addresses gives it back, whatever the
      target held before; the text fits its 16-byte buffer. */
  lemma IpRoundTrip(v: nat, was: IpAddress)
    requires v < U32
    ensures IpOf(IpText(v), was) == (true, IpAddress(v, true))
    ensures |IpText(v)| < 16
  {
    IpOfOctets(v / 0x100_0000 % 256, v / 0x1_0000 % 256, v / 0x100 % 256, v % 256, was);
    OctetsRebuild(v);
  }

  lemma IpOfOctets(o1: nat, o2: nat, o3: nat, o4: nat, was: IpAddress)
    requires o1 < 256 && o2 < 256 && o3 < 256 && o4 < 256
    ensures var s := Join([Decimal(o1), Decimal(o2), Decimal(o3), Decimal(o4)], [".", ".", "."]);
      && |s| < 16
      && IpOf(s, was) == (true, IpAddress(o1 * 0x100_0000 + o2 * 0x1_0000 + o3 * 0x100 + o4, true))
  {
    PrintedOctet(o1);
    PrintedOctet(o2);
    PrintedOctet(o3);
    PrintedOctet(o4);
    IpOfWords(Decimal(o1), Decimal(o2), Decimal(o3), Decimal(o4), was);
  }

  lemma IpOfWords(a: string, b: string, c: string, d: string, was: IpAddress)
    requires a != "" && b != "" && c != "" && d != "" && |a| <= 3 && |b| <= 3 && |c| <= 3 && |d| <= 3
    requires NoneIn(a, ".") && NoneIn(b, ".") && NoneIn(c, ".") && NoneIn(d, ".")
    ensures var s := Join([a, b, c, d], [".", ".", "."]);
      && |s| < 16
      && IpOf(s, was) == (true, IpAddress(Octet(a) * 0x100_0000 + Octet(b) * 0x1_0000 + Octet(c) * 0x100 + Octet(d), true))
  {
    SplitUndoesJoin([a, b, c, d], [".", ".", "."], ".");
    IpPrefixOfFour(a, b, c, d);
    JoinOfFour(a, b, c, d, ".");
  }

  lemma OctetsRebuild(v: nat)
    requires v < U32
    ensures v / 0x100_0000 % 256 * 0x100_0000 + v / 0x1_0000 % 256 * 0x1_0000 + v / 0x100 % 256 * 0x100 + v % 256 == v
  {
    assert v / 0x100 == v / 0x1_0000 * 256 + v / 0x100 % 256;
    assert v / 0x1_0000 == v / 0x100_0000 * 256 + v / 0x1_0000 % 256;
    assert v / 0x100_0000 < 256;
  }

  // ---------------------------------------------------------------- MAC

  function MacOctet(token: string): (o: nat)
    ensures o < 256
  {
    StrToU64(token, 16) % 256
  }

  /** nvipfix_parse_mac_address on an address that held `was`. */
  function MacOf(s: string, was: MacAddress): (bool, MacAddress) {
    var tokens := Split(s, ":");
    if tokens == [] then (false, was)
    else if |tokens| == 6 then (true, MacAddress(seq(6, i requires 0 <= i < 6 => MacOctet(tokens[i])), true))
    else (false, was.(hasValue := false))
  }

  method ParseMacAddress(s: string, was: MacAddress) returns (result: bool, address: MacAddress)
    requires IsText(s) && |was.octets| == 6
    ensures (result, address) == MacOf(s, was)
  {
    result, address := false, was;
    var tokens := StringSplit(s, ":");
    if tokens == null {
      return;
    }
    if tokens.count == 6 {
      var token: StringItem? := tokens.head;
      var index := 0;
      while token != null
        invariant 0 <= index <= 6 && |address.octets| == 6
        invariant token == if index < 6 then tokens.items[index] else null
        invariant forall k | 0 <= k < index :: address.octets[k] == MacOctet(tokens.Contents[k])
        decreases 6 - index
      {
        address := address.(octets := address.octets[index := MacOctet(token.value)]);
        index := index + 1;
        token := token.next;
      }
      ghost var words := tokens.Contents;
      assert address.octets == seq(6, i requires 0 <= i < 6 => MacOctet(words[i]));
      result := index == 6;
    }
    address := address.(hasValue := result);
  }

  function MacText(octets: seq<nat>): string
    requires |octets| == 6 && forall i | 0 <= i < 6 :: octets[i] < 256
  {
    Join(seq(6, i requires 0 <= i < 6 => TwoDigits(octets[i], 16)), [":", ":", ":", ":", ":"])
  }

  /** Two-digit hexadecimal octets joined by colons parse back, for every address. */
  lemma MacRoundTrip(octets: seq<nat>, was: MacAddress)
    requires |octets| == 6 && forall i | 0 <= i < 6 :: octets[i] < 256
    ensures MacOf(MacText(octets), was) == (true, MacAddress(octets, true))
  {
    var ws := seq(6, i requires 0 <= i < 6 => TwoDigits(octets[i], 16));
    forall i | 0 <= i < 6 ensures ws[i] != "" && NoneIn(ws[i], ":") && MacOctet(ws[i]) == octets[i] {
      HexOctetRoundTrip(octets[i]);
      DigitsAvoid(TwoDigits(octets[i], 16), 16, ":");
    }
    assert Words(ws, ":");
    SplitUndoesJoin(ws, [":", ":", ":", ":", ":"], ":");
    assert octets == seq(6, i requires 0 <= i < 6 => MacOctet(ws[i]));
  }

  // ---------------------------------------------------------------- date-time

  /** (unsigned)strtoull, then stored in an int. */
  function UnsignedField(token: string): int {
    ToInt32(StrToU64(token, 0) % U32)
  }

  /** nvipfix_parse_datetime_iso8601 on a value that held `was`.  The date fields are already
      stored when the time turns out to be malformed. */
  function DatetimeOf(s: string, was: DateTime): (bool, DateTime) {
    var tokens := Split(s, "T");
    var dateTokens := if |tokens| == 2 then Split(tokens[0], "-") else [];
    var timeTokens := if |dateTokens| == 3 then Split(tokens[1], ":") else [];
    var dated := if |dateTokens| != 3 then was else
                   was.(year := UnsignedField(dateTokens[0]), month := UnsignedField(dateTokens[1]), day := UnsignedField(dateTokens[2]));
    var result := |timeTokens| == 3;
    var timed := if !result then dated else
                   dated.(hours := UnsignedField(timeTokens[0]), minutes := UnsignedField(timeTokens[1]),
                          seconds := UnsignedField(timeTokens[2]), milliseconds := 0);
    (result, timed.(hasValue := result, tzOffset := Timespan(0, true)))
  }

  lemma ThreeTokens(list: StringList)
    requires list.Valid() && list.count == 3
    ensures list.head.value == list.Contents[0] && list.tail.value == list.Contents[2]
    ensures list.head.next != null && list.head.next.value == list.Contents[1]
  {
  }

  method ParseDatetime(s: string, was: DateTime) returns (result: bool, datetime: DateTime)
    requires IsText(s)
    ensures (result, datetime) == DatetimeOf(s, was)
  {
    result, datetime := false, was;
    SplitIsText(s, "T");
    var tokens := StringSplit(s, "T");
    if tokens != null {
      if tokens.count == 2 {
        var dateTokens := StringSplit(tokens.head.value, "-");
        if dateTokens != null {
          if dateTokens.count == 3 {
            ThreeTokens(dateTokens);
            datetime := datetime.(year := UnsignedField(dateTokens.head.value));
            datetime := datetime.(month := UnsignedField(dateTokens.head.next.value));
            datetime := datetime.(day := UnsignedField(dateTokens.tail.value));
            var timeTokens := StringSplit(tokens.tail.value, ":");
            if timeTokens != null {
              if timeTokens.count == 3 {
                ThreeTokens(timeTokens);
                datetime := datetime.(hours := UnsignedField(timeTokens.head.value));
                datetime := datetime.(minutes := UnsignedField(timeTokens.head.next.value));
                datetime := datetime.(seconds := UnsignedField(timeTokens.tail.value), milliseconds := 0);
                result := true;
              }
            }
          }
        }
      }
    }
    datetime := datetime.(hasValue := result, tzOffset := Timespan(0, true));
  }

  /** Six printed fields as a date-time. */
  function DatetimeText(date: seq<string>, time: seq<string>): string
    requires |date| == |time| == 3
  {
    Join([Join(date, ["-", "-"]), Join(time, [":", ":"])], ["T"])
  }

  /** Text of numeric fields is taken apart into exactly those fields. */
  lemma DatetimeFields(date: seq<string>, time: seq<string>, was: DateTime)
    requires |date| == |time| == 3
    requires forall i | 0 <= i < 3 :: date[i] != "" && Digits(date[i], 10)
    requires forall i | 0 <= i < 3 :: time[i] != "" && Digits(time[i], 10)
    ensures DatetimeOf(DatetimeText(date, time), was) ==
              (true, DateTime(UnsignedField(date[0]), UnsignedField(date[1]), UnsignedField(date[2]),
                              UnsignedField(time[0]), UnsignedField(time[1]), UnsignedField(time[2]), 0, Timespan(0, true), true))
  {
    forall w | w in date ensures w != "" && NoneIn(w, "-") && NoneIn(w, "T") { DigitsAvoid(w, 10, "-"); DigitsAvoid(w, 10, "T"); }
    forall w | w in time ensures w != "" && NoneIn(w, ":") && NoneIn(w, "T") { DigitsAvoid(w, 10, ":"); DigitsAvoid(w, 10, "T"); }
    var d, t := Join(date, ["-", "-"]), Join(time, [":", ":"]);
    JoinAvoids(date, ["-", "-"], "T");
    JoinAvoids(time, [":", ":"], "T");
    JoinEndsInWord(date, ["-", "-"], "-");
    JoinEndsInWord(time, [":", ":"], ":");
    SplitUndoesJoin([d, t], ["T"], "T");
    SplitUndoesJoin(date, ["-", "-"], "-");
    SplitUndoesJoin(time, [":", ":"], ":");
  }

  lemma {:induction false} JoinAvoids(ws: seq<string>, gaps: seq<string>, d: string)
    requires |gaps| + 1 == |ws|
    requires (forall w | w in ws :: NoneIn(w, d)) && forall g | g in gaps :: NoneIn(g, d)
    ensures NoneIn(Join(ws, gaps), d)
  {
    assert ws[0] in ws;
    if |ws| > 1 {
      assert gaps[0] in gaps;
      JoinAvoids(ws[1..], gaps[1..], d);
    }
  }

  ghost predicate FitsInt(n: nat) {
    n < 0x8000_0000
  }

  lemma FieldRoundTrip(n: nat)
    ensures Decimal(n) != "" && Digits(Decimal(n), 10)
    ensures UnsignedField(Decimal(n)) == n <==> n < 0x8000_0000
  {
    ReadPrint(n, 10);
    U64RoundTrip(n);
  }

  lemma PaddedFieldRoundTrip(n: nat)
    requires n < 100
    ensures TwoDigits(n, 10) != "" && Digits(TwoDigits(n, 10), 10)
    ensures UnsignedField(TwoDigits(n, 10)) == Octalized(n)
  {
    ReadPrint(n, 10);
    TwoDigitRoundTrip(n);
  }

  /** Unpadded fields come back as printed exactly when all of them fit an int. */
  lemma DatetimeRoundTrip(year: nat, month: nat, day: nat, hours: nat, minutes: nat, seconds: nat, was: DateTime)
    ensures DatetimeOf(DatetimeText([Decimal(year), Decimal(month), Decimal(day)], [Decimal(hours), Decimal(minutes), Decimal(seconds)]), was)
         == (true, DateTime(year, month, day, hours, minutes, seconds, 0, Timespan(0, true), true))
         <==> FitsInt(year) && FitsInt(month) && FitsInt(day) && FitsInt(hours) && FitsInt(minutes) && FitsInt(seconds)
  {
    FieldRoundTrip(year);
    FieldRoundTrip(month);
    FieldRoundTrip(day);
    FieldRoundTrip(hours);
    FieldRoundTrip(minutes);
    FieldRoundTrip(seconds);
    DatetimeFields([Decimal(year), Decimal(month), Decimal(day)], [Decimal(hours), Decimal(minutes), Decimal(seconds)], was);
  }

  /** What base 0 makes of a two-digit field. */
  ghost function Octalized(n: nat): nat {
    if NotEightOrNine(n) then n else 0
  }

  ghost predicate NotEightOrNine(n: nat) {
    n != 8 && n != 9
  }

  lemma PaddedDatetime(year: nat, month: nat, day: nat, hours: nat, minutes: nat, seconds: nat, was: DateTime)
    requires 1000 <= year <= 9999
    requires month < 100 && day < 100 && hours < 100 && minutes < 100 && seconds < 100
    ensures DatetimeOf(DatetimeText([Decimal(year), TwoDigits(month, 10), TwoDigits(day, 10)],
                                    [TwoDigits(hours, 10), TwoDigits(minutes, 10), TwoDigits(seconds, 10)]), was)
         == (true, DateTime(year, Octalized(month), Octalized(day), Octalized(hours), Octalized(minutes), Octalized(seconds),
                            0, Timespan(0, true), true))
  {
    FieldRoundTrip(year);
    PaddedFieldRoundTrip(month);
    PaddedFieldRoundTrip(day);
    PaddedFieldRoundTrip(hours);
    PaddedFieldRoundTrip(minutes);
    PaddedFieldRoundTrip(seconds);
    DatetimeFields([Decimal(year), TwoDigits(month, 10), TwoDigits(day, 10)],
                   [TwoDigits(hours, 10), TwoDigits(minutes, 10), TwoDigits(seconds, 10)], was);
  }

  /** The usual form with a four-digit year and two-digit fields comes back as printed
      exactly when no field is printed as 08 or 09: a leading 0 means octal. */
  lemma PaddedDatetimeRoundTrip(year: nat, month: nat, day: nat, hours: nat, minutes: nat, seconds: nat, was: DateTime)
    requires 1000 <= year <= 9999
    requires month < 100 && day < 100 && hours < 100 && minutes < 100 && seconds < 100
    ensures DatetimeOf(DatetimeText([Decimal(year), TwoDigits(month, 10), TwoDigits(day, 10)],
                                    [TwoDigits(hours, 10), TwoDigits(minutes, 10), TwoDigits(seconds, 10)]), was)
         == (true, DateTime(year, month, day, hours, minutes, seconds, 0, Timespan(0, true), true))
         <==> NotEightOrNine(month) && NotEightOrNine(day) && NotEightOrNine(hours) && NotEightOrNine(minutes) && NotEightOrNine(seconds)
  {
    PaddedDatetime(year, month, day, hours, minutes, seconds, was);
  }

  // ---------------------------------------------------------------- time spans

  function Atoi(s: string): int {
    ToInt32(StrToI64(s, 10))
  }

  /** The seconds macro works in int before it widens to 64 bits; an int that overflows wraps. */
  function MicrosecondsOfInt(seconds: int): int {
    ToInt32(seconds * 1000 * 1000)
  }

  /** nvipfix_parse_timespan on a value that held `was`: it never reports success. */
  function TimespanOf(s: string, was: Timespan): (bool, Timespan) {
    var tokens := Split(s, ":");
    if |tokens| == 3 then
      var seconds := ToInt32(ToInt32(ToInt32(Atoi(tokens[0]) * 60 * 60) + Atoi(tokens[1]) * 60) + Atoi(tokens[2]));
      (false, Timespan(MicrosecondsOfInt(seconds), true))
    else (false, was)
  }

  method ParseTimespan(s: string, was: Timespan) returns (result: bool, timespan: Timespan)
    requires IsText(s)
    ensures (result, timespan) == TimespanOf(s, was)
  {
    result, timespan := false, was;
    var tokens := StringSplit(s, ":");
    if tokens != null {
      if tokens.count == 3 {
        var seconds := ToInt32(Atoi(tokens.head.value) * 60 * 60);
        assert tokens.head.next == tokens.items[1] && tokens.items[1].next == tokens.items[2];
        seconds := ToInt32(seconds + Atoi(tokens.head.next.value) * 60);
        seconds := ToInt32(seconds + Atoi(tokens.head.next.next.value));
        timespan := Timespan(MicrosecondsOfInt(seconds), true);
      }
    }
  }

  function GetSeconds(t: Timespan): int {
    TruncDiv(t.microseconds, MICROSECONDS_PER_SECOND)
  }

  function TimespanText(h: nat, m: nat, s: nat): string {
    Join([Decimal(h), Decimal(m), Decimal(s)], [":", ":"])
  }

  /** An interval h:m:s is read as 3600h + 60m + s seconds exactly when that is at most 2147
      seconds: beyond, the microseconds overflow an int. */
  lemma TimespanBound(h: nat, m: nat, s: nat, was: Timespan)
    ensures TimespanOf(TimespanText(h, m, s), was).1.hasValue
    ensures GetSeconds(TimespanOf(TimespanText(h, m, s), was).1) == 3600 * h + 60 * m + s
            <==> 3600 * h + 60 * m + s <= 2147
  {
    DecimalWord(h, ":");
    DecimalWord(m, ":");
    DecimalWord(s, ":");
    TimespanOfWords(Decimal(h), Decimal(m), Decimal(s), was);
    var total := 3600 * h + 60 * m + s;
    if total <= 2147 {
      I64RoundTrip(h);
      I64RoundTrip(m);
      I64RoundTrip(s);
      WrapOnce(h * 60 * 60, m * 60);
      WrapOnce(h * 60 * 60 + m * 60, s);
    }
    var read := ToInt32(ToInt32(ToInt32(Atoi(Decimal(h)) * 60 * 60) + Atoi(Decimal(m)) * 60) + Atoi(Decimal(s)));
    SecondsAreFew(read);
    if total <= 2147 {
      assert read == total;
      MicrosecondsBound(total);
    }
  }

  /** Whatever was read, no more than 2147 seconds come out. */
  lemma SecondsAreFew(seconds: int)
    ensures -2147 <= GetSeconds(Timespan(MicrosecondsOfInt(seconds), true)) <= 2147
  {
  }

  lemma TimespanOfWords(a: string, b: string, c: string, was: Timespan)
    requires a != "" && NoneIn(a, ":") && b != "" && NoneIn(b, ":") && c != "" && NoneIn(c, ":")
    ensures TimespanOf(Join([a, b, c], [":", ":"]), was).1 ==
              Timespan(MicrosecondsOfInt(ToInt32(ToInt32(ToInt32(Atoi(a) * 60 * 60) + Atoi(b) * 60) + Atoi(c))), true)
  {
    SplitUndoesJoin([a, b, c], [":", ":"], ":");
  }

  /** Wrapping an intermediate sum changes nothing of the wrapped total. */
  lemma WrapOnce(x: int, y: int)
    ensures ToInt32(ToInt32(x) + y) == ToInt32(x + y)
  {
  }

  lemma MicrosecondsBound(total: nat)
    ensures GetSeconds(Timespan(MicrosecondsOfInt(ToInt32(total)), true)) == total <==> total <= 2147
  {
    var u := MicrosecondsOfInt(ToInt32(total));
    assert -2147 <= TruncDiv(u, MICROSECONDS_PER_SECOND) <= 2147;
    if total <= 2147 {
      assert u == total * 1000 * 1000;
    }
  }

  /** nvipfix_parse_timespan_microseconds. */
  function MicrosecondsOf(s: string, was: Timespan): (bool, Timespan) {
    (true, Timespan(StrToI64(s, 0), true))
  }

  lemma MicrosecondsRoundTrip(n: int, was: Timespan)
    ensures MicrosecondsOf(DecimalInt(n), was) == (true, Timespan(n, true)) <==> -I64_MAX - 1 <= n <= I64_MAX
  {
    I64RoundTrip(n);
  }
}
