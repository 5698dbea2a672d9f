/** What the importer does with texts as they are found: blanks anywhere, unquoted values,
    several arrays, numbers in any notation.  The characters are written out here. */
module ImportTexts {
  import opened Options
  import opened Text
  import opened Numbers
  import opened Values
  import opened Import
  import opened ImportLaws
  import opened RecordLaws
  import opened NumberTexts

  // ------------------------------------------------------------ items

  ghost predicate OnlyBlanks(s: string) {
    forall c | c in s :: c == ' ' || c == '\t' || c == '\r' || c == '\n'
  }

  lemma BlanksAreTrimmed(s: string)
    requires OnlyBlanks(s)
    ensures AllIn(s, QUOTES) && AllIn(s + "\"", QUOTES) && AllIn("\"" + s, QUOTES)
    ensures NoneIn(s, VT_ONLY) && NoneIn(s, ":")
  {
  }

  /** An item is the trimmed sides of its first colon. */
  lemma ItemOfSides(r: Record, left: string, right: string, name: string, value: string)
    requires left != "" && NoneIn(left, ":") && NoneIn(left, VT_ONLY)
    requires right != "" && NoneIn(right, VT_ONLY)
    requires Trim(left, QUOTES) == name && Trim(right, QUOTES) == value
    ensures ApplyItem(r, left + ":" + right) == ApplyPair(r, name, value)
  {
    ColonAfter(left, right);
    SplitOfTwo(left, VT_ONLY, right, VT_ONLY);
    ApplyDivided(r, left + ":" + right, |left|, left, right);
  }

  lemma ColonAfter(left: string, right: string)
    requires NoneIn(left, ":")
    ensures ColonAt(left + ":" + right, 0) == |left|
    ensures (left + ":" + right)[|left| := VT] == left + VT_ONLY + right
  {
    var item := left + ":" + right;
    assert ':' in ":";
    assert forall k | 0 <= k < |left| :: item[k] == left[k] && left[k] in left;
    ColonAtIs(item, 0, |left|);
  }

  /** A name or a value between blanks and, or without, quotes. */
  function Spaced(before: string, w: string, after: string, quoted: bool): string {
    before + (if quoted then "\"" + w + "\"" else w) + after
  }

  lemma SpacedTrims(before: string, w: string, after: string, quoted: bool)
    requires OnlyBlanks(before) && OnlyBlanks(after) && KeepsItsEnds(w)
    ensures Trim(Spaced(before, w, after, quoted), QUOTES) == w
  {
    BlanksAreTrimmed(before);
    BlanksAreTrimmed(after);
    KeptEnds(w);
    if quoted {
      TrimIs(before + "\"", w, "\"" + after, QUOTES);
      assert before + ("\"" + w + "\"") + after == before + "\"" + w + ("\"" + after);
    } else {
      TrimIs(before, w, after, QUOTES);
    }
  }

  lemma SpacedAvoids(before: string, w: string, after: string, quoted: bool, c: char)
    requires OnlyBlanks(before) && OnlyBlanks(after) && c !in w && (c == ':' || c == 11 as char)
    ensures NoneIn(Spaced(before, w, after, quoted), [c])
  {
    assert c !in before && c !in after;
  }

  /** However an item is spaced, and with its name and its value quoted or not, it fills the
      member of its name with its value. */
  lemma SpacedItem(r: Record, p: Pair, a: string, b: string, c: string, d: string, nameQuoted: bool, valueQuoted: bool)
    requires CleanPair(p) && OnlyBlanks(a) && OnlyBlanks(b) && OnlyBlanks(c) && OnlyBlanks(d)
    requires Spaced(a, p.name, b, nameQuoted) != "" && Spaced(c, p.value, d, valueQuoted) != ""
    ensures ApplyItem(r, Spaced(a, p.name, b, nameQuoted) + ":" + Spaced(c, p.value, d, valueQuoted)) == ApplyPair(r, p.name, p.value)
  {
    NotIn(p.name, ':', NAME_STRUCTURE);
    NotIn(p.name, 11 as char, NAME_STRUCTURE);
    NotIn(p.value, 11 as char, STRUCTURE);
    SpacedAvoids(a, p.name, b, nameQuoted, ':');
    SpacedAvoids(a, p.name, b, nameQuoted, 11 as char);
    SpacedAvoids(c, p.value, d, valueQuoted, 11 as char);
    SpacedTrims(a, p.name, b, nameQuoted);
    SpacedTrims(c, p.value, d, valueQuoted);
    ItemOfSides(r, Spaced(a, p.name, b, nameQuoted), Spaced(c, p.value, d, valueQuoted), p.name, p.value);
  }

  /** An item without a colon, or with nothing before or after its first colon, does nothing. */
  lemma ItemWithoutSides(r: Record, s: string)
    requires NoneIn(s, VT_ONLY)
    ensures ':' !in s ==> ApplyItem(r, s) == r && ApplyItem(r, s + ":") == r
    ensures ApplyItem(r, ":" + s) == r
  {
    if ':' !in s {
      NoColon(r, s);
      ColonLast(r, s);
    }
    ColonFirst(r, s);
  }

  lemma NoColon(r: Record, s: string)
    requires ':' !in s
    ensures ApplyItem(r, s) == r
  {
    assert forall i | 0 <= i < |s| :: s[i] in s;
  }

  lemma ColonLast(r: Record, s: string)
    requires ':' !in s && NoneIn(s, VT_ONLY)
    ensures ApplyItem(r, s + ":") == r
  {
    OneSide(s);
    ColonAfter(s, "");
    assert s + ":" + "" == s + ":" && s + VT_ONLY + "" == s + VT_ONLY;
    IdleItem(r, s + ":", |s|);
  }

  lemma ColonFirst(r: Record, s: string)
    requires NoneIn(s, VT_ONLY)
    ensures ApplyItem(r, ":" + s) == r
  {
    OneSide(s);
    ColonAfter("", s);
    assert "" + ":" + s == ":" + s && "" + VT_ONLY + s == VT_ONLY + s;
    IdleItem(r, ":" + s, 0);
  }

  lemma IdleItem(r: Record, item: string, colon: nat)
    requires colon < |item| && ColonAt(item, 0) == colon && |Split(item[colon := VT], VT_ONLY)| != 2
    ensures ApplyItem(r, item) == r
  {
  }

  lemma OneSide(s: string)
    requires NoneIn(s, VT_ONLY)
    ensures |Split(s + VT_ONLY, VT_ONLY)| <= 1 && |Split(VT_ONLY + s, VT_ONLY)| <= 1
  {
    assert VT in VT_ONLY;
    RunsSkip(VT_ONLY, s, VT_ONLY);
    RunsOfDelimiters(VT_ONLY, VT_ONLY);
    if s == "" {
      assert s + VT_ONLY == VT_ONLY && VT_ONLY + s == VT_ONLY;
    } else {
      RunsOfWord(s, VT_ONLY);
      RunsAppend(s, VT_ONLY, VT_ONLY);
      assert s[|s| - 1] in s;
      var t := s + VT_ONLY;
      assert t[|t| - 2] == s[|s| - 1];
      EndsInWord(VT_ONLY, s, VT_ONLY);
    }
  }

  // ------------------------------------------------------------ heads

  ghost predicate OnlyHeadCharacters(s: string) {
    forall c | c in s :: c == '{' || c == '}' || c == '\r' || c == '\n' || c == '\t' || c == ' ' || c == '"' || c == ':'
  }

  lemma HeadCharacters(s: string)
    ensures OnlyHeadCharacters(s) <==> AllIn(s, NAME_TRIM)
  {
  }

  /** The array after a text is taken for data exactly when the text is the word data between
      braces, blanks, quotes and colons. */
  lemma NamesDataIff(token: string)
    ensures NamesData(token) <==>
              exists pre, post :: token == pre + "data" + post && OnlyHeadCharacters(pre) && OnlyHeadCharacters(post)
  {
    if NamesData(token) {
      var a, b := TrimMeaning(token, NAME_TRIM);
      HeadCharacters(token[..a]);
      HeadCharacters(token[b..]);
      assert token == token[..a] + "data" + token[b..];
    }
    forall pre, post | token == pre + "data" + post && OnlyHeadCharacters(pre) && OnlyHeadCharacters(post) ensures NamesData(token) {
      HeadCharacters(pre);
      HeadCharacters(post);
      TrimIs(pre, "data", post, NAME_TRIM);
    }
  }

  // ------------------------------------------------------------ several arrays

  /** An array with the text before it. */
  datatype Section = Section(title: string, body: string)

  function Titles(ss: seq<Section>, last: string): (ws: seq<string>)
    ensures |ws| == 2 * |ss| + 1 && ws[0] == if ss == [] then last else ss[0].title
  {
    if ss == [] then [last] else [ss[0].title, ss[0].body] + Titles(ss[1..], last)
  }

  function Brackets(n: nat): (gs: seq<string>)
    ensures |gs| == 2 * n
    ensures forall g | g in gs :: g == "[" || g == "]"
  {
    if n == 0 then [] else ["[", "]"] + Brackets(n - 1)
  }

  /** title[body]title[body]...last */
  function Arrays(ss: seq<Section>, last: string): string {
    Join(Titles(ss, last), Brackets(|ss|))
  }

  /** Only the arrays whose title names data count, in order. */
  function SectionRecords(ss: seq<Section>): seq<Record> {
    if ss == [] then []
    else (if NamesData(ss[0].title) then DataRecords(ss[0].body) else []) + SectionRecords(ss[1..])
  }

  ghost predicate IsBracketFree(s: string) {
    s != "" && '[' !in s && ']' !in s
  }

  ghost predicate IsSection(s: Section) {
    IsBracketFree(s.title) && IsBracketFree(s.body) && !NamesData(s.body)
  }

  lemma {:induction false} TitlesAreWords(ss: seq<Section>, last: string)
    requires (forall s | s in ss :: IsSection(s)) && IsBracketFree(last)
    ensures Words(Titles(ss, last), "[]")
  {
    if ss != [] {
      assert ss[0] in ss;
      TitlesAreWords(ss[1..], last);
    }
  }

  lemma {:induction false} TokensFrom(v: string, w: string, tokens: seq<string>, k: nat)
    requires k <= |tokens|
    ensures ImportTokens([v, w] + tokens, k + 2) == ImportTokens(tokens, k)
    decreases |tokens| - k
  {
    if k < |tokens| {
      var next, more := ShiftedStep(v, w, tokens, k);
      TokensFrom(v, w, tokens, next);
    }
  }

  /** The same step on the same tokens two places further. */
  lemma ShiftedStep(v: string, w: string, tokens: seq<string>, k: nat) returns (next: nat, more: seq<Record>)
    requires k < |tokens|
    ensures k < next <= |tokens|
    ensures ImportTokens(tokens, k) == more + ImportTokens(tokens, next)
    ensures ImportTokens([v, w] + tokens, k + 2) == more + ImportTokens([v, w] + tokens, next + 2)
  {
    next, more := StepOf(tokens, k);
    SameConsumed(v, w, tokens, k, next, more);
    TokensAfter(tokens, k, next, more);
    TokensAfter([v, w] + tokens, k + 2, next + 2, more);
  }

  lemma StepOf(tokens: seq<string>, k: nat) returns (next: nat, more: seq<Record>)
    requires k < |tokens|
    ensures k < next <= |tokens| && Consumes(tokens, k, next, more)
  {
    if AnnouncesData(tokens, k) {
      next, more := k + 2, DataRecords(tokens[k + 1]);
    } else {
      next, more := k + 1, [];
    }
  }

  lemma SameConsumed(v: string, w: string, tokens: seq<string>, k: nat, next: nat, more: seq<Record>)
    requires k < |tokens| && Consumes(tokens, k, next, more)
    ensures Consumes([v, w] + tokens, k + 2, next + 2, more)
  {
    var all := [v, w] + tokens;
    assert all[k + 2] == tokens[k] && (k + 1 < |tokens| ==> all[k + 3] == tokens[k + 1]);
  }

  lemma FirstSection(title: string, body: string, tokens: seq<string>)
    requires tokens != [] && !NamesData(body)
    ensures ImportTokens([title, body] + tokens, 0) ==
              (if NamesData(title) then DataRecords(body) else []) + ImportTokens([title, body] + tokens, 2)
  {
    var all := [title, body] + tokens;
    if NamesData(title) {
      TokensAfter(all, 0, 2, DataRecords(body));
    } else {
      TokensAfter(all, 0, 1, []);
      TokensAfter(all, 1, 2, []);
    }
  }

  lemma {:induction false} TokensOfSections(ss: seq<Section>, last: string)
    requires (forall i | 0 <= i < |ss| :: !NamesData(ss[i].body)) && !NamesData(last)
    ensures ImportTokens(Titles(ss, last), 0) == SectionRecords(ss)
    decreases |ss|
  {
    if ss == [] {
      LastToken(last);
    } else {
      OneSection(ss[0].title, ss[0].body, Titles(ss[1..], last));
      TokensOfSections(ss[1..], last);
    }
  }

  lemma OneSection(title: string, body: string, tokens: seq<string>)
    requires tokens != [] && !NamesData(body)
    ensures ImportTokens([title, body] + tokens, 0) == (if NamesData(title) then DataRecords(body) else []) + ImportTokens(tokens, 0)
  {
    FirstSection(title, body, tokens);
    TokensFrom(title, body, tokens, 0);
  }

  lemma LastToken(last: string)
    requires !NamesData(last)
    ensures ImportTokens([last], 0) == []
  {
    TokensAfter([last], 0, 1, []);
  }

  /** A file of any number of arrays: those with the title data deliver their records, one
      array after the other. */
  lemma ImportOfArrays(ss: seq<Section>, last: string)
    requires (forall s | s in ss :: IsSection(s)) && IsBracketFree(last) && !NamesData(last)
    ensures ImportText(Arrays(ss, last)) == SectionRecords(ss)
  {
    TitlesAreWords(ss, last);
    forall g | g in Brackets(|ss|) ensures g != "" && AllIn(g, "[]") {}
    SplitUndoesJoin(Titles(ss, last), Brackets(|ss|), "[]");
    forall i | 0 <= i < |ss| ensures !NamesData(ss[i].body) { assert ss[i] in ss; }
    TokensOfSections(ss, last);
  }

  // ------------------------------------------------------------ blanks between records

  /** Blanks before the first brace of an array count as a record without values. */
  lemma BlankRecord(gap: string)
    requires gap != "" && OnlyBlanks(gap)
    ensures OneRecord(gap) == [ZERO_RECORD]
  {
    assert gap[0] in gap && gap[|gap| - 1] in gap;
    TrimOfTrimmed(gap, ",}");
    RunsOfWord(gap, ",");
    assert Split(gap, ",") == [gap];
    ItemWithoutSides(ZERO_RECORD, gap);
    assert [gap][1..] == [];
    assert ApplyItems(ZERO_RECORD, [gap]) == ApplyItems(ApplyItem(ZERO_RECORD, gap), []);
  }

  /** After the comma behind a record, blanks keep the record's brace in its last value. */
  lemma BlanksAfterRecord(ps: seq<Pair>, p: Pair, gap: string)
    requires CleanRecord(ps + [p]) && gap != "" && OnlyBlanks(gap) && p.value != ""
    ensures OneRecord(PrintItems(ps + [p]) + "}," + gap) == [ApplyPairs(ZERO_RECORD, ps + [Pair(p.name, p.value + "\"}")])]
  {
    ItemsWithTail(ps, p, gap);
    var broken := PrintPairs(ps) + [PrintPair(p) + "}"];
    ApplyItemsAppended(ZERO_RECORD, broken, [gap]);
    assert forall q | q in ps :: q in ps + [p];
    assert p in ps + [p];
    BrokenItems(ZERO_RECORD, ps, p);
    BlankItem(ApplyItems(ZERO_RECORD, broken), gap);
  }

  lemma BlankItem(r: Record, gap: string)
    requires OnlyBlanks(gap)
    ensures ApplyItems(r, [gap]) == r
  {
    ItemWithoutSides(r, gap);
    assert [gap][1..] == [];
    assert ApplyItems(r, [gap]) == ApplyItems(ApplyItem(r, gap), []);
  }

  lemma ItemsWithTail(ps: seq<Pair>, p: Pair, gap: string)
    requires CleanRecord(ps + [p]) && gap != "" && OnlyBlanks(gap)
    ensures ItemsOf(PrintItems(ps + [p]) + "}," + gap) == PrintPairs(ps) + [PrintPair(p) + "}"] + [gap]
  {
    var all := ps + [p];
    var ws := PrintPairs(all);
    LastPrinted(ps, p);
    PrintedItems(all);
    PrintedPairs(all);
    forall i | 0 <= i < |ws| ensures ws[i] != "" && NoneIn(ws[i], ",") { Weaken(ws[i], "[]{,", ","); }
    SplitWithTail(ws, gap);
    NothingTrimmed(PrintItems(all), gap);
    assert ws[..|ps|] == PrintPairs(ps) && ws[|ps|] == PrintPair(p);
  }

  lemma NothingTrimmed(items: string, gap: string)
    requires items != "" && items[0] == '"' && gap != "" && OnlyBlanks(gap)
    ensures Trim(items + "}," + gap, ",}") == items + "}," + gap
  {
    var text := items + "}," + gap;
    assert text[|text| - 1] == gap[|gap| - 1] && gap[|gap| - 1] in gap;
    TrimOfTrimmed(text, ",}");
  }

  lemma {:induction false} LastPrinted(ps: seq<Pair>, p: Pair)
    ensures PrintPairs(ps + [p]) == PrintPairs(ps) + [PrintPair(p)]
  {
    if ps == [] {
      assert ps + [p] == [p];
    } else {
      assert (ps + [p])[1..] == ps[1..] + [p];
      LastPrinted(ps[1..], p);
    }
  }

  lemma {:induction false} ApplyItemsAppended(r: Record, a: seq<string>, b: seq<string>)
    ensures ApplyItems(r, a + b) == ApplyItems(ApplyItems(r, a), b)
    decreases |a|
  {
    if a == [] {
      assert a + b == b;
    } else {
      assert (a + b)[1..] == a[1..] + b;
      ApplyItemsAppended(ApplyItem(r, a[0]), a[1..], b);
    }
  }

  /** Joined words, a brace, a comma and blanks: the brace joins the last word. */
  lemma SplitWithTail(ws: seq<string>, gap: string)
    requires ws != [] && (forall i | 0 <= i < |ws| :: ws[i] != "" && NoneIn(ws[i], ",")) && gap != "" && OnlyBlanks(gap)
    ensures Split(Join(ws, seq(|ws| - 1, _ => COMMA)) + "}," + gap, ",") == Broken(ws) + [gap]
  {
    var gaps := seq(|ws| - 1, _ => COMMA);
    JoinBroken(ws);
    BrokenWords(ws);
    RunsOfJoin(Broken(ws), gaps, ",");
    CommaAndBlanks(Join(Broken(ws), gaps), gap);
    BraceCommaBlanks(Join(ws, gaps), gap);
  }

  /** The brace joins the last word. */
  function Broken(ws: seq<string>): seq<string>
    requires ws != []
  {
    ws[..|ws| - 1] + [ws[|ws| - 1] + "}"]
  }

  lemma BrokenWords(ws: seq<string>)
    requires ws != [] && forall i | 0 <= i < |ws| :: ws[i] != "" && NoneIn(ws[i], ",")
    ensures Words(Broken(ws), ",") && Gaps(seq(|ws| - 1, _ => COMMA), ",")
  {
    var last := ws[|ws| - 1];
    assert NoneIn(last + "}", ",");
  }

  lemma BraceCommaBlanks(s: string, gap: string)
    ensures s + "}," + gap == s + "}" + ("," + gap)
  {
  }

  lemma CommaAndBlanks(body: string, gap: string)
    requires gap != "" && OnlyBlanks(gap)
    ensures Split(body + ("," + gap), ",") == Runs(body, ",") + [gap]
  {
    RunsAppend(body, "," + gap, ",");
    assert AllIn(",", ",") && NoneIn(gap, ",");
    RunsSkip(",", gap, ",");
    RunsOfWord(gap, ",");
    EndsInWord(body + ",", gap, ",");
    assert body + "," + gap == body + ("," + gap);
  }

  lemma {:induction false} JoinBroken(ws: seq<string>)
    requires ws != []
    ensures Join(Broken(ws), seq(|ws| - 1, _ => COMMA)) == Join(ws, seq(|ws| - 1, _ => COMMA)) + "}"
  {
    var n := |ws| - 1;
    var broken := ws[..n] + [ws[n] + "}"];
    if n != 0 {
      JoinBroken(ws[1..]);
      assert broken[1..] == ws[1..][..n - 1] + [ws[1..][n - 1] + "}"];
      assert seq(n, _ => COMMA)[1..] == seq(n - 1, _ => COMMA);
    }
  }

  lemma BrokenItems(r: Record, ps: seq<Pair>, p: Pair)
    requires (forall q | q in ps :: CleanPair(q)) && CleanPair(p) && p.value != ""
    ensures ApplyItems(r, PrintPairs(ps) + [PrintPair(p) + "}"]) == ApplyPairs(r, ps + [Pair(p.name, p.value + "\"}")])
  {
    ApplyItemsAppended(r, PrintPairs(ps), [PrintPair(p) + "}"]);
    ItemsRoundTrip(r, ps);
    var s := ApplyPairs(r, ps);
    BrokenItem(s, p);
    assert [PrintPair(p) + "}"][1..] == [];
    assert ApplyItems(s, [PrintPair(p) + "}"]) == ApplyItems(ApplyItem(s, PrintPair(p) + "}"), []);
    ApplyAppended(r, ps, [Pair(p.name, p.value + "\"}")]);
    ApplyOne(s, Pair(p.name, p.value + "\"}"));
  }

  lemma BrokenItem(r: Record, p: Pair)
    requires CleanPair(p) && p.value != ""
    ensures ApplyItem(r, PrintPair(p) + "}") == ApplyPair(r, p.name, p.value + "\"}")
  {
    var broken := "\"" + (p.value + "\"}");
    NotIn(p.name, ':', NAME_STRUCTURE);
    NotIn(p.name, 11 as char, NAME_STRUCTURE);
    NotIn(p.value, 11 as char, STRUCTURE);
    QuotedTrims(p.name);
    BrokenValue(p.value);
    BrokenText(p);
    QuotedAvoids(p.name, ':');
    QuotedAvoids(p.name, 11 as char);
    BrokenAvoids(p.value);
    ItemOfSides(r, Quoted(p.name), broken, p.name, p.value + "\"}");
  }

  lemma QuotedAvoids(w: string, c: char)
    requires c !in w && c != '"'
    ensures Quoted(w) != "" && NoneIn(Quoted(w), [c])
  {
  }

  lemma BrokenAvoids(value: string)
    requires (11 as char) !in value
    ensures NoneIn("\"" + (value + "\"}"), VT_ONLY)
  {
  }

  lemma BrokenValue(value: string)
    requires value != "" && KeepsItsEnds(value)
    ensures Trim("\"" + (value + "\"}"), QUOTES) == value + "\"}"
  {
    KeptEnds(value + "\"}");
    assert AllIn("\"", QUOTES) && AllIn("", QUOTES);
    TrimIs("\"", value + "\"}", "", QUOTES);
    assert "\"" + (value + "\"}") + "" == "\"" + (value + "\"}");
  }

  lemma BrokenText(p: Pair)
    ensures PrintPair(p) + "}" == Quoted(p.name) + ":" + ("\"" + (p.value + "\"}"))
  {
  }

  // ------------------------------------------------------------ numbers in items

  /** Number items keep the low bits of their member, whatever the notation of the number. */
  lemma NumberItems(r: Record, x: Numeral)
    requires IsNumeral(x, 0)
    ensures var (s, n) := (NumeralText(x, 0), Unsigned64(x));
      && ParseMember(r, Vlan, s).vlanId == n % 65536
      && ParseMember(r, SourcePort, s).sourcePort == n % 65536
      && ParseMember(r, DestinationPort, s).destinationPort == n % 65536
      && ParseMember(r, EtherType, s).ethernetType == n % 65536
      && ParseMember(r, Ingress, s).ingressInterface == n % 4294967296
      && ParseMember(r, Egress, s).egressInterface == n % 4294967296
      && ParseMember(r, Dscp, s).dscp == n % 256
      && ParseMember(r, Protocol, s).protocol == n % 256
      && ParseMember(r, ResponderOctets, s).responderOctets == n
      && ParseMember(r, InitiatorOctets, s).initiatorOctets == n
      && ParseMember(r, TransportOctets, s).transportOctetDeltaCount == n
  {
    UnsignedOfNumeral(x, 0);
    KeptBits(r, NumeralText(x, 0), Unsigned64(x));
  }

  lemma KeptBits(r: Record, s: string, n: nat)
    requires StrToU64(s, 0) == n
    ensures ParseMember(r, Vlan, s).vlanId == n % 65536 && ParseMember(r, EtherType, s).ethernetType == n % 65536
    ensures ParseMember(r, SourcePort, s).sourcePort == n % 65536 && ParseMember(r, DestinationPort, s).destinationPort == n % 65536
    ensures ParseMember(r, Ingress, s).ingressInterface == n % 4294967296 && ParseMember(r, Egress, s).egressInterface == n % 4294967296
    ensures ParseMember(r, Dscp, s).dscp == n % 256 && ParseMember(r, Protocol, s).protocol == n % 256
    ensures ParseMember(r, ResponderOctets, s).responderOctets == n && ParseMember(r, InitiatorOctets, s).initiatorOctets == n
    ensures ParseMember(r, TransportOctets, s).transportOctetDeltaCount == n
  {
  }

  /** A VXLAN identifier has the bit of its type set, and is otherwise the number given. */
  lemma VxlanItem(r: Record, x: Numeral)
    requires IsNumeral(x, 0)
    ensures IsVxlanIdOf(ParseMember(r, Layer2, NumeralText(x, 0)).layer2SegmentId, Unsigned64(x))
  {
    UnsignedOfNumeral(x, 0);
    KeptVxlanId(r, NumeralText(x, 0), Unsigned64(x));
  }

  ghost predicate IsVxlanIdOf(id: nat, n: nat) {
    && id / 72057594037927936 % 2 == 1
    && (id == n || (id == n + 72057594037927936 && n / 72057594037927936 % 2 == 0))
  }

  lemma KeptVxlanId(r: Record, s: string, n: nat)
    requires StrToU64(s, 0) == n
    ensures IsVxlanIdOf(ParseMember(r, Layer2, s).layer2SegmentId, n)
  {
    assert Unsigned(s, U64) == n;
    VxlanBit(n);
  }

  lemma VxlanBit(n: nat)
    ensures IsVxlanIdOf(WithVxlanType(n), n)
  {
    assert (n + 72057594037927936) / 72057594037927936 == n / 72057594037927936 + 1;
  }

  /** Durations and latencies are microseconds in any notation. */
  lemma MicrosecondItems(r: Record, x: Numeral)
    requires IsNumeral(x, 0)
    ensures ParseMember(r, Duration, NumeralText(x, 0)).flowDuration == Timespan(Signed64(x), true)
    ensures ParseMember(r, Latency, NumeralText(x, 0)).latency == Timespan(Signed64(x), true)
  {
    MicrosecondsOfNumeral(x, r.flowDuration);
    MicrosecondsOfNumeral(x, r.latency);
  }

  /** The four connection states that have a flag; any other leaves the flags. */
  lemma StateItems(r: Record, s: string)
    ensures ParseMember(r, TcpState, "fin").tcpControlBits == 1
    ensures ParseMember(r, TcpState, "syn").tcpControlBits == 2
    ensures ParseMember(r, TcpState, "rst").tcpControlBits == 4
    ensures ParseMember(r, TcpState, "est").tcpControlBits == 16
    ensures s != "fin" && s != "syn" && s != "rst" && s != "est" ==> ParseMember(r, TcpState, s) == r
  {
    assert "fin"[0] == 'f' && "syn"[0] == 's' && "rst"[0] == 'r' && "est"[0] == 'e';
  }
}
