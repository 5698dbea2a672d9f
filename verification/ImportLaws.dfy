/** What the importer guarantees: it inverts a compact printer, and the order of the items
    of a record and items it does not know are immaterial. */
module ImportLaws {
  import opened Options
  import opened Text
  import opened Import

  // ------------------------------------------------------------ the compact form

  datatype Pair = Pair(name: string, value: string)

  const COMMA := ","

  /** "name":"value" */
  function PrintPair(p: Pair): string {
    "\"" + p.name + "\"" + ":" + "\"" + p.value + "\""
  }

  function PrintPairs(ps: seq<Pair>): (ws: seq<string>)
    ensures |ws| == |ps|
  {
    if ps == [] then [] else [PrintPair(ps[0])] + PrintPairs(ps[1..])
  }

  /** The items of one record, separated by commas. */
  function PrintItems(ps: seq<Pair>): string {
    if ps == [] then "" else Join(PrintPairs(ps), seq(|ps| - 1, _ => COMMA))
  }

  function PrintRecords(rs: seq<seq<Pair>>): string {
    if rs == [] then ""
    else if |rs| == 1 then "{" + (PrintItems(rs[0]) + "}")
    else "{" + (PrintItems(rs[0]) + "},") + PrintRecords(rs[1..])
  }

  /** {"data":[{...},...]} */
  function PrintDocument(rs: seq<seq<Pair>>): string {
    "{\"data\":" + "[" + PrintRecords(rs) + "]" + "}"
  }

  /** What the items of a record mean, without any text. */
  function ApplyPairs(r: Record, ps: seq<Pair>): Record
    decreases |ps|
  {
    if ps == [] then r else ApplyPairs(ApplyPair(r, ps[0].name, ps[0].value), ps[1..])
  }

  function Meaning(rs: seq<seq<Pair>>): seq<Record> {
    if rs == [] then [] else [ApplyPairs(ZERO_RECORD, rs[0])] + Meaning(rs[1..])
  }

  // ------------------------------------------------------ taking it apart again

  /** Characters a value must not contain, and a name neither. */
  const STRUCTURE: string := ['[', ']', '{', ',', 11 as char]
  const NAME_STRUCTURE: string := ['[', ']', '{', ',', 11 as char, ':']

  /** Nothing of the file's structure inside, nothing trimmed off its ends. */
  ghost predicate CleanPair(p: Pair) {
    && NoneIn(p.name, NAME_STRUCTURE) && KeepsItsEnds(p.name)
    && NoneIn(p.value, STRUCTURE) && KeepsItsEnds(p.value)
  }

  predicate IsBlank(c: char) {
    c == ' ' || c == '\t' || c == '\r' || c == '\n'
  }

  /** Neither a blank nor a quote at either end. */
  ghost predicate KeepsItsEnds(w: string) {
    w != "" ==> !IsBlank(w[0]) && w[0] != '"' && !IsBlank(w[|w| - 1]) && w[|w| - 1] != '"'
  }

  lemma KeptEnds(w: string)
    ensures KeepsItsEnds(w) <==> Trimmed(w, QUOTES)
  {
    assert forall c :: c in QUOTES <==> IsBlank(c) || c == '"';
  }

  lemma {:induction false} ColonAtIs(s: string, i: nat, c: nat)
    requires i <= c < |s| && s[c] == ':' && forall k | i <= k < c :: s[k] != ':'
    ensures ColonAt(s, i) == c
    decreases c - i
  {
    if i < c {
      ColonAtIs(s, i + 1, c);
    }
  }

  lemma QuotedTrims(w: string)
    requires KeepsItsEnds(w)
    ensures Trim(Quoted(w), QUOTES) == w
  {
    KeptEnds(w);
    TrimIs("\"", w, "\"", QUOTES);
  }

  lemma NotIn(w: string, c: char, d: string)
    requires NoneIn(w, d) && c in d
    ensures c !in w && forall i | 0 <= i < |w| :: w[i] != c
  {
    assert forall i | 0 <= i < |w| :: w[i] in w;
  }

  function Quoted(w: string): string {
    "\"" + w + "\""
  }

  /** The first colon of a printed item ends its name, even if the value contains colons. */
  lemma ColonOfPair(p: Pair)
    requires NoneIn(p.name, NAME_STRUCTURE)
    ensures var c := |Quoted(p.name)|; var item := PrintPair(p);
      c < |item| && ColonAt(item, 0) == c && item[c := VT] == Quoted(p.name) + VT_ONLY + Quoted(p.value)
  {
    var (item, a, b) := (PrintPair(p), Quoted(p.name), Quoted(p.value));
    assert item == a + ":" + b;
    NotIn(p.name, ':', NAME_STRUCTURE);
    assert forall k | 0 <= k < |a| :: item[k] == a[k] && a[k] != ':';
    ColonAtIs(item, 0, |a|);
  }

  lemma QuotedIsWord(w: string, d: string)
    requires NoneIn(w, d) && VT in d
    ensures Quoted(w) != "" && NoneIn(Quoted(w), VT_ONLY)
  {
    NotIn(w, VT, d);
  }

  lemma ApplyDivided(r: Record, item: string, colon: nat, a: string, b: string)
    requires colon < |item| && ColonAt(item, 0) == colon && Split(item[colon := VT], VT_ONLY) == [a, b]
    ensures ApplyItem(r, item) == ApplyPair(r, Trim(a, QUOTES), Trim(b, QUOTES))
  {
  }

  /** A printed item comes apart into its name and its value. */
  lemma ItemRoundTrip(r: Record, p: Pair)
    requires CleanPair(p)
    ensures ApplyItem(r, PrintPair(p)) == ApplyPair(r, p.name, p.value)
  {
    var (a, b) := (Quoted(p.name), Quoted(p.value));
    ColonOfPair(p);
    QuotedIsWord(p.name, NAME_STRUCTURE);
    QuotedIsWord(p.value, STRUCTURE);
    SplitOfTwo(a, VT_ONLY, b, VT_ONLY);
    QuotedTrims(p.name);
    QuotedTrims(p.value);
    ApplyDivided(r, PrintPair(p), |a|, a, b);
  }

  lemma {:induction false} ItemsRoundTrip(r: Record, ps: seq<Pair>)
    requires forall p | p in ps :: CleanPair(p)
    ensures ApplyItems(r, PrintPairs(ps)) == ApplyPairs(r, ps)
    decreases |ps|
  {
    if ps != [] {
      assert ps[0] in ps;
      ItemRoundTrip(r, ps[0]);
      assert PrintPairs(ps)[1..] == PrintPairs(ps[1..]);
      ItemsRoundTrip(ApplyPair(r, ps[0].name, ps[0].value), ps[1..]);
    }
  }

  /** The text of an item or of a record's items: quotes at both ends, and none of d inside. */
  ghost predicate QuotedText(s: string, d: string) {
    s != "" && s[0] == '"' && s[|s| - 1] == '"' && NoneIn(s, d)
  }

  lemma {:induction false} PrintedPairs(ps: seq<Pair>)
    requires forall p | p in ps :: CleanPair(p)
    ensures forall i | 0 <= i < |ps| :: QuotedText(PrintPairs(ps)[i], "[]{,")
  {
    if ps != [] {
      assert ps[0] in ps;
      PrintedPair(ps[0]);
      PrintedPairs(ps[1..]);
    }
  }

  lemma PrintedPair(p: Pair)
    requires CleanPair(p)
    ensures QuotedText(PrintPair(p), "[]{,")
  {
    forall c | c in "[]{," ensures c !in PrintPair(p) {
      NotIn(p.name, c, NAME_STRUCTURE);
      NotIn(p.value, c, STRUCTURE);
    }
  }

  lemma {:induction false} JoinEnds(ws: seq<string>, gaps: seq<string>, d: string)
    requires |gaps| + 1 == |ws| && forall i | 0 <= i < |ws| :: QuotedText(ws[i], d)
    requires forall i | 0 <= i < |gaps| :: NoneIn(gaps[i], d)
    ensures QuotedText(Join(ws, gaps), d)
  {
    if |ws| > 1 {
      JoinEnds(ws[1..], gaps[1..], d);
    }
  }

  /** The items of a record split into the printed items. */
  lemma PrintedItems(ps: seq<Pair>)
    requires ps != [] && forall p | p in ps :: CleanPair(p)
    ensures QuotedText(PrintItems(ps), "[]{")
    ensures Split(PrintItems(ps), ",") == PrintPairs(ps)
  {
    var ws := PrintPairs(ps);
    var gaps := seq(|ps| - 1, _ => COMMA);
    PrintedPairs(ps);
    forall i | 0 <= i < |ws| ensures ws[i] != "" && NoneIn(ws[i], ",") && QuotedText(ws[i], "[]{") {
      Weaken(ws[i], "[]{,", ",");
      Weaken(ws[i], "[]{,", "[]{");
    }
    SplitUndoesJoin(ws, gaps, ",");
    JoinEnds(ws, gaps, "[]{");
  }

  lemma Weaken(s: string, d: string, e: string)
    requires NoneIn(s, d) && forall c | c in e :: c in d
    ensures NoneIn(s, e)
  {
  }

  /** One record text, with what is left of the braces and commas around it. */
  lemma RecordRoundTrip(ps: seq<Pair>, post: string)
    requires ps != [] && forall p | p in ps :: CleanPair(p)
    requires post == "}" || post == "},"
    ensures OneRecord(PrintItems(ps) + post) == [ApplyPairs(ZERO_RECORD, ps)]
  {
    PrintedItems(ps);
    TrimsToItems(PrintItems(ps), post);
    ItemsRoundTrip(ZERO_RECORD, ps);
  }

  lemma TrimsToItems(s: string, post: string)
    requires QuotedText(s, "[]{") && (post == "}" || post == "},")
    ensures Trim(s + post, ",}") == s
  {
    assert "" + s + post == s + post;
    TrimIs("", s, post, ",}");
  }

  // ------------------------------------------------------ whole documents

  ghost predicate CleanRecord(ps: seq<Pair>) {
    ps != [] && forall p | p in ps :: CleanPair(p)
  }

  ghost predicate CleanDocument(rs: seq<seq<Pair>>) {
    forall i | 0 <= i < |rs| :: CleanRecord(rs[i])
  }

  /** The record texts between the opening braces. */
  function RecordTexts(rs: seq<seq<Pair>>): seq<string> {
    if rs == [] then []
    else [PrintItems(rs[0]) + if |rs| == 1 then "}" else "},"] + RecordTexts(rs[1..])
  }

  lemma RecordText(ps: seq<Pair>, post: string)
    requires CleanRecord(ps) && (post == "}" || post == "},")
    ensures var s := PrintItems(ps) + post; s != "" && NoneIn(s, "{") && NoneIn(s, "[]")
  {
    PrintedItems(ps);
    Weaken(PrintItems(ps), "[]{", "{");
    Weaken(PrintItems(ps), "[]{", "[]");
  }

  lemma {:induction false} PrintedRecordsEnds(rs: seq<seq<Pair>>)
    requires rs != [] && CleanDocument(rs)
    ensures var s := PrintRecords(rs); s != "" && s[0] == '{' && s[|s| - 1] == '}' && NoneIn(s, "[]")
    decreases |rs|
  {
    RecordText(rs[0], if |rs| == 1 then "}" else "},");
    if |rs| > 1 {
      PrintedRecordsEnds(rs[1..]);
    }
  }

  /** The records of a document are delivered to the record loop one by one. */
  lemma {:induction false} PrintedRecords(rs: seq<seq<Pair>>)
    requires rs != [] && CleanDocument(rs)
    ensures Runs(PrintRecords(rs), "{") == RecordTexts(rs)
    decreases |rs|
  {
    var text := PrintItems(rs[0]) + if |rs| == 1 then "}" else "},";
    RecordText(rs[0], if |rs| == 1 then "}" else "},");
    if |rs| == 1 {
      RunsSkip("{", text, "{");
      RunsOfWord(text, "{");
      assert RecordTexts(rs[1..]) == [];
    } else {
      PrintedRecordsEnds(rs[1..]);
      PrintedRecords(rs[1..]);
      OneMoreRecord(text, PrintRecords(rs[1..]));
    }
  }

  lemma OneMoreRecord(text: string, rest: string)
    requires text != "" && NoneIn(text, "{") && rest != "" && rest[0] == '{'
    ensures Runs("{" + text + rest, "{") == [text] + Runs(rest, "{")
  {
    assert "{" + text + rest == "{" + (text + rest);
    RunsSkip("{", text + rest, "{");
    RunsAppend(text, rest, "{");
    RunsOfWord(text, "{");
  }

  lemma {:induction false} RecordsRoundTrip(rs: seq<seq<Pair>>)
    requires CleanDocument(rs)
    ensures Records(RecordTexts(rs)) == Meaning(rs)
    decreases |rs|
  {
    if rs != [] {
      RecordRoundTrip(rs[0], if |rs| == 1 then "}" else "},");
      RecordsRoundTrip(rs[1..]);
      assert RecordTexts(rs)[1..] == RecordTexts(rs[1..]);
    }
  }

  lemma PrintedDataToken(rs: seq<seq<Pair>>)
    requires rs != [] && CleanDocument(rs)
    ensures DataRecords(PrintRecords(rs)) == Meaning(rs)
  {
    PrintedRecords(rs);
    PrintedRecordsEnds(rs);
    SplitIsRuns(PrintRecords(rs), "{");
    DataOfTexts(PrintRecords(rs), RecordTexts(rs));
    RecordsRoundTrip(rs);
  }

  lemma SplitIsRuns(s: string, d: string)
    requires s != "" && s[|s| - 1] !in d
    ensures Split(s, d) == Runs(s, d)
  {
  }

  lemma DataOfTexts(token: string, texts: seq<string>)
    requires Split(token, "{") == texts
    ensures DataRecords(token) == Records(texts)
  {
  }

  const HEAD := "{\"data\":"

  lemma HeadNamesData()
    ensures NamesData(HEAD) && !NamesData("}") && NoneIn(HEAD, "[]")
  {
    var (pre, core, post) := ("{\"", "data", "\":");
    assert HEAD == pre + core + post;
    assert AllIn(pre, NAME_TRIM) && AllIn(post, NAME_TRIM);
    TrimIs(pre, core, post, NAME_TRIM);
    BraceNamesNothing();
  }

  lemma BraceNamesNothing()
    ensures !NamesData("}")
  {
    assert "}" + "" + "" == "}" && AllIn("}", NAME_TRIM);
    TrimIs("}", "", "", NAME_TRIM);
  }

  /** A document divides at its brackets into a head, the records and a closing brace; with
      no records the brace takes the place of the data token. */
  lemma DocumentTokens(body: string)
    requires NoneIn(body, "[]")
    ensures Split(HEAD + "[" + body + "]" + "}", "[]") == if body == "" then [HEAD, "}"] else [HEAD, body, "}"]
  {
    HeadNamesData();
    if body == "" {
      assert HEAD + "[" + body + "]" + "}" == HEAD + "[]" + "}";
      SplitOfTwo(HEAD, "[]", "}", "[]");
    } else {
      assert HEAD + "[" + body + "]" + "}" == HEAD + "[" + (body + "]" + "}");
      SplitOfThree(HEAD, "[", body, "]", "}", "[]");
    }
  }

  lemma LoneBrace()
    ensures DataRecords("}") == []
  {
    RunsOfWord("}", "{");
    assert Split("}", "{") == ["}"];
    assert "}" + "" + "" == "}" && AllIn("}", ",}");
    TrimIs("}", "", "", ",}");
    assert OneRecord("}") == [];
    assert ["}"][1..] == [];
  }

  /** Importing what the compact printer writes gives, record by record and in order, what
      the printed items mean.  A document without records imports as the empty list. */
  lemma TextRoundTrip(rs: seq<seq<Pair>>)
    requires CleanDocument(rs)
    ensures ImportText(PrintDocument(rs)) == Meaning(rs)
  {
    HeadNamesData();
    var body := PrintRecords(rs);
    if rs == [] {
      DocumentTokens("");
      LoneBrace();
      var ts := [HEAD, "}"];
      assert ImportTokens(ts, 2) == [];
      assert AnnouncesData(ts, 0) && ImportTokens(ts, 0) == DataRecords(ts[1]) + ImportTokens(ts, 2);
    } else {
      PrintedRecordsEnds(rs);
      DocumentTokens(body);
      PrintedDataToken(rs);
      var ts := [HEAD, body, "}"];
      assert ImportTokens(ts, 3) == [];
      assert ImportTokens(ts, 2) == ImportTokens(ts, 3);
      assert AnnouncesData(ts, 0) && ImportTokens(ts, 0) == DataRecords(ts[1]) + ImportTokens(ts, 2);
    }
  }

  // ------------------------------------------------------ items and members

  /** The name a member has in a file. */
  function NameOf(m: Member): string {
    match m
    case Vlan => "vlan"
    case Ingress => "src-switch-port"
    case Egress => "dst-switch-port"
    case Dscp => "dscp"
    case SourcePort => "src-port"
    case DestinationPort => "dst-port"
    case ResponderOctets => "ibytes"
    case InitiatorOctets => "obytes"
    case TransportOctets => "total-bytes"
    case Layer2 => "vxlan"
    case TcpState => "cur-state"
    case Protocol => "proto"
    case EtherType => "ether-type"
    case SourceMac => "src-mac"
    case DestinationMac => "dst-mac"
    case SourceIp => "src-ip"
    case DestinationIp => "dst-ip"
    case Duration => "dur"
    case Start => "started-time"
    case End => "ended-time"
    case Latency => "latency"
  }

  function RowOf(m: Member): (i: nat)
    ensures i < |ITEMS| && ITEMS[i].member == m
  {
    match m
    case Vlan => 0 case Ingress => 1 case Egress => 2 case Dscp => 3 case SourcePort => 4 case DestinationPort => 5
    case ResponderOctets => 6 case InitiatorOctets => 7 case TransportOctets => 8 case Layer2 => 9 case TcpState => 10
    case Protocol => 11 case EtherType => 12 case SourceMac => 13 case DestinationMac => 14 case SourceIp => 15
    case DestinationIp => 16 case Duration => 17 case Start => 18 case End => 19 case Latency => 21
  }

  /** Length and first two letters of the name of a member. */
  ghost function KeyOf(m: Member): (nat, char, char) {
    match m
    case Vlan => (4, 'v', 'l') case Ingress => (15, 's', 'r') case Egress => (15, 'd', 's') case Dscp => (4, 'd', 's')
    case SourcePort => (8, 's', 'r') case DestinationPort => (8, 'd', 's')
    case ResponderOctets => (6, 'i', 'b') case InitiatorOctets => (6, 'o', 'b') case TransportOctets => (11, 't', 'o')
    case Layer2 => (5, 'v', 'x') case TcpState => (9, 'c', 'u') case Protocol => (5, 'p', 'r') case EtherType => (10, 'e', 't')
    case SourceMac => (7, 's', 'r') case DestinationMac => (7, 'd', 's') case SourceIp => (6, 's', 'r')
    case DestinationIp => (6, 'd', 's') case Duration => (3, 'd', 'u') case Start => (12, 's', 't') case End => (10, 'e', 'n')
    case Latency => (7, 'l', 'a')
  }

  lemma NameKey(i: nat)
    requires i < |ITEMS|
    ensures var s := ITEMS[i].name; |s| >= 2 && (|s|, s[0], s[1]) == KeyOf(ITEMS[i].member)
  {
    if i < 7 {
      NameKeyLow(i);
    } else if i < 15 {
      NameKeyMiddle(i);
    } else {
      NameKeyHigh(i);
    }
  }

  lemma NameKeyLow(i: nat)
    requires i < 7
    ensures var s := ITEMS[i].name; |s| >= 2 && (|s|, s[0], s[1]) == KeyOf(ITEMS[i].member)
  {
  }

  lemma NameKeyMiddle(i: nat)
    requires 7 <= i < 15
    ensures var s := ITEMS[i].name; |s| >= 2 && (|s|, s[0], s[1]) == KeyOf(ITEMS[i].member)
  {
  }

  lemma NameKeyHigh(i: nat)
    requires 15 <= i < |ITEMS|
    ensures var s := ITEMS[i].name; |s| >= 2 && (|s|, s[0], s[1]) == KeyOf(ITEMS[i].member)
  {
  }

  lemma NamesDiffer(i: nat, j: nat)
    requires i < |ITEMS| && j < |ITEMS| && ITEMS[i].member != ITEMS[j].member
    ensures ITEMS[i].name != ITEMS[j].name
  {
    if ITEMS[i].name == ITEMS[j].name {
      NameKey(i);
      NameKey(j);
      KeyDecides(ITEMS[i].member, ITEMS[j].member);
    }
  }

  lemma KeyDecides(m: Member, n: Member)
    requires KeyOf(m) == KeyOf(n)
    ensures m == n
  {
  }

  lemma MemberHasOneName(i: nat)
    requires i < |ITEMS|
    ensures ITEMS[i].name == NameOf(ITEMS[i].member)
  {
  }

  lemma {:induction false} FindFirst(rows: seq<Item>, i: nat, row: Item)
    requires i < |rows| && rows[i] == row
    requires forall j | 0 <= j < i :: rows[j].name == row.name ==> rows[j] == row
    ensures FindItem(rows, row.name) == Some(row)
  {
    if rows[0].name != row.name {
      FindFirst(rows[1..], i - 1, row);
    }
  }

  lemma NameFinds(m: Member)
    ensures FindItem(ITEMS, NameOf(m)) == Some(Item(NameOf(m), m))
  {
    var i := RowOf(m);
    forall j | 0 <= j < i ensures ITEMS[j].name == ITEMS[i].name ==> ITEMS[j] == ITEMS[i] {
      if ITEMS[j].member != m {
        NamesDiffer(j, i);
      }
    }
    FindFirst(ITEMS, i, ITEMS[i]);
    MemberHasOneName(i);
  }
}
