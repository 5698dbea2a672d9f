/** The offline importer: takes a JSON-like text apart in four nested passes of split and
    trim, and hands item values to typed parsers. */
module Import {
  import opened Options
  import opened Sequences
  import opened Text
  import opened Strings
  import opened Numbers
  import opened Values
  import DataList

  // ------------------------------------------------------------ records

  datatype Record = Record(vlanId: nat, protocol: nat, ethernetType: nat, tcpControlBits: nat,
                           ingressInterface: nat, egressInterface: nat, flowStart: DateTime, flowEnd: DateTime,
                           flowDuration: Timespan, latency: Timespan, dscp: nat,
                           initiatorOctets: nat, responderOctets: nat, layer2SegmentId: nat, transportOctetDeltaCount: nat,
                           sourceMac: MacAddress, sourceIp: IpAddress, sourcePort: nat,
                           destinationMac: MacAddress, destinationIp: IpAddress, destinationPort: nat)

  const ZERO_TIMESPAN := Timespan(0, false)
  const ZERO_DATETIME := DateTime(0, 0, 0, 0, 0, 0, 0, ZERO_TIMESPAN, false)
  const ZERO_MAC := MacAddress([0, 0, 0, 0, 0, 0], false)
  const ZERO_IP := IpAddress(0, false)

  /** A record initialised with { 0 }. */
  const ZERO_RECORD := Record(0, 0, 0, 0, 0, 0, ZERO_DATETIME, ZERO_DATETIME, ZERO_TIMESPAN, ZERO_TIMESPAN, 0,
                              0, 0, 0, 0, ZERO_MAC, ZERO_IP, 0, ZERO_MAC, ZERO_IP, 0)

  // ------------------------------------------------------------ items

  /** The members of a record an item can be parsed into. */
  datatype Member =
    | Vlan | Ingress | Egress | Dscp | SourcePort | DestinationPort | ResponderOctets | InitiatorOctets
    | TransportOctets | Layer2 | TcpState | Protocol | EtherType | SourceMac | DestinationMac
    | SourceIp | DestinationIp | Duration | Start | End | Latency

  /** A row of the item table.  The parser of a row is the one its member calls for. */
  datatype Item = Item(name: string, member: Member)

  const ITEMS: seq<Item> := [
    Item("vlan", Vlan), Item("src-switch-port", Ingress), Item("dst-switch-port", Egress), Item("dscp", Dscp),
    Item("src-port", SourcePort), Item("dst-port", DestinationPort), Item("ibytes", ResponderOctets),
    Item("obytes", InitiatorOctets), Item("total-bytes", TransportOctets), Item("vxlan", Layer2),
    Item("cur-state", TcpState), Item("proto", Protocol), Item("ether-type", EtherType),
    Item("src-mac", SourceMac), Item("dst-mac", DestinationMac), Item("src-ip", SourceIp), Item("dst-ip", DestinationIp),
    Item("dur", Duration), Item("started-time", Start), Item("ended-time", End), Item("ended-time", End),
    Item("latency", Latency)
  ]

  /** The first row with this name. */
  function FindItem(rows: seq<Item>, name: string): (r: Option<Item>)
    ensures r.Some? ==> r.value in rows && r.value.name == name
  {
    if rows == [] then None else if rows[0].name == name then Some(rows[0]) else FindItem(rows[1..], name)
  }

  /** nvipfix_import_get_item. */
  method GetItem(name: string) returns (result: Option<Item>)
    ensures result == FindItem(ITEMS, name)
  {
    result := SearchItems(ITEMS, name);
  }

  /** Its loop over the table. */
  method SearchItems(rows: seq<Item>, name: string) returns (result: Option<Item>)
    ensures result == FindItem(rows, name)
  {
    result := None;
    for i := 0 to |rows|
      invariant FindItem(rows, name) == FindItem(rows[i..], name)
    {
      assert rows[i..][1..] == rows[i + 1..];
      if rows[i].name == name {
        result := Some(rows[i]);
        return;
      }
    }
  }

  const VXLAN_BIT := 0x100_0000_0000_0000

  /** x | (NV_IPFIX_LAYER2_NETWORK_TYPE_VxLAN << 56): sets bit 56. */
  function WithVxlanType(x: nat): nat {
    if x / VXLAN_BIT % 2 == 1 then x else x + VXLAN_BIT
  }

  /** nvipfix_import_parse_tcp_control_flags on flags that held `was`. */
  function TcpFlags(s: string, was: nat): nat {
    if s == "fin" then 1 else if s == "rst" then 4 else if s == "syn" then 2 else if s == "est" then 0x10 else was
  }

  /** The low bits an unsigned number parser keeps. */
  function Unsigned(s: string, modulus: nat): (n: nat)
    requires modulus > 0
    ensures n < modulus
  {
    StrToU64(s, 0) % modulus
  }

  /** The effect of the parser of an item on a record. */
  function ParseMember(r: Record, m: Member, s: string): Record {
    match m
    case Vlan => r.(vlanId := Unsigned(s, 0x1_0000))
    case Ingress => r.(ingressInterface := Unsigned(s, U32))
    case Egress => r.(egressInterface := Unsigned(s, U32))
    case Dscp => r.(dscp := Unsigned(s, 256))
    case SourcePort => r.(sourcePort := Unsigned(s, 0x1_0000))
    case DestinationPort => r.(destinationPort := Unsigned(s, 0x1_0000))
    case ResponderOctets => r.(responderOctets := Unsigned(s, U64))
    case InitiatorOctets => r.(initiatorOctets := Unsigned(s, U64))
    case TransportOctets => r.(transportOctetDeltaCount := Unsigned(s, U64))
    case Layer2 => r.(layer2SegmentId := WithVxlanType(Unsigned(s, U64)))
    case TcpState => r.(tcpControlBits := TcpFlags(s, r.tcpControlBits))
    case Protocol => r.(protocol := Unsigned(s, 256))
    case EtherType => r.(ethernetType := Unsigned(s, 0x1_0000))
    case SourceMac => r.(sourceMac := MacOf(s, r.sourceMac).1)
    case DestinationMac => r.(destinationMac := MacOf(s, r.destinationMac).1)
    case SourceIp => r.(sourceIp := IpOf(s, r.sourceIp).1)
    case DestinationIp => r.(destinationIp := IpOf(s, r.destinationIp).1)
    case Duration => r.(flowDuration := MicrosecondsOf(s, r.flowDuration).1)
    case Start => r.(flowStart := DatetimeOf(s, r.flowStart).1)
    case End => r.(flowEnd := DatetimeOf(s, r.flowEnd).1)
    case Latency => r.(latency := MicrosecondsOf(s, r.latency).1)
  }

  // ------------------------------------------------------ what a text means

  const VT: char := 11 as char
  const VT_ONLY: string := [VT]
  const QUOTES := " \t\r\n\""
  const NAME_TRIM := "{}\r\n\t \":"

  /** strchr: the first colon at or after i, or the end. */
  function ColonAt(s: string, i: nat): (r: nat)
    requires i <= |s|
    ensures i <= r <= |s| && (r < |s| ==> s[r] == ':')
    ensures forall k | i <= k < r :: s[k] != ':'
    decreases |s| - i
  {
    if i == |s| || s[i] == ':' then i else ColonAt(s, i + 1)
  }

  /** A name and a value, once taken apart. */
  function ApplyPair(r: Record, name: string, value: string): Record {
    var row := FindItem(ITEMS, name);
    if row.Some? then ParseMember(r, row.value.member, value) else r
  }

  /** One item: divided at its first colon, trimmed, looked up, parsed. */
  function ApplyItem(r: Record, item: string): Record {
    var colon := ColonAt(item, 0);
    if colon == |item| then r
    else
      var pair := Split(item[colon := VT], VT_ONLY);
      if |pair| == 2 then ApplyPair(r, Trim(pair[0], QUOTES), Trim(pair[1], QUOTES)) else r
  }

  function ApplyItems(r: Record, items: seq<string>): Record
    decreases |items|
  {
    if items == [] then r else ApplyItems(ApplyItem(r, items[0]), items[1..])
  }

  /** The items of one record text. */
  function ItemsOf(record: string): seq<string> {
    Split(Trim(record, ",}"), ",")
  }

  /** The record a record text stands for; one without items is dropped. */
  function OneRecord(record: string): seq<Record> {
    var items := ItemsOf(record);
    if items == [] then [] else [ApplyItems(ZERO_RECORD, items)]
  }

  function FlatMap<A, B>(f: A -> seq<B>, s: seq<A>): seq<B> {
    if s == [] then [] else f(s[0]) + FlatMap(f, s[1..])
  }

  function Records(records: seq<string>): seq<Record> {
    FlatMap(OneRecord, records)
  }

  /** The records of a data token. */
  function DataRecords(token: string): seq<Record> {
    Records(Split(token, "{"))
  }

  predicate NamesData(token: string) {
    Trim(token, NAME_TRIM) == "data"
  }

  /** Whether token k is followed by the data it announces. */
  predicate AnnouncesData(tokens: seq<string>, k: nat) {
    k + 1 < |tokens| && NamesData(tokens[k])
  }

  /** The data token is the one after a token that trims to "data". */
  function ImportTokens(tokens: seq<string>, k: nat): seq<Record>
    requires k <= |tokens|
    decreases |tokens| - k
  {
    if k == |tokens| then []
    else if AnnouncesData(tokens, k) then DataRecords(tokens[k + 1]) + ImportTokens(tokens, k + 2)
    else ImportTokens(tokens, k + 1)
  }

  /** The records a file holds. */
  function ImportText(text: string): seq<Record> {
    ImportTokens(Split(text, "[]"), 0)
  }

  // ------------------------------------------------------------ the program

  /** The body of the item loop. */
  method ImportItem(item: string, data: Record) returns (r: Record)
    requires IsText(item)
    ensures r == ApplyItem(data, item)
  {
    r := data;
    var delimiter := ColonAt(item, 0);
    if delimiter < |item| {
      var buffer := item[delimiter := VT];
      assert IsText(buffer) by {
        forall c | c in buffer ensures 0 < c as int < 128 { if c != VT { assert c in item; } }
      }
      assert IsText(QUOTES) && IsText(VT_ONLY);
      var itemPair := Tokens(buffer, VT_ONLY);
      if |itemPair| == 2 {
        var itemName := StringTrimCopy(itemPair[0], QUOTES);
        var itemValue := StringTrimCopy(itemPair[1], QUOTES);
        var importItem := GetItem(itemName);
        if importItem != None {
          r := ParseMember(r, importItem.value.member, itemValue);
        }
      }
    }
  }

  /** The item loop over one record. */
  method ImportItems(items: seq<string>) returns (data: Record)
    requires forall i | i in items :: IsText(i)
    ensures data == ApplyItems(ZERO_RECORD, items)
  {
    data := ZERO_RECORD;
    assert items[0..] == items;
    for k := 0 to |items|
      invariant ApplyItems(data, items[k..]) == ApplyItems(ZERO_RECORD, items)
    {
      assert items[k..][1..] == items[k + 1..] && items[k] in items;
      data := ImportItem(items[k], data);
    }
  }

  /** The body of the record loop. */
  method ImportRecord(text: string, list: DataList.List?<Record>) returns (result: DataList.List?<Record>)
    requires IsText(text)
    requires list != null ==> list.Valid()
    modifies DataList.ReprOf(list)
    ensures result != null ==> result.Valid()
    ensures DataList.ContentsOf(result) == old(DataList.ContentsOf(list)) + OneRecord(text)
    ensures fresh(DataList.ReprOf(result) - old(DataList.ReprOf(list)))
  {
    result := list;
    TrimIsText(text, ",}");
    var trimmed := StringTrimCopy(text, ",}");
    var items := Tokens(trimmed, ",");
    if items != [] {
      var data := ImportItems(items);
      result := DataList.AddCopy(result, data);
    }
  }

  /** The record loop over a data token. */
  method ImportRecords(token: string, list: DataList.List?<Record>) returns (result: DataList.List?<Record>)
    requires IsText(token)
    requires list != null ==> list.Valid()
    modifies DataList.ReprOf(list)
    ensures result != null ==> result.Valid()
    ensures DataList.ContentsOf(result) == old(DataList.ContentsOf(list)) + DataRecords(token)
    ensures fresh(DataList.ReprOf(result) - old(DataList.ReprOf(list)))
  {
    result := list;
    var records := Tokens(token, "{");
    ghost var before := DataList.ContentsOf(list);
    assert records[..0] == [];
    for k := 0 to |records|
      invariant result != null ==> result.Valid()
      invariant fresh(DataList.ReprOf(result) - old(DataList.ReprOf(list)))
      invariant DataList.ContentsOf(result) == before + FlatMap(OneRecord, records[..k])
    {
      FlatMapSnoc(OneRecord, records, k);
      Reassociate(before, FlatMap(OneRecord, records[..k]), OneRecord(records[k]));
      assert records[k] in records;
      result := ImportRecord(records[k], result);
    }
    assert records[..|records|] == records;
  }

  lemma {:induction false} FlatMapAppend<A, B>(f: A -> seq<B>, a: seq<A>, b: seq<A>)
    ensures FlatMap(f, a + b) == FlatMap(f, a) + FlatMap(f, b)
  {
    if a == [] {
      assert a + b == b;
    } else {
      assert (a + b)[1..] == a[1..] + b;
      FlatMapAppend(f, a[1..], b);
    }
  }

  lemma FlatMapSnoc<A, B>(f: A -> seq<B>, s: seq<A>, k: nat)
    requires k < |s|
    ensures FlatMap(f, s[..k + 1]) == FlatMap(f, s[..k]) + f(s[k])
  {
    assert s[..k + 1] == s[..k] + [s[k]];
    FlatMapAppend(f, s[..k], [s[k]]);
    assert FlatMap(f, [s[k]]) == f(s[k]) + FlatMap(f, [s[k]][1..]);
  }

  lemma TokensStep(before: seq<Record>, tokens: seq<string>, k: nat, next: nat, more: seq<Record>)
    requires k < next <= |tokens| && Consumes(tokens, k, next, more)
    ensures (before + more) + ImportTokens(tokens, next) == before + ImportTokens(tokens, k)
  {
    TokensAfter(tokens, k, next, more);
    Reassociate(before, more, ImportTokens(tokens, next));
  }

  lemma TokensAfter(tokens: seq<string>, k: nat, next: nat, more: seq<Record>)
    requires k < next <= |tokens| && Consumes(tokens, k, next, more)
    ensures ImportTokens(tokens, k) == more + ImportTokens(tokens, next)
  {
  }

  /** What one turn of the token loop consumes and delivers. */
  ghost predicate Consumes(tokens: seq<string>, k: nat, next: nat, more: seq<Record>)
    requires k < |tokens|
  {
    if AnnouncesData(tokens, k) then next == k + 2 && more == DataRecords(tokens[k + 1]) else next == k + 1 && more == []
  }

  method CheckData(tokens: seq<string>, k: nat) returns (r: bool)
    requires k < |tokens| && IsText(tokens[k])
    ensures r == AnnouncesData(tokens, k)
  {
    var tokenCopy := StringTrimCopy(tokens[k], NAME_TRIM);
    r := tokenCopy == "data" && k + 1 < |tokens|;
  }

  /** The body of the token loop: a data token is consumed with the token that names it. */
  method ImportToken(tokens: seq<string>, k: nat, list: DataList.List?<Record>)
      returns (result: DataList.List?<Record>, next: nat, ghost more: seq<Record>)
    requires k < |tokens| && forall i | 0 <= i < |tokens| :: IsText(tokens[i])
    requires list != null ==> list.Valid()
    modifies DataList.ReprOf(list)
    ensures k < next <= |tokens| && Consumes(tokens, k, next, more)
    ensures result != null ==> result.Valid()
    ensures fresh(DataList.ReprOf(result) - old(DataList.ReprOf(list)))
    ensures DataList.ContentsOf(result) == old(DataList.ContentsOf(list)) + more
  {
    result, next, more := list, k + 1, [];
    var isData := CheckData(tokens, k);
    if isData {
      more := DataRecords(tokens[k + 1]);
      result := ImportRecords(tokens[k + 1], list);
      next := k + 2;
    }
  }

  /** nvipfix_import, from the terminated buffer on. */
  method Import(text: string) returns (result: DataList.List?<Record>)
    requires IsText(text)
    ensures result != null ==> result.Valid()
    ensures DataList.ContentsOf(result) == ImportText(text)
  {
    result := null;
    var tokens := Tokens(text, "[]");
    ghost var all := ImportTokens(tokens, 0);
    var k := 0;
    while k < |tokens|
      invariant 0 <= k <= |tokens|
      invariant result != null ==> result.Valid()
      invariant fresh(DataList.ReprOf(result))
      invariant DataList.ContentsOf(result) + ImportTokens(tokens, k) == all
      decreases |tokens| - k
    {
      ghost var before, from := DataList.ContentsOf(result), k;
      ghost var more;
      result, k, more := ImportToken(tokens, k, result);
      TokensStep(before, tokens, from, k, more);
    }
  }
}
