/** Typed guarantees of the importer: printed records come back, and neither the order of
    the items of a record nor unknown items matter. */
module RecordLaws {
  import opened Text
  import opened Numbers
  import opened Values
  import opened Import
  import opened ImportLaws

  // ------------------------------------------------------ members are independent

  /** Two records hold the same in one member. */
  ghost predicate Agree(a: Record, b: Record, m: Member) {
    match m
    case Vlan => a.vlanId == b.vlanId
    case Ingress => a.ingressInterface == b.ingressInterface
    case Egress => a.egressInterface == b.egressInterface
    case Dscp => a.dscp == b.dscp
    case SourcePort => a.sourcePort == b.sourcePort
    case DestinationPort => a.destinationPort == b.destinationPort
    case ResponderOctets => a.responderOctets == b.responderOctets
    case InitiatorOctets => a.initiatorOctets == b.initiatorOctets
    case TransportOctets => a.transportOctetDeltaCount == b.transportOctetDeltaCount
    case Layer2 => a.layer2SegmentId == b.layer2SegmentId
    case TcpState => a.tcpControlBits == b.tcpControlBits
    case Protocol => a.protocol == b.protocol
    case EtherType => a.ethernetType == b.ethernetType
    case SourceMac => a.sourceMac == b.sourceMac
    case DestinationMac => a.destinationMac == b.destinationMac
    case SourceIp => a.sourceIp == b.sourceIp
    case DestinationIp => a.destinationIp == b.destinationIp
    case Duration => a.flowDuration == b.flowDuration
    case Start => a.flowStart == b.flowStart
    case End => a.flowEnd == b.flowEnd
    case Latency => a.latency == b.latency
  }

  lemma SameNumbers(a: Record, b: Record)
    requires forall m: Member :: Agree(a, b, m)
    ensures a.vlanId == b.vlanId && a.ingressInterface == b.ingressInterface && a.egressInterface == b.egressInterface
    ensures a.dscp == b.dscp && a.sourcePort == b.sourcePort && a.destinationPort == b.destinationPort
    ensures a.protocol == b.protocol && a.ethernetType == b.ethernetType && a.tcpControlBits == b.tcpControlBits
  {
    assert Agree(a, b, Vlan) && Agree(a, b, Ingress) && Agree(a, b, Egress) && Agree(a, b, Dscp) && Agree(a, b, SourcePort);
    assert Agree(a, b, DestinationPort) && Agree(a, b, Protocol) && Agree(a, b, EtherType) && Agree(a, b, TcpState);
  }

  lemma SameCounts(a: Record, b: Record)
    requires forall m: Member :: Agree(a, b, m)
    ensures a.responderOctets == b.responderOctets && a.initiatorOctets == b.initiatorOctets
    ensures a.transportOctetDeltaCount == b.transportOctetDeltaCount && a.layer2SegmentId == b.layer2SegmentId
    ensures a.flowDuration == b.flowDuration && a.latency == b.latency
  {
    assert Agree(a, b, ResponderOctets) && Agree(a, b, InitiatorOctets) && Agree(a, b, TransportOctets);
    assert Agree(a, b, Layer2) && Agree(a, b, Duration) && Agree(a, b, Latency);
  }

  lemma SameRecord(a: Record, b: Record)
    requires forall m: Member :: Agree(a, b, m)
    ensures a == b
  {
    SameNumbers(a, b);
    SameCounts(a, b);
    assert Agree(a, b, SourceMac) && Agree(a, b, DestinationMac) && Agree(a, b, SourceIp) && Agree(a, b, DestinationIp);
    assert Agree(a, b, Start) && Agree(a, b, End);
  }

  /** A parser writes its own member only. */
  lemma ParseIsLocal(r: Record, m: Member, s: string, other: Member)
    requires other != m
    ensures Agree(ParseMember(r, m, s), r, other)
  {
  }

  /** What it writes depends on nothing but its member and its text. */
  lemma ParseDependsOnMember(a: Record, b: Record, m: Member, s: string)
    requires Agree(a, b, m)
    ensures Agree(ParseMember(a, m, s), ParseMember(b, m, s), m)
  {
  }

  lemma ParsesCommute(r: Record, m: Member, s: string, n: Member, t: string)
    requires m != n
    ensures ParseMember(ParseMember(r, m, s), n, t) == ParseMember(ParseMember(r, n, t), m, s)
  {
    var (x, y) := (ParseMember(ParseMember(r, m, s), n, t), ParseMember(ParseMember(r, n, t), m, s));
    forall k: Member ensures Agree(x, y, k) {
      OrdersAgree(r, m, s, n, t, k);
    }
    SameRecord(x, y);
  }

  lemma OrdersAgree(r: Record, m: Member, s: string, n: Member, t: string, k: Member)
    requires m != n
    ensures Agree(ParseMember(ParseMember(r, m, s), n, t), ParseMember(ParseMember(r, n, t), m, s), k)
  {
    if k == n {
      LaterParse(r, m, s, n, t);
    } else if k == m {
      LaterParse(r, n, t, m, s);
    } else {
      BothUntouched(r, m, s, n, t, k);
    }
  }

  lemma AgreeChain(a: Record, b: Record, c: Record, d: Record, m: Member)
    requires Agree(a, b, m) && Agree(c, d, m) && Agree(b, d, m)
    ensures Agree(a, c, m) && Agree(c, a, m)
  {
  }

  /** In the member of the second parser both orders agree. */
  lemma LaterParse(r: Record, m: Member, s: string, n: Member, t: string)
    requires m != n
    ensures Agree(ParseMember(ParseMember(r, m, s), n, t), ParseMember(ParseMember(r, n, t), m, s), n)
    ensures Agree(ParseMember(ParseMember(r, n, t), m, s), ParseMember(ParseMember(r, m, s), n, t), n)
  {
    var (a, b) := (ParseMember(r, m, s), ParseMember(r, n, t));
    ParseIsLocal(r, m, s, n);
    ParseDependsOnMember(a, r, n, t);
    ParseIsLocal(b, m, s, n);
    AgreeTrans(b, b, b, n);
    AgreeChain(ParseMember(a, n, t), b, ParseMember(b, m, s), b, n);
  }

  lemma BothUntouched(r: Record, m: Member, s: string, n: Member, t: string, k: Member)
    requires k != m && k != n
    ensures Agree(ParseMember(ParseMember(r, m, s), n, t), ParseMember(ParseMember(r, n, t), m, s), k)
  {
    Untouched(r, m, s, n, t, k);
    Untouched(r, n, t, m, s, k);
    AgreeTrans(r, r, r, k);
    AgreeChain(ParseMember(ParseMember(r, m, s), n, t), r, ParseMember(ParseMember(r, n, t), m, s), r, k);
  }

  lemma Untouched(r: Record, m: Member, s: string, n: Member, t: string, k: Member)
    requires k != m && k != n
    ensures Agree(ParseMember(ParseMember(r, m, s), n, t), r, k)
  {
    ParseIsLocal(r, m, s, k);
    ParseIsLocal(ParseMember(r, m, s), n, t, k);
    AgreeTrans(ParseMember(ParseMember(r, m, s), n, t), ParseMember(r, m, s), r, k);
  }

  lemma AgreeTrans(a: Record, b: Record, c: Record, m: Member)
    ensures Agree(a, a, m) && Agree(a, b, m) == Agree(b, a, m)
    ensures Agree(a, b, m) && Agree(b, c, m) ==> Agree(a, c, m)
  {
  }

  // ------------------------------------------------------ order is immaterial

  lemma PairsCommute(r: Record, p: Pair, q: Pair)
    requires Apart(p, q)
    ensures ApplyPair(ApplyPair(r, p.name, p.value), q.name, q.value) == ApplyPair(ApplyPair(r, q.name, q.value), p.name, p.value)
  {
    var (a, b) := (FindItem(ITEMS, p.name), FindItem(ITEMS, q.name));
    if a.Some? && b.Some? {
      var i :| 0 <= i < |ITEMS| && ITEMS[i] == a.value;
      var j :| 0 <= j < |ITEMS| && ITEMS[j] == b.value;
      MemberHasOneName(i);
      MemberHasOneName(j);
      ParsesCommute(r, a.value.member, p.value, b.value.member, q.value);
    }
  }

  ghost predicate Known(name: string) {
    FindItem(ITEMS, name).Some?
  }

  /** No known name occurs twice. */
  ghost predicate DistinctNames(ps: seq<Pair>) {
    forall i, j | 0 <= i < j < |ps| && Known(ps[i].name) :: ps[i].name != ps[j].name
  }

  /** Two items that do not write the same member. */
  ghost predicate Apart(p: Pair, q: Pair) {
    p.name != q.name || !Known(p.name)
  }

  lemma {:induction false} ApplyAppended(r: Record, ps: seq<Pair>, qs: seq<Pair>)
    ensures ApplyPairs(r, ps + qs) == ApplyPairs(ApplyPairs(r, ps), qs)
    decreases |ps|
  {
    if ps == [] {
      assert ps + qs == qs;
    } else {
      assert (ps + qs)[1..] == ps[1..] + qs;
      ApplyAppended(ApplyPair(r, ps[0].name, ps[0].value), ps[1..], qs);
    }
  }

  /** An item can act before items apart from it. */
  lemma {:induction false} ActsFirst(r: Record, front: seq<Pair>, p: Pair)
    requires forall j | 0 <= j < |front| :: Apart(front[j], p)
    ensures ApplyPair(ApplyPairs(r, front), p.name, p.value) == ApplyPairs(ApplyPair(r, p.name, p.value), front)
    decreases |front|
  {
    if front != [] {
      PairsCommute(r, front[0], p);
      ActsFirst(ApplyPair(r, front[0].name, front[0].value), front[1..], p);
    }
  }

  lemma ApplyOne(r: Record, p: Pair)
    ensures ApplyPairs(r, [p]) == ApplyPair(r, p.name, p.value)
  {
    assert [p][1..] == [];
  }

  lemma ApplyAround(r: Record, front: seq<Pair>, p: Pair, back: seq<Pair>)
    ensures ApplyPairs(r, front + [p] + back) == ApplyPairs(ApplyPair(ApplyPairs(r, front), p.name, p.value), back)
  {
    ApplyAppended(r, front + [p], back);
    ApplyAppended(r, front, [p]);
    ApplyOne(ApplyPairs(r, front), p);
  }

  /** An item can be moved to the front past items apart from it. */
  lemma MoveToFront(r: Record, front: seq<Pair>, p: Pair, back: seq<Pair>)
    requires forall j | 0 <= j < |front| :: Apart(front[j], p)
    ensures ApplyPairs(r, front + [p] + back) == ApplyPairs(ApplyPair(r, p.name, p.value), front + back)
  {
    ActsFirst(r, front, p);
    ApplyAround(r, front, p, back);
    ApplyAppended(ApplyPair(r, p.name, p.value), front, back);
  }

  lemma TakeToFront(r: Record, ps: seq<Pair>, i: nat)
    requires i < |ps| && forall j | 0 <= j < i :: Apart(ps[j], ps[i])
    ensures ApplyPairs(r, ps) == ApplyPairs(ApplyPair(r, ps[i].name, ps[i].value), ps[..i] + ps[i + 1..])
  {
    MoveToFront(r, ps[..i], ps[i], ps[i + 1..]);
    assert ps == ps[..i] + [ps[i]] + ps[i + 1..];
  }

  lemma RemoveOne<T>(ps: seq<T>, qs: seq<T>, i: nat)
    requires ps != [] && i < |qs| && qs[i] == ps[0] && multiset(ps) == multiset(qs)
    ensures multiset(qs[..i] + qs[i + 1..]) == multiset(ps[1..])
  {
    var rest := qs[..i] + qs[i + 1..];
    assert ps == [ps[0]] + ps[1..];
    assert multiset(ps) == multiset{ps[0]} + multiset(ps[1..]);
    assert qs == qs[..i] + [qs[i]] + qs[i + 1..];
    assert multiset(qs) == multiset{qs[i]} + multiset(rest);
    forall x ensures multiset(rest)[x] == multiset(ps[1..])[x] {
      assert multiset(ps)[x] == multiset(qs)[x];
    }
  }

  /** The items before the first one's place in a permutation are apart from it. */
  lemma HeadIsApart(ps: seq<Pair>, qs: seq<Pair>, i: nat)
    requires ps != [] && i < |qs| && qs[i] == ps[0] && multiset(ps) == multiset(qs) && DistinctNames(ps)
    ensures forall j | 0 <= j < i :: Apart(qs[j], ps[0])
  {
    var (rest, others) := (ps[1..], qs[..i] + qs[i + 1..]);
    RemoveOne(ps, qs, i);
    forall j | 0 <= j < i ensures Apart(qs[j], ps[0]) {
      assert qs[j] == others[j] && others[j] in multiset(others);
      assert qs[j] in multiset(rest);
      var k :| 0 <= k < |rest| && rest[k] == qs[j];
      assert ps[k + 1] == rest[k];
    }
  }

  /** Permuting the items of a record leaves what it means unchanged. */
  lemma {:induction false} OrderIsImmaterial(r: Record, ps: seq<Pair>, qs: seq<Pair>)
    requires DistinctNames(ps) && multiset(ps) == multiset(qs)
    ensures ApplyPairs(r, ps) == ApplyPairs(r, qs)
    decreases |ps|
  {
    if ps == [] {
      assert |multiset(qs)| == |multiset(ps)|;
    } else {
      var (p, rest) := (ps[0], ps[1..]);
      assert p in multiset(ps);
      var i :| 0 <= i < |qs| && qs[i] == p;
      var others := qs[..i] + qs[i + 1..];
      RemoveOne(ps, qs, i);
      HeadIsApart(ps, qs, i);
      TakeToFront(r, qs, i);
      OrderIsImmaterial(ApplyPair(r, p.name, p.value), rest, others);
    }
  }

  /** An item whose name is not in the table can be inserted anywhere. */
  lemma UnknownIsImmaterial(r: Record, ps: seq<Pair>, q: Pair, qs: seq<Pair>)
    requires !Known(q.name)
    ensures ApplyPairs(r, ps + [q] + qs) == ApplyPairs(r, ps + qs)
  {
    ApplyAppended(r, ps + [q], qs);
    ApplyAppended(r, ps, [q]);
    ApplyAppended(r, ps, qs);
    assert [q][1..] == [];
  }

  lemma {:induction false} KnownIffListed(rows: seq<Item>, name: string)
    ensures FindItem(rows, name).Some? <==> exists i | 0 <= i < |rows| :: rows[i].name == name
  {
    if rows != [] {
      KnownIffListed(rows[1..], name);
      if rows[0].name != name && FindItem(rows[1..], name).Some? {
        var i :| 0 <= i < |rows[1..]| && rows[1..][i].name == name;
        assert rows[i + 1].name == name;
      }
    }
  }

  // ------------------------------------------------------ the same for item texts

  /** The name and value an item text yields, however it is spaced and quoted; an item
      without a colon, or with nothing on one side of it, yields none. */
  function PairOf(item: string): seq<Pair> {
    var colon := ColonAt(item, 0);
    if colon == |item| then []
    else
      var pair := Split(item[colon := VT], VT_ONLY);
      if |pair| == 2 then [Pair(Trim(pair[0], QUOTES), Trim(pair[1], QUOTES))] else []
  }

  function PairsOf(items: seq<string>): seq<Pair> {
    FlatMap(PairOf, items)
  }

  lemma ItemIsPair(r: Record, item: string)
    ensures ApplyItem(r, item) == ApplyPairs(r, PairOf(item))
  {
    var ps := PairOf(item);
    if ps != [] {
      assert ps[1..] == [];
      assert ApplyPairs(r, ps) == ApplyPairs(ApplyPair(r, ps[0].name, ps[0].value), ps[1..]);
    }
  }

  /** The item loop works on the pairs its items yield. */
  lemma {:induction false} ItemsArePairs(r: Record, items: seq<string>)
    ensures ApplyItems(r, items) == ApplyPairs(r, PairsOf(items))
    decreases |items|
  {
    if items != [] {
      ItemIsPair(r, items[0]);
      ItemsArePairs(ApplyItem(r, items[0]), items[1..]);
      ApplyAppended(r, PairOf(items[0]), PairsOf(items[1..]));
    }
  }

  lemma FlatMapAround<A, B>(f: A -> seq<B>, s: seq<A>, i: nat)
    requires i < |s|
    ensures FlatMap(f, s) == FlatMap(f, s[..i]) + f(s[i]) + FlatMap(f, s[i + 1..])
  {
    assert s == s[..i + 1] + s[i + 1..];
    FlatMapAppend(f, s[..i + 1], s[i + 1..]);
    FlatMapSnoc(f, s, i);
  }

  lemma {:induction false} FlatMapPermutes<A, B>(f: A -> seq<B>, s: seq<A>, t: seq<A>)
    requires multiset(s) == multiset(t)
    ensures multiset(FlatMap(f, s)) == multiset(FlatMap(f, t))
    decreases |s|
  {
    if s == [] {
      assert |multiset(t)| == |multiset(s)|;
    } else {
      assert s[0] in multiset(s);
      var i :| 0 <= i < |t| && t[i] == s[0];
      RemoveOne(s, t, i);
      FlatMapAround(f, t, i);
      FlatMapAppend(f, t[..i], t[i + 1..]);
      FlatMapPermutes(f, s[1..], t[..i] + t[i + 1..]);
    }
  }

  /** Item texts whose pairs are a permutation of each other, no known name twice, fill a
      record alike, whatever their spacing and quoting. */
  lemma OrderOfItems(r: Record, items: seq<string>, others: seq<string>)
    requires multiset(PairsOf(items)) == multiset(PairsOf(others)) && DistinctNames(PairsOf(items))
    ensures ApplyItems(r, items) == ApplyItems(r, others)
  {
    ItemsArePairs(r, items);
    ItemsArePairs(r, others);
    OrderIsImmaterial(r, PairsOf(items), PairsOf(others));
  }

  /** In particular, permuted item texts do. */
  lemma PermutedItems(r: Record, items: seq<string>, others: seq<string>)
    requires multiset(items) == multiset(others) && DistinctNames(PairsOf(items))
    ensures ApplyItems(r, items) == ApplyItems(r, others)
  {
    FlatMapPermutes(PairOf, items, others);
    OrderOfItems(r, items, others);
  }

  /** Nothing of the item reaches a member. */
  ghost predicate Idle(item: string) {
    forall p | p in PairOf(item) :: !Known(p.name)
  }

  /** An item text with an unknown name, or none, can be inserted anywhere. */
  lemma UnknownItem(r: Record, before: seq<string>, item: string, after: seq<string>)
    requires Idle(item)
    ensures ApplyItems(r, before + [item] + after) == ApplyItems(r, before + after)
  {
    ItemsArePairs(r, before + [item] + after);
    ItemsArePairs(r, before + after);
    assert (before + [item] + after)[..|before|] == before && (before + [item] + after)[|before| + 1..] == after;
    FlatMapAround(PairOf, before + [item] + after, |before|);
    FlatMapAppend(PairOf, before, after);
    var ps := PairOf(item);
    if ps != [] {
      assert ps == [ps[0]] && ps[0] in ps;
      UnknownIsImmaterial(r, PairsOf(before), ps[0], PairsOf(after));
    } else {
      assert PairsOf(before) + ps == PairsOf(before);
    }
  }

  /** Record texts that yield the same known pairs in whatever order, no name twice.  Whether
      there is any item at all decides whether there is a record. */
  ghost predicate SameItems(a: string, b: string) {
    && (ItemsOf(a) == [] <==> ItemsOf(b) == [])
    && multiset(KnownPairs(PairsOf(ItemsOf(a)))) == multiset(KnownPairs(PairsOf(ItemsOf(b))))
    && DistinctNames(KnownPairs(PairsOf(ItemsOf(a))))
  }

  ghost function KnownPairs(ps: seq<Pair>): seq<Pair> {
    if ps == [] then [] else (if Known(ps[0].name) then [ps[0]] else []) + KnownPairs(ps[1..])
  }

  lemma {:induction false} KnownPairsDecide(r: Record, ps: seq<Pair>)
    ensures ApplyPairs(r, KnownPairs(ps)) == ApplyPairs(r, ps)
    decreases |ps|
  {
    if ps != [] {
      KnownPairsDecide(ApplyPair(r, ps[0].name, ps[0].value), ps[1..]);
      if Known(ps[0].name) {
        assert KnownPairs(ps)[1..] == KnownPairs(ps[1..]);
      } else {
        assert KnownPairs(ps) == KnownPairs(ps[1..]);
      }
    }
  }

  lemma RecordTextAlike(a: string, b: string)
    requires SameItems(a, b)
    ensures OneRecord(a) == OneRecord(b)
  {
    var (ps, qs) := (PairsOf(ItemsOf(a)), PairsOf(ItemsOf(b)));
    ItemsArePairs(ZERO_RECORD, ItemsOf(a));
    ItemsArePairs(ZERO_RECORD, ItemsOf(b));
    KnownPairsDecide(ZERO_RECORD, ps);
    KnownPairsDecide(ZERO_RECORD, qs);
    OrderIsImmaterial(ZERO_RECORD, KnownPairs(ps), KnownPairs(qs));
  }

  /** Both laws together, for the record loop: the order of the items of each record and the
      items it does not know leave the imported records as they are. */
  lemma {:induction false} RecordsAlike(records: seq<string>, others: seq<string>)
    requires |records| == |others| && forall i | 0 <= i < |records| :: SameItems(records[i], others[i])
    ensures Records(records) == Records(others)
    decreases |records|
  {
    if records != [] {
      RecordTextAlike(records[0], others[0]);
      RecordsAlike(records[1..], others[1..]);
    }
  }

  // ------------------------------------------------------ printed records come back

  ghost predicate DatetimeInRange(d: DateTime) {
    && 0 <= d.year < 0x8000_0000 && 0 <= d.month < 0x8000_0000 && 0 <= d.day < 0x8000_0000
    && 0 <= d.hours < 0x8000_0000 && 0 <= d.minutes < 0x8000_0000 && 0 <= d.seconds < 0x8000_0000
    && d.milliseconds == 0 && d.tzOffset == Timespan(0, true) && d.hasValue
  }

  ghost predicate TimespanInRange(t: Timespan) {
    -I64_MAX - 1 <= t.microseconds <= I64_MAX && t.hasValue
  }

  ghost predicate MacInRange(a: MacAddress) {
    |a.octets| == 6 && (forall i | 0 <= i < 6 :: a.octets[i] < 256) && a.hasValue
  }

  /** Records within their field widths, with a known TCP state and a VXLAN identifier below
      2^56 under the VXLAN type byte. */
  ghost predicate InRange(r: Record) {
    && r.vlanId < 0x1_0000 && r.protocol < 256 && r.ethernetType < 0x1_0000 && r.tcpControlBits in {1, 2, 4, 0x10}
    && r.ingressInterface < U32 && r.egressInterface < U32 && r.dscp < 256
    && DatetimeInRange(r.flowStart) && DatetimeInRange(r.flowEnd)
    && TimespanInRange(r.flowDuration) && TimespanInRange(r.latency)
    && r.initiatorOctets < U64 && r.responderOctets < U64 && r.transportOctetDeltaCount < U64
    && 0x100_0000_0000_0000 <= r.layer2SegmentId < 2 * 0x100_0000_0000_0000
    && MacInRange(r.sourceMac) && MacInRange(r.destinationMac)
    && r.sourceIp.value < U32 && r.sourceIp.hasValue && r.destinationIp.value < U32 && r.destinationIp.hasValue
    && r.sourcePort < 0x1_0000 && r.destinationPort < 0x1_0000
  }

  function StateText(flags: nat): string {
    if flags == 1 then "fin" else if flags == 4 then "rst" else if flags == 2 then "syn" else "est"
  }

  ghost function DatetimeValue(d: DateTime): string
    requires DatetimeInRange(d)
  {
    DatetimeText([Decimal(d.year), Decimal(d.month), Decimal(d.day)], [Decimal(d.hours), Decimal(d.minutes), Decimal(d.seconds)])
  }

  /** The printed value of a member. */
  ghost function ValueText(r: Record, m: Member): string
    requires InRange(r)
  {
    match m
    case Vlan => Decimal(r.vlanId)
    case Ingress => Decimal(r.ingressInterface)
    case Egress => Decimal(r.egressInterface)
    case Dscp => Decimal(r.dscp)
    case SourcePort => Decimal(r.sourcePort)
    case DestinationPort => Decimal(r.destinationPort)
    case ResponderOctets => Decimal(r.responderOctets)
    case InitiatorOctets => Decimal(r.initiatorOctets)
    case TransportOctets => Decimal(r.transportOctetDeltaCount)
    case Layer2 => Decimal(r.layer2SegmentId - 0x100_0000_0000_0000)
    case TcpState => StateText(r.tcpControlBits)
    case Protocol => Decimal(r.protocol)
    case EtherType => Decimal(r.ethernetType)
    case SourceMac => MacText(r.sourceMac.octets)
    case DestinationMac => MacText(r.destinationMac.octets)
    case SourceIp => IpText(r.sourceIp.value)
    case DestinationIp => IpText(r.destinationIp.value)
    case Duration => DecimalInt(r.flowDuration.microseconds)
    case Start => DatetimeValue(r.flowStart)
    case End => DatetimeValue(r.flowEnd)
    case Latency => DecimalInt(r.latency.microseconds)
  }

  /** Characters with a meaning in the file, and those trimmed off names and values. */
  const SPECIAL: string := ['[', ']', '{', ',', 11 as char, ' ', '\t', '\r', '\n', '"']

  lemma PlainIsClean(w: string)
    requires NoneIn(w, SPECIAL)
    ensures NoneIn(w, STRUCTURE) && KeepsItsEnds(w)
  {
    assert forall c | c in STRUCTURE :: c in SPECIAL;
    if w != "" {
      assert w[0] in w && w[|w| - 1] in w;
    }
  }

  lemma SpecialIsNoDigit(c: char)
    requires c in SPECIAL
    ensures DigitOf(c) == 99
  {
  }

  lemma DecimalIsPlain(n: nat)
    ensures NoneIn(Decimal(n), SPECIAL)
  {
    forall c | c in SPECIAL ensures DigitOf(c) == 99 { SpecialIsNoDigit(c); }
    DecimalWord(n, SPECIAL);
  }

  lemma DecimalIntIsPlain(n: int)
    ensures NoneIn(DecimalInt(n), SPECIAL)
  {
    DecimalIsPlain(if n < 0 then -n else n);
  }

  lemma IpIsPlain(v: nat)
    ensures NoneIn(IpText(v), SPECIAL)
  {
    DecimalIsPlain(v / 0x100_0000 % 256);
    DecimalIsPlain(v / 0x1_0000 % 256);
    DecimalIsPlain(v / 0x100 % 256);
    DecimalIsPlain(v % 256);
    var ws := [Decimal(v / 0x100_0000 % 256), Decimal(v / 0x1_0000 % 256), Decimal(v / 0x100 % 256), Decimal(v % 256)];
    assert NoneIn(".", SPECIAL);
    JoinAvoids(ws, [".", ".", "."], SPECIAL);
  }

  lemma MacIsPlain(octets: seq<nat>)
    requires |octets| == 6 && forall i | 0 <= i < 6 :: octets[i] < 256
    ensures NoneIn(MacText(octets), SPECIAL)
  {
    var ws := seq(6, i requires 0 <= i < 6 => TwoDigits(octets[i], 16));
    forall c | c in SPECIAL ensures DigitOf(c) == 99 { SpecialIsNoDigit(c); }
    forall i | 0 <= i < 6 ensures NoneIn(ws[i], SPECIAL) {
      HexOctetRoundTrip(octets[i]);
      DigitsAvoid(ws[i], 16, SPECIAL);
    }
    var gaps := [":", ":", ":", ":", ":"];
    assert NoneIn(":", SPECIAL);
    JoinAvoids(ws, gaps, SPECIAL);
  }

  lemma DatetimeIsPlain(d: DateTime)
    requires DatetimeInRange(d)
    ensures NoneIn(DatetimeValue(d), SPECIAL)
  {
    DecimalIsPlain(d.year);
    DecimalIsPlain(d.month);
    DecimalIsPlain(d.day);
    DecimalIsPlain(d.hours);
    DecimalIsPlain(d.minutes);
    DecimalIsPlain(d.seconds);
    var (date, time) := ([Decimal(d.year), Decimal(d.month), Decimal(d.day)], [Decimal(d.hours), Decimal(d.minutes), Decimal(d.seconds)]);
    assert NoneIn("-", SPECIAL) && NoneIn(":", SPECIAL) && NoneIn("T", SPECIAL);
    JoinAvoids(date, ["-", "-"], SPECIAL);
    JoinAvoids(time, [":", ":"], SPECIAL);
    JoinAvoids([Join(date, ["-", "-"]), Join(time, [":", ":"])], ["T"], SPECIAL);
  }

  lemma StateIsPlain(flags: nat)
    ensures NoneIn(StateText(flags), SPECIAL)
  {
  }

  lemma ValueIsPlain(r: Record, m: Member)
    requires InRange(r)
    ensures NoneIn(ValueText(r, m), SPECIAL)
  {
    match m
    case Vlan => DecimalIsPlain(r.vlanId);
    case Ingress => DecimalIsPlain(r.ingressInterface);
    case Egress => DecimalIsPlain(r.egressInterface);
    case Dscp => DecimalIsPlain(r.dscp);
    case SourcePort => DecimalIsPlain(r.sourcePort);
    case DestinationPort => DecimalIsPlain(r.destinationPort);
    case ResponderOctets => DecimalIsPlain(r.responderOctets);
    case InitiatorOctets => DecimalIsPlain(r.initiatorOctets);
    case TransportOctets => DecimalIsPlain(r.transportOctetDeltaCount);
    case Layer2 => DecimalIsPlain(r.layer2SegmentId - 0x100_0000_0000_0000);
    case TcpState => StateIsPlain(r.tcpControlBits);
    case Protocol => DecimalIsPlain(r.protocol);
    case EtherType => DecimalIsPlain(r.ethernetType);
    case SourceMac => MacIsPlain(r.sourceMac.octets);
    case DestinationMac => MacIsPlain(r.destinationMac.octets);
    case SourceIp => IpIsPlain(r.sourceIp.value);
    case DestinationIp => IpIsPlain(r.destinationIp.value);
    case Duration => DecimalIntIsPlain(r.flowDuration.microseconds);
    case Start => DatetimeIsPlain(r.flowStart);
    case End => DatetimeIsPlain(r.flowEnd);
    case Latency => DecimalIntIsPlain(r.latency.microseconds);
  }

  lemma UnsignedRoundTrip(n: nat, modulus: nat)
    requires 0 < modulus <= U64 && n < modulus
    ensures Unsigned(Decimal(n), modulus) == n
  {
    U64RoundTrip(n);
    KeptByMod(StrToU64(Decimal(n), 0), modulus);
  }

  lemma KeptByMod(n: nat, modulus: nat)
    requires n < modulus
    ensures n % modulus == n
  {
  }

  lemma Layer2RoundTrip(id: nat)
    requires 0x100_0000_0000_0000 <= id < 2 * 0x100_0000_0000_0000
    ensures WithVxlanType(Unsigned(Decimal(id - 0x100_0000_0000_0000), U64)) == id
  {
    UnsignedRoundTrip(id - 0x100_0000_0000_0000, U64);
  }

  /** A printed value, parsed into any record, makes that member the printed record's. */
  lemma ValueRoundTrip(a: Record, r: Record, m: Member)
    requires InRange(r)
    ensures Agree(ParseMember(a, m, ValueText(r, m)), r, m)
  {
    match m
    case Vlan => UnsignedRoundTrip(r.vlanId, 0x1_0000);
    case Ingress => UnsignedRoundTrip(r.ingressInterface, U32);
    case Egress => UnsignedRoundTrip(r.egressInterface, U32);
    case Dscp => UnsignedRoundTrip(r.dscp, 256);
    case SourcePort => UnsignedRoundTrip(r.sourcePort, 0x1_0000);
    case DestinationPort => UnsignedRoundTrip(r.destinationPort, 0x1_0000);
    case ResponderOctets => UnsignedRoundTrip(r.responderOctets, U64);
    case InitiatorOctets => UnsignedRoundTrip(r.initiatorOctets, U64);
    case TransportOctets => UnsignedRoundTrip(r.transportOctetDeltaCount, U64);
    case Layer2 => Layer2RoundTrip(r.layer2SegmentId);
    case TcpState =>
    case Protocol => UnsignedRoundTrip(r.protocol, 256);
    case EtherType => UnsignedRoundTrip(r.ethernetType, 0x1_0000);
    case SourceMac => MacRoundTrip(r.sourceMac.octets, a.sourceMac);
    case DestinationMac => MacRoundTrip(r.destinationMac.octets, a.destinationMac);
    case SourceIp => IpRoundTrip(r.sourceIp.value, a.sourceIp);
    case DestinationIp => IpRoundTrip(r.destinationIp.value, a.destinationIp);
    case Duration => MicrosecondsRoundTrip(r.flowDuration.microseconds, a.flowDuration);
    case Start => StampRoundTrip(r.flowStart, a.flowStart);
    case End => StampRoundTrip(r.flowEnd, a.flowEnd);
    case Latency => MicrosecondsRoundTrip(r.latency.microseconds, a.latency);
  }

  lemma StampRoundTrip(d: DateTime, was: DateTime)
    requires DatetimeInRange(d)
    ensures DatetimeOf(DatetimeValue(d), was).1 == d
  {
    DatetimeRoundTrip(d.year, d.month, d.day, d.hours, d.minutes, d.seconds, was);
  }

  /** The items a record is printed as, in a given order. */
  ghost function ItemsIn(r: Record, order: seq<Member>): seq<Pair>
    requires InRange(r)
  {
    if order == [] then [] else [Pair(NameOf(order[0]), ValueText(r, order[0]))] + ItemsIn(r, order[1..])
  }

  lemma {:induction false} PrintedMembersCome(a: Record, r: Record, order: seq<Member>, k: Member)
    requires InRange(r) && (k in order || Agree(a, r, k))
    ensures Agree(ApplyPairs(a, ItemsIn(r, order)), r, k)
    decreases |order|
  {
    if order != [] {
      var m := order[0];
      var b := ParseMember(a, m, ValueText(r, m));
      NameFinds(m);
      assert ItemsIn(r, order)[1..] == ItemsIn(r, order[1..]);
      if k == m {
        ValueRoundTrip(a, r, m);
      } else {
        ParseIsLocal(a, m, ValueText(r, m), k);
        AgreeTrans(b, a, r, k);
      }
      PrintedMembersCome(b, r, order[1..], k);
    }
  }

  ghost predicate MentionsAll(order: seq<Member>) {
    forall m: Member :: m in order
  }

  /** The items of a record, in any order and even repeated, make up the record again. */
  lemma RecordRoundTripInOrder(r: Record, order: seq<Member>)
    requires InRange(r) && MentionsAll(order)
    ensures ApplyPairs(ZERO_RECORD, ItemsIn(r, order)) == r
  {
    forall k: Member ensures Agree(ApplyPairs(ZERO_RECORD, ItemsIn(r, order)), r, k) {
      PrintedMembersCome(ZERO_RECORD, r, order, k);
    }
    SameRecord(ApplyPairs(ZERO_RECORD, ItemsIn(r, order)), r);
  }

  lemma NameIsClean(m: Member)
    ensures NoneIn(NameOf(m), NAME_STRUCTURE) && KeepsItsEnds(NameOf(m))
  {
    var s := NameOf(m);
    MemberHasOneName(RowOf(m));
    forall k | 0 <= k < |s| ensures IsLetter(s[k]) {
      NameLetter(RowOf(m), k);
    }
    LettersAreClean(s);
  }

  lemma LettersAreClean(s: string)
    requires forall k | 0 <= k < |s| :: IsLetter(s[k])
    ensures NoneIn(s, NAME_STRUCTURE) && KeepsItsEnds(s)
  {
  }

  lemma NameLetter(i: nat, k: nat)
    requires i < |ITEMS| && k < |ITEMS[i].name|
    ensures IsLetter(ITEMS[i].name[k])
  {
    if i < 7 {
      NameLetterLow(i, k);
    } else if i < 15 {
      NameLetterMiddle(i, k);
    } else {
      NameLetterHigh(i, k);
    }
  }

  ghost predicate IsLetter(c: char) {
    'a' <= c <= 'z' || c == '-'
  }

  lemma NameLetterLow(i: nat, k: nat)
    requires i < 7 && k < |ITEMS[i].name|
    ensures IsLetter(ITEMS[i].name[k])
  {
  }

  lemma NameLetterMiddle(i: nat, k: nat)
    requires 7 <= i < 15 && k < |ITEMS[i].name|
    ensures IsLetter(ITEMS[i].name[k])
  {
  }

  lemma NameLetterHigh(i: nat, k: nat)
    requires 15 <= i < |ITEMS| && k < |ITEMS[i].name|
    ensures IsLetter(ITEMS[i].name[k])
  {
  }

  lemma {:induction false} ItemsAreClean(r: Record, order: seq<Member>)
    requires InRange(r)
    ensures |ItemsIn(r, order)| == |order|
    ensures forall p | p in ItemsIn(r, order) :: CleanPair(p)
  {
    if order != [] {
      NameIsClean(order[0]);
      ValueIsPlain(r, order[0]);
      PlainIsClean(ValueText(r, order[0]));
      ItemsAreClean(r, order[1..]);
    }
  }

  ghost function DocumentItems(rs: seq<Record>, orders: seq<seq<Member>>): seq<seq<Pair>>
    requires |rs| == |orders| && forall i | 0 <= i < |rs| :: InRange(rs[i])
  {
    if rs == [] then [] else [ItemsIn(rs[0], orders[0])] + DocumentItems(rs[1..], orders[1..])
  }

  /** Import inverts print: any list of records, each printed with all its items in an order
      of its own, is imported as the same records in the same order. */
  lemma {:induction false} ImportInvertsPrint(rs: seq<Record>, orders: seq<seq<Member>>)
    requires |rs| == |orders|
    requires forall i | 0 <= i < |rs| :: InRange(rs[i]) && MentionsAll(orders[i])
    ensures ImportText(PrintDocument(DocumentItems(rs, orders))) == rs
  {
    DocumentIsClean(rs, orders);
    TextRoundTrip(DocumentItems(rs, orders));
    DocumentMeans(rs, orders);
  }

  lemma {:induction false} DocumentIsClean(rs: seq<Record>, orders: seq<seq<Member>>)
    requires |rs| == |orders|
    requires forall i | 0 <= i < |rs| :: InRange(rs[i]) && MentionsAll(orders[i])
    ensures CleanDocument(DocumentItems(rs, orders))
  {
    if rs != [] {
      ItemsAreClean(rs[0], orders[0]);
      assert Vlan in orders[0];
      DocumentIsClean(rs[1..], orders[1..]);
    }
  }

  lemma MeaningOfMore(ps: seq<Pair>, rest: seq<seq<Pair>>)
    ensures Meaning([ps] + rest) == [ApplyPairs(ZERO_RECORD, ps)] + Meaning(rest)
  {
    assert ([ps] + rest)[1..] == rest;
  }

  lemma {:induction false} DocumentMeans(rs: seq<Record>, orders: seq<seq<Member>>)
    requires |rs| == |orders|
    requires forall i | 0 <= i < |rs| :: InRange(rs[i]) && MentionsAll(orders[i])
    ensures Meaning(DocumentItems(rs, orders)) == rs
  {
    if rs != [] {
      RecordRoundTripInOrder(rs[0], orders[0]);
      DocumentMeans(rs[1..], orders[1..]);
      MeaningOfMore(ItemsIn(rs[0], orders[0]), DocumentItems(rs[1..], orders[1..]));
      assert rs == [rs[0]] + rs[1..];
    }
  }
}
