/** What the configuration reader does with given words: the names it knows, the braces it
    heeds, the blocks it keeps.  Names and characters are written out here. */
module ConfigTexts {
  import opened Options
  import opened Text
  import opened Numbers
  import opened Values
  import opened Config
  import opened ConfigLaws

  // ------------------------------------------------------------ names

  lemma RowMeans(i: nat)
    requires i < |SETTINGS|
    ensures var s := SETTINGS[i];
      && (s.parentId == 0 || s.parentId == COLLECTOR)
      && (s.parentId == 0 ==> if s.value.Some? then s.name == GlobalName(s.value.value) else s.name == "collector" && i == 5)
      && (s.parentId == COLLECTOR ==> s.offset.Some? && s.offset.value != Name && s.name == FieldName(s.offset.value))
  {
  }

  ghost predicate IsGlobalName(name: string) {
    exists g: Global :: GlobalName(g) == name
  }

  ghost predicate IsFieldName(name: string) {
    exists f: MemberField :: FieldName(f) == name
  }

  /** A name is looked up where it belongs and nowhere else: five variables and the collector
      at the top level, five members in a collector, nothing under any other setting. */
  lemma LookupIsExact(name: string, parentId: nat)
    ensures FindSetting(SETTINGS, name, parentId).Some? <==>
              (parentId == 0 && (name == "collector" || IsGlobalName(name))) || (parentId == COLLECTOR && IsFieldName(name))
    ensures forall g: Global | parentId == 0 && GlobalName(g) == name ::
              FindSetting(SETTINGS, name, 0).Some? && FindSetting(SETTINGS, name, 0).value.value == Some(g)
    ensures forall f: MemberField | parentId == COLLECTOR && FieldName(f) == name ::
              FindSetting(SETTINGS, name, COLLECTOR).Some? && FindSetting(SETTINGS, name, COLLECTOR).value.offset == Some(f)
  {
    var found := FindSetting(SETTINGS, name, parentId);
    if found.Some? {
      var i :| 0 <= i < |SETTINGS| && SETTINGS[i] == found.value;
      RowMeans(i);
    }
    forall g: Global | parentId == 0 && GlobalName(g) == name ensures found == Some(SETTINGS[GlobalRow(g)]) {
      GlobalIsNamed(g);
      SettingAt(GlobalRow(g));
    }
    forall f: MemberField | parentId == COLLECTOR && FieldName(f) == name ensures found == Some(SETTINGS[FieldRow(f)]) {
      FieldIsNamed(f);
      SettingAt(FieldRow(f));
    }
    if parentId == 0 && name == "collector" {
      SettingAt(5);
    }
  }

  // ------------------------------------------------------------ words of a line

  ghost predicate IsBrace(w: string) {
    w != "" && (w[0] == '{' || w[0] == '}')
  }

  ghost predicate NoBrace(ws: seq<string>) {
    forall i | 0 <= i < |ws| :: !IsBrace(ws[i])
  }

  lemma {:induction false} StepsAppended(ls: LineState, a: seq<string>, b: seq<string>)
    ensures Steps(ls, a + b) == Steps(Steps(ls, a), b)
  {
    if b == [] {
      assert a + b == a;
    } else {
      assert (a + b)[..|a + b| - 1] == a + b[..|b| - 1];
      StepsAppended(ls, a, b[..|b| - 1]);
    }
  }

  lemma StepsOne(ls: LineState, w: string)
    ensures Steps(ls, [w]) == Step(ls, w)
  {
    assert [w][..0] == [];
  }

  lemma StepsTwo(ls: LineState, v: string, w: string)
    ensures Steps(ls, [v, w]) == Step(Step(ls, v), w)
  {
    assert [v, w][..1] == [v];
    StepsOne(ls, v);
  }

  /** From the third word after a brace on, or after an unknown name, nothing happens. */
  lemma {:induction false} IdleWords(ls: LineState, ws: seq<string>)
    requires NoBrace(ws) && (ls.tokenIndex >= 2 || (ls.tokenIndex == 1 && ls.setting.None?))
    ensures Steps(ls, ws).st == ls.st
    ensures Steps(ls, ws).tokenIndex == ls.tokenIndex + |ws| && Steps(ls, ws).setting == ls.setting
  {
    if ws != [] {
      IdleWords(ls, ws[..|ws| - 1]);
    }
  }

  /** A name and its value act; the words after them do not. */
  lemma ExtraWordsAreIgnored(st: State, v: string, w: string, rest: seq<string>)
    requires NoBrace([v, w]) && NoBrace(rest)
    ensures ReadWords(st, [v, w] + rest) == ReadWords(st, [v, w])
  {
    var start := LineState(st, 0, None);
    StepsTwo(start, v, w);
    StepsAppended(start, [v, w], rest);
    assert !IsBrace([v, w][0]) && !IsBrace([v, w][1]);
    IdleWords(Step(Step(start, v), w), rest);
  }

  /** A name unknown where it stands makes its line idle. */
  lemma UnknownNameIsIgnored(st: State, v: string, rest: seq<string>)
    requires !IsBrace(v) && NoBrace(rest)
    requires st.parentId == 0 ==> v != "collector" && !IsGlobalName(v)
    requires st.parentId == COLLECTOR ==> !IsFieldName(v)
    ensures ReadWords(st, [v] + rest) == st
  {
    var start := LineState(st, 0, None);
    LookupIsExact(v, st.parentId);
    StepsOne(start, v);
    StepsAppended(start, [v], rest);
    IdleWords(Step(start, v), rest);
  }

  /** A known name and its value are one parser call. */
  lemma NameAndValue(st: State, i: nat, w: string, rest: seq<string>)
    requires i < |SETTINGS| && st.parentId == SETTINGS[i].parentId && !IsBrace(w) && NoBrace(rest)
    ensures ReadWords(st, [SETTINGS[i].name, w] + rest) == ParseValue(Select(st, Some(SETTINGS[i])), SETTINGS[i], w)
  {
    var start, name := LineState(st, 0, None), SETTINGS[i].name;
    RowIsWord(i);
    SettingAt(i);
    StepsTwo(start, name, w);
    ExtraWordsAreIgnored(st, name, w, rest);
  }

  /** At the top level the value goes to the variable of the name and nowhere else. */
  lemma NamedVariable(st: State, g: Global, w: string, rest: seq<string>)
    requires st.parentId == 0 && !IsBrace(w) && NoBrace(rest)
    ensures var r := ReadWords(st, [GlobalName(g), w] + rest);
      r.globals == ParseGlobal(st.globals, g, w) && r.scratch == st.scratch && r.collectors == st.collectors && r.parentId == 0
  {
    GlobalIsNamed(g);
    NameAndValue(st, GlobalRow(g), w, rest);
  }

  /** In a collector it goes to the member of the name and nowhere else. */
  lemma NamedMember(st: State, f: MemberField, w: string, rest: seq<string>)
    requires st.parentId == COLLECTOR && !IsBrace(w) && NoBrace(rest)
    ensures var r := ReadWords(st, [FieldName(f), w] + rest);
      r.scratch == ParseField(st.scratch, f, w) && r.globals == st.globals && r.collectors == st.collectors && r.parentId == COLLECTOR
  {
    FieldIsNamed(f);
    NameAndValue(st, FieldRow(f), w, rest);
  }

  // ------------------------------------------------------------ braces

  /** What follows a brace in its word is not read. */
  lemma TextAfterBrace(st: State, before: seq<string>, junk: string, after: seq<string>)
    ensures ReadWords(st, before + ["{" + junk] + after) == ReadWords(st, before + ["{"] + after)
    ensures ReadWords(st, before + ["}" + junk] + after) == ReadWords(st, before + ["}"] + after)
  {
    SameAround(st, before, "{" + junk, "{", after);
    SameAround(st, before, "}" + junk, "}", after);
  }

  lemma SameAround(st: State, before: seq<string>, v: string, w: string, after: seq<string>)
    requires forall ls :: Step(ls, v) == Step(ls, w)
    ensures ReadWords(st, before + [v] + after) == ReadWords(st, before + [w] + after)
  {
    var start := LineState(st, 0, None);
    StepsAppended(start, before + [v], after);
    StepsAppended(start, before + [w], after);
    StepsAppended(start, before, [v]);
    StepsAppended(start, before, [w]);
    StepsOne(Steps(start, before), v);
    StepsOne(Steps(start, before), w);
    assert Step(Steps(start, before), v) == Step(Steps(start, before), w);
  }

  /** A closing brace outside a collector adds nothing. */
  lemma StrayBrace(st: State)
    requires st.parentId != COLLECTOR
    ensures ReadWords(st, ["}"]) == st.(parentId := 0)
  {
    StepsOne(LineState(st, 0, None), "}");
  }

  /** A row of another setting than the collector. */
  ghost predicate IsForeign(i: nat) {
    i < |SETTINGS| && i != 5
  }

  lemma IdsAreForeign(i: nat)
    requires IsForeign(i)
    ensures SETTINGS[i].id != 0 && SETTINGS[i].id != COLLECTOR
  {
  }

  /** A brace after a setting that is no collector opens a block in which no name is known. */
  lemma ForeignBrace(st: State, i: nat, w: string)
    requires IsForeign(i) && st.parentId == SETTINGS[i].parentId && !IsBrace(w)
    ensures var inside := ReadWords(st, [SETTINGS[i].name, w, "{"]);
      && inside.parentId != 0 && inside.parentId != COLLECTOR
      && inside.collectors == st.collectors
      && SameVariables(inside, ReadWords(st, [SETTINGS[i].name, w]).(parentId := inside.parentId))
  {
    var (start, name) := (LineState(st, 0, None), SETTINGS[i].name);
    IdsAreForeign(i);
    NameAndValue(st, i, w, []);
    assert [name, w] + [] == [name, w];
    assert [name, w, "{"] == [name, w] + ["{"];
    StepsAppended(start, [name, w], ["{"]);
    StepsOne(Steps(start, [name, w]), "{");
  }

  /** The lines of such a block are idle, and the closing brace closes with it what was open:
      a collector is lost. */
  lemma ForeignBlock(inside: State, inner: seq<string>)
    requires inside.parentId != 0 && inside.parentId != COLLECTOR && NoBrace(inner)
    ensures ReadWords(inside, inner) == inside
    ensures ReadWords(inside, ["}"]) == inside.(parentId := 0)
  {
    StrayBrace(inside);
    if inner != [] {
      assert inner == [inner[0]] + inner[1..];
      UnknownNameIsIgnored(inside, inner[0], inner[1..]);
    }
  }

  // ------------------------------------------------------------ blocks

  /** The last transport a block names; other words name none. */
  ghost function LastTransport(ms: seq<Member>): Option<Transport> {
    if ms == [] then None
    else
      var later := LastTransport(ms[1..]);
      if later.Some? then later
      else if ms[0].field == TransportKind && ms[0].value == "udp" then Some(Udp)
      else if ms[0].field == TransportKind && ms[0].value == "tcp" then Some(Tcp)
      else if ms[0].field == TransportKind && ms[0].value == "sctp" then Some(Sctp)
      else None
  }

  lemma {:induction false} DescribedTransport(c: Collector, ms: seq<Member>)
    ensures LastTransport(ms) != Some(Undefined)
    ensures Described(c, ms).transport == if LastTransport(ms).Some? then LastTransport(ms).value else c.transport
    decreases |ms|
  {
    if ms != [] {
      DescribedTransport(ParseField(c, ms[0].field, ms[0].value), ms[1..]);
    }
  }

  /** The last address of a block decides whether it has one: it needs four parts. */
  lemma {:induction false} DescribedAddress(c: Collector, ms: seq<Member>)
    requires forall m | m in ms :: Printable(m.value)
    ensures Described(c, ms).ipAddress.hasValue ==
      match LastMember(ms, Address) case None => c.ipAddress.hasValue case Some(s) => |Split(s, ".")| == 4
    decreases |ms|
  {
    if ms != [] {
      assert ms[0] in ms && forall m | m in ms[1..] :: m in ms;
      DescribedAddress(ParseField(c, ms[0].field, ms[0].value), ms[1..]);
      SplitMeaning(ms[0].value, ".");
    }
  }

  /** A closing brace adds the open collector if it has a host or an address, completed with
      port 4739 and UDP, and leaves it in the scratch collector; otherwise it only closes. */
  lemma ClosingBrace(st: State)
    requires st.parentId == COLLECTOR
    ensures var r := ReadWords(st, ["}"]);
      && r.parentId == 0 && r.globals == st.globals
      && if st.scratch.host.None? && !st.scratch.ipAddress.hasValue then r.scratch == st.scratch && r.collectors == st.collectors
         else
           && r.collectors == [r.scratch] + st.collectors
           && r.scratch == st.scratch.(port := if st.scratch.port.None? then Some("4739") else st.scratch.port,
                                       transport := if st.scratch.transport == Undefined then Udp else st.scratch.transport)
  {
    StepsOne(LineState(st, 0, None), "}");
  }

  /** A block has somewhere to send to: a host name, or an address of four parts given last. */
  ghost predicate Reaches(ms: seq<Member>) {
    || LastMember(ms, Host).Some?
    || (LastMember(ms, Address).Some? && |Split(LastMember(ms, Address).value, ".")| == 4)
  }

  /** A block that reaches somewhere becomes one more collector, at the front, as described
      and with port 4739 and UDP where it gives none; any other block leaves the list. */
  lemma BlockIsRead(st: State, name: string, ms: seq<Member>)
    requires st.parentId == 0 && Printable(name) && forall m | m in ms :: Printable(m.value)
    ensures var r := ReadWordLines(st, EntryWords(Block(name, ms)));
      && r.parentId == 0 && r.globals == st.globals
      && (!Reaches(ms) ==> r.collectors == st.collectors)
      && (Reaches(ms) ==>
           && |r.collectors| == |st.collectors| + 1 && r.collectors[1..] == st.collectors
           && var c := r.collectors[0];
              && c.name == Some(name) && c.host == LastMember(ms, Host)
              && c.port == Some(if LastMember(ms, Port).Some? then LastMember(ms, Port).value else "4739")
              && c.transport == (if LastTransport(ms).Some? then LastTransport(ms).value else Udp)
              && c.dscp == if LastMember(ms, Dscp).Some? then StrToU64(LastMember(ms, Dscp).value, 0) % 256 else 0)
  {
    var e := Block(name, ms);
    var named := ZERO_COLLECTOR.(name := Some(name));
    ReadEntry(st, e);
    assert [e][1..] == [];
    LastMemberWins(named, ms);
    DescribedAddress(named, ms);
    DescribedTransport(named, ms);
  }

  /** So the printed form of an address is enough, and a block with neither is not. */
  lemma BlockWithAddress(ms: seq<Member>, v: nat)
    requires v < 0x1_0000_0000
    ensures LastMember(ms, Address) == Some(IpText(v)) ==> Reaches(ms)
    ensures (exists m | m in ms :: m.field == Host) ==> Reaches(ms)
    ensures (forall m | m in ms :: m.field != Host && m.field != Address) ==> !Reaches(ms)
  {
    IpRoundTrip(v, IpAddress(0, false));
    LastMemberExists(ms, Host);
    LastMemberExists(ms, Address);
  }

  lemma {:induction false} LastMemberExists(ms: seq<Member>, f: MemberField)
    ensures LastMember(ms, f).Some? <==> exists m | m in ms :: m.field == f
  {
    if ms != [] {
      LastMemberExists(ms[1..], f);
      assert ms == [ms[0]] + ms[1..];
    }
  }

  // ------------------------------------------------------------ layout

  /** Words between any blanks, before a comment or not, are the words of the line. */
  lemma SpacedWords(lead: string, ws: seq<string>, gaps: seq<string>, trail: string, comment: string)
    requires |gaps| + 1 == |ws| && PlainWords(ws)
    requires OnlyBlanks(lead) && OnlyBlanks(trail) && forall g | g in gaps :: g != "" && OnlyBlanks(g)
    requires comment != "" ==> comment[0] == '#'
    ensures WordsOf(lead + (Join(ws, gaps) + trail) + comment) == ws
  {
    forall w | w in ws ensures w != "" && NoneIn(w, BLANKS) && NoneIn(w, "#") { BlankCharacters(w); }
    forall g | g in gaps ensures g != "" && AllIn(g, BLANKS) && NoneIn(g, "#") {
      BlankCharacters(g);
      NoComment(g);
    }
    BlankCharacters(lead);
    BlankCharacters(trail);
    NoComment(lead);
    NoComment(trail);
    var body := Join(ws, gaps);
    JoinAvoids(ws, gaps, "#");
    CutAtComment(lead + (body + trail), comment);
    RunsSkip(lead, body + trail, BLANKS);
    if trail != "" {
      assert trail[0] in trail;
    }
    RunsAppend(body, trail, BLANKS);
    RunsOfDelimiters(trail, BLANKS);
    RunsOfJoin(ws, gaps, BLANKS);
  }

  lemma NoComment(s: string)
    requires OnlyBlanks(s)
    ensures NoneIn(s, "#")
  {
  }

  lemma CutAtComment(kept: string, comment: string)
    requires NoneIn(kept, "#") && (comment != "" ==> comment[0] == '#')
    ensures Cut(kept + comment) == kept
  {
    var line := kept + comment;
    assert '#' in "#";
    assert forall k | 0 <= k < |kept| :: line[k] == kept[k] && kept[k] in kept;
    if comment == "" {
      assert line == kept;
      CutOfClean(kept);
    } else {
      CommentAtIs(line, 0, |kept|);
      assert line[..|kept|] == kept;
    }
  }

  /** A line is skipped exactly when nothing but blanks stands before its end or its comment. */
  lemma SkippedLine(kept: string, comment: string)
    requires '#' !in kept && (comment != "" ==> comment[0] == '#')
    ensures IsBlank(kept + comment) <==> OnlyBlanks(kept)
  {
    CutAtComment(kept, comment);
    BlankCharacters(kept);
  }
}
