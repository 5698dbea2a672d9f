/** The configuration reader: a state machine over lines and tokens, driven by a table of
    settings with parent links. */
module Config {
  import opened Options
  import opened Text
  import opened Strings
  import opened Numbers
  import opened Values

  // ------------------------------------------------------------ settings

  datatype Transport = Undefined | Tcp | Udp | Sctp

  /** The variables a top-level setting is parsed into. */
  datatype Global = SwitchName | SwitchApiHost | SwitchApiLogin | SwitchApiPassword | ExportInterval

  /** The members of a collector a setting is parsed into. */
  datatype Field = Name | Address | Host | TransportKind | Port | Dscp

  /** A row of the settings table.  The parser of a row is the one its target calls for. */
  datatype Setting = Setting(name: string, id: nat, parentId: nat, value: Option<Global>, offset: Option<Field>)

  const COLLECTOR := 6

  const SETTINGS: seq<Setting> := [
    Setting("switch", 1, 0, Some(SwitchName), None),
    Setting("switch-nvapi-host", 2, 0, Some(SwitchApiHost), None),
    Setting("switch-nvapi-login", 3, 0, Some(SwitchApiLogin), None),
    Setting("switch-nvapi-password", 4, 0, Some(SwitchApiPassword), None),
    Setting("export-interval", 5, 0, Some(ExportInterval), None),
    Setting("collector", COLLECTOR, 0, None, Some(Name)),
    Setting("collector-ip-address", 7, COLLECTOR, None, Some(Address)),
    Setting("collector-hostname", 8, COLLECTOR, None, Some(Host)),
    Setting("transport", 9, COLLECTOR, None, Some(TransportKind)),
    Setting("transport-port", 10, COLLECTOR, None, Some(Port)),
    Setting("dscp", 11, COLLECTOR, None, Some(Dscp))
  ]

  predicate Matches(s: Setting, name: string, parentId: nat) {
    s.parentId == parentId && s.name == name
  }

  /** The first matching row. */
  function FindSetting(ss: seq<Setting>, name: string, parentId: nat): (r: Option<Setting>)
    ensures r.Some? ==> r.value in ss && Matches(r.value, name, parentId)
  {
    if ss == [] then None
    else if Matches(ss[0], name, parentId) then Some(ss[0])
    else FindSetting(ss[1..], name, parentId)
  }

  /** nvipfix_config_get_setting. */
  method GetSetting(name: string, parentId: nat) returns (result: Option<Setting>)
    ensures result == FindSetting(SETTINGS, name, parentId)
  {
    result := SearchSettings(SETTINGS, name, parentId);
  }

  /** Its loop over the table. */
  method SearchSettings(rows: seq<Setting>, name: string, parentId: nat) returns (result: Option<Setting>)
    ensures result == FindSetting(rows, name, parentId)
  {
    result := None;
    for i := 0 to |rows|
      invariant FindSetting(rows, name, parentId) == FindSetting(rows[i..], name, parentId)
    {
      assert rows[i..][1..] == rows[i + 1..];
      if Matches(rows[i], name, parentId) {
        result := Some(rows[i]);
        return;
      }
    }
  }

  /** Rows under one parent are told apart by the length of their names. */
  lemma SettingAt(i: nat)
    requires i < |SETTINGS|
    ensures FindSetting(SETTINGS, SETTINGS[i].name, SETTINGS[i].parentId) == Some(SETTINGS[i])
  {
    forall j | 0 <= j < i ensures !Matches(SETTINGS[j], SETTINGS[i].name, SETTINGS[i].parentId) {
      assert SETTINGS[j].parentId == SETTINGS[i].parentId ==> |SETTINGS[j].name| != |SETTINGS[i].name|;
    }
    FindFirst(SETTINGS, i, SETTINGS[i].name, SETTINGS[i].parentId);
  }

  lemma {:induction false} FindFirst(ss: seq<Setting>, i: nat, name: string, parentId: nat)
    requires i < |ss| && Matches(ss[i], name, parentId)
    requires forall j | 0 <= j < i :: !Matches(ss[j], name, parentId)
    ensures FindSetting(ss, name, parentId) == Some(ss[i])
  {
    if i != 0 {
      FindFirst(ss[1..], i - 1, name, parentId);
    }
  }

  // ------------------------------------------------------------ values

  /** A collector; its key and context members are not touched by the reader. */
  datatype Collector = Collector(name: Option<string>, host: Option<string>, port: Option<string>,
                                 ipAddress: IpAddress, dscp: nat, transport: Transport)

  const ZERO_COLLECTOR := Collector(None, None, None, IpAddress(0, false), 0, Undefined)

  const DEFAULT_PORT := "4739"

  datatype Globals = Globals(switchName: Option<string>, apiHost: Option<string>, apiLogin: Option<string>,
                             apiPassword: Option<string>, exportInterval: Timespan)

  /** nvipfix_config_parse_transport. */
  function TransportOf(s: string, was: Transport): Transport {
    if s == "udp" then Udp else if s == "tcp" then Tcp else if s == "sctp" then Sctp else was
  }

  /** The effect of a parser called on a member of a collector. */
  function ParseField(c: Collector, f: Field, s: string): Collector {
    match f
    case Name => c.(name := Some(s))
    case Address => c.(ipAddress := IpOf(s, c.ipAddress).1)
    case Host => c.(host := Some(s))
    case TransportKind => c.(transport := TransportOf(s, c.transport))
    case Port => c.(port := Some(s))
    case Dscp => c.(dscp := StrToU64(s, 0) % 256)
  }

  /** The effect of a parser called on a top-level variable. */
  function ParseGlobal(g: Globals, target: Global, s: string): Globals {
    match target
    case SwitchName => g.(switchName := Some(s))
    case SwitchApiHost => g.(apiHost := Some(s))
    case SwitchApiLogin => g.(apiLogin := Some(s))
    case SwitchApiPassword => g.(apiPassword := Some(s))
    case ExportInterval => g.(exportInterval := TimespanOf(s, g.exportInterval).1)
  }

  /** A collector is usable with a host or an address. */
  predicate Usable(c: Collector) {
    c.host.Some? || c.ipAddress.hasValue
  }

  function Defaulted(c: Collector): Collector {
    c.(port := if c.port.None? then Some(DEFAULT_PORT) else c.port,
       transport := if c.transport.Undefined? then Udp else c.transport)
  }

  // ------------------------------------------------------ the state machine

  /** What the reader does with memory: a parser call on the scratch collector at a row's
      offset, a parser call on a row's variable, or an attempt to add the scratch collector. */
  datatype Action = IntoScratch(setting: Setting, zeroed: bool) | IntoVariable(setting: Setting) | AddScratch(zeroed: bool)

  datatype State = State(id: nat, parentId: nat, scratch: Collector, zeroed: bool,
                         globals: Globals, collectors: seq<Collector>, actions: seq<Action>)

  datatype LineState = LineState(st: State, tokenIndex: nat, setting: Option<Setting>)

  /** nvipfix_config_add_collector: defaults are filled into the scratch collector itself. */
  function AddCollector(st: State): State {
    var acted := st.(actions := st.actions + [AddScratch(st.zeroed)]);
    if Usable(st.scratch) then
      acted.(scratch := Defaulted(st.scratch), collectors := [Defaulted(st.scratch)] + st.collectors)
    else acted
  }

  function Opens(token: string): bool { token != "" && token[0] == '{' }
  function Closes(token: string): bool { token != "" && token[0] == '}' }

  /** The second token of a setting is handed to its parser. */
  function ParseValue(st: State, setting: Setting, token: string): State {
    if st.parentId == COLLECTOR then
      st.(scratch := if setting.offset.Some? then ParseField(st.scratch, setting.offset.value, token) else st.scratch,
          actions := st.actions + [IntoScratch(setting, st.zeroed)])
    else if st.parentId == 0 then
      st.(globals := if setting.value.Some? then ParseGlobal(st.globals, setting.value.value, token) else st.globals,
          actions := st.actions + [IntoVariable(setting)])
    else st
  }

  /** The first token of a setting is looked up under the current parent. */
  function Select(st: State, setting: Option<Setting>): State {
    if setting.None? then st
    else if setting.value.id == COLLECTOR then
      st.(id := COLLECTOR, scratch := ZERO_COLLECTOR, zeroed := true, parentId := COLLECTOR)
    else st.(id := setting.value.id)
  }

  /** One token. */
  function Step(ls: LineState, token: string): LineState {
    var index := ls.tokenIndex + 1;
    if Opens(token) then LineState(ls.st.(parentId := ls.st.id), 0, ls.setting)
    else if Closes(token) then
      LineState((if ls.st.parentId == COLLECTOR then AddCollector(ls.st) else ls.st).(parentId := 0), 0, ls.setting)
    else if index == 1 then
      var setting := FindSetting(SETTINGS, token, ls.st.parentId);
      LineState(Select(ls.st, setting), 1, setting)
    else if index == 2 && ls.setting.Some? then LineState(ParseValue(ls.st, ls.setting.value, token), 2, ls.setting)
    else ls.(tokenIndex := index)
  }

  function Steps(ls: LineState, tokens: seq<string>): LineState {
    if tokens == [] then ls else Step(Steps(ls, tokens[..|tokens| - 1]), tokens[|tokens| - 1])
  }

  const BLANKS := " \t\n\r"

  /** Position of the first comment character at or after i, or the end. */
  function CommentAt(line: string, i: nat): (r: nat)
    requires i <= |line|
    ensures i <= r <= |line|
    ensures forall k | i <= k < r :: line[k] != '#'
    ensures r < |line| ==> line[r] == '#'
    decreases |line| - i
  {
    if i == |line| || line[i] == '#' then i else CommentAt(line, i + 1)
  }

  /** The part of a line before a comment. */
  function Cut(line: string): string {
    line[..CommentAt(line, 0)]
  }

  ghost predicate IsBlank(line: string) {
    AllIn(Cut(line), BLANKS)
  }

  /** The tokens of a line are run through the machine; `setting` starts undefined. */
  ghost function ReadWords(st: State, words: seq<string>): State {
    Steps(LineState(st, 0, None), words).st
  }

  ghost function ReadLine(st: State, line: string): State {
    if IsBlank(line) then st else ReadWords(st, Split(Cut(line), BLANKS))
  }

  const LINE_LIMIT := 4095

  /** Where a read of at most `limit` characters from position i stops: after a line feed. */
  function LineEnd(text: string, i: nat, limit: nat): (e: nat)
    requires i <= |text|
    ensures i <= e <= |text| && e <= i + limit
    ensures forall k | i <= k < e - 1 :: text[k] != '\n'
    ensures e == |text| || e == i + limit || (i < e && text[e - 1] == '\n')
    ensures i < |text| && 0 < limit ==> i < e
    decreases |text| - i
  {
    if i == |text| || limit == 0 then i
    else if text[i] == '\n' then i + 1
    else LineEnd(text, i + 1, limit - 1)
  }

  /** What one fgets call with the 4096-byte buffer delivers. */
  function LineAt(text: string, i: nat): string
    requires i <= |text|
  {
    text[i..LineEnd(text, i, LINE_LIMIT)]
  }

  /** The rest of a file.  A line that does not fit, or an unterminated last line, ends the
      reading. */
  ghost function ReadFrom(st: State, text: string, i: nat): State
    requires i <= |text|
    decreases |text| - i
  {
    if i == |text| || '\n' !in LineAt(text, i) then st
    else ReadFrom(ReadLine(st, LineAt(text, i)), text, LineEnd(text, i, LINE_LIMIT))
  }

  ghost function ReadText(st: State, text: string): State {
    ReadFrom(st, text, 0)
  }

  // ------------------------------------------------------------ the program

  /** nvipfix_config_is_empty_line: cuts the line at a comment, in place. */
  method IsEmptyLine(buffer: array<char>, ghost line: string) returns (result: bool)
    requires Holds(buffer, line)
    modifies buffer
    ensures Holds(buffer, Cut(line))
    ensures result <==> IsBlank(line)
  {
    HeldChars(buffer, line);
    result := true;
    var i := 0;
    while buffer[i] != '\0'
      invariant 0 <= i <= |line| && buffer[|line|] == '\0'
      invariant forall k | 0 <= k < |line| :: buffer[k] == line[k]
      invariant CommentAt(line, 0) == CommentAt(line, i)
      invariant result <==> forall k | 0 <= k < i :: line[k] in BLANKS
      decreases |line| - i
    {
      var ch := buffer[i];
      if ch != ' ' && ch != '\t' && ch != '\n' && ch != '\r' {
        if ch != '#' {
          result := false;
        } else {
          buffer[i] := '\0';
          break;
        }
      }
      i := i + 1;
    }
    assert Cut(line) == line[..i];
    assert forall c | c in line[..i] :: c in line;
    assert AllIn(line[..i], BLANKS) <==> forall k | 0 <= k < i :: line[k] in BLANKS by {
      assert forall k | 0 <= k < i :: line[k] in line[..i];
    }
  }

  /** The reader's globals.  Allocation is taken to succeed. */
  class Reader {
    var globals: Globals
    var collectors: seq<Collector>
    ghost var actions: seq<Action>

    ghost function StateWith(id: nat, parentId: nat, collector: Collector, zeroed: bool): State
      reads this
    {
      State(id, parentId, collector, zeroed, globals, collectors, actions)
    }

    /** nvipfix_config_add_collector. */
    method AddCollectorTo(scratch: Collector, ghost zeroed: bool) returns (collector: Collector)
      modifies this`collectors, this`actions
      ensures forall id, parentId :: StateWith(id, parentId, collector, zeroed) == AddCollector(old(StateWith(id, parentId, scratch, zeroed)))
    {
      collector := scratch;
      actions := actions + [AddScratch(zeroed)];
      if collector.host == None && !collector.ipAddress.hasValue {
        return;
      }
      if collector.port == None {
        collector := collector.(port := Some(DEFAULT_PORT));
      }
      if collector.transport == Undefined {
        collector := collector.(transport := Udp);
      }
      collectors := [collector] + collectors;
    }

    /** The parser call for a second token. */
    method ParseInto(setting: Setting, ghost id: nat, parentId: nat, collector0: Collector, ghost zeroed: bool, value: string)
        returns (collector: Collector)
      modifies this`globals, this`actions
      ensures StateWith(id, parentId, collector, zeroed) == ParseValue(old(StateWith(id, parentId, collector0, zeroed)), setting, value)
    {
      collector := collector0;
      if parentId == COLLECTOR {
        if setting.offset != None {
          collector := ParseField(collector, setting.offset.value, value);
        }
        actions := actions + [IntoScratch(setting, zeroed)];
      } else if parentId == 0 {
        if setting.value != None {
          globals := ParseGlobal(globals, setting.value.value, value);
        }
        actions := actions + [IntoVariable(setting)];
      }
    }

    /** The body of the token loop of nvipfix_config_read, over its locals. */
    method ReadToken(value: string, id0: nat, parentId0: nat, collector0: Collector, ghost zeroed0: bool,
                     tokenIndex0: nat, setting0: Option<Setting>)
        returns (id: nat, parentId: nat, collector: Collector, ghost zeroed: bool, tokenIndex: nat, setting: Option<Setting>)
      modifies this
      ensures LineState(StateWith(id, parentId, collector, zeroed), tokenIndex, setting) ==
                Step(old(LineState(StateWith(id0, parentId0, collector0, zeroed0), tokenIndex0, setting0)), value)
    {
      id, parentId, collector, zeroed, tokenIndex, setting := id0, parentId0, collector0, zeroed0, tokenIndex0, setting0;
      tokenIndex := tokenIndex + 1;
      if value != "" && value[0] == '{' {
        parentId := id;
        tokenIndex := 0;
      } else if value != "" && value[0] == '}' {
        if parentId == COLLECTOR {
          collector := AddCollectorTo(collector, zeroed);
        }
        parentId := 0;
        tokenIndex := 0;
      } else if tokenIndex == 1 {
        setting := GetSetting(value, parentId);
        if setting != None {
          id := setting.value.id;
          if id == COLLECTOR {
            collector, zeroed := ZERO_COLLECTOR, true;
            parentId := id;
          }
        }
      } else if tokenIndex == 2 {
        if setting != None {
          collector := ParseInto(setting.value, id, parentId, collector, zeroed, value);
        }
      }
    }

    /** The token loop: every line starts it with no token seen and no setting. */
    method ReadTokens(tokens: StringList, id0: nat, parentId0: nat, collector0: Collector, ghost zeroed0: bool)
        returns (id: nat, parentId: nat, collector: Collector, ghost zeroed: bool)
      requires tokens.Valid()
      modifies this
      ensures StateWith(id, parentId, collector, zeroed) == ReadWords(old(StateWith(id0, parentId0, collector0, zeroed0)), tokens.Contents)
    {
      id, parentId, collector, zeroed := id0, parentId0, collector0, zeroed0;
      ghost var start := LineState(StateWith(id, parentId, collector, zeroed), 0, None);
      var token: StringItem? := tokens.head;
      var tokenIndex := 0;
      var setting: Option<Setting> := None;
      ghost var k := 0;
      while token != null
        invariant 0 <= k <= |tokens.items| && token == if k < |tokens.items| then tokens.items[k] else null
        invariant LineState(StateWith(id, parentId, collector, zeroed), tokenIndex, setting) == Steps(start, tokens.Contents[..k])
        decreases |tokens.items| - k
      {
        assert tokens.Contents[..k + 1][..k] == tokens.Contents[..k];
        id, parentId, collector, zeroed, tokenIndex, setting :=
          ReadToken(token.value, id, parentId, collector, zeroed, tokenIndex, setting);
        token := token.next;
        k := k + 1;
      }
      assert tokens.Contents[..k] == tokens.Contents;
    }

    /** nvipfix_config_read on the contents of the file.  The scratch collector is a local
        variable: it holds anything at first. */
    method Read(text: string, collector0: Collector)
      requires IsText(text)
      modifies this
      ensures var r := ReadText(old(StateWith(0, 0, collector0, false)), text);
        globals == r.globals && collectors == r.collectors && actions == r.actions
    {
      var id, parentId, collector := 0, 0, collector0;
      ghost var zeroed := false;
      var buffer := new char[LINE_LIMIT + 1];
      var position := 0;
      ghost var result := ReadText(StateWith(0, 0, collector0, false), text);
      while position < |text|
        invariant 0 <= position <= |text| && fresh(buffer) && buffer.Length == LINE_LIMIT + 1
        invariant ReadFrom(StateWith(id, parentId, collector, zeroed), text, position) == result
      {
        ghost var before := StateWith(id, parentId, collector, zeroed);
        var read;
        read, id, parentId, collector, zeroed := ReadNext(buffer, text, position, id, parentId, collector, zeroed);
        ReadOn(before, StateWith(id, parentId, collector, zeroed), text, position, read, result);
        if read == 0 {
          return;
        }
        position := position + read;
      }
    }

    /** The body of its loop: reads no further at a line without a line feed. */
    method ReadNext(buffer: array<char>, text: string, position: nat, id0: nat, parentId0: nat, collector0: Collector, ghost zeroed0: bool)
        returns (read: nat, id: nat, parentId: nat, collector: Collector, ghost zeroed: bool)
      requires IsText(text) && position < |text| && buffer.Length == LINE_LIMIT + 1
      modifies this, buffer
      ensures ReadsLine(old(StateWith(id0, parentId0, collector0, zeroed0)), StateWith(id, parentId, collector, zeroed), text, position, read)
    {
      id, parentId, collector, zeroed := id0, parentId0, collector0, zeroed0;
      ghost var line := LineAt(text, position);
      read := Fgets(buffer, text, position);
      if '\n' !in buffer[..read] {
        return 0, id, parentId, collector, zeroed;
      }
      id, parentId, collector, zeroed := ReadLineBuffer(buffer, line, id, parentId, collector, zeroed);
    }

    /** One line of the file; the tokenizer cannot come back empty-handed. */
    method ReadLineBuffer(buffer: array<char>, ghost line: string, id0: nat, parentId0: nat, collector0: Collector, ghost zeroed0: bool)
        returns (id: nat, parentId: nat, collector: Collector, ghost zeroed: bool)
      requires Holds(buffer, line)
      modifies this, buffer
      ensures StateWith(id, parentId, collector, zeroed) == ReadLine(old(StateWith(id0, parentId0, collector0, zeroed0)), line)
    {
      id, parentId, collector, zeroed := id0, parentId0, collector0, zeroed0;
      var isEmpty := IsEmptyLine(buffer, line);
      if !isEmpty {
        var length := Strlen(buffer, 0, Cut(line));
        assert IsText(BLANKS);
        var tokens := StringSplit(buffer[..length], BLANKS);
        SplitMeaning(Cut(line), BLANKS);
        id, parentId, collector, zeroed := ReadTokens(tokens, id, parentId, collector, zeroed);
      }
    }
  }

  /** A line of `read` characters is acted on; none is read if it has no line feed. */
  ghost predicate ReadsLine(st: State, st': State, text: string, i: nat, read: nat)
    requires i <= |text|
  {
    if '\n' in LineAt(text, i) then 0 < read == LineEnd(text, i, LINE_LIMIT) - i && st' == ReadLine(st, LineAt(text, i))
    else read == 0 && st' == st
  }

  lemma ReadOn(st: State, st': State, text: string, i: nat, read: nat, result: State)
    requires i < |text| && ReadFrom(st, text, i) == result && ReadsLine(st, st', text, i, read)
    ensures i + read <= |text|
    ensures if read == 0 then st' == result else ReadFrom(st', text, i + read) == result
  {
  }

  /** fgets: at most 4095 characters, up to and including a line feed, then a terminator. */
  method Fgets(buffer: array<char>, text: string, position: nat) returns (read: nat)
    requires buffer.Length == LINE_LIMIT + 1 && position < |text| && IsText(text)
    modifies buffer
    ensures position + read == LineEnd(text, position, LINE_LIMIT)
    ensures Holds(buffer, LineAt(text, position))
  {
    read := CopyLine(buffer, text, position);
    buffer[read] := '\0';
    LineIsText(text, position);
    assert buffer[..read] == text[position..position + read];
  }

  /** Its loop. */
  method CopyLine(buffer: array<char>, text: string, position: nat) returns (read: nat)
    requires buffer.Length == LINE_LIMIT + 1 && position < |text|
    modifies buffer
    ensures read <= LINE_LIMIT && position + read == LineEnd(text, position, LINE_LIMIT)
    ensures forall k | 0 <= k < read :: buffer[k] == text[position + k]
  {
    read := 0;
    while read < LINE_LIMIT && position + read < |text|
      invariant 0 <= read <= LINE_LIMIT && position + read <= |text|
      invariant forall k | 0 <= k < read :: buffer[k] == text[position + k]
      invariant LineEnd(text, position, LINE_LIMIT) == LineEnd(text, position + read, LINE_LIMIT - read)
    {
      buffer[read] := text[position + read];
      read := read + 1;
      if text[position + read - 1] == '\n' {
        break;
      }
    }
  }

  lemma LineIsText(text: string, i: nat)
    requires i <= |text| && IsText(text)
    ensures IsText(LineAt(text, i))
  {
    assert forall c | c in LineAt(text, i) :: c in text;
  }
}
