/** What the configuration reader guarantees, for every file. */
module ConfigLaws {
  import opened Options
  import opened Text
  import opened Numbers
  import opened Values
  import opened Config

  // ------------------------------------------- every write is well targeted

  /** A parser is called at the offset of a collector row in a zeroed scratch collector, or
      on the variable of a top-level row; only a zeroed scratch collector is ever added. */
  ghost predicate Proper(a: Action) {
    match a
    case IntoScratch(s, zeroed) => zeroed && s in SETTINGS && s.offset.Some?
    case IntoVariable(s) => s in SETTINGS && s.value.Some?
    case AddScratch(zeroed) => zeroed
  }

  ghost predicate Sound(st: State) {
    && (st.id == COLLECTOR || st.parentId == COLLECTOR ==> st.zeroed)
    && forall a | a in st.actions :: Proper(a)
  }

  /** A selected setting still fits the parent it will be parsed under. */
  ghost predicate LineSound(ls: LineState) {
    && Sound(ls.st)
    && (ls.tokenIndex >= 1 && ls.setting.Some? ==>
         && ls.setting.value in SETTINGS
         && (ls.st.parentId == COLLECTOR ==> ls.setting.value.offset.Some?)
         && (ls.st.parentId == 0 ==> ls.setting.value.value.Some?))
  }

  lemma RowsFitParents(s: Setting)
    requires s in SETTINGS
    ensures s.id == COLLECTOR ==> s.parentId == 0 && s.offset.Some?
    ensures s.parentId == COLLECTOR ==> s.offset.Some? && s.id != COLLECTOR
    ensures s.parentId == 0 && s.id != COLLECTOR ==> s.value.Some?
  {
    var i :| 0 <= i < |SETTINGS| && SETTINGS[i] == s;
  }

  lemma StepIsSound(ls: LineState, token: string)
    requires LineSound(ls)
    ensures LineSound(Step(ls, token))
  {
    if ls.tokenIndex == 0 && !Opens(token) && !Closes(token) {
      var setting := FindSetting(SETTINGS, token, ls.st.parentId);
      if setting.Some? {
        RowsFitParents(setting.value);
      }
    }
  }

  lemma {:induction false} StepsAreSound(ls: LineState, tokens: seq<string>)
    requires LineSound(ls)
    ensures LineSound(Steps(ls, tokens))
  {
    if tokens != [] {
      StepsAreSound(ls, tokens[..|tokens| - 1]);
      StepIsSound(Steps(ls, tokens[..|tokens| - 1]), tokens[|tokens| - 1]);
    }
  }

  lemma {:induction false} RestIsSound(st: State, text: string, i: nat)
    requires i <= |text| && Sound(st)
    ensures Sound(ReadFrom(st, text, i))
    decreases |text| - i
  {
    if i < |text| && '\n' in LineAt(text, i) {
      StepsAreSound(LineState(st, 0, None), Split(Cut(LineAt(text, i)), BLANKS));
      RestIsSound(ReadLine(st, LineAt(text, i)), text, LineEnd(text, i, LINE_LIMIT));
    }
  }

  /** For every file, well-formed or not, and whatever the uninitialised scratch collector
      holds: every write and every add is proper. */
  lemma EveryWriteIsProper(text: string, garbage: Collector, globals: Globals, collectors: seq<Collector>)
    ensures forall a | a in ReadText(State(0, 0, garbage, false, globals, collectors, []), text).actions :: Proper(a)
  {
    RestIsSound(State(0, 0, garbage, false, globals, collectors, []), text, 0);
  }

  // ------------------------------------------------------ layout does not matter

  /** The words of a line, whatever blanks and comments surround them. */
  ghost function WordsOf(line: string): seq<string> {
    Runs(Cut(line), BLANKS)
  }

  /** How many words follow the last brace. */
  ghost function Pending(words: seq<string>): nat {
    if words == [] then 0
    else var last := words[|words| - 1];
         if Opens(last) || Closes(last) then 0 else Pending(words[..|words| - 1]) + 1
  }

  lemma {:induction false} PendingIsIndex(st: State, words: seq<string>)
    ensures Steps(LineState(st, 0, None), words).tokenIndex == Pending(words)
  {
    if words != [] {
      PendingIsIndex(st, words[..|words| - 1]);
    }
  }

  /** Where the words of a line leave the token loop. */
  ghost function AfterWords(st: State, line: string): LineState {
    Steps(LineState(st, 0, None), WordsOf(line))
  }

  /** The end of the line is bare and its last word selected a setting that would be parsed. */
  ghost predicate TakesEmptyValue(st: State, line: string) {
    var ls := AfterWords(st, line);
    && EndsBare(Cut(line), BLANKS) && Pending(WordsOf(line)) == 1
    && ls.setting.Some? && (ls.st.parentId == COLLECTOR || ls.st.parentId == 0)
  }

  /** The parser of a row changes its target when it is given the empty text: strings become
      empty and numbers zero, while addresses, intervals and transports keep what they hold. */
  ghost predicate EmptyChanges(st: State, row: Setting) {
    if st.parentId == COLLECTOR then
      match row.offset
      case None => false
      case Some(Name) => st.scratch.name != Some("")
      case Some(Host) => st.scratch.host != Some("")
      case Some(Port) => st.scratch.port != Some("")
      case Some(Dscp) => st.scratch.dscp != 0
      case Some(Address) => false
      case Some(TransportKind) => false
    else
      match row.value
      case None => false
      case Some(SwitchName) => st.globals.switchName != Some("")
      case Some(SwitchApiHost) => st.globals.apiHost != Some("")
      case Some(SwitchApiLogin) => st.globals.apiLogin != Some("")
      case Some(SwitchApiPassword) => st.globals.apiPassword != Some("")
      case Some(ExportInterval) => false
  }

  /** What the program keeps: a state without the record of its memory accesses. */
  ghost predicate SameVariables(a: State, b: State) {
    a.id == b.id && a.parentId == b.parentId && a.scratch == b.scratch && a.globals == b.globals && a.collectors == b.collectors
  }

  lemma RowIsNamed(i: nat)
    requires i < |SETTINGS|
    ensures SETTINGS[i].name != ""
  {
  }

  lemma NoEmptyName(parentId: nat)
    ensures FindSetting(SETTINGS, "", parentId).None?
  {
    forall i | 0 <= i < |SETTINGS| ensures SETTINGS[i].name != "" {
      RowIsNamed(i);
    }
  }

  /** What a line does: its words act, and then trailing blanks may hand an empty value to a
      setting that has none. */
  lemma LineActs(st: State, line: string)
    ensures ReadLine(st, line) ==
      if TakesEmptyValue(st, line) then ParseValue(AfterWords(st, line).st, AfterWords(st, line).setting.value, "")
      else ReadWords(st, WordsOf(line))
  {
    var words := WordsOf(line);
    if IsBlank(line) {
      RunsOfDelimiters(Cut(line), BLANKS);
    } else if EndsBare(Cut(line), BLANKS) {
      var ls := AfterWords(st, line);
      assert (words + [""])[..|words|] == words;
      assert ReadLine(st, line) == Step(ls, "").st;
      PendingIsIndex(st, words);
      NoEmptyName(ls.st.parentId);
    } else {
      assert Split(Cut(line), BLANKS) == words;
    }
  }

  lemma EmptyValue(st: State, row: Setting)
    requires st.parentId == COLLECTOR || st.parentId == 0
    ensures SameVariables(ParseValue(st, row, ""), st) <==> !EmptyChanges(st, row)
  {
    assert IpOf("", st.scratch.ipAddress).1 == st.scratch.ipAddress;
    assert TimespanOf("", st.globals.exportInterval).1 == st.globals.exportInterval;
    assert StrToU64("", 0) == 0;
  }

  /** In the variables of the program a line acts through its words alone, except exactly
      where trailing blanks hand the empty text to a parser that changes its target on it. */
  lemma LineIsItsWords(st: State, line: string)
    ensures SameVariables(ReadLine(st, line), ReadWords(st, WordsOf(line)))
            <==> !(TakesEmptyValue(st, line) && EmptyChanges(AfterWords(st, line).st, AfterWords(st, line).setting.value))
  {
    LineActs(st, line);
    if TakesEmptyValue(st, line) {
      EmptyValue(AfterWords(st, line).st, AfterWords(st, line).setting.value);
    }
  }

  /** The record of memory accesses never decides what the variables become. */
  lemma {:induction false} VariablesDecide(a: State, b: State, tokens: seq<string>)
    requires SameVariables(a, b)
    ensures var x, y := Steps(LineState(a, 0, None), tokens), Steps(LineState(b, 0, None), tokens);
      SameVariables(x.st, y.st) && x.tokenIndex == y.tokenIndex && x.setting == y.setting
  {
    if tokens != [] {
      var (front, last) := (tokens[..|tokens| - 1], tokens[|tokens| - 1]);
      VariablesDecide(a, b, front);
      VariablesDecideStep(Steps(LineState(a, 0, None), front), Steps(LineState(b, 0, None), front), last);
    }
  }

  lemma VariablesDecideStep(a: LineState, b: LineState, token: string)
    requires SameVariables(a.st, b.st) && a.tokenIndex == b.tokenIndex && a.setting == b.setting
    ensures var x, y := Step(a, token), Step(b, token);
      SameVariables(x.st, y.st) && x.tokenIndex == y.tokenIndex && x.setting == y.setting
  {
    if Opens(token) {
    } else if Closes(token) {
      VariablesDecideAdd(a.st, b.st);
    } else if a.tokenIndex == 0 {
      VariablesDecideSelect(a.st, b.st, FindSetting(SETTINGS, token, a.st.parentId));
    } else if a.tokenIndex == 1 && a.setting.Some? {
      VariablesDecideParse(a.st, b.st, a.setting.value, token);
    }
  }

  lemma VariablesDecideSelect(a: State, b: State, setting: Option<Setting>)
    requires SameVariables(a, b)
    ensures SameVariables(Select(a, setting), Select(b, setting))
  {
  }

  lemma VariablesDecideAdd(a: State, b: State)
    requires SameVariables(a, b)
    ensures SameVariables(AddCollector(a), AddCollector(b))
  {
  }

  lemma VariablesDecideParse(a: State, b: State, setting: Setting, token: string)
    requires SameVariables(a, b)
    ensures SameVariables(ParseValue(a, setting, token), ParseValue(b, setting, token))
  {
  }

  lemma {:induction false} VariablesDecideRest(a: State, b: State, text: string, i: nat)
    requires i <= |text| && SameVariables(a, b)
    ensures SameVariables(ReadFrom(a, text, i), ReadFrom(b, text, i))
    decreases |text| - i
  {
    if i < |text| && '\n' in LineAt(text, i) {
      VariablesDecide(a, b, Split(Cut(LineAt(text, i)), BLANKS));
      VariablesDecideRest(ReadLine(a, LineAt(text, i)), ReadLine(b, LineAt(text, i)), text, LineEnd(text, i, LINE_LIMIT));
    }
  }

  /** Not exactly one word after the last brace: the line names no setting without a value. */
  ghost predicate Complete(words: seq<string>) {
    Pending(words) != 1
  }

  ghost function ReadLines(st: State, lines: seq<string>): State
    decreases |lines|
  {
    if |lines| == 0 then st else ReadLines(ReadLine(st, lines[0]), lines[1..])
  }

  ghost function ReadWordLines(st: State, lines: seq<seq<string>>): State
    decreases |lines|
  {
    if lines == [] then st else ReadWordLines(ReadWords(st, lines[0]), lines[1..])
  }

  /** The word lists of the lines that have words. */
  ghost function WordLines(lines: seq<string>): seq<seq<string>> {
    if lines == [] then []
    else (if WordsOf(lines[0]) == [] then [] else [WordsOf(lines[0])]) + WordLines(lines[1..])
  }

  lemma {:induction false} LinesAreTheirWords(st: State, lines: seq<string>)
    requires forall ws | ws in WordLines(lines) :: Complete(ws)
    ensures ReadLines(st, lines) == ReadWordLines(st, WordLines(lines))
    decreases |lines|
  {
    if lines != [] {
      var first, rest := WordsOf(lines[0]), lines[1..];
      if first == [] {
        assert WordLines(lines) == WordLines(rest);
      } else {
        assert WordLines(lines)[0] == first && first in WordLines(lines);
        assert WordLines(lines)[1..] == WordLines(rest);
      }
      assert forall ws | ws in WordLines(rest) :: ws in WordLines(lines);
      LineActs(st, lines[0]);
      assert Complete(first) && ReadLine(st, lines[0]) == ReadWords(st, first);
      LinesAreTheirWords(ReadLine(st, lines[0]), rest);
    }
  }

  /** Two lines a reader cannot tell apart: the same words, and the same kind of end where a
      setting still lacks its value. */
  ghost predicate Alike(a: string, b: string) {
    && WordsOf(a) == WordsOf(b)
    && (Complete(WordsOf(a)) || (EndsBare(Cut(a), BLANKS) <==> EndsBare(Cut(b), BLANKS)))
  }

  ghost predicate AllAlike(lines: seq<string>, others: seq<string>) {
    |lines| == |others| && forall i | 0 <= i < |lines| :: Alike(lines[i], others[i])
  }

  /** The lines that are neither blank nor mere comment. */
  ghost function Dense(lines: seq<string>): seq<string> {
    if lines == [] then [] else (if IsBlank(lines[0]) then [] else [lines[0]]) + Dense(lines[1..])
  }

  lemma {:induction false} DenseReads(st: State, lines: seq<string>)
    ensures ReadLines(st, Dense(lines)) == ReadLines(st, lines)
    decreases |lines|
  {
    if lines != [] {
      DenseReads(ReadLine(st, lines[0]), lines[1..]);
      if IsBlank(lines[0]) {
        assert Dense(lines) == Dense(lines[1..]);
      } else {
        assert Dense(lines)[1..] == Dense(lines[1..]);
      }
    }
  }

  lemma AlikeReads(st: State, a: string, b: string)
    requires Alike(a, b)
    ensures ReadLine(st, a) == ReadLine(st, b)
  {
    LineActs(st, a);
    LineActs(st, b);
  }

  lemma {:induction false} AllAlikeReads(st: State, lines: seq<string>, others: seq<string>)
    requires AllAlike(lines, others)
    ensures ReadLines(st, lines) == ReadLines(st, others)
    decreases |lines|
  {
    if lines != [] {
      AlikeReads(st, lines[0], others[0]);
      AllAlikeReads(ReadLine(st, lines[0]), lines[1..], others[1..]);
    }
  }

  /** Two files are read alike when, blank and comment-only lines apart, their lines are alike
      one by one: indentation, spacing and comments are immaterial. */
  lemma LayoutIsImmaterial(st: State, lines: seq<string>, others: seq<string>)
    requires AllAlike(Dense(lines), Dense(others))
    ensures ReadLines(st, lines) == ReadLines(st, others)
  {
    DenseReads(st, lines);
    DenseReads(st, others);
    AllAlikeReads(st, Dense(lines), Dense(others));
  }

  /** The same for whole files whose lines fit the buffer. */
  lemma LayoutOfTexts(st: State, lines: seq<string>, others: seq<string>)
    requires (forall l | l in lines :: ProperLine(l)) && forall l | l in others :: ProperLine(l)
    requires AllAlike(Dense(lines), Dense(others))
    ensures ReadText(st, Flatten(lines)) == ReadText(st, Flatten(others))
  {
    ReadProperText(st, lines);
    ReadProperText(st, others);
    LayoutIsImmaterial(st, lines, others);
  }

  lemma ReadProperText(st: State, lines: seq<string>)
    requires forall l | l in lines :: ProperLine(l)
    ensures ReadText(st, Flatten(lines)) == ReadLines(st, lines)
  {
    ReadTextIsReadLines(st, "", lines);
    assert "" + Flatten(lines) == Flatten(lines);
  }

  lemma {:induction false} ReadLinesAppended(st: State, a: seq<string>, b: seq<string>)
    ensures ReadLines(st, a + b) == ReadLines(ReadLines(st, a), b)
    decreases |a|
  {
    if a == [] {
      assert a + b == b;
    } else {
      assert (a + b)[1..] == a[1..] + b;
      ReadLinesAppended(ReadLine(st, a[0]), a[1..], b);
    }
  }

  lemma ReadAround(st: State, before: seq<string>, line: string, after: seq<string>)
    ensures ReadLines(st, before + [line] + after) == ReadLines(ReadLine(ReadLines(st, before), line), after)
  {
    ReadLinesAppended(st, before + [line], after);
    ReadLinesAppended(st, before, [line]);
    assert [line][1..] == [];
    var mid := ReadLines(st, before);
    assert ReadLines(mid, [line]) == ReadLines(ReadLine(mid, line), [line][1..]);
  }

  /** A blank or comment-only line can be inserted anywhere in any file. */
  lemma BlankLineIsImmaterial(st: State, before: seq<string>, blank: string, after: seq<string>)
    requires IsBlank(blank)
    ensures ReadLines(st, before + [blank] + after) == ReadLines(st, before + after)
  {
    ReadAround(st, before, blank, after);
    ReadLinesAppended(st, before, after);
  }

  /** A comment can be appended to any line, with or without blanks before it, unless the line
      ends in a setting that lacks its value. */
  lemma CommentIsImmaterial(st: State, before: seq<string>, body: string, gap: string, comment: string, after: seq<string>)
    requires '#' !in body && OnlyBlanks(gap) && Complete(WordsOf(body + "\n"))
    ensures ReadLines(st, before + [body + gap + ("#" + comment)] + after) == ReadLines(st, before + [body + "\n"] + after)
  {
    CommentIsNoWord(body, gap, comment);
    AlikeReads(ReadLines(st, before), body + gap + ("#" + comment), body + "\n");
    ReadAround(st, before, body + gap + ("#" + comment), after);
    ReadAround(st, before, body + "\n", after);
  }

  /** Both carried to whole files. */
  lemma BlankLineInText(st: State, before: seq<string>, blank: string, after: seq<string>)
    requires IsBlank(blank) && forall l | l in before + [blank] + after :: ProperLine(l)
    ensures ReadText(st, Flatten(before + [blank] + after)) == ReadText(st, Flatten(before + after))
  {
    assert forall l | l in before + after :: l in before + [blank] + after;
    ReadProperText(st, before + [blank] + after);
    ReadProperText(st, before + after);
    BlankLineIsImmaterial(st, before, blank, after);
  }

  lemma CommentInText(st: State, before: seq<string>, body: string, gap: string, comment: string, after: seq<string>)
    requires '#' !in body && OnlyBlanks(gap) && Complete(WordsOf(body + "\n"))
    requires forall l | l in before + [body + gap + ("#" + comment)] + after :: ProperLine(l)
    requires ProperLine(body + "\n")
    ensures ReadText(st, Flatten(before + [body + gap + ("#" + comment)] + after)) == ReadText(st, Flatten(before + [body + "\n"] + after))
  {
    var (commented, plain) := (before + [body + gap + ("#" + comment)] + after, before + [body + "\n"] + after);
    forall l | l in plain ensures ProperLine(l) {
      if l != body + "\n" {
        assert l in commented;
      }
    }
    ReadProperText(st, commented);
    ReadProperText(st, plain);
    CommentIsImmaterial(st, before, body, gap, comment, after);
  }

  /** Appending a comment, with or without blanks before it, leaves the words of a line. */
  lemma CommentIsNoWord(body: string, gap: string, comment: string)
    requires '#' !in body && OnlyBlanks(gap)
    ensures WordsOf(body + gap + ("#" + comment)) == WordsOf(body + "\n")
  {
    BlankCharacters(gap);
    var (kept, line) := (body + gap, body + gap + ("#" + comment));
    assert '#' in "#" && '#' !in BLANKS;
    assert forall k | 0 <= k < |kept| :: line[k] == kept[k] && kept[k] in kept;
    CommentAtIs(line, 0, |kept|);
    assert line[..|kept|] == kept;
    CutOfClean(body + "\n");
    if gap != "" { assert gap[0] in gap; }
    RunsAppend(body, gap, BLANKS);
    RunsOfDelimiters(gap, BLANKS);
    RunsAppend(body, "\n", BLANKS);
    RunsOfDelimiters("\n", BLANKS);
  }

  lemma {:induction false} CommentAtIs(line: string, i: nat, c: nat)
    requires i <= c < |line| && line[c] == '#' && forall k | i <= k < c :: line[k] != '#'
    ensures CommentAt(line, i) == c
    decreases c - i
  {
    if i < c {
      CommentAtIs(line, i + 1, c);
    }
  }

  lemma CutOfClean(line: string)
    requires '#' !in line
    ensures Cut(line) == line
  {
    assert line[..|line|] == line;
  }

  /** Where it does matter: a setting name followed by two or more blanks is given an empty
      value, the same name followed by one line feed is not. */
  lemma TrailingBlanksCanMatter(st: State, gap: string)
    requires st.parentId == 0 && OnlyBlanks(gap) && |gap| >= 2
    ensures WordsOf("switch" + gap) == WordsOf("switch" + "\n")
    ensures ReadLine(st, "switch" + gap).globals == st.globals.(switchName := Some(""))
    ensures ReadLine(st, "switch" + "\n").globals == st.globals
  {
    BlankCharacters(gap);
    var w := SETTINGS[0].name;
    assert w == "switch" && NoneIn(w, BLANKS);
    NameThenBlanks(st, w, gap);
    NameThenBlanks(st, w, "\n");
    ReadNameAlone(st);
  }

  lemma ReadNameAlone(st: State)
    requires st.parentId == 0
    ensures ReadWords(st, [SETTINGS[0].name]).globals == st.globals
    ensures ReadWords(st, [SETTINGS[0].name, ""]).globals == st.globals.(switchName := Some(""))
  {
    var (w, start) := (SETTINGS[0].name, LineState(st, 0, None));
    SettingAt(0);
    assert [w][..0] == [] && [w, ""][..1] == [w];
    assert Steps(start, [w]) == Step(start, w);
    assert Steps(start, [w, ""]) == Step(Step(start, w), "");
  }

  lemma NameThenBlanks(st: State, w: string, gap: string)
    requires w != "" && NoneIn(w, BLANKS) && '#' !in w && AllIn(gap, BLANKS) && gap != ""
    ensures WordsOf(w + gap) == [w]
    ensures ReadLine(st, w + gap) == ReadWords(st, if |gap| == 1 then [w] else [w, ""])
  {
    var line := w + gap;
    CutOfClean(line);
    assert line == w + gap + "";
    RunsWordThen(w, gap, "", BLANKS);
    assert line[0] in line && w[0] in w && w[|w| - 1] in w;
    assert gap[|gap| - 1] in gap && (|gap| >= 2 ==> gap[|gap| - 2] in gap);
    assert EndsBare(line, BLANKS) <==> |gap| >= 2;
    assert line[0] == w[0] && !IsBlank(line);
    assert Split(line, BLANKS) == if |gap| == 1 then [w] else [w, ""];
  }

  // ------------------------------------------------------ reading back

  /** A configuration: scalar settings and collector blocks, in file order. */
  datatype Entry = Scalar(target: Global, value: string) | Block(name: string, members: seq<Member>)
  datatype Member = Member(field: MemberField, value: string)

  /** The name of a collector is given in the line that opens its block. */
  type MemberField = f: Field | f != Name witness Host

  predicate IsBlankCharacter(c: char) {
    c == ' ' || c == '\t' || c == '\n' || c == '\r'
  }

  /** A word of a line, without blanks and not cut by a comment. */
  ghost predicate PlainWord(w: string) {
    w != "" && forall c | c in w :: !IsBlankCharacter(c) && c != '#'
  }

  ghost predicate OnlyBlanks(s: string) {
    forall c | c in s :: IsBlankCharacter(c)
  }

  /** A value the printer can write: one word that is no brace. */
  ghost predicate Printable(w: string) {
    PlainWord(w) && w[0] != '{' && w[0] != '}'
  }

  lemma BlankCharacters(s: string)
    ensures OnlyBlanks(s) <==> AllIn(s, BLANKS)
    ensures PlainWord(s) <==> s != "" && NoneIn(s, BLANKS) && '#' !in s
  {
  }

  ghost predicate PrintableEntry(e: Entry) {
    match e
    case Scalar(_, value) => Printable(value)
    case Block(name, members) => Printable(name) && forall m | m in members :: Printable(m.value)
  }

  function GlobalRow(g: Global): (i: nat)
    ensures i < |SETTINGS| && SETTINGS[i].value == Some(g) && SETTINGS[i].parentId == 0 && SETTINGS[i].id != COLLECTOR
  {
    match g case SwitchName => 0 case SwitchApiHost => 1 case SwitchApiLogin => 2 case SwitchApiPassword => 3 case ExportInterval => 4
  }

  function FieldRow(f: MemberField): (i: nat)
    ensures i < |SETTINGS| && SETTINGS[i].offset == Some(f) && SETTINGS[i].parentId == COLLECTOR && SETTINGS[i].id != COLLECTOR
  {
    match f case Address => 6 case Host => 7 case TransportKind => 8 case Port => 9 case Dscp => 10
  }

  /** The names of the settings. */
  function GlobalName(g: Global): string {
    match g
    case SwitchName => "switch"
    case SwitchApiHost => "switch-nvapi-host"
    case SwitchApiLogin => "switch-nvapi-login"
    case SwitchApiPassword => "switch-nvapi-password"
    case ExportInterval => "export-interval"
  }

  function FieldName(f: MemberField): string {
    match f
    case Address => "collector-ip-address"
    case Host => "collector-hostname"
    case TransportKind => "transport"
    case Port => "transport-port"
    case Dscp => "dscp"
  }

  /** The table has them. */
  lemma GlobalIsNamed(g: Global)
    ensures SETTINGS[GlobalRow(g)].name == GlobalName(g)
  {
  }

  lemma FieldIsNamed(f: MemberField)
    ensures SETTINGS[FieldRow(f)].name == FieldName(f)
  {
  }

  const OPEN := "{"
  const CLOSE := "}"

  /** The words of the lines an entry is printed on. */
  function EntryWords(e: Entry): seq<seq<string>> {
    match e
    case Scalar(g, value) => [[GlobalName(g), value]]
    case Block(name, members) => [["collector", name, OPEN]] + MemberWords(members) + [[CLOSE]]
  }

  function MemberWords(ms: seq<Member>): seq<seq<string>> {
    if ms == [] then [] else [[FieldName(ms[0].field), ms[0].value]] + MemberWords(ms[1..])
  }

  function ConfigWords(es: seq<Entry>): seq<seq<string>> {
    if es == [] then [] else EntryWords(es[0]) + ConfigWords(es[1..])
  }

  /** What a block describes, before defaults. */
  ghost function Described(c: Collector, ms: seq<Member>): Collector
    decreases |ms|
  {
    if ms == [] then c else Described(ParseField(c, ms[0].field, ms[0].value), ms[1..])
  }

  ghost function BlockCollector(name: string, ms: seq<Member>): Collector {
    Described(ZERO_COLLECTOR.(name := Some(name)), ms)
  }

  /** The meaning of a configuration: scalars assigned in order, usable collectors put at
      the front of the list with their defaults filled in. */
  ghost function MeaningGlobals(g: Globals, es: seq<Entry>): Globals
    decreases |es|
  {
    if es == [] then g
    else MeaningGlobals(if es[0].Scalar? then ParseGlobal(g, es[0].target, es[0].value) else g, es[1..])
  }

  ghost function MeaningCollectors(cs: seq<Collector>, es: seq<Entry>): seq<Collector>
    decreases |es|
  {
    if es == [] then cs
    else MeaningCollectors(if es[0].Block? && Usable(BlockCollector(es[0].name, es[0].members))
                           then [Defaulted(BlockCollector(es[0].name, es[0].members))] + cs else cs, es[1..])
  }

  lemma TwoWords(st: State, i: nat, value: string)
    requires i < |SETTINGS| && Printable(value) && st.parentId == SETTINGS[i].parentId
    ensures ReadWords(st, [SETTINGS[i].name, value]) == ParseValue(Select(st, Some(SETTINGS[i])), SETTINGS[i], value)
    ensures Complete([SETTINGS[i].name, value])
  {
    var start, name := LineState(st, 0, None), SETTINGS[i].name;
    SettingAt(i);
    RowIsWord(i);
    assert [name, value][..1] == [name] && [name][..0] == [];
    assert Steps(start, [name]) == Step(start, name);
    assert Steps(start, [name, value]) == Step(Step(start, name), value);
    assert Pending([]) == 0 && Pending([name]) == 1 && Pending([name, value]) == 2;
  }

  lemma RowIsWord(i: nat)
    requires i < |SETTINGS|
    ensures SETTINGS[i].name != "" && !Opens(SETTINGS[i].name) && !Closes(SETTINGS[i].name)
  {
  }

  lemma OpenWords(st: State, name: string)
    requires Printable(name) && st.parentId == 0
    ensures var r := ReadWords(st, ["collector", name, OPEN]);
      && r.parentId == COLLECTOR && r.scratch == ZERO_COLLECTOR.(name := Some(name))
      && r.globals == st.globals && r.collectors == st.collectors
    ensures Complete(["collector", name, OPEN])
  {
    TwoWords(st, 5, name);
    var start, ws := LineState(st, 0, None), ["collector", name, OPEN];
    assert SETTINGS[5].name == "collector";
    assert ws[..2] == [SETTINGS[5].name, name];
    assert Steps(start, ws) == Step(Steps(start, ws[..2]), OPEN);
  }

  lemma CloseWords(st: State)
    requires st.parentId == COLLECTOR
    ensures var r := ReadWords(st, [CLOSE]);
      && r.parentId == 0 && r.globals == st.globals
      && r.collectors == if Usable(st.scratch) then [Defaulted(st.scratch)] + st.collectors else st.collectors
    ensures Complete([CLOSE])
  {
    var start := LineState(st, 0, None);
    assert [CLOSE][..0] == [];
    assert Steps(start, [CLOSE]) == Step(start, CLOSE);
  }

  lemma {:induction false} ReadAppended(st: State, a: seq<seq<string>>, b: seq<seq<string>>)
    ensures ReadWordLines(st, a + b) == ReadWordLines(ReadWordLines(st, a), b)
    decreases |a|
  {
    if a == [] {
      assert a + b == b;
    } else {
      assert (a + b)[1..] == a[1..] + b;
      ReadAppended(ReadWords(st, a[0]), a[1..], b);
    }
  }

  lemma {:induction false} ReadMembers(st: State, ms: seq<Member>)
    requires st.parentId == COLLECTOR
    requires forall m | m in ms :: Printable(m.value)
    ensures var r := ReadWordLines(st, MemberWords(ms));
      && r.parentId == COLLECTOR && r.scratch == Described(st.scratch, ms)
      && r.globals == st.globals && r.collectors == st.collectors
    ensures forall ws | ws in MemberWords(ms) :: Complete(ws)
    decreases |ms|
  {
    if ms != [] {
      var m, lines := ms[0], MemberWords(ms);
      assert m in ms;
      FieldIsNamed(m.field);
      TwoWords(st, FieldRow(m.field), m.value);
      assert lines[1..] == MemberWords(ms[1..]);
      ReadMembers(ReadWords(st, lines[0]), ms[1..]);
    }
  }

  lemma ReadEntry(st: State, e: Entry)
    requires st.parentId == 0 && PrintableEntry(e)
    ensures var r := ReadWordLines(st, EntryWords(e));
      && r.parentId == 0
      && r.globals == MeaningGlobals(st.globals, [e])
      && r.collectors == MeaningCollectors(st.collectors, [e])
    ensures forall ws | ws in EntryWords(e) :: Complete(ws)
  {
    assert [e][1..] == [];
    match e
    case Scalar(g, value) =>
      GlobalIsNamed(g);
      TwoWords(st, GlobalRow(g), value);
      assert EntryWords(e)[1..] == [];
    case Block(name, members) =>
      var first, last := ["collector", name, OPEN], [CLOSE];
      OpenWords(st, name);
      var inside := ReadWords(st, first);
      ReadMembers(inside, members);
      var filled := ReadWordLines(inside, MemberWords(members));
      CloseWords(filled);
      ReadAppended(st, [first] + MemberWords(members), [last]);
      assert ([first] + MemberWords(members))[1..] == MemberWords(members) && [last][1..] == [];
  }

  /** Any file whose lines carry the words of a printed configuration, in whatever layout,
      is read as its meaning. */
  lemma {:induction false} ReadConfigWords(st: State, es: seq<Entry>)
    requires st.parentId == 0 && forall e | e in es :: PrintableEntry(e)
    ensures var r := ReadWordLines(st, ConfigWords(es));
      && r.parentId == 0
      && r.globals == MeaningGlobals(st.globals, es)
      && r.collectors == MeaningCollectors(st.collectors, es)
    ensures forall ws | ws in ConfigWords(es) :: Complete(ws)
    decreases |es|
  {
    if es != [] {
      assert es[0] in es;
      ReadEntry(st, es[0]);
      ReadAppended(st, EntryWords(es[0]), ConfigWords(es[1..]));
      ReadConfigWords(ReadWordLines(st, EntryWords(es[0])), es[1..]);
      assert [es[0]][1..] == [];
    }
  }

  // ------------------------------------------------------ from words to text

  /** A line as fgets delivers it: one line feed, at the end, within the buffer. */
  ghost predicate ProperLine(line: string) {
    0 < |line| <= 4095 && line[|line| - 1] == '\n' && forall i | 0 <= i < |line| - 1 :: line[i] != '\n'
  }

  lemma {:induction false} LineEndIs(text: string, i: nat, limit: nat, e: nat)
    requires i < e <= |text| && e <= i + limit && text[e - 1] == '\n'
    requires forall k | i <= k < e - 1 :: text[k] != '\n'
    ensures LineEnd(text, i, limit) == e
    decreases e - i
  {
    if i + 1 < e {
      LineEndIs(text, i + 1, limit - 1, e);
    }
  }

  /** A line that fits the buffer is the next one read. */
  lemma ReadProperLine(st: State, before: string, line: string, rest: string)
    requires ProperLine(line)
    ensures ReadFrom(st, before + line + rest, |before|) == ReadFrom(ReadLine(st, line), before + line + rest, |before + line|)
  {
    var (text, e) := (before + line + rest, |before + line|);
    assert text[|before|..e] == line;
    assert forall k | |before| <= k < e :: text[k] == line[k - |before|];
    LineEndIs(text, |before|, LINE_LIMIT, e);
    assert line[|line| - 1] in line;
  }

  /** Reading proper lines back from the text they make up. */
  lemma {:induction false} ReadTextIsReadLines(st: State, before: string, lines: seq<string>)
    requires forall l | l in lines :: ProperLine(l)
    ensures ReadFrom(st, before + Flatten(lines), |before|) == ReadLines(st, lines)
  {
    TailIsDropped(st, before, lines, "");
    assert before + Flatten(lines) + "" == before + Flatten(lines);
  }

  /** A rest without a line feed within reach of the buffer. */
  ghost predicate Unread(tail: string) {
    forall i | 0 <= i < |tail| && i < 4095 :: tail[i] != '\n'
  }

  lemma UnreadStops(st: State, text: string, i: nat)
    requires i <= |text| && Unread(text[i..])
    ensures ReadFrom(st, text, i) == st
  {
    if i < |text| {
      var line := LineAt(text, i);
      forall k | 0 <= k < |line| ensures line[k] != '\n' {
        assert line[k] == text[i..][k];
      }
    }
  }

  /** A last line without a line feed, and everything from a line too long for the buffer on,
      is not read. */
  lemma {:induction false} TailIsDropped(st: State, before: string, lines: seq<string>, tail: string)
    requires (forall l | l in lines :: ProperLine(l)) && Unread(tail)
    ensures ReadFrom(st, before + Flatten(lines) + tail, |before|) == ReadLines(st, lines)
    decreases |lines|
  {
    var text := before + Flatten(lines) + tail;
    if lines == [] {
      assert text[|before|..] == tail;
      UnreadStops(st, text, |before|);
    } else {
      var line, rest := lines[0], lines[1..];
      assert line in lines;
      assert text == (before + line) + Flatten(rest) + tail;
      ReadProperLine(st, before, line, Flatten(rest) + tail);
      assert text == before + line + (Flatten(rest) + tail);
      TailIsDropped(ReadLine(st, line), before + line, rest, tail);
    }
  }

  /** Every file is a run of lines that fit the buffer and a rest that is not read; the reader
      reads exactly those lines. */
  lemma TextDivides(st: State, text: string) returns (lines: seq<string>, tail: string)
    ensures text == Flatten(lines) + tail && (forall l | l in lines :: ProperLine(l)) && Unread(tail)
    ensures ReadText(st, text) == ReadLines(st, lines)
  {
    lines, tail := Divide(text);
    TailIsDropped(st, "", lines, tail);
    assert "" + Flatten(lines) + tail == text;
  }

  lemma {:induction false} Divide(text: string) returns (lines: seq<string>, tail: string)
    ensures text == Flatten(lines) + tail && (forall l | l in lines :: ProperLine(l)) && Unread(tail)
    decreases |text|
  {
    if Unread(text) {
      lines, tail := [], text;
    } else {
      var e := LineEnd(text, 0, LINE_LIMIT);
      var (line, rest) := (text[..e], text[e..]);
      lines, tail := Divide(rest);
      lines := [line] + lines;
      assert text == line + rest;
    }
  }

  /** Reading back: for every configuration and every file that carries its words, in any
      layout of lines that fit the buffer, the reader's globals and collector list are those
      the configuration means. */
  lemma ReadBack(es: seq<Entry>, lines: seq<string>, garbage: Collector, globals: Globals)
    requires forall e | e in es :: PrintableEntry(e)
    requires forall l | l in lines :: ProperLine(l)
    requires WordLines(lines) == ConfigWords(es)
    ensures var r := ReadText(State(0, 0, garbage, false, globals, [], []), Flatten(lines));
      r.parentId == 0 && r.globals == MeaningGlobals(globals, es) && r.collectors == MeaningCollectors([], es)
  {
    var st := State(0, 0, garbage, false, globals, [], []);
    ReadConfigWords(st, es);
    LinesAreTheirWords(st, lines);
    ReadTextIsReadLines(st, "", lines);
    assert "" + Flatten(lines) == Flatten(lines);
  }

  /** The printer: words separated by single spaces, one line feed. */
  function PrintLine(ws: seq<string>): string {
    (if ws == [] then "" else Join(ws, seq(|ws| - 1, _ => " "))) + "\n"
  }

  function PrintLines(lines: seq<seq<string>>): seq<string> {
    if lines == [] then [] else [PrintLine(lines[0])] + PrintLines(lines[1..])
  }

  ghost predicate PlainWords(ws: seq<string>) {
    ws != [] && forall w | w in ws :: PlainWord(w)
  }

  lemma PrintedLine(ws: seq<string>)
    requires PlainWords(ws)
    ensures WordsOf(PrintLine(ws)) == ws
    ensures |PrintLine(ws)| <= 4095 ==> ProperLine(PrintLine(ws))
  {
    var gaps := seq(|ws| - 1, _ => " ");
    var body := Join(ws, gaps);
    forall w | w in ws ensures w != "" && NoneIn(w, BLANKS) { BlankCharacters(w); }
    assert Words(ws, BLANKS) && Gaps(gaps, BLANKS);
    RunsOfJoin(ws, gaps, BLANKS);
    RunsAppend(body, "\n", BLANKS);
    RunsOfDelimiters("\n", BLANKS);
    assert forall w | w in ws :: NoneIn(w, "#\n") by {
      forall w, c | w in ws && c in w ensures c !in "#\n" { assert !IsBlankCharacter(c); }
    }
    JoinAvoids(ws, gaps, "#\n");
    assert '#' in "#\n" && '\n' in "#\n";
    CutOfClean(PrintLine(ws));
    assert forall i | 0 <= i < |body| :: body[i] in body;
  }

  lemma {:induction false} PrintedLines(lines: seq<seq<string>>)
    requires forall ws | ws in lines :: PlainWords(ws)
    ensures WordLines(PrintLines(lines)) == lines
  {
    if lines != [] {
      assert lines[0] in lines;
      PrintedLine(lines[0]);
      PrintedLines(lines[1..]);
      FirstPrinted(lines);
      FirstWords(PrintLines(lines));
      assert lines == [lines[0]] + lines[1..];
    }
  }

  lemma FirstWords(lines: seq<string>)
    requires lines != [] && WordsOf(lines[0]) != []
    ensures WordLines(lines) == [WordsOf(lines[0])] + WordLines(lines[1..])
  {
  }

  lemma FirstPrinted(lines: seq<seq<string>>)
    requires lines != []
    ensures PrintLines(lines) != [] && PrintLines(lines)[0] == PrintLine(lines[0])
    ensures PrintLines(lines)[1..] == PrintLines(lines[1..])
  {
  }

  lemma {:induction false} PrintedAt(lines: seq<seq<string>>)
    ensures |PrintLines(lines)| == |lines|
    ensures forall i | 0 <= i < |lines| :: PrintLines(lines)[i] == PrintLine(lines[i])
  {
    if lines != [] {
      FirstPrinted(lines);
      PrintedAt(lines[1..]);
    }
  }

  lemma PrintedWordsArePlain(es: seq<Entry>)
    requires forall e | e in es :: PrintableEntry(e)
    ensures forall ws | ws in ConfigWords(es) :: PlainWords(ws)
  {
    if es != [] {
      assert es[0] in es;
      EntryWordsArePlain(es[0]);
      PrintedWordsArePlain(es[1..]);
    }
  }

  lemma RowIsPlain(i: nat)
    requires i < |SETTINGS|
    ensures PlainWord(SETTINGS[i].name)
  {
    var s := SETTINGS[i].name;
    RowIsNamed(i);
    forall k | 0 <= k < |s| ensures IsLetter(s[k]) {
      RowLetter(i, k);
    }
  }

  ghost predicate IsLetter(c: char) {
    'a' <= c <= 'z' || c == '-'
  }

  lemma RowLetter(i: nat, k: nat)
    requires i < |SETTINGS| && k < |SETTINGS[i].name|
    ensures IsLetter(SETTINGS[i].name[k])
  {
    if i < 4 {
      RowLetterLow(i, k);
    } else if i < 7 {
      RowLetterMiddle(i, k);
    } else {
      RowLetterHigh(i, k);
    }
  }

  lemma RowLetterLow(i: nat, k: nat)
    requires i < 4 && k < |SETTINGS[i].name|
    ensures IsLetter(SETTINGS[i].name[k])
  {
  }

  lemma RowLetterMiddle(i: nat, k: nat)
    requires 4 <= i < 7 && k < |SETTINGS[i].name|
    ensures IsLetter(SETTINGS[i].name[k])
  {
  }

  lemma RowLetterHigh(i: nat, k: nat)
    requires 7 <= i < |SETTINGS| && k < |SETTINGS[i].name|
    ensures IsLetter(SETTINGS[i].name[k])
  {
  }

  lemma EntryWordsArePlain(e: Entry)
    requires PrintableEntry(e)
    ensures forall ws | ws in EntryWords(e) :: PlainWords(ws)
  {
    match e
    case Scalar(g, value) =>
      GlobalIsNamed(g);
      RowIsPlain(GlobalRow(g));
    case Block(name, members) =>
      RowIsPlain(5);
      assert PlainWords([SETTINGS[5].name, name, OPEN]) && PlainWords([CLOSE]);
      MembersArePlain(members);
  }

  lemma {:induction false} MembersArePlain(ms: seq<Member>)
    requires forall m | m in ms :: Printable(m.value)
    ensures forall ws | ws in MemberWords(ms) :: PlainWords(ws)
  {
    if ms != [] {
      assert ms[0] in ms;
      FieldIsNamed(ms[0].field);
      RowIsPlain(FieldRow(ms[0].field));
      assert PlainWords([FieldName(ms[0].field), ms[0].value]);
      MembersArePlain(ms[1..]);
    }
  }

  /** Printing a configuration and reading it: its meaning, provided its lines fit. */
  lemma PrintThenRead(es: seq<Entry>, garbage: Collector, globals: Globals)
    requires forall e | e in es :: PrintableEntry(e)
    requires forall ws | ws in ConfigWords(es) :: |PrintLine(ws)| <= 4095
    ensures var r := ReadText(State(0, 0, garbage, false, globals, [], []), Flatten(PrintLines(ConfigWords(es))));
      r.parentId == 0 && r.globals == MeaningGlobals(globals, es) && r.collectors == MeaningCollectors([], es)
  {
    var lines := ConfigWords(es);
    PrintedWordsArePlain(es);
    PrintedLines(lines);
    PrintedAt(lines);
    forall l | l in PrintLines(lines) ensures ProperLine(l) {
      var i :| 0 <= i < |lines| && PrintLines(lines)[i] == l;
      assert lines[i] in lines;
      PrintedLine(lines[i]);
    }
    ReadBack(es, PrintLines(lines), garbage, globals);
  }

  // ------------------------------------------------------ what the meaning is

  /** The last value a scalar is given. */
  ghost function LastScalar(es: seq<Entry>, g: Global): Option<string> {
    if es == [] then None
    else var later := LastScalar(es[1..], g);
         if later.Some? then later else if es[0].Scalar? && es[0].target == g then Some(es[0].value) else None
  }

  ghost function Or(later: Option<string>, before: Option<string>): Option<string> {
    if later.Some? then later else before
  }

  /** The last assignment of each scalar wins. */
  lemma {:induction false} LastScalarWins(g: Globals, es: seq<Entry>)
    ensures var r := MeaningGlobals(g, es);
      && r.switchName == Or(LastScalar(es, SwitchName), g.switchName)
      && r.apiHost == Or(LastScalar(es, SwitchApiHost), g.apiHost)
      && r.apiLogin == Or(LastScalar(es, SwitchApiLogin), g.apiLogin)
      && r.apiPassword == Or(LastScalar(es, SwitchApiPassword), g.apiPassword)
    decreases |es|
  {
    if es != [] {
      LastScalarWins(if es[0].Scalar? then ParseGlobal(g, es[0].target, es[0].value) else g, es[1..]);
    }
  }

  /** The last export interval of the form h:m:s. */
  ghost function LastInterval(es: seq<Entry>): Option<string> {
    if es == [] then None
    else var later := LastInterval(es[1..]);
         if later.Some? then later
         else if es[0].Scalar? && es[0].target == ExportInterval && |Split(es[0].value, ":")| == 3 then Some(es[0].value)
         else None
  }

  /** The last export interval of that form wins; others change nothing. */
  lemma {:induction false} LastIntervalWins(g: Globals, es: seq<Entry>)
    ensures MeaningGlobals(g, es).exportInterval ==
      var last := LastInterval(es);
      if last.Some? then TimespanOf(last.value, g.exportInterval).1 else g.exportInterval
    decreases |es|
  {
    if es != [] {
      var e := es[0];
      LastIntervalWins(if e.Scalar? then ParseGlobal(g, e.target, e.value) else g, es[1..]);
      IntervalHasThreeParts(es[1..]);
    }
  }

  lemma {:induction false} IntervalHasThreeParts(es: seq<Entry>)
    ensures LastInterval(es).Some? ==> |Split(LastInterval(es).value, ":")| == 3
  {
    if es != [] {
      IntervalHasThreeParts(es[1..]);
    }
  }

  /** The usable blocks, described and completed, in file order. */
  ghost function UsableBlocks(es: seq<Entry>): seq<Collector> {
    if es == [] then []
    else (if es[0].Block? && Usable(BlockCollector(es[0].name, es[0].members))
          then [Defaulted(BlockCollector(es[0].name, es[0].members))] else []) + UsableBlocks(es[1..])
  }

  /** Collectors come out in reverse file order. */
  lemma {:induction false} CollectorsAreReversed(cs: seq<Collector>, es: seq<Entry>)
    ensures var n := |UsableBlocks(es)|;
      && |MeaningCollectors(cs, es)| == n + |cs|
      && (forall i | 0 <= i < n :: MeaningCollectors(cs, es)[i] == UsableBlocks(es)[n - 1 - i])
      && MeaningCollectors(cs, es)[n..] == cs
    decreases |es|
  {
    if es != [] {
      if es[0].Block? && Usable(BlockCollector(es[0].name, es[0].members)) {
        var c := Defaulted(BlockCollector(es[0].name, es[0].members));
        CollectorsAreReversed([c] + cs, es[1..]);
        OneMoreReversed(MeaningCollectors([c] + cs, es[1..]), UsableBlocks(es[1..]), c, cs);
      } else {
        CollectorsAreReversed(cs, es[1..]);
      }
    }
  }

  lemma OneMoreReversed(all: seq<Collector>, blocks: seq<Collector>, c: Collector, cs: seq<Collector>)
    requires var n := |blocks|; n <= |all| && all[n..] == [c] + cs && forall i | 0 <= i < n :: all[i] == blocks[n - 1 - i]
    ensures var n := |blocks| + 1; var more := [c] + blocks;
      n <= |all| && all[n..] == cs && forall i | 0 <= i < n :: all[i] == more[n - 1 - i]
  {
    var n := |blocks|;
    assert all[n] == all[n..][0];
    assert all[n + 1..] == all[n..][1..];
  }

  /** The last value a block gives a member. */
  ghost function LastMember(ms: seq<Member>, f: MemberField): Option<string> {
    if ms == [] then None
    else var later := LastMember(ms[1..], f);
         if later.Some? then later else if ms[0].field == f then Some(ms[0].value) else None
  }

  /** Within a block the last value of a member wins, and the port and transport that are
      not given are 4739 and UDP. */
  lemma {:induction false} LastMemberWins(c: Collector, ms: seq<Member>)
    ensures var r := Described(c, ms);
      && r.name == c.name
      && r.host == Or(LastMember(ms, Host), c.host)
      && r.port == Or(LastMember(ms, Port), c.port)
      && r.dscp == (if LastMember(ms, Dscp).Some? then StrToU64(LastMember(ms, Dscp).value, 0) % 256 else c.dscp)
    ensures Defaulted(Described(c, ms)).port == Some(if Described(c, ms).port.Some? then Described(c, ms).port.value else "4739")
    ensures (forall m | m in ms :: m.field != TransportKind) && c.transport.Undefined? ==> Defaulted(Described(c, ms)).transport == Udp
    decreases |ms|
  {
    if ms != [] {
      assert ms[0] in ms && forall m | m in ms[1..] :: m in ms;
      LastMemberWins(ParseField(c, ms[0].field, ms[0].value), ms[1..]);
    }
  }

  function TransportText(k: Transport): string {
    match k case Tcp => "tcp" case Udp => "udp" case Sctp => "sctp" case Undefined => ""
  }

  /** Every transport that has a name is read back from it; anything else changes nothing. */
  lemma TransportRoundTrip(k: Transport, was: Transport, s: string)
    ensures k != Undefined ==> TransportOf(TransportText(k), was) == k
    ensures (forall j: Transport | j != Undefined :: s != TransportText(j)) ==> TransportOf(s, was) == was
  {
    assert TransportText(Tcp) == "tcp" && TransportText(Udp) == "udp" && TransportText(Sctp) == "sctp";
    assert "tcp"[0] == 't' && "udp"[0] == 'u' && "sctp"[0] == 's';
  }

  /** A block whose transport and address are last given in printed form has those values. */
  lemma {:induction false} LastAddressAndTransport(c: Collector, ms: seq<Member>, v: nat, k: Transport)
    requires v < U32 && k != Undefined
    ensures LastMember(ms, Address) == Some(IpText(v)) ==> Described(c, ms).ipAddress == IpAddress(v, true)
    ensures LastMember(ms, TransportKind) == Some(TransportText(k)) ==> Described(c, ms).transport == k
    decreases |ms|
  {
    if ms != [] {
      IpRoundTrip(v, c.ipAddress);
      TransportRoundTrip(k, c.transport, "");
      LastAddressAndTransport(ParseField(c, ms[0].field, ms[0].value), ms[1..], v, k);
      NotMentioned(ParseField(c, ms[0].field, ms[0].value), ms[1..]);
    }
  }

  lemma {:induction false} NotMentioned(c: Collector, ms: seq<Member>)
    ensures LastMember(ms, Address).None? ==> Described(c, ms).ipAddress == c.ipAddress
    ensures LastMember(ms, TransportKind).None? ==> Described(c, ms).transport == c.transport
    decreases |ms|
  {
    if ms != [] {
      NotMentioned(ParseField(c, ms[0].field, ms[0].value), ms[1..]);
    }
  }
}
