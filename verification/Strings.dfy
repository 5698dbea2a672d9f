/** The string list, the tokenizer and the trimmer of the C runtime, in place. */
module Strings {
  import opened Sequences
  import opened Text

  class StringItem {
    var value: string
    var next: StringItem?
    var prev: StringItem?

    constructor (value: string, prev: StringItem?)
      ensures this.value == value && this.prev == prev && next == null
    {
      this.value, this.prev, next := value, prev, null;
    }
  }

  /** A non-empty doubly linked list of strings; NULL is the empty list. */
  class StringList {
    var head: StringItem
    var tail: StringItem
    var count: nat
    ghost var items: seq<StringItem>
    ghost var Contents: seq<string>

    ghost predicate Valid()
      reads this, items
      ensures Valid() ==> head in items && tail in items
    {
      && items != [] && count == |items| == |Contents|
      && head == items[0] && tail == items[|items| - 1]
      && (forall i {:trigger items[i].value} | 0 <= i < |items| :: items[i].value == Contents[i])
      && (forall i {:trigger items[i].next} | 0 <= i < |items| - 1 :: items[i].next == items[i + 1])
      && tail.next == null
      && head.prev == null
      && (forall i {:trigger items[i].prev} | 1 <= i < |items| :: items[i].prev == items[i - 1])
      && (forall i, j | 0 <= i < j < |items| :: items[i] != items[j])
    }

    ghost function Repr(): set<object>
      reads this
      ensures forall i | i in items :: i in Repr()
    {
      {this as object} + (set i: StringItem | i in items :: i as object)
    }

    /** nvipfix_string_list_add with a NULL list. */
    constructor (value: string)
      ensures Valid() && Contents == [value] && fresh(Repr())
    {
      var item := new StringItem(value, null);
      head, tail, count := item, item, 1;
      items, Contents := [item], [value];
    }

    /** nvipfix_string_list_add with an existing list. */
    method Append(value: string)
      requires Valid()
      modifies this, tail
      ensures Valid() && fresh(Repr() - old(Repr()))
      ensures Contents == old(Contents) + [value]
      ensures old(items) <= items
    {
      var item := new StringItem(value, tail);
      tail.next := item;
      tail := item;
      count := count + 1;
      items, Contents := items + [item], Contents + [value];
    }
  }

  /** nvipfix_string_list_add: a NULL list makes a new one. */
  method ListAdd(list: StringList?, value: string) returns (r: StringList)
    requires list != null ==> list.Valid()
    modifies if list == null then {} else {list, list.tail}
    ensures r.Valid()
    ensures list == null ==> r.Contents == [value] && fresh(r.Repr())
    ensures list != null ==> r == list && r.Contents == old(list.Contents) + [value] && fresh(r.Repr() - old(list.Repr()))
  {
    if list == null {
      r := new StringList(value);
    } else {
      list.Append(value);
      r := list;
    }
  }

  /** What a list pointer stands for. */
  ghost function ContentsOf(list: StringList?): seq<string>
    reads list
  {
    if list == null then [] else list.Contents
  }

  /** The item k steps along next, and along prev. */
  ghost function Forward(item: StringItem?, k: nat): StringItem?
    reads *
  {
    if item == null || k == 0 then item else Forward(item.next, k - 1)
  }

  ghost function Backward(item: StringItem?, k: nat): StringItem?
    reads *
  {
    if item == null || k == 0 then item else Backward(item.prev, k - 1)
  }

  lemma {:induction false} ForwardFrom(list: StringList, i: nat, k: nat)
    requires list.Valid() && i < |list.items| && i + k <= |list.items|
    ensures Forward(list.items[i], k) == if i + k < |list.items| then list.items[i + k] else null
    decreases k
  {
    if k != 0 && i + 1 < |list.items| {
      ForwardFrom(list, i + 1, k - 1);
    }
  }

  lemma {:induction false} BackwardFrom(list: StringList, i: nat, k: nat)
    requires list.Valid() && i < |list.items| && k <= i + 1
    ensures Backward(list.items[i], k) == if k <= i then list.items[i - k] else null
    decreases k
  {
    if k != 0 && i != 0 {
      BackwardFrom(list, i - 1, k - 1);
    }
  }

  /** Walking the links from head or from tail visits the contents in order and in reverse,
      and ends after as many items as the count says. */
  lemma LinksAgree(list: StringList, k: nat)
    requires list.Valid() && k < list.count
    ensures Forward(list.head, k) != null && Forward(list.head, k).value == list.Contents[k]
    ensures Backward(list.tail, k) != null && Backward(list.tail, k).value == list.Contents[list.count - 1 - k]
    ensures Forward(list.head, list.count) == null && Backward(list.tail, list.count) == null
  {
    ForwardFrom(list, 0, k);
    ForwardFrom(list, 0, list.count);
    BackwardFrom(list, list.count - 1, k);
    BackwardFrom(list, list.count - 1, list.count);
  }

  const CHARSET_SIZE := 256

  /** The membership table the tokenizer and the trimmer fill from a character list. */
  method CharsetMap(chars: string) returns (m: array<bool>)
    requires IsText(chars)
    ensures fresh(m) && IsCharset(m, chars)
  {
    m := new bool[CHARSET_SIZE](_ => false);
    for i := 0 to |chars|
      invariant forall c: char | c as int < CHARSET_SIZE :: m[c as int] <==> c in chars[..i]
    {
      assert chars[i] in chars;
      assert chars[..i + 1] == chars[..i] + [chars[i]];
      m[chars[i] as int] := true;
    }
    assert chars[..|chars|] == chars;
  }

  /** Splits a string and walks the list from head to tail, as the importer's loops do. */
  method Tokens(s: string, delimiters: string) returns (tokens: seq<string>)
    requires IsText(s) && IsText(delimiters)
    ensures tokens == Split(s, delimiters)
    ensures forall t | t in tokens :: IsText(t)
  {
    tokens := [];
    SplitIsText(s, delimiters);
    var list := StringSplit(s, delimiters);
    if list != null {
      var item: StringItem? := list.head;
      while item != null
        invariant |tokens| <= |list.items| && tokens == list.Contents[..|tokens|]
        invariant item == if |tokens| < |list.items| then list.items[|tokens|] else null
        decreases |list.items| - |tokens|
      {
        assert list.items[|tokens|].value == list.Contents[|tokens|];
        tokens := tokens + [item.value];
        item := item.next;
      }
    }
  }

  ghost predicate IsCharset(m: array<bool>, chars: string)
    reads m
  {
    m.Length == CHARSET_SIZE && forall c: char | c as int < CHARSET_SIZE :: m[c as int] <==> c in chars
  }

  /** One character of the tokenizer's loop, up to the question whether a token is ready. */
  method ScanCharacter(s: string, ghost d: string, delimitersMap: array<bool>, i: nat, tokenStart0: nat, tokenLength0: nat)
      returns (tokenStart: nat, tokenLength: nat, isTokenReady: bool)
    requires IsText(s) && IsCharset(delimitersMap, d)
    requires i < |s| && tokenStart0 + tokenLength0 == i
    ensures isTokenReady ==>
              && tokenStart + tokenLength <= |s|
              && Emissions(s, d, tokenStart0, i) == [(tokenStart, tokenStart + tokenLength)] + Emissions(s, d, i + 1, i + 1)
    ensures !isTokenReady ==>
              && tokenStart + tokenLength == i + 1
              && Emissions(s, d, tokenStart0, i) == Emissions(s, d, tokenStart, i + 1)
  {
    tokenStart, tokenLength, isTokenReady := tokenStart0, tokenLength0, false;
    assert s[i] in s;
    if delimitersMap[s[i] as int] {
      if tokenLength > 0 {
        isTokenReady := true;
      } else {
        tokenStart := i + 1;
      }
    } else {
      tokenLength := tokenLength + 1;
    }
    if i == |s| - 1 {
      isTokenReady := true;
    }
  }

  /** nvipfix_string_split: one pass with a pending token s[tokenStart..tokenStart + tokenLength]. */
  method StringSplit(s: string, delimiters: string) returns (result: StringList?)
    requires IsText(s) && IsText(delimiters)
    ensures ContentsOf(result) == Split(s, delimiters)
    ensures result != null ==> result.Valid() && fresh(result.Repr())
  {
    result := null;
    var delimitersMap := CharsetMap(delimiters);
    var tokenStart: nat, tokenLength: nat, isTokenReady := 0, 0, false;
    ghost var emitted: seq<(nat, nat)> := [];
    for i := 0 to |s|
      invariant fresh(delimitersMap) && IsCharset(delimitersMap, delimiters)
      invariant result != null ==> result.Valid() && fresh(result.Repr())
      invariant !isTokenReady && tokenStart + tokenLength == i
      invariant ContentsOf(result) == Slices(s, emitted)
      invariant emitted + Emissions(s, delimiters, tokenStart, i) == Emissions(s, delimiters, 0, 0)
    {
      tokenStart, tokenLength, isTokenReady := ScanCharacter(s, delimiters, delimitersMap, i, tokenStart, tokenLength);
      if isTokenReady {
        ghost var later := Emissions(s, delimiters, i + 1, i + 1);
        Reassociate(emitted, [(tokenStart, tokenStart + tokenLength)], later);
        result, emitted := AddToken(result, s, tokenStart, tokenLength, emitted);
        tokenLength := 0;
        tokenStart := i + 1;
        isTokenReady := false;
      }
    }
    assert emitted == Emissions(s, delimiters, 0, 0);
    EmissionsAreSplit(s, delimiters);
  }

  /** Copies the pending token out of the input and appends it to the result. */
  method AddToken(list: StringList?, s: string, start: nat, length: nat, ghost emitted: seq<(nat, nat)>)
      returns (r: StringList, ghost emitted': seq<(nat, nat)>)
    requires start + length <= |s|
    requires list != null ==> list.Valid()
    requires ContentsOf(list) == Slices(s, emitted)
    modifies if list == null then {} else {list, list.tail}
    ensures r.Valid() && emitted' == emitted + [(start, start + length)]
    ensures r.Contents == Slices(s, emitted')
    ensures list == null ==> fresh(r.Repr())
    ensures list != null ==> r == list && fresh(r.Repr() - old(list.Repr()))
  {
    emitted' := emitted + [(start, start + length)];
    assert emitted'[..|emitted|] == emitted;
    r := ListAdd(list, s[start..start + length]);
  }

  /** The stretches of s named by a list of positions. */
  ghost function Slices(s: string, spans: seq<(nat, nat)>): seq<string> {
    if spans == [] then []
    else
      var (a, b) := spans[|spans| - 1];
      Slices(s, spans[..|spans| - 1]) + [if a <= b <= |s| then s[a..b] else ""]
  }

  lemma {:induction false} SlicesAt(s: string, spans: seq<(nat, nat)>, k: nat)
    requires k < |spans|
    ensures |Slices(s, spans)| == |spans|
    ensures var (a, b) := spans[k]; a <= b <= |s| ==> Slices(s, spans)[k] == s[a..b]
  {
    var front := spans[..|spans| - 1];
    if front != [] {
      SlicesAt(s, front, if k < |front| then k else 0);
    }
  }

  /** Where the one-pass automaton emits from character i on, with s[start..i] pending. */
  ghost function Emissions(s: string, d: string, start: nat, i: nat): seq<(nat, nat)>
    requires start <= i <= |s|
    decreases |s| - i
  {
    if i == |s| then []
    else if s[i] in d then
      if start < i then [(start, i)] + Emissions(s, d, i + 1, i + 1)
      else if i == |s| - 1 then [(i + 1, i + 1)] + Emissions(s, d, i + 1, i + 1)
      else Emissions(s, d, i + 1, i + 1)
    else
      if i == |s| - 1 then [(start, i + 1)] + Emissions(s, d, i + 1, i + 1)
      else Emissions(s, d, start, i + 1)
  }

  /** The automaton emits the maximal runs, and an empty token after a bare end. */
  lemma EmissionsAreSplit(s: string, d: string)
    ensures Slices(s, Emissions(s, d, 0, 0)) == Split(s, d)
  {
    if s != "" {
      var spans := Emissions(s, d, 0, 0);
      EmissionsAreSpans(s, d, 0, 0);
      SplitMeaning(s, d);
      SlicesAt(s, spans, 0);
      forall k | 0 <= k < |spans| ensures Slices(s, spans)[k] == Split(s, d)[k] {
        SlicesAt(s, spans, k);
      }
    }
  }

  lemma {:induction false} EmissionsAreSpans(s: string, d: string, start: nat, i: nat)
    requires start <= i < |s| && i <= RunEnd(s, d, start)
    requires start == i ==> i == 0 || s[i - 1] in d
    ensures Emissions(s, d, start, i) == Spans(s, d, start) + if EndsBare(s, d) then [(|s|, |s|)] else []
    decreases |s| - i
  {
    if s[i] in d {
      assert i == RunEnd(s, d, start) && Spans(s, d, i) == Spans(s, d, i + 1);
      if i < |s| - 1 {
        EmissionsAreSpans(s, d, i + 1, i + 1);
      }
    } else if i < |s| - 1 {
      EmissionsAreSpans(s, d, start, i + 1);
    } else {
      assert RunEnd(s, d, start) == |s|;
    }
  }

  // ---------------------------------------------------------------- trimming in place

  /** The C string held by a buffer. */
  ghost predicate Holds(a: array<char>, s: string)
    reads a
  {
    && |s| < a.Length && a[..|s|] == s && a[|s|] == '\0' && IsText(s)
  }

  lemma HeldChars(a: array<char>, s: string)
    requires Holds(a, s)
    ensures forall k | 0 <= k < |s| :: a[k] == s[k] && 0 < a[k] as int < 128
  {
    forall k | 0 <= k < |s| ensures a[k] == s[k] && 0 < a[k] as int < 128 {
      assert a[k] == a[..|s|][k] && s[k] in s;
    }
  }

  /** strlen(a + from). */
  method Strlen(a: array<char>, from: nat, ghost s: string) returns (n: nat)
    requires Holds(a, s) && from <= |s|
    ensures n == |s| - from
  {
    HeldChars(a, s);
    var i := from;
    while a[i] != '\0'
      invariant from <= i <= |s|
      decreases |s| - i
    {
      i := i + 1;
    }
    n := i - from;
  }

  /** The right-to-left loop of the trimmer. */
  method CutRight(a: array<char>, charsetMap: array<bool>, ghost d: string, ghost s: string)
    requires Holds(a, s) && IsCharset(charsetMap, d)
    modifies a
    ensures Holds(a, TrimRight(s, d))
    ensures forall k | |s| <= k < a.Length :: a[k] == old(a[k])
  {
    HeldChars(a, s);
    var i := Strlen(a, 0, s);
    assert s[..|s|] == s;
    while i > 0
      invariant 0 <= i <= |s| && TrimRight(s[..i], d) == TrimRight(s, d)
      invariant a[i] == '\0' && forall k | 0 <= k < i :: a[k] == s[k]
      invariant forall k | |s| <= k < a.Length :: a[k] == old(a[k])
    {
      assert s[..i][..i - 1] == s[..i - 1];
      if !charsetMap[a[i - 1] as int] {
        break;
      }
      a[i - 1] := '\0';
      i := i - 1;
    }
    assert forall c | c in s[..i] :: c in s;
  }

  /** The left scan and the memmove of the trimmer. */
  method ShiftLeft(a: array<char>, charsetMap: array<bool>, ghost d: string, ghost s: string)
    requires Holds(a, s) && IsCharset(charsetMap, d)
    modifies a
    ensures Holds(a, TrimLeft(s, d))
    ensures forall k | |s| <= k < a.Length :: a[k] == old(a[k])
  {
    HeldChars(a, s);
    var srcI := 0;
    while a[srcI] != '\0' && charsetMap[a[srcI] as int]
      invariant 0 <= srcI <= |s| && TrimLeft(s[srcI..], d) == TrimLeft(s, d)
      decreases |s| - srcI
    {
      assert s[srcI..][1..] == s[srcI + 1..];
      srcI := srcI + 1;
    }
    assert forall c | c in s[srcI..] :: c in s;
    if srcI > 0 {
      var sLen := Strlen(a, srcI, s);
      forall k | 0 <= k < sLen {
        a[k] := a[k + srcI];
      }
      a[sLen] := '\0';
      assert a[..sLen] == s[srcI..];
    } else {
      assert s[srcI..] == s;
    }
  }

  /** nvipfix_string_trim: cuts removable characters off both ends of the buffer; no byte
      at or after the original terminator is written. */
  method StringTrim(a: array<char>, trimChars: string, ghost s: string)
    requires Holds(a, s) && IsText(trimChars)
    modifies a
    ensures Holds(a, Trim(s, trimChars))
    ensures forall k | |s| <= k < a.Length :: a[k] == old(a[k])
  {
    var charsetMap := CharsetMap(trimChars);
    CutRight(a, charsetMap, trimChars, s);
    ShiftLeft(a, charsetMap, trimChars, TrimRight(s, trimChars));
  }

  /** nvipfix_string_trim_copy. */
  method StringTrimCopy(s: string, trimChars: string) returns (r: string)
    requires IsText(s) && IsText(trimChars)
    ensures r == Trim(s, trimChars)
  {
    var buffer := new char[|s| + 1](i requires 0 <= i <= |s| => if i < |s| then s[i] else '\0');
    assert buffer[..|s|] == s;
    StringTrim(buffer, trimChars, s);
    var n := Strlen(buffer, 0, Trim(s, trimChars));
    r := buffer[..n];
  }
}
