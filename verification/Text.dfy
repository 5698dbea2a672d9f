/** Meaning of the tokenizer and of the trimmer of the C runtime, on plain strings.
    Nothing here is executed by the program: these are the definitions that the
    methods of module Strings are proved against, and the algebra the readers
    built on them need. */
module Text {

  /** A terminated C string whose characters can index a plain-char table. */
  ghost predicate IsText(s: string) {
    forall c | c in s :: 0 < c as int < 128
  }

  ghost predicate AllIn(s: string, d: string) {
    forall c | c in s :: c in d
  }

  ghost predicate NoneIn(s: string, d: string) {
    forall c | c in s :: c !in d
  }

  function Flatten(ss: seq<string>): string {
    if ss == [] then "" else ss[0] + Flatten(ss[1..])
  }

  lemma {:induction false} FlattenAppend(a: seq<string>, b: seq<string>)
    ensures Flatten(a + b) == Flatten(a) + Flatten(b)
  {
    if a == [] {
      assert a + b == b;
    } else {
      assert (a + b)[1..] == a[1..] + b;
      FlattenAppend(a[1..], b);
    }
  }

  // ---------------------------------------------------------------- runs

  /** Length of the delimiter-free prefix of s. */
  function RunLength(s: string, d: string): (n: nat)
    ensures n <= |s|
    ensures forall i | 0 <= i < n :: s[i] !in d
    ensures n < |s| ==> s[n] in d
  {
    if s == "" || s[0] in d then 0 else 1 + RunLength(s[1..], d)
  }

  /** The maximal delimiter-free runs of s, in order. */
  function Runs(s: string, d: string): seq<string>
    decreases |s|
  {
    if s == "" then []
    else if s[0] in d then Runs(s[1..], d)
    else var n := RunLength(s, d); [s[..n]] + Runs(s[n..], d)
  }

  /** The input ends in a delimiter that is alone or follows another delimiter. */
  predicate EndsBare(s: string, d: string) {
    s != "" && s[|s| - 1] in d && (|s| == 1 || s[|s| - 2] in d)
  }

  /** What the tokenizer yields; the empty sequence stands for its NULL result. */
  function Split(s: string, d: string): seq<string> {
    Runs(s, d) + if EndsBare(s, d) then [""] else []
  }

  lemma {:induction false} RunLengthIs(s: string, d: string, n: nat)
    requires n <= |s|
    requires forall i | 0 <= i < n :: s[i] !in d
    requires n < |s| ==> s[n] in d
    ensures RunLength(s, d) == n
  {
    if n != 0 {
      assert forall i | 0 <= i < n - 1 :: s[1..][i] == s[i + 1];
      RunLengthIs(s[1..], d, n - 1);
    }
  }

  lemma RunsHead(s: string, d: string)
    requires s != "" && s[0] !in d
    ensures 0 < RunLength(s, d)
    ensures Runs(s, d) == [s[..RunLength(s, d)]] + Runs(s[RunLength(s, d)..], d)
  {
  }

  /** A run does not reach across a seam with a delimiter on either side. */
  lemma {:induction false} RunLengthAppend(a: string, b: string, d: string)
    requires a != "" && (a[|a| - 1] in d || b == "" || b[0] in d)
    ensures RunLength(a + b, d) == RunLength(a, d)
  {
    if a[0] !in d {
      assert (a + b)[1..] == a[1..] + b;
      if |a| == 1 {
        assert a[1..] + b == b;
      } else {
        RunLengthAppend(a[1..], b, d);
      }
    }
  }

  /** Runs distribute over concatenation when a delimiter stands at the seam. */
  lemma {:induction false} RunsAppend(a: string, b: string, d: string)
    requires a == "" || b == "" || a[|a| - 1] in d || b[0] in d
    ensures Runs(a + b, d) == Runs(a, d) + Runs(b, d)
    decreases |a|
  {
    if a == "" {
      assert a + b == b;
    } else if a[0] in d {
      assert (a + b)[1..] == a[1..] + b;
      RunsAppend(a[1..], b, d);
    } else {
      var n := RunLength(a, d);
      RunsHead(a, d);
      RunsHead(a + b, d);
      RunLengthAppend(a, b, d);
      assert (a + b)[..n] == a[..n] && (a + b)[n..] == a[n..] + b;
      RunsAppend(a[n..], b, d);
    }
  }

  lemma {:induction false} RunsOfDelimiters(s: string, d: string)
    requires AllIn(s, d)
    ensures Runs(s, d) == []
  {
    if s != "" {
      assert s[0] in s;
      assert forall c | c in s[1..] :: c in s;
      RunsOfDelimiters(s[1..], d);
    }
  }

  lemma RunsOfWord(s: string, d: string)
    requires NoneIn(s, d) && s != ""
    ensures Runs(s, d) == [s]
  {
    assert forall i | 0 <= i < |s| :: s[i] in s;
    RunLengthIs(s, d, |s|);
    assert s[..|s|] == s;
  }

  /** A word, then at least one delimiter, then the rest. */
  lemma RunsWordThen(w: string, gap: string, rest: string, d: string)
    requires NoneIn(w, d) && w != "" && AllIn(gap, d) && gap != ""
    ensures Runs(w + gap + rest, d) == [w] + Runs(rest, d)
  {
    assert gap[0] in gap && gap[|gap| - 1] in gap;
    assert w + gap + rest == w + (gap + rest);
    RunsAppend(w, gap + rest, d);
    RunsAppend(gap, rest, d);
    RunsOfWord(w, d);
    RunsOfDelimiters(gap, d);
  }

  lemma RunsSkip(gap: string, rest: string, d: string)
    requires AllIn(gap, d)
    ensures Runs(gap + rest, d) == Runs(rest, d)
  {
    if gap != "" {
      assert gap[|gap| - 1] in gap;
    }
    RunsAppend(gap, rest, d);
    RunsOfDelimiters(gap, d);
  }

  lemma {:induction false} RunsAreWords(s: string, d: string)
    ensures forall w | w in Runs(s, d) :: w != "" && NoneIn(w, d) && forall c | c in w :: c in s
    decreases |s|
  {
    if s == "" {
    } else if s[0] in d {
      RunsAreWords(s[1..], d);
    } else {
      var n := RunLength(s, d);
      RunsAreWords(s[n..], d);
      assert Runs(s, d) == [s[..n]] + Runs(s[n..], d);
    }
  }

  /** Tokens of a C string are C strings. */
  lemma SplitIsText(s: string, d: string)
    requires IsText(s)
    ensures forall w | w in Split(s, d) :: IsText(w)
  {
    RunsAreWords(s, d);
  }

  // ------------------------------------------- declarative meaning of Runs

  /** s[a..b] is a delimiter-free stretch that cannot be extended on either side. */
  ghost predicate IsMaximalRun(s: string, d: string, a: int, b: int) {
    && 0 <= a < b <= |s|
    && (forall k | a <= k < b :: s[k] !in d)
    && (a == 0 || s[a - 1] in d)
    && (b == |s| || s[b] in d)
  }

  /** First position at or after i that holds a delimiter, or the end. */
  ghost function RunEnd(s: string, d: string, i: nat): (e: nat)
    requires i <= |s|
    ensures i <= e <= |s|
    ensures forall k | i <= k < e :: s[k] !in d
    ensures e < |s| ==> s[e] in d
    decreases |s| - i
  {
    if i == |s| || s[i] in d then i else RunEnd(s, d, i + 1)
  }

  /** Positions of the runs that start at or after i. */
  ghost function Spans(s: string, d: string, i: nat): seq<(int, int)>
    requires i <= |s|
    decreases |s| - i
  {
    if i == |s| then []
    else if s[i] in d then Spans(s, d, i + 1)
    else [(i, RunEnd(s, d, i))] + Spans(s, d, RunEnd(s, d, i))
  }

  lemma {:induction false} RunLengthAt(s: string, d: string, i: nat)
    requires i <= |s|
    ensures RunLength(s[i..], d) == RunEnd(s, d, i) - i
    decreases |s| - i
  {
    if i < |s| && s[i] !in d {
      assert s[i..][1..] == s[i + 1..];
      RunLengthAt(s, d, i + 1);
    }
  }

  lemma {:induction false} SpansAreRuns(s: string, d: string, i: nat)
    requires i <= |s|
    ensures |Spans(s, d, i)| == |Runs(s[i..], d)|
    ensures forall k | 0 <= k < |Spans(s, d, i)| ::
              var (a, b) := Spans(s, d, i)[k]; i <= a <= b <= |s| && Runs(s[i..], d)[k] == s[a..b]
    decreases |s| - i
  {
    if i == |s| {
    } else if s[i] in d {
      assert s[i..][1..] == s[i + 1..];
      SpansAreRuns(s, d, i + 1);
    } else {
      var e := RunEnd(s, d, i);
      RunLengthAt(s, d, i);
      assert s[i..][e - i..] == s[e..] && s[i..][..e - i] == s[i..e];
      SpansAreRuns(s, d, e);
    }
  }

  lemma {:induction false} SpansAreMaximal(s: string, d: string, i: nat)
    requires i <= |s|
    requires i == 0 || i == |s| || s[i - 1] in d || s[i] in d
    ensures forall k | 0 <= k < |Spans(s, d, i)| ::
              i <= Spans(s, d, i)[k].0 && IsMaximalRun(s, d, Spans(s, d, i)[k].0, Spans(s, d, i)[k].1)
    ensures forall k | 0 <= k < |Spans(s, d, i)| - 1 :: Spans(s, d, i)[k].1 < Spans(s, d, i)[k + 1].0
    decreases |s| - i
  {
    if i == |s| {
    } else if s[i] in d {
      SpansAreMaximal(s, d, i + 1);
    } else {
      var e := RunEnd(s, d, i);
      assert IsMaximalRun(s, d, i, e);
      SpansAreMaximal(s, d, e);
      var rest := Spans(s, d, e);
      if rest != [] {
        assert IsMaximalRun(s, d, rest[0].0, rest[0].1);
        assert s[rest[0].0] !in d;
      }
    }
  }

  lemma {:induction false} EveryRunIsASpan(s: string, d: string, i: nat, a: int, b: int)
    requires i <= a && IsMaximalRun(s, d, a, b)
    ensures (a, b) in Spans(s, d, i)
    decreases a - i
  {
    if s[i] in d {
      EveryRunIsASpan(s, d, i + 1, a, b);
    } else if i < a {
      EveryRunIsASpan(s, d, RunEnd(s, d, i), a, b);
    }
  }

  /** Split, declaratively: its runs are exactly the maximal delimiter-free stretches,
      left to right and separated, plus one empty token when the end is bare. */
  lemma SplitMeaning(s: string, d: string)
    ensures var ps := Spans(s, d, 0);
      && |Split(s, d)| == |ps| + (if EndsBare(s, d) then 1 else 0)
      && (forall k | 0 <= k < |ps| :: 0 <= ps[k].0 <= ps[k].1 <= |s| && Split(s, d)[k] == s[ps[k].0..ps[k].1])
      && (forall k | 0 <= k < |ps| - 1 :: ps[k].1 < ps[k + 1].0)
      && (forall a, b :: IsMaximalRun(s, d, a, b) <==> (a, b) in ps)
      && (EndsBare(s, d) ==> Split(s, d)[|ps|] == "")
    ensures Split(s, d) == [] <==> s == ""
  {
    assert s[0..] == s;
    SpansAreRuns(s, d, 0);
    SpansAreMaximal(s, d, 0);
    forall a, b | IsMaximalRun(s, d, a, b) ensures (a, b) in Spans(s, d, 0) {
      EveryRunIsASpan(s, d, 0, a, b);
    }
    if s != "" && !EndsBare(s, d) {
      LastRun(s, d);
    }
  }

  /** A non-empty input that does not end bare has at least one run. */
  lemma LastRun(s: string, d: string)
    requires s != "" && !EndsBare(s, d)
    ensures Runs(s, d) != []
  {
    var i := if s[|s| - 1] in d then |s| - 2 else |s| - 1;
    RunsNonEmpty(s, d, i);
  }

  lemma {:induction false} RunsNonEmpty(s: string, d: string, i: nat)
    requires i < |s| && s[i] !in d
    ensures Runs(s, d) != []
  {
    if s[0] in d {
      RunsNonEmpty(s[1..], d, i - 1);
    }
  }

  function WithoutDelimiters(s: string, d: string): string {
    if s == "" then "" else (if s[0] in d then "" else [s[0]]) + WithoutDelimiters(s[1..], d)
  }

  lemma {:induction false} WithoutSkipsRun(s: string, d: string, n: nat)
    requires n <= |s| && forall i | 0 <= i < n :: s[i] !in d
    ensures WithoutDelimiters(s, d) == s[..n] + WithoutDelimiters(s[n..], d)
  {
    if n != 0 {
      assert forall i | 0 <= i < n - 1 :: s[1..][i] == s[i + 1];
      WithoutSkipsRun(s[1..], d, n - 1);
      assert s[1..][n - 1..] == s[n..];
      assert s[..n] == [s[0]] + s[1..][..n - 1];
    }
  }

  /** No character outside the delimiters is lost, duplicated or reordered. */
  lemma {:induction false} SplitConservesCharacters(s: string, d: string)
    ensures Flatten(Split(s, d)) == WithoutDelimiters(s, d)
  {
    RunsConserve(s, d);
    FlattenAppend(Runs(s, d), if EndsBare(s, d) then [""] else []);
    assert Flatten([""]) == "" by { assert [""][1..] == []; }
  }

  lemma {:induction false} RunsConserve(s: string, d: string)
    ensures Flatten(Runs(s, d)) == WithoutDelimiters(s, d)
    decreases |s|
  {
    if s == "" {
    } else if s[0] in d {
      RunsConserve(s[1..], d);
    } else {
      var n := RunLength(s, d);
      WithoutSkipsRun(s, d, n);
      RunsConserve(s[n..], d);
      assert Runs(s, d)[1..] == Runs(s[n..], d);
    }
  }

  // ------------------------------------------------------- split undoes join

  function Join(ws: seq<string>, gaps: seq<string>): string
    requires |gaps| + 1 == |ws|
  {
    if |ws| == 1 then ws[0] else ws[0] + gaps[0] + Join(ws[1..], gaps[1..])
  }

  ghost predicate Words(ws: seq<string>, d: string) {
    forall w | w in ws :: w != "" && NoneIn(w, d)
  }

  ghost predicate Gaps(gaps: seq<string>, d: string) {
    forall g | g in gaps :: g != "" && AllIn(g, d)
  }

  lemma {:induction false} JoinEndsInWord(ws: seq<string>, gaps: seq<string>, d: string)
    requires |gaps| + 1 == |ws| && Words(ws, d)
    ensures Join(ws, gaps) != "" && Join(ws, gaps)[|Join(ws, gaps)| - 1] !in d
  {
    assert ws[0] in ws;
    if |ws| == 1 {
      assert ws[0][|ws[0]| - 1] in ws[0];
    } else {
      JoinEndsInWord(ws[1..], gaps[1..], d);
    }
  }

  lemma {:induction false} RunsOfJoin(ws: seq<string>, gaps: seq<string>, d: string)
    requires |gaps| + 1 == |ws| && Words(ws, d) && Gaps(gaps, d)
    ensures Runs(Join(ws, gaps), d) == ws
  {
    assert ws[0] in ws;
    if |ws| == 1 {
      RunsOfWord(ws[0], d);
    } else {
      assert gaps[0] in gaps;
      RunsOfJoin(ws[1..], gaps[1..], d);
      RunsWordThen(ws[0], gaps[0], Join(ws[1..], gaps[1..]), d);
      assert ws == [ws[0]] + ws[1..];
    }
  }

  /** Tokenizing what was joined with any non-empty delimiter runs gives the tokens back. */
  lemma SplitUndoesJoin(ws: seq<string>, gaps: seq<string>, d: string)
    requires |gaps| + 1 == |ws| && Words(ws, d) && Gaps(gaps, d)
    ensures Split(Join(ws, gaps), d) == ws
  {
    RunsOfJoin(ws, gaps, d);
    JoinEndsInWord(ws, gaps, d);
  }

  lemma SplitOfTwo(a: string, gap: string, b: string, d: string)
    requires a != "" && NoneIn(a, d) && b != "" && NoneIn(b, d) && gap != "" && AllIn(gap, d)
    ensures Split(a + gap + b, d) == [a, b]
  {
    RunsWordThen(a, gap, b, d);
    RunsOfWord(b, d);
    var s := a + gap + b;
    assert s[|s| - 1] == b[|b| - 1] && b[|b| - 1] in b;
  }

  lemma SplitOfThree(a: string, g: string, b: string, h: string, c: string, d: string)
    requires a != "" && NoneIn(a, d) && b != "" && NoneIn(b, d) && c != "" && NoneIn(c, d)
    requires g != "" && AllIn(g, d) && h != "" && AllIn(h, d)
    ensures Split(a + g + (b + h + c), d) == [a, b, c]
  {
    SplitOfTwo(b, h, c, d);
    RunsWordThen(a, g, b + h + c, d);
    RunsWordThen(b, h, c, d);
    RunsOfWord(c, d);
    EndsInWord(a + g + (b + h), c, d);
    assert a + g + (b + h + c) == a + g + (b + h) + c;
  }

  lemma EndsInWord(s: string, w: string, d: string)
    requires w != "" && NoneIn(w, d)
    ensures Split(s + w, d) == Runs(s + w, d)
  {
    assert (s + w)[|s + w| - 1] == w[|w| - 1] && w[|w| - 1] in w;
  }

  // ---------------------------------------------------------------- trim

  function TrimRight(s: string, d: string): (r: string)
    ensures r <= s
    ensures r != "" ==> r[|r| - 1] !in d
  {
    if s != "" && s[|s| - 1] in d then TrimRight(s[..|s| - 1], d) else s
  }

  function TrimLeft(s: string, d: string): string {
    if s != "" && s[0] in d then TrimLeft(s[1..], d) else s
  }

  function Trim(s: string, d: string): string {
    TrimLeft(TrimRight(s, d), d)
  }

  lemma {:induction false} TrimRightIs(s: string, d: string, b: nat)
    requires b <= |s| && AllIn(s[b..], d) && (b == 0 || s[b - 1] !in d)
    ensures TrimRight(s, d) == s[..b]
  {
    if b < |s| {
      assert s[|s| - 1] == s[b..][|s| - 1 - b];
      var t := s[..|s| - 1];
      assert t[b..] == s[b..][..|s| - 1 - b];
      TrimRightIs(t, d, b);
      assert t[..b] == s[..b];
    } else {
      assert s[..b] == s;
    }
  }

  lemma {:induction false} TrimLeftIs(s: string, d: string, a: nat)
    requires a <= |s| && AllIn(s[..a], d) && (a == |s| || s[a] !in d)
    ensures TrimLeft(s, d) == s[a..]
  {
    if 0 < a {
      assert s[0] == s[..a][0];
      assert s[1..][..a - 1] == s[..a][1..];
      TrimLeftIs(s[1..], d, a - 1);
      assert s[1..][a - 1..] == s[a..];
    } else {
      assert s[a..] == s;
    }
  }

  /** Trim is determined by cutting any all-removable prefix and suffix around a core
      whose ends are kept. */
  lemma TrimIs(pre: string, core: string, post: string, d: string)
    requires AllIn(pre, d) && AllIn(post, d)
    requires core != "" ==> core[0] !in d && core[|core| - 1] !in d
    ensures Trim(pre + core + post, d) == core
  {
    var s := pre + core + post;
    if core == "" {
      assert s[0..] == s;
      TrimRightIs(s, d, 0);
    } else {
      var b := |pre| + |core|;
      assert s[b..] == post && s[..b] == pre + core;
      TrimRightIs(s, d, b);
      assert (pre + core)[..|pre|] == pre && (pre + core)[|pre|..] == core;
      TrimLeftIs(pre + core, d, |pre|);
    }
  }

  /** Nothing to trim. */
  ghost predicate Trimmed(s: string, d: string) {
    s != "" ==> s[0] !in d && s[|s| - 1] !in d
  }

  lemma TrimOfTrimmed(s: string, d: string)
    requires Trimmed(s, d)
    ensures Trim(s, d) == s
  {
    assert "" + s + "" == s;
    TrimIs("", s, "", d);
  }

  ghost function FirstKept(s: string, d: string): (a: nat)
    ensures a <= |s| && AllIn(s[..a], d) && (a < |s| ==> s[a] !in d)
  {
    if s != "" && s[0] in d then
      var a := FirstKept(s[1..], d);
      assert s[..a + 1] == [s[0]] + s[1..][..a];
      a + 1
    else 0
  }

  /** Trim in the terms of its documentation: the result is a slice of the input, what is cut
      on either side is removable, its ends are kept characters, and no kept character is
      cut, so it is the longest slice with kept ends.  Trimming again changes nothing. */
  lemma TrimMeaning(s: string, d: string) returns (a: nat, b: nat)
    ensures a <= b <= |s| && Trim(s, d) == s[a..b]
    ensures AllIn(s[..a], d) && AllIn(s[b..], d) && Trimmed(s[a..b], d)
    ensures forall i | 0 <= i < |s| && s[i] !in d :: a <= i < b
    ensures Trim(Trim(s, d), d) == Trim(s, d)
  {
    var r := TrimRight(s, d);
    b := |r|;
    TrimRightCut(s, d);
    a := FirstKept(r, d);
    TrimLeftIs(r, d, a);
    assert r[a..] == s[a..b];
    assert s[..a] == r[..a];
    TrimOfTrimmed(s[a..b], d);
    assert forall i | 0 <= i < a :: s[i] == s[..a][i];
    assert forall i | b <= i < |s| :: s[i] == s[b..][i - b];
  }

  lemma {:induction false} TrimRightCut(s: string, d: string)
    ensures AllIn(s[|TrimRight(s, d)|..], d)
  {
    if s != "" && s[|s| - 1] in d {
      var t := s[..|s| - 1];
      TrimRightCut(t, d);
      var n := |TrimRight(t, d)|;
      assert s[n..] == t[n..] + [s[|s| - 1]];
    }
  }

  lemma TrimIsText(s: string, d: string)
    requires IsText(s)
    ensures IsText(Trim(s, d))
  {
    var a, b := TrimMeaning(s, d);
    assert forall c | c in s[a..b] :: c in s;
  }
}
