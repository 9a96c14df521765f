/**
  Turning a documentation string into HTML text: `\a` argument words
  become `<span class='mzn-arg'>` elements (`replaceArgs`) and line ends
  become `<br>` (`replaceEOLs`), in lib/htmlprinter.cpp.
*/
module Markup {
  import opened Wrappers
  import opened DocStrings

  /** The two characters `\a` that mark an argument name. */
  const Tag: string := "\\a"

  function Span(word: string): string {
    "<span class='mzn-arg'>" + word + "</span>"
  }

  function Min(a: nat, b: nat): nat {
    if a <= b then a else b
  }

  /**
    How the text before a tag is copied. The code copies
    `s.substr(lastpos, pos)`, which takes `pos` characters rather than the
    `pos - lastpos` up to the tag; `Intended` is the latter.
  */
  datatype Slicing = AsWritten | Intended

  function Gap(s: string, lastpos: nat, pos: nat, mode: Slicing): string
    requires lastpos <= pos <= |s|
  {
    match mode
    case AsWritten => s[lastpos..Min(lastpos + pos, |s|)]
    case Intended => s[lastpos..pos]
  }

  /** A word `replaceArgs` records: a first character that is not blank, then word characters. */
  predicate IsArgWord(w: string) {
    |w| >= 1 && !IsBlank(w[0]) && forall k | 1 <= k < |w| :: IsWordChar(w[k])
  }

  /** The word after the tag at `pos` and the position after it. */
  function WordAt(s: string, pos: nat): (r: (string, nat))
    requires pos < |s|
    ensures ArgStart(s, pos) < |s| ==> IsArgWord(r.0) && r.1 <= |s| && r.1 > pos
    ensures ArgStart(s, pos) >= |s| ==> r == ("", |s| + 1)
  {
    var start := ArgStart(s, pos);
    var end := ScanWord(s, start + 1);
    if start < |s| then
      assert forall k | 1 <= k < end - start :: s[start..end][k] == s[start + k];
      (s[start..end], end)
    else ("", end)
  }

  /**
    The word `replaceArgs` records is the word `extractArgWord` would cut at
    the same tag, and the loop resumes right after it.
  */
  lemma WordAtArgWord(s: string, pos: nat)
    requires pos < |s|
    ensures ArgStart(s, pos) < |s| <==> ArgWord(s, pos).Ok?
    ensures ArgWord(s, pos).Ok? ==>
      WordAt(s, pos).0 == ArgWord(s, pos).value.arg &&
      WordAt(s, pos).1 == ArgStart(s, pos) + |ArgWord(s, pos).value.arg|
  {
  }

  /** Prepends what earlier rounds of the loop produced to the outcome of the remaining ones. */
  function Extend(words: seq<string>, out: string, r: Result<Cut<seq<string>>>): Result<Cut<seq<string>>> {
    match r
    case OutOfRange => OutOfRange
    case Ok(c) => Ok(Cut(words + c.arg, out + c.rest))
  }

  /**
    The rounds of the `replaceArgs` loop from a tag at `pos`, the previous
    word having ended at `lastpos`: the text before the tag, the wrapped
    word, then the next round or the rest of the string.
  */
  function Rounds(s: string, lastpos: nat, pos: nat, mode: Slicing): (r: Result<Cut<seq<string>>>)
    requires lastpos <= pos < |s|
    ensures r.Ok? ==> |r.value.arg| >= 1 && forall k | 0 <= k < |r.value.arg| :: IsArgWord(r.value.arg[k])
    decreases |s| - pos
  {
    var (word, end) := WordAt(s, pos);
    var next := Find(s, Tag, end);
    if next.None? then
      if end > |s| then OutOfRange
      else Ok(Cut([word], Gap(s, lastpos, pos, mode) + Span(word) + s[end..]))
    else
      Extend([word], Gap(s, lastpos, pos, mode) + Span(word), Rounds(s, end, next.value, mode))
  }

  /**
    `replaceArgs`: the words that follow each `\a`, and the string with
    each tag and its word replaced by the wrapped word. With no `\a` the
    string is left as it was.
  */
  function Replaced(s: string, mode: Slicing): (r: Result<Cut<seq<string>>>)
    ensures Find(s, Tag, 0).None? <==> r == Ok(Cut([], s))
    ensures r.Ok? && r.value.arg != [] ==> forall k | 0 <= k < |r.value.arg| :: IsArgWord(r.value.arg[k])
  {
    match Find(s, Tag, 0)
    case None => Ok(Cut([], s))
    case Some(p) => Rounds(s, 0, p, mode)
  }

  lemma ExtendNothing(r: Result<Cut<seq<string>>>)
    ensures Extend([], "", r) == r
  {
    if r.Ok? {
      assert [] + r.value.arg == r.value.arg;
      assert "" + r.value.rest == r.value.rest;
    }
  }

  lemma ExtendTwice(words: seq<string>, out: string, w: seq<string>, x: string, y: string, r: Result<Cut<seq<string>>>)
    ensures Extend(words, out, Extend(w, x + y, r)) == Extend(words + w, out + x + y, r)
  {
    if r.Ok? {
      assert words + (w + r.value.arg) == words + w + r.value.arg;
      assert out + (x + y + r.value.rest) == out + x + y + r.value.rest;
    }
  }

  /** One round of the loop, seen from the words and text produced so far. */
  lemma RoundStep(s: string, lastpos: nat, pos: nat, mode: Slicing, words: seq<string>, out: string,
                  word: string, end: nat, next: Option<nat>)
    requires lastpos <= pos < |s|
    requires (word, end) == WordAt(s, pos) && next == Find(s, Tag, end)
    ensures next.Some? ==> end <= next.value < |s|
    ensures next.Some? ==>
      Extend(words, out, Rounds(s, lastpos, pos, mode)) ==
      Extend(words + [word], out + Gap(s, lastpos, pos, mode) + Span(word), Rounds(s, end, next.value, mode))
    ensures next.None? ==>
      Extend(words, out, Rounds(s, lastpos, pos, mode)) ==
      if end > |s| then OutOfRange else Ok(Cut(words + [word], out + Gap(s, lastpos, pos, mode) + Span(word) + s[end..]))
  {
    var gap := Gap(s, lastpos, pos, mode);
    if next.Some? {
      ExtendTwice(words, out, [word], gap, Span(word), Rounds(s, end, next.value, mode));
    } else if end <= |s| {
      Regroup4(out, gap, Span(word), s[end..]);
    }
  }

  /**
    The text copied before the tag at `pos` (`s.substr(lastpos, pos)` as
    written), and the word after the tag: the skip loops and the word loop.
  */
  method Round(s: string, lastpos: nat, pos: nat, mode: Slicing) returns (gap: string, word: string, end: nat)
    requires lastpos <= pos < |s|
    ensures gap == Gap(s, lastpos, pos, mode)
    ensures (word, end) == WordAt(s, pos)
  {
    gap := Gap(s, lastpos, pos, mode);
    var start := SkipToArg(s, pos);
    end := ScanWordFrom(s, start + 1);
    // `substr(start, ..)` at the very end of the string gives the empty string
    word := if start < |s| then s[start..end] else "";
  }

  /**
    `replaceArgs` with the gap copied as written or as intended, or the
    `substr` failure when the last tag has no word after it.
  */
  method ReplaceArgs(s: string, mode: Slicing) returns (r: Result<Cut<seq<string>>>)
    ensures r == Replaced(s, mode)
  {
    var words: seq<string> := [];
    var out := "";
    var lastpos: nat := 0;
    var pos: Option<nat> := Find(s, Tag, 0);
    if pos.None? {
      return Ok(Cut(words, s));
    }
    ghost var goal := Replaced(s, mode);
    ExtendNothing(Rounds(s, lastpos, pos.value, mode));
    while pos.Some?
      invariant pos.Some? ==>
        (lastpos <= pos.value < |s| && goal == Extend(words, out, Rounds(s, lastpos, pos.value, mode)))
      invariant pos.None? ==>
        (goal == if lastpos > |s| then OutOfRange else Ok(Cut(words, out + s[lastpos..])))
      decreases if pos.Some? then |s| + 1 - pos.value else 0
    {
      var p := pos.value;
      ghost var words0, out0, lastpos0 := words, out, lastpos;
      var gap, word, end := Round(s, lastpos, p, mode);
      out := out + gap + Span(word);
      words := words + [word];
      lastpos := end;
      pos := Find(s, Tag, lastpos);
      RoundStep(s, lastpos0, p, mode, words0, out0, word, end, pos);
    }
    if lastpos > |s| {
      return OutOfRange;
    }
    r := Ok(Cut(words, out + s[lastpos..]));
  }

  /** With a single tag the gap rule does not matter: prefix, wrapped word, suffix. */
  lemma OneTag(s: string, mode: Slicing, p: nat, word: string, end: nat)
    requires Find(s, Tag, 0) == Some(p) && (word, end) == WordAt(s, p)
    requires end <= |s| && Find(s, Tag, end).None?
    ensures Replaced(s, mode) == Ok(Cut([word], s[..p] + Span(word) + s[end..]))
  {
    assert Gap(s, 0, p, mode) == s[..p];
  }

  /**
    Two tags as written: the text copied between the first word and the
    second tag runs `p2` characters from the end of the first word, or to
    the end of the string, instead of stopping at the tag.
  */
  lemma TwoTagsAsWritten(s: string, p1: nat, w1: string, e1: nat, p2: nat, w2: string, e2: nat)
    requires Find(s, Tag, 0) == Some(p1) && (w1, e1) == WordAt(s, p1)
    requires Find(s, Tag, e1) == Some(p2) && (w2, e2) == WordAt(s, p2)
    requires e2 <= |s| && Find(s, Tag, e2).None?
    ensures e1 <= p2 < |s|
    ensures Replaced(s, AsWritten) ==
      Ok(Cut([w1, w2], s[..p1] + Span(w1) + s[e1..Min(e1 + p2, |s|)] + Span(w2) + s[e2..]))
  {
    TwoTags(s, AsWritten, p1, w1, e1, p2, w2, e2);
  }

  /** Two tags with the intended gap: all text outside the tags and their words is kept once, in order. */
  lemma TwoTagsIntended(s: string, p1: nat, w1: string, e1: nat, p2: nat, w2: string, e2: nat)
    requires Find(s, Tag, 0) == Some(p1) && (w1, e1) == WordAt(s, p1)
    requires Find(s, Tag, e1) == Some(p2) && (w2, e2) == WordAt(s, p2)
    requires e2 <= |s| && Find(s, Tag, e2).None?
    ensures e1 <= p2 < |s|
    ensures Replaced(s, Intended) ==
      Ok(Cut([w1, w2], s[..p1] + Span(w1) + s[e1..p2] + Span(w2) + s[e2..]))
  {
    TwoTags(s, Intended, p1, w1, e1, p2, w2, e2);
  }

  lemma TwoTags(s: string, mode: Slicing, p1: nat, w1: string, e1: nat, p2: nat, w2: string, e2: nat)
    requires Find(s, Tag, 0) == Some(p1) && (w1, e1) == WordAt(s, p1)
    requires Find(s, Tag, e1) == Some(p2) && (w2, e2) == WordAt(s, p2)
    requires e2 <= |s| && Find(s, Tag, e2).None?
    ensures e1 <= p2 < |s|
    ensures Replaced(s, mode) ==
      Ok(Cut([w1, w2], s[..p1] + Span(w1) + Gap(s, e1, p2, mode) + Span(w2) + s[e2..]))
  {
    var last := Rounds(s, e1, p2, mode);
    LastRound(s, e1, p2, mode, w2, e2);
    FirstRound(s, p1, mode, w1, e1, p2);
    assert [w1] + [w2] == [w1, w2];
    Regroup(s[..p1], Span(w1), Gap(s, e1, p2, mode), Span(w2), s[e2..]);
  }

  lemma Regroup4(a: string, b: string, c: string, d: string)
    ensures a + (b + c + d) == a + b + c + d
  {
  }

  lemma Regroup(a: string, b: string, c: string, d: string, e: string)
    ensures a + b + (c + d + e) == a + b + c + d + e
  {
  }

  lemma FirstRound(s: string, p1: nat, mode: Slicing, w1: string, e1: nat, p2: nat)
    requires Find(s, Tag, 0) == Some(p1) && (w1, e1) == WordAt(s, p1)
    requires Find(s, Tag, e1) == Some(p2)
    ensures e1 <= p2 < |s|
    ensures Replaced(s, mode) == Extend([w1], s[..p1] + Span(w1), Rounds(s, e1, p2, mode))
  {
    assert Gap(s, 0, p1, mode) == s[..p1];
  }

  lemma LastRound(s: string, lastpos: nat, p: nat, mode: Slicing, w: string, e: nat)
    requires lastpos <= p < |s| && (w, e) == WordAt(s, p)
    requires e <= |s| && Find(s, Tag, e).None?
    ensures Rounds(s, lastpos, p, mode) == Ok(Cut([w], Gap(s, lastpos, p, mode) + Span(w) + s[e..]))
  {
  }

  /**
    The text between two tagged words is copied with the second tag in it,
    so the second tag's line reads twice.
  */
  lemma RepeatedText()
    ensures Replaced(Example, AsWritten) == Ok(Cut(["x", "y"], Span("x") + " \\a y" + Span("y")))
    ensures Replaced(Example, Intended) == Ok(Cut(["x", "y"], Span("x") + " " + Span("y")))
  {
    ExampleFirstWord();
    ExampleSecondWord();
    TwoTagsAsWritten(Example, 0, "x", 4, 5, "y", 9);
    TwoTagsIntended(Example, 0, "x", 4, 5, "y", 9);
    ExampleSlices();
    EmptyEnds(Span("x"), " \\a y", Span("y"));
    EmptyEnds(Span("x"), " ", Span("y"));
  }

  lemma EmptyEnds(a: string, b: string, c: string)
    ensures "" + a + b + c + "" == a + b + c
  {
  }

  /** Two tagged words separated by a blank. */
  const Example: string := "\\a x \\a y"

  lemma ExampleFirstWord()
    ensures Find(Example, Tag, 0) == Some(0) && WordAt(Example, 0) == ("x", 4)
  {
    var s := Example;
    assert MatchAt(s, Tag, 0);
    assert SkipTag(s, 2) == 2 && SkipTag(s, 1) == 2 && SkipTag(s, 0) == 2;
    assert SkipBlanks(s, 3) == 3 && SkipBlanks(s, 2) == 3 && ScanWord(s, 4) == 4;
    assert s[3..4] == "x";
  }

  lemma ExampleSecondWord()
    ensures Find(Example, Tag, 4) == Some(5) && WordAt(Example, 5) == ("y", 9)
    ensures Find(Example, Tag, 9).None?
  {
    var s := Example;
    assert s[4..6][0] == ' ';
    assert s[5..7] == [s[5], s[6]];
    assert SkipTag(s, 7) == 7 && SkipTag(s, 6) == 7 && SkipTag(s, 5) == 7;
    assert SkipBlanks(s, 8) == 8 && SkipBlanks(s, 7) == 8 && ScanWord(s, 9) == 9;
    assert s[8..9] == "y";
  }

  lemma ExampleSlices()
    ensures Example[..0] == "" && Example[9..] == ""
    ensures Example[4..Min(4 + 5, |Example|)] == " \\a y" && Example[4..5] == " "
  {
    var s := Example;
    assert s[4..9] == [s[4], s[5], s[6], s[7], s[8]];
  }

  /** `replaceEOLs`: every line end becomes `<br>`, all else is copied. */
  function BreakLines(s: string): string {
    if s == [] then []
    else (if s[0] == '\n' then "<br>" else [s[0]]) + BreakLines(s[1..])
  }

  lemma {:induction false} BreakLinesAppend(a: string, b: string)
    ensures BreakLines(a + b) == BreakLines(a) + BreakLines(b)
  {
    if a == [] {
      assert a + b == b;
    } else {
      assert (a + b)[0] == a[0];
      assert (a + b)[1..] == a[1..] + b;
      BreakLinesAppend(a[1..], b);
    }
  }

  lemma {:induction false} BreakLinesPlain(s: string)
    requires '\n' !in s
    ensures BreakLines(s) == s
  {
    if s != [] {
      BreakLinesPlain(s[1..]);
    }
  }

  /** The output has no line end left. */
  lemma {:induction false} BreakLinesNoNewline(s: string)
    ensures '\n' !in BreakLines(s)
  {
    if s != [] {
      BreakLinesNoNewline(s[1..]);
    }
  }

  /** Each line end grows by three characters, everything else keeps its length. */
  lemma {:induction false} BreakLinesLength(s: string)
    ensures |BreakLines(s)| == |s| + 3 * multiset(s)['\n']
  {
    if s != [] {
      assert s == [s[0]] + s[1..];
      assert multiset(s) == multiset{s[0]} + multiset(s[1..]);
      BreakLinesLength(s[1..]);
    }
  }

  /** `replaceEOLs(s, os)`: what is written to `os`. */
  method ReplaceEOLs(s: string) returns (out: string)
    ensures out == BreakLines(s)
  {
    var lastpos: nat := 0;
    var pos: Option<nat> := Find(s, "\n", 0);
    out := "";
    while pos.Some?
      invariant lastpos <= |s|
      invariant pos == Find(s, "\n", lastpos)
      invariant out == BreakLines(s[..lastpos])
      decreases |s| - lastpos
    {
      var p := pos.value;
      LineGap(s, lastpos, p);
      LineStep(s, lastpos, p);
      out := out + s[lastpos..p] + "<br>";
      lastpos := p + 1;
      pos := Find(s, "\n", lastpos);
    }
    LastLine(s, lastpos);
    out := out + s[lastpos..];
  }

  lemma LineStep(s: string, lastpos: nat, p: nat)
    requires lastpos <= p < |s| && s[p] == '\n' && '\n' !in s[lastpos..p]
    ensures BreakLines(s[..p + 1]) == BreakLines(s[..lastpos]) + s[lastpos..p] + "<br>"
  {
    var a, g := s[..lastpos], s[lastpos..p];
    assert s[..p + 1] == a + g + ['\n'] by {
      assert s[..p + 1] == s[..p] + [s[p]];
      assert s[..p] == a + g;
    }
    assert BreakLines(a + g + ['\n']) == BreakLines(a) + g + "<br>" by {
      BreakLinesAppend(a + g, ['\n']);
      BreakLinesAppend(a, g);
      BreakLinesPlain(g);
      assert BreakLines(['\n']) == "<br>" + BreakLines([]);
    }
  }

  /** Between `lastpos` and the next line end there is none. */
  lemma LineGap(s: string, lastpos: nat, p: nat)
    requires lastpos <= |s| && Find(s, "\n", lastpos) == Some(p)
    ensures lastpos <= p < |s| && s[p] == '\n' && '\n' !in s[lastpos..p]
  {
    MatchChar(s, '\n', p);
    forall k | lastpos <= k < p
      ensures s[k] != '\n'
    {
      MatchChar(s, '\n', k);
    }
  }

  lemma LastLine(s: string, lastpos: nat)
    requires lastpos <= |s| && Find(s, "\n", lastpos).None?
    ensures BreakLines(s) == BreakLines(s[..lastpos]) + s[lastpos..]
  {
    forall k | lastpos <= k < |s|
      ensures s[k] != '\n'
    {
      MatchChar(s, '\n', k);
    }
    assert s == s[..lastpos] + s[lastpos..];
    BreakLinesAppend(s[..lastpos], s[lastpos..]);
    BreakLinesPlain(s[lastpos..]);
  }
}
