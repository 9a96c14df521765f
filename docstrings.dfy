/**
  Cutting a tag's argument out of a documentation string, as the HTML
  documentation printer does for `@group` and `@param` tags
  (`extractArgWord` and `extractArgLine` in lib/htmlprinter.cpp).

  Strings are sequences of characters and positions are unbounded naturals.
  The only failure is the `std::out_of_range` that `substr` raises when it
  is asked to start past the end of the string; it is the `OutOfRange`
  result here.
*/
module DocStrings {
  import opened Wrappers

  datatype Result<+T> = Ok(value: T) | OutOfRange

  /** What a cut returns: the argument taken out, and the string left behind. */
  datatype Cut<+T> = Cut(arg: T, rest: string)

  predicate IsBlank(c: char) {
    c == ' ' || c == '\t'
  }

  /** `isalnum` in the "C" locale. */
  predicate IsAlnum(c: char) {
    ('0' <= c <= '9') || ('a' <= c <= 'z') || ('A' <= c <= 'Z')
  }

  predicate IsWordChar(c: char) {
    IsAlnum(c) || c == '_'
  }

  predicate MatchAt(s: string, pat: string, i: nat) {
    i + |pat| <= |s| && s[i..i + |pat|] == pat
  }

  lemma MatchChar(s: string, c: char, i: nat)
    ensures MatchAt(s, [c], i) <==> i < |s| && s[i] == c
  {
    if i < |s| {
      assert s[i..i + 1] == [s[i]];
    }
  }

  /** `std::string::find(pat, from)`: the first occurrence at or after `from`. */
  function Find(s: string, pat: string, from: nat): (r: Option<nat>)
    ensures r.Some? ==> from <= r.value && MatchAt(s, pat, r.value)
    ensures r.Some? ==> forall i | from <= i < r.value :: !MatchAt(s, pat, i)
    ensures r.None? ==> forall i | from <= i :: !MatchAt(s, pat, i)
    decreases |s| - from
  {
    if from + |pat| > |s| then None
    else if s[from..from + |pat|] == pat then Some(from)
    else Find(s, pat, from + 1)
  }

  /** The first position at or after `i` that is blank, or the end: the tag's own characters are skipped. */
  function SkipTag(s: string, i: nat): (r: nat)
    ensures i <= r && (i <= |s| ==> r <= |s|)
    ensures r < |s| ==> IsBlank(s[r])
    ensures forall k | i <= k < r :: k < |s| && !IsBlank(s[k])
    decreases |s| - i
  {
    if i < |s| && !IsBlank(s[i]) then SkipTag(s, i + 1) else i
  }

  /** The first position at or after `i` that is not blank, or the end. */
  function SkipBlanks(s: string, i: nat): (r: nat)
    ensures i <= r && (i <= |s| ==> r <= |s|)
    ensures r < |s| ==> !IsBlank(s[r])
    ensures forall k | i <= k < r :: k < |s| && IsBlank(s[k])
    decreases |s| - i
  {
    if i < |s| && IsBlank(s[i]) then SkipBlanks(s, i + 1) else i
  }

  /** The first position at or after `i` that does not continue a word, or the end. */
  function ScanWord(s: string, i: nat): (r: nat)
    ensures i <= r && (i <= |s| ==> r <= |s|)
    ensures r < |s| ==> !IsWordChar(s[r])
    ensures forall k | i <= k < r :: k < |s| && IsWordChar(s[k])
    decreases |s| - i
  {
    if i < |s| && IsWordChar(s[i]) then ScanWord(s, i + 1) else i
  }

  /** The first position at or after `i` holding `c`, or the end. */
  function ScanTo(s: string, i: nat, c: char): (r: nat)
    ensures i <= r && (i <= |s| ==> r <= |s|)
    ensures r < |s| ==> s[r] == c
    ensures forall k | i <= k < r :: k < |s| && s[k] != c
    decreases |s| - i
  {
    if i < |s| && s[i] != c then ScanTo(s, i + 1, c) else i
  }

  /** Where the argument of the tag at `n` starts: past the tag, then past the blanks. */
  function ArgStart(s: string, n: nat): nat {
    SkipBlanks(s, SkipTag(s, n))
  }

  /**
    `extractArgWord(s, n)`: the word after the tag at `n`. Its first
    character is taken whatever it is, the rest while alphanumeric or `_`;
    the tag, the blanks and the word are cut out of the string. When only
    blanks follow the tag, the cut starts past the end and fails.
  */
  function ArgWord(s: string, n: nat): (r: Result<Cut<string>>)
    ensures r.OutOfRange? <==> forall k | SkipTag(s, n) <= k < |s| :: IsBlank(s[k])
    ensures r.Ok? ==> n < |s| && |r.value.arg| >= 1 && !IsBlank(r.value.arg[0])
    ensures r.Ok? ==> forall k | 1 <= k < |r.value.arg| :: IsWordChar(r.value.arg[k])
    ensures r.Ok? ==>
      var start := ArgStart(s, n);
      var end := start + |r.value.arg|;
      end <= |s| && s[start..end] == r.value.arg && (end < |s| ==> !IsWordChar(s[end])) &&
      r.value.rest == s[..n] + s[end..] && |r.value.rest| == |s| - (end - n)
  {
    var start := ArgStart(s, n);
    if start >= |s| then
      assert forall k | SkipTag(s, n) <= k < |s| :: IsBlank(s[k]);
      OutOfRange
    else
      var end := ScanWord(s, start + 1);
      Ok(Cut(s[start..end], s[..n] + s[end..]))
  }

  /**
    `extractArgLine(s, n)`: the argument of the tag at `n` runs up to the
    next `:` (searched from the character after its first one), and its
    text from there to the end of the line. Both, and the tag, are cut out;
    the newline stays. Without a `:` the text would start past the end.
  */
  function ArgLine(s: string, n: nat): (r: Result<Cut<(string, string)>>)
    ensures r.OutOfRange? <==> forall k | ArgStart(s, n) < k < |s| :: s[k] != ':'
    ensures r.Ok? ==>
      var start := ArgStart(s, n);
      var colon := start + |r.value.arg.0|;
      var eol := colon + 1 + |r.value.arg.1|;
      n <= start < colon < eol <= |s| && s[colon] == ':' && (eol < |s| ==> s[eol] == '\n') &&
      s[start..colon] == r.value.arg.0 && s[colon + 1..eol] == r.value.arg.1 &&
      r.value.rest == s[..n] + s[eol..]
    ensures r.Ok? ==> |r.value.rest| < |s|
  {
    var start := ArgStart(s, n);
    var colon := ScanTo(s, start + 1, ':');
    if colon >= |s| then
      OutOfRange
    else
      var eol := ScanTo(s, colon, '\n');
      Ok(Cut((s[start..colon], s[colon + 1..eol]), s[..n] + s[eol..]))
  }

  /** The argument has no `:` past its first character, and the text no line end. */
  lemma ArgLineSeparators(s: string, n: nat)
    ensures ArgLine(s, n).Ok? ==> ':' !in ArgLine(s, n).value.arg.0[1..] && '\n' !in ArgLine(s, n).value.arg.1
  {
    var start := ArgStart(s, n);
    var colon := ScanTo(s, start + 1, ':');
    if colon < |s| {
      var eol := ScanTo(s, colon, '\n');
      var arg, text := s[start..colon], s[colon + 1..eol];
      assert forall k | 0 <= k < |arg| - 1 :: arg[1..][k] == s[start + 1 + k];
      assert forall k | 0 <= k < |text| :: text[k] == s[colon + 1 + k];
    }
  }

  /** The two skip loops every tag extraction starts with. */
  method SkipToArg(s: string, n: nat) returns (start: nat)
    ensures start == ArgStart(s, n)
  {
    start := n;
    while start < |s| && !IsBlank(s[start])
      invariant SkipTag(s, start) == SkipTag(s, n)
      decreases |s| - start
    {
      start := start + 1;
    }
    while start < |s| && IsBlank(s[start])
      invariant SkipBlanks(s, start) == ArgStart(s, n)
      decreases |s| - start
    {
      start := start + 1;
    }
  }

  /** The word loop: from `i`, while alphanumeric or `_`. */
  method ScanWordFrom(s: string, i: nat) returns (end: nat)
    ensures end == ScanWord(s, i)
  {
    end := i;
    while end < |s| && IsWordChar(s[end])
      invariant ScanWord(s, end) == ScanWord(s, i)
      decreases |s| - end
    {
      end := end + 1;
    }
  }

  /** `extractArgWord`: the word and the shortened string, or the `substr` failure. */
  method ExtractArgWord(s: string, n: nat) returns (r: Result<Cut<string>>)
    ensures r == ArgWord(s, n)
  {
    var start := SkipToArg(s, n);
    var end := ScanWordFrom(s, start + 1);
    if start >= |s| {
      // either `substr(start, ..)` starts past the end, or `end` is one past it
      return OutOfRange;
    }
    r := Ok(Cut(s[start..end], s[..n] + s[end..]));
  }

  /** The scanning loops of `extractArgLine`: from `i`, up to the next `c`. */
  method ScanToFrom(s: string, i: nat, c: char) returns (end: nat)
    ensures end == ScanTo(s, i, c)
  {
    end := i;
    while end < |s| && s[end] != c
      invariant ScanTo(s, end, c) == ScanTo(s, i, c)
      decreases |s| - end
    {
      end := end + 1;
    }
  }

  /** `extractArgLine`: (argument, text) and the shortened string, or the `substr` failure. */
  method ExtractArgLine(s: string, n: nat) returns (r: Result<Cut<(string, string)>>)
    ensures r == ArgLine(s, n)
  {
    var start := SkipToArg(s, n);
    var end := ScanToFrom(s, start + 1, ':');
    if end >= |s| {
      // the text would start at `end + 1`, past the end
      return OutOfRange;
    }
    var arg := s[start..end];
    var docStart := end + 1;
    end := ScanToFrom(s, end, '\n');
    r := Ok(Cut((arg, s[docStart..end]), s[..n] + s[end..]));
  }
}
