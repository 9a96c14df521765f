/**
  Reading the tags of a documentation comment (`vVarDeclI` and
  `vFunctionI` in lib/htmlprinter.cpp): the `@group` the item belongs to,
  the `@param` lines of a function, and the `\a` words of its text.
*/
module DocComment {
  import opened Wrappers
  import opened DocStrings
  import Markup

  const GroupTag: string := "@group"
  const ParamTag: string := "@param"

  /** Where a tag without blanks in it starts, the tag's own characters are skipped whole. */
  lemma {:induction false} TagSkipped(s: string, tag: string, i: nat)
    requires MatchAt(s, tag, i) && forall k | 0 <= k < |tag| :: !IsBlank(tag[k])
    ensures SkipTag(s, i) >= i + |tag|
    decreases |tag|
  {
    if tag != [] {
      assert s[i] == s[i..i + |tag|][0] == tag[0];
      assert s[i + 1..i + 1 + |tag[1..]|] == s[i..i + |tag|][1..];
      TagSkipped(s, tag[1..], i + 1);
    }
  }

  lemma TagsHaveNoBlanks()
    ensures forall k | 0 <= k < |GroupTag| :: !IsBlank(GroupTag[k])
    ensures forall k | 0 <= k < |ParamTag| :: !IsBlank(ParamTag[k])
  {
  }

  /** Cutting a `@param` line out shortens the comment by at least the tag, a character and the `:`. */
  lemma ParamCut(ds: string, i: nat, c: Cut<(string, string)>)
    requires MatchAt(ds, ParamTag, i) && ArgLine(ds, i) == Ok(c)
    ensures |c.rest| + 8 <= |ds| && '\n' !in c.arg.1
  {
    TagsHaveNoBlanks();
    TagSkipped(ds, ParamTag, i);
    ArgLineSeparators(ds, i);
  }

  /**
    The group of a documented item: `"main"` unless the comment has a
    `@group` tag, in which case it is the word after the first such tag,
    and the tag and the word are cut out of the comment.
  */
  function DocGroup(ds: string): (r: Result<Cut<string>>)
    ensures Find(ds, GroupTag, 0).None? ==> r == Ok(Cut("main", ds))
    ensures Find(ds, GroupTag, 0).Some? ==> r == ArgWord(ds, Find(ds, GroupTag, 0).value)
    ensures Find(ds, GroupTag, 0).Some? ==>
      var i := Find(ds, GroupTag, 0).value;
      (r.OutOfRange? <==> forall k | SkipTag(ds, i) <= k < |ds| :: IsBlank(ds[k])) &&
      (r.Ok? ==> |r.value.arg| >= 1 && !IsBlank(r.value.arg[0]) &&
                 i <= |r.value.rest| && r.value.rest[..i] == ds[..i] && |r.value.rest| + |GroupTag| + 1 <= |ds|)
  {
    match Find(ds, GroupTag, 0)
    case None => Ok(Cut("main", ds))
    case Some(i) =>
      TagsHaveNoBlanks();
      TagSkipped(ds, GroupTag, i);
      ArgWord(ds, i)
  }

  /** Prepends the pairs taken so far to the outcome of the remaining rounds. */
  function Prepend(params: seq<(string, string)>, r: Result<Cut<seq<(string, string)>>>): Result<Cut<seq<(string, string)>>> {
    match r
    case OutOfRange => OutOfRange
    case Ok(c) => Ok(Cut(params + c.arg, c.rest))
  }

  /**
    The `@param` loop: while the comment has a `@param` tag, the first one
    is cut out with its (name, text) pair. It stops when no tag is left.
  */
  function Params(ds: string): (r: Result<Cut<seq<(string, string)>>>)
    ensures Find(ds, ParamTag, 0).None? ==> r == Ok(Cut([], ds))
    decreases |ds|
  {
    match Find(ds, ParamTag, 0)
    case None => Ok(Cut([], ds))
    case Some(i) =>
      match ArgLine(ds, i)
      case OutOfRange => OutOfRange
      case Ok(c) =>
        ParamCut(ds, i, c);
        Prepend([c.arg], Params(c.rest))
  }

  /** The loop leaves no `@param` tag behind. */
  lemma {:induction false} ParamsExhaust(ds: string)
    ensures Params(ds).Ok? ==> Find(Params(ds).value.rest, ParamTag, 0).None?
    decreases |ds|
  {
    var idx := Find(ds, ParamTag, 0);
    if idx.Some? {
      var c := ArgLine(ds, idx.value);
      ParamsStep(ds, idx.value, c);
      if c.Ok? {
        ParamsExhaust(c.value.rest);
      }
    }
  }

  /** Every parameter's text is the rest of one line. */
  lemma {:induction false} ParamsOneLine(ds: string)
    ensures Params(ds).Ok? ==> forall k | 0 <= k < |Params(ds).value.arg| :: '\n' !in Params(ds).value.arg[k].1
    decreases |ds|
  {
    var idx := Find(ds, ParamTag, 0);
    if idx.Some? {
      var c := ArgLine(ds, idx.value);
      ParamsStep(ds, idx.value, c);
      if c.Ok? {
        ParamCut(ds, idx.value, c.value);
        ParamsOneLine(c.value.rest);
        var r := Params(c.value.rest);
        if r.Ok? {
          var ps := [c.value.arg] + r.value.arg;
          assert Params(ds).value.arg == ps;
          forall k | 0 <= k < |ps|
            ensures '\n' !in ps[k].1
          {
            if k > 0 {
              assert ps[k] == r.value.arg[k - 1];
            }
          }
        }
      }
    }
  }

  /**
    Every pair took the tag, a character of its name and the `:` out of
    the comment, 8 characters at least.
  */
  lemma {:induction false} ParamsShrink(ds: string)
    ensures Params(ds).Ok? ==> |Params(ds).value.rest| + 8 * |Params(ds).value.arg| <= |ds|
    decreases |ds|
  {
    var idx := Find(ds, ParamTag, 0);
    if idx.Some? {
      var c := ArgLine(ds, idx.value);
      ParamsStep(ds, idx.value, c);
      if c.Ok? {
        ParamCut(ds, idx.value, c.value);
        ParamsShrink(c.value.rest);
      }
    }
  }

  lemma PrependTwice(params: seq<(string, string)>, p: (string, string), r: Result<Cut<seq<(string, string)>>>)
    ensures Prepend(params, Prepend([p], r)) == Prepend(params + [p], r)
  {
    if r.Ok? {
      assert params + ([p] + r.value.arg) == params + [p] + r.value.arg;
    }
  }

  /** One round of the `@param` loop, as `Params` sees it. */
  lemma ParamsStep(ds: string, i: nat, c: Result<Cut<(string, string)>>)
    requires Find(ds, ParamTag, 0) == Some(i) && c == ArgLine(ds, i)
    ensures c.OutOfRange? ==> Params(ds) == OutOfRange
    ensures c.Ok? ==> |c.value.rest| < |ds| && Params(ds) == Prepend([c.value.arg], Params(c.value.rest))
  {
    if c.Ok? {
      ParamCut(ds, i, c.value);
    }
  }

  lemma PrependNothing(r: Result<Cut<seq<(string, string)>>>)
    ensures Prepend([], r) == r
  {
    if r.Ok? {
      assert [] + r.value.arg == r.value.arg;
    }
  }

  /** `vFunctionI`'s `@param` loop over the comment `ds`, which it shortens as it goes. */
  method CollectParams(ds: string) returns (r: Result<Cut<seq<(string, string)>>>)
    ensures r == Params(ds)
  {
    var params: seq<(string, string)> := [];
    var cur := ds;
    var idx := Find(cur, ParamTag, 0);
    ghost var goal := Params(ds);
    PrependNothing(goal);
    while idx.Some?
      invariant idx == Find(cur, ParamTag, 0)
      invariant Prepend(params, Params(cur)) == goal
      decreases |cur|
    {
      var c := ExtractArgLine(cur, idx.value);
      ParamsStep(cur, idx.value, c);
      if c.OutOfRange? {
        return OutOfRange;
      }
      PrependTwice(params, c.value.arg, Params(c.value.rest));
      params := params + [c.value.arg];
      cur := c.value.rest;
      idx := Find(cur, ParamTag, 0);
    }
    assert Params(cur) == Ok(Cut([], cur));
    assert params + [] == params;
    r := Ok(Cut(params, cur));
  }

  /** What `vFunctionI` reads from a function's comment before printing it. */
  datatype FunctionDoc = FunctionDoc(group: string, params: seq<(string, string)>, args: seq<string>, text: string)

  /**
    The steps of `vFunctionI` on the comment `ds`, in order: the group is
    cut out, then the `@param` lines, then the `\a` words are wrapped, with
    the text between two tags copied by `mode`: `AsWritten` is the code,
    `Intended` the corrected copy (`Markup.Slicing`). Any of the steps can
    fail with `std::out_of_range`.
  */
  method ReadFunctionDoc(ds: string, mode: Markup.Slicing) returns (r: Result<FunctionDoc>)
    ensures r.Ok? <==> DocGroup(ds).Ok? && Params(DocGroup(ds).value.rest).Ok? &&
                       Markup.Replaced(Params(DocGroup(ds).value.rest).value.rest, mode).Ok?
    ensures r.Ok? ==>
      var g := DocGroup(ds).value;
      var p := Params(g.rest).value;
      var a := Markup.Replaced(p.rest, mode).value;
      r.value == FunctionDoc(g.arg, p.arg, a.arg, a.rest)
  {
    var group := "main";
    var text := ds;
    var groupIdx := Find(text, GroupTag, 0);
    if groupIdx.Some? {
      var g := ExtractArgWord(text, groupIdx.value);
      if g.OutOfRange? {
        return OutOfRange;
      }
      group, text := g.value.arg, g.value.rest;
    }
    assert DocGroup(ds) == Ok(Cut(group, text));
    var p := CollectParams(text);
    if p.OutOfRange? {
      return OutOfRange;
    }
    var a := Markup.ReplaceArgs(p.value.rest, mode);
    if a.OutOfRange? {
      return OutOfRange;
    }
    r := Ok(FunctionDoc(group, p.value.arg, a.value.arg, a.value.rest));
  }
}
