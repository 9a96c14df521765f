/**
  The documentation groups of the HTML printer (`HtmlDocOutput` in
  lib/htmlprinter.cpp): each group collects documented items, and prints
  them sorted by kind and name under one heading per kind.
*/
module HtmlDoc {
  import opened Wrappers

  /** `DocItem::DocType`: parameters, variables, functions and predicates. */
  datatype DocType = Par | Var | Fun

  /** The enumerator values `T_PAR = 0`, `T_VAR = 1`, `T_FUN = 2`. */
  function Ordinal(t: DocType): int {
    match t
    case Par => 0
    case Var => 1
    case Fun => 2
  }

  datatype DocItem = DocItem(t: DocType, id: string, doc: string)

  // ---------------------------------------------------------------------
  // The order `SortById`

  /** `std::string`'s `<`: lexicographic, a proper prefix first. */
  predicate StrLess(a: string, b: string)
    decreases |a|
  {
    if a == [] then b != []
    else if b == [] then false
    else a[0] < b[0] || (a[0] == b[0] && StrLess(a[1..], b[1..]))
  }

  lemma {:induction false} StrLessIrreflexive(a: string)
    ensures !StrLess(a, a)
    decreases |a|
  {
    if a != [] {
      StrLessIrreflexive(a[1..]);
    }
  }

  lemma {:induction false} StrLessTransitive(a: string, b: string, c: string)
    requires StrLess(a, b) && StrLess(b, c)
    ensures StrLess(a, c)
    decreases |a|
  {
    if a != [] && a[0] == b[0] && b[0] == c[0] {
      StrLessTransitive(a[1..], b[1..], c[1..]);
    }
  }

  lemma {:induction false} StrLessTotal(a: string, b: string)
    ensures a == b || StrLess(a, b) || StrLess(b, a)
    decreases |a|
  {
    if a != [] && b != [] && a[0] == b[0] {
      StrLessTotal(a[1..], b[1..]);
      if a[1..] == b[1..] {
        assert a == [a[0]] + a[1..] && b == [b[0]] + b[1..];
      }
    }
  }

  /** `SortById`: by kind, then by name. */
  predicate ItemLess(a: DocItem, b: DocItem) {
    Ordinal(a.t) < Ordinal(b.t) || (a.t == b.t && StrLess(a.id, b.id))
  }

  /** Items the order cannot tell apart: same kind and same name. */
  predicate SameKey(a: DocItem, b: DocItem) {
    a.t == b.t && a.id == b.id
  }

  lemma ItemLessIrreflexive(a: DocItem)
    ensures !ItemLess(a, a)
  {
    StrLessIrreflexive(a.id);
  }

  lemma ItemLessTransitive(a: DocItem, b: DocItem, c: DocItem)
    ensures ItemLess(a, b) && ItemLess(b, c) ==> ItemLess(a, c)
  {
    if a.t == b.t && b.t == c.t && StrLess(a.id, b.id) && StrLess(b.id, c.id) {
      StrLessTransitive(a.id, b.id, c.id);
    }
  }

  /** Below an item is below everything not below it. */
  lemma ItemLessBelow(a: DocItem, b: DocItem, c: DocItem)
    ensures ItemLess(a, b) && !ItemLess(c, b) ==> ItemLess(a, c)
  {
    StrLessTotal(b.id, c.id);
    if a.t == b.t && b.t == c.t && StrLess(a.id, b.id) && StrLess(b.id, c.id) {
      StrLessTransitive(a.id, b.id, c.id);
    }
  }

  /** The order is a strict weak order whose ties are exactly the items with the same key. */
  lemma ItemLessTies(a: DocItem, b: DocItem)
    ensures !ItemLess(a, b) && !ItemLess(b, a) <==> SameKey(a, b)
  {
    StrLessTotal(a.id, b.id);
    StrLessIrreflexive(a.id);
  }

  predicate Sorted(s: seq<DocItem>) {
    forall i, j | 0 <= i < j < |s| :: !ItemLess(s[j], s[i])
  }

  // ---------------------------------------------------------------------
  // `std::stable_sort`, as a stable insertion sort

  /** Inserts `x` after every item of `s` that is not greater than it. */
  function Insert(x: DocItem, s: seq<DocItem>): (r: seq<DocItem>)
    ensures multiset(r) == multiset(s) + multiset{x}
  {
    if s == [] then [x]
    else if ItemLess(x, s[0]) then [x] + s
    else
      assert s == [s[0]] + s[1..];
      [s[0]] + Insert(x, s[1..])
  }

  function StableSort(s: seq<DocItem>): (r: seq<DocItem>)
    ensures multiset(r) == multiset(s)
  {
    if s == [] then []
    else
      assert s == s[..|s| - 1] + [s[|s| - 1]];
      Insert(s[|s| - 1], StableSort(s[..|s| - 1]))
  }

  lemma {:induction false} InsertSorted(x: DocItem, s: seq<DocItem>)
    requires Sorted(s)
    ensures Sorted(Insert(x, s))
  {
    if s == [] {
    } else if ItemLess(x, s[0]) {
      forall j | 0 <= j < |s|
        ensures !ItemLess(s[j], x)
      {
        ItemLessIrreflexive(s[0]);
        ItemLessTransitive(s[j], x, s[0]);
      }
    } else {
      var t := s[1..];
      InsertSorted(x, t);
      var r := Insert(x, t);
      forall j | 0 <= j < |r|
        ensures !ItemLess(r[j], s[0])
      {
        assert r[j] in multiset(t) + multiset{x};
        if r[j] != x {
          assert r[j] in t;
          var k :| 0 <= k < |t| && t[k] == r[j];
          assert s[k + 1] == r[j];
        }
      }
      assert Insert(x, s) == [s[0]] + r;
    }
  }

  /** `std::stable_sort` leaves the items in the order `SortById`. */
  lemma {:induction false} StableSortSorted(s: seq<DocItem>)
    ensures Sorted(StableSort(s))
  {
    if s != [] {
      StableSortSorted(s[..|s| - 1]);
      InsertSorted(s[|s| - 1], StableSort(s[..|s| - 1]));
    }
  }

  /** The items of `s` with the key of `k`, in their order in `s`. */
  function Keyed(s: seq<DocItem>, k: DocItem): seq<DocItem> {
    if s == [] then []
    else (if SameKey(s[0], k) then [s[0]] else []) + Keyed(s[1..], k)
  }

  lemma {:induction false} KeyedAppend(a: seq<DocItem>, b: seq<DocItem>, k: DocItem)
    ensures Keyed(a + b, k) == Keyed(a, k) + Keyed(b, k)
  {
    if a == [] {
      assert a + b == b;
    } else {
      assert (a + b)[0] == a[0];
      assert (a + b)[1..] == a[1..] + b;
      KeyedAppend(a[1..], b, k);
    }
  }

  /** Past an item greater than `x`, a sorted sequence holds no item with the key of `x`. */
  lemma {:induction false} KeyedAbove(x: DocItem, s: seq<DocItem>, k: DocItem)
    requires Sorted(s) && s != [] && ItemLess(x, s[0]) && SameKey(x, k)
    ensures Keyed(s, k) == []
  {
    ItemLessTies(s[0], x);
    if |s| > 1 {
      ItemLessBelow(x, s[0], s[1]);
      KeyedAbove(x, s[1..], k);
    }
  }

  lemma SortedTail(s: seq<DocItem>)
    requires Sorted(s) && s != []
    ensures Sorted(s[1..])
  {
    forall i, j | 0 <= i < j < |s| - 1
      ensures !ItemLess(s[1..][j], s[1..][i])
    {
      assert s[1..][j] == s[j + 1] && s[1..][i] == s[i + 1];
    }
  }

  lemma KeyedOne(x: DocItem, k: DocItem)
    ensures Keyed([x], k) == if SameKey(x, k) then [x] else []
  {
    assert [x][1..] == [];
  }

  lemma {:induction false} InsertKeyed(x: DocItem, s: seq<DocItem>, k: DocItem)
    requires Sorted(s)
    ensures Keyed(Insert(x, s), k) == Keyed(s, k) + Keyed([x], k)
  {
    KeyedOne(x, k);
    if s == [] {
      assert Keyed(Insert(x, s), k) == Keyed([x], k);
    } else if ItemLess(x, s[0]) {
      assert Insert(x, s) == [x] + s;
      KeyedAppend([x], s, k);
      if SameKey(x, k) {
        KeyedAbove(x, s, k);
      }
    } else {
      var t := s[1..];
      SortedTail(s);
      InsertKeyed(x, t, k);
      assert Insert(x, s) == [s[0]] + Insert(x, t);
      KeyedAppend([s[0]], Insert(x, t), k);
      assert s == [s[0]] + t;
      KeyedAppend([s[0]], t, k);
      Assoc(Keyed([s[0]], k), Keyed(t, k), Keyed([x], k));
    }
  }

  /** Stability: items with the same key keep their relative order. */
  lemma {:induction false} StableSortKeyed(s: seq<DocItem>, k: DocItem)
    ensures Keyed(StableSort(s), k) == Keyed(s, k)
  {
    if s != [] {
      var init, x := s[..|s| - 1], s[|s| - 1];
      assert s == init + [x];
      calc {
        Keyed(StableSort(s), k);
        Keyed(Insert(x, StableSort(init)), k);
        { StableSortSorted(init); InsertKeyed(x, StableSort(init), k); }
        Keyed(StableSort(init), k) + Keyed([x], k);
        { StableSortKeyed(init, k); }
        Keyed(init, k) + Keyed([x], k);
        { KeyedAppend(init, [x], k); }
        Keyed(s, k);
      }
    }
  }

  // ---------------------------------------------------------------------
  // Runs of equal kind and their HTML

  /** The concatenation of a sequence of runs. */
  function Join(rs: seq<seq<DocItem>>): seq<DocItem> {
    if rs == [] then [] else Join(rs[..|rs| - 1]) + rs[|rs| - 1]
  }

  predicate Uniform(run: seq<DocItem>) {
    forall j | 0 <= j < |run| :: run[j].t == run[0].t
  }

  /**
    `rs` cuts `items` into maximal runs of equal kind: put back together
    the runs are the items, no run is empty, every run holds one kind, and
    neighbouring runs hold different kinds.
  */
  predicate RunsOf(items: seq<DocItem>, rs: seq<seq<DocItem>>) {
    (items == [] <==> rs == []) &&
    Join(rs) == items &&
    (forall i | 0 <= i < |rs| :: rs[i] != [] && Uniform(rs[i])) &&
    (forall i | 0 < i < |rs| :: rs[i][0].t != rs[i - 1][0].t) &&
    (items != [] ==> rs[|rs| - 1][0].t == items[|items| - 1].t)
  }

  /** The last run grown by one item. */
  function Extend(rs: seq<seq<DocItem>>, x: DocItem): seq<seq<DocItem>>
    requires rs != []
  {
    rs[..|rs| - 1] + [rs[|rs| - 1] + [x]]
  }

  lemma RunsOfExtend(init: seq<DocItem>, rs: seq<seq<DocItem>>, x: DocItem)
    requires RunsOf(init, rs) && init != [] && init[|init| - 1].t == x.t
    ensures RunsOf(init + [x], Extend(rs, x))
  {
    var last := rs[|rs| - 1];
    var rs' := Extend(rs, x);
    assert rs'[..|rs'| - 1] == rs[..|rs| - 1];
    assert forall i | 0 <= i < |rs| - 1 :: rs'[i] == rs[i];
    assert Uniform(last + [x]) by {
      forall j | 0 <= j < |last| + 1
        ensures (last + [x])[j].t == last[0].t
      {
        if j < |last| {
          assert (last + [x])[j] == last[j];
        } else {
          assert (last + [x])[j] == x;
        }
      }
    }
    assert Join(rs) == Join(rs[..|rs| - 1]) + last;
    assert Join(rs') == Join(rs[..|rs| - 1]) + (last + [x]);
    assert (last + [x])[0] == last[0];
  }

  lemma RunsOfNew(init: seq<DocItem>, rs: seq<seq<DocItem>>, x: DocItem)
    requires RunsOf(init, rs) && (init != [] ==> init[|init| - 1].t != x.t)
    ensures RunsOf(init + [x], rs + [[x]])
  {
    var rs' := rs + [[x]];
    assert rs'[..|rs'| - 1] == rs;
    assert forall i | 0 <= i < |rs| :: rs'[i] == rs[i];
    assert Uniform([x]);
  }

  /** The maximal runs of consecutive items of equal kind. */
  function Runs(items: seq<DocItem>): (rs: seq<seq<DocItem>>)
    ensures RunsOf(items, rs)
  {
    if items == [] then []
    else
      var init, x := items[..|items| - 1], items[|items| - 1];
      assert items == init + [x];
      var rs := Runs(init);
      if init != [] && init[|init| - 1].t == x.t then
        RunsOfExtend(init, rs, x);
        Extend(rs, x)
      else
        RunsOfNew(init, rs, x);
        rs + [[x]]
  }

  /** An item appended to non-empty items continues their last run, or opens one. */
  lemma RunsSnoc(p: seq<DocItem>, x: DocItem)
    requires p != []
    ensures p[|p| - 1].t == x.t ==> Runs(p + [x]) == Extend(Runs(p), x)
    ensures p[|p| - 1].t != x.t ==> Runs(p + [x]) == Runs(p) + [[x]]
  {
    var q := p + [x];
    assert q[..|q| - 1] == p && q[|q| - 1] == x;
  }

  lemma SortedPrefix(s: seq<DocItem>, n: nat)
    requires Sorted(s) && n <= |s|
    ensures Sorted(s[..n])
  {
    assert forall i | 0 <= i < n :: s[..n][i] == s[i];
  }

  /** The kinds of the runs strictly ascend. */
  predicate KindsAscend(rs: seq<seq<DocItem>>) {
    forall i, j | 0 <= i < j < |rs| && rs[i] != [] && rs[j] != [] :: Ordinal(rs[i][0].t) < Ordinal(rs[j][0].t)
  }

  lemma AscendExtend(rs: seq<seq<DocItem>>, x: DocItem)
    requires rs != [] && rs[|rs| - 1] != [] && KindsAscend(rs)
    ensures KindsAscend(Extend(rs, x))
  {
    var rs' := Extend(rs, x);
    var last := rs[|rs| - 1];
    assert (last + [x])[0] == last[0];
    assert forall i | 0 <= i < |rs| - 1 :: rs'[i] == rs[i];
  }

  lemma AscendNew(rs: seq<seq<DocItem>>, x: DocItem)
    requires KindsAscend(rs) && forall i | 0 <= i < |rs| :: rs[i] != []
    requires rs != [] ==> Ordinal(rs[|rs| - 1][0].t) < Ordinal(x.t)
    ensures KindsAscend(rs + [[x]])
  {
    var rs' := rs + [[x]];
    assert forall i | 0 <= i < |rs| :: rs'[i] == rs[i];
  }

  /**
    Once the items are sorted, the kinds of the runs strictly ascend: a
    group shows each kind under one heading at most, parameters first,
    then variables, then functions and predicates.
  */
  lemma {:induction false} SortedRunsAscend(items: seq<DocItem>)
    requires Sorted(items)
    ensures KindsAscend(Runs(items))
  {
    if items != [] {
      var p, x := items[..|items| - 1], items[|items| - 1];
      assert items == p + [x];
      if p == [] {
        assert Runs(items) == [[x]];
      } else {
        assert Sorted(p) by {
          SortedPrefix(items, |p|);
        }
        SortedRunsAscend(p);
        if p[|p| - 1].t == x.t {
          assert Runs(items) == Extend(Runs(p), x) by {
            RunsSnoc(p, x);
          }
          AscendExtend(Runs(p), x);
        } else {
          assert Ordinal(p[|p| - 1].t) < Ordinal(x.t) by {
            assert items[|p| - 1] == p[|p| - 1] && items[|p|] == x;
            assert !ItemLess(items[|p|], items[|p| - 1]);
          }
          assert Runs(items) == Runs(p) + [[x]] by {
            RunsSnoc(p, x);
          }
          AscendNew(Runs(p), x);
        }
      }
    }
  }

  /** `dt[t]`. */
  function TypeClass(t: DocType): string {
    match t
    case Par => "par"
    case Var => "var"
    case Fun => "fun"
  }

  /** `dt_desc[t]`. */
  function TypeHeading(t: DocType): string {
    match t
    case Par => "Parameters"
    case Var => "Variables"
    case Fun => "Functions and Predicates"
  }

  /** The opening of a run: the kind's `div` and its heading, exactly as printed. */
  function Open(t: DocType): string {
    "<div class='mzn-decl-type" + TypeClass(t) + ">" +
    "<div class='mzn-decl-type-heading'>" + TypeHeading(t) + "</div>\n"
  }

  const Close: string := "</div>\n"

  /** The docs of the items, one after the other. */
  function Docs(s: seq<DocItem>): string {
    if s == [] then "" else Docs(s[..|s| - 1]) + s[|s| - 1].doc
  }

  function RenderRun(run: seq<DocItem>): string
    requires run != []
  {
    Open(run[0].t) + Docs(run) + Close
  }

  function RenderRuns(rs: seq<seq<DocItem>>): string
    requires forall i | 0 <= i < |rs| :: rs[i] != []
  {
    if rs == [] then "" else RenderRuns(rs[..|rs| - 1]) + RenderRun(rs[|rs| - 1])
  }

  /** What `toHTML` prints for items already in order: one block per run. */
  function Html(items: seq<DocItem>): string {
    RenderRuns(Runs(items))
  }

  /** The rendering of runs, before the last one is closed. */
  function OpenRender(rs: seq<seq<DocItem>>): string
    requires rs != [] && forall i | 0 <= i < |rs| :: rs[i] != []
  {
    var last := rs[|rs| - 1];
    RenderRuns(rs[..|rs| - 1]) + Open(last[0].t) + Docs(last)
  }

  /** What `toHTML` has printed after the items, before the last `</div>`. */
  function OpenHtml(items: seq<DocItem>): string
    requires items != []
  {
    OpenRender(Runs(items))
  }

  lemma HtmlClosed(items: seq<DocItem>)
    requires items != []
    ensures Html(items) == OpenHtml(items) + Close
  {
    var rs := Runs(items);
    var last := rs[|rs| - 1];
    var r, o, d := RenderRuns(rs[..|rs| - 1]), Open(last[0].t), Docs(last);
    assert RenderRuns(rs) == r + (o + d + Close);
    Assoc(r, o + d, Close);
    Assoc(r, o, d);
  }

  lemma OpenHtmlFirst(x: DocItem)
    ensures OpenHtml([x]) == Open(x.t) + x.doc
  {
    assert [x][..0] == [];
    var rs := Runs([x]);
    assert [x][..0] == [];
    assert rs == [[x]];
    assert rs[..0] == [];
    assert Docs([x]) == Docs([]) + x.doc;
  }

  lemma OpenRenderExtend(p: seq<DocItem>, rs: seq<seq<DocItem>>, x: DocItem)
    requires RunsOf(p, rs) && p != [] && p[|p| - 1].t == x.t
    ensures RunsOf(p + [x], Extend(rs, x))
    ensures OpenRender(Extend(rs, x)) == OpenRender(rs) + x.doc
  {
    RunsOfExtend(p, rs, x);
    var rs' := Extend(rs, x);
    var last := rs[|rs| - 1];
    var r, o, d := RenderRuns(rs[..|rs| - 1]), Open(last[0].t), Docs(last);
    assert rs'[..|rs'| - 1] == rs[..|rs| - 1];
    assert (last + [x])[..|last|] == last;
    assert Docs(last + [x]) == d + x.doc;
    assert OpenRender(rs') == r + o + (d + x.doc);
    Assoc(r + o, d, x.doc);
  }

  lemma OpenRenderNew(p: seq<DocItem>, rs: seq<seq<DocItem>>, x: DocItem)
    requires RunsOf(p, rs) && p != [] && p[|p| - 1].t != x.t
    ensures RunsOf(p + [x], rs + [[x]])
    ensures OpenRender(rs + [[x]]) == OpenRender(rs) + Close + Open(x.t) + x.doc
  {
    RunsOfNew(p, rs, x);
    var rs' := rs + [[x]];
    var last := rs[|rs| - 1];
    var r, o, d := RenderRuns(rs[..|rs| - 1]), Open(last[0].t), Docs(last);
    assert rs'[..|rs'| - 1] == rs;
    assert [x][..0] == [];
    assert Docs([x]) == "" + x.doc;
    assert RenderRuns(rs) == r + (o + d + Close);
    Assoc(r, o + d, Close);
    Assoc(r, o, d);
    assert OpenRender(rs') == RenderRuns(rs) + Open(x.t) + x.doc;
  }

  /** One more item either continues the open run, or closes it and opens a new one. */
  lemma OpenHtmlStep(p: seq<DocItem>, x: DocItem)
    requires p != []
    ensures p[|p| - 1].t == x.t ==> OpenHtml(p + [x]) == OpenHtml(p) + x.doc
    ensures p[|p| - 1].t != x.t ==> OpenHtml(p + [x]) == OpenHtml(p) + Close + Open(x.t) + x.doc
  {
    RunsSnoc(p, x);
    if p[|p| - 1].t == x.t {
      OpenRenderExtend(p, Runs(p), x);
    } else {
      OpenRenderNew(p, Runs(p), x);
    }
  }

  /**
    The text the printing loop of `toHTML` has produced after the items,
    item by item: a heading whenever the kind changes, closing the block
    before it unless it is the first.
  */
  function Printed(items: seq<DocItem>): string {
    if items == [] then ""
    else
      var p, x := items[..|items| - 1], items[|items| - 1];
      if p == [] then Printed(p) + Open(x.t) + x.doc
      else if p[|p| - 1].t != x.t then Printed(p) + Close + Open(x.t) + x.doc
      else Printed(p) + x.doc
  }

  /** One round of the printing loop, over the first `i` items of `s`. */
  lemma PrintedStep(s: seq<DocItem>, i: nat)
    requires i < |s|
    ensures i == 0 ==> Printed(s[..i + 1]) == Printed(s[..i]) + Open(s[i].t) + s[i].doc
    ensures 0 < i && s[i - 1].t != s[i].t ==> Printed(s[..i + 1]) == Printed(s[..i]) + Close + Open(s[i].t) + s[i].doc
    ensures 0 < i && s[i - 1].t == s[i].t ==> Printed(s[..i + 1]) == Printed(s[..i]) + s[i].doc
  {
    var q := s[..i + 1];
    assert q[..i] == s[..i] && q[i] == s[i];
  }

  /** Item by item, the loop prints the runs' blocks, all but the last one closed. */
  lemma {:induction false} PrintedRuns(items: seq<DocItem>)
    requires items != []
    ensures Printed(items) == OpenHtml(items)
  {
    var p, x := items[..|items| - 1], items[|items| - 1];
    assert items == p + [x];
    if p == [] {
      OpenHtmlFirst(x);
      assert items == [x];
    } else {
      PrintedRuns(p);
      OpenHtmlStep(p, x);
    }
  }

  /** After the loop, closing the last block gives the whole rendering. */
  lemma PrintedHtml(items: seq<DocItem>)
    ensures items == [] ==> Html(items) == ""
    ensures items != [] ==> Html(items) == Printed(items) + Close
  {
    if items != [] {
      PrintedRuns(items);
      HtmlClosed(items);
    }
  }

  lemma HtmlEmpty()
    ensures Html([]) == ""
  {
  }

  // ---------------------------------------------------------------------
  // Groups

  /** `HtmlDocOutput::Group`: a named list of documented items. */
  class Group {
    var name: string
    var items: seq<DocItem>

    constructor(name0: string)
      ensures name == name0 && items == []
    {
      name := name0;
      items := [];
    }

    /**
      `Group::toHTML`: sorts the items in place, stably, by kind then name;
      then prints one block per run of equal kind.
    */
    method ToHtml() returns (html: string)
      modifies this
      ensures name == old(name)
      ensures items == StableSort(old(items))
      ensures html == Html(items)
    {
      items := StableSort(items);
      html := PrintRuns(items);
    }
  }

  /** The printing loop of `Group::toHTML`, over items already sorted. */
  method PrintRuns(sorted: seq<DocItem>) returns (html: string)
    ensures html == Html(sorted)
  {
    html := "";
    var cur := -1;
    var i := 0;
    while i < |sorted|
      invariant 0 <= i <= |sorted|
      invariant cur == if i == 0 then -1 else Ordinal(sorted[i - 1].t)
      invariant html == Printed(sorted[..i])
    {
      var it := sorted[i];
      PrintedStep(sorted, i);
      if Ordinal(it.t) != cur {
        if cur != -1 {
          html := html + Close;
        }
        cur := Ordinal(it.t);
        html := html + Open(it.t);
      }
      html := html + it.doc;
      i := i + 1;
    }
    assert sorted[..i] == sorted;
    PrintedHtml(sorted);
    if cur != -1 {
      html := html + Close;
    }
  }

  /** `HtmlDocOutput::GroupMap`: groups by name. */
  class GroupMap {
    var groups: map<string, Group>

    /**
      Each group is stored under its own name, and no two names share a
      group object: the map holds its groups by value.
    */
    ghost predicate Valid()
      reads this, groups.Values
    {
      (forall k | k in groups :: groups[k].name == k) &&
      (forall k, k' | k in groups && k' in groups && k != k' :: groups[k] != groups[k'])
    }

    constructor()
      ensures Valid() && groups == map[]
    {
      groups := map[];
    }

    /**
      `addToGroup`: appends `di` to the group named `group`, creating the
      group first if there is none; no other group changes.
    */
    method AddToGroup(group: string, di: DocItem)
      requires Valid()
      modifies this, groups.Values
      ensures Valid()
      ensures groups.Keys == old(groups.Keys) + {group}
      ensures group in old(groups) ==>
        groups[group] == old(groups[group]) && groups[group].items == old(groups[group].items) + [di]
      ensures group !in old(groups) ==> fresh(groups[group]) && groups[group].items == [di]
      ensures forall k | k in old(groups) && k != group ::
        groups[k] == old(groups[k]) && groups[k].items == old(groups[k].items)
    {
      if group !in groups {
        var g := new Group(group);
        groups := groups[group := g];
      }
      var g := groups[group];
      g.items := g.items + [di];
    }
  }
}
