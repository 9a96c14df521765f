/**
  The expression graph traversed by the bottom-up iterator: a closed sum
  type over the 18 expression kinds, each node carrying an optional
  annotation, together with the visiting order of each kind's child slots
  and the recursive post-order that the iterator must reproduce.

  Only the tree shape matters for traversal, so literal values, names and
  types are not represented. A null `Expression*` is `None`; a null
  `CtxVec<E>*` is `NullVec`.
*/
module Ast {
  import opened Wrappers

  /** A child vector that may itself be null; its elements may be null. */
  datatype Vec = NullVec | ExprVec(items: seq<Option<Expr>>)

  /** One generator of a comprehension: declared variables `_v` and the source `_in`. */
  datatype Generator = Generator(decls: Vec, source: Option<Expr>)

  datatype Expr =
    | IntLit(ann: Option<Expr>)
    | FloatLit(ann: Option<Expr>)
    | SetLit(ann: Option<Expr>, v: Vec)
    | BoolLit(ann: Option<Expr>)
    | StringLit(ann: Option<Expr>)
    | Id(ann: Option<Expr>)
    | AnonVar(ann: Option<Expr>)
    | ArrayLit(ann: Option<Expr>, v: Vec)
    | ArrayAccess(ann: Option<Expr>, arr: Option<Expr>, idx: Vec)
    | Comprehension(ann: Option<Expr>, elem: Option<Expr>, gens: seq<Generator>, filter: Option<Expr>)
    | ITE(ann: Option<Expr>, branches: seq<(Option<Expr>, Option<Expr>)>, orElse: Option<Expr>)
    | BinOp(ann: Option<Expr>, lhs: Option<Expr>, rhs: Option<Expr>)
    | UnOp(ann: Option<Expr>, operand: Option<Expr>)
    | Call(ann: Option<Expr>, args: Vec)
    | VarDecl(ann: Option<Expr>, ti: Option<Expr>, init: Option<Expr>)
    | Let(ann: Option<Expr>, decls: Vec, body: Option<Expr>)
    | Annotation(ann: Option<Expr>, annotated: Option<Expr>, annot: Option<Expr>)
    | TypeInst(ann: Option<Expr>, ranges: Vec, domain: Option<Expr>)

  /** The kinds that have no child slot: literals, identifiers and `_`. */
  predicate IsLeaf(e: Expr) {
    e.IntLit? || e.FloatLit? || e.BoolLit? || e.StringLit? || e.Id? || e.AnonVar?
  }

  /** Every slot of `s` is structurally smaller than `e`. */
  ghost predicate Below(s: seq<Option<Expr>>, e: Expr) {
    forall k | 0 <= k < |s| :: s[k] < e
  }

  /** The elements of a child vector; a null vector has none. */
  function Elems(v: Vec): seq<Option<Expr>> {
    if v.ExprVec? then v.items else []
  }

  lemma ElemsBelow(v: Vec, e: Expr)
    requires v < e
    ensures Below(Elems(v), e)
  {
    if v.ExprVec? {
      assert forall k | 0 <= k < |v.items| :: v.items[k] in v.items;
    }
  }

  function Reversed<T>(s: seq<T>): (r: seq<T>)
    ensures |r| == |s|
  {
    if s == [] then [] else Reversed(s[1..]) + [s[0]]
  }

  lemma {:induction false} ReversedAppend<T>(a: seq<T>, b: seq<T>)
    ensures Reversed(a + b) == Reversed(b) + Reversed(a)
  {
    if a == [] {
      assert a + b == b;
    } else {
      assert (a + b)[1..] == a[1..] + b;
      ReversedAppend(a[1..], b);
    }
  }

  /**
    The child slots of `e`, listed in the order the iterator visits them
    (the reverse of the order in which it pushes them). The annotation is
    not a child slot here; it is visited after all of them.
  */
  function Children(e: Expr): (r: seq<Option<Expr>>)
    ensures Below(r, e)
    ensures IsLeaf(e) ==> r == []
  {
    match e
    case IntLit(_) => []
    case FloatLit(_) => []
    case SetLit(_, v) => ElemsBelow(v, e); Elems(v)
    case BoolLit(_) => []
    case StringLit(_) => []
    case Id(_) => []
    case AnonVar(_) => []
    case ArrayLit(_, v) => ElemsBelow(v, e); Elems(v)
    case ArrayAccess(_, arr, idx) => ElemsBelow(idx, e); [arr] + Elems(idx)
    case Comprehension(_, elem, gens, filter) => [elem] + GenSlots(gens, e) + [filter]
    case ITE(_, branches, orElse) => BranchSlots(branches, e) + [orElse]
    case BinOp(_, lhs, rhs) => [lhs, rhs]
    case UnOp(_, operand) => [operand]
    case Call(_, args) => ElemsBelow(args, e); Elems(args)
    case VarDecl(_, ti, init) => [ti, init]
    case Let(_, decls, body) => ElemsBelow(decls, e); Elems(decls) + [body]
    case Annotation(_, annotated, annot) => [annotated, annot]
    case TypeInst(_, ranges, domain) => ElemsBelow(ranges, e); Elems(ranges) + [domain]
  }

  /** Generators in declared order, each its source first and then its declarations. */
  function GenSlots(gens: seq<Generator>, ghost parent: Expr): (r: seq<Option<Expr>>)
    requires forall k | 0 <= k < |gens| :: gens[k] < parent
    ensures Below(r, parent)
  {
    if gens == [] then []
    else
      ElemsBelow(gens[0].decls, parent);
      [gens[0].source] + Elems(gens[0].decls) + GenSlots(gens[1..], parent)
  }

  /** If-then pairs from the last to the first, each condition before its branch. */
  function BranchSlots(branches: seq<(Option<Expr>, Option<Expr>)>, ghost parent: Expr): (r: seq<Option<Expr>>)
    requires forall k | 0 <= k < |branches| :: branches[k] < parent
    ensures Below(r, parent)
  {
    if branches == [] then []
    else
      var last := branches[|branches| - 1];
      [last.0, last.1] + BranchSlots(branches[..|branches| - 1], parent)
  }

  function Flatten<T>(ss: seq<seq<T>>): seq<T> {
    if ss == [] then [] else ss[0] + Flatten(ss[1..])
  }

  function Sum(ns: seq<nat>): nat {
    if ns == [] then 0 else ns[0] + Sum(ns[1..])
  }

  /** Post-order of an optional node: a null slot contributes nothing. */
  function PostOpt(o: Option<Expr>): seq<Expr>
    decreases o
  {
    match o
    case None => []
    case Some(c) => PostOrder(c)
  }

  /**
    The recursive post-order of `e`: every child slot in visiting order,
    then the annotation, then `e` itself. Shared sub-trees are listed once
    per occurrence.
  */
  function PostOrder(e: Expr): seq<Expr>
    decreases e
  {
    var slots := Children(e) + [e.ann];
    Flatten(seq(|slots|, i requires 0 <= i < |slots| => PostOpt(slots[i]))) + [e]
  }

  /** Post-order of a sequence of slots, in sequence order. */
  function PostSeq(s: seq<Option<Expr>>): seq<Expr> {
    if s == [] then [] else PostOpt(s[0]) + PostSeq(s[1..])
  }

  /** Number of nodes and null slots in the tree of `o` (a null slot counts 1). */
  function OptSize(o: Option<Expr>): (n: nat)
    decreases o
  {
    match o
    case None => 1
    case Some(c) => Size(c)
  }

  function Size(e: Expr): (n: nat)
    decreases e
  {
    var slots := Children(e) + [e.ann];
    1 + Sum(seq(|slots|, i requires 0 <= i < |slots| => OptSize(slots[i])))
  }

  function SizeSeq(s: seq<Option<Expr>>): nat {
    if s == [] then 0 else OptSize(s[0]) + SizeSeq(s[1..])
  }

  lemma {:induction false} FlattenPostOpt(s: seq<Option<Expr>>)
    ensures Flatten(seq(|s|, i requires 0 <= i < |s| => PostOpt(s[i]))) == PostSeq(s)
  {
    if s != [] {
      var m := seq(|s|, i requires 0 <= i < |s| => PostOpt(s[i]));
      assert m[1..] == seq(|s[1..]|, i requires 0 <= i < |s[1..]| => PostOpt(s[1..][i]));
      FlattenPostOpt(s[1..]);
    }
  }

  lemma {:induction false} SumOptSize(s: seq<Option<Expr>>)
    ensures Sum(seq(|s|, i requires 0 <= i < |s| => OptSize(s[i]))) == SizeSeq(s)
  {
    if s != [] {
      var m := seq(|s|, i requires 0 <= i < |s| => OptSize(s[i]));
      assert m[1..] == seq(|s[1..]|, i requires 0 <= i < |s[1..]| => OptSize(s[1..][i]));
      SumOptSize(s[1..]);
    }
  }

  /** A node's size exceeds the sizes of all its slots and its annotation together. */
  lemma SizeUnfold(e: Expr)
    ensures Size(e) == 1 + SizeSeq(Children(e) + [e.ann])
  {
    SumOptSize(Children(e) + [e.ann]);
  }

  lemma {:induction false} PostSeqAppend(a: seq<Option<Expr>>, b: seq<Option<Expr>>)
    ensures PostSeq(a + b) == PostSeq(a) + PostSeq(b)
  {
    if a == [] {
      assert a + b == b;
    } else {
      assert (a + b)[1..] == a[1..] + b;
      PostSeqAppend(a[1..], b);
    }
  }

  lemma {:induction false} SizeSeqAppend(a: seq<Option<Expr>>, b: seq<Option<Expr>>)
    ensures SizeSeq(a + b) == SizeSeq(a) + SizeSeq(b)
  {
    if a == [] {
      assert a + b == b;
    } else {
      assert (a + b)[1..] == a[1..] + b;
      SizeSeqAppend(a[1..], b);
    }
  }

  /**
    The shape of the post-order: the child slots in visiting order, then
    the annotation (after every child), then the node itself, last.
  */
  lemma PostOrderShape(e: Expr)
    ensures PostOrder(e) == PostSeq(Children(e)) + PostOpt(e.ann) + [e]
    ensures PostOrder(e)[|PostOrder(e)| - 1] == e
  {
    var kids := Children(e);
    var slots := kids + [e.ann];
    assert PostOrder(e) == Flatten(seq(|slots|, i requires 0 <= i < |slots| => PostOpt(slots[i]))) + [e];
    FlattenPostOpt(slots);
    PostSeqAppend(kids, [e.ann]);
    PostSeqOne(e.ann);
  }

  /**
    The trace of the k-th slot of `s` is the contiguous block that starts
    right after the traces of the earlier slots.
  */
  lemma {:induction false} PostSeqSlot(s: seq<Option<Expr>>, k: nat)
    requires k < |s|
    ensures |PostSeq(s[..k])| + |PostOpt(s[k])| <= |PostSeq(s)|
    ensures PostSeq(s)[|PostSeq(s[..k])| .. |PostSeq(s[..k])| + |PostOpt(s[k])|] == PostOpt(s[k])
  {
    assert s == s[..k] + [s[k]] + s[k + 1..];
    PostSeqAppend(s[..k] + [s[k]], s[k + 1..]);
    PostSeqAppend(s[..k], [s[k]]);
    assert PostSeq([s[k]]) == PostOpt(s[k]) + PostSeq([]);
  }

  /**
    Bottom-up order: the trace of every child slot and of the annotation
    of `e` is a contiguous block of the trace of `e` that ends before the
    callback of `e` itself, and the blocks follow the visiting order.
  */
  lemma SubtreesBeforeNode(e: Expr, k: nat)
    requires k <= |Children(e)|
    ensures var slots := Children(e) + [e.ann];
            var start := |PostSeq(slots[..k])|;
            start + |PostOpt(slots[k])| < |PostOrder(e)| &&
            PostOrder(e)[start .. start + |PostOpt(slots[k])|] == PostOpt(slots[k])
  {
    var slots := Children(e) + [e.ann];
    var t := PostSeq(slots);
    assert PostOrder(e) == t + [e] by {
      PostOrderShape(e);
      PostSeqAppend(Children(e), [e.ann]);
      PostSeqOne(e.ann);
    }
    PostSeqSlot(slots, k);
    SliceOfPrefix(t, [e], |PostSeq(slots[..k])|, |PostSeq(slots[..k])| + |PostOpt(slots[k])|);
  }

  lemma SliceOfPrefix<T>(t: seq<T>, u: seq<T>, i: nat, j: nat)
    requires i <= j <= |t|
    ensures (t + u)[i..j] == t[i..j]
  {
  }

  /** Leaf kinds contribute only their annotation's trace before themselves. */
  lemma LeafOrder(e: Expr)
    requires IsLeaf(e)
    ensures PostOrder(e) == PostOpt(e.ann) + [e]
  {
    PostOrderShape(e);
  }

  lemma PostSeqPair(a: Option<Expr>, b: Option<Expr>)
    ensures PostSeq([a, b]) == PostOpt(a) + PostOpt(b)
  {
    assert [a, b][1..] == [b];
    assert PostSeq([b]) == PostOpt(b) + PostSeq([]);
  }

  lemma PostSeqOne(a: Option<Expr>)
    ensures PostSeq([a]) == PostOpt(a)
  {
    assert PostSeq([a]) == PostOpt(a) + PostSeq([]);
  }

  /** The kinds with a fixed number of child slots visit them left to right. */
  lemma FixedOrder(e: Expr)
    ensures e.BinOp? ==> PostOrder(e) == PostOpt(e.lhs) + PostOpt(e.rhs) + PostOpt(e.ann) + [e]
    ensures e.UnOp? ==> PostOrder(e) == PostOpt(e.operand) + PostOpt(e.ann) + [e]
    ensures e.VarDecl? ==> PostOrder(e) == PostOpt(e.ti) + PostOpt(e.init) + PostOpt(e.ann) + [e]
    ensures e.Annotation? ==> PostOrder(e) == PostOpt(e.annotated) + PostOpt(e.annot) + PostOpt(e.ann) + [e]
  {
    PostOrderShape(e);
    match e
    case BinOp(_, l, r) => PostSeqPair(l, r);
    case UnOp(_, x) => PostSeqOne(x);
    case VarDecl(_, t, i) => PostSeqPair(t, i);
    case Annotation(_, x, a) => PostSeqPair(x, a);
    case _ =>
  }

  /**
    The kinds with vector children visit the vector in index order; a null
    vector contributes nothing.
  */
  lemma VectorOrder(e: Expr)
    ensures e.SetLit? || e.ArrayLit? ==> PostOrder(e) == PostSeq(Elems(e.v)) + PostOpt(e.ann) + [e]
    ensures e.Call? ==> PostOrder(e) == PostSeq(Elems(e.args)) + PostOpt(e.ann) + [e]
    ensures e.ArrayAccess? ==> PostOrder(e) == PostOpt(e.arr) + PostSeq(Elems(e.idx)) + PostOpt(e.ann) + [e]
    ensures e.Let? ==> PostOrder(e) == PostSeq(Elems(e.decls)) + PostOpt(e.body) + PostOpt(e.ann) + [e]
    ensures e.TypeInst? ==> PostOrder(e) == PostSeq(Elems(e.ranges)) + PostOpt(e.domain) + PostOpt(e.ann) + [e]
  {
    PostOrderShape(e);
    match e
    case ArrayAccess(_, arr, idx) =>
      PostSeqAppend([arr], Elems(idx));
      PostSeqOne(arr);
    case Let(_, decls, body) =>
      PostSeqAppend(Elems(decls), [body]);
      PostSeqOne(body);
    case TypeInst(_, ranges, domain) =>
      PostSeqAppend(Elems(ranges), [domain]);
      PostSeqOne(domain);
    case _ =>
  }

  /** Generators in declared order, each its source and then its declarations. */
  function PostGens(gens: seq<Generator>): seq<Expr> {
    if gens == [] then []
    else PostOpt(gens[0].source) + PostSeq(Elems(gens[0].decls)) + PostGens(gens[1..])
  }

  lemma {:induction false} PostGenSlots(gens: seq<Generator>, parent: Expr)
    requires forall k | 0 <= k < |gens| :: gens[k] < parent
    ensures PostSeq(GenSlots(gens, parent)) == PostGens(gens)
  {
    if gens != [] {
      var g := gens[0];
      PostGenSlots(gens[1..], parent);
      PostSeqAppend([g.source] + Elems(g.decls), GenSlots(gens[1..], parent));
      PostSeqAppend([g.source], Elems(g.decls));
      PostSeqOne(g.source);
    }
  }

  /**
    A comprehension visits its yield expression first, then each generator
    in declared order (source, then declared variables), then the filter.
  */
  lemma ComprehensionOrder(e: Expr)
    requires e.Comprehension?
    ensures PostOrder(e) == PostOpt(e.elem) + PostGens(e.gens) + PostOpt(e.filter) + PostOpt(e.ann) + [e]
  {
    PostOrderShape(e);
    var gs := GenSlots(e.gens, e);
    PostSeqAppend([e.elem] + gs, [e.filter]);
    PostSeqAppend([e.elem], gs);
    PostSeqOne(e.elem);
    PostSeqOne(e.filter);
    PostGenSlots(e.gens, e);
  }

  /** If-then pairs in the order given, each condition before its branch. */
  function PostPairs(ps: seq<(Option<Expr>, Option<Expr>)>): seq<Expr> {
    if ps == [] then [] else PostOpt(ps[0].0) + PostOpt(ps[0].1) + PostPairs(ps[1..])
  }

  lemma {:induction false} PostBranchSlots(branches: seq<(Option<Expr>, Option<Expr>)>, parent: Expr)
    requires forall k | 0 <= k < |branches| :: branches[k] < parent
    ensures PostSeq(BranchSlots(branches, parent)) == PostPairs(Reversed(branches))
  {
    if branches != [] {
      var n := |branches|;
      var init := branches[..n - 1];
      var last := branches[n - 1];
      PostBranchSlots(init, parent);
      PostSeqAppend([last.0, last.1], BranchSlots(init, parent));
      PostSeqPair(last.0, last.1);
      assert branches == init + [last];
      ReversedAppend(init, [last]);
      assert Reversed([last]) == [last];
      var rv := [last] + Reversed(init);
      assert rv[1..] == Reversed(init);
    }
  }

  /**
    An if-then-else chain visits its (condition, branch) pairs from the
    last pair to the first, then the else-branch (nothing when null).
  */
  lemma ITEOrder(e: Expr)
    requires e.ITE?
    ensures PostOrder(e) == PostPairs(Reversed(e.branches)) + PostOpt(e.orElse) + PostOpt(e.ann) + [e]
  {
    PostOrderShape(e);
    PostSeqAppend(BranchSlots(e.branches, e), [e.orElse]);
    PostSeqOne(e.orElse);
    PostBranchSlots(e.branches, e);
  }

  /** A node shared by two slots is visited once per occurrence, not once per identity. */
  lemma SharedSubtreeTwice(x: Expr)
    ensures PostOrder(BinOp(None, Some(x), Some(x))) == PostOrder(x) + PostOrder(x) + [BinOp(None, Some(x), Some(x))]
  {
    FixedOrder(BinOp(None, Some(x), Some(x)));
  }
}
