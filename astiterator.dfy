/**
  The bottom-up iterator: an explicit work stack of frames, each a
  (possibly null) node and a `done` flag. A frame is examined twice: the
  first time it is marked done and the node's annotation and child slots
  are pushed, in the reverse of their visiting order; the second time the
  node's callback fires and the frame is popped. Null frames are popped
  with no callback.

  The visitor and its 18 callbacks are modelled as appending the visited
  node to a trace, so the trace is the sequence of callbacks fired.
*/
module AstIterator {
  import opened Wrappers
  import opened Ast

  /** A stack frame `C`: the node `_e` and the flag `_done`. */
  datatype Frame = Frame(node: Option<Expr>, done: bool)

  /** Fresh (not yet expanded) frames for the slots `s`, in the order given. */
  function Pending(s: seq<Option<Expr>>): (r: seq<Frame>)
    ensures |r| == |s|
    ensures forall k | 0 <= k < |s| :: r[k] == Frame(s[k], false)
  {
    seq(|s|, k requires 0 <= k < |s| => Frame(s[k], false))
  }

  /** The callbacks a frame still owes: a null frame none, a done frame its own. */
  function FrameTodo(f: Frame): seq<Expr> {
    match f.node
    case None => []
    case Some(n) => if f.done then [n] else PostOrder(n)
  }

  /** The callbacks the whole stack still owes, top (the last element) first. */
  function Todo(stack: seq<Frame>): seq<Expr> {
    if stack == [] then []
    else FrameTodo(stack[|stack| - 1]) + Todo(stack[..|stack| - 1])
  }

  /** Termination measure of a frame: an unexpanded node weighs twice its size. */
  function FrameWeight(f: Frame): nat {
    match f.node
    case None => 1
    case Some(n) => if f.done then 1 else 2 * Size(n)
  }

  function Weight(stack: seq<Frame>): nat {
    if stack == [] then 0
    else FrameWeight(stack[|stack| - 1]) + Weight(stack[..|stack| - 1])
  }

  lemma {:induction false} TodoPushReversed(stack: seq<Frame>, s: seq<Option<Expr>>)
    ensures Todo(stack + Pending(Reversed(s))) == PostSeq(s) + Todo(stack)
  {
    if s == [] {
      assert stack + Pending(Reversed(s)) == stack;
    } else {
      var f := Frame(s[0], false);
      var inner := stack + Pending(Reversed(s[1..]));
      assert stack + Pending(Reversed(s)) == inner + [f] by {
        PendingAppend(Reversed(s[1..]), [s[0]]);
      }
      calc {
        Todo(inner + [f]);
        { TodoSnoc(inner, f); }
        FrameTodo(f) + Todo(inner);
        { TodoPushReversed(stack, s[1..]); }
        PostOpt(s[0]) + (PostSeq(s[1..]) + Todo(stack));
        { Assoc(PostOpt(s[0]), PostSeq(s[1..]), Todo(stack)); }
        PostSeq(s) + Todo(stack);
      }
    }
  }

  lemma {:induction false} WeightPushReversed(stack: seq<Frame>, s: seq<Option<Expr>>)
    ensures Weight(stack + Pending(Reversed(s))) <= 2 * SizeSeq(s) + Weight(stack)
  {
    if s == [] {
      assert stack + Pending(Reversed(s)) == stack;
    } else {
      var f := Frame(s[0], false);
      var inner := stack + Pending(Reversed(s[1..]));
      assert stack + Pending(Reversed(s)) == inner + [f] by {
        PendingAppend(Reversed(s[1..]), [s[0]]);
      }
      TodoSnoc(inner, f);
      WeightPushReversed(stack, s[1..]);
    }
  }

  lemma TodoSnoc(stack: seq<Frame>, f: Frame)
    ensures Todo(stack + [f]) == FrameTodo(f) + Todo(stack)
    ensures Weight(stack + [f]) == FrameWeight(f) + Weight(stack)
  {
    assert (stack + [f])[..|stack|] == stack;
  }

  lemma PendingAppend(a: seq<Option<Expr>>, b: seq<Option<Expr>>)
    ensures Pending(a + b) == Pending(a) + Pending(b)
  {
  }

  lemma VecStep(items: seq<Option<Expr>>, i: nat)
    requires i < |items|
    ensures Pending(Reversed(items[i..])) == Pending(Reversed(items[i + 1..])) + [Frame(items[i], false)]
  {
    assert items[i..] == [items[i]] + items[i + 1..];
    assert Reversed(items[i..]) == Reversed(items[i + 1..]) + [items[i]];
    PendingAppend(Reversed(items[i + 1..]), [items[i]]);
  }

  /**
    `pushVec`: pushes the elements of `v` from the last to the first, so
    that they are visited in index order; a null vector pushes nothing.
  */
  method PushVec(stack: seq<Frame>, v: Vec) returns (stack': seq<Frame>)
    ensures stack' == stack + Pending(Reversed(Elems(v)))
    ensures v.NullVec? ==> stack' == stack
  {
    stack' := stack;
    if v.ExprVec? {
      var items := v.items;
      var i := |items|;
      while i > 0
        invariant 0 <= i <= |items|
        invariant stack' == stack + Pending(Reversed(items[i..]))
      {
        i := i - 1;
        VecStep(items, i);
        Assoc(stack, Pending(Reversed(items[i + 1..])), [Frame(items[i], false)]);
        stack' := stack' + [Frame(items[i], false)];
      }
      assert items[0..] == items;
    }
  }

  lemma GenStep(gens: seq<Generator>, i: nat, parent: Expr)
    requires forall k | 0 <= k < |gens| :: gens[k] < parent
    requires i < |gens|
    ensures Pending(Reversed(GenSlots(gens[i..], parent)))
            == Pending(Reversed(GenSlots(gens[i + 1..], parent)))
               + (Pending(Reversed(Elems(gens[i].decls))) + [Frame(gens[i].source, false)])
  {
    var rest := GenSlots(gens[i + 1..], parent);
    var own := [gens[i].source] + Elems(gens[i].decls);
    assert gens[i..][1..] == gens[i + 1..];
    assert GenSlots(gens[i..], parent) == own + rest;
    ReversedAppend(own, rest);
    ReversedAppend([gens[i].source], Elems(gens[i].decls));
    PendingAppend(Reversed(rest), Reversed(Elems(gens[i].decls)) + [gens[i].source]);
    PendingAppend(Reversed(Elems(gens[i].decls)), [gens[i].source]);
  }

  /**
    The comprehension case of the switch: generators from the last to the
    first, each its declarations (by `pushVec`) and then its source.
  */
  method PushGenerators(stack: seq<Frame>, gens: seq<Generator>, ghost parent: Expr) returns (stack': seq<Frame>)
    requires forall k | 0 <= k < |gens| :: gens[k] < parent
    ensures stack' == stack + Pending(Reversed(GenSlots(gens, parent)))
  {
    stack' := stack;
    var i := |gens|;
    while i > 0
      invariant 0 <= i <= |gens|
      invariant stack' == stack + Pending(Reversed(GenSlots(gens[i..], parent)))
    {
      i := i - 1;
      ghost var prev := stack';
      ghost var done := Pending(Reversed(GenSlots(gens[i + 1..], parent)));
      ghost var decls := Pending(Reversed(Elems(gens[i].decls)));
      GenStep(gens, i, parent);
      stack' := PushVec(stack', gens[i].decls);
      stack' := stack' + [Frame(gens[i].source, false)];
      Assoc(prev, decls, [Frame(gens[i].source, false)]);
      Assoc(stack, done, decls + [Frame(gens[i].source, false)]);
    }
    assert gens[0..] == gens;
  }

  lemma BranchStep(branches: seq<(Option<Expr>, Option<Expr>)>, i: nat, parent: Expr)
    requires forall k | 0 <= k < |branches| :: branches[k] < parent
    requires i < |branches|
    ensures Pending(Reversed(BranchSlots(branches[..i + 1], parent)))
            == Pending(Reversed(BranchSlots(branches[..i], parent))) + [Frame(branches[i].1, false), Frame(branches[i].0, false)]
  {
    var done := BranchSlots(branches[..i], parent);
    assert branches[..i + 1][..i] == branches[..i];
    assert BranchSlots(branches[..i + 1], parent) == [branches[i].0, branches[i].1] + done;
    ReversedAppend([branches[i].0, branches[i].1], done);
    assert Reversed([branches[i].0, branches[i].1]) == [branches[i].1, branches[i].0];
    PendingAppend(Reversed(done), [branches[i].1, branches[i].0]);
  }

  /**
    The if-then-else case of the switch: for each pair from the first to
    the last, its branch and then its condition.
  */
  method PushBranches(stack: seq<Frame>, branches: seq<(Option<Expr>, Option<Expr>)>, ghost parent: Expr)
    returns (stack': seq<Frame>)
    requires forall k | 0 <= k < |branches| :: branches[k] < parent
    ensures stack' == stack + Pending(Reversed(BranchSlots(branches, parent)))
  {
    stack' := stack;
    for i := 0 to |branches|
      invariant stack' == stack + Pending(Reversed(BranchSlots(branches[..i], parent)))
    {
      ghost var prev := stack';
      ghost var done := Pending(Reversed(BranchSlots(branches[..i], parent)));
      BranchStep(branches, i, parent);
      stack' := stack' + [Frame(branches[i].1, false)];
      stack' := stack' + [Frame(branches[i].0, false)];
      Assoc(prev, [Frame(branches[i].1, false)], [Frame(branches[i].0, false)]);
      Assoc(stack, done, [Frame(branches[i].1, false), Frame(branches[i].0, false)]);
    }
    assert branches[..|branches|] == branches;
  }

  /** The frames pushed for a node with two fixed child slots: the second, then the first. */
  lemma PushOrderPair(n: Expr)
    requires n.BinOp? || n.VarDecl? || n.Annotation?
    ensures Pending(Reversed(Children(n))) == [Frame(Children(n)[1], false), Frame(Children(n)[0], false)]
    ensures n.BinOp? ==> Children(n) == [n.lhs, n.rhs]
    ensures n.VarDecl? ==> Children(n) == [n.ti, n.init]
    ensures n.Annotation? ==> Children(n) == [n.annotated, n.annot]
  {
    var c := Children(n);
    assert |c| == 2 && c == [c[0], c[1]];
    assert Reversed(c) == [c[1], c[0]];
  }

  lemma PushOrderUnOp(n: Expr)
    requires n.UnOp?
    ensures Pending(Reversed(Children(n))) == [Frame(n.operand, false)]
  {
    assert Reversed([n.operand]) == [n.operand];
  }

  /** A vector followed by one more slot: the slot is pushed first, then the vector. */
  lemma PushOrderVecThenSlot(n: Expr)
    requires n.Let? || n.TypeInst?
    ensures n.Let? ==> Pending(Reversed(Children(n))) == [Frame(n.body, false)] + Pending(Reversed(Elems(n.decls)))
    ensures n.TypeInst? ==> Pending(Reversed(Children(n))) == [Frame(n.domain, false)] + Pending(Reversed(Elems(n.ranges)))
  {
    var vs := if n.Let? then Elems(n.decls) else Elems(n.ranges);
    var last := if n.Let? then n.body else n.domain;
    assert Children(n) == vs + [last];
    ReversedAppend(vs, [last]);
    PendingAppend([last], Reversed(vs));
  }

  /** An array access: the index vector is pushed first, then the array. */
  lemma PushOrderArrayAccess(n: Expr)
    requires n.ArrayAccess?
    ensures Pending(Reversed(Children(n))) == Pending(Reversed(Elems(n.idx))) + [Frame(n.arr, false)]
  {
    ReversedAppend([n.arr], Elems(n.idx));
    PendingAppend(Reversed(Elems(n.idx)), [n.arr]);
  }

  lemma PushOrderComprehension(n: Expr)
    requires n.Comprehension?
    ensures Pending(Reversed(Children(n)))
            == [Frame(n.filter, false)] + Pending(Reversed(GenSlots(n.gens, n))) + [Frame(n.elem, false)]
  {
    var gs := GenSlots(n.gens, n);
    ReversedAppend([n.elem] + gs, [n.filter]);
    ReversedAppend([n.elem], gs);
    PendingAppend([n.filter], Reversed(gs));
    PendingAppend([n.filter] + Reversed(gs), [n.elem]);
  }

  lemma PushOrderITE(n: Expr)
    requires n.ITE?
    ensures Pending(Reversed(Children(n))) == [Frame(n.orElse, false)] + Pending(Reversed(BranchSlots(n.branches, n)))
  {
    ReversedAppend(BranchSlots(n.branches, n), [n.orElse]);
    PendingAppend([n.orElse], Reversed(BranchSlots(n.branches, n)));
  }

  /**
    The per-kind pushes of the not-done branch of `run`: the frames the
    switch pushes for the child slots of `n`, in push order, which is the
    reverse of the visiting order `Children(n)`.
  */
  method PushChildren(n: Expr) returns (pushed: seq<Frame>)
    ensures pushed == Pending(Reversed(Children(n)))
  {
    match n
    case IntLit(_) => pushed := [];
    case FloatLit(_) => pushed := [];
    case BoolLit(_) => pushed := [];
    case StringLit(_) => pushed := [];
    case AnonVar(_) => pushed := [];
    case Id(_) => pushed := [];
    case SetLit(_, v) => pushed := PushVec([], v);
    case ArrayLit(_, v) => pushed := PushVec([], v);
    case ArrayAccess(_, arr, idx) =>
      PushOrderArrayAccess(n);
      pushed := PushVec([], idx);
      pushed := pushed + [Frame(arr, false)];
    case Comprehension(_, elem, gens, filter) =>
      PushOrderComprehension(n);
      pushed := [Frame(filter, false)];
      pushed := PushGenerators(pushed, gens, n);
      pushed := pushed + [Frame(elem, false)];
    case ITE(_, branches, orElse) =>
      PushOrderITE(n);
      pushed := [Frame(orElse, false)];
      pushed := PushBranches(pushed, branches, n);
    case BinOp(_, lhs, rhs) =>
      PushOrderPair(n);
      pushed := [Frame(rhs, false)];
      pushed := pushed + [Frame(lhs, false)];
    case UnOp(_, operand) =>
      PushOrderUnOp(n);
      pushed := [Frame(operand, false)];
    case Call(_, args) => pushed := PushVec([], args);
    case VarDecl(_, ti, init) =>
      PushOrderPair(n);
      pushed := [Frame(init, false)];
      pushed := pushed + [Frame(ti, false)];
    case Let(_, decls, body) =>
      PushOrderVecThenSlot(n);
      pushed := [Frame(body, false)];
      pushed := PushVec(pushed, decls);
    case Annotation(_, annotated, annot) =>
      PushOrderPair(n);
      pushed := [Frame(annot, false)];
      pushed := pushed + [Frame(annotated, false)];
    case TypeInst(_, ranges, domain) =>
      PushOrderVecThenSlot(n);
      pushed := [Frame(domain, false)];
      pushed := PushVec(pushed, ranges);
  }

  /** Popping the top frame settles what it owes and what it weighs. */
  lemma Pop(stack: seq<Frame>)
    requires stack != []
    ensures Todo(stack) == FrameTodo(stack[|stack| - 1]) + Todo(stack[..|stack| - 1])
    ensures Weight(stack) == FrameWeight(stack[|stack| - 1]) + Weight(stack[..|stack| - 1])
  {
  }

  /** The stack after the top frame of `n` is marked done and its annotation, if any, is pushed. */
  function Marked(stack: seq<Frame>, n: Expr): seq<Frame>
    requires stack != []
  {
    var flipped := stack[|stack| - 1 := Frame(Some(n), true)];
    if n.ann.Some? then flipped + [Frame(n.ann, false)] else flipped
  }

  lemma MarkedTodo(stack: seq<Frame>, n: Expr)
    requires stack != [] && stack[|stack| - 1] == Frame(Some(n), false)
    ensures Todo(Marked(stack, n)) == PostOpt(n.ann) + [n] + Todo(stack[..|stack| - 1])
    ensures Weight(Marked(stack, n)) <= 2 * OptSize(n.ann) + 1 + Weight(stack[..|stack| - 1])
  {
    var rest := stack[..|stack| - 1];
    var top := Frame(Some(n), true);
    var flipped := stack[|stack| - 1 := top];
    assert flipped == rest + [top];
    TodoSnoc(rest, top);
    if n.ann.Some? {
      TodoSnoc(flipped, Frame(n.ann, false));
      Assoc(PostOpt(n.ann), [n], Todo(rest));
    } else {
      assert PostOpt(n.ann) + [n] == [n];
    }
  }

  /**
    Expanding the top frame of node `n` (marking it done, pushing the
    annotation when present, then the child slots) leaves the callbacks
    the stack owes unchanged.
  */
  lemma ExpandKeepsTodo(stack: seq<Frame>, n: Expr)
    requires stack != [] && stack[|stack| - 1] == Frame(Some(n), false)
    ensures Todo(Marked(stack, n) + Pending(Reversed(Children(n)))) == Todo(stack)
  {
    var rest := stack[..|stack| - 1];
    MarkedTodo(stack, n);
    TodoPushReversed(Marked(stack, n), Children(n));
    PostOrderShape(n);
    Assoc(PostSeq(Children(n)), PostOpt(n.ann) + [n], Todo(rest));
    Assoc(PostSeq(Children(n)), PostOpt(n.ann), [n]);
    Assoc(PostOpt(n.ann), [n], Todo(rest));
  }

  /** Expanding the top frame lowers the termination measure. */
  lemma ExpandLowersWeight(stack: seq<Frame>, n: Expr)
    requires stack != [] && stack[|stack| - 1] == Frame(Some(n), false)
    ensures Weight(Marked(stack, n) + Pending(Reversed(Children(n)))) < 2 * Size(n) + Weight(stack[..|stack| - 1])
  {
    MarkedTodo(stack, n);
    WeightPushReversed(Marked(stack, n), Children(n));
    SizeUnfold(n);
    SizeSeqAppend(Children(n), [n.ann]);
  }

  /**
    `BottomUpIterator::run`: the callbacks fired for `root` are exactly its
    recursive post-order, each node once per occurrence; a null root fires
    none.
  */
  method Run(root: Option<Expr>) returns (trace: seq<Expr>)
    ensures trace == PostOpt(root)
    ensures root.None? ==> trace == []
    ensures root.Some? ==> |trace| > 0 && trace[|trace| - 1] == root.value
  {
    var stack := [Frame(root, false)];
    trace := [];
    TodoSnoc([], Frame(root, false));
    assert [] + [Frame(root, false)] == stack;
    while stack != []
      invariant trace + Todo(stack) == PostOpt(root)
      decreases Weight(stack)
    {
      var top := stack[|stack| - 1];
      Pop(stack);
      if top.node.None? {
        assert Todo(stack) == Todo(stack[..|stack| - 1]);
        stack := stack[..|stack| - 1];
        continue;
      }
      var n := top.node.value;
      if top.done {
        Assoc(trace, [n], Todo(stack[..|stack| - 1]));
        trace := trace + [n];
        stack := stack[..|stack| - 1];
      } else {
        ExpandKeepsTodo(stack, n);
        ExpandLowersWeight(stack, n);
        ghost var expanded := Marked(stack, n) + Pending(Reversed(Children(n)));
        stack := stack[|stack| - 1 := Frame(top.node, true)];
        if n.ann.Some? {
          stack := stack + [Frame(n.ann, false)];
        }
        var pushed := PushChildren(n);
        stack := stack + pushed;
        assert stack == expanded;
      }
    }
    if root.Some? {
      PostOrderShape(root.value);
    }
  }
}
