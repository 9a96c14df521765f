# MiniZinc: bottom-up expression iterator and HTML documentation printer

This project models two parts of libminizinc in Dafny and proves properties of them.

**The bottom-up iterator.** `BottomUpIterator::run` in
include/minizinc/astiterator.hh walks an expression graph in post-order
without recursion. It uses an explicit stack of frames, each holding a
node and a "done" flag.
- Module `Ast` gives the expression kinds and the visiting order of each
  kind's child slots (`Children`). It defines the recursive post-order
  `PostOrder` that the traversal must produce.
- Module `AstIterator` holds the stack machine itself (`Run`), `pushVec`
  (`PushVec`) and the per-kind pushes (`PushChildren`).
- `Run` is proved to emit exactly `PostOrder(root)`: the sequence of
  visitor callbacks is returned as a trace.
- The proof keeps one invariant: the trace so far, followed by what the
  stack still owes (`Todo`), is the whole post-order. A weight on the
  stack decreases with every iteration.

**The HTML documentation printer.** These are the pieces of
lib/htmlprinter.cpp that turn documentation comments into grouped HTML.
- Module `DocStrings`: `extractArgWord` and `extractArgLine`, which cut a
  tag's argument out of a comment.
- Module `Markup`: `replaceArgs`, which wraps `\a` words in spans, and
  `replaceEOLs`, which turns line ends into `<br>`.
- Module `DocComment`:
  - the choice of group, `"main"` or the word after `@group`;
  - the `@param` loop of `vFunctionI`;
  - the order in which `vFunctionI` applies these steps.
- Module `HtmlDoc`:
  - `Group::toHTML`: a stable sort by (kind, name), then one `div` per
    run of equal kind;
  - `addToGroup` on the map from group names to groups.

Every operation that can throw `std::out_of_range` returns a `Result`.
That happens when `substr` is asked to start past the end of the string.

**Visiting order of comprehensions and if-then-else chains.** The order
follows from the order in which the code pushes frames:
- A comprehension (astiterator.hh:125-135) visits:
  - its yield expression first;
  - then each generator in turn, its source before its declarations;
  - then the filter.
- An if-then-else chain (astiterator.hh:136-145) pushes its pairs from
  first to last, so it visits its last (condition, then) pair first. Within
  a pair, the condition comes before the then-branch. The else-branch is
  visited last.

`Ast.ComprehensionOrder` and `Ast.ITEOrder` state these orders.

**The gap between two argument words.** `replaceArgs` copies the text
before each `\a` tag with `s.substr(lastpos, pos)`, which is too long for
every tag after the first (see Findings). `Markup.ReplaceArgs` takes the
slicing as a parameter:
- `AsWritten` models the code;
- `Intended` copies exactly the text between the words.

`DocComment.ReadFunctionDoc` takes the slicing as a parameter too. With
`AsWritten` it models `vFunctionI` as the code runs; with `Intended` it
models the corrected program.

## Model

| member | source | states |
|---|---|---|
| Ast.Children | include/minizinc/astiterator.hh:107-171 | every child slot of a node is structurally smaller than the node, and leaves (literals, identifiers, `_`) have no child slot |
| Ast.PostOrderShape | include/minizinc/astiterator.hh:102-106 | a node comes after all its children's subtrees, then after its annotation's subtree; the node itself is the last element |
| Ast.SubtreesBeforeNode | include/minizinc/astiterator.hh:103-171 | each child slot's subtree, and the annotation's subtree, appears whole and contiguous in the node's post-order, strictly before the node |
| Ast.LeafOrder | include/minizinc/astiterator.hh:108-114 | for a literal, identifier or `_`, only the annotation's subtree is visited before the node |
| Ast.FixedOrder | include/minizinc/astiterator.hh:146-167 | BinOp visits lhs then rhs; UnOp its operand; VarDecl the type-inst then the initializer; an annotated expression the expression then the annotation. Each is followed by the node's own annotation, then the node |
| Ast.VectorOrder | include/minizinc/astiterator.hh:115-124 | set and array literals and calls visit their vector in order. ArrayAccess visits the array then the indices; Let the declarations then the body; TypeInst the ranges then the domain |
| Ast.ComprehensionOrder | include/minizinc/astiterator.hh:125-135 | a comprehension visits the yield expression, then each generator in order (source before declarations), then the filter, then its annotation, then itself |
| Ast.ITEOrder | include/minizinc/astiterator.hh:136-145 | an if-then-else chain visits its (condition, then) pairs from last to first, condition before then; then the else-branch |
| Ast.SharedSubtreeTwice | include/minizinc/astiterator.hh:31-178 | there is no visited set: a subtree reachable through two slots is visited once per slot |
| Ast.ReversedAppend | include/minizinc/astiterator.hh:19-24 | reversing a concatenation reverses the order of the two parts; this is what a stack does to pushes |
| Ast.PostSeqAppend | include/minizinc/astiterator.hh:31-178 | the post-order of consecutive slots is the concatenation of their post-orders |
| AstIterator.PushVec | include/minizinc/astiterator.hh:19-24 | `pushVec` pushes one unexpanded frame per element, last element first, so that the first is on top; a null vector pushes nothing |
| AstIterator.PushGenerators | include/minizinc/astiterator.hh:127-133 | the comprehension's generator loop pushes each generator's frames, last generator first, so they pop in declared order |
| AstIterator.PushBranches | include/minizinc/astiterator.hh:138-143 | the if-then-else loop pushes each pair (then-branch below condition), first pair first |
| AstIterator.PushChildren | include/minizinc/astiterator.hh:107-175 | the frames the kind switch pushes are the node's child slots, reversed, so that they pop in visiting order |
| AstIterator.PushOrderPair | include/minizinc/astiterator.hh:146-149 | BinOp, VarDecl and annotated expressions push their second child, then their first |
| AstIterator.PushOrderUnOp | include/minizinc/astiterator.hh:150-152 | UnOp pushes its single operand |
| AstIterator.PushOrderVecThenSlot | include/minizinc/astiterator.hh:160-171 | Let pushes the body, then the declarations; TypeInst pushes the domain, then the ranges |
| AstIterator.PushOrderArrayAccess | include/minizinc/astiterator.hh:121-124 | ArrayAccess pushes the indices, then the array expression |
| AstIterator.PushOrderComprehension | include/minizinc/astiterator.hh:125-135 | a comprehension pushes the filter, then the generators from last to first, then the yield expression |
| AstIterator.PushOrderITE | include/minizinc/astiterator.hh:136-145 | an if-then-else chain pushes the else-branch, then the pairs |
| AstIterator.TodoPushReversed | include/minizinc/astiterator.hh:19-24 | pushing slots in reverse adds their post-order on top of what the stack already owes |
| AstIterator.WeightPushReversed | include/minizinc/astiterator.hh:19-24 | pushing slots in reverse adds at most twice their size to the stack's weight |
| AstIterator.Pop | include/minizinc/astiterator.hh:36-40 | proof step of `Run`, unfolding `Todo` and `Weight` once: popping the top frame removes exactly that frame's remaining callbacks and its weight |
| AstIterator.MarkedTodo | include/minizinc/astiterator.hh:103-106 | marking the top frame done and pushing the annotation leaves owed: the annotation's subtree, then the node |
| AstIterator.ExpandKeepsTodo | include/minizinc/astiterator.hh:102-175 | expanding an unexpanded frame (mark, push the annotation, push the children) leaves the remaining callbacks unchanged |
| AstIterator.ExpandLowersWeight | include/minizinc/astiterator.hh:102-175 | expanding a frame strictly lowers the stack's weight, so the loop terminates |
| AstIterator.Run | include/minizinc/astiterator.hh:31-178 | the callbacks, in order, are the post-order of the root: each reachable node once per path, after its children and its annotation; a null root gives no callback |
| DocStrings.Find | lib/htmlprinter.cpp:160 | `std::string::find`: the first match at or after the start position, or none |
| DocStrings.SkipTag | lib/htmlprinter.cpp:81-83 | the first loop stops at the first blank after the tag, or at the end |
| DocStrings.SkipBlanks | lib/htmlprinter.cpp:84-85 | the second loop stops at the first non-blank, or at the end |
| DocStrings.ScanWord | lib/htmlprinter.cpp:87-88 | the word loop stops at the first character that is not alphanumeric or `_` |
| DocStrings.ScanTo | lib/htmlprinter.cpp:100-105 | the scan stops at the first occurrence of the character, or at the end |
| DocStrings.ArgWord | lib/htmlprinter.cpp:80-92 | the word's first character is the first non-blank after the tag and the rest are word characters; the word is maximal; the tag, blanks and word are cut out; it fails exactly when only blanks follow the tag |
| DocStrings.SkipToArg | lib/htmlprinter.cpp:81-85 | the two skip loops end where the argument starts |
| DocStrings.ScanWordFrom | lib/htmlprinter.cpp:86-88 | the word loop ends where the word ends |
| DocStrings.ExtractArgWord | lib/htmlprinter.cpp:80-92 | `extractArgWord` returns the word and the shortened string that `ArgWord` describes, or fails where it does |
| DocStrings.ArgLine | lib/htmlprinter.cpp:93-109 | the argument runs to the next `:` after its first character and the text from there to the line end; both and the tag are cut out, the newline stays; it fails exactly when no `:` follows |
| DocStrings.ArgLineSeparators | lib/htmlprinter.cpp:99-105 | the argument holds no `:` past its first character, and the text holds no newline |
| DocStrings.ScanToFrom | lib/htmlprinter.cpp:99-105 | the `:` and newline loops end where `ScanTo` says |
| DocStrings.ExtractArgLine | lib/htmlprinter.cpp:93-109 | `extractArgLine` returns the pair and the shortened string that `ArgLine` describes, or fails where it does |
| Markup.WordAt | lib/htmlprinter.cpp:120-127 | the word after a `\a` tag is a well-formed argument word ending past the tag, or the scan runs past the end of the string |
| Markup.WordAtArgWord | lib/htmlprinter.cpp:120-128 | the word `replaceArgs` records at a tag is exactly the word `extractArgWord` cuts there (the first non-blank after the tag, then a maximal run of word characters), and the loop resumes right after it; the scan runs past the end exactly when `extractArgWord` would fail |
| Markup.Rounds | lib/htmlprinter.cpp:118-133 | the loop from a tag collects at least one word, each well formed |
| Markup.Replaced | lib/htmlprinter.cpp:111-136 | without a `\a` tag the string and the (empty) word list are untouched, and only then; otherwise every collected word is well formed |
| Markup.RoundStep | lib/htmlprinter.cpp:118-133 | one round appends the text before the tag, the wrapped word and the word; the loop then goes on from the next tag, or copies the rest and stops (or fails past the end) |
| Markup.Round | lib/htmlprinter.cpp:119-127 | the body of one round computes the gap by the chosen slicing, the word, and the word's end |
| Markup.ReplaceArgs | lib/htmlprinter.cpp:111-136 | `replaceArgs` returns the words and the rewritten string that `Replaced` describes, for the slicing as written or as intended |
| Markup.OneTag | lib/htmlprinter.cpp:111-136 | with one tag, the result is the text before it, the span, and the text after the word |
| Markup.TwoTags | lib/htmlprinter.cpp:111-136 | with two tags, the second gap is copied by the chosen slicing |
| Markup.TwoTagsAsWritten | lib/htmlprinter.cpp:119 | as written, the second gap is `p2` characters from the first word's end, not the `p2 - e1` up to the second tag |
| Markup.TwoTagsIntended | lib/htmlprinter.cpp:119 | with the intended slicing, the second gap is exactly the text between the two words |
| Markup.FirstRound | lib/htmlprinter.cpp:114-131 | the first round copies everything before the first tag |
| Markup.LastRound | lib/htmlprinter.cpp:131-133 | proof step of `ReplaceArgs`, unfolding `Rounds` once: the last round ends with the rest of the string after its word |
| Markup.RepeatedText | lib/htmlprinter.cpp:119 | on `\a x \a y` the code repeats ` \a y` in its output, where the intended output has a single blank between the two spans |
| Markup.BreakLinesAppend | lib/htmlprinter.cpp:138-150 | line-break replacement distributes over concatenation |
| Markup.BreakLinesPlain | lib/htmlprinter.cpp:149 | text without a line end is copied unchanged |
| Markup.BreakLinesNoNewline | lib/htmlprinter.cpp:138-150 | the output holds no line end |
| Markup.BreakLinesLength | lib/htmlprinter.cpp:138-150 | the output is three characters longer per line end |
| Markup.ReplaceEOLs | lib/htmlprinter.cpp:138-150 | `replaceEOLs` writes the string with every `\n` replaced by `<br>` |
| Markup.LineStep | lib/htmlprinter.cpp:144-146 | one round copies the line and appends `<br>` |
| Markup.LineGap | lib/htmlprinter.cpp:142-147 | the line copied in a round holds no line end |
| Markup.LastLine | lib/htmlprinter.cpp:149 | after the last line end the rest is copied as is |
| DocComment.TagSkipped | lib/htmlprinter.cpp:81-83 | at a tag without blanks, the first skip loop passes the whole tag |
| DocComment.ParamCut | lib/htmlprinter.cpp:93-109 | cutting a `@param` line removes at least 8 characters, and the text holds no line end |
| DocComment.DocGroup | lib/htmlprinter.cpp:159-163 | the group is `"main"` and the comment is untouched when there is no `@group`. Otherwise the result is exactly `extractArgWord` at the first `@group` (`ArgWord`): the group is the first non-blank after the tag followed by a maximal run of word characters, and the tag, the blanks and the word are cut out of the comment, which keeps the text before the tag. It fails exactly when only blanks follow the tag |
| DocComment.Params | lib/htmlprinter.cpp:188-193 | a comment without `@param` gives no pair and stays as it is |
| DocComment.ParamsStep | lib/htmlprinter.cpp:190-193 | proof step of `CollectParams` and the `Params*` lemmas, unfolding `Params` once: one round takes the first `@param` line's pair, shortens the comment, and goes on with the rest; a failing line fails the loop |
| DocComment.ParamsExhaust | lib/htmlprinter.cpp:190-193 | when the loop ends, no `@param` is left in the comment |
| DocComment.ParamsOneLine | lib/htmlprinter.cpp:93-109 | every parameter's text lies within one line |
| DocComment.ParamsShrink | lib/htmlprinter.cpp:188-193 | each pair taken shortens the comment by at least 8 characters, so the loop ends |
| DocComment.CollectParams | lib/htmlprinter.cpp:188-193 | the `@param` loop returns the pairs in comment order and the shortened comment, as `Params` describes, or fails |
| DocComment.ReadFunctionDoc | lib/htmlprinter.cpp:181-195 | `vFunctionI` succeeds exactly when the group, the parameter lines and the argument words can all be read, in that order. Each later step works on what the previous one left. The argument words are wrapped with the given slicing: `AsWritten` as the code does, `Intended` corrected |
| HtmlDoc.StrLessIrreflexive | lib/htmlprinter.cpp:41 | no name is less than itself |
| HtmlDoc.StrLessTransitive | lib/htmlprinter.cpp:41 | the name order is transitive |
| HtmlDoc.StrLessTotal | lib/htmlprinter.cpp:41 | of two different names, one is less than the other |
| HtmlDoc.ItemLessIrreflexive | lib/htmlprinter.cpp:39-43 | `SortById` is irreflexive |
| HtmlDoc.ItemLessTransitive | lib/htmlprinter.cpp:39-43 | `SortById` is transitive |
| HtmlDoc.ItemLessBelow | lib/htmlprinter.cpp:39-43 | below one item and not above another means below the other: incomparability is transitive, so the order is a strict weak order |
| HtmlDoc.ItemLessTies | lib/htmlprinter.cpp:39-43 | two items are incomparable exactly when they have the same kind and name |
| HtmlDoc.Insert | lib/htmlprinter.cpp:44 | insertion adds exactly the item |
| HtmlDoc.StableSort | lib/htmlprinter.cpp:44 | the sort is a permutation of the items |
| HtmlDoc.InsertSorted | lib/htmlprinter.cpp:44 | inserting into a sorted sequence keeps it sorted |
| HtmlDoc.StableSortSorted | lib/htmlprinter.cpp:39-44 | the sort orders the items by kind, then by name |
| HtmlDoc.InsertKeyed | lib/htmlprinter.cpp:44 | an inserted item goes after the items with its key |
| HtmlDoc.StableSortKeyed | lib/htmlprinter.cpp:44 | the sort is stable: items with the same kind and name keep their order |
| HtmlDoc.RunsOfExtend | lib/htmlprinter.cpp:49-57 | an item of the current kind joins the current run |
| HtmlDoc.RunsOfNew | lib/htmlprinter.cpp:50-56 | an item of another kind starts a new run |
| HtmlDoc.Runs | lib/htmlprinter.cpp:49-57 | the items split into maximal non-empty runs of one kind that join back to the items |
| HtmlDoc.RunsSnoc | lib/htmlprinter.cpp:49-57 | proof step of `OpenHtmlStep`, unfolding `Runs` once: appending an item extends the last run or opens a new one, by its kind |
| HtmlDoc.SortedRunsAscend | lib/htmlprinter.cpp:44-57 | after the sort, the runs' kinds strictly ascend: at most one section per kind, in the order parameters, variables, functions |
| HtmlDoc.HtmlClosed | lib/htmlprinter.cpp:59-60 | a non-empty listing ends by closing the last section |
| HtmlDoc.OpenHtmlFirst | lib/htmlprinter.cpp:50-57 | the first item opens its kind's section, then its doc is written |
| HtmlDoc.OpenRenderExtend | lib/htmlprinter.cpp:57 | an item of the current kind adds only its doc |
| HtmlDoc.OpenRenderNew | lib/htmlprinter.cpp:50-57 | an item of a new kind closes the section, opens the next, then adds its doc |
| HtmlDoc.OpenHtmlStep | lib/htmlprinter.cpp:49-58 | one round of the printing loop in terms of the run rendering |
| HtmlDoc.PrintedStep | lib/htmlprinter.cpp:49-58 | proof step of `PrintRuns`, unfolding `Printed` once: one round of the printing loop, as the loop writes it |
| HtmlDoc.PrintedRuns | lib/htmlprinter.cpp:45-58 | what the loop has written after all the items is the runs rendering, the last section still open |
| HtmlDoc.PrintedHtml | lib/htmlprinter.cpp:45-61 | no item gives empty output; otherwise the output is the loop's output plus the last close |
| HtmlDoc.HtmlEmpty | lib/htmlprinter.cpp:59-61 | proof step of `PrintedHtml`: an empty group prints nothing |
| HtmlDoc.PrintRuns | lib/htmlprinter.cpp:45-61 | the printing loop over sorted items writes one section per run, each opened by its heading and closed once |
| HtmlDoc.Group.constructor | lib/htmlprinter.cpp:35 | a new group has the given name and no items |
| HtmlDoc.Group.ToHtml | lib/htmlprinter.cpp:38-62 | `toHTML` sorts the items in place, stably, and returns their sections; the name is unchanged |
| HtmlDoc.GroupMap.constructor | lib/htmlprinter.cpp:65 | a new map holds no group |
| HtmlDoc.GroupMap.AddToGroup | lib/htmlprinter.cpp:67-72 | a missing group is created with the group's name; the item is appended to that group; no other group or item changes |

## Left out

- The visitor's callbacks (`vIntLit` through `vTypeInst`, astiterator.hh:41-100) are modelled as appending the node to a trace. Their effects, and the payloads of nodes (values, names, types), are not modelled.
- The `assert(false)` defaults of both switches: the closed datatype leaves no other kind.
- The `C&` reference into the stack vector, which `push_back` can invalidate: the model rebuilds the top frame by value.
- include/minizinc/solver_instance_base.hh is not part of this model.
- `printHtml`, and the parts of `vVarDeclI` and `vFunctionI` that print declarations, types and the `@param` list, rely on `getAnnotation`, `eval_string`, the pretty printer and `GCLock`. Those are outside the modelled code, so the comment string is a parameter.
- The `std::cerr` traces in `replaceEOLs`, and the output stream: the output is returned as a string.
- The conversion of `end` between `int` and `size_t` in `extractArgWord`, `extractArgLine` and `replaceArgs`: positions are unbounded naturals.
- `isalnum` is taken in the "C" locale (ASCII). Characters and names compare by code point.
- Strings are sequences of characters, and positions count characters. `std::string` counts bytes, so the model matches the code only on text where every character is one byte (ASCII). On multi-byte UTF-8 text the code can cut a character in two: after `@group é`, `extractArgWord` takes only the first byte of `é` as the word. The model takes the whole `é`. The same holds for the first character of a `\a` word in `replaceArgs`.
- `std::stable_sort` is modelled by a stable insertion sort. Only its result is modelled, which the C++ standard fixes: sorted and stable.
- The `unordered_map` of groups is a Dafny map. The value semantics of `Group` in the map are modelled as one distinct object per key (`GroupMap.Valid`). Iteration order over the map is not modelled.
- HtmlDoc.Open keeps the missing closing quote of the `mzn-decl-type` class attribute as the code prints it.

## Findings

| source | as written | input that shows it | evidently intended | confidence | as-written member | corrected member |
|---|---|---|---|---|---|---|
| lib/htmlprinter.cpp:119 | `s.substr(lastpos, pos)` copies `pos` characters from the previous word's end | `\a x \a y` becomes `<span class='mzn-arg'>x</span> \a y<span class='mzn-arg'>y</span>` | `s.substr(lastpos, pos - lastpos)`, which gives `<span class='mzn-arg'>x</span> <span class='mzn-arg'>y</span>` | not executed | Markup.TwoTagsAsWritten, Markup.RepeatedText | Markup.TwoTagsIntended, DocComment.ReadFunctionDoc |
