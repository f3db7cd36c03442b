# Kernel-expression encoding, modelled in Dafny

This project models the encoding that the evolutionary kernel search uses for
composite Gaussian-process kernels. The kernels are sums and products of the
base kernels SE, RQ, LIN and PER. The encoding has five stages:

1. **Flattening.** `in_order` and `join_operands` in `autoks/kernel.py` turn a
   combination kernel into a nested list, with the operator between
   neighbouring parts.
2. **Tokenizing.** `tokenize` and `kernel_to_infix_tokens` expand that list
   into flat infix tokens with parentheses.
3. **Rendering.** `subkernel_expression` gives a base kernel its label (`SE0`,
   `LIN2`, ...). `tokens_to_str` joins the rendered tokens with spaces.
4. **Infix to postfix.** `infix_tokens_to_postfix_tokens` in
   `evalg/encoding.py` is a shunting-yard conversion with the precedence
   table `*` = 3, `+` = 1, `(` = 0.
5. **The binary expression tree.** `postfix_tokens_to_binexp_tree` builds a
   tree from postfix tokens. It reads them last to first and walks up parent
   links. The tree supports `select_postorder` (the node at a postorder
   index), `infix` (a parenthesised rendering) and the node `value` setter,
   which re-derives the node's label.

The Dafny modules follow the source files:

| file | module | what |
|---|---|---|
| `seqs.dfy` | `Seqs` | associativity of sequence concatenation |
| `wrappers.dfy` | `Wrappers` | `Option` and `Result` |
| `decimal.dfy` | `Decimal` | `str(n)` for a natural number |
| `kernel.dfy` | `Kernel` | all of `autoks/kernel.py` |
| `tree.dfy` | `Tree` | the node and tree classes of `evalg/encoding.py` |
| `builder.dfy` | `Builder` | `postfix_tokens_to_binexp_tree` |
| `shunting.dfy` | `Shunting` | `infix_tokens_to_postfix_tokens` |

## How the model is built

- **Kernels** form a closed datatype. A base kernel records the table classes
  `isinstance` accepts for it and its `active_dims`. A combination kernel is
  an `Add` or a `Prod` of parts.
- **Tokens** are `Plus | Times | LParen | RParen | Leaf(kernel)`.
- **Nested lists** are `Item(token) | Group(elems)`.
- **The tree** is a class over an arena. `BinaryTree` owns a sequence of nodes,
  and a node names its parent and children by index. `add_left`,
  `add_right`, the setter and the builder update the arena in place, through
  methods whose `modifies` clause names the tree. Appending keeps every child
  at a larger index than its parent. That ordering makes the recursive
  postorder and infix definitions terminate, and makes the upward walk well
  founded.
- **Loops are methods whose loop invariants are proved.** These loops are:
  - `join_operands`, `in_order`, `tokens_to_str` and `get_all_1d_kernels`;
  - the stack walk of `select_postorder`;
  - the builder's `for` loop and its upward `while` walk;
  - the shunting-yard loops.

  Each loop method is proved against a specification function:
  - `Joined` for `join_operands`;
  - `Flatten` for `in_order`;
  - `PostFrom`, the recursive postorder, for `select_postorder`;
  - `Outcome`, a count of free child slots, for the builder;
  - `Shunt` for the shunting-yard loops.

  Lemmas then state what the source promises about each of those functions.
- **Errors** are `Result` values. Three Python exceptions are modelled this way:
  - an empty `active_dims` or an unmatched kernel class in the label
    derivation;
  - `postfix_tokens[-1]` of an empty list, and `None.value` when the builder
    walks past the root;
  - `pop()` from an empty stack on an unmatched `)`.

## Intended behaviour and the code

In each case below the model does what the code does:

- **`tokenize`.** The parentheses are there to keep a nested sum or product
  together, so a sub-list should become `(`, its tokens, `)`. The code emits
  the `)` only after the tokens of the rest of the list
  (`autoks/kernel.py:82`). See "Findings".
- **The value setter.** The comment `# update label as well`
  (`evalg/encoding.py:28`) says that value and label change together. The
  code assigns `_value` before deriving the label, so when the derivation
  raises, the old label stays. See "Findings".
- **`select_postorder`.** An index outside the postorder is not an error: the
  code returns `None` for it, a negative index included
  (`evalg/encoding.py:109`).
- **Several matching codes.** A kernel that is an instance of more than one
  table class is not rejected. The code takes the first match in table order
  (`autoks/kernel.py:43`).
- **Excess operators.** `postfix_tokens_to_binexp_tree` does not check that
  its input is a well-formed postfix list. `[A, B, +, +]` builds without
  error and leaves the `left` slot of an operator node empty
  (`evalg/encoding.py:144-148`).

## Model

| member | source | states |
|---|---|---|
| `Kernel.KernelMapping` | autoks/kernel.py:5-14 | the mapping has exactly the four codes SE, RQ, LIN and PER as keys, each sent to its class position by position |
| `Kernel.KernelMappingInverse` | autoks/kernel.py:5-14 | the mapping is a bijection between codes and classes |
| `Kernel.MatchingPositions` | autoks/kernel.py:39 | the comprehension's first element is the first table position whose class the kernel is an instance of; the result is empty exactly when no class matches |
| `Kernel.MatchingPositionsExact` | autoks/kernel.py:39 | the comprehension keeps exactly the matching positions, in table order |
| `Kernel.SubkernelExpression` | autoks/kernel.py:36-45 | succeeds exactly when `active_dims` is non-empty and some class matches; an empty `active_dims` is reported first; the label is the first matching code followed by the decimal numeral of `active_dims[0]` |
| `Kernel.LabelIsAlphanumeric` | autoks/kernel.py:36-45 | every label is non-empty and made of capitals and digits |
| `Kernel.FirstMatchUnique` | autoks/kernel.py:39-43 | the first matching family is unique |
| `Kernel.CodeNumeralInjective` | autoks/kernel.py:45 | a code followed by a numeral determines both the code and the number |
| `Kernel.LabelIdentifiesKernel` | autoks/kernel.py:36-45 | two kernels with the same label match the same first family and have the same first active dimension |
| `Decimal.NatToDecimal` | autoks/kernel.py:45 | `str(dim)` is a non-empty string of digits, with no leading zero unless it is "0" |
| `Decimal.DecimalRoundTrip` | autoks/kernel.py:45 | reading the numeral back gives the number |
| `Decimal.NatToDecimalInjective` | autoks/kernel.py:45 | different numbers have different numerals |
| `Kernel.ExpandIndex` | autoks/kernel.py:17-33 | the expansion is family-major: family f and dimension d sit at position f * n_dims + d |
| `Kernel.FamilyMajorAt` | autoks/kernel.py:17-33 | in a family-major list, position f * n_dims + d holds family f with active dimension d |
| `Kernel.RowStartIsProduct` | autoks/kernel.py:27-31 | the start of family f's row is f * n_dims |
| `Kernel.GetAll1dKernels` | autoks/kernel.py:17-33 | fails exactly when some code is not in the mapping, naming the first such code; otherwise returns len(base_kernels) * n_dims kernels, family-major |
| `Kernel.Joined` | autoks/kernel.py:87-93 | the joined list has length 2 * n - 1 for n > 0 operands and is empty for none |
| `Kernel.JoinedLayout` | autoks/kernel.py:87-93 | the operands sit at the even positions, in order, and the operator at every odd position |
| `Kernel.JoinedSnoc` | autoks/kernel.py:87-93 | one more operand adds the operator and that operand at the end |
| `Kernel.JoinOperands` | autoks/kernel.py:87-93 | the loop returns the joined list |
| `Kernel.InOrder` | autoks/kernel.py:48-75 | `None` returns the accumulator; a base kernel is appended to it; a combinator appends one element per part, each nested combinator as its own flattened list, then joins everything with `+` for Add and `*` for Prod; with an empty accumulator the result is the flattening |
| `Kernel.TokenizeKeepsItems` | autoks/kernel.py:78-84 | deleting the parentheses from the tokens gives the depth-first flattening of the nested list, so no token is lost, added or reordered |
| `Kernel.TokenizeParenCounts` | autoks/kernel.py:78-84 | the tokens hold one `(` and one `)` per sub-list at any depth, on top of those already in the list |
| `Kernel.TokenizeBalanced` | autoks/kernel.py:78-84 | for a list without parenthesis items, every prefix of the tokens has at least as many `(` as `)`, and the totals are equal |
| `Kernel.TokenizeDoesNotDistribute` | autoks/kernel.py:82 | the `)` of a leading sub-list comes after the elements that follow it: `[[x], y]` gives `( x y )`, not `( x ) y` |
| `Kernel.TokenizeGroupedDistributes` | autoks/kernel.py:82 | the corrected tokenizer keeps each element's tokens together: tokens of a concatenation are the concatenation of the tokens |
| `Kernel.OperandsOfFlatten` | autoks/kernel.py:48-75 | the kernels in a flattened expression are its base kernels, depth first, left to right |
| `Kernel.ParenFreeFlatten` | autoks/kernel.py:48-75 | flattening inserts no parenthesis token |
| `Kernel.KernelToInfixTokens` | autoks/kernel.py:96-99 | the infix tokens are the tokenized flattening, and their kernels are the expression's base kernels in order |
| `Kernel.CollectSuccess` | autoks/kernel.py:102-113 | rendering all tokens succeeds exactly when every token renders, and then keeps every rendering in order |
| `Kernel.CollectFailure` | autoks/kernel.py:102-113 | a failed rendering reports the error of the first token that fails |
| `Kernel.JoinSpacesSnoc` | autoks/kernel.py:110-111 | one more word adds a single space and the word |
| `Kernel.SplitJoinSpaces` | autoks/kernel.py:102-113 | splitting the joined string at its spaces gives back the words, so there is exactly one space between neighbours and none at either end |
| `Kernel.TokenTextIsWord` | autoks/kernel.py:105-108 | every rendered token is a non-empty word without spaces |
| `Kernel.TokensToStr` | autoks/kernel.py:102-113 | the loop fails with the first rendering error; otherwise it returns the renderings joined by single spaces |
| `Kernel.TokensToStrSplits` | autoks/kernel.py:102-113 | the string the loop builds splits back into the individual token renderings |
| `Tree.NewNode` | evalg/encoding.py:16-19 | a new node exists exactly when its label can be derived; it holds the value, the derived label and the given parent, and has no children |
| `Tree.AttachNode` | evalg/encoding.py:43-49 | attaching a fresh leaf keeps the arena well formed and every label fresh |
| `Tree.BinaryTree.constructor` | evalg/encoding.py:80-83 | a new tree has no root and no nodes |
| `Tree.BinaryTree.SetRoot` | evalg/encoding.py:135-136 | the root becomes a fresh parentless node with the token, or the label error is raised and the tree is unchanged |
| `Tree.BinaryTree.AddLeft` | evalg/encoding.py:43-45 | a fresh leaf whose parent is the receiver is appended and installed as its left child and returned; every other field of every node is unchanged; a label error changes nothing |
| `Tree.BinaryTree.AddRight` | evalg/encoding.py:47-49 | the same for the right child |
| `Tree.AssignValueAsWritten` | evalg/encoding.py:25-29 | the setter as written: the value is always assigned; the label is updated only when its derivation succeeds, and otherwise the error is raised; parent and children are unchanged |
| `Tree.AsWrittenSetterLeavesStaleLabel` | evalg/encoding.py:25-29 | assigning a kernel without active dimensions to a `+` node leaves the label "+" on a kernel value |
| `Tree.AssignValue` | evalg/encoding.py:25-29 | the corrected setter sets value and label together, or raises and leaves the node as it was |
| `Tree.AssignValueKeepsLabelFresh` | evalg/encoding.py:16-29 | with the corrected setter, a node whose label is fresh keeps it fresh |
| `Tree.BinaryTree.SetValue` | evalg/encoding.py:25-29 | the setter on a node of the tree changes that node as the corrected setter says, and nothing else |
| `Tree.PostFromRange` | evalg/encoding.py:88-109 | the postorder of a subtree lists only nodes at or below its root index, and includes the root |
| `Tree.PostFromDistinct` | evalg/encoding.py:88-109 | the postorder of a subtree lists each node once |
| `Tree.SubtreesDisjoint` | evalg/encoding.py:88-109 | the left and right subtrees of a node share no node |
| `Tree.BinaryTree.Advance` | evalg/encoding.py:96-107 | one pass of the loop keeps the stack walk consistent with the recursive postorder, and a node it returns is the next one in postorder |
| `Tree.BinaryTree.SelectPostorder` | evalg/encoding.py:88-109 | returns the node at postorder position `i` for 0 <= i < the node count, and None for any other i, including a negative one; the tree is not modified |
| `Tree.InfixParens` | evalg/encoding.py:114-129 | the `(` (or `)`) in a subtree's rendering are one per operator node plus those inside the labels |
| `Tree.InfixParensBalanced` | evalg/encoding.py:114-129 | a tree without parenthesis values renders with exactly one `(` and one `)` per operator node |
| `Tree.LabelHasNoParens` | evalg/encoding.py:8-12 | a kernel's or an operator's label has no parenthesis |
| `Builder.PostfixToTree` | evalg/encoding.py:132-150 | fails exactly when `Outcome` says so, with that error; otherwise builds a tree with one node per token, whose root (node 0) holds the last token, whose postorder lists the input tokens in order, where every operand node has no children, where a node's `left` is filled only if its `right` is, and where every operator node has both children exactly when the free-slot count is zero |
| `Builder.Climb` | evalg/encoding.py:140-142 | the upward walk stops at the nearest ancestor that is an operator with a free slot, and passes the root exactly when no slot is free anywhere |
| `Builder.AttachNext` | evalg/encoding.py:144-148 | the new node goes into `right` if that is free and otherwise into `left`; that slot is first in the postorder, and the tree grows by that node alone |
| `Builder.Extend` | evalg/encoding.py:139-148 | one pass of the `for` loop either stops with the error `Outcome` predicts or keeps the build invariant for one more token |
| `Builder.Place` | evalg/encoding.py:144-148 | placing a token keeps the build invariant, or stops with the token's label error |
| `Builder.GrownAttach` | evalg/encoding.py:144-148 | attaching keeps the invariant: postorder is the arena order backwards, and every open operator is an ancestor of the newest node |
| `Builder.RoundOutcome` | evalg/encoding.py:141-148 | if no slot is free before a token, the result is `MalformedPostfix`; otherwise the token's label decides |
| `Builder.Built` | evalg/encoding.py:132-150 | a finished arena has the input as its postorder, operands without children, `left` filled only where `right` is, and full operator nodes exactly when the input leaves no free slot |
| `Builder.BuiltOrder` | evalg/encoding.py:132-150 | the postorder of the finished tree lists the tokens in input order |
| `Builder.BuiltFull` | evalg/encoding.py:132-150 | operand nodes have no children, `left` is filled only where `right` is, and all operator nodes have both children exactly when no slot is free |
| `Builder.PostfixDepth` | evalg/encoding.py:132-150 | the postfix list of a well-formed expression leaves exactly one value on an evaluation stack, and never fewer than one after any non-empty prefix |
| `Builder.FirstErrorOfValid` | evalg/encoding.py:139-148 | on such a list the walk never passes the root, and the build fails only on a token whose label cannot be derived |
| `Builder.PostfixOfExprBuilds` | evalg/encoding.py:132-150 | the postfix list of every well-formed expression builds without `MalformedPostfix` and leaves no free slot, so every operator node ends with two children |
| `Builder.TooManyOperands` | evalg/encoding.py:141-142 | two operands and no operator walk past the root |
| `Builder.ExcessOperatorLeavesFreeSlot` | evalg/encoding.py:144-148 | `[A, B, +, +]` builds without error and leaves exactly one free slot; with the right-before-left shape of `Builder.PostfixToTree`, that slot is an operator's `left` |
| `Shunting.PopWhileKeeps` | evalg/encoding.py:163-164 | the operator branch's `while` loop keeps a prefix of the stack whose top binds less tightly than the incoming operator |
| `Shunting.PopWhilePops` | evalg/encoding.py:163-164 | what it pops all binds at least as tightly, and goes to the output top first |
| `Shunting.PopToOpenFails` | evalg/encoding.py:168-172 | the `)` branch fails exactly when the stack holds no `(` |
| `Shunting.PopToOpenKeeps` | evalg/encoding.py:168-172 | on success it keeps the stack below the topmost `(` and drops that `(` |
| `Shunting.PopToOpenPops` | evalg/encoding.py:168-172 | what lies above that `(` goes to the output, top first |
| `Shunting.InfixToPostfix` | evalg/encoding.py:153-180 | the loops compute the conversion `Shunt`, including its failure |
| `Shunting.StepAccounted` | evalg/encoding.py:161-175 | one token fails exactly when it is a `)` and no `(` is stacked; otherwise the token accounting is preserved: operands in order in the output, every `+`/`*` either output or stacked, the stack holding only operators and `(` |
| `Shunting.RunAccounted` | evalg/encoding.py:161-175 | the `for` loop succeeds exactly when every prefix of the input has no more `)` than `(`, and then keeps the accounting |
| `Shunting.ShuntSucceeds` | evalg/encoding.py:153-180 | the conversion succeeds exactly when no prefix of the input has more `)` than `(` |
| `Shunting.ShuntOutput` | evalg/encoding.py:153-180 | on success the output holds the input's operands in input order, no `)`, each `+` and `*` of the input exactly once, and one `(` per unmatched `(` of the input |
| `Shunting.ShuntBalanced` | evalg/encoding.py:153-180 | balanced input converts without failure and with no parenthesis in the output |
| `Shunting.ShuntPrecedence` | evalg/encoding.py:154-165 | `A + B * C` gives `A B C * +` |
| `Shunting.ShuntLeftAssociative` | evalg/encoding.py:163-165 | `A + B + C` gives `A B + C +` |
| `Shunting.ShuntUnmatchedClose` | evalg/encoding.py:168-172 | `A )` fails on the empty stack |
| `Shunting.ShuntInfix` | evalg/encoding.py:153-180 | the fully parenthesised token form of every well-formed expression, `(` left operator right `)` at each application, converts to that expression's postfix form |
| `Shunting.ShuntKernelTokens` | evalg/encoding.py:153-180 | the infix tokens of every kernel convert without failure into postfix with no parenthesis, the kernel's base kernels in order, and every `+` and `*` of the infix tokens |
| `Shunting.ShuntGroupedKernelTokens` | autoks/kernel.py:82 | with the corrected tokenizer, the conversion turns every kernel's tokens into the postfix form of its left-associative reading, keeping nested sums and products grouped |
| `Shunting.TokenizeRegroups` | autoks/kernel.py:82 | the as-written tokens of (a + b) * c are `( a + b * c )`, which convert to the postfix of a + (b * c); the corrected tokens convert to the postfix of (a + b) * c |

## Left out

- The graphviz rendering (`create_graph`, evalg/encoding.py:51-74 and 85-86) is left out. It only produces a picture, keyed on Python object identities.
- `experiments/util/synthetic_data.py` is left out. It is random floating-point data generation and printing.
- GPy is left out. The model does not construct kernel objects (autoks/kernel.py:30), evaluate kernels or dispatch on classes. `isinstance` becomes membership in the set `instanceOf` of a base kernel.
- Node identity is an arena index. The builder and `select_postorder` compare nodes by identity, and the model compares indices.
- The builder only ever fills an empty child slot. A stand-alone `add_left` or `add_right` on an occupied slot replaces the child, as the source does (`evalg/encoding.py:43-49`). The old child stays in the arena with its parent link, but its parent no longer returns it, and it is no longer in the postorder.
- Kernel.GetAll1dKernels: takes `n_dims` as a natural number. For a negative `n_dims`, Python's `range(n_dims)` is empty, so every code is still looked up and `[]` is returned. The model has no negative case.
- `in_order`'s shared mutable default `tokens=[]` is not modelled. The accumulator is an explicit parameter, and both callers pass an empty list.
- The `op` that `in_order` computes for a nested combinator but never uses is not modelled.
- `len(operator_stack) is not 0` is modelled as a comparison with 0.
- Strings `'+'`, `'*'`, `'('` and `')'` are token constructors, not strings. A Python string outside these four cannot occur in the model.
- `Shunting.Prec` gives 0 to tokens the source's table lacks. `Accounted` shows that such a token is never looked up.
- `Shunting.InfixToPostfix` returns `Failure(UnmatchedClose)` where the source raises `IndexError`. Either way no output list is produced.
- `Tree.BinaryTree.SelectPostorder` requires a well-formed arena. Every tree the model can build is one.
- Node creation, `add_left`, `add_right` and the setter let a label error propagate, as the source does. The model builds no node in that case.

## Findings

| source | as written | input that shows it | evidently intended | confidence | as-written member | corrected member |
|---|---|---|---|---|---|---|
| autoks/kernel.py:82 | A sub-list at the head of a list becomes `(`, then its tokens, then the tokens of the rest of the list, and only then `)`. | `Prod([Add([a, b]), c])`, that is (a + b) * c, tokenizes to `( a + b * c )`. The conversion reads this as a + (b * c). | `(`, the sub-list's tokens, `)`, then the rest: `( a + b ) * c`. | not executed | `Shunting.TokenizeRegroups` | `Shunting.ShuntGroupedKernelTokens` |
| evalg/encoding.py:25-29 | `_value` is assigned before the label is derived. When the derivation raises, the node keeps the new value with the old label. | A `+` node assigned a kernel with no active dimensions keeps the label "+". | The label is never stale: derive it first, then set both fields, or change nothing. | not executed | `Tree.AsWrittenSetterLeavesStaleLabel` | `Tree.AssignValueKeepsLabelFresh` |

The as-written `Kernel.Tokenize` is what `Kernel.KernelToInfixTokens` uses,
because that is what the source runs. The corrected `Kernel.TokenizeGrouped`
is what the read-back theorem `Shunting.ShuntGroupedKernelTokens` is about.

The tree's `SetValue` uses the corrected setter `Tree.AssignValue`. The
as-written `Tree.AssignValueAsWritten` is kept beside it.
