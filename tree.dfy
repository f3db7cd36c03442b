/** The binary expression tree of evalg/encoding.py: nodes holding a token
    and its label, node creation and child attachment, the value setter, the
    iterative postorder selection and the parenthesised infix rendering.

    Nodes live in an arena: a tree owns a sequence of nodes and a node is
    named by its index there. A node's `left`, `right` and `parent` are
    indices. Attaching a child appends the new node, so a child always has a
    larger index than its parent; that order is what makes the recursive
    definitions below terminate and the parent walk well founded. */
module Tree {
  import opened Wrappers
  import opened Kernel
  import opened Decimal
  import opened Seqs

  /** `value in operators` for operators = ['+', '*']. */
  predicate IsOperator(t: Token) {
    t == Plus || t == Times
  }

  /** A tree node: its value, the label derived from the value when it was
      last set, and the links to its parent and children. */
  datatype TreeNode = TreeNode(value: Token, labelText: string, parent: Option<nat>, left: Option<nat>, right: Option<nat>)

  /** BinaryTreeNode(value, parent): the label is `val_to_label(value)`
      (TokenText), and deriving it may fail, in which case no node exists. */
  function NewNode(v: Token, parent: Option<nat>): (r: Result<TreeNode, LabelError>)
    ensures r.Success? <==> TokenText(v).Success?
    ensures r.Failure? ==> r.error == TokenText(v).error
    ensures r.Success? ==> (r.value.value == v && r.value.labelText == TokenText(v).value
                            && r.value.parent == parent && r.value.left.None? && r.value.right.None?)
  {
    match TokenText(v)
    case Failure(e) => Failure(e)
    case Success(l) => Success(TreeNode(v, l, parent, None, None))
  }

  // ---------------------------------------------------------------------
  // Shape of an arena
  // ---------------------------------------------------------------------

  /** `c`, a child slot of node `x`, is empty or names a later node whose
      parent is `x`. */
  predicate ChildOk(nodes: seq<TreeNode>, x: nat, c: Option<nat>) {
    c.None? || (x < c.value < |nodes| && nodes[c.value].parent == Some(x))
  }

  /** Node `x`'s child links point forward to nodes that point back, its
      two children differ, and its parent comes before it. */
  predicate LinksOk(nodes: seq<TreeNode>, x: nat)
    requires x < |nodes|
  {
    ChildOk(nodes, x, nodes[x].left) && ChildOk(nodes, x, nodes[x].right)
    && (nodes[x].left.Some? && nodes[x].right.Some? ==> nodes[x].left != nodes[x].right)
    && (nodes[x].parent.Some? ==> nodes[x].parent.value < x)
  }

  /** Every node's links are consistent. */
  predicate WellFormed(nodes: seq<TreeNode>) {
    forall x :: 0 <= x < |nodes| ==> LinksOk(nodes, x)
  }

  /** Every label is the one derived from its node's value. */
  predicate LabelsFresh(nodes: seq<TreeNode>) {
    forall x :: 0 <= x < |nodes| ==> LabelFresh(nodes[x])
  }

  /** A node whose label is the one derived from its value. */
  predicate LabelFresh(n: TreeNode) {
    TokenText(n.value) == Success(n.labelText)
  }

  /** Replacing a node by one with the same links and a fresh label keeps
      an arena well formed with fresh labels. */
  lemma ReplaceNode(nodes: seq<TreeNode>, x: nat, n: TreeNode)
    requires WellFormed(nodes) && LabelsFresh(nodes) && x < |nodes|
    requires n.parent == nodes[x].parent && n.left == nodes[x].left && n.right == nodes[x].right
    requires LabelFresh(n)
    ensures WellFormed(nodes[x := n]) && LabelsFresh(nodes[x := n])
  {
    ReplacedShape(nodes, x, n);
    ReplacedLabels(nodes, x, n);
  }

  lemma ReplacedShape(nodes: seq<TreeNode>, x: nat, n: TreeNode)
    requires WellFormed(nodes) && x < |nodes|
    requires n.parent == nodes[x].parent && n.left == nodes[x].left && n.right == nodes[x].right
    ensures WellFormed(nodes[x := n])
  {
    var s := nodes[x := n];
    forall y | 0 <= y < |s| ensures LinksOk(s, y) {
      ReplacedAt(nodes, x, n, y);
    }
  }

  /** ReplacedShape, at node `y` of the new arena. */
  lemma ReplacedAt(nodes: seq<TreeNode>, x: nat, n: TreeNode, y: nat)
    requires WellFormed(nodes) && x < |nodes| && y < |nodes|
    requires n.parent == nodes[x].parent && n.left == nodes[x].left && n.right == nodes[x].right
    ensures LinksOk(nodes[x := n], y)
  {
    var s := nodes[x := n];
    var m := nodes[y];
    assert s[y] == if y == x then n else m;
    assert LinksOk(nodes, y);
    if m.left.Some? {
      var c := m.left.value;
      assert s[c] == if c == x then n else nodes[c];
    }
    if m.right.Some? {
      var c := m.right.value;
      assert s[c] == if c == x then n else nodes[c];
    }
  }

  lemma ReplacedLabels(nodes: seq<TreeNode>, x: nat, n: TreeNode)
    requires LabelsFresh(nodes) && x < |nodes| && LabelFresh(n)
    ensures LabelsFresh(nodes[x := n])
  {
    var s := nodes[x := n];
    forall y | 0 <= y < |s| ensures LabelFresh(s[y]) {
      assert s[y] == if y == x then n else nodes[y];
    }
  }

  /** The arena after appending leaf `n` as the new left or right child
      of node `x`. */
  function Attached(nodes: seq<TreeNode>, x: nat, n: TreeNode, onRight: bool): seq<TreeNode>
    requires x < |nodes|
  {
    var k := |nodes|;
    nodes[x := if onRight then nodes[x].(right := Some(k)) else nodes[x].(left := Some(k))] + [n]
  }

  /** Attaching a fresh leaf keeps every node of an arena well formed:
      node `y` of the new arena. */
  lemma AttachedAt(nodes: seq<TreeNode>, x: nat, n: TreeNode, onRight: bool, y: nat)
    requires WellFormed(nodes) && x < |nodes|
    requires n.parent == Some(x) && n.left.None? && n.right.None?
    requires y < |nodes| + 1
    ensures LinksOk(Attached(nodes, x, n, onRight), y)
  {
    var s := Attached(nodes, x, n, onRight);
    var k := |nodes|;
    var upd := if onRight then nodes[x].(right := Some(k)) else nodes[x].(left := Some(k));
    assert |s| == k + 1;
    assert upd.parent == nodes[x].parent;
    assert upd.left == (if onRight then nodes[x].left else Some(k));
    assert upd.right == (if onRight then Some(k) else nodes[x].right);
    if y < k {
      var m := nodes[y];
      assert s[y] == if y == x then upd else m;
      assert LinksOk(nodes, y);
      if m.left.Some? {
        var c := m.left.value;
        assert s[c] == if c == x then upd else nodes[c];
      }
      if m.right.Some? {
        var c := m.right.value;
        assert s[c] == if c == x then upd else nodes[c];
      }
      if y == x {
        assert s[k] == n;
      }
    } else {
      assert s[y] == n;
    }
  }

  /** Attaching a fresh leaf keeps an arena well formed with fresh labels. */
  lemma AttachNode(nodes: seq<TreeNode>, x: nat, n: TreeNode, onRight: bool)
    requires WellFormed(nodes) && LabelsFresh(nodes) && x < |nodes|
    requires n.parent == Some(x) && n.left.None? && n.right.None? && LabelFresh(n)
    ensures WellFormed(Attached(nodes, x, n, onRight)) && LabelsFresh(Attached(nodes, x, n, onRight))
  {
    var s := Attached(nodes, x, n, onRight);
    forall y | 0 <= y < |s| ensures LinksOk(s, y) {
      AttachedAt(nodes, x, n, onRight, y);
    }
    AttachedLabels(nodes, x, n, onRight);
  }

  lemma AttachedLabels(nodes: seq<TreeNode>, x: nat, n: TreeNode, onRight: bool)
    requires LabelsFresh(nodes) && x < |nodes| && LabelFresh(n)
    ensures LabelsFresh(Attached(nodes, x, n, onRight))
  {
    var s := Attached(nodes, x, n, onRight);
    var k := |nodes|;
    var upd := if onRight then nodes[x].(right := Some(k)) else nodes[x].(left := Some(k));
    assert upd.value == nodes[x].value && upd.labelText == nodes[x].labelText;
    forall y | 0 <= y < |s| ensures LabelFresh(s[y]) {
      if y == k {
        assert s[y] == n;
      } else {
        assert s[y] == if y == x then upd else nodes[y];
        assert LabelFresh(nodes[y]);
      }
    }
  }

  predicate InRange(nodes: seq<TreeNode>, c: Option<nat>) {
    c.None? || c.value < |nodes|
  }

  /** No element occurs twice. */
  ghost predicate Distinct(s: seq<nat>) {
    forall y :: multiset(s)[y] <= 1
  }

  /** The recursive postorder, left, right, self, of the subtree at `c`. */
  function PostFrom(nodes: seq<TreeNode>, c: Option<nat>): seq<nat>
    requires WellFormed(nodes) && InRange(nodes, c)
    decreases if c.Some? then |nodes| - c.value else 0
  {
    if c.None? then []
    else
      assert LinksOk(nodes, c.value);
      PostFrom(nodes, nodes[c.value].left) + PostFrom(nodes, nodes[c.value].right) + [c.value]
  }

  /** A postorder lists the subtree's root and otherwise only nodes of the
      arena at or after it. */
  lemma {:induction false} PostFromRange(nodes: seq<TreeNode>, c: Option<nat>)
    requires WellFormed(nodes) && InRange(nodes, c)
    ensures forall y :: y in PostFrom(nodes, c) ==> c.Some? && c.value <= y < |nodes|
    ensures c.Some? ==> c.value in PostFrom(nodes, c)
    decreases if c.Some? then |nodes| - c.value else 0
  {
    if c.Some? {
      var n := nodes[c.value];
      assert LinksOk(nodes, c.value);
      PostFromRange(nodes, n.left);
      PostFromRange(nodes, n.right);
      assert PostFrom(nodes, c) == PostFrom(nodes, n.left) + PostFrom(nodes, n.right) + [c.value];
    } else {
      assert PostFrom(nodes, c) == [];
    }
  }

  /** `a` is `y` or one of its ancestors along the parent links. */
  predicate Anc(nodes: seq<TreeNode>, a: nat, y: nat)
    decreases y
  {
    a == y
    || (y < |nodes| && nodes[y].parent.Some? && nodes[y].parent.value < y
        && Anc(nodes, a, nodes[y].parent.value))
  }

  lemma {:induction false} AncLe(nodes: seq<TreeNode>, a: nat, y: nat)
    requires Anc(nodes, a, y)
    ensures a <= y
    decreases y
  {
    if a != y {
      AncLe(nodes, a, nodes[y].parent.value);
    }
  }

  /** An ancestor of a node's parent is an ancestor of the node. */
  lemma {:induction false} AncAbove(nodes: seq<TreeNode>, c: nat, a: nat, y: nat)
    requires WellFormed(nodes) && a < |nodes| && nodes[a].parent == Some(c)
    requires Anc(nodes, a, y)
    ensures Anc(nodes, c, y)
    decreases y
  {
    assert LinksOk(nodes, a);
    if a != y {
      AncAbove(nodes, c, a, nodes[y].parent.value);
    }
  }

  /** Two ancestors of one node are ancestor and descendant of each other. */
  lemma {:induction false} AncComparable(nodes: seq<TreeNode>, a: nat, b: nat, y: nat)
    requires Anc(nodes, a, y) && Anc(nodes, b, y)
    ensures Anc(nodes, a, b) || Anc(nodes, b, a)
    decreases y
  {
    if a != y && b != y {
      AncComparable(nodes, a, b, nodes[y].parent.value);
    }
  }

  /** Every node of a subtree descends from the subtree's root. */
  lemma {:induction false} PostFromAnc(nodes: seq<TreeNode>, c: nat, y: nat)
    requires WellFormed(nodes) && c < |nodes| && y in PostFrom(nodes, Some(c))
    ensures Anc(nodes, c, y)
    decreases |nodes| - c
  {
    var n := nodes[c];
    assert LinksOk(nodes, c);
    if y != c {
      if n.left.Some? && y in PostFrom(nodes, n.left) {
        PostFromAnc(nodes, n.left.value, y);
        AncAbove(nodes, c, n.left.value, y);
      } else {
        assert n.right.Some? && y in PostFrom(nodes, n.right);
        PostFromAnc(nodes, n.right.value, y);
        AncAbove(nodes, c, n.right.value, y);
      }
    }
  }

  lemma DistinctConcat(a: seq<nat>, b: seq<nat>)
    requires Distinct(a) && Distinct(b) && forall y :: y in a ==> y !in b
    ensures Distinct(a + b)
  {
    assert multiset(a + b) == multiset(a) + multiset(b);
    forall y ensures multiset(a + b)[y] <= 1 {
      if y in a {
        assert y !in multiset(b);
      }
    }
  }

  /** The left and right subtrees of a node share no node. */
  lemma SubtreesDisjoint(nodes: seq<TreeNode>, c: nat, y: nat)
    requires WellFormed(nodes) && c < |nodes| && LinksOk(nodes, c)
    requires nodes[c].left.Some? && nodes[c].right.Some?
    requires y in PostFrom(nodes, nodes[c].left)
    ensures y !in PostFrom(nodes, nodes[c].right)
  {
    var l, r := nodes[c].left.value, nodes[c].right.value;
    if y in PostFrom(nodes, nodes[c].right) {
      PostFromAnc(nodes, l, y);
      PostFromAnc(nodes, r, y);
      AncComparable(nodes, l, r, y);
      if Anc(nodes, l, r) {
        assert Anc(nodes, l, c);
        AncLe(nodes, l, c);
      } else {
        assert Anc(nodes, r, c);
        AncLe(nodes, r, c);
      }
    }
  }

  /** No node appears twice in a postorder. */
  lemma {:induction false} PostFromDistinct(nodes: seq<TreeNode>, c: Option<nat>)
    requires WellFormed(nodes) && InRange(nodes, c)
    ensures Distinct(PostFrom(nodes, c))
    decreases if c.Some? then |nodes| - c.value else 0
  {
    if c.Some? {
      var n := nodes[c.value];
      assert LinksOk(nodes, c.value);
      PostFromDistinct(nodes, n.left);
      PostFromDistinct(nodes, n.right);
      var pl, pr := PostFrom(nodes, n.left), PostFrom(nodes, n.right);
      PostFromRange(nodes, n.left);
      PostFromRange(nodes, n.right);
      assert LinksOk(nodes, c.value);
      assert PostFrom(nodes, c) == pl + pr + [c.value];
      forall y | y in pl ensures y !in pr {
        if n.right.Some? {
          SubtreesDisjoint(nodes, c.value, y);
        }
      }
      DistinctJoin(pl, pr, c.value);
    }
  }

  /** Two disjoint sequences without repetitions, then an element found in
      neither: no repetitions. */
  lemma DistinctJoin(a: seq<nat>, b: seq<nat>, x: nat)
    requires Distinct(a) && Distinct(b) && x !in a && x !in b
    requires forall y :: y in a ==> y !in b
    ensures Distinct(a + b + [x])
  {
    DistinctConcat(a, b);
    DistinctConcat(a + b, [x]);
  }

  // ---------------------------------------------------------------------
  // _infix_helper
  // ---------------------------------------------------------------------

  /** The infix rendering of the subtree at `c`: an operator node is
      wrapped in parentheses around left, label, right; any other node is
      left, label, right without them. */
  function InfixFrom(nodes: seq<TreeNode>, c: Option<nat>): string
    requires WellFormed(nodes) && InRange(nodes, c)
    decreases if c.Some? then |nodes| - c.value else 0
  {
    if c.None? then ""
    else
      var n := nodes[c.value];
      assert LinksOk(nodes, c.value);
      var open := if IsOperator(n.value) then "(" else "";
      var close := if IsOperator(n.value) then ")" else "";
      open + InfixFrom(nodes, n.left) + n.labelText + InfixFrom(nodes, n.right) + close
  }

  function CharCount(s: string, ch: char): nat
  {
    if s == [] then 0 else (if s[0] == ch then 1 else 0) + CharCount(s[1..], ch)
  }

  lemma {:induction false} CharCountAppend(a: string, b: string, ch: char)
    ensures CharCount(a + b, ch) == CharCount(a, ch) + CharCount(b, ch)
  {
    if a == [] {
      assert a + b == b;
    } else {
      assert (a + b)[1..] == a[1..] + b;
      CharCountAppend(a[1..], b, ch);
    }
  }

  /** The operator nodes among `ys`. */
  function OperatorCount(nodes: seq<TreeNode>, ys: seq<nat>): nat
  {
    if ys == [] then 0
    else (if ys[0] < |nodes| && IsOperator(nodes[ys[0]].value) then 1 else 0) + OperatorCount(nodes, ys[1..])
  }

  /** The occurrences of `ch` in the labels of `ys`. */
  function LabelChars(nodes: seq<TreeNode>, ys: seq<nat>, ch: char): nat
  {
    if ys == [] then 0
    else (if ys[0] < |nodes| then CharCount(nodes[ys[0]].labelText, ch) else 0) + LabelChars(nodes, ys[1..], ch)
  }

  lemma {:induction false} OperatorCountAppend(nodes: seq<TreeNode>, a: seq<nat>, b: seq<nat>, ch: char)
    ensures OperatorCount(nodes, a + b) == OperatorCount(nodes, a) + OperatorCount(nodes, b)
    ensures LabelChars(nodes, a + b, ch) == LabelChars(nodes, a, ch) + LabelChars(nodes, b, ch)
  {
    if a == [] {
      assert a + b == b;
    } else {
      assert (a + b)[1..] == a[1..] + b;
      OperatorCountAppend(nodes, a[1..], b, ch);
    }
  }

  lemma OperatorCountSingle(nodes: seq<TreeNode>, y: nat, ch: char)
    requires y < |nodes|
    ensures OperatorCount(nodes, [y]) == if IsOperator(nodes[y].value) then 1 else 0
    ensures LabelChars(nodes, [y], ch) == CharCount(nodes[y].labelText, ch)
  {
    assert [y][1..] == [];
  }

  lemma CharCountJoin(open: string, il: string, mid: string, ir: string, close: string, ch: char)
    ensures CharCount(open + il + mid + ir + close, ch)
            == CharCount(open, ch) + CharCount(il, ch) + CharCount(mid, ch) + CharCount(ir, ch) + CharCount(close, ch)
  {
    CharCountAppend(open + il + mid + ir, close, ch);
    CharCountAppend(open + il + mid, ir, ch);
    CharCountAppend(open + il, mid, ch);
    CharCountAppend(open, il, ch);
  }

  lemma ParenCounts()
    ensures CharCount("(", '(') == 1 && CharCount("(", ')') == 0
    ensures CharCount(")", ')') == 1 && CharCount(")", '(') == 0
    ensures CharCount("", '(') == 0 && CharCount("", ')') == 0
  {
    assert "("[1..] == "";
    assert ")"[1..] == "";
  }

  /** A parenthesis in the infix rendering comes from an operator node or
      from a label: each operator node of the subtree contributes one '('
      and one ')'. */
  lemma {:induction false} InfixParens(nodes: seq<TreeNode>, c: Option<nat>, ch: char)
    requires WellFormed(nodes) && InRange(nodes, c) && (ch == '(' || ch == ')')
    ensures CharCount(InfixFrom(nodes, c), ch) == OperatorCount(nodes, PostFrom(nodes, c)) + LabelChars(nodes, PostFrom(nodes, c), ch)
    decreases if c.Some? then |nodes| - c.value else 0
  {
    if c.Some? {
      var n := nodes[c.value];
      assert LinksOk(nodes, c.value);
      InfixParens(nodes, n.left, ch);
      InfixParens(nodes, n.right, ch);
      InfixSplit(nodes, c.value, ch);
      PostSplit(nodes, c.value, ch);
    }
  }

  /** The parentheses of a node's rendering: its own pair, if it is an
      operator, and those of its subtrees and label. */
  lemma InfixSplit(nodes: seq<TreeNode>, x: nat, ch: char)
    requires WellFormed(nodes) && x < |nodes| && LinksOk(nodes, x) && (ch == '(' || ch == ')')
    ensures var n := nodes[x];
            CharCount(InfixFrom(nodes, Some(x)), ch)
            == (if IsOperator(n.value) then 1 else 0) + CharCount(InfixFrom(nodes, n.left), ch)
               + CharCount(n.labelText, ch) + CharCount(InfixFrom(nodes, n.right), ch)
  {
    var n := nodes[x];
    var open := if IsOperator(n.value) then "(" else "";
    var close := if IsOperator(n.value) then ")" else "";
    CharCountJoin(open, InfixFrom(nodes, n.left), n.labelText, InfixFrom(nodes, n.right), close, ch);
    ParenCounts();
  }

  /** The operators and label characters of a node's postorder: its own
      and those of its subtrees. */
  lemma PostSplit(nodes: seq<TreeNode>, x: nat, ch: char)
    requires WellFormed(nodes) && x < |nodes| && LinksOk(nodes, x)
    ensures var n := nodes[x];
            OperatorCount(nodes, PostFrom(nodes, Some(x)))
            == OperatorCount(nodes, PostFrom(nodes, n.left)) + OperatorCount(nodes, PostFrom(nodes, n.right))
               + (if IsOperator(n.value) then 1 else 0)
    ensures var n := nodes[x];
            LabelChars(nodes, PostFrom(nodes, Some(x)), ch)
            == LabelChars(nodes, PostFrom(nodes, n.left), ch) + LabelChars(nodes, PostFrom(nodes, n.right), ch)
               + CharCount(n.labelText, ch)
  {
    var n := nodes[x];
    var pl, pr := PostFrom(nodes, n.left), PostFrom(nodes, n.right);
    assert PostFrom(nodes, Some(x)) == pl + pr + [x];
    OperatorCountAppend(nodes, pl, pr, ch);
    OperatorCountAppend(nodes, pl + pr, [x], ch);
    OperatorCountSingle(nodes, x, ch);
  }

  /** The label of a well-formed token holds no parenthesis unless the
      token is one. */
  lemma LabelHasNoParens(t: Token)
    requires TokenText(t).Success? && t != LParen && t != RParen
    ensures CharCount(TokenText(t).value, '(') == 0 && CharCount(TokenText(t).value, ')') == 0
  {
    var s := TokenText(t).value;
    if t.Leaf? {
      LabelIsAlphanumeric(t.kernel);
      NoCharNoCount(s, '(');
      NoCharNoCount(s, ')');
    } else {
      assert s[1..] == "";
    }
  }

  lemma {:induction false} NoCharNoCount(s: string, ch: char)
    requires forall i :: 0 <= i < |s| ==> IsUpper(s[i]) || IsDigit(s[i])
    requires !IsUpper(ch) && !IsDigit(ch)
    ensures CharCount(s, ch) == 0
  {
    if s != [] {
      assert s[0] != ch;
      NoCharNoCount(s[1..], ch);
    }
  }

  lemma {:induction false} NoLabelParens(nodes: seq<TreeNode>, ys: seq<nat>)
    requires LabelsFresh(nodes)
    requires forall y :: y in ys && y < |nodes| ==> nodes[y].value != LParen && nodes[y].value != RParen
    ensures LabelChars(nodes, ys, '(') == 0 && LabelChars(nodes, ys, ')') == 0
  {
    if ys != [] {
      if ys[0] < |nodes| {
        LabelHasNoParens(nodes[ys[0]].value);
      }
      NoLabelParens(nodes, ys[1..]);
    }
  }

  /** With fresh labels and no parenthesis tokens among the values, a
      subtree with k operator nodes renders with exactly k '(' and k ')'. */
  lemma InfixParensBalanced(nodes: seq<TreeNode>, c: Option<nat>)
    requires WellFormed(nodes) && LabelsFresh(nodes) && InRange(nodes, c)
    requires forall y :: y in PostFrom(nodes, c) && y < |nodes| ==> nodes[y].value != LParen && nodes[y].value != RParen
    ensures CharCount(InfixFrom(nodes, c), '(') == OperatorCount(nodes, PostFrom(nodes, c))
    ensures CharCount(InfixFrom(nodes, c), ')') == OperatorCount(nodes, PostFrom(nodes, c))
  {
    InfixParens(nodes, c, '(');
    InfixParens(nodes, c, ')');
    NoLabelParens(nodes, PostFrom(nodes, c));
  }

  // ---------------------------------------------------------------------
  // The value setter
  // ---------------------------------------------------------------------

  /** A node after an assignment to `value`, and the error raised, if any. */
  datatype Assigned = Assigned(node: TreeNode, raised: Option<LabelError>)

  /** The setter as written: `_value` is assigned first, then the label is
      derived, so when the derivation raises the node keeps the new value
      and the old label. */
  function AssignValueAsWritten(n: TreeNode, v: Token): (r: Assigned)
    ensures r.raised.None? <==> TokenText(v).Success?
    ensures r.raised.None? ==> r.node == n.(value := v, labelText := TokenText(v).value)
    ensures r.raised.Some? ==> r.node == n.(value := v) && r.raised == Some(TokenText(v).error)
  {
    var updated := n.(value := v);
    match TokenText(v)
    case Success(l) => Assigned(updated.(labelText := l), None)
    case Failure(e) => Assigned(updated, Some(e))
  }

  /** The as-written setter can leave a stale label: a '+' node assigned a
      kernel with no active dimensions keeps the label "+". */
  lemma AsWrittenSetterLeavesStaleLabel()
    ensures var n := TreeNode(Plus, "+", None, None, None);
            var v := Leaf(BaseKernel({RBF}, []));
            LabelFresh(n) && AssignValueAsWritten(n, v).raised == Some(NoActiveDims)
            && !LabelFresh(AssignValueAsWritten(n, v).node)
  {
    var v := Leaf(BaseKernel({RBF}, []));
    assert TokenText(v) == Failure(NoActiveDims);
  }

  /** The setter with the label derived before anything is assigned: an
      assignment either succeeds and sets both fields, or raises and leaves
      the node as it was. */
  function AssignValue(n: TreeNode, v: Token): (r: Assigned)
    ensures r.raised.None? <==> TokenText(v).Success?
    ensures r.raised.None? ==> r.node == n.(value := v, labelText := TokenText(v).value)
    ensures r.raised.Some? ==> r.node == n && r.raised == Some(TokenText(v).error)
  {
    match TokenText(v)
    case Success(l) => Assigned(n.(value := v, labelText := l), None)
    case Failure(e) => Assigned(n, Some(e))
  }

  /** With the corrected setter the label is never stale. */
  lemma AssignValueKeepsLabelFresh(n: TreeNode, v: Token)
    requires LabelFresh(n)
    ensures LabelFresh(AssignValue(n, v).node)
  {
  }

  // ---------------------------------------------------------------------
  // select_postorder's stack, as a specification
  // ---------------------------------------------------------------------

  /** The child `select_postorder` descends into from a stacked node:
      `right` once its right subtree has been entered, else `left`. */
  function Child(nodes: seq<TreeNode>, x: nat, inRight: bool): Option<nat>
    requires x < |nodes|
  {
    if inRight then nodes[x].right else nodes[x].left
  }

  /** The nodes the stack still owes, in the order they will be emitted:
      for each stacked node from the top down, its right subtree unless it
      has been entered, then the node itself. */
  function Pending(nodes: seq<TreeNode>, stack: seq<nat>, inRight: seq<bool>): (r: seq<nat>)
    requires StackOk(nodes, stack, inRight)
    ensures |r| >= |stack|
  {
    if stack == [] then []
    else
      var top := stack[|stack| - 1];
      assert LinksOk(nodes, top);
      (if inRight[|stack| - 1] then [] else PostFrom(nodes, nodes[top].right)) + [top]
      + Pending(nodes, stack[..|stack| - 1], inRight[..|stack| - 1])
  }

  // ---------------------------------------------------------------------
  // BinaryTree
  // ---------------------------------------------------------------------

  class BinaryTree {
    var nodes: seq<TreeNode>
    var root: Option<nat>

    /** The arena is well formed and its labels are fresh; the root, when
        there is one, is node 0 and has no parent. */
    ghost predicate Valid()
      reads this
    {
      WellFormed(nodes) && LabelsFresh(nodes)
      && (root.None? ==> nodes == [])
      && (root.Some? ==> root.value == 0 && |nodes| > 0 && nodes[0].parent.None?)
    }

    /** BinaryTree(): no root. */
    constructor()
      ensures Valid() && nodes == [] && root.None?
    {
      nodes := [];
      root := None;
    }

    /** `tree.root = BinaryTreeNode(v)`: the tree becomes the single new
        node. When the label cannot be derived no node is made and the tree
        is unchanged. */
    method SetRoot(v: Token) returns (r: Result<nat, LabelError>)
      requires Valid()
      modifies this
      ensures Valid()
      ensures r.Success? <==> TokenText(v).Success?
      ensures r.Failure? ==> r.error == TokenText(v).error && nodes == old(nodes) && root == old(root)
      ensures r.Success? ==> r.value == 0 && root == Some(0) && nodes == [NewNode(v, None).value]
    {
      var n := NewNode(v, None);
      if n.Failure? {
        return Failure(n.error);
      }
      nodes := [n.value];
      root := Some(0);
      return Success(0);
    }

    /** add_left: a fresh leaf holding `v`, whose parent is `x`, becomes
        `x`'s left child and is returned; the right child stays. A left
        child `x` had before is detached from it. */
    method AddLeft(x: nat, v: Token) returns (r: Result<nat, LabelError>)
      requires Valid() && x < |nodes|
      modifies this
      ensures Valid()
      ensures root == old(root)
      ensures r.Success? <==> TokenText(v).Success?
      ensures r.Failure? ==> r.error == TokenText(v).error && nodes == old(nodes)
      ensures r.Success? ==> (r.value == |old(nodes)|
                              && nodes == old(nodes)[x := old(nodes)[x].(left := Some(r.value))] + [NewNode(v, Some(x)).value])
    {
      var n := NewNode(v, Some(x));
      if n.Failure? {
        return Failure(n.error);
      }
      var k := |nodes|;
      AttachNode(nodes, x, n.value, false);
      nodes := nodes[x := nodes[x].(left := Some(k))] + [n.value];
      return Success(k);
    }

    /** add_right: as add_left, on the right. */
    method AddRight(x: nat, v: Token) returns (r: Result<nat, LabelError>)
      requires Valid() && x < |nodes|
      modifies this
      ensures Valid()
      ensures root == old(root)
      ensures r.Success? <==> TokenText(v).Success?
      ensures r.Failure? ==> r.error == TokenText(v).error && nodes == old(nodes)
      ensures r.Success? ==> (r.value == |old(nodes)|
                              && nodes == old(nodes)[x := old(nodes)[x].(right := Some(r.value))] + [NewNode(v, Some(x)).value])
    {
      var n := NewNode(v, Some(x));
      if n.Failure? {
        return Failure(n.error);
      }
      var k := |nodes|;
      AttachNode(nodes, x, n.value, true);
      nodes := nodes[x := nodes[x].(right := Some(k))] + [n.value];
      return Success(k);
    }

    /** The value setter, with the label derived first (AssignValue). */
    method SetValue(x: nat, v: Token) returns (raised: Option<LabelError>)
      requires Valid() && x < |nodes|
      modifies this
      ensures Valid()
      ensures root == old(root)
      ensures raised == AssignValue(old(nodes)[x], v).raised
      ensures nodes == old(nodes)[x := AssignValue(old(nodes)[x], v).node]
    {
      var a := AssignValue(nodes[x], v);
      AssignValueKeepsLabelFresh(nodes[x], v);
      ReplaceNode(nodes, x, a.node);
      nodes := nodes[x := a.node];
      return a.raised;
    }

    /** The postorder of the whole tree. */
    ghost function Postorder(): seq<nat>
      reads this
      requires WellFormed(nodes) && InRange(nodes, root)
    {
      PostFrom(nodes, root)
    }

    /** infix(): the rendering of the tree from its root. */
    function Infix(): string
      reads this
      requires WellFormed(nodes) && InRange(nodes, root)
    {
      InfixFrom(nodes, root)
    }

    /** One pass of select_postorder's loop body: descend left from the
        current node, or enter the top entry's right subtree, or pop and
        emit the top entry, which is then the next node of the postorder. */
    method Advance(ghost i: int, stack: seq<nat>, ghost inRight: seq<bool>, node: Option<nat>, last: Option<nat>)
      returns (emitted: Option<nat>, stack': seq<nat>, ghost inRight': seq<bool>, node': Option<nat>, last': Option<nat>)
      requires WellFormed(nodes) && InRange(nodes, root)
      requires Walk(nodes, PostFrom(nodes, root), i, stack, inRight, node, last) && (|stack| > 0 || node.Some?)
      ensures emitted.Some? ==> i < |PostFrom(nodes, root)| && emitted.value == PostFrom(nodes, root)[i]
      ensures Walk(nodes, PostFrom(nodes, root), if emitted.Some? then i + 1 else i, stack', inRight', node', last')
      ensures 0 <= Remaining(PostFrom(nodes, root), if emitted.Some? then i + 1 else i, stack', node')
                < Remaining(PostFrom(nodes, root), i, stack, node)
    {
      ghost var P := PostFrom(nodes, root);
      if node.Some? {
        WalkPush(nodes, P, i, stack, inRight, node, last);
        var x := node.value;
        return None, stack + [x], inRight + [false], nodes[x].left, last;
      }
      var peekNode := stack[|stack| - 1];
      if nodes[peekNode].right.Some? && last != nodes[peekNode].right {
        WalkSwitch(nodes, P, i, stack, inRight, last);
        return None, stack, inRight[|stack| - 1 := true], nodes[peekNode].right, last;
      }
      WalkPop(nodes, root, P, i, stack, inRight, last);
      return Some(peekNode), stack[..|stack| - 1], inRight[..|stack| - 1], None, Some(peekNode);
    }

    /** select_postorder: the node at position `idx` of the recursive
        postorder, or None for an index outside it, negative ones included.
        The tree is not changed. */
    method SelectPostorder(idx: int) returns (r: Option<nat>)
      requires WellFormed(nodes) && InRange(nodes, root)
      ensures r == if 0 <= idx < |PostFrom(nodes, root)| then Some(PostFrom(nodes, root)[idx]) else None
    {
      ghost var P := PostFrom(nodes, root);
      var node := root;
      var stack: seq<nat> := [];
      ghost var inRight: seq<bool> := [];
      var lastNodeVisited: Option<nat> := None;
      var i := 0;
      WalkStart(nodes, root);
      while |stack| > 0 || node.Some?
        invariant !(0 <= idx < i)
        invariant Walk(nodes, P, i, stack, inRight, node, lastNodeVisited)
        decreases Remaining(P, i, stack, node)
      {
        var emitted;
        emitted, stack, inRight, node, lastNodeVisited := Advance(i, stack, inRight, node, lastNodeVisited);
        if emitted.Some? {
          if i == idx {
            return emitted;
          }
          i := i + 1;
        }
      }
      WalkDone(nodes, P, i, lastNodeVisited);
      return None;
    }
  }

  /** A bound on the passes select_postorder's loop has left: a node is
      pushed, possibly switched to its right subtree, and popped. */
  function Remaining(P: seq<nat>, i: int, stack: seq<nat>, node: Option<nat>): int {
    3 * (|P| - i) - 2 * |stack| - (if node.Some? then 1 else 0)
  }

  /** A stack of node indices with one entered-right flag per entry. */
  predicate StackOk(nodes: seq<TreeNode>, stack: seq<nat>, inRight: seq<bool>) {
    WellFormed(nodes) && |stack| == |inRight| && forall j :: 0 <= j < |stack| ==> stack[j] < |nodes|
  }

  /** Each stack entry is the child its predecessor was left through. */
  ghost predicate Chain(nodes: seq<TreeNode>, stack: seq<nat>, inRight: seq<bool>)
    requires StackOk(nodes, stack, inRight)
    decreases |stack|
  {
    |stack| <= 1
    || (Chain(nodes, stack[..|stack| - 1], inRight[..|stack| - 1])
        && Child(nodes, stack[|stack| - 2], inRight[|stack| - 2]) == Some(stack[|stack| - 1]))
  }

  /** The state of select_postorder's walk: the stack is a path down from
      the root, each entry followed by the child it was left through; the
      current node is the child the top entry is descending into; and a
      top entry whose right subtree was entered, with no current node, has
      just seen that subtree's root emitted. */
  ghost predicate Shape(nodes: seq<TreeNode>, stack: seq<nat>, inRight: seq<bool>, node: Option<nat>, last: Option<nat>) {
    StackOk(nodes, stack, inRight) && InRange(nodes, node)
    && Chain(nodes, stack, inRight)
    && (forall j :: 0 <= j < |stack| && inRight[j] ==> nodes[stack[j]].right.Some?)
    && (node.Some? && stack != [] ==> node == Child(nodes, stack[|stack| - 1], inRight[|stack| - 1]))
    && (node.None? && stack != [] && inRight[|stack| - 1] ==> last == nodes[stack[|stack| - 1]].right)
  }

  lemma ShapePush(nodes: seq<TreeNode>, stack: seq<nat>, inRight: seq<bool>, node: Option<nat>, last: Option<nat>)
    requires Shape(nodes, stack, inRight, node, last) && node.Some?
    ensures Shape(nodes, stack + [node.value], inRight + [false], nodes[node.value].left, last)
  {
    var x := node.value;
    var s, b := stack + [x], inRight + [false];
    assert LinksOk(nodes, x);
    PushEntries(nodes, stack, inRight, x);
    assert s[..|s| - 1] == stack && b[..|b| - 1] == inRight;
    if stack != [] {
      assert s[|s| - 2] == stack[|stack| - 1] && b[|b| - 2] == inRight[|stack| - 1];
    }
  }

  /** A pushed entry that has not entered its right subtree keeps the
      stack's entries in range and the entered ones with a right child. */
  lemma PushEntries(nodes: seq<TreeNode>, stack: seq<nat>, inRight: seq<bool>, x: nat)
    requires StackOk(nodes, stack, inRight) && x < |nodes|
    requires forall j :: 0 <= j < |stack| && inRight[j] ==> nodes[stack[j]].right.Some?
    ensures StackOk(nodes, stack + [x], inRight + [false])
    ensures forall j :: 0 <= j < |stack| + 1 && (inRight + [false])[j] ==> nodes[(stack + [x])[j]].right.Some?
  {
    var s, b := stack + [x], inRight + [false];
    forall j | 0 <= j < |s| ensures s[j] < |nodes| {
      if j < |stack| {
        assert s[j] == stack[j];
      }
    }
    forall j | 0 <= j < |s| && b[j] ensures nodes[s[j]].right.Some? {
      assert j < |stack| && s[j] == stack[j] && b[j] == inRight[j];
    }
  }

  lemma ShapeSwitch(nodes: seq<TreeNode>, stack: seq<nat>, inRight: seq<bool>, last: Option<nat>)
    requires Shape(nodes, stack, inRight, None, last) && stack != []
    requires nodes[stack[|stack| - 1]].right.Some? && last != nodes[stack[|stack| - 1]].right
    ensures !inRight[|stack| - 1]
    ensures Shape(nodes, stack, inRight[|stack| - 1 := true], nodes[stack[|stack| - 1]].right, last)
  {
    var top := stack[|stack| - 1];
    var b := inRight[|stack| - 1 := true];
    assert LinksOk(nodes, top);
    assert b[..|b| - 1] == inRight[..|stack| - 1];
    if |stack| > 1 {
      assert b[|b| - 2] == inRight[|stack| - 2];
    }
  }

  lemma ShapePop(nodes: seq<TreeNode>, stack: seq<nat>, inRight: seq<bool>, last: Option<nat>)
    requires Shape(nodes, stack, inRight, None, last) && stack != []
    ensures Shape(nodes, stack[..|stack| - 1], inRight[..|stack| - 1], None, Some(stack[|stack| - 1]))
  {
  }

  /** The invariant of select_postorder's loop: `i` nodes of the
      postorder `P` have been emitted, the last of them is the last node
      visited, and the current node's subtree followed by what the stack
      owes is the rest of `P`. */
  ghost predicate Walk(nodes: seq<TreeNode>, P: seq<nat>, i: int, stack: seq<nat>, inRight: seq<bool>, node: Option<nat>, last: Option<nat>) {
    0 <= i <= |P|
    && Shape(nodes, stack, inRight, node, last)
    && (last.Some? ==> 0 < i && last.value == P[i - 1])
    && PostFrom(nodes, node) + Pending(nodes, stack, inRight) == P[i..]
    && |stack| + (if node.Some? then 1 else 0) <= |P| - i
  }

  lemma WalkPush(nodes: seq<TreeNode>, P: seq<nat>, i: int, stack: seq<nat>, inRight: seq<bool>, node: Option<nat>, last: Option<nat>)
    requires Walk(nodes, P, i, stack, inRight, node, last) && node.Some?
    ensures Walk(nodes, P, i, stack + [node.value], inRight + [false], nodes[node.value].left, last)
  {
    var x := node.value;
    PendingPush(nodes, stack, inRight, x);
    ShapePush(nodes, stack, inRight, node, last);
    var n' := nodes[x].left;
    assert |Pending(nodes, stack + [x], inRight + [false])| >= |stack| + 1;
    if n'.Some? {
      assert nodes[x].left.value in PostFrom(nodes, n');
    }
  }

  lemma WalkSwitch(nodes: seq<TreeNode>, P: seq<nat>, i: int, stack: seq<nat>, inRight: seq<bool>, last: Option<nat>)
    requires Walk(nodes, P, i, stack, inRight, None, last) && stack != []
    requires nodes[stack[|stack| - 1]].right.Some? && last != nodes[stack[|stack| - 1]].right
    ensures Walk(nodes, P, i, stack, inRight[|stack| - 1 := true], nodes[stack[|stack| - 1]].right, last)
  {
    ShapeSwitch(nodes, stack, inRight, last);
    PendingSwitch(nodes, stack, inRight, last);
    var b := inRight[|stack| - 1 := true];
    assert [] + Pending(nodes, stack, inRight) == Pending(nodes, stack, inRight);
    assert |Pending(nodes, stack, b)| >= |stack|;
  }

  lemma WalkPop(nodes: seq<TreeNode>, root: Option<nat>, P: seq<nat>, i: int, stack: seq<nat>, inRight: seq<bool>, last: Option<nat>)
    requires Walk(nodes, P, i, stack, inRight, None, last) && stack != []
    requires InRange(nodes, root) && P == PostFrom(nodes, root)
    requires !(nodes[stack[|stack| - 1]].right.Some? && last != nodes[stack[|stack| - 1]].right)
    ensures i < |P| && P[i] == stack[|stack| - 1]
    ensures Walk(nodes, P, i + 1, stack[..|stack| - 1], inRight[..|stack| - 1], None, Some(stack[|stack| - 1]))
  {
    var top := stack[|stack| - 1];
    assert [] + Pending(nodes, stack, inRight) == Pending(nodes, stack, inRight);
    if !inRight[|stack| - 1] && nodes[top].right.Some? && last.Some? {
      // the right subtree is still owed, so its root was not the last node visited
      PendingHasRight(nodes, stack, inRight);
      NotYetVisited(nodes, root, i, nodes[top].right.value);
    }
    PendingPop(nodes, stack, inRight);
    ShapePop(nodes, stack, inRight, last);
    var rest := Pending(nodes, stack[..|stack| - 1], inRight[..|stack| - 1]);
    EmitNext(P, i, top, rest);
    assert [] + rest == rest;
  }

  lemma WalkStart(nodes: seq<TreeNode>, root: Option<nat>)
    requires WellFormed(nodes) && InRange(nodes, root)
    ensures Walk(nodes, PostFrom(nodes, root), 0, [], [], root, None)
  {
    assert PostFrom(nodes, root) + [] == PostFrom(nodes, root);
    PostFromRange(nodes, root);
  }

  lemma WalkDone(nodes: seq<TreeNode>, P: seq<nat>, i: int, last: Option<nat>)
    requires Walk(nodes, P, i, [], [], None, last)
    ensures i == |P|
  {
    assert P[i..] == [];
  }

  /** Emitting the first owed node. */
  lemma EmitNext(P: seq<nat>, i: nat, x: nat, rest: seq<nat>)
    requires i <= |P| && P[i..] == [x] + rest
    ensures i < |P| && P[i] == x && P[i + 1..] == rest
  {
    assert P[i..][0] == x;
    assert P[i + 1..] == P[i..][1..];
  }

  /** Pushing a node and descending left owes the same nodes as before. */
  lemma PendingPush(nodes: seq<TreeNode>, stack: seq<nat>, inRight: seq<bool>, x: nat)
    requires StackOk(nodes, stack, inRight) && x < |nodes| && LinksOk(nodes, x)
    ensures StackOk(nodes, stack + [x], inRight + [false])
    ensures PostFrom(nodes, Some(x)) + Pending(nodes, stack, inRight)
            == PostFrom(nodes, nodes[x].left) + Pending(nodes, stack + [x], inRight + [false])
  {
    var s, b := stack + [x], inRight + [false];
    assert s[..|s| - 1] == stack && b[..|b| - 1] == inRight;
    AppendAssoc(PostFrom(nodes, nodes[x].left) + PostFrom(nodes, nodes[x].right), [x], Pending(nodes, stack, inRight));
    AppendAssoc(PostFrom(nodes, nodes[x].left), PostFrom(nodes, nodes[x].right) + [x], Pending(nodes, stack, inRight));
    AppendAssoc(PostFrom(nodes, nodes[x].left), PostFrom(nodes, nodes[x].right), [x]);
  }

  /** Entering the right subtree of the top entry owes the same nodes. */
  lemma PendingSwitch(nodes: seq<TreeNode>, stack: seq<nat>, inRight: seq<bool>, last: Option<nat>)
    requires Shape(nodes, stack, inRight, None, last) && stack != [] && LinksOk(nodes, stack[|stack| - 1])
    requires nodes[stack[|stack| - 1]].right.Some? && last != nodes[stack[|stack| - 1]].right
    ensures StackOk(nodes, stack, inRight[|stack| - 1 := true])
    ensures Pending(nodes, stack, inRight)
            == PostFrom(nodes, nodes[stack[|stack| - 1]].right) + Pending(nodes, stack, inRight[|stack| - 1 := true])
  {
    var b := inRight[|stack| - 1 := true];
    assert b[..|b| - 1] == inRight[..|inRight| - 1];
    var top := stack[|stack| - 1];
    var rest := Pending(nodes, stack[..|stack| - 1], inRight[..|stack| - 1]);
    AppendAssoc(PostFrom(nodes, nodes[top].right), [top], rest);
    assert [] + [top] == [top];
  }

  /** With nothing owed from its right subtree, the top entry is owed next. */
  lemma PendingPop(nodes: seq<TreeNode>, stack: seq<nat>, inRight: seq<bool>)
    requires StackOk(nodes, stack, inRight) && stack != []
    requires inRight[|stack| - 1] || nodes[stack[|stack| - 1]].right.None?
    ensures StackOk(nodes, stack[..|stack| - 1], inRight[..|stack| - 1])
    ensures Pending(nodes, stack, inRight)
            == [stack[|stack| - 1]] + Pending(nodes, stack[..|stack| - 1], inRight[..|stack| - 1])
  {
    assert [] + [stack[|stack| - 1]] == [stack[|stack| - 1]];
  }

  lemma PendingHasRight(nodes: seq<TreeNode>, stack: seq<nat>, inRight: seq<bool>)
    requires StackOk(nodes, stack, inRight) && stack != []
    requires !inRight[|stack| - 1] && nodes[stack[|stack| - 1]].right.Some?
    ensures nodes[stack[|stack| - 1]].right.value in Pending(nodes, stack, inRight)
  {
  }

  /** A node still owed was not emitted last. */
  lemma NotYetVisited(nodes: seq<TreeNode>, root: Option<nat>, i: nat, y: nat)
    requires WellFormed(nodes) && InRange(nodes, root)
    requires 0 < i <= |PostFrom(nodes, root)| && y in PostFrom(nodes, root)[i..]
    ensures PostFrom(nodes, root)[i - 1] != y
  {
    var P := PostFrom(nodes, root);
    PostFromDistinct(nodes, root);
    var k :| 0 <= k < |P[i..]| && P[i..][k] == y;
    DistinctAt(P, i - 1, i + k);
  }

  /** In a sequence without repetitions two positions hold different
      elements. */
  lemma DistinctAt(s: seq<nat>, a: nat, b: nat)
    requires Distinct(s) && a < b < |s|
    ensures s[a] != s[b]
  {
    var pre, post := s[..b], s[b..];
    assert s == pre + post;
    assert multiset(s) == multiset(pre) + multiset(post);
    assert s[a] == pre[a] && s[b] == post[0];
    assert s[a] in multiset(pre) && s[b] in multiset(post);
    assert multiset(s)[s[a]] == multiset(pre)[s[a]] + multiset(post)[s[a]] <= 1;
  }
}
