/** postfix_tokens_to_binexp_tree of evalg/encoding.py: a binary expression
    tree built from a postfix token list, consumed last to first. Each token
    goes into the nearest ancestor of the previously placed node that is an
    operator with a free child slot, into `right` when that is free and else
    into `left`.

    In the arena the nodes are numbered in the order they are attached. The
    walk keeps three facts: the postorder of the tree is the numbering
    backwards, every operator with a free slot is an ancestor of the newest
    node, and its free slot is first in the postorder. From them the
    postorder of the finished tree is the input, and the walk passes the
    root exactly when the free slots have run out, which the token counts
    alone decide. */
module Builder {
  import opened Wrappers
  import opened Kernel
  import opened Tree
  import opened Seqs

  /** Why building fails: `postfix_tokens[-1]` of an empty list, the
      upward walk stepping past the root (`None.value`), or a token whose
      label cannot be derived. */
  datatype BuildError = EmptyExpression | MalformedPostfix | BadOperand(error: LabelError)

  // ---------------------------------------------------------------------
  // The outcome, from token counts
  // ---------------------------------------------------------------------

  /** The number of `+`/`*` tokens in `s`. */
  function Ops(s: seq<Token>): nat
  {
    if s == [] then 0 else (if IsOperator(s[0]) then 1 else 0) + Ops(s[1..])
  }

  lemma {:induction false} OpsAppend(a: seq<Token>, b: seq<Token>)
    ensures Ops(a + b) == Ops(a) + Ops(b)
    decreases |a|
  {
    if a == [] {
      assert a + b == b;
    } else {
      OpsAppend(a[1..], b);
      assert (a + b)[0] == a[0] && (a + b)[1..] == a[1..] + b;
    }
  }

  /** The free child slots once the tokens `s` have been placed: one slot
      for the root, and each token fills one slot and opens two when it is
      an operator. */
  function Open(s: seq<Token>): int
  {
    1 + 2 * Ops(s) - |s|
  }

  /** Placing one more token, taken from the front of the unplaced part. */
  lemma OpenStep(ts: seq<Token>, j: nat)
    requires j < |ts|
    ensures Open(ts[j..]) == Open(ts[j + 1..]) - 1 + (if IsOperator(ts[j]) then 2 else 0)
  {
    assert ts[j..][1..] == ts[j + 1..];
  }

  /** The error the builder stops with once tokens `j`, `j - 1`, ... are
      still to be placed, or None when all of them fit: before a token is
      placed the walk needs a free slot, then the token's label is derived. */
  function FirstError(ts: seq<Token>, j: int): Option<BuildError>
    requires j < |ts|
    decreases j + 1
  {
    if j < 0 then None
    else if j < |ts| - 1 && Open(ts[j + 1..]) == 0 then Some(MalformedPostfix)
    else if TokenText(ts[j]).Failure? then Some(BadOperand(TokenText(ts[j]).error))
    else FirstError(ts, j - 1)
  }

  /** The error postfix_tokens_to_binexp_tree raises on `ts`, or None when
      it returns a tree. */
  function Outcome(ts: seq<Token>): Option<BuildError>
  {
    if ts == [] then Some(EmptyExpression) else FirstError(ts, |ts| - 1)
  }

  // ---------------------------------------------------------------------
  // Postfix of a well-formed expression
  // ---------------------------------------------------------------------

  /** A binary expression over tokens. */
  datatype Expr = Operand(token: Token) | Apply(op: Token, left: Expr, right: Expr)

  /** Operands are kernel tokens and every inner node is an operator. */
  predicate ExprOk(e: Expr)
  {
    match e
    case Operand(t) => t.Leaf?
    case Apply(op, l, r) => IsOperator(op) && ExprOk(l) && ExprOk(r)
  }

  /** The postfix list of an expression: left, right, operator. */
  function Postfix(e: Expr): seq<Token>
  {
    match e
    case Operand(t) => [t]
    case Apply(op, l, r) => Postfix(l) + Postfix(r) + [op]
  }

  /** The height of an evaluation stack after reading `s` from the left:
      an operand pushes one entry, a binary operator takes two and pushes
      one. */
  function Depth(s: seq<Token>): int
  {
    |s| - 2 * Ops(s)
  }

  /** The postfix list of a well-formed expression leaves one entry on the
      stack and never empties it on the way. */
  lemma {:induction false} PostfixDepth(e: Expr)
    requires ExprOk(e)
    ensures Depth(Postfix(e)) == 1
    ensures forall p :: 0 < p <= |Postfix(e)| ==> Depth(Postfix(e)[..p]) >= 1
  {
    match e
    case Operand(t) =>
      assert [t][1..] == [];
      assert Ops([t]) == 0;
      forall p | 0 < p <= 1 ensures Depth([t][..p]) >= 1 {
        assert [t][..p] == [t];
      }
    case Apply(op, l, r) =>
      PostfixDepth(l);
      PostfixDepth(r);
      ApplyDepth(Postfix(l), Postfix(r), op);
  }

  /** An operator after two lists that each leave one entry. */
  lemma ApplyDepth(L: seq<Token>, R: seq<Token>, op: Token)
    requires IsOperator(op)
    requires Depth(L) == 1 && forall p :: 0 < p <= |L| ==> Depth(L[..p]) >= 1
    requires Depth(R) == 1 && forall p :: 0 < p <= |R| ==> Depth(R[..p]) >= 1
    ensures Depth(L + R + [op]) == 1
    ensures forall p :: 0 < p <= |L + R + [op]| ==> Depth((L + R + [op])[..p]) >= 1
  {
    var P := L + R + [op];
    OpsAppend(L, R);
    OpsAppend(L + R, [op]);
    assert [op][1..] == [];
    assert Ops([op]) == 1;
    forall p | 0 < p <= |P| ensures Depth(P[..p]) >= 1 {
      if p <= |L| {
        assert P[..p] == L[..p];
      } else if p <= |L| + |R| {
        assert P[..p] == L + R[..p - |L|];
        OpsAppend(L, R[..p - |L|]);
      } else {
        assert P[..p] == P;
      }
    }
  }

  /** With every prefix leaving an entry on the stack and one left at the
      end, the walk always finds a free slot: only a label can stop it. */
  lemma {:induction false} FirstErrorOfValid(ts: seq<Token>, j: int)
    requires Depth(ts) == 1 && forall p :: 0 < p <= |ts| ==> Depth(ts[..p]) >= 1
    requires -1 <= j < |ts|
    ensures FirstError(ts, j) != Some(MalformedPostfix)
    ensures FirstError(ts, j) == None <==> forall i :: 0 <= i <= j ==> TokenText(ts[i]).Success?
    decreases j + 1
  {
    if j >= 0 {
      if j < |ts| - 1 {
        SuffixOpen(ts, j + 1);
      }
      FirstErrorOfValid(ts, j - 1);
    }
  }

  /** The slots the suffix from `p` on leaves open are the entries the
      prefix before `p` leaves on the stack. */
  lemma SuffixOpen(ts: seq<Token>, p: nat)
    requires p <= |ts| && Depth(ts) == 1
    ensures Open(ts[p..]) == Depth(ts[..p])
  {
    assert ts == ts[..p] + ts[p..];
    OpsAppend(ts[..p], ts[p..]);
  }

  /** The postfix list of a well-formed expression never makes the walk
      pass the root, builds a tree whenever every operand has a label, and
      leaves no slot free, so every operator node gets both children. */
  lemma PostfixOfExprBuilds(e: Expr)
    requires ExprOk(e)
    ensures Outcome(Postfix(e)) != Some(MalformedPostfix)
    ensures Outcome(Postfix(e)) == None <==> forall t :: t in Postfix(e) ==> TokenText(t).Success?
    ensures Open(Postfix(e)) == 0
  {
    var ts := Postfix(e);
    PostfixDepth(e);
    FirstErrorOfValid(ts, |ts| - 1);
    AllLabelled(ts);
  }

  /** Every position of `ts` has a label exactly when every token in it
      has one. */
  lemma AllLabelled(ts: seq<Token>)
    ensures (forall i :: 0 <= i <= |ts| - 1 ==> TokenText(ts[i]).Success?)
            <==> (forall t :: t in ts ==> TokenText(t).Success?)
  {
    if forall i :: 0 <= i <= |ts| - 1 ==> TokenText(ts[i]).Success? {
      forall t | t in ts ensures TokenText(t).Success? {
        var i :| 0 <= i < |ts| && ts[i] == t;
      }
    }
  }

  /** A base kernel labelled SE0. */
  const SquaredExp0: BaseKernel := BaseKernel({RBF}, [0])

  /** Two operands and no operator: after the first is placed as the root
      there is no slot for the second, and the walk passes the root. */
  lemma TooManyOperands()
    ensures Outcome([Leaf(SquaredExp0), Leaf(SquaredExp0)]) == Some(MalformedPostfix)
  {
    assert IsFirstMatch(SquaredExp0, 0);
    var ts := [Leaf(SquaredExp0), Leaf(SquaredExp0)];
    assert ts[1..] == [Leaf(SquaredExp0)] && ts[1..][1..] == [];
    assert Ops([Leaf(SquaredExp0)]) == 0;
  }

  /** `[A, B, '+', '+']`: nothing fails, and one child slot is still free
      at the end. Since the builder fills `right` before `left`, that free
      slot is the `left` of an operator node. */
  lemma ExcessOperatorLeavesFreeSlot()
    ensures Outcome([Leaf(SquaredExp0), Leaf(SquaredExp0), Plus, Plus]) == None
    ensures Open([Leaf(SquaredExp0), Leaf(SquaredExp0), Plus, Plus]) == 1
  {
    assert IsFirstMatch(SquaredExp0, 0);
    var ts := [Leaf(SquaredExp0), Leaf(SquaredExp0), Plus, Plus];
    assert ts[3..] == [Plus] && ts[2..] == [Plus, Plus] && ts[1..] == [Leaf(SquaredExp0), Plus, Plus];
    assert Ops([Plus]) == 1 && Ops([Plus, Plus]) == 2;
    assert Ops(ts[1..]) == 2 && Ops(ts) == 2;
  }

  // ---------------------------------------------------------------------
  // Free slots of an arena
  // ---------------------------------------------------------------------

  /** A node the upward walk stops at: an operator missing a child. */
  predicate OpenNode(t: TreeNode)
  {
    IsOperator(t.value) && (t.right.None? || t.left.None?)
  }

  /** The right slot is filled first, and operands get no children. */
  predicate Shaped(t: TreeNode)
  {
    (t.right.None? ==> t.left.None?) && (!IsOperator(t.value) ==> t.right.None?)
  }

  /** The free child slots of one node. */
  function Free(t: TreeNode): nat
  {
    if IsOperator(t.value) then (if t.left.None? then 1 else 0) + (if t.right.None? then 1 else 0) else 0
  }

  /** The free child slots of an arena. */
  function Slots(nodes: seq<TreeNode>): nat
  {
    if nodes == [] then 0 else Slots(nodes[..|nodes| - 1]) + Free(nodes[|nodes| - 1])
  }

  /** An arena has no free slot exactly when no node is open. */
  lemma {:induction false} SlotsZero(nodes: seq<TreeNode>)
    ensures Slots(nodes) == 0 <==> forall z :: 0 <= z < |nodes| ==> !OpenNode(nodes[z])
    decreases |nodes|
  {
    if nodes != [] {
      var front := nodes[..|nodes| - 1];
      SlotsZero(front);
      assert forall z :: 0 <= z < |front| ==> front[z] == nodes[z];
    }
  }

  lemma {:induction false} SlotsUpdate(nodes: seq<TreeNode>, x: nat, t: TreeNode)
    requires x < |nodes|
    ensures Slots(nodes[x := t]) == Slots(nodes) - Free(nodes[x]) + Free(t)
    decreases |nodes|
  {
    var s := nodes[x := t];
    var k := |nodes| - 1;
    if x == k {
      assert s[..k] == nodes[..k];
    } else {
      assert s[..k] == nodes[..k][x := t];
      SlotsUpdate(nodes[..k], x, t);
    }
  }

  lemma SlotsAppend(nodes: seq<TreeNode>, t: TreeNode)
    ensures Slots(nodes + [t]) == Slots(nodes) + Free(t)
  {
    assert (nodes + [t])[..|nodes|] == nodes;
  }

  // ---------------------------------------------------------------------
  // The free slot that comes first
  // ---------------------------------------------------------------------

  /** The node `x`, an operator with a free left slot and possibly a free
      right one, lies in the subtree at `c` along the path that takes the
      left child wherever there is one: a node attached to `x` comes first
      in the subtree's postorder. */
  predicate Frontier(nodes: seq<TreeNode>, c: Option<nat>, x: nat)
    requires WellFormed(nodes) && InRange(nodes, c)
    decreases if c.Some? then |nodes| - c.value else 0
  {
    c.Some?
    && var t := nodes[c.value];
       assert LinksOk(nodes, c.value);
       if c.value == x then t.left.None?
       else if t.left.Some? then Frontier(nodes, t.left, x)
       else Frontier(nodes, t.right, x)
  }

  lemma {:induction false} FrontierIn(nodes: seq<TreeNode>, c: Option<nat>, x: nat)
    requires WellFormed(nodes) && InRange(nodes, c) && Frontier(nodes, c, x)
    ensures x < |nodes| && c.Some? && c.value <= x && x in PostFrom(nodes, c)
    decreases if c.Some? then |nodes| - c.value else 0
  {
    var y := c.value;
    var t := nodes[y];
    assert LinksOk(nodes, y);
    assert PostFrom(nodes, c) == PostFrom(nodes, t.left) + PostFrom(nodes, t.right) + [y];
    if y != x {
      if t.left.Some? {
        FrontierIn(nodes, t.left, x);
      } else {
        FrontierIn(nodes, t.right, x);
      }
    }
  }

  /** The slot a token goes into: `right` when it is free, else `left`. */
  function AttachedNext(nodes: seq<TreeNode>, x: nat, n: TreeNode): seq<TreeNode>
    requires x < |nodes|
  {
    Attached(nodes, x, n, nodes[x].right.None?)
  }

  /** The node `x` with the new node `k` in its next free slot. */
  function Filled(t: TreeNode, k: nat): TreeNode
  {
    if t.right.None? then t.(right := Some(k)) else t.(left := Some(k))
  }

  /** `s` is the arena `nodes` after a leaf has been attached to `x` at its
      next free slot: node `x` updated, the leaf appended, the rest as it
      was. */
  predicate Grafted(nodes: seq<TreeNode>, s: seq<TreeNode>, x: nat)
  {
    x < |nodes| && |s| == |nodes| + 1
    && s[|nodes|].parent == Some(x) && s[|nodes|].left.None? && s[|nodes|].right.None?
    && s[x] == Filled(nodes[x], |nodes|)
    && forall y :: 0 <= y < |nodes| && y != x ==> s[y] == nodes[y]
  }

  lemma AttachedNextGrafted(nodes: seq<TreeNode>, x: nat, n: TreeNode)
    requires WellFormed(nodes) && x < |nodes|
    requires n.parent == Some(x) && n.left.None? && n.right.None?
    ensures Grafted(nodes, AttachedNext(nodes, x, n), x)
    ensures WellFormed(AttachedNext(nodes, x, n))
    ensures AttachedNext(nodes, x, n)[|nodes|] == n
  {
    var s := AttachedNext(nodes, x, n);
    assert s[x] == Filled(nodes[x], |nodes|);
    AttachedShape(nodes, x, n, nodes[x].right.None?);
  }

  /** Attaching a leaf keeps an arena well formed. */
  lemma AttachedShape(nodes: seq<TreeNode>, x: nat, n: TreeNode, onRight: bool)
    requires WellFormed(nodes) && x < |nodes|
    requires n.parent == Some(x) && n.left.None? && n.right.None?
    ensures WellFormed(Attached(nodes, x, n, onRight))
  {
    var s := Attached(nodes, x, n, onRight);
    forall y | 0 <= y < |s| ensures LinksOk(s, y) {
      AttachedAt(nodes, x, n, onRight, y);
    }
  }

  /** A subtree without `x` is not changed by attaching to `x`. */
  lemma {:induction false} PostFromAway(nodes: seq<TreeNode>, s: seq<TreeNode>, x: nat, c: Option<nat>)
    requires WellFormed(nodes) && WellFormed(s) && Grafted(nodes, s, x) && InRange(nodes, c)
    requires x !in PostFrom(nodes, c)
    ensures PostFrom(s, c) == PostFrom(nodes, c)
    decreases if c.Some? then |nodes| - c.value else 0
  {
    if c.Some? {
      var y := c.value;
      var t := nodes[y];
      PostFromRange(nodes, c);
      assert s[y] == t;
      assert LinksOk(nodes, y);
      assert PostFrom(nodes, c) == PostFrom(nodes, t.left) + PostFrom(nodes, t.right) + [y];
      PostFromAway(nodes, s, x, t.left);
      PostFromAway(nodes, s, x, t.right);
      assert PostFrom(s, c) == PostFrom(s, t.left) + PostFrom(s, t.right) + [y];
    }
  }

  /** A leaf attached at the first free slot comes first in the postorder. */
  lemma {:induction false} AttachFirst(nodes: seq<TreeNode>, s: seq<TreeNode>, x: nat, c: Option<nat>)
    requires WellFormed(nodes) && WellFormed(s) && Grafted(nodes, s, x) && InRange(nodes, c)
    requires Frontier(nodes, c, x)
    ensures PostFrom(s, c) == [|nodes|] + PostFrom(nodes, c)
    decreases if c.Some? then |nodes| - c.value else 0
  {
    var y := c.value;
    var t := nodes[y];
    if y == x {
      AttachHere(nodes, s, x);
    } else {
      assert LinksOk(nodes, y);
      if t.left.Some? {
        AttachFirst(nodes, s, x, t.left);
        FrontierIn(nodes, t.left, x);
        if t.right.Some? {
          SubtreesDisjoint(nodes, y, x);
        }
        PostFromAway(nodes, s, x, t.right);
      } else {
        AttachFirst(nodes, s, x, t.right);
      }
      AttachAbove(nodes, s, x, y);
    }
  }

  /** AttachFirst at the node the leaf is attached to. */
  lemma AttachHere(nodes: seq<TreeNode>, s: seq<TreeNode>, x: nat)
    requires WellFormed(nodes) && WellFormed(s) && Grafted(nodes, s, x) && nodes[x].left.None?
    ensures PostFrom(s, Some(x)) == [|nodes|] + PostFrom(nodes, Some(x))
  {
    var k := |nodes|;
    assert PostFrom(s, Some(k)) == [k] by {
      assert PostFrom(s, Some(k)) == PostFrom(s, s[k].left) + PostFrom(s, s[k].right) + [k];
    }
    if nodes[x].right.None? {
      assert PostFrom(nodes, Some(x)) == PostFrom(nodes, nodes[x].left) + PostFrom(nodes, nodes[x].right) + [x];
      assert s[x].left.None? && s[x].right == Some(k);
      assert PostFrom(s, Some(x)) == PostFrom(s, s[x].left) + PostFrom(s, s[x].right) + [x];
    } else {
      AttachHereLeft(nodes, s, x);
    }
  }

  /** AttachHere when the right slot was filled before. */
  lemma AttachHereLeft(nodes: seq<TreeNode>, s: seq<TreeNode>, x: nat)
    requires WellFormed(nodes) && WellFormed(s) && Grafted(nodes, s, x)
    requires nodes[x].left.None? && nodes[x].right.Some?
    requires PostFrom(s, Some(|nodes|)) == [|nodes|]
    ensures PostFrom(s, Some(x)) == [|nodes|] + PostFrom(nodes, Some(x))
  {
    var k := |nodes|;
    var r := nodes[x].right;
    assert LinksOk(nodes, x);
    var pr := PostFrom(nodes, r);
    assert PostFrom(nodes, Some(x)) == PostFrom(nodes, None) + pr + [x];
    assert PostFrom(nodes, None) + pr == pr;
    PostFromRange(nodes, r);
    PostFromAway(nodes, s, x, r);
    assert s[x].left == Some(k) && s[x].right == r;
    assert PostFrom(s, Some(x)) == PostFrom(s, Some(k)) + PostFrom(s, r) + [x];
    AppendAssoc([k], pr, [x]);
  }

  /** AttachFirst one node above the one the leaf is attached to, from
      what it says of the children. */
  lemma AttachAbove(nodes: seq<TreeNode>, s: seq<TreeNode>, x: nat, y: nat)
    requires WellFormed(nodes) && WellFormed(s) && Grafted(nodes, s, x) && y < |nodes| && y != x
    requires LinksOk(nodes, y) && LinksOk(s, y)
    requires nodes[y].left.Some? ==>
               PostFrom(s, nodes[y].left) == [|nodes|] + PostFrom(nodes, nodes[y].left)
               && PostFrom(s, nodes[y].right) == PostFrom(nodes, nodes[y].right)
    requires nodes[y].left.None? ==>
               PostFrom(s, nodes[y].right) == [|nodes|] + PostFrom(nodes, nodes[y].right)
    ensures PostFrom(s, Some(y)) == [|nodes|] + PostFrom(nodes, Some(y))
  {
    var t := nodes[y];
    assert s[y] == t;
    assert LinksOk(nodes, y);
    assert PostFrom(nodes, Some(y)) == PostFrom(nodes, t.left) + PostFrom(nodes, t.right) + [y];
    assert PostFrom(s, Some(y)) == PostFrom(s, t.left) + PostFrom(s, t.right) + [y];
    if t.left.Some? {
      AppendAssoc([|nodes|], PostFrom(nodes, t.left), PostFrom(nodes, t.right));
    }
  }

  /** The attached leaf is itself at the first free slot when it is an
      operator. */
  lemma {:induction false} FrontierOfNew(nodes: seq<TreeNode>, s: seq<TreeNode>, x: nat, c: Option<nat>)
    requires WellFormed(nodes) && WellFormed(s) && Grafted(nodes, s, x) && InRange(nodes, c)
    requires Frontier(nodes, c, x)
    ensures Frontier(s, c, |nodes|)
    decreases if c.Some? then |nodes| - c.value else 0
  {
    var k := |nodes|;
    var y := c.value;
    var t := nodes[y];
    assert LinksOk(nodes, y);
    assert Frontier(s, Some(k), k);
    if y != x {
      assert s[y] == t;
      if t.left.Some? {
        FrontierOfNew(nodes, s, x, t.left);
      } else {
        FrontierOfNew(nodes, s, x, t.right);
      }
    }
  }

  /** A free slot above `x`, or `x`'s left slot after its right one was
      filled, stays first in line for the nodes it is first for. */
  lemma {:induction false} FrontierKept(nodes: seq<TreeNode>, s: seq<TreeNode>, x: nat, c: Option<nat>, z: nat)
    requires WellFormed(nodes) && WellFormed(s) && Grafted(nodes, s, x) && InRange(nodes, c)
    requires Frontier(nodes, c, z)
    requires z < x || (z == x && nodes[x].right.None?)
    ensures Frontier(s, c, z)
    decreases if c.Some? then |nodes| - c.value else 0
  {
    var y := c.value;
    var t := nodes[y];
    FrontierIn(nodes, c, z);
    assert LinksOk(nodes, y);
    if y != x {
      assert s[y] == t;
      if y != z {
        if t.left.Some? {
          FrontierKept(nodes, s, x, t.left, z);
        } else {
          FrontierKept(nodes, s, x, t.right, z);
        }
      }
    }
  }

  /** Attaching a leaf changes no parent link, so ancestors stay ancestors. */
  lemma {:induction false} AncGrafted(nodes: seq<TreeNode>, s: seq<TreeNode>, x: nat, z: nat, y: nat)
    requires Grafted(nodes, s, x) && y < |nodes| && Anc(nodes, z, y)
    ensures Anc(s, z, y)
    decreases y
  {
    assert s[y].parent == nodes[y].parent;
    if z != y {
      AncGrafted(nodes, s, x, z, nodes[y].parent.value);
    }
  }

  // ---------------------------------------------------------------------
  // The builder's invariant
  // ---------------------------------------------------------------------

  predicate AllShaped(nodes: seq<TreeNode>)
  {
    forall y :: 0 <= y < |nodes| ==> Shaped(nodes[y])
  }

  /** Every open node is an ancestor of node `y`. */
  predicate OpensAbove(nodes: seq<TreeNode>, y: nat)
  {
    forall z :: 0 <= z < |nodes| && OpenNode(nodes[z]) ==> Anc(nodes, z, y)
  }

  /** Every open node is first in line in the whole tree. */
  predicate OpensFirst(nodes: seq<TreeNode>)
    requires WellFormed(nodes) && |nodes| > 0
  {
    forall z :: 0 <= z < |nodes| && OpenNode(nodes[z]) ==> Frontier(nodes, Some(0), z)
  }

  /** `[n - 1, ..., 1, 0]`. */
  function Down(n: nat): (r: seq<nat>)
    ensures |r| == n
  {
    if n == 0 then [] else [n - 1] + Down(n - 1)
  }

  lemma {:induction false} DownAt(n: nat, i: nat)
    requires i < n
    ensures Down(n)[i] == n - 1 - i
  {
    if i > 0 {
      DownAt(n - 1, i - 1);
    }
  }

  /** The state of the builder's arena between tokens: node 0 is the root,
      the right slot of a node is filled before its left, operands have no
      children, every open node is an ancestor of the newest node and first
      in line, and the postorder is the numbering backwards. */
  ghost predicate Grown(nodes: seq<TreeNode>)
  {
    WellFormed(nodes) && |nodes| > 0 && AllShaped(nodes)
    && OpensAbove(nodes, |nodes| - 1) && OpensFirst(nodes)
    && PostFrom(nodes, Some(0)) == Down(|nodes|)
  }

  /** A single leaf without a parent is a built tree. */
  lemma GrownRoot(t: TreeNode)
    requires t.parent.None? && t.left.None? && t.right.None?
    ensures Grown([t]) && Slots([t]) == Free(t)
  {
    var nodes := [t];
    assert nodes[..0] == [];
    assert PostFrom(nodes, Some(0)) == [] + [] + [0];
    assert Anc(nodes, 0, 0);
  }

  lemma GrownShape(nodes: seq<TreeNode>, s: seq<TreeNode>, x: nat)
    requires AllShaped(nodes) && Grafted(nodes, s, x) && OpenNode(nodes[x])
    ensures AllShaped(s)
  {
    forall y | 0 <= y < |s| ensures Shaped(s[y]) {
      if y < |nodes| && y != x {
        assert s[y] == nodes[y];
      }
    }
  }

  lemma GrownOpens(nodes: seq<TreeNode>, s: seq<TreeNode>, x: nat)
    requires Grown(nodes) && WellFormed(s) && Grafted(nodes, s, x)
    requires OpenNode(nodes[x]) && OpensAbove(nodes, x)
    ensures OpensAbove(s, |nodes|) && OpensFirst(s)
  {
    var k := |nodes|;
    assert Frontier(nodes, Some(0), x);
    forall z | 0 <= z < |s| && OpenNode(s[z]) ensures Anc(s, z, k) && Frontier(s, Some(0), z) {
      if z == k {
        FrontierOfNew(nodes, s, x, Some(0));
      } else if z == x {
        assert Anc(s, x, x);
        FrontierKept(nodes, s, x, Some(0), x);
      } else {
        assert s[z] == nodes[z];
        assert Anc(nodes, z, x);
        AncLe(nodes, z, x);
        AncGrafted(nodes, s, x, z, x);
        FrontierKept(nodes, s, x, Some(0), z);
      }
    }
  }

  /** Attaching a leaf at the nearest open node keeps the builder's
      invariant; the arena has one slot fewer, and two more when the leaf
      is an operator. */
  lemma GrownAttach(nodes: seq<TreeNode>, x: nat, n: TreeNode)
    requires Grown(nodes) && x < |nodes| && OpenNode(nodes[x]) && OpensAbove(nodes, x)
    requires n.parent == Some(x) && n.left.None? && n.right.None?
    ensures Grown(AttachedNext(nodes, x, n))
    ensures Slots(AttachedNext(nodes, x, n)) == Slots(nodes) - 1 + (if IsOperator(n.value) then 2 else 0)
    ensures forall y :: 0 <= y < |nodes| ==> AttachedNext(nodes, x, n)[y].value == nodes[y].value
  {
    var s := AttachedNext(nodes, x, n);
    AttachedNextGrafted(nodes, x, n);
    GrownInvariant(nodes, s, x);
    GrownSlots(nodes, s, x);
  }

  lemma GrownInvariant(nodes: seq<TreeNode>, s: seq<TreeNode>, x: nat)
    requires Grown(nodes) && WellFormed(s) && Grafted(nodes, s, x)
    requires OpenNode(nodes[x]) && OpensAbove(nodes, x)
    ensures Grown(s)
  {
    var k := |nodes|;
    GrownShape(nodes, s, x);
    GrownOpens(nodes, s, x);
    AttachFirst(nodes, s, x, Some(0));
    assert [k] + Down(k) == Down(k + 1);
  }

  lemma GrownSlots(nodes: seq<TreeNode>, s: seq<TreeNode>, x: nat)
    requires Grafted(nodes, s, x) && OpenNode(nodes[x])
    ensures Slots(s) == Slots(nodes) - 1 + (if IsOperator(s[|nodes|].value) then 2 else 0)
    ensures forall y :: 0 <= y < |nodes| ==> s[y].value == nodes[y].value
  {
    var k := |nodes|;
    var upd := Filled(nodes[x], k);
    assert s == nodes[x := upd] + [s[k]];
    SlotsUpdate(nodes, x, upd);
    SlotsAppend(nodes[x := upd], s[k]);
    forall y | 0 <= y < k ensures s[y].value == nodes[y].value {
      if y != x {
        assert s[y] == nodes[y];
      }
    }
  }

  // ---------------------------------------------------------------------
  // The builder
  // ---------------------------------------------------------------------

  /** The upward walk: from the newest node, follow the parent links while
      the node is not an operator or has both children. It stops at the
      nearest open ancestor, the deepest open node of the tree, or passes
      the root exactly when no slot is free. */
  method Climb(nodes: seq<TreeNode>, start: nat) returns (r: Option<nat>)
    requires WellFormed(nodes) && start < |nodes| && AllShaped(nodes) && OpensAbove(nodes, start)
    ensures r.None? <==> Slots(nodes) == 0
    ensures r.Some? ==> (r.value < |nodes| && OpenNode(nodes[r.value])
                         && Anc(nodes, r.value, start) && OpensAbove(nodes, r.value))
  {
    var curr: nat := start;
    while !IsOperator(nodes[curr].value) || (nodes[curr].right.Some? && nodes[curr].left.Some?)
      invariant curr < |nodes| && Anc(nodes, curr, start) && OpensAbove(nodes, curr)
      decreases curr
    {
      if nodes[curr].parent.None? {
        SlotsZero(nodes);
        return None;
      }
      assert LinksOk(nodes, curr);
      var p := nodes[curr].parent.value;
      AncAbove(nodes, p, curr, start);
      curr := p;
    }
    SlotsZero(nodes);
    return Some(curr);
  }

  /** `curr.add_right(token)` when the right slot is free, else
      `curr.add_left(token)`. */
  method AttachNext(tree: BinaryTree, x: nat, token: Token) returns (r: Result<nat, LabelError>)
    requires tree.Valid() && tree.root == Some(0) && Grown(tree.nodes)
    requires x < |tree.nodes| && OpenNode(tree.nodes[x]) && OpensAbove(tree.nodes, x)
    modifies tree
    ensures tree.Valid() && tree.root == Some(0)
    ensures r.Success? <==> TokenText(token).Success?
    ensures r.Failure? ==> r.error == TokenText(token).error && tree.nodes == old(tree.nodes)
    ensures r.Success? ==> (r.value == |old(tree.nodes)|
                            && tree.nodes == AttachedNext(old(tree.nodes), x, NewNode(token, Some(x)).value)
                            && Grown(tree.nodes)
                            && Slots(tree.nodes) == Slots(old(tree.nodes)) - 1 + (if IsOperator(token) then 2 else 0)
                            && tree.nodes[r.value].value == token
                            && forall y :: 0 <= y < |old(tree.nodes)| ==> tree.nodes[y].value == old(tree.nodes)[y].value)
  {
    ghost var before := tree.nodes;
    if tree.nodes[x].right.None? {
      r := tree.AddRight(x, token);
    } else if tree.nodes[x].left.None? {
      r := tree.AddLeft(x, token);
    } else {
      assert false;
    }
    if r.Success? {
      var n := NewNode(token, Some(x)).value;
      GrownAttach(before, x, n);
      assert tree.nodes[r.value] == n;
    }
  }

  /** The builder after it has placed the last `m` tokens, read from the
      back: the arena has grown one node per token, node `y` holds the
      `y`-th token from the end, the free slots are those the suffix leaves
      open, and the builder has not yet met any stopping point. */
  ghost predicate Progress(tree: BinaryTree, ts: seq<Token>, m: nat, curr: nat)
    reads tree
  {
    0 < m <= |ts| && tree.Valid() && tree.root == Some(0) && curr == m - 1
    && Arena(tree.nodes, ts, m)
    && Outcome(ts) == FirstError(ts, |ts| - 1 - m)
  }

  /** The arena part of `Progress`. */
  ghost predicate Arena(nodes: seq<TreeNode>, ts: seq<Token>, m: nat)
  {
    0 < m <= |ts| && |nodes| == m && Grown(nodes)
    && (forall y :: 0 <= y < m ==> nodes[y].value == ts[|ts| - 1 - y])
    && Slots(nodes) == Open(ts[|ts| - m..])
  }

  /** Attaching the next token to the climbed-to node grows the arena by
      that token. */
  lemma ArenaStep(nodes: seq<TreeNode>, s: seq<TreeNode>, ts: seq<Token>, m: nat)
    requires Arena(nodes, ts, m) && m < |ts| && |s| == m + 1 && Grown(s)
    requires Slots(s) == Slots(nodes) - 1 + (if IsOperator(ts[|ts| - 1 - m]) then 2 else 0)
    requires s[m].value == ts[|ts| - 1 - m]
    requires forall y :: 0 <= y < m ==> s[y].value == nodes[y].value
    ensures Arena(s, ts, m + 1)
  {
    var j := |ts| - 1 - m;
    OpenStep(ts, j);
    assert j + 1 == |ts| - m && j == |ts| - (m + 1);
    forall y | 0 <= y < m + 1 ensures s[y].value == ts[|ts| - 1 - y] {
      if y < m {
        assert s[y].value == nodes[y].value;
      }
    }
  }

  /** The root made from the last token starts the builder. */
  lemma ProgressStart(tree: BinaryTree, ts: seq<Token>)
    requires ts != [] && TokenText(ts[|ts| - 1]).Success?
    requires tree.Valid() && tree.root == Some(0) && tree.nodes == [NewNode(ts[|ts| - 1], None).value]
    ensures Progress(tree, ts, 1, 0)
  {
    var last := |ts| - 1;
    GrownRoot(tree.nodes[0]);
    assert ts[last..] == [ts[last]];
    assert Ops([ts[last]][1..]) == 0 by { assert [ts[last]][1..] == []; }
  }

  /** How one round ends, from the free slots before it and the label of
      its token: no free slot means a malformed list, a token without a
      label means that label's error, and otherwise the scan goes on. */
  lemma RoundOutcome(nodes: seq<TreeNode>, ts: seq<Token>, m: nat, token: Token)
    requires Arena(nodes, ts, m) && m < |ts| && token == ts[|ts| - 1 - m]
    requires Outcome(ts) == FirstError(ts, |ts| - 1 - m)
    ensures Slots(nodes) == 0 ==> Outcome(ts) == Some(MalformedPostfix)
    ensures Slots(nodes) != 0 && TokenText(token).Failure? ==>
              Outcome(ts) == Some(BadOperand(TokenText(token).error))
    ensures Slots(nodes) != 0 && TokenText(token).Success? ==> Outcome(ts) == FirstError(ts, |ts| - 1 - (m + 1))
  {
    var j := |ts| - 1 - m;
    assert j + 1 == |ts| - m;
  }

  /** One round of the builder's loop: climb to the node that takes the
      next token, attach it there, and continue from the new node; stop
      with the error the round meets. */
  method Extend(tree: BinaryTree, ts: seq<Token>, m: nat, curr: nat) returns (stop: Option<BuildError>, next: nat)
    requires Progress(tree, ts, m, curr) && m < |ts|
    modifies tree
    ensures stop.Some? ==> Outcome(ts) == stop
    ensures stop.None? ==> Progress(tree, ts, m + 1, next)
  {
    RoundOutcome(tree.nodes, ts, m, ts[|ts| - 1 - m]);
    // `curr`, the node attached last, is the newest node of the arena.
    var at := Climb(tree.nodes, |tree.nodes| - 1);
    if at.None? {
      return Some(MalformedPostfix), curr;
    }
    stop := Place(tree, ts, m, at.value);
    next := m;
  }

  /** The second half of a round: attach the next token below node `x`,
      the open node the walk stopped at. */
  method Place(tree: BinaryTree, ts: seq<Token>, m: nat, x: nat) returns (stop: Option<BuildError>)
    requires 0 < m < |ts| && Progress(tree, ts, m, m - 1) && Slots(tree.nodes) != 0
    requires x < |tree.nodes| && OpenNode(tree.nodes[x]) && OpensAbove(tree.nodes, x)
    modifies tree
    ensures stop.Some? ==> Outcome(ts) == stop
    ensures stop.None? ==> Progress(tree, ts, m + 1, m)
  {
    var token := ts[|ts| - 1 - m];
    RoundOutcome(tree.nodes, ts, m, token);
    ghost var before := tree.nodes;
    var node := AttachNext(tree, x, token);
    if node.Failure? {
      return Some(BadOperand(node.error));
    }
    ArenaStep(before, tree.nodes, ts, m);
    return None;
  }

  /** postfix_tokens_to_binexp_tree: the tree whose postorder is the
      token list, or the error the builder stops with. */
  method PostfixToTree(postfixTokens: seq<Token>) returns (r: Result<BinaryTree, BuildError>)
    ensures r.Failure? <==> Outcome(postfixTokens).Some?
    ensures r.Failure? ==> Outcome(postfixTokens) == Some(r.error)
    ensures r.Success? ==> (fresh(r.value) && r.value.Valid() && r.value.root == Some(0)
                            && |r.value.nodes| == |postfixTokens|)
    ensures r.Success? ==> (|r.value.Postorder()| == |postfixTokens|
                            && forall i :: 0 <= i < |postfixTokens| ==>
                                 r.value.Postorder()[i] < |r.value.nodes|
                                 && r.value.nodes[r.value.Postorder()[i]].value == postfixTokens[i])
    ensures r.Success? ==> forall y :: 0 <= y < |r.value.nodes| && !IsOperator(r.value.nodes[y].value) ==>
                             (r.value.nodes[y].left.None? && r.value.nodes[y].right.None?)
    ensures r.Success? ==> ((forall y :: 0 <= y < |r.value.nodes| && IsOperator(r.value.nodes[y].value) ==>
                               r.value.nodes[y].left.Some? && r.value.nodes[y].right.Some?)
                            <==> Open(postfixTokens) == 0)
    ensures r.Success? ==> r.value.nodes[0].value == postfixTokens[|postfixTokens| - 1]
    ensures r.Success? ==> forall y :: 0 <= y < |r.value.nodes| ==>
                             (r.value.nodes[y].right.None? ==> r.value.nodes[y].left.None?)
  {
    if |postfixTokens| == 0 {
      return Failure(EmptyExpression);
    }
    var last := |postfixTokens| - 1;
    var tree := new BinaryTree();
    var made := tree.SetRoot(postfixTokens[last]);
    if made.Failure? {
      return Failure(BadOperand(made.error));
    }
    ProgressStart(tree, postfixTokens);
    var curr := 0;
    for m := 1 to |postfixTokens|
      invariant Progress(tree, postfixTokens, m, curr)
    {
      var stop;
      stop, curr := Extend(tree, postfixTokens, m, curr);
      if stop.Some? {
        return Failure(stop.value);
      }
    }
    Built(tree.nodes, postfixTokens);
    return Success(tree);
  }

  /** The finished arena: its postorder lists the tokens in order, operands
      are leaves, and every operator has both children exactly when no slot
      is left free. */
  lemma Built(nodes: seq<TreeNode>, ts: seq<Token>)
    requires Grown(nodes) && |nodes| == |ts|
    requires forall y :: 0 <= y < |nodes| ==> nodes[y].value == ts[|ts| - 1 - y]
    requires Slots(nodes) == Open(ts[0..])
    ensures forall i :: 0 <= i < |ts| ==> (PostFrom(nodes, Some(0))[i] < |nodes|
                                           && nodes[PostFrom(nodes, Some(0))[i]].value == ts[i])
    ensures forall y :: 0 <= y < |nodes| && !IsOperator(nodes[y].value) ==> (nodes[y].left.None? && nodes[y].right.None?)
    ensures (forall y :: 0 <= y < |nodes| && IsOperator(nodes[y].value) ==> nodes[y].left.Some? && nodes[y].right.Some?)
            <==> Open(ts) == 0
    ensures forall y :: 0 <= y < |nodes| ==> (nodes[y].right.None? ==> nodes[y].left.None?)
  {
    BuiltOrder(nodes, ts);
    assert ts[0..] == ts;
    BuiltFull(nodes);
  }

  /** The postorder of the finished arena lists the tokens in order. */
  lemma BuiltOrder(nodes: seq<TreeNode>, ts: seq<Token>)
    requires WellFormed(nodes) && |nodes| > 0 && PostFrom(nodes, Some(0)) == Down(|nodes|) && |nodes| == |ts|
    requires forall y :: 0 <= y < |nodes| ==> nodes[y].value == ts[|ts| - 1 - y]
    ensures forall i :: 0 <= i < |ts| ==> (PostFrom(nodes, Some(0))[i] < |nodes|
                                           && nodes[PostFrom(nodes, Some(0))[i]].value == ts[i])
  {
    forall i | 0 <= i < |ts| ensures PostFrom(nodes, Some(0))[i] < |nodes| && nodes[PostFrom(nodes, Some(0))[i]].value == ts[i] {
      DownAt(|nodes|, i);
    }
  }

  /** In a shaped arena operands are leaves, and every operator has both
      children exactly when no slot is free. */
  lemma BuiltFull(nodes: seq<TreeNode>)
    requires AllShaped(nodes)
    ensures forall y :: 0 <= y < |nodes| && !IsOperator(nodes[y].value) ==> (nodes[y].left.None? && nodes[y].right.None?)
    ensures (forall y :: 0 <= y < |nodes| && IsOperator(nodes[y].value) ==> nodes[y].left.Some? && nodes[y].right.Some?)
            <==> Slots(nodes) == 0
    ensures forall y :: 0 <= y < |nodes| ==> (nodes[y].right.None? ==> nodes[y].left.None?)
  {
    SlotsZero(nodes);
    assert forall y :: 0 <= y < |nodes| ==> Shaped(nodes[y]);
  }
}
