/** infix_tokens_to_postfix_tokens: the shunting-yard conversion of an infix
    token list into a postfix one, with the precedence table `*` = 3,
    `+` = 1, `(` = 0. */
module Shunting {
  import opened Wrappers
  import opened Kernel
  import opened Seqs
  import opened Tree
  import opened Builder

  /** `operator_stack.pop()` on an empty stack: a `)` with no `(` left to
      match it. */
  datatype ShuntError = UnmatchedClose

  /** The operator stack (top last) and the output list. */
  datatype Yard = Yard(stack: seq<Token>, out: seq<Token>)

  /** The precedence table. The source's table has entries only for `*`,
      `+` and `(`, and those are the only tokens ever looked up: an
      incoming token is looked up only when it is an operator, and the
      stack holds nothing else (`Accounted`). */
  function Prec(t: Token): nat
  {
    match t
    case Times => 3
    case Plus => 1
    case _ => 0
  }

  predicate Stackable(t: Token) {
    t == Plus || t == Times || t == LParen
  }

  predicate OnlyStackable(s: seq<Token>) {
    forall i :: 0 <= i < |s| ==> Stackable(s[i])
  }

  /** The tokens of `s` in the order repeated pops deliver them. */
  function Reversed(s: seq<Token>): (r: seq<Token>)
    ensures |r| == |s|
  {
    if s == [] then [] else [s[|s| - 1]] + Reversed(s[..|s| - 1])
  }

  /** The `i`-th token popped is the `i`-th from the top. */
  lemma {:induction false} ReversedAt(s: seq<Token>)
    ensures forall i :: 0 <= i < |s| ==> Reversed(s)[i] == s[|s| - 1 - i]
  {
    if s != [] {
      ReversedAt(s[..|s| - 1]);
    }
  }

  /** Popping the top first and the rest afterwards. */
  lemma ReversedSplit(s: seq<Token>, k: nat)
    requires k < |s|
    ensures Reversed(s[k..]) == [s[|s| - 1]] + Reversed(s[..|s| - 1][k..])
  {
    assert s[k..][..|s[k..]| - 1] == s[..|s| - 1][k..];
  }

  predicate AllAtLeast(s: seq<Token>, p: nat) {
    forall i :: 0 <= i < |s| ==> Prec(s[i]) >= p
  }

  predicate NoOpen(s: seq<Token>) {
    forall i :: 0 <= i < |s| ==> s[i] != LParen
  }

  /** The `while` loop of the operator branch: move the top of the stack to
      the output while its precedence is at least `p`. */
  function PopWhile(y: Yard, p: nat): Yard
    decreases |y.stack|
  {
    if y.stack != [] && Prec(y.stack[|y.stack| - 1]) >= p then
      PopWhile(Yard(y.stack[..|y.stack| - 1], y.out + [y.stack[|y.stack| - 1]]), p)
    else y
  }

  /** What the operator branch keeps is a prefix of the stack whose top
      binds less tightly than `p`. */
  lemma {:induction false} PopWhileKeeps(y: Yard, p: nat)
    ensures var r := PopWhile(y, p);
            |r.stack| <= |y.stack| && r.stack == y.stack[..|r.stack|]
            && (r.stack == [] || Prec(r.stack[|r.stack| - 1]) < p)
    decreases |y.stack|
  {
    if y.stack != [] && Prec(y.stack[|y.stack| - 1]) >= p {
      var z := Yard(y.stack[..|y.stack| - 1], y.out + [y.stack[|y.stack| - 1]]);
      PopWhileKeeps(z, p);
      assert PopWhile(y, p) == PopWhile(z, p);
    }
  }

  /** What the operator branch pops was all at least `p`, and it reaches
      the output top first. */
  lemma {:induction false} PopWhilePops(y: Yard, p: nat)
    ensures |PopWhile(y, p).stack| <= |y.stack|
    ensures PopWhile(y, p).out == y.out + Reversed(y.stack[|PopWhile(y, p).stack|..])
    ensures AllAtLeast(y.stack[|PopWhile(y, p).stack|..], p)
    decreases |y.stack|
  {
    if y.stack != [] && Prec(y.stack[|y.stack| - 1]) >= p {
      var top := y.stack[|y.stack| - 1];
      var front := y.stack[..|y.stack| - 1];
      var z := Yard(front, y.out + [top]);
      PopWhilePops(z, p);
      assert PopWhile(y, p) == PopWhile(z, p);
      var k := |PopWhile(z, p).stack|;
      PoppedSplit(y.stack, k);
      ReversedSplit(y.stack, k);
      AppendAssoc(y.out, [top], Reversed(front[k..]));
      assert AllAtLeast(front[k..], p);
      AllAtLeastSnoc(front[k..], top, p);
    } else {
      assert y.stack[|y.stack|..] == [];
    }
  }

  lemma PoppedSplit(s: seq<Token>, k: nat)
    requires k < |s|
    ensures s[k..] == s[..|s| - 1][k..] + [s[|s| - 1]]
  {
  }

  lemma AllAtLeastSnoc(s: seq<Token>, t: Token, p: nat)
    requires AllAtLeast(s, p) && Prec(t) >= p
    ensures AllAtLeast(s + [t], p)
  {
    assert forall i :: 0 <= i < |s| ==> (s + [t])[i] == s[i];
  }

  /** The `)` branch: pop into the output down to the nearest `(`, which is
      dropped; popping an empty stack fails. */
  function PopToOpen(y: Yard): Result<Yard, ShuntError>
    decreases |y.stack|
  {
    if y.stack == [] then Failure(UnmatchedClose)
    else if y.stack[|y.stack| - 1] == LParen then Success(Yard(y.stack[..|y.stack| - 1], y.out))
    else PopToOpen(Yard(y.stack[..|y.stack| - 1], y.out + [y.stack[|y.stack| - 1]]))
  }

  /** The `)` branch fails exactly when no `(` is stacked. */
  lemma {:induction false} PopToOpenFails(y: Yard)
    ensures PopToOpen(y).Failure? <==> NoOpen(y.stack)
    decreases |y.stack|
  {
    if y.stack != [] {
      var front := y.stack[..|y.stack| - 1];
      if y.stack[|y.stack| - 1] != LParen {
        PopToOpenFails(Yard(front, y.out + [y.stack[|y.stack| - 1]]));
        assert y.stack == front + [y.stack[|y.stack| - 1]];
        if NoOpen(front) {
          NoOpenSnoc(front, y.stack[|y.stack| - 1]);
        }
        assert forall i :: 0 <= i < |front| ==> front[i] == y.stack[i];
      } else {
        assert !NoOpen(y.stack) by {
          assert y.stack[|y.stack| - 1] == LParen;
        }
      }
    }
  }

  /** When it succeeds, the `)` branch stops at the topmost `(` and keeps
      the stack below it. */
  lemma {:induction false} PopToOpenKeeps(y: Yard)
    requires PopToOpen(y).Success?
    ensures var k := |PopToOpen(y).value.stack|;
            k < |y.stack| && PopToOpen(y).value.stack == y.stack[..k] && y.stack[k] == LParen
    decreases |y.stack|
  {
    if y.stack[|y.stack| - 1] != LParen {
      var z := Yard(y.stack[..|y.stack| - 1], y.out + [y.stack[|y.stack| - 1]]);
      PopToOpenKeeps(z);
      assert PopToOpen(y) == PopToOpen(z);
    }
  }

  /** The tokens above that `(` are not `(` and reach the output top
      first. */
  lemma {:induction false} PopToOpenPops(y: Yard)
    requires PopToOpen(y).Success?
    ensures |PopToOpen(y).value.stack| < |y.stack|
    ensures NoOpen(y.stack[|PopToOpen(y).value.stack| + 1..])
    ensures PopToOpen(y).value.out == y.out + Reversed(y.stack[|PopToOpen(y).value.stack| + 1..])
    decreases |y.stack|
  {
    var top := y.stack[|y.stack| - 1];
    var front := y.stack[..|y.stack| - 1];
    if top == LParen {
      assert y.stack[|y.stack|..] == [];
    } else {
      var z := Yard(front, y.out + [top]);
      PopToOpenPops(z);
      assert PopToOpen(y) == PopToOpen(z);
      var k := |PopToOpen(z).value.stack|;
      PoppedSplit(y.stack, k + 1);
      ReversedSplit(y.stack, k + 1);
      AppendAssoc(y.out, [top], Reversed(front[k + 1..]));
      assert NoOpen(front[k + 1..]);
      NoOpenSnoc(front[k + 1..], top);
    }
  }

  lemma NoOpenSnoc(s: seq<Token>, t: Token)
    requires NoOpen(s) && t != LParen
    ensures NoOpen(s + [t])
  {
    assert forall i :: 0 <= i < |s| ==> (s + [t])[i] == s[i];
  }

  /** One pass of the `for` loop. */
  function Step(y: Yard, t: Token): Result<Yard, ShuntError>
  {
    if IsOperator(t) then
      var z := PopWhile(y, Prec(t));
      Success(Yard(z.stack + [t], z.out))
    else if t == LParen then Success(Yard(y.stack + [t], y.out))
    else if t == RParen then PopToOpen(y)
    else Success(Yard(y.stack, y.out + [t]))
  }

  /** The `for` loop from state `y` over `ts`; the first failure ends it. */
  function RunFrom(y: Yard, ts: seq<Token>): Result<Yard, ShuntError>
    decreases |ts|
  {
    if ts == [] then Success(y)
    else match Step(y, ts[0])
      case Failure(e) => Failure(e)
      case Success(z) => RunFrom(z, ts[1..])
  }

  /** A run continued from wherever `r` left it. */
  function Continue(r: Result<Yard, ShuntError>, ts: seq<Token>): Result<Yard, ShuntError>
  {
    match r
    case Failure(e) => Failure(e)
    case Success(y) => RunFrom(y, ts)
  }

  /** The stack popped empty onto the output: the final `while` loop. */
  function Drain(y: Yard): seq<Token> {
    y.out + Reversed(y.stack)
  }

  /** infix_tokens_to_postfix_tokens as a function. */
  function Shunt(ts: seq<Token>): Result<seq<Token>, ShuntError>
  {
    match RunFrom(Yard([], []), ts)
    case Failure(e) => Failure(e)
    case Success(y) => Success(Drain(y))
  }

  /** Reading `a + b` is reading `a`, then `b`; a failure in `a` is final. */
  lemma {:induction false} RunFromAppend(y: Yard, a: seq<Token>, b: seq<Token>)
    ensures RunFrom(y, a + b) == Continue(RunFrom(y, a), b)
    decreases |a|
  {
    if a == [] {
      assert a + b == b;
    } else {
      assert (a + b)[0] == a[0];
      assert (a + b)[1..] == a[1..] + b;
      match Step(y, a[0])
      case Failure(e) =>
      case Success(z) => RunFromAppend(z, a[1..], b);
    }
  }

  lemma RunFromOne(y: Yard, t: Token)
    ensures RunFrom(y, [t]) == Step(y, t)
  {
    assert [t][1..] == [];
  }

  lemma RunFromSnoc(y: Yard, ts: seq<Token>, t: Token)
    ensures RunFrom(y, ts + [t]) == Continue(RunFrom(y, ts), [t])
  {
    RunFromAppend(y, ts, [t]);
  }

  /** The `for` loop has read the first `i` tokens of `ts` without a
      failure and reached `y`. */
  ghost predicate Reached(ts: seq<Token>, i: nat, y: Yard) {
    i <= |ts| && RunFrom(Yard([], []), ts[..i]) == Success(y)
  }

  lemma Advance(ts: seq<Token>, i: nat, y: Yard, z: Yard)
    requires Reached(ts, i, y) && i < |ts| && Step(y, ts[i]) == Success(z)
    ensures Reached(ts, i + 1, z)
  {
    assert ts[..i + 1] == ts[..i] + [ts[i]];
    RunFromSnoc(Yard([], []), ts[..i], ts[i]);
    RunFromOne(y, ts[i]);
  }

  /** A failing token makes the whole conversion fail. */
  lemma Stuck(ts: seq<Token>, i: nat, y: Yard)
    requires Reached(ts, i, y) && i < |ts| && Step(y, ts[i]).Failure?
    ensures Shunt(ts) == Failure(UnmatchedClose)
  {
    var a := ts[..i + 1];
    assert a == ts[..i] + [ts[i]];
    RunFromSnoc(Yard([], []), ts[..i], ts[i]);
    RunFromOne(y, ts[i]);
    assert ts == a + ts[i + 1..];
    FailureIsFinal(Yard([], []), a, ts[i + 1..]);
    assert Shunt(ts).error.UnmatchedClose?;
  }

  lemma FailureIsFinal(y: Yard, a: seq<Token>, b: seq<Token>)
    requires RunFrom(y, a).Failure?
    ensures RunFrom(y, a + b).Failure?
  {
    RunFromAppend(y, a, b);
  }

  /** The last token read: the final drain gives the result. */
  lemma Finished(ts: seq<Token>, y: Yard)
    requires Reached(ts, |ts|, y)
    ensures Shunt(ts) == Success(Drain(y))
  {
    assert ts[..|ts|] == ts;
  }

  /** One pop of the final drain. */
  lemma DrainStep(s: seq<Token>, o: seq<Token>)
    requires s != []
    ensures Drain(Yard(s, o)) == Drain(Yard(s[..|s| - 1], o + [s[|s| - 1]]))
  {
    AppendAssoc(o, [s[|s| - 1]], Reversed(s[..|s| - 1]));
  }

  /** The loop as the source writes it, on a stack and an output list. */
  method InfixToPostfix(infixTokens: seq<Token>) returns (r: Result<seq<Token>, ShuntError>)
    ensures r == Shunt(infixTokens)
  {
    var operatorStack: seq<Token> := [];
    var postfixTokens: seq<Token> := [];
    for i := 0 to |infixTokens|
      invariant Reached(infixTokens, i, Yard(operatorStack, postfixTokens))
    {
      var token := infixTokens[i];
      ghost var before := Yard(operatorStack, postfixTokens);
      if IsOperator(token) {
        while operatorStack != [] && Prec(operatorStack[|operatorStack| - 1]) >= Prec(token)
          invariant PopWhile(Yard(operatorStack, postfixTokens), Prec(token)) == PopWhile(before, Prec(token))
          decreases |operatorStack|
        {
          postfixTokens := postfixTokens + [operatorStack[|operatorStack| - 1]];
          operatorStack := operatorStack[..|operatorStack| - 1];
        }
        operatorStack := operatorStack + [token];
      } else if token == LParen {
        operatorStack := operatorStack + [token];
      } else if token == RParen {
        if operatorStack == [] {
          Stuck(infixTokens, i, before);
          return Failure(UnmatchedClose);
        }
        var topToken := operatorStack[|operatorStack| - 1];
        operatorStack := operatorStack[..|operatorStack| - 1];
        assert operatorStack + [topToken] == before.stack;
        while topToken != LParen
          invariant PopToOpen(Yard(operatorStack + [topToken], postfixTokens)) == PopToOpen(before)
          decreases |operatorStack|
        {
          ghost var rest := operatorStack;
          assert (rest + [topToken])[..|rest|] == rest;
          postfixTokens := postfixTokens + [topToken];
          if operatorStack == [] {
            Stuck(infixTokens, i, before);
            return Failure(UnmatchedClose);
          }
          topToken := operatorStack[|operatorStack| - 1];
          operatorStack := operatorStack[..|operatorStack| - 1];
          assert operatorStack + [topToken] == rest;
        }
        assert (operatorStack + [topToken])[..|operatorStack|] == operatorStack;
      } else {
        postfixTokens := postfixTokens + [token];
      }
      Advance(infixTokens, i, before, Yard(operatorStack, postfixTokens));
    }
    Finished(infixTokens, Yard(operatorStack, postfixTokens));
    ghost var final := Yard(operatorStack, postfixTokens);
    while operatorStack != []
      invariant Drain(Yard(operatorStack, postfixTokens)) == Drain(final)
      decreases |operatorStack|
    {
      DrainStep(operatorStack, postfixTokens);
      postfixTokens := postfixTokens + [operatorStack[|operatorStack| - 1]];
      operatorStack := operatorStack[..|operatorStack| - 1];
    }
    assert Reversed(operatorStack) == [];
    assert Drain(Yard(operatorStack, postfixTokens)) == postfixTokens;
    return Success(postfixTokens);
  }

  // ---------------------------------------------------------------------
  // What the conversion keeps and what it drops.

  lemma CountOne(u: Token, t: Token)
    ensures Count([u], t) == if u == t then 1 else 0
  {
    assert [u][1..] == [];
  }

  lemma CountSnoc(s: seq<Token>, u: Token, t: Token)
    ensures Count(s + [u], t) == Count(s, t) + (if u == t then 1 else 0)
  {
    CountAppend(s, [u], t);
    CountOne(u, t);
  }

  lemma OperandsSnoc(s: seq<Token>, u: Token)
    ensures Operands(s + [u]) == Operands(s) + (if u.Leaf? then [u.kernel] else [])
  {
    OperandsAppend(s, [u]);
    assert [u][1..] == [];
  }

  /** Popping a stack empty delivers the same tokens. */
  lemma {:induction false} CountReversed(s: seq<Token>, t: Token)
    ensures Count(Reversed(s), t) == Count(s, t)
  {
    if s != [] {
      var front := s[..|s| - 1];
      CountReversed(front, t);
      CountAppend([s[|s| - 1]], Reversed(front), t);
      assert s == front + [s[|s| - 1]];
      CountSnoc(front, s[|s| - 1], t);
    }
  }

  lemma {:induction false} NoOpenCount(s: seq<Token>)
    ensures NoOpen(s) <==> Count(s, LParen) == 0
  {
    if s != [] {
      NoOpenCount(s[1..]);
      assert forall i :: 0 < i < |s| ==> s[i] == s[1..][i - 1];
      assert NoOpen(s[1..]) && s[0] != LParen ==> NoOpen(s);
    }
  }

  /** Stacked tokens are neither operands nor `)`. */
  lemma {:induction false} StackableCounts(s: seq<Token>)
    requires OnlyStackable(s)
    ensures Operands(s) == [] && Count(s, RParen) == 0
  {
    if s != [] {
      assert OnlyStackable(s[1..]) by {
        assert forall i :: 0 <= i < |s| - 1 ==> s[1..][i] == s[i + 1];
      }
      StackableCounts(s[1..]);
    }
  }

  lemma StackableReversed(s: seq<Token>)
    requires OnlyStackable(s)
    ensures OnlyStackable(Reversed(s))
  {
    ReversedAt(s);
  }

  lemma StackableSplit(s: seq<Token>, k: nat)
    requires OnlyStackable(s) && k <= |s|
    ensures OnlyStackable(s[..k]) && OnlyStackable(s[k..])
  {
    assert forall i :: 0 <= i < |s| - k ==> s[k..][i] == s[k + i];
  }

  /** Moving the part `popped` of a stack to the output, top first, keeps
      the number of each token in stack and output together, and adds no
      operand and no `)` to the output. */
  lemma PopAccount(kept: seq<Token>, popped: seq<Token>, out: seq<Token>, t: Token)
    requires OnlyStackable(popped)
    ensures Count(out + Reversed(popped), t) + Count(kept, t) == Count(out, t) + Count(kept + popped, t)
    ensures Operands(out + Reversed(popped)) == Operands(out)
    ensures Count(out + Reversed(popped), RParen) == Count(out, RParen)
  {
    CountAppend(kept, popped, t);
    CountAppend(out, Reversed(popped), t);
    CountReversed(popped, t);
    StackableReversed(popped);
    StackableCounts(Reversed(popped));
    OperandsAppend(out, Reversed(popped));
    CountAppend(out, Reversed(popped), RParen);
  }

  /** The invariant of the `for` loop after the prefix `ts`: only `+`, `*`
      and `(` are stacked (so every precedence lookup is one the table
      answers); the output holds no parenthesis and the operands of `ts`
      in order; every `+` and `*` read is in the output or on the stack;
      and the stack holds one `(` per `(` not yet closed. */
  ghost predicate Accounted(y: Yard, ts: seq<Token>)
  {
    OnlyStackable(y.stack)
    && Count(y.out, LParen) == 0 && Count(y.out, RParen) == 0
    && Operands(y.out) == Operands(ts)
    && Count(y.out, Plus) + Count(y.stack, Plus) == Count(ts, Plus)
    && Count(y.out, Times) + Count(y.stack, Times) == Count(ts, Times)
    && Count(y.stack, LParen) + Count(ts, RParen) == Count(ts, LParen)
  }

  /** The operator branch, once the stack is split into what stays and
      what is popped. */
  lemma OperatorAccount(y: Yard, ts: seq<Token>, t: Token, z: Yard, popped: seq<Token>)
    requires Accounted(y, ts) && IsOperator(t)
    requires y.stack == z.stack + popped && Count(popped, LParen) == 0
    requires z.out == y.out + Reversed(popped)
    ensures Accounted(Yard(z.stack + [t], z.out), ts + [t])
  {
    var kept := z.stack;
    StackableSplit(y.stack, |kept|);
    assert y.stack[..|kept|] == kept && y.stack[|kept|..] == popped;
    OperatorCounts(y, ts, t, kept, popped, Plus);
    OperatorCounts(y, ts, t, kept, popped, Times);
    OperatorCounts(y, ts, t, kept, popped, LParen);
    PopAccount(kept, popped, y.out, RParen);
    CountAppend(kept, popped, LParen);
    CountSnoc(ts, t, RParen);
    OperandsSnoc(ts, t);
  }

  lemma OperatorCounts(y: Yard, ts: seq<Token>, t: Token, kept: seq<Token>, popped: seq<Token>, u: Token)
    requires OnlyStackable(popped) && y.stack == kept + popped
    ensures Count(y.out + Reversed(popped), u) + Count(kept + [t], u)
            == Count(y.out, u) + Count(y.stack, u) + (if t == u then 1 else 0)
    ensures Count(ts + [t], u) == Count(ts, u) + (if t == u then 1 else 0)
    ensures Count(kept + [t], u) == Count(kept, u) + (if t == u then 1 else 0)
  {
    PopAccount(kept, popped, y.out, u);
    CountSnoc(kept, t, u);
    CountSnoc(ts, t, u);
  }

  /** An operator outranks `(`, so its branch never pops one. */
  lemma AboveOpen(s: seq<Token>, p: nat)
    requires AllAtLeast(s, p) && p >= 1
    ensures Count(s, LParen) == 0
  {
    assert NoOpen(s) by {
      assert forall i :: 0 <= i < |s| ==> Prec(s[i]) >= 1;
    }
    NoOpenCount(s);
  }

  /** The operator branch splits the stack into what stays and what is
      popped, and pops no `(`. */
  lemma OperatorShape(y: Yard, t: Token)
    requires IsOperator(t)
    ensures |PopWhile(y, Prec(t)).stack| <= |y.stack|
    ensures var z := PopWhile(y, Prec(t));
            var popped := y.stack[|z.stack|..];
            Step(y, t) == Success(Yard(z.stack + [t], z.out))
            && y.stack == z.stack + popped && Count(popped, LParen) == 0
            && z.out == y.out + Reversed(popped)
  {
    var z := PopWhile(y, Prec(t));
    PopWhileKeeps(y, Prec(t));
    PopWhilePops(y, Prec(t));
    var popped := y.stack[|z.stack|..];
    AboveOpen(popped, Prec(t));
    assert y.stack == z.stack + popped;
  }

  lemma StepOperatorAccounted(y: Yard, ts: seq<Token>, t: Token)
    requires Accounted(y, ts) && IsOperator(t)
    ensures Step(y, t).Success? && Accounted(Step(y, t).value, ts + [t])
  {
    OperatorShape(y, t);
    var z := PopWhile(y, Prec(t));
    OperatorAccount(y, ts, t, z, y.stack[|z.stack|..]);
  }

  lemma {:induction false} StepOpenAccounted(y: Yard, ts: seq<Token>)
    requires Accounted(y, ts)
    ensures Step(y, LParen).Success? && Accounted(Step(y, LParen).value, ts + [LParen])
  {
    CountSnoc(y.stack, LParen, Plus);
    CountSnoc(y.stack, LParen, Times);
    CountSnoc(y.stack, LParen, LParen);
    CountSnoc(ts, LParen, Plus);
    CountSnoc(ts, LParen, Times);
    CountSnoc(ts, LParen, LParen);
    CountSnoc(ts, LParen, RParen);
    OperandsSnoc(ts, LParen);
  }

  /** The `)` branch, once the stack is split at the `(` it stops at. */
  lemma CloseAccount(y: Yard, ts: seq<Token>, z: Yard, popped: seq<Token>)
    requires Accounted(y, ts)
    requires y.stack == z.stack + [LParen] + popped && Count(popped, LParen) == 0
    requires z.out == y.out + Reversed(popped)
    ensures Accounted(z, ts + [RParen])
  {
    var kept := z.stack;
    StackableSplit(y.stack, |kept| + 1);
    assert y.stack[..|kept| + 1] == kept + [LParen] && y.stack[|kept| + 1..] == popped;
    StackableSplit(kept + [LParen], |kept|);
    assert (kept + [LParen])[..|kept|] == kept;
    CloseCounts(y, ts, kept, popped, Plus);
    CloseCounts(y, ts, kept, popped, Times);
    CloseCounts(y, ts, kept, popped, LParen);
    PopAccount(kept + [LParen], popped, y.out, RParen);
    CountAppend(kept + [LParen], popped, LParen);
    CountSnoc(kept, LParen, LParen);
    CountSnoc(ts, RParen, RParen);
    OperandsSnoc(ts, RParen);
  }

  lemma CloseCounts(y: Yard, ts: seq<Token>, kept: seq<Token>, popped: seq<Token>, u: Token)
    requires OnlyStackable(popped) && y.stack == kept + [LParen] + popped
    ensures Count(y.out + Reversed(popped), u) + Count(kept, u) + (if u == LParen then 1 else 0)
            == Count(y.out, u) + Count(y.stack, u)
    ensures u != RParen ==> Count(ts + [RParen], u) == Count(ts, u)
  {
    PopAccount(kept + [LParen], popped, y.out, u);
    CountSnoc(kept, LParen, u);
    CountSnoc(ts, RParen, u);
  }

  lemma StepCloseAccounted(y: Yard, ts: seq<Token>)
    requires Accounted(y, ts) && PopToOpen(y).Success?
    ensures Accounted(PopToOpen(y).value, ts + [RParen])
  {
    var z := PopToOpen(y).value;
    PopToOpenKeeps(y);
    PopToOpenPops(y);
    var k := |z.stack|;
    var popped := y.stack[k + 1..];
    assert y.stack == z.stack + [LParen] + popped;
    NoOpenCount(popped);
    CloseAccount(y, ts, z, popped);
  }

  lemma {:induction false} StepOperandAccounted(y: Yard, ts: seq<Token>, t: Token)
    requires Accounted(y, ts) && t.Leaf?
    ensures Step(y, t).Success? && Accounted(Step(y, t).value, ts + [t])
  {
    CountSnoc(y.out, t, Plus);
    CountSnoc(y.out, t, Times);
    CountSnoc(y.out, t, LParen);
    CountSnoc(y.out, t, RParen);
    CountSnoc(ts, t, Plus);
    CountSnoc(ts, t, Times);
    CountSnoc(ts, t, LParen);
    CountSnoc(ts, t, RParen);
    OperandsSnoc(y.out, t);
    OperandsSnoc(ts, t);
  }

  /** One token keeps the invariant, and fails exactly when it is a `)`
      with no `(` stacked. */
  lemma StepAccounted(y: Yard, ts: seq<Token>, t: Token)
    requires Accounted(y, ts)
    ensures Step(y, t).Failure? <==> t == RParen && Count(y.stack, LParen) == 0
    ensures Step(y, t).Success? ==> Accounted(Step(y, t).value, ts + [t])
  {
    if IsOperator(t) {
      StepOperatorAccounted(y, ts, t);
    } else if t == LParen {
      StepOpenAccounted(y, ts);
    } else if t == RParen {
      PopToOpenFails(y);
      NoOpenCount(y.stack);
      if PopToOpen(y).Success? {
        StepCloseAccounted(y, ts);
      }
    } else {
      StepOperandAccounted(y, ts, t);
    }
  }

  lemma PrefixBalancedSnoc(a: seq<Token>, t: Token)
    ensures PrefixBalanced(a + [t]) <==>
              PrefixBalanced(a) && Count(a + [t], RParen) <= Count(a + [t], LParen)
  {
    assert forall k :: 0 <= k <= |a| ==> (a + [t])[..k] == a[..k];
    assert (a + [t])[..|a| + 1] == a + [t];
  }

  /** The loop runs to the end exactly when no prefix closes more
      parentheses than it opens, and then its invariant holds. */
  lemma {:induction false} RunAccounted(ts: seq<Token>)
    ensures RunFrom(Yard([], []), ts).Success? <==> PrefixBalanced(ts)
    ensures RunFrom(Yard([], []), ts).Success? ==> Accounted(RunFrom(Yard([], []), ts).value, ts)
    decreases |ts|
  {
    if ts == [] {
      assert ts[..0] == [];
    } else {
      var front, t := ts[..|ts| - 1], ts[|ts| - 1];
      assert ts == front + [t];
      RunAccounted(front);
      RunFromSnoc(Yard([], []), front, t);
      PrefixBalancedSnoc(front, t);
      CountSnoc(front, t, LParen);
      CountSnoc(front, t, RParen);
      if RunFrom(Yard([], []), front).Success? {
        var y := RunFrom(Yard([], []), front).value;
        RunFromOne(y, t);
        StepAccounted(y, front, t);
        assert Count(front[..|front|], RParen) <= Count(front[..|front|], LParen);
        assert front[..|front|] == front;
      }
    }
  }

  /** The conversion succeeds exactly when no prefix of the input closes
      more parentheses than it opens; an unmatched `)` pops an empty
      stack. */
  lemma ShuntSucceeds(ts: seq<Token>)
    ensures Shunt(ts).Success? <==> PrefixBalanced(ts)
  {
    RunAccounted(ts);
  }

  /** The output lists the operands of the input in their order, holds no
      `)`, holds every `+` and `*` of the input once, and holds one `(` for
      each `(` of the input left unclosed, emitted by the final drain. */
  lemma ShuntOutput(ts: seq<Token>)
    ensures Shunt(ts).Success? ==>
              var o := Shunt(ts).value;
              Operands(o) == Operands(ts) && Count(o, RParen) == 0
              && Count(o, Plus) == Count(ts, Plus) && Count(o, Times) == Count(ts, Times)
              && Count(o, LParen) == Count(ts, LParen) - Count(ts, RParen)
  {
    RunAccounted(ts);
    if RunFrom(Yard([], []), ts).Success? {
      var y := RunFrom(Yard([], []), ts).value;
      assert Shunt(ts).value == y.out + Reversed(y.stack);
      PopAccount([], y.stack, y.out, Plus);
      PopAccount([], y.stack, y.out, Times);
      PopAccount([], y.stack, y.out, LParen);
      assert [] + y.stack == y.stack;
    }
  }

  /** With balanced input neither parenthesis reaches the output. */
  lemma ShuntBalanced(ts: seq<Token>)
    requires PrefixBalanced(ts) && Count(ts, LParen) == Count(ts, RParen)
    ensures Shunt(ts).Success?
    ensures Count(Shunt(ts).value, LParen) == 0 && Count(Shunt(ts).value, RParen) == 0
  {
    ShuntSucceeds(ts);
    ShuntOutput(ts);
  }

  /** `*` binds tighter than `+`: A + B * C becomes A B C * +. */
  lemma ShuntPrecedence(a: BaseKernel, b: BaseKernel, c: BaseKernel)
    ensures Shunt([Leaf(a), Plus, Leaf(b), Times, Leaf(c)])
            == Success([Leaf(a), Leaf(b), Leaf(c), Times, Plus])
  {
    var ts := [Leaf(a), Plus, Leaf(b), Times, Leaf(c)];
    var o1 := [] + [Leaf(a)];
    var o2 := o1 + [Leaf(b)];
    var o3 := o2 + [Leaf(c)];
    var y3 := Yard([] + [Plus], o2);
    OperandStep(Yard([], []), Leaf(a));
    OperatorStep(Yard([], o1), Plus);
    OperandStep(Yard([] + [Plus], o1), Leaf(b));
    OperatorOverLower(y3, Times);
    OperandStep(Yard([] + [Plus] + [Times], o2), Leaf(c));
    RunFive(ts, Yard([], []), Yard([], o1), Yard([] + [Plus], o1), y3,
            Yard([] + [Plus] + [Times], o2), Yard([] + [Plus] + [Times], o3));
    ReversedPair(Plus, Times);
    assert o3 + [Times, Plus] == [Leaf(a), Leaf(b), Leaf(c), Times, Plus];
  }

  /** Equal operators associate to the left: A + B + C becomes A B + C +. */
  lemma ShuntLeftAssociative(a: BaseKernel, b: BaseKernel, c: BaseKernel)
    ensures Shunt([Leaf(a), Plus, Leaf(b), Plus, Leaf(c)])
            == Success([Leaf(a), Leaf(b), Plus, Leaf(c), Plus])
  {
    var ts := [Leaf(a), Plus, Leaf(b), Plus, Leaf(c)];
    var o1 := [] + [Leaf(a)];
    var o2 := o1 + [Leaf(b)];
    var o3 := o2 + [Plus];
    var o4 := o3 + [Leaf(c)];
    var y3 := Yard([] + [Plus], o2);
    OperandStep(Yard([], []), Leaf(a));
    OperatorStep(Yard([], o1), Plus);
    OperandStep(Yard([] + [Plus], o1), Leaf(b));
    OperatorPopsOne(y3, Plus);
    OperandStep(Yard([] + [Plus], o3), Leaf(c));
    RunFive(ts, Yard([], []), Yard([], o1), Yard([] + [Plus], o1), y3,
            Yard([] + [Plus], o3), Yard([] + [Plus], o4));
    assert Reversed([] + [Plus]) == [Plus];
    assert o4 + [Plus] == [Leaf(a), Leaf(b), Plus, Leaf(c), Plus];
  }

  lemma OperandStep(y: Yard, t: Token)
    requires t.Leaf?
    ensures Step(y, t).Success? && Step(y, t).value == Yard(y.stack, y.out + [t])
  {
  }

  /** An operator read onto a stack of one operator that binds at least as
      tightly pops it. */
  lemma OperatorPopsOne(y: Yard, t: Token)
    requires IsOperator(t) && |y.stack| == 1 && Prec(y.stack[0]) >= Prec(t)
    ensures Step(y, t).Success? && Step(y, t).value == Yard([] + [t], y.out + [y.stack[0]])
  {
    assert y.stack[..0] == [];
    assert PopWhile(y, Prec(t)) == PopWhile(Yard([], y.out + [y.stack[0]]), Prec(t));
  }

  /** An operator read onto a stack whose top binds less tightly pops
      nothing. */
  lemma OperatorOverLower(y: Yard, t: Token)
    requires IsOperator(t) && y.stack != [] && Prec(y.stack[|y.stack| - 1]) < Prec(t)
    ensures Step(y, t).Success? && Step(y, t).value == Yard(y.stack + [t], y.out)
  {
  }

  lemma ReversedPair(u: Token, v: Token)
    ensures Reversed([] + [u] + [v]) == [v, u]
  {
    var s := [] + [u] + [v];
    assert s[..1] == [u] && [u][..0] == [];
  }

  /** An operator read onto an empty stack pops nothing. */
  lemma OperatorStep(y: Yard, t: Token)
    requires IsOperator(t) && y.stack == []
    ensures Step(y, t).Success? && Step(y, t).value == Yard([] + [t], y.out)
  {
  }

  lemma RunFive(ts: seq<Token>, y0: Yard, y1: Yard, y2: Yard, y3: Yard, y4: Yard, y5: Yard)
    requires |ts| == 5 && y0 == Yard([], [])
    requires Step(y0, ts[0]).Success? && Step(y0, ts[0]).value == y1
    requires Step(y1, ts[1]).Success? && Step(y1, ts[1]).value == y2
    requires Step(y2, ts[2]).Success? && Step(y2, ts[2]).value == y3
    requires Step(y3, ts[3]).Success? && Step(y3, ts[3]).value == y4
    requires Step(y4, ts[4]).Success? && Step(y4, ts[4]).value == y5
    ensures Shunt(ts) == Success(Drain(y5))
  {
    RunCons(y0, ts);
    RunCons(y1, ts[1..]);
    RunCons(y2, ts[2..]);
    RunCons(y3, ts[3..]);
    RunCons(y4, ts[4..]);
    assert ts[1..][1..] == ts[2..] && ts[2..][1..] == ts[3..] && ts[3..][1..] == ts[4..];
    assert ts[4..][1..] == [];
  }

  lemma RunCons(y: Yard, ts: seq<Token>)
    requires ts != [] && Step(y, ts[0]).Success?
    ensures RunFrom(y, ts) == RunFrom(Step(y, ts[0]).value, ts[1..])
  {
  }

  /** A `)` before any `(` fails. */
  lemma ShuntUnmatchedClose(a: BaseKernel)
    ensures Shunt([Leaf(a), RParen]) == Failure(UnmatchedClose)
  {
    var ts := [Leaf(a), RParen];
    assert Step(Yard([], []), ts[0]).value == Yard([], [Leaf(a)]);
    RunCons(Yard([], []), ts);
    assert ts[1..] == [RParen];
    RunFromOne(Yard([], [Leaf(a)]), RParen);
    match RunFrom(Yard([], []), ts)
    case Failure(e) => assert e.UnmatchedClose?;
  }

  /** The fully parenthesised infix form of an expression, as tokens: each
      application is `(` left operator right `)`. */
  function Infix(e: Expr): seq<Token>
  {
    match e
    case Operand(t) => [t]
    case Apply(op, l, r) => [LParen] + Infix(l) + [op] + Infix(r) + [RParen]
  }

  /** Reading the parenthesised form of an expression leaves the stack as
      it was and appends the expression's postfix form to the output. */
  lemma {:induction false} RunInfix(y: Yard, e: Expr)
    requires ExprOk(e)
    ensures RunFrom(y, Infix(e)) == Success(Yard(y.stack, y.out + Postfix(e)))
    decreases e, 1
  {
    match e
    case Operand(t) =>
      RunFromOne(y, t);
    case Apply(op, l, r) =>
      RunInfixApply(y, op, l, r);
  }

  lemma {:induction false} RunInfixApply(y: Yard, op: Token, l: Expr, r: Expr)
    requires IsOperator(op) && ExprOk(l) && ExprOk(r)
    ensures RunFrom(y, Infix(Apply(op, l, r))) == Success(Yard(y.stack, y.out + Postfix(Apply(op, l, r))))
    decreases Apply(op, l, r), 0
  {
    var s := y.stack;
    var y1 := Yard(s + [LParen], y.out);
    var y2 := Yard(s + [LParen], y.out + Postfix(l));
    var y3 := Yard(s + [LParen] + [op], y.out + Postfix(l));
    var y4 := Yard(s + [LParen] + [op], y.out + Postfix(l) + Postfix(r));
    var y5 := Yard(s, y.out + Postfix(l) + Postfix(r) + [op]);
    RunFromOne(y, LParen);
    RunInfix(y1, l);
    OperatorOverOpen(y2, op);
    RunFromOne(y2, op);
    RunInfix(y3, r);
    AppendAssoc(y.out, Postfix(l), Postfix(r));
    CloseOverOperator(y4, s, op);
    RunFromOne(y4, RParen);
    var i1, i2 := [LParen] + Infix(l), [LParen] + Infix(l) + [op];
    var i3 := i2 + Infix(r);
    RunFromAppend(y, [LParen], Infix(l));
    RunFromAppend(y, i1, [op]);
    RunFromAppend(y, i2, Infix(r));
    RunFromAppend(y, i3, [RParen]);
    AppendAssoc(y.out, Postfix(l) + Postfix(r), [op]);
  }

  /** An operator read right after `(` pops nothing. */
  lemma OperatorOverOpen(y: Yard, op: Token)
    requires IsOperator(op) && y.stack != [] && y.stack[|y.stack| - 1] == LParen
    ensures Step(y, op) == Success(Yard(y.stack + [op], y.out))
  {
  }

  /** A `)` read when the stack ends with `(` and one operator pops that
      operator and drops the `(`. */
  lemma CloseOverOperator(y: Yard, s: seq<Token>, op: Token)
    requires IsOperator(op) && y.stack == s + [LParen] + [op]
    ensures Step(y, RParen) == Success(Yard(s, y.out + [op]))
  {
    var z := Yard(y.stack[..|y.stack| - 1], y.out + [op]);
    assert z.stack == s + [LParen];
    assert PopToOpen(y) == PopToOpen(z);
    assert z.stack[..|z.stack| - 1] == s;
    assert PopToOpen(z).value == Yard(s, y.out + [op]);
  }

  /** The conversion turns the fully parenthesised token form of every
      well-formed expression into that expression's postfix form. */
  lemma ShuntInfix(e: Expr)
    requires ExprOk(e)
    ensures Shunt(Infix(e)) == Success(Postfix(e))
  {
    RunInfix(Yard([], []), e);
    assert [] + Postfix(e) == Postfix(e);
    assert Drain(Yard([], Postfix(e))) == Postfix(e);
  }

  /** The infix tokens of every kernel convert without failure into a
      postfix list that holds no parenthesis and the kernel's leaves in
      order, with as many `+` and `*` as the infix tokens. */
  lemma ShuntKernelTokens(k: Kernel)
    ensures Shunt(Tokenize(Flatten(k))).Success?
    ensures var o := Shunt(Tokenize(Flatten(k))).value;
            Operands(o) == KernelLeaves(k) && Count(o, LParen) == 0 && Count(o, RParen) == 0
            && Count(o, Plus) == Count(Tokenize(Flatten(k)), Plus)
            && Count(o, Times) == Count(Tokenize(Flatten(k)), Times)
  {
    var ts := Tokenize(Flatten(k));
    ParenFreeFlatten(k);
    TokenizeBalanced(Flatten(k));
    ShuntBalanced(ts);
    ShuntOutput(ts);
    TokenizeKeepsItems(Flatten(k));
    OperandsWithoutParens(ts);
    OperandsWithoutParens(Flat(Flatten(k)));
    OperandsOfFlatten(k);
  }

  // ---------------------------------------------------------------------
  // Reading back the tokens of a kernel
  // ---------------------------------------------------------------------

  /** The postfix form of a kernel read left-associatively: the parts of a
      combinator in order, with its operator after every part but the
      first. A combinator without parts contributes nothing. */
  function KernelPostfix(k: Kernel): seq<Token>
    decreases k, 1
  {
    match k
    case Base(b) => [Leaf(b)]
    case _ => if |k.parts| == 0 then [] else PartsPostfix(k, |k.parts|)
  }

  /** The postfix form of the first `n` parts of a combinator. */
  function PartsPostfix(k: Kernel, n: nat): seq<Token>
    requires !k.Base? && 1 <= n <= |k.parts|
    decreases k, 0, n
  {
    if n == 1 then KernelPostfix(k.parts[0])
    else PartsPostfix(k, n - 1) + KernelPostfix(k.parts[n - 1]) + [OperatorOf(k)]
  }

  /** The stack is empty or ends with `(`: an operator read now pops
      nothing. */
  predicate GroupBase(s: seq<Token>) {
    s == [] || s[|s| - 1] == LParen
  }

  /** What the stack holds above its base once the first `n` parts of a
      combinator have been read: its operator, from the second part on. */
  function Held(k: Kernel, n: nat): seq<Token>
    requires !k.Base?
  {
    if n >= 2 then [OperatorOf(k)] else []
  }

  /** What the output has gained once the first `n` parts have been read:
      their postfix form without the held operator. */
  function Emitted(k: Kernel, n: nat): seq<Token>
    requires !k.Base? && n <= |k.parts|
  {
    if n == 0 then []
    else if n == 1 then KernelPostfix(k.parts[0])
    else PartsPostfix(k, n - 1) + KernelPostfix(k.parts[n - 1])
  }

  lemma EmittedHeld(k: Kernel)
    requires !k.Base?
    ensures Emitted(k, |k.parts|) + Held(k, |k.parts|) == KernelPostfix(k)
  {
    if |k.parts| < 2 {
      assert Emitted(k, |k.parts|) + [] == Emitted(k, |k.parts|);
    }
  }

  lemma OperatorOverBase(y: Yard, op: Token)
    requires IsOperator(op) && GroupBase(y.stack)
    ensures Step(y, op) == Success(Yard(y.stack + [op], y.out))
  {
  }

  /** An operator read onto the same operator pops it, and only it. */
  lemma OperatorOverSame(y: Yard, s: seq<Token>, op: Token)
    requires IsOperator(op) && GroupBase(s) && y.stack == s + [op]
    ensures Step(y, op) == Success(Yard(s + [op], y.out + [op]))
  {
    var z := Yard(s, y.out + [op]);
    assert y.stack[..|y.stack| - 1] == s;
    assert PopWhile(y, Prec(op)) == PopWhile(z, Prec(op));
  }

  /** A `)` read onto a `(` drops it. */
  lemma CloseOverOpen(y: Yard, s: seq<Token>)
    requires y.stack == s + [LParen]
    ensures Step(y, RParen) == Success(Yard(s, y.out))
  {
    assert y.stack[..|y.stack| - 1] == s;
  }

  /** The corrected tokens of the first `n + 1` parts: those of the first
      `n`, the operator, then those of the next part. */
  lemma GroupedPartsSnoc(k: Kernel, n: nat)
    requires !k.Base? && 1 <= n < |k.parts|
    ensures TokenizeGrouped(Joined(Parts(k.parts[..n + 1]), Item(OperatorOf(k))))
            == TokenizeGrouped(Joined(Parts(k.parts[..n]), Item(OperatorOf(k))))
               + [OperatorOf(k)] + TokenizeGrouped([Part(k.parts[n])])
  {
    var op := Item(OperatorOf(k));
    var x := Part(k.parts[n]);
    var j := Joined(Parts(k.parts[..n]), op);
    PartsSnoc(k.parts, n);
    JoinedSnoc(Parts(k.parts[..n]), x, op);
    assert j + [op, x] == (j + [op]) + [x];
    TokenizeGroupedDistributes(j + [op], [x]);
    TokenizeGroupedDistributes(j, [op]);
    assert TokenizeGrouped([op]) == [OperatorOf(k)] by {
      assert [op][1..] == [];
    }
  }

  /** Reading the corrected tokens of one part leaves the stack as it was
      and appends the part's postfix form to the output. */
  lemma {:induction false} RunPart(y: Yard, p: Kernel)
    ensures RunFrom(y, TokenizeGrouped([Part(p)])) == Success(Yard(y.stack, y.out + KernelPostfix(p)))
    decreases p, 3
  {
    assert [Part(p)][1..] == [];
    match p
    case Base(b) =>
      assert TokenizeGrouped([Part(p)]) == [Leaf(b)] + [];
      RunFromOne(y, Leaf(b));
    case _ =>
      var t := [LParen] + TokenizeGrouped(Flatten(p)) + [RParen];
      assert TokenizeGrouped([Part(p)]) == t + TokenizeGrouped([]);
      assert t + [] == t;
      RunGroup(y, p);
  }

  /** A nested combinator in its parentheses, likewise. */
  lemma {:induction false} RunGroup(y: Yard, k: Kernel)
    requires !k.Base?
    ensures RunFrom(y, [LParen] + TokenizeGrouped(Flatten(k)) + [RParen])
            == Success(Yard(y.stack, y.out + KernelPostfix(k)))
    decreases k, 2
  {
    var body := TokenizeGrouped(Flatten(k));
    var n := |k.parts|;
    var y1 := Yard(y.stack + [LParen], y.out);
    var y2 := Yard(y1.stack + Held(k, n), y.out + Emitted(k, n));
    RunFromOne(y, LParen);
    RunBody(y1, k);
    RunFromAppend(y, [LParen], body);
    EmittedHeld(k);
    if n >= 2 {
      CloseOverOperator(y2, y.stack, OperatorOf(k));
      AppendAssoc(y.out, Emitted(k, n), [OperatorOf(k)]);
    } else {
      assert y2.stack == y.stack + [LParen];
      CloseOverOpen(y2, y.stack);
    }
    RunFromOne(y2, RParen);
    RunFromAppend(y, [LParen] + body, [RParen]);
  }

  /** The corrected tokens of a combinator, read from a group base, leave
      its held operator on the stack and the rest of its postfix form in
      the output. */
  lemma {:induction false} RunBody(y: Yard, k: Kernel)
    requires !k.Base? && GroupBase(y.stack)
    ensures RunFrom(y, TokenizeGrouped(Flatten(k)))
            == Success(Yard(y.stack + Held(k, |k.parts|), y.out + Emitted(k, |k.parts|)))
    decreases k, 1
  {
    FlattenParts(k);
    if |k.parts| == 0 {
      assert Flatten(k) == [];
      assert y.stack + [] == y.stack && y.out + [] == y.out;
    } else {
      assert k.parts[..|k.parts|] == k.parts;
      RunParts(y, k, |k.parts|);
    }
  }

  lemma {:induction false} RunParts(y: Yard, k: Kernel, n: nat)
    requires !k.Base? && 1 <= n <= |k.parts| && GroupBase(y.stack)
    ensures RunFrom(y, TokenizeGrouped(Joined(Parts(k.parts[..n]), Item(OperatorOf(k)))))
            == Success(Yard(y.stack + Held(k, n), y.out + Emitted(k, n)))
    decreases k, 0, n
  {
    if n == 1 {
      RunFirstPart(y, k);
    } else {
      RunParts(y, k, n - 1);
      RunNextPart(y, k, n);
    }
  }

  lemma {:induction false} RunFirstPart(y: Yard, k: Kernel)
    requires !k.Base? && 1 <= |k.parts|
    ensures RunFrom(y, TokenizeGrouped(Joined(Parts(k.parts[..1]), Item(OperatorOf(k)))))
            == Success(Yard(y.stack + Held(k, 1), y.out + Emitted(k, 1)))
    decreases k, 0, 0
  {
    assert Parts(k.parts[..1]) == [Part(k.parts[0])];
    RunPart(y, k.parts[0]);
    assert y.stack + [] == y.stack;
  }

  /** One more part: its operator, then its tokens. */
  lemma {:induction false} RunNextPart(y: Yard, k: Kernel, n: nat)
    requires !k.Base? && 2 <= n <= |k.parts| && GroupBase(y.stack)
    requires RunFrom(y, TokenizeGrouped(Joined(Parts(k.parts[..n - 1]), Item(OperatorOf(k)))))
             == Success(Yard(y.stack + Held(k, n - 1), y.out + Emitted(k, n - 1)))
    ensures RunFrom(y, TokenizeGrouped(Joined(Parts(k.parts[..n]), Item(OperatorOf(k)))))
            == Success(Yard(y.stack + Held(k, n), y.out + Emitted(k, n)))
    decreases k, 0, n - 1
  {
    var m, op := n - 1, OperatorOf(k);
    var ym := Yard(y.stack + Held(k, m), y.out + Emitted(k, m));
    var yo := Yard(y.stack + [op], y.out + PartsPostfix(k, m));
    OperatorAfterParts(y.stack, y.out, k, m);
    RunFromOne(ym, op);
    RunPart(yo, k.parts[m]);
    RunThree(y, TokenizeGrouped(Joined(Parts(k.parts[..m]), Item(op))), [op],
             TokenizeGrouped([Part(k.parts[m])]), ym, yo,
             Yard(yo.stack, yo.out + KernelPostfix(k.parts[m])));
    AppendAssoc(y.out, PartsPostfix(k, m), KernelPostfix(k.parts[m]));
    GroupedPartsSnoc(k, m);
    assert m + 1 == n;
  }

  /** Three runs one after the other. */
  lemma RunThree(y: Yard, a: seq<Token>, b: seq<Token>, c: seq<Token>, ya: Yard, yb: Yard, yc: Yard)
    requires RunFrom(y, a) == Success(ya) && RunFrom(ya, b) == Success(yb) && RunFrom(yb, c) == Success(yc)
    ensures RunFrom(y, a + b + c) == Success(yc)
  {
    RunFromAppend(y, a, b);
    RunFromAppend(y, a + b, c);
  }

  /** The operator between two parts moves the held operator, if any, to
      the output and is held in its place. */
  lemma OperatorAfterParts(s: seq<Token>, out: seq<Token>, k: Kernel, m: nat)
    requires !k.Base? && 1 <= m < |k.parts| && GroupBase(s)
    ensures Step(Yard(s + Held(k, m), out + Emitted(k, m)), OperatorOf(k))
            == Success(Yard(s + [OperatorOf(k)], out + PartsPostfix(k, m)))
  {
    var op := OperatorOf(k);
    var ym := Yard(s + Held(k, m), out + Emitted(k, m));
    if m == 1 {
      assert ym.stack == s;
      OperatorOverBase(ym, op);
    } else {
      OperatorOverSame(ym, s, op);
      AppendAssoc(out, Emitted(k, m), [op]);
    }
  }

  /** The corrected tokenizer, read back: the conversion turns the corrected
      infix tokens of every kernel into the postfix form of its
      left-associative reading, so a sum or product nested in a product
      keeps its grouping. */
  lemma ShuntGroupedKernelTokens(k: Kernel)
    ensures Shunt(TokenizeGrouped(Flatten(k))) == Success(KernelPostfix(k))
  {
    var y0 := Yard([], []);
    match k
    case Base(b) =>
      assert [Item(Leaf(b))][1..] == [];
      assert TokenizeGrouped(Flatten(k)) == [Leaf(b)] + [];
      assert [Leaf(b)] + [] == [Leaf(b)];
      StepRun(y0, Leaf(b), Yard([], [] + [Leaf(b)]));
      ShuntOfRun([Leaf(b)], Yard([], [] + [Leaf(b)]));
      assert Drain(Yard([], [] + [Leaf(b)])) == [Leaf(b)];
    case _ =>
      var n := |k.parts|;
      RunBody(y0, k);
      ShuntOfRun(TokenizeGrouped(Flatten(k)), Yard([] + Held(k, n), [] + Emitted(k, n)));
      EmittedHeld(k);
      assert [] + Held(k, n) == Held(k, n) && [] + Emitted(k, n) == Emitted(k, n);
      assert Reversed(Held(k, n)) == Held(k, n);
  }

  /** A run that reads all of `ts` ends in the drain of its last state. */
  lemma ShuntOfRun(ts: seq<Token>, y: Yard)
    requires RunFrom(Yard([], []), ts) == Success(y)
    ensures Shunt(ts) == Success(Drain(y))
  {
  }

  lemma StepRun(y: Yard, t: Token, z: Yard)
    requires Step(y, t).Success? && Step(y, t).value == z
    ensures RunFrom(y, [t]) == Success(z)
  {
    RunFromOne(y, t);
  }

  lemma RunTwo(y: Yard, a: seq<Token>, b: seq<Token>, ya: Yard, yb: Yard)
    requires RunFrom(y, a) == Success(ya) && RunFrom(ya, b) == Success(yb)
    ensures RunFrom(y, a + b) == Success(yb)
  {
    RunFromAppend(y, a, b);
  }

  /** A product of a sum and a kernel: (a + b) * c. */
  function SumTimes(a: BaseKernel, b: BaseKernel, c: BaseKernel): Kernel
  {
    Prod([Add([Base(a), Base(b)]), Base(c)])
  }

  /** The as-written tokenizer places the `)` of the sum after the rest of
      the product, so the conversion reads (a + b) * c back as a + (b * c),
      while the corrected tokens read back as (a + b) * c. */
  lemma TokenizeRegroups(a: BaseKernel, b: BaseKernel, c: BaseKernel)
    ensures Tokenize(Flatten(SumTimes(a, b, c)))
            == [LParen, Leaf(a), Plus, Leaf(b), Times, Leaf(c), RParen]
    ensures Shunt(Tokenize(Flatten(SumTimes(a, b, c))))
            == Success(Postfix(Apply(Plus, Operand(Leaf(a)), Apply(Times, Operand(Leaf(b)), Operand(Leaf(c))))))
    ensures Shunt(TokenizeGrouped(Flatten(SumTimes(a, b, c))))
            == Success(Postfix(Apply(Times, Apply(Plus, Operand(Leaf(a)), Operand(Leaf(b))), Operand(Leaf(c)))))
  {
    SumTimesTokens(a, b, c);
    ShuntRegrouped(a, b, c);
    ShuntGroupedKernelTokens(SumTimes(a, b, c));
    SumTimesPostfix(a, b, c);
  }

  lemma SumTimesTokens(a: BaseKernel, b: BaseKernel, c: BaseKernel)
    ensures Tokenize(Flatten(SumTimes(a, b, c)))
            == [LParen, Leaf(a), Plus, Leaf(b), Times, Leaf(c), RParen]
  {
    SumTimesFlatten(a, b, c);
    var g := [Item(Leaf(a)), Item(Plus), Item(Leaf(b))];
    var r := [Item(Times), Item(Leaf(c))];
    assert g[1..][1..][1..] == [] && r[1..][1..] == [];
    assert Tokenize(g[1..][1..]) == [Leaf(b)] + [];
    assert Tokenize(g[1..]) == [Plus] + ([Leaf(b)] + []);
    assert Tokenize(g) == [Leaf(a), Plus, Leaf(b)];
    assert Tokenize(r[1..]) == [Leaf(c)] + [];
    assert Tokenize(r) == [Times, Leaf(c)];
    assert ([Group(g)] + r)[1..] == r;
  }

  lemma SumTimesPostfix(a: BaseKernel, b: BaseKernel, c: BaseKernel)
    ensures KernelPostfix(SumTimes(a, b, c))
            == Postfix(Apply(Times, Apply(Plus, Operand(Leaf(a)), Operand(Leaf(b))), Operand(Leaf(c))))
    ensures Postfix(Apply(Plus, Operand(Leaf(a)), Apply(Times, Operand(Leaf(b)), Operand(Leaf(c)))))
            == [Leaf(a), Leaf(b), Leaf(c), Times, Plus]
  {
    SumTimesKernelPostfix(a, b, c);
    var la, lb, lc := Operand(Leaf(a)), Operand(Leaf(b)), Operand(Leaf(c));
    PostfixOfPair(Plus, la, lb);
    PostfixOfPair(Times, lb, lc);
    var pa := Postfix(Apply(Plus, la, lb));
    var pb := Postfix(Apply(Times, lb, lc));
    assert Postfix(Apply(Times, Apply(Plus, la, lb), lc)) == pa + [Leaf(c)] + [Times];
    assert Postfix(Apply(Plus, la, Apply(Times, lb, lc))) == [Leaf(a)] + pb + [Plus];
  }

  lemma PostfixOfPair(op: Token, l: Expr, r: Expr)
    requires l.Operand? && r.Operand?
    ensures Postfix(Apply(op, l, r)) == [l.token] + [r.token] + [op]
  {
  }

  lemma SumTimesKernelPostfix(a: BaseKernel, b: BaseKernel, c: BaseKernel)
    ensures KernelPostfix(SumTimes(a, b, c)) == [Leaf(a)] + [Leaf(b)] + [Plus] + [Leaf(c)] + [Times]
  {
    var sum := Add([Base(a), Base(b)]);
    var k := SumTimes(a, b, c);
    assert sum.parts[0] == Base(a) && sum.parts[1] == Base(b);
    assert PartsPostfix(sum, 1) == [Leaf(a)];
    assert KernelPostfix(sum) == PartsPostfix(sum, 2) == [Leaf(a)] + [Leaf(b)] + [Plus];
    assert k.parts[0] == sum && k.parts[1] == Base(c);
    assert PartsPostfix(k, 1) == KernelPostfix(sum);
    assert KernelPostfix(k) == PartsPostfix(k, 2) == KernelPostfix(sum) + [Leaf(c)] + [Times];
  }

  lemma SumTimesFlatten(a: BaseKernel, b: BaseKernel, c: BaseKernel)
    ensures Flatten(SumTimes(a, b, c))
            == [Group([Item(Leaf(a)), Item(Plus), Item(Leaf(b))]), Item(Times), Item(Leaf(c))]
  {
    var sum := Add([Base(a), Base(b)]);
    FlattenParts(sum);
    assert Parts(sum.parts) == [Item(Leaf(a)), Item(Leaf(b))];
    assert Flatten(sum) == [Item(Leaf(a)), Item(Plus), Item(Leaf(b))];
    var k := SumTimes(a, b, c);
    FlattenParts(k);
    assert Parts(k.parts) == [Group(Flatten(sum)), Item(Leaf(c))];
  }

  /** The as-written tokens of (a + b) * c, read step by step. */
  lemma ShuntRegrouped(a: BaseKernel, b: BaseKernel, c: BaseKernel)
    ensures Shunt([LParen, Leaf(a), Plus, Leaf(b), Times, Leaf(c), RParen])
            == Success([Leaf(a), Leaf(b), Leaf(c), Times, Plus])
  {
    var y0 := Yard([], []);
    var y1 := Yard([] + [LParen], []);
    var y2 := Yard(y1.stack, [] + [Leaf(a)]);
    var y3 := Yard(y1.stack + [Plus], y2.out);
    var y4 := Yard(y3.stack, y2.out + [Leaf(b)]);
    var y5 := Yard(y3.stack + [Times], y4.out);
    var y6 := Yard(y5.stack, y4.out + [Leaf(c)]);
    var y7 := Yard([], y6.out + [Times] + [Plus]);
    StepRun(y0, LParen, y1);
    OperandStep(y1, Leaf(a));
    StepRun(y1, Leaf(a), y2);
    OperatorOverOpen(y2, Plus);
    StepRun(y2, Plus, y3);
    OperandStep(y3, Leaf(b));
    StepRun(y3, Leaf(b), y4);
    OperatorOverLower(y4, Times);
    StepRun(y4, Times, y5);
    OperandStep(y5, Leaf(c));
    StepRun(y5, Leaf(c), y6);
    CloseOverTwo(y6, [], Plus, Times);
    StepRun(y6, RParen, y7);
    var p1 := [LParen] + [Leaf(a)];
    var p2 := p1 + [Plus];
    var p3 := p2 + [Leaf(b)];
    var p4 := p3 + [Times];
    var p5 := p4 + [Leaf(c)];
    RunTwo(y0, [LParen], [Leaf(a)], y1, y2);
    RunTwo(y0, p1, [Plus], y2, y3);
    RunTwo(y0, p2, [Leaf(b)], y3, y4);
    RunTwo(y0, p3, [Times], y4, y5);
    RunTwo(y0, p4, [Leaf(c)], y5, y6);
    RunTwo(y0, p5, [RParen], y6, y7);
    assert p5 + [RParen] == [LParen, Leaf(a), Plus, Leaf(b), Times, Leaf(c), RParen];
    ShuntOfRun(p5 + [RParen], y7);
    assert Drain(y7) == y7.out + [] == y7.out;
    assert y7.out == [Leaf(a), Leaf(b), Leaf(c), Times, Plus];
  }

  /** A `)` read onto `(` and two operators pops both and drops the `(`. */
  lemma CloseOverTwo(y: Yard, s: seq<Token>, u: Token, v: Token)
    requires y.stack == s + [LParen] + [u] + [v] && u != LParen && v != LParen
    ensures Step(y, RParen).Success? && Step(y, RParen).value == Yard(s, y.out + [v] + [u])
  {
    var z1 := Yard(s + [LParen] + [u], y.out + [v]);
    var z2 := Yard(s + [LParen], y.out + [v] + [u]);
    assert y.stack[..|y.stack| - 1] == z1.stack;
    assert PopToOpen(y) == PopToOpen(z1);
    assert z1.stack[..|z1.stack| - 1] == z2.stack;
    assert PopToOpen(z1) == PopToOpen(z2);
    assert z2.stack[..|z2.stack| - 1] == s;
  }
}
