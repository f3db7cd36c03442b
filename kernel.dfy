/** The kernel side of the encoding (autoks/kernel.py): the family table, the
    short label of a base kernel, the in-order flattening of a combination
    kernel into a nested list, the tokenizer that expands that list into flat
    infix tokens, and the rendering of tokens as a string.

    GPy kernels are modelled as a closed datatype: a base kernel records the
    table classes it is an instance of and its active dimensions, and a
    combination kernel is a Sum (`Add`) or a Product (`Prod`) of parts. */
module Kernel {
  import opened Wrappers
  import opened Decimal
  import opened Seqs

  // ---------------------------------------------------------------------
  // Family table (get_allowable_kernels, get_matching_kernels,
  // get_kernel_mapping)
  // ---------------------------------------------------------------------

  /** The GPy base-kernel classes named by the table. */
  datatype Family = RBF | RatQuad | Linear | StdPeriodic

  /** The family codes, in the order the label derivation tries them. */
  const AllowableKernels: seq<string> := ["SE", "RQ", "LIN", "PER"]

  /** The class each code stands for, position by position. */
  const MatchingKernels: seq<Family> := [RBF, RatQuad, Linear, StdPeriodic]

  /** dict(zip(codes, classes)). */
  function KernelMapping(): (m: map<string, Family>)
    ensures forall c :: c in m <==> c in AllowableKernels
    ensures forall i :: 0 <= i < |AllowableKernels| ==> m[AllowableKernels[i]] == MatchingKernels[i]
  {
    map["SE" := RBF, "RQ" := RatQuad, "LIN" := Linear, "PER" := StdPeriodic]
  }

  /** The code of a class: the inverse of the mapping. */
  function CodeOf(f: Family): string
  {
    match f
    case RBF => "SE"
    case RatQuad => "RQ"
    case Linear => "LIN"
    case StdPeriodic => "PER"
  }

  /** The mapping is one-to-one and onto: every class has exactly one code. */
  lemma KernelMappingInverse()
    ensures forall f: Family :: CodeOf(f) in KernelMapping() && KernelMapping()[CodeOf(f)] == f
    ensures forall c :: c in KernelMapping() ==> CodeOf(KernelMapping()[c]) == c
  {
    var m := KernelMapping();
    forall c | c in m
      ensures CodeOf(m[c]) == c
    {
      var i :| 0 <= i < 4 && AllowableKernels[i] == c;
      assert m[c] == MatchingKernels[i];
    }
    assert m[AllowableKernels[0]] == RBF && m[AllowableKernels[1]] == RatQuad;
    assert m[AllowableKernels[2]] == Linear && m[AllowableKernels[3]] == StdPeriodic;
  }

  // ---------------------------------------------------------------------
  // Base kernels and their labels (subkernel_expression)
  // ---------------------------------------------------------------------

  /** A GPy base kernel. `instanceOf` holds the table classes that
      `isinstance` accepts for it (its class and, by inheritance, any table
      class it derives from); it is empty for a kernel outside the table.
      `activeDims` is its `active_dims`. */
  datatype BaseKernel = BaseKernel(instanceOf: set<Family>, activeDims: seq<nat>)

  /** The two ways the label derivation fails: `active_dims[0]` on an empty
      list, and `matching_base_kerns[0]` when no family matches. */
  datatype LabelError = NoActiveDims | UnmatchedKernelType

  /** `k` is an instance of the i-th family of the table. */
  predicate InFamily(k: BaseKernel, i: int) {
    0 <= i < |MatchingKernels| && MatchingKernels[i] in k.instanceOf
  }

  /** The i-th family of the table is the first one `k` is an instance of. */
  predicate IsFirstMatch(k: BaseKernel, i: int) {
    InFamily(k, i) && forall j :: 0 <= j < i ==> !InFamily(k, j)
  }

  /** The positions, from `from` on, of the table codes whose class `k` is
      an instance of, in table order. The class of the code at position `i`
      is `KernelMapping()[AllowableKernels[i]] == MatchingKernels[i]`. */
  function MatchingPositions(k: BaseKernel, from: nat): (r: seq<nat>)
    requires from <= |AllowableKernels|
    ensures r == [] ==> forall i :: from <= i ==> !InFamily(k, i)
    ensures r != [] ==> from <= r[0] && InFamily(k, r[0]) && forall i :: from <= i < r[0] ==> !InFamily(k, i)
    decreases |AllowableKernels| - from
  {
    if from == |AllowableKernels| then []
    else if MatchingKernels[from] in k.instanceOf then [from] + MatchingPositions(k, from + 1)
    else MatchingPositions(k, from + 1)
  }

  /** The list holds exactly the matching positions from `from` on. */
  lemma {:induction false} MatchingPositionsExact(k: BaseKernel, from: nat)
    requires from <= |AllowableKernels|
    ensures forall j :: 0 <= j < |MatchingPositions(k, from)| ==>
              from <= MatchingPositions(k, from)[j] && InFamily(k, MatchingPositions(k, from)[j])
    ensures forall i :: from <= i && InFamily(k, i) ==> i in MatchingPositions(k, from)
    decreases |AllowableKernels| - from
  {
    if from < |AllowableKernels| {
      MatchingPositionsExact(k, from + 1);
    }
  }

  /** The label of a base kernel: the code of the first matching family,
      in table order, followed by the numeral of its first active dimension.
      An empty `activeDims` is reported before an unmatched family. */
  function SubkernelExpression(k: BaseKernel): (r: Result<string, LabelError>)
    ensures r.Success? <==> |k.activeDims| > 0 && exists i :: IsFirstMatch(k, i)
    ensures |k.activeDims| == 0 ==> r == Failure(NoActiveDims)
    ensures r.Success? ==> exists i :: IsFirstMatch(k, i)
                                   && r.value == AllowableKernels[i] + NatToDecimal(k.activeDims[0])
  {
    var matching := MatchingPositions(k, 0);
    if |k.activeDims| == 0 then
      Failure(NoActiveDims)
    else if matching == [] then
      Failure(UnmatchedKernelType)
    else
      assert IsFirstMatch(k, matching[0]);
      Success(AllowableKernels[matching[0]] + NatToDecimal(k.activeDims[0]))
  }

  predicate IsUpper(c: char) {
    'A' <= c <= 'Z'
  }

  predicate IsCapitals(w: string) {
    forall j :: 0 <= j < |w| ==> IsUpper(w[j])
  }

  lemma CodesAreCapitals(i: int)
    requires 0 <= i < |AllowableKernels|
    ensures |AllowableKernels[i]| > 0 && IsCapitals(AllowableKernels[i])
  {
    assert IsCapitals("SE") && IsCapitals("RQ") && IsCapitals("LIN") && IsCapitals("PER");
  }

  /** Capital letters followed by a numeral. */
  lemma CodeNumeralChars(code: string, n: nat)
    requires IsCapitals(code)
    ensures forall j :: 0 <= j < |code + NatToDecimal(n)| ==>
              IsUpper((code + NatToDecimal(n))[j]) || IsDigit((code + NatToDecimal(n))[j])
  {
    var s := code + NatToDecimal(n);
    forall j | 0 <= j < |s| ensures IsUpper(s[j]) || IsDigit(s[j]) {
      if j >= |code| { assert s[j] == NatToDecimal(n)[j - |code|]; }
    }
  }

  /** A label is made of capital letters followed by digits, so it holds no
      space and no parenthesis. */
  lemma LabelIsAlphanumeric(k: BaseKernel)
    requires SubkernelExpression(k).Success?
    ensures |SubkernelExpression(k).value| > 0
    ensures forall j :: 0 <= j < |SubkernelExpression(k).value| ==>
              IsUpper(SubkernelExpression(k).value[j]) || IsDigit(SubkernelExpression(k).value[j])
  {
    var s := SubkernelExpression(k).value;
    var i :| IsFirstMatch(k, i) && s == AllowableKernels[i] + NatToDecimal(k.activeDims[0]);
    CodesAreCapitals(i);
    CodeNumeralChars(AllowableKernels[i], k.activeDims[0]);
  }

  lemma FirstMatchUnique(k: BaseKernel, i: int, j: int)
    requires IsFirstMatch(k, i) && IsFirstMatch(k, j)
    ensures i == j
  {
  }

  /** Two labels are equal only for the same code and dimension: the four
      codes start with four different letters, and numerals are unique. */
  lemma CodeNumeralInjective(i1: int, n1: nat, i2: int, n2: nat)
    requires 0 <= i1 < |AllowableKernels| && 0 <= i2 < |AllowableKernels|
    requires AllowableKernels[i1] + NatToDecimal(n1) == AllowableKernels[i2] + NatToDecimal(n2)
    ensures i1 == i2 && n1 == n2
  {
    var s := AllowableKernels[i1] + NatToDecimal(n1);
    CodesAreCapitals(i1);
    CodesAreCapitals(i2);
    assert s[0] == AllowableKernels[i1][0] && s[0] == AllowableKernels[i2][0];
    assert i1 == i2;
    var c := AllowableKernels[i1];
    assert s[|c|..] == NatToDecimal(n1);
    assert s[|c|..] == NatToDecimal(n2);
    NatToDecimalInjective(n1, n2);
  }

  /** A label determines the family that produced it and the dimension. */
  lemma LabelIdentifiesKernel(k1: BaseKernel, k2: BaseKernel, i1: int, i2: int)
    requires IsFirstMatch(k1, i1) && IsFirstMatch(k2, i2)
    requires SubkernelExpression(k1).Success? && SubkernelExpression(k1) == SubkernelExpression(k2)
    ensures i1 == i2 && k1.activeDims[0] == k2.activeDims[0]
  {
    var s := SubkernelExpression(k1).value;
    var j1 :| IsFirstMatch(k1, j1) && s == AllowableKernels[j1] + NatToDecimal(k1.activeDims[0]);
    var j2 :| IsFirstMatch(k2, j2) && s == AllowableKernels[j2] + NatToDecimal(k2.activeDims[0]);
    FirstMatchUnique(k1, i1, j1);
    FirstMatchUnique(k2, i2, j2);
    CodeNumeralInjective(i1, k1.activeDims[0], i2, k2.activeDims[0]);
  }

  // ---------------------------------------------------------------------
  // get_all_1d_kernels
  // ---------------------------------------------------------------------

  /** `kernel_mapping[kern_fam]` raises KeyError for a code outside the table. */
  datatype FamilyError = UnknownKernelFamily(code: string)

  /** The position where the kernels of family `f` start: `f * n`, written
      as repeated addition so that the layout proofs stay linear. */
  function RowStart(f: nat, n: nat): nat
  {
    if f == 0 then 0 else RowStart(f - 1, n) + n
  }

  lemma {:induction false} RowStartIsProduct(f: nat, n: nat)
    ensures RowStart(f, n) == f * n
  {
    if f > 0 {
      RowStartIsProduct(f - 1, n);
    }
  }

  lemma {:induction false} RowStartMonotone(f: nat, f': nat, n: nat)
    requires f < f'
    ensures RowStart(f, n) + n <= RowStart(f', n)
    decreases f'
  {
    if f + 1 < f' {
      RowStartMonotone(f, f' - 1, n);
    }
  }

  /** `ks` holds, family-major, the kernels of each family of `fams` on each
      dimension below `nDims`: the `nDims` kernels from `f * nDims` on are
      those of family `f`. */
  ghost predicate FamilyMajor(ks: seq<BaseKernel>, fams: seq<Family>, nDims: nat)
  {
    |ks| == RowStart(|fams|, nDims)
    && forall f :: 0 <= f < |fams| ==>
         RowStart(f, nDims) + nDims <= |ks|
         && ks[RowStart(f, nDims)..RowStart(f, nDims) + nDims] == Row(fams[f], nDims)
  }

  /** The classes the codes name, code by code. */
  function Families(codes: seq<string>): (r: seq<Family>)
    requires forall c :: c in codes ==> c in KernelMapping()
    ensures |r| == |codes| && forall i :: 0 <= i < |codes| ==> r[i] == KernelMapping()[codes[i]]
  {
    seq(|codes|, i requires 0 <= i < |codes| => KernelMapping()[codes[i]])
  }

  /** The kernels of one family, one per dimension below `n`: each an
      instance of exactly that family with the single active dimension `d`. */
  function Row(fam: Family, n: nat): (r: seq<BaseKernel>)
    ensures |r| == n && forall d :: 0 <= d < n ==> r[d] == BaseKernel({fam}, [d])
  {
    seq(n, d requires 0 <= d < n => BaseKernel({fam}, [d]))
  }

  /** The kernels of all the families, family by family. */
  function Expand(fams: seq<Family>, nDims: nat): seq<BaseKernel>
  {
    if fams == [] then []
    else Expand(fams[..|fams| - 1], nDims) + Row(fams[|fams| - 1], nDims)
  }

  /** Expand lays the kernels out family-major. */
  lemma {:induction false} ExpandIndex(fams: seq<Family>, nDims: nat)
    ensures FamilyMajor(Expand(fams, nDims), fams, nDims)
  {
    if fams != [] {
      var init := fams[..|fams| - 1];
      ExpandIndex(init, nDims);
      var prev := Expand(init, nDims);
      var e := Expand(fams, nDims);
      assert e == prev + Row(fams[|fams| - 1], nDims);
      forall f | 0 <= f < |fams|
        ensures RowStart(f, nDims) + nDims <= |e|
        ensures e[RowStart(f, nDims)..RowStart(f, nDims) + nDims] == Row(fams[f], nDims)
      {
        if f < |init| {
          RowStartMonotone(f, |init|, nDims);
          assert fams[f] == init[f];
          assert e[RowStart(f, nDims)..RowStart(f, nDims) + nDims] == prev[RowStart(f, nDims)..RowStart(f, nDims) + nDims];
        } else {
          assert e[RowStart(f, nDims)..] == Row(fams[f], nDims);
        }
      }
    }
  }

  /** In a family-major layout the kernel of family `f` on dimension `d`
      sits at `f * nDims + d`. */
  lemma FamilyMajorAt(ks: seq<BaseKernel>, fams: seq<Family>, nDims: nat, f: nat, d: nat)
    requires FamilyMajor(ks, fams, nDims) && f < |fams| && d < nDims
    ensures f * nDims + d < |ks| && ks[f * nDims + d] == BaseKernel({fams[f]}, [d])
  {
    RowStartIsProduct(f, nDims);
    var start := RowStart(f, nDims);
    assert ks[start..start + nDims][d] == Row(fams[f], nDims)[d];
  }

  /** One kernel per (family, dimension) pair: `|baseKernels| * nDims`
      kernels, family-major, each an instance of exactly its family with the
      single active dimension `d`. The GPy constructor call itself is not
      modelled: the created kernel is its class and active dimensions. */
  method GetAll1dKernels(baseKernels: seq<string>, nDims: nat) returns (r: Result<seq<BaseKernel>, FamilyError>)
    ensures r.Success? <==> forall c :: c in baseKernels ==> c in KernelMapping()
    ensures r.Failure? ==> exists f :: 0 <= f < |baseKernels| && baseKernels[f] !in KernelMapping()
                                   && r.error == UnknownKernelFamily(baseKernels[f])
                                   && forall g :: 0 <= g < f ==> baseKernels[g] in KernelMapping()
    ensures r.Success? ==> |r.value| == |baseKernels| * nDims
    ensures r.Success? ==> FamilyMajor(r.value, Families(baseKernels), nDims)
  {
    var kernelMapping := KernelMapping();
    var models: seq<BaseKernel> := [];
    ghost var fams: seq<Family> := [];
    for f := 0 to |baseKernels|
      invariant forall g :: 0 <= g < f ==> baseKernels[g] in kernelMapping
      invariant |fams| == f && forall g :: 0 <= g < f ==> fams[g] == kernelMapping[baseKernels[g]]
      invariant models == Expand(fams, nDims)
    {
      if baseKernels[f] !in kernelMapping {
        return Failure(UnknownKernelFamily(baseKernels[f]));
      }
      var kernMap := kernelMapping[baseKernels[f]];
      ghost var before := models;
      for d := 0 to nDims
        invariant models == before + Row(kernMap, d)
      {
        assert Row(kernMap, d + 1) == Row(kernMap, d) + [BaseKernel({kernMap}, [d])];
        models := models + [BaseKernel({kernMap}, [d])];
      }
      ExpandSnoc(fams, kernMap, nDims);
      fams := fams + [kernMap];
    }
    All1dDone(baseKernels, fams, nDims);
    return Success(models);
  }

  lemma ExpandSnoc(fams: seq<Family>, fam: Family, nDims: nat)
    ensures Expand(fams + [fam], nDims) == Expand(fams, nDims) + Row(fam, nDims)
  {
    assert (fams + [fam])[..|fams|] == fams;
  }

  /** Once every code has been looked up, the kernels built are the
      family-major layout of the codes' families. */
  lemma All1dDone(codes: seq<string>, fams: seq<Family>, nDims: nat)
    requires forall g :: 0 <= g < |codes| ==> codes[g] in KernelMapping()
    requires |fams| == |codes| && forall g :: 0 <= g < |codes| ==> fams[g] == KernelMapping()[codes[g]]
    ensures forall c :: c in codes ==> c in KernelMapping()
    ensures fams == Families(codes)
    ensures |Expand(fams, nDims)| == |codes| * nDims
    ensures FamilyMajor(Expand(fams, nDims), Families(codes), nDims)
  {
    assert fams == Families(codes);
    ExpandIndex(fams, nDims);
    RowStartIsProduct(|codes|, nDims);
  }

  // ---------------------------------------------------------------------
  // Combination kernels, tokens and nested lists
  // ---------------------------------------------------------------------

  /** A kernel expression: a base kernel, or a Sum or Product of parts. */
  datatype Kernel = Base(kernel: BaseKernel) | Add(parts: seq<Kernel>) | Prod(parts: seq<Kernel>)

  /** The tokens exchanged by the tokenizer, the precedence parser and the
      tree builder: the strings '+', '*', '(', ')' and base kernels. */
  datatype Token = Plus | Times | LParen | RParen | Leaf(kernel: BaseKernel)

  /** The nested list built by `in_order`: a token, or a sub-list. */
  datatype Nested = Item(token: Token) | Group(elems: seq<Nested>)

  /** The operator a combinator is joined with: '+' for Add, '*' for Prod. */
  function OperatorOf(k: Kernel): Token
    requires !k.Base?
  {
    if k.Add? then Plus else Times
  }

  /** The Python string a non-kernel token is. */
  function Symbol(t: Token): string
    requires !t.Leaf?
  {
    match t
    case Plus => "+"
    case Times => "*"
    case LParen => "("
    case RParen => ")"
  }

  // ---------------------------------------------------------------------
  // join_operands
  // ---------------------------------------------------------------------

  /** `xs` with `sep` between each pair of neighbours. */
  function Joined<T>(xs: seq<T>, sep: T): (r: seq<T>)
    ensures |r| == if |xs| == 0 then 0 else 2 * |xs| - 1
  {
    if |xs| <= 1 then xs
    else [xs[0], sep] + Joined(xs[1..], sep)
  }

  /** The elements sit at the even positions of the joined sequence and the
      separator at every odd one. */
  lemma {:induction false} JoinedLayout<T>(xs: seq<T>, sep: T)
    ensures forall i :: 0 <= i < |xs| ==> Joined(xs, sep)[2 * i] == xs[i]
    ensures forall j :: 0 <= j < |Joined(xs, sep)| && j % 2 == 1 ==> Joined(xs, sep)[j] == sep
    decreases |xs|
  {
    if |xs| > 1 {
      JoinedLayout(xs[1..], sep);
      JoinedCons(xs, sep, Joined(xs[1..], sep));
    }
  }

  /** The positions of `Joined` one element further on. */
  lemma JoinedCons<T>(xs: seq<T>, sep: T, rest: seq<T>)
    requires |xs| > 1 && |rest| == 2 * (|xs| - 1) - 1
    requires forall i :: 0 <= i < |xs| - 1 ==> rest[2 * i] == xs[1..][i]
    requires forall j :: 0 <= j < |rest| && j % 2 == 1 ==> rest[j] == sep
    ensures forall i :: 0 <= i < |xs| ==> ([xs[0], sep] + rest)[2 * i] == xs[i]
    ensures forall j :: 0 <= j < |rest| + 2 && j % 2 == 1 ==> ([xs[0], sep] + rest)[j] == sep
  {
    var r := [xs[0], sep] + rest;
    forall i | 0 <= i < |xs| ensures r[2 * i] == xs[i] {
      if i > 0 {
        var k := i - 1;
        assert 2 * i == 2 * k + 2;
        assert r[2 * k + 2] == rest[2 * k];
      }
    }
    forall j | 0 <= j < |rest| + 2 && j % 2 == 1 ensures r[j] == sep {
      if j > 1 {
        var k := j - 2;
        assert k % 2 == 1;
        assert r[k + 2] == rest[k];
      }
    }
  }

  lemma {:induction false} JoinedSnoc<T>(xs: seq<T>, x: T, sep: T)
    requires |xs| > 0
    ensures Joined(xs + [x], sep) == Joined(xs, sep) + [sep, x]
    decreases |xs|
  {
    if |xs| == 1 {
      assert (xs + [x])[1..] == [x];
    } else {
      assert (xs + [x])[1..] == xs[1..] + [x];
      JoinedSnoc(xs[1..], x, sep);
    }
  }

  /** The loop of join_operands: each operand, then the operator unless it
      was the last operand. The result has the operands at the even
      positions and the operator at the odd ones. */
  method JoinOperands<T>(operands: seq<T>, operator: T) returns (joined: seq<T>)
    ensures joined == Joined(operands, operator)
  {
    joined := [];
    for i := 0 to |operands|
      invariant joined == Joined(operands[..i], operator) + (if 0 < i < |operands| then [operator] else [])
    {
      if i > 0 {
        JoinedSnoc(operands[..i], operands[i], operator);
        assert operands[..i + 1] == operands[..i] + [operands[i]];
      } else {
        assert operands[..1] == [operands[0]];
      }
      joined := joined + [operands[i]];
      if i < |operands| - 1 {
        joined := joined + [operator];
      }
    }
    assert operands[..|operands|] == operands;
  }

  // ---------------------------------------------------------------------
  // in_order
  // ---------------------------------------------------------------------

  /** What a part of a combinator contributes to its parent's list: a base
      kernel itself, a nested combinator its whole flattened list. */
  function Part(k: Kernel): Nested
    decreases k, 2
  {
    match k
    case Base(b) => Item(Leaf(b))
    case _ => Group(Flatten(k))
  }

  function Parts(ps: seq<Kernel>): (r: seq<Nested>)
    ensures |r| == |ps|
    decreases ps, 3
  {
    seq(|ps|, i requires 0 <= i < |ps| => Part(ps[i]))
  }

  /** The nested list `in_order(k, tokens=[])` returns. */
  function Flatten(k: Kernel): seq<Nested>
    decreases k, 1
  {
    match k
    case Base(b) => [Item(Leaf(b))]
    case Add(ps) => Joined(seq(|ps|, i requires 0 <= i < |ps| => Part(ps[i])), Item(Plus))
    case Prod(ps) => Joined(seq(|ps|, i requires 0 <= i < |ps| => Part(ps[i])), Item(Times))
  }

  /** A combinator flattens to the elements of its parts joined by its
      operator. */
  lemma FlattenParts(k: Kernel)
    requires !k.Base?
    ensures Flatten(k) == Joined(Parts(k.parts), Item(OperatorOf(k)))
  {
    var ps := k.parts;
    assert Parts(ps) == seq(|ps|, i requires 0 <= i < |ps| => Part(ps[i]));
  }

  lemma PartsSnoc(ps: seq<Kernel>, i: nat)
    requires i < |ps|
    ensures Parts(ps[..i + 1]) == Parts(ps[..i]) + [Part(ps[i])]
  {
  }

  /** in_order with its accumulator made explicit: `None` gives the
      accumulator back, a base kernel is appended to it, and a combinator
      appends one element per part (a nested combinator as its own,
      recursively flattened, list) and then joins the whole list with its
      operator. Both callers pass an empty accumulator, and then the result is
      `Flatten(k)`. */
  method InOrder(root: Option<Kernel>, tokens: seq<Nested>) returns (r: seq<Nested>)
    ensures root.None? ==> r == tokens
    ensures root.Some? && root.value.Base? ==> r == tokens + [Item(Leaf(root.value.kernel))]
    ensures root.Some? && !root.value.Base? ==>
              r == Joined(tokens + Parts(root.value.parts), Item(OperatorOf(root.value)))
    ensures root.Some? && tokens == [] ==> r == Flatten(root.value)
    decreases if root.Some? then root.value else Base(BaseKernel({}, []))
  {
    r := tokens;
    if root.Some? {
      var k := root.value;
      if !k.Base? {
        for i := 0 to |k.parts|
          invariant r == tokens + Parts(k.parts[..i])
        {
          var child := k.parts[i];
          PartsSnoc(k.parts, i);
          if !child.Base? {
            var children := InOrder(Some(child), []);
            r := r + [Group(children)];
          } else {
            r := r + [Item(Leaf(child.kernel))];
          }
        }
        assert k.parts[..|k.parts|] == k.parts;
        FlattenParts(k);
        assert tokens == [] ==> tokens + Parts(k.parts) == Parts(k.parts);
        r := JoinOperands(r, Item(OperatorOf(k)));
      } else {
        r := r + [Item(Leaf(k.kernel))];
      }
    }
  }

  // ---------------------------------------------------------------------
  // tokenize
  // ---------------------------------------------------------------------

  /** tokenize as written: a sub-list at the head becomes '(' followed by its
      tokens and the tokens of the REST of the list, and only then ')'. */
  function Tokenize(s: seq<Nested>): seq<Token>
  {
    if s == [] then []
    else match s[0]
      case Group(g) => [LParen] + Tokenize(g) + Tokenize(s[1..]) + [RParen]
      case Item(t) => [t] + Tokenize(s[1..])
  }

  /** The tokenizer with the closing parenthesis right after the sub-list. */
  function TokenizeGrouped(s: seq<Nested>): seq<Token>
  {
    if s == [] then []
    else match s[0]
      case Group(g) => [LParen] + TokenizeGrouped(g) + [RParen] + TokenizeGrouped(s[1..])
      case Item(t) => [t] + TokenizeGrouped(s[1..])
  }

  /** The depth-first sequence of the tokens held in a nested list. */
  function Flat(s: seq<Nested>): seq<Token>
  {
    if s == [] then []
    else match s[0]
      case Group(g) => Flat(g) + Flat(s[1..])
      case Item(t) => [t] + Flat(s[1..])
  }

  /** Sub-lists at any depth. */
  function GroupCount(s: seq<Nested>): nat
  {
    if s == [] then 0
    else match s[0]
      case Group(g) => 1 + GroupCount(g) + GroupCount(s[1..])
      case Item(_) => GroupCount(s[1..])
  }

  function Count(ts: seq<Token>, t: Token): nat
  {
    if ts == [] then 0 else (if ts[0] == t then 1 else 0) + Count(ts[1..], t)
  }

  function WithoutParens(ts: seq<Token>): seq<Token>
  {
    if ts == [] then []
    else (if ts[0] == LParen || ts[0] == RParen then [] else [ts[0]]) + WithoutParens(ts[1..])
  }

  lemma {:induction false} CountAppend(a: seq<Token>, b: seq<Token>, t: Token)
    ensures Count(a + b, t) == Count(a, t) + Count(b, t)
  {
    if a == [] {
      assert a + b == b;
    } else {
      assert (a + b)[1..] == a[1..] + b;
      CountAppend(a[1..], b, t);
    }
  }

  lemma {:induction false} WithoutParensAppend(a: seq<Token>, b: seq<Token>)
    ensures WithoutParens(a + b) == WithoutParens(a) + WithoutParens(b)
  {
    if a == [] {
      assert a + b == b;
    } else {
      assert (a + b)[0] == a[0] && (a + b)[1..] == a[1..] + b;
      WithoutParensAppend(a[1..], b);
      var h := if a[0] == LParen || a[0] == RParen then [] else [a[0]];
      assert WithoutParens(a + b) == h + WithoutParens(a[1..] + b);
      AppendAssoc(h, WithoutParens(a[1..]), WithoutParens(b));
    }
  }

  /** Deleting the parentheses from tokenize's output leaves the tokens of the
      nested list in depth-first order: none is lost, added or moved. */
  lemma {:induction false} TokenizeKeepsItems(s: seq<Nested>)
    ensures WithoutParens(Tokenize(s)) == WithoutParens(Flat(s))
  {
    if s != [] {
      TokenizeKeepsItems(s[1..]);
      match s[0]
      case Group(g) =>
        TokenizeKeepsItems(g);
        WithoutParensAppend([LParen] + Tokenize(g) + Tokenize(s[1..]), [RParen]);
        WithoutParensAppend([LParen] + Tokenize(g), Tokenize(s[1..]));
        WithoutParensAppend([LParen], Tokenize(g));
        WithoutParensAppend(Flat(g), Flat(s[1..]));
      case Item(t) =>
        WithoutParensAppend([t], Tokenize(s[1..]));
        WithoutParensAppend([t], Flat(s[1..]));
    }
  }

  /** tokenize adds exactly one '(' and one ')' per sub-list, at any depth. */
  lemma {:induction false} TokenizeParenCounts(s: seq<Nested>)
    ensures Count(Tokenize(s), LParen) == GroupCount(s) + Count(Flat(s), LParen)
    ensures Count(Tokenize(s), RParen) == GroupCount(s) + Count(Flat(s), RParen)
  {
    if s != [] {
      TokenizeParenCounts(s[1..]);
      match s[0]
      case Group(g) =>
        TokenizeParenCounts(g);
        forall t | t == LParen || t == RParen
          ensures Count(Tokenize(s), t) == GroupCount(s) + Count(Flat(s), t)
        {
          CountAppend([LParen] + Tokenize(g) + Tokenize(s[1..]), [RParen], t);
          CountAppend([LParen] + Tokenize(g), Tokenize(s[1..]), t);
          CountAppend([LParen], Tokenize(g), t);
          CountAppend(Flat(g), Flat(s[1..]), t);
        }
      case Item(t) =>
        CountAppend([t], Tokenize(s[1..]), LParen);
        CountAppend([t], Flat(s[1..]), LParen);
        CountAppend([t], Tokenize(s[1..]), RParen);
        CountAppend([t], Flat(s[1..]), RParen);
    }
  }

  /** Every prefix of `ts` closes no more parentheses than it opens. */
  ghost predicate PrefixBalanced(ts: seq<Token>) {
    forall k :: 0 <= k <= |ts| ==> Count(ts[..k], RParen) <= Count(ts[..k], LParen)
  }

  predicate ParenFree(ts: seq<Token>) {
    forall i :: 0 <= i < |ts| ==> ts[i] != LParen && ts[i] != RParen
  }

  lemma {:induction false} ParenFreeCounts(ts: seq<Token>)
    requires ParenFree(ts)
    ensures Count(ts, LParen) == 0 && Count(ts, RParen) == 0
  {
    if ts != [] {
      ParenFreeCounts(ts[1..]);
    }
  }

  /** Balanced pieces stay balanced when one is wrapped in parentheses and
      when they are put side by side. */
  lemma PrefixBalancedAppend(a: seq<Token>, b: seq<Token>)
    requires PrefixBalanced(a) && PrefixBalanced(b)
    requires Count(a, RParen) == Count(a, LParen)
    ensures PrefixBalanced(a + b)
  {
    forall k | 0 <= k <= |a + b|
      ensures Count((a + b)[..k], RParen) <= Count((a + b)[..k], LParen)
    {
      if k <= |a| {
        assert (a + b)[..k] == a[..k];
      } else {
        assert (a + b)[..k] == a + b[..k - |a|];
        CountAppend(a, b[..k - |a|], RParen);
        CountAppend(a, b[..k - |a|], LParen);
      }
    }
  }

  lemma PrefixBalancedWrap(a: seq<Token>)
    requires PrefixBalanced(a)
    ensures PrefixBalanced([LParen] + a)
    ensures Count([LParen] + a, LParen) == Count(a, LParen) + 1
    ensures Count([LParen] + a, RParen) == Count(a, RParen)
  {
    CountAppend([LParen], a, LParen);
    CountAppend([LParen], a, RParen);
    forall k | 0 <= k <= |[LParen] + a|
      ensures Count(([LParen] + a)[..k], RParen) <= Count(([LParen] + a)[..k], LParen)
    {
      if k > 0 {
        assert ([LParen] + a)[..k] == [LParen] + a[..k - 1];
        CountAppend([LParen], a[..k - 1], LParen);
        CountAppend([LParen], a[..k - 1], RParen);
      }
    }
  }

  lemma PrefixBalancedItem(t: Token)
    requires t != LParen && t != RParen
    ensures PrefixBalanced([t]) && Count([t], LParen) == 0 && Count([t], RParen) == 0
  {
    assert [t][..0] == [];
    assert [t][..1] == [t];
  }

  lemma PrefixBalancedClose(a: seq<Token>)
    requires PrefixBalanced(a) && Count(a, RParen) < Count(a, LParen)
    ensures PrefixBalanced(a + [RParen])
    ensures Count(a + [RParen], RParen) == Count(a, RParen) + 1
    ensures Count(a + [RParen], LParen) == Count(a, LParen)
  {
    CountAppend(a, [RParen], RParen);
    CountAppend(a, [RParen], LParen);
    forall k | 0 <= k <= |a + [RParen]|
      ensures Count((a + [RParen])[..k], RParen) <= Count((a + [RParen])[..k], LParen)
    {
      if k <= |a| {
        assert (a + [RParen])[..k] == a[..k];
      } else {
        assert (a + [RParen])[..k] == a + [RParen];
      }
    }
  }

  lemma ParenFreeSplit(a: seq<Token>, b: seq<Token>)
    requires ParenFree(a + b)
    ensures ParenFree(a) && ParenFree(b)
  {
    forall i | 0 <= i < |a| ensures a[i] != LParen && a[i] != RParen {
      assert a[i] == (a + b)[i];
    }
    forall i | 0 <= i < |b| ensures b[i] != LParen && b[i] != RParen {
      assert b[i] == (a + b)[|a| + i];
    }
  }

  /** `(`, two balanced pieces, `)` is balanced. */
  lemma BalancedGroupStep(tg: seq<Token>, tr: seq<Token>)
    requires PrefixBalanced(tg) && Count(tg, LParen) == Count(tg, RParen)
    requires PrefixBalanced(tr) && Count(tr, LParen) == Count(tr, RParen)
    ensures PrefixBalanced([LParen] + tg + tr + [RParen])
    ensures Count([LParen] + tg + tr + [RParen], LParen) == Count([LParen] + tg + tr + [RParen], RParen)
  {
    PrefixBalancedAppend(tg, tr);
    CountAppend(tg, tr, LParen);
    CountAppend(tg, tr, RParen);
    PrefixBalancedWrap(tg + tr);
    assert [LParen] + (tg + tr) == [LParen] + tg + tr;
    PrefixBalancedClose([LParen] + tg + tr);
  }

  /** A token that is not a parenthesis before a balanced piece is balanced. */
  lemma BalancedItemStep(t: Token, tr: seq<Token>)
    requires t != LParen && t != RParen
    requires PrefixBalanced(tr) && Count(tr, LParen) == Count(tr, RParen)
    ensures PrefixBalanced([t] + tr) && Count([t] + tr, LParen) == Count([t] + tr, RParen)
  {
    PrefixBalancedItem(t);
    PrefixBalancedAppend([t], tr);
    CountAppend([t], tr, LParen);
    CountAppend([t], tr, RParen);
  }

  /** When the list holds no parenthesis tokens, every prefix of tokenize's
      output has at least as many '(' as ')', and the whole has as many. */
  lemma {:induction false} TokenizeBalanced(s: seq<Nested>)
    requires ParenFree(Flat(s))
    ensures PrefixBalanced(Tokenize(s))
    ensures Count(Tokenize(s), LParen) == Count(Tokenize(s), RParen)
  {
    if s == [] {
      assert Tokenize(s)[..0] == [];
      assert Count([], LParen) == 0 && Count([], RParen) == 0;
    } else {
      match s[0]
      case Group(g) =>
        assert Flat(s) == Flat(g) + Flat(s[1..]);
        ParenFreeSplit(Flat(g), Flat(s[1..]));
        TokenizeBalanced(g);
        TokenizeBalanced(s[1..]);
        BalancedGroupStep(Tokenize(g), Tokenize(s[1..]));
      case Item(t) =>
        assert Flat(s) == [t] + Flat(s[1..]);
        ParenFreeSplit([t], Flat(s[1..]));
        assert [t][0] == t;
        TokenizeBalanced(s[1..]);
        BalancedItemStep(t, Tokenize(s[1..]));
    }
  }

  /** The corrected tokenizer maps a concatenation of lists to the
      concatenation of their tokens: every element's tokens stay together. */
  lemma {:induction false} TokenizeGroupedDistributes(a: seq<Nested>, b: seq<Nested>)
    ensures TokenizeGrouped(a + b) == TokenizeGrouped(a) + TokenizeGrouped(b)
  {
    if a == [] {
      assert a + b == b;
    } else {
      assert (a + b)[0] == a[0];
      assert (a + b)[1..] == a[1..] + b;
      TokenizeGroupedDistributes(a[1..], b);
    }
  }

  /** tokenize as written does not: the ')' of a leading sub-list lands after
      the elements that follow it. */
  lemma TokenizeDoesNotDistribute(x: Token, y: Token)
    ensures Tokenize([Group([Item(x)]), Item(y)]) == [LParen, x, y, RParen]
    ensures Tokenize([Group([Item(x)])]) + Tokenize([Item(y)]) == [LParen, x, RParen, y]
  {
    var s := [Group([Item(x)]), Item(y)];
    assert s[1..] == [Item(y)];
    assert [Item(y)][1..] == [];
    assert [Item(x)][1..] == [];
    assert [Group([Item(x)])][1..] == [];
    assert Tokenize([Item(x)]) == [x];
    assert Tokenize([Item(y)]) == [y];
    assert Tokenize([Group([Item(x)])]) == [LParen] + [x] + [] + [RParen];
    assert Tokenize(s) == [LParen] + [x] + [y] + [RParen];
  }

  // ---------------------------------------------------------------------
  // kernel_to_infix_tokens
  // ---------------------------------------------------------------------

  /** The base kernels of an expression, depth first, left to right. */
  function KernelLeaves(k: Kernel): seq<BaseKernel>
    decreases k, 1
  {
    match k
    case Base(b) => [b]
    case _ => PartsLeaves(k, |k.parts|)
  }

  /** The leaves of the first `n` parts of a combinator. */
  function PartsLeaves(k: Kernel, n: nat): seq<BaseKernel>
    requires !k.Base? && n <= |k.parts|
    decreases k, 0, n
  {
    if n == 0 then [] else PartsLeaves(k, n - 1) + KernelLeaves(k.parts[n - 1])
  }

  /** The kernels among a token sequence, in order. */
  function Operands(ts: seq<Token>): seq<BaseKernel>
  {
    if ts == [] then [] else (if ts[0].Leaf? then [ts[0].kernel] else []) + Operands(ts[1..])
  }

  lemma {:induction false} OperandsAppend(a: seq<Token>, b: seq<Token>)
    ensures Operands(a + b) == Operands(a) + Operands(b)
  {
    if a == [] {
      assert a + b == b;
    } else {
      assert (a + b)[1..] == a[1..] + b;
      OperandsAppend(a[1..], b);
      AppendAssoc(if a[0].Leaf? then [a[0].kernel] else [], Operands(a[1..]), Operands(b));
    }
  }

  lemma {:induction false} OperandsWithoutParens(ts: seq<Token>)
    ensures Operands(WithoutParens(ts)) == Operands(ts)
  {
    if ts != [] {
      OperandsWithoutParens(ts[1..]);
      OperandsAppend(if ts[0] == LParen || ts[0] == RParen then [] else [ts[0]], WithoutParens(ts[1..]));
    }
  }

  lemma {:induction false} FlatAppend(a: seq<Nested>, b: seq<Nested>)
    ensures Flat(a + b) == Flat(a) + Flat(b)
  {
    if a == [] {
      assert a + b == b;
    } else {
      assert (a + b)[0] == a[0];
      assert (a + b)[1..] == a[1..] + b;
      FlatAppend(a[1..], b);
      match a[0]
      case Group(g) => AppendAssoc(Flat(g), Flat(a[1..]), Flat(b));
      case Item(t) => AppendAssoc([t], Flat(a[1..]), Flat(b));
    }
  }

  /** Joining a list with an operator item adds no kernel. */
  lemma {:induction false} OperandsOfJoined(xs: seq<Nested>, op: Token)
    requires !op.Leaf?
    ensures Operands(Flat(Joined(xs, Item(op)))) == Operands(Flat(xs))
    decreases |xs|
  {
    if |xs| > 1 {
      var rest := Joined(xs[1..], Item(op));
      OperandsOfJoined(xs[1..], op);
      OperandsPastOperator(xs[0], op, rest);
      OperandsFlatCons(xs);
    }
  }

  /** An operator between two lists adds no operand. */
  lemma OperandsPastOperator(x: Nested, op: Token, rest: seq<Nested>)
    requires !op.Leaf?
    ensures Operands(Flat([x, Item(op)] + rest)) == Operands(Flat([x])) + Operands(Flat(rest))
  {
    var head := Flat([x]);
    assert [x, Item(op)] + rest == [x] + ([Item(op)] + rest);
    FlatAppend([x], [Item(op)] + rest);
    FlatAppend([Item(op)], rest);
    assert Flat([Item(op)]) == [op] by {
      assert [Item(op)][1..] == [];
    }
    OperandsAppend(head, [op] + Flat(rest));
    OperandsAppend([op], Flat(rest));
    assert Operands([op]) == [] by {
      assert [op][1..] == [];
    }
    assert [] + Operands(Flat(rest)) == Operands(Flat(rest));
  }

  lemma OperandsFlatCons(xs: seq<Nested>)
    requires xs != []
    ensures Operands(Flat(xs)) == Operands(Flat([xs[0]])) + Operands(Flat(xs[1..]))
  {
    assert xs == [xs[0]] + xs[1..];
    FlatAppend([xs[0]], xs[1..]);
    OperandsAppend(Flat([xs[0]]), Flat(xs[1..]));
  }

  /** The kernels of a flattened expression are its leaves, in order. */
  lemma {:induction false} OperandsOfFlatten(k: Kernel)
    ensures Operands(Flat(Flatten(k))) == KernelLeaves(k)
    decreases k, 1
  {
    match k
    case Base(b) =>
      assert [Item(Leaf(b))][1..] == [];
    case _ =>
      var ps := k.parts;
      assert Flatten(k) == Joined(Parts(ps), Item(OperatorOf(k)));
      OperandsOfJoined(Parts(ps), OperatorOf(k));
      OperandsOfParts(k, |ps|);
      assert ps[..|ps|] == ps;
  }

  lemma {:induction false} OperandsOfParts(k: Kernel, n: nat)
    requires !k.Base? && n <= |k.parts|
    ensures Operands(Flat(Parts(k.parts[..n]))) == PartsLeaves(k, n)
    decreases k, 0, n
  {
    if n > 0 {
      OperandsOfParts(k, n - 1);
      PartsSnoc(k.parts, n - 1);
      var p := k.parts[n - 1];
      FlatAppend(Parts(k.parts[..n - 1]), [Part(p)]);
      OperandsAppend(Flat(Parts(k.parts[..n - 1])), Flat([Part(p)]));
      OperandsOfPart(p);
    }
  }

  /** The leaves of one part, whether a base kernel or a nested list. */
  lemma {:induction false} OperandsOfPart(p: Kernel)
    ensures Operands(Flat([Part(p)])) == KernelLeaves(p)
    decreases p, 2
  {
    assert [Part(p)][1..] == [];
    match p
    case Base(b) =>
      assert Flat([Item(Leaf(b))]) == [Leaf(b)] + Flat([]);
      assert [Leaf(b)][1..] == [];
    case _ =>
      OperandsOfFlatten(p);
      assert Flat([Part(p)]) == Flat(Flatten(p)) + Flat([]);
      assert Flat(Flatten(p)) + Flat([]) == Flat(Flatten(p));
  }

  lemma ParenFreeAppend(a: seq<Token>, b: seq<Token>)
    requires ParenFree(a) && ParenFree(b)
    ensures ParenFree(a + b)
  {
    assert forall i :: |a| <= i < |a + b| ==> (a + b)[i] == b[i - |a|];
  }

  lemma ParenFreeFlatCons(xs: seq<Nested>)
    requires xs != []
    ensures ParenFree(Flat(xs)) <==> ParenFree(Flat([xs[0]])) && ParenFree(Flat(xs[1..]))
  {
    assert xs == [xs[0]] + xs[1..];
    FlatAppend([xs[0]], xs[1..]);
    if ParenFree(Flat(xs)) {
      ParenFreeSplit(Flat([xs[0]]), Flat(xs[1..]));
    } else if ParenFree(Flat([xs[0]])) && ParenFree(Flat(xs[1..])) {
      ParenFreeAppend(Flat([xs[0]]), Flat(xs[1..]));
    }
  }

  /** Joining with an operator adds no parenthesis. */
  lemma {:induction false} ParenFreeJoined(xs: seq<Nested>, op: Token)
    requires op != LParen && op != RParen && ParenFree(Flat(xs))
    ensures ParenFree(Flat(Joined(xs, Item(op))))
    decreases |xs|
  {
    if |xs| > 1 {
      var rest := Joined(xs[1..], Item(op));
      ParenFreeFlatCons(xs);
      ParenFreeJoined(xs[1..], op);
      assert [xs[0], Item(op)] + rest == [xs[0]] + ([Item(op)] + rest);
      FlatAppend([xs[0]], [Item(op)] + rest);
      FlatAppend([Item(op)], rest);
      assert Flat([Item(op)]) == [op] by {
        assert [Item(op)][1..] == [];
      }
      ParenFreeAppend([op], Flat(rest));
      ParenFreeAppend(Flat([xs[0]]), [op] + Flat(rest));
    }
  }

  /** The nested list in_order builds holds kernels and operators only. */
  lemma {:induction false} ParenFreeFlatten(k: Kernel)
    ensures ParenFree(Flat(Flatten(k)))
    decreases k, 1
  {
    match k
    case Base(b) =>
      assert [Item(Leaf(b))][1..] == [];
    case _ =>
      var ps := k.parts;
      assert Flatten(k) == Joined(Parts(ps), Item(OperatorOf(k)));
      ParenFreeParts(k, |ps|);
      assert ps[..|ps|] == ps;
      ParenFreeJoined(Parts(ps), OperatorOf(k));
  }

  lemma {:induction false} ParenFreeParts(k: Kernel, n: nat)
    requires !k.Base? && n <= |k.parts|
    ensures ParenFree(Flat(Parts(k.parts[..n])))
    decreases k, 0, n
  {
    if n > 0 {
      ParenFreeParts(k, n - 1);
      PartsSnoc(k.parts, n - 1);
      var p := k.parts[n - 1];
      FlatAppend(Parts(k.parts[..n - 1]), [Part(p)]);
      ParenFreePart(p);
      ParenFreeAppend(Flat(Parts(k.parts[..n - 1])), Flat([Part(p)]));
    } else {
      assert Parts(k.parts[..0]) == [];
    }
  }

  lemma {:induction false} ParenFreePart(p: Kernel)
    ensures ParenFree(Flat([Part(p)]))
    decreases p, 2
  {
    assert [Part(p)][1..] == [];
    match p
    case Base(b) =>
      assert Flat([Item(Leaf(b))]) == [Leaf(b)] + Flat([]);
    case _ =>
      ParenFreeFlatten(p);
      assert Flat([Part(p)]) == Flat(Flatten(p)) + Flat([]);
      assert Flat(Flatten(p)) + Flat([]) == Flat(Flatten(p));
  }

  /** The infix tokens of a kernel: in_order, then tokenize. Deleting the
      parentheses leaves the kernel's leaves in order, with operators
      between them. */
  method KernelToInfixTokens(k: Kernel) returns (infixTokens: seq<Token>)
    ensures infixTokens == Tokenize(Flatten(k))
    ensures Operands(infixTokens) == KernelLeaves(k)
  {
    var inorderTraversal := InOrder(Some(k), []);
    infixTokens := Tokenize(inorderTraversal);
    TokenizeKeepsItems(inorderTraversal);
    OperandsWithoutParens(infixTokens);
    OperandsWithoutParens(Flat(inorderTraversal));
    OperandsOfFlatten(k);
  }

  // ---------------------------------------------------------------------
  // tokens_to_str
  // ---------------------------------------------------------------------

  /** How tokens_to_str renders one token: a kernel by its label, any other
      token verbatim. */
  function TokenText(t: Token): Result<string, LabelError>
  {
    if t.Leaf? then SubkernelExpression(t.kernel) else Success(Symbol(t))
  }

  /** The values of a sequence of results, or the error of the first one
      that failed. */
  function Collect<T, E>(rs: seq<Result<T, E>>): Result<seq<T>, E>
  {
    if rs == [] then Success([])
    else match rs[0]
      case Failure(e) => Failure(e)
      case Success(w) =>
        match Collect(rs[1..])
        case Failure(e) => Failure(e)
        case Success(ws) => Success([w] + ws)
  }

  /** Collect succeeds exactly when every result does, and then holds every
      value in order. */
  lemma {:induction false} CollectSuccess<T, E>(rs: seq<Result<T, E>>)
    ensures Collect(rs).Success? <==> forall j :: 0 <= j < |rs| ==> rs[j].Success?
    ensures Collect(rs).Success? ==> |Collect(rs).value| == |rs|
    ensures Collect(rs).Success? ==> forall j :: 0 <= j < |rs| ==> Collect(rs).value[j] == rs[j].value
  {
    if rs != [] {
      CollectSuccess(rs[1..]);
      assert forall j :: 1 <= j < |rs| ==> rs[j] == rs[1..][j - 1];
    }
  }

  /** A failed Collect reports the error of the first failed result. */
  lemma {:induction false} CollectFailure<T, E>(rs: seq<Result<T, E>>)
    requires Collect(rs).Failure?
    ensures exists j :: 0 <= j < |rs| && rs[j].Failure? && rs[j].error == Collect(rs).error
                     && forall i :: 0 <= i < j ==> rs[i].Success?
  {
    if rs[0].Success? {
      CollectFailure(rs[1..]);
      var j :| 0 <= j < |rs[1..]| && rs[1..][j].Failure? && rs[1..][j].error == Collect(rs[1..]).error
               && forall i :: 0 <= i < j ==> rs[1..][i].Success?;
      assert forall i :: 1 <= i < j + 1 ==> rs[i] == rs[1..][i - 1];
      assert rs[j + 1] == rs[1..][j];
    }
  }

  /** Collecting a concatenation: the values of both halves, or the first
      failure. */
  lemma {:induction false} CollectAppend<T, E>(a: seq<Result<T, E>>, b: seq<Result<T, E>>)
    ensures Collect(a + b) == match Collect(a)
                              case Failure(e) => Failure(e)
                              case Success(va) =>
                                match Collect(b)
                                case Failure(e) => Failure(e)
                                case Success(vb) => Success(va + vb)
  {
    if a == [] {
      assert a + b == b;
      if Collect(b).Success? {
        assert [] + Collect(b).value == Collect(b).value;
      }
    } else {
      assert (a + b)[0] == a[0];
      assert (a + b)[1..] == a[1..] + b;
      CollectAppend(a[1..], b);
      if Collect(a).Success? && Collect(b).Success? {
        var va, vb, vr := Collect(a).value, Collect(b).value, Collect(a[1..]).value;
        assert va == [a[0].value] + vr;
        assert Collect(a + b).value == [a[0].value] + (vr + vb);
        assert [a[0].value] + (vr + vb) == va + vb;
      }
    }
  }

  lemma CollectSnoc<T, E>(a: seq<Result<T, E>>, x: Result<T, E>)
    requires Collect(a).Success? && x.Success?
    ensures Collect(a + [x]) == Success(Collect(a).value + [x.value])
  {
    CollectAppend(a, [x]);
    assert [x][1..] == [];
    assert Collect([x]) == Success([x.value] + []);
    assert [x.value] + [] == [x.value];
  }

  lemma CollectStop<T, E>(a: seq<Result<T, E>>, b: seq<Result<T, E>>)
    requires Collect(a).Success? && b != [] && b[0].Failure?
    ensures Collect(a + b) == Failure(b[0].error)
  {
    CollectAppend(a, b);
  }

  /** Each token's rendering. */
  function Rendered(ts: seq<Token>): (r: seq<Result<string, LabelError>>)
    ensures |r| == |ts| && forall j :: 0 <= j < |ts| ==> r[j] == TokenText(ts[j])
  {
    seq(|ts|, j requires 0 <= j < |ts| => TokenText(ts[j]))
  }

  /** The strings with one space between neighbours. */
  function JoinSpaces(ws: seq<string>): string
  {
    if |ws| == 0 then "" else if |ws| == 1 then ws[0] else ws[0] + " " + JoinSpaces(ws[1..])
  }

  lemma {:induction false} JoinSpacesSnoc(ws: seq<string>, w: string)
    requires |ws| > 0
    ensures JoinSpaces(ws + [w]) == JoinSpaces(ws) + " " + w
    decreases |ws|
  {
    if |ws| > 1 {
      assert (ws + [w])[1..] == ws[1..] + [w];
      JoinSpacesSnoc(ws[1..], w);
    }
  }

  predicate IsWord(w: string) {
    |w| > 0 && forall i :: 0 <= i < |w| ==> w[i] != ' '
  }

  /** The index of the first space in `s`, or |s|. */
  function FirstSpace(s: string): (n: nat)
    ensures n <= |s| && (n < |s| ==> s[n] == ' ') && forall i :: 0 <= i < n ==> s[i] != ' '
  {
    if s == [] then 0 else if s[0] == ' ' then 0 else 1 + FirstSpace(s[1..])
  }

  /** The pieces between single spaces. */
  function SplitSpaces(s: string): seq<string>
    decreases |s|
  {
    var n := FirstSpace(s);
    if n == |s| then [s] else [s[..n]] + SplitSpaces(s[n + 1..])
  }

  /** Splitting a space-joined list of words at its spaces gives the words
      back: the rendering keeps token boundaries. */
  lemma {:induction false} SplitJoinSpaces(ws: seq<string>)
    requires |ws| > 0 && forall i :: 0 <= i < |ws| ==> IsWord(ws[i])
    ensures SplitSpaces(JoinSpaces(ws)) == ws
    decreases |ws|
  {
    var w := ws[0];
    if |ws| == 1 {
      FirstSpaceOfWord(w, "");
      assert w + "" == w;
    } else {
      var rest := JoinSpaces(ws[1..]);
      assert JoinSpaces(ws) == w + " " + rest;
      FirstSpaceOfWord(w, " " + rest);
      AppendAssoc(w, " ", rest);
      var s := w + (" " + rest);
      assert s[..|w|] == w;
      assert s[|w| + 1..] == rest;
      SplitJoinSpaces(ws[1..]);
    }
  }

  /** A word followed by `tail` has its first space where the word ends,
      provided `tail` is empty or starts with a space. */
  lemma {:induction false} FirstSpaceOfWord(w: string, tail: string)
    requires forall i :: 0 <= i < |w| ==> w[i] != ' '
    requires tail == [] || tail[0] == ' '
    ensures FirstSpace(w + tail) == |w|
    decreases |w|
  {
    if w != [] {
      assert (w + tail)[0] == w[0];
      assert (w + tail)[1..] == w[1..] + tail;
      FirstSpaceOfWord(w[1..], tail);
    } else {
      assert w + tail == tail;
    }
  }

  /** The string tokens_to_str has built once it has rendered `words` out of
      `n` tokens: a space follows every word but the last token's. */
  function Rendering(words: seq<string>, n: nat): string
  {
    JoinSpaces(words) + (if 0 < |words| < n then " " else "")
  }

  /** One step of tokens_to_str's loop: append the word, then a space
      unless it was the last token. */
  lemma RenderStep(words: seq<string>, acc: string, w: string, i: nat, n: nat)
    requires i < n && |words| == i
    requires acc == Rendering(words, n)
    ensures i < n - 1 ==> acc + w + " " == Rendering(words + [w], n)
    ensures i == n - 1 ==> acc + w == Rendering(words + [w], n)
  {
    if i > 0 {
      JoinSpacesSnoc(words, w);
      assert acc + w == JoinSpaces(words) + " " + w;
    } else {
      assert words + [w] == [w];
      assert acc == "";
      assert acc + w == w;
    }
  }

  /** tokens_to_str: each token rendered, one space between neighbours, no
      leading or trailing space; a kernel whose label cannot be derived stops
      the rendering with that error. */
  method TokensToStr(tokens: seq<Token>) returns (r: Result<string, LabelError>)
    ensures Collect(Rendered(tokens)).Failure? ==> r == Failure(Collect(Rendered(tokens)).error)
    ensures Collect(Rendered(tokens)).Success? ==> r == Success(JoinSpaces(Collect(Rendered(tokens)).value))
  {
    ghost var rs := Rendered(tokens);
    var tokenString: string := "";
    ghost var words: seq<string> := [];
    for i := 0 to |tokens|
      invariant Collect(rs[..i]) == Success(words) && |words| == i
      invariant tokenString == Rendering(words, |tokens|)
    {
      var text := TokenText(tokens[i]);
      if text.Failure? {
        RenderStop(rs, i, words);
        return Failure(text.error);
      }
      RenderNext(rs, i, words, tokenString, text.value);
      tokenString := tokenString + text.value;
      words := words + [text.value];
      if i < |tokens| - 1 {
        tokenString := tokenString + " ";
      }
    }
    RenderDone(rs, words, tokenString);
    return Success(tokenString);
  }

  /** tokens_to_str stops at the first token that cannot be rendered. */
  lemma RenderStop(rs: seq<Result<string, LabelError>>, i: nat, words: seq<string>)
    requires i < |rs| && Collect(rs[..i]) == Success(words) && rs[i].Failure?
    ensures Collect(rs) == Failure(rs[i].error)
  {
    CollectStop(rs[..i], rs[i..]);
    assert rs[..i] + rs[i..] == rs;
  }

  /** One pass of tokens_to_str's loop. */
  lemma RenderNext(rs: seq<Result<string, LabelError>>, i: nat, words: seq<string>, acc: string, w: string)
    requires i < |rs| && Collect(rs[..i]) == Success(words) && |words| == i && rs[i] == Success(w)
    requires acc == Rendering(words, |rs|)
    ensures Collect(rs[..i + 1]) == Success(words + [w])
    ensures i < |rs| - 1 ==> acc + w + " " == Rendering(words + [w], |rs|)
    ensures i == |rs| - 1 ==> acc + w == Rendering(words + [w], |rs|)
  {
    CollectSnoc(rs[..i], rs[i]);
    assert rs[..i + 1] == rs[..i] + [rs[i]];
    RenderStep(words, acc, w, i, |rs|);
  }

  /** Once every token has been rendered the string is the words joined. */
  lemma RenderDone(rs: seq<Result<string, LabelError>>, words: seq<string>, acc: string)
    requires Collect(rs[..|rs|]) == Success(words) && |words| == |rs| && acc == Rendering(words, |rs|)
    ensures Collect(rs) == Success(words) && acc == JoinSpaces(words)
  {
    assert rs[..|rs|] == rs;
    assert JoinSpaces(words) + "" == JoinSpaces(words);
  }

  /** A rendered token is a non-empty word without spaces. */
  lemma TokenTextIsWord(t: Token)
    requires TokenText(t).Success?
    ensures IsWord(TokenText(t).value)
  {
    if t.Leaf? {
      LabelIsAlphanumeric(t.kernel);
    }
  }

  /** Splitting the string tokens_to_str produces at its spaces gives back the
      rendering of each token, in order. */
  lemma TokensToStrSplits(tokens: seq<Token>)
    requires |tokens| > 0 && Collect(Rendered(tokens)).Success?
    ensures SplitSpaces(JoinSpaces(Collect(Rendered(tokens)).value)) == Collect(Rendered(tokens)).value
  {
    var ws := Collect(Rendered(tokens)).value;
    CollectSuccess(Rendered(tokens));
    forall i | 0 <= i < |ws| ensures IsWord(ws[i]) {
      TokenTextIsWord(tokens[i]);
    }
    SplitJoinSpaces(ws);
  }
}
