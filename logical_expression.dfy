/** Precedence-aware expression trees for SQL search conditions
    (dll/Jhu.Graywulf.Sql/Sql/Parsing/LogicalExpression.cs).

    A parsed logical expression is a chain: an optional NOT, a predicate or a
    bracketed expression, and optionally an AND/OR operator followed by the next
    logical expression. The chain is flattened into raw tokens, reordered by the
    shunting-yard algorithm into postfix order on an output stack, and the tree
    is read back by popping that stack. Stacks are sequences whose top is the
    last element. Predicates are values of the opaque type `P`; what a
    predicate's own expression tree looks like is not part of this model. */
module LogicalExpressions {
  import opened Wrappers

  /** The expression tree: leaves are predicates, inner nodes the logical operators. */
  datatype Tree<P> =
    | PredicateTree(p: P)
    | NotTree(operand: Tree<P>)
    | AndTree(left: Tree<P>, right: Tree<P>)
    | OrTree(left: Tree<P>, right: Tree<P>)

  /** Raw expressions: operands (a predicate, or brackets around an already built
      tree) and the three operator objects. */
  datatype Token<P> =
    | Operand(p: P)
    | Bracketed(inner: Tree<P>)
    | NotOp
    | AndOp
    | OrOp
  {
    predicate IsBinary() { AndOp? || OrOp? }
    predicate IsOperand() { Operand? || Bracketed? }
  }

  // ---------------------------------------------------------------------------
  // Shunting-yard

  /** The sequence read from the top of a stack down to its bottom. */
  function Reversed<T>(s: seq<T>): (r: seq<T>)
    ensures |r| == |s|
    ensures forall k :: 0 <= k < |s| ==> r[k] == s[|s| - 1 - k]
  {
    if |s| == 0 then [] else [s[|s| - 1]] + Reversed(s[..|s| - 1])
  }

  lemma {:induction false} ReversedMultiset<T>(s: seq<T>)
    ensures multiset(Reversed(s)) == multiset(s)
  {
    if |s| > 0 {
      var init, x := s[..|s| - 1], s[|s| - 1];
      ReversedMultiset(init);
      assert Reversed(s) == [x] + Reversed(init);
      assert multiset(Reversed(s)) == multiset{x} + multiset(Reversed(init));
      assert s == init + [x];
      assert multiset(s) == multiset(init) + multiset{x};
    }
  }

  lemma ReversedCons<T>(x: T, s: seq<T>)
    ensures Reversed([x] + s) == Reversed(s) + [x]
  {
    assert forall k :: 0 <= k < |s| + 1 ==> Reversed([x] + s)[k] == (Reversed(s) + [x])[k];
  }

  /** How many operators the inner `while` of the shunting-yard loop leaves on
      the operator stack: it pops every operator of precedence strictly greater
      than `p` and stops at the first one that is not. */
  function Kept<T>(ops: seq<T>, p: nat, prec: T -> nat): (m: nat)
    ensures m <= |ops|
    ensures m == 0 || prec(ops[m - 1]) <= p
    ensures forall k :: m <= k < |ops| ==> prec(ops[k]) > p
    decreases |ops|
  {
    if |ops| > 0 && prec(ops[|ops| - 1]) > p then
      var m := Kept(ops[..|ops| - 1], p, prec);
      assert m > 0 ==> ops[..|ops| - 1][m - 1] == ops[m - 1];
      m
    else |ops|
  }

  /** The operator stack and output stack after that inner `while`: the popped
      operators go to the output stack from the top of the operator stack down. */
  function PopGreater<T>(ops: seq<T>, sta: seq<T>, p: nat, prec: T -> nat): (seq<T>, seq<T>)
  {
    var m := Kept(ops, p, prec);
    (ops[..m], sta + Reversed(ops[m..]))
  }

  /** One iteration of the `foreach`: an operator (precedence above zero) first
      pops the stronger operators and is then pushed; an operand goes straight
      to the output stack. */
  function Step<T>(state: (seq<T>, seq<T>), exp: T, prec: T -> nat): (seq<T>, seq<T>)
  {
    if prec(exp) > 0 then
      var popped := PopGreater(state.0, state.1, prec(exp), prec);
      (popped.0 + [exp], popped.1)
    else
      (state.0, state.1 + [exp])
  }

  /** Operator stack and output stack after the `foreach` has seen `raw`. */
  function Scan<T>(raw: seq<T>, prec: T -> nat): (seq<T>, seq<T>)
  {
    if |raw| == 0 then ([], []) else Step(Scan(raw[..|raw| - 1], prec), raw[|raw| - 1], prec)
  }

  /** The output stack returned by `ExecuteShuntingYard`: the scan followed by
      popping every remaining operator. */
  function ShuntingYard<T>(raw: seq<T>, prec: T -> nat): seq<T>
  {
    var s := Scan(raw, prec);
    s.1 + Reversed(s.0)
  }

  /** The inner `while` of `ExecuteShuntingYard`: pops every operator of
      precedence strictly greater than `p` onto the output stack. */
  method PopStronger<T>(ops0: seq<T>, sta0: seq<T>, p: nat, prec: T -> nat) returns (ops: seq<T>, sta: seq<T>)
    ensures (ops, sta) == PopGreater(ops0, sta0, p, prec)
  {
    ops, sta := ops0, sta0;
    ghost var m := Kept(ops0, p, prec);
    assert ops0[|ops0|..] == [];
    while |ops| > 0 && prec(ops[|ops| - 1]) > p
      invariant m <= |ops| <= |ops0| && ops == ops0[..|ops|]
      invariant sta == sta0 + Reversed(ops0[|ops|..])
      decreases |ops|
    {
      ghost var n := |ops|;
      ghost var x := ops0[n - 1];
      assert ops0[n - 1..] == [x] + ops0[n..];
      ReversedCons(x, ops0[n..]);
      assert ops[n - 1] == x;
      SnocRegroup(sta0, Reversed(ops0[n..]), x);
      sta := sta + [ops[|ops| - 1]];
      ops := ops[..|ops| - 1];
      assert ops == ops0[..n - 1];
    }
  }

  /** The final `while`: moves the remaining operators to the output stack. */
  method PopAll<T>(ops0: seq<T>, sta0: seq<T>) returns (sta: seq<T>)
    ensures sta == sta0 + Reversed(ops0)
  {
    var ops := ops0;
    sta := sta0;
    while |ops| > 0
      invariant sta + Reversed(ops) == sta0 + Reversed(ops0)
      decreases |ops|
    {
      sta := sta + [ops[|ops| - 1]];
      ops := ops[..|ops| - 1];
    }
  }

  /** `ExecuteShuntingYard` with the two stacks as sequences. */
  method ExecuteShuntingYard<T>(raw: seq<T>, prec: T -> nat) returns (sta: seq<T>)
    ensures sta == ShuntingYard(raw, prec)
    ensures |sta| == |raw| && multiset(sta) == multiset(raw)
  {
    var ops: seq<T> := [];
    sta := [];
    for i := 0 to |raw|
      invariant (ops, sta) == Scan(raw[..i], prec)
    {
      var exp := raw[i];
      assert raw[..i + 1][..i] == raw[..i];
      if prec(exp) > 0 {
        ops, sta := PopStronger(ops, sta, prec(exp), prec);
        ops := ops + [exp];
      } else {
        sta := sta + [exp];
      }
    }
    assert raw[..|raw|] == raw;
    sta := PopAll(ops, sta);
    ShuntingYardPermutes(raw, prec);
  }

  /** One step of the scan moves `exp` and some operators between the stacks
      but loses and duplicates none. */
  lemma StepPermutes<T>(state: (seq<T>, seq<T>), exp: T, prec: T -> nat)
    ensures multiset(Step(state, exp, prec).0) + multiset(Step(state, exp, prec).1) ==
            multiset(state.0) + multiset(state.1) + multiset{exp}
  {
    if prec(exp) > 0 {
      var m := Kept(state.0, prec(exp), prec);
      var kept, popped := state.0[..m], state.0[m..];
      assert Step(state, exp, prec) == (kept + [exp], state.1 + Reversed(popped));
      ReversedMultiset(popped);
      assert multiset(kept + [exp]) == multiset(kept) + multiset{exp};
      assert multiset(state.1 + Reversed(popped)) == multiset(state.1) + multiset(popped);
      assert state.0 == kept + popped;
      assert multiset(state.0) == multiset(kept) + multiset(popped);
    } else {
      assert multiset(state.1 + [exp]) == multiset(state.1) + multiset{exp};
    }
  }

  lemma {:induction false} ScanPermutes<T>(raw: seq<T>, prec: T -> nat)
    ensures multiset(Scan(raw, prec).0) + multiset(Scan(raw, prec).1) == multiset(raw)
  {
    if |raw| > 0 {
      var init := raw[..|raw| - 1];
      ScanPermutes(init, prec);
      StepPermutes(Scan(init, prec), raw[|raw| - 1], prec);
      assert raw == init + [raw[|raw| - 1]];
    }
  }

  /** Every input expression is output exactly once: the output stack is a
      permutation of the input, so it has the same length. */
  lemma ShuntingYardPermutes<T>(raw: seq<T>, prec: T -> nat)
    ensures multiset(ShuntingYard(raw, prec)) == multiset(raw)
    ensures |ShuntingYard(raw, prec)| == |raw|
  {
    ScanPermutes(raw, prec);
    ReversedMultiset(Scan(raw, prec).0);
    assert multiset(ShuntingYard(raw, prec)) == multiset(raw);
    assert |multiset(ShuntingYard(raw, prec))| == |multiset(raw)|;
  }

  /** The operands (precedence zero) of a sequence, in order. */
  function Operands<T>(s: seq<T>, prec: T -> nat): seq<T>
  {
    if |s| == 0 then []
    else if prec(s[|s| - 1]) == 0 then Operands(s[..|s| - 1], prec) + [s[|s| - 1]]
    else Operands(s[..|s| - 1], prec)
  }

  lemma {:induction false} OperandsAppend<T>(a: seq<T>, b: seq<T>, prec: T -> nat)
    ensures Operands(a + b, prec) == Operands(a, prec) + Operands(b, prec)
  {
    if |b| > 0 {
      OperandsAppend(a, b[..|b| - 1], prec);
      assert (a + b)[..|a + b| - 1] == a + b[..|b| - 1];
    } else {
      assert a + b == a;
    }
  }

  lemma {:induction false} OperandsNone<T>(s: seq<T>, prec: T -> nat)
    requires AllOperators(s, prec)
    ensures Operands(s, prec) == []
  {
    if |s| > 0 {
      OperandsNone(s[..|s| - 1], prec);
    }
  }

  predicate AllOperators<T>(s: seq<T>, prec: T -> nat)
  {
    forall k :: 0 <= k < |s| ==> prec(s[k]) > 0
  }

  predicate NonDecreasing<T>(s: seq<T>, prec: T -> nat)
  {
    forall j, k :: 0 <= j < k < |s| ==> prec(s[j]) <= prec(s[k])
  }

  /** The operator stack only ever holds operators, and its precedences do not
      decrease from bottom to top. */
  lemma {:induction false} ScanOperatorStack<T>(raw: seq<T>, prec: T -> nat)
    ensures AllOperators(Scan(raw, prec).0, prec)
    ensures NonDecreasing(Scan(raw, prec).0, prec)
  {
    if |raw| > 0 {
      var init := raw[..|raw| - 1];
      var x := raw[|raw| - 1];
      ScanOperatorStack(init, prec);
      var s := Scan(init, prec);
      if prec(x) > 0 {
        var m := Kept(s.0, prec(x), prec);
        var kept := s.0[..m];
        assert Scan(raw, prec).0 == kept + [x];
        assert AllOperators(kept, prec);
        assert NonDecreasing(kept, prec);
        assert m == 0 || prec(kept[m - 1]) <= prec(x);
        assert forall j :: 0 <= j < m ==> prec(kept[j]) <= prec(kept[m - 1]);
      }
    }
  }

  /** Operands reach the output stack of the scan in input order. */
  lemma {:induction false} ScanOperands<T>(raw: seq<T>, prec: T -> nat)
    ensures Operands(Scan(raw, prec).1, prec) == Operands(raw, prec)
  {
    if |raw| > 0 {
      var init := raw[..|raw| - 1];
      var x := raw[|raw| - 1];
      ScanOperands(init, prec);
      ScanOperatorStack(init, prec);
      var s := Scan(init, prec);
      if prec(x) > 0 {
        var m := Kept(s.0, prec(x), prec);
        var moved := Reversed(s.0[m..]);
        assert AllOperators(moved, prec);
        OperandsNone(moved, prec);
        OperandsAppend(s.1, moved, prec);
        assert Scan(raw, prec).1 == s.1 + moved;
      } else {
        OperandsAppend(s.1, [x], prec);
        assert Operands([x], prec) == Operands([], prec) + [x];
        assert Scan(raw, prec).1 == s.1 + [x];
      }
    }
  }

  /** Operands appear on the final output stack in the order of the input. */
  lemma OperandsKeepOrder<T>(raw: seq<T>, prec: T -> nat)
    ensures Operands(ShuntingYard(raw, prec), prec) == Operands(raw, prec)
  {
    var s := Scan(raw, prec);
    ScanOperands(raw, prec);
    ScanOperatorStack(raw, prec);
    assert AllOperators(Reversed(s.0), prec);
    OperandsNone(Reversed(s.0), prec);
    OperandsAppend(s.1, Reversed(s.0), prec);
  }

  /** An incoming operator of a precedence equal to the one on top of the
      operator stack does not pop it: the tie stays below the new operator. */
  lemma TieIsNotPopped<T>(ops: seq<T>, sta: seq<T>, exp: T, prec: T -> nat)
    requires prec(exp) > 0 && |ops| > 0 && prec(ops[|ops| - 1]) == prec(exp)
    ensures Step((ops, sta), exp, prec) == (ops + [exp], sta)
  {
    assert Kept(ops, prec(exp), prec) == |ops|;
    assert ops[..|ops|] == ops && ops[|ops|..] == [];
    assert sta + Reversed([]) == sta;
  }

  // ---------------------------------------------------------------------------
  // Tree building

  datatype TreeError = EmptyStack

  /** `GetExpressionTreeInternal` on a stack value: pops the top; a binary
      operator then builds its right subtree and after it its left subtree, a
      NOT builds its one operand, brackets are replaced by their inner tree.
      Returns the tree and the stack left over. Popping an empty stack is the
      `InvalidOperationException` of `Stack.Pop`. */
  function BuildTree<P>(sta: seq<Token<P>>): (r: Result<(Tree<P>, seq<Token<P>>), TreeError>)
    ensures r.Ok? ==> |r.value.1| < |sta| && r.value.1 == sta[..|r.value.1|]
    decreases |sta|
  {
    if |sta| == 0 then Err(EmptyStack)
    else
      var rest := sta[..|sta| - 1];
      match sta[|sta| - 1]
      case Operand(p) => Ok((PredicateTree(p), rest))
      case Bracketed(t) => Ok((t, rest))
      case NotOp =>
        (match BuildTree(rest)
         case Err(e) => Err(e)
         case Ok(o) => Ok((NotTree(o.0), o.1)))
      case AndOp =>
        (match BuildTree(rest)
         case Err(e) => Err(e)
         case Ok(right) =>
           match BuildTree(right.1)
           case Err(e) => Err(e)
           case Ok(left) => Ok((AndTree(left.0, right.0), left.1)))
      case OrOp =>
        (match BuildTree(rest)
         case Err(e) => Err(e)
         case Ok(right) =>
           match BuildTree(right.1)
           case Err(e) => Err(e)
           case Ok(left) => Ok((OrTree(left.0, right.0), left.1)))
  }

  /** The postfix token sequence of a tree: what the output stack holds, bottom
      to top, for a bracket-free expression. */
  function Postfix<P>(t: Tree<P>): seq<Token<P>>
  {
    match t
    case PredicateTree(p) => [Operand(p)]
    case NotTree(o) => Postfix(o) + [NotOp]
    case AndTree(l, r) => Postfix(l) + Postfix(r) + [AndOp]
    case OrTree(l, r) => Postfix(l) + Postfix(r) + [OrOp]
  }

  /** Reading a tree back from above its postfix form returns exactly that
      tree and leaves what was below it untouched: the right subtree is taken
      from the top first, then the left one. */
  lemma {:induction false} BuildTreeOfPostfix<P>(below: seq<Token<P>>, t: Tree<P>)
    ensures BuildTree(below + Postfix(t)) == Ok((t, below))
    decreases t
  {
    match t
    case PredicateTree(p) =>
      PopLast(below, Operand(p));
    case NotTree(o) =>
      BuildTreeOfPostfix(below, o);
      assert below + Postfix(t) == (below + Postfix(o)) + [NotOp];
      BuildNot(below + Postfix(o), o, below);
    case AndTree(l, r) =>
      var mid := below + Postfix(l);
      BuildTreeOfPostfix(mid, r);
      BuildTreeOfPostfix(below, l);
      assert Postfix(t) == Postfix(l) + Postfix(r) + [AndOp];
      Regroup(below, Postfix(l), Postfix(r), [AndOp]);
      BuildBinary(mid + Postfix(r), AndOp, l, r, mid, below);
    case OrTree(l, r) =>
      var mid := below + Postfix(l);
      BuildTreeOfPostfix(mid, r);
      BuildTreeOfPostfix(below, l);
      assert Postfix(t) == Postfix(l) + Postfix(r) + [OrOp];
      Regroup(below, Postfix(l), Postfix(r), [OrOp]);
      BuildBinary(mid + Postfix(r), OrOp, l, r, mid, below);
  }

  lemma BuildNot<P>(s: seq<Token<P>>, o: Tree<P>, below: seq<Token<P>>)
    requires BuildTree(s) == Ok((o, below))
    ensures BuildTree(s + [NotOp]) == Ok((NotTree(o), below))
  {
    PopLast(s, NotOp);
  }

  lemma BuildBinary<P>(s: seq<Token<P>>, op: Token<P>, l: Tree<P>, r: Tree<P>, mid: seq<Token<P>>, below: seq<Token<P>>)
    requires op.IsBinary()
    requires BuildTree(s) == Ok((r, mid)) && BuildTree(mid) == Ok((l, below))
    ensures BuildTree(s + [op]) == Ok((if op.AndOp? then AndTree(l, r) else OrTree(l, r), below))
  {
    PopLast(s, op);
  }

  lemma Regroup<T>(a: seq<T>, b: seq<T>, c: seq<T>, d: seq<T>)
    ensures a + (b + c + d) == (a + b + c) + d
  {
  }

  lemma PopLast<T>(s: seq<T>, x: T)
    ensures |s + [x]| - 1 == |s| && (s + [x])[..|s|] == s && (s + [x])[|s|] == x
  {
  }

  /** A bracket token on top is replaced by the tree inside it. */
  lemma BracketsAreEliminated<P>(below: seq<Token<P>>, t: Tree<P>)
    ensures BuildTree(below + [Bracketed(t)]) == Ok((t, below))
  {
    PopLast(below, Bracketed(t));
  }

  /** The output stack of the tree builder, changed in place by each pop. */
  class ExpressionStack<P> {
    var items: seq<Token<P>>

    constructor (items: seq<Token<P>>)
      ensures this.items == items
    {
      this.items := items;
    }

    method Pop() returns (r: Result<Token<P>, TreeError>)
      modifies this
      ensures old(items) == [] ==> r == Err(EmptyStack) && items == old(items)
      ensures old(items) != [] ==> r == Ok(old(items)[|old(items)| - 1]) &&
                                   items == old(items)[..|old(items)| - 1]
    {
      if |items| == 0 {
        r := Err(EmptyStack);
      } else {
        r := Ok(items[|items| - 1]);
        items := items[..|items| - 1];
      }
    }
  }

  /** `GetExpressionTreeInternal`: recursively pops the shared stack. */
  method GetExpressionTreeInternal<P>(sta: ExpressionStack<P>) returns (r: Result<Tree<P>, TreeError>)
    modifies sta
    decreases |sta.items|
    ensures BuildTree(old(sta.items)).Err? ==> r.Err?
    ensures BuildTree(old(sta.items)).Ok? ==>
              r == Ok(BuildTree(old(sta.items)).value.0) && sta.items == BuildTree(old(sta.items)).value.1
  {
    var top := sta.Pop();
    if top.Err? {
      return Err(top.error);
    }
    match top.value
    case Operand(p) =>
      r := Ok(PredicateTree(p));
    case Bracketed(t) =>
      r := Ok(t);
    case NotOp =>
      var operand := GetExpressionTreeInternal(sta);
      if operand.Err? { return Err(operand.error); }
      r := Ok(NotTree(operand.value));
    case AndOp =>
      var right := GetExpressionTreeInternal(sta);
      if right.Err? { return Err(right.error); }
      var left := GetExpressionTreeInternal(sta);
      if left.Err? { return Err(left.error); }
      r := Ok(AndTree(left.value, right.value));
    case OrOp =>
      var right := GetExpressionTreeInternal(sta);
      if right.Err? { return Err(right.error); }
      var left := GetExpressionTreeInternal(sta);
      if left.Err? { return Err(left.error); }
      r := Ok(OrTree(left.value, right.value));
  }

  // ---------------------------------------------------------------------------
  // Precedence

  /** A parse of raw expressions: a tree over the tokens themselves, in which
      a bracketed operand stays a leaf, so that the in-order reading gives the
      raw expressions back. */
  datatype Syntax<P> =
    | Leaf(tok: Token<P>)
    | Negation(operand: Syntax<P>)
    | Binary(op: Token<P>, left: Syntax<P>, right: Syntax<P>)

  /** The in-order reading of a parse, NOT written before its operand. */
  function Infix<P>(t: Syntax<P>): seq<Token<P>>
  {
    match t
    case Leaf(tok) => [tok]
    case Negation(o) => [NotOp] + Infix(o)
    case Binary(op, l, r) => Infix(l) + [op] + Infix(r)
  }

  /** The postfix reading of a parse: what an output stack holds, bottom to top. */
  function PostfixOf<P>(t: Syntax<P>): seq<Token<P>>
  {
    match t
    case Leaf(tok) => [tok]
    case Negation(o) => PostfixOf(o) + [NotOp]
    case Binary(op, l, r) => PostfixOf(l) + PostfixOf(r) + [op]
  }

  /** Leaves are operands and inner nodes the operators they stand for. */
  predicate WellFormed<P>(t: Syntax<P>)
  {
    match t
    case Leaf(tok) => tok.IsOperand()
    case Negation(o) => WellFormed(o)
    case Binary(op, l, r) => op.IsBinary() && WellFormed(l) && WellFormed(r)
  }

  /** The expression tree of a parse: brackets give way to the tree inside them. */
  function TreeOf<P>(t: Syntax<P>): Tree<P>
    requires WellFormed(t)
  {
    match t
    case Leaf(tok) => if tok.Operand? then PredicateTree(tok.p) else tok.inner
    case Negation(o) => NotTree(TreeOf(o))
    case Binary(op, l, r) => if op.AndOp? then AndTree(TreeOf(l), TreeOf(r)) else OrTree(TreeOf(l), TreeOf(r))
  }

  /** A parse observes precedence: NOT applies to one operand (possibly
      negated itself), the left operand of a binary operator binds strictly
      tighter than the operator and the right operand at least as tightly,
      so operators of equal precedence group to the right. */
  predicate Respects<P>(t: Syntax<P>, prec: Token<P> -> nat)
  {
    match t
    case Leaf(tok) => tok.IsOperand()
    case Negation(o) => !o.Binary? && Respects(o, prec)
    case Binary(op, l, r) =>
      op.IsBinary() && Respects(l, prec) && Respects(r, prec) &&
      (l.Binary? ==> prec(l.op) > prec(op)) && (r.Binary? ==> prec(r.op) >= prec(op))
  }

  lemma RespectsIsWellFormed<P>(t: Syntax<P>, prec: Token<P> -> nat)
    requires Respects(t, prec)
    ensures WellFormed(t)
  {
  }

  /** AND and OR are operators, and NOT binds tighter than both, as in SQL. */
  predicate StandardPrecedence<P>(prec: Token<P> -> nat)
  {
    0 < prec(AndOp) < prec(NotOp) && 0 < prec(OrOp) < prec(NotOp)
  }

  /** Reading a parse back from above its postfix form returns its expression
      tree and leaves what was below untouched. */
  lemma {:induction false} BuildTreeOfParse<P>(below: seq<Token<P>>, t: Syntax<P>)
    requires WellFormed(t)
    ensures BuildTree(below + PostfixOf(t)) == Ok((TreeOf(t), below))
    decreases t
  {
    match t
    case Leaf(tok) =>
      if tok.Operand? {
        PopLast(below, tok);
      } else {
        BracketsAreEliminated(below, tok.inner);
      }
    case Negation(o) =>
      BuildTreeOfParse(below, o);
      assert below + PostfixOf(t) == (below + PostfixOf(o)) + [NotOp];
      BuildNot(below + PostfixOf(o), TreeOf(o), below);
    case Binary(op, l, r) =>
      var mid := below + PostfixOf(l);
      BuildTreeOfParse(mid, r);
      BuildTreeOfParse(below, l);
      Regroup(below, PostfixOf(l), PostfixOf(r), [op]);
      BuildBinary(mid + PostfixOf(r), op, TreeOf(l), TreeOf(r), mid, below);
  }

  // Uniqueness of the precedence parse

  /** Every binary operator inside a parse whose root binds at least as
      tightly as `q` has precedence at least `q`. */
  lemma {:induction false} BinaryAtLeast<P>(t: Syntax<P>, q: nat, prec: Token<P> -> nat)
    requires Respects(t, prec) && (t.Binary? ==> prec(t.op) >= q)
    ensures forall i :: 0 <= i < |Infix(t)| && Infix(t)[i].IsBinary() ==> prec(Infix(t)[i]) >= q
    decreases t
  {
    match t
    case Leaf(tok) =>
    case Negation(o) =>
      BinaryAtLeast(o, q, prec);
      assert forall i :: 1 <= i < |Infix(t)| ==> Infix(t)[i] == Infix(o)[i - 1];
    case Binary(op, l, r) =>
      BinaryAtLeast(l, q, prec);
      BinaryAtLeast(r, q, prec);
      var n := |Infix(l)|;
      assert forall i :: 0 <= i < n ==> Infix(t)[i] == Infix(l)[i];
      assert forall i :: n < i < |Infix(t)| ==> Infix(t)[i] == Infix(r)[i - n - 1];
  }

  /** A parse that is not a binary node has no binary operator in it. */
  lemma NoBinaryBelowUnary<P>(t: Syntax<P>, prec: Token<P> -> nat)
    requires Respects(t, prec) && !t.Binary?
    ensures forall i :: 0 <= i < |Infix(t)| ==> !Infix(t)[i].IsBinary()
  {
    forall i | 0 <= i < |Infix(t)| ensures !Infix(t)[i].IsBinary() {
      if Infix(t)[i].IsBinary() {
        BinaryAtLeast(t, prec(Infix(t)[i]) + 1, prec);
      }
    }
  }

  /** Where the operator of a binary node and its operands sit in its reading. */
  lemma InfixOfBinary<P>(t: Syntax<P>, i: nat)
    requires t.Binary? && i < |Infix(t)|
    ensures i < |Infix(t.left)| ==> Infix(t)[i] == Infix(t.left)[i]
    ensures i == |Infix(t.left)| ==> Infix(t)[i] == t.op
    ensures i > |Infix(t.left)| ==> Infix(t)[i] == Infix(t.right)[i - |Infix(t.left)| - 1]
  {
  }

  /** There is only one parse of a token sequence that observes precedence:
      the root is the leftmost of the loosest binding operators. */
  lemma {:induction false} ParseIsUnique<P>(t1: Syntax<P>, t2: Syntax<P>, prec: Token<P> -> nat)
    requires Respects(t1, prec) && Respects(t2, prec) && Infix(t1) == Infix(t2)
    ensures t1 == t2
    decreases t1
  {
    var s := Infix(t1);
    if !t1.Binary? || !t2.Binary? {
      if t1.Binary? {
        InfixOfBinary(t1, |Infix(t1.left)|);
        NoBinaryBelowUnary(t2, prec);
        assert false;
      } else if t2.Binary? {
        InfixOfBinary(t2, |Infix(t2.left)|);
        NoBinaryBelowUnary(t1, prec);
        assert false;
      } else if t1.Leaf? || t2.Leaf? {
        assert s[0] == (if t1.Leaf? then t1.tok else NotOp);
        assert s[0] == (if t2.Leaf? then t2.tok else NotOp);
      } else {
        assert Infix(t1.operand) == s[1..] == Infix(t2.operand);
        ParseIsUnique(t1.operand, t2.operand, prec);
      }
    } else {
      var i1, i2 := |Infix(t1.left)|, |Infix(t2.left)|;
      if i1 < i2 {
        InfixOfBinary(t1, i1);
        InfixOfBinary(t2, i1);
        BinaryAtLeast(t2.left, prec(t2.op) + 1, prec);
        InfixOfBinary(t2, i2);
        InfixOfBinary(t1, i2);
        BinaryAtLeast(t1.right, prec(t1.op), prec);
        assert false;
      } else if i2 < i1 {
        InfixOfBinary(t2, i2);
        InfixOfBinary(t1, i2);
        BinaryAtLeast(t1.left, prec(t1.op) + 1, prec);
        InfixOfBinary(t1, i1);
        InfixOfBinary(t2, i1);
        BinaryAtLeast(t2.right, prec(t2.op), prec);
        assert false;
      } else {
        assert Infix(t1.left) == s[..i1] == Infix(t2.left);
        assert Infix(t1.right) == s[i1 + 1..] == Infix(t2.right);
        assert t1.op == s[i1] == t2.op;
        ParseIsUnique(t1.left, t2.left, prec);
        ParseIsUnique(t1.right, t2.right, prec);
      }
    }
  }

  // Chains of operand units

  /** One operand unit of a chain: some NOTs and an operand. */
  datatype Unit<P> = Unit(nots: nat, operand: Token<P>)

  function Nots<P>(k: nat): (s: seq<Token<P>>)
    ensures |s| == k && forall i :: 0 <= i < k ==> s[i] == NotOp
  {
    if k == 0 then [] else Nots(k - 1) + [NotOp]
  }

  function Negs<P>(k: nat, t: Syntax<P>): (r: Syntax<P>)
    ensures k == 0 ==> r == t
    ensures k > 0 ==> r.Negation?
  {
    if k == 0 then t else Negation(Negs(k - 1, t))
  }

  function UnitTokens<P>(u: Unit<P>): seq<Token<P>>
  {
    Nots(u.nots) + [u.operand]
  }

  function UnitTree<P>(u: Unit<P>): Syntax<P>
  {
    Negs(u.nots, Leaf(u.operand))
  }

  /** Units joined by binary operators, as raw expressions. */
  function Chain<P>(us: seq<Unit<P>>, os: seq<Token<P>>): seq<Token<P>>
    requires |us| == |os| + 1
    decreases |os|
  {
    if |os| == 0 then UnitTokens(us[0])
    else Chain(us[..|us| - 1], os[..|os| - 1]) + [os[|os| - 1]] + UnitTokens(us[|us| - 1])
  }

  predicate ChainTokens<P>(us: seq<Unit<P>>, os: seq<Token<P>>)
  {
    |us| == |os| + 1 && (forall i :: 0 <= i < |us| ==> us[i].operand.IsOperand()) &&
    (forall i :: 0 <= i < |os| ==> os[i].IsBinary())
  }

  /** The operands of the chain have precedence 0. */
  predicate ZeroOperands<P>(us: seq<Unit<P>>, prec: Token<P> -> nat)
  {
    forall i :: 0 <= i < |us| ==> prec(us[i].operand) == 0
  }

  lemma {:induction false} UnitTreeReadings<P>(u: Unit<P>)
    ensures Infix(UnitTree(u)) == UnitTokens(u)
    ensures PostfixOf(UnitTree(u)) == [u.operand] + Nots(u.nots)
    decreases u.nots
  {
    if u.nots > 0 {
      var v := Unit(u.nots - 1, u.operand);
      UnitTreeReadings(v);
      assert [NotOp] + Nots<P>(u.nots - 1) == Nots(u.nots);
      assert Nots<P>(u.nots - 1) + [NotOp] == Nots(u.nots);
    }
  }

  lemma {:induction false} UnitTreeRespects<P>(u: Unit<P>, prec: Token<P> -> nat)
    requires u.operand.IsOperand()
    ensures Respects(UnitTree(u), prec) && !UnitTree(u).Binary?
    decreases u.nots
  {
    if u.nots > 0 {
      UnitTreeRespects(Unit(u.nots - 1, u.operand), prec);
    }
  }

  lemma {:induction false} ChainCons<P>(u: Unit<P>, us: seq<Unit<P>>, o: Token<P>, os: seq<Token<P>>)
    requires |us| == |os| + 1
    ensures Chain([u] + us, [o] + os) == UnitTokens(u) + [o] + Chain(us, os)
    decreases |os|
  {
    if |os| > 0 {
      var us', os' := us[..|us| - 1], os[..|os| - 1];
      ChainCons(u, us', o, os');
      assert ([u] + us)[..|us|] == [u] + us';
      assert ([o] + os)[..|os|] == [o] + os';
    } else {
      assert ([u] + us)[..1] == [u];
    }
  }

  // Trees grouped to the right

  /** Operand trees `ts` joined by operators `os`, grouped to the right. */
  function Fold<P>(ts: seq<Syntax<P>>, os: seq<Token<P>>): Syntax<P>
    requires |ts| == |os| + 1
    decreases |os|
  {
    if |os| == 0 then ts[0] else Binary(os[0], ts[0], Fold(ts[1..], os[1..]))
  }

  /** The postfix readings of several trees, one after the other. */
  function Postfixes<P>(ts: seq<Syntax<P>>): seq<Token<P>>
  {
    if |ts| == 0 then [] else Postfixes(ts[..|ts| - 1]) + PostfixOf(ts[|ts| - 1])
  }

  lemma {:induction false} PostfixesAppend<P>(a: seq<Syntax<P>>, b: seq<Syntax<P>>)
    ensures Postfixes(a + b) == Postfixes(a) + Postfixes(b)
    decreases |b|
  {
    if |b| == 0 {
      assert a + b == a;
    } else {
      var b', x := b[..|b| - 1], b[|b| - 1];
      PostfixesAppend(a, b');
      assert (a + b)[..|a + b| - 1] == a + b' && (a + b)[|a + b| - 1] == x;
      assert Postfixes(a + b) == (Postfixes(a) + Postfixes(b')) + PostfixOf(x);
      assert Postfixes(b) == Postfixes(b') + PostfixOf(x);
      Assoc(Postfixes(a), Postfixes(b'), PostfixOf(x));
    }
  }

  lemma ReversedAppend<T>(a: seq<T>, b: seq<T>)
    ensures Reversed(a + b) == Reversed(b) + Reversed(a)
  {
    assert forall k :: 0 <= k < |a + b| ==> Reversed(a + b)[k] == (Reversed(b) + Reversed(a))[k];
  }

  lemma ReversedNots<P>(k: nat)
    ensures Reversed(Nots<P>(k)) == Nots(k)
  {
  }

  /** The postfix reading of a right-grouped tree: the trees' readings, then
      the operators from the last one back to the first. */
  lemma {:induction false} PostfixOfFold<P>(ts: seq<Syntax<P>>, os: seq<Token<P>>)
    requires |ts| == |os| + 1
    ensures PostfixOf(Fold(ts, os)) == Postfixes(ts) + Reversed(os)
    decreases |os|
  {
    assert Postfixes(ts[..1]) == PostfixOf(ts[0]) by {
      assert ts[..1][..0] == [];
    }
    if |os| == 0 {
      assert ts == ts[..1];
    } else {
      PostfixOfFold(ts[1..], os[1..]);
      assert ts == ts[..1] + ts[1..];
      PostfixesAppend(ts[..1], ts[1..]);
      assert os == [os[0]] + os[1..];
      ReversedCons(os[0], os[1..]);
    }
  }

  /** One more operator and operand extend the in-order reading at its end. */
  lemma {:induction false} InfixFoldSnoc<P>(ts: seq<Syntax<P>>, os: seq<Token<P>>, t: Syntax<P>, o: Token<P>)
    requires |ts| == |os| + 1
    ensures Infix(Fold(ts + [t], os + [o])) == Infix(Fold(ts, os)) + [o] + Infix(t)
    decreases |os|
  {
    if |os| == 0 {
      assert (ts + [t])[1..] == [t];
    } else {
      assert (ts + [t])[1..] == ts[1..] + [t];
      assert (os + [o])[1..] == os[1..] + [o];
      InfixFoldSnoc(ts[1..], os[1..], t, o);
    }
  }

  /** Grouping a suffix first changes nothing: the grouping is to the right. */
  lemma {:induction false} FoldSplit<P>(ts: seq<Syntax<P>>, os: seq<Token<P>>, j: nat)
    requires |ts| == |os| + 1 && j <= |os|
    ensures Fold(ts[..j] + [Fold(ts[j..], os[j..])], os[..j]) == Fold(ts, os)
    decreases j
  {
    if j == 0 {
      assert ts[..0] + [Fold(ts[0..], os[0..])] == [Fold(ts, os)];
      assert ts[0..] == ts && os[0..] == os;
    } else {
      var f := Fold(ts[j..], os[j..]);
      assert (ts[..j] + [f])[1..] == ts[1..][..j - 1] + [Fold(ts[1..][j - 1..], os[1..][j - 1..])];
      assert os[..j][1..] == os[1..][..j - 1];
      FoldSplit(ts[1..], os[1..], j - 1);
    }
  }

  // What the scan holds

  /** The scan holds operand trees and binary operators, and these are about
      to be grouped to the right: operators bind no looser towards the top,
      each tree binds strictly tighter than the operator to its right, and
      the last tree is a single (possibly negated) operand. */
  ghost predicate PendingValid<P>(ts: seq<Syntax<P>>, os: seq<Token<P>>, prec: Token<P> -> nat)
  {
    |ts| == |os| + 1 &&
    (forall i :: 0 <= i < |ts| ==> Respects(ts[i], prec)) &&
    (forall i :: 0 <= i < |os| ==> os[i].IsBinary()) &&
    NonDecreasing(os, prec) &&
    (forall i :: 0 <= i < |os| && ts[i].Binary? ==> prec(ts[i].op) > prec(os[i])) &&
    !ts[|os|].Binary?
  }

  lemma PendingSuffix<P>(ts: seq<Syntax<P>>, os: seq<Token<P>>, j: nat, prec: Token<P> -> nat)
    requires PendingValid(ts, os, prec) && j <= |os|
    ensures PendingValid(ts[j..], os[j..], prec)
  {
    assert forall i :: 0 <= i < |ts[j..]| ==> ts[j..][i] == ts[j + i];
    assert forall i :: 0 <= i < |os[j..]| ==> os[j..][i] == os[j + i];
  }

  /** Grouping what the scan holds gives a parse that observes precedence,
      rooted at the bottom operator. */
  lemma {:induction false} FoldRespects<P>(ts: seq<Syntax<P>>, os: seq<Token<P>>, prec: Token<P> -> nat)
    requires PendingValid(ts, os, prec)
    ensures Respects(Fold(ts, os), prec)
    ensures |os| > 0 ==> Fold(ts, os).Binary? && Fold(ts, os).op == os[0]
    decreases |os|
  {
    if |os| > 0 {
      PendingSuffix(ts, os, 1, prec);
      FoldRespects(ts[1..], os[1..], prec);
      if |os| == 1 {
        assert Fold(ts[1..], os[1..]) == ts[1];
      } else {
        assert os[1..][0] == os[1];
      }
    }
  }

  /** The trees and operators the scan holds after a chain. An incoming
      operator groups the trees above the operators it pops into one. */
  function Pending<P>(us: seq<Unit<P>>, os: seq<Token<P>>, prec: Token<P> -> nat): (r: (seq<Syntax<P>>, seq<Token<P>>))
    requires |us| == |os| + 1
    ensures |r.0| == |r.1| + 1
    decreases |os|
  {
    if |os| == 0 then ([UnitTree(us[0])], [])
    else
      var s := Pending(us[..|us| - 1], os[..|os| - 1], prec);
      var o := os[|os| - 1];
      var j := Kept(s.1, prec(o), prec);
      (s.0[..j] + [Fold(s.0[j..], s.1[j..])] + [UnitTree(us[|us| - 1])], s.1[..j] + [o])
  }

  /** The parse the shunting yard computes. */
  function Parse<P>(us: seq<Unit<P>>, os: seq<Token<P>>, prec: Token<P> -> nat): Syntax<P>
    requires |us| == |os| + 1
  {
    var s := Pending(us, os, prec);
    Fold(s.0, s.1)
  }

  lemma ChainPrefix<P>(us: seq<Unit<P>>, os: seq<Token<P>>)
    requires ChainTokens(us, os) && |os| > 0
    ensures ChainTokens(us[..|us| - 1], os[..|os| - 1])
  {
  }

  /** Replacing the top of a valid scan by a tree `f` under an operator `o`
      that binds no tighter than `f` and no looser than what stays below, and
      adding an operand tree `t`, keeps the scan valid. */
  lemma ReplaceTopKeepsValid<P>(ts: seq<Syntax<P>>, bs: seq<Token<P>>, j: nat, f: Syntax<P>, o: Token<P>, t: Syntax<P>,
                                prec: Token<P> -> nat)
    requires PendingValid(ts, bs, prec) && j <= |bs| && (j > 0 ==> prec(bs[j - 1]) <= prec(o))
    requires o.IsBinary() && Respects(f, prec) && (f.Binary? ==> prec(f.op) > prec(o))
    requires Respects(t, prec) && !t.Binary?
    ensures PendingValid(ts[..j] + [f] + [t], bs[..j] + [o], prec)
  {
    var ts' := ts[..j] + [f] + [t];
    var bs' := bs[..j] + [o];
    assert ts'[j] == f && ts'[j + 1] == t && bs'[j] == o;
    assert forall i :: 0 <= i < j ==> ts'[i] == ts[i] && bs'[i] == bs[i];
    assert NonDecreasing(bs', prec) by {
      forall j1, k1 | 0 <= j1 < k1 < |bs'| ensures prec(bs'[j1]) <= prec(bs'[k1]) {
        if k1 == j && j1 < j - 1 {
          assert prec(bs[j1]) <= prec(bs[j - 1]);
        }
      }
    }
  }

  /** An operator arriving at a valid scan keeps it valid once the trees
      above the operators it pops are grouped and the next unit comes. */
  lemma ArrivalKeepsValid<P>(ts: seq<Syntax<P>>, bs: seq<Token<P>>, o: Token<P>, t: Syntax<P>, prec: Token<P> -> nat)
    requires PendingValid(ts, bs, prec) && o.IsBinary() && Respects(t, prec) && !t.Binary?
    ensures var j := Kept(bs, prec(o), prec);
            PendingValid(ts[..j] + [Fold(ts[j..], bs[j..])] + [t], bs[..j] + [o], prec)
  {
    var j := Kept(bs, prec(o), prec);
    var f := Fold(ts[j..], bs[j..]);
    PendingSuffix(ts, bs, j, prec);
    FoldRespects(ts[j..], bs[j..], prec);
    assert j == |bs| ==> f == ts[j];
    assert f.Binary? ==> j < |bs| && f.op == bs[j] && prec(f.op) > prec(o);
    ReplaceTopKeepsValid(ts, bs, j, f, o, t, prec);
  }

  lemma {:induction false} PendingIsValid<P>(us: seq<Unit<P>>, os: seq<Token<P>>, prec: Token<P> -> nat)
    requires ChainTokens(us, os)
    ensures PendingValid(Pending(us, os, prec).0, Pending(us, os, prec).1, prec)
    ensures Pending(us, os, prec).0[|Pending(us, os, prec).1|] == UnitTree(us[|us| - 1])
    decreases |os|
  {
    var u := us[|us| - 1];
    UnitTreeRespects(u, prec);
    if |os| > 0 {
      ChainPrefix(us, os);
      PendingIsValid(us[..|us| - 1], os[..|os| - 1], prec);
      var s := Pending(us[..|us| - 1], os[..|os| - 1], prec);
      ArrivalKeepsValid(s.0, s.1, os[|os| - 1], UnitTree(u), prec);
    }
  }

  lemma {:induction false} PendingInfix<P>(us: seq<Unit<P>>, os: seq<Token<P>>, prec: Token<P> -> nat)
    requires |us| == |os| + 1
    ensures Infix(Parse(us, os, prec)) == Chain(us, os)
    decreases |os|
  {
    var u := us[|us| - 1];
    UnitTreeReadings(u);
    if |os| > 0 {
      var us', os' := us[..|us| - 1], os[..|os| - 1];
      PendingInfix(us', os', prec);
      var s := Pending(us', os', prec);
      var o := os[|os| - 1];
      var j := Kept(s.1, prec(o), prec);
      var f := Fold(s.0[j..], s.1[j..]);
      assert Pending(us, os, prec) == ((s.0[..j] + [f]) + [UnitTree(u)], s.1[..j] + [o]);
      InfixFoldSnoc(s.0[..j] + [f], s.1[..j], UnitTree(u), o);
      FoldSplit(s.0, s.1, j);
    }
  }

  // The scan over a chain

  lemma ScanSnoc<T>(s: seq<T>, x: T, prec: T -> nat)
    ensures Scan(s + [x], prec) == Step(Scan(s, prec), x, prec)
  {
    assert (s + [x])[..|s + [x]| - 1] == s;
  }

  /** An operator that does not bind tighter than the top of the stack pops nothing. */
  lemma PopsNothing<T>(ops: seq<T>, sta: seq<T>, p: nat, prec: T -> nat)
    requires |ops| == 0 || prec(ops[|ops| - 1]) <= p
    ensures PopGreater(ops, sta, p, prec) == (ops, sta)
  {
    assert ops[..|ops|] == ops && ops[|ops|..] == [];
    assert sta + Reversed([]) == sta;
  }

  /** Operators above `p` on top of the stack are all popped before any below. */
  lemma {:induction false} KeptBelowStronger<T>(a: seq<T>, b: seq<T>, p: nat, prec: T -> nat)
    requires forall i :: 0 <= i < |b| ==> prec(b[i]) > p
    ensures Kept(a + b, p, prec) == Kept(a, p, prec)
    decreases |b|
  {
    if |b| == 0 {
      assert a + b == a;
    } else {
      assert (a + b)[..|a + b| - 1] == a + b[..|b| - 1];
      KeptBelowStronger(a, b[..|b| - 1], p, prec);
    }
  }

  lemma BinaryBelowNot<P>(t: Token<P>, prec: Token<P> -> nat)
    requires StandardPrecedence(prec) && t.IsBinary()
    ensures 0 < prec(t) < prec(NotOp)
  {
  }

  /** A NOT pops nothing from a stack whose top does not bind tighter. */
  lemma NotArrives<P>(c: seq<Token<P>>, prec: Token<P> -> nat)
    requires StandardPrecedence(prec)
    requires var ops := Scan(c, prec).0; |ops| == 0 || prec(ops[|ops| - 1]) <= prec(NotOp)
    ensures Scan(c + [NotOp], prec) == (Scan(c, prec).0 + [NotOp], Scan(c, prec).1)
  {
    ScanSnoc(c, NotOp, prec);
    var s := Scan(c, prec);
    PopsNothing(s.0, s.1, prec(NotOp), prec);
  }

  /** NOTs on top keep the top of the stack from binding tighter than NOT. */
  lemma NotsOnTop<P>(ops: seq<Token<P>>, k: nat, prec: Token<P> -> nat)
    requires |ops| == 0 || prec(ops[|ops| - 1]) <= prec(NotOp)
    ensures var top := ops + Nots(k); |top| == 0 || prec(top[|top| - 1]) <= prec(NotOp)
  {
    if k > 0 {
      assert (ops + Nots(k))[|ops| + k - 1] == Nots<P>(k)[k - 1];
    }
  }

  lemma NotsSnoc<P>(b: seq<Token<P>>, ops: seq<Token<P>>, sta: seq<Token<P>>, k: nat, prec: Token<P> -> nat)
    requires StandardPrecedence(prec)
    requires k > 0 && Scan(b + Nots(k - 1), prec) == (ops + Nots(k - 1), sta)
    requires |ops| == 0 || prec(ops[|ops| - 1]) <= prec(NotOp)
    ensures Scan(b + Nots(k), prec) == (ops + Nots(k), sta)
  {
    var n := Nots<P>(k - 1);
    var c := b + n;
    NotsOnTop(ops, k - 1, prec);
    NotArrives(c, prec);
    assert Nots<P>(k) == n + [NotOp];
    SnocRegroup(b, n, NotOp);
    SnocRegroup(ops, n, NotOp);
  }

  lemma Assoc<T>(a: seq<T>, b: seq<T>, c: seq<T>)
    ensures (a + b) + c == a + (b + c)
  {
  }

  lemma SnocRegroup<T>(a: seq<T>, n: seq<T>, x: T)
    ensures a + (n + [x]) == (a + n) + [x]
  {
  }

  /** NOTs are pushed onto a stack of operators that do not bind tighter. */
  lemma {:induction false} ScanNots<P>(b: seq<Token<P>>, k: nat, prec: Token<P> -> nat)
    requires StandardPrecedence(prec)
    requires var ops := Scan(b, prec).0; |ops| == 0 || prec(ops[|ops| - 1]) <= prec(NotOp)
    ensures Scan(b + Nots(k), prec) == (Scan(b, prec).0 + Nots(k), Scan(b, prec).1)
    decreases k
  {
    var s0 := Scan(b, prec);
    if k == 0 {
      assert b + Nots<P>(0) == b;
      assert s0.0 + Nots<P>(0) == s0.0;
    } else {
      ScanNots(b, k - 1, prec);
      NotsSnoc(b, s0.0, s0.1, k, prec);
    }
  }

  /** A unit pushes its NOTs and outputs its operand. */
  lemma UnitArrives<P>(b: seq<Token<P>>, u: Unit<P>, prec: Token<P> -> nat)
    requires StandardPrecedence(prec) && prec(u.operand) == 0
    requires var ops := Scan(b, prec).0; |ops| == 0 || prec(ops[|ops| - 1]) <= prec(NotOp)
    ensures Scan(b + UnitTokens(u), prec) == (Scan(b, prec).0 + Nots(u.nots), Scan(b, prec).1 + [u.operand])
  {
    ScanNots(b, u.nots, prec);
    assert b + UnitTokens(u) == (b + Nots(u.nots)) + [u.operand];
    ScanSnoc(b + Nots(u.nots), u.operand, prec);
  }

  /** Operators above `p` on top of the stack are popped first. */
  lemma PopGreaterAbove<T>(bs: seq<T>, ns: seq<T>, sta: seq<T>, p: nat, prec: T -> nat)
    requires forall i :: 0 <= i < |ns| ==> prec(ns[i]) > p
    ensures var j := Kept(bs, p, prec);
            PopGreater(bs + ns, sta, p, prec) == (bs[..j], sta + (Reversed(ns) + Reversed(bs[j..])))
  {
    KeptBelowStronger(bs, ns, p, prec);
    var j := Kept(bs, p, prec);
    assert PopGreater(bs + ns, sta, p, prec) == ((bs + ns)[..j], sta + Reversed((bs + ns)[j..]));
    assert (bs + ns)[..j] == bs[..j];
    assert (bs + ns)[j..] == bs[j..] + ns;
    ReversedAppend(bs[j..], ns);
  }

  /** Popping above a precedence below NOT's takes the NOTs on top first. */
  lemma PopGreaterNots<P>(bs: seq<Token<P>>, k: nat, sta: seq<Token<P>>, p: nat, prec: Token<P> -> nat)
    requires p < prec(NotOp)
    ensures var j := Kept(bs, p, prec);
            PopGreater(bs + Nots(k), sta, p, prec) == (bs[..j], sta + (Nots(k) + Reversed(bs[j..])))
  {
    var ns := Nots<P>(k);
    assert forall i :: 0 <= i < |ns| ==> prec(ns[i]) > p;
    PopGreaterAbove(bs, ns, sta, p, prec);
    ReversedNots<P>(k);
  }

  /** An operator arriving after a unit's NOTs pops them and then the
      operators that bind tighter than it. */
  lemma OperatorPops<P>(a: seq<Token<P>>, bs: seq<Token<P>>, k: nat, sta: seq<Token<P>>, o: Token<P>,
                        prec: Token<P> -> nat)
    requires StandardPrecedence(prec) && o.IsBinary()
    requires Scan(a, prec) == (bs + Nots(k), sta)
    ensures var j := Kept(bs, prec(o), prec);
            Scan(a + [o], prec) == (bs[..j] + [o], sta + (Nots(k) + Reversed(bs[j..])))
  {
    BinaryBelowNot(o, prec);
    ScanSnoc(a, o, prec);
    PopGreaterNots(bs, k, sta, prec(o), prec);
  }

  /** The postfix readings of the trees of a scan, the last one being a unit,
      followed by the popped operators, are those of the regrouped trees. */
  lemma PostfixRegroup<P>(ts: seq<Syntax<P>>, bs: seq<Token<P>>, u: Unit<P>, j: nat)
    requires |ts| == |bs| + 1 && ts[|bs|] == UnitTree(u) && j <= |bs|
    ensures (Postfixes(ts[..|bs|]) + [u.operand]) + (Nots(u.nots) + Reversed(bs[j..])) ==
            Postfixes(ts[..j] + [Fold(ts[j..], bs[j..])])
  {
    UnitTreeReadings(u);
    var m := |bs|;
    var pre, post, r := Postfixes(ts[..j]), Postfixes(ts[j..]), Reversed(bs[j..]);
    assert Postfixes(ts[..m]) + PostfixOf(ts[m]) == pre + post by {
      assert ts[..m + 1] == ts;
      assert ts[..m + 1][..m] == ts[..m];
      assert ts == ts[..j] + ts[j..];
      PostfixesAppend(ts[..j], ts[j..]);
    }
    Regroup2(Postfixes(ts[..m]), [u.operand], Nots(u.nots), r);
    Assoc(pre, post, r);
    var f := Fold(ts[j..], bs[j..]);
    PostfixOfFold(ts[j..], bs[j..]);
    assert Postfixes(ts[..j] + [f]) == pre + PostfixOf(f) by {
      assert (ts[..j] + [f])[..j] == ts[..j];
    }
  }

  /** An operator arriving after a unit pops the unit's NOTs and the operators
      that bind tighter than it: the trees above those operators are grouped. */
  lemma OperatorArrives<P>(a: seq<Token<P>>, ts: seq<Syntax<P>>, bs: seq<Token<P>>, u: Unit<P>, o: Token<P>,
                           prec: Token<P> -> nat)
    requires StandardPrecedence(prec) && o.IsBinary()
    requires |ts| == |bs| + 1 && ts[|bs|] == UnitTree(u)
    requires Scan(a, prec) == (bs + Nots(u.nots), Postfixes(ts[..|bs|]) + [u.operand])
    ensures var j := Kept(bs, prec(o), prec);
            Scan(a + [o], prec) == (bs[..j] + [o], Postfixes(ts[..j] + [Fold(ts[j..], bs[j..])]))
  {
    OperatorPops(a, bs, u.nots, Postfixes(ts[..|bs|]) + [u.operand], o, prec);
    PostfixRegroup(ts, bs, u, Kept(bs, prec(o), prec));
  }

  /** The scan after a chain holds the pending trees and operators: the
      binary operators and the last unit's NOTs on the operator stack, and the
      postfix readings of all but the last tree and then the last operand on
      the output stack. */
  lemma {:induction false} ScanIsPending<P>(us: seq<Unit<P>>, os: seq<Token<P>>, prec: Token<P> -> nat)
    requires StandardPrecedence(prec) && ChainTokens(us, os) && ZeroOperands(us, prec)
    ensures var s := Pending(us, os, prec);
            Scan(Chain(us, os), prec) ==
              (s.1 + Nots(us[|us| - 1].nots), Postfixes(s.0[..|s.1|]) + [us[|us| - 1].operand])
    decreases |os|
  {
    var u := us[|us| - 1];
    if |os| == 0 {
      UnitArrives([], u, prec);
      assert [] + UnitTokens(u) == UnitTokens(u);
      assert Pending(us, os, prec).0[..0] == [];
    } else {
      var us', os' := us[..|us| - 1], os[..|os| - 1];
      ChainPrefix(us, os);
      assert ZeroOperands(us', prec);
      ScanIsPending(us', os', prec);
      PendingIsValid(us', os', prec);
      var s := Pending(us', os', prec);
      var o := os[|os| - 1];
      var a := Chain(us', os');
      OperatorArrives(a, s.0, s.1, us'[|us'| - 1], o, prec);
      var j := Kept(s.1, prec(o), prec);
      var bs := s.1[..j] + [o];
      BinaryBelowNot(o, prec);
      UnitArrives(a + [o], u, prec);
      assert Chain(us, os) == (a + [o]) + UnitTokens(u);
      var f := Fold(s.0[j..], s.1[j..]);
      assert Pending(us, os, prec).0[..j + 1] == s.0[..j] + [f];
    }
  }

  /** Popping what remains after the last unit completes the postfix reading
      of the grouped trees. */
  lemma FinalPops<P>(ts: seq<Syntax<P>>, bs: seq<Token<P>>, u: Unit<P>)
    requires |ts| == |bs| + 1 && ts[|bs|] == UnitTree(u)
    ensures (Postfixes(ts[..|bs|]) + [u.operand]) + Reversed(bs + Nots(u.nots)) == PostfixOf(Fold(ts, bs))
  {
    var m := |bs|;
    var x, n, r := Postfixes(ts[..m]), Nots<P>(u.nots), Reversed(bs);
    UnitTreeReadings(u);
    ReversedAppend(bs, n);
    ReversedNots<P>(u.nots);
    assert Reversed(bs + n) == n + r;
    assert Postfixes(ts[..m]) + PostfixOf(ts[m]) == Postfixes(ts) by {
      assert ts[..m + 1] == ts;
      assert ts[..m + 1][..m] == ts[..m];
    }
    PostfixOfFold(ts, bs);
    Regroup2(x, [u.operand], n, r);
  }

  lemma Regroup2<T>(a: seq<T>, b: seq<T>, c: seq<T>, d: seq<T>)
    ensures (a + b) + (c + d) == (a + (b + c)) + d
  {
  }

  /** Every chain has a parse that observes precedence; the shunting yard's
      output stack is that parse in postfix order. */
  lemma ShuntingYardParses<P>(us: seq<Unit<P>>, os: seq<Token<P>>, prec: Token<P> -> nat)
    requires StandardPrecedence(prec) && ChainTokens(us, os) && ZeroOperands(us, prec)
    ensures Respects(Parse(us, os, prec), prec)
    ensures Infix(Parse(us, os, prec)) == Chain(us, os)
    ensures ShuntingYard(Chain(us, os), prec) == PostfixOf(Parse(us, os, prec))
  {
    PendingIsValid(us, os, prec);
    var s := Pending(us, os, prec);
    FoldRespects(s.0, s.1, prec);
    PendingInfix(us, os, prec);
    ScanIsPending(us, os, prec);
    FinalPops(s.0, s.1, us[|us| - 1]);
  }

  /** The tree popped from the shunting yard's output for a chain is the tree
      of the one parse that observes precedence, and nothing is left below it. */
  lemma ShuntingYardBuildsPrecedenceTree<P>(us: seq<Unit<P>>, os: seq<Token<P>>, t: Syntax<P>, prec: Token<P> -> nat)
    requires StandardPrecedence(prec) && ChainTokens(us, os) && ZeroOperands(us, prec)
    requires Respects(t, prec) && Infix(t) == Chain(us, os)
    ensures WellFormed(t) && BuildTree(ShuntingYard(Chain(us, os), prec)) == Ok((TreeOf(t), []))
  {
    ShuntingYardParses(us, os, prec);
    ParseIsUnique(t, Parse(us, os, prec), prec);
    RespectsIsWellFormed(t, prec);
    BuildTreeOfParse([], t);
    assert [] + PostfixOf(t) == PostfixOf(t);
  }

  /** With AND binding tighter than OR, no AND and no NOT of a parse that
      observes precedence has an OR as its operand, unless in brackets. */
  predicate OrNeverUnderAnd<P>(t: Syntax<P>)
  {
    match t
    case Leaf(_) => true
    case Negation(o) => !(o.Binary? && o.op.OrOp?) && OrNeverUnderAnd(o)
    case Binary(op, l, r) =>
      (op.AndOp? ==> !(l.Binary? && l.op.OrOp?) && !(r.Binary? && r.op.OrOp?)) &&
      OrNeverUnderAnd(l) && OrNeverUnderAnd(r)
  }

  lemma {:induction false} AndBindsTighterThanOr<P>(t: Syntax<P>, prec: Token<P> -> nat)
    requires Respects(t, prec) && prec(OrOp) < prec(AndOp)
    ensures OrNeverUnderAnd(t)
    decreases t
  {
    match t
    case Leaf(_) =>
    case Negation(o) => AndBindsTighterThanOr(o, prec);
    case Binary(_, l, r) =>
      AndBindsTighterThanOr(l, prec);
      AndBindsTighterThanOr(r, prec);
  }

  /** `a OR b AND c` groups the AND first. */
  lemma OrThenAndGroupsAndFirst<P>(a: P, b: P, c: P, prec: Token<P> -> nat)
    requires StandardPrecedence(prec) && prec(OrOp) < prec(AndOp)
    requires prec(Operand(a)) == 0 && prec(Operand(b)) == 0 && prec(Operand(c)) == 0
    ensures BuildTree(ShuntingYard([Operand(a), OrOp, Operand(b), AndOp, Operand(c)], prec)) ==
            Ok((OrTree(PredicateTree(a), AndTree(PredicateTree(b), PredicateTree(c))), []))
  {
    var us := [Unit(0, Operand(a)), Unit(0, Operand(b)), Unit(0, Operand(c))];
    var t := Binary(OrOp, Leaf(Operand(a)), Binary(AndOp, Leaf(Operand(b)), Leaf(Operand(c))));
    assert Infix(t.right) == [Operand(b), AndOp, Operand(c)];
    assert Infix(t) == [Operand(a), OrOp, Operand(b), AndOp, Operand(c)];
    ThreeUnitsChain(a, b, c, OrOp, AndOp);
    ShuntingYardBuildsPrecedenceTree(us, [OrOp, AndOp], t, prec);
    assert TreeOf(t.right) == AndTree(PredicateTree(b), PredicateTree(c));
  }

  /** `a AND b OR c` groups the AND first. */
  lemma AndThenOrGroupsAndFirst<P>(a: P, b: P, c: P, prec: Token<P> -> nat)
    requires StandardPrecedence(prec) && prec(OrOp) < prec(AndOp)
    requires prec(Operand(a)) == 0 && prec(Operand(b)) == 0 && prec(Operand(c)) == 0
    ensures BuildTree(ShuntingYard([Operand(a), AndOp, Operand(b), OrOp, Operand(c)], prec)) ==
            Ok((OrTree(AndTree(PredicateTree(a), PredicateTree(b)), PredicateTree(c)), []))
  {
    var us := [Unit(0, Operand(a)), Unit(0, Operand(b)), Unit(0, Operand(c))];
    var t := Binary(OrOp, Binary(AndOp, Leaf(Operand(a)), Leaf(Operand(b))), Leaf(Operand(c)));
    assert Infix(t.left) == [Operand(a), AndOp, Operand(b)];
    assert Infix(t) == [Operand(a), AndOp, Operand(b), OrOp, Operand(c)];
    ThreeUnitsChain(a, b, c, AndOp, OrOp);
    ShuntingYardBuildsPrecedenceTree(us, [AndOp, OrOp], t, prec);
    assert TreeOf(t.left) == AndTree(PredicateTree(a), PredicateTree(b));
  }

  /** `a AND b AND c` groups to the right, as the strict comparison of the
      inner `while` leaves an operator of equal precedence on the stack. */
  lemma AndThenAndGroupsRight<P>(a: P, b: P, c: P, prec: Token<P> -> nat)
    requires StandardPrecedence(prec)
    requires prec(Operand(a)) == 0 && prec(Operand(b)) == 0 && prec(Operand(c)) == 0
    ensures BuildTree(ShuntingYard([Operand(a), AndOp, Operand(b), AndOp, Operand(c)], prec)) ==
            Ok((AndTree(PredicateTree(a), AndTree(PredicateTree(b), PredicateTree(c))), []))
  {
    var us := [Unit(0, Operand(a)), Unit(0, Operand(b)), Unit(0, Operand(c))];
    var t := Binary(AndOp, Leaf(Operand(a)), Binary(AndOp, Leaf(Operand(b)), Leaf(Operand(c))));
    assert Infix(t.right) == [Operand(b), AndOp, Operand(c)];
    assert Infix(t) == [Operand(a), AndOp, Operand(b), AndOp, Operand(c)];
    ThreeUnitsChain(a, b, c, AndOp, AndOp);
    ShuntingYardBuildsPrecedenceTree(us, [AndOp, AndOp], t, prec);
    assert TreeOf(t.right) == AndTree(PredicateTree(b), PredicateTree(c));
  }

  /** `NOT a AND b` applies the NOT to `a` only. */
  lemma NotAppliesToItsOperand<P>(a: P, b: P, prec: Token<P> -> nat)
    requires StandardPrecedence(prec) && prec(Operand(a)) == 0 && prec(Operand(b)) == 0
    ensures BuildTree(ShuntingYard([NotOp, Operand(a), AndOp, Operand(b)], prec)) ==
            Ok((AndTree(NotTree(PredicateTree(a)), PredicateTree(b)), []))
  {
    var na, ub := Unit(1, Operand(a)), Unit(0, Operand(b));
    assert Nots<P>(0) == [] && Nots<P>(1) == [NotOp];
    assert Chain([na, ub], [AndOp]) == [NotOp, Operand(a), AndOp, Operand(b)] by {
      assert [na, ub][..1] == [na];
      assert UnitTokens(na) == [NotOp, Operand(a)] && UnitTokens(ub) == [Operand(b)];
    }
    var t := Binary(AndOp, Negation(Leaf(Operand(a))), Leaf(Operand(b)));
    assert Infix(t.left) == [NotOp, Operand(a)];
    assert Infix(t) == [NotOp, Operand(a), AndOp, Operand(b)];
    ShuntingYardBuildsPrecedenceTree([na, ub], [AndOp], t, prec);
    assert TreeOf(t.left) == NotTree(PredicateTree(a));
  }

  /** Three bare operands joined by two operators. */
  lemma ThreeUnitsChain<P>(a: P, b: P, c: P, o1: Token<P>, o2: Token<P>)
    ensures Chain([Unit(0, Operand(a)), Unit(0, Operand(b)), Unit(0, Operand(c))], [o1, o2]) ==
            [Operand(a), o1, Operand(b), o2, Operand(c)]
  {
    var us := [Unit(0, Operand(a)), Unit(0, Operand(b)), Unit(0, Operand(c))];
    assert Nots<P>(0) == [];
    assert UnitTokens(us[0]) == [Operand(a)] && UnitTokens(us[1]) == [Operand(b)] && UnitTokens(us[2]) == [Operand(c)];
    assert us[..2][..1] == [us[0]];
    assert [o1, o2][..1] == [o1] && [o1][..0] == [];
    assert Chain(us[..2][..1], []) == [Operand(a)];
    assert Chain(us[..2], [o1]) == [Operand(a), o1, Operand(b)];
  }

  // ---------------------------------------------------------------------------
  // Parse nodes and raw enumeration

  datatype OperatorKind = OrKeyword | AndKeyword | OtherKeyword

  /** The children of a logical-expression parse node. The tree of a
      bracketed expression is what its own `GetExpressionTree` returns; that
      code is not part of this model. */
  datatype Child<P> =
    | NotKeyword
    | Whitespace
    | PredicateNode(p: P)
    | BracketsNode(inner: Tree<P>)
    | OperatorNode(kind: OperatorKind)
    | ExpressionNode(node: LogicalExpression<P>)

  datatype LogicalExpression<P> = LogicalExpression(children: seq<Child<P>>)

  predicate HasNot<P>(cs: seq<Child<P>>)
  {
    exists k :: 0 <= k < |cs| && cs[k].NotKeyword?
  }

  /** `FindDescendant<Predicate>`, then `FindDescendant<LogicalExpressionBrackets>`:
      the first predicate child if there is one, otherwise the first brackets child. */
  function FirstOperand<P>(cs: seq<Child<P>>): (r: Option<Token<P>>)
    ensures r.Some? ==> r.value.IsOperand()
  {
    match FirstPredicate(cs)
    case Some(p) => Some(Operand(p))
    case None => (match FirstBrackets(cs) case Some(t) => Some(Bracketed(t)) case None => None)
  }

  function FirstPredicate<P>(cs: seq<Child<P>>): (r: Option<P>)
    ensures r.None? <==> forall k :: 0 <= k < |cs| ==> !cs[k].PredicateNode?
  {
    if |cs| == 0 then None
    else if cs[0].PredicateNode? then Some(cs[0].p)
    else
      assert forall k :: 1 <= k < |cs| ==> cs[k] == cs[1..][k - 1];
      FirstPredicate(cs[1..])
  }

  function FirstBrackets<P>(cs: seq<Child<P>>): (r: Option<Tree<P>>)
    ensures r.None? <==> forall k :: 0 <= k < |cs| ==> !cs[k].BracketsNode?
  {
    if |cs| == 0 then None
    else if cs[0].BracketsNode? then Some(cs[0].inner)
    else
      assert forall k :: 1 <= k < |cs| ==> cs[k] == cs[1..][k - 1];
      FirstBrackets(cs[1..])
  }

  function FirstOperator<P>(cs: seq<Child<P>>): Option<OperatorKind>
  {
    if |cs| == 0 then None
    else if cs[0].OperatorNode? then Some(cs[0].kind)
    else FirstOperator(cs[1..])
  }

  function FirstExpression<P>(cs: seq<Child<P>>): (r: Option<LogicalExpression<P>>)
    ensures r.Some? ==> exists k :: 0 <= k < |cs| && cs[k] == ExpressionNode(r.value)
  {
    if |cs| == 0 then None
    else if cs[0].ExpressionNode? then Some(cs[0].node)
    else
      var r := FirstExpression(cs[1..]);
      assert r.Some? ==> exists k :: 0 <= k < |cs[1..]| && cs[1..][k] == ExpressionNode(r.value);
      assert forall k :: 0 <= k < |cs[1..]| ==> cs[1..][k] == cs[k + 1];
      r
  }

  lemma NextIsSmaller<P>(sc: LogicalExpression<P>)
    requires FirstExpression(sc.children).Some?
    ensures FirstExpression(sc.children).value < sc
  {
    var next := FirstExpression(sc.children).value;
    var k :| 0 <= k < |sc.children| && sc.children[k] == ExpressionNode(next);
    assert sc.children[k] in sc.children;
  }

  /** Number of links in the chain after `sc`. */
  function ChainLength<P>(sc: LogicalExpression<P>): nat
    decreases sc
  {
    match FirstExpression(sc.children)
    case None => 0
    case Some(next) => NextIsSmaller(sc); 1 + ChainLength(next)
  }

  datatype EnumerationError = NoOperand | UnknownOperator

  /** The raw expressions of one link: NOT if present, then its operand, then
      its operator; `None` for the next link when the chain ends here. */
  function Link<P>(sc: LogicalExpression<P>): (r: Result<(seq<Token<P>>, Option<LogicalExpression<P>>), EnumerationError>)
  {
    var head := if HasNot(sc.children) then [NotOp] else [];
    match FirstOperand(sc.children)
    case None => Err(NoOperand)
    case Some(tok) =>
      match FirstOperator(sc.children)
      case None => Ok((head + [tok], None))
      case Some(k) =>
        if k == OtherKeyword then Err(UnknownOperator)
        else Ok((head + [tok, if k == OrKeyword then OrOp else AndOp], FirstExpression(sc.children)))
  }

  /** Raw expressions of a whole chain: the lazily yielded sequence, or the
      exception that ends its enumeration. */
  function RawExpressions<P>(sc: LogicalExpression<P>): Result<seq<Token<P>>, EnumerationError>
    decreases ChainLength(sc)
  {
    match Link(sc)
    case Err(e) => Err(e)
    case Ok(l) =>
      match l.1
      case None => Ok(l.0)
      case Some(next) =>
        (match RawExpressions(next)
         case Err(e) => Err(e)
         case Ok(rest) => Ok(l.0 + rest))
  }

  /** The tokens `acc` already yielded, followed by those of the chain from `sc`. */
  function Continued<P>(acc: seq<Token<P>>, sc: Option<LogicalExpression<P>>): Result<seq<Token<P>>, EnumerationError>
  {
    match sc
    case None => Ok(acc)
    case Some(s) =>
      match RawExpressions(s)
      case Err(e) => Err(e)
      case Ok(rest) => Ok(acc + rest)
  }

  lemma ContinuedStep<P>(acc: seq<Token<P>>, cur: LogicalExpression<P>)
    requires Link(cur).Ok?
    ensures Continued(acc, Some(cur)) == Continued(acc + Link(cur).value.0, Link(cur).value.1)
  {
    var l := Link(cur).value;
    if l.1.Some? {
      var rest := RawExpressions(l.1.value);
      if rest.Ok? {
        assert acc + (l.0 + rest.value) == (acc + l.0) + rest.value;
      }
    }
  }

  /** `EnumerateRawExpressions`: walks the chain link by link. */
  method EnumerateRawExpressions<P>(root: LogicalExpression<P>) returns (r: Result<seq<Token<P>>, EnumerationError>)
    ensures r == RawExpressions(root)
  {
    var res: seq<Token<P>> := [];
    var sc: Option<LogicalExpression<P>> := Some(root);
    assert RawExpressions(root).Ok? ==> [] + RawExpressions(root).value == RawExpressions(root).value;
    while sc.Some?
      invariant Continued(res, sc) == RawExpressions(root)
      decreases if sc.Some? then 1 + ChainLength(sc.value) else 0
    {
      var cur := sc.value;
      var cs := cur.children;
      ghost var before := res;
      if HasNot(cs) {
        res := res + [NotOp];
      }
      var operand := FirstOperand(cs);
      if operand.None? {
        return Err(NoOperand);
      }
      res := res + [operand.value];
      var op := FirstOperator(cs);
      if op.Some? {
        if op.value == OrKeyword {
          res := res + [OrOp];
        } else if op.value == AndKeyword {
          res := res + [AndOp];
        } else {
          return Err(UnknownOperator);
        }
        sc := FirstExpression(cs);
        if sc.Some? {
          NextIsSmaller(cur);
        }
      } else {
        sc := None;
      }
      assert res == before + Link(cur).value.0;
      assert sc == Link(cur).value.1;
      ContinuedStep(before, cur);
    }
    r := Ok(res);
  }

  /** A NOT is yielded right before the operand of its link. */
  lemma NotPrecedesOperand<P>(sc: LogicalExpression<P>)
    requires HasNot(sc.children) && RawExpressions(sc).Ok?
    ensures |RawExpressions(sc).value| >= 2
    ensures RawExpressions(sc).value[0] == NotOp && RawExpressions(sc).value[1].IsOperand()
  {
  }

  /** Every NOT of an enumeration is followed by an operand. */
  predicate NotsBeforeOperands<P>(raw: seq<Token<P>>)
  {
    forall k :: 0 <= k < |raw| && raw[k] == NotOp ==> k + 1 < |raw| && raw[k + 1].IsOperand()
  }

  lemma LinkNotsBeforeOperands<P>(sc: LogicalExpression<P>)
    requires Link(sc).Ok?
    ensures var l := Link(sc).value.0;
            |l| >= 1 && NotsBeforeOperands(l) && !l[|l| - 1].NotOp? &&
            (Link(sc).value.1.Some? ==> l[|l| - 1].IsBinary())
  {
  }

  lemma NotsBeforeOperandsAppend<P>(a: seq<Token<P>>, b: seq<Token<P>>)
    requires NotsBeforeOperands(a) && NotsBeforeOperands(b) && (|a| > 0 ==> !a[|a| - 1].NotOp?)
    ensures NotsBeforeOperands(a + b)
  {
    forall k | 0 <= k < |a + b| && (a + b)[k] == NotOp ensures k + 1 < |a + b| && (a + b)[k + 1].IsOperand() {
      if k < |a| {
        assert a[k] == NotOp;
      } else {
        assert b[k - |a|] == NotOp;
      }
    }
  }

  /** Every NOT yielded along the whole chain is followed by an operand. */
  lemma {:induction false} EveryNotPrecedesOperand<P>(sc: LogicalExpression<P>)
    requires RawExpressions(sc).Ok?
    ensures NotsBeforeOperands(RawExpressions(sc).value)
    decreases ChainLength(sc)
  {
    var l := Link(sc).value;
    LinkNotsBeforeOperands(sc);
    match l.1
    case None =>
    case Some(next) =>
      NextIsSmaller(sc);
      EveryNotPrecedesOperand(next);
      NotsBeforeOperandsAppend(l.0, RawExpressions(next).value);
  }

  /** A link with neither a predicate nor brackets makes the enumeration fail,
      and so does an operator that is neither OR nor AND. */
  lemma MalformedLinkFails<P>(sc: LogicalExpression<P>)
    requires FirstOperand(sc.children).None? ||
             (FirstOperand(sc.children).Some? && FirstOperator(sc.children) == Some(OtherKeyword))
    ensures RawExpressions(sc).Err?
  {
  }

  /** Counting operands against binary operators: each link contributes one
      operand and at most one binary operator, and only the last link may lack it. */
  function CountOperands<P>(s: seq<Token<P>>): nat
  {
    if |s| == 0 then 0 else CountOperands(s[..|s| - 1]) + (if s[|s| - 1].IsOperand() then 1 else 0)
  }

  function CountBinary<P>(s: seq<Token<P>>): nat
  {
    if |s| == 0 then 0 else CountBinary(s[..|s| - 1]) + (if s[|s| - 1].IsBinary() then 1 else 0)
  }

  lemma {:induction false} CountsAppend<P>(a: seq<Token<P>>, b: seq<Token<P>>)
    ensures CountOperands(a + b) == CountOperands(a) + CountOperands(b)
    ensures CountBinary(a + b) == CountBinary(a) + CountBinary(b)
  {
    if |b| == 0 {
      assert a + b == a;
    } else {
      CountsAppend(a, b[..|b| - 1]);
      assert (a + b)[..|a + b| - 1] == a + b[..|b| - 1];
    }
  }

  /** A successful enumeration of a chain of n links yields n operands and
      n - 1 or n binary operators (n when the last link ends in a dangling operator). */
  lemma CountsOfOne<P>(t: Token<P>)
    ensures CountOperands([t]) == (if t.IsOperand() then 1 else 0)
    ensures CountBinary([t]) == (if t.IsBinary() then 1 else 0)
  {
    assert [t][..0] == [];
  }

  /** One link yields exactly one operand, and one binary operator exactly when
      it has an operator, which it must to be followed by another link. */
  lemma LinkCounts<P>(sc: LogicalExpression<P>)
    requires Link(sc).Ok?
    ensures CountOperands(Link(sc).value.0) == 1
    ensures CountBinary(Link(sc).value.0) == (if FirstOperator(sc.children).None? then 0 else 1)
    ensures Link(sc).value.1.Some? ==> FirstOperator(sc.children).Some?
  {
    var l := Link(sc).value;
    var head: seq<Token<P>> := if HasNot(sc.children) then [NotOp] else [];
    var tok := FirstOperand(sc.children).value;
    if HasNot(sc.children) {
      CountsOfOne<P>(NotOp);
    }
    CountsAppend(head, [tok]);
    CountsOfOne(tok);
    if FirstOperator(sc.children).Some? {
      var opTok := l.0[|l.0| - 1];
      assert l.0 == (head + [tok]) + [opTok];
      CountsAppend(head + [tok], [opTok]);
      CountsOfOne(opTok);
    }
  }

  /** A successful enumeration of a chain of n links yields n operands and
      n - 1 or n binary operators (n when the last link ends in a dangling operator). */
  lemma {:induction false} RawExpressionsCounts<P>(sc: LogicalExpression<P>)
    requires RawExpressions(sc).Ok?
    ensures var s := RawExpressions(sc).value;
            CountOperands(s) >= 1 &&
            (CountBinary(s) == CountOperands(s) || CountBinary(s) + 1 == CountOperands(s))
    decreases ChainLength(sc)
  {
    var l := Link(sc).value;
    LinkCounts(sc);
    match l.1
    case None =>
    case Some(next) =>
      NextIsSmaller(sc);
      RawExpressionsCounts(next);
      CountsAppend(l.0, RawExpressions(next).value);
  }

  /** The enumeration does not end in a dangling operator. */
  predicate EndsInOperand<P>(raw: seq<Token<P>>)
  {
    |raw| > 0 && raw[|raw| - 1].IsOperand()
  }

  /** The operands of an enumeration have precedence 0, so that the shunting
      yard sends them straight to the output stack. */
  predicate OperandsAtZero<P>(raw: seq<Token<P>>, prec: Token<P> -> nat)
  {
    forall k :: 0 <= k < |raw| && raw[k].IsOperand() ==> prec(raw[k]) == 0
  }

  /** One link is one unit: its NOT if any and its operand, then its operator
      if it has one. */
  lemma LinkIsUnit<P>(sc: LogicalExpression<P>)
    requires Link(sc).Ok?
    ensures var u := Unit(if HasNot(sc.children) then 1 else 0, FirstOperand(sc.children).value);
            var l := Link(sc).value.0;
            u.operand.IsOperand() &&
            (FirstOperator(sc.children).None? ==> l == UnitTokens(u) && Link(sc).value.1.None?) &&
            (FirstOperator(sc.children).Some? ==> l == UnitTokens(u) + [l[|l| - 1]] && l[|l| - 1].IsBinary())
  {
    assert Nots<P>(0) == [] && Nots<P>(1) == [NotOp];
  }

  lemma RawExpressionsNonEmpty<P>(sc: LogicalExpression<P>)
    requires RawExpressions(sc).Ok?
    ensures |RawExpressions(sc).value| > 0
  {
    RawExpressionsCounts(sc);
  }

  /** An enumeration that ends in an operand is a chain of units joined by
      binary operators. */
  lemma {:induction false} RawExpressionsIsChain<P>(sc: LogicalExpression<P>)
    requires RawExpressions(sc).Ok? && EndsInOperand(RawExpressions(sc).value)
    ensures exists us: seq<Unit<P>>, os: seq<Token<P>> :: ChainTokens(us, os) && Chain(us, os) == RawExpressions(sc).value
    decreases ChainLength(sc)
  {
    var l := Link(sc).value;
    if l.1.None? {
      LastLinkIsChain(sc);
    } else {
      var next := l.1.value;
      NextIsSmaller(sc);
      var raw, rest := RawExpressions(sc).value, RawExpressions(next).value;
      assert raw == l.0 + rest;
      RawExpressionsNonEmpty(next);
      assert raw[|raw| - 1] == rest[|rest| - 1];
      RawExpressionsIsChain(next);
      var us': seq<Unit<P>>, os': seq<Token<P>> :| ChainTokens(us', os') && Chain(us', os') == rest;
      LinkJoinsChain(sc, us', os');
    }
  }

  /** The last link of an enumeration that ends in an operand is one unit. */
  lemma LastLinkIsChain<P>(sc: LogicalExpression<P>)
    requires RawExpressions(sc).Ok? && EndsInOperand(RawExpressions(sc).value) && Link(sc).value.1.None?
    ensures exists us: seq<Unit<P>>, os: seq<Token<P>> :: ChainTokens(us, os) && Chain(us, os) == RawExpressions(sc).value
  {
    var l := Link(sc).value;
    var u := Unit(if HasNot(sc.children) then 1 else 0, FirstOperand(sc.children).value);
    LinkIsUnit(sc);
    assert RawExpressions(sc).value == l.0;
    assert FirstOperator(sc.children).None?;
    assert ChainTokens([u], []) && Chain([u], []) == l.0;
  }

  /** A link that continues, in front of the chain of the rest, is a chain. */
  lemma LinkJoinsChain<P>(sc: LogicalExpression<P>, us': seq<Unit<P>>, os': seq<Token<P>>)
    requires RawExpressions(sc).Ok? && Link(sc).value.1.Some?
    requires ChainTokens(us', os') && Chain(us', os') == RawExpressions(Link(sc).value.1.value).value
    ensures exists us: seq<Unit<P>>, os: seq<Token<P>> :: ChainTokens(us, os) && Chain(us, os) == RawExpressions(sc).value
  {
    var l := Link(sc).value;
    var u := Unit(if HasNot(sc.children) then 1 else 0, FirstOperand(sc.children).value);
    LinkIsUnit(sc);
    var o := l.0[|l.0| - 1];
    ChainExtend(u, o, us', os');
    assert RawExpressions(sc).value == l.0 + Chain(us', os');
    assert Chain([u] + us', [o] + os') == RawExpressions(sc).value;
  }

  /** A unit and an operator in front of a chain make a longer chain. */
  lemma ChainExtend<P>(u: Unit<P>, o: Token<P>, us: seq<Unit<P>>, os: seq<Token<P>>)
    requires ChainTokens(us, os) && u.operand.IsOperand() && o.IsBinary()
    ensures ChainTokens([u] + us, [o] + os)
    ensures Chain([u] + us, [o] + os) == UnitTokens(u) + [o] + Chain(us, os)
  {
    ChainCons(u, us, o, os);
    assert forall i :: 0 < i < |us| + 1 ==> ([u] + us)[i] == us[i - 1];
    assert forall i :: 0 < i < |os| + 1 ==> ([o] + os)[i] == os[i - 1];
  }

  /** Every unit's operand occurs in the chain. */
  lemma {:induction false} ChainOperandsOccur<P>(us: seq<Unit<P>>, os: seq<Token<P>>)
    requires |us| == |os| + 1
    ensures forall i :: 0 <= i < |us| ==> us[i].operand in Chain(us, os)
    decreases |os|
  {
    var last := UnitTokens(us[|us| - 1]);
    assert last[|last| - 1] == us[|us| - 1].operand;
    if |os| > 0 {
      ChainOperandsOccur(us[..|us| - 1], os[..|os| - 1]);
      assert forall i :: 0 <= i < |us| - 1 ==> us[i] == us[..|us| - 1][i];
    }
  }

  /** An enumeration that ends in an operand, with NOT binding tighter than
      AND and OR, is read back by the shunting yard as the tree of its one
      parse that observes precedence, with nothing left over. */
  lemma RawExpressionsParse<P>(sc: LogicalExpression<P>, prec: Token<P> -> nat)
    requires StandardPrecedence(prec) && RawExpressions(sc).Ok?
    requires EndsInOperand(RawExpressions(sc).value) && OperandsAtZero(RawExpressions(sc).value, prec)
    ensures var raw := RawExpressions(sc).value;
            exists t :: Respects(t, prec) && Infix(t) == raw && WellFormed(t) &&
                        BuildTree(ShuntingYard(raw, prec)) == Ok((TreeOf(t), []))
  {
    var raw := RawExpressions(sc).value;
    RawExpressionsIsChain(sc);
    var us: seq<Unit<P>>, os: seq<Token<P>> :| ChainTokens(us, os) && Chain(us, os) == raw;
    ChainOperandsOccur(us, os);
    assert ZeroOperands(us, prec) by {
      forall i | 0 <= i < |us| ensures prec(us[i].operand) == 0 {
        assert us[i].operand in raw;
      }
    }
    ShuntingYardParses(us, os, prec);
    var t := Parse(us, os, prec);
    ShuntingYardBuildsPrecedenceTree(us, os, t, prec);
  }

  // ---------------------------------------------------------------------------
  // Instance creation

  /** `CreateInternal`: an optional NOT keyword and whitespace, then the node. */
  function CreateInternal<P>(negated: bool, n: Child<P>): (sc: LogicalExpression<P>)
    ensures |sc.children| > 0
    ensures sc.children[|sc.children| - 1] == n
    ensures negated <==> |sc.children| == 3
    ensures negated ==> sc.children[..2] == [NotKeyword, Whitespace]
  {
    LogicalExpression((if negated then [NotKeyword, Whitespace] else []) + [n])
  }

  /** The children other than whitespace, in order. */
  function Significant<P>(cs: seq<Child<P>>): seq<Child<P>>
  {
    if |cs| == 0 then [] else (if cs[0].Whitespace? then [] else [cs[0]]) + Significant(cs[1..])
  }

  /** `Create(a, b, op)`: a, whitespace, the operator, whitespace, b. Apart
      from whitespace the node holds a, the operator and b, in that order, so
      that its operator is op. */
  function Create<P>(a: LogicalExpression<P>, b: LogicalExpression<P>, op: OperatorKind): (r: LogicalExpression<P>)
    ensures |r.children| == 5
    ensures Significant(r.children) == [ExpressionNode(a), OperatorNode(op), ExpressionNode(b)]
    ensures !HasNot(r.children) && FirstOperator(r.children) == Some(op)
  {
    var cs := [ExpressionNode(a), Whitespace, OperatorNode(op), Whitespace, ExpressionNode(b)];
    assert cs[4..][1..] == [];
    assert Significant(cs[4..]) == [ExpressionNode(b)];
    assert cs[3..][1..] == cs[4..];
    assert Significant(cs[3..]) == [ExpressionNode(b)];
    assert cs[2..][1..] == cs[3..];
    assert Significant(cs[2..]) == [OperatorNode(op), ExpressionNode(b)];
    assert cs[1..][1..] == cs[2..];
    assert Significant(cs[1..]) == [OperatorNode(op), ExpressionNode(b)];
    assert cs[1..][0] == Whitespace && cs[1..][1..][0] == OperatorNode(op);
    assert FirstOperator(cs[1..][1..]) == Some(op);
    LogicalExpression(cs)
  }

  /** `Create(br, sc, op)`: brackets, whitespace, the operator, whitespace, sc.
      As a link of a chain it has no NOT, the brackets as its operand, op as
      its operator and sc as the next link. */
  function CreateWithBrackets<P>(br: Tree<P>, sc: LogicalExpression<P>, op: OperatorKind): (r: LogicalExpression<P>)
    ensures |r.children| == 5 && r.children[0] == BracketsNode(br) && r.children[4] == ExpressionNode(sc)
    ensures !HasNot(r.children) && FirstOperand(r.children) == Some(Bracketed(br))
    ensures FirstOperator(r.children) == Some(op) && FirstExpression(r.children) == Some(sc)
  {
    var cs := [BracketsNode(br), Whitespace, OperatorNode(op), Whitespace, ExpressionNode(sc)];
    assert FirstPredicate(cs) == None && FirstBrackets(cs) == Some(br);
    assert !HasNot(cs) by {
      forall k | 0 <= k < |cs| ensures !cs[k].NotKeyword? {
        assert k < 2 || k == 2 || k == 3 || k == 4;
      }
    }
    assert cs[1..][0] == Whitespace && cs[1..][1..][0] == OperatorNode(op);
    assert FirstOperator(cs[1..][1..]) == Some(op);
    assert FirstExpression(cs[4..]) == Some(sc);
    assert cs[3..][1..] == cs[4..] && cs[2..][1..] == cs[3..] && cs[1..][1..] == cs[2..];
    assert FirstExpression(cs[3..]) == Some(sc);
    assert FirstExpression(cs[2..]) == Some(sc);
    assert FirstExpression(cs[1..]) == Some(sc);
    LogicalExpression(cs)
  }

  /** A predicate created with or without negation enumerates as [NOT, predicate] or [predicate]. */
  lemma CreatedPredicateEnumerates<P>(negated: bool, p: P)
    ensures RawExpressions(CreateInternal(negated, PredicateNode(p))) ==
            Ok(if negated then [NotOp, Operand(p)] else [Operand(p)])
  {
    var cs := CreateInternal(negated, PredicateNode(p)).children;
    if negated {
      assert cs == [NotKeyword, Whitespace, PredicateNode(p)];
      assert cs[0].NotKeyword?;
      assert cs[2..][1..] == [] && cs[1..][1..] == cs[2..];
      assert FirstOperator(cs[2..]) == None;
      assert FirstOperator(cs[1..]) == None;
      assert FirstOperator(cs) == None;
      assert FirstPredicate(cs[2..]) == Some(p);
      assert FirstPredicate(cs[1..]) == Some(p);
      assert FirstPredicate(cs) == Some(p);
      assert HasNot(cs);
      assert [NotOp] + [Operand(p)] == [NotOp, Operand(p)];
    } else {
      assert cs == [PredicateNode(p)];
      assert !HasNot(cs);
      assert cs[1..] == [];
      assert FirstOperator(cs) == None;
      assert [] + [Operand(p)] == [Operand(p)];
    }
  }

  /** Brackets joined to a chain enumerate as the bracketed tree, the operator
      and then the chain's own raw expressions. */
  lemma CreatedBracketsEnumerate<P>(br: Tree<P>, sc: LogicalExpression<P>, op: OperatorKind)
    requires op != OtherKeyword
    ensures var opTok := if op == OrKeyword then OrOp else AndOp;
            RawExpressions(CreateWithBrackets(br, sc, op)) ==
              match RawExpressions(sc)
              case Err(e) => Err(e)
              case Ok(rest) => Ok([Bracketed(br), opTok] + rest)
  {
    var opTok := if op == OrKeyword then OrOp else AndOp;
    assert [] + [Bracketed(br), opTok] == [Bracketed(br), opTok];
    assert Link(CreateWithBrackets(br, sc, op)) == Ok(([Bracketed(br), opTok], Some(sc)));
  }

  // ---------------------------------------------------------------------------
  // The whole pipeline

  /** `GetExpressionTree`: enumerate, reorder, then pop the tree from the top.
      Tokens left over below the tree are ignored, as in the source. When NOT
      binds tighter than AND and OR, and the enumeration ends in an operand,
      the result is the tree of the one parse of the raw expressions that
      observes precedence. */
  method GetExpressionTree<P>(root: LogicalExpression<P>, prec: Token<P> -> nat) returns (r: Result<Tree<P>, string>)
    ensures RawExpressions(root).Err? ==> r.Err?
    ensures RawExpressions(root).Ok? ==>
              var built := BuildTree(ShuntingYard(RawExpressions(root).value, prec));
              (built.Ok? ==> r == Ok(built.value.0)) && (built.Err? ==> r.Err?)
    ensures StandardPrecedence(prec) && RawExpressions(root).Ok? &&
            EndsInOperand(RawExpressions(root).value) && OperandsAtZero(RawExpressions(root).value, prec) ==>
              exists t :: Respects(t, prec) && Infix(t) == RawExpressions(root).value && WellFormed(t) && r == Ok(TreeOf(t))
  {
    if StandardPrecedence(prec) && RawExpressions(root).Ok? &&
       EndsInOperand(RawExpressions(root).value) && OperandsAtZero(RawExpressions(root).value, prec) {
      RawExpressionsParse(root, prec);
    }
    var raw := EnumerateRawExpressions(root);
    if raw.Err? {
      return Err("InvalidOperationException");
    }
    var output := ExecuteShuntingYard(raw.value, prec);
    var sta := new ExpressionStack(output);
    var t := GetExpressionTreeInternal(sta);
    if t.Err? {
      return Err("InvalidOperationException");
    }
    r := Ok(t.value);
  }
}
