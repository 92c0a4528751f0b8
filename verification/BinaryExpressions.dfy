/**
 The shift-reduce parser for binary expressions and the tree it must produce
 (defaults/JSXTransformer.js:6072-6212; sections 11.5 to 11.11 of ECMA-262 5.1).
 Operands are atoms, named by their position; operator `i` stands between operands `i` and `i + 1`.
 */
module BinaryExpressions {

  datatype Kind = Punctuator | Keyword | Other
  datatype Token = Token(kind: Kind, text: string)

  function BinaryPrecedence(token: Token, allowIn: bool): (prec: nat)
    ensures prec <= 11
  {
    if token.kind == Other then 0
    else if token.text == "||" then 1
    else if token.text == "&&" then 2
    else if token.text == "|" then 3
    else if token.text == "^" then 4
    else if token.text == "&" then 5
    else if token.text in ["==", "!=", "===", "!=="] then 6
    else if token.text in ["<", ">", "<=", ">=", "instanceof"] then 7
    else if token.text == "in" then (if allowIn then 7 else 0)
    else if token.text in ["<<", ">>", ">>>"] then 8
    else if token.text in ["+", "-"] then 9
    else if token.text in ["*", "/", "%"] then 11
    else 0
  }

  /** `start` is the operand whose marker was applied to the node. */
  datatype Expr = Operand(position: nat) | Binary(op: Token, left: Expr, right: Expr, start: nat) {
    function First(): nat { if Operand? then position else left.First() }
    function Last(): nat { if Operand? then position else right.Last() }
  }

  // ----- The tree -----

  /** Read from left to right, the tree is a stretch of the input. */
  predicate Spans(t: Expr, input: seq<Token>) {
    t.Binary? ==>
      && Spans(t.left, input) && Spans(t.right, input)
      && t.right.First() == t.left.Last() + 1
      && t.left.Last() < |input| && t.op == input[t.left.Last()]
  }

  predicate BindsAtLeast(t: Expr, prec: nat, allowIn: bool) {
    t.Binary? ==> BinaryPrecedence(t.op, allowIn) >= prec
  }

  /** Left children bind at least as tightly as their parent, right children strictly tighter. */
  predicate Correct(t: Expr, allowIn: bool) {
    t.Binary? ==>
      && Correct(t.left, allowIn) && Correct(t.right, allowIn)
      && BindsAtLeast(t.left, BinaryPrecedence(t.op, allowIn), allowIn)
      && BindsAtLeast(t.right, BinaryPrecedence(t.op, allowIn) + 1, allowIn)
  }

  /** Every node starts at its leftmost operand. */
  predicate Marked(t: Expr) {
    t.Binary? ==> t.start == t.First() && Marked(t.left) && Marked(t.right)
  }

  lemma {:induction false} SpanOrder(t: Expr, input: seq<Token>)
    requires Spans(t, input)
    ensures t.First() <= t.Last() <= |input| || t.Operand?
    ensures t.First() <= t.Last()
  {
    if t.Binary? {
      SpanOrder(t.left, input);
      SpanOrder(t.right, input);
    }
  }

  /** No operator inside a correct tree binds less tightly than its root. */
  lemma {:induction false} RootBindsLeast(t: Expr, input: seq<Token>, allowIn: bool, prec: nat)
    requires Spans(t, input) && Correct(t, allowIn) && BindsAtLeast(t, prec, allowIn)
    requires t.Last() <= |input|
    ensures t.First() <= t.Last()
    ensures forall j | t.First() <= j < t.Last() :: BinaryPrecedence(input[j], allowIn) >= prec
  {
    hide BinaryPrecedence;
    if t.Binary? {
      var root := BinaryPrecedence(t.op, allowIn);
      SpanOrder(t.right, input);
      RootBindsLeast(t.left, input, allowIn, root);
      RootBindsLeast(t.right, input, allowIn, root + 1);
    }
  }

  /** Over a given stretch of the input there is only one correct tree. */
  lemma {:induction false} CorrectIsUnique(a: Expr, b: Expr, input: seq<Token>, allowIn: bool)
    requires Spans(a, input) && Correct(a, allowIn) && Marked(a) && a.Last() <= |input|
    requires Spans(b, input) && Correct(b, allowIn) && Marked(b)
    requires a.First() == b.First() && a.Last() == b.Last()
    ensures a == b
  {
    hide BinaryPrecedence;
    SpanOrder(a, input);
    SpanOrder(b, input);
    if a.Binary? {
      SpanOrder(a.left, input);
      SpanOrder(a.right, input);
    }
    if b.Binary? {
      SpanOrder(b.left, input);
      SpanOrder(b.right, input);
    }
    if a.Binary? && b.Binary? {
      var p, q := BinaryPrecedence(a.op, allowIn), BinaryPrecedence(b.op, allowIn);
      RootBindsLeast(a.left, input, allowIn, p);
      RootBindsLeast(a.right, input, allowIn, p + 1);
      RootBindsLeast(b.left, input, allowIn, q);
      RootBindsLeast(b.right, input, allowIn, q + 1);
      assert a.left.Last() == b.left.Last();
      CorrectIsUnique(a.left, b.left, input, allowIn);
      CorrectIsUnique(a.right, b.right, input, allowIn);
    }
  }

  // ----- The layered grammar -----

  /** The operators of each production, from section 11.11 (`||`) up to section 11.5 (`*`). */
  function Production(k: nat, allowIn: bool): seq<string> {
    if k == 1 then ["||"]
    else if k == 2 then ["&&"]
    else if k == 3 then ["|"]
    else if k == 4 then ["^"]
    else if k == 5 then ["&"]
    else if k == 6 then ["==", "!=", "===", "!=="]
    else if k == 7 then ["<", ">", "<=", ">=", "instanceof"] + if allowIn then ["in"] else []
    else if k == 8 then ["<<", ">>", ">>>"]
    else if k == 9 then ["+", "-"]
    else if k == 11 then ["*", "/", "%"]
    else []
  }

  /** The table of precedences is the grammar's. */
  lemma PrecedenceIsTheGrammars(token: Token, k: nat, allowIn: bool)
    requires k > 0
    ensures BinaryPrecedence(token, allowIn) == k <==> token.kind != Other && token.text in Production(k, allowIn)
  {
  }

  /**
   One production per level: an expression of level `k` is an expression of level `k`, an
   operator of that production and an expression of level `k + 1`, or one of level `k + 1`;
   beyond the last level there are only operands.
   */
  predicate Derives(t: Expr, k: nat, allowIn: bool)
    requires 0 < k <= 12
    decreases t, 12 - k
  {
    if k == 12 then t.Operand?
    else
      || (&& t.Binary? && t.op.kind != Other && t.op.text in Production(k, allowIn)
          && Derives(t.left, k, allowIn) && Derives(t.right, k + 1, allowIn))
      || Derives(t, k + 1, allowIn)
  }

  lemma {:induction false} DerivedIsCorrect(t: Expr, k: nat, allowIn: bool)
    requires 0 < k <= 12 && Derives(t, k, allowIn)
    ensures Correct(t, allowIn) && BindsAtLeast(t, k, allowIn)
    decreases t, 12 - k
  {
    hide BinaryPrecedence, Production;
    if k < 12 {
      if Derives(t, k + 1, allowIn) {
        DerivedIsCorrect(t, k + 1, allowIn);
      } else {
        PrecedenceIsTheGrammars(t.op, k, allowIn);
        DerivedIsCorrect(t.left, k, allowIn);
        DerivedIsCorrect(t.right, k + 1, allowIn);
      }
    }
  }

  lemma PrecedenceLimit(t: Expr, allowIn: bool)
    ensures t.Binary? ==> BinaryPrecedence(t.op, allowIn) <= 11
  {
  }

  lemma {:induction false} CorrectIsDerived(t: Expr, k: nat, allowIn: bool)
    requires 0 < k <= 12 && Correct(t, allowIn) && BindsAtLeast(t, k, allowIn)
    ensures Derives(t, k, allowIn)
    decreases t, 12 - k
  {
    PrecedenceLimit(t, allowIn);
    hide BinaryPrecedence, Production;
    if t.Binary? {
      PrecedenceIsTheGrammars(t.op, k, allowIn);
    }
    if t.Binary? && BinaryPrecedence(t.op, allowIn) == k {
      CorrectIsDerived(t.left, k, allowIn);
      CorrectIsDerived(t.right, k + 1, allowIn);
    } else if k < 12 {
      CorrectIsDerived(t, k + 1, allowIn);
    }
  }

  // ----- The stack -----

  /** The parser's array as its even and odd entries, with the markers of the operands. */
  datatype Stack = Stack(exprs: seq<Expr>, ops: seq<Token>, markers: seq<nat>)

  ghost predicate WellShaped(s: Stack, input: seq<Token>, n: nat) {
    && |s.exprs| == |s.ops| + 1 == |s.markers|
    && n <= |input|
    && s.exprs[0].First() == 0 && s.exprs[|s.ops|].Last() == n
    && (forall i | 0 <= i < |s.exprs| :: Spans(s.exprs[i], input) && Marked(s.exprs[i]) && s.markers[i] == s.exprs[i].First())
    && (forall i | 0 <= i < |s.ops| ::
          && s.exprs[i].Last() < |input| && s.ops[i] == input[s.exprs[i].Last()]
          && s.exprs[i + 1].First() == s.exprs[i].Last() + 1)
  }

  /** Operators grow strictly tighter towards the top, and each operand fits between its neighbours. */
  ghost predicate WellBound(s: Stack, allowIn: bool)
    requires |s.exprs| == |s.ops| + 1
  {
    && (forall i | 0 <= i < |s.exprs| :: Correct(s.exprs[i], allowIn))
    && (forall i | 0 <= i < |s.ops| - 1 ::
          BinaryPrecedence(s.ops[i], allowIn) < BinaryPrecedence(s.ops[i + 1], allowIn))
    && (forall i | 0 <= i < |s.ops| ::
          && BindsAtLeast(s.exprs[i], BinaryPrecedence(s.ops[i], allowIn), allowIn)
          && BindsAtLeast(s.exprs[i + 1], BinaryPrecedence(s.ops[i], allowIn) + 1, allowIn))
  }

  /** The stack with its three topmost entries made into one node. */
  function Reduced(s: Stack): Stack
    requires |s.exprs| == |s.ops| + 1 == |s.markers| && s.ops != []
  {
    var k := |s.ops|;
    var expr := Binary(s.ops[k - 1], s.exprs[k - 1], s.exprs[k], s.markers[k - 1]);
    Stack(s.exprs[..k - 1] + [expr], s.ops[..k - 1], s.markers[..k - 1] + [s.markers[k - 1]])
  }

  function Shifted(s: Stack, token: Token, n: nat): Stack {
    Stack(s.exprs + [Operand(n + 1)], s.ops + [token], s.markers + [n + 1])
  }

  lemma NodeSpans(op: Token, left: Expr, right: Expr, start: nat, input: seq<Token>)
    requires Spans(left, input) && Spans(right, input) && Marked(left) && Marked(right)
    requires right.First() == left.Last() + 1 && left.Last() < |input| && op == input[left.Last()]
    requires start == left.First()
    ensures var t := Binary(op, left, right, start);
            Spans(t, input) && Marked(t) && t.First() == left.First() && t.Last() == right.Last()
  {
  }

  lemma ReducedShape(s: Stack, input: seq<Token>, n: nat)
    requires WellShaped(s, input, n) && s.ops != []
    ensures WellShaped(Reduced(s), input, n)
  {
    hide Spans, Marked;
    var k, r := |s.ops|, Reduced(s);
    assert s.exprs[k].First() == s.exprs[k - 1].Last() + 1;
    NodeSpans(s.ops[k - 1], s.exprs[k - 1], s.exprs[k], s.markers[k - 1], input);
    forall i | 0 <= i < k - 1 ensures r.exprs[i + 1].First() == r.exprs[i].Last() + 1 {
      assert s.exprs[i + 1].First() == s.exprs[i].Last() + 1;
      assert r.exprs[i] == s.exprs[i];
    }
  }

  lemma ReducedBound(s: Stack, allowIn: bool)
    requires |s.exprs| == |s.ops| + 1 == |s.markers| && s.ops != [] && WellBound(s, allowIn)
    ensures WellBound(Reduced(s), allowIn)
    ensures BindsAtLeast(Reduced(s).exprs[|s.ops| - 1], BinaryPrecedence(s.ops[|s.ops| - 1], allowIn), allowIn)
  {
    hide BinaryPrecedence;
    var k, r := |s.ops|, Reduced(s);
    var expr := r.exprs[k - 1];
    assert Correct(expr, allowIn);
    if k > 1 {
      assert BinaryPrecedence(s.ops[k - 2], allowIn) < BinaryPrecedence(s.ops[k - 2 + 1], allowIn);
    }
    forall i | 0 <= i < k - 1
      ensures && BindsAtLeast(r.exprs[i], BinaryPrecedence(r.ops[i], allowIn), allowIn)
              && BindsAtLeast(r.exprs[i + 1], BinaryPrecedence(r.ops[i], allowIn) + 1, allowIn)
    {
      assert r.ops[i] == s.ops[i] && r.exprs[i] == s.exprs[i];
      assert i + 1 < k - 1 ==> r.exprs[i + 1] == s.exprs[i + 1];
    }
  }

  lemma ShiftedShape(s: Stack, input: seq<Token>, n: nat)
    requires WellShaped(s, input, n) && n < |input|
    ensures WellShaped(Shifted(s, input[n], n), input, n + 1)
  {
    var r := Shifted(s, input[n], n);
    assert Spans(Operand(n + 1), input) && Marked(Operand(n + 1));
    hide Spans, Marked;
    forall i | 0 <= i < |r.ops| ensures r.exprs[i + 1].First() == r.exprs[i].Last() + 1 {
      assert i < |s.ops| ==> r.exprs[i + 1] == s.exprs[i + 1];
    }
  }

  lemma ShiftedBound(s: Stack, token: Token, n: nat, allowIn: bool)
    requires |s.exprs| == |s.ops| + 1 && WellBound(s, allowIn)
    requires BindsAtLeast(s.exprs[|s.ops|], BinaryPrecedence(token, allowIn), allowIn)
    requires s.ops != [] ==> BinaryPrecedence(s.ops[|s.ops| - 1], allowIn) < BinaryPrecedence(token, allowIn)
    ensures WellBound(Shifted(s, token, n), allowIn)
  {
    hide BinaryPrecedence;
    var r := Shifted(s, token, n);
    forall i | 0 <= i < |r.ops|
      ensures && BindsAtLeast(r.exprs[i], BinaryPrecedence(r.ops[i], allowIn), allowIn)
              && BindsAtLeast(r.exprs[i + 1], BinaryPrecedence(r.ops[i], allowIn) + 1, allowIn)
    {
      assert i < |s.ops| ==> r.ops[i] == s.ops[i] && r.exprs[i + 1] == s.exprs[i + 1];
      assert r.exprs[i] == s.exprs[i];
    }
  }

  /** How many operators follow before a token that is none. */
  function OperatorRun(input: seq<Token>, allowIn: bool): (n: nat)
    ensures n <= |input|
    ensures forall i | 0 <= i < n :: BinaryPrecedence(input[i], allowIn) > 0
    ensures n < |input| ==> BinaryPrecedence(input[n], allowIn) == 0
  {
    if input == [] || BinaryPrecedence(input[0], allowIn) == 0 then 0
    else 1 + OperatorRun(input[1..], allowIn)
  }

  lemma OperatorRunIs(input: seq<Token>, allowIn: bool, n: nat)
    requires n <= |input| && (n < |input| ==> BinaryPrecedence(input[n], allowIn) == 0)
    requires forall i | 0 <= i < n :: BinaryPrecedence(input[i], allowIn) > 0
    ensures OperatorRun(input, allowIn) == n
  {
  }

  /** What a parse of the operands and operators up to the first other token must return. */
  ghost predicate IsParse(t: Expr, input: seq<Token>, allowIn: bool) {
    && Spans(t, input) && t.First() == 0 && t.Last() == OperatorRun(input, allowIn)
    && Correct(t, allowIn) && Marked(t)
  }

  /** The inner loop: reduces until the top operator binds less tightly than `prec`. */
  method ReduceWhile(s: Stack, prec: nat, allowIn: bool, ghost input: seq<Token>, ghost n: nat) returns (stack: Stack)
    requires WellShaped(s, input, n) && WellBound(s, allowIn) && s.exprs[|s.ops|].Operand?
    ensures WellShaped(stack, input, n) && WellBound(stack, allowIn)
    ensures BindsAtLeast(stack.exprs[|stack.ops|], prec, allowIn)
    ensures stack.ops != [] ==> BinaryPrecedence(stack.ops[|stack.ops| - 1], allowIn) < prec
  {
    hide BinaryPrecedence, WellBound;
    stack := s;
    while stack.ops != [] && prec <= BinaryPrecedence(stack.ops[|stack.ops| - 1], allowIn)
      invariant WellShaped(stack, input, n) && WellBound(stack, allowIn)
      invariant BindsAtLeast(stack.exprs[|stack.ops|], prec, allowIn)
      decreases |stack.ops|
    {
      ReducedShape(stack, input, n);
      ReducedBound(stack, allowIn);
      var k := |stack.ops|;
      var right, operator, left := stack.exprs[k], stack.ops[k - 1], stack.exprs[k - 1];
      var marker := stack.markers[k - 1];
      var expr := Binary(operator, left, right, marker);
      stack := Stack(stack.exprs[..k - 1] + [expr], stack.ops[..k - 1], stack.markers[..k - 1] + [marker]);
    }
  }

  /** The final reduce: from the top of the stack down. */
  method ReduceAll(s: Stack, ghost input: seq<Token>, ghost n: nat, ghost allowIn: bool) returns (expr: Expr)
    requires WellShaped(s, input, n) && WellBound(s, allowIn)
    ensures Spans(expr, input) && Marked(expr) && Correct(expr, allowIn) && expr.First() == 0 && expr.Last() == n
  {
    hide BinaryPrecedence, Spans, Marked, Correct, WellShaped, WellBound;
    ShapeSizes(s, input, n);
    var i := |s.ops|;
    expr := s.exprs[i];
    ghost var rest := s;
    while i > 0
      invariant 0 <= i <= |s.ops|
      invariant |rest.exprs| == |rest.ops| + 1 && WellShaped(rest, input, n) && WellBound(rest, allowIn)
      invariant rest == Stack(s.exprs[..i] + [expr], s.ops[..i], s.markers[..i + 1])
    {
      ReducedShape(rest, input, n);
      ReducedBound(rest, allowIn);
      expr := Binary(s.ops[i - 1], s.exprs[i - 1], expr, s.markers[i - 1]);
      i := i - 1;
      rest := Reduced(rest);
    }
    SingleEntry(rest, input, n, allowIn);
  }

  lemma SingleEntry(s: Stack, input: seq<Token>, n: nat, allowIn: bool)
    requires |s.exprs| == |s.ops| + 1 && WellShaped(s, input, n) && WellBound(s, allowIn) && s.ops == []
    ensures var expr := s.exprs[0];
            Spans(expr, input) && Marked(expr) && Correct(expr, allowIn) && expr.First() == 0 && expr.Last() == n
  {
  }

  /** The stack in the middle of the outer loop. */
  ghost predicate Sound(s: Stack, input: seq<Token>, n: nat, allowIn: bool) {
    && WellShaped(s, input, n) && WellBound(s, allowIn)
    && s.exprs[|s.ops|].Operand?
  }

  lemma ShiftedSound(s: Stack, input: seq<Token>, n: nat, allowIn: bool)
    requires WellShaped(s, input, n) && WellBound(s, allowIn) && n < |input|
    requires BindsAtLeast(s.exprs[|s.ops|], BinaryPrecedence(input[n], allowIn), allowIn)
    requires s.ops != [] ==> BinaryPrecedence(s.ops[|s.ops| - 1], allowIn) < BinaryPrecedence(input[n], allowIn)
    ensures Sound(Shifted(s, input[n], n), input, n + 1, allowIn)
  {
    hide BinaryPrecedence, WellBound, WellShaped;
    ShapeSizes(s, input, n);
    ShiftedShape(s, input, n);
    ShiftedBound(s, input[n], n, allowIn);
  }

  lemma FirstSound(input: seq<Token>, allowIn: bool)
    ensures Sound(Stack([Operand(0)], [], [0]), input, 0, allowIn)
  {
  }

  /** `parseBinaryExpression` */
  method ParseBinaryExpression(input: seq<Token>, allowIn: bool) returns (expr: Expr, consumed: nat)
    ensures consumed == OperatorRun(input, allowIn)
    ensures IsParse(expr, input, allowIn)
  {
    hide BinaryPrecedence, OperatorRun, WellBound, WellShaped;
    var n := 0;
    var stack := Stack([Operand(0)], [], [0]);
    FirstSound(input, allowIn);
    while n < |input| && BinaryPrecedence(input[n], allowIn) > 0
      invariant n <= |input| && forall i | 0 <= i < n :: BinaryPrecedence(input[i], allowIn) > 0
      invariant Sound(stack, input, n, allowIn)
    {
      var prec := BinaryPrecedence(input[n], allowIn);
      stack := ReduceWhile(stack, prec, allowIn, input, n);
      ShiftedSound(stack, input, n, allowIn);
      stack := Stack(stack.exprs + [Operand(n + 1)], stack.ops + [input[n]], stack.markers + [n + 1]);
      n := n + 1;
    }
    OperatorRunIs(input, allowIn, n);
    expr := ReduceAll(stack, input, n, allowIn);
    consumed := n;
  }

  lemma ShapeSizes(s: Stack, input: seq<Token>, n: nat)
    requires WellShaped(s, input, n)
    ensures |s.exprs| == |s.ops| + 1 == |s.markers|
  {
  }

  /**
   The parse is the one derivation of the layered grammar: whatever tree the grammar derives
   for the same operands and operators is the tree the parser returns, and it does derive it.
   */
  lemma ParseIsTheDerivation(t: Expr, u: Expr, input: seq<Token>, allowIn: bool)
    requires IsParse(t, input, allowIn)
    ensures Derives(t, 1, allowIn)
    ensures (&& Derives(u, 1, allowIn) && Spans(u, input) && Marked(u)
             && u.First() == 0 && u.Last() == OperatorRun(input, allowIn))
            ==> u == t
  {
    hide BinaryPrecedence;
    if t.Binary? {
      SpanOrder(t.right, input);
      assert BinaryPrecedence(input[t.left.Last()], allowIn) > 0;
    }
    CorrectIsDerived(t, 1, allowIn);
    if Derives(u, 1, allowIn) && Spans(u, input) && Marked(u) && u.First() == 0 && u.Last() == OperatorRun(input, allowIn) {
      DerivedIsCorrect(u, 1, allowIn);
      CorrectIsUnique(u, t, input, allowIn);
    }
  }
}
