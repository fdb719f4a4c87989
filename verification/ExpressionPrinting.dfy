/** Printing linker-script expressions and reading them back
    (lib/ReaderWriter/LinkerScript.cpp): the parser rebuilds a tree from any text
    that has at least the parentheses the precedence table requires, and exactly
    the trees dump prints faithfully are identified. */
module ExpressionPrinting {
  import opened Common
  import opened Expressions

  /** A way to write a tree: the tree with its parentheses. */
  datatype Layout =
    | Num(num: nat)
    | Name(name: string)
    | Apply(name: string, args: seq<Layout>)
    | Prefix(uop: UnaryOp, child: Layout)
    | Infix(lhs: Layout, op: BinaryOp, rhs: Layout)
    | Choice(cond: Layout, yes: Layout, no: Layout)
    | Paren(inner: Layout)

  function NameToken(name: string): (t: Token)
    ensures Text(t) == name
  {
    if name == "ALIGN" then Align else Identifier(name)
  }

  function Tokens(l: Layout): (ts: seq<Token>)
    ensures ts != []
  {
    match l
    case Num(n) => [Number(Some(n))]
    case Name(n) => [NameToken(n)]
    case Apply(n, args) => [NameToken(n), LParen] + ArgTokens(args) + [RParen]
    case Prefix(op, c) => [UnaryToken(op)] + Tokens(c)
    case Infix(x, op, y) => Tokens(x) + [Operator(op)] + Tokens(y)
    case Choice(c, y, n) => Tokens(c) + [Question] + Tokens(y) + [Colon] + Tokens(n)
    case Paren(i) => [LParen] + Tokens(i) + [RParen]
  }

  function ArgTokens(args: seq<Layout>): (ts: seq<Token>) {
    if args == [] then []
    else if |args| == 1 then Tokens(args[0])
    else Tokens(args[0]) + [Comma] + ArgTokens(args[1..])
  }

  /** How loosely the outermost operator binds. */
  function Level(l: Layout): (p: nat) {
    match l
    case Infix(_, op, _) => Precedence(op)
    case Choice(_, _, _) => LOWEST
    case _ => 0
  }

  /** Parentheses wherever the precedence table needs them: binary operators
      associate to the left, the conditional to the right. */
  predicate WellPlaced(l: Layout) {
    match l
    case Num(_) => true
    case Name(n) => n != "ALIGN"
    case Apply(_, args) => forall k :: 0 <= k < |args| ==> WellPlaced(args[k])
    case Prefix(_, c) => Level(c) == 0 && WellPlaced(c)
    case Infix(x, op, y) =>
      Level(x) <= Precedence(op) && Level(y) < Precedence(op) && WellPlaced(x) && WellPlaced(y)
    case Choice(c, y, n) => Level(c) < LOWEST && WellPlaced(c) && WellPlaced(y) && WellPlaced(n)
    case Paren(i) => WellPlaced(i)
  }

  /** The tree a layout stands for when it is followed by the token next, after
      which the parser names a call without arguments. */
  function Meaning(l: Layout, next: Token): (e: Expr) {
    match l
    case Num(n) => Constant(n)
    case Name(n) => Symbol(n)
    case Apply(n, args) => if args == [] then Call(Text(next), []) else Call(n, Meanings(args))
    case Prefix(op, c) => Unary(op, Meaning(c, next))
    case Infix(x, op, y) => Binary(Meaning(x, Operator(op)), op, Meaning(y, next))
    case Choice(c, y, n) => Ternary(Meaning(c, Question), Meaning(y, Colon), Meaning(n, next))
    case Paren(i) => Meaning(i, RParen)
  }

  function Meanings(args: seq<Layout>): (es: seq<Expr>)
    ensures |es| == |args|
  {
    if args == [] then []
    else [Meaning(args[0], if |args| == 1 then RParen else Comma)] + Meanings(args[1..])
  }

  /** No operator that would take part of what precedes it, and no argument list. */
  predicate Ends(next: Token, level: nat) {
    && next != LParen
    && (next.Operator? ==> level < LOWEST && level <= Precedence(next.op))
    && (next.Question? ==> level < LOWEST)
  }

  // ----- reading a layout back -----

  lemma {:induction false} ReadsOperand(l: Layout, k: seq<Token>)
    requires WellPlaced(l) && Level(l) == 0 && First(k) != LParen
    ensures ParseOperand(Tokens(l) + k) == Result(Some(Meaning(l, First(k))), k)
    decreases l, 0
  {
    hide ParseOperand, ParseExpression;
    var ts := Tokens(l) + k;
    match l
    case Num(_) => ReadsAtom(l, k);
    case Name(_) => ReadsAtom(l, k);
    case Apply(n, args) => ReadsCall(n, args, k);
    case Prefix(op, c) =>
      ReadsOperand(c, k);
      assert ts == [UnaryToken(op)] + (Tokens(c) + k);
      PrefixStep(op, Tokens(c) + k);
    case Paren(i) =>
      assert ts == [LParen] + (Tokens(i) + ([RParen] + k));
      ReadsAll(i, [RParen] + k, LOWEST);
      ParenStep(Tokens(i) + ([RParen] + k), k);
  }

  lemma ReadsAtom(l: Layout, k: seq<Token>)
    requires WellPlaced(l) && (l.Num? || l.Name?) && First(k) != LParen
    ensures ParseOperand(Tokens(l) + k) == Result(Some(Meaning(l, First(k))), k)
  {
    assert (Tokens(l) + k)[1..] == k;
  }

  lemma PrefixStep(op: UnaryOp, ts: seq<Token>)
    requires ParseOperand(ts).value.Some?
    ensures ParseOperand([UnaryToken(op)] + ts)
         == Result(Some(Unary(op, ParseOperand(ts).value.value)), ParseOperand(ts).rest)
  {
    assert ([UnaryToken(op)] + ts)[1..] == ts;
  }

  lemma ParenStep(ts: seq<Token>, k: seq<Token>)
    requires ParseExpression(ts, LOWEST).rest == [RParen] + k
    ensures ParseOperand([LParen] + ts) == Result(ParseExpression(ts, LOWEST).value, k)
  {
    assert ([LParen] + ts)[1..] == ts && ([RParen] + k)[1..] == k;
  }

  lemma {:induction false} ReadsCall(n: string, args: seq<Layout>, k: seq<Token>)
    requires WellPlaced(Apply(n, args)) && First(k) != LParen
    ensures var l := Apply(n, args); ParseOperand(Tokens(l) + k) == Result(Some(Meaning(l, First(k))), k)
    decreases args, 1
  {
    var ts := Tokens(Apply(n, args)) + k;
    assert ts[2..] == ArgTokens(args) + ([RParen] + k);
    assert First(ts[1..]) == LParen;
    assert ParseOperand(ts) == ParseCall(ts);
    if args == [] {
      assert ts[3..] == k;
    } else {
      ReadsArgs(args, [RParen] + k);
      assert ([RParen] + k)[1..] == k;
      FirstOfArgs(args, [RParen] + k);
    }
  }

  /** An argument list does not start with a closing parenthesis. */
  lemma FirstOfArgs(args: seq<Layout>, k: seq<Token>)
    requires args != []
    ensures First(ArgTokens(args) + k) != RParen
  {
    FirstToken(args[0]);
    assert (ArgTokens(args) + k)[0] == Tokens(args[0])[0];
  }

  lemma {:induction false} FirstToken(l: Layout)
    ensures Tokens(l)[0] != RParen
  {
    match l
    case Infix(x, _, _) => FirstToken(x);
    case Choice(c, _, _) => FirstToken(c);
    case _ =>
  }

  lemma {:induction false} ReadsArgs(args: seq<Layout>, k: seq<Token>)
    requires args != [] && First(k) == RParen && forall i :: 0 <= i < |args| ==> WellPlaced(args[i])
    ensures ParseArgs(ArgTokens(args) + k) == Result(Some(Meanings(args)), k)
    decreases args, 0
  {
    if |args| == 1 {
      ReadsAll(args[0], k, LOWEST);
      assert Meanings(args) == [Meaning(args[0], RParen)];
    } else {
      var more := [Comma] + (ArgTokens(args[1..]) + k);
      assert ArgTokens(args) + k == Tokens(args[0]) + more;
      ReadsAll(args[0], more, LOWEST);
      assert more[1..] == ArgTokens(args[1..]) + k;
      ReadsArgs(args[1..], k);
    }
  }

  /** With nothing that continues it, a layout is read up to its end. */
  lemma {:induction false} ReadsAll(l: Layout, k: seq<Token>, precedence: nat)
    requires WellPlaced(l) && Level(l) <= precedence <= LOWEST
    requires First(k) != LParen && !First(k).Question?
    requires First(k).Operator? ==> Precedence(First(k).op) > precedence
    ensures ParseExpression(Tokens(l) + k, precedence) == Result(Some(Meaning(l, First(k))), k)
    decreases l, 2
  {
    Reads(l, k, precedence);
    AfterEnds(Meaning(l, First(k)), k, precedence);
  }

  /** Reading at a precedence that admits the outermost operator goes on, after
      the layout, with what follows it. */
  lemma {:induction false} Reads(l: Layout, k: seq<Token>, precedence: nat)
    requires WellPlaced(l) && Level(l) <= precedence <= LOWEST && Ends(First(k), Level(l))
    ensures ParseExpression(Tokens(l) + k, precedence) == After(Meaning(l, First(k)), k, precedence)
    decreases l, 1
  {
    hide ParseOperand, After, ParseExpression;
    match l
    case Infix(x, op, y) =>
      var more := [Operator(op)] + (Tokens(y) + k);
      assert Tokens(l) + k == Tokens(x) + more;
      Reads(x, more, precedence);
      Reads(y, k, Precedence(op) - 1);
      AfterEnds(Meaning(y, First(k)), k, Precedence(op) - 1);
      AfterOperator(Meaning(x, Operator(op)), op, Tokens(y) + k, precedence);
    case Choice(c, y, n) =>
      var last := [Colon] + (Tokens(n) + k);
      var more := [Question] + (Tokens(y) + last);
      assert Tokens(l) + k == Tokens(c) + more;
      Reads(c, more, precedence);
      Reads(y, last, LOWEST);
      AfterEnds(Meaning(y, Colon), last, LOWEST);
      Reads(n, k, LOWEST);
      AfterEnds(Meaning(n, First(k)), k, LOWEST);
      AfterEnds(Meaning(l, First(k)), k, LOWEST);
      AfterQuestion(Meaning(c, Question), Tokens(y) + last, Tokens(n) + k);
    case _ =>
      ReadsOperand(l, k);
      AfterOperand(Tokens(l) + k, precedence);
  }

  lemma AfterOperand(ts: seq<Token>, precedence: nat)
    requires ParseOperand(ts).value.Some?
    ensures ParseExpression(ts, precedence) == After(ParseOperand(ts).value.value, ParseOperand(ts).rest, precedence)
  {
  }

  lemma AfterEnds(e: Expr, k: seq<Token>, precedence: nat)
    requires First(k).Operator? ==> Precedence(First(k).op) > precedence
    requires First(k).Question? ==> precedence < LOWEST
    ensures After(e, k, precedence) == Result(Some(e), k)
  {
  }

  lemma AfterOperator(lhs: Expr, op: BinaryOp, ts: seq<Token>, precedence: nat)
    requires Precedence(op) <= precedence && ParseExpression(ts, Precedence(op) - 1).value.Some?
    ensures var rhs := ParseExpression(ts, Precedence(op) - 1);
      After(lhs, [Operator(op)] + ts, precedence) == After(Binary(lhs, op, rhs.value.value), rhs.rest, precedence)
  {
    assert ([Operator(op)] + ts)[1..] == ts;
  }

  lemma AfterQuestion(cond: Expr, ts: seq<Token>, us: seq<Token>)
    requires ParseExpression(ts, LOWEST).value.Some? && ParseExpression(ts, LOWEST).rest == [Colon] + us
    requires ParseExpression(us, LOWEST).value.Some?
    ensures After(cond, [Question] + ts, LOWEST) ==
            Result(Some(Ternary(cond, ParseExpression(ts, LOWEST).value.value, ParseExpression(us, LOWEST).value.value)),
                   ParseExpression(us, LOWEST).rest)
  {
    assert ([Question] + ts)[1..] == ts && ([Colon] + us)[1..] == us;
  }

  // ----- how operators group -----

  /** The classes of operators, tightest first. Those of one class group from the
      left. */
  predicate InClass(op: BinaryOp, i: nat) {
    || (i == 1 && op in {Mul, Div})
    || (i == 2 && op in {Sum, Sub})
    || (i == 3 && op in {Shl, Shr})
    || (i == 4 && op in {CompareLess, CompareGreater, CompareLessEqual, CompareGreaterEqual})
    || (i == 5 && op in {CompareEqual, CompareDifferent})
    || (i == 6 && op in {And})
    || (i == 7 && op in {Or})
  }

  ghost predicate Tighter(op: BinaryOp, op': BinaryOp) {
    exists i, j :: i < j && InClass(op, i) && InClass(op', j)
  }

  lemma ClassOf(op: BinaryOp) returns (i: nat)
    ensures InClass(op, i) && forall j :: InClass(op, j) ==> j == i
    ensures i == if op.Or? then 7 else Precedence(op) - 2
  {
    i := if op.Or? then 7 else Precedence(op) - 2;
  }

  lemma TighterIsPrecedence(op: BinaryOp, op': BinaryOp)
    ensures Tighter(op, op') <==> Precedence(op) < Precedence(op')
  {
    var i := ClassOf(op);
    var j := ClassOf(op');
    hide InClass;
  }

  /** An operand: no operator or conditional outside parentheses. */
  predicate IsOperand(l: Layout) {
    WellPlaced(l) && !l.Infix? && !l.Choice?
  }

  /** Nothing that could go on with the expression. */
  predicate Closes(next: Token) {
    !next.LParen? && !next.Operator? && !next.Question?
  }

  lemma InfixParts(x: Layout, op: BinaryOp, y: Layout, next: Token)
    ensures Tokens(Infix(x, op, y)) == Tokens(x) + [Operator(op)] + Tokens(y)
    ensures Meaning(Infix(x, op, y), next) == Binary(Meaning(x, Operator(op)), op, Meaning(y, next))
  {
  }

  lemma ChoiceParts(c: Layout, y: Layout, n: Layout, next: Token)
    ensures Tokens(Choice(c, y, n)) == Tokens(c) + [Question] + Tokens(y) + [Colon] + Tokens(n)
    ensures Meaning(Choice(c, y, n), next) == Ternary(Meaning(c, Question), Meaning(y, Colon), Meaning(n, next))
  {
  }

  /** Two operators between three operands: the second takes the middle operand
      exactly if it is strictly tighter than the first. */
  lemma OperatorsGroup(x: Layout, op: BinaryOp, y: Layout, op': BinaryOp, z: Layout, k: seq<Token>)
    requires IsOperand(x) && IsOperand(y) && IsOperand(z) && Closes(First(k))
    ensures var a, b, c := Meaning(x, Operator(op)), Meaning(y, Operator(op')), Meaning(z, First(k));
      ParseExpression(Tokens(x) + [Operator(op)] + Tokens(y) + [Operator(op')] + Tokens(z) + k, LOWEST)
        == Result(Some(if Tighter(op', op) then Binary(a, op, Binary(b, op', c)) else Binary(Binary(a, op, b), op', c)), k)
  {
    hide ParseExpression, WellPlaced, Tighter, Tokens, Meaning;
    TighterIsPrecedence(op', op);
    var ts := Tokens(x) + [Operator(op)] + Tokens(y) + [Operator(op')] + Tokens(z);
    if Tighter(op', op) {
      var r := Infix(y, op', z);
      InfixParts(y, op', z, First(k));
      InfixParts(x, op, r, First(k));
      GroupsRight(x, op, y, op', z);
      assert Tokens(Infix(x, op, r)) == ts;
      ReadsAll(Infix(x, op, r), k, LOWEST);
    } else {
      var l := Infix(x, op, y);
      InfixParts(x, op, y, Operator(op'));
      InfixParts(l, op', z, First(k));
      GroupsLeft(x, op, y, op', z);
      assert Tokens(Infix(l, op', z)) == ts;
      ReadsAll(Infix(l, op', z), k, LOWEST);
    }
  }

  lemma GroupsRight(x: Layout, op: BinaryOp, y: Layout, op': BinaryOp, z: Layout)
    requires IsOperand(x) && IsOperand(y) && IsOperand(z) && Precedence(op') < Precedence(op)
    ensures WellPlaced(Infix(x, op, Infix(y, op', z)))
  {
  }

  lemma GroupsLeft(x: Layout, op: BinaryOp, y: Layout, op': BinaryOp, z: Layout)
    requires IsOperand(x) && IsOperand(y) && IsOperand(z) && Precedence(op') >= Precedence(op)
    ensures WellPlaced(Infix(Infix(x, op, y), op', z))
  {
  }

  /** For numbers, the tokens one by one. */
  lemma NumbersGroup(a: nat, op: BinaryOp, b: nat, op': BinaryOp, c: nat)
    ensures ParseExpression([Number(Some(a)), Operator(op), Number(Some(b)), Operator(op'), Number(Some(c))], LOWEST) ==
      Result(Some(
        if Tighter(op', op) then Binary(Constant(a), op, Binary(Constant(b), op', Constant(c)))
        else Binary(Binary(Constant(a), op, Constant(b)), op', Constant(c))), [])
  {
    hide ParseExpression, Tighter;
    OperatorsGroup(Num(a), op, Num(b), op', Num(c), []);
    assert Tokens(Num(a)) + [Operator(op)] + Tokens(Num(b)) + [Operator(op')] + Tokens(Num(c)) + []
        == [Number(Some(a)), Operator(op), Number(Some(b)), Operator(op'), Number(Some(c))];
  }

  /** A minus or a tilde takes just the operand that follows it. */
  lemma PrefixesBindTightest(n: nat, op: BinaryOp, m: nat)
    ensures ParseExpression([Operator(Sub), Number(Some(n)), Operator(op), Number(Some(m))], LOWEST)
         == Result(Some(Binary(Unary(Minus, Constant(n)), op, Constant(m))), [])
    ensures ParseExpression([Tilde, Number(Some(n)), Operator(op), Number(Some(m))], LOWEST)
         == Result(Some(Binary(Unary(Not, Constant(n)), op, Constant(m))), [])
  {
    hide ParseExpression;
    var minus, not := Infix(Prefix(Minus, Num(n)), op, Num(m)), Infix(Prefix(Not, Num(n)), op, Num(m));
    assert Tokens(Num(n)) == [Number(Some(n))] && Tokens(Num(m)) == [Number(Some(m))];
    assert Tokens(Prefix(Minus, Num(n))) == [Operator(Sub), Number(Some(n))];
    assert Tokens(Prefix(Not, Num(n))) == [Tilde, Number(Some(n))];
    InfixParts(Prefix(Minus, Num(n)), op, Num(m), Eof);
    InfixParts(Prefix(Not, Num(n)), op, Num(m), Eof);
    assert Tokens(minus) + [] == [Operator(Sub), Number(Some(n)), Operator(op), Number(Some(m))];
    assert Tokens(not) + [] == [Tilde, Number(Some(n)), Operator(op), Number(Some(m))];
    ReadsAll(minus, [], LOWEST);
    ReadsAll(not, [], LOWEST);
  }

  /** What the operators look like. */
  const SIGNS: map<BinaryOp, string> := map[
    Sum := "+", Sub := "-", Mul := "*", Div := "/", Shl := "<<", Shr := ">>", And := "&", Or := "|",
    CompareEqual := "==", CompareDifferent := "!=", CompareLess := "<", CompareGreater := ">",
    CompareLessEqual := "<=", CompareGreaterEqual := ">="]

  /** A call without arguments in front of an operator is named after the operator. */
  lemma EmptyCallTakesSign(f: string, op: BinaryOp, n: nat)
    requires f != "ALIGN"
    ensures op in SIGNS
    ensures ParseExpression([Identifier(f), LParen, RParen, Operator(op), Number(Some(n))], LOWEST)
         == Result(Some(Binary(Call(SIGNS[op], []), op, Constant(n))), [])
  {
    hide ParseExpression;
    var l := Infix(Apply(f, []), op, Num(n));
    assert Tokens(Num(n)) == [Number(Some(n))];
    assert Tokens(Apply(f, [])) == [Identifier(f), LParen, RParen];
    InfixParts(Apply(f, []), op, Num(n), Eof);
    assert Tokens(l) + [] == [Identifier(f), LParen, RParen, Operator(op), Number(Some(n))];
    ReadsAll(l, [], LOWEST);
    assert Meaning(Apply(f, []), Operator(op)) == Call(OperatorText(op), []);
    SignOf(op);
  }

  lemma SignOf(op: BinaryOp)
    ensures op in SIGNS && SIGNS[op] == OperatorText(op)
  {
  }

  /** Every operator binds tighter than a conditional, before it and after it. */
  lemma ConditionalIsLoosest(x: Layout, op: BinaryOp, y: Layout, z: Layout, w: Layout, k: seq<Token>)
    requires IsOperand(x) && IsOperand(y) && IsOperand(z) && IsOperand(w) && Closes(First(k))
    ensures ParseExpression(Tokens(x) + [Operator(op)] + Tokens(y) + [Question] + Tokens(z) + [Colon] + Tokens(w) + k, LOWEST)
      == Result(Some(Ternary(Binary(Meaning(x, Operator(op)), op, Meaning(y, Question)), Meaning(z, Colon), Meaning(w, First(k)))), k)
    ensures ParseExpression(Tokens(x) + [Question] + Tokens(y) + [Colon] + Tokens(z) + [Operator(op)] + Tokens(w) + k, LOWEST)
      == Result(Some(Ternary(Meaning(x, Question), Meaning(y, Colon), Binary(Meaning(z, Operator(op)), op, Meaning(w, First(k))))), k)
  {
    BeforeConditional(x, op, y, z, w, k);
    InsideConditional(x, y, z, op, w, k);
  }

  lemma BeforeConditional(x: Layout, op: BinaryOp, y: Layout, z: Layout, w: Layout, k: seq<Token>)
    requires IsOperand(x) && IsOperand(y) && IsOperand(z) && IsOperand(w) && Closes(First(k))
    ensures ParseExpression(Tokens(x) + [Operator(op)] + Tokens(y) + [Question] + Tokens(z) + [Colon] + Tokens(w) + k, LOWEST)
      == Result(Some(Ternary(Binary(Meaning(x, Operator(op)), op, Meaning(y, Question)), Meaning(z, Colon), Meaning(w, First(k)))), k)
  {
    hide ParseExpression, Tokens, Meaning;
    var c := Infix(x, op, y);
    InfixParts(x, op, y, Question);
    ChoiceParts(c, z, w, First(k));
    assert WellPlaced(Choice(c, z, w));
    ReadsAll(Choice(c, z, w), k, LOWEST);
  }

  lemma InsideConditional(x: Layout, y: Layout, z: Layout, op: BinaryOp, w: Layout, k: seq<Token>)
    requires IsOperand(x) && IsOperand(y) && IsOperand(z) && IsOperand(w) && Closes(First(k))
    ensures ParseExpression(Tokens(x) + [Question] + Tokens(y) + [Colon] + Tokens(z) + [Operator(op)] + Tokens(w) + k, LOWEST)
      == Result(Some(Ternary(Meaning(x, Question), Meaning(y, Colon), Binary(Meaning(z, Operator(op)), op, Meaning(w, First(k))))), k)
  {
    hide ParseExpression, Tokens, Meaning;
    var n := Infix(z, op, w);
    InfixParts(z, op, w, First(k));
    ChoiceParts(x, y, n, First(k));
    var ts := Tokens(x) + [Question] + Tokens(y) + [Colon] + Tokens(z) + [Operator(op)] + Tokens(w);
    assert Tokens(Choice(x, y, n)) == ts;
    assert WellPlaced(Choice(x, y, n));
    ReadsAll(Choice(x, y, n), k, LOWEST);
  }

  /** Conditionals group from the right. */
  lemma ConditionalsGroup(u: Layout, v: Layout, x: Layout, y: Layout, z: Layout, k: seq<Token>)
    requires IsOperand(u) && IsOperand(v) && IsOperand(x) && IsOperand(y) && IsOperand(z) && Closes(First(k))
    ensures ParseExpression(Tokens(u) + [Question] + Tokens(v) + [Colon] + Tokens(x) + [Question] + Tokens(y) + [Colon] + Tokens(z) + k, LOWEST)
      == Result(Some(Ternary(Meaning(u, Question), Meaning(v, Colon),
                             Ternary(Meaning(x, Question), Meaning(y, Colon), Meaning(z, First(k))))), k)
  {
    hide ParseExpression, Tokens, Meaning;
    var n := Choice(x, y, z);
    ChoiceParts(x, y, z, First(k));
    ChoiceParts(u, v, n, First(k));
    var ts := Tokens(u) + [Question] + Tokens(v) + [Colon] + Tokens(x) + [Question] + Tokens(y) + [Colon] + Tokens(z);
    assert Tokens(Choice(u, v, n)) == ts;
    assert WellPlaced(Choice(u, v, n));
    ReadsAll(Choice(u, v, n), k, LOWEST);
  }

  // ----- only the parentheses that are needed -----

  function ExprLevel(e: Expr): (p: nat) {
    match e
    case Binary(_, op, _) => Precedence(op)
    case Ternary(_, _, _) => LOWEST
    case _ => 0
  }

  /** A tree the parser can have built without error, all its names lexed as names. */
  predicate Readable(e: Expr) {
    match e
    case Constant(_) => true
    case Symbol(n) => n != "ALIGN"
    case Call(_, args) => args != [] && forall k :: 0 <= k < |args| ==> Readable(args[k])
    case Unary(_, c) => Readable(c)
    case Binary(l, _, r) => Readable(l) && Readable(r)
    case Ternary(c, y, n) => Readable(c) && Readable(y) && Readable(n)
    case Missing => false
  }

  function Minimal(e: Expr): (l: Layout)
    decreases e, 0
  {
    match e
    case Constant(n) => Num(n)
    case Symbol(n) => Name(n)
    case Call(n, args) => Apply(n, MinimalArgs(args))
    case Unary(op, c) => Prefix(op, Within(c, 0))
    case Binary(x, op, y) => Infix(Within(x, Precedence(op)), op, Within(y, Precedence(op) - 1))
    case Ternary(c, y, n) => Choice(Within(c, LOWEST - 1), Within(y, LOWEST), Within(n, LOWEST))
    case Missing => Num(0)
  }

  function MinimalArgs(args: seq<Expr>): (ls: seq<Layout>)
    ensures |ls| == |args|
    ensures forall k :: 0 <= k < |args| ==> ls[k] == Minimal(args[k])
    decreases args, 0
  {
    if args == [] then [] else [Minimal(args[0])] + MinimalArgs(args[1..])
  }

  /** In parentheses if it binds more loosely than its place allows. */
  function Within(e: Expr, place: nat): (l: Layout)
    decreases e, 1
  {
    if ExprLevel(e) > place then Paren(Minimal(e)) else Minimal(e)
  }

  lemma {:induction false} MinimalIsRight(e: Expr, next: Token)
    requires Readable(e)
    ensures WellPlaced(Minimal(e)) && Level(Minimal(e)) == ExprLevel(e) && Meaning(Minimal(e), next) == e
    decreases e, 0
  {
    match e
    case Call(n, args) =>
      forall k | 0 <= k < |args| ensures WellPlaced(MinimalArgs(args)[k]) {
        MinimalIsRight(args[k], RParen);
      }
      MinimalArgsAreRight(args);
    case Unary(op, c) =>
      WithinIsRight(c, 0, next);
    case Binary(x, op, y) =>
      WithinIsRight(x, Precedence(op), Operator(op));
      WithinIsRight(y, Precedence(op) - 1, next);
    case Ternary(c, y, n) =>
      WithinIsRight(c, LOWEST - 1, Question);
      WithinIsRight(y, LOWEST, Colon);
      WithinIsRight(n, LOWEST, next);
    case _ =>
  }

  lemma {:induction false} MinimalArgsAreRight(args: seq<Expr>)
    requires forall k :: 0 <= k < |args| ==> Readable(args[k])
    ensures Meanings(MinimalArgs(args)) == args
    decreases args, 0
  {
    if args != [] {
      MinimalIsRight(args[0], if |args| == 1 then RParen else Comma);
      assert MinimalArgs(args)[1..] == MinimalArgs(args[1..]);
      MinimalArgsAreRight(args[1..]);
    }
  }

  lemma {:induction false} WithinIsRight(e: Expr, place: nat, next: Token)
    requires Readable(e)
    ensures var l := Within(e, place); WellPlaced(l) && Level(l) <= place && Meaning(l, next) == e
    decreases e, 1
  {
    MinimalIsRight(e, next);
    MinimalIsRight(e, RParen);
  }

  /** Round trip with only the parentheses the table needs. */
  lemma MinimalRoundTrip(e: Expr, k: seq<Token>)
    requires Readable(e) && Ends(First(k), LOWEST)
    ensures ParseExpression(Tokens(Minimal(e)) + k, LOWEST) == Result(Some(e), k)
  {
    MinimalIsRight(e, First(k));
    ReadsAll(Minimal(e), k, LOWEST);
  }

  /** No other way to write the same tree is shorter. */
  lemma {:induction false} MinimalIsShortest(l: Layout, next: Token, place: nat)
    requires WellPlaced(l) && Level(l) <= place
    ensures |Tokens(Within(Meaning(l, next), place))| <= |Tokens(l)|
    decreases l, 0
  {
    match l
    case Apply(n, args) =>
      ShortestArgs(args);
    case Prefix(op, c) =>
      MinimalIsShortest(c, next, 0);
    case Infix(x, op, y) =>
      MinimalIsShortest(x, Operator(op), Precedence(op));
      MinimalIsShortest(y, next, Precedence(op) - 1);
    case Choice(c, y, n) =>
      MinimalIsShortest(c, Question, LOWEST - 1);
      MinimalIsShortest(y, Colon, LOWEST);
      MinimalIsShortest(n, next, LOWEST);
    case Paren(i) =>
      MinimalIsShortest(i, RParen, LOWEST);
      assert Within(Meaning(i, RParen), LOWEST) == Minimal(Meaning(i, RParen));
    case _ =>
  }

  lemma {:induction false} ShortestArgs(args: seq<Layout>)
    requires forall k :: 0 <= k < |args| ==> WellPlaced(args[k])
    ensures |ArgTokens(MinimalArgs(Meanings(args)))| <= |ArgTokens(args)|
    decreases args, 0
  {
    if args != [] {
      var next := if |args| == 1 then RParen else Comma;
      MinimalIsShortest(args[0], next, LOWEST);
      assert Within(Meaning(args[0], next), LOWEST) == Minimal(Meaning(args[0], next));
      ShortestArgs(args[1..]);
      assert MinimalArgs(Meanings(args))[1..] == MinimalArgs(Meanings(args)[1..]);
      assert Meanings(args)[1..] == Meanings(args[1..]);
    }
  }

  // ----- dump -----

  predicate Complete(e: Expr) {
    match e
    case Constant(_) => true
    case Symbol(n) => n != "ALIGN"
    case Call(_, args) => forall k :: 0 <= k < |args| ==> Complete(args[k])
    case Unary(_, c) => Complete(c)
    case Binary(l, _, r) => Complete(l) && Complete(r)
    case Ternary(c, y, n) => Complete(c) && Complete(y) && Complete(n)
    case Missing => false
  }

  /** What dump prints: parentheses around every unary and binary expression, none
      around a conditional. */
  function Dump(e: Expr): (ts: seq<Token>)
    requires Complete(e)
  {
    match e
    case Constant(n) => [Number(Some(n))]
    case Symbol(n) => [NameToken(n)]
    case Call(n, args) => [NameToken(n), LParen] + DumpArgs(args) + [RParen]
    case Unary(op, c) => [LParen, UnaryToken(op)] + Dump(c) + [RParen]
    case Binary(l, op, r) => [LParen] + Dump(l) + [Operator(op)] + Dump(r) + [RParen]
    case Ternary(c, y, n) => Dump(c) + [Question] + Dump(y) + [Colon] + Dump(n)
  }

  function DumpArgs(args: seq<Expr>): (ts: seq<Token>)
    requires forall k :: 0 <= k < |args| ==> Complete(args[k])
  {
    if args == [] then []
    else if |args| == 1 then Dump(args[0])
    else Dump(args[0]) + [Comma] + DumpArgs(args[1..])
  }

  /** Does dump's text say what the tree says? A conditional is not an operand or
      a condition, and no call is without arguments. */
  predicate Faithful(e: Expr) {
    match e
    case Call(_, args) => args != [] && forall k :: 0 <= k < |args| ==> Faithful(args[k])
    case Unary(_, c) => !c.Ternary? && Faithful(c)
    case Binary(l, _, r) => !l.Ternary? && !r.Ternary? && Faithful(l) && Faithful(r)
    case Ternary(c, y, n) => !c.Ternary? && Faithful(c) && Faithful(y) && Faithful(n)
    case _ => true
  }

  /** How the text of dump groups: a conditional in an operand's place takes what
      was before it into its condition and what comes after it into its last
      branch. */
  function Regroup(e: Expr): (l: Layout)
    requires Complete(e)
    ensures Chain(l) && (l.Choice? <==> e.Ternary?)
  {
    match e
    case Constant(n) => Num(n)
    case Symbol(n) => Name(n)
    case Call(n, args) => Apply(n, RegroupArgs(args))
    case Unary(op, c) => Paren(Negated(op, Regroup(c)))
    case Binary(x, op, y) => Paren(Joined(Regroup(x), op, Regroup(y)))
    case Ternary(c, y, n) => Chosen(Regroup(c), Regroup(y), Regroup(n))
  }

  function RegroupArgs(args: seq<Expr>): (ls: seq<Layout>)
    requires forall k :: 0 <= k < |args| ==> Complete(args[k])
    ensures |ls| == |args| && forall k :: 0 <= k < |args| ==> ls[k] == Regroup(args[k])
  {
    if args == [] then [] else [Regroup(args[0])] + RegroupArgs(args[1..])
  }

  /** An operand, or conditionals one inside the last branch of the other whose
      conditions are operands. */
  predicate Chain(l: Layout) {
    && WellPlaced(l)
    && (if l.Choice? then Level(l.cond) == 0 && Chain(l.no) else Level(l) == 0)
  }

  function Negated(op: UnaryOp, l: Layout): (r: Layout)
    requires Chain(l)
    ensures WellPlaced(r)
  {
    if l.Choice? then Choice(Prefix(op, l.cond), l.yes, l.no) else Prefix(op, l)
  }

  lemma NegatedTokens(op: UnaryOp, l: Layout)
    requires Chain(l)
    ensures Tokens(Negated(op, l)) == [UnaryToken(op)] + Tokens(l)
  {
    if l.Choice? {
      assert [UnaryToken(op)] + Tokens(l)
          == ([UnaryToken(op)] + Tokens(l.cond)) + [Question] + Tokens(l.yes) + [Colon] + Tokens(l.no);
    }
  }

  function Joined(x: Layout, op: BinaryOp, y: Layout): (r: Layout)
    requires Chain(x) && Chain(y)
    ensures WellPlaced(r)
    decreases x
  {
    if x.Choice? then Choice(x.cond, x.yes, Joined(x.no, op, y))
    else if y.Choice? then Choice(Infix(x, op, y.cond), y.yes, y.no)
    else Infix(x, op, y)
  }

  lemma {:induction false} JoinedTokens(x: Layout, op: BinaryOp, y: Layout)
    requires Chain(x) && Chain(y)
    ensures Tokens(Joined(x, op, y)) == Tokens(x) + [Operator(op)] + Tokens(y)
    decreases x
  {
    hide WellPlaced;
    if x.Choice? {
      JoinedTokens(x.no, op, y);
      assert Tokens(x) + [Operator(op)] + Tokens(y)
          == Tokens(x.cond) + [Question] + Tokens(x.yes) + [Colon] + (Tokens(x.no) + [Operator(op)] + Tokens(y));
    } else if y.Choice? {
      assert Tokens(x) + [Operator(op)] + Tokens(y)
          == (Tokens(x) + [Operator(op)] + Tokens(y.cond)) + [Question] + Tokens(y.yes) + [Colon] + Tokens(y.no);
    }
  }

  function Chosen(c: Layout, y: Layout, n: Layout): (r: Layout)
    requires Chain(c) && WellPlaced(y) && Chain(n)
    ensures Chain(r) && r.Choice?
    decreases c
  {
    if c.Choice? then Choice(c.cond, c.yes, Chosen(c.no, y, n)) else Choice(c, y, n)
  }

  lemma Rotate(head: seq<Token>, c: seq<Token>, y: seq<Token>, n: seq<Token>)
    ensures head + c + [Question] + y + [Colon] + n == head + (c + [Question] + y + [Colon] + n)
  {
  }

  lemma {:induction false} ChosenTokens(c: Layout, y: Layout, n: Layout)
    requires Chain(c) && WellPlaced(y) && Chain(n)
    ensures Tokens(Chosen(c, y, n)) == Tokens(c) + [Question] + Tokens(y) + [Colon] + Tokens(n)
    decreases c
  {
    hide WellPlaced;
    if c.Choice? {
      ChosenTokens(c.no, y, n);
      Rotate(Tokens(c.cond) + [Question] + Tokens(c.yes) + [Colon], Tokens(c.no), Tokens(y), Tokens(n));
    }
  }

  lemma {:induction false} RegroupTokens(e: Expr)
    requires Complete(e)
    ensures Tokens(Regroup(e)) == Dump(e)
    decreases e, 0
  {
    hide Negated, Joined, Chosen;
    match e
    case Call(n, args) => RegroupArgTokens(args);
    case Unary(op, c) =>
      RegroupTokens(c);
      NegatedTokens(op, Regroup(c));
    case Binary(l, op, r) =>
      RegroupTokens(l);
      RegroupTokens(r);
      JoinedTokens(Regroup(l), op, Regroup(r));
    case Ternary(c, y, n) =>
      RegroupTokens(c);
      RegroupTokens(y);
      RegroupTokens(n);
      ChosenTokens(Regroup(c), Regroup(y), Regroup(n));
    case _ =>
  }

  lemma {:induction false} RegroupArgTokens(args: seq<Expr>)
    requires forall k :: 0 <= k < |args| ==> Complete(args[k])
    ensures ArgTokens(RegroupArgs(args)) == DumpArgs(args)
    decreases args, 0
  {
    if args != [] {
      RegroupTokens(args[0]);
      RegroupArgTokens(args[1..]);
      assert RegroupArgs(args)[1..] == RegroupArgs(args[1..]);
    }
  }

  /** What the parser makes of dump's text, whatever the tree. */
  lemma ReadsDump(e: Expr, k: seq<Token>)
    requires Complete(e) && Ends(First(k), LOWEST)
    ensures ParseExpression(Dump(e) + k, LOWEST) == Result(Some(Meaning(Regroup(e), First(k))), k)
  {
    RegroupTokens(e);
    ReadsAll(Regroup(e), k, LOWEST);
  }

  /** Nodes of a tree. */
  function Size(e: Expr): (n: nat)
    ensures n > 0
  {
    match e
    case Call(_, args) => 1 + Sizes(args)
    case Unary(_, c) => 1 + Size(c)
    case Binary(l, _, r) => 1 + Size(l) + Size(r)
    case Ternary(c, y, n) => 1 + Size(c) + Size(y) + Size(n)
    case _ => 1
  }

  function Sizes(es: seq<Expr>): (n: nat) {
    if es == [] then 0 else Size(es[0]) + Sizes(es[1..])
  }

  /** The size of what a layout means does not depend on what follows it. */
  function Weight(l: Layout): (n: nat)
    ensures n > 0
  {
    match l
    case Apply(_, args) => 1 + Weights(args)
    case Prefix(_, c) => 1 + Weight(c)
    case Infix(x, _, y) => 1 + Weight(x) + Weight(y)
    case Choice(c, y, n) => 1 + Weight(c) + Weight(y) + Weight(n)
    case Paren(i) => Weight(i)
    case _ => 1
  }

  function Weights(ls: seq<Layout>): (n: nat) {
    if ls == [] then 0 else Weight(ls[0]) + Weights(ls[1..])
  }

  lemma {:induction false} MeaningSize(l: Layout, next: Token)
    ensures Size(Meaning(l, next)) == Weight(l)
    decreases l, 0
  {
    match l
    case Apply(_, args) => MeaningSizes(args);
    case Prefix(_, c) => MeaningSize(c, next);
    case Infix(x, op, y) =>
      MeaningSize(x, Operator(op));
      MeaningSize(y, next);
    case Choice(c, y, n) =>
      MeaningSize(c, Question);
      MeaningSize(y, Colon);
      MeaningSize(n, next);
    case Paren(i) => MeaningSize(i, RParen);
    case _ =>
  }

  lemma {:induction false} MeaningSizes(args: seq<Layout>)
    ensures Sizes(Meanings(args)) == Weights(args)
    decreases args, 0
  {
    if args != [] {
      MeaningSize(args[0], if |args| == 1 then RParen else Comma);
      MeaningSizes(args[1..]);
    }
  }

  lemma NegatedWeight(op: UnaryOp, l: Layout)
    requires Chain(l)
    ensures Weight(Negated(op, l)) == 1 + Weight(l)
  {
    assert Negated(op, l) == if l.Choice? then Choice(Prefix(op, l.cond), l.yes, l.no) else Prefix(op, l);
  }

  lemma {:induction false} JoinedWeight(x: Layout, op: BinaryOp, y: Layout)
    requires Chain(x) && Chain(y)
    ensures Weight(Joined(x, op, y)) == 1 + Weight(x) + Weight(y)
    decreases x
  {
    if x.Choice? {
      JoinedWeight(x.no, op, y);
    }
  }

  lemma {:induction false} ChosenWeight(c: Layout, y: Layout, n: Layout)
    requires Chain(c) && WellPlaced(y) && Chain(n)
    ensures Weight(Chosen(c, y, n)) == 1 + Weight(c) + Weight(y) + Weight(n)
    decreases c
  {
    if c.Choice? {
      ChosenWeight(c.no, y, n);
    }
  }

  /** Regrouping keeps every node. */
  lemma {:induction false} RegroupWeight(e: Expr)
    requires Complete(e)
    ensures Weight(Regroup(e)) == Size(e)
    decreases e, 0
  {
    match e
    case Call(_, args) => RegroupWeights(args);
    case Unary(op, c) =>
      RegroupWeight(c);
      NegatedWeight(op, Regroup(c));
    case Binary(l, op, r) =>
      RegroupWeight(l);
      RegroupWeight(r);
      JoinedWeight(Regroup(l), op, Regroup(r));
    case Ternary(c, y, n) =>
      RegroupWeight(c);
      RegroupWeight(y);
      RegroupWeight(n);
      ChosenWeight(Regroup(c), Regroup(y), Regroup(n));
    case _ =>
  }

  lemma {:induction false} RegroupWeights(args: seq<Expr>)
    requires forall k :: 0 <= k < |args| ==> Complete(args[k])
    ensures Weights(RegroupArgs(args)) == Sizes(args)
    decreases args, 0
  {
    if args != [] {
      RegroupWeight(args[0]);
      RegroupWeights(args[1..]);
      assert RegroupArgs(args)[1..] == RegroupArgs(args[1..]);
    }
  }

  /** Calls are named by names, which no other token looks like. */
  predicate Named(e: Expr) {
    match e
    case Call(n, args) => IsName(n) && forall k :: 0 <= k < |args| ==> Named(args[k])
    case Unary(_, c) => Named(c)
    case Binary(l, _, r) => Named(l) && Named(r)
    case Ternary(c, y, n) => Named(c) && Named(y) && Named(n)
    case _ => true
  }

  predicate IsName(n: string) {
    n !in {"", "0", "(", ")", ",", ":", "?", "~", ";",
           "+", "-", "*", "/", "<<", ">>", "&", "|", "==", "!=", "<", ">", "<=", ">="}
  }

  predicate NotAName(t: Token) {
    !t.Identifier? && !t.Align?
  }

  /** Read back, dump's text gives the tree exactly if the tree is faithful. */
  lemma {:induction false} ExactlyFaithful(e: Expr, next: Token)
    requires Complete(e) && Named(e) && NotAName(next)
    ensures Meaning(Regroup(e), next) == e <==> Faithful(e)
    decreases e, 0
  {
    match e
    case Call(n, args) =>
      if args == [] {
        TextIsNoName(next);
      } else {
        ExactlyFaithfulArgs(args);
      }
    case Unary(op, c) =>
      ExactlyFaithful(c, RParen);
      NegatedMeaning(op, Regroup(c));
    case Binary(l, op, r) =>
      ExactlyFaithful(l, Operator(op));
      ExactlyFaithful(r, RParen);
      JoinedMeaning(Regroup(l), op, Regroup(r));
    case Ternary(c, y, n) =>
      ExactlyFaithful(y, Colon);
      ExactlyFaithful(n, next);
      if c.Ternary? {
        SmallerCondition(c, y, n, next);
      } else {
        ExactlyFaithful(c, Question);
        assert Chosen(Regroup(c), Regroup(y), Regroup(n)) == Choice(Regroup(c), Regroup(y), Regroup(n));
      }
    case _ =>
  }

  lemma TextIsNoName(t: Token)
    requires NotAName(t)
    ensures !IsName(Text(t))
  {
  }

  lemma NegatedMeaning(op: UnaryOp, l: Layout)
    requires Chain(l)
    ensures Meaning(Paren(Negated(op, l)), Eof).Ternary? <==> l.Choice?
    ensures !l.Choice? ==> forall next :: Meaning(Paren(Negated(op, l)), next) == Unary(op, Meaning(l, RParen))
    ensures forall next :: Meaning(Paren(Negated(op, l)), next) == Meaning(Paren(Negated(op, l)), Eof)
  {
  }

  lemma JoinedMeaning(x: Layout, op: BinaryOp, y: Layout)
    requires Chain(x) && Chain(y)
    ensures Meaning(Paren(Joined(x, op, y)), Eof).Ternary? <==> x.Choice? || y.Choice?
    ensures !x.Choice? && !y.Choice? ==>
              forall next :: Meaning(Paren(Joined(x, op, y)), next)
                          == Binary(Meaning(x, Operator(op)), op, Meaning(y, RParen))
    ensures forall next :: Meaning(Paren(Joined(x, op, y)), next) == Meaning(Paren(Joined(x, op, y)), Eof)
  {
  }

  lemma SmallerCondition(c: Expr, y: Expr, n: Expr, next: Token)
    requires Complete(Ternary(c, y, n)) && c.Ternary?
    ensures Meaning(Regroup(Ternary(c, y, n)), next) != Ternary(c, y, n)
  {
    var l := Chosen(Regroup(c), Regroup(y), Regroup(n));
    MeaningSize(l.cond, Question);
    RegroupWeight(c);
  }

  lemma {:induction false} ExactlyFaithfulArgs(args: seq<Expr>)
    requires forall k :: 0 <= k < |args| ==> Complete(args[k]) && Named(args[k])
    ensures Meanings(RegroupArgs(args)) == args <==> forall k :: 0 <= k < |args| ==> Faithful(args[k])
    decreases args, 0
  {
    if args != [] {
      var next := if |args| == 1 then RParen else Comma;
      ExactlyFaithful(args[0], next);
      ExactlyFaithfulArgs(args[1..]);
      var ls := RegroupArgs(args);
      assert ls[1..] == RegroupArgs(args[1..]);
      var es := Meanings(ls);
      assert es == [Meaning(ls[0], next)] + Meanings(ls[1..]);
      assert es[1..] == Meanings(ls[1..]);
      assert es == args <==> es[0] == args[0] && es[1..] == args[1..] by {
        if es[0] == args[0] && es[1..] == args[1..] {
          assert es == [es[0]] + es[1..];
          assert args == [args[0]] + args[1..];
        }
      }
      assert (forall k :: 0 <= k < |args| ==> Faithful(args[k]))
        <==> Faithful(args[0]) && forall k :: 0 <= k < |args[1..]| ==> Faithful(args[1..][k]) by {
        if Faithful(args[0]) && forall k :: 0 <= k < |args[1..]| ==> Faithful(args[1..][k]) {
          forall k | 0 <= k < |args| ensures Faithful(args[k]) {
            if k > 0 {
              assert args[k] == args[1..][k - 1];
            }
          }
        }
      }
    }
  }

  /** Parsing what dump prints rebuilds the tree if and only if no conditional is
      an operand or a condition and no call is without arguments. */
  lemma DumpRoundTrip(e: Expr, k: seq<Token>)
    requires Complete(e) && Named(e) && Ends(First(k), LOWEST) && NotAName(First(k))
    ensures ParseExpression(Dump(e) + k, LOWEST) == Result(Some(e), k) <==> Faithful(e)
  {
    ReadsDump(e, k);
    ExactlyFaithful(e, First(k));
  }
}
