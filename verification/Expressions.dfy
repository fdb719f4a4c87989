/** The expression grammar of linker scripts (lib/ReaderWriter/LinkerScript.cpp):
    tokens, trees, and the recursive-descent parser with its operator loop. */
module Expressions {
  import opened Common

  datatype BinaryOp =
    | Sum | Sub | Mul | Div | Shl | Shr | And | Or
    | CompareEqual | CompareDifferent | CompareLess | CompareGreater | CompareLessEqual | CompareGreaterEqual

  datatype UnaryOp = Minus | Not

  /** Missing stands for the null operand of a unary operator. */
  datatype Expr =
    | Constant(num: nat)
    | Symbol(name: string)
    | Call(name: string, args: seq<Expr>)
    | Unary(uop: UnaryOp, child: Expr)
    | Binary(lhs: Expr, op: BinaryOp, rhs: Expr)
    | Ternary(cond: Expr, yes: Expr, no: Expr)
    | Missing

  /** A number holds no value if its text does not scan. Binary minus and unary
      minus are the same token. */
  datatype Token =
    | Identifier(text: string)
    | Align
    | Number(value: Option<nat>)
    | LParen | RParen | Comma | Colon | Question | Tilde
    | Operator(op: BinaryOp)
    | Semicolon
    | Eof

  const LOWEST: nat := 13

  function Precedence(op: BinaryOp): (p: nat)
    ensures 3 <= p <= 10
  {
    match op
    case Mul | Div => 3
    case Sum | Sub => 4
    case Shl | Shr => 5
    case CompareLess | CompareGreater | CompareLessEqual | CompareGreaterEqual => 6
    case CompareEqual | CompareDifferent => 7
    case And => 8
    case Or => 10
  }

  function OperatorText(op: BinaryOp): (s: string) {
    match op
    case Sum => "+"
    case Sub => "-"
    case Mul => "*"
    case Div => "/"
    case Shl => "<<"
    case Shr => ">>"
    case And => "&"
    case Or => "|"
    case CompareEqual => "=="
    case CompareDifferent => "!="
    case CompareLess => "<"
    case CompareGreater => ">"
    case CompareLessEqual => "<="
    case CompareGreaterEqual => ">="
  }

  /** The text a token was read from. A number's text starts with a digit; no more
      of it matters here. */
  function Text(t: Token): (s: string) {
    match t
    case Identifier(text) => text
    case Align => "ALIGN"
    case Number(_) => "0"
    case LParen => "("
    case RParen => ")"
    case Comma => ","
    case Colon => ":"
    case Question => "?"
    case Tilde => "~"
    case Operator(op) => OperatorText(op)
    case Semicolon => ";"
    case Eof => ""
  }

  function First(ts: seq<Token>): (t: Token) {
    if ts == [] then Eof else ts[0]
  }

  function Rest(ts: seq<Token>): (r: seq<Token>) {
    if ts == [] then [] else ts[1..]
  }

  /** A null pointer is None; tokens consumed before a failure stay consumed. */
  datatype Result<T> = Result(value: Option<T>, rest: seq<Token>)

  // ----- the parser -----

  function ParseExpression(ts: seq<Token>, precedence: nat): (r: Result<Expr>)
    ensures |r.rest| <= |ts| && (r.value.Some? ==> |r.rest| < |ts|)
    decreases |ts|, 2
  {
    var o := ParseOperand(ts);
    if o.value.None? then o else After(o.value.value, o.rest, precedence)
  }

  function ParseOperand(ts: seq<Token>): (r: Result<Expr>)
    ensures |r.rest| <= |ts| && (r.value.Some? ==> |r.rest| < |ts|)
    decreases |ts|, 1
  {
    match First(ts)
    case Identifier(name) =>
      if First(ts[1..]) == LParen then ParseCall(ts) else Result(Some(Symbol(name)), ts[1..])
    case Align => ParseCall(ts)
    case Operator(op) =>
      if op == Sub then ParseUnary(Minus, ts) else Result(None, ts)
    case Tilde => ParseUnary(Not, ts)
    case Number(value) =>
      if value.Some? then Result(Some(Constant(value.value)), ts[1..]) else Result(None, ts)
    case LParen =>
      var r := ParseExpression(ts[1..], LOWEST);
      if First(r.rest) == RParen then Result(r.value, r.rest[1..]) else Result(None, r.rest)
    case _ => Result(None, ts)
  }

  /** The operand of a unary operator may be null; the operator is built anyway. */
  function ParseUnary(op: UnaryOp, ts: seq<Token>): (r: Result<Expr>)
    requires ts != []
    ensures |r.rest| < |ts|
    decreases |ts|, 0
  {
    var o := ParseOperand(ts[1..]);
    Result(Some(Unary(op, if o.value.Some? then o.value.value else Missing)), o.rest)
  }

  /** A call without arguments is named after the token that follows it. */
  function ParseCall(ts: seq<Token>): (r: Result<Expr>)
    requires ts != []
    ensures |r.rest| < |ts|
    decreases |ts|, 0
  {
    var name := Text(ts[0]);
    if First(ts[1..]) != LParen then Result(None, ts[1..])
    else if First(ts[2..]) == RParen then Result(Some(Call(Text(First(ts[3..])), [])), ts[3..])
    else
      var a := ParseArgs(ts[2..]);
      if a.value.None? then Result(None, a.rest)
      else if First(a.rest) != RParen then Result(None, a.rest)
      else Result(Some(Call(name, a.value.value)), a.rest[1..])
  }

  function ParseArgs(ts: seq<Token>): (r: Result<seq<Expr>>)
    ensures |r.rest| <= |ts|
    decreases |ts|, 3
  {
    var e := ParseExpression(ts, LOWEST);
    if e.value.None? then Result(None, e.rest)
    else if First(e.rest) != Comma then Result(Some([e.value.value]), e.rest)
    else
      var more := ParseArgs(e.rest[1..]);
      if more.value.None? then more else Result(Some([e.value.value] + more.value.value), more.rest)
  }

  /** With lhs read: take operators that bind at least as tightly as precedence,
      and a conditional if precedence is the lowest. */
  function After(lhs: Expr, ts: seq<Token>, precedence: nat): (r: Result<Expr>)
    ensures |r.rest| <= |ts|
    decreases |ts|, 1
  {
    match First(ts)
    case Operator(op) =>
      if Precedence(op) > precedence then Result(Some(lhs), ts)
      else
        var rhs := ParseExpression(ts[1..], Precedence(op) - 1);
        if rhs.value.None? then rhs else After(Binary(lhs, op, rhs.value.value), rhs.rest, precedence)
    case Question =>
      if precedence < LOWEST then Result(Some(lhs), ts) else ParseTernary(lhs, ts)
    case _ => Result(Some(lhs), ts)
  }

  /** Both branches may hold conditionals themselves. */
  function ParseTernary(cond: Expr, ts: seq<Token>): (r: Result<Expr>)
    requires ts != []
    ensures |r.rest| <= |ts|
    decreases |ts|, 0
  {
    var yes := ParseExpression(ts[1..], LOWEST);
    if yes.value.None? then yes
    else if First(yes.rest) != Colon then Result(None, yes.rest)
    else
      var no := ParseExpression(yes.rest[1..], LOWEST);
      if no.value.None? then no
      else Result(Some(Ternary(cond, yes.value.value, no.value.value)), no.rest)
  }

  function UnaryToken(op: UnaryOp): (t: Token) {
    match op
    case Minus => Operator(Sub)
    case Not => Tilde
  }

  /** Null pointers stand only where an operand is missing. */
  lemma {:induction false} OperandIsNotMissing(ts: seq<Token>)
    ensures ParseOperand(ts).value != Some(Missing)
    decreases |ts|, 1
  {
    if First(ts) == LParen {
      ExpressionIsNotMissing(ts[1..], LOWEST);
    }
  }

  lemma {:induction false} ExpressionIsNotMissing(ts: seq<Token>, precedence: nat)
    ensures ParseExpression(ts, precedence).value != Some(Missing)
    decreases |ts|, 2
  {
    var o := ParseOperand(ts);
    if o.value.Some? {
      OperandIsNotMissing(ts);
      RestIsNotMissing(o.value.value, o.rest, precedence);
    }
  }

  lemma {:induction false} RestIsNotMissing(lhs: Expr, ts: seq<Token>, precedence: nat)
    requires lhs != Missing
    ensures After(lhs, ts, precedence).value != Some(Missing)
    decreases |ts|, 1
  {
    hide ParseOperand;
    match First(ts)
    case Operator(op) =>
      if Precedence(op) <= precedence {
        var rhs := ParseExpression(ts[1..], Precedence(op) - 1);
        if rhs.value.Some? {
          RestIsNotMissing(Binary(lhs, op, rhs.value.value), rhs.rest, precedence);
        }
      }
    case _ =>
  }

  /** A unary operator is never refused: where what follows is no operand, the tree
      holds a null pointer, and only there. The parser goes on behind it. */
  lemma MissingOperandIsBuilt(op: UnaryOp, ts: seq<Token>, precedence: nat)
    ensures var r := ParseOperand([UnaryToken(op)] + ts);
      && r.value.Some? && r.rest == ParseOperand(ts).rest
      && (r.value == Some(Unary(op, Missing)) <==> ParseOperand(ts).value.None?)
    ensures First(ts) in {RParen, Comma, Colon, Semicolon, Eof} ==>
              ParseExpression([UnaryToken(op)] + ts, precedence) == Result(Some(Unary(op, Missing)), ts)
  {
    OperandIsNotMissing(ts);
    assert ([UnaryToken(op)] + ts)[1..] == ts;
    assert ParseOperand([UnaryToken(op)] + ts) == ParseUnary(op, [UnaryToken(op)] + ts);
  }

  // ----- the parser's own form -----

  /** The tokens not yet consumed; the first is _tok. */
  class Parser {
    var tokens: seq<Token>

    constructor (ts: seq<Token>)
      ensures tokens == ts
    {
      tokens := ts;
    }

    method ConsumeToken()
      modifies this
      ensures tokens == Rest(old(tokens))
    {
      tokens := Rest(tokens);
    }

    method ExpectAndConsume(t: Token) returns (ok: bool)
      modifies this
      ensures ok <==> First(old(tokens)) == t
      ensures tokens == if ok then Rest(old(tokens)) else old(tokens)
    {
      ok := First(tokens) == t;
      if ok {
        ConsumeToken();
      }
    }

    method ReadExpression(precedence: nat) returns (e: Option<Expr>)
      requires precedence <= LOWEST
      modifies this
      ensures Result(e, tokens) == ParseExpression(old(tokens), precedence)
      decreases |tokens|, 2
    {
      e := ReadOperand();
      if e == None {
        return;
      }
      match First(tokens)
      case Operator(op) =>
        if precedence >= Precedence(op) {
          e := ReadOperators(e.value, precedence);
        }
      case Question =>
        if precedence >= LOWEST {
          e := ReadOperators(e.value, precedence);
        }
      case _ =>
    }

    method ReadOperand() returns (e: Option<Expr>)
      modifies this
      ensures Result(e, tokens) == ParseOperand(old(tokens))
      decreases |tokens|, 1
    {
      match First(tokens)
      case Identifier(name) =>
        if First(Rest(tokens)) == LParen {
          e := ReadCall();
        } else {
          ConsumeToken();
          e := Some(Symbol(name));
        }
      case Align => e := ReadCall();
      case Operator(op) =>
        if op != Sub {
          return None;
        }
        ConsumeToken();
        var child := ReadOperand();
        e := Some(Unary(Minus, if child.Some? then child.value else Missing));
      case Tilde =>
        ConsumeToken();
        var child := ReadOperand();
        e := Some(Unary(Not, if child.Some? then child.value else Missing));
      case Number(value) =>
        if value == None {
          return None;
        }
        ConsumeToken();
        e := Some(Constant(value.value));
      case LParen =>
        ConsumeToken();
        e := ReadExpression(LOWEST);
        var closed := ExpectAndConsume(RParen);
        if !closed {
          e := None;
        }
      case _ => e := None;
    }

    method ReadCall() returns (e: Option<Expr>)
      requires tokens != [] && (tokens[0].Identifier? || tokens[0].Align?)
      modifies this
      ensures Result(e, tokens) == ParseCall(old(tokens))
      decreases |tokens|, 0
    {
      var name := Text(tokens[0]);
      ConsumeToken();
      var open := ExpectAndConsume(LParen);
      if !open {
        return None;
      }
      if First(tokens) == RParen {
        ConsumeToken();
        return Some(Call(Text(First(tokens)), []));
      }
      ghost var goal := ParseArgs(tokens);
      var arg := ReadExpression(LOWEST);
      if arg == None {
        return None;
      }
      var args := [arg.value];
      while First(tokens) == Comma
        invariant |tokens| < |old(tokens)|
        invariant goal == if First(tokens) != Comma then Result(Some(args), tokens) else Extend(args, ParseArgs(tokens[1..]))
        decreases |tokens|
      {
        ConsumeToken();
        ghost var here := tokens;
        arg := ReadExpression(LOWEST);
        if arg == None {
          return None;
        }
        ghost var was := args;
        args := args + [arg.value];
        assert goal == Extend(was, ParseArgs(here));
        if First(tokens) == Comma {
          ghost var more := ParseArgs(tokens[1..]);
          if more.value.Some? {
            assert was + ([arg.value] + more.value.value) == args + more.value.value;
          }
        }
      }
      var closed := ExpectAndConsume(RParen);
      e := if closed then Some(Call(name, args)) else None;
    }

    /** parseOperatorOperandLoop. */
    method ReadOperators(first: Expr, highest: nat) returns (e: Option<Expr>)
      requires highest <= LOWEST
      requires match First(tokens)
        case Operator(op) => Precedence(op) <= highest
        case Question => highest == LOWEST
        case _ => false
      modifies this
      ensures Result(e, tokens) == After(first, old(tokens), highest)
      decreases |tokens|, 1
    {
      var lhs := first;
      e := None;
      while true
        invariant |tokens| <= |old(tokens)|
        invariant After(lhs, tokens, highest) == After(first, old(tokens), highest)
        invariant e == Some(lhs) || (e == None && tokens == old(tokens))
        decreases |tokens|
      {
        match First(tokens)
        case Operator(op) =>
          if Precedence(op) > highest {
            return;
          }
          ConsumeToken();
          var rhs := ReadExpression(Precedence(op) - 1);
          if rhs == None {
            e := None;
            return;
          }
          e := Some(Binary(lhs, op, rhs.value));
          lhs := e.value;
        case Question =>
          if highest >= LOWEST {
            e := ReadTernary(lhs);
          }
          return;
        case _ => return;
      }
    }

    method ReadTernary(cond: Expr) returns (e: Option<Expr>)
      requires First(tokens) == Question
      modifies this
      ensures Result(e, tokens) == ParseTernary(cond, old(tokens))
      decreases |tokens|, 0
    {
      ConsumeToken();
      var yes := ReadExpression(LOWEST);
      if yes == None {
        return None;
      }
      var colon := ExpectAndConsume(Colon);
      if !colon {
        return None;
      }
      var no := ReadExpression(LOWEST);
      if no == None {
        return None;
      }
      e := Some(Ternary(cond, yes.value, no.value));
    }
  }

  function Extend(args: seq<Expr>, more: Result<seq<Expr>>): (r: Result<seq<Expr>>) {
    if more.value.None? then more else Result(Some(args + more.value.value), more.rest)
  }
}
