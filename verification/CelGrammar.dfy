/** The formula language of calculations: a parser by binding powers, and the printer that puts
    parentheses only where the binding powers need them. */
module CelGrammar {
  import opened Wrappers

  /** `Num` carries the text of its decimal. */
  datatype Token =
    | Num(text: string) | Str(text: string) | Ident(text: string) | Op(text: string) | Bool(value: bool)
    | LParen | RParen | Comma | QMark | Colon | Nil | Eof

  datatype Expr =
    | Number(text: string) | Text(text: string) | Truth(value: bool) | Null | Ref(name: string)
    | Unary(op: string, arg: Expr) | Bin(op: string, left: Expr, right: Expr)
    | Cond(test: Expr, yes: Expr, no: Expr) | Call(name: string, args: seq<Expr>)

  /** An expression and the tokens after it; `Error` is an exception. */
  datatype Parsed = Ok(node: Expr, rest: seq<Token>) | Error

  datatype ParsedArgs = OkArgs(args: seq<Expr>, rest: seq<Token>) | ErrorArgs

  // ---------------------------------------------------------------------------------------------
  // Binding powers

  /** The left binding power of a binary operator, 0 for any other text; the right one is one more. */
  function LeftPower(op: string): (p: nat)
    ensures p == 0 || 2 <= p <= 12
  {
    if op == "||" then 2
    else if op == "&&" then 4
    else if op == "==" || op == "!=" then 6
    else if op == "<" || op == "<=" || op == ">" || op == ">=" then 8
    else if op == "+" || op == "-" then 10
    else if op == "*" || op == "/" || op == "%" then 12
    else 0
  }

  predicate IsUnaryOp(op: string) {
    op == "-" || op == "+" || op == "!"
  }

  /** Operators are of the kind their place asks for. */
  predicate Valid(e: Expr) {
    match e
    case Unary(op, arg) => IsUnaryOp(op) && Valid(arg)
    case Bin(op, left, right) => LeftPower(op) > 0 && Valid(left) && Valid(right)
    case Cond(test, yes, no) => Valid(test) && Valid(yes) && Valid(no)
    case Call(_, args) => forall i :: 0 <= i < |args| ==> Valid(args[i])
    case _ => true
  }

  // ---------------------------------------------------------------------------------------------
  // Parsing

  function Peek(toks: seq<Token>): Token {
    if toks == [] then Eof else toks[0]
  }

  /** How many end tokens there are; none is ever taken. */
  function Ends(toks: seq<Token>): nat {
    if toks == [] then 0 else (if toks[0].Eof? then 1 else 0) + Ends(toks[1..])
  }

  /** The next token goes on with an operand at this power. */
  predicate Extends(toks: seq<Token>, power: nat) {
    match Peek(toks)
    case QMark => power <= 1
    case Op(op) => LeftPower(op) > 0 && LeftPower(op) >= power
    case _ => false
  }

  function ParseExpression(toks: seq<Token>, power: nat): (r: Parsed)
    ensures r.Ok? ==> |r.rest| < |toks| && Ends(r.rest) == Ends(toks)
    decreases |toks|, 3
  {
    var lhs := ParseUnary(toks);
    if lhs.Ok? then ParseLoop(lhs.node, lhs.rest, power) else Error
  }

  /** What follows an operand `lhs`, as far as it binds at least at this power. */
  function ParseLoop(lhs: Expr, toks: seq<Token>, power: nat): (r: Parsed)
    ensures r.Ok? ==> |r.rest| <= |toks| && Ends(r.rest) == Ends(toks)
    decreases |toks|, 0
  {
    if !Extends(toks, power) then Ok(lhs, toks)
    else if toks[0].QMark? then
      var yes := ParseExpression(toks[1..], 0);
      if yes.Error? || Peek(yes.rest) != Colon then Error
      else
        var no := ParseExpression(yes.rest[1..], 1);
        if no.Ok? then ParseLoop(Cond(lhs, yes.node, no.node), no.rest, power) else Error
    else
      var op := toks[0].text;
      var rhs := ParseExpression(toks[1..], LeftPower(op) + 1);
      if rhs.Ok? then ParseLoop(Bin(op, lhs, rhs.node), rhs.rest, power) else Error
  }

  function ParseUnary(toks: seq<Token>): (r: Parsed)
    ensures r.Ok? ==> |r.rest| < |toks| && Ends(r.rest) == Ends(toks)
    decreases |toks|, 2
  {
    var tok := Peek(toks);
    if tok.Op? && IsUnaryOp(tok.text) then
      var arg := ParseUnary(toks[1..]);
      if arg.Ok? then Ok(Unary(tok.text, arg.node), arg.rest) else Error
    else ParsePrimary(toks)
  }

  function ParsePrimary(toks: seq<Token>): (r: Parsed)
    ensures r.Ok? ==> |r.rest| < |toks| && Ends(r.rest) == Ends(toks)
    decreases |toks|, 1
  {
    match Peek(toks)
    case Num(text) => Ok(Number(text), toks[1..])
    case Str(text) => Ok(Text(text), toks[1..])
    case Bool(value) => Ok(Truth(value), toks[1..])
    case Nil => Ok(Null, toks[1..])
    case LParen =>
      var inner := ParseExpression(toks[1..], 0);
      if inner.Ok? && Peek(inner.rest) == RParen then Ok(inner.node, inner.rest[1..]) else Error
    case Ident(text) =>
      if Peek(toks[1..]) != LParen then Ok(Ref(text), toks[1..])
      else
        var args := ParseCallArgs(toks[1..][1..]);
        if args.OkArgs? && Peek(args.rest) == RParen then Ok(Call(text, args.args), args.rest[1..]) else Error
    case _ => Error
  }

  function ParseCallArgs(toks: seq<Token>): (r: ParsedArgs)
    ensures r.OkArgs? ==> |r.rest| <= |toks| && Ends(r.rest) == Ends(toks)
    decreases |toks|, 5
  {
    if Peek(toks) == RParen then OkArgs([], toks) else ParseArgs([], toks)
  }

  /** One more argument, and those behind commas. */
  function ParseArgs(before: seq<Expr>, toks: seq<Token>): (r: ParsedArgs)
    ensures r.OkArgs? ==> |r.rest| < |toks| && Ends(r.rest) == Ends(toks)
    decreases |toks|, 4
  {
    var arg := ParseExpression(toks, 0);
    if arg.Error? then ErrorArgs
    else if Peek(arg.rest) == Comma then ParseArgs(before + [arg.node], arg.rest[1..])
    else OkArgs(before + [arg.node], arg.rest)
  }

  /** The whole input is one expression. */
  function Parse(toks: seq<Token>): Option<Expr> {
    var r := ParseExpression(toks, 0);
    if r.Ok? && Peek(r.rest) == Eof then Some(r.node) else None
  }

  // ---------------------------------------------------------------------------------------------
  // Printing

  const UNARY_POWER: nat := 14

  /** The power up to which an expression stands as an operand without parentheses. */
  function Power(e: Expr): (p: nat)
    ensures p <= UNARY_POWER
  {
    match e
    case Bin(op, _, _) => LeftPower(op)
    case Cond(_, _, _) => 1
    case _ => UNARY_POWER
  }

  function Print(e: Expr, power: nat): (r: seq<Token>)
    ensures r != []
    decreases e, 1
  {
    if Power(e) < power then [LParen] + Bare(e) + [RParen] else Bare(e)
  }

  function Bare(e: Expr): (r: seq<Token>)
    ensures r != []
    decreases e, 0
  {
    match e
    case Number(text) => [Num(text)]
    case Text(text) => [Str(text)]
    case Truth(value) => [Bool(value)]
    case Null => [Nil]
    case Ref(name) => [Ident(name)]
    case Unary(op, arg) => [Op(op)] + Print(arg, UNARY_POWER)
    case Bin(op, left, right) => Print(left, LeftPower(op)) + [Op(op)] + Print(right, LeftPower(op) + 1)
    case Cond(test, yes, no) => Print(test, 2) + [QMark] + Print(yes, 0) + [Colon] + Print(no, 1)
    case Call(name, args) => [Ident(name), LParen] + PrintArgs(e, 0) + [RParen]
  }

  /** The arguments of a call from the i-th on, with commas between them. */
  function PrintArgs(call: Expr, i: nat): seq<Token>
    requires call.Call? && i <= |call.args|
    decreases call, 0, |call.args| - i
  {
    if i == |call.args| then []
    else Print(call.args[i], 0) + (if i + 1 < |call.args| then [Comma] else []) + PrintArgs(call, i + 1)
  }

  // ---------------------------------------------------------------------------------------------
  // Parsing undoes printing

  /** What may follow an operand printed for a power: nothing that a part of it would swallow. */
  predicate Follows(rest: seq<Token>, power: nat) {
    Peek(rest) != LParen && !Extends(rest, if power <= 1 then 1 else power + 1)
  }

  lemma LoopStops(e: Expr, rest: seq<Token>, power: nat)
    requires !Extends(rest, power)
    ensures ParseLoop(e, rest, power) == Ok(e, rest)
  {
  }

  lemma BinStep(op: string, left: Expr, right: Expr, toks: seq<Token>, rest: seq<Token>, power: nat)
    requires LeftPower(op) > 0 && power <= LeftPower(op) && ParseExpression(toks, LeftPower(op) + 1) == Ok(right, rest)
    ensures ParseLoop(left, [Op(op)] + toks, power) == ParseLoop(Bin(op, left, right), rest, power)
  {
    hide LeftPower, ParseExpression;
    assert ([Op(op)] + toks)[1..] == toks;
  }

  lemma CondStep(test: Expr, yes: Expr, no: Expr, toks: seq<Token>, others: seq<Token>, rest: seq<Token>, power: nat)
    requires power <= 1
    requires ParseExpression(toks, 0) == Ok(yes, [Colon] + others) && ParseExpression(others, 1) == Ok(no, rest)
    ensures ParseLoop(test, [QMark] + toks, power) == ParseLoop(Cond(test, yes, no), rest, power)
  {
    hide LeftPower, ParseExpression;
    assert ([QMark] + toks)[1..] == toks && ([Colon] + others)[1..] == others;
  }

  /** The parser reads a printed operand and goes on behind it. */
  lemma {:induction false} PrintReads(e: Expr, shown: nat, power: nat, rest: seq<Token>)
    requires Valid(e) && power <= shown <= UNARY_POWER && Follows(rest, shown)
    ensures ParseExpression(Print(e, shown) + rest, power) == ParseLoop(e, rest, power)
    decreases e, 3
  {
    hide ParseUnary, ParseLoop, Bare, Valid, LeftPower;
    if Power(e) < shown {
      assert Print(e, shown) == Print(e, UNARY_POWER);
      UnaryReads(e, rest);
    } else {
      BareReads(e, shown, power, rest);
    }
  }

  /** ... and as the argument of a unary operator. */
  lemma {:induction false} UnaryReads(e: Expr, rest: seq<Token>)
    requires Valid(e) && Peek(rest) != LParen
    ensures ParseUnary(Print(e, UNARY_POWER) + rest) == Ok(e, rest)
    decreases e, 1
  {
    hide ParseUnary, Bare, LeftPower;
    match e
    case Unary(op, arg) =>
      UnaryReads(arg, rest);
      UnaryStep(op, arg, rest);
    case Call(name, args) =>
      CallReads(e, rest);
    case Bin(_, _, _) =>
      WrappedReads(e, rest);
    case Cond(_, _, _) =>
      WrappedReads(e, rest);
    case _ =>
      AtomReads(e, rest);
  }

  lemma UnaryStep(op: string, arg: Expr, rest: seq<Token>)
    requires IsUnaryOp(op) && ParseUnary(Print(arg, UNARY_POWER) + rest) == Ok(arg, rest)
    ensures ParseUnary(Bare(Unary(op, arg)) + rest) == Ok(Unary(op, arg), rest)
  {
    hide ParsePrimary, Print, Ends;
    var toks := Print(arg, UNARY_POWER) + rest;
    assert Bare(Unary(op, arg)) + rest == [Op(op)] + toks;
    assert ([Op(op)] + toks)[1..] == toks;
  }

  lemma AtomReads(e: Expr, rest: seq<Token>)
    requires e.Number? || e.Text? || e.Truth? || e.Null? || (e.Ref? && Peek(rest) != LParen)
    ensures ParseUnary(Bare(e) + rest) == Ok(e, rest)
  {
    hide ParseExpression, ParseCallArgs, Ends;
    assert (Bare(e) + rest)[1..] == rest;
  }

  lemma {:induction false} WrappedReads(e: Expr, rest: seq<Token>)
    requires Valid(e) && Power(e) < UNARY_POWER
    ensures ParseUnary(Print(e, UNARY_POWER) + rest) == Ok(e, rest)
    decreases e, 0, 2
  {
    hide ParseExpression, LeftPower, ParseLoop, Bare, Valid, Ends, ParseCallArgs;
    var inner := [RParen] + rest;
    BareReads(e, 0, 0, inner);
    LoopStops(e, inner, 0);
    var toks := Print(e, UNARY_POWER) + rest;
    assert toks == [LParen] + (Bare(e) + inner);
    assert toks[1..] == Bare(e) + inner && inner[1..] == rest;
  }

  lemma {:induction false} BareReads(e: Expr, shown: nat, power: nat, rest: seq<Token>)
    requires Valid(e) && power <= shown <= Power(e) && Follows(rest, shown)
    ensures ParseExpression(Bare(e) + rest, power) == ParseLoop(e, rest, power)
    decreases e, if Power(e) == UNARY_POWER then 2 else 0, 1
  {
    hide ParseLoop, ParseUnary, Bare, LeftPower, Ends;
    match e
    case Bin(op, left, right) =>
      hide ParseExpression;
      BinReads(e, shown, power, rest);
    case Cond(test, yes, no) =>
      hide ParseExpression;
      CondReads(e, shown, power, rest);
    case _ =>
      hide Valid;
      UnaryReads(e, rest);
      assert Print(e, UNARY_POWER) == Bare(e);
  }

  lemma {:induction false} BinReads(e: Expr, shown: nat, power: nat, rest: seq<Token>)
    requires e.Bin? && Valid(e) && power <= shown <= LeftPower(e.op) && Follows(rest, shown)
    ensures ParseExpression(Bare(e) + rest, power) == ParseLoop(e, rest, power)
    decreases e, 0, 0
  {
    hide ParseExpression, ParseLoop, Print, LeftPower, Ends;
    var op, left, right := e.op, e.left, e.right;
    var tail := Print(right, LeftPower(op) + 1) + rest;
    assert Bare(e) + rest == Print(left, LeftPower(op)) + ([Op(op)] + tail);
    hide Bare;
    PrintReads(left, LeftPower(op), power, [Op(op)] + tail);
    PrintReads(right, LeftPower(op) + 1, LeftPower(op) + 1, rest);
    LoopStops(right, rest, LeftPower(op) + 1);
    BinStep(op, left, right, tail, rest, power);
  }

  lemma {:induction false} CondReads(e: Expr, shown: nat, power: nat, rest: seq<Token>)
    requires e.Cond? && Valid(e) && power <= shown <= 1 && Follows(rest, shown)
    ensures ParseExpression(Bare(e) + rest, power) == ParseLoop(e, rest, power)
    decreases e, 0, 0
  {
    hide ParseExpression, ParseLoop, Print, LeftPower, Ends;
    var test, yes, no := e.test, e.yes, e.no;
    var others := Print(no, 1) + rest;
    var tail := Print(yes, 0) + ([Colon] + others);
    assert Bare(e) + rest == Print(test, 2) + ([QMark] + tail);
    hide Bare;
    PrintReads(test, 2, power, [QMark] + tail);
    PrintReads(yes, 0, 0, [Colon] + others);
    LoopStops(yes, [Colon] + others, 0);
    PrintReads(no, 1, 1, rest);
    LoopStops(no, rest, 1);
    CondStep(test, yes, no, tail, others, rest, power);
  }

  lemma {:induction false} CallReads(e: Expr, rest: seq<Token>)
    requires Valid(e) && e.Call?
    ensures ParseUnary(Bare(e) + rest) == Ok(e, rest)
    decreases e, 0, 2
  {
    hide ParseExpression, ParseCallArgs, PrintArgs, Ends;
    var tail := [RParen] + rest;
    var toks := Bare(e) + rest;
    assert toks == [Ident(e.name), LParen] + (PrintArgs(e, 0) + tail);
    assert toks[1..] == [LParen] + (PrintArgs(e, 0) + tail);
    assert toks[1..][1..] == PrintArgs(e, 0) + tail && tail[1..] == rest;
    CallArgsRead(e, rest);
  }

  lemma {:induction false} CallArgsRead(e: Expr, rest: seq<Token>)
    requires Valid(e) && e.Call?
    ensures ParseCallArgs(PrintArgs(e, 0) + ([RParen] + rest)) == OkArgs(e.args, [RParen] + rest)
    decreases e, 0, 1
  {
    hide ParseArgs, Ends;
    var end := [RParen] + rest;
    if e.args == [] {
      NoArgs(e);
      assert PrintArgs(e, 0) + end == end;
    } else {
      ArgsStart(e);
      assert Peek(PrintArgs(e, 0) + end) == PrintArgs(e, 0)[0];
      ArgsRead(e, 0, rest);
      assert e.args[..0] == [];
    }
  }

  lemma NoArgs(e: Expr)
    requires e.Call? && e.args == []
    ensures PrintArgs(e, 0) == []
  {
  }

  lemma {:induction false} ArgsRead(e: Expr, i: nat, rest: seq<Token>)
    requires Valid(e) && e.Call? && i < |e.args|
    ensures ParseArgs(e.args[..i], PrintArgs(e, i) + ([RParen] + rest)) == OkArgs(e.args, [RParen] + rest)
    decreases e, 0, 0, |e.args| - i
  {
    hide ParseExpression, Print, LeftPower;
    var arg, end := e.args[i], [RParen] + rest;
    var next := if i + 1 < |e.args| then [Comma] + (PrintArgs(e, i + 1) + end) else end;
    assert PrintArgs(e, i) + end == Print(arg, 0) + next;
    PrintReads(arg, 0, 0, next);
    LoopStops(arg, next, 0);
    assert e.args[..i] + [arg] == e.args[..i + 1];
    if i + 1 < |e.args| {
      assert next[1..] == PrintArgs(e, i + 1) + end;
      ArgsRead(e, i + 1, rest);
    } else {
      assert e.args[..i + 1] == e.args;
    }
  }

  /** A printed expression does not start with a closing parenthesis. */
  lemma {:induction false} PrintStarts(e: Expr, power: nat)
    ensures Print(e, power)[0] != RParen
    decreases e
  {
    match e
    case Bin(op, left, _) => PrintStarts(left, LeftPower(op));
    case Cond(test, _, _) => PrintStarts(test, 2);
    case _ =>
  }

  lemma ArgsStart(e: Expr)
    requires e.Call? && e.args != []
    ensures PrintArgs(e, 0) != [] && PrintArgs(e, 0)[0] != RParen
  {
    hide Print;
    PrintStarts(e.args[0], 0);
  }

  /** Parsing a printed expression returns it. */
  lemma ParseUndoesPrint(e: Expr)
    requires Valid(e)
    ensures Parse(Print(e, 0) + [Eof]) == Some(e)
  {
    hide ParseExpression, Print, Valid;
    PrintReads(e, 0, 0, [Eof]);
    LoopStops(e, [Eof], 0);
  }

  /** Different expressions print differently, and what is read prints back to be read alike. */
  lemma PrintIsInjective(e: Expr, f: Expr)
    requires Valid(e) && Valid(f) && Print(e, 0) == Print(f, 0)
    ensures e == f
  {
    hide Parse, Print, Valid;
    ParseUndoesPrint(e);
    ParseUndoesPrint(f);
  }

  // ---------------------------------------------------------------------------------------------
  // No shorter text means the same

  lemma PrintGrows(e: Expr, p: nat, q: nat)
    requires p <= q
    ensures |Print(e, p)| <= |Print(e, q)| <= |Bare(e)| + 2
    ensures p <= Power(e) ==> |Print(e, p)| == |Bare(e)|
  {
    hide Bare;
  }

  /** Behind an expression nothing is left that binds as strongly. */
  lemma {:induction false} LoopEnds(lhs: Expr, toks: seq<Token>, power: nat)
    requires ParseLoop(lhs, toks, power).Ok?
    ensures !Extends(ParseLoop(lhs, toks, power).rest, power)
    decreases |toks|
  {
    hide ParseExpression, LeftPower;
    if Extends(toks, power) {
      if toks[0].QMark? {
        var yes := ParseExpression(toks[1..], 0);
        var no := ParseExpression(yes.rest[1..], 1);
        LoopEnds(Cond(lhs, yes.node, no.node), no.rest, power);
      } else {
        var rhs := ParseExpression(toks[1..], LeftPower(toks[0].text) + 1);
        LoopEnds(Bin(toks[0].text, lhs, rhs.node), rhs.rest, power);
      }
    }
  }

  lemma ExpressionEnds(toks: seq<Token>, power: nat)
    requires ParseExpression(toks, power).Ok?
    ensures !Extends(ParseExpression(toks, power).rest, power)
  {
    hide ParseLoop, ParseUnary;
    LoopEnds(ParseUnary(toks).node, ParseUnary(toks).rest, power);
  }

  /** So many tokens can print an operand, whatever is to follow it. */
  predicate Suffices(used: int, lhs: Expr, toks: seq<Token>, power: nat) {
    && used >= |Print(lhs, power)|
    && (Peek(toks).QMark? ==> used >= |Print(lhs, 2)|)
    && (Peek(toks).Op? && LeftPower(Peek(toks).text) > 0 ==> used >= |Print(lhs, LeftPower(Peek(toks).text))|)
  }

  /** An expression takes at least as many tokens as its printed form. */
  lemma {:induction false} ExpressionLength(toks: seq<Token>, power: nat)
    requires power <= UNARY_POWER && ParseExpression(toks, power).Ok?
    ensures var r := ParseExpression(toks, power); |toks| - |r.rest| >= |Print(r.node, power)|
    decreases |toks|, 3
  {
    hide ParseLoop, ParseUnary, Print, LeftPower;
    var lhs := ParseUnary(toks);
    UnaryLength(toks);
    PrintGrows(lhs.node, power, UNARY_POWER);
    PrintGrows(lhs.node, 2, UNARY_POWER);
    if Peek(lhs.rest).Op? {
      PrintGrows(lhs.node, LeftPower(Peek(lhs.rest).text), UNARY_POWER);
    }
    LoopLength(lhs.node, lhs.rest, power, |toks| - |lhs.rest|);
  }

  lemma {:induction false} LoopLength(lhs: Expr, toks: seq<Token>, power: nat, used: nat)
    requires power <= UNARY_POWER && ParseLoop(lhs, toks, power).Ok? && Suffices(used, lhs, toks, power)
    ensures var r := ParseLoop(lhs, toks, power); used + |toks| - |r.rest| >= |Print(r.node, power)|
    decreases |toks|, 0
  {
    hide ParseExpression, Print, LeftPower;
    if Extends(toks, power) {
      if toks[0].QMark? {
        var yes := ParseExpression(toks[1..], 0);
        var no := ParseExpression(yes.rest[1..], 1);
        ExpressionLength(toks[1..], 0);
        ExpressionLength(yes.rest[1..], 1);
        ExpressionEnds(yes.rest[1..], 1);
        var more, others := |toks[1..]| - |yes.rest|, |yes.rest[1..]| - |no.rest|;
        CondSuffices(used, lhs, yes.node, no.node, more, others, no.rest, power);
        LoopLength(Cond(lhs, yes.node, no.node), no.rest, power, used + |toks| - |no.rest|);
      } else {
        var op := toks[0].text;
        var rhs := ParseExpression(toks[1..], LeftPower(op) + 1);
        ExpressionLength(toks[1..], LeftPower(op) + 1);
        ExpressionEnds(toks[1..], LeftPower(op) + 1);
        BinSuffices(used, op, lhs, rhs.node, |toks[1..]| - |rhs.rest|, rhs.rest, power);
        LoopLength(Bin(op, lhs, rhs.node), rhs.rest, power, used + |toks| - |rhs.rest|);
      }
    }
  }

  lemma BinSuffices(used: int, op: string, left: Expr, right: Expr, more: int, rest: seq<Token>, power: nat)
    requires LeftPower(op) > 0 && power <= LeftPower(op)
    requires used >= |Print(left, LeftPower(op))| && more >= |Print(right, LeftPower(op) + 1)|
    requires !Extends(rest, LeftPower(op) + 1)
    ensures Suffices(used + 1 + more, Bin(op, left, right), rest, power)
  {
    hide Print, LeftPower;
    var e := Bin(op, left, right);
    assert |Bare(e)| == |Print(left, LeftPower(op))| + 1 + |Print(right, LeftPower(op) + 1)|;
    PrintGrows(e, power, power);
    PrintGrows(e, 2, 2);
    if Peek(rest).Op? {
      PrintGrows(e, LeftPower(Peek(rest).text), LeftPower(Peek(rest).text));
    }
  }

  lemma CondSuffices(used: int, test: Expr, yes: Expr, no: Expr, more: int, others: int, rest: seq<Token>, power: nat)
    requires power <= 1 && used >= |Print(test, 2)| && more >= |Print(yes, 0)| && others >= |Print(no, 1)|
    requires !Extends(rest, 1)
    ensures Suffices(used + 1 + more + 1 + others, Cond(test, yes, no), rest, power)
  {
    hide Print;
    var e := Cond(test, yes, no);
    assert |Bare(e)| == |Print(test, 2)| + 1 + |Print(yes, 0)| + 1 + |Print(no, 1)|;
    PrintGrows(e, power, power);
  }

  lemma {:induction false} UnaryLength(toks: seq<Token>)
    requires ParseUnary(toks).Ok?
    ensures var r := ParseUnary(toks); |toks| - |r.rest| >= |Print(r.node, UNARY_POWER)|
    decreases |toks|, 2
  {
    hide ParseExpression, ParsePrimary;
    var tok := Peek(toks);
    if tok.Op? && IsUnaryOp(tok.text) {
      UnaryLength(toks[1..]);
    } else {
      PrimaryLength(toks);
    }
  }

  lemma {:induction false} PrimaryLength(toks: seq<Token>)
    requires ParsePrimary(toks).Ok?
    ensures var r := ParsePrimary(toks); |toks| - |r.rest| >= |Print(r.node, UNARY_POWER)|
    decreases |toks|, 1
  {
    hide ParseExpression, ParseCallArgs, Ends;
    match Peek(toks)
    case LParen =>
      hide Bare;
      ExpressionLength(toks[1..], 0);
      PrintGrows(ParseExpression(toks[1..], 0).node, 0, UNARY_POWER);
    case Ident(name) =>
      if Peek(toks[1..]) == LParen {
        var args := ParseCallArgs(toks[1..][1..]);
        CallArgsLength(name, toks[1..][1..]);
        assert |Bare(Call(name, args.args))| == 3 + |PrintArgs(Call(name, args.args), 0)|;
      }
    case _ =>
  }

  lemma {:induction false} CallArgsLength(name: string, toks: seq<Token>)
    requires ParseCallArgs(toks).OkArgs?
    ensures var r := ParseCallArgs(toks); |toks| - |r.rest| >= |PrintArgs(Call(name, r.args), 0)|
    decreases |toks|, 5
  {
    hide ParseArgs, Ends;
    if Peek(toks) == RParen {
      NoArgs(Call(name, []));
    } else {
      ArgsLength(name, [], toks);
    }
  }

  lemma {:induction false} ArgsLength(name: string, before: seq<Expr>, toks: seq<Token>)
    requires ParseArgs(before, toks).OkArgs?
    ensures var r := ParseArgs(before, toks);
            && |before| < |r.args| && r.args[..|before|] == before
            && |toks| - |r.rest| >= |PrintArgs(Call(name, r.args), |before|)|
    decreases |toks|, 4
  {
    hide ParseExpression, Print;
    var arg := ParseExpression(toks, 0);
    ExpressionLength(toks, 0);
    var args := ParseArgs(before, toks).args;
    if Peek(arg.rest) == Comma {
      ArgsLength(name, before + [arg.node], arg.rest[1..]);
      assert args[..|before| + 1][..|before|] == before && args[..|before| + 1][|before|] == arg.node;
      assert args[..|before|] == before && args[|before|] == arg.node;
    }
  }

  lemma {:induction false} EndsAdd(a: seq<Token>, b: seq<Token>)
    ensures Ends(a + b) == Ends(a) + Ends(b)
  {
    if a == [] {
      assert a + b == b;
    } else {
      EndsAdd(a[1..], b);
      assert (a + b)[1..] == a[1..] + b;
    }
  }

  /** No token sequence that means an expression is shorter than its printed form: every pair of
      parentheses printed is needed. */
  lemma PrintIsShortest(toks: seq<Token>, e: Expr)
    requires Parse(toks + [Eof]) == Some(e)
    ensures |Print(e, 0)| <= |toks|
  {
    hide ParseExpression, Print;
    ExpressionLength(toks + [Eof], 0);
    EndsAdd(toks, [Eof]);
  }
}
