/** The recursive-descent parser, which moves a position over the tokens. Exceptions are `None`. */
module CelParser {
  import G = CelGrammar
  import S = CelSpelling
  import T = CelTokens
  import opened Wrappers

  type Token = G.Token
  type Expr = G.Expr

  /** A method's result is what the grammar says of the tokens it started at. */
  ghost predicate Agrees(spec: G.Parsed, r: Option<Expr>, rest: seq<Token>) {
    match r case None => spec.Error? case Some(e) => spec == G.Ok(e, rest)
  }

  /** The same for the two branches of a conditional. */
  ghost predicate BranchesAgree(toks: seq<Token>, r: Option<(Expr, Expr)>, rest: seq<Token>) {
    var yes := G.ParseExpression(toks, 0);
    if yes.Error? || G.Peek(yes.rest) != G.Colon then r == None
    else
      var no := G.ParseExpression(yes.rest[1..], 1);
      match r case None => no.Error? case Some(e) => e.0 == yes.node && no == G.Ok(e.1, rest)
  }

  class Parser {
    const toks: seq<Token>
    var pos: nat

    constructor (toks: seq<Token>)
      ensures this.toks == toks && pos == 0
    {
      this.toks, pos := toks, 0;
    }

    function Peek(): Token
      reads this
    {
      if pos < |toks| then toks[pos] else G.Eof
    }

    function Rest(): seq<Token>
      reads this
    {
      if pos <= |toks| then toks[pos..] else []
    }

    lemma PeekOfRest()
      ensures Peek() == G.Peek(Rest())
      ensures Peek() != G.Eof ==> pos < |toks|
    {
    }

    method Parse() returns (r: Option<Expr>)
      requires pos == 0
      modifies this
      ensures r == G.Parse(toks)
    {
      hide G.ParseExpression;
      var expr := ParseExpression(0);
      assert old(Rest()) == toks;
      if expr == None || Peek() != G.Eof { return None; }
      return expr;
    }

    method ParseExpression(minBp: nat) returns (r: Option<Expr>)
      requires pos <= |toks|
      modifies this
      ensures r.Some? ==> old(pos) < pos <= |toks|
      ensures Agrees(G.ParseExpression(old(Rest()), minBp), r, Rest())
      decreases |toks| - pos, 4
    {
      hide G.ParseExpression, G.ParseLoop, G.ParseUnary, G.Ends;
      ghost var start := Rest();
      var lhs := ParseUnary();
      ExpressionUnfolds(start, minBp);
      if lhs == None { return None; }
      r := ParseOperators(lhs.value, minBp);
    }

    /** The loop over what follows an operand. */
    method ParseOperators(first: Expr, minBp: nat) returns (r: Option<Expr>)
      requires pos <= |toks|
      modifies this
      ensures r.Some? ==> old(pos) <= pos <= |toks|
      ensures Agrees(G.ParseLoop(first, old(Rest()), minBp), r, Rest())
      decreases |toks| - pos, 3
    {
      hide G.ParseExpression, G.ParseLoop, G.LeftPower, G.Ends, G.Extends, G.Peek;
      ghost var start := Rest();
      var lhs := first;
      while true
        invariant old(pos) <= pos <= |toks|
        invariant G.ParseLoop(first, start, minBp) == G.ParseLoop(lhs, Rest(), minBp)
        decreases |toks| - pos
      {
        ghost var here := Rest();
        var tok := Peek();
        PeekOfRest();
        ExtendsIs(here, minBp);
        if tok.QMark? && minBp <= 1 {
          var branches := ParseBranches();
          CondUnfolds(lhs, here, minBp, branches, Rest());
          if branches == None { return None; }
          lhs := G.Cond(lhs, branches.value.0, branches.value.1);
          continue;
        }
        LoopEnds(lhs, here, minBp);
        if !tok.Op? { return Some(lhs); }
        var bp := G.LeftPower(tok.text);
        if bp == 0 || bp < minBp { return Some(lhs); }
        var rhs := ParseRight(bp + 1);
        BinUnfolds(lhs, here, minBp, rhs, Rest());
        if rhs == None { return None; }
        lhs := G.Bin(tok.text, lhs, rhs.value);
      }
    }

    /** From the operator on: its right operand. */
    method ParseRight(minBp: nat) returns (r: Option<Expr>)
      requires pos < |toks|
      modifies this
      ensures r.Some? ==> old(pos) < pos <= |toks|
      ensures Agrees(G.ParseExpression(old(Rest())[1..], minBp), r, Rest())
      decreases |toks| - pos, 1
    {
      hide G.ParseExpression, G.Ends;
      var _ := Take();
      r := ParseExpression(minBp);
    }

    /** From the question mark on: both branches of a conditional. */
    method ParseBranches() returns (r: Option<(Expr, Expr)>)
      requires pos < |toks|
      modifies this
      ensures r.Some? ==> old(pos) < pos <= |toks|
      ensures BranchesAgree(old(Rest())[1..], r, Rest())
      decreases |toks| - pos, 2
    {
      hide G.ParseExpression, G.Ends, G.LeftPower;
      var yes := ParseRight(0);
      PeekOfRest();
      if yes == None || Peek() != G.Colon { return None; }
      var no := ParseRight(1);
      if no == None { return None; }
      return Some((yes.value, no.value));
    }

    method Take() returns (tok: Token)
      modifies this`pos
      ensures tok == old(Peek()) && pos == old(pos) + 1
      ensures old(pos) < |toks| ==> old(Rest()) == [tok] + Rest() && Rest() == old(Rest())[1..]
    {
      tok := Peek();
      pos := pos + 1;
    }

    method ParseUnary() returns (r: Option<Expr>)
      requires pos <= |toks|
      modifies this
      ensures r.Some? ==> pos <= |toks| && pos > old(pos)
      ensures Agrees(G.ParseUnary(old(Rest())), r, Rest())
      decreases |toks| - pos, 1
    {
      hide G.ParsePrimary, G.Ends;
      var tok := Peek();
      if tok.Op? && G.IsUnaryOp(tok.text) {
        var _ := Take();
        var arg := ParseUnary();
        if arg == None { return None; }
        return Some(G.Unary(tok.text, arg.value));
      }
      r := ParsePrimary();
    }

    method ParsePrimary() returns (r: Option<Expr>)
      requires pos <= |toks|
      modifies this
      ensures r.Some? ==> pos <= |toks| && pos > old(pos)
      ensures Agrees(G.ParsePrimary(old(Rest())), r, Rest())
      decreases |toks| - pos, 0
    {
      hide G.ParseExpression, G.ParseCallArgs, G.ParsePrimary, G.Ends;
      PeekOfRest();
      ghost var start := Rest();
      PrimaryUnfolds(start);
      var tok := Take();
      assert pos <= |toks| ==> Rest() == start[1..] && G.Peek(start[1..]) == Peek();
      match tok
      case Num(text) => return Some(G.Number(text));
      case Str(text) => return Some(G.Text(text));
      case Bool(value) => return Some(G.Truth(value));
      case Nil => return Some(G.Null);
      case LParen => r := ParseGroup();
      case Ident(text) =>
        if Peek() != G.LParen { return Some(G.Ref(text)); }
        r := ParseCall(text);
      case _ => return None;
    }

    /** Behind an opening parenthesis. */
    method ParseGroup() returns (r: Option<Expr>)
      requires pos <= |toks|
      modifies this
      ensures r.Some? ==> old(pos) <= pos <= |toks|
      ensures var inner := G.ParseExpression(old(Rest()), 0);
              if inner.Ok? && G.Peek(inner.rest) == G.RParen then r == Some(inner.node) && Rest() == inner.rest[1..]
              else r == None
      decreases |toks| - pos, 5
    {
      hide G.ParseExpression, G.Ends;
      var inner := ParseExpression(0);
      PeekOfRest();
      if inner == None || Peek() != G.RParen { return None; }
      var _ := Take();
      return inner;
    }

    /** Behind a name, at an opening parenthesis. */
    method ParseCall(name: string) returns (r: Option<Expr>)
      requires pos < |toks|
      modifies this
      ensures r.Some? ==> old(pos) <= pos <= |toks|
      ensures var args := G.ParseCallArgs(old(Rest())[1..]);
              if args.OkArgs? && G.Peek(args.rest) == G.RParen
              then r == Some(G.Call(name, args.args)) && Rest() == args.rest[1..]
              else r == None
      decreases |toks| - pos, 5
    {
      hide G.ParseCallArgs, G.Ends;
      var _ := Take();
      var args := ParseCallArgs();
      PeekOfRest();
      if args == None || Peek() != G.RParen { return None; }
      var _ := Take();
      return Some(G.Call(name, args.value));
    }

    method ParseCallArgs() returns (r: Option<seq<Expr>>)
      requires pos <= |toks|
      modifies this
      ensures r.Some? ==> pos <= |toks| && pos >= old(pos)
      ensures var spec := G.ParseCallArgs(old(Rest()));
              match r case None => spec.ErrorArgs? case Some(args) => spec == G.OkArgs(args, Rest())
      decreases |toks| - pos, 5
    {
      hide G.ParseExpression, G.Ends;
      var args: seq<Expr> := [];
      if Peek() == G.RParen { return Some(args); }
      ghost var start := Rest();
      var first := ParseExpression(0);
      if first == None { return None; }
      args := args + [first.value];
      while Peek() == G.Comma
        invariant pos <= |toks| && |toks| - pos < |start|
        invariant G.ParseArgs([], start)
               == if Peek() == G.Comma then G.ParseArgs(args, Rest()[1..]) else G.OkArgs(args, Rest())
        decreases |toks| - pos
      {
        var _ := Take();
        var next := ParseExpression(0);
        if next == None { return None; }
        args := args + [next.value];
      }
      return Some(args);
    }
  }

  /** The syntax check of an uploaded formula. */
  method Validate(expression: string, isDecimal: string -> bool) returns (accepted: bool)
    ensures accepted <==> S.Read(expression, isDecimal).Some?
  {
    hide T.Scan, G.Parse;
    var toks := T.Tokenize(expression, isDecimal);
    if toks == None { return false; }
    var parser := new Parser(toks.value);
    var expr := parser.Parse();
    return expr.Some?;
  }

  lemma PrimaryUnfolds(toks: seq<Token>)
    ensures var tok, r := G.Peek(toks), G.ParsePrimary(toks);
            && (tok.Num? ==> r == G.Ok(G.Number(tok.text), toks[1..]))
            && (tok.Str? ==> r == G.Ok(G.Text(tok.text), toks[1..]))
            && (tok.Bool? ==> r == G.Ok(G.Truth(tok.value), toks[1..]))
            && (tok.Nil? ==> r == G.Ok(G.Null, toks[1..]))
            && (tok.Op? || tok.RParen? || tok.Comma? || tok.QMark? || tok.Colon? || tok.Eof? ==> r == G.Error)
    ensures G.Peek(toks).LParen? ==>
              var inner := G.ParseExpression(toks[1..], 0);
              G.ParsePrimary(toks)
                == if inner.Ok? && G.Peek(inner.rest) == G.RParen then G.Ok(inner.node, inner.rest[1..]) else G.Error
    ensures G.Peek(toks).Ident? && G.Peek(toks[1..]) != G.LParen ==>
              G.ParsePrimary(toks) == G.Ok(G.Ref(G.Peek(toks).text), toks[1..])
    ensures G.Peek(toks).Ident? && G.Peek(toks[1..]) == G.LParen ==>
              var args := G.ParseCallArgs(toks[1..][1..]);
              G.ParsePrimary(toks)
                == if args.OkArgs? && G.Peek(args.rest) == G.RParen
                   then G.Ok(G.Call(G.Peek(toks).text, args.args), args.rest[1..])
                   else G.Error
  {
    hide G.ParseExpression, G.ParseCallArgs, G.Ends;
  }

  lemma ExtendsIs(toks: seq<Token>, power: nat)
    ensures G.Extends(toks, power) <==>
            var tok := G.Peek(toks);
            || (tok.QMark? && power <= 1)
            || (tok.Op? && G.LeftPower(tok.text) > 0 && G.LeftPower(tok.text) >= power)
  {
    hide G.LeftPower, G.Peek;
  }

  lemma ExpressionUnfolds(toks: seq<Token>, power: nat)
    ensures var lhs := G.ParseUnary(toks);
            G.ParseExpression(toks, power) == if lhs.Ok? then G.ParseLoop(lhs.node, lhs.rest, power) else G.Error
  {
  }

  lemma LoopEnds(lhs: Expr, toks: seq<Token>, power: nat)
    ensures !G.Extends(toks, power) ==> G.ParseLoop(lhs, toks, power) == G.Ok(lhs, toks)
  {
  }

  lemma CondUnfolds(lhs: Expr, toks: seq<Token>, power: nat, r: Option<(Expr, Expr)>, rest: seq<Token>)
    requires G.Extends(toks, power) && G.Peek(toks).QMark? && BranchesAgree(toks[1..], r, rest)
    ensures r == None ==> G.ParseLoop(lhs, toks, power) == G.Error
    ensures r.Some? ==> G.ParseLoop(lhs, toks, power) == G.ParseLoop(G.Cond(lhs, r.value.0, r.value.1), rest, power)
  {
    hide G.ParseExpression, G.LeftPower, G.Ends;
  }

  lemma BinUnfolds(lhs: Expr, toks: seq<Token>, power: nat, r: Option<Expr>, rest: seq<Token>)
    requires G.Extends(toks, power) && G.Peek(toks).Op?
    requires Agrees(G.ParseExpression(toks[1..], G.LeftPower(G.Peek(toks).text) + 1), r, rest)
    ensures r == None ==> G.ParseLoop(lhs, toks, power) == G.Error
    ensures r.Some? ==>
              G.ParseLoop(lhs, toks, power) == G.ParseLoop(G.Bin(G.Peek(toks).text, lhs, r.value), rest, power)
  {
    hide G.ParseExpression, G.LeftPower, G.Ends;
  }
}
