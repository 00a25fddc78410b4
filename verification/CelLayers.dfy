/** The formula language as a grammar of layers, independent of binding powers: what the parser accepts
    is what the grammar derives. */
module CelLayers {
  import opened CelGrammar
  import opened Wrappers

  // ---------------------------------------------------------------------------------------------
  // The grammar

  /** The binary operators, layer by layer, the loosest first. */
  predicate InLayer(n: nat, op: string) {
    || (n == 1 && op == "||")
    || (n == 2 && op == "&&")
    || (n == 3 && (op == "==" || op == "!="))
    || (n == 4 && (op == "<" || op == "<=" || op == ">" || op == ">="))
    || (n == 5 && (op == "+" || op == "-"))
    || (n == 6 && (op == "*" || op == "/" || op == "%"))
  }

  /** Layer 0 holds conditionals, 1 to 6 the binary operators, each grouping to the left, 7 the unary
      ones, and 8 literals, names, calls and parentheses. */
  ghost predicate Derives(n: nat, ts: seq<Token>, e: Expr)
    decreases |ts|, if n < 9 then 9 - n else 0, 1
  {
    if n == 0 then Derives(1, ts, e) || (e.Cond? && exists i, j :: CondAt(ts, e, i, j))
    else if n <= 6 then Derives(n + 1, ts, e) || (e.Bin? && InLayer(n, e.op) && exists i :: BinAt(n, ts, e, i))
    else if n == 7 then
      || Derives(8, ts, e)
      || (&& e.Unary? && (e.op == "-" || e.op == "+" || e.op == "!")
          && ts != [] && ts[0] == Op(e.op) && Derives(7, ts[1..], e.arg))
    else Atom(ts, e) || CallOf(ts, e) || Wrapped(ts, e)
  }

  /** A test, a question mark at `i`, a branch, a colon at `j`, a branch. */
  ghost predicate CondAt(ts: seq<Token>, e: Expr, i: int, j: int)
    requires e.Cond?
    decreases |ts|, 9, 0
  {
    && 0 <= i < j < |ts| && ts[i] == QMark && ts[j] == Colon
    && Derives(1, ts[..i], e.test) && Derives(0, ts[i + 1..j], e.yes) && Derives(0, ts[j + 1..], e.no)
  }

  /** An operand of the layer, its operator at `i`, an operand of the next layer. */
  ghost predicate BinAt(n: nat, ts: seq<Token>, e: Expr, i: int)
    requires e.Bin? && n <= 6
    decreases |ts|, 9 - n, 0
  {
    0 <= i < |ts| && ts[i] == Op(e.op) && Derives(n, ts[..i], e.left) && Derives(n + 1, ts[i + 1..], e.right)
  }

  predicate Atom(ts: seq<Token>, e: Expr) {
    match e
    case Number(text) => ts == [Num(text)]
    case Text(text) => ts == [Str(text)]
    case Truth(value) => ts == [Bool(value)]
    case Null => ts == [Nil]
    case Ref(name) => ts == [Ident(name)]
    case _ => false
  }

  ghost predicate Wrapped(ts: seq<Token>, e: Expr)
    decreases |ts|, 0, 0
  {
    |ts| >= 2 && ts[0] == LParen && ts[|ts| - 1] == RParen && Derives(0, ts[1..|ts| - 1], e)
  }

  ghost predicate CallOf(ts: seq<Token>, e: Expr)
    decreases |ts|, 0, 0
  {
    && e.Call? && |ts| >= 3 && ts[0] == Ident(e.name) && ts[1] == LParen && ts[|ts| - 1] == RParen
    && ArgsDerive(ts[2..|ts| - 1], e.args)
  }

  /** Expressions with commas between them. */
  ghost predicate ArgsDerive(ts: seq<Token>, args: seq<Expr>)
    decreases |ts|, 10, 1
  {
    if args == [] then ts == []
    else if |args| == 1 then Derives(0, ts, args[0])
    else exists i :: ArgAt(ts, args, i)
  }

  ghost predicate ArgAt(ts: seq<Token>, args: seq<Expr>, i: int)
    requires |args| > 1
    decreases |ts|, 10, 0
  {
    0 <= i < |ts| && ts[i] == Comma && Derives(0, ts[..i], args[0]) && ArgsDerive(ts[i + 1..], args[1..])
  }

  // ---------------------------------------------------------------------------------------------
  // Layers and powers

  /** The left power of an operator is twice its layer. */
  lemma LayersArePowers(n: nat, op: string)
    ensures InLayer(n, op) <==> 1 <= n <= 6 && LeftPower(op) == 2 * n
    ensures LeftPower(op) % 2 == 0
  {
  }

  /** The greatest power at which an expression of a layer is an operand. */
  function TopPower(n: nat): nat {
    if n == 0 then 1 else if n <= 6 then 2 * n else UNARY_POWER
  }

  lemma FollowsHigher(rest: seq<Token>, n: nat)
    requires Follows(rest, TopPower(n))
    ensures Follows(rest, TopPower(n + 1))
  {
  }

  lemma UnaryIsExpression(toks: seq<Token>, e: Expr, rest: seq<Token>, power: nat)
    requires ParseUnary(toks) == Ok(e, rest)
    ensures ParseExpression(toks, power) == ParseLoop(e, rest, power)
  {
    hide ParseUnary, ParseLoop;
  }

  // ---------------------------------------------------------------------------------------------
  // What is derived is parsed

  /** The parser reads what a layer derives, at every power up to that of the layer. */
  lemma {:induction false} DerivedReads(n: nat, ts: seq<Token>, e: Expr, power: nat, rest: seq<Token>)
    requires n <= 8 && Derives(n, ts, e) && power <= TopPower(n) && Follows(rest, TopPower(n))
    ensures ParseExpression(ts + rest, power) == ParseLoop(e, rest, power)
    decreases |ts|, 9 - n, 2
  {
    hide ParseExpression, ParseLoop, ParseUnary, LeftPower, CondAt, BinAt;
    if n >= 7 {
      DerivedUnaryReads(n, ts, e, rest);
      UnaryIsExpression(ts + rest, e, rest, power);
    } else if Derives(n + 1, ts, e) {
      FollowsHigher(rest, n);
      DerivedReads(n + 1, ts, e, power, rest);
    } else if n == 0 {
      var i, j :| CondAt(ts, e, i, j);
      CondReads(ts, e, i, j, power, rest);
    } else {
      var i :| BinAt(n, ts, e, i);
      BinReads(n, ts, e, i, power, rest);
    }
  }

  lemma {:induction false} BinReads(n: nat, ts: seq<Token>, e: Expr, i: int, power: nat, rest: seq<Token>)
    requires 1 <= n <= 6 && e.Bin? && InLayer(n, e.op) && BinAt(n, ts, e, i)
    requires power <= 2 * n && Follows(rest, 2 * n)
    ensures ParseExpression(ts + rest, power) == ParseLoop(e, rest, power)
    decreases |ts|, 9 - n, 1
  {
    hide ParseExpression, ParseLoop, LeftPower, Derives;
    LayersArePowers(n, e.op);
    FollowsHigher(rest, n);
    var tail := ts[i + 1..] + rest;
    assert ts + rest == ts[..i] + ([Op(e.op)] + tail);
    DerivedReads(n, ts[..i], e.left, power, [Op(e.op)] + tail);
    DerivedReads(n + 1, ts[i + 1..], e.right, 2 * n + 1, rest);
    LoopStops(e.right, rest, 2 * n + 1);
    BinStep(e.op, e.left, e.right, tail, rest, power);
  }

  lemma {:induction false} CondReads(ts: seq<Token>, e: Expr, i: int, j: int, power: nat, rest: seq<Token>)
    requires e.Cond? && CondAt(ts, e, i, j) && power <= 1 && Follows(rest, 1)
    ensures ParseExpression(ts + rest, power) == ParseLoop(e, rest, power)
    decreases |ts|, 9, 1
  {
    hide ParseExpression, ParseLoop, LeftPower, Derives;
    var others := ts[j + 1..] + rest;
    var tail := ts[i + 1..j] + ([Colon] + others);
    assert ts + rest == ts[..i] + ([QMark] + tail);
    DerivedReads(1, ts[..i], e.test, power, [QMark] + tail);
    DerivedReads(0, ts[i + 1..j], e.yes, 0, [Colon] + others);
    LoopStops(e.yes, [Colon] + others, 0);
    DerivedReads(0, ts[j + 1..], e.no, 1, rest);
    LoopStops(e.no, rest, 1);
    CondStep(e.test, e.yes, e.no, tail, others, rest, power);
  }

  lemma {:induction false} DerivedUnaryReads(n: nat, ts: seq<Token>, e: Expr, rest: seq<Token>)
    requires 7 <= n <= 8 && Derives(n, ts, e) && Peek(rest) != LParen
    ensures ParseUnary(ts + rest) == Ok(e, rest)
    decreases |ts|, 9 - n, 1
  {
    hide ParseUnary, Atom, CallOf, Wrapped;
    if n == 8 {
      if Atom(ts, e) {
        AtomIsRead(ts, e, rest);
      } else if CallOf(ts, e) {
        CallIsRead(ts, e, rest);
      } else {
        WrappedIsRead(ts, e, rest);
      }
    } else if Derives(8, ts, e) {
      DerivedUnaryReads(8, ts, e, rest);
    } else {
      DerivedUnaryReads(7, ts[1..], e.arg, rest);
      UnaryIsRead(e.op, e.arg, ts[1..], rest);
      assert ts + rest == [Op(e.op)] + (ts[1..] + rest);
    }
  }

  lemma UnaryIsRead(op: string, arg: Expr, ts: seq<Token>, rest: seq<Token>)
    requires (op == "-" || op == "+" || op == "!") && ParseUnary(ts + rest) == Ok(arg, rest)
    ensures ParseUnary([Op(op)] + (ts + rest)) == Ok(Unary(op, arg), rest)
  {
    hide ParsePrimary, Ends;
    assert ([Op(op)] + (ts + rest))[1..] == ts + rest;
  }

  lemma AtomIsRead(ts: seq<Token>, e: Expr, rest: seq<Token>)
    requires Atom(ts, e) && Peek(rest) != LParen
    ensures ParseUnary(ts + rest) == Ok(e, rest)
  {
    hide ParseExpression, ParseCallArgs, Ends;
    assert (ts + rest)[1..] == rest;
  }

  lemma {:induction false} WrappedIsRead(ts: seq<Token>, e: Expr, rest: seq<Token>)
    requires Wrapped(ts, e)
    ensures ParseUnary(ts + rest) == Ok(e, rest)
    decreases |ts|, 0, 3
  {
    hide ParseExpression, LeftPower, ParseLoop, Ends, ParseCallArgs, Derives;
    var inner, end := ts[1..|ts| - 1], [RParen] + rest;
    DerivedReads(0, inner, e, 0, end);
    LoopStops(e, end, 0);
    var toks := ts + rest;
    assert toks == [LParen] + (inner + end);
    assert toks[1..] == inner + end && end[1..] == rest;
  }

  lemma {:induction false} CallIsRead(ts: seq<Token>, e: Expr, rest: seq<Token>)
    requires CallOf(ts, e)
    ensures ParseUnary(ts + rest) == Ok(e, rest)
    decreases |ts|, 0, 3
  {
    hide ParseExpression, ParseCallArgs, Ends, ArgsDerive;
    var inner, end := ts[2..|ts| - 1], [RParen] + rest;
    var toks := ts + rest;
    assert toks == [Ident(e.name), LParen] + (inner + end);
    assert toks[1..] == [LParen] + (inner + end);
    assert toks[1..][1..] == inner + end && end[1..] == rest;
    CallArgsAreRead(inner, e.args, rest);
  }

  lemma {:induction false} CallArgsAreRead(ts: seq<Token>, args: seq<Expr>, rest: seq<Token>)
    requires ArgsDerive(ts, args)
    ensures ParseCallArgs(ts + ([RParen] + rest)) == OkArgs(args, [RParen] + rest)
    decreases |ts|, 10, 4
  {
    hide ParseArgs, Ends, ArgsDerive, Derives;
    var end := [RParen] + rest;
    if args == [] {
      NoArgsDerive(ts);
      assert ts + end == end;
    } else {
      ArgsStart(ts, args);
      assert Peek(ts + end) == ts[0];
      ArgsAreRead([], ts, args, rest);
      assert [] + args == args;
    }
  }

  lemma NoArgsDerive(ts: seq<Token>)
    ensures ArgsDerive(ts, []) <==> ts == []
  {
  }

  lemma {:induction false} ArgsAreRead(before: seq<Expr>, ts: seq<Token>, args: seq<Expr>, rest: seq<Token>)
    requires args != [] && ArgsDerive(ts, args)
    ensures ParseArgs(before, ts + ([RParen] + rest)) == OkArgs(before + args, [RParen] + rest)
    decreases |ts|, 10, 3
  {
    hide ParseExpression, Derives, LeftPower, Ends;
    var end := [RParen] + rest;
    if |args| == 1 {
      DerivedReads(0, ts, args[0], 0, end);
      LoopStops(args[0], end, 0);
      assert args == [args[0]];
    } else {
      var i :| ArgAt(ts, args, i);
      var next := [Comma] + (ts[i + 1..] + end);
      assert ts + end == ts[..i] + next;
      DerivedReads(0, ts[..i], args[0], 0, next);
      LoopStops(args[0], next, 0);
      assert next[1..] == ts[i + 1..] + end;
      ArgsAreRead(before + [args[0]], ts[i + 1..], args[1..], rest);
      assert before + [args[0]] + args[1..] == before + args;
    }
  }

  /** Nothing derived is empty or starts with a closing parenthesis. */
  lemma {:induction false} DerivedStarts(n: nat, ts: seq<Token>, e: Expr)
    requires n <= 8 && Derives(n, ts, e)
    ensures ts != [] && ts[0] != RParen
    decreases |ts|, 9 - n
  {
    hide InLayer;
    if n == 8 {
      hide Derives;
    } else if Derives(n + 1, ts, e) {
      DerivedStarts(n + 1, ts, e);
    } else if n == 0 {
      var i, j :| CondAt(ts, e, i, j);
      DerivedStarts(1, ts[..i], e.test);
    } else if n <= 6 {
      var i :| BinAt(n, ts, e, i);
      DerivedStarts(n, ts[..i], e.left);
    }
  }

  lemma ArgsStart(ts: seq<Token>, args: seq<Expr>)
    requires args != [] && ArgsDerive(ts, args)
    ensures ts != [] && ts[0] != RParen
  {
    hide Derives;
    if |args| == 1 {
      DerivedStarts(0, ts, args[0]);
    } else {
      var i :| ArgAt(ts, args, i);
      DerivedStarts(0, ts[..i], args[0]);
    }
  }

  // ---------------------------------------------------------------------------------------------
  // What is parsed is derived

  /** The loosest layer that an operand at a power may have. */
  function LayerAt(power: nat): nat {
    if power <= 1 then 0 else if power <= 13 then (power + 1) / 2 else 7
  }

  /** A layer derives what tighter ones do. */
  lemma {:induction false} LooserDerives(m: nat, n: nat, ts: seq<Token>, e: Expr)
    requires m <= n <= 8 && Derives(n, ts, e)
    ensures Derives(m, ts, e)
    decreases n - m
  {
    if m < n {
      LooserDerives(m + 1, n, ts, e);
    }
  }

  /** The tokens used so far derive an operand, whatever is to follow it. */
  ghost predicate Fits(used: seq<Token>, lhs: Expr, toks: seq<Token>, power: nat) {
    && Derives(LayerAt(power), used, lhs)
    && (Peek(toks).QMark? ==> Derives(1, used, lhs))
    && (Peek(toks).Op? && LeftPower(Peek(toks).text) > 0 ==> Derives(LayerAt(LeftPower(Peek(toks).text)), used, lhs))
  }

  /** A derivation fits wherever its layer is tight enough. */
  lemma DerivedFits(n: nat, used: seq<Token>, lhs: Expr, toks: seq<Token>, power: nat)
    requires n <= 8 && Derives(n, used, lhs) && LayerAt(power) <= n
    requires Peek(toks).QMark? ==> 1 <= n
    requires Peek(toks).Op? && LeftPower(Peek(toks).text) > 0 ==> LayerAt(LeftPower(Peek(toks).text)) <= n
    ensures Fits(used, lhs, toks, power)
  {
    hide Derives, LeftPower;
    LooserDerives(LayerAt(power), n, used, lhs);
    if Peek(toks).QMark? { LooserDerives(1, n, used, lhs); }
    if Peek(toks).Op? && LeftPower(Peek(toks).text) > 0 {
      LooserDerives(LayerAt(LeftPower(Peek(toks).text)), n, used, lhs);
    }
  }

  lemma {:induction false} ExpressionDerives(toks: seq<Token>, power: nat) returns (used: seq<Token>)
    requires power <= UNARY_POWER && ParseExpression(toks, power).Ok?
    ensures var r := ParseExpression(toks, power);
            toks == used + r.rest && Derives(LayerAt(power), used, r.node)
    decreases |toks|, 3
  {
    hide ParseLoop, ParseUnary, Derives, LeftPower, Ends, Fits;
    var first := UnaryDerives(toks);
    var lhs := ParseUnary(toks);
    DerivedFits(7, first, lhs.node, lhs.rest, power);
    used := LoopDerives(lhs.node, lhs.rest, power, first);
  }

  lemma {:induction false} LoopDerives(lhs: Expr, toks: seq<Token>, power: nat, before: seq<Token>)
      returns (used: seq<Token>)
    requires power <= UNARY_POWER && ParseLoop(lhs, toks, power).Ok? && Fits(before, lhs, toks, power)
    ensures var r := ParseLoop(lhs, toks, power);
            before + toks == used + r.rest && Derives(LayerAt(power), used, r.node)
    decreases |toks|, 0
  {
    hide ParseExpression, Derives, LeftPower, Ends;
    if !Extends(toks, power) {
      used := before;
    } else if toks[0].QMark? {
      var yes := ParseExpression(toks[1..], 0);
      var a := ExpressionDerives(toks[1..], 0);
      var no := ParseExpression(yes.rest[1..], 1);
      var b := ExpressionDerives(yes.rest[1..], 1);
      ExpressionEnds(yes.rest[1..], 1);
      var all := before + [QMark] + a + [Colon] + b;
      CondFits(before, lhs, a, yes.node, b, no.node, no.rest, power);
      used := LoopDerives(Cond(lhs, yes.node, no.node), no.rest, power, all);
      assert toks == [QMark] + (a + ([Colon] + (b + no.rest)));
      CondRegroups(before, a, b, no.rest);
    } else {
      var op := toks[0].text;
      var rhs := ParseExpression(toks[1..], LeftPower(op) + 1);
      var a := ExpressionDerives(toks[1..], LeftPower(op) + 1);
      ExpressionEnds(toks[1..], LeftPower(op) + 1);
      var all := before + [Op(op)] + a;
      BinFits(op, before, lhs, a, rhs.node, rhs.rest, power);
      used := LoopDerives(Bin(op, lhs, rhs.node), rhs.rest, power, all);
      assert toks == [Op(op)] + (a + rhs.rest);
      BinRegroups(before, op, a, rhs.rest);
    }
  }

  lemma BinRegroups(before: seq<Token>, op: string, a: seq<Token>, rest: seq<Token>)
    ensures before + ([Op(op)] + (a + rest)) == (before + [Op(op)] + a) + rest
  {
  }

  lemma CondRegroups(before: seq<Token>, a: seq<Token>, b: seq<Token>, rest: seq<Token>)
    ensures before + ([QMark] + (a + ([Colon] + (b + rest)))) == (before + [QMark] + a + [Colon] + b) + rest
  {
  }

  lemma BinFits(op: string, a: seq<Token>, left: Expr, b: seq<Token>, right: Expr, rest: seq<Token>, power: nat)
    requires LeftPower(op) > 0 && power <= LeftPower(op) && !Extends(rest, LeftPower(op) + 1)
    requires Derives(LayerAt(LeftPower(op)), a, left) && Derives(LayerAt(LeftPower(op) + 1), b, right)
    ensures Fits(a + [Op(op)] + b, Bin(op, left, right), rest, power)
  {
    hide LeftPower, Fits;
    var n, ts, e := LeftPower(op) / 2, a + [Op(op)] + b, Bin(op, left, right);
    LayersArePowers(n, op);
    assert ts[..|a|] == a && ts[|a| + 1..] == b && ts[|a|] == Op(op);
    assert BinAt(n, ts, e, |a|);
    assert Derives(n, ts, e);
    hide Derives;
    DerivedFits(n, ts, e, rest, power);
  }

  lemma CondFits(a: seq<Token>, test: Expr, b: seq<Token>, yes: Expr, c: seq<Token>, no: Expr,
                rest: seq<Token>, power: nat)
    requires power <= 1 && !Extends(rest, 1)
    requires Derives(1, a, test) && Derives(0, b, yes) && Derives(0, c, no)
    ensures Fits(a + [QMark] + b + [Colon] + c, Cond(test, yes, no), rest, power)
  {
    hide LeftPower, Fits;
    var ts, e, j := a + [QMark] + b + [Colon] + c, Cond(test, yes, no), |a| + 1 + |b|;
    assert ts[..|a|] == a && ts[|a| + 1..j] == b && ts[j + 1..] == c && ts[|a|] == QMark && ts[j] == Colon;
    assert CondAt(ts, e, |a|, j);
    assert Derives(0, ts, e);
    hide Derives;
    DerivedFits(0, ts, e, rest, power);
  }

  lemma {:induction false} UnaryDerives(toks: seq<Token>) returns (used: seq<Token>)
    requires ParseUnary(toks).Ok?
    ensures toks == used + ParseUnary(toks).rest && Derives(7, used, ParseUnary(toks).node)
    decreases |toks|, 2
  {
    hide ParsePrimary, Ends, Atom, CallOf, Wrapped;
    var tok := Peek(toks);
    if tok.Op? && IsUnaryOp(tok.text) {
      var arg := UnaryDerives(toks[1..]);
      used := [tok] + arg;
      assert used[1..] == arg;
    } else {
      used := PrimaryDerives(toks);
      LooserDerives(7, 8, used, ParsePrimary(toks).node);
    }
  }

  lemma {:induction false} PrimaryDerives(toks: seq<Token>) returns (used: seq<Token>)
    requires ParsePrimary(toks).Ok?
    ensures toks == used + ParsePrimary(toks).rest && Derives(8, used, ParsePrimary(toks).node)
    decreases |toks|, 1
  {
    hide ParseExpression, ParseCallArgs, Ends, ArgsDerive;
    match Peek(toks)
    case LParen =>
      var inner := ExpressionDerives(toks[1..], 0);
      used := [LParen] + inner + [RParen];
      assert used[1..|used| - 1] == inner;
      assert Wrapped(used, ParsePrimary(toks).node);
    case Ident(name) =>
      if Peek(toks[1..]) == LParen {
        var args := CallArgsDerive(toks[1..][1..]);
        used := [Ident(name), LParen] + args + [RParen];
        assert used[2..|used| - 1] == args;
        assert CallOf(used, ParsePrimary(toks).node);
      } else {
        used := [Ident(name)];
      }
    case _ =>
      used := [Peek(toks)];
  }

  lemma {:induction false} CallArgsDerive(toks: seq<Token>) returns (used: seq<Token>)
    requires ParseCallArgs(toks).OkArgs?
    ensures toks == used + ParseCallArgs(toks).rest && ArgsDerive(used, ParseCallArgs(toks).args)
    decreases |toks|, 5
  {
    hide ParseArgs, Ends, Derives;
    if Peek(toks) == RParen {
      used := [];
    } else {
      used := ArgsAreDerived([], toks);
      assert ParseArgs([], toks).args[0..] == ParseArgs([], toks).args;
    }
  }

  lemma {:induction false} ArgsAreDerived(before: seq<Expr>, toks: seq<Token>) returns (used: seq<Token>)
    requires ParseArgs(before, toks).OkArgs?
    ensures var r := ParseArgs(before, toks);
            toks == used + r.rest && |before| < |r.args| && r.args[..|before|] == before
            && ArgsDerive(used, r.args[|before|..])
    decreases |toks|, 4
  {
    hide ParseExpression, Ends, Derives;
    var arg := ParseExpression(toks, 0);
    var first := ExpressionDerives(toks, 0);
    var args := ParseArgs(before, toks).args;
    if Peek(arg.rest) == Comma {
      var others := ArgsAreDerived(before + [arg.node], arg.rest[1..]);
      used := first + [Comma] + others;
      assert args[..|before| + 1][..|before|] == before && args[..|before| + 1][|before|] == arg.node;
      assert args[|before|..][0] == arg.node && args[|before|..][1..] == args[|before| + 1..];
      assert used[..|first|] == first && used[|first| + 1..] == others;
      assert ArgAt(used, args[|before|..], |first|);
    } else {
      used := first;
      assert args[|before|..] == [arg.node];
    }
  }

  // ---------------------------------------------------------------------------------------------
  // The parser is the grammar

  lemma LoneEnd(ts: seq<Token>, rest: seq<Token>, used: seq<Token>)
    requires Eof !in ts && ts + [Eof] == used + rest && rest != [] && rest[0] == Eof
    ensures used == ts
  {
    var all := ts + [Eof];
    assert all[|used|] == Eof && all[..|used|] == used && all[..|ts|] == ts;
    assert forall k :: 0 <= k < |ts| ==> all[k] == ts[k] && all[k] in ts;
  }

  /** The parser returns exactly what the grammar derives. */
  lemma ParseIsGrammar(ts: seq<Token>, e: Expr)
    requires Eof !in ts
    ensures Parse(ts + [Eof]) == Some(e) <==> Derives(0, ts, e)
  {
    hide ParseExpression, Derives, LeftPower;
    if Derives(0, ts, e) {
      DerivedReads(0, ts, e, 0, [Eof]);
      LoopStops(e, [Eof], 0);
    }
    if Parse(ts + [Eof]) == Some(e) {
      var used := ExpressionDerives(ts + [Eof], 0);
      EndsAdd(ts, [Eof]);
      LoneEnd(ts, ParseExpression(ts + [Eof], 0).rest, used);
    }
  }

  /** Two operators between three unary operands group to the right exactly if the second stands in a
      tighter layer. */
  lemma OperatorsGroup(m: nat, o: string, n: nat, p: string, a: seq<Token>, x: Expr, b: seq<Token>, y: Expr,
                       c: seq<Token>, z: Expr)
    requires InLayer(m, o) && InLayer(n, p) && Derives(7, a, x) && Derives(7, b, y) && Derives(7, c, z)
    requires Eof !in a && Eof !in b && Eof !in c
    ensures Parse(a + [Op(o)] + b + [Op(p)] + c + [Eof])
         == Some(if m < n then Bin(o, x, Bin(p, y, z)) else Bin(p, Bin(o, x, y), z))
  {
    hide Parse, Derives;
    var ts := a + [Op(o)] + b + [Op(p)] + c;
    LayersAreBinary(m, o);
    LayersAreBinary(n, p);
    if m < n {
      GroupsRight(m, o, n, p, a, x, b, y, c, z);
      ParseIsGrammar(ts, Bin(o, x, Bin(p, y, z)));
    } else {
      GroupsLeft(m, o, n, p, a, x, b, y, c, z);
      ParseIsGrammar(ts, Bin(p, Bin(o, x, y), z));
    }
  }

  lemma LayersAreBinary(n: nat, op: string)
    requires InLayer(n, op)
    ensures 1 <= n <= 6
  {
  }

  lemma GroupsRight(m: nat, o: string, n: nat, p: string, a: seq<Token>, x: Expr, b: seq<Token>, y: Expr,
                    c: seq<Token>, z: Expr)
    requires InLayer(m, o) && InLayer(n, p) && 1 <= m < n <= 6
    requires Derives(7, a, x) && Derives(7, b, y) && Derives(7, c, z)
    ensures Derives(0, a + [Op(o)] + b + [Op(p)] + c, Bin(o, x, Bin(p, y, z)))
  {
    hide Derives, InLayer;
    var right := b + [Op(p)] + c;
    TwoDerive(n, p, b, y, c, z);
    LooserDerives(m + 1, n, right, Bin(p, y, z));
    LooserDerives(m, 7, a, x);
    BinDerives(m, o, a, x, right, Bin(p, y, z));
    assert a + [Op(o)] + right == a + [Op(o)] + b + [Op(p)] + c;
    LooserDerives(0, m, a + [Op(o)] + right, Bin(o, x, Bin(p, y, z)));
  }

  lemma GroupsLeft(m: nat, o: string, n: nat, p: string, a: seq<Token>, x: Expr, b: seq<Token>, y: Expr,
                   c: seq<Token>, z: Expr)
    requires InLayer(m, o) && InLayer(n, p) && 1 <= n <= m <= 6
    requires Derives(7, a, x) && Derives(7, b, y) && Derives(7, c, z)
    ensures Derives(0, a + [Op(o)] + b + [Op(p)] + c, Bin(p, Bin(o, x, y), z))
  {
    hide Derives, InLayer;
    var left := a + [Op(o)] + b;
    TwoDerive(m, o, a, x, b, y);
    LooserDerives(n, m, left, Bin(o, x, y));
    LooserDerives(n + 1, 7, c, z);
    BinDerives(n, p, left, Bin(o, x, y), c, z);
    LooserDerives(0, n, left + [Op(p)] + c, Bin(p, Bin(o, x, y), z));
  }

  lemma BinDerives(n: nat, op: string, a: seq<Token>, left: Expr, b: seq<Token>, right: Expr)
    requires InLayer(n, op) && 1 <= n <= 6 && Derives(n, a, left) && Derives(n + 1, b, right)
    ensures Derives(n, a + [Op(op)] + b, Bin(op, left, right))
  {
    var ts := a + [Op(op)] + b;
    assert ts[..|a|] == a && ts[|a| + 1..] == b && ts[|a|] == Op(op);
    assert BinAt(n, ts, Bin(op, left, right), |a|);
  }

  lemma TwoDerive(n: nat, op: string, a: seq<Token>, left: Expr, b: seq<Token>, right: Expr)
    requires InLayer(n, op) && 1 <= n <= 6 && Derives(7, a, left) && Derives(7, b, right)
    ensures Derives(n, a + [Op(op)] + b, Bin(op, left, right))
  {
    hide Derives, InLayer;
    LooserDerives(n, 7, a, left);
    LooserDerives(n + 1, 7, b, right);
    BinDerives(n, op, a, left, b, right);
  }
}
