/** Writing expressions as text, and reading them back. */
module CelSpelling {
  import opened CelGrammar
  import opened CelTokens
  import opened Wrappers

  // ---------------------------------------------------------------------------------------------
  // Spelling

  /** A backslash in front of every quote and backslash. */
  function Escaped(s: string): string {
    if s == "" then ""
    else (if s[0] == '\'' || s[0] == '\\' then ['\\', s[0]] else [s[0]]) + Escaped(s[1..])
  }

  function Spelling(t: Token): string {
    match t
    case Num(text) => text
    case Str(text) => "'" + Escaped(text) + "'"
    case Ident(text) => text
    case Op(text) => text
    case Bool(value) => if value then "true" else "false"
    case Nil => "null"
    case LParen => "("
    case RParen => ")"
    case Comma => ","
    case QMark => "?"
    case Colon => ":"
    case Eof => ""
  }

  /** The tokens with a blank behind each. */
  function Spell(ts: seq<Token>): string {
    if ts == [] then "" else Spelling(ts[0]) + " " + Spell(ts[1..])
  }

  /** A token that the tokenizer can yield: a number in its own spelling, a name that is no keyword, an
      operator. */
  predicate Spellable(t: Token, isDecimal: string -> bool) {
    match t
    case Num(text) => text != "" && IsDigit(text[0]) && NumberLength(text) == |text| && '_' !in text && isDecimal(text)
    case Ident(text) =>
      text != "" && IsNameStart(text[0]) && Word(text) == t && forall i :: 0 <= i < |text| ==> IsNameChar(text[i])
    case Op(text) => IsPair(text) || (|text| == 1 && IsSingle(text[0]))
    case Eof => false
    case _ => true
  }

  /** A run ends where a character behind the text does not go on with it. */
  lemma {:induction false} RunStops(s: string, c: char, rest: string, p: char -> bool)
    requires !p(c)
    ensures Run(s + ([c] + rest), p) == Run(s, p)
  {
    var t := s + ([c] + rest);
    if s != "" && p(s[0]) {
      assert t[1..] == s[1..] + ([c] + rest);
      RunStops(s[1..], c, rest, p);
    }
  }

  lemma {:induction false} RunOfAll(s: string, p: char -> bool)
    requires forall i :: 0 <= i < |s| ==> p(s[i])
    ensures Run(s, p) == |s|
  {
    if s != "" {
      RunOfAll(s[1..], p);
    }
  }

  lemma NumberStops(s: string, rest: string)
    ensures NumberLength(s + ([' '] + rest)) == NumberLength(s)
  {
    hide Run;
    var t := s + ([' '] + rest);
    var j := Run(s, IsNumberChar);
    RunStops(s, ' ', rest, IsNumberChar);
    assert t[j] == if j < |s| then s[j] else ' ';
    if j < |s| && (s[j] == 'e' || s[j] == 'E') {
      assert t[j + 1] == if j + 1 < |s| then s[j + 1] else ' ';
      var k := if j + 1 < |s| && (s[j + 1] == '+' || s[j + 1] == '-') then j + 2 else j + 1;
      RunStops(s[k..], ' ', rest, IsDigit);
      assert t[k..] == s[k..] + ([' '] + rest);
    }
  }

  lemma {:induction false} NoUnderscores(s: string)
    requires '_' !in s
    ensures WithoutUnderscores(s) == s
  {
    if s != "" {
      NoUnderscores(s[1..]);
    }
  }

  /** Reading a quoted text undoes escaping it. */
  lemma {:induction false} QuotedUndoesEscaped(s: string, rest: string)
    ensures Quoted(Escaped(s) + (['\''] + rest), '\'') == Some((s, |Escaped(s)| + 1))
  {
    var t := Escaped(s) + (['\''] + rest);
    if s != "" {
      var c, more := s[0], Escaped(s[1..]) + (['\''] + rest);
      QuotedUndoesEscaped(s[1..], rest);
      if c == '\'' || c == '\\' {
        assert t == ['\\', c] + more;
        assert t[2..] == more;
      } else {
        assert t == [c] + more;
        assert t[1..] == more;
      }
      assert [c] + s[1..] == s;
    }
  }

  lemma NumReads(text: string, rest: string, isDecimal: string -> bool)
    requires Spellable(Num(text), isDecimal)
    ensures First(text + ([' '] + rest), isDecimal) == Some((Num(text), |text|))
  {
    hide NumberLength, WithoutUnderscores;
    var s := text + ([' '] + rest);
    NumberStops(text, rest);
    NoUnderscores(text);
    assert s[..|text|] == text && s[0] == text[0];
  }

  lemma StrReads(text: string, rest: string, isDecimal: string -> bool)
    ensures First(Spelling(Str(text)) + ([' '] + rest), isDecimal) == Some((Str(text), |Spelling(Str(text))|))
  {
    hide Quoted, Escaped;
    var s := Spelling(Str(text)) + ([' '] + rest);
    QuotedUndoesEscaped(text, [' '] + rest);
    assert s[1..] == Escaped(text) + (['\''] + ([' '] + rest));
    assert s[0] == '\'';
  }

  lemma NameReads(t: Token, name: string, rest: string, isDecimal: string -> bool)
    requires name != "" && IsNameStart(name[0]) && Word(name) == t
    requires forall i :: 0 <= i < |name| ==> IsNameChar(name[i])
    ensures First(name + ([' '] + rest), isDecimal) == Some((t, |name|))
  {
    hide Word, Run;
    var s := name + ([' '] + rest);
    RunOfAll(name, IsNameChar);
    RunStops(name, ' ', rest, IsNameChar);
    assert s[..|name|] == name && s[0] == name[0];
  }

  lemma OpReads(op: string, rest: string, isDecimal: string -> bool)
    requires IsPair(op) || (|op| == 1 && IsSingle(op[0]))
    ensures First(op + ([' '] + rest), isDecimal) == Some((Op(op), |op|))
  {
    var s := op + ([' '] + rest);
    assert s[0] == op[0];
    if |op| == 1 {
      assert s[1] == ' ' && s[..2] == [op[0], ' '] && op == [op[0]];
      assert !IsPair(s[..2]) by { assert s[..2][1] == ' '; }
    } else {
      assert s[..2] == op;
    }
  }

  lemma MarkReads(t: Token, c: char, rest: string, isDecimal: string -> bool)
    requires Punctuation(c) == Some(t)
    ensures First([c] + ([' '] + rest), isDecimal) == Some((t, 1))
  {
    var s := [c] + ([' '] + rest);
    assert s[0] == c && s[1] == ' ';
    assert !IsPair(s[..2]) by { assert s[..2][1] == ' '; }
  }

  /** The tokenizer reads a spelled token and goes on behind it. */
  lemma FirstReads(t: Token, rest: string, isDecimal: string -> bool)
    requires Spellable(t, isDecimal)
    ensures Spelling(t) != "" && !IsBlank(Spelling(t)[0])
    ensures First(Spelling(t) + ([' '] + rest), isDecimal) == Some((t, |Spelling(t)|))
  {
    hide First, NumberLength, Escaped;
    match t
    case Num(text) => NumReads(text, rest, isDecimal);
    case Str(text) => StrReads(text, rest, isDecimal);
    case Ident(text) => NameReads(t, text, rest, isDecimal);
    case Op(text) => OpReads(text, rest, isDecimal);
    case Bool(value) => NameReads(t, Spelling(t), rest, isDecimal);
    case Nil => NameReads(t, "null", rest, isDecimal);
    case LParen => MarkReads(t, '(', rest, isDecimal);
    case RParen => MarkReads(t, ')', rest, isDecimal);
    case Comma => MarkReads(t, ',', rest, isDecimal);
    case QMark => MarkReads(t, '?', rest, isDecimal);
    case Colon => MarkReads(t, ':', rest, isDecimal);
  }

  /** Scanning spelled tokens returns them. */
  lemma {:induction false} ScanUndoesSpell(ts: seq<Token>, isDecimal: string -> bool)
    requires forall t :: t in ts ==> Spellable(t, isDecimal)
    ensures Scan(Spell(ts), isDecimal) == Some(ts + [Eof])
  {
    hide First, Spellable, Spelling, IsBlank;
    if ts == [] {
      assert ts + [Eof] == [Eof];
    } else {
      var t, rest := ts[0], Spell(ts[1..]);
      var s := Spelling(t) + ([' '] + rest);
      assert Spell(ts) == s;
      FirstReads(t, rest, isDecimal);
      ScanUndoesSpell(ts[1..], isDecimal);
      ScanStep(s, isDecimal);
      assert s[|Spelling(t)|..] == [' '] + rest;
      ScanBlank(rest, isDecimal);
      assert [t] + (ts[1..] + [Eof]) == ts + [Eof];
    }
  }

  lemma ScanBlank(s: string, isDecimal: string -> bool)
    ensures Scan([' '] + s, isDecimal) == Scan(s, isDecimal)
  {
    hide First;
    assert ([' '] + s)[1..] == s;
  }

  // ---------------------------------------------------------------------------------------------
  // From text to expression and back

  /** Names, numbers and operators are ones the tokenizer can yield. */
  predicate Writable(e: Expr, isDecimal: string -> bool) {
    match e
    case Number(text) => Spellable(Num(text), isDecimal)
    case Ref(name) => Spellable(Ident(name), isDecimal)
    case Unary(op, arg) => IsUnaryOp(op) && Writable(arg, isDecimal)
    case Bin(op, left, right) => LeftPower(op) > 0 && Writable(left, isDecimal) && Writable(right, isDecimal)
    case Cond(test, yes, no) => Writable(test, isDecimal) && Writable(yes, isDecimal) && Writable(no, isDecimal)
    case Call(name, args) =>
      Spellable(Ident(name), isDecimal) && forall i :: 0 <= i < |args| ==> Writable(args[i], isDecimal)
    case _ => true
  }

  predicate AllSpellable(ts: seq<Token>, isDecimal: string -> bool) {
    forall t :: t in ts ==> Spellable(t, isDecimal)
  }

  lemma {:induction false} WritableIsValid(e: Expr, isDecimal: string -> bool)
    requires Writable(e, isDecimal)
    ensures Valid(e)
  {
    hide Spellable, LeftPower;
    match e
    case Unary(_, arg) => WritableIsValid(arg, isDecimal);
    case Bin(_, left, right) =>
      WritableIsValid(left, isDecimal);
      WritableIsValid(right, isDecimal);
    case Cond(test, yes, no) =>
      WritableIsValid(test, isDecimal);
      WritableIsValid(yes, isDecimal);
      WritableIsValid(no, isDecimal);
    case Call(_, args) =>
      forall i | 0 <= i < |args|
        ensures Valid(args[i])
      {
        WritableIsValid(args[i], isDecimal);
      }
    case _ =>
  }

  lemma SpellableConcat(a: seq<Token>, b: seq<Token>, isDecimal: string -> bool)
    requires AllSpellable(a, isDecimal) && AllSpellable(b, isDecimal)
    ensures AllSpellable(a + b, isDecimal)
  {
    hide Spellable;
  }

  lemma SpellableOne(t: Token, isDecimal: string -> bool)
    requires Spellable(t, isDecimal)
    ensures AllSpellable([t], isDecimal)
  {
  }

  lemma {:induction false} PrintIsSpellable(e: Expr, power: nat, isDecimal: string -> bool)
    requires Writable(e, isDecimal)
    ensures AllSpellable(Print(e, power), isDecimal)
    decreases e, 1
  {
    hide Spellable, AllSpellable, Bare;
    BareIsSpellable(e, isDecimal);
    if Power(e) < power {
      MarksAreSpellable(isDecimal);
      SpellableConcat([LParen], Bare(e), isDecimal);
      SpellableConcat([LParen] + Bare(e), [RParen], isDecimal);
    }
  }

  lemma {:induction false} BareIsSpellable(e: Expr, isDecimal: string -> bool)
    requires Writable(e, isDecimal)
    ensures AllSpellable(Bare(e), isDecimal)
    decreases e, 0
  {
    hide Spellable, AllSpellable, LeftPower, Print, PrintArgs;
    MarksAreSpellable(isDecimal);
    match e
    case Unary(op, arg) =>
      OpIsSpellable(op, isDecimal);
      PrintIsSpellable(arg, UNARY_POWER, isDecimal);
      SpellableConcat([Op(op)], Print(arg, UNARY_POWER), isDecimal);
    case Bin(op, left, right) =>
      var l, r := Print(left, LeftPower(op)), Print(right, LeftPower(op) + 1);
      OpIsSpellable(op, isDecimal);
      PrintIsSpellable(left, LeftPower(op), isDecimal);
      PrintIsSpellable(right, LeftPower(op) + 1, isDecimal);
      SpellableConcat(l, [Op(op)], isDecimal);
      SpellableConcat(l + [Op(op)], r, isDecimal);
    case Cond(test, yes, no) =>
      var a, b, c := Print(test, 2), Print(yes, 0), Print(no, 1);
      PrintIsSpellable(test, 2, isDecimal);
      PrintIsSpellable(yes, 0, isDecimal);
      PrintIsSpellable(no, 1, isDecimal);
      SpellableConcat(a, [QMark], isDecimal);
      SpellableConcat(a + [QMark], b, isDecimal);
      SpellableConcat(a + [QMark] + b, [Colon], isDecimal);
      SpellableConcat(a + [QMark] + b + [Colon], c, isDecimal);
    case Call(name, _) =>
      ArgsAreSpellable(e, 0, isDecimal);
      SpellableOne(Ident(name), isDecimal);
      assert [Ident(name), LParen] == [Ident(name)] + [LParen];
      SpellableConcat([Ident(name)], [LParen], isDecimal);
      SpellableConcat([Ident(name), LParen], PrintArgs(e, 0), isDecimal);
      SpellableConcat([Ident(name), LParen] + PrintArgs(e, 0), [RParen], isDecimal);
    case Number(text) => SpellableOne(Num(text), isDecimal);
    case Text(text) => SpellableOne(Str(text), isDecimal);
    case Truth(value) => SpellableOne(Bool(value), isDecimal);
    case Null => SpellableOne(Nil, isDecimal);
    case Ref(name) => SpellableOne(Ident(name), isDecimal);
  }

  lemma {:induction false} ArgsAreSpellable(e: Expr, i: nat, isDecimal: string -> bool)
    requires Writable(e, isDecimal) && e.Call? && i <= |e.args|
    ensures AllSpellable(PrintArgs(e, i), isDecimal)
    decreases e, 0, |e.args| - i
  {
    hide Spellable, AllSpellable, Print;
    MarksAreSpellable(isDecimal);
    NoneIsSpellable(isDecimal);
    if i < |e.args| {
      PrintIsSpellable(e.args[i], 0, isDecimal);
      ArgsAreSpellable(e, i + 1, isDecimal);
      var arg, comma := Print(e.args[i], 0), if i + 1 < |e.args| then [Comma] else [];
      SpellableConcat(arg, comma, isDecimal);
      SpellableConcat(arg + comma, PrintArgs(e, i + 1), isDecimal);
    }
  }

  lemma NoneIsSpellable(isDecimal: string -> bool)
    ensures AllSpellable([], isDecimal)
  {
  }

  lemma MarksAreSpellable(isDecimal: string -> bool)
    ensures AllSpellable([LParen], isDecimal) && AllSpellable([RParen], isDecimal) && AllSpellable([Comma], isDecimal)
    ensures AllSpellable([QMark], isDecimal) && AllSpellable([Colon], isDecimal)
    ensures Spellable(Nil, isDecimal)
    ensures forall value :: Spellable(Bool(value), isDecimal)
    ensures forall text :: Spellable(Str(text), isDecimal)
  {
  }

  lemma OpIsSpellable(op: string, isDecimal: string -> bool)
    requires IsUnaryOp(op) || LeftPower(op) > 0
    ensures AllSpellable([Op(op)], isDecimal)
  {
  }

  /** What the syntax check makes of a text. */
  function Read(text: string, isDecimal: string -> bool): Option<Expr> {
    match Scan(text, isDecimal) case None => None case Some(ts) => Parse(ts)
  }

  /** Reading a printed expression returns it, from expression to text and back. */
  lemma ReadUndoesSpelledPrint(e: Expr, isDecimal: string -> bool)
    requires Writable(e, isDecimal)
    ensures Read(Spell(Print(e, 0)), isDecimal) == Some(e)
  {
    hide Scan, Spell, Parse, Print, Spellable, Writable;
    WritableIsValid(e, isDecimal);
    PrintIsSpellable(e, 0, isDecimal);
    ScanUndoesSpell(Print(e, 0), isDecimal);
    ParseUndoesPrint(e);
  }

  // ---------------------------------------------------------------------------------------------
  // Whatever is accepted can be printed

  lemma {:induction false} UnderscoresSplit(a: string, b: string)
    ensures WithoutUnderscores(a + b) == WithoutUnderscores(a) + WithoutUnderscores(b)
  {
    hide Kept;
    if a == "" {
      assert a + b == b;
    } else {
      UnderscoresSplit(a[1..], b);
      assert (a + b)[1..] == a[1..] + b && (a + b)[0] == a[0];
      var c, x, y := Kept(a[0]), WithoutUnderscores(a[1..]), WithoutUnderscores(b);
      assert c + (x + y) == c + x + y;
    }
  }

  lemma {:induction false} UnderscoresGone(s: string)
    ensures '_' !in WithoutUnderscores(s)
    ensures (forall i :: 0 <= i < |s| ==> IsNumberChar(s[i])) ==>
              forall i :: 0 <= i < |WithoutUnderscores(s)| ==> IsNumberChar(WithoutUnderscores(s)[i])
  {
    if s != "" {
      UnderscoresGone(s[1..]);
    }
  }

  /** A letter `e`, perhaps a sign, and digits to the end; or nothing. */
  predicate IsExponent(s: string) {
    s == "" || ((s[0] == 'e' || s[0] == 'E')
                && var k := if |s| > 1 && (s[1] == '+' || s[1] == '-') then 2 else 1;
                forall i :: k <= i < |s| ==> IsDigit(s[i]))
  }

  lemma NumberSplits(s: string) returns (j: nat)
    ensures j <= NumberLength(s) && forall i :: 0 <= i < j ==> IsNumberChar(s[i])
    ensures IsExponent(s[j..NumberLength(s)])
    ensures s != "" && IsDigit(s[0]) ==> j > 0
  {
    hide Run;
    j := Run(s, IsNumberChar);
    var n := NumberLength(s);
    if j < |s| && (s[j] == 'e' || s[j] == 'E') {
      var k := if j + 1 < |s| && (s[j + 1] == '+' || s[j + 1] == '-') then j + 2 else j + 1;
      forall i | k <= i < n
        ensures IsDigit(s[i])
      {
        assert s[i] == s[k..][i - k];
      }
    }
  }

  /** Number characters and an exponent are one number. */
  lemma NumberIsWhole(mantissa: string, exponent: string)
    requires (forall i :: 0 <= i < |mantissa| ==> IsNumberChar(mantissa[i])) && IsExponent(exponent)
    ensures NumberLength(mantissa + exponent) == |mantissa + exponent|
  {
    hide Run;
    var s, j := mantissa + exponent, |mantissa|;
    if exponent == "" {
      assert s == mantissa;
      RunOfAll(s, IsNumberChar);
    } else {
      RunOfAll(mantissa, IsNumberChar);
      RunStops(mantissa, exponent[0], exponent[1..], IsNumberChar);
      assert s == mantissa + ([exponent[0]] + exponent[1..]);
      assert s[j] == exponent[0] && (|exponent| > 1 ==> s[j + 1] == exponent[1]);
      var k := if j + 1 < |s| && (s[j + 1] == '+' || s[j + 1] == '-') then j + 2 else j + 1;
      assert forall i :: 0 <= i < |s[k..]| ==> s[k..][i] == exponent[i + k - j];
      RunOfAll(s[k..], IsDigit);
    }
  }

  lemma NumIsSpellable(s: string, isDecimal: string -> bool)
    requires s != "" && IsDigit(s[0]) && isDecimal(WithoutUnderscores(s[..NumberLength(s)]))
    ensures Spellable(Num(WithoutUnderscores(s[..NumberLength(s)])), isDecimal)
  {
    hide NumberLength, Run;
    var n := NumberLength(s);
    var j := NumberSplits(s);
    var mantissa, exponent := s[..j], s[j..n];
    assert s[..n] == mantissa + exponent;
    UnderscoresSplit(mantissa, exponent);
    UnderscoresGone(mantissa);
    NoUnderscores(exponent);
    NumberIsWhole(WithoutUnderscores(mantissa), exponent);
    UnderscoresGone(s[..n]);
    assert WithoutUnderscores(mantissa)[0] == s[0];
  }

  lemma FirstIsSpellable(s: string, isDecimal: string -> bool)
    requires s != "" && First(s, isDecimal).Some?
    ensures Spellable(First(s, isDecimal).value.0, isDecimal)
  {
    hide NumberLength, Quoted, Run, WithoutUnderscores;
    var c := s[0];
    if IsDigit(c) {
      NumIsSpellable(s, isDecimal);
    } else if IsNameStart(c) && c != '\'' && c != '"' {
      var n := Run(s, IsNameChar);
      assert s[..n][0] == c;
    }
  }

  lemma {:induction false} ScanIsSpellable(s: string, isDecimal: string -> bool)
    requires Scan(s, isDecimal).Some?
    ensures forall t :: t in Scan(s, isDecimal).value ==> Spellable(t, isDecimal) || t == Eof
    decreases |s|
  {
    hide First, Spellable;
    if s != "" {
      if IsBlank(s[0]) {
        ScanIsSpellable(s[1..], isDecimal);
      } else {
        FirstIsSpellable(s, isDecimal);
        ScanIsSpellable(s[First(s, isDecimal).value.1..], isDecimal);
      }
    }
  }

  predicate Clean(toks: seq<Token>, isDecimal: string -> bool) {
    forall i :: 0 <= i < |toks| ==> Spellable(toks[i], isDecimal) || toks[i] == Eof
  }

  lemma {:induction false} ExpressionIsWritable(toks: seq<Token>, power: nat, isDecimal: string -> bool)
    requires Clean(toks, isDecimal) && ParseExpression(toks, power).Ok?
    ensures var r := ParseExpression(toks, power); Writable(r.node, isDecimal) && Clean(r.rest, isDecimal)
    decreases |toks|, 3
  {
    hide ParseLoop, ParseUnary, Writable, Clean, Ends;
    UnaryIsWritable(toks, isDecimal);
    var lhs := ParseUnary(toks);
    LoopIsWritable(lhs.node, lhs.rest, power, isDecimal);
  }

  lemma {:induction false} LoopIsWritable(lhs: Expr, toks: seq<Token>, power: nat, isDecimal: string -> bool)
    requires Clean(toks, isDecimal) && Writable(lhs, isDecimal) && ParseLoop(lhs, toks, power).Ok?
    ensures var r := ParseLoop(lhs, toks, power); Writable(r.node, isDecimal) && Clean(r.rest, isDecimal)
    decreases |toks|, 0
  {
    hide ParseExpression, LeftPower, Spellable, Ends;
    if Extends(toks, power) {
      if toks[0].QMark? {
        ExpressionIsWritable(toks[1..], 0, isDecimal);
        var yes := ParseExpression(toks[1..], 0);
        ExpressionIsWritable(yes.rest[1..], 1, isDecimal);
        var no := ParseExpression(yes.rest[1..], 1);
        LoopIsWritable(Cond(lhs, yes.node, no.node), no.rest, power, isDecimal);
      } else {
        var op := toks[0].text;
        ExpressionIsWritable(toks[1..], LeftPower(op) + 1, isDecimal);
        var rhs := ParseExpression(toks[1..], LeftPower(op) + 1);
        LoopIsWritable(Bin(op, lhs, rhs.node), rhs.rest, power, isDecimal);
      }
    }
  }

  lemma {:induction false} UnaryIsWritable(toks: seq<Token>, isDecimal: string -> bool)
    requires Clean(toks, isDecimal) && ParseUnary(toks).Ok?
    ensures var r := ParseUnary(toks); Writable(r.node, isDecimal) && Clean(r.rest, isDecimal)
    decreases |toks|, 2
  {
    hide ParsePrimary, Spellable, Ends;
    var tok := Peek(toks);
    if tok.Op? && IsUnaryOp(tok.text) {
      UnaryIsWritable(toks[1..], isDecimal);
    } else {
      PrimaryIsWritable(toks, isDecimal);
    }
  }

  lemma {:induction false} PrimaryIsWritable(toks: seq<Token>, isDecimal: string -> bool)
    requires Clean(toks, isDecimal) && ParsePrimary(toks).Ok?
    ensures var r := ParsePrimary(toks); Writable(r.node, isDecimal) && Clean(r.rest, isDecimal)
    decreases |toks|, 1
  {
    hide ParseExpression, ParseCallArgs, Spellable, Ends;
    match Peek(toks)
    case LParen =>
      ExpressionIsWritable(toks[1..], 0, isDecimal);
    case Ident(name) =>
      if Peek(toks[1..]) == LParen {
        CallArgsAreWritable(toks[1..][1..], isDecimal);
      }
    case _ =>
  }

  lemma {:induction false} CallArgsAreWritable(toks: seq<Token>, isDecimal: string -> bool)
    requires Clean(toks, isDecimal) && ParseCallArgs(toks).OkArgs?
    ensures var r := ParseCallArgs(toks);
            Clean(r.rest, isDecimal) && forall i :: 0 <= i < |r.args| ==> Writable(r.args[i], isDecimal)
    decreases |toks|, 5
  {
    hide ParseArgs, Spellable, Ends, Writable;
    if Peek(toks) != RParen {
      ArgsAreWritable([], toks, isDecimal);
    }
  }

  lemma {:induction false} ArgsAreWritable(before: seq<Expr>, toks: seq<Token>, isDecimal: string -> bool)
    requires Clean(toks, isDecimal) && ParseArgs(before, toks).OkArgs?
    requires forall i :: 0 <= i < |before| ==> Writable(before[i], isDecimal)
    ensures var r := ParseArgs(before, toks);
            Clean(r.rest, isDecimal) && forall i :: 0 <= i < |r.args| ==> Writable(r.args[i], isDecimal)
    decreases |toks|, 4
  {
    hide ParseExpression, Spellable, Ends, Writable;
    ExpressionIsWritable(toks, 0, isDecimal);
    var arg := ParseExpression(toks, 0);
    if Peek(arg.rest) == Comma {
      ArgsAreWritable(before + [arg.node], arg.rest[1..], isDecimal);
    }
  }

  /** Rewriting keeps the meaning: whatever text is accepted, the spelled print of what it means is
      accepted as well, and means the same. */
  lemma RewritingKeepsMeaning(text: string, e: Expr, isDecimal: string -> bool)
    requires Read(text, isDecimal) == Some(e)
    ensures Read(Spell(Print(e, 0)), isDecimal) == Some(e)
  {
    hide Scan, ParseExpression, Print, Spell, Spellable, Writable, Read;
    ReadUnfolds(text, isDecimal);
    var ts := Scan(text, isDecimal).value;
    ScanIsSpellable(text, isDecimal);
    ExpressionIsWritable(ts, 0, isDecimal);
    ReadUndoesSpelledPrint(e, isDecimal);
  }

  lemma ReadUnfolds(text: string, isDecimal: string -> bool)
    ensures Read(text, isDecimal).Some? ==>
              Scan(text, isDecimal).Some? && Parse(Scan(text, isDecimal).value) == Read(text, isDecimal)
  {
  }
}
