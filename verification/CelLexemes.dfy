/** The tokens of the formula language as a lexical grammar, independent of the tokenizer: what it makes
    of a text is the one way to write the text as blanks and longest lexemes. */
module CelLexemes {
  import opened CelGrammar
  import opened CelLayers
  import opened CelSpelling
  import opened CelTokens
  import opened Wrappers

  // ---------------------------------------------------------------------------------------------
  // The grammar

  /** One of these characters. */
  predicate InText(c: char, chars: string) {
    c in chars
  }

  predicate Blank(c: char) {
    InText(c, " \t\n\r")
  }

  predicate Latin(c: char) {
    var n := c as int;
    65 <= n <= 90 || 97 <= n <= 122
  }

  predicate NameTail(c: char) {
    Latin(c) || InText(c, "0123456789_.")
  }

  /** A letter or underscore, then letters, digits, underscores and dots. */
  predicate IsName(w: string) {
    && w != "" && (Latin(w[0]) || w[0] == '_')
    && forall i :: 0 <= i < |w| ==> NameTail(w[i])
  }

  /** A digit, then digits, dots and underscores, then nothing or an exponent. */
  ghost predicate NumberAt(w: string, j: int) {
    && 1 <= j <= |w| && InText(w[0], "0123456789")
    && (forall i :: 0 <= i < j ==> InText(w[i], "0123456789._"))
    && (j == |w| || ExponentAt(w, j))
  }

  ghost predicate IsNumber(w: string) {
    exists j :: NumberAt(w, j)
  }

  /** A letter `e` at `j`, perhaps a sign, and digits to the end. */
  ghost predicate ExponentAt(w: string, j: int)
    requires 0 <= j < |w|
  {
    && InText(w[j], "eE")
    && forall i :: j < i < |w| ==> InText(w[i], "0123456789") || (i == j + 1 && InText(w[i], "+-"))
  }

  /** What a quoted text means: a backslash makes the character behind it plain. */
  predicate Means(body: string, quote: char, v: string) {
    if body == "" then v == ""
    else if body[0] == '\\' then |body| >= 2 && v != "" && v[0] == body[1] && Means(body[2..], quote, v[1..])
    else body[0] != quote && v != "" && v[0] == body[0] && Means(body[1..], quote, v[1..])
  }

  predicate QuotedText(w: string, v: string) {
    && |w| >= 2 && (w[0] == '\'' || w[0] == '"') && w[|w| - 1] == w[0]
    && Means(w[1..|w| - 1], w[0], v)
  }

  const PAIRS: seq<string> := ["==", "!=", "<=", ">=", "&&", "||"]
  const SINGLES: seq<string> := ["+", "-", "*", "/", "%", "<", ">", "!"]
  const KEYWORDS: seq<string> := ["true", "false", "null", "nil"]

  predicate Without(s: string, t: string) {
    if s == "" then t == ""
    else if s[0] == '_' then Without(s[1..], t)
    else t != "" && t[0] == s[0] && Without(s[1..], t[1..])
  }

  /** The text `w` is written for the token. */
  ghost predicate Lexeme(w: string, t: Token, isDecimal: string -> bool) {
    match t
    case Num(v) => IsNumber(w) && Without(w, v) && isDecimal(v)
    case Str(v) => QuotedText(w, v)
    case Ident(v) => IsName(w) && w == v && w !in KEYWORDS
    case Op(v) => w == v && (w in PAIRS || w in SINGLES)
    case Bool(v) => w == if v then "true" else "false"
    case Nil => w == "null" || w == "nil"
    case LParen => w == "("
    case RParen => w == ")"
    case Comma => w == ","
    case QMark => w == "?"
    case Colon => w == ":"
    case Eof => false
  }

  /** The character is not one that would make the lexeme longer. */
  ghost predicate EndsBefore(w: string, c: char) {
    && (IsName(w) ==> !NameTail(c))
    && (IsNumber(w) ==> !IsNumber(w + [c]))
    && (w in SINGLES ==> w + [c] !in PAIRS)
  }

  /** The first `n` characters of the text are written for the token, and cannot be a part of a longer
      lexeme. */
  ghost predicate Leads(s: string, t: Token, n: int, isDecimal: string -> bool) {
    1 <= n <= |s| && Lexeme(s[..n], t, isDecimal) && (n < |s| ==> EndsBefore(s[..n], s[n]))
  }

  /** The text is written as these tokens, with blanks between them or not. */
  ghost predicate Lexes(s: string, ts: seq<Token>, isDecimal: string -> bool)
    decreases |s|
  {
    if s == "" then ts == []
    else if Blank(s[0]) then Lexes(s[1..], ts, isDecimal)
    else ts != [] && exists n :: LexesAt(s, ts, n, isDecimal)
  }

  ghost predicate LexesAt(s: string, ts: seq<Token>, n: int, isDecimal: string -> bool)
    requires ts != []
    decreases |s|, 0
  {
    Leads(s, ts[0], n, isDecimal) && Lexes(s[n..], ts[1..], isDecimal)
  }

  // ---------------------------------------------------------------------------------------------
  // Characters

  lemma Characters(c: char)
    ensures InText(c, "0123456789") <==> IsDigit(c)
    ensures InText(c, "0123456789._") <==> IsNumberChar(c)
    ensures Blank(c) <==> IsBlank(c)
    ensures InText(c, "eE") <==> c == 'e' || c == 'E'
    ensures InText(c, "+-") <==> c == '+' || c == '-'
    ensures (Latin(c) || c == '_') <==> IsNameStart(c)
    ensures NameTail(c) <==> IsNameChar(c)
  {
    var digits := "0123456789";
    if IsDigit(c) {
      assert digits[c as int - '0' as int] == c;
    }
    assert "0123456789._" == digits + "._" && "0123456789_." == digits + "_.";
  }

  // ---------------------------------------------------------------------------------------------
  // Names

  lemma RunIs(s: string, p: char -> bool, n: nat)
    requires n <= |s| && (forall i :: 0 <= i < n ==> p(s[i])) && (n < |s| ==> !p(s[n]))
    ensures Run(s, p) == n
  {
    var k := Run(s, p);
  }

  lemma AllCharacters()
    ensures forall c :: (Latin(c) || c == '_') <==> IsNameStart(c)
    ensures forall c :: NameTail(c) <==> IsNameChar(c)
    ensures forall c :: InText(c, "0123456789") <==> IsDigit(c)
    ensures forall c :: InText(c, "0123456789._") <==> IsNumberChar(c)
    ensures forall c :: InText(c, "eE") <==> c == 'e' || c == 'E'
    ensures forall c :: InText(c, "+-") <==> c == '+' || c == '-'
  {
    hide *;
    forall c
      ensures (Latin(c) || c == '_') <==> IsNameStart(c)
      ensures NameTail(c) <==> IsNameChar(c)
      ensures InText(c, "0123456789") <==> IsDigit(c)
      ensures InText(c, "0123456789._") <==> IsNumberChar(c)
      ensures InText(c, "eE") <==> c == 'e' || c == 'E'
      ensures InText(c, "+-") <==> c == '+' || c == '-'
    {
      Characters(c);
    }
  }

  lemma NamesLead(s: string, n: int)
    requires 1 <= n <= |s|
    ensures IsName(s[..n]) && (n < |s| ==> !NameTail(s[n])) <==> IsNameStart(s[0]) && n == Run(s, IsNameChar)
  {
    hide InText, Latin, NameTail, IsNameChar, IsNameStart, IsNumberChar, IsDigit, IsBlank, Run;
    AllCharacters();
    if IsName(s[..n]) && (n < |s| ==> !NameTail(s[n])) {
      assert forall i :: 0 <= i < n ==> s[i] == s[..n][i];
      RunIs(s, IsNameChar, n);
    }
    if IsNameStart(s[0]) && n == Run(s, IsNameChar) {
      assert forall i :: 0 <= i < n ==> IsNameChar(s[i]);
    }
  }

  // ---------------------------------------------------------------------------------------------
  // Numbers

  lemma RunReaches(s: string, p: char -> bool, n: nat)
    requires n <= |s| && forall i :: 0 <= i < n ==> p(s[i])
    ensures n <= Run(s, p)
  {
    var k := Run(s, p);
  }

  /** The numbers that a text begins with are its prefixes up to the length that the tokenizer takes. */
  lemma NumbersLead(s: string, n: int)
    requires 0 <= n <= |s|
    ensures IsNumber(s[..n]) <==> 1 <= n <= NumberLength(s) && IsDigit(s[0])
  {
    hide InText, Latin, NameTail, IsNameChar, IsNameStart, IsNumberChar, IsDigit, IsBlank, Run, NumberLength;
    var w := s[..n];
    assert forall i :: 0 <= i < n ==> w[i] == s[i];
    AllCharacters();
    if IsNumber(w) {
      var j :| NumberAt(w, j);
      NumberReaches(s, n, j);
    }
    if 1 <= n <= NumberLength(s) && IsDigit(s[0]) {
      NumberIsAt(s, n);
    }
  }

  lemma NumberReaches(s: string, n: int, j: int)
    requires 0 <= n <= |s| && NumberAt(s[..n], j)
    ensures n <= NumberLength(s)
  {
    hide InText, Latin, NameTail, IsNameChar, IsNameStart, IsDigit, IsBlank, Run;
    var w := s[..n];
    assert forall i :: 0 <= i < n ==> w[i] == s[i];
    AllCharacters();
    assert forall i :: 0 <= i < j ==> IsNumberChar(w[i]);
    RunReaches(s, IsNumberChar, j);
    if j < n {
      assert !IsDigit(s[j]) by { NotDigits(); }
      RunIs(s, IsNumberChar, j);
      var k := if j + 1 < |s| && (s[j + 1] == '+' || s[j + 1] == '-') then j + 2 else j + 1;
      if k < n {
        assert forall i :: 0 <= i < n - k ==> s[k..][i] == s[k + i] == w[k + i];
        assert !IsDigit('+') && !IsDigit('-') by { NotDigits(); }
        RunReaches(s[k..], IsDigit, n - k);
      }
    }
  }

  lemma NotDigits()
    ensures !IsDigit('e') && !IsDigit('E') && !IsDigit('+') && !IsDigit('-')
  {
  }

  lemma NumberIsAt(s: string, n: int)
    requires 1 <= n <= NumberLength(s) && IsDigit(s[0])
    ensures IsNumber(s[..n])
  {
    hide InText, Latin, NameTail, IsNameChar, IsNameStart, IsDigit, IsBlank, Run;
    var w, j := s[..n], Run(s, IsNumberChar);
    assert forall i :: 0 <= i < n ==> w[i] == s[i];
    AllCharacters();
    RunReaches(s, IsNumberChar, 1);
    if n <= j {
      assert NumberAt(w, n);
    } else {
      var k := if j + 1 < |s| && (s[j + 1] == '+' || s[j + 1] == '-') then j + 2 else j + 1;
      assert forall i :: k <= i < n ==> s[i] == s[k..][i - k] && IsDigit(s[i]);
      assert NumberAt(w, j);
    }
  }

  // ---------------------------------------------------------------------------------------------
  // Texts

  /** Reading up to the closing quote finds the one quoted text that means what is read. */
  lemma {:induction false} QuotedIs(s: string, quote: char, v: string, n: int)
    requires quote != '\\'
    ensures Quoted(s, quote) == Some((v, n)) <==>
            1 <= n <= |s| && s[n - 1] == quote && Means(s[..n - 1], quote, v)
    decreases |s|
  {
    hide Means;
    if s != "" && s[0] != quote {
      var taken := if s[0] == '\\' && |s| > 1 then 2 else 1;
      if v != "" {
        QuotedIs(s[taken..], quote, v[1..], n - taken);
      }
      QuotedStarts(s, quote, v, n, taken);
    } else if s != "" {
      QuotedEnds(s, quote, v, n);
    }
  }

  lemma QuotedEnds(s: string, quote: char, v: string, n: int)
    requires quote != '\\' && s != "" && s[0] == quote
    ensures 1 <= n <= |s| && s[n - 1] == quote && Means(s[..n - 1], quote, v) <==> n == 1 && v == ""
  {
    if 2 <= n <= |s| {
      assert s[..n - 1][0] == quote;
    }
  }

  lemma QuotedStarts(s: string, quote: char, v: string, n: int, taken: nat)
    requires quote != '\\' && s != "" && s[0] != quote && taken == if s[0] == '\\' && |s| > 1 then 2 else 1
    requires v != "" ==>
               (Quoted(s[taken..], quote) == Some((v[1..], n - taken)) <==>
                1 <= n - taken <= |s| - taken && s[taken..][n - taken - 1] == quote
                && Means(s[taken..][..n - taken - 1], quote, v[1..]))
    ensures Quoted(s, quote) == Some((v, n)) <==>
            1 <= n <= |s| && s[n - 1] == quote && Means(s[..n - 1], quote, v)
  {
    var c, more := s[taken - 1], Quoted(s[taken..], quote);
    assert Quoted(s, quote) == Behind([c], taken, more);
    if more.Some? {
      assert ([c] + more.value.0)[1..] == more.value.0;
      if v != "" && v[0] == c && v[1..] == more.value.0 {
        assert v == [c] + more.value.0;
      }
    }
    if 1 <= n <= |s| && s[n - 1] == quote {
      var body := s[..n - 1];
      assert body != "" && body[0] == s[0];
      if taken < n {
        assert body[taken..] == s[taken..][..n - taken - 1];
        assert s[taken..][n - taken - 1] == s[n - 1];
      }
    }
  }

  // ---------------------------------------------------------------------------------------------
  // The first lexeme

  lemma {:induction false} WithoutIs(s: string, t: string)
    ensures Without(s, t) <==> t == WithoutUnderscores(s)
  {
    if s != "" {
      WithoutIs(s[1..], t);
      if t != "" {
        WithoutIs(s[1..], t[1..]);
        assert t == [t[0]] + t[1..];
      }
    }
  }

  /** The kinds of lexemes begin differently. */
  lemma LexemeStarts(w: string, t: Token, isDecimal: string -> bool)
    requires Lexeme(w, t, isDecimal)
    ensures w != ""
    ensures IsDigit(w[0]) <==> t.Num?
    ensures (w[0] == '\'' || w[0] == '"') <==> t.Str?
    ensures IsNameStart(w[0]) <==> t.Ident? || t.Bool? || t.Nil?
  {
    hide Means, Without, NameTail, InText, Latin;
    AllCharacters();
  }

  lemma NumLeads(s: string, t: Token, n: int, isDecimal: string -> bool)
    requires s != "" && IsDigit(s[0])
    ensures First(s, isDecimal) == Some((t, n)) <==> Leads(s, t, n, isDecimal)
  {
    hide Means, Without, NumberLength, WithoutUnderscores, IsNumber, IsName;
    if 1 <= n <= |s| {
      var w := s[..n];
      assert w[0] == s[0];
      NumbersLead(s, n);
      WithoutIs(w, WithoutUnderscores(w));
      if t.Num? { WithoutIs(w, t.text); }
      DigitIsNoName(w);
      if n < |s| {
        NumbersLead(s, n + 1);
        assert w + [s[n]] == s[..n + 1];
      }
      if Lexeme(w, t, isDecimal) { LexemeStarts(w, t, isDecimal); }
    }
    NumbersLead(s, 1);
    SomeNumber(s);
  }

  lemma SomeNumber(s: string)
    requires s != "" && IsDigit(s[0])
    ensures NumberLength(s) >= 1
  {
    RunReaches(s, IsNumberChar, 1);
  }

  lemma DigitIsNoName(w: string)
    requires w != "" && IsDigit(w[0])
    ensures !IsName(w) && w !in SINGLES && w !in PAIRS && w !in KEYWORDS
  {
    AllCharacters();
    hide NameTail, InText, Latin;
  }

  lemma StrLeads(s: string, t: Token, n: int, isDecimal: string -> bool)
    requires s != "" && (s[0] == '\'' || s[0] == '"')
    ensures First(s, isDecimal) == Some((t, n)) <==> Leads(s, t, n, isDecimal)
  {
    hide Means, Quoted, IsNumber, Without, InText, Latin, NameTail;
    assert !IsDigit(s[0]) && !IsNameStart(s[0]);
    if t.Str? {
      QuotedIs(s[1..], s[0], t.text, n - 1);
      if 2 <= n <= |s| {
        assert s[..n][1..n - 1] == s[1..][..n - 2] && s[..n][n - 1] == s[n - 1] == s[1..][n - 2];
        QuoteIsNoOther(s[..n]);
      }
    }
    if 1 <= n <= |s| && Lexeme(s[..n], t, isDecimal) {
      LexemeStarts(s[..n], t, isDecimal);
    }
  }

  lemma QuoteIsNoOther(w: string)
    requires w != "" && (w[0] == '\'' || w[0] == '"')
    ensures !IsName(w) && !IsNumber(w) && w !in SINGLES
  {
    AllCharacters();
    hide NameTail, InText, Latin;
  }

  lemma WordLeads(s: string, t: Token, n: int, isDecimal: string -> bool)
    requires s != "" && IsNameStart(s[0])
    ensures First(s, isDecimal) == Some((t, n)) <==> Leads(s, t, n, isDecimal)
  {
    hide Means, IsNumber, Without, InText, Latin, NameTail, IsNameChar;
    assert !IsDigit(s[0]) && s[0] != '\'' && s[0] != '"';
    NameRuns(s);
    if 1 <= n <= |s| {
      var w := s[..n];
      NamesLead(s, n);
      WordIs(w, t, isDecimal);
      NameIsNoOther(w);
    }
  }

  lemma NameRuns(s: string)
    requires s != "" && IsNameStart(s[0])
    ensures Run(s, IsNameChar) >= 1
  {
    RunReaches(s, IsNameChar, 1);
  }

  lemma NameIsNoOther(w: string)
    requires w != "" && IsNameStart(w[0])
    ensures !IsNumber(w) && w !in SINGLES
  {
    AllCharacters();
    hide NameTail, InText, Latin;
  }

  /** A word is written for a keyword's token, or for its name. */
  lemma WordIs(w: string, t: Token, isDecimal: string -> bool)
    requires w != "" && IsNameStart(w[0])
    ensures Lexeme(w, t, isDecimal) <==> IsName(w) && t == Word(w)
  {
    KeywordsAreNames();
    NameIsNoOther(w);
    hide InText, Latin, NameTail, Without, Means, IsNumber, IsName;
    assert w[0] != '\'' && w[0] != '"';
  }

  lemma KeywordsAreNames()
    ensures IsName("true") && IsName("false") && IsName("null") && IsName("nil")
  {
  }

  lemma MarkIs(w: string, t: Token, isDecimal: string -> bool)
    requires w != "" && !IsDigit(w[0]) && !IsNameStart(w[0]) && w[0] != '\'' && w[0] != '"'
    ensures Lexeme(w, t, isDecimal) <==>
            || (IsPair(w) && t == Op(w))
            || (|w| == 1 && IsSingle(w[0]) && t == Op(w))
            || (|w| == 1 && Punctuation(w[0]) == Some(t))
  {
    hide InText, Latin, NameTail, Without, Means;
    MarkIsNoOther(w);
    Marks(w);
  }

  lemma Marks(w: string)
    ensures w in PAIRS <==> IsPair(w)
    ensures w in SINGLES <==> |w| == 1 && IsSingle(w[0])
    ensures IsPair(w) ==> |w| == 2
  {
    assert |w| == 1 ==> w == [w[0]];
  }

  lemma MarkIsNoOther(w: string)
    requires w != "" && !IsDigit(w[0]) && !IsNameStart(w[0])
    ensures !IsName(w) && !IsNumber(w)
  {
    AllCharacters();
    hide NameTail, InText, Latin;
  }

  lemma MarksDiffer(w: string)
    requires w != ""
    ensures IsPair(w) ==> |w| == 2 && Punctuation(w[0]) == None
    ensures IsSingle(w[0]) ==> Punctuation(w[0]) == None
  {
  }

  lemma OpLeads(s: string, t: Token, n: int, isDecimal: string -> bool)
    requires s != "" && !IsDigit(s[0]) && !IsNameStart(s[0]) && s[0] != '\'' && s[0] != '"'
    ensures First(s, isDecimal) == Some((t, n)) <==> Leads(s, t, n, isDecimal)
  {
    hide Means, IsNumber, Without, InText, Latin, NameTail, IsName, Lexeme;
    if 1 <= n <= |s| {
      var w := s[..n];
      assert w[0] == s[0];
      MarkIs(w, t, isDecimal);
      MarkIsNoOther(w);
      assert n == 1 ==> w == [s[0]];
      assert n == 2 ==> w == [s[0], s[1]];
      assert n == 1 && n < |s| ==> w + [s[n]] == s[..2];
    }
    if |s| >= 2 {
      assert s[..2] == [s[0], s[1]];
      MarksDiffer(s[..2]);
    }
  }

  /** The tokenizer takes the first lexeme. */
  lemma FirstIs(s: string, t: Token, n: int, isDecimal: string -> bool)
    requires s != "" && !Blank(s[0])
    ensures First(s, isDecimal) == Some((t, n)) <==> Leads(s, t, n, isDecimal)
  {
    hide *;
    if IsDigit(s[0]) {
      NumLeads(s, t, n, isDecimal);
    } else if s[0] == '\'' || s[0] == '"' {
      StrLeads(s, t, n, isDecimal);
    } else if IsNameStart(s[0]) {
      WordLeads(s, t, n, isDecimal);
    } else {
      OpLeads(s, t, n, isDecimal);
    }
  }

  // ---------------------------------------------------------------------------------------------
  // Texts

  /** The tokenizer yields exactly the tokens that the text is written as. */
  lemma {:induction false} ScanIsLexing(s: string, ts: seq<Token>, isDecimal: string -> bool)
    ensures Scan(s, isDecimal) == Some(ts + [Eof]) <==> Lexes(s, ts, isDecimal)
    decreases |s|
  {
    hide First, Lexeme, EndsBefore, Blank;
    if s == "" {
      assert ts + [Eof] == [Eof] ==> ts == [];
    } else {
      Characters(s[0]);
      if IsBlank(s[0]) {
        ScanIsLexing(s[1..], ts, isDecimal);
      } else {
        LexingStarts(s, ts, isDecimal);
      }
    }
  }

  lemma {:induction false} LexingStarts(s: string, ts: seq<Token>, isDecimal: string -> bool)
    requires s != "" && !IsBlank(s[0]) && !Blank(s[0])
    ensures Scan(s, isDecimal) == Some(ts + [Eof]) <==> Lexes(s, ts, isDecimal)
    decreases |s|, 0
  {
    hide First, Lexeme, EndsBefore, Blank, IsBlank;
    var first := First(s, isDecimal);
    if ts == [] {
      ThenIsLonger(s, isDecimal);
    } else {
      assert ts + [Eof] == [ts[0]] + (ts[1..] + [Eof]);
      if first.Some? {
        var n := first.value.1;
        FirstIs(s, first.value.0, n, isDecimal);
        ScanIsLexing(s[n..], ts[1..], isDecimal);
        var more := Scan(s[n..], isDecimal);
        if more.Some? { ConsIsInjective(first.value.0, more.value, ts[0], ts[1..] + [Eof]); }
        assert Leads(s, ts[0], n, isDecimal) && Lexes(s[n..], ts[1..], isDecimal) ==> LexesAt(s, ts, n, isDecimal);
      }
      if Lexes(s, ts, isDecimal) {
        var n := LexesOn(s, ts, isDecimal);
        FirstIs(s, ts[0], n, isDecimal);
      }
    }
  }

  lemma LexesOn(s: string, ts: seq<Token>, isDecimal: string -> bool) returns (n: int)
    requires Lexes(s, ts, isDecimal) && s != "" && !Blank(s[0])
    ensures ts != [] && Leads(s, ts[0], n, isDecimal) && Lexes(s[n..], ts[1..], isDecimal)
  {
    hide Lexeme, EndsBefore, Blank;
    assert ts != [] && exists n :: LexesAt(s, ts, n, isDecimal);
    n :| LexesAt(s, ts, n, isDecimal);
  }

  lemma ConsIsInjective(t: Token, ts: seq<Token>, u: Token, us: seq<Token>)
    ensures [t] + ts == [u] + us <==> t == u && ts == us
  {
    assert ([t] + ts)[1..] == ts && ([u] + us)[1..] == us;
    assert ([t] + ts)[0] == t && ([u] + us)[0] == u;
  }

  lemma {:induction false} ScanIsNotEmpty(s: string, isDecimal: string -> bool)
    ensures Scan(s, isDecimal).Some? ==> |Scan(s, isDecimal).value| >= 1
    decreases |s|
  {
    hide First;
    if s != "" {
      if IsBlank(s[0]) {
        ScanIsNotEmpty(s[1..], isDecimal);
      }
    }
  }

  lemma ThenIsLonger(s: string, isDecimal: string -> bool)
    requires s != "" && !IsBlank(s[0])
    ensures Scan(s, isDecimal) != Some([Eof]) && Scan(s, isDecimal) != Some([] + [Eof])
  {
    hide First, IsBlank;
    var first := First(s, isDecimal);
    assert [] + [Eof] == [Eof];
    if first.Some? {
      ScanIsNotEmpty(s[first.value.1..], isDecimal);
    }
  }

  lemma {:induction false} ScanEndsOnce(s: string, isDecimal: string -> bool)
    requires Scan(s, isDecimal).Some?
    ensures var ts := Scan(s, isDecimal).value; ts != [] && ts[|ts| - 1] == Eof && Eof !in ts[..|ts| - 1]
    decreases |s|
  {
    hide First;
    if s != "" {
      if IsBlank(s[0]) {
        ScanEndsOnce(s[1..], isDecimal);
      } else {
        var first := First(s, isDecimal).value;
        var more := Scan(s[first.1..], isDecimal).value;
        ScanEndsOnce(s[first.1..], isDecimal);
        FirstIsNoEnd(s, isDecimal);
        assert ([first.0] + more)[..|more|] == [first.0] + more[..|more| - 1];
      }
    }
  }

  lemma FirstIsNoEnd(s: string, isDecimal: string -> bool)
    requires s != "" && First(s, isDecimal).Some?
    ensures First(s, isDecimal).value.0 != Eof
  {
    hide NumberLength, Quoted, Run;
  }

  /** A text means an expression exactly if it is written as tokens that the grammar derives it from. */
  lemma ReadIsGrammar(text: string, e: Expr, isDecimal: string -> bool)
    ensures Read(text, isDecimal) == Some(e) <==> exists ts :: Lexes(text, ts, isDecimal) && Derives(0, ts, e)
  {
    hide Scan, Parse, Lexes, Derives;
    if Read(text, isDecimal) == Some(e) {
      var all := Scan(text, isDecimal).value;
      ScanEndsOnce(text, isDecimal);
      var ts := all[..|all| - 1];
      assert all == ts + [Eof];
      ScanIsLexing(text, ts, isDecimal);
      ParseIsGrammar(ts, e);
    }
    if ts :| Lexes(text, ts, isDecimal) && Derives(0, ts, e) {
      ScanIsLexing(text, ts, isDecimal);
      ScanEndsOnce(text, isDecimal);
      assert (ts + [Eof])[..|ts|] == ts;
      ParseIsGrammar(ts, e);
    }
  }
}
