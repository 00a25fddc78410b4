/** The tokenizer of the formula language, and the spelling of tokens. */
module CelTokens {
  import opened CelGrammar
  import opened Wrappers

  // ---------------------------------------------------------------------------------------------
  // Scanning

  predicate IsDigit(c: char) {
    '0' <= c <= '9'
  }

  predicate IsNumberChar(c: char) {
    IsDigit(c) || c == '.' || c == '_'
  }

  predicate IsNameStart(c: char) {
    'a' <= c <= 'z' || 'A' <= c <= 'Z' || c == '_'
  }

  predicate IsNameChar(c: char) {
    IsNameStart(c) || IsDigit(c) || c == '.'
  }

  predicate IsBlank(c: char) {
    c == ' ' || c == '\t' || c == '\n' || c == '\r'
  }

  /** How many characters `s` begins with that satisfy `p`. */
  function Run(s: string, p: char -> bool): (k: nat)
    ensures k <= |s|
    ensures forall i :: 0 <= i < k ==> p(s[i])
    ensures k < |s| ==> !p(s[k])
  {
    if s != "" && p(s[0]) then 1 + Run(s[1..], p) else 0
  }

  /** Digits, dots and underscores, then an exponent if a letter `e` follows. */
  function NumberLength(s: string): (n: nat)
    ensures n <= |s|
  {
    var j := Run(s, IsNumberChar);
    if j < |s| && (s[j] == 'e' || s[j] == 'E') then
      var k := if j + 1 < |s| && (s[j + 1] == '+' || s[j + 1] == '-') then j + 2 else j + 1;
      k + Run(s[k..], IsDigit)
    else j
  }

  function Kept(c: char): string {
    if c == '_' then "" else [c]
  }

  function WithoutUnderscores(s: string): string {
    if s == "" then "" else Kept(s[0]) + WithoutUnderscores(s[1..])
  }

  /** A text read from `n` characters, in front of what is read behind them. */
  function Behind(text: string, n: nat, more: Option<(string, int)>): (r: Option<(string, int)>)
    ensures r.Some? ==> more.Some? && r.value.1 == n + more.value.1
  {
    match more case None => None case Some(m) => Some((text + m.0, n + m.1))
  }

  lemma BehindTwice(a: string, m: nat, b: string, n: nat, more: Option<(string, int)>)
    ensures Behind(a, m, Behind(b, n, more)) == Behind(a + b, m + n, more)
    ensures Behind("", 0, more) == more
  {
    if more.Some? {
      assert a + (b + more.value.0) == a + b + more.value.0;
      assert "" + more.value.0 == more.value.0;
    }
  }

  /** The text up to the closing quote, a backslash making the next character plain, and how much of
      `s` that takes. */
  function Quoted(s: string, quote: char): (r: Option<(string, int)>)
    ensures r.Some? ==> 1 <= r.value.1 <= |s|
  {
    if s == "" then None
    else if s[0] == quote then Some(("", 1))
    else
      var taken := if s[0] == '\\' && |s| > 1 then 2 else 1;
      Behind([s[taken - 1]], taken, Quoted(s[taken..], quote))
  }

  function Word(name: string): Token {
    if name == "true" then Bool(true)
    else if name == "false" then Bool(false)
    else if name == "null" || name == "nil" then Nil
    else Ident(name)
  }

  predicate IsPair(s: string) {
    s == "==" || s == "!=" || s == "<=" || s == ">=" || s == "&&" || s == "||"
  }

  predicate IsSingle(c: char) {
    c == '+' || c == '-' || c == '*' || c == '/' || c == '%' || c == '<' || c == '>' || c == '!'
  }

  function Punctuation(c: char): Option<Token> {
    match c
    case '(' => Some(LParen)
    case ')' => Some(RParen)
    case ',' => Some(Comma)
    case '?' => Some(QMark)
    case ':' => Some(Colon)
    case _ => None
  }

  /** The first token of a text and how many characters it takes; an exception is `None`. */
  function First(s: string, isDecimal: string -> bool): (r: Option<(Token, int)>)
    requires s != ""
    ensures r.Some? ==> 1 <= r.value.1 <= |s|
  {
    var c := s[0];
    if IsDigit(c) then
      var n := NumberLength(s);
      if isDecimal(WithoutUnderscores(s[..n])) then Some((Num(WithoutUnderscores(s[..n])), n)) else None
    else if c == '\'' || c == '"' then
      match Quoted(s[1..], c)
      case None => None
      case Some(r) => Some((Str(r.0), 1 + r.1))
    else if IsNameStart(c) then
      var n := Run(s, IsNameChar);
      Some((Word(s[..n]), n))
    else if |s| >= 2 && IsPair(s[..2]) then Some((Op(s[..2]), 2))
    else if IsSingle(c) then Some((Op([c]), 1))
    else
      match Punctuation(c) case None => None case Some(t) => Some((t, 1))
  }

  function Then(ts: seq<Token>, more: Option<seq<Token>>): Option<seq<Token>> {
    match more case None => None case Some(us) => Some(ts + us)
  }

  /** The tokens of a text, ended by `Eof`. `isDecimal` says which texts make a decimal number. */
  function Scan(s: string, isDecimal: string -> bool): Option<seq<Token>>
    decreases |s|
  {
    if s == "" then Some([Eof])
    else if IsBlank(s[0]) then Scan(s[1..], isDecimal)
    else
      match First(s, isDecimal)
      case None => None
      case Some(r) => Then([r.0], Scan(s[r.1..], isDecimal))
  }

  // ---------------------------------------------------------------------------------------------
  // The tokenizer

  /** Moves on while the characters satisfy `p`. */
  method RunEnd(src: string, start: nat, p: char -> bool) returns (j: nat)
    requires start <= |src|
    ensures j == start + Run(src[start..], p)
  {
    j := start;
    while j < |src| && p(src[j])
      invariant start <= j <= |src|
      invariant start + Run(src[start..], p) == j + Run(src[j..], p)
    {
      assert src[j..][1..] == src[j + 1..];
      j := j + 1;
    }
  }

  /** The end of the number at `i`. */
  method NumberEnd(src: string, i: nat) returns (j: nat)
    requires i <= |src|
    ensures j == i + NumberLength(src[i..])
  {
    hide Run;
    j := RunEnd(src, i, IsNumberChar);
    if j < |src| && (src[j] == 'e' || src[j] == 'E') {
      j := j + 1;
      if j < |src| && (src[j] == '+' || src[j] == '-') { j := j + 1; }
      assert src[i..][j - i..] == src[j..];
      j := RunEnd(src, j, IsDigit);
    }
  }

  /** One character of a quoted text, or two with a backslash. */
  lemma QuotedStep(s: string, quote: char)
    ensures s == "" ==> Quoted(s, quote) == None
    ensures s != "" && s[0] == quote ==> Quoted(s, quote) == Some(("", 1))
    ensures s != "" && s[0] != quote ==>
              var taken := if s[0] == '\\' && |s| > 1 then 2 else 1;
              Quoted(s, quote) == Behind([s[taken - 1]], taken, Quoted(s[taken..], quote))
  {
  }

  /** The string that starts behind the quote at `i`, and the position behind its closing quote. */
  method QuotedEnd(src: string, i: nat) returns (text: string, end: nat, closed: bool)
    requires i < |src|
    ensures var spec := Quoted(src[i + 1..], src[i]);
            if closed then spec == Some((text, end - i - 1)) && i < end <= |src| else spec == None
  {
    hide Quoted, Behind;
    var quote := src[i];
    var j := i + 1;
    text := "";
    BehindTwice("", 0, "", 0, Quoted(src[j..], quote));
    while j < |src| && src[j] != quote
      invariant i < j <= |src|
      invariant Quoted(src[i + 1..], quote) == Behind(text, j - i - 1, Quoted(src[j..], quote))
    {
      var taken := if src[j] == '\\' && j + 1 < |src| then 2 else 1;
      assert src[j..][taken..] == src[j + taken..] && src[j..][taken - 1] == src[j + taken - 1];
      QuotedStep(src[j..], quote);
      BehindTwice(text, j - i - 1, [src[j + taken - 1]], taken, Quoted(src[j + taken..], quote));
      text := text + [src[j + taken - 1]];
      j := j + taken;
    }
    closed, end := j < |src|, j + 1;
    QuotedStep(src[j..], quote);
    BehindEnd(text, j - i - 1);
  }

  lemma BehindEnd(text: string, n: nat)
    ensures Behind(text, n, Some(("", 1))) == Some((text, n + 1)) && Behind(text, n, None) == None
  {
    assert text + "" == text;
  }

  /** The token at `i`, where no blank is, and the position behind it. */
  method TokenAt(src: string, i: nat, isDecimal: string -> bool) returns (tok: Option<Token>, j: nat)
    requires i < |src|
    ensures match First(src[i..], isDecimal) case None => tok == None case Some(r) => tok == Some(r.0) && j == i + r.1
  {
    hide NumberLength, Quoted, Run, WithoutUnderscores, Word, Punctuation;
    var c := src[i];
    ghost var s := src[i..];
    j := i;
    assert i + 2 <= |src| ==> s[..2] == src[i..i + 2];
    if IsDigit(c) {
      j := NumberEnd(src, i);
      assert s[..j - i] == src[i..j];
      var text := WithoutUnderscores(src[i..j]);
      return if isDecimal(text) then Some(Num(text)) else None, j;
    }
    if c == '\'' || c == '"' {
      var text, end, closed := QuotedEnd(src, i);
      assert s[1..] == src[i + 1..];
      return if closed then Some(Str(text)) else None, end;
    }
    if IsNameStart(c) {
      j := RunEnd(src, i, IsNameChar);
      assert s[..j - i] == src[i..j];
      return Some(Word(src[i..j])), j;
    }
    if i + 2 <= |src| && IsPair(src[i..i + 2]) { return Some(Op(src[i..i + 2])), i + 2; }
    if IsSingle(c) { return Some(Op([c])), i + 1; }
    return Punctuation(c), i + 1;
  }

  method Tokenize(src: string, isDecimal: string -> bool) returns (out: Option<seq<Token>>)
    ensures out == Scan(src, isDecimal)
  {
    hide First, Scan;
    var toks: seq<Token> := [];
    var i := 0;
    assert src[0..] == src;
    ThenNothing(Scan(src, isDecimal));
    while i < |src|
      invariant 0 <= i <= |src|
      invariant Scan(src, isDecimal) == Then(toks, Scan(src[i..], isDecimal))
      decreases |src| - i
    {
      ScanStep(src[i..], isDecimal);
      if IsBlank(src[i]) {
        assert src[i..][1..] == src[i + 1..];
        i := i + 1;
        continue;
      }
      var tok, j := TokenAt(src, i, isDecimal);
      if tok == None { return None; }
      assert src[i..][j - i..] == src[j..];
      ThenTwice(toks, [tok.value], Scan(src[j..], isDecimal));
      toks := toks + [tok.value];
      i := j;
    }
    ScanStep(src[i..], isDecimal);
    return Some(toks + [Eof]);
  }

  /** One step of the scan. */
  lemma ScanStep(s: string, isDecimal: string -> bool)
    ensures s == "" ==> Scan(s, isDecimal) == Some([Eof])
    ensures s != "" && IsBlank(s[0]) ==> Scan(s, isDecimal) == Scan(s[1..], isDecimal)
    ensures s != "" && !IsBlank(s[0]) ==>
              Scan(s, isDecimal)
                == match First(s, isDecimal) case None => None case Some(r) => Then([r.0], Scan(s[r.1..], isDecimal))
  {
    hide First;
  }

  lemma ThenTwice(a: seq<Token>, b: seq<Token>, more: Option<seq<Token>>)
    ensures Then(a, Then(b, more)) == Then(a + b, more)
  {
    if more.Some? {
      assert a + (b + more.value) == a + b + more.value;
    }
  }

  lemma ThenNothing(more: Option<seq<Token>>)
    ensures Then([], more) == more
  {
    if more.Some? {
      assert [] + more.value == more.value;
    }
  }
}
