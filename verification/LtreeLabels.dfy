/** Labels and paths of the entity tree by their characters: what sanitizing keeps, and what is valid. */
module LtreeLabels {
  import opened Ltree
  import opened Splitting

  /** A small letter or a digit, by its code. */
  predicate IsAlphanumeric(c: char) {
    97 <= c as int <= 122 || 48 <= c as int <= 57
  }

  /** All characters of the text are letters or digits. */
  predicate Alphanumeric(s: string) {
    forall i :: 0 <= i < |s| ==> IsAlphanumeric(s[i])
  }

  /** None is. */
  predicate Separates(s: string) {
    forall i :: 0 <= i < |s| ==> !IsAlphanumeric(s[i])
  }

  lemma WordCharacters(c: char)
    ensures IsWordChar(c) <==> IsAlphanumeric(c)
  {
  }

  // ---------------------------------------------------------------------------------------------
  // What sanitizing keeps

  /** Words with separators before, between and behind them. */
  function Interleaved(seps: seq<string>, words: seq<string>): string
    requires |seps| == |words| + 1
  {
    if words == [] then seps[0] else seps[0] + (words[0] + Interleaved(seps[1..], words[1..]))
  }

  /** Words of letters and digits, apart from each other by anything else. */
  ghost predicate Apart(seps: seq<string>, words: seq<string>) {
    && |seps| == |words| + 1
    && (forall i :: 0 <= i < |words| ==> words[i] != "" && Alphanumeric(words[i]))
    && (forall i :: 0 <= i < |seps| ==> Separates(seps[i]))
    && (forall i :: 0 < i < |words| ==> seps[i] != "")
  }

  lemma {:induction false} SeparatorsVanish(sep: string, s: string)
    requires Separates(sep)
    ensures Words(sep + s) == Words(s)
  {
    hide IsWordChar, IsAlphanumeric;
    if sep == "" {
      assert sep + s == s;
    } else {
      WordCharacters(sep[0]);
      SeparatorsVanish(sep[1..], s);
      assert (sep + s)[1..] == sep[1..] + s;
      NonEmptyOfCons("", WordPieces(sep[1..] + s));
    }
  }

  lemma {:induction false} WordComesFirst(word: string, s: string)
    requires Alphanumeric(word)
    ensures WordPieces(word + s) == [word + WordPieces(s)[0]] + WordPieces(s)[1..]
  {
    hide IsWordChar, IsAlphanumeric;
    if word == "" {
      assert word + s == s && "" + WordPieces(s)[0] == WordPieces(s)[0];
    } else {
      WordCharacters(word[0]);
      WordComesFirst(word[1..], s);
      assert (word + s)[1..] == word[1..] + s && (word + s)[0] == word[0];
      assert [word[0]] + (word[1..] + WordPieces(s)[0]) == word + WordPieces(s)[0];
    }
  }

  lemma WordIsTaken(word: string, s: string)
    requires word != "" && Alphanumeric(word) && (s == "" || !IsAlphanumeric(s[0]))
    ensures Words(word + s) == [word] + Words(s)
  {
    hide IsWordChar, IsAlphanumeric;
    WordComesFirst(word, s);
    if s != "" { WordCharacters(s[0]); }
    var pieces := WordPieces(s);
    assert pieces[0] == "" && word + pieces[0] == word;
    assert pieces == [""] + pieces[1..];
    NonEmptyOfCons("", pieces[1..]);
    NonEmptyOfCons(word, pieces[1..]);
  }

  lemma {:induction false} WordsAreTheWords(seps: seq<string>, words: seq<string>)
    requires Apart(seps, words)
    ensures Words(Interleaved(seps, words)) == words
  {
    hide Words;
    if words == [] {
      SeparatorsVanish(seps[0], "");
      assert seps[0] + "" == seps[0];
      NoWords();
    } else {
      var rest := Interleaved(seps[1..], words[1..]);
      WordsAreTheWords(seps[1..], words[1..]);
      SeparatorsVanish(seps[0], words[0] + rest);
      assert rest == "" || !IsAlphanumeric(rest[0]) by { StartsApart(seps, words); }
      WordIsTaken(words[0], rest);
    }
  }

  lemma NoWords()
    ensures Words("") == []
  {
  }

  lemma StartsApart(seps: seq<string>, words: seq<string>)
    requires Apart(seps, words) && words != []
    ensures var rest := Interleaved(seps[1..], words[1..]); rest == "" || !IsAlphanumeric(rest[0])
  {
    var sep := seps[1];
    assert sep != "" ==> !IsAlphanumeric(sep[0]);
  }

  /** Sanitizing keeps the words of the lower-cased text, with one underscore between two. */
  lemma SanitizingKeepsWords(s: string, seps: seq<string>, words: seq<string>, lower: string -> string)
    requires Apart(seps, words) && lower(s) == Interleaved(seps, words)
    ensures SanitizeLabel(s, lower) == Join(words, "_")
  {
    hide SanitizeLabel, Words;
    SanitizedIsWords(s, lower);
    WordsAreTheWords(seps, words);
  }

  // ---------------------------------------------------------------------------------------------
  // What is valid

  /** A label as Postgres takes it: letters, digits and underscores. */
  predicate IsLabel(s: string) {
    s != "" && forall i :: 0 <= i < |s| ==> IsAlphanumeric(s[i]) || 65 <= s[i] as int <= 90 || s[i] == '_'
  }

  lemma SegmentIsLabel(s: string)
    ensures IsSegment(s) <==> IsLabel(s)
  {
  }

  /** Validation refuses the empty path as such, and else accepts exactly the paths made of labels with
      dots between them; it names the first piece that is none. */
  lemma ValidPathsAreLabels(path: string)
    ensures ValidatePath(path) == PathEmpty <==> path == ""
    ensures ValidatePath(path) == Valid <==>
            exists labels :: labels != [] && (forall i :: 0 <= i < |labels| ==> IsLabel(labels[i]))
              && path == Join(labels, ".")
    ensures ValidatePath(path).InvalidSegment? ==>
              exists k :: FirstOffender(Split(path, "."), k, ValidatePath(path).segment)
  {
    hide IsSegment, IsLabel, Split, Join;
    var pieces := Split(path, ".");
    forall s
      ensures IsSegment(s) <==> IsLabel(s)
    {
      SegmentIsLabel(s);
    }
    AllSegmentsAreValid(pieces);
    JoinUndoesSplit(path, ".");
    if labels :| labels != [] && (forall i :: 0 <= i < |labels| ==> IsLabel(labels[i])) && path == Join(labels, ".") {
      LabelsComeBack(labels);
    }
    if path != "" && ValidatePath(path).InvalidSegment? {
      var k := FirstOffends(pieces);
    }
  }

  lemma LabelIsFree(s: string)
    requires IsLabel(s)
    ensures Free(s, '.') && s != ""
  {
  }

  lemma LabelsComeBack(labels: seq<string>)
    requires labels != [] && forall i :: 0 <= i < |labels| ==> IsLabel(labels[i])
    ensures Split(Join(labels, "."), ".") == labels && Join(labels, ".") != ""
  {
    hide Split, Join, IsLabel, Free;
    forall i | 0 <= i < |labels|
      ensures Free(labels[i], '.') && labels[i] != ""
    {
      LabelIsFree(labels[i]);
    }
    FreePiecesComeBack(labels, '.');
    JoinIsNotEmpty(labels, ".");
  }

  /** Piece `k` is the offender, and those before it are labels. */
  ghost predicate FirstOffender(pieces: seq<string>, k: int, offender: string) {
    && 0 <= k < |pieces| && pieces[k] == offender && !IsLabel(offender)
    && forall i :: 0 <= i < k ==> IsLabel(pieces[i])
  }

  lemma {:induction false} FirstOffends(pieces: seq<string>) returns (k: int)
    requires FirstInvalid(pieces).InvalidSegment?
    ensures FirstOffender(pieces, k, FirstInvalid(pieces).segment)
  {
    hide IsSegment, IsLabel;
    SegmentIsLabel(pieces[0]);
    if IsLabel(pieces[0]) {
      var j := FirstOffends(pieces[1..]);
      k := j + 1;
    } else {
      k := 0;
    }
  }
}
