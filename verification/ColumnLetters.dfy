/** Spreadsheet column letters: bijective base 26 over `A`..`Z`. */
module ColumnLetters {

  function LetterOf(k: int): char
    requires 0 <= k < 26
  {
    (65 + k) as char
  }

  /** Letters of a zero-based column index; a negative index gives a single letter. */
  function Letters(n: int): (s: string)
    ensures s != "" && AllLetters(s)
    decreases if n < 0 then 0 else n
  {
    (if n < 26 then "" else Letters(n / 26 - 1)) + [LetterOf(n % 26)]
  }

  method ColLetter(colIdx: int) returns (s: string)
    ensures s == Letters(colIdx)
  {
    s := "";
    var n := colIdx;
    while true
      invariant Letters(colIdx) == Letters(n) + s
      decreases n
    {
      var rest := s;
      s := [LetterOf(n % 26)] + s;
      n := n / 26 - 1;
      if n < 0 {
        break;
      }
      assert Letters(n) + [s[0]] + rest == Letters(n) + s;
    }
  }

  predicate AllLetters(s: string) {
    forall i :: 0 <= i < |s| ==> 'A' <= s[i] <= 'Z'
  }

  /** Reads letters back: 26 times the columns before the prefix's successor, plus the last letter. */
  function Index(s: string): (n: nat)
    requires s != "" && AllLetters(s)
  {
    var last := s[|s| - 1] as int - 65;
    if |s| == 1 then last else 26 * (Index(s[..|s| - 1]) + 1) + last
  }

  lemma {:induction false} IndexOfLetters(n: nat)
    ensures Index(Letters(n)) == n
  {
    var s := Letters(n);
    if n >= 26 {
      IndexOfLetters(n / 26 - 1);
      assert s[..|s| - 1] == Letters(n / 26 - 1);
    }
  }

  lemma LettersStep(k: nat, last: int)
    requires 0 <= last < 26
    ensures Letters(26 * (k + 1) + last) == Letters(k) + [LetterOf(last)]
  {
    var n := 26 * (k + 1) + last;
    assert n / 26 == k + 1 && n % 26 == last;
  }

  lemma {:induction false} LettersOfIndex(s: string)
    requires s != "" && AllLetters(s)
    ensures Letters(Index(s)) == s
  {
    hide Letters;
    var init, last := s[..|s| - 1], s[|s| - 1] as int - 65;
    assert s == init + [LetterOf(last)];
    if |s| > 1 {
      LettersOfIndex(init);
      LettersStep(Index(init), last);
    } else {
      OneLetter(last);
    }
  }

  lemma OneLetter(last: int)
    requires 0 <= last < 26
    ensures Letters(last) == [LetterOf(last)]
  {
    assert last % 26 == last;
    assert "" + [LetterOf(last)] == [LetterOf(last)];
  }

  /** Shorter first; among equal lengths, alphabetical. */
  predicate Shortlex(s: string, t: string) {
    |s| < |t| || (|s| == |t| && Alphabetical(s, t))
  }

  /** The first difference decides. */
  predicate Alphabetical(s: string, t: string) {
    s != "" && t != "" && (s[0] < t[0] || (s[0] == t[0] && Alphabetical(s[1..], t[1..])))
  }

  lemma {:induction false} AlphabeticalByInit(a: string, b: string, x: char, y: char)
    requires |a| == |b|
    ensures Alphabetical(a + [x], b + [y]) <==> Alphabetical(a, b) || (a == b && x < y)
  {
    if a != "" {
      AlphabeticalByInit(a[1..], b[1..], x, y);
      assert (a + [x])[1..] == a[1..] + [x] && (b + [y])[1..] == b[1..] + [y];
      assert a == [a[0]] + a[1..] && b == [b[0]] + b[1..];
    } else {
      assert a + [x] == [x] && b + [y] == [y];
    }
  }

  /** The letters before the last. */
  function Stem(n: nat): string {
    if n < 26 then "" else Letters(n / 26 - 1)
  }

  lemma LettersFromStem(n: nat)
    ensures Letters(n) == Stem(n) + [LetterOf(n % 26)]
  {
  }

  /** Columns are ordered as their letters are, in both directions. */
  lemma {:induction false} LettersAreOrdered(m: nat, n: nat)
    ensures m < n <==> Shortlex(Letters(m), Letters(n))
    decreases m + n, 1
  {
    hide Letters, Alphabetical;
    LettersFromStem(m);
    LettersFromStem(n);
    StemsAreOrdered(m, n);
    var a, b := Stem(m), Stem(n);
    if |a| == |b| {
      AlphabeticalByInit(a, b, LetterOf(m % 26), LetterOf(n % 26));
    }
  }

  lemma {:induction false} StemsAreOrdered(m: nat, n: nat)
    ensures m / 26 < n / 26 <==> Shortlex(Stem(m), Stem(n))
    ensures m / 26 == n / 26 <==> Stem(m) == Stem(n)
    decreases m + n, 0
  {
    hide Letters, Alphabetical;
    if m >= 26 && n >= 26 {
      LettersAreOrdered(m / 26 - 1, n / 26 - 1);
      IndexOfLetters(m / 26 - 1);
      IndexOfLetters(n / 26 - 1);
    } else {
      NotBeforeNothing(Stem(m));
    }
  }

  lemma NotBeforeNothing(s: string)
    ensures !Alphabetical(s, "")
  {
  }
}
