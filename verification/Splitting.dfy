/** `split` and `join` of JavaScript strings. */
module Splitting {

  predicate HasPrefix(s: string, p: string) {
    |p| <= |s| && s[..|p|] == p
  }

  /** Does `sep` occur somewhere in `s`? */
  predicate Occurs(sep: string, s: string) {
    HasPrefix(s, sep) || (s != "" && Occurs(sep, s[1..]))
  }

  /** `s.split(sep)`: cut at the leftmost occurrence, then on from behind it. */
  function Split(s: string, sep: string): (r: seq<string>)
    requires sep != ""
    ensures |r| >= 1
  {
    if |s| < |sep| then [s]
    else if HasPrefix(s, sep) then [""] + Split(s[|sep|..], sep)
    else Grow(s[0], Split(s[1..], sep))
  }

  /** The pieces with one more character in front. */
  function Grow(c: char, pieces: seq<string>): (r: seq<string>)
    requires pieces != []
    ensures |r| == |pieces|
  {
    [[c] + pieces[0]] + pieces[1..]
  }

  function Join(pieces: seq<string>, sep: string): string {
    if pieces == [] then ""
    else if |pieces| == 1 then pieces[0]
    else pieces[0] + sep + Join(pieces[1..], sep)
  }

  function Init<T>(xs: seq<T>): seq<T>
    requires xs != []
  {
    xs[..|xs| - 1]
  }

  function Last<T>(xs: seq<T>): T
    requires xs != []
  {
    xs[|xs| - 1]
  }

  lemma SplitHit(rest: string, sep: string)
    requires sep != ""
    ensures Split(sep + rest, sep) == [""] + Split(rest, sep)
  {
    assert (sep + rest)[|sep|..] == rest;
    assert HasPrefix(sep + rest, sep);
  }

  lemma SplitMiss(c: char, rest: string, sep: string)
    requires 1 <= |sep| <= 1 + |rest| && !HasPrefix([c] + rest, sep)
    ensures Split([c] + rest, sep) == Grow(c, Split(rest, sep))
  {
    assert ([c] + rest)[1..] == rest;
  }

  lemma JoinGrown(c: char, pieces: seq<string>, sep: string)
    requires pieces != []
    ensures Join(Grow(c, pieces), sep) == [c] + Join(pieces, sep)
  {
    var r := Grow(c, pieces);
    assert r[1..] == pieces[1..];
    if |pieces| > 1 {
      assert [c] + pieces[0] + sep + Join(pieces[1..], sep) == [c] + (pieces[0] + sep + Join(pieces[1..], sep));
    }
  }

  lemma GrowExtends(c: char, pieces: seq<string>, more: seq<string>)
    requires |pieces| >= 2
    ensures Grow(c, Init(pieces) + more) == Init(Grow(c, pieces)) + more
    ensures Last(Grow(c, pieces)) == Last(pieces)
  {
  }

  lemma {:induction false} JoinUndoesSplit(s: string, sep: string)
    requires sep != ""
    ensures Join(Split(s, sep), sep) == s
  {
    if |s| < |sep| {
    } else if HasPrefix(s, sep) {
      var rest := s[|sep|..];
      JoinUndoesSplit(rest, sep);
      assert ([""] + Split(rest, sep))[1..] == Split(rest, sep);
      assert s == sep + rest;
      assert Join([""] + Split(rest, sep), sep) == "" + sep + Join(Split(rest, sep), sep);
    } else {
      JoinUndoesSplit(s[1..], sep);
      JoinGrown(s[0], Split(s[1..], sep), sep);
    }
  }

  lemma PrefixGrows(s: string, p: string)
    requires s != "" && HasPrefix(s[1..], p)
    ensures HasPrefix(s, [s[0]] + p)
  {
    assert s == [s[0]] + s[1..];
  }

  lemma {:induction false} FirstPieceIsPrefix(s: string, sep: string)
    requires sep != ""
    ensures HasPrefix(s, Split(s, sep)[0])
    ensures |Split(s, sep)| > 1 ==> HasPrefix(s, Split(s, sep)[0] + sep)
  {
    if |s| >= |sep| && !HasPrefix(s, sep) {
      FirstPieceIsPrefix(s[1..], sep);
      var p := Split(s[1..], sep)[0];
      assert s == [s[0]] + s[1..];
      SplitMiss(s[0], s[1..], sep);
      hide Split, HasPrefix;
      PrefixGrows(s, p);
      if |Split(s, sep)| > 1 {
        PrefixGrows(s, p + sep);
        assert [s[0]] + p + sep == [s[0]] + (p + sep);
      }
    }
  }

  lemma TooShortToOccur(sep: string, s: string)
    requires |s| < |sep|
    ensures !Occurs(sep, s)
  {
  }

  /** In a text where `sep` follows `p`, it does not occur earlier. */
  predicate LeftmostCut(p: string, sep: string)
    requires sep != ""
  {
    !Occurs(sep, p + sep[..|sep| - 1])
  }

  /** The last piece does not contain the separator, and none before it reaches into one early. */
  ghost predicate CleanPieces(pieces: seq<string>, sep: string)
    requires sep != ""
  {
    && pieces != []
    && !Occurs(sep, Last(pieces))
    && forall i :: 0 <= i < |pieces| - 1 ==> LeftmostCut(pieces[i], sep)
  }

  lemma CleanWithout(c: char, p: string, s: string, sep: string)
    requires sep != "" && s != "" && !HasPrefix(s, sep) && HasPrefix(s, [c] + p) && !Occurs(sep, p)
    ensures !Occurs(sep, [c] + p)
  {
    assert ([c] + p)[1..] == p;
    if |sep| <= |[c] + p| {
      assert ([c] + p)[..|sep|] == s[..|[c] + p|][..|sep|] == s[..|sep|];
    }
  }

  /** A character in front of a first cut that stays the leftmost. */
  lemma CutStaysLeftmost(c: char, p: string, s: string, sep: string)
    requires sep != "" && s != "" && !HasPrefix(s, sep) && HasPrefix(s, [c] + p + sep) && LeftmostCut(p, sep)
    ensures LeftmostCut([c] + p, sep)
  {
    var tail := sep[..|sep| - 1];
    assert s[..|[c] + (p + tail)|] == s[..|[c] + p + sep|][..|[c] + (p + tail)|] == [c] + (p + tail);
    CleanWithout(c, p + tail, s, sep);
    assert [c] + (p + tail) == [c] + p + tail;
  }

  lemma GrownIsClean(s: string, pieces: seq<string>, sep: string)
    requires sep != "" && s != "" && !HasPrefix(s, sep) && CleanPieces(pieces, sep)
    requires HasPrefix(s, [s[0]] + pieces[0]) && (|pieces| > 1 ==> HasPrefix(s, [s[0]] + pieces[0] + sep))
    ensures CleanPieces(Grow(s[0], pieces), sep)
  {
    hide Occurs, HasPrefix, LeftmostCut;
    if |pieces| == 1 {
      CleanWithout(s[0], pieces[0], s, sep);
    } else {
      CutStaysLeftmost(s[0], pieces[0], s, sep);
    }
  }

  /** Splitting yields clean pieces ... */
  lemma {:induction false} PiecesAreClean(s: string, sep: string)
    requires sep != ""
    ensures CleanPieces(Split(s, sep), sep)
  {
    if |s| < |sep| {
      TooShortToOccur(sep, s);
    } else if HasPrefix(s, sep) {
      PiecesAreClean(s[|sep|..], sep);
      TooShortToOccur(sep, "" + sep[..|sep| - 1]);
    } else {
      PiecesAreClean(s[1..], sep);
      FirstPieceIsPrefix(s, sep);
      assert s == [s[0]] + s[1..];
      SplitMiss(s[0], s[1..], sep);
      hide *;
      GrownMissIsClean(s, sep);
    }
  }

  lemma GrownMissIsClean(s: string, sep: string)
    requires sep != "" && |s| >= |sep| && !HasPrefix(s, sep) && CleanPieces(Split(s[1..], sep), sep)
    requires Split(s, sep) == Grow(s[0], Split(s[1..], sep))
    requires HasPrefix(s, Split(s, sep)[0]) && (|Split(s, sep)| > 1 ==> HasPrefix(s, Split(s, sep)[0] + sep))
    ensures CleanPieces(Split(s, sep), sep)
  {
    hide Split, CleanPieces, HasPrefix;
    GrownIsClean(s, Split(s[1..], sep), sep);
  }

  lemma {:induction false} CutAtFirst(p: string, rest: string, sep: string)
    requires sep != "" && LeftmostCut(p, sep)
    ensures Split(p + sep + rest, sep) == [p] + Split(rest, sep)
  {
    if p == "" {
      SplitHit(rest, sep);
      assert "" + sep + rest == sep + rest;
    } else {
      var tail := sep[..|sep| - 1];
      assert (p + tail)[1..] == p[1..] + tail;
      CutAtFirst(p[1..], rest, sep);
      assert p + sep + rest == [p[0]] + (p[1..] + sep + rest);
      assert (p + sep + rest)[..|sep|] == (p + tail)[..|sep|];
      SplitMiss(p[0], p[1..] + sep + rest, sep);
      assert [p[0]] + p[1..] == p;
      assert Grow(p[0], [p[1..]] + Split(rest, sep)) == [p] + Split(rest, sep);
    }
  }

  /** ... and they are the only clean pieces that join to the text. */
  lemma {:induction false} SplitUndoesJoin(pieces: seq<string>, sep: string)
    requires sep != "" && CleanPieces(pieces, sep)
    ensures Split(Join(pieces, sep), sep) == pieces
  {
    if |pieces| == 1 {
      CleanIsWhole(pieces[0], sep);
    } else {
      SplitUndoesJoin(pieces[1..], sep);
      CutAtFirst(pieces[0], Join(pieces[1..], sep), sep);
    }
  }

  /** Splitting what came first never has to be redone: more text only extends the last piece. */
  lemma {:induction false} SplitExtends(s: string, more: string, sep: string)
    requires sep != ""
    ensures Split(s + more, sep) == Init(Split(s, sep)) + Split(Last(Split(s, sep)) + more, sep)
    decreases |s|, 1
  {
    if |s| < |sep| {
      assert Init(Split(s, sep)) == [] && Last(Split(s, sep)) == s;
    } else if HasPrefix(s, sep) {
      ExtendHit(s[|sep|..], more, sep);
      assert s == sep + s[|sep|..];
    } else {
      ExtendMiss(s[0], s[1..], more, sep);
      assert s == [s[0]] + s[1..];
    }
  }

  lemma {:induction false} ExtendHit(rest: string, more: string, sep: string)
    requires sep != ""
    ensures Split(sep + rest + more, sep)
         == Init(Split(sep + rest, sep)) + Split(Last(Split(sep + rest, sep)) + more, sep)
    decreases |sep + rest|, 0
  {
    hide Split;
    var r := Split(rest, sep);
    SplitExtends(rest, more, sep);
    SplitHit(rest, sep);
    SplitHit(rest + more, sep);
    assert sep + rest + more == sep + (rest + more);
    assert Init([""] + r) == [""] + Init(r) && Last([""] + r) == Last(r);
    assert [""] + (Init(r) + Split(Last(r) + more, sep)) == ([""] + Init(r)) + Split(Last(r) + more, sep);
  }

  lemma {:induction false} ExtendMiss(c: char, rest: string, more: string, sep: string)
    requires 1 <= |sep| <= 1 + |rest| && !HasPrefix([c] + rest, sep)
    ensures Split([c] + rest + more, sep)
         == Init(Split([c] + rest, sep)) + Split(Last(Split([c] + rest, sep)) + more, sep)
    decreases |[c] + rest|, 0
  {
    hide Split;
    var r := Split(rest, sep);
    SplitExtends(rest, more, sep);
    SplitMiss(c, rest, sep);
    assert ([c] + rest + more)[..|sep|] == ([c] + rest)[..|sep|];
    assert [c] + rest + more == [c] + (rest + more);
    SplitMiss(c, rest + more, sep);
    if |r| == 1 {
      JoinUndoesSplit(rest, sep);
      assert r == [rest];
      assert Init(Grow(c, r)) == [] && Last(Grow(c, r)) == [c] + rest;
    } else {
      GrowExtends(c, r, Split(Last(r) + more, sep));
    }
  }

  /** A text without the separator is a single piece. */
  lemma {:induction false} CleanIsWhole(s: string, sep: string)
    requires sep != "" && !Occurs(sep, s)
    ensures Split(s, sep) == [s]
  {
    if |s| >= |sep| {
      CleanIsWhole(s[1..], sep);
      assert [s[0]] + s[1..] == s;
    }
  }

  // ---------------------------------------------------------------------------------------------
  // One-character separators

  predicate Free(s: string, c: char) {
    forall i :: 0 <= i < |s| ==> s[i] != c
  }

  lemma {:induction false} FreeIsClean(s: string, c: char)
    ensures Free(s, c) <==> !Occurs([c], s)
  {
    if s != "" {
      FreeIsClean(s[1..], c);
      assert s[..1] == [s[0]];
      assert forall i :: 0 < i < |s| ==> s[i] == s[1..][i - 1];
    }
  }

  lemma FreeCut(p: string, c: char)
    ensures LeftmostCut(p, [c]) <==> Free(p, c)
  {
    assert p + [c][..0] == p;
    FreeIsClean(p, c);
  }

  /** Pieces free of the separator come back from their join. */
  lemma FreePiecesComeBack(pieces: seq<string>, c: char)
    requires pieces != []
    requires forall i :: 0 <= i < |pieces| ==> Free(pieces[i], c)
    ensures Split(Join(pieces, [c]), [c]) == pieces
  {
    FreeIsClean(Last(pieces), c);
    forall i | 0 <= i < |pieces| - 1
      ensures LeftmostCut(pieces[i], [c])
    {
      FreeCut(pieces[i], c);
    }
    SplitUndoesJoin(pieces, [c]);
  }

  /** Splitting distributes over a separator wherever it stands. */
  lemma {:induction false} SplitConcat(a: string, c: char, b: string)
    ensures Split(a + [c] + b, [c]) == Split(a, [c]) + Split(b, [c])
  {
    hide Split;
    if a == "" {
      SplitHit(b, [c]);
      assert "" + [c] + b == [c] + b;
      EmptyIsWhole([c]);
    } else {
      var rest := a[1..];
      var r := Split(rest, [c]);
      SplitConcat(rest, c, b);
      assert a == [a[0]] + rest;
      assert a + [c] + b == [a[0]] + (rest + [c] + b);
      if a[0] == c {
        SplitHit(rest, [c]);
        SplitHit(rest + [c] + b, [c]);
        assert [""] + (r + Split(b, [c])) == ([""] + r) + Split(b, [c]);
      } else {
        SplitMiss(a[0], rest, [c]);
        SplitMiss(a[0], rest + [c] + b, [c]);
        assert Grow(a[0], r + Split(b, [c])) == Grow(a[0], r) + Split(b, [c]);
      }
    }
  }

  lemma EmptyIsWhole(sep: string)
    requires sep != ""
    ensures Split("", sep) == [""]
  {
  }

  lemma {:induction false} JoinConcat(xs: seq<string>, ys: seq<string>, sep: string)
    requires xs != [] && ys != []
    ensures Join(xs + ys, sep) == Join(xs, sep) + sep + Join(ys, sep)
  {
    assert (xs + ys)[1..] == xs[1..] + ys;
    if |xs| > 1 {
      JoinConcat(xs[1..], ys, sep);
      assert xs[0] + sep + (Join(xs[1..], sep) + sep + Join(ys, sep))
               == xs[0] + sep + Join(xs[1..], sep) + sep + Join(ys, sep);
    }
  }
}
