/** Dotted entity-tree paths as strings, against the sequences of labels they stand for. */
module Ltree {
  import opened Splitting
  import opened Wrappers

  datatype Appended = Path(path: string) | EmptyLabel

  datatype Validation = Valid | PathEmpty | InvalidSegment(segment: string)

  // ---------------------------------------------------------------------------------------------
  // Labels

  predicate IsWordChar(c: char) {
    'a' <= c <= 'z' || '0' <= c <= '9'
  }

  predicate IsLabelChar(c: char) {
    IsWordChar(c) || c == '_'
  }

  predicate AllLabelChars(s: string) {
    forall i :: 0 <= i < |s| ==> IsLabelChar(s[i])
  }

  /** Lower-casing leaves texts over `[a-z0-9_]` alone; elsewhere it is any function. */
  ghost predicate KeepsLabels(lower: string -> string) {
    forall s :: AllLabelChars(s) ==> lower(s) == s
  }

  /** Replaces every maximal run of characters in `p` by one underscore. */
  function ReplaceRuns(s: string, p: char -> bool): string {
    if s == "" then ""
    else if !p(s[0]) then [s[0]] + ReplaceRuns(s[1..], p)
    else if |s| > 1 && p(s[1]) then ReplaceRuns(s[1..], p)
    else "_" + ReplaceRuns(s[1..], p)
  }

  function TrimUnderscores(s: string): string {
    if s == "" then ""
    else if s[0] == '_' then TrimUnderscores(s[1..])
    else if Last(s) == '_' then TrimUnderscores(Init(s))
    else s
  }

  const NOT_LABEL: char -> bool := c => !IsLabelChar(c)
  const UNDERSCORE: char -> bool := c => c == '_'

  function SanitizeLabel(s: string, lower: string -> string): string {
    TrimUnderscores(ReplaceRuns(ReplaceRuns(lower(s), NOT_LABEL), UNDERSCORE))
  }

  /** Only `[a-z0-9_]`, with no underscore doubled or at either end. */
  predicate Canonical(s: string) {
    && AllLabelChars(s)
    && (s != "" ==> s[0] != '_' && Last(s) != '_')
    && NoDoubles(s)
  }

  predicate NoDoubles(s: string) {
    forall i :: 0 < i < |s| ==> s[i - 1] != '_' || s[i] != '_'
  }

  /** The pieces of `s` between characters outside `[a-z0-9]`. */
  function WordPieces(s: string): (r: seq<string>)
    ensures |r| >= 1
  {
    if s == "" then [""]
    else if IsWordChar(s[0]) then Grow(s[0], WordPieces(s[1..]))
    else [""] + WordPieces(s[1..])
  }

  function NonEmpty(pieces: seq<string>): seq<string> {
    if pieces == [] then []
    else (if pieces[0] == "" then [] else [pieces[0]]) + NonEmpty(pieces[1..])
  }

  /** The maximal runs of `[a-z0-9]` in `s`, in order. */
  function Words(s: string): seq<string> {
    NonEmpty(WordPieces(s))
  }

  lemma NonEmptyOfCons(x: string, xs: seq<string>)
    ensures NonEmpty([x] + xs) == (if x == "" then [] else [x]) + NonEmpty(xs)
  {
    assert ([x] + xs)[1..] == xs;
  }

  lemma {:induction false} NonEmptySplits(a: seq<string>, b: seq<string>)
    ensures NonEmpty(a + b) == NonEmpty(a) + NonEmpty(b)
  {
    if a == [] {
      assert a + b == b;
    } else {
      assert (a + b)[1..] == a[1..] + b;
      NonEmptySplits(a[1..], b);
    }
  }

  /** The same words, and the same beginning of a word that something in front may continue. */
  ghost predicate SameWords(a: string, b: string) {
    var x, y := WordPieces(a), WordPieces(b);
    x[0] == y[0] && NonEmpty(x[1..]) == NonEmpty(y[1..])
  }

  lemma SameWordsMeans(a: string, b: string)
    requires SameWords(a, b)
    ensures Words(a) == Words(b)
  {
    var x, y := WordPieces(a), WordPieces(b);
    assert x == [x[0]] + x[1..] && y == [y[0]] + y[1..];
    NonEmptyOfCons(x[0], x[1..]);
    NonEmptyOfCons(y[0], y[1..]);
  }

  lemma SameWordsBehind(c: char, a: string, b: string)
    requires SameWords(a, b)
    ensures SameWords([c] + a, [c] + b)
  {
    assert ([c] + a)[1..] == a && ([c] + b)[1..] == b;
    SameWordsMeans(a, b);
  }

  lemma {:induction false} ReplacingKeepsWords(s: string, p: char -> bool)
    requires forall c :: p(c) ==> !IsWordChar(c)
    ensures SameWords(s, ReplaceRuns(s, p))
  {
    if s != "" {
      var rest, done := s[1..], ReplaceRuns(s[1..], p);
      assert s == [s[0]] + rest;
      ReplacingKeepsWords(rest, p);
      SameWordsBehind(s[0], rest, done);
      if p(s[0]) {
        assert WordPieces(s)[1..] == WordPieces(rest);
        if |s| > 1 && p(s[1]) {
          assert WordPieces(rest)[0] == "";
          SameWordsMeans(rest, done);
          NonEmptyOfCons("", WordPieces(rest)[1..]);
          assert WordPieces(rest) == [""] + WordPieces(rest)[1..];
        } else {
          SameWordsBehind('_', rest, done);
          assert ("_" + done)[1..] == done && ("_" + rest)[1..] == rest;
          assert "_" + done == ['_'] + done;
        }
      }
    }
  }

  lemma {:induction false} WordPiecesAppend(s: string)
    ensures WordPieces(s + "_") == WordPieces(s) + [""]
  {
    if s == "" {
      assert "_"[1..] == "";
      assert s + "_" == "_";
    } else {
      assert (s + "_")[1..] == s[1..] + "_";
      WordPiecesAppend(s[1..]);
    }
  }

  lemma {:induction false} TrimmingKeepsWords(s: string)
    ensures Words(TrimUnderscores(s)) == Words(s)
  {
    if s == "" {
    } else if s[0] == '_' {
      TrimmingKeepsWords(s[1..]);
      NonEmptyOfCons("", WordPieces(s[1..]));
    } else if Last(s) == '_' {
      TrimmingKeepsWords(Init(s));
      WordPiecesAppend(Init(s));
      assert s == Init(s) + "_";
      NonEmptySplits(WordPieces(Init(s)), [""]);
      assert NonEmpty([""]) == [];
    }
  }

  lemma {:induction false} ReplacedRuns(s: string, p: char -> bool)
    requires forall i :: 0 <= i < |s| ==> IsLabelChar(s[i]) || p(s[i])
    ensures AllLabelChars(ReplaceRuns(s, p))
  {
    if s != "" {
      ReplacedRuns(s[1..], p);
    }
  }

  lemma {:induction false} CollapsedHasNoDoubles(s: string)
    ensures NoDoubles(ReplaceRuns(s, UNDERSCORE))
    ensures s != "" ==> ReplaceRuns(s, UNDERSCORE) != "" && (ReplaceRuns(s, UNDERSCORE)[0] == '_' <==> s[0] == '_')
  {
    if s != "" {
      CollapsedHasNoDoubles(s[1..]);
    }
  }

  lemma {:induction false} TrimmedIsCanonical(s: string)
    requires AllLabelChars(s) && NoDoubles(s)
    ensures Canonical(TrimUnderscores(s))
  {
    if s == "" {
    } else if s[0] == '_' {
      TrimmedIsCanonical(s[1..]);
    } else if Last(s) == '_' {
      TrimmedIsCanonical(Init(s));
    }
  }

  /** Over `[a-z0-9_]` the word pieces are the pieces between underscores. */
  lemma {:induction false} PiecesOfLabel(s: string)
    requires AllLabelChars(s)
    ensures WordPieces(s) == Split(s, "_")
  {
    if s != "" {
      PiecesOfLabel(s[1..]);
      assert s == [s[0]] + s[1..];
      assert s[..1] == [s[0]];
    }
  }

  lemma {:induction false} NonEmptyKeepsAll(xs: seq<string>)
    requires forall i :: 0 <= i < |xs| ==> xs[i] != ""
    ensures NonEmpty(xs) == xs
  {
    if xs != [] {
      NonEmptyKeepsAll(xs[1..]);
      assert xs == [xs[0]] + xs[1..];
    }
  }

  lemma {:induction false} CanonicalPieces(s: string)
    requires AllLabelChars(s) && NoDoubles(s) && s != "" && Last(s) != '_'
    ensures var r := Split(s, "_");
            (forall i :: 0 < i < |r| ==> r[i] != "") && (r[0] == "" <==> s[0] == '_')
  {
    var rest := s[1..];
    assert s == [s[0]] + rest;
    if rest == "" {
      assert s[0] != '_';
    } else {
      CanonicalPieces(rest);
      if s[0] == '_' {
        SplitHit(rest, "_");
        assert s == "_" + rest;
        assert s[1] == rest[0];
      } else {
        assert s[..1] == [s[0]];
        SplitMiss(s[0], rest, "_");
      }
    }
  }

  /** A canonical label is its words joined by underscores. */
  lemma CanonicalIsJoin(s: string)
    requires Canonical(s)
    ensures Join(Words(s), "_") == s
  {
    PiecesOfLabel(s);
    if s == "" {
      NonEmptyOfCons("", []);
      assert Words(s) == [];
    } else {
      CanonicalPieces(s);
      NonEmptyKeepsAll(Split(s, "_"));
      JoinUndoesSplit(s, "_");
    }
  }

  /** Sanitizing yields exactly the words of the lower-cased text, joined by underscores. */
  lemma SanitizedIsWords(s: string, lower: string -> string)
    ensures Canonical(SanitizeLabel(s, lower))
    ensures SanitizeLabel(s, lower) == Join(Words(lower(s)), "_")
  {
    var a := lower(s);
    var b := ReplaceRuns(a, NOT_LABEL);
    var c := ReplaceRuns(b, UNDERSCORE);
    ReplacedRuns(a, NOT_LABEL);
    ReplacedRuns(b, UNDERSCORE);
    CollapsedHasNoDoubles(b);
    TrimmedIsCanonical(c);
    ReplacingKeepsWords(a, NOT_LABEL);
    SameWordsMeans(a, b);
    ReplacingKeepsWords(b, UNDERSCORE);
    SameWordsMeans(b, c);
    TrimmingKeepsWords(c);
    CanonicalIsJoin(TrimUnderscores(c));
  }

  /** The canonical labels are exactly the fixed points of sanitizing, which is thus idempotent. */
  lemma SanitizeFixes(s: string, lower: string -> string)
    requires KeepsLabels(lower)
    ensures SanitizeLabel(s, lower) == s <==> Canonical(s)
    ensures SanitizeLabel(SanitizeLabel(s, lower), lower) == SanitizeLabel(s, lower)
  {
    hide SanitizeLabel, Words, Join;
    var t := SanitizeLabel(s, lower);
    SanitizedIsWords(s, lower);
    SanitizedIsWords(t, lower);
    CanonicalIsJoin(t);
    if Canonical(s) {
      CanonicalIsJoin(s);
    }
  }

  // ---------------------------------------------------------------------------------------------
  // Paths

  const DOT := "."

  function PathSegments(path: string): seq<string> {
    if path == "" then [] else Split(path, DOT)
  }

  function Sanitized(labels: seq<string>, lower: string -> string): (r: seq<string>)
    ensures |r| == |labels|
    ensures forall i :: 0 <= i < |r| ==> r[i] == SanitizeLabel(labels[i], lower)
  {
    if labels == [] then [] else [SanitizeLabel(labels[0], lower)] + Sanitized(labels[1..], lower)
  }

  function JoinPath(labels: seq<string>, lower: string -> string): string {
    Join(NonEmpty(Sanitized(labels, lower)), DOT)
  }

  /** The index of the last dot, or -1. */
  function LastDot(path: string): (i: int)
    ensures -1 <= i < |path|
    ensures 0 <= i ==> path[i] == '.'
    ensures forall k :: i < k < |path| ==> path[k] != '.'
  {
    if path == "" then -1
    else if Last(path) == '.' then |path| - 1
    else LastDot(Init(path))
  }

  function ParentPath(path: string): Option<string> {
    var i := LastDot(path);
    if i < 0 then None else Some(path[..i])
  }

  predicate IsAncestor(ancestor: string, descendant: string) {
    ancestor == descendant || HasPrefix(descendant, ancestor + DOT)
  }

  function Depth(path: string): nat {
    if path == "" then 0 else |Split(path, DOT)|
  }

  function AppendChild(path: string, child: string, lower: string -> string): Appended {
    var safe := SanitizeLabel(child, lower);
    if safe == "" then EmptyLabel
    else if path == "" then Path(safe)
    else Path(path + DOT + safe)
  }

  /** `[A-Za-z0-9_]+` */
  predicate IsSegment(s: string) {
    s != "" && forall i :: 0 <= i < |s| ==> IsLabelChar(s[i]) || 'A' <= s[i] <= 'Z'
  }

  /** The first segment that is not one, if any. */
  function FirstInvalid(segments: seq<string>): Validation {
    if segments == [] then Valid
    else if !IsSegment(segments[0]) then InvalidSegment(segments[0])
    else FirstInvalid(segments[1..])
  }

  function ValidatePath(path: string): Validation {
    if path == "" then PathEmpty else FirstInvalid(Split(path, DOT))
  }

  lemma {:induction false} NonEmptyHasNoEmpty(pieces: seq<string>)
    ensures forall i :: 0 <= i < |NonEmpty(pieces)| ==> NonEmpty(pieces)[i] != "" && NonEmpty(pieces)[i] in pieces
  {
    if pieces != [] {
      NonEmptyHasNoEmpty(pieces[1..]);
    }
  }

  lemma JoinIsNotEmpty(pieces: seq<string>, sep: string)
    requires pieces != [] && pieces[0] != ""
    ensures Join(pieces, sep) != ""
  {
  }

  lemma {:induction false} AllSegmentsAreValid(segments: seq<string>)
    ensures FirstInvalid(segments) == Valid <==> forall i :: 0 <= i < |segments| ==> IsSegment(segments[i])
    ensures FirstInvalid(segments) != PathEmpty
    ensures FirstInvalid(segments).InvalidSegment? ==>
              FirstInvalid(segments).segment in segments && !IsSegment(FirstInvalid(segments).segment)
  {
    if segments != [] {
      AllSegmentsAreValid(segments[1..]);
    }
  }

  /** A joined path falls back into its sanitized non-empty labels, and passes validation unless it
      is empty. */
  lemma SegmentsUndoJoin(labels: seq<string>, lower: string -> string)
    ensures PathSegments(JoinPath(labels, lower)) == NonEmpty(Sanitized(labels, lower))
    ensures JoinPath(labels, lower) != "" ==> ValidatePath(JoinPath(labels, lower)) == Valid
  {
    hide SanitizeLabel, Split, Join;
    var all := Sanitized(labels, lower);
    var parts := NonEmpty(all);
    NonEmptyHasNoEmpty(all);
    forall i | 0 <= i < |parts|
      ensures Free(parts[i], '.') && IsSegment(parts[i])
    {
      var k :| 0 <= k < |all| && all[k] == parts[i];
      SanitizedIsWords(labels[k], lower);
    }
    if parts == [] {
      JoinOfNone(DOT);
    } else {
      FreePiecesComeBack(parts, '.');
      JoinIsNotEmpty(parts, DOT);
      AllSegmentsAreValid(parts);
    }
  }

  lemma JoinOfNone(sep: string)
    ensures Join([], sep) == ""
  {
  }

  /** On strings: an ancestor is a prefix that ends at a dot. On segments: it is a prefix. The two
      differ only for the empty path, which has no segments but precedes no proper path. */
  lemma AncestorIsPrefix(a: string, d: string)
    ensures (IsAncestor(a, d) <==> PathSegments(a) <= PathSegments(d)) <==> a != "" || d == "" || d[0] == '.'
  {
    hide Split;
    if a != "" {
      if HasPrefix(d, a + DOT) {
        var rest := d[|a + DOT|..];
        assert d == a + DOT + rest;
        SplitConcat(a, '.', rest);
      }
      if d != "" && Split(a, DOT) <= Split(d, DOT) {
        PrefixOfSegments(a, d);
      }
    } else {
      assert d != "" ==> HasPrefix(d, DOT) == (d[0] == '.') by {
        if d != "" { assert d[..1] == [d[0]]; }
      }
      assert "" + DOT == DOT;
    }
  }

  /** The empty path is an ancestor of no proper path, though it has none but segments of it. */
  lemma EmptyPathPrecedesNothing(d: string)
    requires d != "" && d[0] != '.'
    ensures !IsAncestor("", d) && PathSegments("") <= PathSegments(d)
  {
    hide PathSegments;
    AncestorIsPrefix("", d);
    NoSegments(PathSegments(d));
  }

  lemma NoSegments(segments: seq<string>)
    ensures PathSegments("") == [] && [] <= segments
  {
  }

  lemma PrefixOfSegments(a: string, d: string)
    requires Split(a, DOT) <= Split(d, DOT)
    ensures IsAncestor(a, d)
  {
    hide Split, Join;
    var x, y := Split(a, DOT), Split(d, DOT);
    JoinUndoesSplit(a, DOT);
    JoinUndoesSplit(d, DOT);
    if |x| < |y| {
      var z := y[|x|..];
      assert y == x + z;
      JoinConcat(x, z, DOT);
      assert d == a + DOT + Join(z, DOT);
      assert d[..|a + DOT|] == a + DOT;
    } else {
      assert x == y;
    }
  }

  /** Ancestry is a partial order, and depth respects it strictly. */
  lemma AncestryIsPartialOrder(a: string, b: string, c: string)
    ensures IsAncestor(a, a)
    ensures IsAncestor(a, b) && IsAncestor(b, a) ==> a == b
    ensures IsAncestor(a, b) && IsAncestor(b, c) ==> IsAncestor(a, c)
    ensures IsAncestor(a, b) && a != b ==> Depth(a) < Depth(b)
  {
    hide Split;
    if IsAncestor(a, b) && IsAncestor(b, c) && a != b && b != c {
      assert c[..|b|] == b;
      assert c[..|a + DOT|] == b[..|a + DOT|];
    }
    if IsAncestor(a, b) && a != b {
      var rest := b[|a + DOT|..];
      assert b == a + DOT + rest;
      SplitConcat(a, '.', rest);
    }
  }

  /** The parent has all segments but the last; only a path of one segment has none. */
  lemma ParentDropsLast(path: string)
    ensures ParentPath(path) == None <==> |Split(path, DOT)| == 1
    ensures ParentPath(path).Some? ==> Split(ParentPath(path).value, DOT) == Init(Split(path, DOT))
  {
    hide Split;
    var i := LastDot(path);
    if i < 0 {
      FreeIsClean(path, '.');
      CleanIsWhole(path, DOT);
    } else {
      var head, tail := path[..i], path[i + 1..];
      assert path == head + DOT + tail;
      SplitConcat(head, '.', tail);
      FreeIsClean(tail, '.');
      CleanIsWhole(tail, DOT);
      assert Init(Split(head, DOT) + [tail]) == Split(head, DOT);
    }
  }

  /** The path, its parent, its parent's parent, and so on. */
  function Lineage(path: string): seq<string>
    decreases |path|
  {
    [path] + match ParentPath(path) case None => [] case Some(p) => Lineage(p)
  }

  lemma DotBehindPrefix(a: string, d: string)
    ensures HasPrefix(d, a + DOT) ==> |a| < |d| && d[|a|] == '.'
  {
    if HasPrefix(d, a + DOT) {
      assert d[|a|] == d[..|a + DOT|][|a|];
    }
  }

  /** The ancestors of a path are itself and those of its parent. */
  lemma AncestorsStep(a: string, d: string)
    ensures IsAncestor(a, d) <==> a == d || (ParentPath(d).Some? && IsAncestor(a, ParentPath(d).value))
  {
    hide Split, PathSegments;
    var i := LastDot(d);
    DotBehindPrefix(a, d);
    if 0 <= i {
      var p := d[..i];
      assert d == p + DOT + d[i + 1..];
      if HasPrefix(d, a + DOT) {
        if |a| < i {
          assert p[..|a + DOT|] == d[..|a + DOT|];
        } else {
          assert p == d[..|a|] == d[..|a + DOT|][..|a|];
        }
      }
      if IsAncestor(a, p) {
        hide IsAncestor;
        ParentIsAncestor(p, d);
        AncestryIsPartialOrder(a, p, d);
      }
    }
  }

  lemma ParentIsAncestor(p: string, d: string)
    requires |p| < |d| && d == p + DOT + d[|p| + 1..]
    ensures IsAncestor(p, d)
  {
    assert d[..|p + DOT|] == p + DOT;
  }

  /** Ancestry is what iterating the parent reaches. */
  lemma {:induction false} AncestorsAreLineage(a: string, d: string)
    ensures IsAncestor(a, d) <==> a in Lineage(d)
    decreases |d|
  {
    hide IsAncestor;
    AncestorsStep(a, d);
    if ParentPath(d).Some? {
      AncestorsAreLineage(a, ParentPath(d).value);
    }
  }

  /** A child's parent is the path it was appended to, one level up. */
  lemma ParentUndoesAppend(path: string, child: string, lower: string -> string)
    ensures var r := AppendChild(path, child, lower);
            && (r == EmptyLabel <==> Words(lower(child)) == [])
            && (r.Path? ==>
                  && Depth(r.path) == Depth(path) + 1
                  && ParentPath(r.path) == (if path == "" then None else Some(path))
                  && PathSegments(r.path) == PathSegments(path) + [SanitizeLabel(child, lower)]
                  && (ValidatePath(path) == Valid ==> ValidatePath(r.path) == Valid))
  {
    hide SanitizeLabel, Split, Words;
    var safe := SanitizeLabel(child, lower);
    SanitizedIsWords(child, lower);
    WordsAreNotEmpty(lower(child));
    if safe != "" {
      assert Free(safe, '.') && IsSegment(safe);
      FreeIsClean(safe, '.');
      CleanIsWhole(safe, DOT);
      AllSegmentsAreValid([safe]);
      if path == "" {
        ParentDropsLast(safe);
      } else {
        var whole := path + DOT + safe;
        SplitConcat(path, '.', safe);
        AllSegmentsAreValid(Split(path, DOT));
        AllSegmentsAreValid(Split(path, DOT) + [safe]);
        LastDotOf(path, safe);
      }
    }
  }

  lemma WordsAreNotEmpty(s: string)
    ensures Join(Words(s), "_") == "" <==> Words(s) == []
  {
    NonEmptyHasNoEmpty(WordPieces(s));
    if Words(s) != [] {
      JoinIsNotEmpty(Words(s), "_");
    }
  }

  lemma {:induction false} LastDotOf(path: string, safe: string)
    requires Free(safe, '.')
    ensures LastDot(path + DOT + safe) == |path|
    ensures (path + DOT + safe)[..|path|] == path
    decreases |safe|
  {
    var whole := path + DOT + safe;
    if safe == "" {
      assert Last(whole) == '.';
    } else {
      LastDotOf(path, Init(safe));
      assert Init(whole) == path + DOT + Init(safe);
      assert Last(whole) == Last(safe);
    }
  }
}
