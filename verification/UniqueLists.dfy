/** Lists in insertion order, kept free of duplicates. */
module UniqueLists {
  /** The first occurrences, in order. */
  function Dedupe<T(==)>(xs: seq<T>): seq<T> {
    if xs == [] then []
    else
      var init := Dedupe(xs[..|xs| - 1]);
      if xs[|xs| - 1] in init then init else init + [xs[|xs| - 1]]
  }

  predicate NoDuplicates<T(==)>(xs: seq<T>) {
    forall i, j :: 0 <= i < j < |xs| ==> xs[i] != xs[j]
  }

  lemma {:induction false} DedupeFacts<T>(xs: seq<T>)
    ensures NoDuplicates(Dedupe(xs))
    ensures forall x :: x in Dedupe(xs) <==> x in xs
  {
    if xs != [] {
      DedupeFacts(xs[..|xs| - 1]);
      assert xs == xs[..|xs| - 1] + [xs[|xs| - 1]];
    }
  }

  lemma {:induction false} DedupeKeeps<T>(xs: seq<T>)
    requires NoDuplicates(xs)
    ensures Dedupe(xs) == xs
  {
    if xs != [] {
      var init := xs[..|xs| - 1];
      DedupeKeeps(init);
      assert xs == init + [xs[|xs| - 1]];
    }
  }

  lemma DedupeSnoc<T>(xs: seq<T>, x: T)
    ensures Dedupe(xs + [x]) == if x in Dedupe(xs) then Dedupe(xs) else Dedupe(xs) + [x]
  {
    assert (xs + [x])[..|xs|] == xs;
  }

  /** Deduplicating in two goes is deduplicating in one. */
  lemma {:induction false} DedupeTwice<T>(xs: seq<T>, ys: seq<T>)
    ensures Dedupe(Dedupe(xs) + ys) == Dedupe(xs + ys)
  {
    if ys == [] {
      assert xs + ys == xs && Dedupe(xs) + ys == Dedupe(xs);
      DedupeFacts(xs);
      DedupeKeeps(Dedupe(xs));
    } else {
      var init, y := ys[..|ys| - 1], ys[|ys| - 1];
      DedupeTwice(xs, init);
      assert xs + ys == xs + init + [y];
      assert Dedupe(xs) + ys == Dedupe(xs) + init + [y];
      DedupeSnoc(xs + init, y);
      DedupeSnoc(Dedupe(xs) + init, y);
    }
  }

  /** What was there stays in front, in order. */
  lemma {:induction false} DedupeExtends<T>(xs: seq<T>, ys: seq<T>)
    ensures Dedupe(xs) <= Dedupe(xs + ys)
  {
    if ys == [] {
      assert xs + ys == xs;
    } else {
      var init, y := ys[..|ys| - 1], ys[|ys| - 1];
      DedupeExtends(xs, init);
      assert xs + ys == xs + init + [y];
      DedupeSnoc(xs + init, y);
    }
  }

  lemma {:induction false} DedupeRight<T>(xs: seq<T>, ys: seq<T>)
    ensures Dedupe(xs + Dedupe(ys)) == Dedupe(xs + ys)
  {
    if ys != [] {
      var init, y := ys[..|ys| - 1], ys[|ys| - 1];
      DedupeRight(xs, init);
      assert xs + ys == xs + init + [y];
      DedupeSnoc(xs + init, y);
      DedupeFacts(init);
      DedupeFacts(xs + init);
      if y !in Dedupe(init) {
        assert xs + Dedupe(ys) == xs + Dedupe(init) + [y];
        DedupeSnoc(xs + Dedupe(init), y);
      }
    }
  }

  /** What is there already adds nothing. */
  lemma {:induction false} DedupeAbsorbs<T>(xs: seq<T>, ys: seq<T>)
    requires forall y :: y in ys ==> y in xs
    ensures Dedupe(xs + ys) == Dedupe(xs)
  {
    if ys == [] {
      assert xs + ys == xs;
    } else {
      var init, y := ys[..|ys| - 1], ys[|ys| - 1];
      DedupeAbsorbs(xs, init);
      assert xs + ys == xs + init + [y];
      DedupeSnoc(xs + init, y);
      DedupeFacts(xs);
    }
  }

  /** A list in front of another that starts with it vanishes. */
  lemma DedupeOfPrefix<T>(xs: seq<T>, ys: seq<T>)
    requires Dedupe(xs) <= Dedupe(ys)
    ensures Dedupe(xs + ys) == Dedupe(ys)
  {
    hide Dedupe;
    var p, q := Dedupe(xs), Dedupe(ys);
    var rest := q[|p|..];
    DedupeTwice(xs, ys);
    DedupeRight(p, ys);
    assert p + q == (p + p) + rest && q == p + rest;
    DedupeTwice(p + p, rest);
    DedupeAbsorbs(p, p);
    DedupeTwice(p, rest);
    DedupeFacts(ys);
    DedupeKeeps(q);
  }

  lemma DedupeNothing<T>()
    ensures Dedupe<T>([]) == [] && NoDuplicates<T>([])
  {
  }

  /** Nothing occurs twice exactly when every count is at most one. */
  lemma {:induction false} SinglesAreDistinct<T>(xs: seq<T>)
    ensures NoDuplicates(xs) <==> forall x :: multiset(xs)[x] <= 1
  {
    if xs != [] {
      var init, last := xs[..|xs| - 1], xs[|xs| - 1];
      SinglesAreDistinct(init);
      assert xs == init + [last];
      assert forall x :: multiset(xs)[x] == multiset(init)[x] + if x == last then 1 else 0;
      assert last in init <==> multiset(init)[last] >= 1;
    }
  }

  lemma CountInDistinct<T>(xs: seq<T>, x: T)
    requires NoDuplicates(xs)
    ensures multiset(xs)[x] == if x in xs then 1 else 0
  {
    SinglesAreDistinct(xs);
    assert x in xs <==> x in multiset(xs);
  }
}
