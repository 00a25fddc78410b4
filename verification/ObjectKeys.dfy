/** The order in which a JavaScript object lists its keys (OrdinaryOwnPropertyKeys, section 10.1.11.1
    of ECMA-262): array indices first, in ascending order, then the other names as they were set. */
module ObjectKeys {
  import opened UniqueLists
  import opened Text

  /** An array index: the decimal form of a number below 2^32 - 1. */
  predicate IndexLike(key: string) {
    key != "" && AllDigits(key) && (|key| == 1 || key[0] != '0') && NumberOf(key) < 0xFFFF_FFFF
  }

  function Index(key: string): nat {
    if AllDigits(key) then NumberOf(key) else 0
  }

  /** Such a key is the decimal form of exactly one number, its index. */
  lemma IndexLikeIsDecimal(key: string, n: nat)
    ensures IndexLike(key) && Index(key) == n <==> n < 4294967295 && key == PrintNat(n)
  {
    hide PrintNat, NumberOf;
    NumberOfPrint(n);
    PrintLength(n);
    NoLeadingZero(n);
    if IndexLike(key) {
      PrintOfNumber(key);
    }
  }

  lemma {:induction false} NoLeadingZero(n: nat)
    ensures PrintNat(n) != "" && (n > 0 ==> PrintNat(n)[0] != '0')
  {
    if n >= 10 {
      NoLeadingZero(n / 10);
    }
  }

  function Insert(key: string, keys: seq<string>): seq<string> {
    if keys == [] then [key]
    else if Index(key) < Index(keys[0]) then [key] + keys
    else [keys[0]] + Insert(key, keys[1..])
  }

  function Indices(keys: seq<string>): seq<string> {
    if keys == [] then []
    else
      var before, key := Indices(keys[..|keys| - 1]), keys[|keys| - 1];
      if IndexLike(key) then Insert(key, before) else before
  }

  function Names(keys: seq<string>): seq<string> {
    if keys == [] then []
    else Names(keys[..|keys| - 1]) + if IndexLike(keys[|keys| - 1]) then [] else [keys[|keys| - 1]]
  }

  /** The keys of an object on which these keys were set in this order. */
  function KeysOf(keys: seq<string>): seq<string> {
    Indices(keys) + Names(keys)
  }

  ghost predicate Ascending(keys: seq<string>) {
    forall i, j :: 0 <= i < j < |keys| ==> Index(keys[i]) <= Index(keys[j])
  }

  lemma {:induction false} InsertKeeps(key: string, keys: seq<string>)
    ensures multiset(Insert(key, keys)) == multiset(keys) + multiset{key}
  {
    hide Index;
    if keys != [] {
      InsertKeeps(key, keys[1..]);
      assert keys == [keys[0]] + keys[1..];
    }
  }

  lemma {:induction false} InsertSorts(key: string, keys: seq<string>)
    requires Ascending(keys)
    ensures Ascending(Insert(key, keys))
  {
    hide Index;
    if keys != [] && Index(key) >= Index(keys[0]) {
      var rest := Insert(key, keys[1..]);
      InsertSorts(key, keys[1..]);
      InsertKeeps(key, keys[1..]);
      forall i | 0 <= i < |rest|
        ensures Index(keys[0]) <= Index(rest[i])
      {
        assert rest[i] in multiset(rest);
        assert rest[i] == key || rest[i] in keys[1..];
      }
    }
  }

  /** Each key is listed as often as it was set. */
  lemma {:induction false} KeysAreConserved(keys: seq<string>)
    ensures multiset(KeysOf(keys)) == multiset(keys)
  {
    hide IndexLike, Insert;
    if keys != [] {
      var init, last := keys[..|keys| - 1], keys[|keys| - 1];
      KeysAreConserved(init);
      assert keys == init + [last];
      InsertKeeps(last, Indices(init));
    }
  }

  /** The array indices among the keys, ascending, and the others, in their order. */
  lemma {:induction false} IndicesComeFirst(keys: seq<string>)
    ensures Ascending(Indices(keys)) && forall k :: k in Indices(keys) ==> IndexLike(k)
    ensures forall k :: k in Names(keys) ==> !IndexLike(k)
    ensures (forall k :: k in keys ==> !IndexLike(k)) ==> KeysOf(keys) == keys
  {
    hide IndexLike, Insert, Index;
    if keys != [] {
      var init, last := keys[..|keys| - 1], keys[|keys| - 1];
      IndicesComeFirst(init);
      assert keys == init + [last];
      InsertSorts(last, Indices(init));
      InsertKeeps(last, Indices(init));
      assert forall k :: k in Insert(last, Indices(init)) <==> k in multiset(Insert(last, Indices(init)));
    }
  }

  lemma KeysAreKept(keys: seq<string>)
    ensures forall k :: k in KeysOf(keys) <==> k in keys
    ensures NoDuplicates(keys) ==> NoDuplicates(KeysOf(keys))
  {
    hide KeysOf;
    KeysAreConserved(keys);
    assert forall k :: k in KeysOf(keys) <==> k in multiset(KeysOf(keys));
    if NoDuplicates(keys) {
      SinglesAreDistinct(keys);
      SinglesAreDistinct(KeysOf(keys));
    }
  }
}
