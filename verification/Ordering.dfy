/** `sort_by_key`, `dedup` and the `windows(2)` duplicate check, and what comparing their results means. */
module Ordering {

  // ---- The library operations, by their meaning on a vector ----

  function Insert<T>(x: T, s: seq<T>, key: T -> int): seq<T> {
    if s == [] || key(x) <= key(s[0]) then [x] + s else [s[0]] + Insert(x, s[1..], key)
  }

  /** A stable sort by key. */
  function SortBy<T>(s: seq<T>, key: T -> int): seq<T> {
    if s == [] then [] else Insert(s[0], SortBy(s[1..], key), key)
  }

  function Sort(s: seq<int>): seq<int> { SortBy(s, Identity) }

  /** Removes all but the first of consecutive equal elements. */
  function Dedup<T(==)>(s: seq<T>): seq<T> {
    if |s| <= 1 then s
    else if s[0] == s[1] then Dedup(s[1..])
    else [s[0]] + Dedup(s[1..])
  }

  /** `windows(2).any(|pair| pair[0].key == pair[1].key)`. */
  predicate HasAdjacentDuplicate<T>(s: seq<T>, key: T -> int) {
    exists i :: 0 <= i < |s| - 1 && key(s[i]) == key(s[i + 1])
  }

  predicate DistinctBy<T>(s: seq<T>, key: T -> int) {
    forall i, j :: 0 <= i < j < |s| ==> key(s[i]) != key(s[j])
  }

  predicate OrderedBy<T>(s: seq<T>, key: T -> int) {
    forall i, j :: 0 <= i < j < |s| ==> key(s[i]) <= key(s[j])
  }

  predicate StrictlyOrderedBy<T>(s: seq<T>, key: T -> int) {
    forall i, j :: 0 <= i < j < |s| ==> key(s[i]) < key(s[j])
  }

  function Elements<T>(s: seq<T>): set<T> { set x | x in s }

  // ---- Sorting ----

  lemma {:induction false} InsertPermutes<T>(x: T, s: seq<T>, key: T -> int)
    ensures multiset(Insert(x, s, key)) == multiset(s) + multiset{x}
  {
    if s != [] {
      assert s == [s[0]] + s[1..];
      if key(x) > key(s[0]) { InsertPermutes(x, s[1..], key); }
    }
  }

  lemma {:induction false} InsertKeepsOrder<T>(x: T, s: seq<T>, key: T -> int)
    requires OrderedBy(s, key)
    ensures OrderedBy(Insert(x, s, key), key)
  {
    if s != [] && key(x) > key(s[0]) {
      var rest := Insert(x, s[1..], key);
      InsertKeepsOrder(x, s[1..], key);
      InsertPermutes(x, s[1..], key);
      forall j | 0 <= j < |rest| ensures key(s[0]) <= key(rest[j]) {
        assert rest[j] in multiset(rest);
        assert rest[j] == x || rest[j] in s[1..];
      }
    }
  }

  lemma SameMultisetSameElements<T>(a: seq<T>, b: seq<T>)
    requires multiset(a) == multiset(b)
    ensures Elements(a) == Elements(b)
  {
    forall y ensures y in a <==> y in b {
      assert y in a <==> y in multiset(a);
      assert y in b <==> y in multiset(b);
    }
  }

  /** The sort orders by key and permutes. */
  lemma {:induction false} SortByOrdersAndPermutes<T>(s: seq<T>, key: T -> int)
    ensures OrderedBy(SortBy(s, key), key) && multiset(SortBy(s, key)) == multiset(s)
    ensures Elements(SortBy(s, key)) == Elements(s)
  {
    if s != [] {
      SortByOrdersAndPermutes(s[1..], key);
      InsertKeepsOrder(s[0], SortBy(s[1..], key), key);
      InsertPermutes(s[0], SortBy(s[1..], key), key);
      assert s == [s[0]] + s[1..];
    }
    SameMultisetSameElements(SortBy(s, key), s);
  }

  function Identity(x: int): int { x }

  lemma {:induction false} DedupOfSorted(s: seq<int>)
    requires OrderedBy(s, Identity)
    ensures var r := Dedup(s);
            && StrictlyOrderedBy(r, Identity) && Elements(r) == Elements(s)
            && (s != [] ==> r != [] && r[0] == s[0])
  {
    if |s| > 1 {
      DedupOfSorted(s[1..]);
      assert s == [s[0]] + s[1..];
      var rest := Dedup(s[1..]);
      assert Identity(s[0]) <= Identity(s[1]);
      assert Elements(s) == {s[0]} + Elements(s[1..]);
      assert Elements([s[0]] + rest) == {s[0]} + Elements(rest);
      assert s[0] == s[1] ==> s[0] in Elements(s[1..]);
      if s[0] != s[1] {
        forall j | 0 <= j < |rest| ensures s[0] < rest[j] {
          if j > 0 { assert Identity(rest[0]) < Identity(rest[j]); }
        }
      }
    }
  }

  /** A strictly ordered list is determined by its elements. */
  lemma {:induction false} StrictOrderIsUnique<T>(a: seq<T>, b: seq<T>, key: T -> int)
    requires StrictlyOrderedBy(a, key) && StrictlyOrderedBy(b, key)
    requires Elements(a) == Elements(b)
    ensures a == b
  {
    NonemptyHasElement(a);
    NonemptyHasElement(b);
    if a != [] {
      assert a[0] in Elements(b) && b[0] in Elements(a);
      assert a[0] == b[0];
      TailOfStrictOrder(a, key);
      TailOfStrictOrder(b, key);
      StrictOrderIsUnique(a[1..], b[1..], key);
    }
  }

  lemma NonemptyHasElement<T>(s: seq<T>)
    ensures s != [] <==> Elements(s) != {}
  {
    if s != [] { assert s[0] in Elements(s); }
  }

  lemma TailOfStrictOrder<T>(a: seq<T>, key: T -> int)
    requires a != [] && StrictlyOrderedBy(a, key)
    ensures StrictlyOrderedBy(a[1..], key) && Elements(a[1..]) == Elements(a) - {a[0]}
  {
    assert a == [a[0]] + a[1..];
    assert a[0] !in a[1..];
  }

  // ---- Duplicates ----

  lemma {:induction false} CountedTwiceRepeats<T>(s: seq<T>, x: T) returns (i: nat, j: nat)
    requires multiset(s)[x] > 1
    ensures i < j < |s| && s[i] == s[j] == x
  {
    assert s == [s[0]] + s[1..];
    if s[0] == x {
      assert x in multiset(s[1..]);
      i, j :| i == 0 && 1 <= j < |s| && s[j] == x;
    } else {
      i, j := CountedTwiceRepeats(s[1..], x);
      i, j := i + 1, j + 1;
    }
  }

  lemma RepeatIsCountedTwice<T>(s: seq<T>, i: nat, j: nat)
    requires i < j < |s| && s[i] == s[j]
    ensures multiset(s)[s[i]] > 1
  {
    assert s == s[..j] + s[j..];
    assert s[..j][i] == s[i] && s[j..][0] == s[j];
    assert s[i] in multiset(s[..j]) && s[i] in multiset(s[j..]);
  }

  lemma DistinctSurvivesPermutation<T>(a: seq<T>, b: seq<T>, key: T -> int)
    requires multiset(a) == multiset(b) && DistinctBy(a, key)
    ensures DistinctBy(b, key)
  {
    forall i, j | 0 <= i < j < |b| ensures key(b[i]) != key(b[j]) {
      assert b[i] in multiset(a) && b[j] in multiset(a);
      if b[i] == b[j] {
        RepeatIsCountedTwice(b, i, j);
        var k, l := CountedTwiceRepeats(a, b[i]);
      } else {
        assert b[i] in a && b[j] in a;
      }
    }
  }

  lemma NoAdjacentIsStrict<T>(s: seq<T>, key: T -> int)
    requires OrderedBy(s, key) && !HasAdjacentDuplicate(s, key)
    ensures StrictlyOrderedBy(s, key)
  {
    forall i, j | 0 <= i < j < |s| ensures key(s[i]) < key(s[j]) {
      assert key(s[i]) != key(s[i + 1]);
    }
  }

  ghost predicate SameMembers<T>(a: seq<T>, b: seq<T>) {
    (forall x | x in a :: x in b) && (forall x | x in b :: x in a)
  }

  lemma SameElementsIffSameMembers<T>(a: seq<T>, b: seq<T>)
    ensures Elements(a) == Elements(b) <==> SameMembers(a, b)
  {
    if Elements(a) == Elements(b) {
      forall x | x in a ensures x in b { assert x in Elements(b); }
      forall x | x in b ensures x in a { assert x in Elements(a); }
    }
  }

  // ---- Main results ----

  /** Comparing two fingerprint lists after `sort_unstable` and `dedup` is comparing them as sets. */
  lemma SortedDedupEqualIffSameSet(a: seq<int>, b: seq<int>)
    ensures Dedup(Sort(a)) == Dedup(Sort(b)) <==> Elements(a) == Elements(b)
  {
    SortByOrdersAndPermutes(a, Identity);
    SortByOrdersAndPermutes(b, Identity);
    DedupOfSorted(Sort(a));
    DedupOfSorted(Sort(b));
    if Elements(a) == Elements(b) {
      StrictOrderIsUnique(Dedup(Sort(a)), Dedup(Sort(b)), Identity);
    }
  }

  /** After sorting, two equal keys anywhere are two equal keys side by side. */
  lemma AdjacentCheckIsPairwiseCheck<T>(s: seq<T>, key: T -> int)
    ensures HasAdjacentDuplicate(SortBy(s, key), key) <==> !DistinctBy(s, key)
  {
    var r := SortBy(s, key);
    SortByOrdersAndPermutes(s, key);
    if HasAdjacentDuplicate(r, key) {
      if DistinctBy(s, key) { DistinctSurvivesPermutation(s, r, key); }
    } else {
      NoAdjacentIsStrict(r, key);
      DistinctSurvivesPermutation(r, s, key);
    }
  }

  /** With pairwise distinct keys the sorted list does not depend on the order it was given in. */
  lemma DistinctKeysSortOneWay<T>(a: seq<T>, b: seq<T>, key: T -> int)
    requires multiset(a) == multiset(b) && DistinctBy(a, key)
    ensures SortBy(a, key) == SortBy(b, key) && DistinctBy(b, key)
  {
    DistinctSurvivesPermutation(a, b, key);
    AdjacentCheckIsPairwiseCheck(a, key);
    AdjacentCheckIsPairwiseCheck(b, key);
    SortByOrdersAndPermutes(a, key);
    SortByOrdersAndPermutes(b, key);
    NoAdjacentIsStrict(SortBy(a, key), key);
    NoAdjacentIsStrict(SortBy(b, key), key);
    SameMultisetSameElements(a, b);
    StrictOrderIsUnique(SortBy(a, key), SortBy(b, key), key);
  }
}
