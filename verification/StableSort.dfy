/** Array.prototype.sort: a stable sort under a comparator; after(a, b) says that a goes behind b. */
module StableSort {
  ghost predicate WeakOrder<T(!new)>(after: (T, T) -> bool) {
    && (forall a, b :: after(a, b) ==> !after(b, a))
    && (forall a, b, c :: after(a, c) ==> after(a, b) || after(b, c))
  }

  function Insert<T>(s: seq<T>, x: T, after: (T, T) -> bool): seq<T> {
    if s == [] || !after(s[|s| - 1], x) then s + [x]
    else Insert(s[..|s| - 1], x, after) + [s[|s| - 1]]
  }

  function Sort<T>(s: seq<T>, after: (T, T) -> bool): seq<T> {
    if s == [] then [] else Insert(Sort(s[..|s| - 1], after), s[|s| - 1], after)
  }

  ghost predicate Sorted<T>(s: seq<T>, after: (T, T) -> bool) {
    forall i, j :: 0 <= i < j < |s| ==> !after(s[i], s[j])
  }

  predicate Tied<T>(a: T, b: T, after: (T, T) -> bool) {
    !after(a, b) && !after(b, a)
  }

  /** The elements tied with x, in their order. */
  function Ties<T>(s: seq<T>, x: T, after: (T, T) -> bool): seq<T> {
    if s == [] then []
    else Ties(s[..|s| - 1], x, after) + if Tied(s[|s| - 1], x, after) then [s[|s| - 1]] else []
  }

  lemma NotAfterChains<T(!new)>(a: T, b: T, c: T, after: (T, T) -> bool)
    requires WeakOrder(after) && !after(a, b) && !after(b, c)
    ensures !after(a, c)
  {}

  lemma {:induction false} InsertPermutes<T>(s: seq<T>, x: T, after: (T, T) -> bool)
    ensures multiset(Insert(s, x, after)) == multiset(s) + multiset{x}
  {
    if s != [] && after(s[|s| - 1], x) {
      InsertPermutes(s[..|s| - 1], x, after);
      assert s == s[..|s| - 1] + [s[|s| - 1]];
    }
  }

  lemma {:induction false} InsertStaysBelow<T>(s: seq<T>, x: T, after: (T, T) -> bool, bound: T)
    requires !after(x, bound) && forall i :: 0 <= i < |s| ==> !after(s[i], bound)
    ensures forall i :: 0 <= i < |Insert(s, x, after)| ==> !after(Insert(s, x, after)[i], bound)
  {
    if s != [] && after(s[|s| - 1], x) { InsertStaysBelow(s[..|s| - 1], x, after, bound); }
  }

  lemma {:induction false} InsertSorts<T(!new)>(s: seq<T>, x: T, after: (T, T) -> bool)
    requires WeakOrder(after) && Sorted(s, after)
    ensures Sorted(Insert(s, x, after), after)
  {
    if s == [] {
    } else if after(s[|s| - 1], x) {
      InsertSorts(s[..|s| - 1], x, after);
      InsertStaysBelow(s[..|s| - 1], x, after, s[|s| - 1]);
    } else {
      var k := |s| - 1;
      forall i | 0 <= i < |s| ensures !after(s[i], x) {
        if i < k { NotAfterChains(s[i], s[k], x, after); }
      }
    }
  }

  lemma {:induction false} InsertIsStable<T(!new)>(s: seq<T>, x: T, after: (T, T) -> bool, y: T)
    requires WeakOrder(after)
    ensures Ties(Insert(s, x, after), y, after) == Ties(s, y, after) + if Tied(x, y, after) then [x] else []
  {
    if s == [] || !after(s[|s| - 1], x) {
      assert (s + [x])[..|s|] == s;
    } else {
      var init, last := s[..|s| - 1], s[|s| - 1];
      InsertIsStable(init, x, after, y);
      var r := Insert(init, x, after);
      assert (r + [last])[..|r|] == r;
      assert !(Tied(x, y, after) && Tied(last, y, after));
    }
  }

  /** Sorted, nothing lost or added, and ties in their old order. */
  lemma {:induction false} SortIsStable<T(!new)>(s: seq<T>, after: (T, T) -> bool)
    requires WeakOrder(after)
    ensures Sorted(Sort(s, after), after)
    ensures multiset(Sort(s, after)) == multiset(s)
    ensures forall y :: Ties(Sort(s, after), y, after) == Ties(s, y, after)
  {
    if s != [] {
      var init, last := s[..|s| - 1], s[|s| - 1];
      assert s == init + [last];
      SortIsStable(init, after);
      InsertSorts(Sort(init, after), last, after);
      InsertPermutes(Sort(init, after), last, after);
      forall y ensures Ties(Sort(s, after), y, after) == Ties(s, y, after) {
        InsertIsStable(Sort(init, after), last, after, y);
      }
    }
  }

  lemma SortKeeps<T(!new)>(s: seq<T>, after: (T, T) -> bool, x: T)
    requires WeakOrder(after)
    ensures x in Sort(s, after) <==> x in s
  {
    SortIsStable(s, after);
    assert x in multiset(Sort(s, after)) <==> x in multiset(s);
  }
}
