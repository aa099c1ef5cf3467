/** Option type shared by the modules of the project. */
module Wrappers {
  datatype Option<+T> = None | Some(value: T) {
    function GetOr(default: T): T {
      if Some? then value else default
    }
  }
}

/** Strings as JavaScript compares them: sequences of UTF-16 code units in lexicographic order. */
module StringOrder {
  type CodeUnit = u: int | 0 <= u < 0x1_0000

  type Id = seq<CodeUnit>

  predicate Less(a: Id, b: Id) {
    |b| > 0 && (|a| == 0 || a[0] < b[0] || (a[0] == b[0] && Less(a[1..], b[1..])))
  }

  lemma {:induction false} LessTrichotomy(a: Id, b: Id)
    ensures a == b || Less(a, b) || Less(b, a)
    ensures !(Less(a, b) && Less(b, a))
    ensures a == b ==> !Less(a, b)
  {
    if |a| > 0 && |b| > 0 {
      LessTrichotomy(a[1..], b[1..]);
      assert a == [a[0]] + a[1..] && b == [b[0]] + b[1..];
    }
  }

  lemma {:induction false} LessTransitive(a: Id, b: Id, c: Id)
    requires Less(a, b) && Less(b, c)
    ensures Less(a, c)
  {
    if |a| > 0 && a[0] == b[0] == c[0] {
      LessTransitive(a[1..], b[1..], c[1..]);
    }
  }

  /** a and b agree up to k, where a is smaller. */
  ghost predicate SmallerAt(a: Id, b: Id, k: nat) {
    k < |a| && k < |b| && a[..k] == b[..k] && a[k] < b[k]
  }

  lemma SmallerAtTail(a: Id, b: Id, k: nat)
    requires |a| > 0 && |b| > 0 && a[0] == b[0]
    ensures SmallerAt(a[1..], b[1..], k) <==> SmallerAt(a, b, k + 1)
  {
    if k < |a| - 1 && k < |b| - 1 {
      assert a[..k + 1] == [a[0]] + a[1..][..k] && b[..k + 1] == [b[0]] + b[1..][..k];
    }
  }

  /** A proper prefix, or smaller at the first difference. */
  lemma {:induction false} LessIff(a: Id, b: Id)
    ensures Less(a, b) <==> a < b || exists k :: SmallerAt(a, b, k)
  {
    if |a| > 0 && |b| > 0 && a[0] == b[0] {
      LessIff(a[1..], b[1..]);
      assert a < b <==> a[1..] < b[1..] by { assert a == [a[0]] + a[1..] && b == [b[0]] + b[1..]; }
      forall k: nat ensures SmallerAt(a[1..], b[1..], k) <==> SmallerAt(a, b, k + 1) { SmallerAtTail(a, b, k); }
      hide SmallerAt;
      if k: nat :| SmallerAt(a, b, k) {
        if k == 0 { NotAtEqual(a, b); }
        assert SmallerAt(a[1..], b[1..], k - 1);
      }
      if k: nat :| SmallerAt(a[1..], b[1..], k) { assert SmallerAt(a, b, k + 1); }
    } else if |a| > 0 && |b| > 0 {
      if a[0] < b[0] { assert SmallerAt(a, b, 0); }
      if k: nat :| SmallerAt(a, b, k) { SmallerMeans(a, b, k); }
    }
  }

  lemma NotAtEqual(a: Id, b: Id)
    requires |a| > 0 && |b| > 0 && a[0] == b[0]
    ensures !SmallerAt(a, b, 0)
  {}

  lemma SmallerMeans(a: Id, b: Id, k: nat)
    requires SmallerAt(a, b, k)
    ensures k == 0 || a[0] == b[0]
  {
    if k > 0 { assert a[..k][0] == b[..k][0]; }
  }

  /** Strictly ascending: sorted and without repetitions. */
  ghost predicate Ascending(s: seq<Id>) {
    forall i, j :: 0 <= i < j < |s| ==> Less(s[i], s[j])
  }

  ghost function Elems(s: seq<Id>): set<Id> {
    set x | x in s
  }

  ghost predicate Distinct(s: seq<Id>) {
    forall i, j :: 0 <= i < j < |s| ==> s[i] != s[j]
  }

  lemma {:induction false} LeastExists(S: set<Id>)
    requires S != {}
    ensures exists m :: m in S && forall x :: x in S ==> x == m || Less(m, x)
    decreases |S|
  {
    hide Less;
    var y :| y in S;
    var rest := S - {y};
    if rest == {} {
      assert S == {y};
    } else {
      LeastExists(rest);
      var m :| m in rest && forall x :: x in rest ==> x == m || Less(m, x);
      LessTrichotomy(y, m);
      var least := if Less(y, m) then y else m;
      forall x | x in S ensures x == least || Less(least, x) {
        if x in rest && x != m && Less(y, m) { LessTransitive(y, m, x); }
      }
    }
  }

  ghost function Least(S: set<Id>): (m: Id)
    requires S != {}
    ensures m in S && forall x :: x in S ==> x == m || Less(m, x)
  {
    LeastExists(S);
    var m :| m in S && forall x :: x in S ==> x == m || Less(m, x);
    m
  }

  lemma LeastUnique(S: set<Id>, m: Id)
    requires m in S && forall x :: x in S ==> x == m || Less(m, x)
    ensures Least(S) == m
  {
    LessTrichotomy(m, Least(S));
  }

  /** The ascending enumeration of a finite set. */
  ghost function Ascend(S: set<Id>): (r: seq<Id>)
    decreases |S|
  {
    if S == {} then [] else [Least(S)] + Ascend(S - {Least(S)})
  }

  lemma ConsElems(x: Id, r: seq<Id>)
    ensures Elems([x] + r) == {x} + Elems(r)
  {
    forall y ensures y in [x] + r <==> y == x || y in r {}
  }

  lemma ConsAscending(x: Id, r: seq<Id>)
    requires Ascending(r) && forall y :: y in Elems(r) ==> Less(x, y)
    ensures Ascending([x] + r)
  {
    var s := [x] + r;
    forall i, j | 0 <= i < j < |s| ensures Less(s[i], s[j]) {
      assert s[j] == r[j - 1] && r[j - 1] in Elems(r);
    }
  }

  lemma {:induction false} AscendProperties(S: set<Id>)
    ensures Ascending(Ascend(S)) && Elems(Ascend(S)) == S
    decreases |S|
  {
    if S != {} {
      var m := Least(S);
      var r := Ascend(S - {m});
      AscendProperties(S - {m});
      ConsElems(m, r);
      ConsAscending(m, r);
    }
  }

  /** An ascending sequence is determined by its elements. */
  lemma {:induction false} AscendingIsAscend(s: seq<Id>)
    requires Ascending(s)
    ensures s == Ascend(Elems(s))
  {
    if s != [] {
      var S := Elems(s);
      assert s[0] in S;
      LeastUnique(S, s[0]);
      assert Elems(s[1..]) == S - {s[0]} by {
        forall x | x in S - {s[0]} ensures x in s[1..] {
          var i :| 0 <= i < |s| && s[i] == x;
          assert s[1..][i - 1] == x;
        }
        forall i | 1 <= i < |s| ensures s[i] != s[0] { LessTrichotomy(s[0], s[i]); }
      }
      AscendingIsAscend(s[1..]);
      assert s == [s[0]] + s[1..];
    }
  }

  /** Position of the first element of an ascending queue greater than x, or its length. */
  function InsertIndex(s: seq<Id>, x: Id): (k: nat)
    ensures k <= |s|
    ensures forall i :: 0 <= i < k ==> !Less(x, s[i])
    ensures k < |s| ==> Less(x, s[k])
  {
    if s == [] || Less(x, s[0]) then 0 else 1 + InsertIndex(s[1..], x)
  }

  function Insert(s: seq<Id>, x: Id): (r: seq<Id>)
  {
    var k := InsertIndex(s, x);
    s[..k] + [x] + s[k..]
  }

  lemma InsertElems(s: seq<Id>, x: Id)
    ensures Elems(Insert(s, x)) == Elems(s) + {x}
  {
    var k := InsertIndex(s, x);
    var r := Insert(s, x);
    assert s == s[..k] + s[k..];
    forall y ensures y in r <==> y in s || y == x {
      assert y in r <==> y in s[..k] || y == x || y in s[k..];
    }
  }

  /** Everything before the insertion point is smaller, everything after it larger. */
  lemma InsertSplit(s: seq<Id>, x: Id)
    requires Ascending(s) && x !in s
    ensures forall i :: 0 <= i < InsertIndex(s, x) ==> Less(s[i], x)
    ensures forall i :: InsertIndex(s, x) <= i < |s| ==> Less(x, s[i])
  {
    var k := InsertIndex(s, x);
    forall i | 0 <= i < k ensures Less(s[i], x) { LessTrichotomy(s[i], x); }
    forall i | k <= i < |s| ensures Less(x, s[i]) {
      if i > k { LessTransitive(x, s[k], s[i]); }
    }
  }

  lemma InsertAscending(s: seq<Id>, x: Id)
    requires Ascending(s) && x !in s
    ensures Ascending(Insert(s, x))
  {
    InsertSplit(s, x);
    var k, r := InsertIndex(s, x), Insert(s, x);
    forall i, j | 0 <= i < j < |r| ensures Less(r[i], r[j]) {
      assert r[i] == if i < k then s[i] else if i == k then x else s[i - 1];
      assert r[j] == if j < k then s[j] else if j == k then x else s[j - 1];
    }
  }

  /** Array.prototype.sort on strings. */
  function SortIds(s: seq<Id>): (r: seq<Id>)
  {
    if s == [] then [] else Insert(SortIds(s[..|s| - 1]), s[|s| - 1])
  }

  lemma {:induction false} SortIdsAscend(s: seq<Id>)
    requires Distinct(s)
    ensures SortIds(s) == Ascend(Elems(s))
  {
    if s == [] {
      assert Elems(s) == {};
    } else {
      var init, x := s[..|s| - 1], s[|s| - 1];
      SortIdsAscend(init);
      AscendProperties(Elems(init));
      var t := SortIds(init);
      assert Elems(t) == Elems(init);
      assert x !in Elems(t);
      InsertAscending(t, x);
      InsertElems(t, x);
      SplitLast(s);
      AscendingIsAscend(Insert(t, x));
    }
  }

  lemma SplitLast(s: seq<Id>)
    requires s != []
    ensures Elems(s) == Elems(s[..|s| - 1]) + {s[|s| - 1]}
  {
    assert s == s[..|s| - 1] + [s[|s| - 1]];
  }

  lemma AscendingDistinct(s: seq<Id>)
    requires Ascending(s)
    ensures Distinct(s)
  {
    forall i, j | 0 <= i < j < |s| ensures s[i] != s[j] { LessTrichotomy(s[i], s[j]); }
  }

  lemma ConcatDistinct(a: seq<Id>, b: seq<Id>)
    requires Distinct(a) && Distinct(b) && Elems(a) !! Elems(b)
    ensures Distinct(a + b)
  {
    forall i, j | 0 <= i < |a| && 0 <= j < |b| ensures a[i] != b[j] {
      assert a[i] in Elems(a) && b[j] in Elems(b);
    }
  }
}
