/** Sorting by a comparison, and the uniqueness of its result. */
module Sorting {

  /** No later element goes before an earlier one. */
  ghost predicate Sorted<T>(less: (T, T) -> bool, s: seq<T>) {
    forall i, j :: 0 <= i < j < |s| ==> !less(s[j], s[i])
  }

  /** On this domain the comparison is a strict weak order. */
  ghost predicate Orders<T>(less: (T, T) -> bool, domain: set<T>) {
    && (forall x, y :: x in domain && y in domain && less(x, y) ==> !less(y, x))
    && (forall x, y, z :: x in domain && y in domain && z in domain && !less(y, x) && !less(z, y) ==> !less(z, x))
  }

  /** On these elements the comparison tells any two apart. */
  ghost predicate Separates<T>(less: (T, T) -> bool, s: seq<T>) {
    forall x, y :: x in s && y in s && !less(x, y) && !less(y, x) ==> x == y
  }

  ghost predicate Within<T>(s: seq<T>, domain: set<T>) {
    forall i :: 0 <= i < |s| ==> s[i] in domain
  }

  function Insert<T>(less: (T, T) -> bool, x: T, s: seq<T>): seq<T> {
    if s == [] || !less(s[0], x) then [x] + s else [s[0]] + Insert(less, x, s[1..])
  }

  function Sort<T>(less: (T, T) -> bool, s: seq<T>): seq<T> {
    if s == [] then [] else Insert(less, s[0], Sort(less, s[1..]))
  }

  lemma {:induction false} InsertKeepsElements<T>(less: (T, T) -> bool, x: T, s: seq<T>)
    ensures multiset(Insert(less, x, s)) == multiset{x} + multiset(s)
  {
    if s != [] && less(s[0], x) {
      InsertKeepsElements(less, x, s[1..]);
      assert s == [s[0]] + s[1..];
    }
  }

  lemma {:induction false} SortKeepsElements<T>(less: (T, T) -> bool, s: seq<T>)
    ensures multiset(Sort(less, s)) == multiset(s)
  {
    if s != [] {
      SortKeepsElements(less, s[1..]);
      InsertKeepsElements(less, s[0], Sort(less, s[1..]));
      assert s == [s[0]] + s[1..];
    }
  }

  lemma SameElements<T>(s: seq<T>, t: seq<T>)
    requires multiset(s) == multiset(t)
    ensures |s| == |t|
    ensures forall x :: x in s <==> x in t
  {
    assert |s| == |multiset(s)| && |t| == |multiset(t)|;
    forall x
      ensures x in s <==> x in t
    {
      assert x in s <==> x in multiset(s);
      assert x in t <==> x in multiset(t);
    }
  }

  /** Inserting keeps the domain, the order, and a lower bound. */
  lemma {:induction false} InsertSorts<T>(less: (T, T) -> bool, domain: set<T>, x: T, s: seq<T>)
    requires Orders(less, domain) && Within(s, domain) && x in domain && Sorted(less, s)
    ensures Sorted(less, Insert(less, x, s)) && Within(Insert(less, x, s), domain)
    ensures forall b :: !less(x, b) && (forall i :: 0 <= i < |s| ==> !less(s[i], b)) ==>
              forall i :: 0 <= i < |Insert(less, x, s)| ==> !less(Insert(less, x, s)[i], b)
  {
    if s != [] && less(s[0], x) {
      InsertSorts(less, domain, x, s[1..]);
      assert forall i :: 0 <= i < |s[1..]| ==> !less(s[1..][i], s[0]);
    }
  }

  lemma {:induction false} SortSorts<T>(less: (T, T) -> bool, domain: set<T>, s: seq<T>)
    requires Orders(less, domain) && Within(s, domain)
    ensures Sorted(less, Sort(less, s)) && Within(Sort(less, s), domain)
  {
    if s != [] {
      SortSorts(less, domain, s[1..]);
      InsertSorts(less, domain, s[0], Sort(less, s[1..]));
    }
  }

  lemma SameHead<T>(less: (T, T) -> bool, s: seq<T>, t: seq<T>)
    requires Sorted(less, s) && Sorted(less, t) && Separates(less, s) && s != [] && t != []
    requires forall x :: x in s <==> x in t
    ensures s[0] == t[0]
  {
    var x, y := s[0], t[0];
    assert y in t && x in s;
    var i :| 0 <= i < |s| && s[i] == y;
    var j :| 0 <= j < |t| && t[j] == x;
    assert i > 0 ==> !less(s[i], s[0]);
    assert j > 0 ==> !less(t[j], t[0]);
  }

  lemma SameTail<T>(s: seq<T>, t: seq<T>)
    requires s != [] && t != [] && s[0] == t[0] && multiset(s) == multiset(t)
    ensures multiset(s[1..]) == multiset(t[1..])
  {
    assert s == [s[0]] + s[1..] && t == [t[0]] + t[1..];
    assert multiset(s[1..]) == multiset(s) - multiset{s[0]};
    assert multiset(t[1..]) == multiset(t) - multiset{t[0]};
  }

  /** Whatever algorithm sorts: two sorted arrangements of the same elements are equal. */
  lemma {:induction false} SortedIsUnique<T>(less: (T, T) -> bool, s: seq<T>, t: seq<T>)
    requires Sorted(less, s) && Sorted(less, t) && multiset(s) == multiset(t) && Separates(less, s)
    ensures s == t
  {
    SameElements(s, t);
    if s != [] {
      SameHead(less, s, t);
      SameTail(s, t);
      SortedIsUnique(less, s[1..], t[1..]);
      assert s == [s[0]] + s[1..] && t == [t[0]] + t[1..];
    }
  }

  ghost predicate NoRepeats<T>(s: seq<T>) {
    forall i, j :: 0 <= i < j < |s| ==> s[i] != s[j]
  }

  /** Lists without repeats are rearrangements of each other when they have the same elements. */
  lemma SameSetSameMultiset<T>(s: seq<T>, t: seq<T>)
    requires NoRepeats(s) && NoRepeats(t) && forall x :: x in s <==> x in t
    ensures multiset(s) == multiset(t)
  {
    forall x
      ensures multiset(s)[x] == multiset(t)[x]
    {
      AtMostOnce(s, x);
      AtMostOnce(t, x);
    }
  }

  lemma {:induction false} AtMostOnce<T>(s: seq<T>, x: T)
    requires NoRepeats(s)
    ensures multiset(s)[x] == if x in s then 1 else 0
  {
    if s != [] {
      AtMostOnce(s[1..], x);
      assert s == [s[0]] + s[1..];
      assert s[0] !in s[1..];
    }
  }

  lemma RearrangedWithoutRepeats<T>(s: seq<T>, t: seq<T>)
    requires NoRepeats(s) && multiset(s) == multiset(t)
    ensures NoRepeats(t)
  {
    forall i, j | 0 <= i < j < |t|
      ensures t[i] != t[j]
    {
      var x := t[i];
      AtMostOnce(s, x);
      assert t == t[..j] + t[j..];
      assert multiset(t)[x] == multiset(t[..j])[x] + multiset(t[j..])[x];
      assert t[..j][i] == x && x in t[..j];
      assert t[j..][0] == t[j];
    }
  }

  /** Removes the element at index `i`. */
  function Without<T>(s: seq<T>, i: nat): (r: seq<T>)
    requires i < |s|
    ensures |r| == |s| - 1
  {
    s[..i] + s[i + 1..]
  }

  lemma WithoutRemovesOne<T>(s: seq<T>, i: nat)
    requires i < |s|
    ensures multiset(Without(s, i)) == multiset(s) - multiset{s[i]}
  {
    assert s == s[..i] + [s[i]] + s[i + 1..];
  }
}
