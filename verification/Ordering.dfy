/** Sorting by a total preorder: what `sorted`, `sort.Slice` and SQL's ORDER BY promise, ties in any order. */
module Ordering {

  ghost predicate TotalPreorder<T(!new)>(leq: (T, T) -> bool) {
    && (forall x, y :: leq(x, y) || leq(y, x))
    && (forall x, y, z :: leq(x, y) && leq(y, z) ==> leq(x, z))
  }

  ghost predicate SortedBy<T>(s: seq<T>, leq: (T, T) -> bool) {
    forall i, j :: 0 <= i < j < |s| ==> leq(s[i], s[j])
  }

  ghost predicate NoDuplicates<T>(s: seq<T>) {
    forall i, j :: 0 <= i < j < |s| ==> s[i] != s[j]
  }

  lemma MinimumExists<T(!new)>(s: set<T>, leq: (T, T) -> bool) returns (m: T)
    requires s != {} && TotalPreorder(leq)
    ensures m in s && forall x :: x in s ==> leq(m, x)
  {
    m :| m in s;
    if s != {m} {
      var n := MinimumExists(s - {m}, leq);
      if leq(n, m) {
        m := n;
      }
    }
  }

  method SortSet<T(!new, ==)>(s: set<T>, leq: (T, T) -> bool) returns (r: seq<T>)
    requires TotalPreorder(leq)
    ensures SortedBy(r, leq) && NoDuplicates(r)
    ensures forall x :: x in r <==> x in s
    ensures |r| == |s|
  {
    r := [];
    var rest := s;
    while rest != {}
      invariant SortedBy(r, leq) && NoDuplicates(r)
      invariant forall x :: x in s <==> x in r || x in rest
      invariant forall x :: x in r ==> x !in rest
      invariant forall x, y :: x in r && y in rest ==> leq(x, y)
      invariant |r| + |rest| == |s|
    {
      ghost var m := MinimumExists(rest, leq);
      var x :| x in rest && forall y :: y in rest ==> leq(x, y);
      r := r + [x];
      rest := rest - {x};
    }
  }

  function Inserted<T(!new)>(x: T, s: seq<T>, leq: (T, T) -> bool): (r: seq<T>)
    requires TotalPreorder(leq) && SortedBy(s, leq)
    ensures |r| == |s| + 1 && multiset(r) == multiset(s) + multiset{x}
    ensures forall y :: y in r <==> y == x || y in s
    ensures SortedBy(r, leq)
  {
    if s == [] || leq(x, s[0]) then [x] + s
    else
      var rest := Inserted(x, s[1..], leq);
      assert s == [s[0]] + s[1..];
      assert forall y :: y in rest ==> leq(s[0], y);
      [s[0]] + rest
  }

  function Sorted<T(!new)>(s: seq<T>, leq: (T, T) -> bool): (r: seq<T>)
    requires TotalPreorder(leq)
    ensures SortedBy(r, leq) && |r| == |s|
    ensures multiset(r) == multiset(s)
  {
    if s == [] then []
    else
      assert s == [s[0]] + s[1..];
      Inserted(s[0], Sorted(s[1..], leq), leq)
  }

  lemma {:induction false} CountsAreOne<T>(s: seq<T>)
    requires NoDuplicates(s)
    ensures forall x :: multiset(s)[x] <= 1
  {
    if s != [] {
      var front, last := s[..|s| - 1], s[|s| - 1];
      assert s == front + [last];
      CountsAreOne(front);
      assert last !in front;
    }
  }

  /** A rearrangement of a list without duplicates has none either. */
  lemma RearrangedStaysDistinct<T>(s: seq<T>, t: seq<T>)
    requires NoDuplicates(s) && multiset(s) == multiset(t)
    ensures NoDuplicates(t)
  {
    CountsAreOne(s);
    forall i, j | 0 <= i < j < |t| ensures t[i] != t[j] {
      assert t == t[..j] + t[j..];
      assert t[i] in t[..j] && t[j] in t[j..];
      assert multiset(t)[t[i]] == multiset(t[..j])[t[i]] + multiset(t[j..])[t[i]];
    }
  }
}
