/** `toSorted` for a comparison that is a total order, and the uniqueness of its result. */
module Sorting {

  ghost predicate TotalOrder<T(!new)>(leq: (T, T) -> bool) {
    && (forall a, b :: leq(a, b) || leq(b, a))
    && (forall a, b :: leq(a, b) && leq(b, a) ==> a == b)
    && (forall a, b, c :: leq(a, b) && leq(b, c) ==> leq(a, c))
  }

  ghost predicate Sorted<T>(s: seq<T>, key: T -> string, leq: (string, string) -> bool) {
    forall i, j | 0 <= i < j < |s| :: leq(key(s[i]), key(s[j]))
  }

  function Insert<T>(s: seq<T>, x: T, key: T -> string, leq: (string, string) -> bool): seq<T> {
    if s == [] then [x]
    else if leq(key(s[|s| - 1]), key(x)) then s + [x]
    else Insert(s[..|s| - 1], x, key, leq) + [s[|s| - 1]]
  }

  function Sort<T>(s: seq<T>, key: T -> string, leq: (string, string) -> bool): seq<T> {
    if s == [] then [] else Insert(Sort(s[..|s| - 1], key, leq), s[|s| - 1], key, leq)
  }

  lemma {:induction false} InsertPermutes<T>(s: seq<T>, x: T, key: T -> string, leq: (string, string) -> bool)
    ensures multiset(Insert(s, x, key, leq)) == multiset(s) + multiset{x}
    ensures forall y | y in Insert(s, x, key, leq) :: y in s || y == x
  {
    if s != [] {
      WithoutLast(s);
      InsertPermutes(s[..|s| - 1], x, key, leq);
    }
  }

  lemma {:induction false} InsertSorts<T>(s: seq<T>, x: T, key: T -> string, leq: (string, string) -> bool)
    requires TotalOrder(leq) && Sorted(s, key, leq)
    ensures multiset(Insert(s, x, key, leq)) == multiset(s) + multiset{x}
    ensures Sorted(Insert(s, x, key, leq), key, leq)
  {
    hide TotalOrder, Sorted;
    InsertPermutes(s, x, key, leq);
    if s == [] {
      AppendSorted([], x, key, leq);
      assert [] + [x] == [x];
    } else {
      var n := |s| - 1;
      LastIsGreatest(s, x, key, leq);
      if leq(key(s[n]), key(x)) {
        AppendSorted(s, x, key, leq);
      } else {
        PrefixSorted(s, n, key, leq);
        InsertSorts(s[..n], x, key, leq);
        InsertPermutes(s[..n], x, key, leq);
        AppendSorted(Insert(s[..n], x, key, leq), s[n], key, leq);
      }
    }
  }

  lemma {:induction false} AppendSorted<T>(s: seq<T>, x: T, key: T -> string, leq: (string, string) -> bool)
    requires Sorted(s, key, leq) && forall y | y in s :: leq(key(y), key(x))
    ensures Sorted(s + [x], key, leq)
  {
  }

  /** Nothing in a sorted sequence is greater than its last element, or than what that is not greater than. */
  lemma {:induction false} LastIsGreatest<T>(s: seq<T>, x: T, key: T -> string, leq: (string, string) -> bool)
    requires TotalOrder(leq) && Sorted(s, key, leq) && s != []
    ensures var last := s[|s| - 1];
            && (leq(key(last), key(x)) || leq(key(x), key(last)))
            && forall y | y in s :: leq(key(y), key(last)) && (leq(key(last), key(x)) ==> leq(key(y), key(x)))
  {
  }

  lemma {:induction false} SortSorts<T>(s: seq<T>, key: T -> string, leq: (string, string) -> bool)
    requires TotalOrder(leq)
    ensures multiset(Sort(s, key, leq)) == multiset(s) && Sorted(Sort(s, key, leq), key, leq)
  {
    if s != [] {
      var n := |s| - 1;
      SortSorts(s[..n], key, leq);
      InsertSorts(Sort(s[..n], key, leq), s[n], key, leq);
      assert s == s[..n] + [s[n]];
    }
  }

  ghost predicate KeysDistinct<T>(s: seq<T>, key: T -> string) {
    forall i, j | 0 <= i < j < |s| :: key(s[i]) != key(s[j])
  }

  lemma {:induction false} SameLast<T>(a: seq<T>, b: seq<T>, key: T -> string, leq: (string, string) -> bool)
    requires TotalOrder(leq) && multiset(a) == multiset(b) && a != []
    requires Sorted(a, key, leq) && Sorted(b, key, leq) && KeysDistinct(b, key)
    ensures |a| == |b| && a[|a| - 1] == b[|b| - 1]
  {
    assert |multiset(a)| == |a| && |multiset(b)| == |b|;
    var n := |a| - 1;
    assert a[n] in multiset(b) && b[n] in multiset(a);
    var i :| 0 <= i < |b| && b[i] == a[n];
    var j :| 0 <= j < |a| && a[j] == b[n];
    assert leq(key(b[i]), key(b[n]));
    assert leq(key(a[j]), key(a[n]));
    assert i == n;
  }

  /** Two sorted sequences of the same elements with distinct keys are equal. */
  lemma {:induction false} SortedUnique<T>(a: seq<T>, b: seq<T>, key: T -> string, leq: (string, string) -> bool)
    requires TotalOrder(leq) && multiset(a) == multiset(b)
    requires Sorted(a, key, leq) && Sorted(b, key, leq) && KeysDistinct(b, key)
    ensures a == b
  {
    hide TotalOrder, Sorted, KeysDistinct;
    if a == [] {
      assert |multiset(b)| == |b|;
    } else {
      var n := |a| - 1;
      SameLast(a, b, key, leq);
      WithoutLast(a);
      WithoutLast(b);
      PrefixSorted(a, n, key, leq);
      PrefixSorted(b, n, key, leq);
      PrefixDistinct(b, n, key);
      SortedUnique(a[..n], b[..n], key, leq);
    }
  }

  lemma {:induction false} WithoutLast<T>(s: seq<T>)
    requires s != []
    ensures var n := |s| - 1;
            s == s[..n] + [s[n]] && multiset(s[..n]) == multiset(s) - multiset{s[n]}
  {
    var n := |s| - 1;
    assert s == s[..n] + [s[n]];
  }

  lemma {:induction false} PrefixSorted<T>(s: seq<T>, n: nat, key: T -> string, leq: (string, string) -> bool)
    requires n <= |s| && Sorted(s, key, leq)
    ensures Sorted(s[..n], key, leq)
  {
  }

  lemma {:induction false} PrefixDistinct<T>(s: seq<T>, n: nat, key: T -> string)
    requires n <= |s| && KeysDistinct(s, key)
    ensures KeysDistinct(s[..n], key)
  {
  }

  /** Distinctness of keys survives permutation. */
  lemma {:induction false} PermutedDistinct<T>(a: seq<T>, b: seq<T>, key: T -> string)
    requires multiset(a) == multiset(b) && KeysDistinct(a, key)
    ensures KeysDistinct(b, key)
  {
    forall i, j | 0 <= i < j < |b|
      ensures key(b[i]) != key(b[j])
    {
      if key(b[i]) == key(b[j]) {
        assert b[i] in multiset(a) && b[j] in multiset(a);
        var i' :| 0 <= i' < |a| && a[i'] == b[i];
        var j' :| 0 <= j' < |a| && a[j'] == b[j];
        assert i' == j';
        TwiceIn(b, i, j);
        OnceIn(a, i', key);
        assert false;
      }
    }
  }

  lemma {:induction false} TwiceIn<T>(s: seq<T>, i: nat, j: nat)
    requires i < j < |s| && s[i] == s[j]
    ensures multiset(s)[s[i]] >= 2
  {
    assert s == s[..i] + [s[i]] + s[i + 1..j] + [s[j]] + s[j + 1..];
  }

  lemma {:induction false} OnceIn<T>(s: seq<T>, i: nat, key: T -> string)
    requires i < |s| && KeysDistinct(s, key)
    ensures multiset(s)[s[i]] == 1
  {
    var before, after := s[..i], s[i + 1..];
    assert s == before + [s[i]] + after;
    assert s[i] !in before && s[i] !in after;
    assert multiset(s) == multiset(before) + multiset{s[i]} + multiset(after);
  }
}
