/** Sequences that are sorted by a strict order. */
module Ordering {

  ghost predicate Asymmetric<T(!new)>(less: (T, T) -> bool) {
    forall x, y :: less(x, y) ==> !less(y, x)
  }

  ghost predicate InOrder<T>(less: (T, T) -> bool, s: seq<T>) {
    forall j, k :: 0 <= j < k < |s| ==> less(s[j], s[k])
  }

  ghost predicate SameMembers<T(!new)>(a: seq<T>, b: seq<T>) {
    forall x :: x in a <==> x in b
  }

  /** Sequences in order with the same members are the same. */
  lemma {:induction false} OneInOrder<T(!new)>(less: (T, T) -> bool, a: seq<T>, b: seq<T>)
    requires Asymmetric(less) && InOrder(less, a) && InOrder(less, b) && SameMembers(a, b)
    ensures a == b
  {
    assert |b| > 0 ==> b[0] in b;
    if a == [] {
    } else {
      assert a[0] in b;
      HeadIsFirst(less, a, b[0]);
      HeadIsFirst(less, b, a[0]);
      forall x
        ensures x in a[1..] <==> x in b[1..]
      {
        TailMember(less, a, x);
        TailMember(less, b, x);
      }
      OneInOrder(less, a[1..], b[1..]);
    }
  }

  lemma HeadIsFirst<T(!new)>(less: (T, T) -> bool, s: seq<T>, x: T)
    requires InOrder(less, s) && x in s
    ensures x == s[0] || less(s[0], x)
  {
    var k :| 0 <= k < |s| && s[k] == x;
  }

  lemma TailMember<T(!new)>(less: (T, T) -> bool, s: seq<T>, x: T)
    requires Asymmetric(less) && InOrder(less, s) && s != []
    ensures x in s[1..] <==> x in s && x != s[0]
  {
    if x in s[1..] {
      var k :| 0 <= k < |s| - 1 && s[1..][k] == x;
      assert s[k + 1] == x;
      assert less(s[0], s[k + 1]);
    }
  }
}
