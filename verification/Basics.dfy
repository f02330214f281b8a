/** What several modules share: optional values, predicates on sequences, orders and two small algebraic facts. */
module Basics {
  datatype Option<T> = None | Some(value: T)

  predicate Distinct<T(==)>(s: seq<T>) {
    forall j, k :: 0 <= j < k < |s| ==> s[j] != s[k]
  }

  predicate StartsWith(s: string, start: string) {
    |start| <= |s| && s[..|start|] == start
  }

  lemma ConcatAssociative<T>(a: seq<T>, b: seq<T>, c: seq<T>)
    ensures (a + b) + c == a + (b + c)
  {
  }

  lemma CancelFactor(x: real, y: real, a: real)
    requires a != 0.0 && x * a == y * a
    ensures x == y
  {
    assert (x - y) * a == 0.0;
  }

  // Lists of lists, end to end.

  function Concat<T>(lists: seq<seq<T>>): seq<T> {
    if lists == [] then [] else Concat(lists[..|lists| - 1]) + lists[|lists| - 1]
  }

  lemma {:induction false} ConcatMember<T>(lists: seq<seq<T>>, v: T)
    ensures v in Concat(lists) <==> exists k :: 0 <= k < |lists| && v in lists[k]
  {
    if lists == [] {
    } else {
      ConcatMember(lists[..|lists| - 1], v);
    }
  }

  lemma ConcatStep<T>(lists: seq<seq<T>>, k: nat)
    requires k < |lists|
    ensures Concat(lists[..k + 1]) == Concat(lists[..k]) + lists[k]
  {
    assert lists[..k + 1][..k] == lists[..k];
  }

  // Lists in a strict order, given by a key of three numbers.

  type Key = (int, int, int)

  predicate KeyLess(a: Key, b: Key) {
    a.0 < b.0 || (a.0 == b.0 && (a.1 < b.1 || (a.1 == b.1 && a.2 < b.2)))
  }

  /** The lexicographic order: strict and total, and decided by the first number that differs. */
  lemma KeysAreOrdered(a: Key, b: Key)
    ensures !KeyLess(a, a) && (a != b ==> KeyLess(a, b) != KeyLess(b, a))
    ensures a.0 < b.0 || (a.0 == b.0 && a.1 < b.1) || (a.0 == b.0 && a.1 == b.1 && a.2 < b.2) ==> KeyLess(a, b)
  {
  }

  /** In an ordered list no key occurs twice. */
  lemma OrderedOnce<T>(s: seq<T>, key: T -> Key, j: nat, k: nat)
    requires Ordered(s, key) && j < |s| && k < |s| && key(s[j]) == key(s[k])
    ensures j == k
  {
    KeysAreOrdered(key(s[j]), key(s[k]));
  }

  ghost predicate Ordered<T>(s: seq<T>, key: T -> Key) {
    forall j, k :: 0 <= j < k < |s| ==> KeyLess(key(s[j]), key(s[k]))
  }

  lemma OrderedConcat<T>(a: seq<T>, b: seq<T>, key: T -> Key)
    requires Ordered(a, key) && Ordered(b, key)
    requires forall x, y :: x in a && y in b ==> KeyLess(key(x), key(y))
    ensures Ordered(a + b, key)
  {
    forall j, k | 0 <= j < k < |a + b| ensures KeyLess(key((a + b)[j]), key((a + b)[k])) {
      assert j < |a| ==> (a + b)[j] in a;
      assert k >= |a| ==> (a + b)[k] in b;
    }
  }

  /** End to end, ordered lists are ordered if the keys of each are below those of every later one. */
  lemma {:induction false} OrderedLists<T>(lists: seq<seq<T>>, key: T -> Key)
    requires forall k :: 0 <= k < |lists| ==> Ordered(lists[k], key)
    requires forall j, k, x, y :: 0 <= j < k < |lists| && x in lists[j] && y in lists[k] ==> KeyLess(key(x), key(y))
    ensures Ordered(Concat(lists), key)
  {
    if lists == [] {
    } else {
      var front, last := lists[..|lists| - 1], lists[|lists| - 1];
      OrderedLists(front, key);
      forall x, y | x in Concat(front) && y in last ensures KeyLess(key(x), key(y)) {
        ConcatMember(front, x);
        var j :| 0 <= j < |front| && x in front[j];
        assert lists[j] == front[j];
      }
      OrderedConcat(Concat(front), last, key);
    }
  }
}
