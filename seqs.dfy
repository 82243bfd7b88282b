/**
 * Sequences that enumerate a set: the order in which a loop over a hash set
 * visits its elements is unspecified, so the model records that order as a
 * sequence holding every element of the set exactly once.
 */
module Seqs {

  /** No element occurs twice in `s`. */
  predicate Distinct<T(==)>(s: seq<T>)
  {
    forall i, j :: 0 <= i < j < |s| ==> s[i] != s[j]
  }

  /** `order` lists the elements of `s`, each exactly once, in some order. */
  predicate Enumerates<T(==)>(order: seq<T>, s: set<T>)
  {
    && Distinct(order)
    && (forall x :: x in order ==> x in s)
    && (forall x :: x in s ==> x in order)
  }

  /** Dropping the last element of a distinct sequence leaves a distinct sequence without it. */
  lemma DistinctInit<T>(s: seq<T>)
    requires Distinct(s) && s != []
    ensures Distinct(s[..|s| - 1]) && s[|s| - 1] !in s[..|s| - 1]
  {
  }

  /** The elements before a distinct sequence's i-th one do not include it; adding it gives the elements up to it. */
  lemma ElementsPrefix<T>(s: seq<T>, i: nat)
    requires Distinct(s) && i < |s|
    ensures s[i] !in Elements(s[..i])
    ensures Elements(s[..i + 1]) == Elements(s[..i]) + {s[i]}
    ensures Elements(s[..i]) == {} <==> i == 0
  {
    assert s[..i + 1] == s[..i] + [s[i]];
    if i > 0 {
      assert s[..i][0] in Elements(s[..i]);
    }
  }

  /** Visiting one more element extends the enumeration of the visited set. */
  lemma EnumeratesAppend<T>(order: seq<T>, s: set<T>, x: T)
    requires Enumerates(order, s) && x !in s
    ensures Enumerates(order + [x], s + {x})
  {
  }

  /** The elements of a sequence, as a set. */
  function Elements<T>(s: seq<T>): set<T>
  {
    set x | x in s
  }

  /** An enumeration of a set is exactly as long as the set is large. */
  lemma {:induction false} EnumerationSize<T>(order: seq<T>, s: set<T>)
    requires Enumerates(order, s)
    ensures |order| == |s|
    decreases |order|
  {
    if order != [] {
      var n := |order| - 1;
      var init, last := order[..n], order[n];
      assert order == init + [last];
      assert last !in init by {
        forall i | 0 <= i < n ensures init[i] != last {
          assert order[i] != order[n];
        }
      }
      assert Enumerates(init, s - {last}) by {
        forall x | x in s - {last} ensures x in init {
          assert x in order;
        }
      }
      EnumerationSize(init, s - {last});
    }
  }

  /** A distinct sequence enumerates its own elements. */
  lemma DistinctEnumerates<T>(s: seq<T>)
    requires Distinct(s)
    ensures Enumerates(s, Elements(s)) && |Elements(s)| == |s|
  {
    EnumerationSize(s, Elements(s));
  }

  /** An element found at exactly one index occurs exactly once. */
  lemma CountAt<T>(s: seq<T>, k: nat, x: T)
    requires k < |s| && s[k] == x
    requires forall j :: 0 <= j < |s| && j != k ==> s[j] != x
    ensures multiset(s)[x] == 1
  {
    assert s == s[..k] + [x] + s[k + 1..];
    assert x !in s[..k];
    assert x !in s[k + 1..];
  }

  /** In a distinct sequence, every element occurs exactly once. */
  lemma DistinctCount<T>(s: seq<T>, x: T)
    requires Distinct(s)
    ensures multiset(s)[x] == if x in s then 1 else 0
  {
    if x in s {
      var k :| 0 <= k < |s| && s[k] == x;
      CountAt(s, k, x);
    }
  }
}
