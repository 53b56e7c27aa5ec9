/** Order-preserving selection and counting over sequences, the shape of a queryset `filter` and `count`. */
module Seqs {

  /** The elements of `s` for which `keep` holds, in their original order. */
  function Filter<T(!new)>(s: seq<T>, keep: T -> bool): (r: seq<T>)
    ensures |r| <= |s|
    ensures forall x :: x in r <==> x in s && keep(x)
    ensures forall x :: multiset(r)[x] == if keep(x) then multiset(s)[x] else 0
  {
    if |s| == 0 then []
    else
      assert s == [s[0]] + s[1..];
      if keep(s[0]) then [s[0]] + Filter(s[1..], keep) else Filter(s[1..], keep)
  }

  /** Filtering a non-empty sequence decides its first element, then filters the rest. */
  lemma FilterCons<T(!new)>(s: seq<T>, keep: T -> bool)
    requires |s| > 0
    ensures Filter(s, keep) == (if keep(s[0]) then [s[0]] else []) + Filter(s[1..], keep)
  {
  }

  /** Dropping the first element of a concatenation drops it from the front part. */
  lemma TailOfAppend<T>(a: seq<T>, b: seq<T>)
    requires |a| > 0
    ensures (a + b)[0] == a[0] && (a + b)[1..] == a[1..] + b
  {
  }

  /** Concatenation is associative. */
  lemma AppendAssoc<T>(x: seq<T>, y: seq<T>, z: seq<T>)
    ensures x + (y + z) == (x + y) + z
  {
  }

  /**
   * Filtering keeps the original order: filtering a concatenation gives the
   * filtered front followed by the filtered back.
   */
  lemma {:induction false} FilterAppend<T(!new)>(a: seq<T>, b: seq<T>, keep: T -> bool)
    ensures Filter(a + b, keep) == Filter(a, keep) + Filter(b, keep)
    decreases |a|
  {
    if |a| == 0 {
      assert a + b == b;
    } else {
      var head := if keep(a[0]) then [a[0]] else [];
      var front, back := Filter(a[1..], keep), Filter(b, keep);
      assert Filter(a + b, keep) == head + Filter(a[1..] + b, keep) by {
        TailOfAppend(a, b);
        FilterCons(a + b, keep);
      }
      assert Filter(a, keep) == head + front by {
        FilterCons(a, keep);
      }
      assert Filter(a[1..] + b, keep) == front + back by {
        FilterAppend(a[1..], b, keep);
      }
      AppendAssoc(head, front, back);
    }
  }

  /** How many elements of `s` satisfy `keep`. */
  function Count<T>(s: seq<T>, keep: T -> bool): (n: nat)
    ensures n <= |s|
    ensures n == 0 <==> forall i :: 0 <= i < |s| ==> !keep(s[i])
  {
    if |s| == 0 then 0
    else (if keep(s[0]) then 1 else 0) + Count(s[1..], keep)
  }

  /** Counting agrees with the length of the filtered sequence. */
  lemma {:induction false} CountIsFilterLength<T(!new)>(s: seq<T>, keep: T -> bool)
    ensures Count(s, keep) == |Filter(s, keep)|
    decreases |s|
  {
    if |s| > 0 {
      CountIsFilterLength(s[1..], keep);
    }
  }

  /** Filtering twice keeps exactly the elements that pass both tests, with their multiplicities. */
  lemma FilterTwice<T(!new)>(s: seq<T>, first: T -> bool, second: T -> bool)
    ensures forall x :: multiset(Filter(Filter(s, first), second))[x]
                        == if first(x) && second(x) then multiset(s)[x] else 0
  {
  }
}
