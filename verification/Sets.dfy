/** Sizes of finite sets. */
module Sets {

  lemma SubsetSize<T>(a: set<T>, b: set<T>)
    requires a <= b
    ensures |a| <= |b|
  {
    assert b == a + (b - a);
  }

  lemma UnionOneMore<T>(a: set<T>, b: set<T>, x: T)
    ensures a + b + {x} == a + (b + {x})
  {
  }

  lemma SizeWithTwo<T>(x: T, y: T, s: set<T>)
    requires x != y && x !in s && y !in s
    ensures {x} + {y} + s == {x, y} + s && |{x, y} + s| == |s| + 2
    ensures {x} + {} + s == {x} + s && |{x} + s| == |s| + 1
  {
    assert {x, y} + s == {x} + ({y} + s);
  }

  /** A set of numbers from `lo` up to, not including, `hi` has at most `hi - lo` members. */
  lemma {:induction false} RangeSize(s: set<nat>, lo: nat, hi: nat)
    requires lo <= hi && forall x :: x in s ==> lo <= x < hi
    ensures |s| <= hi - lo
    decreases hi - lo
  {
    if lo == hi {
      assert s == {};
    } else {
      RangeSize(s - {lo}, lo + 1, hi);
      assert s <= (s - {lo}) + {lo};
    }
  }
}
