/** Array operations the pages use: `filter` and `find`. */
module Seqs {
  import opened Wrappers

  /** The elements of `s` that satisfy `p`, in their original order (`Array.prototype.filter`). */
  function Filter<T(!new)>(p: T -> bool, s: seq<T>): (r: seq<T>)
    ensures |r| <= |s|
    ensures forall x {:trigger x in r} :: x in r ==> x in s && p(x)
    ensures forall x {:trigger x in s} :: x in s && p(x) ==> x in r
  {
    if s == [] then []
    else
      var init, last := s[..|s| - 1], s[|s| - 1];
      assert s == init + [last];
      Filter(p, init) + (if p(last) then [last] else [])
  }

  /** Filtering a concatenation filters each part: the kept elements stay in order. */
  lemma {:induction false} FilterAppend<T(!new)>(p: T -> bool, a: seq<T>, b: seq<T>)
    ensures Filter(p, a + b) == Filter(p, a) + Filter(p, b)
  {
    if b == [] {
      assert a + b == a;
    } else {
      var init, last := b[..|b| - 1], b[|b| - 1];
      assert (a + b)[..|a + b| - 1] == a + init;
      FilterAppend(p, a, init);
    }
  }

  /** Appending one element keeps it exactly when it satisfies `p`. */
  lemma FilterAppendOne<T(!new)>(p: T -> bool, s: seq<T>, x: T)
    ensures Filter(p, s + [x]) == Filter(p, s) + (if p(x) then [x] else [])
  {
    assert (s + [x])[..|s|] == s;
  }

  /** Filtering a one-element sequence. */
  lemma FilterSingleton<T(!new)>(p: T -> bool, x: T)
    ensures Filter(p, [x]) == if p(x) then [x] else []
  {
    assert [x][..0] == [];
  }

  /** A predicate that holds of every element keeps the whole sequence. */
  lemma {:induction false} FilterKeepsAll<T(!new)>(p: T -> bool, s: seq<T>)
    requires forall x :: x in s ==> p(x)
    ensures Filter(p, s) == s
  {
    if s != [] {
      var init, last := s[..|s| - 1], s[|s| - 1];
      assert s == init + [last];
      assert p(last) by { assert last in s; }
      forall x | x in init
        ensures p(x)
      {
        assert x in s;
      }
      FilterKeepsAll(p, init);
    }
  }

  /** The number of kept elements is the number of positions whose element satisfies `p`. */
  lemma {:induction false} FilterCount<T(!new)>(p: T -> bool, s: seq<T>)
    ensures |Filter(p, s)| == |PositionsWhere(p, s)|
  {
    if s != [] {
      var n := |s| - 1;
      var init := s[..n];
      FilterCount(p, init);
      assert |Filter(p, s)| == |Filter(p, init)| + (if p(s[n]) then 1 else 0);
      var before, after := PositionsWhere(p, init), PositionsWhere(p, s);
      assert forall i: nat :: i in before <==> i < n && p(s[i]);
      assert forall i: nat :: i in after <==> i in before || (i == n && p(s[n]));
      if p(s[n]) {
        assert after == before + {n};
      } else {
        assert after == before;
      }
    }
  }

  /** The positions of `s` whose element satisfies `p`: an independent account of what `Filter` keeps. */
  ghost function PositionsWhere<T(!new)>(p: T -> bool, s: seq<T>): set<nat>
  {
    set i: nat | i < |s| && p(s[i])
  }

  /** Replacing one element changes the count of kept elements by what the two elements add. */
  lemma FilterUpdate<T(!new)>(p: T -> bool, s: seq<T>, k: nat, y: T)
    requires k < |s|
    ensures |Filter(p, s[k := y])| == |Filter(p, s)| - (if p(s[k]) then 1 else 0) + (if p(y) then 1 else 0)
  {
    var pre, post := s[..k], s[k + 1..];
    assert s == pre + [s[k]] + post;
    assert s[k := y] == pre + [y] + post;
    FilterAppend(p, pre + [s[k]], post);
    FilterAppend(p, pre, [s[k]]);
    FilterAppend(p, pre + [y], post);
    FilterAppend(p, pre, [y]);
    FilterSingleton(p, s[k]);
    FilterSingleton(p, y);
  }

  /** Two complementary predicates split `s`: every element lands in exactly one part. */
  lemma {:induction false} FilterSplit<T(!new)>(p: T -> bool, q: T -> bool, s: seq<T>)
    requires forall x :: x in s ==> (p(x) <==> !q(x))
    ensures |Filter(p, s)| + |Filter(q, s)| == |s|
    ensures multiset(Filter(p, s)) + multiset(Filter(q, s)) == multiset(s)
  {
    if s != [] {
      var init, last := s[..|s| - 1], s[|s| - 1];
      assert s == init + [last];
      assert forall x :: x in init ==> x in s;
      FilterSplit(p, q, init);
      assert Filter(p, s) == Filter(p, init) + (if p(last) then [last] else []);
      assert Filter(q, s) == Filter(q, init) + (if q(last) then [last] else []);
      assert multiset(s) == multiset(init) + multiset{last};
      assert last in s;
      if p(last) {
        assert multiset(Filter(p, s)) == multiset(Filter(p, init)) + multiset{last};
        assert Filter(q, s) == Filter(q, init);
      } else {
        assert multiset(Filter(q, s)) == multiset(Filter(q, init)) + multiset{last};
        assert Filter(p, s) == Filter(p, init);
      }
    }
  }

  /** A predicate that holds of no element keeps nothing. */
  lemma {:induction false} FilterKeepsNone<T(!new)>(p: T -> bool, s: seq<T>)
    requires forall x :: x in s ==> !p(x)
    ensures Filter(p, s) == []
  {
    if s != [] {
      var init := s[..|s| - 1];
      assert forall x :: x in init ==> x in s;
      FilterKeepsNone(p, init);
    }
  }

  /** A stronger condition keeps no more elements than a weaker one. */
  lemma {:induction false} FilterMonotone<T(!new)>(p: T -> bool, q: T -> bool, s: seq<T>)
    requires forall x :: x in s && p(x) ==> q(x)
    ensures |Filter(p, s)| <= |Filter(q, s)|
  {
    if s != [] {
      var init := s[..|s| - 1];
      assert forall x :: x in init ==> x in s;
      FilterMonotone(p, q, init);
    }
  }

  /** Conditions that agree on the elements keep the same elements. */
  lemma {:induction false} FilterAgree<T(!new)>(p: T -> bool, q: T -> bool, s: seq<T>)
    requires forall x :: x in s ==> (p(x) <==> q(x))
    ensures Filter(p, s) == Filter(q, s)
  {
    if s != [] {
      var init := s[..|s| - 1];
      assert forall x :: x in init ==> x in s;
      FilterAgree(p, q, init);
    }
  }

  /** Filtering by a condition that implies the first filter's is filtering once. */
  lemma {:induction false} FilterOfFilter<T(!new)>(p: T -> bool, q: T -> bool, s: seq<T>)
    requires forall x :: x in s && p(x) ==> q(x)
    ensures Filter(p, Filter(q, s)) == Filter(p, s)
  {
    if s != [] {
      var init, last := s[..|s| - 1], s[|s| - 1];
      assert forall x :: x in init ==> x in s;
      FilterOfFilter(p, q, init);
      assert s == init + [last];
      FilterAppendOne(p, init, last);
      FilterAppendOne(q, init, last);
      if q(last) {
        FilterAppendOne(p, Filter(q, init), last);
      } else {
        assert last in s && !p(last);
        assert Filter(q, s) == Filter(q, init);
        assert Filter(p, s) == Filter(p, init);
      }
    }
  }

  /** When no two positions both satisfy `p`, at most one element is kept. */
  lemma {:induction false} FilterAtMostOne<T(!new)>(p: T -> bool, s: seq<T>)
    requires forall i, j :: 0 <= i < j < |s| && p(s[i]) ==> !p(s[j])
    ensures |Filter(p, s)| <= 1
  {
    if s != [] {
      var n := |s| - 1;
      var init := s[..n];
      FilterAtMostOne(p, init);
      if p(s[n]) {
        forall x | x in init
          ensures !p(x)
        {
          var i :| 0 <= i < n && init[i] == x;
          assert s[i] == x;
        }
        FilterKeepsNone(p, init);
      }
    }
  }

  /** The position of the first element satisfying `p`, if any (`findIndex`). */
  function FirstIndex<T(!new)>(p: T -> bool, s: seq<T>): (r: Option<nat>)
    ensures r.Some? ==> r.value < |s| && p(s[r.value])
    ensures r.Some? ==> forall j :: 0 <= j < r.value ==> !p(s[j])
    ensures r.None? <==> forall j :: 0 <= j < |s| ==> !p(s[j])
  {
    if s == [] then None
    else if p(s[0]) then Some(0)
    else
      match FirstIndex(p, s[1..])
      case None => None
      case Some(i) => Some(i + 1)
  }

  /** The first element satisfying `p`, or `None` (`Array.prototype.find`). */
  function Find<T(!new)>(p: T -> bool, s: seq<T>): (r: Option<T>)
    ensures r.Some? ==> r.value in s && p(r.value)
    ensures r.None? <==> forall x :: x in s ==> !p(x)
  {
    match FirstIndex(p, s)
    case None => None
    case Some(i) => Some(s[i])
  }
}
