/**
 * `Array.prototype.sort` with a comparator. Since ES2019 the sort is stable, so for a
 * comparator that is a total preorder its result is the unique stable sorted permutation;
 * insertion sort computes exactly that permutation. A comparator `cmp` is encoded as the
 * relation `le(a, b) == (cmp(a, b) <= 0)`, "a may stay before b".
 */
module Sorting {
  import opened Seqs

  ghost predicate IsTotalPreorder<T(!new)>(le: (T, T) -> bool) {
    && (forall a, b :: le(a, b) || le(b, a))
    && (forall a, b, c :: le(a, b) && le(b, c) ==> le(a, c))
  }

  ghost predicate SortedBy<T>(s: seq<T>, le: (T, T) -> bool) {
    forall i, j :: 0 <= i < j < |s| ==> le(s[i], s[j])
  }

  /** The elements that the order cannot tell apart from `x`. */
  function EquivTo<T>(le: (T, T) -> bool, x: T): T -> bool {
    y => le(y, x) && le(x, y)
  }

  /** Inserts `x` after every element that may stay before it. */
  function Insert<T>(s: seq<T>, x: T, le: (T, T) -> bool): (r: seq<T>)
    ensures multiset(r) == multiset(s) + multiset{x}
  {
    if s == [] then [x]
    else if le(s[|s| - 1], x) then s + [x]
    else
      SplitLast(s);
      Insert(s[..|s| - 1], x, le) + [s[|s| - 1]]
  }

  /** Stable insertion sort; the result is a permutation of the input. */
  function SortBy<T>(s: seq<T>, le: (T, T) -> bool): (r: seq<T>)
    ensures multiset(r) == multiset(s)
  {
    if s == [] then []
    else
      SplitLast(s);
      Insert(SortBy(s[..|s| - 1], le), s[|s| - 1], le)
  }

  lemma {:induction false} InsertSorted<T(!new)>(s: seq<T>, x: T, le: (T, T) -> bool)
    requires IsTotalPreorder(le)
    requires SortedBy(s, le)
    ensures SortedBy(Insert(s, x, le), le)
  {
    if s != [] && !le(s[|s| - 1], x) {
      var s', last := s[..|s| - 1], s[|s| - 1];
      InsertSorted(s', x, le);
      var r' := Insert(s', x, le);
      forall i | 0 <= i < |r'| ensures le(r'[i], last) {
        assert r'[i] in multiset(r');
        assert r'[i] in s' || r'[i] == x;
        if r'[i] in s' {
          var k :| 0 <= k < |s'| && s'[k] == r'[i];
          assert s[k] == r'[i];
        }
      }
    }
  }

  lemma AppendNil<T>(a: seq<T>)
    ensures a + [] == a
  {
  }

  /**
   * Inserting keeps the elements equivalent to `p` in order, `x` last among them: every
   * element `x` is moved past may not stay before it, so it is not equivalent to `x`.
   */
  lemma {:induction false} InsertStable<T(!new)>(s: seq<T>, x: T, le: (T, T) -> bool, p: T)
    requires IsTotalPreorder(le)
    ensures Filter(Insert(s, x, le), EquivTo(le, p))
         == Filter(s, EquivTo(le, p)) + (if EquivTo(le, p)(x) then [x] else [])
  {
    var e := EquivTo(le, p);
    if s == [] {
      assert Insert(s, x, le) == [] + [x];
      FilterSnoc([], x, e);
    } else if le(s[|s| - 1], x) {
      FilterSnoc(s, x, e);
    } else {
      var s', last := s[..|s| - 1], s[|s| - 1];
      SplitLast(s);
      var a := Filter(s', e);
      var xs, ls := if e(x) then [x] else [], if e(last) then [last] else [];
      InsertStable(s', x, le, p);
      assert Insert(s, x, le) == Insert(s', x, le) + [last];
      FilterSnoc(Insert(s', x, le), last, e);
      assert Filter(Insert(s, x, le), e) == (a + xs) + ls;
      FilterSnoc(s', last, e);
      assert Filter(s, e) == a + ls;
      assert e(x) && e(last) ==> le(last, p) && le(p, x);
      if xs == [] {
        AppendNil(a);
        AppendNil(a + ls);
      } else {
        AppendNil(a + xs);
        AppendNil(a);
      }
    }
  }

  lemma {:induction false} SortBySorted<T(!new)>(s: seq<T>, le: (T, T) -> bool)
    requires IsTotalPreorder(le)
    ensures SortedBy(SortBy(s, le), le)
  {
    if s != [] {
      SortBySorted(s[..|s| - 1], le);
      InsertSorted(SortBy(s[..|s| - 1], le), s[|s| - 1], le);
    }
  }

  lemma {:induction false} SortByStable<T(!new)>(s: seq<T>, le: (T, T) -> bool, p: T)
    requires IsTotalPreorder(le)
    ensures Filter(SortBy(s, le), EquivTo(le, p)) == Filter(s, EquivTo(le, p))
  {
    if s != [] {
      var s', last := s[..|s| - 1], s[|s| - 1];
      SplitLast(s);
      SortByStable(s', le, p);
      InsertStable(SortBy(s', le), last, le, p);
      FilterSnoc(s', last, EquivTo(le, p));
    }
  }

  /**
   * Sorting orders the sequence, and elements the order cannot tell apart keep their
   * relative input order (stability).
   */
  lemma SortByCorrect<T(!new)>(s: seq<T>, le: (T, T) -> bool)
    requires IsTotalPreorder(le)
    ensures SortedBy(SortBy(s, le), le)
    ensures forall p :: Filter(SortBy(s, le), EquivTo(le, p)) == Filter(s, EquivTo(le, p))
  {
    SortBySorted(s, le);
    forall p ensures Filter(SortBy(s, le), EquivTo(le, p)) == Filter(s, EquivTo(le, p)) {
      SortByStable(s, le, p);
    }
  }
}
