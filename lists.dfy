/**
 * List helpers used by the crawler: duplicate-freedom, Stream.distinct() on an
 * ordered stream, and the deduplicating merge used as the reduce operator of a wave.
 */
module Lists {

  /** No element occurs twice. */
  predicate NoDup<T(==,!new)>(s: seq<T>)
  {
    forall i, j :: 0 <= i < j < |s| ==> s[i] != s[j]
  }

  /** The elements of a sequence, as a set. */
  function Elems<T>(s: seq<T>): set<T>
  {
    set x | x in s
  }

  /**
   * Stream.distinct() on an ordered stream: the first occurrence of every
   * element is kept, in encounter order.
   */
  function Distinct<T(==,!new)>(s: seq<T>): (r: seq<T>)
    ensures NoDup(r)
    ensures forall x :: x in r <==> x in s
    ensures |r| <= |s|
  {
    if s == [] then []
    else
      var rest := Distinct(s[..|s| - 1]);
      assert s == s[..|s| - 1] + [s[|s| - 1]];
      if s[|s| - 1] in rest then rest else rest + [s[|s| - 1]]
  }

  /** The elements of s that are not in excluded, in their order in s. */
  function Without<T(==,!new)>(s: seq<T>, excluded: set<T>): (r: seq<T>)
    ensures forall x :: x in r <==> x in s && x !in excluded
  {
    if s == [] then []
    else
      var rest := Without(s[..|s| - 1], excluded);
      assert s == s[..|s| - 1] + [s[|s| - 1]];
      if s[|s| - 1] in excluded then rest else rest + [s[|s| - 1]]
  }

  /**
   * Crawler.mergeLists: both lists appended into a new list, then
   * parallelStream().distinct().toList(), which keeps encounter order.
   */
  function MergeLists<T(==,!new)>(a: seq<T>, b: seq<T>): (r: seq<T>)
    ensures NoDup(r)
    ensures forall x :: x in r <==> x in a || x in b
  {
    Distinct(a + b)
  }

  /** A sequence without duplicates is left as it is by Distinct. */
  lemma {:induction false} DistinctOfNoDup<T(!new)>(s: seq<T>)
    requires NoDup(s)
    ensures Distinct(s) == s
  {
    if s != [] {
      var init := s[..|s| - 1];
      DistinctOfNoDup(init);
      assert s[|s| - 1] !in init;
      assert s == init + [s[|s| - 1]];
    }
  }

  /** Concatenation is associative; stated apart so that it is proved without other facts in scope. */
  lemma AppendAssoc<T>(a: seq<T>, b: seq<T>, c: seq<T>)
    ensures a + (b + c) == (a + b) + c
  {
  }

  /** A sequence extended by one element starts with the sequence. */
  lemma SnocPrefix<T>(s: seq<T>, c: T)
    ensures (s + [c])[..|s|] == s && (s + [c])[|s|] == c
  {
  }

  /** A sequence is its prefix followed by its suffix. */
  lemma PrefixSuffix<T>(s: seq<T>, n: nat)
    requires n <= |s|
    ensures s == s[..n] + s[n..]
  {
  }

  /** A non-empty sequence is its first element followed by the rest. */
  lemma FirstRest<T>(s: seq<T>)
    requires s != []
    ensures s == [s[0]] + s[1..]
  {
  }

  /** Distinct of a sequence extended by one element. */
  lemma DistinctSnoc<T(!new)>(s: seq<T>, c: T)
    ensures Distinct(s + [c]) == if c in Distinct(s) then Distinct(s) else Distinct(s) + [c]
  {
    assert (s + [c])[..|s|] == s;
  }

  /** Without on a sequence extended by one element. */
  lemma WithoutSnoc<T(!new)>(s: seq<T>, c: T, excluded: set<T>)
    ensures Without(s + [c], excluded) == if c in excluded then Without(s, excluded) else Without(s, excluded) + [c]
  {
    assert (s + [c])[..|s|] == s;
  }

  /**
   * Deduplicating a concatenation keeps the distinct elements of x, followed
   * by the distinct elements of y that x does not hold, in y's order.
   */
  lemma {:induction false} DistinctAppend<T(!new)>(x: seq<T>, y: seq<T>)
    ensures Distinct(x + y) == Distinct(x) + Without(Distinct(y), Elems(x))
  {
    if y == [] {
      assert x + y == x;
    } else {
      var init, c := y[..|y| - 1], y[|y| - 1];
      assert y == init + [c];
      DistinctAppend(x, init);
      DistinctAppendSnoc(x, init, c);
    }
  }

  /** The inductive step of DistinctAppend: y grows by one element c. */
  lemma DistinctAppendSnoc<T(!new)>(x: seq<T>, init: seq<T>, c: T)
    requires Distinct(x + init) == Distinct(x) + Without(Distinct(init), Elems(x))
    ensures Distinct(x + (init + [c])) == Distinct(x) + Without(Distinct(init + [c]), Elems(x))
  {
    var front, rest := Distinct(x + init), Without(Distinct(init), Elems(x));
    var y := init + [c];
    AppendAssoc(x, init, [c]);
    DistinctSnoc(x + init, c);
    DistinctSnoc(init, c);
    if c in Distinct(init) {
      assert Distinct(y) == Distinct(init);
      assert c in front;
      assert Distinct(x + y) == front;
    } else if c in x {
      assert Distinct(y) == Distinct(init) + [c];
      WithoutSnoc(Distinct(init), c, Elems(x));
      assert Without(Distinct(y), Elems(x)) == rest;
      assert Distinct(x + y) == front;
    } else {
      assert Distinct(y) == Distinct(init) + [c];
      WithoutSnoc(Distinct(init), c, Elems(x));
      assert Without(Distinct(y), Elems(x)) == rest + [c];
      assert c !in front;
      assert Distinct(x + y) == front + [c];
      AppendAssoc(Distinct(x), rest, [c]);
    }
  }

  /** Deduplicating the left operand first does not change the result. */
  lemma DistinctLeft<T(!new)>(x: seq<T>, y: seq<T>)
    ensures Distinct(Distinct(x) + y) == Distinct(x + y)
  {
    DistinctAppend(Distinct(x), y);
    DistinctAppend(x, y);
    DistinctOfNoDup(Distinct(x));
    assert Elems(Distinct(x)) == Elems(x);
  }

  /** Deduplicating the right operand first does not change the result. */
  lemma DistinctRight<T(!new)>(x: seq<T>, y: seq<T>)
    ensures Distinct(x + Distinct(y)) == Distinct(x + y)
  {
    DistinctAppend(x, Distinct(y));
    DistinctAppend(x, y);
    DistinctOfNoDup(Distinct(y));
  }

  /**
   * mergeLists keeps first-occurrence order: the distinct elements of a, in
   * order, followed by the distinct elements of b that a does not hold.
   */
  lemma MergeListsOrder<T(!new)>(a: seq<T>, b: seq<T>)
    ensures MergeLists(a, b) == Distinct(a) + Without(Distinct(b), Elems(a))
  {
    DistinctAppend(a, b);
  }

  /**
   * mergeLists is associative, so the parallel reduce of a wave yields the same
   * list whatever the bracketing the stream chooses.
   */
  lemma MergeListsAssociative<T(!new)>(a: seq<T>, b: seq<T>, c: seq<T>)
    ensures MergeLists(MergeLists(a, b), c) == MergeLists(a, MergeLists(b, c))
  {
    DistinctLeft(a + b, c);
    DistinctRight(a, b + c);
    AppendAssoc(a, b, c);
  }

  /** The empty list that seeds the reduce is a unit for duplicate-free lists. */
  lemma MergeListsIdentity<T(!new)>(a: seq<T>)
    requires NoDup(a)
    ensures MergeLists([], a) == a && MergeLists(a, []) == a
  {
    assert [] + a == a && a + [] == a;
    DistinctOfNoDup(a);
  }

  /** A duplicate-free sequence has as many elements as its set of elements. */
  lemma {:induction false} NoDupCard<T(!new)>(s: seq<T>)
    requires NoDup(s)
    ensures |Elems(s)| == |s|
  {
    if s != [] {
      var init := s[..|s| - 1];
      NoDupCard(init);
      assert Elems(s) == Elems(init) + {s[|s| - 1]};
      assert s[|s| - 1] !in Elems(init);
    }
  }

  /** A subset has no more elements than its superset. */
  lemma {:induction false} SubsetCard<T>(a: set<T>, b: set<T>)
    requires a <= b
    ensures |a| <= |b|
    decreases a
  {
    if a != {} {
      var x :| x in a;
      SubsetCard(a - {x}, b - {x});
    }
  }
}
