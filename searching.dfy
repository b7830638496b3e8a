/** The library's find-all algorithms and `find_first_not_of`.

    Each find-all algorithm is the same loop around a single-match search:
    while the cursor `first` has not reached the end, search from the cursor;
    on a hit, append the hit's position to the output and step the cursor
    one element past the hit. The output iterator is modelled by the growing
    sequence `r`; positions are indices into `s`. Each method is specified by
    `Where` over its match criterion, and states outright what that means:
    the output lists, in strictly increasing order, exactly the matching
    indices. */
module Searching {
  import opened Positions
  import opened StdSearch

  /** `find_all`: the positions of every element equal to value. */
  method FindAll<T(==)>(s: seq<T>, value: T) returns (r: seq<nat>)
    ensures r == Where(|s|, 0, Satisfies(s, Equals(value)))
    ensures StrictlyIncreasing(r)
    ensures forall i: nat :: i in r <==> i < |s| && s[i] == value
    ensures |r| == multiset(s)[value]
  {
    ghost var q := Satisfies(s, Equals(value));
    var first := 0;
    r := [];
    while first != |s|
      invariant first <= |s|
      invariant r + Where(|s|, first, q) == Where(|s|, 0, q)
      decreases |s| - first
    {
      ghost var from := first;
      first := Find(s, first, value);
      ScanStep(|s|, from, first, q, r);
      if first != |s| {
        r := r + [first];
        first := first + 1;
      }
    }
    SatisfyingIndices(s, Equals(value));
    OccurrenceCount(s, 0, value);
    assert s[0..] == s;
  }

  /** `find_all_if`: the positions of every element satisfying p. */
  method FindAllIf<T>(s: seq<T>, p: T -> bool) returns (r: seq<nat>)
    ensures r == Where(|s|, 0, Satisfies(s, p))
    ensures StrictlyIncreasing(r)
    ensures forall i: nat :: i in r <==> i < |s| && p(s[i])
  {
    ghost var q := Satisfies(s, p);
    var first := 0;
    r := [];
    while first != |s|
      invariant first <= |s|
      invariant r + Where(|s|, first, q) == Where(|s|, 0, q)
      decreases |s| - first
    {
      ghost var from := first;
      first := FindIf(s, first, p);
      ScanStep(|s|, from, first, q, r);
      if first != |s| {
        r := r + [first];
        first := first + 1;
      }
    }
    SatisfyingIndices(s, p);
  }

  /** `find_all_if_not`: the positions of every element for which p fails. */
  method FindAllIfNot<T>(s: seq<T>, p: T -> bool) returns (r: seq<nat>)
    ensures r == Where(|s|, 0, Satisfies(s, Not(p)))
    ensures StrictlyIncreasing(r)
    ensures forall i: nat :: i in r <==> i < |s| && !p(s[i])
  {
    ghost var q := Satisfies(s, Not(p));
    var first := 0;
    r := [];
    while first != |s|
      invariant first <= |s|
      invariant r + Where(|s|, first, q) == Where(|s|, 0, q)
      decreases |s| - first
    {
      ghost var from := first;
      first := FindIfNot(s, first, p);
      ScanStep(|s|, from, first, q, r);
      if first != |s| {
        r := r + [first];
        first := first + 1;
      }
    }
    SatisfyingIndices(s, Not(p));
  }

  /** `find_first_not_of` as written: `std::find_first_of` with the relation
      `!=`, that is, the first element at or after `first` that differs from
      SOME candidate (not: that is none of the candidates). With no
      candidates nothing differs from one, so the result is the end. */
  function FindFirstNotOf<T(==)>(s: seq<T>, first: nat, candidates: seq<T>): (r: nat)
    requires first <= |s|
    ensures first <= r <= |s|
    ensures r < |s| ==> exists j :: 0 <= j < |candidates| && s[r] != candidates[j]
    ensures forall i, j :: first <= i < r && 0 <= j < |candidates| ==> s[i] == candidates[j]
    ensures candidates == [] ==> r == |s|
  {
    FindFirstOfBy(s, first, candidates, NotEqual())
  }

  /** `find_all_of`: the positions of every element that is one of the candidates. */
  method FindAllOf<T(==)>(s: seq<T>, candidates: seq<T>) returns (r: seq<nat>)
    ensures r == Where(|s|, 0, Satisfies(s, RelatedToAny(candidates, Equal())))
    ensures StrictlyIncreasing(r)
    ensures forall i: nat :: i in r <==> i < |s| && s[i] in candidates
  {
    ghost var q := Satisfies(s, RelatedToAny(candidates, Equal()));
    var first := 0;
    r := [];
    while first != |s|
      invariant first <= |s|
      invariant r + Where(|s|, first, q) == Where(|s|, 0, q)
      decreases |s| - first
    {
      ghost var from := first;
      first := FindFirstOf(s, first, candidates);
      ScanStep(|s|, from, first, q, r);
      if first != |s| {
        r := r + [first];
        first := first + 1;
      }
    }
    SatisfyingIndices(s, RelatedToAny(candidates, Equal()));
    MemberOfCandidates(s, candidates);
  }

  /** `find_all_not_of`: the loop of `find_all_of` around `find_first_not_of`,
      so it reports every element that differs from some candidate. */
  method FindAllNotOf<T(==)>(s: seq<T>, candidates: seq<T>) returns (r: seq<nat>)
    ensures r == Where(|s|, 0, Satisfies(s, RelatedToAny(candidates, NotEqual())))
    ensures StrictlyIncreasing(r)
    ensures forall i: nat :: i in r <==> i < |s| && exists j :: 0 <= j < |candidates| && s[i] != candidates[j]
  {
    ghost var q := Satisfies(s, RelatedToAny(candidates, NotEqual()));
    var first := 0;
    r := [];
    while first != |s|
      invariant first <= |s|
      invariant r + Where(|s|, first, q) == Where(|s|, 0, q)
      decreases |s| - first
    {
      ghost var from := first;
      first := FindFirstNotOf(s, first, candidates);
      ScanStep(|s|, from, first, q, r);
      if first != |s| {
        r := r + [first];
        first := first + 1;
      }
    }
    SatisfyingIndices(s, RelatedToAny(candidates, NotEqual()));
  }

  /** `search_all`: every start index whose slice equals the pattern. The
      cursor steps one element past a hit, so overlapping occurrences are
      all reported; an empty pattern matches at every index before the end. */
  method SearchAll<T(==)>(s: seq<T>, pattern: seq<T>) returns (r: seq<nat>)
    ensures r == Where(|s|, 0, Occurrences(s, pattern, Equal()))
    ensures StrictlyIncreasing(r)
    ensures forall i: nat :: i in r <==> i < |s| && SliceIs(s, i, pattern)
  {
    ghost var q := Occurrences(s, pattern, Equal());
    var first := 0;
    r := [];
    while first != |s|
      invariant first <= |s|
      invariant r + Where(|s|, first, q) == Where(|s|, 0, q)
      decreases |s| - first
    {
      ghost var from := first;
      first := Search(s, first, pattern);
      ScanStep(|s|, from, first, q, r);
      if first != |s| {
        r := r + [first];
        first := first + 1;
      }
    }
    OccurrenceIndices(s, pattern, Equal());
    OccursAtEqual(s, pattern);
  }

  /** `search_all` with a binary predicate: every start index where the
      pattern matches element by element under eq, overlaps included. */
  method SearchAllBy<T>(s: seq<T>, pattern: seq<T>, eq: (T, T) -> bool) returns (r: seq<nat>)
    ensures r == Where(|s|, 0, Occurrences(s, pattern, eq))
    ensures StrictlyIncreasing(r)
    ensures forall i: nat :: i in r <==> i < |s| && OccursAt(s, i, pattern, eq)
  {
    ghost var q := Occurrences(s, pattern, eq);
    var first := 0;
    r := [];
    while first != |s|
      invariant first <= |s|
      invariant r + Where(|s|, first, q) == Where(|s|, 0, q)
      decreases |s| - first
    {
      ghost var from := first;
      first := SearchBy(s, first, pattern, eq);
      ScanStep(|s|, from, first, q, r);
      if first != |s| {
        r := r + [first];
        first := first + 1;
      }
    }
    OccurrenceIndices(s, pattern, eq);
  }

  // ===== Properties of the specifications

  /** The element criterion p selects, in increasing order, exactly the
      indices of s whose element satisfies p. */
  lemma SatisfyingIndices<T>(s: seq<T>, p: T -> bool)
    ensures StrictlyIncreasing(Where(|s|, 0, Satisfies(s, p)))
    ensures forall i: nat :: i in Where(|s|, 0, Satisfies(s, p)) <==> i < |s| && p(s[i])
  {
    WhereExactly(|s|, 0, Satisfies(s, p));
  }

  /** The pattern criterion selects, in increasing order, exactly the
      indices before the end where the pattern occurs. */
  lemma OccurrenceIndices<T>(s: seq<T>, pattern: seq<T>, eq: (T, T) -> bool)
    ensures StrictlyIncreasing(Where(|s|, 0, Occurrences(s, pattern, eq)))
    ensures forall i: nat :: i in Where(|s|, 0, Occurrences(s, pattern, eq)) <==> i < |s| && OccursAt(s, i, pattern, eq)
  {
    WhereExactly(|s|, 0, Occurrences(s, pattern, eq));
  }

  /** Related by `==` to some candidate means being one of them. */
  lemma MemberOfCandidates<T>(s: seq<T>, candidates: seq<T>)
    ensures forall i :: 0 <= i < |s| ==> (RelatedToAny(candidates, Equal())(s[i]) <==> s[i] in candidates)
  {
    forall i | 0 <= i < |s| ensures RelatedToAny(candidates, Equal())(s[i]) <==> s[i] in candidates {
      if s[i] in candidates {
        var j :| 0 <= j < |candidates| && candidates[j] == s[i];
        assert Equal()(s[i], candidates[j]);
      }
    }
  }

  /** The number of positions `find_all` reports from lo on is the number of
      occurrences of the value in s[lo..]. */
  lemma {:induction false} OccurrenceCount<T>(s: seq<T>, lo: nat, value: T)
    requires lo <= |s|
    ensures |Where(|s|, lo, Satisfies(s, Equals(value)))| == multiset(s[lo..])[value]
    decreases |s| - lo
  {
    if lo < |s| {
      OccurrenceCount(s, lo + 1, value);
      assert s[lo..] == [s[lo]] + s[lo + 1..];
    }
  }

  /** `find_all_if` and `find_all_if_not` with the same predicate cover every
      index of s exactly once between them. */
  lemma IfAndIfNotPartition<T>(s: seq<T>, p: T -> bool)
    ensures |Where(|s|, 0, Satisfies(s, p))| + |Where(|s|, 0, Satisfies(s, Not(p)))| == |s|
    ensures forall i :: 0 <= i < |s| ==>
      (i in Where(|s|, 0, Satisfies(s, p)) <==> i !in Where(|s|, 0, Satisfies(s, Not(p))))
  {
    WhereComplement(|s|, 0, Satisfies(s, p), Satisfies(s, Not(p)));
    SatisfyingIndices(s, p);
    SatisfyingIndices(s, Not(p));
  }

  /** With one candidate c, `find_first_not_of` is `std::find_if_not` with
      `== c`: the first element not equal to c. */
  lemma FirstNotOfSingleCandidate<T>(s: seq<T>, first: nat, c: T)
    requires first <= |s|
    ensures FindFirstNotOf(s, first, [c]) == FindIfNot(s, first, Equals(c))
  {
    forall i | first <= i < |s|
      ensures Satisfies(s, RelatedToAny([c], NotEqual()))(i) == Satisfies(s, Not(Equals(c)))(i)
    {
      assert [c][0] == c;
    }
    FirstWhereAgrees(|s|, first, Satisfies(s, RelatedToAny([c], NotEqual())), Satisfies(s, Not(Equals(c))));
  }

  /** With one candidate c, `find_all_not_of` reports what `find_all_if_not`
      with `== c` reports, and together with `find_all_of` it covers every
      index exactly once. */
  lemma NotOfSingleCandidate<T>(s: seq<T>, c: T)
    ensures Where(|s|, 0, Satisfies(s, RelatedToAny([c], NotEqual()))) == Where(|s|, 0, Satisfies(s, Not(Equals(c))))
    ensures |Where(|s|, 0, Satisfies(s, RelatedToAny([c], Equal())))|
          + |Where(|s|, 0, Satisfies(s, RelatedToAny([c], NotEqual())))| == |s|
  {
    forall i | 0 <= i < |s|
      ensures Satisfies(s, RelatedToAny([c], NotEqual()))(i) == Satisfies(s, Not(Equals(c)))(i)
      ensures Satisfies(s, RelatedToAny([c], Equal()))(i) != Satisfies(s, RelatedToAny([c], NotEqual()))(i)
    {
      assert [c][0] == c;
    }
    WhereAgrees(|s|, 0, Satisfies(s, RelatedToAny([c], NotEqual())), Satisfies(s, Not(Equals(c))));
    WhereComplement(|s|, 0, Satisfies(s, RelatedToAny([c], Equal())), Satisfies(s, RelatedToAny([c], NotEqual())));
  }

  /** With no candidates, neither `find_all_of` nor `find_all_not_of` reports anything. */
  lemma NoCandidates<T>(s: seq<T>)
    ensures Where(|s|, 0, Satisfies(s, RelatedToAny([], Equal()))) == []
    ensures Where(|s|, 0, Satisfies(s, RelatedToAny([], NotEqual()))) == []
  {
    WhereNowhere(|s|, 0, Satisfies(s, RelatedToAny([], Equal())));
    WhereNowhere(|s|, 0, Satisfies(s, RelatedToAny([], NotEqual())));
  }

  /** `search_all` with an empty pattern reports every index 0 .. |s|-1. */
  lemma SearchAllEmptyPattern<T>(s: seq<T>, eq: (T, T) -> bool)
    ensures Where(|s|, 0, Occurrences(s, [], eq)) == Range(0, |s|)
  {
    WhereEverywhere(|s|, 0, Occurrences(s, [], eq));
  }

  /** `search_all` reports overlapping occurrences: "aa" occurs in "aaa" at 0 and at 1. */
  lemma SearchAllOverlaps()
    ensures Where(3, 0, Occurrences("aaa", "aa", Equal())) == [0, 1]
  {
    var q := Occurrences("aaa", "aa", Equal());
    assert q(0) && q(1) && !q(2);
    assert Where(3, 2, q) == [];
  }
}
