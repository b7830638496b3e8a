/** The standard single-match searches that the library's loops call
    (`std::find`, `std::find_if`, `std::find_if_not`, `std::find_first_of`,
    `std::search`). Each takes the sequence, the cursor `first` (an index,
    with |s| standing for `last`) and its criterion, and returns the position
    of the first match at or after the cursor, or |s| when there is none. */
module StdSearch {
  import opened Positions

  /** The indices of s whose element satisfies p. */
  function Satisfies<T>(s: seq<T>, p: T -> bool): nat -> bool {
    (i: nat) => i < |s| && p(s[i])
  }

  /** The criterion of `std::find`: equal to v. */
  function Equals<T(==)>(v: T): T -> bool {
    x => x == v
  }

  /** The criterion of `std::find_if_not`: p fails. */
  function Not<T>(p: T -> bool): T -> bool {
    x => !p(x)
  }

  /** `operator==`, the default relation of `std::find_first_of` and `std::search`. */
  function Equal<T(==)>(): (T, T) -> bool {
    (a, b) => a == b
  }

  /** `operator!=`, the relation `find_first_not_of` hands to `std::find_first_of`. */
  function NotEqual<T(==)>(): (T, T) -> bool {
    (a, b) => a != b
  }

  /** The criterion of `std::find_first_of`: x is related by eq to some candidate. */
  function RelatedToAny<T>(candidates: seq<T>, eq: (T, T) -> bool): T -> bool {
    x => exists j :: 0 <= j < |candidates| && eq(x, candidates[j])
  }

  /** The pattern occurs in s starting at i, element by element under eq. */
  predicate OccursAt<T>(s: seq<T>, i: nat, pattern: seq<T>, eq: (T, T) -> bool) {
    i + |pattern| <= |s| && forall k :: 0 <= k < |pattern| ==> eq(s[i + k], pattern[k])
  }

  /** The criterion of `std::search`, as a predicate on start indices. */
  function Occurrences<T>(s: seq<T>, pattern: seq<T>, eq: (T, T) -> bool): nat -> bool {
    (i: nat) => OccursAt(s, i, pattern, eq)
  }

  /** `std::find_if`: the first element at or after `first` that satisfies p. */
  function FindIf<T>(s: seq<T>, first: nat, p: T -> bool): (r: nat)
    requires first <= |s|
    ensures first <= r <= |s|
    ensures r < |s| ==> p(s[r])
    ensures forall i :: first <= i < r ==> !p(s[i])
  {
    var r := FirstWhere(|s|, first, Satisfies(s, p));
    assert forall i :: first <= i < r ==> !p(s[i]) by {
      forall i | first <= i < r ensures !p(s[i]) {
        assert !Satisfies(s, p)(i);
      }
    }
    r
  }

  /** `std::find`: the first element at or after `first` equal to value. */
  function Find<T(==)>(s: seq<T>, first: nat, value: T): (r: nat)
    requires first <= |s|
    ensures first <= r <= |s|
    ensures r < |s| ==> s[r] == value
    ensures value !in s[first..r]
  {
    FindIf(s, first, Equals(value))
  }

  /** `std::find_if_not`: the first element at or after `first` for which p fails. */
  function FindIfNot<T>(s: seq<T>, first: nat, p: T -> bool): (r: nat)
    requires first <= |s|
    ensures first <= r <= |s|
    ensures r < |s| ==> !p(s[r])
    ensures forall i :: first <= i < r ==> p(s[i])
  {
    FindIf(s, first, Not(p))
  }

  /** `std::find_first_of` with a relation: the first element at or after
      `first` related by eq to some candidate. */
  function FindFirstOfBy<T>(s: seq<T>, first: nat, candidates: seq<T>, eq: (T, T) -> bool): (r: nat)
    requires first <= |s|
    ensures first <= r <= |s|
    ensures r < |s| ==> exists j :: 0 <= j < |candidates| && eq(s[r], candidates[j])
    ensures forall i, j :: first <= i < r && 0 <= j < |candidates| ==> !eq(s[i], candidates[j])
  {
    FindIf(s, first, RelatedToAny(candidates, eq))
  }

  /** `std::find_first_of`: the first element at or after `first` that is
      one of the candidates. */
  function FindFirstOf<T(==)>(s: seq<T>, first: nat, candidates: seq<T>): (r: nat)
    requires first <= |s|
    ensures first <= r <= |s|
    ensures r < |s| ==> s[r] in candidates
    ensures forall i :: first <= i < r ==> s[i] !in candidates
  {
    FindFirstOfBy(s, first, candidates, Equal())
  }

  /** `std::search` with a relation: the first start index at or after
      `first` where the whole pattern fits and matches under eq. An empty
      pattern matches at `first` itself. */
  function SearchBy<T>(s: seq<T>, first: nat, pattern: seq<T>, eq: (T, T) -> bool): (r: nat)
    requires first <= |s|
    ensures first <= r <= |s|
    ensures r < |s| ==> OccursAt(s, r, pattern, eq)
    ensures forall i :: first <= i < r ==> !OccursAt(s, i, pattern, eq)
    ensures pattern == [] ==> r == first
  {
    var r := FirstWhere(|s|, first, Occurrences(s, pattern, eq));
    assert forall i :: first <= i < r ==> !OccursAt(s, i, pattern, eq) by {
      forall i | first <= i < r ensures !OccursAt(s, i, pattern, eq) {
        assert !Occurrences(s, pattern, eq)(i);
      }
    }
    r
  }

  /** The slice of s starting at i is the pattern. */
  predicate SliceIs<T(==)>(s: seq<T>, i: nat, pattern: seq<T>) {
    i + |pattern| <= |s| && s[i..i + |pattern|] == pattern
  }

  /** Under `operator==`, an occurrence is a slice equal to the pattern. */
  lemma OccursAtEqual<T>(s: seq<T>, pattern: seq<T>)
    ensures forall i: nat :: OccursAt(s, i, pattern, Equal()) <==> SliceIs(s, i, pattern)
  {
    forall i: nat | i + |pattern| <= |s| && OccursAt(s, i, pattern, Equal())
      ensures s[i..i + |pattern|] == pattern
    {
      assert forall k :: 0 <= k < |pattern| ==> s[i..i + |pattern|][k] == pattern[k];
    }
  }

  /** `std::search`: the first start index at or after `first` where the
      slice of s equals the pattern. */
  function Search<T(==)>(s: seq<T>, first: nat, pattern: seq<T>): (r: nat)
    requires first <= |s|
    ensures first <= r <= |s|
    ensures r < |s| ==> SliceIs(s, r, pattern)
    ensures forall i :: first <= i < r ==> !SliceIs(s, i, pattern)
  {
    OccursAtEqual(s, pattern);
    SearchBy(s, first, pattern, Equal())
  }
}
