/** Where the library's code and its evident intent part ways, each case is
    stated twice here: a lemma about the code as written that names an input
    on which it misses the intent, and a corrected definition with the
    intended property proved about it.

    - `split` emits nothing for the elements after the last delimiter.
    - `ByLength::Find` records where each chunk STARTS, so `split` emits an
      empty first piece and never emits the elements from the last
      recorded start on.
    - `find_first_not_of` hands `operator!=` to `std::find_first_of`, which
      then accepts an element that differs from SOME candidate rather than
      from all of them.
    - `search_all` resumes one element past a hit, so its occurrences
      overlap and `split` by a sequence copies a backwards range; the
      corrected search resumes past the whole occurrence (`SearchAllDisjoint`,
      `DisjointGreedy`, `SplitBySequence`). */
module Corrections {
  import opened Positions
  import opened StdSearch
  import opened Splitting
  import Searching

  // ===== split: the piece after the last delimiter

  /** pieces is a split that keeps the tail: the pieces `Split` emits, then
      the rest of the container from the final cursor. */
  ghost predicate SplitsAll<T>(pieces: seq<seq<T>>, s: seq<T>, locations: seq<nat>, width: nat) {
    && |pieces| == |locations| + 1
    && SplitsAt(pieces[..|locations|], s, locations, width)
    && Cursor(locations, width, |locations|) <= |s|
    && pieces[|locations|] == s[Cursor(locations, width, |locations|)..]
  }

  /** As written, splitting "a;b" at ';' emits only "a": the "b" after the
      only delimiter is lost. Split with the tail kept, the same input gives
      "a" and "b". */
  lemma SplitDropsTail(pieces: seq<string>, corrected: seq<string>)
    requires SplitsAt(pieces, "a;b", ByElement(';').Locate("a;b"), 1)
    requires SplitsAll(corrected, "a;b", ByElement(';').Locate("a;b"), 1)
    ensures ByElement(';').Locate("a;b") == [1]
    ensures pieces == ["a"]
    ensures corrected == ["a", "b"]
  {
    var q := Satisfies("a;b", Equals(';'));
    assert !q(0) && q(1) && !q(2);
    assert Where(3, 2, q) == [];
    assert Cursor([1], 1, 0) == 0;
    assert pieces[0] == "a;b"[0..1];
    assert corrected[0] == "a;b"[0..1];
    assert Cursor([1], 1, 1) == 2;
    assert "a;b"[0..1] == "a";
    assert "a;b"[2..] == "b";
  }

  /** The split that keeps the tail: the same walk as `Split`, then the
      elements from the last cursor to the end as a final piece. */
  method SplitAt<T>(container: seq<T>, locations: seq<nat>, width: nat) returns (pieces: seq<seq<T>>)
    requires InOrder(locations, width, |container|) && Fits(locations, width, |container|)
    ensures SplitsAll(pieces, container, locations, width)
  {
    var first := 0;
    pieces := [];
    for i := 0 to |locations|
      invariant |pieces| == i
      invariant first == Cursor(locations, width, i)
      invariant forall k {:trigger pieces[k]} :: 0 <= k < i ==>
        pieces[k] == container[Cursor(locations, width, k)..locations[k]]
    {
      var last := locations[i];
      pieces := pieces + [container[first..last]];
      first := last + width;
    }
    pieces := pieces + [container[first..]];
    assert pieces[..|locations|] == pieces[..|pieces| - 1];
  }

  /** `split` with the tail kept, for a delimiter strategy. */
  method SplitAll<T(==)>(container: seq<T>, delimiter: Delimiter<T>) returns (pieces: seq<seq<T>>)
    requires delimiter.Valid()
    requires InOrder(delimiter.Locate(container), delimiter.Length(), |container|)
    ensures SplitsAll(pieces, container, delimiter.Locate(container), delimiter.Length())
  {
    var locations := delimiter.Find(container);
    LocationsFit(delimiter, container);
    pieces := SplitAt(container, locations, delimiter.Length());
  }

  /** The round trip the tail restores: every piece but the last followed by
      the delimiter that ended it, then the last piece, is the container. */
  lemma SplitAllRebuilds<T>(s: seq<T>, locations: seq<nat>, width: nat, pieces: seq<seq<T>>)
    requires Fits(locations, width, |s|)
    requires SplitsAll(pieces, s, locations, width)
    ensures Interleave(pieces[..|locations|], Consumed(s, locations, width)) + pieces[|locations|] == s
  {
    var n := |locations|;
    var c := Consumed(s, locations, width);
    RebuildPrefix(s, locations, width, pieces[..n], n);
    WholePrefix(pieces[..n]);
    WholePrefix(c);
    AppendTail(s, Cursor(locations, width, n));
  }

  /** A sequence is its own prefix of full length. */
  lemma WholePrefix<U>(xs: seq<U>)
    ensures xs[..|xs|] == xs
  {
  }

  /** A sequence is its part before at followed by its part from at. */
  lemma AppendTail<U>(s: seq<U>, at: nat)
    requires at <= |s|
    ensures s[..at] + s[at..] == s
  {
  }

  /** When every delimiter skipped is the same separator, the pieces joined
      back with that separator in between are the container. */
  lemma JoinRebuilds<T>(s: seq<T>, locations: seq<nat>, sep: seq<T>, pieces: seq<seq<T>>)
    requires Fits(locations, |sep|, |s|)
    requires forall k :: 0 <= k < |locations| ==> s[locations[k]..locations[k] + |sep|] == sep
    requires SplitsAll(pieces, s, locations, |sep|)
    ensures JoinWith(pieces, sep) == s
  {
    var n := |locations|;
    SplitAllRebuilds(s, locations, |sep|, pieces);
    ConsumedConstant(s, locations, sep);
    InterleaveConstant(pieces[..n], sep);
    JoinWithLast(pieces, sep);
  }

  /** Delimiters that are all the separator: what `Split` skips is the
      separator, once per location. */
  lemma ConsumedConstant<T>(s: seq<T>, locations: seq<nat>, sep: seq<T>)
    requires Fits(locations, |sep|, |s|)
    requires forall k :: 0 <= k < |locations| ==> s[locations[k]..locations[k] + |sep|] == sep
    ensures Consumed(s, locations, |sep|) == seq(|locations|, _ => sep)
  {
  }

  /** With the tail kept, splitting at `ByElement(e)` and joining the pieces
      back with e in between gives the container. */
  lemma SplitAllByElementRebuilds<T>(e: T, s: seq<T>, pieces: seq<seq<T>>)
    requires SplitsAll(pieces, s, ByElement(e).Locate(s), 1)
    ensures JoinWith(pieces, [e]) == s
  {
    var L := ByElement(e).Locate(s);
    ElementsIncrease(ByElement(e), s);
    forall k | 0 <= k < |L| ensures s[L[k]..L[k] + 1] == [e] {
      LocatedElement(e, s, k);
    }
    JoinRebuilds(s, L, [e], pieces);
  }

  /** The pieces glued together with sep between consecutive ones. */
  ghost function JoinWith<T>(pieces: seq<seq<T>>, sep: seq<T>): seq<T>
    decreases |pieces|
  {
    if pieces == [] then []
    else if |pieces| == 1 then pieces[0]
    else JoinWith(pieces[..|pieces| - 1], sep) + sep + pieces[|pieces| - 1]
  }

  lemma {:induction false} InterleaveConstant<T>(pieces: seq<seq<T>>, sep: seq<T>)
    ensures Interleave(pieces, seq(|pieces|, _ => sep)) == if pieces == [] then [] else JoinWith(pieces, sep) + sep
    decreases |pieces|
  {
    if pieces != [] {
      var m := |pieces| - 1;
      InterleaveConstant(pieces[..m], sep);
      assert seq(|pieces|, _ => sep)[..m] == seq(m, _ => sep);
    }
  }

  /** The last piece is glued on after the others and one separator. */
  lemma JoinWithLast<T>(pieces: seq<seq<T>>, sep: seq<T>)
    requires pieces != []
    ensures var n := |pieces| - 1;
      JoinWith(pieces, sep) == (if n == 0 then [] else JoinWith(pieces[..n], sep) + sep) + pieces[n]
  {
  }

  // ===== ByLength: chunk ends rather than chunk starts

  /** The positions a corrected `ByLength::Find` records from `begin` on:
      the end of each chunk of n elements, while more than n elements remain
      ahead of the chunk's start. */
  ghost function ChunkEnds(len: nat, n: nat, begin: nat): seq<nat>
    requires n > 0 && begin <= len
    decreases len - begin
  {
    if len - begin > n then [begin + n] + ChunkEnds(len, n, begin + n) else []
  }

  /** The corrected `ByLength::Find`: step the cursor first, then record it. */
  method FindChunkEnds<T>(s: seq<T>, n: int) returns (locations: seq<nat>)
    requires n > 0
    ensures locations == ChunkEnds(|s|, n, 0)
  {
    var begin := 0;
    locations := [];
    while |s| - begin > n
      invariant begin <= |s|
      invariant locations + ChunkEnds(|s|, n, begin) == ChunkEnds(|s|, n, 0)
      decreases |s| - begin
    {
      begin := begin + n;
      locations := locations + [begin];
    }
  }

  /** The corrected positions are the recorded ones shifted by one chunk:
      as many of them, each n further on. */
  lemma {:induction false} ChunkEndsShifted(len: nat, n: nat, begin: nat)
    requires n > 0 && begin <= len
    ensures |ChunkEnds(len, n, begin)| == |ChunkStarts(len, n, begin)|
    ensures forall k :: 0 <= k < |ChunkEnds(len, n, begin)| ==> ChunkEnds(len, n, begin)[k] == ChunkStarts(len, n, begin)[k] + n
    decreases len - begin
  {
    if len - begin > n {
      ChunkEndsShifted(len, n, begin + n);
      var ends, starts := ChunkEnds(len, n, begin), ChunkStarts(len, n, begin);
      forall k | 1 <= k < |ends| ensures ends[k] == starts[k] + n {
        assert ends[k] == ChunkEnds(len, n, begin + n)[k - 1];
        assert starts[k] == ChunkStarts(len, n, begin + n)[k - 1];
      }
    }
  }

  /** c chunk ends from `begin` leave between 1 and n elements after the
      last one, and the k-th is (k+1) chunks past `begin`. */
  lemma ChunkEndsShape(len: nat, n: nat, begin: nat)
    requires n > 0 && begin <= len
    ensures var c := |ChunkEnds(len, n, begin)|;
      if len == begin then c == 0 else c * n < len - begin <= (c + 1) * n
    ensures forall k :: 0 <= k < |ChunkEnds(len, n, begin)| ==> ChunkEnds(len, n, begin)[k] == begin + (k + 1) * n
  {
    ChunkEndsShifted(len, n, begin);
    ChunkStartsShape(len, n, begin);
    forall k | 0 <= k < |ChunkEnds(len, n, begin)| ensures ChunkEnds(len, n, begin)[k] == begin + (k + 1) * n {
      assert begin + k * n + n == begin + (k + 1) * n;
    }
  }

  /** The chunk ends are strictly inside the container and increasing, so
      they satisfy the precondition of the split with the tail kept. */
  lemma ChunkEndsInOrder(len: nat, n: nat)
    requires n > 0
    ensures InOrder(ChunkEnds(len, n, 0), 0, len) && Fits(ChunkEnds(len, n, 0), 0, len)
  {
    var L := ChunkEnds(len, n, 0);
    ChunkEndsShape(len, n, 0);
    forall k | 0 <= k < |L| ensures L[k] < len {
      if k + 1 < |L| {
        MultiplyStrictly(k + 1, |L|, n);
      }
    }
    forall k | 0 <= k < |L| ensures Cursor(L, 0, k) <= L[k] {
      if k > 0 {
        assert (k - 1 + 1) * n <= (k + 1) * n by { MultiplyStrictly(k, k + 1, n); }
      }
    }
  }

  /** Splitting into chunks of n: the corrected `ByLength` strategy
      followed by the split that keeps the tail. */
  method SplitIntoChunks<T>(s: seq<T>, n: int) returns (pieces: seq<seq<T>>)
    requires n > 0
    ensures SplitsAll(pieces, s, ChunkEnds(|s|, n, 0), 0)
  {
    var ends := FindChunkEnds(s, n);
    ChunkEndsInOrder(|s|, n);
    pieces := SplitAt(s, ends, 0);
  }

  /** The chunks are what splitting into fixed-length pieces promises: the
      k-th is the n elements from k*n, except the last, which holds the
      remaining 1 to n elements (an empty container gives one empty piece);
      there are ceil(|s| / n) of them. */
  lemma FixedLengthChunks<T>(s: seq<T>, n: int, pieces: seq<seq<T>>)
    requires n > 0
    requires SplitsAll(pieces, s, ChunkEnds(|s|, n, 0), 0)
    ensures |pieces| >= 1
    ensures forall k :: 0 <= k < |pieces| - 1 ==> k * n + n <= |s| && pieces[k] == s[k * n..k * n + n]
    ensures (|pieces| - 1) * n <= |s| && pieces[|pieces| - 1] == s[(|pieces| - 1) * n..]
    ensures |s| > 0 ==> 0 < |pieces[|pieces| - 1]| <= n
    ensures |s| == 0 ==> pieces == [[]]
  {
    var L := ChunkEnds(|s|, n, 0);
    ChunkEndsShape(|s|, n, 0);
    var m := |L|;
    forall k | 0 <= k < m ensures k * n + n <= |s| && pieces[k] == s[k * n..k * n + n] {
      assert pieces[..m][k] == s[Cursor(L, 0, k)..L[k]];
      assert L[k] == (k + 1) * n == k * n + n;
      if k > 0 {
        assert Cursor(L, 0, k) == L[k - 1] == (k - 1 + 1) * n;
      }
    }
    assert Cursor(L, 0, m) == m * n by {
      if m > 0 {
        assert L[m - 1] == (m - 1 + 1) * n;
      }
    }
    assert (m + 1) * n == m * n + n;
  }

  /** As written, `ByLength(2)` on "abcd" records only the start of the
      first chunk, so `split` emits a single empty piece; the corrected
      strategy with the tail kept emits "ab" and "cd". */
  lemma LengthSplitLeadsWithEmpty(pieces: seq<string>, corrected: seq<string>)
    requires SplitsAt(pieces, "abcd", Delimiter<char>.ByLength(2).Locate("abcd"), 0)
    requires SplitsAll(corrected, "abcd", ChunkEnds(4, 2, 0), 0)
    ensures Delimiter<char>.ByLength(2).Locate("abcd") == [0]
    ensures pieces == [[]]
    ensures corrected == ["ab", "cd"]
  {
    assert ChunkStarts(4, 2, 2) == [];
    assert ChunkEnds(4, 2, 2) == [];
    assert Cursor([0], 0, 0) == 0;
    assert pieces[0] == "abcd"[0..0];
    assert Cursor([2], 0, 0) == 0;
    assert corrected[0] == "abcd"[0..2];
    assert Cursor([2], 0, 1) == 2;
    assert corrected[1] == "abcd"[2..];
    assert "abcd"[0..2] == "ab" && "abcd"[2..] == "cd";
  }

  /** What the code as written emits for `ByLength(n)`, in general: an empty
      first piece, then the chunk before each further recorded start; the
      elements from the last start on are never emitted. */
  lemma LengthSplitShape<T>(s: seq<T>, n: int, pieces: seq<seq<T>>)
    requires n > 0
    requires SplitsAt(pieces, s, Delimiter<T>.ByLength(n).Locate(s), 0)
    ensures |s| > n <==> |pieces| > 0
    ensures |pieces| > 0 ==> pieces[0] == []
    ensures forall k :: 0 <= k < |pieces| - 1 ==> k * n + n <= |s| && pieces[k + 1] == s[k * n..k * n + n]
  {
    var L := Delimiter<T>.ByLength(n).Locate(s);
    LengthLocations(n, s);
    forall k | 0 <= k < |pieces| - 1 ensures k * n + n <= |s| && pieces[k + 1] == s[k * n..k * n + n] {
      assert pieces[k + 1] == s[Cursor(L, 0, k + 1)..L[k + 1]];
      assert L[k + 1] == (k + 1) * n == k * n + n;
    }
    if |pieces| > 0 {
      assert pieces[0] == s[Cursor(L, 0, 0)..L[0]];
    }
  }

  // ===== search_all: occurrences that do not overlap

  /** How far the corrected `search_all` steps past a hit: the pattern's
      length, or one element for an empty pattern so that the walk ends. */
  function Step<T>(pattern: seq<T>): nat {
    if pattern == [] then 1 else |pattern|
  }

  /** The occurrences the corrected `search_all` reports from lo on: the
      first occurrence, then those from the end of it. */
  ghost function Disjoint<T>(s: seq<T>, pattern: seq<T>, lo: nat): seq<nat>
    requires lo <= |s|
  {
    Hops(|s|, lo, Occurrences(s, pattern, Equal()), Step(pattern))
  }

  /** The corrected `search_all`: after a hit the cursor moves past the
      whole occurrence. */
  method SearchAllDisjoint<T(==)>(s: seq<T>, pattern: seq<T>) returns (r: seq<nat>)
    ensures r == Disjoint(s, pattern, 0)
  {
    ghost var q := Occurrences(s, pattern, Equal());
    var first := 0;
    r := [];
    while first != |s|
      invariant first <= |s|
      invariant r + Hops(|s|, first, q, Step(pattern)) == Hops(|s|, 0, q, Step(pattern))
      decreases |s| - first
    {
      ghost var from := first;
      first := SearchBy(s, first, pattern, Equal());
      HitFits(s, pattern, from, first);
      HopStep(|s|, from, first, q, Step(pattern), r);
      if first != |s| {
        r := r + [first];
        first := first + Step(pattern);
      }
    }
  }

  /** A hit of the search leaves room for the step past it. */
  lemma HitFits<T>(s: seq<T>, pattern: seq<T>, lo: nat, f: nat)
    requires lo <= |s| && f == SearchBy(s, lo, pattern, Equal())
    ensures f == FirstWhere(|s|, lo, Occurrences(s, pattern, Equal()))
    ensures f < |s| ==> f + Step(pattern) <= |s|
  {
  }

  /** Each entry of L is an occurrence of the pattern inside s at or after
      lo, and each starts at or after the end of the one before. */
  ghost predicate Spaced<T>(L: seq<nat>, s: seq<T>, pattern: seq<T>, lo: nat) {
    && (forall k :: 0 <= k < |L| ==> lo <= L[k] < |s| && OccursAt(s, L[k], pattern, Equal()))
    && (forall k :: 0 < k < |L| ==> L[k - 1] + Step(pattern) <= L[k])
  }

  /** What the corrected `search_all` reports: occurrences of the pattern,
      each starting at or after the end of the one before. */
  lemma {:induction false} DisjointOccurrences<T>(s: seq<T>, pattern: seq<T>, lo: nat)
    requires lo <= |s|
    ensures Spaced(Disjoint(s, pattern, lo), s, pattern, lo)
    decreases |s| - lo
  {
    var q := Occurrences(s, pattern, Equal());
    var f := FirstWhere(|s|, lo, q);
    HopsSkip(|s|, lo, f, q, Step(pattern));
    if f < |s| {
      var next := f + Step(pattern);
      DisjointOccurrences(s, pattern, next);
      var L, rest := Disjoint(s, pattern, lo), Disjoint(s, pattern, next);
      assert q(f);
      assert L == [f] + rest;
      forall k | 0 <= k < |L| ensures lo <= L[k] < |s| && OccursAt(s, L[k], pattern, Equal()) {
        if k > 0 {
          assert L[k] == rest[k - 1];
        }
      }
      forall k | 0 < k < |L| ensures L[k - 1] + Step(pattern) <= L[k] {
        assert L[k] == rest[k - 1];
        if k > 1 {
          assert L[k - 1] == rest[k - 2];
        }
      }
    }
  }

  /** Every occurrence of the pattern at or after lo is in L or overlaps
      an entry of L. */
  ghost predicate Covers<T>(L: seq<nat>, s: seq<T>, pattern: seq<T>, lo: nat) {
    forall i :: lo <= i < |s| && OccursAt(s, i, pattern, Equal()) ==>
      i in L || exists k :: 0 <= k < |L| && L[k] < i < L[k] + |pattern|
  }

  /** The corrected `search_all` is greedy: an occurrence it does not
      report overlaps one it does. */
  lemma {:induction false} DisjointGreedy<T>(s: seq<T>, pattern: seq<T>, lo: nat)
    requires lo <= |s|
    ensures Covers(Disjoint(s, pattern, lo), s, pattern, lo)
    decreases |s| - lo
  {
    var q := Occurrences(s, pattern, Equal());
    var f := FirstWhere(|s|, lo, q);
    HopsSkip(|s|, lo, f, q, Step(pattern));
    if f < |s| {
      var next := f + Step(pattern);
      DisjointGreedy(s, pattern, next);
      var L, rest := Disjoint(s, pattern, lo), Disjoint(s, pattern, next);
      assert q(f);
      assert L == [f] + rest;
      forall i | lo <= i < |s| && OccursAt(s, i, pattern, Equal())
        ensures i in L || exists k :: 0 <= k < |L| && L[k] < i < L[k] + |pattern|
      {
        assert q(i);
        if i == f {
          assert L[0] == f;
        } else if i < next {
          assert L[0] < i < L[0] + |pattern|;
        } else if i !in rest {
          var k :| 0 <= k < |rest| && rest[k] < i < rest[k] + |pattern|;
          assert L[k + 1] == rest[k];
        }
      }
    } else {
      forall i | lo <= i < |s| ensures !OccursAt(s, i, pattern, Equal()) {
        assert !q(i);
      }
    }
  }

  /** The corrected occurrences never overlap, so they meet the
      precondition of `split`, and every skipped delimiter is the pattern:
      split with the tail kept and joined back with the pattern, the pieces
      are the container. */
  lemma DisjointSplitRebuilds<T>(s: seq<T>, pattern: seq<T>, pieces: seq<seq<T>>)
    requires SplitsAll(pieces, s, Disjoint(s, pattern, 0), |pattern|)
    ensures JoinWith(pieces, pattern) == s
  {
    var L := Disjoint(s, pattern, 0);
    DisjointOccurrences(s, pattern, 0);
    OccursAtEqual(s, pattern);
    forall k | 0 <= k < |L| ensures s[L[k]..L[k] + |pattern|] == pattern {
      assert SliceIs(s, L[k], pattern);
    }
    JoinRebuilds(s, L, pattern, pieces);
  }

  /** The corrected occurrences satisfy the precondition of `split`. */
  lemma DisjointInOrder<T>(s: seq<T>, pattern: seq<T>)
    ensures InOrder(Disjoint(s, pattern, 0), |pattern|, |s|)
    ensures Fits(Disjoint(s, pattern, 0), |pattern|, |s|)
  {
    var L := Disjoint(s, pattern, 0);
    DisjointOccurrences(s, pattern, 0);
    forall k | 0 <= k < |L| ensures Cursor(L, |pattern|, k) <= L[k] <= |s| {
      if k > 0 {
        assert L[k - 1] + Step(pattern) <= L[k];
      }
    }
  }

  /** `split` by a sequence over the corrected occurrences, keeping the
      tail: defined on every container, overlapping runs included. */
  method SplitBySequence<T(==)>(container: seq<T>, pattern: seq<T>) returns (pieces: seq<seq<T>>)
    ensures SplitsAll(pieces, container, Disjoint(container, pattern, 0), |pattern|)
  {
    var locations := SearchAllDisjoint(container, pattern);
    DisjointInOrder(container, pattern);
    pieces := SplitAt(container, locations, |pattern|);
  }

  /** On "####" with "##", the code as written reports 0, 1 and 2, and
      `split`'s precondition fails; the corrected search reports 0 and 2,
      and splitting there gives three empty pieces. */
  lemma OverlapsBreakSplit(corrected: seq<seq<char>>)
    requires SplitsAll(corrected, "####", Disjoint("####", "##", 0), 2)
    ensures BySequence("##").Locate("####") == [0, 1, 2]
    ensures !InOrder(BySequence("##").Locate("####"), 2, 4)
    ensures Disjoint("####", "##", 0) == [0, 2]
    ensures corrected == [[], [], []]
  {
    OverlappingSequence();
    var q := Occurrences("####", "##", Equal());
    assert q(0) && q(2) && !q(3);
    assert Disjoint("####", "##", 4) == [];
    assert Disjoint("####", "##", 2) == [2];
    assert Cursor([0, 2], 2, 0) == 0 && Cursor([0, 2], 2, 1) == 2 && Cursor([0, 2], 2, 2) == 4;
    assert corrected[..2][0] == "####"[0..0];
    assert corrected[..2][1] == "####"[2..2];
  }

  // ===== find_first_not_of: different from every candidate

  /** The criterion the tests of `find_first_not_of` check: x is none of the
      candidates. */
  function NotIn<T(==)>(candidates: seq<T>): T -> bool {
    x => x !in candidates
  }

  /** The corrected `find_first_not_of`: the first element at or after
      `first` that is none of the candidates. */
  function FindFirstNotIn<T(==)>(s: seq<T>, first: nat, candidates: seq<T>): (r: nat)
    requires first <= |s|
    ensures first <= r <= |s|
    ensures r < |s| ==> s[r] !in candidates
    ensures forall i :: first <= i < r ==> s[i] in candidates
  {
    FindIf(s, first, NotIn(candidates))
  }

  /** As written, with candidates "AB" the first element 'A' already
      differs from 'B', so `find_first_not_of` reports index 0; the first
      element that is neither 'A' nor 'B' is at index 2. */
  lemma FirstNotOfDiffersFromSome()
    ensures Searching.FindFirstNotOf("ABCDDCBAABCDDCBAX", 0, "AB") == 0
    ensures FindFirstNotIn("ABCDDCBAABCDDCBAX", 0, "AB") == 2
  {
    var s := "ABCDDCBAABCDDCBAX";
    assert RelatedToAny("AB", NotEqual())(s[0]) by {
      assert NotEqual()(s[0], "AB"[1]);
    }
    var q := Satisfies(s, NotIn("AB"));
    assert !q(0) && !q(1) && q(2);
  }

  /** With one candidate the two readings coincide, which is why
      single-candidate calls cannot tell them apart. */
  lemma FirstNotInOneCandidate<T>(s: seq<T>, first: nat, c: T)
    requires first <= |s|
    ensures Searching.FindFirstNotOf(s, first, [c]) == FindFirstNotIn(s, first, [c])
  {
    var q1 := Satisfies(s, RelatedToAny([c], NotEqual()));
    var q2 := Satisfies(s, NotIn([c]));
    forall i | first <= i < |s| ensures q1(i) == q2(i) {
      if s[i] != c {
        assert NotEqual()(s[i], [c][0]);
      }
    }
    FirstWhereAgrees(|s|, first, q1, q2);
  }

  /** The corrected `find_all_not_of`: every position whose element is none
      of the candidates, found with the corrected search. */
  method FindAllNotIn<T(==)>(s: seq<T>, candidates: seq<T>) returns (r: seq<nat>)
    ensures r == Where(|s|, 0, Satisfies(s, NotIn(candidates)))
    ensures StrictlyIncreasing(r)
    ensures forall i: nat :: i in r <==> i < |s| && s[i] !in candidates
  {
    ghost var q := Satisfies(s, NotIn(candidates));
    var first := 0;
    r := [];
    while first != |s|
      invariant first <= |s|
      invariant r + Where(|s|, first, q) == Where(|s|, 0, q)
      decreases |s| - first
    {
      ghost var from := first;
      first := FindFirstNotIn(s, first, candidates);
      ScanStep(|s|, from, first, q, r);
      if first != |s| {
        r := r + [first];
        first := first + 1;
      }
    }
    Searching.SatisfyingIndices(s, NotIn(candidates));
  }

  /** The corrected `find_all_not_of` and `find_all_of` split the container:
      every position is reported by exactly one of them. */
  lemma NotInComplementsOf<T>(s: seq<T>, candidates: seq<T>)
    ensures |Where(|s|, 0, Satisfies(s, RelatedToAny(candidates, Equal())))|
          + |Where(|s|, 0, Satisfies(s, NotIn(candidates)))| == |s|
  {
    Searching.MemberOfCandidates(s, candidates);
    WhereComplement(|s|, 0, Satisfies(s, RelatedToAny(candidates, Equal())), Satisfies(s, NotIn(candidates)));
  }
}
