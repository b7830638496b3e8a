/** Splitting a container at the positions a delimiter strategy locates.

    A delimiter strategy answers two questions: where its delimiters are
    (`Find`, a list of positions) and how many elements each one occupies
    (`Length`). `Split` walks a cursor over the container: for each located
    position it copies out the elements from the cursor up to that position,
    then moves the cursor past the delimiter. The output iterator is the
    growing sequence of pieces. */
module Splitting {
  import opened Positions
  import opened StdSearch
  import Searching

  /** The four delimiter strategies. `ByLength` carries a signed length, as
      the source's `std::ptrdiff_t` does. */
  datatype Delimiter<T(==)> =
    | ByElement(element: T)
    | BySequence(sequence: seq<T>)
    | ByAnyElement(elements: seq<T>)
    | ByLength(length: int)
  {
    /** `ByLength` needs a positive length: with 0 its loop never ends on a
        non-empty container, and a negative length steps the cursor
        backwards. */
    predicate Valid() {
      ByLength? ==> length > 0
    }

    /** The two strategies whose delimiters are single elements. */
    predicate ElementWise() {
      ByElement? || ByAnyElement?
    }

    /** For those strategies: whether x is a delimiter element. */
    predicate Delimits(x: T)
      requires ElementWise()
    {
      if ByElement? then x == element else x in elements
    }

    /** `Length()`: the number of elements one delimiter occupies, which
        `Split` skips after each located position. */
    function Length(): nat {
      match this
      case ByElement(_) => 1
      case BySequence(sq) => |sq|
      case ByAnyElement(_) => 1
      case ByLength(_) => 0
    }

    /** The positions `Find` reports: those of `find_all`, `search_all` and
        `find_all_of` for the first three strategies, the chunk starts for
        `ByLength`. */
    ghost function Locate(s: seq<T>): seq<nat>
      requires Valid()
    {
      match this
      case ByElement(e) => Where(|s|, 0, Satisfies(s, Equals(e)))
      case BySequence(sq) => Where(|s|, 0, Occurrences(s, sq, Equal()))
      case ByAnyElement(es) => Where(|s|, 0, Satisfies(s, RelatedToAny(es, Equal())))
      case ByLength(n) => ChunkStarts(|s|, n, 0)
    }

    /** `Find`: each strategy fills a list of positions through one find-all
        algorithm, except `ByLength`, which steps a cursor by the length and
        records the cursor BEFORE each step while more than `length`
        elements remain ahead of it. */
    method Find(s: seq<T>) returns (locations: seq<nat>)
      requires Valid()
      ensures locations == Locate(s)
    {
      match this
      case ByElement(e) =>
        locations := Searching.FindAll(s, e);
      case BySequence(sq) =>
        locations := Searching.SearchAll(s, sq);
      case ByAnyElement(es) =>
        locations := Searching.FindAllOf(s, es);
      case ByLength(n) =>
        var begin := 0;
        locations := [];
        while |s| - begin > n
          invariant begin <= |s|
          invariant locations + ChunkStarts(|s|, n, begin) == ChunkStarts(|s|, n, 0)
          decreases |s| - begin
        {
          locations := locations + [begin];
          begin := begin + n;
        }
    }
  }

  /** The cursors `ByLength::Find` records from `begin` on: `begin`,
      `begin + n`, ... while more than n elements remain ahead. */
  ghost function ChunkStarts(len: nat, n: nat, begin: nat): seq<nat>
    requires n > 0 && begin <= len
    decreases len - begin
  {
    if len - begin > n then [begin] + ChunkStarts(len, n, begin + n) else []
  }

  /** Where `Split`'s cursor stands before the k-th piece: at the start, or
      just past the delimiter at the previous location. */
  function Cursor(locations: seq<nat>, width: nat, k: nat): nat
    requires k <= |locations|
  {
    if k == 0 then 0 else locations[k - 1] + width
  }

  /** Every location is at or after the cursor that reaches it, and inside
      the container; otherwise the copy of [cursor, location) would run
      backwards, which the source leaves undefined. */
  ghost predicate InOrder(locations: seq<nat>, width: nat, n: nat) {
    forall k {:trigger Cursor(locations, width, k)} :: 0 <= k < |locations| ==>
      Cursor(locations, width, k) <= locations[k] <= n
  }

  /** Every located delimiter lies wholly inside the container. */
  ghost predicate Fits(locations: seq<nat>, width: nat, n: nat) {
    forall k :: 0 <= k < |locations| ==> locations[k] + width <= n
  }

  /** pieces is what `Split` emits: one piece per location, the k-th being
      the copy of the container from the cursor up to the k-th location. */
  ghost predicate SplitsAt<T>(pieces: seq<seq<T>>, s: seq<T>, locations: seq<nat>, width: nat) {
    && InOrder(locations, width, |s|)
    && |pieces| == |locations|
    && forall k {:trigger pieces[k]} :: 0 <= k < |locations| ==>
         pieces[k] == s[Cursor(locations, width, k)..locations[k]]
  }

  /** `split`: one piece per located position, in order; the elements after
      the last located position are not emitted. */
  method Split<T(==)>(container: seq<T>, delimiter: Delimiter<T>) returns (pieces: seq<seq<T>>)
    requires delimiter.Valid()
    requires InOrder(delimiter.Locate(container), delimiter.Length(), |container|)
    ensures SplitsAt(pieces, container, delimiter.Locate(container), delimiter.Length())
  {
    var locations := delimiter.Find(container);
    var first := 0;
    pieces := [];
    for i := 0 to |locations|
      invariant |pieces| == i
      invariant first == Cursor(locations, delimiter.Length(), i)
      invariant forall k {:trigger pieces[k]} :: 0 <= k < i ==>
        && Cursor(locations, delimiter.Length(), k) <= locations[k] <= |container|
        && pieces[k] == container[Cursor(locations, delimiter.Length(), k)..locations[k]]
    {
      assert Cursor(locations, delimiter.Length(), i) <= locations[i] <= |container|;
      var last := locations[i];
      pieces := pieces + [container[first..last]];
      first := last + delimiter.Length();
    }
  }

  // ===== What the strategies locate

  /** `ByLength(n)` records max(0, ceil(len/n) - 1) cursors, the k-th at k*n:
      c cursors leave between 1 and n elements after the last one. */
  lemma {:induction false} ChunkStartsShape(len: nat, n: nat, begin: nat)
    requires n > 0 && begin <= len
    ensures var c := |ChunkStarts(len, n, begin)|;
      if len == begin then c == 0 else c * n < len - begin <= (c + 1) * n
    ensures forall k :: 0 <= k < |ChunkStarts(len, n, begin)| ==> ChunkStarts(len, n, begin)[k] == begin + k * n
    decreases len - begin
  {
    if len - begin > n {
      ChunkStartsShape(len, n, begin + n);
      var rest := ChunkStarts(len, n, begin + n);
      var c := |rest|;
      assert (c + 1) * n == c * n + n;
      assert (c + 2) * n == (c + 1) * n + n;
      forall k | 1 <= k < |ChunkStarts(len, n, begin)|
        ensures ChunkStarts(len, n, begin)[k] == begin + k * n
      {
        assert ChunkStarts(len, n, begin)[k] == rest[k - 1];
        assert (k - 1) * n + n == k * n;
      }
    }
  }

  /** What each strategy's positions mean, together with its `Length()`: the
      positions are strictly increasing, every delimiter lies inside the
      container, and they are exactly the occurrences of the delimiter (for
      `ByLength`, the multiples of the length short of the last chunk). */
  lemma LocatedDelimiters<T>(d: Delimiter<T>, s: seq<T>)
    requires d.Valid()
    ensures StrictlyIncreasing(d.Locate(s))
    ensures Fits(d.Locate(s), d.Length(), |s|)
    ensures d.ByElement? ==> forall i: nat :: i in d.Locate(s) <==> i < |s| && s[i] == d.element
    ensures d.BySequence? ==> forall i: nat :: i in d.Locate(s) <==> i < |s| && SliceIs(s, i, d.sequence)
    ensures d.ByAnyElement? ==> forall i: nat :: i in d.Locate(s) <==> i < |s| && s[i] in d.elements
    ensures d.ByLength? && |s| > 0 ==> |d.Locate(s)| * d.length < |s| <= (|d.Locate(s)| + 1) * d.length
    ensures d.ByLength? ==> forall k :: 0 <= k < |d.Locate(s)| ==> d.Locate(s)[k] == k * d.length
  {
    match d
    case ByElement(e) => ElementLocations(e, s);
    case BySequence(sq) => SequenceLocations(sq, s);
    case ByAnyElement(es) => AnyElementLocations(es, s);
    case ByLength(n) => LengthLocations(n, s);
  }

  lemma ElementLocations<T>(e: T, s: seq<T>)
    ensures var L := ByElement(e).Locate(s);
      && StrictlyIncreasing(L) && Fits(L, 1, |s|)
      && forall i: nat :: i in L <==> i < |s| && s[i] == e
  {
    Searching.SatisfyingIndices(s, Equals(e));
    WhereBounded(|s|, 0, Satisfies(s, Equals(e)));
  }

  lemma SequenceLocations<T>(sq: seq<T>, s: seq<T>)
    ensures var L := BySequence(sq).Locate(s);
      && StrictlyIncreasing(L) && Fits(L, |sq|, |s|)
      && forall i: nat :: i in L <==> i < |s| && SliceIs(s, i, sq)
  {
    var L := BySequence(sq).Locate(s);
    Searching.OccurrenceIndices(s, sq, Equal());
    OccursAtEqual(s, sq);
    forall k | 0 <= k < |L| ensures L[k] + |sq| <= |s| {
      assert L[k] in L;
    }
  }

  lemma AnyElementLocations<T>(es: seq<T>, s: seq<T>)
    ensures var L := ByAnyElement(es).Locate(s);
      && StrictlyIncreasing(L) && Fits(L, 1, |s|)
      && forall i: nat :: i in L <==> i < |s| && s[i] in es
  {
    Searching.SatisfyingIndices(s, RelatedToAny(es, Equal()));
    Searching.MemberOfCandidates(s, es);
    WhereBounded(|s|, 0, Satisfies(s, RelatedToAny(es, Equal())));
  }

  lemma LengthLocations<T>(n: int, s: seq<T>)
    requires n > 0
    ensures var L := Delimiter<T>.ByLength(n).Locate(s);
      && StrictlyIncreasing(L) && Fits(L, 0, |s|)
      && (|s| > 0 ==> |L| * n < |s| <= (|L| + 1) * n)
      && forall k :: 0 <= k < |L| ==> L[k] == k * n
  {
    var L := Delimiter<T>.ByLength(n).Locate(s);
    ChunkStartsShape(|s|, n, 0);
    forall k | 0 <= k < |L| ensures L[k] < |s| {
      MultiplyStrictly(k, |L|, n);
    }
    forall i, j | 0 <= i < j < |L| ensures L[i] < L[j] {
      MultiplyStrictly(i, j, n);
    }
  }

  lemma MultiplyStrictly(a: nat, b: nat, n: nat)
    requires a < b && n > 0
    ensures a * n < b * n
  {
    assert b * n == a * n + (b - a) * n;
  }

  /** On an empty container no strategy locates anything, so `Split` emits
      no pieces. */
  lemma EmptyContainer<T>(d: Delimiter<T>)
    requires d.Valid()
    ensures d.Locate([]) == []
    ensures InOrder(d.Locate([]), d.Length(), 0)
  {
  }

  /** Strictly increasing positions inside the container, with delimiters at
      most one element wide, never put a location before the cursor: the
      precondition of `Split` holds for `ByElement`, `ByAnyElement` and
      `ByLength` on every container. */
  lemma SplitDefined<T>(d: Delimiter<T>, s: seq<T>)
    requires d.Valid() && !d.BySequence?
    ensures InOrder(d.Locate(s), d.Length(), |s|)
  {
    LocatedDelimiters(d, s);
    var L := d.Locate(s);
    forall k | 0 <= k < |L| ensures Cursor(L, d.Length(), k) <= L[k] <= |s| {
      if k > 0 {
        assert L[k - 1] < L[k];
      }
    }
  }

  /** Under `ByElement` or `ByAnyElement`, a delimiter at the very start
      gives an empty first piece. */
  lemma LeadingDelimiterGivesEmptyPiece<T>(d: Delimiter<T>, s: seq<T>, pieces: seq<seq<T>>)
    requires d.ElementWise() && SplitsAt(pieces, s, d.Locate(s), 1)
    requires |s| > 0 && d.Delimits(s[0])
    ensures |pieces| > 0 && pieces[0] == []
  {
    var L := d.Locate(s);
    var a := ElementPosition(d, s, 0);
    ElementsIncrease(d, s);
    assert L[0] <= L[a];
    assert pieces[0] == s[Cursor(L, 1, 0)..L[0]];
  }

  /** Under `ByElement` or `ByAnyElement`, two delimiters side by side, at i
      and i + 1, are consecutive located positions, and the piece between
      them is empty. */
  lemma AdjacentDelimitersGiveEmptyPieces<T>(d: Delimiter<T>, s: seq<T>, pieces: seq<seq<T>>, i: nat)
    requires d.ElementWise() && SplitsAt(pieces, s, d.Locate(s), 1)
    requires i + 1 < |s| && d.Delimits(s[i]) && d.Delimits(s[i + 1])
    ensures exists a: nat :: a + 1 < |d.Locate(s)| && d.Locate(s)[a] == i && d.Locate(s)[a + 1] == i + 1 && pieces[a + 1] == []
  {
    var L := d.Locate(s);
    var a := ElementPosition(d, s, i);
    var b := ElementPosition(d, s, i + 1);
    ElementsIncrease(d, s);
    NextLocation(L, a, b);
    EmptyPieceAt(pieces, s, L, a);
  }

  /** Two located delimiters of width one side by side leave nothing
      between them. */
  lemma EmptyPieceAt<T>(pieces: seq<seq<T>>, s: seq<T>, L: seq<nat>, a: nat)
    requires SplitsAt(pieces, s, L, 1)
    requires a + 1 < |L| && L[a + 1] == L[a] + 1
    ensures pieces[a + 1] == []
  {
    assert pieces[a + 1] == s[Cursor(L, 1, a + 1)..L[a + 1]];
  }

  /** Where a delimiter element sits in the list of located delimiters. */
  lemma ElementPosition<T>(d: Delimiter<T>, s: seq<T>, i: nat) returns (a: nat)
    requires d.ElementWise() && i < |s| && d.Delimits(s[i])
    ensures a < |d.Locate(s)| && d.Locate(s)[a] == i
  {
    var L := d.Locate(s);
    match d {
      case ByElement(e) => ElementLocations(e, s);
      case ByAnyElement(es) => AnyElementLocations(es, s);
    }
    assert i in L;
    a :| 0 <= a < |L| && L[a] == i;
  }

  /** The located element delimiters are in strictly increasing order, and
      each lies inside the container. */
  lemma ElementsIncrease<T>(d: Delimiter<T>, s: seq<T>)
    requires d.ElementWise()
    ensures StrictlyIncreasing(d.Locate(s))
    ensures Fits(d.Locate(s), 1, |s|)
  {
    match d
    case ByElement(e) => ElementLocations(e, s);
    case ByAnyElement(es) => AnyElementLocations(es, s);
  }

  /** In a strictly increasing list, the entry one larger than L[a] comes
      right after it. */
  lemma NextLocation(L: seq<nat>, a: nat, b: nat)
    requires StrictlyIncreasing(L)
    requires a < |L| && b < |L| && L[b] == L[a] + 1
    ensures b == a + 1
  {
    assert a < b;
    assert L[b] <= L[a + 1];
  }

  /** Overlapping occurrences break `Split`'s precondition: "##" occurs in
      "####" at 0, 1 and 2, and after the delimiter at 0 the cursor (2) is
      past the next location (1). */
  lemma OverlappingSequence()
    ensures BySequence("##").Locate("####") == [0, 1, 2]
    ensures !InOrder(BySequence("##").Locate("####"), 2, 4)
  {
    var q := Occurrences("####", "##", Equal());
    assert q(0) && q(1) && q(2) && !q(3);
    assert Where(4, 3, q) == [];
    assert Cursor([0, 1, 2], 2, 1) == 2;
  }

  // ===== What the pieces rebuild

  /** The delimiters `Split` skips: the `Length()` elements at each location. */
  ghost function Consumed<T>(s: seq<T>, locations: seq<nat>, width: nat): seq<seq<T>>
    requires Fits(locations, width, |s|)
  {
    seq(|locations|, k requires 0 <= k < |locations| => s[locations[k]..locations[k] + width])
  }

  /** pieces[0] + delimiters[0] + pieces[1] + delimiters[1] + ...: each
      piece followed by the delimiter that ended it. */
  ghost function Interleave<T>(pieces: seq<seq<T>>, delimiters: seq<seq<T>>): seq<T>
    requires |pieces| == |delimiters|
    decreases |pieces|
  {
    if pieces == [] then []
    else Interleave(pieces[..|pieces| - 1], delimiters[..|pieces| - 1]) + pieces[|pieces| - 1] + delimiters[|pieces| - 1]
  }

  /** The first m pieces, each followed by the delimiter that ended it, are
      the container up to the cursor after the m-th delimiter. */
  lemma {:induction false} RebuildPrefix<T>(s: seq<T>, locations: seq<nat>, width: nat, pieces: seq<seq<T>>, m: nat)
    requires SplitsAt(pieces, s, locations, width) && Fits(locations, width, |s|)
    requires m <= |locations|
    ensures Cursor(locations, width, m) <= |s|
    ensures Interleave(pieces[..m], Consumed(s, locations, width)[..m]) == s[..Cursor(locations, width, m)]
  {
    var c := Consumed(s, locations, width);
    if m > 0 {
      RebuildPrefix(s, locations, width, pieces, m - 1);
      var from, at := Cursor(locations, width, m - 1), locations[m - 1];
      assert pieces[m - 1] == s[from..at];
      RebuildStep(s, pieces, c, m, from, at, width);
    }
  }

  /** Appending the m-th piece and the delimiter after it extends the
      rebuilt prefix from the piece's start to the delimiter's end. */
  lemma RebuildStep<T>(s: seq<T>, pieces: seq<seq<T>>, c: seq<seq<T>>, m: nat, from: nat, at: nat, width: nat)
    requires 0 < m <= |pieces| == |c|
    requires from <= at && at + width <= |s|
    requires Interleave(pieces[..m - 1], c[..m - 1]) == s[..from]
    requires pieces[m - 1] == s[from..at] && c[m - 1] == s[at..at + width]
    ensures Interleave(pieces[..m], c[..m]) == s[..at + width]
  {
    PrefixSnoc(pieces, m);
    PrefixSnoc(c, m);
    InterleaveSnoc(pieces[..m - 1], c[..m - 1], pieces[m - 1], c[m - 1]);
    SlicesJoin(s, from, at, at + width);
  }

  lemma PrefixSnoc<U>(xs: seq<U>, m: nat)
    requires 0 < m <= |xs|
    ensures xs[..m] == xs[..m - 1] + [xs[m - 1]]
  {
  }

  lemma SlicesJoin<T>(s: seq<T>, a: nat, b: nat, c: nat)
    requires a <= b <= c <= |s|
    ensures s[..a] + s[a..b] + s[b..c] == s[..c]
  {
  }

  lemma InterleaveSnoc<T>(pieces: seq<seq<T>>, delimiters: seq<seq<T>>, piece: seq<T>, delimiter: seq<T>)
    requires |pieces| == |delimiters|
    ensures Interleave(pieces + [piece], delimiters + [delimiter]) == Interleave(pieces, delimiters) + piece + delimiter
  {
    assert (pieces + [piece])[..|pieces|] == pieces;
    assert (delimiters + [delimiter])[..|pieces|] == delimiters;
  }

  /** Every strategy's delimiters lie inside the container. */
  lemma LocationsFit<T>(d: Delimiter<T>, s: seq<T>)
    requires d.Valid()
    ensures Fits(d.Locate(s), d.Length(), |s|)
  {
    LocatedDelimiters(d, s);
  }

  /** Each piece followed by the delimiter occurrence that ended it
      rebuilds the container up to and including the last located delimiter
      (nothing when no delimiter was located). For `ByLength` the delimiters
      are empty, so the pieces alone rebuild the container up to the last
      recorded chunk start. */
  lemma SplitRebuildsPrefix<T>(d: Delimiter<T>, s: seq<T>, pieces: seq<seq<T>>)
    requires d.Valid()
    requires SplitsAt(pieces, s, d.Locate(s), d.Length())
    ensures Fits(d.Locate(s), d.Length(), |s|)
    ensures Interleave(pieces, Consumed(s, d.Locate(s), d.Length()))
         == s[..if pieces == [] then 0 else d.Locate(s)[|pieces| - 1] + d.Length()]
  {
    LocationsFit(d, s);
    RebuildAll(s, d.Locate(s), d.Length(), pieces);
  }

  /** All the pieces, each followed by its delimiter, rebuild the container
      up to the cursor after the last delimiter. */
  lemma RebuildAll<T>(s: seq<T>, locations: seq<nat>, width: nat, pieces: seq<seq<T>>)
    requires SplitsAt(pieces, s, locations, width) && Fits(locations, width, |s|)
    ensures Interleave(pieces, Consumed(s, locations, width))
         == s[..if pieces == [] then 0 else locations[|pieces| - 1] + width]
  {
    var n := |locations|;
    RebuildPrefix(s, locations, width, pieces, n);
    assert pieces[..n] == pieces;
    var c := Consumed(s, locations, width);
    assert c[..n] == c;
    assert Cursor(locations, width, n) == if pieces == [] then 0 else locations[|pieces| - 1] + width;
  }

  /** Under `ByElement(e)`, every delimiter `Split` skips is the single element e. */
  lemma ConsumedElements<T>(e: T, s: seq<T>)
    ensures Fits(ByElement(e).Locate(s), 1, |s|)
    ensures var c := Consumed(s, ByElement(e).Locate(s), 1);
      forall k :: 0 <= k < |c| ==> c[k] == [e]
  {
    ElementsIncrease(ByElement(e), s);
    var L := ByElement(e).Locate(s);
    var c := Consumed(s, L, 1);
    forall k | 0 <= k < |c| ensures c[k] == [e] {
      LocatedElement(e, s, k);
      assert c[k] == s[L[k]..L[k] + 1];
    }
  }

  /** Every located element delimiter is an element equal to e. */
  lemma LocatedElement<T>(e: T, s: seq<T>, k: nat)
    requires k < |ByElement(e).Locate(s)|
    ensures ByElement(e).Locate(s)[k] < |s| && s[ByElement(e).Locate(s)[k]] == e
  {
    var L := ByElement(e).Locate(s);
    ElementLocations(e, s);
    assert L[k] in L;
  }

  /** Under `BySequence(sq)`, every delimiter `Split` skips is the whole of sq. */
  lemma ConsumedSequences<T>(sq: seq<T>, s: seq<T>)
    ensures Fits(BySequence(sq).Locate(s), |sq|, |s|)
    ensures var c := Consumed(s, BySequence(sq).Locate(s), |sq|);
      forall k :: 0 <= k < |c| ==> c[k] == sq
  {
    SequenceLocations(sq, s);
    var L := BySequence(sq).Locate(s);
    var c := Consumed(s, L, |sq|);
    forall k | 0 <= k < |c| ensures c[k] == sq {
      assert L[k] in L;
    }
  }

  /** Under `ByAnyElement(es)`, every delimiter `Split` skips is one element
      of es. */
  lemma ConsumedAnyElements<T>(es: seq<T>, s: seq<T>)
    ensures Fits(ByAnyElement(es).Locate(s), 1, |s|)
    ensures var c := Consumed(s, ByAnyElement(es).Locate(s), 1);
      forall k :: 0 <= k < |c| ==> |c[k]| == 1 && c[k][0] in es
  {
    AnyElementLocations(es, s);
    var L := ByAnyElement(es).Locate(s);
    var c := Consumed(s, L, 1);
    forall k | 0 <= k < |c| ensures |c[k]| == 1 && c[k][0] in es {
      assert L[k] in L;
      assert c[k][0] == s[L[k]];
    }
  }
}
