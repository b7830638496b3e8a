/** Index lists: the positions a left-to-right scan over a range of length n
    reports. A position is a `nat` index; n plays the role of the end iterator.
    Every search in the library is an instance of `FirstWhere` (one match) or
    of `Where` (all matches), with the criterion given as a predicate on
    indices. */
module Positions {

  /** Every entry is larger than the one before it. */
  ghost predicate StrictlyIncreasing(r: seq<nat>) {
    forall i, j :: 0 <= i < j < |r| ==> r[i] < r[j]
  }

  /** The least index in [lo, n) that satisfies q, or n when none does:
      what a single-match search started at lo returns. */
  function FirstWhere(n: nat, lo: nat, q: nat -> bool): (r: nat)
    requires lo <= n
    ensures lo <= r <= n
    ensures r < n ==> q(r)
    ensures forall i :: lo <= i < r ==> !q(i)
    decreases n - lo
  {
    if lo == n || q(lo) then lo else FirstWhere(n, lo + 1, q)
  }

  /** The indices in [lo, n) that satisfy q, in the order a scan meets them. */
  ghost function Where(n: nat, lo: nat, q: nat -> bool): seq<nat>
    requires lo <= n
    decreases n - lo
  {
    if lo == n then [] else (if q(lo) then [lo] else []) + Where(n, lo + 1, q)
  }

  /** `Where` lists exactly the satisfying indices of the range, each once,
      in strictly increasing order. */
  lemma {:induction false} WhereExactly(n: nat, lo: nat, q: nat -> bool)
    requires lo <= n
    ensures StrictlyIncreasing(Where(n, lo, q))
    ensures forall i :: i in Where(n, lo, q) <==> lo <= i < n && q(i)
    decreases n - lo
  {
    if lo < n {
      WhereExactly(n, lo + 1, q);
      var tail := Where(n, lo + 1, q);
      assert forall k :: 0 <= k < |tail| ==> lo < tail[k] by {
        forall k | 0 <= k < |tail| ensures lo < tail[k] {
          assert tail[k] in tail;
        }
      }
    }
  }

  /** No entry of `Where` reaches n, so every entry is a valid index. */
  lemma WhereBounded(n: nat, lo: nat, q: nat -> bool)
    requires lo <= n
    ensures forall k :: 0 <= k < |Where(n, lo, q)| ==> lo <= Where(n, lo, q)[k] < n
  {
    WhereExactly(n, lo, q);
    var r := Where(n, lo, q);
    forall k | 0 <= k < |r| ensures lo <= r[k] < n {
      assert r[k] in r;
    }
  }

  /** A stretch with no satisfying index contributes nothing: scanning from
      lo and scanning from the first candidate mid give the same list. */
  lemma {:induction false} WhereSkips(n: nat, lo: nat, mid: nat, q: nat -> bool)
    requires lo <= mid <= n
    requires forall i :: lo <= i < mid ==> !q(i)
    ensures Where(n, lo, q) == Where(n, mid, q)
    decreases mid - lo
  {
    if lo < mid {
      WhereSkips(n, lo + 1, mid, q);
    }
  }

  /** One round of a find-all loop: the positions already reported, followed
      by those a scan from the cursor lo would report, are the positions
      reported after searching once from lo, followed by those a scan from
      one past the hit would report. */
  lemma ScanStep(n: nat, lo: nat, f: nat, q: nat -> bool, found: seq<nat>)
    requires lo <= n && f == FirstWhere(n, lo, q)
    ensures f < n ==> found + Where(n, lo, q) == (found + [f]) + Where(n, f + 1, q)
    ensures f == n ==> found + Where(n, lo, q) == found
  {
    WhereSkips(n, lo, f, q);
    if f < n {
      assert Where(n, f, q) == [f] + Where(n, f + 1, q);
    } else {
      assert Where(n, f, q) == [];
    }
  }

  /** The indices in [lo, n) a scan reports when, after each hit i, it
      resumes at i + step (or at n, when that lies past the end). */
  ghost function Hops(n: nat, lo: nat, q: nat -> bool, step: nat): seq<nat>
    requires lo <= n && step >= 1
    decreases n - lo
  {
    if lo == n then []
    else if q(lo) then [lo] + Hops(n, if lo + step <= n then lo + step else n, q, step)
    else Hops(n, lo + 1, q, step)
  }

  /** A stretch with no satisfying index contributes nothing to a hopping
      scan either. */
  lemma {:induction false} HopsSkip(n: nat, lo: nat, mid: nat, q: nat -> bool, step: nat)
    requires lo <= mid <= n && step >= 1
    requires forall i :: lo <= i < mid ==> !q(i)
    ensures Hops(n, lo, q, step) == Hops(n, mid, q, step)
    decreases mid - lo
  {
    if lo < mid {
      HopsSkip(n, lo + 1, mid, q, step);
    }
  }

  /** One round of a loop that resumes step places after each hit: the
      positions already reported, followed by those a hopping scan from lo
      would report, are the positions reported after searching once from
      lo, followed by those a hopping scan from f + step would report. */
  lemma HopStep(n: nat, lo: nat, f: nat, q: nat -> bool, step: nat, found: seq<nat>)
    requires lo <= n && step >= 1 && f == FirstWhere(n, lo, q)
    requires f < n ==> f + step <= n
    ensures f < n ==> found + Hops(n, lo, q, step) == (found + [f]) + Hops(n, f + step, q, step)
    ensures f == n ==> found + Hops(n, lo, q, step) == found
  {
    HopsSkip(n, lo, f, q, step);
    if f < n {
      assert Hops(n, f, q, step) == [f] + Hops(n, f + step, q, step);
    } else {
      assert Hops(n, f, q, step) == [];
    }
  }

  /** Two criteria that agree on the range have the same first match. */
  lemma {:induction false} FirstWhereAgrees(n: nat, lo: nat, q1: nat -> bool, q2: nat -> bool)
    requires lo <= n
    requires forall i :: lo <= i < n ==> q1(i) == q2(i)
    ensures FirstWhere(n, lo, q1) == FirstWhere(n, lo, q2)
    decreases n - lo
  {
    if lo < n {
      FirstWhereAgrees(n, lo + 1, q1, q2);
    }
  }

  /** Two criteria that agree on the range select the same indices. */
  lemma {:induction false} WhereAgrees(n: nat, lo: nat, q1: nat -> bool, q2: nat -> bool)
    requires lo <= n
    requires forall i :: lo <= i < n ==> q1(i) == q2(i)
    ensures Where(n, lo, q1) == Where(n, lo, q2)
    decreases n - lo
  {
    if lo < n {
      WhereAgrees(n, lo + 1, q1, q2);
    }
  }

  /** Two criteria that disagree at every index of the range split it: the
      two lists together are as long as the range. */
  lemma {:induction false} WhereComplement(n: nat, lo: nat, q1: nat -> bool, q2: nat -> bool)
    requires lo <= n
    requires forall i :: lo <= i < n ==> q1(i) != q2(i)
    ensures |Where(n, lo, q1)| + |Where(n, lo, q2)| == n - lo
    decreases n - lo
  {
    if lo < n {
      WhereComplement(n, lo + 1, q1, q2);
    }
  }

  /** The list of every index of [lo, n). */
  ghost function Range(lo: nat, n: nat): seq<nat>
    requires lo <= n
    decreases n - lo
  {
    if lo == n then [] else [lo] + Range(lo + 1, n)
  }

  /** A criterion that holds everywhere on the range selects all of it. */
  lemma {:induction false} WhereEverywhere(n: nat, lo: nat, q: nat -> bool)
    requires lo <= n
    requires forall i :: lo <= i < n ==> q(i)
    ensures Where(n, lo, q) == Range(lo, n)
    decreases n - lo
  {
    if lo < n {
      WhereEverywhere(n, lo + 1, q);
    }
  }

  /** A criterion that holds nowhere on the range selects nothing. */
  lemma WhereNowhere(n: nat, lo: nat, q: nat -> bool)
    requires lo <= n
    requires forall i :: lo <= i < n ==> !q(i)
    ensures Where(n, lo, q) == []
  {
    WhereSkips(n, lo, n, q);
  }
}
