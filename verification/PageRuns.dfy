/** Lists of page ranges, and when such a list is the canonical form of a set of pages. */
module PageRuns {

  /** Pages `first .. first + count - 1`. */
  datatype Run = Run(first: nat, count: nat) {
    function End(): nat { first + count }
  }

  ghost function Span(lo: nat, n: nat): (r: set<nat>)
    ensures |r| == n && forall p :: p in r <==> lo <= p < lo + n
  {
    if n == 0 then {} else Span(lo, n - 1) + {lo + n - 1}
  }

  ghost function PagesOf(r: Run): set<nat> { Span(r.first, r.count) }

  ghost function PageSet(runs: seq<Run>): set<nat> {
    if runs == [] then {} else PageSet(runs[..|runs| - 1]) + PagesOf(runs[|runs| - 1])
  }

  function PageCount(runs: seq<Run>): nat {
    if runs == [] then 0 else PageCount(runs[..|runs| - 1]) + runs[|runs| - 1].count
  }

  /** Sorted, non-empty ranges with a gap between any two: each is a maximal run. */
  ghost predicate Canonical(runs: seq<Run>) {
    && (forall i :: 0 <= i < |runs| ==> runs[i].count > 0)
    && (forall i, j :: 0 <= i < j < |runs| ==> runs[i].End() < runs[j].first)
  }

  // ----- membership -----

  lemma {:induction false} Locate(runs: seq<Run>, p: nat) returns (i: nat)
    requires p in PageSet(runs)
    ensures i < |runs| && runs[i].first <= p < runs[i].End()
  {
    var m := |runs| - 1;
    if p in PagesOf(runs[m]) {
      i := m;
    } else {
      i := Locate(runs[..m], p);
    }
  }

  lemma {:induction false} Member(runs: seq<Run>, i: nat, p: nat)
    requires i < |runs| && runs[i].first <= p < runs[i].End()
    ensures p in PageSet(runs)
  {
    if i < |runs| - 1 {
      Member(runs[..|runs| - 1], i, p);
    }
  }

  lemma {:induction false} PageSetConcat(a: seq<Run>, b: seq<Run>)
    ensures PageSet(a + b) == PageSet(a) + PageSet(b)
    ensures PageCount(a + b) == PageCount(a) + PageCount(b)
  {
    hide Span, PagesOf;
    if b == [] {
      assert a + b == a;
    } else {
      var m := |b| - 1;
      PageSetConcat(a, b[..m]);
      assert (a + b)[..|a| + m] == a + b[..m];
    }
  }

  lemma PageSetSingle(r: Run)
    ensures PageSet([r]) == PagesOf(r) && PageCount([r]) == r.count
  {
    assert [r][..0] == [];
  }

  lemma {:induction false} PageSetCard(runs: seq<Run>)
    requires Canonical(runs)
    ensures |PageSet(runs)| == PageCount(runs)
  {
    hide Span;
    if runs != [] {
      var m := |runs| - 1;
      PageSetCard(runs[..m]);
      forall p | p in PageSet(runs[..m]) ensures p !in PagesOf(runs[m]) {
        var i := Locate(runs[..m], p);
      }
      assert PageSet(runs[..m]) !! PagesOf(runs[m]);
    }
  }

  // ----- canonical form -----

  /** Consecutive free pages never straddle two ranges: what coalescing on both sides buys. */
  lemma RunOfFreePages(runs: seq<Run>, p: nat, k: nat) returns (i: nat)
    requires Canonical(runs) && k > 0 && Span(p, k) <= PageSet(runs)
    ensures i < |runs| && runs[i].first <= p && p + k <= runs[i].End()
  {
    hide Span, PageSet;
    assert p in Span(p, k);
    i := Locate(runs, p);
    var e := runs[i].End();
    if e < p + k {
      assert e in Span(p, k);
      var j := Locate(runs, e);
    }
  }

  /** Two canonical lists of the same pages start with the same range. */
  lemma SameFirst(a: seq<Run>, b: seq<Run>)
    requires Canonical(a) && Canonical(b) && a != [] && PageSet(a) == PageSet(b)
    ensures b != [] && a[0] == b[0]
  {
    hide Span, PageSet;
    forall p | p in Span(a[0].first, a[0].count) ensures p in PageSet(a) { Member(a, 0, p); }
    var i := RunOfFreePages(b, a[0].first, a[0].count);
    forall p | p in Span(b[0].first, b[0].count) ensures p in PageSet(b) { Member(b, 0, p); }
    var j := RunOfFreePages(a, b[0].first, b[0].count);
  }

  lemma {:induction false} TailPages(a: seq<Run>)
    requires Canonical(a) && a != []
    ensures Canonical(a[1..]) && PageSet(a[1..]) == PageSet(a) - PagesOf(a[0])
  {
    hide Span, PageSet, PageCount;
    assert a == [a[0]] + a[1..];
    PageSetConcat([a[0]], a[1..]);
    PageSetSingle(a[0]);
    forall p | p in PageSet(a[1..]) ensures p !in PagesOf(a[0]) {
      var i := Locate(a[1..], p);
    }
  }

  /** A set of pages has exactly one canonical list. */
  lemma {:induction false} CanonicalUnique(a: seq<Run>, b: seq<Run>)
    requires Canonical(a) && Canonical(b) && PageSet(a) == PageSet(b)
    ensures a == b
  {
    hide Span, PageSet, PagesOf;
    if a == [] {
      if b != [] { SameFirst(b, a); }
    } else {
      SameFirst(a, b);
      TailPages(a);
      TailPages(b);
      CanonicalUnique(a[1..], b[1..]);
      assert a == [a[0]] + a[1..] && b == [b[0]] + b[1..];
    }
  }

  // ----- inserting a range -----

  /** Where a range starting at `p` belongs. */
  function Position(runs: seq<Run>, p: nat): (k: nat)
    ensures k <= |runs|
    ensures forall i :: 0 <= i < k ==> runs[i].first <= p
    ensures k < |runs| ==> p < runs[k].first
  {
    if runs == [] || p < runs[0].first then 0
    else
      assert forall i :: 0 < i < |runs| ==> runs[i] == runs[1..][i - 1];
      1 + Position(runs[1..], p)
  }

  function MergeNext(n: Run, rest: seq<Run>): (r: seq<Run>)
    ensures r != []
  {
    if rest != [] && n.End() == rest[0].first then [Run(n.first, n.count + rest[0].count)] + rest[1..]
    else [n] + rest
  }

  function MergePrev(pre: seq<Run>, mid: seq<Run>): seq<Run>
    requires mid != []
  {
    if pre != [] && pre[|pre| - 1].End() == mid[0].first
    then pre[..|pre| - 1] + [Run(pre[|pre| - 1].first, pre[|pre| - 1].count + mid[0].count)] + mid[1..]
    else pre + mid
  }

  /** The list after `n` is inserted in address order and merged with both neighbours. */
  function Insert(runs: seq<Run>, n: Run): seq<Run> {
    var k := Position(runs, n.first);
    MergePrev(runs[..k], MergeNext(n, runs[k..]))
  }

  lemma JoinPages(a: Run, b: Run)
    requires a.End() == b.first
    ensures PagesOf(Run(a.first, a.count + b.count)) == PagesOf(a) + PagesOf(b)
  {
  }

  lemma MergeNextPages(n: Run, rest: seq<Run>)
    ensures PageSet(MergeNext(n, rest)) == PagesOf(n) + PageSet(rest)
    ensures PageCount(MergeNext(n, rest)) == n.count + PageCount(rest)
  {
    hide Span, PagesOf, PageSet, PageCount;
    PageSetSingle(n);
    PageSetConcat([n], rest);
    if rest != [] && n.End() == rest[0].first {
      var j := Run(n.first, n.count + rest[0].count);
      JoinPages(n, rest[0]);
      PageSetSingle(j);
      PageSetSingle(rest[0]);
      PageSetConcat([j], rest[1..]);
      PageSetConcat([rest[0]], rest[1..]);
      assert rest == [rest[0]] + rest[1..];
    }
  }

  lemma MergePrevPages(pre: seq<Run>, mid: seq<Run>)
    requires mid != []
    ensures PageSet(MergePrev(pre, mid)) == PageSet(pre) + PageSet(mid)
    ensures PageCount(MergePrev(pre, mid)) == PageCount(pre) + PageCount(mid)
  {
    hide Span, PagesOf, PageSet, PageCount;
    PageSetConcat(pre, mid);
    if pre != [] && pre[|pre| - 1].End() == mid[0].first {
      var m := |pre| - 1;
      var j := Run(pre[m].first, pre[m].count + mid[0].count);
      JoinPages(pre[m], mid[0]);
      PageSetSingle(j);
      PageSetSingle(pre[m]);
      assert pre == pre[..m] + [pre[m]];
      PageSetConcat(pre[..m], [pre[m]]);
      PageSetSingle(mid[0]);
      assert mid == [mid[0]] + mid[1..];
      PageSetConcat([mid[0]], mid[1..]);
      PageSetConcat(pre[..m], [j]);
      PageSetConcat(pre[..m] + [j], mid[1..]);
    }
  }

  /** Inserting adds exactly the pages of the new range. */
  lemma InsertPages(runs: seq<Run>, n: Run)
    ensures PageSet(Insert(runs, n)) == PageSet(runs) + PagesOf(n)
    ensures PageCount(Insert(runs, n)) == PageCount(runs) + n.count
  {
    hide Span, PagesOf, PageSet, PageCount, MergePrev, MergeNext, Position;
    var k := Position(runs, n.first);
    assert runs == runs[..k] + runs[k..];
    PageSetConcat(runs[..k], runs[k..]);
    MergeNextPages(n, runs[k..]);
    MergePrevPages(runs[..k], MergeNext(n, runs[k..]));
  }

  /** A range that is disjoint from the list ends before the next range and starts after the previous. */
  lemma Neighbours(runs: seq<Run>, n: Run, i: nat)
    requires Canonical(runs) && n.count > 0 && PageSet(runs) !! PagesOf(n) && i < |runs|
    ensures i < Position(runs, n.first) ==> runs[i].End() <= n.first
    ensures i >= Position(runs, n.first) ==> n.End() <= runs[i].first
  {
    hide Span, PageSet, Position;
    var k := Position(runs, n.first);
    assert n.first in PagesOf(n);
    if i < k && n.first < runs[i].End() {
      Member(runs, i, n.first);
    }
    if i >= k && runs[i].first < n.End() {
      assert k < i ==> runs[k].End() < runs[i].first;
      Member(runs, i, runs[i].first);
    }
  }

  lemma MergeNextCanonical(n: Run, rest: seq<Run>)
    requires Canonical(rest) && n.count > 0 && (rest != [] ==> n.End() <= rest[0].first)
    ensures Canonical(MergeNext(n, rest)) && MergeNext(n, rest)[0].first == n.first
  {
    var r := MergeNext(n, rest);
    forall i, j | 0 <= i < j < |r| ensures r[i].End() < r[j].first {
      assert i > 0 && n.End() == rest[0].first ==> rest[i].End() < rest[j].first;
    }
  }

  lemma MergePrevCanonical(pre: seq<Run>, mid: seq<Run>)
    requires Canonical(pre) && Canonical(mid) && mid != []
    requires pre != [] ==> pre[|pre| - 1].End() <= mid[0].first
    ensures Canonical(MergePrev(pre, mid))
  {
    hide Canonical;
    var m := |pre| - 1;
    if pre != [] && pre[m].End() == mid[0].first {
      var j := Run(pre[m].first, pre[m].count + mid[0].count);
      PartsCanonical(pre, m);
      PartsCanonical(mid, 0);
      assert [j][0] == j;
      ConcatCanonical(pre[..m], [j]);
      var front := pre[..m] + [j];
      assert front[|front| - 1] == j;
      ConcatCanonical(front, mid[1..]);
    } else {
      ConcatCanonical(pre, mid);
    }
  }

  /** What lies on either side of range `m`. */
  lemma PartsCanonical(runs: seq<Run>, m: nat)
    requires Canonical(runs) && m < |runs|
    ensures runs[m].count > 0 && Canonical(runs[..m]) && Canonical(runs[m + 1..])
    ensures m > 0 ==> runs[..m][m - 1].End() < runs[m].first
    ensures m + 1 < |runs| ==> runs[m].End() < runs[m + 1..][0].first
    ensures forall j: Run :: j.count > 0 ==> Canonical([j])
  {
  }

  /** Two canonical lists with a gap between them. */
  lemma ConcatCanonical(a: seq<Run>, b: seq<Run>)
    requires Canonical(a) && Canonical(b) && (a != [] && b != [] ==> a[|a| - 1].End() < b[0].first)
    ensures Canonical(a + b)
  {
    var r := a + b;
    forall i, j | 0 <= i < j < |r| ensures r[i].End() < r[j].first {
      if i < |a| <= j {
        assert i < |a| - 1 ==> a[i].End() < a[|a| - 1].first;
        assert |a| < j ==> b[0].End() < b[j - |a|].first;
      }
    }
  }

  /** Inserting a disjoint range keeps the list canonical. */
  lemma InsertCanonical(runs: seq<Run>, n: Run)
    requires Canonical(runs) && n.count > 0 && PageSet(runs) !! PagesOf(n)
    ensures Canonical(Insert(runs, n))
  {
    hide Span, PageSet, Position, PagesOf, MergeNext, MergePrev;
    var k := Position(runs, n.first);
    if k < |runs| { Neighbours(runs, n, k); }
    if k > 0 { Neighbours(runs, n, k - 1); }
    MergeNextCanonical(n, runs[k..]);
    MergePrevCanonical(runs[..k], MergeNext(n, runs[k..]));
  }

  // ----- first fit -----

  /** The first range with room for `k` pages. */
  function FirstFit(runs: seq<Run>, k: nat): (i: nat)
    ensures i <= |runs| && (i < |runs| ==> runs[i].count >= k)
    ensures forall j :: 0 <= j < i ==> runs[j].count < k
  {
    if runs == [] || runs[0].count >= k then 0
    else
      assert forall i :: 0 < i < |runs| ==> runs[i] == runs[1..][i - 1];
      1 + FirstFit(runs[1..], k)
  }

  /** The list after `k` pages are carved off the end of range `i`. */
  function Take(runs: seq<Run>, i: nat, k: nat): seq<Run>
    requires i < |runs| && k <= runs[i].count
  {
    if k < runs[i].count then runs[i := Run(runs[i].first, runs[i].count - k)]
    else runs[..i] + runs[i + 1..]
  }

  lemma TakeCanonical(runs: seq<Run>, i: nat, k: nat)
    requires Canonical(runs) && i < |runs| && 0 < k <= runs[i].count
    ensures Canonical(Take(runs, i, k))
  {
  }

  lemma PageTaken(runs: seq<Run>, i: nat, k: nat, p: nat)
    requires Canonical(runs) && i < |runs| && 0 < k <= runs[i].count
    ensures p in PageSet(Take(runs, i, k)) <==> p in PageSet(runs) && p !in Span(runs[i].End() - k, k)
  {
    hide PageSet;
    var t := Take(runs, i, k);
    if p in PageSet(t) {
      var j := Locate(t, p);
      Member(runs, if k < runs[i].count || j < i then j else j + 1, p);
    }
    if p in PageSet(runs) && p !in Span(runs[i].End() - k, k) {
      var j := Locate(runs, p);
      Member(t, if k < runs[i].count || j < i then j else j - 1, p);
    }
  }

  lemma TakePages(runs: seq<Run>, i: nat, k: nat)
    requires Canonical(runs) && i < |runs| && 0 < k <= runs[i].count
    ensures PageSet(Take(runs, i, k)) == PageSet(runs) - Span(runs[i].End() - k, k)
    ensures Span(runs[i].End() - k, k) <= PageSet(runs)
    ensures PageCount(Take(runs, i, k)) == PageCount(runs) - k
  {
    hide Span, PageSet, PageCount;
    var t, cut := Take(runs, i, k), Span(runs[i].End() - k, k);
    TakeCanonical(runs, i, k);
    forall p | p in cut ensures p in PageSet(runs) { Member(runs, i, p); }
    forall p ensures p in PageSet(t) <==> p in PageSet(runs) && p !in cut {
      PageTaken(runs, i, k, p);
    }
    hide Take, Canonical;
    PageSetCard(runs);
    PageSetCard(t);
    assert PageSet(runs) == PageSet(t) + cut;
  }

  /** First fit fails exactly when no `k` consecutive pages are free. */
  lemma FirstFitComplete(runs: seq<Run>, k: nat)
    requires Canonical(runs) && k > 0
    ensures FirstFit(runs, k) < |runs| <==> exists p: nat :: Span(p, k) <= PageSet(runs)
  {
    hide Span, PageSet, Take;
    var i := FirstFit(runs, k);
    if i < |runs| {
      TakePages(runs, i, k);
    }
    forall p: nat | Span(p, k) <= PageSet(runs) ensures i < |runs| {
      var j := RunOfFreePages(runs, p, k);
    }
  }

  // ----- orders of freeing -----

  function InsertAll(runs: seq<Run>, ns: seq<Run>): seq<Run> {
    if ns == [] then runs else Insert(InsertAll(runs, ns[..|ns| - 1]), ns[|ns| - 1])
  }

  /** Ranges disjoint from the list and from each other. */
  ghost predicate Separate(runs: seq<Run>, ns: seq<Run>) {
    && (forall i :: 0 <= i < |ns| ==> ns[i].count > 0 && PageSet(runs) !! PagesOf(ns[i]))
    && (forall i, j :: 0 <= i < j < |ns| ==> PagesOf(ns[i]) !! PagesOf(ns[j]))
  }

  lemma {:induction false} InsertAllCanonical(runs: seq<Run>, ns: seq<Run>)
    requires Canonical(runs) && Separate(runs, ns)
    ensures Canonical(InsertAll(runs, ns))
    ensures forall p :: p in PageSet(InsertAll(runs, ns)) <==>
              p in PageSet(runs) || exists n :: n in ns && p in PagesOf(n)
  {
    hide Span, PageSet, Insert, Canonical;
    if ns != [] {
      var m := |ns| - 1;
      var rest, n := ns[..m], ns[m];
      assert ns == rest + [n];
      InsertAllCanonical(runs, rest);
      forall p | p in PagesOf(n) ensures p !in PageSet(InsertAll(runs, rest)) {
        assert forall i :: 0 <= i < m ==> PagesOf(ns[i]) !! PagesOf(ns[m]);
      }
      InsertCanonical(InsertAll(runs, rest), n);
      InsertPages(InsertAll(runs, rest), n);
    }
  }

  /** The order in which ranges are freed leaves no trace in the list. */
  lemma FreeOrderIrrelevant(runs: seq<Run>, ns: seq<Run>, ms: seq<Run>)
    requires Canonical(runs) && Separate(runs, ns) && Separate(runs, ms)
    requires multiset(ns) == multiset(ms)
    ensures InsertAll(runs, ns) == InsertAll(runs, ms)
  {
    hide Span, PageSet, Insert, Canonical, PagesOf, InsertAll, Separate;
    InsertAllCanonical(runs, ns);
    InsertAllCanonical(runs, ms);
    assert forall n :: n in ns <==> n in multiset(ns);
    assert forall n :: n in ms <==> n in multiset(ms);
    assert PageSet(InsertAll(runs, ns)) == PageSet(InsertAll(runs, ms));
    CanonicalUnique(InsertAll(runs, ns), InsertAll(runs, ms));
  }

  /** Freeing what first fit took restores the very same list. */
  lemma TakeInsert(runs: seq<Run>, i: nat, k: nat)
    requires Canonical(runs) && i < |runs| && 0 < k <= runs[i].count
    ensures Insert(Take(runs, i, k), Run(runs[i].End() - k, k)) == runs
  {
    hide Span, PageSet, Insert, Take, Canonical;
    var n := Run(runs[i].End() - k, k);
    TakeCanonical(runs, i, k);
    TakePages(runs, i, k);
    InsertCanonical(Take(runs, i, k), n);
    InsertPages(Take(runs, i, k), n);
    CanonicalUnique(Insert(Take(runs, i, k), n), runs);
  }
}
