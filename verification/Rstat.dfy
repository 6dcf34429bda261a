/**
 Resource statistics (rstat.c): every CPU counts a cgroup's own use, and a flush moves
 what has changed since the last one into the cgroup's total and its parent's pending
 amount. Amounts are u64 and wrap around.
*/
module Rstat {
  import opened CgroupTree
  import opened Hierarchy
  import opened UpdatedTree

  const U64 := 0x1_0000_0000_0000_0000

  type u64 = x: int | 0 <= x < U64

  /** Unsigned 64-bit addition and subtraction. */
  function Plus(a: u64, b: u64): (r: u64)
    ensures r == (a + b) % U64
  {
    if a + b < U64 then a + b else a + b - U64
  }

  function Minus(a: u64, b: u64): (r: u64)
    ensures r == (a - b) % U64
  {
    if a < b then a - b + U64 else a - b
  }

  datatype Cputime = Cputime(utime: u64, stime: u64, sumExec: u64)

  const ZERO := Cputime(0, 0, 0)

  function Add(a: Cputime, b: Cputime): Cputime {
    Cputime(Plus(a.utime, b.utime), Plus(a.stime, b.stime), Plus(a.sumExec, b.sumExec))
  }

  function Sub(a: Cputime, b: Cputime): Cputime {
    Cputime(Minus(a.utime, b.utime), Minus(a.stime, b.stime), Minus(a.sumExec, b.sumExec))
  }

  lemma AddLaws(a: Cputime, b: Cputime, c: Cputime)
    ensures Add(a, b) == Add(b, a)
    ensures Add(Add(a, b), c) == Add(a, Add(b, c))
    ensures Add(a, ZERO) == a
    ensures Add(b, Sub(a, b)) == a
  {
    PlusLaws(a.utime, b.utime, c.utime);
    PlusLaws(a.stime, b.stime, c.stime);
    PlusLaws(a.sumExec, b.sumExec, c.sumExec);
  }

  lemma PlusLaws(a: u64, b: u64, c: u64)
    ensures Plus(a, b) == Plus(b, a)
    ensures Plus(Plus(a, b), c) == Plus(a, Plus(b, c))
    ensures Plus(a, 0) == a
    ensures Plus(b, Minus(a, b)) == a
  {}

  // ---------------------------------------------------------------------------
  // Sums
  // ---------------------------------------------------------------------------

  /** The sum over CPUs of one cgroup's per-CPU amounts. */
  ghost function Column(rows: seq<seq<Cputime>>, d: Node): Cputime
    requires forall c | 0 <= c < |rows| :: d < |rows[c]|
  {
    if rows == [] then ZERO else Add(rows[0][d], Column(rows[1..], d))
  }

  /** The sum of v over the children of p below n. */
  ghost function KidSum(parent: seq<Node>, v: seq<Cputime>, p: Node, n: nat): Cputime
    requires n <= |parent| == |v|
  {
    if n <= 1 then ZERO
    else if parent[n - 1] == p then Add(KidSum(parent, v, p, n - 1), v[n - 1])
    else KidSum(parent, v, p, n - 1)
  }

  /** The sum over the subtree of d, below n, and over all CPUs. */
  ghost function SubtreeSum(parent: seq<Node>, rows: seq<seq<Cputime>>, d: Node, n: nat): Cputime
    requires IsTree(parent) && n <= |parent| && forall c | 0 <= c < |rows| :: |rows[c]| == |parent|
  {
    if n == 0 then ZERO
    else if Under(parent, d, n - 1) then Add(SubtreeSum(parent, rows, d, n - 1), Column(rows, n - 1))
    else SubtreeSum(parent, rows, d, n - 1)
  }

  ghost predicate Rectangular(rows: seq<seq<Cputime>>, n: nat) {
    forall c | 0 <= c < |rows| :: |rows[c]| == n
  }

  /** The sum over the children c of p below m of SubtreeSum(c). */
  ghost function KidSubtrees(parent: seq<Node>, rows: seq<seq<Cputime>>, p: Node, m: nat, n: nat): Cputime
    requires IsTree(parent) && m <= |parent| && n <= |parent| && Rectangular(rows, |parent|)
    decreases m
  {
    if m <= 1 then ZERO
    else if parent[m - 1] == p then Add(KidSubtrees(parent, rows, p, m - 1, n), SubtreeSum(parent, rows, m - 1, n))
    else KidSubtrees(parent, rows, p, m - 1, n)
  }

  /** Node n lies under a child of p below m. */
  ghost predicate UnderKid(parent: seq<Node>, p: Node, m: nat, n: Node)
    requires IsTree(parent) && m <= |parent| && n < |parent|
    decreases m
  {
    m > 1 && ((parent[m - 1] == p && Under(parent, m - 1, n)) || UnderKid(parent, p, m - 1, n))
  }

  lemma {:induction false} OneKid(parent: seq<Node>, p: Node, c: Node, m: nat, n: Node)
    requires IsTree(parent) && m <= |parent| && n < |parent|
    requires m <= c < |parent| && 0 < c && parent[c] == p && Under(parent, c, n)
    ensures !UnderKid(parent, p, m, n)
    decreases m
  {
    if m > 1 {
      OneKid(parent, p, c, m - 1, n);
      if parent[m - 1] == p && Under(parent, m - 1, n) {
        TwoKids(parent, p, m - 1, c, n);
      }
    }
  }

  lemma {:induction false} TwoKids(parent: seq<Node>, p: Node, b: Node, c: Node, n: Node)
    requires IsTree(parent) && n < |parent| && 0 < b < c < |parent| && parent[b] == p && parent[c] == p
    requires Under(parent, c, n)
    ensures !Under(parent, b, n)
    decreases n
  {
    if n == c {
      if Under(parent, b, p) { UnderAbove(parent, b, p); }
    } else {
      TwoKids(parent, p, b, c, parent[n]);
      UnderAbove(parent, c, n);
    }
  }

  lemma {:induction false} KidStep(parent: seq<Node>, rows: seq<seq<Cputime>>, p: Node, m: nat, n: Node)
    requires IsTree(parent) && m <= |parent| && n < |parent| && Rectangular(rows, |parent|)
    ensures KidSubtrees(parent, rows, p, m, n + 1) ==
      if UnderKid(parent, p, m, n) then Add(KidSubtrees(parent, rows, p, m, n), Column(rows, n))
      else KidSubtrees(parent, rows, p, m, n)
    decreases m
  {
    if m > 1 {
      KidStep(parent, rows, p, m - 1, n);
      if parent[m - 1] == p && Under(parent, m - 1, n) {
        OneKid(parent, p, m - 1, m - 1, n);
        AddLaws(KidSubtrees(parent, rows, p, m - 1, n), SubtreeSum(parent, rows, m - 1, n), Column(rows, n));
      } else if parent[m - 1] == p {
        var a, b, x := KidSubtrees(parent, rows, p, m - 1, n), SubtreeSum(parent, rows, m - 1, n), Column(rows, n);
        AddLaws(a, x, b);
        AddLaws(x, b, a);
        AddLaws(a, b, x);
      }
    }
  }

  /** Below d lie d itself and the subtrees of its children. */
  lemma {:induction false} UnderSplits(parent: seq<Node>, d: Node, n: Node)
    requires IsTree(parent) && d < |parent| && n < |parent|
    ensures Under(parent, d, n) <==> n == d || UnderKid(parent, d, |parent|, n)
    ensures !UnderKid(parent, d, |parent|, d)
    decreases n
  {
    NotUnderOwnKid(parent, d, |parent|);
    if n != d {
      if Under(parent, d, n) {
        if parent[n] == d {
          KidFound(parent, d, |parent|, n, n);
        } else {
          UnderSplits(parent, d, parent[n]);
          KidDown(parent, d, |parent|, n);
        }
      } else if UnderKid(parent, d, |parent|, n) {
        KidUnder(parent, d, |parent|, n);
      }
    }
  }

  lemma {:induction false} NotUnderOwnKid(parent: seq<Node>, d: Node, m: nat)
    requires IsTree(parent) && d < |parent| && m <= |parent|
    ensures !UnderKid(parent, d, m, d)
    decreases m
  {
    if m > 1 { NotUnderOwnKid(parent, d, m - 1); }
  }

  lemma {:induction false} KidFound(parent: seq<Node>, d: Node, m: nat, c: Node, n: Node)
    requires IsTree(parent) && m <= |parent| && 0 < c < m && n < |parent| && parent[c] == d && Under(parent, c, n)
    ensures UnderKid(parent, d, m, n)
    decreases m
  {
    if c != m - 1 { KidFound(parent, d, m - 1, c, n); }
  }

  lemma {:induction false} KidDown(parent: seq<Node>, d: Node, m: nat, n: Node)
    requires IsTree(parent) && m <= |parent| && 0 < n < |parent| && UnderKid(parent, d, m, parent[n])
    ensures UnderKid(parent, d, m, n)
    decreases m
  {
    if parent[m - 1] == d && Under(parent, m - 1, parent[n]) {
      UnderAbove(parent, m - 1, parent[n]);
    } else {
      KidDown(parent, d, m - 1, n);
    }
  }

  lemma {:induction false} KidUnder(parent: seq<Node>, d: Node, m: nat, n: Node)
    requires IsTree(parent) && m <= |parent| && n < |parent| && UnderKid(parent, d, m, n)
    ensures Under(parent, d, n)
    decreases m
  {
    if parent[m - 1] == d && Under(parent, m - 1, n) {
      UnderStep(parent, m - 1, n);
    } else {
      KidUnder(parent, d, m - 1, n);
    }
  }

  /** A subtree's sum is its root's own amounts and its children's subtree sums. */
  lemma {:induction false} SubtreeSplits(parent: seq<Node>, rows: seq<seq<Cputime>>, d: Node, n: nat)
    requires IsTree(parent) && d < |parent| && n <= |parent| && Rectangular(rows, |parent|)
    ensures SubtreeSum(parent, rows, d, n) ==
      Add(if d < n then Column(rows, d) else ZERO, KidSubtrees(parent, rows, d, |parent|, n))
    decreases n
  {
    if n == 0 {
      NoKidSubtrees(parent, rows, d, |parent|);
    } else {
      SubtreeSplits(parent, rows, d, n - 1);
      KidStep(parent, rows, d, |parent|, n - 1);
      UnderSplits(parent, d, n - 1);
      var k, x := KidSubtrees(parent, rows, d, |parent|, n - 1), Column(rows, n - 1);
      AddLaws(ZERO, k, x);
      AddLaws(k, ZERO, x);
      AddLaws(x, k, ZERO);
      AddLaws(if d < n - 1 then Column(rows, d) else ZERO, k, x);
    }
  }

  lemma {:induction false} NoKidSubtrees(parent: seq<Node>, rows: seq<seq<Cputime>>, d: Node, m: nat)
    requires IsTree(parent) && m <= |parent| && Rectangular(rows, |parent|)
    ensures KidSubtrees(parent, rows, d, m, 0) == ZERO
    decreases m
  {
    if m > 1 { NoKidSubtrees(parent, rows, d, m - 1); AddLaws(ZERO, ZERO, ZERO); }
  }

  // ---------------------------------------------------------------------------
  // One cgroup flushed on one CPU
  // ---------------------------------------------------------------------------

  /**
   Of every cgroup: on each CPU what it has used and what of it was flushed last
   (bstat and last_bstat of struct cgroup_rstat_cpu), its total and its pending amount
   (bstat and pending_bstat of struct cgroup).
  */
  datatype Stats = Stats(used: seq<seq<Cputime>>, last: seq<seq<Cputime>>, bstat: seq<Cputime>, pending: seq<Cputime>)

  ghost predicate Sized(parent: seq<Node>, s: Stats) {
    && IsTree(parent) && |s.used| == |s.last| && Rectangular(s.used, |parent|) && Rectangular(s.last, |parent|)
    && |s.bstat| == |s.pending| == |parent|
  }

  /** Total and pending together are what was flushed on the CPUs and the children's totals. */
  ghost predicate BalancedAt(parent: seq<Node>, s: Stats, d: Node)
    requires Sized(parent, s) && d < |parent|
  {
    Add(s.bstat[d], s.pending[d]) == Add(Column(s.last, d), KidSum(parent, s.bstat, d, |parent|))
  }

  /** cgroup_base_stat_flush. */
  ghost function FlushOne(parent: seq<Node>, s: Stats, n: Node, c: nat): Stats
    requires Sized(parent, s) && n < |parent| && c < |s.used|
  {
    var delta := Add(Sub(s.used[c][n], s.last[c][n]), s.pending[n]);
    Stats(s.used, s.last[c := s.last[c][n := s.used[c][n]]], s.bstat[n := Add(s.bstat[n], delta)],
          var cleared := s.pending[n := ZERO];
          if n == 0 then cleared else cleared[parent[n] := Add(cleared[parent[n]], delta)])
  }

  lemma {:induction false} ColumnUpdate(rows: seq<seq<Cputime>>, c: nat, n: Node, x: Cputime, size: nat, d: Node)
    requires Rectangular(rows, size) && c < |rows| && n < size && d < size
    ensures var rows' := rows[c := rows[c][n := x]];
      && Rectangular(rows', size)
      && Column(rows', d) == if d == n then Add(Column(rows, d), Sub(x, rows[c][n])) else Column(rows, d)
  {
    var rows' := rows[c := rows[c][n := x]];
    if c == 0 {
      assert rows'[1..] == rows[1..];
      if d == n {
        var a, r := rows[0][n], Column(rows[1..], d);
        AddLaws(x, a, r);
        AddLaws(a, r, Sub(x, a));
        AddLaws(r, Sub(x, a), a);
        AddLaws(a, Sub(x, a), r);
      }
    } else {
      ColumnUpdate(rows[1..], c - 1, n, x, size, d);
      assert rows'[1..] == rows[1..][c - 1 := rows[1..][c - 1][n := x]];
      if d == n {
        AddLaws(rows[0][d], Column(rows[1..], d), Sub(x, rows[c][n]));
      }
    }
  }

  lemma {:induction false} KidSumUpdate(parent: seq<Node>, v: seq<Cputime>, n: Node, x: Cputime, p: Node, m: nat)
    requires 0 < n < |parent| == |v| && m <= |parent|
    ensures KidSum(parent, v[n := Add(v[n], x)], p, m) ==
      if n < m && parent[n] == p then Add(KidSum(parent, v, p, m), x) else KidSum(parent, v, p, m)
    decreases m
  {
    if m > 1 {
      KidSumUpdate(parent, v, n, x, p, m - 1);
      var k := KidSum(parent, v, p, m - 1);
      AddLaws(k, v[m - 1], x);
      AddLaws(k, x, v[m - 1]);
      AddLaws(x, v[m - 1], k);
    }
  }

  lemma FlushBalances(parent: seq<Node>, s: Stats, n: Node, c: nat, d: Node)
    requires Sized(parent, s) && 0 < n < |parent| && c < |s.used| && d < |parent| && BalancedAt(parent, s, d)
    ensures Sized(parent, FlushOne(parent, s, n, c)) && BalancedAt(parent, FlushOne(parent, s, n, c), d)
  {
    var own := Sub(s.used[c][n], s.last[c][n]);
    var delta := Add(own, s.pending[n]);
    ColumnUpdate(s.last, c, n, s.used[c][n], |parent|, d);
    KidSumUpdate(parent, s.bstat, n, delta, d, |parent|);
    var b, p, l, k := s.bstat[d], s.pending[d], Column(s.last, d), KidSum(parent, s.bstat, d, |parent|);
    if d == n {
      // (b + (own + p)) + 0 == (l + own) + k, from b + p == l + k
      AddLaws(own, p, b);
      AddLaws(b, p, own);
      AddLaws(l, k, own);
      AddLaws(l, own, k);
      AddLaws(own, k, l);
      AddLaws(Add(b, delta), ZERO, ZERO);
    } else if d == parent[n] {
      AddLaws(b, p, delta);
      AddLaws(l, k, delta);
    }
  }

  // ---------------------------------------------------------------------------
  // The updated trees cover everything that is not yet flushed
  // ---------------------------------------------------------------------------

  ghost predicate CoversUsed(t: Tree, used: seq<Cputime>, last: seq<Cputime>, d: Node)
    requires t.Shaped() && |t.parent| == |used| == |last| && d < |used|
  {
    0 < d && used[d] != last[d] ==> t.Linked(d)
  }

  ghost predicate LinkedSomewhere(ts: seq<Tree>, d: Node) {
    exists c {:trigger ts[c]} :: 0 <= c < |ts| && ts[c].Shaped() && ts[c].Has(d) && ts[c].Linked(d)
  }

  ghost predicate CoversPending(ts: seq<Tree>, pending: seq<Cputime>, d: Node)
    requires d < |pending|
  {
    0 < d && pending[d] != ZERO ==> LinkedSomewhere(ts, d)
  }

  ghost predicate Trees(parent: seq<Node>, ts: seq<Tree>) {
    forall c {:trigger ts[c]} | 0 <= c < |ts| :: ts[c].parent == parent && ts[c].Shaped() && Closed(ts[c], 0)
  }

  ghost predicate Inv(parent: seq<Node>, ts: seq<Tree>, s: Stats) {
    && Sized(parent, s) && Trees(parent, ts) && |ts| == |s.used|
    && (forall d {:trigger BalancedAt(parent, s, d)} | 0 <= d < |parent| :: BalancedAt(parent, s, d))
    && (forall c, d {:trigger CoversUsed(ts[c], s.used[c], s.last[c], d)} | 0 <= c < |ts| && 0 <= d < |parent| ::
          CoversUsed(ts[c], s.used[c], s.last[c], d))
    && (forall d {:trigger CoversPending(ts, s.pending, d)} | 0 <= d < |parent| :: CoversPending(ts, s.pending, d))
  }

  /** Unlinking n on CPU c and flushing it there keeps the invariant. */
  lemma FlushKeeps(parent: seq<Node>, ts: seq<Tree>, s: Stats, n: Node, c: nat)
    requires Inv(parent, ts, s) && c < |ts| && n < |parent| && ts[c].Linked(n) && ts[c].kids[n] == []
    ensures Inv(parent, ts[c := Unlink(ts[c], n)], FlushOne(parent, s, n, c))
  {
    var t, t' := ts[c], Unlink(ts[c], n);
    var ts', s' := ts[c := t'], FlushOne(parent, s, n, c);
    UnlinkShaped(t, n);
    UnlinkClosed(t, n);
    forall d | 0 <= d < |parent| ensures BalancedAt(parent, s', d) {
      assert BalancedAt(parent, s, d);
      FlushBalances(parent, s, n, c, d);
    }
    forall b, d | 0 <= b < |ts| && 0 <= d < |parent| ensures CoversUsed(ts'[b], s'.used[b], s'.last[b], d) {
      assert CoversUsed(ts[b], s.used[b], s.last[b], d);
    }
    forall d | 0 <= d < |parent| ensures CoversPending(ts', s'.pending, d) {
      PendingKept(parent, ts, s, n, c, d);
    }
  }

  lemma PendingKept(parent: seq<Node>, ts: seq<Tree>, s: Stats, n: Node, c: nat, d: Node)
    requires Inv(parent, ts, s) && c < |ts| && n < |parent| && ts[c].Linked(n) && ts[c].kids[n] == [] && d < |parent|
    ensures CoversPending(ts[c := Unlink(ts[c], n)], FlushOne(parent, s, n, c).pending, d)
  {
    var t := ts[c];
    var ts' := ts[c := Unlink(t, n)];
    UnlinkShaped(t, n);
    if d == parent[n] && 0 < d {
      assert ClosedAt(t, d, 0);
      assert ts'[c].Linked(d);
    } else if d != n {
      assert CoversPending(ts, s.pending, d);
      if 0 < d && s.pending[d] != ZERO {
        var b :| 0 <= b < |ts| && ts[b].Shaped() && ts[b].Has(d) && ts[b].Linked(d);
        assert ts'[b].Linked(d);
      }
    }
  }

  /** A member somewhere below a in the hierarchy is below a in the updated tree. */
  lemma {:induction false} LinkedBelow(t: Tree, a: Node, d: Node)
    requires t.Shaped() && Closed(t, 0) && IsTree(t.parent) && t.Has(d) && 0 < d
    requires t.Linked(d) && Under(t.parent, a, d)
    ensures t.Below(a, d)
    decreases d
  {
    if d != a && t.parent[d] != a {
      var p := t.parent[d];
      UnderAbove(t.parent, a, p);
      assert ClosedAt(t, p, 0);
      LinkedBelow(t, a, p);
    }
  }

  /** Nothing left to flush on any CPU at d or below. */
  ghost predicate Flushed(parent: seq<Node>, ts: seq<Tree>, a: Node)
    requires IsTree(parent) && Trees(parent, ts)
  {
    forall c, d {:trigger ts[c].Linked(d)} | 0 <= c < |ts| && 0 < d < |parent| && Under(parent, a, d) :: !ts[c].Linked(d)
  }

  lemma {:induction false} SameColumns(a: seq<seq<Cputime>>, b: seq<seq<Cputime>>, size: nat, d: Node)
    requires |a| == |b| && Rectangular(a, size) && Rectangular(b, size) && d < size
    requires forall c {:trigger a[c]} | 0 <= c < |a| :: a[c][d] == b[c][d]
    ensures Column(a, d) == Column(b, d)
  {
    if a != [] { SameColumns(a[1..], b[1..], size, d); }
  }

  lemma {:induction false} KidSumIsSubtrees(parent: seq<Node>, s: Stats, d: Node, m: nat)
    requires Sized(parent, s) && d < |parent| && m <= |parent|
    requires forall k {:trigger s.bstat[k]} | 0 < k < |parent| && parent[k] == d :: s.bstat[k] == SubtreeSum(parent, s.used, k, |parent|)
    ensures KidSum(parent, s.bstat, d, m) == KidSubtrees(parent, s.used, d, m, |parent|)
    decreases m
  {
    if m > 1 { KidSumIsSubtrees(parent, s, d, m - 1); }
  }

  /** Once nothing below a is on an updated tree, totals below a are the sums over whole subtrees. */
  lemma {:induction false} FlushedIsSummed(parent: seq<Node>, ts: seq<Tree>, s: Stats, a: Node, d: Node)
    requires Inv(parent, ts, s) && Flushed(parent, ts, a) && 0 < d < |parent| && Under(parent, a, d)
    ensures s.bstat[d] == SubtreeSum(parent, s.used, d, |parent|)
    decreases |parent| - d
  {
    forall k | 0 < k < |parent| && parent[k] == d ensures s.bstat[k] == SubtreeSum(parent, s.used, k, |parent|) {
      UnderAbove(parent, a, d);
      FlushedIsSummed(parent, ts, s, a, k);
    }
    assert BalancedAt(parent, s, d) && CoversPending(ts, s.pending, d);
    forall c | 0 <= c < |ts| ensures !ts[c].Linked(d) && s.last[c][d] == s.used[c][d] {
      assert CoversUsed(ts[c], s.used[c], s.last[c], d);
    }
    assert s.pending[d] == ZERO;
    AddLaws(s.bstat[d], ZERO, ZERO);
    SameColumns(s.last, s.used, |parent|, d);
    KidSumIsSubtrees(parent, s, d, |parent|);
    SubtreeSplits(parent, s.used, d, |parent|);
  }

  // ---------------------------------------------------------------------------
  // Accounting
  // ---------------------------------------------------------------------------

  ghost function AccountOne(s: Stats, n: Node, c: nat, x: Cputime): Stats
    requires c < |s.used| && n < |s.used[c]|
  {
    s.(used := s.used[c := s.used[c][n := x]])
  }

  /** Changing what a cgroup has used on a CPU, and adding its path there, keeps the invariant. */
  lemma AccountKeeps(parent: seq<Node>, ts: seq<Tree>, s: Stats, n: Node, c: nat, x: Cputime, t': Tree)
    requires Inv(parent, ts, s) && c < |ts| && n < |parent| && t' == AddPath(ts[c], n)
    requires t'.Shaped() && Closed(t', 0)
    ensures Inv(parent, ts[c := t'], AccountOne(s, n, c, x))
  {
    var ts', s' := ts[c := t'], AccountOne(s, n, c, x);
    forall d | 0 <= d < |parent| ensures BalancedAt(parent, s', d) && t'.parent == parent && (ts[c].Linked(d) ==> t'.Linked(d)) {
      assert BalancedAt(parent, s, d);
      AddPathLinks(ts[c], n, d);
    }
    AddPathLinks(ts[c], n, n);
    forall b, d | 0 <= b < |ts| && 0 <= d < |parent| ensures CoversUsed(ts'[b], s'.used[b], s'.last[b], d) {
      assert CoversUsed(ts[b], s.used[b], s.last[b], d);
    }
    forall d | 0 <= d < |parent| ensures CoversPending(ts', s'.pending, d) {
      assert CoversPending(ts, s.pending, d);
      if 0 < d && s.pending[d] != ZERO {
        var b :| 0 <= b < |ts| && ts[b].Shaped() && ts[b].Has(d) && ts[b].Linked(d);
        assert ts'[b].Linked(d);
      }
    }
  }

  /** The members of t' are those of t without gone. */
  ghost predicate LinkedBut(t: Tree, t': Tree, gone: seq<Node>) {
    t.Shaped() && t'.Shaped() && t'.parent == t.parent && forall d | t.Has(d) :: t'.Linked(d) <==> t.Linked(d) && d !in gone
  }

  lemma LinkedButUnlink(t: Tree, t': Tree, gone: seq<Node>, n: Node)
    requires LinkedBut(t, t', gone) && t'.Has(n) && t'.Linked(n)
    ensures LinkedBut(t, Unlink(t', n), gone + [n])
  {
    UnlinkShaped(t', n);
  }

  /** What a traversal of root that has just returned pos still has to flush, pos included. */
  ghost function ToFlush(t: Tree, root: Node, pos: Option<Node>): seq<Node>
    requires t.Shaped() && t.Has(root)
  {
    match pos
    case None => []
    case Some(q) => [q] + if q == root then [] else Traversal(t, root)
  }

  /** A traversal of t under way: popped was flushed and pos is about to be. */
  ghost predicate Round(t: Tree, t': Tree, root: Node, pos: Option<Node>, popped: seq<Node>)
    requires t.Shaped() && t.Has(root)
  {
    && LinkedBut(t, t', popped + if pos.Some? then [pos.value] else [])
    && popped + ToFlush(t', root, pos) == Traversal(t, root)
  }

  /** The tree after a pop. */
  ghost function AfterPop(t: Tree, r: Option<Node>): Tree
    requires t.Shaped() && (r.Some? ==> t.Has(r.value) && t.Linked(r.value))
  {
    if r.Some? then Unlink(t, r.value) else t
  }

  lemma RoundStarts(t: Tree, root: Node)
    requires t.Shaped() && t.Has(root)
    ensures var r := Popped(t, root); Round(t, AfterPop(t, r), root, r, [])
  {
    var r := Popped(t, root);
    PoppedIsNext(t, root);
    assert LinkedBut(t, t, []);
    if r.Some? { LinkedButUnlink(t, t, [], r.value); }
  }

  lemma RoundAdvances(t: Tree, t': Tree, root: Node, q: Node, popped: seq<Node>)
    requires t.Shaped() && t.Has(root) && t'.Shaped() && t'.Has(root)
    requires Round(t, t', root, Some(q), popped)
    ensures var r := if q == root then None else Popped(t', root);
      Round(t, AfterPop(t', r), root, r, popped + [q]) && |popped| < |Traversal(t, root)|
  {
    var r := if q == root then None else Popped(t', root);
    var rest := if q == root then [] else Traversal(t', root);
    assert popped + ToFlush(t', root, Some(q)) == (popped + [q]) + rest;
    PoppedIsNext(t', root);
    if r.Some? {
      LinkedButUnlink(t, t', popped + [q], r.value);
    }
  }

  ghost predicate SameElsewhere(ts: seq<Tree>, ts': seq<Tree>, cpu: nat) {
    |ts'| == |ts| && forall c | 0 <= c < |ts| && c != cpu :: ts'[c] == ts[c]
  }

  lemma StillElsewhere(ts: seq<Tree>, ts': seq<Tree>, cpu: nat, x: Tree)
    requires cpu < |ts| && SameElsewhere(ts, ts', cpu)
    ensures SameElsewhere(ts, ts'[cpu := x], cpu) && |ts'| == |ts|
  {}

  lemma RoundEnds(t: Tree, t': Tree, root: Node, popped: seq<Node>)
    requires t.Shaped() && t.Has(root) && Round(t, t', root, None, popped)
    ensures popped == Traversal(t, root) && LinkedBut(t, t', popped)
  {
    assert popped + [] == popped;
  }

  /** enum cpu_usage_stat; Other stands for the indices the accounting ignores. */
  datatype CpuUsage = User | Nice | System | Irq | SoftIrq | Other

  class Rstat {
    const parent: seq<Node>
    /** updated_next and updated_children, one object per possible CPU. */
    const lists: seq<UpdatedLists>
    var used: seq<seq<Cputime>>
    var last: seq<seq<Cputime>>
    var bstat: seq<Cputime>
    var pending: seq<Cputime>
    /** The updated tree of each CPU. */
    ghost var ts: seq<Tree>

    ghost function S(): Stats
      reads this
    {
      Stats(used, last, bstat, pending)
    }

    ghost predicate Valid()
      reads this, lists
    {
      && Inv(parent, ts, S())
      && |lists| == |ts|
      && (forall b, c | 0 <= b < c < |lists| :: lists[b] != lists[c])
      && (forall c {:trigger lists[c]} | 0 <= c < |lists| ::
            lists[c].Valid() && lists[c].parent == parent && lists[c].kids == ts[c].kids)
    }

    constructor (parent: seq<Node>, lists: seq<UpdatedLists>)
      requires IsTree(parent)
      requires forall b, c | 0 <= b < c < |lists| :: lists[b] != lists[c]
      requires forall c {:trigger lists[c]} | 0 <= c < |lists| ::
        lists[c].Valid() && lists[c].parent == parent && lists[c].kids == seq(|parent|, p => [])
      ensures Valid() && this.parent == parent && this.lists == lists
    {
      this.parent, this.lists := parent, lists;
      var zeros := seq(|parent|, n => ZERO);
      used, last := seq(|lists|, c => zeros), seq(|lists|, c => zeros);
      bstat, pending := zeros, zeros;
      var empty := Tree(parent, seq(|parent|, p => []));
      ts := seq(|lists|, c => empty);
      new;
      forall d | 0 <= d < |parent| ensures BalancedAt(parent, S(), d) {
        ZeroColumn(last, |parent|, d);
        ZeroKids(parent, bstat, d, |parent|);
      }
      assert forall c {:trigger ts[c]} | 0 <= c < |ts| :: ts[c] == lists[c].T();
    }

    /** The common tail of the accounting functions: the new amount, then cgroup_rstat_updated. */
    method Account(cgrp: Node, cpu: nat, x: Cputime)
      requires Valid() && cgrp < |parent| && cpu < |lists|
      modifies this`used, this`ts, lists[cpu]
      ensures Valid()
      ensures used == old(used)[cpu := old(used[cpu])[cgrp := x]]
      ensures ts == old(ts)[cpu := AddPath(old(ts[cpu]), cgrp)]
    {
      assert lists[cpu].T() == ts[cpu];
      lists[cpu].Updated(cgrp);
      AccountKeeps(parent, ts, S(), cgrp, cpu, x, lists[cpu].T());
      used := used[cpu := used[cpu][cgrp := x]];
      ts := ts[cpu := lists[cpu].T()];
    }

    /** __cgroup_account_cputime. */
    method AccountCputime(cgrp: Node, cpu: nat, delta: u64)
      requires Valid() && cgrp < |parent| && cpu < |lists|
      modifies this`used, this`ts, lists[cpu]
      ensures Valid()
      ensures used == old(used)[cpu := old(used[cpu])[cgrp := Add(old(used[cpu][cgrp]), Cputime(0, 0, delta))]]
    {
      var x := used[cpu][cgrp];
      Account(cgrp, cpu, x.(sumExec := Plus(x.sumExec, delta)));
    }

    /** __cgroup_account_cputime_field. */
    method AccountCputimeField(cgrp: Node, cpu: nat, index: CpuUsage, delta: u64)
      requires Valid() && cgrp < |parent| && cpu < |lists|
      modifies this`used, this`ts, lists[cpu]
      ensures Valid()
      ensures used == old(used)[cpu := old(used[cpu])[cgrp := Add(old(used[cpu][cgrp]),
        Cputime(if index.User? || index.Nice? then delta else 0,
                if index.System? || index.Irq? || index.SoftIrq? then delta else 0, 0))]]
    {
      var x := used[cpu][cgrp];
      match index {
        case User => x := x.(utime := Plus(x.utime, delta));
        case Nice => x := x.(utime := Plus(x.utime, delta));
        case System => x := x.(stime := Plus(x.stime, delta));
        case Irq => x := x.(stime := Plus(x.stime, delta));
        case SoftIrq => x := x.(stime := Plus(x.stime, delta));
        case Other =>
      }
      Account(cgrp, cpu, x);
    }

    /** cgroup_base_stat_flush. */
    method BaseStatFlush(cgrp: Node, cpu: nat)
      requires Sized(parent, S()) && cgrp < |parent| && cpu < |used|
      modifies this`last, this`bstat, this`pending
      ensures S() == FlushOne(parent, old(S()), cgrp, cpu)
    {
      var cputime := used[cpu][cgrp];
      // the delta to propagate
      var delta := Sub(cputime, last[cpu][cgrp]);
      last := last[cpu := last[cpu][cgrp := cputime]];
      // the pending stat goes into it
      delta := Add(delta, pending[cgrp]);
      pending := pending[cgrp := ZERO];
      // into the total and the parent's pending stat
      bstat := bstat[cgrp := Add(bstat[cgrp], delta)];
      if cgrp != 0 {
        pending := pending[parent[cgrp] := Add(pending[parent[cgrp]], delta)];
      }
    }

    /** One round of the flush loop: the next cgroup of the traversal is taken off its list and flushed. */
    method FlushNext(pos: Option<Node>, cgrp: Node, cpu: nat) returns (r: Option<Node>)
      requires Valid() && cgrp < |parent| && cpu < |lists| && Resumable(ts[cpu], cgrp, pos)
      modifies this`last, this`bstat, this`pending, this`ts, lists[cpu]
      ensures Valid()
      ensures r == if pos == Some(cgrp) then None else Popped(old(ts[cpu]), cgrp)
      ensures ts == old(ts)[cpu := AfterPop(old(ts[cpu]), r)]
      ensures r.None? ==> S() == old(S())
      ensures r.Some? ==> Resumable(ts[cpu], cgrp, r) && S() == FlushOne(parent, old(S()), r.value, cpu)
    {
      assert lists[cpu].T() == ts[cpu];
      r := lists[cpu].PopUpdated(pos, cgrp);
      if r.Some? {
        FlushKeeps(parent, ts, S(), r.value, cpu);
        BaseStatFlush(r.value, cpu);
        ts := ts[cpu := lists[cpu].T()];
      }
    }

    /**
     The pass of cgroup_rstat_flush_locked over one CPU. It flushes the members of the
     subtree, each once and children first, and leaves none on the updated tree.
    */
    method FlushCpu(cgrp: Node, cpu: nat) returns (ghost popped: seq<Node>)
      requires Valid() && cgrp < |parent| && cpu < |lists|
      modifies this`last, this`bstat, this`pending, this`ts, lists[cpu]
      ensures Valid()
      ensures popped == Traversal(old(ts[cpu]), cgrp)
      ensures SameElsewhere(old(ts), ts, cpu)
      ensures LinkedBut(old(ts[cpu]), ts[cpu], popped)
    {
      assert SameElsewhere(ts, ts, cpu);
      hide Popped, Traversal, Round, SameElsewhere;
      popped := [];
      ghost var t := ts[cpu];
      label start:
      var pos := FlushNext(None, cgrp, cpu);
      RoundStarts(t, cgrp);
      StillElsewhere(old@start(ts), old@start(ts), cpu, ts[cpu]);
      while pos.Some?
        invariant Valid() && SameElsewhere(old@start(ts), ts, cpu)
        invariant pos.Some? ==> Resumable(ts[cpu], cgrp, pos)
        invariant Round(t, ts[cpu], cgrp, pos, popped)
        decreases |Traversal(t, cgrp)| - |popped|
      {
        ghost var r := if pos.value == cgrp then None else Popped(ts[cpu], cgrp);
        RoundAdvances(t, ts[cpu], cgrp, pos.value, popped);
        popped := popped + [pos.value];
        ghost var ts0 := ts;
        pos := FlushNext(pos, cgrp, cpu);
        StillElsewhere(old@start(ts), ts0, cpu, ts[cpu]);
        assert pos == r;
      }
      RoundEnds(t, ts[cpu], cgrp, popped);
    }

    /**
     cgroup_rstat_flush. Afterwards the total of every non-root cgroup in the subtree is
     the sum of what its whole subtree has used on all CPUs.
    */
    method Flush(cgrp: Node)
      requires Valid() && cgrp < |parent|
      modifies this`last, this`bstat, this`pending, this`ts, lists
      ensures Valid()
      ensures forall d | 0 < d < |parent| && Under(parent, cgrp, d) :: bstat[d] == SubtreeSum(parent, used, d, |parent|)
      ensures Flushed(parent, ts, cgrp)
    {
      for cpu := 0 to |lists|
        invariant Valid()
        invariant forall c, d {:trigger ts[c].Linked(d)} | 0 <= c < cpu && 0 < d < |parent| && Under(parent, cgrp, d) :: !ts[c].Linked(d)
      {
        ghost var before := ts;
        ghost var popped := FlushCpu(cgrp, cpu);
        TraversalEnumerates(before[cpu], cgrp);
        forall d | 0 < d < |parent| && Under(parent, cgrp, d) ensures !ts[cpu].Linked(d) {
          if before[cpu].Linked(d) {
            LinkedBelow(before[cpu], cgrp, d);
          }
        }
      }
      forall d | 0 < d < |parent| && Under(parent, cgrp, d) ensures bstat[d] == SubtreeSum(parent, used, d, |parent|) {
        FlushedIsSummed(parent, ts, S(), cgrp, d);
      }
    }
  }

  lemma {:induction false} ZeroColumn(rows: seq<seq<Cputime>>, size: nat, d: Node)
    requires Rectangular(rows, size) && d < size
    requires forall c {:trigger rows[c]} | 0 <= c < |rows| :: rows[c][d] == ZERO
    ensures Column(rows, d) == ZERO
  {
    if rows != [] { ZeroColumn(rows[1..], size, d); AddLaws(ZERO, ZERO, ZERO); }
  }

  lemma {:induction false} ZeroKids(parent: seq<Node>, v: seq<Cputime>, p: Node, n: nat)
    requires n <= |parent| == |v| && forall k {:trigger v[k]} | 0 <= k < |v| :: v[k] == ZERO
    ensures KidSum(parent, v, p, n) == ZERO
  {
    if n > 1 { ZeroKids(parent, v, p, n - 1); AddLaws(ZERO, ZERO, ZERO); }
  }
}
