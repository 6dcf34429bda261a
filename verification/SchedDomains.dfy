/**
 generate_sched_domains (cpuset.c): the load-balanced cpusets are collected by a pruned
 walk, merged into classes while any two classes overlap, and each class becomes one
 scheduler domain.
*/
module SchedDomains {
  import opened CgroupTree

  type Cpu = nat

  // ---------------------------------------------------------------------------
  // Connected by overlap
  // ---------------------------------------------------------------------------

  /** cpusets_overlap. */
  predicate Overlap(eff: seq<set<Cpu>>, i: nat, j: nat) {
    i < |eff| && j < |eff| && eff[i] * eff[j] != {}
  }

  ghost predicate IsPath(eff: seq<set<Cpu>>, p: seq<nat>) {
    && 0 < |p|
    && (forall k {:trigger p[k]} | 0 <= k < |p| :: p[k] < |eff|)
    && (forall k, l {:trigger p[k], p[l]} | 0 <= k < |p| && 0 <= l < |p| && l == k + 1 :: Overlap(eff, p[k], p[l]))
  }

  ghost predicate PathBetween(eff: seq<set<Cpu>>, p: seq<nat>, i: nat, j: nat) {
    IsPath(eff, p) && p[0] == i && p[|p| - 1] == j
  }

  /** A chain of overlapping cpusets leads from i to j. */
  ghost predicate Connected(eff: seq<set<Cpu>>, i: nat, j: nat) {
    exists p :: PathBetween(eff, p, i, j)
  }

  lemma ConnectedSelf(eff: seq<set<Cpu>>, i: nat)
    requires i < |eff|
    ensures Connected(eff, i, i)
  {
    assert PathBetween(eff, [i], i, i);
  }

  lemma OverlapConnects(eff: seq<set<Cpu>>, i: nat, j: nat)
    requires Overlap(eff, i, j)
    ensures Connected(eff, i, j)
  {
    assert PathBetween(eff, [i, j], i, j);
  }

  lemma ConnectedTrans(eff: seq<set<Cpu>>, i: nat, j: nat, k: nat)
    requires Connected(eff, i, j) && Connected(eff, j, k)
    ensures Connected(eff, i, k)
  {
    var p :| PathBetween(eff, p, i, j);
    var q :| PathBetween(eff, q, j, k);
    var r := p + q[1..];
    assert forall a | 0 <= a < |r| :: r[a] == if a < |p| then p[a] else q[a - |p| + 1];
    assert PathBetween(eff, r, i, k);
  }

  lemma ConnectedSym(eff: seq<set<Cpu>>, i: nat, j: nat)
    requires Connected(eff, i, j)
    ensures Connected(eff, j, i)
  {
    var p :| PathBetween(eff, p, i, j);
    var r := seq(|p|, a requires 0 <= a < |p| => p[|p| - 1 - a]);
    forall a, b | 0 <= a < |r| && 0 <= b < |r| && b == a + 1 ensures Overlap(eff, r[a], r[b]) {
      assert Overlap(eff, p[|p| - 1 - b], p[|p| - 1 - a]);
      assert eff[r[a]] * eff[r[b]] == eff[r[b]] * eff[r[a]];
    }
    assert PathBetween(eff, r, j, i);
  }

  // ---------------------------------------------------------------------------
  // Classes
  // ---------------------------------------------------------------------------

  /** Members of a class are connected. */
  ghost predicate Sound(eff: seq<set<Cpu>>, pn: seq<int>) {
    |pn| == |eff| && forall i, j {:trigger pn[i], pn[j]} | 0 <= i < |pn| && 0 <= j < |pn| && pn[i] == pn[j] :: Connected(eff, i, j)
  }

  /** Overlapping cpusets are in one class. */
  ghost predicate Merged(eff: seq<set<Cpu>>, pn: seq<int>) {
    |pn| == |eff| && forall i, j {:trigger Overlap(eff, i, j)} | 0 <= i < |pn| && 0 <= j < |pn| && Overlap(eff, i, j) :: pn[i] == pn[j]
  }

  /** The classes are the connected components. */
  ghost predicate Components(eff: seq<set<Cpu>>, pn: seq<int>) {
    |pn| == |eff| && forall i, j {:trigger pn[i], pn[j]} | 0 <= i < |pn| && 0 <= j < |pn| :: pn[i] == pn[j] <==> Connected(eff, i, j)
  }

  lemma {:induction false} PathInClass(eff: seq<set<Cpu>>, pn: seq<int>, p: seq<nat>)
    requires Merged(eff, pn) && IsPath(eff, p)
    ensures pn[p[0]] == pn[p[|p| - 1]]
    decreases |p|
  {
    if |p| > 1 {
      var q := p[..|p| - 1];
      assert forall k | 0 <= k < |q| :: q[k] == p[k];
      PathInClass(eff, pn, q);
      assert Overlap(eff, p[|p| - 2], p[|p| - 1]);
    }
  }

  lemma MergedIsComponents(eff: seq<set<Cpu>>, pn: seq<int>)
    requires Sound(eff, pn) && Merged(eff, pn)
    ensures Components(eff, pn)
  {
    forall i, j | 0 <= i < |pn| && 0 <= j < |pn| && Connected(eff, i, j) ensures pn[i] == pn[j] {
      var p :| PathBetween(eff, p, i, j);
      PathInClass(eff, pn, p);
    }
  }

  ghost function Relabel(pn: seq<int>, from: int, to: int): seq<int> {
    seq(|pn|, k requires 0 <= k < |pn| => if pn[k] == from then to else pn[k])
  }

  /** Joining the classes of two overlapping cpusets. */
  lemma MergeIsSound(eff: seq<set<Cpu>>, pn: seq<int>, a: nat, b: nat)
    requires Sound(eff, pn) && a < |pn| && b < |pn| && Overlap(eff, a, b)
    ensures Sound(eff, Relabel(pn, pn[b], pn[a]))
  {
    var pn' := Relabel(pn, pn[b], pn[a]);
    forall i, j | 0 <= i < |pn| && 0 <= j < |pn| && pn'[i] == pn'[j] ensures Connected(eff, i, j) {
      if pn[i] != pn[j] {
        OverlapConnects(eff, a, b);
        ConnectedSym(eff, a, b);
        if pn[i] == pn[b] {
          ConnectedTrans(eff, i, b, a);
          ConnectedTrans(eff, i, a, j);
        } else {
          ConnectedTrans(eff, i, a, b);
          ConnectedTrans(eff, i, b, j);
        }
      }
    }
  }

  ghost function Values(pn: seq<int>): set<int> {
    set k | 0 <= k < |pn| :: pn[k]
  }

  /** The joined class is one less. */
  lemma MergeDropsOne(pn: seq<int>, a: nat, b: nat)
    requires a < |pn| && b < |pn| && pn[a] != pn[b]
    ensures |Values(Relabel(pn, pn[b], pn[a]))| == |Values(pn)| - 1
  {
    var pn' := Relabel(pn, pn[b], pn[a]);
    forall v ensures v in Values(pn') <==> v in Values(pn) - {pn[b]} {
      if v in Values(pn) - {pn[b]} {
        var k :| 0 <= k < |pn| && pn[k] == v;
        assert pn'[k] == v;
      }
      assert v == pn[a] ==> pn'[a] == v;
    }
    assert Values(pn') == Values(pn) - {pn[b]};
  }

  /**
   The restart loop: any two overlapping cpusets in different classes cause a merge and a
   new scan; it ends because every merge leaves one class less.
  */
  method MergeOverlaps(eff: seq<set<Cpu>>, pn: array<int>) returns (ndoms: nat)
    requires pn.Length == |eff|
    modifies pn
    ensures Components(eff, pn[..])
    ensures ndoms == |Values(pn[..])|
    ensures forall i | 0 <= i < pn.Length :: 0 <= pn[i]
  {
    var csn := |eff|;
    for i := 0 to csn
      invariant forall k | 0 <= k < i :: pn[k] == k
    {
      pn[i] := i;
    }
    ndoms := csn;
    InitialClasses(eff, pn[..]);
    var found, a: nat, b: nat := FindOverlap(eff, pn);
    while found
      invariant Sound(eff, pn[..]) && ndoms == |Values(pn[..])|
      invariant forall i | 0 <= i < pn.Length :: 0 <= pn[i]
      invariant if found then a < csn && b < csn && pn[a] != pn[b] && Overlap(eff, a, b) else Merged(eff, pn[..])
      decreases ndoms, found
    {
      var apn, bpn := pn[a], pn[b];
      MergeIsSound(eff, pn[..], a, b);
      MergeDropsOne(pn[..], a, b);
      RelabelClass(pn, bpn, apn);
      ndoms := ndoms - 1;  // one less element
      found, a, b := FindOverlap(eff, pn);
    }
    MergedIsComponents(eff, pn[..]);
  }

  lemma InitialClasses(eff: seq<set<Cpu>>, pn: seq<int>)
    requires |pn| == |eff| && forall k | 0 <= k < |pn| :: pn[k] == k
    ensures Sound(eff, pn) && |Values(pn)| == |pn|
  {
    forall i, j | 0 <= i < |pn| && 0 <= j < |pn| && pn[i] == pn[j] ensures Connected(eff, i, j) {
      ConnectedSelf(eff, i);
    }
    IdentityValues(pn);
  }

  lemma {:induction false} IdentityValues(pn: seq<int>)
    requires forall k | 0 <= k < |pn| :: pn[k] == k
    ensures |Values(pn)| == |pn|
  {
    if pn != [] {
      var n := |pn| - 1;
      IdentityValues(pn[..n]);
      ValuesSnoc(pn[..n], pn[n]);
      assert pn == pn[..n] + [pn[n]];
      assert pn[n] !in Values(pn[..n]);
    }
  }

  lemma ValuesSnoc(pn: seq<int>, v: int)
    ensures Values(pn + [v]) == Values(pn) + {v}
  {
    var q := pn + [v];
    assert q[|pn|] == v;
    forall w | w in Values(pn) ensures w in Values(q) {
      var k :| 0 <= k < |pn| && pn[k] == w;
      assert q[k] == w;
    }
  }

  /** The scan over all pairs (i, j) for an overlap across classes. */
  method FindOverlap(eff: seq<set<Cpu>>, pn: array<int>) returns (found: bool, a: nat, b: nat)
    requires pn.Length == |eff|
    ensures if found then a < |eff| && b < |eff| && pn[a] != pn[b] && Overlap(eff, a, b) else Merged(eff, pn[..])
  {
    for i := 0 to |eff|
      invariant forall k, l | 0 <= k < i && 0 <= l < |eff| && Overlap(eff, k, l) :: pn[k] == pn[l]
    {
      var apn := pn[i];
      for j := 0 to |eff|
        invariant forall l | 0 <= l < j && Overlap(eff, i, l) :: apn == pn[l]
      {
        var bpn := pn[j];
        if apn != bpn && Overlap(eff, i, j) {
          return true, i, j;
        }
      }
    }
    return false, 0, 0;
  }

  /** The loop over k. */
  method RelabelClass(pn: array<int>, bpn: int, apn: int)
    modifies pn
    ensures pn[..] == Relabel(old(pn[..]), bpn, apn)
  {
    for k := 0 to pn.Length
      invariant forall l | 0 <= l < k :: pn[l] == if old(pn[l]) == bpn then apn else old(pn[l])
      invariant forall l | k <= l < pn.Length :: pn[l] == old(pn[l])
    {
      if pn[k] == bpn {
        pn[k] := apn;
      }
    }
  }

  // ---------------------------------------------------------------------------
  // Domains
  // ---------------------------------------------------------------------------

  /** The effective CPUs of the members of class v at or after index lo and below hi. */
  ghost function ClassCpus(eff: seq<set<Cpu>>, pn: seq<int>, v: int, lo: nat, hi: nat): set<Cpu>
    requires lo <= hi <= |eff| == |pn|
  {
    set k, c | lo <= k < hi && c in eff[k] && pn[k] == v :: c
  }

  /** Slot s holds the housekeeping CPUs of the class led by index lead[s]. */
  ghost predicate Filled(eff: seq<set<Cpu>>, hk: set<Cpu>, pn: seq<int>, doms: seq<set<Cpu>>, lead: seq<nat>) {
    && |pn| == |eff| && |lead| <= |doms|
    && (forall s {:trigger lead[s]} | 0 <= s < |lead| ::
          lead[s] < |pn| && doms[s] == ClassCpus(eff, pn, pn[lead[s]], 0, |pn|) * hk)
    && (forall r, s {:trigger lead[r], lead[s]} | 0 <= r < s < |lead| :: pn[lead[r]] != pn[lead[s]])
  }

  ghost function LeadValues(pn: seq<int>, lead: seq<nat>): set<int> {
    set s {:trigger lead[s]} | 0 <= s < |lead| && lead[s] < |pn| :: pn[lead[s]]
  }

  /** The class of index k was completed before index i. */
  ghost predicate Completed(pn: seq<int>, i: nat, k: nat)
    requires i <= |pn| && k < |pn|
  {
    pn[k] in Values(pn[..i])
  }

  /** Classes completed before i are marked by -1. */
  ghost predicate Marks(pn0: seq<int>, pn: seq<int>, i: nat)
    requires i <= |pn0| == |pn|
  {
    forall k {:trigger pn[k]} | 0 <= k < |pn| :: pn[k] == if Completed(pn0, i, k) then -1 else pn0[k]
  }

  lemma PrefixValues(pn: seq<int>, i: nat)
    requires i < |pn|
    ensures Values(pn[..i + 1]) == Values(pn[..i]) + {pn[i]}
    ensures |Values(pn[..i + 1])| == |Values(pn[..i])| + if pn[i] in Values(pn[..i]) then 0 else 1
    ensures pn[i] !in Values(pn[..i]) ==> |Values(pn[..i])| < |Values(pn)|
  {
    assert pn[..i + 1] == pn[..i] + [pn[i]];
    ValuesSnoc(pn[..i], pn[i]);
    forall w | w in Values(pn[..i]) + {pn[i]} ensures w in Values(pn) {
      if w != pn[i] {
        var k :| 0 <= k < i && pn[..i][k] == w;
        assert pn[k] == w;
      }
    }
    if pn[i] in Values(pn[..i]) { assert Values(pn[..i]) + {pn[i]} == Values(pn[..i]); }
    var a, b := Values(pn[..i]) + {pn[i]}, Values(pn);
    assert a <= b && b == a + (b - a);
  }

  /** The loop over j: the members of one class, from its first on, go into one domain. */
  method FillDomain(eff: seq<set<Cpu>>, hk: set<Cpu>, pn: array<int>, i: nat, ghost pn0: seq<int>) returns (dp: set<Cpu>)
    requires pn.Length == |eff| == |pn0| && i < pn.Length && Marks(pn0, pn[..], i)
    requires forall k | 0 <= k < |pn0| :: 0 <= pn0[k]
    requires !Completed(pn0, i, i)
    modifies pn
    ensures Marks(pn0, pn[..], i + 1)
    ensures dp == ClassCpus(eff, pn0, pn0[i], 0, |pn0|) * hk
  {
    var apn := pn[i];
    dp := {};
    ghost var done := Values(pn0[..i]);
    assert ClassCpus(eff, pn0, apn, i, i) == {};
    for j := i to pn.Length
      invariant forall k | 0 <= k < pn.Length :: pn[k] == if pn0[k] in done || (k < j && pn0[k] == apn) then -1 else pn0[k]
      invariant dp == ClassCpus(eff, pn0, apn, i, j) * hk
    {
      NextMember(eff, hk, pn0, apn, i, j);
      if apn == pn[j] {
        dp := dp + eff[j];
        dp := dp * hk;
        // done with this partition
        pn[j] := -1;
      }
    }
    PrefixValues(pn0, i);
    WholeClass(eff, pn0, i);
  }

  lemma NextMember(eff: seq<set<Cpu>>, hk: set<Cpu>, pn: seq<int>, v: int, lo: nat, j: nat)
    requires lo <= j < |eff| == |pn|
    ensures ClassCpus(eff, pn, v, lo, j + 1) * hk ==
      if pn[j] == v then (ClassCpus(eff, pn, v, lo, j) * hk + eff[j]) * hk else ClassCpus(eff, pn, v, lo, j) * hk
  {
    var a, b := ClassCpus(eff, pn, v, lo, j), ClassCpus(eff, pn, v, lo, j + 1);
    assert b == a + if pn[j] == v then eff[j] else {};
  }

  /** No member of the class comes before its first index. */
  lemma WholeClass(eff: seq<set<Cpu>>, pn: seq<int>, i: nat)
    requires |eff| == |pn| && i < |pn| && !Completed(pn, i, i)
    ensures ClassCpus(eff, pn, pn[i], i, |pn|) == ClassCpus(eff, pn, pn[i], 0, |pn|)
  {
    forall k | 0 <= k < i ensures pn[k] != pn[i] {
      assert pn[..i][k] in Values(pn[..i]);
    }
  }

  /**
   The conversion to domains: every class is met first at its lowest index, so exactly
   ndoms slots are filled and the check that nslot == ndoms cannot fail.
  */
  method FillDomains(eff: seq<set<Cpu>>, hk: set<Cpu>, pn: array<int>, ndoms: nat) returns (doms: array<set<Cpu>>, ghost lead: seq<nat>)
    requires pn.Length == |eff| && ndoms == |Values(pn[..])| && forall k | 0 <= k < pn.Length :: 0 <= pn[k]
    modifies pn
    ensures fresh(doms) && doms.Length == ndoms == |lead|
    ensures Filled(eff, hk, old(pn[..]), doms[..], lead)
    ensures Values(old(pn[..])) == LeadValues(old(pn[..]), lead)
  {
    ghost var pn0 := pn[..];
    doms := new set<Cpu>[ndoms](_ => {});
    var nslot := 0;
    lead := [];
    assert pn0[..0] == [];
    for i := 0 to pn.Length
      invariant Marks(pn0, pn[..], i)
      invariant nslot == |lead| && Filling(eff, hk, pn0, doms[..], lead, i)
    {
      var apn := pn[i];
      if apn < 0 {
        // skip completed partitions
        FillSkips(eff, hk, pn0, doms[..], lead, i);
        continue;
      }
      var dp := FillDomain(eff, hk, pn, i, pn0);
      FillAdds(eff, hk, pn0, doms[..], lead, i);
      doms[nslot] := dp;
      lead := lead + [i];
      nslot := nslot + 1;
    }
    assert pn0[..|pn0|] == pn0;
    // BUG_ON(nslot != ndoms)
    assert nslot == ndoms;
    SlotsOf(pn0, lead);
  }

  /** The slots filled when the classes of the first i cpusets are done. */
  ghost predicate Filling(eff: seq<set<Cpu>>, hk: set<Cpu>, pn: seq<int>, doms: seq<set<Cpu>>, lead: seq<nat>, i: nat)
    requires i <= |pn|
  {
    && Filled(eff, hk, pn, doms, lead)
    && |lead| == |Values(pn[..i])| <= |doms|
    && (forall s {:trigger lead[s]} | 0 <= s < |lead| :: Completed(pn, i, lead[s]))
    && (forall v | v in Values(pn[..i]) :: exists s {:trigger lead[s]} :: 0 <= s < |lead| && pn[lead[s]] == v)
  }

  lemma FillSkips(eff: seq<set<Cpu>>, hk: set<Cpu>, pn: seq<int>, doms: seq<set<Cpu>>, lead: seq<nat>, i: nat)
    requires i < |pn| && Filling(eff, hk, pn, doms, lead, i) && Completed(pn, i, i)
    ensures Filling(eff, hk, pn, doms, lead, i + 1)
    ensures forall k | 0 <= k < |pn| :: Completed(pn, i + 1, k) <==> Completed(pn, i, k)
  {
    PrefixValues(pn, i);
    assert Values(pn[..i + 1]) == Values(pn[..i]);
  }

  lemma FillAdds(eff: seq<set<Cpu>>, hk: set<Cpu>, pn: seq<int>, doms: seq<set<Cpu>>, lead: seq<nat>, i: nat)
    requires |eff| == |pn| && i < |pn| && Filling(eff, hk, pn, doms, lead, i) && !Completed(pn, i, i) && |doms| == |Values(pn)|
    ensures |lead| < |doms|
    ensures Filling(eff, hk, pn, doms[|lead| := ClassCpus(eff, pn, pn[i], 0, |pn|) * hk], lead + [i], i + 1)
  {
    PrefixValues(pn, i);
    var n, d := |lead|, ClassCpus(eff, pn, pn[i], 0, |pn|) * hk;
    forall s | 0 <= s < n ensures pn[lead[s]] != pn[i] {
      assert Completed(pn, i, lead[s]);
    }
    FilledSnoc(eff, hk, pn, doms, lead, i);
    var lead' := lead + [i];
    assert lead'[n] == i && forall s | 0 <= s < n :: lead'[s] == lead[s];
    forall v {:trigger v in Values(pn[..i + 1])} | v in Values(pn[..i + 1])
      ensures exists s {:trigger lead'[s]} :: 0 <= s < |lead'| && pn[lead'[s]] == v
    {
      if v in Values(pn[..i]) {
        var s :| 0 <= s < n && pn[lead[s]] == v;
        assert lead'[s] == lead[s];
      }
    }
    forall s | 0 <= s < |lead'| ensures Completed(pn, i + 1, lead'[s]) {
      assert s < n ==> Completed(pn, i, lead[s]);
    }
  }

  lemma FilledSnoc(eff: seq<set<Cpu>>, hk: set<Cpu>, pn: seq<int>, doms: seq<set<Cpu>>, lead: seq<nat>, i: nat)
    requires |eff| == |pn| && i < |pn| && Filled(eff, hk, pn, doms, lead) && |lead| < |doms|
    requires forall s {:trigger lead[s]} | 0 <= s < |lead| :: pn[lead[s]] != pn[i]
    ensures Filled(eff, hk, pn, doms[|lead| := ClassCpus(eff, pn, pn[i], 0, |pn|) * hk], lead + [i])
  {
    var n, d := |lead|, ClassCpus(eff, pn, pn[i], 0, |pn|) * hk;
    var doms', lead' := doms[n := d], lead + [i];
    assert lead'[n] == i && doms'[n] == d;
    forall s | 0 <= s < n ensures lead'[s] == lead[s] && doms'[s] == doms[s] {}
  }

  lemma SlotsOf(pn: seq<int>, lead: seq<nat>)
    requires forall s {:trigger lead[s]} | 0 <= s < |lead| :: lead[s] < |pn|
    requires forall v | v in Values(pn) :: exists s {:trigger lead[s]} :: 0 <= s < |lead| && pn[lead[s]] == v
    ensures Values(pn) == LeadValues(pn, lead)
  {
    forall v | v in Values(pn) ensures v in LeadValues(pn, lead) {
      var s: nat :| s < |lead| && pn[lead[s]] == v;
      assert lead[s] < |pn|;
    }
  }

  /** No cpuset has CPUs both in x and outside. */
  ghost predicate Separates(eff: seq<set<Cpu>>, x: set<Cpu>) {
    forall i {:trigger eff[i]} | 0 <= i < |eff| :: eff[i] <= x || eff[i] !! x
  }

  lemma {:induction false} PathSeparated(eff: seq<set<Cpu>>, x: set<Cpu>, p: seq<nat>)
    requires Separates(eff, x) && IsPath(eff, p)
    ensures eff[p[0]] <= x ==> eff[p[|p| - 1]] <= x
    ensures eff[p[0]] !! x ==> eff[p[|p| - 1]] !! x
    decreases |p|
  {
    if |p| > 1 {
      var q := p[..|p| - 1];
      assert forall k | 0 <= k < |q| :: q[k] == p[k];
      PathSeparated(eff, x, q);
      var a, b := eff[p[|p| - 2]], eff[p[|p| - 1]];
      assert Overlap(eff, p[|p| - 2], p[|p| - 1]);
      var c :| c in a * b;
    }
  }

  /** A component is not cut by a set that cuts no cpuset. */
  lemma ComponentIsFinest(eff: seq<set<Cpu>>, hk: set<Cpu>, d: set<Cpu>, x: set<Cpu>)
    requires SomeComponent(eff, hk, d) && Separates(eff, x)
    ensures d <= x || d !! x
  {
    var i: nat :| IsComponent(eff, hk, i, d);
    forall c | c in d ensures c in x <==> eff[i] <= x {
      var k :| 0 <= k < |eff| && Connected(eff, i, k) && c in eff[k];
      var p :| PathBetween(eff, p, i, k);
      PathSeparated(eff, x, p);
    }
  }

  /** The domains are disjoint, cover every cpuset, cut nothing that the cpusets do not cut, and are the overlap components. */
  ghost predicate Partition(eff: seq<set<Cpu>>, hk: set<Cpu>, doms: seq<set<Cpu>>) {
    && (forall r, s | 0 <= r < s < |doms| :: doms[r] !! doms[s])
    && (forall x, s {:trigger Separates(eff, x), doms[s]} | Separates(eff, x) && 0 <= s < |doms| :: doms[s] <= x || doms[s] !! x)
    && (forall i {:trigger eff[i]} | 0 <= i < |eff| :: exists s :: 0 <= s < |doms| && eff[i] * hk <= doms[s])
    && (forall s {:trigger SomeComponent(eff, hk, doms[s])} | 0 <= s < |doms| :: SomeComponent(eff, hk, doms[s]))
  }

  /** d holds exactly the housekeeping CPUs of the cpusets connected to i. */
  ghost predicate IsComponent(eff: seq<set<Cpu>>, hk: set<Cpu>, i: nat, d: set<Cpu>) {
    i < |eff| && forall c :: c in d <==> c in hk && exists k {:trigger eff[k]} :: 0 <= k < |eff| && Connected(eff, i, k) && c in eff[k]
  }

  ghost predicate SomeComponent(eff: seq<set<Cpu>>, hk: set<Cpu>, d: set<Cpu>) {
    exists i: nat :: IsComponent(eff, hk, i, d)
  }

  lemma ClassIsComponent(eff: seq<set<Cpu>>, hk: set<Cpu>, pn: seq<int>, i: nat)
    requires Components(eff, pn) && i < |eff|
    ensures IsComponent(eff, hk, i, ClassCpus(eff, pn, pn[i], 0, |pn|) * hk)
  {
    var d := ClassCpus(eff, pn, pn[i], 0, |pn|) * hk;
    forall c ensures c in d <==> c in hk && exists k {:trigger eff[k]} :: 0 <= k < |eff| && Connected(eff, i, k) && c in eff[k] {
      if c in hk && exists k {:trigger eff[k]} :: 0 <= k < |eff| && Connected(eff, i, k) && c in eff[k] {
        var k :| 0 <= k < |eff| && Connected(eff, i, k) && c in eff[k];
        assert pn[i] == pn[k];
      }
      if c in d {
        var k :| 0 <= k < |eff| && c in eff[k] && pn[k] == pn[i];
        assert Connected(eff, i, k);
      }
    }
  }

  lemma DomainsDisjoint(eff: seq<set<Cpu>>, pn: seq<int>, i: nat, j: nat)
    requires Components(eff, pn) && i < |eff| && j < |eff| && pn[i] != pn[j]
    ensures ClassCpus(eff, pn, pn[i], 0, |pn|) !! ClassCpus(eff, pn, pn[j], 0, |pn|)
  {
    forall c | c in ClassCpus(eff, pn, pn[i], 0, |pn|) && c in ClassCpus(eff, pn, pn[j], 0, |pn|) ensures false {
      var k :| 0 <= k < |eff| && c in eff[k] && pn[k] == pn[i];
      var l :| 0 <= l < |eff| && c in eff[l] && pn[l] == pn[j];
      assert c in eff[k] * eff[l];
      OverlapConnects(eff, k, l);
    }
  }

  lemma FilledIsPartition(eff: seq<set<Cpu>>, hk: set<Cpu>, pn: seq<int>, doms: seq<set<Cpu>>, lead: seq<nat>)
    requires Components(eff, pn) && Filled(eff, hk, pn, doms, lead) && |lead| == |doms|
    requires Values(pn) == LeadValues(pn, lead)
    ensures Partition(eff, hk, doms)
  {
    forall r, s | 0 <= r < s < |doms| ensures doms[r] !! doms[s] {
      DomainsDisjoint(eff, pn, lead[r], lead[s]);
    }
    forall i | 0 <= i < |eff| ensures exists s :: 0 <= s < |doms| && eff[i] * hk <= doms[s] {
      assert pn[i] in Values(pn);
      var s :| 0 <= s < |lead| && lead[s] < |pn| && pn[lead[s]] == pn[i];
      assert eff[i] * hk <= doms[s];
    }
    forall s | 0 <= s < |doms| ensures SomeComponent(eff, hk, doms[s]) {
      ClassIsComponent(eff, hk, pn, lead[s]);
      assert IsComponent(eff, hk, lead[s], doms[s]);
    }
    forall x, s | Separates(eff, x) && 0 <= s < |doms| ensures doms[s] <= x || doms[s] !! x {
      ComponentIsFinest(eff, hk, doms[s], x);
    }
  }

  /** The part of generate_sched_domains after the collection. */
  method PartitionDomains(eff: seq<set<Cpu>>, hk: set<Cpu>) returns (doms: array<set<Cpu>>)
    ensures fresh(doms) && Partition(eff, hk, doms[..])
  {
    var pn := new int[|eff|];
    var ndoms := MergeOverlaps(eff, pn);
    ghost var classes := pn[..];
    ghost var lead;
    doms, lead := FillDomains(eff, hk, pn, ndoms);
    FilledIsPartition(eff, hk, classes, doms[..], lead);
  }

  // ---------------------------------------------------------------------------
  // Collecting the cpusets
  // ---------------------------------------------------------------------------

  datatype Cpuset = Cpuset(online: bool, cpusAllowed: set<Cpu>, effectiveCpus: set<Cpu>, loadBalance: bool, partitionRoot: bool)

  lemma Joined(a: seq<Node>, b: seq<Node>, x: Node)
    ensures x in a + b <==> x in a || x in b
  {}

  lemma Glue(x: seq<Node>, y: seq<Node>, z: seq<Node>, xy: seq<Node>, yz: seq<Node>)
    requires xy == x + y && yz == y + z
    ensures x + yz == xy + z
  {
    Assoc(x, y, z);
  }

  /** The system: the tree of cpusets, the top one being 0, and the housekeeping CPUs. */
  datatype System = System(t: Tree, cs: seq<Cpuset>, hk: set<Cpu>) {
    ghost predicate Valid() {
      t.Valid() && |cs| == |t.parent|
    }

    /** The walk goes on below n without looking at n itself. */
    predicate Passed(n: Node)
      requires n < |cs| && 0 < |cs|
    {
      || !cs[n].online
      || (cs[n].cpusAllowed != {} && !(cs[n].loadBalance && cs[n].cpusAllowed * hk != {}))
      || (cs[0].loadBalance && cs[n].cpusAllowed <= cs[0].effectiveCpus)
    }

    /** n is collected when the walk looks at it. */
    predicate Takes(n: Node)
      requires n < |cs| && 0 < |cs|
    {
      !Passed(n) && cs[n].loadBalance && cs[n].effectiveCpus != {}
    }

    /** The walk enters the subtree of n. */
    predicate Enters(n: Node)
      requires n < |cs| && 0 < |cs|
    {
      Passed(n) || cs[n].partitionRoot
    }

    /**
     The walk looks at n: it is online, has no configured CPUs or balances housekeeping
     CPUs, and a balancing top cpuset does not have all of them.
    */
    ghost predicate Looked(n: Node)
      requires n < |cs| && 0 < |cs|
    {
      var c := cs[n];
      && c.online
      && (c.cpusAllowed != {} ==> c.loadBalance && exists cpu :: cpu in hk && cpu in c.cpusAllowed)
      && (cs[0].loadBalance ==> exists cpu :: cpu in c.cpusAllowed && cpu !in cs[0].effectiveCpus)
    }

    /** Only partition roots are looked at on the way from the top to x. */
    ghost predicate OpenAbove(x: Node)
      requires Valid() && t.Has(x)
    {
      forall a: Node {:trigger t.Below(a, x)} | 0 < a < x && t.Below(a, x) :: Looked(a) ==> cs[a].partitionRoot
    }

    lemma EntersMeans(n: Node)
      requires n < |cs| && 0 < |cs|
      ensures Enters(n) <==> (Looked(n) ==> cs[n].partitionRoot)
      ensures Takes(n) <==> Looked(n) && cs[n].loadBalance && cs[n].effectiveCpus != {}
    {
      var c := cs[n];
      assert (exists cpu :: cpu in hk && cpu in c.cpusAllowed) <==> c.cpusAllowed * hk != {} by {
        if c.cpusAllowed * hk != {} { var cpu :| cpu in c.cpusAllowed * hk; }
        if cpu :| cpu in hk && cpu in c.cpusAllowed { assert cpu in c.cpusAllowed * hk; }
      }
      assert (exists cpu :: cpu in c.cpusAllowed && cpu !in cs[0].effectiveCpus) <==> !(c.cpusAllowed <= cs[0].effectiveCpus);
    }

    lemma {:induction false} ReachedMeans(c: Node, x: Node)
      requires Valid() && t.Has(c) && t.Has(x) && t.Linked(c) && t.parent[c] == 0 && t.Below(c, x)
      ensures Reached(c, x) <==> OpenAbove(x)
      decreases x
    {
      hide System.Looked, System.Passed, System.Enters;
      var p := t.parent[x];
      if x != c {
        BelowAbove(t, c, p);
        ReachedMeans(c, p);
        EntersMeans(p);
        assert t.Below(p, x);
        forall a: Node | 0 < a < x ensures t.Below(a, x) <==> a == p || (a < p && t.Below(a, p)) {
          if t.Below(a, x) { BelowAbove(t, a, p); }
        }
        assert OpenAbove(x) <==> OpenAbove(p) && (Looked(p) ==> cs[p].partitionRoot);
      } else {
        forall a: Node | 0 < a < x ensures !t.Below(a, x) {}
      }
    }

    /** Every node from a on, strictly above n, is entered. */
    ghost predicate Reached(a: Node, n: Node)
      requires Valid() && t.Has(n)
      decreases n
    {
      n == a || (a < n && Enters(t.parent[n]) && Reached(a, t.parent[n]))
    }

    /** The cpusets collected in the subtree of n, in pre-order. */
    ghost function Chosen(n: Node): seq<Node>
      requires Valid() && t.Has(n)
      decreases |t.parent| - n, |t.kids[n]| + 1
    {
      (if Takes(n) then [n] else []) + if Enters(n) then ChosenFrom(n, 0) else []
    }

    ghost function ChosenFrom(p: Node, i: nat): seq<Node>
      requires Valid() && t.Has(p) && i <= |t.kids[p]|
      decreases |t.parent| - p, |t.kids[p]| - i
    {
      if i == |t.kids[p]| then [] else Chosen(t.kids[p][i]) + ChosenFrom(p, i + 1)
    }

    /** The cpusets collected after the subtree of n. */
    ghost function ChosenAfter(n: Node): seq<Node>
      requires Valid() && t.Has(n) && t.Below(0, n)
      decreases n
    {
      if n == 0 then [] else ChosenFrom(t.parent[n], t.Index(n) + 1) + ChosenAfter(t.parent[n])
    }

    ghost function ChosenAt(pos: Option<Node>): seq<Node>
      requires Valid() && (pos.Some? ==> t.Has(pos.value) && t.Below(0, pos.value))
    {
      match pos
      case None => []
      case Some(n) => Chosen(n) + ChosenAfter(n)
    }

    lemma {:induction false} ChosenNext(n: Node)
      requires Valid() && t.Has(n) && t.Below(0, n)
      ensures var pos := Head(t.AfterPre(0, n));
        && (pos.Some? ==> 0 < pos.value && t.Has(pos.value) && t.Below(0, pos.value))
        && ChosenAt(pos) == ChosenAfter(n)
      decreases n
    {
      if n != 0 {
        var p, i := t.parent[n], t.Index(n) + 1;
        var later, after := t.PreFrom(p, i), t.AfterPre(0, p);
        assert t.AfterPre(0, n) == later + after && ChosenAfter(n) == ChosenFrom(p, i) + ChosenAfter(p);
        assert i == |t.kids[p]| ==> later == [] && ChosenFrom(p, i) == [];
        hide Tree.PreFrom, Tree.AfterPre, Tree.Shaped, System.ChosenFrom, System.ChosenAfter, System.Chosen, System.ChosenAt;
        if i < |t.kids[p]| {
          ChosenSibling(p, i);
        } else {
          ChosenNext(p);
          HeadAppend(later, after);
        }
      }
    }

    lemma ChosenSibling(p: Node, i: nat)
      requires Valid() && t.Has(p) && t.Below(0, p) && i < |t.kids[p]|
      ensures var pos := Head(t.PreFrom(p, i) + t.AfterPre(0, p));
        && pos.Some? && 0 < pos.value && t.Has(pos.value) && t.Below(0, pos.value)
        && ChosenAt(pos) == ChosenFrom(p, i) + ChosenAfter(p)
    {
      var c := t.kids[p][i];
      ChildPlace(p, i);
      ChosenAtChild(p, i, c);
      HeadsFrom(t, p, i);
      hide Tree.PreFrom, Tree.AfterPre, Tree.Shaped, System.ChosenFrom, System.ChosenAfter, System.ChosenAt;
      HeadAppend(t.PreFrom(p, i), t.AfterPre(0, p));
    }

    lemma ChosenAtChild(p: Node, i: nat, c: Node)
      requires Valid() && t.Has(p) && t.Below(0, p) && i < |t.kids[p]| && t.kids[p][i] == c
      requires 0 < c && t.Has(c) && t.Linked(c) && t.parent[c] == p && t.Below(0, c) && t.Index(c) == i
      ensures ChosenAt(Some(c)) == ChosenFrom(p, i) + ChosenAfter(p)
    {
      hide System.Chosen, System.ChosenFrom, System.ChosenAfter, Tree.Below, Tree.Index, Tree.Shaped, Tree.Valid;
      FromStep(p, i);
      AfterStep(c);
      Glue(Chosen(c), ChosenFrom(p, i + 1), ChosenAfter(p), ChosenFrom(p, i), ChosenAfter(c));
    }

    lemma ChildPlace(p: Node, i: nat)
      requires Valid() && t.Has(p) && t.Below(0, p) && i < |t.kids[p]|
      ensures var c := t.kids[p][i];
        0 < c && t.Has(c) && t.Linked(c) && t.parent[c] == p && t.Below(0, c) && t.Index(c) == i
    {
      var c := t.kids[p][i];
      assert Distinct(t.kids[p]) && t.parent[c] == p;
      assert t.Linked(c);
    }

    lemma FromStep(p: Node, i: nat)
      requires Valid() && t.Has(p) && i < |t.kids[p]|
      ensures ChosenFrom(p, i) == Chosen(t.kids[p][i]) + ChosenFrom(p, i + 1)
    {}

    lemma AfterStep(c: Node)
      requires Valid() && t.Has(c) && t.Below(0, c) && 0 < c
      ensures ChosenAfter(c) == ChosenFrom(t.parent[c], t.Index(c) + 1) + ChosenAfter(t.parent[c])
    {}

    /** The walk enters the subtree of n. */
    lemma ChosenEnter(n: Node)
      requires Valid() && t.Has(n) && t.Below(0, n)
      ensures var pos := Head(t.PreFrom(n, 0) + t.AfterPre(0, n));
        && (pos.Some? ==> 0 < pos.value && t.Has(pos.value) && t.Below(0, pos.value))
        && ChosenAt(pos) == ChosenFrom(n, 0) + ChosenAfter(n)
    {
      if t.kids[n] == [] {
        ChosenNext(n);
        assert t.PreFrom(n, 0) + t.AfterPre(0, n) == t.AfterPre(0, n);
      } else {
        ChosenSibling(n, 0);
      }
    }

    lemma {:induction false} ReachedExtends(c: Node, x: Node)
      requires Valid() && t.Has(c) && t.Has(x) && t.Linked(c) && t.Below(c, x) && Reached(c, x) && Enters(t.parent[c])
      ensures Reached(t.parent[c], x)
      decreases x
    {
      if x != c { ReachedExtends(c, t.parent[x]); }
    }

    lemma {:induction false} ReachedSplits(n: Node, x: Node) returns (i: nat)
      requires Valid() && t.Has(n) && t.Has(x) && x != n && t.Below(n, x) && Reached(n, x)
      ensures Enters(n) && i < |t.kids[n]| && t.Below(t.kids[n][i], x) && Reached(t.kids[n][i], x)
      decreases x
    {
      if t.parent[x] == n {
        i := t.Index(x);
      } else {
        i := ReachedSplits(n, t.parent[x]);
        BelowAbove(t, t.kids[n][i], t.parent[x]);
      }
    }

    /** x is collected in the subtree of n. */
    ghost predicate Collected(n: Node, x: Node)
      requires Valid() && t.Has(n) && t.Has(x)
    {
      t.Below(n, x) && Reached(n, x) && Takes(x)
    }

    lemma {:induction false} ChosenIs(n: Node, x: Node)
      requires Valid() && t.Has(n) && t.Has(x)
      ensures x in Chosen(n) <==> Collected(n, x)
      decreases |t.parent| - n, |t.kids[n]| + 1
    {
      hide System.ChosenFrom;
      ChosenFromIs(n, 0, x);
      if x != n && Collected(n, x) {
        var i := ReachedSplits(n, x);
        assert Collected(t.kids[n][i], x);
      }
      if Enters(n) && x in ChosenFrom(n, 0) {
        var i: nat :| i < |t.kids[n]| && Collected(t.kids[n][i], x);
        CollectedAbove(n, i, x);
      }
    }

    /** What is collected in a child's subtree is collected in the subtree of n, if that is entered. */
    lemma CollectedAbove(n: Node, i: nat, x: Node)
      requires Valid() && t.Has(n) && t.Has(x) && i < |t.kids[n]| && Collected(t.kids[n][i], x) && Enters(n)
      ensures Collected(n, x) && x != n
    {
      var c := t.kids[n][i];
      assert t.Linked(c) && t.Below(n, c);
      BelowAbove(t, c, x);
      BelowTrans(t, n, c, x);
      ReachedExtends(c, x);
    }

    /** x is collected in the subtree of a child of p, of index i or later. */
    ghost predicate CollectedFrom(p: Node, i: nat, x: Node)
      requires Valid() && t.Has(p) && t.Has(x)
    {
      exists j: nat :: i <= j < |t.kids[p]| && Collected(t.kids[p][j], x)
    }

    lemma CollectedSplits(p: Node, i: nat, x: Node)
      requires Valid() && t.Has(p) && t.Has(x) && i < |t.kids[p]|
      ensures CollectedFrom(p, i, x) <==> Collected(t.kids[p][i], x) || CollectedFrom(p, i + 1, x)
    {
      hide System.Collected;
      if CollectedFrom(p, i, x) {
        var j: nat :| i <= j < |t.kids[p]| && Collected(t.kids[p][j], x);
      }
    }

    lemma {:induction false} ChosenFromIs(p: Node, i: nat, x: Node)
      requires Valid() && t.Has(p) && t.Has(x) && i <= |t.kids[p]|
      ensures x in ChosenFrom(p, i) <==> CollectedFrom(p, i, x)
      decreases |t.parent| - p, |t.kids[p]| - i
    {
      if i < |t.kids[p]| {
        var c := t.kids[p][i];
        FromStep(p, i);
        CollectedSplits(p, i, x);
        hide System.Chosen, System.ChosenFrom, System.CollectedFrom, System.Collected, Distinct, Ascends;
        ChosenIs(c, x);
        ChosenFromIs(p, i + 1, x);
        Joined(Chosen(c), ChosenFrom(p, i + 1), x);
      }
    }

    lemma {:induction false} ChosenDistinct(n: Node)
      requires Valid() && t.Has(n)
      ensures Distinct(Chosen(n)) && forall x | x in Chosen(n) :: x in t.Pre(n)
      decreases |t.parent| - n, |t.kids[n]| + 1
    {
      ChosenFromDistinct(n, 0);
      PreDistinct(t, n);
      var q := t.PreFrom(n, 0);
      assert t.Pre(n) == [n] + q;
      PreFromIsSubtree(t, n, 0, n);
    }

    lemma {:induction false} ChosenFromDistinct(p: Node, i: nat)
      requires Valid() && t.Has(p) && i <= |t.kids[p]|
      ensures Distinct(ChosenFrom(p, i)) && forall x | x in ChosenFrom(p, i) :: x in t.PreFrom(p, i)
      decreases |t.parent| - p, |t.kids[p]| - i
    {
      if i < |t.kids[p]| {
        ChosenDistinct(t.kids[p][i]);
        ChosenFromDistinct(p, i + 1);
        PreFromDistinct(t, p, i);
        var a, b := t.Pre(t.kids[p][i]), t.PreFrom(p, i + 1);
        var c, d := Chosen(t.kids[p][i]), ChosenFrom(p, i + 1);
        assert t.PreFrom(p, i) == a + b;
        DistinctHalves(a, b, c, d);
      }
    }
  }

  lemma DistinctHalves(a: seq<Node>, b: seq<Node>, c: seq<Node>, d: seq<Node>)
    requires Distinct(a + b) && Distinct(c) && Distinct(d)
    requires forall x | x in c :: x in a
    requires forall x | x in d :: x in b
    ensures Distinct(c + d)
  {
    forall i, j | 0 <= i < |c| && 0 <= j < |d| ensures c[i] != d[j] {
      assert c[i] in a && d[j] in b;
      var k :| 0 <= k < |a| && a[k] == c[i];
      var l :| 0 <= l < |b| && b[l] == d[j];
      assert (a + b)[k] == a[k] && (a + b)[|a| + l] == b[l];
    }
  }

  /**
   The collected cpusets: the top one if it balances, and below it every balancing cpuset
   with effective CPUs that the walk looks at and that is open above.
  */
  ghost predicate IsCsa(sys: System, csa: seq<Node>)
    requires sys.Valid()
  {
    && Distinct(csa)
    && (forall k | 0 <= k < |csa| :: csa[k] < |sys.cs|)
    && forall x {:trigger InCsa(sys, x)} | sys.t.Has(x) :: x in csa <==> InCsa(sys, x)
  }

  ghost predicate InCsa(sys: System, x: Node)
    requires sys.Valid() && sys.t.Has(x)
  {
    && sys.t.Below(0, x) && sys.cs[x].loadBalance
    && (x != 0 ==> sys.cs[x].effectiveCpus != {} && sys.Looked(x) && sys.OpenAbove(x))
  }

  /** x is what the walk from some child of the top cpuset collects. */
  lemma InCsaIsCollected(sys: System, x: Node)
    requires sys.Valid() && sys.t.Has(x) && 0 < x
    ensures InCsa(sys, x) <==> sys.CollectedFrom(0, 0, x)
  {
    sys.EntersMeans(x);
    hide System.Looked, System.Passed, System.Enters, System.Takes, System.OpenAbove, System.Reached;
    if InCsa(sys, x) {
      var c := ChildToward(sys.t, 0, x);
      sys.ReachedMeans(c, x);
      assert sys.t.kids[0][sys.t.Index(c)] == c && sys.Collected(c, x);
    }
    if sys.CollectedFrom(0, 0, x) {
      var i: nat :| i < |sys.t.kids[0]| && sys.Collected(sys.t.kids[0][i], x);
      var c := sys.t.kids[0][i];
      sys.ChildPlace(0, i);
      sys.ReachedMeans(c, x);
      BelowAbove(sys.t, c, x);
      BelowTrans(sys.t, 0, c, x);
    }
  }

  /**
   Collected cpusets are load-balanced, and all but the top one are online and have
   effective CPUs. Below a collected one that is no partition root nothing is collected.
  */
  ghost predicate OnlyBalancing(sys: System, csa: seq<Node>)
    requires sys.Valid()
  {
    && (forall x {:trigger x in csa} | x in csa ::
          sys.t.Has(x) && sys.cs[x].loadBalance && (x != 0 ==> sys.cs[x].online && sys.cs[x].effectiveCpus != {}))
    && forall a, x {:trigger sys.t.Below(a, x)} | a in csa && x in csa && 0 < a < x && sys.t.Below(a, x) :: sys.cs[a].partitionRoot
  }

  lemma CsaBalances(sys: System, csa: seq<Node>)
    requires sys.Valid() && IsCsa(sys, csa)
    ensures OnlyBalancing(sys, csa)
  {
    forall x | x in csa ensures sys.t.Has(x) && InCsa(sys, x) {
      var k :| 0 <= k < |csa| && csa[k] == x;
    }
  }

  lemma CsaIs(sys: System, csa: seq<Node>)
    requires sys.Valid() && csa == (if sys.cs[0].loadBalance then [0] else []) + sys.ChosenFrom(0, 0)
    ensures IsCsa(sys, csa)
  {
    var q := sys.ChosenFrom(0, 0);
    sys.ChosenFromDistinct(0, 0);
    PreFromIsSubtree(sys.t, 0, 0, 0);
    forall k | 0 <= k < |q| ensures q[k] < |sys.cs| {
      assert q[k] in q;
      PreFromInRange(sys.t, 0, 0, q[k]);
    }
    assert sys.t.Below(0, 0);
    hide System.Looked, System.OpenAbove, System.ChosenFrom, System.CollectedFrom;
    forall x | sys.t.Has(x) ensures x in csa <==> InCsa(sys, x) {
      if x != 0 {
        InCsaIsCollected(sys, x);
        sys.ChosenFromIs(0, 0, x);
      }
    }
  }

  /** The walk at n: what was collected before and what is still to come make up all. */
  ghost predicate Collecting(sys: System, pos: Option<Node>, csa: seq<Node>, rest: seq<Node>, all: seq<Node>)
    requires sys.Valid()
  {
    && Remaining(sys.t, 0, pos, rest)
    && csa + (if pos == Some(0) then sys.ChosenFrom(0, 0) else sys.ChosenAt(pos)) == all
  }

  lemma Regroup(a: seq<Node>, b: seq<Node>, c: seq<Node>, d: seq<Node>)
    ensures (a + b) + (c + d) == a + ((b + c) + d)
    ensures [] + d == d && b + [] == b && a + [] == a
  {}

  /** One round of the collecting walk. */
  method CollectStep(sys: System, n: Node, csa: seq<Node>, ghost rest: seq<Node>, ghost all: seq<Node>)
    returns (csa': seq<Node>, pos: Option<Node>, ghost rest': seq<Node>)
    requires sys.Valid() && sys.t.Has(n) && Collecting(sys, Some(n), csa, rest, all)
    ensures Collecting(sys, pos, csa', rest', all) && |rest'| < |rest|
  {
    var t := sys.t;
    csa' := csa;
    if n != 0 && sys.Takes(n) {
      csa' := csa' + [n];
    }
    if n == 0 || sys.Enters(n) {
      StepRemaining(t, 0, n);
      sys.ChosenEnter(n);
      pos := NextPre(t, n, 0);
      rest' := t.PreFrom(n, 0) + t.AfterPre(0, n);
      Regroup(csa, if n != 0 && sys.Takes(n) then [n] else [], sys.ChosenFrom(n, 0), sys.ChosenAfter(n));
    } else {
      AfterPreRemaining(t, 0, n);
      sys.ChosenNext(n);
      pos := SkipSubtree(t, 0, n);
      rest' := t.AfterPre(0, n);
      Regroup(csa, if n != 0 && sys.Takes(n) then [n] else [], [], sys.ChosenAfter(n));
    }
  }

  /** The collection: a pre-order walk from the top cpuset that leaves out whole subtrees. */
  method CollectCpusets(sys: System) returns (csa: seq<Node>)
    requires sys.Valid()
    ensures IsCsa(sys, csa) && OnlyBalancing(sys, csa)
  {
    var t := sys.t;
    csa := if sys.cs[0].loadBalance then [0] else [];
    ghost var all := csa + sys.ChosenFrom(0, 0);
    var pos := NextDescendantPre(t, None, 0);
    ghost var rest := t.Pre(0);
    assert rest == t.Pre(0) + t.AfterPre(0, 0);
    while pos.Some?
      invariant Collecting(sys, pos, csa, rest, all)
      decreases |rest|
    {
      csa, pos, rest := CollectStep(sys, pos.value, csa, rest, all);
    }
    CsaIs(sys, csa);
    CsaBalances(sys, csa);
  }

  /** The effective CPUs of the collected cpusets. */
  function EffectiveOf(sys: System, csa: seq<Node>): seq<set<Cpu>>
    requires forall k | 0 <= k < |csa| :: csa[k] < |sys.cs|
  {
    seq(|csa|, k requires 0 <= k < |csa| => sys.cs[csa[k]].effectiveCpus)
  }

  // ---------------------------------------------------------------------------
  // What the collection leaves out
  // ---------------------------------------------------------------------------

  /**
   Below a parent: partition roots stand only below partition roots, every other cpuset has
   effective CPUs of its parent, and one that has others than its own configured CPUs (an
   inheriting one) is no partition root and has a load-balanced parent. In legacy mode there
   are no partition roots and no cpuset inherits; in v2 mode every cpuset is load-balanced.
  */
  ghost predicate NestedAt(sys: System, n: Node)
    requires sys.Valid() && 0 < n < |sys.cs|
  {
    var c, p := sys.cs[n], sys.t.parent[n];
    && (c.online && 0 < p ==> sys.cs[p].online)
    && (if c.partitionRoot then p == 0 || sys.cs[p].partitionRoot else c.effectiveCpus <= sys.cs[p].effectiveCpus)
    && (c.effectiveCpus <= c.cpusAllowed || (!c.partitionRoot && sys.cs[p].loadBalance))
  }

  ghost predicate Nested(sys: System)
    requires sys.Valid()
  {
    forall n: Node {:trigger NestedAt(sys, n)} | 0 < n < |sys.cs| && sys.t.Linked(n) :: NestedAt(sys, n)
  }

  ghost predicate NoPartitions(sys: System) {
    forall n | 0 < n < |sys.cs| :: !sys.cs[n].partitionRoot
  }

  /** Where the walk from c does not get to x it stops above x. */
  lemma {:induction false} StopsAbove(sys: System, c: Node, x: Node) returns (y: Node)
    requires sys.Valid() && sys.t.Has(x) && sys.t.Below(c, x) && !sys.Reached(c, x)
    ensures sys.t.Has(y) && y < x && c <= y && sys.t.Below(c, y) && sys.t.Below(y, x) && sys.Reached(c, y) && !sys.Enters(y)
    decreases x
  {
    var p := sys.t.parent[x];
    BelowAbove(sys.t, c, p);
    if sys.Reached(c, p) {
      y := p;
    } else {
      y := StopsAbove(sys, c, p);
    }
  }

  /** Below a cpuset that is no partition root the effective CPUs are its own. */
  lemma {:induction false} EffectiveShrinks(sys: System, y: Node, x: Node)
    requires sys.Valid() && Nested(sys) && sys.t.Has(x) && sys.t.Below(y, x) && y <= x
    requires NoPartitions(sys) || (0 < y && !sys.cs[y].partitionRoot)
    ensures sys.cs[x].effectiveCpus <= sys.cs[y].effectiveCpus
    ensures 0 < x ==> !sys.cs[x].partitionRoot || x == y
    decreases x
  {
    if x != y {
      BelowAbove(sys.t, y, sys.t.parent[x]);
      EffectiveShrinks(sys, y, sys.t.parent[x]);
      assert NestedAt(sys, x);
    }
  }

  /** x is online, load-balanced and has CPUs to balance. */
  ghost predicate Balances(sys: System, x: Node)
    requires sys.Valid() && sys.t.Has(x)
  {
    (x == 0 || sys.cs[x].online) && sys.cs[x].loadBalance && sys.cs[x].effectiveCpus * sys.hk != {}
  }

  lemma TakenIsCollected(sys: System, c: Node, x: Node)
    requires sys.Valid() && sys.t.Has(c) && sys.t.Has(x) && sys.t.Linked(c) && sys.t.parent[c] == 0 && sys.Collected(c, x) && 0 < x
    ensures InCsa(sys, x)
  {
    assert sys.t.kids[0][sys.t.Index(c)] == c;
    InCsaIsCollected(sys, x);
  }

  /** A cpuset that has CPUs, is online but not load-balanced inherits, when the walk stops at it. */
  lemma StopInherits(sys: System, y: Node)
    requires sys.Valid() && 0 < y < |sys.cs| && !sys.Enters(y) && !sys.cs[y].loadBalance
    ensures sys.cs[y].cpusAllowed == {}
  {}

  /** Every balancing cpuset that the walk leaves out has its CPUs within those of a collected one. */
  lemma {:induction false} LeftOutIsCovered(sys: System, x: Node) returns (c: Node)
    requires sys.Valid() && Nested(sys) && sys.t.Has(x) && sys.t.Below(0, x) && Balances(sys, x)
    ensures sys.t.Has(c) && InCsa(sys, c) && sys.cs[x].effectiveCpus <= sys.cs[c].effectiveCpus
    decreases x
  {
    if x == 0 {
      return 0;
    }
    assert NestedAt(sys, x);
    var eff, p := sys.cs[x].effectiveCpus, sys.t.parent[x];
    if !(eff <= sys.cs[x].cpusAllowed) {
      c := LeftOutIsCovered(sys, p);
      return;
    }
    if sys.cs[0].loadBalance && sys.cs[x].cpusAllowed <= sys.cs[0].effectiveCpus {
      return 0;
    }
    assert sys.Takes(x) by { var cpu :| cpu in eff * sys.hk; assert cpu in sys.cs[x].cpusAllowed * sys.hk; }
    var top := ChildToward(sys.t, 0, x);
    if sys.Reached(top, x) {
      TakenIsCollected(sys, top, x);
      return x;
    }
    var y := StopsAbove(sys, top, x);
    EffectiveShrinks(sys, y, x);
    var cpu :| cpu in eff * sys.hk;
    assert cpu in sys.cs[y].effectiveCpus * sys.hk;
    if sys.cs[y].loadBalance {
      TakenIsCollected(sys, top, y);
      return y;
    }
    StopInherits(sys, y);
    assert sys.t.Linked(y) && NestedAt(sys, y);
    BelowZero(sys, top, y);
    c := LeftOutIsCovered(sys, sys.t.parent[y]);
  }

  lemma BelowZero(sys: System, top: Node, y: Node)
    requires sys.Valid() && sys.t.Has(y) && sys.t.Has(top) && 0 < top <= y && sys.t.Linked(top) && sys.t.parent[top] == 0 && sys.t.Below(top, y)
    ensures sys.t.Linked(y) && sys.t.Below(0, y) && sys.t.Below(0, sys.t.parent[y])
  {
    BelowTrans(sys.t, 0, top, y);
  }

  /** Every balancing cpuset has its effective housekeeping CPUs inside one domain. */
  ghost predicate AllCovered(sys: System, doms: seq<set<Cpu>>)
    requires sys.Valid()
  {
    forall x: Node {:trigger sys.cs[x]} | sys.t.Has(x) && sys.t.Below(0, x) && Balances(sys, x) ::
      exists s :: 0 <= s < |doms| && sys.cs[x].effectiveCpus * sys.hk <= doms[s]
  }

  lemma PartitionCovers(sys: System, csa: seq<Node>, doms: seq<set<Cpu>>)
    requires sys.Valid() && Nested(sys) && IsCsa(sys, csa) && Partition(EffectiveOf(sys, csa), sys.hk, doms)
    ensures AllCovered(sys, doms)
  {
    var effs := EffectiveOf(sys, csa);
    forall x: Node | sys.t.Has(x) && sys.t.Below(0, x) && Balances(sys, x)
      ensures exists s :: 0 <= s < |doms| && sys.cs[x].effectiveCpus * sys.hk <= doms[s]
    {
      var c := LeftOutIsCovered(sys, x);
      assert c in csa;
      var k :| 0 <= k < |csa| && csa[k] == c;
      assert effs[k] == sys.cs[c].effectiveCpus;
      var s :| 0 <= s < |doms| && effs[k] * sys.hk <= doms[s];
      assert sys.cs[x].effectiveCpus * sys.hk <= doms[s];
    }
  }

  lemma FullDomainCovers(sys: System, doms: seq<set<Cpu>>)
    requires sys.Valid() && Nested(sys) && NoPartitions(sys) && doms == [sys.cs[0].effectiveCpus * sys.hk]
    ensures AllCovered(sys, doms)
  {
    forall x: Node | sys.t.Has(x) && sys.t.Below(0, x) && Balances(sys, x)
      ensures exists s :: 0 <= s < |doms| && sys.cs[x].effectiveCpus * sys.hk <= doms[s]
    {
      EffectiveShrinks(sys, 0, x);
      assert sys.cs[x].effectiveCpus * sys.hk <= doms[0];
    }
  }

  /** Every CPU of a domain is a housekeeping CPU and an effective one of a load-balanced cpuset, online or the top one. */
  ghost predicate AllBalanced(sys: System, doms: seq<set<Cpu>>)
    requires sys.Valid()
  {
    forall s, cpu {:trigger cpu in doms[s]} | 0 <= s < |doms| && cpu in doms[s] :: cpu in sys.hk && InBalanced(sys, cpu)
  }

  ghost predicate InBalanced(sys: System, cpu: Cpu)
    requires sys.Valid()
  {
    exists x: Node {:trigger sys.cs[x]} :: sys.t.Has(x) && (x == 0 || sys.cs[x].online) && sys.cs[x].loadBalance && cpu in sys.cs[x].effectiveCpus
  }

  lemma PartitionBalanced(sys: System, csa: seq<Node>, doms: seq<set<Cpu>>)
    requires sys.Valid() && IsCsa(sys, csa) && OnlyBalancing(sys, csa) && Partition(EffectiveOf(sys, csa), sys.hk, doms)
    ensures AllBalanced(sys, doms)
  {
    var effs := EffectiveOf(sys, csa);
    hide IsCsa;
    forall s, cpu | 0 <= s < |doms| && cpu in doms[s] ensures cpu in sys.hk && InBalanced(sys, cpu) {
      assert SomeComponent(effs, sys.hk, doms[s]);
      var i: nat :| IsComponent(effs, sys.hk, i, doms[s]);
      var k :| 0 <= k < |effs| && Connected(effs, i, k) && cpu in effs[k];
      assert csa[k] in csa && effs[k] == sys.cs[csa[k]].effectiveCpus;
    }
  }

  /**
   generate_sched_domains. One full domain when the top cpuset balances and has lent no
   CPUs; otherwise the overlap components of the collected cpusets.
  */
  method GenerateSchedDomains(sys: System, nrSubpartsCpus: nat) returns (doms: array<set<Cpu>>, ghost csa: seq<Node>)
    requires sys.Valid()
    ensures fresh(doms)
    ensures sys.cs[0].loadBalance && nrSubpartsCpus == 0 ==> doms[..] == [sys.cs[0].effectiveCpus * sys.hk]
    ensures !(sys.cs[0].loadBalance && nrSubpartsCpus == 0) ==>
      && IsCsa(sys, csa) && OnlyBalancing(sys, csa)
      && Partition(EffectiveOf(sys, csa), sys.hk, doms[..])
    ensures AllBalanced(sys, doms[..])
    ensures Nested(sys) && (nrSubpartsCpus == 0 ==> NoPartitions(sys)) ==> AllCovered(sys, doms[..])
  {
    hide Nested, NoPartitions, AllCovered, Partition, IsCsa, OnlyBalancing;
    csa := [];
    if sys.cs[0].loadBalance && nrSubpartsCpus == 0 {
      doms := new set<Cpu>[1](_ => {});
      doms[0] := sys.cs[0].effectiveCpus * sys.hk;
      if Nested(sys) && NoPartitions(sys) { FullDomainCovers(sys, doms[..]); }
      return;
    }
    var collected := CollectCpusets(sys);
    csa := collected;
    assert forall k | 0 <= k < |collected| :: collected[k] in collected;
    doms := PartitionDomains(EffectiveOf(sys, collected), sys.hk);
    PartitionBalanced(sys, csa, doms[..]);
    if Nested(sys) { PartitionCovers(sys, csa, doms[..]); }
  }
}
