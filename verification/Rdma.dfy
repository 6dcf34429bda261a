/**
 The rdma controller (rdma.c). A charge goes to the resource pools of a cgroup and of all
 its ancestors; a pool is created when first needed and freed when it is neither used nor
 limited. Everything happens under rdmacg_mutex, which a failing charge releases before it
 takes back what it had charged so far.
*/
module Rdma {
  import opened CgroupTree
  import opened Hierarchy

  const RESOURCES: nat := 2  // hca_handle, hca_object
  const S32_MAX := 0x7fff_ffff

  type Device(==, !new)

  /** struct rdmacg_resource_pool */
  datatype Pool = Pool(max: seq<int>, usage: seq<int>, usageSum: int, numMaxCnt: int)

  type Key = (Node, Device)
  type Pools = map<Key, Pool>

  // ---------------------------------------------------------------------------
  // One pool
  // ---------------------------------------------------------------------------

  ghost function Total(usage: seq<int>): int {
    if usage == [] then 0 else usage[0] + Total(usage[1..])
  }

  ghost function AtMax(max: seq<int>): nat {
    if max == [] then 0 else (if max[0] == S32_MAX then 1 else 0) + AtMax(max[1..])
  }

  lemma {:induction false} TotalUpdate(usage: seq<int>, i: nat, x: int)
    requires i < |usage|
    ensures Total(usage[i := x]) == Total(usage) + x - usage[i]
  {
    var u := usage[i := x];
    if i == 0 {
      assert u[1..] == usage[1..];
    } else {
      TotalUpdate(usage[1..], i - 1, x);
      assert u[1..] == usage[1..][i - 1 := x];
    }
  }

  lemma {:induction false} AtMaxUpdate(max: seq<int>, i: nat, x: int)
    requires i < |max|
    ensures AtMax(max[i := x]) == AtMax(max) + (if x == S32_MAX then 1 else 0) - (if max[i] == S32_MAX then 1 else 0)
  {
    var m := max[i := x];
    if i == 0 {
      assert m[1..] == max[1..];
    } else {
      AtMaxUpdate(max[1..], i - 1, x);
      assert m[1..] == max[1..][i - 1 := x];
    }
  }

  lemma {:induction false} TotalZero(usage: seq<int>, i: nat)
    requires i < |usage| && forall j | 0 <= j < |usage| :: usage[j] >= 0
    ensures 0 <= usage[i] <= Total(usage)
  {
    TotalNonNegative(usage[1..]);
    if i > 0 { TotalZero(usage[1..], i - 1); }
  }

  lemma {:induction false} TotalNonNegative(usage: seq<int>)
    requires forall j | 0 <= j < |usage| :: usage[j] >= 0
    ensures 0 <= Total(usage)
  {
    if usage != [] { TotalNonNegative(usage[1..]); }
  }

  lemma {:induction false} AllMax(max: seq<int>)
    ensures AtMax(max) <= |max|
    ensures AtMax(max) == |max| <==> forall i | 0 <= i < |max| :: max[i] == S32_MAX
  {
    if max != [] {
      AllMax(max[1..]);
      if forall i | 0 <= i < |max| :: max[i] == S32_MAX {
        assert forall i | 0 <= i < |max[1..]| :: max[1..][i] == max[i + 1];
      } else {
        var i :| 0 <= i < |max| && max[i] != S32_MAX;
        assert i > 0 ==> max[1..][i - 1] == max[i];
      }
    }
  }

  /** The pool's totals say what they count. */
  ghost predicate Counted(p: Pool) {
    && |p.max| == |p.usage| == RESOURCES
    && (forall i | 0 <= i < RESOURCES :: p.usage[i] >= 0)
    && p.usageSum == Total(p.usage) && p.numMaxCnt == AtMax(p.max)
  }

  /** The condition under which a pool is freed. */
  predicate Unused(p: Pool) {
    p.usageSum == 0 && p.numMaxCnt == RESOURCES
  }

  /** A pool with no use and no limit. */
  const FRESH := Pool([S32_MAX, S32_MAX], [0, 0], 0, RESOURCES)

  /** set_resource_limit */
  function SetLimit(p: Pool, i: nat, newMax: int): Pool
    requires i < |p.max|
  {
    var cnt := if newMax == S32_MAX then (if p.max[i] != S32_MAX then p.numMaxCnt + 1 else p.numMaxCnt)
               else if p.max[i] == S32_MAX then p.numMaxCnt - 1 else p.numMaxCnt;
    p.(max := p.max[i := newMax], numMaxCnt := cnt)
  }

  lemma SetLimitCounted(p: Pool, i: nat, newMax: int)
    requires Counted(p) && i < RESOURCES
    ensures Counted(SetLimit(p, i, newMax))
  {
    AtMaxUpdate(p.max, i, newMax);
  }

  function Use(p: Pool, i: nat, d: int): Pool
    requires i < |p.usage|
  {
    p.(usage := p.usage[i := p.usage[i] + d], usageSum := p.usageSum + d)
  }

  lemma UseCounted(p: Pool, i: nat, d: int)
    requires Counted(p) && i < RESOURCES && p.usage[i] + d >= 0
    ensures Counted(Use(p, i, d))
  {
    TotalUpdate(p.usage, i, p.usage[i] + d);
  }

  lemma FreshCounted()
    ensures Counted(FRESH) && Unused(FRESH)
  {
    assert FRESH.usage == [0, 0] && FRESH.max == [S32_MAX, S32_MAX];
    AllMax(FRESH.max);
    assert Total(FRESH.usage[1..]) == 0;
  }

  /** An unused pool is the fresh one: freeing it and creating it again changes nothing. */
  lemma UnusedIsFresh(p: Pool)
    requires Counted(p) && Unused(p)
    ensures p == FRESH
  {
    AllMax(p.max);
    TotalZero(p.usage, 0);
    TotalZero(p.usage, 1);
    assert p.usage == FRESH.usage && p.max == FRESH.max;
  }

  // ---------------------------------------------------------------------------
  // All pools
  // ---------------------------------------------------------------------------

  /** Every pool counts right and is used or limited. */
  ghost predicate PoolsOk(parent: seq<Node>, pools: Pools) {
    forall k {:trigger pools[k]} | k in pools :: k.0 < |parent| && Counted(pools[k]) && !Unused(pools[k])
  }

  /** The pool of k, a fresh one if there is none. */
  function PoolOf(pools: Pools, k: Key): Pool {
    if k in pools then pools[k] else FRESH
  }

  /** pools with the pool of k replaced; an unused one is not kept. */
  function Put(pools: Pools, k: Key, p: Pool): Pools {
    if Unused(p) then pools - {k} else pools[k := p]
  }

  lemma PutPoolOf(parent: seq<Node>, pools: Pools, k: Key, p: Pool)
    requires PoolsOk(parent, pools) && Counted(p) && k.0 < |parent|
    ensures PoolsOk(parent, Put(pools, k, p)) && PoolOf(Put(pools, k, p), k) == p
    ensures forall l: Key | l != k :: PoolOf(Put(pools, k, p), l) == PoolOf(pools, l)
  {
    if Unused(p) { UnusedIsFresh(p); }
  }

  /** Pools are determined by PoolOf. */
  lemma SamePools(parent: seq<Node>, a: Pools, b: Pools)
    requires PoolsOk(parent, a) && PoolsOk(parent, b) && forall k: Key :: PoolOf(a, k) == PoolOf(b, k)
    ensures a == b
  {
    FreshCounted();
    forall k: Key ensures k in a <==> k in b {
      assert PoolOf(a, k) == PoolOf(b, k);
    }
    assert forall k | k in a :: PoolOf(a, k) == PoolOf(b, k) && a[k] == b[k];
  }

  /** n is between cg and stop: cg or an ancestor, but strictly below stop. */
  ghost predicate Between(parent: seq<Node>, n: Node, cg: Node, stop: Option<Node>)
    requires IsTree(parent) && cg < |parent| && (stop.Some? ==> stop.value < |parent|)
  {
    Under(parent, n, cg) && (stop.Some? ==> !Under(parent, n, stop.value))
  }

  ghost predicate ShiftedAt(parent: seq<Node>, a: Pools, b: Pools, dev: Device, i: nat, cg: Node, stop: Option<Node>, d: int, k: Key)
    requires IsTree(parent) && cg < |parent| && (stop.Some? ==> stop.value < |parent|)
  {
    if k.0 < |parent| && k.1 == dev && Between(parent, k.0, cg, stop)
    then i < |PoolOf(a, k).usage| && PoolOf(b, k) == Use(PoolOf(a, k), i, d)
    else PoolOf(b, k) == PoolOf(a, k)
  }

  /** b is a with d added to the use of resource i in the pools of dev between cg and stop. */
  ghost predicate Shifted(parent: seq<Node>, a: Pools, b: Pools, dev: Device, i: nat, cg: Node, stop: Option<Node>, d: int)
    requires IsTree(parent) && cg < |parent| && (stop.Some? ==> stop.value < |parent|)
  {
    forall k: Key {:trigger ShiftedAt(parent, a, b, dev, i, cg, stop, d, k)} :: ShiftedAt(parent, a, b, dev, i, cg, stop, d, k)
  }

  /** The next cgroup up, p, joins the range. */
  lemma BetweenUp(parent: seq<Node>, n: Node, cg: Node, p: Node)
    requires IsTree(parent) && cg < |parent| && p < |parent| && Under(parent, p, cg)
    ensures Between(parent, n, cg, if p == 0 then None else Some(parent[p])) <==> n == p || Between(parent, n, cg, Some(p))
    ensures !Between(parent, p, cg, Some(p))
  {
    if p == 0 {
      if Under(parent, n, 0) { UnderAbove(parent, n, 0); }
      UnderRoot(parent, cg);
    } else {
      StrictlyUnderParent(parent, n, p);
    }
  }

  /** Charging up to stop and taking that back leaves the pools, and which pools there are, as they were. */
  lemma UndoneIsSame(parent: seq<Node>, a: Pools, b: Pools, c: Pools, dev: Device, i: nat, cg: Node, stop: Option<Node>)
    requires IsTree(parent) && cg < |parent| && (stop.Some? ==> stop.value < |parent|)
    requires PoolsOk(parent, a) && PoolsOk(parent, c)
    requires Shifted(parent, a, b, dev, i, cg, stop, 1) && Shifted(parent, b, c, dev, i, cg, stop, -1)
    ensures c == a
  {
    forall k: Key ensures PoolOf(a, k) == PoolOf(c, k) {
      assert ShiftedAt(parent, a, b, dev, i, cg, stop, 1, k) && ShiftedAt(parent, b, c, dev, i, cg, stop, -1, k);
      if k.0 < |parent| && k.1 == dev && Between(parent, k.0, cg, stop) {
        var u := PoolOf(a, k).usage;
        assert u[i := u[i] + 1][i := u[i]] == u;
      }
    }
    SamePools(parent, a, c);
  }

  // ---------------------------------------------------------------------------
  // Charges
  // ---------------------------------------------------------------------------

  /**
   What was charged and not yet taken back: one unit of resource i of dev from cg up to the
   root, or, for a charge that failed at stop, up to but not including stop.
  */
  datatype Charge = Charge(cg: Node, dev: Device, i: nat, stop: Option<Node>, held: bool)

  ghost predicate ChargeOk(parent: seq<Node>, c: Charge)
    requires IsTree(parent)
  {
    c.cg < |parent| && c.i < RESOURCES && (c.stop.Some? ==> c.stop.value < |parent| && Under(parent, c.stop.value, c.cg))
  }

  ghost predicate ChargesOk(parent: seq<Node>, cs: seq<Charge>)
    requires IsTree(parent)
  {
    forall j {:trigger ChargeOk(parent, cs[j])} | 0 <= j < |cs| :: ChargeOk(parent, cs[j])
  }

  ghost predicate Covers(parent: seq<Node>, c: Charge, k: Key, i: nat)
    requires IsTree(parent) && ChargeOk(parent, c)
  {
    c.held && c.i == i && c.dev == k.1 && Between(parent, k.0, c.cg, c.stop)
  }

  /** The units of resource i that the first n charges hold at k. */
  ghost function Load(parent: seq<Node>, cs: seq<Charge>, k: Key, i: nat, n: nat): nat
    requires IsTree(parent) && ChargesOk(parent, cs) && n <= |cs|
  {
    if n == 0 then 0
    else
      assert ChargeOk(parent, cs[n - 1]);
      Load(parent, cs, k, i, n - 1) + if Covers(parent, cs[n - 1], k, i) then 1 else 0
  }

  lemma {:induction false} LoadSnoc(parent: seq<Node>, cs: seq<Charge>, c: Charge, k: Key, i: nat, n: nat)
    requires IsTree(parent) && ChargesOk(parent, cs) && n <= |cs| && ChargeOk(parent, c)
    ensures ChargesOk(parent, cs + [c]) && Load(parent, cs + [c], k, i, n) == Load(parent, cs, k, i, n)
    decreases n
  {
    var cs' := cs + [c];
    forall j | 0 <= j < |cs'| ensures ChargeOk(parent, cs'[j]) { if j < |cs| { assert ChargeOk(parent, cs[j]); } }
    if n > 0 {
      assert ChargeOk(parent, cs[n - 1]);
      LoadSnoc(parent, cs, c, k, i, n - 1);
    }
  }

  lemma {:induction false} LoadDrop(parent: seq<Node>, cs: seq<Charge>, j: nat, k: Key, i: nat, n: nat)
    requires IsTree(parent) && ChargesOk(parent, cs) && n <= |cs| && j < |cs|
    ensures ChargeOk(parent, cs[j]) && ChargesOk(parent, cs[j := cs[j].(held := false)])
    ensures Load(parent, cs[j := cs[j].(held := false)], k, i, n) ==
      Load(parent, cs, k, i, n) - if j < n && Covers(parent, cs[j], k, i) then 1 else 0
    decreases n
  {
    assert ChargeOk(parent, cs[j]);
    var cs' := cs[j := cs[j].(held := false)];
    forall l | 0 <= l < |cs'| ensures ChargeOk(parent, cs'[l]) { assert ChargeOk(parent, cs[l]); }
    if n > 0 {
      assert ChargeOk(parent, cs[n - 1]);
      LoadDrop(parent, cs, j, k, i, n - 1);
    }
  }

  /** The pools hold exactly the charges. */
  ghost predicate LoadedAt(parent: seq<Node>, pools: Pools, cs: seq<Charge>, k: Key, i: nat)
    requires IsTree(parent) && ChargesOk(parent, cs)
  {
    i < RESOURCES && k.0 < |parent| ==> i < |PoolOf(pools, k).usage| && PoolOf(pools, k).usage[i] == Load(parent, cs, k, i, |cs|)
  }

  ghost predicate Loaded(parent: seq<Node>, pools: Pools, cs: seq<Charge>)
    requires IsTree(parent) && ChargesOk(parent, cs)
  {
    forall k: Key, i: nat {:trigger LoadedAt(parent, pools, cs, k, i)} :: LoadedAt(parent, pools, cs, k, i)
  }

  lemma ChargeLoads(parent: seq<Node>, a: Pools, b: Pools, cs: seq<Charge>, c: Charge)
    requires IsTree(parent) && ChargesOk(parent, cs) && ChargeOk(parent, c) && c.held && Loaded(parent, a, cs)
    requires Shifted(parent, a, b, c.dev, c.i, c.cg, c.stop, 1)
    ensures ChargesOk(parent, cs + [c]) && Loaded(parent, b, cs + [c])
  {
    LoadSnoc(parent, cs, c, (0, c.dev), 0, 0);
    forall k: Key, i: nat ensures LoadedAt(parent, b, cs + [c], k, i) {
      assert LoadedAt(parent, a, cs, k, i) && ShiftedAt(parent, a, b, c.dev, c.i, c.cg, c.stop, 1, k);
      LoadSnoc(parent, cs, c, k, i, |cs|);
    }
  }

  lemma UnchargeLoads(parent: seq<Node>, a: Pools, b: Pools, cs: seq<Charge>, j: nat)
    requires IsTree(parent) && ChargesOk(parent, cs) && Loaded(parent, a, cs) && j < |cs| && cs[j].held && ChargeOk(parent, cs[j])
    requires Shifted(parent, a, b, cs[j].dev, cs[j].i, cs[j].cg, cs[j].stop, -1)
    ensures ChargesOk(parent, cs[j := cs[j].(held := false)]) && Loaded(parent, b, cs[j := cs[j].(held := false)])
  {
    var c := cs[j];
    LoadDrop(parent, cs, j, (0, c.dev), 0, 0);
    var cs' := cs[j := cs[j].(held := false)];
    forall k: Key, i: nat ensures LoadedAt(parent, b, cs', k, i) {
      assert LoadedAt(parent, a, cs, k, i) && ShiftedAt(parent, a, b, c.dev, c.i, c.cg, c.stop, -1, k);
      LoadDrop(parent, cs, j, k, i, |cs|);
    }
  }

  lemma {:induction false} LoadPositive(parent: seq<Node>, cs: seq<Charge>, j: nat, k: Key, n: nat)
    requires IsTree(parent) && ChargesOk(parent, cs) && j < n <= |cs| && ChargeOk(parent, cs[j])
    requires Covers(parent, cs[j], k, cs[j].i)
    ensures Load(parent, cs, k, cs[j].i, n) >= 1
    decreases n
  {
    assert ChargeOk(parent, cs[n - 1]);
    if j < n - 1 { LoadPositive(parent, cs, j, k, n - 1); }
  }

  datatype Outcome = Charged | Again | NoMemory | Invalid

  /** What becomes of charging one unit at one cgroup. */
  ghost function Judge(pools: Pools, k: Key, i: nat, noMemory: set<Node>): Outcome {
    var p := PoolOf(pools, k);
    if k !in pools && k.0 in noMemory then NoMemory
    else if i < |p.usage| && i < |p.max| && p.usage[i] + 1 > p.max[i] then Again
    else Charged
  }

  class RdmaCgroups {
    const parent: seq<Node>
    var pools: Pools
    ghost var charges: seq<Charge>

    ghost predicate Valid()
      reads this
    {
      IsTree(parent) && PoolsOk(parent, pools) && ChargesOk(parent, charges) && Loaded(parent, pools, charges)
    }

    constructor (parent: seq<Node>)
      requires IsTree(parent)
      ensures Valid() && this.parent == parent && pools == map[] && charges == []
    {
      this.parent, pools, charges := parent, map[], [];
    }

    /** One round of the loop of rdmacg_try_charge: the pool is created if need be, checked and charged. */
    method ChargeOne(p: Node, dev: Device, i: nat, noMemory: set<Node>) returns (ret: Outcome)
      requires PoolsOk(parent, pools) && p < |parent| && i < RESOURCES
      modifies `pools
      ensures PoolsOk(parent, pools) && ret == Judge(old(pools), (p, dev), i, noMemory)
      ensures pools == if ret == Charged then old(pools)[(p, dev) := Use(PoolOf(old(pools), (p, dev)), i, 1)] else old(pools)
      ensures ret == Charged ==> i < |PoolOf(old(pools), (p, dev)).usage|
    {
      FreshCounted();
      var k := (p, dev);
      // get_cg_rpool_locked
      if k !in pools && p in noMemory {
        return NoMemory;
      }
      var rpool := PoolOf(pools, k);
      var sum := rpool.usage[i] + 1;
      if sum > rpool.max[i] {
        // a fresh pool has no limit, so none was created here
        return Again;
      }
      UseCounted(rpool, i, 1);
      PutPoolOf(parent, pools, k, Use(rpool, i, 1));
      TotalZero(Use(rpool, i, 1).usage, i);
      pools := pools[k := Use(rpool, i, 1)];
      return Charged;
    }

    /**
     The locked part of rdmacg_try_charge: charge upwards until a limit is hit or a pool
     cannot be allocated, which is where noMemory says so.
    */
    method ChargeUp(cg: Node, dev: Device, i: nat, noMemory: set<Node>) returns (ret: Outcome, stop: Option<Node>)
      requires IsTree(parent) && PoolsOk(parent, pools) && cg < |parent| && i < RESOURCES
      modifies `pools
      ensures stop.Some? ==> stop.value < |parent| && Under(parent, stop.value, cg)
      ensures PoolsOk(parent, pools) && Shifted(parent, old(pools), pools, dev, i, cg, stop, 1)
      ensures stop.None? <==> ret == Charged
      ensures stop.Some? ==> ret == Judge(old(pools), (stop.value, dev), i, noMemory)
      ensures forall n: Node | n < |parent| && Between(parent, n, cg, stop) :: Judge(old(pools), (n, dev), i, noMemory) == Charged
    {
      var p: Option<Node> := Some(cg);
      assert forall k: Key :: ShiftedAt(parent, pools, pools, dev, i, cg, p, 1, k);
      while p.Some?
        invariant PoolsOk(parent, pools) && (p.Some? ==> p.value < |parent| && Under(parent, p.value, cg))
        invariant Shifted(parent, old(pools), pools, dev, i, cg, p, 1)
        invariant forall n: Node | n < |parent| && Between(parent, n, cg, p) :: Judge(old(pools), (n, dev), i, noMemory) == Charged
        decreases if p.Some? then p.value + 1 else 0
      {
        var n := p.value;
        ghost var before := pools;
        BetweenUp(parent, n, cg, n);
        assert ShiftedAt(parent, old(pools), pools, dev, i, cg, p, 1, (n, dev));
        SameJudge(old(pools), pools, (n, dev), i, noMemory);
        ret := ChargeOne(n, dev, i, noMemory);
        if ret != Charged {
          return ret, p;
        }
        OneMore(old(pools), before, pools, dev, i, cg, n, 1);
        forall m: Node | m < |parent|
          ensures Between(parent, m, cg, if n == 0 then None else Some(parent[n])) <==> m == n || Between(parent, m, cg, Some(n))
        {
          BetweenUp(parent, m, cg, n);
        }
        if n == 0 {
          p := None;
        } else {
          UnderStep(parent, n, cg);
          p := Some(parent[n]);
        }
      }
      return Charged, None;
    }

    lemma SameJudge(a: Pools, b: Pools, k: Key, i: nat, noMemory: set<Node>)
      requires PoolsOk(parent, a) && PoolsOk(parent, b) && PoolOf(a, k) == PoolOf(b, k)
      ensures Judge(a, k, i, noMemory) == Judge(b, k, i, noMemory)
    {
      FreshCounted();
    }

    lemma OneMore(a: Pools, b: Pools, c: Pools, dev: Device, i: nat, cg: Node, p: Node, d: int)
      requires IsTree(parent) && cg < |parent| && p < |parent| && Under(parent, p, cg) && i < RESOURCES
      requires Shifted(parent, a, b, dev, i, cg, Some(p), d) && i < |PoolOf(b, (p, dev)).usage|
      requires PoolOf(c, (p, dev)) == Use(PoolOf(b, (p, dev)), i, d) && forall l: Key | l != (p, dev) :: PoolOf(c, l) == PoolOf(b, l)
      ensures Shifted(parent, a, c, dev, i, cg, if p == 0 then None else Some(parent[p]), d)
    {
      var stop := if p == 0 then None else Some(parent[p]);
      forall k: Key ensures ShiftedAt(parent, a, c, dev, i, cg, stop, d, k) {
        assert ShiftedAt(parent, a, b, dev, i, cg, Some(p), d, k);
        if k.0 < |parent| { BetweenUp(parent, k.0, cg, p); }
      }
    }

    /** uncharge_cg_locked: the pool goes when it is no longer used nor limited. */
    method UnchargeOne(p: Node, dev: Device, i: nat)
      requires PoolsOk(parent, pools) && p < |parent| && i < RESOURCES
      requires (p, dev) in pools && pools[(p, dev)].usage[i] >= 1
      modifies `pools
      ensures PoolsOk(parent, pools) && pools == Put(old(pools), (p, dev), Use(old(pools[(p, dev)]), i, -1))
    {
      var k := (p, dev);
      UseCounted(pools[k], i, -1);
      PutPoolOf(parent, pools, k, Use(pools[k], i, -1));
      var rpool := Use(pools[k], i, -1);
      // never negative
      assert rpool.usage[i] >= 0;
      pools := pools[k := rpool];
      if rpool.usageSum == 0 && rpool.numMaxCnt == RESOURCES {
        // no user of the pool and all entries are at max
        pools := pools - {k};
      }
    }

    /** rdmacg_uncharge_hierarchy */
    method UnchargeHierarchy(cg: Node, dev: Device, stop: Option<Node>, i: nat)
      requires IsTree(parent) && PoolsOk(parent, pools) && cg < |parent| && i < RESOURCES
      requires stop.Some? ==> stop.value < |parent| && Under(parent, stop.value, cg)
      requires forall n: Node | n < |parent| && Between(parent, n, cg, stop) :: (n, dev) in pools && pools[(n, dev)].usage[i] >= 1
      modifies `pools
      ensures PoolsOk(parent, pools) && Shifted(parent, old(pools), pools, dev, i, cg, stop, -1)
    {
      var p: Option<Node> := Some(cg);
      assert forall k: Key :: ShiftedAt(parent, pools, pools, dev, i, cg, p, -1, k);
      while p != stop
        invariant PoolsOk(parent, pools) && (p.Some? ==> p.value < |parent| && Under(parent, p.value, cg))
        invariant stop.Some? ==> p.Some? && Under(parent, stop.value, p.value)
        invariant Shifted(parent, old(pools), pools, dev, i, cg, p, -1)
        decreases if p.Some? then p.value + 1 else 0
      {
        var n := p.value;
        ghost var before := pools;
        BetweenUp(parent, n, cg, n);
        assert ShiftedAt(parent, old(pools), pools, dev, i, cg, p, -1, (n, dev));
        StillThere(old(pools), pools, n, dev, i, cg, stop);
        UnchargeOne(n, dev, i);
        UseCounted(before[(n, dev)], i, -1);
        PutPoolOf(parent, before, (n, dev), Use(before[(n, dev)], i, -1));
        OneMore(old(pools), before, pools, dev, i, cg, n, -1);
        if n == 0 {
          p := None;
        } else {
          UnderStep(parent, n, cg);
          p := Some(parent[n]);
        }
      }
    }

    /** A cgroup not yet uncharged still has its used pool. */
    lemma StillThere(a: Pools, b: Pools, n: Node, dev: Device, i: nat, cg: Node, stop: Option<Node>)
      requires IsTree(parent) && PoolsOk(parent, a) && PoolsOk(parent, b) && cg < |parent| && n < |parent| && i < RESOURCES
      requires stop.Some? ==> stop.value < |parent| && stop.value != n && Under(parent, stop.value, n)
      requires forall m: Node | m < |parent| && Between(parent, m, cg, stop) :: (m, dev) in a && a[(m, dev)].usage[i] >= 1
      requires Under(parent, n, cg) && PoolOf(b, (n, dev)) == PoolOf(a, (n, dev))
      ensures (n, dev) in b && b[(n, dev)].usage[i] >= 1
    {
      assert Between(parent, n, cg, stop);
      FreshCounted();
    }

    /**
     rdmacg_try_charge up to the release of the mutex. A failed charge leaves what it has
     charged below the cgroup where it failed, for UnchargeAt to take back.
    */
    method TryChargeLocked(cg: Node, dev: Device, i: nat, noMemory: set<Node>) returns (ret: Outcome, stop: Option<Node>)
      requires Valid() && cg < |parent| && i < RESOURCES
      modifies this
      ensures Valid() && charges == old(charges) + [Charge(cg, dev, i, stop, true)] && (stop.None? <==> ret == Charged)
    {
      ret, stop := ChargeUp(cg, dev, i, noMemory);
      ghost var c := Charge(cg, dev, i, stop, true);
      ChargeLoads(parent, old(pools), pools, charges, c);
      charges := charges + [c];
    }

    /** rdmacg_uncharge of a charge, or the second half of a failed rdmacg_try_charge. */
    method UnchargeAt(cg: Node, dev: Device, stop: Option<Node>, i: nat, ghost j: nat)
      requires Valid() && cg < |parent| && (stop.Some? ==> stop.value < |parent|)
      requires j < |charges| && charges[j] == Charge(cg, dev, i, stop, true)
      modifies this
      ensures Valid() && charges == old(charges)[j := old(charges[j]).(held := false)]
      ensures Shifted(parent, old(pools), pools, dev, i, cg, stop, -1)
    {
      assert ChargeOk(parent, charges[j]);
      forall n: Node | n < |parent| && Between(parent, n, cg, stop) ensures (n, dev) in pools && pools[(n, dev)].usage[i] >= 1 {
        LoadPositive(parent, charges, j, (n, dev), |charges|);
        assert LoadedAt(parent, pools, charges, (n, dev), i);
        FreshCounted();
      }
      UnchargeHierarchy(cg, dev, stop, i);
      UnchargeLoads(parent, old(pools), pools, charges, j);
      charges := charges[j := charges[j].(held := false)];
    }

    /**
     rdmacg_try_charge without interference: charged at the cgroup and every ancestor
     within the limits, or nothing has changed, not even which pools there are.
    */
    method TryCharge(cg: Node, dev: Device, i: nat, noMemory: set<Node>) returns (ret: Outcome)
      requires Valid() && cg < |parent|
      modifies this
      ensures Valid()
      ensures ret == Invalid <==> i >= RESOURCES
      ensures ret == Charged ==> charges == old(charges) + [Charge(cg, dev, i, None, true)]
      ensures ret == Charged ==> Shifted(parent, old(pools), pools, dev, i, cg, None, 1)
      ensures ret != Charged ==> pools == old(pools) && (ret == Invalid ==> charges == old(charges))
      ensures i < RESOURCES ==>
        (ret == Charged <==> forall n: Node | n < |parent| && Under(parent, n, cg) :: Judge(old(pools), (n, dev), i, noMemory) == Charged)
    {
      if i >= RESOURCES {
        return Invalid;
      }
      var stop;
      ret, stop := ChargeUp(cg, dev, i, noMemory);
      ghost var c, between := Charge(cg, dev, i, stop, true), pools;
      ChargeLoads(parent, old(pools), pools, charges, c);
      charges := charges + [c];
      if stop.Some? {
        UnchargeAt(cg, dev, stop, i, |charges| - 1);
        UndoneIsSame(parent, old(pools), between, pools, dev, i, cg, stop);
      } else {
        assert forall n: Node | n < |parent| && Under(parent, n, cg) :: Between(parent, n, cg, stop);
      }
    }

    /** The limit-setting part of rdmacg_resource_set_max; limits has None for what is not written. */
    method SetMax(cg: Node, dev: Device, limits: seq<Option<int>>, noMemory: bool) returns (ret: Outcome)
      requires Valid() && cg < |parent| && |limits| == RESOURCES
      modifies `pools
      ensures Valid() && ret == if noMemory && (cg, dev) !in old(pools) then NoMemory else Charged
      ensures forall k: Key | k != (cg, dev) :: PoolOf(pools, k) == PoolOf(old(pools), k)
      ensures PoolOf(pools, (cg, dev)).usage == PoolOf(old(pools), (cg, dev)).usage
      ensures var was, now := PoolOf(old(pools), (cg, dev)).max, PoolOf(pools, (cg, dev)).max;
        |was| == |now| == RESOURCES && forall i | 0 <= i < RESOURCES ::
          now[i] == if ret == Charged && limits[i].Some? then limits[i].value else was[i]
    {
      FreshCounted();
      var k := (cg, dev);
      if k !in pools && noMemory {
        return NoMemory;
      }
      var was := PoolOf(pools, k);
      var rpool := was;
      for i := 0 to RESOURCES
        modifies {}
        invariant Counted(rpool) && rpool.usage == was.usage && rpool.usageSum == was.usageSum
        invariant forall j | 0 <= j < RESOURCES :: rpool.max[j] == if j < i && limits[j].Some? then limits[j].value else was.max[j]
      {
        if limits[i].Some? {
          SetLimitCounted(rpool, i, limits[i].value);
          rpool := SetLimit(rpool, i, limits[i].value);
        }
      }
      PutPoolOf(parent, pools, k, rpool);
      pools := Put(pools, k, rpool);
      forall l: Key, i: nat ensures LoadedAt(parent, pools, charges, l, i) {
        assert LoadedAt(parent, old(pools), charges, l, i);
      }
      return Charged;
    }
  }
}
