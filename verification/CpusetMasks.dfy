/**
 Hierarchical recomputation of effective masks (cpuset.c, update_nodemasks_hier and
 update_cpumasks_hier without partition roots). Both walk the subtree in pre-order and
 skip a whole subtree when the mask at its root did not change.
*/
module CpusetMasks {
  import opened CgroupTree

  type Mask = set<nat>

  /** An empty intersection inherits the parent's mask in v2 mode. */
  function Combine(v2: bool, allowed: Mask, parentEffective: Mask): Mask {
    if v2 && allowed * parentEffective == {} then parentEffective else allowed * parentEffective
  }

  /** Full recomputation: the mask of n from the configured masks on its path and the root's mask. */
  ghost function Full(t: Tree, v2: bool, allowed: seq<Mask>, top: Mask, n: Node): Mask
    requires t.Valid() && t.Has(n) && |allowed| == |t.parent|
    decreases n
  {
    if n == 0 then top else Combine(v2, allowed[n], Full(t, v2, allowed, top, t.parent[n]))
  }

  /** The mask of n agrees with its configured mask and its parent's mask. */
  ghost predicate Agrees(t: Tree, v2: bool, allowed: seq<Mask>, effective: seq<Mask>, n: Node)
    requires t.Valid() && 0 < n < |t.parent| == |allowed| == |effective|
  {
    effective[n] == Combine(v2, allowed[n], effective[t.parent[n]])
  }

  /**
   The mask of n is within its parent's, and what is configured of it as far as the parent
   has any of that; only in v2 mode a cpuset without any has all of its parent's.
  */
  ghost predicate WithinParent(t: Tree, v2: bool, allowed: seq<Mask>, effective: seq<Mask>, n: Node)
    requires t.Valid() && 0 < n < |t.parent| == |allowed| == |effective|
  {
    var p := effective[t.parent[n]];
    && effective[n] <= p
    && (!v2 || (exists c :: c in allowed[n] && c in p) ==> forall c :: c in effective[n] <==> c in allowed[n] && c in p)
    && (v2 && (forall c | c in allowed[n] :: c !in p) ==> effective[n] == p)
  }

  lemma AgreesMeans(t: Tree, v2: bool, allowed: seq<Mask>, effective: seq<Mask>, n: Node)
    requires t.Valid() && 0 < n < |t.parent| == |allowed| == |effective|
    ensures Agrees(t, v2, allowed, effective, n) <==> WithinParent(t, v2, allowed, effective, n)
  {
    var p := effective[t.parent[n]];
    var both := allowed[n] * p;
    if both == {} {
      forall c | c in allowed[n] ensures c !in p { assert c in p ==> c in both; }
    } else {
      var c :| c in both;
    }
    if WithinParent(t, v2, allowed, effective, n) && (!v2 || both != {}) { assert effective[n] == both; }
  }

  ghost predicate AllWithin(t: Tree, v2: bool, allowed: seq<Mask>, effective: seq<Mask>)
    requires t.Valid() && |t.parent| == |allowed| == |effective|
  {
    forall n: Node {:trigger t.Linked(n)} | 0 < n < |t.parent| && t.Linked(n) :: WithinParent(t, v2, allowed, effective, n)
  }

  lemma ConsistentIsWithin(t: Tree, v2: bool, allowed: seq<Mask>, effective: seq<Mask>)
    requires t.Valid() && |t.parent| == |allowed| == |effective|
    requires AllBut(t, Agreeing(t, v2, allowed, effective), {})
    ensures AllWithin(t, v2, allowed, effective)
  {
    forall n: Node | 0 < n < |t.parent| && t.Linked(n) ensures WithinParent(t, v2, allowed, effective, n) {
      assert t.Has(n) && n in Agreeing(t, v2, allowed, effective);
      AgreesMeans(t, v2, allowed, effective, n);
    }
  }

  /** In v2 mode no cpuset is left without CPUs while the top one has some. */
  lemma {:induction false} NeverEmpty(t: Tree, v2: bool, allowed: seq<Mask>, effective: seq<Mask>, n: Node)
    requires t.Valid() && |t.parent| == |allowed| == |effective| && AllWithin(t, v2, allowed, effective)
    requires t.Has(n) && t.Below(0, n)
    ensures effective[n] <= effective[0] && (v2 && effective[0] != {} ==> effective[n] != {})
    decreases n
  {
    if n != 0 {
      assert t.Linked(n);
      NeverEmpty(t, v2, allowed, effective, t.parent[n]);
    }
  }

  /** The flag of n says whether n inherits its parent's CPUs. */
  ghost predicate FlagAgrees(t: Tree, v2: bool, allowed: seq<Mask>, effective: seq<Mask>, flags: seq<bool>, n: Node)
    requires t.Valid() && 0 < n < |t.parent| == |allowed| == |effective| == |flags|
  {
    flags[n] == (v2 && allowed[n] * effective[t.parent[n]] == {})
  }

  /** The nodes on a sibling list that agree with their parent. */
  ghost function Agreeing(t: Tree, v2: bool, allowed: seq<Mask>, effective: seq<Mask>): set<Node>
    requires t.Valid() && |t.parent| == |allowed| == |effective|
  {
    set n: Node | 0 < n < |t.parent| && t.Linked(n) && Agrees(t, v2, allowed, effective, n)
  }

  ghost function AgreeingFlags(t: Tree, v2: bool, allowed: seq<Mask>, effective: seq<Mask>, flags: seq<bool>): set<Node>
    requires t.Valid() && |t.parent| == |allowed| == |effective| == |flags|
  {
    set n: Node | 0 < n < |t.parent| && t.Linked(n)
                  && Agrees(t, v2, allowed, effective, n) && FlagAgrees(t, v2, allowed, effective, flags, n)
  }

  /** Local agreement everywhere is full recomputation everywhere. */
  lemma {:induction false} ConsistentIsFull(t: Tree, v2: bool, allowed: seq<Mask>, effective: seq<Mask>, n: Node)
    requires t.Valid() && |t.parent| == |allowed| == |effective|
    requires AllBut(t, Agreeing(t, v2, allowed, effective), {})
    requires t.Has(n) && t.Below(0, n)
    ensures effective[n] == Full(t, v2, allowed, effective[0], n)
    decreases n
  {
    if n != 0 {
      ConsistentIsFull(t, v2, allowed, effective, t.parent[n]);
    }
  }

  // ---------------------------------------------------------------------------
  // Children that use their parent's CPUs
  // ---------------------------------------------------------------------------

  /** How many of ks have their flag set. */
  ghost function Users(flags: seq<bool>, ks: seq<Node>): nat
    requires forall i | 0 <= i < |ks| :: ks[i] < |flags|
  {
    if ks == [] then 0 else (if flags[ks[0]] then 1 else 0) + Users(flags, ks[1..])
  }

  lemma {:induction false} UsersFlip(flags: seq<bool>, ks: seq<Node>, n: Node, b: bool)
    requires forall i | 0 <= i < |ks| :: ks[i] < |flags|
    requires n < |flags| && flags[n] != b && Distinct(ks)
    ensures Users(flags[n := b], ks) == Users(flags, ks) + if n !in ks then 0 else if b then 1 else -1
  {
    if ks != [] {
      UsersFlip(flags, ks[1..], n, b);
      assert ks == [ks[0]] + ks[1..];
      assert n == ks[0] ==> n !in ks[1..];
    }
  }

  lemma {:induction false} UsersAlike(flags: seq<bool>, ks: seq<Node>, b: bool)
    requires forall i | 0 <= i < |ks| :: ks[i] < |flags| && flags[ks[i]] == b
    ensures Users(flags, ks) == if b then |ks| else 0
  {
    if ks != [] { UsersAlike(flags, ks[1..], b); }
  }

  ghost predicate Counted(t: Tree, flags: seq<bool>, counts: seq<int>)
    requires t.Valid() && |t.parent| == |flags| == |counts|
  {
    forall p {:trigger counts[p]} | 0 <= p < |counts| ::
      (assert Ascends(t.kids[p]); counts[p] == Users(flags, t.kids[p]))
  }

  lemma FlipKeepsCounted(t: Tree, flags: seq<bool>, counts: seq<int>, n: Node, b: bool)
    requires t.Valid() && |t.parent| == |flags| == |counts| && Counted(t, flags, counts)
    requires t.Has(n) && t.Linked(n) && flags[n] != b
    ensures var p := t.parent[n];
      && Counted(t, flags[n := b], counts[p := counts[p] + if b then 1 else -1])
      && (!b ==> counts[p] > 0)
  {
    forall q | 0 <= q < |counts|
      ensures (forall i | 0 <= i < |t.kids[q]| :: t.kids[q][i] < |flags|)
      ensures Users(flags[n := b], t.kids[q]) == Users(flags, t.kids[q]) + if q != t.parent[n] then 0 else if b then 1 else -1
    {
      assert Ascends(t.kids[q]);
      UsersFlip(flags, t.kids[q], n, b);
    }
  }

  // ---------------------------------------------------------------------------
  // The hierarchy
  // ---------------------------------------------------------------------------

  /** One sequence per struct cpuset field, indexed by node; node 0 is top_cpuset. */
  class Cpusets {
    const tree: Tree
    const v2: bool
    var memsAllowed: seq<Mask>
    var effectiveMems: seq<Mask>
    var cpusAllowed: seq<Mask>
    var effectiveCpus: seq<Mask>
    var useParentEcpus: seq<bool>
    var childEcpusCount: seq<int>

    ghost predicate Shape()
      reads this
    {
      && tree.Valid()
      && |tree.parent| == |memsAllowed| == |effectiveMems| == |cpusAllowed| == |effectiveCpus|
      && |useParentEcpus| == |childEcpusCount| == |tree.parent|
    }

    ghost predicate MemsConsistent(except: set<Node>)
      requires Shape()
      reads this
    {
      AllBut(tree, Agreeing(tree, v2, memsAllowed, effectiveMems), except)
    }

    ghost predicate CpusConsistent(except: set<Node>)
      requires Shape()
      reads this
    {
      AllBut(tree, AgreeingFlags(tree, v2, cpusAllowed, effectiveCpus, useParentEcpus), except)
    }

    /**
     Every cpuset as cpuset_css_alloc and cpuset_css_online leave it: nothing configured, in
     v2 mode the parent's masks, below a top cpuset that has all CPUs and nodes.
    */
    constructor (tree: Tree, v2: bool, cpus: Mask, mems: Mask)
      requires tree.Valid()
      ensures this.tree == tree && this.v2 == v2 && Shape() && MemsConsistent({}) && CpusConsistent({}) && CountsOk()
      ensures effectiveCpus[0] == cpus && effectiveMems[0] == mems && cpusAllowed[0] == cpus && memsAllowed[0] == mems
      ensures forall n: Node | 0 < n < |tree.parent| :: cpusAllowed[n] == {} && memsAllowed[n] == {}
    {
      var size := |tree.parent|;
      this.tree, this.v2 := tree, v2;
      memsAllowed, cpusAllowed := seq(size, n => if n == 0 then mems else {}), seq(size, n => if n == 0 then cpus else {});
      effectiveMems := seq(size, n => if n == 0 || v2 then mems else {});
      effectiveCpus := seq(size, n => if n == 0 || v2 then cpus else {});
      useParentEcpus := seq(size, n => n != 0 && v2);
      childEcpusCount := seq(size, p requires 0 <= p < size => if v2 then |tree.kids[p]| else 0);
      new;
      forall p | 0 <= p < size ensures childEcpusCount[p] == (assert Ascends(tree.kids[p]); Users(useParentEcpus, tree.kids[p])) {
        UsersAlike(useParentEcpus, tree.kids[p], v2);
      }
    }

    method NewMems(cp: Node) returns (newMems: Mask)
      requires Shape() && 0 < cp && tree.Has(cp)
      ensures newMems == Combine(v2, memsAllowed[cp], effectiveMems[tree.parent[cp]])
    {
      var parent := tree.parent[cp];
      newMems := memsAllowed[cp] * effectiveMems[parent];
      if v2 && newMems == {} {
        newMems := effectiveMems[parent];
      }
    }

    /** The walk of update_nodemasks_hier has the nodes of rest before it. */
    ghost predicate MemsWalk(cs: Node, pos: Option<Node>, rest: seq<Node>)
      requires Shape() && tree.Has(cs)
      reads this
    {
      Remaining(tree, cs, pos, rest) && Walking(tree, Agreeing(tree, v2, memsAllowed, effectiveMems), rest)
    }

    /** The loop body of update_nodemasks_hier. */
    method VisitMems(cs: Node, cp: Node, ghost rest: seq<Node>) returns (pos: Option<Node>, ghost rest': seq<Node>)
      requires Shape() && 0 < cs && tree.Has(cs) && tree.Linked(cs) && MemsWalk(cs, Some(cp), rest)
      modifies this`effectiveMems
      ensures Shape() && MemsWalk(cs, pos, rest') && |rest'| < |rest|
      ensures rest' == (if effectiveMems == old(effectiveMems) then [] else tree.PreFrom(cp, 0)) + tree.AfterPre(cs, cp)
      ensures tree.Below(cs, cp)
      ensures forall n: Node | n < |effectiveMems| && n != cp :: effectiveMems[n] == old(effectiveMems[n])
    {
      LinkedBelow(tree, cs, cp);
      var newMems := NewMems(cp);
      ghost var ok := Agreeing(tree, v2, memsAllowed, effectiveMems);
      if newMems == effectiveMems[cp] {
        // the node mask stays: skip the whole subtree
        SkipKeepsWalking(tree, ok, cs, cp);
        pos := SkipSubtree(tree, cs, cp);
        rest' := tree.AfterPre(cs, cp);
      } else {
        effectiveMems := effectiveMems[cp := newMems];
        VisitKeepsWalking(tree, ok, Agreeing(tree, v2, memsAllowed, effectiveMems), cs, cp);
        rest' := tree.PreFrom(cp, 0) + tree.AfterPre(cs, cp);
        pos := NextPre(tree, cp, cs);
      }
    }

    /** update_nodemasks_hier. */
    method UpdateNodemasksHier(cs: Node)
      requires Shape() && 0 < cs && tree.Has(cs) && tree.Linked(cs) && MemsConsistent({cs})
      modifies this`effectiveMems
      ensures Shape() && MemsConsistent({})
      ensures forall n: Node | n < |effectiveMems| && !tree.Below(cs, n) :: effectiveMems[n] == old(effectiveMems[n])
    {
      var pos := NextDescendantPre(tree, None, cs);
      ghost var rest := tree.Pre(cs);
      assert rest == tree.Pre(cs) + tree.AfterPre(cs, cs);
      WalkStarts(tree, Agreeing(tree, v2, memsAllowed, effectiveMems), cs);
      while pos.Some?
        invariant Shape() && MemsWalk(cs, pos, rest)
        invariant forall n: Node | n < |effectiveMems| && !tree.Below(cs, n) :: effectiveMems[n] == old(effectiveMems[n])
        decreases |rest|
      {
        pos, rest := VisitMems(cs, pos.value, rest);
      }
    }

    /** The write to cpuset.mems: afterwards every mask is what full recomputation gives. */
    method UpdateNodemask(cs: Node, mask: Mask)
      requires Shape() && 0 < cs && tree.Has(cs) && tree.Linked(cs) && MemsConsistent({})
      modifies this`memsAllowed, this`effectiveMems
      ensures Shape() && MemsConsistent({})
      ensures memsAllowed == old(memsAllowed)[cs := mask] && effectiveMems[0] == old(effectiveMems[0])
      ensures AllWithin(tree, v2, memsAllowed, effectiveMems)
      ensures forall n: Node | tree.Has(n) && tree.Below(0, n) ::
                effectiveMems[n] == Full(tree, v2, old(memsAllowed)[cs := mask], old(effectiveMems[0]), n)
    {
      if memsAllowed[cs] == mask {
        assert memsAllowed == memsAllowed[cs := mask];
      } else {
        memsAllowed := memsAllowed[cs := mask];
        UpdateNodemasksHier(cs);
      }
      ConsistentIsWithin(tree, v2, memsAllowed, effectiveMems);
      forall n: Node | tree.Has(n) && tree.Below(0, n)
        ensures effectiveMems[n] == Full(tree, v2, memsAllowed, effectiveMems[0], n)
      {
        ConsistentIsFull(tree, v2, memsAllowed, effectiveMems, n);
      }
    }

    // -------------------------------------------------------------------------
    // update_cpumasks_hier, no partition roots
    // -------------------------------------------------------------------------

    ghost predicate CountsOk()
      requires Shape()
      reads this
    {
      Counted(tree, useParentEcpus, childEcpusCount)
    }

    /**
     The new effective mask of cp; its use_parent_ecpus flag and the parent's count of
     such children follow.
    */
    method NewCpus(cp: Node) returns (newCpus: Mask)
      requires Shape() && CountsOk() && 0 < cp && tree.Has(cp) && tree.Linked(cp)
      modifies this`useParentEcpus, this`childEcpusCount
      ensures Shape() && CountsOk()
      ensures newCpus == Combine(v2, cpusAllowed[cp], effectiveCpus[tree.parent[cp]])
      ensures useParentEcpus == old(useParentEcpus)[cp := v2 && cpusAllowed[cp] * effectiveCpus[tree.parent[cp]] == {}]
    {
      var parent := tree.parent[cp];
      newCpus := cpusAllowed[cp] * effectiveCpus[parent];
      if v2 && newCpus == {} {
        newCpus := effectiveCpus[parent];
        if !useParentEcpus[cp] {
          FlipKeepsCounted(tree, useParentEcpus, childEcpusCount, cp, true);
          useParentEcpus := useParentEcpus[cp := true];
          childEcpusCount := childEcpusCount[parent := childEcpusCount[parent] + 1];
        }
      } else if useParentEcpus[cp] {
        FlipKeepsCounted(tree, useParentEcpus, childEcpusCount, cp, false);
        useParentEcpus := useParentEcpus[cp := false];
        assert childEcpusCount[parent] > 0;  // the source warns otherwise
        childEcpusCount := childEcpusCount[parent := childEcpusCount[parent] - 1];
      }
    }

    ghost predicate CpusWalk(cs: Node, pos: Option<Node>, rest: seq<Node>)
      requires Shape() && tree.Has(cs)
      reads this
    {
      && Remaining(tree, cs, pos, rest)
      && Walking(tree, AgreeingFlags(tree, v2, cpusAllowed, effectiveCpus, useParentEcpus), rest)
    }

    /** The loop body of update_cpumasks_hier. */
    method VisitCpus(cs: Node, cp: Node, ghost rest: seq<Node>) returns (pos: Option<Node>, ghost rest': seq<Node>)
      requires Shape() && CountsOk() && 0 < cs && tree.Has(cs) && tree.Linked(cs) && CpusWalk(cs, Some(cp), rest)
      modifies this`effectiveCpus, this`useParentEcpus, this`childEcpusCount
      ensures Shape() && CountsOk() && CpusWalk(cs, pos, rest') && |rest'| < |rest|
      ensures rest' == (if effectiveCpus == old(effectiveCpus) then [] else tree.PreFrom(cp, 0)) + tree.AfterPre(cs, cp)
      ensures tree.Below(cs, cp)
      ensures forall n: Node | n < |effectiveCpus| && n != cp ::
                effectiveCpus[n] == old(effectiveCpus[n]) && useParentEcpus[n] == old(useParentEcpus[n])
    {
      hide Tree.AfterPre, Tree.PreFrom, Tree.Below, Walking;
      LinkedBelow(tree, cs, cp);
      ghost var ok := AgreeingFlags(tree, v2, cpusAllowed, effectiveCpus, useParentEcpus);
      var newCpus := NewCpus(cp);
      if newCpus == effectiveCpus[cp] {
        // the mask stays and there is no partition root: skip the whole subtree
        ghost var ok' := AgreeingFlags(tree, v2, cpusAllowed, effectiveCpus, useParentEcpus);
        MoreOk(tree, ok, ok', rest);
        SkipKeepsWalking(tree, ok', cs, cp);
        pos := SkipSubtree(tree, cs, cp);
        rest' := tree.AfterPre(cs, cp);
      } else {
        effectiveCpus := effectiveCpus[cp := newCpus];
        VisitKeepsWalking(tree, ok, AgreeingFlags(tree, v2, cpusAllowed, effectiveCpus, useParentEcpus), cs, cp);
        rest' := tree.PreFrom(cp, 0) + tree.AfterPre(cs, cp);
        pos := NextPre(tree, cp, cs);
      }
    }

    /** update_cpumasks_hier. */
    method UpdateCpumasksHier(cs: Node)
      requires Shape() && CountsOk() && 0 < cs && tree.Has(cs) && tree.Linked(cs) && CpusConsistent({cs})
      modifies this`effectiveCpus, this`useParentEcpus, this`childEcpusCount
      ensures Shape() && CountsOk() && CpusConsistent({})
      ensures forall n: Node | n < |effectiveCpus| && !tree.Below(cs, n) ::
                effectiveCpus[n] == old(effectiveCpus[n]) && useParentEcpus[n] == old(useParentEcpus[n])
    {
      var pos := NextDescendantPre(tree, None, cs);
      ghost var rest := tree.Pre(cs);
      assert rest == tree.Pre(cs) + tree.AfterPre(cs, cs);
      WalkStarts(tree, AgreeingFlags(tree, v2, cpusAllowed, effectiveCpus, useParentEcpus), cs);
      while pos.Some?
        invariant Shape() && CountsOk() && CpusWalk(cs, pos, rest)
        invariant forall n: Node | n < |effectiveCpus| && !tree.Below(cs, n) ::
                    effectiveCpus[n] == old(effectiveCpus[n]) && useParentEcpus[n] == old(useParentEcpus[n])
        decreases |rest|
      {
        pos, rest := VisitCpus(cs, pos.value, rest);
      }
    }

    /** The write to cpuset.cpus of a cpuset without partition state. */
    method UpdateCpumask(cs: Node, mask: Mask)
      requires Shape() && CountsOk() && 0 < cs && tree.Has(cs) && tree.Linked(cs) && CpusConsistent({})
      modifies this`cpusAllowed, this`effectiveCpus, this`useParentEcpus, this`childEcpusCount
      ensures Shape() && CountsOk() && CpusConsistent({})
      ensures cpusAllowed == old(cpusAllowed)[cs := mask] && effectiveCpus[0] == old(effectiveCpus[0])
      ensures AllWithin(tree, v2, cpusAllowed, effectiveCpus)
      ensures forall n: Node | tree.Has(n) && tree.Below(0, n) ::
                effectiveCpus[n] == Full(tree, v2, old(cpusAllowed)[cs := mask], old(effectiveCpus[0]), n)
      ensures forall p: Node | tree.Has(p) ::
                childEcpusCount[p] == |set c: Node | c in tree.kids[p] && v2 && cpusAllowed[c] * effectiveCpus[p] == {}|
    {
      if cpusAllowed[cs] == mask {
        assert cpusAllowed == cpusAllowed[cs := mask];
      } else {
        cpusAllowed := cpusAllowed[cs := mask];
        UpdateCpumasksHier(cs);
      }
      ConsistentIsWithin(tree, v2, cpusAllowed, effectiveCpus);
      forall n: Node | tree.Has(n) && tree.Below(0, n)
        ensures effectiveCpus[n] == Full(tree, v2, cpusAllowed, effectiveCpus[0], n)
      {
        ConsistentIsFull(tree, v2, cpusAllowed, effectiveCpus, n);
      }
      forall p: Node | tree.Has(p)
        ensures childEcpusCount[p] == |set c: Node | c in tree.kids[p] && v2 && cpusAllowed[c] * effectiveCpus[p] == {}|
      {
        assert Ascends(tree.kids[p]);
        UsersAsSet(useParentEcpus, tree.kids[p]);
        forall c: Node | c in tree.kids[p] ensures useParentEcpus[c] == (v2 && cpusAllowed[c] * effectiveCpus[p] == {}) {
          assert tree.Has(c) && tree.Linked(c);
        }
        assert (set c: Node | c in tree.kids[p] && v2 && cpusAllowed[c] * effectiveCpus[p] == {})
            == UserSet(useParentEcpus, tree.kids[p]);
      }
    }
  }

  ghost function UserSet(flags: seq<bool>, ks: seq<Node>): set<Node>
    requires forall i | 0 <= i < |ks| :: ks[i] < |flags|
  {
    set c: Node | c in ks && flags[c]
  }

  lemma {:induction false} UsersAsSet(flags: seq<bool>, ks: seq<Node>)
    requires (forall i | 0 <= i < |ks| :: ks[i] < |flags|) && Distinct(ks)
    ensures Users(flags, ks) == |UserSet(flags, ks)|
  {
    if ks != [] {
      var k, tail := ks[0], ks[1..];
      UsersAsSet(flags, tail);
      assert k !in tail && forall c :: c in ks <==> c == k || c in tail;
      var rest := UserSet(flags, tail);
      assert k !in rest && UserSet(flags, ks) == if flags[k] then rest + {k} else rest;
    }
  }

  lemma MoreOk(t: Tree, ok: set<Node>, ok': set<Node>, rest: seq<Node>)
    requires t.Valid() && Walking(t, ok, rest) && forall x: Node | t.Has(x) && t.Linked(x) && x in ok :: x in ok'
    ensures Walking(t, ok', rest)
  {}

  lemma LinkedBelow(t: Tree, cs: Node, n: Node)
    requires t.Valid() && t.Has(cs) && t.Has(n) && t.Linked(cs) && t.Below(cs, n)
    ensures t.Linked(n)
  {}
}
