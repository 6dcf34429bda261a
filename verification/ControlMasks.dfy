/**
 Controller masks (cgroup.c): the fixpoint over controller dependencies, the propagation
 of masks through a subtree, and the rollback of a failed change.
*/
module ControlMasks {
  import opened CgroupTree

  type Mask = set<nat>

  /** depends_on of every subsystem and the masks that are the same for the whole hierarchy. */
  datatype Config = Config(depends: seq<Mask>, subsys: Mask, inhibit: Mask, implicit: Mask, threaded: Mask, onDfl: bool)

  // ---------------------------------------------------------------------------
  // cgroup_calc_subtree_ss_mask
  // ---------------------------------------------------------------------------

  /** What the subsystems of cur below n depend on. */
  ghost function DependsUpTo(depends: seq<Mask>, cur: Mask, n: nat): Mask
    requires n <= |depends|
  {
    set i, d | 0 <= i < n && d in depends[i] && i in cur :: d
  }

  ghost function Grow(depends: seq<Mask>, cur: Mask, avail: Mask): Mask {
    (cur + DependsUpTo(depends, cur, |depends|)) * avail
  }

  /** The mask is closed under the dependencies that are available. */
  ghost predicate Closed(depends: seq<Mask>, m: Mask, avail: Mask) {
    DependsUpTo(depends, m, |depends|) * avail <= m
  }

  ghost function Fix(depends: seq<Mask>, cur: Mask, avail: Mask): Mask
    requires cur <= avail
    decreases |avail - cur|
  {
    var next := Grow(depends, cur, avail);
    if next == cur then cur
    else
      Shrinks(avail, cur, next);
      Fix(depends, next, avail)
  }

  lemma Shrinks(avail: Mask, cur: Mask, next: Mask)
    requires cur < next <= avail
    ensures |avail - next| < |avail - cur|
  {
    assert avail - cur == (avail - next) + (next - cur);
  }

  /** The available part of the requested and implicit subsystems and of what these depend on. */
  ghost function Base(conf: Config, control: Mask, avail: Mask): Mask {
    Grow(conf.depends, control + conf.implicit, avail)
  }

  ghost function Calc(conf: Config, control: Mask, avail: Mask): Mask {
    Fix(conf.depends, Base(conf, control, avail), avail)
  }

  lemma DependsGrow(depends: seq<Mask>, a: Mask, b: Mask)
    requires a <= b
    ensures DependsUpTo(depends, a, |depends|) <= DependsUpTo(depends, b, |depends|)
  {}

  lemma {:induction false} FixIsLeast(depends: seq<Mask>, cur: Mask, avail: Mask, m: Mask)
    requires cur <= avail
    ensures cur <= Fix(depends, cur, avail) <= avail && Closed(depends, Fix(depends, cur, avail), avail)
    ensures cur <= m <= avail && Closed(depends, m, avail) ==> Fix(depends, cur, avail) <= m
    decreases |avail - cur|
  {
    var next := Grow(depends, cur, avail);
    if next != cur {
      Shrinks(avail, cur, next);
      if cur <= m { DependsGrow(depends, cur, m); }
      FixIsLeast(depends, next, avail, m);
    }
  }

  /**
   The calculated mask is the least one within the available subsystems that is closed
   under available dependencies and holds the available part of the requested and implicit
   subsystems and of their dependencies.
  */
  lemma CalcIsLeast(conf: Config, control: Mask, avail: Mask)
    ensures var m := Calc(conf, control, avail);
      && m <= avail && Closed(conf.depends, m, avail) && Base(conf, control, avail) <= m
      && control * avail <= m
      && forall x: Mask :: Base(conf, control, avail) <= x <= avail && Closed(conf.depends, x, avail) ==> m <= x
  {
    forall x: Mask
      ensures Base(conf, control, avail) <= x <= avail && Closed(conf.depends, x, avail) ==> Calc(conf, control, avail) <= x
    {
      FixIsLeast(conf.depends, Base(conf, control, avail), avail, x);
    }
    FixIsLeast(conf.depends, Base(conf, control, avail), avail, avail);
  }

  /** The inner loop of cgroup_calc_subtree_ss_mask. */
  method AddDepends(depends: seq<Mask>, cur: Mask) returns (next: Mask)
    ensures next == cur + DependsUpTo(depends, cur, |depends|)
  {
    next := cur;
    for ssid := 0 to |depends|
      invariant next == cur + DependsUpTo(depends, cur, ssid)
    {
      if ssid in cur {
        next := next + depends[ssid];
      }
    }
  }

  /** The loop of cgroup_calc_subtree_ss_mask ends with that mask. */
  method CalcSubtreeSsMask(conf: Config, control: Mask, avail: Mask) returns (m: Mask)
    ensures m == Calc(conf, control, avail)
  {
    hide DependsUpTo;
    var cur := control + conf.implicit;
    while true
      invariant Fix(conf.depends, Grow(conf.depends, cur, avail), avail) == Calc(conf, control, avail)
      decreases if cur <= avail then |avail - cur| else |avail| + 1
    {
      var next := AddDepends(conf.depends, cur);
      // mask out what is not available
      next := next * avail;
      if next == cur {
        break;
      }
      if cur <= avail {
        Shrinks(avail, cur, next);
      } else {
        assert avail == next + (avail - next);
      }
      cur := next;
    }
    return cur;
  }

  // ---------------------------------------------------------------------------
  // The masks of the hierarchy
  // ---------------------------------------------------------------------------

  /** subtree_control, subtree_ss_mask and dom_cgrp of every cgroup. */
  datatype Masks = Masks(control: seq<Mask>, ss: seq<Mask>, dom: seq<Node>)

  ghost predicate Sized(t: Tree, m: Masks) {
    t.Valid() && |m.control| == |m.ss| == |m.dom| == |t.parent|
  }

  /** cgroup_is_threaded */
  predicate IsThreaded(m: Masks, n: Node)
    requires n < |m.dom|
  {
    m.dom[n] != n
  }

  function Limit(conf: Config, m: Masks, n: Node, mask: Mask): Mask
    requires n < |m.dom|
  {
    if IsThreaded(m, n) then mask * conf.threaded else mask
  }

  /** cgroup_control: the subsystems visibly enabled on n. */
  function Control(conf: Config, t: Tree, m: Masks, n: Node): Mask
    requires t.Has(n) && |m.control| == |m.dom| == |t.parent| && (0 < n ==> t.parent[n] < n)
  {
    if n != 0 then Limit(conf, m, n, m.control[t.parent[n]])
    else if conf.onDfl then conf.subsys - (conf.inhibit + conf.implicit)
    else conf.subsys
  }

  /** cgroup_ss_mask: the subsystems enabled on n. */
  function SsMask(conf: Config, t: Tree, m: Masks, n: Node): Mask
    requires t.Has(n) && |m.ss| == |m.dom| == |t.parent| && (0 < n ==> t.parent[n] < n)
  {
    if n != 0 then Limit(conf, m, n, m.ss[t.parent[n]]) else conf.subsys
  }

  // What the masks may hold, one subsystem at a time and in terms of the fields alone.

  /** s may be enabled for the children of n: it is enabled for n by the parent, and a threaded n has threaded ones only. */
  ghost predicate MayControl(conf: Config, t: Tree, m: Masks, n: Node, s: nat)
    requires Sized(t, m) && t.Has(n)
  {
    if n == 0 then s in conf.subsys && (conf.onDfl ==> s !in conf.inhibit && s !in conf.implicit)
    else s in m.control[t.parent[n]] && (m.dom[n] != n ==> s in conf.threaded)
  }

  /** s may be enabled, visibly or not, for the children of n. */
  ghost predicate MayHold(conf: Config, t: Tree, m: Masks, n: Node, s: nat)
    requires Sized(t, m) && t.Has(n)
  {
    if n == 0 then s in conf.subsys
    else s in m.ss[t.parent[n]] && (m.dom[n] != n ==> s in conf.threaded)
  }

  /** s is visibly enabled for the children of n, implicit, or one that such a one or one of x depends on. */
  ghost predicate Called(conf: Config, m: Masks, n: Node, x: Mask, s: nat)
    requires n < |m.control|
  {
    || s in m.control[n] || s in conf.implicit
    || exists i {:trigger conf.depends[i]} :: 0 <= i < |conf.depends| && s in conf.depends[i] && (i in m.control[n] || i in conf.implicit || i in x)
  }

  /** x holds everything that is called for and may be held. */
  ghost predicate Complete(conf: Config, t: Tree, m: Masks, n: Node, x: Mask)
    requires Sized(t, m) && t.Has(n)
  {
    forall s {:trigger s in x} | Called(conf, m, n, x, s) && MayHold(conf, t, m, n, s) :: s in x
  }

  /**
   The masks of n for the requested controllers: subtree_control has those that it may have,
   and subtree_ss_mask is the least complete mask and within what may be held.
  */
  ghost predicate Granted(conf: Config, t: Tree, requested: Mask, m: Masks, n: Node)
    requires Sized(t, m) && t.Has(n)
  {
    && (forall s {:trigger s in m.control[n]} :: s in m.control[n] <==> s in requested && MayControl(conf, t, m, n, s))
    && (forall s {:trigger s in m.ss[n]} | s in m.ss[n] :: MayHold(conf, t, m, n, s))
    && Complete(conf, t, m, n, m.ss[n])
    && forall x: Mask {:trigger Complete(conf, t, m, n, x)} | Complete(conf, t, m, n, x) :: m.ss[n] <= x
  }

  lemma AllowedMeans(conf: Config, t: Tree, m: Masks, n: Node, s: nat)
    requires Sized(t, m) && t.Has(n)
    ensures s in Control(conf, t, m, n) <==> MayControl(conf, t, m, n, s)
    ensures s in SsMask(conf, t, m, n) <==> MayHold(conf, t, m, n, s)
  {}

  /** Complete masks are those that hold the base of the calculation and are closed. */
  lemma CompleteMeans(conf: Config, t: Tree, m: Masks, n: Node, x: Mask)
    requires Sized(t, m) && t.Has(n)
    ensures var avail := SsMask(conf, t, m, n);
      Complete(conf, t, m, n, x) <==> Base(conf, m.control[n], avail) <= x && Closed(conf.depends, x, avail)
  {
    hide Control, SsMask, MayControl, MayHold;
    var avail, cur, k := SsMask(conf, t, m, n), m.control[n] + conf.implicit, |conf.depends|;
    forall s ensures Called(conf, m, n, x, s) <==> s in cur || s in DependsUpTo(conf.depends, cur, k) || s in DependsUpTo(conf.depends, x, k) {}
    forall s ensures s in avail <==> MayHold(conf, t, m, n, s) { AllowedMeans(conf, t, m, n, s); }
    assert forall s :: s in Base(conf, m.control[n], avail) <==> s in avail && (s in cur || s in DependsUpTo(conf.depends, cur, k));
  }

  /** Such masks are exactly what a round of the propagation computes. */
  lemma GrantedIs(conf: Config, t: Tree, requested: Mask, m: Masks, n: Node)
    requires Sized(t, m) && t.Has(n)
    ensures Granted(conf, t, requested, m, n) <==>
      m.control[n] == requested * Control(conf, t, m, n) && m.ss[n] == Calc(conf, m.control[n], SsMask(conf, t, m, n))
  {
    hide Control, SsMask, MayControl, MayHold, Complete, Calc, Closed, Base;
    var avail, fix := SsMask(conf, t, m, n), Calc(conf, m.control[n], SsMask(conf, t, m, n));
    forall s ensures s in Control(conf, t, m, n) <==> MayControl(conf, t, m, n, s) { AllowedMeans(conf, t, m, n, s); }
    forall s ensures s in avail <==> MayHold(conf, t, m, n, s) { AllowedMeans(conf, t, m, n, s); }
    CalcIsLeast(conf, m.control[n], avail);
    CompleteMeans(conf, t, m, n, fix);
    CompleteMeans(conf, t, m, n, m.ss[n]);
    forall x: Mask | Complete(conf, t, m, n, x) ensures fix <= x {
      CompleteMeans(conf, t, m, n, x);
      CompleteInside(conf, m.control[n], avail, x);
    }
  }

  /** What is held beyond the available subsystems does not matter. */
  lemma CompleteInside(conf: Config, control: Mask, avail: Mask, x: Mask)
    requires Base(conf, control, avail) <= x && Closed(conf.depends, x, avail)
    ensures Calc(conf, control, avail) <= x
  {
    DependsGrow(conf.depends, x * avail, x);
    CalcIsLeast(conf, control, avail);
    assert Base(conf, control, avail) <= x * avail <= avail && Closed(conf.depends, x * avail, avail);
  }

  /** Refreshing the masks of n changes nothing. */
  ghost predicate Stable(conf: Config, t: Tree, m: Masks, n: Node)
    requires Sized(t, m) && t.Has(n)
  {
    && m.control[n] <= Control(conf, t, m, n)
    && m.ss[n] == Calc(conf, m.control[n], SsMask(conf, t, m, n))
  }

  /** One round of cgroup_propagate_control. */
  ghost function Refresh(conf: Config, t: Tree, m: Masks, n: Node): Masks
    requires Sized(t, m) && t.Has(n)
  {
    var c := m.control[n] * Control(conf, t, m, n);
    m.(control := m.control[n := c], ss := m.ss[n := Calc(conf, c, SsMask(conf, t, m, n))])
  }

  lemma RefreshStable(conf: Config, t: Tree, m: Masks, n: Node)
    requires Sized(t, m) && t.Has(n)
    ensures Sized(t, Refresh(conf, t, m, n)) && Stable(conf, t, Refresh(conf, t, m, n), n)
    ensures forall x: Node | t.Has(x) && x != n && (x == 0 || t.parent[x] != n) ::
      Stable(conf, t, Refresh(conf, t, m, n), x) == Stable(conf, t, m, x)
    ensures Stable(conf, t, m, n) ==> Refresh(conf, t, m, n) == m
  {
    if Stable(conf, t, m, n) {
      assert m.control[n] * Control(conf, t, m, n) == m.control[n];
    }
  }

  /** In a stable hierarchy, what is enabled for the children is within what is enabled on the cgroup. */
  lemma {:induction false} StableNested(conf: Config, t: Tree, m: Masks, n: Node)
    requires Sized(t, m) && t.Has(n)
    requires forall a | t.Has(a) && t.Below(a, n) && t.Below(0, a) :: Stable(conf, t, m, a)
    requires t.Below(0, n)
    ensures m.control[n] <= m.ss[n] <= SsMask(conf, t, m, n) && Control(conf, t, m, n) <= SsMask(conf, t, m, n)
    decreases n
  {
    CalcIsLeast(conf, m.control[n], SsMask(conf, t, m, n));
    if n != 0 {
      var p := t.parent[n];
      forall a | t.Has(a) && t.Below(a, p) && t.Below(0, a) ensures Stable(conf, t, m, a) {
        BelowAbove(t, a, p);
        assert t.Below(a, n);
      }
      StableNested(conf, t, m, p);
    }
    assert m.control[n] * SsMask(conf, t, m, n) == m.control[n];
  }

  ghost predicate SameAt(a: Masks, b: Masks, n: Node)
    requires n < |a.control| == |a.ss| == |a.dom| && n < |b.control| == |b.ss| == |b.dom|
  {
    a.control[n] == b.control[n] && a.ss[n] == b.ss[n] && a.dom[n] == b.dom[n]
  }

  /** a with the masks of n taken from b. */
  function CopyAt(a: Masks, b: Masks, n: Node): Masks
    requires n < |a.control| == |a.ss| == |a.dom| && n < |b.control| == |b.ss| == |b.dom|
  {
    Masks(a.control[n := b.control[n]], a.ss[n := b.ss[n]], a.dom[n := b.dom[n]])
  }

  ghost predicate Inside(t: Tree, live: seq<bool>, cgrp: Node, n: Node)
    requires t.Valid() && t.Has(n) && |live| == |t.parent|
  {
    live[n] && t.Below(cgrp, n)
  }

  /** a and b are the same in the live subtree of cgrp. */
  ghost predicate SameInside(t: Tree, live: seq<bool>, a: Masks, b: Masks, cgrp: Node)
    requires Sized(t, a) && Sized(t, b) && |live| == |t.parent|
  {
    forall n: Node {:trigger SameAt(a, b, n)} | t.Has(n) && Inside(t, live, cgrp, n) :: SameAt(a, b, n)
  }

  /** a and b are the same outside the live subtree of cgrp. */
  ghost predicate SameOutside(t: Tree, live: seq<bool>, a: Masks, b: Masks, cgrp: Node)
    requires Sized(t, a) && Sized(t, b) && |live| == |t.parent|
  {
    forall n: Node {:trigger SameAt(a, b, n)} | t.Has(n) && !Inside(t, live, cgrp, n) :: SameAt(a, b, n)
  }

  lemma SameEverywhere(t: Tree, live: seq<bool>, a: Masks, b: Masks, cgrp: Node)
    requires Sized(t, a) && Sized(t, b) && |live| == |t.parent|
    requires SameInside(t, live, a, b, cgrp) && SameOutside(t, live, a, b, cgrp)
    ensures a == b
  {
    forall n: Node | t.Has(n) ensures a.control[n] == b.control[n] && a.ss[n] == b.ss[n] && a.dom[n] == b.dom[n] {
      assert SameAt(a, b, n);
    }
    assert a.control == b.control && a.ss == b.ss && a.dom == b.dom;
  }

  ghost predicate StableInside(conf: Config, t: Tree, live: seq<bool>, m: Masks, cgrp: Node)
    requires Sized(t, m) && |live| == |t.parent|
  {
    forall n: Node {:trigger Stable(conf, t, m, n)} | t.Has(n) && Inside(t, live, cgrp, n) :: Stable(conf, t, m, n)
  }

  /** Refreshed: stable, its control mask the old one as far as that is still available. */
  ghost predicate Refreshed(conf: Config, t: Tree, was: Masks, m: Masks, n: Node)
    requires Sized(t, m) && Sized(t, was) && t.Has(n)
  {
    Stable(conf, t, m, n) && m.control[n] == was.control[n] * Control(conf, t, m, n)
  }

  /** In a propagation, the first k cgroups of the walk are refreshed, the others as they were. */
  ghost predicate Propagated(conf: Config, t: Tree, live: seq<bool>, was: Masks, m: Masks, cgrp: Node, k: nat)
    requires Sized(t, m) && Sized(t, was) && |live| == |t.parent| && t.Has(cgrp) && k <= |t.Pre(cgrp)|
  {
    && m.dom == was.dom
    && (forall n: Node {:trigger Refreshed(conf, t, was, m, n)} | t.Has(n) && live[n] && n in t.Pre(cgrp)[..k] :: Refreshed(conf, t, was, m, n))
    && (forall n: Node {:trigger SameAt(was, m, n)} | t.Has(n) && !(live[n] && n in t.Pre(cgrp)[..k]) :: SameAt(was, m, n))
    && (StableInside(conf, t, live, was, cgrp) ==> m == was)
  }

  lemma RefreshPropagates(conf: Config, t: Tree, live: seq<bool>, was: Masks, m: Masks, cgrp: Node, k: nat)
    requires Sized(t, m) && Sized(t, was) && |live| == |t.parent| && t.Has(cgrp) && k < |t.Pre(cgrp)|
    requires Propagated(conf, t, live, was, m, cgrp, k)
    ensures var n := t.Pre(cgrp)[k];
      && t.Has(n) && t.Below(cgrp, n)
      && Propagated(conf, t, live, was, if live[n] then Refresh(conf, t, m, n) else m, cgrp, k + 1)
  {
    var q, n := t.Pre(cgrp), t.Pre(cgrp)[k];
    PreWalkAdvances(t, cgrp, k);
    assert q[..k + 1] == q[..k] + [n];
    if live[n] {
      RefreshNext(conf, t, live, was, m, cgrp, k, n);
    }
  }

  lemma RefreshNext(conf: Config, t: Tree, live: seq<bool>, was: Masks, m: Masks, cgrp: Node, k: nat, n: Node)
    requires Sized(t, m) && Sized(t, was) && |live| == |t.parent| && t.Has(cgrp) && k < |t.Pre(cgrp)|
    requires Propagated(conf, t, live, was, m, cgrp, k) && t.Pre(cgrp)[k] == n && t.Has(n) && t.Below(cgrp, n) && live[n]
    ensures Propagated(conf, t, live, was, Refresh(conf, t, m, n), cgrp, k + 1)
  {
    var q, m' := t.Pre(cgrp), Refresh(conf, t, m, n);
    PreDistinct(t, cgrp);
    assert q[..k + 1] == q[..k] + [n] && n !in q[..k];
    RefreshStable(conf, t, m, n);
    assert SameAt(was, m, n);
    assert Refreshed(conf, t, was, m', n);
    forall x: Node | t.Has(x) && live[x] && x in q[..k] ensures Refreshed(conf, t, was, m', x) {
      VisitedBefore(t, cgrp, k, x);
      assert Refreshed(conf, t, was, m, x);
    }
    forall x: Node | t.Has(x) && !(live[x] && x in q[..k + 1]) ensures SameAt(was, m', x) {
      assert SameAt(was, m, x);
    }
    if StableInside(conf, t, live, was, cgrp) {
      assert Inside(t, live, cgrp, n) && Stable(conf, t, was, n);
    }
  }

  /** A cgroup visited earlier is neither the k-th one nor its child. */
  lemma VisitedBefore(t: Tree, cgrp: Node, k: nat, x: Node)
    requires t.Valid() && t.Has(cgrp) && k < |t.Pre(cgrp)| && x in t.Pre(cgrp)[..k] && t.Has(x)
    ensures x != t.Pre(cgrp)[k] && (x == 0 || t.parent[x] != t.Pre(cgrp)[k])
  {
    var q := t.Pre(cgrp);
    PreDistinct(t, cgrp);
    var j :| 0 <= j < k && q[..k][j] == x;
    ParentBefore(t, cgrp, j);
    ParentBefore(t, cgrp, k);
    if x == cgrp {
      BelowAbove(t, cgrp, q[k]);
    } else {
      var i :| 0 <= i < j && q[..j][i] == t.parent[x];
      assert q[i] != q[k];
    }
    assert q[j] != q[k];
  }

  /** The resource domain of n once cgrp joins the domain dom: cgrp and what was threaded follow. */
  ghost function NewDom(m: Masks, cgrp: Node, dom: Node, n: Node): Node
    requires n < |m.dom|
  {
    if n == cgrp || m.dom[n] != n then dom else m.dom[n]
  }

  class ControlHierarchy {
    const conf: Config
    const t: Tree
    const live: seq<bool>
    var m: Masks
    var saved: Masks        // the old_ fields

    ghost predicate Shape()
      reads this
    {
      Sized(t, m) && Sized(t, saved) && |live| == |t.parent|
    }

    constructor (conf: Config, t: Tree, live: seq<bool>, m: Masks)
      requires Sized(t, m) && |live| == |t.parent|
      ensures Shape() && this.conf == conf && this.t == t && this.live == live && this.m == m
    {
      this.conf, this.t, this.live, this.m, saved := conf, t, live, m, m;
    }

    /** cgroup_save_control. */
    method Save(cgrp: Node)
      requires Shape() && t.Has(cgrp)
      modifies `saved
      ensures Shape() && SameInside(t, live, m, saved, cgrp) && SameOutside(t, live, old(saved), saved, cgrp)
    {
      ghost var was := saved;
      var order := ForEachDescendantPre(t, cgrp);
      for k := 0 to |order|
        invariant Shape() && SameOutside(t, live, was, saved, cgrp)
        invariant forall j | 0 <= j < k && live[order[j]] :: SameAt(m, saved, order[j])
      {
        if live[order[k]] {
          assert Inside(t, live, cgrp, order[k]);
          ghost var before := saved;
          saved := CopyAt(saved, m, order[k]);
          forall n: Node | t.Has(n) && !Inside(t, live, cgrp, n) ensures SameAt(was, saved, n) {
            assert SameAt(was, before, n);
          }
        }
      }
    }

    /** cgroup_restore_control. */
    method Restore(cgrp: Node)
      requires Shape() && t.Has(cgrp)
      modifies `m
      ensures Shape() && SameInside(t, live, saved, m, cgrp) && SameOutside(t, live, old(m), m, cgrp)
    {
      ghost var was := m;
      var order := ForEachDescendantPost(t, cgrp);
      for k := 0 to |order|
        invariant Shape() && SameOutside(t, live, was, m, cgrp)
        invariant forall j | 0 <= j < k && live[order[j]] :: SameAt(saved, m, order[j])
      {
        if live[order[k]] {
          assert Inside(t, live, cgrp, order[k]);
          ghost var before := m;
          m := CopyAt(m, saved, order[k]);
          forall n: Node | t.Has(n) && !Inside(t, live, cgrp, n) ensures SameAt(was, m, n) {
            assert SameAt(was, before, n);
          }
        }
      }
    }

    /**
     cgroup_propagate_control: afterwards the subtree is stable, and if it was stable
     nothing has changed.
    */
    method Propagate(cgrp: Node)
      requires Shape() && t.Has(cgrp)
      modifies `m
      ensures Shape() && m.dom == old(m.dom) && SameOutside(t, live, old(m), m, cgrp)
      ensures forall n: Node | t.Has(n) && Inside(t, live, cgrp, n) :: Refreshed(conf, t, old(m), m, n)
      ensures forall n: Node | t.Has(n) && Inside(t, live, cgrp, n) :: Granted(conf, t, old(m).control[n], m, n)
      ensures StableInside(conf, t, live, old(m), cgrp) ==> m == old(m)
    {
      ghost var was := m;
      var order := ForEachDescendantPre(t, cgrp);
      PreEnumerates(t, cgrp);
      for k := 0 to |order|
        invariant Shape() && Propagated(conf, t, live, was, m, cgrp, k)
      {
        RefreshPropagates(conf, t, live, was, m, cgrp, k);
        var n := order[k];
        if live[n] {
          var c := m.control[n] * Control(conf, t, m, n);
          var s := CalcSubtreeSsMask(conf, c, SsMask(conf, t, m, n));
          m := m.(control := m.control[n := c], ss := m.ss[n := s]);
        }
      }
      assert order[..|order|] == order;
      forall n: Node | t.Has(n) && Inside(t, live, cgrp, n) ensures Refreshed(conf, t, was, m, n) && Granted(conf, t, was.control[n], m, n) {
        assert Refreshed(conf, t, was, m, n);
        GrantedIs(conf, t, was.control[n], m, n);
      }
    }

    /**
     cgroup_finalize_control, for the masks. After a failure they are what was saved,
     provided that was stable, whatever has happened to them in the subtree since.
    */
    method Finalize(cgrp: Node, failed: bool, ghost before: Masks)
      requires Shape() && t.Has(cgrp)
      requires Sized(t, before) && SameInside(t, live, before, saved, cgrp) && SameOutside(t, live, before, m, cgrp)
      requires StableInside(conf, t, live, before, cgrp)
      modifies `m
      ensures Shape() && m == if failed then before else old(m)
    {
      if failed {
        ghost var after := m;
        Restore(cgrp);
        forall n: Node | t.Has(n) && Inside(t, live, cgrp, n) ensures SameAt(before, m, n) {
          assert SameAt(before, saved, n) && SameAt(saved, m, n);
        }
        forall n: Node | t.Has(n) && !Inside(t, live, cgrp, n) ensures SameAt(before, m, n) {
          assert SameAt(before, after, n) && SameAt(after, m, n);
        }
        SameEverywhere(t, live, before, m, cgrp);
        Propagate(cgrp);
      }
    }

    /**
     The mask part of cgroup_subtree_control_write: save, change, apply, finalize. The
     result of applying is given; a failure leaves every mask as it was.
    */
    method ChangeControl(cgrp: Node, enable: Mask, disable: Mask, failed: bool)
      requires Shape() && t.Has(cgrp) && live[cgrp]
      requires StableInside(conf, t, live, m, cgrp)
      modifies this
      ensures Shape() && StableInside(conf, t, live, m, cgrp) && SameOutside(t, live, old(m), m, cgrp)
      ensures failed ==> m == old(m)
      ensures !failed ==> m.dom == old(m).dom && forall n: Node | t.Has(n) && Inside(t, live, cgrp, n) ::
        Granted(conf, t, if n == cgrp then old(m).control[n] + enable - disable else old(m).control[n], m, n)
    {
      ghost var before := m;
      Save(cgrp);
      m := m.(control := m.control[cgrp := m.control[cgrp] + enable]);
      m := m.(control := m.control[cgrp := m.control[cgrp] - disable]);
      hide Granted, Stable;
      Apply(cgrp, before);
      Finalize(cgrp, failed, before);
    }

    /** The loop of cgroup_enable_threaded. */
    method JoinDomain(cgrp: Node, dom: Node)
      requires Shape() && t.Has(cgrp)
      modifies `m
      ensures Shape() && m.control == old(m.control) && m.ss == old(m.ss)
      ensures forall n: Node | t.Has(n) ::
        m.dom[n] == if Inside(t, live, cgrp, n) then NewDom(old(m), cgrp, dom, n) else old(m).dom[n]
    {
      ghost var before := m;
      var order := ForEachDescendantPre(t, cgrp);
      PreDistinct(t, cgrp);
      for k := 0 to |order|
        invariant Shape() && m.control == before.control && m.ss == before.ss
        invariant forall n: Node | t.Has(n) ::
          m.dom[n] == if live[n] && n in order[..k] then NewDom(before, cgrp, dom, n) else before.dom[n]
      {
        var n := order[k];
        assert order[..k + 1] == order[..k] + [n] && n !in order[..k];
        if live[n] && (n == cgrp || IsThreaded(m, n)) {
          m := m.(dom := m.dom[n := dom]);
        }
      }
      assert order[..|order|] == order;
    }

    /** The mask part of cgroup_enable_threaded: the subtree joins its parent's resource domain. */
    method EnableThreaded(cgrp: Node, failed: bool)
      requires Shape() && 0 < cgrp && t.Has(cgrp) && live[cgrp]
      requires StableInside(conf, t, live, m, cgrp)
      modifies this
      ensures Shape() && StableInside(conf, t, live, m, cgrp) && SameOutside(t, live, old(m), m, cgrp)
      ensures failed ==> m == old(m)
      ensures !failed ==> forall n: Node | t.Has(n) && Inside(t, live, cgrp, n) ::
        && m.dom[n] == NewDom(old(m), cgrp, old(m).dom[t.parent[cgrp]], n)
        && Granted(conf, t, old(m).control[n], m, n)
    {
      ghost var before := m;
      var dom := m.dom[t.parent[cgrp]];
      Save(cgrp);
      JoinDomain(cgrp, dom);
      hide Granted, Stable;
      Apply(cgrp, before);
      Finalize(cgrp, failed, before);
    }

    /** The propagation in cgroup_apply_control, after changes inside the subtree. */
    method Apply(cgrp: Node, ghost before: Masks)
      requires Shape() && t.Has(cgrp) && Sized(t, before) && SameOutside(t, live, before, m, cgrp)
      modifies `m
      ensures Shape() && m.dom == old(m.dom) && SameOutside(t, live, before, m, cgrp) && StableInside(conf, t, live, m, cgrp)
      ensures forall n: Node | t.Has(n) && Inside(t, live, cgrp, n) :: Granted(conf, t, old(m).control[n], m, n)
    {
      hide Granted;
      ghost var changed := m;
      Propagate(cgrp);
      forall n: Node | t.Has(n) && !Inside(t, live, cgrp, n) ensures SameAt(before, m, n) {
        assert SameAt(before, changed, n) && SameAt(changed, m, n);
      }
      forall n: Node | t.Has(n) && Inside(t, live, cgrp, n) ensures Stable(conf, t, m, n) {
        assert Refreshed(conf, t, changed, m, n);
      }
    }
  }
}
