/**
 The legacy freezer (legacy_freezer.c). A freezer is FREEZING because of itself or of its
 parent; FROZEN is found out lazily, bottom-up, and lost when a task moves in.
*/
module LegacyFreezer {
  import opened CgroupTree
  import opened Hierarchy

  type Task(==, !new)

  /** The flag bits of struct freezer. */
  datatype Flags = Flags(online: bool, self: bool, fromParent: bool, frozen: bool) {
    /** state & CGROUP_FREEZING */
    predicate Freezing() {
      self || fromParent
    }
  }

  const OFF := Flags(false, false, false, false)

  /** What one freezer and its parent keep at all times, also during a walk. */
  ghost predicate LocalOk(parent: seq<Node>, f: seq<Flags>, n: Node)
    requires IsTree(parent) && n < |parent| == |f|
  {
    && (!f[n].online ==> f[n] == OFF)
    && (f[n].frozen ==> f[n].Freezing())
    && (0 < n && f[n].online && f[parent[n]].frozen ==> f[n].frozen)
  }

  ghost predicate AllLocal(parent: seq<Node>, f: seq<Flags>)
    requires IsTree(parent) && |parent| == |f|
  {
    forall n {:trigger LocalOk(parent, f, n)} | 0 <= n < |f| :: LocalOk(parent, f, n)
  }

  /** FREEZING_PARENT says whether the parent is FREEZING. */
  ghost predicate Agrees(parent: seq<Node>, f: seq<Flags>, n: Node)
    requires IsTree(parent) && n < |parent| == |f|
  {
    if n == 0 then !f[0].fromParent else f[n].fromParent == f[parent[n]].Freezing()
  }

  /** system_freezing_cnt. */
  ghost function FreezingCount(f: seq<Flags>, n: nat): nat
    requires n <= |f|
  {
    if n == 0 then 0 else FreezingCount(f, n - 1) + if f[n - 1].Freezing() then 1 else 0
  }

  lemma {:induction false} CountUpdate(f: seq<Flags>, k: Node, x: Flags, n: nat)
    requires k < |f| && n <= |f|
    ensures FreezingCount(f[k := x], n) == FreezingCount(f, n) +
      if k < n then (if x.Freezing() then 1 else 0) - (if f[k].Freezing() then 1 else 0) else 0
    decreases n
  {
    if n > 0 { CountUpdate(f, k, x, n - 1); }
  }

  lemma {:induction false} CountPrefix(f: seq<Flags>, g: seq<Flags>, n: nat)
    requires n <= |f| <= |g| && forall k | 0 <= k < n :: g[k].Freezing() == f[k].Freezing()
    ensures FreezingCount(g, n) == FreezingCount(f, n)
    decreases n
  {
    if n > 0 { CountPrefix(f, g, n - 1); }
  }

  /** A freezer is live when it is online and not killed. What is not killed has a live parent, what is online an online one. */
  ghost predicate LiveAt(parent: seq<Node>, f: seq<Flags>, killed: seq<bool>, n: Node)
    requires IsTree(parent) && n < |parent| == |f| == |killed|
  {
    0 < n ==>
      && (!killed[n] ==> f[parent[n]].online && !killed[parent[n]])
      && (f[n].online ==> f[parent[n]].online)
  }

  ghost predicate Living(t: Tree, f: seq<Flags>, killed: seq<bool>) {
    && t.Valid() && IsTree(t.parent) && |t.parent| == |f| == |killed|
    && f[0].online && !killed[0] && !f[0].self
    && (forall n {:trigger LiveAt(t.parent, f, killed, n)} | 0 <= n < |f| :: LiveAt(t.parent, f, killed, n))
    && (forall n {:trigger t.Linked(n)} | 0 < n < |f| :: t.Linked(n))
  }

  /** The nodes with nothing to correct: those that agree, and those that are not live. */
  ghost function Settled(t: Tree, f: seq<Flags>, killed: seq<bool>): set<Node>
    requires IsTree(t.parent) && |t.parent| == |f| == |killed|
  {
    set n: Node | n < |f| && (!f[n].online || killed[n] || Agrees(t.parent, f, n))
  }

  /** A change of one freezer's flags that keeps the relation to parent and children. */
  lemma ChangeKeepsLocal(parent: seq<Node>, f: seq<Flags>, n: Node, x: Flags)
    requires IsTree(parent) && n < |parent| == |f| && AllLocal(parent, f)
    requires LocalOk(parent, f[n := x], n)
    requires x.frozen ==> f[n].frozen || forall k | 0 < k < |f| && parent[k] == n && f[k].online :: f[k].frozen
    ensures AllLocal(parent, f[n := x])
  {
    var f' := f[n := x];
    forall k | 0 <= k < |f| ensures LocalOk(parent, f', k) {
      assert LocalOk(parent, f, k);
    }
  }

  /** FREEZING means FREEZING_SELF at the freezer or an ancestor. */
  lemma {:induction false} FreezingMeans(t: Tree, f: seq<Flags>, killed: seq<bool>, n: Node)
    requires Living(t, f, killed) && n < |f| && f[n].online && !killed[n]
    requires forall m: Node | m < |f| :: m in Settled(t, f, killed)
    ensures f[n].Freezing() <==> exists a {:trigger f[a]} :: 0 <= a < |f| && Under(t.parent, a, n) && f[a].self
    decreases n
  {
    assert n in Settled(t, f, killed);
    if n != 0 {
      assert LiveAt(t.parent, f, killed, n);
      FreezingMeans(t, f, killed, t.parent[n]);
      if a :| 0 <= a < |f| && Under(t.parent, a, n) && f[a].self {
        assert a != n ==> Under(t.parent, a, t.parent[n]);
      }
      if a :| 0 <= a < |f| && Under(t.parent, a, t.parent[n]) && f[a].self {
        UnderAbove(t.parent, a, t.parent[n]);
        assert Under(t.parent, a, n);
      }
    }
  }

  /** FROZEN means that every online freezer below is FROZEN. */
  lemma {:induction false} FrozenReachesDown(t: Tree, f: seq<Flags>, killed: seq<bool>, a: Node, n: Node)
    requires Living(t, f, killed) && AllLocal(t.parent, f) && a < |f| && n < |f|
    requires f[a].frozen && Under(t.parent, a, n) && f[n].online
    ensures f[n].frozen && f[n].Freezing()
    decreases n
  {
    assert LocalOk(t.parent, f, n) && LiveAt(t.parent, f, killed, n);
    if n != a { FrozenReachesDown(t, f, killed, a, t.parent[n]); }
  }

  /**
   Only the setting of n may have changed, to b; FREEZING_PARENT may differ, and FROZEN
   stays where the freezer is still FREEZING.
  */
  ghost predicate SelfSet(f: seq<Flags>, f': seq<Flags>, b: bool, n: Node) {
    && |f'| == |f| && n < |f|
    && forall k | 0 <= k < |f| ::
         && f'[k].online == f[k].online && f'[k].self == (if k == n then b else f[k].self)
         && f'[k].frozen == (f[k].frozen && f'[k].Freezing())
  }

  /** What is outside the subtree of c, or killed, is as it was. */
  ghost predicate OutsideKept(t: Tree, f: seq<Flags>, f': seq<Flags>, killed: seq<bool>, c: Node)
    requires t.Shaped() && |t.parent| == |f| == |killed|
  {
    |f'| == |f| && forall k: Node | k < |f| && (killed[k] || !t.Below(c, k)) :: f'[k] == f[k]
  }

  /** The walk below c, under way: those of rest are as they were. */
  ghost predicate SetSoFar(t: Tree, was: seq<Flags>, f: seq<Flags>, killed: seq<bool>, b: bool, c: Node, rest: seq<Node>)
    requires t.Shaped() && |t.parent| == |was| == |killed|
  {
    && SelfSet(was, f, b, c) && OutsideKept(t, was, f, killed, c) && c !in rest
    && forall k: Node | k in rest && k < |f| :: f[k] == was[k]
  }

  /** One more freezer is brought into agreement. */
  lemma SetOneMore(t: Tree, was: seq<Flags>, f: seq<Flags>, f': seq<Flags>, killed: seq<bool>, b: bool, c: Node, n: Node, rest: seq<Node>)
    requires t.Shaped() && |t.parent| == |was| == |killed| && SetSoFar(t, was, f, killed, b, c, [n] + rest)
    requires n < |f| && n !in rest && t.Below(c, n) && SelfSet(f, f', f[n].self, n)
    requires f' == f[n := f'[n]] && (killed[n] ==> f' == f)
    ensures SetSoFar(t, was, f', killed, b, c, rest)
  {
    assert forall k | k in rest :: k in [n] + rest;
    assert n in [n] + rest;
  }

  lemma SetAll(t: Tree, was: seq<Flags>, f: seq<Flags>, killed: seq<bool>, b: bool, c: Node, rest: seq<Node>)
    requires t.Shaped() && |t.parent| == |was| == |killed| && SetSoFar(t, was, f, killed, b, c, rest)
    ensures SelfSet(was, f, b, c) && OutsideKept(t, was, f, killed, c)
  {}

  // ---------------------------------------------------------------------------
  // Losing and gaining FROZEN
  // ---------------------------------------------------------------------------

  /** FROZEN is lost at dst and at everything above it, and nowhere else. */
  ghost predicate ClearedAbove(parent: seq<Node>, f: seq<Flags>, f': seq<Flags>, dst: Node)
    requires IsTree(parent) && |parent| == |f| && dst < |f|
  {
    |f'| == |f| && forall m: Node {:trigger f'[m]} | m < |f| :: f'[m] == if Under(parent, m, dst) then f[m].(frozen := false) else f[m]
  }

  lemma ClearedKeeps(t: Tree, f: seq<Flags>, f': seq<Flags>, killed: seq<bool>, dst: Node)
    requires Living(t, f, killed) && AllLocal(t.parent, f) && dst < |f| && ClearedAbove(t.parent, f, f', dst)
    requires forall n: Node | n < |f| :: n in Settled(t, f, killed)
    ensures Living(t, f', killed) && AllLocal(t.parent, f') && FreezingCount(f', |f'|) == FreezingCount(f, |f|)
    ensures forall n: Node | n < |f| :: n in Settled(t, f', killed)
  {
    forall n: Node | n < |f| ensures LocalOk(t.parent, f', n) && LiveAt(t.parent, f', killed, n) && n in Settled(t, f', killed) {
      assert LocalOk(t.parent, f, n) && LiveAt(t.parent, f, killed, n) && n in Settled(t, f, killed);
      if 0 < n && Under(t.parent, n, dst) { UnderStep(t.parent, n, dst); }
    }
    CountPrefix(f, f', |f|);
  }

  /** One of the first n moves went to a FREEZING freezer at or below m. */
  ghost predicate Entered(parent: seq<Node>, f: seq<Flags>, tset: seq<(Task, Node)>, n: nat, m: Node)
    requires IsTree(parent) && |parent| == |f| && n <= |tset|
    requires forall i {:trigger tset[i]} | 0 <= i < |tset| :: tset[i].1 < |f|
  {
    exists i {:trigger tset[i]} :: 0 <= i < n && f[tset[i].1].Freezing() && Under(parent, m, tset[i].1)
  }

  /** No task of n is still running, and every online child is FROZEN. */
  ghost predicate AllFrozen(parent: seq<Node>, f: seq<Flags>, tasks: seq<Task>, busy: set<Task>, n: Node)
    requires |parent| == |f|
  {
    && (forall k {:trigger f[k]} | 0 < k < |f| && parent[k] == n && f[k].online :: f[k].frozen)
    && (forall x | x in tasks :: x !in busy)
  }

  /** Whether n is FROZEN after reading: it was, or it is FREEZING and all of it is frozen by now. */
  ghost predicate UpToDate(parent: seq<Node>, was: seq<Flags>, f: seq<Flags>, tasks: seq<Task>, busy: set<Task>, n: Node)
    requires |parent| == |f| == |was| && n < |f|
  {
    f[n] == was[n].(frozen := was[n].frozen || (was[n].Freezing() && AllFrozen(parent, f, tasks, busy, n)))
  }

  /** A new freezer below one that is online. */
  lemma CreateLiving(t: Tree, f: seq<Flags>, killed: seq<bool>, p: Node)
    requires Living(t, f, killed) && p < |f| && f[p].online && !killed[p]
    ensures Living(WithChild(t, p), f + [OFF], killed + [false])
  {
    WithChildValid(t, p);
    var t', n, f', killed' := WithChild(t, p), |f|, f + [OFF], killed + [false];
    assert t'.kids[p][|t.kids[p]|] == n;
    forall k | 0 <= k < |f'| ensures LiveAt(t'.parent, f', killed', k) && (0 < k ==> t'.Linked(k)) {
      if k < n {
        assert LiveAt(t.parent, f, killed, k);
        if 0 < k {
          assert t.Linked(k);
          var i := t.Index(k);
          assert t'.kids[t'.parent[k]][i] == k;
        }
      }
    }
  }

  datatype Report = Thawed | Freezing | Frozen

  class LegacyFreezer {
    var t: Tree
    var f: seq<Flags>
    var killed: seq<bool>
    var tasks: seq<seq<Task>>
    var systemFreezingCnt: int

    ghost predicate Base()
      reads `t, `f, `killed, `systemFreezingCnt, `tasks
    {
      && Living(t, f, killed) && |tasks| == |f|
      && AllLocal(t.parent, f) && systemFreezingCnt == FreezingCount(f, |f|)
    }

    ghost predicate Valid()
      reads `t, `f, `killed, `systemFreezingCnt, `tasks
    {
      Base() && forall n: Node | n < |f| :: n in Settled(t, f, killed)
    }

    /** freezer_apply_state. */
    method ApplyState(n: Node, freeze: bool, self: bool)
      requires Base() && n < |f| && !killed[n] && (if self then 0 < n && (!freeze && f[n].online ==> Agrees(t.parent, f, n)) else 0 < n)
      requires !self ==> freeze == f[t.parent[n]].Freezing()
      modifies `f, `systemFreezingCnt
      ensures Base() && |f| == |old(f)| && forall m | 0 <= m < |f| && m != n :: f[m] == old(f[m])
      ensures f[n].online == old(f[n].online) && (!f[n].online ==> f == old(f))
      ensures f[n].frozen == (old(f[n].frozen) && f[n].Freezing())
      ensures f[n].online ==> if self then f[n].self == freeze && f[n].fromParent == old(f[n].fromParent)
                              else f[n].fromParent == freeze && f[n].self == old(f[n].self)
    {
      assert LocalOk(t.parent, f, n);
      if !f[n].online {
        return;
      }
      ghost var was := f;
      assert LiveAt(t.parent, f, killed, n) && LocalOk(t.parent, f, t.parent[n]);
      var x := f[n];
      if freeze {
        if !x.Freezing() {
          systemFreezingCnt := systemFreezingCnt + 1;
        }
        x := if self then x.(self := true) else x.(fromParent := true);
      } else {
        var wasFreezing := x.Freezing();
        x := if self then x.(self := false) else x.(fromParent := false);
        if !x.Freezing() {
          if wasFreezing {
            systemFreezingCnt := systemFreezingCnt - 1;
          }
          x := x.(frozen := false);
        }
      }
      CountUpdate(f, n, x, |f|);
      ChangeKeepsLocal(t.parent, f, n, x);
      f := f[n := x];
      StillLiving(was, n);
    }

    lemma StillLiving(was: seq<Flags>, n: Node)
      requires Living(t, was, killed) && |f| == |was| && n < |f| && f == was[n := f[n]]
      requires f[n].online == was[n].online && !f[0].self
      ensures Living(t, f, killed)
    {
      forall k | 0 <= k < |f| ensures LiveAt(t.parent, f, killed, k) {
        assert LiveAt(t.parent, was, killed, k);
      }
    }

    ghost predicate Walk(c: Node, pos: Option<Node>, rest: seq<Node>)
      requires Base() && t.Has(c)
      reads `t, `f, `killed, `systemFreezingCnt, `tasks
    {
      && Remaining(t, c, pos, rest) && Walking(t, Settled(t, f, killed), rest)
      && 0 in Settled(t, f, killed) && c in Settled(t, f, killed)
    }

    /** A live freezer takes over its parent's state, the first one the new setting. */
    method VisitFreezer(c: Node, freeze: bool, n: Node)
      requires Base() && 0 < c <= n < |f| && c in Settled(t, f, killed) && 0 in Settled(t, f, killed)
      modifies `f, `systemFreezingCnt
      ensures Base() && |f| == |old(f)|
      ensures forall x: Node | x < |f| && x in old(Settled(t, f, killed)) && (t.parent[x] != n || x == 0) :: x in Settled(t, f, killed)
      ensures n in Settled(t, f, killed)
      ensures SelfSet(old(f), f, if n == c && f[c].online && !killed[c] then freeze else old(f[n].self), n)
      ensures f == old(f)[n := f[n]] && (killed[n] ==> f == old(f))
    {
      assert LocalOk(t.parent, f, n);
      forall k | 0 <= k < |f| ensures f[k].frozen ==> f[k].Freezing() { assert LocalOk(t.parent, f, k); }
      if !killed[n] {
        if n == c {
          ApplyState(n, freeze, true);
        } else {
          ApplyState(n, f[t.parent[n]].Freezing(), false);
        }
      }
    }

    /** One round of the walk. */
    method Visit(c: Node, freeze: bool, n: Node, ghost rest: seq<Node>) returns (pos: Option<Node>, ghost rest': seq<Node>)
      requires Base() && 0 < c < |f| && Walk(c, Some(n), rest)
      modifies `f, `systemFreezingCnt
      ensures n < |f|
      ensures Base() && |f| == |old(f)| && Walk(c, pos, rest') && rest == [n] + rest' && n !in rest'
      ensures SelfSet(old(f), f, if n == c && f[c].online && !killed[c] then freeze else old(f[n].self), n)
      ensures t.Below(c, n) && f == old(f)[n := f[n]] && (killed[n] ==> f == old(f))
    {
      BelowAbove(t, c, n);
      ghost var ok := Settled(t, f, killed);
      VisitFreezer(c, freeze, n);
      VisitKeepsWalking(t, ok, Settled(t, f, killed), c, n);
      CursorFirst(t, c, n);
      pos := NextPre(t, n, c);
      rest' := t.PreFrom(n, 0) + t.AfterPre(c, n);
    }

    /**
     freezer_change_state. The setting of a live freezer changes and FREEZING_PARENT agrees
     with the parent everywhere again; nothing changes outside the subtree.
    */
    method ChangeState(c: Node, freeze: bool)
      requires Valid() && 0 < c < |f|
      modifies `f, `systemFreezingCnt
      ensures Valid() && |f| == |old(f)|
      ensures SelfSet(old(f), f, if f[c].online && !killed[c] then freeze else old(f[c].self), c)
      ensures OutsideKept(t, old(f), f, killed, c)
    {
      var pos := NextDescendantPre(t, None, c);
      ghost var rest: seq<Node> := t.Pre(c);
      ghost var was := f;
      assert rest == t.Pre(c) + t.AfterPre(c, c);
      pos, rest := Visit(c, freeze, c, rest);
      ghost var b := if f[c].online && !killed[c] then freeze else was[c].self;
      assert SetSoFar(t, was, f, killed, b, c, rest);
      hide SetSoFar, Remaining, Walking, Settled;
      while pos.Some?
        invariant Base() && |f| == |was| && Walk(c, pos, rest) && SetSoFar(t, was, f, killed, b, c, rest)
        decreases |rest|
      {
        pos, rest := VisitBelow(c, freeze, pos.value, rest, was, b);
      }
      SetAll(t, was, f, killed, b, c, rest);
    }

    /** One round after the first. */
    method VisitBelow(c: Node, freeze: bool, n: Node, ghost rest: seq<Node>, ghost was: seq<Flags>, ghost b: bool)
      returns (pos: Option<Node>, ghost rest': seq<Node>)
      requires Base() && 0 < c < |f| == |was| && Walk(c, Some(n), rest) && SetSoFar(t, was, f, killed, b, c, rest)
      modifies `f, `systemFreezingCnt
      ensures Base() && |f| == |was| && Walk(c, pos, rest') && SetSoFar(t, was, f, killed, b, c, rest') && |rest'| < |rest|
    {
      CursorFirst(t, c, n);
      assert c != n by { assert n in rest; }
      ghost var before := f;
      pos, rest' := Visit(c, freeze, n, rest);
      SetOneMore(t, was, before, f, killed, b, c, n, rest');
    }

    // -------------------------------------------------------------------------
    // Coming and going
    // -------------------------------------------------------------------------

    /** The root freezer, online. */
    constructor ()
      ensures Valid() && |f| == 1 && systemFreezingCnt == 0
    {
      t := Tree([0], [[]]);
      f, killed, tasks := [OFF.(online := true)], [false], [[]];
      systemFreezingCnt := 0;
      new;
      assert t.Shaped() && LiveAt(t.parent, f, killed, 0) && LocalOk(t.parent, f, 0);
      assert FreezingCount(f, 0) == 0;
    }

    /** css_create links a new child, not yet online. */
    method Create(p: Node) returns (n: Node)
      requires Valid() && p < |f| && f[p].online && !killed[p]
      modifies `t, `f, `killed, `tasks
      ensures Valid() && n == |old(f)| && t.parent == old(t.parent) + [p]
      ensures f == old(f) + [OFF] && killed == old(killed) + [false]
    {
      n := |f|;
      ghost var t0, f0, killed0 := t, f, killed;
      t := WithChild(t, p);
      f, killed, tasks := f + [OFF], killed + [false], tasks + [[]];
      CreateLiving(t0, f0, killed0, p);
      CountPrefix(f0, f, n);
      forall k | 0 <= k < |f| ensures LocalOk(t.parent, f, k) && k in Settled(t, f, killed) {
        if k < n { assert LocalOk(t0.parent, f0, k) && k in Settled(t0, f0, killed0); }
      }
    }

    /** freezer_css_online: a new freezer inherits its parent's state. */
    method Online(n: Node)
      requires Valid() && 0 < n < |f| && !killed[n] && !f[n].online
      modifies `f, `systemFreezingCnt
      ensures Valid() && f == old(f)[n := f[n]] && f[n].online && !f[n].self
      ensures f[n].fromParent == f[n].frozen == f[t.parent[n]].Freezing()
    {
      var x := f[n].(online := true);
      assert LocalOk(t.parent, f, n) && LiveAt(t.parent, f, killed, n) && LocalOk(t.parent, f, t.parent[n]);
      forall k | 0 < k < |f| && t.parent[k] == n ensures !f[k].online {
        assert LiveAt(t.parent, f, killed, k);
      }
      if f[t.parent[n]].Freezing() {
        x := x.(fromParent := true, frozen := true);
        systemFreezingCnt := systemFreezingCnt + 1;
      }
      SwitchFlags(n, x);
    }

    /** The flags of a freezer without live children change. */
    method SwitchFlags(n: Node, x: Flags)
      requires Living(t, f, killed) && |tasks| == |f| && AllLocal(t.parent, f) && 0 < n < |f|
      requires forall m: Node | m < |f| :: m in Settled(t, f, killed)
      requires systemFreezingCnt == FreezingCount(f, |f|) + (if x.Freezing() then 1 else 0) - (if f[n].Freezing() then 1 else 0)
      requires LocalOk(t.parent, f[n := x], n) && (x.online && !killed[n] ==> Agrees(t.parent, f[n := x], n))
      requires x.online ==> f[t.parent[n]].online
      requires forall k {:trigger t.parent[k]} | 0 < k < |f| && t.parent[k] == n :: !f[k].online && (killed[k] || x.online)
      modifies `f
      ensures Valid() && f == old(f)[n := x]
    {
      ghost var was := f;
      CountUpdate(f, n, x, |f|);
      ChangeKeepsLocal(t.parent, f, n, x);
      f := f[n := x];
      forall k | 0 <= k < |f| ensures LiveAt(t.parent, f, killed, k) {
        assert LiveAt(t.parent, was, killed, k);
      }
      forall m: Node | m < |f| ensures m in Settled(t, f, killed) {
        assert m in Settled(t, was, killed);
      }
    }

    /** kill_css: no live child, no new one. Its state is left as it is until it goes offline. */
    method Kill(n: Node)
      requires Valid() && 0 < n < |f| && forall k | 0 < k < |f| && t.parent[k] == n :: killed[k]
      modifies `killed
      ensures Valid() && killed == old(killed)[n := true]
    {
      ghost var was := killed;
      killed := killed[n := true];
      forall k | 0 <= k < |f| ensures LiveAt(t.parent, f, killed, k) && k in Settled(t, f, killed) {
        assert LiveAt(t.parent, f, was, k) && k in Settled(t, f, was);
      }
    }

    /** freezer_css_offline, children first. */
    method Offline(n: Node)
      requires Valid() && 0 < n < |f| && killed[n]
      requires forall k {:trigger t.parent[k]} | 0 < k < |f| && t.parent[k] == n :: !f[k].online && killed[k]
      modifies `f, `systemFreezingCnt
      ensures Valid() && f == old(f)[n := OFF]
    {
      if f[n].Freezing() {
        systemFreezingCnt := systemFreezingCnt - 1;
      }
      SwitchFlags(n, OFF);
    }

    // -------------------------------------------------------------------------
    // Tasks moving in, and reading the state
    // -------------------------------------------------------------------------

    /** The upward loop of freezer_attach: it may stop at the first freezer that is not FROZEN. */
    method ClearUpwards(dst: Node)
      requires Valid() && dst < |f| && f[dst].online
      modifies `f
      ensures Valid() && ClearedAbove(t.parent, old(f), f, dst)
    {
      ghost var was := f;
      var freezer: Option<Node> := Some(dst);
      while freezer.Some? && f[freezer.value].frozen
        invariant |f| == |was| && (freezer.Some? ==> freezer.value < |f| && Under(t.parent, freezer.value, dst) && was[freezer.value].online)
        invariant forall m: Node {:trigger f[m]} | m < |f| ::
          f[m] == if Under(t.parent, m, dst) && !(freezer.Some? && Under(t.parent, m, freezer.value)) then was[m].(frozen := false) else was[m]
        decreases if freezer.Some? then freezer.value + 1 else 0
      {
        var n := freezer.value;
        assert LiveAt(t.parent, was, killed, n);
        forall m: Node | m < |f| ensures Under(t.parent, m, n) <==> m == n || (0 < n && Under(t.parent, m, t.parent[n])) {
          if 0 < n { StrictlyUnderParent(t.parent, m, n); }
        }
        f := f[n := f[n].(frozen := false)];
        if n == 0 {
          freezer := None;
        } else {
          UnderStep(t.parent, n, dst);
          freezer := Some(t.parent[n]);
        }
      }
      forall m: Node | m < |f| && freezer.Some? && Under(t.parent, m, freezer.value) ensures !was[m].frozen {
        if was[m].frozen { FrozenReachesDown(t, was, killed, m, freezer.value); }
      }
      ClearedKeeps(t, was, f, killed, dst);
    }

    /**
     freezer_attach for tasks that have just moved to live freezers: a task in a THAWED one
     is thawed; one in a FREEZING one is asked to freeze, and nothing above it is FROZEN.
    */
    method Attach(tset: seq<(Task, Node)>) returns (thawed: set<Task>, asked: set<Task>)
      requires Valid() && forall i {:trigger tset[i]} | 0 <= i < |tset| :: tset[i].1 < |f| && f[tset[i].1].online
      modifies `f
      ensures Valid() && |f| == |old(f)|
      ensures thawed == set i | 0 <= i < |tset| && !old(f[tset[i].1]).Freezing() :: tset[i].0
      ensures asked == set i | 0 <= i < |tset| && old(f[tset[i].1]).Freezing() :: tset[i].0
      ensures forall m: Node | m < |f| :: f[m] == if Entered(t.parent, old(f), tset, |tset|, m) then old(f[m]).(frozen := false) else old(f[m])
    {
      thawed, asked := {}, {};
      ghost var was := f;
      for i := 0 to |tset|
        invariant Valid() && |f| == |was|
        invariant thawed == set j | 0 <= j < i && !was[tset[j].1].Freezing() :: tset[j].0
        invariant asked == set j | 0 <= j < i && was[tset[j].1].Freezing() :: tset[j].0
        invariant forall m: Node {:trigger f[m]} | m < |f| :: f[m] == if Entered(t.parent, was, tset, i, m) then was[m].(frozen := false) else was[m]
      {
        var (task, dst) := tset[i];
        if !f[dst].Freezing() {
          thawed := thawed + {task};
        } else {
          asked := asked + {task};
          ClearUpwards(dst);
        }
      }
    }

    /** update_if_frozen; busy are the tasks that should freeze but neither are frozen nor may be skipped. */
    method UpdateIfFrozen(n: Node, busy: set<Task>)
      requires Valid() && n < |f|
      modifies `f
      ensures Valid() && |f| == |old(f)| && UpToDate(t.parent, old(f), f, tasks[n], busy, n)
      ensures forall k | 0 <= k < |f| && k != n :: f[k] == old(f[k])
    {
      if !f[n].Freezing() || f[n].frozen {
        return;
      }
      // are all (live) children frozen?
      var i := 0;
      while i < |t.kids[n]|
        invariant i <= |t.kids[n]|
        invariant forall j | 0 <= j < i :: f[t.kids[n][j]].online ==> f[t.kids[n][j]].frozen
      {
        var child := f[t.kids[n][i]];
        if child.online && !child.frozen {
          return;
        }
        i := i + 1;
      }
      // are all tasks frozen?
      for j := 0 to |tasks[n]|
        invariant forall k | 0 <= k < j :: tasks[n][k] !in busy
      {
        if tasks[n][j] in busy {
          return;
        }
      }
      SetFrozen(n, busy);
    }

    method SetFrozen(n: Node, ghost busy: set<Task>)
      requires Valid() && n < |f| && f[n].Freezing()
      requires forall j {:trigger t.kids[n][j]} | 0 <= j < |t.kids[n]| :: f[t.kids[n][j]].online ==> f[t.kids[n][j]].frozen
      modifies `f
      ensures Valid() && f == old(f)[n := old(f[n]).(frozen := true)]
      ensures forall k {:trigger f[k]} | 0 < k < |f| && t.parent[k] == n && f[k].online :: f[k].frozen
    {
      ghost var was := f;
      var x := f[n].(frozen := true);
      forall k | 0 < k < |f| && t.parent[k] == n ensures f[k].online ==> f[k].frozen {
        assert t.Linked(k);
        assert t.kids[n][t.Index(k)] == k;
      }
      assert LocalOk(t.parent, f, n);
      CountUpdate(f, n, x, |f|);
      ChangeKeepsLocal(t.parent, f, n, x);
      f := f[n := x];
      StillLiving(was, n);
      forall m: Node | m < |f| ensures m in Settled(t, f, killed) {
        assert m in Settled(t, was, killed);
      }
    }

    /**
     freezer_read: the states below c are brought up to date bottom-up, each once, so that
     every live freezer there is FROZEN exactly if it was, or if it is FREEZING and its
     tasks and its online children, as they now are, are frozen.
    */
    method Read(c: Node, busy: set<Task>) returns (report: Report)
      requires Valid() && c < |f|
      modifies `f
      ensures Valid() && |f| == |old(f)|
      ensures forall n: Node | n < |f| && !killed[n] && t.Below(c, n) :: UpToDate(t.parent, old(f), f, tasks[n], busy, n)
      ensures forall n: Node | n < |f| && (killed[n] || !t.Below(c, n)) :: f[n] == old(f[n])
      ensures report == if f[c].frozen then Frozen else if f[c].Freezing() then Freezing else Thawed
    {
      ghost var q, k, was := t.Post(c), 0, f;
      var pos := NextDescendantPost(t, None, c);
      while pos.Some?
        invariant Valid() && |f| == |was| && k <= |q| && pos == if k < |q| then Some(q[k]) else None
        invariant Updated(was, busy, q, k)
        decreases |q| - k
      {
        PostWalkAdvances(t, c, k);
        UpdateNext(pos.value, busy, was, c, k);
        pos := NextPost(t, pos.value, c);
        k := k + 1;
      }
      forall n: Node | n < |f| ensures n in q[..|q|] <==> t.Below(c, n) {
        assert q[..|q|] == q;
        PreIsSubtree(t, c, n);
        PostPermutesPre(t, c);
        assert n in q <==> n in multiset(q);
      }
      report := if f[c].frozen then Frozen else if f[c].Freezing() then Freezing else Thawed;
    }

    /** The first k nodes of the walk are up to date, the others untouched. */
    ghost predicate Updated(was: seq<Flags>, busy: set<Task>, q: seq<Node>, k: nat)
      requires |was| == |f| == |killed| == |tasks| == |t.parent| && k <= |q|
      reads `t, `f, `killed, `tasks
    {
      && (forall n: Node {:trigger killed[n]} | n < |f| && n in q[..k] && !killed[n] :: UpToDate(t.parent, was, f, tasks[n], busy, n))
      && (forall n: Node {:trigger f[n]} | n < |f| && (killed[n] || n !in q[..k]) :: f[n] == was[n])
    }

    /** One round of the loop of freezer_read. */
    method UpdateNext(n: Node, busy: set<Task>, ghost was: seq<Flags>, ghost c: Node, ghost k: nat)
      requires Valid() && |was| == |f| && c < |f| && k < |t.Post(c)| && t.Post(c)[k] == n && n < |f|
      requires Updated(was, busy, t.Post(c), k)
      modifies `f
      ensures Valid() && |f| == |was| && Updated(was, busy, t.Post(c), k + 1)
    {
      ghost var q, before := t.Post(c), f;
      PostDistinct(t, c);
      assert q[..k + 1] == q[..k] + [n];
      assert forall j | 0 <= j < k :: q[..k][j] == q[j];
      if !killed[n] {
        UpdateIfFrozen(n, busy);
      }
      forall m: Node | m < |f| && m in q[..k] && !killed[m] ensures UpToDate(t.parent, was, f, tasks[m], busy, m) {
        StaysUpToDate(was, before, busy, c, k, m);
      }
    }

    /** What was visited earlier has all its children visited even earlier, so a later visit does not concern it. */
    lemma StaysUpToDate(was: seq<Flags>, before: seq<Flags>, busy: set<Task>, c: Node, k: nat, m: Node)
      requires Valid() && |was| == |f| == |before| && c < |f| && k < |t.Post(c)| && t.Post(c)[k] < |f|
      requires forall n | 0 <= n < |f| && n != t.Post(c)[k] :: f[n] == before[n]
      requires m < |f| && m in t.Post(c)[..k] && UpToDate(t.parent, was, before, tasks[m], busy, m)
      ensures UpToDate(t.parent, was, f, tasks[m], busy, m)
    {
      var q := t.Post(c);
      PostDistinct(t, c);
      var j :| 0 <= j < k && q[..k][j] == m;
      forall x | 0 < x < |f| && t.parent[x] == m ensures f[x] == before[x] {
        assert t.Linked(x);
        KidsBefore(t, c, j, x);
        var i :| 0 <= i < j && q[..j][i] == x;
        assert q[i] != q[k];
      }
      assert q[j] != q[k];
      assert AllFrozen(t.parent, f, tasks[m], busy, m) == AllFrozen(t.parent, before, tasks[m], busy, m);
    }
  }
}
