/**
 The version 2 freezer (freezer.c, and its bookkeeping in cgroup.c). Every cgroup counts
 its own frozen tasks and its frozen descendants, and state changes travel upwards one
 ancestor at a time. cgroup_freeze walks the subtree under cgroup_mutex but takes
 css_set_lock only for short sections, so tasks enter and leave the frozen state, fork
 and exit between any two of its steps: each such section is one method here.
*/
module Freezer {
  import opened CgroupTree
  import opened Hierarchy
  import opened FreezerCounts

  class Freezer {
    var t: Tree
    var live: seq<bool>             // CSS_ONLINE
    var freeze: seq<bool>           // the setting
    var eFreeze: seq<int>
    var freezeBit: seq<bool>        // CGRP_FREEZE
    var frozenBit: seq<bool>        // CGRP_FROZEN
    var nrDesc: seq<int>
    var nrFrozenDesc: seq<int>
    var nrTasks: seq<int>
    var nrFrozenTasks: seq<int>
    var home: map<Task, Node>       // the cgroup of each task
    var frozenTasks: set<Task>
    var walk: Walk
    ghost var unvisited: seq<Node>

    ghost predicate Shape()
      reads `t, `live, `freeze, `eFreeze, `freezeBit, `frozenBit, `nrDesc, `nrFrozenDesc, `nrTasks, `nrFrozenTasks
    {
      && Living(t, live)
      && |live| == |freeze| == |eFreeze| == |freezeBit| == |frozenBit| == |nrDesc| == |nrFrozenDesc| == |nrTasks| == |nrFrozenTasks|
      && DescExact(t.parent, live, nrDesc)
    }

    ghost predicate Ok(n: Node)
      requires n < |freezeBit| == |frozenBit| == |nrDesc| == |nrFrozenDesc| == |nrTasks| == |nrFrozenTasks|
      reads `freezeBit, `frozenBit, `nrDesc, `nrFrozenDesc, `nrTasks, `nrFrozenTasks, `walk
    {
      OkAt(freezeBit[n], frozenBit[n], Full(nrDesc[n], nrFrozenDesc[n], nrTasks[n], nrFrozenTasks[n]),
           walk.Walk? && walk.window && walk.pos == n)
    }

    ghost predicate OkBut(X: set<Node>)
      requires Shape()
      reads `t, `live, `freeze, `eFreeze, `freezeBit, `frozenBit, `nrDesc, `nrFrozenDesc, `nrTasks, `nrFrozenTasks, `walk
    {
      forall n {:trigger Ok(n)} | 0 <= n < |live| && live[n] && n !in X :: Ok(n)
    }

    /** A cgroup with descendants, other than the root, has no unfrozen task of its own. */
    ghost predicate QuietInside()
      requires Shape()
      reads `t, `live, `freeze, `eFreeze, `freezeBit, `frozenBit, `nrDesc, `nrFrozenDesc, `nrTasks, `nrFrozenTasks
    {
      !freezeBit[0] && forall n {:trigger nrDesc[n]} | 0 < n < |live| && nrDesc[n] > 0 :: nrTasks[n] == nrFrozenTasks[n]
    }

    /** The root cgroup alone, with no task. */
    constructor ()
      ensures Valid() && walk.Idle? && |live| == 1 && home == map[] && eFreeze == [0] && t.parent == [0]
    {
      t := Tree([0], [[]]);
      live, freeze, eFreeze, freezeBit, frozenBit := [true], [false], [0], [false], [false];
      nrDesc, nrFrozenDesc, nrTasks, nrFrozenTasks := [0], [0], [0], [0];
      home, frozenTasks, walk, unvisited := map[], {}, Idle, [];
      new;
      UnderRoot(t.parent, 0);
      assert t.Shaped();
      assert Members(home, 0) == {};
      assert LivingAt(t, live, 0) && DescAt(t.parent, live, nrDesc, 0);
      assert LagsAt(t.parent, live, frozenBit, nrFrozenDesc, 0, 0, 0);
      assert Ok(0);
    }

    /** cgroup_propagate_frozen. */
    method PropagateFrozen(c: Node, frozen: bool, ghost X: set<Node>)
      requires Shape() && c < |live| && live[c] && frozenBit[c] == frozen && !frozenBit[0]
      requires Lags(t.parent, live, frozenBit, nrFrozenDesc, c, if frozen then 1 else -1)
      requires OkBut(X + {c}) && QuietInside()
      requires forall x | x in X :: x < |live| && nrDesc[x] == 0
      modifies `frozenBit, `nrFrozenDesc
      ensures Shape() && Lags(t.parent, live, frozenBit, nrFrozenDesc, 0, 0)
      ensures OkBut(X + {c}) && !frozenBit[0]
      ensures nrFrozenDesc[c] == old(nrFrozenDesc[c])
      ensures forall n | 0 <= n < |live| && !StrictlyUnder(t.parent, n, c) :: frozenBit[n] == old(frozenBit[n])
    {
      hide Lags, DescExact;
      var desc := 1;
      var cur: Node := c;
      while cur != 0
        invariant desc >= 1 && Rising(c, cur, frozen, desc, X)
        invariant nrFrozenDesc[c] == old(nrFrozenDesc[c])
        invariant forall n | 0 <= n < |live| && !StrictlyUnder(t.parent, n, c) :: frozenBit[n] == old(frozenBit[n])
        decreases cur
      {
        cur, desc := PropagateRound(c, cur, frozen, desc, X);
      }
      LagsNowhere(t.parent, live, frozenBit, nrFrozenDesc, cur, if frozen then desc else -desc, 0);
    }

    /** In the upward loop, the ancestors above cur have still to be told of desc flips. */
    ghost predicate Rising(c: Node, cur: Node, frozen: bool, desc: int, X: set<Node>)
      reads `t, `live, `freeze, `eFreeze, `freezeBit, `frozenBit, `nrDesc, `nrFrozenDesc, `nrTasks, `nrFrozenTasks, `walk
    {
      && Shape() && c < |live| && cur < |live| && Under(t.parent, cur, c)
      && Lags(t.parent, live, frozenBit, nrFrozenDesc, cur, if frozen then desc else -desc)
      && OkBut(X + {c}) && frozenBit[c] == frozen && !frozenBit[0]
    }

    /** One round of the upward loop. */
    method PropagateRound(c: Node, cur: Node, frozen: bool, desc: int, ghost X: set<Node>) returns (up: Node, flips: int)
      requires desc >= 1 && Rising(c, cur, frozen, desc, X) && cur != 0 && live[c] && QuietInside()
      requires forall x | x in X :: x < |live| && nrDesc[x] == 0
      modifies `frozenBit, `nrFrozenDesc
      ensures flips >= 1 && Rising(c, up, frozen, flips, X)
      ensures up == t.parent[cur] < cur && StrictlyUnder(t.parent, up, c)
      ensures frozenBit == old(frozenBit)[up := frozenBit[up]] && nrFrozenDesc == old(nrFrozenDesc)[up := nrFrozenDesc[up]]
    {
      hide Lags, DescExact;
      RoundCounts(t, live, frozenBit, nrFrozenDesc, nrDesc, c, cur, if frozen then desc else -desc);
      ghost var bits, d := frozenBit, if frozen then desc else -desc;
      up, flips := t.parent[cur], desc;
      ghost var b := frozen && (frozenBit[up] || (freezeBit[up] && nrFrozenDesc[up] + d == nrDesc[up]));
      LagStep(t.parent, live, frozenBit, nrFrozenDesc, cur, d, b);
      UnderStep(t.parent, cur, c);
      assert Ok(up);
      if frozen {
        nrFrozenDesc := nrFrozenDesc[up := nrFrozenDesc[up] + desc];
        if !frozenBit[up] && freezeBit[up] && nrFrozenDesc[up] == nrDesc[up] {
          frozenBit := frozenBit[up := true];
          flips := desc + 1;
        }
      } else {
        nrFrozenDesc := nrFrozenDesc[up := nrFrozenDesc[up] - desc];
        if frozenBit[up] {
          frozenBit := frozenBit[up := false];
          flips := desc + 1;
        }
      }
      assert frozenBit == bits[up := b];
      forall n {:trigger Ok(n)} | 0 <= n < |live| && live[n] && n !in X + {c} ensures Ok(n) {
        assert old(Ok(n));
      }
    }

    /** cgroup_update_frozen. */
    method UpdateFrozen(c: Node, ghost X: set<Node>)
      requires Shape() && c < |live| && live[c] && !frozenBit[0]
      requires Lags(t.parent, live, frozenBit, nrFrozenDesc, 0, 0) && OkBut(X + {c}) && QuietInside()
      requires forall x | x in X :: x < |live| && nrDesc[x] == 0
      requires nrDesc[c] == nrFrozenDesc[c] || !freezeBit[c]
      modifies `frozenBit, `nrFrozenDesc
      ensures Shape() && Lags(t.parent, live, frozenBit, nrFrozenDesc, 0, 0) && !frozenBit[0]
      ensures frozenBit[c] == (freezeBit[c] && nrFrozenTasks[c] == nrTasks[c]) && nrFrozenDesc[c] == old(nrFrozenDesc[c])
      ensures OkBut(X - {c})
    {
      var frozen := freezeBit[c] && nrFrozenTasks[c] == nrTasks[c];
      LagsNowhere(t.parent, live, frozenBit, nrFrozenDesc, 0, 0, c);
      if frozen == frozenBit[c] {
        // already there
        assert forall n {:trigger Ok(n)} | 0 <= n < |live| && live[n] && n !in X && n != c :: n !in X + {c};
        return;
      }
      FlipLags(t.parent, live, frozenBit, nrFrozenDesc, c, frozen);
      label before:
      frozenBit := frozenBit[c := frozen];
      forall n {:trigger Ok(n)} | 0 <= n < |live| && live[n] && n !in X + {c} ensures Ok(n) {
        assert old@before(Ok(n));
      }
      PropagateFrozen(c, frozen, X);
      assert forall n {:trigger Ok(n)} | 0 <= n < |live| && live[n] && n !in X && n != c :: n !in X + {c};
    }

    /** cgroup_update_frozen for a cgroup whose tasks have changed. */
    method RevisitTasks(c: Node)
      requires Shape() && c < |live| && live[c] && !frozenBit[0] && (c == 0 || nrDesc[c] == 0)
      requires Lags(t.parent, live, frozenBit, nrFrozenDesc, 0, 0) && OkBut({c}) && QuietInside()
      modifies `frozenBit, `nrFrozenDesc
      ensures Shape() && Lags(t.parent, live, frozenBit, nrFrozenDesc, 0, 0) && !frozenBit[0] && OkBut({})
    {
      if c != 0 { LeafCounts(c); }
      assert {} + {c} == {c} && {} - {c} == {};
      UpdateFrozen(c, {});
    }

    lemma LeafCounts(c: Node)
      requires Shape() && c < |live| && Lags(t.parent, live, frozenBit, nrFrozenDesc, 0, 0) && nrDesc[c] == 0
      ensures nrFrozenDesc[c] == 0
    {
      assert LagsAt(t.parent, live, frozenBit, nrFrozenDesc, 0, 0, c) && DescAt(t.parent, live, nrDesc, c);
      UnderRoot(t.parent, 0);
      CountAll(t.parent, live, frozenBit, c, |live|);
    }

    ghost predicate TasksOk()
      requires Shape()
      reads `t, `live, `freeze, `eFreeze, `freezeBit, `frozenBit, `nrDesc, `nrFrozenDesc, `nrTasks, `nrFrozenTasks, `home, `frozenTasks
    {
      && TasksExact(home, frozenTasks, nrTasks, nrFrozenTasks)
      && HomesOk(live, nrDesc, home)
    }

    ghost predicate WalkOk()
      requires Shape()
      reads `t, `live, `freeze, `eFreeze, `freezeBit, `frozenBit, `nrDesc, `nrFrozenDesc, `nrTasks, `nrFrozenTasks, `walk, `unvisited
    {
      match walk
      case Idle => unvisited == []
      case Walk(root, on, pos, window) =>
        && 0 < root && t.Has(root) && freeze[root] == on && (window ==> pos < |live| && live[pos])
        && Remaining(t, root, Some(pos), if window then [pos] + unvisited else unvisited)
    }

    /** What holds between any two steps. */
    ghost predicate Valid()
      reads this
    {
      && Shape() && TasksOk() && WalkOk()
      && Effective(t.parent, live, freeze, eFreeze, freezeBit, unvisited, walk.Walk? && walk.on)
      && Lags(t.parent, live, frozenBit, nrFrozenDesc, 0, 0)
      && OkBut({}) && !frozenBit[0]
    }

    lemma InsideIsQuiet()
      requires Shape() && TasksOk() && !freezeBit[0]
      ensures QuietInside()
    {
      forall n {:trigger nrDesc[n]} | 0 < n < |live| && nrDesc[n] > 0 ensures nrTasks[n] == nrFrozenTasks[n] {
        TaskBounds(home, frozenTasks, nrTasks, nrFrozenTasks, n);
      }
    }

    /** Cgroups whose tasks were not touched are as they were. */
    twostate lemma OthersOk(X: set<Node>)
      requires old(Shape()) && Shape() && (old(OkBut({})) || old(OkBut(X)))
      requires unchanged(`live, `freezeBit, `frozenBit, `nrDesc, `nrFrozenDesc, `walk, `t)
      requires forall n | 0 <= n < |live| && n !in X :: nrTasks[n] == old(nrTasks[n]) && nrFrozenTasks[n] == old(nrFrozenTasks[n])
      ensures OkBut(X)
    {
      forall n {:trigger Ok(n)} | 0 <= n < |live| && live[n] && n !in X ensures Ok(n) {
        assert old(Ok(n));
      }
    }

    // -------------------------------------------------------------------------
    // Steps of tasks: these may happen at any time, also between two steps of a walk
    // -------------------------------------------------------------------------

    /** cgroup_enter_frozen. */
    method EnterFrozen(x: Task)
      requires Valid() && x in home
      modifies `frozenTasks, `nrFrozenTasks, `frozenBit, `nrFrozenDesc
      ensures Valid() && frozenTasks == old(frozenTasks) + {x}
    {
      hide Remaining, Lags, DescExact, TasksExact, HomesOk;
      if x in frozenTasks {
        return;
      }
      var c := home[x];
      HomeOf(live, nrDesc, home, x);
      TaskFreezes(home, frozenTasks, nrTasks, nrFrozenTasks, x);
      frozenTasks := frozenTasks + {x};
      nrFrozenTasks := nrFrozenTasks[c := nrFrozenTasks[c] + 1];
      OthersOk({c});
      InsideIsQuiet();
      RevisitTasks(c);
    }

    /** cgroup_leave_frozen, called by a frozen task. A task that must stay frozen changes nothing here. */
    method LeaveFrozen(x: Task, alwaysLeave: bool)
      requires Valid() && x in frozenTasks
      modifies `frozenTasks, `nrFrozenTasks, `frozenBit, `nrFrozenDesc
      ensures Valid()
      ensures frozenTasks == old(frozenTasks) - if alwaysLeave || !freezeBit[home[x]] then {x} else {}
    {
      if alwaysLeave || !freezeBit[home[x]] {
        Thaw(x);
      }
    }

    /** A task is frozen no longer. */
    method Thaw(x: Task)
      requires Valid() && x in frozenTasks
      modifies `frozenTasks, `nrFrozenTasks, `frozenBit, `nrFrozenDesc
      ensures Valid() && frozenTasks == old(frozenTasks) - {x}
    {
      assert x in home;
      hide Remaining, Lags, DescExact, TasksExact, HomesOk;
      HomeOf(live, nrDesc, home, x);
      var c := home[x];
      TaskThaws(home, frozenTasks, nrTasks, nrFrozenTasks, x);
      frozenTasks := frozenTasks - {x};
      nrFrozenTasks := nrFrozenTasks[c := nrFrozenTasks[c] - 1];
      OthersOk({c});
      InsideIsQuiet();
      RevisitTasks(c);
    }

    /** cgroup_post_fork: the child of a task, which is running, joins its parent's cgroup. */
    method Fork(x: Task, child: Task)
      requires Valid() && x in home && x !in frozenTasks && child !in home
      modifies `home, `nrTasks
      ensures Valid() && home == old(home)[child := old(home[x])]
    {
      hide Remaining, Lags, DescExact, TasksExact, HomesOk;
      HomeOf(live, nrDesc, home, x);
      var c := home[x];
      TaskBounds(home, frozenTasks, nrTasks, nrFrozenTasks, c);
      TaskJoins(home, frozenTasks, nrTasks, nrFrozenTasks, child, c);
      HomesSet(live, nrDesc, home, child, c);
      assert Ok(c);
      nrTasks := nrTasks[c := nrTasks[c] + 1];
      home := home[child := c];
      OthersOk({c});
      assert forall n {:trigger Ok(n)} | 0 <= n < |live| && live[n] :: n == c || n !in {c};
      assert Ok(c);
    }

    /** cgroup_exit, by a task that is not frozen. */
    method Exit(x: Task)
      requires Valid() && x in home && x !in frozenTasks
      modifies `home, `nrTasks, `frozenBit, `nrFrozenDesc
      ensures Valid() && home == old(home) - {x}
    {
      hide Remaining, Lags, DescExact, TasksExact, HomesOk;
      HomeOf(live, nrDesc, home, x);
      var c := home[x];
      TaskBounds(home, frozenTasks, nrTasks, nrFrozenTasks, c);
      TaskExits(home, frozenTasks, nrTasks, nrFrozenTasks, x);
      assert Ok(c);
      nrTasks := nrTasks[c := nrTasks[c] - 1];
      home := home - {x};
      OthersOk({c});
      if freezeBit[c] {
        InsideIsQuiet();
        RevisitTasks(c);
      } else {
        assert forall n {:trigger Ok(n)} | 0 <= n < |live| && live[n] :: n == c || n !in {c};
        assert Ok(c);
      }
    }

    // -------------------------------------------------------------------------
    // Steps under cgroup_mutex, which a walk holds throughout
    // -------------------------------------------------------------------------

    /** The commit of one task's migration (cgroup_migrate_execute) with cgroup_freezer_migrate_task. */
    method Migrate(x: Task, dst: Node)
      requires Valid() && walk.Idle? && x in home
      requires dst < |live| && live[dst] && (dst == 0 || nrDesc[dst] == 0)
      modifies `home, `nrTasks, `nrFrozenTasks, `frozenBit, `nrFrozenDesc
      ensures Valid() && home == old(home)[x := dst]
    {
      HomeOf(live, nrDesc, home, x);
      var src := home[x];
      TaskMoves(home, frozenTasks, nrTasks, nrFrozenTasks, x, dst);
      HomesSet(live, nrDesc, home, x, dst);
      hide Remaining, Lags, DescExact, TasksExact, HomesOk;
      MoveHome(x, src, dst);
      FreezerMigrateTask(x, src, dst);
    }

    /** The task counts in dst instead of src. */
    method MoveHome(x: Task, src: Node, dst: Node)
      requires Valid() && walk.Idle? && x in home && home[x] == src
      requires dst < |live| && live[dst] && (dst == 0 || nrDesc[dst] == 0)
      modifies `home, `nrTasks
      ensures Shape() && OkBut({src, dst}) && QuietInside() && home == old(home)[x := dst]
      ensures var up := old(nrTasks)[dst := old(nrTasks)[dst] + 1]; nrTasks == up[src := up[src] - 1]
      ensures (frozenBit[src] ==> freezeBit[src]) && (frozenBit[dst] ==> freezeBit[dst])
    {
      HomeOf(live, nrDesc, home, x);
      hide Remaining, Lags, DescExact, HomesOk;
      InsideIsQuiet();
      assert Ok(src) && Ok(dst);
      var up := nrTasks[dst := nrTasks[dst] + 1];
      home := home[x := dst];
      nrTasks := up[src := up[src] - 1];
      OthersOk({src, dst});
    }

    /** cgroup_freezer_migrate_task, for a user task that already counts in dst. */
    method FreezerMigrateTask(x: Task, src: Node, dst: Node)
      requires Shape() && walk.Idle? && !frozenBit[0] && QuietInside()
      requires src < |live| && live[src] && (src == 0 || nrDesc[src] == 0) && (frozenBit[src] ==> freezeBit[src])
      requires dst < |live| && live[dst] && (dst == 0 || nrDesc[dst] == 0) && (frozenBit[dst] ==> freezeBit[dst])
      requires Lags(t.parent, live, frozenBit, nrFrozenDesc, 0, 0) && OkBut({src, dst})
      modifies `nrFrozenTasks, `frozenBit, `nrFrozenDesc
      ensures Shape() && Lags(t.parent, live, frozenBit, nrFrozenDesc, 0, 0) && OkBut({}) && !frozenBit[0]
      ensures var f := if x in frozenTasks then 1 else 0;
        var up := old(nrFrozenTasks)[dst := old(nrFrozenTasks[dst]) + f];
        nrFrozenTasks == up[src := up[src] - f]
    {
      if !freezeBit[src] && !freezeBit[dst] && x !in frozenTasks {
        assert Ok(src) && Ok(dst);
        assert forall n {:trigger Ok(n)} | 0 <= n < |live| && live[n] :: n == src || n == dst || n !in {src, dst};
        return;
      }
      if x in frozenTasks {
        nrFrozenTasks := nrFrozenTasks[dst := nrFrozenTasks[dst] + 1];
        nrFrozenTasks := nrFrozenTasks[src := nrFrozenTasks[src] - 1];
      }
      OthersOk({src, dst});
      UpdateBoth(src, dst);
    }

    lemma SameLengths()
      requires Valid()
      ensures |freezeBit| == |frozenBit| == |nrDesc| == |nrFrozenDesc| == |nrTasks| == |nrFrozenTasks| == |live|
    {}

    /** The two calls of cgroup_update_frozen in cgroup_freezer_migrate_task. */
    method UpdateBoth(src: Node, dst: Node)
      requires Shape() && walk.Idle? && !frozenBit[0] && QuietInside()
      requires src < |live| && live[src] && (src == 0 || nrDesc[src] == 0)
      requires dst < |live| && live[dst] && (dst == 0 || nrDesc[dst] == 0)
      requires Lags(t.parent, live, frozenBit, nrFrozenDesc, 0, 0) && OkBut({src, dst})
      modifies `frozenBit, `nrFrozenDesc
      ensures Shape() && Lags(t.parent, live, frozenBit, nrFrozenDesc, 0, 0) && OkBut({}) && !frozenBit[0]
    {
      ghost var X := {src} - {0};
      assert Ok(0);
      assert forall n {:trigger Ok(n)} | 0 <= n < |live| && live[n] && n !in X + {dst} :: n == 0 || n !in {src, dst};
      if dst != 0 { LeafCounts(dst); }
      UpdateFrozen(dst, X);
      assert forall n {:trigger Ok(n)} | 0 <= n < |live| && live[n] && n !in {src} :: n !in X - {dst};
      RevisitTasks(src);
    }

    // -------------------------------------------------------------------------
    // The walk of cgroup_freeze
    // -------------------------------------------------------------------------

    /** The start of cgroup_freeze; nothing happens when the setting does not change. */
    method FreezeStart(cgrp: Node, on: bool)
      requires Valid() && walk.Idle? && 0 < cgrp < |live| && live[cgrp]
      modifies `freeze, `walk, `unvisited
      ensures Valid() && freeze == old(freeze)[cgrp := on]
      ensures if old(freeze[cgrp]) == on then walk.Idle? else walk == Walk(cgrp, on, cgrp, false) && unvisited == t.Pre(cgrp)
    {
      if freeze[cgrp] == on {
        return;
      }
      SettingChanges(t, live, freeze, eFreeze, freezeBit, cgrp, on);
      freeze := freeze[cgrp := on];
      var pos := NextDescendantPre(t, None, cgrp);
      unvisited := t.Pre(cgrp);
      assert t.Pre(cgrp) + t.AfterPre(cgrp, cgrp) == unvisited;
      StartOk(cgrp, on, pos);
      walk := Walk(cgrp, on, pos.value, false);
      StillOk({});
    }

    lemma StartOk(cgrp: Node, on: bool, pos: Option<Node>)
      requires Shape() && 0 < cgrp < |live| && pos == Head(t.Pre(cgrp))
      ensures Remaining(t, cgrp, pos, t.Pre(cgrp))
    {
      assert t.Pre(cgrp) + t.AfterPre(cgrp, cgrp) == t.Pre(cgrp);
    }

    /** No cgroup is in the window before or now, and no other change. */
    twostate lemma StillOk(X: set<Node>)
      requires old(Shape()) && Shape() && old(OkBut(X))
      requires unchanged(`t, `live, `freezeBit, `frozenBit, `nrDesc, `nrFrozenDesc, `nrTasks, `nrFrozenTasks)
      requires !(walk.Walk? && walk.window)
      requires old(walk.Walk? && walk.window) ==> old(walk.pos in X)
      ensures OkBut(X)
    {
      forall n {:trigger Ok(n)} | 0 <= n < |live| && live[n] && n !in X ensures Ok(n) {
        assert old(Ok(n));
      }
    }

    /** The cursor of the walk moves on; past the end the walk is over. */
    method Advance()
      requires Shape() && walk.Walk? && 0 < walk.root && t.Has(walk.root) && freeze[walk.root] == walk.on
      requires Remaining(t, walk.root, Some(walk.pos), [walk.pos] + unvisited)
      requires Effective(t.parent, live, freeze, eFreeze, freezeBit, unvisited, walk.on)
      modifies `walk
      ensures WalkOk() && !(walk.Walk? && walk.window)
      ensures Effective(t.parent, live, freeze, eFreeze, freezeBit, unvisited, walk.Walk? && walk.on)
    {
      var root, n := walk.root, walk.pos;
      StepRemaining(t, root, n);
      assert unvisited == ([n] + unvisited)[1..] == t.PreFrom(n, 0) + t.AfterPre(root, n);
      var next := NextPre(t, n, root);
      if next.None? { AllTold(t.parent, live, freeze, eFreeze, freezeBit, walk.on); }
      walk := if next.None? then Idle else Walk(root, walk.on, next.value, false);
    }

    lemma CursorFacts()
      requires Shape() && WalkOk() && walk.Walk? && !walk.window
      ensures var n, rest := walk.pos, unvisited; 0 < n < |live| && rest != [] && rest == [n] + rest[1..] && n !in rest[1..]
    {
      var n, rest := walk.pos, unvisited;
      BelowAbove(t, walk.root, n);
      RemainingDistinct(t, walk.root, n);
      assert t.Pre(n)[0] == n;
      var tail := rest[1..];
      assert forall i | 0 <= i < |tail| :: tail[i] == rest[i + 1];
    }

    /**
     The walk reaches its next cgroup: a dying one is passed over, a live one counts the
     new setting, and at the edge between none and one it enters the first section of
     cgroup_do_freeze.
    */
    method FreezeVisit()
      requires Valid() && walk.Walk? && !walk.window
      modifies `eFreeze, `freezeBit, `walk, `unvisited
      ensures Valid() && old(unvisited) == [old(walk.pos)] + unvisited && old(walk.pos) < |live|
      ensures var n, on := old(walk.pos), old(walk.on);
        var edge := live[n] && eFreeze[n] == if on then 1 else 0;
        && eFreeze == old(eFreeze)[n := old(eFreeze)[n] + if !live[n] then 0 else if on then 1 else -1]
        && freezeBit == old(freezeBit)[n := if edge then on else old(freezeBit)[n]]
        && (if edge then walk == old(walk).(window := true) && OutOfStep(n) else !(walk.Walk? && walk.window))
    {
      hide Remaining, Lags, DescExact, Effective, TasksOk, Living;
      var n, on := walk.pos, walk.on;
      CountSetting(n, on);
      // the bit stays when there are other settings
      if live[n] && !(if on then eFreeze[n] > 1 else eFreeze[n] > 0) {
        FirstSection();
        SameTasks();
      } else {
        assert freezeBit[n := freezeBit[n]] == freezeBit;
        Advance();
        StillOk({});
        SameTasks();
      }
    }

    twostate lemma SameTasks()
      requires old(Shape()) && Shape() && old(TasksOk())
      requires unchanged(`t, `live, `nrDesc, `nrTasks, `nrFrozenTasks, `home, `frozenTasks)
      ensures TasksOk()
    {}

    /** The cgroup that the walk has reached counts the new setting. */
    method CountSetting(n: Node, on: bool)
      requires Shape() && WalkOk() && walk.Walk? && !walk.window && walk.pos == n && walk.on == on
      requires Effective(t.parent, live, freeze, eFreeze, freezeBit, unvisited, on)
      modifies `eFreeze, `unvisited
      ensures Shape() && 0 < n < |live| && old(unvisited) == [n] + unvisited
      ensures eFreeze == old(eFreeze)[n := old(eFreeze)[n] + if !live[n] then 0 else if on then 1 else -1]
      ensures live[n] ==> eFreeze[n] >= (if on then 1 else 0) && (freezeBit[n] <==> old(eFreeze)[n] > 0)
      ensures Effective(t.parent, live, freeze, eFreeze, freezeBit[n := if live[n] then eFreeze[n] > 0 else freezeBit[n]], unvisited, on)
    {
      hide DescExact, Effective;
      CursorFacts();
      CgroupTold(t, live, freeze, eFreeze, freezeBit, walk.root, n, unvisited[1..], on);
      unvisited := unvisited[1..];
      if live[n] {
        eFreeze := eFreeze[n := eFreeze[n] + if on then 1 else -1];
      } else {
        assert freezeBit[n := freezeBit[n]] == freezeBit && eFreeze[n := eFreeze[n] + 0] == eFreeze;
      }
    }

    /** At n, FROZEN says whether it must be frozen and all is frozen, except exactly when all is frozen. */
    ghost predicate OutOfStep(n: Node)
      requires n < |freezeBit| == |frozenBit| == |nrDesc| == |nrFrozenDesc| == |nrTasks| == |nrFrozenTasks|
      reads `freezeBit, `frozenBit, `nrDesc, `nrFrozenDesc, `nrTasks, `nrFrozenTasks
    {
      var full := Full(nrDesc[n], nrFrozenDesc[n], nrTasks[n], nrFrozenTasks[n]);
      (frozenBit[n] <==> freezeBit[n] && full) <==> !full
    }

    /** The first section of cgroup_do_freeze. */
    method FirstSection()
      requires Shape() && OkBut({}) && walk.Walk? && !walk.window && walk.pos < |live| && live[walk.pos]
      modifies `freezeBit, `walk
      ensures Shape() && OkBut({}) && walk == old(walk).(window := true)
      ensures freezeBit == old(freezeBit)[walk.pos := walk.on]
      ensures old(freezeBit[walk.pos]) != walk.on ==> OutOfStep(walk.pos)
    {
      assert Ok(walk.pos);
      label before:
      freezeBit := freezeBit[walk.pos := walk.on];
      walk := walk.(window := true);
      forall m {:trigger Ok(m)} | 0 <= m < |live| && live[m] ensures Ok(m) {
        assert old@before(Ok(m));
      }
    }

    /** The second section of cgroup_do_freeze: revisit the state. */
    method SecondSection(n: Node)
      requires Shape() && TasksOk() && OkBut({}) && n < |live| && live[n] && walk.Walk? && walk.window && walk.pos == n
      requires Lags(t.parent, live, frozenBit, nrFrozenDesc, 0, 0) && !frozenBit[0] && !freezeBit[0]
      modifies `frozenBit, `nrFrozenDesc
      ensures Shape() && Lags(t.parent, live, frozenBit, nrFrozenDesc, 0, 0) && !frozenBit[0] && OkBut({n})
      ensures OkAt(freezeBit[n], frozenBit[n], Full(nrDesc[n], nrFrozenDesc[n], nrTasks[n], nrFrozenTasks[n]), false)
    {
      assert Ok(n);
      if nrDesc[n] == nrFrozenDesc[n] {
        InsideIsQuiet();
        assert {} + {n} == {n} && {} - {n} == {};
        UpdateFrozen(n, {});
      }
    }

    /** The second section of cgroup_do_freeze and the step of the walk to the next cgroup. */
    method FreezeRevisit()
      requires Valid() && walk.Walk? && walk.window
      modifies `frozenBit, `nrFrozenDesc, `walk
      ensures Valid() && !(walk.Walk? && walk.window)
    {
      SecondSection(walk.pos);
      AllSettled(walk.pos);
      LeaveWindow();
    }

    /** Every live cgroup is as it should be outside the window. */
    ghost predicate Settled()
      requires Shape()
      reads `t, `live, `freeze, `eFreeze, `freezeBit, `frozenBit, `nrDesc, `nrFrozenDesc, `nrTasks, `nrFrozenTasks
    {
      forall n {:trigger nrDesc[n]} | 0 <= n < |live| && live[n] ::
        OkAt(freezeBit[n], frozenBit[n], Full(nrDesc[n], nrFrozenDesc[n], nrTasks[n], nrFrozenTasks[n]), false)
    }

    lemma AllSettled(n: Node)
      requires Shape() && n < |live| && OkBut({n}) && walk.Walk? && walk.pos == n
      requires OkAt(freezeBit[n], frozenBit[n], Full(nrDesc[n], nrFrozenDesc[n], nrTasks[n], nrFrozenTasks[n]), false)
      ensures Settled()
    {
      forall m {:trigger nrDesc[m]} | 0 <= m < |live| && live[m]
        ensures OkAt(freezeBit[m], frozenBit[m], Full(nrDesc[m], nrFrozenDesc[m], nrTasks[m], nrFrozenTasks[m]), false)
      {
        if m != n { assert Ok(m); }
      }
    }

    /** The step of the walk after cgroup_do_freeze. */
    method LeaveWindow()
      requires Shape() && TasksOk() && WalkOk() && walk.Walk? && walk.window
      requires Effective(t.parent, live, freeze, eFreeze, freezeBit, unvisited, walk.on)
      requires Lags(t.parent, live, frozenBit, nrFrozenDesc, 0, 0) && Settled() && !frozenBit[0]
      modifies `walk
      ensures Valid() && !(walk.Walk? && walk.window)
    {
      hide Remaining, Lags, TasksOk, Settled;
      Advance();
      WindowCloses();
    }

    lemma WindowCloses()
      requires Shape() && Settled() && !(walk.Walk? && walk.window)
      ensures OkBut({})
    {
      forall m {:trigger Ok(m)} | 0 <= m < |live| && live[m] ensures Ok(m) {
        assert nrDesc[m] == nrDesc[m];
      }
    }

    /** cgroup_freeze, with no other task running in between. */
    method CgroupFreeze(cgrp: Node, on: bool)
      requires Valid() && walk.Idle? && 0 < cgrp < |live| && live[cgrp]
      modifies `freeze, `eFreeze, `freezeBit, `frozenBit, `nrFrozenDesc, `walk, `unvisited
      ensures Valid() && walk.Idle? && freeze == old(freeze)[cgrp := on]
    {
      assert cgrp < |freeze|;
      hide Valid;
      FreezeStart(cgrp, on);
      while walk.Walk?
        invariant Valid() && freeze == old(freeze)[cgrp := on]
        decreases StepsLeft()
      {
        FreezeStep();
      }
    }

    /** How many steps of the walk are left, at most. */
    ghost function StepsLeft(): nat
      reads `walk, `unvisited
    {
      if walk.Idle? then 0 else 1 + 2 * |unvisited| + if walk.window then 1 else 0
    }

    /** The next section of a walk. */
    method FreezeStep()
      requires Valid() && walk.Walk?
      modifies `eFreeze, `freezeBit, `frozenBit, `nrFrozenDesc, `walk, `unvisited
      ensures Valid() && StepsLeft() < old(StepsLeft())
    {
      hide Valid;
      if walk.window {
        FreezeRevisit();
      } else {
        FreezeVisit();
      }
    }

    // -------------------------------------------------------------------------
    // Creating and destroying
    // -------------------------------------------------------------------------

    /** The upward loop of cgroup_create and of cgroup_destroy_locked over the strict ancestors of c. */
    method CountAtAncestors(c: Node, dd: int, df: int)
      requires t.Shaped() && IsTree(t.parent) && c < |t.parent| == |nrDesc| == |nrFrozenDesc|
      modifies `nrDesc, `nrFrozenDesc
      ensures |nrDesc| == |nrFrozenDesc| == |t.parent|
      ensures forall a | 0 <= a < |nrDesc| ::
        nrDesc[a] == old(nrDesc[a]) + (if StrictlyUnder(t.parent, a, c) then dd else 0)
      ensures forall a | 0 <= a < |nrDesc| ::
        nrFrozenDesc[a] == old(nrFrozenDesc[a]) + (if StrictlyUnder(t.parent, a, c) then df else 0)
    {
      var tcgrp: Node := c;
      while tcgrp != 0
        invariant tcgrp < |t.parent| == |nrDesc| == |nrFrozenDesc| && Under(t.parent, tcgrp, c)
        invariant forall a | 0 <= a < |nrDesc| ::
          nrDesc[a] == old(nrDesc[a]) + (if StrictlyUnder(t.parent, a, c) && !StrictlyUnder(t.parent, a, tcgrp) then dd else 0)
        invariant forall a | 0 <= a < |nrDesc| ::
          nrFrozenDesc[a] == old(nrFrozenDesc[a]) + (if StrictlyUnder(t.parent, a, c) && !StrictlyUnder(t.parent, a, tcgrp) then df else 0)
        decreases tcgrp
      {
        forall a | 0 <= a < |nrDesc|
          ensures StrictlyUnder(t.parent, a, tcgrp) <==> a == t.parent[tcgrp] || StrictlyUnder(t.parent, a, t.parent[tcgrp])
        {
          StrictlyUnderParent(t.parent, a, tcgrp);
        }
        UnderStep(t.parent, tcgrp, c);
        UnderAbove(t.parent, tcgrp, c);
        tcgrp := t.parent[tcgrp];
        nrDesc := nrDesc[tcgrp := nrDesc[tcgrp] + dd];
        nrFrozenDesc := nrFrozenDesc[tcgrp := nrFrozenDesc[tcgrp] + df];
      }
    }

    /** The state after cgroup_create, in terms of the state before. */
    twostate predicate Created(p: Node)
      reads this
    {
      && old(Shape()) && p < |old(live)| && t == WithChild(old(t), p) && IsTree(t.parent)
      && live == old(live) + [true] && freeze == old(freeze) + [false]
      && eFreeze == old(eFreeze) + [old(eFreeze)[p]]
      && freezeBit == old(freezeBit) + [old(eFreeze)[p] > 0] && frozenBit == old(frozenBit) + [old(eFreeze)[p] > 0]
      && nrTasks == old(nrTasks) + [0] && nrFrozenTasks == old(nrFrozenTasks) + [0]
      && |nrDesc| == |nrFrozenDesc| == |old(live)| + 1 == |t.parent|
      && (forall a | 0 <= a < |nrDesc| ::
            nrDesc[a] == (old(nrDesc) + [0])[a] + if StrictlyUnder(t.parent, a, |old(live)|) then 1 else 0)
      && (forall a | 0 <= a < |nrFrozenDesc| ::
            nrFrozenDesc[a] == (old(nrFrozenDesc) + [0])[a] +
              if old(eFreeze)[p] > 0 && StrictlyUnder(t.parent, a, |old(live)|) then 1 else 0)
    }

    twostate lemma CreatedShape(p: Node)
      requires old(Valid()) && p < |old(live)| && old(live)[p] && Created(p)
      ensures Shape() && Lags(t.parent, live, frozenBit, nrFrozenDesc, 0, 0)
    {
      WithChildLiving(old(t), old(live), p);
      NewChildCounted(old(t.parent), old(live), old(nrDesc), p, nrDesc);
      NewChildFrozen(old(t.parent), old(live), old(frozenBit), old(nrFrozenDesc), p, old(eFreeze)[p] > 0, nrFrozenDesc);
    }

    twostate lemma CreatedTasks(p: Node)
      requires old(Valid()) && p < |old(live)| && old(live)[p] && Created(p) && Shape() && unchanged(`home, `frozenTasks)
      requires forall x | x in home :: home[x] != p || p == 0
      ensures TasksOk()
    {
      NewChildTasks(home, frozenTasks, old(nrTasks), old(nrFrozenTasks));
      forall x {:trigger home[x]} | x in home ensures live[home[x]] && (home[x] == 0 || nrDesc[home[x]] == 0) {
        var a := home[x];
        StrictlyUnderParent(t.parent, a, |old(live)|);
        UnderExtends(old(t.parent), p, a, p);
        if a != 0 && StrictlyUnder(t.parent, a, |old(live)|) {
          AncestorLives(old(t), old(live), old(nrDesc), a, p);
        }
      }
    }

    twostate lemma CreatedOk(p: Node)
      requires old(Valid()) && old(walk.Idle?) && p < |old(live)| && old(live)[p] && Created(p) && Shape() && walk.Idle?
      ensures OkBut({})
    {
      var n := |old(live)|;
      forall a {:trigger Ok(a)} | 0 <= a < |live| && live[a] ensures Ok(a) {
        if a < n {
          assert old(Ok(a));
          StrictlyUnderParent(t.parent, a, n);
          UnderExtends(old(t.parent), p, a, p);
          assert EffectiveAt(old(t.parent), old(freeze), old(eFreeze), old(freezeBit), [], false, p);
          if Under(old(t.parent), a, p) {
            FreezeReachesDown(old(t.parent), old(live), old(freeze), old(eFreeze), old(freezeBit), a, p);
          }
        }
      }
    }

    /** cgroup_create: an empty child, frozen at once when its parent must be frozen. */
    method Create(p: Node) returns (c: Node)
      requires Valid() && walk.Idle? && p < |live| && live[p]
      requires forall x | x in home :: home[x] != p || p == 0
      modifies `t, `live, `freeze, `eFreeze, `freezeBit, `frozenBit, `nrDesc, `nrFrozenDesc, `nrTasks, `nrFrozenTasks
      ensures Valid() && c == |old(live)| && Created(p)
    {
      c := InitCgroup(p);
      CreatedShape(p);
      CreatedTasks(p);
      CreatedOk(p);
      NewChildEffective(old(t.parent), old(live), old(freeze), old(eFreeze), old(freezeBit), p);
    }

    /** The assignments of cgroup_create. */
    method InitCgroup(p: Node) returns (c: Node)
      requires Shape() && p < |live| && live[p]
      modifies `t, `live, `freeze, `eFreeze, `freezeBit, `frozenBit, `nrDesc, `nrFrozenDesc, `nrTasks, `nrFrozenTasks
      ensures c == |old(live)| && Created(p)
    {
      WithChildLiving(t, live, p);
      c := |live|;
      var e := eFreeze[p];
      t, live, freeze := WithChild(t, p), live + [true], freeze + [false];
      // the new cgroup inherits the effective count; being empty it is frozen if it has to be
      eFreeze := eFreeze + [e];
      freezeBit, frozenBit := freezeBit + [e > 0], frozenBit + [e > 0];
      nrTasks, nrFrozenTasks := nrTasks + [0], nrFrozenTasks + [0];
      nrDesc, nrFrozenDesc := nrDesc + [0], nrFrozenDesc + [0];
      CountAtAncestors(c, 1, if e > 0 then 1 else 0);
    }

    /** css_has_online_children. */
    method HasOnlineChildren(c: Node) returns (online: bool)
      requires Shape() && c < |live|
      ensures online <==> exists n :: 0 <= n < |live| && live[n] && StrictlyUnder(t.parent, c, n)
      ensures !online ==> nrDesc[c] == 0
    {
      var i := 0;
      while i < |t.kids[c]|
        invariant i <= |t.kids[c]|
        invariant forall k | 0 <= k < i :: !live[t.kids[c][k]]
      {
        if live[t.kids[c][i]] {
          StrictlyUnderParent(t.parent, c, t.kids[c][i]);
          return true;
        }
        i := i + 1;
      }
      ChildlessIsLeaf(c);
      return false;
    }

    /**
     cgroup_destroy_locked: refused while there are tasks or live children. When a frozen
     cgroup dies its ancestors lose a frozen descendant.
    */
    method Destroy(c: Node) returns (ok: bool)
      requires Valid() && walk.Idle? && 0 < c < |live| && live[c]
      modifies `live, `nrDesc, `nrFrozenDesc
      ensures Valid()
      ensures ok <==> (forall x | x in home :: home[x] != c) &&
                      forall n | 0 <= n < |old(live)| && old(live)[n] :: !StrictlyUnder(t.parent, c, n)
      ensures live == if ok then old(live)[c := false] else old(live)
    {
      hide Remaining, Effective, DescExact;
      TaskBounds(home, frozenTasks, nrTasks, nrFrozenTasks, c);
      HasTask(c);
      if nrTasks[c] != 0 {
        return false;
      }
      var online := HasOnlineChildren(c);
      if online {
        return false;
      }
      Die(c);
      return true;
    }

    /** An empty leaf goes offline. */
    method Die(c: Node)
      requires Valid() && walk.Idle? && 0 < c < |live| && live[c] && nrDesc[c] == 0
      requires forall x | x in home :: home[x] != c
      modifies `live, `nrDesc, `nrFrozenDesc
      ensures Valid() && live == old(live)[c := false]
    {
      hide Remaining, Effective, DescExact;
      live := live[c := false];
      CountAtAncestors(c, -1, if frozenBit[c] then -1 else 0);
      DestroyedShape(c);
      DestroyedTasks(c);
      DestroyedOk(c);
      DestroyedEffective(c);
    }

    /** The state after the death of c, in terms of the state before. */
    twostate predicate Destroyed(c: Node)
      reads this
    {
      && old(Valid()) && old(walk.Idle?) && 0 < c < |live| == |old(live)| && old(live)[c] && old(nrDesc)[c] == 0
      && (forall x | x in home :: home[x] != c)
      && unchanged(`t, `freeze, `eFreeze, `freezeBit, `frozenBit, `nrTasks, `nrFrozenTasks, `home, `frozenTasks, `walk, `unvisited)
      && live == old(live)[c := false] && |nrDesc| == |nrFrozenDesc| == |live|
      && (forall a | 0 <= a < |nrDesc| :: nrDesc[a] == old(nrDesc)[a] - if StrictlyUnder(t.parent, a, c) then 1 else 0)
      && (forall a | 0 <= a < |nrFrozenDesc| ::
            nrFrozenDesc[a] == old(nrFrozenDesc)[a] - if frozenBit[c] && StrictlyUnder(t.parent, a, c) then 1 else 0)
    }

    twostate lemma DestroyedShape(c: Node)
      requires Destroyed(c)
      ensures Shape() && Lags(t.parent, live, frozenBit, nrFrozenDesc, 0, 0)
    {
      LeafDies(t, old(live), old(nrDesc), frozenBit, old(nrFrozenDesc), c, nrDesc, nrFrozenDesc);
    }

    twostate lemma DestroyedTasks(c: Node)
      requires Destroyed(c) && Shape()
      ensures TasksOk()
    {
      forall x {:trigger home[x]} | x in home ensures live[home[x]] && (home[x] == 0 || nrDesc[home[x]] == 0) {
        if StrictlyUnder(t.parent, home[x], c) {
          AncestorLives(t, old(live), old(nrDesc), home[x], c);
        }
      }
    }

    twostate lemma DestroyedOk(c: Node)
      requires Destroyed(c) && Shape() && TasksOk() && Lags(t.parent, live, frozenBit, nrFrozenDesc, 0, 0)
      ensures OkBut({})
    {
      HasTask(c);
      TaskBounds(home, frozenTasks, nrTasks, nrFrozenTasks, c);
      assert old(Ok(c));
      LeafCounts(c);
      forall a {:trigger Ok(a)} | 0 <= a < |live| && live[a] ensures Ok(a) {
        assert old(Ok(a));
        if StrictlyUnder(t.parent, a, c) {
          FreezeReachesDown(t.parent, old(live), freeze, eFreeze, freezeBit, a, c);
        }
      }
    }

    twostate lemma DestroyedEffective(c: Node)
      requires Destroyed(c) && Shape()
      ensures Effective(t.parent, live, freeze, eFreeze, freezeBit, unvisited, walk.Walk? && walk.on)
    {
      forall n | 0 <= n < |live| && live[n] ensures EffectiveAt(t.parent, freeze, eFreeze, freezeBit, unvisited, false, n) {
        assert EffectiveAt(t.parent, freeze, eFreeze, freezeBit, [], false, n);
      }
    }

    lemma HasTask(c: Node)
      requires Shape() && TasksOk() && c < |live|
      ensures nrTasks[c] == 0 <==> forall x | x in home :: home[x] != c
    {
      assert TasksAt(home, frozenTasks, nrTasks, nrFrozenTasks, c);
      if forall x | x in home :: home[x] != c {
        assert Members(home, c) == {};
      } else {
        var x :| x in home && home[x] == c;
        assert x in Members(home, c);
      }
    }

    lemma ChildlessIsLeaf(c: Node)
      requires Shape() && c < |live| && forall i | 0 <= i < |t.kids[c]| :: !live[t.kids[c][i]]
      ensures nrDesc[c] == 0 && forall n | 0 <= n < |live| && live[n] :: !StrictlyUnder(t.parent, c, n)
    {
      forall n | 0 <= n < |live| && live[n] ensures !StrictlyUnder(t.parent, c, n) {
        if StrictlyUnder(t.parent, c, n) {
          var i := LiveChild(t, live, c, n);
        }
      }
      assert DescAt(t.parent, live, nrDesc, c);
      CountNone(t.parent, live, live, c, |live|);
    }

    // -------------------------------------------------------------------------
    // What the state means
    // -------------------------------------------------------------------------

    /** At every moment, also during a walk, below a FROZEN cgroup every cgroup is FROZEN and every task frozen. */
    lemma FrozenIsSafe(n: Node)
      requires Valid() && n < |live| && live[n] && frozenBit[n]
      ensures forall k | 0 <= k < |live| && live[k] && StrictlyUnder(t.parent, n, k) :: frozenBit[k]
      ensures forall x | x in home && Under(t.parent, n, home[x]) :: x in frozenTasks
    {
      FrozenBelow(n);
      forall x | x in home && Under(t.parent, n, home[x]) ensures x in frozenTasks {
        assert Ok(home[x]);
        TaskBounds(home, frozenTasks, nrTasks, nrFrozenTasks, home[x]);
      }
    }

    lemma FrozenBelow(n: Node)
      requires Valid() && n < |live| && live[n] && frozenBit[n]
      ensures forall k | 0 <= k < |live| && live[k] && StrictlyUnder(t.parent, n, k) :: frozenBit[k]
    {
      assert Ok(n);
      assert LagsAt(t.parent, live, frozenBit, nrFrozenDesc, 0, 0, n) && DescAt(t.parent, live, nrDesc, n);
      UnderRoot(t.parent, 0);
      CountAll(t.parent, live, frozenBit, n, |live|);
    }

    /** n is between the two sections of cgroup_do_freeze. */
    ghost predicate InWindow(n: Node)
      reads `walk
    {
      walk.Walk? && walk.window && walk.pos == n
    }

    /** Every live cgroup below n has been told to freeze, and the one in the window is FROZEN. */
    ghost predicate ToldBelow(n: Node)
      requires Shape()
      reads `t, `live, `freeze, `eFreeze, `freezeBit, `frozenBit, `nrDesc, `nrFrozenDesc, `nrTasks, `nrFrozenTasks, `walk
    {
      forall k | 0 <= k < |live| && live[k] && StrictlyUnder(t.parent, n, k) :: if InWindow(k) then frozenBit[k] else freezeBit[k]
    }

    /** A cgroup that must be frozen, whose tasks and those below are all frozen, is FROZEN. */
    lemma {:induction false} AllFrozenIsFrozen(n: Node)
      requires Valid() && n < |live| && live[n] && freezeBit[n] && !InWindow(n) && ToldBelow(n)
      requires forall x | x in home && Under(t.parent, n, home[x]) :: x in frozenTasks
      ensures frozenBit[n]
      decreases |live| - n
    {
      forall k | 0 <= k < |live| && live[k] && StrictlyUnder(t.parent, n, k) ensures frozenBit[k] {
        UnderAbove(t.parent, n, k);
        if !InWindow(k) {
          forall j | 0 <= j < |live| && live[j] && StrictlyUnder(t.parent, k, j)
            ensures if InWindow(j) then frozenBit[j] else freezeBit[j]
          {
            UnderTrans(t.parent, n, k, j);
            UnderAbove(t.parent, k, j);
          }
          forall x | x in home && Under(t.parent, k, home[x]) ensures x in frozenTasks {
            UnderTrans(t.parent, n, k, home[x]);
          }
          AllFrozenIsFrozen(k);
        }
      }
      AllMarked(n);
    }

    lemma AllMarked(n: Node)
      requires Valid() && n < |live| && live[n] && freezeBit[n] && !InWindow(n)
      requires forall x | x in home && home[x] == n :: x in frozenTasks
      requires forall k | 0 <= k < |live| && live[k] && StrictlyUnder(t.parent, n, k) :: frozenBit[k]
      ensures frozenBit[n]
    {
      assert LagsAt(t.parent, live, frozenBit, nrFrozenDesc, 0, 0, n) && DescAt(t.parent, live, nrDesc, n);
      UnderRoot(t.parent, 0);
      CountAll(t.parent, live, frozenBit, n, |live|);
      TaskBounds(home, frozenTasks, nrTasks, nrFrozenTasks, n);
      assert Ok(n);
    }

    /**
     At every moment, also during a walk, a live cgroup that is not in the window is FROZEN
     iff it and the cgroups below must be frozen, as far as the walk has told them, and
     every task in its subtree is frozen.
    */
    lemma FrozenDuringWalk(n: Node)
      requires Valid() && n < |live| && live[n] && !InWindow(n)
      ensures frozenBit[n] <==> freezeBit[n] && ToldBelow(n) && forall x | x in home && Under(t.parent, n, home[x]) :: x in frozenTasks
    {
      assert Ok(n);
      if frozenBit[n] {
        FrozenIsSafe(n);
        forall k | 0 <= k < |live| && live[k] && StrictlyUnder(t.parent, n, k) && !InWindow(k) ensures freezeBit[k] {
          assert Ok(k);
        }
      } else if freezeBit[n] && ToldBelow(n) && forall x | x in home && Under(t.parent, n, home[x]) :: x in frozenTasks {
        AllFrozenIsFrozen(n);
      }
    }

    /**
     Outside a freeze walk, a live cgroup is FROZEN iff freezing is set on it or an ancestor
     and every task in its subtree is frozen.
    */
    lemma FrozenMeansAllFrozen(n: Node)
      requires Valid() && walk.Idle? && n < |live| && live[n]
      ensures frozenBit[n] <==>
        (exists a {:trigger freeze[a]} :: 0 <= a < |live| && Under(t.parent, a, n) && freeze[a]) &&
        (forall x | x in home && Under(t.parent, n, home[x]) :: x in frozenTasks)
      ensures eFreeze[n] == PathCount(t.parent, freeze, n)
      ensures nrFrozenDesc[n] == Count(t.parent, live, frozenBit, n, |live|)
    {
      assert EffectiveAt(t.parent, freeze, eFreeze, freezeBit, [], false, n);
      assert LagsAt(t.parent, live, frozenBit, nrFrozenDesc, 0, 0, n);
      UnderRoot(t.parent, 0);
      PathSome(t.parent, freeze, n);
      FrozenDuringWalk(n);
      if freezeBit[n] {
        forall k | 0 <= k < |live| && live[k] && StrictlyUnder(t.parent, n, k) ensures freezeBit[k] {
          FreezeReachesDown(t.parent, live, freeze, eFreeze, freezeBit, n, k);
        }
      }
    }
  }

  /** The root cgroup with one empty child. */
  method OneChild() returns (f: Freezer)
    ensures fresh(f) && f.Valid() && f.walk.Idle? && f.home == map[] && f.t.parent == [0, 0]
    ensures f.live == [true, true] && f.freeze == [false, false] && f.eFreeze == [0, 0] && |f.frozenBit| == 2 && !f.frozenBit[1]
  {
    f := new Freezer();
    var c := f.Create(0);
  }

  /**
   A reachable state where FROZEN is out of step: an empty cgroup that has just been told
   to freeze, by the first section of cgroup_do_freeze, is not yet FROZEN.
  */
  method OutOfStepReached() returns (f: Freezer)
    ensures fresh(f) && f.Valid() && f.live == [true, true] && f.t.parent == [0, 0] && f.InWindow(1)
    ensures |f.freezeBit| == |f.frozenBit| == 2 && f.freezeBit[1] && !f.frozenBit[1] && f.home == map[]
    ensures |f.nrDesc| == |f.nrFrozenDesc| == |f.nrTasks| == |f.nrFrozenTasks| == 2 && f.OutOfStep(1)
  {
    f := OneChild();
    hide Freezer.Valid;
    f.FreezeStart(1, true);
    f.SameLengths();
    f.FreezeVisit();
    f.SameLengths();
  }
}
