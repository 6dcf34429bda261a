/**
 What the version 2 freezer counts (freezer.c): frozen descendants, frozen tasks and freeze
 settings, and what one change of the hierarchy, of a task or of a setting does to the counts.
*/
module FreezerCounts {
  import opened CgroupTree
  import opened Hierarchy

  type Task(==, !new)

  // ---------------------------------------------------------------------------
  // Counters
  // ---------------------------------------------------------------------------

  /** nrFrozen counts the live frozen strict descendants, but is still short of d at the strict ancestors of cur. */
  ghost predicate LagsAt(parent: seq<Node>, live: seq<bool>, bits: seq<bool>, nrFrozen: seq<int>, cur: Node, d: int, a: Node)
    requires IsTree(parent) && |parent| == |live| == |bits| == |nrFrozen| && cur < |parent| && a < |parent|
  {
    nrFrozen[a] + (if StrictlyUnder(parent, a, cur) then d else 0) == Count(parent, live, bits, a, |parent|)
  }

  ghost predicate Lags(parent: seq<Node>, live: seq<bool>, bits: seq<bool>, nrFrozen: seq<int>, cur: Node, d: int)
    requires IsTree(parent) && |parent| == |live| == |bits| == |nrFrozen| && cur < |parent|
  {
    forall a {:trigger LagsAt(parent, live, bits, nrFrozen, cur, d, a)} | 0 <= a < |parent| ::
      LagsAt(parent, live, bits, nrFrozen, cur, d, a)
  }

  /** nrDesc counts the live strict descendants. */
  ghost predicate DescAt(parent: seq<Node>, live: seq<bool>, nrDesc: seq<int>, a: Node)
    requires IsTree(parent) && |parent| == |live| == |nrDesc| && a < |parent|
  {
    nrDesc[a] == Count(parent, live, live, a, |parent|)
  }

  ghost predicate DescExact(parent: seq<Node>, live: seq<bool>, nrDesc: seq<int>)
    requires IsTree(parent) && |parent| == |live| == |nrDesc|
  {
    forall a {:trigger DescAt(parent, live, nrDesc, a)} | 0 <= a < |parent| :: DescAt(parent, live, nrDesc, a)
  }

  /** One round of the upward loop: the parent takes the difference and may flip too. */
  lemma LagStep(parent: seq<Node>, live: seq<bool>, bits: seq<bool>, nrFrozen: seq<int>, cur: Node, d: int, b: bool)
    requires IsTree(parent) && |parent| == |live| == |bits| == |nrFrozen| && 0 < cur < |parent|
    requires Lags(parent, live, bits, nrFrozen, cur, d) && live[parent[cur]]
    ensures var a := parent[cur];
      Lags(parent, live, bits[a := b], nrFrozen[a := nrFrozen[a] + d], a, d + (if b then 1 else 0) - (if bits[a] then 1 else 0))
  {
    var a := parent[cur];
    var d' := d + (if b then 1 else 0) - (if bits[a] then 1 else 0);
    var bits', nrFrozen' := bits[a := b], nrFrozen[a := nrFrozen[a] + d];
    forall x | 0 <= x < |parent| ensures LagsAt(parent, live, bits', nrFrozen', a, d', x) {
      assert LagsAt(parent, live, bits, nrFrozen, cur, d, x);
      CountFlip(parent, live, bits, a, b, x, |parent|);
      StrictlyUnderParent(parent, x, cur);
    }
  }

  /** A single flip makes the strict ancestors lag by one. */
  lemma FlipLags(parent: seq<Node>, live: seq<bool>, bits: seq<bool>, nrFrozen: seq<int>, c: Node, b: bool)
    requires IsTree(parent) && |parent| == |live| == |bits| == |nrFrozen| && c < |parent| && live[c] && bits[c] != b
    requires Lags(parent, live, bits, nrFrozen, c, 0)
    ensures Lags(parent, live, bits[c := b], nrFrozen, c, if b then 1 else -1)
  {
    var bits', d := bits[c := b], if b then 1 else -1;
    forall x | 0 <= x < |parent| ensures LagsAt(parent, live, bits', nrFrozen, c, d, x) {
      assert LagsAt(parent, live, bits, nrFrozen, c, 0, x);
      CountFlip(parent, live, bits, c, b, x, |parent|);
    }
  }

  lemma LagsNowhere(parent: seq<Node>, live: seq<bool>, bits: seq<bool>, nrFrozen: seq<int>, cur: Node, d: int, cur': Node)
    requires IsTree(parent) && |parent| == |live| == |bits| == |nrFrozen| && cur < |parent| && cur' < |parent|
    requires Lags(parent, live, bits, nrFrozen, cur, d) && (d == 0 || cur == 0)
    ensures Lags(parent, live, bits, nrFrozen, cur', 0)
  {
    forall x | 0 <= x < |parent| ensures LagsAt(parent, live, bits, nrFrozen, cur', 0, x) {
      assert LagsAt(parent, live, bits, nrFrozen, cur, d, x);
    }
  }

  // ---------------------------------------------------------------------------
  // One cgroup
  // ---------------------------------------------------------------------------

  /** All descendants and all tasks of the cgroup are frozen, by its counters. */
  ghost predicate Full(nrDesc: int, nrFrozenDesc: int, nrTasks: int, nrFrozenTasks: int) {
    nrDesc == nrFrozenDesc && nrTasks == nrFrozenTasks
  }

  /** FROZEN iff FREEZE and all is frozen; between the two sections of cgroup_do_freeze only the last half. */
  ghost predicate OkAt(freezeBit: bool, frozenBit: bool, full: bool, window: bool) {
    if window then frozenBit ==> full else frozenBit <==> freezeBit && full
  }

  // ---------------------------------------------------------------------------
  // Tasks
  // ---------------------------------------------------------------------------

  ghost function Members(home: map<Task, Node>, n: Node): set<Task> {
    set x | x in home && home[x] == n
  }

  ghost predicate TasksAt(home: map<Task, Node>, frozen: set<Task>, nrTasks: seq<int>, nrFrozenTasks: seq<int>, n: Node)
    requires n < |nrTasks| == |nrFrozenTasks|
  {
    nrTasks[n] == |Members(home, n)| && nrFrozenTasks[n] == |Members(home, n) * frozen|
  }

  ghost predicate TasksExact(home: map<Task, Node>, frozen: set<Task>, nrTasks: seq<int>, nrFrozenTasks: seq<int>) {
    && |nrTasks| == |nrFrozenTasks|
    && (forall n {:trigger TasksAt(home, frozen, nrTasks, nrFrozenTasks, n)} | 0 <= n < |nrTasks| ::
          TasksAt(home, frozen, nrTasks, nrFrozenTasks, n))
    && (forall x | x in home :: home[x] < |nrTasks|)
    && frozen <= home.Keys
  }

  lemma CardSubset<T>(a: set<T>, b: set<T>)
    requires a <= b
    ensures |a| <= |b| && (|a| == |b| ==> a == b)
  {
    assert b == a + (b - a);
  }

  lemma TaskBounds(home: map<Task, Node>, frozen: set<Task>, nrTasks: seq<int>, nrFrozenTasks: seq<int>, n: Node)
    requires TasksExact(home, frozen, nrTasks, nrFrozenTasks) && n < |nrTasks|
    ensures 0 <= nrFrozenTasks[n] <= nrTasks[n]
    ensures nrFrozenTasks[n] == nrTasks[n] <==> forall x | x in home && home[x] == n :: x in frozen
  {
    assert TasksAt(home, frozen, nrTasks, nrFrozenTasks, n);
    var all := Members(home, n);
    CardSubset(all * frozen, all);
    if forall x | x in home && home[x] == n :: x in frozen {
      assert all * frozen == all;
    } else {
      var x :| x in home && home[x] == n && x !in frozen;
      assert x in all && x !in all * frozen;
    }
  }

  lemma TaskFreezes(home: map<Task, Node>, frozen: set<Task>, nrTasks: seq<int>, nrFrozenTasks: seq<int>, x: Task)
    requires TasksExact(home, frozen, nrTasks, nrFrozenTasks) && x in home && x !in frozen
    ensures TasksExact(home, frozen + {x}, nrTasks, nrFrozenTasks[home[x] := nrFrozenTasks[home[x]] + 1])
  {
    var frozen', counts' := frozen + {x}, nrFrozenTasks[home[x] := nrFrozenTasks[home[x]] + 1];
    forall n | 0 <= n < |nrTasks| ensures TasksAt(home, frozen', nrTasks, counts', n) {
      assert TasksAt(home, frozen, nrTasks, nrFrozenTasks, n);
      assert Members(home, n) * (frozen + {x}) == Members(home, n) * frozen + if home[x] == n then {x} else {};
    }
  }

  lemma TaskThaws(home: map<Task, Node>, frozen: set<Task>, nrTasks: seq<int>, nrFrozenTasks: seq<int>, x: Task)
    requires TasksExact(home, frozen, nrTasks, nrFrozenTasks) && x in frozen
    ensures TasksExact(home, frozen - {x}, nrTasks, nrFrozenTasks[home[x] := nrFrozenTasks[home[x]] - 1])
  {
    var frozen', counts' := frozen - {x}, nrFrozenTasks[home[x] := nrFrozenTasks[home[x]] - 1];
    forall n | 0 <= n < |nrTasks| ensures TasksAt(home, frozen', nrTasks, counts', n) {
      assert TasksAt(home, frozen, nrTasks, nrFrozenTasks, n);
      assert Members(home, n) * (frozen - {x}) == Members(home, n) * frozen - if home[x] == n then {x} else {};
    }
  }

  lemma TaskJoins(home: map<Task, Node>, frozen: set<Task>, nrTasks: seq<int>, nrFrozenTasks: seq<int>, x: Task, n: Node)
    requires TasksExact(home, frozen, nrTasks, nrFrozenTasks) && x !in home && n < |nrTasks|
    ensures TasksExact(home[x := n], frozen, nrTasks[n := nrTasks[n] + 1], nrFrozenTasks)
  {
    var home', counts' := home[x := n], nrTasks[n := nrTasks[n] + 1];
    forall m | 0 <= m < |nrTasks| ensures TasksAt(home', frozen, counts', nrFrozenTasks, m) {
      assert TasksAt(home, frozen, nrTasks, nrFrozenTasks, m);
      MembersJoin(home, frozen, x, n, m);
    }
  }

  lemma MembersJoin(home: map<Task, Node>, frozen: set<Task>, x: Task, n: Node, m: Node)
    requires x !in home && x !in frozen
    ensures |Members(home[x := n], m)| == |Members(home, m)| + if m == n then 1 else 0
    ensures |Members(home[x := n], m) * frozen| == |Members(home, m) * frozen|
  {
    var was, now := Members(home, m), Members(home[x := n], m);
    assert now == was + if m == n then {x} else {};
    assert now * frozen == was * frozen;
  }

  lemma TaskLeft(home: map<Task, Node>, frozen: set<Task>, x: Task, m: Node)
    requires x in home && x !in frozen
    ensures |Members(home - {x}, m)| == |Members(home, m)| - (if home[x] == m then 1 else 0)
    ensures |Members(home - {x}, m) * frozen| == |Members(home, m) * frozen|
  {
    var was, now := Members(home, m), Members(home - {x}, m);
    assert now == was - if m == home[x] then {x} else {};
    assert now * frozen == was * frozen;
  }

  lemma TaskExits(home: map<Task, Node>, frozen: set<Task>, nrTasks: seq<int>, nrFrozenTasks: seq<int>, x: Task)
    requires TasksExact(home, frozen, nrTasks, nrFrozenTasks) && x in home && x !in frozen
    ensures TasksExact(home - {x}, frozen, nrTasks[home[x] := nrTasks[home[x]] - 1], nrFrozenTasks)
  {
    var n := home[x];
    var home', counts' := home - {x}, nrTasks[n := nrTasks[n] - 1];
    forall m | 0 <= m < |nrTasks| ensures TasksAt(home', frozen, counts', nrFrozenTasks, m) {
      assert TasksAt(home, frozen, nrTasks, nrFrozenTasks, m);
      TaskLeft(home, frozen, x, m);
    }
  }

  /** A frozen task takes its count along. */
  lemma TaskMoves(home: map<Task, Node>, frozen: set<Task>, nrTasks: seq<int>, nrFrozenTasks: seq<int>, x: Task, dst: Node)
    requires TasksExact(home, frozen, nrTasks, nrFrozenTasks) && x in home && dst < |nrTasks|
    ensures var src := home[x];
      var up := nrTasks[dst := nrTasks[dst] + 1];
      var f := if x in frozen then 1 else 0;
      var fup := nrFrozenTasks[dst := nrFrozenTasks[dst] + f];
      TasksExact(home[x := dst], frozen, up[src := up[src] - 1], fup[src := fup[src] - f])
  {
    var src := home[x];
    var up := nrTasks[dst := nrTasks[dst] + 1];
    var f := if x in frozen then 1 else 0;
    var fup := nrFrozenTasks[dst := nrFrozenTasks[dst] + f];
    if src == dst {
      assert home[x := dst] == home && up[src := up[src] - 1] == nrTasks && fup[src := fup[src] - f] == nrFrozenTasks;
    } else {
      var home', counts', fcounts' := home[x := dst], up[src := up[src] - 1], fup[src := fup[src] - f];
      forall m | 0 <= m < |nrTasks| ensures TasksAt(home', frozen, counts', fcounts', m) {
        assert TasksAt(home, frozen, nrTasks, nrFrozenTasks, m);
        MembersMove(home, frozen, x, dst, m);
      }
    }
  }

  lemma OneMore(s: set<Task>, frozen: set<Task>, x: Task)
    requires x !in s
    ensures |s + {x}| == |s| + 1
    ensures |(s + {x}) * frozen| == |s * frozen| + if x in frozen then 1 else 0
  {
    assert (s + {x}) * frozen == s * frozen + if x in frozen then {x} else {};
  }

  lemma MembersMove(home: map<Task, Node>, frozen: set<Task>, x: Task, dst: Node, m: Node)
    requires x in home && home[x] != dst
    ensures var up := (if m == dst then 1 else 0) - (if m == home[x] then 1 else 0);
      && |Members(home[x := dst], m)| == |Members(home, m)| + up
      && |Members(home[x := dst], m) * frozen| == |Members(home, m) * frozen| + if x in frozen then up else 0
  {
    var was, now := Members(home, m), Members(home[x := dst], m);
    if m == dst {
      assert now == was + {x};
      OneMore(was, frozen, x);
    } else if m == home[x] {
      assert was == now + {x};
      OneMore(now, frozen, x);
    } else {
      assert now == was;
    }
  }

  // ---------------------------------------------------------------------------
  // Effective freeze counts
  // ---------------------------------------------------------------------------

  /** A freeze walk in progress: the cursor, and whether its cgroup is between the two sections of cgroup_do_freeze. */
  datatype Walk = Idle | Walk(root: Node, on: bool, pos: Node, window: bool)

  /** eFreeze counts the freeze settings on the path to the root; a walk has still to tell the unvisited. */
  ghost predicate EffectiveAt(parent: seq<Node>, freeze: seq<bool>, eFreeze: seq<int>, freezeBit: seq<bool>,
                              unvisited: seq<Node>, on: bool, n: Node)
    requires IsTree(parent) && |parent| == |freeze| == |eFreeze| == |freezeBit| && n < |parent|
  {
    && eFreeze[n] == PathCount(parent, freeze, n) + (if n in unvisited then (if on then -1 else 1) else 0)
    && (freezeBit[n] <==> eFreeze[n] > 0)
  }

  ghost predicate Effective(parent: seq<Node>, live: seq<bool>, freeze: seq<bool>, eFreeze: seq<int>, freezeBit: seq<bool>,
                            unvisited: seq<Node>, on: bool)
    requires IsTree(parent) && |parent| == |live| == |freeze| == |eFreeze| == |freezeBit|
  {
    && !freeze[0] && !freezeBit[0] && 0 !in unvisited
    && forall n {:trigger EffectiveAt(parent, freeze, eFreeze, freezeBit, unvisited, on, n)} | 0 <= n < |parent| && live[n] ::
         EffectiveAt(parent, freeze, eFreeze, freezeBit, unvisited, on, n)
  }

  // ---------------------------------------------------------------------------
  // The hierarchy
  // ---------------------------------------------------------------------------

  ghost predicate LivingAt(t: Tree, live: seq<bool>, n: Node)
    requires t.Shaped() && |live| == |t.parent| && n < |live|
  {
    live[n] && 0 < n ==> live[t.parent[n]] && t.Linked(n)
  }

  /** A live cgroup is on its parent's list and its parent is live. Dying ones may still be on the list. */
  ghost predicate Living(t: Tree, live: seq<bool>) {
    && t.Valid() && IsTree(t.parent) && |live| == |t.parent| && live[0]
    && forall n {:trigger LivingAt(t, live, n)} | 0 <= n < |live| :: LivingAt(t, live, n)
  }

  /** A strict ancestor of a live cgroup is live and has descendants. */
  lemma {:induction false} AncestorLives(t: Tree, live: seq<bool>, nrDesc: seq<int>, a: Node, c: Node)
    requires Living(t, live) && |nrDesc| == |live| && DescExact(t.parent, live, nrDesc)
    requires c < |live| && live[c] && StrictlyUnder(t.parent, a, c)
    ensures live[a] && nrDesc[a] > 0
    decreases c
  {
    assert LivingAt(t, live, c);
    if t.parent[c] != a {
      UnderAbove(t.parent, a, t.parent[c]);
      AncestorLives(t, live, nrDesc, a, t.parent[c]);
    } else {
      assert DescAt(t.parent, live, nrDesc, a);
      CountNone(t.parent, live, live, a, |live|);
    }
  }

  /** What the counters say in the upward loop at a strict ancestor of c. */
  lemma RoundCounts(t: Tree, live: seq<bool>, bits: seq<bool>, nrFrozen: seq<int>, nrDesc: seq<int>, c: Node, cur: Node, d: int)
    requires Living(t, live) && |live| == |bits| == |nrFrozen| == |nrDesc| && DescExact(t.parent, live, nrDesc)
    requires 0 < cur < |live| && c < |live| && live[c] && Under(t.parent, cur, c)
    requires Lags(t.parent, live, bits, nrFrozen, cur, d)
    ensures var a := t.parent[cur];
      && StrictlyUnder(t.parent, a, c) && live[a] && nrDesc[a] > 0
      && nrFrozen[a] + d <= nrDesc[a]
      && (!bits[c] ==> nrFrozen[a] + d < nrDesc[a])
  {
    var a := t.parent[cur];
    UnderStep(t.parent, cur, c);
    UnderAbove(t.parent, cur, c);
    AncestorLives(t, live, nrDesc, a, c);
    StrictlyUnderParent(t.parent, a, cur);
    assert LagsAt(t.parent, live, bits, nrFrozen, cur, d, a) && DescAt(t.parent, live, nrDesc, a);
    CountAll(t.parent, live, bits, a, |live|);
  }

  /** For a live cgroup, below by lists and under by parents are the same. */
  lemma {:induction false} LiveBelow(t: Tree, live: seq<bool>, a: Node, n: Node)
    requires Living(t, live) && n < |live| && live[n]
    ensures t.Below(a, n) <==> Under(t.parent, a, n)
    decreases n
  {
    assert LivingAt(t, live, n);
    if a < n { LiveBelow(t, live, a, t.parent[n]); }
  }

  /** Changing the setting of r leaves its whole subtree to be told. */
  lemma SettingChanges(t: Tree, live: seq<bool>, freeze: seq<bool>, eFreeze: seq<int>, freezeBit: seq<bool>, r: Node, on: bool)
    requires Living(t, live) && |live| == |freeze| == |eFreeze| == |freezeBit| && 0 < r < |live| && freeze[r] != on
    requires Effective(t.parent, live, freeze, eFreeze, freezeBit, [], false)
    ensures Effective(t.parent, live, freeze[r := on], eFreeze, freezeBit, t.Pre(r), on)
  {
    PreEnumerates(t, r);
    var freeze', un := freeze[r := on], t.Pre(r);
    assert !t.Below(r, 0);
    forall n | 0 <= n < |live| && live[n] ensures EffectiveAt(t.parent, freeze', eFreeze, freezeBit, un, on, n) {
      assert EffectiveAt(t.parent, freeze, eFreeze, freezeBit, [], false, n);
      PathFlip(t.parent, freeze, r, on, n);
      LiveBelow(t, live, r, n);
    }
  }

  /** Telling one cgroup: its count and, at the edge, its FREEZE bit. */
  lemma CgroupTold(t: Tree, live: seq<bool>, freeze: seq<bool>, eFreeze: seq<int>, freezeBit: seq<bool>, r: Node, n: Node, rest: seq<Node>, on: bool)
    requires Living(t, live) && |live| == |freeze| == |eFreeze| == |freezeBit| && 0 < n < |live| && n !in rest
    requires Effective(t.parent, live, freeze, eFreeze, freezeBit, [n] + rest, on)
    requires r < |live| && t.Below(r, n) && freeze[r] == on
    ensures var e := eFreeze[n] + if on then 1 else -1;
      && (live[n] ==> 0 <= e && (on ==> 1 <= e) && (freezeBit[n] <==> eFreeze[n] > 0))
      && Effective(t.parent, live, freeze, if live[n] then eFreeze[n := e] else eFreeze,
                   if live[n] then freezeBit[n := e > 0] else freezeBit, rest, on)
      && (live[n] && on && e > 1 ==> freezeBit[n])
      && (live[n] && !on && e > 0 ==> freezeBit[n])
  {
    var e := eFreeze[n] + if on then 1 else -1;
    var eFreeze', freezeBit' := if live[n] then eFreeze[n := e] else eFreeze, if live[n] then freezeBit[n := e > 0] else freezeBit;
    var un := [n] + rest;
    if live[n] {
      assert EffectiveAt(t.parent, freeze, eFreeze, freezeBit, un, on, n);
      LiveBelow(t, live, r, n);
      PathGrows(t.parent, freeze, r, n);
    }
    forall m | 0 <= m < |live| && live[m] ensures EffectiveAt(t.parent, freeze, eFreeze', freezeBit', rest, on, m) {
      assert EffectiveAt(t.parent, freeze, eFreeze, freezeBit, un, on, m);
    }
  }

  lemma AllTold(parent: seq<Node>, live: seq<bool>, freeze: seq<bool>, eFreeze: seq<int>, freezeBit: seq<bool>, on: bool)
    requires IsTree(parent) && |parent| == |live| == |freeze| == |eFreeze| == |freezeBit|
    requires Effective(parent, live, freeze, eFreeze, freezeBit, [], on)
    ensures Effective(parent, live, freeze, eFreeze, freezeBit, [], false)
  {
    forall n | 0 <= n < |parent| && live[n] ensures EffectiveAt(parent, freeze, eFreeze, freezeBit, [], false, n) {
      assert EffectiveAt(parent, freeze, eFreeze, freezeBit, [], on, n);
    }
  }

  // ---------------------------------------------------------------------------
  // Creating and destroying a cgroup
  // ---------------------------------------------------------------------------

  lemma WithChildLiving(t: Tree, live: seq<bool>, p: Node)
    requires Living(t, live) && p < |live| && live[p]
    ensures Living(WithChild(t, p), live + [true])
  {
    WithChildValid(t, p);
    var t', live' := WithChild(t, p), live + [true];
    assert t'.kids[p][|t.kids[p]|] == |t.parent|;
    forall n | 0 <= n < |live'| ensures LivingAt(t', live', n) {
      if n < |live| {
        assert LivingAt(t, live, n);
        if live[n] && 0 < n {
          var k := t.Index(n);
          assert t'.kids[t.parent[n]][k] == n;
        }
      }
    }
  }

  /** A new live child, its ancestors' descendant counts raised. */
  lemma NewChildCounted(parent: seq<Node>, live: seq<bool>, nrDesc: seq<int>, p: Node, nrDesc': seq<int>)
    requires IsTree(parent) && p < |parent| == |live| == |nrDesc| && |nrDesc'| == |parent| + 1
    requires DescExact(parent, live, nrDesc) && IsTree(parent + [p])
    requires forall a | 0 <= a <= |parent| ::
      nrDesc'[a] == (if a < |parent| then nrDesc[a] else 0) + if StrictlyUnder(parent + [p], a, |parent|) then 1 else 0
    ensures DescExact(parent + [p], live + [true], nrDesc')
  {
    var n := |parent|;
    forall a | 0 <= a <= n ensures DescAt(parent + [p], live + [true], nrDesc', a) {
      if a < n {
        assert DescAt(parent, live, nrDesc, a);
        CountNew(parent, live, live, p, true, a);
        StrictlyUnderParent(parent + [p], a, n);
        UnderExtends(parent, p, a, p);
      } else {
        NothingUnderLast(parent + [p], live + [true], live + [true], n + 1);
      }
    }
  }

  lemma {:induction false} NothingUnderLast(parent: seq<Node>, live: seq<bool>, bits: seq<bool>, n: nat)
    requires IsTree(parent) && n <= |parent| == |live| == |bits|
    ensures Count(parent, live, bits, |parent| - 1, n) == 0
    decreases n
  {
    if n > 0 {
      NothingUnderLast(parent, live, bits, n - 1);
      if Under(parent, |parent| - 1, n - 1) { UnderAbove(parent, |parent| - 1, n - 1); }
    }
  }

  lemma NewChildFrozen(parent: seq<Node>, live: seq<bool>, bits: seq<bool>, nrFrozen: seq<int>, p: Node, b: bool, nrFrozen': seq<int>)
    requires IsTree(parent) && p < |parent| == |live| == |bits| == |nrFrozen| && |nrFrozen'| == |parent| + 1
    requires Lags(parent, live, bits, nrFrozen, 0, 0) && IsTree(parent + [p])
    requires forall a | 0 <= a <= |parent| ::
      nrFrozen'[a] == (if a < |parent| then nrFrozen[a] else 0) + if b && StrictlyUnder(parent + [p], a, |parent|) then 1 else 0
    ensures Lags(parent + [p], live + [true], bits + [b], nrFrozen', 0, 0)
  {
    var n := |parent|;
    forall a | 0 <= a <= n ensures LagsAt(parent + [p], live + [true], bits + [b], nrFrozen', 0, 0, a) {
      if a < n {
        assert LagsAt(parent, live, bits, nrFrozen, 0, 0, a);
        CountNew(parent, live, bits, p, b, a);
        StrictlyUnderParent(parent + [p], a, n);
        UnderExtends(parent, p, a, p);
      } else {
        NothingUnderLast(parent + [p], live + [true], bits + [b], n + 1);
      }
    }
  }

  lemma NewChildEffective(parent: seq<Node>, live: seq<bool>, freeze: seq<bool>, eFreeze: seq<int>, freezeBit: seq<bool>, p: Node)
    requires IsTree(parent) && p < |parent| == |live| == |freeze| == |eFreeze| == |freezeBit| && live[p]
    requires Effective(parent, live, freeze, eFreeze, freezeBit, [], false) && IsTree(parent + [p])
    ensures Effective(parent + [p], live + [true], freeze + [false], eFreeze + [eFreeze[p]], freezeBit + [eFreeze[p] > 0], [], false)
  {
    var parent', live', freeze', eFreeze', freezeBit' :=
      parent + [p], live + [true], freeze + [false], eFreeze + [eFreeze[p]], freezeBit + [eFreeze[p] > 0];
    forall n | 0 <= n < |parent'| && live'[n] ensures EffectiveAt(parent', freeze', eFreeze', freezeBit', [], false, n) {
      var m := if n < |parent| then n else p;
      assert EffectiveAt(parent, freeze, eFreeze, freezeBit, [], false, m);
      PathExtends(parent, freeze, p, m);
    }
  }

  lemma NewChildTasks(home: map<Task, Node>, frozen: set<Task>, nrTasks: seq<int>, nrFrozenTasks: seq<int>)
    requires TasksExact(home, frozen, nrTasks, nrFrozenTasks)
    ensures TasksExact(home, frozen, nrTasks + [0], nrFrozenTasks + [0])
  {
    var a, b := nrTasks + [0], nrFrozenTasks + [0];
    forall n | 0 <= n < |a| ensures TasksAt(home, frozen, a, b, n) {
      if n < |nrTasks| {
        assert TasksAt(home, frozen, nrTasks, nrFrozenTasks, n);
      } else {
        assert Members(home, n) == {};
      }
    }
  }

  /** When a cgroup must be frozen, so must everything below it. */
  lemma FreezeReachesDown(parent: seq<Node>, live: seq<bool>, freeze: seq<bool>, eFreeze: seq<int>, freezeBit: seq<bool>, a: Node, n: Node)
    requires IsTree(parent) && |parent| == |live| == |freeze| == |eFreeze| == |freezeBit| && a < |parent| && n < |parent|
    requires Effective(parent, live, freeze, eFreeze, freezeBit, [], false) && live[a] && live[n] && Under(parent, a, n)
    ensures freezeBit[a] ==> freezeBit[n]
  {
    assert EffectiveAt(parent, freeze, eFreeze, freezeBit, [], false, a);
    assert EffectiveAt(parent, freeze, eFreeze, freezeBit, [], false, n);
    PathGrows(parent, freeze, a, n);
  }

  /** A leaf dies: it no longer counts above. */
  lemma LeafDies(t: Tree, live: seq<bool>, nrDesc: seq<int>, bits: seq<bool>, nrFrozen: seq<int>, c: Node, nrDesc': seq<int>, nrFrozen': seq<int>)
    requires Living(t, live) && 0 < c < |live| == |nrDesc| == |bits| == |nrFrozen| == |nrDesc'| == |nrFrozen'| && live[c]
    requires DescExact(t.parent, live, nrDesc) && Lags(t.parent, live, bits, nrFrozen, 0, 0) && nrDesc[c] == 0
    requires forall a | 0 <= a < |live| :: nrDesc'[a] == nrDesc[a] - if StrictlyUnder(t.parent, a, c) then 1 else 0
    requires forall a | 0 <= a < |live| :: nrFrozen'[a] == nrFrozen[a] - if bits[c] && StrictlyUnder(t.parent, a, c) then 1 else 0
    ensures Living(t, live[c := false])
    ensures DescExact(t.parent, live[c := false], nrDesc')
    ensures Lags(t.parent, live[c := false], bits, nrFrozen', 0, 0)
  {
    var live' := live[c := false];
    forall a | 0 <= a < |live| ensures DescAt(t.parent, live', nrDesc', a) && LagsAt(t.parent, live', bits, nrFrozen', 0, 0, a) {
      assert DescAt(t.parent, live, nrDesc, a) && LagsAt(t.parent, live, bits, nrFrozen, 0, 0, a);
      CountDies(t.parent, live, live, c, a, |live|);
      CountDies(t.parent, live, bits, c, a, |live|);
      CountFlip(t.parent, live', live, c, false, a, |live|);
    }
    forall n | 0 <= n < |live| ensures LivingAt(t, live', n) {
      assert LivingAt(t, live, n);
      if live[n] && 0 < n && t.parent[n] == c {
        assert DescAt(t.parent, live, nrDesc, c);
        CountNone(t.parent, live, live, c, |live|);
        StrictlyUnderParent(t.parent, c, n);
      }
    }
  }

  /** Towards a live strict descendant there is a live child. */
  lemma {:induction false} LiveChild(t: Tree, live: seq<bool>, c: Node, n: Node) returns (i: nat)
    requires Living(t, live) && n < |live| && live[n] && StrictlyUnder(t.parent, c, n)
    ensures c < |live| && i < |t.kids[c]| && live[t.kids[c][i]]
    decreases n
  {
    assert LivingAt(t, live, n);
    if t.parent[n] == c {
      i := t.Index(n);
    } else {
      i := LiveChild(t, live, c, t.parent[n]);
    }
  }

  /** Tasks are in live cgroups that have no descendants, or in the root. */
  ghost predicate HomesOk(live: seq<bool>, nrDesc: seq<int>, home: map<Task, Node>) {
    |live| == |nrDesc| &&
    forall x {:trigger home[x]} | x in home :: home[x] < |live| && live[home[x]] && (home[x] == 0 || nrDesc[home[x]] == 0)
  }

  lemma HomeOf(live: seq<bool>, nrDesc: seq<int>, home: map<Task, Node>, x: Task)
    requires HomesOk(live, nrDesc, home) && x in home
    ensures home[x] < |live| == |nrDesc| && live[home[x]] && (home[x] == 0 || nrDesc[home[x]] == 0)
    ensures HomesOk(live, nrDesc, home - {x})
  {}

  lemma HomesSet(live: seq<bool>, nrDesc: seq<int>, home: map<Task, Node>, x: Task, n: Node)
    requires HomesOk(live, nrDesc, home) && n < |live| && live[n] && (n == 0 || nrDesc[n] == 0)
    ensures HomesOk(live, nrDesc, home[x := n])
  {}
}
