/**
 Two-phase migration (cgroup_migrate_execute in cgroup.c). All subsystems are asked first;
 only when none refuses are the gathered tasks moved, otherwise those that were asked take
 back what they did. The pids controller is the one whose answer has an effect.
*/
module Migration {
  import opened CgroupTree
  import opened Hierarchy
  import opened Populated
  import opened Pids

  // ---------------------------------------------------------------------------
  // Task counts
  // ---------------------------------------------------------------------------

  /** The tasks of the first k css_sets whose pids cgroup is n or below. */
  ghost function Load(parent: seq<Node>, at: seq<Node>, nr: seq<int>, n: Node, k: nat): int
    requires IsTree(parent) && k <= |at| == |nr| && forall c | 0 <= c < |at| :: at[c] < |parent|
  {
    if k == 0 then 0 else Load(parent, at, nr, n, k - 1) + if Under(parent, n, at[k - 1]) then nr[k - 1] else 0
  }

  lemma {:induction false} LoadUpdate(parent: seq<Node>, at: seq<Node>, nr: seq<int>, c: nat, x: int, n: Node, k: nat)
    requires IsTree(parent) && k <= |at| == |nr| && c < |nr| && forall d | 0 <= d < |at| :: at[d] < |parent|
    ensures Load(parent, at, nr[c := x], n, k) ==
      Load(parent, at, nr, n, k) + if c < k && Under(parent, n, at[c]) then x - nr[c] else 0
    decreases k
  {
    if k > 0 { LoadUpdate(parent, at, nr, c, x, n, k - 1); }
  }

  ghost function TotalTasks(nr: seq<int>): int {
    if nr == [] then 0 else nr[0] + TotalTasks(nr[1..])
  }

  lemma {:induction false} TotalUpdate(nr: seq<int>, c: nat, x: int)
    requires c < |nr|
    ensures TotalTasks(nr[c := x]) == TotalTasks(nr) + x - nr[c]
  {
    var u := nr[c := x];
    if c == 0 {
      assert u[1..] == nr[1..];
    } else {
      TotalUpdate(nr[1..], c - 1, x);
      assert u[1..] == nr[1..][c - 1 := x];
    }
  }

  /** One more at one css_set, one less at another. */
  ghost function Transfer(nr: seq<int>, from: nat, to: nat): seq<int>
    requires from < |nr| && to < |nr|
  {
    var up := nr[to := nr[to] + 1];
    up[from := up[from] - 1]
  }

  lemma TransferLoad(parent: seq<Node>, at: seq<Node>, nr: seq<int>, from: nat, to: nat, n: Node)
    requires IsTree(parent) && |at| == |nr| && from < |nr| && to < |nr| && forall d | 0 <= d < |at| :: at[d] < |parent|
    ensures Load(parent, at, Transfer(nr, from, to), n, |nr|) == Load(parent, at, nr, n, |nr|)
      + (if Under(parent, n, at[to]) then 1 else 0) - (if Under(parent, n, at[from]) then 1 else 0)
    ensures TotalTasks(Transfer(nr, from, to)) == TotalTasks(nr)
  {
    var up := nr[to := nr[to] + 1];
    LoadUpdate(parent, at, nr, to, nr[to] + 1, n, |nr|);
    LoadUpdate(parent, at, up, from, up[from] - 1, n, |nr|);
    TotalUpdate(nr, to, nr[to] + 1);
    TotalUpdate(up, from, up[from] - 1);
  }

  // ---------------------------------------------------------------------------
  // The task set
  // ---------------------------------------------------------------------------

  /** mg_tasks when the gathered tasks of the first i sources have arrived at their destinations. */
  ghost function Deliver(mg: seq<seq<Task>>, src: seq<nat>, dst: seq<nat>, i: nat): seq<seq<Task>>
    requires i <= |src| && |dst| == |mg| && forall k {:trigger src[k]} | 0 <= k < |src| :: src[k] < |mg| && dst[src[k]] < |mg|
    ensures |Deliver(mg, src, dst, i)| == |mg|
  {
    if i == 0 then mg
    else
      var m := Deliver(mg, src, dst, i - 1);
      var s := src[i - 1];
      m[dst[s] := m[dst[s]] + mg[s]][s := []]
  }

  /** The moves of the taskset: one for every gathered task of the first i sources. */
  ghost function Moves(mg: seq<seq<Task>>, at: seq<Node>, src: seq<nat>, dst: seq<nat>, i: nat): seq<Move>
    requires i <= |src| && |dst| == |mg| == |at| && forall k {:trigger src[k]} | 0 <= k < |src| :: src[k] < |mg| && dst[src[k]] < |mg|
  {
    if i == 0 then [] else Moves(mg, at, src, dst, i - 1) + Copies(Move(at[src[i - 1]], at[dst[src[i - 1]]]), |mg[src[i - 1]]|)
  }

  /** Sources are distinct, none is a destination, and only sources hold gathered tasks, none of which is also on tasks. */
  ghost predicate Gathered(tasks: seq<seq<Task>>, mg: seq<seq<Task>>, src: seq<nat>, dst: seq<nat>) {
    && |tasks| == |mg| == |dst|
    && (forall k {:trigger src[k]} | 0 <= k < |src| :: src[k] < |mg| && dst[src[k]] < |mg|)
    && (forall k, l {:trigger src[k], src[l]} | 0 <= k < |src| && 0 <= l < |src| :: dst[src[k]] != src[l] && (k != l ==> src[k] != src[l]))
    && (forall c {:trigger mg[c]} | 0 <= c < |mg| && c !in src :: mg[c] == [])
    && (forall c {:trigger mg[c]} | 0 <= c < |mg| :: forall x | x in mg[c] :: x !in tasks[c])
  }

  /** Destinations of the sources, once each. */
  ghost predicate AreDestinations(ds: seq<nat>, src: seq<nat>, dst: seq<nat>)
    requires forall k {:trigger src[k]} | 0 <= k < |src| :: src[k] < |dst|
  {
    && (forall k {:trigger src[k]} | 0 <= k < |src| :: dst[src[k]] in ds)
    && (forall i {:trigger ds[i]} | 0 <= i < |ds| :: ds[i] < |dst| && ds[i] !in src)
    && (forall i, j | 0 <= i < j < |ds| :: ds[i] != ds[j])
  }

  /** Where nothing is delivered to or taken from, mg_tasks stays as it was. */
  lemma {:induction false} DeliverAt(mg: seq<seq<Task>>, src: seq<nat>, dst: seq<nat>, i: nat, c: nat)
    requires i <= |src| && |dst| == |mg| && c < |mg|
    requires forall k {:trigger src[k]} | 0 <= k < |src| :: src[k] < |mg| && dst[src[k]] < |mg|
    requires forall k, l {:trigger src[k], src[l]} | 0 <= k < |src| && 0 <= l < |src| :: dst[src[k]] != src[l] && (k != l ==> src[k] != src[l])
    ensures c in src[..i] ==> Deliver(mg, src, dst, i)[c] == []
    ensures c !in src[..i] && (forall k {:trigger src[k]} | 0 <= k < i :: dst[src[k]] != c) ==> Deliver(mg, src, dst, i)[c] == mg[c]
    decreases i
  {
    if i > 0 {
      DeliverAt(mg, src, dst, i - 1, c);
      assert src[..i] == src[..i - 1] + [src[i - 1]];
    }
  }

  lemma {:induction false} ShiftAppend(parent: seq<Node>, a: seq<Move>, b: seq<Move>, n: Node, k: nat)
    requires IsTree(parent) && n < |parent| && k <= |b|
    requires forall i {:trigger a[i]} | 0 <= i < |a| :: a[i].src < |parent| && a[i].dst < |parent|
    requires forall i {:trigger b[i]} | 0 <= i < |b| :: b[i].src < |parent| && b[i].dst < |parent|
    ensures Shift(parent, a + b, n, |a| + k) == Shift(parent, a, n, |a|) + Shift(parent, b, n, k)
    decreases k
  {
    if k > 0 {
      ShiftAppend(parent, a, b, n, k - 1);
    } else {
      ShiftPrefix(parent, a, b, n, |a|);
    }
  }

  lemma {:induction false} ShiftPrefix(parent: seq<Node>, a: seq<Move>, b: seq<Move>, n: Node, k: nat)
    requires IsTree(parent) && n < |parent| && k <= |a|
    requires forall i {:trigger a[i]} | 0 <= i < |a| :: a[i].src < |parent| && a[i].dst < |parent|
    requires forall i {:trigger b[i]} | 0 <= i < |b| :: b[i].src < |parent| && b[i].dst < |parent|
    ensures Shift(parent, a + b, n, k) == Shift(parent, a, n, k)
    decreases k
  {
    if k > 0 { ShiftPrefix(parent, a, b, n, k - 1); }
  }

  /** mg_tasks when the first k tasks gathered at s have gone to d. */
  ghost function InFlight(mg: seq<seq<Task>>, s: nat, d: nat, k: nat): seq<seq<Task>>
    requires s < |mg| && d < |mg| && k <= |mg[s]|
  {
    mg[d := mg[d] + mg[s][..k]][s := mg[s][k..]]
  }

  lemma InFlightSteps(mg: seq<seq<Task>>, s: nat, d: nat, k: nat)
    requires s < |mg| && d < |mg| && s != d && k <= |mg[s]|
    ensures InFlight(mg, s, d, 0) == mg
    ensures k == |mg[s]| ==> InFlight(mg, s, d, k) == mg[d := mg[d] + mg[s]][s := []]
    ensures k < |mg[s]| ==>
      var m := InFlight(mg, s, d, k);
      m[s] != [] && m[s][0] == mg[s][k] && m[d := m[d] + [m[s][0]]][s := m[s][1..]] == InFlight(mg, s, d, k + 1)
  {
    var q := mg[s];
    assert q[0..] == q && q[..0] == [] && mg[d] + [] == mg[d];
    if k == |q| {
      assert q[..k] == q && q[k..] == [];
    } else {
      assert q[..k + 1] == q[..k] + [q[k]] && q[k..][1..] == q[k + 1..];
      assert mg[d] + q[..k] + [q[k]] == mg[d] + q[..k + 1];
    }
  }

  lemma SourceUntouched(tasks: seq<seq<Task>>, mg: seq<seq<Task>>, src: seq<nat>, dst: seq<nat>, i: nat)
    requires Gathered(tasks, mg, src, dst) && i < |src|
    ensures src[i] < |mg| && dst[src[i]] < |mg| && dst[src[i]] != src[i] && Deliver(mg, src, dst, i)[src[i]] == mg[src[i]]
    ensures forall x | x in mg[src[i]] :: x !in tasks[src[i]]
  {
    assert src[i] !in src[..i] by { assert forall k | 0 <= k < i :: src[..i][k] == src[k]; }
    DeliverAt(mg, src, dst, i, src[i]);
  }

  /** The gathered tasks of the first i sources whose destination is c, source by source. */
  ghost function Arrivals(mg: seq<seq<Task>>, src: seq<nat>, dst: seq<nat>, c: nat, i: nat): seq<Task>
    requires i <= |src| && |dst| == |mg| && forall k {:trigger src[k]} | 0 <= k < |src| :: src[k] < |mg| && dst[src[k]] < |mg|
  {
    if i == 0 then [] else Arrivals(mg, src, dst, c, i - 1) + if dst[src[i - 1]] == c then mg[src[i - 1]] else []
  }

  /** What is on mg_tasks after the commit: the arrivals at a destination, nothing elsewhere. */
  lemma {:induction false} Delivered(tasks: seq<seq<Task>>, mg: seq<seq<Task>>, src: seq<nat>, dst: seq<nat>, c: nat, i: nat)
    requires Gathered(tasks, mg, src, dst) && c < |mg| && i <= |src| && c !in src
    ensures Deliver(mg, src, dst, i)[c] == Arrivals(mg, src, dst, c, i)
    decreases i
  {
    if i > 0 {
      Delivered(tasks, mg, src, dst, c, i - 1);
      assert src[i - 1] in src;
    }
  }

  lemma {:induction false} NoArrivals(mg: seq<seq<Task>>, src: seq<nat>, dst: seq<nat>, c: nat, i: nat)
    requires i <= |src| && |dst| == |mg| && forall k {:trigger src[k]} | 0 <= k < |src| :: src[k] < |mg| && dst[src[k]] < |mg| && dst[src[k]] != c
    ensures Arrivals(mg, src, dst, c, i) == []
    decreases i
  {
    if i > 0 { NoArrivals(mg, src, dst, c, i - 1); }
  }

  /** After the commit the sources are empty and only destinations hold tasks on mg_tasks. */
  lemma AfterCommit(tasks: seq<seq<Task>>, mg: seq<seq<Task>>, src: seq<nat>, dst: seq<nat>, ds: seq<nat>, c: nat)
    requires Gathered(tasks, mg, src, dst) && AreDestinations(ds, src, dst) && c < |mg|
    ensures Deliver(mg, src, dst, |src|)[c] == Arrivals(mg, src, dst, c, |src|)
    ensures c !in ds ==> Arrivals(mg, src, dst, c, |src|) == []
  {
    if c in src {
      DeliverAt(mg, src, dst, |src|, c);
      assert src[..|src|] == src;
      var l :| 0 <= l < |src| && src[l] == c;
      assert forall k {:trigger src[k]} | 0 <= k < |src| :: dst[src[k]] != src[l];
      NoArrivals(mg, src, dst, c, |src|);
    } else {
      Delivered(tasks, mg, src, dst, c, |src|);
      if c !in ds { NoArrivals(mg, src, dst, c, |src|); }
    }
  }

  /** From nr to nr' the load of every pids cgroup below the root changes by the moves. */
  ghost predicate LoadsShift(parent: seq<Node>, at: seq<Node>, nr: seq<int>, nr': seq<int>, moves: seq<Move>) {
    && IsTree(parent) && |at| == |nr| == |nr'| && (forall c | 0 <= c < |at| :: at[c] < |parent|)
    && (forall i {:trigger moves[i]} | 0 <= i < |moves| :: moves[i].src < |parent| && moves[i].dst < |parent|)
    && forall n: Node | 0 < n < |parent| ::
         Load(parent, at, nr', n, |nr|) == Load(parent, at, nr, n, |nr|) + Shift(parent, moves, n, |moves|)
  }

  lemma LoadsShiftTrans(parent: seq<Node>, at: seq<Node>, nr0: seq<int>, nr1: seq<int>, nr2: seq<int>, a: seq<Move>, b: seq<Move>)
    requires LoadsShift(parent, at, nr0, nr1, a) && LoadsShift(parent, at, nr1, nr2, b)
    ensures LoadsShift(parent, at, nr0, nr2, a + b)
  {
    forall n: Node | 0 < n < |parent|
      ensures Load(parent, at, nr2, n, |nr0|) == Load(parent, at, nr0, n, |nr0|) + Shift(parent, a + b, n, |a + b|)
    {
      ShiftAppend(parent, a, b, n, |b|);
    }
  }

  lemma LoadsSame(parent: seq<Node>, at: seq<Node>, nr: seq<int>)
    requires IsTree(parent) && |at| == |nr| && forall c | 0 <= c < |at| :: at[c] < |parent|
    ensures LoadsShift(parent, at, nr, nr, [])
  {}

  lemma TransferShifts(parent: seq<Node>, at: seq<Node>, nr: seq<int>, s: nat, d: nat)
    requires IsTree(parent) && |at| == |nr| && s < |nr| && d < |nr| && forall c | 0 <= c < |at| :: at[c] < |parent|
    ensures LoadsShift(parent, at, nr, Transfer(nr, s, d), [Move(at[s], at[d])])
    ensures TotalTasks(Transfer(nr, s, d)) == TotalTasks(nr)
  {
    TransferLoad(parent, at, nr, s, d, 0);
    var moves := [Move(at[s], at[d])];
    forall n: Node | 0 < n < |parent|
      ensures Load(parent, at, Transfer(nr, s, d), n, |nr|) == Load(parent, at, nr, n, |nr|) + Shift(parent, moves, n, |moves|)
    {
      TransferLoad(parent, at, nr, s, d, n);
      assert Shift(parent, moves, n, 0) == 0;
    }
  }

  /** k equal moves. */
  ghost function Copies(m: Move, k: nat): seq<Move> {
    if k == 0 then [] else Copies(m, k - 1) + [m]
  }

  /** All moves are between cgroups of the hierarchy. */
  ghost predicate InTree(n: nat, moves: seq<Move>) {
    forall j {:trigger moves[j]} | 0 <= j < |moves| :: moves[j].src < n && moves[j].dst < n
  }

  lemma {:induction false} CopiesInTree(n: nat, m: Move, k: nat)
    requires m.src < n && m.dst < n
    ensures InTree(n, Copies(m, k))
  {
    if k > 0 { CopiesInTree(n, m, k - 1); }
  }

  lemma {:induction false} MovesInTree(n: nat, mg: seq<seq<Task>>, at: seq<Node>, src: seq<nat>, dst: seq<nat>, i: nat)
    requires i <= |src| && |dst| == |mg| == |at| && forall c | 0 <= c < |at| :: at[c] < n
    requires forall k {:trigger src[k]} | 0 <= k < |src| :: src[k] < |mg| && dst[src[k]] < |mg|
    ensures InTree(n, Moves(mg, at, src, dst, i))
    decreases i
  {
    if i > 0 {
      MovesInTree(n, mg, at, src, dst, i - 1);
      CopiesInTree(n, Move(at[src[i - 1]], at[dst[src[i - 1]]]), |mg[src[i - 1]]|);
    }
  }

  class Migration {
    const cs: CssSets
    const pids: PidsCgroups
    const at: seq<Node>            // the pids cgroup of each css_set
    var nrTasks: seq<int>

    ghost predicate Base()
      reads this, cs, pids
    {
      && cs.Valid() && pids.Valid() && |at| == |nrTasks| == |cs.links|
      && (forall c | 0 <= c < |at| :: at[c] < |pids.parent|)
      && (forall c {:trigger nrTasks[c]} | 0 <= c < |nrTasks| :: nrTasks[c] == |cs.tasks[c]| + |cs.mgTasks[c]|)
    }

    /** The pids counters count the tasks of every subtree below the root, plus what is charged ahead. */
    ghost predicate Charged(moves: seq<Move>, k: nat)
      requires Base() && k <= |moves| && InTree(|pids.parent|, moves)
      reads this, cs, pids
    {
      forall n: Node | 0 < n < |pids.parent| ::
        pids.counter[n] == Load(pids.parent, at, nrTasks, n, |nrTasks|) + Shift(pids.parent, moves, n, k)
    }

    ghost predicate Valid()
      reads this, cs, pids
    {
      Base() && Charged([], 0)
    }

    constructor (cs: CssSets, pids: PidsCgroups, at: seq<Node>, nrTasks: seq<int>)
      requires cs.Valid() && pids.Valid() && |at| == |nrTasks| == |cs.links|
      requires forall c | 0 <= c < |at| :: at[c] < |pids.parent|
      requires forall c {:trigger nrTasks[c]} | 0 <= c < |nrTasks| :: nrTasks[c] == |cs.tasks[c]| + |cs.mgTasks[c]|
      requires forall n: Node | 0 < n < |pids.parent| :: pids.counter[n] == Load(pids.parent, at, nrTasks, n, |nrTasks|)
      ensures Valid() && this.cs == cs && this.pids == pids && this.at == at && this.nrTasks == nrTasks
    {
      this.cs, this.pids, this.at, this.nrTasks := cs, pids, at, nrTasks;
    }

    /** The commit of one task. */
    method MoveOne(s: nat, d: nat)
      requires Base() && s < |nrTasks| && d < |nrTasks| && s != d && cs.mgTasks[s] != [] && cs.mgTasks[s][0] !in cs.tasks[s]
      modifies `nrTasks, cs
      ensures Base() && cs.tasks == old(cs.tasks) && nrTasks == Transfer(old(nrTasks), s, d)
      ensures cs.mgTasks == old(cs.mgTasks)[d := old(cs.mgTasks[d]) + [old(cs.mgTasks[s][0])]][s := old(cs.mgTasks[s][1..])]
    {
      var task := cs.mgTasks[s][0];
      nrTasks := nrTasks[d := nrTasks[d] + 1];
      cs.MoveTask(task, Some(s), Some(d), true);
      nrTasks := nrTasks[s := nrTasks[s] - 1];
    }

    /** The commit of the tasks gathered at one source, in order. */
    method MoveSource(s: nat, d: nat)
      requires Base() && s < |nrTasks| && d < |nrTasks| && s != d && forall x | x in cs.mgTasks[s] :: x !in cs.tasks[s]
      modifies `nrTasks, cs
      ensures Base() && cs.tasks == old(cs.tasks)
      ensures cs.mgTasks == old(cs.mgTasks)[d := old(cs.mgTasks[d]) + old(cs.mgTasks[s])][s := []]
      ensures TotalTasks(nrTasks) == TotalTasks(old(nrTasks))
      ensures LoadsShift(pids.parent, at, old(nrTasks), nrTasks, Copies(Move(at[s], at[d]), |old(cs.mgTasks[s])|))
    {
      hide LoadsShift, TotalTasks;
      ghost var q, mg0, nr0, k := cs.mgTasks[s], cs.mgTasks, nrTasks, 0;
      InFlightSteps(mg0, s, d, 0);
      LoadsSame(pids.parent, at, nrTasks);
      while cs.mgTasks[s] != []
        invariant Base() && cs.tasks == old(cs.tasks) && k <= |q|
        invariant cs.mgTasks == InFlight(mg0, s, d, k)
        invariant TotalTasks(nrTasks) == TotalTasks(nr0) && LoadsShift(pids.parent, at, nr0, nrTasks, Copies(Move(at[s], at[d]), k))
        decreases |q| - k
      {
        InFlightSteps(mg0, s, d, k);
        assert q[k] in q;
        TransferShifts(pids.parent, at, nrTasks, s, d);
        LoadsShiftTrans(pids.parent, at, nr0, nrTasks, Transfer(nrTasks, s, d), Copies(Move(at[s], at[d]), k), [Move(at[s], at[d])]);
        MoveOne(s, d);
        k := k + 1;
      }
      InFlightSteps(mg0, s, d, k);
    }

    /** The commit: every source in turn. */
    method Commit(src: seq<nat>, dst: seq<nat>)
      requires Base() && Gathered(cs.tasks, cs.mgTasks, src, dst)
      modifies `nrTasks, cs
      ensures Base() && cs.tasks == old(cs.tasks) && cs.mgTasks == Deliver(old(cs.mgTasks), src, dst, |src|)
      ensures TotalTasks(nrTasks) == TotalTasks(old(nrTasks))
      ensures LoadsShift(pids.parent, at, old(nrTasks), nrTasks, Moves(old(cs.mgTasks), at, src, dst, |src|))
    {
      hide LoadsShift, TotalTasks;
      ghost var mg0, nr0 := cs.mgTasks, nrTasks;
      LoadsSame(pids.parent, at, nrTasks);
      for i := 0 to |src|
        invariant Base() && cs.tasks == old(cs.tasks) && TotalTasks(nrTasks) == TotalTasks(nr0)
        invariant cs.mgTasks == Deliver(mg0, src, dst, i)
        invariant LoadsShift(pids.parent, at, nr0, nrTasks, Moves(mg0, at, src, dst, i))
      {
        ghost var nr1, s := nrTasks, src[i];
        SourceUntouched(cs.tasks, mg0, src, dst, i);
        MoveSource(src[i], dst[src[i]]);
        LoadsShiftTrans(pids.parent, at, nr0, nr1, nrTasks, Moves(mg0, at, src, dst, i), Copies(Move(at[s], at[dst[s]]), |mg0[s]|));
      }
    }

    /** The end of cgroup_migrate_execute: what is on mg_tasks of the given css_sets goes back to tasks. */
    method Release(all: seq<nat>)
      requires Base() && forall i {:trigger all[i]} | 0 <= i < |all| :: all[i] < |nrTasks|
      modifies cs
      ensures Base()
      ensures forall c {:trigger cs.tasks[c]} | 0 <= c < |nrTasks| :: cs.tasks[c] == old(cs.tasks[c]) + if c in all then old(cs.mgTasks[c]) else []
      ensures forall c {:trigger cs.mgTasks[c]} | 0 <= c < |nrTasks| :: cs.mgTasks[c] == if c in all then [] else old(cs.mgTasks[c])
    {
      for i := 0 to |all|
        invariant Base()
        invariant forall c {:trigger cs.tasks[c]} | 0 <= c < |nrTasks| ::
          cs.tasks[c] == old(cs.tasks[c]) + if c in all[..i] then old(cs.mgTasks[c]) else []
        invariant forall c {:trigger cs.mgTasks[c]} | 0 <= c < |nrTasks| :: cs.mgTasks[c] == if c in all[..i] then [] else old(cs.mgTasks[c])
      {
        assert all[..i + 1] == all[..i] + [all[i]];
        cs.SpliceBack(all[i]);
      }
      assert all[..|all|] == all;
    }

    /** cgroup_taskset_for_each: the gathered tasks with the pids cgroups they come from and go to. */
    method TasksetMoves(src: seq<nat>, dst: seq<nat>) returns (moves: seq<Move>)
      requires Base() && Gathered(cs.tasks, cs.mgTasks, src, dst)
      ensures moves == Moves(cs.mgTasks, at, src, dst, |src|)
    {
      moves := [];
      for i := 0 to |src|
        invariant moves == Moves(cs.mgTasks, at, src, dst, i)
      {
        ghost var m0 := moves;
        for j := 0 to |cs.mgTasks[src[i]]|
          invariant moves == m0 + Copies(Move(at[src[i]], at[dst[src[i]]]), j)
        {
          moves := moves + [Move(at[src[i]], at[dst[src[i]]])];
        }
      }
    }

    /**
     The can_attach phase, undone by cancel_attach when a subsystem refuses. before and
     after are the answers of the subsystems asked before and after the pids controller.
    */
    method AskAll(moves: seq<Move>, before: seq<bool>, after: seq<bool>) returns (ok: bool)
      requires Base() && InTree(|pids.parent|, moves)
      modifies pids`counter
      ensures Base() && (ok <==> (forall i | 0 <= i < |before| :: before[i]) && forall i | 0 <= i < |after| :: after[i])
      ensures if ok then forall n: Node | n < |pids.parent| :: pids.counter[n] == old(pids.counter[n]) + Shift(pids.parent, moves, n, |moves|)
              else pids.counter == old(pids.counter)
    {
      for i := 0 to |before|
        invariant Base() && pids.counter == old(pids.counter) && forall j | 0 <= j < i :: before[j]
      {
        if !before[i] {
          return false;
        }
      }
      pids.CanAttach(moves);
      for i := 0 to |after|
        invariant Base() && forall j | 0 <= j < i :: after[j]
        invariant forall n: Node | n < |pids.parent| :: pids.counter[n] == old(pids.counter[n]) + Shift(pids.parent, moves, n, |moves|)
      {
        if !after[i] {
          pids.CancelAttach(moves);
          assert forall n: Node | n < |pids.parent| :: pids.counter[n] == old(pids.counter[n]);
          return false;
        }
      }
      return true;
    }

    /**
     cgroup_migrate_execute is all or nothing: every gathered task is at its destination,
     or every one is back on its source's tasks; mg_tasks is empty, no task is lost, and the
     pids counters match where the tasks are.
    */
    method Execute(src: seq<nat>, dst: seq<nat>, ds: seq<nat>, before: seq<bool>, after: seq<bool>) returns (ok: bool)
      requires Valid() && Gathered(cs.tasks, cs.mgTasks, src, dst) && AreDestinations(ds, src, dst)
      modifies `nrTasks, cs, pids`counter
      ensures Valid() && TotalTasks(nrTasks) == TotalTasks(old(nrTasks))
      ensures forall c {:trigger cs.mgTasks[c]} | 0 <= c < |nrTasks| :: cs.mgTasks[c] == []
      ensures ok <==> Moves(old(cs.mgTasks), at, src, dst, |src|) == []
                      || ((forall i | 0 <= i < |before| :: before[i]) && forall i | 0 <= i < |after| :: after[i])
      ensures ok ==> forall c {:trigger cs.tasks[c]} | 0 <= c < |nrTasks| ::
        cs.tasks[c] == old(cs.tasks[c]) + Arrivals(old(cs.mgTasks), src, dst, c, |src|)
      ensures !ok ==> pids.counter == old(pids.counter) && nrTasks == old(nrTasks)
      ensures !ok ==> forall c {:trigger cs.tasks[c]} | 0 <= c < |nrTasks| :: cs.tasks[c] == old(cs.tasks[c]) + old(cs.mgTasks[c])
    {
      hide LoadsShift, TotalTasks;
      ghost var mg0, nr0 := cs.mgTasks, nrTasks;
      var moves := TasksetMoves(src, dst);
      MovesInTree(|pids.parent|, mg0, at, src, dst, |src|);
      ok := true;
      if |moves| != 0 {
        ok := AskAll(moves, before, after);
      }
      if ok {
        Commit(src, dst);
        Settled(nr0, old(pids.counter), moves);
      }
      Release(ds + src);
      forall c | 0 <= c < |nrTasks| ensures cs.mgTasks[c] == [] {
        AfterCommit(old(cs.tasks), mg0, src, dst, ds, c);
      }
      forall c | 0 <= c < |nrTasks| && ok ensures cs.tasks[c] == old(cs.tasks[c]) + Arrivals(mg0, src, dst, c, |src|) {
        AfterCommit(old(cs.tasks), mg0, src, dst, ds, c);
      }
    }

    lemma Settled(nr0: seq<int>, counter0: seq<int>, moves: seq<Move>)
      requires Base() && LoadsShift(pids.parent, at, nr0, nrTasks, moves) && |counter0| == |pids.parent|
      requires forall n: Node | 0 < n < |pids.parent| :: counter0[n] == Load(pids.parent, at, nr0, n, |nr0|)
      requires forall n: Node | n < |pids.parent| :: pids.counter[n] == counter0[n] + Shift(pids.parent, moves, n, |moves|)
      ensures Charged([], 0)
    {}
  }
}
