/**
 The pids controller (pids.c): a charge is added to every cgroup from its own up to, but
 not including, the root. Each addition is one atomic step, so calls interleave freely.
*/
module Pids {
  import opened CgroupTree
  import opened Hierarchy

  // ---------------------------------------------------------------------------
  // Interleaved calls
  // ---------------------------------------------------------------------------

  /**
   Where a charge is. Charging(p): pids_try_charge is about to add at p. Reverting(q, stop):
   the addition at stop went over the limit, q is cancelled next. Held: the call succeeded.
   Releasing(q): pids_uncharge cancels q next.
  */
  datatype Phase = Charging(p: Node) | Reverting(q: Node, stop: Node) | Held | Releasing(q: Node) | Done

  datatype Charge = Charge(origin: Node, num: nat, phase: Phase)

  datatype State = State(counter: seq<int>, charges: seq<Charge>)

  /** The charge is added at n. */
  ghost predicate Added(parent: seq<Node>, c: Charge, n: Node)
    requires IsTree(parent) && n < |parent| && c.origin < |parent|
    requires match c.phase
             case Charging(p) => p < |parent|
             case Reverting(q, stop) => q < |parent| && stop < |parent|
             case Releasing(q) => q < |parent|
             case _ => true
  {
    0 < n && match c.phase
             case Charging(p) => Under(parent, n, c.origin) && !Under(parent, n, p)
             case Reverting(q, stop) => Under(parent, n, q) && Under(parent, stop, n)
             case Held => Under(parent, n, c.origin)
             case Releasing(q) => Under(parent, n, q)
             case Done => false
  }

  /** The charge is added at n and stayed within the limit there. */
  ghost predicate HasPassed(parent: seq<Node>, c: Charge, n: Node)
    requires IsTree(parent) && n < |parent| && c.origin < |parent| && OnPath(parent, c)
  {
    Added(parent, c, n) && !(c.phase.Reverting? && n == c.phase.stop)
  }

  /** The position of a call is on the path of its origin. */
  ghost predicate OnPath(parent: seq<Node>, c: Charge)
    requires IsTree(parent)
  {
    && c.origin < |parent|
    && match c.phase
       case Charging(p) => p < |parent| && Under(parent, p, c.origin)
       case Reverting(q, stop) => 0 < q < |parent| && 0 < stop < |parent| && Under(parent, stop, q) && Under(parent, q, c.origin)
       case Releasing(q) => q < |parent| && Under(parent, q, c.origin)
       case _ => true
  }

  ghost predicate Paths(parent: seq<Node>, cs: seq<Charge>)
    requires IsTree(parent)
  {
    forall i {:trigger OnPath(parent, cs[i])} | 0 <= i < |cs| :: OnPath(parent, cs[i])
  }

  /** The sum at n over the first k charges: of all that are added, or of those that have passed. */
  ghost function Sum(parent: seq<Node>, cs: seq<Charge>, n: Node, passed: bool, k: nat): nat
    requires IsTree(parent) && n < |parent| && Paths(parent, cs) && k <= |cs|
  {
    if k == 0 then 0
    else
      assert OnPath(parent, cs[k - 1]);
      Sum(parent, cs, n, passed, k - 1) + Weight(parent, cs[k - 1], n, passed)
  }

  ghost function Weight(parent: seq<Node>, c: Charge, n: Node, passed: bool): nat
    requires IsTree(parent) && n < |parent| && OnPath(parent, c)
  {
    if if passed then HasPassed(parent, c, n) else Added(parent, c, n) then c.num else 0
  }

  /** pids_try_charge is called. */
  ghost predicate Call(parent: seq<Node>, s: State, s': State) {
    exists origin: Node, num: nat :: origin < |parent| && s' == s.(charges := s.charges + [Charge(origin, num, Charging(origin))])
  }

  ghost function SetPhase(s: State, i: nat, ph: Phase): State
    requires i < |s.charges|
  {
    s.(charges := s.charges[i := s.charges[i].(phase := ph)])
  }

  /** One atomic step of the call of charge i, or the start of its release. */
  ghost predicate Step(parent: seq<Node>, limit: seq<int>, s: State, i: nat, s': State)
    requires IsTree(parent) && |limit| == |parent| == |s.counter| && Paths(parent, s.charges) && i < |s.charges|
  {
    var c := s.charges[i];
    assert OnPath(parent, c);
    match c.phase
    case Charging(p) =>
      if p == 0 then s' == SetPhase(s, i, Held)
      else
        var sum := s.counter[p] + c.num;
        s' == SetPhase(s, i, if sum > limit[p] then Reverting(c.origin, p) else Charging(parent[p])).(counter := s.counter[p := sum])
    case Reverting(q, stop) =>
      s' == SetPhase(s, i, if q == stop then Done else Reverting(parent[q], stop)).(counter := s.counter[q := s.counter[q] - c.num])
    case Held => s' == SetPhase(s, i, Releasing(c.origin))
    case Releasing(q) =>
      if q == 0 then s' == SetPhase(s, i, Done)
      else s' == SetPhase(s, i, Releasing(parent[q])).(counter := s.counter[q := s.counter[q] - c.num])
    case Done => false
  }

  /** Every counter is the sum of what is added there; what has passed is within the limit. */
  ghost predicate At(parent: seq<Node>, limit: seq<int>, s: State, n: Node)
    requires IsTree(parent) && |limit| == |parent| == |s.counter| && Paths(parent, s.charges) && n < |parent|
  {
    && s.counter[n] == Sum(parent, s.charges, n, false, |s.charges|)
    && Sum(parent, s.charges, n, true, |s.charges|) <= limit[n]
  }

  ghost predicate Inv(parent: seq<Node>, limit: seq<int>, s: State) {
    && IsTree(parent) && |limit| == |parent| == |s.counter| && Paths(parent, s.charges)
    && forall n {:trigger At(parent, limit, s, n)} | 0 <= n < |parent| :: At(parent, limit, s, n)
  }

  lemma {:induction false} PassedAtMostAdded(parent: seq<Node>, cs: seq<Charge>, n: Node, k: nat)
    requires IsTree(parent) && n < |parent| && Paths(parent, cs) && k <= |cs|
    ensures Sum(parent, cs, n, true, k) <= Sum(parent, cs, n, false, k)
    decreases k
  {
    if k > 0 {
      assert OnPath(parent, cs[k - 1]);
      PassedAtMostAdded(parent, cs, n, k - 1);
    }
  }

  lemma {:induction false} SumUpdate(parent: seq<Node>, cs: seq<Charge>, i: nat, c: Charge, n: Node, passed: bool, k: nat)
    requires IsTree(parent) && n < |parent| && Paths(parent, cs) && i < |cs| && k <= |cs| && OnPath(parent, c)
    ensures Paths(parent, cs[i := c]) && OnPath(parent, cs[i])
    ensures Sum(parent, cs[i := c], n, passed, k) == Sum(parent, cs, n, passed, k) +
      if i < k then Weight(parent, c, n, passed) - Weight(parent, cs[i], n, passed) else 0
    decreases k
  {
    assert OnPath(parent, cs[i]);
    var cs' := cs[i := c];
    forall j | 0 <= j < |cs| ensures OnPath(parent, cs'[j]) { assert OnPath(parent, cs[j]); }
    if k > 0 {
      assert OnPath(parent, cs[k - 1]);
      SumUpdate(parent, cs, i, c, n, passed, k - 1);
    }
  }

  lemma {:induction false} SumSnoc(parent: seq<Node>, cs: seq<Charge>, c: Charge, n: Node, passed: bool, k: nat)
    requires IsTree(parent) && n < |parent| && Paths(parent, cs) && k <= |cs| && OnPath(parent, c)
    ensures Paths(parent, cs + [c]) && Sum(parent, cs + [c], n, passed, k) == Sum(parent, cs, n, passed, k)
    decreases k
  {
    var cs' := cs + [c];
    forall j | 0 <= j < |cs'| ensures OnPath(parent, cs'[j]) { if j < |cs| { assert OnPath(parent, cs[j]); } }
    if k > 0 {
      assert OnPath(parent, cs[k - 1]);
      SumSnoc(parent, cs, c, n, passed, k - 1);
    }
  }

  lemma RootOnly(parent: seq<Node>, n: Node)
    requires IsTree(parent)
    ensures Under(parent, n, 0) <==> n == 0
  {}

  /** Up the path, n is p or above its parent. */
  lemma UnderUp(parent: seq<Node>, n: Node, p: Node)
    requires IsTree(parent) && 0 < p < |parent|
    ensures Under(parent, n, p) <==> n == p || Under(parent, n, parent[p])
  {
    StrictlyUnderParent(parent, n, p);
  }

  /** The weight of a charge at n before and after its step differs exactly by the addition made. */
  lemma StepWeight(parent: seq<Node>, limit: seq<int>, s: State, i: nat, s': State, n: Node)
    requires IsTree(parent) && |limit| == |parent| == |s.counter| && Paths(parent, s.charges) && i < |s.charges| && n < |parent|
    requires Step(parent, limit, s, i, s')
    ensures |s'.charges| == |s.charges| && s'.charges == s.charges[i := s'.charges[i]] && |s'.counter| == |s.counter|
    ensures OnPath(parent, s.charges[i]) && OnPath(parent, s'.charges[i])
    ensures s'.counter[n] - s.counter[n] == Weight(parent, s'.charges[i], n, false) - Weight(parent, s.charges[i], n, false)
    ensures Weight(parent, s'.charges[i], n, true) > Weight(parent, s.charges[i], n, true) ==> s'.counter[n] <= limit[n]
  {
    var c, c' := s.charges[i], s'.charges[i];
    assert OnPath(parent, c);
    match c.phase {
      case Charging(p) =>
        if p == 0 {
          RootOnly(parent, n);
        } else {
          UnderUp(parent, n, p);
          UnderStep(parent, p, c.origin);
          if n == p {
            if Under(parent, p, parent[p]) { UnderAbove(parent, p, parent[p]); }
          }
          RevertStart(parent, n, c.origin, p);
        }
      case Reverting(q, stop) =>
        UnderUp(parent, n, q);
        if q == stop {
          if Under(parent, stop, n) && Under(parent, n, q) { UnderAbove(parent, stop, n); UnderAbove(parent, n, q); }
        } else {
          UnderUp(parent, stop, q);
          UnderStep(parent, q, c.origin);
          UnderAbove(parent, stop, parent[q]);
          if Under(parent, q, parent[q]) { UnderAbove(parent, q, parent[q]); }
        }
      case Held =>
      case Releasing(q) =>
        if q == 0 {
          RootOnly(parent, n);
        } else {
          UnderUp(parent, n, q);
          UnderStep(parent, q, c.origin);
          if Under(parent, q, parent[q]) { UnderAbove(parent, q, parent[q]); }
        }
    }
  }

  /** What had been added before the addition at p, and p itself, is the path from the origin to p. */
  lemma {:induction false} RevertStart(parent: seq<Node>, n: Node, origin: Node, p: Node)
    requires IsTree(parent) && origin < |parent| && n < |parent| && 0 < p < |parent| && Under(parent, p, origin)
    ensures Under(parent, n, origin) && Under(parent, p, n) <==> Under(parent, n, origin) && (n == p || !Under(parent, n, p))
    decreases origin
  {
    if origin == p {
      if Under(parent, n, p) && Under(parent, p, n) { UnderAbove(parent, n, p); UnderAbove(parent, p, n); }
    } else {
      UnderUp(parent, n, origin);
      UnderUp(parent, p, origin);
      if n == origin {
        if Under(parent, n, p) { UnderAbove(parent, n, p); UnderAbove(parent, p, origin); }
      } else {
        RevertStart(parent, n, parent[origin], p);
      }
    }
  }

  lemma StepKeeps(parent: seq<Node>, limit: seq<int>, s: State, i: nat, s': State)
    requires Inv(parent, limit, s) && i < |s.charges| && Step(parent, limit, s, i, s')
    ensures Inv(parent, limit, s')
  {
    StepWeight(parent, limit, s, i, s', 0);
    SumUpdate(parent, s.charges, i, s'.charges[i], 0, true, 0);
    forall n | 0 <= n < |parent| ensures At(parent, limit, s', n) {
      assert At(parent, limit, s, n);
      StepWeight(parent, limit, s, i, s', n);
      SumUpdate(parent, s.charges, i, s'.charges[i], n, false, |s.charges|);
      SumUpdate(parent, s.charges, i, s'.charges[i], n, true, |s.charges|);
      PassedAtMostAdded(parent, s'.charges, n, |s'.charges|);
    }
  }

  lemma CallKeeps(parent: seq<Node>, limit: seq<int>, s: State, s': State)
    requires Inv(parent, limit, s) && Call(parent, s, s')
    ensures Inv(parent, limit, s')
  {
    var c := s'.charges[|s.charges|];
    assert OnPath(parent, c);
    SumSnoc(parent, s.charges, c, 0, true, 0);
    forall n | 0 <= n < |parent| ensures At(parent, limit, s', n) {
      assert At(parent, limit, s, n);
      SumSnoc(parent, s.charges, c, n, false, |s.charges|);
      SumSnoc(parent, s.charges, c, n, true, |s.charges|);
    }
  }

  /** The charges held in the subtree of n. */
  ghost function HeldBelow(parent: seq<Node>, cs: seq<Charge>, n: Node, k: nat): nat
    requires IsTree(parent) && n < |parent| && Paths(parent, cs) && k <= |cs|
  {
    if k == 0 then 0
    else
      assert OnPath(parent, cs[k - 1]);
      HeldBelow(parent, cs, n, k - 1) + if cs[k - 1].phase.Held? && Under(parent, n, cs[k - 1].origin) then cs[k - 1].num else 0
  }

  /** No call is in flight. */
  ghost predicate Quiet(cs: seq<Charge>) {
    forall i {:trigger cs[i]} | 0 <= i < |cs| :: cs[i].phase.Held? || cs[i].phase.Done?
  }

  /** At the start every counter is what is held in its subtree, and within its limit. */
  ghost predicate Initial(parent: seq<Node>, limit: seq<int>, s: State) {
    && IsTree(parent) && |limit| == |parent| == |s.counter| && Paths(parent, s.charges) && Quiet(s.charges)
    && s.counter[0] == 0 <= limit[0]
    && forall n: Node | 0 < n < |parent| :: s.counter[n] == HeldBelow(parent, s.charges, n, |s.charges|) <= limit[n]
  }

  ghost predicate Next(parent: seq<Node>, limit: seq<int>, s: State, s': State) {
    && IsTree(parent) && |limit| == |parent| == |s.counter| && Paths(parent, s.charges)
    && (Call(parent, s, s') || exists i: nat :: i < |s.charges| && Step(parent, limit, s, i, s'))
  }

  /** A run: any number of calls, their steps interleaved in any way. */
  ghost predicate Run(parent: seq<Node>, limit: seq<int>, run: seq<State>) {
    && 0 < |run| && Initial(parent, limit, run[0])
    && forall k, l {:trigger run[k], run[l]} | 0 <= k < |run| && 0 <= l < |run| && l == k + 1 :: Next(parent, limit, run[k], run[l])
  }

  lemma InitialInv(parent: seq<Node>, limit: seq<int>, s: State)
    requires Initial(parent, limit, s)
    ensures Inv(parent, limit, s)
  {
    forall n: Node | n < |parent| ensures At(parent, limit, s, n) {
      if n == 0 {
        NothingAtRoot(parent, s.charges, false, |s.charges|);
        NothingAtRoot(parent, s.charges, true, |s.charges|);
      } else {
        QuietSum(parent, s.charges, n, false, |s.charges|);
        QuietSum(parent, s.charges, n, true, |s.charges|);
      }
    }
  }

  lemma {:induction false} NothingAtRoot(parent: seq<Node>, cs: seq<Charge>, passed: bool, k: nat)
    requires IsTree(parent) && Paths(parent, cs) && k <= |cs|
    ensures Sum(parent, cs, 0, passed, k) == 0
    decreases k
  {
    if k > 0 {
      assert OnPath(parent, cs[k - 1]);
      NothingAtRoot(parent, cs, passed, k - 1);
    }
  }

  lemma {:induction false} RunKeeps(parent: seq<Node>, limit: seq<int>, run: seq<State>, k: nat)
    requires Run(parent, limit, run) && k < |run|
    ensures Inv(parent, limit, run[k])
    decreases k
  {
    if k == 0 {
      InitialInv(parent, limit, run[0]);
    } else {
      RunKeeps(parent, limit, run, k - 1);
      var s, s' := run[k - 1], run[k];
      if Call(parent, s, s') {
        CallKeeps(parent, limit, s, s');
      } else {
        var i: nat :| i < |s.charges| && Step(parent, limit, s, i, s');
        StepKeeps(parent, limit, s, i, s');
      }
    }
  }

  /** In every interleaving, what has passed a cgroup and was not taken back stays within its limit. */
  lemma LimitHolds(parent: seq<Node>, limit: seq<int>, run: seq<State>, k: nat, n: Node)
    requires Run(parent, limit, run) && k < |run| && n < |parent|
    ensures Inv(parent, limit, run[k]) && Sum(parent, run[k].charges, n, true, |run[k].charges|) <= limit[n]
    ensures run[k].counter[n] >= 0
  {
    RunKeeps(parent, limit, run, k);
    assert At(parent, limit, run[k], n);
  }

  /** Whenever no call is in flight every non-root counter is the sum of the charges held in its subtree. */
  lemma QuietIsExact(parent: seq<Node>, limit: seq<int>, run: seq<State>, k: nat, n: Node)
    requires Run(parent, limit, run) && k < |run| && 0 < n < |parent|
    requires Quiet(run[k].charges)
    ensures Inv(parent, limit, run[k])
    ensures run[k].counter[n] == HeldBelow(parent, run[k].charges, n, |run[k].charges|) <= limit[n]
  {
    RunKeeps(parent, limit, run, k);
    assert At(parent, limit, run[k], n);
    QuietSum(parent, run[k].charges, n, false, |run[k].charges|);
    QuietSum(parent, run[k].charges, n, true, |run[k].charges|);
  }

  lemma {:induction false} QuietSum(parent: seq<Node>, cs: seq<Charge>, n: Node, passed: bool, k: nat)
    requires IsTree(parent) && 0 < n < |parent| && Paths(parent, cs) && k <= |cs|
    requires Quiet(cs)
    ensures Sum(parent, cs, n, passed, k) == HeldBelow(parent, cs, n, k)
    decreases k
  {
    if k > 0 {
      assert OnPath(parent, cs[k - 1]);
      QuietSum(parent, cs, n, passed, k - 1);
    }
  }

  /** A charge that is taken back has gone over the limit of a cgroup on its path. */
  lemma RefusedOverLimit(parent: seq<Node>, limit: seq<int>, run: seq<State>, k: nat, i: nat)
    requires Run(parent, limit, run) && k + 1 < |run| && i < |run[k].charges| && i < |run[k + 1].charges|
    requires run[k].charges[i].phase.Charging? && run[k + 1].charges[i].phase.Reverting?
    ensures var c := run[k + 1].charges[i];
      var stop := c.phase.stop;
      && c.origin < |parent| == |limit| == |run[k + 1].counter| && 0 < stop < |parent| && IsTree(parent) && Under(parent, stop, c.origin)
      && run[k + 1].counter[stop] > limit[stop]
  {
    RunKeeps(parent, limit, run, k);
    RunKeeps(parent, limit, run, k + 1);
    var s, s' := run[k], run[k + 1];
    assert Next(parent, limit, s, s');
    assert OnPath(parent, s.charges[i]) && OnPath(parent, s'.charges[i]);
    UnderStop(parent, s'.charges[i].phase.stop, s'.charges[i].phase.q, s'.charges[i].origin);
  }

  /** What is taken back or released stays so, and a charge never changes its cgroup or amount. */
  lemma {:induction false} DoneIsFinal(parent: seq<Node>, limit: seq<int>, run: seq<State>, k: nat, l: nat, i: nat)
    requires Run(parent, limit, run) && k <= l < |run| && i < |run[k].charges|
    ensures i < |run[l].charges| && run[l].charges[i].origin == run[k].charges[i].origin && run[l].charges[i].num == run[k].charges[i].num
    ensures run[k].charges[i].phase.Done? ==> run[l].charges[i].phase.Done?
    decreases l - k
  {
    if k < l {
      DoneIsFinal(parent, limit, run, k, l - 1, i);
      assert Next(parent, limit, run[l - 1], run[l]);
    }
  }

  lemma {:induction false} UnderStop(parent: seq<Node>, a: Node, b: Node, n: Node)
    requires IsTree(parent) && n < |parent| && b < |parent| && Under(parent, b, n) && Under(parent, a, b)
    ensures Under(parent, a, n)
    decreases n
  {
    if n != b {
      UnderStop(parent, a, b, parent[n]);
      UnderAbove(parent, a, parent[n]);
    }
  }

  // ---------------------------------------------------------------------------
  // Calls that are not interrupted
  // ---------------------------------------------------------------------------

  /** The run goes on by steps of charge i alone, which so far account for all that has changed since was. */
  ghost predicate Alone(parent: seq<Node>, limit: seq<int>, run: seq<State>, i: nat, was: State) {
    && Run(parent, limit, run) && IsTree(parent)
    && var s := run[|run| - 1];
    && i < |s.charges| == |was.charges| && |s.counter| == |was.counter| == |parent| == |limit|
    && s.charges == was.charges[i := was.charges[i].(phase := s.charges[i].phase)] && OnPath(parent, s.charges[i])
    && forall n {:trigger s.counter[n]} | 0 <= n < |parent| :: s.counter[n] == was.counter[n] + Weight(parent, s.charges[i], n, false)
  }

  lemma Goes(parent: seq<Node>, limit: seq<int>, run: seq<State>, s': State)
    requires Run(parent, limit, run) && Next(parent, limit, run[|run| - 1], s')
    ensures Run(parent, limit, run + [s'])
  {
    var r := run + [s'];
    forall k, l | 0 <= k < |r| && 0 <= l < |r| && l == k + 1 ensures Next(parent, limit, r[k], r[l]) {
      if l < |run| { assert Next(parent, limit, run[k], run[l]); }
    }
  }

  /** One more step of charge i. */
  lemma StepAlone(parent: seq<Node>, limit: seq<int>, run: seq<State>, i: nat, was: State, s': State)
    requires Alone(parent, limit, run, i, was) && Paths(parent, run[|run| - 1].charges) && Step(parent, limit, run[|run| - 1], i, s')
    ensures Alone(parent, limit, run + [s'], i, was)
  {
    var s := run[|run| - 1];
    Goes(parent, limit, run, s');
    StepWeight(parent, limit, s, i, s', 0);
    forall n | 0 <= n < |parent| ensures s'.counter[n] == was.counter[n] + Weight(parent, s'.charges[i], n, false) {
      StepWeight(parent, limit, s, i, s', n);
    }
  }

  /** Every limit on the path allows the charge. */
  ghost predicate Fits(parent: seq<Node>, limit: seq<int>, counter: seq<int>, origin: Node, num: nat)
    requires IsTree(parent) && |counter| == |limit| == |parent| && origin < |parent|
  {
    forall n: Node | 0 < n < |parent| && Under(parent, n, origin) :: counter[n] + num <= limit[n]
  }

  /** The rest of pids_try_charge. */
  lemma {:induction false} ChargeRest(parent: seq<Node>, limit: seq<int>, run: seq<State>, i: nat, was: State) returns (run': seq<State>)
    requires Alone(parent, limit, run, i, was) && run[|run| - 1].charges[i].phase.Charging?
    requires var c := run[|run| - 1].charges[i];
      forall n: Node | 0 < n < |parent| && Under(parent, n, c.origin) && !Under(parent, n, c.phase.p) :: was.counter[n] + c.num <= limit[n]
    ensures run <= run' && Alone(parent, limit, run', i, was)
    ensures var c := was.charges[i];
      run'[|run'| - 1].charges[i].phase == if Fits(parent, limit, was.counter, c.origin, c.num) then Held else Done
    decreases run[|run| - 1].charges[i].phase.p
  {
    RunKeeps(parent, limit, run, |run| - 1);
    var s := run[|run| - 1];
    var c := s.charges[i];
    var p := c.phase.p;
    if p == 0 {
      var s' := SetPhase(s, i, Held);
      StepAlone(parent, limit, run, i, was, s');
      forall n: Node | n < |parent| ensures 0 < n ==> !Under(parent, n, 0) { RootOnly(parent, n); }
      return run + [s'];
    }
    var sum := s.counter[p] + c.num;
    assert sum == was.counter[p] + c.num;
    var s' := SetPhase(s, i, if sum > limit[p] then Reverting(c.origin, p) else Charging(parent[p])).(counter := s.counter[p := sum]);
    assert Step(parent, limit, s, i, s');
    StepAlone(parent, limit, run, i, was, s');
    if sum > limit[p] {
      run' := RevertRest(parent, limit, run + [s'], i, was);
    } else {
      forall n: Node | n < |parent| ensures Under(parent, n, p) <==> n == p || Under(parent, n, parent[p]) { UnderUp(parent, n, p); }
      run' := ChargeRest(parent, limit, run + [s'], i, was);
    }
  }

  /** The rest of its revert loop. */
  lemma {:induction false} RevertRest(parent: seq<Node>, limit: seq<int>, run: seq<State>, i: nat, was: State) returns (run': seq<State>)
    requires Alone(parent, limit, run, i, was) && run[|run| - 1].charges[i].phase.Reverting?
    ensures run <= run' && Alone(parent, limit, run', i, was) && run'[|run'| - 1].charges[i].phase == Done
    decreases run[|run| - 1].charges[i].phase.q
  {
    RunKeeps(parent, limit, run, |run| - 1);
    var s := run[|run| - 1];
    var c := s.charges[i];
    var q, stop := c.phase.q, c.phase.stop;
    var s' := SetPhase(s, i, if q == stop then Done else Reverting(parent[q], stop)).(counter := s.counter[q := s.counter[q] - c.num]);
    assert Step(parent, limit, s, i, s');
    StepAlone(parent, limit, run, i, was, s');
    run' := run + [s'];
    if q != stop { run' := RevertRest(parent, limit, run', i, was); }
  }

  /** The rest of pids_uncharge. */
  lemma {:induction false} ReleaseRest(parent: seq<Node>, limit: seq<int>, run: seq<State>, i: nat, was: State) returns (run': seq<State>)
    requires Alone(parent, limit, run, i, was) && run[|run| - 1].charges[i].phase.Releasing?
    ensures run <= run' && Alone(parent, limit, run', i, was) && run'[|run'| - 1].charges[i].phase == Done
    decreases run[|run| - 1].charges[i].phase.q
  {
    RunKeeps(parent, limit, run, |run| - 1);
    var s := run[|run| - 1];
    var c := s.charges[i];
    var q := c.phase.q;
    var s' := if q == 0 then SetPhase(s, i, Done)
              else SetPhase(s, i, Releasing(parent[q])).(counter := s.counter[q := s.counter[q] - c.num]);
    assert Step(parent, limit, s, i, s');
    StepAlone(parent, limit, run, i, was, s');
    run' := run + [s'];
    if q != 0 { run' := ReleaseRest(parent, limit, run', i, was); }
  }

  /** In any state of a run a charge that nothing interrupts is made on the whole path if all limits allow it, and else not at all. */
  lemma ChargeAlone(parent: seq<Node>, limit: seq<int>, run: seq<State>, origin: Node, num: nat) returns (run': seq<State>)
    requires Run(parent, limit, run) && origin < |parent|
    ensures IsTree(parent) && |run[|run| - 1].counter| == |parent| == |limit|
    ensures run < run' && Run(parent, limit, run')
    ensures var s, s' := run[|run| - 1], run'[|run'| - 1];
      var ok := Fits(parent, limit, s.counter, origin, num);
      && s'.charges == s.charges + [Charge(origin, num, if ok then Held else Done)]
      && s'.counter == if ok then AddPath(parent, s.counter, origin, num) else s.counter
  {
    RunKeeps(parent, limit, run, |run| - 1);
    var s, c := run[|run| - 1], Charge(origin, num, Charging(origin));
    var s1 := s.(charges := s.charges + [c]);
    assert Call(parent, s, s1);
    Goes(parent, limit, run, s1);
    RunKeeps(parent, limit, run + [s1], |run|);
    assert OnPath(parent, s1.charges[|s.charges|]);
    run' := ChargeRest(parent, limit, run + [s1], |s.charges|, s1);
    var ok := Fits(parent, limit, s.counter, origin, num);
    assert run'[|run'| - 1].counter == if ok then AddPath(parent, s.counter, origin, num) else s.counter;
  }

  /** So is the release of a charge that is held. */
  lemma ReleaseAlone(parent: seq<Node>, limit: seq<int>, run: seq<State>, i: nat) returns (run': seq<State>)
    requires Run(parent, limit, run) && i < |run[|run| - 1].charges| && run[|run| - 1].charges[i].phase.Held?
    ensures var s := run[|run| - 1]; IsTree(parent) && |s.counter| == |parent| && s.charges[i].origin < |parent|
    ensures run < run' && Run(parent, limit, run')
    ensures var s, s' := run[|run| - 1], run'[|run'| - 1];
      && s'.charges == s.charges[i := s.charges[i].(phase := Done)]
      && s'.counter == AddPath(parent, s.counter, s.charges[i].origin, 0 - s.charges[i].num)
  {
    RunKeeps(parent, limit, run, |run| - 1);
    var s := run[|run| - 1];
    var c := s.charges[i];
    assert OnPath(parent, c);
    var before := s.(counter := AddPath(parent, s.counter, c.origin, 0 - c.num));
    var s1 := SetPhase(s, i, Releasing(c.origin));
    assert Step(parent, limit, s, i, s1);
    assert Alone(parent, limit, run, i, before);
    StepAlone(parent, limit, run, i, before, s1);
    run' := ReleaseRest(parent, limit, run + [s1], i, before);
    assert run'[|run'| - 1].counter == before.counter;
  }

  /** The counters with num added on the path of p below the root. */
  ghost function AddPath(parent: seq<Node>, counter: seq<int>, p: Node, num: int): seq<int>
    requires IsTree(parent) && |counter| == |parent| && p < |parent|
  {
    seq(|counter|, n requires 0 <= n < |counter| => counter[n] + if 0 < n && Under(parent, n, p) then num else 0)
  }

  /** A task to be moved, by the cgroup it is in and the one it goes to. */
  datatype Move = Move(src: Node, dst: Node)

  /** The change of the counter of n when the first k moves are charged. */
  ghost function Shift(parent: seq<Node>, moves: seq<Move>, n: Node, k: nat): int
    requires IsTree(parent) && k <= |moves| && n < |parent| && forall i {:trigger moves[i]} | 0 <= i < |moves| :: moves[i].src < |parent| && moves[i].dst < |parent|
  {
    if k == 0 || n == 0 then 0
    else Shift(parent, moves, n, k - 1)
         + (if Under(parent, n, moves[k - 1].dst) then 1 else 0) - (if Under(parent, n, moves[k - 1].src) then 1 else 0)
  }

  class PidsCgroups {
    const parent: seq<Node>
    var counter: seq<int>
    var limit: seq<int>

    ghost predicate Valid()
      reads this
    {
      IsTree(parent) && |counter| == |limit| == |parent|
    }

    constructor (parent: seq<Node>, limit: seq<int>)
      requires IsTree(parent) && |limit| == |parent|
      ensures Valid() && this.parent == parent && this.limit == limit && counter == seq(|parent|, n => 0)
    {
      this.parent, this.limit := parent, limit;
      counter := seq(|parent|, n => 0);
    }

    /** pids_charge; with a negative amount it is the loop of pids_uncharge. */
    method Charge(pids: Node, num: int)
      requires Valid() && pids < |parent|
      modifies `counter
      ensures Valid() && counter == AddPath(parent, old(counter), pids, num)
    {
      var p: Node := pids;
      RootOnly(parent, 0);
      while p != 0
        invariant Valid() && p < |parent| && Under(parent, p, pids)
        invariant forall n: Node | n < |parent| ::
          counter[n] == old(counter[n]) + if 0 < n && Under(parent, n, pids) && !Under(parent, n, p) then num else 0
        decreases p
      {
        forall n: Node | n < |parent| ensures Under(parent, n, p) <==> n == p || Under(parent, n, parent[p]) {
          UnderUp(parent, n, p);
        }
        if Under(parent, p, parent[p]) { UnderAbove(parent, p, parent[p]); }
        UnderStep(parent, p, pids);
        counter := counter[p := counter[p] + num];
        p := parent[p];
      }
      forall n: Node | n < |parent| ensures 0 < n ==> !Under(parent, n, 0) { RootOnly(parent, n); }
    }

    /** pids_try_charge: all or nothing. */
    method TryCharge(pids: Node, num: nat) returns (ok: bool)
      requires Valid() && pids < |parent|
      modifies `counter
      ensures Valid()
      ensures ok <==> forall n: Node | 0 < n < |parent| && Under(parent, n, pids) :: old(counter[n]) + num <= limit[n]
      ensures counter == if ok then AddPath(parent, old(counter), pids, num) else old(counter)
    {
      var p: Node := pids;
      RootOnly(parent, 0);
      while p != 0
        invariant Valid() && p < |parent| && Under(parent, p, pids)
        invariant forall n: Node | n < |parent| ::
          counter[n] == old(counter[n]) + if 0 < n && Under(parent, n, pids) && !Under(parent, n, p) then num else 0
        invariant forall n: Node | 0 < n < |parent| && Under(parent, n, pids) && !Under(parent, n, p) :: old(counter[n]) + num <= limit[n]
        decreases p
      {
        forall n: Node | n < |parent| ensures Under(parent, n, p) <==> n == p || Under(parent, n, parent[p]) {
          UnderUp(parent, n, p);
        }
        if Under(parent, p, parent[p]) { UnderAbove(parent, p, parent[p]); }
        var sum := counter[p] + num;
        counter := counter[p := sum];
        if sum > limit[p] {
          Revert(pids, p, num, old(counter));
          return false;
        }
        UnderStep(parent, p, pids);
        p := parent[p];
      }
      forall n: Node | n < |parent| ensures 0 < n ==> !Under(parent, n, 0) { RootOnly(parent, n); }
      return true;
    }

    /** The revert loop of pids_try_charge. */
    method Revert(pids: Node, p: Node, num: nat, ghost was: seq<int>)
      requires Valid() && 0 < p < |parent| && pids < |parent| && Under(parent, p, pids) && |was| == |parent|
      requires forall n: Node | n < |parent| ::
        counter[n] == was[n] + if 0 < n && Under(parent, n, pids) && (n == p || !Under(parent, n, p)) then num else 0
      modifies `counter
      ensures Valid() && counter == was
    {
      forall n: Node | n < |parent|
        ensures Under(parent, n, pids) && Under(parent, p, n) <==> Under(parent, n, pids) && (n == p || !Under(parent, n, p))
      {
        RevertStart(parent, n, pids, p);
      }
      var q: Node := pids;
      UnderAbove(parent, p, pids);
      while q != p
        invariant Valid() && 0 < p <= q < |parent| && Under(parent, p, q)
        invariant forall n: Node | n < |parent| :: counter[n] == was[n] + if Under(parent, n, q) && Under(parent, p, n) then num else 0
        decreases q
      {
        forall n: Node | n < |parent| ensures Under(parent, n, q) <==> n == q || Under(parent, n, parent[q]) {
          UnderUp(parent, n, q);
        }
        if Under(parent, q, parent[q]) { UnderAbove(parent, q, parent[q]); }
        UnderAbove(parent, p, parent[q]);
        counter := counter[q := counter[q] - num];
        q := parent[q];
      }
      forall n: Node | n < |parent| ensures Under(parent, n, p) && Under(parent, p, n) <==> n == p {
        if Under(parent, n, p) && Under(parent, p, n) { UnderAbove(parent, n, p); UnderAbove(parent, p, n); }
      }
      counter := counter[p := counter[p] - num];
    }

    /** pids_can_attach. */
    method CanAttach(moves: seq<Move>)
      requires Valid() && forall i {:trigger moves[i]} | 0 <= i < |moves| :: moves[i].src < |parent| && moves[i].dst < |parent|
      modifies `counter
      ensures Valid() && forall n: Node | n < |parent| :: counter[n] == old(counter[n]) + Shift(parent, moves, n, |moves|)
    {
      for i := 0 to |moves|
        invariant Valid() && forall n: Node | n < |parent| :: counter[n] == old(counter[n]) + Shift(parent, moves, n, i)
      {
        Charge(moves[i].dst, 1);
        Charge(moves[i].src, -1);
      }
    }

    /** pids_cancel_attach takes back exactly what pids_can_attach did. */
    method CancelAttach(moves: seq<Move>)
      requires Valid() && forall i {:trigger moves[i]} | 0 <= i < |moves| :: moves[i].src < |parent| && moves[i].dst < |parent|
      modifies `counter
      ensures Valid() && forall n: Node | n < |parent| :: counter[n] == old(counter[n]) - Shift(parent, moves, n, |moves|)
    {
      for i := 0 to |moves|
        invariant Valid() && forall n: Node | n < |parent| :: counter[n] == old(counter[n]) - Shift(parent, moves, n, i)
      {
        Charge(moves[i].src, 1);
        Charge(moves[i].dst, -1);
      }
    }
  }
}
