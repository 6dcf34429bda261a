/**
 The calls of the shared-memory queue: what Alloc and PopAll return in every run, and what
 each call does when, from some state of a run on, no other thread interferes with it.
*/
module MpscCalls {
  import opened MpscQueue

  // ---------------------------------------------------------------------------
  // What the calls return
  // ---------------------------------------------------------------------------

  /** A thread that moves is the one that steps. */
  lemma ProducerMoved<V>(run: seq<State<V>>, i: nat, t: nat)
    requires Run(run) && i + 1 < |run| && t < |run[i].pcs| && |run[i + 1].pcs| == |run[i].pcs| && run[i + 1].pcs[t] != run[i].pcs[t]
    ensures run[i].Shape() && ProducerStep(run[i], t, run[i + 1])
  {
    RunStep(run, i);
  }

  /**
   Alloc looks at the locked free list: it returns null exactly when the list is empty, and
   otherwise goes on to take the first entry.
  */
  lemma AllocReturns<V>(run: seq<State<V>>, i: nat, t: nat) returns (free: seq<Slot>, pend: seq<Slot>, held: seq<Slot>)
    requires Run(run) && i + 1 < |run| && t < |run[i].pcs| && |run[i + 1].pcs| == |run[i].pcs|
    requires run[i].initState == 2 && run[i].pcs[t].AllocTop? && !run[i + 1].pcs[t].AllocTop?
    ensures SplitsInto(run[i], free, pend, held)
    ensures if free == [] then run[i + 1].pcs[t] == Idle && run[i + 1].emptyTop == run[i].size && run[i + 1].hands == run[i].hands
            else run[i + 1].pcs[t].AllocStore? && run[i + 1].pcs[t].top == free[0]
  {
    free, pend, held := SlotsPartitioned(run, i);
    ProducerMoved(run, i, t);
    assert free != [] ==> free[0] < run[i].size by { if free != [] { assert (free + pend + held)[0] == free[0]; } }
  }

  /** The entry that Alloc returns is the first one of the free list, which loses it. */
  lemma AllocTakes<V>(run: seq<State<V>>, i: nat, t: nat) returns (free: seq<Slot>, pend: seq<Slot>, held: seq<Slot>)
    requires Run(run) && i + 1 < |run| && t < |run[i].pcs| && |run[i + 1].pcs| == |run[i].pcs|
    requires run[i].initState == 2 && run[i].pcs[t].AllocStore? && !run[i + 1].pcs[t].AllocStore?
    ensures SplitsInto(run[i], free, pend, held) && free != [] && t < |run[i].hands|
    ensures run[i + 1].pcs[t] == Idle && run[i + 1].hands == run[i].hands[t := run[i].hands[t] + {free[0]}]
    ensures run[i + 1].emptyTop == if |free| > 1 then free[1] else run[i].size
  {
    free, pend, held := SlotsPartitioned(run, i);
    assert free[0] < run[i].size by { assert (free + pend + held)[0] == free[0]; }
    ProducerMoved(run, i, t);
  }

  /** PopAll returns null exactly when nothing is pending. */
  lemma PopReturns<V>(run: seq<State<V>>, i: nat)
    requires Run(run) && i + 1 < |run| && run[i].consumer.PopCheck? && run[i + 1].Shape() && ConsumerStep(run[i], run[i + 1])
    ensures run[i + 1].consumer == if run[i].pendingTail == 0 then PopCheck else PopRead
  {}

  // ---------------------------------------------------------------------------
  // What a call does that no other thread interferes with
  // ---------------------------------------------------------------------------

  ghost function Last<V>(run: seq<State<V>>): State<V>
    requires run != []
  {
    run[|run| - 1]
  }

  lemma Extend<V>(run: seq<State<V>>, r: State<V>)
    requires Run(run) && Next(Last(run), r)
    ensures Run(run + [r]) && Last(run + [r]) == r
  {
    var all := run + [r];
    forall i, j | 0 <= i < j < |all| && j == i + 1 ensures Next(all[i], all[j]) {
      if j < |run| { assert all[i] == run[i] && all[j] == run[j]; }
    }
  }

  /** One step of producer t. */
  lemma ProducerGoes<V>(run: seq<State<V>>, t: nat, r: State<V>)
    requires Run(run) && Last(run).Shape() && t < |Last(run).pcs| && ProducerStep(Last(run), t, r)
    ensures Run(run + [r]) && Last(run + [r]) == r
  {
    Extend(run, r);
  }

  lemma ConsumerGoes<V>(run: seq<State<V>>, r: State<V>)
    requires Run(run) && Last(run).Shape() && ConsumerStep(Last(run), r)
    ensures Run(run + [r]) && Last(run + [r]) == r
  {
    Extend(run, r);
  }

  /** The memory words of the last state are in bounds. */
  lemma LastInBounds<V>(run: seq<State<V>>)
    requires Run(run) && Last(run).initState == 2
    ensures var s := Last(run);
      && s.Shape()
      && (s.emptyTop != s.EmptyLock() ==> s.emptyTop <= s.size)
      && (s.pendingTail != s.PendingLock() ==> s.pendingTail < s.size)
  {
    assert run != [];
    hide Run, Initial, Placed, Linked, HandsOk;
    RunKeeps(run, |run| - 1);
    var s := Last(run);
    var m, eh, ph :| Ready(s, m, eh, ph);
    MeaningInBounds(s, m, eh, ph);
  }

  /** A producer that wants the free list's lock, however far its attempts have come. */
  ghost predicate WantsEmpty(pc: ProducerPc) {
    pc.Idle? || pc.AllocRead? || pc.AllocTry?
  }

  lemma AllocLocks<V>(run: seq<State<V>>, t: nat) returns (all: seq<State<V>>)
    requires Run(run) && Last(run).Shape() && t < |Last(run).pcs| && WantsEmpty(Last(run).pcs[t])
    requires Last(run).emptyTop != Last(run).EmptyLock()
    ensures Run(all) && run < all
    ensures var s := Last(run); Last(all) == s.(pcs := s.pcs[t := AllocTop(s.emptyTop)], emptyTop := s.EmptyLock())
  {
    assert run != [];
    hide Run, Initial;
    var s := Last(run);
    var top := s.emptyTop;
    all := run;
    if s.pcs[t].Idle? {
      var s1 := s.(pcs := s.pcs[t := AllocRead]);
      ProducerGoes(all, t, s1);
      all := all + [s1];
    }
    var s2 := s.(pcs := s.pcs[t := AllocTry(top)]);
    if s.pcs[t] != AllocTry(top) {
      ProducerGoes(all, t, s2);
      all := all + [s2];
    }
    assert s.pcs[t] == AllocTry(top) ==> s.pcs[t := AllocTry(top)] == s.pcs;
    var s3 := s.(pcs := s.pcs[t := AllocTop(top)], emptyTop := s.EmptyLock());
    ProducerGoes(all, t, s3);
    all := all + [s3];
  }

  /** Alloc: null when empty_top is the size, otherwise the slot that empty_top names. */
  lemma AllocAlone<V>(run: seq<State<V>>, t: nat) returns (all: seq<State<V>>)
    requires Run(run) && Last(run).initState == 2 && t < |Last(run).pcs| && WantsEmpty(Last(run).pcs[t])
    requires Last(run).emptyTop != Last(run).EmptyLock()
    ensures Run(all) && run < all
    ensures var s := Last(run);
      && t < |s.hands|
      && if s.emptyTop == s.size then Last(all) == s.(pcs := s.pcs[t := Idle])
         else s.emptyTop < |s.next| &&
              Last(all) == s.(pcs := s.pcs[t := Idle], emptyTop := s.next[s.emptyTop], hands := s.hands[t := s.hands[t] + {s.emptyTop}])
  {
    LastInBounds(run);
    assert run != [];
    hide Run, Initial;
    var s := Last(run);
    var top := s.emptyTop;
    all := AllocLocks(run, t);
    if top == s.size {
      var s4 := s.(pcs := s.pcs[t := Idle]);
      ProducerGoes(all, t, s4);
      all := all + [s4];
    } else {
      var s4 := s.(pcs := s.pcs[t := AllocStore(top, s.next[top])], emptyTop := s.EmptyLock());
      ProducerGoes(all, t, s4);
      var s5 := s.(pcs := s.pcs[t := Idle], emptyTop := s.next[top], hands := s.hands[t := s.hands[t] + {top}]);
      ProducerGoes(all + [s4], t, s5);
      all := all + [s4] + [s5];
    }
  }

  /** A producer that wants to push e, however far its attempts have come. */
  ghost predicate WantsPending(pc: ProducerPc, e: Slot) {
    pc.Idle? || (pc.PushRead? && pc.entry == e) || (pc.PushTry? && pc.entry == e)
  }

  lemma PushLocks<V>(run: seq<State<V>>, t: nat, e: Slot) returns (all: seq<State<V>>)
    requires Run(run) && Last(run).Shape() && t < |Last(run).pcs| && WantsPending(Last(run).pcs[t], e) && e in Last(run).hands[t]
    requires Last(run).pendingTail != Last(run).PendingLock()
    ensures Run(all) && run < all
    ensures var s := Last(run); Last(all) == s.(pcs := s.pcs[t := PushLink(e, s.pendingTail)], pendingTail := s.PendingLock())
  {
    assert run != [];
    hide Run, Initial;
    var s := Last(run);
    var tail := s.pendingTail;
    all := run;
    if s.pcs[t].Idle? {
      var s1 := s.(pcs := s.pcs[t := PushRead(e)]);
      ProducerGoes(all, t, s1);
      all := all + [s1];
    }
    var s2 := s.(pcs := s.pcs[t := PushTry(e, tail)]);
    if s.pcs[t] != PushTry(e, tail) {
      ProducerGoes(all, t, s2);
      all := all + [s2];
    }
    assert s.pcs[t] == PushTry(e, tail) ==> s.pcs[t := PushTry(e, tail)] == s.pcs;
    var s3 := s.(pcs := s.pcs[t := PushLink(e, tail)], pendingTail := s.PendingLock());
    ProducerGoes(all, t, s3);
    all := all + [s3];
  }

  /** Push: the entry is linked behind the last pending one and published. */
  lemma PushAlone<V>(run: seq<State<V>>, t: nat, e: Slot) returns (all: seq<State<V>>)
    requires Run(run) && Last(run).initState == 2 && Last(run).Shape() && t < |Last(run).pcs| && WantsPending(Last(run).pcs[t], e)
    requires e in Last(run).hands[t] && e < Last(run).size && Last(run).pendingTail != Last(run).PendingLock()
    ensures Run(all) && run < all
    ensures var s := Last(run);
      && s.pendingTail < |s.next|
      && Last(all) == s.(pcs := s.pcs[t := Idle], next := s.next[s.pendingTail := e], pendingTail := e,
                         published := s.published + [s.data[e]], hands := s.hands[t := s.hands[t] - {e}])
  {
    LastInBounds(run);
    assert run != [];
    hide Run, Initial;
    var s := Last(run);
    var tail := s.pendingTail;
    all := PushLocks(run, t, e);
    var s4 := s.(pcs := s.pcs[t := PushStore(e, tail)], pendingTail := s.PendingLock(), next := s.next[tail := e]);
    ProducerGoes(all, t, s4);
    var s5 := s.(pcs := s.pcs[t := Idle], next := s.next[tail := e], pendingTail := e,
                 published := s.published + [s.data[e]], hands := s.hands[t := s.hands[t] - {e}]);
    ProducerGoes(all + [s4], t, s5);
    all := all + [s4] + [s5];
  }

  /** An allocated entry may be given any data. */
  lemma WriteAlone<V>(run: seq<State<V>>, t: nat, e: Slot, v: V) returns (all: seq<State<V>>)
    requires Run(run) && Last(run).Shape() && t < |Last(run).pcs| && Last(run).pcs[t] == Idle
    requires e in Last(run).hands[t] && e < Last(run).size
    ensures Run(all) && run < all && Last(all) == Last(run).(data := Last(run).data[e := v])
  {
    var s := Last(run);
    assert s.pcs[t := Idle] == s.pcs;
    ProducerGoes(run, t, s.(data := s.data[e := v]));
    all := run + [s.(data := s.data[e := v])];
  }

  /** PopAll has seen something pending and wants the lock, however far its attempts have come. */
  ghost predicate WantsPop(pc: ConsumerPc, tail: nat) {
    (pc.PopCheck? && tail != 0) || pc.PopRead? || pc.PopTry?
  }

  lemma PopLocks<V>(run: seq<State<V>>) returns (all: seq<State<V>>)
    requires Run(run) && Last(run).Shape() && WantsPop(Last(run).consumer, Last(run).pendingTail)
    requires Last(run).pendingTail != Last(run).PendingLock()
    ensures Run(all) && run < all
    ensures var s := Last(run); Last(all) == s.(consumer := PopFirst(s.pendingTail), pendingTail := s.PendingLock())
  {
    assert run != [];
    hide Run, Initial;
    var s := Last(run);
    var tail := s.pendingTail;
    all := run;
    if s.consumer.PopCheck? {
      var s1 := s.(consumer := PopRead);
      ConsumerGoes(all, s1);
      all := all + [s1];
    }
    var s2 := s.(consumer := PopTry(tail));
    if s.consumer != PopTry(tail) {
      ConsumerGoes(all, s2);
      all := all + [s2];
    }
    var s3 := s.(consumer := PopFirst(tail), pendingTail := s.PendingLock());
    ConsumerGoes(all, s3);
    all := all + [s3];
  }

  /** PopAll with something pending: the consumer gets the first pending entry and the chain is terminated. */
  lemma PopAlone<V>(run: seq<State<V>>) returns (all: seq<State<V>>)
    requires Run(run) && Last(run).initState == 2 && WantsPop(Last(run).consumer, Last(run).pendingTail)
    requires Last(run).pendingTail != Last(run).PendingLock()
    ensures Run(all) && run < all
    ensures var s := Last(run);
      && s.Shape() && s.pendingTail < |s.next|
      && Last(all) == s.(pendingTail := 0, next := s.next[s.pendingTail := s.size], consumer := Reading(s.next[0], s.next[0]))
  {
    LastInBounds(run);
    assert run != [];
    hide Run, Initial;
    var s := Last(run);
    var tail, first := s.pendingTail, s.next[0];
    all := PopLocks(run);
    var s4 := s.(consumer := PopUnlock(tail, first), pendingTail := s.PendingLock());
    ConsumerGoes(all, s4);
    var s5 := s.(consumer := PopCut(tail, first), pendingTail := 0);
    ConsumerGoes(all + [s4], s5);
    var s6 := s5.(consumer := Reading(first, first), next := s.next[tail := s.size]);
    ConsumerGoes(all + [s4] + [s5], s6);
    all := all + [s4] + [s5] + [s6];
  }

  /** r differs from s in what the consumer is doing and has read only. */
  ghost predicate ReadOnly<V>(s: State<V>, r: State<V>) {
    r == s.(consumer := r.consumer, received := r.received)
  }

  /** NextEntry, entry by entry, leads from the first to the last entry of the chain. */
  lemma {:induction false} ReadAlone<V>(run: seq<State<V>>) returns (all: seq<State<V>>)
    requires Run(run) && Last(run).initState == 2 && Last(run).consumer.Reading?
    ensures Run(all) && run < all && ReadOnly(Last(run), Last(all))
    ensures Last(all).consumer.Advancing? && Last(all).consumer.first == Last(run).consumer.first
    ensures Last(all).Shape() && Last(all).consumer.cur < Last(all).size && Last(all).next[Last(all).consumer.cur] == Last(all).size
    decreases |Last(run).published| - |Last(run).received|
  {
    var s := Last(run);
    var unread, pend := FifoDelivery(run, |run| - 1);
    LastInBounds(run);
    hide Run, Initial, Values;
    var first, cur := s.consumer.first, s.consumer.cur;
    var s1 := s.(consumer := Advancing(first, cur), received := s.received + [s.data[cur]]);
    ConsumerGoes(run, s1);
    all := run + [s1];
    if s.next[cur] != s.size {
      var s2 := s1.(consumer := Reading(first, s.next[cur]));
      ConsumerGoes(all, s2);
      var rest := ReadAlone(all + [s2]);
      all := rest;
    }
  }

  /** The consumer gives back what it has read up to last, however far its attempts to lock have come. */
  ghost predicate WantsBack(pc: ConsumerPc, next: seq<Slot>, first: Slot, last: Slot, resume: Slot) {
    match pc
    case Advancing(f, cur) => f == first && cur == last && last < |next| && next[last] == resume
    case RecRead(f, l, r) => f == first && l == last && r == resume
    case RecTry(f, l, r, val) => f == first && l == last && r == resume
    case _ => false
  }

  lemma RecycleLocks<V>(run: seq<State<V>>, first: Slot, last: Slot, resume: Slot) returns (all: seq<State<V>>)
    requires Run(run) && Last(run).Shape() && WantsBack(Last(run).consumer, Last(run).next, first, last, resume)
    requires Last(run).emptyTop != Last(run).EmptyLock()
    ensures Run(all) && run < all
    ensures var s := Last(run); Last(all) == s.(consumer := RecLink(first, last, resume, s.emptyTop), emptyTop := s.EmptyLock())
  {
    assert run != [];
    hide Run, Initial;
    var s := Last(run);
    var top := s.emptyTop;
    all := run;
    if s.consumer.Advancing? {
      var s1 := s.(consumer := RecRead(first, last, resume));
      ConsumerGoes(all, s1);
      all := all + [s1];
    }
    var s2 := s.(consumer := RecTry(first, last, resume, top));
    if s.consumer != RecTry(first, last, resume, top) {
      ConsumerGoes(all, s2);
      all := all + [s2];
    }
    var s3 := s.(consumer := RecLink(first, last, resume, top), emptyTop := s.EmptyLock());
    ConsumerGoes(all, s3);
    all := all + [s3];
  }

  /**
   Recycle of the entries read so far: the last one is linked to the free list, the first one
   is the new top, and the walk goes on behind the last one unless the chain ends there.
  */
  lemma RecycleAlone<V>(run: seq<State<V>>, first: Slot, last: Slot, resume: Slot) returns (all: seq<State<V>>)
    requires Run(run) && Last(run).Shape() && WantsBack(Last(run).consumer, Last(run).next, first, last, resume)
    requires last < Last(run).size && Last(run).emptyTop != Last(run).EmptyLock()
    ensures Run(all) && run < all
    ensures var s := Last(run);
      Last(all) == s.(consumer := if resume == s.size then PopCheck else Reading(resume, resume),
                      emptyTop := first, next := s.next[last := s.emptyTop])
  {
    assert run != [];
    hide Run, Initial;
    var s := Last(run);
    var top := s.emptyTop;
    all := RecycleLocks(run, first, last, resume);
    var s4 := s.(consumer := RecStore(first, last, resume, top), emptyTop := s.EmptyLock(), next := s.next[last := top]);
    ConsumerGoes(all, s4);
    var s5 := s4.(consumer := if resume == s.size then PopCheck else Reading(resume, resume), emptyTop := first);
    ConsumerGoes(all + [s4], s5);
    all := all + [s4] + [s5];
  }

  /**
   When neither list is locked, the consumer alone delivers everything that was published,
   in order, and gives the entries back.
  */
  lemma DrainAlone<V>(run: seq<State<V>>) returns (all: seq<State<V>>)
    requires Run(run) && Last(run).initState == 2 && Last(run).consumer.PopCheck?
    requires Last(run).pendingTail != Last(run).PendingLock() && Last(run).emptyTop != Last(run).EmptyLock()
    ensures Run(all) && run <= all
    ensures Last(all).consumer.PopCheck? && Last(all).pendingTail == 0 && Last(all).emptyTop != Last(all).EmptyLock()
    ensures Last(all).received == Last(all).published == Last(run).published
    ensures Last(all).pcs == Last(run).pcs && Last(all).hands == Last(run).hands && Last(all).data == Last(run).data
  {
    all := run;
    if Last(run).pendingTail != 0 {
      all := PopAlone(all);
      var free, pend, held := SlotsPartitioned(all, |all| - 1);
      assert (free + pend + held)[|free| + |pend|] == held[0];
      all := ReadAlone(all);
      var c := Last(all).consumer;
      all := RecycleAlone(all, c.first, c.cur, Last(all).size);
    }
    DrainedMeansDelivered(all, |all| - 1);
    LastInBounds(all);
  }

  /** Zeroed memory of any size, with any number of producers, is a start. */
  lemma ZeroedStarts<V>(data: seq<V>, threads: nat) returns (s: State<V>)
    requires data != []
    ensures Initial(s) && s.size == |data| && s.data == data && |s.pcs| == threads && Run([s])
  {
    s := State(|data|, 0, 0, 0, seq(|data|, i => 0), data, Init(Start), seq(threads, t => Ctor(Start)), seq(threads, t => {}), [], []);
  }

  /** The constructor, run by the consumer first: the queue is initialised, all slots from 1 on being free. */
  lemma InitAlone<V>(s: State<V>) returns (all: seq<State<V>>)
    requires Initial(s)
    ensures Run(all) && all[0] == s
    ensures var r := Last(all);
      && r == s.(initState := 2, pendingTail := 0, emptyTop := 1, next := r.next, consumer := PopCheck)
      && |r.next| == s.size && forall j | 1 <= j < s.size :: r.next[j] == j + 1
  {
    assert Run([s]);
    var s1 := s.(initState := 1, consumer := Init(SetTail));
    ConsumerGoes([s], s1);
    var s2 := s1.(pendingTail := 0, consumer := Init(SetTop));
    ConsumerGoes([s] + [s1], s2);
    var s3 := s2.(emptyTop := 1, consumer := Init(Loop(1)));
    ConsumerGoes([s] + [s1] + [s2], s3);
    all := LinkAlone([s] + [s1] + [s2] + [s3], 1);
  }

  /** The loop of the constructor from i on. */
  lemma {:induction false} LinkAlone<V>(run: seq<State<V>>, i: nat) returns (all: seq<State<V>>)
    requires Run(run) && Last(run).Shape() && Last(run).consumer == Init(Loop(i)) && 1 <= i <= Last(run).size
    requires forall j | 1 <= j < i :: Last(run).next[j] == j + 1
    ensures Run(all) && run < all
    ensures var s, r := Last(run), Last(all);
      && r == s.(initState := 2, next := r.next, consumer := PopCheck)
      && |r.next| == s.size && forall j | 1 <= j < s.size :: r.next[j] == j + 1
    decreases Last(run).size - i
  {
    assert run != [];
    hide Run, Initial;
    var s := Last(run);
    if i < s.size {
      var r := s.(next := s.next[i := i + 1], consumer := Init(Loop(i + 1)));
      ConsumerGoes(run, r);
      all := LinkAlone(run + [r], i + 1);
    } else {
      var r := s.(initState := 2, consumer := PopCheck);
      ConsumerGoes(run, r);
      all := run + [r];
    }
  }

  /** Once the queue is initialised, the constructor lets every other thread through. */
  lemma EnterAlone<V>(run: seq<State<V>>, t: nat) returns (all: seq<State<V>>)
    requires Run(run) && Last(run).initState == 2 && Last(run).Shape() && t < |Last(run).pcs| && Last(run).pcs[t].Ctor?
    ensures Run(all) && run < all && Last(all) == Last(run).(pcs := Last(run).pcs[t := Idle])
  {
    hide Initial, Placed, Linked, HandsOk;
    RunKeeps(run, |run| - 1);
    var s := Last(run);
    all := run;
    if s.pcs[t].c.Start? {
      var s1 := s.(pcs := s.pcs[t := Ctor(Spin)]);
      ProducerGoes(run, t, s1);
      all := run + [s1];
    }
    var r := s.(pcs := s.pcs[t := Idle]);
    ProducerGoes(all, t, r);
    all := all + [r];
  }
}
