/**
 The shared-memory multi-producer single-consumer queue of shm_mpsc_queue.h as a
 transition system. Every volatile read, compare-and-swap and store is one step
 under sequential consistency; any number of producers and one consumer interleave.

 Slots are indices into the entries array. Slot 0 is the head of the pending list,
 slots 1..size-1 carry data. `size` ends the free list and a popped chain.
*/
module MpscQueue {

  type Slot = nat

  /** Program counters of the constructor, which every thread runs first. */
  datatype CtorPc = Start | Spin | SetTail | SetTop | Loop(i: nat)

  /** Where a producer is, with the local variables it still needs. */
  datatype ProducerPc =
    | Ctor(c: CtorPc)
    | Idle
    // Alloc
    | AllocRead
    | AllocTry(val: nat)
    | AllocTop(top: Slot)
    | AllocStore(top: Slot, rest: Slot)
    // Push(entry)
    | PushRead(entry: Slot)
    | PushTry(entry: Slot, val: nat)
    | PushLink(entry: Slot, tail: Slot)
    | PushStore(entry: Slot, tail: Slot)

  /** Where the consumer is. */
  datatype ConsumerPc =
    | Init(c: CtorPc)
    // PopAll
    | PopCheck
    | PopRead
    | PopTry(val: nat)
    | PopFirst(tail: Slot)
    | PopUnlock(tail: Slot, first: Slot)
    | PopCut(tail: Slot, first: Slot)
    // the consumer walks the chain it popped: data first, then NextEntry
    | Reading(first: Slot, cur: Slot)
    | Advancing(first: Slot, cur: Slot)
    // Recycle(first, last); the walk goes on at resume, or is over when resume is the size
    | RecRead(first: Slot, last: Slot, resume: Slot)
    | RecTry(first: Slot, last: Slot, resume: Slot, val: nat)
    | RecLink(first: Slot, last: Slot, resume: Slot, top: Slot)
    | RecStore(first: Slot, last: Slot, resume: Slot, top: Slot)

  /**
   The shared memory; the threads, producer t being at pcs[t] and hands[t] holding the
   slots Alloc gave it and it has not pushed; and two observation logs: the data of each
   entry in the order the Push calls published them, and the data the consumer has read.
  */
  datatype State<V> = State(
    size: nat,
    initState: nat,
    pendingTail: nat,
    emptyTop: nat,
    next: seq<Slot>,
    data: seq<V>,
    consumer: ConsumerPc,
    pcs: seq<ProducerPc>,
    hands: seq<set<Slot>>,
    published: seq<V>,
    received: seq<V>)
  {
    function PendingLock(): nat { size + 1 }

    function EmptyLock(): nat { size + 2 }

    predicate Shape() {
      && 0 < size
      && |next| == |data| == size
      && |hands| == |pcs|
    }
  }

  /** Zero-initialised memory; every thread is about to run the constructor. */
  ghost predicate Initial<V>(s: State<V>) {
    && s.Shape()
    && s.initState == 0 && s.pendingTail == 0 && s.emptyTop == 0
    && (forall i | 0 <= i < s.size :: s.next[i] == 0)
    && s.consumer == Init(Start)
    && (forall t | 0 <= t < |s.pcs| :: s.pcs[t] == Ctor(Start) && s.hands[t] == {})
    && s.published == [] && s.received == []
  }

  /** The constructor: r is the memory afterwards, c' the new counter, None when it returned. */
  datatype CtorNext = Stay(c: CtorPc) | Done

  ghost predicate CtorStep<V>(s: State<V>, c: CtorPc, r: State<V>, n: CtorNext)
    requires s.Shape()
  {
    match c
    case Start =>
      if s.initState == 0 then r == s.(initState := 1) && n == Stay(SetTail) else r == s && n == Stay(Spin)
    case Spin =>
      r == s && n == if s.initState != 2 then Stay(Spin) else Done
    case SetTail => r == s.(pendingTail := 0) && n == Stay(SetTop)
    case SetTop => r == s.(emptyTop := 1) && n == Stay(Loop(1))
    case Loop(i) =>
      if i < s.size then r == s.(next := s.next[i := i + 1]) && n == Stay(Loop(i + 1))
      else r == s.(initState := 2) && n == Done
  }

  ghost predicate ProducerStep<V>(s: State<V>, t: nat, r: State<V>)
    requires s.Shape() && t < |s.pcs|
  {
    && |r.pcs| == |s.pcs|
    && var q := s.(pcs := s.pcs[t := r.pcs[t]]);
    match s.pcs[t]
    case Ctor(c) =>
      CtorStep(q, c, r, if r.pcs[t].Ctor? then Stay(r.pcs[t].c) else Done) && (r.pcs[t].Ctor? || r.pcs[t].Idle?)
    case Idle =>
      || (r.pcs[t] == AllocRead && r == q)
      || (r.pcs[t].PushRead? && r.pcs[t].entry in s.hands[t] && r == q)
      || (exists e :: e in s.hands[t] && e < s.size == |r.data| && r == s.(data := s.data[e := r.data[e]]))
    case AllocRead => r.pcs[t] == AllocTry(s.emptyTop) && r == q
    case AllocTry(val) =>
      if val == s.EmptyLock() || s.emptyTop != val then r.pcs[t] == AllocTry(s.emptyTop) && r == q
      else r.pcs[t] == AllocTop(val) && r == q.(emptyTop := s.EmptyLock())
    case AllocTop(top) =>
      if top == s.size then r.pcs[t] == Idle && r == q.(emptyTop := s.size)
      else top < s.size && r.pcs[t] == AllocStore(top, s.next[top]) && r == q
    case AllocStore(top, rest) =>
      r.pcs[t] == Idle && r == q.(emptyTop := rest, hands := s.hands[t := s.hands[t] + {top}])
    case PushRead(e) => r.pcs[t] == PushTry(e, s.pendingTail) && r == q
    case PushTry(e, val) =>
      if val == s.PendingLock() || s.pendingTail != val then r.pcs[t] == PushTry(e, s.pendingTail) && r == q
      else r.pcs[t] == PushLink(e, val) && r == q.(pendingTail := s.PendingLock())
    case PushLink(e, tail) =>
      tail < s.size && r.pcs[t] == PushStore(e, tail) && r == q.(next := s.next[tail := e])
    case PushStore(e, tail) =>
      && e < s.size
      && r.pcs[t] == Idle
      && r == q.(pendingTail := e, published := s.published + [s.data[e]], hands := s.hands[t := s.hands[t] - {e}])
  }

  ghost predicate ConsumerStep<V>(s: State<V>, r: State<V>)
    requires s.Shape()
  {
    var q := s.(consumer := r.consumer);
    match s.consumer
    case Init(c) =>
      CtorStep(q, c, r, if r.consumer.Init? then Stay(r.consumer.c) else Done) && (r.consumer.Init? || r.consumer.PopCheck?)
    case PopCheck => r.consumer == (if s.pendingTail == 0 then PopCheck else PopRead) && r == q
    case PopRead => r.consumer == PopTry(s.pendingTail) && r == q
    case PopTry(val) =>
      if val == s.PendingLock() || s.pendingTail != val then r.consumer == PopTry(s.pendingTail) && r == q
      else r.consumer == PopFirst(val) && r == q.(pendingTail := s.PendingLock())
    case PopFirst(tail) => r.consumer == PopUnlock(tail, s.next[0]) && r == q
    case PopUnlock(tail, first) => r.consumer == PopCut(tail, first) && r == q.(pendingTail := 0)
    case PopCut(tail, first) =>
      tail < s.size && r.consumer == Reading(first, first) && r == q.(next := s.next[tail := s.size])
    case Reading(first, cur) =>
      cur < s.size && r.consumer == Advancing(first, cur) && r == q.(received := s.received + [s.data[cur]])
    case Advancing(first, cur) =>
      && cur < s.size
      && (|| r.consumer == RecRead(first, cur, s.next[cur])
          || (s.next[cur] != s.size && r.consumer == Reading(first, s.next[cur])))
      && r == q
    case RecRead(first, last, resume) => r.consumer == RecTry(first, last, resume, s.emptyTop) && r == q
    case RecTry(first, last, resume, val) =>
      if val == s.EmptyLock() || s.emptyTop != val then r.consumer == RecTry(first, last, resume, s.emptyTop) && r == q
      else r.consumer == RecLink(first, last, resume, val) && r == q.(emptyTop := s.EmptyLock())
    case RecLink(first, last, resume, top) =>
      && last < s.size
      && r.consumer == RecStore(first, last, resume, top)
      && r == q.(next := s.next[last := top])
    case RecStore(first, last, resume, top) =>
      && r.consumer == (if resume == s.size then PopCheck else Reading(resume, resume))
      && r == q.(emptyTop := first)
  }

  /** One step of one thread. */
  ghost predicate Next<V>(s: State<V>, r: State<V>) {
    && s.Shape()
    && (ConsumerStep(s, r) || exists t :: 0 <= t < |s.pcs| && ProducerStep(s, t, r))
  }

  /** A run: any interleaving, of any length, of any number of threads. */
  ghost predicate Run<V>(run: seq<State<V>>) {
    && |run| > 0
    && Initial(run[0])
    && forall i, j | 0 <= i < j < |run| && j == i + 1 :: Next(run[i], run[j])
  }

  // ---------------------------------------------------------------------------
  // The invariant
  // ---------------------------------------------------------------------------

  /** Where a slot is. Being a function of the slot, it is in one place only. */
  datatype Place = Head | Free(i: nat) | Pending(i: nat) | Hand(t: nat) | Taken(i: nat)

  /**
   What the links mean at this moment. `free` is the free list from its bottom to its
   top, `pend` the pending list from its oldest entry, `chain` the last chain popped, of
   which the consumer still holds the entries from lo on, its cursor being at k.
  */
  datatype Meaning = Meaning(
    place: seq<Place>,
    free: seq<Slot>,
    pend: seq<Slot>,
    chain: seq<Slot>,
    lo: nat,
    k: nat)

  datatype Who = Nobody | Consumer | Producer(t: nat)

  function Top(q: seq<Slot>, end: Slot): Slot {
    if q == [] then end else q[|q| - 1]
  }

  function Values<V>(data: seq<V>, q: seq<Slot>): (r: seq<V>)
    requires forall i | 0 <= i < |q| :: q[i] < |data|
    ensures |r| == |q|
  {
    if q == [] then [] else [data[q[0]]] + Values(data, q[1..])
  }

  lemma ValuesAppend<V>(data: seq<V>, a: seq<Slot>, b: seq<Slot>)
    requires forall i | 0 <= i < |a| :: a[i] < |data|
    requires forall i | 0 <= i < |b| :: b[i] < |data|
    ensures Values(data, a + b) == Values(data, a) + Values(data, b)
  {
    if a == [] {
      assert a + b == b;
    } else {
      assert (a + b)[1..] == a[1..] + b;
      ValuesAppend(data, a[1..], b);
    }
  }

  lemma ValuesFrame<V>(data: seq<V>, e: Slot, v: V, q: seq<Slot>)
    requires e < |data| && forall i | 0 <= i < |q| :: q[i] < |data| && q[i] != e
    ensures Values(data[e := v], q) == Values(data, q)
  {
    if q != [] { ValuesFrame(data, e, v, q[1..]); }
  }

  predicate InRecycle(pc: ConsumerPc) {
    pc.RecRead? || pc.RecTry? || pc.RecLink? || pc.RecStore?
  }

  /** The consumer holds a chain at these points. */
  predicate HoldsChain(pc: ConsumerPc) {
    pc.PopCut? || pc.Reading? || pc.Advancing? || InRecycle(pc)
  }

  /** The index in the chain of the first entry the consumer has not read. */
  function UnreadFrom(pc: ConsumerPc, m: Meaning): nat {
    if pc.PopCut? || pc.Reading? then m.k
    else if pc.Advancing? || InRecycle(pc) then m.k + 1
    else |m.chain|
  }

  /** Every entry of the three lists is placed where its list says. */
  ghost predicate Listed(m: Meaning, size: nat) {
    && |m.place| == size && (0 < size ==> m.place[0] == Head)
    && (forall i {:trigger m.free[i]} | 0 <= i < |m.free| :: m.free[i] < size && m.place[m.free[i]] == Free(i))
    && (forall i {:trigger m.pend[i]} | 0 <= i < |m.pend| :: m.pend[i] < size && m.place[m.pend[i]] == Pending(i))
    && m.lo <= |m.chain|
    && (forall i {:trigger m.chain[i]} | m.lo <= i < |m.chain| ::
          m.chain[i] < size && m.place[m.chain[i]] == Taken(i))
  }

  /** And every slot is in the list, or the hand, that its place names. */
  ghost predicate PlaceOk(m: Meaning, hands: seq<set<Slot>>, e: Slot)
    requires e < |m.place|
  {
    match m.place[e]
    case Head => e == 0
    case Free(i) => 0 < e && i < |m.free| && m.free[i] == e
    case Pending(i) => 0 < e && i < |m.pend| && m.pend[i] == e
    case Taken(i) => 0 < e && m.lo <= i < |m.chain| && m.chain[i] == e
    case Hand(t) => 0 < e && t < |hands| && e in hands[t]
  }

  ghost predicate Placed(m: Meaning, hands: seq<set<Slot>>) {
    forall e {:trigger PlaceOk(m, hands, e)} | 0 <= e < |m.place| :: PlaceOk(m, hands, e)
  }

  /** A hand holds only slots placed in it. */
  ghost predicate HandOk(place: seq<Place>, hand: set<Slot>, t: nat) {
    forall e | e in hand :: e < |place| && place[e] == Hand(t)
  }

  ghost predicate HandsOk(place: seq<Place>, hands: seq<set<Slot>>) {
    forall t | 0 <= t < |hands| :: HandOk(place, hands[t], t)
  }

  /** The next field of a slot, by its place. */
  ghost predicate LinkOk(next: seq<Slot>, m: Meaning, pc: ConsumerPc, e: Slot)
    requires e < |next| == |m.place|
  {
    match m.place[e]
    case Head => m.pend != [] ==> next[e] == m.pend[0]
    case Free(i) => if i == 0 then next[e] == |next| else i <= |m.free| ==> next[e] == m.free[i - 1]
    case Pending(i) => i + 1 < |m.pend| ==> next[e] == m.pend[i + 1]
    case Taken(i) =>
      if pc.RecStore? && i == m.k then next[e] == pc.top
      else if i + 1 < |m.chain| then next[e] == m.chain[i + 1]
      else pc.PopCut? || next[e] == |next|
    case Hand(t) => true
  }

  ghost predicate Linked(next: seq<Slot>, m: Meaning, pc: ConsumerPc) {
    && |next| == |m.place|
    && (forall e {:trigger LinkOk(next, m, pc, e)} | 0 <= e < |next| :: LinkOk(next, m, pc, e))
  }

  /** The three lists, the hands and the links agree. */
  ghost predicate Memory(next: seq<Slot>, hands: seq<set<Slot>>, m: Meaning, pc: ConsumerPc) {
    Listed(m, |next|) && Placed(m, hands) && HandsOk(m.place, hands) && Linked(next, m, pc)
  }

  /** Holding empty_top: at most one thread, and its locals describe the free list. */
  ghost predicate EmptyOk(pcs: seq<ProducerPc>, c: ConsumerPc, h: Who, top: nat, free: seq<Slot>, size: nat) {
    && (forall t | 0 <= t < |pcs| :: pcs[t].AllocTop? || pcs[t].AllocStore? <==> h == Producer(t))
    && (c.RecLink? || c.RecStore? <==> h == Consumer)
    && (h.Producer? ==> h.t < |pcs|)
    && top == (if h == Nobody then Top(free, size) else size + 2)
    && (h.Producer? && pcs[h.t].AllocTop? ==> pcs[h.t].top == Top(free, size))
    && (h.Producer? && pcs[h.t].AllocStore? ==>
          free != [] && pcs[h.t].top == Top(free, 0) && pcs[h.t].rest == Top(free[..|free| - 1], size))
    && (c.RecLink? || c.RecStore? ==> c.top == Top(free, size))
  }

  /** Holding pending_tail: at most one thread, and its locals describe the pending list. */
  ghost predicate PendingOk(pcs: seq<ProducerPc>, c: ConsumerPc, h: Who, tail: nat, pend: seq<Slot>, next: seq<Slot>) {
    && (forall t | 0 <= t < |pcs| :: pcs[t].PushLink? || pcs[t].PushStore? <==> h == Producer(t))
    && (c.PopFirst? || c.PopUnlock? <==> h == Consumer)
    && (h.Producer? ==> h.t < |pcs|)
    && tail == (if h == Nobody then Top(pend, 0) else |next| + 1)
    && (h.Producer? ==> pcs[h.t].tail == Top(pend, 0))
    && (h.Producer? && pcs[h.t].PushStore? ==>
          Top(pend, 0) < |next| && next[Top(pend, 0)] == pcs[h.t].entry)
    && (c.PopFirst? || c.PopUnlock? ==> pend != [] && c.tail == Top(pend, 0))
    && (c.PopUnlock? ==> c.first == pend[0])
    && (c.PopRead? || c.PopTry? ==> pend != [] || h != Nobody)
  }

  /** The entry a producer pushes is in its hand; no thread is initialising. */
  ghost predicate PushesOk(pcs: seq<ProducerPc>, hands: seq<set<Slot>>)
    requires |pcs| == |hands|
  {
    forall t | 0 <= t < |pcs| ::
      && (pcs[t].Ctor? ==> pcs[t].c.Start? || pcs[t].c.Spin?)
      && (pcs[t].PushRead? || pcs[t].PushTry? || pcs[t].PushLink? || pcs[t].PushStore? ==> pcs[t].entry in hands[t])
  }

  /** The consumer's local variables against the chain it holds. */
  ghost predicate ConsumerOk(pc: ConsumerPc, m: Meaning, size: nat) {
    && (pc.Init? ==> pc.c.Start? || pc.c.Spin?)
    && (!HoldsChain(pc) ==> m.chain == [])
    && (HoldsChain(pc) ==> m.lo <= m.k < |m.chain| && pc.first == m.chain[m.lo])
    && (pc.PopCut? ==> m.k == m.lo && pc.tail == Top(m.chain, 0))
    && (pc.Reading? || pc.Advancing? ==> pc.cur == m.chain[m.k])
    && (InRecycle(pc) ==>
          && pc.last == m.chain[m.k]
          && pc.resume == if m.k + 1 < |m.chain| then m.chain[m.k + 1] else size)
  }

  /** What was published is what was read, what is about to be read, and what is pending. */
  ghost predicate LogsOk<V>(published: seq<V>, received: seq<V>, data: seq<V>, m: Meaning, from: nat)
    requires Listed(m, |data|)
  {
    && m.lo <= from <= |m.chain|
    && published == received + Values(data, m.chain[from..]) + Values(data, m.pend)
  }

  /** The invariant once the constructor has finished. */
  ghost predicate Ready<V>(s: State<V>, m: Meaning, eh: Who, ph: Who) {
    && s.Shape()
    && s.initState == 2
    && Memory(s.next, s.hands, m, s.consumer)
    && EmptyOk(s.pcs, s.consumer, eh, s.emptyTop, m.free, s.size)
    && PendingOk(s.pcs, s.consumer, ph, s.pendingTail, m.pend, s.next)
    && PushesOk(s.pcs, s.hands)
    && ConsumerOk(s.consumer, m, s.size)
    && LogsOk(s.published, s.received, s.data, m, UnreadFrom(s.consumer, m))
  }

  ghost predicate ReadySome<V>(s: State<V>) {
    exists m, eh, ph :: Ready(s, m, eh, ph)
  }

  // ---------------------------------------------------------------------------
  // What a thread's move leaves alone
  // ---------------------------------------------------------------------------

  predicate HasEmpty(pc: ProducerPc) { pc.AllocTop? || pc.AllocStore? }

  predicate HasPending(pc: ProducerPc) { pc.PushLink? || pc.PushStore? }

  lemma ProducerMoves(pcs: seq<ProducerPc>, c: ConsumerPc, t: nat, pc: ProducerPc, hands: seq<set<Slot>>)
    requires |pcs| == |hands| && t < |pcs| && PushesOk(pcs, hands)
    requires pc.Ctor? ==> pc.c.Start? || pc.c.Spin?
    requires pc.PushRead? || pc.PushTry? || pc.PushLink? || pc.PushStore? ==> pc.entry in hands[t]
    ensures PushesOk(pcs[t := pc], hands)
  {}

  lemma EmptyUntouched(pcs: seq<ProducerPc>, c: ConsumerPc, t: nat, pc: ProducerPc, h: Who, top: nat, free: seq<Slot>, size: nat)
    requires t < |pcs| && EmptyOk(pcs, c, h, top, free, size) && !HasEmpty(pcs[t]) && !HasEmpty(pc)
    ensures EmptyOk(pcs[t := pc], c, h, top, free, size)
  {}

  lemma PendingUntouched(pcs: seq<ProducerPc>, c: ConsumerPc, t: nat, pc: ProducerPc, h: Who, tail: nat, pend: seq<Slot>, next: seq<Slot>)
    requires t < |pcs| && PendingOk(pcs, c, h, tail, pend, next) && !HasPending(pcs[t]) && !HasPending(pc)
    ensures PendingOk(pcs[t := pc], c, h, tail, pend, next)
  {}

  lemma EmptyUntouchedC(pcs: seq<ProducerPc>, c: ConsumerPc, c': ConsumerPc, h: Who, top: nat, free: seq<Slot>, size: nat)
    requires EmptyOk(pcs, c, h, top, free, size)
    requires !c.RecLink? && !c.RecStore? && !c'.RecLink? && !c'.RecStore?
    ensures EmptyOk(pcs, c', h, top, free, size)
  {}

  lemma PendingUntouchedC(pcs: seq<ProducerPc>, c: ConsumerPc, c': ConsumerPc, h: Who, tail: nat, pend: seq<Slot>, next: seq<Slot>, next': seq<Slot>)
    requires PendingOk(pcs, c, h, tail, pend, next) && |next'| == |next|
    requires !c.PopFirst? && !c.PopUnlock? && !c'.PopFirst? && !c'.PopUnlock?
    requires c'.PopRead? || c'.PopTry? ==> pend != [] || h != Nobody
    requires Top(pend, 0) < |next| ==> next'[Top(pend, 0)] == next[Top(pend, 0)]
    ensures PendingOk(pcs, c', h, tail, pend, next')
  {}

  lemma LockEmpty(pcs: seq<ProducerPc>, c: ConsumerPc, t: nat, h: Who, top: nat, free: seq<Slot>, size: nat)
    requires t < |pcs| && EmptyOk(pcs, c, h, top, free, size) && !HasEmpty(pcs[t]) && top != size + 2
    ensures EmptyOk(pcs[t := AllocTop(top)], c, Producer(t), size + 2, free, size)
  {}

  lemma UnlockEmpty(pcs: seq<ProducerPc>, c: ConsumerPc, t: nat, h: Who, top: nat, free: seq<Slot>, free': seq<Slot>, size: nat)
    requires t < |pcs| && EmptyOk(pcs, c, h, top, free, size) && HasEmpty(pcs[t])
    ensures EmptyOk(pcs[t := Idle], c, Nobody, Top(free', size), free', size)
  {}

  lemma LockPending(pcs: seq<ProducerPc>, c: ConsumerPc, t: nat, e: Slot, h: Who, tail: nat, pend: seq<Slot>, next: seq<Slot>)
    requires t < |pcs| && PendingOk(pcs, c, h, tail, pend, next) && !HasPending(pcs[t]) && tail != |next| + 1
    ensures PendingOk(pcs[t := PushLink(e, tail)], c, Producer(t), |next| + 1, pend, next)
  {}

  lemma LockEmptyC(pcs: seq<ProducerPc>, c: ConsumerPc, c': ConsumerPc, h: Who, top: nat, free: seq<Slot>, size: nat)
    requires EmptyOk(pcs, c, h, top, free, size) && !c.RecLink? && !c.RecStore? && top != size + 2
    requires c'.RecLink? && c'.top == top
    ensures EmptyOk(pcs, c', Consumer, size + 2, free, size)
  {}

  lemma UnlockEmptyC(pcs: seq<ProducerPc>, c: ConsumerPc, c': ConsumerPc, h: Who, top: nat, free: seq<Slot>, free': seq<Slot>, size: nat)
    requires EmptyOk(pcs, c, h, top, free, size) && c.RecStore? && !c'.RecLink? && !c'.RecStore?
    ensures EmptyOk(pcs, c', Nobody, Top(free', size), free', size)
  {}

  lemma LockPendingC(pcs: seq<ProducerPc>, c: ConsumerPc, c': ConsumerPc, h: Who, tail: nat, pend: seq<Slot>, next: seq<Slot>)
    requires PendingOk(pcs, c, h, tail, pend, next) && c.PopTry? && tail != |next| + 1
    requires c'.PopFirst? && c'.tail == tail
    ensures PendingOk(pcs, c', Consumer, |next| + 1, pend, next)
  {}

  lemma UnlockPendingC(pcs: seq<ProducerPc>, c: ConsumerPc, c': ConsumerPc, h: Who, tail: nat, pend: seq<Slot>, next: seq<Slot>)
    requires PendingOk(pcs, c, h, tail, pend, next) && c.PopUnlock? && c'.PopCut?
    ensures PendingOk(pcs, c', Nobody, 0, [], next)
  {}

  // ---------------------------------------------------------------------------
  // Every producer step keeps the invariant
  // ---------------------------------------------------------------------------

  /** Constructor steps of a late producer, starts of calls, reads and retries. */
  lemma ProducerLocalKeeps<V>(s: State<V>, t: nat, r: State<V>, m: Meaning, eh: Who, ph: Who)
    requires Ready(s, m, eh, ph) && t < |s.pcs| && ProducerStep(s, t, r)
    requires var pc := s.pcs[t];
      pc.Ctor? || (pc.Idle? && r.pcs[t] != Idle) || pc.AllocRead? || pc.PushRead?
      || (pc.AllocTry? && r.pcs[t].AllocTry?) || (pc.PushTry? && r.pcs[t].PushTry?)
    ensures Ready(r, m, eh, ph)
  {
    ProducerMoves(s.pcs, s.consumer, t, r.pcs[t], s.hands);
    EmptyUntouched(s.pcs, s.consumer, t, r.pcs[t], eh, s.emptyTop, m.free, s.size);
    PendingUntouched(s.pcs, s.consumer, t, r.pcs[t], ph, s.pendingTail, m.pend, s.next);
    assert r == s.(pcs := s.pcs[t := r.pcs[t]]);
  }

  /** A producer fills a slot it holds: no listed slot changes. */
  lemma FillKeeps<V>(s: State<V>, t: nat, r: State<V>, m: Meaning, eh: Who, ph: Who)
    requires Ready(s, m, eh, ph) && t < |s.pcs| && ProducerStep(s, t, r) && s.pcs[t].Idle? && r.pcs[t].Idle?
    ensures Ready(r, m, eh, ph)
  {
    var from := UnreadFrom(s.consumer, m);
    assert HandOk(m.place, s.hands[t], t);
    var e :| e in s.hands[t] && e < s.size == |r.data| && r == s.(data := s.data[e := r.data[e]]);
    ValuesFrame(s.data, e, r.data[e], m.chain[from..]);
    ValuesFrame(s.data, e, r.data[e], m.pend);
  }

  /** The compare-and-swap of Alloc succeeds; an empty free list unlocks at once. */
  lemma AllocLockKeeps<V>(s: State<V>, t: nat, r: State<V>, m: Meaning, eh: Who, ph: Who)
    requires Ready(s, m, eh, ph) && t < |s.pcs| && ProducerStep(s, t, r)
    requires (s.pcs[t].AllocTry? && r.pcs[t].AllocTop?) || (s.pcs[t].AllocTop? && r.pcs[t].Idle?)
    ensures Ready(r, m, if r.pcs[t].AllocTop? then Producer(t) else Nobody, ph)
  {
    ProducerMoves(s.pcs, s.consumer, t, r.pcs[t], s.hands);
    PendingUntouched(s.pcs, s.consumer, t, r.pcs[t], ph, s.pendingTail, m.pend, s.next);
    if r.pcs[t].AllocTop? {
      LockEmpty(s.pcs, s.consumer, t, eh, s.emptyTop, m.free, s.size);
    } else {
      UnlockEmpty(s.pcs, s.consumer, t, eh, s.emptyTop, m.free, m.free, s.size);
    }
  }

  /** The top slot's next field is the rest of the free list. */
  lemma AllocTopKeeps<V>(s: State<V>, t: nat, r: State<V>, m: Meaning, eh: Who, ph: Who)
    requires Ready(s, m, eh, ph) && t < |s.pcs| && ProducerStep(s, t, r) && s.pcs[t].AllocTop? && r.pcs[t].AllocStore?
    ensures Ready(r, m, eh, ph)
  {
    var last := |m.free| - 1;
    assert m.free[last] == s.pcs[t].top;
    assert m.place[s.pcs[t].top] == Free(last) && LinkOk(s.next, m, s.consumer, s.pcs[t].top);
  }

  lemma TakeTop(next: seq<Slot>, hands: seq<set<Slot>>, m: Meaning, pc: ConsumerPc, t: nat) returns (n: Meaning)
    requires Memory(next, hands, m, pc) && m.free != [] && t < |hands|
    ensures n == m.(free := m.free[..|m.free| - 1], place := m.place[Top(m.free, 0) := Hand(t)])
    ensures Memory(next, hands[t := hands[t] + {Top(m.free, 0)}], n, pc)
  {
    var top := m.free[|m.free| - 1];
    var hands' := hands[t := hands[t] + {top}];
    n := m.(free := m.free[..|m.free| - 1], place := m.place[top := Hand(t)]);
    TopPlaces(m, n, hands, t, |next|);
    assert Linked(next, n, pc) by {
      forall e | 0 <= e < |next| ensures LinkOk(next, n, pc, e) { assert LinkOk(next, m, pc, e); }
    }
  }

  lemma TopPlaces(m: Meaning, n: Meaning, hands: seq<set<Slot>>, t: nat, size: nat)
    requires Listed(m, size) && Placed(m, hands) && HandsOk(m.place, hands) && m.free != [] && t < |hands|
    requires n == m.(free := m.free[..|m.free| - 1], place := m.place[Top(m.free, 0) := Hand(t)])
    ensures var hands' := hands[t := hands[t] + {Top(m.free, 0)}];
      Listed(n, size) && Placed(n, hands') && HandsOk(n.place, hands')
  {
    var top := m.free[|m.free| - 1];
    var hands' := hands[t := hands[t] + {top}];
    forall e | 0 <= e < size ensures PlaceOk(n, hands', e) { assert PlaceOk(m, hands, e); }
    forall u | 0 <= u < |hands| ensures HandOk(n.place, hands'[u], u) { assert HandOk(m.place, hands[u], u); }
  }

  /** Alloc unlocks: the old top leaves the free list for this producer's hand. */
  lemma AllocStoreKeeps<V>(s: State<V>, t: nat, r: State<V>, m: Meaning, eh: Who, ph: Who) returns (n: Meaning)
    requires Ready(s, m, eh, ph) && t < |s.pcs| && ProducerStep(s, t, r) && s.pcs[t].AllocStore?
    ensures Ready(r, n, Nobody, ph)
    ensures m.free != [] && Top(m.free, 0) < |m.place| && t < |s.hands|
    ensures n == m.(free := m.free[..|m.free| - 1], place := m.place[Top(m.free, 0) := Hand(t)])
    ensures r.hands == s.hands[t := s.hands[t] + {Top(m.free, 0)}]
  {
    hide Values, Placed, Linked, HandsOk;
    n := TakeTop(s.next, s.hands, m, s.consumer, t);
    PendingUntouched(s.pcs, s.consumer, t, Idle, ph, s.pendingTail, m.pend, s.next);
    UnlockEmpty(s.pcs, s.consumer, t, eh, s.emptyTop, m.free, n.free, s.size);
    ProducerMoves(s.pcs, s.consumer, t, Idle, s.hands);
  }

  /** The compare-and-swap of Push succeeds. */
  lemma PushLockKeeps<V>(s: State<V>, t: nat, r: State<V>, m: Meaning, eh: Who, ph: Who)
    requires Ready(s, m, eh, ph) && t < |s.pcs| && ProducerStep(s, t, r) && s.pcs[t].PushTry? && r.pcs[t].PushLink?
    ensures Ready(r, m, eh, Producer(t))
  {
    ProducerMoves(s.pcs, s.consumer, t, r.pcs[t], s.hands);
    EmptyUntouched(s.pcs, s.consumer, t, r.pcs[t], eh, s.emptyTop, m.free, s.size);
    LockPending(s.pcs, s.consumer, t, s.pcs[t].entry, ph, s.pendingTail, m.pend, s.next);
  }

  /** The next field of the pending list's end carries no link yet. */
  lemma LinkEnd(next: seq<Slot>, hands: seq<set<Slot>>, m: Meaning, pc: ConsumerPc, e: Slot)
    requires Memory(next, hands, m, pc) && 0 < |next|
    ensures Top(m.pend, 0) < |next| && Memory(next[Top(m.pend, 0) := e], hands, m, pc)
  {
    var tail := Top(m.pend, 0);
    var next' := next[tail := e];
    assert m.place[tail] == if m.pend == [] then Head else Pending(|m.pend| - 1);
    forall d | 0 <= d < |next| ensures LinkOk(next', m, pc, d) {
      assert PlaceOk(m, hands, d);
      assert LinkOk(next, m, pc, d);
    }
    assert Linked(next', m, pc);
  }

  lemma PushLinkKeeps<V>(s: State<V>, t: nat, r: State<V>, m: Meaning, eh: Who, ph: Who)
    requires Ready(s, m, eh, ph) && t < |s.pcs| && ProducerStep(s, t, r) && s.pcs[t].PushLink?
    ensures Ready(r, m, eh, ph)
  {
    LinkEnd(s.next, s.hands, m, s.consumer, s.pcs[t].entry);
    assert r == s.(next := r.next, pcs := r.pcs);
    assert EmptyOk(r.pcs, r.consumer, eh, r.emptyTop, m.free, s.size);
    assert PendingOk(r.pcs, s.consumer, ph, s.pendingTail, m.pend, r.next);
    assert PushesOk(r.pcs, r.hands);
  }

  lemma Publish(next: seq<Slot>, hands: seq<set<Slot>>, m: Meaning, pc: ConsumerPc, t: nat, e: Slot) returns (n: Meaning)
    requires Memory(next, hands, m, pc) && t < |hands| && e in hands[t]
    requires Top(m.pend, 0) < |next| && next[Top(m.pend, 0)] == e
    ensures n == m.(pend := m.pend + [e], place := m.place[e := Pending(|m.pend|)])
    ensures Memory(next, hands[t := hands[t] - {e}], n, pc)
  {
    assert HandOk(m.place, hands[t], t);
    n := m.(pend := m.pend + [e], place := m.place[e := Pending(|m.pend|)]);
    PublishedPlaces(m, n, hands, t, e, |next|);
    assert Linked(next, n, pc) by {
      forall d | 0 <= d < |next| ensures LinkOk(next, n, pc, d) {
        assert LinkOk(next, m, pc, d) && PlaceOk(m, hands, d);
      }
    }
  }

  lemma PublishedPlaces(m: Meaning, n: Meaning, hands: seq<set<Slot>>, t: nat, e: Slot, size: nat)
    requires Listed(m, size) && Placed(m, hands) && HandsOk(m.place, hands) && t < |hands| && e in hands[t] && e < |m.place|
    requires n == m.(pend := m.pend + [e], place := m.place[e := Pending(|m.pend|)])
    ensures Listed(n, size) && Placed(n, hands[t := hands[t] - {e}]) && HandsOk(n.place, hands[t := hands[t] - {e}])
  {
    assert HandOk(m.place, hands[t], t);
    var hands' := hands[t := hands[t] - {e}];
    forall d | 0 <= d < size ensures PlaceOk(n, hands', d) { assert PlaceOk(m, hands, d); }
    forall u | 0 <= u < |hands| ensures HandOk(n.place, hands'[u], u) {
      assert HandOk(m.place, hands[u], u);
    }
  }

  lemma LogPublish<V>(published: seq<V>, received: seq<V>, data: seq<V>, m: Meaning, n: Meaning, from: nat, e: Slot)
    requires Listed(m, |data|) && Listed(n, |data|) && LogsOk(published, received, data, m, from)
    requires e < |data| && n.pend == m.pend + [e] && n.chain == m.chain && n.lo == m.lo
    ensures LogsOk(published + [data[e]], received, data, n, from)
  {
    ValuesAppend(data, m.pend, [e]);
  }

  lemma LogRead<V>(published: seq<V>, received: seq<V>, data: seq<V>, m: Meaning, from: nat)
    requires Listed(m, |data|) && LogsOk(published, received, data, m, from) && from < |m.chain|
    ensures m.chain[from] < |data| && LogsOk(published, received + [data[m.chain[from]]], data, m, from + 1)
  {
    assert m.chain[from..] == [m.chain[from]] + m.chain[from + 1..];
    ValuesAppend(data, [m.chain[from]], m.chain[from + 1..]);
  }

  lemma PushUnlocks(pcs: seq<ProducerPc>, c: ConsumerPc, t: nat, tail: nat, pend: seq<Slot>, next: seq<Slot>)
    requires PendingOk(pcs, c, Producer(t), tail, pend, next) && t < |pcs| && pcs[t].PushStore?
    ensures PendingOk(pcs[t := Idle], c, Nobody, pcs[t].entry, pend + [pcs[t].entry], next)
  {}

  lemma PushOtherParts(pcs: seq<ProducerPc>, hands: seq<set<Slot>>, place: seq<Place>, t: nat,
                       c: ConsumerPc, eh: Who, top: nat, free: seq<Slot>, size: nat)
    requires |pcs| == |hands| && t < |pcs| && pcs[t].PushStore? && HandsOk(place, hands)
    requires PushesOk(pcs, hands) && EmptyOk(pcs, c, eh, top, free, size)
    ensures PushesOk(pcs[t := Idle], hands[t := hands[t] - {pcs[t].entry}])
    ensures EmptyOk(pcs[t := Idle], c, eh, top, free, size)
  {
    assert forall u | 0 <= u < |pcs| && u != t :: HandOk(place, hands[u], u) && HandOk(place, hands[t], t);
  }

  /** Push publishes: the entry becomes the last pending one and its data is logged. */
  lemma PushStoreKeeps<V>(s: State<V>, t: nat, r: State<V>, m: Meaning, eh: Who, ph: Who) returns (n: Meaning)
    requires Ready(s, m, eh, ph) && t < |s.pcs| && ProducerStep(s, t, r) && s.pcs[t].PushStore?
    ensures Ready(r, n, eh, Nobody)
    ensures var e := s.pcs[t].entry;
      && e < |m.place| && e < |s.data| && t < |s.hands|
      && n == m.(pend := m.pend + [e], place := m.place[e := Pending(|m.pend|)])
      && r.hands == s.hands[t := s.hands[t] - {e}] && r.published == s.published + [s.data[e]]
  {
    var e := s.pcs[t].entry;
    n := Publish(s.next, s.hands, m, s.consumer, t, e);
    PushUnlocks(s.pcs, s.consumer, t, s.pendingTail, m.pend, s.next);
    PushOtherParts(s.pcs, s.hands, m.place, t, s.consumer, eh, s.emptyTop, m.free, s.size);
    LogPublish(s.published, s.received, s.data, m, n, UnreadFrom(s.consumer, m), e);
  }

  /** The whole case distinction over a producer's program counter. */
  lemma ProducerStepKeeps<V>(s: State<V>, t: nat, r: State<V>, m: Meaning, eh: Who, ph: Who)
    requires Ready(s, m, eh, ph) && t < |s.pcs| && ProducerStep(s, t, r)
    ensures ReadySome(r)
  {
    var pc, pc' := s.pcs[t], r.pcs[t];
    if pc.Idle? && pc'.Idle? {
      FillKeeps(s, t, r, m, eh, ph);
    } else if pc.AllocTop? && pc'.AllocStore? {
      AllocTopKeeps(s, t, r, m, eh, ph);
    } else if pc.AllocTop? || (pc.AllocTry? && pc'.AllocTop?) {
      AllocLockKeeps(s, t, r, m, eh, ph);
    } else if pc.AllocStore? {
      var n := AllocStoreKeeps(s, t, r, m, eh, ph);
    } else if pc.PushTry? && pc'.PushLink? {
      PushLockKeeps(s, t, r, m, eh, ph);
    } else if pc.PushLink? {
      PushLinkKeeps(s, t, r, m, eh, ph);
    } else if pc.PushStore? {
      var n := PushStoreKeeps(s, t, r, m, eh, ph);
    } else {
      ProducerLocalKeeps(s, t, r, m, eh, ph);
    }
  }

  // ---------------------------------------------------------------------------
  // Every consumer step keeps the invariant
  // ---------------------------------------------------------------------------

  /** The links do not depend on the cursor. */
  lemma MoveCursor(next: seq<Slot>, hands: seq<set<Slot>>, m: Meaning, pc: ConsumerPc, pc': ConsumerPc, k: nat)
    requires Memory(next, hands, m, pc) && !pc.PopCut? && !pc.RecStore? && !pc'.RecStore?
    ensures Memory(next, hands, m.(k := k), pc')
  {
    var n := m.(k := k);
    forall e | 0 <= e < |next| ensures PlaceOk(n, hands, e) { assert PlaceOk(m, hands, e); }
    forall e | 0 <= e < |next| ensures LinkOk(next, n, pc', e) { assert LinkOk(next, m, pc, e); }
    assert Placed(n, hands) && Linked(next, n, pc');
  }

  /** Constructor steps of a late consumer, and PopAll up to its first read of the chain. */
  lemma PopLocalKeeps<V>(s: State<V>, r: State<V>, m: Meaning, eh: Who, ph: Who)
    requires Ready(s, m, eh, ph) && ConsumerStep(s, r)
    requires var c := s.consumer;
      c.Init? || c.PopCheck? || c.PopRead? || (c.PopTry? && r.consumer.PopTry?) || c.PopFirst?
    ensures Ready(r, m, eh, ph)
  {
    assert LinkOk(s.next, m, s.consumer, 0);
    hide Values, Placed, Linked, HandsOk;
    MoveCursor(s.next, s.hands, m, s.consumer, r.consumer, m.k);
    EmptyUntouchedC(s.pcs, s.consumer, r.consumer, eh, s.emptyTop, m.free, s.size);
    assert PendingOk(r.pcs, r.consumer, ph, r.pendingTail, m.pend, r.next);
  }

  /** Recycle up to its lock, and the step of the walk that leads there. */
  lemma RecycleLocalKeeps<V>(s: State<V>, r: State<V>, m: Meaning, eh: Who, ph: Who)
    requires Ready(s, m, eh, ph) && ConsumerStep(s, r)
    requires var c := s.consumer;
      c.RecRead? || (c.RecTry? && r.consumer.RecTry?) || (c.Advancing? && r.consumer.RecRead?)
    ensures Ready(r, m, eh, ph)
  {
    hide LogsOk, EmptyOk, PendingOk;
    assert m.place[m.chain[m.k]] == Taken(m.k) && LinkOk(s.next, m, s.consumer, m.chain[m.k]);
    hide Values, Placed, Linked, HandsOk;
    MoveCursor(s.next, s.hands, m, s.consumer, r.consumer, m.k);
    assert r.consumer.resume == if m.k + 1 < |m.chain| then m.chain[m.k + 1] else s.size;
    EmptyUntouchedC(s.pcs, s.consumer, r.consumer, eh, s.emptyTop, m.free, s.size);
    PendingUntouchedC(s.pcs, s.consumer, r.consumer, ph, s.pendingTail, m.pend, s.next, r.next);
  }

  /** NextEntry returned another entry: the cursor moves on by one. */
  lemma AdvanceKeeps<V>(s: State<V>, r: State<V>, m: Meaning, eh: Who, ph: Who)
    requires Ready(s, m, eh, ph) && ConsumerStep(s, r) && s.consumer.Advancing? && r.consumer.Reading?
    ensures Ready(r, m.(k := m.k + 1), eh, ph)
  {
    assert m.place[m.chain[m.k]] == Taken(m.k) && LinkOk(s.next, m, s.consumer, m.chain[m.k]);
    hide Values, Placed, Linked, HandsOk;
    MoveCursor(s.next, s.hands, m, s.consumer, r.consumer, m.k + 1);
    EmptyUntouchedC(s.pcs, s.consumer, r.consumer, eh, s.emptyTop, m.free, s.size);
    PendingUntouchedC(s.pcs, s.consumer, r.consumer, ph, s.pendingTail, m.pend, s.next, r.next);
  }

  /** Reading an entry moves its data from the unread part to the log. */
  lemma ReadKeeps<V>(s: State<V>, r: State<V>, m: Meaning, eh: Who, ph: Who)
    requires Ready(s, m, eh, ph) && ConsumerStep(s, r) && s.consumer.Reading?
    ensures Ready(r, m, eh, ph)
  {
    hide Placed, Linked, HandsOk, LogsOk;
    LogRead(s.published, s.received, s.data, m, m.k);
    MoveCursor(s.next, s.hands, m, s.consumer, r.consumer, m.k);
    EmptyUntouchedC(s.pcs, s.consumer, r.consumer, eh, s.emptyTop, m.free, s.size);
    PendingUntouchedC(s.pcs, s.consumer, r.consumer, ph, s.pendingTail, m.pend, s.next, r.next);
  }

  lemma ConsumerLockKeeps<V>(s: State<V>, r: State<V>, m: Meaning, eh: Who, ph: Who)
    requires Ready(s, m, eh, ph) && ConsumerStep(s, r)
    requires (s.consumer.PopTry? && r.consumer.PopFirst?) || (s.consumer.RecTry? && r.consumer.RecLink?)
    ensures Ready(r, m, if s.consumer.RecTry? then Consumer else eh, if s.consumer.PopTry? then Consumer else ph)
  {
    MoveCursor(s.next, s.hands, m, s.consumer, r.consumer, m.k);
    if s.consumer.RecTry? {
      LockEmptyC(s.pcs, s.consumer, r.consumer, eh, s.emptyTop, m.free, s.size);
      PendingUntouchedC(s.pcs, s.consumer, r.consumer, ph, s.pendingTail, m.pend, s.next, s.next);
    } else {
      EmptyUntouchedC(s.pcs, s.consumer, r.consumer, eh, s.emptyTop, m.free, s.size);
      LockPendingC(s.pcs, s.consumer, r.consumer, ph, s.pendingTail, m.pend, s.next);
    }
  }

  /** PopAll releases pending_tail: the pending list, not yet terminated, is the consumer's chain. */
  lemma TakeAll(next: seq<Slot>, hands: seq<set<Slot>>, m: Meaning, pc: ConsumerPc, pc': ConsumerPc) returns (n: Meaning)
    requires Memory(next, hands, m, pc) && m.chain == [] && pc'.PopCut?
    ensures n.free == m.free && n.pend == [] && n.chain == m.pend && n.lo == n.k == 0
    ensures Memory(next, hands, n, pc')
  {
    var place := seq(|m.place|, e requires 0 <= e < |m.place| =>
      if m.place[e].Pending? then Taken(m.place[e].i) else m.place[e]);
    n := Meaning(place, m.free, [], m.pend, 0, 0);
    forall e | 0 <= e < |next| ensures PlaceOk(n, hands, e) { assert PlaceOk(m, hands, e); }
    forall e | 0 <= e < |next| ensures LinkOk(next, n, pc', e) {
      assert LinkOk(next, m, pc, e);
      assert PlaceOk(m, hands, e);
    }
    assert Placed(n, hands) && Linked(next, n, pc');
    forall u | 0 <= u < |hands| ensures HandOk(n.place, hands[u], u) { assert HandOk(m.place, hands[u], u); }
  }

  lemma PopUnlockKeeps<V>(s: State<V>, r: State<V>, m: Meaning, eh: Who, ph: Who) returns (n: Meaning)
    requires Ready(s, m, eh, ph) && ConsumerStep(s, r) && s.consumer.PopUnlock?
    ensures Ready(r, n, eh, Nobody)
    ensures n.free == m.free && n.pend == [] && n.chain == m.pend && n.lo == n.k == 0 && r.next == s.next
  {
    hide Values, Placed, Linked, HandsOk;
    n := TakeAll(s.next, s.hands, m, s.consumer, r.consumer);
    assert r == s.(pendingTail := 0, consumer := r.consumer);
    EmptyUntouchedC(s.pcs, s.consumer, r.consumer, eh, s.emptyTop, m.free, s.size);
    UnlockPendingC(s.pcs, s.consumer, r.consumer, ph, s.pendingTail, m.pend, s.next);
    assert n.chain[0..] == m.pend && m.chain[0..] == [];
  }

  /** The chain's last entry is the consumer's: terminating it touches no other list. */
  lemma Terminate(next: seq<Slot>, hands: seq<set<Slot>>, m: Meaning, pc: ConsumerPc, pc': ConsumerPc)
    requires Memory(next, hands, m, pc) && m.lo < |m.chain| && !pc.RecStore? && !pc'.RecStore?
    ensures Memory(next[Top(m.chain, 0) := |next|], hands, m, pc')
  {
    var last := m.chain[|m.chain| - 1];
    var next' := next[last := |next|];
    forall d | 0 <= d < |next| ensures LinkOk(next', m, pc', d) {
      assert PlaceOk(m, hands, d);
      assert LinkOk(next, m, pc, d);
    }
    assert Linked(next', m, pc');
  }

  lemma PopCutKeeps<V>(s: State<V>, r: State<V>, m: Meaning, eh: Who, ph: Who)
    requires Ready(s, m, eh, ph) && ConsumerStep(s, r) && s.consumer.PopCut?
    ensures Ready(r, m, eh, ph)
  {
    Terminate(s.next, s.hands, m, s.consumer, r.consumer);
    assert r == s.(next := r.next, consumer := r.consumer);
    var last := m.chain[|m.chain| - 1];
    assert m.pend != [] ==> m.place[Top(m.pend, 0)] == Pending(|m.pend| - 1);
    EmptyUntouchedC(s.pcs, s.consumer, r.consumer, eh, s.emptyTop, m.free, s.size);
    PendingUntouchedC(s.pcs, s.consumer, r.consumer, ph, s.pendingTail, m.pend, s.next, r.next);
  }

  /** Recycle links the last entry given back to the free list's top. */
  lemma Relink(next: seq<Slot>, hands: seq<set<Slot>>, m: Meaning, pc: ConsumerPc, pc': ConsumerPc)
    requires Memory(next, hands, m, pc) && m.lo <= m.k < |m.chain|
    requires pc.RecLink? && pc'.RecStore? && pc'.top == pc.top
    ensures m.chain[m.k] < |next| && Memory(next[m.chain[m.k] := pc.top], hands, m, pc')
  {
    var next' := next[m.chain[m.k] := pc.top];
    forall d | 0 <= d < |next| ensures LinkOk(next', m, pc', d) {
      assert PlaceOk(m, hands, d);
      assert LinkOk(next, m, pc, d);
    }
    assert Linked(next', m, pc');
  }

  lemma RecLinkKeeps<V>(s: State<V>, r: State<V>, m: Meaning, eh: Who, ph: Who)
    requires Ready(s, m, eh, ph) && ConsumerStep(s, r) && s.consumer.RecLink?
    ensures Ready(r, m, eh, ph)
  {
    Relink(s.next, s.hands, m, s.consumer, r.consumer);
    assert m.pend != [] ==> m.place[Top(m.pend, 0)] == Pending(|m.pend| - 1);
    assert EmptyOk(r.pcs, r.consumer, eh, r.emptyTop, m.free, s.size);
    PendingUntouchedC(s.pcs, s.consumer, r.consumer, ph, s.pendingTail, m.pend, s.next, r.next);
  }

  /** The chain's entries lo..k, given back, lie on the free list with lo on top. */
  function Recycled(m: Meaning): (n: Meaning)
    requires m.lo <= m.k < |m.chain|
  {
    Meaning(
      seq(|m.place|, e requires 0 <= e < |m.place| =>
        if m.place[e].Taken? && m.place[e].i <= m.k then Free(|m.free| + m.k - m.place[e].i) else m.place[e]),
      m.free + seq(m.k + 1 - m.lo, j requires 0 <= j < m.k + 1 - m.lo => m.chain[m.k - j]),
      m.pend,
      if m.k + 1 < |m.chain| then m.chain else [],
      if m.k + 1 < |m.chain| then m.k + 1 else 0,
      if m.k + 1 < |m.chain| then m.k + 1 else 0)
  }

  lemma GiveBackPlaces(next: seq<Slot>, hands: seq<set<Slot>>, m: Meaning, pc: ConsumerPc)
    requires Memory(next, hands, m, pc) && m.lo <= m.k < |m.chain|
    ensures Placed(Recycled(m), hands) && HandsOk(Recycled(m).place, hands)
  {
    var n := Recycled(m);
    forall e | 0 <= e < |next| ensures PlaceOk(n, hands, e) { assert PlaceOk(m, hands, e); }
    forall u | 0 <= u < |hands| ensures HandOk(n.place, hands[u], u) { assert HandOk(m.place, hands[u], u); }
  }

  lemma GiveBackListed(next: seq<Slot>, hands: seq<set<Slot>>, m: Meaning, pc: ConsumerPc)
    requires Memory(next, hands, m, pc) && m.lo <= m.k < |m.chain|
    ensures Listed(Recycled(m), |next|)
  {
    var n := Recycled(m);
    forall i | 0 <= i < |n.free| ensures n.free[i] < |next| && n.place[n.free[i]] == Free(i) {
      if i >= |m.free| { assert n.free[i] == m.chain[m.k - (i - |m.free|)]; } else { assert n.free[i] == m.free[i]; }
    }
  }

  lemma GiveBackLink(next: seq<Slot>, hands: seq<set<Slot>>, m: Meaning, pc: ConsumerPc, pc': ConsumerPc, e: Slot)
    requires e < |next| == |m.place| && m.lo <= m.k < |m.chain| && PlaceOk(m, hands, e) && LinkOk(next, m, pc, e)
    requires pc.RecStore? && !pc'.PopCut? && !pc'.RecStore? && pc.top == Top(m.free, |next|)
    ensures LinkOk(next, Recycled(m), pc', e)
  {
    var n := Recycled(m);
    match m.place[e]
    case Taken(i) =>
      if i < m.k {
        assert n.place[e] == Free(|m.free| + m.k - i);
        assert n.free[|m.free| + m.k - i - 1] == m.chain[i + 1];
      }
    case _ =>
  }

  lemma GiveBack(next: seq<Slot>, hands: seq<set<Slot>>, m: Meaning, pc: ConsumerPc, pc': ConsumerPc)
    requires Memory(next, hands, m, pc) && m.lo <= m.k < |m.chain|
    requires pc.RecStore? && !pc'.PopCut? && !pc'.RecStore? && pc.top == Top(m.free, |next|)
    ensures Memory(next, hands, Recycled(m), pc')
  {
    var n := Recycled(m);
    forall e | 0 <= e < |next| ensures LinkOk(next, n, pc', e) {
      assert PlaceOk(m, hands, e);
      assert LinkOk(next, m, pc, e);
      GiveBackLink(next, hands, m, pc, pc', e);
    }
    assert Linked(next, n, pc');
    GiveBackPlaces(next, hands, m, pc);
    GiveBackListed(next, hands, m, pc);
  }

  lemma RecStoreKeeps<V>(s: State<V>, r: State<V>, m: Meaning, eh: Who, ph: Who)
    requires Ready(s, m, eh, ph) && ConsumerStep(s, r) && s.consumer.RecStore?
    ensures Ready(r, Recycled(m), Nobody, ph)
  {
    var n := Recycled(m);
    GiveBack(s.next, s.hands, m, s.consumer, r.consumer);
    assert n.free[|n.free| - 1] == m.chain[m.lo];
    assert m.k + 1 < |m.chain| ==> m.chain[m.k + 1] < s.size;
    UnlockEmptyC(s.pcs, s.consumer, r.consumer, eh, s.emptyTop, m.free, n.free, s.size);
    PendingUntouchedC(s.pcs, s.consumer, r.consumer, ph, s.pendingTail, m.pend, s.next, r.next);
    assert m.k + 1 == |m.chain| ==> m.chain[m.k + 1..] == n.chain[0..];
  }

  /** The whole case distinction over the consumer's program counter. */
  lemma ConsumerStepKeeps<V>(s: State<V>, r: State<V>, m: Meaning, eh: Who, ph: Who)
    requires Ready(s, m, eh, ph) && ConsumerStep(s, r)
    ensures ReadySome(r)
  {
    var c, c' := s.consumer, r.consumer;
    if c.PopUnlock? {
      var n := PopUnlockKeeps(s, r, m, eh, ph);
    } else if c.PopCut? {
      PopCutKeeps(s, r, m, eh, ph);
    } else if c.Reading? {
      ReadKeeps(s, r, m, eh, ph);
    } else if c.Advancing? && c'.Reading? {
      AdvanceKeeps(s, r, m, eh, ph);
    } else if (c.PopTry? && c'.PopFirst?) || (c.RecTry? && c'.RecLink?) {
      ConsumerLockKeeps(s, r, m, eh, ph);
    } else if c.RecLink? {
      RecLinkKeeps(s, r, m, eh, ph);
    } else if c.RecStore? {
      RecStoreKeeps(s, r, m, eh, ph);
    } else if c.Advancing? || c.RecRead? || c.RecTry? {
      RecycleLocalKeeps(s, r, m, eh, ph);
    } else {
      PopLocalKeeps(s, r, m, eh, ph);
    }
  }

  // ---------------------------------------------------------------------------
  // The constructor
  // ---------------------------------------------------------------------------

  predicate Waiting(c: CtorPc) {
    c.Start? || c.Spin?
  }

  /** No thread has left the constructor. */
  ghost predicate AllInside<V>(s: State<V>) {
    s.consumer.Init? && forall t | 0 <= t < |s.pcs| :: s.pcs[t].Ctor?
  }

  /** Before initState is 2 every thread is in the constructor, and only the winner of the race writes. */
  ghost predicate Starting<V>(s: State<V>, winner: Who) {
    && s.Shape()
    && AllInside(s)
    && (forall t | 0 <= t < |s.pcs| :: s.hands[t] == {})
    && s.published == [] && s.received == []
    && (winner.Producer? ==> winner.t < |s.pcs|)
    && (winner != Consumer ==> Waiting(s.consumer.c))
    && (forall t | 0 <= t < |s.pcs| && winner != Producer(t) :: Waiting(s.pcs[t].c))
    && (s.initState == 0 <==> winner == Nobody) && s.initState <= 1
    && (winner != Nobody ==>
          var c := if winner == Consumer then s.consumer.c else s.pcs[winner.t].c;
          && !Waiting(c)
          && (!c.SetTail? ==> s.pendingTail == 0)
          && (c.Loop? ==> s.emptyTop == 1 && 1 <= c.i <= s.size && forall j | 1 <= j < c.i :: s.next[j] == j + 1))
  }

  function Fresh(size: nat): (m: Meaning)
    requires 0 < size
  {
    Meaning(seq(size, e requires 0 <= e < size => if e == 0 then Head else Free(size - 1 - e)),
            seq(size - 1, i requires 0 <= i < size - 1 => size - 1 - i), [], [], 0, 0)
  }

  lemma FreshMemory(size: nat, next: seq<Slot>, hands: seq<set<Slot>>, pc: ConsumerPc)
    requires 0 < size == |next| && forall j | 1 <= j < size :: next[j] == j + 1
    requires forall t | 0 <= t < |hands| :: hands[t] == {}
    ensures Memory(next, hands, Fresh(size), pc)
  {
    var m := Fresh(size);
    forall e | 0 <= e < size ensures PlaceOk(m, hands, e) && LinkOk(next, m, pc, e) {
      if e != 0 { assert m.place[e] == Free(size - 1 - e) && m.free[size - 1 - e] == e && next[e] == e + 1; }
    }
    assert Placed(m, hands) && Linked(next, m, pc);
    forall u | 0 <= u < |hands| ensures HandOk(m.place, hands[u], u) {}
  }

  ghost predicate Inv<V>(s: State<V>) {
    (exists w :: Starting(s, w)) || ReadySome(s)
  }

  /** The winner's last store publishes a queue whose slots from 1 on are all free. */
  lemma ConstructorFinishes<V>(s: State<V>, r: State<V>, w: Who)
    requires Starting(s, w) && w != Nobody
    requires var c := if w == Consumer then s.consumer.c else s.pcs[w.t].c; c == Loop(s.size)
    requires r == s.(initState := 2, consumer := r.consumer, pcs := r.pcs)
    requires |r.pcs| == |s.pcs|
    requires if w == Consumer then r.pcs == s.pcs && r.consumer == PopCheck
             else r.consumer == s.consumer && r.pcs == s.pcs[w.t := Idle]
    ensures Ready(r, Fresh(s.size), Nobody, Nobody)
  {
    FreshMemory(s.size, s.next, s.hands, r.consumer);
    assert s.emptyTop == Top(Fresh(s.size).free, s.size);
    assert EmptyOk(r.pcs, r.consumer, Nobody, r.emptyTop, Fresh(s.size).free, s.size);
    assert PendingOk(r.pcs, r.consumer, Nobody, r.pendingTail, [], r.next);
  }

  lemma ProducerStartingKeeps<V>(s: State<V>, t: nat, r: State<V>, w: Who)
    requires Starting(s, w) && t < |s.pcs| && ProducerStep(s, t, r)
    ensures Inv(r)
  {
    var c := s.pcs[t].c;
    if c == Start && s.initState == 0 {
      assert Starting(r, Producer(t));
    } else if c == Loop(s.size) {
      ConstructorFinishes(s, r, w);
      assert ReadySome(r);
    } else {
      assert Starting(r, w);
    }
  }

  lemma ConsumerStartingKeeps<V>(s: State<V>, r: State<V>, w: Who)
    requires Starting(s, w) && ConsumerStep(s, r)
    ensures Inv(r)
  {
    var c := s.consumer.c;
    if c == Start && s.initState == 0 {
      assert Starting(r, Consumer);
    } else if c == Loop(s.size) {
      ConstructorFinishes(s, r, w);
      assert ReadySome(r);
    } else {
      assert Starting(r, w);
    }
  }

  lemma NextKeeps<V>(s: State<V>, r: State<V>)
    requires Inv(s) && Next(s, r)
    ensures Inv(r)
  {
    if w :| Starting(s, w) {
      if ConsumerStep(s, r) {
        ConsumerStartingKeeps(s, r, w);
      } else {
        var t :| 0 <= t < |s.pcs| && ProducerStep(s, t, r);
        ProducerStartingKeeps(s, t, r, w);
      }
    } else {
      var m, eh, ph :| Ready(s, m, eh, ph);
      if ConsumerStep(s, r) {
        ConsumerStepKeeps(s, r, m, eh, ph);
      } else {
        var t :| 0 <= t < |s.pcs| && ProducerStep(s, t, r);
        ProducerStepKeeps(s, t, r, m, eh, ph);
      }
    }
  }

  lemma InitialStarts<V>(s: State<V>)
    requires Initial(s)
    ensures Inv(s)
  {
    assert Starting(s, Nobody);
  }

  lemma {:induction false} RunKeeps<V>(run: seq<State<V>>, i: nat)
    requires Run(run) && i < |run|
    ensures Inv(run[i])
  {
    hide Run, Initial, Next, Inv;
    if i == 0 {
      RunStarts(run);
      InitialStarts(run[0]);
    } else {
      RunKeeps(run, i - 1);
      RunStep(run, i - 1);
      NextKeeps(run[i - 1], run[i]);
    }
  }

  lemma RunStarts<V>(run: seq<State<V>>)
    requires Run(run)
    ensures Initial(run[0])
  {}

  lemma RunStep<V>(run: seq<State<V>>, i: nat)
    requires Run(run) && i + 1 < |run|
    ensures Next(run[i], run[i + 1])
  {}

  // ---------------------------------------------------------------------------
  // What every run guarantees
  // ---------------------------------------------------------------------------

  /** Following next from each entry of q leads to the following one. */
  ghost predicate Threaded(next: seq<Slot>, q: seq<Slot>) {
    forall i, j | 0 <= i < j < |q| && j == i + 1 :: q[i] < |next| && next[q[i]] == q[j]
  }

  ghost predicate InRange(q: seq<Slot>, size: nat) {
    forall i | 0 <= i < |q| :: 0 < q[i] < size
  }

  ghost predicate Distinct(q: seq<Slot>) {
    forall i, j | 0 <= i < j < |q| :: q[i] != q[j]
  }

  /** Until the single initialiser has finished no thread is past the constructor. */
  lemma NoCallBeforeInit<V>(run: seq<State<V>>, i: nat)
    requires Run(run) && i < |run|
    ensures run[i].initState != 2 ==> AllInside(run[i]) && run[i].published == [] && run[i].received == []
  {
    RunKeeps(run, i);
  }

  lemma PendingThreaded(next: seq<Slot>, hands: seq<set<Slot>>, m: Meaning, pc: ConsumerPc)
    requires Memory(next, hands, m, pc) && 0 < |next|
    ensures InRange(m.pend, |next|)
    ensures m.pend != [] ==> Threaded(next, [0] + m.pend)
  {
    forall a | 0 <= a < |m.pend| ensures 0 < m.pend[a] < |next| && m.place[m.pend[a]] == Pending(a) {}
    var q := [0] + m.pend;
    if m.pend != [] {
      assert LinkOk(next, m, pc, 0);
      forall a, b | 0 <= a < b < |q| && b == a + 1 ensures q[a] < |next| && next[q[a]] == q[b] {
        if a > 0 {
          assert q[a] == m.pend[a - 1];
          assert LinkOk(next, m, pc, q[a]);
        }
      }
    }
  }

  lemma ChainThreaded(next: seq<Slot>, hands: seq<set<Slot>>, m: Meaning, pc: ConsumerPc, from: nat)
    requires Memory(next, hands, m, pc) && m.lo <= from <= |m.chain| && (pc.RecStore? ==> m.k < from)
    ensures InRange(m.chain[from..], |next|) && Threaded(next, m.chain[from..])
  {
    var q := m.chain[from..];
    forall a | 0 <= a < |q| ensures 0 < q[a] < |next| && m.place[q[a]] == Taken(from + a) {
      assert q[a] == m.chain[from + a];
    }
    forall a, b | 0 <= a < b < |q| && b == a + 1 ensures next[q[a]] == q[b] {
      assert LinkOk(next, m, pc, q[a]);
    }
  }

  /**
   Nothing published is lost, duplicated or reordered: the log of published data is what
   the consumer has read, then its unread entries, then the entries threaded from slot 0.
  */
  lemma FifoDelivery<V>(run: seq<State<V>>, i: nat) returns (unread: seq<Slot>, pend: seq<Slot>)
    requires Run(run) && i < |run| && run[i].initState == 2
    ensures var s := run[i];
      && InRange(unread, |s.data|) && InRange(pend, |s.data|)
      && s.published == s.received + Values(s.data, unread) + Values(s.data, pend)
      && (pend != [] ==> Threaded(s.next, [0] + pend))
      && (s.pendingTail != s.PendingLock() ==> s.pendingTail == Top(pend, 0))
      && Threaded(s.next, unread)
      && (s.consumer.Reading? ==> unread != [] && unread[0] == s.consumer.cur)
      && (!HoldsChain(s.consumer) ==> unread == [])
  {
    RunKeeps(run, i);
    var s := run[i];
    var m, eh, ph :| Ready(s, m, eh, ph);
    var from := UnreadFrom(s.consumer, m);
    unread, pend := m.chain[from..], m.pend;
    PendingThreaded(s.next, s.hands, m, s.consumer);
    ChainThreaded(s.next, s.hands, m, s.consumer, from);
  }

  /** With nothing pending and the consumer back at PopAll, all that was published was read. */
  lemma DrainedMeansDelivered<V>(run: seq<State<V>>, i: nat)
    requires Run(run) && i < |run| && run[i].initState == 2
    ensures run[i].received <= run[i].published
    ensures run[i].pendingTail == 0 && run[i].consumer.PopCheck? ==> run[i].received == run[i].published
  {
    var unread, pend := FifoDelivery(run, i);
  }

  /** The free list from its top. */
  function FromTop(free: seq<Slot>): (q: seq<Slot>)
    ensures |q| == |free| && forall j | 0 <= j < |q| :: q[j] == free[|free| - 1 - j]
  {
    seq(|free|, j requires 0 <= j < |free| => free[|free| - 1 - j])
  }

  /** Where no producer holds it, empty_top is the first free slot; a producer that holds it has read that slot, and then its link. */
  ghost predicate TopOk(pcs: seq<ProducerPc>, top: nat, q: seq<Slot>, size: nat) {
    && (top != size + 2 ==> top == if q == [] then size else q[0])
    && (forall t | 0 <= t < |pcs| && pcs[t].AllocTop? :: pcs[t].top == if q == [] then size else q[0])
    && (forall t | 0 <= t < |pcs| && pcs[t].AllocStore? :: q != [] && pcs[t].top == q[0] && pcs[t].rest == if |q| > 1 then q[1] else size)
  }

  lemma FreeTop(pcs: seq<ProducerPc>, c: ConsumerPc, h: Who, top: nat, free: seq<Slot>, size: nat)
    requires EmptyOk(pcs, c, h, top, free, size)
    ensures TopOk(pcs, top, FromTop(free), size)
  {}

  lemma FreeThreaded(next: seq<Slot>, hands: seq<set<Slot>>, m: Meaning, pc: ConsumerPc)
    requires Memory(next, hands, m, pc)
    ensures Threaded(next, FromTop(m.free))
    ensures m.free != [] ==> m.free[0] < |next| && next[m.free[0]] == |next|
  {
    var q := FromTop(m.free);
    forall a | 0 <= a < |q| ensures q[a] < |next| && m.place[q[a]] == Free(|q| - 1 - a) {}
    forall a, b | 0 <= a < b < |q| && b == a + 1 ensures next[q[a]] == q[b] {
      assert LinkOk(next, m, pc, q[a]);
    }
    if m.free != [] {
      assert LinkOk(next, m, pc, m.free[0]);
    }
  }

  lemma ListsDisjoint(m: Meaning, hands: seq<set<Slot>>, all: seq<Slot>, size: nat)
    requires Listed(m, size) && Placed(m, hands) && all == FromTop(m.free) + m.pend + m.chain[m.lo..]
    ensures Distinct(all) && InRange(all, size)
    ensures forall j | 0 <= j < |all| :: m.place[all[j]].Free? || m.place[all[j]].Pending? || m.place[all[j]].Taken?
  {
    var n, p := |m.free|, |m.pend|;
    forall j | 0 <= j < |all|
      ensures all[j] < size
      ensures m.place[all[j]] == if j < n then Free(n - 1 - j) else if j < n + p then Pending(j - n) else Taken(j - n - p + m.lo)
      ensures 0 < all[j]
    {
      if j < n {
        assert all[j] == m.free[n - 1 - j];
      } else if j < n + p {
        assert all[j] == m.pend[j - n];
      } else {
        assert all[j] == m.chain[j - n - p + m.lo];
      }
    }
  }

  lemma ListsComplete(m: Meaning, hands: seq<set<Slot>>, all: seq<Slot>, size: nat, e: Slot)
    requires Listed(m, size) && Placed(m, hands) && all == FromTop(m.free) + m.pend + m.chain[m.lo..]
    requires 0 < e < size && !m.place[e].Hand?
    ensures e in all
  {
    var n, p := |m.free|, |m.pend|;
    assert PlaceOk(m, hands, e);
    match m.place[e]
    case Free(j) => assert all[n - 1 - j] == e;
    case Pending(j) => assert all[n + j] == e;
    case Taken(j) => assert all[n + p + j - m.lo] == e;
    case Head =>
  }

  /** Each of the slots 1..size-1 occurs once in `listed`, or else in exactly one hand. */
  ghost predicate Partition(listed: seq<Slot>, hands: seq<set<Slot>>, size: nat) {
    && Distinct(listed) && InRange(listed, size)
    && (forall e | 0 < e < size :: e !in listed <==> exists t :: 0 <= t < |hands| && e in hands[t])
    && (forall t, u, e | 0 <= t < |hands| && 0 <= u < |hands| && e in hands[t] && e in hands[u] :: t == u)
    && (forall t, e | 0 <= t < |hands| && e in hands[t] :: 0 < e < size)
  }

  lemma PlacesPartition(m: Meaning, hands: seq<set<Slot>>, all: seq<Slot>, size: nat)
    requires Listed(m, size) && Placed(m, hands) && HandsOk(m.place, hands)
    requires all == FromTop(m.free) + m.pend + m.chain[m.lo..]
    ensures Partition(all, hands, size)
  {
    ListsDisjoint(m, hands, all, size);
    forall t, e | 0 <= t < |hands| && e in hands[t] ensures 0 < e < size && m.place[e] == Hand(t) {
      assert HandOk(m.place, hands[t], t) && PlaceOk(m, hands, e);
    }
    forall e | 0 < e < size ensures e !in all <==> exists t :: 0 <= t < |hands| && e in hands[t] {
      assert PlaceOk(m, hands, e);
      if !m.place[e].Hand? {
        ListsComplete(m, hands, all, size, e);
      }
    }
  }

  /**
   The slots on the free list, on the pending list and in the consumer's chain, each in its
   order; all others are in the producers' hands.
  */
  ghost predicate SplitsInto<V>(s: State<V>, free: seq<Slot>, pend: seq<Slot>, held: seq<Slot>) {
    && Partition(free + pend + held, s.hands, s.size)
    && TopOk(s.pcs, s.emptyTop, free, s.size)
    && Threaded(s.next, free)
    && (free != [] ==> Top(free, 0) < |s.next| && s.next[Top(free, 0)] == s.size)
    && (pend != [] ==> Threaded(s.next, [0] + pend))
    && (s.pendingTail != s.PendingLock() ==> s.pendingTail == Top(pend, 0))
    && (if HoldsChain(s.consumer) then held != [] && held[0] == s.consumer.first else held == [])
  }

  /**
   Every slot from 1 on is in exactly one place: the free list, one producer's hand, the
   pending list, or the consumer's chain. Both lists are threaded from their heads and
   acyclic, and Alloc fails only when the free list is empty.
  */
  lemma SlotsPartitioned<V>(run: seq<State<V>>, i: nat) returns (free: seq<Slot>, pend: seq<Slot>, held: seq<Slot>)
    requires Run(run) && i < |run| && run[i].initState == 2
    ensures SplitsInto(run[i], free, pend, held)
  {
    hide Run, Initial, Placed, Linked, HandsOk, PushesOk, LogsOk;
    RunKeeps(run, i);
    var s := run[i];
    var m, eh, ph :| Ready(s, m, eh, ph);
    free, pend, held := FromTop(m.free), m.pend, m.chain[m.lo..];
    PlacesPartition(m, s.hands, free + pend + held, s.size);
    FreeTop(s.pcs, s.consumer, eh, s.emptyTop, m.free, s.size);
    hide TopOk, EmptyOk;
    FreeThreaded(s.next, s.hands, m, s.consumer);
    PendingThreaded(s.next, s.hands, m, s.consumer);
  }

  /** Each lock word has at most one holder. */
  lemma MutualExclusion<V>(run: seq<State<V>>, i: nat, t: nat, u: nat)
    requires Run(run) && i < |run| && t < |run[i].pcs| && u < |run[i].pcs|
    ensures var s := run[i]; var a, b, c := s.pcs[t], s.pcs[u], s.consumer;
      && ((a.AllocTop? || a.AllocStore?) && (b.AllocTop? || b.AllocStore?) ==> t == u)
      && ((a.AllocTop? || a.AllocStore?) ==> !c.RecLink? && !c.RecStore? && s.emptyTop == s.EmptyLock())
      && ((a.PushLink? || a.PushStore?) && (b.PushLink? || b.PushStore?) ==> t == u)
      && ((a.PushLink? || a.PushStore?) ==> !c.PopFirst? && !c.PopUnlock? && s.pendingTail == s.PendingLock())
  {
    RunKeeps(run, i);
  }

  lemma MeaningInBounds<V>(s: State<V>, m: Meaning, eh: Who, ph: Who)
    requires Ready(s, m, eh, ph)
    ensures Top(m.free, s.size) <= s.size && Top(m.pend, 0) < s.size
    ensures forall t, e | 0 <= t < |s.hands| && e in s.hands[t] :: 0 < e < s.size
    ensures HoldsChain(s.consumer) ==>
              && 0 < m.chain[m.lo] < s.size && 0 < m.chain[m.k] < s.size
              && 0 < m.chain[|m.chain| - 1] < s.size
  {
    forall t, e | 0 <= t < |s.hands| && e in s.hands[t] ensures 0 < e < s.size {
      assert HandOk(m.place, s.hands[t], t) && PlaceOk(m, s.hands, e);
    }
    assert m.free != [] ==> m.free[|m.free| - 1] < s.size;
    assert m.pend != [] ==> m.pend[|m.pend| - 1] < s.size;
    if HoldsChain(s.consumer) {
      assert PlaceOk(m, s.hands, m.chain[m.k]) && PlaceOk(m, s.hands, m.chain[m.lo]);
      assert PlaceOk(m, s.hands, m.chain[|m.chain| - 1]);
    }
  }

  /** Every index the code uses lies in the entries array. */
  lemma AccessesInBounds<V>(run: seq<State<V>>, i: nat)
    requires Run(run) && i < |run|
    ensures var s := run[i]; var c := s.consumer;
      && (forall t | 0 <= t < |s.pcs| ::
            && (s.pcs[t].AllocTop? ==> s.pcs[t].top <= s.size)
            && (s.pcs[t].PushLink? || s.pcs[t].PushStore? ==> s.pcs[t].tail < s.size && 0 < s.pcs[t].entry < s.size))
      && (c.PopCut? ==> 0 < c.tail < s.size && 0 < c.first < s.size)
      && (c.Reading? || c.Advancing? ==> 0 < c.cur < s.size)
      && (c.RecLink? || c.RecStore? ==> 0 < c.last < s.size && 0 < c.first < s.size && c.top <= s.size)
  {
    hide Run, Initial, Placed, Linked, HandsOk;
    RunKeeps(run, i);
    var s := run[i];
    if m, eh, ph :| Ready(s, m, eh, ph) {
      MeaningInBounds(s, m, eh, ph);
    }
  }
}
