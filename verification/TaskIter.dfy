/**
 The task iterator (cgroup.c, css_task_iter_* and the skipping in css_set_move_task). The
 lock is dropped between two calls of css_task_iter_next, so tasks leave and join the
 lists meanwhile; a leaving task moves the iterators that point to it one entry on. A
 pointer into a list is its index here, the list head being the index after the last entry.
*/
module TaskIter {
  import opened CgroupTree

  type Task(==, !new)

  /** The three lists of a css_set, in the order in which they are walked. */
  datatype Lists = Lists(tasks: seq<Task>, mgTasks: seq<Task>, dyingTasks: seq<Task>) {
    function Nth(k: nat): seq<Task> {
      if k == 0 then tasks else if k == 1 then mgTasks else dyingTasks
    }

    function With(k: nat, q: seq<Task>): Lists {
      if k == 0 then this.(tasks := q) else if k == 1 then this.(mgTasks := q) else this.(dyingTasks := q)
    }

    predicate IsEmpty() {
      tasks == [] && mgTasks == [] && dyingTasks == []
    }

    ghost function Size(): nat {
      |tasks| + |mgTasks| + |dyingTasks|
    }
  }

  /** What is iterated over: only thread group leaders or all, and with threaded css_sets or not. */
  datatype Kind = Kind(procs: bool, threaded: bool, leaders: set<Task>, alive: set<Task>)

  /** Which tasks are returned; on the dying list only leaders with live threads, and those only with PROCS. */
  predicate Eligible(kind: Kind, list: nat, x: Task) {
    if kind.procs then x in kind.leaders && (list == 2 ==> x in kind.alive) else list != 2
  }

  /** A task of the css_set may be returned: with PROCS a leader that is live or not yet dying, else any that is not dying. */
  ghost predicate MayReturn(kind: Kind, ls: Lists, x: Task) {
    if kind.procs then x in kind.leaders && (x in ls.tasks || x in ls.mgTasks || (x in ls.dyingTasks && x in kind.alive))
    else x in ls.tasks || x in ls.mgTasks
  }

  ghost function Filter(kind: Kind, list: nat, q: seq<Task>): seq<Task> {
    if q == [] then [] else (if Eligible(kind, list, q[0]) then [q[0]] else []) + Filter(kind, list, q[1..])
  }

  /** The tasks that an undisturbed iteration returns for one css_set, from list k on. */
  ghost function FromList(kind: Kind, ls: Lists, k: nat): seq<Task>
    decreases 3 - k
  {
    if k >= 3 then [] else Filter(kind, k, ls.Nth(k)) + FromList(kind, ls, k + 1)
  }

  ghost predicate AllBelow(csets: seq<nat>, n: nat) {
    csets == [] || (csets[0] < n && AllBelow(csets[1..], n))
  }

  ghost function TasksOf(kind: Kind, lists: seq<Lists>, csets: seq<nat>): seq<Task>
    requires AllBelow(csets, |lists|)
  {
    if csets == [] then [] else FromList(kind, lists[csets[0]], 0) + TasksOf(kind, lists, csets[1..])
  }

  // ---------------------------------------------------------------------------
  // Lists
  // ---------------------------------------------------------------------------

  lemma {:induction false} FilterAppend(kind: Kind, list: nat, a: seq<Task>, b: seq<Task>)
    ensures Filter(kind, list, a + b) == Filter(kind, list, a) + Filter(kind, list, b)
  {
    var s := a + b;
    if a == [] {
      assert s == b;
    } else {
      assert s[0] == a[0] && s[1..] == a[1..] + b;
      FilterAppend(kind, list, a[1..], b);
      Assoc(if Eligible(kind, list, a[0]) then [a[0]] else [], Filter(kind, list, a[1..]), Filter(kind, list, b));
    }
  }

  lemma FilterOne(kind: Kind, list: nat, x: Task)
    ensures Filter(kind, list, [x]) == if Eligible(kind, list, x) then [x] else []
  {
    assert [x][1..] == [];
  }

  lemma {:induction false} FilterCount(kind: Kind, list: nat, q: seq<Task>, x: Task)
    ensures multiset(Filter(kind, list, q))[x] == if Eligible(kind, list, x) then multiset(q)[x] else 0
  {
    if q != [] {
      FilterCount(kind, list, q[1..], x);
      assert q == [q[0]] + q[1..];
    }
  }

  // ---------------------------------------------------------------------------
  // What is still to be returned
  // ---------------------------------------------------------------------------

  /** The css_sets in the order of css_task_iter_next_css_set. */
  ghost function Flat(threaded: bool, threadedOf: seq<seq<nat>>, csets: seq<nat>): seq<nat> {
    if csets == [] then []
    else [csets[0]] + (if threaded && csets[0] < |threadedOf| then threadedOf[csets[0]] else []) + Flat(threaded, threadedOf, csets[1..])
  }

  /** The threaded css_sets still to be entered before the next one of the cgroup. */
  ghost function RestThreaded(threadedOf: seq<seq<nat>>, pos: Option<(nat, nat)>): seq<nat> {
    if pos.Some? && pos.value.0 < |threadedOf| && pos.value.1 <= |threadedOf[pos.value.0]|
    then threadedOf[pos.value.0][pos.value.1..] else []
  }

  ghost function RestPlain(threaded: bool, threadedOf: seq<seq<nat>>, csets: seq<nat>, pos: Option<nat>): seq<nat> {
    if pos.Some? && pos.value <= |csets| then Flat(threaded, threadedOf, csets[pos.value..]) else []
  }

  lemma NextThreaded(threadedOf: seq<seq<nat>>, d: nat, i: nat)
    requires d < |threadedOf| && i < |threadedOf[d]|
    ensures RestThreaded(threadedOf, Some((d, i))) == [threadedOf[d][i]] + RestThreaded(threadedOf, Some((d, i + 1)))
  {
    assert threadedOf[d][i..] == [threadedOf[d][i]] + threadedOf[d][i + 1..];
  }

  lemma NextPlain(threaded: bool, threadedOf: seq<seq<nat>>, csets: seq<nat>, p: nat)
    requires p < |csets| && csets[p] < |threadedOf|
    ensures RestPlain(threaded, threadedOf, csets, Some(p)) ==
      [csets[p]] + ((if threaded then RestThreaded(threadedOf, Some((csets[p], 0))) else []) + RestPlain(threaded, threadedOf, csets, Some(p + 1)))
  {
    var q := csets[p..];
    assert q[0] == csets[p] && q[1..] == csets[p + 1..];
    assert threadedOf[csets[p]][0..] == threadedOf[csets[p]];
    Assoc([csets[p]], if threaded then threadedOf[csets[p]] else [], Flat(threaded, threadedOf, q[1..]));
  }

  lemma {:induction false} BelowAt(csets: seq<nat>, n: nat, i: nat)
    requires AllBelow(csets, n) && i <= |csets|
    ensures AllBelow(csets[i..], n) && (i < |csets| ==> csets[i] < n)
    decreases i
  {
    if i == 0 {
      assert csets[0..] == csets;
    } else {
      BelowAt(csets[1..], n, i - 1);
      assert csets[1..][i - 1..] == csets[i..];
    }
  }

  lemma {:induction false} BelowAppend(a: seq<nat>, b: seq<nat>, n: nat)
    requires AllBelow(a, n) && AllBelow(b, n)
    ensures AllBelow(a + b, n)
  {
    if a == [] {
      assert a + b == b;
    } else {
      BelowAppend(a[1..], b, n);
      assert (a + b)[1..] == a[1..] + b;
    }
  }

  lemma {:induction false} FlatBelow(threaded: bool, threadedOf: seq<seq<nat>>, csets: seq<nat>, n: nat)
    requires AllBelow(csets, n) && forall d {:trigger threadedOf[d]} | 0 <= d < |threadedOf| :: AllBelow(threadedOf[d], n)
    ensures AllBelow(Flat(threaded, threadedOf, csets), n)
  {
    if csets != [] {
      FlatBelow(threaded, threadedOf, csets[1..], n);
      var d := if threaded && csets[0] < |threadedOf| then threadedOf[csets[0]] else [];
      BelowAppend([csets[0]], d, n);
      BelowAppend([csets[0]] + d, Flat(threaded, threadedOf, csets[1..]), n);
    }
  }

  /** From entry i of list k of css_set c on, then its later lists, then the css_sets of rest. */
  ghost function FutureAt(kind: Kind, lists: seq<Lists>, c: nat, k: nat, pos: Option<nat>, rest: seq<nat>): seq<Task>
    requires AllBelow(rest, |lists|) && PosOk(lists, c, k, pos)
  {
    (if pos.None? then [] else Filter(kind, k, lists[c].Nth(k)[pos.value..]) + FromList(kind, lists[c], k + 1)) + TasksOf(kind, lists, rest)
  }

  ghost predicate PosOk(lists: seq<Lists>, c: nat, k: nat, pos: Option<nat>) {
    pos.Some? ==> c < |lists| && k < 3 && pos.value <= |lists[c].Nth(k)|
  }

  ghost function RawCsets(lists: seq<Lists>, csets: seq<nat>): nat
    requires AllBelow(csets, |lists|)
  {
    if csets == [] then 0 else lists[csets[0]].Size() + RawCsets(lists, csets[1..])
  }

  /** How many entries lie ahead, eligible or not. */
  ghost function RawAt(lists: seq<Lists>, c: nat, k: nat, pos: Option<nat>, rest: seq<nat>): int
    requires AllBelow(rest, |lists|) && PosOk(lists, c, k, pos)
  {
    (if pos.None? then 0
     else |lists[c].Nth(k)| - pos.value + (if k < 1 then |lists[c].mgTasks| else 0) + (if k < 2 then |lists[c].dyingTasks| else 0))
    + RawCsets(lists, rest)
  }

  /** At the end of a list the next one follows. */
  lemma NextList(kind: Kind, lists: seq<Lists>, c: nat, k: nat, rest: seq<nat>)
    requires AllBelow(rest, |lists|) && c < |lists| && k < 2
    ensures FutureAt(kind, lists, c, k + 1, Some(0), rest) == FutureAt(kind, lists, c, k, Some(|lists[c].Nth(k)|), rest)
    ensures RawAt(lists, c, k + 1, Some(0), rest) == RawAt(lists, c, k, Some(|lists[c].Nth(k)|), rest)
  {
    var q, r := lists[c].Nth(k), lists[c].Nth(k + 1);
    assert q[|q|..] == [] && r[0..] == r;
    var own, later := Filter(kind, k + 1, r), FromList(kind, lists[c], k + 2);
    assert FromList(kind, lists[c], k + 1) == own + later && Filter(kind, k, []) == [];
    hide Filter, FromList, TasksOf, RawCsets, AllBelow;
    assert [] + (own + later) == own + later;
  }

  lemma LastList(kind: Kind, lists: seq<Lists>, c: nat, rest: seq<nat>)
    requires AllBelow(rest, |lists|) && c < |lists|
    ensures FutureAt(kind, lists, c, 2, Some(|lists[c].dyingTasks|), rest) == TasksOf(kind, lists, rest)
    ensures RawAt(lists, c, 2, Some(|lists[c].dyingTasks|), rest) == RawCsets(lists, rest)
  {
    var q := lists[c].Nth(2);
    assert q[|q|..] == [];
    assert FromList(kind, lists[c], 3) == [];
  }

  /** Entering a css_set at its first non-empty list. */
  lemma EnterCset(kind: Kind, lists: seq<Lists>, c: nat, k: nat, rest: seq<nat>)
    requires AllBelow(rest, |lists|) && c < |lists| && k < 3
    requires (k > 0 ==> lists[c].tasks == []) && (k > 1 ==> lists[c].mgTasks == [])
    ensures FutureAt(kind, lists, c, k, Some(0), rest) == FromList(kind, lists[c], 0) + TasksOf(kind, lists, rest)
    ensures RawAt(lists, c, k, Some(0), rest) == lists[c].Size() + RawCsets(lists, rest)
  {
    var q := lists[c].Nth(k);
    assert q[0..] == q;
    if k > 0 { assert FromList(kind, lists[c], 0) == FromList(kind, lists[c], 1); }
    if k > 1 { assert FromList(kind, lists[c], 1) == FromList(kind, lists[c], 2); }
  }

  lemma RawPositive(kind: Kind, lists: seq<Lists>, c: nat, k: nat, pos: Option<nat>, rest: seq<nat>)
    requires AllBelow(rest, |lists|) && PosOk(lists, c, k, pos)
    ensures RawAt(lists, c, k, pos, rest) >= 0
  {}

  lemma NoPosition(kind: Kind, lists: seq<Lists>, c: nat, k: nat, rest: seq<nat>)
    requires AllBelow(rest, |lists|)
    ensures FutureAt(kind, lists, c, k, None, rest) == TasksOf(kind, lists, rest)
    ensures RawAt(lists, c, k, None, rest) == RawCsets(lists, rest)
  {}

  lemma EmptyCset(kind: Kind, ls: Lists)
    requires ls.IsEmpty()
    ensures FromList(kind, ls, 0) == []
  {
    assert FromList(kind, ls, 1) == FromList(kind, ls, 2) == FromList(kind, ls, 3);
  }

  /** The entry at the position comes first, if it is eligible. */
  lemma Here(kind: Kind, lists: seq<Lists>, c: nat, k: nat, i: nat, rest: seq<nat>)
    requires AllBelow(rest, |lists|) && c < |lists| && k < 3 && i < |lists[c].Nth(k)|
    ensures var x := lists[c].Nth(k)[i];
      FutureAt(kind, lists, c, k, Some(i), rest) ==
        (if Eligible(kind, k, x) then [x] else []) + FutureAt(kind, lists, c, k, Some(i + 1), rest)
    ensures RawAt(lists, c, k, Some(i), rest) == 1 + RawAt(lists, c, k, Some(i + 1), rest)
  {
    var q := lists[c].Nth(k);
    var r := q[i..];
    assert r[0] == q[i] && r[1..] == q[i + 1..];
    var h := if Eligible(kind, k, q[i]) then [q[i]] else [];
    Assoc(h, Filter(kind, k, r[1..]), FromList(kind, lists[c], k + 1));
    Assoc(h, Filter(kind, k, r[1..]) + FromList(kind, lists[c], k + 1), TasksOf(kind, lists, rest));
  }

  /** cset, if any, and the css_sets of rest hold the given tasks and number of entries. */
  ghost predicate Ahead(kind: Kind, lists: seq<Lists>, cset: Option<nat>, rest: seq<nat>, tasks: seq<Task>, raw: nat)
    requires AllBelow(rest, |lists|)
  {
    match cset
    case None => tasks == TasksOf(kind, lists, rest) && raw == RawCsets(lists, rest)
    case Some(c) =>
      && c < |lists|
      && tasks == FromList(kind, lists[c], 0) + TasksOf(kind, lists, rest)
      && raw == lists[c].Size() + RawCsets(lists, rest)
  }

  lemma HeadCset(kind: Kind, lists: seq<Lists>, c: nat, rest: seq<nat>)
    requires AllBelow(rest, |lists|) && AllBelow([c] + rest, |lists|)
    ensures c < |lists|
    ensures TasksOf(kind, lists, [c] + rest) == FromList(kind, lists[c], 0) + TasksOf(kind, lists, rest)
    ensures RawCsets(lists, [c] + rest) == lists[c].Size() + RawCsets(lists, rest)
  {
    var q := [c] + rest;
    assert q[0] == c && q[1..] == rest;
  }

  // ---------------------------------------------------------------------------
  // Tasks that come and go
  // ---------------------------------------------------------------------------

  /** q without x. */
  ghost function Erase(q: seq<Task>, x: Task): seq<Task> {
    if q == [] then [] else (if q[0] == x then [] else [q[0]]) + Erase(q[1..], x)
  }

  lemma {:induction false} EraseAppend(a: seq<Task>, b: seq<Task>, x: Task)
    ensures Erase(a + b, x) == Erase(a, x) + Erase(b, x)
  {
    var s := a + b;
    if a == [] {
      assert s == b;
    } else {
      assert s[0] == a[0] && s[1..] == a[1..] + b;
      EraseAppend(a[1..], b, x);
      Assoc(if a[0] == x then [] else [a[0]], Erase(a[1..], x), Erase(b, x));
    }
  }

  lemma {:induction false} EraseCount(q: seq<Task>, x: Task, y: Task)
    ensures multiset(Erase(q, x))[y] == if y == x then 0 else multiset(q)[y]
  {
    if q != [] {
      EraseCount(q[1..], x, y);
      assert q == [q[0]] + q[1..];
    }
  }

  /** The same tasks in the same order, save for x. */
  ghost predicate SameBut(a: seq<Task>, b: seq<Task>, x: Task) {
    Erase(a, x) == Erase(b, x)
  }

  lemma SameAppend(a: seq<Task>, a': seq<Task>, b: seq<Task>, b': seq<Task>, x: Task)
    requires SameBut(a, a', x) && SameBut(b, b', x)
    ensures SameBut(a + b, a' + b', x)
  {
    EraseAppend(a, b, x);
    EraseAppend(a', b', x);
  }

  /** An entry x in the middle of a list makes no other difference to what the list yields. */
  lemma MiddleEntry(kind: Kind, k: nat, a: seq<Task>, x: Task, b: seq<Task>)
    ensures SameBut(Filter(kind, k, a + [x] + b), Filter(kind, k, a + b), x)
    ensures |Filter(kind, k, a + b)| <= |Filter(kind, k, a + [x] + b)| <= |Filter(kind, k, a + b)| + 1
  {
    hide Filter;
    var fa, fb := Filter(kind, k, a), Filter(kind, k, b);
    FilterAppend(kind, k, a + [x], b);
    FilterAppend(kind, k, a, [x]);
    FilterAppend(kind, k, a, b);
    FilterOne(kind, k, x);
    var h := if Eligible(kind, k, x) then [x] else [];
    EraseAppend(fa + h, fb, x);
    EraseAppend(fa, h, x);
    EraseAppend(fa, fb, x);
    assert [x][1..] == [];
    assert Erase(h, x) == [];
  }

  /** The lists with list k of css_set c replaced. */
  function Edit(lists: seq<Lists>, c: nat, k: nat, q: seq<Task>): seq<Lists>
    requires c < |lists|
  {
    lists[c := lists[c].With(k, q)]
  }

  lemma {:induction false} EditFromList(kind: Kind, ls: Lists, k: nat, q: seq<Task>, x: Task, j: nat)
    requires k < 3 && SameBut(Filter(kind, k, ls.Nth(k)), Filter(kind, k, q), x)
    ensures SameBut(FromList(kind, ls, j), FromList(kind, ls.With(k, q), j), x)
    decreases 3 - j
  {
    if j < 3 {
      EditFromList(kind, ls, k, q, x, j + 1);
      SameAppend(Filter(kind, j, ls.Nth(j)), Filter(kind, j, ls.With(k, q).Nth(j)),
                 FromList(kind, ls, j + 1), FromList(kind, ls.With(k, q), j + 1), x);
    }
  }

  lemma {:induction false} EditTasksOf(kind: Kind, lists: seq<Lists>, c: nat, k: nat, q: seq<Task>, x: Task, csets: seq<nat>)
    requires AllBelow(csets, |lists|) && c < |lists| && k < 3 && SameBut(Filter(kind, k, lists[c].Nth(k)), Filter(kind, k, q), x)
    ensures SameBut(TasksOf(kind, lists, csets), TasksOf(kind, Edit(lists, c, k, q), csets), x)
  {
    if csets != [] {
      var lists' := Edit(lists, c, k, q);
      EditTasksOf(kind, lists, c, k, q, x, csets[1..]);
      EditFromList(kind, lists[c], k, q, x, 0);
      SameAppend(FromList(kind, lists[csets[0]], 0), FromList(kind, lists'[csets[0]], 0),
                 TasksOf(kind, lists, csets[1..]), TasksOf(kind, lists', csets[1..]), x);
    }
  }

  function Times(more: bool, n: nat): nat {
    if more then n else 0
  }

  lemma {:induction false} FromListGrows(kind: Kind, ls: Lists, k: nat, q: seq<Task>, more: bool, j: nat)
    requires k < 3 && |Filter(kind, k, q)| <= |Filter(kind, k, ls.Nth(k))| + Times(more, 1)
    ensures |FromList(kind, ls.With(k, q), j)| <= |FromList(kind, ls, j)| + if j <= k then Times(more, 1) else 0
    decreases 3 - j
  {
    if j < 3 { FromListGrows(kind, ls, k, q, more, j + 1); }
  }

  lemma {:induction false} TasksOfGrows(kind: Kind, lists: seq<Lists>, c: nat, k: nat, q: seq<Task>, more: bool, csets: seq<nat>)
    requires AllBelow(csets, |lists|) && c < |lists| && k < 3 && |Filter(kind, k, q)| <= |Filter(kind, k, lists[c].Nth(k))| + Times(more, 1)
    ensures |TasksOf(kind, Edit(lists, c, k, q), csets)| <= |TasksOf(kind, lists, csets)| + Times(more, multiset(csets)[c])
  {
    hide FromList, Filter;
    if csets != [] {
      TasksOfGrows(kind, lists, c, k, q, more, csets[1..]);
      FromListGrows(kind, lists[c], k, q, more, 0);
      HeadCount(csets, c);
    }
  }

  lemma HeadCount(csets: seq<nat>, c: nat)
    requires csets != []
    ensures multiset(csets)[c] == (if csets[0] == c then 1 else 0) + multiset(csets[1..])[c]
  {
    assert csets == [csets[0]] + csets[1..];
  }

  lemma EditNth(lists: seq<Lists>, c: nat, k: nat, q: seq<Task>, d: nat, l: nat)
    requires c < |lists| && k < 3 && d < |lists| && l < 3
    ensures |Edit(lists, c, k, q)| == |lists|
    ensures Edit(lists, c, k, q)[d].Nth(l) == if d == c && l == k then q else lists[d].Nth(l)
  {}

  /**
   A list q turns into q', and a position p on it into p': what they yield changes by x at
   most, and grows by one at most if more, else not at all.
  */
  ghost predicate OneEdit(kind: Kind, k: nat, q: seq<Task>, q': seq<Task>, x: Task, more: bool, p: Option<nat>, p': Option<nat>) {
    && SameBut(Filter(kind, k, q), Filter(kind, k, q'), x)
    && |Filter(kind, k, q')| <= |Filter(kind, k, q)| + Times(more, 1)
    && (p.Some? ==>
          && p'.Some? && p.value <= |q| && p'.value <= |q'|
          && SameBut(Filter(kind, k, q[p.value..]), Filter(kind, k, q'[p'.value..]), x)
          && |Filter(kind, k, q'[p'.value..])| <= |Filter(kind, k, q[p.value..])| + Times(more, 1))
  }

  /** The list k of css_set c turns into q, and the position accordingly. */
  ghost predicate ListEdit(kind: Kind, lists: seq<Lists>, c: nat, k: nat, q: seq<Task>, x: Task, more: bool,
                           cur: nat, list: nat, pos: Option<nat>, pos': Option<nat>)
  {
    && c < |lists| && k < 3
    && PosOk(lists, cur, list, pos) && PosOk(Edit(lists, c, k, q), cur, list, pos')
    && var on := pos.Some? && cur == c && list == k;
    && OneEdit(kind, k, lists[c].Nth(k), q, x, more, if on then pos else None, if on then pos' else None)
    && (on || pos' == pos)
  }

  /** Changing a list by x, and the position on it accordingly, changes the future by x at most. */
  lemma EditFuture(kind: Kind, lists: seq<Lists>, c: nat, k: nat, q: seq<Task>, x: Task, more: bool,
                   cur: nat, list: nat, pos: Option<nat>, pos': Option<nat>, rest: seq<nat>)
    requires AllBelow(rest, |lists|) && ListEdit(kind, lists, c, k, q, x, more, cur, list, pos, pos')
    ensures SameBut(FutureAt(kind, lists, cur, list, pos, rest), FutureAt(kind, Edit(lists, c, k, q), cur, list, pos', rest), x)
  {
    hide FromList, TasksOf, Filter;
    var lists' := Edit(lists, c, k, q);
    EditTasksOf(kind, lists, c, k, q, x, rest);
    if pos.Some? {
      EditFromList(kind, lists[c], k, q, x, list + 1);
      var a, a' := Filter(kind, list, lists[cur].Nth(list)[pos.value..]), Filter(kind, list, lists'[cur].Nth(list)[pos'.value..]);
      SameAppend(a, a', FromList(kind, lists[cur], list + 1), FromList(kind, lists'[cur], list + 1), x);
      SameAppend(a + FromList(kind, lists[cur], list + 1), a' + FromList(kind, lists'[cur], list + 1),
                 TasksOf(kind, lists, rest), TasksOf(kind, lists', rest), x);
    } else {
      SameAppend([], [], TasksOf(kind, lists, rest), TasksOf(kind, lists', rest), x);
    }
  }

  /** The css_set of the position, if any, and those still to come. */
  ghost function Coming(cur: nat, pos: Option<nat>, rest: seq<nat>): seq<nat> {
    (if pos.Some? then [cur] else []) + rest
  }

  /** It grows by what the list grows, as often as the css_set of the list is still to come. */
  lemma FutureGrows(kind: Kind, lists: seq<Lists>, c: nat, k: nat, q: seq<Task>, x: Task, more: bool,
                    cur: nat, list: nat, pos: Option<nat>, pos': Option<nat>, rest: seq<nat>)
    requires AllBelow(rest, |lists|) && ListEdit(kind, lists, c, k, q, x, more, cur, list, pos, pos')
    ensures |FutureAt(kind, Edit(lists, c, k, q), cur, list, pos', rest)| <=
            |FutureAt(kind, lists, cur, list, pos, rest)| + if more then multiset(Coming(cur, pos, rest))[c] else 0
    ensures Coming(cur, pos', rest) == Coming(cur, pos, rest)
  {
    hide FromList, TasksOf, Filter, SameBut;
    TasksOfGrows(kind, lists, c, k, q, more, rest);
    FromListGrows(kind, lists[c], k, q, more, list + 1);
    if pos.Some? { assert multiset(Coming(cur, pos, rest))[c] == multiset([cur])[c] + multiset(rest)[c]; }
  }

  /** No css_set occurs more often in a than in b. */
  ghost predicate Within(a: seq<nat>, b: seq<nat>) {
    forall c: nat {:trigger multiset(a)[c]} :: multiset(a)[c] <= multiset(b)[c]
  }

  lemma WithinTrans(a: seq<nat>, b: seq<nat>, c: seq<nat>)
    requires Within(a, b) && Within(b, c)
    ensures Within(a, c)
  {
    forall x: nat ensures multiset(a)[x] <= multiset(c)[x] { assert multiset(a)[x] <= multiset(b)[x] <= multiset(c)[x]; }
  }

  lemma WithinHas(a: seq<nat>, b: seq<nat>, c: nat)
    requires Within(a, b) && c in a
    ensures c in b
  {
    assert multiset(a)[c] <= multiset(b)[c];
  }

  lemma WithinTail(x: nat, q: seq<nat>)
    ensures Within(q, [x] + q) && Within(q, q) && Within([], q)
  {
    forall c: nat ensures multiset(q)[c] <= multiset([x] + q)[c] {
      assert multiset([x] + q) == multiset([x]) + multiset(q);
    }
  }

  /** What happens to what is ahead: a task is returned, or one comes or goes, adding at most so much. */
  datatype Event = Returned(x: Task) | Changed(x: Task, more: nat)

  ghost predicate EventStep(f: seq<Task>, e: Event, f': seq<Task>) {
    match e
    case Returned(x) => f == [x] + f'
    case Changed(x, more) => SameBut(f, f', x) && |f'| <= |f| + more
  }

  lemma IsChange(f: seq<Task>, f': seq<Task>, x: Task, more: nat)
    requires SameBut(f, f', x) && |f'| <= |f| + more
    ensures EventStep(f, Changed(x, more), f')
  {}

  lemma TakenOut(q: seq<Task>, j: nat)
    requires j < |q|
    ensures multiset(q[..j] + q[j + 1..]) + multiset{q[j]} == multiset(q)
  {
    assert q == q[..j] + [q[j]] + q[j + 1..];
  }

  /** What can happen next: a call of css_task_iter_next, or a task leaves or joins list k of css_set c. */
  datatype Op = Call | Leaves(x: Task, c: nat, k: nat) | Joins(x: Task, c: nat, k: nat)

  class CssTaskIter {
    const kind: Kind
    var lists: seq<Lists>
    var csets: seq<nat>             // the css_sets of the cgroup
    var threadedOf: seq<seq<nat>>   // threaded_csets of each css_set
    // the iterator
    var csetPos: Option<nat>        // how many of csets have been entered; None at the end
    var tcsetPos: Option<(nat, nat)>  // a css_set and how many of its threaded_csets have been entered
    var curCset: nat
    var curList: nat
    var pos: Option<nat>            // the next entry on list curList of css_set curCset
    var skipped: bool

    ghost function Rest(): seq<nat>
      reads `csets, `threadedOf, `csetPos, `tcsetPos
    {
      RestThreaded(threadedOf, tcsetPos) + RestPlain(kind.threaded, threadedOf, csets, csetPos)
    }

    /** The css_set of the position and those still to come. */
    ghost function Csets(): seq<nat>
      reads `csets, `threadedOf, `csetPos, `tcsetPos, `curCset, `pos
    {
      Coming(curCset, pos, Rest())
    }

    ghost predicate Shape()
      reads `lists, `csets, `threadedOf, `csetPos, `tcsetPos
    {
      && |threadedOf| == |lists| && AllBelow(csets, |lists|)
      && (forall d {:trigger threadedOf[d]} | 0 <= d < |threadedOf| :: AllBelow(threadedOf[d], |lists|))
      && (csetPos.Some? ==> csetPos.value <= |csets|)
      && (tcsetPos.Some? ==> tcsetPos.value.0 < |threadedOf| && tcsetPos.value.1 <= |threadedOf[tcsetPos.value.0]|)
    }

    lemma RestKnown()
      requires Shape()
      ensures AllBelow(Rest(), |lists|)
    {
      if csetPos.Some? {
        BelowAt(csets, |lists|, csetPos.value);
        FlatBelow(kind.threaded, threadedOf, csets[csetPos.value..], |lists|);
      }
      if tcsetPos.Some? {
        BelowAt(threadedOf[tcsetPos.value.0], |lists|, tcsetPos.value.1);
      }
      BelowAppend(RestThreaded(threadedOf, tcsetPos), RestPlain(kind.threaded, threadedOf, csets, csetPos), |lists|);
    }

    ghost predicate At()
      reads `lists, `curCset, `curList, `pos
    {
      PosOk(lists, curCset, curList, pos)
    }

    /** The position is a list head. */
    predicate AtHead()
      requires At()
      reads `lists, `curCset, `curList, `pos
    {
      pos.Some? && pos.value == |lists[curCset].Nth(curList)|
    }

    /** What the iterator will return if nothing changes. */
    ghost function Future(): seq<Task>
      requires Shape() && At() && AllBelow(Rest(), |lists|)
      reads this
    {
      FutureAt(kind, lists, curCset, curList, pos, Rest())
    }

    ghost function Raw(): int
      requires Shape() && At() && AllBelow(Rest(), |lists|)
      reads this
    {
      RawAt(lists, curCset, curList, pos, Rest())
    }

    /** Between two calls: the iterator has found what it returns next, or is half-advanced by a skip. */
    ghost predicate Valid()
      reads this
    {
      && Shape() && At() && AllBelow(Rest(), |lists|)
      && (if pos.None? then Rest() == [] && csetPos.None? else csetPos.Some?)
      && if skipped then pos.Some? else pos.Some? ==> !AtHead() && Eligible(kind, curList, lists[curCset].Nth(curList)[pos.value])
    }

    /** css_task_iter_next_css_set */
    method NextCset() returns (r: Option<nat>)
      requires Shape() && csetPos.Some?
      modifies `csetPos, `tcsetPos
      ensures Shape()
      ensures if r.None? then old(Rest()) == [] && Rest() == [] && csetPos.None? else csetPos.Some? && old(Rest()) == [r.value] + Rest()
    {
      // the next threaded css_set
      if tcsetPos.Some? {
        var (d, i) := tcsetPos.value;
        if i < |threadedOf[d]| {
          NextThreaded(threadedOf, d, i);
          Assoc([threadedOf[d][i]], RestThreaded(threadedOf, Some((d, i + 1))), RestPlain(kind.threaded, threadedOf, csets, csetPos));
          tcsetPos := Some((d, i + 1));
          return Some(threadedOf[d][i]);
        }
        assert RestThreaded(threadedOf, tcsetPos) == [];
        tcsetPos := None;
      }
      r := NextPlainCset();
    }

    /** The part of css_task_iter_next_css_set that finds the next css_set of the cgroup. */
    method NextPlainCset() returns (r: Option<nat>)
      requires Shape() && csetPos.Some? && tcsetPos.None?
      modifies `csetPos, `tcsetPos
      ensures Shape()
      ensures if r.None? then old(Rest()) == [] && Rest() == [] && csetPos.None? else csetPos.Some? && old(Rest()) == [r.value] + Rest()
    {
      var p := csetPos.value;
      if p == |csets| {
        csetPos := None;
        return None;
      }
      BelowAt(csets, |lists|, p);
      var cset := csets[p];
      NextPlain(kind.threaded, threadedOf, csets, p);
      csetPos := Some(p + 1);
      if kind.threaded {
        tcsetPos := Some((cset, 0));
      }
      return Some(cset);
    }

    /** The loop of css_task_iter_advance_css_set: the next css_set that has an entry. */
    method FindCset() returns (cset: Option<nat>)
      requires Shape() && AllBelow(Rest(), |lists|) && csetPos.Some?
      modifies `csetPos, `tcsetPos
      ensures Shape() && AllBelow(Rest(), |lists|) && Ahead(kind, lists, cset, Rest(), old(TasksOf(kind, lists, Rest())), old(RawCsets(lists, Rest())))
      ensures cset.Some? ==> csetPos.Some? && cset.value < |lists| && !lists[cset.value].IsEmpty()
      ensures cset.None? ==> Rest() == [] && csetPos.None?
      ensures Within(if cset.Some? then [cset.value] + Rest() else [], old(Rest()))
    {
      hide RawCsets, TasksOf, Rest, FromList, AllBelow, Within;
      ghost var tasks, raw, all := TasksOf(kind, lists, Rest()), RawCsets(lists, Rest()), Rest();
      RestKnown();
      WithinTail(0, Rest());
      cset := NextCset();
      RestKnown();
      if cset.Some? { HeadCset(kind, lists, cset.value, Rest()); }
      while cset.Some? && lists[cset.value].IsEmpty()
        invariant Shape() && AllBelow(Rest(), |lists|) && Ahead(kind, lists, cset, Rest(), tasks, raw)
        invariant if cset.Some? then csetPos.Some? else Rest() == [] && csetPos.None?
        invariant Within(if cset.Some? then [cset.value] + Rest() else [], all)
        decreases if cset.Some? then |Rest()| + 1 else 0
      {
        EmptyCset(kind, lists[cset.value]);
        WithinTail(cset.value, Rest());
        WithinTrans(Rest(), [cset.value] + Rest(), all);
        WithinTail(0, all);
        cset := NextCset();
        RestKnown();
        if cset.Some? { HeadCset(kind, lists, cset.value, Rest()); }
      }
    }

    /** css_task_iter_advance_css_set: on to the first entry of the next css_set that has one. */
    method AdvanceCset()
      requires Shape() && AllBelow(Rest(), |lists|) && csetPos.Some?
      modifies `csetPos, `tcsetPos, `curCset, `curList, `pos
      ensures Shape() && At() && AllBelow(Rest(), |lists|) && !AtHead()
      ensures if pos.None? then Rest() == [] && csetPos.None? else csetPos.Some?
      ensures Future() == old(TasksOf(kind, lists, Rest())) && Raw() == old(RawCsets(lists, Rest()))
      ensures Within(Csets(), old(Rest()))
    {
      hide RawCsets, TasksOf, Rest, FutureAt, RawAt, FromList, AllBelow, Within;
      var cset := FindCset();
      if cset.None? {
        pos := None;
        NoPosition(kind, lists, curCset, curList, Rest());
        assert Csets() == [];
        return;
      }
      curCset := cset.value;
      curList := if lists[curCset].tasks != [] then 0 else if lists[curCset].mgTasks != [] then 1 else 2;
      pos := Some(0);
      EnterCset(kind, lists, curCset, curList, Rest());
    }

    /** At the end of a list the iterator goes to the next list, and from the last one to the next css_set. */
    method Normalize()
      requires Shape() && At() && AllBelow(Rest(), |lists|) && csetPos.Some? && pos.Some?
      modifies `csetPos, `tcsetPos, `curCset, `curList, `pos
      ensures Shape() && At() && AllBelow(Rest(), |lists|) && !AtHead()
      ensures if pos.None? then Rest() == [] && csetPos.None? else csetPos.Some?
      ensures Future() == old(Future()) && Raw() == old(Raw()) && Within(Csets(), old(Csets()))
    {
      hide FutureAt, RawAt, TasksOf, RawCsets, Rest, Within;
      ghost var all := Csets();
      WithinTail(0, all);
      WithinTail(curCset, Rest());
      ToNextList();
      if AtHead() {
        LastList(kind, lists, curCset, Rest());
        ghost var rest := Rest();
        AdvanceCset();
        WithinTrans(Csets(), rest, all);
      }
    }

    /** At the end of a list but the last the iterator goes to the next list. */
    method ToNextList()
      requires Shape() && At() && AllBelow(Rest(), |lists|) && pos.Some?
      modifies `curList, `pos
      ensures At() && pos.Some? && (AtHead() ==> curList == 2)
      ensures Future() == old(Future()) && Raw() == old(Raw())
    {
      hide FutureAt, RawAt, TasksOf, RawCsets, Rest, AllBelow;
      if AtHead() && curList == 0 {
        NextList(kind, lists, curCset, 0, Rest());
        pos, curList := Some(0), 1;
      }
      if AtHead() && curList == 1 {
        NextList(kind, lists, curCset, 1, Rest());
        pos, curList := Some(0), 2;
      }
    }

    /** What is left to return once the entry at the position is behind; a skip has already left it behind. */
    ghost function Later(): seq<Task>
      requires Shape() && At() && AllBelow(Rest(), |lists|)
      reads this
    {
      if pos.Some? && !skipped && !AtHead() then FutureAt(kind, lists, curCset, curList, Some(pos.value + 1), Rest()) else Future()
    }

    /** One round of css_task_iter_advance: one entry on, to the next list or css_set if need be. */
    method Round()
      requires Shape() && At() && AllBelow(Rest(), |lists|) && csetPos.Some? && (AtHead() ==> skipped)
      modifies `csetPos, `tcsetPos, `curCset, `curList, `pos, `skipped
      ensures Shape() && At() && AllBelow(Rest(), |lists|) && !AtHead() && !skipped
      ensures if pos.None? then Rest() == [] && csetPos.None? else csetPos.Some?
      ensures Future() == old(Later())
      ensures Raw() == old(Raw()) - if old(pos.Some? && !skipped) then 1 else 0
      ensures Within(Csets(), old(Csets()))
    {
      hide RawCsets, TasksOf, Rest, FutureAt, RawAt, FromList, AllBelow, Within;
      if pos.None? {
        // called from start, proceed to the first css_set
        assert Csets() == Rest();
        NoPosition(kind, lists, curCset, curList, Rest());
        skipped := false;
        AdvanceCset();
        return;
      }
      if skipped {
        skipped := false;
      } else {
        Here(kind, lists, curCset, curList, pos.value, Rest());
        pos := Some(pos.value + 1);
      }
      Normalize();
    }

    /** css_task_iter_advance: on to the next eligible entry. */
    method Advance()
      requires Shape() && At() && AllBelow(Rest(), |lists|) && csetPos.Some? && (AtHead() ==> skipped)
      modifies `csetPos, `tcsetPos, `curCset, `curList, `pos, `skipped
      ensures Valid() && !skipped && Future() == old(Later())
      ensures Raw() <= old(Raw()) - if old(pos.Some? && !skipped) then 1 else 0
      ensures Within(Csets(), old(Csets()))
    {
      hide RawCsets, TasksOf, Rest, FutureAt, RawAt, FromList, AllBelow, Within, Csets;
      ghost var goal, raw, all := Later(), Raw(), Csets();
      Round();
      while pos.Some? && !Eligible(kind, curList, lists[curCset].Nth(curList)[pos.value])
        invariant Shape() && At() && AllBelow(Rest(), |lists|) && !AtHead() && !skipped
        invariant if pos.None? then Rest() == [] && csetPos.None? else csetPos.Some?
        invariant Future() == goal
        invariant Raw() <= raw - (if old(pos.Some? && !skipped) then 1 else 0) && Within(Csets(), all)
        decreases Raw()
      {
        Here(kind, lists, curCset, curList, pos.value, Rest());
        RawPositive(kind, lists, curCset, curList, pos, Rest());
        ghost var before := Csets();
        Round();
        WithinTrans(Csets(), before, all);
      }
    }

    /** css_task_iter_start, for the css_sets of one cgroup. */
    constructor (kind: Kind, lists: seq<Lists>, csets: seq<nat>, threadedOf: seq<seq<nat>>)
      requires |threadedOf| == |lists| && AllBelow(csets, |lists|)
      requires forall d {:trigger threadedOf[d]} | 0 <= d < |threadedOf| :: AllBelow(threadedOf[d], |lists|)
      ensures Valid() && !skipped && this.kind == kind && this.lists == lists && this.csets == csets && this.threadedOf == threadedOf
      ensures AllBelow(Flat(kind.threaded, threadedOf, csets), |lists|)
      ensures Future() == TasksOf(kind, lists, Flat(kind.threaded, threadedOf, csets))
      ensures Within(Csets(), Flat(kind.threaded, threadedOf, csets))
    {
      this.kind, this.lists, this.csets, this.threadedOf := kind, lists, csets, threadedOf;
      csetPos, tcsetPos, curCset, curList, pos, skipped := Some(0), None, 0, 0, None, false;
      new;
      Begin();
    }

    /** The first call of css_task_iter_advance. */
    method Begin()
      requires Shape() && csetPos == Some(0) && tcsetPos == None && pos == None && !skipped
      modifies `csetPos, `tcsetPos, `curCset, `curList, `pos, `skipped
      ensures Valid() && !skipped && AllBelow(Flat(kind.threaded, threadedOf, csets), |lists|)
      ensures Future() == TasksOf(kind, lists, Flat(kind.threaded, threadedOf, csets))
      ensures Within(Csets(), Flat(kind.threaded, threadedOf, csets))
    {
      hide RawCsets, TasksOf, FutureAt, RawAt, FromList, AllBelow, Within;
      RestKnown();
      RestAtStart();
      assert Csets() == Rest();
      NoPosition(kind, lists, curCset, curList, Rest());
      hide CssTaskIter.Csets, CssTaskIter.Rest, Flat;
      Advance();
    }

    lemma RestAtStart()
      requires Shape() && csetPos == Some(0) && tcsetPos == None
      ensures Rest() == Flat(kind.threaded, threadedOf, csets) && AllBelow(Rest(), |lists|)
    {
      assert csets[0..] == csets;
      FlatBelow(kind.threaded, threadedOf, csets, |lists|);
    }

    /** css_task_iter_next: the first task of what is ahead, until there is none. */
    method Next() returns (r: Option<Task>)
      requires Valid()
      modifies `csetPos, `tcsetPos, `curCset, `curList, `pos, `skipped
      ensures Valid() && !skipped
      ensures if old(Future()) == [] then r == None && Future() == []
              else r == Some(old(Future())[0]) && Future() == old(Future())[1..]
      ensures r.Some? ==> exists c :: c in old(Csets()) && c < |lists| && MayReturn(kind, lists[c], r.value)
      ensures r.Some? ==> 0 <= Raw() < old(Raw())
      ensures Within(Csets(), old(Csets()))
    {
      hide RawCsets, TasksOf, Rest, FutureAt, RawAt, FromList, AllBelow, Within, Csets, MayReturn;
      ghost var all := Csets();
      WithinTail(0, all);
      if skipped {
        // half-advanced by a skip
        Advance();
      }
      if pos.None? {
        NothingAhead();
        return None;
      }
      ghost var before := Csets();
      ghost var c;
      var x;
      x, c := TakeEntry();
      WithinTrans(Csets(), before, all);
      WithinHas(before, all, c);
      return Some(x);
    }

    /** The entry at the position is returned and the iterator moves on. */
    method TakeEntry() returns (x: Task, ghost c: nat)
      requires Valid() && !skipped && pos.Some?
      modifies `csetPos, `tcsetPos, `curCset, `curList, `pos, `skipped
      ensures Valid() && !skipped && old(Future()) == [x] + Future() && 0 <= Raw() < old(Raw()) && Within(Csets(), old(Csets()))
      ensures c in old(Csets()) && c < |lists| && MayReturn(kind, lists[c], x)
    {
      hide RawCsets, TasksOf, Rest, FutureAt, RawAt, FromList, AllBelow, Within, Csets, MayReturn;
      EntryMayReturn();
      x, c := lists[curCset].Nth(curList)[pos.value], curCset;
      Here(kind, lists, curCset, curList, pos.value, Rest());
      Advance();
      RawPositive(kind, lists, curCset, curList, pos, Rest());
    }

    lemma EntryMayReturn()
      requires Valid() && !skipped && pos.Some?
      ensures curCset in Csets() && MayReturn(kind, lists[curCset], lists[curCset].Nth(curList)[pos.value])
    {
      hide RawCsets, TasksOf, Rest, FutureAt, RawAt, FromList, AllBelow;
      assert Csets()[0] == curCset;
    }

    lemma NothingAhead()
      requires Valid() && pos.None?
      ensures Future() == []
    {
      NoPosition(kind, lists, curCset, curList, Rest());
    }

    /**
     css_set_skip_task_iters and list_del_init in css_set_move_task: entry j of list k of
     css_set c leaves. An iterator that points to it moves on and is marked as skipped.
    */
    method Leave(c: nat, k: nat, j: nat)
      requires Valid() && c < |lists| && k < 3 && j < |lists[c].Nth(k)|
      modifies `lists, `pos, `skipped
      ensures Valid()
      ensures var q := old(lists[c].Nth(k)); lists == Edit(old(lists), c, k, q[..j] + q[j + 1..])
      ensures SameBut(old(Future()), Future(), old(lists[c].Nth(k)[j])) && |Future()| <= |old(Future())| && Csets() == old(Csets())
    {
      hide RawCsets, TasksOf, RestThreaded, RestPlain, FutureAt, RawAt, FromList, AllBelow, Filter, SameBut, OneEdit, Edit, Lists.Nth, Coming;
      ghost var was, pos0, rest := lists, pos, Rest();
      var q := lists[c].Nth(k);
      LeaveEdit(q, j, k, if pos.Some? && curCset == c && curList == k then pos else None);
      if pos.Some? && curCset == c && curList == k {
        if pos.value == j {
          skipped := true;
        } else if pos.value > j {
          pos := Some(pos.value - 1);
        }
      }
      var q' := q[..j] + q[j + 1..];
      EditNth(lists, c, k, q', if pos.Some? then curCset else c, if pos.Some? then curList else k);
      lists := Edit(lists, c, k, q');
      EditFuture(kind, was, c, k, q', q[j], false, curCset, curList, pos0, pos, rest);
      FutureGrows(kind, was, c, k, q', q[j], false, curCset, curList, pos0, pos, rest);
    }

    /** Between two calls a task leaves or joins a list, which is all that changes; e says what it means for the iteration. */
    method Change(op: Op) returns (ghost e: Option<Event>)
      requires Valid() && !op.Call?
      modifies `lists, `pos, `skipped
      ensures Valid() && Csets() == old(Csets()) && |lists| == |old(lists)|
      ensures e.Some? <==> op.c < |lists| && op.k < 3 && (op.Leaves? ==> op.x in old(lists)[op.c].Nth(op.k))
      ensures e.None? ==> lists == old(lists) && Future() == old(Future())
      ensures e.Some? ==>
        && lists == Edit(old(lists), op.c, op.k, lists[op.c].Nth(op.k))
        && (if op.Leaves? then multiset(lists[op.c].Nth(op.k)) + multiset{op.x} == old(multiset(lists[op.c].Nth(op.k)))
            else lists[op.c].Nth(op.k) == old(lists[op.c].Nth(op.k)) + [op.x])
      ensures e.Some? ==>
        && e.value.Changed? && e.value.x == op.x && EventStep(old(Future()), e.value, Future())
        && e.value.more == if op.Joins? then multiset(Csets())[op.c] else 0
    {
      hide RawCsets, TasksOf, RestThreaded, RestPlain, FutureAt, RawAt, FromList, AllBelow, Filter, SameBut, Coming, EventStep, Edit, Lists.Nth;
      if op.c >= |lists| || op.k >= 3 || (op.Leaves? && op.x !in lists[op.c].Nth(op.k)) {
        return None;
      }
      ghost var f, was := Future(), lists;
      var q := lists[op.c].Nth(op.k);
      if op.Leaves? {
        var j :| 0 <= j < |q| && q[j] == op.x;
        Leave(op.c, op.k, j);
        e := Some(Changed(op.x, 0));
        TakenOut(q, j);
        EditNth(was, op.c, op.k, q[..j] + q[j + 1..], op.c, op.k);
      } else {
        Join(op.c, op.k, op.x);
        e := Some(Changed(op.x, multiset(Csets())[op.c]));
        EditNth(was, op.c, op.k, q + [op.x], op.c, op.k);
      }
      IsChange(f, Future(), e.value.x, e.value.more);
    }

    /** Removing entry j: what the list yields as a whole and from the adjusted position on. */
    lemma LeaveEdit(q: seq<Task>, j: nat, k: nat, p: Option<nat>)
      requires j < |q| && (p.Some? ==> p.value <= |q|)
      ensures var p' := if p.Some? && p.value > j then Some(p.value - 1) else p;
        OneEdit(kind, k, q, q[..j] + q[j + 1..], q[j], false, p, p')
      ensures p.Some? && p.value < |q| && p.value != j ==>
        var i := if p.value > j then p.value - 1 else p.value;
        i < |q| - 1 && (q[..j] + q[j + 1..])[i] == q[p.value]
    {
      hide Filter;
      var q' := q[..j] + q[j + 1..];
      assert q == q[..j] + [q[j]] + q[j + 1..];
      MiddleEntry(kind, k, q[..j], q[j], q[j + 1..]);
      if p.Some? {
        var i := p.value;
        if i > j {
          assert q'[i - 1..] == q[i..];
        } else {
          assert q[i..] == q[i..j] + [q[j]] + q[j + 1..] && q'[i..] == q[i..j] + q[j + 1..];
          MiddleEntry(kind, k, q[i..j], q[j], q[j + 1..]);
        }
      }
    }

    /** list_add_tail in css_set_move_task, cgroup_exit and cgroup_post_fork: x joins list k of css_set c. */
    method Join(c: nat, k: nat, x: Task)
      requires Valid() && c < |lists| && k < 3
      modifies `lists, `pos
      ensures Valid() && lists == Edit(old(lists), c, k, old(lists[c].Nth(k)) + [x])
      ensures SameBut(old(Future()), Future(), x) && Csets() == old(Csets())
      ensures |Future()| <= |old(Future())| + multiset(Csets())[c]
    {
      hide RawCsets, TasksOf, RestThreaded, RestPlain, FutureAt, RawAt, FromList, AllBelow, Filter, SameBut, OneEdit, Coming;
      ghost var was, pos0, rest := lists, pos, Rest();
      var q := lists[c].Nth(k);
      JoinEdit(q, k, x, if pos.Some? && curCset == c && curList == k then pos else None);
      if pos.Some? && curCset == c && curList == k && pos.value == |q| {
        // the head stays the head
        pos := Some(|q| + 1);
      }
      lists := Edit(lists, c, k, q + [x]);
      EditFuture(kind, was, c, k, q + [x], x, true, curCset, curList, pos0, pos, rest);
      FutureGrows(kind, was, c, k, q + [x], x, true, curCset, curList, pos0, pos, rest);
    }

    lemma JoinEdit(q: seq<Task>, k: nat, x: Task, p: Option<nat>)
      requires p.Some? ==> p.value <= |q|
      ensures var p' := if p == Some(|q|) then Some(|q| + 1) else p;
        OneEdit(kind, k, q, q + [x], x, true, p, p')
    {
      assert q + [x] + [] == q + [x] && q + [] == q;
      MiddleEntry(kind, k, q, x, []);
      if p.Some? {
        var i := p.value;
        if i == |q| {
          assert q[i..] == [] && (q + [x])[i + 1..] == [];
        } else {
          var r := q[i..];
          assert (q + [x])[i..] == r + [x] + [] && r + [] == r;
          MiddleEntry(kind, k, r, x, []);
        }
      }
    }
  }

  // ---------------------------------------------------------------------------
  // A whole iteration
  // ---------------------------------------------------------------------------

  /** ahead[i] is what is ahead before event i. */
  ghost predicate Iteration(ahead: seq<seq<Task>>, events: seq<Event>) {
    |ahead| == |events| + 1 && forall i {:trigger events[i]} | 0 <= i < |events| :: EventStep(ahead[i], events[i], ahead[i + 1])
  }

  /** The tasks that were returned, in order. */
  ghost function Output(events: seq<Event>): seq<Task> {
    if events == [] then [] else (if events[0].Returned? then [events[0].x] else []) + Output(events[1..])
  }

  ghost function TimesReturned(events: seq<Event>, y: Task): nat {
    multiset(Output(events))[y]
  }

  /**
   A task that neither comes nor goes is returned as often as it was ahead at the start,
   once the iteration has run out of tasks.
  */
  lemma {:induction false} StayingIsReturned(ahead: seq<seq<Task>>, events: seq<Event>, y: Task)
    requires Iteration(ahead, events) && forall i {:trigger events[i]} | 0 <= i < |events| :: !(events[i].Changed? && events[i].x == y)
    ensures TimesReturned(events, y) + multiset(ahead[|events|])[y] == multiset(ahead[0])[y]
    decreases |events|
  {
    if events != [] {
      var e := events[0];
      assert EventStep(ahead[0], e, ahead[1]);
      if e.Changed? {
        EraseCount(ahead[0], e.x, y);
        EraseCount(ahead[1], e.x, y);
      }
      var a, es := ahead[1..], events[1..];
      forall i | 0 <= i < |es| ensures EventStep(a[i], es[i], a[i + 1]) && !(es[i].Changed? && es[i].x == y) {
        assert es[i] == events[i + 1];
      }
      StayingIsReturned(a, es, y);
    }
  }

  ghost function Added(events: seq<Event>): nat {
    if events == [] then 0 else (if events[0].Changed? then events[0].more else 0) + Added(events[1..])
  }

  /** The iteration ends: it returns no more tasks than were ahead at the start or have joined. */
  lemma {:induction false} IterationEnds(ahead: seq<seq<Task>>, events: seq<Event>)
    requires Iteration(ahead, events)
    ensures |Output(events)| + |ahead[|events|]| <= |ahead[0]| + Added(events)
    decreases |events|
  {
    if events != [] {
      assert EventStep(ahead[0], events[0], ahead[1]);
      var a, es := ahead[1..], events[1..];
      forall i | 0 <= i < |es| ensures EventStep(a[i], es[i], a[i + 1]) {
        assert es[i] == events[i + 1];
      }
      IterationEnds(a, es);
    }
  }

  /**
   A task that stays on its only list for the whole iteration is returned exactly once if it
   is there to be returned, and never otherwise.
  */
  lemma StayingIsReturnedOnce(kind: Kind, lists: seq<Lists>, csets: seq<nat>, ahead: seq<seq<Task>>, events: seq<Event>,
                              y: Task, i: nat, k: nat)
    requires AllBelow(csets, |lists|) && i < |csets| && k < 3
    requires Iteration(ahead, events) && ahead[0] == TasksOf(kind, lists, csets) && ahead[|events|] == []
    requires forall j {:trigger events[j]} | 0 <= j < |events| :: !(events[j].Changed? && events[j].x == y)
    requires OnlyAt(lists, csets, y, i, k)
    ensures TimesReturned(events, y) == if Wanted(kind, k, y) then 1 else 0
  {
    StayingIsReturned(ahead, events, y);
    CountOnce(kind, lists, csets, y, i, k);
  }

  /** With PROCS the leaders, the dying ones if a thread of theirs is live; else what is not on the dying list, which is the third. */
  ghost predicate Wanted(kind: Kind, k: nat, y: Task) {
    (kind.procs ==> y in kind.leaders && (k < 2 || y in kind.alive)) && (!kind.procs ==> k < 2)
  }

  /** y is once on the list, if here, or not on it. */
  ghost predicate IsThere(q: seq<Task>, y: Task, here: bool) {
    multiset(q)[y] == if here then 1 else 0
  }

  ghost predicate OnlyIn(ls: Lists, y: Task, here: bool, k: nat) {
    IsThere(ls.tasks, y, here && k == 0) && IsThere(ls.mgTasks, y, here && k == 1) && IsThere(ls.dyingTasks, y, here && k == 2)
  }

  /** y is once on list k of csets[i] and on no other list of csets. */
  ghost predicate OnlyAt(lists: seq<Lists>, csets: seq<nat>, y: Task, i: int, k: nat) {
    forall j {:trigger csets[j]} | 0 <= j < |csets| :: csets[j] < |lists| && OnlyIn(lists[csets[j]], y, j == i, k)
  }

  lemma {:induction false} CountInCset(kind: Kind, ls: Lists, y: Task, k: nat, j: nat, here: bool)
    requires k < 3 && OnlyIn(ls, y, here, k)
    ensures multiset(FromList(kind, ls, j))[y] == if here && j <= k && Wanted(kind, k, y) then 1 else 0
    decreases 3 - j
  {
    if j < 3 {
      CountInCset(kind, ls, y, k, j + 1, here);
      FilterCount(kind, j, ls.Nth(j), y);
    }
  }

  lemma {:induction false} CountOnce(kind: Kind, lists: seq<Lists>, csets: seq<nat>, y: Task, i: int, k: nat)
    requires AllBelow(csets, |lists|) && i < |csets| && k < 3 && OnlyAt(lists, csets, y, i, k)
    ensures multiset(TasksOf(kind, lists, csets))[y] == if i >= 0 && Wanted(kind, k, y) then 1 else 0
    decreases |csets|
  {
    if csets != [] {
      CountInCset(kind, lists[csets[0]], y, k, 0, i == 0);
      CountOnce(kind, lists, csets[1..], y, i - 1, k);
    }
  }

  // ---------------------------------------------------------------------------
  // Runs of the iterator
  // ---------------------------------------------------------------------------

  lemma {:induction false} OutputAppend(events: seq<Event>, e: Event)
    ensures Output(events + [e]) == Output(events) + if e.Returned? then [e.x] else []
    ensures Added(events + [e]) == Added(events) + if e.Changed? then e.more else 0
  {
    var all := events + [e];
    if events == [] {
      assert all[1..] == [];
    } else {
      OutputAppend(events[1..], e);
      assert all[0] == events[0] && all[1..] == events[1..] + [e];
    }
  }

  /** One more event. */
  lemma IterationGrows(ahead: seq<seq<Task>>, events: seq<Event>, e: Event, f: seq<Task>)
    requires Iteration(ahead, events) && EventStep(ahead[|events|], e, f)
    ensures Iteration(ahead + [f], events + [e])
  {
    var a, es := ahead + [f], events + [e];
    forall i | 0 <= i < |es| ensures EventStep(a[i], es[i], a[i + 1]) {
      if i < |events| { assert events[i] == es[i] && EventStep(ahead[i], events[i], ahead[i + 1]); }
    }
  }

  /** The tasks that leave or join in a script. */
  ghost function Moving(script: seq<Op>): set<Task> {
    set op | op in script && !op.Call? :: op.x
  }

  ghost function JoinCount(script: seq<Op>): nat {
    if script == [] then 0 else (if script[0].Joins? then 1 else 0) + JoinCount(script[1..])
  }

  lemma {:induction false} JoinCountAppend(script: seq<Op>, op: Op)
    ensures JoinCount(script + [op]) == JoinCount(script) + if op.Joins? then 1 else 0
  {
    if script == [] {
      assert (script + [op])[1..] == [];
    } else {
      JoinCountAppend(script[1..], op);
      assert (script + [op])[1..] == script[1..] + [op];
    }
  }

  /** The css_sets are all different. */
  ghost predicate Once(csets: seq<nat>) {
    forall c: nat {:trigger multiset(csets)[c]} :: multiset(csets)[c] <= 1
  }

  /** A run so far: its events, what they returned, and only movers of done have changed anything. */
  ghost predicate RunOk(ahead: seq<seq<Task>>, events: seq<Event>, returned: seq<Task>, done: seq<Op>, once: bool) {
    && Iteration(ahead, events) && Output(events) == returned
    && (forall i {:trigger events[i]} | 0 <= i < |events| && events[i].Changed? :: events[i].x in Moving(done))
    && (once ==> Added(events) <= JoinCount(done))
  }

  lemma RunChanges(ahead: seq<seq<Task>>, events: seq<Event>, returned: seq<Task>, done: seq<Op>, once: bool, op: Op, e: Option<Event>, f: seq<Task>)
    requires RunOk(ahead, events, returned, done, once)
    requires e.Some? ==> !op.Call? && e.value.Changed? && e.value.x == op.x && EventStep(ahead[|events|], e.value, f)
    requires e.Some? && once ==> e.value.more <= if op.Joins? then 1 else 0
    ensures if e.Some? then RunOk(ahead + [f], events + [e.value], returned, done + [op], once)
            else RunOk(ahead, events, returned, done + [op], once)
    ensures |ahead| == |events| + 1
  {
    JoinCountAppend(done, op);
    forall x | x in Moving(done) ensures x in Moving(done + [op]) {
      assert forall o | o in done :: o in done + [op];
    }
    if e.Some? {
      IterationGrows(ahead, events, e.value, f);
      OutputAppend(events, e.value);
      assert op in done + [op];
    }
  }

  lemma RunReturns(ahead: seq<seq<Task>>, events: seq<Event>, returned: seq<Task>, done: seq<Op>, once: bool, x: Task, f: seq<Task>)
    requires RunOk(ahead, events, returned, done, once) && ahead[|events|] == [x] + f
    ensures RunOk(ahead + [f], events + [Returned(x)], returned + [x], done, once) && |ahead| == |events| + 1
  {
    IterationGrows(ahead, events, Returned(x), f);
    OutputAppend(events, Returned(x));
  }

  /** What was done is the script up to i, and after its end only further calls. */
  ghost predicate FollowsTo(script: seq<Op>, i: nat, done: seq<Op>)
    requires i <= |script|
  {
    && i <= |done| && done[..i] == script[..i] && (i < |script| ==> |done| == i)
    && forall k {:trigger done[k]} | i <= k < |done| :: done[k].Call?
  }

  lemma FollowsOn(script: seq<Op>, i: nat, done: seq<Op>)
    requires i <= |script| && FollowsTo(script, i, done)
    ensures if i < |script| then FollowsTo(script, i + 1, done + [script[i]]) else FollowsTo(script, i, done + [Call])
  {
    var all := done + [if i < |script| then script[i] else Call];
    assert all[..i] == done[..i];
    if i < |script| { assert all[..i + 1] == done[..i] + [script[i]] == script[..i + 1]; }
  }

  /** Further calls move nothing. */
  lemma FollowsMoving(script: seq<Op>, i: nat, done: seq<Op>)
    requires i <= |script| && FollowsTo(script, i, done)
    ensures Moving(done) <= Moving(script) && JoinCount(done) <= JoinCount(script)
  {
    forall o | o in done && !o.Call? ensures o in script {
      var k :| 0 <= k < |done| && done[k] == o;
      assert k < i && done[..i][k] == o && script[..i][k] == o;
    }
    assert script == script[..i] + script[i..] && done == done[..i] + done[i..];
    JoinCountSplit(script[..i], script[i..]);
    JoinCountSplit(done[..i], done[i..]);
    NoJoins(done[i..]);
  }

  lemma {:induction false} NoJoins(q: seq<Op>)
    requires forall k | 0 <= k < |q| :: q[k].Call?
    ensures JoinCount(q) == 0
  {
    if q != [] { NoJoins(q[1..]); }
  }

  /** Only what was said to move has moved. */
  lemma RunEnds(ahead: seq<seq<Task>>, events: seq<Event>, returned: seq<Task>, script: seq<Op>, i: nat, done: seq<Op>, once: bool)
    requires i <= |script| && FollowsTo(script, i, done) && RunOk(ahead, events, returned, done, once) && ahead[|events|] == []
    ensures Iteration(ahead, events) && Output(events) == returned
    ensures forall j {:trigger events[j]} | 0 <= j < |events| && events[j].Changed? :: events[j].x in Moving(script)
    ensures forall y | y !in Moving(script) :: multiset(returned)[y] == multiset(ahead[0])[y]
    ensures once ==> |returned| <= |ahead[0]| + JoinCount(script)
  {
    FollowsMoving(script, i, done);
    IterationEnds(ahead, events);
    forall y | y !in Moving(script) ensures multiset(returned)[y] == multiset(ahead[0])[y] {
      StayingIsReturned(ahead, events, y);
    }
  }

  lemma {:induction false} JoinCountSplit(a: seq<Op>, b: seq<Op>)
    ensures JoinCount(a + b) == JoinCount(a) + JoinCount(b)
  {
    if a != [] {
      JoinCountSplit(a[1..], b);
      assert (a + b)[1..] == a[1..] + b;
    } else {
      assert a + b == b;
    }
  }

  lemma RunBegins(f: seq<Task>, once: bool)
    ensures RunOk([f], [], [], [], once)
  {}

  /** With PROCS only thread group leaders are returned. */
  ghost predicate AllLeaders(kind: Kind, returned: seq<Task>) {
    kind.procs ==> forall x {:trigger x in returned} | x in returned :: x in kind.leaders
  }

  /** An iterator and the run that brought it here. */
  ghost predicate Running(it: CssTaskIter, flat: seq<nat>, ahead: seq<seq<Task>>, events: seq<Event>, returned: seq<Task>, done: seq<Op>)
    reads it
  {
    it.Valid() && Within(it.Csets(), flat) && RunOk(ahead, events, returned, done, Once(flat)) && ahead[|events|] == it.Future()
  }

  /** One step of a run; over says that css_task_iter_next had no more task. */
  method RunStep(it: CssTaskIter, op: Op, returned: seq<Task>, ghost flat: seq<nat>, ghost ahead: seq<seq<Task>>, ghost events: seq<Event>, ghost done: seq<Op>)
    returns (over: bool, returned': seq<Task>, ghost ahead': seq<seq<Task>>, ghost events': seq<Event>)
    requires Running(it, flat, ahead, events, returned, done)
    modifies it
    ensures Running(it, flat, ahead', events', returned', done + [op])
    ensures ahead <= ahead' && (over ==> op.Call? && it.Future() == [])
    ensures if op.Call? && !over then exists x :: returned' == returned + [x] && old(it.Future()) == [x] + it.Future() else returned' == returned
    ensures AllLeaders(it.kind, returned) ==> AllLeaders(it.kind, returned')
  {
    hide Within, Once, RunOk, Output, Added, EventStep, AllBelow, Eligible;
    hide CssTaskIter.Shape, CssTaskIter.At, CssTaskIter.AtHead, CssTaskIter.Future, CssTaskIter.Csets, CssTaskIter.Rest;
    over, returned', ahead', events' := false, returned, ahead, events;
    ghost var all := it.Csets();
    if op.Call? {
      var r := it.Next();
      WithinTrans(it.Csets(), all, flat);
      if r.None? {
        over := true;
      } else {
        RunReturns(ahead, events, returned, done, Once(flat), r.value, it.Future());
        ahead', events', returned' := ahead + [it.Future()], events + [Returned(r.value)], returned + [r.value];
      }
      RunChanges(ahead', events', returned', done, Once(flat), op, None, []);
    } else {
      ghost var e := it.Change(op);
      OncePerCset(all, flat, op.c);
      RunChanges(ahead, events, returned, done, Once(flat), op, e, it.Future());
      if e.Some? { ahead', events' := ahead + [it.Future()], events + [e.value]; }
    }
  }

  /** The script is run until css_task_iter_next has no more task, with further calls if it ends before that. */
  method RunScript(it: CssTaskIter, script: seq<Op>, ghost flat: seq<nat>)
    returns (returned: seq<Task>, ghost ahead: seq<seq<Task>>, ghost events: seq<Event>, ghost i: nat, ghost done: seq<Op>)
    requires it.Valid() && Within(it.Csets(), flat)
    modifies it
    ensures i <= |script| && FollowsTo(script, i, done)
    ensures Running(it, flat, ahead, events, returned, done) && it.Future() == []
    ensures ahead != [] && ahead[0] == old(it.Future()) && AllLeaders(it.kind, returned)
  {
    assert FollowsTo(script, 0, []);
    hide Within, RunOk, AllBelow, Eligible, FollowsTo;
    hide CssTaskIter.Shape, CssTaskIter.At, CssTaskIter.AtHead, CssTaskIter.Future, CssTaskIter.Csets, CssTaskIter.Rest;
    ahead, events, returned, done := [it.Future()], [], [], [];
    RunBegins(it.Future(), Once(flat));
    var k, over := 0, false;
    while !over
      invariant Running(it, flat, ahead, events, returned, done) && ahead != [] && ahead[0] == old(it.Future()) && AllLeaders(it.kind, returned)
      invariant k <= |script| && FollowsTo(script, k, done) && (over ==> it.Future() == [])
      decreases |script| - k, |it.Future()|, !over
    {
      var op := if k < |script| then script[k] else Call;
      FollowsOn(script, k, done);
      over, returned, ahead, events := RunStep(it, op, returned, flat, ahead, events, done);
      done := done + [op];
      k := if k < |script| then k + 1 else k;
    }
    i := k;
  }

  /**
   A whole iteration: css_task_iter_start, then what the script says until
   css_task_iter_next has no more task, and further calls if the script ends before that.
   A task that the script does not move is returned as often as it was ahead at the start:
   once if it is wanted and never otherwise. The iteration ends, having returned no more tasks than there
   were and have joined.
  */
  method Iterate(kind: Kind, lists: seq<Lists>, csets: seq<nat>, threadedOf: seq<seq<nat>>, script: seq<Op>)
    returns (returned: seq<Task>, ghost ahead: seq<seq<Task>>, ghost events: seq<Event>)
    requires |threadedOf| == |lists| && AllBelow(csets, |lists|)
    requires forall d {:trigger threadedOf[d]} | 0 <= d < |threadedOf| :: AllBelow(threadedOf[d], |lists|)
    ensures AllBelow(Flat(kind.threaded, threadedOf, csets), |lists|)
    ensures Iteration(ahead, events) && Output(events) == returned
    ensures ahead[0] == TasksOf(kind, lists, Flat(kind.threaded, threadedOf, csets)) && ahead[|events|] == []
    ensures forall j {:trigger events[j]} | 0 <= j < |events| && events[j].Changed? :: events[j].x in Moving(script)
    ensures forall y | y !in Moving(script) :: multiset(returned)[y] == multiset(ahead[0])[y]
    ensures forall y, i: nat, k: nat | y !in Moving(script) && k < 3 && i < |Flat(kind.threaded, threadedOf, csets)| &&
              OnlyAt(lists, Flat(kind.threaded, threadedOf, csets), y, i, k) :: multiset(returned)[y] == if Wanted(kind, k, y) then 1 else 0
    ensures AllLeaders(kind, returned)
    ensures Once(Flat(kind.threaded, threadedOf, csets)) ==> |returned| <= |ahead[0]| + JoinCount(script)
  {
    var it := new CssTaskIter(kind, lists, csets, threadedOf);
    ghost var flat := Flat(kind.threaded, threadedOf, csets);
    hide Within, RunOk, AllBelow, Eligible, TasksOf, Flat, FollowsTo, OnlyAt, Wanted, AllLeaders, CssTaskIter.Valid;
    ghost var i, done;
    returned, ahead, events, i, done := RunScript(it, script, flat);
    RunEnds(ahead, events, returned, script, i, done, Once(flat));
    EachOnce(kind, lists, flat, ahead, events, returned, script);
  }

  lemma EachOnce(kind: Kind, lists: seq<Lists>, flat: seq<nat>, ahead: seq<seq<Task>>, events: seq<Event>, returned: seq<Task>, script: seq<Op>)
    requires AllBelow(flat, |lists|) && Iteration(ahead, events) && Output(events) == returned
    requires ahead[0] == TasksOf(kind, lists, flat) && ahead[|events|] == []
    requires forall j {:trigger events[j]} | 0 <= j < |events| && events[j].Changed? :: events[j].x in Moving(script)
    ensures forall y, i: nat, k: nat | y !in Moving(script) && k < 3 && i < |flat| && OnlyAt(lists, flat, y, i, k) ::
      multiset(returned)[y] == if Wanted(kind, k, y) then 1 else 0
  {
    forall y, i: nat, k: nat | y !in Moving(script) && k < 3 && i < |flat| && OnlyAt(lists, flat, y, i, k)
      ensures multiset(returned)[y] == if Wanted(kind, k, y) then 1 else 0
    {
      StayingIsReturnedOnce(kind, lists, flat, ahead, events, y, i, k);
    }
  }

  lemma OncePerCset(a: seq<nat>, b: seq<nat>, c: nat)
    requires Within(a, b)
    ensures Once(b) ==> multiset(a)[c] <= 1
  {
    assert multiset(a)[c] <= multiset(b)[c];
  }
}
