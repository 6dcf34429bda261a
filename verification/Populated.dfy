/**
 The populated counters of cgroup.c. Every cgroup counts its linked css_sets that hold
 tasks and its populated children, domain and threaded ones apart. A css_set is linked to
 one cgroup of every hierarchy, so the cgroups form a forest.
*/
module Populated {
  import opened CgroupTree

  type Task(==, !new)

  /** Parents come before children. */
  ghost predicate IsForest(parent: seq<Option<Node>>) {
    forall n {:trigger parent[n]} | 0 <= n < |parent| && parent[n].Some? :: parent[n].value < n
  }

  ghost predicate InSubtree(parent: seq<Option<Node>>, a: Node, n: Node)
    requires IsForest(parent) && n < |parent|
    decreases n
  {
    n == a || (parent[n].Some? && InSubtree(parent, a, parent[n].value))
  }

  // ---------------------------------------------------------------------------
  // Counts
  // ---------------------------------------------------------------------------

  /** How many of the first n css_sets are marked at g. */
  ghost function CsetCount(marks: seq<set<Node>>, g: Node, n: nat): nat
    requires n <= |marks|
  {
    if n == 0 then 0 else CsetCount(marks, g, n - 1) + if g in marks[n - 1] then 1 else 0
  }

  /** How many of the children of g below n are populated and of the given kind. */
  ghost function KidCount(parent: seq<Option<Node>>, kind: seq<bool>, pop: seq<bool>, g: Node, threaded: bool, n: nat): nat
    requires n <= |parent| == |kind| == |pop|
  {
    if n == 0 then 0
    else (if parent[n - 1] == Some(g) && kind[n - 1] == threaded && pop[n - 1] then 1 else 0)
         + KidCount(parent, kind, pop, g, threaded, n - 1)
  }

  lemma {:induction false} CsetCountMark(marks: seq<set<Node>>, c: nat, s: set<Node>, g: Node, n: nat)
    requires c < |marks| && n <= |marks|
    ensures CsetCount(marks[c := s], g, n) == CsetCount(marks, g, n) +
      if c < n then (if g in s then 1 else 0) - (if g in marks[c] then 1 else 0) else 0
    decreases n
  {
    if n > 0 { CsetCountMark(marks, c, s, g, n - 1); }
  }

  lemma {:induction false} CsetCountSome(marks: seq<set<Node>>, g: Node, n: nat)
    requires n <= |marks|
    ensures CsetCount(marks, g, n) > 0 <==> exists c {:trigger marks[c]} :: 0 <= c < n && g in marks[c]
    decreases n
  {
    if n > 0 { CsetCountSome(marks, g, n - 1); }
  }

  lemma {:induction false} KidCountFlip(parent: seq<Option<Node>>, kind: seq<bool>, pop: seq<bool>, k: Node, b: bool, g: Node, threaded: bool, n: nat)
    requires n <= |parent| == |kind| == |pop| && k < |parent|
    ensures KidCount(parent, kind, pop[k := b], g, threaded, n) == KidCount(parent, kind, pop, g, threaded, n) +
      if k < n && parent[k] == Some(g) && kind[k] == threaded then (if b then 1 else 0) - (if pop[k] then 1 else 0) else 0
    decreases n
  {
    if n > 0 { KidCountFlip(parent, kind, pop, k, b, g, threaded, n - 1); }
  }

  lemma {:induction false} KidCountSome(parent: seq<Option<Node>>, kind: seq<bool>, pop: seq<bool>, g: Node, threaded: bool, n: nat)
    requires n <= |parent| == |kind| == |pop|
    ensures KidCount(parent, kind, pop, g, threaded, n) > 0 <==>
      exists k {:trigger pop[k]} :: 0 <= k < n && parent[k] == Some(g) && kind[k] == threaded && pop[k]
    decreases n
  {
    if n > 0 { KidCountSome(parent, kind, pop, g, threaded, n - 1); }
  }

  /** nr_populated_csets, nr_populated_domain_children, nr_populated_threaded_children of every cgroup. */
  datatype Counters = Counters(csets: seq<int>, domain: seq<int>, threaded: seq<int>)

  ghost predicate Sized(parent: seq<Option<Node>>, kind: seq<bool>, c: Counters) {
    IsForest(parent) && |parent| == |kind| == |c.csets| == |c.domain| == |c.threaded|
  }

  /** cgroup_is_populated. */
  predicate IsPopulated(c: Counters, g: Node)
    requires g < |c.csets| == |c.domain| == |c.threaded|
  {
    c.csets[g] + c.domain[g] + c.threaded[g] != 0
  }

  ghost function Pops(c: Counters): seq<bool>
    requires |c.csets| == |c.domain| == |c.threaded|
  {
    seq(|c.csets|, g requires 0 <= g < |c.csets| => IsPopulated(c, g))
  }

  /** The counters of g are right, up to the given amounts that they still miss. */
  ghost predicate CountsAt(parent: seq<Option<Node>>, kind: seq<bool>, marks: seq<set<Node>>, c: Counters,
                           g: Node, dc: int, dd: int, dt: int)
    requires Sized(parent, kind, c) && g < |parent|
  {
    && c.csets[g] + dc == CsetCount(marks, g, |marks|)
    && c.domain[g] + dd == KidCount(parent, kind, Pops(c), g, false, |parent|)
    && c.threaded[g] + dt == KidCount(parent, kind, Pops(c), g, true, |parent|)
  }

  ghost predicate CountsBut(parent: seq<Option<Node>>, kind: seq<bool>, marks: seq<set<Node>>, c: Counters,
                            cur: Option<Node>, dc: int, dd: int, dt: int)
    requires Sized(parent, kind, c)
  {
    forall g {:trigger CountsAt(parent, kind, marks, c, g, 0, 0, 0)} | 0 <= g < |parent| ::
      if cur == Some(g) then CountsAt(parent, kind, marks, c, g, dc, dd, dt) else CountsAt(parent, kind, marks, c, g, 0, 0, 0)
  }

  ghost predicate Exact(parent: seq<Option<Node>>, kind: seq<bool>, marks: seq<set<Node>>, c: Counters)
    requires Sized(parent, kind, c)
  {
    CountsBut(parent, kind, marks, c, None, 0, 0, 0)
  }

  /** c with one counter of g raised by adj: of css_sets, of domain or of threaded children. */
  function Adjust(c: Counters, g: Node, dc: int, dd: int, dt: int): Counters
    requires g < |c.csets| == |c.domain| == |c.threaded|
  {
    Counters(c.csets[g := c.csets[g] + dc], c.domain[g := c.domain[g] + dd], c.threaded[g := c.threaded[g] + dt])
  }

  ghost predicate NonNegative(c: Counters, g: Node)
    requires g < |c.csets| == |c.domain| == |c.threaded|
  {
    c.csets[g] >= 0 && c.domain[g] >= 0 && c.threaded[g] >= 0
  }

  /**
   One round of the upward walk. The counter of g takes what it missed; if that changes
   whether g is populated, its parent now misses the same for its kind of child.
  */
  lemma RoundKeeps(parent: seq<Option<Node>>, kind: seq<bool>, marks: seq<set<Node>>, c: Counters,
                   g: Node, dc: int, dd: int, dt: int, adj: int)
    requires Sized(parent, kind, c) && g < |parent| && CountsBut(parent, kind, marks, c, Some(g), dc, dd, dt)
    requires (adj == 1 || adj == -1) && dc + dd + dt == adj && (dc == 0 || dc == adj) && (dd == 0 || dd == adj) && (dt == 0 || dt == adj)
    requires NonNegative(c, g)
    ensures var c' := Adjust(c, g, dc, dd, dt);
      var same := IsPopulated(c, g) == IsPopulated(c', g);
      if same || parent[g].None? then Exact(parent, kind, marks, c')
      else NonNegative(c', parent[g].value) &&
           CountsBut(parent, kind, marks, c', parent[g], 0, if kind[g] then 0 else adj, if kind[g] then adj else 0)
  {
    var c' := Adjust(c, g, dc, dd, dt);
    var b := IsPopulated(c', g);
    assert Pops(c') == Pops(c)[g := b];
    assert CountsAt(parent, kind, marks, c, g, dc, dd, dt) by { var x := CountsAt(parent, kind, marks, c, g, 0, 0, 0); }
    if parent[g].Some? { var x := CountsAt(parent, kind, marks, c, parent[g].value, 0, 0, 0); }
    var sd, st := if kind[g] then 0 else adj, if kind[g] then adj else 0;
    forall h | 0 <= h < |parent|
      ensures if b != IsPopulated(c, g) && parent[g] == Some(h) then CountsAt(parent, kind, marks, c', h, 0, sd, st)
              else CountsAt(parent, kind, marks, c', h, 0, 0, 0)
    {
      var x := CountsAt(parent, kind, marks, c, h, 0, 0, 0);
      KidCountFlip(parent, kind, Pops(c), g, b, h, false, |parent|);
      KidCountFlip(parent, kind, Pops(c), g, b, h, true, |parent|);
    }
  }

  // ---------------------------------------------------------------------------
  // What the counters mean
  // ---------------------------------------------------------------------------

  ghost function Marked(marks: seq<set<Node>>, g: Node, n: nat): set<nat>
    requires n <= |marks|
  {
    set c: nat | c < n && g in marks[c]
  }

  lemma {:induction false} CsetCountIsSize(marks: seq<set<Node>>, g: Node, n: nat)
    requires n <= |marks|
    ensures CsetCount(marks, g, n) == |Marked(marks, g, n)|
    decreases n
  {
    if n == 0 {
      assert Marked(marks, g, 0) == {};
    } else {
      CsetCountIsSize(marks, g, n - 1);
      assert Marked(marks, g, n) == Marked(marks, g, n - 1) + if g in marks[n - 1] then {n - 1} else {};
    }
  }

  lemma {:induction false} UnderChild(parent: seq<Option<Node>>, g: Node, k: Node, n: Node)
    requires IsForest(parent) && n < |parent| && k < |parent| && parent[k] == Some(g) && InSubtree(parent, k, n)
    ensures InSubtree(parent, g, n)
    decreases n
  {
    if n != k { UnderChild(parent, g, k, parent[n].value); }
  }

  /** Below a populated cgroup some marked css_set is linked. */
  lemma {:induction false} SomeCset(parent: seq<Option<Node>>, kind: seq<bool>, marks: seq<set<Node>>, c: Counters, g: Node)
    returns (s: nat, h: Node)
    requires Sized(parent, kind, c) && Exact(parent, kind, marks, c) && g < |parent| && IsPopulated(c, g)
    ensures s < |marks| && h in marks[s] && h < |parent| && InSubtree(parent, g, h)
    decreases |parent| - g
  {
    assert CountsAt(parent, kind, marks, c, g, 0, 0, 0);
    if c.csets[g] > 0 {
      CsetCountSome(marks, g, |marks|);
      s :| 0 <= s < |marks| && g in marks[s];
      h := g;
    } else {
      KidCountSome(parent, kind, Pops(c), g, false, |parent|);
      KidCountSome(parent, kind, Pops(c), g, true, |parent|);
      var k: Node :| k < |parent| && parent[k] == Some(g) && Pops(c)[k];
      s, h := SomeCset(parent, kind, marks, c, k);
      UnderChild(parent, g, k, h);
    }
  }

  /** A marked css_set makes every cgroup above populated. */
  lemma CsetPopulates(parent: seq<Option<Node>>, kind: seq<bool>, marks: seq<set<Node>>, c: Counters, g: Node, s: nat, h: Node)
    requires Sized(parent, kind, c) && Exact(parent, kind, marks, c) && g < |parent|
    requires s < |marks| && h in marks[s] && h < |parent| && InSubtree(parent, g, h)
    ensures IsPopulated(c, g)
  {
    assert CountsAt(parent, kind, marks, c, h, 0, 0, 0);
    CsetCountSome(marks, h, |marks|);
    PopulatedAbove(parent, kind, marks, c, g, h);
  }

  lemma {:induction false} PopulatedAbove(parent: seq<Option<Node>>, kind: seq<bool>, marks: seq<set<Node>>, c: Counters, g: Node, k: Node)
    requires Sized(parent, kind, c) && Exact(parent, kind, marks, c) && g < |parent| && k < |parent|
    requires InSubtree(parent, g, k) && IsPopulated(c, k)
    ensures IsPopulated(c, g)
    decreases k
  {
    if k != g {
      var p := parent[k].value;
      assert CountsAt(parent, kind, marks, c, p, 0, 0, 0);
      assert Pops(c)[k];
      KidCountSome(parent, kind, Pops(c), p, kind[k], |parent|);
      PopulatedAbove(parent, kind, marks, c, g, p);
    }
  }

  // ---------------------------------------------------------------------------
  // css_sets
  // ---------------------------------------------------------------------------

  /** The list without the first occurrence of x. */
  function Remove(q: seq<Task>, x: Task): seq<Task> {
    if q == [] then [] else if q[0] == x then q[1..] else [q[0]] + Remove(q[1..], x)
  }

  /** Exactly one entry of x is gone, the others are in their old order. */
  lemma {:induction false} RemoveTakesOne(q: seq<Task>, x: Task) returns (i: nat)
    requires x in q
    ensures i < |q| && q[i] == x && x !in q[..i] && Remove(q, x) == q[..i] + q[i + 1..]
  {
    if q[0] == x {
      i := 0;
    } else {
      i := RemoveTakesOne(q[1..], x);
      i := i + 1;
      assert q == [q[0]] + q[1..] && q[..i] == [q[0]] + q[1..][..i - 1];
      Assoc([q[0]], q[1..][..i - 1], q[i + 1..]);
    }
  }

  ghost function SetOf(q: seq<Node>): set<Node> {
    set g | g in q
  }

  class CssSets {
    const parent: seq<Option<Node>>
    const kind: seq<bool>                 // cgroup_is_threaded
    const links: seq<seq<Node>>           // cgrp_links of each css_set
    var tasks: seq<seq<Task>>
    var mgTasks: seq<seq<Task>>
    var counters: Counters
    ghost var marks: seq<set<Node>>       // the cgroups where each css_set counts

    predicate Full(c: nat)
      requires c < |tasks| == |mgTasks|
      reads `tasks, `mgTasks
    {
      tasks[c] != [] || mgTasks[c] != []
    }

    ghost predicate Shape()
      reads `counters, `marks
    {
      && Sized(parent, kind, counters) && |marks| == |links|
      && (forall c, i, j {:trigger links[c][i], links[c][j]} | 0 <= c < |links| && 0 <= i < j < |links[c]| :: links[c][i] != links[c][j])
      && (forall c, i {:trigger links[c][i]} | 0 <= c < |links| && 0 <= i < |links[c]| :: links[c][i] < |parent|)
      && Exact(parent, kind, marks, counters)
    }

    /** Exactly the css_sets that hold a task count, and the one that is about to get its first. */
    ghost predicate ValidFor(to: Option<nat>)
      reads this
    {
      && Shape() && |tasks| == |mgTasks| == |links|
      && forall c {:trigger marks[c]} | 0 <= c < |links| :: marks[c] == if Full(c) || to == Some(c) then SetOf(links[c]) else {}
    }

    /** Exactly the css_sets that hold a task count, each at all its cgroups. */
    ghost predicate Valid()
      reads this
    {
      ValidFor(None)
    }

    constructor (parent: seq<Option<Node>>, kind: seq<bool>, links: seq<seq<Node>>)
      requires IsForest(parent) && |kind| == |parent|
      requires forall c, i, j {:trigger links[c][i], links[c][j]} | 0 <= c < |links| && 0 <= i < j < |links[c]| :: links[c][i] != links[c][j]
      requires forall c, i {:trigger links[c][i]} | 0 <= c < |links| && 0 <= i < |links[c]| :: links[c][i] < |parent|
      ensures Valid() && this.parent == parent && this.kind == kind && this.links == links
      ensures tasks == mgTasks == seq(|links|, c => [])
    {
      this.parent, this.kind, this.links := parent, kind, links;
      tasks, mgTasks := seq(|links|, c => []), seq(|links|, c => []);
      var zeros := seq(|parent|, g => 0);
      counters := Counters(zeros, zeros, zeros);
      marks := seq(|links|, c => {});
      new;
      forall g | 0 <= g < |parent| ensures CountsAt(parent, kind, marks, counters, g, 0, 0, 0) {
        if CsetCount(marks, g, |marks|) > 0 { CsetCountSome(marks, g, |marks|); }
        KidCountSome(parent, kind, Pops(counters), g, false, |parent|);
        KidCountSome(parent, kind, Pops(counters), g, true, |parent|);
      }
    }

    /** cgroup_update_populated for the css_set c, whose mark at cgrp changes. */
    method UpdatePopulated(c: nat, cgrp: Node, populated: bool)
      requires Shape() && c < |links| && cgrp < |parent| && (cgrp in marks[c]) != populated
      modifies `counters, `marks
      ensures Shape()
      ensures marks == old(marks)[c := if populated then old(marks[c]) + {cgrp} else old(marks[c]) - {cgrp}]
    {
      var adj := if populated then 1 else -1;
      MarkChanges(c, cgrp, populated);
      marks := marks[c := if populated then marks[c] + {cgrp} else marks[c] - {cgrp}];
      var child: Option<Node> := None;
      var cur: Node := cgrp;
      ghost var marks0 := marks;
      while true
        invariant Sized(parent, kind, counters) && cur < |parent| && NonNegative(counters, cur) && marks == marks0
        invariant child.Some? ==> child.value < |parent|
        invariant CountsBut(parent, kind, marks, counters, Some(cur),
          if child.None? then adj else 0,
          if child.Some? && !kind[child.value] then adj else 0,
          if child.Some? && kind[child.value] then adj else 0)
        decreases cur
      {
        var wasPopulated := IsPopulated(counters, cur);
        var dc := if child.None? then adj else 0;
        var dd := if child.Some? && !kind[child.value] then adj else 0;
        var dt := if child.Some? && kind[child.value] then adj else 0;
        RoundKeeps(parent, kind, marks, counters, cur, dc, dd, dt, adj);
        counters := Adjust(counters, cur, dc, dd, dt);
        if wasPopulated == IsPopulated(counters, cur) {
          break;
        }
        child := Some(cur);
        if parent[cur].None? {
          break;
        }
        cur := parent[cur].value;
      }
    }

    /** When the mark changes, only the count of css_sets at that cgroup is behind. */
    lemma MarkChanges(c: nat, cgrp: Node, populated: bool)
      requires Shape() && c < |links| && cgrp < |parent| && (cgrp in marks[c]) != populated
      ensures var marks' := marks[c := if populated then marks[c] + {cgrp} else marks[c] - {cgrp}];
        CountsBut(parent, kind, marks', counters, Some(cgrp), if populated then 1 else -1, 0, 0)
      ensures NonNegative(counters, cgrp)
    {
      var s := if populated then marks[c] + {cgrp} else marks[c] - {cgrp};
      var marks', adj := marks[c := s], if populated then 1 else -1;
      forall g | 0 <= g < |parent|
        ensures if g == cgrp then CountsAt(parent, kind, marks', counters, g, adj, 0, 0)
                else CountsAt(parent, kind, marks', counters, g, 0, 0, 0)
      {
        assert CountsAt(parent, kind, marks, counters, g, 0, 0, 0);
        CsetCountMark(marks, c, s, g, |marks|);
      }
      assert CountsAt(parent, kind, marks, counters, cgrp, 0, 0, 0);
    }

    /** css_set_update_populated. */
    method UpdateCset(c: nat, populated: bool)
      requires Shape() && c < |links| && marks[c] == if populated then {} else SetOf(links[c])
      modifies `counters, `marks
      ensures Shape() && marks == old(marks)[c := if populated then SetOf(links[c]) else {}]
    {
      ghost var q := links[c];
      for i := 0 to |links[c]|
        invariant Shape() && |marks| == |old(marks)| && forall d | 0 <= d < |marks| && d != c :: marks[d] == old(marks[d])
        invariant marks[c] == if populated then SetOf(q[..i]) else SetOf(q[i..])
      {
        SetOfStep(q, i);
        UpdatePopulated(c, links[c][i], populated);
      }
      assert q[..|q|] == q && q[|q|..] == [] && SetOf(q[|q|..]) == {};
    }

    /** A cgroup is populated iff some task is in its subtree, and its counters count exactly what they name. */
    lemma PopulatedMeans(g: Node)
      requires Valid() && g < |parent|
      ensures IsPopulated(counters, g) <==>
        exists c, k {:trigger links[c][k]} :: 0 <= c < |links| && 0 <= k < |links[c]| && Full(c) && InSubtree(parent, g, links[c][k])
      ensures counters.csets[g] == |set c {:trigger links[c]} | 0 <= c < |links| && Full(c) && g in links[c]|
      ensures CountsAt(parent, kind, marks, counters, g, 0, 0, 0)
    {
      var x := CountsAt(parent, kind, marks, counters, g, 0, 0, 0);
      if IsPopulated(counters, g) {
        var c, h := SomeCset(parent, kind, marks, counters, g);
        var i :| 0 <= i < |links[c]| && links[c][i] == h;
        assert InSubtree(parent, g, links[c][i]);
      }
      if c, k :| 0 <= c < |links| && 0 <= k < |links[c]| && Full(c) && InSubtree(parent, g, links[c][k]) {
        assert links[c][k] in marks[c];
        CsetPopulates(parent, kind, marks, counters, g, c, links[c][k]);
      }
      CsetCountIsSize(marks, g, |marks|);
      assert Marked(marks, g, |marks|) == set c {:trigger links[c]} | 0 <= c < |links| && Full(c) && g in links[c];
    }

    /** css_set_move_task. */
    method MoveTask(task: Task, from: Option<nat>, to: Option<nat>, useMgTasks: bool)
      requires Valid() && from != to
      requires from.Some? ==> from.value < |links| && (task in tasks[from.value] || task in mgTasks[from.value])
      requires to.Some? ==> to.value < |links|
      modifies `counters, `marks, `tasks, `mgTasks
      ensures Valid()
      ensures (tasks, mgTasks) == Joined(Left(old((tasks, mgTasks)), task, from), task, to, useMgTasks)
    {
      if to.Some? && !Full(to.value) {
        UpdateCset(to.value, true);
      }
      if from.Some? {
        Leave(task, from.value, to);
      }
      if to.Some? {
        var c := to.value;
        if useMgTasks {
          mgTasks := mgTasks[c := mgTasks[c] + [task]];
        } else {
          tasks := tasks[c := tasks[c] + [task]];
        }
      }
    }

    /** The list move of cgroup_migrate_add_task: from tasks to the tail of mg_tasks. */
    method GatherTask(task: Task, c: nat)
      requires Valid() && c < |links| && task in tasks[c]
      modifies `tasks, `mgTasks
      ensures Valid()
      ensures tasks == old(tasks)[c := Remove(old(tasks[c]), task)] && mgTasks == old(mgTasks)[c := old(mgTasks[c]) + [task]]
    {
      tasks := tasks[c := Remove(tasks[c], task)];
      mgTasks := mgTasks[c := mgTasks[c] + [task]];
    }

    /** list_splice_tail_init(&cset->mg_tasks, &cset->tasks). */
    method SpliceBack(c: nat)
      requires Valid() && c < |links|
      modifies `tasks, `mgTasks
      ensures Valid()
      ensures tasks == old(tasks)[c := old(tasks[c]) + old(mgTasks[c])] && mgTasks == old(mgTasks)[c := []]
    {
      tasks := tasks[c := tasks[c] + mgTasks[c]];
      mgTasks := mgTasks[c := []];
    }

    /** The part of css_set_move_task that takes the task off its list. */
    method Leave(task: Task, from: nat, ghost to: Option<nat>)
      requires ValidFor(to) && to != Some(from)
      requires from < |links| && (task in tasks[from] || task in mgTasks[from])
      modifies `counters, `marks, `tasks, `mgTasks
      ensures ValidFor(to) && (tasks, mgTasks) == Left(old((tasks, mgTasks)), task, Some(from))
    {
      // list_del_init: off whichever list the task is on
      if task in tasks[from] {
        tasks := tasks[from := Remove(tasks[from], task)];
      } else {
        mgTasks := mgTasks[from := Remove(mgTasks[from], task)];
      }
      if !Full(from) {
        assert marks[from] == SetOf(links[from]);
        UpdateCset(from, false);
      }
    }
  }

  lemma SetOfStep(q: seq<Node>, i: nat)
    requires i < |q| && forall a, b | 0 <= a < b < |q| :: q[a] != q[b]
    ensures q[i] !in SetOf(q[..i]) && q[i] in SetOf(q[i..])
    ensures SetOf(q[..i + 1]) == SetOf(q[..i]) + {q[i]}
    ensures SetOf(q[i + 1..]) == SetOf(q[i..]) - {q[i]}
  {
    assert q[i..] == [q[i]] + q[i + 1..] && q[..i + 1] == q[..i] + [q[i]];
  }

  type Lists = (seq<seq<Task>>, seq<seq<Task>>)

  /** Off the source's list, whichever of the two it is on. */
  ghost function Left(l: Lists, x: Task, from: Option<nat>): Lists
    requires |l.0| == |l.1| && (from.Some? ==> from.value < |l.0|)
  {
    match from
    case None => l
    case Some(f) =>
      if x in l.0[f] then (l.0[f := Remove(l.0[f], x)], l.1) else (l.0, l.1[f := Remove(l.1[f], x)])
  }

  /** At the tail of the destination's list. */
  ghost function Joined(l: Lists, x: Task, to: Option<nat>, useMg: bool): Lists
    requires |l.0| == |l.1| && (to.Some? ==> to.value < |l.0|)
  {
    match to
    case None => l
    case Some(c) => if useMg then (l.0, l.1[c := l.1[c] + [x]]) else (l.0[c := l.0[c] + [x]], l.1)
  }
}
