/**
 The cgroup hierarchy and its walks (cgroup.c). A node is named by its css serial
 number: numbers only grow and a child is created after its parent, so parents have
 smaller numbers; new children go to the tail of their parent's sibling list, so the
 lists ascend. A released node keeps its parent but has left the sibling list.
*/
module CgroupTree {

  type Node = nat

  datatype Option<T> = None | Some(value: T)

  /** Parents come before children. */
  ghost predicate IsTree(parent: seq<Node>) {
    0 < |parent| && forall n {:trigger parent[n]} | 0 < n < |parent| :: parent[n] < n
  }

  /** n is in the subtree of a, by parents alone: released nodes are, too. */
  ghost predicate Under(parent: seq<Node>, a: Node, n: Node)
    requires IsTree(parent) && n < |parent|
    decreases n
  {
    n == a || (a < n && Under(parent, a, parent[n]))
  }

  datatype Tree = Tree(parent: seq<Node>, kids: seq<seq<Node>>) {
    /** The lists hold only children, each once. */
    ghost predicate Shaped() {
      && 0 < |parent| == |kids|
      && (forall n {:trigger parent[n]} | 0 < n < |parent| :: parent[n] < n)
      && (forall p, i {:trigger kids[p][i]} | 0 <= p < |kids| && 0 <= i < |kids[p]| ::
            p < kids[p][i] < |parent| && parent[kids[p][i]] == p)
      && (forall p {:trigger Distinct(kids[p])} | 0 <= p < |kids| :: Distinct(kids[p]))
    }

    ghost predicate Valid() {
      Shaped() && forall p {:trigger Ascends(kids[p])} | 0 <= p < |kids| :: Ascends(kids[p])
    }

    predicate Has(n: Node) {
      n < |parent| == |kids|
    }

    /** n is on its parent's sibling list. */
    ghost predicate Linked(n: Node)
      requires Shaped() && Has(n)
    {
      0 < n && n in kids[parent[n]]
    }

    /** n is a, or is reached from a through sibling lists. */
    ghost predicate Below(a: Node, n: Node)
      requires Shaped() && Has(n)
      decreases n
    {
      n == a || (a < n && Linked(n) && Below(a, parent[n]))
    }

    /** The position of n among its siblings. */
    ghost function Index(n: Node): (i: nat)
      requires Shaped() && Has(n) && Linked(n)
      ensures i < |kids[parent[n]]| && kids[parent[n]][i] == n
    {
      var i :| 0 <= i < |kids[parent[n]]| && kids[parent[n]][i] == n;
      i
    }

    /** Pre-order: a node, then the subtrees of its children in list order. */
    ghost function Pre(n: Node): seq<Node>
      requires Shaped() && Has(n)
      decreases |parent| - n, |kids[n]| + 1
    {
      [n] + PreFrom(n, 0)
    }

    ghost function PreFrom(p: Node, i: nat): seq<Node>
      requires Shaped() && Has(p) && i <= |kids[p]|
      decreases |parent| - p, |kids[p]| - i
    {
      if i == |kids[p]| then [] else Pre(kids[p][i]) + PreFrom(p, i + 1)
    }

    /** Post-order: the subtrees of the children in list order, then the node. */
    ghost function Post(n: Node): seq<Node>
      requires Shaped() && Has(n)
      decreases |parent| - n, |kids[n]| + 1
    {
      PostFrom(n, 0) + [n]
    }

    ghost function PostFrom(p: Node, i: nat): seq<Node>
      requires Shaped() && Has(p) && i <= |kids[p]|
      decreases |parent| - p, |kids[p]| - i
    {
      if i == |kids[p]| then [] else Post(kids[p][i]) + PostFrom(p, i + 1)
    }

    /** What pre-order of root visits after the subtree of n. */
    ghost function AfterPre(root: Node, n: Node): seq<Node>
      requires Shaped() && Has(n) && Below(root, n)
      decreases n
    {
      if n == root then [] else PreFrom(parent[n], Index(n) + 1) + AfterPre(root, parent[n])
    }

    /** What post-order of root visits after n. */
    ghost function AfterPost(root: Node, n: Node): seq<Node>
      requires Shaped() && Has(n) && Below(root, n)
      decreases n
    {
      if n == root then [] else PostFrom(parent[n], Index(n) + 1) + [parent[n]] + AfterPost(root, parent[n])
    }

    /** What pre-order of root visits after n, which may have been released. */
    ghost function LaterPre(root: Node, n: Node): seq<Node>
      requires Shaped() && Has(n) && Under(parent, root, n)
      decreases n
    {
      if n == root then [] else PreFrom(parent[n], UpTo(kids[parent[n]], n)) + LaterPre(root, parent[n])
    }

    /** What post-order of root visits after n, which may have been released. */
    ghost function LaterPost(root: Node, n: Node): seq<Node>
      requires Shaped() && Has(n) && Under(parent, root, n)
      decreases n
    {
      if n == root then [] else PostFrom(parent[n], UpTo(kids[parent[n]], n)) + [parent[n]] + LaterPost(root, parent[n])
    }
  }

  /** Serial numbers grow along a sibling list. */
  ghost predicate Ascends(ks: seq<Node>) {
    forall i, j | 0 <= i < j < |ks| :: ks[i] < ks[j]
  }

  /** How many entries at the front of a sibling list have a number up to n. */
  ghost function UpTo(ks: seq<Node>, n: Node): (i: nat)
    ensures i <= |ks|
  {
    if ks == [] || ks[0] > n then 0 else 1 + UpTo(ks[1..], n)
  }

  ghost function Head(q: seq<Node>): Option<Node> {
    if q == [] then None else Some(q[0])
  }

  // ---------------------------------------------------------------------------
  // Both orders enumerate exactly the subtree, each node once
  // ---------------------------------------------------------------------------

  lemma {:induction false} BelowAbove(t: Tree, a: Node, n: Node)
    requires t.Shaped() && t.Has(n) && t.Below(a, n)
    ensures a <= n
  {}

  lemma {:induction false} BelowTrans(t: Tree, a: Node, b: Node, n: Node)
    requires t.Shaped() && t.Has(n) && b <= n && t.Below(b, n) && t.Below(a, b)
    ensures t.Below(a, n)
    decreases n
  {
    if n != b && n != a {
      BelowTrans(t, a, b, t.parent[n]);
      BelowAbove(t, a, b);
    }
  }

  /** A node lies below at most one child of any node. */
  lemma {:induction false} OneChildToward(t: Tree, p: Node, c: Node, d: Node, n: Node)
    requires t.Shaped() && t.Has(n) && t.Below(c, n) && t.Below(d, n)
    requires 0 < c < |t.parent| && 0 < d < |t.parent| && t.parent[c] == p && t.parent[d] == p
    ensures c == d
    decreases n
  {
    if n == c && n != d {
      BelowAbove(t, d, p);
    } else if n == d && n != c {
      BelowAbove(t, c, p);
    } else if n != c {
      OneChildToward(t, p, c, d, t.parent[n]);
    }
  }

  lemma {:induction false} PreIsSubtree(t: Tree, n: Node, x: Node)
    requires t.Shaped() && t.Has(n) && t.Has(x)
    ensures x in t.Pre(n) <==> t.Below(n, x)
    decreases |t.parent| - n, |t.kids[n]| + 1
  {
    PreFromIsSubtree(t, n, 0, x);
    if x != n && t.Below(n, x) {
      var c := ChildToward(t, n, x);
      assert 0 <= t.Index(c);
    }
  }

  /** The child of a on the way down to x. */
  lemma {:induction false} ChildToward(t: Tree, a: Node, x: Node) returns (c: Node)
    requires t.Shaped() && t.Has(x) && x != a && t.Below(a, x)
    ensures t.Has(c) && t.Linked(c) && t.parent[c] == a && t.Below(c, x)
    decreases x
  {
    if t.parent[x] == a {
      c := x;
    } else {
      c := ChildToward(t, a, t.parent[x]);
      BelowAbove(t, c, t.parent[x]);
    }
  }

  lemma {:induction false} PreFromIsSubtree(t: Tree, p: Node, i: nat, x: Node)
    requires t.Shaped() && t.Has(p) && t.Has(x) && i <= |t.kids[p]|
    ensures x in t.PreFrom(p, i) <==> exists j :: i <= j < |t.kids[p]| && t.Below(t.kids[p][j], x)
    ensures x in t.PreFrom(p, i) ==> x != p && t.Below(p, x)
    decreases |t.parent| - p, |t.kids[p]| - i
  {
    if i < |t.kids[p]| {
      var c := t.kids[p][i];
      PreIsSubtree(t, c, x);
      PreFromIsSubtree(t, p, i + 1, x);
      if t.Below(c, x) {
        BelowAbove(t, c, x);
        assert t.Linked(c) && t.Below(p, c);
        BelowTrans(t, p, c, x);
      }
    }
  }

  ghost predicate Distinct(q: seq<Node>) {
    forall i, j | 0 <= i < j < |q| :: q[i] != q[j]
  }

  lemma {:induction false} PreInRange(t: Tree, n: Node, x: Node)
    requires t.Shaped() && t.Has(n) && x in t.Pre(n)
    ensures t.Has(x)
    decreases |t.parent| - n, |t.kids[n]| + 1
  {
    if x != n { PreFromInRange(t, n, 0, x); }
  }

  lemma {:induction false} PreFromInRange(t: Tree, p: Node, i: nat, x: Node)
    requires t.Shaped() && t.Has(p) && i <= |t.kids[p]| && x in t.PreFrom(p, i)
    ensures t.Has(x)
    decreases |t.parent| - p, |t.kids[p]| - i
  {
    if x in t.Pre(t.kids[p][i]) { PreInRange(t, t.kids[p][i], x); } else { PreFromInRange(t, p, i + 1, x); }
  }

  lemma {:induction false} PreDistinct(t: Tree, n: Node)
    requires t.Shaped() && t.Has(n)
    ensures Distinct(t.Pre(n))
    decreases |t.parent| - n, |t.kids[n]| + 1
  {
    PreFromDistinct(t, n, 0);
    if n in t.PreFrom(n, 0) {
      PreFromIsSubtree(t, n, 0, n);
    }
  }

  lemma {:induction false} PreFromDistinct(t: Tree, p: Node, i: nat)
    requires t.Shaped() && t.Has(p) && i <= |t.kids[p]|
    ensures Distinct(t.PreFrom(p, i))
    decreases |t.parent| - p, |t.kids[p]| - i
  {
    if i < |t.kids[p]| {
      var c := t.kids[p][i];
      PreDistinct(t, c);
      PreFromDistinct(t, p, i + 1);
      assert Distinct(t.kids[p]);
      forall x | x in t.Pre(c) && x in t.PreFrom(p, i + 1) ensures false {
        PreInRange(t, c, x);
        PreIsSubtree(t, c, x);
        PreFromIsSubtree(t, p, i + 1, x);
        var j :| i + 1 <= j < |t.kids[p]| && t.Below(t.kids[p][j], x);
        OneChildToward(t, p, c, t.kids[p][j], x);
      }
      var a, b := t.Pre(c), t.PreFrom(p, i + 1);
      assert forall k, l | 0 <= k < |a| && 0 <= l < |b| :: a[k] in a && b[l] in b;
    }
  }

  /** Pre-order lists exactly the nodes of the subtree, each once. */
  lemma PreEnumerates(t: Tree, n: Node)
    requires t.Shaped() && t.Has(n)
    ensures Distinct(t.Pre(n))
    ensures forall x :: x in t.Pre(n) <==> t.Has(x) && t.Below(n, x)
  {
    PreDistinct(t, n);
    forall x ensures x in t.Pre(n) <==> t.Has(x) && t.Below(n, x) {
      if x in t.Pre(n) { PreInRange(t, n, x); }
      if t.Has(x) { PreIsSubtree(t, n, x); }
    }
  }

  /** Post-order is a permutation of pre-order: the same nodes, each once. */
  lemma {:induction false} PostPermutesPre(t: Tree, n: Node)
    requires t.Shaped() && t.Has(n)
    ensures multiset(t.Post(n)) == multiset(t.Pre(n))
    decreases |t.parent| - n, |t.kids[n]| + 1
  {
    PostFromPermutes(t, n, 0);
  }

  lemma {:induction false} PostFromPermutes(t: Tree, p: Node, i: nat)
    requires t.Shaped() && t.Has(p) && i <= |t.kids[p]|
    ensures multiset(t.PostFrom(p, i)) == multiset(t.PreFrom(p, i))
    decreases |t.parent| - p, |t.kids[p]| - i
  {
    if i < |t.kids[p]| {
      PostPermutesPre(t, t.kids[p][i]);
      PostFromPermutes(t, p, i + 1);
    }
  }

  lemma PostEnumerates(t: Tree, n: Node)
    requires t.Shaped() && t.Has(n)
    ensures forall x :: x in t.Post(n) <==> t.Has(x) && t.Below(n, x)
  {
    PreEnumerates(t, n);
    PostPermutesPre(t, n);
    forall x ensures x in t.Post(n) <==> x in t.Pre(n) {
      assert x in t.Post(n) <==> x in multiset(t.Post(n));
    }
  }

  // ---------------------------------------------------------------------------
  // Where a node's subtree sits in the two orders
  // ---------------------------------------------------------------------------

  lemma {:induction false} PreFromSplits(t: Tree, p: Node, i: nat, j: nat) returns (before: seq<Node>)
    requires t.Shaped() && t.Has(p) && i <= j < |t.kids[p]|
    ensures t.PreFrom(p, i) == before + t.Pre(t.kids[p][j]) + t.PreFrom(p, j + 1)
    decreases j - i
  {
    if i == j {
      before := [];
    } else {
      var b := PreFromSplits(t, p, i + 1, j);
      before := t.Pre(t.kids[p][i]) + b;
    }
  }

  lemma Assoc<T>(a: seq<T>, b: seq<T>, c: seq<T>)
    ensures (a + b) + c == a + (b + c)
  {}

  lemma Flatten<T>(a: seq<T>, b: seq<T>, c: seq<T>, d: seq<T>, e: seq<T>, f: seq<T>)
    ensures a + (b + (c + d + e)) + f == (a + b + c) + d + (e + f)
  {
    Assoc(a, b, c + d + e);
    Assoc(a + b, c + d, e);
    Assoc(a + b, c, d);
    Assoc(a + b + c + d, e, f);
  }

  /** The pre-order of root is what comes before n, the subtree of n, and what comes after. */
  lemma {:induction false} PreSplits(t: Tree, root: Node, n: Node) returns (before: seq<Node>)
    requires t.Shaped() && t.Has(n) && t.Below(root, n)
    ensures t.Pre(root) == before + t.Pre(n) + t.AfterPre(root, n)
    ensures n != root ==> t.parent[n] in before
    decreases n
  {
    if n == root {
      before := [];
    } else {
      var p, i := t.parent[n], t.Index(n);
      var b := PreSplits(t, root, p);
      var a := PreFromSplits(t, p, 0, i);
      before := b + [p] + a;
      var own, later, after := t.Pre(n), t.PreFrom(p, i + 1), t.AfterPre(root, p);
      assert t.Pre(p) == [p] + (a + own + later) && t.AfterPre(root, n) == later + after;
      hide Tree.Pre, Tree.PreFrom, Tree.AfterPre, Tree.Below, Tree.Shaped;
      Flatten(b, [p], a, own, later, after);
    }
  }

  lemma {:induction false} PostFromSplits(t: Tree, p: Node, i: nat, j: nat) returns (before: seq<Node>)
    requires t.Shaped() && t.Has(p) && i <= j < |t.kids[p]|
    ensures t.PostFrom(p, i) == before + t.Post(t.kids[p][j]) + t.PostFrom(p, j + 1)
    decreases j - i
  {
    if i == j {
      before := [];
    } else {
      var b := PostFromSplits(t, p, i + 1, j);
      before := t.Post(t.kids[p][i]) + b;
    }
  }

  lemma {:induction false} PostSplits(t: Tree, root: Node, n: Node) returns (before: seq<Node>)
    requires t.Shaped() && t.Has(n) && t.Below(root, n)
    ensures t.Post(root) == before + t.Post(n) + t.AfterPost(root, n)
    decreases n
  {
    if n == root {
      before := [];
    } else {
      var p, i := t.parent[n], t.Index(n);
      var b := PostSplits(t, root, p);
      var a := PostFromSplits(t, p, 0, i);
      before := b + a;
      var own, later, after := t.Post(n), t.PostFrom(p, i + 1), t.AfterPost(root, p);
      assert t.Post(p) == (a + own + later) + [p] && t.AfterPost(root, n) == later + [p] + after;
      hide Tree.Post, Tree.PostFrom, Tree.AfterPost, Tree.Below, Tree.Shaped;
      assert b + ((a + own + later) + [p]) + after == before + own + (later + [p] + after);
    }
  }

  // ---------------------------------------------------------------------------
  // The walks
  // ---------------------------------------------------------------------------

  /** The first entry of a sibling list with a larger number than pos; with None, the first entry. */
  ghost predicate IsNextChild(ks: seq<Node>, pos: Option<Node>, r: Option<Node>) {
    var later := (c: Node) => pos.None? || pos.value < c;
    match r
    case None => forall c | c in ks :: !later(c)
    case Some(n) => n in ks && later(n) && forall c | c in ks && later(c) :: n <= c
  }

  /**
   css_next_child. A linked cursor continues at its list successor; a released cursor,
   whose own link is stale, makes the loop scan for the first larger number. Either way
   the result is the first surviving later sibling.
  */
  method NextChild(t: Tree, pos: Option<Node>, parent: Node) returns (next: Option<Node>)
    requires t.Valid() && t.Has(parent)
    requires pos.Some? ==> t.Has(pos.value) && 0 < pos.value && t.parent[pos.value] == parent
    ensures IsNextChild(t.kids[parent], pos, next)
  {
    var ks := t.kids[parent];
    assert Ascends(ks);
    if pos.None? {
      next := if ks == [] then None else Some(ks[0]);
    } else if pos.value in ks {
      var i :| 0 <= i < |ks| && ks[i] == pos.value;
      next := if i + 1 < |ks| then Some(ks[i + 1]) else None;
    } else {
      var i := 0;
      while i < |ks| && ks[i] <= pos.value
        invariant i <= |ks|
        invariant forall j | 0 <= j < i :: ks[j] < pos.value
      {
        i := i + 1;
      }
      next := if i < |ks| then Some(ks[i]) else None;
    }
  }

  /** In an ascending list exactly the entries from index UpTo(ks, n) on have a number above n. */
  lemma {:induction false} UpToSplits(ks: seq<Node>, n: Node)
    requires Ascends(ks)
    ensures forall k | 0 <= k < |ks| :: ks[k] <= n <==> k < UpTo(ks, n)
  {
    if ks != [] && ks[0] <= n { UpToSplits(ks[1..], n); }
  }

  /** The next child, also of a released cursor, is the first list entry with a number above it. */
  lemma NextChildIsSuccessor(t: Tree, p: Node, pos: Node, r: Option<Node>)
    requires t.Valid() && t.Has(p) && IsNextChild(t.kids[p], Some(pos), r)
    ensures var i, ks := UpTo(t.kids[p], pos), t.kids[p]; r == if i < |ks| then Some(ks[i]) else None
  {
    var i, ks := UpTo(t.kids[p], pos), t.kids[p];
    assert Ascends(ks);
    UpToSplits(ks, pos);
    if i < |ks| {
      assert ks[i] in ks;
    }
  }

  /** For a linked cursor that is the next list entry. */
  lemma LinkedUpTo(t: Tree, n: Node)
    requires t.Valid() && t.Has(n) && t.Linked(n)
    ensures UpTo(t.kids[t.parent[n]], n) == t.Index(n) + 1
  {
    var i, ks := t.Index(n), t.kids[t.parent[n]];
    assert Ascends(ks);
    UpToSplits(ks, n);
    assert ks[i] == n && (i + 1 < |ks| ==> ks[i] < ks[i + 1]);
  }

  lemma {:induction false} BelowIsUnder(t: Tree, root: Node, n: Node)
    requires t.Shaped() && t.Has(n) && t.Below(root, n)
    ensures Under(t.parent, root, n)
    decreases n
  {
    if n != root { BelowIsUnder(t, root, t.parent[n]); }
  }

  /** For a linked cursor, what comes later is what comes after its subtree. */
  lemma {:induction false} LaterIsAfter(t: Tree, root: Node, n: Node)
    requires t.Valid() && t.Has(n) && t.Below(root, n)
    ensures Under(t.parent, root, n)
    ensures t.LaterPre(root, n) == t.AfterPre(root, n) && t.LaterPost(root, n) == t.AfterPost(root, n)
    decreases n
  {
    if n != root {
      LinkedUpTo(t, n);
      LaterIsAfter(t, root, t.parent[n]);
    }
  }

  lemma HeadsFrom(t: Tree, p: Node, i: nat)
    requires t.Shaped() && t.Has(p) && i < |t.kids[p]|
    ensures t.PreFrom(p, i) != [] && t.PreFrom(p, i)[0] == t.kids[p][i]
    ensures t.PostFrom(p, i) != [] && t.PostFrom(p, i)[0] == t.Post(t.kids[p][i])[0]
  {
    assert Distinct(t.kids[p]);
    assert t.Pre(t.kids[p][i])[0] == t.kids[p][i];
  }

  lemma HeadAppend(a: seq<Node>, b: seq<Node>)
    ensures Head(a + b) == if a == [] then Head(b) else Head(a)
  {
    if a == [] { assert a + b == b; }
  }

  /** The tree with a new last child of p, and its name. */
  function WithChild(t: Tree, p: Node): Tree
    requires p < |t.parent| == |t.kids|
  {
    Tree(t.parent + [p], t.kids[p := t.kids[p] + [|t.parent|]] + [[]])
  }

  lemma WithChildValid(t: Tree, p: Node)
    requires t.Valid() && p < |t.parent|
    ensures WithChild(t, p).Valid()
  {
    var t' := WithChild(t, p);
    forall q | 0 <= q < |t'.kids| ensures Distinct(t'.kids[q]) && Ascends(t'.kids[q]) {
      if q < |t.kids| { assert Distinct(t.kids[q]) && Ascends(t.kids[q]); }
    }
  }

  /** What follows a leaf, or a finished subtree, in pre-order. */
  lemma LaterPreStep(t: Tree, root: Node, n: Node)
    requires t.Shaped() && t.Has(n) && Under(t.parent, root, n) && n != root
    ensures var p, i := t.parent[n], UpTo(t.kids[t.parent[n]], n);
      Head(t.LaterPre(root, n)) == if i < |t.kids[p]| then Some(t.kids[p][i]) else Head(t.LaterPre(root, p))
  {
    var p, i := t.parent[n], UpTo(t.kids[t.parent[n]], n);
    var later, rest := t.PreFrom(p, i), t.LaterPre(root, p);
    assert t.LaterPre(root, n) == later + rest;
    HeadAppend(later, rest);
    if i < |t.kids[p]| {
      HeadsFrom(t, p, i);
    }
  }

  lemma FirstChild(t: Tree, p: Node, r: Option<Node>)
    requires t.Valid() && t.Has(p) && IsNextChild(t.kids[p], None, r)
    ensures r == if t.kids[p] == [] then None else Some(t.kids[p][0])
  {
    assert Ascends(t.kids[p]);
    if t.kids[p] != [] { assert t.kids[p][0] in t.kids[p]; }
  }

  /**
   css_next_descendant_pre. Below pos comes its first child's subtree; from a leaf the
   walk climbs to the closest node with a later sibling, stopping at root. The cursor may
   have been released, then it continues with the first later sibling that is left.
  */
  method NextDescendantPre(t: Tree, pos: Option<Node>, root: Node) returns (next: Option<Node>)
    requires t.Valid() && t.Has(root)
    requires pos.Some? ==> t.Has(pos.value) && Under(t.parent, root, pos.value)
    ensures pos.None? ==> next == Head(t.Pre(root))
    ensures pos.Some? ==> next == Head(t.PreFrom(pos.value, 0) + t.LaterPre(root, pos.value))
  {
    if pos.None? {
      return Some(root);
    }
    next := NextChild(t, None, pos.value);
    FirstChild(t, pos.value, next);
    HeadAppend(t.PreFrom(pos.value, 0), t.LaterPre(root, pos.value));
    if next.Some? {
      HeadsFrom(t, pos.value, 0);
      return;
    }
    next := NextUpwards(t, pos.value, root);
  }

  /** The climbing loop of css_next_descendant_pre. */
  method NextUpwards(t: Tree, pos: Node, root: Node) returns (next: Option<Node>)
    requires t.Valid() && t.Has(root) && t.Has(pos) && Under(t.parent, root, pos)
    ensures next == Head(t.LaterPre(root, pos))
  {
    var p := pos;
    while p != root
      invariant t.Has(p) && Under(t.parent, root, p)
      invariant Head(t.LaterPre(root, pos)) == Head(t.LaterPre(root, p))
    {
      next := NextChild(t, Some(p), t.parent[p]);
      NextChildIsSuccessor(t, t.parent[p], p, next);
      LaterPreStep(t, root, p);
      if next.Some? {
        return;
      }
      p := t.parent[p];
    }
    return None;
  }

  /** The next node of a walk whose cursor is linked. */
  method NextPre(t: Tree, pos: Node, root: Node) returns (next: Option<Node>)
    requires t.Valid() && t.Has(root) && t.Has(pos) && t.Below(root, pos)
    ensures next == Head(t.PreFrom(pos, 0) + t.AfterPre(root, pos))
  {
    LaterIsAfter(t, root, pos);
    next := NextDescendantPre(t, Some(pos), root);
  }

  lemma {:induction false} PreFromLast(t: Tree, p: Node, i: nat)
    requires t.Shaped() && t.Has(p) && i < |t.kids[p]|
    ensures var c := t.kids[p][|t.kids[p]| - 1]; var q := t.PreFrom(p, i);
      q != [] && q[|q| - 1] == t.Pre(c)[|t.Pre(c)| - 1]
    decreases |t.kids[p]| - i
  {
    if i + 1 < |t.kids[p]| { PreFromLast(t, p, i + 1); }
  }

  /** Stepping to the last child changes neither the last node nor what comes after. */
  lemma LastChild(t: Tree, p: Node, c: Node)
    requires t.Shaped() && t.Has(p) && t.kids[p] != [] && c == t.kids[p][|t.kids[p]| - 1]
    ensures t.Has(c) && t.Linked(c) && t.parent[c] == p
    ensures t.Pre(p)[|t.Pre(p)| - 1] == t.Pre(c)[|t.Pre(c)| - 1]
    ensures forall root | t.Has(root) && t.Below(root, p) :: t.Below(root, c) && t.AfterPre(root, c) == t.AfterPre(root, p)
  {
    assert Distinct(t.kids[p]);
    PreFromLast(t, p, 0);
    assert t.Index(c) == |t.kids[p]| - 1;
    forall root | t.Has(root) && t.Below(root, p) ensures t.Below(root, c) && t.AfterPre(root, c) == t.AfterPre(root, p) {
      BelowAbove(t, root, p);
    }
  }

  /** css_rightmost_descendant: the last node pre-order visits in the subtree of pos. */
  method RightmostDescendant(t: Tree, pos: Node) returns (last: Node)
    requires t.Valid() && t.Has(pos)
    ensures t.Has(last) && t.Pre(pos)[|t.Pre(pos)| - 1] == last
    ensures t.kids[last] == [] && t.Below(pos, last)
    ensures forall root | t.Has(root) && t.Below(root, pos) :: t.Below(root, last) && t.AfterPre(root, last) == t.AfterPre(root, pos)
  {
    last := pos;
    while t.kids[last] != []
      invariant t.Has(last) && t.Below(pos, last)
      invariant t.Pre(pos)[|t.Pre(pos)| - 1] == t.Pre(last)[|t.Pre(last)| - 1]
      invariant forall root | t.Has(root) && t.Below(root, pos) :: t.Below(root, last) && t.AfterPre(root, last) == t.AfterPre(root, pos)
      decreases |t.parent| - last
    {
      // the list is singly walked to its end
      var tmp := NextChild(t, None, last);
      var c := last;
      while tmp.Some?
        invariant tmp.Some? ==> t.Has(tmp.value) && tmp.value in t.kids[last]
        invariant IsNextChild(t.kids[last], if c == last then None else Some(c), tmp)
        invariant c == last || c in t.kids[last]
        decreases |t.parent| - (if tmp.Some? then tmp.value else |t.parent|)
      {
        c := tmp.value;
        assert Ascends(t.kids[last]);
        tmp := NextChild(t, Some(c), last);
      }
      assert Ascends(t.kids[last]) && t.kids[last][0] in t.kids[last];
      assert c == t.kids[last][|t.kids[last]| - 1] by { assert t.kids[last][|t.kids[last]| - 1] in t.kids[last]; }
      LastChild(t, last, c);
      assert t.Below(pos, c);
      last := c;
    }
  }

  /** css_leftmost_descendant: the first node post-order visits. */
  method LeftmostDescendant(t: Tree, pos: Node) returns (last: Node)
    requires t.Valid() && t.Has(pos)
    ensures last == t.Post(pos)[0]
  {
    last := pos;
    while t.kids[last] != []
      invariant t.Has(last)
      invariant t.Post(pos)[0] == t.Post(last)[0]
      decreases |t.parent| - last
    {
      var next := NextChild(t, None, last);
      FirstChild(t, last, next);
      assert Ascends(t.kids[last]);
      HeadsFrom(t, last, 0);
      last := next.value;
    }
  }

  /** css_next_descendant_post: the successor of pos, which may have been released, in the post-order of root. */
  method NextDescendantPost(t: Tree, pos: Option<Node>, root: Node) returns (next: Option<Node>)
    requires t.Valid() && t.Has(root)
    requires pos.Some? ==> t.Has(pos.value) && Under(t.parent, root, pos.value)
    ensures pos.None? ==> next == Head(t.Post(root))
    ensures pos.Some? ==> next == Head(t.LaterPost(root, pos.value))
  {
    if pos.None? {
      var l := LeftmostDescendant(t, root);
      return Some(l);
    }
    if pos.value == root {
      return None;
    }
    var parent := t.parent[pos.value];
    next := NextChild(t, Some(pos.value), parent);
    NextChildIsSuccessor(t, parent, pos.value, next);
    if next.Some? {
      HeadsFrom(t, parent, UpTo(t.kids[parent], pos.value));
      var l := LeftmostDescendant(t, next.value);
      return Some(l);
    }
    return Some(parent);
  }

  /** The next node of a walk whose cursor is linked. */
  method NextPost(t: Tree, pos: Node, root: Node) returns (next: Option<Node>)
    requires t.Valid() && t.Has(root) && t.Has(pos) && t.Below(root, pos)
    ensures next == Head(t.AfterPost(root, pos))
  {
    LaterIsAfter(t, root, pos);
    next := NextDescendantPost(t, Some(pos), root);
  }

  // ---------------------------------------------------------------------------
  // Cursors that were released
  // ---------------------------------------------------------------------------

  /** The nodes of q that are still linked. */
  ghost function Keep(q: seq<Node>, s: set<Node>): seq<Node> {
    if q == [] then [] else (if q[0] in s then [q[0]] else []) + Keep(q[1..], s)
  }

  lemma {:induction false} KeepAppend(a: seq<Node>, b: seq<Node>, s: set<Node>)
    ensures Keep(a + b, s) == Keep(a, s) + Keep(b, s)
  {
    var q := a + b;
    if a == [] {
      assert q == b;
    } else {
      KeepAppend(a[1..], b, s);
      assert q[0] == a[0] && q[1..] == a[1..] + b;
      var h := if a[0] in s then [a[0]] else [];
      assert h + (Keep(a[1..], s) + Keep(b, s)) == (h + Keep(a[1..], s)) + Keep(b, s);
    }
  }

  lemma KeepOne(n: Node, s: set<Node>)
    ensures Keep([n], s) == if n in s then [n] else []
  {
    assert [n][1..] == [];
  }

  /**
   t is what is left of all the nodes that were ever linked, as t0 lists them, when only
   those of s still are. A node is released after its children.
  */
  ghost predicate LeftOf(t0: Tree, t: Tree, s: set<Node>) {
    && t0.Valid() && t.Valid() && t.parent == t0.parent
    && (forall p {:trigger t.kids[p]} | 0 <= p < |t.kids| :: t.kids[p] == Keep(t0.kids[p], s))
    && (forall p {:trigger t.kids[p]} | 0 <= p < |t.kids| && p !in s :: t.kids[p] == [])
  }

  /** Of the subtree of a linked node the linked nodes are left, of a released node's nothing. */
  lemma {:induction false} PreLeft(t0: Tree, t: Tree, s: set<Node>, n: Node)
    requires LeftOf(t0, t, s) && t0.Has(n)
    ensures Keep(t0.Pre(n), s) == if n in s then t.Pre(n) else []
    ensures Keep(t0.Post(n), s) == if n in s then t.Post(n) else []
    decreases |t0.parent| - n, |t0.kids[n]| + 1
  {
    FromLeft(t0, t, s, n, 0);
    assert t0.kids[n][..0] == [];
    KeepAppend([n], t0.PreFrom(n, 0), s);
    KeepAppend(t0.PostFrom(n, 0), [n], s);
    KeepOne(n, s);
  }

  lemma {:induction false} FromLeft(t0: Tree, t: Tree, s: set<Node>, p: Node, i: nat)
    requires LeftOf(t0, t, s) && t0.Has(p) && i <= |t0.kids[p]|
    ensures var j := |Keep(t0.kids[p][..i], s)|;
      j <= |t.kids[p]| && t.PreFrom(p, j) == Keep(t0.PreFrom(p, i), s) && t.PostFrom(p, j) == Keep(t0.PostFrom(p, i), s)
    decreases |t0.parent| - p, |t0.kids[p]| - i
  {
    hide Keep;
    KeptEntry(t0.kids[p], s, i);
    if i < |t0.kids[p]| {
      var c := t0.kids[p][i];
      FromLeft(t0, t, s, p, i + 1);
      PreLeft(t0, t, s, c);
      KeepAppend(t0.Pre(c), t0.PreFrom(p, i + 1), s);
      KeepAppend(t0.Post(c), t0.PostFrom(p, i + 1), s);
    } else {
      KeepNothing(s);
    }
  }

  lemma KeepNothing(s: set<Node>)
    ensures Keep([], s) == []
  {}

  /** Where entry i of a list is among those that are left. */
  lemma KeptEntry(ks: seq<Node>, s: set<Node>, i: nat)
    requires i <= |ks|
    ensures var j := |Keep(ks[..i], s)|;
      && j <= |Keep(ks, s)| && (i == |ks| ==> j == |Keep(ks, s)|)
      && (i < |ks| ==> |Keep(ks[..i + 1], s)| == if ks[i] in s then j + 1 else j)
      && (i < |ks| && ks[i] in s ==> j < |Keep(ks, s)| && Keep(ks, s)[j] == ks[i])
  {
    KeepAppend(ks[..i], ks[i..], s);
    assert ks == ks[..i] + ks[i..];
    if i < |ks| {
      assert ks[..i + 1] == ks[..i] + [ks[i]];
      KeepAppend(ks[..i], [ks[i]], s);
      KeepOne(ks[i], s);
    }
  }

  lemma {:induction false} UpToLeft(ks: seq<Node>, s: set<Node>, n: Node)
    requires Ascends(ks)
    ensures UpTo(Keep(ks, s), n) == |Keep(ks[..UpTo(ks, n)], s)|
  {
    if ks != [] {
      UpToLeft(ks[1..], s, n);
      if ks[0] <= n {
        var q := ks[..UpTo(ks, n)];
        assert q[0] == ks[0] && q[1..] == ks[1..][..UpTo(ks[1..], n)];
        assert Keep(q, s) == (if ks[0] in s then [ks[0]] else []) + Keep(q[1..], s);
        if ks[0] in s {
          assert Keep(ks, s)[0] == ks[0] && Keep(ks, s)[1..] == Keep(ks[1..], s);
        } else {
          assert Keep(ks, s) == Keep(ks[1..], s) && Keep(q, s) == Keep(q[1..], s);
        }
      } else {
        NoneUpTo(ks, s, n);
      }
    }
  }

  lemma {:induction false} NoneUpTo(ks: seq<Node>, s: set<Node>, n: Node)
    requires forall k | 0 <= k < |ks| :: ks[k] > n
    ensures UpTo(Keep(ks, s), n) == 0
  {
    if ks != [] { NoneUpTo(ks[1..], s, n); }
  }

  /** The later siblings of n, linked or not, that are left. */
  lemma LaterLeft(t0: Tree, t: Tree, s: set<Node>, n: Node)
    requires LeftOf(t0, t, s) && t0.Has(n) && t0.Linked(n)
    ensures var p, i := t0.parent[n], t0.Index(n) + 1;
      var j := UpTo(t.kids[p], n);
      t.PreFrom(p, j) == Keep(t0.PreFrom(p, i), s) && t.PostFrom(p, j) == Keep(t0.PostFrom(p, i), s)
  {
    var p := t0.parent[n];
    assert Ascends(t0.kids[p]) && t.kids[p] == Keep(t0.kids[p], s);
    LinkedUpTo(t0, n);
    UpToLeft(t0.kids[p], s, n);
    FromLeft(t0, t, s, p, t0.Index(n) + 1);
  }

  /**
   A pre-order walk goes on from a released cursor with exactly the nodes that are left of
   what came after it while it was linked.
  */
  lemma {:induction false} ReleasedCursor(t0: Tree, t: Tree, s: set<Node>, root: Node, n: Node)
    requires LeftOf(t0, t, s) && t0.Has(n) && t0.Below(root, n)
    ensures Under(t.parent, root, n) && t.LaterPre(root, n) == Keep(t0.AfterPre(root, n), s)
    decreases n
  {
    hide LeftOf, Tree.PreFrom;
    SameParents(t0, t, s);
    BelowIsUnder(t0, root, n);
    if n != root {
      var p := t0.parent[n];
      ReleasedCursor(t0, t, s, root, p);
      LaterLeft(t0, t, s, n);
      KeepAppend(t0.PreFrom(p, t0.Index(n) + 1), t0.AfterPre(root, p), s);
    }
  }

  lemma SameParents(t0: Tree, t: Tree, s: set<Node>)
    requires LeftOf(t0, t, s)
    ensures t0.Valid() && t.Valid() && t.parent == t0.parent
  {}

  /** So does a post-order walk, as long as the cursor's parent is linked. */
  lemma {:induction false} ReleasedPostCursor(t0: Tree, t: Tree, s: set<Node>, root: Node, n: Node)
    requires LeftOf(t0, t, s) && t0.Has(n) && t0.Below(root, n) && (n == root || t0.parent[n] in s)
    ensures Under(t.parent, root, n) && t.LaterPost(root, n) == Keep(t0.AfterPost(root, n), s)
    decreases n
  {
    hide LeftOf, Tree.PostFrom;
    SameParents(t0, t, s);
    BelowIsUnder(t0, root, n);
    if n != root {
      var p := t0.parent[n];
      if p != root { ParentLinked(t0, t, s, p); }
      ReleasedPostCursor(t0, t, s, root, p);
      LaterLeft(t0, t, s, n);
      var later := t0.PostFrom(p, t0.Index(n) + 1);
      KeepAppend(later, [p], s);
      KeepAppend(later + [p], t0.AfterPost(root, p), s);
      KeepOne(p, s);
    }
  }

  lemma ParentLinked(t0: Tree, t: Tree, s: set<Node>, p: Node)
    requires LeftOf(t0, t, s) && t0.Has(p) && t0.Linked(p) && p in s
    ensures t0.parent[p] in s
  {
    KeptEntry(t0.kids[t0.parent[p]], s, t0.Index(p));
    assert t.kids[t0.parent[p]] != [];
  }

  // ---------------------------------------------------------------------------
  // A whole walk
  // ---------------------------------------------------------------------------

  lemma Positioned(q: seq<Node>, a: seq<Node>, n: Node, b: seq<Node>, k: nat)
    requires Distinct(q) && k < |q| && q[k] == n && q == a + [n] + b
    ensures Head(b) == if k + 1 < |q| then Some(q[k + 1]) else None
  {
    assert q[|a|] == n;
  }

  /** css_for_each_descendant_pre visits the pre-order of root, one node after the other. */
  lemma PreWalkAdvances(t: Tree, root: Node, k: nat)
    requires t.Shaped() && t.Has(root) && k < |t.Pre(root)|
    ensures var n := t.Pre(root)[k];
      && t.Has(n) && t.Below(root, n)
      && Head(t.PreFrom(n, 0) + t.AfterPre(root, n)) == (if k + 1 < |t.Pre(root)| then Some(t.Pre(root)[k + 1]) else None)
  {
    var n, q := t.Pre(root)[k], t.Pre(root);
    assert n in q;
    PreInRange(t, root, n);
    PreIsSubtree(t, root, n);
    PreDistinct(t, root);
    var before := PreSplits(t, root, n);
    Positioned(q, before, n, t.PreFrom(n, 0) + t.AfterPre(root, n), k);
  }

  lemma PostMember(t: Tree, root: Node, n: Node)
    requires t.Shaped() && t.Has(root) && n in t.Post(root)
    ensures t.Has(n) && t.Below(root, n)
  {
    PostPermutesPre(t, root);
    assert n in multiset(t.Post(root)) && n in multiset(t.Pre(root));
    PreInRange(t, root, n);
    PreIsSubtree(t, root, n);
  }

  /** css_for_each_descendant_post visits the post-order of root. */
  lemma PostWalkAdvances(t: Tree, root: Node, k: nat)
    requires t.Shaped() && t.Has(root) && k < |t.Post(root)|
    ensures var n := t.Post(root)[k];
      && t.Has(n) && t.Below(root, n)
      && Head(t.AfterPost(root, n)) == (if k + 1 < |t.Post(root)| then Some(t.Post(root)[k + 1]) else None)
  {
    var n, q := t.Post(root)[k], t.Post(root);
    PostMember(t, root, n);
    PostDistinct(t, root);
    var before := PostSplits(t, root, n);
    assert q == before + t.PostFrom(n, 0) + [n] + t.AfterPost(root, n);
    Positioned(q, before + t.PostFrom(n, 0), n, t.AfterPost(root, n), k);
  }

  lemma DistinctByCount(q: seq<Node>)
    requires forall x :: multiset(q)[x] <= 1
    ensures Distinct(q)
  {
    forall i, j | 0 <= i < j < |q| ensures q[i] != q[j] {
      var a, b := q[..j], q[j..];
      assert q == a + b;
      assert a[i] in a && b[0] in b;
      assert multiset(q)[q[i]] == multiset(a)[q[i]] + multiset(b)[q[i]];
    }
  }

  lemma {:induction false} CountOfDistinct(q: seq<Node>, x: Node)
    requires Distinct(q)
    ensures multiset(q)[x] <= 1
  {
    if q != [] {
      CountOfDistinct(q[1..], x);
      assert q == [q[0]] + q[1..];
      assert q[0] !in q[1..];
    }
  }

  lemma PostDistinct(t: Tree, n: Node)
    requires t.Shaped() && t.Has(n)
    ensures Distinct(t.Post(n))
  {
    PreDistinct(t, n);
    PostPermutesPre(t, n);
    forall x ensures multiset(t.Post(n))[x] <= 1 { CountOfDistinct(t.Pre(n), x); }
    DistinctByCount(t.Post(n));
  }

  /**
   Replacing the cursor by its rightmost descendant skips exactly the cursor's subtree:
   the walk resumes right after it.
  */
  lemma RightmostSkipsSubtree(t: Tree, root: Node, n: Node, last: Node)
    requires t.Shaped() && t.Has(root) && t.Has(n) && t.Has(last) && t.Below(root, n) && t.Below(root, last)
    requires t.kids[last] == [] && t.AfterPre(root, last) == t.AfterPre(root, n)
    ensures Head(t.PreFrom(last, 0) + t.AfterPre(root, last)) == Head(t.AfterPre(root, n))
    ensures exists before :: t.Pre(root) == before + t.Pre(n) + t.AfterPre(root, n)
  {
    var before := PreSplits(t, root, n);
    assert t.PreFrom(last, 0) == [];
  }

  /** pos = css_rightmost_descendant(pos); continue; in a pre-order walk. */
  method SkipSubtree(t: Tree, root: Node, pos: Node) returns (next: Option<Node>)
    requires t.Valid() && t.Has(root) && t.Has(pos) && t.Below(root, pos)
    ensures next == Head(t.AfterPre(root, pos))
  {
    var last := RightmostDescendant(t, pos);
    next := NextPre(t, last, root);
    RightmostSkipsSubtree(t, root, pos, last);
  }

  /** What a pre-order walk of root still has to visit, its cursor being at pos. */
  ghost predicate Remaining(t: Tree, root: Node, pos: Option<Node>, rest: seq<Node>)
    requires t.Shaped() && t.Has(root)
  {
    match pos
    case None => rest == []
    case Some(n) => t.Has(n) && t.Below(root, n) && rest == t.Pre(n) + t.AfterPre(root, n)
  }

  lemma {:induction false} AfterPreRemaining(t: Tree, root: Node, n: Node)
    requires t.Shaped() && t.Has(root) && t.Has(n) && t.Below(root, n)
    ensures Remaining(t, root, Head(t.AfterPre(root, n)), t.AfterPre(root, n))
    decreases n
  {
    if n != root {
      var p, i := t.parent[n], t.Index(n) + 1;
      if i < |t.kids[p]| {
        SiblingRemaining(t, root, p, i);
      } else {
        AfterPreRemaining(t, root, p);
      }
    }
  }

  lemma SiblingRemaining(t: Tree, root: Node, p: Node, i: nat)
    requires t.Shaped() && t.Has(root) && t.Has(p) && t.Below(root, p) && i < |t.kids[p]|
    ensures var q := t.PreFrom(p, i) + t.AfterPre(root, p); Remaining(t, root, Head(q), q)
  {
    var c := t.kids[p][i];
    var later, after := t.PreFrom(p, i + 1), t.AfterPre(root, p);
    assert Distinct(t.kids[p]) && t.parent[c] == p;
    BelowAbove(t, root, p);
    assert t.Linked(c) && t.Below(root, c) && t.Index(c) == i;
    assert t.AfterPre(root, c) == later + after && t.PreFrom(p, i) == t.Pre(c) + later;
    hide Tree.Pre, Tree.PreFrom, Tree.AfterPre, Tree.Below, Tree.Shaped;
    HeadsFrom(t, p, i);
    HeadAppend(t.PreFrom(p, i), after);
    Assoc(t.Pre(c), later, after);
  }

  /** One step of the walk: the cursor's node leaves the rest. */
  lemma StepRemaining(t: Tree, root: Node, n: Node)
    requires t.Shaped() && t.Has(root) && t.Has(n) && t.Below(root, n)
    ensures var q := t.PreFrom(n, 0) + t.AfterPre(root, n);
      t.Pre(n) + t.AfterPre(root, n) == [n] + q && Remaining(t, root, Head(q), q)
  {
    var own, after := t.PreFrom(n, 0), t.AfterPre(root, n);
    assert t.Pre(n) == [n] + own && (t.kids[n] == [] ==> own == []);
    hide Tree.Pre, Tree.PreFrom, Tree.AfterPre, Tree.Below, Remaining;
    Assoc([n], own, after);
    if t.kids[n] == [] {
      AfterPreRemaining(t, root, n);
      assert own + after == after;
    } else {
      SiblingRemaining(t, root, n, 0);
    }
  }

  /** The rest of a walk is a suffix of the pre-order, so it has no repetition either. */
  lemma RemainingDistinct(t: Tree, root: Node, n: Node)
    requires t.Shaped() && t.Has(root) && t.Has(n) && t.Below(root, n)
    ensures Distinct(t.Pre(n) + t.AfterPre(root, n))
  {
    var before := PreSplits(t, root, n);
    PreDistinct(t, root);
    var q := t.Pre(n) + t.AfterPre(root, n);
    assert t.Pre(root) == before + q;
    assert forall i | 0 <= i < |q| :: q[i] == t.Pre(root)[|before| + i];
  }

  /** Pre-order visits a parent before its child. */
  lemma ParentBefore(t: Tree, root: Node, k: nat)
    requires t.Shaped() && t.Has(root) && k < |t.Pre(root)|
    ensures var n := t.Pre(root)[k]; t.Has(n) && t.Below(root, n) && (n != root ==> t.parent[n] in t.Pre(root)[..k])
  {
    PreWalkAdvances(t, root, k);
    var q, n := t.Pre(root), t.Pre(root)[k];
    PreDistinct(t, root);
    var before := PreSplits(t, root, n);
    assert t.Pre(n)[0] == n;
    assert q[|before|] == n;
    assert q[..k] == before;
  }

  /** Post-order visits the children of its k-th node before it. */
  lemma KidsBefore(t: Tree, root: Node, k: nat, c: Node)
    requires t.Shaped() && t.Has(root) && k < |t.Post(root)|
    ensures var n := t.Post(root)[k]; t.Has(n) && (c in t.kids[n] ==> c in t.Post(root)[..k])
  {
    var q, n := t.Post(root), t.Post(root)[k];
    PostMember(t, root, n);
    if c in t.kids[n] {
      PostDistinct(t, root);
      var before := PostSplits(t, root, n);
      var own, after := t.PostFrom(n, 0), t.AfterPost(root, n);
      assert q == before + (own + [n]) + after;
      var i :| 0 <= i < |t.kids[n]| && t.kids[n][i] == c;
      PostFromHas(t, n, 0, i);
      hide Tree.Post, Tree.PostFrom, Tree.AfterPost, Tree.Below, Tree.Shaped;
      PrefixTo(q, before + own, n, after, k);
    }
  }

  lemma PrefixTo(q: seq<Node>, a: seq<Node>, n: Node, b: seq<Node>, k: nat)
    requires Distinct(q) && k < |q| && q[k] == n && q == a + [n] + b
    ensures q[..k] == a
  {
    assert q[|a|] == n;
  }

  lemma {:induction false} PostFromHas(t: Tree, p: Node, i: nat, j: nat)
    requires t.Shaped() && t.Has(p) && i <= j < |t.kids[p]|
    ensures t.kids[p][j] in t.PostFrom(p, i)
    decreases j - i
  {
    if i < j { PostFromHas(t, p, i + 1, j); }
  }

  /** The cursor's node is first in what remains, and only there. */
  lemma CursorFirst(t: Tree, root: Node, n: Node)
    requires t.Shaped() && t.Has(root) && t.Has(n) && t.Below(root, n)
    ensures var rest, rest' := t.Pre(n) + t.AfterPre(root, n), t.PreFrom(n, 0) + t.AfterPre(root, n);
      rest == [n] + rest' && n !in rest'
  {
    var rest, rest' := t.Pre(n) + t.AfterPre(root, n), t.PreFrom(n, 0) + t.AfterPre(root, n);
    RemainingDistinct(t, root, n);
    assert rest == [n] + rest';
    assert rest[0] == n;
    forall i | 0 <= i < |rest'| ensures rest'[i] != n {
      assert rest'[i] == rest[i + 1];
    }
  }

  /** css_for_each_descendant_pre, run to the end, visits pre-order. */
  method ForEachDescendantPre(t: Tree, root: Node) returns (visited: seq<Node>)
    requires t.Valid() && t.Has(root)
    ensures visited == t.Pre(root)
    ensures forall i | 0 <= i < |visited| :: t.Has(visited[i]) && t.Below(root, visited[i])
    ensures forall x: Node | t.Has(x) && t.Below(root, x) :: x in visited
  {
    visited := [];
    var pos := NextDescendantPre(t, None, root);
    ghost var rest := t.Pre(root);
    assert t.AfterPre(root, root) == [] && rest == rest + [];
    assert Remaining(t, root, pos, rest);
    hide Tree.Pre, Tree.PreFrom, Tree.AfterPre, Tree.Below, Tree.Valid;
    while pos.Some?
      invariant Remaining(t, root, pos, rest)
      invariant visited + rest == t.Pre(root)
      decreases |rest|
    {
      StepRemaining(t, root, pos.value);
      rest := t.PreFrom(pos.value, 0) + t.AfterPre(root, pos.value);
      Assoc(visited, [pos.value], rest);
      visited := visited + [pos.value];
      pos := NextPre(t, pos.value, root);
    }
    PreEnumerates(t, root);
  }

  /** css_for_each_descendant_post, run to the end, visits post-order. */
  method ForEachDescendantPost(t: Tree, root: Node) returns (visited: seq<Node>)
    requires t.Valid() && t.Has(root)
    ensures visited == t.Post(root)
    ensures forall i | 0 <= i < |visited| :: t.Has(visited[i]) && t.Below(root, visited[i])
    ensures forall x: Node | t.Has(x) && t.Below(root, x) :: x in visited
  {
    PostEnumerates(t, root);
    visited := [];
    var pos := NextDescendantPost(t, None, root);
    assert t.Post(root) != [];
    while pos.Some?
      invariant |visited| <= |t.Post(root)| && visited == t.Post(root)[..|visited|]
      invariant pos == if |visited| < |t.Post(root)| then Some(t.Post(root)[|visited|]) else None
      decreases |t.Post(root)| - |visited|
    {
      PostWalkAdvances(t, root, |visited|);
      visited := visited + [pos.value];
      pos := NextPost(t, pos.value, root);
    }
  }

  // ---------------------------------------------------------------------------
  // Walks that carry a change downwards
  // ---------------------------------------------------------------------------

  /** Every node on a sibling list is in ok, save one. */
  ghost predicate AllBut(t: Tree, ok: set<Node>, except: set<Node>)
    requires t.Valid()
  {
    forall n: Node | t.Has(n) && t.Linked(n) && n !in except :: n in ok
  }

  /**
   The state of such a walk: a node that disagrees is still to be visited and its
   parent is not, because only visited parents have changed.
  */
  ghost predicate Walking(t: Tree, ok: set<Node>, rest: seq<Node>)
    requires t.Valid()
  {
    forall n: Node | t.Has(n) && t.Linked(n) && n !in ok :: n in rest && t.parent[n] !in rest
  }

  lemma WalkStarts(t: Tree, ok: set<Node>, cs: Node)
    requires t.Valid() && 0 < cs && t.Has(cs) && t.Linked(cs) && AllBut(t, ok, {cs})
    ensures Walking(t, ok, t.Pre(cs))
  {
    PreEnumerates(t, cs);
    if t.parent[cs] in t.Pre(cs) {
      BelowAbove(t, cs, t.parent[cs]);
    }
  }

  /** A node that agrees although it may be visited: its subtree agrees and may be skipped. */
  lemma SkipKeepsWalking(t: Tree, ok: set<Node>, root: Node, n: Node)
    requires t.Valid() && t.Has(root) && t.Has(n) && t.Linked(n) && t.Below(root, n) && n in ok
    requires Walking(t, ok, t.Pre(n) + t.AfterPre(root, n))
    ensures Walking(t, ok, t.AfterPre(root, n))
    ensures Remaining(t, root, Head(t.AfterPre(root, n)), t.AfterPre(root, n))
  {
    forall x: Node | t.Has(x) && t.Linked(x) && x !in ok
      ensures x in t.AfterPre(root, n) && t.parent[x] !in t.AfterPre(root, n)
    {
      PreEnumerates(t, n);
    }
    AfterPreRemaining(t, root, n);
  }

  /** A visited node agrees afterwards; only its children may now disagree, and they come next. */
  lemma VisitKeepsWalking(t: Tree, ok: set<Node>, ok': set<Node>, root: Node, n: Node)
    requires t.Valid() && t.Has(root) && t.Has(n) && t.Linked(n) && t.Below(root, n)
    requires Walking(t, ok, t.Pre(n) + t.AfterPre(root, n))
    requires n in ok' && forall x: Node | t.Has(x) && t.Linked(x) && x in ok && t.parent[x] != n :: x in ok'
    ensures var rest := t.PreFrom(n, 0) + t.AfterPre(root, n);
      Walking(t, ok', rest) && Remaining(t, root, Head(rest), rest) && |rest| < |t.Pre(n) + t.AfterPre(root, n)|
  {
    var rest, rest' := t.Pre(n) + t.AfterPre(root, n), t.PreFrom(n, 0) + t.AfterPre(root, n);
    StepRemaining(t, root, n);
    RemainingDistinct(t, root, n);
    assert rest[0] == n && forall i | 0 <= i < |rest'| :: rest[i + 1] == rest'[i];
    forall x: Node | t.Has(x) && t.Linked(x) && x !in ok' ensures x in rest' && t.parent[x] !in rest' {
      if t.parent[x] == n {
        ChildComesNext(t, n, x);
      }
    }
  }

  lemma ChildComesNext(t: Tree, n: Node, x: Node)
    requires t.Valid() && t.Has(n) && t.Has(x) && t.Linked(x) && t.parent[x] == n
    ensures x in t.PreFrom(n, 0)
  {
    PreFromIsSubtree(t, n, 0, x);
    assert t.kids[n][t.Index(x)] == x && t.Below(x, x);
  }
}
