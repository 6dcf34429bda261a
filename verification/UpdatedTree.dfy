/**
 The per-CPU updated tree of rstat.c. updated_children of a cgroup heads a singly linked
 list through updated_next that ends in the cgroup itself, so updated_next is NULL
 exactly for the cgroups that are on no list.
*/
module UpdatedTree {
  import opened CgroupTree

  /** The links from first thread ks and then reach end. */
  ghost predicate Chain(next: seq<Option<Node>>, first: Node, ks: seq<Node>, end: Node)
    decreases |ks|
  {
    if ks == [] then first == end
    else first == ks[0] && first < |next| && next[first].Some? && Chain(next, next[first].value, ks[1..], end)
  }

  /** Every list is headed by updated_children and terminated by its owner. */
  ghost predicate Chained(next: seq<Option<Node>>, children: seq<Node>, kids: seq<seq<Node>>) {
    && |children| == |kids|
    && forall p {:trigger Chain(next, children[p], kids[p], p)} | 0 <= p < |kids| :: Chain(next, children[p], kids[p], p)
  }

  ghost predicate NonNullIffLinked(next: seq<Option<Node>>, t: Tree)
    requires t.Shaped()
  {
    && |next| == |t.parent|
    && forall n {:trigger next[n]} | 0 <= n < |next| :: next[n].Some? <==> t.Linked(n)
  }

  ghost predicate ClosedAt(t: Tree, p: Node, gap: Node)
    requires t.Shaped() && t.Has(p)
  {
    0 < p && t.kids[p] != [] ==> p == gap || t.Linked(p)
  }

  /** The non-root ancestors of a member are members, save that gap may be missing (0: none is). */
  ghost predicate Closed(t: Tree, gap: Node)
    requires t.Shaped()
  {
    forall p {:trigger ClosedAt(t, p, gap)} | 0 <= p < |t.kids| :: ClosedAt(t, p, gap)
  }

  // ---------------------------------------------------------------------------
  // Adding to the head of a list
  // ---------------------------------------------------------------------------

  ghost function Push(t: Tree, n: Node): Tree
    requires t.Shaped() && t.Has(n) && 0 < n
  {
    t.(kids := t.kids[t.parent[n] := [n] + t.kids[t.parent[n]]])
  }

  /** n and its ancestors, up to the first one already on a list, each at the head of its list. */
  ghost function AddPath(t: Tree, n: Node): Tree
    requires t.Shaped() && t.Has(n)
    decreases n
  {
    if n == 0 || t.Linked(n) then t
    else PushShaped(t, n); AddPath(Push(t, n), t.parent[n])
  }

  lemma PushShaped(t: Tree, n: Node)
    requires t.Shaped() && t.Has(n) && 0 < n && !t.Linked(n)
    ensures Push(t, n).Shaped()
    ensures forall m | t.Has(m) :: Push(t, n).Linked(m) <==> m == n || t.Linked(m)
  {
    var p := t.parent[n];
    assert Distinct(t.kids[p]);
    var ks := Push(t, n).kids;
    assert Distinct(ks[p]);
    forall q | 0 <= q < |ks| ensures Distinct(ks[q]) {
      assert Distinct(t.kids[q]);
    }
  }

  lemma {:induction false} ChainFrame(next: seq<Option<Node>>, next': seq<Option<Node>>, first: Node, ks: seq<Node>, end: Node)
    requires Chain(next, first, ks, end) && |next'| == |next|
    requires forall n | n in ks && n < |next| :: next'[n] == next[n]
    ensures Chain(next', first, ks, end)
    decreases |ks|
  {
    if ks != [] {
      ChainFrame(next, next', next[first].value, ks[1..], end);
    }
  }

  /** The links along a chain, entry by entry. */
  lemma {:induction false} ChainAt(next: seq<Option<Node>>, first: Node, ks: seq<Node>, end: Node, k: nat)
    requires Chain(next, first, ks, end) && k < |ks|
    ensures ks[k] < |next| && next[ks[k]] == Some(if k + 1 < |ks| then ks[k + 1] else end)
    decreases k
  {
    if k > 0 { ChainAt(next, next[first].value, ks[1..], end, k - 1); }
  }

  lemma PushChained(next: seq<Option<Node>>, children: seq<Node>, t: Tree, n: Node)
    requires t.Shaped() && t.Has(n) && 0 < n && !t.Linked(n) && |next| == |t.parent|
    requires Chained(next, children, t.kids)
    ensures var p := t.parent[n]; Chained(next[n := Some(children[p])], children[p := n], Push(t, n).kids)
  {
    var p := t.parent[n];
    var next', children', kids' := next[n := Some(children[p])], children[p := n], Push(t, n).kids;
    forall q | 0 <= q < |kids'| ensures Chain(next', children'[q], kids'[q], q) {
      assert Chain(next, children[q], t.kids[q], q);
      forall i | 0 <= i < |t.kids[q]| ensures t.kids[q][i] != n {
        assert t.kids[q][i] in t.kids[q];
      }
      ChainFrame(next, next', children[q], t.kids[q], q);
      if q == p {
        assert kids'[p][1..] == t.kids[p];
      }
    }
  }

  lemma PushClosed(t: Tree, n: Node)
    requires t.Shaped() && t.Has(n) && 0 < n && !t.Linked(n) && Closed(t, n)
    ensures Push(t, n).Shaped() && Closed(Push(t, n), t.parent[n])
  {
    PushShaped(t, n);
    var t', p := Push(t, n), t.parent[n];
    forall q | 0 <= q < |t'.kids| ensures ClosedAt(t', q, p) {
      assert ClosedAt(t, q, n);
    }
  }

  /** Only nodes on the path of n are added, and n is; no member is lost. */
  lemma {:induction false} AddPathLinks(t: Tree, n: Node, m: Node)
    requires t.Shaped() && t.Has(n) && t.Has(m)
    ensures AddPath(t, n).Shaped() && AddPath(t, n).parent == t.parent
    ensures t.Linked(m) ==> AddPath(t, n).Linked(m)
    ensures 0 < n ==> AddPath(t, n).Linked(n)
    ensures AddPath(t, n).Linked(m) ==> t.Linked(m) || (0 < m && Under(t.parent, m, n))
    decreases n
  {
    if n != 0 && !t.Linked(n) {
      PushShaped(t, n);
      AddPathLinks(Push(t, n), t.parent[n], m);
      AddPathLinks(Push(t, n), t.parent[n], n);
    }
  }

  /** Where the ancestors of a member are members, the members are then the old ones and the whole path of n. */
  lemma {:induction false} AddPathIsPath(t: Tree, n: Node, m: Node)
    requires t.Shaped() && t.Has(n) && t.Has(m) && Closed(t, n)
    ensures AddPath(t, n).Shaped() && AddPath(t, n).parent == t.parent
    ensures AddPath(t, n).Linked(m) <==> t.Linked(m) || (0 < m && Under(t.parent, m, n))
    decreases n
  {
    AddPathLinks(t, n, m);
    if n == 0 {
      assert !Under(t.parent, m, 0) || m == 0;
    } else if t.Linked(n) {
      if Under(t.parent, m, n) && 0 < m { AboveLinked(t, n, m); }
    } else {
      PushClosed(t, n);
      PushShaped(t, n);
      AddPathIsPath(Push(t, n), t.parent[n], m);
    }
  }

  lemma {:induction false} AboveLinked(t: Tree, n: Node, m: Node)
    requires t.Shaped() && t.Has(n) && t.Linked(n) && Closed(t, n) && 0 < m && Under(t.parent, m, n)
    ensures t.Has(m) && t.Linked(m)
    decreases n
  {
    var p := t.parent[n];
    if m != n {
      assert ClosedAt(t, p, n);
      forall q | 0 <= q < |t.kids| ensures ClosedAt(t, q, p) {
        assert ClosedAt(t, q, n);
      }
      AboveLinked(t, p, m);
    }
  }

  /** A list gets at most one new entry, at its head, which is the node of the path there. */
  lemma {:induction false} AddPathLists(t: Tree, n: Node, p: Node)
    requires t.Shaped() && t.Has(n) && t.Has(p)
    ensures AddPath(t, n).Shaped() && AddPath(t, n).parent == t.parent && p < |AddPath(t, n).kids|
    ensures var ks, ks' := t.kids[p], AddPath(t, n).kids[p];
      ks' == ks || (ks' != [] && ks'[1..] == ks && ks'[0] !in ks && t.Has(ks'[0]) && Under(t.parent, ks'[0], n))
    ensures p >= n ==> AddPath(t, n).kids[p] == t.kids[p]
    decreases n
  {
    if n != 0 && !t.Linked(n) {
      PushShaped(t, n);
      AddPathLists(Push(t, n), t.parent[n], p);
    }
  }

  // ---------------------------------------------------------------------------
  // Taking one entry out of a list
  // ---------------------------------------------------------------------------

  ghost function Unlink(t: Tree, n: Node): Tree
    requires t.Shaped() && t.Has(n) && t.Linked(n)
  {
    var p, k := t.parent[n], t.Index(n);
    t.(kids := t.kids[p := t.kids[p][..k] + t.kids[p][k + 1..]])
  }

  lemma DropEntry(ks: seq<Node>, k: nat)
    requires Distinct(ks) && k < |ks|
    ensures var ks' := ks[..k] + ks[k + 1..];
      Distinct(ks') && forall m :: m in ks' <==> m in ks && m != ks[k]
  {
    var ks' := ks[..k] + ks[k + 1..];
    assert forall i | 0 <= i < |ks'| :: ks'[i] == ks[if i < k then i else i + 1];
    forall m | m in ks ensures m in ks' <==> m != ks[k] {
      var i :| 0 <= i < |ks| && ks[i] == m;
      if i < k { assert ks'[i] == m; } else if i > k { assert ks'[i - 1] == m; }
    }
  }

  lemma UnlinkShaped(t: Tree, n: Node)
    requires t.Shaped() && t.Has(n) && t.Linked(n)
    ensures Unlink(t, n).Shaped()
    ensures forall m | t.Has(m) :: Unlink(t, n).Linked(m) <==> m != n && t.Linked(m)
  {
    var p := t.parent[n];
    assert Distinct(t.kids[p]);
    DropEntry(t.kids[p], t.Index(n));
    forall q | 0 <= q < |t.kids| ensures Distinct(Unlink(t, n).kids[q]) {
      assert Distinct(t.kids[q]);
    }
  }

  /** The list after *nextp, the slot holding entry k, is redirected past that entry. */
  lemma {:induction false} ChainUnlink(next: seq<Option<Node>>, first: Node, ks: seq<Node>, end: Node, k: nat)
    requires Chain(next, first, ks, end) && Distinct(ks) && k < |ks| && ks[k] < |next| && next[ks[k]].Some?
    requires forall i | 0 <= i < |ks| :: ks[i] < |next|
    ensures var n := ks[k];
      Chain((if k == 0 then next else next[ks[k - 1] := next[n]])[n := None],
            if k == 0 then next[n].value else first, ks[..k] + ks[k + 1..], end)
    decreases k
  {
    var n := ks[k];
    var rest := ks[..k] + ks[k + 1..];
    if k == 0 {
      assert rest == ks[1..];
      ChainFrame(next, next[n := None], next[n].value, ks[1..], end);
    } else {
      assert ks[1..][k - 1] == n;
      ChainUnlink(next, next[first].value, ks[1..], end, k - 1);
      assert rest[1..] == ks[1..][..k - 1] + ks[1..][k..];
      if k == 1 {
        ChainFrame(next[n := None], next[first := next[n]][n := None], next[n].value, rest[1..], end);
      } else {
        assert ks[1..][k - 2] == ks[k - 1];
      }
    }
  }

  lemma UnlinkChained(next: seq<Option<Node>>, children: seq<Node>, t: Tree, n: Node)
    requires t.Shaped() && t.Has(n) && t.Linked(n) && NonNullIffLinked(next, t)
    requires Chained(next, children, t.kids)
    ensures var p, k := t.parent[n], t.Index(n);
      var slot := next[n];
      Chained((if k == 0 then next else next[t.kids[p][k - 1] := slot])[n := None],
              if k == 0 then children[p := slot.value] else children, Unlink(t, n).kids)
  {
    var p, k := t.parent[n], t.Index(n);
    var next' := (if k == 0 then next else next[t.kids[p][k - 1] := next[n]])[n := None];
    var children' := if k == 0 then children[p := next[n].value] else children;
    var kids' := Unlink(t, n).kids;
    forall q | 0 <= q < |kids'| ensures Chain(next', children'[q], kids'[q], q) {
      assert Chain(next, children[q], t.kids[q], q);
      if q == p {
        assert Distinct(t.kids[p]);
        ChainUnlink(next, children[p], t.kids[p], p, k);
      } else {
        forall i | 0 <= i < |t.kids[q]| ensures t.parent[t.kids[q][i]] == q {}
        ChainFrame(next, next', children[q], t.kids[q], q);
      }
    }
  }

  lemma UnlinkClosed(t: Tree, n: Node)
    requires t.Shaped() && t.Has(n) && t.Linked(n) && t.kids[n] == [] && Closed(t, 0)
    ensures Unlink(t, n).Shaped() && Closed(Unlink(t, n), 0)
  {
    UnlinkShaped(t, n);
    forall q | 0 <= q < |t.kids| ensures ClosedAt(Unlink(t, n), q, 0) {
      assert ClosedAt(t, q, 0);
    }
  }

  // ---------------------------------------------------------------------------
  // The traversal that dismantles a subtree in post-order
  // ---------------------------------------------------------------------------

  /** Always taking the first child from root leads to q. */
  ghost predicate OnLeft(t: Tree, root: Node, q: Node)
    requires t.Shaped() && t.Has(q)
    decreases q
  {
    q == root || (root < q && t.Linked(q) && t.kids[t.parent[q]][0] == q && OnLeft(t, root, t.parent[q]))
  }

  lemma {:induction false} OnLeftBelow(t: Tree, root: Node, q: Node)
    requires t.Shaped() && t.Has(q) && OnLeft(t, root, q)
    ensures t.Below(root, q) && t.Post(root)[0] == t.Post(q)[0]
    decreases q
  {
    if q != root {
      OnLeftBelow(t, root, t.parent[q]);
      HeadsFrom(t, t.parent[q], 0);
    }
  }

  /** The first child of root on the way to q. */
  lemma {:induction false} OnLeftTop(t: Tree, root: Node, q: Node)
    requires t.Shaped() && t.Has(q) && OnLeft(t, root, q) && q != root
    ensures t.kids[root] != [] && root < t.kids[root][0] && OnLeft(t, t.kids[root][0], q)
    decreases q
  {
    if t.parent[q] != root {
      OnLeftTop(t, root, t.parent[q]);
      OnLeftBelow(t, t.kids[root][0], t.parent[q]);
      BelowAbove(t, t.kids[root][0], t.parent[q]);
    }
  }

  /** The lists of t' are those of t except for p's. */
  ghost predicate SameBut(t: Tree, t': Tree, p: Node) {
    t.Shaped() && t'.Shaped() && t'.parent == t.parent && forall q | 0 <= q < |t.kids| && q != p :: t'.kids[q] == t.kids[q]
  }

  lemma {:induction false} PostFrame(t: Tree, t': Tree, p: Node, n: Node)
    requires SameBut(t, t', p) && t.Has(n) && p !in t.Post(n)
    ensures t'.Post(n) == t.Post(n)
    decreases |t.parent| - n, |t.kids[n]| + 1
  {
    assert n in t.Post(n);
    PostFromFrame(t, t', p, n, 0);
  }

  lemma {:induction false} PostFromFrame(t: Tree, t': Tree, p: Node, n: Node, i: nat)
    requires SameBut(t, t', p) && t.Has(n) && n != p && i <= |t.kids[n]| && p !in t.PostFrom(n, i)
    ensures t'.PostFrom(n, i) == t.PostFrom(n, i)
    decreases |t.parent| - n, |t.kids[n]| - i
  {
    if i < |t.kids[n]| {
      PostFrame(t, t', p, t.kids[n][i]);
      PostFromFrame(t, t', p, n, i + 1);
    }
  }

  /** Dropping the first entry of p's list shifts the subtrees that follow it. */
  lemma {:induction false} PostFromShift(t: Tree, t': Tree, p: Node, i: nat)
    requires SameBut(t, t', p) && t.Has(p) && t.kids[p] != [] && t'.kids[p] == t.kids[p][1..] && i < |t.kids[p]|
    ensures t'.PostFrom(p, i) == t.PostFrom(p, i + 1)
    decreases |t.kids[p]| - i
  {
    if i + 1 < |t.kids[p]| {
      var c := t.kids[p][i + 1];
      if p in t.Post(c) {
        PostMember(t, c, p);
        BelowAbove(t, c, p);
      }
      PostFrame(t, t', p, c);
      PostFromShift(t, t', p, i + 1);
    }
  }

  lemma UnlinkFirst(t: Tree, q: Node)
    requires t.Shaped() && t.Has(q) && t.Linked(q) && t.kids[t.parent[q]][0] == q
    ensures SameBut(t, Unlink(t, q), t.parent[q]) && Unlink(t, q).kids[t.parent[q]] == t.kids[t.parent[q]][1..]
  {
    UnlinkShaped(t, q);
    assert Distinct(t.kids[t.parent[q]]);
    assert t.Index(q) == 0;
  }

  /** Unlinking the first leaf removes the head of the post-order. */
  lemma {:induction false} UnlinkPost(t: Tree, root: Node, q: Node)
    requires t.Shaped() && t.Has(q) && OnLeft(t, root, q) && q != root && t.kids[q] == []
    ensures Unlink(t, q).Shaped() && [q] + Unlink(t, q).Post(root) == t.Post(root)
    decreases q - root
  {
    OnLeftTop(t, root, q);
    OnLeftBelow(t, root, q);
    UnlinkFirst(t, q);
    var t', p, c := Unlink(t, q), t.parent[q], t.kids[root][0];
    if c == q {
      PostFromShift(t, t', root, 0);
      assert t.Post(c) == [q];
    } else {
      OnLeftBelow(t, c, q);
      BelowAbove(t, c, q);
      UnlinkPost(t, c, q);
      OnLeftBelow(t, c, p);
      RestUnchanged(t, t', root, p);
      var rest := t.PostFrom(root, 1);
      assert t.Post(root) == t.Post(c) + rest + [root] && t'.Post(root) == t'.Post(c) + rest + [root];
      hide Tree.Post, Tree.PostFrom, Tree.Below, Tree.Shaped, OnLeft, Unlink;
      Assoc([q], t'.Post(c), rest);
      Assoc([q], t'.Post(c) + rest, [root]);
    }
  }

  lemma RestUnchanged(t: Tree, t': Tree, root: Node, p: Node)
    requires SameBut(t, t', p) && t.Has(root) && t.kids[root] != [] && root < p && t.Has(p) && t.Below(t.kids[root][0], p)
    ensures t'.PostFrom(root, 1) == t.PostFrom(root, 1)
  {
    var c := t.kids[root][0];
    PostEnumerates(t, c);
    PostDistinct(t, root);
    var a, b := t.Post(c), t.PostFrom(root, 1);
    assert t.Post(root) == a + b + [root];
    if p in b {
      var i, j :| 0 <= i < |a| && a[i] == p && 0 <= j < |b| && b[j] == p;
      assert t.Post(root)[i] == t.Post(root)[|a| + j];
    }
    PostFromFrame(t, t', p, root, 1);
  }

  /** The head of the post-order is the leaf at the end of the first children. */
  lemma {:induction false} FirstLeaf(t: Tree, n: Node)
    requires t.Shaped() && t.Has(n)
    ensures var q := t.Post(n)[0]; t.Has(q) && t.kids[q] == [] && OnLeft(t, n, q)
    decreases |t.parent| - n
  {
    if t.kids[n] != [] {
      var c := t.kids[n][0];
      HeadsFrom(t, n, 0);
      FirstLeaf(t, c);
      OnLeftExtends(t, n, t.Post(c)[0]);
    }
  }

  lemma {:induction false} OnLeftExtends(t: Tree, n: Node, q: Node)
    requires t.Shaped() && t.Has(n) && t.Has(q) && t.kids[n] != [] && OnLeft(t, t.kids[n][0], q)
    ensures OnLeft(t, n, q)
    decreases q
  {
    if q == t.kids[n][0] {
      assert OnLeft(t, n, n);
    } else {
      OnLeftExtends(t, n, t.parent[q]);
    }
  }

  /** What one call of cgroup_rstat_cpu_pop_updated returns, starting somewhere on the left path of root. */
  ghost function Popped(t: Tree, root: Node): (r: Option<Node>)
    requires t.Shaped() && t.Has(root)
    ensures r.Some? ==> t.Has(r.value) && t.Linked(r.value) && t.Below(root, r.value) && t.kids[r.value] == []
    ensures r.None? ==> t.kids[root] == [] && !t.Linked(root)
  {
    FirstLeaf(t, root);
    var q := t.Post(root)[0];
    OnLeftBelow(t, root, q);
    if t.Linked(q) then Some(q) else None
  }

  /** Where a traversal of root that has just returned pos continues. */
  ghost predicate Resumable(t: Tree, root: Node, pos: Option<Node>)
    requires t.Shaped()
  {
    match pos
    case None => true
    case Some(q) => q == root || (root < q && t.Has(q) && OnLeft(t, root, t.parent[q]))
  }

  lemma PoppedResumes(t: Tree, root: Node)
    requires t.Shaped() && t.Has(root) && Popped(t, root).Some?
    ensures var q := Popped(t, root).value; Unlink(t, q).Shaped() && Resumable(Unlink(t, q), root, Some(q))
  {
    var q := Popped(t, root).value;
    FirstLeaf(t, root);
    UnlinkShaped(t, q);
    if q != root {
      OnLeftUnlink(t, root, q, t.parent[q]);
      UnlinkFirst(t, q);
    }
  }

  lemma {:induction false} OnLeftUnlink(t: Tree, root: Node, q: Node, a: Node)
    requires t.Shaped() && t.Has(q) && t.Has(a) && t.Linked(q) && t.kids[t.parent[q]][0] == q && t.kids[q] == []
    requires OnLeft(t, root, a) && a < q
    ensures Unlink(t, q).Shaped() && OnLeft(Unlink(t, q), root, a)
    decreases a
  {
    UnlinkFirst(t, q);
    if a != root {
      OnLeftUnlink(t, root, q, t.parent[a]);
      UnlinkShaped(t, q);
    }
  }

  /** The nodes a whole traversal of root returns, in order. */
  ghost function Traversal(t: Tree, root: Node): seq<Node>
    requires t.Shaped() && t.Has(root)
  {
    if t.Linked(root) then t.Post(root) else t.PostFrom(root, 0)
  }

  /** Each call returns the next node of the traversal, until None at its end. */
  lemma PoppedIsNext(t: Tree, root: Node)
    requires t.Shaped() && t.Has(root)
    ensures Popped(t, root).None? ==> Traversal(t, root) == []
    ensures Popped(t, root).Some? ==>
      var q := Popped(t, root).value;
      && Unlink(t, q).Shaped()
      && Traversal(t, root) == [q] + (if q == root then [] else Traversal(Unlink(t, q), root))
  {
    if Popped(t, root).Some? {
      var q := Popped(t, root).value;
      FirstLeaf(t, root);
      UnlinkShaped(t, q);
      if q != root {
        UnlinkPost(t, root, q);
        var a, b := t.PostFrom(root, 0), Unlink(t, q).PostFrom(root, 0);
        assert t.Post(root) == a + [root] == [q] + (b + [root]);
        assert a == (a + [root])[..|a|] == [q] + b;
      }
    }
  }

  /** A traversal returns exactly the members of the subtree, each once. */
  lemma TraversalEnumerates(t: Tree, root: Node)
    requires t.Shaped() && t.Has(root)
    ensures Distinct(Traversal(t, root))
    ensures forall x :: x in Traversal(t, root) <==> t.Has(x) && t.Linked(x) && t.Below(root, x)
  {
    PostDistinct(t, root);
    PostEnumerates(t, root);
    var a := t.PostFrom(root, 0);
    assert t.Post(root) == a + [root];
    assert forall i | 0 <= i < |a| :: t.Post(root)[i] == a[i];
    assert t.Post(root)[|a|] == root;
    assert root !in a;
    forall x ensures x in Traversal(t, root) <==> t.Has(x) && t.Linked(x) && t.Below(root, x) {
      assert x in t.Post(root) <==> t.Has(x) && t.Below(root, x);
    }
  }

  /** Children come before their parents. */
  lemma ChildrenFirst(t: Tree, root: Node, i: nat)
    requires t.Shaped() && t.Has(root) && i < |Traversal(t, root)|
    ensures var q := Traversal(t, root)[i];
      t.Has(q) && t.Linked(q) && (q != root && (t.parent[q] != root || t.Linked(root)) ==>
        exists j :: i < j < |Traversal(t, root)| && Traversal(t, root)[j] == t.parent[q])
  {
    var tr := Traversal(t, root);
    var q := tr[i];
    assert q in tr;
    TraversalEnumerates(t, root);
    if q != root && (t.parent[q] != root || t.Linked(root)) {
      var p := t.parent[q];
      var before := PostSplits(t, root, q);
      var mid := t.PostFrom(p, t.Index(q) + 1);
      var j := |before| + |t.PostFrom(q, 0)| + 1 + |mid|;
      assert t.Post(root) == before + (t.PostFrom(q, 0) + [q]) + (mid + [p] + t.AfterPost(root, p));
      assert t.Post(root)[|before| + |t.PostFrom(q, 0)|] == q && t.Post(root)[j] == p;
      assert t.Post(root) == t.PostFrom(root, 0) + [root];
      PostDistinct(t, root);
      assert t.Post(root)[i] == q;
      assert i < j;
      if !t.Linked(root) { assert j < |tr|; }
      assert tr[j] == p;
    }
  }

  /** updated_next and updated_children of struct cgroup_rstat_cpu, for every cgroup on one CPU. */
  class UpdatedLists {
    const parent: seq<Node>
    var next: seq<Option<Node>>
    var children: seq<Node>
    ghost var kids: seq<seq<Node>>

    ghost function T(): Tree
      reads this
    {
      Tree(parent, kids)
    }

    /** Well formed, save that gap may be missing from its parent's list. */
    ghost predicate ValidBut(gap: Node)
      reads this
    {
      T().Shaped() && Chained(next, children, kids) && NonNullIffLinked(next, T()) && Closed(T(), gap)
    }

    ghost predicate Valid()
      reads this
    {
      ValidBut(0)
    }

    /** cgroup_rstat_init for every cgroup: self-terminated empty lists. */
    constructor (parent: seq<Node>)
      requires 0 < |parent| && forall n {:trigger parent[n]} | 0 < n < |parent| :: parent[n] < n
      ensures Valid() && this.parent == parent
      ensures kids == seq(|parent|, p => [])
    {
      this.parent := parent;
      next := seq(|parent|, n => None);
      children := seq(|parent|, p => p);
      kids := seq(|parent|, p => []);
      new;
      assert T().Shaped();
      forall p | 0 <= p < |kids| ensures Chain(next, children[p], kids[p], p) && ClosedAt(T(), p, 0) {
        assert kids[p] == [];
      }
    }

    lemma OnPath(cgrp: Node)
      requires Valid() && cgrp < |parent|
      ensures AddPath(T(), cgrp).Shaped() && AddPath(T(), cgrp).parent == parent
      ensures forall m: Node | m < |parent| :: AddPath(T(), cgrp).Linked(m) <==> T().Linked(m) || (0 < m && Under(parent, m, cgrp))
    {
      AddPathLinks(T(), cgrp, cgrp);
      forall p | 0 <= p < |kids| ensures ClosedAt(T(), p, cgrp) {
        assert ClosedAt(T(), p, 0);
      }
      forall m: Node | m < |parent|
        ensures AddPath(T(), cgrp).Linked(m) <==> T().Linked(m) || (0 < m && Under(parent, m, cgrp))
      {
        AddPathIsPath(T(), cgrp, m);
      }
    }

    /** cgroup_rstat_updated. */
    method Updated(cgrp: Node)
      requires Valid() && cgrp < |parent|
      modifies this
      ensures Valid() && T() == AddPath(old(T()), cgrp)
      ensures forall m: Node | m < |parent| :: T().Linked(m) <==> old(T()).Linked(m) || (0 < m && Under(parent, m, cgrp))
    {
      OnPath(cgrp);
      // nothing to do for the root, nor when already on a list
      if cgrp == 0 || next[cgrp].Some? {
        return;
      }
      forall p | 0 <= p < |kids| ensures ClosedAt(T(), p, cgrp) {
        assert ClosedAt(T(), p, 0);
      }
      var n := cgrp;
      while n != 0 && next[n].None?
        invariant n < |parent| && ValidBut(n)
        invariant AddPath(T(), n) == AddPath(old(T()), cgrp)
        decreases n
      {
        var p := parent[n];
        PushShaped(T(), n);
        PushChained(next, children, T(), n);
        PushClosed(T(), n);
        next := next[n := Some(children[p])];
        children := children[p := n];
        kids := Push(T(), n).kids;
        n := p;
      }
      forall p | 0 <= p < |kids| ensures ClosedAt(T(), p, 0) {
        assert ClosedAt(T(), p, n);
      }
    }

    /**
     cgroup_rstat_cpu_pop_updated: the first leaf reached from the continuation point,
     taken off its list; None when that is root and root is on no list.
    */
    method PopUpdated(pos: Option<Node>, root: Node) returns (r: Option<Node>)
      requires Valid() && root < |parent| && Resumable(T(), root, pos)
      modifies this
      ensures Valid()
      ensures pos == Some(root) ==> r == None && T() == old(T())
      ensures pos != Some(root) ==> r == Popped(old(T()), root)
      ensures r.Some? ==> T() == Unlink(old(T()), r.value) && Resumable(T(), root, r)
      ensures r.None? ==> T() == old(T())
    {
      if pos == Some(root) {
        return None;
      }
      // any node that is still to be visited will do as the starting point
      var p := if pos.None? then root else parent[pos.value];
      // walk down to the first leaf
      while children[p] != p
        modifies {}
        invariant p < |parent| && OnLeft(T(), root, p)
        decreases |parent| - p
      {
        assert Chain(next, children[p], kids[p], p);
        OnLeftBelow(T(), root, p);
        BelowAbove(T(), root, p);
        p := children[p];
      }
      assert Chain(next, children[p], kids[p], p);
      OnLeftBelow(T(), root, p);
      if next[p].Some? {
        PoppedResumes(T(), root);
        UnlinkFromList(p);
        return Some(p);
      }
      // only happens for root
      return None;
    }

    /**
     The walk to the removal point: nextp is the parent's updated_children (None) or the
     updated_next of the entry before pos.
    */
    method FindSlot(pos: Node) returns (slot: Option<Node>)
      requires Valid() && pos < |parent| && T().Linked(pos)
      ensures var k := T().Index(pos); slot == if k == 0 then None else Some(kids[parent[pos]][k - 1])
    {
      var par := parent[pos];
      slot := None;
      var cur := children[par];
      ghost var ks, k := kids[par], 0;
      assert Chain(next, children[par], ks, par);
      assert Distinct(ks);
      while cur != pos
        invariant k <= T().Index(pos) && cur == ks[k]
        invariant slot == if k == 0 then None else Some(ks[k - 1])
        decreases |ks| - k
      {
        // the walk never reaches the parent
        assert cur != par;
        ChainAt(next, children[par], ks, par, k);
        slot, cur, k := Some(cur), next[cur].value, k + 1;
      }
    }

    /** The removal at the end of cgroup_rstat_cpu_pop_updated. */
    method UnlinkFromList(pos: Node)
      requires Valid() && pos < |parent| && T().Linked(pos) && kids[pos] == []
      modifies this
      ensures Valid() && T() == Unlink(old(T()), pos)
    {
      var slot := FindSlot(pos);
      UnlinkChained(next, children, T(), pos);
      UnlinkClosed(T(), pos);
      UnlinkShaped(T(), pos);
      match slot {
        case None => children := children[parent[pos] := next[pos].value];
        case Some(q) => next := next[q := next[pos]];
      }
      next := next[pos := None];
      kids := Unlink(T(), pos).kids;
    }
  }
}
