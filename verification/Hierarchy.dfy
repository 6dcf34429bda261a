/**
 The cgroup hierarchy as a parent map, and the two kinds of counters that the source
 keeps over it: of the marked live strict descendants of a node, and of the marked nodes
 on its path to the root.
*/
module Hierarchy {
  import opened CgroupTree

  lemma {:induction false} UnderAbove(parent: seq<Node>, a: Node, n: Node)
    requires IsTree(parent) && n < |parent| && Under(parent, a, n)
    ensures a <= n
  {}

  lemma {:induction false} UnderStep(parent: seq<Node>, c: Node, n: Node)
    requires IsTree(parent) && n < |parent| && 0 < c < |parent| && Under(parent, c, n)
    ensures Under(parent, parent[c], n)
    decreases n
  {
    if n != c { UnderStep(parent, c, parent[n]); }
  }

  ghost predicate StrictlyUnder(parent: seq<Node>, a: Node, n: Node)
    requires IsTree(parent) && n < |parent|
  {
    n != a && Under(parent, a, n)
  }

  lemma {:induction false} UnderTrans(parent: seq<Node>, a: Node, b: Node, n: Node)
    requires IsTree(parent) && b < |parent| && n < |parent| && Under(parent, a, b) && Under(parent, b, n)
    ensures Under(parent, a, n)
    decreases n
  {
    UnderAbove(parent, a, b);
    UnderAbove(parent, b, n);
    if n != b { UnderTrans(parent, a, b, parent[n]); }
  }

  /** Strictly above n are its parent and what is strictly above that. */
  lemma StrictlyUnderParent(parent: seq<Node>, a: Node, n: Node)
    requires IsTree(parent) && 0 < n < |parent|
    ensures StrictlyUnder(parent, a, n) <==> a == parent[n] || StrictlyUnder(parent, a, parent[n])
  {
    if Under(parent, a, parent[n]) { UnderAbove(parent, a, parent[n]); }
  }

  lemma {:induction false} UnderRoot(parent: seq<Node>, n: Node)
    requires IsTree(parent) && n < |parent|
    ensures Under(parent, 0, n)
    decreases n
  {
    if n != 0 { UnderRoot(parent, parent[n]); }
  }

  /** How many live marked nodes below n are strict descendants of a. */
  ghost function Count(parent: seq<Node>, live: seq<bool>, bits: seq<bool>, a: Node, n: nat): nat
    requires IsTree(parent) && n <= |parent| == |live| == |bits|
  {
    if n == 0 then 0
    else Count(parent, live, bits, a, n - 1) + if live[n - 1] && bits[n - 1] && StrictlyUnder(parent, a, n - 1) then 1 else 0
  }

  /** The effect on the count of a of one change to the bit of c. */
  ghost function Change(parent: seq<Node>, live: seq<bool>, bits: seq<bool>, c: Node, b: bool, a: Node): int
    requires IsTree(parent) && c < |parent| == |live| == |bits|
  {
    if live[c] && StrictlyUnder(parent, a, c) then (if b then 1 else 0) - (if bits[c] then 1 else 0) else 0
  }

  lemma {:induction false} CountFlip(parent: seq<Node>, live: seq<bool>, bits: seq<bool>, c: Node, b: bool, a: Node, n: nat)
    requires IsTree(parent) && c < |parent| == |live| == |bits| && n <= |parent|
    ensures Count(parent, live, bits[c := b], a, n) ==
      Count(parent, live, bits, a, n) + if c < n then Change(parent, live, bits, c, b, a) else 0
    decreases n
  {
    if n > 0 { CountFlip(parent, live, bits, c, b, a, n - 1); }
  }

  /** A node that dies no longer counts. */
  lemma {:induction false} CountDies(parent: seq<Node>, live: seq<bool>, bits: seq<bool>, c: Node, a: Node, n: nat)
    requires IsTree(parent) && c < |parent| == |live| == |bits| && n <= |parent| && live[c]
    ensures Count(parent, live[c := false], bits, a, n) ==
      Count(parent, live, bits, a, n) - if c < n && bits[c] && StrictlyUnder(parent, a, c) then 1 else 0
    decreases n
  {
    if n > 0 { CountDies(parent, live, bits, c, a, n - 1); }
  }

  /** Marked descendants are at most all descendants, with equality exactly if all are marked. */
  lemma {:induction false} CountAll(parent: seq<Node>, live: seq<bool>, bits: seq<bool>, a: Node, n: nat)
    requires IsTree(parent) && n <= |parent| == |live| == |bits|
    ensures Count(parent, live, bits, a, n) <= Count(parent, live, live, a, n)
    ensures Count(parent, live, bits, a, n) == Count(parent, live, live, a, n) <==>
      forall k {:trigger bits[k]} | 0 <= k < n && live[k] && StrictlyUnder(parent, a, k) :: bits[k]
    decreases n
  {
    if n > 0 {
      CountAll(parent, live, bits, a, n - 1);
      if live[n - 1] && StrictlyUnder(parent, a, n - 1) && !bits[n - 1] {
        assert 0 <= n - 1 < n;
      }
    }
  }

  lemma {:induction false} CountNone(parent: seq<Node>, live: seq<bool>, bits: seq<bool>, a: Node, n: nat)
    requires IsTree(parent) && n <= |parent| == |live| == |bits|
    ensures Count(parent, live, bits, a, n) == 0 <==>
      forall k {:trigger bits[k]} | 0 <= k < n && live[k] && StrictlyUnder(parent, a, k) :: !bits[k]
    decreases n
  {
    if n > 0 {
      CountNone(parent, live, bits, a, n - 1);
      if live[n - 1] && StrictlyUnder(parent, a, n - 1) && bits[n - 1] {
        assert 0 <= n - 1 < n;
      }
    }
  }

  /** How many of n and its ancestors are marked. */
  ghost function PathCount(parent: seq<Node>, bits: seq<bool>, n: Node): nat
    requires IsTree(parent) && n < |parent| == |bits|
    decreases n
  {
    (if bits[n] then 1 else 0) + if n == 0 then 0 else PathCount(parent, bits, parent[n])
  }

  lemma {:induction false} PathFlip(parent: seq<Node>, bits: seq<bool>, r: Node, b: bool, n: Node)
    requires IsTree(parent) && n < |parent| == |bits| && r < |parent|
    ensures PathCount(parent, bits[r := b], n) ==
      PathCount(parent, bits, n) + if Under(parent, r, n) then (if b then 1 else 0) - (if bits[r] then 1 else 0) else 0
    decreases n
  {
    if n != 0 {
      PathFlip(parent, bits, r, b, parent[n]);
      if Under(parent, r, parent[n]) { UnderAbove(parent, r, parent[n]); }
    }
  }

  lemma {:induction false} PathGrows(parent: seq<Node>, bits: seq<bool>, a: Node, n: Node)
    requires IsTree(parent) && n < |parent| == |bits| && a < |parent| && Under(parent, a, n)
    ensures PathCount(parent, bits, a) <= PathCount(parent, bits, n)
    decreases n
  {
    if n != a { PathGrows(parent, bits, a, parent[n]); }
  }

  lemma {:induction false} PathSome(parent: seq<Node>, bits: seq<bool>, n: Node)
    requires IsTree(parent) && n < |parent| == |bits|
    ensures PathCount(parent, bits, n) > 0 <==> exists a {:trigger bits[a]} :: 0 <= a < |parent| && Under(parent, a, n) && bits[a]
    decreases n
  {
    if n != 0 {
      PathSome(parent, bits, parent[n]);
      if a :| 0 <= a < |parent| && Under(parent, a, n) && bits[a] {
        assert a != n ==> Under(parent, a, parent[n]);
      }
      if a :| 0 <= a < |parent| && Under(parent, a, parent[n]) && bits[a] {
        UnderAbove(parent, a, parent[n]);
        assert Under(parent, a, n);
      }
    }
  }

  // ---------------------------------------------------------------------------
  // A new node
  // ---------------------------------------------------------------------------

  lemma {:induction false} UnderExtends(parent: seq<Node>, p: Node, a: Node, n: Node)
    requires IsTree(parent) && p < |parent| && n < |parent|
    ensures IsTree(parent + [p]) && (Under(parent + [p], a, n) <==> Under(parent, a, n))
    decreases n
  {
    if n != a && n != 0 { UnderExtends(parent, p, a, parent[n]); }
  }

  lemma {:induction false} CountExtends(parent: seq<Node>, live: seq<bool>, bits: seq<bool>, p: Node, l: bool, b: bool, a: Node, n: nat)
    requires IsTree(parent) && p < |parent| == |live| == |bits| && n <= |parent|
    ensures IsTree(parent + [p])
    ensures Count(parent + [p], live + [l], bits + [b], a, n) == Count(parent, live, bits, a, n)
    decreases n
  {
    UnderExtends(parent, p, 0, 0);
    if n > 0 {
      CountExtends(parent, live, bits, p, l, b, a, n - 1);
      UnderExtends(parent, p, a, n - 1);
    }
  }

  /** A new live child of p counts for p and everything above. */
  lemma CountNew(parent: seq<Node>, live: seq<bool>, bits: seq<bool>, p: Node, b: bool, a: Node)
    requires IsTree(parent) && p < |parent| == |live| == |bits| && a < |parent|
    ensures IsTree(parent + [p])
    ensures Count(parent + [p], live + [true], bits + [b], a, |parent| + 1) ==
      Count(parent, live, bits, a, |parent|) + if b && Under(parent, a, p) then 1 else 0
    ensures !StrictlyUnder(parent + [p], |parent|, |parent|)
  {
    CountExtends(parent, live, bits, p, true, b, a, |parent|);
    UnderExtends(parent, p, a, p);
    var n := |parent|;
    assert (parent + [p])[n] == p && (live + [true])[n] && (bits + [b])[n] == b;
    assert StrictlyUnder(parent + [p], a, n) <==> Under(parent + [p], a, p);
  }

  lemma {:induction false} PathExtends(parent: seq<Node>, bits: seq<bool>, p: Node, n: Node)
    requires IsTree(parent) && p < |parent| == |bits| && n < |parent|
    ensures IsTree(parent + [p])
    ensures PathCount(parent + [p], bits + [false], n) == PathCount(parent, bits, n)
    decreases n
  {
    UnderExtends(parent, p, 0, 0);
    if n > 0 { PathExtends(parent, bits, p, parent[n]); }
  }
}
