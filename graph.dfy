/**
 * The finished net-tree as an arena: level k holds the nodes matched against
 * pattern position k, and handles (level, index) stand for node references.
 * This module states the shape every built tree has, the path-count
 * invariant, and the root-to-leaf chains that `patterns` enumerates, and
 * proves that the path counts count exactly those chains.
 */
module Graph {
  import opened Wrappers
  import opened Nodes
  import opened Levels

  type Arena = seq<Level>

  predicate ValidHandle(ls: Arena, h: Handle)
  {
    h.level < |ls| && h.index < |ls[h.level].nodes|
  }

  /** Dereferences a handle. */
  function At(ls: Arena, h: Handle): Node
    requires ValidHandle(ls, h)
  {
    ls[h.level].nodes[h.index]
  }

  /** The arena form of mutating the node object `h` refers to: every alias sees `n`. */
  function WithNode(ls: Arena, h: Handle, n: Node): (ls': Arena)
    requires ValidHandle(ls, h)
    ensures |ls'| == |ls| && ValidHandle(ls', h) && At(ls', h) == n
    ensures forall k :: 0 <= k < |ls| && k != h.level ==> ls'[k] == ls[k]
    ensures ls'[h.level].head == ls[h.level].head && ls'[h.level].start == ls[h.level].start &&
            ls'[h.level].tail == ls[h.level].tail
    ensures |ls'[h.level].nodes| == |ls[h.level].nodes|
    ensures forall i :: 0 <= i < |ls[h.level].nodes| && i != h.index ==>
              ls'[h.level].nodes[i] == ls[h.level].nodes[i]
  {
    ls[h.level := ls[h.level].(nodes := ls[h.level].nodes[h.index := n])]
  }

  // ---------------------------------------------------------------------------
  // Shape
  // ---------------------------------------------------------------------------

  /** Each node's predecessor is the node added just before it on its level. */
  predicate PredecessorChain(nodes: seq<Node>, k: nat)
  {
    forall i :: 0 <= i < |nodes| ==>
      nodes[i].predecessor == (if i == 0 then None else Some(Handle(k, i - 1)))
  }

  /**
   * Roots have no parents; a node on level k > 0 has at least one, all on
   * level k - 1, listed newest first (strictly decreasing index).
   */
  predicate ParentsShape(ls: Arena, k: nat, ps: seq<Handle>)
    requires k < |ls|
  {
    if k == 0 then ps == []
    else
      ps != [] &&
      (forall j :: 0 <= j < |ps| ==> ps[j].level == k - 1 && ps[j].index < |ls[k - 1].nodes|) &&
      (forall j1, j2 :: 0 <= j1 < j2 < |ps| ==> ps[j1].index > ps[j2].index)
  }

  /** The frontier is a subsequence of the level's own nodes, oldest first. */
  predicate FrontierShape(l: Level, k: nat)
  {
    (forall j :: 0 <= j < |l.start| ==> l.start[j].level == k && l.start[j].index < |l.nodes|) &&
    (forall j1, j2 :: 0 <= j1 < j2 < |l.start| ==> l.start[j1].index < l.start[j2].index)
  }

  predicate LevelShape(ls: Arena, k: nat)
    requires k < |ls|
  {
    var l := ls[k];
    PredecessorChain(l.nodes, k) &&
    l.tail == (if |l.nodes| == 0 then None else Some(Handle(k, |l.nodes| - 1))) &&
    l.head == (if k == 0 && |l.nodes| > 0 then Some(Handle(0, 0)) else None) &&
    FrontierShape(l, k) &&
    forall i :: 0 <= i < |l.nodes| ==> ParentsShape(ls, k, l.nodes[i].parents)
  }

  predicate WellFormed(ls: Arena)
  {
    forall k :: 0 <= k < |ls| ==> LevelShape(ls, k)
  }

  lemma ParentsValid(ls: Arena, h: Handle)
    requires WellFormed(ls) && ValidHandle(ls, h)
    ensures h.level == 0 ==> At(ls, h).parents == []
    ensures h.level > 0 ==> At(ls, h).parents != []
    ensures forall j :: 0 <= j < |At(ls, h).parents| ==>
              At(ls, h).parents[j].level == h.level - 1 && ValidHandle(ls, At(ls, h).parents[j])
  {
    assert LevelShape(ls, h.level);
  }

  // ---------------------------------------------------------------------------
  // Path counts
  // ---------------------------------------------------------------------------

  /** The sum of the path counts of the nodes `ps` refers to. */
  function PathSum(ls: Arena, ps: seq<Handle>): int
    requires forall j :: 0 <= j < |ps| ==> ValidHandle(ls, ps[j])
  {
    if ps == [] then 0 else At(ls, ps[0]).path + PathSum(ls, ps[1..])
  }

  /** Adding one more handle adds that node's count: the running `node.path += parent.path`. */
  lemma {:induction false} PathSumSnoc(ls: Arena, ps: seq<Handle>, p: Handle)
    requires forall j :: 0 <= j < |ps| ==> ValidHandle(ls, ps[j])
    requires ValidHandle(ls, p)
    ensures forall j :: 0 <= j < |ps + [p]| ==> ValidHandle(ls, (ps + [p])[j])
    ensures PathSum(ls, ps + [p]) == PathSum(ls, ps) + At(ls, p).path
  {
    assert forall j :: 0 <= j < |ps + [p]| ==> ValidHandle(ls, (ps + [p])[j]);
    if ps != [] {
      assert (ps + [p])[1..] == ps[1..] + [p];
      PathSumSnoc(ls, ps[1..], p);
    }
  }

  /** A root counts one path; any other node the sum of its parents' counts. */
  predicate NodeCounted(ls: Arena, h: Handle)
    requires WellFormed(ls) && ValidHandle(ls, h)
  {
    ParentsValid(ls, h);
    At(ls, h).path == if h.level == 0 then 1 else PathSum(ls, At(ls, h).parents)
  }

  predicate PathsCounted(ls: Arena)
    requires WellFormed(ls)
  {
    forall k, i :: 0 <= k < |ls| && 0 <= i < |ls[k].nodes| ==> NodeCounted(ls, Handle(k, i))
  }

  /** Sum of the path counts of a whole level: what `occurrences` returns for the last one. */
  function TotalPaths(nodes: seq<Node>): int
  {
    if nodes == [] then 0 else TotalPaths(nodes[..|nodes| - 1]) + nodes[|nodes| - 1].path
  }

  // ---------------------------------------------------------------------------
  // Chains: what `patterns` enumerates
  // ---------------------------------------------------------------------------

  /** Appends the same suffix to every chain. */
  function Extend(xs: seq<seq<Handle>>, suffix: seq<Handle>): (r: seq<seq<Handle>>)
    ensures |r| == |xs| && forall i :: 0 <= i < |r| ==> r[i] == xs[i] + suffix
  {
    seq(|xs|, i requires 0 <= i < |xs| => xs[i] + suffix)
  }

  /**
   * Every chain from a root down to `h`, root first, in the order the
   * depth-first search meets them: parents are tried oldest first, which is
   * the reverse of the order they were attached in.
   */
  function Chains(ls: Arena, h: Handle): seq<seq<Handle>>
    requires WellFormed(ls) && ValidHandle(ls, h)
    decreases h.level, 1
  {
    ParentsValid(ls, h);
    var ps := At(ls, h).parents;
    if ps == [] then [[h]] else Via(ls, h, ps)
  }

  /** The chains down to `h` that pass through one of `ps`, last element of `ps` first. */
  function Via(ls: Arena, h: Handle, ps: seq<Handle>): seq<seq<Handle>>
    requires WellFormed(ls) && ValidHandle(ls, h) && h.level > 0
    requires forall j :: 0 <= j < |ps| ==> ps[j].level == h.level - 1 && ValidHandle(ls, ps[j])
    decreases h.level, 0, |ps|
  {
    if ps == [] then [] else Via(ls, h, ps[1..]) + Extend(Chains(ls, ps[0]), [h])
  }

  /** The chains ending at the first `j` nodes of the last level, leaf by leaf. */
  function Leaves(ls: Arena, j: nat): seq<seq<Handle>>
    requires WellFormed(ls) && |ls| > 0 && j <= |ls[|ls| - 1].nodes|
  {
    if j == 0 then [] else Leaves(ls, j - 1) + Chains(ls, Handle(|ls| - 1, j - 1))
  }

  function AllChains(ls: Arena): seq<seq<Handle>>
    requires WellFormed(ls) && |ls| > 0
  {
    Leaves(ls, |ls[|ls| - 1].nodes|)
  }

  /** A root-to-node chain: one node per level from 0, each a parent of the next. */
  predicate IsChain(ls: Arena, c: seq<Handle>)
  {
    |c| > 0 &&
    (forall i :: 0 <= i < |c| ==> c[i].level == i && ValidHandle(ls, c[i])) &&
    (forall i :: 0 < i < |c| ==> ValidHandle(ls, c[i]) && c[i - 1] in At(ls, c[i]).parents)
  }

  predicate Distinct<T(==)>(s: seq<T>)
  {
    forall i, j :: 0 <= i < j < |s| ==> s[i] != s[j]
  }

  // ---------------------------------------------------------------------------
  // The path count of a node is the number of chains ending at it
  // ---------------------------------------------------------------------------

  lemma {:induction false} ChainsCount(ls: Arena, h: Handle)
    requires WellFormed(ls) && PathsCounted(ls) && ValidHandle(ls, h)
    ensures |Chains(ls, h)| == At(ls, h).path
    decreases h.level, 1
  {
    ParentsValid(ls, h);
    assert NodeCounted(ls, Handle(h.level, h.index));
    var ps := At(ls, h).parents;
    if ps != [] {
      ViaCount(ls, h, ps);
    }
  }

  lemma {:induction false} ViaCount(ls: Arena, h: Handle, ps: seq<Handle>)
    requires WellFormed(ls) && PathsCounted(ls) && ValidHandle(ls, h) && h.level > 0
    requires forall j :: 0 <= j < |ps| ==> ps[j].level == h.level - 1 && ValidHandle(ls, ps[j])
    ensures |Via(ls, h, ps)| == PathSum(ls, ps)
    decreases h.level, 0, |ps|
  {
    if ps != [] {
      ViaCount(ls, h, ps[1..]);
      ChainsCount(ls, ps[0]);
    }
  }

  lemma {:induction false} LeavesCount(ls: Arena, j: nat)
    requires WellFormed(ls) && PathsCounted(ls) && |ls| > 0 && j <= |ls[|ls| - 1].nodes|
    ensures |Leaves(ls, j)| == TotalPaths(ls[|ls| - 1].nodes[..j])
  {
    var nodes := ls[|ls| - 1].nodes;
    if j > 0 {
      LeavesCount(ls, j - 1);
      ChainsCount(ls, Handle(|ls| - 1, j - 1));
      assert nodes[..j][..j - 1] == nodes[..j - 1];
    }
  }

  /** The headline theorem: `occurrences` equals the number of chains `patterns` returns. */
  lemma OccurrencesCountChains(ls: Arena)
    requires WellFormed(ls) && PathsCounted(ls) && |ls| > 0
    ensures TotalPaths(ls[|ls| - 1].nodes) == |AllChains(ls)|
  {
    var nodes := ls[|ls| - 1].nodes;
    LeavesCount(ls, |nodes|);
    assert nodes[..|nodes|] == nodes;
  }

  // ---------------------------------------------------------------------------
  // The chains are exactly the root-to-node chains of the graph, each once
  // ---------------------------------------------------------------------------

  /** Membership in `Via`: through which parent a chain passes. */
  lemma {:induction false} ViaMember(ls: Arena, h: Handle, ps: seq<Handle>, c: seq<Handle>)
    requires WellFormed(ls) && ValidHandle(ls, h) && h.level > 0
    requires forall j :: 0 <= j < |ps| ==> ps[j].level == h.level - 1 && ValidHandle(ls, ps[j])
    ensures c in Via(ls, h, ps) <==>
              |c| > 0 && c[|c| - 1] == h && exists j :: 0 <= j < |ps| && c[..|c| - 1] in Chains(ls, ps[j])
    decreases |ps|
  {
    if ps != [] {
      ViaMember(ls, h, ps[1..], c);
      var rest, here := Via(ls, h, ps[1..]), Extend(Chains(ls, ps[0]), [h]);
      assert Via(ls, h, ps) == rest + here;
      if c in here {
        var i :| 0 <= i < |here| && here[i] == c;
        assert c[..|c| - 1] == Chains(ls, ps[0])[i];
      }
      if |c| > 0 && c[|c| - 1] == h && c[..|c| - 1] in Chains(ls, ps[0]) {
        var i :| 0 <= i < |Chains(ls, ps[0])| && Chains(ls, ps[0])[i] == c[..|c| - 1];
        assert here[i] == c;
      }
      if |c| > 0 && c[|c| - 1] == h && exists j :: 0 <= j < |ps| && c[..|c| - 1] in Chains(ls, ps[j]) {
        var j :| 0 <= j < |ps| && c[..|c| - 1] in Chains(ls, ps[j]);
        if j > 0 {
          assert ps[1..][j - 1] == ps[j];
        }
      }
    }
  }

  /** A chain ending at a parent of h, extended by h, is a chain. */
  lemma ChainSnoc(ls: Arena, x: seq<Handle>, h: Handle)
    requires IsChain(ls, x) && ValidHandle(ls, h) && |x| == h.level && x[|x| - 1] in At(ls, h).parents
    ensures IsChain(ls, x + [h])
  {
    var c := x + [h];
    forall i | 0 <= i < |c| ensures c[i].level == i && ValidHandle(ls, c[i]) {
      if i < |x| { assert c[i] == x[i]; }
    }
    forall i | 0 < i < |c| ensures c[i - 1] in At(ls, c[i]).parents {
      if i < |x| {
        assert c[i] == x[i] && c[i - 1] == x[i - 1];
      }
    }
  }

  /** Every enumerated chain is a root-to-`h` chain with one node per level. */
  lemma {:induction false} ChainsSound(ls: Arena, h: Handle, c: seq<Handle>)
    requires WellFormed(ls) && ValidHandle(ls, h) && c in Chains(ls, h)
    ensures IsChain(ls, c) && |c| == h.level + 1 && c[|c| - 1] == h
    decreases h.level
  {
    ParentsValid(ls, h);
    var ps := At(ls, h).parents;
    if ps != [] {
      ViaMember(ls, h, ps, c);
      var j :| 0 <= j < |ps| && c[..|c| - 1] in Chains(ls, ps[j]);
      var x := c[..|c| - 1];
      ChainsSound(ls, ps[j], x);
      assert c == x + [h];
      ChainSnoc(ls, x, h);
    }
  }

  /** Every root-to-`h` chain of the graph is enumerated. */
  lemma {:induction false} ChainsComplete(ls: Arena, h: Handle, c: seq<Handle>)
    requires WellFormed(ls) && ValidHandle(ls, h) && IsChain(ls, c) && c[|c| - 1] == h
    ensures c in Chains(ls, h)
    decreases |c|
  {
    ParentsValid(ls, h);
    var ps := At(ls, h).parents;
    if |c| == 1 {
      assert c == [h];
    } else {
      var x := c[..|c| - 1];
      var p := x[|x| - 1];
      assert p == c[|c| - 2] && p in ps;
      assert IsChain(ls, x);
      ChainsComplete(ls, p, x);
      var j :| 0 <= j < |ps| && ps[j] == p;
      ViaMember(ls, h, ps, c);
    }
  }

  lemma DistinctConcat<T>(a: seq<T>, b: seq<T>)
    requires Distinct(a) && Distinct(b)
    requires forall i, j :: 0 <= i < |a| && 0 <= j < |b| ==> a[i] != b[j]
    ensures Distinct(a + b)
  {
    var s := a + b;
    forall i, j | 0 <= i < j < |s| ensures s[i] != s[j] {
      if j < |a| {
        assert s[i] == a[i] && s[j] == a[j];
      } else if i >= |a| {
        assert s[i] == b[i - |a|] && s[j] == b[j - |a|];
      } else {
        assert s[i] == a[i] && s[j] == b[j - |a|];
      }
    }
  }

  /** No chain is enumerated twice. */
  lemma {:induction false} ChainsDistinct(ls: Arena, h: Handle)
    requires WellFormed(ls) && ValidHandle(ls, h)
    ensures Distinct(Chains(ls, h))
    decreases h.level, 1
  {
    ParentsValid(ls, h);
    var ps := At(ls, h).parents;
    if ps != [] {
      assert LevelShape(ls, h.level);
      ViaDistinct(ls, h, ps);
    }
  }

  lemma {:induction false} ViaDistinct(ls: Arena, h: Handle, ps: seq<Handle>)
    requires WellFormed(ls) && ValidHandle(ls, h) && h.level > 0
    requires forall j :: 0 <= j < |ps| ==> ps[j].level == h.level - 1 && ValidHandle(ls, ps[j])
    requires forall j1, j2 :: 0 <= j1 < j2 < |ps| ==> ps[j1].index > ps[j2].index
    ensures Distinct(Via(ls, h, ps))
    decreases h.level, 0, |ps|
  {
    if ps != [] {
      var rest, here := Via(ls, h, ps[1..]), Extend(Chains(ls, ps[0]), [h]);
      ViaDistinct(ls, h, ps[1..]);
      ChainsDistinct(ls, ps[0]);
      var xs := Chains(ls, ps[0]);
      forall i, j | 0 <= i < j < |here| ensures here[i] != here[j] {
        assert here[i][..|here[i]| - 1] == xs[i] && here[j][..|here[j]| - 1] == xs[j];
      }
      forall i, j | 0 <= i < |rest| && 0 <= j < |here| ensures rest[i] != here[j] {
        ViaApart(ls, h, ps, rest[i], xs[j]);
      }
      DistinctConcat(rest, here);
    }
  }

  /** A chain through a later parent never ends in a chain through the first one. */
  lemma ViaApart(ls: Arena, h: Handle, ps: seq<Handle>, c: seq<Handle>, x: seq<Handle>)
    requires WellFormed(ls) && ValidHandle(ls, h) && h.level > 0 && ps != []
    requires forall j :: 0 <= j < |ps| ==> ps[j].level == h.level - 1 && ValidHandle(ls, ps[j])
    requires forall j1, j2 :: 0 <= j1 < j2 < |ps| ==> ps[j1].index > ps[j2].index
    requires c in Via(ls, h, ps[1..]) && x in Chains(ls, ps[0])
    ensures c != x + [h]
  {
    ViaMember(ls, h, ps[1..], c);
    var m :| 0 <= m < |ps[1..]| && c[..|c| - 1] in Chains(ls, ps[1..][m]);
    ChainsSound(ls, ps[1..][m], c[..|c| - 1]);
    ChainsSound(ls, ps[0], x);
    assert (x + [h])[..|x|] == x;
    assert ps[1..][m] == ps[m + 1];
  }

  lemma {:induction false} LeavesDistinct(ls: Arena, j: nat)
    requires WellFormed(ls) && |ls| > 0 && j <= |ls[|ls| - 1].nodes|
    ensures Distinct(Leaves(ls, j))
    ensures forall c: seq<Handle> :: c in Leaves(ls, j) ==> IsChain(ls, c) && |c| == |ls| && c[|c| - 1].index < j
  {
    if j > 0 {
      var h := Handle(|ls| - 1, j - 1);
      var rest, here := Leaves(ls, j - 1), Chains(ls, h);
      LeavesDistinct(ls, j - 1);
      ChainsDistinct(ls, h);
      forall c | c in here ensures IsChain(ls, c) && |c| == |ls| && c[|c| - 1] == h {
        ChainsSound(ls, h, c);
      }
      forall a, b | 0 <= a < |rest| && 0 <= b < |here| ensures rest[a] != here[b] {
        assert rest[a] in rest && here[b] in here;
      }
      DistinctConcat(rest, here);
    }
  }

  /**
   * `patterns` lists every root-to-leaf chain of the graph exactly once:
   * a sequence is enumerated if and only if it is such a chain, and no
   * chain appears twice.
   */
  lemma AllChainsExact(ls: Arena, c: seq<Handle>)
    requires WellFormed(ls) && |ls| > 0
    ensures Distinct(AllChains(ls))
    ensures c in AllChains(ls) <==> IsChain(ls, c) && |c| == |ls|
  {
    var n := |ls[|ls| - 1].nodes|;
    LeavesDistinct(ls, n);
    if IsChain(ls, c) && |c| == |ls| {
      var h := c[|c| - 1];
      ChainsComplete(ls, h, c);
      LeavesContain(ls, n, h.index, c);
    }
  }

  lemma {:induction false} LeavesContain(ls: Arena, j: nat, i: nat, c: seq<Handle>)
    requires WellFormed(ls) && |ls| > 0 && i < j <= |ls[|ls| - 1].nodes|
    requires c in Chains(ls, Handle(|ls| - 1, i))
    ensures c in Leaves(ls, j)
  {
    var rest, here := Leaves(ls, j - 1), Chains(ls, Handle(|ls| - 1, j - 1));
    assert Leaves(ls, j) == rest + here;
    if i < j - 1 {
      LeavesContain(ls, j - 1, i, c);
      assert c in rest;
    } else {
      assert c in here;
    }
  }

  /** With a one-symbol pattern every node is a root and a one-node occurrence. */
  lemma SingleLevelChains(ls: Arena)
    requires WellFormed(ls) && PathsCounted(ls) && |ls| == 1
    ensures AllChains(ls) == seq(|ls[0].nodes|, i requires 0 <= i < |ls[0].nodes| => [Handle(0, i)])
    ensures TotalPaths(ls[0].nodes) == |ls[0].nodes|
  {
    SingleLevelLeaves(ls, |ls[0].nodes|);
    assert ls[0].nodes[..|ls[0].nodes|] == ls[0].nodes;
  }

  lemma {:induction false} SingleLevelLeaves(ls: Arena, j: nat)
    requires WellFormed(ls) && PathsCounted(ls) && |ls| == 1 && j <= |ls[0].nodes|
    ensures Leaves(ls, j) == seq(j, i requires 0 <= i < j => [Handle(0, i)])
    ensures TotalPaths(ls[0].nodes[..j]) == j
  {
    if j > 0 {
      SingleLevelLeaves(ls, j - 1);
      ParentsValid(ls, Handle(0, j - 1));
      assert NodeCounted(ls, Handle(0, j - 1));
      assert ls[0].nodes[..j][..j - 1] == ls[0].nodes[..j - 1];
    }
  }
}
