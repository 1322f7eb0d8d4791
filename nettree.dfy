/**
 * The tree itself (nettree/nettree.py): the inputs it was created with, its
 * levels, and the cached list of pattern locations. `Build` runs the
 * construction loops, `Occurrences` sums the path counts of the last level,
 * and `Patterns` collects the root-to-leaf chains with a depth-first search.
 */
module NetTrees {
  import opened Wrappers
  import opened Nodes
  import opened Levels
  import opened Graph
  import opened Construction

  /** `lst[::-1]`. */
  function Reverse<T>(s: seq<T>): (r: seq<T>)
    ensures |r| == |s| && forall i :: 0 <= i < |s| ==> r[i] == s[|s| - 1 - i]
  {
    if s == [] then [] else [s[|s| - 1]] + Reverse(s[..|s| - 1])
  }

  /** Pushing x on a stack puts it in front of the reversed stack. */
  lemma ReversePush<T>(s: seq<T>, x: T)
    ensures Reverse(s + [x]) == [x] + Reverse(s)
  {
  }

  /** Extending every chain distributes over concatenation of chain lists. */
  lemma ExtendConcat(xs: seq<seq<Handle>>, ys: seq<seq<Handle>>, suffix: seq<Handle>)
    ensures Extend(xs + ys, suffix) == Extend(xs, suffix) + Extend(ys, suffix)
  {
    var l, r := Extend(xs + ys, suffix), Extend(xs, suffix) + Extend(ys, suffix);
    assert |l| == |r|;
    forall i | 0 <= i < |l| ensures l[i] == r[i] {
      if i < |xs| {
        assert (xs + ys)[i] == xs[i];
      } else {
        assert (xs + ys)[i] == ys[i - |xs|];
      }
    }
  }

  /** Extending twice extends by both suffixes. */
  lemma ExtendTwice(xs: seq<seq<Handle>>, a: seq<Handle>, b: seq<Handle>)
    ensures Extend(Extend(xs, a), b) == Extend(xs, a + b)
  {
    var l, r := Extend(Extend(xs, a), b), Extend(xs, a + b);
    forall i | 0 <= i < |l| ensures l[i] == r[i] {
      assert xs[i] + a + b == xs[i] + (a + b);
    }
  }

  lemma ExtendEmpty(xs: seq<seq<Handle>>)
    ensures Extend(xs, []) == xs
  {
    var l := Extend(xs, []);
    forall i | 0 <= i < |l| ensures l[i] == xs[i] {
      assert xs[i] + [] == xs[i];
    }
  }

  /**
   * The parent loop of `build`: from the chosen node p of level k, while the
   * current node is within the gap of column c, attach it as a parent of
   * `node`, add its path count, and move to its predecessor.
   */
  method AttachParents(ls: Arena, k: nat, p: Handle, c: nat, g: int, node: Node) returns (n: Node)
    requires k < |ls| && PredecessorChain(ls[k].nodes, k) && p.level == k && p.index < |ls[k].nodes|
    requires node.parents == [] && node.path == 0
    ensures n.pos == node.pos && n.predecessor == node.predecessor
    ensures n.parents == Walk(ls[k].nodes, k, Some(p), c, g)
    ensures forall q :: 0 <= q < |n.parents| ==> ValidHandle(ls, n.parents[q])
    ensures n.path == PathSum(ls, n.parents)
  {
    n := node;
    var nodes := ls[k].nodes;
    ghost var walk := Walk(nodes, k, Some(p), c, g);
    var parent := Some(p);
    while parent.Some? && 0 <= c - nodes[parent.value.index].pos.col - 1 <= g
      invariant parent.Some? ==> parent.value.level == k && parent.value.index < |nodes|
      invariant n.pos == node.pos && n.predecessor == node.predecessor
      invariant n.parents + Walk(nodes, k, parent, c, g) == walk
      invariant forall q :: 0 <= q < |n.parents| ==> ValidHandle(ls, n.parents[q])
      invariant n.path == PathSum(ls, n.parents)
      decreases if parent.Some? then parent.value.index + 1 else 0
    {
      AttachStep(ls, k, parent.value, c, g, n.parents, walk);
      n := n.AddParent(parent.value);
      n := n.SetPath(n.path + nodes[parent.value.index].path);
      parent := nodes[parent.value.index].predecessor;
    }
    assert Walk(nodes, k, parent, c, g) == [];
  }

  /**
   * One iteration of the parent loop: node p, within the gap, joins the
   * parents taken so far, its count joins their sum, and the walk goes on
   * from its predecessor.
   */
  lemma AttachStep(ls: Arena, k: nat, p: Handle, c: nat, g: int, taken: seq<Handle>, walk: seq<Handle>)
    requires k < |ls| && PredecessorChain(ls[k].nodes, k) && p.level == k && p.index < |ls[k].nodes|
    requires WithinGap(c, ls[k].nodes[p.index].pos.col, g)
    requires taken + Walk(ls[k].nodes, k, Some(p), c, g) == walk
    requires forall q :: 0 <= q < |taken| ==> ValidHandle(ls, taken[q])
    ensures var pred := ls[k].nodes[p.index].predecessor;
            (pred.Some? ==> pred.value.level == k && pred.value.index < |ls[k].nodes|) &&
            (taken + [p]) + Walk(ls[k].nodes, k, pred, c, g) == walk &&
            (forall q :: 0 <= q < |taken + [p]| ==> ValidHandle(ls, (taken + [p])[q])) &&
            PathSum(ls, taken + [p]) == PathSum(ls, taken) + ls[k].nodes[p.index].path
  {
    var nodes := ls[k].nodes;
    var rest := Walk(nodes, k, nodes[p.index].predecessor, c, g);
    assert Walk(nodes, k, Some(p), c, g) == [p] + rest;
    assert (taken + [p]) + rest == taken + ([p] + rest);
    PathSumSnoc(ls, taken, p);
  }

  /**
   * Taking one more parent, from the back, appends its chains, extended by h
   * and the stack, to the paths found from the parents after it.
   */
  lemma ViaStep(ls: Arena, h: Handle, ps: seq<Handle>, i: nat, suffix: seq<Handle>,
                paths: seq<seq<Handle>>, before: seq<seq<Handle>>)
    requires WellFormed(ls) && ValidHandle(ls, h) && h.level > 0 && i < |ps|
    requires forall j :: 0 <= j < |ps| ==> ps[j].level == h.level - 1 && ValidHandle(ls, ps[j])
    requires before == paths + Extend(Via(ls, h, ps[i + 1..]), suffix)
    ensures before + Extend(Chains(ls, ps[i]), [h] + suffix) == paths + Extend(Via(ls, h, ps[i..]), suffix)
  {
    var a := Via(ls, h, ps[i + 1..]);
    var b := Extend(Chains(ls, ps[i]), [h]);
    assert ps[i..][1..] == ps[i + 1..];
    assert Via(ls, h, ps[i..]) == a + b;
    ExtendConcat(a, b, suffix);
    ExtendTwice(Chains(ls, ps[i]), [h], suffix);
    assert paths + (Extend(a, suffix) + Extend(b, suffix)) == (paths + Extend(a, suffix)) + Extend(b, suffix);
  }

  /**
   * The inner `DFS`: from node h, with the nodes below it on the stack
   * (leaf first), it appends every chain through h, from a root down to the
   * leaf, parents tried oldest first. The visited list equals the stack and
   * every node on it is on a deeper level than h, so it never blocks a parent.
   */
  method Dfs(ls: Arena, h: Handle, visited: seq<Handle>, paths: seq<seq<Handle>>, stack: seq<Handle>)
    returns (visited': seq<Handle>, paths': seq<seq<Handle>>, stack': seq<Handle>)
    requires WellFormed(ls) && ValidHandle(ls, h)
    requires stack == visited && forall x :: x in visited ==> x.level > h.level
    ensures visited' == visited && stack' == stack
    ensures paths' == paths + Extend(Chains(ls, h), Reverse(stack))
    decreases h.level
  {
    visited', paths', stack' := visited, paths, stack;
    if h !in visited' {
      stack' := stack' + [h];
    }
    visited' := visited' + [h];
    ParentsValid(ls, h);
    var ps := At(ls, h).parents;
    ReversePush(stack, h);
    if ps == [] {
      paths' := paths' + [Reverse(stack')];
      assert Extend(Chains(ls, h), Reverse(stack)) == [[h] + Reverse(stack)];
    } else {
      var i := |ps|;
      while i > 0
        invariant 0 <= i <= |ps|
        invariant visited' == visited + [h] && stack' == stack + [h]
        invariant paths' == paths + Extend(Via(ls, h, ps[i..]), Reverse(stack))
      {
        i := i - 1;
        var parent := ps[i];
        assert parent.level == h.level - 1;
        if parent !in visited' {
          ghost var before := paths';
          visited', paths', stack' := Dfs(ls, parent, visited', paths', stack');
          ViaStep(ls, h, ps, i, Reverse(stack), paths, before);
        }
      }
      assert ps[0..] == ps;
    }
    stack' := stack'[..|stack'| - 1];
    visited' := visited'[..|visited'| - 1];
  }

  class NetTree {
    const data: seq<seq<string>>
    const pattern: seq<string>
    const maxGap: int
    /** One level per pattern position. */
    var levels: Arena
    /** `_patterns`: the chains the last call of `Patterns` computed. */
    var patternsCache: seq<seq<Handle>>

    ghost predicate Valid()
      reads this
    {
      Inv(data, pattern, maxGap, levels)
    }

    /** A new tree: an empty level per pattern position and no patterns yet. */
    constructor (data: seq<seq<string>>, pattern: seq<string>, maxGap: int := 2)
      requires Rectangular(data)
      ensures this.data == data && this.pattern == pattern && this.maxGap == maxGap
      ensures levels == FreshArena(|pattern|) && patternsCache == []
      ensures Valid()
    {
      this.data := data;
      this.pattern := pattern;
      this.maxGap := maxGap;
      levels := FreshArena(|pattern|);
      patternsCache := [];
      new;
      FreshInv(data, pattern, maxGap);
    }

    /**
     * One pass over the columns, and in each over the pattern positions. It
     * leaves exactly the levels `RunColumns` describes and, when a pattern
     * symbol has no final digit, reports where that stopped the pass.
     */
    method Build() returns (crash: Option<BuildError>)
      requires Valid()
      modifies this`levels
      ensures Valid()
      ensures Outcome(levels, crash) == RunColumns(data, pattern, maxGap, old(levels), 0)
    {
      var c := 0;
      while c < NumCols(data)
        invariant 0 <= c <= NumCols(data) && Valid()
        invariant RunColumns(data, pattern, maxGap, levels, c) == RunColumns(data, pattern, maxGap, old(levels), 0)
      {
        var k := 0;
        while k < |pattern|
          invariant 0 <= k <= |pattern| && Valid()
          invariant RunSymbols(data, pattern, maxGap, levels, c, k) == RunColumns(data, pattern, maxGap, old(levels), 0)
        {
          ghost var before := levels;
          crash := MatchSymbol(c, k);
          if crash.Some? {
            StepStops(data, pattern, maxGap, levels, c, k);
            return;
          }
          StepAdvances(data, pattern, maxGap, before, levels, c, k);
          k := k + 1;
        }
        c := c + 1;
      }
      return None;
    }

    /**
     * The body of the inner loop of `build`: pattern position k against
     * column c. It adds a root or a child when the symbol matches, and
     * reports the column and position when the symbol has no final digit.
     */
    method MatchSymbol(c: nat, k: nat) returns (crash: Option<BuildError>)
      requires Valid() && c < NumCols(data) && k < |pattern|
      modifies this`levels
      ensures crash.None? ==> Step(data, pattern, maxGap, old(levels), c, k) == Success(levels)
      ensures crash.Some? ==> Step(data, pattern, maxGap, old(levels), c, k) == Failure(crash.value) && levels == old(levels)
    {
      var column := Column(data, c);
      var symbol := pattern[k];
      if k == 0 && symbol in column {
        var row := RowOf(symbol);
        if row.None? {
          return Some(BadSymbol(c, k));
        }
        AddRoot(c, row.value);
        return None;
      }
      if k != 0 && symbol in column {
        assert LevelShape(levels, k - 1);
        var j := ChooseStart(k, c);
        if j.None? {
          return None;
        }
        var row := RowOf(symbol);
        if row.None? {
          return Some(BadSymbol(c, k));
        }
        assert LevelShape(levels, k - 1);
        AddChild(k, c, row.value, j.value);
      }
      return None;
    }

    /** The backwards scan of the frontier of level k - 1 for a node within the gap of column c. */
    method ChooseStart(k: nat, c: nat) returns (j: Option<nat>)
      requires 0 < k < |levels| && FrontierShape(levels[k - 1], k - 1)
      ensures j == ChosenStart(levels[k - 1].nodes, levels[k - 1].start, c, maxGap)
    {
      var nodes, starts, g := levels[k - 1].nodes, levels[k - 1].start, maxGap;
      assert starts[..|starts|] == starts;
      var x := |starts|;
      while x > 0
        invariant 0 <= x <= |starts|
        invariant ChosenStart(nodes, starts[..x], c, g) == ChosenStart(nodes, starts, c, g)
      {
        x := x - 1;
        ChosenStartStep(nodes, starts, x, c, g);
        var dist := c - nodes[starts[x].index].pos.col - 1;
        if 0 <= dist && dist <= g {
          return Some(x);
        }
      }
      return None;
    }

    /** A match of pattern[0] in column c: a root with one path, the new tail and frontier entry. */
    method AddRoot(c: nat, row: int)
      requires |levels| > 0
      modifies this`levels
      ensures levels == RootStep(old(levels), c, row)
    {
      var h := Handle(0, |levels[0].nodes|);
      var node := NewNode(Pos(row, c), levels[0].tail);
      levels := levels[0 := levels[0].AddNode(node)];
      levels := WithNode(levels, h, At(levels, h).SetPath(1));
      assert levels[0].nodes == old(levels)[0].nodes + [node.SetPath(1)];
      if levels[0].head.None? {
        levels := levels[0 := levels[0].SetHead(h)];
      }
      levels := levels[0 := levels[0].SetStart(h)];
      levels := levels[0 := levels[0].SetTail(h)];
    }

    /**
     * A match of pattern[k], k > 0, in column c seeded by frontier entry j of
     * level k - 1: the node is added and linked into the frontiers first, then
     * the loop walks the predecessor chain attaching parents and adding up
     * their path counts.
     */
    method AddChild(k: nat, c: nat, row: int, j: nat)
      requires Seedable(levels, k, j)
      modifies this`levels
      ensures levels == ChildStep(old(levels), k, c, row, j, maxGap)
    {
      var ls := levels;
      var p := levels[k - 1].start[j];
      var h := Handle(k, |levels[k].nodes|);
      var node := NewNode(Pos(row, c), levels[k].tail);
      levels := levels[k := levels[k].AddNode(node)];
      levels := levels[k := levels[k].SetTail(h)];
      levels := levels[k - 1 := levels[k - 1].UpdateStart(Without(levels[k - 1].start, p))];
      levels := levels[k := levels[k].SetStart(h)];
      // The level holds this very node object, so the parents and counts
      // attached by the walk are what the level sees. The walk reads only
      // level k - 1, whose nodes the steps above left as they were.
      node := AttachParents(ls, k - 1, p, c, maxGap, node);
      levels := WithNode(levels, h, node);
      ghost var walk := Walk(ls[k - 1].nodes, k - 1, Some(p), c, maxGap);
      ghost var expected := ChildStep(ls, k, c, row, j, maxGap);
      assert levels[k].nodes == ls[k].nodes + [node];
      assert levels[k] == expected[k];
      assert levels[k - 1] == expected[k - 1];
      assert forall m :: 0 <= m < |levels| ==> levels[m] == expected[m];
      assert levels == expected;
    }

    /** `occurrences`: the sum of the path counts of the last level; there is none without levels. */
    function Occurrences(): (r: Option<int>)
      reads this
      ensures r.None? <==> |levels| == 0
      ensures r.Some? ==> r.value == TotalPaths(levels[|levels| - 1].nodes)
    {
      if |levels| == 0 then None else Some(TotalPaths(levels[|levels| - 1].nodes))
    }

    /** On a valid tree, `occurrences` is the number of root-to-leaf chains. */
    lemma OccurrencesCountPatterns()
      requires Valid() && |levels| > 0
      ensures Occurrences() == Some(|AllChains(levels)|)
    {
      OccurrencesCountChains(levels);
    }

    /**
     * `patterns`: clears the cache, then collects the chains of every
     * last-level node, leaf by leaf. Without levels, indexing the last one
     * fails and nothing is returned.
     */
    method Patterns() returns (r: Option<seq<seq<Handle>>>)
      requires WellFormed(levels)
      modifies this`patternsCache
      ensures |levels| == 0 ==> r == None && patternsCache == []
      ensures |levels| > 0 ==> r == Some(AllChains(levels)) && patternsCache == AllChains(levels)
    {
      patternsCache := [];
      if |levels| == 0 {
        return None;
      }
      var ls := levels;
      var leaves := ls[|ls| - 1].nodes;
      var j := 0;
      while j < |leaves|
        invariant 0 <= j <= |leaves| && patternsCache == Leaves(ls, j) && ls == levels
      {
        var _, found, _ := Dfs(ls, Handle(|ls| - 1, j), [], [], []);
        ExtendEmpty(Chains(ls, Handle(|ls| - 1, j)));
        patternsCache := patternsCache + found;
        j := j + 1;
      }
      return Some(patternsCache);
    }
  }
}
