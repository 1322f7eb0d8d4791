/**
 * What `NetTree.build` computes (nettree/nettree.py), as functions on the
 * arena: the frontier scan, the walk back along the predecessor chain, one
 * (column, pattern position) step and the whole pass over the columns. The
 * lemmas show that every step keeps the arena well formed and the path
 * counts, gaps and positions right.
 */
module Construction {
  import opened Wrappers
  import opened Nodes
  import opened Levels
  import opened Graph

  // ---------------------------------------------------------------------------
  // The input matrix (series by time) and the pattern symbols
  // ---------------------------------------------------------------------------

  /** Number of time slices (columns) of a rows-by-columns matrix. */
  function NumCols(data: seq<seq<string>>): nat
  {
    if |data| == 0 then 0 else |data[0]|
  }

  /** Every row has the same length, as in a two-dimensional array. */
  predicate Rectangular(data: seq<seq<string>>)
  {
    forall r :: 0 <= r < |data| ==> |data[r]| == NumCols(data)
  }

  /** Column `c` of the matrix (a row of `data.T`). */
  function Column(data: seq<seq<string>>, c: nat): (column: seq<string>)
    requires Rectangular(data) && c < NumCols(data)
    ensures |column| == |data|
    ensures forall r :: 0 <= r < |data| ==> column[r] == data[r][c]
  {
    seq(|data|, r requires 0 <= r < |data| => data[r][c])
  }

  /** `int(symbol[-1])`: the digit a pattern symbol ends with, or nothing when that raises. */
  function RowOf(symbol: string): (r: Option<int>)
    ensures r.Some? <==> |symbol| > 0 && '0' <= symbol[|symbol| - 1] <= '9'
    ensures r.Some? ==> 0 <= r.value <= 9
  {
    if |symbol| > 0 && '0' <= symbol[|symbol| - 1] <= '9'
    then Some(symbol[|symbol| - 1] as int - '0' as int)
    else None
  }

  /** A symbol ending in digit d denotes row d. */
  lemma RowOfDigit(prefix: string, d: nat)
    requires d <= 9
    ensures RowOf(prefix + [('0' as int + d) as char]) == Some(d)
  {
  }

  /** `0 <= c - col - 1 <= max_gap`: a node in column `col` may precede a match in column `c`. */
  predicate WithinGap(c: int, col: int, g: int)
  {
    0 <= c - col - 1 <= g
  }

  // ---------------------------------------------------------------------------
  // The frontier scan and the predecessor walk
  // ---------------------------------------------------------------------------

  /**
   * The position in the frontier `start` of the node the scan picks: the most
   * recently added one whose column is within the gap of `c`.
   */
  function ChosenStart(nodes: seq<Node>, start: seq<Handle>, c: nat, g: int): (r: Option<nat>)
    requires forall j :: 0 <= j < |start| ==> start[j].index < |nodes|
    ensures r.Some? ==> r.value < |start| && WithinGap(c, nodes[start[r.value].index].pos.col, g)
    ensures r.Some? ==> forall j :: r.value < j < |start| ==> !WithinGap(c, nodes[start[j].index].pos.col, g)
    ensures r.None? ==> forall j :: 0 <= j < |start| ==> !WithinGap(c, nodes[start[j].index].pos.col, g)
    decreases |start|
  {
    if |start| == 0 then None
    else if WithinGap(c, nodes[start[|start| - 1].index].pos.col, g) then Some(|start| - 1)
    else ChosenStart(nodes, start[..|start| - 1], c, g)
  }

  /**
   * The parents the new node receives: starting at `p` and following
   * `predecessor`, every node up to the first one outside the gap. On a
   * well-formed level this is the longest run p, p - 1, p - 2, ... within the gap.
   */
  function Walk(nodes: seq<Node>, k: nat, p: Option<Handle>, c: nat, g: int): (r: seq<Handle>)
    requires PredecessorChain(nodes, k)
    requires p.Some? ==> p.value.level == k && p.value.index < |nodes|
    ensures p.None? ==> r == []
    ensures p.Some? ==> |r| <= p.value.index + 1
    ensures p.Some? ==> forall j :: 0 <= j < |r| ==> r[j] == Handle(k, p.value.index - j)
    decreases if p.Some? then p.value.index + 1 else 0
  {
    if p.None? || !WithinGap(c, nodes[p.value.index].pos.col, g) then []
    else
      var pred := nodes[p.value.index].predecessor;
      assert pred.Some? ==> pred.value.index == p.value.index - 1;
      var rest := Walk(nodes, k, pred, c, g);
      assert forall j :: 1 <= j <= |rest| ==> ([p.value] + rest)[j] == rest[j - 1];
      [p.value] + rest
  }

  /**
   * The walk is the longest run within the gap: every node it collects is
   * within the gap, and the node just before the run (if any) is not.
   */
  lemma {:induction false} WalkInGap(nodes: seq<Node>, k: nat, p: Option<Handle>, c: nat, g: int)
    requires PredecessorChain(nodes, k)
    requires p.Some? ==> p.value.level == k && p.value.index < |nodes|
    ensures var r := Walk(nodes, k, p, c, g);
            p.Some? ==> (forall j :: 0 <= j < |r| ==> r[j].index < |nodes| && WithinGap(c, nodes[r[j].index].pos.col, g)) &&
                        (|r| <= p.value.index ==> !WithinGap(c, nodes[p.value.index - |r|].pos.col, g))
    decreases if p.Some? then p.value.index + 1 else 0
  {
    if p.Some? && WithinGap(c, nodes[p.value.index].pos.col, g) {
      var pred := nodes[p.value.index].predecessor;
      WalkInGap(nodes, k, pred, c, g);
      var rest := Walk(nodes, k, pred, c, g);
      assert Walk(nodes, k, p, c, g) == [p.value] + rest;
      if pred.None? {
        assert p.value.index == 0;
      } else {
        assert forall j :: 1 <= j <= |rest| ==> ([p.value] + rest)[j] == rest[j - 1];
      }
    }
  }

  /** The walk from a node within the gap starts with that node. */
  lemma WalkStartsAt(nodes: seq<Node>, k: nat, p: Handle, c: nat, g: int)
    requires PredecessorChain(nodes, k) && p.level == k && p.index < |nodes|
    requires WithinGap(c, nodes[p.index].pos.col, g)
    ensures |Walk(nodes, k, Some(p), c, g)| > 0 && Walk(nodes, k, Some(p), c, g)[0] == p
  {
    assert Walk(nodes, k, Some(p), c, g) == [p] + Walk(nodes, k, nodes[p.index].predecessor, c, g);
  }

  /** `[n for n in start if n != start_node]`. */
  function Without(s: seq<Handle>, x: Handle): (r: seq<Handle>)
    ensures forall y :: y in r <==> y in s && y != x
    ensures |r| <= |s|
  {
    if s == [] then [] else (if s[0] == x then [] else [s[0]]) + Without(s[1..], x)
  }

  /** Removing an entry that occurs once drops exactly that entry and keeps the order of the rest. */
  lemma {:induction false} WithoutOne(s: seq<Handle>, i: nat)
    requires i < |s| && forall j :: 0 <= j < |s| && j != i ==> s[j] != s[i]
    ensures Without(s, s[i]) == s[..i] + s[i + 1..]
  {
    if i == 0 {
      WithoutAbsent(s[1..], s[0]);
    } else {
      WithoutOne(s[1..], i - 1);
      assert s[1..][i - 1] == s[i];
      assert s[..i] == [s[0]] + s[1..][..i - 1];
      assert s[i + 1..] == s[1..][i..];
    }
  }

  lemma {:induction false} WithoutAbsent(s: seq<Handle>, x: Handle)
    requires x !in s
    ensures Without(s, x) == s
  {
    if s != [] {
      WithoutAbsent(s[1..], x);
      assert s == [s[0]] + s[1..];
    }
  }

  /** One step of the backwards scan: the entry at x decides, or the scan goes on below it. */
  lemma ChosenStartStep(nodes: seq<Node>, start: seq<Handle>, x: nat, c: nat, g: int)
    requires x < |start| && forall j :: 0 <= j < |start| ==> start[j].index < |nodes|
    ensures ChosenStart(nodes, start[..x + 1], c, g) ==
              if WithinGap(c, nodes[start[x].index].pos.col, g) then Some(x) else ChosenStart(nodes, start[..x], c, g)
  {
    assert start[..x + 1][..x] == start[..x];
  }

  // ---------------------------------------------------------------------------
  // One step of the construction
  // ---------------------------------------------------------------------------

  /** `int(symbol[-1])` raised while processing pattern position `position` in column `column`. */
  datatype BuildError = BadSymbol(column: nat, position: nat)

  /** A match of pattern[0] in column c: a new root (nettree.py, lines 39-63). */
  function RootStep(ls: Arena, c: nat, row: int): Arena
    requires |ls| > 0
  {
    var h := Handle(0, |ls[0].nodes|);
    var added := ls[0].AddNode(NewNode(Pos(row, c), ls[0].tail).SetPath(1));
    var headed := if added.head.None? then added.SetHead(h) else added;
    ls[0 := headed.SetStart(h).SetTail(h)]
  }

  /** Frontier entry j of level k - 1 names a node of that level, whose predecessors are chained. */
  predicate Seedable(ls: Arena, k: nat, j: nat)
  {
    0 < k < |ls| && j < |ls[k - 1].start| && PredecessorChain(ls[k - 1].nodes, k - 1) &&
    ls[k - 1].start[j].level == k - 1 && ls[k - 1].start[j].index < |ls[k - 1].nodes|
  }

  /**
   * A match of pattern[k], k > 0, in column c, seeded by the frontier entry
   * at position j of level k - 1 (nettree.py, lines 89-125).
   */
  function ChildStep(ls: Arena, k: nat, c: nat, row: int, j: nat, g: int): Arena
    requires Seedable(ls, k, j)
  {
    var p := ls[k - 1].start[j];
    var h := Handle(k, |ls[k].nodes|);
    var parents := Walk(ls[k - 1].nodes, k - 1, Some(p), c, g);
    var node := Node(Pos(row, c), ls[k].tail, parents, PathSum(ls, parents));
    ls[k := ls[k].AddNode(node).SetTail(h).SetStart(h)]
      [k - 1 := ls[k - 1].UpdateStart(Without(ls[k - 1].start, p))]
  }

  /** Pattern position k against column c: one iteration of the inner loop of `build`. */
  function Step(data: seq<seq<string>>, pattern: seq<string>, g: int, ls: Arena, c: nat, k: nat): Result<Arena, BuildError>
    requires Rectangular(data) && c < NumCols(data) && k < |pattern| && |ls| == |pattern| && WellFormed(ls)
  {
    var symbol := pattern[k];
    if symbol !in Column(data, c) then Success(ls)
    else if k == 0 then
      match RowOf(symbol)
      case None => Failure(BadSymbol(c, k))
      case Some(row) => Success(RootStep(ls, c, row))
    else
      assert LevelShape(ls, k - 1);
      match ChosenStart(ls[k - 1].nodes, ls[k - 1].start, c, g)
      case None => Success(ls)
      case Some(j) =>
        match RowOf(symbol)
        case None => Failure(BadSymbol(c, k))
        case Some(row) => Success(ChildStep(ls, k, c, row, j, g))
  }

  // ---------------------------------------------------------------------------
  // The whole pass
  // ---------------------------------------------------------------------------

  /** The state `build` leaves behind, and the error that stopped it, if any. */
  datatype Outcome = Outcome(levels: Arena, crash: Option<BuildError>)

  /** Pattern positions k.. against column c, then the remaining columns. */
  function RunSymbols(data: seq<seq<string>>, pattern: seq<string>, g: int, ls: Arena, c: nat, k: nat): Outcome
    requires Rectangular(data) && c < NumCols(data) && k <= |pattern| && |ls| == |pattern| && WellFormed(ls)
    decreases NumCols(data) - c, |pattern| - k
  {
    if k == |pattern| then RunColumns(data, pattern, g, ls, c + 1)
    else
      StepWellFormed(data, pattern, g, ls, c, k);
      match Step(data, pattern, g, ls, c, k)
      case Failure(e) => Outcome(ls, Some(e))
      case Success(ls') => RunSymbols(data, pattern, g, ls', c, k + 1)
  }

  /** Columns c.. of the matrix, in order. */
  function RunColumns(data: seq<seq<string>>, pattern: seq<string>, g: int, ls: Arena, c: nat): Outcome
    requires Rectangular(data) && c <= NumCols(data) && |ls| == |pattern| && WellFormed(ls)
    decreases NumCols(data) - c, |pattern| + 1
  {
    if c == NumCols(data) then Outcome(ls, None) else RunSymbols(data, pattern, g, ls, c, 0)
  }

  /** The levels of a new tree: one empty level per pattern position. */
  function FreshArena(n: nat): (ls: Arena)
    ensures |ls| == n && forall k :: 0 <= k < n ==> ls[k] == EmptyLevel()
  {
    seq(n, _ => EmptyLevel())
  }

  // ---------------------------------------------------------------------------
  // Growing the arena keeps what was there
  // ---------------------------------------------------------------------------

  /** `ls'` has the same levels as `ls`, each with at least the same nodes. */
  predicate Extends(ls: Arena, ls': Arena)
  {
    |ls'| == |ls| && forall k :: 0 <= k < |ls| ==> ls[k].nodes <= ls'[k].nodes
  }

  lemma ExtendsAt(ls: Arena, ls': Arena, h: Handle)
    requires Extends(ls, ls') && ValidHandle(ls, h)
    ensures ValidHandle(ls', h) && At(ls', h) == At(ls, h)
  {
    assert ls[h.level].nodes <= ls'[h.level].nodes;
  }

  lemma {:induction false} PathSumExtends(ls: Arena, ls': Arena, ps: seq<Handle>)
    requires Extends(ls, ls') && forall j :: 0 <= j < |ps| ==> ValidHandle(ls, ps[j])
    ensures forall j :: 0 <= j < |ps| ==> ValidHandle(ls', ps[j])
    ensures PathSum(ls', ps) == PathSum(ls, ps)
  {
    forall j | 0 <= j < |ps| ensures ValidHandle(ls', ps[j]) {
      ExtendsAt(ls, ls', ps[j]);
    }
    if ps != [] {
      ExtendsAt(ls, ls', ps[0]);
      PathSumExtends(ls, ls', ps[1..]);
    }
  }

  lemma ParentsShapeExtends(ls: Arena, ls': Arena, k: nat, ps: seq<Handle>)
    requires Extends(ls, ls') && k < |ls| && ParentsShape(ls, k, ps)
    ensures ParentsShape(ls', k, ps)
  {
    if k > 0 {
      assert ls[k - 1].nodes <= ls'[k - 1].nodes;
    }
  }

  /** A level that did not change keeps its shape when the others grow. */
  lemma LevelShapeExtends(ls: Arena, ls': Arena, k: nat)
    requires Extends(ls, ls') && k < |ls| && ls'[k] == ls[k] && LevelShape(ls, k)
    ensures LevelShape(ls', k)
  {
    forall i | 0 <= i < |ls'[k].nodes| ensures ParentsShape(ls', k, ls'[k].nodes[i].parents) {
      ParentsShapeExtends(ls, ls', k, ls[k].nodes[i].parents);
    }
  }

  /** The parent list of a node on level k whose nodes of level k - 1 did not change keeps its shape. */
  lemma LevelParentsExtend(ls: Arena, ls': Arena, k: nat)
    requires Extends(ls, ls') && k < |ls| && LevelShape(ls, k)
    ensures forall i :: 0 <= i < |ls[k].nodes| ==> ParentsShape(ls', k, ls[k].nodes[i].parents)
  {
    forall i | 0 <= i < |ls[k].nodes| ensures ParentsShape(ls', k, ls[k].nodes[i].parents) {
      ParentsShapeExtends(ls, ls', k, ls[k].nodes[i].parents);
    }
  }

  // ---------------------------------------------------------------------------
  // Every step keeps the arena well formed
  // ---------------------------------------------------------------------------

  lemma RootStepShape(ls: Arena, c: nat, row: int)
    requires WellFormed(ls) && |ls| > 0
    ensures Extends(ls, RootStep(ls, c, row)) && WellFormed(RootStep(ls, c, row))
    ensures forall k :: 0 < k < |ls| ==> RootStep(ls, c, row)[k] == ls[k]
    ensures RootStep(ls, c, row)[0].nodes == ls[0].nodes + [Node(Pos(row, c), ls[0].tail, [], 1)]
  {
    var ls' := RootStep(ls, c, row);
    var l, l' := ls[0], ls'[0];
    var m := |l.nodes|;
    assert LevelShape(ls, 0);
    assert l'.nodes == l.nodes + [Node(Pos(row, c), l.tail, [], 1)];
    assert Extends(ls, ls');
    assert PredecessorChain(l'.nodes, 0) by {
      forall i | 0 <= i < |l'.nodes|
        ensures l'.nodes[i].predecessor == (if i == 0 then None else Some(Handle(0, i - 1)))
      {
        if i < m {
          assert l'.nodes[i] == l.nodes[i];
        }
      }
    }
    assert l'.start == l.start + [Handle(0, m)];
    assert FrontierShape(l', 0);
    forall i | 0 <= i < |l'.nodes| ensures ParentsShape(ls', 0, l'.nodes[i].parents) {
      if i < m {
        assert l'.nodes[i] == l.nodes[i];
      }
    }
    assert LevelShape(ls', 0);
    forall k | 0 < k < |ls'| ensures LevelShape(ls', k) {
      assert LevelShape(ls, k);
      LevelShapeExtends(ls, ls', k);
    }
  }

  lemma ChildStepShape(ls: Arena, k: nat, c: nat, row: int, j: nat, g: int)
    requires WellFormed(ls) && 0 < k < |ls| && j < |ls[k - 1].start|
    requires LevelShape(ls, k - 1) && WithinGap(c, ls[k - 1].nodes[ls[k - 1].start[j].index].pos.col, g)
    ensures var ls' := ChildStep(ls, k, c, row, j, g);
            Extends(ls, ls') && WellFormed(ls') &&
            (forall m :: 0 <= m < |ls| && m != k && m != k - 1 ==> ls'[m] == ls[m]) &&
            ls'[k - 1].nodes == ls[k - 1].nodes &&
            ls'[k - 1].start == Without(ls[k - 1].start, ls[k - 1].start[j]) &&
            ls'[k].start == ls[k].start + [Handle(k, |ls[k].nodes|)] &&
            |ls'[k].nodes| == |ls[k].nodes| + 1 && ls'[k].nodes[..|ls[k].nodes|] == ls[k].nodes &&
            (forall m :: 0 <= m < |ls| && m != k ==> |ls'[m].nodes| == |ls[m].nodes|)
  {
    var ls' := ChildStep(ls, k, c, row, j, g);
    var p := ls[k - 1].start[j];
    var parents := Walk(ls[k - 1].nodes, k - 1, Some(p), c, g);
    var node := Node(Pos(row, c), ls[k].tail, parents, PathSum(ls, parents));
    var h := Handle(k, |ls[k].nodes|);
    assert ls'[k] == ls[k].AddNode(node).SetTail(h).SetStart(h);
    assert ls'[k - 1] == ls[k - 1].UpdateStart(Without(ls[k - 1].start, p));
    assert Extends(ls, ls');
    ChildLowerShape(ls, ls', k, j);
    assert ParentsShape(ls', k, parents);
    ChildUpperShape(ls, ls', k, node);
    forall m' | 0 <= m' < |ls'| ensures LevelShape(ls', m') {
      if m' != k && m' != k - 1 {
        assert LevelShape(ls, m');
        LevelShapeExtends(ls, ls', m');
      }
    }
  }

  /** Level k - 1 after a child step: same nodes, the chosen frontier entry gone. */
  lemma ChildLowerShape(ls: Arena, ls': Arena, k: nat, j: nat)
    requires WellFormed(ls) && 0 < k < |ls| && j < |ls[k - 1].start| && Extends(ls, ls')
    requires ls'[k - 1] == ls[k - 1].UpdateStart(Without(ls[k - 1].start, ls[k - 1].start[j]))
    ensures LevelShape(ls', k - 1)
  {
    assert LevelShape(ls, k - 1);
    FrontierWithout(ls[k - 1], k - 1, j);
    LevelParentsExtend(ls, ls', k - 1);
  }

  /** Dropping entry j from a frontier leaves a frontier. */
  lemma FrontierWithout(l: Level, k: nat, j: nat)
    requires FrontierShape(l, k) && j < |l.start|
    ensures FrontierShape(l.UpdateStart(Without(l.start, l.start[j])), k)
  {
    var s := l.start;
    forall x | 0 <= x < |s| && x != j ensures s[x] != s[j] {
      if x < j { assert s[x].index < s[j].index; } else { assert s[j].index < s[x].index; }
    }
    WithoutOne(s, j);
    var s' := s[..j] + s[j + 1..];
    forall a | 0 <= a < |s'| ensures s'[a] == s[if a < j then a else a + 1] {
    }
  }

  /** Level k after a child step: one new node at the end, the new tail and last frontier entry. */
  lemma ChildUpperShape(ls: Arena, ls': Arena, k: nat, node: Node)
    requires WellFormed(ls) && 0 < k < |ls| && Extends(ls, ls')
    requires ls'[k] == ls[k].AddNode(node).SetTail(Handle(k, |ls[k].nodes|)).SetStart(Handle(k, |ls[k].nodes|))
    requires node.predecessor == ls[k].tail && ParentsShape(ls', k, node.parents)
    ensures LevelShape(ls', k)
  {
    var l, l' := ls[k], ls'[k];
    var m := |l.nodes|;
    assert LevelShape(ls, k);
    assert PredecessorChain(l'.nodes, k) by {
      forall i | 0 <= i < |l'.nodes|
        ensures l'.nodes[i].predecessor == (if i == 0 then None else Some(Handle(k, i - 1)))
      {
        if i < m {
          assert l'.nodes[i] == l.nodes[i];
        }
      }
    }
    assert FrontierShape(l', k);
    LevelParentsExtend(ls, ls', k);
    forall i | 0 <= i < |l'.nodes| ensures ParentsShape(ls', k, l'.nodes[i].parents) {
      if i < m {
        assert l'.nodes[i] == l.nodes[i];
      }
    }
  }

  lemma StepWellFormed(data: seq<seq<string>>, pattern: seq<string>, g: int, ls: Arena, c: nat, k: nat)
    requires Rectangular(data) && c < NumCols(data) && k < |pattern| && |ls| == |pattern| && WellFormed(ls)
    ensures Step(data, pattern, g, ls, c, k).Success? ==>
              |Step(data, pattern, g, ls, c, k).value| == |ls| &&
              WellFormed(Step(data, pattern, g, ls, c, k).value) &&
              Extends(ls, Step(data, pattern, g, ls, c, k).value)
  {
    var symbol := pattern[k];
    if symbol in Column(data, c) && RowOf(symbol).Some? {
      var row := RowOf(symbol).value;
      if k == 0 {
        RootStepShape(ls, c, row);
      } else {
        assert LevelShape(ls, k - 1);
        var j := ChosenStart(ls[k - 1].nodes, ls[k - 1].start, c, g);
        if j.Some? {
          ChildStepShape(ls, k, c, row, j.value, g);
        }
      }
    }
  }

  // ---------------------------------------------------------------------------
  // The construction invariant
  // ---------------------------------------------------------------------------

  /**
   * The node `h` stands for a match of its pattern symbol: its column holds
   * that symbol, its row is the symbol's digit, and each parent lies at most
   * `g` columns before it.
   */
  predicate NodeFits(data: seq<seq<string>>, pattern: seq<string>, g: int, ls: Arena, h: Handle)
    requires Rectangular(data) && WellFormed(ls) && |ls| == |pattern| && ValidHandle(ls, h)
  {
    ParentsValid(ls, h);
    var n := At(ls, h);
    n.pos.col < NumCols(data) && pattern[h.level] in Column(data, n.pos.col) &&
    RowOf(pattern[h.level]) == Some(n.pos.row) &&
    forall j :: 0 <= j < |n.parents| ==> WithinGap(n.pos.col, At(ls, n.parents[j]).pos.col, g)
  }

  /** What holds of the levels after every step of `build`. */
  predicate Inv(data: seq<seq<string>>, pattern: seq<string>, g: int, ls: Arena)
  {
    Rectangular(data) && |ls| == |pattern| && WellFormed(ls) && PathsCounted(ls) &&
    forall k, i :: 0 <= k < |ls| && 0 <= i < |ls[k].nodes| ==> NodeFits(data, pattern, g, ls, Handle(k, i))
  }

  /** A new tree satisfies the invariant. */
  lemma FreshInv(data: seq<seq<string>>, pattern: seq<string>, g: int)
    requires Rectangular(data)
    ensures Inv(data, pattern, g, FreshArena(|pattern|))
  {
    var ls := FreshArena(|pattern|);
    forall k | 0 <= k < |ls| ensures LevelShape(ls, k) {
      assert ls[k] == EmptyLevel();
    }
  }

  /** A node the step did not touch still satisfies everything it did before. */
  lemma NodeCarried(data: seq<seq<string>>, pattern: seq<string>, g: int, ls: Arena, ls': Arena, h: Handle)
    requires Rectangular(data) && |ls| == |pattern| && WellFormed(ls) && WellFormed(ls') && Extends(ls, ls')
    requires ValidHandle(ls, h) && NodeCounted(ls, h) && NodeFits(data, pattern, g, ls, h)
    ensures ValidHandle(ls', h) && NodeCounted(ls', h) && NodeFits(data, pattern, g, ls', h)
  {
    ExtendsAt(ls, ls', h);
    ParentsValid(ls, h);
    var ps := At(ls, h).parents;
    PathSumExtends(ls, ls', ps);
    forall j | 0 <= j < |ps| ensures At(ls', ps[j]) == At(ls, ps[j]) {
      ExtendsAt(ls, ls', ps[j]);
    }
  }

  /** A step that adds the single node `added`, counted and fitting, keeps the invariant. */
  lemma OneNewNodeInv(data: seq<seq<string>>, pattern: seq<string>, g: int, ls: Arena, ls': Arena, added: Handle)
    requires Inv(data, pattern, g, ls) && WellFormed(ls') && Extends(ls, ls')
    requires added.level < |ls| && |ls'[added.level].nodes| == |ls[added.level].nodes| + 1
    requires added.index == |ls[added.level].nodes|
    requires forall m :: 0 <= m < |ls| && m != added.level ==> |ls'[m].nodes| == |ls[m].nodes|
    requires NodeCounted(ls', added) && NodeFits(data, pattern, g, ls', added)
    ensures Inv(data, pattern, g, ls')
  {
    forall k, i | 0 <= k < |ls'| && 0 <= i < |ls'[k].nodes|
      ensures NodeCounted(ls', Handle(k, i)) && NodeFits(data, pattern, g, ls', Handle(k, i))
    {
      if Handle(k, i) != added {
        NodeCarried(data, pattern, g, ls, ls', Handle(k, i));
      }
    }
  }

  lemma RootStepInv(data: seq<seq<string>>, pattern: seq<string>, g: int, ls: Arena, c: nat, row: int)
    requires Inv(data, pattern, g, ls) && |ls| > 0 && c < NumCols(data)
    requires pattern[0] in Column(data, c) && RowOf(pattern[0]) == Some(row)
    ensures Inv(data, pattern, g, RootStep(ls, c, row))
  {
    var ls' := RootStep(ls, c, row);
    RootStepShape(ls, c, row);
    OneNewNodeInv(data, pattern, g, ls, ls', Handle(0, |ls[0].nodes|));
  }

  lemma ChildStepInv(data: seq<seq<string>>, pattern: seq<string>, g: int, ls: Arena, k: nat, c: nat, row: int, j: nat)
    requires Inv(data, pattern, g, ls) && 0 < k < |ls| && c < NumCols(data) && j < |ls[k - 1].start|
    requires LevelShape(ls, k - 1) && WithinGap(c, ls[k - 1].nodes[ls[k - 1].start[j].index].pos.col, g)
    requires pattern[k] in Column(data, c) && RowOf(pattern[k]) == Some(row)
    ensures Inv(data, pattern, g, ChildStep(ls, k, c, row, j, g))
  {
    var ls' := ChildStep(ls, k, c, row, j, g);
    ChildStepShape(ls, k, c, row, j, g);
    ChildNodeFits(data, pattern, g, ls, k, c, row, j);
    OneNewNodeInv(data, pattern, g, ls, ls', Handle(k, |ls[k].nodes|));
  }

  /** The node a child step adds is counted and fits. */
  lemma ChildNodeFits(data: seq<seq<string>>, pattern: seq<string>, g: int, ls: Arena, k: nat, c: nat, row: int, j: nat)
    requires Rectangular(data) && |ls| == |pattern| && WellFormed(ls)
    requires 0 < k < |ls| && c < NumCols(data) && j < |ls[k - 1].start|
    requires LevelShape(ls, k - 1) && WithinGap(c, ls[k - 1].nodes[ls[k - 1].start[j].index].pos.col, g)
    requires pattern[k] in Column(data, c) && RowOf(pattern[k]) == Some(row)
    ensures WellFormed(ChildStep(ls, k, c, row, j, g)) && |ChildStep(ls, k, c, row, j, g)[k].nodes| == |ls[k].nodes| + 1
    ensures NodeCounted(ChildStep(ls, k, c, row, j, g), Handle(k, |ls[k].nodes|))
    ensures NodeFits(data, pattern, g, ChildStep(ls, k, c, row, j, g), Handle(k, |ls[k].nodes|))
  {
    var ls' := ChildStep(ls, k, c, row, j, g);
    ChildStepShape(ls, k, c, row, j, g);
    var m := |ls[k].nodes|;
    var p := ls[k - 1].start[j];
    var parents := Walk(ls[k - 1].nodes, k - 1, Some(p), c, g);
    WalkInGap(ls[k - 1].nodes, k - 1, Some(p), c, g);
    assert At(ls', Handle(k, m)) == Node(Pos(row, c), ls[k].tail, parents, PathSum(ls, parents));
    PathSumExtends(ls, ls', parents);
    forall q | 0 <= q < |parents| ensures At(ls', parents[q]) == At(ls, parents[q]) {
      ExtendsAt(ls, ls', parents[q]);
    }
  }

  lemma StepKeepsInv(data: seq<seq<string>>, pattern: seq<string>, g: int, ls: Arena, c: nat, k: nat)
    requires Inv(data, pattern, g, ls) && c < NumCols(data) && k < |pattern|
    ensures Step(data, pattern, g, ls, c, k).Success? ==> Inv(data, pattern, g, Step(data, pattern, g, ls, c, k).value)
  {
    var symbol := pattern[k];
    if symbol in Column(data, c) && RowOf(symbol).Some? {
      var row := RowOf(symbol).value;
      if k == 0 {
        RootStepInv(data, pattern, g, ls, c, row);
      } else {
        assert LevelShape(ls, k - 1);
        var j := ChosenStart(ls[k - 1].nodes, ls[k - 1].start, c, g);
        if j.Some? {
          ChildStepInv(data, pattern, g, ls, k, c, row, j.value);
        }
      }
    }
  }

  /** A step that succeeds keeps the invariant and leaves the rest of the pass to run from its result. */
  lemma StepAdvances(data: seq<seq<string>>, pattern: seq<string>, g: int, ls: Arena, ls': Arena, c: nat, k: nat)
    requires Inv(data, pattern, g, ls) && c < NumCols(data) && k < |pattern|
    requires Step(data, pattern, g, ls, c, k) == Success(ls')
    ensures Inv(data, pattern, g, ls')
    ensures RunSymbols(data, pattern, g, ls', c, k + 1) == RunSymbols(data, pattern, g, ls, c, k)
  {
    StepKeepsInv(data, pattern, g, ls, c, k);
  }

  /** A step that fails ends the pass with the levels as they were before it. */
  lemma StepStops(data: seq<seq<string>>, pattern: seq<string>, g: int, ls: Arena, c: nat, k: nat)
    requires Inv(data, pattern, g, ls) && c < NumCols(data) && k < |pattern|
    requires Step(data, pattern, g, ls, c, k).Failure?
    ensures RunSymbols(data, pattern, g, ls, c, k) == Outcome(ls, Some(Step(data, pattern, g, ls, c, k).error))
  {
  }

  lemma {:induction false} RunSymbolsKeepsInv(data: seq<seq<string>>, pattern: seq<string>, g: int, ls: Arena, c: nat, k: nat)
    requires Inv(data, pattern, g, ls) && c < NumCols(data) && k <= |pattern|
    ensures Inv(data, pattern, g, RunSymbols(data, pattern, g, ls, c, k).levels)
    decreases NumCols(data) - c, |pattern| - k
  {
    if k == |pattern| {
      RunColumnsKeepsInv(data, pattern, g, ls, c + 1);
    } else {
      StepKeepsInv(data, pattern, g, ls, c, k);
      if Step(data, pattern, g, ls, c, k).Success? {
        RunSymbolsKeepsInv(data, pattern, g, Step(data, pattern, g, ls, c, k).value, c, k + 1);
      }
    }
  }

  /** Whatever `build` leaves behind, even when it stops early, satisfies the invariant. */
  lemma {:induction false} RunColumnsKeepsInv(data: seq<seq<string>>, pattern: seq<string>, g: int, ls: Arena, c: nat)
    requires Inv(data, pattern, g, ls) && c <= NumCols(data)
    ensures Inv(data, pattern, g, RunColumns(data, pattern, g, ls, c).levels)
    decreases NumCols(data) - c, |pattern| + 1
  {
    if c < NumCols(data) {
      RunSymbolsKeepsInv(data, pattern, g, ls, c, 0);
    }
  }

  // ---------------------------------------------------------------------------
  // What one step does
  // ---------------------------------------------------------------------------

  /** Some frontier node of level k - 1 lies within the gap of column c. */
  predicate FrontierReaches(ls: Arena, k: nat, c: nat, g: int)
    requires 0 < k < |ls|
  {
    var l := ls[k - 1];
    exists j :: 0 <= j < |l.start| && l.start[j].index < |l.nodes| && WithinGap(c, l.nodes[l.start[j].index].pos.col, g)
  }

  /**
   * A step adds a node exactly when pattern[k] occurs in the column and, past
   * the first level, some frontier node is within the gap; the node goes at
   * the end of level k and of its frontier, at (row of the symbol, c), and no
   * other level gains or loses a node. A symbol without a final digit stops
   * the construction at that point, and only when a node would be created.
   */
  lemma StepOutcomes(data: seq<seq<string>>, pattern: seq<string>, g: int, ls: Arena, c: nat, k: nat)
    requires Rectangular(data) && c < NumCols(data) && k < |pattern| && |ls| == |pattern| && WellFormed(ls)
    ensures var matched := pattern[k] in Column(data, c) && (k == 0 || FrontierReaches(ls, k, c, g));
            var r := Step(data, pattern, g, ls, c, k);
            (!matched ==> r == Success(ls)) &&
            (matched && RowOf(pattern[k]).None? ==> r == Failure(BadSymbol(c, k))) &&
            (matched && RowOf(pattern[k]).Some? ==>
               r.Success? && |r.value| == |ls| &&
               |r.value[k].nodes| == |ls[k].nodes| + 1 && r.value[k].nodes[..|ls[k].nodes|] == ls[k].nodes &&
               r.value[k].nodes[|ls[k].nodes|].pos == Pos(RowOf(pattern[k]).value, c) &&
               r.value[k].start == ls[k].start + [Handle(k, |ls[k].nodes|)] &&
               (forall m :: 0 <= m < |ls| && m != k ==> r.value[m].nodes == ls[m].nodes))
  {
    var symbol := pattern[k];
    if symbol in Column(data, c) && k > 0 {
      assert LevelShape(ls, k - 1);
      var j := ChosenStart(ls[k - 1].nodes, ls[k - 1].start, c, g);
      if j.Some? {
        assert FrontierReaches(ls, k, c, g);
        if RowOf(symbol).Some? {
          ChildStepShape(ls, k, c, RowOf(symbol).value, j.value, g);
        }
      }
    }
  }

  /**
   * The new node of a child step: its first parent is the chosen frontier
   * node p, its parents are p and the nodes added just before it on level
   * k - 1, as far back as they stay within the gap, its count is the sum of
   * theirs, and p leaves the frontier of level k - 1.
   */
  lemma ChildParentsRun(ls: Arena, k: nat, c: nat, row: int, j: nat, g: int)
    requires 0 < k < |ls| && j < |ls[k - 1].start|
    requires LevelShape(ls, k - 1) && WithinGap(c, ls[k - 1].nodes[ls[k - 1].start[j].index].pos.col, g)
    ensures |ChildStep(ls, k, c, row, j, g)[k].nodes| == |ls[k].nodes| + 1
    ensures var n := ChildStep(ls, k, c, row, j, g)[k].nodes[|ls[k].nodes|];
            var p := ls[k - 1].start[j];
            |n.parents| > 0 && n.parents[0] == p &&
            (forall q :: 0 <= q < |n.parents| ==>
               n.parents[q] == Handle(k - 1, p.index - q) && n.parents[q].index < |ls[k - 1].nodes| &&
               WithinGap(c, ls[k - 1].nodes[n.parents[q].index].pos.col, g)) &&
            (|n.parents| <= p.index ==> !WithinGap(c, ls[k - 1].nodes[p.index - |n.parents|].pos.col, g)) &&
            n.path == PathSum(ls, n.parents)
    ensures var p := ls[k - 1].start[j];
            p !in ChildStep(ls, k, c, row, j, g)[k - 1].start &&
            |ChildStep(ls, k, c, row, j, g)[k - 1].start| == |ls[k - 1].start| - 1
  {
    var p := ls[k - 1].start[j];
    var s := ls[k - 1].start;
    var nodes := ls[k - 1].nodes;
    var parents := Walk(nodes, k - 1, Some(p), c, g);
    WalkStartsAt(nodes, k - 1, p, c, g);
    WalkInGap(nodes, k - 1, Some(p), c, g);
    var node := Node(Pos(row, c), ls[k].tail, parents, PathSum(ls, parents));
    var h := Handle(k, |ls[k].nodes|);
    var ls' := ChildStep(ls, k, c, row, j, g);
    assert ls'[k] == ls[k].AddNode(node).SetTail(h).SetStart(h);
    assert ls'[k].nodes[|ls[k].nodes|] == node;
    assert ls'[k - 1].start == Without(s, p);
    FrontierDrop(ls[k - 1], k - 1, j);
  }

  /** Dropping a frontier entry shortens the frontier by exactly one. */
  lemma FrontierDrop(l: Level, k: nat, j: nat)
    requires FrontierShape(l, k) && j < |l.start|
    ensures |Without(l.start, l.start[j])| == |l.start| - 1
  {
    var s := l.start;
    forall x | 0 <= x < |s| && x != j ensures s[x] != s[j] {
      if x < j { assert s[x].index < s[j].index; } else { assert s[j].index < s[x].index; }
    }
    WithoutOne(s, j);
  }

  // ---------------------------------------------------------------------------
  // Nodes of a level are added in strictly increasing column order
  // ---------------------------------------------------------------------------

  /** While column c is processed at position k: levels before k reach column c at most, the others stay before c. */
  predicate ColsUpTo(ls: Arena, c: nat, k: nat)
  {
    forall m, i :: 0 <= m < |ls| && 0 <= i < |ls[m].nodes| ==>
      ls[m].nodes[i].pos.col < (if m < k then c + 1 else c)
  }

  /** On every level, a node added later lies in a strictly later column. */
  predicate TimeOrdered(ls: Arena)
  {
    forall m, i, j :: 0 <= m < |ls| && 0 <= i < j < |ls[m].nodes| ==>
      ls[m].nodes[i].pos.col < ls[m].nodes[j].pos.col
  }

  lemma StepOrdered(data: seq<seq<string>>, pattern: seq<string>, g: int, ls: Arena, c: nat, k: nat)
    requires Rectangular(data) && c < NumCols(data) && k < |pattern| && |ls| == |pattern| && WellFormed(ls)
    requires ColsUpTo(ls, c, k) && TimeOrdered(ls)
    ensures Step(data, pattern, g, ls, c, k).Success? ==>
              ColsUpTo(Step(data, pattern, g, ls, c, k).value, c, k + 1) &&
              TimeOrdered(Step(data, pattern, g, ls, c, k).value)
  {
    StepOutcomes(data, pattern, g, ls, c, k);
    var r := Step(data, pattern, g, ls, c, k);
    if r.Success? {
      if r.value == ls {
        assert ColsUpTo(ls, c, k + 1);
      } else {
        AppendOrdered(ls, r.value, c, k);
      }
    }
  }

  /** Adding one node in column c at the end of level k keeps the column order. */
  lemma AppendOrdered(ls: Arena, ls': Arena, c: nat, k: nat)
    requires k < |ls| && ColsUpTo(ls, c, k) && TimeOrdered(ls) && |ls'| == |ls|
    requires |ls'[k].nodes| == |ls[k].nodes| + 1 && ls'[k].nodes[..|ls[k].nodes|] == ls[k].nodes
    requires ls'[k].nodes[|ls[k].nodes|].pos.col == c
    requires forall m :: 0 <= m < |ls| && m != k ==> ls'[m].nodes == ls[m].nodes
    ensures ColsUpTo(ls', c, k + 1) && TimeOrdered(ls')
  {
    var n := |ls[k].nodes|;
    forall i | 0 <= i < n ensures ls'[k].nodes[i] == ls[k].nodes[i] {
      assert ls'[k].nodes[..n][i] == ls'[k].nodes[i];
    }
  }

  /**
   * The parents of a node are distinct and newest first: each lies in a
   * strictly earlier column than the parent listed before it.
   */
  lemma ParentsNewestFirst(ls: Arena, h: Handle)
    requires WellFormed(ls) && TimeOrdered(ls) && ValidHandle(ls, h)
    ensures var ps := At(ls, h).parents;
            Distinct(ps) && (forall q :: 0 <= q < |ps| ==> ValidHandle(ls, ps[q])) &&
            forall q1, q2 :: 0 <= q1 < q2 < |ps| ==> At(ls, ps[q1]).pos.col > At(ls, ps[q2]).pos.col
  {
    ParentsValid(ls, h);
    assert LevelShape(ls, h.level);
    var ps := At(ls, h).parents;
    assert ParentsShape(ls, h.level, ps);
    forall q1, q2 | 0 <= q1 < q2 < |ps| ensures ps[q1] != ps[q2] && At(ls, ps[q1]).pos.col > At(ls, ps[q2]).pos.col {
      assert ps[q1].index > ps[q2].index;
    }
  }

  lemma {:induction false} RunSymbolsOrdered(data: seq<seq<string>>, pattern: seq<string>, g: int, ls: Arena, c: nat, k: nat)
    requires Rectangular(data) && c < NumCols(data) && k <= |pattern| && |ls| == |pattern| && WellFormed(ls)
    requires ColsUpTo(ls, c, k) && TimeOrdered(ls)
    ensures TimeOrdered(RunSymbols(data, pattern, g, ls, c, k).levels)
    decreases NumCols(data) - c, |pattern| - k
  {
    if k == |pattern| {
      RunColumnsOrdered(data, pattern, g, ls, c + 1);
    } else {
      StepWellFormed(data, pattern, g, ls, c, k);
      StepOrdered(data, pattern, g, ls, c, k);
      if Step(data, pattern, g, ls, c, k).Success? {
        RunSymbolsOrdered(data, pattern, g, Step(data, pattern, g, ls, c, k).value, c, k + 1);
      }
    }
  }

  lemma {:induction false} RunColumnsOrdered(data: seq<seq<string>>, pattern: seq<string>, g: int, ls: Arena, c: nat)
    requires Rectangular(data) && c <= NumCols(data) && |ls| == |pattern| && WellFormed(ls)
    requires ColsUpTo(ls, c, 0) && TimeOrdered(ls)
    ensures TimeOrdered(RunColumns(data, pattern, g, ls, c).levels)
    decreases NumCols(data) - c, |pattern| + 1
  {
    if c < NumCols(data) {
      RunSymbolsOrdered(data, pattern, g, ls, c, 0);
    }
  }

  // ---------------------------------------------------------------------------
  // A fresh build
  // ---------------------------------------------------------------------------

  /**
   * Building a new tree leaves levels that satisfy the invariant, with the
   * nodes of each level in strictly increasing column order.
   */
  lemma FreshBuild(data: seq<seq<string>>, pattern: seq<string>, g: int)
    requires Rectangular(data)
    ensures var ls := RunColumns(data, pattern, g, FreshArena(|pattern|), 0).levels;
            Inv(data, pattern, g, ls) && TimeOrdered(ls)
  {
    FreshInv(data, pattern, g);
    RunColumnsKeepsInv(data, pattern, g, FreshArena(|pattern|), 0);
    RunColumnsOrdered(data, pattern, g, FreshArena(|pattern|), 0);
  }

  /**
   * If the first pattern symbol occurs in no column, a new tree stays empty
   * and nothing fails: it reports no occurrences and no pattern locations.
   */
  lemma NoRootNoNodes(data: seq<seq<string>>, pattern: seq<string>, g: int)
    requires Rectangular(data) && |pattern| > 0
    requires forall c :: 0 <= c < NumCols(data) ==> pattern[0] !in Column(data, c)
    ensures RunColumns(data, pattern, g, FreshArena(|pattern|), 0) == Outcome(FreshArena(|pattern|), None)
    ensures WellFormed(FreshArena(|pattern|))
    ensures TotalPaths(FreshArena(|pattern|)[|pattern| - 1].nodes) == 0 && AllChains(FreshArena(|pattern|)) == []
  {
    FreshInv(data, pattern, g);
    RunColumnsStalled(data, pattern, g, 0);
    assert FreshArena(|pattern|)[|pattern| - 1] == EmptyLevel();
  }

  lemma {:induction false} RunColumnsStalled(data: seq<seq<string>>, pattern: seq<string>, g: int, c: nat)
    requires Rectangular(data) && |pattern| > 0 && c <= NumCols(data) && WellFormed(FreshArena(|pattern|))
    requires forall c :: 0 <= c < NumCols(data) ==> pattern[0] !in Column(data, c)
    ensures RunColumns(data, pattern, g, FreshArena(|pattern|), c) == Outcome(FreshArena(|pattern|), None)
    decreases NumCols(data) - c, |pattern| + 1
  {
    if c < NumCols(data) {
      RunSymbolsStalled(data, pattern, g, c, 0);
    }
  }

  lemma {:induction false} RunSymbolsStalled(data: seq<seq<string>>, pattern: seq<string>, g: int, c: nat, k: nat)
    requires Rectangular(data) && |pattern| > 0 && c < NumCols(data) && k <= |pattern| && WellFormed(FreshArena(|pattern|))
    requires forall c :: 0 <= c < NumCols(data) ==> pattern[0] !in Column(data, c)
    ensures RunSymbols(data, pattern, g, FreshArena(|pattern|), c, k) == Outcome(FreshArena(|pattern|), None)
    decreases NumCols(data) - c, |pattern| - k
  {
    var ls := FreshArena(|pattern|);
    if k == |pattern| {
      RunColumnsStalled(data, pattern, g, c + 1);
    } else {
      if k > 0 {
        assert ls[k - 1].start == [];
      }
      assert Step(data, pattern, g, ls, c, k) == Success(ls);
      RunSymbolsStalled(data, pattern, g, c, k + 1);
    }
  }

  // ---------------------------------------------------------------------------
  // Every root-to-leaf chain is an occurrence of the pattern
  // ---------------------------------------------------------------------------

  /**
   * Columns `cols` spell the pattern: pattern[i] occurs in column cols[i], and
   * each column follows the previous one with at most `g` columns between them.
   */
  predicate Occurrence(data: seq<seq<string>>, pattern: seq<string>, g: int, cols: seq<int>)
    requires Rectangular(data)
  {
    |cols| == |pattern| &&
    (forall i :: 0 <= i < |cols| ==> 0 <= cols[i] < NumCols(data) && pattern[i] in Column(data, cols[i])) &&
    (forall i :: 0 < i < |cols| ==> WithinGap(cols[i], cols[i - 1], g))
  }

  /** The columns a chain of nodes visits. */
  function ChainCols(ls: Arena, ch: seq<Handle>): (cols: seq<int>)
    requires forall i :: 0 <= i < |ch| ==> ValidHandle(ls, ch[i])
    ensures |cols| == |ch| && forall i :: 0 <= i < |ch| ==> cols[i] == At(ls, ch[i]).pos.col
  {
    seq(|ch|, i requires 0 <= i < |ch| => At(ls, ch[i]).pos.col)
  }

  /** Under the invariant, a chain through every level visits the columns of an occurrence. */
  lemma ChainIsOccurrence(data: seq<seq<string>>, pattern: seq<string>, g: int, ls: Arena, ch: seq<Handle>)
    requires Inv(data, pattern, g, ls) && IsChain(ls, ch) && |ch| == |ls|
    ensures Occurrence(data, pattern, g, ChainCols(ls, ch))
  {
    var cols := ChainCols(ls, ch);
    forall i | 0 <= i < |ch| ensures 0 <= cols[i] < NumCols(data) && pattern[i] in Column(data, cols[i]) {
      assert NodeFits(data, pattern, g, ls, Handle(ch[i].level, ch[i].index));
    }
    forall i | 0 < i < |ch| ensures WithinGap(cols[i], cols[i - 1], g) {
      assert NodeFits(data, pattern, g, ls, Handle(ch[i].level, ch[i].index));
      var n := At(ls, ch[i]);
      assert ch[i - 1] in n.parents;
      var q :| 0 <= q < |n.parents| && n.parents[q] == ch[i - 1];
    }
  }

  /** Every pattern location the tree reports is an occurrence of the pattern. */
  lemma AllChainsAreOccurrences(data: seq<seq<string>>, pattern: seq<string>, g: int, ls: Arena)
    requires Inv(data, pattern, g, ls) && |ls| > 0
    ensures forall ch :: ch in AllChains(ls) ==>
              (forall i :: 0 <= i < |ch| ==> ValidHandle(ls, ch[i])) && Occurrence(data, pattern, g, ChainCols(ls, ch))
  {
    forall ch | ch in AllChains(ls)
      ensures (forall i :: 0 <= i < |ch| ==> ValidHandle(ls, ch[i])) && Occurrence(data, pattern, g, ChainCols(ls, ch))
    {
      AllChainsExact(ls, ch);
      ChainIsOccurrence(data, pattern, g, ls, ch);
    }
  }
}
