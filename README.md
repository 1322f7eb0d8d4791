# NetTree in Dafny

A model of the net-tree pattern matcher of the `nettree` package. The tree is built over a
series-by-time matrix of symbols: one pass over the columns (time slices), and within each column one
step per pattern position. A match of `pattern[0]` creates a root. A match of `pattern[k]`, k > 0,
creates a node whose parents are nodes of level k - 1 in strictly earlier columns, with at most `max_gap`
columns between parent and child (so up to `max_gap + 1` columns back), reached from the newest such
frontier node. `occurrences` sums the path counts of the last level. `patterns` lists every
root-to-leaf chain with a depth-first search. The `Symbol` comparison type is modelled as well.

Seven modules model four source files. `Symbols`, `Nodes` and `Levels` each model one file. nettree/nettree.py
is split across `Graph`, `Construction` and `NetTrees`. `Wrappers` is the only module that all the others share:

- `Wrappers` (wrappers.dfy): `Option` and `Result`.
- `Symbols` (symbol.dfy): `Symbol`, its operator table and its five comparisons, over a present-or-missing
  cell value. It also gives Python's string order as an explicit lexicographic order, with proofs that
  it is a strict total order.
- `Nodes` (node.dfy): `Node`, addressed by `Handle(level, index)`, with its `parents` and `path` setters.
- `Levels` (level.dfy): `Level` with `add_node`, the `head`/`start`/`tail` setters and `update_start`.
- `Graph` (graph.dfy): the levels as an arena of `Level` values and the shape every built tree has. It
  also defines the root-to-node chains that `patterns` enumerates. Its main theorem is that the path
  counts count exactly those chains, and that every chain is listed once.
- `Construction` (construction.dfy): `build` as functions. These cover the frontier scan, the walk back
  along the predecessor chain, one (column, position) step and the whole pass. Lemmas show that every step
  keeps the construction invariant, that nodes of a level are added in column order, and that every
  reported chain is an occurrence of the pattern.
- `NetTrees` (nettree.dfy): the `NetTree` class. `Build` runs the source's nested loops, the backwards
  frontier scan and the parent loop, and is proved equal to the functional pass. `Occurrences` and
  `Patterns` are also here, with the recursive `Dfs` as a method over explicit stack, visited and paths lists.

## Model

| member | source | states |
|---|---|---|
| Symbols.Operators | nettree/symbol.py:13-19 | the operator table has exactly the keys `=`, `<=`, `>=`, `<`, `>`, each mapped to the like-named comparison |
| Symbols.CompareByKey | nettree/symbol.py:13-19 | a key selects a comparison exactly when it is one of the five keys, and each key selects its own comparison |
| Symbols.Compare | nettree/symbol.py:24-112 | a missing receiver compares false for every operand and never raises; a present one compares by value with a Symbol or str operand; any other operand raises the operator's error; ordering against a missing Symbol raises, while `=` against it is false |
| Symbols.LexLess | nettree/symbol.py:78-94 | Python's string order: lexicographic on code points, a proper prefix first |
| Symbols.Holds | nettree/symbol.py:42-112 | the relation each operator stands for on two present strings: `=` equality, `<` and `>` the string order, `<=` and `>=` the order or equality |
| Symbols.LexLessIrreflexive | nettree/symbol.py:78-94 | no string is below itself in the string order used by `<` |
| Symbols.LexLessAsymmetric | nettree/symbol.py:78-94 | two strings are never each below the other |
| Symbols.LexTrichotomy | nettree/symbol.py:78-112 | of two strings one is below the other or they are equal |
| Symbols.LexLessTransitive | nettree/symbol.py:78-94 | the string order is transitive |
| Symbols.LexLessIffFirstDifference | nettree/symbol.py:78-94 | a string is below another exactly when it is a proper prefix of it or the first differing character is smaller, in both directions |
| Symbols.CompareConverse | nettree/symbol.py:42-112 | on present values `x < y` equals `y > x`, `x <= y` equals `y >= x`, and `=` is symmetric |
| Symbols.CompareTrichotomy | nettree/symbol.py:24-112 | on present values exactly one of `<`, `=`, `>` holds, and `<=` is `<` or `=` |
| Symbols.CompareLtTransitive | nettree/symbol.py:78-94 | `x < y` and `y < z` give `x < z` |
| Nodes.NewNode | nettree/node.py:4-12 | a new node keeps the given position and predecessor, has no parents and a path count of 0 |
| Nodes.Node.AddParent | nettree/node.py:30-35 | the `parents` setter appends one parent after the earlier ones and changes nothing else |
| Nodes.Node.SetPath | nettree/node.py:37-42 | the `path` setter overwrites the count and changes nothing else |
| Levels.EmptyLevel | nettree/level.py:4-9 | a new level has no nodes, no head, an empty frontier and no tail |
| Levels.Level.AddNode | nettree/level.py:11-15 | `add_node` appends exactly one node; head, frontier and tail are unchanged |
| Levels.Level.SetHead | nettree/level.py:45-50 | the `head` setter changes only the head |
| Levels.Level.SetStart | nettree/level.py:52-57 | the `start` setter appends to the frontier and keeps the earlier entries |
| Levels.Level.UpdateStart | nettree/level.py:59-63 | `update_start` replaces the whole frontier and changes nothing else |
| Levels.Level.SetTail | nettree/level.py:65-70 | the `tail` setter changes only the tail |
| Graph.WithNode | nettree/nettree.py:118-122 | updating a node object is seen through its handle, and every other node and level field stays as it was |
| Graph.ParentsValid | nettree/nettree.py:110-125 | in a well-formed tree roots have no parents and every other node has at least one, all on the level above |
| Graph.PathSum | nettree/nettree.py:110-125 | the sum of the path counts of a list of nodes, as the parent loop accumulates it |
| Graph.TotalPaths | nettree/nettree.py:132 | the sum of the path counts of a level's nodes, the `sum` in `occurrences` |
| Graph.Chains | nettree/nettree.py:149-177 | the chains the search finds for a node: the node alone for a root, otherwise those through its parents |
| Graph.Via | nettree/nettree.py:149-177 | the chains through a parent list, visited from the back as the reversed loop does, each extended by the node |
| Graph.Leaves | nettree/nettree.py:183-189 | the chains of the first j nodes of the last level, leaf by leaf |
| Graph.AllChains | nettree/nettree.py:183-189 | the chains of every node of the last level: what `patterns` returns |
| Graph.PathSumSnoc | nettree/nettree.py:122 | adding one more parent adds exactly that parent's path count to the sum |
| Graph.ChainsCount | nettree/nettree.py:149-171 | the path count of a node equals the number of root-to-node chains the search finds for it |
| Graph.ViaCount | nettree/nettree.py:167-171 | the chains found through a list of parents number the sum of the parents' path counts |
| Graph.LeavesCount | nettree/nettree.py:186-187 | the chains of the first j leaves number the sum of their path counts |
| Graph.OccurrencesCountChains | nettree/nettree.py:132-189 | the sum of the last level's path counts equals the number of chains `patterns` returns |
| Graph.ViaMember | nettree/nettree.py:167-171 | a sequence is found through a list of parents exactly when it ends in the node and its prefix is a chain of one of those parents |
| Graph.ChainsSound | nettree/nettree.py:155-171 | every chain found for a node starts at a root, has one node per level, links consecutive nodes by a parent edge and ends at the node |
| Graph.ChainsComplete | nettree/nettree.py:155-171 | every such root-to-node chain is found |
| Graph.ChainsDistinct | nettree/nettree.py:149-177 | no chain is found twice for one node |
| Graph.ViaDistinct | nettree/nettree.py:167-171 | the chains through distinct parents are pairwise distinct |
| Graph.LeavesDistinct | nettree/nettree.py:185-187 | the chains of the first j leaves are distinct, each a full chain ending at one of those leaves |
| Graph.AllChainsExact | nettree/nettree.py:134-189 | `patterns` lists a sequence exactly when it is a root-to-leaf chain through every level, and lists none twice |
| Graph.LeavesContain | nettree/nettree.py:186-187 | a chain of leaf i is among the chains of the first j leaves when i < j |
| Graph.SingleLevelChains | nettree/nettree.py:39-63 | with a one-symbol pattern every root is its own chain and the occurrences equal the number of roots |
| Construction.NumCols | nettree/nettree.py:28 | the number of columns `enumerate(self.data.T)` walks: the length of the rows; a matrix with no rows has no columns here, where numpy would walk `data.shape[1]` empty columns, and no node can be made either way |
| Construction.WithinGap | nettree/nettree.py:79-81 | the gap test `0 <= c - col - 1 <= max_gap`: the earlier node is in a strictly earlier column, with at most `max_gap` columns between the two; it is also the test of the parent loop at lines 111-113 |
| Construction.Column | nettree/nettree.py:28 | column c of the matrix holds each row's cell c |
| Construction.RowOf | nettree/nettree.py:43 | `int(symbol[-1])` succeeds exactly when the symbol ends in an ASCII digit, and gives a value from 0 to 9 |
| Construction.RowOfDigit | nettree/nettree.py:43 | a symbol ending in the ASCII digit d gives row d |
| Construction.ChosenStart | nettree/nettree.py:71-87 | the chosen frontier entry is within the gap and no later entry is; nothing is chosen only when no entry is within the gap |
| Construction.ChosenStartStep | nettree/nettree.py:78-83 | one step of the backwards scan: the entry at x decides, or the scan continues below it |
| Construction.Walk | nettree/nettree.py:110-125 | the parent walk from p collects p, p - 1, p - 2, and so on, on the level of p |
| Construction.WalkInGap | nettree/nettree.py:111-113 | every collected parent is within the gap, and the node just before the run is not |
| Construction.WalkStartsAt | nettree/nettree.py:110-113 | the walk from a node within the gap starts with that node |
| Construction.Without | nettree/nettree.py:101-104 | the filtered frontier holds exactly the other entries |
| Construction.WithoutOne | nettree/nettree.py:101-104 | removing an entry that occurs once drops just that entry and keeps the others in order |
| Construction.FreshArena | nettree/nettree.py:17 | a new tree has one empty level per pattern position |
| Construction.RootStep | nettree/nettree.py:39-63 | a root step: level 0 gains a node at (row, c) with path 1, linked to the old tail, becomes head if there was none, and joins the frontier as the new tail |
| Construction.ChildStep | nettree/nettree.py:89-125 | a child step: level k gains a node at (row, c) whose parents are the walk from the chosen entry and whose path is their sum; it joins the frontier of level k as the new tail, and the chosen entry leaves the frontier of level k - 1 |
| Construction.Step | nettree/nettree.py:33-125 | one inner-loop iteration: no change when the symbol is not in the column; a root step at level 0; a child step when a frontier entry is within the gap; a failure when a node would be added but the symbol has no final digit |
| Construction.RunSymbols | nettree/nettree.py:33-125 | the rest of a column's pass over the pattern positions, then the remaining columns, stopping at the first failure |
| Construction.RunColumns | nettree/nettree.py:22-125 | the pass over the remaining columns: the levels `build` leaves and the failure that stopped it, if any |
| Construction.RootStepShape | nettree/nettree.py:39-63 | a root step appends a root with path 1 to level 0 and keeps the tree well formed |
| Construction.ChildStepShape | nettree/nettree.py:89-125 | a child step keeps the tree well formed, appends one node to level k and its frontier, removes the chosen entry from the frontier of level k - 1 and touches no other level |
| Construction.FrontierWithout | nettree/nettree.py:100-104 | removing the chosen entry leaves a frontier that is still an ordered subsequence of the level |
| Construction.StepWellFormed | nettree/nettree.py:33-125 | every successful step keeps the tree well formed and only grows it |
| Construction.FreshInv | nettree/nettree.py:9-20 | a new tree satisfies the construction invariant |
| Construction.RootStepInv | nettree/nettree.py:39-63 | a root step keeps the invariant |
| Construction.ChildStepInv | nettree/nettree.py:67-125 | a child step keeps the invariant |
| Construction.ChildNodeFits | nettree/nettree.py:89-125 | the new child has path count equal to its parents' sum, lies at (row of the symbol, c) in a column holding the symbol, and each parent is within the gap |
| Construction.StepKeepsInv | nettree/nettree.py:33-125 | every successful step keeps the invariant |
| Construction.StepAdvances | nettree/nettree.py:33-125 | after a successful step the invariant holds and the rest of the pass continues from its result |
| Construction.StepStops | nettree/nettree.py:43-91 | a failing `int(symbol[-1])` ends the pass with the levels as they were before that step |
| Construction.RunSymbolsKeepsInv | nettree/nettree.py:33-125 | the rest of a column's pass keeps the invariant |
| Construction.RunColumnsKeepsInv | nettree/nettree.py:22-125 | whatever `build` leaves behind, even after stopping early, satisfies the invariant: roots have path 1, other nodes the sum of their parents, and every parent edge respects the gap |
| Construction.StepOutcomes | nettree/nettree.py:39-107 | a node is added exactly when the symbol occurs in the column and, past level 0, some frontier node is within the gap; it goes at the end of its level and frontier at (row of the symbol, c), and no other level gains a node; otherwise nothing changes, or the step fails when the symbol has no final digit |
| Construction.ChildParentsRun | nettree/nettree.py:78-125 | the new node's first parent is the chosen frontier node, its parents are the run of that node's predecessors within the gap, its count is their sum, and the chosen node leaves the frontier |
| Construction.FrontierDrop | nettree/nettree.py:101-104 | removing the chosen entry shortens the frontier by exactly one |
| Construction.StepOrdered | nettree/nettree.py:28-107 | a step keeps each level's nodes in strictly increasing column order |
| Construction.RunSymbolsOrdered | nettree/nettree.py:33-125 | the rest of a column's pass keeps the column order |
| Construction.RunColumnsOrdered | nettree/nettree.py:28-125 | the whole pass keeps the column order |
| Construction.ParentsNewestFirst | nettree/nettree.py:110-125 | a node's parents are distinct and listed newest first, in strictly decreasing columns |
| Construction.FreshBuild | nettree/nettree.py:9-125 | building a new tree yields the invariant and column-ordered levels |
| Construction.NoRootNoNodes | nettree/nettree.py:39-132 | if `pattern[0]` occurs in no column, building leaves every level empty without failing, with no occurrences and no pattern locations |
| Construction.ChainIsOccurrence | nettree/nettree.py:149-171 | under the invariant, a full chain visits columns that spell the pattern with every gap respected |
| Construction.AllChainsAreOccurrences | nettree/nettree.py:134-189 | every location `patterns` reports is an occurrence of the pattern |
| NetTrees.Reverse | nettree/nettree.py:164 | `stack.copy()[::-1]` holds the stack's elements in reverse order |
| NetTrees.AttachParents | nettree/nettree.py:110-125 | the parent loop leaves the node's position and predecessor, attaches exactly the walk's parents and sets its path to their sum |
| NetTrees.AttachStep | nettree/nettree.py:118-125 | one iteration attaches the current node, adds its count, and continues the walk from its predecessor |
| NetTrees.ViaStep | nettree/nettree.py:167-171 | visiting one more parent, from the back, appends that parent's chains extended by the node and the stack |
| NetTrees.Dfs | nettree/nettree.py:149-177 | the search restores `visited` and `stack` and appends every chain through the node, root first, extended by the reversed stack |
| NetTrees.NetTree.constructor | nettree/nettree.py:9-20 | a new tree stores its inputs, has one empty level per pattern position, no cached patterns, and satisfies the invariant |
| NetTrees.NetTree.Build | nettree/nettree.py:22-125 | `build` leaves exactly the levels the functional pass computes, reports where a symbol without a final digit stopped it, and keeps the invariant |
| NetTrees.NetTree.MatchSymbol | nettree/nettree.py:33-125 | one inner-loop iteration performs exactly the functional step, and on failure leaves the levels unchanged |
| NetTrees.NetTree.ChooseStart | nettree/nettree.py:71-87 | the reversed frontier scan returns `ChosenStart`, the newest frontier entry within the gap |
| NetTrees.NetTree.AddRoot | nettree/nettree.py:39-63 | adding a root performs exactly the functional root step |
| NetTrees.NetTree.AddChild | nettree/nettree.py:89-125 | adding a child and running the parent loop performs exactly the functional child step |
| NetTrees.NetTree.Occurrences | nettree/nettree.py:127-132 | `occurrences` is the sum of the last level's path counts; with no levels there is none |
| NetTrees.NetTree.OccurrencesCountPatterns | nettree/nettree.py:127-189 | on a built tree `occurrences` equals the number of chains `patterns` returns |
| NetTrees.NetTree.Patterns | nettree/nettree.py:134-189 | `patterns` returns and caches exactly the chains of every leaf, leaf by leaf, so two calls give equal results; with no levels it returns nothing |

## Left out

- Object identity and aliasing: `Level` and `Node` objects are values kept in the tree's `levels` arena and
  referred to by `Handle(level, index)`. Updating a shared node object is modelled by writing the node back
  (`WithNode`). Identity tests (`n != start_node`, `parent not in visited`) become handle equality. In
  `AddChild` the parent loop runs on a copy of the node that is written back into the level afterwards;
  the loop reads only the nodes of level k - 1, which the earlier updates leave as they were
  (`update_start` replaces only its frontier).
- The `print` tracing in `build` is console output only.
- `plot` and `nettree/plot.py` (matplotlib rendering) are not part of this model.
- numpy: the matrix is a sequence of rows of strings, `data.T` is column extraction, and `symbol in column`
  is membership by equality. A NaN cell is not representable in the matrix. It never equals a pattern
  symbol, so it behaves like any string no symbol equals.
- Construction.RowOf: `int(symbol[-1])` is modelled for ASCII digits only. Python also accepts other Unicode decimal digits.
  A symbol that is empty or does not end in a digit stops `build` with `BadSymbol`, with the levels as
  they were before that step, where Python raises.
- The cache branch of `patterns` (`if self._patterns: return self._patterns`) is dead code, because the
  cache is cleared just before it. It is not modelled.
- `Dfs` passes its `visited`, `paths` and `stack` lists by value and returns them. The source shares and
  mutates them. The mutable default arguments of the inner `DFS` are always overridden by the caller.
- NetTrees.Dfs: requires `visited` to equal the stack and to hold only deeper nodes. These are the only
  lists it is called with, and under them the `visited` test never skips a parent. Other inputs are not
  modelled.
- NetTrees.NetTree.Patterns: requires the levels to be well formed. Every tree the constructor and `Build`
  produce is, because the class invariant implies it.
- A pattern with no symbols has no last level. `occurrences` and `patterns` raise in Python. `Occurrences`
  and `Patterns` return `None` instead.
- `Symbol` values are a string or missing. Other cell types and NaN itself are not modelled.
- `__leq__` and `__geq__` are not Python's operator method names, so `<=` and `>=` on two Symbols do not
  reach them. They are reachable only through the operator table, and that is how they are modelled.
- Completeness of the matching is not claimed: the tree may miss occurrences of the pattern that a full
  search would find. Soundness is proved, in `Construction.AllChainsAreOccurrences`: every reported chain is an occurrence.
