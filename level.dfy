/**
 * The per-pattern-position bookkeeping of nettree/level.py: every node ever
 * added, the first node (`head`, set on level 0 only) and the last node
 * (`tail`), and the frontier `start` of nodes still eligible to seed a match
 * one level further down.
 */
module Levels {
  import opened Wrappers
  import opened Nodes

  datatype Level = Level(nodes: seq<Node>, head: Option<Handle>, start: seq<Handle>, tail: Option<Handle>)
  {
    /** `add_node`: appends exactly one node; `head`, `start` and `tail` are untouched. */
    function AddNode(n: Node): (l: Level)
      ensures l.nodes == nodes + [n]
      ensures l.head == head && l.start == start && l.tail == tail
    {
      this.(nodes := nodes + [n])
    }

    /** The `head` setter. */
    function SetHead(h: Handle): (l: Level)
      ensures l.head == Some(h)
      ensures l.nodes == nodes && l.start == start && l.tail == tail
    {
      this.(head := Some(h))
    }

    /** The `start` setter, which appends to the frontier instead of replacing it. */
    function SetStart(h: Handle): (l: Level)
      ensures l.start == start + [h]
      ensures l.nodes == nodes && l.head == head && l.tail == tail
    {
      this.(start := start + [h])
    }

    /** `update_start`: replaces the whole frontier. */
    function UpdateStart(xs: seq<Handle>): (l: Level)
      ensures l.start == xs
      ensures l.nodes == nodes && l.head == head && l.tail == tail
    {
      this.(start := xs)
    }

    /** The `tail` setter. */
    function SetTail(h: Handle): (l: Level)
      ensures l.tail == Some(h)
      ensures l.nodes == nodes && l.head == head && l.start == start
    {
      this.(tail := Some(h))
    }
  }

  /** `Level()`: no nodes, no head, an empty frontier, no tail. */
  function EmptyLevel(): (l: Level)
    ensures l.nodes == [] && l.head == None && l.start == [] && l.tail == None
  {
    Level([], None, [], None)
  }
}
