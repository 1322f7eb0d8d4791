/**
 * The match node of nettree/node.py. Nodes live in the tree's arena and are
 * referred to by handles; `pos` and `predecessor` are fixed at construction,
 * `parents` only grows and `path` is overwritten by its setter.
 */
module Nodes {
  import opened Wrappers

  /** A reference to the `index`-th node ever added to level `level`. */
  datatype Handle = Handle(level: nat, index: nat)

  /** `(int(symbol[-1]), i_col)`: the row digit of the pattern symbol and the column. */
  datatype Pos = Pos(row: int, col: nat)

  datatype Node = Node(pos: Pos, predecessor: Option<Handle>, parents: seq<Handle>, path: int)
  {
    /** The `parents` setter: appends one parent, leaving the earlier ones in order. */
    function AddParent(p: Handle): (n: Node)
      ensures n.parents == parents + [p]
      ensures n.pos == pos && n.predecessor == predecessor && n.path == path
    {
      this.(parents := parents + [p])
    }

    /** The `path` setter: overwrites the count and nothing else. */
    function SetPath(x: int): (n: Node)
      ensures n.path == x
      ensures n.pos == pos && n.predecessor == predecessor && n.parents == parents
    {
      this.(path := x)
    }
  }

  /** `Node(pos, predecessor)`: no parents yet and a path count of 0. */
  function NewNode(pos: Pos, predecessor: Option<Handle>): (n: Node)
    ensures n.pos == pos && n.predecessor == predecessor
    ensures n.parents == [] && n.path == 0
  {
    Node(pos, predecessor, [], 0)
  }
}
