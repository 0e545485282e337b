/**
 * The command model that the argument parser (kong) builds from the
 * declarations of `mainCmd`: every node has a kind, a name, its aliases in
 * declaration order and a link to its parent.
 *
 * The tree is held flat, as a sequence of nodes in which a parent link is the
 * position of the parent.  A valid tree numbers every parent before its
 * children, which every finite tree admits (number it breadth first) and which
 * makes walking up the parent links terminate.
 */
module CommandTree {
  import opened Wrappers

  /** The kinds of node of kong's model (kong.NodeType). */
  datatype NodeType = ApplicationNode | CommandNode | ArgumentNode

  /** One node; `parent` is None for the root. */
  datatype Node = Node(kind: NodeType, name: string, aliases: seq<string>, parent: Option<nat>)

  datatype Tree = Tree(nodes: seq<Node>) {

    /** Every parent link points to an earlier node. */
    predicate Valid() {
      forall i :: 0 <= i < |nodes| && nodes[i].parent.Some? ==> nodes[i].parent.value < i
    }

    /** `c` is nil or a node of this tree. */
    predicate Holds(c: Option<nat>) {
      c.None? || c.value < |nodes|
    }

    /** `c` is a command node (the loop condition `c != nil && c.Type == kong.CommandNode`). */
    predicate IsCommand(c: Option<nat>)
      requires Holds(c)
    {
      c.Some? && nodes[c.value].kind == CommandNode
    }

    /** `c` is a command node with at least one alias. */
    predicate HasAlias(c: Option<nat>)
      requires Holds(c)
    {
      IsCommand(c) && |nodes[c.value].aliases| > 0
    }

    /** `c` is a command node whose first alias is `s`. */
    predicate FirstAliasIs(c: Option<nat>, s: string)
      requires Holds(c)
    {
      IsCommand(c) && |nodes[c.value].aliases| > 0 && nodes[c.value].aliases[0] == s
    }
  }

  /** The node reached from `c` by following `k` parent links (nil once past the root). */
  function Ancestor(t: Tree, c: Option<nat>, k: nat): (a: Option<nat>)
    requires t.Valid() && t.Holds(c)
    ensures t.Holds(a)
    ensures a.Some? ==> c.Some? && a.value <= c.value
    decreases k
  {
    if k == 0 || c.None? then c else Ancestor(t, t.nodes[c.value].parent, k - 1)
  }
}
