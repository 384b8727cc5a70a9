/** Which heap nodes make up a binary tree: the shape of the tree, apart from what the nodes hold. */
module Shapes {
  datatype Shape<N> = Nil | Cell(node: N, left: Shape<N>, right: Shape<N>)

  ghost function Nodes<N>(g: Shape<N>): set<N> {
    if g.Nil? then {} else {g.node} + Nodes(g.left) + Nodes(g.right)
  }

  /** No node occurs twice. */
  ghost predicate Sep<N>(g: Shape<N>) {
    g.Cell? ==>
      && g.node !in Nodes(g.left) && g.node !in Nodes(g.right) && Nodes(g.left) !! Nodes(g.right)
      && Sep(g.left) && Sep(g.right)
  }

  /** The nodes of a tree exist, so what a call does to other nodes leaves the tree alone. */
  lemma NodesAllocated<N>(g: Shape<N>)
    ensures forall m | m in Nodes(g) :: allocated(m)
  {
    if g.Nil? {
    } else {
      NodesAllocated(g.left);
      NodesAllocated(g.right);
    }
  }
}
