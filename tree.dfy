/** `Tree`: a node of a binary tree over the vertices of a planar graph.
    Vertices and half-edges are handles into the planar graph's arenas;
    the graph is passed where the node asks a half-edge for its target. */
module Trees {
  import opened Exceptions
  import opened PlanarEmbedding

  class Tree {
    const color: int
    const vertex: nat
    var parent: Tree?
    var leftEdge: Option<nat>
    var leftChild: Tree?
    var rightEdge: Option<nat>
    var rightChild: Tree?

    /** `new Tree(parent, vertex, color)`: the arguments stored unchanged,
        no edges and no children yet. */
    constructor(parent: Tree?, vertex: nat, color: int)
      ensures this.parent == parent && this.vertex == vertex && this.color == color
      ensures leftEdge == None && leftChild == null && rightEdge == None && rightChild == null
    {
      this.parent := parent;
      this.vertex := vertex;
      this.color := color;
      leftEdge, leftChild := None, null;
      rightEdge, rightChild := None, null;
    }

    /** `setLeftEdge(edge)`: records the edge, then hangs a new node for
        the edge's target, with this node as parent and the same colour,
        on the left and returns it.  A `null` edge is recorded and then
        throws NullPointerException.  The right side is not touched. */
    method SetLeftEdge(E: Embedding, edge: Option<nat>) returns (r: Result<Tree>)
      requires Wf(E) && (edge.Some? ==> edge.value < |E.halfEdges|)
      modifies this
      ensures leftEdge == edge && parent == old(parent)
      ensures rightEdge == old(rightEdge) && rightChild == old(rightChild)
      ensures edge.None? ==> r == Throw(NullPointer) && leftChild == old(leftChild)
      ensures edge.Some? ==> r.Ok? && fresh(r.value) && leftChild == r.value
      ensures edge.Some? ==> r.value.parent == this && r.value.vertex == Target(E, edge.value) && r.value.color == color
      ensures edge.Some? ==> r.value.leftEdge == None && r.value.leftChild == null
      ensures edge.Some? ==> r.value.rightEdge == None && r.value.rightChild == null
    {
      leftEdge := edge;
      if edge.None? {
        return Throw(NullPointer);
      }
      var child := new Tree(this, Target(E, edge.value), color);
      leftChild := child;
      return Ok(child);
    }

    /** `setRightEdge(edge)`: the same on the right side; the left side is
        not touched. */
    method SetRightEdge(E: Embedding, edge: Option<nat>) returns (r: Result<Tree>)
      requires Wf(E) && (edge.Some? ==> edge.value < |E.halfEdges|)
      modifies this
      ensures rightEdge == edge && parent == old(parent)
      ensures leftEdge == old(leftEdge) && leftChild == old(leftChild)
      ensures edge.None? ==> r == Throw(NullPointer) && rightChild == old(rightChild)
      ensures edge.Some? ==> r.Ok? && fresh(r.value) && rightChild == r.value
      ensures edge.Some? ==> r.value.parent == this && r.value.vertex == Target(E, edge.value) && r.value.color == color
      ensures edge.Some? ==> r.value.leftEdge == None && r.value.leftChild == null
      ensures edge.Some? ==> r.value.rightEdge == None && r.value.rightChild == null
    {
      rightEdge := edge;
      if edge.None? {
        return Throw(NullPointer);
      }
      var child := new Tree(this, Target(E, edge.value), color);
      rightChild := child;
      return Ok(child);
    }
  }
}
