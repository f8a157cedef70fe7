/**
 * The `Branch` transform stack as the scene uses it: an object whose
 * methods move the cursor `currNode` over a tree of `BranchNode`s and
 * append to it.  The nodes are kept in an arena (`nodes`), so a node's
 * parent link, its children and the cursor are arena indices; every method
 * is proved to do what the corresponding function of BranchModel says.
 */
module TransformStack {
  import opened Matrices
  import opened BranchModel

  class Branch {
    /** Every `BranchNode` created since the last reset; the root is `nodes[0]`. */
    var nodes: seq<Node>
    /** The arena index of `currNode`. */
    var currNode: nat

    /** The abstract state: the arena and the cursor. */
    function Model(): Tree
      reads this
    {
      Tree(nodes, currNode)
    }

    ghost predicate Valid()
      reads this
    {
      BranchModel.Valid(Model())
    }

    /** `new Branch(matrix)`: a root holding `matrix`, the cursor on it. */
    constructor (matrix: Matrix)
      ensures Valid() && Model() == Init(matrix)
    {
      nodes := [Node(matrix, None, [])];
      currNode := 0;
    }

    /** `goToBranch(branchPoint)`: no bounds check in the source, so the child must exist. */
    method GoToBranch(branchPoint: nat) returns (r: nat)
      requires Valid() && branchPoint < |nodes[currNode].children|
      modifies this
      ensures (Model(), r) == BranchModel.GoToBranch(old(Model()), branchPoint) && Valid()
    {
      currNode := nodes[currNode].children[branchPoint];
      r := branchPoint;
    }

    /** `branchOut()`: a copy of the current matrix in a new child, which becomes current. */
    method BranchOut() returns (childIndex: nat)
      requires Valid()
      modifies this
      ensures (Model(), childIndex) == BranchModel.BranchOut(old(Model())) && Valid()
    {
      var newMatrix := nodes[currNode].m;
      var child := |nodes|;
      nodes := nodes + [Node(newMatrix, Some(currNode), [])];
      var added := AddChild(nodes[currNode], child);
      nodes := nodes[currNode := added.0];
      childIndex := added.1;
      currNode := nodes[currNode].children[childIndex];
      assert nodes == BranchModel.BranchOut(old(Model())).0.nodes;
    }

    /** `goBack()`: to the parent if there is one; at the root, nothing happens. */
    method GoBack()
      requires Valid()
      modifies this
      ensures Model() == BranchModel.GoBack(old(Model())) && Valid()
    {
      if nodes[currNode].parent.Some? {
        currNode := nodes[currNode].parent.value;
      }
    }

    /** `getMatrix()`: the current node's matrix. */
    method GetMatrix() returns (m: Matrix)
      requires Valid()
      ensures m == CurrentMatrix(Model())
    {
      m := nodes[currNode].m;
    }

    /**
     * `getMatrix().rotate(...)`, `.translate(...)`, `.scale(...)`: the
     * caller edits the current node's matrix in place.
     */
    method Edit(op: Op)
      requires Valid()
      modifies this
      ensures Model() == BranchModel.Edit(old(Model()), op) && Valid()
    {
      nodes := nodes[currNode := nodes[currNode].(m := Then(nodes[currNode].m, op))];
    }

    /** `reset(matrix)`: the old tree is dropped and a new root holding `matrix` becomes current. */
    method Reset(matrix: Matrix)
      modifies this
      ensures Valid() && Model() == Init(matrix)
    {
      nodes := [Node(matrix, None, [])];
      currNode := 0;
    }
  }
}
