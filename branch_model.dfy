/**
 * A value model of the `Branch`/`BranchNode` transform stack.
 *
 * All nodes created since the last `reset` live in an arena; a node refers
 * to its parent and to its children by arena index, the root is at index 0,
 * and the cursor `currNode` is an index too.  The functions below are the
 * specification the `Branch` class is proved against; the lemmas state the
 * properties the per-frame routine relies on.
 */
module BranchModel {
  import opened Matrices

  datatype Option<T> = None | Some(value: T)

  /** A `BranchNode`: its matrix, the arena index of its parent (None for a root), its children in creation order. */
  datatype Node = Node(m: Matrix, parent: Option<nat>, children: seq<nat>)

  /** The tree built since the last reset, and the cursor. */
  datatype Tree = Tree(nodes: seq<Node>, curr: nat)

  /** Node `n` (not the root) has a parent created before it that lists it among its children. */
  ghost predicate ParentLinked(nodes: seq<Node>, n: nat)
    requires n < |nodes|
  {
    nodes[n].parent.Some? && nodes[n].parent.value < n &&
    n in nodes[nodes[n].parent.value].children
  }

  /** The `k`-th child of node `p` exists, was created after `p` and after its elder siblings, and has `p` as parent. */
  ghost predicate ChildLinked(nodes: seq<Node>, p: nat, k: nat)
    requires p < |nodes| && k < |nodes[p].children|
  {
    var c := nodes[p].children[k];
    p < c < |nodes| && nodes[c].parent == Some(p) &&
    (k > 0 ==> nodes[p].children[k - 1] < c)
  }

  /** The invariant every operation keeps. */
  ghost predicate LinkedArena(nodes: seq<Node>) {
    |nodes| > 0 && nodes[0].parent == None &&
    (forall n: nat :: 0 < n < |nodes| ==> ParentLinked(nodes, n)) &&
    (forall p: nat, k: nat :: p < |nodes| && k < |nodes[p].children| ==> ChildLinked(nodes, p, k))
  }

  ghost predicate Valid(t: Tree) {
    LinkedArena(t.nodes) && t.curr < |t.nodes|
  }

  /** The current node's children. */
  function Children(t: Tree): seq<nat>
    requires t.curr < |t.nodes|
  {
    t.nodes[t.curr].children
  }

  /** `getMatrix()`: the current node's matrix. */
  function CurrentMatrix(t: Tree): Matrix
    requires t.curr < |t.nodes|
  {
    t.nodes[t.curr].m
  }

  /** `new Branch(matrix)` and `reset(matrix)`: a single root holding `matrix`, the cursor on it. */
  function Init(matrix: Matrix): (t: Tree)
    ensures Valid(t)
    ensures CurrentMatrix(t) == matrix
    ensures t.nodes[t.curr].parent == None && Children(t) == []
  {
    Tree([Node(matrix, None, [])], 0)
  }

  /** `BranchNode.addChild`: appends `child` and returns the position it was given. */
  function AddChild(n: Node, child: nat): (r: (Node, nat))
    ensures r.0.m == n.m && r.0.parent == n.parent
    ensures |r.0.children| == |n.children| + 1 && r.0.children[..|n.children|] == n.children
    ensures r.1 == |n.children| && r.0.children[r.1] == child
  {
    var n' := n.(children := n.children + [child]);
    (n', |n'.children| - 1)
  }

  /**
   * The current node gains a new last child holding `m`, placed at the end
   * of the arena; the cursor does not move.
   */
  function AppendChild(t: Tree, m: Matrix): (r: Tree)
    requires Valid(t)
    ensures Valid(r) && r.curr == t.curr
    ensures |r.nodes| == |t.nodes| + 1 && r.nodes[|t.nodes|] == Node(m, Some(t.curr), [])
    ensures r.nodes[t.curr] == t.nodes[t.curr].(children := Children(t) + [|t.nodes|])
    ensures forall n :: 0 <= n < |t.nodes| && n != t.curr ==> r.nodes[n] == t.nodes[n]
  {
    var c := |t.nodes|;
    var r := Tree(t.nodes[t.curr := AddChild(t.nodes[t.curr], c).0] + [Node(m, Some(t.curr), [])], t.curr);
    assert Children(r) == Children(t) + [c];
    assert forall n: nat :: 0 < n < |r.nodes| ==> ParentLinked(r.nodes, n) by {
      forall n: nat | 0 < n < |r.nodes| ensures ParentLinked(r.nodes, n) {
        if n < c {
          assert ParentLinked(t.nodes, n);
          var p := t.nodes[n].parent.value;
          if p == t.curr {
            assert n in r.nodes[p].children;
          }
        }
      }
    }
    assert forall p: nat, k: nat :: p < |r.nodes| && k < |r.nodes[p].children| ==> ChildLinked(r.nodes, p, k) by {
      forall p: nat, k: nat | p < |r.nodes| && k < |r.nodes[p].children| ensures ChildLinked(r.nodes, p, k) {
        if p == t.curr {
          if k < |Children(t)| {
            assert ChildLinked(t.nodes, p, k);
          } else if k > 0 {
            assert ChildLinked(t.nodes, p, k - 1);
          }
        } else {
          assert ChildLinked(t.nodes, p, k);
        }
      }
    }
    r
  }

  /**
   * `branchOut()`: a new child of the current node, holding a copy of its
   * matrix, is appended to its children and becomes current; the result is
   * the child's position among its siblings.
   */
  function BranchOut(t: Tree): (r: (Tree, nat))
    requires Valid(t)
    ensures Valid(r.0)
    ensures r.1 == |Children(t)|
    ensures |r.0.nodes| == |t.nodes| + 1 && r.0.curr == |t.nodes|
    ensures r.0.nodes[r.0.curr] == Node(CurrentMatrix(t), Some(t.curr), [])
    ensures r.0.nodes[t.curr] == t.nodes[t.curr].(children := Children(t) + [r.0.curr])
    ensures forall n :: 0 <= n < |t.nodes| && n != t.curr ==> r.0.nodes[n] == t.nodes[n]
  {
    var t1 := AppendChild(t, CurrentMatrix(t));
    var childIndex := |Children(t1)| - 1;
    (t1.(curr := Children(t1)[childIndex]), childIndex)
  }

  /** `goBack()`: the cursor moves to the parent; at the root nothing changes. */
  function GoBack(t: Tree): (r: Tree)
    requires Valid(t)
    ensures Valid(r) && r.nodes == t.nodes
    ensures t.nodes[t.curr].parent.Some? ==> r.curr == t.nodes[t.curr].parent.value
    ensures r == t <==> t.curr == 0
    ensures t.curr in Children(r) || t.curr == 0
  {
    if t.nodes[t.curr].parent.Some? then
      assert t.curr > 0;
      assert ParentLinked(t.nodes, t.curr);
      t.(curr := t.nodes[t.curr].parent.value)
    else
      assert t.curr > 0 ==> ParentLinked(t.nodes, t.curr);
      t
  }

  /**
   * `goToBranch(branchPoint)`: the cursor moves to that child of the current
   * node, and `branchPoint` is returned.  The source does not check the
   * index, so the caller must supply one that exists.
   */
  function GoToBranch(t: Tree, branchPoint: nat): (r: (Tree, nat))
    requires Valid(t) && branchPoint < |Children(t)|
    ensures Valid(r.0) && r.0.nodes == t.nodes && r.1 == branchPoint
    ensures r.0.curr == Children(t)[branchPoint]
    ensures r.0.nodes[r.0.curr].parent == Some(t.curr)
  {
    assert ChildLinked(t.nodes, t.curr, branchPoint);
    (t.(curr := Children(t)[branchPoint]), branchPoint)
  }

  /** `getMatrix().rotate(...)` and the like: `op` is applied to the current node's matrix and to no other. */
  function Edit(t: Tree, op: Op): (r: Tree)
    requires Valid(t)
    ensures Valid(r) && r.curr == t.curr && |r.nodes| == |t.nodes|
    ensures CurrentMatrix(r) == Then(CurrentMatrix(t), op)
    ensures r.nodes[r.curr].parent == t.nodes[t.curr].parent && Children(r) == Children(t)
    ensures forall n :: 0 <= n < |t.nodes| && n != t.curr ==> r.nodes[n] == t.nodes[n]
  {
    var r := t.(nodes := t.nodes[t.curr := t.nodes[t.curr].(m := Then(CurrentMatrix(t), op))]);
    assert forall n: nat :: 0 < n < |r.nodes| ==> ParentLinked(r.nodes, n) by {
      forall n: nat | 0 < n < |r.nodes| ensures ParentLinked(r.nodes, n) {
        assert ParentLinked(t.nodes, n);
      }
    }
    assert forall p: nat, k: nat :: p < |r.nodes| && k < |r.nodes[p].children| ==> ChildLinked(r.nodes, p, k) by {
      forall p: nat, k: nat | p < |r.nodes| && k < |r.nodes[p].children| ensures ChildLinked(r.nodes, p, k) {
        assert ChildLinked(t.nodes, p, k);
      }
    }
    r
  }

  /** The edits `ops` applied, one after the other, to the current node. */
  function EditAll(t: Tree, ops: seq<Op>): (r: Tree)
    requires Valid(t)
    ensures Valid(r) && r.curr == t.curr && |r.nodes| == |t.nodes|
    ensures CurrentMatrix(r) == ThenAll(CurrentMatrix(t), ops)
    ensures r.nodes[r.curr].parent == t.nodes[t.curr].parent && Children(r) == Children(t)
    ensures forall n :: 0 <= n < |t.nodes| && n != t.curr ==> r.nodes[n] == t.nodes[n]
    decreases |ops|
  {
    if ops == [] then t else EditAll(Edit(t, ops[0]), ops[1..])
  }

  /** The arena indices met by following parent links from `n`: `n` first, the root last. */
  function PathToRoot(t: Tree, n: nat): (path: seq<nat>)
    requires Valid(t) && n < |t.nodes|
    ensures |path| > 0 && path[0] == n && path[|path| - 1] == 0
    ensures forall i :: 0 <= i < |path| ==> path[i] < |t.nodes|
    ensures forall i :: 0 < i < |path| ==> t.nodes[path[i - 1]].parent == Some(path[i])
    decreases n
  {
    if n == 0 then [0]
    else
      assert ParentLinked(t.nodes, n);
      [n] + PathToRoot(t, t.nodes[n].parent.value)
  }

  /**
   * Every cursor position is reachable from the root by parent links, and
   * only the root has no parent.
   */
  lemma CursorReachable(t: Tree)
    requires Valid(t)
    ensures var path := PathToRoot(t, t.curr);
      t.nodes[path[|path| - 1]].parent == None && path[0] == t.curr
    ensures t.nodes[t.curr].parent == None <==> t.curr == 0
  {
    if t.curr > 0 {
      assert ParentLinked(t.nodes, t.curr);
    }
  }

  /**
   * Round trip: branch out, edit the new child, go back, and jump to the
   * branch point that `branchOut` returned: the cursor is on the same child
   * and its matrix is the parent's matrix at branch time followed by the edits.
   */
  lemma RoundTrip(t: Tree, ops: seq<Op>)
    requires Valid(t)
    ensures var (t1, k) := BranchOut(t);
      var t3 := GoBack(EditAll(t1, ops));
      t3.curr == t.curr && k < |Children(t3)| &&
      var (t4, k') := GoToBranch(t3, k);
      k' == k && t4.curr == t1.curr &&
      CurrentMatrix(t4) == ThenAll(CurrentMatrix(t), ops) &&
      t3.nodes[t.curr].m == CurrentMatrix(t)
  {
    var t3 := Sprout(t, ops).0;
    assert Children(t3) == Children(t) + [|t.nodes|];
  }

  /** `n` consecutive numbers starting at `lo`. */
  function Consecutive(lo: nat, n: nat): (s: seq<nat>)
    ensures |s| == n && forall i :: 0 <= i < n ==> s[i] == lo + i
    decreases n
  {
    if n == 0 then [] else [lo] + Consecutive(lo + 1, n - 1)
  }

  /**
   * `k := branchOut()`, the edits `ops` on the new child, then `goBack()`:
   * the parent gains one child holding its matrix followed by `ops`.
   * SproutIsBranchEditBack shows that this is what the three calls do.
   */
  function Sprout(t: Tree, ops: seq<Op>): (r: (Tree, nat))
    requires Valid(t)
  {
    (AppendChild(t, ThenAll(CurrentMatrix(t), ops)), |Children(t)|)
  }

  lemma SproutIsBranchEditBack(t: Tree, ops: seq<Op>)
    requires Valid(t)
    ensures var (t1, k) := BranchOut(t);
      Sprout(t, ops) == (GoBack(EditAll(t1, ops)), k)
  {
    var (t1, k) := BranchOut(t);
    var t3 := GoBack(EditAll(t1, ops));
    var r := Sprout(t, ops).0;
    assert t3.curr == t.curr;
    forall n | 0 <= n < |r.nodes| ensures t3.nodes[n] == r.nodes[n] {
      if n == |t.nodes| {
        assert t3.nodes[n] == Node(ThenAll(CurrentMatrix(t), ops), Some(t.curr), []);
      }
    }
    assert t3.nodes == r.nodes;
  }

  /** `k := branchOut()`, the edits `ops`, `goBack()` for each entry of `edits`: the state and the indices returned. */
  function BranchEach(t: Tree, edits: seq<seq<Op>>): (r: (Tree, seq<nat>))
    requires Valid(t)
    ensures Valid(r.0) && r.0.curr == t.curr && |r.0.nodes| == |t.nodes| + |edits|
    ensures r.0.nodes[t.curr].m == CurrentMatrix(t) && r.0.nodes[t.curr].parent == t.nodes[t.curr].parent
    ensures forall n :: 0 <= n < |t.nodes| && n != t.curr ==> r.0.nodes[n] == t.nodes[n]
    decreases |edits|
  {
    if edits == [] then (t, [])
    else
      var s := Sprout(t, edits[0]);
      var rest := BranchEach(s.0, edits[1..]);
      (rest.0, [s.1] + rest.1)
  }

  /**
   * Successive `branchOut`s from one node, each followed by edits and a
   * `goBack`, return 0, 1, 2, ... counted from the node's child count.
   */
  lemma {:induction false} BranchEachReturns(t: Tree, edits: seq<seq<Op>>)
    requires Valid(t)
    ensures BranchEach(t, edits).1 == Consecutive(|Children(t)|, |edits|)
    decreases |edits|
  {
    if edits != [] {
      var s := Sprout(t, edits[0]);
      BranchEachReturns(s.0, edits[1..]);
      assert |Children(s.0)| == |Children(t)| + 1;
    }
  }

  /** ... and the node's children grow by the new nodes, in creation order. */
  lemma {:induction false} BranchEachChildren(t: Tree, edits: seq<seq<Op>>)
    requires Valid(t)
    ensures Children(BranchEach(t, edits).0) == Children(t) + Consecutive(|t.nodes|, |edits|)
    decreases |edits|
  {
    if edits != [] {
      var t2 := Sprout(t, edits[0]).0;
      var n := |t.nodes|;
      calc {
        Children(BranchEach(t, edits).0);
        Children(BranchEach(t2, edits[1..]).0);
        { BranchEachChildren(t2, edits[1..]); }
        Children(t2) + Consecutive(n + 1, |edits| - 1);
        (Children(t) + [n]) + Consecutive(n + 1, |edits| - 1);
        Children(t) + ([n] + Consecutive(n + 1, |edits| - 1));
        Children(t) + Consecutive(n, |edits|);
      }
    }
  }

  /**
   * Successive `branchOut`s from one node, each followed by edits and a
   * `goBack`, give child `i` the node's matrix at branch time followed by
   * `edits[i]`: the edits made on one sibling never reach another.
   */
  lemma {:induction false} BranchEachMatrices(t: Tree, edits: seq<seq<Op>>, i: nat)
    requires Valid(t) && i < |edits|
    ensures BranchEach(t, edits).0.nodes[|t.nodes| + i].m == ThenAll(CurrentMatrix(t), edits[i])
    decreases |edits|
  {
    var t2 := Sprout(t, edits[0]).0;
    var r := BranchEach(t2, edits[1..]).0;
    assert BranchEach(t, edits).0 == r;
    assert CurrentMatrix(t2) == CurrentMatrix(t);
    if i == 0 {
      assert r.nodes[|t.nodes|] == t2.nodes[|t.nodes|];
    } else {
      BranchEachMatrices(t2, edits[1..], i - 1);
      assert CurrentMatrix(t2) == CurrentMatrix(t);
      assert edits[1..][i - 1] == edits[i];
      assert |t2.nodes| + (i - 1) == |t.nodes| + i;
    }
  }

  /** `r` extends `t`: no node disappears, parents are kept, children and matrix edits are only appended. */
  ghost predicate Extends(t: Tree, r: Tree) {
    |t.nodes| <= |r.nodes| &&
    forall n :: 0 <= n < |t.nodes| ==>
      r.nodes[n].parent == t.nodes[n].parent &&
      t.nodes[n].children <= r.nodes[n].children &&
      t.nodes[n].m.ops <= r.nodes[n].m.ops
  }

  /** One call on the stack between two resets. */
  datatype Cmd = BranchOutCmd | GoBackCmd | GoToBranchCmd(branchPoint: nat) | EditCmd(op: Op)

  /** One call; None when `goToBranch` names a child that does not exist (the source then loses its cursor). */
  function Step(t: Tree, c: Cmd): (r: Option<Tree>)
    requires Valid(t)
    ensures r.Some? ==> Valid(r.value) && Extends(t, r.value)
    ensures r.None? <==> c.GoToBranchCmd? && c.branchPoint >= |Children(t)|
  {
    match c
    case BranchOutCmd => Some(BranchOut(t).0)
    case GoBackCmd => Some(GoBack(t))
    case GoToBranchCmd(k) => if k < |Children(t)| then Some(GoToBranch(t, k).0) else None
    case EditCmd(op) => Some(Edit(t, op))
  }

  /** A sequence of calls, stopping at the first `goToBranch` out of range. */
  function Run(t: Tree, cmds: seq<Cmd>): (r: Option<Tree>)
    requires Valid(t)
    ensures r.Some? ==> Valid(r.value)
    decreases |cmds|
  {
    if cmds == [] then Some(t)
    else match Step(t, cmds[0])
      case None => None
      case Some(t1) => Run(t1, cmds[1..])
  }

  lemma ExtendsTransitive(a: Tree, b: Tree, c: Tree)
    requires Extends(a, b) && Extends(b, c)
    ensures Extends(a, c)
  {
    forall n | 0 <= n < |a.nodes|
      ensures c.nodes[n].parent == a.nodes[n].parent
      ensures a.nodes[n].children <= c.nodes[n].children
      ensures a.nodes[n].m.ops <= c.nodes[n].m.ops
    {
      assert b.nodes[n].children <= c.nodes[n].children;
      assert b.nodes[n].m.ops <= c.nodes[n].m.ops;
    }
  }

  /**
   * No sequence of calls removes or reorders children, re-parents a node or
   * undoes an edit: children lists and matrices only grow at the end.
   */
  lemma {:induction false} RunExtends(t: Tree, cmds: seq<Cmd>)
    requires Valid(t) && Run(t, cmds).Some?
    ensures Extends(t, Run(t, cmds).value)
    decreases |cmds|
  {
    if cmds != [] {
      var t1 := Step(t, cmds[0]).value;
      RunExtends(t1, cmds[1..]);
      ExtendsTransitive(t, t1, Run(t1, cmds[1..]).value);
    }
  }

  /**
   * A branch point obtained from node `p` keeps naming the same child
   * whatever calls follow, and still gives a valid `goToBranch` from `p`.
   */
  lemma BranchPointStable(t: Tree, cmds: seq<Cmd>, p: nat, k: nat)
    requires Valid(t) && p < |t.nodes| && k < |t.nodes[p].children|
    requires Run(t, cmds).Some?
    ensures var r := Run(t, cmds).value;
      p < |r.nodes| && k < |r.nodes[p].children| && r.nodes[p].children[k] == t.nodes[p].children[k]
  {
    RunExtends(t, cmds);
  }
}
