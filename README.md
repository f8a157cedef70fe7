# Transform stack and sphere mesh of the orbital scene

The scene in `CGprojects/proj3/proj3.js` draws the Sun, the Earth and the
Moon. Each frame it rebuilds their model matrices with a small transform
stack, `Branch`, which is a cursor over a tree of `BranchNode`s:

- `reset` starts a new tree from one root.
- `branchOut` creates a child of the current node. The child holds a copy of
  the current matrix. It becomes current, and the call returns its position
  among its siblings, the "branch point".
- `goBack` moves to the parent. At the root it does nothing.
- `goToBranch(k)` moves to the current node's `k`-th child.
- `getMatrix` hands out the current node's matrix. The caller edits it in
  place with `rotate`, `translate` and `scale`.

The Sun's, Earth's and Moon's transforms keep references to the matrices
they were given. The Sun is drawn as soon as its node is built. The Earth
and the Moon are drawn after the frame's tree is complete. No node is
edited after a transform has taken its reference.

The sphere mesh comes from `create_mesh_sphere(gl, DIV)`:

- The vertex loops push 3 position floats and 2 texture floats for each
  point of a (DIV+1) × (DIV+1) grid.
- The index loops push two triangles (six indices) for each of the DIV × DIV
  cells.
- The indices are uploaded as a 16-bit buffer.
- `create_mesh_quad` is the same with fixed lists.

The project has six modules:

- `Matrices` (`matrix.dfy`): a matrix is the list of edits applied to the
  identity. No arithmetic is done. This lets the model say which edits end
  up in which node's matrix.
- `BranchModel` (`branch_model.dfy`): the tree as a value. It is an arena of
  nodes that refer to their parent and children by index, plus the cursor.
  Each operation is a function with a full contract, and the lemmas state
  the stack's properties: the round trip, consecutive branch points,
  independent siblings, and that links are never lost.
- `TransformStack` (`branch.dfy`): the `Branch` class. Its fields are the
  arena and the cursor. Each method is proved equal to the matching
  `BranchModel` function.
- `Frame` (`frame.dfy`): the part of the per-frame routine that builds the
  tree for the Sun, the Earth and the Moon. There is one method per phase,
  each with the exact tree it leaves.
- `Grid` (`grid.dfy`): the shape of a double loop that pushes a cell's
  entries row by row, with its length, position and membership lemmas.
- `Sphere` (`sphere.dfy`): the vertex and index loops as methods, and the
  lemmas about the counts, the cell pattern, the index bounds and the
  16-bit buffer.

## Model

| member | source | states |
|---|---|---|
| Matrices.ThenAll | CGprojects/proj3/proj3.js:648-652 | a chain of in-place edits leaves the matrix's earlier edits followed by the chain, in order |
| BranchModel.Init | CGprojects/proj3/proj3.js:452-454 | a new stack is a single valid root, with no parent and no children, holding the given matrix, and the cursor is on it |
| BranchModel.AddChild | CGprojects/proj3/proj3.js:445-448 | `addChild` appends the child, keeps the earlier children, and returns the new child's position, which is the old child count |
| BranchModel.AppendChild | CGprojects/proj3/proj3.js:463 | adding a fresh node as the current node's last child keeps the tree valid and changes no other node |
| BranchModel.BranchOut | CGprojects/proj3/proj3.js:461-466 | returns the old child count; the new node is current, holds a copy of the parent's matrix, has the old current node as parent and no children; the parent gains exactly that child; the other nodes are unchanged |
| BranchModel.GoBack | CGprojects/proj3/proj3.js:468-471 | moves to the parent when there is one; the result equals the input exactly when the cursor is at the root; the node left is a child of the new current node; no node changes |
| BranchModel.GoToBranch | CGprojects/proj3/proj3.js:456-459 | for an existing child index: moves to that child, whose parent is the old current node, returns the index, and changes no node |
| BranchModel.Edit | CGprojects/proj3/proj3.js:473-475 | an edit through `getMatrix()` changes the current node's matrix and nothing else: not its links, not the cursor, not other nodes |
| BranchModel.EditAll | CGprojects/proj3/proj3.js:648-652 | a chain of edits through `getMatrix()` gives the current node's old matrix followed by the chain, and changes nothing else |
| BranchModel.PathToRoot | CGprojects/proj3/proj3.js:439-443 | from any node, parent links lead to the root through existing nodes |
| BranchModel.CursorReachable | CGprojects/proj3/proj3.js:468-471 | the cursor is always reachable from the root by parent links, and only the root has no parent, so the `goBack` guard fails exactly at the root |
| BranchModel.RoundTrip | CGprojects/proj3/proj3.js:456-471 | `branchOut` returning k, then edits, `goBack` and `goToBranch(k)`: the cursor is back on the same parent and then on the same child, and that child's matrix is the parent's matrix at branch time followed by the edits; the parent's own matrix is unchanged |
| BranchModel.SproutIsBranchEditBack | CGprojects/proj3/proj3.js:461-471 | branching out, editing and going back is the same as adding one child that holds the parent's matrix followed by the edits |
| BranchModel.BranchEach | CGprojects/proj3/proj3.js:461-471 | repeating branch out, edit and go back from one node keeps the tree valid, keeps the cursor and the node's own matrix and parent, leaves every other old node unchanged, and adds one node per repetition |
| BranchModel.BranchEachReturns | CGprojects/proj3/proj3.js:445-448 | successive `branchOut`s from the same node return consecutive branch points, counted from its child count (0, 1, 2, … after a reset) |
| BranchModel.BranchEachChildren | CGprojects/proj3/proj3.js:445-448 | the node's children list grows by the new nodes in creation order |
| BranchModel.BranchEachMatrices | CGprojects/proj3/proj3.js:462 | each sibling's matrix is the parent's matrix followed by its own edits only: branching copies, so edits on one sibling never reach another or the parent |
| BranchModel.Step | CGprojects/proj3/proj3.js:456-471 | any single call other than `reset` keeps the tree valid and only extends it; the only failing call is `goToBranch` with an index at or past the child count |
| BranchModel.Run | CGprojects/proj3/proj3.js:438-480 | any sequence of calls other than `reset` that does not fail leaves a valid tree |
| BranchModel.ExtendsTransitive | CGprojects/proj3/proj3.js:438-480 | extending a tree twice is extending it once |
| BranchModel.RunExtends | CGprojects/proj3/proj3.js:438-480 | no sequence of calls other than `reset` removes or reorders children, re-parents a node or drops a matrix edit |
| BranchModel.BranchPointStable | CGprojects/proj3/proj3.js:456-459 | a branch point taken from a node keeps naming the same child whatever calls other than `reset` follow, so a later `goToBranch` with it from that node is in range |
| TransformStack.Branch.constructor | CGprojects/proj3/proj3.js:452-454 | `new Branch(m)` gives the state `Init(m)` |
| TransformStack.Branch.GoToBranch | CGprojects/proj3/proj3.js:456-459 | the new state and the return value are those of `BranchModel.GoToBranch` |
| TransformStack.Branch.BranchOut | CGprojects/proj3/proj3.js:461-466 | the new state and the returned child index are those of `BranchModel.BranchOut` |
| TransformStack.Branch.GoBack | CGprojects/proj3/proj3.js:468-471 | the new state is that of `BranchModel.GoBack` |
| TransformStack.Branch.GetMatrix | CGprojects/proj3/proj3.js:473-475 | returns the current node's matrix and changes nothing |
| TransformStack.Branch.Edit | CGprojects/proj3/proj3.js:621 | an edit on the matrix `getMatrix()` returned gives the state of `BranchModel.Edit` |
| TransformStack.Branch.Reset | CGprojects/proj3/proj3.js:477-479 | whatever the old tree, the state becomes `Init(m)`, so `getMatrix()` then returns m |
| Frame.PlaceSun | CGprojects/proj3/proj3.js:619-621 | after reset, branch out and the Sun's turn, the tree is a root with one child holding that turn, and the cursor is on it |
| Frame.PlaceEarthOrbit | CGprojects/proj3/proj3.js:637-640 | going back and branching again gives branch point 1 and a second root child holding the orbit turn and the 3-unit offset |
| Frame.PlaceEarth | CGprojects/proj3/proj3.js:646-652 | the Earth's translate, tilt, spin, turn and scale land on a third root child, and the orbit node keeps only the orbit |
| Frame.PlaceMoon | CGprojects/proj3/proj3.js:664-670 | `goBack` and `goToBranch(moonBranchPoint)` reach the orbit node again, and the Moon's edits are appended to the orbit there; the Earth's node is untouched |
| Frame.ComposeFrame | CGprojects/proj3/proj3.js:619-684 | one frame leaves the root holding the identity with children [Sun, Moon, Earth body] = [1, 2, 3], the cursor on the Moon's node, and branch point 1; it gives the Sun's, the Earth's and the Moon's exact matrices; the Moon's matrix is the Earth orbit followed by the Moon's edits, with none of the Earth's tilt or spin; earthPosition is read from the orbit matrix alone |
| Grid.RowsLength | CGprojects/proj3/proj3.js:161-181 | a rows × cols double loop pushing w entries per cell pushes rows·cols·w entries |
| Grid.RowsAt | CGprojects/proj3/proj3.js:184-197 | entry k of cell (j, i) is at position (j·cols + i)·w + k: cells are emitted row-major |
| Grid.RowsMember | CGprojects/proj3/proj3.js:184-197 | every entry pushed comes from some cell inside the grid |
| Sphere.GenerateVertices | CGprojects/proj3/proj3.js:161-181 | the vertex loops push each grid point's three position entries and two texture entries, row by row, over j, i = 0..DIV |
| Sphere.GenerateIndices | CGprojects/proj3/proj3.js:184-197 | the index loops push the cells' six-index patterns row by row, over j, i = 0..DIV-1 |
| Sphere.VertexCounts | CGprojects/proj3/proj3.js:161-181 | 3·(DIV+1)² position entries and 2·(DIV+1)² texture entries |
| Sphere.PositionAt | CGprojects/proj3/proj3.js:174-176 | grid point (j, i)'s x, y, z are position entries 3·(j·(DIV+1)+i) to +2 |
| Sphere.TexcoordAt | CGprojects/proj3/proj3.js:178-179 | grid point (j, i)'s u, v are texture entries 2·(j·(DIV+1)+i) and +1 |
| Sphere.IndexCount | CGprojects/proj3/proj3.js:184-197 | exactly 6·DIV² indices |
| Sphere.IndexAt | CGprojects/proj3/proj3.js:188-197 | indices 6·(j·DIV+i) to +5 are p1, p2, p1+1, p1+1, p2, p2+1 for cell (j, i) |
| Sphere.CellCorners | CGprojects/proj3/proj3.js:188-197 | the two triangles of cell (j, i) use exactly its corner vertices (j,i), (j+1,i), (j,i+1), (j+1,i+1) |
| Sphere.CellIndicesInRange | CGprojects/proj3/proj3.js:188-197 | each index of a cell inside the grid is between 0 and (DIV+1)²-1 |
| Sphere.IndicesInRange | CGprojects/proj3/proj3.js:184-197 | every index pushed names an existing vertex: 0 <= index < (DIV+1)² |
| Sphere.Uint16Array | CGprojects/proj3/proj3.js:224 | the 16-bit buffer keeps the length, and each element lies in 0..65535 and agrees with its index modulo 2¹⁶ |
| Sphere.VertexCountFits | CGprojects/proj3/proj3.js:224 | (DIV+1)² <= 65536 exactly when DIV <= 255 |
| Sphere.LastIndex | CGprojects/proj3/proj3.js:197 | the last index pushed is (DIV+1)²-1, the last vertex |
| Sphere.IndicesFitUint16 | CGprojects/proj3/proj3.js:224 | the 16-bit buffer holds the indices unchanged exactly when DIV <= 255; for a larger DIV the last index wraps |
| Sphere.SceneSphereFits | CGprojects/proj3/proj3.js:541 | the scene's sphere (DIV = 100) has 10201 vertices and 60000 indices, all unchanged by the 16-bit buffer |
| Sphere.CreateMeshSphere | CGprojects/proj3/proj3.js:144-232 | the position, normal (the positions again), texture and 16-bit index buffers, and an index count equal to the buffer length, 6·DIV²; when DIV <= 255 the index buffer is the index list itself |
| Sphere.QuadIndicesInRange | CGprojects/proj3/proj3.js:238-241 | the quad has four vertices with 3, 2 and 3 entries for position, texture and normal; it has two triangles whose six indices all name one of them and survive the 16-bit buffer |

## Left out

- Matrices.Then: an edit of a matrix is an append to its list of edits by definition; `rotate`, `translate` and `scale` themselves are not modelled, so nothing is proved about them.
- Matrix arithmetic (`Matrix4`, `multiplyVector4`) is not modelled. A matrix is its list of edits. The world-space Earth position, which the frame gets by multiplying the orbit matrix by the Earth's model position, is the result of a function parameter `transformPoint` applied to that matrix. The position is a Vector4 spread into `translate` (proj3.js:648), and only its x, y, z are kept.
- Floating point: angles, scales and the sphere's coordinates are not computed. The angles and scales are `real` parameters. Each pushed sphere float is recorded by the formula and grid point it comes from. For DIV = 0 the source's `j/SPHERE_DIV` divides by zero; only the integer side, which is unaffected, is modelled.
- References and aliasing: `sunTransform.m`, `earthTransform.m` and `moonTransform.m` (proj3.js:623, 654, 683) keep references to node matrices. The model returns the node's arena index instead, and the proved node matrices are what those references see when drawing. As the matrices are values here, an edit through an old reference after the cursor moved cannot be expressed.
- `BranchNode` objects and their `parent` references are arena indices. `reset` drops the old tree by starting a new arena. The old nodes, which the source leaves to the garbage collector, simply no longer exist.
- BranchModel.GoToBranch and TransformStack.Branch.GoToBranch require an existing child index. The source does not check the index: past the end, the call still returns `branchPoint` but `currNode` becomes `undefined`, so the next call throws unless it is `reset`, which replaces `currNode` without reading it. The all-calls model `BranchModel.Step` returns `None` for that case and proves that it is the only failing call.
- The moon position and the moon-camera offset (proj3.js:672-681) use matrix and vector arithmetic only and are left out, as are the cameras, the light, the shaders, the textures and the `Mesh` record beyond its index count.
- All WebGL calls (buffer creation and binding, vertex attribute setup, drawing), the `Timer`, the DOM controls and the shader sources are I/O and are left out.
- The files of the other projects (`proj1`, `proj2`) are not part of this model.
