/**
 * The 4x4 matrices of the scene, kept opaque.
 *
 * The scene only ever builds a matrix by starting from the identity (or
 * from an existing matrix) and applying `rotate`, `translate` and `scale`
 * to it in place.  A matrix is therefore represented by the list of those
 * edits, in the order they were applied; no arithmetic is performed.
 */
module Matrices {

  /** One in-place edit of a matrix: angles in degrees, axes and factors as given by the caller. */
  datatype Op =
    | Rotate(angle: real, x: real, y: real, z: real)
    | Translate(x: real, y: real, z: real)
    | Scale(x: real, y: real, z: real)

  /** A matrix: the edits applied, in order, to the identity matrix. */
  datatype Matrix = Matrix(ops: seq<Op>)

  /** `new Matrix4()`: the identity, to which nothing has been applied. */
  const Identity: Matrix := Matrix([])

  /** `m.rotate(...)`, `m.translate(...)`, `m.scale(...)`: `op` is applied after every earlier edit. */
  function Then(m: Matrix, op: Op): (r: Matrix)
    ensures |r.ops| == |m.ops| + 1
    ensures r.ops[..|m.ops|] == m.ops && r.ops[|m.ops|] == op
  {
    Matrix(m.ops + [op])
  }

  /** The edits `ops` applied to `m` one after the other. */
  function ThenAll(m: Matrix, ops: seq<Op>): (r: Matrix)
    ensures r.ops == m.ops + ops
    decreases |ops|
  {
    if ops == [] then m else ThenAll(Then(m, ops[0]), ops[1..])
  }
}
