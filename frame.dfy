/**
 * The part of the per-frame render loop that places the Sun, the Earth and
 * the Moon with a `Branch`.  Angles and scales are the loop's accumulated
 * values; `transformPoint` stands for multiplying a matrix by a body's
 * model-space position (`getMatrix().multiplyVector4(position)`), which is
 * matrix arithmetic and is not modelled.
 */
module Frame {
  import opened Matrices
  import opened BranchModel
  import opened TransformStack

  /** A world-space position as the scene passes it to `translate`. */
  datatype Point = Point(x: real, y: real, z: real)

  /** The Earth-orbit matrix: a turn by the year angle about y, then 3 units out along x. */
  function EarthOrbit(earthYearAngle: real): Matrix {
    Matrix([Rotate(earthYearAngle, 0.0, 1.0, 0.0), Translate(3.0, 0.0, 0.0)])
  }

  /** The matrices the frame leaves on the Sun, Earth-body and Moon nodes. */
  function SunMatrix(): Matrix {
    Matrix([Rotate(-90.0, 1.0, 0.0, 0.0)])
  }

  function EarthMatrix(earthPosition: Point, earthDayAngle: real, earthScale: real): Matrix {
    Matrix([Translate(earthPosition.x, earthPosition.y, earthPosition.z),
            Rotate(23.5, 0.0, 0.0, 1.0), Rotate(earthDayAngle, 0.0, 1.0, 0.0),
            Rotate(-90.0, 1.0, 0.0, 0.0), Scale(earthScale, earthScale, earthScale)])
  }

  function MoonMatrix(earthYearAngle: real, moonYearAngle: real, moonDayAngle: real, moonScale: real): Matrix {
    Matrix(EarthOrbit(earthYearAngle).ops +
           [Rotate(moonYearAngle, 0.0, 1.0, 0.0), Translate(1.0, 0.0, 0.0),
            Rotate(moonDayAngle, 0.0, 1.0, 0.0), Rotate(-90.0, 1.0, 0.0, 0.0),
            Scale(moonScale, moonScale, moonScale)])
  }

  /** Reset, branch out and turn the Sun's node. */
  method PlaceSun(branch: Branch)
    modifies branch
    ensures branch.Valid() && branch.currNode == 1
    ensures branch.nodes == [Node(Identity, None, [1]), Node(SunMatrix(), Some(0), [])]
  {
    branch.Reset(Identity);
    var _ := branch.BranchOut();
    branch.Edit(Rotate(-90.0, 1.0, 0.0, 0.0));
  }

  /** Back to the root and out to a new Earth-orbit node, whose branch point is kept for the Moon. */
  method PlaceEarthOrbit(branch: Branch, earthYearAngle: real) returns (moonBranchPoint: nat)
    requires branch.Valid() && branch.currNode == 1
    requires branch.nodes == [Node(Identity, None, [1]), Node(SunMatrix(), Some(0), [])]
    modifies branch
    ensures branch.Valid() && branch.currNode == 2 && moonBranchPoint == 1
    ensures branch.nodes == [Node(Identity, None, [1, 2]), Node(SunMatrix(), Some(0), []),
                             Node(EarthOrbit(earthYearAngle), Some(0), [])]
  {
    branch.GoBack();
    moonBranchPoint := branch.BranchOut();
    branch.Edit(Rotate(earthYearAngle, 0.0, 1.0, 0.0));
    branch.Edit(Translate(3.0, 0.0, 0.0));
    assert branch.nodes[2].m.ops == [Rotate(earthYearAngle, 0.0, 1.0, 0.0), Translate(3.0, 0.0, 0.0)];
    assert branch.nodes[0].children == [1, 2];
  }

  /**
   * Back to the root, so that the Earth's tilt and spin stay off the orbit
   * node, and out to the Earth-body node.
   */
  method PlaceEarth(branch: Branch, earthYearAngle: real, earthPosition: Point, earthDayAngle: real, earthScale: real)
    requires branch.Valid() && branch.currNode == 2
    requires branch.nodes == [Node(Identity, None, [1, 2]), Node(SunMatrix(), Some(0), []),
                              Node(EarthOrbit(earthYearAngle), Some(0), [])]
    modifies branch
    ensures branch.Valid() && branch.currNode == 3
    ensures branch.nodes == [Node(Identity, None, [1, 2, 3]), Node(SunMatrix(), Some(0), []),
                             Node(EarthOrbit(earthYearAngle), Some(0), []),
                             Node(EarthMatrix(earthPosition, earthDayAngle, earthScale), Some(0), [])]
  {
    branch.GoBack();
    var _ := branch.BranchOut();
    branch.Edit(Translate(earthPosition.x, earthPosition.y, earthPosition.z));
    branch.Edit(Rotate(23.5, 0.0, 0.0, 1.0));
    branch.Edit(Rotate(earthDayAngle, 0.0, 1.0, 0.0));
    branch.Edit(Rotate(-90.0, 1.0, 0.0, 0.0));
    branch.Edit(Scale(earthScale, earthScale, earthScale));
    assert branch.nodes[3].m.ops == EarthMatrix(earthPosition, earthDayAngle, earthScale).ops;
    assert branch.nodes[0].children == [1, 2, 3];
  }

  /** Back to the root, on to the saved Earth-orbit node, and the Moon's orbit and spin on top of it. */
  method PlaceMoon(branch: Branch, moonBranchPoint: nat, earthYearAngle: real, earthPosition: Point,
                   earthDayAngle: real, earthScale: real,
                   moonYearAngle: real, moonDayAngle: real, moonScale: real)
    requires branch.Valid() && branch.currNode == 3 && moonBranchPoint == 1
    requires branch.nodes == [Node(Identity, None, [1, 2, 3]), Node(SunMatrix(), Some(0), []),
                              Node(EarthOrbit(earthYearAngle), Some(0), []),
                              Node(EarthMatrix(earthPosition, earthDayAngle, earthScale), Some(0), [])]
    modifies branch
    ensures branch.Valid() && branch.currNode == 2
    ensures branch.nodes == [Node(Identity, None, [1, 2, 3]), Node(SunMatrix(), Some(0), []),
                             Node(MoonMatrix(earthYearAngle, moonYearAngle, moonDayAngle, moonScale), Some(0), []),
                             Node(EarthMatrix(earthPosition, earthDayAngle, earthScale), Some(0), [])]
  {
    branch.GoBack();
    var _ := branch.GoToBranch(moonBranchPoint);
    branch.Edit(Rotate(moonYearAngle, 0.0, 1.0, 0.0));
    branch.Edit(Translate(1.0, 0.0, 0.0));
    branch.Edit(Rotate(moonDayAngle, 0.0, 1.0, 0.0));
    branch.Edit(Rotate(-90.0, 1.0, 0.0, 0.0));
    branch.Edit(Scale(moonScale, moonScale, moonScale));
    assert branch.nodes[2].m.ops == MoonMatrix(earthYearAngle, moonYearAngle, moonDayAngle, moonScale).ops;
  }

  /**
   * One frame's tree.  The outputs are the arena indices of the nodes whose
   * matrices the Sun, Earth and Moon transforms hold (the source keeps
   * references to them, and the Earth's is drawn only after the Moon's
   * edits), the branch point saved for the Moon, and the Earth position read
   * from the Earth-orbit node.  The Moon's node is the Earth-orbit node: its
   * matrix is the orbit followed by the Moon's edits, and the Earth's tilt
   * and spin appear in the Earth's node only.
   */
  method ComposeFrame(branch: Branch, earthYearAngle: real, earthDayAngle: real,
                      moonYearAngle: real, moonDayAngle: real,
                      earthScale: real, moonScale: real,
                      transformPoint: Matrix -> Point)
    returns (sunNode: nat, earthNode: nat, moonNode: nat, moonBranchPoint: nat, earthPosition: Point)
    modifies branch
    ensures branch.Valid() && |branch.nodes| == 4 && branch.currNode == moonNode
    ensures branch.nodes[0] == Node(Identity, None, [sunNode, moonNode, earthNode])
    ensures sunNode == 1 && moonNode == 2 && earthNode == 3 && moonBranchPoint == 1
    ensures earthPosition == transformPoint(EarthOrbit(earthYearAngle))
    ensures branch.nodes[sunNode].m == SunMatrix()
    ensures branch.nodes[earthNode].m == EarthMatrix(earthPosition, earthDayAngle, earthScale)
    ensures branch.nodes[moonNode].m == MoonMatrix(earthYearAngle, moonYearAngle, moonDayAngle, moonScale)
  {
    PlaceSun(branch);
    sunNode := branch.currNode;
    moonBranchPoint := PlaceEarthOrbit(branch, earthYearAngle);
    var orbit := branch.GetMatrix();
    earthPosition := transformPoint(orbit);
    PlaceEarth(branch, earthYearAngle, earthPosition, earthDayAngle, earthScale);
    earthNode := branch.currNode;
    PlaceMoon(branch, moonBranchPoint, earthYearAngle, earthPosition, earthDayAngle, earthScale,
              moonYearAngle, moonDayAngle, moonScale);
    moonNode := branch.currNode;
  }
}
