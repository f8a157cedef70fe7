/**
 * The integer side of `create_mesh_sphere` and `create_mesh_quad`: how many
 * vertex entries the vertex loops push, and which indices the index loops
 * push.  The floating-point values of the positions and texture
 * coordinates are kept symbolic: an entry records which formula of which
 * grid point it holds.
 */
module Sphere {
  import opened Grid

  /**
   * One pushed float.  For grid point (j, i), with v = 1 - j/DIV,
   * phi = (1 - v) * pi, u = i/DIV and theta = 2 * pi * u:
   * PosX is cos(theta) * sin(phi), PosY is sin(theta) * sin(phi), PosZ is
   * cos(phi), TexU is u and TexV is v.
   */
  datatype Entry = PosX(j: nat, i: nat) | PosY(j: nat, i: nat) | PosZ(j: nat) | TexU(i: nat) | TexV(j: nat)

  /** The three position entries pushed for grid point (j, i). */
  function VertexPosition(j: nat, i: nat): seq<Entry> {
    [PosX(j, i), PosY(j, i), PosZ(j)]
  }

  /** The two texture-coordinate entries pushed for grid point (j, i). */
  function VertexTexcoord(j: nat, i: nat): seq<Entry> {
    [TexU(i), TexV(j)]
  }

  /** The number of vertices of a sphere of `div` divisions: a (div + 1) x (div + 1) grid. */
  function VertexCount(div: nat): nat {
    (div + 1) * (div + 1)
  }

  /** The vertex number of grid point (j, i): vertices are pushed row by row, div + 1 to a row. */
  function VertexAt(div: nat, j: nat, i: nat): nat {
    j * (div + 1) + i
  }

  /**
   * The six indices pushed for grid cell (j, i): the triangles
   * (p1, p2, p1 + 1) and (p1 + 1, p2, p2 + 1), where p1 is the cell's corner
   * vertex and p2 the vertex one row below it.
   */
  function CellIndices(div: nat, j: nat, i: nat): seq<int> {
    var p1 := j * (div + 1) + i;
    var p2 := p1 + (div + 1);
    [p1, p2, p1 + 1, p1 + 1, p2, p2 + 1]
  }

  /** `CellIndices` for one value of `div`, as the cell of a grid. */
  function SphereCell(div: nat): (nat, nat) -> seq<int> {
    (j: nat, i: nat) => CellIndices(div, j, i)
  }

  /** The vertex loops: rows j = 0..div, columns i = 0..div, entries pushed row by row. */
  method GenerateVertices(div: nat) returns (positions: seq<Entry>, texcoords: seq<Entry>)
    ensures positions == Rows(div + 1, div + 1, VertexPosition)
    ensures texcoords == Rows(div + 1, div + 1, VertexTexcoord)
  {
    positions, texcoords := [], [];
    var j := 0;
    while j <= div
      invariant j <= div + 1
      invariant positions == Rows(j, div + 1, VertexPosition)
      invariant texcoords == Rows(j, div + 1, VertexTexcoord)
    {
      var i := 0;
      while i <= div
        invariant i <= div + 1
        invariant positions == Rows(j, div + 1, VertexPosition) + Row(j, i, VertexPosition)
        invariant texcoords == Rows(j, div + 1, VertexTexcoord) + Row(j, i, VertexTexcoord)
      {
        positions := positions + [PosX(j, i), PosY(j, i), PosZ(j)];
        texcoords := texcoords + [TexU(i), TexV(j)];
        i := i + 1;
      }
      j := j + 1;
    }
  }

  /** The index loops: cells j = 0..div-1, i = 0..div-1, six indices per cell, row by row. */
  method GenerateIndices(div: nat) returns (indices: seq<int>)
    ensures indices == Rows(div, div, SphereCell(div))
  {
    indices := [];
    var j := 0;
    while j < div
      invariant j <= div
      invariant indices == Rows(j, div, SphereCell(div))
    {
      var i := 0;
      while i < div
        invariant i <= div
        invariant indices == Rows(j, div, SphereCell(div)) + Row(j, i, SphereCell(div))
      {
        var p1 := j * (div + 1) + i;
        var p2 := p1 + (div + 1);
        indices := indices + [p1, p2, p1 + 1];
        indices := indices + [p1 + 1, p2, p2 + 1];
        i := i + 1;
      }
      j := j + 1;
    }
  }

  lemma VertexWidths()
    ensures Width(VertexPosition, 3) && Width(VertexTexcoord, 2)
  {
  }

  lemma CellWidth(div: nat)
    ensures Width(SphereCell(div), 6)
  {
  }

  /** The vertex loops push 3 position entries and 2 texture-coordinate entries per grid point. */
  lemma VertexCounts(div: nat)
    ensures |Rows(div + 1, div + 1, VertexPosition)| == 3 * VertexCount(div)
    ensures |Rows(div + 1, div + 1, VertexTexcoord)| == 2 * VertexCount(div)
  {
    VertexWidths();
    RowsLength(div + 1, div + 1, VertexPosition, 3);
    RowsLength(div + 1, div + 1, VertexTexcoord, 2);
  }

  /** Grid point (j, i)'s position entries sit at vertex number `VertexAt(div, j, i)`. */
  lemma PositionAt(div: nat, j: nat, i: nat, k: nat)
    requires j <= div && i <= div && k < 3
    ensures VertexAt(div, j, i) * 3 + k < |Rows(div + 1, div + 1, VertexPosition)|
    ensures Rows(div + 1, div + 1, VertexPosition)[VertexAt(div, j, i) * 3 + k] == VertexPosition(j, i)[k]
  {
    VertexWidths();
    RowsAt(div + 1, div + 1, VertexPosition, 3, j, i, k);
  }

  /** Grid point (j, i)'s texture coordinates sit at vertex number `VertexAt(div, j, i)`. */
  lemma TexcoordAt(div: nat, j: nat, i: nat, k: nat)
    requires j <= div && i <= div && k < 2
    ensures VertexAt(div, j, i) * 2 + k < |Rows(div + 1, div + 1, VertexTexcoord)|
    ensures Rows(div + 1, div + 1, VertexTexcoord)[VertexAt(div, j, i) * 2 + k] == VertexTexcoord(j, i)[k]
  {
    VertexWidths();
    RowsAt(div + 1, div + 1, VertexTexcoord, 2, j, i, k);
  }

  /** The index loops push exactly 6 * div^2 indices. */
  lemma IndexCount(div: nat)
    ensures |Rows(div, div, SphereCell(div))| == 6 * div * div
  {
    CellWidth(div);
    RowsLength(div, div, SphereCell(div), 6);
  }

  /** Cell (j, i)'s six indices come at positions 6 * (j * div + i) and on, in the order of `CellIndices`. */
  lemma IndexAt(div: nat, j: nat, i: nat, t: nat)
    requires j < div && i < div && t < 6
    ensures (j * div + i) * 6 + t < |Rows(div, div, SphereCell(div))|
    ensures Rows(div, div, SphereCell(div))[(j * div + i) * 6 + t] == CellIndices(div, j, i)[t]
  {
    CellWidth(div);
    RowsAt(div, div, SphereCell(div), 6, j, i, t);
  }

  /**
   * The two triangles of cell (j, i) use exactly its four corner vertices:
   * (j, i), (j + 1, i), (j, i + 1) and (j + 1, i + 1).
   */
  lemma CellCorners(div: nat, j: nat, i: nat)
    ensures CellIndices(div, j, i) == [VertexAt(div, j, i), VertexAt(div, j + 1, i), VertexAt(div, j, i + 1),
                                       VertexAt(div, j, i + 1), VertexAt(div, j + 1, i), VertexAt(div, j + 1, i + 1)]
  {
    assert (j + 1) * (div + 1) == j * (div + 1) + (div + 1);
  }

  /** Every index of a cell inside the grid names an existing vertex. */
  lemma CellIndicesInRange(div: nat, j: nat, i: nat)
    requires j < div && i < div
    ensures forall t :: 0 <= t < 6 ==> 0 <= CellIndices(div, j, i)[t] < VertexCount(div)
  {
    CellCorners(div, j, i);
    Within(j + 1, div + 1, div + 1, i + 1);
  }

  /** Every index the loops push names one of the (div + 1)^2 vertices. */
  lemma IndicesInRange(div: nat)
    ensures forall k :: 0 <= k < |Rows(div, div, SphereCell(div))| ==>
      0 <= Rows(div, div, SphereCell(div))[k] < VertexCount(div)
  {
    var indices := Rows(div, div, SphereCell(div));
    forall k | 0 <= k < |indices| ensures 0 <= indices[k] < VertexCount(div) {
      RowsMember(div, div, SphereCell(div), indices[k]);
      var j: nat, i: nat :| j < div && i < div && indices[k] in CellIndices(div, j, i);
      CellIndicesInRange(div, j, i);
    }
  }

  /** `new Uint16Array(s)`: each number is taken modulo 2^16. */
  function Uint16Array(s: seq<int>): (r: seq<int>)
    ensures |r| == |s|
    ensures forall k :: 0 <= k < |s| ==> 0 <= r[k] < 0x1_0000 && r[k] % 0x1_0000 == s[k] % 0x1_0000
  {
    seq(|s|, k requires 0 <= k < |s| => s[k] % 0x1_0000)
  }

  /** The vertex count fits in 16 bits exactly when div <= 255. */
  lemma VertexCountFits(div: nat)
    ensures VertexCount(div) <= 0x1_0000 <==> div <= 255
  {
    if div <= 255 {
      assert (div + 1) * (div + 1) <= 256 * (div + 1) <= 256 * 256;
    } else {
      assert (div + 1) * (div + 1) >= 257 * (div + 1) >= 257 * 257;
    }
  }

  /** The last index pushed names the last vertex. */
  lemma LastIndex(div: nat)
    requires div > 0
    ensures 6 * div * div - 1 < |Rows(div, div, SphereCell(div))|
    ensures Rows(div, div, SphereCell(div))[6 * div * div - 1] == VertexCount(div) - 1
  {
    IndexAt(div, div - 1, div - 1, 5);
    LastCell(div);
  }

  /** Arithmetic behind `LastIndex`: where the last cell's last index sits, and its value. */
  lemma LastCell(n: nat)
    requires n > 0
    ensures ((n - 1) * n + (n - 1)) * 6 + 5 == 6 * n * n - 1
    ensures (n - 1) * (n + 1) + (n - 1) + (n + 1) + 1 == (n + 1) * (n + 1) - 1
  {
    assert (n - 1) * n == n * n - n;
    assert (n - 1) * (n + 1) == n * n - 1;
    assert (n + 1) * (n + 1) == n * n + 2 * n + 1;
  }

  /**
   * The 16-bit index buffer holds the indices unchanged exactly when the
   * vertex count fits in 16 bits, that is when div <= 255.
   */
  lemma IndicesFitUint16(div: nat)
    ensures Uint16Array(Rows(div, div, SphereCell(div))) == Rows(div, div, SphereCell(div)) <==> div <= 255
  {
    var indices := Rows(div, div, SphereCell(div));
    VertexCountFits(div);
    if div <= 255 {
      IndicesInRange(div);
      assert Uint16Array(indices) == indices;
    } else {
      LastIndex(div);
      var k := 6 * div * div - 1;
      assert Uint16Array(indices)[k] < 0x1_0000 <= indices[k];
    }
  }

  /** The scene's sphere, `create_mesh_sphere(gl, 100)`, has indices that all survive the 16-bit buffer. */
  lemma SceneSphereFits()
    ensures VertexCount(100) == 10201
    ensures |Rows(100, 100, SphereCell(100))| == 60000
    ensures Uint16Array(Rows(100, 100, SphereCell(100))) == Rows(100, 100, SphereCell(100))
  {
    IndexCount(100);
    IndicesFitUint16(100);
  }

  /** What `create_mesh_sphere` puts into its buffers, and the index count it gives `Mesh`. */
  datatype SphereMesh = SphereMesh(positions: seq<Entry>, normals: seq<Entry>, texcoords: seq<Entry>,
                                   indexBuffer: seq<int>, indexNum: nat)

  /**
   * `create_mesh_sphere(gl, div)`: the vertex buffers, the normal buffer
   * filled from the positions, the 16-bit index buffer and the index count
   * handed to `Mesh`.
   */
  method CreateMeshSphere(div: nat) returns (mesh: SphereMesh)
    ensures mesh.positions == Rows(div + 1, div + 1, VertexPosition)
    ensures mesh.texcoords == Rows(div + 1, div + 1, VertexTexcoord)
    ensures mesh.normals == mesh.positions
    ensures mesh.indexBuffer == Uint16Array(Rows(div, div, SphereCell(div)))
    ensures |mesh.positions| == 3 * VertexCount(div) && |mesh.texcoords| == 2 * VertexCount(div)
    ensures mesh.indexNum == |mesh.indexBuffer| == 6 * div * div
    ensures div <= 255 ==> mesh.indexBuffer == Rows(div, div, SphereCell(div))
  {
    var positions, texcoords := GenerateVertices(div);
    var indices := GenerateIndices(div);
    VertexCounts(div);
    IndexCount(div);
    IndicesFitUint16(div);
    mesh := SphereMesh(positions, positions, texcoords, Uint16Array(indices), |indices|);
  }

  /** `create_mesh_quad`'s four vertices (all its coordinates are whole numbers) and its index list. */
  const QuadPositions: seq<int> := [1, 1, 0, 1, -1, 0, -1, -1, 0, -1, 1, 0]
  const QuadTexcoords: seq<int> := [1, 1, 1, 0, 0, 0, 0, 1]
  const QuadNormals: seq<int> := [0, 0, 1, 0, 0, 1, 0, 0, 1, 0, 0, 1]
  const QuadIndices: seq<int> := [0, 1, 3, 1, 2, 3]

  /**
   * Four vertices with 3 position, 2 texture and 3 normal entries each; two
   * triangles whose every index names one of the four vertices and is
   * unchanged by the 16-bit buffer.
   */
  lemma QuadIndicesInRange()
    ensures |QuadPositions| == 3 * 4 && |QuadTexcoords| == 2 * 4 && |QuadNormals| == 3 * 4
    ensures |QuadIndices| == 6
    ensures forall k :: 0 <= k < |QuadIndices| ==> 0 <= QuadIndices[k] < |QuadPositions| / 3
    ensures Uint16Array(QuadIndices) == QuadIndices
  {
  }
}
