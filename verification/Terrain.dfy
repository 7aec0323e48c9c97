/** Heights between the points of the terrain grid: each cell is four triangles around its centre. */
module Terrain {

  const TILESIZE: real := 533.33333
  const UNITSIZE: real := 533.33333 / 128.0
  const CELLS: nat := 128

  datatype Vec = Vec(x: real, y: real, z: real)

  /** The heights around one cell: its centre and its corners (low x, low z), (high x, low z) and so on. */
  datatype Heights = Heights(c: real, h00: real, h10: real, h01: real, h11: real)

  // ----- The plane through three points

  /** The denominator: twice the area of the triangle seen from above, with a sign. */
  function Denominator(v0: Vec, v1: Vec, v2: Vec): real {
    v0.z * (v1.x - v2.x) + v1.z * (v2.x - v0.x) + v2.z * (v0.x - v1.x)
  }

  function Solve(v0: Vec, v1: Vec, v2: Vec, p: Vec): real
    requires Denominator(v0, v1, v2) != 0.0
  {
    var a := v0.y * (v1.z - v2.z) + v1.y * (v2.z - v0.z) + v2.y * (v0.z - v1.z);
    var c := v0.x * (v1.y - v2.y) + v1.x * (v2.y - v0.y) + v2.x * (v0.y - v1.y);
    var d := v0.x * (v1.y * v2.z - v2.y * v1.z) + v1.x * (v2.y * v0.z - v0.y * v2.z) + v2.x * (v0.y * v1.z - v1.y * v0.z);
    (a * p.x + c * p.z - d) / Denominator(v0, v1, v2)
  }

  // ----- One cell

  function Centre(h: Heights): Vec {
    Vec(UNITSIZE / 2.0, h.c, UNITSIZE / 2.0)
  }

  /** The corner of the triangle that lies on the side of the point's diagonal half. */
  function Side(h: Heights, right: bool): Vec {
    if right then Vec(UNITSIZE, h.h10, 0.0) else Vec(0.0, h.h01, UNITSIZE)
  }

  function End(h: Heights, far: bool): Vec {
    if far then Vec(UNITSIZE, h.h11, UNITSIZE) else Vec(0.0, h.h00, 0.0)
  }

  /** No triangle of a cell is a line, so the division is always allowed. */
  lemma {:induction false} NoDivisionByZero(h: Heights, right: bool, far: bool)
    ensures Denominator(Centre(h), Side(h, right), End(h, far)) != 0.0
  {
  }

  /** The height at (lx, lz) of the plane through the chosen triangle. */
  function OnTriangle(h: Heights, right: bool, far: bool, lx: real, lz: real): real {
    NoDivisionByZero(h, right, far);
    -Solve(Centre(h), Side(h, right), End(h, far), Vec(lx, 0.0, lz))
  }

  function InCell(h: Heights, lx: real, lz: real): real {
    OnTriangle(h, lx > lz, lz > UNITSIZE - lx, lx, lz)
  }

  /** How much each of the three vertices contributes at a point, as a part of the whole. */
  function Weights(right: bool, far: bool, lx: real, lz: real): (real, real, real) {
    var s, t := lx / UNITSIZE, lz / UNITSIZE;
    match (right, far)
    case (true, false) => (2.0 * t, s - t, 1.0 - s - t)
    case (true, true) => (2.0 * (1.0 - s), s - t, s + t - 1.0)
    case (false, false) => (2.0 * s, t - s, 1.0 - s - t)
    case (false, true) => (2.0 * (1.0 - t), t - s, s + t - 1.0)
  }

  lemma {:induction false} PlaneIsBlend(h: Heights, right: bool, far: bool, lx: real, lz: real)
    ensures var (w0, w1, w2) := Weights(right, far, lx, lz);
      OnTriangle(h, right, far, lx, lz) == w0 * h.c + w1 * Side(h, right).y + w2 * End(h, far).y
  {
  }

  ghost predicate Within(lx: real, lz: real) {
    0.0 <= lx <= UNITSIZE && 0.0 <= lz <= UNITSIZE
  }

  /** The triangle chosen contains the point: the point is a mixture of its three vertices, none of
      them counted negatively. */
  lemma {:induction false} TriangleContainsPoint(h: Heights, lx: real, lz: real)
    requires Within(lx, lz)
    ensures var right, far := lx > lz, lz > UNITSIZE - lx;
      var (w0, w1, w2) := Weights(right, far, lx, lz);
      var v0, v1, v2 := Centre(h), Side(h, right), End(h, far);
      && w0 >= 0.0 && w1 >= 0.0 && w2 >= 0.0 && w0 + w1 + w2 == 1.0
      && lx == w0 * v0.x + w1 * v1.x + w2 * v2.x
      && lz == w0 * v0.z + w1 * v1.z + w2 * v2.z
  {
    assert UNITSIZE * (lx / UNITSIZE) == lx && UNITSIZE * (lz / UNITSIZE) == lz;
  }

  /** The height is the same mixture of the three heights. */
  lemma {:induction false} HeightIsBlend(h: Heights, lx: real, lz: real)
    ensures var right, far := lx > lz, lz > UNITSIZE - lx;
      var (w0, w1, w2) := Weights(right, far, lx, lz);
      InCell(h, lx, lz) == w0 * h.c + w1 * Side(h, right).y + w2 * End(h, far).y
  {
    hide OnTriangle, Weights, Side, End;
    PlaneIsBlend(h, lx > lz, lz > UNITSIZE - lx, lx, lz);
  }

  function Least(a: real, b: real): real {
    if a <= b then a else b
  }

  function Greatest(a: real, b: real): real {
    if a >= b then a else b
  }

  lemma {:induction false} MixtureAbove(w0: real, w1: real, w2: real, a: real, b: real, c: real, l: real)
    requires w0 >= 0.0 && w1 >= 0.0 && w2 >= 0.0 && w0 + w1 + w2 == 1.0
    requires l <= a && l <= b && l <= c
    ensures l <= w0 * a + w1 * b + w2 * c
  {
    Scale(w0, l, a);
    Scale(w1, l, b);
    Scale(w2, l, c);
    assert w0 == 1.0 - w1 - w2;
    calc {
      w0 * a + w1 * b + w2 * c - l;
      w0 * (a - l) + w1 * (b - l) + w2 * (c - l) + (w0 + w1 + w2 - 1.0) * l;
    }
  }

  lemma {:induction false} Scale(w: real, a: real, b: real)
    requires w >= 0.0 && a <= b
    ensures w * (b - a) >= 0.0
  {
  }

  /** No height is made up: it lies between the least and the greatest of the triangle's heights. */
  lemma {:induction false} HeightBetweenVertices(h: Heights, lx: real, lz: real)
    requires Within(lx, lz)
    ensures var side, end := Side(h, lx > lz).y, End(h, lz > UNITSIZE - lx).y;
      Least(h.c, Least(side, end)) <= InCell(h, lx, lz) <= Greatest(h.c, Greatest(side, end))
  {
    hide Weights, InCell, Side, End;
    TriangleContainsPoint(h, lx, lz);
    HeightIsBlend(h, lx, lz);
    var (w0, w1, w2) := Weights(lx > lz, lz > UNITSIZE - lx, lx, lz);
    var side, end := Side(h, lx > lz).y, End(h, lz > UNITSIZE - lx).y;
    MixtureAbove(w0, w1, w2, h.c, side, end, Least(h.c, Least(side, end)));
    MixtureAbove(w0, w1, w2, -h.c, -side, -end, -Greatest(h.c, Greatest(side, end)));
  }

  /** The surface passes through the centre and the corners. */
  lemma {:induction false} PassesThroughPoints(h: Heights)
    ensures InCell(h, UNITSIZE / 2.0, UNITSIZE / 2.0) == h.c
    ensures InCell(h, 0.0, 0.0) == h.h00 && InCell(h, UNITSIZE, 0.0) == h.h10
    ensures InCell(h, 0.0, UNITSIZE) == h.h01 && InCell(h, UNITSIZE, UNITSIZE) == h.h11
  {
    HeightIsBlend(h, UNITSIZE / 2.0, UNITSIZE / 2.0);
    HeightIsBlend(h, 0.0, 0.0);
    HeightIsBlend(h, UNITSIZE, 0.0);
    HeightIsBlend(h, 0.0, UNITSIZE);
    HeightIsBlend(h, UNITSIZE, UNITSIZE);
  }

  /** Where two triangles of a cell meet, it does not matter which of them is chosen. */
  lemma {:induction false} TrianglesAgree(h: Heights, lx: real, lz: real, flag: bool)
    ensures lx == lz ==> OnTriangle(h, true, flag, lx, lz) == OnTriangle(h, false, flag, lx, lz)
    ensures lx + lz == UNITSIZE ==> OnTriangle(h, flag, true, lx, lz) == OnTriangle(h, flag, false, lx, lz)
  {
    PlaneIsBlend(h, true, flag, lx, lz);
    PlaneIsBlend(h, false, flag, lx, lz);
    PlaneIsBlend(h, flag, true, lx, lz);
    PlaneIsBlend(h, flag, false, lx, lz);
  }

  /** Along each side of a cell the height runs straight from corner to corner, whatever the centre. */
  lemma {:induction false} StraightSides(h: Heights, l: real)
    requires 0.0 <= l <= UNITSIZE
    ensures InCell(h, 0.0, l) == Between(h.h00, h.h01, l) && InCell(h, UNITSIZE, l) == Between(h.h10, h.h11, l)
    ensures InCell(h, l, 0.0) == Between(h.h00, h.h10, l) && InCell(h, l, UNITSIZE) == Between(h.h01, h.h11, l)
  {
    hide InCell, Between;
    SidesAcross(h, l);
    SidesAlong(h, l);
  }

  lemma {:induction false} SidesAcross(h: Heights, l: real)
    requires 0.0 <= l <= UNITSIZE
    ensures InCell(h, 0.0, l) == Between(h.h00, h.h01, l) && InCell(h, UNITSIZE, l) == Between(h.h10, h.h11, l)
  {
    hide InCell;
    var t := l / UNITSIZE;
    HeightIsBlend(h, 0.0, l);
    HeightIsBlend(h, UNITSIZE, l);
    assert l == 0.0 ==> Weights(true, false, UNITSIZE, l) == (0.0, 1.0, 0.0);
    assert l == UNITSIZE ==> Weights(false, true, UNITSIZE, l) == (0.0, 0.0, 1.0);
    assert Weights(true, true, UNITSIZE, l) == (0.0, 1.0 - t, t);
  }

  lemma {:induction false} SidesAlong(h: Heights, l: real)
    requires 0.0 <= l <= UNITSIZE
    ensures InCell(h, l, 0.0) == Between(h.h00, h.h10, l) && InCell(h, l, UNITSIZE) == Between(h.h01, h.h11, l)
  {
    hide InCell;
    var t := l / UNITSIZE;
    HeightIsBlend(h, l, 0.0);
    HeightIsBlend(h, l, UNITSIZE);
    assert l == 0.0 ==> Weights(false, false, l, UNITSIZE) == (0.0, 1.0, 0.0);
    assert Weights(false, true, l, UNITSIZE) == (0.0, 1.0 - t, t);
  }

  function Between(from: real, to: real, l: real): real {
    (1.0 - l / UNITSIZE) * from + l / UNITSIZE * to
  }

  // ----- The grid

  /** The heights around a cell of the grid. */
  function Around(v8: array2<real>, v9: array2<real>, xc: nat, zc: nat): Heights
    requires v8.Length0 == v8.Length1 == CELLS && v9.Length0 == v9.Length1 == CELLS + 1
    requires xc < CELLS && zc < CELLS
    reads v8, v9
  {
    Heights(v8[xc, zc], v9[xc, zc], v9[xc + 1, zc], v9[xc, zc + 1], v9[xc + 1, zc + 1])
  }

  /** The cell a coordinate falls into; the far edge of the grid belongs to the last cell. */
  function CellOf(x: real): (c: nat)
    requires x >= 0.0
    ensures c < CELLS
    ensures c as real * UNITSIZE <= x
    ensures x <= TILESIZE ==> x <= (c + 1) as real * UNITSIZE
    ensures x < TILESIZE ==> x < (c + 1) as real * UNITSIZE
  {
    var c := (x / UNITSIZE).Floor;
    if c > 127 then 127 else c
  }

  function GetZ(v8: array2<real>, v9: array2<real>, x: real, z: real): real
    requires v8.Length0 == v8.Length1 == CELLS && v9.Length0 == v9.Length1 == CELLS + 1
    requires x >= 0.0 && z >= 0.0
    reads v8, v9
  {
    var xc, zc := CellOf(x), CellOf(z);
    InCell(Around(v8, v9, xc, zc), x - xc as real * UNITSIZE, z - zc as real * UNITSIZE)
  }

  /** On the grid, a point belongs to a cell when the cell's square, borders included, holds it. */
  ghost predicate Holds(xc: nat, zc: nat, x: real, z: real) {
    && xc < CELLS && zc < CELLS
    && Within(x - xc as real * UNITSIZE, z - zc as real * UNITSIZE)
  }

  lemma {:induction false} CellUnlessBorder(c: nat, x: real)
    requires c < CELLS && 0.0 <= x - c as real * UNITSIZE <= UNITSIZE
    ensures x >= 0.0
    ensures CellOf(x) == c || (CellOf(x) == c + 1 && x == (c + 1) as real * UNITSIZE)
  {
  }

  lemma {:induction false} NextCellAgrees(v8: array2<real>, v9: array2<real>, xc: nat, zc: nat, l: real)
    requires v8.Length0 == v8.Length1 == CELLS && v9.Length0 == v9.Length1 == CELLS + 1
    requires xc < CELLS && zc < CELLS && 0.0 <= l <= UNITSIZE
    ensures xc + 1 < CELLS ==> InCell(Around(v8, v9, xc, zc), UNITSIZE, l) == InCell(Around(v8, v9, xc + 1, zc), 0.0, l)
    ensures zc + 1 < CELLS ==> InCell(Around(v8, v9, xc, zc), l, UNITSIZE) == InCell(Around(v8, v9, xc, zc + 1), l, 0.0)
  {
    hide InCell, Between;
    StraightSides(Around(v8, v9, xc, zc), l);
    if xc + 1 < CELLS {
      StraightSides(Around(v8, v9, xc + 1, zc), l);
    }
    if zc + 1 < CELLS {
      StraightSides(Around(v8, v9, xc, zc + 1), l);
    }
  }

  /** Every cell that holds a point, not only the one that the code picks, gives it the same height:
      there are no cliffs between cells, nor where four of them meet. */
  lemma {:induction false} CellsAgree(v8: array2<real>, v9: array2<real>, xc: nat, zc: nat, x: real, z: real)
    requires v8.Length0 == v8.Length1 == CELLS && v9.Length0 == v9.Length1 == CELLS + 1
    requires Holds(xc, zc, x, z)
    ensures x >= 0.0 && z >= 0.0
    ensures GetZ(v8, v9, x, z) == InCell(Around(v8, v9, xc, zc), x - xc as real * UNITSIZE, z - zc as real * UNITSIZE)
  {
    hide InCell, CellOf, Around;
    CellUnlessBorder(xc, x);
    CellUnlessBorder(zc, z);
    var px, pz := CellOf(x), CellOf(z);
    if px == xc + 1 {
      NextCellAgrees(v8, v9, xc, zc, z - zc as real * UNITSIZE);
    }
    if pz == zc + 1 {
      NextCellAgrees(v8, v9, px, zc, x - px as real * UNITSIZE);
    }
  }

  /** The surface passes through every stored point: all corners of the grid and all cell centres. */
  lemma {:induction false} MeetsEveryPoint(v8: array2<real>, v9: array2<real>, i: nat, j: nat)
    requires v8.Length0 == v8.Length1 == CELLS && v9.Length0 == v9.Length1 == CELLS + 1
    requires i <= CELLS && j <= CELLS
    ensures GetZ(v8, v9, i as real * UNITSIZE, j as real * UNITSIZE) == v9[i, j]
    ensures i < CELLS && j < CELLS ==>
      GetZ(v8, v9, i as real * UNITSIZE + UNITSIZE / 2.0, j as real * UNITSIZE + UNITSIZE / 2.0) == v8[i, j]
  {
    hide InCell, CellOf;
    var xc, zc := if i < CELLS then i else i - 1, if j < CELLS then j else j - 1;
    CellsAgree(v8, v9, xc, zc, i as real * UNITSIZE, j as real * UNITSIZE);
    PassesThroughPoints(Around(v8, v9, xc, zc));
    if i < CELLS && j < CELLS {
      CellsAgree(v8, v9, i, j, i as real * UNITSIZE + UNITSIZE / 2.0, j as real * UNITSIZE + UNITSIZE / 2.0);
    }
  }

  /** Nowhere on the tile does the surface leave the range of the stored heights. */
  lemma {:induction false} SurfaceStaysInRange(v8: array2<real>, v9: array2<real>, x: real, z: real, low: real, high: real)
    requires v8.Length0 == v8.Length1 == CELLS && v9.Length0 == v9.Length1 == CELLS + 1
    requires 0.0 <= x <= TILESIZE && 0.0 <= z <= TILESIZE
    requires forall i, j :: 0 <= i < CELLS && 0 <= j < CELLS ==> low <= v8[i, j] <= high
    requires forall i, j :: 0 <= i <= CELLS && 0 <= j <= CELLS ==> low <= v9[i, j] <= high
    ensures low <= GetZ(v8, v9, x, z) <= high
  {
    hide InCell;
    HeightBetweenVertices(Around(v8, v9, CellOf(x), CellOf(z)), x - CellOf(x) as real * UNITSIZE, z - CellOf(z) as real * UNITSIZE);
  }

  // ----- Putting the grid together from chunks

  /** The heights of one chunk of eight by eight cells: centres and corners. */
  datatype Chunk = Chunk(v8: seq<seq<real>>, v9: seq<seq<real>>)

  const CHUNKS: nat := 16

  ghost predicate Square(s: seq<seq<real>>, n: nat) {
    |s| == n && forall i :: 0 <= i < n ==> |s[i]| == n
  }

  ghost predicate Chunked(ch: seq<seq<Chunk>>) {
    && |ch| == CHUNKS
    && (forall c :: 0 <= c < CHUNKS ==> |ch[c]| == CHUNKS)
    && (forall c, d :: 0 <= c < CHUNKS && 0 <= d < CHUNKS ==> Square(ch[c][d].v8, 8) && Square(ch[c][d].v9, 9))
  }

  /** The chunk that a corner of the grid is taken from: the later one on a border, the last at the end. */
  function ChunkOf(x: nat): (c: nat)
    requires x <= CELLS
    ensures c < CHUNKS && 8 * c <= x <= 8 * c + 8
  {
    if x == CELLS then 15 else x / 8
  }

  ghost function Corner(ch: seq<seq<Chunk>>, x: nat, y: nat): real
    requires Chunked(ch) && x <= CELLS && y <= CELLS
  {
    var c, d := ChunkOf(x), ChunkOf(y);
    assert Square(ch[c][d].v9, 9);
    ch[c][d].v9[x - 8 * c][y - 8 * d]
  }

  ghost function Middle(ch: seq<seq<Chunk>>, x: nat, y: nat): real
    requires Chunked(ch) && x < CELLS && y < CELLS
  {
    assert Square(ch[x / 8][y / 8].v8, 8);
    ch[x / 8][y / 8].v8[x % 8][y % 8]
  }

  method TransformData(ch: seq<seq<Chunk>>) returns (v8: array2<real>, v9: array2<real>)
    requires Chunked(ch)
    ensures v8.Length0 == v8.Length1 == CELLS && v9.Length0 == v9.Length1 == CELLS + 1
    ensures forall x, y :: 0 <= x < CELLS && 0 <= y < CELLS ==> v8[x, y] == Middle(ch, x, y)
    ensures forall x, y :: 0 <= x <= CELLS && 0 <= y <= CELLS ==> v9[x, y] == Corner(ch, x, y)
  {
    v8 := new real[128, 128];
    v9 := new real[129, 129];
    for x := 0 to 128
      invariant forall i, j :: 0 <= i < x && 0 <= j < CELLS ==> v8[i, j] == Middle(ch, i, j)
      invariant forall i, j :: 0 <= i < x && 0 <= j <= CELLS ==> v9[i, j] == Corner(ch, i, j)
      invariant forall i :: 0 <= i < x ==> v9[128, i] == Corner(ch, 128, i)
    {
      FillRow(ch, v8, v9, x);
      assert Square(ch[x / 8][15].v9, 9) && Square(ch[15][x / 8].v9, 9);
      v9[x, 128] := ch[x / 8][15].v9[x % 8][8];
      v9[128, x] := ch[15][x / 8].v9[8][x % 8];
    }
    assert Square(ch[15][15].v9, 9);
    v9[128, 128] := ch[15][15].v9[8][8];
  }

  method FillRow(ch: seq<seq<Chunk>>, v8: array2<real>, v9: array2<real>, x: nat)
    requires Chunked(ch) && x < CELLS
    requires v8.Length0 == v8.Length1 == CELLS && v9.Length0 == v9.Length1 == CELLS + 1
    requires v8 != v9
    modifies v8, v9
    ensures forall j :: 0 <= j < CELLS ==> v8[x, j] == Middle(ch, x, j) && v9[x, j] == Corner(ch, x, j)
    ensures forall i, j :: 0 <= i < CELLS && 0 <= j < CELLS && i != x ==> v8[i, j] == old(v8[i, j])
    ensures forall i, j :: 0 <= i <= CELLS && 0 <= j <= CELLS && i != x ==> v9[i, j] == old(v9[i, j])
  {
    for y := 0 to 128
      invariant forall j :: 0 <= j < y ==> v8[x, j] == Middle(ch, x, j) && v9[x, j] == Corner(ch, x, j)
      invariant forall i, j :: 0 <= i < CELLS && 0 <= j < CELLS && i != x ==> v8[i, j] == old(v8[i, j])
      invariant forall i, j :: 0 <= i <= CELLS && 0 <= j <= CELLS && i != x ==> v9[i, j] == old(v9[i, j])
    {
      assert Square(ch[x / 8][y / 8].v8, 8) && Square(ch[x / 8][y / 8].v9, 9);
      v8[x, y] := ch[x / 8][y / 8].v8[x % 8][y % 8];
      v9[x, y] := ch[x / 8][y / 8].v9[x % 8][y % 8];
    }
  }

  /** Neighbouring chunks store the same heights along the border they share. */
  ghost predicate BordersAgree(ch: seq<seq<Chunk>>)
    requires Chunked(ch)
  {
    && (forall c, d, k :: 0 <= c < 15 && 0 <= d < CHUNKS && 0 <= k <= 8 ==> At(ch, c, d, 8, k) == At(ch, c + 1, d, 0, k))
    && (forall c, d, k :: 0 <= c < CHUNKS && 0 <= d < 15 && 0 <= k <= 8 ==> At(ch, c, d, k, 8) == At(ch, c, d + 1, k, 0))
  }

  ghost function At(ch: seq<seq<Chunk>>, c: nat, d: nat, i: nat, j: nat): real
    requires Chunked(ch) && c < CHUNKS && d < CHUNKS && i <= 8 && j <= 8
  {
    assert Square(ch[c][d].v9, 9);
    ch[c][d].v9[i][j]
  }

  /** The grid keeps every corner of every chunk exactly when neighbours agree on their borders:
      of two that differ only the later one is kept. */
  lemma {:induction false} CornersKeptIff(ch: seq<seq<Chunk>>)
    requires Chunked(ch)
    ensures BordersAgree(ch) <==> forall c, d, i, j :: 0 <= c < CHUNKS && 0 <= d < CHUNKS && 0 <= i <= 8 && 0 <= j <= 8 ==>
      Corner(ch, 8 * c + i, 8 * d + j) == At(ch, c, d, i, j)
  {
    if BordersAgree(ch) {
      forall c, d, i, j | 0 <= c < CHUNKS && 0 <= d < CHUNKS && 0 <= i <= 8 && 0 <= j <= 8
        ensures Corner(ch, 8 * c + i, 8 * d + j) == At(ch, c, d, i, j)
      {
        CornerKept(ch, c, d, i, j);
      }
    }
    if forall c, d, i, j :: 0 <= c < CHUNKS && 0 <= d < CHUNKS && 0 <= i <= 8 && 0 <= j <= 8 ==>
      Corner(ch, 8 * c + i, 8 * d + j) == At(ch, c, d, i, j) {
      forall c, d, k | 0 <= c < 15 && 0 <= d < CHUNKS && 0 <= k <= 8
        ensures At(ch, c, d, 8, k) == At(ch, c + 1, d, 0, k)
      {
        assert Corner(ch, 8 * c + 8, 8 * d + k) == At(ch, c, d, 8, k);
        assert Corner(ch, 8 * (c + 1) + 0, 8 * d + k) == At(ch, c + 1, d, 0, k);
      }
      forall c, d, k | 0 <= c < CHUNKS && 0 <= d < 15 && 0 <= k <= 8
        ensures At(ch, c, d, k, 8) == At(ch, c, d + 1, k, 0)
      {
        assert Corner(ch, 8 * c + k, 8 * d + 8) == At(ch, c, d, k, 8);
        assert Corner(ch, 8 * c + k, 8 * (d + 1) + 0) == At(ch, c, d + 1, k, 0);
      }
    }
  }

  lemma {:induction false} CornerKept(ch: seq<seq<Chunk>>, c: nat, d: nat, i: nat, j: nat)
    requires Chunked(ch) && BordersAgree(ch) && c < CHUNKS && d < CHUNKS && i <= 8 && j <= 8
    ensures Corner(ch, 8 * c + i, 8 * d + j) == At(ch, c, d, i, j)
  {
    var e, k := if i == 8 && c < 15 then c + 1 else c, if i == 8 && c < 15 then 0 else i;
    assert At(ch, c, d, i, j) == At(ch, e, d, k, j);
    if j == 8 && d < 15 {
      assert At(ch, e, d, k, 8) == At(ch, e, d + 1, k, 0);
    }
  }

  /** Which stored height each place of the grid takes: a centre its own, a corner that of the chunk
      it begins, and at the far edges the last chunk's last row or column. */
  lemma {:induction false} PlacesOf(ch: seq<seq<Chunk>>, c: nat, d: nat, i: nat, j: nat)
    requires Chunked(ch) && c < 16 && d < 16 && i < 8 && j < 8
    ensures Square(ch[c][d].v8, 8) && Square(ch[c][d].v9, 9) && Square(ch[15][d].v9, 9)
    ensures Square(ch[c][15].v9, 9) && Square(ch[15][15].v9, 9)
    ensures Middle(ch, 8 * c + i, 8 * d + j) == ch[c][d].v8[i][j]
    ensures Corner(ch, 8 * c + i, 8 * d + j) == ch[c][d].v9[i][j]
    ensures Corner(ch, 128, 8 * d + j) == ch[15][d].v9[8][j] && Corner(ch, 8 * c + i, 128) == ch[c][15].v9[i][8]
    ensures Corner(ch, 128, 128) == ch[15][15].v9[8][8]
  {
    ChunkBegins(c, i);
    ChunkBegins(d, j);
  }

  lemma {:induction false} ChunkBegins(c: nat, i: nat)
    requires c < 16 && i < 8
    ensures (8 * c + i) / 8 == c == ChunkOf(8 * c + i) && (8 * c + i) % 8 == i && ChunkOf(128) == 15
  {
  }

  /** So the surface over a grid put together from chunks meets the heights stored in each chunk. */
  lemma {:induction false} SurfaceMeetsChunks(ch: seq<seq<Chunk>>, v8: array2<real>, v9: array2<real>, c: nat, d: nat, i: nat, j: nat)
    requires Chunked(ch) && c < 16 && d < 16 && i < 8 && j < 8
    requires v8.Length0 == v8.Length1 == CELLS && v9.Length0 == v9.Length1 == CELLS + 1
    requires forall x, y :: 0 <= x < CELLS && 0 <= y < CELLS ==> v8[x, y] == Middle(ch, x, y)
    requires forall x, y :: 0 <= x <= CELLS && 0 <= y <= CELLS ==> v9[x, y] == Corner(ch, x, y)
    ensures Square(ch[c][d].v8, 8) && Square(ch[c][d].v9, 9)
    ensures var x, z := (8 * c + i) as real * UNITSIZE, (8 * d + j) as real * UNITSIZE;
      && GetZ(v8, v9, x, z) == ch[c][d].v9[i][j]
      && GetZ(v8, v9, x + UNITSIZE / 2.0, z + UNITSIZE / 2.0) == ch[c][d].v8[i][j]
  {
    hide GetZ;
    PlacesOf(ch, c, d, i, j);
    MeetsEveryPoint(v8, v9, 8 * c + i, 8 * d + j);
  }
}
