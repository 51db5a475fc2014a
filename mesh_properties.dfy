/** What `imageToSTL` promises about the mesh it writes: where each
    cell's facets sit in the output, the heights of the vertices, the flat
    base, the planar coordinates, and the direction of the normals. */
module MeshProperties {
  import opened StlGeometry
  import opened Heightmap
  import opened Strings
  import opened StlText

  lemma {:induction false} RowCellsMonotone(w: nat, y: nat, m: nat)
    requires y <= m
    ensures RowCells(w, y) <= RowCells(w, m)
    decreases m
  {
    if y < m {
      RowCellsMonotone(w, y, m - 1);
    }
  }

  /** The position of facet j of cell (x, y) in a mesh of w cells per
      row, four facets per cell, rows one after the other:
      4 (y w + x) + j. */
  function FacetIndex(w: nat, x: nat, y: nat, j: nat): nat
  {
    4 * (RowCells(w, y) + x) + j
  }

  /** Inside row `y`, the facets of cell `x` occupy positions 4x .. 4x+3. */
  lemma {:induction false} RowFacetsAt(img: ImageData, maxH: real, dx: real, dy: real, y: nat, n: nat, x: nat, j: nat)
    requires img.Valid()
    requires y < Cells(img.height) && n <= Cells(img.width)
    requires x < n && j < 4
    ensures RowFacets(img, maxH, dx, dy, y, n)[4 * x + j] == CellFacets(img, maxH, dx, dy, x, y)[j]
    decreases n
  {
    if x < n - 1 {
      RowFacetsAt(img, maxH, dx, dy, y, n - 1, x, j);
    }
  }

  /** In the first `m` rows, the facets of cell (x, y) occupy positions
      4 (y W + x) .. 4 (y W + x) + 3, W being the number of cells per
      row. */
  lemma {:induction false} GridFacetsAt(img: ImageData, maxH: real, dx: real, dy: real, m: nat, x: nat, y: nat, j: nat)
    requires img.Valid()
    requires m <= Cells(img.height)
    requires x < Cells(img.width) && y < m && j < 4
    ensures FacetIndex(Cells(img.width), x, y, j) < |GridFacets(img, maxH, dx, dy, m)|
    ensures GridFacets(img, maxH, dx, dy, m)[FacetIndex(Cells(img.width), x, y, j)]
         == CellFacets(img, maxH, dx, dy, x, y)[j]
    decreases m
  {
    var w := Cells(img.width);
    var prefix := GridFacets(img, maxH, dx, dy, m - 1);
    BlockOffset(w, m, x, y, j);
    if y < m - 1 {
      GridFacetsAt(img, maxH, dx, dy, m - 1, x, y, j);
    } else {
      RowFacetsAt(img, maxH, dx, dy, y, w, x, j);
    }
  }

  /** Index arithmetic of GridFacetsAt: the block of cell (x, y) lies in
      row y of a grid of m rows of w cells, four facets per cell. */
  lemma BlockOffset(w: nat, m: nat, x: nat, y: nat, j: nat)
    requires x < w && y < m && j < 4
    ensures FacetIndex(w, x, y, j) < 4 * RowCells(w, m)
    ensures y < m - 1 ==> FacetIndex(w, x, y, j) < 4 * RowCells(w, m - 1)
    ensures y == m - 1 ==> FacetIndex(w, x, y, j) - 4 * RowCells(w, m - 1) == 4 * x + j
  {
    assert FacetIndex(w, x, y, j) < 4 * RowCells(w, y + 1);
    RowCellsMonotone(w, y + 1, m);
    if y < m - 1 {
      RowCellsMonotone(w, y + 1, m - 1);
    }
  }

  /** The facet count 4 w m of m rows of w cells, counted row by row. */
  lemma GridSize(w: nat, m: nat)
    ensures 4 * w * m == 4 * RowCells(w, m)
  {
    RowCellsIsProduct(w, m);
  }

  /** Row-major order: the facets of cell (x, y) are the 4 (y W + x)-th to
      the 4 (y W + x) + 3-rd facets of the mesh, in the cell's own order
      (top v00 v10 v11, top v00 v11 v01, base b11 b10 b00, base b01 b11
      b00). */
  lemma MeshAt(img: ImageData, maxH: real, scale: real, x: nat, y: nat, j: nat)
    requires img.Valid()
    requires x < Cells(img.width) && y < Cells(img.height) && j < 4
    ensures FacetIndex(Cells(img.width), x, y, j) < |Mesh(img, maxH, scale)|
    ensures Mesh(img, maxH, scale)[FacetIndex(Cells(img.width), x, y, j)]
         == CellFacets(img, maxH, scale, scale, x, y)[j]
  {
    GridFacetsAt(img, maxH, scale, scale, Cells(img.height), x, y, j);
  }

  /** The converse: every facet of the mesh is facet j of the cell (x, y)
      whose block starts at 4 (y W + x). */
  lemma MeshIndex(img: ImageData, maxH: real, scale: real, k: nat) returns (x: nat, y: nat, j: nat)
    requires img.Valid()
    requires k < |Mesh(img, maxH, scale)|
    ensures x < Cells(img.width) && y < Cells(img.height) && j == k % 4
    ensures k == FacetIndex(Cells(img.width), x, y, j)
    ensures Mesh(img, maxH, scale)[k] == CellFacets(img, maxH, scale, scale, x, y)[j]
  {
    x, y := CellNumber(Cells(img.width), Cells(img.height), k);
    j := k % 4;
    MeshAt(img, maxH, scale, x, y, j);
  }

  /** Index arithmetic of MeshIndex: position k < 4 w h is facet k % 4
      of the (k / 4)-th cell, counted row by row. */
  lemma CellNumber(w: nat, h: nat, k: nat) returns (x: nat, y: nat)
    requires k < 4 * w * h
    ensures x < w && y < h && FacetIndex(w, x, y, k % 4) == k
  {
    GridSize(w, h);
    x, y := CellAt(w, h, k / 4);
  }

  /** The cell with number c in the first h rows: its column and row. */
  lemma {:induction false} CellAt(w: nat, h: nat, c: nat) returns (x: nat, y: nat)
    requires c < RowCells(w, h)
    ensures x < w && y < h && RowCells(w, y) + x == c
    decreases h
  {
    if c < RowCells(w, h - 1) {
      x, y := CellAt(w, h - 1, c);
    } else {
      x, y := c - RowCells(w, h - 1), h - 1;
    }
  }

  // ---------------------------------------------------------------------
  // Heights

  /** Every red, green and blue byte of the image is `v` (alpha is free). */
  ghost predicate UniformRgb(img: ImageData, v: byte)
  {
    forall i :: 0 <= i < |img.data| && i % 4 != 3 ==> img.data[i] == v
  }

  /** In an image whose colour bytes are all `v`, every height is
      v / 255 * maxH. */
  lemma UniformHeight(img: ImageData, maxH: real, v: byte, x: nat, y: nat)
    requires img.Valid() && UniformRgb(img, v)
    requires x < img.width && y < img.height
    ensures Height(img, maxH, x, y) == (v as real / 255.0) * maxH
  {
    PixelIndexInBounds(img.width, img.height, x, y);
    var idx := PixelIndex(img.width, x, y);
    assert idx % 4 == 0;
    assert img.data[idx] == v && img.data[idx + 1] == v && img.data[idx + 2] == v;
    assert Gray(img, x, y) == v as real;
  }

  /** All-black image: every vertex of the mesh lies at z = 0. */
  lemma BlackImageIsFlat(img: ImageData, maxH: real, scale: real)
    requires img.Valid() && UniformRgb(img, 0)
    ensures forall k :: 0 <= k < |Mesh(img, maxH, scale)| ==>
              Mesh(img, maxH, scale)[k].a.z == 0.0 && Mesh(img, maxH, scale)[k].b.z == 0.0
              && Mesh(img, maxH, scale)[k].c.z == 0.0
  {
    var mesh := Mesh(img, maxH, scale);
    forall k | 0 <= k < |mesh|
      ensures mesh[k].a.z == 0.0 && mesh[k].b.z == 0.0 && mesh[k].c.z == 0.0
    {
      var x, y, j := MeshIndex(img, maxH, scale, k);
      BlackCell(img, maxH, scale, x, y);
    }
  }

  /** Every corner of a cell of an all-black image lies at z = 0. */
  lemma BlackCell(img: ImageData, maxH: real, scale: real, x: nat, y: nat)
    requires img.Valid() && UniformRgb(img, 0)
    requires x + 1 < img.width && y + 1 < img.height
    ensures forall j :: 0 <= j < 4 ==>
              CellFacets(img, maxH, scale, scale, x, y)[j].a.z == 0.0
              && CellFacets(img, maxH, scale, scale, x, y)[j].b.z == 0.0
              && CellFacets(img, maxH, scale, scale, x, y)[j].c.z == 0.0
  {
    UniformHeight(img, maxH, 0, x, y);
    UniformHeight(img, maxH, 0, x + 1, y);
    UniformHeight(img, maxH, 0, x, y + 1);
    UniformHeight(img, maxH, 0, x + 1, y + 1);
  }

  /** In an all-white image every height is maxH. */
  lemma WhiteHeight(img: ImageData, maxH: real, x: nat, y: nat)
    requires img.Valid() && UniformRgb(img, 255)
    requires x < img.width && y < img.height
    ensures Height(img, maxH, x, y) == maxH
  {
    UniformHeight(img, maxH, 255, x, y);
    assert (255 as byte) as real / 255.0 == 1.0;
  }

  /** All-white image: every vertex of a top facet lies at z = maxH. */
  lemma WhiteImageIsRaised(img: ImageData, maxH: real, scale: real)
    requires img.Valid() && UniformRgb(img, 255)
    ensures forall k :: 0 <= k < |Mesh(img, maxH, scale)| && k % 4 < 2 ==>
              Mesh(img, maxH, scale)[k].a.z == maxH && Mesh(img, maxH, scale)[k].b.z == maxH
              && Mesh(img, maxH, scale)[k].c.z == maxH
  {
    var mesh := Mesh(img, maxH, scale);
    forall k | 0 <= k < |mesh| && k % 4 < 2
      ensures mesh[k].a.z == maxH && mesh[k].b.z == maxH && mesh[k].c.z == maxH
    {
      var x, y, j := MeshIndex(img, maxH, scale, k);
      WhiteHeight(img, maxH, x, y);
      WhiteHeight(img, maxH, x + 1, y);
      WhiteHeight(img, maxH, x, y + 1);
      WhiteHeight(img, maxH, x + 1, y + 1);
    }
  }

  /** Vertex heights: for maxH >= 0 every vertex of the mesh lies between
      z = 0 and z = maxH, and the two base facets of every cell (positions
      4c + 2 and 4c + 3) lie at z = 0. */
  lemma VertexHeights(img: ImageData, maxH: real, scale: real)
    requires img.Valid()
    ensures forall k :: 0 <= k < |Mesh(img, maxH, scale)| && 2 <= k % 4 ==>
              Mesh(img, maxH, scale)[k].a.z == 0.0 && Mesh(img, maxH, scale)[k].b.z == 0.0
              && Mesh(img, maxH, scale)[k].c.z == 0.0
    ensures maxH >= 0.0 ==>
              forall k :: 0 <= k < |Mesh(img, maxH, scale)| ==>
                InRange(Mesh(img, maxH, scale)[k].a.z, maxH) && InRange(Mesh(img, maxH, scale)[k].b.z, maxH)
                && InRange(Mesh(img, maxH, scale)[k].c.z, maxH)
  {
    var mesh := Mesh(img, maxH, scale);
    forall k | 0 <= k < |mesh|
      ensures 2 <= k % 4 ==> mesh[k].a.z == 0.0 && mesh[k].b.z == 0.0 && mesh[k].c.z == 0.0
      ensures maxH >= 0.0 ==> InRange(mesh[k].a.z, maxH) && InRange(mesh[k].b.z, maxH) && InRange(mesh[k].c.z, maxH)
    {
      var x, y, j := MeshIndex(img, maxH, scale, k);
    }
  }

  predicate InRange(z: real, maxH: real)
  {
    0.0 <= z <= maxH
  }

  // ---------------------------------------------------------------------
  // Alpha

  /** Two images of the same size whose red, green and blue bytes agree;
      their alpha bytes may differ. */
  ghost predicate SameRgb(img: ImageData, other: ImageData)
  {
    img.width == other.width && img.height == other.height && |img.data| == |other.data|
    && forall i :: 0 <= i < |img.data| && i % 4 != 3 ==> img.data[i] == other.data[i]
  }

  /** `gray` reads the red, green and blue bytes of a pixel only. */
  lemma GrayIgnoresAlpha(img: ImageData, other: ImageData, x: nat, y: nat)
    requires img.Valid() && other.Valid() && SameRgb(img, other)
    requires x < img.width && y < img.height
    ensures Gray(img, x, y) == Gray(other, x, y)
  {
    PixelIndexInBounds(img.width, img.height, x, y);
    var idx := PixelIndex(img.width, x, y);
    assert idx % 4 == 0;
    assert img.data[idx] == other.data[idx];
    assert img.data[idx + 1] == other.data[idx + 1];
    assert img.data[idx + 2] == other.data[idx + 2];
  }

  /** The cells of two images that differ only in alpha are the same. */
  lemma CellIgnoresAlpha(img: ImageData, other: ImageData, maxH: real, scale: real, x: nat, y: nat)
    requires img.Valid() && other.Valid() && SameRgb(img, other)
    requires x + 1 < img.width && y + 1 < img.height
    ensures CellFacets(img, maxH, scale, scale, x, y) == CellFacets(other, maxH, scale, scale, x, y)
  {
    TopIgnoresAlpha(img, other, maxH, scale, x, y);
    TopIgnoresAlpha(img, other, maxH, scale, x + 1, y);
    TopIgnoresAlpha(img, other, maxH, scale, x, y + 1);
    TopIgnoresAlpha(img, other, maxH, scale, x + 1, y + 1);
  }

  lemma TopIgnoresAlpha(img: ImageData, other: ImageData, maxH: real, scale: real, x: nat, y: nat)
    requires img.Valid() && other.Valid() && SameRgb(img, other)
    requires x < img.width && y < img.height
    ensures TopVertex(img, maxH, scale, scale, x, y) == TopVertex(other, maxH, scale, scale, x, y)
  {
    GrayIgnoresAlpha(img, other, x, y);
  }

  /** The alpha channel has no influence on the mesh. */
  lemma MeshIgnoresAlpha(img: ImageData, other: ImageData, maxH: real, scale: real)
    requires img.Valid() && other.Valid() && SameRgb(img, other)
    ensures Mesh(img, maxH, scale) == Mesh(other, maxH, scale)
  {
    var mesh, mesh' := Mesh(img, maxH, scale), Mesh(other, maxH, scale);
    forall k | 0 <= k < |mesh| ensures mesh[k] == mesh'[k] {
      var x, y, j := MeshIndex(img, maxH, scale, k);
      MeshAt(other, maxH, scale, x, y, j);
      CellIgnoresAlpha(img, other, maxH, scale, x, y);
    }
  }

  // ---------------------------------------------------------------------
  // Scaling

  /** Stretches a point by `kxy` in the plane and by `kz` in height. */
  function ScaleVec(v: Vec3, kxy: real, kz: real): Vec3
  {
    Vec3(kxy * v.x, kxy * v.y, kz * v.z)
  }

  function ScaleFacet(t: Facet, kxy: real, kz: real): Facet
  {
    Facet(ScaleVec(t.a, kxy, kz), ScaleVec(t.b, kxy, kz), ScaleVec(t.c, kxy, kz))
  }

  /** Grid coordinates are linear in the spacing. */
  lemma {:induction false} CoordScaling(i: nat, d: real, k: real)
    ensures Coord(i, k * d) == k * Coord(i, d)
  {
    if i != 0 {
      CoordScaling(i - 1, d, k);
      assert Coord(i, k * d) == Coord(i - 1, k * d) + k * d;
      assert Coord(i, d) == Coord(i - 1, d) + d;
      assert k * Coord(i - 1, d) + k * d == k * (Coord(i - 1, d) + d);
    }
  }

  /** Heights are linear in maxH. */
  lemma HeightScaling(img: ImageData, maxH: real, k: real, x: nat, y: nat)
    requires img.Valid()
    requires x < img.width && y < img.height
    ensures Height(img, k * maxH, x, y) == k * Height(img, maxH, x, y)
  {
    var q := Gray(img, x, y) / 255.0;
    assert q * (k * maxH) == k * (q * maxH);
  }

  lemma TopScaling(img: ImageData, maxH: real, d: real, kxy: real, kz: real, x: nat, y: nat)
    requires img.Valid()
    requires x < img.width && y < img.height
    ensures TopVertex(img, kz * maxH, kxy * d, kxy * d, x, y) == ScaleVec(TopVertex(img, maxH, d, d, x, y), kxy, kz)
  {
    CoordScaling(x, d, kxy);
    CoordScaling(y, d, kxy);
    HeightScaling(img, maxH, kz, x, y);
  }

  lemma BaseScaling(d: real, kxy: real, kz: real, x: nat, y: nat)
    ensures BaseVertex(kxy * d, kxy * d, x, y) == ScaleVec(BaseVertex(d, d, x, y), kxy, kz)
  {
    CoordScaling(x, d, kxy);
    CoordScaling(y, d, kxy);
  }

  /** The facets of a cell, stretched. */
  lemma CellScaling(img: ImageData, maxH: real, d: real, kxy: real, kz: real, x: nat, y: nat, j: nat)
    requires img.Valid()
    requires x + 1 < img.width && y + 1 < img.height && j < 4
    ensures CellFacets(img, kz * maxH, kxy * d, kxy * d, x, y)[j]
         == ScaleFacet(CellFacets(img, maxH, d, d, x, y)[j], kxy, kz)
  {
    TopScaling(img, maxH, d, kxy, kz, x, y);
    TopScaling(img, maxH, d, kxy, kz, x + 1, y);
    TopScaling(img, maxH, d, kxy, kz, x, y + 1);
    TopScaling(img, maxH, d, kxy, kz, x + 1, y + 1);
    BaseScaling(d, kxy, kz, x, y);
    BaseScaling(d, kxy, kz, x + 1, y);
    BaseScaling(d, kxy, kz, x, y + 1);
    BaseScaling(d, kxy, kz, x + 1, y + 1);
  }

  /** Multiplying `scale` by kxy and maxH by kz stretches every facet of
      the mesh by kxy in x and y and by kz in z, facet by facet in the
      same order. */
  lemma MeshScaling(img: ImageData, maxH: real, scale: real, kxy: real, kz: real)
    requires img.Valid()
    ensures |Mesh(img, kz * maxH, kxy * scale)| == |Mesh(img, maxH, scale)|
    ensures forall k :: 0 <= k < |Mesh(img, maxH, scale)| ==>
              Mesh(img, kz * maxH, kxy * scale)[k] == ScaleFacet(Mesh(img, maxH, scale)[k], kxy, kz)
  {
    var mesh, mesh' := Mesh(img, maxH, scale), Mesh(img, kz * maxH, kxy * scale);
    forall k | 0 <= k < |mesh| ensures mesh'[k] == ScaleFacet(mesh[k], kxy, kz) {
      var x, y, j := MeshIndex(img, maxH, scale, k);
      MeshAt(img, kz * maxH, kxy * scale, x, y, j);
      CellScaling(img, maxH, scale, kxy, kz, x, y, j);
    }
  }

  /** Doubling `scale` doubles every x and y and leaves every z as it is. */
  lemma DoublingScale(img: ImageData, maxH: real, scale: real)
    requires img.Valid()
    ensures |Mesh(img, maxH, 2.0 * scale)| == |Mesh(img, maxH, scale)|
    ensures forall k :: 0 <= k < |Mesh(img, maxH, scale)| ==>
              Mesh(img, maxH, 2.0 * scale)[k] == ScaleFacet(Mesh(img, maxH, scale)[k], 2.0, 1.0)
  {
    MeshScaling(img, maxH, scale, 2.0, 1.0);
    assert 1.0 * maxH == maxH;
  }

  /** Doubling maxH doubles every z and leaves every x and y as it is;
      base vertices stay at z = 0. */
  lemma DoublingHeight(img: ImageData, maxH: real, scale: real)
    requires img.Valid()
    ensures |Mesh(img, 2.0 * maxH, scale)| == |Mesh(img, maxH, scale)|
    ensures forall k :: 0 <= k < |Mesh(img, maxH, scale)| ==>
              Mesh(img, 2.0 * maxH, scale)[k] == ScaleFacet(Mesh(img, maxH, scale)[k], 1.0, 2.0)
  {
    MeshScaling(img, maxH, scale, 1.0, 2.0);
    assert 1.0 * scale == scale;
  }

  // ---------------------------------------------------------------------
  // Normals

  /** The cross products of the four facet shapes of a cell whose corner
      (x0, y0) is at heights z00, z10, z01, z11 and whose sides are d. */
  lemma TopCross0(x0: real, y0: real, d: real, z00: real, z10: real, z11: real)
    ensures EdgeCross(Vec3(x0, y0, z00), Vec3(x0 + d, y0, z10), Vec3(x0 + d, y0 + d, z11)).z == d * d
  {
  }

  lemma TopCross1(x0: real, y0: real, d: real, z00: real, z11: real, z01: real)
    ensures EdgeCross(Vec3(x0, y0, z00), Vec3(x0 + d, y0 + d, z11), Vec3(x0, y0 + d, z01)).z == d * d
  {
  }

  lemma BaseCross2(x0: real, y0: real, d: real)
    ensures EdgeCross(Vec3(x0 + d, y0 + d, 0.0), Vec3(x0 + d, y0, 0.0), Vec3(x0, y0, 0.0)) == Vec3(0.0, 0.0, -(d * d))
  {
  }

  lemma BaseCross3(x0: real, y0: real, d: real)
    ensures EdgeCross(Vec3(x0, y0 + d, 0.0), Vec3(x0 + d, y0 + d, 0.0), Vec3(x0, y0, 0.0)) == Vec3(0.0, 0.0, -(d * d))
  {
  }

  /** At spacing d the two top facets of a cell have cross products with
      z component d^2, whatever the heights. */
  lemma TopCrossProducts(img: ImageData, maxH: real, d: real, x: nat, y: nat)
    requires img.Valid()
    requires x + 1 < img.width && y + 1 < img.height
    ensures FacetCross(CellFacets(img, maxH, d, d, x, y)[0]).z == d * d
    ensures FacetCross(CellFacets(img, maxH, d, d, x, y)[1]).z == d * d
  {
    var fs := CellFacets(img, maxH, d, d, x, y);
    var x0, y0 := Coord(x, d), Coord(y, d);
    var z00, z10 := Height(img, maxH, x, y), Height(img, maxH, x + 1, y);
    var z01, z11 := Height(img, maxH, x, y + 1), Height(img, maxH, x + 1, y + 1);
    assert fs[0] == Facet(Vec3(x0, y0, z00), Vec3(x0 + d, y0, z10), Vec3(x0 + d, y0 + d, z11));
    assert fs[1] == Facet(Vec3(x0, y0, z00), Vec3(x0 + d, y0 + d, z11), Vec3(x0, y0 + d, z01));
    TopCross0(x0, y0, d, z00, z10, z11);
    TopCross1(x0, y0, d, z00, z11, z01);
  }

  /** At spacing d the two base facets of a cell have the cross product
      (0, 0, -d^2). */
  lemma BaseCrossProducts(img: ImageData, maxH: real, d: real, x: nat, y: nat)
    requires img.Valid()
    requires x + 1 < img.width && y + 1 < img.height
    ensures FacetCross(CellFacets(img, maxH, d, d, x, y)[2]) == Vec3(0.0, 0.0, -(d * d))
    ensures FacetCross(CellFacets(img, maxH, d, d, x, y)[3]) == Vec3(0.0, 0.0, -(d * d))
  {
    var fs := CellFacets(img, maxH, d, d, x, y);
    var x0, y0 := Coord(x, d), Coord(y, d);
    assert fs[2] == Facet(Vec3(x0 + d, y0 + d, 0.0), Vec3(x0 + d, y0, 0.0), Vec3(x0, y0, 0.0));
    assert fs[3] == Facet(Vec3(x0, y0 + d, 0.0), Vec3(x0 + d, y0 + d, 0.0), Vec3(x0, y0, 0.0));
    BaseCross2(x0, y0, d);
    BaseCross3(x0, y0, d);
  }

  /** For scale != 0 and any square root that is never negative: the
      normals of the base facets (positions 4c + 2 and 4c + 3) point
      straight down, those of the top facets (4c and 4c + 1) point upwards. */
  lemma NormalDirections(img: ImageData, maxH: real, scale: real, sqrt: real -> real)
    requires img.Valid() && SqrtNonNegative(sqrt) && scale != 0.0
    ensures forall k :: 0 <= k < |Mesh(img, maxH, scale)| && 2 <= k % 4 ==>
              FacetNormal(Mesh(img, maxH, scale)[k], sqrt).x == 0.0
              && FacetNormal(Mesh(img, maxH, scale)[k], sqrt).y == 0.0
              && FacetNormal(Mesh(img, maxH, scale)[k], sqrt).z < 0.0
    ensures forall k :: 0 <= k < |Mesh(img, maxH, scale)| && k % 4 < 2 ==>
              FacetNormal(Mesh(img, maxH, scale)[k], sqrt).z > 0.0
  {
    var mesh := Mesh(img, maxH, scale);
    assert scale * scale > 0.0;
    forall k | 0 <= k < |mesh|
      ensures 2 <= k % 4 ==> FacetNormal(mesh[k], sqrt).x == 0.0 && FacetNormal(mesh[k], sqrt).y == 0.0
                             && FacetNormal(mesh[k], sqrt).z < 0.0
      ensures k % 4 < 2 ==> FacetNormal(mesh[k], sqrt).z > 0.0
    {
      var x, y, j := MeshIndex(img, maxH, scale, k);
      TopCrossProducts(img, maxH, scale, x, y);
      BaseCrossProducts(img, maxH, scale, x, y);
      NormalKeepsSigns(mesh[k].a, mesh[k].b, mesh[k].c, sqrt);
    }
  }

  /** With a true square root the base normal is exactly (0, 0, -1). */
  lemma BaseNormalIsDown(img: ImageData, maxH: real, scale: real, sqrt: real -> real)
    requires img.Valid() && scale != 0.0
    requires IsSqrtAt(sqrt, (scale * scale) * (scale * scale))
    ensures forall k :: 0 <= k < |Mesh(img, maxH, scale)| && 2 <= k % 4 ==>
              FacetNormal(Mesh(img, maxH, scale)[k], sqrt) == Vec3(0.0, 0.0, -1.0)
  {
    var mesh := Mesh(img, maxH, scale);
    forall k | 0 <= k < |mesh| && 2 <= k % 4
      ensures FacetNormal(mesh[k], sqrt) == Vec3(0.0, 0.0, -1.0)
    {
      var x, y, j := MeshIndex(img, maxH, scale, k);
      BaseCellNormals(img, maxH, scale, x, y, sqrt);
    }
  }

  /** Both base facets of a cell have the normal (0, 0, -1). */
  lemma BaseCellNormals(img: ImageData, maxH: real, scale: real, x: nat, y: nat, sqrt: real -> real)
    requires img.Valid()
    requires x + 1 < img.width && y + 1 < img.height
    requires scale != 0.0 && IsSqrtAt(sqrt, (scale * scale) * (scale * scale))
    ensures FacetNormal(CellFacets(img, maxH, scale, scale, x, y)[2], sqrt) == Vec3(0.0, 0.0, -1.0)
    ensures FacetNormal(CellFacets(img, maxH, scale, scale, x, y)[3], sqrt) == Vec3(0.0, 0.0, -1.0)
  {
    var s2, s4 := scale * scale, (scale * scale) * (scale * scale);
    SquareOfSquare(scale, sqrt);
    BaseCrossProducts(img, maxH, scale, x, y);
    DownNormal(CellFacets(img, maxH, scale, scale, x, y)[2], s2, s4, sqrt);
    DownNormal(CellFacets(img, maxH, scale, scale, x, y)[3], s2, s4, sqrt);
  }

  /** The true square root of scale^4 is scale^2, a positive number. */
  lemma SquareOfSquare(scale: real, sqrt: real -> real)
    requires scale != 0.0
    requires IsSqrtAt(sqrt, (scale * scale) * (scale * scale))
    ensures scale * scale > 0.0 && sqrt((scale * scale) * (scale * scale)) == scale * scale
  {
    SqrtAtSquare(scale * scale, (scale * scale) * (scale * scale), sqrt);
    SquarePositive(scale);
  }

  /** The true square root of s2^2 is s2 itself when s2 >= 0. */
  lemma SqrtAtSquare(s2: real, s4: real, sqrt: real -> real)
    requires s4 == s2 * s2 && IsSqrtAt(sqrt, s4)
    ensures 0.0 <= s2 ==> sqrt(s4) == s2
  {
    if 0.0 <= s2 {
      SquareRootUnique(sqrt(s4), s2);
    }
  }

  /** A facet whose cross product is (0, 0, -s2), with sqrt(s2^2) = s2 > 0,
      has the normal (0, 0, -1). */
  lemma DownNormal(t: Facet, s2: real, s4: real, sqrt: real -> real)
    requires s2 > 0.0 && s4 == s2 * s2 && sqrt(s4) == s2
    requires FacetCross(t) == Vec3(0.0, 0.0, -s2)
    ensures FacetNormal(t, sqrt) == Vec3(0.0, 0.0, -1.0)
  {
    NormalizeDown(FacetCross(t), s2, s4, sqrt);
  }

  lemma NormalizeDown(v: Vec3, s2: real, s4: real, sqrt: real -> real)
    requires s2 > 0.0 && s4 == s2 * s2 && sqrt(s4) == s2
    requires v == Vec3(0.0, 0.0, -s2)
    ensures Normalize(v, sqrt) == Vec3(0.0, 0.0, -1.0)
  {
    assert (-s2) * (-s2) == s2 * s2;
    assert Dot(v, v) == s4;
    assert GuardedLength(v, sqrt) == s2;
    assert 0.0 / s2 == 0.0 && (-s2) / s2 == -1.0;
  }

  // ---------------------------------------------------------------------
  // Base under top, planar coordinates

  /** Each base facet lies under the top facets of its cell: its corners
      are top corners of the same cell dropped to z = 0, with the same x
      and y. */
  lemma BaseUnderTop(img: ImageData, maxH: real, scale: real)
    requires img.Valid()
    ensures forall k :: 0 <= k < |Mesh(img, maxH, scale)| && k % 4 == 2 ==>
              Mesh(img, maxH, scale)[k]
              == Facet(Flat(Mesh(img, maxH, scale)[k - 2].c), Flat(Mesh(img, maxH, scale)[k - 2].b),
                       Flat(Mesh(img, maxH, scale)[k - 2].a))
    ensures forall k :: 0 <= k < |Mesh(img, maxH, scale)| && k % 4 == 3 ==>
              Mesh(img, maxH, scale)[k]
              == Facet(Flat(Mesh(img, maxH, scale)[k - 2].c), Flat(Mesh(img, maxH, scale)[k - 3].c),
                       Flat(Mesh(img, maxH, scale)[k - 3].a))
  {
    var mesh := Mesh(img, maxH, scale);
    forall k | 0 <= k < |mesh| && 2 <= k % 4
      ensures k % 4 == 2 ==> mesh[k] == Facet(Flat(mesh[k - 2].c), Flat(mesh[k - 2].b), Flat(mesh[k - 2].a))
      ensures k % 4 == 3 ==> mesh[k] == Facet(Flat(mesh[k - 2].c), Flat(mesh[k - 3].c), Flat(mesh[k - 3].a))
    {
      var x, y, j := MeshIndex(img, maxH, scale, k);
      var base := FacetIndex(Cells(img.width), x, y, 0);
      MeshAt(img, maxH, scale, x, y, 0);
      MeshAt(img, maxH, scale, x, y, 1);
      assert k - j == base;
    }
  }

  /** The point at column i, row j of the grid at spacing d, height z,
      with the coordinates written as the products i * d and j * d. */
  function GridPoint(i: nat, j: nat, d: real, z: real): Vec3
  {
    Vec3(i as real * d, j as real * d, z)
  }

  lemma TopIsGridPoint(img: ImageData, maxH: real, d: real, x: nat, y: nat)
    requires img.Valid()
    requires x < img.width && y < img.height
    ensures TopVertex(img, maxH, d, d, x, y) == GridPoint(x, y, d, Height(img, maxH, x, y))
    ensures BaseVertex(d, d, x, y) == GridPoint(x, y, d, 0.0)
  {
    CoordIsProduct(x, d);
    CoordIsProduct(y, d);
  }

  /** The corners of cell (x, y): x and y coordinates are grid index times
      scale, the top corners are at the heights of their pixels and the
      base corners at z = 0, in the order `imageToSTL` writes them. */
  lemma CellCorners(img: ImageData, maxH: real, scale: real, x: nat, y: nat)
    requires img.Valid()
    requires x + 1 < img.width && y + 1 < img.height
    ensures CellFacets(img, maxH, scale, scale, x, y)[0]
         == Facet(GridPoint(x, y, scale, Height(img, maxH, x, y)),
                  GridPoint(x + 1, y, scale, Height(img, maxH, x + 1, y)),
                  GridPoint(x + 1, y + 1, scale, Height(img, maxH, x + 1, y + 1)))
    ensures CellFacets(img, maxH, scale, scale, x, y)[1]
         == Facet(GridPoint(x, y, scale, Height(img, maxH, x, y)),
                  GridPoint(x + 1, y + 1, scale, Height(img, maxH, x + 1, y + 1)),
                  GridPoint(x, y + 1, scale, Height(img, maxH, x, y + 1)))
    ensures CellFacets(img, maxH, scale, scale, x, y)[2]
         == Facet(GridPoint(x + 1, y + 1, scale, 0.0), GridPoint(x + 1, y, scale, 0.0), GridPoint(x, y, scale, 0.0))
    ensures CellFacets(img, maxH, scale, scale, x, y)[3]
         == Facet(GridPoint(x, y + 1, scale, 0.0), GridPoint(x + 1, y + 1, scale, 0.0), GridPoint(x, y, scale, 0.0))
  {
    TopIsGridPoint(img, maxH, scale, x, y);
    TopIsGridPoint(img, maxH, scale, x + 1, y);
    TopIsGridPoint(img, maxH, scale, x, y + 1);
    TopIsGridPoint(img, maxH, scale, x + 1, y + 1);
  }

  // ---------------------------------------------------------------------
  // The text of the whole mesh

  /** The text `imageToSTL` returns splits into the header line,
      7 * 4 * (width - 1) * (height - 1) facet lines and the footer line,
      each ended by a newline. */
  lemma ImageDocumentLines(img: ImageData, maxH: real, scale: real, fmt: real -> string, sqrt: real -> real)
    requires img.Valid() && SingleLineNumbers(fmt)
    ensures |Split(Document(Mesh(img, maxH, scale), fmt, sqrt), '\n')|
            == 28 * Cells(img.width) * Cells(img.height) + 3
    ensures Split(Document(Mesh(img, maxH, scale), fmt, sqrt), '\n')[0] == HeaderLine
    ensures Split(Document(Mesh(img, maxH, scale), fmt, sqrt), '\n')[28 * Cells(img.width) * Cells(img.height) + 1]
            == FooterLine
  {
    var mesh := Mesh(img, maxH, scale);
    DocumentSplitsIntoLines(mesh, fmt, sqrt);
    LinesPerImage(Cells(img.width), Cells(img.height));
  }

  lemma LinesPerImage(w: nat, h: nat)
    ensures 7 * (4 * w * h) == 28 * w * h
  {
  }

  /** An image narrower or lower than two pixels has no cell: the text is
      the header line followed by the footer line. */
  lemma DegenerateImage(img: ImageData, maxH: real, scale: real, fmt: real -> string, sqrt: real -> real)
    requires img.Valid()
    requires img.width < 2 || img.height < 2
    ensures Document(Mesh(img, maxH, scale), fmt, sqrt) == HeaderLine + "\n" + FooterLine + "\n"
  {
    EmptyDocument(fmt, sqrt);
  }
}
