/** The heightmap mesher `imageToSTL` of assets/js/covert.js: every 2x2
    block of neighbouring pixels (a cell) becomes two top triangles over
    the height field and two base triangles at z = 0, written as ASCII
    STL text. */
module Heightmap {
  import opened Strings
  import opened StlGeometry
  import opened StlText

  /** One channel of a canvas pixel buffer (a `Uint8ClampedArray`). */
  newtype byte = b: int | 0 <= b < 256

  /** The decoded image: RGBA bytes, row-major, four per pixel. */
  datatype ImageData = ImageData(data: seq<byte>, width: nat, height: nat)
  {
    /** The canvas always hands over exactly four bytes per pixel. */
    predicate Valid()
    {
      |data| == 4 * width * height
    }
  }

  /** Cells along an axis of `n` pixels: the loop bound `n - 1`, never
      negative. */
  function Cells(n: nat): (c: nat)
    ensures c + 1 == n || (n == 0 && c == 0)
  {
    if n == 0 then 0 else n - 1
  }

  /** The first byte of pixel (x, y). */
  function PixelIndex(width: nat, x: nat, y: nat): nat
  {
    (y * width + x) * 4
  }

  /** The red, green and blue bytes of every pixel inside the image lie
      inside a buffer of 4 * width * height bytes. */
  lemma PixelIndexInBounds(width: nat, height: nat, x: nat, y: nat)
    requires x < width && y < height
    ensures PixelIndex(width, x, y) + 3 < 4 * width * height
  {
    assert y * width + x < y * width + width;
    assert y * width + width == (y + 1) * width;
    assert (y + 1) * width <= height * width;
  }

  /** `gray(x, y)`: the mean of the red, green and blue bytes of pixel
      (x, y); alpha is not read. */
  function Gray(img: ImageData, x: nat, y: nat): (g: real)
    requires img.Valid()
    requires x < img.width && y < img.height
    ensures 0.0 <= g <= 255.0
  {
    PixelIndexInBounds(img.width, img.height, x, y);
    var idx := PixelIndex(img.width, x, y);
    (img.data[idx] as int + img.data[idx + 1] as int + img.data[idx + 2] as int) as real / 3.0
  }

  /** Height of the top surface above pixel (x, y): gray / 255 * maxH. */
  function Height(img: ImageData, maxH: real, x: nat, y: nat): (z: real)
    requires img.Valid()
    requires x < img.width && y < img.height
    ensures maxH >= 0.0 ==> 0.0 <= z <= maxH
  {
    var g := Gray(img, x, y);
    assert maxH >= 0.0 ==> (g / 255.0) * maxH <= 1.0 * maxH;
    assert maxH >= 0.0 ==> (g / 255.0) * maxH >= 0.0 * maxH;
    (g / 255.0) * maxH
  }

  /** Grid coordinate `i * d` of column or row `i` at spacing `d`, as `i`
      steps of `d` from the origin (CoordIsProduct shows it is the
      product). */
  function Coord(i: nat, d: real): real
  {
    if i == 0 then 0.0 else Coord(i - 1, d) + d
  }

  /** The grid coordinate is the product `i * d` the source computes. */
  lemma {:induction false} CoordIsProduct(i: nat, d: real)
    ensures Coord(i, d) == i as real * d
  {
    if i != 0 {
      CoordIsProduct(i - 1, d);
      assert (i - 1) as real * d + d == i as real * d;
    }
  }

  /** The top vertex over grid point (x, y). */
  function TopVertex(img: ImageData, maxH: real, dx: real, dy: real, x: nat, y: nat): Vec3
    requires img.Valid()
    requires x < img.width && y < img.height
  {
    Vec3(Coord(x, dx), Coord(y, dy), Height(img, maxH, x, y))
  }

  /** The base vertex under grid point (x, y). */
  function BaseVertex(dx: real, dy: real, x: nat, y: nat): Vec3
  {
    Vec3(Coord(x, dx), Coord(y, dy), 0.0)
  }

  /** A vertex dropped onto the plane z = 0. */
  function Flat(v: Vec3): Vec3
  {
    Vec3(v.x, v.y, 0.0)
  }

  /** The four facets of cell (x, y), in emission order: top (v00, v10,
      v11), top (v00, v11, v01), base (b11, b10, b00), base (b01, b11,
      b00). */
  function CellFacets(img: ImageData, maxH: real, dx: real, dy: real, x: nat, y: nat): (fs: seq<Facet>)
    requires img.Valid()
    requires x + 1 < img.width && y + 1 < img.height
    ensures |fs| == 4
    ensures fs[2] == Facet(Flat(fs[0].c), Flat(fs[0].b), Flat(fs[0].a))
    ensures fs[3] == Facet(Flat(fs[1].c), Flat(fs[0].c), Flat(fs[0].a))
  {
    var v00 := TopVertex(img, maxH, dx, dy, x, y);
    var v10 := TopVertex(img, maxH, dx, dy, x + 1, y);
    var v01 := TopVertex(img, maxH, dx, dy, x, y + 1);
    var v11 := TopVertex(img, maxH, dx, dy, x + 1, y + 1);
    var b00 := BaseVertex(dx, dy, x, y);
    var b10 := BaseVertex(dx, dy, x + 1, y);
    var b01 := BaseVertex(dx, dy, x, y + 1);
    var b11 := BaseVertex(dx, dy, x + 1, y + 1);
    [Facet(v00, v10, v11), Facet(v00, v11, v01), Facet(b11, b10, b00), Facet(b01, b11, b00)]
  }

  /** The number of cells in the first y rows of a grid of w cells per
      row, counted row by row. */
  function RowCells(w: nat, y: nat): nat
  {
    if y == 0 then 0 else RowCells(w, y - 1) + w
  }

  /** Counted row by row, y rows of w cells are y * w cells. */
  lemma {:induction false} RowCellsIsProduct(w: nat, y: nat)
    ensures RowCells(w, y) == y * w
  {
    if y != 0 {
      RowCellsIsProduct(w, y - 1);
      assert (y - 1) * w + w == y * w;
    }
  }

  /** The facets of the first `n` cells of row `y`, left to right. */
  function RowFacets(img: ImageData, maxH: real, dx: real, dy: real, y: nat, n: nat): (fs: seq<Facet>)
    requires img.Valid()
    requires y < Cells(img.height) && n <= Cells(img.width)
    ensures |fs| == 4 * n
  {
    if n == 0 then []
    else RowFacets(img, maxH, dx, dy, y, n - 1) + CellFacets(img, maxH, dx, dy, n - 1, y)
  }

  /** The facets of the first `m` rows, top row first. */
  function GridFacets(img: ImageData, maxH: real, dx: real, dy: real, m: nat): (fs: seq<Facet>)
    requires img.Valid()
    requires m <= Cells(img.height)
    ensures |fs| == 4 * RowCells(Cells(img.width), m)
  {
    if m == 0 then []
    else GridFacets(img, maxH, dx, dy, m - 1) + RowFacets(img, maxH, dx, dy, m - 1, Cells(img.width))
  }

  /** The facets emitted before the loops reach cell (x, y), one cell at
      a time as the loops visit them: the cell to the left of (x, y) comes
      last, and the start of a row follows the end of the row above. */
  function Emitted(img: ImageData, maxH: real, dx: real, dy: real, y: nat, x: nat): (fs: seq<Facet>)
    requires img.Valid()
    requires y <= Cells(img.height) && x <= Cells(img.width)
    requires y == Cells(img.height) ==> x == 0
    ensures |fs| == 4 * (RowCells(Cells(img.width), y) + x)
    decreases y, x
  {
    if x > 0 then Emitted(img, maxH, dx, dy, y, x - 1) + CellFacets(img, maxH, dx, dy, x - 1, y)
    else if y > 0 then Emitted(img, maxH, dx, dy, y - 1, Cells(img.width))
    else []
  }

  /** The loops' view and the rows' view agree: before the loops reach
      the start of row y they have emitted the first y rows. */
  lemma {:induction false} EmittedRows(img: ImageData, maxH: real, dx: real, dy: real, y: nat)
    requires img.Valid()
    requires y <= Cells(img.height)
    ensures Emitted(img, maxH, dx, dy, y, 0) == GridFacets(img, maxH, dx, dy, y)
    decreases y, 0, 1
  {
    if y > 0 {
      EmittedInRow(img, maxH, dx, dy, y - 1, Cells(img.width));
    }
  }

  /** Inside row y, the loops have emitted the rows above and the first x
      cells of the row. */
  lemma {:induction false} EmittedInRow(img: ImageData, maxH: real, dx: real, dy: real, y: nat, x: nat)
    requires img.Valid()
    requires y < Cells(img.height) && x <= Cells(img.width)
    ensures Emitted(img, maxH, dx, dy, y, x)
         == GridFacets(img, maxH, dx, dy, y) + RowFacets(img, maxH, dx, dy, y, x)
    decreases y, x, 2
  {
    EmittedRows(img, maxH, dx, dy, y);
    if x > 0 {
      EmittedInRow(img, maxH, dx, dy, y, x - 1);
      var g := GridFacets(img, maxH, dx, dy, y);
      var r := RowFacets(img, maxH, dx, dy, y, x - 1);
      var c := CellFacets(img, maxH, dx, dy, x - 1, y);
      assert (g + r) + c == g + (r + c);
    } else {
      assert GridFacets(img, maxH, dx, dy, y) + [] == GridFacets(img, maxH, dx, dy, y);
    }
  }

  /** Emitting cell (x, y) appends its four facet blocks to the text of
      the cells before it. */
  lemma CellText(img: ImageData, maxH: real, dx: real, dy: real, x: nat, y: nat,
                 fmt: real -> string, sqrt: real -> real)
    requires img.Valid()
    requires x + 1 < img.width && y + 1 < img.height
    ensures Partial(Emitted(img, maxH, dx, dy, y, x + 1), fmt, sqrt)
         == Partial(Emitted(img, maxH, dx, dy, y, x), fmt, sqrt)
            + FacetText(Facet(TopVertex(img, maxH, dx, dy, x, y), TopVertex(img, maxH, dx, dy, x + 1, y),
                              TopVertex(img, maxH, dx, dy, x + 1, y + 1)), fmt, sqrt)
            + FacetText(Facet(TopVertex(img, maxH, dx, dy, x, y), TopVertex(img, maxH, dx, dy, x + 1, y + 1),
                              TopVertex(img, maxH, dx, dy, x, y + 1)), fmt, sqrt)
            + FacetText(Facet(BaseVertex(dx, dy, x + 1, y + 1), BaseVertex(dx, dy, x + 1, y),
                              BaseVertex(dx, dy, x, y)), fmt, sqrt)
            + FacetText(Facet(BaseVertex(dx, dy, x, y + 1), BaseVertex(dx, dy, x + 1, y + 1),
                              BaseVertex(dx, dy, x, y)), fmt, sqrt)
  {
    var done := Emitted(img, maxH, dx, dy, y, x);
    var c := CellFacets(img, maxH, dx, dy, x, y);
    AppendFourFacets(done, c, fmt, sqrt);
  }

  /** A finished row is the start of the next one. */
  lemma NextRow(img: ImageData, maxH: real, dx: real, dy: real, y: nat, x: nat)
    requires img.Valid()
    requires y < Cells(img.height) && x == Cells(img.width)
    ensures Emitted(img, maxH, dx, dy, y, x) == Emitted(img, maxH, dx, dy, y + 1, 0)
  {
  }

  /** The mesh `imageToSTL` emits: 4 facets for each of the
      (width - 1) * (height - 1) cells, and none for an image narrower
      or lower than two pixels. */
  function Mesh(img: ImageData, maxH: real, scale: real): (fs: seq<Facet>)
    requires img.Valid()
    ensures |fs| == 4 * Cells(img.width) * Cells(img.height)
    ensures img.width < 2 || img.height < 2 ==> fs == []
  {
    var w, h := Cells(img.width), Cells(img.height);
    RowCellsIsProduct(w, h);
    assert 4 * (h * w) == 4 * w * h;
    GridFacets(img, maxH, scale, scale, h)
  }

  /** After the last row the footer line completes the document of the
      whole mesh. */
  lemma FinishText(img: ImageData, maxH: real, dx: real, dy: real, y: nat,
                   fmt: real -> string, sqrt: real -> real)
    requires img.Valid()
    requires dx == dy && y == Cells(img.height)
    ensures Partial(Emitted(img, maxH, dx, dy, y, 0), fmt, sqrt) + FooterLine + "\n"
         == Document(Mesh(img, maxH, dx), fmt, sqrt)
  {
    EmittedRows(img, maxH, dx, dy, y);
    CloseDocument(Emitted(img, maxH, dx, dy, y, 0), fmt, sqrt);
  }

  /** The body of the inner loop of `imageToSTL` for cell (x, y): the
      four corner heights and vertices, the two top facets and the two
      base facets appended to the text. */
  method EmitCell(img: ImageData, maxH: real, dx: real, dy: real, x: nat, y: nat,
                  fmt: real -> string, sqrt: real -> real, before: string) returns (stl: string)
    requires img.Valid()
    requires x + 1 < img.width && y + 1 < img.height
    requires before == Partial(Emitted(img, maxH, dx, dy, y, x), fmt, sqrt)
    ensures stl == Partial(Emitted(img, maxH, dx, dy, y, x + 1), fmt, sqrt)
  {
    stl := before;
    var z00 := Height(img, maxH, x, y);
    var z10 := Height(img, maxH, x + 1, y);
    var z01 := Height(img, maxH, x, y + 1);
    var z11 := Height(img, maxH, x + 1, y + 1);

    var v00 := Vec3(Coord(x, dx), Coord(y, dy), z00);
    var v10 := Vec3(Coord(x + 1, dx), Coord(y, dy), z10);
    var v01 := Vec3(Coord(x, dx), Coord(y + 1, dy), z01);
    var v11 := Vec3(Coord(x + 1, dx), Coord(y + 1, dy), z11);

    CellText(img, maxH, dx, dy, x, y, fmt, sqrt);

    // top surface
    stl := stl + FacetText(Facet(v00, v10, v11), fmt, sqrt);
    stl := stl + FacetText(Facet(v00, v11, v01), fmt, sqrt);

    // bottom base (z = 0)
    var b00 := Vec3(Coord(x, dx), Coord(y, dy), 0.0);
    var b10 := Vec3(Coord(x + 1, dx), Coord(y, dy), 0.0);
    var b01 := Vec3(Coord(x, dx), Coord(y + 1, dy), 0.0);
    var b11 := Vec3(Coord(x + 1, dx), Coord(y + 1, dy), 0.0);

    stl := stl + FacetText(Facet(b11, b10, b00), fmt, sqrt);
    stl := stl + FacetText(Facet(b01, b11, b00), fmt, sqrt);
  }

  /** The inner loop of `imageToSTL` for row `y`: the cells of the row,
      left to right. */
  method EmitRow(img: ImageData, maxH: real, dx: real, dy: real, y: nat,
                 fmt: real -> string, sqrt: real -> real, before: string) returns (stl: string)
    requires img.Valid()
    requires y < Cells(img.height)
    requires before == Partial(Emitted(img, maxH, dx, dy, y, 0), fmt, sqrt)
    ensures stl == Partial(Emitted(img, maxH, dx, dy, y + 1, 0), fmt, sqrt)
  {
    stl := before;
    var x: nat := 0;
    while x < img.width - 1
      invariant x <= Cells(img.width)
      invariant stl == Partial(Emitted(img, maxH, dx, dy, y, x), fmt, sqrt)
    {
      stl := EmitCell(img, maxH, dx, dy, x, y, fmt, sqrt, stl);
      x := x + 1;
    }
    NextRow(img, maxH, dx, dy, y, x);
  }

  /** `imageToSTL(pixels, width, height, maxHeightMM, scale)`: starting
      from the header line, the outer loop emits the rows of cells, top
      row first, and the footer line closes the text. Number formatting
      and the square root are the parameters `fmt` and `sqrt`. */
  method ImageToStl(img: ImageData, maxHeightMM: real, scale: real,
                    fmt: real -> string, sqrt: real -> real) returns (stl: string)
    requires img.Valid()
    ensures stl == Document(Mesh(img, maxHeightMM, scale), fmt, sqrt)
  {
    stl := HeaderLine + "\n";
    var dx := scale;
    var dy := scale;
    var maxH := maxHeightMM;
    PartialEmpty(fmt, sqrt);
    var y: nat := 0;
    while y < img.height - 1
      invariant y <= Cells(img.height)
      invariant stl == Partial(Emitted(img, maxH, dx, dy, y, 0), fmt, sqrt)
    {
      stl := EmitRow(img, maxH, dx, dy, y, fmt, sqrt, stl);
      y := y + 1;
    }
    FinishText(img, maxH, dx, dy, y, fmt, sqrt);
    stl := stl + FooterLine + "\n";
  }
}
