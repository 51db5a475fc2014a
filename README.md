# Image-to-STL heightmap converter, modelled in Dafny

This project models the part of a static portfolio website that turns a picture
into a 3D-printable heightmap: `imageToSTL` in `assets/js/covert.js`. Each
pixel's grey level becomes a height. Every 2×2 block of neighbouring pixels
(a *cell*) becomes two top triangles over the height field and two base
triangles at z = 0. The result is written as ASCII STL text: the ASCII variant
of the 3D Systems StereoLithography Interface format, one `facet normal … /
outer loop / vertex ×3 / endloop / endfacet` block per triangle, between
`solid image_heightmap` and `endsolid image_heightmap`.

Two smaller helpers of the site are modelled with it:

* `encodeSTLPath` (`assets/js/portfolio.js`) percent-encodes the file name
  of a print's path.
* The manifest pipeline of `assets/js/build-prints.js` keeps the `.stl`
  files of the prints folder, maps each to a `{ name, file }` record and
  sorts the records by name.

Modules:

* `Strings` (`strings.dfy`): the JavaScript string built-ins the code
  relies on. These are `split`/`join` on one character and
  newline-terminated lines, with their round-trip lemmas, and ASCII
  `toLowerCase` and `endsWith`.
* `StlGeometry` (`stl_geometry.dfy`): points, facets, the cross product and
  the guarded normal of `normal(a, b, c)`.
* `StlText` (`stl_text.dfy`): the text `facet(a, b, c)` writes, and the
  whole document.
* `Heightmap` (`heightmap.dfy`): the pixel buffer, `gray` and the heights.
  It also holds the mesh as a specification function (`Mesh`) and the
  imperative `imageToSTL` proved against it. The nested loops are three
  methods: `ImageToStl` (rows), `EmitRow` (cells of a row) and `EmitCell`
  (the loop body).
* `MeshProperties` (`mesh_properties.dfy`): what the mesh promises. This
  covers the facet order, vertex heights, alpha independence, scaling, the
  base under the top, planar coordinates, normal directions and the line
  layout of the text.
* `ConvertParams` (`convert_params.dfy`): the `parseFloat(..) || default`
  settings of the convert button.
* `Portfolio` (`portfolio.dfy`): `encodeSTLPath`.
* `Manifest` (`manifest.dfy`): `isSTL` and the filter/map/sort pipeline.

Three platform functions are parameters of the model, because it does
not define them:

* `fmt: real -> string` is JavaScript's number-to-text conversion inside
  the template literal.
* `sqrt: real -> real` is `Math.sqrt`.
* `encode: string -> string` is `encodeURIComponent`.

Two datatypes stand for values the platform produces:

* `Parsed` is the value `parseFloat` returned.
* `ImageData` is the RGBA buffer of the canvas.

Properties that depend on a parameter say what they assume of it:

* `SingleLineNumbers(fmt)`: formatting never writes a line break.
* `IsSqrtAt` and `SqrtNonNegative`: the true, non-negative square root.
* `NeverEmitsSlash(encode)`: the encoder never writes `/`.

## Model

| member | source | states |
|---|---|---|
| `Heightmap.ImageToStl` | assets/js/covert.js:84-149 | the returned text is the header line, the facet blocks of `Mesh` in order, and the footer line |
| `Heightmap.EmitRow` | assets/js/covert.js:99-122 | the inner loop over x turns the text of the rows above into the text including row y; invariant: the text so far is that of the cells before (x, y) |
| `Heightmap.EmitCell` | assets/js/covert.js:100-121 | one loop body appends the blocks of the four facets of cell (x, y) in source order: top (v00,v10,v11), top (v00,v11,v01), base (b11,b10,b00), base (b01,b11,b00) |
| `Heightmap.CellText` | assets/js/covert.js:110-121 | appending the four facets of a cell extends the emitted facet sequence by that cell |
| `Heightmap.FinishText` | assets/js/covert.js:125-126 | after the last row, adding the footer gives the document of the whole mesh |
| `Heightmap.PixelIndex` | assets/js/covert.js:87 | definition of `(y * width + x) * 4`; properties in `PixelIndexInBounds` |
| `Heightmap.PixelIndexInBounds` | assets/js/covert.js:86-88 | the red, green and blue bytes of every pixel of the image lie inside the 4·width·height buffer |
| `Heightmap.Gray` | assets/js/covert.js:86-90 | the mean of red, green and blue lies in [0, 255] |
| `Heightmap.Height` | assets/js/covert.js:100-103 | z = gray/255 · maxH lies in [0, maxH] when maxH ≥ 0 |
| `Heightmap.Coord` | assets/js/covert.js:105-108 | definition of the grid coordinate `x * dx`; properties in `CoordIsProduct` and `MeshProperties.CoordScaling` |
| `Heightmap.TopVertex` | assets/js/covert.js:105-108 | definition of the top vertices v00..v11; properties in `MeshProperties.TopIsGridPoint` and `MeshProperties.VertexHeights` |
| `Heightmap.BaseVertex` | assets/js/covert.js:115-118 | definition of the base vertices b00..b11; properties in `MeshProperties.TopIsGridPoint` and `MeshProperties.BaseUnderTop` |
| `Heightmap.CoordIsProduct` | assets/js/covert.js:105-108 | the grid coordinate of column or row i at spacing d is i · d |
| `Heightmap.CellFacets` | assets/js/covert.js:105-121 | a cell has four facets; the first base facet is the first top facet reversed and dropped to z = 0, and the second uses the corners v01, v11, v00 dropped to z = 0 |
| `Heightmap.RowFacets` | assets/js/covert.js:99-122 | the first n cells of a row give 4n facets |
| `Heightmap.RowCells` | assets/js/covert.js:98-99 | definition: the cells of the first y rows, counted row by row; properties in `RowCellsIsProduct` |
| `Heightmap.RowCellsIsProduct` | assets/js/covert.js:98-99 | the cells of the first y rows number y·(width−1) |
| `Heightmap.GridFacets` | assets/js/covert.js:98-123 | the rows' view of the mesh: m rows give four facets per cell of those rows |
| `Heightmap.Emitted` | assets/js/covert.js:98-123 | the loops' view of the mesh, cell by cell: before cell (x, y), four facets per cell of the first y rows plus 4x have been emitted |
| `Heightmap.EmittedRows` | assets/js/covert.js:98-123 | at the start of row y the loops have emitted exactly the first y rows |
| `Heightmap.EmittedInRow` | assets/js/covert.js:98-122 | inside row y the loops have emitted the rows above followed by the first x cells of the row |
| `Heightmap.Mesh` | assets/js/covert.js:98-123 | the mesh has 4·(width−1)·(height−1) facets, none when width < 2 or height < 2 |
| `StlGeometry.EdgeCross` | assets/js/covert.js:141-145 | definition of the cross product (b − a) × (c − a); properties in `MeshProperties.TopCrossProducts` and `MeshProperties.BaseCrossProducts` |
| `StlGeometry.GuardedLength` | assets/js/covert.js:146 | `Math.sqrt(..) \|\| 1` is never zero: it is the square root when that is nonzero, else 1 |
| `StlGeometry.Normalize` | assets/js/covert.js:147 | dividing by the guarded length maps the zero vector to the zero vector |
| `StlGeometry.Normal` | assets/js/covert.js:140-148 | a degenerate facet (zero cross product) gets the normal (0, 0, 0), with no division by zero |
| `StlGeometry.NormalIsUnit` | assets/js/covert.js:140-148 | with a true square root, every facet with a nonzero cross product gets a normal of length 1 |
| `StlGeometry.NormalKeepsSigns` | assets/js/covert.js:143-147 | each normal component has the sign of the matching cross-product component |
| `StlText.FacetText` | assets/js/covert.js:128-137 | definition of the text `facet` returns; properties in `FacetLines` and `DocumentSplitsIntoLines` |
| `StlText.FacetLines` | assets/js/covert.js:128-137 | `facet` writes seven lines per triangle |
| `StlText.AllFacetLines` | assets/js/covert.js:111-121 | n facets give 7n lines |
| `StlText.Document` | assets/js/covert.js:92-126 | definition of the whole text: header, facet blocks, footer; properties in `DocumentSplitsIntoLines` and `EmptyDocument` |
| `StlText.DocumentLines` | assets/js/covert.js:92-125 | a document of n facets has 7n + 2 lines |
| `StlText.PartialEmpty` | assets/js/covert.js:92 | before any facet the text is `solid image_heightmap` and a newline |
| `StlText.AppendFacet` | assets/js/covert.js:111-121 | `stl += facet(..)` appends that facet's block to the text of the facets before it |
| `StlText.AppendFourFacets` | assets/js/covert.js:111-121 | four appends add the four blocks in order |
| `StlText.CloseDocument` | assets/js/covert.js:125-126 | the footer completes the document |
| `StlText.DocumentSplitsIntoLines` | assets/js/covert.js:92-137 | split at newlines, the document gives back the header, 7 lines per facet in order, the footer, and the empty piece after the last newline |
| `StlText.EmptyDocument` | assets/js/covert.js:92-126 | with no facets the text is the header line followed by the footer line |
| `MeshProperties.RowFacetsAt` | assets/js/covert.js:99-121 | within a row, the facets of cell x sit at positions 4x..4x+3 |
| `MeshProperties.GridFacetsAt` | assets/js/covert.js:98-121 | cells are emitted row-major (y outer, x inner): facet j of cell (x, y) sits at position 4·(y·(width−1) + x) + j |
| `MeshProperties.MeshAt` | assets/js/covert.js:98-121 | the same, for the whole mesh |
| `MeshProperties.MeshIndex` | assets/js/covert.js:98-121 | conversely, every facet of the mesh is facet k mod 4 of one cell inside the grid |
| `MeshProperties.CellNumber` | assets/js/covert.js:98-99 | every position below 4·W·H belongs to a cell (x < W, y < H) |
| `MeshProperties.UniformHeight` | assets/js/covert.js:86-103 | in an image whose colour bytes are all v, every height is v/255 · maxH |
| `MeshProperties.BlackImageIsFlat` | assets/js/covert.js:100-103 | an all-black image gives z = 0 at every vertex |
| `MeshProperties.WhiteHeight` | assets/js/covert.js:100-103 | in an all-white image every height is maxH |
| `MeshProperties.WhiteImageIsRaised` | assets/js/covert.js:100-112 | an all-white image puts every vertex of every top facet at z = maxH |
| `MeshProperties.VertexHeights` | assets/js/covert.js:100-121 | base facets lie at z = 0; for maxH ≥ 0 every vertex lies in [0, maxH] |
| `MeshProperties.GrayIgnoresAlpha` | assets/js/covert.js:86-90 | `gray` does not read the alpha byte |
| `MeshProperties.MeshIgnoresAlpha` | assets/js/covert.js:86-121 | images that differ only in alpha give the same mesh |
| `MeshProperties.CoordScaling` | assets/js/covert.js:94-95 | grid coordinates are linear in the spacing |
| `MeshProperties.HeightScaling` | assets/js/covert.js:100-103 | heights are linear in maxH |
| `MeshProperties.CellScaling` | assets/js/covert.js:105-121 | scaling scale and maxH stretches each facet of a cell |
| `MeshProperties.MeshScaling` | assets/js/covert.js:94-121 | multiplying scale by kxy and maxH by kz stretches every facet by kxy in x, y and by kz in z, in the same order |
| `MeshProperties.DoublingScale` | assets/js/covert.js:94-118 | doubling scale doubles every x and y and leaves every z unchanged |
| `MeshProperties.DoublingHeight` | assets/js/covert.js:96-103 | doubling maxH doubles every z and leaves x and y unchanged |
| `MeshProperties.TopCrossProducts` | assets/js/covert.js:111-112 | the cross product of each top facet has z component scale² |
| `MeshProperties.BaseCrossProducts` | assets/js/covert.js:120-121 | the cross product of each base facet is (0, 0, −scale²) |
| `MeshProperties.NormalDirections` | assets/js/covert.js:111-148 | for scale ≠ 0, base normals point straight down and top normals have positive z |
| `MeshProperties.BaseCellNormals` | assets/js/covert.js:120-148 | with a true square root, both base facets of a cell have the normal (0, 0, −1) |
| `MeshProperties.BaseNormalIsDown` | assets/js/covert.js:120-148 | the same for every base facet of the mesh |
| `MeshProperties.BaseUnderTop` | assets/js/covert.js:105-121 | each base facet's corners are top corners of the same cell with the same x and y and z = 0 |
| `MeshProperties.TopIsGridPoint` | assets/js/covert.js:105-118 | a top vertex is (x·scale, y·scale, height) and a base vertex (x·scale, y·scale, 0) |
| `MeshProperties.CellCorners` | assets/js/covert.js:105-121 | the four facets of a cell, with planar coordinates as grid index × scale, in source order |
| `MeshProperties.ImageDocumentLines` | assets/js/covert.js:92-137 | the text has 28·(width−1)·(height−1) + 3 newline-separated pieces, the header first and the footer last but one |
| `MeshProperties.DegenerateImage` | assets/js/covert.js:92-126 | an image narrower or lower than two pixels gives the header line and the footer line only |
| `ConvertParams.OrDefault` | assets/js/covert.js:58-59 | `p \|\| d` is the default or the parsed number; it is never zero when the default is not |
| `ConvertParams.ExtrudeHeight` | assets/js/covert.js:58 | the extrusion height is never zero |
| `ConvertParams.ScaleFactor` | assets/js/covert.js:59 | the scale factor is never zero |
| `ConvertParams.HeightDefaulting` | assets/js/covert.js:58 | the height is 5 exactly when the parsed value is NaN, 0 or 5; any other value passes through, negative ones included |
| `ConvertParams.ScaleDefaulting` | assets/js/covert.js:59 | the scale is percent/100, and 1 exactly when the percent is NaN, 0 or 100 |
| `ConvertParams.Convert` | assets/js/covert.js:58-74 | the handler produces the document of the mesh at the defaulted height and scale |
| `Strings.Split` | assets/js/portfolio.js:13 | `split` yields one more piece than there are separators, none holding a separator |
| `Strings.SplitJoin` | assets/js/portfolio.js:13-15 | splitting undoes joining pieces that hold no separator |
| `Strings.JoinSplit` | assets/js/portfolio.js:13-15 | joining undoes splitting |
| `Strings.SplitLines` | assets/js/covert.js:128-137 | newline-terminated lines split back into those lines plus one empty piece |
| `Strings.ToLower` | assets/js/build-prints.js:18 | the lower-cased name has no capital ASCII letter left, and every character that is not one stays as it was, at the same position |
| `Strings.EndsWith` | assets/js/build-prints.js:18 | definition of `endsWith`; properties in `Manifest.IsStlIff` |
| `Strings.Join` | assets/js/portfolio.js:15 | definition of `join`; properties in `SplitJoin` and `JoinSplit` |
| `Portfolio.Segments` | assets/js/portfolio.js:13 | a path has at least one segment and no segment holds `/` |
| `Portfolio.EncodeStlPath` | assets/js/portfolio.js:12-16 | definition of `encodeSTLPath`; properties in `EncodedSegments`, `BareFileName` and `NothingToEncode` |
| `Portfolio.EncodedSegments` | assets/js/portfolio.js:12-16 | the result has as many segments as the input: the directories unchanged and in order, then the encoded last segment |
| `Portfolio.BareFileName` | assets/js/portfolio.js:12-16 | a path without `/` is encoded whole |
| `Portfolio.NothingToEncode` | assets/js/portfolio.js:12-16 | when the encoder leaves the last segment unchanged, the path comes back unchanged |
| `Manifest.IsStl` | assets/js/build-prints.js:17-19 | definition of `isSTL`; properties in `IsStlIff` |
| `Manifest.IsStlIff` | assets/js/build-prints.js:17-19 | a name is an STL file name iff its last four characters are `.stl` in any mix of cases |
| `Manifest.StripStl` | assets/js/build-prints.js:25 | for an STL name, the record name is the file name without its last four characters; other names are kept |
| `Manifest.Entry` | assets/js/build-prints.js:24-27 | the record's file is `assets/prints/` followed by the file name; for an STL name the record's name is the file name without its last four characters, otherwise the file name itself |
| `Manifest.StlFiles` | assets/js/build-prints.js:22-23 | the filter keeps each STL name as often as it occurs and drops every other name |
| `Manifest.Entries` | assets/js/build-prints.js:24-27 | the map makes one record per kept name, in order |
| `Manifest.Insert` | assets/js/build-prints.js:28 | inserting a record adds exactly that record |
| `Manifest.SortByName` | assets/js/build-prints.js:28 | sorting is a permutation |
| `Manifest.InsertSorted` | assets/js/build-prints.js:28 | inserting into a sorted list keeps it sorted |
| `Manifest.SortByNameSorted` | assets/js/build-prints.js:28 | the sort result is sorted by name |
| `Manifest.LexLe` | assets/js/build-prints.js:28 | definition of the name order `localeCompare(..) <= 0`; properties in `LexLeTotal` and `LexLeTransitive` |
| `Manifest.LexLeTotal` | assets/js/build-prints.js:28 | any two names are comparable |
| `Manifest.LexLeTransitive` | assets/js/build-prints.js:28 | the name order is transitive |
| `Manifest.SortedPairwise` | assets/js/build-prints.js:28 | in a sorted list every earlier name comes no later than every later one |
| `Manifest.BuildManifest` | assets/js/build-prints.js:22-28 | definition of `main`'s pipeline: filter, map, sort; properties in `ManifestContents` and `ManifestRecords` |
| `Manifest.ManifestContents` | assets/js/build-prints.js:22-28 | the manifest has one record per STL name, is sorted by name, and is a permutation of the mapped STL names |
| `Manifest.ManifestRecords` | assets/js/build-prints.js:22-28 | every record comes from an STL name f of the listing, with name f minus `.stl` and file `assets/prints/` + f; every STL name gets a record |

## Left out

* Browser I/O in `covert.js` is not modelled. This covers the `change` and
  `click` handlers, FileReader, image decoding, canvas `getImageData`,
  Blob and `URL.createObjectURL`, and the status messages. The
  `if (!loadedImage) return` guard is left out too. The model starts from
  the decoded RGBA buffer (`ImageData`), whose length is 4·width·height as
  the canvas guarantees.
* Floating point is not modelled. Coordinates, heights and normals are
  exact reals, so IEEE rounding, infinities and NaN coordinates are not
  represented.
* The grid coordinate `x * dx` is defined as x steps of dx (`Coord`).
  `CoordIsProduct` proves this equals the product, as reals.
* Number-to-text conversion is the parameter `fmt`. The digits JavaScript
  chooses are not modelled.
* `Math.sqrt` is the parameter `sqrt`.
* `encodeURIComponent` is the parameter `encode`.
* `parseFloat` itself is not modelled: the model starts from its result.
  `Parsed` has no infinities, and −0 is the same value as 0 (both are
  falsy in JavaScript, so the defaulting is unaffected).
* `toLowerCase` is modelled on ASCII letters only. No character other
  than `.`, `s`, `t`, `l` and the ASCII capitals `S`, `T`, `L`
  lower-cases to a text ending in one of `.`, `s`, `t`, `l` (the one
  character whose lower case is two characters, U+0130, gives one ending
  in U+0307), so `isSTL` is unaffected.
* Strings are sequences of Unicode scalar values (Dafny's `char`), not of
  UTF-16 code units. Lengths count code points, and a lone surrogate
  cannot be represented, so the URIError `encodeURIComponent` throws for
  one (assets/js/portfolio.js:15) is not modelled.
* `localeCompare` is modelled as lexicographic order on code points
  (Unicode scalar values). Locale collation is not modelled, and neither
  is UTF-16 code-unit order, which differs from code-point order for
  characters above U+FFFF.
* `Array.prototype.sort` is modelled as a stable insertion sort by name.
* `Manifest.SortByName`: stability (records with equal names keep their
  listing order) is not stated as a lemma. Only sortedness and the
  permutation are proved.
* Filesystem I/O in `build-prints.js` is not modelled: `existsSync`,
  `mkdirSync`, `readdirSync` and `writeFileSync`. Neither is the JSON
  text of `prints.json` or the console message. The listing is a
  parameter.
* `fetchPrintsList` in `portfolio.js` is network I/O and is not modelled.
* `build-prints-manifest.js` is not part of this model. Its `isSTL` is the
  same as the one modelled here.
* The code does not validate the mesh parameters, and the model follows
  the code:
  * A zero or negative maxHeight or scale passed to `imageToSTL` is
    accepted.
  * A negative extrusion height typed into the form passes through the
    defaulting (`HeightDefaulting`).
  * A degenerate facet gets the normal (0, 0, 0) rather than a unit
    vector (`Normal`).
  * No side walls are emitted.
