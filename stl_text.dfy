/** ASCII STL serialisation of facets (the ASCII variant of the 3D Systems
    StereoLithography Interface format), as `facet` in covert.js writes
    it. Number-to-text conversion is the parameter `fmt`, standing for
    JavaScript's conversion of a number inside a template literal. */
module StlText {
  import opened Strings
  import opened StlGeometry

  const SolidName := "image_heightmap"
  const HeaderLine := "solid " + SolidName
  const FooterLine := "endsolid " + SolidName

  /** Three numbers separated by single spaces, as `${v[0]} ${v[1]} ${v[2]}`. */
  function Triple(v: Vec3, fmt: real -> string): string
  {
    fmt(v.x) + " " + fmt(v.y) + " " + fmt(v.z)
  }

  /** The seven lines of the block `facet(a, b, c)` writes, without their
      newlines: the normal, `outer loop`, the vertices a, b and c in that
      order, `endloop` and `endfacet`. */
  function FacetLines(t: Facet, fmt: real -> string, sqrt: real -> real): (ls: seq<string>)
    ensures |ls| == 7
  {
    ["facet normal " + Triple(FacetNormal(t, sqrt), fmt),
     "outer loop",
     "vertex " + Triple(t.a, fmt),
     "vertex " + Triple(t.b, fmt),
     "vertex " + Triple(t.c, fmt),
     "endloop",
     "endfacet"]
  }

  /** `facet(a, b, c)`: the template literal is these seven lines, each
      ended by a newline. */
  function FacetText(t: Facet, fmt: real -> string, sqrt: real -> real): string
  {
    Lines(FacetLines(t, fmt, sqrt))
  }

  /** The lines of all facet blocks, block after block. */
  function AllFacetLines(fs: seq<Facet>, fmt: real -> string, sqrt: real -> real): (ls: seq<string>)
    ensures |ls| == 7 * |fs|
  {
    if |fs| == 0 then [] else AllFacetLines(fs[..|fs| - 1], fmt, sqrt) + FacetLines(fs[|fs| - 1], fmt, sqrt)
  }

  /** The lines of a document: the header, the facet blocks, the footer. */
  function DocumentLines(fs: seq<Facet>, fmt: real -> string, sqrt: real -> real): (ls: seq<string>)
    ensures |ls| == 7 * |fs| + 2
  {
    [HeaderLine] + AllFacetLines(fs, fmt, sqrt) + [FooterLine]
  }

  /** The whole text `imageToSTL` returns for the mesh `fs`. */
  function Document(fs: seq<Facet>, fmt: real -> string, sqrt: real -> real): string
  {
    Lines(DocumentLines(fs, fmt, sqrt))
  }

  /** The text after the facets `fs` have been emitted: the header line
      and their blocks, before the footer is added. */
  function Partial(fs: seq<Facet>, fmt: real -> string, sqrt: real -> real): string
  {
    Lines([HeaderLine] + AllFacetLines(fs, fmt, sqrt))
  }

  /** Before any facet the text is the header line alone. */
  lemma PartialEmpty(fmt: real -> string, sqrt: real -> real)
    ensures Partial([], fmt, sqrt) == HeaderLine + "\n"
  {
    var ls := [HeaderLine] + AllFacetLines([], fmt, sqrt);
    assert ls == [HeaderLine];
    assert ls[1..] == [];
    assert Lines(ls) == ls[0] + "\n" + Lines(ls[1..]);
  }

  /** Emitting one more facet appends its block to the text so far. */
  lemma AppendFacet(fs: seq<Facet>, t: Facet, fmt: real -> string, sqrt: real -> real)
    ensures Partial(fs + [t], fmt, sqrt) == Partial(fs, fmt, sqrt) + FacetText(t, fmt, sqrt)
  {
    assert (fs + [t])[..|fs|] == fs;
    assert [HeaderLine] + AllFacetLines(fs + [t], fmt, sqrt)
        == ([HeaderLine] + AllFacetLines(fs, fmt, sqrt)) + FacetLines(t, fmt, sqrt);
    LinesAppend([HeaderLine] + AllFacetLines(fs, fmt, sqrt), FacetLines(t, fmt, sqrt));
  }

  /** Emitting four facets appends their four blocks, in order. */
  lemma AppendFourFacets(fs: seq<Facet>, c: seq<Facet>, fmt: real -> string, sqrt: real -> real)
    requires |c| == 4
    ensures Partial(fs + c, fmt, sqrt)
         == Partial(fs, fmt, sqrt) + FacetText(c[0], fmt, sqrt) + FacetText(c[1], fmt, sqrt)
            + FacetText(c[2], fmt, sqrt) + FacetText(c[3], fmt, sqrt)
  {
    var e1 := fs + [c[0]];
    var e2 := e1 + [c[1]];
    var e3 := e2 + [c[2]];
    assert e3 + [c[3]] == fs + c;
    calc {
      Partial(fs + c, fmt, sqrt);
      Partial(e3 + [c[3]], fmt, sqrt);
      { AppendFacet(e3, c[3], fmt, sqrt); }
      Partial(e3, fmt, sqrt) + FacetText(c[3], fmt, sqrt);
      { AppendFacet(e2, c[2], fmt, sqrt); }
      Partial(e2, fmt, sqrt) + FacetText(c[2], fmt, sqrt) + FacetText(c[3], fmt, sqrt);
      { AppendFacet(e1, c[1], fmt, sqrt); }
      Partial(e1, fmt, sqrt) + FacetText(c[1], fmt, sqrt) + FacetText(c[2], fmt, sqrt) + FacetText(c[3], fmt, sqrt);
      { AppendFacet(fs, c[0], fmt, sqrt); }
      Partial(fs, fmt, sqrt) + FacetText(c[0], fmt, sqrt) + FacetText(c[1], fmt, sqrt)
        + FacetText(c[2], fmt, sqrt) + FacetText(c[3], fmt, sqrt);
    }
  }

  /** Closing the text with the footer line gives the document. */
  lemma CloseDocument(fs: seq<Facet>, fmt: real -> string, sqrt: real -> real)
    ensures Partial(fs, fmt, sqrt) + FooterLine + "\n" == Document(fs, fmt, sqrt)
  {
    LinesAppend([HeaderLine] + AllFacetLines(fs, fmt, sqrt), [FooterLine]);
    assert Lines([FooterLine]) == FooterLine + "\n";
  }

  /** `fmt` never writes a line break into a number. */
  ghost predicate SingleLineNumbers(fmt: real -> string)
  {
    forall r: real :: '\n' !in fmt(r)
  }

  lemma FacetLinesSingle(t: Facet, fmt: real -> string, sqrt: real -> real)
    requires SingleLineNumbers(fmt)
    ensures forall i :: 0 <= i < 7 ==> '\n' !in FacetLines(t, fmt, sqrt)[i]
  {
    var n := Normal(t.a, t.b, t.c, sqrt);
    assert '\n' !in fmt(n.x) && '\n' !in fmt(n.y) && '\n' !in fmt(n.z);
    assert '\n' !in fmt(t.a.x) && '\n' !in fmt(t.a.y) && '\n' !in fmt(t.a.z);
    assert '\n' !in fmt(t.b.x) && '\n' !in fmt(t.b.y) && '\n' !in fmt(t.b.z);
    assert '\n' !in fmt(t.c.x) && '\n' !in fmt(t.c.y) && '\n' !in fmt(t.c.z);
  }

  lemma {:induction false} AllFacetLinesSingle(fs: seq<Facet>, fmt: real -> string, sqrt: real -> real)
    requires SingleLineNumbers(fmt)
    ensures forall i :: 0 <= i < |AllFacetLines(fs, fmt, sqrt)| ==> '\n' !in AllFacetLines(fs, fmt, sqrt)[i]
    decreases |fs|
  {
    if |fs| != 0 {
      AllFacetLinesSingle(fs[..|fs| - 1], fmt, sqrt);
      FacetLinesSingle(fs[|fs| - 1], fmt, sqrt);
    }
  }

  /** The document read back line by line is the header, seven lines per
      facet in emission order, the footer, and the empty piece after the
      final newline: 7 * |fs| + 3 pieces in all. */
  lemma DocumentSplitsIntoLines(fs: seq<Facet>, fmt: real -> string, sqrt: real -> real)
    requires SingleLineNumbers(fmt)
    ensures Split(Document(fs, fmt, sqrt), '\n') == DocumentLines(fs, fmt, sqrt) + [""]
    ensures |Split(Document(fs, fmt, sqrt), '\n')| == 7 * |fs| + 3
  {
    var body := AllFacetLines(fs, fmt, sqrt);
    var ls := DocumentLines(fs, fmt, sqrt);
    AllFacetLinesSingle(fs, fmt, sqrt);
    forall i | 0 <= i < |ls| ensures '\n' !in ls[i] {
      if 1 <= i < |ls| - 1 { assert ls[i] == body[i - 1]; }
    }
    SplitLines(ls);
  }

  /** With no facets the document is the header line directly followed
      by the footer line. */
  lemma EmptyDocument(fmt: real -> string, sqrt: real -> real)
    ensures Document([], fmt, sqrt) == HeaderLine + "\n" + FooterLine + "\n"
  {
    assert DocumentLines([], fmt, sqrt) == [HeaderLine, FooterLine];
    assert DocumentLines([], fmt, sqrt)[1..] == [FooterLine];
    assert Lines([FooterLine]) == FooterLine + "\n";
  }
}
