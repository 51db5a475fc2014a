/** The manifest built by assets/js/build-prints.js: the STL files of the
    prints folder as `{ name, file }` records sorted by name. Listing the
    folder and writing the JSON file are not modelled; the directory
    listing is given as a sequence of file names. */
module Manifest {
  import opened Strings

  /** One record of `prints.json`. */
  datatype PrintEntry = PrintEntry(name: string, file: string)

  const Extension := ".stl"
  const PrintsFolder := "assets/prints/"

  /** `isSTL(name)`: the lower-cased name ends with `.stl`. */
  predicate IsStl(name: string)
  {
    EndsWith(ToLower(name), Extension)
  }

  /** Lower-casing maps exactly the two cases of an ASCII letter to it. */
  lemma LowerCharIs(c: char, lower: char)
    requires 'a' <= lower <= 'z'
    ensures LowerChar(c) == lower <==> c == lower || c as int == lower as int - 32
  {
  }

  /** `isSTL` is case-insensitive: a name is an STL file name exactly when
      its last four characters are `.`, `s` or `S`, `t` or `T`, `l` or `L`. */
  lemma IsStlIff(name: string)
    ensures IsStl(name) <==>
              |name| >= 4 && name[|name| - 4] == '.'
              && (name[|name| - 3] == 's' || name[|name| - 3] == 'S')
              && (name[|name| - 2] == 't' || name[|name| - 2] == 'T')
              && (name[|name| - 1] == 'l' || name[|name| - 1] == 'L')
  {
    var low := ToLower(name);
    var n := |name|;
    if n >= 4 {
      LowerCharIs(name[n - 3], 's');
      LowerCharIs(name[n - 2], 't');
      LowerCharIs(name[n - 1], 'l');
      assert low[n - 4..] == [low[n - 4], low[n - 3], low[n - 2], low[n - 1]];
      assert Extension == ['.', 's', 't', 'l'];
    }
  }

  /** `f.replace(/\.stl$/i, "")`: a trailing `.stl` in any case is cut
      off; any other name is left as it is. */
  function StripStl(f: string): (r: string)
    ensures IsStl(f) ==> |r| + 4 == |f| && f == r + f[|f| - 4..]
    ensures !IsStl(f) ==> r == f
  {
    if IsStl(f) then f[..|f| - 4] else f
  }

  /** The record `main` maps a kept file name to: the file is the name
      under the prints folder, and the record's name is the file name
      without its `.stl`. */
  function Entry(f: string): (e: PrintEntry)
    ensures |PrintsFolder| <= |e.file|
    ensures e.file[..|PrintsFolder|] == PrintsFolder && e.file[|PrintsFolder|..] == f
    ensures IsStl(f) ==> e.name + f[|f| - 4..] == f && |e.name| + 4 == |f|
    ensures !IsStl(f) ==> e.name == f
  {
    PrintEntry(StripStl(f), PrintsFolder + f)
  }

  /** `.filter(isSTL)`: the STL file names, in listing order; each STL
      name as often as the listing holds it, no other name. */
  function StlFiles(files: seq<string>): (kept: seq<string>)
    ensures forall i :: 0 <= i < |kept| ==> IsStl(kept[i])
    ensures forall f :: f in files && IsStl(f) <==> f in kept
    ensures forall f :: multiset(kept)[f] == if IsStl(f) then multiset(files)[f] else 0
  {
    if |files| == 0 then []
    else
      assert files == [files[0]] + files[1..];
      var rest := StlFiles(files[1..]);
      if IsStl(files[0]) then [files[0]] + rest else rest
  }

  /** `.map(f => ({ name: ..., file: ... }))`. */
  function Entries(files: seq<string>): (es: seq<PrintEntry>)
    ensures |es| == |files|
    ensures forall i :: 0 <= i < |files| ==> es[i] == Entry(files[i])
  {
    if |files| == 0 then [] else [Entry(files[0])] + Entries(files[1..])
  }

  // ---------------------------------------------------------------------
  // Sorting by name

  /** Lexicographic order on code points (Unicode scalar values),
      standing for `localeCompare`: `a` comes no later than `b`. */
  predicate LexLe(a: string, b: string)
    decreases |a|
  {
    |a| == 0 || (|b| != 0 && (a[0] < b[0] || (a[0] == b[0] && LexLe(a[1..], b[1..]))))
  }

  lemma {:induction false} LexLeTotal(a: string, b: string)
    ensures LexLe(a, b) || LexLe(b, a)
    decreases |a|
  {
    if |a| != 0 && |b| != 0 && a[0] == b[0] {
      LexLeTotal(a[1..], b[1..]);
    }
  }

  lemma {:induction false} LexLeTransitive(a: string, b: string, c: string)
    requires LexLe(a, b) && LexLe(b, c)
    ensures LexLe(a, c)
    decreases |a|
  {
    if |a| != 0 && a[0] == b[0] && b[0] == c[0] {
      LexLeTransitive(a[1..], b[1..], c[1..]);
    }
  }

  /** Each record's name comes no later than the next record's. */
  predicate SortedByName(es: seq<PrintEntry>)
  {
    forall i :: 0 < i < |es| ==> LexLe(es[i - 1].name, es[i].name)
  }

  /** `e` placed before the first record whose name is not before it. */
  function Insert(e: PrintEntry, es: seq<PrintEntry>): (r: seq<PrintEntry>)
    ensures multiset(r) == multiset(es) + multiset{e}
    ensures |r| == |es| + 1
    ensures |r| > 0 && (r[0] == e || (|es| > 0 && r[0] == es[0]))
  {
    if |es| == 0 || LexLe(e.name, es[0].name) then [e] + es
    else
      assert es == [es[0]] + es[1..];
      [es[0]] + Insert(e, es[1..])
  }

  lemma {:induction false} InsertSorted(e: PrintEntry, es: seq<PrintEntry>)
    requires SortedByName(es)
    ensures SortedByName(Insert(e, es))
    decreases |es|
  {
    if |es| != 0 && !LexLe(e.name, es[0].name) {
      var rest := Insert(e, es[1..]);
      InsertSorted(e, es[1..]);
      LexLeTotal(e.name, es[0].name);
      assert rest[0] == e || rest[0] == es[1];
      assert SortedByName([es[0]] + rest);
    }
  }

  /** A stable insertion sort by name, standing for `Array.prototype.sort`
      with the name comparison. */
  function SortByName(es: seq<PrintEntry>): (r: seq<PrintEntry>)
    ensures multiset(r) == multiset(es)
    ensures |r| == |es|
  {
    if |es| == 0 then []
    else
      assert es == [es[0]] + es[1..];
      Insert(es[0], SortByName(es[1..]))
  }

  lemma {:induction false} SortByNameSorted(es: seq<PrintEntry>)
    ensures SortedByName(SortByName(es))
    decreases |es|
  {
    if |es| != 0 {
      SortByNameSorted(es[1..]);
      InsertSorted(es[0], SortByName(es[1..]));
    }
  }

  /** Sorted by neighbours means sorted between any two positions. */
  lemma {:induction false} SortedPairwise(es: seq<PrintEntry>, i: nat, j: nat)
    requires SortedByName(es)
    requires i <= j < |es|
    ensures LexLe(es[i].name, es[j].name)
    decreases j - i
  {
    if i == j {
      LexLeReflexive(es[i].name);
    } else {
      SortedPairwise(es, i, j - 1);
      LexLeTransitive(es[i].name, es[j - 1].name, es[j].name);
    }
  }

  lemma {:induction false} LexLeReflexive(a: string)
    ensures LexLe(a, a)
    decreases |a|
  {
    if |a| != 0 {
      LexLeReflexive(a[1..]);
    }
  }

  // ---------------------------------------------------------------------
  // The pipeline

  /** `readdirSync(..).filter(isSTL).map(..).sort(..)` on the listing
      `files`. */
  function BuildManifest(files: seq<string>): seq<PrintEntry>
  {
    SortByName(Entries(StlFiles(files)))
  }

  /** The manifest holds one record per STL file of the listing and is
      sorted by name; it is a reordering of the mapped STL names. */
  lemma ManifestContents(files: seq<string>)
    ensures multiset(BuildManifest(files)) == multiset(Entries(StlFiles(files)))
    ensures |BuildManifest(files)| == |StlFiles(files)|
    ensures SortedByName(BuildManifest(files))
  {
    SortByNameSorted(Entries(StlFiles(files)));
  }

  /** Every record comes from an STL file name f of the listing: its name
      is f without its last four characters and its file is
      `assets/prints/` followed by f. Every STL file name gets a record. */
  lemma ManifestRecords(files: seq<string>)
    ensures forall e :: e in BuildManifest(files) ==>
              exists f :: f in files && IsStl(f) && e.name == f[..|f| - 4] && e.file == PrintsFolder + f
    ensures forall f :: f in files && IsStl(f) ==> Entry(f) in BuildManifest(files)
  {
    var kept := StlFiles(files);
    var es := Entries(kept);
    var m := BuildManifest(files);
    assert multiset(m) == multiset(es);
    forall e | e in m
      ensures exists f :: f in files && IsStl(f) && e.name == f[..|f| - 4] && e.file == PrintsFolder + f
    {
      assert e in multiset(es);
      var i :| 0 <= i < |es| && es[i] == e;
      var f := kept[i];
      assert f in files;
      assert e == Entry(f);
    }
    forall f | f in files && IsStl(f) ensures Entry(f) in m {
      var i :| 0 <= i < |kept| && kept[i] == f;
      assert es[i] == Entry(f);
      assert Entry(f) in multiset(m);
    }
  }
}
