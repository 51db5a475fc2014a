/** `encodeSTLPath` of assets/js/portfolio.js: percent-encode the last
    `/`-separated segment of a path and leave the directories alone.
    `encodeURIComponent` is the parameter `encode`. */
module Portfolio {
  import opened Strings

  /** `encodeURIComponent` writes `/` as `%2F`, so its output never holds
      a slash. */
  ghost predicate NeverEmitsSlash(encode: string -> string)
  {
    forall s :: '/' !in encode(s)
  }

  /** The segments of a path, as `rawPath.split("/")`. */
  function Segments(path: string): (parts: seq<string>)
    ensures |parts| >= 1
    ensures forall i :: 0 <= i < |parts| ==> '/' !in parts[i]
  {
    Split(path, '/')
  }

  /** `parts.pop()`: the last segment (split always yields one). */
  function LastSegment(path: string): string
  {
    Segments(path)[|Segments(path)| - 1]
  }

  /** The segments before the last one, as left behind by `pop()`. */
  function Directories(path: string): seq<string>
  {
    Segments(path)[..|Segments(path)| - 1]
  }

  /** `[...parts, encodeURIComponent(last)].join("/")`. */
  function EncodeStlPath(rawPath: string, encode: string -> string): string
  {
    Join(Directories(rawPath) + [encode(LastSegment(rawPath))], '/')
  }

  /** Read back segment by segment, the result has the directories of
      the input unchanged and in order, followed by the encoded last
      segment: as many segments as the input. */
  lemma EncodedSegments(rawPath: string, encode: string -> string)
    requires NeverEmitsSlash(encode)
    ensures Segments(EncodeStlPath(rawPath, encode)) == Directories(rawPath) + [encode(LastSegment(rawPath))]
    ensures |Segments(EncodeStlPath(rawPath, encode))| == |Segments(rawPath)|
    ensures forall i :: 0 <= i < |Segments(rawPath)| - 1 ==>
              Segments(EncodeStlPath(rawPath, encode))[i] == Segments(rawPath)[i]
    ensures LastSegment(EncodeStlPath(rawPath, encode)) == encode(LastSegment(rawPath))
  {
    var parts := Directories(rawPath) + [encode(LastSegment(rawPath))];
    assert '/' !in encode(LastSegment(rawPath));
    forall i | 0 <= i < |parts| ensures '/' !in parts[i] {
      if i < |parts| - 1 {
        assert parts[i] == Segments(rawPath)[i];
      }
    }
    SplitJoin(parts, '/');
  }

  /** A path without a slash is a bare file name: it is encoded whole. */
  lemma BareFileName(rawPath: string, encode: string -> string)
    requires '/' !in rawPath
    ensures EncodeStlPath(rawPath, encode) == encode(rawPath)
  {
    SplitNoSeparator(rawPath, '/');
    assert Directories(rawPath) + [encode(LastSegment(rawPath))] == [encode(rawPath)];
  }

  /** When the file name needs no escaping (the encoder leaves it as it
      is) the path comes back unchanged, because split and join undo each
      other. */
  lemma NothingToEncode(rawPath: string, encode: string -> string)
    requires encode(LastSegment(rawPath)) == LastSegment(rawPath)
    ensures EncodeStlPath(rawPath, encode) == rawPath
  {
    var parts := Segments(rawPath);
    var n := |parts|;
    assert parts[..n - 1] + [parts[n - 1]] == parts;
    assert Directories(rawPath) + [encode(LastSegment(rawPath))] == parts;
    JoinSplit(rawPath, '/');
  }
}
