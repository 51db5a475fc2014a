/** The JavaScript string builtins the core relies on: `split` and `join`
    on a one-character separator, newline-terminated text, ASCII
    `toLowerCase` and `endsWith`. */
module Strings {

  /** `s.split(sep)`: the pieces of `s` between occurrences of `sep`.
      Like JavaScript it always yields at least one piece. */
  function Split(s: string, sep: char): (parts: seq<string>)
    ensures |parts| == 1 + multiset(s)[sep]
    ensures forall i :: 0 <= i < |parts| ==> sep !in parts[i]
    decreases |s|
  {
    if |s| == 0 then [""]
    else
      assert s == [s[0]] + s[1..];
      var rest := Split(s[1..], sep);
      if s[0] == sep then [""] + rest
      else [[s[0]] + rest[0]] + rest[1..]
  }

  /** `parts.join(sep)`; the empty array joins to the empty string. */
  function Join(parts: seq<string>, sep: char): string
  {
    if |parts| == 0 then ""
    else if |parts| == 1 then parts[0]
    else parts[0] + [sep] + Join(parts[1..], sep)
  }

  /** A piece without separators followed by a separator splits off as
      one piece in front of the rest. */
  lemma {:induction false} SplitAfterPiece(p: string, sep: char, t: string)
    requires sep !in p
    ensures Split(p + [sep] + t, sep) == [p] + Split(t, sep)
    decreases |p|
  {
    if |p| == 0 {
      assert p + [sep] + t == [sep] + t;
      assert ([sep] + t)[1..] == t;
    } else {
      var s := p + [sep] + t;
      assert s[1..] == p[1..] + [sep] + t;
      SplitAfterPiece(p[1..], sep, t);
      assert [s[0]] + p[1..] == p;
    }
  }

  /** A string without the separator splits into itself alone. */
  lemma {:induction false} SplitNoSeparator(p: string, sep: char)
    requires sep !in p
    ensures Split(p, sep) == [p]
    decreases |p|
  {
    if |p| != 0 {
      SplitNoSeparator(p[1..], sep);
      assert [p[0]] + p[1..] == p;
    }
  }

  /** Splitting undoes joining, as long as no piece holds the separator. */
  lemma {:induction false} SplitJoin(parts: seq<string>, sep: char)
    requires |parts| >= 1
    requires forall i :: 0 <= i < |parts| ==> sep !in parts[i]
    ensures Split(Join(parts, sep), sep) == parts
    decreases |parts|
  {
    if |parts| == 1 {
      SplitNoSeparator(parts[0], sep);
    } else {
      SplitJoin(parts[1..], sep);
      SplitAfterPiece(parts[0], sep, Join(parts[1..], sep));
      assert [parts[0]] + parts[1..] == parts;
    }
  }

  /** Joining a list whose first piece got one more leading character. */
  lemma JoinConsChar(c: char, parts: seq<string>, sep: char)
    requires |parts| >= 1
    ensures Join([[c] + parts[0]] + parts[1..], sep) == [c] + Join(parts, sep)
  {
    var q := [[c] + parts[0]] + parts[1..];
    assert q[1..] == parts[1..];
  }

  /** Joining undoes splitting, for every string. */
  lemma {:induction false} JoinSplit(s: string, sep: char)
    ensures Join(Split(s, sep), sep) == s
    decreases |s|
  {
    if |s| != 0 {
      JoinSplit(s[1..], sep);
      JoinSplitStep(s, sep);
    }
  }

  /** The step of JoinSplit: if joining undoes splitting for the tail of
      `s`, it does so for `s`. */
  lemma JoinSplitStep(s: string, sep: char)
    requires |s| != 0
    requires Join(Split(s[1..], sep), sep) == s[1..]
    ensures Join(Split(s, sep), sep) == s
  {
    var rest := Split(s[1..], sep);
    if s[0] == sep {
      assert ([""] + rest)[1..] == rest;
      assert s == [sep] + s[1..];
    } else {
      JoinConsChar(s[0], rest, sep);
      assert s == [s[0]] + s[1..];
    }
  }

  /** Text made of the given lines, each terminated by a newline. */
  function Lines(ls: seq<string>): string
  {
    if |ls| == 0 then "" else ls[0] + "\n" + Lines(ls[1..])
  }

  lemma {:induction false} LinesAppend(a: seq<string>, b: seq<string>)
    ensures Lines(a + b) == Lines(a) + Lines(b)
    decreases |a|
  {
    if |a| == 0 {
      assert a + b == b;
    } else {
      assert (a + b)[1..] == a[1..] + b;
      LinesAppend(a[1..], b);
    }
  }

  /** Newline-terminated lines split back into those lines plus the empty
      piece after the final newline: the layout is recoverable from the
      text. */
  lemma {:induction false} SplitLines(ls: seq<string>)
    requires forall i :: 0 <= i < |ls| ==> '\n' !in ls[i]
    ensures Split(Lines(ls), '\n') == ls + [""]
    decreases |ls|
  {
    if |ls| != 0 {
      SplitLines(ls[1..]);
      SplitAfterPiece(ls[0], '\n', Lines(ls[1..]));
      assert [ls[0]] + (ls[1..] + [""]) == ls + [""];
    }
  }

  /** `toLowerCase` on one character (a Unicode scalar value), restricted
      to the ASCII letters: `A`..`Z` become `a`..`z`, every other character
      is kept. */
  function LowerChar(c: char): (d: char)
  {
    if 'A' <= c <= 'Z' then (c as int + 32) as char else c
  }

  /** `s.toLowerCase()` on ASCII letters: no capital letter is left, and
      every other character stays where it was. */
  function ToLower(s: string): (r: string)
    ensures |r| == |s|
    ensures forall i :: 0 <= i < |s| ==> r[i] == LowerChar(s[i])
    ensures forall i :: 0 <= i < |r| ==> !('A' <= r[i] <= 'Z')
    ensures forall i :: 0 <= i < |s| && !('A' <= s[i] <= 'Z') ==> r[i] == s[i]
  {
    seq(|s|, i requires 0 <= i < |s| => LowerChar(s[i]))
  }

  /** `s.endsWith(suffix)`. */
  predicate EndsWith(s: string, suffix: string)
  {
    |suffix| <= |s| && s[|s| - |suffix|..] == suffix
  }
}
