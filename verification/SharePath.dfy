/** The path algebra of the folder browser (web/src/lib/sharePath.ts), which the provider's walk shares. */
module SharePath {
  /** A name a single path step can denote. */
  predicate Plain(name: string) {
    name != "" && '/' !in name
  }

  /** Splitting at every slash; the empty string splits into one empty part. */
  function Split(path: string): (parts: seq<string>)
    ensures |parts| > 0
  {
    if path == "" then [""]
    else
      var rest := Split(path[1..]);
      if path[0] == '/' then [""] + rest else [[path[0]] + rest[0]] + rest[1..]
  }

  function NonEmpty(parts: seq<string>): seq<string> {
    if parts == [] then []
    else if parts[0] == "" then NonEmpty(parts[1..])
    else [parts[0]] + NonEmpty(parts[1..])
  }

  function Segments(path: string): seq<string> {
    NonEmpty(Split(path))
  }

  function Join(parts: seq<string>): string {
    if parts == [] then ""
    else if |parts| == 1 then parts[0]
    else parts[0] + "/" + Join(parts[1..])
  }

  function JoinPath(path: string, segment: string): string {
    if path != "" then path + "/" + segment else segment
  }

  function Normalised(path: string): string {
    Join(Segments(path))
  }

  lemma {:induction false} SplitAtSlash(a: string, b: string)
    ensures Split(a + "/" + b) == Split(a) + Split(b)
  {
    var path := a + "/" + b;
    if a == "" {
      assert path == "/" + b && path[1..] == b;
    } else {
      assert path[1..] == a[1..] + "/" + b;
      SplitAtSlash(a[1..], b);
    }
  }

  lemma {:induction false} NonEmptyConcat(a: seq<string>, b: seq<string>)
    ensures NonEmpty(a + b) == NonEmpty(a) + NonEmpty(b)
  {
    if a == [] {
      assert a + b == b;
    } else {
      assert (a + b)[1..] == a[1..] + b;
      NonEmptyConcat(a[1..], b);
    }
  }

  lemma {:induction false} SplitPlain(name: string)
    requires '/' !in name
    ensures Split(name) == [name]
  {
    if name != "" {
      SplitPlain(name[1..]);
      assert [name[0]] + name[1..] == name;
    }
  }

  /** No segment of any path contains a slash or is empty. */
  lemma {:induction false} SegmentsArePlain(path: string)
    ensures forall i :: 0 <= i < |Segments(path)| ==> Plain(Segments(path)[i])
  {
    SplitHasNoSlash(path);
    NonEmptyKeeps(Split(path));
  }

  lemma {:induction false} SplitHasNoSlash(path: string)
    ensures forall i :: 0 <= i < |Split(path)| ==> '/' !in Split(path)[i]
  {
    if path != "" {
      SplitHasNoSlash(path[1..]);
    }
  }

  lemma {:induction false} NonEmptyKeeps(parts: seq<string>)
    requires forall i :: 0 <= i < |parts| ==> '/' !in parts[i]
    ensures forall i :: 0 <= i < |NonEmpty(parts)| ==> Plain(NonEmpty(parts)[i])
  {
    if parts != [] {
      NonEmptyKeeps(parts[1..]);
    }
  }

  lemma SegmentsOfPlain(name: string)
    requires Plain(name)
    ensures Segments(name) == [name]
  {
    SplitPlain(name);
    assert NonEmpty([name]) == [name] + NonEmpty([]);
  }

  /** Joining a step onto a path appends that step's own segments, whatever the step contains. */
  lemma SegmentsOfJoinPath(path: string, segment: string)
    ensures Segments(JoinPath(path, segment)) == Segments(path) + Segments(segment)
    ensures Plain(segment) ==> Segments(JoinPath(path, segment)) == Segments(path) + [segment]
  {
    SplitAtSlash(path, segment);
    NonEmptyConcat(Split(path), Split(segment));
    if Plain(segment) {
      SegmentsOfPlain(segment);
    }
  }

  /** Joining plain names and splitting again is the identity. */
  lemma {:induction false} SplitAfterJoin(names: seq<string>)
    requires forall i :: 0 <= i < |names| ==> Plain(names[i])
    ensures Segments(Join(names)) == names
  {
    if |names| == 1 {
      SegmentsOfPlain(names[0]);
    } else if |names| > 1 {
      SplitAfterJoin(names[1..]);
      SplitAtSlash(names[0], Join(names[1..]));
      NonEmptyConcat(Split(names[0]), Split(Join(names[1..])));
      SegmentsOfPlain(names[0]);
    }
  }

  /** A normalised path joined with a plain step is normalised: just one slash between, and none at the root. */
  lemma {:induction false} JoinStaysNormalised(names: seq<string>, step: string)
    requires Plain(step) && forall i :: 0 <= i < |names| ==> Plain(names[i])
    ensures JoinPath(Join(names), step) == Join(names + [step])
  {
    if names == [] {
      assert names + [step] == [step];
    } else if |names| == 1 {
      assert (names + [step])[1..] == [step];
    } else {
      JoinStaysNormalised(names[1..], step);
      assert (names + [step])[1..] == names[1..] + [step];
      assert Join(names[1..]) != "";
    }
  }

  /** Drops the last segment, working on a local list as the source does. */
  method ParentPath(path: string) returns (parent: string)
    ensures parent == Join(DropLast(Segments(path)))
    ensures |Segments(path)| <= 1 ==> parent == ""
  {
    var parts := Segments(path);
    if |parts| > 0 {
      parts := parts[..|parts| - 1];
    }
    parent := Join(parts);
  }

  function DropLast(parts: seq<string>): seq<string> {
    if parts == [] then [] else parts[..|parts| - 1]
  }

  /** Going to the parent undoes a step, up to redundant slashes. */
  lemma ParentUndoesJoin(path: string, segment: string)
    requires Plain(segment)
    ensures Join(DropLast(Segments(JoinPath(path, segment)))) == Normalised(path)
    ensures Segments(Normalised(path)) == Segments(path)
  {
    SegmentsOfJoinPath(path, segment);
    SegmentsArePlain(path);
    SplitAfterJoin(Segments(path));
  }

  /** The breadcrumb loop: the i-th link denotes the first i + 1 segments of the folder's path. */
  method Breadcrumbs(folderPath: string) returns (links: seq<string>)
    ensures |links| == |Segments(folderPath)|
    ensures forall i :: 0 <= i < |links| ==> Segments(links[i]) == Segments(folderPath)[..i + 1]
    ensures forall i :: 0 <= i < |links| ==> links[i] == Join(Segments(folderPath)[..i + 1])
  {
    var names := Segments(folderPath);
    SegmentsArePlain(folderPath);
    var acc := "";
    links := [];
    for i := 0 to |names|
      invariant |links| == i
      invariant Segments(acc) == names[..i] && acc == Join(names[..i])
      invariant forall j :: 0 <= j < i ==> Segments(links[j]) == names[..j + 1] && links[j] == Join(names[..j + 1])
    {
      SegmentsOfJoinPath(acc, names[i]);
      JoinStaysNormalised(names[..i], names[i]);
      acc := JoinPath(acc, names[i]);
      assert names[..i] + [names[i]] == names[..i + 1];
      links := links + [acc];
    }
  }
}
