/** Splitting a path into segments and joining segments again
    (server/internal/router/router.go). */
module Paths {

  /** strings.Split(path, "/"). */
  function Split(path: string): (parts: seq<string>)
    ensures parts != []
    ensures forall k :: 0 <= k < |parts| ==> '/' !in parts[k]
  {
    if path == "" then [""]
    else
      var rest := Split(path[1..]);
      if path[0] == '/' then [""] + rest else [[path[0]] + rest[0]] + rest[1..]
  }

  function NonEmpty(parts: seq<string>): (r: seq<string>)
    ensures forall s :: s in r <==> s in parts && s != ""
  {
    if parts == [] then []
    else NonEmpty(parts[..|parts| - 1]) + if parts[|parts| - 1] != "" then [parts[|parts| - 1]] else []
  }

  function SplitPath(path: string): seq<string> { NonEmpty(Split(path)) }

  /** strings.Join(segments, "/"). */
  function Join(segments: seq<string>): string {
    if segments == [] then ""
    else if |segments| == 1 then segments[0]
    else segments[0] + "/" + Join(segments[1..])
  }

  predicate IsSegment(s: string) { s != "" && '/' !in s }

  /** The compaction writes its result over the buffer it is reading. */
  method Compact(parts: array<string>) returns (n: nat)
    modifies parts
    ensures n <= parts.Length
    ensures parts[..n] == NonEmpty(old(parts[..]))
  {
    ghost var was := parts[..];
    n := 0;
    for i := 0 to parts.Length
      invariant n <= i && parts[..n] == NonEmpty(was[..i]) && parts[i..] == was[i..]
    {
      assert parts[i] == was[i] && was[..i + 1][..i] == was[..i];
      ghost var rest := parts[i + 1..];
      if parts[i] != "" {
        ghost var done := parts[..n];
        parts[n] := parts[i];
        n := n + 1;
        assert parts[..n] == done + [was[i]];
      }
      assert parts[i + 1..] == rest == was[i..][1..];
    }
    assert was[..parts.Length] == was;
  }

  method SplitPathInPlace(path: string) returns (segments: seq<string>)
    ensures segments == SplitPath(path)
  {
    var all := Split(path);
    var parts := new string[|all|](i requires 0 <= i < |all| => all[i]);
    assert parts[..] == all;
    var n := Compact(parts);
    segments := parts[..n];
  }

  // --------------------------------------------------------------- theorems

  lemma {:induction false} SplitGivesSegments(path: string)
    ensures forall s :: s in SplitPath(path) ==> IsSegment(s)
  {
  }

  lemma {:induction false} NonEmptyFront(first: string, rest: seq<string>)
    ensures NonEmpty([first] + rest) == (if first != "" then [first] else []) + NonEmpty(rest)
  {
    if rest == [] {
      assert [first] + rest == [first];
    } else {
      var n := |rest| - 1;
      NonEmptyFront(first, rest[..n]);
      assert ([first] + rest)[..n + 1] == [first] + rest[..n];
    }
  }

  /** Up to the first slash, Split collects one part. */
  lemma {:induction false} SplitSegment(s: string, tail: string)
    requires '/' !in s
    ensures Split(s) == [s]
    ensures Split(s + "/" + tail) == [s] + Split(tail)
  {
    if s == "" {
      assert s + "/" + tail == "/" + tail;
    } else {
      SplitSegment(s[1..], tail);
      assert (s + "/" + tail)[1..] == s[1..] + "/" + tail;
      assert s == [s[0]] + s[1..];
    }
  }

  /** Join, then split: nothing is lost. */
  lemma {:induction false} SplitOfJoin(segments: seq<string>)
    requires forall k :: 0 <= k < |segments| ==> IsSegment(segments[k])
    ensures SplitPath(Join(segments)) == segments
  {
    if segments != [] {
      SplitOfJoin(segments[1..]);
      SplitSegment(segments[0], Join(segments[1..]));
      if |segments| == 1 {
        assert segments == [segments[0]];
        NonEmptyFront(segments[0], []);
      } else {
        NonEmptyFront(segments[0], Split(Join(segments[1..])));
        assert segments == [segments[0]] + segments[1..];
      }
    }
  }

  /** Split, join and split again: extra slashes are the only thing to go. */
  lemma {:induction false} SplitIsNormal(path: string)
    ensures SplitPath(Join(SplitPath(path))) == SplitPath(path)
  {
    SplitGivesSegments(path);
    SplitOfJoin(SplitPath(path));
  }

  lemma {:induction false} JoinOne(part: string, rest: seq<string>)
    requires rest != []
    ensures Join([part] + rest) == part + "/" + Join(rest)
  {
    assert ([part] + rest)[1..] == rest;
  }

  /** Join puts back exactly the slashes that Split takes out. */
  lemma {:induction false} JoinOfSplit(path: string)
    ensures Join(Split(path)) == path
  {
    if path != "" {
      var rest := Split(path[1..]);
      JoinOfSplit(path[1..]);
      if path[0] == '/' {
        JoinOne("", rest);
      } else if |rest| == 1 {
        assert Join(rest) == rest[0];
      } else {
        assert rest == [rest[0]] + rest[1..];
        JoinOne(rest[0], rest[1..]);
        JoinOne([path[0]] + rest[0], rest[1..]);
      }
      assert path == [path[0]] + path[1..];
    }
  }

  /** And Split takes out exactly those that Join puts in. */
  lemma {:induction false} SplitOfJoinedParts(parts: seq<string>)
    requires parts != [] && forall k :: 0 <= k < |parts| ==> '/' !in parts[k]
    ensures Split(Join(parts)) == parts
  {
    if |parts| == 1 {
      SplitSegment(parts[0], "");
      assert parts == [parts[0]];
    } else {
      SplitOfJoinedParts(parts[1..]);
      SplitSegment(parts[0], Join(parts[1..]));
      assert parts == [parts[0]] + parts[1..];
    }
  }
}
