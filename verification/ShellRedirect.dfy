/**
 The relative redirect of a nested dashboard path (`nested_shell_redirect` in `src/api/static_assets.rs`),
 resolved as a browser resolves it: sections 5.2.2 to 5.2.4 of RFC 3986.
 */
module ShellRedirect {
  import opened Prelude

  // ---------- nested_shell_redirect ----------

  function Count(path: string, c: char): nat {
    if path == "" then 0 else (if path[0] == c then 1 else 0) + Count(path[1..], c)
  }

  function Repeat(text: string, n: nat): string {
    if n == 0 then "" else text + Repeat(text, n - 1)
  }

  /** The redirect target; none for a top-level path or an asset. */
  function NestedShellRedirect(path: string, query: Option<string>): Option<string> {
    var depth := Count(path, '/');
    if depth == 0 || '.' in path then None
    else
      var target := Repeat("../", depth);
      Some(if query.Some? && query.value != "" then target + "?" + query.value else target)
  }

  /** What the handler matches: the request path without its leading slashes. */
  function TrimSlashes(path: string): string {
    if path != "" && path[0] == '/' then TrimSlashes(path[1..]) else path
  }

  // ---------- Reference resolution ----------

  /** Section 5.2.4, rule C: drop the last segment of the output and the slash before it. */
  function DropLast(output: string): string {
    if output == "" then ""
    else if output[|output| - 1] == '/' then output[..|output| - 1]
    else DropLast(output[..|output| - 1])
  }

  /** The length of the first segment of `input`, its leading slash not counted as the next one. */
  function SegmentEnd(input: string, from: nat): (n: nat)
    requires from <= |input|
    ensures from <= n <= |input|
    decreases |input| - from
  {
    if from == |input| || input[from] == '/' then from else SegmentEnd(input, from + 1)
  }

  predicate StartsWith(input: string, text: string) {
    |text| <= |input| && input[..|text|] == text
  }

  /** Section 5.2.4: the input and output buffers, until the input is used up. */
  function RemoveDots(input: string, output: string): string
    decreases |input|
  {
    if input == "" then output
    else if StartsWith(input, "../") then RemoveDots(input[3..], output)
    else if StartsWith(input, "./") then RemoveDots(input[2..], output)
    else if StartsWith(input, "/./") then RemoveDots("/" + input[3..], output)
    else if input == "/." then RemoveDots("/", output)
    else if StartsWith(input, "/../") then RemoveDots("/" + input[4..], DropLast(output))
    else if input == "/.." then RemoveDots("/", DropLast(output))
    else if input == "." || input == ".." then output
    else
      var end := if input[0] == '/' then SegmentEnd(input, 1) else SegmentEnd(input, 0);
      RemoveDots(input[end..], output + input[..end])
  }

  /** Section 5.2.3: everything of the base path up to its last slash, then the reference's path. */
  function Merge(base: string, path: string): string {
    if base == "" then path
    else if base[|base| - 1] == '/' then base + path
    else Merge(base[..|base| - 1], path)
  }

  datatype Target = Target(path: string, query: Option<string>)

  function QueryStart(reference: string): (n: nat)
    ensures n <= |reference|
  {
    if reference == "" || reference[0] == '?' then 0 else 1 + QueryStart(reference[1..])
  }

  /** Section 5.2.2, for a reference with a path that is not absolute and no scheme, authority or fragment. */
  function Resolve(basePath: string, reference: string): Target {
    var n := QueryStart(reference);
    Target(RemoveDots(Merge(basePath, reference[..n]), ""), if n < |reference| then Some(reference[n + 1..]) else None)
  }

  // ---------- Paths as segments ----------

  /** `/a/b`, for the segments `a` and `b`. */
  function Rendered(segments: seq<string>): string {
    if segments == [] then "" else Rendered(segments[..|segments| - 1]) + "/" + segments[|segments| - 1]
  }

  ghost predicate IsSegment(segment: string) {
    '/' !in segment && segment != "." && segment != ".."
  }

  ghost predicate AreSegments(segments: seq<string>) {
    forall i :: 0 <= i < |segments| ==> IsSegment(segments[i])
  }

  /** A path prefix that starts and ends with a slash and has no dot segments. */
  ghost predicate IsPrefix(prefix: string) {
    exists segments :: IsPrefixOf(prefix, segments)
  }

  ghost predicate IsPrefixOf(prefix: string, segments: seq<string>) {
    AreSegments(segments) && prefix == Rendered(segments) + "/"
  }

  lemma Associates(a: string, b: string, c: string)
    ensures (a + b) + c == a + (b + c)
  {
  }

  lemma {:induction false} SegmentEndIs(before: string, segment: string, rest: string, from: nat)
    requires '/' !in segment && |before| <= from <= |before| + |segment|
    ensures SegmentEnd(before + segment + "/" + rest, from) == |before| + |segment|
    decreases |before| + |segment| - from
  {
    var input := before + segment + "/" + rest;
    if from < |before| + |segment| {
      assert input[from] == segment[from - |before|];
      SegmentEndIs(before, segment, rest, from + 1);
    } else {
      assert input[from] == '/';
    }
  }

  /** None of rules A to D applies to an input that starts with a slash and a plain segment. */
  ghost predicate IsPlain(input: string) {
    && input != "" && input[0] == '/' && input != "/." && input != "/.."
    && !StartsWith(input, "/./") && !StartsWith(input, "/../")
  }

  lemma SegmentIsPlain(segment: string, rest: string)
    requires IsSegment(segment)
    ensures IsPlain("/" + segment + "/" + rest)
  {
    var input := "/" + segment + "/" + rest;
    assert forall i :: 0 <= i < |segment| ==> input[i + 1] == segment[i];
    assert input[|segment| + 1] == '/';
    assert |segment| == 1 ==> segment == [segment[0]];
    assert |segment| == 2 ==> segment == [segment[0], segment[1]];
    assert |input| >= 3 ==> input[..3] == [input[0], input[1], input[2]];
    assert |input| >= 4 ==> input[..4] == [input[0], input[1], input[2], input[3]];
  }

  lemma RuleE(input: string, end: nat, output: string)
    requires IsPlain(input) && SegmentEnd(input, 1) == end
    ensures RemoveDots(input, output) == RemoveDots(input[end..], output + input[..end])
  {
  }

  lemma SplitAfterSegment(segment: string, rest: string)
    ensures var input := "/" + segment + "/" + rest;
            input[..1 + |segment|] == "/" + segment && input[1 + |segment|..] == "/" + rest
  {
  }

  /** Rule E: a plain segment moves to the output. */
  lemma SegmentMoves(segment: string, rest: string, output: string)
    requires IsSegment(segment)
    ensures RemoveDots("/" + segment + "/" + rest, output) == RemoveDots("/" + rest, output + "/" + segment)
  {
    SegmentEndIs("/", segment, rest, 1);
    SegmentIsPlain(segment, rest);
    SplitAfterSegment(segment, rest);
    RuleE("/" + segment + "/" + rest, 1 + |segment|, output);
    Associates(output, "/", segment);
  }

  lemma RenderedLast(init: seq<string>, last: string, rest: string, output: string)
    ensures Rendered(init + [last]) + "/" + rest == Rendered(init) + "/" + (last + "/" + rest)
    ensures "/" + (last + "/" + rest) == "/" + last + "/" + rest
    ensures output + Rendered(init) + "/" + last == output + Rendered(init + [last])
  {
    assert (init + [last])[..|init|] == init;
  }

  lemma {:induction false} SegmentsMove(segments: seq<string>, rest: string, output: string)
    requires AreSegments(segments)
    ensures RemoveDots(Rendered(segments) + "/" + rest, output) == RemoveDots("/" + rest, output + Rendered(segments))
  {
    if segments == [] {
      assert Rendered(segments) + "/" + rest == "/" + rest && output + Rendered(segments) == output;
    } else {
      var init, last := segments[..|segments| - 1], segments[|segments| - 1];
      RenderedLast(init, last, rest, output);
      assert init + [last] == segments;
      SegmentsMove(init, last + "/" + rest, output);
      SegmentMoves(last, rest, output + Rendered(init));
    }
  }

  lemma {:induction false} DropLastIs(before: string, segment: string)
    requires '/' !in segment
    ensures DropLast(before + "/" + segment) == before
    decreases |segment|
  {
    var output := before + "/" + segment;
    if segment == "" {
      assert output[..|output| - 1] == before;
    } else {
      assert output[|output| - 1] == segment[|segment| - 1];
      assert output[..|output| - 1] == before + "/" + segment[..|segment| - 1];
      DropLastIs(before, segment[..|segment| - 1]);
    }
  }

  lemma DropLastOfRendered(segments: seq<string>, last: string)
    requires '/' !in last
    ensures DropLast(Rendered(segments + [last])) == Rendered(segments)
  {
    assert (segments + [last])[..|segments|] == segments;
    DropLastIs(Rendered(segments), last);
  }

  lemma ChainGoesUp(n: nat, output: string)
    requires n > 0
    ensures RemoveDots("/" + Repeat("../", n), output) == RemoveDots("/" + Repeat("../", n - 1), DropLast(output))
  {
    UpOne(Repeat("../", n - 1), output);
  }

  /** Rule C, once for each `../`: the chain takes back the last segments. */
  lemma {:induction false} ChainDrops(segments: seq<string>, dropped: seq<string>)
    requires AreSegments(dropped)
    ensures RemoveDots("/" + Repeat("../", |dropped|), Rendered(segments + dropped)) == Rendered(segments) + "/"
  {
    if dropped == [] {
      assert segments + dropped == segments;
      assert "/" + Repeat("../", 0) == "/";
      LoneSlash(Rendered(segments));
    } else {
      var init, last := dropped[..|dropped| - 1], dropped[|dropped| - 1];
      assert segments + dropped == (segments + init) + [last];
      DropLastOfRendered(segments + init, last);
      ChainGoesUp(|dropped|, Rendered(segments + dropped));
      ChainDrops(segments, init);
    }
  }

  lemma LoneSlash(output: string)
    ensures RemoveDots("/", output) == output + "/"
  {
    var input := "/";
    assert !StartsWith(input, "../") && !StartsWith(input, "./");
    assert SegmentEnd(input, 1) == 1 && input[1..] == "" && input[..1] == "/";
    assert RemoveDots("", output + "/") == output + "/";
  }

  lemma UpOne(rest: string, output: string)
    ensures RemoveDots("/" + ("../" + rest), output) == RemoveDots("/" + rest, DropLast(output))
  {
    var input := "/" + ("../" + rest);
    assert input[0] == '/' && input[1] == '.' && input[2] == '.' && input[3] == '/';
    assert input[..4] == "/../" && input[4..] == rest;
    assert StartsWith(input, "/../");
    assert !StartsWith(input, "../") && !StartsWith(input, "./") && !StartsWith(input, "/./");
  }

  // ---------- Dot segments in general ----------

  ghost predicate HaveNoSlash(segments: seq<string>) {
    forall i :: 0 <= i < |segments| ==> '/' !in segments[i]
  }

  function Front(segments: seq<string>): seq<string> {
    if segments == [] then [] else segments[..|segments| - 1]
  }

  /** Dot segments removed: `.` goes, `..` takes one back, and either at the end leaves a slash. */
  function Cleaned(segments: seq<string>, output: seq<string>): seq<string> {
    if segments == [] then output
    else if segments[0] == "." then
      if |segments| == 1 then output + [""] else Cleaned(segments[1..], output)
    else if segments[0] == ".." then
      if |segments| == 1 then Front(output) + [""] else Cleaned(segments[1..], Front(output))
    else Cleaned(segments[1..], output + [segments[0]])
  }

  lemma SlashesAssociate(head: string, middle: string, last: string)
    ensures ("/" + head + middle) + "/" + last == "/" + head + (middle + "/" + last)
  {
  }

  lemma {:induction false} RenderedFront(segments: seq<string>)
    requires segments != []
    ensures Rendered(segments) == "/" + segments[0] + Rendered(segments[1..])
  {
    if |segments| == 1 {
      assert segments[..0] == [] && segments[1..] == [];
    } else {
      var init, last := segments[..|segments| - 1], segments[|segments| - 1];
      RenderedFront(init);
      assert init[1..] == segments[1..][..|segments| - 2];
      SlashesAssociate(segments[0], Rendered(init[1..]), last);
    }
  }

  lemma FrontIsDropLast(segments: seq<string>)
    requires HaveNoSlash(segments)
    ensures DropLast(Rendered(segments)) == Rendered(Front(segments))
  {
    if segments != [] {
      assert segments == Front(segments) + [segments[|segments| - 1]];
      DropLastOfRendered(Front(segments), segments[|segments| - 1]);
    }
  }

  lemma SlashAtTheEnd(segments: seq<string>)
    ensures Rendered(segments + [""]) == Rendered(segments) + "/"
  {
    assert (segments + [""])[..|segments|] == segments;
  }

  /** The dot rules at a segment that more follows, and at the last one. */
  lemma DotGoes(rest: string, output: string)
    ensures RemoveDots("/" + "." + ("/" + rest), output) == RemoveDots("/" + rest, output)
    ensures RemoveDots("/" + ".", output) == output + "/"
  {
    var input := "/" + "." + ("/" + rest);
    assert input[0] == '/' && input[1] == '.' && input[2] == '/';
    assert input[..3] == "/./" && input[3..] == rest;
    assert !StartsWith(input, "../") && !StartsWith(input, "./");
    LoneSlash(output);
    var last := "/.";
    assert last[0] == '/' && !StartsWith(last, "../") && !StartsWith(last, "./") && !StartsWith(last, "/./");
  }

  lemma TwoDotsGoUp(rest: string, output: string)
    ensures RemoveDots("/" + ".." + ("/" + rest), output) == RemoveDots("/" + rest, DropLast(output))
  {
    assert "/" + ".." + ("/" + rest) == "/" + ("../" + rest);
    UpOne(rest, output);
  }

  lemma TwoDotsLast(output: string)
    ensures RemoveDots("/" + "..", output) == DropLast(output) + "/"
  {
    LoneSlash(DropLast(output));
    var last := "/..";
    assert last[0] == '/' && last[2] == '.' && last[..3] == last;
    assert !StartsWith(last, "../") && !StartsWith(last, "./") && !StartsWith(last, "/../");
    assert !StartsWith(last, "/./");
  }

  lemma {:induction false} SegmentEndsTheInput(before: string, segment: string, from: nat)
    requires '/' !in segment && |before| <= from <= |before| + |segment|
    ensures SegmentEnd(before + segment, from) == |before| + |segment|
    decreases |before| + |segment| - from
  {
    if from < |before| + |segment| {
      assert (before + segment)[from] == segment[from - |before|];
      SegmentEndsTheInput(before, segment, from + 1);
    }
  }

  lemma LastSegmentMoves(segment: string, output: string)
    requires IsSegment(segment)
    ensures RemoveDots("/" + segment, output) == output + "/" + segment
  {
    var input := "/" + segment;
    SegmentEndsTheInput("/", segment, 1);
    assert forall i :: 0 <= i < |segment| ==> input[i + 1] == segment[i];
    assert |segment| == 1 ==> segment == [segment[0]];
    assert |segment| == 2 ==> segment == [segment[0], segment[1]];
    assert |input| >= 3 ==> input[..3] == [input[0], input[1], input[2]];
    assert |input| >= 4 ==> input[..4] == [input[0], input[1], input[2], input[3]];
    assert IsPlain(input);
    RuleE(input, |input|, output);
    assert input[|input|..] == "" && input[..|input|] == input;
    Associates(output, "/", segment);
    assert RemoveDots("", output + "/" + segment) == output + "/" + segment;
  }

  lemma CleanLast(segment: string, output: seq<string>)
    requires '/' !in segment && HaveNoSlash(output)
    ensures RemoveDots("/" + segment, Rendered(output)) == Rendered(Cleaned([segment], output))
  {
    assert [segment][1..] == [] && (output + [segment])[..|output|] == output;
    FrontIsDropLast(output);
    SlashAtTheEnd(output);
    SlashAtTheEnd(Front(output));
    if segment == "." {
      DotGoes("", Rendered(output));
    } else if segment == ".." {
      TwoDotsLast(Rendered(output));
    } else {
      LastSegmentMoves(segment, Rendered(output));
    }
  }

  /** The output after one segment that more follows. */
  function CleanedOne(segment: string, output: seq<string>): seq<string> {
    if segment == "." then output else if segment == ".." then Front(output) else output + [segment]
  }

  lemma CleanFirst(segment: string, rest: string, output: seq<string>)
    requires '/' !in segment && HaveNoSlash(output)
    ensures RemoveDots("/" + segment + ("/" + rest), Rendered(output))
         == RemoveDots("/" + rest, Rendered(CleanedOne(segment, output)))
  {
    FrontIsDropLast(output);
    assert (output + [segment])[..|output|] == output;
    if segment == "." {
      DotGoes(rest, Rendered(output));
    } else if segment == ".." {
      TwoDotsGoUp(rest, Rendered(output));
    } else {
      assert "/" + segment + ("/" + rest) == "/" + segment + "/" + rest;
      SegmentMoves(segment, rest, Rendered(output));
    }
  }

  lemma RenderedTwo(segments: seq<string>) returns (rest: string)
    requires |segments| > 1
    ensures Rendered(segments) == "/" + segments[0] + ("/" + rest) && Rendered(segments[1..]) == "/" + rest
  {
    RenderedFront(segments);
    RenderedFront(segments[1..]);
    rest := segments[1] + Rendered(segments[1..][1..]);
    Associates("/", segments[1], Rendered(segments[1..][1..]));
  }

  lemma CleanStep(segments: seq<string>, output: seq<string>)
    requires |segments| > 1 && HaveNoSlash(segments) && HaveNoSlash(output)
    ensures RemoveDots(Rendered(segments), Rendered(output))
         == RemoveDots(Rendered(segments[1..]), Rendered(CleanedOne(segments[0], output)))
  {
    var rest := RenderedTwo(segments);
    CleanFirst(segments[0], rest, output);
  }

  lemma CleanedStep(segments: seq<string>, output: seq<string>)
    requires |segments| > 1 && HaveNoSlash(segments) && HaveNoSlash(output)
    ensures Cleaned(segments, output) == Cleaned(segments[1..], CleanedOne(segments[0], output))
    ensures HaveNoSlash(segments[1..]) && HaveNoSlash(CleanedOne(segments[0], output))
  {
  }

  lemma RenderedOne(segment: string)
    ensures Rendered([segment]) == "/" + segment
  {
    assert [segment][..0] == [];
  }

  /** Removing the dots of every absolute path is cleaning its segments. */
  lemma {:induction false} RemoveDotsCleans(segments: seq<string>, output: seq<string>)
    requires HaveNoSlash(segments) && HaveNoSlash(output)
    ensures RemoveDots(Rendered(segments), Rendered(output)) == Rendered(Cleaned(segments, output))
    decreases |segments|
  {
    if |segments| == 1 {
      assert segments == [segments[0]];
      RenderedOne(segments[0]);
      CleanLast(segments[0], output);
    } else if |segments| > 1 {
      CleanStep(segments, output);
      CleanedStep(segments, output);
      RemoveDotsCleans(segments[1..], CleanedOne(segments[0], output));
    }
  }

  /** Nothing is left to remove. */
  lemma {:induction false} CleanedHasNoDots(segments: seq<string>, output: seq<string>)
    requires HaveNoSlash(segments) && AreSegments(output)
    ensures AreSegments(Cleaned(segments, output))
    decreases |segments|
  {
    if segments != [] {
      CleanedHasNoDots(segments[1..], CleanedOne(segments[0], output));
    }
  }

  /** Rule A: a path with no slash at its start loses its leading dot segments. */
  lemma LeadingDots(rest: string, output: string)
    ensures RemoveDots("../" + rest, output) == RemoveDots("./" + rest, output) == RemoveDots(rest, output)
  {
    assert ("../" + rest)[..3] == "../" && ("../" + rest)[3..] == rest;
    assert ("./" + rest)[..2] == "./" && ("./" + rest)[2..] == rest;
    assert ("./" + rest)[1] == '/';
  }

  /** Rule D. */
  lemma LoneDots(output: string)
    ensures RemoveDots("..", output) == RemoveDots(".", output) == output
  {
    assert !StartsWith("..", "../") && !StartsWith(".", "../") && !StartsWith(".", "./");
    assert ".."[..2] == ".." && ".."[1] == '.' && "./"[1] == '/';
    assert !StartsWith("..", "./");
  }

  /** None of rules A to D applies. */
  ghost predicate IsPlainRelative(input: string) {
    && input != "" && input[0] != '/' && input != "." && input != ".."
    && !StartsWith(input, "./") && !StartsWith(input, "../")
  }

  lemma RelativeIsPlain(segment: string, rest: string)
    requires IsSegment(segment) && segment != ""
    ensures IsPlainRelative(segment + "/" + rest)
  {
    var input := segment + "/" + rest;
    assert forall i :: 0 <= i < |segment| ==> input[i] == segment[i];
    assert input[|segment|] == '/';
    assert |segment| == 1 ==> segment == [segment[0]];
    assert |segment| == 2 ==> segment == [segment[0], segment[1]];
    assert |input| >= 2 ==> input[..2] == [input[0], input[1]];
    assert |input| >= 3 ==> input[..3] == [input[0], input[1], input[2]];
  }

  lemma RelativeRuleE(input: string, end: nat, output: string)
    requires IsPlainRelative(input) && SegmentEnd(input, 0) == end
    ensures RemoveDots(input, output) == RemoveDots(input[end..], output + input[..end])
  {
    assert !StartsWith(input, "/./") && !StartsWith(input, "/../");
  }

  lemma SplitAfterRelative(segment: string, rest: string)
    ensures var input := segment + "/" + rest;
            input[..|segment|] == segment && input[|segment|..] == "/" + rest && "" + segment + "/" + rest == input
  {
  }

  /** Rule E: and its first other segment is kept. */
  lemma RelativeSegment(segment: string, rest: string, output: string)
    requires IsSegment(segment) && segment != ""
    ensures RemoveDots(segment + "/" + rest, output) == RemoveDots("/" + rest, output + segment)
  {
    SegmentEndIs("", segment, rest, 0);
    RelativeIsPlain(segment, rest);
    SplitAfterRelative(segment, rest);
    RelativeRuleE(segment + "/" + rest, |segment|, output);
  }

  // ---------- The redirect reaches the shell ----------

  /** The directories of `path`: its segments that a slash ends. */
  function Directories(path: string): seq<string> {
    var n := SegmentEnd(path, 0);
    if n == |path| then [] else [path[..n]] + Directories(path[n + 1..])
  }

  lemma {:induction false} SegmentHasNoSlash(path: string, from: nat)
    requires from <= |path|
    ensures var n := SegmentEnd(path, from);
            (n < |path| ==> path[n] == '/') && forall i :: from <= i < n ==> path[i] != '/'
    decreases |path| - from
  {
    if from < |path| && path[from] != '/' {
      SegmentHasNoSlash(path, from + 1);
    }
  }

  lemma {:induction false} CountConcat(a: string, b: string, c: char)
    ensures Count(a + b, c) == Count(a, c) + Count(b, c)
  {
    if a == "" {
      assert a + b == b;
    } else {
      assert (a + b)[1..] == a[1..] + b;
      CountConcat(a[1..], b, c);
    }
  }

  lemma {:induction false} CountNone(a: string, c: char)
    requires c !in a
    ensures Count(a, c) == 0
  {
    if a != "" {
      CountNone(a[1..], c);
    }
  }

  lemma CountAfterSegment(head: string, rest: string)
    requires '/' !in head
    ensures Count(head + ("/" + rest), '/') == 1 + Count(rest, '/')
  {
    CountNone(head, '/');
    CountConcat(head, "/" + rest, '/');
    assert ("/" + rest)[1..] == rest;
  }

  lemma NoDotIsSegment(segment: string)
    requires '/' !in segment && '.' !in segment
    ensures IsSegment(segment)
  {
    assert segment != "" ==> segment[0] != '.';
  }

  lemma HeadIsSegment(path: string, n: nat)
    requires n < |path| && '.' !in path && path[n] == '/' && forall i :: 0 <= i < n ==> path[i] != '/'
    ensures IsSegment(path[..n]) && path == path[..n] + ("/" + path[n + 1..]) && '.' !in path[n + 1..]
  {
    NoDotIsSegment(path[..n]);
  }

  lemma {:induction false} DirectoriesAreSegments(path: string)
    requires '.' !in path
    ensures AreSegments(Directories(path))
  {
    var n := SegmentEnd(path, 0);
    if n < |path| {
      SegmentHasNoSlash(path, 0);
      HeadIsSegment(path, n);
      DirectoriesAreSegments(path[n + 1..]);
    }
  }

  lemma SplitAtSlash(path: string, n: nat)
    requires n < |path| && path[n] == '/' && forall i :: 0 <= i < n ==> path[i] != '/'
    ensures Count(path, '/') == 1 + Count(path[n + 1..], '/')
  {
    assert path == path[..n] + ("/" + path[n + 1..]);
    CountAfterSegment(path[..n], path[n + 1..]);
  }

  lemma {:induction false} DirectoriesAreCounted(path: string)
    ensures |Directories(path)| == Count(path, '/')
  {
    var n := SegmentEnd(path, 0);
    SegmentHasNoSlash(path, 0);
    if n == |path| {
      CountNone(path, '/');
    } else {
      SplitAtSlash(path, n);
      DirectoriesAreCounted(path[n + 1..]);
    }
  }

  /** Merging keeps the base's directories and drops what follows its last slash. */
  lemma {:induction false} MergeKeepsDirectories(before: string, tail: string, path: string)
    requires '/' !in tail && before != "" && before[|before| - 1] == '/'
    ensures Merge(before + tail, path) == before + path
  {
    var base := before + tail;
    if tail == "" {
      assert base == before;
    } else {
      assert base[|base| - 1] == tail[|tail| - 1];
      assert base[..|base| - 1] == before + tail[..|tail| - 1];
      MergeKeepsDirectories(before, tail[..|tail| - 1], path);
    }
  }

  lemma RenderedLonger(segments: seq<string>, head: string, rest: string)
    ensures Rendered(segments) + "/" + (head + "/" + rest) == Rendered(segments + [head]) + "/" + rest
  {
    assert (segments + [head])[..|segments|] == segments;
  }

  lemma {:induction false} MergeUnderPrefix(segments: seq<string>, path: string, reference: string)
    ensures Merge(Rendered(segments) + "/" + path, reference) ==
            Rendered(segments + Directories(path)) + "/" + reference
    decreases |path|
  {
    var n := SegmentEnd(path, 0);
    SegmentHasNoSlash(path, 0);
    if n == |path| {
      MergeKeepsDirectories(Rendered(segments) + "/", path, reference);
      assert segments + Directories(path) == segments;
    } else {
      var head, rest := path[..n], path[n + 1..];
      assert path == head + "/" + rest;
      RenderedLonger(segments, head, rest);
      MergeUnderPrefix(segments + [head], rest, reference);
      assert (segments + [head]) + Directories(rest) == segments + Directories(path);
    }
  }

  lemma {:induction false} ChainHasNoQuery(n: nat)
    ensures '?' !in Repeat("../", n)
  {
    if n > 0 {
      ChainHasNoQuery(n - 1);
    }
  }

  lemma {:induction false} QueryStartIs(path: string, query: string)
    requires '?' !in path
    ensures QueryStart(path) == |path| && QueryStart(path + "?" + query) == |path|
  {
    if path == "" {
      assert path + "?" + query == "?" + query;
    } else {
      assert (path + "?" + query)[1..] == path[1..] + "?" + query;
      QueryStartIs(path[1..], query);
    }
  }

  lemma ChainReachesPrefix(segments: seq<string>, path: string)
    requires AreSegments(segments) && '.' !in path
    ensures RemoveDots(Merge(Rendered(segments) + "/" + path, Repeat("../", Count(path, '/'))), "") ==
            Rendered(segments) + "/"
  {
    var dirs := Directories(path);
    DirectoriesAreSegments(path);
    DirectoriesAreCounted(path);
    var chain := Repeat("../", |dirs|);
    MergeUnderPrefix(segments, path, chain);
    assert AreSegments(segments + dirs);
    SegmentsMove(segments + dirs, chain, "");
    assert "" + Rendered(segments + dirs) == Rendered(segments + dirs);
    ChainDrops(segments, dirs);
  }

  /**
   For every prefix a proxy may add and every nested path that is no asset, the redirect resolves to exactly the
   prefix, with a query that is not empty kept.
   */
  lemma RedirectReachesTheShell(prefix: string, path: string, query: Option<string>)
    requires IsPrefix(prefix) && NestedShellRedirect(path, query).Some?
    ensures Resolve(prefix + path, NestedShellRedirect(path, query).value)
         == Target(prefix, if query == Some("") then None else query)
  {
    var segments :| IsPrefixOf(prefix, segments);
    ChainReachesPrefix(segments, path);
    var chain := Repeat("../", Count(path, '/'));
    ChainHasNoQuery(Count(path, '/'));
    if query.Some? && query.value != "" {
      QueryStartIs(chain, query.value);
      var reference := chain + "?" + query.value;
      assert reference[..|chain|] == chain && reference[|chain| + 1..] == query.value;
    } else {
      QueryStartIs(chain, "");
      assert chain[..|chain|] == chain;
    }
  }

  /** A redirect is given exactly for a path with a slash and no dot. */
  lemma RedirectsExactly(path: string, query: Option<string>)
    ensures NestedShellRedirect(path, query).Some? <==> '/' in path && '.' !in path
  {
    CountIsPositiveIff(path, '/');
  }

  lemma {:induction false} CountIsPositiveIff(path: string, c: char)
    ensures Count(path, c) > 0 <==> c in path
  {
    if path != "" {
      CountIsPositiveIff(path[1..], c);
    }
  }

  lemma OneSlashExtendsPrefix(prefix: string)
    requires IsPrefix(prefix)
    ensures IsPrefix(prefix + "/")
  {
    var segments :| IsPrefixOf(prefix, segments);
    var longer := segments + [""];
    assert longer[..|segments|] == segments;
    assert IsPrefixOf(prefix + "/", longer);
  }

  lemma {:induction false} SlashesExtendPrefix(prefix: string, k: nat)
    requires IsPrefix(prefix)
    ensures IsPrefix(prefix + Repeat("/", k))
    decreases k
  {
    if k == 0 {
      assert prefix + Repeat("/", k) == prefix;
    } else {
      OneSlashExtendsPrefix(prefix);
      SlashesExtendPrefix(prefix + "/", k - 1);
      Associates(prefix, "/", Repeat("/", k - 1));
    }
  }

  lemma {:induction false} TrimDropsSlashes(k: nat, path: string)
    requires path == "" || path[0] != '/'
    ensures TrimSlashes(Repeat("/", k) + path) == path
  {
    if k == 0 {
      assert Repeat("/", k) + path == path;
    } else {
      assert (Repeat("/", k) + path)[1..] == Repeat("/", k - 1) + path;
      TrimDropsSlashes(k - 1, path);
    }
  }

  lemma TrimmedRequest(extra: nat, path: string)
    requires path == "" || path[0] != '/'
    ensures TrimSlashes("/" + Repeat("/", extra) + path) == path
  {
    TrimDropsSlashes(extra + 1, path);
  }

  lemma {:induction false} RepeatLength(text: string, n: nat)
    ensures |Repeat(text, n)| == n * |text|
  {
    if n > 0 {
      RepeatLength(text, n - 1);
    }
  }

  /**
   The handler trims every leading slash of the request; behind `prefix` the browser's path still has the extra ones.
   The redirect reaches the prefix exactly when there are none, and it never leads to a second redirect.
   */
  lemma RedirectWithExtraSlashes(prefix: string, extra: nat, path: string, query: Option<string>)
    requires IsPrefix(prefix) && path != "" && path[0] != '/' && NestedShellRedirect(path, query).Some?
    ensures TrimSlashes("/" + Repeat("/", extra) + path) == path
    ensures var target := Resolve(prefix + Repeat("/", extra) + path, NestedShellRedirect(path, query).value);
            && target.path == prefix + Repeat("/", extra) && (target.path == prefix <==> extra == 0)
            && NestedShellRedirect(TrimSlashes("/" + Repeat("/", extra) + ""), target.query).None?
  {
    SlashesExtendPrefix(prefix, extra);
    RedirectReachesTheShell(prefix + Repeat("/", extra), path, query);
    TrimmedRequest(extra, path);
    TrimmedRequest(extra, "");
    RepeatLength("/", extra);
  }
}
