/**
 * What one.py and run.py share: a manifest line `source/path : "target"`
 * and the `/`-segments of a source path taken after removing its outer
 * slashes.
 */
module Manifest {
  import opened Strings
  import opened Copy

  /** `line.strip().split(" : ")` unpacked into two names, the second with
      its surrounding `"` characters removed. Anything other than exactly two
      pieces makes the unpacking raise, modelled as `None`. */
  function ParseQuotedLine(line: string): (r: Option<(string, string)>)
    ensures r.None? <==> |Split(Strip(line, Whitespace), " : ")| != 2
    ensures r.Some? ==> r.value.1 != [] ==> r.value.1[0] != '"' && r.value.1[|r.value.1| - 1] != '"'
  {
    var pieces := Split(Strip(line, Whitespace), " : ");
    if |pieces| != 2 then None
    else
      var target := Strip(pieces[1], {'"'});
      StripEnds(pieces[1], {'"'});
      Some((pieces[0], target))
  }

  /** The source name of a parsed line holds no `" : "`, and the stripped
      line has none starting inside the source name either: the line is cut
      at its first separator, and a second one makes it malformed. */
  lemma ParsedSourceFree(line: string)
    requires ParseQuotedLine(line).Some?
    ensures Free(ParseQuotedLine(line).value.0, " : ")
    ensures forall j: nat :: j < |ParseQuotedLine(line).value.0| ==>
      !OccursAt(Strip(line, Whitespace), " : ", j)
  {
    var s := Strip(line, Whitespace);
    SplitPiecesFree(s, " : ");
    SplitFirstCut(s, " : ");
  }

  /** `s` is `src`, the separator, and then `target` between two runs of `"`. */
  predicate Reassembles(s: string, src: string, target: string, q1: string, q2: string)
  {
    StartsWith(s, src + " : ") && Wraps(s[|src| + 3..], q1, target, q2, {'"'})
  }

  /** A parsed line can be put back together: its stripped text is the
      source, `" : "`, and the target with some `"` characters before and
      after it. With `ParsedSourceFree` (no `" : "` starts inside the
      source) and the quote-free ends of the target, this fixes the pair
      the line parses to. */
  lemma ParsedLineRoundTrip(line: string)
    requires ParseQuotedLine(line).Some?
    ensures exists q1: string, q2: string :: Reassembles(Strip(line, Whitespace),
      ParseQuotedLine(line).value.0, ParseQuotedLine(line).value.1, q1, q2)
  {
    var s := Strip(line, Whitespace);
    var p := Split(s, " : ");
    JoinTwo(p, " : ");
    var target := Strip(p[1], {'"'});
    assert ParseQuotedLine(line).value == (p[0], target);
    StripWraps(p[1], {'"'});
    var q1, q2 :| Wraps(p[1], q1, target, q2, {'"'});
    assert s[..|p[0]| + 3] == p[0] + " : " && s[|p[0]| + 3..] == p[1];
    assert Reassembles(s, p[0], target, q1, q2);
  }

  /** A blank or whitespace-only line does not split into two pieces, so it
      raises like any other malformed line. */
  lemma BlankLineIsMalformed(line: string)
    requires forall i :: 0 <= i < |line| ==> line[i] in Whitespace
    ensures ParseQuotedLine(line).None?
  {
    StripAllOfCs(line, Whitespace);
    SplitEmpty(" : ");
  }

  /** `src_path.strip("/").split("/")`. */
  function Segments(src: string): (parts: seq<string>)
    ensures |parts| >= 1
    ensures forall k :: 0 <= k < |parts| ==> '/' !in parts[k]
  {
    SplitPiecesChar(Strip(src, {'/'}), '/');
    Split(Strip(src, {'/'}), "/")
  }

  /** Slashes around a source path do not change its segments:
      `"/a/b/"` and `"a/b"` give the same ones. */
  lemma SegmentsIgnoreOuterSlashes(a: string, src: string, b: string)
    requires forall k :: 0 <= k < |a| ==> a[k] == '/'
    requires forall k :: 0 <= k < |b| ==> b[k] == '/'
    ensures Segments(a + src + b) == Segments(src)
  {
    StripPadding(a, src, b, {'/'});
  }

  /** The copy a line asks for under a destination rule, or `None` when the
      line's unpacking raises. */
  function LineRequest(line: string, rule: (string, string) -> string): Option<Request>
  {
    var parsed := ParseQuotedLine(line);
    if parsed.None? then None
    else Some(Request(parsed.value.0, rule(parsed.value.0, parsed.value.1)))
  }

  /** The `process_files` loop of one.py and run.py: lines are handled in
      order; the first line that does not split into exactly two pieces
      raises, and since the handler sits outside the loop, no later line is
      looked at. The copies asked for are those of the lines before it, in
      order. */
  method ProcessQuotedManifest(lines: seq<string>, rule: (string, string) -> string)
    returns (requests: seq<Request>, aborted: bool)
    ensures |requests| <= |lines|
    ensures forall i :: 0 <= i < |requests| ==> LineRequest(lines[i], rule) == Some(requests[i])
    ensures aborted <==> |requests| < |lines|
    ensures aborted ==> LineRequest(lines[|requests|], rule).None?
  {
    requests, aborted := RunLines(lines, line => LineRequest(line, rule));
  }

  /** A loop over the lines of a file that stops at the first line whose
      handling raises (`None`); what each earlier line produced is kept, in
      order. */
  method RunLines<T>(lines: seq<string>, handle: string -> Option<T>)
    returns (done: seq<T>, aborted: bool)
    ensures |done| <= |lines|
    ensures forall i :: 0 <= i < |done| ==> handle(lines[i]) == Some(done[i])
    ensures aborted <==> |done| < |lines|
    ensures aborted ==> handle(lines[|done|]).None?
  {
    done := [];
    aborted := false;
    var i := 0;
    while i < |lines|
      invariant i <= |lines| && |done| == i
      invariant forall k :: 0 <= k < i ==> handle(lines[k]) == Some(done[k])
    {
      var result := handle(lines[i]);
      if result.None? {
        aborted := true;
        return;
      }
      done := done + [result.value];
      i := i + 1;
    }
  }
}
