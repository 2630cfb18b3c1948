/**
 * draft6.py: each manifest line names a source blob and a target folder.
 * The listing of the container is searched for entries under
 * `base/target/`, where `base` is the text before the first `/` of the
 * source; the file is copied next to the first such entry, keeping its
 * basename. A copy is polled to completion; nothing catches an exception
 * inside the line loop, so one stops every remaining line.
 */
module SiblingFolder {
  import opened Strings
  import opened Copy

  /** `src_path.split('/')[0]`: the text before the first `/` of the path as
      given, so a path that starts with `/` has an empty base. */
  function BaseFolder(src: string): (base: string)
    ensures '/' !in base && StartsWith(src, base)
    ensures |base| < |src| ==> src[|base|] == '/'
    ensures StartsWith(src, "/") ==> base == []
  {
    SplitHead(src);
    Split(src, "/")[0]
  }

  /** What a listing entry must start with to count as the target folder. */
  function FolderPrefix(src: string, target: string): string
  {
    BaseFolder(src) + "/" + target + "/"
  }

  /** The comprehension `[blob for blob in all_blobs if blob.startswith(prefix)]`:
      exactly the entries with the prefix, never more than the listing. */
  function Matches(blobs: seq<string>, prefix: string): (r: seq<string>)
    ensures |r| <= |blobs|
    ensures forall x :: x in r <==> x in blobs && StartsWith(x, prefix)
  {
    if blobs == [] then []
    else
      assert forall x :: x in blobs <==> x == blobs[0] || x in blobs[1..];
      (if StartsWith(blobs[0], prefix) then [blobs[0]] else []) + Matches(blobs[1..], prefix)
  }

  /** The matches of a listing are the matches of its parts, in the same
      order: the comprehension keeps listing order. */
  lemma {:induction false} MatchesAppend(a: seq<string>, b: seq<string>, prefix: string)
    ensures Matches(a + b, prefix) == Matches(a, prefix) + Matches(b, prefix)
    decreases |a|
  {
    if a == [] {
      assert a + b == b;
    } else {
      assert (a + b)[0] == a[0];
      assert (a + b)[1..] == a[1..] + b;
      MatchesAppend(a[1..], b, prefix);
    }
  }

  /** The first match is the earliest listing entry with the prefix. */
  lemma {:induction false} FirstMatch(blobs: seq<string>, prefix: string)
    requires Matches(blobs, prefix) != []
    ensures exists i :: (0 <= i < |blobs| && blobs[i] == Matches(blobs, prefix)[0]
      && StartsWith(blobs[i], prefix)
      && forall j :: 0 <= j < i ==> !StartsWith(blobs[j], prefix))
    decreases |blobs|
  {
    if !StartsWith(blobs[0], prefix) {
      FirstMatch(blobs[1..], prefix);
      var i :| 0 <= i < |blobs[1..]| && blobs[1..][i] == Matches(blobs[1..], prefix)[0]
        && StartsWith(blobs[1..][i], prefix)
        && forall j :: 0 <= j < i ==> !StartsWith(blobs[1..][j], prefix);
      assert blobs[i + 1] == blobs[1..][i];
      forall j | 0 <= j < i + 1 ensures !StartsWith(blobs[j], prefix) {
        if j > 0 { assert blobs[j] == blobs[1..][j - 1]; }
      }
    }
  }

  /** `search_and_copy_file`'s destination: none when no entry has the
      prefix (the target folder is reported missing and nothing is copied);
      otherwise the first such entry in listing order, `/`, and the source's
      basename. */
  function SearchDestination(src: string, target: string, blobs: seq<string>): (r: Option<string>)
    ensures r.None? <==> forall i :: 0 <= i < |blobs| ==> !StartsWith(blobs[i], FolderPrefix(src, target))
    ensures r.Some? ==> exists i :: (0 <= i < |blobs| && StartsWith(blobs[i], FolderPrefix(src, target))
      && (forall j :: 0 <= j < i ==> !StartsWith(blobs[j], FolderPrefix(src, target)))
      && r.value == blobs[i] + "/" + Basename(src))
  {
    var prefix := FolderPrefix(src, target);
    var found := Matches(blobs, prefix);
    if found == [] then
      assert forall i :: 0 <= i < |blobs| ==> !StartsWith(blobs[i], prefix) by {
        forall i | 0 <= i < |blobs| ensures !StartsWith(blobs[i], prefix) {
          assert blobs[i] in blobs;
        }
      }
      None
    else
      FirstMatch(blobs, prefix);
      Some(found[0] + "/" + Basename(src))
  }

  /** The destination starts with the searched prefix and ends with `/` and
      the source's basename; a first match that already ends in `/` gives a
      doubled `//` just before the basename. */
  lemma DestinationShape(src: string, target: string, blobs: seq<string>)
    requires SearchDestination(src, target, blobs).Some?
    ensures var dest := SearchDestination(src, target, blobs).value;
      && StartsWith(dest, FolderPrefix(src, target))
      && EndsWith(dest, "/" + Basename(src))
      && (forall i :: 0 <= i < |blobs| && dest == blobs[i] + "/" + Basename(src) && EndsWith(blobs[i], "/")
            ==> OccursAt(dest, "//", |blobs[i]| - 1))
  {
    var dest := SearchDestination(src, target, blobs).value;
    var prefix := FolderPrefix(src, target);
    var b := Basename(src);
    var i :| 0 <= i < |blobs| && StartsWith(blobs[i], prefix) && dest == blobs[i] + "/" + b;
    assert dest[..|prefix|] == blobs[i][..|prefix|];
    assert dest[|dest| - |"/" + b|..] == "/" + b;
    forall k | 0 <= k < |blobs| && dest == blobs[k] + "/" + b && EndsWith(blobs[k], "/")
      ensures OccursAt(dest, "//", |blobs[k]| - 1)
    {
      var m := blobs[k];
      assert dest[|m| - 1..|m| + 1] == [m[|m| - 1], '/'];
    }
  }

  /** A listing whose first match is the folder entry `base/target/`
      itself (as `fre-mczbv-78d/images/` for `fre-mczbv-78d/audio/1.mp3` and
      `images`): the destination gets a doubled `/` before the file name. */
  lemma FolderEntryDoublesSlash(base: string, folder: string, file: string, target: string,
                                rest: seq<string>)
    requires '/' !in base && '/' !in folder && '/' !in file
    ensures var src := base + "/" + folder + "/" + file;
      SearchDestination(src, target, [base + "/" + target + "/"] + rest)
        == Some(base + "/" + target + "//" + file)
  {
    var src := base + "/" + folder + "/" + file;
    var entry := base + "/" + target + "/";
    var blobs := [entry] + rest;
    assert Split(src, "/") == [base, folder, file] by {
      assert src == base + ['/'] + (folder + ['/'] + file);
      SplitConcat(base, '/', folder + "/" + file);
      SplitConcat(folder, '/', file);
      SplitFree(base, '/');
      SplitFree(folder, '/');
      SplitFree(file, '/');
    }
    assert FolderPrefix(src, target) == entry;
    assert Basename(src) == file;
    assert blobs[0] == entry && blobs[1..] == rest;
    assert Matches(blobs, entry)[0] == entry;
    assert entry + "/" + file == base + "/" + target + "//" + file;
  }

  /** What one manifest line leads to when the run goes on past it. */
  datatype Step =
    | Blank
    | NotFound(target: string)
    | Copied(request: Request, waits: nat, succeeded: bool)

  /** Where one line leads before any copy is started: a blank line is
      skipped, a line that does not split into two pieces at `" : "` raises,
      a target folder without a match is reported missing, and otherwise a
      copy is asked for. The split is of the line as read; each piece is then
      whitespace-stripped. */
  datatype Route = Skip | Malformed | Missing(target: string) | CopyTo(request: Request)

  function RouteOf(line: string, blobs: seq<string>): (r: Route)
    ensures r.Skip? <==> Strip(line, Whitespace) == []
    ensures r.Malformed? <==> Strip(line, Whitespace) != [] && |Split(line, " : ")| != 2
    ensures r.Missing? ==> (r.target == Strip(Split(line, " : ")[1], Whitespace)
      && SearchDestination(Strip(Split(line, " : ")[0], Whitespace), r.target, blobs).None?)
    ensures r.CopyTo? ==> (r.request.src == Strip(Split(line, " : ")[0], Whitespace)
      && SearchDestination(r.request.src, Strip(Split(line, " : ")[1], Whitespace), blobs)
           == Some(r.request.dest))
  {
    if Strip(line, Whitespace) == [] then Skip
    else
      var pieces := Split(line, " : ");
      if |pieces| != 2 then Malformed
      else
        var src := Strip(pieces[0], Whitespace);
        var target := Strip(pieces[1], Whitespace);
        var found := SearchDestination(src, target, blobs);
        if found.None? then Missing(target) else CopyTo(Request(src, found.value))
  }

  /** How one line is handled, given what the store answers if a copy is
      started for it; `None` when the line raises: it is malformed, or the
      copy raised. */
  function LineStep(line: string, blobs: seq<string>, replies: seq<Reply>): Option<Step>
    requires RouteOf(line, blobs).CopyTo? ==> Settles(replies)
  {
    Outcome(RouteOf(line, blobs), replies)
  }

  function Outcome(route: Route, replies: seq<Reply>): Option<Step>
    requires route.CopyTo? ==> Settles(replies)
  {
    if route.Skip? then Some(Blank)
    else if route.Malformed? then None
    else if route.Missing? then Some(NotFound(route.target))
    else
      var k := SettleIndex(replies);
      if replies[k].Raised? then None
      else Some(Copied(route.request, k, IsSuccess(replies[k])))
  }

  /** `copy_blob`: start the copy, wait while it is pending, and report a
      success exactly when the final status is `"success"`. An exception is
      not caught here. */
  method CopyBlob(replies: seq<Reply>) returns (waits: nat, last: Reply, succeeded: bool)
    requires Settles(replies)
    ensures waits == SettleIndex(replies) && last == replies[waits]
    ensures succeeded <==> last == Status("success")
  {
    waits, last := Poll(replies);
    succeeded := IsSuccess(last);
  }

  /** `process_source_file`: lines are handled in order, whitespace-only
      lines skipped; the first line that raises stops the run, so the steps
      are exactly those of the lines before it. `sdk[i]` is what the store
      answers to a copy started for line `i`; only a line that starts a copy
      needs its answers to settle. */
  method ProcessSourceFile(lines: seq<string>, blobs: seq<string>, sdk: seq<seq<Reply>>)
    returns (steps: seq<Step>, aborted: bool)
    requires |sdk| == |lines|
    requires forall i :: 0 <= i < |sdk| && RouteOf(lines[i], blobs).CopyTo? ==> Settles(sdk[i])
    ensures |steps| <= |lines|
    ensures forall i :: 0 <= i < |steps| ==> LineStep(lines[i], blobs, sdk[i]) == Some(steps[i])
    ensures aborted <==> |steps| < |lines|
    ensures aborted ==> LineStep(lines[|steps|], blobs, sdk[|steps|]).None?
  {
    steps, aborted := RouteLines(lines, line => RouteOf(line, blobs), sdk);
  }

  /** The line loop with the routing of each line taken as given: a copy
      polls the store's answers for that line, and a malformed line or a
      copy that raised ends the run. */
  method RouteLines(lines: seq<string>, route: string -> Route, sdk: seq<seq<Reply>>)
    returns (steps: seq<Step>, aborted: bool)
    requires |sdk| == |lines|
    requires forall i :: 0 <= i < |sdk| && route(lines[i]).CopyTo? ==> Settles(sdk[i])
    ensures |steps| <= |lines|
    ensures forall i :: 0 <= i < |steps| ==> Outcome(route(lines[i]), sdk[i]) == Some(steps[i])
    ensures aborted <==> |steps| < |lines|
    ensures aborted ==> Outcome(route(lines[|steps|]), sdk[|steps|]).None?
  {
    steps := [];
    aborted := false;
    var i := 0;
    while i < |lines|
      invariant i <= |lines| && |steps| == i
      invariant forall k :: 0 <= k < i ==> Outcome(route(lines[k]), sdk[k]) == Some(steps[k])
    {
      var r := route(lines[i]);
      var step: Step;
      if r.Skip? {
        step := Blank;
      } else if r.Malformed? {
        aborted := true;
        return;
      } else if r.Missing? {
        step := NotFound(r.target);
      } else {
        var waits, last, succeeded := CopyBlob(sdk[i]);
        if last.Raised? {
          aborted := true;
          return;
        }
        step := Copied(r.request, waits, succeeded);
      }
      steps := steps + [step];
      i := i + 1;
    }
  }
}
