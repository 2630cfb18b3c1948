/**
 * run.py: each manifest line names a source blob and a language id; the
 * destination is the source path, outer slashes removed, with its first
 * segment overwritten by the language id. Each copy is started once, its
 * initial status reported without polling, and the destination probed.
 */
module BaseReplace {
  import opened Strings
  import opened Url
  import opened Copy
  import opened Manifest

  /** `parts[0] = lang_id` on the source segments, then `"/".join(parts)`. */
  function Destination(src: string, langId: string): string
  {
    Join(Segments(src)[0 := langId], "/")
  }

  /** The destination's segments are the language id's own segments
      followed by every source segment after the first. */
  lemma DestinationSegments(src: string, langId: string)
    ensures Split(Destination(src, langId), "/") == Split(langId, "/") + Segments(src)[1..]
  {
    var parts := Segments(src);
    var replaced := parts[0 := langId];
    if |parts| >= 2 {
      assert replaced[1..] == parts[1..];
      SplitConcat(langId, '/', Join(parts[1..], "/"));
      SplitJoin(parts[1..], '/');
    } else {
      assert parts[1..] == [];
    }
  }

  /** For a language id without `/`: segment 0 of the destination is the
      language id, every other segment is the source's, and the number of
      segments is the source's. */
  lemma ReplacesFirstSegment(src: string, langId: string)
    requires '/' !in langId
    ensures Split(Destination(src, langId), "/") == Segments(src)[0 := langId]
    ensures |Split(Destination(src, langId), "/")| == |Segments(src)|
  {
    DestinationSegments(src, langId);
    SplitFree(langId, '/');
    assert [langId] + Segments(src)[1..] == Segments(src)[0 := langId];
  }

  /** The last segment of a slash-stripped path with two or more segments
      is not empty and does not end in `/`. */
  lemma LastSegmentNotEmpty(src: string)
    requires |Segments(src)| >= 2
    ensures var parts := Segments(src);
      parts[|parts| - 1] != [] && parts[|parts| - 1][|parts[|parts| - 1]| - 1] != '/'
  {
    var stripped := Strip(src, {'/'});
    var parts := Segments(src);
    JoinLast(parts, "/");
    var last := parts[|parts| - 1];
    assert stripped == Join(parts[..|parts| - 1], "/") + "/" + last;
    assert stripped != [] && stripped[|stripped| - 1] != '/';
    assert stripped[|stripped| - 1] == if last == [] then '/' else last[|last| - 1];
  }

  /** With a non-empty language id without `/`, the destination neither
      starts nor ends with `/`. */
  lemma DestinationUnpadded(src: string, langId: string)
    requires langId != [] && '/' !in langId
    ensures var dest := Destination(src, langId);
      dest != [] && dest[0] != '/' && dest[|dest| - 1] != '/'
  {
    var parts := Segments(src);
    var replaced := parts[0 := langId];
    var dest := Destination(src, langId);
    assert langId[0] != '/';
    assert langId[|langId| - 1] != '/';
    if |parts| >= 2 {
      assert dest == langId + "/" + Join(replaced[1..], "/");
      LastSegmentNotEmpty(src);
      JoinLast(replaced, "/");
      var last := replaced[|replaced| - 1];
      assert last == parts[|parts| - 1];
      assert dest[|dest| - 1] == last[|last| - 1];
    } else {
      assert dest == langId;
    }
  }

  /** Applying the rule to its own result with the same non-empty language
      id (without `/`) gives that result back. */
  lemma DestinationIdempotent(src: string, langId: string)
    requires langId != [] && '/' !in langId
    ensures Destination(Destination(src, langId), langId) == Destination(src, langId)
  {
    var replaced := Segments(src)[0 := langId];
    var dest := Destination(src, langId);
    DestinationUnpadded(src, langId);
    StripUnpadded(dest, {'/'});
    ReplacesFirstSegment(src, langId);
    assert Segments(dest) == replaced by {
      assert Segments(dest) == Split(Strip(dest, {'/'}), "/");
    }
    UpdateSame(replaced, 0, langId);
    calc {
      Destination(dest, langId);
      Join(Segments(dest)[0 := langId], "/");
      Join(replaced, "/");
    }
  }

  lemma UpdateSame(s: seq<string>, i: nat, v: string)
    requires i < |s| && s[i] == v
    ensures s[i := v] == s
  {
  }

  /** `process_files` with the first-segment rule. */
  method ProcessFiles(lines: seq<string>) returns (requests: seq<Request>, aborted: bool)
    ensures |requests| <= |lines|
    ensures forall i :: 0 <= i < |requests| ==> LineRequest(lines[i], Destination) == Some(requests[i])
    ensures aborted <==> |requests| < |lines|
    ensures aborted ==> LineRequest(lines[|requests|], Destination).None?
  {
    requests, aborted := ProcessQuotedManifest(lines, Destination);
  }

  /** `copy_blob`: there is no polling. The status reported is the one the
      copy start returned; an exception from the store is contained here and
      skips the destination probe, so the next line is still processed. */
  function CopyBlob(account: string, container: string, src: string, reply: Reply,
                    destinationExists: bool): (log: CopyLog)
    requires IsAscii(src)
    ensures StartsWith(log.url, UrlPrefix(account, container))
    ensures Unquote(log.url[|UrlPrefix(account, container)|..]) == src
    ensures log.waits == 0 && log.final == reply
    ensures reply.Raised? ==> log.probes == []
    ensures !reply.Raised? ==> log.probes == [destinationExists]
  {
    CopyLog(SourceUrl(account, container, src), 0, reply,
            if reply.Raised? then [] else [destinationExists])
  }
}
