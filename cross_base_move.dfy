/**
 * one.py: each manifest line names a source blob and a target; the first
 * source segment is the language base. A target that starts with the base
 * is a sub-folder of the same base (the file goes to `base/target/file`);
 * any other target is a new base that replaces the first segment. Each copy
 * is polled to completion and then both blobs are probed for existence.
 */
module CrossBaseMove {
  import opened Strings
  import opened Url
  import opened Copy
  import opened Manifest

  /** The destination rule of `process_files`. */
  function Destination(src: string, target: string): string
  {
    Place(Segments(src), target)
  }

  function Place(parts: seq<string>, target: string): string
    requires |parts| >= 1
  {
    var base := parts[0];
    if StartsWith(target, base) then base + "/" + target + "/" + parts[|parts| - 1]
    else target + "/" + Join(parts[1..], "/")
  }

  /** Same base: the destination's segments are the base, the target's own
      segments, and the source's last segment. */
  lemma SameBaseSegments(src: string, target: string)
    requires StartsWith(target, Segments(src)[0])
    ensures var parts := Segments(src);
      Split(Destination(src, target), "/") == [parts[0]] + Split(target, "/") + [parts[|parts| - 1]]
  {
    var parts := Segments(src);
    var base, last := parts[0], parts[|parts| - 1];
    var rest := target + ['/'] + last;
    assert Destination(src, target) == base + ['/'] + rest;
    SplitConcat(base, '/', rest);
    SplitConcat(target, '/', last);
    SplitFree(base, '/');
    SplitFree(last, '/');
    ConsAssoc(base, Split(target, "/"), [last]);
  }

  /** Another base: the destination's segments are the target's own
      segments followed by every source segment after the first, unchanged
      and in order. A one-segment source leaves an empty last segment. */
  lemma CrossBaseSegments(src: string, target: string)
    requires !StartsWith(target, Segments(src)[0])
    ensures var parts := Segments(src);
      Split(Destination(src, target), "/") ==
        Split(target, "/") + (if |parts| == 1 then [""] else parts[1..])
  {
    var parts := Segments(src);
    var rest := Join(parts[1..], "/");
    SplitConcat(target, '/', rest);
    if |parts| == 1 {
      SplitEmpty("/");
    } else {
      SplitJoin(parts[1..], '/');
    }
  }

  /** Slashes around the source path do not change the destination. */
  lemma DestinationIgnoresOuterSlashes(a: string, src: string, b: string, target: string)
    requires forall k :: 0 <= k < |a| ==> a[k] == '/'
    requires forall k :: 0 <= k < |b| ==> b[k] == '/'
    ensures Destination(a + src + b, target) == Destination(src, target)
  {
    SegmentsIgnoreOuterSlashes(a, src, b);
  }

  /** `process_files` with the same-or-cross-base rule. */
  method ProcessFiles(lines: seq<string>) returns (requests: seq<Request>, aborted: bool)
    ensures |requests| <= |lines|
    ensures forall i :: 0 <= i < |requests| ==> LineRequest(lines[i], Destination) == Some(requests[i])
    ensures aborted <==> |requests| < |lines|
    ensures aborted ==> LineRequest(lines[|requests|], Destination).None?
  {
    requests, aborted := ProcessQuotedManifest(lines, Destination);
  }

  /** `copy_blob`: build the source URL, start the copy, wait while it is
      pending, report the final status (a success exactly when it is
      `"success"`), then probe the source and the destination. An exception
      from the store skips the rest and is contained here. The probes come
      after the status is settled and do not change it. */
  method CopyBlob(account: string, container: string, src: string, replies: seq<Reply>,
                  sourceExists: bool, destinationExists: bool)
    returns (log: CopyLog, succeeded: bool)
    requires IsAscii(src) && Settles(replies)
    ensures log.url == UrlPrefix(account, container) + Quote(src)
    ensures Unquote(log.url[|UrlPrefix(account, container)|..]) == src
    ensures log.waits == SettleIndex(replies) && log.final == replies[log.waits]
    ensures succeeded <==> log.final == Status("success")
    ensures log.final.Raised? ==> log.probes == []
    ensures !log.final.Raised? ==> log.probes == [sourceExists, destinationExists]
  {
    var url := SourceUrl(account, container, src);
    var waits, last := Poll(replies);
    if last.Raised? {
      return CopyLog(url, waits, last, []), false;
    }
    succeeded := IsSuccess(last);
    log := CopyLog(url, waits, last, [sourceExists, destinationExists]);
  }
}
