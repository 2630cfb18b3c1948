/**
 * main.py: two files are read side by side; line `i` of the first names a
 * source blob and line `i` of the second the folder it goes to. The
 * destination is the folder joined with the source's basename. Each copy is
 * started once and its initial status reported; an exception from the
 * store is contained per copy, so every pair is processed.
 */
module PairedJoin {
  import opened Strings
  import opened Url
  import opened Copy

  /** `os.path.join(a, b)` for POSIX paths: an absolute `b` replaces `a`;
      otherwise `b` is appended, after a `/` unless `a` is empty or already
      ends with one. */
  function PathJoin(a: string, b: string): (r: string)
    ensures StartsWith(b, "/") ==> r == b
    ensures !StartsWith(b, "/") ==> StartsWith(r, a) && EndsWith(r, b)
    ensures !StartsWith(b, "/") ==>
      |r| == |a| + |b| + (if a == [] || EndsWith(a, "/") then 0 else 1)
    ensures !StartsWith(b, "/") && |r| > |a| + |b| ==> r[|a|] == '/'
  {
    if StartsWith(b, "/") then b
    else if a == [] || EndsWith(a, "/") then a + b
    else a + "/" + b
  }

  /** Where a source goes under a destination folder. */
  function FullDestination(dest: string, src: string): string
  {
    PathJoin(dest, Basename(src))
  }

  /** The destination keeps the folder as written, then has exactly one `/`
      between it and the file name (none is added when the folder is empty
      or already ends with `/`); the basename never starts with `/`, so the
      folder is never discarded. */
  lemma FullDestinationShape(dest: string, src: string)
    ensures var full := FullDestination(dest, src);
      var b := Basename(src);
      && StartsWith(full, dest) && EndsWith(full, b)
      && full == (if dest == [] || EndsWith(dest, "/") then dest + b else dest + "/" + b)
  {
    var b := Basename(src);
    BasenameShape(src);
    if b != [] {
      assert b[0] != '/';
    }
  }

  /** The copied file keeps its name: the basename of the destination is
      the basename of the source. */
  lemma FullDestinationKeepsName(dest: string, src: string)
    ensures Basename(FullDestination(dest, src)) == Basename(src)
  {
    var b := Basename(src);
    BasenameShape(src);
    FullDestinationShape(dest, src);
    var full := FullDestination(dest, src);
    SplitFree(b, '/');
    if dest == [] {
      assert full == b;
    } else {
      var front := if EndsWith(dest, "/") then dest[..|dest| - 1] else dest;
      assert full == front + ['/'] + b by {
        if EndsWith(dest, "/") {
          assert dest == front + "/";
        }
      }
      SplitConcat(front, '/', b);
      var pieces := Split(front, "/") + [b];
      assert Split(full, "/") == pieces;
      assert pieces[|pieces| - 1] == b;
    }
  }

  /** The copy asked for by one pair of lines: each side whitespace-stripped,
      the source copied to the folder joined with the source's basename. */
  function PairRequest(srcLine: string, destLine: string): Request
  {
    var src := Strip(srcLine, Whitespace);
    Request(src, FullDestination(Strip(destLine, Whitespace), src))
  }

  /** `process_files`: the lines are paired as `zip` pairs them, stopping at
      the shorter file, and every pair asks for its copy, in order. */
  method ProcessFiles(srcLines: seq<string>, destLines: seq<string>) returns (requests: seq<Request>)
    ensures |requests| == if |srcLines| <= |destLines| then |srcLines| else |destLines|
    ensures forall i :: 0 <= i < |requests| ==> requests[i] == PairRequest(srcLines[i], destLines[i])
  {
    requests := ZipLines(srcLines, destLines, PairRequest);
  }

  /** The `for src_line, dest_line in zip(...)` loop: one result per pair of
      lines, in order, as many as the shorter file has lines. */
  method ZipLines<T>(first: seq<string>, second: seq<string>, handle: (string, string) -> T)
    returns (done: seq<T>)
    ensures |done| == if |first| <= |second| then |first| else |second|
    ensures forall i :: 0 <= i < |done| ==> done[i] == handle(first[i], second[i])
  {
    done := [];
    var i := 0;
    while i < |first| && i < |second|
      invariant i <= |first| && i <= |second| && |done| == i
      invariant forall k :: 0 <= k < i ==> done[k] == handle(first[k], second[k])
    {
      done := done + [handle(first[i], second[i])];
      i := i + 1;
    }
  }

  /** `copy_blob`: the source URL names the source container; the copy is
      started once in the destination container and the status it returns is
      reported without polling. An exception from the store is contained
      here and nothing is probed. */
  function CopyBlob(account: string, sourceContainer: string, src: string, reply: Reply): (log: CopyLog)
    requires IsAscii(src)
    ensures StartsWith(log.url, UrlPrefix(account, sourceContainer))
    ensures Unquote(log.url[|UrlPrefix(account, sourceContainer)|..]) == src
    ensures log.waits == 0 && log.final == reply && log.probes == []
  {
    CopyLog(SourceUrl(account, sourceContainer, src), 0, reply, [])
  }
}
