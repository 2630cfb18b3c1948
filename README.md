# Blob-copy scripts, modelled in Dafny

The repository is a set of Python scripts that copy blobs inside Azure Blob
Storage containers. One script also writes the container's folder structure
to a text file. This project models their core logic and proves it:

- **Manifest parsing.** A manifest file has lines of the form
  `source : "target"`. Each line is stripped and split at `" : "`, and the
  target's quotes are dropped (`Manifest`). A line that does not split into
  exactly two pieces raises, and that ends the run.
- **Four destination rules**, one per script:
  - *same-or-cross base* (`one.py`, `CrossBaseMove`);
  - *replace the first segment* (`run.py`, `BaseReplace`);
  - *copy next to the first matching listing entry* (`draft6.py`,
    `SiblingFolder`). When that entry is the folder entry itself, as
    `fre-mczbv-78d/images/` is for `fre-mczbv-78d/audio/1.mp3` and target
    `images`, the destination is `fre-mczbv-78d/images//1.mp3`, with a
    doubled `/` (`SiblingFolder.FolderEntryDoublesSlash`);
  - *join a folder with the basename* (`main.py`, `PairedJoin`).
- **Copying.**
  - The source URL is built from the percent-encoded path (`Url`). Encoding
    follows sections 2.1 and 2.3 of RFC 3986.
  - The copy is started, and for some scripts its status is polled until it
    is no longer `pending` or `in_progress` (`Copy`).
  - Existence probes then follow, and each script handles exceptions in its
    own place.
- **Directory tree** (`draft5.py`, `BlobTree`). Blob names are inserted into
  a nested dictionary, one level per `/`-separated segment. The tree is then
  written in pre-order, with two extra spaces of indentation per level.

The Python string operations the scripts rely on are written out in
`Strings`:

- `str.split` with a multi-character separator, and `str.join`;
- `str.strip()` with Python's whitespace set, and `str.strip(chars)`;
- `startswith` and `os.path.basename`;
- `os.path.join` for two arguments (in `PairedJoin`).

The storage service is not called. What it answers is an input:

- a copy's successive statuses are a sequence of replies, in which a reply
  is a status or an exception;
- an existence probe's result is a boolean;
- a container listing is a sequence of names.

## Model

| member | source | states |
|---|---|---|
| Strings.Split | one.py:82 | `str.split(sep)` gives at least one piece, and joining the pieces with the separator gives the string back |
| Strings.Join | run.py:51 | definition of `sep.join(parts)`: the pieces with the separator between each two; `Strings.Split` and `Strings.SplitJoin` relate it to splitting |
| Strings.SplitPiecesFree | one.py:82 | no piece of a split contains the separator |
| Strings.FindFirst | one.py:82 | the separator search finds the first occurrence, and finds nothing only when the separator does not occur |
| Strings.SplitFirstCut | one.py:82 | when a string splits into two or more pieces, the separator occurs right after the first piece and nowhere before that |
| Strings.SplitJoin | run.py:49-51 | joining `/`-free pieces with `/` and splitting again gives the same pieces |
| Strings.SplitConcat | one.py:90-93 | splitting `a + "/" + b` at `/` gives the pieces of `a` followed by the pieces of `b` |
| Strings.SplitFree | one.py:85 | a string without the separator splits into itself alone |
| Strings.SplitCons | one.py:85 | a separator-free head, the separator, then a tail split into the head followed by the tail's pieces |
| Strings.SplitHead | draft6.py:24 | the first `/`-piece holds no `/` and is a prefix of the path, and is followed by `/` whenever it is shorter than the path |
| Strings.SplitEmpty | one.py:93 | the empty string splits into one empty piece |
| Strings.JoinLast | one.py:90 | a join of two or more pieces is the join of all but the last, the separator, and the last piece |
| Strings.StripShape | one.py:82-85 | `strip` removes a run of strip characters from each end and keeps the middle, from index i to index j |
| Strings.Strip | one.py:82-83 | definition of `str.strip(chars)`: leading then trailing characters of the set removed; its properties are `Strings.StripShape`, `Strings.StripEnds` and `Strings.StripWraps` |
| Strings.StripWraps | one.py:83 | a string is its stripped text between two runs of strip characters |
| Strings.StripEnds | one.py:83 | a non-empty stripped string neither starts nor ends with a strip character |
| Strings.TrimStartDrops | one.py:85 | everything the leading trim drops is a strip character |
| Strings.TrimEndDrops | one.py:85 | everything the trailing trim drops is a strip character |
| Strings.StripPadding | one.py:85 | strip characters added at either end do not change the stripped result |
| Strings.StripAllOfCs | one.py:82 | a string made only of strip characters strips to the empty string |
| Strings.StripUnpadded | run.py:49 | a string that neither starts nor ends with a strip character is left unchanged |
| Strings.TrimStartOfCs | one.py:85 | leading strip characters do not affect the leading trim |
| Strings.TrimEndOfCs | one.py:85 | trailing strip characters do not affect the trailing trim |
| Strings.TrimStartAppend | one.py:85 | how the leading trim of `s + b` relates to the leading trim of `s` |
| Strings.BasenameShape | main.py:45 | the basename holds no `/`, ends the path, and is preceded by `/` when it is not the whole path |
| Strings.Basename | main.py:45 | definition of `os.path.basename`: the text after the last `/`; its properties are `Strings.BasenameShape` |
| Strings.FindChar | draft6.py:24 | for a one-character separator, the search finds the first position holding it |
| Strings.OccursAtChar | draft6.py:24 | a one-character separator occurs exactly where that character stands |
| Strings.FreeChar | draft6.py:24 | a string is free of a one-character separator exactly when it lacks that character |
| Strings.SplitPiecesChar | draft5.py:24 | no piece of a split at a character contains that character |
| Url.QuoteChar | one.py:18-19 | a safe character is kept; any other becomes `%` and the two upper-case hex digits of its code |
| Url.Quote | one.py:18-19 | the output is never shorter than the input, and has the same length exactly when every character is safe (it is then the input); it holds only safe characters and `%` |
| Url.QuoteConcat | one.py:18-19 | encoding works character by character: the encoding of a concatenation is the concatenation of the encodings |
| Url.UnquoteQuoteChar | one.py:18-19 | decoding one encoded character gives that character back |
| Url.UnquoteQuote | one.py:18-19 | percent-decoding the encoded path gives the path back |
| Url.SourceUrl | one.py:33-37 | the URL starts with `https://<account>.blob.core.windows.net/<container>/`, and the rest decodes to the source path |
| Url.HexDigit | one.py:19 | an escape digit is an unreserved character |
| Copy.SettleIndex | one.py:48-51 | the first reply that is not `pending` or `in_progress`; every earlier reply is waiting |
| Copy.Poll | one.py:48-51 | the poll loop stops at the first reply that is not waiting, after exactly as many waits as there are waiting replies before it |
| Manifest.ParseQuotedLine | one.py:82-83 | a line is rejected exactly when its stripped text does not split into two pieces at `" : "`; a non-empty target has no `"` at either end |
| Manifest.ParsedLineRoundTrip | one.py:82-83 | the stripped line starts with the parsed source and `" : "`, and the rest is the parsed target between two runs of `"`. No `" : "` starts inside the source (`Manifest.ParsedSourceFree`), and the target has no `"` at either end, so together these fix the pair the line parses to |
| Manifest.ParsedSourceFree | one.py:82 | the parsed source contains no `" : "`, and no `" : "` of the stripped line starts inside it: the line is cut at its first separator |
| Manifest.BlankLineIsMalformed | one.py:81-82 | a blank or whitespace-only line is rejected, which ends the run |
| Manifest.Segments | one.py:85 | at least one segment, and no segment contains `/` |
| Manifest.SegmentsIgnoreOuterSlashes | one.py:85 | slashes added around the source path do not change its segments |
| Manifest.LineRequest | one.py:82-95 | definition of one line's copy under a destination rule: the parsed source copied to the rule's destination, or nothing when the line is malformed |
| Manifest.ProcessQuotedManifest | one.py:78-100 | one request per line, in order, until the first rejected line; the run is aborted exactly when a line is rejected, and that line is the one after the last request |
| Manifest.RunLines | one.py:81-95 | the line loop keeps each line's result, in order, and stops at the first line whose handling raises |
| CrossBaseMove.SameBaseSegments | one.py:88-90 | when the target starts with the base, the destination's segments are the base, the target's own segments, then the source's last segment |
| CrossBaseMove.Destination | one.py:85-93 | definition of the same-or-cross-base rule on the source's segments; its segments are stated by `CrossBaseMove.SameBaseSegments` and `CrossBaseMove.CrossBaseSegments` |
| CrossBaseMove.Place | one.py:86-93 | definition of the two branches: `base/target/last` when the target starts with the base, `target/` and the other segments joined otherwise |
| CrossBaseMove.CrossBaseSegments | one.py:91-93 | otherwise they are the target's segments, then every source segment after the first in order (a single empty one for a one-segment source) |
| CrossBaseMove.DestinationIgnoresOuterSlashes | one.py:85-93 | slashes around the source path do not change the destination |
| CrossBaseMove.ProcessFiles | one.py:78-100 | `process_files` under this rule: each line's request in order, stopping at the first malformed line |
| CrossBaseMove.CopyBlob | one.py:32-60 | the URL is the account's blob endpoint and the container, then the encoded source path, which decodes back to the source path. The copy waits exactly until the first settled reply. It succeeds exactly when that reply's status is `"success"`. Source and destination are probed in that order, unless the store raised, in which case nothing is probed and the exception stays inside the call |
| BaseReplace.DestinationSegments | run.py:49-51 | the destination's segments are the language id's segments, then every source segment after the first |
| BaseReplace.Destination | run.py:49-51 | definition of the rule: segment 0 of the slash-stripped source replaced by the language id, the segments joined with `/` |
| BaseReplace.ReplacesFirstSegment | run.py:50-51 | for a language id without `/`, the destination's segments are the source's with segment 0 replaced; the count is unchanged |
| BaseReplace.LastSegmentNotEmpty | run.py:49 | for two or more segments, the last one is non-empty and does not end in `/` |
| BaseReplace.DestinationUnpadded | run.py:49-51 | for a non-empty language id without `/`, the destination is non-empty and neither starts nor ends with `/` |
| BaseReplace.DestinationIdempotent | run.py:49-51 | applying the rule to its own output with the same language id gives that output back |
| BaseReplace.ProcessFiles | run.py:43-57 | `process_files` under this rule: each line's request in order, stopping at the first malformed line |
| BaseReplace.CopyBlob | run.py:18-41 | the URL starts with the account's blob endpoint and the container, and what follows decodes back to the source path. There is no polling: the reported status is the reply to the copy start. The destination is probed unless the store raised |
| SiblingFolder.BaseFolder | draft6.py:24 | the base holds no `/`, is a prefix of the source, and is followed by `/` when shorter than it; a source starting with `/` has an empty base |
| SiblingFolder.Matches | draft6.py:27 | an entry is a match exactly when it is in the listing and starts with the prefix; there are never more matches than entries |
| SiblingFolder.MatchesAppend | draft6.py:27 | the matches of a concatenated listing are the matches of each part, in listing order |
| SiblingFolder.FirstMatch | draft6.py:27-31 | the first match is the earliest listing entry with the prefix |
| SiblingFolder.SearchDestination | draft6.py:22-34 | nothing is found exactly when no entry starts with `base/target/`; otherwise the destination is the first such entry, `/`, and the source's basename |
| SiblingFolder.DestinationShape | draft6.py:31 | the destination starts with `base/target/` and ends with `/` plus the basename; a match ending in `/` puts `//` before the basename |
| SiblingFolder.FolderEntryDoublesSlash | draft6.py:24-31 | when the first match is the folder entry `base/target/` itself, the destination is `base/target//file` |
| SiblingFolder.RouteOf | draft6.py:61-64 | a blank line is skipped; a non-blank line without exactly two pieces raises; otherwise both pieces are whitespace-stripped, a missing target is reported, and a copy goes to the searched destination |
| SiblingFolder.Outcome | draft6.py:29-34 | definition of a routed line's step: skip, raise, report the missing target, or poll the copy and raise when the store raised |
| SiblingFolder.LineStep | draft6.py:61-64 | definition of one line's step: its route followed by its outcome |
| SiblingFolder.CopyBlob | draft6.py:36-55 | the copy waits exactly until the first settled reply, and succeeds exactly when that reply's status is `"success"` |
| SiblingFolder.ProcessSourceFile | draft6.py:57-68 | each line's step in order, until the first line that raises (a malformed line or a copy that raised); that line stops the run |
| SiblingFolder.RouteLines | draft6.py:61-64 | the line loop records each line's step in order and stops at the first line that raises |
| PairedJoin.PathJoin | main.py:45 | for two arguments: an absolute second argument replaces the first; otherwise the result starts with the first, ends with the second, and has one `/` between them unless the first is empty or ends with `/` |
| PairedJoin.FullDestinationShape | main.py:45 | the destination is the folder, then a `/` if one is needed, then the source's basename; the folder is never dropped |
| PairedJoin.FullDestination | main.py:45 | definition: the folder joined with the source's basename |
| PairedJoin.PairRequest | main.py:43-45 | definition of one pair's copy: both lines whitespace-stripped, the source copied to the folder joined with its basename |
| PairedJoin.FullDestinationKeepsName | main.py:45 | the destination's basename is the source's basename |
| PairedJoin.ProcessFiles | main.py:39-52 | the lines are paired as `zip` pairs them, up to the shorter file; each pair gives the copy of the stripped source to the stripped folder joined with the basename |
| PairedJoin.ZipLines | main.py:42-47 | one result per pair of lines, in order, as many as the shorter file has lines |
| PairedJoin.CopyBlob | main.py:19-37 | the URL starts with the account's blob endpoint and the source container, and what follows decodes back to the source path. The status reported is the reply to the copy start. There is no polling and no probe; an exception stays inside the call |
| BlobTree.Lookup | draft5.py:27 | gives the first entry with the key, and nothing only when no entry has it |
| BlobTree.LookupAt | draft5.py:27 | the first entry with the key is the one found |
| BlobTree.LookupSameKeys | draft5.py:27 | a level whose leading keys are unchanged finds an existing key at the same place |
| BlobTree.InsertHasPath | draft5.py:25-27 | after a name is inserted, its segments form a chain of nested keys from the root |
| BlobTree.InsertExisting | draft5.py:26-27 | inserting a chain that is already present changes nothing |
| BlobTree.InsertKeys | draft5.py:27 | the root keys keep their order; a new first segment is appended after them |
| BlobTree.InsertKeepsPaths | draft5.py:26-27 | every chain present before an insertion is still present after it |
| BlobTree.InsertOnlyAddsChain | draft5.py:26-27 | the only chains an insertion adds are prefixes of the inserted name |
| BlobTree.InsertValid | draft5.py:27 | every level stays a dictionary, with each key once |
| BlobTree.Insert | draft5.py:24-27 | definition of one name's insertion: follow its segments from the root, appending a missing key with an empty level, as `setdefault` does |
| BlobTree.InsertAll | draft5.py:23-27 | definition of the builder: the chains inserted one after another, in listing order |
| BlobTree.InsertExtends | draft5.py:26-27 | insertion keeps every level's keys in place and in order; new keys come only after them |
| BlobTree.InsertAllExtends | draft5.py:23-27 | keys are kept in first-insertion order: the tree after the first j names is, level by level, the leading part of the tree built from all of them |
| BlobTree.ExtendsTrans | draft5.py:23-27 | growing a tree without reordering, twice, grows it without reordering |
| BlobTree.RenderEntriesAppend | draft5.py:32-34 | rendering two runs of entries gives the first run's lines, then the second's |
| BlobTree.Render | draft5.py:31-34 | definition of `write_tree`'s output: for each key in order, its line, then its sub-level two spaces further in |
| BlobTree.RenderEntries | draft5.py:32-34 | the same definition for one level's entries |
| BlobTree.RenderIsPreOrder | draft5.py:31-34 | the output has one line per node, in pre-order; a node at depth d is written as 2(d-1) spaces, its key, then `/` and a newline |
| BlobTree.RenderEntriesIsPreOrder | draft5.py:31-34 | the same statement for one level's entries at any indent |
| BlobTree.PathsExist | draft5.py:31-34 | every written line stands for a node of the tree |
| BlobTree.PathsOfExist | draft5.py:31-34 | the same statement for one level's entries |
| BlobTree.PathsComplete | draft5.py:31-34 | every node gets a line |
| BlobTree.PathsOfComplete | draft5.py:31-34 | the same statement for one level's entries |
| BlobTree.TrailingSlashLine | draft5.py:24-33 | a name ending in `/` gets an empty last segment, so the output holds an indented line that is `/` alone |
| BlobTree.SplitTrailingSlash | draft5.py:24 | splitting `name + "/"` gives the pieces of `name` and then one empty piece |
| BlobTree.WriteTree | draft5.py:31-34 | `write_tree` appends exactly the pre-order rendering of the level to what was written before |
| BlobTree.BuildTree | draft5.py:23-27 | the insertion loop builds exactly the in-order insertion of the chains (`BlobTree.InsertAll`). That tree is a dictionary at every level, holds every chain, and holds no chain that is not a prefix of one |
| BlobTree.GenerateDirectoryTree | draft5.py:14-36 | the tree is the listing-order insertion of the split names, so keys come in first-insertion order. It holds exactly the chains of the names and their prefixes, each level a dictionary. The output is the pre-order rendering of that tree from indent 0 |

## Left out

- The storage service itself is not modelled. Client construction, `start_copy_from_url`, `get_blob_properties` and `list_blobs` are inputs: sequences of replies, probe booleans, and a listing.
- The SDK's own URL for a blob is not modelled. `draft6.py` copies from `src_blob.url`, which the SDK builds, so its copy takes no URL.
- Configuration from environment variables, opening and reading files, and the output file of `draft5.py` are not modelled. Lines arrive as a sequence of strings, and the tree's output is a sequence of lines.
- The two seconds of sleep between polls are not modelled.
- The messages printed are not modelled: their text, icons, and the capitalised status.
- `FileNotFoundError` is not modelled at all: the model is given the lines of files that exist. The `aborted` flag stands for the generic `except Exception` around the line loop. In one.py and run.py a malformed line reaches it. In draft6.py a malformed line or a copy that raises reaches it. In main.py nothing in the loop reaches it, since `copy_blob` catches its own exceptions.
- `Copy.Poll` and the polling copies require `Settles`: the store eventually answers with a status other than `pending`/`in_progress`. `SiblingFolder.ProcessSourceFile` requires it only for lines that start a copy. The Python loop has no bound, and without this it may not terminate.
- `Url.Quote` requires an ASCII path. `quote` encodes non-ASCII characters as UTF-8 bytes first, and that encoding is not modelled. Every member that builds a source URL inherits this precondition: `Url.SourceUrl`, `CrossBaseMove.CopyBlob`, `BaseReplace.CopyBlob` and `PairedJoin.CopyBlob`.
- The nested dictionary of `draft5.py` is modelled as a value: a tree of ordered entries. Python's in-place updates through `current_level` aliases are not modelled. Insertion order is kept the way Python dicts keep it (`BlobTree.InsertAllExtends`).
- Three line loops take the per-line handling as a function parameter: `Manifest.RunLines`, `SiblingFolder.RouteLines` and `PairedJoin.ZipLines`. The scripts write the same handling inline. `BlobTree.BuildTree` instead takes chains that are already split: `BlobTree.SplitNames` does draft5.py's `split('/')` for every name before the loop, where the script splits each name inside it.
- Python's `str.strip()` is modelled with the character set for which `str.isspace()` holds. Nothing else about Unicode is modelled.
