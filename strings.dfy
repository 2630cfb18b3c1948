/**
 * The handful of Python string operations the copy scripts are built from:
 * `str.split(sep)`, `sep.join(parts)`, `str.strip(chars)`, `str.startswith`
 * and `os.path.basename`, stated on `seq<char>`.
 */
module Strings {

  datatype Option<T> = None | Some(value: T)

  /** The characters for which Python's `str.isspace()` holds; `str.strip()`
      with no argument removes these. */
  const Whitespace: set<char> := {
    '\t', '\n', '\U{0B}', '\U{0C}', '\r', '\U{1C}', '\U{1D}', '\U{1E}', '\U{1F}', ' ',
    '\U{85}', '\U{A0}', '\U{1680}',
    '\U{2000}', '\U{2001}', '\U{2002}', '\U{2003}', '\U{2004}', '\U{2005}',
    '\U{2006}', '\U{2007}', '\U{2008}', '\U{2009}', '\U{200A}',
    '\U{2028}', '\U{2029}', '\U{202F}', '\U{205F}', '\U{3000}'
  }

  predicate StartsWith(s: string, prefix: string)
  {
    |prefix| <= |s| && s[..|prefix|] == prefix
  }

  predicate EndsWith(s: string, suffix: string)
  {
    |suffix| <= |s| && s[|s| - |suffix|..] == suffix
  }

  /** `sep` occurs in `s` starting at index `i`. */
  predicate OccursAt(s: string, sep: string, i: nat)
  {
    i + |sep| <= |s| && s[i..i + |sep|] == sep
  }

  /** No occurrence of `sep` anywhere in `s`. */
  predicate Free(s: string, sep: string)
  {
    forall j: nat :: j < |s| ==> !OccursAt(s, sep, j)
  }

  lemma OccursAtTail(s: string, sep: string, j: nat)
    requires |s| > 0
    ensures OccursAt(s, sep, j + 1) <==> OccursAt(s[1..], sep, j)
  {
    if j + 1 + |sep| <= |s| {
      assert s[1..][j..j + |sep|] == s[j + 1..j + 1 + |sep|];
    }
  }

  /** Index of the first occurrence of `sep` in `s` (Python's `str.find`);
      `FindFirst` shows that it is the first. */
  function Find(s: string, sep: string): (r: Option<nat>)
    requires sep != []
    ensures r.Some? ==> OccursAt(s, sep, r.value)
    decreases |s|
  {
    if |s| < |sep| then None
    else if s[..|sep|] == sep then Some(0)
    else
      var rest := Find(s[1..], sep);
      if rest.None? then None
      else
        OccursAtTail(s, sep, rest.value);
        Some(rest.value + 1)
  }

  /** `Find` gives the first occurrence, and none only when there is none. */
  lemma {:induction false} FindFirst(s: string, sep: string)
    requires sep != []
    ensures var r := Find(s, sep);
      && (r.Some? ==> forall j: nat :: j < r.value ==> !OccursAt(s, sep, j))
      && (r.None? ==> Free(s, sep))
    decreases |s|
  {
    if |s| >= |sep| && s[..|sep|] != sep {
      FindFirst(s[1..], sep);
      var r := Find(s, sep);
      forall j: nat | (r.Some? && 0 < j < r.value) || (r.None? && 0 < j < |s|)
        ensures !OccursAt(s, sep, j)
      {
        OccursAtTail(s, sep, j - 1);
      }
    } else if |s| < |sep| {
      forall j: nat | j < |s| ensures !OccursAt(s, sep, j) { }
    }
  }

  /** Python's `sep.join(parts)`. */
  function Join(parts: seq<string>, sep: string): string
  {
    if |parts| == 0 then []
    else if |parts| == 1 then parts[0]
    else parts[0] + sep + Join(parts[1..], sep)
  }

  /** Python's `s.split(sep)` for a non-empty separator: the pieces between
      the non-overlapping occurrences of `sep`, scanned left to right. Joining
      them with `sep` gives back `s`; `SplitPiecesFree` shows that no piece
      contains `sep`. */
  function Split(s: string, sep: string): (parts: seq<string>)
    requires sep != []
    ensures |parts| >= 1
    ensures Join(parts, sep) == s
    decreases |s|
  {
    var f := Find(s, sep);
    if f.None? then [s]
    else
      var i := f.value;
      var head, tail := s[..i], s[i + |sep|..];
      var rest := Split(tail, sep);
      Reassemble(s, i, |sep|);
      assert ([head] + rest)[1..] == rest;
      assert Join([head] + rest, sep) == head + sep + Join(rest, sep);
      [head] + rest
  }

  /** When `s` splits into two or more pieces, the first piece ends where
      the first occurrence of `sep` begins. */
  lemma SplitFirstCut(s: string, sep: string)
    requires sep != [] && |Split(s, sep)| >= 2
    ensures OccursAt(s, sep, |Split(s, sep)[0]|)
    ensures forall j: nat :: j < |Split(s, sep)[0]| ==> !OccursAt(s, sep, j)
  {
    FindFirst(s, sep);
    var f := Find(s, sep);
    assert f.Some?;
    assert Split(s, sep)[0] == s[..f.value];
  }

  lemma Reassemble(s: string, i: nat, n: nat)
    requires i + n <= |s|
    ensures s == s[..i] + s[i..i + n] + s[i + n..]
  {
  }

  /** No piece of a split contains the separator. */
  lemma {:induction false} SplitPiecesFree(s: string, sep: string)
    requires sep != []
    ensures forall k :: 0 <= k < |Split(s, sep)| ==> Free(Split(s, sep)[k], sep)
    decreases |s|
  {
    var f := Find(s, sep);
    FindFirst(s, sep);
    if f.Some? {
      var i := f.value;
      var head, tail := s[..i], s[i + |sep|..];
      SplitPiecesFree(tail, sep);
      assert Free(head, sep) by {
        forall j: nat | j < |head| ensures !OccursAt(head, sep, j) {
          assert !OccursAt(s, sep, j);
          if j + |sep| <= |head| {
            assert head[j..j + |sep|] == s[j..j + |sep|];
          }
        }
      }
    }
  }

  /** Python's `s.strip(cs)` in two halves: drop leading, then trailing,
      characters that belong to `cs`. */
  function TrimStart(s: string, cs: set<char>): (r: string)
    ensures |r| <= |s| && r == s[|s| - |r|..]
    ensures r != [] ==> r[0] !in cs
    decreases |s|
  {
    if |s| > 0 && s[0] in cs then TrimStart(s[1..], cs) else s
  }

  function TrimEnd(s: string, cs: set<char>): (r: string)
    ensures |r| <= |s| && r == s[..|r|]
    ensures r != [] ==> r[|r| - 1] !in cs
    decreases |s|
  {
    if |s| > 0 && s[|s| - 1] in cs then TrimEnd(s[..|s| - 1], cs) else s
  }

  function Strip(s: string, cs: set<char>): string
  {
    TrimEnd(TrimStart(s, cs), cs)
  }

  /** Python's `os.path.basename(p)`: the text after the last `/`. */
  function Basename(p: string): string
  {
    var parts := Split(p, "/");
    parts[|parts| - 1]
  }

  // ---------------------------------------------------------------------
  // Strip

  /** What `TrimStart` and `TrimEnd` drop are characters of `cs`. */
  lemma {:induction false} TrimStartDrops(s: string, cs: set<char>)
    ensures forall k :: 0 <= k < |s| - |TrimStart(s, cs)| ==> s[k] in cs
    decreases |s|
  {
    if |s| > 0 && s[0] in cs {
      TrimStartDrops(s[1..], cs);
      assert forall k :: 1 <= k < |s| ==> s[k] == s[1..][k - 1];
    }
  }

  lemma {:induction false} TrimEndDrops(s: string, cs: set<char>)
    ensures forall k :: |TrimEnd(s, cs)| <= k < |s| ==> s[k] in cs
    decreases |s|
  {
    if |s| > 0 && s[|s| - 1] in cs {
      TrimEndDrops(s[..|s| - 1], cs);
    }
  }

  /** Every character of `s` outside `s[i..j]` belongs to `cs`. */
  predicate Padded(s: string, cs: set<char>, i: nat, j: nat)
  {
    i <= j <= |s|
    && (forall k :: 0 <= k < i ==> s[k] in cs)
    && (forall k :: j <= k < |s| ==> s[k] in cs)
  }

  /** `Strip` removes exactly a run of `cs` characters at each end: what is
      left is a contiguous piece of the input. */
  lemma StripShape(s: string, cs: set<char>)
    ensures exists i: nat, j: nat :: Padded(s, cs, i, j) && Strip(s, cs) == s[i..j]
  {
    var t := TrimStart(s, cs);
    var r := TrimEnd(t, cs);
    var i := |s| - |t|;
    var j := i + |r|;
    TrimStartDrops(s, cs);
    TrimEndDrops(t, cs);
    assert r == s[i..j] by {
      assert t == s[i..];
      assert r == t[..|r|];
    }
    forall k | j <= k < |s| ensures s[k] in cs {
      assert s[k] == t[k - i];
    }
    assert Padded(s, cs, i, j);
  }

  /** A join of two pieces is the first, the separator, and the second. */
  lemma JoinTwo(parts: seq<string>, sep: string)
    requires |parts| == 2
    ensures Join(parts, sep) == parts[0] + sep + parts[1]
  {
    assert parts[1..] == [parts[1]];
  }

  /** Every character of `q` belongs to `cs`. */
  predicate AllIn(q: string, cs: set<char>)
  {
    forall k :: 0 <= k < |q| ==> q[k] in cs
  }

  /** `s` is `r` between two runs of `cs` characters. */
  predicate Wraps(s: string, q1: string, r: string, q2: string, cs: set<char>)
  {
    AllIn(q1, cs) && AllIn(q2, cs) && s == q1 + r + q2
  }

  /** A string is what `Strip` leaves of it, between the two runs of `cs`
      characters it removed. */
  lemma StripWraps(s: string, cs: set<char>)
    ensures exists q1: string, q2: string :: Wraps(s, q1, Strip(s, cs), q2, cs)
  {
    StripShape(s, cs);
    var i: nat, j: nat :| Padded(s, cs, i, j) && Strip(s, cs) == s[i..j];
    var q1, q2 := s[..i], s[j..];
    assert AllIn(q1, cs) by {
      forall k | 0 <= k < |q1| ensures q1[k] in cs {
        assert q1[k] == s[k];
      }
    }
    assert AllIn(q2, cs) by {
      forall k | 0 <= k < |q2| ensures q2[k] in cs {
        assert q2[k] == s[j + k];
      }
    }
    Reassemble(s, i, j - i);
    assert Wraps(s, q1, Strip(s, cs), q2, cs);
  }

  /** What `Strip` leaves neither starts nor ends with a character of `cs`. */
  lemma StripEnds(s: string, cs: set<char>)
    ensures var r := Strip(s, cs);
      r != [] ==> r[0] !in cs && r[|r| - 1] !in cs
  {
    var t := TrimStart(s, cs);
    var r := TrimEnd(t, cs);
    if r != [] {
      assert r[0] == t[0];
    }
  }

  lemma {:induction false} TrimStartOfCs(a: string, x: string, cs: set<char>)
    requires forall k :: 0 <= k < |a| ==> a[k] in cs
    ensures TrimStart(a + x, cs) == TrimStart(x, cs)
    decreases |a|
  {
    if a != [] {
      assert (a + x)[0] == a[0] && a[0] in cs;
      assert (a + x)[1..] == a[1..] + x;
      TrimStartOfCs(a[1..], x, cs);
      assert TrimStart(a + x, cs) == TrimStart((a + x)[1..], cs);
    } else {
      assert a + x == x;
    }
  }

  lemma {:induction false} TrimEndOfCs(x: string, b: string, cs: set<char>)
    requires forall k :: 0 <= k < |b| ==> b[k] in cs
    ensures TrimEnd(x + b, cs) == TrimEnd(x, cs)
    decreases |b|
  {
    if b != [] {
      assert (x + b)[|x + b| - 1] == b[|b| - 1] && b[|b| - 1] in cs;
      assert (x + b)[..|x + b| - 1] == x + b[..|b| - 1];
      TrimEndOfCs(x, b[..|b| - 1], cs);
      assert TrimEnd(x + b, cs) == TrimEnd((x + b)[..|x + b| - 1], cs);
    } else {
      assert x + b == x;
    }
  }

  lemma {:induction false} TrimStartAppend(s: string, b: string, cs: set<char>)
    ensures TrimStart(s, cs) != [] ==> TrimStart(s + b, cs) == TrimStart(s, cs) + b
    ensures TrimStart(s, cs) == [] ==> TrimStart(s + b, cs) == TrimStart(b, cs)
    decreases |s|
  {
    if s != [] && s[0] in cs {
      assert (s + b)[0] == s[0];
      assert (s + b)[1..] == s[1..] + b;
      TrimStartAppend(s[1..], b, cs);
      assert TrimStart(s + b, cs) == TrimStart((s + b)[1..], cs);
    } else if s != [] {
      assert (s + b)[0] == s[0];
    } else {
      assert s + b == b;
    }
  }

  /** Characters of `cs` added around a string do not change what `Strip`
      leaves: `Strip("/a/b/", {'/'}) == Strip("a/b", {'/'})`. */
  lemma StripPadding(a: string, s: string, b: string, cs: set<char>)
    requires forall k :: 0 <= k < |a| ==> a[k] in cs
    requires forall k :: 0 <= k < |b| ==> b[k] in cs
    ensures Strip(a + s + b, cs) == Strip(s, cs)
  {
    assert a + s + b == a + (s + b);
    TrimStartOfCs(a, s + b, cs);
    TrimStartAppend(s, b, cs);
    if TrimStart(s, cs) != [] {
      TrimEndOfCs(TrimStart(s, cs), b, cs);
    } else {
      assert TrimStart(b, cs) == [];
    }
  }

  /** A string made only of `cs` characters strips to nothing. */
  lemma StripAllOfCs(s: string, cs: set<char>)
    requires forall k :: 0 <= k < |s| ==> s[k] in cs
    ensures Strip(s, cs) == []
  {
    TrimStartOfCs(s, [], cs);
    assert s + [] == s;
  }

  /** Splitting the empty string gives one empty piece. */
  lemma SplitEmpty(sep: string)
    requires sep != []
    ensures Split([], sep) == [[]]
  {
  }

  /** A string that neither starts nor ends with a character of `cs` is left
      as it is. */
  lemma StripUnpadded(s: string, cs: set<char>)
    requires s != [] ==> s[0] !in cs && s[|s| - 1] !in cs
    ensures Strip(s, cs) == s
  {
  }

  // ---------------------------------------------------------------------
  // Split and Join on a one-character separator

  lemma OccursAtChar(s: string, c: char, j: nat)
    ensures OccursAt(s, [c], j) <==> j < |s| && s[j] == c
  {
    if j < |s| {
      assert s[j..j + 1] == [s[j]];
    }
  }

  lemma FreeChar(s: string, c: char)
    ensures Free(s, [c]) <==> c !in s
  {
    forall j: nat ensures OccursAt(s, [c], j) <==> j < |s| && s[j] == c {
      OccursAtChar(s, c, j);
    }
  }

  /** The first occurrence of a one-character separator is its first
      position. */
  lemma FindChar(s: string, c: char, i: nat)
    requires i < |s| && s[i] == c
    requires forall j :: 0 <= j < i ==> s[j] != c
    ensures Find(s, [c]) == Some(i)
  {
    OccursAtChar(s, c, i);
    FindFirst(s, [c]);
    var f := Find(s, [c]);
    if f.Some? {
      OccursAtChar(s, c, f.value);
    }
  }

  /** A piece without the separator, the separator, and the rest: the
      piece is the first piece of the split. */
  lemma SplitCons(head: string, c: char, tail: string)
    requires c !in head
    ensures Split(head + [c] + tail, [c]) == [head] + Split(tail, [c])
  {
    var s := head + [c] + tail;
    assert forall j :: 0 <= j < |head| ==> s[j] == head[j];
    FindChar(s, c, |head|);
    assert s[..|head|] == head;
    assert s[|head| + 1..] == tail;
  }

  /** Splitting `a + c + b` at the one-character separator `c` splits the two
      sides separately. */
  lemma {:induction false} SplitConcat(a: string, c: char, b: string)
    ensures Split(a + [c] + b, [c]) == Split(a, [c]) + Split(b, [c])
    decreases |a|
  {
    if c in a {
      var i := FirstIndex(a, c);
      var head, rest := a[..i], a[i + 1..];
      var more := rest + [c] + b;
      assert c !in head;
      assert a == head + [c] + rest;
      assert a + [c] + b == head + [c] + more;
      SplitCons(head, c, rest);
      SplitCons(head, c, more);
      SplitConcat(rest, c, b);
      ConsAssoc(head, Split(rest, [c]), Split(b, [c]));
    } else {
      SplitCons(a, c, b);
      SplitFree(a, c);
    }
  }

  lemma ConsAssoc(h: string, p: seq<string>, q: seq<string>)
    ensures [h] + (p + q) == ([h] + p) + q
  {
  }

  /** The position of the first `c` in a string that contains one. */
  function FirstIndex(s: string, c: char): (i: nat)
    requires c in s
    ensures i < |s| && s[i] == c
    ensures forall j :: 0 <= j < i ==> s[j] != c
  {
    if s[0] == c then 0 else FirstIndex(s[1..], c) + 1
  }

  /** A string without the separator is a single piece. */
  lemma SplitFree(s: string, c: char)
    requires c !in s
    ensures Split(s, [c]) == [s]
  {
    FreeChar(s, c);
  }

  /** Joining pieces that contain no `c` and splitting again at `c` gives the
      pieces back. */
  lemma {:induction false} SplitJoin(parts: seq<string>, c: char)
    requires |parts| >= 1
    requires forall k :: 0 <= k < |parts| ==> c !in parts[k]
    ensures Split(Join(parts, [c]), [c]) == parts
    decreases |parts|
  {
    if |parts| == 1 {
      SplitFree(parts[0], c);
    } else {
      SplitConcat(parts[0], c, Join(parts[1..], [c]));
      SplitFree(parts[0], c);
      SplitJoin(parts[1..], c);
      assert parts == [parts[0]] + parts[1..];
    }
  }

  /** The pieces of a split at a one-character separator contain no
      separator. */
  lemma SplitPiecesChar(s: string, c: char)
    ensures forall k :: 0 <= k < |Split(s, [c])| ==> c !in Split(s, [c])[k]
  {
    var parts := Split(s, [c]);
    SplitPiecesFree(s, [c]);
    forall k | 0 <= k < |parts| ensures c !in parts[k] {
      FreeChar(parts[k], c);
    }
  }

  /** A join of two or more pieces ends with the separator and the last
      piece. */
  lemma {:induction false} JoinLast(parts: seq<string>, sep: string)
    requires |parts| >= 2
    ensures Join(parts, sep) == Join(parts[..|parts| - 1], sep) + sep + parts[|parts| - 1]
    decreases |parts|
  {
    if |parts| > 2 {
      JoinLast(parts[1..], sep);
      assert parts[1..][..|parts| - 2] == parts[..|parts| - 1][1..];
    }
  }

  /** A string ends with its basename, which holds no `/`, and the text
      before the basename is empty or ends with `/`. */
  lemma BasenameShape(p: string)
    ensures '/' !in Basename(p)
    ensures EndsWith(p, Basename(p))
    ensures |Basename(p)| < |p| ==> p[|p| - |Basename(p)| - 1] == '/'
  {
    var parts := Split(p, "/");
    SplitPiecesChar(p, '/');
    var b := parts[|parts| - 1];
    if |parts| >= 2 {
      JoinLast(parts, "/");
      var front := Join(parts[..|parts| - 1], "/");
      assert p == front + "/" + b;
      assert p[|p| - |b|..] == b;
      assert p[|p| - |b| - 1] == '/';
    } else {
      assert p == b;
    }
  }

  /** A string starts with the first piece of its split at `/`, which holds
      no `/`; when more follows, the next character is `/`. */
  lemma SplitHead(p: string)
    ensures '/' !in Split(p, "/")[0]
    ensures StartsWith(p, Split(p, "/")[0])
    ensures |Split(p, "/")[0]| < |p| ==> p[|Split(p, "/")[0]|] == '/'
  {
    var parts := Split(p, "/");
    SplitPiecesChar(p, '/');
    if |parts| >= 2 {
      assert p == parts[0] + "/" + Join(parts[1..], "/");
      assert p[..|parts[0]|] == parts[0];
    } else {
      assert p == parts[0];
    }
  }
}
