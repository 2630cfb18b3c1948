/**
 * The directory-tree utility (draft5.py): every blob name is split at `/`
 * and walked into a nested, insertion-ordered dictionary, creating missing
 * keys with an empty dictionary (`setdefault`); the dictionary is then
 * written out pre-order, one line per key, two spaces of indent per level,
 * each line being the key followed by `/` and a newline.
 */
module BlobTree {
  import opened Strings

  /** A level of the nested dictionary: its keys with their sub-levels, in
      insertion order. */
  datatype Tree = Tree(entries: seq<Entry>)
  datatype Entry = Entry(key: string, sub: Tree)

  function Keys(t: Tree): (ks: seq<string>)
    ensures |ks| == |t.entries|
    ensures forall i :: 0 <= i < |ks| ==> ks[i] == t.entries[i].key
  {
    seq(|t.entries|, i requires 0 <= i < |t.entries| => t.entries[i].key)
  }

  /** A dictionary: at every level each key appears once. */
  predicate Valid(t: Tree)
    decreases t
  {
    && (forall i, j :: 0 <= i < j < |t.entries| ==> t.entries[i].key != t.entries[j].key)
    && (forall i :: 0 <= i < |t.entries| ==> Valid(t.entries[i].sub))
  }

  /** Where `key` sits among the entries, if anywhere. */
  function Lookup(es: seq<Entry>, key: string): (r: Option<nat>)
    ensures r.Some? ==> r.value < |es| && es[r.value].key == key
    ensures r.Some? ==> forall j :: 0 <= j < r.value ==> es[j].key != key
    ensures r.None? ==> forall j :: 0 <= j < |es| ==> es[j].key != key
  {
    if es == [] then None
    else if es[0].key == key then Some(0)
    else match Lookup(es[1..], key)
      case None => None
      case Some(i) => Some(i + 1)
  }

  /** The chain of keys `path` leads from the root of `t` to some node. */
  predicate HasPath(t: Tree, path: seq<string>)
    decreases |path|
  {
    path == [] ||
    var i := Lookup(t.entries, path[0]);
    i.Some? && HasPath(t.entries[i.value].sub, path[1..])
  }

  /** The inner loop of the builder: follow `parts` from the root, calling
      `setdefault(part, {})` at each level, so a missing key is appended to
      its level with an empty sub-level. */
  function Insert(t: Tree, parts: seq<string>): Tree
    decreases |parts|
  {
    if parts == [] then t
    else match Lookup(t.entries, parts[0])
      case Some(i) =>
        Tree(t.entries[i := Entry(parts[0], Insert(t.entries[i].sub, parts[1..]))])
      case None =>
        Tree(t.entries + [Entry(parts[0], Insert(Tree([]), parts[1..]))])
  }

  predicate IsPrefix(p: seq<string>, q: seq<string>)
  {
    |p| <= |q| && q[..|p|] == p
  }

  /** The outer loop of the builder: the names' chains inserted one after
      another, in listing order. */
  function InsertAll(t: Tree, chains: seq<seq<string>>): Tree
    decreases |chains|
  {
    if chains == [] then t
    else Insert(InsertAll(t, chains[..|chains| - 1]), chains[|chains| - 1])
  }

  /** `u` grows `t` without reordering: at every level of `t`, the matching
      level of `u` starts with the same keys in the same order. */
  predicate Extends(t: Tree, u: Tree)
    decreases t
  {
    && |t.entries| <= |u.entries|
    && (forall i :: 0 <= i < |t.entries| ==> u.entries[i].key == t.entries[i].key)
    && (forall i :: 0 <= i < |t.entries| ==> Extends(t.entries[i].sub, u.entries[i].sub))
  }

  // ---------------------------------------------------------------------
  // Insertion

  /** After inserting a name its segments form a chain of nested keys from
      the root. */
  lemma {:induction false} InsertHasPath(t: Tree, parts: seq<string>)
    ensures HasPath(Insert(t, parts), parts)
    decreases |parts|
  {
    if parts != [] {
      var r := Insert(t, parts);
      match Lookup(t.entries, parts[0])
      case Some(i) =>
        InsertHasPath(t.entries[i].sub, parts[1..]);
        assert Lookup(r.entries, parts[0]) == Some(i) by {
          LookupSameKeys(t.entries, r.entries, parts[0]);
        }
      case None =>
        InsertHasPath(Tree([]), parts[1..]);
        var n := |t.entries|;
        assert Lookup(r.entries, parts[0]) == Some(n) by {
          LookupAt(r.entries, parts[0], n);
        }
    }
  }

  /** Inserting a name whose chain already exists changes nothing. */
  lemma {:induction false} InsertExisting(t: Tree, parts: seq<string>)
    requires HasPath(t, parts)
    ensures Insert(t, parts) == t
    decreases |parts|
  {
    if parts != [] {
      var i := Lookup(t.entries, parts[0]).value;
      InsertExisting(t.entries[i].sub, parts[1..]);
      assert t.entries[i] == Entry(parts[0], t.entries[i].sub);
      assert t.entries[i := t.entries[i]] == t.entries;
    }
  }

  /** Insertion never removes or reorders the keys of a level: the root keys
      stay as they were, and a first segment not yet present is appended. */
  lemma InsertKeys(t: Tree, parts: seq<string>)
    requires parts != []
    ensures Keys(Insert(t, parts)) ==
      if parts[0] in Keys(t) then Keys(t) else Keys(t) + [parts[0]]
  {
    var r := Insert(t, parts);
    match Lookup(t.entries, parts[0])
    case Some(i) =>
      assert parts[0] in Keys(t) by { assert Keys(t)[i] == parts[0]; }
      assert Keys(r) == Keys(t);
    case None =>
      assert parts[0] !in Keys(t) by {
        forall k | 0 <= k < |Keys(t)| ensures Keys(t)[k] != parts[0] { }
      }
      assert Keys(r) == Keys(t) + [parts[0]];
  }

  /** Every chain present before an insertion is still present after it. */
  lemma {:induction false} InsertKeepsPaths(t: Tree, parts: seq<string>, path: seq<string>)
    requires HasPath(t, path)
    ensures HasPath(Insert(t, parts), path)
    decreases |path|
  {
    if path != [] && parts != [] {
      var r := Insert(t, parts);
      var i := Lookup(t.entries, path[0]).value;
      LookupSameKeys(t.entries, r.entries, path[0]);
      match Lookup(t.entries, parts[0])
      case Some(k) =>
        if k == i {
          InsertKeepsPaths(t.entries[i].sub, parts[1..], path[1..]);
        }
      case None =>
        var n := |t.entries|;
        if path[0] != parts[0] {
          assert Lookup(r.entries, path[0]) == Some(i) by {
            LookupAt(r.entries, path[0], i);
          }
        }
    }
  }

  /** The only chains an insertion adds are prefixes of the inserted name. */
  lemma {:induction false} InsertOnlyAddsChain(t: Tree, parts: seq<string>, path: seq<string>)
    requires HasPath(Insert(t, parts), path)
    ensures HasPath(t, path) || IsPrefix(path, parts)
    decreases |path|
  {
    if path != [] && parts != [] {
      var r := Insert(t, parts);
      var i := Lookup(r.entries, path[0]).value;
      match Lookup(t.entries, parts[0])
      case Some(k) =>
        LookupSameKeys(t.entries, r.entries, path[0]);
        if k == i {
          InsertOnlyAddsChain(t.entries[i].sub, parts[1..], path[1..]);
          if IsPrefix(path[1..], parts[1..]) {
            assert parts[..|path|] == [parts[0]] + parts[1..][..|path| - 1];
            assert path == [path[0]] + path[1..];
          }
        }
      case None =>
        var n := |t.entries|;
        assert forall j :: 0 <= j < n ==> r.entries[j] == t.entries[j];
        if i < n {
          assert Lookup(t.entries, path[0]) == Some(i) by {
            LookupAt(t.entries, path[0], i);
          }
        } else {
          assert path[0] == parts[0];
          InsertOnlyAddsChain(Tree([]), parts[1..], path[1..]);
          assert parts[..|path|] == [parts[0]] + parts[1..][..|path| - 1];
          assert path == [path[0]] + path[1..];
        }
    }
  }

  /** Insertion keeps every level a dictionary: each key once. */
  lemma {:induction false} InsertValid(t: Tree, parts: seq<string>)
    requires Valid(t)
    ensures Valid(Insert(t, parts))
    decreases |parts|
  {
    if parts != [] {
      var r := Insert(t, parts);
      match Lookup(t.entries, parts[0])
      case Some(i) =>
        InsertValid(t.entries[i].sub, parts[1..]);
        assert forall k :: 0 <= k < |r.entries| ==> r.entries[k].key == t.entries[k].key;
        forall k | 0 <= k < |r.entries| ensures Valid(r.entries[k].sub) {
          if k != i { assert r.entries[k] == t.entries[k]; }
        }
      case None =>
        assert Valid(Tree([]));
        InsertValid(Tree([]), parts[1..]);
        var n := |t.entries|;
        forall k | 0 <= k < |r.entries| ensures Valid(r.entries[k].sub) {
          if k < n { assert r.entries[k] == t.entries[k]; }
        }
    }
  }

  lemma {:induction false} ExtendsRefl(t: Tree)
    ensures Extends(t, t)
    decreases t
  {
    forall i | 0 <= i < |t.entries| ensures Extends(t.entries[i].sub, t.entries[i].sub) {
      ExtendsRefl(t.entries[i].sub);
    }
  }

  lemma {:induction false} ExtendsTrans(a: Tree, b: Tree, c: Tree)
    requires Extends(a, b) && Extends(b, c)
    ensures Extends(a, c)
    decreases a
  {
    forall i | 0 <= i < |a.entries| ensures Extends(a.entries[i].sub, c.entries[i].sub) {
      ExtendsTrans(a.entries[i].sub, b.entries[i].sub, c.entries[i].sub);
    }
  }

  /** Insertion keeps the order of the keys at every level, not only the
      root: each level of the old tree is a prefix of the same level of the
      new one, so new keys only ever come after the existing ones. */
  lemma {:induction false} InsertExtends(t: Tree, parts: seq<string>)
    ensures Extends(t, Insert(t, parts))
    decreases |parts|
  {
    if parts == [] {
      ExtendsRefl(t);
    } else {
      var r := Insert(t, parts);
      match Lookup(t.entries, parts[0])
      case Some(i) =>
        forall k | 0 <= k < |t.entries| ensures Extends(t.entries[k].sub, r.entries[k].sub) {
          if k == i {
            InsertExtends(t.entries[i].sub, parts[1..]);
          } else {
            assert r.entries[k] == t.entries[k];
            ExtendsRefl(t.entries[k].sub);
          }
        }
      case None =>
        forall k | 0 <= k < |t.entries| ensures Extends(t.entries[k].sub, r.entries[k].sub) {
          assert r.entries[k] == t.entries[k];
          ExtendsRefl(t.entries[k].sub);
        }
    }
  }

  /** Keys are written in first-insertion order: whatever the tree holds
      after the first `j` names is, level by level, the leading part of the
      tree built from all of them. */
  lemma {:induction false} InsertAllExtends(t: Tree, chains: seq<seq<string>>, j: nat)
    requires j <= |chains|
    ensures Extends(InsertAll(t, chains[..j]), InsertAll(t, chains))
    decreases |chains|
  {
    if j == |chains| {
      assert chains[..j] == chains;
      ExtendsRefl(InsertAll(t, chains));
    } else {
      var init := chains[..|chains| - 1];
      assert chains[..j] == init[..j];
      InsertAllExtends(t, init, j);
      InsertExtends(InsertAll(t, init), chains[|chains| - 1]);
      ExtendsTrans(InsertAll(t, init[..j]), InsertAll(t, init), InsertAll(t, chains));
    }
  }

  lemma LookupAt(es: seq<Entry>, key: string, i: nat)
    requires i < |es| && es[i].key == key
    requires forall j :: 0 <= j < i ==> es[j].key != key
    ensures Lookup(es, key) == Some(i)
  {
  }

  lemma LookupSameKeys(es: seq<Entry>, fs: seq<Entry>, key: string)
    requires |es| <= |fs|
    requires forall k :: 0 <= k < |es| ==> fs[k].key == es[k].key
    requires Lookup(es, key).Some?
    ensures Lookup(fs, key) == Lookup(es, key)
  {
    LookupAt(fs, key, Lookup(es, key).value);
  }

  // ---------------------------------------------------------------------
  // Rendering

  function Spaces(n: nat): (s: string)
    ensures |s| == n && forall i :: 0 <= i < n ==> s[i] == ' '
  {
    seq(n, _ => ' ')
  }

  /** One written line: the indent, the key, `/` and a newline. */
  function Line(indent: nat, key: string): string
  {
    Spaces(indent) + key + "/\n"
  }

  /** `write_tree(level, indent)`: for each key in order, its line, then its
      sub-level two spaces further in. */
  function Render(t: Tree, indent: nat): seq<string>
    decreases t, 1
  {
    RenderEntries(t.entries, indent)
  }

  function RenderEntries(es: seq<Entry>, indent: nat): seq<string>
    decreases es, 0
  {
    if es == [] then []
    else [Line(indent, es[0].key)] + Render(es[0].sub, indent + 2) + RenderEntries(es[1..], indent)
  }

  /** The key chains of all nodes, in pre-order: a node, then everything
      below it, then its next sibling. */
  function Paths(t: Tree): seq<seq<string>>
    decreases t, 1
  {
    PathsOf(t.entries)
  }

  function PathsOf(es: seq<Entry>): seq<seq<string>>
    decreases es, 0
  {
    if es == [] then []
    else [[es[0].key]] + Under(es[0].key, Paths(es[0].sub)) + PathsOf(es[1..])
  }

  function Under(key: string, ps: seq<seq<string>>): (r: seq<seq<string>>)
    ensures |r| == |ps| && forall i :: 0 <= i < |ps| ==> r[i] == [key] + ps[i]
  {
    seq(|ps|, i requires 0 <= i < |ps| => [key] + ps[i])
  }

  /** The line a node at the end of `path` gets when the root level is
      written at `indent`: two more spaces for each level below the root. */
  function NodeLine(indent: nat, path: seq<string>): string
    requires path != []
  {
    Line(indent + 2 * (|path| - 1), path[|path| - 1])
  }

  lemma {:induction false} RenderEntriesAppend(a: seq<Entry>, b: seq<Entry>, indent: nat)
    ensures RenderEntries(a + b, indent) == RenderEntries(a, indent) + RenderEntries(b, indent)
  {
    if a != [] {
      assert (a + b)[1..] == a[1..] + b;
      RenderEntriesAppend(a[1..], b, indent);
    } else {
      assert a + b == b;
    }
  }

  /** The written output has one line per node, in the pre-order of `Paths`,
      and the line of a node at depth d is 2·d spaces further in than the
      root level, followed by the node's key and `/`. */
  lemma {:induction false} RenderIsPreOrder(t: Tree, indent: nat)
    ensures |Render(t, indent)| == |Paths(t)|
    ensures forall i :: 0 <= i < |Paths(t)| ==>
      Paths(t)[i] != [] && Render(t, indent)[i] == NodeLine(indent, Paths(t)[i])
    decreases t, 1
  {
    RenderEntriesIsPreOrder(t.entries, indent);
  }

  lemma {:induction false} RenderEntriesIsPreOrder(es: seq<Entry>, indent: nat)
    ensures |RenderEntries(es, indent)| == |PathsOf(es)|
    ensures forall i :: 0 <= i < |PathsOf(es)| ==>
      PathsOf(es)[i] != [] && RenderEntries(es, indent)[i] == NodeLine(indent, PathsOf(es)[i])
    decreases es, 0
  {
    if es != [] {
      var e := es[0];
      RenderIsPreOrder(e.sub, indent + 2);
      RenderEntriesIsPreOrder(es[1..], indent);
      var head := [Line(indent, e.key)];
      var mid := Render(e.sub, indent + 2);
      var rest := RenderEntries(es[1..], indent);
      var ph := [[e.key]];
      var pm := Under(e.key, Paths(e.sub));
      var pr := PathsOf(es[1..]);
      assert RenderEntries(es, indent) == head + mid + rest;
      assert PathsOf(es) == ph + pm + pr;
      forall i | 0 <= i < |PathsOf(es)|
        ensures PathsOf(es)[i] != [] && RenderEntries(es, indent)[i] == NodeLine(indent, PathsOf(es)[i])
      {
        if i == 0 {
        } else if i < 1 + |pm| {
          var p := Paths(e.sub)[i - 1];
          assert PathsOf(es)[i] == [e.key] + p;
          assert RenderEntries(es, indent)[i] == mid[i - 1];
          assert ([e.key] + p)[|p|] == p[|p| - 1];
        } else {
          assert PathsOf(es)[i] == pr[i - 1 - |pm|];
          assert RenderEntries(es, indent)[i] == rest[i - 1 - |mid|];
        }
      }
    }
  }

  /** Every line stands for a node of the tree. */
  lemma {:induction false} PathsExist(t: Tree)
    requires Valid(t)
    ensures forall p :: p in Paths(t) ==> p != [] && HasPath(t, p)
    decreases t, 1
  {
    PathsOfExist(t.entries);
  }

  lemma {:induction false} PathsOfExist(es: seq<Entry>)
    requires Valid(Tree(es))
    ensures forall p :: p in PathsOf(es) ==> p != [] && HasPath(Tree(es), p)
    decreases es, 0
  {
    if es != [] {
      var e := es[0];
      assert Valid(e.sub);
      PathsExist(e.sub);
      assert Valid(Tree(es[1..])) by {
        forall k | 0 <= k < |es[1..]| ensures Valid(es[1..][k].sub) {
          assert es[1..][k] == es[k + 1];
        }
      }
      PathsOfExist(es[1..]);
      forall p | p in PathsOf(es) ensures p != [] && HasPath(Tree(es), p) {
        if p == [e.key] {
          assert Lookup(es, e.key) == Some(0);
          assert HasPath(e.sub, []);
        } else if p in Under(e.key, Paths(e.sub)) {
          var i :| 0 <= i < |Paths(e.sub)| && p == [e.key] + Paths(e.sub)[i];
          assert Lookup(es, e.key) == Some(0);
          assert p[1..] == Paths(e.sub)[i];
        } else {
          assert p in PathsOf(es[1..]);
          assert HasPath(Tree(es[1..]), p);
          assert e.key != p[0] by {
            var j := Lookup(es[1..], p[0]).value;
            assert es[j + 1].key == p[0];
          }
          HasPathCons(e, es[1..], p);
        }
      }
    }
  }

  /** A chain of the later entries is a chain of the whole level when the
      first entry's key is different or both lead the same way. */
  lemma HasPathCons(e: Entry, es: seq<Entry>, p: seq<string>)
    requires p != [] && HasPath(Tree(es), p)
    requires e.key == p[0] ==> HasPath(e.sub, p[1..])
    ensures HasPath(Tree([e] + es), p)
  {
    var all := [e] + es;
    if e.key != p[0] {
      var i := Lookup(es, p[0]).value;
      LookupAt(all, p[0], i + 1);
    } else {
      LookupAt(all, p[0], 0);
    }
  }

  /** Every node gets a line. */
  lemma {:induction false} PathsComplete(t: Tree, p: seq<string>)
    requires p != [] && HasPath(t, p)
    ensures p in Paths(t)
    decreases t, 1
  {
    PathsOfComplete(t.entries, p);
  }

  lemma {:induction false} PathsOfComplete(es: seq<Entry>, p: seq<string>)
    requires p != [] && HasPath(Tree(es), p)
    ensures p in PathsOf(es)
    decreases es, 0
  {
    var i := Lookup(es, p[0]).value;
    var e := es[0];
    var head := [[e.key]] + Under(e.key, Paths(e.sub));
    assert PathsOf(es) == head + PathsOf(es[1..]);
    if i == 0 {
      if |p| == 1 {
        assert PathsOf(es)[0] == p;
      } else {
        PathsComplete(e.sub, p[1..]);
        var k :| 0 <= k < |Paths(e.sub)| && Paths(e.sub)[k] == p[1..];
        assert head[1 + k] == p;
        assert PathsOf(es)[1 + k] == p;
      }
    } else {
      assert Lookup(es[1..], p[0]) == Some(i - 1) by {
        LookupAt(es[1..], p[0], i - 1);
      }
      assert es[1..][i - 1] == es[i];
      PathsOfComplete(es[1..], p);
      var k :| 0 <= k < |PathsOf(es[1..])| && PathsOf(es[1..])[k] == p;
      assert PathsOf(es)[|head| + k] == p;
    }
  }

  /** A blob name that ends in `/` has an empty last segment, so it creates a
      node with an empty key, which is written as an indented `/` alone. */
  lemma TrailingSlashLine(t: Tree, name: string)
    ensures var parts := Split(name + "/", "/");
      && parts == Split(name, "/") + [""]
      && Line(2 * |Split(name, "/")|, "") == Spaces(2 * |Split(name, "/")|) + "/\n"
      && Line(2 * |Split(name, "/")|, "") in Render(Insert(t, parts), 0)
  {
    var parts := Split(name + "/", "/");
    SplitTrailingSlash(name);
    var r := Insert(t, parts);
    InsertHasPath(t, parts);
    PathsComplete(r, parts);
    RenderIsPreOrder(r, 0);
    var k :| 0 <= k < |Paths(r)| && Paths(r)[k] == parts;
    assert Render(r, 0)[k] == NodeLine(0, parts);
  }

  lemma SplitTrailingSlash(name: string)
    ensures Split(name + "/", "/") == Split(name, "/") + [""]
  {
    SplitConcat(name, '/', "");
    assert name + "/" + "" == name + "/";
    SplitFree("", '/');
  }

  // ---------------------------------------------------------------------
  // The builder and the writer, as the script runs them

  /** `write_tree`: append the lines of `level` to what the output file
      already holds. */
  method WriteTree(level: Tree, indent: nat, out: seq<string>) returns (written: seq<string>)
    ensures written == out + Render(level, indent)
    decreases level
  {
    written := out;
    var es := level.entries;
    for i := 0 to |es|
      invariant written == out + RenderEntries(es[..i], indent)
    {
      assert es[..i + 1] == es[..i] + [es[i]];
      RenderEntriesAppend(es[..i], [es[i]], indent);
      assert RenderEntries([es[i]], indent) == [Line(indent, es[i].key)] + Render(es[i].sub, indent + 2);
      written := written + [Line(indent, es[i].key)];
      assert es[i] in level.entries;
      written := WriteTree(es[i].sub, indent + 2, written);
    }
    assert es[..|es|] == es;
  }

  /** The names of the listing, each split at `/`. */
  function SplitNames(names: seq<string>): (chains: seq<seq<string>>)
    ensures |chains| == |names|
    ensures forall k :: 0 <= k < |names| ==> chains[k] == Split(names[k], "/")
  {
    seq(|names|, k requires 0 <= k < |names| => Split(names[k], "/"))
  }

  /** `generate_directory_tree`: insert every blob name of the listing, in
      listing order, then write the tree from indent 0. The tree is the one
      those insertions build; it is a dictionary at every level, holds the
      chain of every name, and holds no chain that is not a prefix of some
      name's chain; the output is its pre-order rendering. */
  method GenerateDirectoryTree(names: seq<string>) returns (tree: Tree, lines: seq<string>)
    ensures tree == InsertAll(Tree([]), SplitNames(names))
    ensures Valid(tree)
    ensures forall k :: 0 <= k < |names| ==> HasPath(tree, Split(names[k], "/"))
    ensures forall p :: p != [] && HasPath(tree, p) ==>
      exists k :: 0 <= k < |names| && IsPrefix(p, Split(names[k], "/"))
    ensures lines == Render(InsertAll(Tree([]), SplitNames(names)), 0)
  {
    var chains := SplitNames(names);
    tree := BuildTree(chains);
    forall k | 0 <= k < |names| ensures HasPath(tree, Split(names[k], "/")) {
      assert chains[k] == Split(names[k], "/");
    }
    forall p | p != [] && HasPath(tree, p)
      ensures exists k :: 0 <= k < |names| && IsPrefix(p, Split(names[k], "/"))
    {
      var k :| 0 <= k < |chains| && IsPrefix(p, chains[k]);
      assert chains[k] == Split(names[k], "/");
    }
    lines := WriteTree(tree, 0, []);
  }

  /** The insertion loop over the `/`-split names: the tree it builds is the
      in-order insertion of the chains, a dictionary at every level that
      holds every chain and nothing but their prefixes. */
  method BuildTree(chains: seq<seq<string>>) returns (tree: Tree)
    ensures tree == InsertAll(Tree([]), chains)
    ensures Valid(tree)
    ensures forall k :: 0 <= k < |chains| ==> HasPath(tree, chains[k])
    ensures forall p :: p != [] && HasPath(tree, p) ==>
      exists k :: 0 <= k < |chains| && IsPrefix(p, chains[k])
  {
    tree := Tree([]);
    for i := 0 to |chains|
      invariant tree == InsertAll(Tree([]), chains[..i])
      invariant Valid(tree)
      invariant forall k :: 0 <= k < i ==> HasPath(tree, chains[k])
      invariant forall p :: p != [] && HasPath(tree, p) ==>
        exists k :: 0 <= k < i && IsPrefix(p, chains[k])
    {
      var parts := chains[i];
      var next := Insert(tree, parts);
      assert chains[..i + 1][..i] == chains[..i];
      InsertValid(tree, parts);
      InsertHasPath(tree, parts);
      forall k | 0 <= k < i ensures HasPath(next, chains[k]) {
        InsertKeepsPaths(tree, parts, chains[k]);
      }
      forall p | p != [] && HasPath(next, p)
        ensures exists k :: 0 <= k < i + 1 && IsPrefix(p, chains[k])
      {
        InsertOnlyAddsChain(tree, parts, p);
      }
      tree := next;
    }
    assert chains[..|chains|] == chains;
  }
}
