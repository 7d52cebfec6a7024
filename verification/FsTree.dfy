/**
 The tree of the guest filesystem (`src/fs.rs`). Resolved guest paths and host paths are sequences of
 components; turning a path string into components is not part of this model.
 */
module FsTree {
  import opened Wrappers

  type Path = seq<string>

  datatype FileLocation = HostFile(path: Path) | IpaFile(index: nat) | ResourceFile(name: string)

  datatype FsNode =
    | File(location: FileLocation, writeable: bool)
    | Directory(children: map<string, FsNode>, writeableAt: Option<Path>)

  function Lookup(node: FsNode, p: Path): Option<FsNode>
    decreases |p|
  {
    if p == [] then Some(node)
    else if node.File? || p[0] !in node.children then None
    else Lookup(node.children[p[0]], p[1..])
  }

  predicate Exists(node: FsNode, p: Path) {
    Lookup(node, p).Some?
  }

  predicate IsDirectory(node: FsNode, p: Path) {
    Exists(node, p) && Lookup(node, p).value.Directory?
  }

  lemma {:induction false} LookupConcat(node: FsNode, p: Path, q: Path)
    ensures Lookup(node, p + q) == if Exists(node, p) then Lookup(Lookup(node, p).value, q) else None
    decreases |p|
  {
    if p == [] {
      assert p + q == q;
    } else if node.Directory? && p[0] in node.children {
      assert (p + q)[1..] == p[1..] + q;
      LookupConcat(node.children[p[0]], p[1..], q);
    }
  }

  /** What lies above an existing node are directories that list it. */
  lemma AncestorsExist(node: FsNode, p: Path, i: nat)
    requires Exists(node, p) && i <= |p|
    ensures Exists(node, p[..i])
    ensures i < |p| ==> IsDirectory(node, p[..i]) && p[i] in Lookup(node, p[..i]).value.children
  {
    LookupConcat(node, p[..i], p[i..]);
    assert p[..i] + p[i..] == p;
  }

  lemma ChildLookup(node: FsNode, p: Path, k: string)
    ensures Exists(node, p + [k]) <==> IsDirectory(node, p) && k in Lookup(node, p).value.children
    ensures Exists(node, p + [k]) ==> Lookup(node, p + [k]).value == Lookup(node, p).value.children[k]
  {
    LookupConcat(node, p, [k]);
  }

  /** All relative paths below a node. */
  function Descendants(node: FsNode): set<Path> {
    if node.File? then {} else set k, p | k in node.children && p in {[]} + Descendants(node.children[k]) :: [k] + p
  }

  lemma {:induction false} DescendantsExist(node: FsNode, p: Path)
    ensures p in Descendants(node) <==> p != [] && Exists(node, p)
    decreases |p|
  {
    if p != [] && node.Directory? && p[0] in node.children {
      var child, rest := node.children[p[0]], p[1..];
      assert p == [p[0]] + rest;
      DescendantsExist(child, rest);
      assert rest in {[]} + Descendants(child) <==> Exists(child, rest);
      forall k, q | k in node.children && q in {[]} + Descendants(node.children[k]) && [k] + q == p
        ensures q == rest && k == p[0]
      {
        assert ([k] + q)[0] == k && ([k] + q)[1..] == q;
      }
    }
  }

  // ---------- The tree as the entries at its paths ----------

  datatype Entry = FileEntry(location: FileLocation, writeable: bool) | DirectoryEntry(writeableAt: Option<Path>)

  function EntryOf(node: FsNode): Entry {
    match node
    case File(location, writeable) => FileEntry(location, writeable)
    case Directory(_, writeableAt) => DirectoryEntry(writeableAt)
  }

  function At(node: FsNode, p: Path): Option<Entry> {
    if Exists(node, p) then Some(EntryOf(Lookup(node, p).value)) else None
  }

  lemma AtConcat(node: FsNode, p: Path, q: Path)
    ensures At(node, p + q) == if Exists(node, p) then At(Lookup(node, p).value, q) else None
  {
    LookupConcat(node, p, q);
  }

  /** A tree is determined by the entries at its paths. */
  lemma {:induction false} TreeIsItsEntries(a: FsNode, b: FsNode)
    requires forall p :: At(a, p) == At(b, p)
    ensures a == b
    decreases a
  {
    assert At(a, []) == At(b, []);
    if a.Directory? {
      forall k ensures k in a.children <==> k in b.children {
        assert At(a, [k]) == At(b, [k]);
        assert [] + [k] == [k];
        ChildLookup(a, [], k);
        ChildLookup(b, [], k);
      }
      forall k | k in a.children ensures a.children[k] == b.children[k] {
        forall p ensures At(a.children[k], p) == At(b.children[k], p) {
          assert At(a, [k] + p) == At(b, [k] + p);
        }
        TreeIsItsEntries(a.children[k], b.children[k]);
      }
      assert a.children == b.children;
    }
  }
}
