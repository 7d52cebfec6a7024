/**
 Moving a node in the guest filesystem (`rename`, src/fs.rs:1376-1435) and rewriting the host paths inside
 it (`update_host_paths_recursively`, src/fs.rs:156-175).
 */
module FsRename {
  import opened Wrappers
  import opened FsTree

  // ---------- Host paths ----------

  /** `update_host_paths_recursively`. */
  function UpdateHostPaths(node: FsNode, hostPath: Path): FsNode {
    match node
    case File(HostFile(_), writeable) => File(HostFile(hostPath), writeable)
    case Directory(children, Some(_)) =>
      Directory(map k | k in children :: UpdateHostPaths(children[k], hostPath + [k]), Some(hostPath))
    case _ => node
  }

  /** Every directory above `p` is writeable. */
  predicate ReachedWriteably(node: FsNode, p: Path)
    decreases |p|
  {
    p == [] || (node.Directory? && node.writeableAt.Some? && p[0] in node.children
                && ReachedWriteably(node.children[p[0]], p[1..]))
  }

  function HostPathOf(e: Entry): Option<Path> {
    match e
    case FileEntry(HostFile(path), _) => Some(path)
    case DirectoryEntry(Some(path)) => Some(path)
    case _ => None
  }

  /** The entry with its host path, if it has one, replaced. */
  function Rehosted(e: Entry, hostPath: Path): Entry {
    match e
    case FileEntry(HostFile(_), writeable) => FileEntry(HostFile(hostPath), writeable)
    case DirectoryEntry(Some(_)) => DirectoryEntry(Some(hostPath))
    case _ => e
  }

  /** What `p` inside the node becomes when the node moves to `hostPath`. */
  function MovedEntry(node: FsNode, hostPath: Path, p: Path): Option<Entry> {
    if !Exists(node, p) then None
    else if ReachedWriteably(node, p) then Some(Rehosted(At(node, p).value, hostPath + p))
    else At(node, p)
  }

  /**
   Updating keeps the shape, the kinds and the writeability, and gives every node reached through writeable
   directories the new host path extended by its relative path; the rest keeps its host path.
   */
  lemma {:induction false} UpdatedAt(node: FsNode, hostPath: Path, p: Path)
    ensures At(UpdateHostPaths(node, hostPath), p) == MovedEntry(node, hostPath, p)
    ensures ReachedWriteably(UpdateHostPaths(node, hostPath), p) == ReachedWriteably(node, p)
    decreases |p|
  {
    if p == [] {
      assert hostPath + p == hostPath;
    } else if node.Directory? && node.writeableAt.Some? && p[0] in node.children {
      UpdatedAt(node.children[p[0]], hostPath + [p[0]], p[1..]);
      assert hostPath + [p[0]] + p[1..] == hostPath + p;
    }
  }

  lemma {:induction false} ReachedConcat(node: FsNode, p: Path, k: string)
    requires Exists(node, p)
    ensures ReachedWriteably(node, p + [k]) <==>
            (ReachedWriteably(node, p) && Exists(node, p + [k])
             && At(node, p).value.DirectoryEntry? && At(node, p).value.writeableAt.Some?)
    decreases |p|
  {
    ChildLookup(node, p, k);
    if p != [] {
      assert (p + [k])[1..] == p[1..] + [k];
      ReachedConcat(node.children[p[0]], p[1..], k);
      ChildLookup(node.children[p[0]], p[1..], k);
    }
  }

  // ---------- Taking out and putting in ----------

  /** The tree without the node at `p`. */
  function Remove(node: FsNode, p: Path): FsNode
    requires p != []
    decreases |p|
  {
    if node.File? || p[0] !in node.children then node
    else if |p| == 1 then node.(children := node.children - {p[0]})
    else node.(children := node.children[p[0] := Remove(node.children[p[0]], p[1..])])
  }

  /** The tree with `x` at `p`, in place of what was there. */
  function Insert(node: FsNode, p: Path, x: FsNode): FsNode
    requires p != []
    decreases |p|
  {
    if node.File? then node
    else if |p| == 1 then node.(children := node.children[p[0] := x])
    else if p[0] !in node.children then node
    else node.(children := node.children[p[0] := Insert(node.children[p[0]], p[1..], x)])
  }

  lemma {:induction false} RemovedAt(node: FsNode, p: Path, q: Path)
    requires p != []
    ensures At(Remove(node, p), q) == if p <= q then None else At(node, q)
    decreases |p|
  {
    if q != [] && node.Directory? && p[0] in node.children {
      if |p| > 1 && q[0] == p[0] {
        RemovedAt(node.children[p[0]], p[1..], q[1..]);
        assert p <= q <==> p[1..] <= q[1..];
      }
    }
  }

  lemma {:induction false} InsertedAt(node: FsNode, p: Path, x: FsNode, q: Path)
    requires p != [] && IsDirectory(node, p[..|p| - 1])
    ensures At(Insert(node, p, x), q) == if p <= q then At(x, q[|p|..]) else At(node, q)
    decreases |p|
  {
    if |p| == 1 {
    } else {
      var child := node.children[p[0]];
      assert p[..|p| - 1][1..] == p[1..][..|p[1..]| - 1];
      if q != [] && q[0] == p[0] {
        InsertedAt(child, p[1..], x, q[1..]);
        assert p <= q <==> p[1..] <= q[1..];
      }
    }
  }

  // ---------- Renaming ----------

  predicate ProperPrefix(p: Path, q: Path) {
    p < q
  }

  function Parent(p: Path): Path
    requires p != []
  {
    p[..|p| - 1]
  }

  function Name(p: Path): string
    requires p != []
  {
    p[|p| - 1]
  }

  /** The host path of a node that may be moved. */
  function MovableHostPath(node: Option<FsNode>): Option<Path> {
    match node
    case Some(File(HostFile(path), true)) => Some(path)
    case Some(Directory(_, writeableAt)) => writeableAt
    case _ => None
  }

  /** The source may be moved, and the target has a writeable parent directory. */
  predicate MayMove(root: FsNode, from: Path, to: Path) {
    && MovableHostPath(Lookup(root, from)).Some?
    && to != [] && IsDirectory(root, Parent(to)) && Lookup(root, Parent(to)).value.writeableAt.Some?
  }

  /**
   Files kept on the host can be moved if they are writeable, directories if new files can go into them; nothing
   else can. Only into such a directory can something be moved.
   */
  lemma WhatMayMove(root: FsNode, from: Path, to: Path)
    ensures MayMove(root, from, to) <==>
            to != [] && IsMovable(At(root, from)) && IsWriteableDirectory(At(root, to[..|to| - 1]))
    ensures forall path :: At(root, from) == Some(FileEntry(HostFile(path), true))
                           || At(root, from) == Some(DirectoryEntry(Some(path)))
                           ==> MovableHostPath(Lookup(root, from)) == Some(path)
    ensures forall path :: MayMove(root, from, to) && At(root, to[..|to| - 1]) == Some(DirectoryEntry(Some(path)))
                           ==> TargetHostPath(root, to) == path + [to[|to| - 1]]
  {
  }

  predicate IsMovable(e: Option<Entry>) {
    e.Some? && (e.value.FileEntry? ==> e.value.location.HostFile? && e.value.writeable)
    && (e.value.DirectoryEntry? ==> e.value.writeableAt.Some?)
  }

  predicate IsWriteableDirectory(e: Option<Entry>) {
    e.Some? && e.value.DirectoryEntry? && e.value.writeableAt.Some?
  }

  /** Where on the host the moved node goes. */
  function TargetHostPath(root: FsNode, to: Path): Path
    requires to != [] && IsDirectory(root, Parent(to)) && Lookup(root, Parent(to)).value.writeableAt.Some?
  {
    Lookup(root, Parent(to)).value.writeableAt.value + [Name(to)]
  }

  /** The tree after a successful move. */
  function Moved(root: FsNode, from: Path, to: Path): FsNode
    requires MayMove(root, from, to) && from != []
  {
    Insert(Remove(root, from), to, UpdateHostPaths(Lookup(root, from).value, TargetHostPath(root, to)))
  }

  /**
   The tree after a move, at every path: the moved node with its new host paths at the target, nothing at the
   source, and everything else as it was.
   */
  lemma MovedAt(root: FsNode, from: Path, to: Path, p: Path)
    requires MayMove(root, from, to) && from != [] && !ProperPrefix(from, to)
    ensures At(Moved(root, from, to), p) ==
            if to <= p then MovedEntry(Lookup(root, from).value, TargetHostPath(root, to), p[|to|..])
            else if from <= p then None
            else At(root, p)
  {
    var node, host := Lookup(root, from).value, TargetHostPath(root, to);
    assert !(from <= Parent(to));
    RemovedAt(root, from, Parent(to));
    RemovedAt(root, from, p);
    InsertedAt(Remove(root, from), to, UpdateHostPaths(node, host), p);
    if to <= p {
      UpdatedAt(node, host, p[|to|..]);
    }
  }

  // ---------- Host paths stay consistent ----------

  /** The child of a writeable directory lives in the directory's host directory, under its own name. */
  ghost predicate ConsistentAt(root: FsNode, p: Path, k: string) {
    At(root, p).Some? && At(root, p).value.DirectoryEntry? && At(root, p).value.writeableAt.Some?
    && At(root, p + [k]).Some? && HostPathOf(At(root, p + [k]).value).Some?
    ==> HostPathOf(At(root, p + [k]).value).value == At(root, p).value.writeableAt.value + [k]
  }

  ghost predicate HostConsistent(root: FsNode) {
    forall p, k :: ConsistentAt(root, p, k)
  }

  lemma MoveKeepsHostConsistent(root: FsNode, from: Path, to: Path)
    requires HostConsistent(root) && MayMove(root, from, to) && from != [] && !ProperPrefix(from, to)
    ensures HostConsistent(Moved(root, from, to))
  {
    forall p, k ensures ConsistentAt(Moved(root, from, to), p, k) {
      MovedAt(root, from, to, p);
      MovedAt(root, from, to, p + [k]);
      var node, host := Lookup(root, from).value, TargetHostPath(root, to);
      if to <= p {
        var q := p[|to|..];
        assert (p + [k])[|to|..] == q + [k];
        MovedConsistent(root, from, host, q, k);
      } else if to <= p + [k] {
        assert p + [k] == to && (p + [k])[|to|..] == [];
        assert p == Parent(to) && k == Name(to) && host + [] == host;
      } else {
        assert ConsistentAt(root, p, k);
      }
    }
  }

  lemma MovedConsistent(root: FsNode, from: Path, host: Path, q: Path, k: string)
    requires HostConsistent(root) && Exists(root, from)
    ensures var node := Lookup(root, from).value;
            var (e, c) := (MovedEntry(node, host, q), MovedEntry(node, host, q + [k]));
            e.Some? && e.value.DirectoryEntry? && e.value.writeableAt.Some? && c.Some? && HostPathOf(c.value).Some?
            ==> HostPathOf(c.value).value == e.value.writeableAt.value + [k]
  {
    var node := Lookup(root, from).value;
    assert ConsistentAt(root, from + q, k);
    assert from + q + [k] == from + (q + [k]);
    AtConcat(root, from, q);
    AtConcat(root, from, q + [k]);
    ChildLookup(node, q, k);
    if Exists(node, q) {
      ReachedConcat(node, q, k);
      assert host + q + [k] == host + (q + [k]);
    }
  }

  // ---------- Moving back ----------

  /** In a consistent tree, the host path of what a movable node reaches follows from the node's own. */
  lemma {:induction false} ReachedHostPath(root: FsNode, from: Path, host: Path, q: Path)
    requires HostConsistent(root) && Exists(root, from) && HostPathOf(At(root, from).value) == Some(host)
    requires Exists(Lookup(root, from).value, q) && ReachedWriteably(Lookup(root, from).value, q)
    ensures var e := At(Lookup(root, from).value, q).value; HostPathOf(e).Some? ==> HostPathOf(e).value == host + q
    decreases |q|
  {
    var node := Lookup(root, from).value;
    if q == [] {
      assert host + q == host;
    } else {
      var above, k := Parent(q), Name(q);
      assert q == above + [k] && from + above + [k] == from + q;
      AncestorsExist(node, q, |above|);
      ReachedConcat(node, above, k);
      ReachedHostPath(root, from, host, above);
      AtConcat(root, from, above);
      AtConcat(root, from, q);
      assert ConsistentAt(root, from + above, k);
      assert host + above + [k] == host + q;
    }
  }

  lemma NotBelow(root: FsNode, p: Path, q: Path)
    requires !Exists(root, p) && p <= q
    ensures !Exists(root, q)
  {
    assert q[..|p|] == p;
    if Exists(root, q) {
      AncestorsExist(root, q, |p|);
    }
  }

  /** What is found at the target is the updated node. */
  lemma MovedNode(root: FsNode, from: Path, to: Path)
    requires MayMove(root, from, to) && from != [] && !ProperPrefix(from, to)
    ensures var moved := UpdateHostPaths(Lookup(root, from).value, TargetHostPath(root, to));
            Lookup(Moved(root, from, to), to) == Some(moved)
  {
    var root', node, host := Moved(root, from, to), Lookup(root, from).value, TargetHostPath(root, to);
    forall q ensures At(root', to + q) == At(UpdateHostPaths(node, host), q) {
      MovedAt(root, from, to, to + q);
      assert (to + q)[|to|..] == q;
      UpdatedAt(node, host, q);
    }
    assert to + [] == to;
    assert At(root', to + []).Some?;
    forall q ensures At(Lookup(root', to).value, q) == At(UpdateHostPaths(node, host), q) {
      AtConcat(root', to, q);
    }
    TreeIsItsEntries(Lookup(root', to).value, UpdateHostPaths(node, host));
  }

  lemma MovedTwice(root: FsNode, from: Path, host: Path, back: Path, q: Path)
    requires HostConsistent(root) && Exists(root, from) && HostPathOf(At(root, from).value) == Some(back)
    ensures var node := Lookup(root, from).value;
            MovedEntry(UpdateHostPaths(node, host), back, q) == At(root, from + q)
  {
    var node := Lookup(root, from).value;
    AtConcat(root, from, q);
    UpdatedAt(node, host, q);
    if Exists(node, q) && ReachedWriteably(node, q) {
      ReachedHostPath(root, from, back, q);
    }
  }

  /** The move can be undone: nothing was at the target, and the source's parent is writeable. */
  predicate MayMoveThereAndBack(root: FsNode, from: Path, to: Path) {
    && MayMove(root, from, to) && from != [] && !ProperPrefix(from, to) && !Exists(root, to)
    && IsDirectory(root, Parent(from)) && Lookup(root, Parent(from)).value.writeableAt.Some?
  }

  lemma MayMoveBack(root: FsNode, from: Path, to: Path)
    requires MayMoveThereAndBack(root, from, to)
    ensures var root' := Moved(root, from, to);
            && MayMove(root', to, from) && TargetHostPath(root', from) == TargetHostPath(root, from)
            && !(to <= from)
  {
    var root', host := Moved(root, from, to), TargetHostPath(root, to);
    if to <= from {
      NotBelow(root, to, from);
    }
    if to <= Parent(from) {
      NotBelow(root, to, Parent(from));
    }
    MovedNode(root, from, to);
    MovedAt(root, from, to, Parent(from));
    UpdatedAt(Lookup(root, from).value, host, []);
  }

  lemma SourceHostPath(root: FsNode, from: Path, to: Path)
    requires HostConsistent(root) && MayMoveThereAndBack(root, from, to)
    ensures HostPathOf(At(root, from).value) == Some(TargetHostPath(root, from))
  {
    assert Parent(from) + [Name(from)] == from && ConsistentAt(root, Parent(from), Name(from));
  }

  lemma BackAt(root: FsNode, from: Path, to: Path, p: Path)
    requires HostConsistent(root) && MayMoveThereAndBack(root, from, to)
    requires var root' := Moved(root, from, to);
             MayMove(root', to, from) && TargetHostPath(root', from) == TargetHostPath(root, from) && !(to <= from)
    ensures At(Moved(Moved(root, from, to), to, from), p) == At(root, p)
  {
    var root', back := Moved(root, from, to), TargetHostPath(root, from);
    MovedAt(root', to, from, p);
    MovedAt(root, from, to, p);
    MovedNode(root, from, to);
    if from <= p {
      assert from + p[|from|..] == p;
      SourceHostPath(root, from, to);
      MovedTwice(root, from, TargetHostPath(root, to), back, p[|from|..]);
    } else if to <= p {
      NotBelow(root, to, p);
    }
  }

  /** Moving a node back to where it came from restores the whole tree, host paths included. */
  lemma MoveBackRestores(root: FsNode, from: Path, to: Path)
    requires HostConsistent(root) && MayMoveThereAndBack(root, from, to)
    ensures MayMove(Moved(root, from, to), to, from) && Moved(Moved(root, from, to), to, from) == root
  {
    MayMoveBack(root, from, to);
    forall p ensures At(Moved(Moved(root, from, to), to, from), p) == At(root, p) {
      BackAt(root, from, to, p);
    }
    TreeIsItsEntries(Moved(Moved(root, from, to), to, from), root);
  }
}
