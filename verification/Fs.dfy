/**
 The guest filesystem (`src/fs.rs`): lookups, recursive enumeration and renaming. Path strings are resolved
 by a function given as a parameter, and so is the host's answer to a rename request.
 */
module GuestFs {
  import opened Wrappers
  import opened FsTree
  import opened FsEnumerate
  import opened FsRename

  datatype Outcome = Done | Failed | Panicked

  class Fs {
    var root: FsNode

    constructor (root: FsNode)
      ensures this.root == root
    {
      this.root := root;
    }

    /** `lookup_node_inner` (src/fs.rs:1120-1133). */
    method LookupNode(components: Path) returns (r: Option<FsNode>)
      ensures r == Lookup(root, components)
    {
      var node := root;
      var i := 0;
      while i < |components|
        invariant 0 <= i <= |components| && Lookup(root, components) == Lookup(node, components[i..])
      {
        if node.File? || components[i] !in node.children {
          return None;
        }
        assert components[i..][1..] == components[i + 1..];
        node := node.children[components[i]];
        i := i + 1;
      }
      r := Some(node);
    }

    /** `lookup_parent_node` (src/fs.rs:1145-1162). */
    method LookupParentNode(components: Path) returns (r: Option<(FsNode, string)>)
      ensures r == if components != [] && Exists(root, Parent(components))
                   then Some((Lookup(root, Parent(components)).value, Name(components))) else None
    {
      if components == [] {
        return None;
      }
      var parent := LookupNode(components[..|components| - 1]);
      match parent
      case None => r := None;
      case Some(node) => r := Some((node, components[|components| - 1]));
    }

    /**
     `enumerate_recursive`: every descendant's path exactly once, each after its parent and together with the
     others in its directory, whatever order the children come in; both stacks end empty. It fails exactly when
     the path is not a directory.
     */
    method EnumerateRecursive(path: Path) returns (r: Result<seq<Path>, ()>)
      ensures r.Ok? <==> IsDirectory(root, path)
      ensures r.Ok? ==> Distinct(r.value) && ParentsFirst(r.value) && DepthFirst(r.value)
      ensures r.Ok? ==> forall p :: p in r.value <==> p in Descendants(Lookup(root, path).value)
    {
      var found := LookupNode(path);
      if found.None? || found.value.File? {
        return Err(());
      }
      var dir := found.value;
      var paths: seq<Path>, components: Path := [], [];
      var cursors := [Cursor(dir.children, dir.children.Keys)];
      WalkStarts(dir);
      while true
        invariant WalkAlong(dir, cursors, components)
        invariant ListsPassed(dir, cursors, components, paths)
        invariant DepthFirst(paths) && StillInside(components, paths)
        decreases |Descendants(dir)| - |paths|, |cursors|
      {
        ListedAreDescendants(dir, cursors, components, paths);
        var current := cursors[|cursors| - 1];
        if current.remaining != {} {
          var next :| next in current.remaining;
          if current.children[next].Directory? {
            YieldDirectory(dir, cursors, components, paths, next);
          } else {
            YieldFile(dir, cursors, components, paths, next);
          }
          ListInside(components, paths, next);
          cursors := Yielded(cursors, next);
          components := components + [next];
          paths := paths + [components];
          if current.children[next].Directory? {
            cursors := cursors + [Cursor(current.children[next].children, current.children[next].children.Keys)];
            ListedAreDescendants(dir, cursors, components, paths);
          } else {
            components := components[..|components| - 1];
            ListedAreDescendants(dir, cursors, components, paths);
          }
        } else {
          if components != [] {
            LeaveDirectory(dir, cursors, components, paths);
            LeaveInside(components, paths);
          } else {
            WalkEnds(dir, cursors, paths);
          }
          cursors := cursors[..|cursors| - 1];
          if components == [] {
            break;
          }
          components := components[..|components| - 1];
        }
      }
      assert components == [] && cursors == [];
      r := Ok(paths);
    }

    /**
     `rename`: done without any change when the two path strings are the same; otherwise the tree becomes
     the moved one exactly when the move is allowed and the host agrees, and a failure leaves it alone. Were the host
     to agree to move a directory into itself, the lookup of the target would panic.
     */
    method Rename(from: string, to: string, resolve: string -> Path, hostRename: (Path, Path) -> bool)
      returns (r: Outcome)
      modifies this
      ensures from == to ==> r.Done? && root == old(root)
      ensures from != to ==>
                var (source, target) := (resolve(from), resolve(to));
                (r.Failed? <==> !(MayMove(old(root), source, target)
                                  && hostRename(MovableHostPath(Lookup(old(root), source)).value,
                                                TargetHostPath(old(root), target))))
                && (r.Failed? ==> root == old(root))
                && (r.Panicked? ==> ProperPrefix(source, target))
                && (r.Done? ==>
                      source != [] && !ProperPrefix(source, target) && root == Moved(old(root), source, target))
    {
      if from == to {
        return Done;
      }
      var source, target := resolve(from), resolve(to);
      var node := LookupNode(source);
      var fromHostPath;
      match node {
        case Some(File(HostFile(path), true)) => fromHostPath := path;
        case Some(Directory(_, Some(path))) => fromHostPath := path;
        case _ => return Failed;
      }
      var toParent := LookupParentNode(target);
      var toHostPath;
      match toParent {
        case Some((Directory(_, Some(path)), name)) => toHostPath := path + [name];
        case _ => return Failed;
      }
      if !hostRename(fromHostPath, toHostPath) {
        return Failed;
      }
      if source == [] {
        return Panicked;
      }
      SourceIsListed(root, source);
      root := Remove(root, source);
      var moving := UpdateHostPaths(node.value, toHostPath);
      var toParentNow := LookupParentNode(target);
      RemovedAt(old(root), source, Parent(target));
      if toParentNow.None? {
        return Panicked;
      }
      root := Insert(root, target, moving);
      r := Done;
    }
  }

  /** `from_children.remove(&from_name).unwrap()` finds the node that was looked up before. */
  lemma SourceIsListed(root: FsNode, from: Path)
    requires Exists(root, from) && from != []
    ensures IsDirectory(root, Parent(from)) && Name(from) in Lookup(root, Parent(from)).value.children
  {
    AncestorsExist(root, from, |from| - 1);
  }

  lemma ListedAreDescendants(dir: FsNode, cursors: seq<Cursor>, components: Path, paths: seq<Path>)
    requires |cursors| == |components| + 1 && ListsPassed(dir, cursors, components, paths)
    ensures |paths| <= |Descendants(dir)|
  {
    forall p | p in paths ensures p in Descendants(dir) {
      DescendantsExist(dir, p);
    }
    DistinctBound(paths, Descendants(dir));
  }
}
