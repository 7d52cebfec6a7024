/**
 What the two stacks of `enumerate_recursive` (src/fs.rs:1303-1333) stand for at every turn of its loop.
 */
module FsEnumerate {
  import opened FsTree

  /** An iterator over a directory's children, in any order, with the names it has not yielded yet. */
  datatype Cursor = Cursor(children: map<string, FsNode>, remaining: set<string>)

  /** The iterators are those of the directories from `dir` down along the components. */
  ghost predicate WalkAlong(dir: FsNode, stack: seq<Cursor>, components: Path) {
    && |stack| == |components| + 1
    && (forall i :: 0 <= i < |stack| ==> CursorOf(dir, components[..i], stack[i]))
    && forall i :: 0 <= i < |components| ==> components[i] !in stack[i].remaining
  }

  predicate CursorOf(dir: FsNode, at: Path, cursor: Cursor) {
    && IsDirectory(dir, at) && Lookup(dir, at).value.children == cursor.children
    && cursor.remaining <= cursor.children.Keys
  }

  /** The walk has passed `p`: no iterator on the way to `p` still has to yield the next component. */
  ghost predicate Passed(stack: seq<Cursor>, components: Path, p: Path)
    requires |stack| == |components| + 1
  {
    p != [] && forall i :: 0 <= i < |p| && i <= |components| && p[..i] == components[..i] ==>
        p[i] !in stack[i].remaining
  }

  ghost predicate Distinct(paths: seq<Path>) {
    forall i, j :: 0 <= i < j < |paths| ==> paths[i] != paths[j]
  }

  /** Every path comes after its parent, unless it is directly in the directory. */
  ghost predicate ParentsFirst(paths: seq<Path>) {
    forall j :: 0 <= j < |paths| ==> |paths[j]| > 0 && (|paths[j]| > 1 ==> paths[j][..|paths[j]| - 1] in paths[..j])
  }

  ghost predicate ListsPassed(dir: FsNode, stack: seq<Cursor>, components: Path, paths: seq<Path>)
    requires |stack| == |components| + 1
  {
    && Distinct(paths) && ParentsFirst(paths)
    && forall p :: p in paths <==> Exists(dir, p) && Passed(stack, components, p)
  }

  lemma WalkStarts(dir: FsNode)
    requires dir.Directory?
    ensures WalkAlong(dir, [Cursor(dir.children, dir.children.Keys)], [])
    ensures ListsPassed(dir, [Cursor(dir.children, dir.children.Keys)], [], [])
  {
    forall p | Exists(dir, p) ensures !Passed([Cursor(dir.children, dir.children.Keys)], [], p) {
      if p != [] {
        assert p[..0] == [] && p[0] in dir.children;
      }
    }
  }

  /** The stack after the topmost iterator has yielded `k`. */
  function Yielded(stack: seq<Cursor>, k: string): seq<Cursor>
    requires stack != []
  {
    stack[|stack| - 1 := stack[|stack| - 1].(remaining := stack[|stack| - 1].remaining - {k})]
  }

  lemma StepsInto(p: Path, components: Path, k: string)
    requires |p| > |components| && p[..|components| + 1] == components + [k]
    ensures p[..|components|] == components && p[|components|] == k
  {
    var prefix := components + [k];
    assert p[|components|] == prefix[|components|];
    assert p[..|components|] == prefix[..|components|];
  }

  /** When a directory is yielded, its path is passed, and what is below it is not. */
  lemma PassedDirectory(dir: FsNode, stack: seq<Cursor>, components: Path, k: string, p: Path)
    requires WalkAlong(dir, stack, components) && k in stack[|components|].remaining && Exists(dir, p)
    requires stack[|components|].children[k].Directory?
    ensures var child := stack[|components|].children[k];
            Passed(Yielded(stack, k) + [Cursor(child.children, child.children.Keys)], components + [k], p)
            <==> Passed(stack, components, p) || p == components + [k]
  {
    var n, child := |components|, stack[|components|].children[k];
    var stack', components' := Yielded(stack, k) + [Cursor(child.children, child.children.Keys)], components + [k];
    assert components'[..n] == components == components[..n];
    assert forall i :: 0 <= i <= n ==> components'[..i] == components[..i];
    ChildLookup(dir, components, k);
    if Passed(stack', components', p) {
      if n < |p| && p[..n] == components && p[n] == k {
        assert p[..n + 1] == components';
        if n + 1 < |p| {
          AncestorsExist(dir, p, n + 1);
        } else {
          assert p[..n + 1] == p;
        }
      } else {
        assert forall i :: 0 <= i < |p| && i <= n && p[..i] == components[..i] ==> p[i] !in stack'[i].remaining;
      }
    }
    if Passed(stack, components, p) || p == components' {
      forall i | 0 <= i < |p| && i <= n + 1 && p[..i] == components'[..i] ensures p[i] !in stack'[i].remaining {
        if i <= n {
          assert p[..i] == components[..i];
        } else {
          StepsInto(p, components, k);
        }
      }
    }
  }

  lemma PassedFile(dir: FsNode, stack: seq<Cursor>, components: Path, k: string, p: Path)
    requires WalkAlong(dir, stack, components) && k in stack[|components|].remaining && Exists(dir, p)
    requires stack[|components|].children[k].File?
    ensures Passed(Yielded(stack, k), components, p) <==> Passed(stack, components, p) || p == components + [k]
  {
    var n, stack' := |components|, Yielded(stack, k);
    ChildLookup(dir, components, k);
    assert components[..n] == components;
    if Passed(stack', components, p) {
      if n < |p| && p[..n] == components && p[n] == k {
        assert p[..n + 1] == components + [k];
        if n + 1 < |p| {
          AncestorsExist(dir, p, n + 1);
        } else {
          assert p[..n + 1] == p;
        }
      }
    }
  }

  /** Leaving an exhausted directory passes nothing new. */
  lemma PassedPop(dir: FsNode, stack: seq<Cursor>, components: Path, p: Path)
    requires WalkAlong(dir, stack, components) && components != [] && stack[|components|].remaining == {}
    ensures Passed(stack[..|components|], components[..|components| - 1], p) <==> Passed(stack, components, p)
  {
    var n := |components|;
    var stack', components' := stack[..n], components[..n - 1];
    assert forall i :: 0 <= i < n ==> components'[..i] == components[..i];
    if Passed(stack', components', p) {
      forall i | 0 <= i < |p| && i <= n && p[..i] == components[..i] ensures p[i] !in stack[i].remaining {
        if i < n {
          assert p[..i] == components'[..i];
        }
      }
    }
  }

  lemma ParentsFirstAppend(paths: seq<Path>, path: Path)
    requires ParentsFirst(paths) && |path| > 0 && (|path| > 1 ==> path[..|path| - 1] in paths)
    ensures ParentsFirst(paths + [path])
  {
    var paths' := paths + [path];
    forall j | 0 <= j < |paths'|
      ensures |paths'[j]| > 0 && (|paths'[j]| > 1 ==> paths'[j][..|paths'[j]| - 1] in paths'[..j])
    {
      if j < |paths| {
        assert paths'[..j] == paths[..j] && paths'[j] == paths[j];
      } else {
        assert paths'[..j] == paths;
      }
    }
  }

  /** One more path, found below a listed directory. */
  lemma ListOneMore(dir: FsNode, stack: seq<Cursor>, components: Path, paths: seq<Path>, k: string)
    requires WalkAlong(dir, stack, components) && ListsPassed(dir, stack, components, paths)
    requires k in stack[|components|].remaining
    ensures Distinct(paths + [components + [k]]) && ParentsFirst(paths + [components + [k]])
    ensures Exists(dir, components + [k])
  {
    var n, path := |components|, components + [k];
    assert path[..n] == components == components[..n];
    ChildLookup(dir, components, k);
    assert path !in paths by {
      assert path[n] == k;
      assert !Passed(stack, components, path);
    }
    if components != [] {
      assert Passed(stack, components, components);
    }
    ParentsFirstAppend(paths, path);
  }

  lemma YieldDirectory(dir: FsNode, stack: seq<Cursor>, components: Path, paths: seq<Path>, k: string)
    requires WalkAlong(dir, stack, components) && ListsPassed(dir, stack, components, paths)
    requires k in stack[|components|].remaining && stack[|components|].children[k].Directory?
    ensures var child := stack[|components|].children[k];
            var stack' := Yielded(stack, k) + [Cursor(child.children, child.children.Keys)];
            && WalkAlong(dir, stack', components + [k])
            && ListsPassed(dir, stack', components + [k], paths + [components + [k]])
  {
    var n, child := |components|, stack[|components|].children[k];
    var stack', components' := Yielded(stack, k) + [Cursor(child.children, child.children.Keys)], components + [k];
    ListOneMore(dir, stack, components, paths, k);
    assert components[..n] == components;
    ChildLookup(dir, components, k);
    forall i | 0 <= i < |stack'| ensures CursorOf(dir, components'[..i], stack'[i]) {
      if i <= n {
        assert components'[..i] == components[..i];
      } else {
        assert components'[..i] == components';
      }
    }
    forall p | Exists(dir, p)
      ensures Passed(stack', components', p) <==> Passed(stack, components, p) || p == components'
    {
      PassedDirectory(dir, stack, components, k, p);
    }
  }

  lemma YieldFile(dir: FsNode, stack: seq<Cursor>, components: Path, paths: seq<Path>, k: string)
    requires WalkAlong(dir, stack, components) && ListsPassed(dir, stack, components, paths)
    requires k in stack[|components|].remaining && stack[|components|].children[k].File?
    ensures WalkAlong(dir, Yielded(stack, k), components)
    ensures ListsPassed(dir, Yielded(stack, k), components, paths + [components + [k]])
  {
    ListOneMore(dir, stack, components, paths, k);
    forall p | Exists(dir, p)
      ensures Passed(Yielded(stack, k), components, p) <==> Passed(stack, components, p) || p == components + [k]
    {
      PassedFile(dir, stack, components, k, p);
    }
  }

  lemma WalkPops(dir: FsNode, stack: seq<Cursor>, components: Path)
    requires WalkAlong(dir, stack, components) && components != []
    ensures WalkAlong(dir, stack[..|components|], components[..|components| - 1])
  {
    var n := |components|;
    forall i | 0 <= i < n ensures CursorOf(dir, components[..n - 1][..i], stack[..n][i]) {
      assert components[..n - 1][..i] == components[..i];
    }
  }

  lemma LeaveDirectory(dir: FsNode, stack: seq<Cursor>, components: Path, paths: seq<Path>)
    requires WalkAlong(dir, stack, components) && ListsPassed(dir, stack, components, paths)
    requires components != [] && stack[|components|].remaining == {}
    ensures WalkAlong(dir, stack[..|components|], components[..|components| - 1])
    ensures ListsPassed(dir, stack[..|components|], components[..|components| - 1], paths)
  {
    WalkPops(dir, stack, components);
    forall p | Exists(dir, p)
      ensures Passed(stack[..|components|], components[..|components| - 1], p) <==> Passed(stack, components, p)
    {
      PassedPop(dir, stack, components, p);
    }
  }

  // ---------- Depth first ----------

  predicate KeptTogether(paths: seq<Path>, i: int, j: int, k: int) {
    0 <= i <= j <= k < |paths| && paths[i] <= paths[k] ==> paths[i] <= paths[j]
  }

  /** What a directory holds follows it without anything else in between. */
  ghost predicate DepthFirst(paths: seq<Path>) {
    forall i, j, k :: KeptTogether(paths, i, j, k)
  }

  predicate InsideSince(components: Path, paths: seq<Path>, d: int, i: int, j: int) {
    0 <= d <= |components| && 0 <= i <= j < |paths| && paths[i] == components[..d] ==> paths[i] <= paths[j]
  }

  /** Since a directory on the way was listed, only what it holds has been. */
  ghost predicate StillInside(components: Path, paths: seq<Path>) {
    forall d, i, j :: InsideSince(components, paths, d, i, j)
  }

  lemma PrefixOfChild(p: Path, components: Path, k: string)
    requires p <= components + [k] && p != components + [k]
    ensures |p| <= |components| && p == components[..|p|]
  {
    var path := components + [k];
    assert p == path[..|p|];
    assert path[..|path|] == path;
  }

  /** Listing another child of the innermost directory keeps everything together, whether it is entered or not. */
  lemma ListInside(components: Path, paths: seq<Path>, k: string)
    requires Distinct(paths + [components + [k]]) && DepthFirst(paths) && StillInside(components, paths)
    ensures DepthFirst(paths + [components + [k]])
    ensures StillInside(components, paths + [components + [k]])
    ensures StillInside(components + [k], paths + [components + [k]])
  {
    var path, n := components + [k], |paths|;
    var paths' := paths + [path];
    forall i, j, l ensures KeptTogether(paths', i, j, l) {
      if 0 <= i <= j < l == n && paths'[i] <= path {
        if i < n {
          assert paths'[i] != paths'[n];
          PrefixOfChild(paths[i], components, k);
        }
        assert InsideSince(components, paths, |paths[i]|, i, j);
      } else if 0 <= i <= j <= l < n {
        assert KeptTogether(paths, i, j, l);
      }
    }
    forall d, i, j ensures InsideSince(path, paths', d, i, j) {
      ListedInside(components, paths, k, d, i, j);
    }
    forall d, i, j ensures InsideSince(components, paths', d, i, j) {
      if 0 <= d <= |components| {
        assert components[..d] == path[..d];
        ListedInside(components, paths, k, d, i, j);
      }
    }
  }

  lemma ListedInside(components: Path, paths: seq<Path>, k: string, d: int, i: int, j: int)
    requires Distinct(paths + [components + [k]]) && StillInside(components, paths)
    ensures InsideSince(components + [k], paths + [components + [k]], d, i, j)
  {
    var path, n := components + [k], |paths|;
    var paths' := paths + [path];
    if 0 <= d <= |components| && 0 <= i <= j < n && paths[i] == path[..d] {
      assert path[..d] == components[..d];
      assert InsideSince(components, paths, d, i, j);
    } else if d == |path| && 0 <= i < n {
      assert path[..d] == path && paths'[i] != paths'[n];
    }
  }

  lemma LeaveInside(components: Path, paths: seq<Path>)
    requires components != [] && StillInside(components, paths)
    ensures StillInside(components[..|components| - 1], paths)
  {
    var shorter := components[..|components| - 1];
    forall d, i, j ensures InsideSince(shorter, paths, d, i, j) {
      if 0 <= d <= |shorter| {
        assert shorter[..d] == components[..d];
        assert InsideSince(components, paths, d, i, j);
      }
    }
  }

  /** Once the last iterator is exhausted, exactly the descendants have been listed. */
  lemma WalkEnds(dir: FsNode, stack: seq<Cursor>, paths: seq<Path>)
    requires WalkAlong(dir, stack, []) && ListsPassed(dir, stack, [], paths) && stack[0].remaining == {}
    ensures forall p :: p in paths <==> p in Descendants(dir)
  {
    forall p ensures p in paths <==> p in Descendants(dir) {
      DescendantsExist(dir, p);
    }
  }

  /** A list without repetitions is no longer than the set it is drawn from. */
  lemma {:induction false} DistinctBound(paths: seq<Path>, all: set<Path>)
    requires Distinct(paths) && forall p :: p in paths ==> p in all
    ensures |paths| <= |all|
    decreases |paths|
  {
    if paths != [] {
      var last := paths[|paths| - 1];
      assert last in paths;
      DistinctBound(paths[..|paths| - 1], all - {last});
    }
  }
}
