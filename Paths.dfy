/** Path handling: PHP's basename and dirname on '/'-separated paths, the prefix test
    isParentDirOrSame, the upward search findFileUpward and the isProjectRoot test. The
    filesystem is a set of the path strings file_exists (or is_dir) answers true for. */
module Paths {
  import opened Outcomes
  import opened Text

  /** Scanning back from `e`, the start of the run of slashes that ends there. */
  function SlashesBack(p: string, e: nat): (b: nat)
    requires e <= |p|
    ensures b <= e && (b == 0 || p[b - 1] != '/')
    decreases e
  {
    if e > 0 && p[e - 1] == '/' then SlashesBack(p, e - 1) else e
  }

  /** Scanning back from `e`, the start of the run of other characters that ends there. */
  function NameBack(p: string, e: nat): (b: nat)
    requires e <= |p|
    ensures b <= e && (b == 0 || p[b - 1] == '/')
    decreases e
  {
    if e > 0 && p[e - 1] != '/' then NameBack(p, e - 1) else e
  }

  /** The run SlashesBack skips is all slashes. */
  lemma {:induction false} SlashesBackRun(p: string, e: nat)
    requires e <= |p|
    ensures forall k :: SlashesBack(p, e) <= k < e ==> p[k] == '/'
    decreases e
  {
    if e > 0 && p[e - 1] == '/' {
      SlashesBackRun(p, e - 1);
    }
  }

  /** The run NameBack skips holds no slash. */
  lemma {:induction false} NameBackRun(p: string, e: nat)
    requires e <= |p|
    ensures forall k :: NameBack(p, e) <= k < e ==> p[k] != '/'
    decreases e
  {
    if e > 0 && p[e - 1] != '/' {
      NameBackRun(p, e - 1);
    }
  }

  /** PHP basename: the last segment of the path once the slashes that end it are dropped. */
  function Basename(path: string): (r: string)
    ensures '/' !in r
  {
    var end := SlashesBack(path, |path|);
    NameBackRun(path, end);
    path[NameBack(path, end)..end]
  }

  /** The base name of a path below a directory is the last name in it. */
  lemma BasenameOfChild(dir: string, name: string)
    requires name != [] && '/' !in name
    ensures Basename(dir + "/" + name) == name
  {
    var p := dir + "/" + name;
    assert p[|p| - 1] == name[|name| - 1];
    assert SlashesBack(p, |p|) == |p|;
    var b := NameBack(p, |p|);
    NameBackRun(p, |p|);
    assert p[|dir|] == '/';
    assert forall k :: |dir| < k < |p| ==> p[k] == name[k - |dir| - 1];
    assert b == |dir| + 1;
    assert p[b..] == name;
  }

  /** zend_dirname: drop the trailing slashes, the last segment and the slashes before it.
      The empty path stays empty, a path of slashes only is "/", a single segment is ".". */
  function Dirname(p: string): string
  {
    if p == [] then []
    else
      var name := SlashesBack(p, |p|);
      if name == 0 then "/"
      else
        var dir := NameBack(p, name);
        if dir == 0 then "."
        else
          var end := SlashesBack(p, dir);
          if end == 0 then "/" else p[..end]
  }

  /** The parent is empty only for the empty path, and otherwise "." (for a single segment)
      or a prefix of the path that does not end in a slash unless it is "/". */
  lemma DirnameShape(p: string)
    ensures p == [] <==> Dirname(p) == []
    ensures Dirname(p) == "." || StartsWith(p, Dirname(p))
    ensures Dirname(p) == [] || Dirname(p) == "/" || Dirname(p)[|Dirname(p)| - 1] != '/'
    ensures Dirname(p) != p ==> |Dirname(p)| < |p| || (Dirname(p) == "." && |p| == 1)
  {
    if p != [] {
      var name := SlashesBack(p, |p|);
      SlashesBackRun(p, |p|);
      if name > 0 {
        var dir := NameBack(p, name);
        if dir > 0 {
          SlashesBackRun(p, dir);
        }
      }
    }
  }

  /** The parent of a path below a directory is that directory: one step of the climb goes
      up exactly one level. */
  lemma DirnameOfChild(dir: string, name: string)
    requires dir != [] && dir[|dir| - 1] != '/'
    requires name != [] && '/' !in name
    ensures Dirname(dir + "/" + name) == dir
  {
    var p := dir + "/" + name;
    assert p[|p| - 1] == name[|name| - 1];
    assert SlashesBack(p, |p|) == |p|;
    NameBackRun(p, |p|);
    assert p[|dir|] == '/';
    assert forall k :: |dir| < k < |p| ==> p[k] == name[k - |dir| - 1];
    assert NameBack(p, |p|) == |dir| + 1;
    assert p[|dir| - 1] == dir[|dir| - 1];
    assert SlashesBack(p, |dir|) == |dir|;
    assert SlashesBack(p, |dir| + 1) == |dir|;
    assert p[..|dir|] == dir;
  }

  /** The paths whose dirname is themselves: the loop of findFileUpward stops there. */
  lemma DirnameFixpoint(p: string)
    ensures Dirname(p) == p <==> p == "" || p == "/" || p == "."
  {
    if p == "/" {
      assert SlashesBack(p, 1) == 0;
    } else if p == "." {
      assert SlashesBack(p, 1) == 1 && NameBack(p, 1) == 0;
    }
  }

  /** A measure dirname lowers until it reaches a fixpoint. */
  function Rank(p: string): nat
  {
    |p| + (if p == "" || p == "/" || p == "." then 0 else 1)
  }

  lemma DirnameShrinks(p: string)
    requires Dirname(p) != p
    ensures Rank(Dirname(p)) < Rank(p)
  {
    DirnameFixpoint(p);
    DirnameShape(p);
  }

  /** isParentDirOrSame: `parent` is a prefix of `child` followed by a '/' or by the end of
      the subject, where the end of the subject is, as for PCRE's `$`, also the place
      before a final newline. */
  predicate IsParentDirOrSame(parent: string, child: string)
  {
    StartsWith(child, parent)
      && (|child| == |parent| || child[|parent|] == '/' || child[|parent|..] == "\n")
  }

  /** Every directory covers itself and every path below it. */
  lemma CoversSelfAndBelow(parent: string, rest: string)
    ensures IsParentDirOrSame(parent, parent)
    ensures IsParentDirOrSame(parent, parent + "/" + rest)
  {
    assert (parent + "/" + rest)[..|parent|] == parent;
  }

  /** Only those: a covered path is the parent itself, the parent followed by a newline, or
      a path below it. */
  lemma CoveredPaths(parent: string, child: string)
    requires IsParentDirOrSame(parent, child)
    ensures child == parent || child == parent + "\n"
            || exists rest :: child == parent + "/" + rest
  {
    if |child| > |parent| && child[|parent|] == '/' {
      assert child == parent + "/" + child[|parent| + 1..];
    } else if |child| > |parent| {
      assert child == parent + child[|parent|..];
    } else {
      assert child == child[..|parent|];
    }
  }

  /** The root directory does not cover "/a": after "/" comes "a", neither a '/' nor the end. */
  lemma RootDoesNotCoverChildren()
    ensures !IsParentDirOrSame("/", "/a")
  {
  }

  /** A trailing newline in the child is accepted after the parent. */
  lemma TrailingNewlineCovered(parent: string)
    ensures IsParentDirOrSame(parent, parent + "\n")
  {
    assert (parent + "\n")[..|parent|] == parent;
    assert (parent + "\n")[|parent|..] == "\n";
  }

  /** A directory name taken as true by PHP: neither "" nor "0". */
  predicate Truthy(d: string)
  {
    d != "" && d != "0"
  }

  /** The directory findFileUpward probes for the marker: `"$dir/$marker"`. */
  function Probe(dir: string, marker: string): string
  {
    dir + "/" + marker
  }

  /** The loop of findFileUpward from `dir` on. */
  function Climb(existing: set<string>, marker: string, dir: string, root: Option<string>): (r: Option<string>)
    ensures r.Some? ==> Probe(r.value, marker) in existing && Truthy(r.value)
    ensures r.Some? && root.Some? ==> IsParentDirOrSame(root.value, r.value)
    decreases Rank(dir)
  {
    if !Truthy(dir) || (root.Some? && !IsParentDirOrSame(root.value, dir)) then None
    else if Probe(dir, marker) in existing then Some(dir)
    else
      var parent := Dirname(dir);
      if parent == dir then None
      else
        DirnameShrinks(dir);
        Climb(existing, marker, parent, root)
  }

  /** findFileUpward: a boundary that does not cover the start is an error; otherwise the
      nearest directory on the way up that holds the marker, if any. */
  function FindUpward(existing: set<string>, marker: string, dir: string, root: Option<string>): (r: Result<Option<string>>)
    ensures r.Failure? <==> root.Some? && !IsParentDirOrSame(root.value, dir)
    ensures r.Failure? ==> r.error == InvalidBoundary(root.value, dir) && ExitCode(r) == 1
  {
    if root.Some? && !IsParentDirOrSame(root.value, dir) then Failure(InvalidBoundary(root.value, dir))
    else Success(Climb(existing, marker, dir, root))
  }

  /** The directory `k` dirname steps above `p`. */
  function Ancestor(p: string, k: nat): string
    decreases k
  {
    if k == 0 then p else Ancestor(Dirname(p), k - 1)
  }

  /** The loop reaches the k-th ancestor: every directory up to it is truthy and within the
      boundary, and every step on the way changed the directory. */
  predicate Reaches(dir: string, root: Option<string>, k: nat)
    decreases k
  {
    && Truthy(dir)
    && (root.None? || IsParentDirOrSame(root.value, dir))
    && (k == 0 || (Dirname(dir) != dir && Reaches(Dirname(dir), root, k - 1)))
  }

  /** A directory found is an ancestor the loop reaches, it holds the marker, and no
      directory reached before it does. */
  lemma {:induction false} ClimbSound(existing: set<string>, marker: string, dir: string, root: Option<string>) returns (k: nat)
    requires Climb(existing, marker, dir, root).Some?
    ensures Climb(existing, marker, dir, root) == Some(Ancestor(dir, k))
    ensures Reaches(dir, root, k) && Probe(Ancestor(dir, k), marker) in existing
    ensures forall j :: 0 <= j < k ==> Probe(Ancestor(dir, j), marker) !in existing
    decreases Rank(dir)
  {
    if Probe(dir, marker) in existing {
      k := 0;
    } else {
      var parent := Dirname(dir);
      DirnameShrinks(dir);
      var k' := ClimbSound(existing, marker, parent, root);
      k := k' + 1;
      assert Ancestor(dir, k) == Ancestor(parent, k');
      assert Reaches(dir, root, k);
      forall j | 0 < j < k ensures Probe(Ancestor(dir, j), marker) !in existing {
        AncestorStep(dir, j - 1);
      }
    }
  }

  lemma AncestorStep(p: string, j: nat)
    ensures Ancestor(p, j + 1) == Ancestor(Dirname(p), j)
  {
  }

  /** When nothing is found, no directory the loop reaches holds the marker. */
  lemma {:induction false} ClimbComplete(existing: set<string>, marker: string, dir: string, root: Option<string>, k: nat)
    requires Climb(existing, marker, dir, root).None?
    requires Reaches(dir, root, k)
    ensures Probe(Ancestor(dir, k), marker) !in existing
    decreases k
  {
    if k > 0 {
      DirnameShrinks(dir);
      ClimbComplete(existing, marker, Dirname(dir), root, k - 1);
    }
  }

  /** The search ends: some number of steps up, the loop can go no further. */
  lemma {:induction false} ClimbEnds(dir: string, root: Option<string>) returns (k: nat)
    ensures !Reaches(dir, root, k)
    decreases Rank(dir)
  {
    var parent := Dirname(dir);
    if !Truthy(dir) || (root.Some? && !IsParentDirOrSame(root.value, dir)) {
      k := 0;
    } else if parent == dir {
      k := 1;
    } else {
      DirnameShrinks(dir);
      var k' := ClimbEnds(parent, root);
      k := k' + 1;
      ReachesStep(dir, root, k');
    }
  }

  lemma ReachesStep(dir: string, root: Option<string>, k: nat)
    ensures Reaches(dir, root, k + 1) ==> Reaches(Dirname(dir), root, k)
  {
  }

  /** With the start itself as the boundary, only the start is probed. */
  lemma BoundaryAtStart(existing: set<string>, marker: string, dir: string)
    ensures Climb(existing, marker, dir, Some(dir)) ==
            if Truthy(dir) && Probe(dir, marker) in existing then Some(dir) else None
  {
    var parent := Dirname(dir);
    if Truthy(dir) && Probe(dir, marker) !in existing && parent != dir {
      DirnameShrinks(dir);
      assert !IsParentDirOrSame(dir, parent);
    }
  }

  /** findFileUpward: climb with dirname while the directory is truthy and inside the
      boundary, returning the first directory that holds the marker. */
  method FindFileUpward(existing: set<string>, marker: string, dir: string, root: Option<string>)
    returns (r: Result<Option<string>>)
    ensures r == FindUpward(existing, marker, dir, root)
  {
    if root.Some? && !IsParentDirOrSame(root.value, dir) {
      return Failure(InvalidBoundary(root.value, dir));
    }
    var current := dir;
    while Truthy(current) && (root.None? || IsParentDirOrSame(root.value, current))
      invariant Climb(existing, marker, current, root) == Climb(existing, marker, dir, root)
      decreases Rank(current)
    {
      if Probe(current, marker) in existing {
        return Success(Some(current));
      }
      var parent := Dirname(current);
      if current == parent {
        break;
      }
      DirnameShrinks(current);
      current := parent;
    }
    return Success(None);
  }

  /** The marker directory whose presence makes a path a project root. */
  const ProjectMarker: string := ".idea"

  /** isProjectRoot: `"$file/.idea"` is a directory. */
  predicate IsProjectRoot(directories: set<string>, file: string)
  {
    Probe(file, ProjectMarker) in directories
  }

  /** A project root is found by the search at once, as long as every path is_dir accepts
      is one file_exists accepts too. */
  lemma ProjectRootFoundAtOnce(existing: set<string>, directories: set<string>, file: string)
    requires directories <= existing
    requires Truthy(file) && IsProjectRoot(directories, file)
    ensures Climb(existing, ProjectMarker, file, None) == Some(file)
  {
    assert Probe(file, ProjectMarker) in existing;
  }
}
