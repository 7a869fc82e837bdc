/** Collecting a module's relative imports and copying them under one isolated root. */
module ImportCopy {
  import opened Graphs
  import opened Sequences

  /** An absolute path: its segments, none of them empty, "." or "..". */
  type Path = seq<string>

  ghost predicate IsResolved(p: Path) {
    forall i :: 0 <= i < |p| ==> p[i] != ".." && p[i] != "." && p[i] != ""
  }

  // ----- the import closure -----

  /** `files` gives, for every readable file, the files its relative imports resolve to, in source order.
      `ok` is false when a file cannot be read. */
  method CollectRelativeImportGraph(entry: Path, files: Graph<Path>) returns (discovered: seq<Path>, ok: bool)
    ensures ok ==> Distinct(discovered) && forall p :: p in discovered <==> Reach(files, entry, p)
    ensures ok <==> forall p :: Reach(files, entry, p) ==> p in files
  {
    hide Reach;
    discovered := [];
    var queue := [entry];
    ReachSelf(files, entry);
    ghost var all := Nodes(files) + {entry};
    while |queue| > 0
      invariant Distinct(discovered)
      invariant forall p :: p in discovered ==> Reach(files, entry, p) && p in files && p in all
      invariant forall p :: p in queue ==> Reach(files, entry, p) && p in all
      invariant entry in discovered || entry in queue
      invariant forall p, t :: p in discovered && t in Succ(files, p) ==> t in discovered || t in queue
      decreases all - Elements(discovered), |queue|
    {
      var currentPath := queue[|queue| - 1];
      assert queue == queue[..|queue| - 1] + [currentPath];
      queue := queue[..|queue| - 1];
      if currentPath in discovered {
        continue;
      }
      ghost var before := discovered;
      discovered := discovered + [currentPath];
      assert Elements(discovered) == Elements(before) + {currentPath};
      if currentPath !in files {
        return discovered, false;
      }
      forall t | t in Succ(files, currentPath) ensures Reach(files, entry, t) && t in all {
        ReachEdge(files, currentPath, t);
        ReachTrans(files, entry, currentPath, t);
        NodesClosed(files);
      }
      queue := queue + files[currentPath];
    }
    ok := true;
    forall p | Reach(files, entry, p) ensures p in discovered {
      ClosedReach(files, Elements(discovered), entry, p);
    }
  }

  // ----- relative paths -----

  /** The number of leading segments two paths share. */
  function Common(a: Path, b: Path): (r: nat)
    ensures r <= |a| && r <= |b| && forall i :: 0 <= i < r ==> a[i] == b[i]
    ensures r < |a| && r < |b| ==> a[r] != b[r]
  {
    if a == [] || b == [] || a[0] != b[0] then 0
    else
      var r := Common(a[1..], b[1..]);
      assert forall i :: 0 <= i < r + 1 ==> a[i] == b[i] by {
        assert forall i :: 1 <= i < r + 1 ==> a[i] == a[1..][i - 1] && b[i] == b[1..][i - 1];
      }
      r + 1
  }

  /** path.relative, as segments: up to the common directory, then down. */
  function Relative(from: Path, to: Path): Path {
    seq(|from| - Common(from, to), _ => "..") + to[Common(from, to)..]
  }

  /** relative.startsWith("../"): a first segment ".." with something after it. */
  predicate StartsUp(relative: Path) {
    |relative| >= 2 && relative[0] == ".."
  }

  /** path.join: each ".." takes a segment away. */
  function Joined(base: Path, relative: Path): Path
    decreases |relative|
  {
    if relative == [] then base
    else if relative[0] == ".." then Joined(if base == [] then [] else base[..|base| - 1], relative[1..])
    else Joined(base + [relative[0]], relative[1..])
  }

  // ----- the common ancestor -----


  /** How far a candidate lets the ancestor of `first` reach: a directory right above a candidate that is itself
      a proper prefix is not left, because its relative path is just "..". */
  function Reached(first: Path, candidate: Path): nat {
    if candidate < first then |candidate| + 1 else Common(first, candidate)
  }

  function AncestorLength(first: Path, rest: seq<Path>): (r: nat)
    ensures r <= |first|
  {
    if rest == [] then |first|
    else
      var before := AncestorLength(first, rest[..|rest| - 1]);
      var reached := Reached(first, rest[|rest| - 1]);
      if reached < before then reached else before
  }

  /** The inner loop stops exactly where the candidate's reach or the ancestor ends. */
  lemma StopsAt(first: Path, candidate: Path, n: nat)
    requires n <= |first| && IsResolved(candidate)
    ensures StartsUp(Relative(first[..n], candidate)) <==> n > Reached(first, candidate)
  {
  }


  lemma AncestorStep(first: Path, rest: seq<Path>, k: nat)
    requires k < |rest|
    ensures AncestorLength(first, rest[..k + 1]) ==
            if Reached(first, rest[k]) < AncestorLength(first, rest[..k]) then Reached(first, rest[k])
            else AncestorLength(first, rest[..k])
  {
    assert rest[..k + 1][..k] == rest[..k] && rest[..k + 1][k] == rest[k];
  }

  method ResolveCommonAncestor(paths: seq<Path>) returns (ancestor: Path, ok: bool)
    requires forall i :: 0 <= i < |paths| ==> IsResolved(paths[i])
    ensures ok <==> paths != []
    ensures ok ==> ancestor == paths[0][..AncestorLength(paths[0], paths[1..])]
  {
    hide Relative;
    hide Reached;
    hide StartsUp;
    hide IsResolved;
    if paths == [] {
      return [], false;
    }
    var first, rest := paths[0], paths[1..];
    ancestor, ok := first, true;
    assert first[..|first|] == first;
    for k := 0 to |rest|
      invariant ancestor == first[..AncestorLength(first, rest[..k])]
    {
      hide AncestorLength;
      var candidate := rest[k];
      ghost var before := AncestorLength(first, rest[..k]);
      AncestorStep(first, rest, k);
      while StartsUp(Relative(ancestor, candidate))
        invariant |ancestor| <= before && ancestor == first[..|ancestor|]
        invariant |ancestor| >= AncestorLength(first, rest[..k + 1])
        decreases |ancestor|
      {
        StopsAt(first, candidate, |ancestor|);
        // path.dirname; only the root is its own parent, and nothing is above it.
        var parent := if ancestor == [] then [] else ancestor[..|ancestor| - 1];
        if parent == ancestor {
          return ancestor, true;
        }
        ancestor := parent;
      }
      StopsAt(first, candidate, |ancestor|);
    }
    assert rest[..|rest|] == rest;
  }

  /** A directory that contains every path. */
  ghost predicate Contains(a: Path, first: Path, rest: seq<Path>) {
    a <= first && forall i :: 0 <= i < |rest| ==> a <= rest[i]
  }

  ghost predicate DeepestAncestor(a: Path, first: Path, rest: seq<Path>) {
    Contains(a, first, rest) && forall b :: Contains(b, first, rest) ==> b <= a
  }

  /** Every path right above `first` is made harmless by another one that leaves `first` no later. */
  ghost predicate PrefixesCovered(first: Path, rest: seq<Path>) {
    forall i :: 0 <= i < |rest| && rest[i] < first ==> CoveredBy(first, rest, |rest[i]|)
  }

  ghost predicate CoveredBy(first: Path, rest: seq<Path>, n: nat) {
    exists j :: 0 <= j < |rest| && !(rest[j] < first) && Common(first, rest[j]) <= n
  }

  lemma {:induction false} AncestorLengthBounds(first: Path, rest: seq<Path>, n: nat)
    ensures n <= AncestorLength(first, rest) <==>
            n <= |first| && forall i :: 0 <= i < |rest| ==> n <= Reached(first, rest[i])
  {
    if rest != [] {
      var last := |rest| - 1;
      AncestorLengthBounds(first, rest[..last], n);
      assert forall i :: 0 <= i < last ==> rest[..last][i] == rest[i];
      if forall i :: 0 <= i < |rest| ==> n <= Reached(first, rest[i]) {
        assert n <= Reached(first, rest[last]);
      }
    }
  }

  lemma CommonIsLongest(a: Path, b: Path, n: nat)
    requires n <= |a| && n <= |b| && a[..n] == b[..n]
    ensures n <= Common(a, b)
  {
  }

  /** The result is the deepest directory containing all paths if and only if the prefixes are covered. */
  lemma CommonAncestorIff(first: Path, rest: seq<Path>)
    ensures DeepestAncestor(first[..AncestorLength(first, rest)], first, rest) <==> PrefixesCovered(first, rest)
  {
    var n := AncestorLength(first, rest);
    var a := first[..n];
    AncestorLengthBounds(first, rest, n);
    if PrefixesCovered(first, rest) {
      forall i | 0 <= i < |rest| ensures a <= rest[i] {
        CoveredReach(first, rest, i, n);
      }
      forall b | Contains(b, first, rest) ensures b <= a {
        forall i | 0 <= i < |rest| ensures |b| <= Reached(first, rest[i]) {
          assert b == first[..|b|] == rest[i][..|b|];
          CommonIsLongest(first, rest[i], |b|);
        }
        AncestorLengthBounds(first, rest, |b|);
        assert b == a[..|b|];
      }
    }
    if DeepestAncestor(a, first, rest) {
      forall i | 0 <= i < |rest| && rest[i] < first ensures CoveredBy(first, rest, |rest[i]|) {
        TooDeepUncovered(first, rest, i);
      }
    }
  }

  /** A covered candidate holds the whole ancestor. */
  lemma CoveredReach(first: Path, rest: seq<Path>, i: nat, n: nat)
    requires i < |rest| && n <= |first| && PrefixesCovered(first, rest)
    requires forall k :: 0 <= k < |rest| ==> n <= Reached(first, rest[k])
    ensures first[..n] <= rest[i]
  {
  }

  /** When the result contains every path, some path that is no prefix ends the ancestor. */
  lemma TooDeepUncovered(first: Path, rest: seq<Path>, i: nat)
    requires i < |rest| && rest[i] < first
    requires Contains(first[..AncestorLength(first, rest)], first, rest)
    ensures CoveredBy(first, rest, |rest[i]|)
  {
    var n := AncestorLength(first, rest);
    assert first[..n] <= rest[i];
    var j := ShortestReach(first, rest, n);
    assert first[..n] <= rest[j];
    assert !(rest[j] < first);
  }

  lemma ShortestReach(first: Path, rest: seq<Path>, n: nat) returns (j: nat)
    requires n == AncestorLength(first, rest) < |first|
    ensures j < |rest| && Reached(first, rest[j]) == n
  {
    AncestorLengthBounds(first, rest, n + 1);
    AncestorLengthBounds(first, rest, n);
    j :| 0 <= j < |rest| && Reached(first, rest[j]) < n + 1;
  }

  // ----- copying -----

  /** Where a source file is copied to. */
  function Target(isolatedRoot: Path, copyRoot: Path, source: Path): Path {
    Joined(isolatedRoot, Relative(copyRoot, source))
  }

  lemma {:induction false} JoinedDown(base: Path, down: Path)
    requires IsResolved(down)
    ensures Joined(base, down) == base + down
    decreases |down|
  {
    if down != [] {
      assert down[0] != "..";
      JoinedDown(base + [down[0]], down[1..]);
      assert base + [down[0]] + down[1..] == base + down;
    }
  }

  /** A file below the copy root lands at the same place below the isolated root. */
  lemma TargetBelow(isolatedRoot: Path, copyRoot: Path, source: Path)
    requires copyRoot <= source && IsResolved(source)
    ensures Target(isolatedRoot, copyRoot, source) == isolatedRoot + source[|copyRoot|..]
  {
    CommonIsLongest(copyRoot, source, |copyRoot|);
    JoinedDown(isolatedRoot, source[|copyRoot|..]);
    assert Relative(copyRoot, source) == source[|copyRoot|..];
  }

  /** When no imported file is a prefix of the package root, every file is copied strictly inside the isolated root,
      different files to different places. */
  lemma CopyStaysInside(packageRoot: Path, files: seq<Path>, isolatedRoot: Path)
    requires forall i :: 0 <= i < |files| ==> IsResolved(files[i]) && !(files[i] <= packageRoot)
    ensures var copyRoot := packageRoot[..AncestorLength(packageRoot, files)];
            && DeepestAncestor(copyRoot, packageRoot, files)
            && (forall i :: 0 <= i < |files| ==> isolatedRoot < Target(isolatedRoot, copyRoot, files[i]))
            && (forall i, j :: 0 <= i < |files| && 0 <= j < |files| && files[i] != files[j] ==>
                  Target(isolatedRoot, copyRoot, files[i]) != Target(isolatedRoot, copyRoot, files[j]))
  {
    var copyRoot := packageRoot[..AncestorLength(packageRoot, files)];
    CommonAncestorIff(packageRoot, files);
    assert PrefixesCovered(packageRoot, files);
    assert DeepestAncestor(copyRoot, packageRoot, files);
    hide Target;
    forall i | 0 <= i < |files|
      ensures Target(isolatedRoot, copyRoot, files[i]) == isolatedRoot + files[i][|copyRoot|..]
      ensures copyRoot <= files[i] && |copyRoot| < |files[i]|
    {
      assert copyRoot <= files[i] && !(files[i] <= packageRoot);
      TargetBelow(isolatedRoot, copyRoot, files[i]);
    }
    forall i, j | 0 <= i < |files| && 0 <= j < |files| && files[i] != files[j]
      ensures Target(isolatedRoot, copyRoot, files[i]) != Target(isolatedRoot, copyRoot, files[j])
    {
      SuffixDiffers(isolatedRoot, copyRoot, files[i], files[j]);
    }
  }

  lemma SuffixDiffers(base: Path, root: Path, a: Path, b: Path)
    requires root <= a && root <= b && a != b
    ensures base + a[|root|..] != base + b[|root|..]
  {
    assert a == root + a[|root|..] && b == root + b[|root|..];
    var x, y := base + a[|root|..], base + b[|root|..];
    assert x[|base|..] == a[|root|..] && y[|base|..] == b[|root|..];
  }

  /** A path right above the package root is not recognised: the result is the package root itself. */
  lemma ParentMissed(dir: Path, name: string)
    ensures AncestorLength(dir + [name], [dir]) == |dir| + 1
    ensures !DeepestAncestor((dir + [name])[..|dir| + 1], dir + [name], [dir])
  {
  }
}
