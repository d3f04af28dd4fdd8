/** Choosing bundle roots from what a folder walk saw: directories whose index declares
    a version (confident), directories with typed concepts, and directories with an
    index. Paths are lists of segments; one path lies in another when that is a prefix. */
module BundleDetection {

  type Path = seq<string>

  datatype Confidence = Confident | Candidate

  datatype Root = Root(path: Path, confidence: Confidence)

  predicate AncestorOrSelf(ancestor: Path, descendant: Path) {
    ancestor <= descendant
  }

  // ----- The root that owns a typed concept's directory

  // An index at `dir`, and none at its parent inside the scanned folder.
  predicate ChainTop(indexed: set<Path>, folder: Path, dir: Path) {
    dir in indexed && (|dir| > |folder| ==> dir[..|dir| - 1] !in indexed)
  }

  // The nearest chain top from `dir` upward, inclusive; the folder when there is none.
  function OwningRoot(indexed: set<Path>, folder: Path, dir: Path): (r: Path)
    requires folder <= dir
    ensures folder <= r <= dir
    decreases |dir|
  {
    if ChainTop(indexed, folder, dir) then dir
    else if dir == folder then folder
    else OwningRoot(indexed, folder, dir[..|dir| - 1])
  }

  // A directory with an index whose parent, if that lies in the scanned folder, has none.
  ghost predicate Tops(indexed: set<Path>, folder: Path, p: Path) {
    p in indexed && forall up, name | p == up + [name] && folder <= up :: up !in indexed
  }

  // The root that owns the concepts of `dir`: the nearest top at or above it, or the folder when no
  // directory on the way has an index.
  ghost predicate Owns(indexed: set<Path>, folder: Path, dir: Path, root: Path) {
    && folder <= root <= dir
    && (forall p | folder <= p <= dir && Tops(indexed, folder, p) :: p <= root)
    && (Tops(indexed, folder, root) || (root == folder && forall p | folder <= p <= dir :: p !in indexed))
  }

  lemma ChainTopTops(indexed: set<Path>, folder: Path, p: Path)
    requires folder <= p
    ensures ChainTop(indexed, folder, p) <==> Tops(indexed, folder, p)
  {
    if p in indexed && |p| > |folder| {
      assert p == p[..|p| - 1] + [p[|p| - 1]] && folder <= p[..|p| - 1];
      assert forall up, name | p == up + [name] :: up == p[..|p| - 1];
    }
  }

  lemma OwnerIsUnique(indexed: set<Path>, folder: Path, dir: Path, a: Path, b: Path)
    requires Owns(indexed, folder, dir, a) && Owns(indexed, folder, dir, b)
    ensures a == b
  {
    assert Tops(indexed, folder, a) ==> a <= b;
    assert Tops(indexed, folder, b) ==> b <= a;
    assert Tops(indexed, folder, a) ==> a in indexed;
    assert Tops(indexed, folder, b) ==> b in indexed;
  }

  lemma OwningRootOwns(indexed: set<Path>, folder: Path, dir: Path)
    requires folder <= dir
    ensures Owns(indexed, folder, dir, OwningRoot(indexed, folder, dir))
  {
    var r := OwningRoot(indexed, folder, dir);
    OwningRootIsNearest(indexed, folder, dir);
    ChainTopTops(indexed, folder, r);
    forall p | folder <= p <= dir && Tops(indexed, folder, p) ensures p <= r {
      ChainTopTops(indexed, folder, p);
      assert p == dir[..|p|];
    }
    if !Tops(indexed, folder, r) {
      forall p | folder <= p <= dir ensures p !in indexed { assert p == dir[..|p|]; }
    }
  }

  // The climb finds the one owner.
  lemma OwnsIff(indexed: set<Path>, folder: Path, dir: Path, p: Path)
    requires folder <= dir
    ensures Owns(indexed, folder, dir, p) <==> p == OwningRoot(indexed, folder, dir)
  {
    OwningRootOwns(indexed, folder, dir);
    if Owns(indexed, folder, dir, p) { OwnerIsUnique(indexed, folder, dir, p, OwningRoot(indexed, folder, dir)); }
  }

  // The owning root by the climb: either the longest chain top at or above `dir`, or
  // the folder because no chain top lies between them.
  lemma {:induction false} OwningRootIsNearest(indexed: set<Path>, folder: Path, dir: Path)
    requires folder <= dir
    ensures var r := OwningRoot(indexed, folder, dir);
      && (ChainTop(indexed, folder, r) || r == folder)
      && (forall n | |r| < n <= |dir| :: !ChainTop(indexed, folder, dir[..n]))
      && (!ChainTop(indexed, folder, r) ==> forall n | |folder| <= n <= |dir| :: dir[..n] !in indexed)
    decreases |dir|
  {
    assert dir[..|dir|] == dir;
    if !ChainTop(indexed, folder, dir) && dir != folder {
      var up := dir[..|dir| - 1];
      OwningRootIsNearest(indexed, folder, up);
      var r := OwningRoot(indexed, folder, dir);
      forall n | |r| < n <= |dir| ensures !ChainTop(indexed, folder, dir[..n]) {
        if n < |dir| { assert dir[..n] == up[..n]; }
      }
      if !ChainTop(indexed, folder, r) {
        forall n | |folder| <= n <= |dir| ensures dir[..n] !in indexed {
          if n < |dir| { assert dir[..n] == up[..n]; } else { assert up[..|up|] == up; }
        }
      }
    }
  }

  method BundleRootFor(indexed: set<Path>, conceptDir: Path, folder: Path) returns (root: Path)
    requires folder <= conceptDir
    ensures root == OwningRoot(indexed, folder, conceptDir) && Owns(indexed, folder, conceptDir, root)
  {
    OwningRootOwns(indexed, folder, conceptDir);
    var cur := conceptDir;
    while true
      invariant folder <= cur <= conceptDir
      invariant OwningRoot(indexed, folder, cur) == OwningRoot(indexed, folder, conceptDir)
      decreases |cur|
    {
      if cur in indexed {
        var parentHasIndex := cur != folder && cur[..|cur| - 1] in indexed;
        if !parentHasIndex { return cur; }
      }
      if cur == folder { break; }
      cur := cur[..|cur| - 1];
    }
    root := folder;
  }

  // ----- Selection

  // The confident directories that no other confident directory contains.
  ghost predicate OutermostConfident(confident: seq<Path>, p: Path) {
    p in confident && forall c | c in confident && c <= p :: c == p
  }

  // A candidate that neither lies in nor contains a confident directory.
  ghost predicate ClearCandidate(confident: seq<Path>, p: Path) {
    forall c | c in confident :: !(c <= p) && !(p <= c)
  }

  ghost predicate AllUnder(folder: Path, dirs: seq<Path>) {
    forall k | 0 <= k < |dirs| :: folder <= dirs[k]
  }

  ghost predicate CandidateRoot(indexed: set<Path>, folder: Path, typed: seq<Path>, p: Path)
    requires AllUnder(folder, typed)
  {
    exists k :: 0 <= k < |typed| && Owns(indexed, folder, typed[k], p)
  }

  lemma CandidateRootIff(indexed: set<Path>, folder: Path, typed: seq<Path>, p: Path)
    requires AllUnder(folder, typed)
    ensures CandidateRoot(indexed, folder, typed, p)
      <==> exists k :: 0 <= k < |typed| && OwningRoot(indexed, folder, typed[k]) == p
  {
    forall k | 0 <= k < |typed| ensures
      Owns(indexed, folder, typed[k], p) <==> p == OwningRoot(indexed, folder, typed[k])
    {
      OwnsIff(indexed, folder, typed[k], p);
    }
  }

  // Distinct owning roots of the typed directories. (The order is that of the paths in
  // the source; only the set of paths matters to the selection.)
  method CandidateRoots(indexed: set<Path>, folder: Path, typed: seq<Path>) returns (roots: seq<Path>)
    requires AllUnder(folder, typed)
    ensures forall p :: p in roots <==> CandidateRoot(indexed, folder, typed, p)
  {
    roots := [];
    var i := 0;
    while i < |typed|
      invariant 0 <= i <= |typed|
      invariant forall p :: p in roots <==> exists k :: 0 <= k < i && OwningRoot(indexed, folder, typed[k]) == p
    {
      var root := BundleRootFor(indexed, typed[i], folder);
      if root !in roots { roots := roots + [root]; }
      i := i + 1;
    }
    forall p ensures p in roots <==> CandidateRoot(indexed, folder, typed, p) {
      CandidateRootIff(indexed, folder, typed, p);
    }
  }

  // Stable insertion by number of components.
  function Insert(r: Root, sorted: seq<Root>): seq<Root> {
    if sorted == [] then [r]
    else if |r.path| < |sorted[0].path| then [r] + sorted
    else [sorted[0]] + Insert(r, sorted[1..])
  }

  function SortByDepth(roots: seq<Root>): seq<Root> {
    if roots == [] then []
    else Insert(roots[|roots| - 1], SortByDepth(roots[..|roots| - 1]))
  }

  ghost predicate ByDepth(roots: seq<Root>) {
    forall i, j | 0 <= i < j < |roots| :: |roots[i].path| <= |roots[j].path|
  }

  lemma {:induction false} InsertByDepth(r: Root, sorted: seq<Root>)
    requires ByDepth(sorted)
    ensures ByDepth(Insert(r, sorted))
    ensures forall x :: x in Insert(r, sorted) <==> x == r || x in sorted
  {
    if sorted != [] && |r.path| >= |sorted[0].path| {
      InsertByDepth(r, sorted[1..]);
      assert sorted == [sorted[0]] + sorted[1..];
      var rest := Insert(r, sorted[1..]);
      forall j | 0 <= j < |rest| ensures |sorted[0].path| <= |rest[j].path| {
        assert rest[j] in rest;
      }
    }
  }

  lemma {:induction false} SortByDepthHolds(roots: seq<Root>)
    ensures ByDepth(SortByDepth(roots))
    ensures forall x :: x in SortByDepth(roots) <==> x in roots
  {
    if roots != [] {
      var front := roots[..|roots| - 1];
      SortByDepthHolds(front);
      InsertByDepth(roots[|roots| - 1], SortByDepth(front));
      assert roots == front + [roots[|roots| - 1]];
    }
  }

  // No root lies inside another.
  ghost predicate Apart(roots: seq<Root>) {
    forall i, j | 0 <= i < |roots| && 0 <= j < |roots| && i != j :: !(roots[i].path <= roots[j].path)
  }

  ghost predicate Covers(roots: seq<Root>, p: Path) {
    exists i :: 0 <= i < |roots| && roots[i].path <= p
  }

  // The roots are the outermost of the kept ones.
  ghost predicate Outermost(kept: seq<Root>, roots: seq<Root>) {
    && Apart(roots)
    && (forall r | r in roots :: r in kept)
    && (forall r, k | r in roots && k in kept && k.path <= r.path :: k.path == r.path)
    && (forall k | k in kept :: Covers(roots, k.path))
  }

  // Nothing kept so far lies above a root that is not covered, nor below one this deep.
  lemma UncoveredIsApart(kept: seq<Root>, roots: seq<Root>, next: Root, i: nat)
    requires Outermost(kept, roots) && !Covers(roots, next.path)
    requires forall k | k in kept :: |k.path| <= |next.path|
    requires i < |roots|
    ensures !(roots[i].path <= next.path) && !(next.path <= roots[i].path)
  {
    assert roots[i] in roots;
    assert |roots[i].path| <= |next.path|;
  }

  lemma ApartSnoc(roots: seq<Root>, next: Root)
    requires Apart(roots)
    requires forall i | 0 <= i < |roots| :: !(roots[i].path <= next.path) && !(next.path <= roots[i].path)
    ensures Apart(roots + [next])
  {
  }

  lemma CoversMore(roots: seq<Root>, next: Root, p: Path)
    requires Covers(roots, p) || next.path <= p
    ensures Covers(roots + [next], p)
  {
    var after := roots + [next];
    if Covers(roots, p) {
      var i :| 0 <= i < |roots| && roots[i].path <= p;
      assert after[i].path <= p;
    } else {
      assert after[|roots|].path <= p;
    }
  }

  // A kept path above an uncovered one can only be that path.
  lemma NothingAboveUncovered(kept: seq<Root>, roots: seq<Root>, next: Root, k: Root)
    requires Outermost(kept, roots) && k in kept && k.path <= next.path
    ensures Covers(roots, next.path)
  {
    var i :| 0 <= i < |roots| && roots[i].path <= k.path;
    PrefixOfPrefix(roots[i].path, k.path, next.path);
  }

  lemma KeepRoot(kept: seq<Root>, roots: seq<Root>, next: Root)
    requires Outermost(kept, roots) && !Covers(roots, next.path)
    requires forall k | k in kept :: |k.path| <= |next.path|
    ensures Outermost(kept + [next], roots + [next])
  {
    var after := roots + [next];
    forall i | 0 <= i < |roots| ensures !(roots[i].path <= next.path) && !(next.path <= roots[i].path) {
      UncoveredIsApart(kept, roots, next, i);
    }
    ApartSnoc(roots, next);
    forall r | r in roots ensures !(next.path <= r.path) {
      var i :| 0 <= i < |roots| && roots[i] == r;
    }
    forall k | k in kept + [next] ensures Covers(after, k.path) {
      CoversMore(roots, next, k.path);
    }
    forall r, k | r in after && k in kept + [next] && k.path <= r.path ensures k.path == r.path {
      if k in kept && r !in roots { NothingAboveUncovered(kept, roots, next, k); }
    }
  }

  lemma PrefixOfPrefix(a: Path, b: Path, c: Path)
    requires a <= b && b <= c
    ensures a <= c
  {
  }

  lemma DropRoot(kept: seq<Root>, roots: seq<Root>, next: Root)
    requires Outermost(kept, roots) && Covers(roots, next.path)
    requires forall k | k in kept :: |k.path| <= |next.path|
    ensures Outermost(kept + [next], roots)
  {
  }

  // Outermost wins: walk the roots from shallow to deep and keep those under no kept one.
  method KeepOutermost(kept: seq<Root>) returns (roots: seq<Root>)
    ensures Outermost(kept, roots)
  {
    var sorted := SortByDepth(kept);
    SortByDepthHolds(kept);
    roots := [];
    var i := 0;
    while i < |sorted|
      invariant 0 <= i <= |sorted|
      invariant Outermost(sorted[..i], roots)
    {
      var next := sorted[i];
      assert sorted[..i + 1] == sorted[..i] + [next];
      if exists k :: 0 <= k < |roots| && AncestorOrSelf(roots[k].path, next.path) {
        DropRoot(sorted[..i], roots, next);
      } else {
        KeepRoot(sorted[..i], roots, next);
        roots := roots + [next];
      }
      i := i + 1;
    }
    assert sorted[..i] == sorted;
    SameRoots(sorted, kept, roots);
  }

  lemma SameRoots(sorted: seq<Root>, kept: seq<Root>, roots: seq<Root>)
    requires Outermost(sorted, roots) && forall x :: x in sorted <==> x in kept
    ensures Outermost(kept, roots)
  {
  }

  // ----- The scan

  // What the overlap rules leave before the final outermost pass.
  ghost predicate Kept(confident: seq<Path>, candidates: seq<Path>, r: Root) {
    match r.confidence
    case Confident => OutermostConfident(confident, r.path)
    case Candidate => r.path in candidates && ClearCandidate(confident, r.path)
  }

  method KeepConfident(confident: seq<Path>) returns (kept: seq<Root>)
    ensures forall r :: r in kept <==> r.confidence == Confident && OutermostConfident(confident, r.path)
  {
    kept := [];
    var i := 0;
    while i < |confident|
      invariant 0 <= i <= |confident|
      invariant forall r :: r in kept <==>
        r.confidence == Confident && OutermostConfident(confident, r.path) && r.path in confident[..i]
    {
      var dir := confident[i];
      assert confident[..i + 1] == confident[..i] + [dir];
      if !(exists c :: c in confident && c != dir && AncestorOrSelf(c, dir)) {
        kept := kept + [Root(dir, Confident)];
      }
      i := i + 1;
    }
    assert confident[..i] == confident;
  }

  method KeepCandidates(confident: seq<Path>, candidates: seq<Path>) returns (kept: seq<Root>)
    ensures forall r :: r in kept <==> r.confidence == Candidate && Kept(confident, candidates, r)
  {
    kept := [];
    var i := 0;
    while i < |candidates|
      invariant 0 <= i <= |candidates|
      invariant forall r :: r in kept <==>
        r.confidence == Candidate && r.path in candidates[..i] && ClearCandidate(confident, r.path)
    {
      var dir := candidates[i];
      assert candidates[..i + 1] == candidates[..i] + [dir];
      var insideConfident := exists c :: c in confident && AncestorOrSelf(c, dir);
      var wrapsConfident := exists c :: c in confident && AncestorOrSelf(dir, c);
      if !(insideConfident || wrapsConfident) {
        kept := kept + [Root(dir, Candidate)];
      }
      i := i + 1;
    }
    assert candidates[..i] == candidates;
  }

  // A candidate root that survives: clear of confident directories, and under no other such root.
  ghost predicate OutermostCandidate(confident: seq<Path>, candidates: seq<Path>, p: Path) {
    && p in candidates && ClearCandidate(confident, p)
    && forall q | q in candidates && ClearCandidate(confident, q) && q <= p :: q == p
  }

  ghost predicate Selected(confident: seq<Path>, candidates: seq<Path>, roots: seq<Root>) {
    && Apart(roots)
    && (forall p :: Root(p, Confident) in roots <==> OutermostConfident(confident, p))
    && (forall p :: Root(p, Candidate) in roots <==> OutermostCandidate(confident, candidates, p))
  }

  lemma ConfidentSelected(confident: seq<Path>, candidates: seq<Path>, kept: seq<Root>, roots: seq<Root>, p: Path)
    requires forall r :: r in kept <==> Kept(confident, candidates, r)
    requires Outermost(kept, roots)
    ensures Root(p, Confident) in roots <==> OutermostConfident(confident, p)
  {
    if OutermostConfident(confident, p) {
      assert Root(p, Confident) in kept;
      var i :| 0 <= i < |roots| && roots[i].path <= p;
      assert roots[i] in roots;
      assert Kept(confident, candidates, roots[i]);
    }
    if Root(p, Confident) in roots {
      assert Kept(confident, candidates, Root(p, Confident));
    }
  }

  lemma CandidateSelected(confident: seq<Path>, candidates: seq<Path>, kept: seq<Root>, roots: seq<Root>, p: Path)
    requires forall r :: r in kept <==> Kept(confident, candidates, r)
    requires Outermost(kept, roots)
    ensures Root(p, Candidate) in roots <==> OutermostCandidate(confident, candidates, p)
  {
    if OutermostCandidate(confident, candidates, p) {
      assert Root(p, Candidate) in kept;
      var i :| 0 <= i < |roots| && roots[i].path <= p;
      assert roots[i] in roots;
      assert Kept(confident, candidates, roots[i]);
    }
    if Root(p, Candidate) in roots {
      forall q | q in candidates && ClearCandidate(confident, q) && q <= p ensures q == p {
        assert Root(q, Candidate) in kept;
      }
    }
  }

  // What a scan returns, by the candidate roots it found.
  ghost predicate Detected(folder: Path, confident: seq<Path>, typed: seq<Path>, indexed: set<Path>,
                           candidates: seq<Path>, roots: seq<Root>)
    requires AllUnder(folder, typed)
  {
    && (forall p :: p in candidates <==> CandidateRoot(indexed, folder, typed, p))
    && Selected(confident, candidates, roots)
  }

  method Scan(folder: Path, confident: seq<Path>, typed: seq<Path>, indexed: set<Path>) returns (roots: seq<Root>)
    requires AllUnder(folder, typed)
    ensures exists candidates :: Detected(folder, confident, typed, indexed, candidates, roots)
  {
    var kept := KeepConfident(confident);
    var found := CandidateRoots(indexed, folder, typed);
    var more := KeepCandidates(confident, found);
    assert forall r :: r in kept + more <==> Kept(confident, found, r);
    roots := KeepOutermost(kept + more);
    forall p ensures Root(p, Confident) in roots <==> OutermostConfident(confident, p) {
      ConfidentSelected(confident, found, kept + more, roots, p);
    }
    forall p ensures Root(p, Candidate) in roots <==> OutermostCandidate(confident, found, p) {
      CandidateSelected(confident, found, kept + more, roots, p);
    }
    assert Detected(folder, confident, typed, indexed, found, roots);
  }

  // ----- Which typed concepts end up under a root

  lemma {:induction false} OutermostAbove(confident: seq<Path>, c: Path) returns (top: Path)
    requires c in confident
    ensures OutermostConfident(confident, top) && top <= c
    decreases |c|
  {
    if OutermostConfident(confident, c) {
      top := c;
    } else {
      var d :| d in confident && d <= c && d != c;
      top := OutermostAbove(confident, d);
    }
  }

  lemma {:induction false} OutermostCandidateAbove(confident: seq<Path>, candidates: seq<Path>, c: Path)
    returns (top: Path)
    requires c in candidates && ClearCandidate(confident, c)
    ensures OutermostCandidate(confident, candidates, top) && top <= c
    decreases |c|
  {
    if OutermostCandidate(confident, candidates, c) {
      top := c;
    } else {
      var d :| d in candidates && ClearCandidate(confident, d) && d <= c && d != c;
      top := OutermostCandidateAbove(confident, candidates, d);
    }
  }

  // Two owning roots above the same directory: neither lies strictly between it and its own root.
  lemma NoOwnerBetween(indexed: set<Path>, folder: Path, d: Path, other: Path)
    requires folder <= d && folder <= other
    requires OwningRoot(indexed, folder, other) <= d
    ensures |OwningRoot(indexed, folder, other)| <= |OwningRoot(indexed, folder, d)|
  {
    OwningRootIsNearest(indexed, folder, d);
    OwningRootIsNearest(indexed, folder, other);
    var r := OwningRoot(indexed, folder, other);
    assert d[..|r|] == r;
  }

  // A directory with typed concepts lies under a returned root, unless a confident
  // directory inside its owning root pushed that root out and none lies above the
  // directory itself.
  lemma CoveredExactly(folder: Path, confident: seq<Path>, typed: seq<Path>, indexed: set<Path>, roots: seq<Root>,
                       k: nat)
    requires AllUnder(folder, typed) && k < |typed|
    requires exists candidates :: Detected(folder, confident, typed, indexed, candidates, roots)
    ensures Covers(roots, typed[k]) <==>
      || (exists c :: c in confident && c <= typed[k])
      || (exists own :: Owns(indexed, folder, typed[k], own) && forall c | c in confident :: !(own <= c))
  {
    var candidates :| Detected(folder, confident, typed, indexed, candidates, roots);
    var d := typed[k];
    var own := OwningRoot(indexed, folder, d);
    OwningRootOwns(indexed, folder, d);
    forall p | Owns(indexed, folder, d, p) ensures p == own { OwnsIff(indexed, folder, d, p); }
    if exists c :: c in confident && c <= d {
      var c :| c in confident && c <= d;
      var top := OutermostAbove(confident, c);
      CoverFromRoot(roots, Root(top, Confident), d);
    } else if !(exists c :: c in confident && own <= c) {
      assert CandidateRoot(indexed, folder, typed, own);
      assert ClearCandidate(confident, own);
      var top := OutermostCandidateAbove(confident, candidates, own);
      CoverFromRoot(roots, Root(top, Candidate), d);
    } else if Covers(roots, d) {
      var i :| 0 <= i < |roots| && roots[i].path <= d;
      UncoveredOwner(folder, confident, typed, indexed, candidates, roots, k, roots[i]);
    }
  }

  lemma CoverFromRoot(roots: seq<Root>, r: Root, d: Path)
    requires r in roots && r.path <= d
    ensures Covers(roots, d)
  {
  }

  // A returned root above d, none of them confident, keeps confident directories out of d's own root.
  lemma UncoveredOwner(folder: Path, confident: seq<Path>, typed: seq<Path>, indexed: set<Path>,
                       candidates: seq<Path>, roots: seq<Root>, k: nat, r: Root)
    requires AllUnder(folder, typed) && k < |typed|
    requires forall p :: p in candidates <==> CandidateRoot(indexed, folder, typed, p)
    requires Selected(confident, candidates, roots)
    requires r in roots && r.path <= typed[k]
    requires !(exists c :: c in confident && c <= typed[k])
    ensures !(exists c :: c in confident && OwningRoot(indexed, folder, typed[k]) <= c)
  {
    var d := typed[k];
    var own := OwningRoot(indexed, folder, d);
    assert r == Root(r.path, r.confidence);
    assert r.confidence == Candidate;
    CandidateRootIff(indexed, folder, typed, r.path);
    var m :| 0 <= m < |typed| && OwningRoot(indexed, folder, typed[m]) == r.path;
    NoOwnerBetween(indexed, folder, d, typed[m]);
    assert r.path == d[..|r.path|] && own == d[..|own|];
    assert r.path <= own;
    forall c | c in confident ensures !(own <= c) {
      if own <= c { PrefixOfPrefix(r.path, own, c); }
    }
  }
}
