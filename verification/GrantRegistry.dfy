/** The registry of folder grants and of the bundle roots found below them. Paths are in
    canonical form; what the file system answers is an argument, and so is whether the
    grant file could be written. A write that fails is reported after the change was made. */
module GrantRegistry {
  import opened Options
  import opened StringOrder

  const MAX_GRANTS := 128
  const MAX_ROOT_BYTES := 32 * 1024

  datatype Error =
    | FolderUnavailable | NotAFolder | NotUtf8 | TooManyGrants | NotSaved
    | AccessDenied | RootUnavailable | RootEscaped | InvalidFile

  datatype Result<+T> = Ok(value: T) | Err(error: Error)

  datatype Kind = LocalFolder | RemoteCache

  datatype Path = Path(segments: seq<string>) {
    predicate StartsWith(base: Path) {
      base.segments <= segments
    }
  }

  // What canonicalizing a path yields when it succeeds.
  datatype Location = Location(path: Path, isDirectory: bool)

  datatype FolderGrant = FolderGrant(root: Path, kind: Kind)

  // One entry of the grant file.
  datatype Entry = Entry(root: Path, kind: Kind, isAbsolute: bool, rootBytes: nat)

  // ----- Lists of grants

  ghost predicate DistinctRoots(grants: seq<FolderGrant>) {
    forall i, j | 0 <= i < j < |grants| :: grants[i].root != grants[j].root
  }

  predicate HasRoot(grants: seq<FolderGrant>, root: Path) {
    exists i :: 0 <= i < |grants| && grants[i].root == root
  }

  // Some granted folder holds the path.
  predicate Covers(grants: seq<FolderGrant>, path: Path) {
    exists i :: 0 <= i < |grants| && path.StartsWith(grants[i].root)
  }

  ghost predicate AllCovered(grants: seq<FolderGrant>, paths: seq<Path>) {
    forall i | 0 <= i < |paths| :: Covers(grants, paths[i])
  }

  // `retain` on the grants: all but the given root.
  function Except(grants: seq<FolderGrant>, root: Path): seq<FolderGrant> {
    if grants == [] then []
    else
      var last := grants[|grants| - 1];
      Except(grants[..|grants| - 1], root) + if last.root == root then [] else [last]
  }

  // `retain` on the bundle roots after a revocation.
  function StillCovered(grants: seq<FolderGrant>, paths: seq<Path>): seq<Path> {
    if paths == [] then []
    else
      var last := paths[|paths| - 1];
      StillCovered(grants, paths[..|paths| - 1]) + if Covers(grants, last) then [last] else []
  }

  // `retain` on the bundle roots before new ones are registered below a folder.
  function Outside(paths: seq<Path>, folder: Path): seq<Path> {
    if paths == [] then []
    else
      var last := paths[|paths| - 1];
      Outside(paths[..|paths| - 1], folder) + if last.StartsWith(folder) then [] else [last]
  }

  // The granted folders that hold the path, in the order of the grants.
  function FoldersOf(grants: seq<FolderGrant>, path: Path): seq<Path> {
    if grants == [] then []
    else
      var last := grants[|grants| - 1];
      FoldersOf(grants[..|grants| - 1], path) + if path.StartsWith(last.root) then [last.root] else []
  }

  // ----- What the lists keep, said of the paths alone

  // The path is the folder or lies below it.
  ghost predicate Within(p: Path, folder: Path) {
    exists rest :: p.segments == folder.segments + rest
  }

  lemma WithinIff(p: Path, folder: Path)
    ensures p.StartsWith(folder) <==> Within(p, folder)
  {
    if p.StartsWith(folder) { assert p.segments == folder.segments + p.segments[|folder.segments|..]; }
  }

  ghost function OtherThan(root: Path): FolderGrant -> bool {
    (g: FolderGrant) => g.root != root
  }

  ghost function Holding(path: Path): FolderGrant -> bool {
    (g: FolderGrant) => Within(path, g.root)
  }

  ghost function NotBelow(folder: Path): Path -> bool {
    (p: Path) => !Within(p, folder)
  }

  ghost function HeldBy(grants: seq<FolderGrant>): Path -> bool {
    (p: Path) => exists i :: 0 <= i < |grants| && Within(p, grants[i].root)
  }

  lemma CoversIff(grants: seq<FolderGrant>, p: Path)
    ensures Covers(grants, p) <==> HeldBy(grants)(p)
  {
    forall i | 0 <= i < |grants| ensures p.StartsWith(grants[i].root) <==> Within(p, grants[i].root) {
      WithinIff(p, grants[i].root);
    }
  }

  lemma {:induction false} ExceptKeeps(grants: seq<FolderGrant>, root: Path)
    ensures Keeps(grants, Except(grants, root), OtherThan(root))
  {
    if grants == [] {
      KeepsNothing(OtherThan(root));
    } else {
      var (front, last) := (grants[..|grants| - 1], grants[|grants| - 1]);
      assert grants == front + [last];
      ExceptKeeps(front, root);
      KeepsOneMoreBehind(front, Except(front, root), last, OtherThan(root));
    }
  }

  lemma {:induction false} StillCoveredKeeps(grants: seq<FolderGrant>, paths: seq<Path>)
    ensures Keeps(paths, StillCovered(grants, paths), HeldBy(grants))
  {
    if paths == [] {
      KeepsNothing(HeldBy(grants));
    } else {
      var (front, last) := (paths[..|paths| - 1], paths[|paths| - 1]);
      assert paths == front + [last];
      CoversIff(grants, last);
      StillCoveredKeeps(grants, front);
      KeepsOneMoreBehind(front, StillCovered(grants, front), last, HeldBy(grants));
    }
  }

  lemma {:induction false} OutsideKeeps(paths: seq<Path>, folder: Path)
    ensures Keeps(paths, Outside(paths, folder), NotBelow(folder))
  {
    if paths == [] {
      KeepsNothing(NotBelow(folder));
    } else {
      var (front, last) := (paths[..|paths| - 1], paths[|paths| - 1]);
      assert paths == front + [last];
      WithinIff(last, folder);
      OutsideKeeps(front, folder);
      KeepsOneMoreBehind(front, Outside(front, folder), last, NotBelow(folder));
    }
  }

  // The roots of these grants, in order.
  ghost predicate RootsOf(held: seq<FolderGrant>, roots: seq<Path>) {
    |roots| == |held| && forall k | 0 <= k < |held| :: roots[k] == held[k].root
  }

  lemma {:induction false} FoldersOfKeeps(grants: seq<FolderGrant>, path: Path) returns (held: seq<FolderGrant>)
    ensures Keeps(grants, held, Holding(path)) && RootsOf(held, FoldersOf(grants, path))
  {
    if grants == [] {
      KeepsNothing(Holding(path));
      held := [];
    } else {
      var (front, last) := (grants[..|grants| - 1], grants[|grants| - 1]);
      assert grants == front + [last];
      WithinIff(path, last.root);
      var before := FoldersOfKeeps(front, path);
      KeepsOneMoreBehind(front, before, last, Holding(path));
      held := if path.StartsWith(last.root) then before + [last] else before;
    }
  }

  // Some place holds a, and b stands neither there nor before.
  ghost predicate ComesBefore(paths: seq<Path>, a: Path, b: Path) {
    exists k :: 0 <= k < |paths| && paths[k] == a && forall m | 0 <= m <= k :: paths[m] != b
  }

  // Each path once, in the order of its first place.
  ghost predicate FirstsOf(paths: seq<Path>, firsts: seq<Path>) {
    && (forall p :: p in firsts <==> p in paths)
    && (forall i, j | 0 <= i < j < |firsts| :: ComesBefore(paths, firsts[i], firsts[j]))
  }

  lemma StillComesBefore(paths: seq<Path>, p: Path, a: Path, b: Path)
    requires ComesBefore(paths, a, b)
    ensures ComesBefore(paths + [p], a, b)
  {
    var k :| 0 <= k < |paths| && paths[k] == a && forall m | 0 <= m <= k :: paths[m] != b;
    assert (paths + [p])[k] == a;
  }

  lemma NewComesLast(paths: seq<Path>, a: Path, b: Path)
    requires a in paths && b !in paths
    ensures ComesBefore(paths + [b], a, b)
  {
    var k :| 0 <= k < |paths| && paths[k] == a;
    assert (paths + [b])[k] == a;
  }

  lemma FirstsOneMore(paths: seq<Path>, firsts: seq<Path>, p: Path)
    requires FirstsOf(paths, firsts)
    ensures FirstsOf(paths + [p], if p in firsts then firsts else firsts + [p])
  {
    var firsts' := if p in firsts then firsts else firsts + [p];
    forall i, j | 0 <= i < j < |firsts'| ensures ComesBefore(paths + [p], firsts'[i], firsts'[j]) {
      if j < |firsts| {
        StillComesBefore(paths, p, firsts[i], firsts[j]);
      } else {
        assert firsts[i] in firsts;
        NewComesLast(paths, firsts[i], p);
      }
    }
  }

  lemma {:induction false} ExceptHolds(grants: seq<FolderGrant>, root: Path)
    requires DistinctRoots(grants)
    ensures DistinctRoots(Except(grants, root)) && !HasRoot(Except(grants, root), root)
    ensures forall g :: g in Except(grants, root) <==> g in grants && g.root != root
    ensures |Except(grants, root)| == |grants| - if HasRoot(grants, root) then 1 else 0
  {
    if grants != [] {
      var n := |grants| - 1;
      var front := grants[..n];
      ExceptHolds(front, root);
      var r := Except(front, root);
      assert grants == front + [grants[n]];
      forall i | 0 <= i < |r| ensures r[i].root != grants[n].root {
        assert r[i] in front;
      }
      assert HasRoot(grants, root) <==> HasRoot(front, root) || grants[n].root == root by {
        if HasRoot(front, root) {
          var i :| 0 <= i < n && front[i].root == root;
          assert grants[i].root == root;
        }
        if HasRoot(grants, root) {
          var i :| 0 <= i <= n && grants[i].root == root;
          assert i == n || front[i].root == root;
        }
      }
    }
  }

  lemma {:induction false} StillCoveredHolds(grants: seq<FolderGrant>, paths: seq<Path>)
    ensures AllCovered(grants, StillCovered(grants, paths))
    ensures forall p :: p in StillCovered(grants, paths) <==> p in paths && Covers(grants, p)
    ensures Distinct(paths) ==> Distinct(StillCovered(grants, paths))
  {
    if paths != [] {
      var n := |paths| - 1;
      StillCoveredHolds(grants, paths[..n]);
      assert paths == paths[..n] + [paths[n]];
    }
  }

  lemma {:induction false} OutsideHolds(paths: seq<Path>, folder: Path)
    ensures forall p :: p in Outside(paths, folder) <==> p in paths && !p.StartsWith(folder)
    ensures Distinct(paths) ==> Distinct(Outside(paths, folder))
  {
    if paths != [] {
      var n := |paths| - 1;
      OutsideHolds(paths[..n], folder);
      assert paths == paths[..n] + [paths[n]];
    }
  }

  lemma {:induction false} FoldersOfHolds(grants: seq<FolderGrant>, path: Path)
    ensures forall i | 0 <= i < |FoldersOf(grants, path)| ::
      HasRoot(grants, FoldersOf(grants, path)[i]) && path.StartsWith(FoldersOf(grants, path)[i])
    ensures forall i | 0 <= i < |grants| && path.StartsWith(grants[i].root) :: grants[i].root in FoldersOf(grants, path)
    ensures FoldersOf(grants, path) == [] <==> !Covers(grants, path)
  {
    if grants != [] {
      var n := |grants| - 1;
      var front := grants[..n];
      FoldersOfHolds(front, path);
      forall root | HasRoot(front, root) ensures HasRoot(grants, root) {
        var i :| 0 <= i < n && front[i].root == root;
        assert grants[i].root == root;
      }
      forall i | 0 <= i < n ensures grants[i] == front[i] {
      }
    }
  }

  // ----- What was granted and revoked so far

  datatype Change = Granted(root: Path) | Revoked(root: Path)

  // The last change to the folder granted it, or nothing revoked the grant it began with.
  ghost predicate Standing(initially: set<Path>, changes: seq<Change>, root: Path) {
    || (exists k :: 0 <= k < |changes| && changes[k] == Granted(root)
          && forall j | k < j < |changes| :: changes[j] != Revoked(root))
    || (root in initially && forall k | 0 <= k < |changes| :: changes[k] != Revoked(root))
  }

  lemma StandingAfter(initially: set<Path>, changes: seq<Change>, change: Change, root: Path)
    ensures Standing(initially, changes + [change], root)
      <==> change == Granted(root) || (change != Revoked(root) && Standing(initially, changes, root))
  {
    var more := changes + [change];
    assert more[|changes|] == change;
    if Standing(initially, changes, root) && change != Revoked(root) {
      if k :| 0 <= k < |changes| && changes[k] == Granted(root) &&
              forall j | k < j < |changes| :: changes[j] != Revoked(root)
      {
        assert more[k] == Granted(root);
      }
    }
    if Standing(initially, more, root) && change != Granted(root) {
      if k :| 0 <= k < |more| && more[k] == Granted(root) && forall j | k < j < |more| :: more[j] != Revoked(root) {
        assert changes[k] == Granted(root);
        assert forall j | k < j < |changes| :: changes[j] == more[j];
      } else {
        assert forall k | 0 <= k < |changes| :: changes[k] == more[k];
      }
    }
  }

  // The granted roots are those that stand.
  ghost predicate Follows(initially: set<Path>, changes: seq<Change>, grants: seq<FolderGrant>) {
    forall root :: HasRoot(grants, root) <==> Standing(initially, changes, root)
  }

  lemma FollowsGranted(initially: set<Path>, changes: seq<Change>, grants: seq<FolderGrant>, root: Path,
                       more: seq<FolderGrant>)
    requires Follows(initially, changes, grants)
    requires forall p :: HasRoot(more, p) <==> HasRoot(grants, p) || p == root
    ensures Follows(initially, changes + [Granted(root)], more)
  {
    forall p ensures HasRoot(more, p) <==> Standing(initially, changes + [Granted(root)], p) {
      StandingAfter(initially, changes, Granted(root), p);
    }
  }

  lemma FollowsRevoked(initially: set<Path>, changes: seq<Change>, grants: seq<FolderGrant>, root: Path)
    requires Follows(initially, changes, grants) && DistinctRoots(grants)
    ensures Follows(initially, changes + [Revoked(root)], Except(grants, root))
  {
    ExceptHolds(grants, root);
    forall p ensures HasRoot(Except(grants, root), p) <==> Standing(initially, changes + [Revoked(root)], p) {
      StandingAfter(initially, changes, Revoked(root), p);
      ExceptHas(grants, root, p);
    }
  }

  lemma ExceptHas(grants: seq<FolderGrant>, root: Path, p: Path)
    requires DistinctRoots(grants)
    ensures HasRoot(Except(grants, root), p) <==> HasRoot(grants, p) && p != root
  {
    ExceptHolds(grants, root);
    var rest := Except(grants, root);
    if HasRoot(rest, p) {
      var i :| 0 <= i < |rest| && rest[i].root == p;
      assert rest[i] in rest;
    }
    if HasRoot(grants, p) && p != root {
      var i :| 0 <= i < |grants| && grants[i].root == p;
      assert grants[i] in rest;
    }
  }

  class BundleGrantState {
    var grants: seq<FolderGrant>
    var bundleRoots: seq<Path>

    // The grants as last written to the grant file, or None after a write that failed.
    var saved: Option<seq<FolderGrant>>

    // The folders granted at the start and every change since.
    ghost var initially: set<Path>
    ghost var changes: seq<Change>

    ghost predicate Valid()
      reads this
    {
      && |grants| <= MAX_GRANTS
      && DistinctRoots(grants)
      && Distinct(bundleRoots)
      && AllCovered(grants, bundleRoots)
      && Follows(initially, changes, grants)
    }

    // `read` is what the grant file gave; a file that is refused counts as no grants.
    constructor LoadFrom(read: Result<seq<FolderGrant>>)
      requires read.Ok? ==> |read.value| <= MAX_GRANTS && DistinctRoots(read.value)
      ensures Valid() && bundleRoots == [] && changes == []
      ensures grants == if read.Ok? then read.value else []
    {
      grants := if read.Ok? then read.value else [];
      bundleRoots := [];
      saved := None;
      initially := set k | 0 <= k < (if read.Ok? then |read.value| else 0) :: read.value[k].root;
      changes := [];
    }

    method WriteGrants(written: bool) returns (r: Result<()>)
      modifies this`saved
      ensures r == if written then Ok(()) else Err(NotSaved)
      ensures saved == if written then Some(grants) else None
    {
      if !written {
        saved := None;
        return Err(NotSaved);
      }
      saved := Some(grants);
      r := Ok(());
    }

    method Grant(root: Option<Location>, isUtf8: bool, kind: Kind, written: bool) returns (r: Result<Path>)
      requires Valid()
      modifies this`grants, this`saved, this`changes
      ensures Valid()
      ensures r.Ok? ==> root.Some? && r.value == root.value.path
      ensures r.Ok? || r == Err(NotSaved) ==>
        && root.Some? && HasRoot(grants, root.value.path)
        && (forall i | 0 <= i < |grants| ::
              if i < |old(grants)|
              then grants[i].root == old(grants)[i].root
                && grants[i].kind == if grants[i].root == root.value.path then kind else old(grants)[i].kind
              else grants[i] == FolderGrant(root.value.path, kind))
        && |grants| == |old(grants)| + if HasRoot(old(grants), root.value.path) then 0 else 1
      ensures r.Ok? || r == Err(NotSaved) ==> changes == old(changes) + [Granted(root.value.path)]
      ensures r.Ok? ==> saved == Some(grants)
      ensures r.Err? && r.error != NotSaved ==>
        grants == old(grants) && saved == old(saved) && changes == old(changes)
      ensures r.Ok? <==>
        && root.Some? && root.value.isDirectory && isUtf8 && written
        && (|old(grants)| < 128 || HasRoot(old(grants), root.value.path))
      ensures r == Err(TooManyGrants) <==>
        root.Some? && root.value.isDirectory && isUtf8
        && |old(grants)| == 128 && !HasRoot(old(grants), root.value.path)
      ensures r == Err(FolderUnavailable) <==> root.None?
      ensures r == Err(NotAFolder) <==> root.Some? && !root.value.isDirectory
      ensures r == Err(NotUtf8) <==> root.Some? && root.value.isDirectory && !isUtf8
      ensures r == Err(NotSaved) ==> saved == None && !written
    {
      if root.None? { return Err(FolderUnavailable); }
      if !root.value.isDirectory { return Err(NotAFolder); }
      if !isUtf8 { return Err(NotUtf8); }
      var path := root.value.path;
      var i := 0;
      while i < |grants| && grants[i].root != path
        invariant i <= |grants| && forall k | 0 <= k < i :: grants[k].root != path
      {
        i := i + 1;
      }
      if i < |grants| {
        GrowKeepsCover(grants, grants[i := FolderGrant(path, kind)], bundleRoots);
        grants := grants[i := FolderGrant(path, kind)];
      } else {
        if |grants| >= MAX_GRANTS { return Err(TooManyGrants); }
        GrowKeepsCover(grants, grants + [FolderGrant(path, kind)], bundleRoots);
        grants := grants + [FolderGrant(path, kind)];
        i := |grants| - 1;
      }
      assert grants[i].root == path;
      GrowKeepsRoots(old(grants), grants, path);
      FollowsGranted(initially, changes, old(grants), path, grants);
      changes := changes + [Granted(path)];
      var w := WriteGrants(written);
      if w.Err? { return Err(w.error); }
      r := Ok(path);
    }

    // A folder is authorized exactly while a grant of it stands.
    method AuthorizeFolder(requested: Option<Path>) returns (r: Result<Path>)
      requires Valid()
      ensures r.Ok? <==> requested.Some? && Standing(initially, changes, requested.value)
      ensures r ==
        if requested.Some? && HasRoot(grants, requested.value) then Ok(requested.value) else Err(AccessDenied)
    {
      if requested.Some? && HasRoot(grants, requested.value) { return Ok(requested.value); }
      r := Err(AccessDenied);
    }

    // The bundle roots below the folder are replaced by the given ones, or nothing changes.
    method RegisterBundleRoots(requested: Option<Path>, roots: seq<Option<Location>>) returns (r: Result<()>)
      requires Valid()
      modifies this`bundleRoots
      ensures Valid()
      ensures r.Ok? <==>
        && requested.Some? && HasRoot(grants, requested.value)
        && forall k | 0 <= k < |roots| :: MayRegister(roots[k], requested.value)
      ensures r.Err? ==> bundleRoots == old(bundleRoots)
      ensures r.Ok? ==> exists kept, located, added ::
        Registered(old(bundleRoots), requested.value, roots, kept, located, added) && bundleRoots == kept + added
      ensures r == Err(AccessDenied) <==> requested.None? || !HasRoot(grants, requested.value)
      ensures r.Err? && r.error != AccessDenied ==> RefusedWith(roots, requested.value, r.error)
    {
      var folder := AuthorizeFolder(requested);
      if folder.Err? { return Err(folder.error); }
      var canonical, error;
      ghost var located;
      canonical, error, located := CanonicalRoots(roots, folder.value);
      if error.Some? { return Err(error.value); }
      OutsideKeeps(bundleRoots, folder.value);
      LocatedMayRegister(roots, folder.value, located);
      FirstsAreBelow(located, canonical, folder.value);
      ReplaceKeeps(grants, bundleRoots, folder.value, canonical);
      assert Registered(bundleRoots, folder.value, roots, Outside(bundleRoots, folder.value), located, canonical);
      bundleRoots := Outside(bundleRoots, folder.value) + canonical;
      r := Ok(());
    }

    method AuthorizeBundle(requested: Option<Path>) returns (r: Result<Path>)
      ensures r == if requested.Some? && requested.value in bundleRoots then Ok(requested.value) else Err(AccessDenied)
    {
      if requested.Some? && requested.value in bundleRoots { return Ok(requested.value); }
      r := Err(AccessDenied);
    }

    // The refusal for want of a folder is never reached: an authorized bundle always has
    // one, and all folders that hold it are returned.
    method AuthorizeBundleWithFolders(requested: Option<Path>) returns (r: Result<(Path, seq<Path>)>)
      requires Valid()
      ensures r.Ok? <==> requested.Some? && requested.value in bundleRoots
      ensures r.Ok? ==> r.value.0 == requested.value && r.value.1 == FoldersOf(grants, requested.value) != []
      ensures r.Ok? ==> exists held :: Keeps(grants, held, Holding(requested.value)) && RootsOf(held, r.value.1)
      ensures r.Err? ==> r.error == AccessDenied
    {
      var bundle := AuthorizeBundle(requested);
      if bundle.Err? { return Err(bundle.error); }
      var folders := FoldersOf(grants, bundle.value);
      FoldersOfHolds(grants, bundle.value);
      ghost var held := FoldersOfKeeps(grants, bundle.value);
      if folders == [] { return Err(AccessDenied); }
      r := Ok((bundle.value, folders));
    }

    // Revoking takes out the one grant, and exactly the bundle roots that no other grant holds.
    method Revoke(root: Path, written: bool) returns (r: Result<bool>)
      requires Valid()
      modifies this
      ensures Valid()
      ensures initially == old(initially) && changes == old(changes) + [Revoked(root)]
      ensures WithoutGrant(old(grants), old(bundleRoots), root, grants, bundleRoots)
      ensures r == if !HasRoot(old(grants), root) then Ok(false) else if written then Ok(true) else Err(NotSaved)
      ensures r == Ok(false) ==> grants == old(grants) && bundleRoots == old(bundleRoots) && saved == old(saved)
      ensures r == Ok(true) ==> saved == Some(grants)
    {
      var before := |grants|;
      RevokeKeeps(initially, changes, grants, bundleRoots, root);
      grants, changes := Except(grants, root), changes + [Revoked(root)];
      if |grants| == before { return Ok(false); }
      bundleRoots := StillCovered(grants, bundleRoots);
      var w := WriteGrants(written);
      if w.Err? { return Err(w.error); }
      r := Ok(true);
    }
  }

  // The grant of the root is gone, the others stay in order, and so do the bundle roots that one of them holds.
  ghost predicate WithoutGrant(grants: seq<FolderGrant>, bundleRoots: seq<Path>, root: Path, rest: seq<FolderGrant>,
                               kept: seq<Path>) {
    Keeps(grants, rest, OtherThan(root)) && !HasRoot(rest, root) && Keeps(bundleRoots, kept, HeldBy(rest))
  }

  lemma RevokeKeeps(initially: set<Path>, changes: seq<Change>, grants: seq<FolderGrant>, bundleRoots: seq<Path>,
                    root: Path)
    requires Follows(initially, changes, grants) && DistinctRoots(grants)
    requires Distinct(bundleRoots) && AllCovered(grants, bundleRoots)
    ensures var (rest, kept) := (Except(grants, root), StillCovered(Except(grants, root), bundleRoots));
      && WithoutGrant(grants, bundleRoots, root, rest, kept)
      && Follows(initially, changes + [Revoked(root)], rest) && DistinctRoots(rest)
      && |rest| == |grants| - (if HasRoot(grants, root) then 1 else 0)
      && (!HasRoot(grants, root) ==> rest == grants && kept == bundleRoots)
      && Distinct(kept) && AllCovered(rest, kept)
  {
    ExceptHolds(grants, root);
    ExceptOfAbsent(grants, root);
    FollowsRevoked(initially, changes, grants, root);
    StillCoveredHolds(Except(grants, root), bundleRoots);
    ExceptKeeps(grants, root);
    StillCoveredKeeps(Except(grants, root), bundleRoots);
    if !HasRoot(grants, root) { AllStillCovered(grants, bundleRoots); }
  }

  lemma {:induction false} AllStillCovered(grants: seq<FolderGrant>, paths: seq<Path>)
    requires forall p | p in paths :: Covers(grants, p)
    ensures StillCovered(grants, paths) == paths
  {
    if paths != [] {
      var front := paths[..|paths| - 1];
      assert paths == front + [paths[|paths| - 1]];
      AllStillCovered(grants, front);
    }
  }

  // A directory at or below the folder.
  ghost predicate MayRegister(root: Option<Location>, folder: Path) {
    root.Some? && root.value.isDirectory && Within(root.value.path, folder)
  }

  // The first of the roots that may not be registered.
  ghost predicate FirstBad(roots: seq<Option<Location>>, folder: Path, k: int) {
    && 0 <= k < |roots| && !MayRegister(roots[k], folder)
    && forall j | 0 <= j < k :: MayRegister(roots[j], folder)
  }

  // The first bad root is not there, or it is something else than a directory in the folder.
  ghost predicate RefusedWith(roots: seq<Option<Location>>, folder: Path, error: Error) {
    exists k :: FirstBad(roots, folder, k) && error == if roots[k] == None then RootUnavailable else RootEscaped
  }

  // The roots are the directories at these paths.
  ghost predicate LocatedAt(roots: seq<Option<Location>>, located: seq<Path>) {
    |located| == |roots| && forall k | 0 <= k < |roots| :: roots[k] == Some(Location(located[k], true))
  }

  // The bundle roots that lay outside the folder stay in order, and the new ones follow, each once.
  ghost predicate Registered(before: seq<Path>, folder: Path, roots: seq<Option<Location>>, kept: seq<Path>,
                             located: seq<Path>, added: seq<Path>) {
    Keeps(before, kept, NotBelow(folder)) && LocatedAt(roots, located) && FirstsOf(located, added)
  }

  ghost predicate AllBelow(paths: seq<Path>, folder: Path) {
    forall k | 0 <= k < |paths| :: paths[k].StartsWith(folder)
  }

  ghost predicate Collected(roots: seq<Option<Location>>, folder: Path, located: seq<Path>, canonical: seq<Path>) {
    LocatedAt(roots, located) && FirstsOf(located, canonical) && Distinct(canonical) && AllBelow(located, folder)
  }

  lemma CollectOneMore(roots: seq<Option<Location>>, folder: Path, located: seq<Path>, canonical: seq<Path>, p: Path)
    requires Collected(roots, folder, located, canonical) && p.StartsWith(folder)
    ensures Collected(roots + [Some(Location(p, true))], folder, located + [p],
      if p in canonical then canonical else canonical + [p])
  {
    FirstsOneMore(located, canonical, p);
  }

  lemma LocatedMayRegister(roots: seq<Option<Location>>, folder: Path, located: seq<Path>)
    requires LocatedAt(roots, located) && AllBelow(located, folder)
    ensures forall k | 0 <= k < |roots| :: MayRegister(roots[k], folder)
  {
    forall k | 0 <= k < |roots| ensures MayRegister(roots[k], folder) { WithinIff(located[k], folder); }
  }

  lemma FirstsAreBelow(paths: seq<Path>, firsts: seq<Path>, folder: Path)
    requires FirstsOf(paths, firsts) && AllBelow(paths, folder)
    ensures AllBelow(firsts, folder)
  {
    forall k | 0 <= k < |firsts| ensures firsts[k].StartsWith(folder) {
      assert firsts[k] in paths;
    }
  }

  lemma RefusedAt(roots: seq<Option<Location>>, folder: Path, located: seq<Path>, canonical: seq<Path>, n: nat)
    requires n < |roots| && Collected(roots[..n], folder, located, canonical)
    requires roots[n].Some? ==> !roots[n].value.isDirectory || !roots[n].value.path.StartsWith(folder)
    ensures RefusedWith(roots, folder, if roots[n].None? then RootUnavailable else RootEscaped)
  {
    if roots[n].Some? { WithinIff(roots[n].value.path, folder); }
    LocatedMayRegister(roots[..n], folder, located);
    assert forall j | 0 <= j < n :: roots[j] == roots[..n][j];
    assert FirstBad(roots, folder, n);
  }

  method CanonicalRoots(roots: seq<Option<Location>>, folder: Path)
    returns (canonical: seq<Path>, error: Option<Error>, ghost located: seq<Path>)
    ensures error.None? ==> Collected(roots, folder, located, canonical)
    ensures error.Some? ==> RefusedWith(roots, folder, error.value)
  {
    canonical, located := [], [];
    for n := 0 to |roots|
      invariant Collected(roots[..n], folder, located, canonical)
    {
      if roots[n].None? {
        RefusedAt(roots, folder, located, canonical, n);
        return canonical, Some(RootUnavailable), located;
      }
      var root := roots[n].value;
      if !root.isDirectory || !root.path.StartsWith(folder) {
        RefusedAt(roots, folder, located, canonical, n);
        return canonical, Some(RootEscaped), located;
      }
      assert roots[n] == Some(Location(root.path, true));
      assert roots[..n + 1] == roots[..n] + [roots[n]];
      CollectOneMore(roots[..n], folder, located, canonical, root.path);
      located := located + [root.path];
      if root.path !in canonical {
        canonical := canonical + [root.path];
      }
    }
    assert roots[..|roots|] == roots;
    error := None;
  }

  lemma GrowKeepsRoots(grants: seq<FolderGrant>, more: seq<FolderGrant>, path: Path)
    requires |grants| <= |more| <= |grants| + 1 && HasRoot(more, path)
    requires forall i | 0 <= i < |grants| :: grants[i].root == more[i].root
    requires |more| > |grants| ==> more[|grants|].root == path
    requires |more| == |grants| ==> HasRoot(grants, path)
    ensures forall p :: HasRoot(more, p) <==> HasRoot(grants, p) || p == path
  {
    forall p ensures HasRoot(more, p) <==> HasRoot(grants, p) || p == path {
      if HasRoot(grants, p) {
        var i :| 0 <= i < |grants| && grants[i].root == p;
        assert more[i].root == p;
      }
      if HasRoot(more, p) {
        var i :| 0 <= i < |more| && more[i].root == p;
        assert i == |grants| || grants[i].root == p;
      }
    }
  }

  // Replacing or adding a grant takes nothing out of reach.
  lemma GrowKeepsCover(grants: seq<FolderGrant>, more: seq<FolderGrant>, paths: seq<Path>)
    requires |grants| <= |more| && forall i | 0 <= i < |grants| :: grants[i].root == more[i].root
    requires AllCovered(grants, paths)
    ensures AllCovered(more, paths)
  {
    forall k | 0 <= k < |paths| ensures Covers(more, paths[k]) {
      var i :| 0 <= i < |grants| && paths[k].StartsWith(grants[i].root);
      assert paths[k].StartsWith(more[i].root);
    }
  }

  lemma ReplaceKeeps(grants: seq<FolderGrant>, paths: seq<Path>, folder: Path, added: seq<Path>)
    requires HasRoot(grants, folder) && AllCovered(grants, paths) && Distinct(paths)
    requires Distinct(added) && forall i | 0 <= i < |added| :: added[i].StartsWith(folder)
    ensures AllCovered(grants, Outside(paths, folder) + added)
    ensures Distinct(Outside(paths, folder) + added)
  {
    OutsideHolds(paths, folder);
    var kept := Outside(paths, folder);
    forall i | 0 <= i < |kept| ensures Covers(grants, kept[i]) && !kept[i].StartsWith(folder) {
      assert kept[i] in paths;
    }
  }

  lemma {:induction false} ExceptOfAbsent(grants: seq<FolderGrant>, root: Path)
    ensures !HasRoot(grants, root) ==> Except(grants, root) == grants
  {
    if grants != [] && !HasRoot(grants, root) {
      var n := |grants| - 1;
      assert forall i | 0 <= i < n :: grants[..n][i] == grants[i];
      ExceptOfAbsent(grants[..n], root);
    }
  }

  // A new grant that is revoked again leaves the grants as they were.
  lemma RevokeUndoesGrant(grants: seq<FolderGrant>, root: Path, kind: Kind)
    requires !HasRoot(grants, root)
    ensures Except(grants + [FolderGrant(root, kind)], root) == grants
  {
    ExceptOfAbsent(grants, root);
    assert (grants + [FolderGrant(root, kind)])[..|grants|] == grants;
  }

  ghost predicate Acceptable(e: Entry) {
    e.isAbsolute && e.rootBytes <= 32768
  }

  // The grant file is taken whole or refused whole.
  method ReadGrants(entries: seq<Entry>) returns (r: Result<seq<FolderGrant>>)
    ensures r.Ok? <==>
      && |entries| <= 128
      && (forall i | 0 <= i < |entries| :: Acceptable(entries[i]))
      && (forall i, j | 0 <= i < j < |entries| :: entries[i].root != entries[j].root)
    ensures r.Ok? ==>
      && |r.value| == |entries| && DistinctRoots(r.value)
      && forall i | 0 <= i < |entries| :: r.value[i] == FolderGrant(entries[i].root, entries[i].kind)
  {
    if |entries| > MAX_GRANTS { return Err(InvalidFile); }
    var accepted: seq<FolderGrant> := [];
    for n := 0 to |entries|
      invariant |accepted| == n && forall i | 0 <= i < n :: accepted[i] == FolderGrant(entries[i].root, entries[i].kind)
      invariant forall i | 0 <= i < n :: Acceptable(entries[i])
      invariant forall i, j | 0 <= i < j < n :: entries[i].root != entries[j].root
    {
      var e := entries[n];
      if !e.isAbsolute || e.rootBytes > MAX_ROOT_BYTES || HasRoot(accepted, e.root) {
        return Err(InvalidFile);
      }
      accepted := accepted + [FolderGrant(e.root, e.kind)];
    }
    r := Ok(accepted);
  }
}
