/** The reviewed projection export: its gates, the preparation of a complete copy
    under a temporary name, and the replacement of an earlier projection with a
    guarded backup.

    The directory slots the run touches are named; every file operation may fail
    (`faults`), and `history` records the disk after each operation, including the
    inside of a recursive removal. A run that stops between two operations leaves
    one of the recorded disks behind. */
module ProjectionExport {
  import opened Options

  type Path = seq<string>
  type Files = map<string, string>

  const MARKER_FILE := ".okf-projection.json"
  const MARKER_TEXT :=
    "{\n  \"schemaVersion\": 1,\n  \"producer\": \"OKF Studio\",\n  \"kind\": \"recipient-projection\"\n}\n"

  datatype Node = Absent | File | Symlink | Directory(files: Files)

  // What sits under the destination name, the temporary name and the backup name
  // in the chosen parent, and the audit reports written there.
  datatype Disk = Disk(destination: Node, temporary: Node, backup: Node, audits: seq<bool>)

  datatype Marker = NotJson | Json(schemaVersion: Option<nat>, producer: Option<string>, kind: Option<string>)

  datatype Step =
    | CreateTemporary
    | WriteFile(path: string)
    | WriteAudit
    | MoveIntoPlace
    | InspectDestination
    | ReadMarker
    | KeepBackup
    | Install
    | RollBack
    | DropBackup
    | RemoveTemporary

  // The world around one run: the operations that fail, the paths that a failed or
  // interrupted recursive removal leaves, the text a failed write leaves, the
  // validator and the auditor, the marker parser, and whether the source fingerprint
  // was the same at the end.
  datatype World = World(
    faults: set<Step>,
    remnant: set<string>,
    torn: Option<string>,
    validationErrors: Files -> nat,
    auditPasses: Files -> bool,
    parseMarker: string -> Marker,
    sourceUnchanged: bool)

  datatype PlannedConcept = PlannedConcept(id: string, rendered: Option<string>)

  datatype Plan = Plan(
    revision: string,
    included: seq<PlannedConcept>,
    folderName: string,
    index: string,
    log: Option<string>)

  datatype Request = Request(
    source: Option<Path>,
    parent: Option<Path>,
    parentIsDirectory: bool,
    plan: Option<Plan>,
    reviewedRevision: string,
    overwriteConfirmed: bool)

  datatype Error =
    | SourceMissing
    | ParentMissing
    | ParentNotDirectory
    | PlanFailed
    | StalePlan
    | EmptyPlan
    | DestinationOverlapsSource
    | NoTemporary
    | NotPrepared
    | ValidationFailed
    | AuditNotWritten
    | SourceChanged
    | MoveFailed
    | NotInspected
    | NotARealDirectory
    | NotMarked
    | MarkerInvalid
    | BackupFailed
    | InstallFailed
    | BackupNotRemoved

  datatype Outcome =
    | Exported(replaced: bool)
    | BlockedByAudit
    | ExistingDestination
    | Failed(error: Error)

  // ----- The complete projection

  // The file of a concept.
  function FileOf(c: PlannedConcept): string {
    c.id + ".md"
  }

  // The files are the rendered concepts, the index, the log and the marker, and no others.
  ghost predicate IsProjection(plan: Plan, files: Files) {
    && (forall i | 0 <= i < |plan.included| ::
          var c := plan.included[i];
          c.rendered.Some? && c.id + ".md" in files && files[c.id + ".md"] == c.rendered.value)
    && "index.md" in files && files["index.md"] == plan.index
    && plan.log.Some? && "log.md" in files && files["log.md"] == plan.log.value
    && ".okf-projection.json" in files && files[".okf-projection.json"] == MARKER_TEXT
    && (forall p | p in files ::
          || p == "index.md" || p == "log.md" || p == ".okf-projection.json"
          || exists i :: 0 <= i < |plan.included| && p == plan.included[i].id + ".md")
  }

  ghost predicate Complete(plan: Plan, node: Node) {
    node.Directory? && IsProjection(plan, node.files)
  }

  lemma ProjectionIsUnique(f: Files, g: Files, plan: Plan)
    requires IsProjection(plan, f) && IsProjection(plan, g)
    ensures f == g
  {
    assert forall p :: p in f <==> p in g;
  }

  // Every file can be produced and written, and no two share a name.
  ghost predicate Preparable(world: World, plan: Plan) {
    && plan.log.Some?
    && (forall i | 0 <= i < |plan.included| ::
          && plan.included[i].rendered.Some? && WriteFile(plan.included[i].id + ".md") !in world.faults
          && plan.included[i].id != "index" && plan.included[i].id != "log")
    && (forall i, j | 0 <= i < j < |plan.included| :: plan.included[i].id != plan.included[j].id)
    && WriteFile("index.md") !in world.faults && WriteFile("log.md") !in world.faults
    && WriteFile(".okf-projection.json") !in world.faults
  }

  // ----- The files in the order they are written

  function Entries(plan: Plan): seq<(string, Option<string>)> {
    seq(|plan.included|, i requires 0 <= i < |plan.included| =>
      (FileOf(plan.included[i]), plan.included[i].rendered))
    + [("index.md", Some(plan.index)), ("log.md", plan.log), (MARKER_FILE, Some(MARKER_TEXT))]
  }

  // Every entry can be produced, and no two share a path.
  ghost predicate Producible(entries: seq<(string, Option<string>)>) {
    && (forall i | 0 <= i < |entries| :: entries[i].1.Some?)
    && (forall i, j | 0 <= i < j < |entries| :: entries[i].0 != entries[j].0)
  }

  // The files are exactly the entries.
  ghost predicate Holds(files: Files, entries: seq<(string, Option<string>)>) {
    && (forall i | 0 <= i < |entries| ::
          entries[i].0 in files && entries[i].1 == Some(files[entries[i].0]))
    && (forall p | p in files :: exists i :: 0 <= i < |entries| && entries[i].0 == p)
  }

  ghost predicate AllWritable(world: World, entries: seq<(string, Option<string>)>) {
    forall i | 0 <= i < |entries| :: WriteFile(entries[i].0) !in world.faults
  }

  lemma EntriesInOrder(plan: Plan)
    ensures var (e, n) := (Entries(plan), |plan.included|);
      && |e| == n + 3
      && (forall i | 0 <= i < n :: e[i] == (plan.included[i].id + ".md", plan.included[i].rendered))
      && e[n] == ("index.md", Some(plan.index)) && e[n + 1] == ("log.md", plan.log)
      && e[n + 2] == (".okf-projection.json", Some(MARKER_TEXT))
  {
  }

  lemma EntriesMakeTheProjection(plan: Plan, files: Files)
    requires Holds(files, Entries(plan))
    ensures IsProjection(plan, files)
  {
    var (e, n) := (Entries(plan), |plan.included|);
    EntriesInOrder(plan);
    forall i | 0 <= i < n
      ensures var c := plan.included[i];
        c.rendered.Some? && c.id + ".md" in files && files[c.id + ".md"] == c.rendered.value
    {
      assert e[i].0 in files && e[i].1 == Some(files[e[i].0]);
    }
    assert e[n].0 in files && e[n + 1].0 in files && e[n + 2].0 in files;
    forall p | p in files
      ensures p == "index.md" || p == "log.md" || p == ".okf-projection.json"
           || exists i :: 0 <= i < n && p == plan.included[i].id + ".md"
    {
      var k :| 0 <= k < |e| && e[k].0 == p;
      if k < n { assert p == plan.included[k].id + ".md"; }
    }
  }

  lemma SameNameSameId(a: string, b: string)
    requires a + ".md" == b + ".md"
    ensures a == b
  {
    var (x, y) := (a + ".md", b + ".md");
    assert |x| == |a| + 3 && |y| == |b| + 3;
    assert a == x[..|a|] && b == y[..|b|];
  }

  lemma NoConceptFile(id: string)
    ensures id + ".md" == "index.md" <==> id == "index"
    ensures id + ".md" == "log.md" <==> id == "log"
    ensures id + ".md" != ".okf-projection.json"
  {
    assert "index" + ".md" == "index.md" && "log" + ".md" == "log.md";
    if id + ".md" == "index.md" { SameNameSameId(id, "index"); }
    if id + ".md" == "log.md" { SameNameSameId(id, "log"); }
    var x := id + ".md";
    assert x[|x| - 1] == 'd';
    assert ".okf-projection.json"[19] == 'n';
  }

  // All files can be written exactly when all entries can.
  lemma PreparableByEntries(world: World, plan: Plan)
    ensures Preparable(world, plan) <==> Producible(Entries(plan)) && AllWritable(world, Entries(plan))
  {
    EntriesInOrder(plan);
    if Preparable(world, plan) { EntriesAreProducible(world, plan); }
    if Producible(Entries(plan)) && AllWritable(world, Entries(plan)) { EntriesArePreparable(world, plan); }
  }

  lemma EntriesAreProducible(world: World, plan: Plan)
    requires Preparable(world, plan)
    ensures Producible(Entries(plan)) && AllWritable(world, Entries(plan))
  {
    var (e, n) := (Entries(plan), |plan.included|);
    EntriesInOrder(plan);
    forall i, j | 0 <= i < j < |e| ensures e[i].0 != e[j].0 {
      if i < n { NoConceptFile(plan.included[i].id); }
      if j < n && plan.included[i].id + ".md" == plan.included[j].id + ".md" {
        SameNameSameId(plan.included[i].id, plan.included[j].id);
      }
    }
  }

  lemma EntriesArePreparable(world: World, plan: Plan)
    requires Producible(Entries(plan)) && AllWritable(world, Entries(plan))
    ensures Preparable(world, plan)
  {
    var (e, n) := (Entries(plan), |plan.included|);
    EntriesInOrder(plan);
    assert e[n + 1].1.Some?;
    forall i | 0 <= i < n
      ensures plan.included[i].rendered.Some? && WriteFile(plan.included[i].id + ".md") !in world.faults
      ensures plan.included[i].id != "index" && plan.included[i].id != "log"
    {
      assert e[i].1.Some? && e[i].0 != e[n].0 && e[i].0 != e[n + 1].0;
      NoConceptFile(plan.included[i].id);
    }
    forall i, j | 0 <= i < j < n ensures plan.included[i].id != plan.included[j].id {
      assert e[i].0 != e[j].0;
    }
    assert WriteFile(e[n].0) !in world.faults && WriteFile(e[n + 1].0) !in world.faults
        && WriteFile(e[n + 2].0) !in world.faults;
  }

  // ----- The gates

  // Source, parent and plan are there.
  ghost predicate Found(request: Request) {
    request.source.Some? && request.parent.Some? && request.parentIsDirectory && request.plan.Some?
  }

  // The destination is the source, holds it or lies in it.
  ghost predicate Overlaps(request: Request)
    requires Found(request)
  {
    var (source, destination) := (request.source.value, request.parent.value + [request.plan.value.folderName]);
    LiesIn(source, destination) || LiesIn(destination, source)
  }

  // The path is that of the folder or goes on from it.
  ghost predicate LiesIn(path: Path, folder: Path) {
    exists rest :: path == folder + rest
  }

  lemma LiesInIff(path: Path, folder: Path)
    ensures folder <= path <==> LiesIn(path, folder)
  {
    if folder <= path { assert path == folder + path[|folder|..]; }
  }

  // The checks that come before anything is written.
  ghost predicate Reviewable(request: Request) {
    && Found(request)
    && request.plan.value.revision == request.reviewedRevision
    && request.plan.value.included != []
    && !Overlaps(request)
  }

  // A complete, valid copy of an unchanged source can be made and its audit kept.
  ghost predicate Auditable(world: World, request: Request) {
    && Reviewable(request)
    && Preparable(world, request.plan.value)
    && Validates(world, request.plan.value)
    && world.sourceUnchanged
    && CreateTemporary !in world.faults && WriteAudit !in world.faults
  }

  ghost predicate AuditPasses(world: World, request: Request) {
    request.plan.Some? ==> forall files | IsProjection(request.plan.value, files) :: world.auditPasses(files)
  }

  // Everything the review promises before anything at the destination may change.
  ghost predicate Reviewed(world: World, request: Request) {
    Auditable(world, request) && AuditPasses(world, request)
  }

  ghost predicate MarkerAccepted(m: Marker) {
    m.Json? && m.schemaVersion == Some(1) && m.producer == Some("OKF Studio") && m.kind == Some("recipient-projection")
  }

  // A real directory with an accepted marker: an earlier projection.
  ghost predicate Replaceable(world: World, node: Node) {
    && node.Directory?
    && ".okf-projection.json" in node.files
    && MarkerAccepted(world.parseMarker(node.files[".okf-projection.json"]))
  }

  ghost predicate NewComplete(request: Request, node: Node) {
    request.plan.Some? && Complete(request.plan.value, node)
  }

  // What holds on disk at every moment of a run that started from `was`.
  ghost predicate Guarded(world: World, request: Request, was: Disk, d: Disk) {
    // nothing at the destination changes before every gate has passed
    && (d.destination != was.destination ==> Reviewed(world, request) && d.audits == was.audits + [true])
    // a free destination is either still free or holds the complete projection
    && (was.destination == Absent ==> d.destination == Absent || NewComplete(request, d.destination))
    // an earlier projection is in place, or in the backup slot, or already replaced by the complete new one
    && (was.destination != Absent ==>
          d.destination == was.destination || d.backup == was.destination || NewComplete(request, d.destination))
    // anything that is not a marked projection, or not confirmed, is left alone
    && (was.destination != Absent && !(request.overwriteConfirmed && Replaceable(world, was.destination)) ==>
          d.destination == was.destination && d.backup == Absent)
  }

  // The destination and the backup slot are as they were.
  ghost predicate Untouched(was: Disk, d: Disk) {
    d.destination == was.destination && d.backup == was.backup
  }

  // ... at every recorded moment from the n-th on.
  ghost predicate AllUntouched(was: Disk, moments: seq<Disk>, n: nat) {
    forall k | n <= k < |moments| :: Untouched(was, moments[k])
  }

  ghost predicate AllGuarded(world: World, request: Request, was: Disk, moments: seq<Disk>, n: nat) {
    forall k | n <= k < |moments| :: Guarded(world, request, was, moments[k])
  }

  lemma UntouchedIsGuarded(world: World, request: Request, was: Disk, moments: seq<Disk>, n: nat)
    requires AllUntouched(was, moments, n) && was.backup == Absent
    ensures AllGuarded(world, request, was, moments, n)
  {
  }

  // The audit report that the run leaves, by its verdict, if it came that far.
  ghost function AuditKept(world: World, request: Request, outcome: Outcome): seq<bool> {
    match outcome
    case Exported(_) => [true]
    case BlockedByAudit => [false]
    case ExistingDestination => [true]
    case Failed(SourceChanged) => [AuditPasses(world, request)]
    case Failed(e) => if AfterGates(e) then [true] else []
  }

  // Where the disk stands when the run ends, for every outcome.
  ghost predicate Aftermath(world: World, request: Request, was: Disk, now: Disk, outcome: Outcome) {
    now.audits == was.audits + AuditKept(world, request, outcome) &&
    match outcome
    case Exported(replaced) =>
      && NewComplete(request, now.destination) && now.backup == Absent && now.temporary == Absent
      && replaced == (was.destination != Absent)
    case BlockedByAudit =>
      Untouched(was, now)
    case ExistingDestination =>
      Untouched(was, now) && was.destination != Absent && !request.overwriteConfirmed
    case Failed(BackupNotRemoved) =>
      // the one failure that reports an error although the new projection is complete
      && NewComplete(request, now.destination)
      && now.backup.Directory? && was.destination.Directory?
      && now.backup.files.Items <= was.destination.files.Items
    case Failed(InstallFailed) =>
      // the one failure that can leave the destination empty: the roll-back failed as well
      if RollBack in world.faults then now.destination == Absent && now.backup == was.destination
      else Untouched(was, now)
    case Failed(_) =>
      Untouched(was, now)
  }

  // The disk once every gate has passed: a copy under the temporary name, and its audit report.
  function Staged(was: Disk, temporary: Node): Disk {
    was.(temporary := temporary, audits := was.audits + [true])
  }

  // The operations after the gates, on the branch the destination selects.
  ghost predicate MovesSucceed(world: World, request: Request, destination: Node) {
    if destination == Absent then
      MoveIntoPlace !in world.faults
    else
      && request.overwriteConfirmed
      && Replaceable(world, destination)
      && ReplacementFaultFree(world)
  }

  // The errors that come after the gates.
  ghost predicate AfterGates(e: Error) {
    || e.MoveFailed? || e.NotInspected? || e.NotARealDirectory? || e.NotMarked? || e.MarkerInvalid?
    || e.BackupFailed? || e.InstallFailed? || e.BackupNotRemoved?
  }

  // The first gate that does not hold gives the refusal.
  ghost function GateRefusal(world: World, request: Request): Option<Outcome> {
    if request.source.None? then Some(Failed(SourceMissing))
    else if request.parent.None? then Some(Failed(ParentMissing))
    else if !request.parentIsDirectory then Some(Failed(ParentNotDirectory))
    else if request.plan.None? then Some(Failed(PlanFailed))
    else
      var plan := request.plan.value;
      if plan.revision != request.reviewedRevision then Some(Failed(StalePlan))
      else if plan.included == [] then Some(Failed(EmptyPlan))
      else if !Reviewable(request) then Some(Failed(DestinationOverlapsSource))
      else CopyRefusal(world, request, plan)
  }

  // The same for the gates that judge the copy.
  ghost function CopyRefusal(world: World, request: Request, plan: Plan): Option<Outcome> {
    if CreateTemporary in world.faults then Some(Failed(NoTemporary))
    else if !Preparable(world, plan) then Some(Failed(NotPrepared))
    else JudgedRefusal(world, Validates(world, plan), AuditPasses(world, request))
  }

  function JudgedRefusal(world: World, valid: bool, passed: bool): Option<Outcome> {
    if !valid then Some(Failed(ValidationFailed))
    else if WriteAudit in world.faults then Some(Failed(AuditNotWritten))
    else if !world.sourceUnchanged then Some(Failed(SourceChanged))
    else if !passed then Some(BlockedByAudit)
    else None
  }

  // The audit is kept unless the run ended before it.
  function JudgedAudit(ended: Option<Outcome>, passed: bool): seq<bool> {
    if ended.Some? && ended.value.Failed? && ended.value.error != SourceChanged then [] else [passed]
  }

  lemma GatesPassed(world: World, request: Request)
    ensures GateRefusal(world, request).None? <==> Reviewed(world, request)
    ensures GateRefusal(world, request) == Some(BlockedByAudit)
      <==> Auditable(world, request) && !AuditPasses(world, request)
  {
  }

  // The complete copy has no validation errors.
  ghost predicate Validates(world: World, plan: Plan) {
    forall files | IsProjection(plan, files) :: world.validationErrors(files) == 0
  }

  // The destination can be inspected and read, and is an earlier projection.
  ghost predicate Inspected(world: World, node: Node) {
    InspectDestination !in world.faults && ReadMarker !in world.faults && Replaceable(world, node)
  }

  // The marker is JSON and says something else.
  ghost predicate MarkerRefused(world: World, files: Files)
    requires ".okf-projection.json" in files
  {
    var marker := world.parseMarker(files[".okf-projection.json"]);
    marker.Json? && !MarkerAccepted(marker)
  }

  // Why the destination is refused, for each reason exactly when.
  ghost predicate RefusedExactly(world: World, node: Node, failure: Option<Error>) {
    && (failure == Some(NotInspected) <==> InspectDestination in world.faults)
    && (failure == Some(NotARealDirectory) <==> InspectDestination !in world.faults && !node.Directory?)
    && (failure == Some(MarkerInvalid) <==>
          && InspectDestination !in world.faults && ReadMarker !in world.faults
          && node.Directory? && ".okf-projection.json" in node.files
          && world.parseMarker(node.files[".okf-projection.json"]).NotJson?)
    && (failure == Some(NotMarked) <==>
          && InspectDestination !in world.faults && node.Directory?
          && (ReadMarker in world.faults || ".okf-projection.json" !in node.files || MarkerRefused(world, node.files)))
  }

  // Which step of a replacement failed, for each exactly when.
  ghost predicate StoppedExactly(world: World, node: Node, failure: Option<Error>) {
    && (failure == Some(BackupFailed) <==> Inspected(world, node) && KeepBackup in world.faults)
    && (failure == Some(InstallFailed) <==>
          Inspected(world, node) && KeepBackup !in world.faults && Install in world.faults)
    && (failure == Some(BackupNotRemoved) <==>
          && Inspected(world, node) && KeepBackup !in world.faults && Install !in world.faults
          && DropBackup in world.faults)
  }

  // How a run past the gates ends, for each outcome exactly when.
  ghost predicate PlacedExactly(world: World, request: Request, destination: Node, outcome: Outcome) {
    var failure := if outcome.Failed? then Some(outcome.error) else None;
    if destination == Absent then
      outcome == if MoveIntoPlace in world.faults then Failed(MoveFailed) else Exported(false)
    else if !request.overwriteConfirmed then outcome == ExistingDestination
    else
      && (outcome.Failed? || outcome == Exported(true)) && failure != Some(MoveFailed)
      && (outcome.Failed? ==> AfterGates(outcome.error))
      && (outcome == Exported(true) <==> Replaceable(world, destination) && ReplacementFaultFree(world))
      && RefusedExactly(world, destination, failure) && StoppedExactly(world, destination, failure)
  }

  // The outcome of a run: that of the first gate that does not hold, or of the placing.
  ghost predicate ByGatesOrPlace(world: World, request: Request, destination: Node, outcome: Outcome) {
    var refusal := GateRefusal(world, request);
    && (refusal.None? <==> Reviewed(world, request))
    && (refusal == Some(BlockedByAudit) <==> Auditable(world, request) && !AuditPasses(world, request))
    && if refusal.Some? then outcome == refusal.value else PlacedExactly(world, request, destination, outcome)
  }

  // The same by outcome: each one exactly when.
  ghost predicate EndsExactly(world: World, request: Request, destination: Node, outcome: Outcome) {
    var reviewed := Reviewed(world, request);
    && (outcome.Exported? <==> reviewed && MovesSucceed(world, request, destination))
    && (outcome == BlockedByAudit <==> Auditable(world, request) && !AuditPasses(world, request))
    && (outcome == ExistingDestination <==> reviewed && destination != Absent && !request.overwriteConfirmed)
    && (outcome == Failed(MoveFailed) <==> reviewed && destination == Absent && MoveIntoPlace in world.faults)
    && (outcome == Failed(BackupFailed) <==>
          reviewed && request.overwriteConfirmed && Inspected(world, destination) && KeepBackup in world.faults)
    && (outcome == Failed(InstallFailed) <==>
          && reviewed && request.overwriteConfirmed && Inspected(world, destination)
          && KeepBackup !in world.faults && Install in world.faults)
    && (outcome == Failed(BackupNotRemoved) <==>
          && reviewed && request.overwriteConfirmed && Inspected(world, destination)
          && KeepBackup !in world.faults && Install !in world.faults && DropBackup in world.faults)
    && (forall e: Error | !AfterGates(e) :: outcome == Failed(e) <==> RefusedBy(world, request, e))
  }

  // Which error a gate gives, for each exactly when: the gates before it hold and it does not.
  ghost predicate RefusedBy(world: World, request: Request, e: Error) {
    match e
    case SourceMissing => request.source.None?
    case ParentMissing => request.source.Some? && request.parent.None?
    case ParentNotDirectory => request.source.Some? && request.parent.Some? && !request.parentIsDirectory
    case PlanFailed => request.source.Some? && request.parent.Some? && request.parentIsDirectory && request.plan.None?
    case StalePlan => Found(request) && request.plan.value.revision != request.reviewedRevision
    case EmptyPlan =>
      && Found(request) && request.plan.value.revision == request.reviewedRevision
      && request.plan.value.included == []
    case DestinationOverlapsSource =>
      && Found(request) && request.plan.value.revision == request.reviewedRevision
      && request.plan.value.included != [] && Overlaps(request)
    case NoTemporary => Reviewable(request) && CreateTemporary in world.faults
    case NotPrepared =>
      Reviewable(request) && CreateTemporary !in world.faults && !Preparable(world, request.plan.value)
    case ValidationFailed => Copied(world, request) && !Validates(world, request.plan.value)
    case AuditNotWritten => Validated(world, request) && WriteAudit in world.faults
    case SourceChanged => Validated(world, request) && WriteAudit !in world.faults && !world.sourceUnchanged
    case _ => false
  }

  ghost predicate Copied(world: World, request: Request) {
    Reviewable(request) && CreateTemporary !in world.faults && Preparable(world, request.plan.value)
  }

  ghost predicate Validated(world: World, request: Request) {
    Copied(world, request) && Validates(world, request.plan.value)
  }

  lemma GateGives(world: World, request: Request, e: Error)
    ensures GateRefusal(world, request) == Some(Failed(e)) <==> RefusedBy(world, request, e)
  {
  }

  lemma EachOutcome(world: World, request: Request, destination: Node, outcome: Outcome)
    requires ByGatesOrPlace(world, request, destination, outcome)
    ensures EndsExactly(world, request, destination, outcome)
  {
    forall e: Error ensures GateRefusal(world, request) == Some(Failed(e)) <==> RefusedBy(world, request, e) {
      GateGives(world, request, e);
    }
  }

  ghost predicate ReplacementFaultFree(world: World) {
    && InspectDestination !in world.faults
    && ReadMarker !in world.faults
    && KeepBackup !in world.faults
    && Install !in world.faults
    && DropBackup !in world.faults
  }

  // A projection that an export left behind can be replaced by the next one.
  lemma ExportedIsReplaceable(world: World, request: Request, node: Node)
    requires NewComplete(request, node)
    requires MarkerAccepted(world.parseMarker(MARKER_TEXT))
    ensures Replaceable(world, node)
  {
  }

  class Volume {
    const world: World
    var disk: Disk
    ghost var history: seq<Disk>

    constructor (world: World, destination: Node)
      ensures this.world == world
      ensures disk == Disk(destination, Absent, Absent, []) && history == [disk]
    {
      this.world := world;
      disk := Disk(destination, Absent, Absent, []);
      history := [Disk(destination, Absent, Absent, [])];
    }

    // One atomic change of the disk.
    method Commit(d: Disk)
      modifies this
      ensures disk == d && history == old(history) + [d]
    {
      disk := d;
      history := history + [d];
    }

    method WriteNew(path: string, content: string) returns (ok: bool)
      requires disk.temporary.Directory?
      modifies this
      ensures ok <==> path !in old(disk.temporary.files) && WriteFile(path) !in world.faults
      ensures disk.temporary.Directory?
      ensures disk == old(disk).(temporary := disk.temporary)
      ensures ok ==> disk.temporary.files == old(disk.temporary.files)[path := content]
      ensures history == old(history) + [disk]
    {
      var files := disk.temporary.files;
      ok := path !in files && WriteFile(path) !in world.faults;
      if ok {
        files := files[path := content];
      } else if path !in files && world.torn.Some? {
        files := files[path := world.torn.value];
      }
      Commit(disk.(temporary := Directory(files)));
    }

    // Recursive removal of the temporary directory; a failure leaves a part of it and is ignored.
    method RemoveTemporaryDirectory()
      modifies this
      ensures disk == old(disk).(temporary := disk.temporary)
      ensures RemoveTemporary !in world.faults ==> disk.temporary == Absent
      ensures old(disk.temporary) == Absent ==> disk.temporary == Absent
      ensures old(history) <= history
      ensures forall k | |old(history)| <= k < |history| ::
        history[k] == old(disk).(temporary := history[k].temporary)
    {
      if disk.temporary == Absent { return; }
      if disk.temporary.Directory? {
        Commit(disk.(temporary := Directory(Remnant(disk.temporary.files))));
      }
      if RemoveTemporary !in world.faults {
        Commit(disk.(temporary := Absent));
      }
    }

    function Remnant(files: Files): Files {
      map p | p in files && p in world.remnant :: files[p]
    }

    // The first i entries are written, and nothing else.
    ghost predicate Wrote(entries: seq<(string, Option<string>)>, i: nat, files: Files)
      requires i <= |entries|
    {
      && Producible(entries[..i]) && Holds(files, entries[..i])
      && forall k | 0 <= k < i :: WriteFile(entries[k].0) !in world.faults
    }

    // Write every rendered concept, then the index, the log and the marker.
    method PrepareProjection(plan: Plan) returns (ok: bool)
      requires disk.temporary == Directory(map[])
      modifies this
      ensures old(history) <= history
      ensures disk == old(disk).(temporary := disk.temporary)
      ensures AllUntouched(old(disk), history, |old(history)|)
      ensures ok <==> Preparable(world, plan)
      ensures ok ==> Complete(plan, disk.temporary)
    {
      var entries := Entries(plan);
      var i := 0;
      while i < |entries|
        invariant 0 <= i <= |entries|
        invariant old(history) <= history
        invariant disk == old(disk).(temporary := disk.temporary)
        invariant disk.temporary.Directory?
        invariant AllUntouched(old(disk), history, |old(history)|)
        invariant Wrote(entries, i, disk.temporary.files)
      {
        var (path, content) := entries[i];
        if content.None? { NotPreparable(plan, i, disk.temporary.files); return false; }
        ghost var files := disk.temporary.files;
        var written := WriteNew(path, content.value);
        if !written { NotPreparable(plan, i, files); return false; }
        WroteOneMore(files, entries, i);
        i := i + 1;
      }
      assert entries[..i] == entries;
      PreparableByEntries(world, plan);
      EntriesMakeTheProjection(plan, disk.temporary.files);
      ok := true;
    }

    lemma NotPreparable(plan: Plan, i: nat, files: Files)
      requires i < |Entries(plan)| && Holds(files, Entries(plan)[..i])
      requires var e := Entries(plan)[i]; e.1.None? || e.0 in files || WriteFile(e.0) in world.faults
      ensures !Preparable(world, plan)
    {
      var entries := Entries(plan);
      if entries[i].0 in files {
        var k :| 0 <= k < |entries[..i]| && entries[..i][k].0 == entries[i].0;
        assert entries[k].0 == entries[i].0;
      }
      PreparableByEntries(world, plan);
    }

    lemma WroteOneMore(files: Files, entries: seq<(string, Option<string>)>, i: nat)
      requires i < |entries| && Wrote(entries, i, files)
      requires entries[i].0 !in files && entries[i].1.Some? && WriteFile(entries[i].0) !in world.faults
      ensures Wrote(entries, i + 1, files[entries[i].0 := entries[i].1.value])
    {
      HoldsSnoc(files, entries, i);
    }

    lemma HoldsSnoc(files: Files, entries: seq<(string, Option<string>)>, i: nat)
      requires i < |entries| && Producible(entries[..i]) && Holds(files, entries[..i])
      requires entries[i].0 !in files && entries[i].1.Some?
      ensures Producible(entries[..i + 1])
      ensures Holds(files[entries[i].0 := entries[i].1.value], entries[..i + 1])
    {
      var before, after := entries[..i], entries[..i + 1];
      var files' := files[entries[i].0 := entries[i].1.value];
      assert after == before + [entries[i]];
      forall k | 0 <= k < i ensures before[k].0 in files && after[k] == before[k] {}
      forall p | p in files' ensures exists k :: 0 <= k < |after| && after[k].0 == p {
        if p in files {
          var k :| 0 <= k < |before| && before[k].0 == p;
          assert after[k].0 == p;
        } else {
          assert after[i].0 == p;
        }
      }
    }

    // What must hold of the destination before it is touched.
    method CheckMarked() returns (failure: Option<Error>)
      ensures failure.None? <==> Inspected(world, disk.destination)
      ensures failure.Some? ==>
        || failure.value.NotInspected? || failure.value.NotARealDirectory?
        || failure.value.NotMarked? || failure.value.MarkerInvalid?
      ensures RefusedExactly(world, disk.destination, failure)
    {
      if InspectDestination in world.faults { return Some(NotInspected); }
      if !disk.destination.Directory? { return Some(NotARealDirectory); }
      if ReadMarker in world.faults || MARKER_FILE !in disk.destination.files { return Some(NotMarked); }
      var marker := world.parseMarker(disk.destination.files[MARKER_FILE]);
      if marker.NotJson? { return Some(MarkerInvalid); }
      if marker.schemaVersion != Some(1) || marker.producer != Some("OKF Studio")
         || marker.kind != Some("recipient-projection") {
        return Some(NotMarked);
      }
      failure := None;
    }

    // Move the prior projection to a backup name, the new one into place, and drop
    // the backup; if the new one cannot be moved, move the backup back.
    method ReplaceExistingProjection(ghost request: Request, ghost was: Disk) returns (failure: Option<Error>)
      requires disk == Staged(was, disk.temporary) && was.destination != Absent && was.backup == Absent
      requires Reviewed(world, request) && request.overwriteConfirmed && NewComplete(request, disk.temporary)
      modifies this
      ensures old(history) <= history
      ensures AllGuarded(world, request, was, history, |old(history)|)
      ensures Guarded(world, request, was, disk)
      ensures failure.None? <==> Replaceable(world, was.destination) && ReplacementFaultFree(world)
      ensures RefusedExactly(world, was.destination, failure) && StoppedExactly(world, was.destination, failure)
      ensures failure.Some? ==> AfterGates(failure.value) && failure.value != MoveFailed
      ensures Aftermath(world, request, was, disk,
                        if failure.None? then Exported(true) else Failed(failure.value))
    {
      var refused := CheckMarked();
      if refused.Some? { return refused; }
      failure := Swap(request, was);
    }

    // The moves of a replacement, with the destination inspected.
    method Swap(ghost request: Request, ghost was: Disk) returns (failure: Option<Error>)
      requires disk == Staged(was, disk.temporary) && was.destination != Absent && was.backup == Absent
      requires Reviewed(world, request) && request.overwriteConfirmed && NewComplete(request, disk.temporary)
      requires Inspected(world, was.destination)
      modifies this
      ensures old(history) <= history
      ensures AllGuarded(world, request, was, history, |old(history)|)
      ensures Guarded(world, request, was, disk)
      ensures failure.None? <==> ReplacementFaultFree(world)
      ensures StoppedExactly(world, was.destination, failure)
      ensures failure.Some? ==>
        failure.value.BackupFailed? || failure.value.InstallFailed? || failure.value.BackupNotRemoved?
      ensures Aftermath(world, request, was, disk,
                        if failure.None? then Exported(true) else Failed(failure.value))
    {
      var prior := disk.destination;
      if KeepBackup in world.faults { return Some(BackupFailed); }
      Commit(disk.(destination := Absent, backup := prior));
      if Install in world.faults {
        if RollBack !in world.faults {
          Commit(disk.(destination := prior, backup := Absent));
        }
        return Some(InstallFailed);
      }
      Commit(disk.(destination := disk.temporary, temporary := Absent));
      Commit(disk.(backup := Directory(Remnant(prior.files))));
      if DropBackup in world.faults { return Some(BackupNotRemoved); }
      Commit(disk.(backup := Absent));
      failure := None;
    }

    // The gates before anything is written.
    method ReviewGates(request: Request) returns (error: Option<Error>)
      ensures error.None? <==> Reviewable(request)
      ensures error.Some? ==>
        && GateRefusal(world, request) == Some(Failed(error.value))
        && !AfterGates(error.value) && error.value != SourceChanged
    {
      if request.source.None? { return Some(SourceMissing); }
      if request.parent.None? { return Some(ParentMissing); }
      if !request.parentIsDirectory { return Some(ParentNotDirectory); }
      if request.plan.None? { return Some(PlanFailed); }
      var plan := request.plan.value;
      if plan.revision != request.reviewedRevision { return Some(StalePlan); }
      if plan.included == [] { return Some(EmptyPlan); }
      var destination := request.parent.value + [plan.folderName];
      LiesInIff(request.source.value, destination);
      LiesInIff(destination, request.source.value);
      if destination <= request.source.value || request.source.value <= destination {
        return Some(DestinationOverlapsSource);
      }
      error := None;
    }

    // The gates, up to and including the audit: either the run ends here, or a
    // complete, validated and audited copy stands under the temporary name.
    method StageAndAudit(request: Request) returns (ended: Option<Outcome>)
      requires disk.temporary == Absent && disk.backup == Absent
      modifies this
      ensures old(history) <= history
      ensures AllUntouched(old(disk), history, |old(history)|)
      ensures !Reviewable(request) ==> ended.Some? && ended.value.Failed? && history == old(history)
      ensures ended == GateRefusal(world, request)
      ensures ended.None? <==> Reviewed(world, request)
      ensures ended == Some(BlockedByAudit) <==> Auditable(world, request) && !AuditPasses(world, request)
      ensures ended != Some(ExistingDestination)
      ensures ended.None? ==>
        && NewComplete(request, disk.temporary)
        && disk == Staged(old(disk), disk.temporary)
      ensures ended.Some? ==>
        && !ended.value.Exported? && Aftermath(world, request, old(disk), disk, ended.value)
        && (RemoveTemporary !in world.faults ==> disk.temporary == Absent)
    {
      var error := ReviewGates(request);
      if error.Some? { return Some(Failed(error.value)); }
      ended := Stage(request);
    }

    // The copy: written, validated, audited, and checked against a source that changed.
    method Stage(request: Request) returns (ended: Option<Outcome>)
      requires disk.temporary == Absent && disk.backup == Absent && Reviewable(request)
      modifies this
      ensures old(history) <= history
      ensures AllUntouched(old(disk), history, |old(history)|)
      ensures ended == GateRefusal(world, request)
      ensures ended.None? <==> Reviewed(world, request)
      ensures ended == Some(BlockedByAudit) <==> Auditable(world, request) && !AuditPasses(world, request)
      ensures ended.None? ==>
        && NewComplete(request, disk.temporary)
        && disk == Staged(old(disk), disk.temporary)
      ensures ended.Some? ==>
        && (ended.value.Failed? || ended.value.BlockedByAudit?)
        && Aftermath(world, request, old(disk), disk, ended.value)
        && (RemoveTemporary !in world.faults ==> disk.temporary == Absent)
    {
      GatesPassed(world, request);
      ended := Copy(request);
      if ended.Some? {
        RemoveTemporaryDirectory();
        UntouchedIsAftermath(request, old(disk), ended.value);
      }
    }

    // The same with the temporary directory still there when a gate refuses.
    method Copy(request: Request) returns (ended: Option<Outcome>)
      requires disk.temporary == Absent && disk.backup == Absent && Reviewable(request)
      modifies this
      ensures old(history) <= history
      ensures AllUntouched(old(disk), history, |old(history)|)
      ensures ended == CopyRefusal(world, request, request.plan.value)
      ensures ended.None? ==>
        && NewComplete(request, disk.temporary)
        && disk == Staged(old(disk), disk.temporary)
      ensures ended.Some? ==>
        && (ended.value.BlockedByAudit? || (ended.value.Failed? && !AfterGates(ended.value.error)))
        && Untouched(old(disk), disk)
        && disk.audits == old(disk.audits) + AuditKept(world, request, ended.value)
    {
      var plan := request.plan.value;
      if CreateTemporary in world.faults { return Some(Failed(NoTemporary)); }
      Commit(disk.(temporary := Directory(map[])));
      var prepared := PrepareProjection(plan);
      if !prepared { return Some(Failed(NotPrepared)); }
      ended := Judge();
      JudgedIsCopyRefusal(request, disk.temporary.files, ended);
    }

    lemma JudgedIsCopyRefusal(request: Request, files: Files, ended: Option<Outcome>)
      requires request.plan.Some? && Preparable(world, request.plan.value) && CreateTemporary !in world.faults
      requires IsProjection(request.plan.value, files)
      requires ended == JudgedRefusal(world, world.validationErrors(files) == 0, world.auditPasses(files))
      ensures ended == CopyRefusal(world, request, request.plan.value)
      ensures ended.None? ==> world.auditPasses(files)
      ensures ended.Some? ==>
        && (ended.value.BlockedByAudit? || (ended.value.Failed? && !AfterGates(ended.value.error)))
        && AuditKept(world, request, ended.value) == JudgedAudit(ended, world.auditPasses(files))
    {
      OnlyOneCompletion(request, files);
      JudgedEnds(request, ended, world.validationErrors(files) == 0, world.auditPasses(files));
    }

    lemma JudgedEnds(request: Request, ended: Option<Outcome>, valid: bool, passed: bool)
      requires ended == JudgedRefusal(world, valid, passed) && AuditPasses(world, request) == passed
      ensures ended.None? ==> passed
      ensures ended.Some? ==>
        && (ended.value.BlockedByAudit? || (ended.value.Failed? && !AfterGates(ended.value.error)))
        && AuditKept(world, request, ended.value) == JudgedAudit(ended, passed)
    {
    }

    // The verdicts on the copy under the temporary name.
    method Judge() returns (ended: Option<Outcome>)
      requires disk.temporary.Directory?
      modifies this
      ensures old(history) <= history
      ensures forall k | |old(history)| <= k < |history| :: Untouched(old(disk), history[k])
      ensures ended == JudgedRefusal(world, world.validationErrors(old(disk).temporary.files) == 0,
                                     world.auditPasses(old(disk).temporary.files))
      ensures disk == old(disk).(audits := disk.audits)
      ensures disk.audits == old(disk.audits) + JudgedAudit(ended, world.auditPasses(old(disk).temporary.files))
    {
      if world.validationErrors(disk.temporary.files) > 0 { return Some(Failed(ValidationFailed)); }
      var passed := world.auditPasses(disk.temporary.files);
      if WriteAudit in world.faults { return Some(Failed(AuditNotWritten)); }
      Commit(disk.(audits := disk.audits + [passed]));
      if !world.sourceUnchanged { return Some(Failed(SourceChanged)); }
      if !passed { return Some(BlockedByAudit); }
      ended := None;
    }

    // Past the gates: the copy goes to a free destination or replaces an earlier projection.
    method Place(request: Request, ghost was: Disk) returns (outcome: Outcome)
      requires disk == Staged(was, disk.temporary) && was.backup == Absent
      requires Reviewed(world, request) && NewComplete(request, disk.temporary)
      modifies this
      ensures old(history) <= history
      ensures AllGuarded(world, request, was, history, |old(history)|)
      ensures Aftermath(world, request, was, disk, outcome)
      ensures RemoveTemporary !in world.faults ==> disk.temporary == Absent
      ensures PlacedExactly(world, request, was.destination, outcome)
    {
      if disk.destination != Absent && !request.overwriteConfirmed {
        RemoveTemporaryDirectory();
        return ExistingDestination;
      }
      if disk.destination != Absent {
        var failure := ReplaceExistingProjection(request, was);
        if failure.Some? {
          RemoveTemporaryDirectory();
          return Failed(failure.value);
        }
        outcome := Exported(true);
      } else {
        if MoveIntoPlace in world.faults {
          RemoveTemporaryDirectory();
          return Failed(MoveFailed);
        }
        Commit(disk.(destination := disk.temporary, temporary := Absent));
        outcome := Exported(false);
      }
    }

    method Export(request: Request) returns (outcome: Outcome)
      requires disk.temporary == Absent && disk.backup == Absent
      modifies this
      ensures old(history) <= history
      ensures AllGuarded(world, request, old(disk), history, |old(history)|)
      ensures Aftermath(world, request, old(disk), disk, outcome)
      ensures RemoveTemporary !in world.faults ==> disk.temporary == Absent
      ensures !Reviewable(request) ==> outcome.Failed? && history == old(history)
      ensures ByGatesOrPlace(world, request, old(disk.destination), outcome)
      ensures EndsExactly(world, request, old(disk.destination), outcome)
    {
      var ended := StageAndAudit(request);
      UntouchedIsGuarded(world, request, old(disk), history, |old(history)|);
      if ended.Some? {
        EachOutcome(world, request, old(disk.destination), ended.value);
        return ended.value;
      }
      outcome := Place(request, old(disk));
      EachOutcome(world, request, old(disk.destination), outcome);
    }

    // The verdicts on the one complete copy there is.
    lemma OnlyOneCompletion(request: Request, files: Files)
      requires request.plan.Some? && IsProjection(request.plan.value, files)
      ensures Validates(world, request.plan.value) <==> world.validationErrors(files) == 0
      ensures AuditPasses(world, request) <==> world.auditPasses(files)
    {
      forall other | IsProjection(request.plan.value, other) ensures other == files {
        ProjectionIsUnique(other, files, request.plan.value);
      }
    }

    lemma UntouchedIsAftermath(request: Request, was: Disk, ended: Outcome)
      requires Untouched(was, disk) && disk.audits == was.audits + AuditKept(world, request, ended)
      requires ended.BlockedByAudit? || (ended.Failed? && !AfterGates(ended.error))
      ensures Aftermath(world, request, was, disk, ended)
    {
    }
  }
}
