/** The projection planner: a first-in first-out worklist that follows links from the
    selected concepts through admissible concepts only, and records for every concept
    of the bundle why it is in or out. */
module ProjectionPlan {
  import opened Options
  import opened StringOrder
  import opened Walks

  datatype Access = Access(audiences: seq<string>, sensitivity: Option<string>, knownSensitivity: Option<string>)

  datatype Concept = Concept(id: string, links: seq<string>, access: Access)

  // `lower` is the locale's lower-casing.
  datatype Input = Input(
    selected: seq<string>,
    audiences: seq<string>,
    maxSensitivity: string,
    includeUnknown: bool,
    lower: string -> string)

  datatype Reason = AudienceMismatch | UnknownSensitivity | SensitivityExceedsMaximum | NotSelected

  // linkedFrom is None for an explicit entry and the linking concept for a transitive one.
  datatype Entry = Entry(id: string, linkedFrom: Option<string>)

  // ----- What a recipient may get

  // From the least to the most sensitive.
  const SCALE := ["public", "internal", "confidential", "restricted"]

  // The level stands behind the limit on the scale, or the limit is not on it.
  ghost predicate Exceeds(level: string, limit: string) {
    exists i :: 0 <= i < |SCALE| && SCALE[i] == level && limit !in SCALE[i..]
  }

  // A concept for certain audiences shares one of them with the recipient, if any are asked for.
  ghost predicate AudienceFits(access: Access, input: Input) {
    || input.audiences == [] || access.audiences == []
    || exists i, j :: 0 <= i < |access.audiences| && 0 <= j < |input.audiences|
         && input.lower(access.audiences[i]) == input.lower(input.audiences[j])
  }

  ghost predicate SensitivityKnown(access: Access) {
    access.sensitivity.Some? && access.knownSensitivity.Some?
  }

  ghost predicate TooSensitive(access: Access, input: Input) {
    access.knownSensitivity.Some? && Exceeds(access.knownSensitivity.value, input.maxSensitivity)
  }

  ghost predicate Cleared(access: Access, input: Input) {
    && AudienceFits(access, input)
    && (SensitivityKnown(access) || input.includeUnknown)
    && !TooSensitive(access, input)
  }

  // The reason is the first that applies.
  ghost predicate RefusedFor(access: Access, input: Input, reason: Reason) {
    match reason
    case AudienceMismatch => !AudienceFits(access, input)
    case UnknownSensitivity =>
      AudienceFits(access, input) && !SensitivityKnown(access) && !input.includeUnknown
    case SensitivityExceedsMaximum =>
      && AudienceFits(access, input) && (SensitivityKnown(access) || input.includeUnknown)
      && TooSensitive(access, input)
    case NotSelected => false
  }

  // ----- The checks, in their order

  // The place of a level, or -1.
  function LevelOf(level: string): int {
    if level == "public" then 0
    else if level == "internal" then 1
    else if level == "confidential" then 2
    else if level == "restricted" then 3
    else -1
  }

  lemma LevelPlace(level: string)
    ensures var r := LevelOf(level);
      (r == -1 && level !in SCALE) || (0 <= r < 4 && SCALE[r] == level)
  {
  }

  lemma ScalePlaces(i: nat)
    requires i < 4
    ensures LevelOf(SCALE[i]) == i
  {
  }

  lemma ExceedsByPlace(level: string, limit: string)
    ensures Exceeds(level, limit) <==> LevelOf(level) > LevelOf(limit)
  {
    LevelPlace(level);
    LevelPlace(limit);
    var (r, l) := (LevelOf(level), LevelOf(limit));
    if r >= 0 && l >= r { assert SCALE[r..][l - r] == limit; }
    if r >= 0 && limit in SCALE[r..] {
      var k :| 0 <= k < |SCALE[r..]| && SCALE[r..][k] == limit;
      ScalePlaces(r + k);
    }
    if Exceeds(level, limit) {
      var i :| 0 <= i < |SCALE| && SCALE[i] == level && limit !in SCALE[i..];
      ScalePlaces(i);
    }
  }

  predicate AudienceMismatched(access: Access, input: Input) {
    && input.audiences != [] && access.audiences != []
    && forall a | a in access.audiences ::
         !exists b :: b in input.audiences && input.lower(a) == input.lower(b)
  }

  lemma MismatchIsMisfit(access: Access, input: Input)
    ensures AudienceMismatched(access, input) <==> !AudienceFits(access, input)
  {
    if !AudienceFits(access, input) {
      forall a, b | a in access.audiences && b in input.audiences ensures input.lower(a) != input.lower(b) {
        var i :| 0 <= i < |access.audiences| && access.audiences[i] == a;
        var j :| 0 <= j < |input.audiences| && input.audiences[j] == b;
      }
    }
  }

  // Why a concept may not be in the projection, if it may not.
  function Refusal(concept: Concept, input: Input): (r: Option<Reason>)
    ensures r.None? <==> Cleared(concept.access, input)
    ensures forall reason :: r == Some(reason) <==> RefusedFor(concept.access, input, reason)
  {
    var access := concept.access;
    var rank := if access.knownSensitivity.Some? then LevelOf(access.knownSensitivity.value) else -1;
    MismatchIsMisfit(access, input);
    ExceedsByPlace(if access.knownSensitivity.Some? then access.knownSensitivity.value else "", input.maxSensitivity);
    if AudienceMismatched(access, input) then Some(AudienceMismatch)
    else if access.sensitivity.Some? && access.knownSensitivity.None? && !input.includeUnknown
    then Some(UnknownSensitivity)
    else if access.sensitivity.None? && !input.includeUnknown then Some(UnknownSensitivity)
    else if rank > LevelOf(input.maxSensitivity) then Some(SensitivityExceedsMaximum)
    else None
  }

  type Index = map<string, Concept>

  // The later of two concepts with the same id wins.
  function ById(concepts: seq<Concept>): (r: Index)
    ensures forall c | c in concepts :: c.id in r
    ensures forall id | id in r :: r[id] in concepts && r[id].id == id
  {
    if concepts == [] then map[]
    else
      var last := concepts[|concepts| - 1];
      ById(concepts[..|concepts| - 1])[last.id := last]
  }

  lemma {:induction false} LaterWins(concepts: seq<Concept>, i: nat)
    requires i < |concepts| && forall j | i < j < |concepts| :: concepts[j].id != concepts[i].id
    ensures ById(concepts)[concepts[i].id] == concepts[i]
    decreases |concepts|
  {
    if i < |concepts| - 1 {
      LaterWins(concepts[..|concepts| - 1], i);
    }
  }

  ghost predicate Admissible(byId: Index, input: Input, id: string) {
    id in byId && Cleared(byId[id].access, input)
  }

  // Links between admissible concepts.
  ghost function AdmissibleArcs(byId: Index, input: Input): Arcs {
    set u, v | u in byId && v in byId[u].links && Admissible(byId, input, u) && Admissible(byId, input, v) :: (u, v)
  }

  // v is reached from a selected concept along a route of admissible concepts only.
  ghost predicate Reachable(byId: Index, input: Input, v: string) {
    exists p: seq<string> :: IsWalk(AdmissibleArcs(byId, input), p) && p[|p| - 1] == v
        && p[0] in input.selected && Admissible(byId, input, p[0])
  }

  function Ids(included: seq<Entry>): set<string> {
    set e | e in included :: e.id
  }

  ghost predicate Linked(byId: Index, u: string, v: string) {
    u in byId && v in byId[u].links
  }

  // Named by the selection, or by a link of an included concept.
  ghost predicate Named(byId: Index, input: Input, included: seq<Entry>, v: string) {
    v in input.selected || exists u :: u in Ids(included) && Linked(byId, u, v)
  }

  ghost predicate Decided(included: seq<Entry>, omitted: map<string, Reason>, v: string) {
    v in Ids(included) || v in omitted
  }

  // An entry's recorded reason: explicit exactly when selected, and otherwise an
  // included concept before it links to it.
  ghost predicate ReasonHolds(byId: Index, input: Input, included: seq<Entry>, i: nat)
    requires i < |included|
  {
    var e := included[i];
    && (e.linkedFrom.None? <==> e.id in input.selected)
    && (e.linkedFrom.Some? ==> e.linkedFrom.value in Ids(included[..i]) && Linked(byId, e.linkedFrom.value, e.id))
  }

  ghost predicate IncludedOk(byId: Index, input: Input, included: seq<Entry>) {
    && (forall i, j | 0 <= i < j < |included| :: included[i].id != included[j].id)
    && (forall i | 0 <= i < |included| ::
          ReasonHolds(byId, input, included, i) && Admissible(byId, input, included[i].id)
          && Reachable(byId, input, included[i].id))
  }

  ghost predicate OmittedOk(byId: Index, input: Input, included: seq<Entry>, omitted: map<string, Reason>) {
    forall v | v in omitted ::
      v in byId && RefusedFor(byId[v].access, input, omitted[v]) && Named(byId, input, included, v)
  }

  type Queue = seq<(string, Option<string>)>

  ghost predicate Queued(queue: Queue, v: string) {
    exists i :: 0 <= i < |queue| && queue[i].0 == v
  }

  ghost predicate QueueOk(byId: Index, input: Input, included: seq<Entry>, queue: Queue) {
    && (forall i | 0 <= i < |queue| ::
          match queue[i].1
          case None => queue[i].0 in input.selected
          case Some(u) => u in Ids(included) && Linked(byId, u, queue[i].0))
    // selected ids come before linked ones
    && (forall i, j | 0 <= i < j < |queue| && queue[j].1.None? :: queue[i].1.None?)
  }

  // Everything named and known is decided or still waits; a selected id waits as such.
  ghost predicate NothingLost(byId: Index, input: Input, included: seq<Entry>, omitted: map<string, Reason>,
                              queue: Queue)
  {
    && (forall v | v in input.selected && v in byId ::
          Decided(included, omitted, v) || (v, None) in queue)
    && (forall v | v in byId && Named(byId, input, included, v) ::
          Decided(included, omitted, v) || Queued(queue, v))
  }

  ghost predicate Inv(byId: Index, input: Input, included: seq<Entry>, omitted: map<string, Reason>, queue: Queue) {
    && IncludedOk(byId, input, included)
    && OmittedOk(byId, input, included, omitted)
    && Ids(included) !! omitted.Keys
    && QueueOk(byId, input, included, queue)
    && NothingLost(byId, input, included, omitted, queue)
  }

  // ----- One turn of the worklist

  lemma SkipKeeps(byId: Index, input: Input, included: seq<Entry>, omitted: map<string, Reason>, queue: Queue)
    requires queue != [] && Inv(byId, input, included, omitted, queue)
    requires queue[0].0 !in byId || Decided(included, omitted, queue[0].0)
    ensures Inv(byId, input, included, omitted, queue[1..])
  {
    forall v | v in byId && Queued(queue, v) ensures Decided(included, omitted, v) || Queued(queue[1..], v) {
      var i :| 0 <= i < |queue| && queue[i].0 == v;
      if i > 0 { assert queue[1..][i - 1].0 == v; }
    }
    assert queue == [queue[0]] + queue[1..];
  }

  lemma OmitKeeps(byId: Index, input: Input, included: seq<Entry>, omitted: map<string, Reason>, queue: Queue,
                  reason: Reason)
    requires queue != [] && Inv(byId, input, included, omitted, queue)
    requires queue[0].0 in byId && !Decided(included, omitted, queue[0].0)
    requires RefusedFor(byId[queue[0].0].access, input, reason)
    ensures Inv(byId, input, included, omitted[queue[0].0 := reason], queue[1..])
  {
    var id := queue[0].0;
    var omitted' := omitted[id := reason];
    assert Named(byId, input, included, id);
    assert OmittedOk(byId, input, included, omitted');
    assert NothingLost(byId, input, included, omitted', queue);
    SkipKeeps(byId, input, included, omitted', queue);
  }

  lemma ReachOneMore(byId: Index, input: Input, u: string, v: string)
    requires Reachable(byId, input, u) && Linked(byId, u, v)
    requires Admissible(byId, input, u) && Admissible(byId, input, v)
    ensures Reachable(byId, input, v)
  {
    var arcs := AdmissibleArcs(byId, input);
    var p: seq<string> :| IsWalk(arcs, p) && p[|p| - 1] == u && p[0] in input.selected && Admissible(byId, input, p[0]);
    var q := p + [v];
    forall i | 0 <= i < |q| - 1 ensures (q[i], q[i + 1]) in arcs {
      if i < |p| - 1 { assert (p[i], p[i + 1]) in arcs; }
    }
    assert IsWalk(arcs, q) && q[|q| - 1] == v && q[0] == p[0];
  }

  lemma ReachSelected(byId: Index, input: Input, v: string)
    requires v in input.selected && Admissible(byId, input, v)
    ensures Reachable(byId, input, v)
  {
    var p := [v];
    assert IsWalk(AdmissibleArcs(byId, input), p) && p[0] == v;
  }

  // A linked head of the queue means that no selected id waits any more.
  lemma LinkedHeadIsNotSelected(byId: Index, input: Input, included: seq<Entry>, omitted: map<string, Reason>,
                                queue: Queue)
    requires queue != [] && QueueOk(byId, input, included, queue) && NothingLost(byId, input, included, omitted, queue)
    requires queue[0].0 in byId && !Decided(included, omitted, queue[0].0) && queue[0].1.Some?
    ensures queue[0].0 !in input.selected
  {
    forall k | 0 < k < |queue| ensures queue[k].1.Some? {}
  }

  lemma AppendEntry(byId: Index, input: Input, included: seq<Entry>, e: Entry)
    requires IncludedOk(byId, input, included) && e.id !in Ids(included)
    requires Admissible(byId, input, e.id) && Reachable(byId, input, e.id)
    requires e.linkedFrom.None? <==> e.id in input.selected
    requires e.linkedFrom.Some? ==> e.linkedFrom.value in Ids(included) && Linked(byId, e.linkedFrom.value, e.id)
    ensures IncludedOk(byId, input, included + [e])
  {
    var after := included + [e];
    forall i | 0 <= i < |after| ensures ReasonHolds(byId, input, after, i) {
      if i < |included| {
        assert ReasonHolds(byId, input, included, i);
        assert after[..i] == included[..i];
      } else {
        assert after[..i] == included;
      }
    }
    forall i | 0 <= i < |included| ensures included[i].id != e.id {
      assert included[i] in included;
    }
  }

  // The entry that the head of the queue becomes.
  lemma IncludeEntry(byId: Index, input: Input, included: seq<Entry>, omitted: map<string, Reason>, queue: Queue)
    requires queue != [] && Inv(byId, input, included, omitted, queue)
    requires Admissible(byId, input, queue[0].0) && !Decided(included, omitted, queue[0].0)
    ensures IncludedOk(byId, input, included + [Entry(queue[0].0, queue[0].1)])
  {
    var (id, from) := queue[0];
    if from.None? {
      ReachSelected(byId, input, id);
    } else {
      var k :| 0 <= k < |included| && included[k].id == from.value;
      assert Reachable(byId, input, included[k].id);
      ReachOneMore(byId, input, from.value, id);
      LinkedHeadIsNotSelected(byId, input, included, omitted, queue);
    }
    AppendEntry(byId, input, included, Entry(id, from));
  }

  ghost predicate LinkQueue(byId: Index, u: string, tail: Queue) {
    && u in byId
    && |tail| == |byId[u].links|
    && forall i | 0 <= i < |tail| :: tail[i] == (byId[u].links[i], Some(u))
  }

  lemma IdsAppend(included: seq<Entry>, e: Entry)
    ensures Ids(included + [e]) == Ids(included) + {e.id}
  {
    var after := included + [e];
    assert after[|included|] == e;
    assert forall x | x in included :: x in after;
  }

  lemma QueueAfterInclude(byId: Index, input: Input, included: seq<Entry>, e: Entry, queue: Queue, tail: Queue)
    requires QueueOk(byId, input, included, queue) && LinkQueue(byId, e.id, tail)
    ensures QueueOk(byId, input, included + [e], queue + tail)
  {
    IdsAppend(included, e);
    var all := queue + tail;
    forall i | 0 <= i < |all|
      ensures match all[i].1
              case None => all[i].0 in input.selected
              case Some(u) => u in Ids(included + [e]) && Linked(byId, u, all[i].0)
    {
      if i < |queue| {
        assert all[i] == queue[i];
      } else {
        assert all[i] == tail[i - |queue|];
      }
    }
  }

  lemma NothingLostAfterInclude(byId: Index, input: Input, included: seq<Entry>, omitted: map<string, Reason>,
                                e: Entry, queue: Queue, tail: Queue)
    requires NothingLost(byId, input, included, omitted, queue) && LinkQueue(byId, e.id, tail)
    ensures NothingLost(byId, input, included + [e], omitted, queue + tail)
  {
    IdsAppend(included, e);
    var all, after := queue + tail, included + [e];
    forall v | v in byId && Named(byId, input, after, v)
      ensures Decided(after, omitted, v) || Queued(all, v)
    {
      if Named(byId, input, included, v) {
        if Queued(queue, v) {
          var i :| 0 <= i < |queue| && queue[i].0 == v;
          assert all[i].0 == v;
        }
      } else {
        assert Linked(byId, e.id, v);
        var i :| 0 <= i < |byId[e.id].links| && byId[e.id].links[i] == v;
        assert all[|queue| + i] == tail[i];
      }
    }
    forall v | (v, None) in queue ensures (v, None) in all {}
  }

  lemma OmittedAfterInclude(byId: Index, input: Input, included: seq<Entry>, omitted: map<string, Reason>, e: Entry)
    requires OmittedOk(byId, input, included, omitted)
    ensures OmittedOk(byId, input, included + [e], omitted)
  {
    IdsAppend(included, e);
    forall v | v in omitted ensures Named(byId, input, included + [e], v) {
      if v !in input.selected {
        var u :| u in Ids(included) && Linked(byId, u, v);
        assert u in Ids(included + [e]);
      }
    }
  }

  lemma IncludeKeeps(byId: Index, input: Input, included: seq<Entry>, omitted: map<string, Reason>, queue: Queue,
                     tail: Queue)
    requires queue != [] && Inv(byId, input, included, omitted, queue)
    requires Admissible(byId, input, queue[0].0) && !Decided(included, omitted, queue[0].0)
    requires LinkQueue(byId, queue[0].0, tail)
    ensures Inv(byId, input, included + [Entry(queue[0].0, queue[0].1)], omitted, queue[1..] + tail)
  {
    var e := Entry(queue[0].0, queue[0].1);
    IncludeEntry(byId, input, included, omitted, queue);
    IdsAppend(included, e);
    OmittedAfterInclude(byId, input, included, omitted, e);
    QueueAfterInclude(byId, input, included, e, queue, tail);
    NothingLostAfterInclude(byId, input, included, omitted, e, queue, tail);
    SkipKeeps(byId, input, included + [e], omitted, queue + tail);
    TailOfSum(queue, tail);
  }

  lemma TailOfSum<T>(a: seq<T>, b: seq<T>)
    requires a != []
    ensures (a + b)[1..] == a[1..] + b
  {
  }

  // ----- The order of the worklist

  // v is reached over n links.
  ghost predicate ReachableIn(byId: Index, input: Input, v: string, n: nat) {
    exists p: seq<string> :: IsWalk(AdmissibleArcs(byId, input), p) && p[|p| - 1] == v
        && p[0] in input.selected && Admissible(byId, input, p[0]) && |p| == n + 1
  }

  // The number of links from the selection to v.
  ghost predicate Distance(byId: Index, input: Input, v: string, n: nat) {
    ReachableIn(byId, input, v, n) && forall m: nat | m < n :: !ReachableIn(byId, input, v, m)
  }

  // Included at most n links away.
  ghost predicate IncludedBy(included: seq<Entry>, far: seq<nat>, v: string, n: int)
    requires |far| == |included|
  {
    exists k :: 0 <= k < |included| && included[k].id == v && far[k] <= n
  }

  // Waiting to be included at most n links away.
  ghost predicate WaitsFor(queue: Queue, due: seq<nat>, v: string, n: int)
    requires |due| == |queue|
  {
    exists j :: 0 <= j < |queue| && queue[j].0 == v && due[j] <= n
  }

  // One link farther than the concept that named it, or none for a selected one.
  ghost predicate OneFarther(included: seq<Entry>, far: seq<nat>, from: Option<string>, n: nat)
    requires |far| == |included|
  {
    match from
    case None => n == 0
    case Some(u) => exists k :: 0 <= k < |included| && included[k].id == u && n == far[k] + 1
  }

  // `far` counts links for the included concepts, `due` for those that wait: both in order,
  // and the queue at most one link ahead of its head.
  ghost predicate InLayers(included: seq<Entry>, far: seq<nat>, queue: Queue, due: seq<nat>) {
    && |far| == |included| && |due| == |queue|
    && (forall i, j | 0 <= i < j < |far| :: far[i] <= far[j])
    && (forall i, j | 0 <= i < j < |due| :: due[i] <= due[j])
    && (forall i, j | 0 <= i < |far| && 0 <= j < |due| :: far[i] <= due[j])
    && (forall j | 0 <= j < |due| :: due[j] <= due[0] + 1)
    && (forall i | 0 <= i < |included| :: OneFarther(included[..i], far[..i], included[i].linkedFrom, far[i]))
    && (forall j | 0 <= j < |queue| :: OneFarther(included, far, queue[j].1, due[j]))
  }

  // Nothing admissible is overtaken: it is included or waits at its distance or before.
  ghost predicate NotOvertaken(byId: Index, input: Input, included: seq<Entry>, far: seq<nat>, queue: Queue,
                               due: seq<nat>)
    requires |far| == |included| && |due| == |queue|
  {
    && (forall v | v in input.selected && Admissible(byId, input, v) ::
          IncludedBy(included, far, v, 0) || WaitsFor(queue, due, v, 0))
    && (forall k, v | 0 <= k < |included| && Linked(byId, included[k].id, v) && Admissible(byId, input, v) ::
          IncludedBy(included, far, v, far[k] + 1) || WaitsFor(queue, due, v, far[k] + 1))
  }

  ghost predicate Layers(byId: Index, input: Input, included: seq<Entry>, far: seq<nat>, queue: Queue, due: seq<nat>) {
    InLayers(included, far, queue, due) && NotOvertaken(byId, input, included, far, queue, due)
  }

  lemma IncludedEarly(included: seq<Entry>, far: seq<nat>, v: string, n: int)
    requires |far| == |included| && v in Ids(included) && forall i | 0 <= i < |far| :: far[i] <= n
    ensures IncludedBy(included, far, v, n)
  {
    var e :| e in included && e.id == v;
    var k :| 0 <= k < |included| && included[k] == e;
    assert far[k] <= n;
  }

  lemma StillNear(included: seq<Entry>, far: seq<nat>, queue: Queue, due: seq<nat>, v: string, n: int)
    requires InLayers(included, far, queue, due) && queue != []
    requires queue[0].0 == v ==> v in Ids(included)
    requires IncludedBy(included, far, v, n) || WaitsFor(queue, due, v, n)
    ensures IncludedBy(included, far, v, n) || WaitsFor(queue[1..], due[1..], v, n)
  {
    if WaitsFor(queue, due, v, n) {
      var j :| 0 <= j < |queue| && queue[j].0 == v && due[j] <= n;
      if j == 0 {
        IncludedEarly(included, far, v, n);
      } else {
        assert queue[1..][j - 1].0 == v && due[1..][j - 1] <= n;
      }
    }
  }

  lemma InLayersPop(included: seq<Entry>, far: seq<nat>, queue: Queue, due: seq<nat>)
    requires queue != [] && InLayers(included, far, queue, due)
    ensures InLayers(included, far, queue[1..], due[1..])
  {
  }

  // The head of the queue goes when it is included, or not admissible.
  lemma LayersPop(byId: Index, input: Input, included: seq<Entry>, far: seq<nat>, queue: Queue, due: seq<nat>)
    requires queue != [] && Layers(byId, input, included, far, queue, due)
    requires Admissible(byId, input, queue[0].0) ==> queue[0].0 in Ids(included)
    ensures Layers(byId, input, included, far, queue[1..], due[1..])
  {
    InLayersPop(included, far, queue, due);
    forall v | v in input.selected && Admissible(byId, input, v)
      ensures IncludedBy(included, far, v, 0) || WaitsFor(queue[1..], due[1..], v, 0)
    {
      StillNear(included, far, queue, due, v, 0);
    }
    forall k, v | 0 <= k < |included| && Linked(byId, included[k].id, v) && Admissible(byId, input, v)
      ensures IncludedBy(included, far, v, far[k] + 1) || WaitsFor(queue[1..], due[1..], v, far[k] + 1)
    {
      StillNear(included, far, queue, due, v, far[k] + 1);
    }
  }

  lemma FartherStays(included: seq<Entry>, far: seq<nat>, e: Entry, d: nat, from: Option<string>, n: nat)
    requires |far| == |included| && OneFarther(included, far, from, n)
    ensures OneFarther(included + [e], far + [d], from, n)
  {
    if from.Some? {
      var k :| 0 <= k < |included| && included[k].id == from.value && n == far[k] + 1;
      assert (included + [e])[k].id == from.value && (far + [d])[k] == far[k];
    }
  }

  // The head joins the included concepts, and its links the end of the queue.
  lemma InLayersGrow(byId: Index, included: seq<Entry>, far: seq<nat>, queue: Queue, due: seq<nat>,
                     tail: Queue, late: seq<nat>)
    requires queue != [] && InLayers(included, far, queue, due) && LinkQueue(byId, queue[0].0, tail)
    requires |late| == |tail| && forall j | 0 <= j < |late| :: late[j] == due[0] + 1
    ensures InLayers(included + [Entry(queue[0].0, queue[0].1)], far + [due[0]], queue + tail, due + late)
  {
    var (e, d) := (Entry(queue[0].0, queue[0].1), due[0]);
    var (after, far') := (included + [e], far + [d]);
    forall i | 0 <= i < |after| ensures OneFarther(after[..i], far'[..i], after[i].linkedFrom, far'[i]) {
      if i < |included| {
        assert after[..i] == included[..i] && far'[..i] == far[..i];
      } else {
        assert after[..i] == included && far'[..i] == far;
      }
    }
    forall j | 0 <= j < |queue + tail| ensures OneFarther(after, far', (queue + tail)[j].1, (due + late)[j]) {
      if j < |queue| {
        FartherStays(included, far, e, d, queue[j].1, due[j]);
      } else {
        assert (queue + tail)[j] == tail[j - |queue|] && (due + late)[j] == late[j - |queue|];
        assert after[|included|] == e && far'[|included|] == d;
      }
    }
  }

  lemma NearStays(included: seq<Entry>, far: seq<nat>, queue: Queue, due: seq<nat>, e: Entry, d: nat,
                  tail: Queue, late: seq<nat>, v: string, n: int)
    requires |far| == |included| && |due| == |queue| && |late| == |tail|
    requires IncludedBy(included, far, v, n) || WaitsFor(queue, due, v, n)
    ensures IncludedBy(included + [e], far + [d], v, n) || WaitsFor(queue + tail, due + late, v, n)
  {
    if IncludedBy(included, far, v, n) {
      var k :| 0 <= k < |included| && included[k].id == v && far[k] <= n;
      assert (included + [e])[k].id == v && (far + [d])[k] <= n;
    } else {
      var j :| 0 <= j < |queue| && queue[j].0 == v && due[j] <= n;
      assert (queue + tail)[j].0 == v && (due + late)[j] <= n;
    }
  }

  lemma NotOvertakenGrow(byId: Index, input: Input, included: seq<Entry>, far: seq<nat>, queue: Queue, due: seq<nat>,
                         tail: Queue, late: seq<nat>, e: Entry, d: nat)
    requires |far| == |included| && |due| == |queue| && NotOvertaken(byId, input, included, far, queue, due)
    requires LinkQueue(byId, e.id, tail)
    requires |late| == |tail| && forall j | 0 <= j < |late| :: late[j] == d + 1
    ensures NotOvertaken(byId, input, included + [e], far + [d], queue + tail, due + late)
  {
    var (after, far') := (included + [e], far + [d]);
    forall v | v in input.selected && Admissible(byId, input, v)
      ensures IncludedBy(after, far', v, 0) || WaitsFor(queue + tail, due + late, v, 0)
    {
      NearStays(included, far, queue, due, e, d, tail, late, v, 0);
    }
    forall k, v | 0 <= k < |after| && Linked(byId, after[k].id, v) && Admissible(byId, input, v)
      ensures IncludedBy(after, far', v, far'[k] + 1) || WaitsFor(queue + tail, due + late, v, far'[k] + 1)
    {
      if k < |included| {
        NearStays(included, far, queue, due, e, d, tail, late, v, far[k] + 1);
      } else {
        var i :| 0 <= i < |byId[e.id].links| && byId[e.id].links[i] == v;
        assert (queue + tail)[|queue| + i] == tail[i] && (due + late)[|queue| + i] == late[i];
      }
    }
  }

  lemma LayersInclude(byId: Index, input: Input, included: seq<Entry>, far: seq<nat>, queue: Queue, due: seq<nat>,
                      tail: Queue, late: seq<nat>)
    requires queue != [] && Layers(byId, input, included, far, queue, due) && LinkQueue(byId, queue[0].0, tail)
    requires |late| == |tail| && forall j | 0 <= j < |late| :: late[j] == due[0] + 1
    ensures Layers(byId, input, included + [Entry(queue[0].0, queue[0].1)], far + [due[0]],
                   queue[1..] + tail, due[1..] + late)
  {
    var e := Entry(queue[0].0, queue[0].1);
    InLayersGrow(byId, included, far, queue, due, tail, late);
    NotOvertakenGrow(byId, input, included, far, queue, due, tail, late, e, due[0]);
    IdsAppend(included, e);
    LayersPop(byId, input, included + [e], far + [due[0]], queue + tail, due + late);
    TailOfSum(queue, tail);
    TailOfSum(due, late);
  }

  // The included concepts come in order of their distance from the selection, and each
  // linked one names a concept on a shortest way to it.
  ghost predicate ByDistance(byId: Index, input: Input, included: seq<Entry>, far: seq<nat>) {
    && |far| == |included|
    && (forall i | 0 <= i < |included| :: Distance(byId, input, included[i].id, far[i]))
    && (forall i, j | 0 <= i < j < |far| :: far[i] <= far[j])
    && (forall i | 0 <= i < |included| :: OneFarther(included[..i], far[..i], included[i].linkedFrom, far[i]))
  }

  lemma {:induction false} WalkIsLong(byId: Index, input: Input, included: seq<Entry>, far: seq<nat>, p: seq<string>)
    requires Layers(byId, input, included, far, [], [])
    requires IsWalk(AdmissibleArcs(byId, input), p) && p[0] in input.selected && Admissible(byId, input, p[0])
    ensures IncludedBy(included, far, p[|p| - 1], |p| - 1)
    decreases |p|
  {
    if |p| == 1 {
      assert IncludedBy(included, far, p[0], 0);
    } else {
      var q := p[..|p| - 1];
      forall i | 0 <= i < |q| - 1 ensures (q[i], q[i + 1]) in AdmissibleArcs(byId, input) {
        assert (p[i], p[i + 1]) in AdmissibleArcs(byId, input);
      }
      WalkIsLong(byId, input, included, far, q);
      var k :| 0 <= k < |included| && included[k].id == q[|q| - 1] && far[k] <= |q| - 1;
      assert (p[|p| - 2], p[|p| - 2 + 1]) in AdmissibleArcs(byId, input);
      assert IncludedBy(included, far, p[|p| - 1], far[k] + 1);
    }
  }

  lemma {:induction false} WalkOfThatLength(byId: Index, input: Input, included: seq<Entry>, far: seq<nat>, i: nat)
    requires IncludedOk(byId, input, included) && InLayers(included, far, [], []) && i < |included|
    ensures ReachableIn(byId, input, included[i].id, far[i])
    decreases i
  {
    assert OneFarther(included[..i], far[..i], included[i].linkedFrom, far[i]);
    assert ReasonHolds(byId, input, included, i);
    var v := included[i].id;
    if included[i].linkedFrom.None? {
      var p := [v];
      assert IsWalk(AdmissibleArcs(byId, input), p) && p[0] == v;
    } else {
      var k :| 0 <= k < i && included[..i][k].id == included[i].linkedFrom.value && far[i] == far[..i][k] + 1;
      WalkOfThatLength(byId, input, included, far, k);
      ReachOneFarther(byId, input, included[k].id, v, far[k]);
    }
  }

  lemma ReachOneFarther(byId: Index, input: Input, u: string, v: string, n: nat)
    requires ReachableIn(byId, input, u, n) && Linked(byId, u, v)
    requires Admissible(byId, input, u) && Admissible(byId, input, v)
    ensures ReachableIn(byId, input, v, n + 1)
  {
    var arcs := AdmissibleArcs(byId, input);
    var p: seq<string> :| IsWalk(arcs, p) && p[|p| - 1] == u && p[0] in input.selected
                       && Admissible(byId, input, p[0]) && |p| == n + 1;
    var q := p + [v];
    forall i | 0 <= i < |q| - 1 ensures (q[i], q[i + 1]) in arcs {
      if i < |p| - 1 { assert (p[i], p[i + 1]) in arcs; }
    }
    assert IsWalk(arcs, q) && q[|q| - 1] == v && q[0] == p[0];
  }

  // Every concept is as far from the selection as it was counted.
  lemma FinishedByDistance(byId: Index, input: Input, included: seq<Entry>, far: seq<nat>)
    requires IncludedOk(byId, input, included) && Layers(byId, input, included, far, [], [])
    ensures ByDistance(byId, input, included, far)
  {
    forall i | 0 <= i < |included| ensures Distance(byId, input, included[i].id, far[i]) {
      WalkOfThatLength(byId, input, included, far, i);
      forall m: nat | ReachableIn(byId, input, included[i].id, m) ensures far[i] <= m {
        NoShorterWalk(byId, input, included, far, i, m);
      }
    }
  }

  lemma NoShorterWalk(byId: Index, input: Input, included: seq<Entry>, far: seq<nat>, i: nat, m: nat)
    requires IncludedOk(byId, input, included) && Layers(byId, input, included, far, [], [])
    requires i < |included| && ReachableIn(byId, input, included[i].id, m)
    ensures far[i] <= m
  {
    var p: seq<string> :| IsWalk(AdmissibleArcs(byId, input), p) && p[|p| - 1] == included[i].id
                       && p[0] in input.selected && Admissible(byId, input, p[0]) && |p| == m + 1;
    WalkIsLong(byId, input, included, far, p);
    var k :| 0 <= k < |included| && included[k].id == included[i].id && far[k] <= m;
    assert k == i;
  }

  // ----- The worklist

  ghost function Undecided(byId: Index, included: seq<Entry>, omitted: map<string, Reason>): set<string> {
    byId.Keys - Ids(included) - omitted.Keys
  }

  lemma OmitDecides(byId: Index, included: seq<Entry>, omitted: map<string, Reason>, id: string, reason: Reason)
    requires id in byId && !Decided(included, omitted, id)
    ensures Undecided(byId, included, omitted[id := reason]) < Undecided(byId, included, omitted)
  {
    assert id in Undecided(byId, included, omitted);
  }

  lemma IncludeDecides(byId: Index, included: seq<Entry>, omitted: map<string, Reason>, e: Entry)
    requires e.id in byId && !Decided(included, omitted, e.id)
    ensures Undecided(byId, included + [e], omitted) < Undecided(byId, included, omitted)
  {
    IdsAppend(included, e);
    assert e.id in Undecided(byId, included, omitted);
  }

  // The queue items that the links of an included concept become, in link order.
  method LinkItems(u: string, links: seq<string>) returns (items: Queue)
    ensures |items| == |links| && forall i | 0 <= i < |links| :: items[i] == (links[i], Some(u))
  {
    items := [];
    var i := 0;
    while i < |links|
      invariant 0 <= i <= |links| && |items| == i
      invariant forall j | 0 <= j < i :: items[j] == (links[j], Some(u))
    {
      items := items + [(links[i], Some(u))];
      i := i + 1;
    }
  }

  method SelectedQueue(selected: seq<string>) returns (queue: Queue)
    ensures |queue| == |selected|
    ensures forall i | 0 <= i < |queue| :: queue[i] == (selected[i], None)
  {
    queue := seq(|selected|, i requires 0 <= i < |selected| => (selected[i], None));
  }

  // What holds before every turn.
  ghost predicate Turn(byId: Index, input: Input, included: seq<Entry>, omitted: map<string, Reason>, queue: Queue,
                       far: seq<nat>, due: seq<nat>)
  {
    Inv(byId, input, included, omitted, queue) && Layers(byId, input, included, far, queue, due)
  }

  lemma SkipTurn(byId: Index, input: Input, included: seq<Entry>, omitted: map<string, Reason>, queue: Queue,
                 far: seq<nat>, due: seq<nat>)
    requires queue != [] && Turn(byId, input, included, omitted, queue, far, due)
    requires queue[0].0 !in byId || Decided(included, omitted, queue[0].0)
    ensures due != [] && Turn(byId, input, included, omitted, queue[1..], far, due[1..])
  {
    SkipKeeps(byId, input, included, omitted, queue);
    LayersPop(byId, input, included, far, queue, due);
  }

  lemma OmitTurn(byId: Index, input: Input, included: seq<Entry>, omitted: map<string, Reason>, queue: Queue,
                 far: seq<nat>, due: seq<nat>, reason: Reason)
    requires queue != [] && Turn(byId, input, included, omitted, queue, far, due)
    requires queue[0].0 in byId && !Decided(included, omitted, queue[0].0)
    requires RefusedFor(byId[queue[0].0].access, input, reason)
    ensures due != [] && Turn(byId, input, included, omitted[queue[0].0 := reason], queue[1..], far, due[1..])
  {
    OmitKeeps(byId, input, included, omitted, queue, reason);
    LayersPop(byId, input, included, far, queue, due);
  }

  lemma IncludeTurn(byId: Index, input: Input, included: seq<Entry>, omitted: map<string, Reason>, queue: Queue,
                    far: seq<nat>, due: seq<nat>, tail: Queue) returns (late: seq<nat>)
    requires queue != [] && Turn(byId, input, included, omitted, queue, far, due)
    requires Admissible(byId, input, queue[0].0) && !Decided(included, omitted, queue[0].0)
    requires LinkQueue(byId, queue[0].0, tail)
    ensures due != [] && Turn(byId, input, included + [Entry(queue[0].0, queue[0].1)], omitted, queue[1..] + tail,
                              far + [due[0]], due[1..] + late)
  {
    late := seq(|tail|, _ => due[0] + 1);
    IncludeKeeps(byId, input, included, omitted, queue, tail);
    LayersInclude(byId, input, included, far, queue, due, tail, late);
  }

  // The included entries in the order they were included, and the omitted ids with a
  // refusal, for any bundle, any selection and any policy.
  method Worklist(byId: Index, input: Input) returns (included: seq<Entry>, omitted: map<string, Reason>)
    ensures Inv(byId, input, included, omitted, [])
    ensures exists far :: ByDistance(byId, input, included, far)
  {
    included, omitted := [], map[];
    var queue := SelectedQueue(input.selected);
    ghost var far, due := [], seq(|queue|, _ => 0);
    assert Turn(byId, input, included, omitted, queue, far, due) by { StartHolds(byId, input, queue, due); }
    while queue != []
      invariant Turn(byId, input, included, omitted, queue, far, due)
      decreases Undecided(byId, included, omitted), |queue|
    {
      var (id, from) := queue[0];
      if id in Ids(included) || id in omitted || id !in byId {
        SkipTurn(byId, input, included, omitted, queue, far, due);
        queue, due := queue[1..], due[1..];
        continue;
      }
      var concept := byId[id];
      match Refusal(concept, input) {
        case Some(reason) =>
          OmitTurn(byId, input, included, omitted, queue, far, due, reason);
          OmitDecides(byId, included, omitted, id, reason);
          omitted := omitted[id := reason];
          queue, due := queue[1..], due[1..];
        case None =>
          var links := LinkItems(id, concept.links);
          ghost var late := IncludeTurn(byId, input, included, omitted, queue, far, due, links);
          IncludeDecides(byId, included, omitted, Entry(id, from));
          included, far := included + [Entry(id, from)], far + [due[0]];
          queue, due := queue[1..] + links, due[1..] + late;
      }
    }
    TurnsEnd(byId, input, included, omitted, far, due);
  }

  lemma TurnsEnd(byId: Index, input: Input, included: seq<Entry>, omitted: map<string, Reason>,
                 far: seq<nat>, due: seq<nat>)
    requires Turn(byId, input, included, omitted, [], far, due)
    ensures Inv(byId, input, included, omitted, []) && ByDistance(byId, input, included, far)
  {
    assert due == [];
    FinishedByDistance(byId, input, included, far);
  }

  lemma StartHolds(byId: Index, input: Input, queue: Queue, due: seq<nat>)
    requires |queue| == |input.selected| == |due|
    requires forall i | 0 <= i < |queue| :: queue[i] == (input.selected[i], None) && due[i] == 0
    ensures Turn(byId, input, [], map[], queue, [], due)
  {
    StartLayers(byId, input, queue, due);
    forall v | v in input.selected ensures (v, None) in queue && Queued(queue, v) {
      var i :| 0 <= i < |input.selected| && input.selected[i] == v;
      assert queue[i] == (v, None);
    }
  }

  lemma StartLayers(byId: Index, input: Input, queue: Queue, due: seq<nat>)
    requires |queue| == |input.selected| == |due|
    requires forall i | 0 <= i < |queue| :: queue[i] == (input.selected[i], None) && due[i] == 0
    ensures Layers(byId, input, [], [], queue, due)
  {
    forall v | v in input.selected ensures WaitsFor(queue, due, v, 0) {
      var i :| 0 <= i < |input.selected| && input.selected[i] == v;
      assert queue[i].0 == v;
    }
  }

  // ----- The plan

  datatype Omission = Omission(id: string, reason: Reason)

  lemma ReachableIsIncluded(byId: Index, input: Input, included: seq<Entry>, omitted: map<string, Reason>, v: string)
    requires Inv(byId, input, included, omitted, []) && Reachable(byId, input, v)
    ensures v in Ids(included)
  {
    var arcs := AdmissibleArcs(byId, input);
    var p: seq<string> :| IsWalk(arcs, p) && p[|p| - 1] == v && p[0] in input.selected && Admissible(byId, input, p[0]);
    forall a, b | a in Ids(included) && (a, b) in arcs ensures b in Ids(included) {
      assert Linked(byId, a, b);
      assert Named(byId, input, included, b);
    }
    assert Decided(included, omitted, p[0]);
    ClosedHoldsWalk(arcs, Ids(included), p, |p| - 1);
  }

  lemma IncludedIffReachable(byId: Index, input: Input, included: seq<Entry>, omitted: map<string, Reason>, v: string)
    requires Inv(byId, input, included, omitted, [])
    ensures v in Ids(included) <==> Reachable(byId, input, v)
  {
    if v in Ids(included) {
      var i :| 0 <= i < |included| && included[i].id == v;
      assert Reachable(byId, input, included[i].id);
    } else if Reachable(byId, input, v) {
      ReachableIsIncluded(byId, input, included, omitted, v);
    }
  }

  // The bundle's ids that are not included, in bundle order.
  function Left(concepts: seq<Concept>, ids: set<string>): seq<string> {
    if concepts == [] then []
    else
      var last := concepts[|concepts| - 1].id;
      Left(concepts[..|concepts| - 1], ids) + if last in ids then [] else [last]
  }

  ghost function NotAmong(ids: set<string>): Concept -> bool {
    (c: Concept) => c.id !in ids
  }

  // One id for each of these concepts, in order.
  ghost predicate IdsOf(concepts: seq<Concept>, ids: seq<string>) {
    |ids| == |concepts| && forall i | 0 <= i < |ids| :: ids[i] == concepts[i].id
  }

  lemma {:induction false} LeftKeeps(concepts: seq<Concept>, ids: set<string>) returns (kept: seq<Concept>)
    ensures Keeps(concepts, kept, NotAmong(ids)) && IdsOf(kept, Left(concepts, ids))
  {
    if concepts == [] {
      KeepsNothing(NotAmong(ids));
      kept := [];
    } else {
      var (front, last) := (concepts[..|concepts| - 1], concepts[|concepts| - 1]);
      assert concepts == front + [last];
      var before := LeftKeeps(front, ids);
      KeepsOneMoreBehind(front, before, last, NotAmong(ids));
      kept := if last.id in ids then before else before + [last];
    }
  }

  // The reason of an omitted id: never reached, or reached and refused for this reason.
  ghost predicate OmissionHolds(byId: Index, input: Input, included: seq<Entry>, o: Omission) {
    && o.id in byId
    && (o.reason == NotSelected <==> !Named(byId, input, included, o.id))
    && (o.reason != NotSelected ==> RefusedFor(byId[o.id].access, input, o.reason))
  }

  lemma OmissionReason(byId: Index, input: Input, included: seq<Entry>, omitted: map<string, Reason>, id: string)
    requires Inv(byId, input, included, omitted, [])
    requires id in byId && id !in Ids(included)
    ensures OmissionHolds(byId, input, included, Omission(id, if id in omitted then omitted[id] else NotSelected))
  {
    if id in omitted {
      assert Named(byId, input, included, id);
    }
  }

  // The omissions are these ids in this order, each with its reason.
  ghost predicate OmissionsHold(byId: Index, input: Input, included: seq<Entry>, omissions: seq<Omission>,
                                ids: seq<string>)
  {
    && |omissions| == |ids|
    && forall i | 0 <= i < |ids| ::
         omissions[i].id == ids[i] && OmissionHolds(byId, input, included, omissions[i])
  }

  lemma LeftSnoc(concepts: seq<Concept>, i: nat, ids: set<string>)
    requires i < |concepts|
    ensures Left(concepts[..i + 1], ids)
      == Left(concepts[..i], ids) + if concepts[i].id in ids then [] else [concepts[i].id]
  {
    assert concepts[..i + 1][..i] == concepts[..i];
  }

  // The omissions of a finished worklist, in bundle order.
  method Omissions(concepts: seq<Concept>, input: Input, included: seq<Entry>, omitted: map<string, Reason>)
    returns (omissions: seq<Omission>)
    requires Inv(ById(concepts), input, included, omitted, [])
    ensures OmissionsHold(ById(concepts), input, included, omissions, Left(concepts, Ids(included)))
  {
    omissions := [];
    var i := 0;
    while i < |concepts|
      invariant 0 <= i <= |concepts|
      invariant OmissionsHold(ById(concepts), input, included, omissions, Left(concepts[..i], Ids(included)))
    {
      var id := concepts[i].id;
      assert concepts[i] in concepts;
      LeftSnoc(concepts, i, Ids(included));
      if id !in Ids(included) {
        OmissionReason(ById(concepts), input, included, omitted, id);
        omissions := omissions + [Omission(id, if id in omitted then omitted[id] else NotSelected)];
      }
      i := i + 1;
    }
    assert concepts[..i] == concepts;
  }

  // Included: exactly the concepts reached from the selection along admissible routes,
  // each with a true reason. Omitted: every other concept of the bundle, in its order.
  method PlanProjection(concepts: seq<Concept>, input: Input) returns (included: seq<Entry>, omissions: seq<Omission>)
    ensures forall v :: v in Ids(included) <==> Reachable(ById(concepts), input, v)
    ensures IncludedOk(ById(concepts), input, included)
    ensures exists far :: ByDistance(ById(concepts), input, included, far)
    ensures exists kept, ids ::
      && Keeps(concepts, kept, NotAmong(Ids(included))) && IdsOf(kept, ids)
      && OmissionsHold(ById(concepts), input, included, omissions, ids)
  {
    var omitted;
    included, omitted := Worklist(ById(concepts), input);
    forall v ensures v in Ids(included) <==> Reachable(ById(concepts), input, v) {
      IncludedIffReachable(ById(concepts), input, included, omitted, v);
    }
    omissions := Omissions(concepts, input, included, omitted);
    ghost var kept := LeftKeeps(concepts, Ids(included));
  }

  // Included and omitted ids partition the bundle.
  lemma {:induction false} LeftIsTheRest(concepts: seq<Concept>, ids: set<string>, id: string)
    ensures id in Left(concepts, ids) <==> id in ById(concepts) && id !in ids
  {
    if concepts != [] {
      LeftIsTheRest(concepts[..|concepts| - 1], ids, id);
    }
  }

  // Every admissible selected concept is in the plan as an explicit entry.
  lemma SelectedIsExplicit(byId: Index, input: Input, included: seq<Entry>, v: string) returns (i: nat)
    requires forall w :: w in Ids(included) <==> Reachable(byId, input, w)
    requires IncludedOk(byId, input, included)
    requires v in input.selected && Admissible(byId, input, v)
    ensures i < |included| && included[i] == Entry(v, None)
  {
    ReachSelected(byId, input, v);
    i :| 0 <= i < |included| && included[i].id == v;
    assert ReasonHolds(byId, input, included, i);
  }

  // A smaller selection, and a policy at least as strict: no audiences means any.
  ghost predicate Narrower(a: Input, b: Input) {
    && (forall id | id in a.selected :: id in b.selected) && a.lower == b.lower
    && (b.audiences == [] || (a.audiences != [] && forall x | x in a.audiences :: x in b.audiences))
    && LevelOf(a.maxSensitivity) <= LevelOf(b.maxSensitivity)
    && (a.includeUnknown ==> b.includeUnknown)
  }

  lemma AudienceFitsMore(access: Access, a: Input, b: Input)
    requires Narrower(a, b) && AudienceFits(access, a)
    ensures AudienceFits(access, b)
  {
    if b.audiences != [] && access.audiences != [] {
      var i, j :| 0 <= i < |access.audiences| && 0 <= j < |a.audiences|
               && a.lower(access.audiences[i]) == a.lower(a.audiences[j]);
      assert a.audiences[j] in a.audiences;
      var k :| 0 <= k < |b.audiences| && b.audiences[k] == a.audiences[j];
      assert b.lower(access.audiences[i]) == b.lower(b.audiences[k]);
    }
  }

  lemma ClearedByMore(access: Access, a: Input, b: Input)
    requires Narrower(a, b) && Cleared(access, a)
    ensures Cleared(access, b)
  {
    AudienceFitsMore(access, a, b);
    if access.knownSensitivity.Some? {
      ExceedsByPlace(access.knownSensitivity.value, a.maxSensitivity);
      ExceedsByPlace(access.knownSensitivity.value, b.maxSensitivity);
    }
  }

  // Selecting less or tightening the policy never adds a concept to the projection.
  lemma NarrowerDisclosesLess(byId: Index, a: Input, b: Input, v: string)
    requires Narrower(a, b) && Reachable(byId, a, v)
    ensures Reachable(byId, b, v)
  {
    var p: seq<string> :| IsWalk(AdmissibleArcs(byId, a), p) && p[|p| - 1] == v
                       && p[0] in a.selected && Admissible(byId, a, p[0]);
    forall u | Admissible(byId, a, u) ensures Admissible(byId, b, u) {
      ClearedByMore(byId[u].access, a, b);
    }
    forall i | 0 <= i < |p| - 1 ensures (p[i], p[i + 1]) in AdmissibleArcs(byId, b) {
      assert (p[i], p[i + 1]) in AdmissibleArcs(byId, a);
    }
  }
}
