/** Putting the runs of a delegated job together. The outcomes come sorted by slice key and
    run id; which order that is does not matter for what is shown here. */
module SliceAssembly {
  import opened StringOrder

  datatype RunResult =
    | Completed(itemCount: nat)
    | CompletedWithoutArtifact(reason: string)
    | StoppedAtBudget(spentDescription: string)
    | Failed(message: string)

  datatype Outcome = Outcome(runId: string, sliceKey: string, sliceFingerprint: string, result: RunResult)

  datatype Exclusion =
    | StaleRun(runId: string, sliceKey: string, sliceFingerprint: string)
    | FailedRun(runId: string, sliceKey: string, message: string)
    | BudgetStop(runId: string, sliceKey: string, spentDescription: string)
    | NoArtifact(runId: string, sliceKey: string, reason: string)
    | SliceNeverReported(sliceKey: string)

  datatype Assembly = Assembly(
    fingerprint: string,
    included: seq<Outcome>,
    exclusions: seq<Exclusion>,
    plannedSlices: nat,
    coveredSlices: nat,
    itemCount: nat,
    complete: bool)

  // The first fingerprint that is not empty.
  function Fingerprint(sorted: seq<Outcome>): string {
    if sorted == [] then ""
    else if sorted[0].sliceFingerprint != "" then sorted[0].sliceFingerprint
    else Fingerprint(sorted[1..])
  }

  predicate Usable(o: Outcome, fingerprint: string) {
    o.sliceFingerprint == fingerprint && o.result.Completed?
  }

  // Why a run is left out.
  function Named(o: Outcome, fingerprint: string): Exclusion
    requires !Usable(o, fingerprint)
  {
    if o.sliceFingerprint != fingerprint then StaleRun(o.runId, o.sliceKey, o.sliceFingerprint)
    else match o.result
      case Failed(message) => FailedRun(o.runId, o.sliceKey, message)
      case StoppedAtBudget(spent) => BudgetStop(o.runId, o.sliceKey, spent)
      case CompletedWithoutArtifact(reason) => NoArtifact(o.runId, o.sliceKey, reason)
  }

  ghost predicate AllUsable(sorted: seq<Outcome>, fingerprint: string) {
    forall k | 0 <= k < |sorted| :: Usable(sorted[k], fingerprint)
  }

  // Runs that were left out, each with the exclusion that names it.
  ghost predicate NamesEach(exclusions: seq<Exclusion>, left: seq<Outcome>, fingerprint: string) {
    && |exclusions| == |left|
    && forall k | 0 <= k < |left| :: !Usable(left[k], fingerprint) && exclusions[k] == Named(left[k], fingerprint)
  }

  // The planned slices that no run reported, in the order of the plan.
  function Unreported(planned: seq<string>, reported: set<string>): seq<string> {
    if planned == [] then []
    else
      var last := planned[|planned| - 1];
      Unreported(planned[..|planned| - 1], reported) + if last in reported then [] else [last]
  }

  ghost predicate NamesUnreported(exclusions: seq<Exclusion>, keys: seq<string>) {
    && |exclusions| == |keys|
    && forall k | 0 <= k < |keys| :: exclusions[k] == SliceNeverReported(keys[k])
  }

  function ItemsOf(outcomes: seq<Outcome>): nat {
    if outcomes == [] then 0
    else
      var last := outcomes[|outcomes| - 1];
      ItemsOf(outcomes[..|outcomes| - 1]) + if last.result.Completed? then last.result.itemCount else 0
  }

  ghost function KeysOf(outcomes: seq<Outcome>): set<string> {
    set k | 0 <= k < |outcomes| :: outcomes[k].sliceKey
  }

  // The runs taken, and those left out, in order.
  function UsableRuns(sorted: seq<Outcome>, fingerprint: string): seq<Outcome> {
    if sorted == [] then []
    else
      var last := sorted[|sorted| - 1];
      UsableRuns(sorted[..|sorted| - 1], fingerprint) + if Usable(last, fingerprint) then [last] else []
  }

  function OtherRuns(sorted: seq<Outcome>, fingerprint: string): seq<Outcome> {
    if sorted == [] then []
    else
      var last := sorted[|sorted| - 1];
      OtherRuns(sorted[..|sorted| - 1], fingerprint) + if Usable(last, fingerprint) then [] else [last]
  }

  lemma OneMore<T>(all: seq<T>, a: seq<T>, b: seq<T>, x: T)
    requires multiset(all) == multiset(a) + multiset(b)
    ensures multiset(all + [x]) == multiset(a + [x]) + multiset(b) == multiset(a) + multiset(b + [x])
  {
  }

  // No run is lost and none is in both lists or twice in one.
  lemma {:induction false} RunsAreSplit(sorted: seq<Outcome>, fingerprint: string)
    ensures multiset(sorted) == multiset(UsableRuns(sorted, fingerprint)) + multiset(OtherRuns(sorted, fingerprint))
  {
    if sorted != [] {
      var (front, last) := (sorted[..|sorted| - 1], sorted[|sorted| - 1]);
      var (usable, others) := (UsableRuns(front, fingerprint), OtherRuns(front, fingerprint));
      assert sorted == front + [last];
      RunsAreSplit(front, fingerprint);
      OneMore(front, usable, others, last);
      assert usable + [] == usable && others + [] == others;
    }
  }

  lemma {:induction false} RunsByUse(sorted: seq<Outcome>, fingerprint: string)
    ensures forall o :: o in UsableRuns(sorted, fingerprint) <==> o in sorted && Usable(o, fingerprint)
    ensures forall o :: o in OtherRuns(sorted, fingerprint) <==> o in sorted && !Usable(o, fingerprint)
  {
    if sorted != [] {
      var n := |sorted| - 1;
      RunsByUse(sorted[..n], fingerprint);
      assert sorted == sorted[..n] + [sorted[n]];
    }
  }

  // ----- The parts of an assembly, each said of the outcomes and the plan alone

  // The fingerprint of the first run that has one.
  ghost predicate LeadsWith(sorted: seq<Outcome>, fingerprint: string) {
    if fingerprint == [] then forall k | 0 <= k < |sorted| :: sorted[k].sliceFingerprint == []
    else exists k :: LeadsAt(sorted, fingerprint, k)
  }

  ghost predicate LeadsAt(sorted: seq<Outcome>, fingerprint: string, k: int) {
    && 0 <= k < |sorted| && sorted[k].sliceFingerprint == fingerprint
    && forall i | 0 <= i < k :: sorted[i].sliceFingerprint == []
  }

  ghost function Taken(fingerprint: string): Outcome -> bool {
    (o: Outcome) => o.sliceFingerprint == fingerprint && o.result.Completed?
  }

  ghost function LeftOut(fingerprint: string): Outcome -> bool {
    (o: Outcome) => o.sliceFingerprint != fingerprint || !o.result.Completed?
  }

  ghost function NotIn(reported: set<string>): string -> bool {
    key => key !in reported
  }

  // Another slice fingerprint makes a run stale, whatever it did; under the common one its result names the reason.
  ghost predicate NamesRun(x: Exclusion, o: Outcome, fingerprint: string) {
    && (o.sliceFingerprint != fingerprint ==> x == StaleRun(o.runId, o.sliceKey, o.sliceFingerprint))
    && (o.sliceFingerprint == fingerprint ==>
      && (o.result.Failed? ==> x == FailedRun(o.runId, o.sliceKey, o.result.message))
      && (o.result.StoppedAtBudget? ==> x == BudgetStop(o.runId, o.sliceKey, o.result.spentDescription))
      && (o.result.CompletedWithoutArtifact? ==> x == NoArtifact(o.runId, o.sliceKey, o.result.reason)))
  }

  // The running totals of the items that the first runs brought.
  ghost predicate Totals(outcomes: seq<Outcome>, totals: seq<nat>) {
    && |totals| == |outcomes| + 1 && totals[0] == 0
    && (forall k | 0 <= k < |outcomes| :: outcomes[k].result.Completed?)
    && (forall k | 0 <= k < |outcomes| :: totals[k + 1] == totals[k] + outcomes[k].result.itemCount)
  }

  // What an assembly holds: the runs taken, in order; a reason for each other run, in order, and
  // behind them the planned slices that nobody reported; and the counts.
  ghost predicate Assembled(a: Assembly, sorted: seq<Outcome>, planned: seq<string>) {
    && LeadsWith(sorted, a.fingerprint)
    && Keeps(sorted, a.included, Taken(a.fingerprint))
    && (exists left, missing :: Excluded(a.exclusions, left, missing, sorted, planned, a.fingerprint))
    && a.plannedSlices == |planned| && a.coveredSlices == |KeysOf(a.included)|
    && (exists totals :: Totals(a.included, totals) && a.itemCount == totals[|a.included|])
  }

  ghost predicate Excluded(exclusions: seq<Exclusion>, left: seq<Outcome>, missing: seq<string>,
                           sorted: seq<Outcome>, planned: seq<string>, fingerprint: string) {
    && Keeps(sorted, left, LeftOut(fingerprint)) && Keeps(planned, missing, NotIn(KeysOf(sorted)))
    && |exclusions| == |left| + |missing|
    && (forall k | 0 <= k < |left| :: NamesRun(exclusions[k], left[k], fingerprint))
    && (forall k | 0 <= k < |missing| :: exclusions[|left| + k] == SliceNeverReported(missing[k]))
  }

  lemma {:induction false} FingerprintLeads(sorted: seq<Outcome>)
    ensures LeadsWith(sorted, Fingerprint(sorted))
  {
    if sorted != [] {
      FingerprintLeads(sorted[1..]);
      var fingerprint := Fingerprint(sorted);
      if sorted[0].sliceFingerprint != [] {
        assert LeadsAt(sorted, fingerprint, 0);
      } else if fingerprint != [] {
        var k :| LeadsAt(sorted[1..], fingerprint, k);
        assert LeadsAt(sorted, fingerprint, k + 1);
      }
    }
  }

  lemma {:induction false} UsableAreKept(sorted: seq<Outcome>, fingerprint: string)
    ensures Keeps(sorted, UsableRuns(sorted, fingerprint), Taken(fingerprint))
  {
    if sorted == [] {
      KeepsNothing(Taken(fingerprint));
    } else {
      var (front, last) := (sorted[..|sorted| - 1], sorted[|sorted| - 1]);
      assert sorted == front + [last];
      UsableAreKept(front, fingerprint);
      KeepsOneMoreBehind(front, UsableRuns(front, fingerprint), last, Taken(fingerprint));
    }
  }

  lemma {:induction false} OthersAreKept(sorted: seq<Outcome>, fingerprint: string)
    ensures Keeps(sorted, OtherRuns(sorted, fingerprint), LeftOut(fingerprint))
  {
    if sorted == [] {
      KeepsNothing(LeftOut(fingerprint));
    } else {
      var (front, last) := (sorted[..|sorted| - 1], sorted[|sorted| - 1]);
      assert sorted == front + [last];
      OthersAreKept(front, fingerprint);
      KeepsOneMoreBehind(front, OtherRuns(front, fingerprint), last, LeftOut(fingerprint));
    }
  }

  lemma {:induction false} UnreportedAreKept(planned: seq<string>, reported: set<string>)
    ensures Keeps(planned, Unreported(planned, reported), NotIn(reported))
  {
    if planned == [] {
      KeepsNothing(NotIn(reported));
    } else {
      var (front, last) := (planned[..|planned| - 1], planned[|planned| - 1]);
      assert planned == front + [last];
      UnreportedAreKept(front, reported);
      KeepsOneMoreBehind(front, Unreported(front, reported), last, NotIn(reported));
    }
  }

  lemma {:induction false} ItemsAreTotalled(outcomes: seq<Outcome>) returns (totals: seq<nat>)
    requires forall k | 0 <= k < |outcomes| :: outcomes[k].result.Completed?
    ensures Totals(outcomes, totals) && totals[|outcomes|] == ItemsOf(outcomes)
  {
    if outcomes == [] {
      totals := [0];
    } else {
      var n := |outcomes| - 1;
      totals := ItemsAreTotalled(outcomes[..n]);
      assert forall k | 0 <= k < n :: outcomes[k] == outcomes[..n][k];
      totals := totals + [totals[n] + outcomes[n].result.itemCount];
    }
  }

  lemma NamedIsTheReason(o: Outcome, fingerprint: string)
    requires !Usable(o, fingerprint)
    ensures NamesRun(Named(o, fingerprint), o, fingerprint)
  {
  }

  method FirstFingerprint(sorted: seq<Outcome>) returns (fingerprint: string)
    ensures fingerprint == Fingerprint(sorted)
  {
    for k := 0 to |sorted|
      invariant Fingerprint(sorted[k..]) == Fingerprint(sorted)
    {
      assert sorted[k..][1..] == sorted[k + 1..];
      if sorted[k].sliceFingerprint != "" { return sorted[k].sliceFingerprint; }
    }
    fingerprint := "";
  }

  method CollectRuns(sorted: seq<Outcome>, fingerprint: string)
    returns (included: seq<Outcome>, exclusions: seq<Exclusion>, reported: set<string>)
    ensures included == UsableRuns(sorted, fingerprint)
    ensures NamesEach(exclusions, OtherRuns(sorted, fingerprint), fingerprint)
    ensures reported == KeysOf(sorted)
  {
    included, exclusions, reported := [], [], {};
    for k := 0 to |sorted|
      invariant included == UsableRuns(sorted[..k], fingerprint)
      invariant NamesEach(exclusions, OtherRuns(sorted[..k], fingerprint), fingerprint)
      invariant reported == KeysOf(sorted[..k])
    {
      var outcome := sorted[k];
      KeysGrow(sorted, k);
      assert sorted[..k + 1][..k] == sorted[..k];
      reported := reported + {outcome.sliceKey};
      if Usable(outcome, fingerprint) {
        included := included + [outcome];
      } else {
        exclusions := exclusions + [Named(outcome, fingerprint)];
      }
    }
    assert sorted[..|sorted|] == sorted;
  }

  lemma KeysGrow(sorted: seq<Outcome>, k: nat)
    requires k < |sorted|
    ensures KeysOf(sorted[..k + 1]) == KeysOf(sorted[..k]) + {sorted[k].sliceKey}
  {
    var (less, more) := (sorted[..k], sorted[..k + 1]);
    forall key | key in KeysOf(more) ensures key in KeysOf(less) + {sorted[k].sliceKey} {
      var i :| 0 <= i < |more| && more[i].sliceKey == key;
      assert i < k ==> less[i].sliceKey == key;
    }
    forall key | key in KeysOf(less) + {sorted[k].sliceKey} ensures key in KeysOf(more) {
      if key in KeysOf(less) {
        var i :| 0 <= i < |less| && less[i].sliceKey == key;
        assert more[i].sliceKey == key;
      } else {
        assert more[k].sliceKey == key;
      }
    }
  }

  method NameUnreported(planned: seq<string>, reported: set<string>) returns (exclusions: seq<Exclusion>)
    ensures NamesUnreported(exclusions, Unreported(planned, reported))
  {
    exclusions := [];
    for k := 0 to |planned|
      invariant NamesUnreported(exclusions, Unreported(planned[..k], reported))
    {
      assert planned[..k + 1][..k] == planned[..k];
      if planned[k] !in reported {
        exclusions := exclusions + [SliceNeverReported(planned[k])];
      }
    }
    assert planned[..|planned|] == planned;
  }

  method CountCovered(included: seq<Outcome>) returns (covered: nat, items: nat)
    ensures covered == |KeysOf(included)| && items == ItemsOf(included)
  {
    var keys: set<string> := {};
    items := 0;
    for k := 0 to |included|
      invariant keys == KeysOf(included[..k]) && items == ItemsOf(included[..k])
    {
      KeysGrow(included, k);
      assert included[..k + 1][..k] == included[..k];
      keys := keys + {included[k].sliceKey};
      items := items + if included[k].result.Completed? then included[k].result.itemCount else 0;
    }
    assert included[..|included|] == included;
    covered := |keys|;
  }

  // Every run is taken or named, every planned slice that no run reported is named, and
  // the assembly is complete just when all runs are usable and cover as many slices as
  // were planned, among them every planned one.
  method AssembleRuns(sorted: seq<Outcome>, planned: seq<string>) returns (a: Assembly)
    ensures Assembled(a, sorted, planned) && Accounts(a, sorted, planned)
    ensures a.complete <==>
      AllUsable(sorted, a.fingerprint) && Elements(planned) <= KeysOf(sorted) && |KeysOf(sorted)| == |planned|
  {
    var fingerprint := FirstFingerprint(sorted);
    var included, exclusions, reported := CollectRuns(sorted, fingerprint);
    ghost var named := exclusions;
    var missing := NameUnreported(planned, reported);
    exclusions := exclusions + missing;
    var covered, items := CountCovered(included);
    assert exclusions[..|named|] == named && exclusions[|named|..] == missing;
    var complete := |exclusions| == 0 && covered == |planned|;
    a := Assembly(fingerprint, included, exclusions, |planned|, covered, items, complete);
    UnreportedHolds(planned, reported);
    NothingLeftIff(sorted, fingerprint);
    AccountsAssemble(a, sorted, planned);
  }

  // The runs taken, then a name for each run left out, then the slices nobody reported.
  ghost predicate Accounts(a: Assembly, sorted: seq<Outcome>, planned: seq<string>) {
    var left := OtherRuns(sorted, a.fingerprint);
    && a.included == UsableRuns(sorted, a.fingerprint)
    && |left| <= |a.exclusions|
    && NamesEach(a.exclusions[..|left|], left, a.fingerprint)
    && NamesUnreported(a.exclusions[|left|..], Unreported(planned, KeysOf(sorted)))
  }

  lemma AccountsAssemble(a: Assembly, sorted: seq<Outcome>, planned: seq<string>)
    requires a.fingerprint == Fingerprint(sorted) && Accounts(a, sorted, planned)
    requires a.plannedSlices == |planned| && a.coveredSlices == |KeysOf(a.included)|
    requires a.itemCount == ItemsOf(a.included)
    ensures Assembled(a, sorted, planned)
  {
    FingerprintLeads(sorted);
    UsableAreKept(sorted, a.fingerprint);
    OthersAreKept(sorted, a.fingerprint);
    UnreportedAreKept(planned, KeysOf(sorted));
    RunsByUse(sorted, a.fingerprint);
    var totals := ItemsAreTotalled(a.included);
    var (left, missing) := (OtherRuns(sorted, a.fingerprint), Unreported(planned, KeysOf(sorted)));
    ReasonsAreGiven(a.exclusions, left, missing, a.fingerprint);
    assert Excluded(a.exclusions, left, missing, sorted, planned, a.fingerprint);
  }

  lemma ReasonsAreGiven(exclusions: seq<Exclusion>, left: seq<Outcome>, missing: seq<string>, fingerprint: string)
    requires |left| <= |exclusions| && NamesEach(exclusions[..|left|], left, fingerprint)
    requires NamesUnreported(exclusions[|left|..], missing)
    ensures forall k | 0 <= k < |left| :: NamesRun(exclusions[k], left[k], fingerprint)
    ensures forall k | 0 <= k < |missing| :: exclusions[|left| + k] == SliceNeverReported(missing[k])
  {
    forall k | 0 <= k < |left| ensures NamesRun(exclusions[k], left[k], fingerprint) {
      assert exclusions[k] == exclusions[..|left|][k];
      NamedIsTheReason(left[k], fingerprint);
    }
    assert forall k | 0 <= k < |missing| :: exclusions[|left| + k] == exclusions[|left|..][k];
  }

  lemma {:induction false} UnreportedHolds(planned: seq<string>, reported: set<string>)
    ensures forall key :: key in Unreported(planned, reported) <==> key in planned && key !in reported
    ensures Unreported(planned, reported) == [] <==> Elements(planned) <= reported
  {
    if planned != [] {
      var n := |planned| - 1;
      UnreportedHolds(planned[..n], reported);
      assert planned == planned[..n] + [planned[n]];
      ElementsSnoc(planned[..n], planned[n]);
    }
  }

  lemma {:induction false} NothingLeftIff(sorted: seq<Outcome>, fingerprint: string)
    ensures OtherRuns(sorted, fingerprint) == [] <==> AllUsable(sorted, fingerprint)
    ensures OtherRuns(sorted, fingerprint) == [] ==> UsableRuns(sorted, fingerprint) == sorted
  {
    if sorted != [] {
      var n := |sorted| - 1;
      NothingLeftIff(sorted[..n], fingerprint);
      assert sorted == sorted[..n] + [sorted[n]];
      assert forall k | 0 <= k < n :: sorted[k] == sorted[..n][k];
    }
  }

  // With distinct planned keys, as the planner gives them, a complete assembly covers
  // exactly the planned slices.
  lemma CompleteCoversThePlan(planned: seq<string>, keys: set<string>)
    requires Distinct(planned)
    ensures Elements(planned) <= keys && |keys| == |planned| <==> keys == Elements(planned)
  {
    DistinctSize(planned);
    if Elements(planned) <= keys && |keys| == |planned| {
      SubsetOfSameSize(Elements(planned), keys);
    }
  }

  lemma {:induction false} DistinctSize(s: seq<string>)
    requires Distinct(s)
    ensures |Elements(s)| == |s|
  {
    if s != [] {
      var n := |s| - 1;
      DistinctSize(s[..n]);
      ElementsSnoc(s[..n], s[n]);
      assert s[..n] + [s[n]] == s;
      assert s[n] !in Elements(s[..n]);
    }
  }

  lemma SubsetOfSameSize(a: set<string>, b: set<string>)
    requires a <= b && |a| == |b|
    ensures a == b
  {
    assert |b - a| == |b| - |a|;
  }

  // Nothing is dropped without a name: a planned slice is covered by a run that was
  // taken, or an exclusion carries its key.
  lemma EveryPlannedSliceIsNamed(sorted: seq<Outcome>, planned: seq<string>, a: Assembly, key: string)
    requires Accounts(a, sorted, planned) && key in planned
    ensures key in KeysOf(a.included) || exists k :: 0 <= k < |a.exclusions| && a.exclusions[k].sliceKey == key
  {
    RunsByUse(sorted, a.fingerprint);
    UnreportedHolds(planned, KeysOf(sorted));
    var n := |OtherRuns(sorted, a.fingerprint)|;
    if key !in KeysOf(sorted) {
      var k := NamedAmong(a.exclusions[n..], Unreported(planned, KeysOf(sorted)), key);
      assert a.exclusions[n + k].sliceKey == key;
    } else if key !in KeysOf(a.included) {
      var i :| 0 <= i < |sorted| && sorted[i].sliceKey == key;
      assert sorted[i] !in a.included;
      var k :| 0 <= k < n && OtherRuns(sorted, a.fingerprint)[k] == sorted[i];
      assert a.exclusions[..n][k].sliceKey == key;
      assert a.exclusions[k].sliceKey == key;
    }
  }

  lemma NamedAmong(exclusions: seq<Exclusion>, keys: seq<string>, key: string) returns (k: nat)
    requires NamesUnreported(exclusions, keys) && key in keys
    ensures k < |exclusions| && exclusions[k].sliceKey == key
  {
    k :| 0 <= k < |keys| && keys[k] == key;
  }
}
