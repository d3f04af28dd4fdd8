/** The supersession-cycle search of the reliability report: a depth-first search
    from every concept that supersedes another, with one path and one visited set
    per start and one set of reported cycles shared by all starts. */
module SupersessionCycles {
  import opened Options
  import opened StringOrder
  import opened Walks

  const SUPERSEDES := "supersedes"
  const NUL := '\U{0000}'

  // A typed edge of the profile report.
  datatype Edge = Edge(sourceId: string, targetId: string, kind: string)

  // `cycle` is the list the message joins with arrows: the path part, then its first id again.
  datatype Finding = Finding(conceptIds: seq<string>, cycle: seq<string>)

  ghost function SupersedesArcs(edges: seq<Edge>): Arcs {
    set e | e in edges && e.kind == SUPERSEDES :: (e.sourceId, e.targetId)
  }

  // The de-duplication key of a cycle: its ids sorted and joined with NUL.
  function Key(ids: seq<string>): string {
    Join(Sort(ids), [NUL])
  }

  // `new Set(items)` spread back to a list: the first occurrence of each item.
  function Dedup(items: seq<string>): seq<string> {
    if items == [] then []
    else
      var front := Dedup(items[..|items| - 1]);
      var last := items[|items| - 1];
      if last in items[..|items| - 1] then front else front + [last]
  }

  lemma {:induction false} DedupDistinct(items: seq<string>)
    requires Distinct(items)
    ensures Dedup(items) == items
  {
    if items != [] {
      var front := items[..|items| - 1];
      DedupDistinct(front);
      assert items == front + [items[|items| - 1]];
    }
  }

  lemma DedupClosedPath(part: seq<string>)
    requires part != [] && Distinct(part)
    ensures Dedup(part + [part[0]]) == part
  {
    var closed := part + [part[0]];
    assert closed[..|closed| - 1] == part;
    DedupDistinct(part);
  }

  // The key depends on the node set of a cycle only.
  lemma KeyOfNodeSet(a: seq<string>, b: seq<string>)
    requires Distinct(a) && Distinct(b)
    requires Elements(a) == Elements(b)
    ensures Key(a) == Key(b)
  {
    forall x ensures x in a <==> x in b {
      assert x in a <==> x in Elements(a);
      assert x in b <==> x in Elements(b);
    }
    DistinctSameMultiset(a, b);
    SortIsSorted(a);
    SortIsSorted(b);
    SortedIsUnique(Sort(a), Sort(b));
  }

  // Without NUL in any id the key determines the node set.
  lemma KeyDeterminesNodeSet(a: seq<string>, b: seq<string>)
    requires a != [] && b != []
    requires forall x | x in a :: NUL !in x
    requires forall x | x in b :: NUL !in x
    requires Key(a) == Key(b)
    ensures Elements(a) == Elements(b)
  {
    SortIsSorted(a);
    SortIsSorted(b);
    SameMultisetSameElements(Sort(a), a);
    SameMultisetSameElements(Sort(b), b);
    JoinInjective(Sort(a), Sort(b), NUL);
  }

  // v lies on a simple cycle whose key is among `keys`.
  ghost predicate Covered(arcs: Arcs, keys: set<string>, v: string) {
    exists c: seq<string> :: SimpleCycle(arcs, c) && v in c && Key(c) in keys
  }

  // A simple cycle that runs from v to u and closes with the arc from u to v has its key
  // among `keys`.
  ghost predicate ClosedBy(arcs: Arcs, keys: set<string>, u: string, v: string) {
    exists c: seq<string> :: SimpleCycle(arcs, c) && c[0] == v && c[|c| - 1] == u && Key(c) in keys
  }

  // The arc lies on a directed cycle: a walk leads from its head back to its tail.
  ghost predicate OnDirectedCycle(arcs: Arcs, u: string, v: string) {
    (u, v) in arcs && exists p: seq<string> :: WalkBetween(arcs, p, v, u)
  }

  lemma ClosedIsCovered(arcs: Arcs, keys: set<string>, u: string, v: string)
    requires ClosedBy(arcs, keys, u, v)
    ensures Covered(arcs, keys, v) && OnDirectedCycle(arcs, u, v)
  {
    var c: seq<string> :| SimpleCycle(arcs, c) && c[0] == v && c[|c| - 1] == u && Key(c) in keys;
    assert c[0] in c && WalkBetween(arcs, c, v, u);
  }

  lemma ArcOfCycle(arcs: Arcs, v: string) returns (u: string)
    requires OnCycle(arcs, v)
    ensures OnDirectedCycle(arcs, u, v)
  {
    var p: seq<string> :| |p| >= 2 && WalkBetween(arcs, p, v, v);
    var q := p[..|p| - 1];
    u := q[|q| - 1];
    assert (p[|p| - 2], p[|p| - 2 + 1]) in arcs;
    forall i | 0 <= i < |q| - 1 ensures (q[i], q[i + 1]) in arcs {
      assert (p[i], p[i + 1]) in arcs;
    }
    assert WalkBetween(arcs, q, v, u);
  }

  ghost predicate Genuine(arcs: Arcs, f: Finding) {
    SimpleCycle(arcs, f.conceptIds) && f.cycle == f.conceptIds + [f.conceptIds[0]]
  }

  ghost function Keys(findings: seq<Finding>): set<string> {
    set f | f in findings :: Key(f.conceptIds)
  }

  ghost predicate KeysDistinct(findings: seq<Finding>) {
    forall i, j | 0 <= i < j < |findings| :: Key(findings[i].conceptIds) != Key(findings[j].conceptIds)
  }

  lemma AppendFinding(findings: seq<Finding>, f: Finding)
    requires KeysDistinct(findings) && Key(f.conceptIds) !in Keys(findings)
    ensures KeysDistinct(findings + [f])
    ensures Keys(findings + [f]) == Keys(findings) + {Key(f.conceptIds)}
  {
    var all := findings + [f];
    forall i, j | 0 <= i < j < |all| ensures Key(all[i].conceptIds) != Key(all[j].conceptIds) {
      assert findings[i] in findings;
    }
    forall g ensures g in all <==> g in findings || g == f {}
  }

  ghost function ArcsOf(outgoing: map<string, seq<string>>): Arcs {
    set u, v | u in outgoing && v in outgoing[u] :: (u, v)
  }

  // One depth-first search object per report; `path` and `visiting` restart with every start.
  class CycleSearch {
    const outgoing: map<string, seq<string>>
    var path: seq<string>
    var visiting: set<string>
    var reportedCycles: set<string>
    var findings: seq<Finding>

    constructor (outgoing: map<string, seq<string>>)
      ensures this.outgoing == outgoing
      ensures path == [] && visiting == {} && reportedCycles == {} && findings == []
    {
      this.outgoing := outgoing;
      path, visiting, reportedCycles, findings := [], {}, {}, [];
    }

    ghost function Successors(id: string): set<string> {
      if id in outgoing then Elements(outgoing[id]) else {}
    }

    ghost function GraphArcs(): Arcs {
      ArcsOf(outgoing)
    }

    ghost function Universe(): set<string> {
      outgoing.Keys + set u, v | u in outgoing && v in outgoing[u] :: v
    }

    ghost predicate GoodPath(p: seq<string>, entered: set<string>) {
      Distinct(p) && Elements(p) <= entered && (p != [] ==> IsWalk(GraphArcs(), p))
    }

    ghost predicate GoodReports(reports: seq<Finding>, keys: set<string>) {
      && (forall f | f in reports :: Genuine(GraphArcs(), f))
      && keys == Keys(reports)
      && KeysDistinct(reports)
    }

    ghost predicate Valid()
      reads this
    {
      GoodPath(path, visiting) && GoodReports(findings, reportedCycles)
    }

    lemma EnterNode(p: seq<string>, entered: set<string>, id: string)
      requires GoodPath(p, entered) && id !in p
      requires p != [] ==> (p[|p| - 1], id) in GraphArcs()
      ensures GoodPath(p + [id], entered + {id})
      ensures (p + [id])[..|p|] == p
    {
    }

    lemma MoreEntered(p: seq<string>, entered: set<string>, entered': set<string>)
      requires GoodPath(p, entered) && entered <= entered'
      ensures GoodPath(p, entered')
    {
    }

    // The path with the node that a call enters.
    ghost function Line(id: string): set<string>
      reads this`path
    {
      Elements(path) + {id}
    }

    // Every successor of u has been entered, and arcs back into the path were reported.
    ghost predicate Done(u: string, line: set<string>, entered: set<string>, keys: set<string>) {
      forall w | w in Successors(u) ::
        w in entered && (w in line ==> ClosedBy(GraphArcs(), keys, u, w))
    }

    ghost predicate AllDone(s: set<string>, line: set<string>, entered: set<string>, keys: set<string>) {
      forall u | u in s :: Done(u, line, entered, keys)
    }

    // Entered nodes and reported keys only grow, and that keeps what was done, done.
    lemma AllDoneMonotone(s: set<string>, t: set<string>, line: set<string>, entered: set<string>, keys: set<string>,
                          entered': set<string>, keys': set<string>)
      requires entered <= entered' && keys <= keys'
      requires AllDone(s, line, entered, keys) && AllDone(t, line, entered', keys')
      ensures AllDone(s + t, line, entered', keys')
    {
      forall u | u in s ensures Done(u, line, entered', keys') {
        assert Done(u, line, entered, keys);
        forall w | w in Successors(u) && w in line ensures ClosedBy(GraphArcs(), keys', u, w) {
          ClosedByMore(GraphArcs(), keys, keys', u, w);
        }
      }
    }

    // What a call deeper on the path has done is done for this one.
    lemma AllDoneAbove(s: set<string>, line: set<string>, deeper: set<string>, entered: set<string>, keys: set<string>)
      requires line <= deeper && AllDone(s, deeper, entered, keys)
      ensures AllDone(s, line, entered, keys)
    {
      forall u | u in s ensures Done(u, line, entered, keys) {
        assert Done(u, deeper, entered, keys);
      }
    }

    ghost predicate PrefixClosed(id: string, prefix: seq<string>, line: set<string>, keys: set<string>) {
      forall w | w in prefix && w in line :: ClosedBy(GraphArcs(), keys, id, w)
    }

    // What the loop over the targets of `id` has established after `prefix` of them.
    ghost predicate Progress(before: set<string>, id: string, line: set<string>, prefix: seq<string>,
                             entered: set<string>, keys: set<string>)
    {
      && before + {id} <= entered
      && AllDone(entered - before - {id}, line, entered, keys)
      && Elements(prefix) <= entered
      && PrefixClosed(id, prefix, line, keys)
    }

    lemma PrefixClosedStep(id: string, prefix: seq<string>, target: string, line: set<string>,
                           keys: set<string>, keys': set<string>)
      requires PrefixClosed(id, prefix, line, keys) && keys <= keys'
      requires target in line ==> ClosedBy(GraphArcs(), keys', id, target)
      ensures PrefixClosed(id, prefix + [target], line, keys')
    {
      forall w | w in prefix + [target] && w in line ensures ClosedBy(GraphArcs(), keys', id, w) {
        if w in prefix { ClosedByMore(GraphArcs(), keys, keys', id, w); }
      }
    }

    lemma ProgressStep(before: set<string>, id: string, line: set<string>, prefix: seq<string>, target: string,
                       entered: set<string>, keys: set<string>, entered': set<string>, keys': set<string>)
      requires Progress(before, id, line, prefix, entered, keys)
      requires entered + {target} <= entered' && keys <= keys'
      requires AllDone(entered' - entered, line, entered', keys')
      requires target in line ==> ClosedBy(GraphArcs(), keys', id, target)
      ensures Progress(before, id, line, prefix + [target], entered', keys')
    {
      AllDoneMonotone(entered - before - {id}, entered' - entered, line, entered, keys, entered', keys');
      assert entered' - before - {id} == (entered - before - {id}) + (entered' - entered);
      PrefixClosedStep(id, prefix, target, line, keys, keys');
    }

    lemma TargetDone(before: set<string>, id: string, line: set<string>, deeper: set<string>, targets: seq<string>,
                     i: nat, p: seq<string>, entered: set<string>, keys: set<string>,
                     entered': set<string>, keys': set<string>)
      requires i < |targets| && line <= deeper
      requires p != [] && p[|p| - 1] == id && GoodPath(p, entered') && (id, targets[i]) in GraphArcs()
      requires Progress(before, id, line, targets[..i], entered, keys)
      requires entered + {targets[i]} <= entered' && keys <= keys'
      requires AllDone(entered' - entered, deeper, entered', keys')
      requires targets[i] in line ==> ReportedAlong(p, targets[i], keys')
      ensures Progress(before, id, line, targets[..i + 1], entered', keys')
    {
      if targets[i] in line { AlongCloses(p, targets[i], keys'); }
      AllDoneAbove(entered' - entered, line, deeper, entered', keys');
      ProgressStep(before, id, line, targets[..i], targets[i], entered, keys, entered', keys');
      assert targets[..i + 1] == targets[..i] + [targets[i]];
    }

    lemma ProgressComplete(before: set<string>, id: string, line: set<string>, entered: set<string>, keys: set<string>)
      requires Progress(before, id, line, Targets(id), entered, keys)
      ensures AllDone(entered - before, line, entered, keys)
    {
      assert Done(id, line, entered, keys);
    }

    // The cycle that runs along the path from the node is among the reported ones.
    ghost predicate ReportedAlong(p: seq<string>, id: string, keys: set<string>) {
      exists k :: 0 <= k < |p| && p[k] == id && Key(p[k..]) in keys
    }

    lemma AlongCloses(p: seq<string>, id: string, keys: set<string>)
      requires Distinct(p) && p != [] && IsWalk(GraphArcs(), p) && (p[|p| - 1], id) in GraphArcs()
      requires ReportedAlong(p, id, keys)
      ensures ClosedBy(GraphArcs(), keys, p[|p| - 1], id)
    {
      var k :| 0 <= k < |p| && p[k] == id && Key(p[k..]) in keys;
      var nodes := PathTailCloses(p, k, id);
      assert SimpleCycle(GraphArcs(), nodes) && nodes[0] == id && nodes[|nodes| - 1] == p[|p| - 1];
    }

    lemma NothingEntered(entered: set<string>, line: set<string>, keys: set<string>, id: string)
      requires id in path && GoodPath(path, entered)
      ensures entered + {id} <= entered && AllDone(entered - entered, line, entered, keys)
    {
      assert id in Elements(path);
    }

    method Walk(id: string)
      requires Valid()
      requires id in Universe()
      requires path != [] ==> (path[|path| - 1], id) in GraphArcs()
      modifies this`path, this`visiting, this`reportedCycles, this`findings
      ensures Valid()
      ensures path == old(path)
      ensures old(visiting) + {id} <= visiting
      ensures old(reportedCycles) <= reportedCycles
      ensures id in path ==> ReportedAlong(path, id, reportedCycles)
      ensures AllDone(visiting - old(visiting), Line(id), visiting, reportedCycles)
      decreases Universe() - visiting, 1
    {
      var cycleStart := IndexOf(path, id);
      if cycleStart >= 0 {
        ghost var nodes := PathTailCloses(path, cycleStart, id);
        ReportCycle(path[cycleStart..] + [id], nodes);
        assert Key(path[cycleStart..]) in reportedCycles && path[cycleStart] == id;
        NothingEntered(visiting, Line(id), reportedCycles, id);
        return;
      }
      if id in visiting { return; }
      Enter(id);
    }

    // A node that was not entered before, and its targets.
    method Enter(id: string)
      requires Valid()
      requires id in Universe() && id !in path && id !in visiting
      requires path != [] ==> (path[|path| - 1], id) in GraphArcs()
      modifies this`path, this`visiting, this`reportedCycles, this`findings
      ensures Valid()
      ensures path == old(path)
      ensures old(visiting) + {id} <= visiting
      ensures old(reportedCycles) <= reportedCycles
      ensures AllDone(visiting - old(visiting), Line(id), visiting, reportedCycles)
      decreases Universe() - visiting, 0
    {
      ghost var line := Line(id);
      EnterNode(path, visiting, id);
      visiting := visiting + {id};
      path := path + [id];
      WalkTargets(id, old(visiting), line);
      ProgressComplete(old(visiting), id, line, visiting, reportedCycles);
      MoreEntered(old(path), old(visiting), visiting);
      assert path[..|path| - 1] == old(path);
      path := path[..|path| - 1];
    }

    function Targets(id: string): seq<string> {
      if id in outgoing then outgoing[id] else []
    }

    // From the entered node to each of its targets in turn.
    method WalkTargets(id: string, ghost before: set<string>, ghost line: set<string>)
      requires Valid() && path != [] && path[|path| - 1] == id && line == Elements(path)
      requires visiting == before + {id}
      modifies this`path, this`visiting, this`reportedCycles, this`findings
      ensures Valid()
      ensures path == old(path)
      ensures old(visiting) <= visiting
      ensures old(reportedCycles) <= reportedCycles
      ensures Progress(before, id, line, Targets(id), visiting, reportedCycles)
      decreases Universe() - visiting, 2
    {
      var targets := Targets(id);
      var i := 0;
      while i < |targets|
        invariant 0 <= i <= |targets|
        invariant Valid()
        invariant path == old(path)
        invariant old(visiting) <= visiting
        invariant old(reportedCycles) <= reportedCycles
        invariant Progress(before, id, line, targets[..i], visiting, reportedCycles)
      {
        assert (id, targets[i]) in GraphArcs();
        ghost var entered, keys := visiting, reportedCycles;
        Walk(targets[i]);
        TargetDone(before, id, line, Line(targets[i]), targets, i, path, entered, keys, visiting, reportedCycles);
        i := i + 1;
      }
      assert targets[..i] == targets;
    }

    // The cycle is reported with its nodes, unless one with their key was.
    method ReportCycle(cycle: seq<string>, ghost nodes: seq<string>)
      requires GoodReports(findings, reportedCycles)
      requires Genuine(GraphArcs(), Finding(nodes, cycle)) && Dedup(cycle) == nodes
      modifies this`reportedCycles, this`findings
      ensures GoodReports(findings, reportedCycles)
      ensures reportedCycles == old(reportedCycles) + {Key(nodes)}
      ensures findings == old(findings) + if Key(nodes) in old(reportedCycles) then [] else [Finding(nodes, cycle)]
    {
      var ids := Dedup(cycle);
      var key := Key(ids);
      if key !in reportedCycles {
        AddReport(findings, reportedCycles, Finding(ids, cycle));
        reportedCycles := reportedCycles + {key};
        findings := findings + [Finding(ids, cycle)];
      }
    }

    // The tail of the path from the re-entered id, and that id again.
    lemma PathTailCloses(p: seq<string>, k: nat, id: string) returns (nodes: seq<string>)
      requires Distinct(p) && IsWalk(GraphArcs(), p) && k < |p| && p[k] == id && (p[|p| - 1], id) in GraphArcs()
      ensures nodes == p[k..] && Dedup(p[k..] + [id]) == nodes
      ensures Genuine(GraphArcs(), Finding(nodes, p[k..] + [id]))
    {
      nodes := p[k..];
      DedupClosedPath(nodes);
      forall i | 0 <= i < |nodes| - 1 ensures (nodes[i], nodes[i + 1]) in GraphArcs() {
        assert (p[k + i], p[k + i + 1]) in GraphArcs();
      }
      assert SimpleCycle(GraphArcs(), nodes) && nodes[0] == id && nodes[|nodes| - 1] == p[|p| - 1];
    }

    lemma AddReport(reports: seq<Finding>, keys: set<string>, f: Finding)
      requires GoodReports(reports, keys) && Genuine(GraphArcs(), f) && Key(f.conceptIds) !in keys
      ensures GoodReports(reports + [f], keys + {Key(f.conceptIds)})
    {
      AppendFinding(reports, f);
    }

    // One start: afterwards every arc into it that lies on a cycle closes a reported one.
    method SearchFrom(start: string)
      requires start in outgoing
      requires GoodReports(findings, reportedCycles)
      modifies this`path, this`visiting, this`reportedCycles, this`findings
      ensures GoodReports(findings, reportedCycles)
      ensures old(reportedCycles) <= reportedCycles
      ensures StartDone(GraphArcs(), reportedCycles, start)
    {
      path, visiting := [], {};
      Walk(start);
      assert Line(start) == {start};
      EnteredIsClosed(start, visiting, reportedCycles);
      forall u | OnDirectedCycle(GraphArcs(), u, start) ensures ClosedBy(GraphArcs(), reportedCycles, u, start) {
        var p: seq<string> :| WalkBetween(GraphArcs(), p, start, u);
        ClosedHoldsWalk(GraphArcs(), visiting, p, |p| - 1);
        assert Done(u, {start}, visiting, reportedCycles);
      }
    }

    lemma EnteredIsClosed(root: string, entered: set<string>, keys: set<string>)
      requires AllDone(entered, {root}, entered, keys)
      ensures Closed(GraphArcs(), entered)
    {
      forall u, v | u in entered && (u, v) in GraphArcs() ensures v in entered {
        assert Done(u, {root}, entered, keys);
      }
    }
  }

  method IndexOf(s: seq<string>, x: string) returns (at: int)
    ensures -1 <= at < |s|
    ensures at >= 0 ==> s[at] == x && x !in s[..at]
    ensures at < 0 ==> x !in s
  {
    at := 0;
    while at < |s|
      invariant 0 <= at <= |s|
      invariant x !in s[..at]
    {
      if s[at] == x { return; }
      at := at + 1;
    }
    at := -1;
  }

  ghost predicate IsArcFrom(e: Edge, u: string) {
    e.kind == SUPERSEDES && e.sourceId == u
  }

  ghost function ArcsFrom(u: string): Edge -> bool {
    e => IsArcFrom(e, u)
  }

  function TargetIds(edges: seq<Edge>): (r: seq<string>)
    ensures |r| == |edges| && forall i | 0 <= i < |edges| :: r[i] == edges[i].targetId
  {
    seq(|edges|, i requires 0 <= i < |edges| => edges[i].targetId)
  }

  // The targets of the `supersedes` edges from u, in the order of the edges.
  ghost predicate ListsTargets(edges: seq<Edge>, u: string, targets: seq<string>) {
    exists mine :: Keeps(edges, mine, ArcsFrom(u)) && targets == TargetIds(mine)
  }

  ghost predicate HasArcFrom(edges: seq<Edge>, u: string) {
    exists i :: 0 <= i < |edges| && IsArcFrom(edges[i], u)
  }

  // u has an edge before any edge of v.
  ghost predicate StartsBefore(edges: seq<Edge>, u: string, v: string) {
    exists i :: 0 <= i < |edges| && HasArcFrom(edges[..i], u) && !HasArcFrom(edges[..i], v)
  }

  // Every start has an edge before any edge of a later start.
  ghost predicate InOrderOfFirstEdge(edges: seq<Edge>, starts: seq<string>) {
    forall j, k | 0 <= j < k < |starts| :: StartsBefore(edges, starts[j], starts[k])
  }

  ghost predicate ListsAllTargets(edges: seq<Edge>, outgoing: map<string, seq<string>>) {
    forall u :: ListsTargets(edges, u, if u in outgoing then outgoing[u] else [])
  }

  lemma NoTargetsYet(outgoing: map<string, seq<string>>)
    requires outgoing == map[]
    ensures ListsAllTargets([], outgoing)
  {
    forall u ensures ListsTargets([], u, []) {
      KeepsNothing(ArcsFrom(u));
      assert TargetIds([]) == [];
    }
  }

  lemma TargetsOneMore(edges: seq<Edge>, e: Edge, u: string, targets: seq<string>)
    requires ListsTargets(edges, u, targets)
    ensures ListsTargets(edges + [e], u, if IsArcFrom(e, u) then targets + [e.targetId] else targets)
  {
    var mine :| Keeps(edges, mine, ArcsFrom(u)) && targets == TargetIds(mine);
    KeepsOneMoreBehind(edges, mine, e, ArcsFrom(u));
    assert TargetIds(mine + [e]) == targets + [e.targetId];
  }

  lemma AllTargetsOneMore(edges: seq<Edge>, e: Edge, before: map<string, seq<string>>, after: map<string, seq<string>>)
    requires ListsAllTargets(edges, before)
    requires after == if e.kind != SUPERSEDES then before
      else before[e.sourceId := (if e.sourceId in before then before[e.sourceId] else []) + [e.targetId]]
    ensures ListsAllTargets(edges + [e], after)
  {
    forall u ensures ListsTargets(edges + [e], u, if u in after then after[u] else []) {
      TargetsOneMore(edges, e, u, if u in before then before[u] else []);
    }
  }

  lemma StartsBeforeStays(edges: seq<Edge>, e: Edge, u: string, v: string)
    ensures StartsBefore(edges, u, v) ==> StartsBefore(edges + [e], u, v)
    ensures HasArcFrom(edges, u) && !HasArcFrom(edges, v) ==> StartsBefore(edges + [e], u, v)
  {
    var all := edges + [e];
    if StartsBefore(edges, u, v) {
      var i :| 0 <= i < |edges| && HasArcFrom(edges[..i], u) && !HasArcFrom(edges[..i], v);
      assert all[..i] == edges[..i];
    }
    assert all[..|edges|] == edges;
  }

  // The edge adds its source at the end, if it had no edge so far.
  lemma OrderOneMore(edges: seq<Edge>, e: Edge, starts: seq<string>)
    requires InOrderOfFirstEdge(edges, starts)
    requires forall j | 0 <= j < |starts| :: HasArcFrom(edges, starts[j])
    ensures InOrderOfFirstEdge(edges + [e], starts)
    ensures !HasArcFrom(edges, e.sourceId) ==> InOrderOfFirstEdge(edges + [e], starts + [e.sourceId])
  {
    forall u, v ensures StartsBefore(edges, u, v) ==> StartsBefore(edges + [e], u, v) {
      StartsBeforeStays(edges, e, u, v);
    }
    forall j | 0 <= j < |starts| && !HasArcFrom(edges, e.sourceId)
      ensures StartsBefore(edges + [e], starts[j], e.sourceId)
    {
      StartsBeforeStays(edges, e, starts[j], e.sourceId);
    }
  }

  lemma SourcesHaveArcs(edges: seq<Edge>, outgoing: map<string, seq<string>>, u: string)
    requires ArcsOf(outgoing) == SupersedesArcs(edges) && forall x | x in outgoing :: outgoing[x] != []
    ensures u in outgoing <==> HasArcFrom(edges, u)
  {
    if u in outgoing {
      assert (u, outgoing[u][0]) in ArcsOf(outgoing);
      var e :| e in edges && e.kind == SUPERSEDES && (e.sourceId, e.targetId) == (u, outgoing[u][0]);
    }
    if HasArcFrom(edges, u) {
      var i :| 0 <= i < |edges| && IsArcFrom(edges[i], u);
      assert edges[i] in edges;
      assert (u, edges[i].targetId) in SupersedesArcs(edges);
    }
  }

  lemma StartsOneMore(edges: seq<Edge>, e: Edge, outgoing: map<string, seq<string>>, starts: seq<string>)
    requires ArcsOf(outgoing) == SupersedesArcs(edges) && forall x | x in outgoing :: outgoing[x] != []
    requires InOrderOfFirstEdge(edges, starts) && Elements(starts) == outgoing.Keys
    ensures InOrderOfFirstEdge(edges + [e], starts)
    ensures e.sourceId !in outgoing ==> InOrderOfFirstEdge(edges + [e], starts + [e.sourceId])
  {
    forall j | 0 <= j < |starts| ensures HasArcFrom(edges, starts[j]) {
      assert starts[j] in Elements(starts);
      SourcesHaveArcs(edges, outgoing, starts[j]);
    }
    SourcesHaveArcs(edges, outgoing, e.sourceId);
    OrderOneMore(edges, e, starts);
  }

  // The map lists the targets of every source in the order of the edges; its keys are the
  // sources, each once, in the order of their first edges.
  ghost predicate Built(edges: seq<Edge>, outgoing: map<string, seq<string>>, starts: seq<string>) {
    && ArcsOf(outgoing) == SupersedesArcs(edges)
    && Elements(starts) == outgoing.Keys && Distinct(starts)
    && (forall u | u in outgoing :: outgoing[u] != [])
    && ListsAllTargets(edges, outgoing) && InOrderOfFirstEdge(edges, starts)
  }

  function Known(outgoing: map<string, seq<string>>, u: string): seq<string> {
    if u in outgoing then outgoing[u] else []
  }

  lemma BuiltOtherKind(edges: seq<Edge>, e: Edge, outgoing: map<string, seq<string>>, starts: seq<string>)
    requires Built(edges, outgoing, starts) && e.kind != SUPERSEDES
    ensures Built(edges + [e], outgoing, starts)
  {
    StartsOneMore(edges, e, outgoing, starts);
    ArcsOneMore(edges, e, outgoing);
    AllTargetsOneMore(edges, e, outgoing, outgoing);
  }

  function WithTarget(outgoing: map<string, seq<string>>, u: string, v: string): map<string, seq<string>> {
    outgoing[u := Known(outgoing, u) + [v]]
  }

  lemma BuiltSupersedes(edges: seq<Edge>, e: Edge, outgoing: map<string, seq<string>>, starts: seq<string>)
    requires Built(edges, outgoing, starts) && e.kind == SUPERSEDES
    ensures Built(edges + [e], WithTarget(outgoing, e.sourceId, e.targetId),
                  if e.sourceId in outgoing then starts else starts + [e.sourceId])
  {
    StartsOneMore(edges, e, outgoing, starts);
    ArcsOneMore(edges, e, outgoing);
    AllTargetsOneMore(edges, e, outgoing, WithTarget(outgoing, e.sourceId, e.targetId));
    SourcesOneMore(starts, outgoing.Keys, e.sourceId);
    KeysWithTarget(outgoing, e.sourceId, e.targetId);
  }

  lemma KeysWithTarget(outgoing: map<string, seq<string>>, u: string, v: string)
    ensures var after := WithTarget(outgoing, u, v);
      && after.Keys == outgoing.Keys + {u} && after[u] != []
      && forall x | x in outgoing && x != u :: after[x] == outgoing[x]
  {
  }

  lemma SourcesOneMore(starts: seq<string>, keys: set<string>, u: string)
    requires Elements(starts) == keys && Distinct(starts)
    ensures u in keys ==> keys + {u} == keys
    ensures u !in keys ==> Elements(starts + [u]) == keys + {u} && Distinct(starts + [u])
  {
    ElementsSnoc(starts, u);
    if u !in keys {
      forall j | 0 <= j < |starts| ensures starts[j] != u { assert starts[j] in Elements(starts); }
    }
  }

  lemma ArcsOneMore(edges: seq<Edge>, e: Edge, outgoing: map<string, seq<string>>)
    requires ArcsOf(outgoing) == SupersedesArcs(edges)
    ensures e.kind != SUPERSEDES ==> ArcsOf(outgoing) == SupersedesArcs(edges + [e])
    ensures e.kind == SUPERSEDES ==>
      ArcsOf(WithTarget(outgoing, e.sourceId, e.targetId)) == SupersedesArcs(edges + [e])
  {
    AddArc(outgoing, e.sourceId, e.targetId);
    assert (edges + [e])[..|edges|] == edges;
    EdgesSnoc(edges + [e], |edges|);
    assert (edges + [e])[..|edges| + 1] == edges + [e];
  }

  // The adjacency map, and its keys in order of first insertion.
  method BuildOutgoing(edges: seq<Edge>) returns (outgoing: map<string, seq<string>>, starts: seq<string>)
    ensures Built(edges, outgoing, starts)
  {
    outgoing, starts := map[], [];
    var i := 0;
    NoTargetsYet(outgoing);
    assert edges[..0] == [];
    while i < |edges|
      invariant 0 <= i <= |edges|
      invariant Built(edges[..i], outgoing, starts)
    {
      var edge := edges[i];
      assert edges[..i + 1] == edges[..i] + [edge];
      if edge.kind == SUPERSEDES {
        BuiltSupersedes(edges[..i], edge, outgoing, starts);
        if edge.sourceId !in outgoing { starts := starts + [edge.sourceId]; }
        outgoing := outgoing[edge.sourceId := Known(outgoing, edge.sourceId) + [edge.targetId]];
      } else {
        BuiltOtherKind(edges[..i], edge, outgoing, starts);
      }
      i := i + 1;
    }
    assert edges[..i] == edges;
  }

  lemma AddArc(before: map<string, seq<string>>, u: string, v: string)
    ensures ArcsOf(before[u := (if u in before then before[u] else []) + [v]]) == ArcsOf(before) + {(u, v)}
  {
    var after := before[u := (if u in before then before[u] else []) + [v]];
    forall a, b ensures (a, b) in ArcsOf(after) <==> (a, b) in ArcsOf(before) + {(u, v)} {}
  }

  lemma EdgesSnoc(edges: seq<Edge>, i: nat)
    requires i < |edges|
    ensures SupersedesArcs(edges[..i + 1])
         == SupersedesArcs(edges[..i])
          + if edges[i].kind == SUPERSEDES then {(edges[i].sourceId, edges[i].targetId)} else {}
  {
    assert edges[..i + 1] == edges[..i] + [edges[i]];
  }

  ghost predicate NulFree(edges: seq<Edge>) {
    forall e | e in edges && e.kind == SUPERSEDES :: NUL !in e.sourceId && NUL !in e.targetId
  }

  ghost predicate Named(findings: seq<Finding>, v: string) {
    exists f :: f in findings && v in f.conceptIds
  }

  // What every run of the search guarantees, on every report.
  ghost predicate Sound(arcs: Arcs, findings: seq<Finding>) {
    (forall f | f in findings :: Genuine(arcs, f)) && KeysDistinct(findings)
  }

  // Every arc on a cycle closes a reported one, and so every concept on a cycle lies on one.
  ghost predicate Complete(arcs: Arcs, findings: seq<Finding>) {
    && (forall u, v :: OnDirectedCycle(arcs, u, v) <==> ClosedBy(arcs, Keys(findings), u, v))
    && (forall v :: OnCycle(arcs, v) <==> Covered(arcs, Keys(findings), v))
  }

  // The arcs into this start that lie on a cycle close reported ones.
  ghost predicate StartDone(arcs: Arcs, keys: set<string>, start: string) {
    forall u | OnDirectedCycle(arcs, u, start) :: ClosedBy(arcs, keys, u, start)
  }

  ghost predicate StartsDone(arcs: Arcs, keys: set<string>, starts: seq<string>, n: nat)
    requires n <= |starts|
  {
    forall j | 0 <= j < n :: StartDone(arcs, keys, starts[j])
  }

  lemma OneMoreStart(arcs: Arcs, keys: set<string>, keys': set<string>, starts: seq<string>, n: nat)
    requires n < |starts| && keys <= keys'
    requires StartsDone(arcs, keys, starts, n) && StartDone(arcs, keys', starts[n])
    ensures StartsDone(arcs, keys', starts, n + 1)
  {
    forall j | 0 <= j < n ensures StartDone(arcs, keys', starts[j]) {
      forall u | OnDirectedCycle(arcs, u, starts[j]) ensures ClosedBy(arcs, keys', u, starts[j]) {
        assert StartDone(arcs, keys, starts[j]);
        ClosedByMore(arcs, keys, keys', u, starts[j]);
      }
    }
  }

  // More keys close no less.
  lemma ClosedByMore(arcs: Arcs, keys: set<string>, keys': set<string>, u: string, v: string)
    requires keys <= keys' && ClosedBy(arcs, keys, u, v)
    ensures ClosedBy(arcs, keys', u, v)
  {
    var c: seq<string> :| SimpleCycle(arcs, c) && c[0] == v && c[|c| - 1] == u && Key(c) in keys;
    assert Key(c) in keys';
  }

  lemma AllStartsComplete(outgoing: map<string, seq<string>>, starts: seq<string>, findings: seq<Finding>)
    requires Elements(starts) == outgoing.Keys
    requires StartsDone(ArcsOf(outgoing), Keys(findings), starts, |starts|)
    ensures Complete(ArcsOf(outgoing), findings)
  {
    var (arcs, keys) := (ArcsOf(outgoing), Keys(findings));
    forall u, v ensures OnDirectedCycle(arcs, u, v) <==> ClosedBy(arcs, keys, u, v) {
      if OnDirectedCycle(arcs, u, v) {
        HeadIsSource(outgoing, u, v);
        assert v in Elements(starts);
        var j :| 0 <= j < |starts| && starts[j] == v;
        assert StartDone(arcs, keys, starts[j]);
      }
      if ClosedBy(arcs, keys, u, v) { ClosedIsCovered(arcs, keys, u, v); }
    }
    forall v ensures OnCycle(arcs, v) <==> Covered(arcs, keys, v) {
      if OnCycle(arcs, v) {
        var u := ArcOfCycle(arcs, v);
        ClosedIsCovered(arcs, keys, u, v);
      }
      if Covered(arcs, keys, v) {
        var c: seq<string> :| SimpleCycle(arcs, c) && v in c && Key(c) in keys;
        CycleNodeOnCycle(arcs, c, v);
      }
    }
  }

  method ReliabilityFindings(report: Option<seq<Edge>>) returns (findings: seq<Finding>)
    ensures report.None? ==> findings == []
    ensures report.Some? ==>
        Sound(SupersedesArcs(report.value), findings) && Complete(SupersedesArcs(report.value), findings)
    ensures report.Some? && NulFree(report.value) ==>
        forall v :: OnCycle(SupersedesArcs(report.value), v) <==> Named(findings, v)
  {
    if report.None? { return []; }
    var edges := report.value;
    ghost var arcs := SupersedesArcs(edges);
    var outgoing, starts := BuildOutgoing(edges);
    var search := new CycleSearch(outgoing);
    var i := 0;
    while i < |starts|
      invariant 0 <= i <= |starts|
      invariant search.GoodReports(search.findings, search.reportedCycles)
      invariant StartsDone(arcs, search.reportedCycles, starts, i)
    {
      ghost var keys := search.reportedCycles;
      search.SearchFrom(starts[i]);
      OneMoreStart(arcs, keys, search.reportedCycles, starts, i);
      i := i + 1;
    }
    findings := search.findings;
    AllStartsComplete(outgoing, starts, findings);
    if NulFree(edges) { NulFreeNames(edges, findings); }
  }

  lemma HeadIsSource(outgoing: map<string, seq<string>>, u: string, v: string)
    requires OnDirectedCycle(ArcsOf(outgoing), u, v)
    ensures v in outgoing
  {
    var p: seq<string> :| WalkBetween(ArcsOf(outgoing), p, v, u);
    if |p| > 1 { assert (p[0], p[0 + 1]) in ArcsOf(outgoing); }
  }

  // Every id on a simple cycle is an endpoint of a supersedes edge.
  lemma CycleIdsNulFree(edges: seq<Edge>, c: seq<string>)
    requires NulFree(edges) && SimpleCycle(SupersedesArcs(edges), c)
    ensures forall x | x in c :: NUL !in x
  {
    forall k | 0 <= k < |c| ensures NUL !in c[k] {
      var next := if k == |c| - 1 then c[0] else c[k + 1];
      assert (c[k], next) in SupersedesArcs(edges);
    }
  }

  // Without NUL in the ids, a concept is named by a finding exactly when it lies on a cycle.
  lemma NulFreeNames(edges: seq<Edge>, findings: seq<Finding>)
    requires NulFree(edges)
    requires Sound(SupersedesArcs(edges), findings) && Complete(SupersedesArcs(edges), findings)
    ensures forall v :: OnCycle(SupersedesArcs(edges), v) <==> Named(findings, v)
  {
    var arcs := SupersedesArcs(edges);
    forall v | OnCycle(arcs, v) ensures Named(findings, v) {
      var c: seq<string> :| SimpleCycle(arcs, c) && v in c && Key(c) in Keys(findings);
      var f :| f in findings && Key(f.conceptIds) == Key(c);
      CycleIdsNulFree(edges, c);
      CycleIdsNulFree(edges, f.conceptIds);
      KeyDeterminesNodeSet(c, f.conceptIds);
      assert v in Elements(c);
    }
    forall v | Named(findings, v) ensures OnCycle(arcs, v) {
      var f :| f in findings && v in f.conceptIds;
      CycleNodeOnCycle(arcs, f.conceptIds, v);
    }
  }

  // No two findings have the same node set.
  lemma FindingsHaveDistinctNodeSets(arcs: Arcs, findings: seq<Finding>, i: nat, j: nat)
    requires Sound(arcs, findings) && i < j < |findings|
    ensures Elements(findings[i].conceptIds) != Elements(findings[j].conceptIds)
  {
    if Elements(findings[i].conceptIds) == Elements(findings[j].conceptIds) {
      assert findings[i] in findings && findings[j] in findings;
      KeyOfNodeSet(findings[i].conceptIds, findings[j].conceptIds);
    }
  }

  // With a NUL inside an id two different cycles can share a key, and then one of
  // them is never named: here a and b supersede each other, and a third concept,
  // whose id is "a", NUL, "b", supersedes itself.
  const GLUED := ['a', NUL, 'b']

  const GLUED_EDGES := [Edge("a", "b", SUPERSEDES), Edge("b", "a", SUPERSEDES), Edge(GLUED, GLUED, SUPERSEDES)]

  lemma NulHidesACycle(findings: seq<Finding>)
    requires Sound(SupersedesArcs(GLUED_EDGES), findings)
    ensures exists v :: OnCycle(SupersedesArcs(GLUED_EDGES), v) && !Named(findings, v)
  {
    var arcs := SupersedesArcs(GLUED_EDGES);
    GluedArcs();
    assert OnCycle(arcs, "a") by { assert WalkBetween(arcs, ["a", "b", "a"], "a", "a"); }
    assert OnCycle(arcs, GLUED) by { assert WalkBetween(arcs, [GLUED, GLUED], GLUED, GLUED); }
    if Named(findings, "a") && Named(findings, GLUED) {
      var f :| f in findings && "a" in f.conceptIds;
      var g :| g in findings && GLUED in g.conceptIds;
      assert Genuine(arcs, f) && Genuine(arcs, g);
      GluedCycleKey(f.conceptIds, ["a", "b"], "a");
      GluedCycleKey(g.conceptIds, [GLUED], GLUED);
      GluedKeys();
      assert f == g;
      GluedApart(f.conceptIds);
    }
  }

  lemma GluedArcs()
    ensures SupersedesArcs(GLUED_EDGES) == {("a", "b"), ("b", "a"), (GLUED, GLUED)}
  {
    assert GLUED_EDGES[0] in GLUED_EDGES && GLUED_EDGES[1] in GLUED_EDGES && GLUED_EDGES[2] in GLUED_EDGES;
  }

  lemma GluedCycles(c: seq<string>)
    requires SimpleCycle(SupersedesArcs(GLUED_EDGES), c)
    ensures Elements(c) == {"a", "b"} || Elements(c) == {GLUED}
  {
    var arcs := SupersedesArcs(GLUED_EDGES);
    GluedArcs();
    assert c[0] in c;
    if c[0] == GLUED {
      assert Closed(arcs, {GLUED});
      forall k | 0 <= k < |c| ensures c[k] in {GLUED} { ClosedHoldsWalk(arcs, {GLUED}, c, k); }
    } else {
      assert Closed(arcs, {"a", "b"});
      assert (c[|c| - 1], c[0]) in arcs;
      assert c[|c| - 1] in c && c[|c| - 1] != c[0];
      forall k | 0 <= k < |c| ensures c[k] in {"a", "b"} { ClosedHoldsWalk(arcs, {"a", "b"}, c, k); }
    }
  }

  lemma GluedApart(c: seq<string>)
    requires SimpleCycle(SupersedesArcs(GLUED_EDGES), c)
    ensures "a" !in c || GLUED !in c
  {
    GluedCycles(c);
    assert "a" in c ==> "a" in Elements(c);
    assert GLUED in c ==> GLUED in Elements(c);
  }

  lemma GluedCycleKey(c: seq<string>, d: seq<string>, v: string)
    requires SimpleCycle(SupersedesArcs(GLUED_EDGES), c) && v in c && v in d
    requires d == ["a", "b"] || d == [GLUED]
    ensures Key(c) == Key(d)
  {
    GluedCycles(c);
    assert v in Elements(c);
    KeyOfNodeSet(c, d);
  }

  lemma GluedKeys()
    ensures Key(["a", "b"]) == Key([GLUED])
  {
    assert Leq("a", "b");
    assert Sort(["b"]) == ["b"];
    assert Sort(["a", "b"]) == ["a", "b"];
    assert Sort([GLUED]) == [GLUED];
    assert Join(["a", "b"], [NUL]) == "a" + [NUL] + "b" == GLUED;
  }
}
