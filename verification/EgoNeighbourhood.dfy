/** The ego neighbourhood: a breadth-first walk of a bounded number of hops over links
    and backlinks together, in which ids without a concept are reached but lead nowhere. */
module EgoNeighbourhood {
  import opened Options
  import opened StringOrder
  import opened Walks

  datatype Concept = Concept(id: string, links: seq<string>, citedBy: seq<string>)

  type Index = map<string, Concept>

  // The later of two concepts with the same id wins.
  function ById(concepts: seq<Concept>): (r: Index)
    ensures forall id | id in r :: r[id] in concepts && r[id].id == id
    ensures forall c | c in concepts :: c.id in r
  {
    if concepts == [] then map[]
    else
      var last := concepts[|concepts| - 1];
      ById(concepts[..|concepts| - 1])[last.id := last]
  }

  lemma {:induction false} LaterWins(concepts: seq<Concept>, i: nat)
    requires i < |concepts| && forall j | i < j < |concepts| :: concepts[j].id != concepts[i].id
    ensures ById(concepts)[concepts[i].id] == concepts[i]
    decreases |concepts|
  {
    if i < |concepts| - 1 {
      LaterWins(concepts[..|concepts| - 1], i);
    }
  }

  function Neighbours(byId: Index, id: string): set<string> {
    if id in byId then Elements(byId[id].links) + Elements(byId[id].citedBy) else {}
  }

  ghost function AdjacencyArcs(byId: Index): Arcs {
    set u, v | u in byId && v in Neighbours(byId, u) :: (u, v)
  }

  // v is reached from the root by a walk of at most `hops` arcs.
  ghost predicate Within(byId: Index, root: string, hops: nat, v: string) {
    exists p: seq<string> :: WalkBetween(AdjacencyArcs(byId), p, root, v) && |p| <= hops + 1
  }

  ghost function Ball(byId: Index, root: string, hops: nat): set<string> {
    if hops == 0 then {root}
    else
      var inner := Ball(byId, root, hops - 1);
      inner + Spread(byId, inner)
  }

  // Everything one arc away from the set.
  ghost function Spread(byId: Index, s: set<string>): set<string> {
    set u, v | u in s && v in Neighbours(byId, u) :: v
  }

  lemma {:induction false} BallHasShortWalks(byId: Index, root: string, hops: nat, v: string)
    ensures v in Ball(byId, root, hops) <==> Within(byId, root, hops, v)
  {
    var arcs := AdjacencyArcs(byId);
    if v in Ball(byId, root, hops) {
      var p := WalkInBall(byId, root, hops, v);
      assert WalkBetween(arcs, p, root, v);
    }
    if Within(byId, root, hops, v) {
      var p: seq<string> :| WalkBetween(arcs, p, root, v) && |p| <= hops + 1;
      ShortWalkInBall(byId, root, hops, p);
    }
  }

  lemma {:induction false} WalkInBall(byId: Index, root: string, hops: nat, v: string) returns (p: seq<string>)
    requires v in Ball(byId, root, hops)
    ensures WalkBetween(AdjacencyArcs(byId), p, root, v) && |p| <= hops + 1
  {
    if hops == 0 {
      p := [root];
    } else if v in Ball(byId, root, hops - 1) {
      p := WalkInBall(byId, root, hops - 1, v);
    } else {
      var u :| u in Ball(byId, root, hops - 1) && v in Neighbours(byId, u);
      var q := WalkInBall(byId, root, hops - 1, u);
      p := q + [v];
      assert (u, v) in AdjacencyArcs(byId);
      forall i | 0 <= i < |p| - 1 ensures (p[i], p[i + 1]) in AdjacencyArcs(byId) {
        if i < |q| - 1 { assert (q[i], q[i + 1]) in AdjacencyArcs(byId); }
      }
    }
  }

  lemma {:induction false} ShortWalkInBall(byId: Index, root: string, hops: nat, p: seq<string>)
    requires IsWalk(AdjacencyArcs(byId), p) && p[0] == root && |p| <= hops + 1
    ensures p[|p| - 1] in Ball(byId, root, hops)
  {
    if hops > 0 {
      if |p| == 1 {
        ShortWalkInBall(byId, root, hops - 1, p);
      } else {
        var n := |p| - 1;
        var q := p[..n];
        forall i | 0 <= i < |q| - 1 ensures (q[i], q[i + 1]) in AdjacencyArcs(byId) {
          assert (p[i], p[i + 1]) in AdjacencyArcs(byId);
        }
        ShortWalkInBall(byId, root, hops - 1, q);
        assert (p[n - 1], p[n - 1 + 1]) in AdjacencyArcs(byId);
      }
    }
  }

  // A set with nothing new one arc away is the ball of every larger radius.
  lemma {:induction false} StableBall(byId: Index, root: string, h: nat, hops: nat)
    requires h <= hops && Spread(byId, Ball(byId, root, h)) <= Ball(byId, root, h)
    ensures Ball(byId, root, hops) == Ball(byId, root, h)
    decreases hops
  {
    if h < hops {
      StableBall(byId, root, h, hops - 1);
    }
  }

  // Unseen neighbours join the result and the next frontier, in list order.
  method Absorb(neighbours: seq<string>, result: set<string>, next: seq<string>)
    returns (result': set<string>, next': seq<string>)
    ensures result' == result + Elements(neighbours)
    ensures Elements(next') == Elements(next) + (Elements(neighbours) - result)
  {
    result', next' := result, next;
    var i := 0;
    while i < |neighbours|
      invariant 0 <= i <= |neighbours|
      invariant result' == result + Elements(neighbours[..i])
      invariant Elements(next') == Elements(next) + (Elements(neighbours[..i]) - result)
    {
      var nb := neighbours[i];
      assert neighbours[..i + 1] == neighbours[..i] + [nb];
      ElementsSnoc(neighbours[..i], nb);
      ElementsSnoc(next', nb);
      if nb !in result' {
        result' := result' + {nb};
        next' := next' + [nb];
      }
      i := i + 1;
    }
    assert neighbours[..i] == neighbours;
  }

  method ExpandFrontier(byId: Index, frontier: seq<string>, result: set<string>)
    returns (result': set<string>, next: seq<string>)
    ensures result' == result + Spread(byId, Elements(frontier))
    ensures Elements(next) == result' - result
  {
    result', next := result, [];
    var i := 0;
    while i < |frontier|
      invariant 0 <= i <= |frontier|
      invariant result' == result + Spread(byId, Elements(frontier[..i]))
      invariant Elements(next) == result' - result
    {
      var id := frontier[i];
      assert Elements(frontier[..i + 1]) == Elements(frontier[..i]) + {id} by {
        assert frontier[..i + 1] == frontier[..i] + [id];
      }
      SpreadOneMore(byId, Elements(frontier[..i]), id);
      if id in byId {
        result', next := Absorb(byId[id].links, result', next);
        result', next := Absorb(byId[id].citedBy, result', next);
      }
      i := i + 1;
    }
    assert frontier[..i] == frontier;
  }

  lemma SpreadOneMore(byId: Index, s: set<string>, id: string)
    ensures Spread(byId, s + {id}) == Spread(byId, s) + Neighbours(byId, id)
  {
  }

  lemma SpreadUnion(byId: Index, s: set<string>, t: set<string>)
    ensures Spread(byId, s + t) == Spread(byId, s) + Spread(byId, t)
  {
  }

  lemma NothingNew(before: set<string>, after: set<string>)
    requires before <= after && after - before == {}
    ensures after == before
  {
    assert after == before + (after - before);
  }

  function Hops(depth: real): nat {
    if depth < 1.0 then 0 else depth.Floor
  }

  // The breadth-first loop: stopping at an empty frontier loses nothing.
  method GrowBall(byId: Index, root: string, hops: nat) returns (result: set<string>)
    ensures result == Ball(byId, root, hops)
  {
    result := {root};
    var frontier := [root];
    var d := 0;
    // what lies inside the frontier has been spread already
    ghost var inside: set<string> := {};
    while d < hops
      invariant 0 <= d <= hops
      invariant result == Ball(byId, root, d) == inside + Elements(frontier)
      invariant Spread(byId, inside) <= result
    {
      var next;
      ghost var before := result;
      result, next := ExpandFrontier(byId, frontier, result);
      SpreadUnion(byId, inside, Elements(frontier));
      assert result == Ball(byId, root, d + 1);
      if next == [] {
        assert result - before == Elements(next) == {};
        NothingNew(before, result);
        StableBall(byId, root, d, hops);
        return;
      }
      inside := before;
      frontier := next;
      d := d + 1;
    }
  }

  // ----- Reach, said of the list of concepts

  // No later concept has the id.
  ghost predicate IsCurrent(concepts: seq<Concept>, i: int) {
    0 <= i < |concepts| && forall j | i < j < |concepts| :: concepts[j].id != concepts[i].id
  }

  // The current concept of u links to v or lists it as citing.
  ghost predicate Touches(concepts: seq<Concept>, u: string, v: string) {
    exists i :: IsCurrent(concepts, i) && concepts[i].id == u && (v in concepts[i].links || v in concepts[i].citedBy)
  }

  ghost predicate WalkOver(concepts: seq<Concept>, p: seq<string>, a: string, b: string) {
    && p != [] && p[0] == a && p[|p| - 1] == b
    && forall k | 0 <= k < |p| - 1 :: Touches(concepts, p[k], p[k + 1])
  }

  // A walk of no steps, or of at most `depth`.
  ghost predicate InReach(concepts: seq<Concept>, root: string, depth: real, v: string) {
    exists p: seq<string> :: WalkOver(concepts, p, root, v) && (|p| == 1 || (|p| - 1) as real <= depth)
  }

  ghost predicate HasConcept(concepts: seq<Concept>, id: string) {
    exists i :: 0 <= i < |concepts| && concepts[i].id == id
  }

  lemma {:induction false} CurrentConcept(concepts: seq<Concept>, id: string) returns (i: nat)
    requires HasConcept(concepts, id)
    ensures IsCurrent(concepts, i) && concepts[i].id == id
  {
    var n := |concepts| - 1;
    if concepts[n].id == id {
      i := n;
    } else {
      var k :| 0 <= k < |concepts| && concepts[k].id == id;
      assert concepts[..n][k].id == id;
      i := CurrentConcept(concepts[..n], id);
    }
  }

  lemma CurrentIsUnique(concepts: seq<Concept>, i: int, k: int)
    requires IsCurrent(concepts, i) && IsCurrent(concepts, k) && concepts[i].id == concepts[k].id
    ensures i == k
  {
  }

  lemma HasConceptIff(concepts: seq<Concept>, id: string)
    ensures id in ById(concepts) <==> HasConcept(concepts, id)
  {
    if id in ById(concepts) { assert ById(concepts)[id] in concepts; }
  }

  lemma TouchesIff(concepts: seq<Concept>, u: string, v: string)
    ensures Touches(concepts, u, v) <==> (u, v) in AdjacencyArcs(ById(concepts))
  {
    HasConceptIff(concepts, u);
    if HasConcept(concepts, u) {
      var i := CurrentConcept(concepts, u);
      LaterWins(concepts, i);
      forall k | IsCurrent(concepts, k) && concepts[k].id == u ensures k == i { CurrentIsUnique(concepts, i, k); }
    }
  }

  lemma InReachIff(concepts: seq<Concept>, root: string, depth: real, v: string)
    ensures InReach(concepts, root, depth, v) <==> Within(ById(concepts), root, Hops(depth), v)
  {
    forall p: seq<string> | p != [] ensures
      WalkOver(concepts, p, root, v) <==> WalkBetween(AdjacencyArcs(ById(concepts)), p, root, v)
    {
      forall k | 0 <= k < |p| - 1 ensures
        Touches(concepts, p[k], p[k + 1]) <==> (p[k], p[k + 1]) in AdjacencyArcs(ById(concepts))
      {
        TouchesIff(concepts, p[k], p[k + 1]);
      }
    }
  }

  // Exactly the ids in reach of a root that has a concept; nothing without a bundle, without
  // a root, or for a root that has no concept.
  method EgoIds(bundle: Option<seq<Concept>>, rootId: Option<string>, depth: real) returns (result: set<string>)
    ensures bundle.None? || rootId.None? || rootId.value == "" || !HasConcept(bundle.value, rootId.value)
      ==> result == {}
    ensures bundle.Some? && rootId.Some? && rootId.value != "" && HasConcept(bundle.value, rootId.value) ==>
      forall v :: v in result <==> InReach(bundle.value, rootId.value, depth, v)
  {
    if bundle.None? || rootId.None? || rootId.value == "" { return {}; }
    var byId := ById(bundle.value);
    var root := rootId.value;
    HasConceptIff(bundle.value, root);
    if root !in byId { return {}; }
    result := GrowBall(byId, root, Hops(depth));
    forall v ensures v in result <==> InReach(bundle.value, root, depth, v) {
      BallHasShortWalks(byId, root, Hops(depth), v);
      InReachIff(bundle.value, root, depth, v);
    }
  }

  // Links and backlinks agree, as they do in a linked bundle.
  ghost predicate Mirrored(byId: Index) {
    forall u, v | u in byId ::
      && (v in byId[u].links ==> v in byId && u in byId[v].citedBy)
      && (v in byId[u].citedBy ==> v in byId && u in byId[v].links)
  }

  // In a linked bundle the neighbourhood relation is symmetric at every distance.
  lemma NeighbourhoodIsSymmetric(byId: Index, a: string, b: string, hops: nat)
    requires Mirrored(byId) && Within(byId, a, hops, b)
    ensures Within(byId, b, hops, a)
  {
    var arcs := AdjacencyArcs(byId);
    var p: seq<string> :| WalkBetween(arcs, p, a, b) && |p| <= hops + 1;
    var q := seq(|p|, i requires 0 <= i < |p| => p[|p| - 1 - i]);
    forall i | 0 <= i < |q| - 1 ensures (q[i], q[i + 1]) in arcs {
      var j := |p| - 2 - i;
      assert (p[j], p[j + 1]) in arcs;
      assert q[i] == p[j + 1] && q[i + 1] == p[j];
    }
    assert WalkBetween(arcs, q, b, a);
  }
}
