/** Walks in a finite directed graph given as a set of arcs. */
module Walks {

  type Arcs = set<(string, string)>

  ghost predicate IsWalk(arcs: Arcs, p: seq<string>) {
    p != [] && forall i | 0 <= i < |p| - 1 :: (p[i], p[i + 1]) in arcs
  }

  ghost predicate WalkBetween(arcs: Arcs, p: seq<string>, a: string, b: string) {
    IsWalk(arcs, p) && p[0] == a && p[|p| - 1] == b
  }

  ghost predicate Closed(arcs: Arcs, s: set<string>) {
    forall u, v | u in s && (u, v) in arcs :: v in s
  }

  lemma {:induction false} ClosedHoldsWalk(arcs: Arcs, s: set<string>, p: seq<string>, i: nat)
    requires IsWalk(arcs, p) && p[0] in s && Closed(arcs, s) && i < |p|
    ensures p[i] in s
  {
    if i > 0 {
      ClosedHoldsWalk(arcs, s, p, i - 1);
      assert (p[i - 1], p[i - 1 + 1]) in arcs;
    }
  }

  // A directed cycle through v: a walk of at least one arc from v back to v.
  ghost predicate OnCycle(arcs: Arcs, v: string) {
    exists p: seq<string> :: |p| >= 2 && WalkBetween(arcs, p, v, v)
  }

  // A list of distinct nodes, each with an arc to the next and the last to the first.
  ghost predicate SimpleCycle(arcs: Arcs, c: seq<string>) {
    && c != []
    && (forall i, j | 0 <= i < j < |c| :: c[i] != c[j])
    && IsWalk(arcs, c)
    && (c[|c| - 1], c[0]) in arcs
  }

  lemma CycleNodeOnCycle(arcs: Arcs, c: seq<string>, v: string)
    requires SimpleCycle(arcs, c) && v in c
    ensures OnCycle(arcs, v)
  {
    var k :| 0 <= k < |c| && c[k] == v;
    var p := c[k..] + c[..k + 1];
    forall i | 0 <= i < |p| - 1 ensures (p[i], p[i + 1]) in arcs {
      if i < |c| - k - 1 {
        assert (c[k + i], c[k + i + 1]) in arcs;
      } else if i == |c| - k - 1 {
        assert p[i] == c[|c| - 1] && p[i + 1] == c[0];
      } else {
        var j := i - (|c| - k);
        assert p[i] == c[j] && p[i + 1] == c[j + 1];
        assert (c[j], c[j + 1]) in arcs;
      }
    }
    assert WalkBetween(arcs, p, v, v);
  }
}
