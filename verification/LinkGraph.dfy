/** Backlinks and degrees: one pass scatters every link to its target, a second
    overwrites `citedBy` and `degree` of every concept in place. */
module LinkGraph {
  import opened StringOrder

  const U32 := 0x1_0000_0000

  class Concept {
    const id: string
    const links: seq<string>
    var citedBy: seq<string>
    var degree: nat

    constructor (id: string, links: seq<string>)
      ensures this.id == id && this.links == links
    {
      this.id, this.links := id, links;
      citedBy, degree := [], 0;
    }
  }

  ghost predicate DistinctObjects(cs: seq<Concept>) {
    forall i, j | 0 <= i < j < |cs| :: cs[i] != cs[j]
  }

  // The index the id map holds: the last concept with the id.
  ghost predicate Owns(cs: seq<Concept>, i: nat) {
    i < |cs| && forall j | i < j < |cs| :: cs[j].id != cs[i].id
  }

  ghost predicate StrictlySorted(s: seq<string>) {
    Sorted(s) && Distinct(s)
  }

  // `cited` is the list of the ids among the first n concepts that link to concept i.
  ghost predicate Cites(cs: seq<Concept>, n: nat, i: nat, s: string)
    requires n <= |cs| && i < |cs|
  {
    Owns(cs, i) && exists k :: 0 <= k < n && cs[k].id == s && cs[i].id in cs[k].links
  }

  // ----- Sorting and removing repeats

  // Drop every item equal to the one before it.
  function DropRepeats(s: seq<string>): seq<string> {
    if |s| <= 1 then s
    else if s[0] == s[1] then DropRepeats(s[1..])
    else [s[0]] + DropRepeats(s[1..])
  }

  lemma {:induction false} DropRepeatsHolds(s: seq<string>)
    requires Sorted(s)
    ensures StrictlySorted(DropRepeats(s))
    ensures forall x :: x in DropRepeats(s) <==> x in s
    ensures s != [] ==> DropRepeats(s) != [] && DropRepeats(s)[0] == s[0]
  {
    if |s| > 1 {
      var tail := s[1..];
      DropRepeatsHolds(tail);
      assert s == [s[0]] + tail;
      if s[0] != s[1] {
        var rest := DropRepeats(tail);
        forall j | 0 <= j < |rest| ensures Leq(s[0], rest[j]) && s[0] != rest[j] {
          assert rest[j] in tail;
          var k :| 0 <= k < |tail| && tail[k] == rest[j];
          assert Leq(s[0], s[k + 1]);
          if rest[j] == s[0] {
            FirstIsLeast(tail, s[0]);
            assert Leq(s[0], s[1]);
            LeqAntisymmetric(s[0], s[1]);
          }
        }
      }
    }
  }

  // Two strictly sorted lists of the same ids are the same list.
  lemma StrictlySortedIsUnique(a: seq<string>, b: seq<string>)
    requires StrictlySorted(a) && StrictlySorted(b)
    requires forall x :: x in a <==> x in b
    ensures a == b
  {
    DistinctSameMultiset(a, b);
    SortedIsUnique(a, b);
  }

  // ----- The scatter

  // Each list holds exactly the citing ids of the first n concepts.
  ghost predicate Scattered(cs: seq<Concept>, n: nat, backlinks: seq<seq<string>>)
    requires n <= |cs|
  {
    && |backlinks| == |cs|
    && forall i, s | 0 <= i < |cs| :: s in backlinks[i] <==> Cites(cs, n, i, s)
  }

  // ... and of the first t links of concept n.
  ghost predicate ScatteredPart(cs: seq<Concept>, n: nat, t: nat, backlinks: seq<seq<string>>)
    requires n < |cs| && t <= |cs[n].links|
  {
    && |backlinks| == |cs|
    && forall i, s | 0 <= i < |cs| :: s in backlinks[i] <==>
         Cites(cs, n, i, s) || (Owns(cs, i) && s == cs[n].id && cs[i].id in cs[n].links[..t])
  }

  ghost predicate IndexHolds(cs: seq<Concept>, index: map<string, nat>) {
    && (forall id | id in index :: Owns(cs, index[id]) && cs[index[id]].id == id)
    && (forall i | 0 <= i < |cs| :: cs[i].id in index)
  }

  method BuildIndex(concepts: array<Concept>) returns (index: map<string, nat>)
    ensures IndexHolds(concepts[..], index)
  {
    index := map[];
    var i := 0;
    while i < concepts.Length
      invariant 0 <= i <= concepts.Length
      invariant forall id | id in index ::
        index[id] < i && concepts[index[id]].id == id
        && forall j | index[id] < j < i :: concepts[j].id != id
      invariant forall j | 0 <= j < i :: concepts[j].id in index
    {
      index := index[concepts[i].id := i];
      i := i + 1;
    }
  }

  lemma ScatterLink(cs: seq<Concept>, n: nat, t: nat, backlinks: seq<seq<string>>, index: map<string, nat>)
    requires n < |cs| && t < |cs[n].links| && ScatteredPart(cs, n, t, backlinks) && IndexHolds(cs, index)
    ensures var target := cs[n].links[t];
      ScatteredPart(cs, n, t + 1,
        if target in index then backlinks[index[target] := backlinks[index[target]] + [cs[n].id]] else backlinks)
  {
    var target := cs[n].links[t];
    assert cs[n].links[..t + 1] == cs[n].links[..t] + [target];
    forall i | 0 <= i < |cs| && Owns(cs, i) && cs[i].id == target ensures target in index && index[target] == i {
      assert cs[i].id in index;
      var j := index[target];
      assert Owns(cs, j) && cs[j].id == cs[i].id;
    }
  }

  lemma ScatterStart(cs: seq<Concept>, n: nat, backlinks: seq<seq<string>>)
    requires n < |cs| && Scattered(cs, n, backlinks)
    ensures ScatteredPart(cs, n, 0, backlinks)
  {
  }

  lemma ScatterEnd(cs: seq<Concept>, n: nat, backlinks: seq<seq<string>>)
    requires n < |cs| && ScatteredPart(cs, n, |cs[n].links|, backlinks)
    ensures Scattered(cs, n + 1, backlinks)
  {
    assert cs[n].links[..|cs[n].links|] == cs[n].links;
    forall i, s | 0 <= i < |cs| ensures s in backlinks[i] <==> Cites(cs, n + 1, i, s) {
      if Cites(cs, n + 1, i, s) {
        var k :| 0 <= k < n + 1 && cs[k].id == s && cs[i].id in cs[k].links;
      }
    }
  }

  method Scatter(concepts: array<Concept>, index: map<string, nat>) returns (backlinks: seq<seq<string>>)
    requires IndexHolds(concepts[..], index)
    ensures Scattered(concepts[..], concepts.Length, backlinks)
  {
    ghost var cs := concepts[..];
    backlinks := seq(concepts.Length, _ => []);
    var n := 0;
    while n < concepts.Length
      invariant 0 <= n <= concepts.Length
      invariant Scattered(cs, n, backlinks)
    {
      var links := concepts[n].links;
      var t := 0;
      ScatterStart(cs, n, backlinks);
      while t < |links|
        invariant 0 <= t <= |links|
        invariant ScatteredPart(cs, n, t, backlinks)
      {
        ScatterLink(cs, n, t, backlinks, index);
        var target := links[t];
        if target in index {
          backlinks := backlinks[index[target] := backlinks[index[target]] + [concepts[n].id]];
        }
        t := t + 1;
      }
      ScatterEnd(cs, n, backlinks);
      n := n + 1;
    }
  }

  // ----- The pass

  // Concept i carries its exact backlinks and its degree.
  ghost predicate Linked(cs: seq<Concept>, i: nat)
    requires i < |cs|
    reads cs[i]
  {
    && StrictlySorted(cs[i].citedBy)
    && (forall s :: s in cs[i].citedBy <==> Cites(cs, |cs|, i, s))
    && cs[i].degree == (|cs[i].links| + |cs[i].citedBy|) % 0x1_0000_0000
  }

  lemma CitedHolds(backlinks: seq<string>)
    ensures var cited := DropRepeats(Sort(backlinks));
      StrictlySorted(cited) && forall s :: s in cited <==> s in backlinks
  {
    SortIsSorted(backlinks);
    SameMultisetSameElements(Sort(backlinks), backlinks);
    DropRepeatsHolds(Sort(backlinks));
  }

  method BuildLinkGraph(concepts: array<Concept>)
    requires DistinctObjects(concepts[..])
    modifies concepts[..]
    ensures concepts[..] == old(concepts[..])
    ensures forall i | 0 <= i < concepts.Length :: Linked(concepts[..], i)
  {
    ghost var cs := concepts[..];
    var index := BuildIndex(concepts);
    var backlinks := Scatter(concepts, index);
    var i := 0;
    while i < concepts.Length
      invariant 0 <= i <= concepts.Length
      invariant concepts[..] == cs
      invariant forall j | 0 <= j < i :: Linked(cs, j)
    {
      var cited := DropRepeats(Sort(backlinks[i]));
      CitedHolds(backlinks[i]);
      concepts[i].citedBy := cited;
      concepts[i].degree := (|concepts[i].links| + |cited|) % U32;
      assert Linked(cs, i);
      i := i + 1;
    }
  }

  // The result depends on ids and links alone, so a second pass changes nothing.
  method LinkTwice(concepts: array<Concept>)
    requires DistinctObjects(concepts[..])
    requires forall i | 0 <= i < concepts.Length :: Linked(concepts[..], i)
    modifies concepts[..]
    ensures concepts[..] == old(concepts[..])
    ensures forall i | 0 <= i < concepts.Length ::
      concepts[i].citedBy == old(concepts[i].citedBy) && concepts[i].degree == old(concepts[i].degree)
  {
    ghost var cs := concepts[..];
    BuildLinkGraph(concepts);
    forall i | 0 <= i < |cs| ensures cs[i].citedBy == old(cs[i].citedBy) && cs[i].degree == old(cs[i].degree) {
      assert old(Linked(cs, i)) && Linked(cs, i);
      StrictlySortedIsUnique(cs[i].citedBy, old(cs[i].citedBy));
    }
  }

  // ----- What the lists mean when ids are distinct

  ghost predicate DistinctIds(cs: seq<Concept>) {
    forall i, j | 0 <= i < j < |cs| :: cs[i].id != cs[j].id
  }

  // The exact inverse of `links`.
  lemma CitedByIsTheInverse(cs: seq<Concept>, i: nat, k: nat)
    requires DistinctIds(cs) && i < |cs| && k < |cs| && Linked(cs, i)
    ensures cs[k].id in cs[i].citedBy <==> cs[i].id in cs[k].links
  {
    if cs[k].id in cs[i].citedBy {
      assert Cites(cs, |cs|, i, cs[k].id);
      var m :| 0 <= m < |cs| && cs[m].id == cs[k].id && cs[i].id in cs[m].links;
    }
  }

  ghost predicate Exists(cs: seq<Concept>, id: string) {
    exists i :: 0 <= i < |cs| && cs[i].id == id
  }

  // Links name existing concepts, each once.
  ghost predicate Resolved(cs: seq<Concept>) {
    forall k | 0 <= k < |cs| ::
      Distinct(cs[k].links) && forall t | t in cs[k].links :: Exists(cs, t)
  }

  // How many of the first n concepts have an id in the list.
  function Hits(cs: seq<Concept>, list: seq<string>, n: nat): nat
    requires n <= |cs|
  {
    if n == 0 then 0 else Hits(cs, list, n - 1) + if cs[n - 1].id in list then 1 else 0
  }

  lemma {:induction false} HitsSnoc(cs: seq<Concept>, list: seq<string>, x: string, n: nat)
    requires n <= |cs| && DistinctIds(cs) && x !in list
    ensures Hits(cs, list + [x], n) == Hits(cs, list, n) + if exists i :: 0 <= i < n && cs[i].id == x then 1 else 0
  {
    if n > 0 {
      HitsSnoc(cs, list, x, n - 1);
      if cs[n - 1].id == x {
        assert !exists i :: 0 <= i < n - 1 && cs[i].id == x;
      }
    }
  }

  lemma {:induction false} HitsOfNone(cs: seq<Concept>, n: nat)
    requires n <= |cs|
    ensures Hits(cs, [], n) == 0
  {
    if n > 0 { HitsOfNone(cs, n - 1); }
  }

  // A list of distinct existing ids is hit once for each.
  lemma {:induction false} HitsCountTheList(cs: seq<Concept>, list: seq<string>)
    requires DistinctIds(cs) && Distinct(list)
    requires forall t | t in list :: Exists(cs, t)
    ensures Hits(cs, list, |cs|) == |list|
    decreases |list|
  {
    if list == [] {
      HitsOfNone(cs, |cs|);
    } else {
      var front, x := list[..|list| - 1], list[|list| - 1];
      assert list == front + [x];
      assert x in list && x !in front && Exists(cs, x);
      assert forall t | t in front :: t in list;
      HitsCountTheList(cs, front);
      HitsSnoc(cs, front, x, |cs|);
    }
  }

  // Out-links of the first n concepts, and citations of the first m by the first n.
  function OutSum(cs: seq<Concept>, n: nat): nat
    requires n <= |cs|
  {
    if n == 0 then 0 else OutSum(cs, n - 1) + |cs[n - 1].links|
  }

  function InSum(cs: seq<Concept>, n: nat): nat
    requires n <= |cs|
    reads cs
  {
    if n == 0 then 0 else InSum(cs, n - 1) + |cs[n - 1].citedBy|
  }

  // Pairs (k, i) with k below n and i below m where concept k links to concept i.
  function Pairs(cs: seq<Concept>, n: nat, m: nat): nat
    requires n <= |cs| && m <= |cs|
  {
    if n == 0 then 0 else Pairs(cs, n - 1, m) + Hits(cs, cs[n - 1].links, m)
  }

  lemma {:induction false} PairsByRow(cs: seq<Concept>, n: nat)
    requires n <= |cs| && DistinctIds(cs) && Resolved(cs)
    ensures Pairs(cs, n, |cs|) == OutSum(cs, n)
  {
    if n > 0 {
      PairsByRow(cs, n - 1);
      HitsCountTheList(cs, cs[n - 1].links);
    }
  }

  // One more column adds the concepts that link to it.
  lemma {:induction false} PairsColumn(cs: seq<Concept>, n: nat, m: nat, citing: seq<string>)
    requires n <= |cs| && m < |cs|
    requires forall k | 0 <= k < |cs| :: cs[k].id in citing <==> cs[m].id in cs[k].links
    ensures Pairs(cs, n, m + 1) == Pairs(cs, n, m) + Hits(cs, citing, n)
  {
    if n > 0 { PairsColumn(cs, n - 1, m, citing); }
  }

  lemma {:induction false} PairsByColumn(cs: seq<Concept>, m: nat)
    requires m <= |cs| && DistinctIds(cs) && forall i | 0 <= i < |cs| :: Linked(cs, i)
    ensures Pairs(cs, |cs|, m) == InSum(cs, m)
  {
    if m == 0 {
      NoPairs(cs, |cs|);
    } else {
      PairsByColumn(cs, m - 1);
      var cited := cs[m - 1].citedBy;
      assert Linked(cs, m - 1);
      forall k | 0 <= k < |cs| ensures cs[k].id in cited <==> cs[m - 1].id in cs[k].links {
        CitedByIsTheInverse(cs, m - 1, k);
      }
      PairsColumn(cs, |cs|, m - 1, cited);
      forall t | t in cited ensures Exists(cs, t) {
        assert Cites(cs, |cs|, m - 1, t);
      }
      HitsCountTheList(cs, cited);
    }
  }

  lemma {:induction false} NoPairs(cs: seq<Concept>, n: nat)
    requires n <= |cs|
    ensures Pairs(cs, n, 0) == 0
  {
    if n > 0 { NoPairs(cs, n - 1); }
  }

  function DegreeSum(cs: seq<Concept>, n: nat): nat
    requires n <= |cs|
    reads cs
  {
    if n == 0 then 0 else DegreeSum(cs, n - 1) + cs[n - 1].degree
  }

  lemma {:induction false} DegreesAddUp(cs: seq<Concept>, n: nat)
    requires n <= |cs| && forall i | 0 <= i < |cs| :: Linked(cs, i) && |cs[i].links| + |cs[i].citedBy| < U32
    ensures DegreeSum(cs, n) == OutSum(cs, n) + InSum(cs, n)
  {
    if n > 0 {
      DegreesAddUp(cs, n - 1);
      assert Linked(cs, n - 1);
    }
  }

  // Every link is counted once where it starts and once where it ends. (A degree is a
  // 32-bit number; the sum is stated where none of them wraps.)
  lemma DegreesSumToTwiceTheLinks(cs: seq<Concept>)
    requires DistinctIds(cs) && Resolved(cs)
    requires forall i | 0 <= i < |cs| :: Linked(cs, i) && |cs[i].links| + |cs[i].citedBy| < U32
    ensures DegreeSum(cs, |cs|) == 2 * OutSum(cs, |cs|)
  {
    PairsByRow(cs, |cs|);
    PairsByColumn(cs, |cs|);
    DegreesAddUp(cs, |cs|);
  }
}
