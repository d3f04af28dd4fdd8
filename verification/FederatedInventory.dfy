/** The federated inventory: matches are collected per bundle, at most one more than the
    limit, and merged round-robin with an early exit. */
module FederatedInventory {
  import opened Options
  import opened StringOrder

  datatype Concept = Concept(id: string, kind: string, tags: seq<string>)

  // The normalised filters; `lower` is Unicode lower-casing.
  datatype Filter = Filter(prefix: Option<string>, kind: Option<string>, tag: Option<string>, lower: string -> string)

  datatype Bundle = Bundle(bundleId: string, concepts: seq<Concept>)

  // One row of the page: a concept and the bundle it came from.
  datatype Item = Item(bundleId: string, conceptId: string)

  predicate Matches(c: Concept, f: Filter) {
    && (f.prefix.Some? ==> f.prefix.value <= f.lower(c.id))
    && (f.kind.Some? ==> f.lower(c.kind) == f.kind.value)
    && (f.tag.Some? ==> exists t :: t in c.tags && f.lower(t) == f.tag.value)
  }

  // Every match of one bundle, in bundle order.
  function AllMatches(bundleId: string, concepts: seq<Concept>, f: Filter): seq<Item> {
    if concepts == [] then []
    else
      var last := concepts[|concepts| - 1];
      AllMatches(bundleId, concepts[..|concepts| - 1], f)
      + if Matches(last, f) then [Item(bundleId, last.id)] else []
  }

  // Every filter that is set holds: the lower-cased id goes on from the prefix, the lower-cased type is
  // the one asked for, and some tag lower-cases to the one asked for.
  ghost predicate Passes(c: Concept, f: Filter) {
    && (f.prefix == None || exists rest :: f.lower(c.id) == f.prefix.value + rest)
    && (f.kind == None || f.kind == Some(f.lower(c.kind)))
    && (f.tag == None || exists k :: 0 <= k < |c.tags| && f.tag == Some(f.lower(c.tags[k])))
  }

  ghost function Passing(f: Filter): Concept -> bool {
    (c: Concept) => Passes(c, f)
  }

  lemma PassesIff(c: Concept, f: Filter)
    ensures Matches(c, f) <==> Passes(c, f)
  {
    if f.prefix.Some? {
      var (prefix, id) := (f.prefix.value, f.lower(c.id));
      if prefix <= id { assert id == prefix + id[|prefix|..]; }
    }
  }

  // The rows of one bundle: a row for every concept that passes, in bundle order.
  ghost predicate RowsOf(bundle: Bundle, f: Filter, rows: seq<Item>) {
    exists kept :: Keeps(bundle.concepts, kept, Passing(f)) && ListsConcepts(rows, bundle.bundleId, kept)
  }

  ghost predicate ListsConcepts(rows: seq<Item>, bundleId: string, concepts: seq<Concept>) {
    |rows| == |concepts| && forall k | 0 <= k < |rows| :: rows[k] == Item(bundleId, concepts[k].id)
  }

  lemma {:induction false} MatchesAreKept(bundleId: string, concepts: seq<Concept>, f: Filter)
    returns (kept: seq<Concept>)
    ensures Keeps(concepts, kept, Passing(f)) && ListsConcepts(AllMatches(bundleId, concepts, f), bundleId, kept)
  {
    if concepts == [] {
      KeepsNothing(Passing(f));
      kept := [];
    } else {
      var (front, last) := (concepts[..|concepts| - 1], concepts[|concepts| - 1]);
      assert concepts == front + [last];
      PassesIff(last, f);
      var before := MatchesAreKept(bundleId, front, f);
      KeepsOneMoreBehind(front, before, last, Passing(f));
      kept := if Matches(last, f) then before + [last] else before;
    }
  }

  function MatchLists(bundles: seq<Bundle>, f: Filter): seq<seq<Item>> {
    seq(|bundles|, i requires 0 <= i < |bundles| => AllMatches(bundles[i].bundleId, bundles[i].concepts, f))
  }

  // ----- The uncapped round-robin

  // The index-th item of every list that has one, in list order.
  function Row<T>(lists: seq<seq<T>>, index: nat): seq<T> {
    if lists == [] then []
    else
      var last := lists[|lists| - 1];
      Row(lists[..|lists| - 1], index) + if index < |last| then [last[index]] else []
  }

  // The first n rows, one after the other.
  function Rows<T>(lists: seq<seq<T>>, n: nat): seq<T> {
    if n == 0 then [] else Rows(lists, n - 1) + Row(lists, n - 1)
  }

  function Longest<T>(lists: seq<seq<T>>): nat {
    if lists == [] then 0
    else
      var rest := Longest(lists[..|lists| - 1]);
      var n := |lists[|lists| - 1]|;
      if n > rest then n else rest
  }

  // All items, round-robin.
  function RoundRobin<T>(lists: seq<seq<T>>): seq<T> {
    Rows(lists, Longest(lists))
  }

  function Total<T>(lists: seq<seq<T>>): nat {
    if lists == [] then 0 else Total(lists[..|lists| - 1]) + |lists[|lists| - 1]|
  }

  function AllItems<T>(lists: seq<seq<T>>): multiset<T> {
    if lists == [] then multiset{} else AllItems(lists[..|lists| - 1]) + multiset(lists[|lists| - 1])
  }

  // ----- The order of the round-robin

  // The place of an item: its index in the list of that number.
  datatype Place = Place(index: nat, list: nat)

  // First items first, and of equal index those of the earlier list.
  ghost predicate Before(a: Place, b: Place) {
    a.index < b.index || (a.index == b.index && a.list < b.list)
  }

  ghost predicate IsPlace<T>(lists: seq<seq<T>>, p: Place) {
    p.list < |lists| && p.index < |lists[p.list]|
  }

  // The places with an index from lo below hi, each once and in order, and the items that stand there.
  ghost predicate ReadsRows<T>(lists: seq<seq<T>>, items: seq<T>, at: seq<Place>, lo: nat, hi: nat) {
    && |items| == |at|
    && (forall k | 0 <= k < |at| ::
        IsPlace(lists, at[k]) && lo <= at[k].index < hi && items[k] == lists[at[k].list][at[k].index])
    && (forall j, k | 0 <= j < k < |at| :: Before(at[j], at[k]))
    && (forall p | IsPlace(lists, p) && lo <= p.index < hi :: p in at)
  }

  // The items of all lists, each place once, in the order of the places.
  ghost predicate IsRoundRobin<T>(lists: seq<seq<T>>, items: seq<T>) {
    exists at, hi :: ReadsRows(lists, items, at, 0, hi) && forall p | IsPlace(lists, p) :: p.index < hi
  }

  lemma SameRowReads<T>(lists: seq<seq<T>>, list: seq<T>, index: nat, row: seq<T>, at: seq<Place>)
    requires ReadsRows(lists, row, at, index, index + 1) && index >= |list|
    ensures ReadsRows(lists + [list], row, at, index, index + 1)
  {
    var all := lists + [list];
    forall k | 0 <= k < |at| ensures IsPlace(all, at[k]) && row[k] == all[at[k].list][at[k].index] {
      assert IsPlace(lists, at[k]) && row[k] == lists[at[k].list][at[k].index];
    }
    forall p | IsPlace(all, p) && index <= p.index < index + 1 ensures p in at {
      assert IsPlace(lists, p);
    }
  }

  lemma MoreRowReads<T>(lists: seq<seq<T>>, list: seq<T>, index: nat, row: seq<T>, at: seq<Place>)
    requires ReadsRows(lists, row, at, index, index + 1) && index < |list|
    ensures ReadsRows(lists + [list], row + [list[index]], at + [Place(index, |lists|)], index, index + 1)
  {
    var (all, more) := (lists + [list], at + [Place(index, |lists|)]);
    forall k | 0 <= k < |at| ensures IsPlace(all, at[k]) && row[k] == all[at[k].list][at[k].index] {
      assert IsPlace(lists, at[k]) && row[k] == lists[at[k].list][at[k].index];
    }
    forall p | IsPlace(all, p) && index <= p.index < index + 1 ensures p in more {
      assert p == more[|at|] || IsPlace(lists, p);
    }
  }

  lemma {:induction false} RowReads<T>(lists: seq<seq<T>>, index: nat) returns (at: seq<Place>)
    ensures ReadsRows(lists, Row(lists, index), at, index, index + 1)
  {
    if lists == [] {
      at := [];
    } else {
      var (front, last) := (lists[..|lists| - 1], lists[|lists| - 1]);
      assert lists == front + [last];
      at := RowReads(front, index);
      if index < |last| {
        MoreRowReads(front, last, index, Row(front, index), at);
        at := at + [Place(index, |front|)];
      } else {
        SameRowReads(front, last, index, Row(front, index), at);
      }
    }
  }

  lemma RowsJoin<T>(lists: seq<seq<T>>, a: seq<T>, b: seq<T>, atA: seq<Place>, atB: seq<Place>,
                    lo: nat, mid: nat, hi: nat)
    requires lo <= mid <= hi && ReadsRows(lists, a, atA, lo, mid) && ReadsRows(lists, b, atB, mid, hi)
    ensures ReadsRows(lists, a + b, atA + atB, lo, hi)
  {
  }

  lemma {:induction false} RowsRead<T>(lists: seq<seq<T>>, n: nat) returns (at: seq<Place>)
    ensures ReadsRows(lists, Rows(lists, n), at, 0, n)
  {
    if n == 0 {
      at := [];
    } else {
      var before := RowsRead(lists, n - 1);
      var row := RowReads(lists, n - 1);
      RowsJoin(lists, Rows(lists, n - 1), Row(lists, n - 1), before, row, 0, n - 1, n);
      at := before + row;
    }
  }

  lemma {:induction false} LongestBounds<T>(lists: seq<seq<T>>)
    ensures forall p | IsPlace(lists, p) :: p.index < Longest(lists)
  {
    if lists != [] {
      var front := lists[..|lists| - 1];
      LongestBounds(front);
      forall p | IsPlace(lists, p) ensures p.index < Longest(lists) {
        assert p.list < |front| ==> IsPlace(front, p);
      }
    }
  }

  // The rows one after the other are the items in that order.
  lemma RoundRobinOrder<T>(lists: seq<seq<T>>)
    ensures IsRoundRobin(lists, RoundRobin(lists))
  {
    var at := RowsRead(lists, Longest(lists));
    LongestBounds(lists);
  }

  // ----- Nothing is lost or repeated by the merge

  lemma {:induction false} RowSnoc<T>(lists: seq<seq<T>>, list: seq<T>, index: nat)
    ensures Row(lists + [list], index) == Row(lists, index) + if index < |list| then [list[index]] else []
  {
    assert (lists + [list])[..|lists|] == lists;
  }

  // The items of `both` are those of a and those of b.
  ghost predicate Shuffle<T>(both: seq<T>, a: seq<T>, b: seq<T>) {
    multiset(both) == multiset(a) + multiset(b)
  }

  // Every row of `all` is the row of `lists` with the item of one more list behind it.
  ghost predicate RowsExtend<T>(all: seq<seq<T>>, lists: seq<seq<T>>, list: seq<T>) {
    forall k: nat :: Row(all, k) == Row(lists, k) + if k < |list| then [list[k]] else []
  }

  lemma RowsMultiset<T>(all: seq<seq<T>>, lists: seq<seq<T>>, list: seq<T>, n: nat)
    requires RowsExtend(all, lists, list)
    ensures Shuffle(Rows(all, n), Rows(lists, n), Prefix(list, n))
  {
    assert Prefix(list, 0) == [];
    for k := 0 to n
      invariant Shuffle(Rows(all, k), Rows(lists, k), Prefix(list, k))
    {
      ShuffleStep(all, lists, list, k);
    }
  }

  lemma ShuffleStep<T>(all: seq<seq<T>>, lists: seq<seq<T>>, list: seq<T>, n: nat)
    requires Shuffle(Rows(all, n), Rows(lists, n), Prefix(list, n))
    requires Row(all, n) == Row(lists, n) + if n < |list| then [list[n]] else []
    ensures Shuffle(Rows(all, n + 1), Rows(lists, n + 1), Prefix(list, n + 1))
  {
    PrefixSnoc(list, n);
    RegroupMultiset(Rows(all, n), Rows(lists, n), Prefix(list, n), Row(lists, n), if n < |list| then [list[n]] else [],
                    Rows(all, n + 1), Rows(lists, n + 1), Prefix(list, n + 1));
  }

  lemma RegroupMultiset<T>(both: seq<T>, a: seq<T>, b: seq<T>, c: seq<T>, d: seq<T>,
                           both': seq<T>, a': seq<T>, b': seq<T>)
    requires Shuffle(both, a, b)
    requires both' == both + (c + d) && a' == a + c && b' == b + d
    ensures Shuffle(both', a', b')
  {
  }

  lemma PrefixSnoc<T>(list: seq<T>, n: nat)
    ensures Prefix(list, n + 1) == Prefix(list, n) + if n < |list| then [list[n]] else []
  {
    if n < |list| { assert list[..n + 1] == list[..n] + [list[n]]; }
  }

  lemma {:induction false} RowsOfNone<T>(n: nat)
    ensures Rows<T>([], n) == []
  {
    if n > 0 { RowsOfNone<T>(n - 1); }
  }

  lemma {:induction false} RowsHoldAll<T>(lists: seq<seq<T>>, n: nat)
    requires n >= Longest(lists)
    ensures multiset(Rows(lists, n)) == AllItems(lists)
  {
    if lists == [] {
      RowsOfNone<T>(n);
    } else {
      var front, last := lists[..|lists| - 1], lists[|lists| - 1];
      assert lists == front + [last];
      assert RowsExtend(lists, front, last) by {
        forall k: nat ensures Row(lists, k) == Row(front, k) + if k < |last| then [last[k]] else [] {
          RowSnoc(front, last, k);
        }
      }
      RowsMultiset(lists, front, last, n);
      RowsHoldAll(front, n);
    }
  }

  lemma {:induction false} AllItemsCount<T>(lists: seq<seq<T>>)
    ensures |AllItems(lists)| == Total(lists)
  {
    if lists != [] { AllItemsCount(lists[..|lists| - 1]); }
  }

  // The round-robin holds every item of every list, exactly as often.
  lemma RoundRobinIsAMerge<T>(lists: seq<seq<T>>)
    ensures multiset(RoundRobin(lists)) == AllItems(lists)
    ensures |RoundRobin(lists)| == Total(lists)
  {
    RowsHoldAll(lists, Longest(lists));
    AllItemsCount(lists);
    assert |RoundRobin(lists)| == |multiset(RoundRobin(lists))|;
  }

  // ----- Capping does not change the first items

  // At most the first n items.
  function Prefix<T>(s: seq<T>, n: nat): seq<T> {
    if |s| <= n then s else s[..n]
  }

  function CapAll<T>(lists: seq<seq<T>>, cap: nat): seq<seq<T>> {
    seq(|lists|, i requires 0 <= i < |lists| => Prefix(lists[i], cap))
  }

  lemma {:induction false} CappedRow<T>(lists: seq<seq<T>>, cap: nat, index: nat)
    requires index < cap
    ensures Row(CapAll(lists, cap), index) == Row(lists, index)
  {
    if lists != [] {
      var front := lists[..|lists| - 1];
      assert CapAll(lists, cap)[..|lists| - 1] == CapAll(front, cap);
      CappedRow(front, cap, index);
    }
  }

  lemma {:induction false} SameRows<T>(a: seq<seq<T>>, b: seq<seq<T>>, n: nat)
    requires forall k: nat | k < n :: Row(a, k) == Row(b, k)
    ensures Rows(a, n) == Rows(b, n)
  {
    if n > 0 { SameRows(a, b, n - 1); }
  }

  lemma CappedRows<T>(lists: seq<seq<T>>, cap: nat, n: nat)
    requires n <= cap
    ensures Rows(CapAll(lists, cap), n) == Rows(lists, n)
  {
    forall k: nat | k < n ensures Row(CapAll(lists, cap), k) == Row(lists, k) { CappedRow(lists, cap, k); }
    SameRows(CapAll(lists, cap), lists, n);
  }

  lemma {:induction false} RowsMonotone<T>(lists: seq<seq<T>>, m: nat, n: nat)
    requires m <= n
    ensures Rows(lists, m) <= Rows(lists, n)
    decreases n
  {
    if m < n { RowsMonotone(lists, m, n - 1); }
  }

  lemma {:induction false} RowNonEmpty<T>(lists: seq<seq<T>>, index: nat)
    ensures Row(lists, index) != [] <==> index < Longest(lists)
  {
    if lists != [] { RowNonEmpty(lists[..|lists| - 1], index); }
  }

  lemma {:induction false} RowsLength<T>(lists: seq<seq<T>>, n: nat)
    requires n <= Longest(lists)
    ensures |Rows(lists, n)| >= n
  {
    if n > 0 {
      RowsLength(lists, n - 1);
      RowNonEmpty(lists, n - 1);
    }
  }

  // Rows beyond the longest list add nothing.
  lemma RowsEnd<T>(lists: seq<seq<T>>, n: nat)
    requires n >= Longest(lists)
    ensures Rows(lists, n) == RoundRobin(lists)
  {
    for k := Longest(lists) to n
      invariant Rows(lists, k) == RoundRobin(lists)
    {
      RowNonEmpty(lists, k);
    }
  }

  // The first n rows and the whole round-robin agree on their first n items.
  lemma RowsHoldThePrefix<T>(lists: seq<seq<T>>, n: nat)
    ensures Rows(lists, n) <= RoundRobin(lists)
    ensures |Rows(lists, n)| >= n || Rows(lists, n) == RoundRobin(lists)
  {
    if n >= Longest(lists) {
      RowsEnd(lists, n);
    } else {
      RowsMonotone(lists, n, Longest(lists));
      RowsLength(lists, n);
    }
  }

  // Capping every list at n keeps the first n items of the round-robin.
  lemma CappedPrefix<T>(lists: seq<seq<T>>, n: nat)
    ensures Prefix(RoundRobin(CapAll(lists, n)), n) == Prefix(RoundRobin(lists), n)
  {
    CappedRows(lists, n, n);
    RowsHoldThePrefix(lists, n);
    RowsHoldThePrefix(CapAll(lists, n), n);
  }

  // Empty lists take no part.
  function NonEmpty<T>(lists: seq<seq<T>>): seq<seq<T>> {
    if lists == [] then []
    else
      var last := lists[|lists| - 1];
      NonEmpty(lists[..|lists| - 1]) + if last == [] then [] else [last]
  }

  lemma EmptyListsIdle<T>(lists: seq<seq<T>>, n: nat)
    ensures Rows(NonEmpty(lists), n) == Rows(lists, n)
  {
    forall k: nat | k < n ensures Row(NonEmpty(lists), k) == Row(lists, k) { EmptyListIdle(lists, k); }
    SameRows(NonEmpty(lists), lists, n);
  }

  lemma {:induction false} EmptyListIdle<T>(lists: seq<seq<T>>, index: nat)
    ensures Row(NonEmpty(lists), index) == Row(lists, index)
  {
    if lists != [] {
      var front, last := lists[..|lists| - 1], lists[|lists| - 1];
      EmptyListIdle(front, index);
      RowSnoc(NonEmpty(front), last, index);
      if last == [] {
        assert NonEmpty(lists) == NonEmpty(front);
        assert Row(lists, index) == Row(front, index);
      }
    }
  }

  lemma {:induction false} NonEmptyLongest<T>(lists: seq<seq<T>>)
    ensures Longest(NonEmpty(lists)) == Longest(lists)
  {
    if lists != [] {
      var front, last := lists[..|lists| - 1], lists[|lists| - 1];
      NonEmptyLongest(front);
      if last == [] {
        assert NonEmpty(lists) == NonEmpty(front);
      } else {
        assert (NonEmpty(front) + [last])[..|NonEmpty(front)|] == NonEmpty(front);
      }
    }
  }

  // ----- The loops

  // One bundle's matches, stopping once there are more than `limit`.
  method CollectMatches(bundle: Bundle, f: Filter, limit: nat) returns (found: seq<Item>)
    ensures found == Prefix(AllMatches(bundle.bundleId, bundle.concepts, f), limit + 1)
  {
    found := [];
    var concepts := bundle.concepts;
    var i := 0;
    while i < |concepts|
      invariant 0 <= i <= |concepts|
      invariant found == AllMatches(bundle.bundleId, concepts[..i], f) && |found| <= limit
    {
      assert concepts[..i + 1][..i] == concepts[..i];
      if Matches(concepts[i], f) {
        found := found + [Item(bundle.bundleId, concepts[i].id)];
        if |found| > limit {
          MatchesGrow(bundle.bundleId, concepts, f, i + 1);
          return;
        }
      }
      i := i + 1;
    }
    assert concepts[..i] == concepts;
  }

  lemma {:induction false} MatchesGrow(bundleId: string, concepts: seq<Concept>, f: Filter, i: nat)
    requires i <= |concepts|
    ensures AllMatches(bundleId, concepts[..i], f) <= AllMatches(bundleId, concepts, f)
    decreases |concepts|
  {
    if i < |concepts| {
      var front := concepts[..|concepts| - 1];
      assert front[..i] == concepts[..i];
      MatchesGrow(bundleId, front, f, i);
    } else {
      assert concepts[..i] == concepts;
    }
  }

  method CollectAll(bundles: seq<Bundle>, f: Filter, limit: nat) returns (byBundle: seq<seq<Item>>)
    ensures byBundle == NonEmpty(CapAll(MatchLists(bundles, f), limit + 1))
  {
    byBundle := [];
    ghost var lists := CapAll(MatchLists(bundles, f), limit + 1);
    var i := 0;
    while i < |bundles|
      invariant 0 <= i <= |bundles|
      invariant byBundle == NonEmpty(lists[..i])
    {
      var found := CollectMatches(bundles[i], f, limit);
      assert found == lists[i];
      assert lists[..i + 1][..i] == lists[..i];
      if found != [] { byBundle := byBundle + [found]; }
      i := i + 1;
    }
    assert lists[..i] == lists;
  }

  // One row, stopping as soon as there are more than `limit` results.
  method TakeRow<T>(lists: seq<seq<T>>, index: nat, limit: nat, before: seq<T>) returns (results: seq<T>, found: bool)
    requires |before| <= limit
    ensures results == Prefix(before + Row(lists, index), limit + 1)
    ensures |results| <= limit ==> (found <==> Row(lists, index) != [])
  {
    results, found := before, false;
    var b := 0;
    while b < |lists|
      invariant 0 <= b <= |lists|
      invariant results == before + Row(lists[..b], index) && |results| <= limit
      invariant found <==> Row(lists[..b], index) != []
    {
      assert lists[..b + 1] == lists[..b] + [lists[b]];
      RowSnoc(lists[..b], lists[b], index);
      RowGrows(lists, index, b + 1);
      if index < |lists[b]| {
        results := results + [lists[b][index]];
        found := true;
        if |results| > limit {
          GrownPrefix(before, Row(lists[..b + 1], index), Row(lists, index));
          return;
        }
      }
      b := b + 1;
    }
    assert lists[..b] == lists;
  }

  lemma GrownPrefix<T>(before: seq<T>, part: seq<T>, whole: seq<T>)
    requires part <= whole
    ensures Prefix(before + whole, |before| + |part|) == before + part
  {
  }

  lemma {:induction false} RowGrows<T>(lists: seq<seq<T>>, index: nat, b: nat)
    requires b <= |lists|
    ensures Row(lists[..b], index) <= Row(lists, index)
    decreases |lists|
  {
    if b < |lists| {
      var front := lists[..|lists| - 1];
      assert front[..b] == lists[..b];
      RowGrows(front, index, b);
    } else {
      assert lists[..b] == lists;
    }
  }

  method Merge<T>(lists: seq<seq<T>>, limit: nat) returns (results: seq<T>)
    ensures results == Prefix(RoundRobin(lists), limit + 1)
  {
    results := [];
    var index := 0;
    while |results| <= limit
      invariant results == Rows(lists, index) && |results| <= limit
      invariant index <= Longest(lists)
      decreases Longest(lists) - index
    {
      var found;
      results, found := TakeRow(lists, index, limit, results);
      RowNonEmpty(lists, index);
      if |results| > limit {
        RowsHoldThePrefix(lists, index + 1);
        LongerPrefix(Rows(lists, index + 1), RoundRobin(lists), limit + 1);
        return;
      }
      if !found {
        RowsEnd(lists, index);
        return;
      }
      index := index + 1;
    }
  }

  lemma LongerPrefix<T>(s: seq<T>, t: seq<T>, n: nat)
    requires s <= t && |s| >= n
    ensures Prefix(t, n) == Prefix(s, n)
  {
  }

  const MAX_QUERY_LIMIT := 100

  datatype Page = Page(results: seq<Item>, truncated: bool)

  // The first items of all, and whether there are more.
  ghost predicate IsPage(page: Page, all: seq<Item>, limit: nat) {
    && page.results == (if |all| <= limit then all else all[..limit])
    && (page.truncated <==> |all| > limit)
  }

  ghost predicate RowsOfEach(bundles: seq<Bundle>, f: Filter, lists: seq<seq<Item>>) {
    |lists| == |bundles| && forall k | 0 <= k < |bundles| :: RowsOf(bundles[k], f, lists[k])
  }

  lemma MatchListsAreRows(bundles: seq<Bundle>, f: Filter)
    ensures RowsOfEach(bundles, f, MatchLists(bundles, f))
  {
    forall k | 0 <= k < |bundles| ensures RowsOf(bundles[k], f, MatchLists(bundles, f)[k]) {
      var kept := MatchesAreKept(bundles[k].bundleId, bundles[k].concepts, f);
    }
  }

  // The page holds exactly the first `limit` items of the uncapped round-robin over all
  // matches, and is truncated exactly when there are more matches than that.
  method Inventory(bundles: seq<Bundle>, f: Filter, limit: nat) returns (page: Option<Page>)
    ensures page.None? <==> limit == 0 || limit > 100
    ensures page.Some? ==>
      exists lists, all :: RowsOfEach(bundles, f, lists) && IsRoundRobin(lists, all) && IsPage(page.value, all, limit)
  {
    if limit == 0 || limit > MAX_QUERY_LIMIT { return None; }
    var byBundle := CollectAll(bundles, f, limit);
    var results := Merge(byBundle, limit);
    ghost var lists := MatchLists(bundles, f);
    FirstOfTheMerge(lists, results, limit);
    var truncated := |results| > limit;
    results := Prefix(results, limit);
    page := Some(Page(results, truncated));
    MatchListsAreRows(bundles, f);
    RoundRobinOrder(lists);
    RoundRobinIsAMerge(lists);
    assert IsPage(page.value, RoundRobin(lists), limit);
  }

  lemma FirstOfTheMerge<T>(lists: seq<seq<T>>, results: seq<T>, limit: nat)
    requires results == Prefix(RoundRobin(NonEmpty(CapAll(lists, limit + 1))), limit + 1)
    ensures Prefix(results, limit) == Prefix(RoundRobin(lists), limit)
    ensures |results| > limit <==> Total(lists) > limit
  {
    CappedNonEmptyPrefix(lists, limit + 1);
    RoundRobinIsAMerge(lists);
    TruncatedPrefix(RoundRobin(lists), results, limit);
  }

  lemma TruncatedPrefix<T>(all: seq<T>, first: seq<T>, limit: nat)
    requires first == Prefix(all, limit + 1)
    ensures Prefix(first, limit) == Prefix(all, limit)
    ensures |first| > limit <==> |all| > limit
  {
  }

  lemma CappedNonEmptyPrefix<T>(lists: seq<seq<T>>, n: nat)
    ensures Prefix(RoundRobin(NonEmpty(CapAll(lists, n))), n) == Prefix(RoundRobin(lists), n)
  {
    var capped := CapAll(lists, n);
    NonEmptyLongest(capped);
    EmptyListsIdle(capped, Longest(capped));
    CappedPrefix(lists, n);
  }
}
