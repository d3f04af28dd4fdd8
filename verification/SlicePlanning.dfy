/** The plan that divides a bundle into slices for delegated runs: concepts are grouped by
    key, keys and ids are sorted, caps cut both, and what a cap cuts off is named. */
module SlicePlanning {
  import opened StringOrder

  datatype By = Folder | ByType | Tag | Neighbourhood

  datatype Concept = Concept(
    id: string, title: string, conceptType: string, tags: seq<string>, links: seq<string>, citedBy: seq<string>)

  datatype Limits = Limits(maxSlices: nat, maxConceptsPerSlice: nat)

  datatype Slice = Slice(key: string, title: string, conceptIds: seq<string>, excludedConceptIds: seq<string>)

  datatype Exclusion =
    | SlicesOverWidth(droppedKeys: seq<string>, limit: nat)
    | ConceptsOverSliceCap(sliceKey: string, dropped: nat, limit: nat)
    | Unslicable(conceptIds: seq<string>, mode: By)

  // A group under construction; `ids` holds no id twice.
  datatype Group = Group(title: string, ids: seq<string>)

  // White space and line ends, as `trim` takes them.
  predicate IsSpace(c: char) {
    '\t' <= c <= '\r' || c == ' ' || c == '\U{A0}' || c == '\U{1680}' || '\U{2000}' <= c <= '\U{200A}'
    || c == '\U{2028}' || c == '\U{2029}' || c == '\U{202F}' || c == '\U{205F}' || c == '\U{3000}' || c == '\U{FEFF}'
  }

  predicate Blank(s: string) {
    forall k | 0 <= k < |s| :: IsSpace(s[k])
  }

  ghost predicate SaysSomething(s: string) {
    exists k :: 0 <= k < |s| && !IsWhite(s[k])
  }

  // The code points that `trim` takes.
  ghost predicate IsWhite(c: char) {
    var n := c as int;
    9 <= n <= 13 || n == 0x20 || n == 0xA0 || n == 0x1680 || 0x2000 <= n <= 0x200A || n == 0x2028 || n == 0x2029
    || n == 0x202F || n == 0x205F || n == 0x3000 || n == 0xFEFF
  }

  // The part before the last slash.
  function FolderOf(id: string): string {
    if id == "" then ""
    else if id[|id| - 1] == '/' then id[..|id| - 1]
    else FolderOf(id[..|id| - 1])
  }

  // The id without its last segment and the slash before that; an id of one segment lies at the root.
  ghost predicate LiesIn(id: string, folder: string) {
    if '/' in id then exists name :: '/' !in name && id == folder + ['/'] + name else folder == []
  }

  lemma {:induction false} FolderHolds(id: string)
    ensures LiesIn(id, FolderOf(id))
    ensures '/' !in id ==> FolderOf(id) == []
  {
    if id != [] {
      var (front, last) := (id[..|id| - 1], id[|id| - 1]);
      assert id == front + [last];
      if last == '/' {
        assert id == FolderOf(id) + ['/'] + [];
      } else {
        FolderHolds(front);
        if '/' in front {
          var name :| '/' !in name && front == FolderOf(front) + ['/'] + name;
          assert id == FolderOf(id) + ['/'] + (name + [last]);
        }
      }
    }
  }

  lemma BehindTheSlash(id: string, folder: string, name: string, k: nat)
    requires id == folder + ['/'] + name
    ensures |folder| < k < |id| ==> id[k] in name
  {
    if |folder| < k < |id| { assert id[k] == name[k - |folder| - 1]; }
  }

  lemma FolderIsUnique(id: string, a: string, b: string)
    requires LiesIn(id, a) && LiesIn(id, b)
    ensures a == b
  {
    if '/' in id {
      var x :| '/' !in x && id == a + ['/'] + x;
      var y :| '/' !in y && id == b + ['/'] + y;
      assert id[|a|] == '/' && id[|b|] == '/';
      BehindTheSlash(id, a, x, |b|);
      BehindTheSlash(id, b, y, |a|);
      assert a == id[..|a|] && b == id[..|b|];
    }
  }

  // ----- What a group is to hold

  // The keys a concept is filed under.
  ghost predicate FiledUnder(mode: By, c: Concept, key: string) {
    match mode
    case Folder => LiesIn(c.id, key)
    case ByType => key == c.conceptType && SaysSomething(key)
    case Tag => key in c.tags && SaysSomething(key)
    case Neighbourhood => key == c.id
  }

  ghost predicate Near(c: Concept, id: string) {
    id == c.id || id in c.links || id in c.citedBy
  }

  // The id belongs in the group of the key, going by the first n concepts. A later concept
  // of the same id replaces the neighbourhood of an earlier one.
  ghost predicate Holds(mode: By, concepts: seq<Concept>, n: nat, key: string, id: string)
    requires n <= |concepts|
  {
    exists k :: 0 <= k < n && HoldsBy(mode, concepts, n, k, key, id)
  }

  ghost predicate HoldsBy(mode: By, concepts: seq<Concept>, n: nat, k: nat, key: string, id: string)
    requires k < n <= |concepts|
  {
    if mode == Neighbourhood then
      concepts[k].id == key && Near(concepts[k], id) && forall j | k < j < n :: concepts[j].id != key
    else FiledUnder(mode, concepts[k], key) && concepts[k].id == id
  }

  // ----- Grouping: a group for each key, with the ids that were filed under it

  ghost predicate Files(pairs: set<(string, string)>, groups: map<string, Group>, keys: seq<string>) {
    && Distinct(keys)
    && (forall key :: key in keys <==> key in groups)
    && (forall key, id | (key, id) in pairs :: key in groups)
    && (forall key | key in groups :: GroupFiles(pairs, key, groups[key]))
  }

  ghost predicate GroupFiles(pairs: set<(string, string)>, key: string, group: Group) {
    && Distinct(group.ids) && group.ids != []
    && forall id :: id in group.ids <==> (key, id) in pairs
  }

  function WithId(ids: seq<string>, id: string): seq<string> {
    if id in ids then ids else ids + [id]
  }

  // `add`
  method Add(groups: map<string, Group>, keys: seq<string>, key: string, title: string, id: string,
             ghost pairs: set<(string, string)>)
    returns (groups': map<string, Group>, keys': seq<string>)
    requires Files(pairs, groups, keys)
    ensures Files(pairs + {(key, id)}, groups', keys')
    ensures key in groups' && groups'[key].title == if key in groups then groups[key].title else title
    ensures forall other | other in groups' && other != key ::
        other in groups && groups'[other].title == groups[other].title
  {
    var group := if key in groups then groups[key] else Group(title, []);
    groups' := groups[key := group.(ids := WithId(group.ids, id))];
    keys' := WithId(keys, key);
    forall other | other in groups' ensures GroupFiles(pairs + {(key, id)}, other, groups'[other]) {
      if other != key {
        assert GroupFiles(pairs, other, groups[other]);
      } else if key in groups {
        assert GroupFiles(pairs, key, groups[key]);
      }
    }
  }

  function FixedTitle(mode: By, key: string): string {
    if mode == Folder && key == "" then "Bundle root" else key
  }

  ghost predicate FixedTitles(mode: By, groups: map<string, Group>) {
    forall key | key in groups :: groups[key].title == FixedTitle(mode, key)
  }

  // Whether a concept has no key.
  predicate Unfiled(mode: By, c: Concept) {
    match mode
    case ByType => Blank(c.conceptType)
    case Tag => forall k | 0 <= k < |c.tags| :: Blank(c.tags[k])
    case _ => false
  }

  lemma UnfiledIff(mode: By, c: Concept)
    ensures Unfiled(mode, c) <==> forall key :: !FiledUnder(mode, c, key)
  {
    match mode
    case Folder =>
      FolderHolds(c.id);
      assert FiledUnder(mode, c, FolderOf(c.id));
    case Neighbourhood => assert FiledUnder(mode, c, c.id);
    case ByType =>
      if !Unfiled(mode, c) { assert FiledUnder(mode, c, c.conceptType); }
    case Tag =>
      if !Unfiled(mode, c) {
        var k :| 0 <= k < |c.tags| && !Blank(c.tags[k]);
        assert FiledUnder(mode, c, c.tags[k]);
      }
  }

  // What one concept changes about the pairs of key and id.
  ghost predicate Step(mode: By, c: Concept, before: set<(string, string)>, after: set<(string, string)>) {
    forall key, id :: (key, id) in after <==>
      if mode == Neighbourhood && key == c.id then Near(c, id)
      else (key, id) in before || (mode != Neighbourhood && FiledUnder(mode, c, key) && id == c.id)
  }

  // The group of a concept's neighbourhood: itself, its links, what cites it.
  method NeighbourhoodOf(c: Concept) returns (ids: seq<string>)
    ensures Distinct(ids) && ids != [] && forall id :: id in ids <==> Near(c, id)
  {
    var near := [c.id] + c.links + c.citedBy;
    ids := [];
    for k := 0 to |near|
      invariant Distinct(ids) && forall id :: id in ids <==> id in near[..k]
    {
      assert near[..k + 1] == near[..k] + [near[k]];
      ids := WithId(ids, near[k]);
    }
    assert near[..|near|] == near;
    assert c.id in ids;
  }

  method FileByTags(c: Concept, groups: map<string, Group>, keys: seq<string>, ghost pairs: set<(string, string)>)
    returns (groups': map<string, Group>, keys': seq<string>, ghost pairs': set<(string, string)>)
    requires Files(pairs, groups, keys) && FixedTitles(Tag, groups)
    ensures Files(pairs', groups', keys') && FixedTitles(Tag, groups')
    ensures Step(Tag, c, pairs, pairs')
  {
    groups', keys', pairs' := groups, keys, pairs;
    for k := 0 to |c.tags|
      invariant Files(pairs', groups', keys') && FixedTitles(Tag, groups')
      invariant forall key, id :: (key, id) in pairs' <==>
          (key, id) in pairs || (key in c.tags[..k] && !Blank(key) && id == c.id)
    {
      assert c.tags[..k + 1] == c.tags[..k] + [c.tags[k]];
      if !Blank(c.tags[k]) {
        groups', keys' := Add(groups', keys', c.tags[k], c.tags[k], c.id, pairs');
        pairs' := pairs' + {(c.tags[k], c.id)};
      }
    }
    assert c.tags[..|c.tags|] == c.tags;
  }

  // The title a group may carry: fixed by the key, or that of the last concept with the id.
  ghost predicate TitleFits(mode: By, concepts: seq<Concept>, n: nat, key: string, title: string)
    requires n <= |concepts|
  {
    if mode == Neighbourhood then
      exists k :: 0 <= k < n && concepts[k].title == title && HoldsBy(mode, concepts, n, k, key, key)
    else title == if mode == Folder && key == [] then "Bundle root" else key
  }

  ghost predicate Grouped(mode: By, concepts: seq<Concept>, n: nat, groups: map<string, Group>, keys: seq<string>,
                          pairs: set<(string, string)>)
    requires n <= |concepts|
  {
    && Files(pairs, groups, keys)
    && (forall key, id :: (key, id) in pairs <==> Holds(mode, concepts, n, key, id))
    && (forall key | key in groups :: TitleFits(mode, concepts, n, key, groups[key].title))
  }

  method FileConcept(mode: By, c: Concept, groups: map<string, Group>, keys: seq<string>,
                     ghost pairs: set<(string, string)>)
    returns (groups': map<string, Group>, keys': seq<string>, ghost pairs': set<(string, string)>)
    requires Files(pairs, groups, keys) && (mode != Neighbourhood ==> FixedTitles(mode, groups))
    ensures Files(pairs', groups', keys') && Step(mode, c, pairs, pairs')
    ensures mode != Neighbourhood ==> FixedTitles(mode, groups')
    ensures mode == Neighbourhood ==> forall key | key in groups' ::
      if key == c.id then groups'[key].title == c.title else key in groups && groups'[key].title == groups[key].title
  {
    match mode
    case Folder =>
      var folder := FolderOf(c.id);
      groups', keys' := Add(groups, keys, folder, if folder == "" then "Bundle root" else folder, c.id, pairs);
      pairs' := pairs + {(folder, c.id)};
      FolderHolds(c.id);
      forall key | LiesIn(c.id, key) ensures key == folder { FolderIsUnique(c.id, key, folder); }
    case ByType =>
      if Blank(c.conceptType) {
        groups', keys', pairs' := groups, keys, pairs;
      } else {
        groups', keys' := Add(groups, keys, c.conceptType, c.conceptType, c.id, pairs);
        pairs' := pairs + {(c.conceptType, c.id)};
      }
    case Tag =>
      groups', keys', pairs' := FileByTags(c, groups, keys, pairs);
    case Neighbourhood =>
      groups', keys', pairs' := FileNeighbourhood(c, groups, keys, pairs);
  }

  method FileNeighbourhood(c: Concept, groups: map<string, Group>, keys: seq<string>,
                           ghost pairs: set<(string, string)>)
    returns (groups': map<string, Group>, keys': seq<string>, ghost pairs': set<(string, string)>)
    requires Files(pairs, groups, keys)
    ensures Files(pairs', groups', keys') && Step(Neighbourhood, c, pairs, pairs')
    ensures forall key | key in groups' ::
      if key == c.id then groups'[key].title == c.title else key in groups && groups'[key].title == groups[key].title
  {
    var ids := NeighbourhoodOf(c);
    groups' := groups[c.id := Group(c.title, ids)];
    keys' := WithId(keys, c.id);
    pairs' := (set p | p in pairs && p.0 != c.id) + (set id | id in ids :: (c.id, id));
    forall key | key in groups' ensures GroupFiles(pairs', key, groups'[key]) {
      if key != c.id { assert GroupFiles(pairs, key, groups[key]); }
    }
  }

  lemma HoldsStep(mode: By, concepts: seq<Concept>, n: nat, key: string, id: string)
    requires n < |concepts|
    ensures Holds(mode, concepts, n + 1, key, id) <==>
      if mode == Neighbourhood && key == concepts[n].id then Near(concepts[n], id)
      else
        || Holds(mode, concepts, n, key, id)
        || (mode != Neighbourhood && FiledUnder(mode, concepts[n], key) && id == concepts[n].id)
  {
    if Holds(mode, concepts, n, key, id) {
      var k :| 0 <= k < n && HoldsBy(mode, concepts, n, k, key, id);
      assert (mode == Neighbourhood && key == concepts[n].id) || HoldsBy(mode, concepts, n + 1, k, key, id);
    }
    if Holds(mode, concepts, n + 1, key, id) {
      var k :| 0 <= k < n + 1 && HoldsBy(mode, concepts, n + 1, k, key, id);
      assert k == n || HoldsBy(mode, concepts, n, k, key, id);
    }
    if mode == Neighbourhood && key == concepts[n].id && Near(concepts[n], id) {
      assert HoldsBy(mode, concepts, n + 1, n, key, id);
    }
    if mode != Neighbourhood && FiledUnder(mode, concepts[n], key) && id == concepts[n].id {
      assert HoldsBy(mode, concepts, n + 1, n, key, id);
    }
  }

  // The ids of the concepts without a key, in order.
  function UnfiledIds(mode: By, concepts: seq<Concept>): seq<string> {
    if concepts == [] then []
    else
      var last := concepts[|concepts| - 1];
      UnfiledIds(mode, concepts[..|concepts| - 1]) + if Unfiled(mode, last) then [last.id] else []
  }

  lemma GroupedStep(mode: By, concepts: seq<Concept>, n: nat, groups: map<string, Group>, keys: seq<string>,
                    pairs: set<(string, string)>, groups': map<string, Group>, keys': seq<string>,
                     pairs': set<(string, string)>)
    requires n < |concepts| && Grouped(mode, concepts, n, groups, keys, pairs)
    requires Files(pairs', groups', keys') && Step(mode, concepts[n], pairs, pairs')
    requires mode != Neighbourhood ==> FixedTitles(mode, groups')
    requires mode == Neighbourhood ==> forall key | key in groups' ::
      if key == concepts[n].id then groups'[key].title == concepts[n].title
      else key in groups && groups'[key].title == groups[key].title
    ensures Grouped(mode, concepts, n + 1, groups', keys', pairs')
  {
    forall key, id ensures (key, id) in pairs' <==> Holds(mode, concepts, n + 1, key, id) {
      HoldsStep(mode, concepts, n, key, id);
    }
    if mode == Neighbourhood {
      forall key | key in groups' ensures TitleFits(mode, concepts, n + 1, key, groups'[key].title) {
        if key == concepts[n].id {
          assert HoldsBy(mode, concepts, n + 1, n, key, key);
        } else {
          var k :| 0 <= k < n && concepts[k].title == groups[key].title && HoldsBy(mode, concepts, n, k, key, key);
          assert HoldsBy(mode, concepts, n + 1, k, key, key);
        }
      }
    }
  }

  method GroupConcepts(mode: By, concepts: seq<Concept>)
    returns (groups: map<string, Group>, keys: seq<string>, unslicable: seq<string>, ghost pairs: set<(string, string)>)
    ensures Grouped(mode, concepts, |concepts|, groups, keys, pairs)
    ensures unslicable == UnfiledIds(mode, concepts)
  {
    groups, keys, unslicable, pairs := map[], [], [], {};
    for n := 0 to |concepts|
      invariant Grouped(mode, concepts, n, groups, keys, pairs)
      invariant unslicable == UnfiledIds(mode, concepts[..n])
    {
      assert concepts[..n + 1][..n] == concepts[..n];
      var groups', keys';
      ghost var pairs';
      groups', keys', pairs' := FileConcept(mode, concepts[n], groups, keys, pairs);
      GroupedStep(mode, concepts, n, groups, keys, pairs, groups', keys', pairs');
      if Unfiled(mode, concepts[n]) {
        unslicable := unslicable + [concepts[n].id];
      }
      groups, keys, pairs := groups', keys', pairs';
    }
    assert concepts[..|concepts|] == concepts;
  }

  // ----- The plan

  datatype Plan = Plan(slices: seq<Slice>, exclusions: seq<Exclusion>)

  // A list cut in two by a cap.
  ghost predicate Cut(kept: seq<string>, rest: seq<string>, max: nat) {
    |kept| <= max && (rest != [] ==> |kept| == max)
  }

  function SliceKeys(slices: seq<Slice>): seq<string> {
    seq(|slices|, k requires 0 <= k < |slices| => slices[k].key)
  }

  // The ids of a slice and those its cap left out are together the sorted ids of its key.
  ghost predicate SliceHolds(mode: By, concepts: seq<Concept>, limits: Limits, s: Slice) {
    var all := s.conceptIds + s.excludedConceptIds;
    && Sorted(all) && Distinct(all)
    && (forall id :: id in all <==> Holds(mode, concepts, |concepts|, s.key, id))
    && Cut(s.conceptIds, s.excludedConceptIds, limits.maxConceptsPerSlice)
    && TitleFits(mode, concepts, |concepts|, s.key, s.title)
  }

  // The keys of the slices and those the width left out are together all keys, sorted.
  ghost predicate KeysHold(mode: By, concepts: seq<Concept>, limits: Limits, slices: seq<Slice>, dropped: seq<string>) {
    var all := SliceKeys(slices) + dropped;
    && Sorted(all) && Distinct(all)
    && (forall key :: key in all <==> exists id :: Holds(mode, concepts, |concepts|, key, id))
    && Cut(SliceKeys(slices), dropped, limits.maxSlices)
  }

  function UnfiledNotes(mode: By, ids: seq<string>): seq<Exclusion> {
    if ids == [] then [] else [Unslicable(Sort(ids), mode)]
  }

  function WidthNotes(limits: Limits, dropped: seq<string>): seq<Exclusion> {
    if dropped == [] then [] else [SlicesOverWidth(dropped, limits.maxSlices)]
  }

  function CapNote(limits: Limits, s: Slice): Exclusion {
    ConceptsOverSliceCap(s.key, |s.excludedConceptIds|, limits.maxConceptsPerSlice)
  }

  function CapNotes(limits: Limits, slices: seq<Slice>): seq<Exclusion> {
    if slices == [] then []
    else
      var last := slices[|slices| - 1];
      CapNotes(limits, slices[..|slices| - 1]) +
      if last.excludedConceptIds == [] then []
      else [CapNote(limits, last)]
  }

  ghost function Keyless(mode: By): Concept -> bool {
    (c: Concept) => forall key :: !FiledUnder(mode, c, key)
  }

  ghost function WasCut(): Slice -> bool {
    (s: Slice) => s.excludedConceptIds != []
  }

  // The ids of these concepts, sorted.
  ghost predicate SortedIds(concepts: seq<Concept>, ids: seq<string>, sorted: seq<string>) {
    && |ids| == |concepts| && (forall k | 0 <= k < |ids| :: ids[k] == concepts[k].id)
    && Sorted(sorted) && multiset(sorted) == multiset(ids)
  }

  // Each slice with the number of ids that it lost.
  ghost predicate NoteEach(limits: Limits, notes: seq<Exclusion>, cut: seq<Slice>) {
    && |notes| == |cut|
    && (forall k | 0 <= k < |cut| :: IsCapNote(limits, cut[k], notes[k]))
  }

  ghost predicate IsCapNote(limits: Limits, s: Slice, note: Exclusion) {
    note == ConceptsOverSliceCap(s.key, |s.excludedConceptIds|, limits.maxConceptsPerSlice)
  }

  // The concepts without a key, if any; then the keys over the width, if any; then the slices that their
  // cap cut.
  ghost predicate NotesHold(mode: By, limits: Limits, notes: seq<Exclusion>, unfiled: seq<Concept>,
                            dropped: seq<string>, cut: seq<Slice>) {
    var a := if unfiled == [] then 0 else 1;
    var b := if dropped == [] then a else a + 1;
    && |notes| == b + |cut|
    && (unfiled != [] ==> notes[0].Unslicable? && notes[0].mode == mode)
    && (unfiled != [] ==> exists ids :: SortedIds(unfiled, ids, notes[0].conceptIds))
    && (dropped != [] ==> notes[a] == SlicesOverWidth(dropped, limits.maxSlices))
    && NoteEach(limits, notes[b..], cut)
  }

  // The exclusions name exactly what was left out.
  ghost predicate Named(mode: By, concepts: seq<Concept>, limits: Limits, plan: Plan, dropped: seq<string>) {
    exists unfiled, cut ::
      && Keeps(concepts, unfiled, Keyless(mode)) && Keeps(plan.slices, cut, WasCut())
      && NotesHold(mode, limits, plan.exclusions, unfiled, dropped, cut)
  }

  ghost predicate PlanHolds(mode: By, concepts: seq<Concept>, limits: Limits, plan: Plan, dropped: seq<string>) {
    && KeysHold(mode, concepts, limits, plan.slices, dropped)
    && (forall k | 0 <= k < |plan.slices| :: SliceHolds(mode, concepts, limits, plan.slices[k]))
    && plan.exclusions ==
      UnfiledNotes(mode, UnfiledIds(mode, concepts)) + WidthNotes(limits, dropped) + CapNotes(limits, plan.slices)
  }

  lemma SortedDistinct(s: seq<string>)
    requires Distinct(s)
    ensures Sorted(Sort(s)) && Distinct(Sort(s)) && |Sort(s)| == |s|
    ensures forall x :: x in Sort(s) <==> x in s
  {
    SortIsSorted(s);
    SameMultisetSameElements(Sort(s), s);
    PermutationIsDistinct(s, Sort(s));
  }

  lemma PermutationIsDistinct(a: seq<string>, b: seq<string>)
    requires Distinct(a) && multiset(a) == multiset(b)
    ensures Distinct(b)
  {
    DistinctCounts(a);
    forall i, j | 0 <= i < j < |b| ensures b[i] != b[j] {
      assert b == b[..j] + [b[j]] + b[j + 1..];
      assert multiset(b)[b[j]] == multiset(b[..j])[b[j]] + 1 + multiset(b[j + 1..])[b[j]];
      assert b[j] !in multiset(b[..j]) && b[i] in b[..j];
    }
  }

  method CutAt(s: seq<string>, max: nat) returns (kept: seq<string>, rest: seq<string>)
    ensures kept + rest == s && Cut(kept, rest, max)
  {
    if |s| <= max {
      kept, rest := s, [];
    } else {
      kept, rest := s[..max], s[max..];
    }
  }

  // The group of a key is finished.
  ghost predicate Ready(mode: By, concepts: seq<Concept>, key: string, group: Group) {
    && Distinct(group.ids)
    && (forall id :: id in group.ids <==> Holds(mode, concepts, |concepts|, key, id))
    && TitleFits(mode, concepts, |concepts|, key, group.title)
  }

  method MakeSlice(mode: By, concepts: seq<Concept>, limits: Limits, key: string, group: Group) returns (s: Slice)
    requires Ready(mode, concepts, key, group)
    ensures s.key == key && SliceHolds(mode, concepts, limits, s)
  {
    SortedDistinct(group.ids);
    var conceptIds, excluded := CutAt(Sort(group.ids), limits.maxConceptsPerSlice);
    s := Slice(key, group.title, conceptIds, excluded);
  }

  method MakeSlices(mode: By, concepts: seq<Concept>, limits: Limits, kept: seq<string>, groups: map<string, Group>)
    returns (slices: seq<Slice>, notes: seq<Exclusion>)
    requires forall k | 0 <= k < |kept| :: kept[k] in groups && Ready(mode, concepts, kept[k], groups[kept[k]])
    ensures SliceKeys(slices) == kept && notes == CapNotes(limits, slices)
    ensures forall i | 0 <= i < |slices| :: SliceHolds(mode, concepts, limits, slices[i])
  {
    slices, notes := [], [];
    for k := 0 to |kept|
      invariant |slices| == k && notes == CapNotes(limits, slices)
      invariant forall i | 0 <= i < k :: slices[i].key == kept[i] && SliceHolds(mode, concepts, limits, slices[i])
    {
      var s := MakeSlice(mode, concepts, limits, kept[k], groups[kept[k]]);
      assert (slices + [s])[..|slices|] == slices;
      if s.excludedConceptIds != [] {
        notes := notes + [CapNote(limits, s)];
      }
      slices := slices + [s];
    }
  }

  method PlanSlices(mode: By, concepts: seq<Concept>, limits: Limits) returns (plan: Plan)
    ensures exists dropped ::
      PlanHolds(mode, concepts, limits, plan, dropped) && Named(mode, concepts, limits, plan, dropped)
  {
    var groups, keys, unslicable;
    ghost var pairs;
    groups, keys, unslicable, pairs := GroupConcepts(mode, concepts);
    SortedDistinct(keys);
    var kept, droppedKeys := CutAt(Sort(keys), limits.maxSlices);
    forall k | 0 <= k < |kept| ensures kept[k] in groups && Ready(mode, concepts, kept[k], groups[kept[k]]) {
      assert kept[k] == Sort(keys)[k] && Sort(keys)[k] in Sort(keys);
      assert GroupFiles(pairs, kept[k], groups[kept[k]]);
    }
    var slices, notes := MakeSlices(mode, concepts, limits, kept, groups);
    plan := Plan(slices, UnfiledNotes(mode, unslicable) + WidthNotes(limits, droppedKeys) + notes);
    forall key ensures key in Sort(keys) <==> exists id :: Holds(mode, concepts, |concepts|, key, id) {
      KeysOfGroups(mode, concepts, groups, keys, pairs, key);
    }
    KeysFollow(mode, concepts, limits, slices, droppedKeys, Sort(keys));
    assert PlanHolds(mode, concepts, limits, plan, droppedKeys);
    LeftIsNamed(mode, concepts, limits, plan, droppedKeys);
  }

  lemma {:induction false} UnfiledAreKept(mode: By, concepts: seq<Concept>) returns (unfiled: seq<Concept>)
    ensures Keeps(concepts, unfiled, Keyless(mode))
    ensures var ids := UnfiledIds(mode, concepts);
      |ids| == |unfiled| && forall k | 0 <= k < |ids| :: ids[k] == unfiled[k].id
  {
    if concepts == [] {
      KeepsNothing(Keyless(mode));
      unfiled := [];
    } else {
      var (front, last) := (concepts[..|concepts| - 1], concepts[|concepts| - 1]);
      assert concepts == front + [last];
      UnfiledIff(mode, last);
      var before := UnfiledAreKept(mode, front);
      KeepsOneMoreBehind(front, before, last, Keyless(mode));
      unfiled := if Unfiled(mode, last) then before + [last] else before;
    }
  }

  lemma NoteOneMore(limits: Limits, notes: seq<Exclusion>, cut: seq<Slice>, s: Slice)
    requires NoteEach(limits, notes, cut)
    ensures NoteEach(limits, notes + [CapNote(limits, s)], cut + [s])
  {
  }

  lemma {:induction false} CutAreKept(limits: Limits, slices: seq<Slice>) returns (cut: seq<Slice>)
    ensures Keeps(slices, cut, WasCut()) && NoteEach(limits, CapNotes(limits, slices), cut)
  {
    if slices == [] {
      KeepsNothing(WasCut());
      cut := [];
    } else {
      var (front, last) := (slices[..|slices| - 1], slices[|slices| - 1]);
      assert slices == front + [last];
      cut := CutAreKept(limits, front);
      KeepsOneMoreBehind(front, cut, last, WasCut());
      if last.excludedConceptIds != [] {
        NoteOneMore(limits, CapNotes(limits, front), cut, last);
        cut := cut + [last];
      }
    }
  }

  lemma LeftIsNamed(mode: By, concepts: seq<Concept>, limits: Limits, plan: Plan, dropped: seq<string>)
    requires PlanHolds(mode, concepts, limits, plan, dropped)
    ensures Named(mode, concepts, limits, plan, dropped)
  {
    var unfiled := UnfiledAreKept(mode, concepts);
    var cut := CutAreKept(limits, plan.slices);
    var ids := UnfiledIds(mode, concepts);
    NotesAreThose(mode, limits, plan.exclusions, unfiled, ids, dropped, cut, CapNotes(limits, plan.slices));
  }

  lemma NotesAreThose(mode: By, limits: Limits, notes: seq<Exclusion>, unfiled: seq<Concept>, ids: seq<string>,
                      dropped: seq<string>, cut: seq<Slice>, last: seq<Exclusion>)
    requires notes == UnfiledNotes(mode, ids) + WidthNotes(limits, dropped) + last
    requires |ids| == |unfiled| && forall k | 0 <= k < |ids| :: ids[k] == unfiled[k].id
    requires NoteEach(limits, last, cut)
    ensures NotesHold(mode, limits, notes, unfiled, dropped, cut)
  {
    var first := UnfiledNotes(mode, ids) + WidthNotes(limits, dropped);
    assert notes[|first|..] == last;
    SortIsSorted(ids);
    if unfiled != [] { assert SortedIds(unfiled, ids, notes[0].conceptIds); }
  }

  lemma KeysFollow(mode: By, concepts: seq<Concept>, limits: Limits, slices: seq<Slice>, dropped: seq<string>,
                   all: seq<string>)
    requires Sorted(all) && Distinct(all) && SliceKeys(slices) + dropped == all
    requires forall key :: key in all <==> exists id :: Holds(mode, concepts, |concepts|, key, id)
    requires Cut(SliceKeys(slices), dropped, limits.maxSlices)
    ensures KeysHold(mode, concepts, limits, slices, dropped)
  {
  }

  lemma KeysOfGroups(mode: By, concepts: seq<Concept>, groups: map<string, Group>, keys: seq<string>,
                     pairs: set<(string, string)>, key: string)
    requires Grouped(mode, concepts, |concepts|, groups, keys, pairs)
    ensures key in keys <==> exists id :: Holds(mode, concepts, |concepts|, key, id)
  {
    if key in keys {
      assert GroupFiles(pairs, key, groups[key]);
      assert groups[key].ids[0] in groups[key].ids;
      assert Holds(mode, concepts, |concepts|, key, groups[key].ids[0]);
    }
    if id :| Holds(mode, concepts, |concepts|, key, id) {
      assert (key, id) in pairs;
    }
  }

  // ----- Nothing is dropped without a name

  ghost predicate InDroppedSlice(plan: Plan, key: string) {
    exists k :: 0 <= k < |plan.exclusions| && plan.exclusions[k].SlicesOverWidth?
        && key in plan.exclusions[k].droppedKeys
  }

  ghost predicate OverCap(plan: Plan, s: Slice) {
    exists k :: 0 <= k < |plan.exclusions| && plan.exclusions[k].ConceptsOverSliceCap?
      && plan.exclusions[k].sliceKey == s.key && plan.exclusions[k].dropped == |s.excludedConceptIds|
  }

  // The one slice of the key, holding the id or reporting that its cap cut it off.
  ghost predicate PlacedIn(plan: Plan, k: nat, key: string, id: string) {
    && k < |plan.slices| && plan.slices[k].key == key
    && (forall j | 0 <= j < |plan.slices| && j != k :: plan.slices[j].key != key)
    && (id in plan.slices[k].conceptIds <==> id !in plan.slices[k].excludedConceptIds)
    && (id in plan.slices[k].excludedConceptIds ==> OverCap(plan, plan.slices[k]))
  }

  // An id that belongs under a key is in the slice of the key, or was cut from it by a cap
  // that is reported, or the key itself is reported as dropped; and only one of these.
  lemma NothingDroppedUnnamed(mode: By, concepts: seq<Concept>, limits: Limits, plan: Plan, dropped: seq<string>,
                              key: string, id: string)
    requires PlanHolds(mode, concepts, limits, plan, dropped)
    requires Holds(mode, concepts, |concepts|, key, id)
    ensures key in dropped ==>
        InDroppedSlice(plan, key) && forall k | 0 <= k < |plan.slices| :: plan.slices[k].key != key
    ensures key !in dropped ==> exists k :: PlacedIn(plan, k, key, id)
  {
    var keys := SliceKeys(plan.slices);
    if key in dropped {
      DroppedIsNamed(mode, concepts, limits, plan, dropped, key);
    } else {
      assert key in keys + dropped;
      var k :| 0 <= k < |keys| && keys[k] == key;
      KeptIsPlaced(mode, concepts, limits, plan, dropped, k, id);
    }
  }

  lemma DroppedIsNamed(mode: By, concepts: seq<Concept>, limits: Limits, plan: Plan, dropped: seq<string>, key: string)
    requires PlanHolds(mode, concepts, limits, plan, dropped) && key in dropped
    ensures InDroppedSlice(plan, key) && forall k | 0 <= k < |plan.slices| :: plan.slices[k].key != key
  {
    var first := UnfiledNotes(mode, UnfiledIds(mode, concepts));
    assert plan.exclusions[|first|] == SlicesOverWidth(dropped, limits.maxSlices);
    forall k | 0 <= k < |plan.slices| ensures plan.slices[k].key != key {
      IdIsOnOneSide(SliceKeys(plan.slices), dropped, key);
      assert SliceKeys(plan.slices)[k] == plan.slices[k].key;
    }
  }

  lemma KeptIsPlaced(mode: By, concepts: seq<Concept>, limits: Limits, plan: Plan, dropped: seq<string>, k: nat,
                     id: string)
    requires PlanHolds(mode, concepts, limits, plan, dropped) && k < |plan.slices|
    requires Holds(mode, concepts, |concepts|, plan.slices[k].key, id)
    ensures PlacedIn(plan, k, plan.slices[k].key, id)
  {
    var s := plan.slices[k];
    assert SliceHolds(mode, concepts, limits, s);
    SliceIsUnique(mode, concepts, limits, plan, dropped, k);
    IdIsOnOneSide(s.conceptIds, s.excludedConceptIds, id);
    if s.excludedConceptIds != [] {
      var before := UnfiledNotes(mode, UnfiledIds(mode, concepts)) + WidthNotes(limits, dropped);
      CapIsNoted(limits, plan.slices, k);
      CapIsReported(limits, plan, before, s);
    }
  }

  lemma CapIsReported(limits: Limits, plan: Plan, before: seq<Exclusion>, s: Slice)
    requires plan.exclusions == before + CapNotes(limits, plan.slices)
    requires exists n ::
      0 <= n < |CapNotes(limits, plan.slices)| && CapNotes(limits, plan.slices)[n] == CapNote(limits, s)
    ensures OverCap(plan, s)
  {
    var n :| 0 <= n < |CapNotes(limits, plan.slices)| && CapNotes(limits, plan.slices)[n] == CapNote(limits, s);
    assert plan.exclusions[|before| + n] == CapNote(limits, s);
  }

  lemma SliceIsUnique(mode: By, concepts: seq<Concept>, limits: Limits, plan: Plan, dropped: seq<string>, k: nat)
    requires KeysHold(mode, concepts, limits, plan.slices, dropped) && k < |plan.slices|
    ensures forall j | 0 <= j < |plan.slices| && j != k :: plan.slices[j].key != plan.slices[k].key
  {
    var all := SliceKeys(plan.slices) + dropped;
    assert forall j | 0 <= j < |plan.slices| :: all[j] == plan.slices[j].key;
  }

  lemma IdIsOnOneSide(kept: seq<string>, rest: seq<string>, id: string)
    requires Distinct(kept + rest) && id in kept + rest
    ensures id in kept <==> id !in rest
  {
    forall i, j | 0 <= i < |kept| && 0 <= j < |rest| ensures kept[i] != rest[j] {
      assert (kept + rest)[i] == kept[i] && (kept + rest)[|kept| + j] == rest[j];
    }
  }

  lemma {:induction false} CapIsNoted(limits: Limits, slices: seq<Slice>, k: nat)
    requires k < |slices| && slices[k].excludedConceptIds != []
    ensures exists n :: 0 <= n < |CapNotes(limits, slices)| && CapNotes(limits, slices)[n] == CapNote(limits, slices[k])
  {
    var last := |slices| - 1;
    var front := CapNotes(limits, slices[..last]);
    if k < last {
      CapIsNoted(limits, slices[..last], k);
      var n :| 0 <= n < |front| && front[n] == CapNote(limits, slices[k]);
      assert CapNotes(limits, slices)[n] == front[n];
    } else {
      assert CapNotes(limits, slices)[|front|] == CapNote(limits, slices[k]);
    }
  }

  // A concept without a key is named; any other one belongs under a key.
  lemma EveryConceptIsFiledOrNamed(mode: By, concepts: seq<Concept>, limits: Limits, plan: Plan,
                                   dropped: seq<string>, c: nat)
    requires PlanHolds(mode, concepts, limits, plan, dropped) && c < |concepts|
    ensures if Unfiled(mode, concepts[c])
      then plan.exclusions != [] && plan.exclusions[0].Unslicable? && concepts[c].id in plan.exclusions[0].conceptIds
      else exists key :: Holds(mode, concepts, |concepts|, key, concepts[c].id)
  {
    if Unfiled(mode, concepts[c]) {
      UnfiledIsListed(mode, concepts, c);
      SortIsSorted(UnfiledIds(mode, concepts));
      SameMultisetSameElements(Sort(UnfiledIds(mode, concepts)), UnfiledIds(mode, concepts));
    } else if mode == Neighbourhood {
      var k := c;
      while exists j :: k < j < |concepts| && concepts[j].id == concepts[c].id
        invariant c <= k < |concepts| && concepts[k].id == concepts[c].id
        decreases |concepts| - k
      {
        var j :| k < j < |concepts| && concepts[j].id == concepts[c].id;
        k := j;
      }
      assert HoldsBy(mode, concepts, |concepts|, k, concepts[c].id, concepts[c].id);
      assert Holds(mode, concepts, |concepts|, concepts[c].id, concepts[c].id);
    } else {
      UnfiledIff(mode, concepts[c]);
      var key :| FiledUnder(mode, concepts[c], key);
      assert HoldsBy(mode, concepts, |concepts|, c, key, concepts[c].id);
      assert Holds(mode, concepts, |concepts|, key, concepts[c].id);
    }
  }

  lemma {:induction false} UnfiledIsListed(mode: By, concepts: seq<Concept>, c: nat)
    requires c < |concepts| && Unfiled(mode, concepts[c])
    ensures concepts[c].id in UnfiledIds(mode, concepts)
  {
    if c < |concepts| - 1 {
      UnfiledIsListed(mode, concepts[..|concepts| - 1], c);
    }
  }
}
