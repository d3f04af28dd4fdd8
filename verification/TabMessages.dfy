/** What each message does to the tabs of a reachable state, place by place, and what a
    bundle's pages make of an id. */
module TabMessages {
  import opened Options
  import opened TabHistory

  // ----- The bundle's pages

  // The id is the home of the page's folder; the root's page may carry `.` for its folder.
  ghost predicate IsHomeOf(id: string, page: IndexNode) {
    id == page.dir + "/index" || ((id == "index" || id == "/index") && (page.dir == "" || page.dir == "."))
  }

  ghost predicate IsThere(bundle: Bundle, id: string) {
    (id != "" && id in bundle.concepts) || exists n :: n in bundle.indexes && IsHomeOf(id, n)
  }

  lemma HasIndexNodeIff(bundle: Bundle, id: string)
    ensures HasIndexNode(bundle, id) <==> exists n :: n in bundle.indexes && IsHomeOf(id, n)
  {
  }

  // There is something to show for an id if and only if a concept has it or it is the home of a folder with a page.
  lemma ExistsIff(bundle: Bundle, id: Option<string>)
    ensures Exists(bundle, id) <==> (id.Some? && IsThere(bundle, id.value))
  {
    if id.Some? { HasIndexNodeIff(bundle, id.value); }
  }

  // The entry at k is the first concept listed.
  ghost predicate LeadsAt(entries: seq<Entry>, k: int) {
    && 0 <= k < |entries| && entries[k].isConcept
    && forall i | 0 <= i < k :: !entries[i].isConcept
  }

  ghost predicate ListsNone(page: IndexNode) {
    forall i | 0 <= i < |page.entries| :: !page.entries[i].isConcept
  }

  // The first concept of page n, the first page that lists one.
  ghost predicate FirstOnPage(indexes: seq<IndexNode>, n: int, id: string) {
    && 0 <= n < |indexes| && (forall i | 0 <= i < n :: ListsNone(indexes[i]))
    && exists k :: LeadsAt(indexes[n].entries, k) && indexes[n].entries[k].target == id
  }

  lemma {:induction false} FirstEntryLeads(entries: seq<Entry>)
    ensures FirstEntry(entries).None? ==> forall i | 0 <= i < |entries| :: !entries[i].isConcept
    ensures FirstEntry(entries).Some?
      ==> exists k :: LeadsAt(entries, k) && entries[k].target == FirstEntry(entries).value
  {
    if entries != [] {
      if entries[0].isConcept {
        assert LeadsAt(entries, 0);
      } else {
        FirstEntryLeads(entries[1..]);
        if FirstEntry(entries).Some? {
          var k :| LeadsAt(entries[1..], k) && entries[1..][k].target == FirstEntry(entries).value;
          assert LeadsAt(entries, k + 1);
        }
      }
    }
  }

  lemma {:induction false} FirstListedLeads(indexes: seq<IndexNode>)
    ensures FirstListed(indexes).None? ==> forall n | 0 <= n < |indexes| :: ListsNone(indexes[n])
    ensures FirstListed(indexes).Some? ==> exists n :: FirstOnPage(indexes, n, FirstListed(indexes).value)
  {
    if indexes != [] {
      FirstEntryLeads(indexes[0].entries);
      if FirstEntry(indexes[0].entries).Some? {
        assert FirstOnPage(indexes, 0, FirstListed(indexes).value);
      } else {
        FirstListedLeads(indexes[1..]);
        if FirstListed(indexes).Some? {
          var n :| FirstOnPage(indexes[1..], n, FirstListed(indexes).value);
          assert FirstOnPage(indexes, n + 1, FirstListed(indexes).value);
        }
      }
    }
  }

  // A bundle opens at its root's page, else at the first concept that a page lists, else at its first concept.
  lemma OpensAt(bundle: Bundle)
    ensures (exists n :: n in bundle.indexes && (n.dir == "" || n.dir == "."))
      ==> DefaultConcept(bundle) == Some("index")
    ensures (forall n | n in bundle.indexes :: n.dir != "" && n.dir != ".")
      ==> OpensAtAConcept(bundle, DefaultConcept(bundle))
  {
    FirstListedLeads(bundle.indexes);
    if FirstListed(bundle.indexes).Some? {
      var n :| FirstOnPage(bundle.indexes, n, FirstListed(bundle.indexes).value);
      assert !ListsNone(bundle.indexes[n]);
    }
  }

  ghost predicate OpensAtAConcept(bundle: Bundle, id: Option<string>) {
    if forall n | 0 <= n < |bundle.indexes| :: ListsNone(bundle.indexes[n]) then
      id == if bundle.concepts == [] then None else Some(bundle.concepts[0])
    else
      id.Some? && exists n :: FirstOnPage(bundle.indexes, n, id.value)
  }

  // ----- The tabs

  // The place of the active tab.
  ghost predicate ActiveAt(s: State, i: int) {
    0 <= i < |s.tabs| && s.tabs[i].id == s.activeTabId
  }

  lemma ActivePlace(s: State)
    requires Inv(s)
    ensures ActiveAt(s, FindIndex(s.tabs, s.activeTabId))
    ensures forall i | ActiveAt(s, i) :: i == FindIndex(s.tabs, s.activeTabId)
  {
  }

  // Another bundle leaves one new tab, which keeps the shown concept where the bundle has it.
  lemma OtherBundle(s: State, root: string, bundle: Bundle)
    requires Inv(s) && Some(root) != s.activeRoot
    ensures var r := Reducer(s, SetBundle(root, bundle));
      var shown := if Exists(bundle, s.activeConceptId) then s.activeConceptId else DefaultConcept(bundle);
      r == s.(activeRoot := Some(root), bundle := Some(bundle), nextTabId := s.nextTabId + 1,
        tabs := [Tab(s.nextTabId, shown, [], [])], activeTabId := s.nextTabId, activeConceptId := shown,
        back := [], fwd := [])
  {
  }

  // What a reload leaves of a tab: a concept that is gone gives way to the entry concept in the
  // active tab and to nothing in another.
  ghost predicate Reloaded(before: Tab, after: Tab, bundle: Bundle, isActive: bool) {
    && after.id == before.id && after.back == before.back && after.fwd == before.fwd
    && (Exists(bundle, before.conceptId) ==> after.conceptId == before.conceptId)
    && (!Exists(bundle, before.conceptId) && isActive ==> after.conceptId == DefaultConcept(bundle))
    && (!Exists(bundle, before.conceptId) && !isActive ==> after.conceptId == None)
  }

  lemma SameBundle(s: State, root: string, bundle: Bundle)
    requires Inv(s) && Some(root) == s.activeRoot
    ensures var r := Reducer(s, SetBundle(root, bundle));
      && r == s.(bundle := Some(bundle), tabs := r.tabs, activeConceptId := r.activeConceptId)
      && |r.tabs| == |s.tabs|
      && (forall i | 0 <= i < |s.tabs| ::
          Reloaded(s.tabs[i], r.tabs[i], bundle, s.tabs[i].id == s.activeTabId))
  {
  }

  // What selecting, going back and going forward change: the active tab at i, which its mirrors follow.
  ghost predicate OnlyActiveTab(s: State, r: State, i: int) {
    && ActiveAt(s, i) && |r.tabs| == |s.tabs| && r.tabs == s.tabs[i := r.tabs[i]] && r.tabs[i].id == s.activeTabId
    && r == s.(tabs := r.tabs, activeConceptId := r.tabs[i].conceptId, back := r.tabs[i].back,
      fwd := r.tabs[i].fwd, overview := r.overview, palette := r.palette)
  }

  // Selecting what is shown leaves the landing page and nothing more; anything else goes behind what was shown.
  lemma Selected(s: State, id: Option<string>)
    requires Inv(s)
    ensures var r := Reducer(s, Select(id)); !r.overview
    ensures id == s.activeConceptId ==> Reducer(s, Select(id)) == s.(overview := false)
    ensures id != s.activeConceptId ==> exists i :: OnlyActiveTab(s, Reducer(s, Select(id)), i)
    ensures id != s.activeConceptId ==>
      var r := Reducer(s, Select(id));
      && r.activeConceptId == id && r.fwd == [] && !r.palette
      && r.back == s.back + if s.activeConceptId.Some? && s.activeConceptId.value != ""
        then [s.activeConceptId.value] else []
  {
    ActiveStays(s, t => GoTo(t, id));
    if id != s.activeConceptId {
      assert OnlyActiveTab(s, Reducer(s, Select(id)), FindIndex(s.tabs, s.activeTabId));
    }
  }

  // Back shows the page visited last and leaves what was shown in front of the forward list.
  lemma WentBack(s: State)
    requires Inv(s)
    ensures s.back == [] ==> Reducer(s, Back) == s
    ensures s.back != [] ==> exists i :: OnlyActiveTab(s, Reducer(s, Back), i)
    ensures s.back != [] ==>
      var r := Reducer(s, Back);
      && r.activeConceptId.Some? && r.back + [r.activeConceptId.value] == s.back
      && r.overview == s.overview && r.palette == s.palette
      && r.fwd == if s.activeConceptId.Some? && s.activeConceptId.value != ""
        then [s.activeConceptId.value] + s.fwd else s.fwd
  {
    ActiveStays(s, t => GoBack(t));
    if s.back != [] {
      assert OnlyActiveTab(s, Reducer(s, Back), FindIndex(s.tabs, s.activeTabId));
    }
  }

  lemma WentForward(s: State)
    requires Inv(s)
    ensures s.fwd == [] ==> Reducer(s, Fwd) == s
    ensures s.fwd != [] ==> exists i :: OnlyActiveTab(s, Reducer(s, Fwd), i)
    ensures s.fwd != [] ==>
      var r := Reducer(s, Fwd);
      && r.activeConceptId.Some? && [r.activeConceptId.value] + r.fwd == s.fwd
      && r.overview == s.overview && r.palette == s.palette
      && r.back == if s.activeConceptId.Some? && s.activeConceptId.value != ""
        then s.back + [s.activeConceptId.value] else s.back
  {
    ActiveStays(s, t => GoForward(t));
    if s.fwd != [] {
      assert OnlyActiveTab(s, Reducer(s, Fwd), FindIndex(s.tabs, s.activeTabId));
    }
  }

  // The mirrors are those of the tab at i.
  ghost predicate Shown(s: State, r: State, i: int) {
    && ActiveAt(r, i)
    && r == s.(tabs := r.tabs, activeTabId := r.activeTabId, nextTabId := r.nextTabId, overview := r.overview,
      palette := r.palette, activeConceptId := r.tabs[i].conceptId, back := r.tabs[i].back, fwd := r.tabs[i].fwd)
  }

  lemma ShowsTab(s: State, tabs: seq<Tab>, nextTabId: nat, k: int)
    requires TabsOk(tabs, nextTabId) && 0 <= k < |tabs|
    ensures WithTabs(s, tabs, tabs[k].id) == s.(tabs := tabs, activeTabId := tabs[k].id,
      activeConceptId := tabs[k].conceptId, back := tabs[k].back, fwd := tabs[k].fwd)
  {
    assert FindIndex(tabs, tabs[k].id) == k;
  }

  // A new tab stands right behind the active one and is shown unless it opens in the background.
  lemma Opened(s: State, id: Option<string>, background: bool, i: int)
    requires Inv(s) && ActiveAt(s, i)
    ensures var r := Reducer(s, OpenTab(id, background));
      && r.tabs == s.tabs[..i + 1] + [Tab(s.nextTabId, id, [], [])] + s.tabs[i + 1..]
      && r.nextTabId == s.nextTabId + 1
      && Shown(s, r, if background then i else i + 1)
      && r.overview == (background && s.overview) && r.palette == (background && s.palette)
  {
    ActivePlace(s);
    OpenTabKeeps(s, id, background);
    var r := Reducer(s, OpenTab(id, background));
    var k := if background then i else i + 1;
    assert r.tabs[k].id == r.activeTabId;
    ActivePlace(r);
  }

  // The tab that takes over when the tab at i is closed, by its place among the open ones: the one to
  // the right, or at the end the one to the left.
  function Heir(count: nat, i: nat): int {
    if i + 1 < count then i + 1 else i - 1
  }

  // The place of the shown tab once the tab at i is gone.
  function PlaceAfter(shown: nat, i: nat, count: nat): int {
    if shown == i then (if i + 1 < count then i else i - 1) else if shown < i then shown else shown - 1
  }

  // The last tab stays; any other goes, and closing the shown one shows its heir.
  lemma Closed(s: State, id: nat, i: int)
    requires Inv(s) && 0 <= i < |s.tabs| && s.tabs[i].id == id
    ensures |s.tabs| == 1 ==> Reducer(s, CloseTab(id)) == s
    ensures |s.tabs| > 1 ==>
      var r := Reducer(s, CloseTab(id));
      && r.tabs == s.tabs[..i] + s.tabs[i + 1..]
      && r.activeTabId == (if id == s.activeTabId then s.tabs[Heir(|s.tabs|, i)].id else s.activeTabId)
      && (exists k :: Shown(s, r, k))
      && r.nextTabId == s.nextTabId && r.overview == s.overview && r.palette == s.palette
  {
    if |s.tabs| > 1 {
      var tabs := s.tabs[..i] + s.tabs[i + 1..];
      WithoutAt(s.tabs, i);
      RemoveKeeps(s.tabs, s.nextTabId, i);
      ActivePlace(s);
      var k := PlaceAfter(FindIndex(s.tabs, s.activeTabId), i, |s.tabs|);
      ShowsTab(s, tabs, s.nextTabId, k);
      assert Reducer(s, CloseTab(id)) == WithTabs(s, tabs, tabs[k].id);
      assert Shown(s, Reducer(s, CloseTab(id)), k);
    }
  }

  lemma NothingToClose(s: State, id: nat)
    requires s.tabs != [] && forall i | 0 <= i < |s.tabs| :: s.tabs[i].id != id
    ensures Reducer(s, CloseTab(id)) == s && Reducer(s, ActivateTab(id)) == s
  {
  }

  // An open tab is shown when it is activated; no other field of the tabs changes.
  lemma Activated(s: State, id: nat, i: int)
    requires Inv(s) && 0 <= i < |s.tabs| && s.tabs[i].id == id
    ensures id == s.activeTabId ==> Reducer(s, ActivateTab(id)) == s
    ensures id != s.activeTabId ==>
      var r := Reducer(s, ActivateTab(id));
      && r.tabs == s.tabs && Shown(s, r, i)
      && r.nextTabId == s.nextTabId && !r.overview && r.palette == s.palette
  {
  }

  function NextPlace(i: nat, count: nat, forward: bool): int {
    if forward then (if i + 1 == count then 0 else i + 1) else if i == 0 then count - 1 else i - 1
  }

  lemma CycledPlace(i: nat, count: nat, forward: bool)
    requires i < count
    ensures NextPlace(i, count, forward) == (i + (if forward then 1 else -1) + count) % count
  {
    if forward && i + 1 < count {
      assert i + 1 + count == (i + 1) + 1 * count;
    }
  }

  // Cycling shows the tab to the right or to the left, and goes round at the ends.
  lemma Cycled(s: State, forward: bool, i: int)
    requires Inv(s) && ActiveAt(s, i)
    ensures |s.tabs| == 1 ==> Reducer(s, CycleTab(forward)) == s
    ensures |s.tabs| > 1 ==>
      var r := Reducer(s, CycleTab(forward));
      && r.tabs == s.tabs && Shown(s, r, NextPlace(i, |s.tabs|, forward))
      && r.nextTabId == s.nextTabId && !r.overview && r.palette == s.palette
  {
    if |s.tabs| > 1 {
      ActivePlace(s);
      var k := NextPlace(i, |s.tabs|, forward);
      CycledPlace(i, |s.tabs|, forward);
      ShowsTab(s, s.tabs, s.nextTabId, k);
      assert Reducer(s, CycleTab(forward)) == WithTabs(s, s.tabs, s.tabs[k].id).(overview := false);
    }
  }

  predicate Exclude(a: PanelName, b: PanelName) {
    (a == Agent && b == Git) || (a == Git && b == Agent)
  }

  // A panel message opens or closes that panel, by default the other way than it stood, and opening
  // one of the agent and git panels closes the other.
  lemma PanelSet(s: State, name: PanelName, v: Option<bool>)
    requires s.tabs != []
    ensures var r := Reducer(s, Panel(name, v));
      var open := v == Some(true) || (v == None && !IsOpen(s.panels, name));
      && r == s.(panels := r.panels)
      && (forall other :: other != name ==>
          IsOpen(r.panels, other) == (IsOpen(s.panels, other) && !(open && Exclude(name, other))))
      && IsOpen(r.panels, name) == open
  {
  }
}
