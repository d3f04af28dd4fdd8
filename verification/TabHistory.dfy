/** The reader's tabs: the reducer branches that change tabs, per-tab history, the
    mirrored selection and the side panels. */
module TabHistory {
  import opened Options

  datatype Tab = Tab(id: nat, conceptId: Option<string>, back: seq<string>, fwd: seq<string>)

  datatype Panels = Panels(
    sidebar: bool, reader: bool, log: bool, validation: bool, lineage: bool, agent: bool, git: bool)

  datatype PanelName = Sidebar | Reader | Log | Validation | Lineage | Agent | Git

  datatype Entry = Entry(isConcept: bool, target: string)

  // `entries` are those of all sections of the index, in order.
  datatype IndexNode = IndexNode(dir: string, entries: seq<Entry>)

  datatype Bundle = Bundle(concepts: seq<string>, indexes: seq<IndexNode>)

  datatype State = State(
    activeRoot: Option<string>,
    bundle: Option<Bundle>,
    activeConceptId: Option<string>,
    back: seq<string>,
    fwd: seq<string>,
    tabs: seq<Tab>,
    activeTabId: nat,
    nextTabId: nat,
    overview: bool,
    palette: bool,
    panels: Panels)

  // `Other` stands for every message that only updates fields outside this model.
  datatype Msg =
    | SetBundle(root: string, newBundle: Bundle)
    | Select(selected: Option<string>)
    | Back
    | Fwd
    | OpenTab(newId: Option<string>, background: bool)
    | CloseTab(closed: nat)
    | ActivateTab(activated: nat)
    | CycleTab(forward: bool)
    | MoveTab(moved: nat, to: int)
    | Panel(name: PanelName, v: Option<bool>)
    | Overview(show: bool)
    | ShowOnlyType
    | Palette(open: bool)
    | Other

  function InitialState(sidebar: bool, agentOpen: bool): State {
    State(None, None, None, [], [], [Tab(1, None, [], [])], 1, 2, false, false,
          Panels(sidebar, true, false, false, false, agentOpen, false))
  }

  // ----- The bundle's pages

  predicate IsRootDir(dir: string) {
    dir == "" || dir == "."
  }

  // The directory a folder-home id lands on: `index` and `/index` are the root's.
  function DirForIndexId(id: string): Option<string> {
    if id == "" then None
    else if id == "index" then Some("")
    else if |id| >= 6 && id[|id| - 6..] == "/index" then Some(id[..|id| - 6])
    else None
  }

  predicate HasIndexNode(bundle: Bundle, id: string) {
    match DirForIndexId(id)
    case None => false
    case Some(dir) =>
      exists n :: n in bundle.indexes && if dir == "" then IsRootDir(n.dir) else n.dir == dir
  }

  predicate Exists(bundle: Bundle, id: Option<string>) {
    id.Some? && id.value != "" && (id.value in bundle.concepts || HasIndexNode(bundle, id.value))
  }

  function FirstEntry(entries: seq<Entry>): Option<string> {
    if entries == [] then None
    else if entries[0].isConcept then Some(entries[0].target)
    else FirstEntry(entries[1..])
  }

  function FirstListed(indexes: seq<IndexNode>): Option<string> {
    if indexes == [] then None
    else if FirstEntry(indexes[0].entries).Some? then FirstEntry(indexes[0].entries)
    else FirstListed(indexes[1..])
  }

  function DefaultConcept(bundle: Bundle): Option<string> {
    if exists n :: n in bundle.indexes && IsRootDir(n.dir) then Some("index")
    else if FirstListed(bundle.indexes).Some? then FirstListed(bundle.indexes)
    else if bundle.concepts != [] then Some(bundle.concepts[0])
    else None
  }

  // ----- Tabs

  // The first place of the tab, or -1.
  function FindIndex(tabs: seq<Tab>, id: nat): (r: int)
    ensures -1 <= r < |tabs|
    ensures r >= 0 ==> tabs[r].id == id && forall i | 0 <= i < r :: tabs[i].id != id
    ensures r < 0 ==> forall i | 0 <= i < |tabs| :: tabs[i].id != id
  {
    FindFrom(tabs, id, 0)
  }

  function FindFrom(tabs: seq<Tab>, id: nat, k: nat): (r: int)
    requires k <= |tabs|
    ensures -1 <= r < |tabs|
    ensures r >= 0 ==> k <= r && tabs[r].id == id && forall i | k <= i < r :: tabs[i].id != id
    ensures r < 0 ==> forall i | k <= i < |tabs| :: tabs[i].id != id
    decreases |tabs| - k
  {
    if k == |tabs| then -1
    else if tabs[k].id == id then k
    else FindFrom(tabs, id, k + 1)
  }

  // The reducer writes tabs through here only, and this re-derives the mirrors.
  function WithTabs(s: State, tabs: seq<Tab>, activeTabId: nat): State
    requires tabs != []
  {
    var i := FindIndex(tabs, activeTabId);
    var t := if i >= 0 then tabs[i] else tabs[0];
    s.(tabs := tabs, activeTabId := t.id, activeConceptId := t.conceptId, back := t.back, fwd := t.fwd)
  }

  function UpdateTab(tabs: seq<Tab>, id: nat, f: Tab -> Tab): (r: seq<Tab>)
    ensures |r| == |tabs|
    ensures forall i | 0 <= i < |tabs| :: r[i] == if tabs[i].id == id then f(tabs[i]) else tabs[i]
  {
    seq(|tabs|, i requires 0 <= i < |tabs| => if tabs[i].id == id then f(tabs[i]) else tabs[i])
  }

  function Without(tabs: seq<Tab>, id: nat): seq<Tab> {
    if tabs == [] then []
    else (if tabs[0].id == id then [] else [tabs[0]]) + Without(tabs[1..], id)
  }

  // A concept is shown when the id is there and not empty.
  predicate Shows(t: Tab) {
    t.conceptId.Some? && t.conceptId.value != ""
  }

  function Current(t: Tab): seq<string> {
    if Shows(t) then [t.conceptId.value] else []
  }

  function GoTo(t: Tab, id: Option<string>): Tab {
    t.(conceptId := id, back := t.back + Current(t), fwd := [])
  }

  function GoBack(t: Tab): Tab {
    if t.back == [] then t
    else t.(back := t.back[..|t.back| - 1], fwd := Current(t) + t.fwd, conceptId := Some(t.back[|t.back| - 1]))
  }

  function GoForward(t: Tab): Tab {
    if t.fwd == [] then t
    else t.(fwd := t.fwd[1..], back := t.back + Current(t), conceptId := Some(t.fwd[0]))
  }

  function Refresh(t: Tab, bundle: Bundle, active: nat): Tab {
    if Exists(bundle, t.conceptId) then t
    else t.(conceptId := if t.id == active then DefaultConcept(bundle) else None)
  }

  function RefreshAll(tabs: seq<Tab>, bundle: Bundle, active: nat): (r: seq<Tab>)
    ensures |r| == |tabs|
    ensures forall i | 0 <= i < |tabs| :: r[i] == Refresh(tabs[i], bundle, active)
  {
    seq(|tabs|, i requires 0 <= i < |tabs| => Refresh(tabs[i], bundle, active))
  }

  function InsertAt(tabs: seq<Tab>, i: nat, t: Tab): seq<Tab>
    requires i <= |tabs|
  {
    tabs[..i] + [t] + tabs[i..]
  }

  function Clamp(x: int, lo: int, hi: int): int {
    if x < lo then lo else if x > hi then hi else x
  }

  function SetPanel(p: Panels, name: PanelName, open: bool): Panels {
    match name
    case Sidebar => p.(sidebar := open)
    case Reader => p.(reader := open)
    case Log => p.(log := open)
    case Validation => p.(validation := open)
    case Lineage => p.(lineage := open)
    case Agent => p.(agent := open, git := if open then false else p.git)
    case Git => p.(git := open, agent := if open then false else p.agent)
  }

  function IsOpen(p: Panels, name: PanelName): bool {
    match name
    case Sidebar => p.sidebar
    case Reader => p.reader
    case Log => p.log
    case Validation => p.validation
    case Lineage => p.lineage
    case Agent => p.agent
    case Git => p.git
  }

  // ----- The reducer

  function OnSetBundle(s: State, root: string, bundle: Bundle): State
    requires s.tabs != []
  {
    if Some(root) != s.activeRoot then
      var shown := if Exists(bundle, s.activeConceptId) then s.activeConceptId else DefaultConcept(bundle);
      var tab := Tab(s.nextTabId, shown, [], []);
      WithTabs(s.(activeRoot := Some(root), bundle := Some(bundle), nextTabId := s.nextTabId + 1), [tab], tab.id)
    else
      WithTabs(s.(activeRoot := Some(root), bundle := Some(bundle)),
               RefreshAll(s.tabs, bundle, s.activeTabId), s.activeTabId)
  }

  function OnSelect(s: State, id: Option<string>): State
    requires s.tabs != []
  {
    if id == s.activeConceptId then s.(overview := false)
    else
      WithTabs(s, UpdateTab(s.tabs, s.activeTabId, t => GoTo(t, id)), s.activeTabId)
      .(palette := false, overview := false)
  }

  function OnBack(s: State): State
    requires s.tabs != []
  {
    if s.back == [] then s else WithTabs(s, UpdateTab(s.tabs, s.activeTabId, t => GoBack(t)), s.activeTabId)
  }

  function OnFwd(s: State): State
    requires s.tabs != []
  {
    if s.fwd == [] then s else WithTabs(s, UpdateTab(s.tabs, s.activeTabId, t => GoForward(t)), s.activeTabId)
  }

  function OnOpenTab(s: State, id: Option<string>, background: bool): State
    requires s.tabs != []
  {
    var tab := Tab(s.nextTabId, id, [], []);
    var tabs := InsertAt(s.tabs, FindIndex(s.tabs, s.activeTabId) + 1, tab);
    var grown := s.(nextTabId := s.nextTabId + 1);
    if background then WithTabs(grown, tabs, s.activeTabId)
    else WithTabs(grown, tabs, tab.id).(palette := false, overview := false)
  }

  function OnCloseTab(s: State, id: nat): State
    requires s.tabs != []
  {
    if |s.tabs| <= 1 then s
    else
      var i := FindIndex(s.tabs, id);
      if i < 0 then s
      else
        var tabs := Without(s.tabs, id);
        if tabs == [] then s  // only if every tab had this id
        else
          var active := if id == s.activeTabId then tabs[if i < |tabs| then i else |tabs| - 1].id else s.activeTabId;
          WithTabs(s, tabs, active)
  }

  function OnActivateTab(s: State, id: nat): State
    requires s.tabs != []
  {
    if FindIndex(s.tabs, id) < 0 || id == s.activeTabId then s
    else WithTabs(s, s.tabs, id).(overview := false)
  }

  function OnCycleTab(s: State, forward: bool): State
    requires s.tabs != []
  {
    if |s.tabs| < 2 then s
    else
      var i := FindIndex(s.tabs, s.activeTabId);
      var next := s.tabs[(i + (if forward then 1 else -1) + |s.tabs|) % |s.tabs|];
      WithTabs(s, s.tabs, next.id).(overview := false)
  }

  // The tab at i taken out and put back at `at`.
  function Moved(tabs: seq<Tab>, i: nat, at: nat): seq<Tab>
    requires i < |tabs| && at < |tabs|
  {
    InsertAt(tabs[..i] + tabs[i + 1..], at, tabs[i])
  }

  function OnMoveTab(s: State, id: nat, to: int): State
    requires s.tabs != []
  {
    var i := FindIndex(s.tabs, id);
    if i < 0 then s
    else
      var at := Clamp(to, 0, |s.tabs| - 1);
      if at == i then s
      else WithTabs(s, Moved(s.tabs, i, at), s.activeTabId)
  }

  function Reducer(s: State, m: Msg): State
    requires s.tabs != []
  {
    match m
    case SetBundle(root, bundle) => OnSetBundle(s, root, bundle)
    case Select(id) => OnSelect(s, id)
    case Back => OnBack(s)
    case Fwd => OnFwd(s)
    case OpenTab(id, background) => OnOpenTab(s, id, background)
    case CloseTab(id) => OnCloseTab(s, id)
    case ActivateTab(id) => OnActivateTab(s, id)
    case CycleTab(forward) => OnCycleTab(s, forward)
    case MoveTab(id, to) => OnMoveTab(s, id, to)
    case Panel(name, v) => s.(panels := SetPanel(s.panels, name, if v.Some? then v.value else !IsOpen(s.panels, name)))
    case Overview(show) => s.(overview := show)
    case ShowOnlyType => s.(overview := false)
    case Palette(open) => s.(palette := open)
    case Other => s
  }

  // ----- What every reachable state satisfies

  // No history entry is an empty id.
  ghost predicate CleanHistory(t: Tab) {
    && (forall k | 0 <= k < |t.back| :: t.back[k] != "")
    && (forall k | 0 <= k < |t.fwd| :: t.fwd[k] != "")
  }

  // At least one tab, ids distinct and below the next one, histories clean.
  ghost predicate TabsOk(tabs: seq<Tab>, nextTabId: nat) {
    && tabs != []
    && (forall i, j | 0 <= i < j < |tabs| :: tabs[i].id != tabs[j].id)
    && (forall i | 0 <= i < |tabs| :: tabs[i].id < nextTabId && CleanHistory(tabs[i]))
  }

  // The mirrored selection is that of the active tab, which is open.
  ghost predicate Mirrors(s: State) {
    var i := FindIndex(s.tabs, s.activeTabId);
    && i >= 0
    && s.activeConceptId == s.tabs[i].conceptId
    && s.back == s.tabs[i].back
    && s.fwd == s.tabs[i].fwd
  }

  ghost predicate Inv(s: State) {
    && TabsOk(s.tabs, s.nextTabId)
    && Mirrors(s)
    && !(s.panels.agent && s.panels.git)
  }

  // Any well-formed list of tabs gives a state with exact mirrors, and keeps an open active tab.
  lemma WithTabsMirrors(s: State, tabs: seq<Tab>, activeTabId: nat)
    requires TabsOk(tabs, s.nextTabId) && !(s.panels.agent && s.panels.git)
    ensures Inv(WithTabs(s, tabs, activeTabId))
    ensures FindIndex(tabs, activeTabId) >= 0 ==> WithTabs(s, tabs, activeTabId).activeTabId == activeTabId
  {
    var r := WithTabs(s, tabs, activeTabId);
    var i := FindIndex(tabs, r.activeTabId);
    assert tabs[0].id == r.activeTabId || FindIndex(tabs, activeTabId) >= 0;
  }

  lemma UpdateKeepsTabs(tabs: seq<Tab>, nextTabId: nat, id: nat, f: Tab -> Tab)
    requires TabsOk(tabs, nextTabId)
    requires forall t :: f(t).id == t.id && (CleanHistory(t) ==> CleanHistory(f(t)))
    ensures TabsOk(UpdateTab(tabs, id, f), nextTabId)
  {
  }

  lemma {:induction false} WithoutKeeps(tabs: seq<Tab>, id: nat)
    requires forall i, j | 0 <= i < j < |tabs| :: tabs[i].id != tabs[j].id
    ensures var i := FindIndex(tabs, id);
      Without(tabs, id) == if i < 0 then tabs else tabs[..i] + tabs[i + 1..]
  {
    if tabs != [] {
      var rest := tabs[1..];
      WithoutKeeps(rest, id);
      var i, k := FindIndex(tabs, id), FindIndex(rest, id);
      assert k >= 0 ==> tabs[k + 1].id == id;
      assert i > 0 ==> rest[i - 1].id == id;
    }
  }

  // ----- Every step keeps the invariant

  lemma InitialHolds(sidebar: bool, agentOpen: bool)
    ensures Inv(InitialState(sidebar, agentOpen))
  {
  }

  lemma NavigateKeeps(s: State, f: Tab -> Tab)
    requires Inv(s)
    requires forall t :: f(t).id == t.id && (CleanHistory(t) ==> CleanHistory(f(t)))
    ensures Inv(WithTabs(s, UpdateTab(s.tabs, s.activeTabId, f), s.activeTabId))
  {
    UpdateKeepsTabs(s.tabs, s.nextTabId, s.activeTabId, f);
    WithTabsMirrors(s, UpdateTab(s.tabs, s.activeTabId, f), s.activeTabId);
  }

  lemma NavigationIsClean(t: Tab, id: Option<string>)
    requires CleanHistory(t)
    ensures CleanHistory(GoTo(t, id)) && CleanHistory(GoBack(t)) && CleanHistory(GoForward(t))
  {
  }

  lemma InsertKeeps(tabs: seq<Tab>, nextTabId: nat, i: nat, t: Tab)
    requires tabs == [] || TabsOk(tabs, nextTabId)
    requires i <= |tabs| && CleanHistory(t) && t.id < nextTabId
    requires forall k | 0 <= k < |tabs| :: tabs[k].id != t.id
    ensures TabsOk(InsertAt(tabs, i, t), nextTabId)
  {
    var r := InsertAt(tabs, i, t);
    forall k | 0 <= k < |r| ensures r[k] == if k < i then tabs[k] else if k == i then t else tabs[k - 1] {}
  }

  lemma RemoveKeeps(tabs: seq<Tab>, nextTabId: nat, i: nat)
    requires TabsOk(tabs, nextTabId) && i < |tabs|
    ensures var rest := tabs[..i] + tabs[i + 1..];
      && (rest == [] || TabsOk(rest, nextTabId))
      && forall k | 0 <= k < |rest| :: rest[k].id != tabs[i].id
  {
    var rest := tabs[..i] + tabs[i + 1..];
    forall k | 0 <= k < |rest| ensures rest[k] == if k < i then tabs[k] else tabs[k + 1] {}
  }

  lemma GrowKeeps(tabs: seq<Tab>, nextTabId: nat)
    requires TabsOk(tabs, nextTabId)
    ensures TabsOk(tabs, nextTabId + 1)
  {
  }

  lemma SetBundleKeeps(s: State, root: string, bundle: Bundle)
    requires Inv(s)
    ensures Inv(OnSetBundle(s, root, bundle))
  {
    if Some(root) != s.activeRoot {
      var shown := if Exists(bundle, s.activeConceptId) then s.activeConceptId else DefaultConcept(bundle);
      var tab := Tab(s.nextTabId, shown, [], []);
      var grown := s.(activeRoot := Some(root), bundle := Some(bundle), nextTabId := s.nextTabId + 1);
      WithTabsMirrors(grown, [tab], tab.id);
    } else {
      var tabs := RefreshAll(s.tabs, bundle, s.activeTabId);
      WithTabsMirrors(s.(activeRoot := Some(root), bundle := Some(bundle)), tabs, s.activeTabId);
    }
  }

  lemma OpenTabKeeps(s: State, id: Option<string>, background: bool)
    requires Inv(s)
    ensures Inv(OnOpenTab(s, id, background))
  {
    var tab := Tab(s.nextTabId, id, [], []);
    var at := FindIndex(s.tabs, s.activeTabId) + 1;
    GrowKeeps(s.tabs, s.nextTabId);
    InsertKeeps(s.tabs, s.nextTabId + 1, at, tab);
    WithTabsMirrors(s.(nextTabId := s.nextTabId + 1), InsertAt(s.tabs, at, tab),
                   if background then s.activeTabId else tab.id);
  }

  lemma CloseTabKeeps(s: State, id: nat)
    requires Inv(s)
    ensures Inv(OnCloseTab(s, id))
  {
    var i := FindIndex(s.tabs, id);
    if |s.tabs| > 1 && i >= 0 {
      var tabs := Without(s.tabs, id);
      assert TabsOk(tabs, s.nextTabId) && |tabs| == |s.tabs| - 1 by {
        WithoutKeeps(s.tabs, id);
        RemoveKeeps(s.tabs, s.nextTabId, i);
      }
      var active := if id == s.activeTabId then tabs[if i < |tabs| then i else |tabs| - 1].id else s.activeTabId;
      assert OnCloseTab(s, id) == WithTabs(s, tabs, active);
      WithTabsMirrors(s, tabs, active);
    }
  }

  lemma MovedTabs(tabs: seq<Tab>, nextTabId: nat, i: nat, at: nat)
    requires TabsOk(tabs, nextTabId) && i < |tabs| && at < |tabs|
    ensures TabsOk(Moved(tabs, i, at), nextTabId)
  {
    RemoveKeeps(tabs, nextTabId, i);
    InsertKeeps(tabs[..i] + tabs[i + 1..], nextTabId, at, tabs[i]);
  }

  lemma MoveTabKeeps(s: State, id: nat, to: int)
    requires Inv(s)
    ensures Inv(OnMoveTab(s, id, to))
  {
    var i := FindIndex(s.tabs, id);
    if i >= 0 {
      var at := Clamp(to, 0, |s.tabs| - 1);
      if at != i {
        MovedTabs(s.tabs, s.nextTabId, i, at);
        var tabs := Moved(s.tabs, i, at);
        assert OnMoveTab(s, id, to) == WithTabs(s, tabs, s.activeTabId);
        WithTabsMirrors(s, tabs, s.activeTabId);
      }
    }
  }

  lemma SelectKeeps(s: State, id: Option<string>)
    requires Inv(s)
    ensures Inv(OnSelect(s, id))
  {
    forall t | CleanHistory(t) ensures CleanHistory(GoTo(t, id)) { NavigationIsClean(t, id); }
    NavigateKeeps(s, t => GoTo(t, id));
  }

  lemma BackKeeps(s: State)
    requires Inv(s)
    ensures Inv(OnBack(s))
  {
    forall t | CleanHistory(t) ensures CleanHistory(GoBack(t)) { NavigationIsClean(t, None); }
    NavigateKeeps(s, t => GoBack(t));
  }

  lemma FwdKeeps(s: State)
    requires Inv(s)
    ensures Inv(OnFwd(s))
  {
    forall t | CleanHistory(t) ensures CleanHistory(GoForward(t)) { NavigationIsClean(t, None); }
    NavigateKeeps(s, t => GoForward(t));
  }

  lemma ActivateKeeps(s: State, id: nat)
    requires Inv(s)
    ensures Inv(OnActivateTab(s, id))
  {
    WithTabsMirrors(s, s.tabs, id);
  }

  lemma CycleKeeps(s: State, forward: bool)
    requires Inv(s)
    ensures Inv(OnCycleTab(s, forward))
  {
    if |s.tabs| >= 2 {
      var i := FindIndex(s.tabs, s.activeTabId);
      var next := s.tabs[(i + (if forward then 1 else -1) + |s.tabs|) % |s.tabs|];
      WithTabsMirrors(s, s.tabs, next.id);
    }
  }

  // Agent and git exclude one another, and the view has no part in the tabs.
  lemma ViewKeeps(s: State, p: Panels, overview: bool, palette: bool)
    requires Inv(s) && !(p.agent && p.git)
    ensures Inv(s.(panels := p, overview := overview, palette := palette))
  {
  }

  lemma PanelKeeps(s: State, name: PanelName, v: Option<bool>)
    requires Inv(s)
    ensures Inv(Reducer(s, Panel(name, v)))
  {
    var open := if v.Some? then v.value else !IsOpen(s.panels, name);
    ViewKeeps(s, SetPanel(s.panels, name, open), s.overview, s.palette);
  }

  predicate ChangesTabs(m: Msg) {
    m.SetBundle? || m.OpenTab? || m.CloseTab? || m.MoveTab?
  }

  lemma TabStepKeeps(s: State, m: Msg)
    requires Inv(s) && ChangesTabs(m)
    ensures Inv(Reducer(s, m))
  {
    match m {
      case SetBundle(root, bundle) => SetBundleKeeps(s, root, bundle);
      case OpenTab(id, background) => OpenTabKeeps(s, id, background);
      case CloseTab(id) => CloseTabKeeps(s, id);
      case MoveTab(id, to) => MoveTabKeeps(s, id, to);
    }
  }

  predicate Navigates(m: Msg) {
    m.Select? || m.Back? || m.Fwd? || m.ActivateTab? || m.CycleTab?
  }

  lemma NavigationStepKeeps(s: State, m: Msg)
    requires Inv(s) && Navigates(m)
    ensures Inv(Reducer(s, m))
  {
    match m {
      case Select(id) => SelectKeeps(s, id);
      case Back => BackKeeps(s);
      case Fwd => FwdKeeps(s);
      case ActivateTab(id) => ActivateKeeps(s, id);
      case CycleTab(forward) => CycleKeeps(s, forward);
    }
  }

  lemma ViewStepKeeps(s: State, m: Msg)
    requires Inv(s) && !ChangesTabs(m) && !Navigates(m)
    ensures Inv(Reducer(s, m))
  {
    match m {
      case Panel(name, v) => PanelKeeps(s, name, v);
      case Overview(show) => ViewKeeps(s, s.panels, show, s.palette);
      case ShowOnlyType => ViewKeeps(s, s.panels, false, s.palette);
      case Palette(open) => ViewKeeps(s, s.panels, s.overview, open);
      case Other =>
    }
  }

  // Whatever the message, a state with the invariant goes to one with the invariant.
  lemma StepKeeps(s: State, m: Msg)
    requires Inv(s)
    ensures Inv(Reducer(s, m))
  {
    if ChangesTabs(m) { TabStepKeeps(s, m); }
    else if Navigates(m) { NavigationStepKeeps(s, m); }
    else { ViewStepKeeps(s, m); }
  }

  // The state after a run of messages.
  function Run(s: State, msgs: seq<Msg>): State
    requires Inv(s)
    decreases |msgs|
  {
    if msgs == [] then s
    else
      StepKeeps(s, msgs[0]);
      Run(Reducer(s, msgs[0]), msgs[1..])
  }

  lemma {:induction false} RunKeeps(s: State, msgs: seq<Msg>)
    requires Inv(s)
    ensures Inv(Run(s, msgs))
    decreases |msgs|
  {
    if msgs != [] {
      StepKeeps(s, msgs[0]);
      RunKeeps(Reducer(s, msgs[0]), msgs[1..]);
    }
  }

  // In every reachable state.
  lemma ReachableStatesHold(sidebar: bool, agentOpen: bool, msgs: seq<Msg>)
    ensures Inv(InitialState(sidebar, agentOpen)) && Inv(Run(InitialState(sidebar, agentOpen), msgs))
  {
    InitialHolds(sidebar, agentOpen);
    RunKeeps(InitialState(sidebar, agentOpen), msgs);
  }

  // ----- Tab ids are never used twice

  function Ids(tabs: seq<Tab>): set<nat> {
    set t | t in tabs :: t.id
  }

  lemma {:induction false} WithoutIsSubset(tabs: seq<Tab>, id: nat)
    ensures forall t | t in Without(tabs, id) :: t in tabs
  {
    if tabs != [] { WithoutIsSubset(tabs[1..], id); }
  }

  lemma SamePlaceSameIds(a: seq<Tab>, b: seq<Tab>)
    requires |a| == |b| && forall i | 0 <= i < |a| :: a[i].id == b[i].id
    ensures Ids(a) == Ids(b)
  {
    forall id | id in Ids(a) ensures id in Ids(b) {
      var i :| 0 <= i < |a| && a[i].id == id;
      assert b[i] in b;
    }
    forall id | id in Ids(b) ensures id in Ids(a) {
      var i :| 0 <= i < |b| && b[i].id == id;
      assert a[i] in a;
    }
  }

  // Every tab of r was a tab of s or carries the id s had ready.
  ghost predicate FreshOnly(s: State, r: State) {
    && r.nextTabId >= s.nextTabId
    && Ids(r.tabs) <= Ids(s.tabs) + {s.nextTabId}
    && (s.nextTabId in Ids(r.tabs) ==> r.nextTabId > s.nextTabId || s.nextTabId in Ids(s.tabs))
  }

  lemma InsertIds(tabs: seq<Tab>, i: nat, t: Tab)
    requires i <= |tabs|
    ensures Ids(InsertAt(tabs, i, t)) <= Ids(tabs) + {t.id}
  {
    forall x | x in InsertAt(tabs, i, t) ensures x in tabs || x == t {}
  }

  lemma SubsetIds(a: seq<Tab>, b: seq<Tab>)
    requires forall t | t in a :: t in b
    ensures Ids(a) <= Ids(b)
  {
  }

  lemma SetBundleIsFresh(s: State, root: string, bundle: Bundle)
    requires Inv(s)
    ensures FreshOnly(s, OnSetBundle(s, root, bundle))
  {
    if Some(root) == s.activeRoot {
      SamePlaceSameIds(RefreshAll(s.tabs, bundle, s.activeTabId), s.tabs);
    }
  }

  lemma OpenTabIsFresh(s: State, id: Option<string>, background: bool)
    requires Inv(s)
    ensures FreshOnly(s, OnOpenTab(s, id, background))
  {
    InsertIds(s.tabs, FindIndex(s.tabs, s.activeTabId) + 1, Tab(s.nextTabId, id, [], []));
  }

  lemma CloseTabIsFresh(s: State, id: nat)
    requires Inv(s)
    ensures FreshOnly(s, OnCloseTab(s, id))
  {
    WithoutIsSubset(s.tabs, id);
    SubsetIds(Without(s.tabs, id), s.tabs);
  }

  lemma MovedIds(tabs: seq<Tab>, i: nat, at: nat)
    requires i < |tabs| && at < |tabs|
    ensures Ids(Moved(tabs, i, at)) <= Ids(tabs)
  {
    var rest := tabs[..i] + tabs[i + 1..];
    SubsetIds(rest, tabs);
    InsertIds(rest, at, tabs[i]);
    assert tabs[i] in tabs;
  }

  lemma MoveTabIsFresh(s: State, id: nat, to: int)
    requires s.tabs != []
    ensures FreshOnly(s, OnMoveTab(s, id, to))
  {
    var i := FindIndex(s.tabs, id);
    if i >= 0 { MovedIds(s.tabs, i, Clamp(to, 0, |s.tabs| - 1)); }
  }

  lemma TabStepAddsFreshIdsOnly(s: State, m: Msg)
    requires Inv(s) && ChangesTabs(m)
    ensures FreshOnly(s, Reducer(s, m))
  {
    match m {
      case SetBundle(root, bundle) => SetBundleIsFresh(s, root, bundle);
      case OpenTab(id, background) => OpenTabIsFresh(s, id, background);
      case CloseTab(id) => CloseTabIsFresh(s, id);
      case MoveTab(id, to) => MoveTabIsFresh(s, id, to);
    }
  }

  lemma ViewStepKeepsIds(s: State, m: Msg)
    requires Inv(s) && !ChangesTabs(m)
    ensures Reducer(s, m).nextTabId == s.nextTabId && Ids(Reducer(s, m).tabs) == Ids(s.tabs)
  {
    SamePlaceSameIds(Reducer(s, m).tabs, s.tabs);
  }

  // A tab that is gone never comes back under its id.
  lemma {:induction false} IdsAreNotReused(s: State, msgs: seq<Msg>, id: nat)
    requires Inv(s) && id < s.nextTabId && id !in Ids(s.tabs)
    ensures id !in Ids(Run(s, msgs).tabs)
    decreases |msgs|
  {
    if msgs != [] {
      StepKeeps(s, msgs[0]);
      if ChangesTabs(msgs[0]) { TabStepAddsFreshIdsOnly(s, msgs[0]); } else { ViewStepKeepsIds(s, msgs[0]); }
      IdsAreNotReused(Reducer(s, msgs[0]), msgs[1..], id);
    }
  }

  // ----- Timelines

  // A tab's history in visiting order: back, the shown concept if any, forward.
  function Timeline(t: Tab): seq<string> {
    t.back + Current(t) + t.fwd
  }

  ghost predicate SameTimelines(a: seq<Tab>, b: seq<Tab>) {
    && |a| == |b|
    && forall i | 0 <= i < |a| :: a[i].id == b[i].id && Timeline(a[i]) == Timeline(b[i])
  }

  lemma GoBackKeepsTimeline(t: Tab)
    requires CleanHistory(t)
    ensures Timeline(GoBack(t)) == Timeline(t)
  {
    if t.back != [] {
      assert t.back == t.back[..|t.back| - 1] + [t.back[|t.back| - 1]];
    }
  }

  lemma GoForwardKeepsTimeline(t: Tab)
    requires CleanHistory(t)
    ensures Timeline(GoForward(t)) == Timeline(t)
  {
    if t.fwd != [] {
      assert t.fwd == [t.fwd[0]] + t.fwd[1..];
    }
  }

  lemma UpdateKeepsTimelines(tabs: seq<Tab>, id: nat, f: Tab -> Tab)
    requires forall i | 0 <= i < |tabs| :: f(tabs[i]).id == tabs[i].id && Timeline(f(tabs[i])) == Timeline(tabs[i])
    ensures SameTimelines(UpdateTab(tabs, id, f), tabs)
  {
  }

  lemma BackStepKeepsTimelines(s: State)
    requires Inv(s)
    ensures SameTimelines(OnBack(s).tabs, s.tabs) && OnBack(s).activeTabId == s.activeTabId
  {
    forall i | 0 <= i < |s.tabs| ensures Timeline(GoBack(s.tabs[i])) == Timeline(s.tabs[i]) {
      assert CleanHistory(s.tabs[i]);
      GoBackKeepsTimeline(s.tabs[i]);
    }
    UpdateKeepsTimelines(s.tabs, s.activeTabId, t => GoBack(t));
    ActiveStays(s, t => GoBack(t));
  }

  lemma FwdStepKeepsTimelines(s: State)
    requires Inv(s)
    ensures SameTimelines(OnFwd(s).tabs, s.tabs) && OnFwd(s).activeTabId == s.activeTabId
  {
    forall i | 0 <= i < |s.tabs| ensures Timeline(GoForward(s.tabs[i])) == Timeline(s.tabs[i]) {
      assert CleanHistory(s.tabs[i]);
      GoForwardKeepsTimeline(s.tabs[i]);
    }
    UpdateKeepsTimelines(s.tabs, s.activeTabId, t => GoForward(t));
    ActiveStays(s, t => GoForward(t));
  }

  lemma TimelinesTransitive(a: seq<Tab>, b: seq<Tab>, c: seq<Tab>)
    requires SameTimelines(a, b) && SameTimelines(b, c)
    ensures SameTimelines(a, c)
  {
  }

  // Any run of back and forward keeps every tab's timeline.
  lemma {:induction false} BackAndForwardKeepTimelines(s: State, msgs: seq<Msg>)
    requires Inv(s) && forall i | 0 <= i < |msgs| :: msgs[i] == Back || msgs[i] == Fwd
    ensures SameTimelines(Run(s, msgs).tabs, s.tabs) && Run(s, msgs).activeTabId == s.activeTabId
    decreases |msgs|
  {
    if msgs != [] {
      StepKeeps(s, msgs[0]);
      var next := Reducer(s, msgs[0]);
      assert SameTimelines(next.tabs, s.tabs) && next.activeTabId == s.activeTabId by {
        if msgs[0] == Back { BackStepKeepsTimelines(s); } else { FwdStepKeepsTimelines(s); }
      }
      BackAndForwardKeepTimelines(next, msgs[1..]);
      TimelinesTransitive(Run(next, msgs[1..]).tabs, next.tabs, s.tabs);
    }
  }

  function ActiveTab(s: State): Tab
    requires s.tabs != [] && FindIndex(s.tabs, s.activeTabId) >= 0
  {
    s.tabs[FindIndex(s.tabs, s.activeTabId)]
  }

  lemma TabForwardUndoesBackIff(t: Tab)
    requires CleanHistory(t) && t.back != []
    ensures GoForward(GoBack(t)) == t <==> Shows(t)
  {
    var b := GoBack(t);
    assert t.back == t.back[..|t.back| - 1] + [t.back[|t.back| - 1]];
    if Shows(t) {
      assert b.fwd[1..] == t.fwd;
    } else {
      assert b.fwd == t.fwd;
    }
  }

  lemma TabBackUndoesForwardIff(t: Tab)
    requires CleanHistory(t) && t.fwd != []
    ensures GoBack(GoForward(t)) == t <==> Shows(t)
  {
    var f := GoForward(t);
    if Shows(t) {
      var shown := t.conceptId.value;
      assert f == Tab(t.id, Some(t.fwd[0]), t.back + [shown], t.fwd[1..]);
      assert f.back[..|f.back| - 1] == t.back && [t.fwd[0]] + t.fwd[1..] == t.fwd;
    } else {
      assert f == Tab(t.id, Some(t.fwd[0]), t.back, t.fwd[1..]);
      assert GoBack(f).conceptId == Some(if t.back == [] then t.fwd[0] else t.back[|t.back| - 1]);
    }
  }

  // Forward after back restores the whole state exactly when a concept was shown.
  lemma ForwardUndoesBackIff(s: State)
    requires Inv(s) && s.back != []
    ensures Reducer(Reducer(s, Back), Fwd) == s <==> Shows(ActiveTab(s))
  {
    var i := FindIndex(s.tabs, s.activeTabId);
    var t := s.tabs[i];
    assert CleanHistory(s.tabs[i]);
    TabForwardUndoesBackIff(t);
    StepKeeps(s, Back);
    var b := Reducer(s, Back);
    ActiveStays(s, t => GoBack(t));
    if b.fwd == [] {
      assert !Shows(t);
      assert b.activeConceptId == Some(t.back[|t.back| - 1]);
    } else {
      StepKeeps(b, Fwd);
      ActiveStays(b, t => GoForward(t));
      var r := Reducer(b, Fwd);
      assert r.tabs[i] == GoForward(GoBack(t));
      if Shows(t) {
        assert r.tabs == s.tabs;
      }
    }
  }

  // Updating the active tab touches no other tab, and the mirrors follow it.
  lemma ActiveStays(s: State, f: Tab -> Tab)
    requires s.tabs != [] && FindIndex(s.tabs, s.activeTabId) >= 0
    requires forall i, j | 0 <= i < j < |s.tabs| :: s.tabs[i].id != s.tabs[j].id
    requires forall t :: f(t).id == t.id
    ensures var i := FindIndex(s.tabs, s.activeTabId);
      var r := WithTabs(s, UpdateTab(s.tabs, s.activeTabId, f), s.activeTabId);
      && r.tabs == s.tabs[i := f(s.tabs[i])]
      && FindIndex(r.tabs, s.activeTabId) == i && r.activeTabId == s.activeTabId
      && r == s.(tabs := r.tabs, activeConceptId := f(s.tabs[i]).conceptId, back := f(s.tabs[i]).back,
           fwd := f(s.tabs[i]).fwd)
  {
    var i := FindIndex(s.tabs, s.activeTabId);
    var tabs := UpdateTab(s.tabs, s.activeTabId, f);
    forall k | 0 <= k < |tabs| ensures tabs[k] == s.tabs[i := f(s.tabs[i])][k] {
      assert k != i ==> s.tabs[k].id != s.activeTabId;
    }
    var j := FindIndex(tabs, s.activeTabId);
    assert tabs[i].id == s.activeTabId;
  }

  // Selecting another concept keeps the active tab's history up to what it showed,
  // drops its forward part, and leaves every other tab alone.
  lemma SelectCutsForwardOnly(s: State, id: Option<string>)
    requires Inv(s) && id != s.activeConceptId
    ensures var i := FindIndex(s.tabs, s.activeTabId);
      var r := Reducer(s, Select(id));
      && r.tabs == s.tabs[i := r.tabs[i]] && r.tabs[i].conceptId == id
      && Timeline(r.tabs[i]) == s.tabs[i].back + Current(s.tabs[i]) + Current(r.tabs[i])
      && r.activeTabId == s.activeTabId && !r.overview && !r.palette
  {
    ActiveStays(s, t => GoTo(t, id));
  }

  lemma InsertMultiset(tabs: seq<Tab>, i: nat, t: Tab)
    requires i <= |tabs|
    ensures multiset(InsertAt(tabs, i, t)) == multiset(tabs) + multiset{t}
    ensures InsertAt(tabs, i, t)[i] == t
    ensures InsertAt(tabs, i, t)[..i] + InsertAt(tabs, i, t)[i + 1..] == tabs
  {
    assert tabs == tabs[..i] + tabs[i..];
  }

  lemma RemoveMultiset(tabs: seq<Tab>, i: nat)
    requires i < |tabs|
    ensures multiset(tabs[..i] + tabs[i + 1..]) + multiset{tabs[i]} == multiset(tabs)
  {
    assert tabs == tabs[..i] + [tabs[i]] + tabs[i + 1..];
  }

  lemma MovedIsAReorder(tabs: seq<Tab>, nextTabId: nat, i: nat, at: nat)
    requires TabsOk(tabs, nextTabId) && i < |tabs| && at < |tabs|
    ensures IsReorder(tabs, i, at, Moved(tabs, i, at))
  {
    var rest := tabs[..i] + tabs[i + 1..];
    MovedTabs(tabs, nextTabId, i, at);
    RemoveMultiset(tabs, i);
    InsertMultiset(rest, at, tabs[i]);
    WithoutAt(tabs, i);
    WithoutAt(InsertAt(rest, at, tabs[i]), at);
  }

  lemma WithoutAt(tabs: seq<Tab>, i: nat)
    requires i < |tabs| && forall j, k | 0 <= j < k < |tabs| :: tabs[j].id != tabs[k].id
    ensures Without(tabs, tabs[i].id) == tabs[..i] + tabs[i + 1..]
  {
    WithoutKeeps(tabs, tabs[i].id);
  }

  // The place asked for, or the nearest one there is.
  ghost predicate ClampedTo(to: int, count: nat, at: nat) {
    at < count && (0 <= to < count ==> at == to) && (to < 0 ==> at == 0) && (to >= count ==> at == count - 1)
  }

  // Moving a tab changes nothing but the order of the tabs: the moved one stands at the
  // clamped place and the others follow each other as before.
  lemma MoveIsAReorder(s: State, id: nat, to: int) returns (at: nat)
    requires Inv(s) && FindIndex(s.tabs, id) >= 0
    ensures ClampedTo(to, |s.tabs|, at)
    ensures var r := Reducer(s, MoveTab(id, to));
      r == s.(tabs := r.tabs) && IsReorder(s.tabs, FindIndex(s.tabs, id), at, r.tabs)
  {
    var i := FindIndex(s.tabs, id);
    at := Clamp(to, 0, |s.tabs| - 1);
    MovedState(s, i, at);
    MoveTabMoves(s, id, to, i, at);
  }

  lemma MoveTabMoves(s: State, id: nat, to: int, i: nat, at: nat)
    requires s.tabs != [] && i == FindIndex(s.tabs, id) && at == Clamp(to, 0, |s.tabs| - 1)
    ensures Reducer(s, MoveTab(id, to)) == if at == i then s else WithTabs(s, Moved(s.tabs, i, at), s.activeTabId)
  {
  }

  lemma MovedState(s: State, i: nat, at: nat)
    requires Inv(s) && i < |s.tabs| && at < |s.tabs|
    ensures WithTabs(s, Moved(s.tabs, i, at), s.activeTabId) == s.(tabs := Moved(s.tabs, i, at))
    ensures IsReorder(s.tabs, i, at, Moved(s.tabs, i, at))
  {
    MovedIsAReorder(s.tabs, s.nextTabId, i, at);
    SameTabsSameMirrors(s, Moved(s.tabs, i, at));
  }

  ghost predicate IsReorder(tabs: seq<Tab>, i: nat, at: nat, moved: seq<Tab>) {
    && i < |tabs| && at < |tabs| == |moved|
    && multiset(moved) == multiset(tabs)
    && moved[at] == tabs[i]
    && Without(moved, tabs[i].id) == Without(tabs, tabs[i].id)
  }

  lemma SameTabsSameMirrors(s: State, tabs: seq<Tab>)
    requires Inv(s) && multiset(tabs) == multiset(s.tabs)
    ensures tabs != [] && WithTabs(s, tabs, s.activeTabId) == s.(tabs := tabs)
  {
    var a := ActiveTab(s);
    assert a in multiset(s.tabs) && a in tabs;
    var i := FindIndex(tabs, s.activeTabId);
    assert tabs[i] in multiset(tabs) && tabs[i] in s.tabs;
    var k :| 0 <= k < |s.tabs| && s.tabs[k] == tabs[i];
    assert k == FindIndex(s.tabs, s.activeTabId);
  }
}
