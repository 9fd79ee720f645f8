/** The tab/panel controller: the rendered tabs and panels, the persisted
    selection and the URL fragment, and the transitions that all converge
    on `activate`. */
module Tabs {
  import opened Js
  import opened Items

  /** A tab button: `data-target`, caption and `aria-selected`. */
  datatype Tab = Tab(target: string, caption: string, selected: bool)

  /** A tab panel: `data-panel`, heading, the numbered list (when the area
      has entries) and `hidden`. */
  datatype Panel = Panel(id: string, heading: string, steps: Option<seq<Li>>, hidden: bool)

  /** Client storage: unavailable (every access throws and is swallowed),
      or a key/value store. */
  datatype Storage = Blocked | Store(entries: map<string, string>)

  /** Everything `activate` reads or writes. `fragment` is the URL hash
      without its leading `#`. */
  datatype Ui = Ui(tabs: seq<Tab>, panels: seq<Panel>, storage: Storage, fragment: string)

  const AreaKey := "musicala.area"

  /** `localStorage.setItem("musicala.area", id)`, failures swallowed. */
  function Remember(st: Storage, id: string): (r: Storage)
    ensures st.Blocked? ==> r.Blocked?
    ensures st.Store? ==> r.Store? && AreaKey in r.entries && r.entries[AreaKey] == id
    ensures st.Store? ==> forall k :: k != AreaKey ==>
      (k in r.entries <==> k in st.entries) && (k in st.entries ==> r.entries[k] == st.entries[k])
  {
    match st
    case Blocked => Blocked
    case Store(m) => Store(m[AreaKey := id])
  }

  /** `localStorage.getItem("musicala.area") || ""`, failures read as `""`. */
  function Recall(st: Storage): (r: string)
    ensures st.Blocked? ==> r == ""
    ensures st.Store? && AreaKey in st.entries ==> r == st.entries[AreaKey]
    ensures st.Store? && AreaKey !in st.entries ==> r == ""
  {
    match st
    case Blocked => ""
    case Store(m) => if AreaKey in m then m[AreaKey] else ""
  }

  /** What is remembered is what is recalled, when storage works. */
  lemma RecallRemember(m: map<string, string>, id: string)
    ensures Recall(Remember(Store(m), id)) == id
  {
  }

  /** The panel ids, in page order. */
  function Ids(panels: seq<Panel>): (r: seq<string>)
    ensures |r| == |panels|
    ensures forall i :: 0 <= i < |panels| ==> r[i] == panels[i].id
  {
    seq(|panels|, i requires 0 <= i < |panels| => panels[i].id)
  }

  /** The fail-soft choice of `activate`: a known id is kept, anything else
      (the empty string included) becomes the first panel's id. */
  function Resolve(ids: seq<string>, target: string): (r: string)
    requires |ids| > 0
    ensures r in ids
    ensures target in ids ==> r == target
    ensures target !in ids ==> r == ids[0]
  {
    if target in ids then target else ids[0]
  }

  /** Exactly the tabs targeting `x` are selected and exactly the panels
      with id `x` are visible. */
  ghost predicate ShowsOnly(ui: Ui, x: string) {
    && (forall i :: 0 <= i < |ui.tabs| ==> (ui.tabs[i].selected <==> ui.tabs[i].target == x))
    && (forall i :: 0 <= i < |ui.panels| ==> (ui.panels[i].hidden <==> ui.panels[i].id != x))
  }

  /** The two states have the same tabs and panels, flags aside. */
  ghost predicate SameLayout(a: Ui, b: Ui) {
    && |a.tabs| == |b.tabs| && |a.panels| == |b.panels|
    && (forall i :: 0 <= i < |a.tabs| ==> a.tabs[i].(selected := false) == b.tabs[i].(selected := false))
    && (forall i :: 0 <= i < |a.panels| ==> a.panels[i].(hidden := false) == b.panels[i].(hidden := false))
  }

  function SelectTabs(tabs: seq<Tab>, x: string): seq<Tab> {
    seq(|tabs|, i requires 0 <= i < |tabs| => tabs[i].(selected := tabs[i].target == x))
  }

  function ShowPanels(panels: seq<Panel>, x: string): seq<Panel> {
    seq(|panels|, i requires 0 <= i < |panels| => panels[i].(hidden := panels[i].id != x))
  }

  /** `activate(target, { pushHash })`. With no tabs or no panels nothing
      happens. Otherwise the target is resolved against the panel ids, the
      flags show only the resolved area, the resolved id is remembered, and
      the fragment is rewritten to it only when `pushHash` is set. */
  function Activate(ui: Ui, target: string, pushHash: bool): (r: Ui)
    ensures |ui.tabs| == 0 || |ui.panels| == 0 ==> r == ui
    ensures |ui.tabs| > 0 && |ui.panels| > 0 ==>
      var x := Resolve(Ids(ui.panels), target);
      && ShowsOnly(r, x)
      && SameLayout(ui, r)
      && r.storage == Remember(ui.storage, x)
      && r.fragment == (if pushHash then x else ui.fragment)
  {
    if |ui.tabs| == 0 || |ui.panels| == 0 then ui
    else
      var x := Resolve(Ids(ui.panels), target);
      Ui(SelectTabs(ui.tabs, x), ShowPanels(ui.panels, x), Remember(ui.storage, x),
         if pushHash then x else ui.fragment)
  }

  /** Activating twice with the same target is activating once. */
  lemma ActivateIdempotent(ui: Ui, target: string, pushHash: bool)
    ensures Activate(Activate(ui, target, pushHash), target, pushHash) == Activate(ui, target, pushHash)
  {
    var once := Activate(ui, target, pushHash);
    if |ui.tabs| > 0 && |ui.panels| > 0 {
      assert Ids(once.panels) == Ids(ui.panels);
    }
  }

  /** Indices of the selected tabs and of the visible panels. */
  function Selected(ui: Ui): set<nat> {
    set i: nat | i < |ui.tabs| && ui.tabs[i].selected
  }

  function Visible(ui: Ui): set<nat> {
    set i: nat | i < |ui.panels| && !ui.panels[i].hidden
  }

  ghost predicate Distinct(ids: seq<string>) {
    forall i, j :: 0 <= i < j < |ids| ==> ids[i] != ids[j]
  }

  /** Tab `i` controls panel `i`, and panel ids are unique. */
  ghost predicate WellFormed(ui: Ui) {
    && |ui.tabs| == |ui.panels|
    && (forall i :: 0 <= i < |ui.tabs| ==> ui.tabs[i].target == ui.panels[i].id)
    && Distinct(Ids(ui.panels))
  }

  /** Showing a known id of a well-formed page selects exactly one tab and
      unhides exactly one panel, the pair at that id's position. */
  lemma {:induction false} ExactlyOne(ui: Ui, x: string)
    requires WellFormed(ui) && ShowsOnly(ui, x) && x in Ids(ui.panels)
    ensures |Selected(ui)| == 1 && |Visible(ui)| == 1
  {
    var ids := Ids(ui.panels);
    var k :| 0 <= k < |ids| && ids[k] == x;
    assert Selected(ui) == {k as nat} by {
      forall i: nat | i < |ui.tabs| && ui.tabs[i].selected ensures i == k {
        assert ids[i] == ids[k];
      }
    }
    assert Visible(ui) == {k as nat} by {
      forall i: nat | i < |ui.panels| && !ui.panels[i].hidden ensures i == k {
        assert ids[i] == ids[k];
      }
    }
  }

  /** A well-formed page shows exactly one of its areas. */
  ghost predicate OneActive(ui: Ui) {
    WellFormed(ui) && exists x :: x in Ids(ui.panels) && ShowsOnly(ui, x)
  }

  /** After `activate` on a well-formed page, exactly one tab is selected and
      exactly one panel is visible, both for the resolved id. */
  lemma ActivateShowsOne(ui: Ui, target: string, pushHash: bool)
    requires WellFormed(ui) && |ui.panels| > 0
    ensures OneActive(Activate(ui, target, pushHash))
    ensures |Selected(Activate(ui, target, pushHash))| == 1
    ensures |Visible(Activate(ui, target, pushHash))| == 1
  {
    var r := Activate(ui, target, pushHash);
    var x := Resolve(Ids(ui.panels), target);
    assert Ids(r.panels) == Ids(ui.panels);
    ExactlyOne(r, x);
  }

  /** Keys the tab buttons react to. */
  datatype Key = ArrowRight | ArrowLeft | Home | End | OtherKey

  function Next(idx: nat, n: nat): (r: nat)
    requires idx < n
    ensures r < n
  {
    (idx + 1) % n
  }

  function Prev(idx: nat, n: nat): (r: nat)
    requires idx < n
    ensures r < n
  {
    (idx - 1 + n) % n
  }

  /** The tab a key moves to from tab `idx` of `n`: right and left wrap
      around, Home is the first tab, End the last; other keys do nothing. */
  function KeyTarget(key: Key, idx: nat, n: nat): (r: Option<nat>)
    requires idx < n
    ensures r.Some? ==> r.value < n
    ensures r.None? <==> key == OtherKey
    ensures key == ArrowRight ==> r == Some(Next(idx, n))
    ensures key == ArrowLeft ==> r == Some(Prev(idx, n))
    ensures key == Home ==> r == Some(0)
    ensures key == End ==> r == Some(n - 1)
  {
    match key
    case ArrowRight => Some(Next(idx, n))
    case ArrowLeft => Some(Prev(idx, n))
    case Home => Some(0)
    case End => Some(n - 1)
    case OtherKey => None
  }

  /** Moving right steps to the following tab, or wraps to the first. */
  lemma NextStep(idx: nat, n: nat)
    requires idx < n
    ensures Next(idx, n) == if idx + 1 < n then idx + 1 else 0
  {
  }

  /** Moving left steps to the preceding tab, or wraps to the last. */
  lemma PrevStep(idx: nat, n: nat)
    requires idx < n
    ensures Prev(idx, n) == if idx > 0 then idx - 1 else n - 1
  {
  }

  /** Right then left, or left then right, returns to the same tab. */
  lemma NextPrevInverse(idx: nat, n: nat)
    requires idx < n
    ensures Prev(Next(idx, n), n) == idx
    ensures Next(Prev(idx, n), n) == idx
  {
    NextStep(idx, n);
    PrevStep(idx, n);
    NextStep(Prev(idx, n), n);
    PrevStep(Next(idx, n), n);
  }

  /** The tab reached by pressing right `k` times from tab `idx`. */
  function NextTimes(idx: nat, n: nat, k: nat): (r: nat)
    requires idx < n
    ensures r < n
  {
    if k == 0 then idx else Next(NextTimes(idx, n, k - 1), n)
  }

  /** Pressing right `k` times moves `k` places around the ring. */
  lemma {:induction false} NextTimesIsOffset(idx: nat, n: nat, k: nat)
    requires idx < n
    ensures NextTimes(idx, n, k) == (idx + k) % n
  {
    if k > 0 {
      NextTimesIsOffset(idx, n, k - 1);
      var p := NextTimes(idx, n, k - 1);
      NextStep(p, n);
      ModSucc(idx + k - 1, n);
    }
  }

  lemma ModSucc(a: nat, n: nat)
    requires n > 0
    ensures (a + 1) % n == if a % n + 1 < n then a % n + 1 else 0
  {
    var q, r := a / n, a % n;
    assert a == q * n + r;
    if r + 1 < n {
      ModUnique(a + 1, n, q, r + 1);
    } else {
      assert a + 1 == (q + 1) * n;
      ModUnique(a + 1, n, q + 1, 0);
    }
  }

  lemma ModUnique(a: int, n: int, q: int, r: int)
    requires n > 0 && 0 <= r < n && a == q * n + r
    ensures a % n == r
  {
    var q', r' := a / n, a % n;
    assert a == q' * n + r';
    var d := q - q';
    assert d * n == r' - r by {
      assert q * n - q' * n == (q - q') * n;
    }
    if d >= 1 {
      MulAtLeast(d, n);
    } else if d <= -1 {
      MulAtLeast(-d, n);
    }
  }

  lemma MulAtLeast(d: int, n: int)
    requires d >= 1 && n > 0
    ensures d * n >= n
  {
    assert d * n == n + (d - 1) * n;
  }

  /** Pressing right once per tab comes back to the starting tab. */
  lemma NextCycle(idx: nat, n: nat)
    requires idx < n
    ensures NextTimes(idx, n, n) == idx
  {
    NextTimesIsOffset(idx, n, n);
    ModUnique(idx + n, n, 1, idx);
  }

  /** The events the controller reacts to. Tabs are addressed by position. */
  datatype Event =
    | Click(tab: nat)
    | KeyDown(tab: nat, key: Key)
    | HashChange(fragment: string)

  /** One event. A click activates the tab's target and pushes it into the
      fragment; a key clicks the tab it moves to; a fragment change
      activates a non-empty fragment without rewriting it. */
  function Step(ui: Ui, e: Event): (r: Ui)
    ensures SameLayout(ui, r)
    ensures e.HashChange? ==> r.fragment == e.fragment
    ensures e.HashChange? && e.fragment == "" ==> r == ui.(fragment := "")
    ensures e.HashChange? && e.fragment != "" ==> r == Activate(ui.(fragment := e.fragment), e.fragment, false)
    ensures e.Click? && e.tab < |ui.tabs| ==> r == Activate(ui, ui.tabs[e.tab].target, true)
    ensures e.KeyDown? && e.tab < |ui.tabs| && e.key != OtherKey ==>
      r == Activate(ui, ui.tabs[KeyTarget(e.key, e.tab, |ui.tabs|).value].target, true)
    ensures (e.Click? || e.KeyDown?) && e.tab >= |ui.tabs| ==> r == ui
    ensures e.KeyDown? && e.key == OtherKey ==> r == ui
  {
    match e
    case Click(i) =>
      if i < |ui.tabs| then Activate(ui, ui.tabs[i].target, true) else ui
    case KeyDown(i, key) =>
      if i < |ui.tabs| then
        match KeyTarget(key, i, |ui.tabs|)
        case Some(j) => Activate(ui, ui.tabs[j].target, true)
        case None => ui
      else ui
    case HashChange(f) =>
      var moved := ui.(fragment := f);
      if f != "" then Activate(moved, f, false) else moved
  }

  /** A fragment change never rewrites the fragment: it is what the browser
      reported, even when it names no area and the first area is shown. */
  lemma HashChangeKeepsFragment(ui: Ui, f: string)
    ensures Step(ui, HashChange(f)).fragment == f
    ensures f == "" ==> Step(ui, HashChange(f)) == ui.(fragment := f)
    ensures f != "" && |ui.tabs| > 0 && |ui.panels| > 0 ==>
      ShowsOnly(Step(ui, HashChange(f)), Resolve(Ids(ui.panels), f))
  {
  }

  /** A fragment change naming a listed area shows that area. */
  lemma HashChangeShowsListed(ui: Ui, f: string)
    requires |ui.tabs| > 0 && f != "" && f in Ids(ui.panels)
    ensures ShowsOnly(Step(ui, HashChange(f)), f)
  {
  }
  /** A click on tab `i` of a well-formed page shows that tab's area and
      puts its id in the fragment. */
  lemma ClickShowsTab(ui: Ui, i: nat)
    requires WellFormed(ui) && i < |ui.tabs|
    ensures ShowsOnly(Step(ui, Click(i)), ui.tabs[i].target)
    ensures Step(ui, Click(i)).fragment == ui.tabs[i].target
  {
    assert Ids(ui.panels)[i] == ui.tabs[i].target;
  }

  /** Arrow keys on a well-formed page show the neighbouring tab's area,
      wrapping around at either end. */
  lemma ArrowShowsNeighbour(ui: Ui, i: nat)
    requires WellFormed(ui) && i < |ui.tabs|
    ensures ShowsOnly(Step(ui, KeyDown(i, ArrowRight)), ui.tabs[Next(i, |ui.tabs|)].target)
    ensures ShowsOnly(Step(ui, KeyDown(i, ArrowLeft)), ui.tabs[Prev(i, |ui.tabs|)].target)
  {
  }

  /** A key that moves clicks the tab it moves to: the same activation,
      with the fragment pushed and the id remembered. */
  lemma KeyIsClick(ui: Ui, i: nat, key: Key)
    requires i < |ui.tabs| && key != OtherKey
    ensures Step(ui, KeyDown(i, key)) == Step(ui, Click(KeyTarget(key, i, |ui.tabs|).value))
  {
  }

  /** Every event keeps a well-formed page showing exactly one area. */
  lemma StepKeepsOneActive(ui: Ui, e: Event)
    requires OneActive(ui)
    ensures OneActive(Step(ui, e))
  {
    var x :| x in Ids(ui.panels) && ShowsOnly(ui, x);
    match e
    case Click(i) =>
      if i < |ui.tabs| { ActivateShowsOne(ui, ui.tabs[i].target, true); }
    case KeyDown(i, key) =>
      if i < |ui.tabs| && key != OtherKey {
        var j := KeyTarget(key, i, |ui.tabs|).value;
        ActivateShowsOne(ui, ui.tabs[j].target, true);
      }
    case HashChange(f) =>
      var moved := ui.(fragment := f);
      assert ShowsOnly(moved, x);
      if f != "" { ActivateShowsOne(moved, f, false); }
  }

  /** Events applied in order. */
  function Run(ui: Ui, es: seq<Event>): (r: Ui)
    ensures SameLayout(ui, r)
    ensures es == [] ==> r == ui
    decreases |es|
  {
    if es == [] then ui else Run(Step(ui, es[0]), es[1..])
  }

  /** Running one more event is stepping the state the earlier events led
      to: events are applied in order, one at a time. */
  lemma {:induction false} RunSnoc(ui: Ui, es: seq<Event>, e: Event)
    ensures Run(ui, es + [e]) == Step(Run(ui, es), e)
    decreases |es|
  {
    if es == [] {
      assert [] + [e] == [e];
      assert [e][1..] == [];
    } else {
      assert (es + [e])[0] == es[0];
      assert (es + [e])[1..] == es[1..] + [e];
      RunSnoc(Step(ui, es[0]), es[1..], e);
    }
  }

  /** After any sequence of clicks, keys and fragment changes, a page that
      showed one area still shows exactly one: one tab selected, one panel
      visible. */
  lemma {:induction false} RunKeepsOneActive(ui: Ui, es: seq<Event>)
    requires OneActive(ui)
    ensures OneActive(Run(ui, es))
    ensures |Selected(Run(ui, es))| == 1 && |Visible(Run(ui, es))| == 1
    decreases |es|
  {
    if es == [] {
      var x :| x in Ids(ui.panels) && ShowsOnly(ui, x);
      ExactlyOne(ui, x);
    } else {
      StepKeepsOneActive(ui, es[0]);
      RunKeepsOneActive(Step(ui, es[0]), es[1..]);
    }
  }
}
