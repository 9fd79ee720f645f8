/** Building the tabs and panels from the document's areas and choosing the
    area shown at load: URL fragment, then the remembered area, then the
    first area. */
module Boot {
  import opened Js
  import opened Items
  import opened Areas
  import opened Tabs

  /** `renderTabs`: one button per area, targeting the area's derived id;
      only the first starts selected. */
  function RenderTabs(areas: seq<RawArea>): (r: seq<Tab>)
    ensures |r| == |areas|
    ensures forall i :: 0 <= i < |areas| ==>
      r[i].target == DeriveId(areas[i]) && r[i].caption == TabLabel(areas[i]) && (r[i].selected <==> i == 0)
  {
    seq(|areas|, i requires 0 <= i < |areas| => Tab(DeriveId(areas[i]), TabLabel(areas[i]), i == 0))
  }

  /** The numbered list of a panel: present only when the area has entries,
      and then one line per entry. */
  function Steps(main: seq<Item>): (r: Option<seq<Li>>)
    ensures r.Some? <==> |main| > 0
    ensures r.Some? ==> |r.value| == |main| && forall i :: 0 <= i < |main| ==> r.value[i] == LiFrom(main[i])
  {
    if |main| > 0 then Some(RenderList(main)) else None
  }

  /** `renderPanels` as written: one panel per area with the same derived
      id its tab targets, headed `sectionTitle(normalizeArea(a))`; only the
      first starts visible. */
  function RenderPanels(areas: seq<RawArea>): (r: seq<Panel>)
    ensures |r| == |areas|
    ensures forall i :: 0 <= i < |areas| ==>
      && r[i].id == DeriveId(areas[i])
      && r[i].heading == SectionTitle(NormalizeArea(areas[i]))
      && r[i].steps == Steps(MainOf(areas[i]))
      && (r[i].hidden <==> i != 0)
  {
    seq(|areas|, i requires 0 <= i < |areas| =>
      var a := NormalizeArea(areas[i]);
      Panel(a.id, SectionTitle(a), Steps(a.main), i != 0))
  }

  /** `renderPanels` with the area's title carried to the heading. */
  function RenderPanelsTitled(areas: seq<RawArea>): (r: seq<Panel>)
    ensures |r| == |areas|
    ensures forall i :: 0 <= i < |areas| ==> r[i].heading == PanelHeading(areas[i])
  {
    seq(|areas|, i requires 0 <= i < |areas| =>
      var a := NormalizeAreaKeepingTitle(areas[i]);
      Panel(a.id, SectionTitle(a), Steps(a.main), i != 0))
  }

  /** Carrying the title changes nothing but the heading, and the heading
      only of areas with a truthy title, which then show that title. */
  lemma TitledPanelsDifferOnlyInHeading(areas: seq<RawArea>)
    ensures |RenderPanelsTitled(areas)| == |RenderPanels(areas)|
    ensures forall i :: 0 <= i < |areas| ==>
      RenderPanelsTitled(areas)[i] == RenderPanels(areas)[i].(heading := PanelHeading(areas[i]))
    ensures forall i :: 0 <= i < |areas| && !Truthy(areas[i].title) ==>
      RenderPanelsTitled(areas)[i] == RenderPanels(areas)[i]
  {
  }

  /** The areas as the boot code passes them on: `{ id: <derived>, ...a }`. */
  function SpreadAll(areas: seq<RawArea>): (r: seq<RawArea>)
    ensures |r| == |areas|
    ensures forall i :: 0 <= i < |areas| ==> r[i] == Spread(areas[i])
  {
    seq(|areas|, i requires 0 <= i < |areas| => Spread(areas[i]))
  }

  /** `areas.map(a => a.id)` over the spread areas. */
  function BootIds(areas: seq<RawArea>): (r: seq<string>)
    ensures |r| == |areas|
    ensures forall i :: 0 <= i < |areas| ==> r[i] == BootId(areas[i])
  {
    seq(|areas|, i requires 0 <= i < |areas| => BootId(areas[i]))
  }

  /** The derived ids, the ones tabs and panels use. */
  function DerivedIds(areas: seq<RawArea>): (r: seq<string>)
    ensures |r| == |areas|
    ensures forall i :: 0 <= i < |areas| ==> r[i] == DeriveId(areas[i])
  {
    seq(|areas|, i requires 0 <= i < |areas| => DeriveId(areas[i]))
  }

  /** The initial choice: the fragment if it is listed, else the remembered
      id if it is listed, else the first id; then activated only if that
      choice is a non-empty string. */
  function InitialSelection(ids: seq<string>, fragment: string, st: Storage): (r: Option<string>)
    ensures r.Some? ==> r.value in ids && r.value != ""
    ensures fragment in ids ==> r == (if fragment != "" then Some(fragment) else None)
    ensures fragment !in ids && Recall(st) in ids ==>
      r == (if Recall(st) != "" then Some(Recall(st)) else None)
    ensures fragment !in ids && Recall(st) !in ids ==>
      r == (if |ids| > 0 && ids[0] != "" then Some(ids[0]) else None)
  {
    var stored := Recall(st);
    var initial := if fragment in ids then fragment
                   else if stored in ids then stored
                   else if |ids| > 0 then ids[0] else "";
    if initial != "" then Some(initial) else None
  }

  /** The page just after rendering, before any activation: one tab and one
      panel per area, tab `i` targeting panel `i` by the area's derived id,
      only the first pair on, storage and fragment untouched. */
  function Rendered(areas: seq<RawArea>, fragment: string, st: Storage): (r: Ui)
    ensures |r.tabs| == |r.panels| == |areas|
    ensures r.storage == st && r.fragment == fragment
    ensures forall i :: 0 <= i < |areas| ==>
      && r.tabs[i].target == r.panels[i].id == DeriveId(areas[i])
      && (r.tabs[i].selected <==> i == 0) && (r.panels[i].hidden <==> i != 0)
    ensures r == Ui(RenderTabs(areas), RenderPanels(areas), st, fragment)
  {
    var spread := SpreadAll(areas);
    SpreadRendersSame(areas);
    Ui(RenderTabs(spread), RenderPanels(spread), st, fragment)
  }

  /** Rendering the spread areas draws the same tabs and panels as
      rendering the areas themselves: the spread only touches `id`, and the
      derived id is unchanged by it. */
  lemma SpreadRendersSame(areas: seq<RawArea>)
    ensures RenderTabs(SpreadAll(areas)) == RenderTabs(areas)
    ensures RenderPanels(SpreadAll(areas)) == RenderPanels(areas)
  {
    forall i | 0 <= i < |areas|
      ensures DeriveId(Spread(areas[i])) == DeriveId(areas[i])
    {
      SpreadKeepsDerivedId(areas[i]);
    }
  }

  /** The page after the boot code: render, then activate the initial
      choice (which also pushes it into the fragment). */
  function Start(areas: seq<RawArea>, fragment: string, st: Storage): (r: Ui)
    ensures SameLayout(Rendered(areas, fragment, st), r)
    ensures r.fragment == fragment || r.fragment in DerivedIds(areas)
    ensures InitialSelection(BootIds(areas), fragment, st).None? ==> r == Rendered(areas, fragment, st)
    ensures InitialSelection(BootIds(areas), fragment, st).Some? ==>
      r == Activate(Rendered(areas, fragment, st), InitialSelection(BootIds(areas), fragment, st).value, true)
  {
    var ui := Rendered(areas, fragment, st);
    RenderedIds(areas, fragment, st);
    match InitialSelection(BootIds(areas), fragment, st)
    case Some(x) => Activate(ui, x, true)
    case None => ui
  }

  /** Tabs and panels rendered from the spread areas carry the derived ids
      of the original areas, pairwise equal. */
  lemma RenderedIds(areas: seq<RawArea>, fragment: string, st: Storage)
    ensures var ui := Rendered(areas, fragment, st);
      && |ui.tabs| == |ui.panels| == |areas|
      && Ids(ui.panels) == DerivedIds(areas)
      && forall i :: 0 <= i < |areas| ==> ui.tabs[i].target == ui.panels[i].id
  {
    var ui := Rendered(areas, fragment, st);
    forall i | 0 <= i < |areas|
      ensures ui.panels[i].id == DeriveId(areas[i])
    {
      SpreadKeepsDerivedId(areas[i]);
    }
  }

  /** With distinct derived ids, the freshly rendered page is well formed
      and shows only the first area. */
  lemma RenderedShowsFirst(areas: seq<RawArea>, fragment: string, st: Storage)
    requires |areas| > 0 && Distinct(DerivedIds(areas))
    ensures WellFormed(Rendered(areas, fragment, st))
    ensures ShowsOnly(Rendered(areas, fragment, st), DeriveId(areas[0]))
  {
    var ui := Rendered(areas, fragment, st);
    RenderedIds(areas, fragment, st);
    var ids := DerivedIds(areas);
    forall i | 0 <= i < |ui.tabs|
      ensures ui.tabs[i].selected <==> ui.tabs[i].target == ids[0]
    {
      if i != 0 { assert ids[0] != ids[i]; }
    }
    forall i | 0 <= i < |ui.panels|
      ensures ui.panels[i].hidden <==> ui.panels[i].id != ids[0]
    {
      if i != 0 { assert ids[0] != ids[i]; }
    }
  }

  /** For any non-empty list of areas with distinct ids, the loaded page
      shows exactly one area: one tab selected, one panel visible. */
  lemma StartShowsOne(areas: seq<RawArea>, fragment: string, st: Storage)
    requires |areas| > 0 && Distinct(DerivedIds(areas))
    ensures OneActive(Start(areas, fragment, st))
    ensures |Selected(Start(areas, fragment, st))| == 1
    ensures |Visible(Start(areas, fragment, st))| == 1
  {
    var ui := Rendered(areas, fragment, st);
    RenderedShowsFirst(areas, fragment, st);
    RenderedIds(areas, fragment, st);
    match InitialSelection(BootIds(areas), fragment, st)
    case Some(x) =>
      ActivateShowsOne(ui, x, true);
    case None =>
      assert DerivedIds(areas)[0] == DeriveId(areas[0]);
      assert Ids(ui.panels)[0] in Ids(ui.panels);
      ExactlyOne(ui, DeriveId(areas[0]));
  }

  /** No area carries an explicit empty `id` key. */
  ghost predicate NoEmptyExplicitId(areas: seq<RawArea>) {
    forall i :: 0 <= i < |areas| ==> areas[i].id != Some("")
  }

  lemma BootIdsAreDerived(areas: seq<RawArea>)
    requires NoEmptyExplicitId(areas)
    ensures BootIds(areas) == DerivedIds(areas)
  {
    forall i | 0 <= i < |areas|
      ensures BootIds(areas)[i] == DerivedIds(areas)[i]
    {
      BootIdIff(areas[i]);
    }
  }

  /** A deep link works: a fragment naming an area shows that area, and
      the fragment stays as it was. */
  lemma StartHonoursFragment(areas: seq<RawArea>, fragment: string, st: Storage)
    requires Distinct(DerivedIds(areas)) && NoEmptyExplicitId(areas)
    requires fragment in DerivedIds(areas) && fragment != ""
    ensures ShowsOnly(Start(areas, fragment, st), fragment)
    ensures Start(areas, fragment, st).fragment == fragment
    ensures Recall(Start(areas, fragment, st).storage) == fragment || st.Blocked?
  {
    BootIdsAreDerived(areas);
    RenderedIds(areas, fragment, st);
  }

  /** Without a usable fragment the remembered area is shown, and the
      fragment is rewritten to it. */
  lemma StartFallsBackToStored(areas: seq<RawArea>, fragment: string, st: Storage)
    requires Distinct(DerivedIds(areas)) && NoEmptyExplicitId(areas)
    requires fragment !in DerivedIds(areas)
    requires Recall(st) in DerivedIds(areas) && Recall(st) != ""
    ensures ShowsOnly(Start(areas, fragment, st), Recall(st))
    ensures Start(areas, fragment, st).fragment == Recall(st)
  {
    BootIdsAreDerived(areas);
    RenderedIds(areas, fragment, st);
  }

  /** With neither a listed fragment nor a listed remembered id, the first
      area is shown and its id written into the fragment. */
  lemma StartFallsBackToFirst(areas: seq<RawArea>, fragment: string, st: Storage)
    requires |areas| > 0 && Distinct(DerivedIds(areas)) && NoEmptyExplicitId(areas)
    requires fragment !in DerivedIds(areas) && Recall(st) !in DerivedIds(areas)
    requires DeriveId(areas[0]) != ""
    ensures ShowsOnly(Start(areas, fragment, st), DeriveId(areas[0]))
    ensures Start(areas, fragment, st).fragment == DeriveId(areas[0])
  {
    BootIdsAreDerived(areas);
    RenderedIds(areas, fragment, st);
  }

  /** Three areas with the explicit ids "a", "b" and "c". */
  function Abc(): (r: seq<RawArea>)
    ensures DerivedIds(r) == ["a", "b", "c"]
    ensures Distinct(DerivedIds(r)) && NoEmptyExplicitId(r)
  {
    [Named("a"), Named("b"), Named("c")]
  }

  /** The fragment comes before the remembered id: with areas a, b, c,
      fragment "b" and "a" remembered, "b" is shown. */
  lemma StartPrefersFragment()
    ensures ShowsOnly(Start(Abc(), "b", Store(map[AreaKey := "a"])), "b")
  {
    StartHonoursFragment(Abc(), "b", Store(map[AreaKey := "a"]));
  }

  /** Without a fragment the remembered area is shown, here "b" rather
      than the first area. */
  lemma StartUsesStored()
    ensures ShowsOnly(Start(Abc(), "", Store(map[AreaKey := "b"])), "b")
  {
    var st := Store(map[AreaKey := "b"]);
    assert Recall(st) == "b";
    StartFallsBackToStored(Abc(), "", st);
  }

  /** With neither fragment nor remembered id, the first area "a" is shown. */
  lemma StartDefaultsToFirst()
    ensures ShowsOnly(Start(Abc(), "", Store(map[])), "a")
  {
    var areas := Abc();
    BootIdsAreDerived(areas);
    assert Recall(Store(map[])) == "";
    assert InitialSelection(BootIds(areas), "", Store(map[])) == Some("a");
    RenderedIds(areas, "", Store(map[]));
  }

  /** An area given only an explicit id. */
  function Named(id: string): RawArea {
    RawArea(Some(id), None, None, None, None, None, None)
  }

  /** An area "y", then an area with an explicit empty `id` and slug "x". */
  function QuirkAreas(): (r: seq<RawArea>)
    ensures DerivedIds(r) == ["y", "x"] && Distinct(DerivedIds(r))
    ensures BootIds(r) == ["y", ""]
  {
    [Named("y"), RawArea(Some(""), Some("x"), None, None, None, None, None)]
  }

  /** The spread quirk at load: the second area of `QuirkAreas` has tab and
      panel "x", yet the deep link "#x" is not honoured at load (the boot
      code lists that area as "", and the empty remembered value matches
      it, so nothing is activated). After a click on the first tab has
      rewritten the fragment to "y", navigating to "#x" is honoured. */
  lemma StartQuirkEmptyExplicitId()
    ensures Ids(Start(QuirkAreas(), "x", Blocked).panels) == ["y", "x"]
    ensures ShowsOnly(Start(QuirkAreas(), "x", Blocked), "y")
    ensures Step(Start(QuirkAreas(), "x", Blocked), Click(0)).fragment == "y"
    ensures ShowsOnly(Step(Step(Start(QuirkAreas(), "x", Blocked), Click(0)), HashChange("x")), "x")
  {
    QuirkLoad();
    ClickThenHashChange(Start(QuirkAreas(), "x", Blocked), 0, "x");
  }

  /** The loaded page of `QuirkAreas` with deep link "#x": nothing was
      activated, so it is the freshly rendered page showing "y". */
  lemma QuirkLoad()
    ensures var ui := Start(QuirkAreas(), "x", Blocked);
      && Ids(ui.panels) == ["y", "x"] && ShowsOnly(ui, "y")
      && |ui.tabs| == 2 && ui.tabs[0].target == "y"
  {
    var areas := QuirkAreas();
    assert InitialSelection(BootIds(areas), "x", Blocked) == None;
    RenderedIds(areas, "x", Blocked);
    RenderedShowsFirst(areas, "x", Blocked);
  }

  /** A click that pushes a listed id into the fragment, followed by a
      navigation to another listed fragment, shows the latter. */
  lemma ClickThenHashChange(ui: Ui, i: nat, f: string)
    requires i < |ui.tabs| && ui.tabs[i].target in Ids(ui.panels)
    requires f != "" && f in Ids(ui.panels)
    ensures Step(ui, Click(i)).fragment == ui.tabs[i].target
    ensures ShowsOnly(Step(Step(ui, Click(i)), HashChange(f)), f)
  {
    var clicked := Step(ui, Click(i));
    assert Ids(clicked.panels) == Ids(ui.panels) by {
      assert forall k :: 0 <= k < |ui.panels| ==> clicked.panels[k].id == ui.panels[k].(hidden := false).id;
    }
    HashChangeShowsListed(clicked, f);
  }


}
