# Muestras de proceso: tab controller and item rendering, in Dafny

This project models the decision logic of `script.js`, the single script of the
"Muestras de proceso · Musicala" page. The page reads a JSON document and renders
its sections as lists. It builds one tab and one panel per "area" and keeps
track of which area is shown. The model leaves out the DOM: a rendered `<li>` is a
datatype, the tabs and panels are values with their `aria-selected` and `hidden`
flags, and client storage and the URL fragment are fields of one state value.

Modules:

- `Js` (`js.dfy`): the JavaScript semantics the script relies on. It covers optional
  fields, string truthiness, `a || b`, `toLowerCase`, the `\s` class and `includes`.
- `Items` (`items.dfy`): list entries and how they are drawn. `liFrom` is a
  first-match cascade from an entry to a closed `Shape` (Plain, Markup, Linked,
  Labeled), and `Draw` turns a shape into `<li>` children. The module also has the
  `renderRetro` cascade and the `fillList` projection.
- `Context` (`context.dfy`): the content policy of the context section. It drops
  entries whose lower-cased label contains "formatos posibles" or "propósito".
- `Areas` (`areas.dfy`): the area id rule `id || slug || slug-of-name`,
  `normalizeArea`, `sectionTitle` and the tab caption. It also has the
  `{ id, ...a }` spread of the boot code.
- `Tabs` (`tabs.dfy`): the state machine. It covers `activate`, keyboard
  navigation, clicks and fragment changes, plus runs of such events.
- `Boot` (`boot.dfy`): `renderTabs`, `renderPanels` and the boot sequence. At load
  the page shows the fragment's area, else the remembered area, else the first.

Behaviour a reader might not expect, which the model keeps as the code has it:

- An explicit empty `id` survives the boot code's spread. The boot code then lists
  that area under `""`, while its tab and panel use the slug. As a result a deep
  link to such an area is ignored at load, but the same link is honoured when it
  arrives later as a fragment change (`Boot.StartQuirkEmptyExplicitId`).
- The context filter drops every object with a matching label. This includes
  entries drawn as raw markup, not only labelled and linked ones.
- A derived id has no whitespace. Nothing removes `#` from it, and explicit `id`
  and `slug` values are taken as they are.
- A fragment change naming no area shows the first area, and the fragment is left
  as the browser reported it.
- The "exactly one area shown" guarantees need distinct panel ids. With duplicate
  ids, `activate` shows every panel that carries the resolved id.
- In `liFrom`, the `item.html` test inside the label/text branch (line 51) can
  never succeed, because the `html` case returned earlier. The model omits it.

## Model

| member | source | states |
|---|---|---|
| `Js.Includes` | script.js:101 | `includes` holds exactly when the phrase occurs at some position of the label |
| `Js.ToLower` | script.js:100 | lower-casing keeps the length and maps each character on its own, ASCII and Latin-1 capitals to their small letters |
| `Js.IsSpace` | script.js:139 | spaces, tabs and line breaks are whitespace; letters, digits, `-` and `_` are not |
| `Items.Classify` | script.js:30-58 | the first match decides the shape: `html` gives Markup, then `href` gives Linked, then `label` or `text` gives Labeled, and anything else is shown stringified |
| `Items.Draw` | script.js:33-57 | every drawn `<li>` has at least one child, and every link is opened with `rel="noopener"` |
| `Items.LabelPrefix` | script.js:44 | the bold `label: ` prefix of an object is the one `Draw` uses for its truthy label |
| `Items.LiFrom` | script.js:30-58 | a string is one span; a truthy `html` is inserted as it is; a truthy `href` gives the bold `label: ` prefix when the label is truthy and a `noopener` link whose text is `text` or else the address and whose target is `target` or else `_blank`; a truthy `label` or `text` gives the prefix and the text (or `""`); anything else is one span of its `String(...)` form |
| `Items.LiFromNeverEmpty` | script.js:30-58 | every entry's `<li>` receives content, malformed entries included (markup counts as one piece) |
| `Items.LiFromPriority` | script.js:38-47 | a truthy `html` is inserted verbatim whatever else is present; otherwise a truthy `href` ends the `<li>` with a link |
| `Items.LinkDefaults` | script.js:43-47 | a link without `text` shows its address, and one without `target` opens in `_blank` |
| `Items.RetroShape` | script.js:241-254 | the retrospective cascade puts `href` before `html`, and an entry with none of `href`, `html`, `text` gets no shape |
| `Items.RetroAgreesWithLiFrom` | script.js:241-254 | the retrospective `<li>` equals the `liFrom` one exactly for strings, for objects with one of `href`/`html`, and for objects with neither but a truthy `text` |
| `Items.RetroLi` | script.js:241-254 | a string is a span; then a truthy `href` gives the prefix and the link, a truthy `html` the markup, a truthy `text` the prefix and the text; an entry with none of these leaves the `<li>` empty |
| `Items.RenderRetro` | script.js:236-256 | one `<li>` per retrospective entry, in order, and an empty one for each entry with none of `href`, `html`, `text` |
| `Items.RenderList` | script.js:63 | `fillList` appends one node per entry, in input order |
| `Items.RenderListAppend` | script.js:63 | rendering a concatenation renders each part in turn |
| `Items.FillList` | script.js:60-64 | a missing container stays missing; otherwise the old content is dropped and one node per entry is written |
| `Items.FillListIdempotent` | script.js:62-63 | filling twice is filling once, and the previous content does not matter |
| `Context.FilterContext` | script.js:99-102 | the kept entries are an order-preserving subsequence; each passes the policy, and each passing entry keeps all its occurrences |
| `Context.Keep` | script.js:100-101 | an entry is dropped exactly when it is an object whose lower-cased truthy label contains one of the two phrases |
| `Context.UnlabeledKept` | script.js:100 | strings, scalars, `null` and unlabeled objects always pass |
| `Context.FilterAppend` | script.js:99-102 | filtering distributes over concatenation |
| `Context.FilterIdempotent` | script.js:99-102 | filtering a filtered list changes nothing |
| `Context.FilterKeepsPassing` | script.js:99-102 | a list in which every entry passes comes through unchanged |
| `Context.FormatsLabelDropped` | script.js:98-101 | the label "Formatos Posibles", capitalised, is caught |
| `Context.FormatsDropped` | script.js:98-102 | that entry disappears between two passing neighbours, which stay in order |
| `Context.RenderContext` | script.js:97-103 | the context list is the rendering of exactly the entries the policy keeps, in order; every line comes from a passing entry, and there are no more lines than entries |
| `Areas.Hyphenate` | script.js:139 | replacing whitespace runs leaves no whitespace, is empty only for the empty string, and, hyphens aside, keeps exactly the non-whitespace characters in order |
| `Areas.HyphenateIsScan` | script.js:139 | run-by-run replacement equals an independent one-pass scanner on every string |
| `Areas.HyphenateNoSpace` | script.js:139 | a string without whitespace is unchanged |
| `Areas.Slugify` | script.js:139 | a slug is the lower-cased name with its whitespace runs replaced, read by the one-pass scanner; it has no whitespace and no capital letter |
| `Areas.HyphenatedLower` | script.js:139 | hyphenating a lower-cased name leaves every character lower case |
| `Areas.SlugifyIdempotent` | script.js:139 | a slug is its own slug |
| `Areas.DeriveId` | script.js:161 | a truthy `id` wins, then a truthy `slug`; otherwise the id is the name's slug, has no whitespace and is no longer than the name |
| `Areas.DeriveIdStable` | script.js:161 | an area named after its own derived id derives the same id |
| `Areas.Spread` | script.js:282-285 | the spread object's `id` is the area's own `id` key whenever present, even empty, else the derived id; no other field changes |
| `Areas.BootId` | script.js:282-294 | the id the boot code lists is the derived id, except `""` for an explicit empty `id` |
| `Areas.SpreadKeepsDerivedId` | script.js:282-287 | tabs and panels built from the spread areas get the same ids as from the raw areas |
| `Areas.BootIdIff` | script.js:282-294 | the id the boot code lists equals the derived id unless the area has an explicit empty `id` and a non-empty derivation |
| `Areas.BootIdQuirk` | script.js:282-294 | `{id: "", slug: "x"}` is addressed as "x" but listed as "" |
| `Areas.MainOf` | script.js:164 | a present `items` list wins even when empty; else a present `main`; with neither key the list is empty |
| `Areas.NormalizeArea` | script.js:159-170 | the normalised area has the derived id, the name, the emoji and the entry list of the raw area, and no `title` |
| `Areas.NormalizeAreaKeepingTitle` | script.js:159-170 | the corrected normalisation differs from the written one only by carrying `title` |
| `Areas.EmojiPrefix` | script.js:155 | a truthy emoji is followed by a space; no emoji gives no prefix |
| `Areas.DisplayName` | script.js:154 | the display name is the truthy name, else the non-empty id, else "Área", and so never empty |
| `Areas.SectionTitle` | script.js:152-157 | a truthy title is the heading; otherwise it is the emoji and a space when there is a truthy emoji, then the display name, then " · Muestras de proceso" |
| `Areas.PanelHeadingIgnoresTitle` | script.js:178-186 | as written, a panel's heading never depends on the area's `title` and always ends with the suffix |
| `Areas.PanelHeadingTitleLost` | script.js:178-186 | an area titled "Custom" does not get the heading "Custom" |
| `Areas.PanelHeading` | script.js:152-157 | with the title carried through, a truthy title is the heading; otherwise the heading is unchanged |
| `Areas.TabLabel` | script.js:147 | a tab's caption starts with the emoji and a space when there is a truthy emoji, followed by the name, else the title, else the derived id |
| `Tabs.Remember` | script.js:212 | activation writes the resolved id under `musicala.area`, leaves every other key alone, and does nothing when storage is unavailable |
| `Tabs.Recall` | script.js:296 | the remembered id is the stored `musicala.area` value, and `""` when it is missing or storage is unavailable |
| `Tabs.RecallRemember` | script.js:212 | what is remembered is what is read back at the next load |
| `Tabs.Resolve` | script.js:206-207 | the resolved id is a panel id; a known target is kept, and any unknown one, `""` included, becomes the first id |
| `Tabs.Activate` | script.js:201-214 | no tabs or no panels: nothing changes. Otherwise only the resolved area is flagged, the layout is unchanged, the id is remembered, and the fragment is rewritten only when asked |
| `Tabs.ActivateIdempotent` | script.js:209-210 | activating twice with the same target gives the same state as once |
| `Tabs.ExactlyOne` | script.js:209-210 | on a page with unique ids, showing a known id selects exactly one tab and unhides exactly one panel |
| `Tabs.ActivateShowsOne` | script.js:201-214 | after `activate` on such a page exactly one tab is selected and exactly one panel visible |
| `Tabs.Next` | script.js:222 | moving right stays within the tabs |
| `Tabs.Prev` | script.js:223 | moving left stays within the tabs |
| `Tabs.KeyTarget` | script.js:220-226 | ArrowRight moves to `Next`, ArrowLeft to `Prev`, Home to the first tab, End to the last, and other keys do nothing |
| `Tabs.NextStep` | script.js:222 | moving right steps to the following tab, or wraps from the last to the first |
| `Tabs.PrevStep` | script.js:223 | moving left steps to the preceding tab, or wraps from the first to the last |
| `Tabs.NextPrevInverse` | script.js:222-223 | right then left, and left then right, return to the same tab |
| `Tabs.NextTimes` | script.js:222 | pressing right any number of times stays within the tabs |
| `Tabs.NextTimesIsOffset` | script.js:222 | pressing right `k` times moves `k` places around the ring |
| `Tabs.NextCycle` | script.js:222 | pressing right once per tab returns to the starting tab |
| `Tabs.Step` | script.js:216-232 | a click activates its tab's target and pushes it into the fragment; a moving key does exactly that for the tab it moves to; other keys and unknown tabs change nothing; a non-empty fragment change activates it without rewriting the fragment, so the resolved id is still remembered; an empty one only records the fragment; no event changes the layout |
| `Tabs.KeyIsClick` | script.js:222-225 | a moving key press is the click on the tab it moves to |
| `Tabs.ArrowShowsNeighbour` | script.js:222-223 | on a page with unique ids, ArrowRight shows the area of the next tab and ArrowLeft that of the previous one, wrapping around |
| `Tabs.HashChangeShowsListed` | script.js:229-231 | a non-empty fragment naming an area shows that area |
| `Tabs.ClickShowsTab` | script.js:219 | clicking a tab shows its area and puts its id in the fragment |
| `Tabs.HashChangeKeepsFragment` | script.js:229-232 | a fragment change never rewrites the fragment; an empty one changes nothing else, and a non-empty one shows its resolved area |
| `Tabs.StepKeepsOneActive` | script.js:216-232 | every click, key or fragment change keeps a page with unique ids showing exactly one area |
| `Tabs.Run` | script.js:216-232 | a sequence of events changes only flags, storage and fragment, and the empty sequence changes nothing |
| `Tabs.RunSnoc` | script.js:216-232 | events are applied in order: running one more event steps the state the earlier ones led to |
| `Tabs.RunKeepsOneActive` | script.js:201-232 | after any sequence of events exactly one tab is selected and exactly one panel is visible |
| `Boot.RenderTabs` | script.js:134-150 | one tab per area, targeting its derived id with its caption; only the first starts selected |
| `Boot.Steps` | script.js:189-193 | a panel has a numbered list exactly when the area has entries, one line per entry |
| `Boot.RenderPanels` | script.js:172-199 | one panel per area, with the derived id, the heading `sectionTitle(normalizeArea(a))` and the list; only the first starts visible |
| `Boot.RenderPanelsTitled` | script.js:152-199 | with the title carried through, each panel's heading is the corrected `PanelHeading` |
| `Boot.TitledPanelsDifferOnlyInHeading` | script.js:152-199 | carrying the title changes only the heading, and only for areas with a truthy title |
| `Boot.BootIds` | script.js:294 | the ids the boot code chooses among are the spread objects' `id` fields |
| `Boot.InitialSelection` | script.js:294-298 | the fragment if listed, else the remembered id if listed, else the first id; nothing is activated when that choice is empty or the list is empty |
| `Boot.Rendered` | script.js:282-287 | the page rendered from the spread areas is exactly `renderTabs` and `renderPanels` of the areas themselves; tab `i` and panel `i` carry area `i`'s derived id, only the first pair is on, and storage and fragment are untouched |
| `Boot.SpreadRendersSame` | script.js:282-287 | the `{ id, ...a }` spread changes no tab and no panel |
| `Boot.Start` | script.js:282-298 | loading activates the initial choice on the rendered page, pushing it into the fragment, and keeps the rendered page when there is no usable choice; only flags, storage and fragment change |
| `Boot.RenderedIds` | script.js:282-287 | tab `i` targets panel `i`, and the panel ids are the derived ids |
| `Boot.RenderedShowsFirst` | script.js:145-196 | before activation, the page shows only the first area |
| `Boot.StartShowsOne` | script.js:282-298 | for any non-empty list of areas with unique ids, the loaded page shows exactly one area |
| `Boot.BootIdsAreDerived` | script.js:282-294 | without explicit empty ids, the boot code's ids are the derived ids |
| `Boot.StartHonoursFragment` | script.js:294-298 | a fragment naming an area shows that area, keeps the fragment, and remembers the id |
| `Boot.StartFallsBackToStored` | script.js:294-298 | without a matching fragment, the remembered area is shown and written into the fragment |
| `Boot.StartFallsBackToFirst` | script.js:294-298 | with neither a listed fragment nor a listed remembered id, the first area is shown and written into the fragment |
| `Boot.StartPrefersFragment` | script.js:297 | with areas a, b, c, fragment "b" and "a" remembered, "b" is shown |
| `Boot.StartUsesStored` | script.js:297 | with no fragment and "b" remembered, "b" is shown |
| `Boot.StartDefaultsToFirst` | script.js:297 | with neither, the first area "a" is shown |
| `Boot.StartQuirkEmptyExplicitId` | script.js:282-298 | a deep link to an area whose JSON `id` is "" is ignored at load; after a click has rewritten the fragment, navigating to it is honoured |
| `Boot.QuirkLoad` | script.js:282-298 | with deep link "#x" to the area whose JSON `id` is "", the loaded page is the rendered one, showing the first area "y" |
| `Boot.ClickThenHashChange` | script.js:219-231 | a click followed by navigation to a listed fragment shows that fragment's area |

## Findings

| source | as written | input that shows it | evidently intended | confidence | as-written member | corrected member |
|---|---|---|---|---|---|---|
| script.js:159-186 | `normalizeArea` builds its object without `title`, so in `sectionTitle` the `title` branch (line 153) is never taken for a panel | area `{id: "m", name: "M", title: "Custom"}`: the heading is "M · Muestras de proceso" | the heading is "Custom" | medium, not executed | `Areas.PanelHeadingTitleLost` | `Areas.PanelHeading` |

`Boot.RenderPanels` and the loaded page `Boot.Start` follow the code as written, so panels
never show a `title`. `Boot.RenderPanelsTitled` is the corrected rendering built on
`Areas.PanelHeading`, and `Boot.TitledPanelsDifferOnlyInHeading` shows that the correction changes
nothing but the headings of titled areas.

## Left out

- The DOM helpers `$`, `$$` and `el`, and all element mutation: rendered nodes are datatypes.
- The per-section null guards of `renderTabs` and `renderPanels` (a missing `#tablist` or `#panels`): both containers are assumed present. The `fillList` guard and the empty-page guard of `activate` are modelled.
- `focus()`, `preventDefault()` and the registration of listeners. `wireTabs` adds another `hashchange` listener on every call, and this is not modelled.
- `history.replaceState`: it appears as the `fragment` field being rewritten. The fragment is taken as the browser reports it, and percent-encoding of non-ASCII ids is not modelled.
- `localStorage` exceptions: they are modelled as unavailable storage (`Blocked`), which reads as `""` and ignores writes.
- `loadInfo`/`fetch`, the async control flow of `init`, the fallback document and its direct `activate("musica")`, and the copyright year.
- `setMeta`, `renderRepertorio`, `renderIntro`, `renderConcepto`, `renderFases`, `renderPrep`, the `preparacion`/`prep` alias, and the note show/hide toggles: they are DOM attribute setting and constant data.
- Js.ToLower: lower-cases only ASCII and Latin-1 capitals, not the full Unicode mapping of `toLowerCase`.
- Field values that are not strings (a numeric `label`, say) and JSON `null` fields: a field is a string or absent. A `null` `id` kept by the spread is not modelled.
- Numbers, booleans and arrays as entries are one `Scalar` case carrying their `String(...)` form.
