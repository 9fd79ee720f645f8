/** Areas: one tab's worth of content. How an area's addressable id is
    derived, how a raw area is normalised for its panel, and the headings
    shown on its tab and panel. */
module Areas {
  import opened Js
  import opened Items

  /** An entry of the document's `areas` list. `None` is an absent key. */
  datatype RawArea = RawArea(
    id: Option<string>,
    slug: Option<string>,
    name: Option<string>,
    emoji: Option<string>,
    title: Option<string>,
    items: Option<seq<Item>>,
    main: Option<seq<Item>>)

  /** A normalised area, as a panel is built from it. */
  datatype Area = Area(
    id: string,
    name: Option<string>,
    emoji: Option<string>,
    title: Option<string>,
    main: seq<Item>)

  const HeadingSuffix := " \U{B7} Muestras de proceso"
  const UnnamedArea := "\U{C1}rea"

  /** `s` with its whitespace removed. */
  ghost function Unspaced(s: string): string {
    if s == [] then [] else (if IsSpace(s[0]) then [] else [s[0]]) + Unspaced(s[1..])
  }

  /** `s` with its hyphens removed. */
  ghost function Unhyphened(s: string): string {
    if s == [] then [] else (if s[0] == '-' then [] else [s[0]]) + Unhyphened(s[1..])
  }

  /** The rest of `s` after its leading run of whitespace. */
  function DropRun(s: string): (r: string)
    ensures Unspaced(r) == Unspaced(s)
    ensures |r| <= |s|
    ensures r == [] || !IsSpace(r[0])
    ensures forall c :: c in r ==> c in s
  {
    if s != [] && IsSpace(s[0]) then DropRun(s[1..]) else s
  }

  /** `s.replace(/\s+/g, "-")`: each maximal run of whitespace becomes a
      single hyphen; every other character is kept, in order. Hyphens
      aside, the result holds exactly the non-whitespace characters of
      `s`, in their order. */
  function Hyphenate(s: string): (r: string)
    ensures NoSpace(r)
    ensures Unhyphened(r) == Unhyphened(Unspaced(s))
    ensures r == [] <==> s == []
    ensures |r| <= |s|
    ensures forall c :: c in r ==> c == '-' || c in s
    decreases |s|
  {
    if s == [] then []
    else if IsSpace(s[0]) then
      var rest := Hyphenate(DropRun(s[1..]));
      assert ("-" + rest)[1..] == rest;
      assert Unhyphened("-" + rest) == Unhyphened(rest);
      assert Unspaced(s) == Unspaced(s[1..]);
      "-" + rest
    else [s[0]] + Hyphenate(s[1..])
  }

  /** A one-pass scanner that remembers whether it is inside a run of
      whitespace: an independent reading of the same replacement. */
  function Scan(s: string, inRun: bool): string {
    if s == [] then []
    else if IsSpace(s[0]) then (if inRun then "" else "-") + Scan(s[1..], true)
    else [s[0]] + Scan(s[1..], false)
  }

  lemma {:induction false} ScanSkipsRun(s: string)
    ensures Scan(s, true) == Scan(DropRun(s), false)
  {
    if s != [] && IsSpace(s[0]) {
      ScanSkipsRun(s[1..]);
    }
  }

  /** Run-by-run replacement and the one-pass scanner agree on every string. */
  lemma {:induction false} HyphenateIsScan(s: string)
    ensures Hyphenate(s) == Scan(s, false)
    decreases |s|
  {
    if s != [] {
      if IsSpace(s[0]) {
        HyphenateIsScan(DropRun(s[1..]));
        ScanSkipsRun(s[1..]);
      } else {
        HyphenateIsScan(s[1..]);
      }
    }
  }

  /** A string without whitespace is left as it is. */
  lemma {:induction false} HyphenateNoSpace(s: string)
    requires NoSpace(s)
    ensures Hyphenate(s) == s
  {
    if s != [] {
      HyphenateNoSpace(s[1..]);
    }
  }

  /** The slug made from a name: lower-cased, whitespace runs hyphenated. */
  function Slugify(name: string): (r: string)
    ensures r == Scan(ToLower(name), false)
    ensures NoSpace(r)
    ensures forall i :: 0 <= i < |r| ==> LowerChar(r[i]) == r[i]
  {
    HyphenateIsScan(ToLower(name));
    HyphenatedLower(name);
    Hyphenate(ToLower(name))
  }

  /** Every character of a hyphenated lower-cased string is already lower case. */
  lemma HyphenatedLower(name: string)
    ensures var s := Hyphenate(ToLower(name));
      forall i :: 0 <= i < |s| ==> LowerChar(s[i]) == s[i]
  {
    var s := Hyphenate(ToLower(name));
    forall i | 0 <= i < |s|
      ensures LowerChar(s[i]) == s[i]
    {
      assert s[i] in s;
      if s[i] != '-' {
        assert s[i] in ToLower(name);
        var j :| 0 <= j < |name| && ToLower(name)[j] == s[i];
        LowerCharIdempotent(name[j]);
      }
    }
  }

  /** A slug is its own slug. */
  lemma SlugifyIdempotent(name: string)
    ensures Slugify(Slugify(name)) == Slugify(name)
  {
    var s := Slugify(name);
    ToLowerFixed(s);
    HyphenateNoSpace(s);
  }


  /** `a.id || a.slug || (a.name || "").toLowerCase().replace(/\s+/g, "-")`,
      the rule the tab, the panel and the boot code all use. */
  function DeriveId(a: RawArea): (r: string)
    ensures Truthy(a.id) ==> r == a.id.value
    ensures !Truthy(a.id) && Truthy(a.slug) ==> r == a.slug.value
    ensures !Truthy(a.id) && !Truthy(a.slug) ==> r == Slugify(Or(a.name, ""))
    ensures !Truthy(a.id) && !Truthy(a.slug) ==> NoSpace(r) && |r| <= |Or(a.name, "")|
  {
    if Truthy(a.id) then a.id.value
    else if Truthy(a.slug) then a.slug.value
    else Slugify(Or(a.name, ""))
  }

  /** Naming an area after its own derived id derives the same id again. */
  lemma DeriveIdStable(a: RawArea)
    requires !Truthy(a.id) && !Truthy(a.slug)
    ensures DeriveId(a.(name := Some(DeriveId(a)))) == DeriveId(a)
  {
    SlugifyIdempotent(Or(a.name, ""));
  }

  /** The object boot code builds with `{ id: <derived>, ...a }`: the spread
      comes second, so an `id` key already present, even empty, survives. */
  function Spread(a: RawArea): (r: RawArea)
    ensures r.id == Some(if a.id.Some? then a.id.value else DeriveId(a))
    ensures r.(id := a.id) == a
  {
    if a.id.Some? then a else a.(id := Some(DeriveId(a)))
  }

  /** The id the boot code reads back from the spread object (`a.id`). */
  function BootId(a: RawArea): (r: string)
    ensures a.id != Some("") ==> r == DeriveId(a)
    ensures a.id == Some("") ==> r == ""
  {
    Spread(a).id.value
  }

  /** Spreading does not change the id tabs and panels derive. */
  lemma SpreadKeepsDerivedId(a: RawArea)
    ensures DeriveId(Spread(a)) == DeriveId(a)
  {
  }

  /** The boot code's id agrees with the derived one except when the area
      carries an explicit empty `id` and something else to derive from. */
  lemma BootIdIff(a: RawArea)
    ensures BootId(a) == DeriveId(a) <==> a.id != Some("") || DeriveId(a) == ""
  {
  }

  /** The quirk on an example: `{id: "", slug: "x"}` is addressed as "x" by
      its tab and panel but listed as "" by the boot code. */
  lemma BootIdQuirk()
    ensures var a := RawArea(Some(""), Some("x"), None, None, None, None, None);
      DeriveId(a) == "x" && BootId(a) == ""
  {
  }

  /** `area.items || area.main || []`: a present `items` list wins even when
      it is empty, since every array is truthy. */
  function MainOf(a: RawArea): (r: seq<Item>)
    ensures a.items.Some? ==> r == a.items.value
    ensures a.items.None? && a.main.Some? ==> r == a.main.value
    ensures a.items.None? && a.main.None? ==> r == []
  {
    if a.items.Some? then a.items.value
    else if a.main.Some? then a.main.value
    else []
  }

  /** `normalizeArea` as written: the object it builds has no `title`. */
  function NormalizeArea(a: RawArea): (r: Area)
    ensures r.id == DeriveId(a) && r.main == MainOf(a)
    ensures r.name == a.name && r.emoji == a.emoji
    ensures r.title.None?
  {
    Area(DeriveId(a), a.name, a.emoji, None, MainOf(a))
  }

  /** `normalizeArea` carrying `title` through to `sectionTitle`. */
  function NormalizeAreaKeepingTitle(a: RawArea): (r: Area)
    ensures r == NormalizeArea(a).(title := a.title)
  {
    Area(DeriveId(a), a.name, a.emoji, a.title, MainOf(a))
  }

  /** `emoji ? emoji + " " : ""`. */
  function EmojiPrefix(emoji: Option<string>): (r: string)
    ensures Truthy(emoji) ==> r == emoji.value + " "
    ensures !Truthy(emoji) ==> r == ""
  {
    if Truthy(emoji) then emoji.value + " " else ""
  }

  /** `name || id || "Área"`: never empty. */
  function DisplayName(a: Area): (r: string)
    ensures r != ""
    ensures Truthy(a.name) ==> r == a.name.value
    ensures !Truthy(a.name) && a.id != "" ==> r == a.id
    ensures !Truthy(a.name) && a.id == "" ==> r == UnnamedArea
  {
    Or(a.name, if a.id != "" then a.id else UnnamedArea)
  }

  /** `sectionTitle`: an explicit title as given; otherwise the optional
      emoji, the area's display name and the fixed suffix, in that order. */
  function SectionTitle(a: Area): (r: string)
    ensures Truthy(a.title) ==> r == a.title.value
    ensures !Truthy(a.title) ==>
      var e := EmojiPrefix(a.emoji);
      && |r| > |e| + |HeadingSuffix|
      && r[..|e|] == e
      && r[|e|..|r| - |HeadingSuffix|] == DisplayName(a)
      && r[|r| - |HeadingSuffix|..] == HeadingSuffix
    ensures !Truthy(a.title) && Truthy(a.emoji) ==> r == a.emoji.value + " " + DisplayName(a) + HeadingSuffix
    ensures !Truthy(a.title) && !Truthy(a.emoji) ==> r == DisplayName(a) + HeadingSuffix
  {
    if Truthy(a.title) then a.title.value
    else
      var e := EmojiPrefix(a.emoji);
      var r := e + DisplayName(a) + HeadingSuffix;
      assert r[..|e|] == e;
      assert r[|e|..|r| - |HeadingSuffix|] == DisplayName(a);
      assert r[|r| - |HeadingSuffix|..] == HeadingSuffix;
      r
  }

  /** Heading of a panel as the page builds it: `sectionTitle(normalizeArea(a))`.
      Since the normalised area has no title, a `title` in the document
      never reaches the heading. */
  lemma PanelHeadingIgnoresTitle(a: RawArea)
    ensures SectionTitle(NormalizeArea(a)) == SectionTitle(NormalizeArea(a.(title := None)))
    ensures var h := SectionTitle(NormalizeArea(a));
      |h| >= |HeadingSuffix| && h[|h| - |HeadingSuffix|..] == HeadingSuffix
  {
  }

  /** The discrepancy on an example: an area titled "Custom" gets the
      heading "M · Muestras de proceso". */
  lemma PanelHeadingTitleLost()
    ensures var a := RawArea(Some("m"), None, Some("M"), None, Some("Custom"), None, None);
      SectionTitle(NormalizeArea(a)) != "Custom"
  {
    var a := RawArea(Some("m"), None, Some("M"), None, Some("Custom"), None, None);
    assert DisplayName(NormalizeArea(a)) == "M";
  }

  /** The panel heading with the title carried through: a truthy title is
      shown as given, and without one the heading is unchanged. */
  function PanelHeading(a: RawArea): (r: string)
    ensures Truthy(a.title) ==> r == a.title.value
    ensures !Truthy(a.title) ==> r == SectionTitle(NormalizeArea(a))
  {
    SectionTitle(NormalizeAreaKeepingTitle(a))
  }

  /** The tab's caption: `emoji + " "` if any, then `name || title || id`. */
  function TabLabel(a: RawArea): (r: string)
    ensures var e := EmojiPrefix(a.emoji);
      && |r| >= |e| && r[..|e|] == e
      && (Truthy(a.name) ==> r[|e|..] == a.name.value)
      && (!Truthy(a.name) && Truthy(a.title) ==> r[|e|..] == a.title.value)
      && (!Truthy(a.name) && !Truthy(a.title) ==> r[|e|..] == DeriveId(a))
    ensures Truthy(a.emoji) ==> |r| > |a.emoji.value| && r[..|a.emoji.value| + 1] == a.emoji.value + " "
    ensures !Truthy(a.emoji) ==>
      r == if Truthy(a.name) then a.name.value else if Truthy(a.title) then a.title.value else DeriveId(a)
  {
    EmojiPrefix(a.emoji) + Or(a.name, Or(a.title, DeriveId(a)))
  }
}
