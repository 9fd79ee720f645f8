/** List entries: the loosely-shaped JSON items of every section, the
    first-match cascade that decides how an entry is drawn, and the list
    renderer that turns a sequence of entries into `<li>` nodes. */
module Items {
  import opened Js

  /** One entry of a section's `items` (or an area's `main`) as it arrives
      from the JSON document. Field values are strings or absent. */
  datatype Item =
    | Str(s: string)
    | Obj(html: Option<string>, href: Option<string>, caption: Option<string>,
          text: Option<string>, target: Option<string>)
      /** a number, boolean or array; `shown` is what `String(...)` makes of it */
    | Scalar(shown: string)
    | Null

  /** What an entry is drawn as, decided once from the fields present. */
  datatype Shape =
    | Plain(text: string)
    | Markup(html: string)
    | Linked(caption: Option<string>, href: string, target: string, text: string)
    | Labeled(caption: Option<string>, text: string)

  /** A child of a rendered `<li>`. `Strong` holds the bold "label: " prefix. */
  datatype Child =
    | Span(text: string)
    | Strong(text: string)
    | Anchor(href: string, target: string, rel: string, text: string)
    | Html(markup: string)

  /** A rendered `<li>` element. */
  datatype Li = Li(children: seq<Child>)

  const DefaultTarget := "_blank"
  const NoOpener := "noopener"

  /** The `label` kept for a prefix: present only when truthy. */
  function LabelIf(caption: Option<string>): Option<string> {
    if Truthy(caption) then Some(caption.value) else None
  }

  /** `String(item ?? "")` for an entry none of whose fields applies. */
  function Stringify(item: Item): string {
    match item
    case Str(s) => s
    case Obj(_, _, _, _, _) => "[object Object]"
    case Scalar(shown) => shown
    case Null => ""
  }

  /** The link an entry with a truthy `href` becomes: its visible text
      defaults to the address and its target to a new browsing context. */
  function LinkOf(item: Item): Shape
    requires item.Obj? && Truthy(item.href)
  {
    Linked(LabelIf(item.caption), item.href.value, Or(item.target, DefaultTarget),
           Or(item.text, item.href.value))
  }

  /** The `liFrom` cascade: the first of string, `html`, `href`,
      `label`/`text` that applies decides the shape; anything else is shown
      stringified. */
  function Classify(item: Item): (r: Shape)
    ensures r.Markup? <==> item.Obj? && Truthy(item.html)
    ensures r.Linked? <==> item.Obj? && !Truthy(item.html) && Truthy(item.href)
    ensures r.Labeled? <==>
      item.Obj? && !Truthy(item.html) && !Truthy(item.href)
      && (Truthy(item.caption) || Truthy(item.text))
    ensures r.Plain? <==>
      !item.Obj? || !(Truthy(item.html) || Truthy(item.href) || Truthy(item.caption) || Truthy(item.text))
    ensures r.Plain? ==> r.text == Stringify(item)
  {
    match item
    case Obj(html, href, caption, text, _) =>
      if Truthy(html) then Markup(html.value)
      else if Truthy(href) then LinkOf(item)
      else if Truthy(caption) || Truthy(text) then Labeled(LabelIf(caption), Or(text, ""))
      else Plain(Stringify(item))
    case _ => Plain(Stringify(item))
  }

  /** The optional bold "label: " prefix. */
  function Prefix(caption: Option<string>): seq<Child> {
    match caption
    case Some(l) => [Strong(l + ": ")]
    case None => []
  }

  /** The children drawn for a shape. Every link is opened without an opener. */
  function Draw(shape: Shape): (r: Li)
    ensures |r.children| >= 1
    ensures forall c :: c in r.children && c.Anchor? ==> c.rel == NoOpener
  {
    match shape
    case Plain(text) => Li([Span(text)])
    case Markup(html) => Li([Html(html)])
    case Linked(caption, href, target, text) => Li(Prefix(caption) + [Anchor(href, target, NoOpener, text)])
    case Labeled(caption, text) => Li(Prefix(caption) + [Span(text)])
  }

  /** The bold "label: " prefix an object's truthy `label` contributes. */
  function LabelPrefix(item: Item): (r: seq<Child>)
    requires item.Obj?
    ensures r == Prefix(LabelIf(item.caption))
  {
    if Truthy(item.caption) then [Strong(item.caption.value + ": ")] else []
  }

  /** `liFrom`: one `<li>` for one entry. A string is a single span; a
      truthy `html` is inserted as it is; a truthy `href` gives the optional
      label prefix and a link whose text defaults to the address and whose
      target defaults to `_blank`; a truthy `label` or `text` gives the
      prefix and the text; anything else is shown stringified. */
  function LiFrom(item: Item): (r: Li)
    ensures |r.children| >= 1
    ensures item.Str? ==> r == Li([Span(item.s)])
    ensures item.Obj? && Truthy(item.html) ==> r == Li([Html(item.html.value)])
    ensures item.Obj? && !Truthy(item.html) && Truthy(item.href) ==>
      r.children == LabelPrefix(item)
        + [Anchor(item.href.value, Or(item.target, DefaultTarget), NoOpener, Or(item.text, item.href.value))]
    ensures item.Obj? && !Truthy(item.html) && !Truthy(item.href) && (Truthy(item.caption) || Truthy(item.text)) ==>
      r.children == LabelPrefix(item) + [Span(Or(item.text, ""))]
    ensures !item.Obj? || !(Truthy(item.html) || Truthy(item.href) || Truthy(item.caption) || Truthy(item.text)) ==>
      r == Li([Span(Stringify(item))])
  {
    Draw(Classify(item))
  }

  /** Every entry's `<li>` receives content (markup counts as one piece);
      nothing makes it fail. */
  lemma LiFromNeverEmpty(item: Item)
    ensures |LiFrom(item).children| >= 1
  {
  }

  /** `html` wins over every other field, and `href` over `label`/`text`. */
  lemma LiFromPriority(item: Item)
    requires item.Obj?
    ensures Truthy(item.html) ==> LiFrom(item) == Li([Html(item.html.value)])
    ensures !Truthy(item.html) && Truthy(item.href) ==>
      LiFrom(item).children[|LiFrom(item).children| - 1].Anchor?
  {
  }

  /** A link's visible text is the address when `text` is missing, and it
      opens in `_blank` when `target` is missing. */
  lemma LinkDefaults(href: string, caption: Option<string>)
    requires href != ""
    ensures LiFrom(Obj(None, Some(href), caption, None, None)).children
      == Prefix(LabelIf(caption)) + [Anchor(href, DefaultTarget, NoOpener, href)]
  {
  }

  /** The shape `renderRetro` gives an entry, if any: it checks `href`
      before `html` and draws nothing for an entry with none of `href`,
      `html`, `text`. */
  function RetroShape(item: Item): (r: Option<Shape>)
    ensures r.Some? && r.value.Markup? <==> item.Obj? && !Truthy(item.href) && Truthy(item.html)
    ensures r.Some? && r.value.Linked? <==> item.Obj? && Truthy(item.href)
    ensures r.None? <==>
      !item.Str? && !(item.Obj? && (Truthy(item.href) || Truthy(item.html) || Truthy(item.text)))
  {
    match item
    case Str(s) => Some(Plain(s))
    case Obj(html, href, caption, text, _) =>
      if Truthy(href) then Some(LinkOf(item))
      else if Truthy(html) then Some(Markup(html.value))
      else if Truthy(text) then Some(Labeled(LabelIf(caption), text.value))
      else None
    case _ => None
  }

  /** One `<li>` of the retrospective list: a string is a span; then a
      truthy `href` gives the optional label prefix and the link, a truthy
      `html` is inserted as it is, and a truthy `text` gives the prefix and
      the text; an entry with none of these leaves the `<li>` empty. */
  function RetroLi(item: Item): (r: Li)
    ensures item.Str? ==> r == Li([Span(item.s)])
    ensures item.Obj? && Truthy(item.href) ==>
      r.children == LabelPrefix(item)
        + [Anchor(item.href.value, Or(item.target, DefaultTarget), NoOpener, Or(item.text, item.href.value))]
    ensures item.Obj? && !Truthy(item.href) && Truthy(item.html) ==> r == Li([Html(item.html.value)])
    ensures item.Obj? && !Truthy(item.href) && !Truthy(item.html) && Truthy(item.text) ==>
      r.children == LabelPrefix(item) + [Span(item.text.value)]
    ensures RetroShape(item).None? ==> r == Li([])
    ensures !item.Str? && !(item.Obj? && (Truthy(item.href) || Truthy(item.html) || Truthy(item.text))) ==>
      r.children == []
  {
    match RetroShape(item)
    case Some(shape) => Draw(shape)
    case None => Li([])
  }

  /** The retrospective cascade and `liFrom` agree exactly on strings, on
      objects with only one of `href` and `html`, and on objects with
      neither but a truthy `text`. */
  lemma RetroAgreesWithLiFrom(item: Item)
    ensures RetroLi(item) == LiFrom(item) <==>
      || item.Str?
      || (item.Obj? && (Truthy(item.href) != Truthy(item.html)))
      || (item.Obj? && !Truthy(item.href) && !Truthy(item.html) && Truthy(item.text))
  {
    if item.Obj? && Truthy(item.href) && Truthy(item.html) {
      assert LiFrom(item).children[0].Html?;
      assert RetroLi(item).children[|RetroLi(item).children| - 1].Anchor?;
    }
  }

  /** The retrospective list: one possibly empty `<li>` per entry, in order. */
  function RenderRetro(items: seq<Item>): (r: seq<Li>)
    ensures |r| == |items|
    ensures forall i :: 0 <= i < |items| ==> r[i] == RetroLi(items[i])
    ensures forall i :: 0 <= i < |items| && RetroShape(items[i]).None? ==> r[i].children == []
  {
    seq(|items|, i requires 0 <= i < |items| => RetroLi(items[i]))
  }

  /** The `<li>` nodes `fillList` appends: one per entry, in input order. */
  function RenderList(items: seq<Item>): (r: seq<Li>)
    ensures |r| == |items|
    ensures forall i :: 0 <= i < |items| ==> r[i] == LiFrom(items[i])
  {
    if items == [] then [] else [LiFrom(items[0])] + RenderList(items[1..])
  }

  /** Rendering a concatenation renders each part in turn. */
  lemma RenderListAppend(a: seq<Item>, b: seq<Item>)
    ensures RenderList(a + b) == RenderList(a) + RenderList(b)
  {
  }

  /** `fillList(listEl, items)`: a missing container stays missing; a
      present one loses its old content and holds one node per entry. */
  function FillList(list: Option<seq<Li>>, items: seq<Item>): (r: Option<seq<Li>>)
    ensures list.None? <==> r.None?
    ensures r.Some? ==> |r.value| == |items|
    ensures r.Some? ==> forall i :: 0 <= i < |items| ==> r.value[i] == LiFrom(items[i])
  {
    if list.None? then None else Some(RenderList(items))
  }

  /** Filling the same list twice with the same entries is filling it once,
      and what the container held before does not matter. */
  lemma FillListIdempotent(list: seq<Li>, other: seq<Li>, items: seq<Item>)
    ensures FillList(FillList(Some(list), items), items) == FillList(Some(list), items)
    ensures FillList(Some(other), items) == FillList(Some(list), items)
  {
  }
}
