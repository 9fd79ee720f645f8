/** The content policy of the "context" section: entries whose label
    mentions "formatos posibles" or "propósito", in any case, are dropped
    before the list is rendered. */
module Context {
  import opened Js
  import opened Items

  const Formats := "formatos posibles"
  const Purpose := "prop\U{F3}sito"

  /** The lower-cased label the filter inspects; `""` for strings, scalars,
      `null` and objects without a truthy label. */
  function LabelKey(item: Item): string {
    if item.Obj? && Truthy(item.caption) then ToLower(item.caption.value) else ""
  }

  /** The entry survives the filter: it is dropped exactly when it is an
      object whose lower-cased truthy label contains one of the two phrases
      somewhere. */
  predicate Keep(item: Item): (r: bool)
    ensures !r <==>
      item.Obj? && Truthy(item.caption)
      && ((exists i :: OccursAt(ToLower(item.caption.value), Formats, i))
          || (exists i :: OccursAt(ToLower(item.caption.value), Purpose, i)))
  {
    !Includes(LabelKey(item), Formats) && !Includes(LabelKey(item), Purpose)
  }

  /** `a` is `b` with some entries removed, the rest in their order. */
  ghost predicate IsSubsequence<T>(a: seq<T>, b: seq<T>)
    decreases |b|
  {
    a == [] || (b != [] && ((a[0] == b[0] && IsSubsequence(a[1..], b[1..])) || IsSubsequence(a, b[1..])))
  }

  /** The entries `renderContext` passes on to `fillList`. */
  function FilterContext(items: seq<Item>): (r: seq<Item>)
    ensures IsSubsequence(r, items)
    ensures forall x :: x in r ==> Keep(x)
    ensures forall x :: multiset(r)[x] == if Keep(x) then multiset(items)[x] else 0
  {
    if items == [] then []
    else
      var rest := FilterContext(items[1..]);
      assert items == [items[0]] + items[1..];
      if Keep(items[0]) then [items[0]] + rest else rest
  }

  /** Strings, scalars, `null` and unlabeled objects always pass. */
  lemma UnlabeledKept(item: Item)
    requires !item.Obj? || !Truthy(item.caption)
    ensures Keep(item)
  {
  }

  /** Filtering a concatenation filters each part. */
  lemma {:induction false} FilterAppend(a: seq<Item>, b: seq<Item>)
    ensures FilterContext(a + b) == FilterContext(a) + FilterContext(b)
  {
    if a == [] {
      assert a + b == b;
    } else {
      assert (a + b)[1..] == a[1..] + b;
      FilterAppend(a[1..], b);
    }
  }

  /** Filtering a filtered list changes nothing. */
  lemma {:induction false} FilterIdempotent(items: seq<Item>)
    ensures FilterContext(FilterContext(items)) == FilterContext(items)
  {
    if items != [] {
      FilterIdempotent(items[1..]);
      if Keep(items[0]) {
        var rest := FilterContext(items[1..]);
        assert ([items[0]] + rest)[1..] == rest;
      }
    }
  }

  /** A list of which every entry passes comes through unchanged. */
  lemma {:induction false} FilterKeepsPassing(items: seq<Item>)
    requires forall x :: x in items ==> Keep(x)
    ensures FilterContext(items) == items
  {
    if items != [] {
      FilterKeepsPassing(items[1..]);
    }
  }

  /** The label "Formatos Posibles", capitalised, is caught. */
  lemma FormatsLabelDropped()
    ensures !Keep(Obj(None, None, Some("Formatos Posibles"), Some("x"), None))
  {
    var written := "Formatos Posibles";
    assert LowerChar('F') == 'f' && LowerChar('P') == 'p';
    assert forall i :: 0 <= i < |written| && i != 0 && i != 9 ==> !('A' <= written[i] <= 'Z') && written[i] < '\U{C0}';
    assert ToLower(written) == Formats;
    IncludesItself(Formats);
  }

  lemma IncludesItself(s: string)
    ensures Includes(s, s)
  {
  }

  lemma FilterSingle(x: Item)
    ensures FilterContext([x]) == if Keep(x) then [x] else []
  {
    assert [x][1..] == [];
  }

  /** A single dropped entry between two passing ones leaves exactly those two. */
  lemma FilterDropsMiddle(before: Item, dropped: Item, after: Item)
    requires Keep(before) && !Keep(dropped) && Keep(after)
    ensures FilterContext([before, dropped, after]) == [before, after]
  {
    FilterSingle(before);
    FilterSingle(dropped);
    FilterSingle(after);
    FilterAppend([before], [dropped]);
    FilterAppend([before, dropped], [after]);
    assert [before] + [dropped] == [before, dropped];
    assert [before, dropped] + [after] == [before, dropped, after];
  }

  /** A labelled entry "Formatos Posibles" between two passing entries
      disappears, and its neighbours stay, in order. */
  lemma FormatsDropped(before: Item, after: Item)
    requires Keep(before) && Keep(after)
    ensures FilterContext([before, Obj(None, None, Some("Formatos Posibles"), Some("x"), None), after])
      == [before, after]
  {
    FormatsLabelDropped();
    FilterDropsMiddle(before, Obj(None, None, Some("Formatos Posibles"), Some("x"), None), after);
  }

  /** The lines `renderContext` writes into its list. */
  function RenderContext(items: seq<Item>): (r: seq<Li>)
    ensures r == RenderList(FilterContext(items))
    ensures |r| <= |items|
    ensures forall li :: li in r ==> exists x :: x in items && Keep(x) && li == LiFrom(x)
  {
    var kept := FilterContext(items);
    assert |kept| <= |items| by { SubsequenceShorter(kept, items); }
    forall li | li in RenderList(kept)
      ensures exists x :: x in items && Keep(x) && li == LiFrom(x)
    {
      var i :| 0 <= i < |kept| && RenderList(kept)[i] == li;
      assert kept[i] in kept;
      assert multiset(kept)[kept[i]] > 0;
    }
    RenderList(kept)
  }

  lemma {:induction false} SubsequenceShorter<T>(a: seq<T>, b: seq<T>)
    requires IsSubsequence(a, b)
    ensures |a| <= |b|
    decreases |b|
  {
    if a != [] {
      if a[0] == b[0] && IsSubsequence(a[1..], b[1..]) {
        SubsequenceShorter(a[1..], b[1..]);
      } else {
        SubsequenceShorter(a, b[1..]);
      }
    }
  }
}
