/**
 * The table-of-contents sidebar: one entry per processed heading, indented
 * relative to the shallowest heading, with a scroll-spy highlight that stays
 * on at most one entry.
 */
module Toc {
  import opened Wrappers
  import opened Dom
  import Slug
  import HeadingIds
  import Anchors

  /** `TOCItem`. */
  datatype TocItem = TocItem(id: string, text: string, level: int, element: Heading)

  /**
   * An `a.toc-item` of the list: `href` is `#` + id and `data-id` the id,
   * `data-level` the level, `paddingLeft` in px, and whether it has class `active`.
   */
  datatype Entry = Entry(id: string, text: string, level: int, padding: int, active: bool)

  /** A `HeadingLevel`: `h1` … `h6`. */
  predicate IsLevelName(level: string)
  {
    |level| == 2 && level[0] == 'h' && '1' <= level[1] <= '6'
  }

  /** `parseInt(level.charAt(1))`: recovers the rank a level name was made from. */
  function ParseLevel(level: string): (n: Rank)
    requires IsLevelName(level)
    ensures LevelName(n) == level
  {
    level[1] as int - '0' as int
  }

  /** One `TOCItem` of `init`'s `map`: the trimmed text of the heading as it is now. */
  function ItemOf(ref: Anchors.HeadingRef): TocItem
    requires IsLevelName(ref.level)
    reads ref.element
  {
    TocItem(ref.id, Slug.Trim(TextContent(ref.element.children)), ParseLevel(ref.level), ref.element)
  }

  ghost predicate LevelNames(refs: seq<Anchors.HeadingRef>)
  {
    forall i :: 0 <= i < |refs| ==> IsLevelName(refs[i].level)
  }

  /** `headings.map(...)` of `init`: one item per heading, in order. */
  function ItemsOf(refs: seq<Anchors.HeadingRef>): (items: seq<TocItem>)
    requires LevelNames(refs)
    reads set i | 0 <= i < |refs| :: refs[i].element
    ensures |items| == |refs|
  {
    if refs == [] then [] else [ItemOf(refs[0])] + ItemsOf(refs[1..])
  }

  /**
   * Item `i` carries heading `i`'s id, element and trimmed text, and the rank
   * its level name was made from.
   */
  lemma {:induction false} ItemsOfAt(refs: seq<Anchors.HeadingRef>, i: int)
    requires LevelNames(refs) && 0 <= i < |refs|
    ensures var item := ItemsOf(refs)[i];
            && item.id == refs[i].id && item.element == refs[i].element
            && 1 <= item.level <= 6 && LevelName(item.level) == refs[i].level
            && item.text == Slug.Trim(TextContent(refs[i].element.children))
  {
    if i > 0 {
      ItemsOfAt(refs[1..], i - 1);
    }
  }

  /** `Math.min(...levels)` of a non-empty item list. */
  function MinLevel(items: seq<TocItem>): (m: int)
    requires items != []
    ensures forall i :: 0 <= i < |items| ==> m <= items[i].level
    ensures exists i :: 0 <= i < |items| && items[i].level == m
  {
    if |items| == 1 then items[0].level
    else
      var rest := MinLevel(items[1..]);
      if items[0].level <= rest then items[0].level else rest
  }

  /** `8 + (level - minLevel) * 16` pixels. */
  function Padding(level: int, minLevel: int): int
  {
    8 + (level - minLevel) * 16
  }

  /** `createTOCItem`: a fresh entry, not highlighted. */
  function EntryOf(item: TocItem, minLevel: int): Entry
  {
    Entry(item.id, item.text, item.level, Padding(item.level, minLevel), false)
  }

  /** The entries `createTOC` appends, indented against `minLevel`. */
  function Render(items: seq<TocItem>, minLevel: int): seq<Entry>
  {
    seq(|items|, i requires 0 <= i < |items| => EntryOf(items[i], minLevel))
  }

  /** The list `createTOC` builds for `items`. */
  function Entries(items: seq<TocItem>): seq<Entry>
  {
    if items == [] then [] else Render(items, MinLevel(items))
  }

  /**
   * The list shows the items in order, none highlighted, each indented by 16 px
   * per level below the shallowest one: never less than 8 px, and exactly 8 px
   * for the shallowest headings, of which there is at least one.
   */
  lemma EntriesIndent(items: seq<TocItem>)
    ensures var entries := Entries(items);
            && |entries| == |items|
            && (forall i :: 0 <= i < |items| ==>
                  && entries[i].id == items[i].id && entries[i].text == items[i].text
                  && entries[i].level == items[i].level && !entries[i].active
                  && entries[i].padding >= 8
                  && (entries[i].padding == 8 <==> items[i].level == MinLevel(items)))
            && (items != [] ==> exists i :: 0 <= i < |items| && entries[i].padding == 8)
  {
    if items != [] {
      var m := MinLevel(items);
      var entries := Entries(items);
      var k :| 0 <= k < |items| && items[k].level == m;
      assert entries[k].padding == 8;
    }
  }

  /** `querySelector('[data-id="id"]')` on the list: the first entry with that id. */
  function FirstWithId(entries: seq<Entry>, id: string): (r: Option<nat>)
    ensures r.Some? ==> r.value < |entries| && entries[r.value].id == id
    ensures r.Some? ==> forall j :: 0 <= j < r.value ==> entries[j].id != id
    ensures r.None? ==> forall j :: 0 <= j < |entries| ==> entries[j].id != id
  {
    if entries == [] then None
    else if entries[0].id == id then Some(0)
    else match FirstWithId(entries[1..], id)
      case Some(k) => Some(k + 1)
      case None => None
  }

  /** Two lists with the same ids, position by position. */
  ghost predicate SameIds(a: seq<Entry>, b: seq<Entry>)
  {
    |a| == |b| && forall i :: 0 <= i < |a| ==> a[i].id == b[i].id
  }

  /** Two lists that differ at most in which entries carry `active`. */
  ghost predicate SameEntries(a: seq<Entry>, b: seq<Entry>)
  {
    |a| == |b| && forall i :: 0 <= i < |a| ==> b[i] == a[i].(active := b[i].active)
  }

  lemma {:induction false} FirstWithIdSameIds(a: seq<Entry>, b: seq<Entry>, id: string)
    requires SameIds(a, b)
    ensures FirstWithId(a, id) == FirstWithId(b, id)
  {
    if a != [] && a[0].id != id {
      FirstWithIdSameIds(a[1..], b[1..], id);
    }
  }

  /** The highlight state: `tocList`'s entries, if there is a list, and `activeItem` as a position in it. */
  datatype Highlight = Highlight(list: Option<seq<Entry>>, active: Option<nat>)

  /** `activeItem` is an entry of the current list. */
  ghost predicate Consistent(h: Highlight)
  {
    h.active.Some? ==> h.list.Some? && h.active.value < |h.list.value|
  }

  /** Only the `activeItem` entry can carry `active`. */
  ghost predicate AtMostOneActive(h: Highlight)
  {
    h.list.Some? ==> forall i :: 0 <= i < |h.list.value| && h.list.value[i].active ==> h.active == Some(i)
  }

  /** No entry carries `active`. */
  ghost predicate NoneActive(entries: seq<Entry>)
  {
    forall i :: 0 <= i < |entries| ==> !entries[i].active
  }

  /** The entries with one entry's `active` class set or cleared. */
  function Mark(entries: seq<Entry>, i: nat, on: bool): (r: seq<Entry>)
    requires i < |entries|
    ensures SameIds(entries, r) && SameEntries(entries, r) && r[i].active == on
    ensures forall j :: 0 <= j < |entries| && j != i ==> r[j] == entries[j]
  {
    entries[i := entries[i].(active := on)]
  }

  /**
   * `setActiveItem(id)`: clears the highlight of the current `activeItem`, then
   * highlights the first entry whose `data-id` is `id`, if there is one, and
   * makes it the `activeItem`. Otherwise `activeItem` keeps its old entry,
   * now without the highlight.
   */
  function SetActive(h: Highlight, id: string): (r: Highlight)
    requires Consistent(h)
    ensures Consistent(r) && r.list.Some? == h.list.Some?
    ensures h.list.Some? ==> SameIds(h.list.value, r.list.value) && SameEntries(h.list.value, r.list.value)
    ensures AtMostOneActive(h) ==> AtMostOneActive(r)
    ensures h.list.Some? && FirstWithId(h.list.value, id).Some? ==>
              && r.active == FirstWithId(h.list.value, id)
              && r.list.value[r.active.value].active
    ensures h.list.Some? && FirstWithId(h.list.value, id).None? ==>
              r.active == h.active && (AtMostOneActive(h) ==> NoneActive(r.list.value))
    ensures h.list.None? ==> r == h
  {
    match h.list
    case None => h
    case Some(entries) =>
      var cleared := if h.active.Some? then Mark(entries, h.active.value, false) else entries;
      assert FirstWithId(cleared, id) == FirstWithId(entries, id) by {
        FirstWithIdSameIds(cleared, entries, id);
      }
      match FirstWithId(cleared, id)
      case Some(i) => Highlight(Some(Mark(cleared, i, true)), Some(i))
      case None => Highlight(Some(cleared), h.active)
  }

  /** An entry of an `IntersectionObserver` callback batch. */
  datatype IntersectionEntry = IntersectionEntry(isIntersecting: bool, targetId: string)

  /** Whether the callback acts on an entry: it intersects and its target has an id. */
  predicate Acts(e: IntersectionEntry)
  {
    e.isIntersecting && e.targetId != ""
  }

  /** The highlight after the callback has handled `batch` in order. */
  function ApplyBatch(h: Highlight, batch: seq<IntersectionEntry>): (r: Highlight)
    requires Consistent(h)
    ensures Consistent(r) && r.list.Some? == h.list.Some?
    ensures h.list.Some? ==> SameIds(h.list.value, r.list.value) && SameEntries(h.list.value, r.list.value)
    ensures AtMostOneActive(h) ==> AtMostOneActive(r)
  {
    if batch == [] then h
    else
      var before := ApplyBatch(h, batch[..|batch| - 1]);
      var e := batch[|batch| - 1];
      if Acts(e) then SetActive(before, e.targetId) else before
  }

  /** The target id of the last entry of the batch the callback acts on. */
  function LastTarget(batch: seq<IntersectionEntry>): (r: Option<string>)
    ensures r.Some? ==> exists i :: && 0 <= i < |batch| && Acts(batch[i]) && batch[i].targetId == r.value
                                    && forall j :: i < j < |batch| ==> !Acts(batch[j])
    ensures r.None? ==> forall i :: 0 <= i < |batch| ==> !Acts(batch[i])
  {
    if batch == [] then None
    else if Acts(batch[|batch| - 1]) then Some(batch[|batch| - 1].targetId)
    else LastTarget(batch[..|batch| - 1])
  }

  /**
   * The last entry of a batch wins: when the list has an entry for its target,
   * that entry ends up as the only highlighted one.
   */
  lemma {:induction false} LastIntersectionWins(h: Highlight, batch: seq<IntersectionEntry>, id: string)
    requires Consistent(h) && AtMostOneActive(h) && h.list.Some?
    requires LastTarget(batch) == Some(id) && FirstWithId(h.list.value, id).Some?
    ensures var r := ApplyBatch(h, batch);
            && r.active == FirstWithId(h.list.value, id)
            && forall i :: 0 <= i < |r.list.value| ==> (r.list.value[i].active <==> r.active == Some(i))
  {
    var prefix := batch[..|batch| - 1];
    var before := ApplyBatch(h, prefix);
    FirstWithIdSameIds(h.list.value, before.list.value, id);
    if !Acts(batch[|batch| - 1]) {
      LastIntersectionWins(h, prefix, id);
    }
  }

  /** A batch the callback does not act on leaves the highlight as it was. */
  lemma {:induction false} IgnoredBatch(h: Highlight, batch: seq<IntersectionEntry>)
    requires Consistent(h) && LastTarget(batch).None?
    ensures ApplyBatch(h, batch) == h
  {
    if batch != [] {
      IgnoredBatch(h, batch[..|batch| - 1]);
    }
  }

  /** The manager's fields and the page state it owns. */
  datatype TocState = TocState(
    container: Aside?,
    tocList: Option<seq<Entry>>,
    items: seq<TocItem>,
    activeItem: Option<nat>,
    observer: Option<seq<Heading>>,
    asides: set<Aside>,
    marginRight: string)

  /** The state `destroy` leaves: no container, no observer, no items, no active item, margin reset. */
  function Destroyed(s: TocState, hasMainContent: bool): TocState
  {
    TocState(
      null, s.tocList, [], None, None,
      if s.container == null then s.asides else s.asides - {s.container},
      if hasMainContent then "" else s.marginRight)
  }

  /** `destroy` is idempotent. */
  lemma DestroyIdempotent(s: TocState, hasMainContent: bool)
    ensures Destroyed(Destroyed(s, hasMainContent), hasMainContent) == Destroyed(s, hasMainContent)
  {
  }

  /** The headings `setupIntersectionObserver` observes, in order. */
  function Observed(items: seq<TocItem>): seq<Heading>
  {
    seq(|items|, i requires 0 <= i < |items| => items[i].element)
  }

  /** `TOCManager`. */
  class TocManager {
    /** The page the sidebar lives in. */
    const doc: Document
    var container: Aside?
    var tocList: Option<seq<Entry>>
    var items: seq<TocItem>
    var activeItem: Option<nat>
    /** The headings the connected `IntersectionObserver` watches; `None` when there is none. */
    var observer: Option<seq<Heading>>

    ghost function State(): TocState
      reads this, doc
    {
      TocState(container, tocList, items, activeItem, observer, doc.asides, doc.marginRight)
    }

    function Highlighted(): Highlight
      reads this
    {
      Highlight(tocList, activeItem)
    }

    /**
     * The only container in the page is the manager's own, an observer is
     * connected exactly while there is one, and while there is one the
     * highlight is on at most one entry of its list.
     */
    ghost predicate Valid()
      reads this, doc`asides
    {
      && doc.asides == (if container == null then {} else {container})
      && (container == null <==> observer.None?)
      && (container != null ==> tocList.Some? && AtMostOneActive(Highlighted()))
      && Consistent(Highlighted())
    }

    /**
     * The sidebar lists `headings`, in order, with nothing highlighted, and
     * the observer watches each of their elements.
     */
    ghost predicate Shows(headings: seq<Anchors.HeadingRef>)
      requires LevelNames(headings)
      reads this, doc`asides, set i | 0 <= i < |headings| :: headings[i].element
    {
      && items == ItemsOf(headings)
      && tocList == Some(Entries(items)) && observer == Some(Observed(items)) && activeItem.None?
      && container != null && doc.asides == {container}
    }

    /** The singleton `tocManager`, created before any sidebar exists. */
    constructor(doc: Document)
      requires doc.asides == {}
      ensures this.doc == doc && Valid()
      ensures container == null && tocList.None? && items == [] && activeItem.None? && observer.None?
    {
      this.doc := doc;
      container := null;
      tocList := None;
      items := [];
      activeItem := None;
      observer := None;
    }

    /** `destroy`. */
    method Destroy()
      requires Valid()
      modifies this, doc`asides, doc`marginRight
      ensures Valid() && doc.asides == {}
      ensures State() == Destroyed(old(State()), doc.hasMainContent)
    {
      if container != null {
        doc.asides := doc.asides - {container};
        container := null;
      }
      if observer.Some? {
        observer := None;
      }
      if doc.hasMainContent {
        doc.marginRight := "";
      }
      items := [];
      activeItem := None;
    }

    /** `adjustContentWidth`: room for the sidebar next to the main content, if the page has it. */
    method AdjustContentWidth()
      modifies doc`marginRight
      ensures doc.marginRight == if doc.hasMainContent then "280px" else old(doc.marginRight)
    {
      if doc.hasMainContent {
        doc.marginRight := "280px";
      }
    }

    /** `createTOC` after its `destroy()`: a new container holding one entry per item, attached to the page. */
    method BuildToc()
      requires container == null && doc.asides == {}
      modifies this`container, this`tocList, doc`asides, doc`marginRight
      ensures container != null && fresh(container) && doc.asides == {container}
      ensures tocList == Some(Entries(items)) && NoneActive(tocList.value)
      ensures doc.marginRight == if doc.hasMainContent then "280px" else old(doc.marginRight)
    {
      var aside := new Aside();
      var entries: seq<Entry> := [];
      if items != [] {
        var minLevel := MinLevel(items);
        for i := 0 to |items|
          invariant |entries| == i
          invariant forall j :: 0 <= j < i ==> entries[j] == EntryOf(items[j], minLevel)
        {
          entries := entries + [EntryOf(items[i], minLevel)];
        }
        assert entries == Render(items, minLevel);
      }
      tocList := Some(entries);
      container := aside;
      doc.asides := doc.asides + {aside};
      AdjustContentWidth();
    }

    /** `createTOC`: `destroy()` first, which also empties `items`, then the new container. */
    method CreateToc()
      requires Valid()
      modifies this, doc`asides, doc`marginRight
      ensures items == [] && tocList == Some([]) && activeItem.None? && observer.None?
      ensures container != null && fresh(container) && doc.asides == {container}
      ensures doc.marginRight == if doc.hasMainContent then "280px" else old(doc.marginRight)
    {
      Destroy();
      BuildToc();
    }

    /** `setupIntersectionObserver`: a new observer watching every item's heading. */
    method SetupIntersectionObserver()
      modifies this`observer
      ensures observer == Some(Observed(items))
    {
      var watched: seq<Heading> := [];
      for i := 0 to |items|
        invariant |watched| == i
        invariant forall j :: 0 <= j < i ==> watched[j] == items[j].element
      {
        watched := watched + [items[i].element];
      }
      assert watched == Observed(items);
      observer := Some(watched);
    }

    /**
     * `init` as written: `createTOC` calls `destroy`, which empties the items
     * just stored, so the list is always empty and nothing is observed.
     */
    method InitAsWritten(headings: seq<Anchors.HeadingRef>)
      requires Valid() && LevelNames(headings)
      modifies this, doc`asides, doc`marginRight
      ensures Valid()
      ensures headings == [] ==> State() == old(State())
      ensures headings != [] ==>
                && items == [] && tocList == Some([]) && observer == Some([]) && activeItem.None?
                && container != null && fresh(container) && doc.asides == {container}
                && doc.marginRight == if doc.hasMainContent then "280px" else old(doc.marginRight)
    {
      if |headings| == 0 {
        return;
      }
      items := ItemsOf(headings);
      CreateToc();
      SetupIntersectionObserver();
      assert Observed([]) == [];
    }

    /**
     * The rebuild `init` intends: `destroy`, then the new items, the container
     * that lists them and the observer that watches their headings.
     */
    method Rebuild(newItems: seq<TocItem>)
      requires Valid()
      modifies this, doc`asides, doc`marginRight
      ensures Valid()
      ensures items == newItems && activeItem.None?
      ensures tocList == Some(Entries(items)) && observer == Some(Observed(items))
      ensures container != null && fresh(container) && doc.asides == {container}
      ensures doc.marginRight == if doc.hasMainContent then "280px" else old(doc.marginRight)
    {
      Destroy();
      items := newItems;
      BuildToc();
      SetupIntersectionObserver();
    }

    /**
     * `init` with the rebuild ordered as intended: the old sidebar is destroyed
     * before the new items are stored, so the list shows one entry per heading
     * and every heading is observed. An empty heading list changes nothing.
     */
    method Init(headings: seq<Anchors.HeadingRef>)
      requires Valid() && LevelNames(headings)
      modifies this, doc`asides, doc`marginRight
      ensures Valid()
      ensures headings == [] ==> State() == old(State())
      ensures headings != [] ==>
                && Shows(headings) && fresh(container)
                && doc.marginRight == if doc.hasMainContent then "280px" else old(doc.marginRight)
    {
      if |headings| == 0 {
        return;
      }
      Rebuild(ItemsOf(headings));
    }

    /** `update`: a full rebuild through `init`. */
    method Update(headings: seq<Anchors.HeadingRef>)
      requires Valid() && LevelNames(headings)
      modifies this, doc`asides, doc`marginRight
      ensures Valid()
      ensures headings == [] ==> State() == old(State())
      ensures headings != [] ==>
                && Shows(headings) && fresh(container)
                && doc.marginRight == if doc.hasMainContent then "280px" else old(doc.marginRight)
    {
      Init(headings);
    }

    /** `update` as written, through `init` as written: the rebuilt sidebar is empty. */
    method UpdateAsWritten(headings: seq<Anchors.HeadingRef>)
      requires Valid() && LevelNames(headings)
      modifies this, doc`asides, doc`marginRight
      ensures Valid()
      ensures headings == [] ==> State() == old(State())
      ensures headings != [] ==>
                && items == [] && tocList == Some([]) && observer == Some([]) && activeItem.None?
                && container != null && fresh(container) && doc.asides == {container}
                && doc.marginRight == if doc.hasMainContent then "280px" else old(doc.marginRight)
    {
      InitAsWritten(headings);
    }

    /** `setActiveItem`. */
    method SetActiveItem(id: string)
      requires Consistent(Highlighted())
      modifies this`tocList, this`activeItem
      ensures Highlighted() == SetActive(old(Highlighted()), id)
    {
      if activeItem.Some? {
        tocList := Some(Mark(tocList.value, activeItem.value, false));
      }
      var found := if tocList.Some? then FirstWithId(tocList.value, id) else None;
      if found.Some? {
        tocList := Some(Mark(tocList.value, found.value, true));
        activeItem := found;
      }
    }

    /** `scrollToHeading`: nothing happens unless the page has an element with that id. */
    method ScrollToHeading(id: string) returns (effects: seq<Effect>)
      requires Valid()
      modifies this`tocList, this`activeItem
      ensures Valid()
      ensures HeadingIds.Present(doc.ids, id) ==>
                effects == [ScrollIntoView(id), PushState("#" + id)] && Highlighted() == SetActive(old(Highlighted()), id)
      ensures !HeadingIds.Present(doc.ids, id) ==> effects == [] && Highlighted() == old(Highlighted())
    {
      effects := [];
      if HeadingIds.Present(doc.ids, id) {
        effects := [ScrollIntoView(id), PushState("#" + id)];
        SetActiveItem(id);
      }
    }

    /** The `IntersectionObserver` callback; a disconnected observer delivers nothing. */
    method OnIntersections(batch: seq<IntersectionEntry>)
      requires Valid()
      modifies this`tocList, this`activeItem
      ensures Valid()
      ensures Highlighted() == if observer.Some? then ApplyBatch(old(Highlighted()), batch) else old(Highlighted())
    {
      if observer.None? {
        return;
      }
      for i := 0 to |batch|
        invariant Highlighted() == ApplyBatch(old(Highlighted()), batch[..i])
        invariant Valid()
      {
        assert batch[..i + 1][..i] == batch[..i];
        var e := batch[i];
        if e.isIntersecting {
          var id := e.targetId;
          if id != "" {
            SetActiveItem(id);
          }
        }
      }
      assert batch[..|batch|] == batch;
    }

    /** `isVisible`: a container exists and is attached to the page. */
    function IsVisible(): (visible: bool)
      reads this, doc
      ensures Valid() ==> (visible <==> container != null)
    {
      container != null && container in doc.asides
    }
  }
}
