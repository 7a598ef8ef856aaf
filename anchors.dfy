/**
 * The heading processor: finds the headings of the discussion content, gives
 * each a unique id, and decorates each with a copy-link anchor.
 */
module Anchors {
  import opened Wrappers
  import opened Dom
  import HeadingIds
  import Slug

  /** `AnchorConfig`. */
  datatype Config = Config(headingLevels: seq<Rank>, iconContent: string, showToast: bool)

  /** `Partial<AnchorConfig>`: the fields a caller chose to set. */
  datatype PartialConfig = PartialConfig(
    headingLevels: Option<seq<Rank>>,
    iconContent: Option<string>,
    showToast: Option<bool>)

  /** `DEFAULT_CONFIG`: every heading level, `#` as the icon, the toast on. */
  const DefaultConfig := Config([1, 2, 3, 4, 5, 6], "#", true)

  /** No custom configuration (`processHeadings()` called without an argument). */
  const NoCustom := PartialConfig(None, None, None)

  /** `{ ...DEFAULT_CONFIG, ...customConfig }`: each field set by the caller wins. */
  function MergeConfig(custom: PartialConfig): (c: Config)
    ensures custom.headingLevels.Some? ==> c.headingLevels == custom.headingLevels.value
    ensures custom.headingLevels.None? ==> c.headingLevels == DefaultConfig.headingLevels
    ensures custom.iconContent.Some? ==> c.iconContent == custom.iconContent.value
    ensures custom.iconContent.None? ==> c.iconContent == DefaultConfig.iconContent
    ensures custom.showToast.Some? ==> c.showToast == custom.showToast.value
    ensures custom.showToast.None? ==> c.showToast == DefaultConfig.showToast
  {
    Config(
      if custom.headingLevels.Some? then custom.headingLevels.value else DefaultConfig.headingLevels,
      if custom.iconContent.Some? then custom.iconContent.value else DefaultConfig.iconContent,
      if custom.showToast.Some? then custom.showToast.value else DefaultConfig.showToast)
  }

  /** The element `createAnchorLink` builds: class `anchor-link`, `href` `#id`, the icon as its text. */
  function AnchorLink(id: string, icon: string): Node
  {
    Element("A", "anchor-link",
      map["href" := "#" + id, "aria-label" := "Anchor link"],
      if icon == "" then [] else [Text(icon)])
  }

  /** The `span.anchor-wrapper` holding a heading's original content. */
  function Wrapper(children: seq<Node>): Node
  {
    Element("SPAN", "anchor-wrapper", map[], children)
  }

  /** A heading's children after `addAnchorToHeading`: untouched if it already holds an anchor. */
  function Decorated(children: seq<Node>, id: string, icon: string): seq<Node>
  {
    if ContainsClass(children, "anchor-link") then children
    else [Wrapper(children), AnchorLink(id, icon)]
  }

  /** A decorated heading holds an anchor, so decorating it again changes nothing. */
  lemma DecoratedIdempotent(children: seq<Node>, id: string, icon: string, id': string, icon': string)
    ensures var d := Decorated(children, id, icon);
            ContainsClass(d, "anchor-link") && Decorated(d, id', icon') == d
  {
    var d := Decorated(children, id, icon);
    if !ContainsClass(children, "anchor-link") {
      assert d[1..][0] == AnchorLink(id, icon);
    }
  }

  /**
   * Decorating keeps the heading's text and appends the icon: the wrapper holds
   * the original children in their order, the anchor comes last.
   */
  lemma DecoratedText(children: seq<Node>, id: string, icon: string)
    requires !ContainsClass(children, "anchor-link")
    ensures TextContent(Decorated(children, id, icon)) == TextContent(children) + icon
  {
    var d := Decorated(children, id, icon);
    TextContentAppend([Wrapper(children)], [AnchorLink(id, icon)]);
    assert d == [Wrapper(children)] + [AnchorLink(id, icon)];
    assert TextContent([Wrapper(children)]) == TextContent(children) + TextContent([]);
    var a := [AnchorLink(id, icon)];
    assert TextContent(a) == TextContent(a[0].children) + TextContent(a[1..]);
    if icon != "" {
      var t := a[0].children;
      assert TextContent(t) == icon + TextContent(t[1..]);
    }
  }

  /** `location.hash.slice(1)`: the id a fragment names. */
  function FragmentId(hash: string): (id: string)
    ensures |hash| >= 1 ==> hash == hash[..1] + id
    ensures hash == "" ==> id == ""
  {
    if hash == "" then "" else hash[1..]
  }

  /** The anchor's `href` names the heading's id. */
  lemma AnchorHrefNamesId(id: string, icon: string)
    ensures "href" in AnchorLink(id, icon).attributes
    ensures FragmentId(AnchorLink(id, icon).attributes["href"]) == id
  {
    assert ("#" + id)[1..] == id;
  }

  /**
   * `handleAnchorClick`: the effects in the order they happen. The fragment is
   * pushed first, then the page URL is written to the clipboard; `copied` says
   * whether that write succeeded. The toast follows only a successful write with
   * `showToast` set, and the scroll happens whatever the clipboard did, when an
   * element with the id exists.
   */
  function AnchorClick(origin: string, pathname: string, id: string, showToast: bool, copied: bool, ids: set<string>)
    : (effects: seq<Effect>)
    ensures |effects| == 2 + (if copied && showToast then 1 else 0) + (if HeadingIds.Present(ids, id) then 1 else 0)
    ensures effects[0] == PushState("#" + id) && FragmentId(effects[0].url) == id
    ensures effects[1] == WriteClipboard(origin + pathname + "#" + id)
    ensures ShowToast in effects <==> copied && showToast
    ensures ScrollIntoView(id) in effects <==> HeadingIds.Present(ids, id)
    ensures HeadingIds.Present(ids, id) ==> effects[|effects| - 1] == ScrollIntoView(id)
    ensures forall e :: e in effects[2..] ==> e == ShowToast || e == ScrollIntoView(id)
  {
    var url := origin + pathname + "#" + id;
    assert ("#" + id)[1..] == id;
    [PushState("#" + id), WriteClipboard(url)]
      + (if copied && showToast then [ShowToast] else [])
      + (if HeadingIds.Present(ids, id) then [ScrollIntoView(id)] else [])
  }

  /** The effects of a click do not depend on the clipboard beyond the toast. */
  lemma ClickScrollsDespiteClipboard(origin: string, pathname: string, id: string, showToast: bool, ids: set<string>)
    ensures var failed := AnchorClick(origin, pathname, id, showToast, false, ids);
            && ShowToast !in failed
            && (ScrollIntoView(id) in failed <==> ScrollIntoView(id) in AnchorClick(origin, pathname, id, showToast, true, ids))
  {
  }

  /**
   * `handleInitialHash`: with a non-empty hash, the element its fragment names
   * is scrolled into view, if there is one.
   */
  function InitialHash(hash: string, ids: set<string>): (effects: seq<Effect>)
    ensures effects == [] || effects == [ScrollIntoView(FragmentId(hash))]
    ensures effects != [] <==> hash != "" && HeadingIds.Present(ids, FragmentId(hash))
  {
    if hash != "" then
      var id := hash[1..];
      if HeadingIds.Present(ids, id) then [ScrollIntoView(id)] else []
    else []
  }

  /** The `hashchange` listener: the element the new fragment names is scrolled into view, if there is one. */
  function HashChange(hash: string, ids: set<string>): (effects: seq<Effect>)
    ensures effects == [] || effects == [ScrollIntoView(FragmentId(hash))]
    ensures effects != [] <==> HeadingIds.Present(ids, FragmentId(hash))
  {
    var id := if hash == "" then "" else hash[1..];
    if HeadingIds.Present(ids, id) then [ScrollIntoView(id)] else []
  }

  /**
   * The page-load check and the `hashchange` listener agree: an empty hash names
   * the empty id, which no element carries.
   */
  lemma HashHandlersAgree(hash: string, ids: set<string>)
    ensures InitialHash(hash, ids) == HashChange(hash, ids)
  {
  }

  /** Following a heading's anchor scrolls back to that heading. */
  lemma AnchorHrefScrolls(ids: set<string>, id: string, icon: string)
    requires HeadingIds.Present(ids, id)
    ensures HashChange(AnchorLink(id, icon).attributes["href"], ids) == [ScrollIntoView(id)]
  {
    AnchorHrefNamesId(id, icon);
  }

  /** `HeadingWithAnchor`. */
  datatype HeadingRef = HeadingRef(element: Heading, id: string, level: string)

  /** `ensureHeadingId`: keeps an existing id, otherwise stores the first free candidate. */
  method EnsureHeadingId(doc: Document, h: Heading) returns (id: string)
    requires h.id != "" ==> h.id in doc.ids
    modifies doc`ids, h`id
    ensures id == HeadingIds.ResolveId(old(h.id), HeadingIds.BaseId(TextContent(h.children)), old(doc.ids))
    ensures h.id == id
    ensures doc.ids == old(doc.ids) + {id}
  {
    if h.id != "" {
      return h.id;
    }
    var base := HeadingIds.BaseId(TextContent(h.children));
    id := FirstFreeId(doc, base);
    h.id := id;
    doc.ids := doc.ids + {id};
  }

  /** The loop of `ensureHeadingId`: `base`, then `base-1`, `base-2`, ... until one is not in the document. */
  method FirstFreeId(doc: Document, base: string) returns (id: string)
    ensures id == HeadingIds.AllocateId(doc.ids, base)
  {
    id := base;
    var counter: nat := 1;
    while HeadingIds.Present(doc.ids, id)
      invariant id == HeadingIds.Candidate(base, counter - 1)
      invariant forall j :: 0 <= j < counter - 1 ==> HeadingIds.Present(doc.ids, HeadingIds.Candidate(base, j))
      decreases |doc.ids| - (counter - 1)
    {
      HeadingIds.CandidatesTaken(doc.ids, base, counter);
      id := base + "-" + HeadingIds.NatToString(counter);
      counter := counter + 1;
    }
    HeadingIds.AllocateIdIsFirstFree(doc.ids, base, counter - 1);
  }

  /** Lines 132-138 of `addAnchorToHeading`: the heading's nodes move, one by one, into a new wrapper. */
  method WrapContent(h: Heading) returns (wrapper: Node)
    modifies h`children
    ensures wrapper == Wrapper(old(h.children)) && h.children == []
  {
    var moved: seq<Node> := [];
    while h.children != []
      invariant moved + h.children == old(h.children)
      decreases |h.children|
    {
      moved := moved + [h.children[0]];
      h.children := h.children[1..];
    }
    assert moved == old(h.children);
    wrapper := Wrapper(moved);
  }

  /** `addAnchorToHeading`: ensures the id, then moves the content into a wrapper followed by the anchor. */
  method AddAnchorToHeading(doc: Document, h: Heading, config: Config) returns (r: HeadingRef)
    requires h.id != "" ==> h.id in doc.ids
    modifies doc`ids, h`id, h`children
    ensures r.id == HeadingIds.ResolveId(old(h.id), HeadingIds.BaseId(TextContent(old(h.children))), old(doc.ids))
    ensures doc.ids == old(doc.ids) + {r.id}
    ensures Anchored(h, r, old(h.children), config.iconContent)
  {
    var id := EnsureHeadingId(doc, h);
    r := HeadingRef(h, id, LevelName(h.rank));
    if ContainsClass(h.children, "anchor-link") {
      return;
    }
    var anchor := AnchorLink(id, config.iconContent);
    var wrapper := WrapContent(h);
    h.children := [wrapper, anchor];
  }

  /** Whether a heading matches the selector built from `levels` and has a content-container ancestor. */
  predicate Selected(levels: seq<Rank>, h: Heading)
  {
    h.rank in levels && h.inContainer
  }

  /** The selected headings, in document order. */
  function Matching(levels: seq<Rank>, hs: seq<Heading>): (r: seq<Heading>)
    ensures |r| <= |hs|
    ensures forall i :: 0 <= i < |r| ==> r[i] in hs && Selected(levels, r[i])
    ensures forall i :: 0 <= i < |hs| && Selected(levels, hs[i]) ==> hs[i] in r
  {
    if hs == [] then [] else (if Selected(levels, hs[0]) then [hs[0]] else []) + Matching(levels, hs[1..])
  }

  /** Selection keeps document order: it distributes over concatenation. */
  lemma {:induction false} MatchingAppend(levels: seq<Rank>, a: seq<Heading>, b: seq<Heading>)
    ensures Matching(levels, a + b) == Matching(levels, a) + Matching(levels, b)
  {
    if a != [] {
      assert (a + b)[1..] == a[1..] + b;
      MatchingAppend(levels, a[1..], b);
    } else {
      assert a + b == b;
    }
  }

  ghost predicate Distinct(hs: seq<Heading>)
  {
    forall i, j :: 0 <= i < j < |hs| ==> hs[i] != hs[j]
  }

  /** Selecting from distinct headings yields distinct headings. */
  lemma {:induction false} MatchingDistinct(levels: seq<Rank>, hs: seq<Heading>)
    requires Distinct(hs)
    ensures Distinct(Matching(levels, hs))
  {
    if hs != [] {
      MatchingDistinct(levels, hs[1..]);
    }
  }

  /**
   * `findHeadings`: `querySelectorAll(levels.join(', '))` filtered by `closest(...)`.
   * An empty level list makes the selector `''`, which `querySelectorAll` rejects.
   */
  function FindHeadings(levels: seq<Rank>, hs: seq<Heading>): (r: Result<seq<Heading>>)
    ensures levels == [] <==> r.Err?
    ensures r.Ok? ==> r.value == Matching(levels, hs)
  {
    if levels == [] then Err(SyntaxError("")) else Ok(Matching(levels, hs))
  }

  /** The ids of a list of processed headings. */
  function IdsOf(refs: seq<HeadingRef>): (ids: seq<string>)
    ensures |ids| == |refs| && forall i :: 0 <= i < |refs| ==> ids[i] == refs[i].id
  {
    seq(|refs|, i requires 0 <= i < |refs| => refs[i].id)
  }

  /** The headings as `ensureHeadingId` sees them: current id and base id. */
  ghost function Claims(hs: seq<Heading>): (cs: seq<HeadingIds.Claim>)
    reads hs
  {
    ClaimsOf(IdAttributes(hs), ChildrenOf(hs))
  }

  function ClaimsOf(attrs: seq<string>, kids: seq<seq<Node>>): (cs: seq<HeadingIds.Claim>)
    requires |attrs| == |kids|
    ensures |cs| == |attrs|
  {
    if attrs == [] then []
    else [HeadingIds.Claim(attrs[0], HeadingIds.BaseId(TextContent(kids[0])))] + ClaimsOf(attrs[1..], kids[1..])
  }

  lemma {:induction false} ClaimsOfAt(attrs: seq<string>, kids: seq<seq<Node>>, i: nat)
    requires |attrs| == |kids| && i < |attrs|
    ensures ClaimsOf(attrs, kids)[i] == HeadingIds.Claim(attrs[i], HeadingIds.BaseId(TextContent(kids[i])))
  {
    if i > 0 {
      ClaimsOfAt(attrs[1..], kids[1..], i - 1);
    }
  }

  ghost function IdAttributes(hs: seq<Heading>): (ids: seq<string>)
    reads hs
    ensures |ids| == |hs| && forall i :: 0 <= i < |hs| ==> ids[i] == hs[i].id
  {
    if hs == [] then [] else [hs[0].id] + IdAttributes(hs[1..])
  }

  ghost function ChildrenOf(hs: seq<Heading>): (kids: seq<seq<Node>>)
    reads hs
    ensures |kids| == |hs| && forall i :: 0 <= i < |hs| ==> kids[i] == hs[i].children
  {
    if hs == [] then [] else [hs[0].children] + ChildrenOf(hs[1..])
  }

  /** The id `addAnchorToHeading` reports for the i-th heading is the one its claim resolves to. */
  lemma ClaimAt(attrs: seq<string>, kids: seq<seq<Node>>, i: nat, id: string, ids: set<string>)
    requires i < |attrs| == |kids|
    requires id == HeadingIds.ResolveId(attrs[i], HeadingIds.BaseId(TextContent(kids[i])), ids)
    ensures id == HeadingIds.ResolveId(ClaimsOf(attrs, kids)[i].id, ClaimsOf(attrs, kids)[i].base, ids)
  {
    ClaimsOfAt(attrs, kids, i);
  }

  /** One step of the `map`: the id handed out extends the allocation by one claim. */
  lemma AnchorStep(ids0: set<string>, claims: seq<HeadingIds.Claim>, refs: seq<HeadingRef>, ref: HeadingRef)
    requires |refs| < |claims| && IdsOf(refs) == HeadingIds.AssignIds(ids0, claims[..|refs|])
    requires ref.id == HeadingIds.ResolveId(claims[|refs|].id, claims[|refs|].base, ids0 + HeadingIds.Elements(IdsOf(refs)))
    ensures IdsOf(refs + [ref]) == HeadingIds.AssignIds(ids0, claims[..|refs| + 1])
    ensures ids0 + HeadingIds.Elements(IdsOf(refs)) + {ref.id} == ids0 + HeadingIds.Elements(IdsOf(refs + [ref]))
  {
    HeadingIds.AssignIdsSnoc(ids0, claims, |refs|);
    IdsOfSnoc(refs, ref);
    HeadingIds.ElementsSnoc(IdsOf(refs), ref.id);
  }

  lemma IdsOfSnoc(refs: seq<HeadingRef>, ref: HeadingRef)
    ensures IdsOf(refs + [ref]) == IdsOf(refs) + [ref.id]
  {
    assert IdsOf(refs + [ref])[|refs|] == ref.id;
  }

  /**
   * `processHeadings` run again over headings the first run left as `Anchored`
   * (each carrying its id, its children `Decorated` with an icon that has no
   * word character, such as the default `#`) hands out the same ids, whatever
   * ids the document holds by then.
   */
  lemma SecondPassStable(ids: set<string>, attrs: seq<string>, kids: seq<seq<Node>>,
                         kids2: seq<seq<Node>>, icon: string, other: set<string>)
    requires |attrs| == |kids| == |kids2| && Slug.NoWordChar(icon)
    requires forall i :: 0 <= i < |kids| ==>
               kids2[i] == Decorated(kids[i], HeadingIds.AssignIds(ids, ClaimsOf(attrs, kids))[i], icon)
    ensures var first := HeadingIds.AssignIds(ids, ClaimsOf(attrs, kids));
            HeadingIds.AssignIds(other, ClaimsOf(first, kids2)) == first
  {
    var claims := ClaimsOf(attrs, kids);
    var first := HeadingIds.AssignIds(ids, claims);
    var second := ClaimsOf(first, kids2);
    forall i | 0 <= i < |first|
      ensures second[i].id == first[i]
      ensures first[i] == "" ==> second[i].base == ""
    {
      ClaimsOfAt(first, kids2, i);
      ClaimsOfAt(attrs, kids, i);
      HeadingIds.AssignIdsAt(ids, claims, i);
      if first[i] == "" {
        var text := TextContent(kids[i]);
        if !ContainsClass(kids[i], "anchor-link") {
          DecoratedText(kids[i], first[i], icon);
          HeadingIds.BaseIdEmptyAppend(text, icon);
        }
      }
    }
    HeadingIds.AssignIdsStable(ids, claims, second, other);
  }

  /** A heading the `map` has reached: it carries the id of its descriptor and is decorated. */
  ghost predicate Anchored(h: Heading, ref: HeadingRef, before: seq<Node>, icon: string)
    reads h
  {
    && ref == HeadingRef(h, h.id, LevelName(h.rank))
    && h.children == Decorated(before, h.id, icon)
  }

  /** A heading the `map` has not reached yet: still as it was. */
  ghost predicate Untouched(h: Heading, id: string, children: seq<Node>)
    reads h
  {
    h.id == id && h.children == children
  }

  /**
   * The `map` of `processHeadings`: `addAnchorToHeading` on each heading in
   * turn, each id visible to `getElementById` for the headings after it.
   */
  method AnchorAll(doc: Document, hs: seq<Heading>, config: Config, ghost attrs: seq<string>, ghost kids: seq<seq<Node>>)
    returns (refs: seq<HeadingRef>)
    requires Distinct(hs) && |attrs| == |kids| == |hs|
    requires forall j :: 0 <= j < |hs| ==> Untouched(hs[j], attrs[j], kids[j])
    requires forall j :: 0 <= j < |hs| && attrs[j] != "" ==> attrs[j] in doc.ids
    modifies doc`ids, hs
    ensures |refs| == |hs|
    ensures IdsOf(refs) == HeadingIds.AssignIds(old(doc.ids), ClaimsOf(attrs, kids))
    ensures doc.ids == old(doc.ids) + HeadingIds.Elements(IdsOf(refs))
    ensures forall j :: 0 <= j < |hs| ==> Anchored(hs[j], refs[j], kids[j], config.iconContent)
    ensures forall j :: 0 <= j < |hs| ==> hs[j].id in doc.ids
  {
    ghost var claims := ClaimsOf(attrs, kids);
    ghost var ids0 := doc.ids;
    refs := [];
    for i := 0 to |hs|
      invariant |refs| == i
      invariant IdsOf(refs) == HeadingIds.AssignIds(ids0, claims[..i])
      invariant doc.ids == ids0 + HeadingIds.Elements(IdsOf(refs))
      invariant forall j :: 0 <= j < i ==> Anchored(hs[j], refs[j], kids[j], config.iconContent)
      invariant forall j :: i <= j < |hs| ==> Untouched(hs[j], attrs[j], kids[j])
    {
      var h := hs[i];
      ghost var before := doc.ids;
      var ref := AddAnchorToHeading(doc, h, config);
      ClaimAt(attrs, kids, i, ref.id, before);
      AnchorStep(ids0, claims, refs, ref);
      refs := refs + [ref];
      forall j | 0 <= j < i + 1 ensures Anchored(hs[j], refs[j], kids[j], config.iconContent) {
        if j < i {
          assert hs[j] != h;
        }
      }
    }
    assert claims[..|hs|] == claims;
    forall j | 0 <= j < |hs| ensures hs[j].id in doc.ids {
      assert hs[j].id == IdsOf(refs)[j];
    }
  }

  /**
   * `processHeadings`: one descriptor per found heading, in document order; the
   * ids are those `ensureHeadingId` hands out heading after heading, and every
   * found heading is decorated. Headings not selected are left alone.
   */
  method ProcessHeadings(doc: Document, custom: PartialConfig) returns (r: Result<seq<HeadingRef>>)
    requires doc.Valid()
    modifies doc`ids, doc.headings
    ensures doc.Valid()
    ensures var config := MergeConfig(custom);
            var found := FindHeadings(config.headingLevels, doc.headings);
            && (found.Err? ==> r == Err(found.error) && doc.ids == old(doc.ids))
            && (found.Ok? ==>
                  && r.Ok? && |r.value| == |found.value|
                  && IdsOf(r.value) == HeadingIds.AssignIds(old(doc.ids), old(Claims(found.value)))
                  && doc.ids == old(doc.ids) + HeadingIds.Elements(IdsOf(r.value))
                  && (forall i :: 0 <= i < |found.value| ==>
                        Anchored(found.value[i], r.value[i], old(found.value[i].children), config.iconContent)))
    ensures forall h :: h in doc.headings && (r.Err? || !Selected(MergeConfig(custom).headingLevels, h)) ==>
              h.id == old(h.id) && h.children == old(h.children)
  {
    var config := MergeConfig(custom);
    var found := FindHeadings(config.headingLevels, doc.headings);
    if found.Err? {
      return Err(found.error);
    }
    var hs := found.value;
    MatchingDistinct(config.headingLevels, doc.headings);
    ghost var attrs, kids := IdAttributes(hs), ChildrenOf(hs);
    var refs := AnchorAll(doc, hs, config, attrs, kids);
    r := Ok(refs);
  }
}
