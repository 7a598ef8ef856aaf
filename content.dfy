/**
 * The content script's entry points: the rebuild that runs the heading
 * processor and feeds its result to the sidebar, the mutation callback that
 * schedules that rebuild through the debounced wrapper, the timer that runs
 * it, and the start-up sequence.
 */
module ContentScript {
  import opened Wrappers
  import opened Dom
  import Slug
  import HeadingIds
  import Anchors
  import Toc
  import Mutations
  import Debounce

  /** The debounce delay of the rebuild, in ms. */
  const RebuildDelay: nat := 300

  /** A processed heading's level is an `hN` name the sidebar can parse. */
  lemma LevelNamesOf(hs: seq<Heading>, refs: seq<Anchors.HeadingRef>, before: seq<seq<Node>>, icon: string)
    requires |refs| == |hs| == |before|
    requires forall i :: 0 <= i < |hs| ==> Anchors.Anchored(hs[i], refs[i], before[i], icon)
    ensures Toc.LevelNames(refs)
  {
    forall i | 0 <= i < |refs| ensures Toc.IsLevelName(refs[i].level) {
      var d := Digit(hs[i].rank);
      assert refs[i].level == ['h', d];
    }
  }

  /** The headings `processHeadings()` returns with the default configuration. */
  function Found(doc: Document): seq<Heading>
  {
    Anchors.Matching(Anchors.DefaultConfig.headingLevels, doc.headings)
  }

  /**
   * `headings` is what `processHeadings()` returns, with the default
   * configuration, for the selected headings `found` of a page whose ids were
   * `ids0` and are now `ids`, the id attributes and texts of the selected
   * headings being `claims0`: one descriptor per heading, in order, with the
   * heading's level and the id allocated to it.
   */
  ghost predicate Processed(found: seq<Heading>, headings: seq<Anchors.HeadingRef>, ids: set<string>,
                            ids0: set<string>, claims0: seq<HeadingIds.Claim>)
  {
    && |headings| == |found|
    && (forall i :: 0 <= i < |found| ==>
          headings[i].element == found[i] && headings[i].level == LevelName(found[i].rank))
    && Anchors.IdsOf(headings) == HeadingIds.AssignIds(ids0, claims0)
    && ids == ids0 + HeadingIds.Elements(Anchors.IdsOf(headings))
  }

  /**
   * `processHeadings()` run a second time over the headings as the first run
   * left them (each carrying the id it was given, its children decorated with
   * the default icon) returns the same ids and adds none to the page.
   */
  lemma ProcessTwiceStable(found: seq<Heading>, ids0: set<string>, attrs: seq<string>, kids: seq<seq<Node>>,
                           first: seq<Anchors.HeadingRef>, ids1: set<string>, kids2: seq<seq<Node>>,
                           second: seq<Anchors.HeadingRef>, ids2: set<string>)
    requires |attrs| == |kids| == |kids2| == |found|
    requires Processed(found, first, ids1, ids0, Anchors.ClaimsOf(attrs, kids))
    requires forall i :: 0 <= i < |found| ==> kids2[i] == Anchors.Decorated(kids[i], first[i].id, Anchors.DefaultConfig.iconContent)
    requires Processed(found, second, ids2, ids1, Anchors.ClaimsOf(Anchors.IdsOf(first), kids2))
    ensures Anchors.IdsOf(second) == Anchors.IdsOf(first)
    ensures ids2 == ids1
  {
    Anchors.SecondPassStable(ids0, attrs, kids, kids2, Anchors.DefaultConfig.iconContent, ids1);
  }

  /** `processHeadings()`: the default configuration always has heading levels, so it never fails. */
  method ProcessDefault(doc: Document) returns (headings: seq<Anchors.HeadingRef>)
    requires doc.Valid()
    modifies doc`ids, doc.headings
    ensures doc.Valid() && Toc.LevelNames(headings)
    ensures Processed(Found(doc), headings, doc.ids, old(doc.ids), old(Anchors.Claims(Found(doc))))
    ensures forall i :: 0 <= i < |headings| ==>
              Anchors.Anchored(Found(doc)[i], headings[i], old(Found(doc)[i].children), Anchors.DefaultConfig.iconContent)
  {
    var r := Anchors.ProcessHeadings(doc, Anchors.NoCustom);
    assert Anchors.MergeConfig(Anchors.NoCustom).headingLevels != [];
    if r.Err? {
      assert false;
    }
    headings := r.value;
    ghost var found := Found(doc);
    ghost var kids := old(Anchors.ChildrenOf(found));
    assert forall i :: 0 <= i < |found| ==> kids[i] == old(found[i].children);
    LevelNamesOf(found, headings, kids, "#");
  }

  /**
   * `processAndUpdateTOC`: exactly the headings `processHeadings()` returns
   * are handed to the sidebar.
   */
  method ProcessAndUpdateToc(doc: Document, toc: Toc.TocManager) returns (headings: seq<Anchors.HeadingRef>)
    requires doc.Valid() && toc.Valid() && toc.doc == doc
    modifies doc`ids, doc.headings, toc, doc`asides, doc`marginRight
    ensures doc.Valid() && toc.Valid()
    ensures Processed(Found(doc), headings, doc.ids, old(doc.ids), old(Anchors.Claims(Found(doc))))
    ensures Toc.LevelNames(headings)
    ensures headings == [] ==> toc.State() == old(toc.State())
    ensures headings != [] ==> toc.Shows(headings)
    ensures headings != [] ==> doc.marginRight == if doc.hasMainContent then "280px" else old(doc.marginRight)
  {
    headings := ProcessDefault(doc);
    toc.Update(headings);
  }

  /**
   * The `MutationObserver` callback: the debounced rebuild is scheduled
   * exactly when the batch adds headings to the page.
   */
  method OnMutations(ms: seq<Mutations.MutationRecord>, now: int, rebuild: Debounce.Debouncer<()>)
    requires rebuild.Valid() && rebuild.wait == RebuildDelay
    modifies rebuild
    ensures rebuild.Valid()
    ensures Mutations.HasNewHeadings(ms) ==> rebuild.Pending() == Debounce.Armed(now + RebuildDelay, ())
    ensures !Mutations.HasNewHeadings(ms) ==> unchanged(rebuild)
  {
    if Mutations.HasNewHeadings(ms) {
      rebuild.Call(now, ());
    }
  }

  /**
   * The clock reaches `now`: when the debounced timer is due, the rebuild
   * runs, and `hs` names the headings it processed and handed to the sidebar;
   * otherwise the page and the sidebar are left alone.
   */
  method OnTimer(now: int, doc: Document, toc: Toc.TocManager, rebuild: Debounce.Debouncer<()>)
    returns (rebuilt: bool, ghost hs: seq<Anchors.HeadingRef>)
    requires doc.Valid() && toc.Valid() && toc.doc == doc && rebuild.Valid()
    modifies rebuild`timers, doc`ids, doc.headings, toc, doc`asides, doc`marginRight
    ensures doc.Valid() && toc.Valid() && rebuild.Valid()
    ensures rebuild.Pending() == Debounce.Advance(old(rebuild.Pending()), now).0
    ensures rebuilt == Debounce.Advance(old(rebuild.Pending()), now).1.Some?
    ensures rebuilt ==> Processed(Found(doc), hs, doc.ids, old(doc.ids), old(Anchors.Claims(Found(doc))))
    ensures rebuilt ==> Toc.LevelNames(hs)
    ensures rebuilt && hs == [] ==> toc.State() == old(toc.State())
    ensures rebuilt && hs != [] ==> toc.Shows(hs)
    ensures rebuilt && hs != [] ==> doc.marginRight == if doc.hasMainContent then "280px" else old(doc.marginRight)
    ensures !rebuilt ==> unchanged(doc, toc)
    ensures !rebuilt ==> forall h :: h in doc.headings ==> unchanged(h)
  {
    var fired := rebuild.Tick(now);
    rebuilt := fired.Some?;
    hs := [];
    if rebuilt {
      hs := ProcessAndUpdateToc(doc, toc);
    }
  }

  /**
   * The delayed start-up: the rebuild, then the page's initial hash, looked
   * up among the ids the rebuild has just given the headings.
   */
  method Start(doc: Document, toc: Toc.TocManager, hash: string)
    returns (effects: seq<Effect>, ghost hs: seq<Anchors.HeadingRef>)
    requires doc.Valid() && toc.Valid() && toc.doc == doc
    modifies doc`ids, doc.headings, toc, doc`asides, doc`marginRight
    ensures doc.Valid() && toc.Valid()
    ensures Processed(Found(doc), hs, doc.ids, old(doc.ids), old(Anchors.Claims(Found(doc))))
    ensures Toc.LevelNames(hs)
    ensures hs == [] ==> toc.State() == old(toc.State())
    ensures hs != [] ==> toc.Shows(hs)
    ensures hs != [] ==> doc.marginRight == if doc.hasMainContent then "280px" else old(doc.marginRight)
    ensures effects == Anchors.InitialHash(hash, doc.ids)
  {
    hs := ProcessAndUpdateToc(doc, toc);
    effects := Anchors.InitialHash(hash, doc.ids);
  }

  /**
   * A sidebar entry's text is the heading's text with the anchor's icon after
   * it: `textContent` of the processed heading includes the anchor.
   */
  lemma EntryTextIncludesIcon(children: seq<Node>, id: string, icon: string)
    requires !ContainsClass(children, "anchor-link")
    ensures Slug.Trim(TextContent(Anchors.Decorated(children, id, icon))) == Slug.Trim(TextContent(children) + icon)
  {
    Anchors.DecoratedText(children, id, icon);
  }
}
