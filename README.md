# anchor-on-discuss, modelled in Dafny

anchor-on-discuss is a browser extension for GitHub Discussions. Its content
script does three things:

- It finds the `h1`–`h6` headings of the discussion content and gives each one
  a unique, URL-safe id. The id comes from the heading's text, and a repeated
  title gets `-1`, `-2`, … after it.
- It decorates each heading with a copy-link anchor. A click on the anchor
  pushes the fragment into the URL, copies the full link to the clipboard,
  shows a toast and scrolls to the heading.
- It keeps a fixed table-of-contents sidebar. The sidebar has one entry per
  heading (as intended; see Findings), indented by level, and a scroll-spy highlights the heading in view.
  When the page adds headings, a `MutationObserver` schedules a rebuild. The
  rebuild is debounced by 300 ms.

The model has these modules:

| file | module | models |
|---|---|---|
| `wrappers.dfy` | `Wrappers` | `Option` and `Result` |
| `slug.dfy` | `Slug` | `generateId`: six string rewrites and what they guarantee |
| `heading_ids.dfy` | `HeadingIds` | `ensureHeadingId` on values: the candidate sequence, the first free candidate, and the ids a whole pass hands out |
| `dom.dfy` | `Dom` | the part of the page the script touches. Headings, sidebar containers and the page are classes whose fields the script updates. Element trees and browser effects are datatypes. |
| `anchors.dfy` | `Anchors` | `anchorManager.ts`: configuration, anchor links, the click and hash handlers, `findHeadings`, `addAnchorToHeading` and `processHeadings` as methods on the page |
| `toc.dfy` | `Toc` | `tocManager.ts`: the `TOCManager` class with its five fields, the entries it renders and the scroll-spy highlight |
| `mutations.dfy` | `Mutations` | the mutation callback's `hasNewHeadings` test |
| `debounce.dfy` | `Debounce` | `debounce` as a pending-run specification, plus a class that holds the captured timeout over the host's timer queue |
| `content.dfy` | `ContentScript` | `processAndUpdateTOC`, the mutation callback, the debounced timer and the delayed start-up |

Time is a logical clock in milliseconds. The script's effects on the browser
are values: `pushState`, the clipboard write, the toast and `scrollIntoView`.
They are returned in the order the script asks for them.

A heading whose text is not empty but has no ASCII letter, digit or `_` gets
the empty id: whatever whitespace and `-` remain become at most one `-`, and
that is stripped. For example, a heading reading `!!!` is filtered to nothing.
`Slug.GenerateIdEmptyIff` states exactly when this happens. An empty text is
replaced by `heading` first. `getElementById("")` never finds an element, so
the loop in `ensureHeadingId` does not run. The model keeps this behaviour:
`HeadingIds.AllocateId` returns `""` exactly when the base id is `""`, and
`HeadingIds.ResolveIdStable` covers this case for two calls with the same
text. A second run of `processHeadings` sees the heading's text followed by
the icon. `Anchors.SecondPassStable` shows that it still hands out the same
ids, the empty one included, when the icon has no word character.

## Model

| member | source | states |
|---|---|---|
| `Slug.LowerChar` | src/content/anchorManager.ts:17 | The result is never an upper-case letter. Word characters stay word characters, and whitespace stays whitespace. `A`–`Z` become the letter 32 code points later (`a`–`z`), and every other character is unchanged. |
| `Slug.Lower` | src/content/anchorManager.ts:17 | The model lowers character by character, so the result has the input's length and each character is `LowerChar` of the input's. |
| `Slug.Trim` | src/content/anchorManager.ts:18 | The result is the part of the input between a whitespace prefix and a whitespace suffix. It neither starts nor ends with whitespace. A string without edge whitespace is returned unchanged. |
| `Slug.TrimExact` | src/content/anchorManager.ts:18 | For any split of the input into a whitespace prefix, a middle that neither starts nor ends with whitespace, and a whitespace suffix, `trim` returns exactly that middle. |
| `Slug.KeepSlugSource` | src/content/anchorManager.ts:19 | Only word characters, whitespace and `-` survive, taken from the input. A string made only of those is unchanged, and a single character outside them is dropped. |
| `Slug.KeepSlugSourceAppend` | src/content/anchorManager.ts:19 | Filtering a concatenation is filtering each part. With the single-character cases, the result is exactly the allowed characters of the input, in order. |
| `Slug.CollapseRuns` | src/content/anchorManager.ts:20-21 | A first character outside the run class is kept, and a single such character is the whole result. A leading run becomes one replacement character. A string made only of run characters becomes the single replacement. |
| `Slug.CollapseRunsShape` | src/content/anchorManager.ts:20-21 | Every character of the result is the replacement or an input character outside the run class. If the replacement is itself in that class, no two neighbours of the result are. |
| `Slug.CollapseRunsAppend` | src/content/anchorManager.ts:20-21 | Collapsing distributes over a cut that does not fall inside a run. So each maximal run becomes one replacement and every other character is kept, in order. |
| `Slug.TrimHyphens` | src/content/anchorManager.ts:22 | One `-` is removed from each end that has one, and nothing else changes: the empty string, a lone `-`, and each combination of hyphen ends. If the input has no `--`, the result has none and does not start or end with `-`. |
| `Slug.RewritesYieldSlug` | src/content/anchorManager.ts:16-22 | After the six rewrites, only lower-case letters, digits, `_` and `-` remain. There is no `--` and no hyphen at either edge. |
| `Slug.GenerateId` | src/content/anchorManager.ts:15-23 | `generateId` is the six rewrites composed in the source's order. Its properties are stated by the lemmas below. |
| `Slug.GenerateIdIsSlug` | src/content/anchorManager.ts:15-23 | `generateId` yields a URL-safe slug for every text. |
| `Slug.KeptAreSlugOrSpace` | src/content/anchorManager.ts:17-19 | After lower-casing, trimming and filtering, each character is a slug character or whitespace. |
| `Slug.CollapsedAreSlug` | src/content/anchorManager.ts:20-21 | Collapsing the runs that cover every non-slug character leaves only slug characters. |
| `Slug.CollapseRunsNoop` | src/content/anchorManager.ts:20-21 | A run replacement does nothing to a string whose run characters are isolated copies of the replacement. |
| `Slug.SlugIsLower` | src/content/anchorManager.ts:17 | Lower-casing a slug changes nothing. |
| `Slug.SlugIsTrimmed` | src/content/anchorManager.ts:18 | Trimming a slug changes nothing. |
| `Slug.SlugIsKept` | src/content/anchorManager.ts:19 | Filtering a slug changes nothing. |
| `Slug.SlugHasNoSpaceRun` | src/content/anchorManager.ts:20 | Replacing whitespace runs in a slug changes nothing. |
| `Slug.SlugIsFixedPoint` | src/content/anchorManager.ts:15-23 | `generateId` returns a slug unchanged. |
| `Slug.GenerateIdIdempotent` | src/content/anchorManager.ts:15-23 | `generateId(generateId(t)) == generateId(t)` for every text. |
| `Slug.NoSlugSourceYieldsEmpty` | src/content/anchorManager.ts:15-23 | Text made only of characters outside `[A-Za-z0-9_]`, whitespace and `-` (such as `!!!`) gives the empty id. |
| `Slug.GenerateIdEmptyIff` | src/content/anchorManager.ts:15-23 | The id is empty exactly when the text has no ASCII letter, digit or `_`. |
| `Slug.EmptyIdAppend` | src/content/anchorManager.ts:15-23 | Appending characters that are not word characters, such as the icon `#`, keeps an empty id empty. |
| `Slug.NoWordCharYieldsEmpty` | src/content/anchorManager.ts:15-23 | Text without word characters gives the empty id. |
| `Slug.WordCharSurvives` | src/content/anchorManager.ts:15-23 | Text with a word character gives a non-empty id. |
| `Slug.TrimKeeps` | src/content/anchorManager.ts:18 | `trim` keeps every character that is not whitespace. |
| `Slug.KeepSlugSourceKeeps` | src/content/anchorManager.ts:19 | The filter keeps every word character. |
| `Slug.CollapseRunsKeeps` | src/content/anchorManager.ts:20-21 | Collapsing keeps every character outside the run class. |
| `Slug.TrimHyphensKeeps` | src/content/anchorManager.ts:22 | Stripping edge hyphens keeps every character that is not `-`. |
| `HeadingIds.NatToString` | src/content/anchorManager.ts:39 | The counter in `${baseId}-${counter}` is written with decimal digits only, and with exactly one digit below 10. |
| `HeadingIds.NatToStringValue` | src/content/anchorManager.ts:39 | The counter's digits, read most significant first, denote the counter itself. Only 0 starts with the digit `0`. |
| `HeadingIds.Present` | src/content/anchorManager.ts:38 | `getElementById(id)` finds an element iff the id is non-empty and in the document. |
| `HeadingIds.Candidate` | src/content/anchorManager.ts:34-39 | The k-th name the loop tries: the base itself, then `base-k`. |
| `HeadingIds.NatToStringInjective` | src/content/anchorManager.ts:39 | Different counters give different strings. |
| `HeadingIds.CandidateInjective` | src/content/anchorManager.ts:34-40 | The candidate names tried for one base are pairwise distinct. |
| `HeadingIds.CandidatesTaken` | src/content/anchorManager.ts:38-41 | While the first n candidates are all taken, the document holds at least n ids, so the uniqueness loop ends. |
| `HeadingIds.FirstFreeIndex` | src/content/anchorManager.ts:34-41 | The loop stops at the first candidate `getElementById` does not find, and every earlier candidate is taken. |
| `HeadingIds.AllocateId` | src/content/anchorManager.ts:33-44 | The allocated id is not in the document. It is the base itself when the base is free. It is empty exactly when the base is empty. |
| `HeadingIds.AllocateIdIsFirstFree` | src/content/anchorManager.ts:34-41 | The allocated id is the first free candidate: `base`, then `base-1`, `base-2`, … |
| `HeadingIds.AllocateIdIsSlug` | src/content/anchorManager.ts:33-41 | An id allocated from a slug is a slug. |
| `HeadingIds.CandidateIsSlug` | src/content/anchorManager.ts:39 | `base-k` of a non-empty slug is a slug. |
| `HeadingIds.BaseIdIsGenerateId` | src/content/anchorManager.ts:33 | The base id is `generateId(textContent \|\| 'heading')`. |
| `HeadingIds.BaseId` | src/content/anchorManager.ts:33 | The base id of a heading's text. It equals `generateId(textContent \|\| 'heading')` by `HeadingIds.BaseIdIsGenerateId`. |
| `HeadingIds.BaseIdIsSlug` | src/content/anchorManager.ts:33 | Every base id is a slug. |
| `HeadingIds.BaseIdEmptyAppend` | src/content/anchorManager.ts:33 | An empty base id stays empty when characters that are not word characters are appended to the text. |
| `HeadingIds.HeadingIsSlug` | src/content/anchorManager.ts:33 | The fallback text `heading` is already a slug. |
| `HeadingIds.ResolveId` | src/content/anchorManager.ts:28-45 | An existing id is kept. Otherwise the returned id is absent from the document, and it is the base when the base is free. |
| `HeadingIds.ResolveIdIsSlug` | src/content/anchorManager.ts:28-45 | A heading whose id is empty or already a slug ends up with a slug id. |
| `HeadingIds.ResolveIdStable` | src/content/anchorManager.ts:29-31 | Once stored on the heading, the id is what a second call with the same text returns. This includes the empty id. |
| `HeadingIds.AssignIdsStable` | src/content/anchorManager.ts:28-45 | A second pass over headings that carry the first pass's ids, where each heading left with the empty id again has an empty base id, hands out the same ids whatever the document holds. |
| `HeadingIds.AssignIds` | src/content/anchorManager.ts:174 | One id per heading, in order, each resolved against the document plus the ids handed out before it. |
| `HeadingIds.AssignIdsPrefix` | src/content/anchorManager.ts:174 | The ids of the first k headings do not depend on later headings. |
| `HeadingIds.AssignIdsSnoc` | src/content/anchorManager.ts:174 | Each heading's id is resolved against the document plus the ids handed out before it. |
| `HeadingIds.AssignIdsAt` | src/content/anchorManager.ts:174 | The i-th id is `ensureHeadingId` run against the document plus the first i ids. |
| `HeadingIds.AssignIdsFresh` | src/content/anchorManager.ts:28-45 | In one pass, a heading with an id keeps it. A non-empty allocated id is new to the document and differs from every id handed out before it. |
| `HeadingIds.SecondCandidateFree` | src/content/anchorManager.ts:38-39 | With `b` and `c` taken, `b` is allocated as `b-1`. |
| `HeadingIds.RepeatedTitles` | src/content/anchorManager.ts:28-45 | Untitled headings with base ids `b`, `c`, `b` on an empty page get `b`, `c`, `b-1`. |
| `HeadingIds.BaseIdIntro` | src/content/anchorManager.ts:33 | The base id of "Intro" is `intro`. |
| `HeadingIds.BaseIdSetup` | src/content/anchorManager.ts:33 | The base id of "Setup" is `setup`. |
| `HeadingIds.CandidateIntro1` | src/content/anchorManager.ts:39 | The second candidate for `intro` is `intro-1`. |
| `Dom.Digit` | src/content/anchorManager.ts:124 | The N of an `hN` tag is a digit from 1 to 6. |
| `Dom.HeadingTagIff` | src/content/index.ts:58 | `/^H[1-6]$/` matches exactly the tag names `H1`–`H6`. |
| `Dom.TextContentAppend` | src/content/tocManager.ts:35 | `textContent` of a node list is the concatenation of the parts' texts. |
| `Anchors.MergeConfig` | src/content/anchorManager.ts:6-10 | `{ ...DEFAULT_CONFIG, ...customConfig }`: each field the caller sets wins. Every other field is the default: all six levels, the `#` icon and the toast on. |
| `Anchors.AnchorLink` | src/content/anchorManager.ts:50-56 | The `a.anchor-link` element with `href` `#id`, the aria label and the icon as its text. |
| `Anchors.Decorated` | src/content/anchorManager.ts:118-141 | A heading's children after decoration: untouched if it holds an `anchor-link`, otherwise a wrapper of the old children followed by the anchor. |
| `Anchors.DecoratedIdempotent` | src/content/anchorManager.ts:119-126 | A decorated heading holds an `anchor-link`, so decorating it again changes nothing. |
| `Anchors.DecoratedText` | src/content/anchorManager.ts:132-141 | Decorating keeps the heading's text, in order, and appends the icon. |
| `Anchors.FragmentId` | src/content/anchorManager.ts:184 | `hash.slice(1)` is the hash without its first character. The empty hash gives the empty id. |
| `Anchors.AnchorHrefNamesId` | src/content/anchorManager.ts:53 | The anchor's `href` names the heading's id. |
| `Anchors.AnchorClick` | src/content/anchorManager.ts:69-90 | A click first pushes `#id`, then writes `origin + pathname + #id` to the clipboard. The toast appears iff the write succeeded and the toast is enabled. The scroll happens iff the element exists, and it comes last. There are exactly two effects plus one for each of those. Nothing else happens. |
| `Anchors.ClickScrollsDespiteClipboard` | src/content/anchorManager.ts:76-89 | A failed clipboard write shows no toast but scrolls exactly as a successful one does. |
| `Anchors.InitialHash` | src/content/anchorManager.ts:182-194 | On load, the page scrolls to the element the fragment names iff the hash is non-empty and such an element exists. Nothing else happens. |
| `Anchors.HashChange` | src/content/anchorManager.ts:199-208 | On `hashchange`, the page scrolls to the element the new fragment names iff it exists. |
| `Anchors.HashHandlersAgree` | src/content/anchorManager.ts:182-208 | The load check and the `hashchange` listener have the same effect on every hash. |
| `Anchors.AnchorHrefScrolls` | src/content/anchorManager.ts:53 | Following a heading's anchor scrolls back to that heading. |
| `Anchors.EnsureHeadingId` | src/content/anchorManager.ts:28-45 | The id is the one `HeadingIds.ResolveId` specifies: an existing id is kept, otherwise the first free candidate that `Anchors.FirstFreeId` finds. It stores it on the heading and adds it to the document's ids. |
| `Anchors.FirstFreeId` | src/content/anchorManager.ts:34-41 | The uniqueness loop returns the first candidate `getElementById` does not find, as `HeadingIds.AllocateId` specifies. |
| `Anchors.WrapContent` | src/content/anchorManager.ts:132-138 | The `firstChild` loop moves every child into the wrapper, in order, and leaves the heading empty. |
| `Anchors.AddAnchorToHeading` | src/content/anchorManager.ts:114-148 | The heading gets the resolved id and a descriptor with its `hN` level. Its content is wrapped and followed by the anchor, unless it already had an anchor, in which case it is untouched. |
| `Anchors.Matching` | src/content/anchorManager.ts:153-163 | The headings found are exactly those with a selected level inside a content container. |
| `Anchors.MatchingAppend` | src/content/anchorManager.ts:158-162 | The filter distributes over concatenation, so document order is kept. |
| `Anchors.MatchingDistinct` | src/content/anchorManager.ts:158-162 | No heading is found twice. |
| `Anchors.FindHeadings` | src/content/anchorManager.ts:153-163 | An empty level list (an empty selector, which `querySelectorAll` rejects) is the error case. Otherwise the result is the filtered headings. |
| `Anchors.AnchorAll` | src/content/anchorManager.ts:174 | The `map` gives one descriptor per heading. Its ids are those `HeadingIds.AssignIds` hands out. The page gains exactly those ids, and every heading is decorated. |
| `Anchors.ProcessHeadings` | src/content/anchorManager.ts:168-177 | With the merged configuration, the result is an error iff the selector fails. Otherwise there is one descriptor per found heading, with the `AssignIds` ids, and every found heading is decorated. Headings not selected are left alone. |
| `Anchors.SecondPassStable` | src/content/anchorManager.ts:168-177 | A second run over the headings as the first run left them, with their ids and with children decorated by an icon that has no word character, hands out the same ids. |
| `Toc.ParseLevel` | src/content/tocManager.ts:36 | `parseInt(level.charAt(1))` recovers the rank the level name was made from. |
| `Toc.ItemsOf` | src/content/tocManager.ts:33-38 | One item per heading. |
| `Toc.ItemsOfAt` | src/content/tocManager.ts:33-38 | Item i has heading i's id and element, its trimmed text, and the level in 1–6 that the level name encodes. |
| `Toc.ItemOf` | src/content/tocManager.ts:33-38 | One `TOCItem`: the heading's id, its trimmed `textContent`, the parsed level and the element. |
| `Toc.MinLevel` | src/content/tocManager.ts:69 | `Math.min` of the levels is a lower bound, and some item has it. |
| `Toc.Padding` | src/content/tocManager.ts:97-99 | `8 + (level - minLevel) * 16` pixels. |
| `Toc.EntryOf` | src/content/tocManager.ts:89-100 | `createTOCItem`: an entry with the item's id, text and level, the padding, and no highlight. |
| `Toc.Render` | src/content/tocManager.ts:69-74 | One entry per item, in order, indented against `minLevel`. |
| `Toc.Entries` | src/content/tocManager.ts:68-74 | The list `createTOC` builds; `Toc.EntriesIndent` states its properties. |
| `Toc.EntriesIndent` | src/content/tocManager.ts:69-99 | The list shows every item in order, with its id, text and level, and nothing is highlighted. Padding is at least 8 px. It is exactly 8 px for the shallowest items, and at least one item has it. |
| `Toc.FirstWithId` | src/content/tocManager.ts:162-164 | `querySelector('[data-id=…]')` finds the first entry with the id, or reports that none has it. |
| `Toc.FirstWithIdSameIds` | src/content/tocManager.ts:158-164 | Changing highlights does not change what the lookup finds. |
| `Toc.Mark` | src/content/tocManager.ts:157-168 | Setting or clearing `active` on one entry leaves every other entry as it was, and leaves that entry's other fields as they were. |
| `Toc.SetActive` | src/content/tocManager.ts:155-176 | The new active item is the first entry with the id, and it is highlighted. If no entry has the id, the old active item stays recorded but loses its highlight. At most one entry is highlighted before and after. Entries change only in their `active` flag. Without a list, nothing changes. |
| `Toc.ApplyBatch` | src/content/tocManager.ts:135-144 | Handling a callback batch changes the entries only in their `active` flags, keeps the active item within the list and keeps at most one highlight. |
| `Toc.LastTarget` | src/content/tocManager.ts:136-141 | The result is the target of an entry that intersects and has an id, and no later entry of the batch does. If there is none, no entry acts. |
| `Toc.LastIntersectionWins` | src/content/tocManager.ts:135-144 | After a batch, the last intersecting target with an entry is the only highlighted entry. |
| `Toc.IgnoredBatch` | src/content/tocManager.ts:136-142 | A batch with no intersecting, id-bearing target changes nothing. |
| `Toc.DestroyIdempotent` | src/content/tocManager.ts:201-223 | `destroy` twice is the same as `destroy` once. |
| `Toc.TocManager.constructor` | src/content/tocManager.ts:15-20 | The singleton starts without a container, list, items, active item or observer. |
| `Toc.TocManager.Destroy` | src/content/tocManager.ts:201-223 | The container is removed from the page and the observer disconnected. The margin is reset when there is main content. The items and the active item are cleared, and the list field is kept. |
| `Toc.TocManager.AdjustContentWidth` | src/content/tocManager.ts:181-189 | Sets the margin to 280 px when the page has a main content element. |
| `Toc.TocManager.BuildToc` | src/content/tocManager.ts:52-83 | A new container is the page's only one. Its list holds the rendered entries of the items, none highlighted, and room is made for it. |
| `Toc.TocManager.CreateToc` | src/content/tocManager.ts:48-84 | Because `destroy` runs first and empties the items, the new container lists nothing. |
| `Toc.TocManager.SetupIntersectionObserver` | src/content/tocManager.ts:129-150 | The new observer watches every item's heading, in order. |
| `Toc.TocManager.InitAsWritten` | src/content/tocManager.ts:25-43 | `init` as written. For a non-empty heading list it shows an empty sidebar, observes nothing and makes room for the sidebar. For an empty one it changes nothing. |
| `Toc.TocManager.Rebuild` | src/content/tocManager.ts:33-42 | `destroy`, then the new items, the container that lists them and the observer that watches their headings. |
| `Toc.TocManager.Init` | src/content/tocManager.ts:25-43 | `init` as intended. For a non-empty heading list the sidebar lists every heading in order, with nothing highlighted. Every heading is observed, and the new container is the only one. An empty list changes nothing. |
| `Toc.TocManager.Update` | src/content/tocManager.ts:194-196 | `update` is a full rebuild through the corrected `init`. A non-empty list is shown, every heading observed, and room made for the sidebar. An empty list changes nothing. |
| `Toc.TocManager.UpdateAsWritten` | src/content/tocManager.ts:194-196 | `update` through `init` as written: for a non-empty list the sidebar is rebuilt empty. |
| `Toc.TocManager.SetActiveItem` | src/content/tocManager.ts:155-176 | The highlight changes as `Toc.SetActive` specifies. |
| `Toc.TocManager.ScrollToHeading` | src/content/tocManager.ts:113-124 | If the element exists, the page scrolls to it, pushes `#id` and highlights the entry. Otherwise nothing happens. |
| `Toc.TocManager.OnIntersections` | src/content/tocManager.ts:135-144 | The observer callback handles the batch in order, as `Toc.ApplyBatch` specifies. A disconnected observer delivers nothing. |
| `Toc.TocManager.IsVisible` | src/content/tocManager.ts:228-230 | The sidebar is visible exactly when the manager has a container. |
| `Mutations.SomeNodeTriggersIff` | src/content/index.ts:53-63 | The inner `some` holds iff some added node is a heading or contains one. |
| `Mutations.SomeRecordTriggersIff` | src/content/index.ts:51-66 | The outer `some` holds iff some `childList` record has such a node. |
| `Mutations.HasNewHeadingsAsWrittenIff` | src/content/index.ts:51-66 | `hasNewHeadings` holds iff some `childList` record added an element that is `H1`–`H6` or has one inside. |
| `Mutations.HasNewHeadingsIff` | src/content/index.ts:51-66 | The corrected test holds iff some `childList` record added an element, other than the extension's own sidebar, that is `H1`–`H6` or has one inside. `ContentScript.OnMutations` uses this test. |
| `Mutations.QuietBatch` | src/content/index.ts:52-65 | Attribute and character-data records, and added text nodes, never trigger a rebuild. |
| `Mutations.AgreeWithoutSidebar` | src/content/index.ts:51-66 | When the sidebar is not among the added nodes, the corrected test and the test as written agree. |
| `Mutations.SidebarRetriggers` | src/content/index.ts:51-66 | Attaching the sidebar satisfies the test as written, because of its own `h2`. The corrected test is not satisfied. |
| `Mutations.Sidebar` | src/content/tocManager.ts:53-66 | The container `createTOC` attaches: an `aside.github-discuss-toc` holding the `h2.toc-title` header and the list. |
| `Mutations.HasNewHeadingsAsWritten` | src/content/index.ts:51-66 | The callback's test as written: some `childList` record adds an element that is or contains a heading. |
| `Mutations.HasNewHeadings` | src/content/index.ts:51-66 | The corrected test: the same, not counting the extension's own sidebar. |
| `Debounce.BurstArmsLast` | src/content/index.ts:18-28 | During a burst of calls less than `wait` apart, nothing runs. Afterwards one run is pending, with the last call's arguments, `wait` ms after that call. |
| `Debounce.BurstRunsOnce` | src/content/index.ts:12-29 | A burst runs `func` exactly once, with the last call's arguments, once `wait` ms have passed since the last call, and not before. |
| `Debounce.CallStep` | src/content/index.ts:21-27 | A call cancels any pending run and arms one `wait` ms later with its arguments. |
| `Debounce.Advance` | src/content/index.ts:25-27 | A due run happens once, with its arguments, and the wrapper becomes idle. |
| `Debounce.Run` | src/content/index.ts:18-28 | The state after a sequence of calls, and the runs that happened between them. |
| `Debounce.Debouncer.AtMostOneTimer` | src/content/index.ts:21-27 | At most one timer is armed, and it is armed exactly when a run is pending. |
| `Debounce.Debouncer.constructor` | src/content/index.ts:16 | A new wrapper has nothing pending. |
| `Debounce.Debouncer.Call` | src/content/index.ts:18-28 | `clearTimeout` then `setTimeout`: the only armed timer is the new one, `wait` ms ahead. The old timer is gone. |
| `Debounce.Debouncer.Tick` | src/content/index.ts:25-27 | A due timer runs once, with its arguments, and the wrapper becomes idle. |
| `ContentScript.ProcessDefault` | src/content/anchorManager.ts:168-177 | `processHeadings()` with the default configuration never takes the error path. Its descriptors carry `hN` levels the sidebar can parse. |
| `ContentScript.ProcessTwiceStable` | src/content/anchorManager.ts:168-177 | Two runs of `processHeadings()` with the default icon and no other change to the page return the same ids, and the second run adds no id to the page. |
| `ContentScript.ProcessAndUpdateToc` | src/content/index.ts:34-39 | The sidebar receives exactly the descriptors `processHeadings()` returns. It lists them, with room made for it, when there are some, and is left as it was when there are none. |
| `ContentScript.OnMutations` | src/content/index.ts:44-71 | A batch that adds headings (by the corrected test) arms the rebuild 300 ms ahead. Any other batch changes nothing. |
| `ContentScript.OnTimer` | src/content/index.ts:25-27 | The rebuild runs exactly when the debounced timer is due. When it runs, the page's ids are those `processHeadings()` assigns, and the sidebar lists the descriptors it returned. When it does not run, the page, the headings and the sidebar are untouched. |
| `ContentScript.Start` | src/content/index.ts:88-95 | The delayed start-up processes the headings and hands the descriptors to the sidebar. It then handles the initial hash against the ids just assigned. |
| `ContentScript.EntryTextIncludesIcon` | src/content/tocManager.ts:35 | A sidebar entry's text is the heading's text followed by the anchor icon, trimmed. |

## Left out

- HeadingIds.ResolveIdStable: covers two calls with the same text only. A
  second run over decorated headings is `Anchors.SecondPassStable`.
- Anchors.SecondPassStable: holds for an icon without word characters, such as
  the default `#`. With a custom icon such as `a`, a heading reading `!!!` gets
  `""` on the first run and `a` on the second. The source behaves the same way.
- ContentScript.ProcessTwiceStable: takes the headings' state after the first
  run as parameters, as `ContentScript.ProcessDefault` leaves it. It is not a
  statement about two calls on the live page.
- The real DOM: CSS selector matching, `closest` and `querySelector` are
  predicates on an element tree. A heading's container test is a flag. Each
  element has a single class name.
- Selector quoting: `[data-id="…"]` with an id that contains `"` or `\` is
  not modelled. CSS reads a backslash as the start of an escape, so
  `[data-id="a\b"]` does not match the id `a\b`. Lookup is by id equality.
- `IntersectionObserver` geometry (`rootMargin`, `threshold`): the callback's
  batches are inputs.
- `navigator.clipboard.writeText`: whether it succeeds is a boolean input.
- `showCopyToast` (anchorManager.ts:95-109): its 10, 2000 and 300 ms timers,
  its DOM node and its CSS classes are not modelled. Showing it is one
  `ShowToast` effect.
- The 100 ms delay of the initial scroll and the 500 ms start-up delay: only
  the order of the effects is kept.
- Smooth scrolling, and the sidebar scrolling its own active entry into view
  (tocManager.ts:171-174).
- The listener wiring: `DOMContentLoaded`, the `popstate` and `turbo:load`
  handlers (index.ts:106-127), and `observer.observe(document.body, …)`.
  The `popstate` and `turbo:load` handlers run the same sequence as
  `ContentScript.Start`.
- `console.log` and `console.error`; `src/types/index.d.ts` appears only through
  the datatypes it types.
- Slug.Lower: does not model Unicode case mapping. Only `A`–`Z` are
  lowered, and every other character is left as it is.
- A `Partial<AnchorConfig>` key set explicitly to `undefined` is treated as
  absent. The spread would copy `undefined` instead.
- ContentScript.ProcessAndUpdateToc: does not repeat the heading decoration,
  which `ContentScript.ProcessDefault` and `Anchors.ProcessHeadings` state. It
  calls the corrected `Toc.TocManager.Update` (first finding below), so it
  states the sidebar the source intends, not the empty one it builds.
- Toc.TocManager.Update: goes through the corrected `Toc.TocManager.Init`.
  The source's behaviour is `Toc.TocManager.UpdateAsWritten`.
- ContentScript.OnMutations: uses the corrected test `Mutations.HasNewHeadings`
  (second finding below). The test as written also fires for the sidebar.
- ContentScript.OnTimer: runs the corrected rebuild, as
  `ContentScript.ProcessAndUpdateToc` does.
- ContentScript.Start: runs the corrected rebuild, as
  `ContentScript.ProcessAndUpdateToc` does.
- Anchors.AnchorHrefScrolls: takes `location.hash` to be the anchor's `href`
  as written. The browser percent-encodes some characters of a fragment. That
  changes nothing for generated ids, whose characters are `a`–`z`, `0`–`9`,
  `_` and `-`, but an existing id with other characters is not modelled.
- Slug.GenerateId: no lemma evaluates a concrete heading such as
  `Hello, World!  Foo` (which gives `hello-world-foo`). Working literal strings
  through the six stages is beyond the solver's budget. The stage contracts with
  `Slug.KeepSlugSourceAppend` and `Slug.CollapseRunsAppend` fix the result
  character by character.
- Toc.ItemsOf: states only the length. The items are stated pointwise by
  `Toc.ItemsOfAt`, because a quantified `ensures` over the headings' fields is
  costly to carry through every caller.
- Debounce.Debouncer.Call: does not model the `this` binding that
  `func.apply(context, args)` passes on. Only the arguments are kept.

## Findings

| source | as written | input that shows it | evidently intended | confidence | as-written member | corrected member |
|---|---|---|---|---|---|---|
| src/content/tocManager.ts:41-50 | `init` stores the items and then calls `createTOC`, whose first step is `destroy()`. That sets `items = []` (line 221), so the list is built from no items and the observer watches nothing. | any non-empty heading list, e.g. one `h2` "Intro" | the sidebar lists one entry per heading and the scroll-spy observes each heading | not executed | `Toc.TocManager.InitAsWritten` | `Toc.TocManager.Init` |
| src/content/index.ts:51-70 | Attaching the sidebar (tocManager.ts line 78) is itself a `childList` mutation. It adds an `aside` that contains `h2.toc-title` (tocManager.ts lines 58-62), so `hasNewHeadings` holds and a new rebuild is scheduled. Each rebuild re-attaches the sidebar, so one fires every 300 ms. | one `childList` record whose added node is the sidebar container | only headings the page adds schedule a rebuild | not executed | `Mutations.SidebarRetriggers` | `Mutations.HasNewHeadingsIff` |
