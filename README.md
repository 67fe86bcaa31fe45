# aem-protection-worker in Dafny

aem-protection-worker is an edge worker that sits in front of an AEM Edge Delivery site. It gates content by audience. A page can carry gating metadata: a `gated` or `protected` meta tag, section-metadata rows such as `view`, `protected` or `visibility`, and `logged-in`/`logged-out`, `protected` or `id-…` class names. The worker then drops or rewrites the parts of the page the current viewer may not see, or replaces them with teaser links. The repository holds several variants of this engine. This project models each of them and proves what it promises.

| variant | source | modules |
|---|---|---|
| string scanner (the main one) | platforms/akamai/src/main-standalone.js | `Standalone`, `StandaloneFacts`, `StandaloneRequest`, `DivScanner`, `Patterns`, `PatternFacts`, `JsString` |
| regex stages with precedence | platforms/akamai/src/main-production.js | `Production`, `Patterns`, `PatternFacts` |
| shared DOM handlers | src/handlers/*.js, src/config.js | `BlockProtection`, `SectionProtection`, `PageProtection`, `Config` |
| Cloudflare worker on the DOM | platforms/cloudflare/src/index.js | `CloudflareWorker` |
| original single-file worker | src/index.js | `WorkerIndex` |

Some modules are shared:

- **`JsString`** gives JavaScript's string operations exactly: `trim` with JavaScript's white-space set, `indexOf`, `includes`, `substring`, and `replace` with a string pattern. That `replace` acts on the first occurrence of the text and expands `$`-patterns in the replacement.
- **`Patterns`** turns each regular expression of the Akamai variants into a hand-written matcher that makes the same choices as the regex engine. That covers greedy and lazy repetition, the `i` flag, and backtracking over the `class=` attribute. `First`, `SearchPrim` and `Search` then give `match`/`exec` as the leftmost match.
- **`HtmlTree`** is the document a DOM library parses: a forest of elements, each with an identity, attributes and children, plus text and inserted markup. It provides the selector queries the workers use (`main > div`, `main div`, `.section-metadata`, `div[class*="…"]`, `meta[name=…]`) and `.text()`, `.next()`, `outerHTML` and serialisation. Removing elements is the function `Remove`, over the set of removed identities.

Code that works in place stays imperative:

- the depth scanner, the `exec` loops and the removal loops of the string scanner;
- the flag loop, the dictionary fill and the removals of the block handler;
- the section loops.

Each such method is proved equal to a specification function. Separate lemmas prove what the source promises about that function.

## Model

| member | source | states |
|---|---|---|
| JsString.TrimShape | src/handlers/block-protection.js:13 | `trim` removes only white space, and only at the two ends; what it keeps is one slice of the input |
| JsString.TrimEmpty | src/handlers/page-protection.js:7 | a text trims to the empty text exactly when it is all white space |
| JsString.FindSpec | platforms/akamai/src/main-standalone.js:46-47 | `indexOf(pat, from)` gives the first occurrence at or after `from`; there is no answer exactly when none occurs |
| JsString.IndexOfOrMinus | platforms/akamai/src/main-standalone.js:46-53 | the JavaScript result is -1 exactly when the pattern does not occur, and otherwise the first offset |
| JsString.Substring | platforms/akamai/src/main-standalone.js:61 | `substring(a, b)` with ends in range is the slice from `a` to `b` |
| JsString.Expand | platforms/akamai/src/main-standalone.js:78 | a replacement text without `$` is inserted as it is written |
| JsString.ReplaceFirstAt | platforms/akamai/src/main-standalone.js:78 | `replace` with a string pattern rewrites the first occurrence of the text, and only it; everything before and after is kept |
| JsString.ReplaceFirstAbsent | platforms/akamai/src/main-standalone.js:123 | a pattern text that does not occur leaves the string unchanged |
| DivScanner.FindClosingEnd | platforms/akamai/src/main-standalone.js:42-65 | the depth/position loop stops exactly where the scanner specification says |
| DivScanner.ScanCloseSound | platforms/akamai/src/main-standalone.js:45-64 | an answer is the end of the first `</div>` that brings the depth down to 0; no answer means the depth never reaches 0 |
| DivScanner.ScanCloseComplete | platforms/akamai/src/main-standalone.js:45-64 | conversely, the first balancing `</div>` is the one the scanner returns |
| DivScanner.SpanParity | platforms/akamai/src/main-standalone.js:41-65 | a span the scanner closes holds as many `<div` as `</div>`, provided its opening tag starts with a lower-case `<div` |
| Patterns.SearchPrimLeftmost | platforms/akamai/src/main-standalone.js:32 | `match` without the `g` flag finds the leftmost offset where the pattern matches, and finds nothing only when it matches nowhere |
| Patterns.SearchLeftmost | platforms/akamai/src/main-production.js:95-97 | `exec` of a global pattern from `lastIndex` finds the leftmost match at or after it, or none when there is none |
| PatternFacts.GatedMetaExact | platforms/akamai/src/main-standalone.js:24 | the gate regex matches at an offset exactly when `<meta name="gated" content="true"` is written there: any letter case, either quote, any run of white space |
| PatternFacts.MetaExact | platforms/akamai/src/main-standalone.js:24 | the literal two-attribute meta pattern matches at an offset exactly when a tag of that shape is written there |
| PatternFacts.ElementAcross | platforms/akamai/src/main-standalone.js:32 | a `<main…>…</main>` match depends only on the text it covers, so it matches in the same way wherever that text recurs |
| PatternFacts.ViewRowExact | platforms/akamai/src/main-standalone.js:70 | the view-row regex matches at an offset exactly when a row `<div…><div…>view</div><div…>logged-in` or `logged-out</div></div>` is written there, in any letter case and with any white space between the tags; the capture is the value as written |
| PatternFacts.MainTagEnd | platforms/akamai/src/main-standalone.js:84 | inside the matched main element, the first `>` is the one that ends its opening tag |
| PatternFacts.FragmentCellCapture | platforms/akamai/src/main-production.js:126 | the captured block cell names a `/fragments/` or `/teasers/` path and holds no `<` |
| Standalone.CollectSpans | platforms/akamai/src/main-standalone.js:36-66 | the `exec` loop and its inner scanner record, in order, the text of every visited opener whose element the scanner closes |
| Standalone.TextsStep | platforms/akamai/src/main-standalone.js:40-65 | one `exec` match adds its element's text when the scanner closes it; the loop then goes on from the end of the opening tag |
| Standalone.RemoveExcludedSections | platforms/akamai/src/main-standalone.js:68-82 | the loop removes, one after the other, the first occurrence of each recorded section that excludes the viewer |
| Standalone.ApplySectionStage | platforms/akamai/src/main-standalone.js:29-85 | the section stage's result is the specified rebuild of the first main element |
| Standalone.RemoveInReverse | platforms/akamai/src/main-standalone.js:121-124 | the recorded block texts are removed last one first, each at its first occurrence |
| Standalone.ApplyBlockStage | platforms/akamai/src/main-standalone.js:87-124 | the block loop records the viewer's target blocks, and they are then removed in reverse order |
| Standalone.ProcessContent | platforms/akamai/src/main-standalone.js:23-127 | the output is the section stage followed by the block stage; an ungated document comes back unchanged |
| StandaloneFacts.GatedIff | platforms/akamai/src/main-standalone.js:24-25 | the gate is open exactly when the gate pattern matches somewhere |
| StandaloneFacts.Passthrough | platforms/akamai/src/main-standalone.js:24-27 | a document with no gating meta tag anywhere comes back exactly as it was, for either authentication state |
| StandaloneFacts.GatedByTag | platforms/akamai/src/main-standalone.js:24-27 | a document with a gating meta tag is processed |
| StandaloneFacts.SpanShape | platforms/akamai/src/main-standalone.js:40-66 | every recorded span starts at an opener match and ends right after the `</div>` that first brings the depth to 0; the spans come in visiting order |
| StandaloneFacts.UnclosedOpenerSkipped | platforms/akamai/src/main-standalone.js:45-51 | an opener whose element never closes records nothing, and the loop goes on past its opening tag |
| StandaloneFacts.RecordedSpan | platforms/akamai/src/main-standalone.js:93-118 | each recorded span starts at a match of its opener pattern and is closed by the scanner |
| StandaloneFacts.RecordedSpanParity | platforms/akamai/src/main-standalone.js:94-118 | each recorded section or block text holds as many `<div` as `</div>` |
| StandaloneFacts.ViewValueShape | platforms/akamai/src/main-standalone.js:70 | the captured view value is `logged-in` or `logged-out`, in some letter case |
| StandaloneFacts.SectionRule | platforms/akamai/src/main-standalone.js:69-77 | in a section whose first written view row holds the value `v`, the section is removed exactly when it carries `section-metadata` and `v` is, letter for letter, the other audience; a value written in another letter case keeps the section |
| StandaloneFacts.FirstViewRow | platforms/akamai/src/main-standalone.js:70 | `match` without the `g` flag picks the first view row written in the section, and captures its value as written |
| StandaloneFacts.SectionWithoutRowKept | platforms/akamai/src/main-standalone.js:69-72 | a section in which no view row is written is kept |
| StandaloneFacts.RemoveSectionsKeeps | platforms/akamai/src/main-standalone.js:68-82 | when no recorded section excludes the viewer, the main content is unchanged |
| StandaloneFacts.OneSectionRemoved | platforms/akamai/src/main-standalone.js:68-82 | when exactly one recorded section excludes the viewer, the main content loses the first occurrence of that section's text and nothing else; it is unchanged when the text does not occur |
| StandaloneFacts.MainFirstOccurrence | platforms/akamai/src/main-standalone.js:32 | the matched main text first occurs where the pattern matched it |
| StandaloneFacts.MainRebuild | platforms/akamai/src/main-standalone.js:32-84 | the section stage replaces the first main element in place: the attributes of its opening tag are kept, its content becomes the filtered content, and the text before and after it is untouched |
| StandaloneFacts.RemovalKeepsBalance | platforms/akamai/src/main-standalone.js:121-124 | removing a balanced element's text keeps the document's `<div` minus `</div>` count |
| StandaloneFacts.RemoveReversedKeepsBalance | platforms/akamai/src/main-standalone.js:121-124 | removing balanced element texts last one first, each at a clean junction, keeps the document's `<div` minus `</div>` count |
| StandaloneFacts.BlockStageKeepsBalance | platforms/akamai/src/main-standalone.js:87-124 | when every targeted opener is a lower-case `<div` tag with no div tag inside it, and every removal cuts at a clean junction, the block stage keeps the document's `<div` minus `</div>` count |
| StandaloneRequest.SplitQueryParts | platforms/akamai/src/main-standalone.js:134-136 | path and search put back together give the full path; the path holds no `?`; the search is empty or starts at the first `?` |
| StandaloneRequest.FullPathShape | platforms/akamai/src/main-standalone.js:132-133 | the full path is `/` for a URL the pattern does not match; otherwise it is the text after the host, empty or starting with `/` |
| StandaloneRequest.FullPathOf | platforms/akamai/src/main-standalone.js:132-133 | a URL written as scheme, host and path gives that path back |
| StandaloneRequest.TargetKeepsPath | platforms/akamai/src/main-standalone.js:141-144 | the origin is asked for the same full path, query included |
| StandaloneRequest.RespondCases | platforms/akamai/src/main-standalone.js:129-159 | a bypassed path or a non-HTML response is the origin's own; only an HTML response is processed |
| StandaloneRequest.BypassNeedsSlash | platforms/akamai/src/main-standalone.js:138 | every bypassed path starts with `/` |
| StandaloneRequest.FragmentsBypassed | platforms/akamai/src/main-standalone.js:8 | every path under `/fragments/` is bypassed |
| Production.NeedsProtectionIff | platforms/akamai/src/main-production.js:45-48 | the gate holds exactly when both literal texts `name="protected"` and `content="true"` occur |
| Production.TeaserHtmlLink | platforms/akamai/src/main-production.js:55-57 | the teaser markup's one link reads back as the path and the origin followed by the path |
| Production.LinkRoundTrip | platforms/akamai/src/main-production.js:129 | a teaser link written anywhere reads back as its path and its text |
| Production.PageUnprotected | platforms/akamai/src/main-production.js:81 | without a teaser meta tag the page stage says "not modified" and returns the input |
| Production.PageProtected | platforms/akamai/src/main-production.js:68-78 | with a teaser meta tag the page stage always says "modified", even when there is no main element to replace |
| Production.PageReplacesMain | platforms/akamai/src/main-production.js:73-76 | the first `<main…>…</main>` is replaced by `<main>` and the teaser, and the text before and after it is kept |
| Production.EraseChanges | platforms/akamai/src/main-production.js:136-141 | the ID-block erasure changes the text exactly when the pattern matches |
| Production.SectionModified | platforms/akamai/src/main-production.js:89-108 | the section stage says "modified" exactly when a protected section matches; otherwise the text is unchanged |
| Production.SectionTeaserPathShape | platforms/akamai/src/main-production.js:101-102 | a section's teaser path is the non-empty word of its `teaser` row, or the default section teaser when there is no such row |
| Production.BlockTeaserPathShape | platforms/akamai/src/main-production.js:126-127 | a block's teaser path is the trimmed text of its first cell naming a `/fragments/` or `/teasers/` path, or the default block teaser |
| Production.BlockModified | platforms/akamai/src/main-production.js:115-144 | the block stage says "modified" exactly when a teaser block matches, or an ID block matches in what the teaser pass left; otherwise the text is unchanged |
| Production.PageFirst | platforms/akamai/src/main-production.js:209-219 | a gated page with a teaser meta tag gets the page stage's result |
| Production.SectionSecond | platforms/akamai/src/main-production.js:221-232 | otherwise a matching protected section decides, using the original text |
| Production.BlockThird | platforms/akamai/src/main-production.js:234-245 | otherwise the block stage decides, again on the original text |
| Production.ProtectKeeps | platforms/akamai/src/main-production.js:183-203 | authenticated viewers, documents failing the gate, and documents that no stage matches get the original text |
| Production.RespondCases | platforms/akamai/src/main-production.js:160-178 | a bypassed path or a non-HTML response is the origin's own; the origin is asked for the same path and query; an authenticated or ungated page comes back unchanged |
| HtmlTree.FilterSpec | src/handlers/block-protection.js:4 | a selector keeps exactly the matching elements |
| HtmlTree.FilterFirst | src/handlers/page-protection.js:5-6 | the first element kept is the first that matches; one is kept exactly when one matches |
| HtmlTree.FirstAttrAt | src/handlers/page-protection.js:6 | `.attr()` on a selection reads the first matching element in document order |
| HtmlTree.FirstAttrNone | src/handlers/page-protection.js:6 | with no matching element there is no attribute |
| HtmlTree.CellValueFound | src/handlers/section-protection.js:14-18 | a metadata key is found exactly when a div whose trimmed text is the key exists |
| HtmlTree.RowsRoundTrip | src/handlers/section-protection.js:14-22 | metadata written as `<div><div>key</div><div>value</div></div>` rows reads back the trimmed value of the first row with that key |
| HtmlTree.RemoveTwice | platforms/cloudflare/src/index.js:37-49 | removing in two rounds is removing both sets at once |
| HtmlTree.RemoveNone | platforms/cloudflare/src/index.js:40-42 | removing identities the forest does not hold changes nothing |
| HtmlTree.RemoveGone | platforms/cloudflare/src/index.js:48 | no removed identity survives, and no new identity appears |
| HtmlTree.RemoveFindIds | platforms/cloudflare/src/index.js:40-42 | after a removal, a selector finds only what it found before, minus what was removed |
| HtmlTree.OuterHtmlStarts | src/index.js:183 | an element's outer markup starts with its start tag |
| HtmlTree.MainsHoldMarkup | src/handlers/page-protection.js:24-28 | after the main rewrite, every main holds only the inserted markup and is one of the original outermost mains, with its identity and attributes |
| HtmlTree.MainsKept | src/handlers/page-protection.js:24-28 | every outermost main is kept, now holding only the markup |
| HtmlTree.NoMainUnchanged | src/handlers/page-protection.js:24-28 | a document without a main element is unchanged |
| BlockProtection.HasTeaserRows | src/handlers/block-protection.js:5-22 | the flag loop says "keep" exactly when one descendant div reads `teaser` and one names a fragment path |
| BlockProtection.TeaserBlocks | src/handlers/block-protection.js:4-23 | the filter keeps exactly the teaser blocks among the candidates |
| BlockProtection.FilterTeaserBlocks | src/handlers/block-protection.js:4-23 | the filter loop yields the teaser blocks, in order |
| BlockProtection.RecordTeaserBlocks | src/handlers/block-protection.js:25-34 | each teaser block is appended to the caller's list with its outer markup and its last descendant div's trimmed text |
| BlockProtection.IdKeyFromSpec | src/handlers/block-protection.js:43-47 | the key is the space-free text after the first `id-` that is followed by a non-space character; there is no key exactly when no `id-` is |
| BlockProtection.IdKeyOf | src/handlers/block-protection.js:43 | a class that starts with `id-key` and a space or its end gives `key` back |
| BlockProtection.GroupBlocks | src/handlers/block-protection.js:39-57 | the dictionary loop builds the specified groups, and its key list holds exactly the dictionary's keys |
| BlockProtection.GroupsHoldLast | src/handlers/block-protection.js:48-56 | the groups are keyed by the keys that occur; each holds the last normal and the last protected member of its key, a later member of a kind replacing an earlier one |
| BlockProtection.LastOfSpec | src/handlers/block-protection.js:52-55 | the last member of a kind has that key and kind, with none after it; there is none exactly when no block has them |
| BlockProtection.RemovePairs | src/handlers/block-protection.js:59-65 | the removal loop removes exactly the protected members of the complete groups |
| BlockProtection.PairedOnly | src/handlers/block-protection.js:59-65 | a protected block is removed exactly when it is the last protected member of a key that also has a normal member |
| BlockProtection.SingleKindKept | src/handlers/block-protection.js:59-65 | when no key has members of both kinds, nothing is removed |
| BlockProtection.CheckBlocksInside | src/handlers/block-protection.js:59-65 | the block check of a section removes only elements inside that section |
| BlockProtection.CheckBlockProtectionInSection | src/handlers/block-protection.js:2-66 | the handler appends its teaser records to the caller's list and removes its pairs from the document, as specified |
| BlockProtection.TeasersOrPairs | src/handlers/block-protection.js:25-37 | a section with a teaser block removes nothing; a section records teasers exactly when one of its protected divs is a teaser block |
| BlockProtection.BlockFragmentLink | src/handlers/block-protection.js:68-70 | the block fragment's one link reads back as the path and the origin followed by it |
| BlockProtection.InheritedKeyKept | src/handlers/block-protection.js:39-57 | as written, a key the plain object inherits never forms a pair, so its protected block stays; the corrected grouping removes it |
| BlockProtection.ConstructorPair | src/handlers/block-protection.js:48 | with blocks of class `id-constructor` and `id-constructor protected`, the code as written removes nothing and the corrected grouping removes the protected one |
| SectionProtection.CheckSectionLevelProtection | src/handlers/section-protection.js:5-43 | over the `main > div` sections in order, the loop leaves the specified records and removals, and reports protection exactly when a section or a teaser block was recorded |
| SectionProtection.SeenAt | src/handlers/section-protection.js:9-10 | the loop sees each section as it stands after the removals made by the sections before it |
| SectionProtection.ScanAllRecords | src/handlers/section-protection.js:9-35 | the loop records exactly the sections that are protected when it reaches them, in document order, each with its markup as it then stands and its teaser path |
| SectionProtection.ScanAllRemovesInside | src/handlers/section-protection.js:27-34 | whatever the loop removes lies inside a section that was not protected when the loop reached it |
| SectionProtection.MetadataSectionValue | src/handlers/section-protection.js:11-14 | in an authored section the metadata element is the only one the class selects |
| SectionProtection.AuthoredProtected | src/handlers/section-protection.js:14-18 | a first `protected` row reading `true` makes the protected test hold |
| SectionProtection.AuthoredTeaser | src/handlers/section-protection.js:19-22 | the first `teaser` row gives its trimmed value |
| SectionProtection.AuthoredSection | src/handlers/section-protection.js:13-27 | an authored protected section is recorded with its teaser row's value, or the default teaser only when it has no such row |
| SectionProtection.FragmentLink | src/handlers/section-protection.js:45-49 | the section fragment's one link reads back as the path and the origin followed by it |
| SectionProtection.ApplySectionLevelProtection | src/handlers/section-protection.js:51-64 | sections are replaced first and then teaser blocks, in order, each at the first occurrence of its recorded markup in what the earlier replacements left |
| SectionProtection.OneSectionReplaced | src/handlers/section-protection.js:54 | one recorded section is replaced by its fragment where its markup first occurs, and nothing else changes |
| SectionProtection.AbsentSectionsKeep | src/handlers/section-protection.js:53-55 | records whose markup does not occur leave the text unchanged |
| PageProtection.PageCheckFirst | src/handlers/page-protection.js:4-13 | the path is the first teaser meta tag's raw content; the page is protected exactly when that content is not blank |
| PageProtection.PageCheckNone | src/handlers/page-protection.js:4-13 | without a teaser meta tag the page is not protected and has no path |
| PageProtection.PageFragmentLink | src/handlers/page-protection.js:15-19 | the page fragment's one link reads back as the path and the configured origin followed by it |
| PageProtection.ProtectedPageMains | src/handlers/page-protection.js:21-36 | every outermost main is kept but holds only the fragment, and no main holds anything else |
| CloudflareWorker.IsGatedFirst | platforms/cloudflare/src/index.js:8-9 | a page is gated exactly when its first gated meta tag has the content `true` |
| CloudflareWorker.NotGatedWithoutMeta | platforms/cloudflare/src/index.js:8-13 | a page without a gated meta tag is not gated |
| CloudflareWorker.ProcessContent | platforms/cloudflare/src/index.js:5-52 | the loop over `main > div` and the later removals give the specified page; an ungated page comes back as it was |
| CloudflareWorker.SetAsideFlagged | platforms/cloudflare/src/index.js:21-33 | the sections set aside are exactly those whose view value names the other audience when the loop reaches them |
| CloudflareWorker.KeptSectionClean | platforms/cloudflare/src/index.js:37-44 | a kept section ends up with no element whose class names the other audience |
| CloudflareWorker.RemovalOnly | platforms/cloudflare/src/index.js:17-49 | the only elements removed are the flagged sections and other-audience elements inside sections |
| CloudflareWorker.FlaggedSectionGone | platforms/cloudflare/src/index.js:47-49 | a flagged section is gone from the output document |
| CloudflareWorker.Fetch | platforms/cloudflare/src/index.js:55-84 | every request goes to the origin at the same path and query; a bypassed path or a non-HTML response is the origin's own; an HTML page is processed for a logged-out viewer; a failing origin gives the error response |
| WorkerIndex.CheckPageLevelProtection | src/index.js:79-88 | the page is protected exactly when its first visibility meta tag reads `protected`; the path is the first teaser tag's content, or the default exactly when that is missing or empty, so it is never empty |
| WorkerIndex.PageVisibilityFirst | src/index.js:79-80 | protection is decided by the first visibility meta tag alone |
| WorkerIndex.PageTeaserDefault | src/index.js:81 | without a teaser meta tag the default page teaser is used |
| WorkerIndex.PageTeaserFirst | src/index.js:81 | a page whose first teaser meta tag has a non-empty content takes that content as its path |
| WorkerIndex.PageTeaserLink | src/index.js:94-102 | the page teaser's one link points at the path |
| WorkerIndex.ProtectedPageMains | src/index.js:90-112 | every outermost main keeps its identity and attributes but holds only the page teaser |
| WorkerIndex.SectionTeaserPath | src/index.js:140-150 | a section's path is never empty: it is the trimmed teaser value, or the default when that is missing or blank |
| WorkerIndex.ProtectedSectionsSpec | src/index.js:121-161 | exactly the protected `main div` descendants are recorded, each with its markup and path |
| WorkerIndex.CheckSectionLevelProtection | src/index.js:114-167 | the loop records the specified sections, and protection holds exactly when there is one |
| WorkerIndex.AuthoredSection | src/index.js:129-150 | an authored section whose first `visibility` row reads `protected` is protected, with its teaser row's value or the default |
| WorkerIndex.DivStartTagOf | src/index.js:183-185 | the start-tag match on a div's markup yields that div's own start tag |
| WorkerIndex.SectionTeaserLink | src/index.js:174-180 | the section teaser's one link points at the path |
| WorkerIndex.ApplySectionLevelProtection | src/index.js:169-199 | the loop replaces each recorded section, in order, where its markup first occurs |
| WorkerIndex.SectionKeepsStartTag | src/index.js:183-189 | a replaced section keeps its own start tag, and its content becomes the `section-wrapper` holding the teaser; the rest of the text is untouched |
| WorkerIndex.CheckBlockLevelProtection | src/index.js:202-214 | one path per `div[class*='protected']`, in document order; protection holds exactly when there is one |
| WorkerIndex.BlockCheckSpec | src/index.js:205-211 | the k-th path is the trimmed text of the k-th protected div's last descendant div; the list is non-empty exactly when some div's class contains `protected` |
| WorkerIndex.LastDivTextOf | src/index.js:206-207 | a block ending with a text-only div has that text, trimmed, as its path |
| WorkerIndex.BlockTeaserLink | src/index.js:225-231 | the block teaser's one link points at the path |
| WorkerIndex.RewriteBlocksSpec | src/index.js:220-237 | the rewriter replaces exactly the outermost protected divs, advancing its counter once for each, and leaves none |
| WorkerIndex.OuterProtectedAll | src/index.js:205-221 | with protected divs not nested, the rewriter visits exactly the divs the check found, in the same order |
| WorkerIndex.EachBlockGetsItsTeaser | src/index.js:202-241 | with protected divs not nested, the j-th protected div becomes a teaser on its own path, or on the default when that path is empty |
| WorkerIndex.BlockTeasersNonEmpty | src/index.js:223 | with the corrected fallback, every block teaser links to a non-empty path |
| WorkerIndex.OneEmptyBlockRewritten | src/index.js:223 | a block whose last div is empty gets an empty path, so it is the fallback's teaser |
| WorkerIndex.UndefinedBlockTeaser | src/index.js:223 | as written, that block's teaser links to `undefined`; corrected, it links to the default block teaser |
| WorkerIndex.Protect | src/index.js:29-51 | page, section and block protection are exclusive and tried in that order; a page none of them finds is returned unchanged |
| WorkerIndex.Fetch | src/index.js:10-77 | a fragment or navigation request gets the origin's headers plus an open CORS header; a non-HTML answer is passed through; an HTML answer is protected as `Protect` says, keeping the origin's headers |

## Left out

- Network and platform plumbing is out of the model. That covers `fetch`, `httpRequest`, `createResponse`, `Response`, `HTMLRewriter.transform` and status codes. The origin's answer (content type, headers, body, and whether it failed) is a parameter. The 500 responses appear only as `CloudflareWorker.Fetch`'s `InternalError`, and the Akamai error paths are left out.
- The forwarding in `handleHeaderFragment` (src/index.js:55-77) is left out: request method, body, redirect mode and the header logging. Headers are a map with lower-case names.
- The DOM library is not modelled. The parsed document is a parameter (`HtmlTree.Node`). `outerHTML` and `$.html()` are the model's own serialisation, so the model does not claim that this text occurs verbatim in the markup the origin sent.
- HtmlTree.MetaValue: when several metadata divs carry the key, the DOM library's `.next().text()` joins all their next siblings. The model reads the first one only.
- The streaming rewriter is modelled as a function on the tree, visiting elements in document order. For nested protected divs, the model replaces the outer div and drops the inner ones. Statements that pair divs with paths (`WorkerIndex.OuterProtectedAll`, `WorkerIndex.EachBlockGetsItsTeaser`) assume protected divs are not nested.
- The authentication stubs are out: platforms/cloudflare/src/handlers/auth.js, main-production.js:34-38 and main-standalone.js:17-21. They always say "logged out", and the processing functions take the audience as a parameter.
- Logging, timing (`console.log`, `Date.now()`) and the unread counters at src/index.js:116-119 are left out.
- platforms/cloudflare/src/config.js is not part of this model. Its origin, bypass list and content types are parameters of `CloudflareWorker.Fetch`.
- platforms/akamai/validate-constraints.js and the build and test tooling are left out. They do file-system reads and floating-point estimates, and are not part of the engine.
- There is no general regular-expression engine. Each pattern the workers use has its own matcher in `Patterns`. Where the source uses `new URL(path, origin)`, the target URL is the origin followed by the path and query, without URL normalisation.
- Standalone.ApplyBlockStage: no lemma states that every targeted div is gone. A targeted div nested inside another targeted div breaks that. Both are recorded; the reverse-order loop removes the inner text first, and the outer text then no longer occurs, so the outer div stays. The model computes this behaviour, but no stronger property is claimed for it.
- WorkerIndex.ApplyBlockLevelProtection, WorkerIndex.Protect and WorkerIndex.Fetch compute the corrected block fallback: an empty path gets `DefaultBlockTeaser`, not the `undefined` of src/index.js:223 as written. The as-written behaviour is `WorkerIndex.ApplyBlockLevelProtectionAsWritten`, and `WorkerIndex.UndefinedBlockTeaser` exhibits the difference (see Findings).
- BlockProtection.GroupBlocks, BlockProtection.CheckBlocks, BlockProtection.CheckBlockProtectionInSection and SectionProtection.CheckSectionLevelProtection compute the corrected grouping: every `id-` key groups its own blocks, including a key a plain object inherits. The as-written behaviour at src/handlers/block-protection.js:48 is `BlockProtection.GroupsAsWritten`, and `BlockProtection.ConstructorPair` exhibits the difference (see Findings).
- Standalone.ApplyBlockStage: the balance of `<div` and `</div>` (`StandaloneFacts.BlockStageKeepsBalance`) is proved only under two conditions. Every targeted opening tag is a lower-case `<div` with no div tag inside it. Every removal cuts at a clean junction, so two texts that meet do not form a new tag. Upper-case openers and removals that splice tags together are not covered.
- PageProtection.ProtectedPageMains and WorkerIndex.ProtectedPageMains: only the outermost main elements are described. A main nested in another main disappears with the outer one's old content.

## Findings

| source | as written | input that shows it | evidently intended | confidence | as-written member | corrected member |
|---|---|---|---|---|---|---|
| src/index.js:223 | the fallback is `this.DEFAULT_BLOCK_TEASER`. Inside the rewriter's `element` handler, `this` is the handler object, so the fallback is `undefined` and the teaser links to `undefined` | a protected div whose last descendant div is empty, e.g. `<div class="protected"><div></div></div>` | the worker's `DEFAULT_BLOCK_TEASER`, `/fragments/teasers/block-teaser` | high (not executed) | WorkerIndex.UndefinedBlockTeaser | WorkerIndex.BlockTeasersNonEmpty |
| src/handlers/block-protection.js:48 | the groups live in a plain object `{}`, so `!blocks[blockId]` is false for a key the object inherits. No entry of its own is made for such a key. The members are stored on the inherited value, which `Object.entries` (line 60) does not list, so the protected block is never removed | a section holding `<div class="id-constructor">` and `<div class="id-constructor protected">` | every `id-` key groups its own blocks, as a map without inherited keys would | medium (not executed) | BlockProtection.ConstructorPair | BlockProtection.PairedOnly |
