# commons-htmlunit element finders and page cache, in Dafny

This project models the two pieces of logic in commons-htmlunit, a helper library
that sits on top of the HtmlUnit headless browser:

* **the element finders of `HtmlUnitUtils`**: they look up elements on a fetched page
  and check that each found element has the class the caller asked for. They come in
  three families:
  * single lookups through the page's own id and name indexes;
  * *filter finders*, which collect every element with a tag that meets a test
    (attribute equal, attribute contains, text equal);
  * *sole-descendant finders*, which walk all descendants of a form with an explicit
    stack and demand exactly one match.

  `getFormByAction` returns the first form with a given action.
* **`WebPageFileCache`**, which keeps fetched pages as files in one cache directory.
  Each file is named after the URL with the characters `: / _ & ? =` deleted, plus
  `.html`. A file is reused while it is non-empty and at most twenty hours old.

`Dom.dfy` holds the data model. An element is a finite tree value: its runtime class,
tag, attributes, text content and ordered children. Java's
`type.isAssignableFrom(element.getClass())` becomes `IsAssignableFrom` over a closed
set of classes. `HtmlElement` is the top class and `HtmlInput` sits between it and
the concrete input classes. A missing attribute reads as the empty string, as
`DomElement.getAttribute` returns it. The file also defines the document-order
listing of a tree (`Flatten`) and the order-preserving filter (`Select`) that every
finder is specified against.

`HtmlUnitUtils.dfy` holds the finders as methods. Their loops are kept:
* the three filter finders share one loop, `CollectMatching`;
* the four stack walks share one `while` loop, `SoleDescendant`.

Each public finder is a thin method over one of these loops, with its own contract.
Errors form a datatype that mirrors the exception hierarchy. `NoElementFoundException`
and `WrongElementException` both extend `HtmlUnitException`, and the finders throw
the base `HtmlUnitException` itself when they find more than one match.

`WebPageFileCache.dfy` holds the cache.
* `stripUrl` and the reload test are pure functions.
* One `handle` call is the function `HandleStep`. It maps the directory before the
  call to the page, the directory after it, and whether the network was used.
* `CACHE_DIR` is a static field, so there is one cache directory per process. It is
  the class `CacheDirectory`, whose field holds the files as a map from file name to
  content and modification time.
* Every `WebPageFileCache` object refers to that one directory. Each object also has
  a ghost record of the URLs it fetched; the record exists for the proofs only.
* Its methods `Handle` and `Clear` change the shared directory step by step, as the
  source does. `TwoCachesShareDirectory` shows two cache objects seeing each other's
  writes and clears.

`Handle` has three inputs besides the URL:
* `response`: what the network would answer for the URL;
* `deleteSucceeds`: whether `File.delete` of a stale file would work;
* `now`: the clock reading.

`Clear` has one input, `removable`: whether the directory could be removed.

The cache file name is not a hash of the URL. It is the URL with the six characters
deleted, so URLs that differ only in those characters share one file.
`DistinctUrlsShareEntry` proves this for `a?b=c` and `abc`.

## Model

| member | source | states |
|---|---|---|
| Dom.AssignableIsPartialOrder | src/main/java/org/dstadler/htmlunit/HtmlUnitUtils.java:73 | The class check is reflexive, transitive and antisymmetric. `HtmlElement` accepts every element. |
| Dom.ContainsAt | src/main/java/org/dstadler/htmlunit/HtmlUnitUtils.java:131 | The `contains` test used by the attribute-contains finder holds exactly when the query occurs at some position of the attribute value. |
| Dom.FlattenAppend | src/main/java/org/dstadler/htmlunit/HtmlUnitUtils.java:107 | The document-order listing of two forests is the listing of the first followed by that of the second. |
| Dom.NotOwnDescendant | src/main/java/org/dstadler/htmlunit/HtmlUnitUtils.java:270-271 | A form never occurs among its own descendants, so a walk of its children cannot reach it. |
| Dom.SelectAppend | src/main/java/org/dstadler/htmlunit/HtmlUnitUtils.java:106-122 | Filtering keeps document order: filtering two pieces one after the other gives the filter of the whole. |
| Dom.SelectCount | src/main/java/org/dstadler/htmlunit/HtmlUnitUtils.java:106-122 | The filter keeps every matching element exactly as often as it occurs and drops every other element. |
| Dom.SelectPermutation | src/main/java/org/dstadler/htmlunit/HtmlUnitUtils.java:270-285 | Two orderings of the same elements have the same matches, counted with multiplicity. So the match count does not depend on traversal order. |
| Dom.LoneMatchIndependentOfOrder | src/main/java/org/dstadler/htmlunit/HtmlUnitUtils.java:270-292 | When exactly one element matches, every ordering of the same elements yields that same element. |
| Dom.ElementsByTagName | src/main/java/org/dstadler/htmlunit/HtmlUnitUtils.java:107 | `getElementsByTagName`: lists the page's elements in document order and keeps those with the tag. It holds exactly the page's elements with that tag. |
| Dom.Forms | src/main/java/org/dstadler/htmlunit/HtmlUnitUtils.java:306 | `getForms`: holds exactly the page's `form` elements, in document order. |
| Dom.FormByName | src/main/java/org/dstadler/htmlunit/HtmlUnitUtils.java:170 | The form lookup by name yields the first `form` element of the page, in document order, with that name. It yields nothing exactly when no such form exists. |
| HtmlUnitUtils.GetElementById | src/main/java/org/dstadler/htmlunit/HtmlUnitUtils.java:67-80 | NotFound exactly when the page's id lookup yields nothing. WrongElement exactly when the element found has an incompatible class. Otherwise the call returns that same element. |
| HtmlUnitUtils.GetElementByName | src/main/java/org/dstadler/htmlunit/HtmlUnitUtils.java:83-102 | The same three outcomes over the page's name lookup. No uniqueness is demanded at this layer. |
| HtmlUnitUtils.CheckKind | src/main/java/org/dstadler/htmlunit/HtmlUnitUtils.java:73-79 | The class check and cast `(T) element`: accepts exactly the elements whose class is compatible and returns them unchanged. Otherwise it fails with WrongElement naming both classes. It never reports NotFound. |
| HtmlUnitUtils.CollectMatching | src/main/java/org/dstadler/htmlunit/HtmlUnitUtils.java:106-122 | Success exactly when every matching candidate has a compatible class. It then returns exactly the matches in order. Otherwise it fails with WrongElement for the first incompatible match, and every match before it was compatible. Non-matching candidates are never checked. |
| HtmlUnitUtils.GetElementsByAttribute | src/main/java/org/dstadler/htmlunit/HtmlUnitUtils.java:105-123 | On success, returns in document order exactly the page's elements with that tag whose attribute equals the value. The list is empty when none match. Fails with WrongElement, and no list, iff some such element has an incompatible class. The failure names the first such element in document order, the one the loop reaches first. |
| HtmlUnitUtils.GetElementsByAttributeContains | src/main/java/org/dstadler/htmlunit/HtmlUnitUtils.java:126-144 | The same contract with substring containment: every element returned has an attribute value that contains the query. |
| HtmlUnitUtils.GetElementsByTextContents | src/main/java/org/dstadler/htmlunit/HtmlUnitUtils.java:147-164 | The same contract with exact text equality: every element returned has exactly the query as its text. |
| HtmlUnitUtils.Walk | src/main/java/org/dstadler/htmlunit/HtmlUnitUtils.java:270-285 | The visit order of the stack loop: pop the last entry, then push its children. It is empty exactly when the stack is, and it starts with the top of the stack. Its contents are given by `WalkVisitsEachOnce`. |
| HtmlUnitUtils.WalkVisitsEachOnce | src/main/java/org/dstadler/htmlunit/HtmlUnitUtils.java:270-285 | The pop-then-push-children stack walk visits every element of the trees on the stack exactly once. |
| HtmlUnitUtils.WalkOfForm | src/main/java/org/dstadler/htmlunit/HtmlUnitUtils.java:270-285 | Starting from a form's children, the walk visits each proper descendant exactly once and never the form itself. |
| HtmlUnitUtils.SoleDescendant | src/main/java/org/dstadler/htmlunit/HtmlUnitUtils.java:268-293 | The stack loop ends with NotFound for zero matching descendants, with the base HtmlUnitException for two or more, and with the lone match otherwise. |
| HtmlUnitUtils.GetFormElementByType | src/main/java/org/dstadler/htmlunit/HtmlUnitUtils.java:268-293 | Returns an element iff exactly one descendant has a compatible class, and returns that element. Zero gives NotFound and two or more give HtmlUnitException. Never WrongElement. |
| HtmlUnitUtils.GetFormElementByName | src/main/java/org/dstadler/htmlunit/HtmlUnitUtils.java:200-231 | Matches are counted by name whatever their class. Two or more is ambiguous before any class check. WrongElement only when exactly one element matches and its class is incompatible. |
| HtmlUnitUtils.GetFormElementByNameAndValue | src/main/java/org/dstadler/htmlunit/HtmlUnitUtils.java:234-265 | As the name lookup, with both the name and the value attribute matched. |
| HtmlUnitUtils.GetPageFormElementByType | src/main/java/org/dstadler/htmlunit/HtmlUnitUtils.java:167-196 | NotFound when no form has that name, before any traversal. Otherwise the sole-descendant outcome for that form. |
| HtmlUnitUtils.GetFormByAction | src/main/java/org/dstadler/htmlunit/HtmlUnitUtils.java:304-313 | Returns the first form in page order whose action equals the argument. Fails with NotFound exactly when no form has it. |
| HtmlUnitUtils.DuplicateNameFormLookups | src/test/java/org/dstadler/htmlunit/HtmlUnitUtilsTest.java:284-327 | In the test's form, `duplicate` matches two elements (so the lookup is ambiguous), `input1` matches the one text input, and `notexisting` matches nothing. |
| HtmlUnitUtils.Polls | src/main/java/org/dstadler/htmlunit/HtmlUnitUtils.java:325 | How many times the loop runs: `waitMS / 100` with Java's truncating division, and none when that is negative. It is zero below 100 ms, and otherwise the number of whole 100 ms steps in the wait. |
| HtmlUnitUtils.WaitForTextAsWritten | src/main/java/org/dstadler/htmlunit/HtmlUnitUtils.java:324-339 | As written, the call succeeds exactly when every poll, the last included, sees the text. |
| HtmlUnitUtils.WaitForText | src/main/java/org/dstadler/htmlunit/HtmlUnitUtils.java:315-339 | As documented, the call succeeds exactly when some poll sees the text, and stops at the first poll that does. |
| HtmlUnitUtils.WaitForTextMissesLateText | src/main/java/org/dstadler/htmlunit/HtmlUnitUtils.java:325-329 | Text that appears only at the second poll makes the code as written fail, although the text appears within the wait. |
| FileCache.StripUrl | src/main/java/org/dstadler/htmlunit/WebPageFileCache.java:67-70 | `stripUrl`: deletes each of `: / _ & ? =`. The result contains none of them and is never longer than the URL. The `StripUrl*` lemmas below state what it keeps. |
| FileCache.StripUrlAppend | src/main/java/org/dstadler/htmlunit/WebPageFileCache.java:67-70 | Stripping works character by character, keeping the order of what it keeps. |
| FileCache.StripUrlKeepsOthers | src/main/java/org/dstadler/htmlunit/WebPageFileCache.java:67-70 | Every character other than the six is kept exactly as often as it occurs. |
| FileCache.StripUrlFixesClean | src/main/java/org/dstadler/htmlunit/WebPageFileCache.java:67-70 | A URL without any of the six characters is left unchanged. |
| FileCache.StripUrlIdempotent | src/main/java/org/dstadler/htmlunit/WebPageFileCache.java:67-70 | Stripping twice is the same as stripping once. |
| FileCache.StripUrlLength | src/main/java/org/dstadler/htmlunit/WebPageFileCache.java:67-70 | Stripping never lengthens a URL. It keeps the length exactly when no character had to be deleted. |
| FileCache.CacheFileName | src/main/java/org/dstadler/htmlunit/WebPageFileCache.java:36 | The name of a URL's cache file. It ends in `.html`, and the part before that contains none of the deleted characters. |
| FileCache.CacheFileNameShared | src/main/java/org/dstadler/htmlunit/WebPageFileCache.java:36 | Two URLs share a cache file exactly when their stripped forms agree. |
| FileCache.CacheFileNameIsFlat | src/main/java/org/dstadler/htmlunit/WebPageFileCache.java:30-36 | The file name holds no `/`, so every cache file lies directly in the one cache directory. |
| FileCache.DistinctUrlsShareEntry | src/main/java/org/dstadler/htmlunit/WebPageFileCache.java:36 | `a?b=c` and `abc` are different URLs with the same cache file. |
| FileCache.NeedsReload | src/main/java/org/dstadler/htmlunit/WebPageFileCache.java:33-39 | The reload test over what `File` reports. A missing or empty file is reloaded, and so is one older than 20 h. A present, non-empty file at most 20 h old is served. |
| FileCache.Stale | src/main/java/org/dstadler/htmlunit/WebPageFileCache.java:36-39 | The reload test for a URL over the directory: its file is absent, empty, or last modified more than 20 h ago. The 0 defaults `File` reports for a missing file play no part. |
| FileCache.ReloadBoundary | src/main/java/org/dstadler/htmlunit/WebPageFileCache.java:33-39 | A non-empty file exactly 72,000,000 ms (20 h) old is still served. One millisecond older, it is reloaded. |
| FileCache.HandleStep | src/main/java/org/dstadler/htmlunit/WebPageFileCache.java:35-57 | The URL is fetched iff the file is missing, empty or too old. A hit changes nothing. A page returned is the page stored under the key; a freshly fetched page is stored with time `now`. An IOException, from the fetch or from the delete, leaves the directory as it was. No other file ever changes. |
| FileCache.ClearedCacheReloads | src/main/java/org/dstadler/htmlunit/WebPageFileCache.java:63-65 | After `clear`, the next `handle` for any URL takes the reload path. |
| FileCache.ServedWithinTimeout | src/main/java/org/dstadler/htmlunit/WebPageFileCache.java:39-56 | Once a non-empty page has been fetched and stored, a later call within 20 h does not fetch. It returns the same stored markup and leaves the directory unchanged, whatever the network would answer. |
| FileCache.ClearThenTwice | src/test/java/org/dstadler/htmlunit/WebPageFileCacheTest.java:40-48 | After `clear`, two calls within 20 h fetch once and return the same stored markup. |
| FileCache.ExpiredEntryRefetched | src/main/java/org/dstadler/htmlunit/WebPageFileCache.java:39 | A stored page older than 20 h is fetched again. |
| FileCache.EmptyPageRefetched | src/main/java/org/dstadler/htmlunit/WebPageFileCache.java:39 | An empty page is never served from the cache. |
| FileCache.SharedEntryServed | src/main/java/org/dstadler/htmlunit/WebPageFileCache.java:36-56 | A URL whose stripped form equals that of a URL just fetched is served that URL's stored markup without fetching. |
| FileCache.CacheDirectory.constructor | src/main/java/org/dstadler/htmlunit/WebPageFileCache.java:30 | The process-wide cache directory, holding whatever files it already has. |
| FileCache.WebPageFileCache.constructor | src/main/java/org/dstadler/htmlunit/WebPageFileCache.java:27-30 | A new cache object refers to the shared directory and has fetched nothing. |
| FileCache.WebPageFileCache.Handle | src/main/java/org/dstadler/htmlunit/WebPageFileCache.java:35-57 | The result and the new contents of the shared directory are those of `HandleStep`. The URL is added to the fetch record exactly on the reload path. On a hit, nothing changes. |
| FileCache.WebPageFileCache.Clear | src/main/java/org/dstadler/htmlunit/WebPageFileCache.java:63-65 | Success empties the shared directory. Failure raises an IOException. The fetch record is untouched. |
| FileCache.TwoCachesShareDirectory | src/main/java/org/dstadler/htmlunit/WebPageFileCache.java:30-65 | Two cache objects use the one static directory. After a clear, a page one fetches is served by the other within 20 h without fetching. A clear through the second makes the first fetch again. |

## Findings

| source | as written | input that shows it | evidently intended | confidence | as-written member | corrected member |
|---|---|---|---|---|---|---|
| src/main/java/org/dstadler/htmlunit/HtmlUnitUtils.java:325-329 | The poll loop breaks when the text is absent (`!contains`), despite the `// found` comment. It therefore waits only while the text is already there. | `waitMS` = 100 and text `Ok`. The markup is empty at the first poll and `Ok` after one pause. The loop leaves at once, and the final check throws. | Poll until the text appears or the time is up. | high; not executed | HtmlUnitUtils.WaitForTextAsWritten | HtmlUnitUtils.WaitForText |

`HtmlUnitUtils.WaitForTextMissesLateText` exhibits the input above against both contracts.

## Left out

- `createWebClient` only sets options and listeners on the browser client, so it is not modelled.
- `getInitialPage` is a network fetch. In the cache, its outcome is the `response` input of `Handle` and `HandleStep`.
- `waitForJavascript` is a timed call into the browser client, so it is not modelled.
- `waitForText` is modelled without time. `Thread.sleep` is replaced by a sequence of markup snapshots, one per poll, and an interrupted sleep is not modelled.
- Exception messages and the `logger.warn(... asXml())` dumps are not modelled. Errors carry only their kind, plus the expected and actual classes for WrongElement.
- HTML parsing, text content and the page's id and name indexes belong to the library. They are given as an element's `text` field and the maps `Page.byId` and `Page.byName`.
- `getElementsByTagName`, `getForms` and `getFormByName` are taken as document-order listings of the tree. Tag names are compared exactly, without HTML case folding. `getForms` and `getFormByName` both recognise a form by its `form` tag. An element's tag and class are separate fields, and the model does not require a `form` tag to go with the `HtmlForm` class. Nothing in the finders depends on that pairing.
- `HtmlUnitUtils.SoleDescendant`: the cast `(HtmlElement) it` can throw a `ClassCastException` for a DOM element that is not an `HtmlElement`. The model does not capture this, because every element in it is an `HtmlElement`.
- The exception classes are only constructors, so they appear only as the `Failure` datatype.
- `FileCache.WebPageFileCache.Handle`: a page is modelled only by its markup. `page.save` and the reload from the file URL are taken to preserve that markup exactly, and neither can fail. A page served from the cache is parsed from the cache file's `file:` URL, so its `getUrl()` and the base of its relative links differ from those of the freshly fetched page. The model does not capture this. A saved file gets `now` as its modification time.
- `FileCache.WebPageFileCache.Handle`: the file length is counted in characters, not bytes. Overflow of Java's `long` in `now - lastModified` is not modelled.
- `FileCache.WebPageFileCache.Clear`: a removal that fails part-way is modelled as leaving the directory unchanged. The model does not say which files were already deleted.
- The model does not capture concurrent access to the cache directory or the location of the system temp directory.
