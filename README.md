# Category and facet inference for e-commerce pages, in Dafny

This project models the decision logic of the scraper in
`backend/src/scraper.ts`. The scraper has two pipelines:

- `scrapeCategories(homeUrl)` builds the category tree. It picks the
  navigation root (the first `nav`, else the first `header ul`), walks its
  links to at most three levels, and keeps only links whose trimmed text
  has an admissible length: 2 to 40 UTF-16 code units at the top level,
  2 to 60 below. A link without an `href` falls back to `/` at the top level and to
  its parent's href below. Every href is resolved against the home URL. An
  empty list of children is left `undefined`.
- `scrapeFacets(plpUrl)` reads filter groups from a listing page. Each
  candidate container needs a heading whose trimmed text is 1 to 40
  UTF-16 code units long. Its values come from its checkbox and radio inputs when
  it has any, and from its `?`-bearing anchors otherwise. Each value has a
  label and a query fragment: the text after the first `?` in the target
  href, up to the next `?`. A value is kept only when both are non-empty.
  A group is multi-select when the container holds a checkbox, and a group
  without values is dropped.

The browser is replaced by snapshots. For categories, the snapshot holds
the matched navigation roots, and each link carries its inner text, its
optional `href` and the links the sub-menu query returns for it. For
facets, it holds the containers (their heading text, inputs and anchors)
and the page's `label` elements.

URL resolution, `new URL(href, homeUrl).href`, is a parameter
`resolve: (string, string) -> Option<string>`, following section 4.4
(URL parsing) of the WHATWG URL Standard. `None` stands for the
`TypeError` the constructor throws. The scraper does not catch it, so the
whole call fails with `InvalidUrl`.

Both pipelines are loops that push onto arrays. Each loop is a Dafny
method that builds the same list in a local sequence. Each method is
proved equal to a specification function written as a left fold (`Level`,
`InputValues`, `AnchorValues`, `GroupsOf`). The promised properties are
lemmas about those functions.

Files:

- `wrappers.dfy`: `Option` (with `GetOr`, JavaScript's `??`) and `Result`.
- `text.dfy`: `String.prototype.length` in UTF-16 code units;
  `String.prototype.trim` over the ECMAScript white-space and
  line-terminator characters; `split` on one character with its inverse
  `Join`; and the query fragment `href.split('?')[1] || ''`.
- `categories.dfy`: the category tree builder.
- `facets.dfy`: the facet extractor.

`label` is a reserved word in Dafny, so the `label` fields of `CatNode` and
`FacetValue` are called `labelText`.

## Model

| member | source | states |
|---|---|---|
| `Categories.ScrapeCategories` | backend/src/scraper.ts:21-78 | returns exactly what `CategoryTree` gives: the error when no navigation root exists or a URL fails to resolve, else the tree the three nested loops build |
| `Categories.CollectSubNodes` | backend/src/scraper.ts:42-67 | the second-level loop pushes exactly `Level(subLinks, 2, mainHref)`, or fails as soon as a URL below it throws |
| `Categories.CollectLeafNodes` | backend/src/scraper.ts:53-60 | the leaf loop pushes exactly `Level(leafLinks, 3, subHref)`, or fails when a leaf URL throws |
| `Categories.KeptMembership` | backend/src/scraper.ts:33-57 | a link gets a node exactly when its trimmed text is 2..40 UTF-16 code units long (top level) or 2..60 (lower levels) |
| `Categories.AstralLabelKept` | backend/src/scraper.ts:34-37 | a top-level link whose text is any one character above U+FFFF has length 2, so it is kept, and without an `href` it gets the url of `/` |
| `Categories.KeptAppend` | backend/src/scraper.ts:33-35 | the length filter keeps document order: filtering a concatenation is concatenating the filtered parts |
| `Categories.LevelMatchesKept` | backend/src/scraper.ts:31-73 | a level emits one node per kept link, in link order, and node k is the node built from the k-th kept link |
| `Categories.LevelSucceedsIff` | backend/src/scraper.ts:59-71 | a level fails exactly when building the node of one of its kept links fails |
| `Categories.LevelNodes` | backend/src/scraper.ts:37-72 | node k of a level is labelled with the trimmed text of the k-th kept link; its url is what that link's href, or the fallback when the attribute is missing, resolves to; a leaf has no children; above the leaves `children` is the next level walked with that raw href as fallback, absent when that level is empty |
| `Categories.TreeNodes` | backend/src/scraper.ts:33-73 | root k of a returned tree is labelled with the trimmed text of the k-th kept top-level link, its url is what its href, or `/` when missing, resolves to, and its children are the second level walked from that raw href |
| `Categories.ChildWithoutHref` | backend/src/scraper.ts:49-64 | a second-level or leaf link without `href` inherits its parent's href, so its node has its parent node's url |
| `Categories.TreeWellFormed` | backend/src/scraper.ts:59-73 | every node of a returned tree has a trimmed label of admissible UTF-16 length for its depth; its `children` is absent or non-empty; no node below level 3 exists |
| `Categories.TreeDepth` | backend/src/scraper.ts:53-73 | grandchildren of roots never have children (depth at most 3), and no root or child carries an empty children list |
| `Categories.NavigationNotFoundIff` | backend/src/scraper.ts:27-28 | the result is "Navigation element not found" exactly when the page has neither a `nav` nor a `header ul` |
| `Categories.FirstNavPreferred` | backend/src/scraper.ts:27 | when a `nav` exists, the result depends on the first `nav` alone, not on the other `nav`s or any `header ul` |
| `Categories.HeaderListFallback` | backend/src/scraper.ts:27 | without a `nav`, the result depends on the first `header ul` alone, not on the later ones |
| `Categories.TreeWhenUrlsResolve` | backend/src/scraper.ts:27-77 | with a navigation root and a resolver that never throws, the call always returns a tree |
| `Categories.LevelTotal` | backend/src/scraper.ts:33-73 | with a resolver that never throws, every level of the walk succeeds |
| `Facets.ScrapeFacets` | backend/src/scraper.ts:93-142 | returns exactly `Facets(page)`, the groups of the containers in container order |
| `Facets.CollectInputValues` | backend/src/scraper.ts:116-124 | the input loop pushes exactly `InputValues(labels, inputs)` |
| `Facets.CollectAnchorValues` | backend/src/scraper.ts:126-131 | the anchor loop pushes exactly `AnchorValues(anchors)` |
| `Facets.LabelForFirst` | backend/src/scraper.ts:118 | the label lookup returns the text of the first `label` whose `for` is the id, and nothing exactly when there is none |
| `Facets.InputLabelFallback` | backend/src/scraper.ts:117-120 | an input's label is the trimmed text of its first `label[for=id]` when the id is non-empty and that text trims to something; otherwise it is the untrimmed `value` attribute, or `''` |
| `Facets.InputValuesMembership` | backend/src/scraper.ts:115-124 | a value is in the input strategy's list exactly when its label and fragment are both non-empty and it pairs some input's label with the query fragment of that input's `data-href` |
| `Facets.AnchorValuesMembership` | backend/src/scraper.ts:125-131 | a value is in the anchor strategy's list exactly when its label and fragment are both non-empty and it pairs some anchor's trimmed text with the query fragment of that anchor's `href` |
| `Facets.InputValuesAppend` | backend/src/scraper.ts:116-124 | the input values follow input order, one per input that yields one, duplicates kept: the loop distributes over a concatenation of inputs |
| `Facets.AnchorValuesAppend` | backend/src/scraper.ts:126-131 | the anchor values follow anchor order, duplicates kept: the loop distributes over a concatenation of anchors |
| `Facets.AnchorValuesSingle` | backend/src/scraper.ts:127-130 | one anchor adds exactly one value, its trimmed text with the query fragment of its `href`, when both are non-empty, and nothing otherwise; with `AnchorValuesAppend` this fixes one entry per anchor that yields one |
| `Facets.StrategyPriority` | backend/src/scraper.ts:110-132 | a container with inputs takes its values from the inputs alone, whatever its anchors; one without inputs takes them from its anchors |
| `Facets.FacetsMembership` | backend/src/scraper.ts:104-138 | a group is returned exactly when some container has a heading whose trimmed text, the group's name, is 1..40 UTF-16 code units long, and the container's chosen strategy yields the group's values, at least one; the group is `multi` exactly when that container holds a checkbox |
| `Facets.SingleSelect` | backend/src/scraper.ts:135 | a group from a container with only radio inputs, or only anchors, is single-select |
| `Facets.GroupsOfAppend` | backend/src/scraper.ts:104-138 | groups come out in container order: the loop distributes over a concatenation of containers |
| `Facets.GroupsOfMembership` | backend/src/scraper.ts:104-138 | a group is returned exactly when some container yields it |
| `Facets.FacetsValid` | backend/src/scraper.ts:102-141 | every returned group has a trimmed name of 1..40 UTF-16 code units and at least one value, and every value has a non-empty label and a non-empty fragment without `?` |
| `Facets.SizeExample` | backend/src/scraper.ts:93-142 | a container headed "Size" with checkboxes S, M, L whose `data-href` is `?size=S` and so on yields one multi-select group `Size` with values `S/size=S`, `M/size=M`, `L/size=L` |
| `Text.Utf16LengthBounds` | backend/src/scraper.ts:35 | `.length` counts one or two code units per character, equals the character count exactly when no character lies above U+FFFF, and is 0 only for the empty string |
| `Text.Utf16LengthAppend` | backend/src/scraper.ts:35 | the code-unit length of a concatenation is the sum of the parts' lengths |
| `Text.TrimInfix` | backend/src/scraper.ts:34 | `trim` leaves the infix between leading and trailing white space, and that infix neither starts nor ends with white space |
| `Text.TrimIdempotent` | backend/src/scraper.ts:34 | trimming a trimmed string changes nothing |
| `Text.JoinSplit` | backend/src/scraper.ts:122 | joining the pieces of `split(sep)` with `sep` gives back the original string |
| `Text.SplitPiecesFree` | backend/src/scraper.ts:122 | no piece of a split contains the separator |
| `Text.QueryFragmentWithoutMark` | backend/src/scraper.ts:122 | an href without `?` has the empty query fragment |
| `Text.QueryFragmentBetween` | backend/src/scraper.ts:122 | with the first `?` at index i, the fragment is exactly the text from i+1 to the next `?` or the end |
| `Text.QueryFragmentFree` | backend/src/scraper.ts:129 | a query fragment never contains `?` |

## Left out

- Browser lifecycle and page loading: launching and closing Chromium, the
  viewports, `goto` with its wait conditions and 45-second timeouts, and
  closing the page. A navigation timeout is a thrown error the model does
  not represent.
- The process-wide browser singleton `getBrowser`: shared mutable state
  whose only effect is reuse across requests.
- Hover and the timed waits. A failed hover is swallowed, so neither
  changes the result. What the sub-menu query returns after the hover is
  taken as given in `Link.subLinks`.
- CSS selector semantics: the `nav` and `header ul` lookups, `:scope a`,
  the sub-menu selector `:scope + ul a, :scope >> .. ul a`, the container
  and heading selectors, `a[href*="?"]`, the input type selectors, and the
  page-wide `label[for="..."]` lookup. Their results are given sequences.
- Facets.InputLabel: the label lookup compares ids literally, where the
  scraper splices the id into a CSS selector. An id containing `"` makes
  that selector invalid, `page.$` throws and the whole `scrapeFacets` call
  fails, where the model returns groups. An id containing `\` starts a CSS
  escape, so another id is looked up; the scraper may then fall back to
  the input's `value` where the model finds the label.
- Strings are sequences of Unicode scalar values. A JavaScript string
  holding an unpaired surrogate has no counterpart in the model.
- `innerText` rendering: the text of each element is given as a string.
- WHATWG URL parsing: `resolve` is uninterpreted.
- Categories.ScrapeCategories: the error value `InvalidUrl` does not say
  which href failed. When the constructor throws, the browser is not
  closed; that leak is not modelled.
- `backend/src/server.ts` (HTTP routing and status codes),
  `frontend/src/api.ts`, `frontend/src/App.tsx`,
  `frontend/vite.config.ts` and `frontend/src/types.ts` (a copy of the
  interfaces) are not part of this model.

Details of `scrapeCategories` the model keeps as written:

- The navigation root is the first `nav`, else the first `header ul`.
- Only a missing `href` attribute falls back (the `??` operator). An empty
  `href` is kept as `''` and handed to the resolver; the URL constructor
  then returns the home URL with its fragment removed.
- Below the top level, the fallback is the parent's raw href (before
  resolution), not its resolved URL.
