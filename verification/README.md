# Filterable product table — Dafny model

This project models the product table of the React playground
(`react/src/components/app.jsx`). It covers three pieces:

- the row builder of `ProductTable`, which makes one pass over the product
  list. It drops every product whose lower-cased name does not contain the
  lower-cased search text. When "only show products in stock" is ticked, it
  also drops every unstocked product. Before each kept product whose category
  differs from that of the previously kept product, it emits a category
  header. `currentCategory` starts as `null`, so the first kept product always
  gets a header;
- the `ProductRow` rule that shows the name of an out-of-stock product in red;
- the state of `FilterableProductTable`: an initial state (empty search, stock
  filter off) and two handlers, each of which replaces one field.

Modules:

- `Wrappers` (`wrappers.dfy`): `Option`, which stands for the nullable
  `currentCategory`.
- `Catalog` (`catalog.dfy`): `Product`, `Row` (`CategoryRow` / `ProductRow`)
  and the rendered name cell of a product line.
- `Text` (`text.dfy`): ASCII lower-casing, and `indexOf` as a first-occurrence
  search that returns -1 when the needle is absent.
- `ProductTable` (`table.dfy`): `BuildRows` follows the source loop and
  threads `currentCategory` through it. `Layout(Kept(...))` is an independent
  reference: filter first, then give each kept product a header when it is
  first or its predecessor's category differs. The module proves the two
  equal and then states membership, order, multiplicity, header placement,
  row count and table shape.
- `FilterableProductTable` (`state.dfy`): the component state, its handlers,
  and `Render`.
- `TableScenarios` (`scenarios.dfy`): two small tables worked out in full.

## Model

| member | source | states |
|---|---|---|
| Text.LowerChar | react/src/components/app.jsx:39 | Upper-case ASCII letters become the matching lower-case letter; every other character is unchanged; the result is never an upper-case letter |
| Text.Lower | react/src/components/app.jsx:39 | Lower-casing keeps the length and lower-cases each character where it stands |
| Text.SameUpToCaseLower | react/src/components/app.jsx:39 | Two strings lower-case to the same string if and only if, position by position, their characters are equal or are the upper- and lower-case forms of one ASCII letter |
| Text.CaseVariantLowerChar | react/src/components/app.jsx:39 | Two characters lower-case alike if and only if they are equal or are the upper- and lower-case forms of one ASCII letter |
| Text.IndexOfFrom | react/src/components/app.jsx:39 | The result is -1 or a position at or after the start where the needle occurs. No earlier position at or after the start has an occurrence. On -1, no position at or after the start has one |
| Text.IndexOf | react/src/components/app.jsx:39 | `indexOf` is -1 exactly when the needle is not a substring. Otherwise it is the first position where the needle occurs. An empty needle gives 0 |
| Catalog.RenderProduct | react/src/components/app.jsx:13-29 | The product line shows the product's name and price. The name is styled red if and only if the product is not stocked |
| ProductTable.KeepsMeaning | react/src/components/app.jsx:39-44 | A product passes the filters if and only if its lower-cased name contains the lower-cased search text and, when the stock flag is set, it is stocked |
| ProductTable.Kept | react/src/components/app.jsx:38-44 | The filtered list is no longer than the input, and every product in it passes the filters |
| ProductTable.KeptCounts | react/src/components/app.jsx:38-44 | A product that passes the filters is kept exactly as many times as it occurs in the input; a product that fails them is not kept at all |
| ProductTable.KeptMembers | react/src/components/app.jsx:38-44 | A product is in the filtered list if and only if it is in the input and passes the filters |
| ProductTable.KeptAppend | react/src/components/app.jsx:38-44 | Filtering a concatenation is concatenating the filtered parts, so the relative input order survives |
| ProductTable.BuildFrom | react/src/components/app.jsx:38-62 | Each product contributes at most two rows: its header and its product line |
| ProductTable.BuildFromAppend | react/src/components/app.jsx:36-61 | Running the loop over `a + b` equals running it over `a`, then over `b` starting from the `currentCategory` that `a` left behind |
| ProductTable.LastCategoryIsLastKept | react/src/components/app.jsx:61 | After the loop, `currentCategory` is the category of the last kept product, or its starting value if nothing was kept; skipped products never change it |
| ProductTable.BuildRows | react/src/components/app.jsx:31-62 | The rows the loop builds equal the reference layout of the filtered products, and reading their product lines back gives the filtered list |
| ProductTable.BuildRowsMatchesLayout | react/src/components/app.jsx:36-61 | The loop that starts from a null `currentCategory` produces exactly the reference layout of the kept products |
| ProductTable.LayoutProducts | react/src/components/app.jsx:55-60 | Reading the product lines back out of the layout of a kept list returns that list unchanged |
| ProductTable.LayoutLength | react/src/components/app.jsx:46-61 | The table has one row per kept product plus one per header. There is one header for the first kept product and one for each category change between neighbours |
| ProductTable.LayoutShape | react/src/components/app.jsx:46-61 | Every header is directly followed by a product line of the same category. The table is empty exactly when nothing is kept. A non-empty table starts with the first kept product's header |
| ProductTable.HeaderPlacement | react/src/components/app.jsx:46-53 | The row just before the product line of the k-th kept product is a header exactly when that product is first or its category differs from the previous kept product's. That header names its category |
| ProductTable.RowMembership | react/src/components/app.jsx:38-60 | A product gets a product line if and only if it is in the input, its lower-cased name contains the lower-cased search text, and it is stocked or the stock flag is off |
| ProductTable.ProductLinesCount | react/src/components/app.jsx:55-60 | Each kept product gets as many product lines as it has occurrences in the input, so nothing is duplicated; a dropped product gets none |
| ProductTable.BuildRowsShape | react/src/components/app.jsx:46-61 | In the built table every header is followed by a product line of its category and no two headers are adjacent. The row count is the number of kept products plus the number of category changes. Nothing kept gives an empty table; otherwise the table starts with the first kept product's header |
| ProductTable.SkippedProductIrrelevant | react/src/components/app.jsx:38-61 | Inserting a product that fails the filters anywhere in the input leaves the table unchanged, so it neither causes nor suppresses a header |
| ProductTable.InStockOnlyShowsStocked | react/src/components/app.jsx:42-44 | With the stock flag set, every product line shows a stocked product, and its name is not highlighted |
| ProductTable.StockFilterRefines | react/src/components/app.jsx:42-44 | Setting the stock flag removes exactly the product lines of unstocked products and keeps all the others |
| ProductTable.KeptIgnoresCase | react/src/components/app.jsx:39 | Search texts with the same lower-cased form keep the same products |
| ProductTable.SearchIgnoresCase | react/src/components/app.jsx:39 | Search texts that differ only in letter case build the same table |
| ProductTable.EmptySearchKeepsAll | react/src/components/app.jsx:39 | With an empty search text and the stock flag off, every product is kept in order, and the table lists all of them |
| FilterableProductTable.Initial | react/src/components/app.jsx:121-124 | The initial state has an empty search text and the stock filter off |
| FilterableProductTable.HandleSearchTextChange | react/src/components/app.jsx:130-132 | The new state has the given search text and the old stock flag |
| FilterableProductTable.HandleInStockOnlyChange | react/src/components/app.jsx:134-136 | The new state has the given stock flag and the old search text |
| FilterableProductTable.InitialShowsAll | react/src/components/app.jsx:121-124 | In the initial state the rendered table lists every product in input order |
| FilterableProductTable.HandlersIndependent | react/src/components/app.jsx:130-136 | The two handlers commute. Applying the same handler twice keeps only the last value |
| FilterableProductTable.SearchCaseChangeInvisible | react/src/components/app.jsx:130-132 | Replacing the search text with the same text in another letter case leaves the rendered table unchanged |
| FilterableProductTable.StockFilterHidesHighlighted | react/src/components/app.jsx:134-136 | After the stock filter is switched on, no rendered product is out of stock or shown in red |
| TableScenarios.ReappearingCategoryGetsHeader | react/src/components/app.jsx:46-61 | Worked case: a category that returns after another kept category gets a fresh header |
| TableScenarios.SkippedProductDoesNotSplitCategory | react/src/components/app.jsx:39-61 | Worked case: an unstocked product between two products of one category, dropped by the stock filter, does not cause a second header |

## Left out

- Text.Lower: JavaScript's `toLowerCase` is full Unicode case mapping; the model lower-cases ASCII letters only and leaves other characters as they are.
- Text.IndexOf: JavaScript positions count UTF-16 code units while the model counts Dafny characters, so positions after a character outside the Basic Multilingual Plane differ; the filter only compares the result with -1, which does not depend on this.
- JSX and DOM rendering, React `key` props and reconciliation: rows are a datatype, not rendered elements. `ProductCategoryRow` (lines 3-11) is just the `CategoryRow` constructor.
- `SearchBar` (lines 79-116): it only forwards input events to the two handlers, and its `console.log` is output only.
- `Render` has no contract of its own. It passes the state's two fields to `BuildRows`, and the lemmas about it are listed above.
- `product.category !== currentCategory` is modelled as inequality of `Option<string>` values. This assumes every category is a string, never `null` or `undefined`.
- `webrtc/app/public/index.js`, `webrtc/app/app.js`, `bitcoin/rpc.py` and `react/webpack.config.js` are not part of this model. They are calls into the browser's `RTCPeerConnection`, socket.io, Express, an external Bitcoin RPC library and build configuration, with no logic of their own to state.
