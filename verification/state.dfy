/**
 The state of `FilterableProductTable` (react/src/components/app.jsx): the
 search text and the stock flag, the two handlers that change them, and the
 table the component renders from them.
 */
module FilterableProductTable {
  import opened Text
  import opened Catalog
  import opened ProductTable

  /** The component's state. */
  datatype ViewState = ViewState(searchText: string, inStockOnly: bool)

  /** The state the component starts in: no search text, every product shown. */
  function Initial(): (st: ViewState)
    ensures |st.searchText| == 0 && !st.inStockOnly
  {
    ViewState("", false)
  }

  /** `handleSearchTextChange`: replaces the search text and leaves the stock flag alone. */
  function HandleSearchTextChange(st: ViewState, searchText: string): (st': ViewState)
    ensures st'.searchText == searchText
    ensures st'.inStockOnly == st.inStockOnly
  {
    st.(searchText := searchText)
  }

  /** `handleInStockOnlyChange`: replaces the stock flag and leaves the search text alone. */
  function HandleInStockOnlyChange(st: ViewState, inStockOnly: bool): (st': ViewState)
    ensures st'.inStockOnly == inStockOnly
    ensures st'.searchText == st.searchText
  {
    st.(inStockOnly := inStockOnly)
  }

  /** The rows the component shows for `products` in state `st`. */
  function Render(st: ViewState, products: seq<Product>): seq<Row>
  {
    BuildRows(products, st.searchText, st.inStockOnly)
  }

  /** In the initial state the table lists every product, in order. */
  lemma InitialShowsAll(products: seq<Product>)
    ensures ProductsOf(Render(Initial(), products)) == products
  {
    EmptySearchKeepsAll(products);
  }

  /**
   The two handlers touch different fields, so they commute, and a handler
   applied twice keeps only its last value.
   */
  lemma HandlersIndependent(st: ViewState, searchText: string, inStockOnly: bool, searchText': string, inStockOnly': bool)
    ensures HandleInStockOnlyChange(HandleSearchTextChange(st, searchText), inStockOnly)
         == HandleSearchTextChange(HandleInStockOnlyChange(st, inStockOnly), searchText)
    ensures HandleSearchTextChange(HandleSearchTextChange(st, searchText), searchText')
         == HandleSearchTextChange(st, searchText')
    ensures HandleInStockOnlyChange(HandleInStockOnlyChange(st, inStockOnly), inStockOnly')
         == HandleInStockOnlyChange(st, inStockOnly')
  {
  }

  /** Typing the same search text in another letter case leaves the table unchanged. */
  lemma SearchCaseChangeInvisible(st: ViewState, searchText: string, products: seq<Product>)
    requires SameUpToCase(st.searchText, searchText)
    ensures Render(HandleSearchTextChange(st, searchText), products) == Render(st, products)
  {
    SearchIgnoresCase(products, searchText, st.searchText, st.inStockOnly);
  }

  /** After ticking "only show products in stock", no shown product is out of stock or highlighted. */
  lemma StockFilterHidesHighlighted(st: ViewState, products: seq<Product>)
    ensures var rows := Render(HandleInStockOnlyChange(st, true), products);
            forall i :: 0 <= i < |rows| && rows[i].ProductRow? ==>
              rows[i].product.stocked && !RenderProduct(rows[i].product).name.Red?
  {
    InStockOnlyShowsStocked(products, st.searchText);
  }
}
