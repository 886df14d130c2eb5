/**
 The row builder of `ProductTable` (react/src/components/app.jsx): one pass
 over the product list that drops the products failing the search or the
 stock filter and puts a category header in front of a kept product whenever
 its category differs from that of the product kept before it.

 `BuildRows` follows the source's loop, carrying `currentCategory` from one
 product to the next. `Layout(Kept(...))` is an independent description of
 the same table: filter first, then decide each header by looking at the
 kept product just before. `BuildRowsMatchesLayout` proves the two agree, and
 the remaining lemmas state the shape of the table through either one.
 */
module ProductTable {
  import opened Wrappers
  import opened Text
  import opened Catalog

  // ---------------------------------------------------------------------------
  // The filters

  /**
   A product survives the filters when its lower-cased name contains the
   lower-cased search text and, if only stocked products are wanted, it is
   stocked.
   */
  predicate Keeps(p: Product, searchText: string, inStockOnly: bool)
  {
    if IndexOf(Lower(p.name), Lower(searchText)) == -1 then false
    else if inStockOnly && !p.stocked then false
    else true
  }

  /** What the two filters mean: a case-insensitive substring match, and the stock flag. */
  lemma KeepsMeaning(p: Product, searchText: string, inStockOnly: bool)
    ensures Keeps(p, searchText, inStockOnly)
        <==> Contains(Lower(p.name), Lower(searchText)) && (!inStockOnly || p.stocked)
  {
  }

  /** The products that survive the filters, in input order, each occurrence kept once. */
  function Kept(ps: seq<Product>, searchText: string, inStockOnly: bool): (r: seq<Product>)
    ensures |r| <= |ps|
    ensures forall i {:trigger Keeps(r[i], searchText, inStockOnly)} :: 0 <= i < |r| ==> Keeps(r[i], searchText, inStockOnly)
  {
    if |ps| == 0 then []
    else
      (if Keeps(ps[0], searchText, inStockOnly) then [ps[0]] else []) + Kept(ps[1..], searchText, inStockOnly)
  }

  /** Every kept occurrence of a product is kept once; a product failing the filters not at all. */
  lemma {:induction false} KeptCounts(ps: seq<Product>, searchText: string, inStockOnly: bool, p: Product)
    ensures multiset(Kept(ps, searchText, inStockOnly))[p] == if Keeps(p, searchText, inStockOnly) then multiset(ps)[p] else 0
    decreases |ps|
  {
    if |ps| > 0 {
      var x, tail := ps[0], ps[1..];
      var rest := Kept(tail, searchText, inStockOnly);
      KeptCounts(tail, searchText, inStockOnly, p);
      assert ps == [x] + tail;
      assert multiset(ps)[p] == multiset([x])[p] + multiset(tail)[p];
      if Keeps(x, searchText, inStockOnly) {
        assert Kept(ps, searchText, inStockOnly) == [x] + rest;
        assert multiset(Kept(ps, searchText, inStockOnly))[p] == multiset([x])[p] + multiset(rest)[p];
      } else {
        assert Kept(ps, searchText, inStockOnly) == rest;
      }
    }
  }

  /** A product is in the filtered list exactly when it is in the input and passes the filters. */
  lemma KeptMembers(ps: seq<Product>, searchText: string, inStockOnly: bool, p: Product)
    ensures p in Kept(ps, searchText, inStockOnly) <==> p in ps && Keeps(p, searchText, inStockOnly)
  {
    KeptCounts(ps, searchText, inStockOnly, p);
    assert p in Kept(ps, searchText, inStockOnly) <==> multiset(Kept(ps, searchText, inStockOnly))[p] > 0;
    assert p in ps <==> multiset(ps)[p] > 0;
  }

  /** Filtering distributes over concatenation: the relative order of the input is kept. */
  lemma {:induction false} KeptAppend(a: seq<Product>, b: seq<Product>, searchText: string, inStockOnly: bool)
    ensures Kept(a + b, searchText, inStockOnly) == Kept(a, searchText, inStockOnly) + Kept(b, searchText, inStockOnly)
    decreases |a|
  {
    if |a| == 0 {
      assert a + b == b;
    } else {
      var head: seq<Product> := if Keeps(a[0], searchText, inStockOnly) then [a[0]] else [];
      assert (a + b)[0] == a[0] && (a + b)[1..] == a[1..] + b;
      KeptAppend(a[1..], b, searchText, inStockOnly);
      calc {
        Kept(a + b, searchText, inStockOnly);
        head + Kept(a[1..] + b, searchText, inStockOnly);
        head + (Kept(a[1..], searchText, inStockOnly) + Kept(b, searchText, inStockOnly));
        (head + Kept(a[1..], searchText, inStockOnly)) + Kept(b, searchText, inStockOnly);
        Kept(a, searchText, inStockOnly) + Kept(b, searchText, inStockOnly);
      }
    }
  }

  // ---------------------------------------------------------------------------
  // The builder, as the source writes it

  /**
   The rows the loop pushes for `ps` when the category of the last kept
   product so far is `current` (`None` before any product was kept).
   */
  function BuildFrom(ps: seq<Product>, searchText: string, inStockOnly: bool, current: Option<string>): (rows: seq<Row>)
    ensures |rows| <= 2 * |ps|
  {
    if |ps| == 0 then []
    else
      var p := ps[0];
      if !Keeps(p, searchText, inStockOnly) then
        BuildFrom(ps[1..], searchText, inStockOnly, current)
      else
        var header := if current != Some(p.category) then [CategoryRow(p.category)] else [];
        header + [ProductRow(p)] + BuildFrom(ps[1..], searchText, inStockOnly, Some(p.category))
  }

  /** The value of `currentCategory` after the loop has run over `ps`, starting from `current`. */
  function LastCategory(ps: seq<Product>, searchText: string, inStockOnly: bool, current: Option<string>): Option<string>
  {
    if |ps| == 0 then current
    else
      var next := if Keeps(ps[0], searchText, inStockOnly) then Some(ps[0].category) else current;
      LastCategory(ps[1..], searchText, inStockOnly, next)
  }

  // ---------------------------------------------------------------------------
  // The reference description of the table

  /** A header precedes `kept[k]` when it is the first kept product or its category differs from its predecessor's. */
  predicate NeedsHeader(kept: seq<Product>, k: int)
    requires 0 <= k < |kept|
  {
    k == 0 || kept[k - 1].category != kept[k].category
  }

  /** The rows contributed by `kept[k]`: its header, if due, and its product line. */
  function Block(kept: seq<Product>, k: int): seq<Row>
    requires 0 <= k < |kept|
  {
    (if NeedsHeader(kept, k) then [CategoryRow(kept[k].category)] else []) + [ProductRow(kept[k])]
  }

  /** The table for an already filtered list: the blocks of its products, in order. */
  function Layout(kept: seq<Product>): seq<Row>
  {
    if |kept| == 0 then []
    else Layout(kept[..|kept| - 1]) + Block(kept, |kept| - 1)
  }

  /** The products shown by the product lines of `rows`, in order. */
  function ProductsOf(rows: seq<Row>): (r: seq<Product>)
    ensures |r| <= |rows|
  {
    if |rows| == 0 then []
    else
      (if rows[0].ProductRow? then [rows[0].product] else []) + ProductsOf(rows[1..])
  }

  /** A product is listed exactly when one of the rows is its product line. */
  lemma {:induction false} ProductsOfMembers(rows: seq<Row>, p: Product)
    ensures p in ProductsOf(rows) <==> ProductRow(p) in rows
    decreases |rows|
  {
    if |rows| > 0 {
      ProductsOfMembers(rows[1..], p);
      assert rows == [rows[0]] + rows[1..];
    }
  }

  lemma {:induction false} ProductsOfAppend(a: seq<Row>, b: seq<Row>)
    ensures ProductsOf(a + b) == ProductsOf(a) + ProductsOf(b)
    decreases |a|
  {
    if |a| == 0 {
      assert a + b == b;
    } else {
      var head: seq<Product> := if a[0].ProductRow? then [a[0].product] else [];
      assert (a + b)[0] == a[0];
      assert (a + b)[1..] == a[1..] + b;
      ProductsOfAppend(a[1..], b);
      assert ProductsOf(a + b) == head + ProductsOf(a[1..] + b);
      assert ProductsOf(a) == head + ProductsOf(a[1..]);
    }
  }

  /** The number of category switches between neighbouring products of `kept`. */
  function Switches(kept: seq<Product>): nat
  {
    if |kept| < 2 then 0
    else (if kept[0].category != kept[1].category then 1 else 0) + Switches(kept[1..])
  }

  /** The number of headers the table of `kept` needs: one for the first product, one per switch. */
  function HeaderCount(kept: seq<Product>): nat
  {
    if |kept| == 0 then 0 else 1 + Switches(kept)
  }

  lemma {:induction false} SwitchesSnoc(kept: seq<Product>, p: Product)
    requires |kept| > 0
    ensures Switches(kept + [p]) == Switches(kept) + (if kept[|kept| - 1].category != p.category then 1 else 0)
    decreases |kept|
  {
    if |kept| == 1 {
      assert (kept + [p])[1..] == [p];
    } else {
      assert (kept + [p])[1..] == kept[1..] + [p];
      SwitchesSnoc(kept[1..], p);
    }
  }

  // ---------------------------------------------------------------------------
  // The builder agrees with the reference

  /** Running the loop over `a + b` is running it over `a`, then over `b` from where `a` left off. */
  lemma {:induction false} BuildFromAppend(a: seq<Product>, b: seq<Product>, searchText: string, inStockOnly: bool, current: Option<string>)
    ensures BuildFrom(a + b, searchText, inStockOnly, current)
         == BuildFrom(a, searchText, inStockOnly, current)
          + BuildFrom(b, searchText, inStockOnly, LastCategory(a, searchText, inStockOnly, current))
    decreases |a|
  {
    if |a| == 0 {
      assert a + b == b;
    } else {
      assert (a + b)[0] == a[0];
      assert (a + b)[1..] == a[1..] + b;
      var next := if Keeps(a[0], searchText, inStockOnly) then Some(a[0].category) else current;
      BuildFromAppend(a[1..], b, searchText, inStockOnly, next);
    }
  }

  /** `currentCategory` ends as the category of the last kept product, or unchanged if none was kept. */
  lemma {:induction false} LastCategoryIsLastKept(ps: seq<Product>, searchText: string, inStockOnly: bool, current: Option<string>)
    ensures var k := Kept(ps, searchText, inStockOnly);
            LastCategory(ps, searchText, inStockOnly, current) == if |k| == 0 then current else Some(k[|k| - 1].category)
    decreases |ps|
  {
    if |ps| > 0 {
      var p, tail := ps[0], ps[1..];
      var rest := Kept(tail, searchText, inStockOnly);
      if Keeps(p, searchText, inStockOnly) {
        var k := [p] + rest;
        assert LastCategory(ps, searchText, inStockOnly, current) == LastCategory(tail, searchText, inStockOnly, Some(p.category));
        assert Kept(ps, searchText, inStockOnly) == k;
        LastCategoryIsLastKept(tail, searchText, inStockOnly, Some(p.category));
        assert |rest| > 0 ==> k[|k| - 1] == rest[|rest| - 1];
      } else {
        assert LastCategory(ps, searchText, inStockOnly, current) == LastCategory(tail, searchText, inStockOnly, current);
        assert Kept(ps, searchText, inStockOnly) == rest;
        LastCategoryIsLastKept(tail, searchText, inStockOnly, current);
      }
    }
  }

  /**
   The table of `ProductTable`: the loop over all products, starting with no
   current category. It is the reference layout of the kept products.
   */
  function BuildRows(ps: seq<Product>, searchText: string, inStockOnly: bool): (rows: seq<Row>)
    ensures rows == Layout(Kept(ps, searchText, inStockOnly))
    ensures ProductsOf(rows) == Kept(ps, searchText, inStockOnly)
  {
    BuildRowsMatchesLayout(ps, searchText, inStockOnly);
    LayoutProducts(Kept(ps, searchText, inStockOnly));
    BuildFrom(ps, searchText, inStockOnly, None)
  }

  /** The loop's effect on a single product: nothing, or its header (if due) and its product line. */
  lemma BuildFromSingle(p: Product, searchText: string, inStockOnly: bool, current: Option<string>)
    ensures BuildFrom([p], searchText, inStockOnly, current)
         == if !Keeps(p, searchText, inStockOnly) then []
            else (if current != Some(p.category) then [CategoryRow(p.category)] else []) + [ProductRow(p)]
  {
  }

  /** Appending one product to a kept list appends its block to the layout. */
  lemma {:induction false} LayoutSnoc(before: seq<Product>, p: Product)
    ensures Layout(before + [p])
         == Layout(before)
          + (if |before| == 0 || before[|before| - 1].category != p.category then [CategoryRow(p.category)] else [])
          + [ProductRow(p)]
  {
    assert (before + [p])[..|before|] == before;
  }

  lemma {:induction false} BuildRowsMatchesLayout(ps: seq<Product>, searchText: string, inStockOnly: bool)
    ensures BuildFrom(ps, searchText, inStockOnly, None) == Layout(Kept(ps, searchText, inStockOnly))
    decreases |ps|
  {
    if |ps| > 0 {
      var init, p := ps[..|ps| - 1], ps[|ps| - 1];
      assert ps == init + [p];
      var before := Kept(init, searchText, inStockOnly);
      var c := LastCategory(init, searchText, inStockOnly, None);
      BuildRowsMatchesLayout(init, searchText, inStockOnly);
      BuildFromAppend(init, [p], searchText, inStockOnly, None);
      KeptAppend(init, [p], searchText, inStockOnly);
      LastCategoryIsLastKept(init, searchText, inStockOnly, None);
      BuildFromSingle(p, searchText, inStockOnly, c);
      assert BuildFrom(ps, searchText, inStockOnly, None) == Layout(before) + BuildFrom([p], searchText, inStockOnly, c);
      assert [p][1..] == [];
      if Keeps(p, searchText, inStockOnly) {
        assert Kept([p], searchText, inStockOnly) == [p];
        LayoutSnoc(before, p);
      } else {
        assert Kept([p], searchText, inStockOnly) == [];
        assert before + [] == before;
        assert Layout(before) + [] == Layout(before);
      }
    }
  }

  // ---------------------------------------------------------------------------
  // Properties of the reference layout

  /** Reading the product lines back out of the layout gives the kept list. */
  lemma {:induction false} LayoutProducts(kept: seq<Product>)
    ensures ProductsOf(Layout(kept)) == kept
    decreases |kept|
  {
    if |kept| > 0 {
      var n := |kept|;
      LayoutProducts(kept[..n - 1]);
      ProductsOfAppend(Layout(kept[..n - 1]), Block(kept, n - 1));
      var hdr: seq<Row> := if NeedsHeader(kept, n - 1) then [CategoryRow(kept[n - 1].category)] else [];
      ProductsOfAppend(hdr, [ProductRow(kept[n - 1])]);
      assert ProductsOf(hdr) == [];
      assert kept == kept[..n - 1] + [kept[n - 1]];
    }
  }

  /** One row per product plus one per header. */
  lemma {:induction false} LayoutLength(kept: seq<Product>)
    ensures |Layout(kept)| == |kept| + HeaderCount(kept)
    decreases |kept|
  {
    if |kept| > 1 {
      var n := |kept|;
      LayoutLength(kept[..n - 1]);
      assert kept == kept[..n - 1] + [kept[n - 1]];
      SwitchesSnoc(kept[..n - 1], kept[n - 1]);
    }
  }

  /**
   Every header is followed by a product line of its category (so no two
   headers are adjacent and the table never ends in a header), and a
   non-empty table starts with the header of its first product.
   */
  lemma {:induction false} LayoutShape(kept: seq<Product>)
    ensures var rows := Layout(kept);
            && (forall i :: 0 <= i < |rows| && rows[i].CategoryRow? ==>
                  i + 1 < |rows| && rows[i + 1].ProductRow? && rows[i + 1].product.category == rows[i].category)
            && (|rows| == 0 <==> |kept| == 0)
            && (|kept| > 0 ==> rows[0] == CategoryRow(kept[0].category))
    decreases |kept|
  {
    if |kept| > 0 {
      var n := |kept|;
      var front := Layout(kept[..n - 1]);
      LayoutShape(kept[..n - 1]);
      var rows := Layout(kept);
      assert rows == front + Block(kept, n - 1);
      forall i | 0 <= i < |rows| && rows[i].CategoryRow?
        ensures i + 1 < |rows| && rows[i + 1].ProductRow? && rows[i + 1].product.category == rows[i].category
      {
        if i < |front| {
          assert front[i].CategoryRow?;
        }
      }
      if n > 1 {
        assert kept[..n - 1][0] == kept[0];
      }
    }
  }

  /** The layout of a prefix of `kept` is a prefix of the layout of `kept`. */
  lemma {:induction false} LayoutPrefix(kept: seq<Product>, m: nat)
    requires m <= |kept|
    ensures Layout(kept[..m]) <= Layout(kept)
    decreases |kept|
  {
    if m < |kept| {
      var n := |kept|;
      assert kept[..n - 1][..m] == kept[..m];
      LayoutPrefix(kept[..n - 1], m);
    } else {
      assert kept[..m] == kept;
    }
  }

  /** Where the product line of `kept[k]` sits in the layout. */
  function RowPosition(kept: seq<Product>, k: int): nat
    requires 0 <= k < |kept|
  {
    |Layout(kept[..k])| + if NeedsHeader(kept, k) then 1 else 0
  }

  /**
   The product line of `kept[k]` is preceded by a header exactly when a
   header is due, and that header names its category.
   */
  lemma HeaderPlacement(kept: seq<Product>, k: int)
    requires 0 <= k < |kept|
    ensures var rows, at := Layout(kept), RowPosition(kept, k);
            && at < |rows|
            && rows[at] == ProductRow(kept[k])
            && ((at > 0 && rows[at - 1].CategoryRow?) <==> NeedsHeader(kept, k))
            && (NeedsHeader(kept, k) ==> rows[at - 1] == CategoryRow(kept[k].category))
  {
    var rows, front := Layout(kept), Layout(kept[..k]);
    var upto := kept[..k + 1];
    LayoutPrefix(kept, k + 1);
    assert upto[..k] == kept[..k];
    assert Block(upto, k) == Block(kept, k);
    assert Layout(upto) == front + Block(kept, k);
    if !NeedsHeader(kept, k) {
      assert k > 0;
      assert kept[..k][..k - 1] == kept[..k - 1];
      assert front == Layout(kept[..k - 1]) + Block(kept[..k], k - 1);
      assert rows[|front| - 1] == front[|front| - 1] == ProductRow(kept[k - 1]);
    }
  }

  // ---------------------------------------------------------------------------
  // Properties of the built table

  /** A product gets a product line exactly when it is in the input and survives the filters. */
  lemma RowMembership(ps: seq<Product>, searchText: string, inStockOnly: bool, p: Product)
    ensures ProductRow(p) in BuildRows(ps, searchText, inStockOnly)
        <==> p in ps && Contains(Lower(p.name), Lower(searchText)) && (!inStockOnly || p.stocked)
  {
    ProductsOfMembers(BuildRows(ps, searchText, inStockOnly), p);
    KeptMembers(ps, searchText, inStockOnly, p);
    KeepsMeaning(p, searchText, inStockOnly);
  }

  /** The product lines list every kept occurrence exactly once, in input order. */
  lemma ProductLinesCount(ps: seq<Product>, searchText: string, inStockOnly: bool, p: Product)
    ensures multiset(ProductsOf(BuildRows(ps, searchText, inStockOnly)))[p]
         == if Keeps(p, searchText, inStockOnly) then multiset(ps)[p] else 0
  {
    KeptCounts(ps, searchText, inStockOnly, p);
  }

  /**
   The built table's shape: headers are followed by a product line of their
   category, never by another header; it has one row per kept product plus
   one per category change; and nothing kept means no rows.
   */
  lemma BuildRowsShape(ps: seq<Product>, searchText: string, inStockOnly: bool)
    ensures var rows, kept := BuildRows(ps, searchText, inStockOnly), Kept(ps, searchText, inStockOnly);
            && (forall i :: 0 <= i < |rows| && rows[i].CategoryRow? ==>
                  i + 1 < |rows| && rows[i + 1].ProductRow? && rows[i + 1].product.category == rows[i].category)
            && (forall i :: 0 <= i < |rows| - 1 ==> !(rows[i].CategoryRow? && rows[i + 1].CategoryRow?))
            && |rows| == |kept| + HeaderCount(kept)
            && (|kept| == 0 ==> rows == [])
            && (|kept| > 0 ==> rows[0] == CategoryRow(kept[0].category))
  {
    var kept := Kept(ps, searchText, inStockOnly);
    LayoutShape(kept);
    LayoutLength(kept);
  }

  /** A product that fails the filters changes nothing, wherever it stands: it neither causes nor suppresses a header. */
  lemma SkippedProductIrrelevant(a: seq<Product>, p: Product, b: seq<Product>, searchText: string, inStockOnly: bool)
    requires !Keeps(p, searchText, inStockOnly)
    ensures BuildRows(a + [p] + b, searchText, inStockOnly) == BuildRows(a + b, searchText, inStockOnly)
  {
    KeptAppend(a + [p], b, searchText, inStockOnly);
    KeptAppend(a, [p], searchText, inStockOnly);
    KeptAppend(a, b, searchText, inStockOnly);
    assert Kept([p], searchText, inStockOnly) == [];
    assert Kept(a, searchText, inStockOnly) + [] == Kept(a, searchText, inStockOnly);
  }

  /** With the stock filter on, every product line shows a stocked product and no name is highlighted. */
  lemma InStockOnlyShowsStocked(ps: seq<Product>, searchText: string)
    ensures var rows := BuildRows(ps, searchText, true);
            forall i :: 0 <= i < |rows| && rows[i].ProductRow? ==>
              rows[i].product.stocked && RenderProduct(rows[i].product).name.Plain?
  {
    var rows := BuildRows(ps, searchText, true);
    forall i | 0 <= i < |rows| && rows[i].ProductRow?
      ensures rows[i].product.stocked
    {
      RowMembership(ps, searchText, true, rows[i].product);
    }
  }

  /** Turning the stock filter on removes exactly the unstocked product lines. */
  lemma StockFilterRefines(ps: seq<Product>, searchText: string, p: Product)
    ensures ProductRow(p) in BuildRows(ps, searchText, true)
        <==> ProductRow(p) in BuildRows(ps, searchText, false) && p.stocked
  {
    RowMembership(ps, searchText, true, p);
    RowMembership(ps, searchText, false, p);
  }

  /** The search ignores letter case: search texts that differ only in case build the same table. */
  lemma {:induction false} SearchIgnoresCase(ps: seq<Product>, s1: string, s2: string, inStockOnly: bool)
    requires SameUpToCase(s1, s2)
    ensures BuildRows(ps, s1, inStockOnly) == BuildRows(ps, s2, inStockOnly)
  {
    SameUpToCaseLower(s1, s2);
    KeptIgnoresCase(ps, s1, s2, inStockOnly);
  }

  lemma {:induction false} KeptIgnoresCase(ps: seq<Product>, s1: string, s2: string, inStockOnly: bool)
    requires Lower(s1) == Lower(s2)
    ensures Kept(ps, s1, inStockOnly) == Kept(ps, s2, inStockOnly)
    decreases |ps|
  {
    if |ps| > 0 {
      KeptIgnoresCase(ps[1..], s1, s2, inStockOnly);
    }
  }

  /** With an empty search and no stock filter every product is kept, in order, and the table lists them all. */
  lemma {:induction false} EmptySearchKeepsAll(ps: seq<Product>)
    ensures Kept(ps, "", false) == ps
    ensures ProductsOf(BuildRows(ps, "", false)) == ps
    decreases |ps|
  {
    if |ps| > 0 {
      var x, tail := ps[0], ps[1..];
      EmptySearchKeepsAll(tail);
      assert Lower("") == "";
      assert IndexOf(Lower(x.name), "") == 0;
      assert Kept(ps, "", false) == [x] + Kept(tail, "", false);
      assert ps == [x] + tail;
    }
  }
}
