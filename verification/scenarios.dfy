/** Two small tables worked out in full, showing when headers repeat and when they do not. */
module TableScenarios {
  import opened Wrappers
  import opened Catalog
  import opened ProductTable

  const ball := Product("Football", "Sporting Goods", "$49.99", true)
  const phone := Product("iPhone 5", "Electronics", "$399.99", false)
  const bat := Product("Baseball", "Sporting Goods", "$9.99", true)

  /** A category that comes back after another kept category gets a fresh header. */
  lemma ReappearingCategoryGetsHeader()
    ensures BuildRows([ball, phone, bat], "", false)
         == [CategoryRow("Sporting Goods"), ProductRow(ball),
             CategoryRow("Electronics"), ProductRow(phone),
             CategoryRow("Sporting Goods"), ProductRow(bat)]
  {
    var ps := [ball, phone, bat];
    EmptySearchKeepsAll(ps);
    assert ps[1..] == [phone, bat] && [phone, bat][1..] == [bat] && [bat][1..] == [];
    assert Keeps(ball, "", false) && Keeps(phone, "", false) && Keeps(bat, "", false);
    assert BuildFrom([bat], "", false, Some("Electronics")) == [CategoryRow("Sporting Goods"), ProductRow(bat)];
    assert BuildFrom([phone, bat], "", false, Some("Sporting Goods"))
        == [CategoryRow("Electronics"), ProductRow(phone), CategoryRow("Sporting Goods"), ProductRow(bat)];
  }

  /** A product dropped by the stock filter does not split its neighbours' category. */
  lemma SkippedProductDoesNotSplitCategory()
    ensures BuildRows([ball, phone, bat], "", true)
         == [CategoryRow("Sporting Goods"), ProductRow(ball), ProductRow(bat)]
  {
    assert Keeps(ball, "", true) && Keeps(bat, "", true) && !Keeps(phone, "", true);
    assert [ball, phone, bat][1..] == [phone, bat];
    assert [phone, bat][1..] == [bat] && [bat][1..] == [];
    assert BuildFrom([bat], "", true, Some("Sporting Goods")) == [ProductRow(bat)];
    assert BuildFrom([phone, bat], "", true, Some("Sporting Goods")) == [ProductRow(bat)];
  }
}
