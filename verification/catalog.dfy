/**
 The entities the product table works on: a product record, the two kinds
 of table row, and the rendered cells of a product row.
 */
module Catalog {

  /** One entry of the product list. `price` is shown verbatim, never computed with. */
  datatype Product = Product(name: string, category: string, price: string, stocked: bool)

  /** A table row: a category header or a product line. */
  datatype Row = CategoryRow(category: string) | ProductRow(product: Product)

  /** The name cell of a product line: plain, or styled red. */
  datatype NameCell = Plain(text: string) | Red(text: string)

  /** The two cells a product line shows. */
  datatype ProductLine = ProductLine(name: NameCell, price: string)

  /** Renders a product line: the name is highlighted exactly when the product is out of stock. */
  function RenderProduct(p: Product): (line: ProductLine)
    ensures line.name.text == p.name && line.price == p.price
    ensures line.name.Red? <==> !p.stocked
  {
    var name := if !p.stocked then Red(p.name) else Plain(p.name);
    ProductLine(name, p.price)
  }
}
