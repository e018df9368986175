/**
 Persistence of crawled items (`db.save_products`): an empty batch is
 answered locally; otherwise every item becomes one row of the `products`
 table, tagged with its source and without the image list, and the rows
 are handed to the database in one insert.
 */
module Storage {
  import Crawl

  /** The table the rows go to. */
  const ProductsTable := "products"

  /** One row of the `products` table. */
  datatype Row = Row(brand: string, name: string, size: string, price: string, note: string, url: string, source: string)

  /**
   What `save_products` does: answer `{"data": [], "count": 0}` itself, or
   issue an insert of `rows` into `table` (whose response is the database's
   and is not modelled).
   */
  datatype Save =
    | Answered(data: seq<Row>, count: nat)
    | Insert(table: string, rows: seq<Row>)

  /** The row the list comprehension builds for one item. */
  function RowOf(item: Crawl.ProductItem, source: string): Row {
    Row(item.brand, item.name, item.size, item.price, item.note, item.url, source)
  }

  /** A row read back with the images it was stored without. */
  function ItemOf(row: Row, images: seq<string>): Crawl.ProductItem {
    Crawl.ProductItem(row.brand, row.name, row.size, row.price, row.note, row.url, images)
  }

  /** A row keeps every field of its item except the images, which is all that is lost. */
  lemma RowRoundTrip(item: Crawl.ProductItem, source: string)
    ensures ItemOf(RowOf(item, source), item.images) == item
    ensures RowOf(item, source).source == source
  {
  }

  /** Two items with the same row differ at most in their images. */
  lemma RowOfInjective(a: Crawl.ProductItem, b: Crawl.ProductItem, source: string)
    requires RowOf(a, source) == RowOf(b, source)
    ensures a.(images := b.images) == b
  {
    RowRoundTrip(a, source);
    RowRoundTrip(b, source);
  }

  /**
   `save_products(items, source)`: for an empty list, the local answer with
   no data and a zero count; otherwise an insert into `products` of one row
   per item, in item order, each carrying `source`.
   */
  method SaveProducts(items: seq<Crawl.ProductItem>, source: string := "") returns (r: Save)
    ensures items == [] <==> r == Answered([], 0)
    ensures items != [] ==> r.Insert? && r.table == ProductsTable && |r.rows| == |items|
    ensures r.Insert? ==> forall k :: 0 <= k < |items| ==>
      r.rows[k].source == source && ItemOf(r.rows[k], items[k].images) == items[k]
  {
    if items == [] {
      return Answered([], 0);
    }
    var rows: seq<Row> := [];
    var k := 0;
    while k < |items|
      invariant k <= |items|
      invariant |rows| == k
      invariant forall j :: 0 <= j < k ==> rows[j] == RowOf(items[j], source)
    {
      rows := rows + [RowOf(items[k], source)];
      k := k + 1;
    }
    return Insert(ProductsTable, rows);
  }
}
