/** A product as the CSV loader delivers it: one row of the catalogue, keyed
    by the header line. Only the columns the search helpers read are kept. */
module Products {
  import opened Wrappers

  /** A catalogue row. A cell is None when the row has no such column. */
  datatype Product = Product(
    title: Option<string>,
    description: Option<string>,
    brand: Option<string>,
    categories: Option<string>,
    images: Option<string>)
}
