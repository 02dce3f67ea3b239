/** The records of the catalog (src/app/models/interfaces.ts). Numbers that
    the code only compares are `real`; identifiers are `int`. */
module Models {
  import opened Wrappers

  /** The `rating` record of a remote product. */
  datatype Rating = Rating(rate: real, count: int)

  /** A product as the remote catalog returns it. */
  datatype Product = Product(
    id: int,
    title: string,
    price: real,
    description: string,
    category: string,
    image: string,
    rating: Rating)

  /** The flattened display record; only the inlined image is optional and
      the rating is the single rate value. */
  datatype CatalogItem = CatalogItem(
    id: int,
    title: string,
    description: string,
    image: string,
    imageBase64: Option<string>,
    category: string,
    price: real,
    rating: real)

  /** One two-sided flipbook page: the front is always present, the back
      is absent on the last page of an odd-length catalog. */
  datatype FlipbookPage = FlipbookPage(
    id: int,
    frontContent: CatalogItem,
    backContent: Option<CatalogItem>,
    isFlipped: bool)
}
