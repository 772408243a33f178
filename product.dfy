/** The product record that the queries return. */
module Products {
  import opened Wrappers
  import opened Jvm

  /** A timestamp, kept opaque: the model never looks inside one. */
  type DateTime = string

  /** A product as the application sees it; every field may be null. */
  datatype Product = Product(
    id: Option<Int64>,
    title: Option<string>,
    handle: Option<string>,
    vendor: Option<string>,
    productType: Option<string>,
    publishedAt: Option<DateTime>,
    createdAt: Option<DateTime>,
    updatedAt: Option<DateTime>)
}
