/** The `Product` entity (src/main/java/com/javalab/product/entity/Product.java):
    a record with an optional category reference and the field constraints
    that Bean Validation and the column definitions place on it. */
module ProductEntity {
  import opened Wrappers

  /** A wall-clock instant (java.time.LocalDateTime); its contents are opaque here. */
  datatype Timestamp = Timestamp(instant: int)

  /** A category record; only its identifier is visible to this model. */
  datatype Category = Category(categoryId: int)

  /** A stored product. Every reference-typed Java field may be null, hence `Option`. */
  datatype Product = Product(
    productId: Option<int>,
    productName: Option<string>,
    price: Option<int>,
    category: Option<Category>,
    description: Option<string>,
    regDate: Timestamp)

  /** `@Size(min=8, max=50)` on productName. */
  const NameMinLength: nat := 8
  const NameMaxLength: nat := 50
  /** `@Column(length = 100)` on description. */
  const DescriptionMaxLength: nat := 100
  /** The field initialiser `price = 0`. */
  const DefaultPrice: int := 0

  /** `@NotNull` and `@Size(min=8, max=50)`: the name is present and 8 to 50 characters long. */
  predicate ValidName(name: Option<string>) {
    name.Some? && NameMinLength <= |name.value| <= NameMaxLength
  }

  /** A description is optional; when present it fits its 100-character column. */
  predicate ValidDescription(description: Option<string>) {
    description.None? || |description.value| <= DescriptionMaxLength
  }

  /** The constraints a product must meet to be persisted. */
  predicate ValidProduct(p: Product) {
    ValidName(p.productName) && ValidDescription(p.description)
  }

  /** The no-argument constructor: every field null except the two initialisers,
      `price = 0` and `regDate = LocalDateTime.now()` (the clock is the parameter). */
  function NoArgsProduct(now: Timestamp): (p: Product)
    ensures p.price == Some(DefaultPrice) && p.regDate == now
    ensures p.productId.None? && p.category.None?
    ensures !ValidProduct(p)
  {
    Product(None, None, Some(DefaultPrice), None, None, now)
  }
}
