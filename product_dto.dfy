/** The transport representation of a product and the two conversions
    `entityToDto` and `dtoToEntity` used by the service. Their bodies live
    outside the modelled files; here they are plain field copies in which the
    category crosses the boundary only as its identifier. */
module ProductDto {
  import opened Wrappers
  import opened ProductEntity

  /** What the presentation layer sends and receives. */
  datatype ProductDTO = ProductDTO(
    productId: Option<int>,
    productName: Option<string>,
    price: Option<int>,
    categoryId: Option<int>,
    description: Option<string>)

  /** The category identifier of a product, if it has a category. */
  function CategoryIdOf(p: Product): Option<int> {
    if p.category.Some? then Some(p.category.value.categoryId) else None
  }

  /** Stored record to transport record: exposes the category only by identifier. */
  function EntityToDto(p: Product): ProductDTO {
    ProductDTO(p.productId, p.productName, p.price, CategoryIdOf(p), p.description)
  }

  /** Transport record to stored record: copies the plain fields, never resolves
      the category, and stamps the record with the creation time `now`. */
  function DtoToEntity(dto: ProductDTO, now: Timestamp): Product {
    Product(dto.productId, dto.productName, dto.price, None, dto.description, now)
  }

  /** A transport record without a category survives dtoToEntity then entityToDto
      unchanged; one with a category loses only the category identifier. */
  lemma DtoRoundTrip(dto: ProductDTO, now: Timestamp)
    ensures EntityToDto(DtoToEntity(dto, now)) == dto.(categoryId := None)
    ensures dto.categoryId.None? ==> EntityToDto(DtoToEntity(dto, now)) == dto
  {
  }

  /** A stored record survives entityToDto then dtoToEntity except for its
      category, which the conversion back never materialises. */
  lemma EntityRoundTrip(p: Product)
    ensures DtoToEntity(EntityToDto(p), p.regDate) == p.(category := None)
  {
  }

  /** dtoToEntity keeps every constraint of the transport record's fields:
      the converted record is valid exactly when the name and description are. */
  lemma DtoToEntityValidity(dto: ProductDTO, now: Timestamp)
    ensures ValidProduct(DtoToEntity(dto, now))
            <==> ValidName(dto.productName) && ValidDescription(dto.description)
    ensures DtoToEntity(dto, now).category.None?
  {
  }
}
