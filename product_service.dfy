/** ProductServiceImpl (src/main/java/com/javalab/product/service/ProductServiceImpl.java)
    over in-memory repositories: the product table and its identity counter are
    mutable state, the category table is read-only. Each method follows the
    Java method step by step and is proved to agree with the corresponding
    function of Catalog. */
module ProductService {
  import opened Wrappers
  import opened ProductEntity
  import opened ProductDto
  import Catalog

  class ProductServiceImpl {
    /** productRepository: the rows of tbl_product by identifier. */
    var products: map<int, Product>
    /** The next value of the IDENTITY column. */
    var nextId: int
    /** categoryRepository: the category rows, never written here. */
    const categories: map<int, Category>

    /** The abstract state. */
    function State(): Catalog.Store
      reads this
    {
      Catalog.Store(products, nextId, categories)
    }

    ghost predicate Valid()
      reads this
    {
      Catalog.Inv(State())
    }

    /** Dependency injection of the two repositories, given by their contents. */
    constructor (initial: Catalog.Store)
      requires Catalog.Inv(initial)
      ensures Valid() && State() == initial
    {
      products := initial.products;
      nextId := initial.nextId;
      categories := initial.categories;
    }

    /** `productRepository.save(entity)`: merge over a stored row or insert under a new identifier. */
    method Save(p: Product) returns (r: Result<Product, Catalog.Error>)
      requires Valid() && Catalog.CategoryResolves(categories, p)
      modifies this`products, this`nextId
      ensures Valid()
      ensures (State(), r) == Catalog.SaveProduct(old(State()), p)
    {
      if !ValidProduct(p) {
        return Err(Catalog.ConstraintViolation);
      }
      if p.productId.Some? && p.productId.value in products {
        products := products[p.productId.value := p];
        return Ok(p);
      }
      var saved := p.(productId := Some(nextId));
      products := products[nextId := saved];
      nextId := nextId + 1;
      r := Ok(saved);
    }

    /** `read(productId)`: the converted record, or null when there is none. The store is not touched. */
    method Read(productId: Option<int>) returns (r: Result<Option<ProductDTO>, Catalog.Error>)
      requires Valid()
      ensures r == Catalog.Read(State(), productId)
    {
      if productId.None? {
        return Err(Catalog.IdMustNotBeNull);
      }
      if productId.value in products {
        r := Ok(Some(EntityToDto(products[productId.value])));
      } else {
        r := Ok(None);
      }
    }

    /** `register(dto)`: convert and save; `now` is the clock reading taken by the entity. */
    method Register(dto: ProductDTO, now: Timestamp) returns (r: Result<Product, Catalog.Error>)
      requires Valid()
      modifies this`products, this`nextId
      ensures Valid()
      ensures (State(), r) == Catalog.Register(old(State()), dto, now)
      ensures r.Ok? ==> r.value.productId.Some? && products[r.value.productId.value] == r.value
    {
      var entity := DtoToEntity(dto, now);
      r := Save(entity);
    }

    /** `modify(dto)`: the fetched record is updated field by field in a local
        copy, in the Java order, and committed by the single save at the end. */
    method Modify(dto: ProductDTO) returns (r: Outcome<Catalog.Error>)
      requires Valid()
      modifies this`products, this`nextId
      ensures Valid()
      ensures (State(), r) == Catalog.Modify(old(State()), dto)
      ensures r.Fail? ==> products == old(products) && nextId == old(nextId)
    {
      if dto.productId.None? {
        return Fail(Catalog.IdMustNotBeNull);
      }
      var id := dto.productId.value;
      if id !in products {
        return Pass;
      }
      var existing := products[id];
      existing := existing.(productName := dto.productName);
      existing := existing.(price := dto.price);
      if dto.categoryId.None? {
        return Fail(Catalog.IdMustNotBeNull);
      }
      if dto.categoryId.value !in categories {
        return Fail(Catalog.CategoryNotFound);
      }
      var category := categories[dto.categoryId.value];
      assert category.categoryId == dto.categoryId.value;
      existing := existing.(category := Some(category));
      existing := existing.(description := dto.description);
      var saved := Save(existing);
      r := if saved.Ok? then Pass else Fail(saved.error);
    }

    /** `remove(productId)`: delete the record if present and say whether it was. */
    method Remove(productId: Option<int>) returns (r: Result<bool, Catalog.Error>)
      requires Valid()
      modifies this`products
      ensures Valid()
      ensures (State(), r) == Catalog.Remove(old(State()), productId)
      ensures r.Ok? ==> (r.value <==> productId.value in old(products)) && productId.value !in products
    {
      if productId.None? {
        return Err(Catalog.IdMustNotBeNull);
      }
      if productId.value in products {
        products := products - {productId.value};
        return Ok(true);
      }
      r := Ok(false);
    }
  }
}
