# Product catalog record store, modelled in Dafny

This project models the record-store core of a small Spring/JPA catalog
backend: the `ProductServiceImpl` operations `read`, `register`, `modify`
and `remove` over a product table and a read-only category table, and the
`Product` entity with its field constraints.

- `wrappers.dfy` (`Wrappers`): `Option` for Java nulls and empty `Optional`s,
  `Result`/`Outcome` for returns that may instead throw.
- `product.dfy` (`ProductEntity`): the `Product` record (every nullable Java
  field is an `Option`), the no-argument constructor, and the validity
  predicate: name present and 8 to 50 characters long, description at most
  100 characters.
- `product_dto.dfy` (`ProductDto`): the transport record and the two
  conversions `entityToDto` and `dtoToEntity`, with their round trips.
- `catalog.dfy` (`Catalog`): the store as a value (`Store`: product rows,
  the IDENTITY counter, category rows), its invariant `Inv`, the repository's
  `save`, and one function per service operation. Their contracts state the
  outcomes: presence and absence, the error cases, the all-or-nothing update
  and what stays unchanged. `Run` applies any sequence of calls and keeps the
  invariant. Lemmas relate the operations to one another: read after
  register, read after modify, modify is idempotent, read and remove after
  remove, and a deleted identifier is never handed out again.
- `product_service.dfy` (`ProductService`): the class `ProductServiceImpl`.
  The product table and the counter are mutable fields. The category table
  is a `const`. Each method follows the Java method step by step and is
  proved to produce the state and outcome of the matching `Catalog` function.
  `modify` copies the fetched record, sets name and price, looks up the
  category, sets category and description, and commits through one `save`
  at the end. So an unresolved category leaves the table untouched.

Behaviour of the surrounding framework that the model makes explicit:

- `findById(null)` and `deleteById(null)` throw `IllegalArgumentException`
  in Spring Data. The model turns this into the error `IdMustNotBeNull`,
  returned by `read`, `modify` and `remove`. `modify` has two such lookups:
  the product identifier and the category identifier.
- `save` inserts a record whose identifier is null or not stored, under the
  next IDENTITY value. It merges a record whose identifier is stored over
  that row. Identity values only grow, so a deleted identifier is never
  reused.
- `save` refuses a record that breaks the entity constraints: `@NotNull`,
  `@Size(min=8, max=50)` and the 100-character description column. This is
  the error `ConstraintViolation`, and nothing is written.
- `modify` on a missing record does nothing and raises no error. `register`
  never attaches a category.
- `Product.java` has no `@Min` or `@PositiveOrZero` on `price`, so the model
  puts no lower bound on it.
- `dtoToEntity` copies a DTO identifier that is present. A `register` whose
  DTO names an existing record therefore merges over that record (the
  `save` semantics above) instead of inserting.

## Model

| member | source | states |
|---|---|---|
| `ProductEntity.NoArgsProduct` | src/main/java/com/javalab/product/entity/Product.java:36-60 | the no-argument constructor gives price 0 and the given timestamp, no identifier and no category, and the result is not yet valid |
| `Catalog.StoredRowsMeetConstraints` | src/main/java/com/javalab/product/entity/Product.java:41-57 | after any sequence of service calls every stored row has a non-null name of 8 to 50 characters, a description of at most 100 characters, and a category that resolves in the category table |
| `ProductDto.DtoRoundTrip` | src/main/java/com/javalab/product/service/ProductServiceImpl.java:50-63 | dtoToEntity then entityToDto gives back the DTO, except that the category identifier is dropped |
| `ProductDto.EntityRoundTrip` | src/main/java/com/javalab/product/service/ProductServiceImpl.java:50-63 | entityToDto then dtoToEntity gives back the record, except its category |
| `ProductDto.DtoToEntityValidity` | src/main/java/com/javalab/product/service/ProductServiceImpl.java:62 | the converted record is valid exactly when the DTO's name and description are, and has no category |
| `Catalog.SaveProduct` | src/main/java/com/javalab/product/service/ProductServiceImpl.java:63 | invalid record: error and store unchanged; stored identifier: that row replaced, counter kept; otherwise inserted under a fresh identifier at least the counter; the saved record is stored under its returned identifier; invariant kept |
| `Catalog.Read` | src/main/java/com/javalab/product/service/ProductServiceImpl.java:50-53 | null id: error; otherwise present exactly when the id is stored, and then the converted record carrying the requested id and a valid name |
| `Catalog.Register` | src/main/java/com/javalab/product/service/ProductServiceImpl.java:61-64 | fails exactly when name or description break the constraints, and then nothing changes; else the record with the DTO's name, price, description, no category and the creation time is stored under its returned id; that id is the DTO's own when it names a stored record (which is overwritten, counter kept), and otherwise a fresh one; no other row changes |
| `Catalog.Modify` | src/main/java/com/javalab/product/service/ProductServiceImpl.java:84-98 | any failure leaves the store unchanged; absent id: no-op without error; for a stored id, a null category id fails exactly with IdMustNotBeNull, an unresolved one exactly with CategoryNotFound, and a resolving category with a valid name and description always succeeds; on success the row gets the DTO's name, price, category and description, keeps its id and registration date, and every other row is unchanged |
| `Catalog.Remove` | src/main/java/com/javalab/product/service/ProductServiceImpl.java:103-113 | null id: error; otherwise returns whether the id was stored, the id is absent afterwards, no other row changes, and false means the store is unchanged |
| `Catalog.Step` | src/main/java/com/javalab/product/service/ProductServiceImpl.java:50-113 | every service call keeps the store invariant and the category table, and never moves the identity counter back |
| `Catalog.Run` | src/main/java/com/javalab/product/service/ProductServiceImpl.java:50-113 | after any sequence of service calls the invariant holds (ids match keys, rows valid, categories resolve), the category table is unchanged and the counter has not gone back |
| `Catalog.RegisterThenRead` | src/main/java/com/javalab/product/service/ProductServiceImpl.java:50-64 | reading a just-registered record returns the registered DTO with the generated id and no category |
| `Catalog.ModifyThenRead` | src/main/java/com/javalab/product/service/ProductServiceImpl.java:50-98 | reading a record right after a successful modify returns exactly the modifying DTO, and modify does succeed when the category resolves and name and description are valid |
| `Catalog.ModifyIdempotent` | src/main/java/com/javalab/product/service/ProductServiceImpl.java:84-98 | modifying twice with one DTO has the same store and outcome as modifying once |
| `Catalog.RemoveThenRead` | src/main/java/com/javalab/product/service/ProductServiceImpl.java:50-113 | after remove the id reads as absent, and a second remove returns false and changes nothing |
| `Catalog.RemovedIdNeverReissued` | src/main/java/com/javalab/product/entity/Product.java:36-39 | once a stored record is gone, no later register, after any calls, returns its identifier |
| `ProductService.ProductServiceImpl.constructor` | src/main/java/com/javalab/product/service/ProductServiceImpl.java:28-32 | the service starts on the injected repositories' contents, which satisfy the invariant |
| `ProductService.ProductServiceImpl.Save` | src/main/java/com/javalab/product/service/ProductServiceImpl.java:63 | the table and counter become those of `Catalog.SaveProduct`; only products and counter may change |
| `ProductService.ProductServiceImpl.Read` | src/main/java/com/javalab/product/service/ProductServiceImpl.java:50-53 | returns `Catalog.Read` of the current state and changes nothing |
| `ProductService.ProductServiceImpl.Register` | src/main/java/com/javalab/product/service/ProductServiceImpl.java:61-64 | new state and result are those of `Catalog.Register`; a returned record is stored under its id |
| `ProductService.ProductServiceImpl.Modify` | src/main/java/com/javalab/product/service/ProductServiceImpl.java:84-98 | new state and outcome are those of `Catalog.Modify`; on any failure table and counter are unchanged; categories cannot change |
| `ProductService.ProductServiceImpl.Remove` | src/main/java/com/javalab/product/service/ProductServiceImpl.java:103-113 | new state and result are those of `Catalog.Remove`; returns true exactly when the id was stored, and the id is absent afterwards |

## Left out

- `getList` (ProductServiceImpl.java:36-44): it depends on `PageRequestDTO`, `PageResultDTO` and Spring's `Page`/`Pageable`. Those types are not part of this model, so paging and the productId-descending order are not modelled.
- `entityToDto` and `dtoToEntity`: their bodies are not part of this model. They are taken to be plain field copies. The category crosses only as its identifier, and the clock reading `now` stamps `regDate` on conversion.
- `ProductDTO` and `Category`: their source files are not part of this model. The DTO has the fields the conversions need, and a category has only its identifier.
- `regDate = LocalDateTime.now()`: the clock is a parameter (`now`) and a timestamp is an opaque value.
- 32-bit `Integer` range: identifiers, the IDENTITY counter and prices are unbounded integers. Counter overflow is not modelled.
- String lengths count Dafny characters, not Java's UTF-16 code units. Characters outside the Basic Multilingual Plane are counted once, not twice.
- JPA and Spring machinery: transactions, dirty checking of managed entities, lazy loading of the category, Lombok's builder and all-arguments constructor (no modelled code calls them), and dependency injection beyond handing the two tables to the constructor.
- Exception types and messages: every thrown exception is one `Error` value.
- Commented-out code (ProductServiceImpl.java:66-81 and 116-146).
- Concurrency: each call runs alone against the store.
