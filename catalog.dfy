/** The record-store operations of ProductServiceImpl as functions over an
    in-memory store: the product table (with its identity counter) and the
    category table. Each function returns the new store and the outcome the
    service returns or throws; the class in ProductService is proved against them. */
module Catalog {
  import opened Wrappers
  import opened ProductEntity
  import opened ProductDto

  /** The exceptions the modelled operations can raise. */
  datatype Error =
    | IdMustNotBeNull      // findById / deleteById given a null identifier
    | CategoryNotFound     // modify: the category lookup came back empty
    | ConstraintViolation  // save: the record breaks Product's constraints

  /** The product table, the next identity value it will hand out, and the category table. */
  datatype Store = Store(products: map<int, Product>, nextId: int, categories: map<int, Category>)

  /** A product's category, when it has one, is the record stored under its identifier. */
  predicate CategoryResolves(categories: map<int, Category>, p: Product) {
    p.category.None?
    || (p.category.value.categoryId in categories
        && categories[p.category.value.categoryId] == p.category.value)
  }

  /** The row under key `k` carries `k` as its identifier, was issued by the
      identity counter, meets the entity constraints and refers to a stored category. */
  predicate StoredAt(s: Store, k: int)
    requires k in s.products
  {
    var p := s.products[k];
    && 1 <= k < s.nextId
    && p.productId == Some(k)
    && ValidProduct(p)
    && CategoryResolves(s.categories, p)
  }

  /** The invariant of every reachable store. */
  predicate Inv(s: Store) {
    && 1 <= s.nextId
    && (forall k :: k in s.products ==> StoredAt(s, k))
    && (forall c :: c in s.categories ==> s.categories[c].categoryId == c)
  }

  /** `productRepository.save(p)`: a record whose identifier is stored is merged
      over that row; any other record is inserted under a freshly generated
      identifier. A record that breaks the entity constraints is refused and
      nothing is written. */
  function SaveProduct(s: Store, p: Product): (out: (Store, Result<Product, Error>))
    requires Inv(s) && CategoryResolves(s.categories, p)
    ensures Inv(out.0) && out.0.categories == s.categories
    ensures out.1.Err? <==> !ValidProduct(p)
    ensures out.1.Err? ==> out == (s, Err(ConstraintViolation))
    ensures out.1.Ok? ==>
              var q := out.1.value;
              && q.productId.Some?
              && q == p.(productId := q.productId)
              && out.0.products == s.products[q.productId.value := q]
    ensures out.1.Ok? && p.productId.Some? && p.productId.value in s.products ==>
              out.1.value.productId == p.productId && out.0.nextId == s.nextId
    ensures out.1.Ok? && !(p.productId.Some? && p.productId.value in s.products) ==>
              out.1.value.productId.value !in s.products
              && s.nextId <= out.1.value.productId.value < out.0.nextId
  {
    if !ValidProduct(p) then
      (s, Err(ConstraintViolation))
    else if p.productId.Some? && p.productId.value in s.products then
      (s.(products := s.products[p.productId.value := p]), Ok(p))
    else
      var q := p.(productId := Some(s.nextId));
      (s.(products := s.products[s.nextId := q], nextId := s.nextId + 1), Ok(q))
  }

  /** `read`: the stored record converted for transport, or null when absent. */
  function Read(s: Store, id: Option<int>): (r: Result<Option<ProductDTO>, Error>)
    requires Inv(s)
    ensures r.Err? <==> id.None?
    ensures r.Err? ==> r.error == IdMustNotBeNull
    ensures r.Ok? ==> (r.value.Some? <==> id.value in s.products)
    ensures r.Ok? && r.value.Some? ==>
              && r.value.value == EntityToDto(s.products[id.value])
              && r.value.value.productId == id
              && ValidName(r.value.value.productName)
  {
    if id.None? then Err(IdMustNotBeNull)
    else if id.value in s.products then
      assert StoredAt(s, id.value);
      Ok(Some(EntityToDto(s.products[id.value])))
    else Ok(None)
  }

  /** `register`: convert the transport record and save it. The category is
      never attached; the stored record keeps every other field of the DTO. */
  function Register(s: Store, dto: ProductDTO, now: Timestamp): (out: (Store, Result<Product, Error>))
    requires Inv(s)
    ensures Inv(out.0) && out.0.categories == s.categories && out.0.nextId >= s.nextId
    ensures out.1.Err? <==> !(ValidName(dto.productName) && ValidDescription(dto.description))
    ensures out.1.Err? ==> out == (s, Err(ConstraintViolation))
    ensures out.1.Ok? ==>
              var p := out.1.value;
              && p.productId.Some?
              && p.productId.value in out.0.products
              && out.0.products[p.productId.value] == p
              && p.productName == dto.productName
              && p.price == dto.price
              && p.description == dto.description
              && p.category.None?
              && p.regDate == now
    ensures out.1.Ok? && dto.productId.Some? && dto.productId.value in s.products ==>
              out.1.value.productId == dto.productId && out.0.nextId == s.nextId
    ensures out.1.Ok? && (dto.productId.None? || dto.productId.value !in s.products) ==>
              s.nextId <= out.1.value.productId.value && out.1.value.productId.value !in s.products
    ensures out.1.Ok? ==>
              out.0.products.Keys == s.products.Keys + {out.1.value.productId.value}
              && forall k :: k in s.products && Some(k) != out.1.value.productId ==>
                               out.0.products[k] == s.products[k]
  {
    SaveProduct(s, DtoToEntity(dto, now))
  }

  /** `modify`: merge name, price, category and description of the DTO into the
      stored record with the DTO's identifier and save it. An absent record is a
      silent no-op; an unresolved category aborts before anything is saved. */
  function Modify(s: Store, dto: ProductDTO): (out: (Store, Outcome<Error>))
    requires Inv(s)
    ensures Inv(out.0) && out.0.categories == s.categories && out.0.nextId == s.nextId
    ensures out.1.Fail? ==> out.0 == s
    ensures dto.productId.None? ==> out.1 == Fail(IdMustNotBeNull)
    ensures dto.productId.Some? && dto.productId.value !in s.products ==> out == (s, Pass)
    ensures dto.productId.Some? && dto.productId.value in s.products ==>
              && (dto.categoryId.None? <==> out.1 == Fail(IdMustNotBeNull))
              && (out.1 == Fail(CategoryNotFound) <==>
                    dto.categoryId.Some? && dto.categoryId.value !in s.categories)
              && (out.1 == Fail(ConstraintViolation) <==>
                    && dto.categoryId.Some? && dto.categoryId.value in s.categories
                    && !(ValidName(dto.productName) && ValidDescription(dto.description)))
    ensures && dto.productId.Some? && dto.productId.value in s.products
            && dto.categoryId.Some? && dto.categoryId.value in s.categories
            && ValidName(dto.productName) && ValidDescription(dto.description)
            ==> out.1 == Pass
    ensures out.1.Pass? && dto.productId.Some? && dto.productId.value in s.products ==>
              var k := dto.productId.value;
              && out.0.products.Keys == s.products.Keys
              && k in out.0.products
              && var before, after := s.products[k], out.0.products[k];
              && after.productName == dto.productName
              && after.price == dto.price
              && CategoryIdOf(after) == dto.categoryId
              && after.description == dto.description
              && after.productId == before.productId
              && after.regDate == before.regDate
              && forall j :: j in s.products && j != k ==> out.0.products[j] == s.products[j]
  {
    if dto.productId.None? then (s, Fail(IdMustNotBeNull))
    else if dto.productId.value !in s.products then (s, Pass)
    else
      assert StoredAt(s, dto.productId.value);
      var named := s.products[dto.productId.value].(productName := dto.productName, price := dto.price);
      if dto.categoryId.None? then (s, Fail(IdMustNotBeNull))
      else if dto.categoryId.value !in s.categories then (s, Fail(CategoryNotFound))
      else
        var category := s.categories[dto.categoryId.value];
        assert category.categoryId == dto.categoryId.value;
        var merged := named.(category := Some(category), description := dto.description);
        var (t, saved) := SaveProduct(s, merged);
        (t, if saved.Ok? then Pass else Fail(saved.error))
  }

  /** `remove`: delete the record if it exists and report whether it did. */
  function Remove(s: Store, id: Option<int>): (out: (Store, Result<bool, Error>))
    requires Inv(s)
    ensures Inv(out.0) && out.0.categories == s.categories && out.0.nextId == s.nextId
    ensures id.None? ==> out == (s, Err(IdMustNotBeNull))
    ensures id.Some? ==> out.1 == Ok(id.value in s.products)
    ensures id.Some? ==> id.value !in out.0.products
    ensures id.Some? ==>
              out.0.products.Keys == s.products.Keys - {id.value}
              && forall k :: k in out.0.products ==> out.0.products[k] == s.products[k]
    ensures out.1 == Ok(false) ==> out.0 == s
  {
    if id.None? then (s, Err(IdMustNotBeNull))
    else if id.value in s.products then (s.(products := s.products - {id.value}), Ok(true))
    else (s, Ok(false))
  }

  /** One call to the service, with its arguments (the clock reading for register). */
  datatype Call =
    | ReadCall(id: Option<int>)
    | RegisterCall(dto: ProductDTO, now: Timestamp)
    | ModifyCall(dto: ProductDTO)
    | RemoveCall(id: Option<int>)

  /** The store after one call, whatever that call returned or threw. */
  function Step(s: Store, c: Call): (t: Store)
    requires Inv(s)
    ensures Inv(t) && t.categories == s.categories && s.nextId <= t.nextId
  {
    match c
    case ReadCall(_) => s
    case RegisterCall(dto, now) => Register(s, dto, now).0
    case ModifyCall(dto) => Modify(s, dto).0
    case RemoveCall(id) => Remove(s, id).0
  }

  /** The store after a sequence of calls: the invariant holds throughout, the
      category table never changes and the identity counter never goes back. */
  function Run(s: Store, calls: seq<Call>): (t: Store)
    requires Inv(s)
    ensures Inv(t) && t.categories == s.categories && s.nextId <= t.nextId
    decreases |calls|
  {
    if calls == [] then s else Run(Step(s, calls[0]), calls[1..])
  }

  /** Whatever sequence of calls produced it, every stored row has a name of
      8 to 50 characters, a description of at most 100 characters, and a
      category (if any) that is the stored category with that identifier. */
  lemma StoredRowsMeetConstraints(s: Store, calls: seq<Call>, k: int)
    requires Inv(s)
    requires k in Run(s, calls).products
    ensures var p := Run(s, calls).products[k];
            && p.productName.Some?
            && NameMinLength <= |p.productName.value| <= NameMaxLength
            && (p.description.Some? ==> |p.description.value| <= DescriptionMaxLength)
            && CategoryResolves(s.categories, p)
  {
  }

  /** Reading back a record just registered gives the DTO that was registered,
      with the generated identifier and without a category. */
  lemma RegisterThenRead(s: Store, dto: ProductDTO, now: Timestamp)
    requires Inv(s)
    ensures var (t, r) := Register(s, dto, now);
            r.Ok? ==> Read(t, r.value.productId)
                      == Ok(Some(dto.(productId := r.value.productId, categoryId := None)))
  {
  }

  /** Reading back a record just modified gives exactly the DTO that modified it. */
  lemma ModifyThenRead(s: Store, dto: ProductDTO)
    requires Inv(s)
    requires dto.productId.Some? && dto.productId.value in s.products
    ensures Modify(s, dto).1.Pass? ==> Read(Modify(s, dto).0, dto.productId) == Ok(Some(dto))
    ensures && dto.categoryId.Some? && dto.categoryId.value in s.categories
            && ValidName(dto.productName) && ValidDescription(dto.description)
            ==> Read(Modify(s, dto).0, dto.productId) == Ok(Some(dto))
  {
  }

  /** Modifying twice with the same DTO has the effect of modifying once. */
  lemma ModifyIdempotent(s: Store, dto: ProductDTO)
    requires Inv(s)
    ensures Modify(Modify(s, dto).0, dto) == Modify(s, dto)
  {
    var (t, r) := Modify(s, dto);
    if r.Pass? && dto.productId.Some? && dto.productId.value in s.products {
      var k := dto.productId.value;
      var merged := t.products[k];
      assert StoredAt(t, k);
      var remerged := merged.(productName := dto.productName, price := dto.price,
        category := Some(t.categories[dto.categoryId.value]), description := dto.description);
      assert remerged == merged;
      assert SaveProduct(t, remerged) == (t.(products := t.products[k := merged]), Ok(merged));
      assert t.products[k := merged] == t.products;
    }
  }

  /** After a successful remove the record reads as absent, and removing it
      again reports false and changes nothing. */
  lemma RemoveThenRead(s: Store, k: int)
    requires Inv(s)
    ensures var t := Remove(s, Some(k)).0;
            Read(t, Some(k)) == Ok(None) && Remove(t, Some(k)) == (t, Ok(false))
  {
  }

  /** The identity counter never hands out an identifier twice: once a record
      has been deleted, no later register returns its identifier again. */
  lemma RemovedIdNeverReissued(s: Store, k: int, calls: seq<Call>, dto: ProductDTO, now: Timestamp)
    requires Inv(s) && k in s.products
    requires k !in Run(s, calls).products
    ensures var r := Register(Run(s, calls), dto, now).1;
            r.Ok? ==> r.value.productId != Some(k)
  {
  }
}
