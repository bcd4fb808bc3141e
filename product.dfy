/** The product catalogue (ProductService): keyed create, read, update and
    delete over the product table, the two filtered reads, and the
    conversions between the stored row and the transfer object. */
module ProductSpec {
  import opened Common

  /** A stored product row (the key is kept by the table). */
  datatype Product = Product(name: string, description: string, price: int, stock: int,
                             imageUrl: string, category: string)

  /** `ProductDTO`: the row's fields plus its id, which is absent in a request. */
  datatype ProductDto = ProductDto(id: Option<Id>, name: string, description: string, price: int, stock: int,
                                   imageUrl: string, category: string)

  /** "상품을 찾을 수 없습니다. ID: " + id */
  datatype ProductError = ProductNotFound(id: Id)

  datatype Tables = Tables(products: map<Id, Product>, nextProductId: nat)

  ghost predicate Consistent(t: Tables) {
    forall k :: k in t.products ==> k < t.nextProductId
  }

  /** `convertToDTO(product)`. */
  function ToDto(id: Id, p: Product): ProductDto {
    ProductDto(Some(id), p.name, p.description, p.price, p.stock, p.imageUrl, p.category)
  }

  /** `convertToEntity(dto)`: the DTO's id is not copied. */
  function ToEntity(dto: ProductDto): Product {
    Product(dto.name, dto.description, dto.price, dto.stock, dto.imageUrl, dto.category)
  }

  /** The DTOs of the rows `ids`, in that order. */
  function Dtos(t: Tables, ids: seq<Id>): (r: seq<ProductDto>)
    requires forall k :: k in ids ==> k in t.products
    ensures |r| == |ids| && forall i :: 0 <= i < |ids| ==> r[i] == ToDto(ids[i], t.products[ids[i]])
  {
    if ids == [] then [] else [ToDto(ids[0], t.products[ids[0]])] + Dtos(t, ids[1..])
  }

  // ---------------------------------------------------------------------
  // Reads.

  /** `getAllProducts()`. */
  function AllProducts(t: Tables): seq<ProductDto> {
    Dtos(t, Select(t.products, (p: Product) => true, t.nextProductId))
  }

  /** `getProductById(id)`. */
  function ProductById(t: Tables, id: Id): Result<ProductDto, ProductError> {
    if id in t.products then Ok(ToDto(id, t.products[id])) else Err(ProductNotFound(id))
  }

  /** `getProductsByCategory(category)`: `findByCategory`. */
  function ProductsByCategory(t: Tables, category: string): seq<ProductDto> {
    Dtos(t, Select(t.products, (p: Product) => p.category == category, t.nextProductId))
  }

  /** `searchProducts(keyword)`: `findByNameContaining`. */
  function SearchProducts(t: Tables, keyword: string): seq<ProductDto> {
    Dtos(t, Select(t.products, (p: Product) => Contains(p.name, keyword), t.nextProductId))
  }

  // ---------------------------------------------------------------------
  // Updates.

  /** `createProduct(dto)`: the new row gets the next key, not the DTO's id. */
  function CreateProduct(t: Tables, dto: ProductDto): (r: (Tables, ProductDto)) {
    var id := t.nextProductId;
    var p := ToEntity(dto);
    (Tables(t.products[id := p], id + 1), ToDto(id, p))
  }

  /** `updateProduct(id, dto)`: all six fields are overwritten. */
  function UpdateProduct(t: Tables, id: Id, dto: ProductDto): (r: (Tables, Result<ProductDto, ProductError>)) {
    if id !in t.products then (t, Err(ProductNotFound(id)))
    else
      var p := t.products[id].(name := dto.name, description := dto.description, price := dto.price,
                               stock := dto.stock, imageUrl := dto.imageUrl, category := dto.category);
      (t.(products := t.products[id := p]), Ok(ToDto(id, p)))
  }

  /** `deleteProduct(id)`. */
  function DeleteProduct(t: Tables, id: Id): (r: (Tables, Result<(), ProductError>)) {
    if id !in t.products then (t, Err(ProductNotFound(id)))
    else (t.(products := t.products - {id}), Ok(()))
  }

  // ---------------------------------------------------------------------
  // Properties.

  /** Converting a DTO to a row and back keeps the six data fields; only
      the id changes, to the row's key. Row to DTO to row is the identity. */
  lemma ConversionRoundTrip(dto: ProductDto, id: Id, p: Product)
    ensures ToDto(id, ToEntity(dto)) == dto.(id := Some(id))
    ensures ToEntity(ToDto(id, p)) == p
  {
  }

  /** Reading by id fails exactly for a missing key and otherwise returns
      that row's fields under its key. */
  lemma ProductByIdSpec(t: Tables, id: Id)
    ensures ProductById(t, id).Err? <==> id !in t.products
    ensures ProductById(t, id).Ok? ==>
      ProductById(t, id).value.id == Some(id) && ToEntity(ProductById(t, id).value) == t.products[id]
  {
  }

  /** `getAllProducts` lists every stored product exactly once, each under
      its own key with its stored fields. */
  lemma AllProductsSpec(t: Tables)
    requires Consistent(t)
    ensures var r := AllProducts(t);
      && |r| == |t.products|
      && (forall d :: d in r ==> d.id.Some? && d.id.value in t.products && ToEntity(d) == t.products[d.id.value])
      && (forall k :: k in t.products ==> ToDto(k, t.products[k]) in r)
      && (forall i, j :: 0 <= i < j < |r| ==> r[i].id != r[j].id)
  {
    var ids := Select(t.products, (p: Product) => true, t.nextProductId);
    var r := AllProducts(t);
    forall k | k in t.products
      ensures ToDto(k, t.products[k]) in r
    {
      var i :| 0 <= i < |ids| && ids[i] == k;
      assert r[i] == ToDto(k, t.products[k]);
    }
    forall i, j | 0 <= i < j < |r|
      ensures r[i].id != r[j].id
    {
      assert r[i].id == Some(ids[i]) && r[j].id == Some(ids[j]);
    }
    AllKeysListed(t);
  }

  /** The full scan lists as many keys as the table holds. */
  lemma AllKeysListed(t: Tables)
    requires Consistent(t)
    ensures |Select(t.products, (p: Product) => true, t.nextProductId)| == |t.products|
  {
    var ids := Select(t.products, (p: Product) => true, t.nextProductId);
    DecreasingCardinality(ids);
    assert (set k: Id | k in ids) == t.products.Keys;
    assert |t.products.Keys| == |t.products|;
  }

  /** The category read returns exactly the products of that category,
      each once. */
  lemma ProductsByCategorySpec(t: Tables, category: string)
    requires Consistent(t)
    ensures var r := ProductsByCategory(t, category);
      && (forall d :: d in r ==> d.category == category && d.id.Some? && d.id.value in t.products &&
                                 ToEntity(d) == t.products[d.id.value])
      && (forall k :: k in t.products && t.products[k].category == category ==> ToDto(k, t.products[k]) in r)
      && (forall i, j :: 0 <= i < j < |r| ==> r[i].id != r[j].id)
  {
    var ids := Select(t.products, (p: Product) => p.category == category, t.nextProductId);
    var r := ProductsByCategory(t, category);
    forall k | k in t.products && t.products[k].category == category
      ensures ToDto(k, t.products[k]) in r
    {
      var i :| 0 <= i < |ids| && ids[i] == k;
      assert r[i] == ToDto(k, t.products[k]);
    }
    forall i, j | 0 <= i < j < |r|
      ensures r[i].id != r[j].id
    {
      assert r[i].id == Some(ids[i]) && r[j].id == Some(ids[j]);
    }
  }

  /** The search returns exactly the products whose name contains the
      keyword, each once. */
  lemma SearchProductsSpec(t: Tables, keyword: string)
    requires Consistent(t)
    ensures var r := SearchProducts(t, keyword);
      && (forall d :: d in r ==> Contains(d.name, keyword) && d.id.Some? && d.id.value in t.products &&
                                 ToEntity(d) == t.products[d.id.value])
      && (forall k :: k in t.products && Contains(t.products[k].name, keyword) ==> ToDto(k, t.products[k]) in r)
      && (forall i, j :: 0 <= i < j < |r| ==> r[i].id != r[j].id)
  {
    var ids := Select(t.products, (p: Product) => Contains(p.name, keyword), t.nextProductId);
    var r := SearchProducts(t, keyword);
    forall k | k in t.products && Contains(t.products[k].name, keyword)
      ensures ToDto(k, t.products[k]) in r
    {
      var i :| 0 <= i < |ids| && ids[i] == k;
      assert r[i] == ToDto(k, t.products[k]);
    }
    forall i, j | 0 <= i < j < |r|
      ensures r[i].id != r[j].id
    {
      assert r[i].id == Some(ids[i]) && r[j].id == Some(ids[j]);
    }
  }

  /** Creating adds one new row carrying the DTO's six fields under a fresh
      key, ignoring the DTO's id, and keeps the other rows. */
  lemma CreateProductEffect(t: Tables, dto: ProductDto)
    requires Consistent(t)
    ensures var (t', d) := CreateProduct(t, dto);
      && Consistent(t')
      && d.id.Some? && d.id.value !in t.products
      && t'.products.Keys == t.products.Keys + {d.id.value}
      && d == dto.(id := d.id)
      && t'.products[d.id.value] == ToEntity(dto)
      && (forall k :: k in t.products ==> t'.products[k] == t.products[k])
  {
  }

  /** Updating a missing key fails and changes nothing; otherwise the row
      under that key takes all six fields of the DTO and no other row changes. */
  lemma UpdateProductEffect(t: Tables, id: Id, dto: ProductDto)
    requires Consistent(t)
    ensures var (t', r) := UpdateProduct(t, id, dto);
      && Consistent(t')
      && (r.Err? <==> id !in t.products)
      && (r.Err? ==> t' == t && r.error == ProductNotFound(id))
      && (r.Ok? ==> t'.products.Keys == t.products.Keys && t'.products[id] == ToEntity(dto) &&
                    r.value == dto.(id := Some(id)) &&
                    forall k :: k in t.products && k != id ==> t'.products[k] == t.products[k])
  {
  }

  /** Deleting a missing key fails and changes nothing; otherwise exactly
      that row goes. */
  lemma DeleteProductEffect(t: Tables, id: Id)
    requires Consistent(t)
    ensures var (t', r) := DeleteProduct(t, id);
      && Consistent(t')
      && (r.Err? <==> id !in t.products)
      && (r.Err? ==> t' == t)
      && (r.Ok? ==> t'.products.Keys == t.products.Keys - {id} &&
                    forall k :: k in t'.products ==> t'.products[k] == t.products[k])
  {
  }
}

/** The service object: the product table is its field. */
module ProductService {
  import opened Common
  import opened ProductSpec

  class ProductService {
    var products: map<Id, Product>
    var nextProductId: nat

    function Current(): Tables
      reads this
    {
      Tables(products, nextProductId)
    }

    ghost predicate Valid()
      reads this
    {
      Consistent(Current())
    }

    constructor ()
      ensures Valid() && products == map[]
    {
      products, nextProductId := map[], 0;
    }

    method CreateProduct(dto: ProductDto) returns (r: ProductDto)
      requires Valid()
      modifies this
      ensures Valid()
      ensures (Current(), r) == ProductSpec.CreateProduct(old(Current()), dto)
    {
      var product := ToEntity(dto);
      var id := nextProductId;
      products := products[id := product];
      nextProductId := id + 1;
      r := ToDto(id, product);
    }

    /** Loads the row, sets its six fields one by one, and saves it. */
    method UpdateProduct(id: Id, dto: ProductDto) returns (r: Result<ProductDto, ProductError>)
      requires Valid()
      modifies this
      ensures Valid()
      ensures (Current(), r) == ProductSpec.UpdateProduct(old(Current()), id, dto)
    {
      if id !in products {
        return Err(ProductNotFound(id));
      }
      var product := products[id];
      product := product.(name := dto.name);
      product := product.(description := dto.description);
      product := product.(price := dto.price);
      product := product.(stock := dto.stock);
      product := product.(imageUrl := dto.imageUrl);
      product := product.(category := dto.category);
      products := products[id := product];
      r := Ok(ToDto(id, product));
    }

    method DeleteProduct(id: Id) returns (r: Result<(), ProductError>)
      requires Valid()
      modifies this
      ensures Valid()
      ensures (Current(), r) == ProductSpec.DeleteProduct(old(Current()), id)
    {
      if id !in products {
        return Err(ProductNotFound(id));
      }
      products := products - {id};
      r := Ok(());
    }
  }
}
