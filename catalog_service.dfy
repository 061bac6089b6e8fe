/** The gRPC handlers `ListProducts`, `GetProduct` and `SearchProducts`, and the
    fault-injection hook `checkProductFailure`. */
module CatalogService {
  import opened ProductModel
  import opened GoText

  /** The one product id for which `GetProduct` consults the failure flag. */
  const FailingProductId := "OLJCESPC7Z"

  /** The message of the injected failure; it holds no `%`, so `status.Errorf` leaves it as it is. */
  const FailureMessage := "Error: Product Catalog Fail Feature Flag Enabled"

  /** The outcome of evaluating the boolean flag `productCatalogFailure`. */
  datatype FlagEvaluation = FlagValue(value: bool) | FlagError

  /** The answers the database queries would give to this call (`listProductsFromDB`,
      `getProductFromDB` by id, `searchProductsFromDB` by query). */
  datatype Database = Database(
    listAll: Result<seq<Product>, Error>,
    getById: string -> Result<Product, Error>,
    searchFor: string -> Result<seq<Product>, Error>)

  /** The globals `useDatabase` and `db` (None standing for a nil handle). */
  datatype Backend = Backend(useDatabase: bool, db: Option<Database>)

  /** The test every handler makes: `useDatabase && db != nil`. */
  predicate DatabaseMode(b: Backend)
    ensures DatabaseMode(b) ==> b.db.Some?
  {
    b.useDatabase && b.db.Some?
  }

  /** `BooleanValue` with default false: an evaluation error reads as false. */
  function FlagEnabled(flag: FlagEvaluation): (on: bool)
    ensures on <==> flag == FlagValue(true)
  {
    match flag
    case FlagValue(v) => v
    case FlagError => false
  }

  /** `checkProductFailure`: the flag matters for the one fixed id and for no other. */
  function CheckProductFailure(id: string, flag: FlagEvaluation): (fails: bool)
    ensures fails <==> id == FailingProductId && flag == FlagValue(true)
  {
    if id != FailingProductId then false else FlagEnabled(flag)
  }

  /** For every other id the flag has no influence at all. */
  lemma FlagIgnoredForOtherIds(id: string, f1: FlagEvaluation, f2: FlagEvaluation)
    requires id != FailingProductId
    ensures CheckProductFailure(id, f1) == CheckProductFailure(id, f2) == false
  {
  }

  // ----- ListProducts -----

  /** `ListProducts`: the database's list, with its error turned into Internal, or the
      in-memory catalog as it is. */
  function ListProducts(b: Backend, catalog: seq<Product>): (r: Result<seq<Product>, Error>)
    ensures !DatabaseMode(b) ==> r == Ok(catalog)
    ensures DatabaseMode(b) && b.db.value.listAll.Ok? ==> r == b.db.value.listAll
    ensures r.Err? ==> (DatabaseMode(b) && b.db.value.listAll.Err? &&
      r.error == Status(Internal, "Failed to list products: " + ErrorText(b.db.value.listAll.error)))
  {
    if DatabaseMode(b) then
      match b.db.value.listAll
      case Ok(ps) => Ok(ps)
      case Err(e) => Err(Status(Internal, "Failed to list products: " + ErrorText(e)))
    else Ok(catalog)
  }

  // ----- GetProduct -----

  /** The first product in the catalog with the given id. */
  function FindById(catalog: seq<Product>, id: string): (r: Option<Product>)
    ensures r.Some? ==> r.value in catalog && r.value.id == id
  {
    if catalog == [] then None
    else if catalog[0].id == id then Some(catalog[0])
    else FindById(catalog[1..], id)
  }

  /** Position `i` holds the id and no earlier position does. */
  predicate IsFirstWithId(catalog: seq<Product>, i: int, id: string)
  {
    0 <= i < |catalog| && catalog[i].id == id && forall j :: 0 <= j < i ==> catalog[j].id != id
  }

  /** `FindById` is a first-match scan: it finds the product at the least index holding the
      id, and nothing exactly when no product holds it. */
  lemma {:induction false} FindByIdIsFirstMatch(catalog: seq<Product>, id: string)
    ensures FindById(catalog, id).None? <==> forall i :: 0 <= i < |catalog| ==> catalog[i].id != id
    ensures FindById(catalog, id).Some? ==>
      (exists i :: 0 <= i < |catalog| && catalog[i] == FindById(catalog, id).value && IsFirstWithId(catalog, i, id))
  {
    if catalog != [] && catalog[0].id != id {
      var rest := catalog[1..];
      FindByIdIsFirstMatch(rest, id);
      assert forall i :: 0 <= i < |rest| ==> rest[i] == catalog[i + 1];
      if FindById(rest, id).Some? {
        var i :| 0 <= i < |rest| && rest[i] == FindById(rest, id).value && IsFirstWithId(rest, i, id);
        assert catalog[i + 1] == rest[i];
        assert IsFirstWithId(catalog, i + 1, id) by {
          forall j | 0 <= j < i + 1 ensures catalog[j].id != id {
            if j > 0 { assert catalog[j] == rest[j - 1]; }
          }
        }
      }
    }
  }

  /** The NotFound error of file mode as written: the message `Product Not Found: <id>` is
      handed to `status.Errorf` as its format, with no arguments, so `fmt` interprets any `%`
      in the id. */
  function NotFoundAsWritten(id: string): (e: Error)
    ensures e.Status? && e.code == NotFound
    ensures '%' !in id ==> e == NotFoundError(id)
  {
    var msg := "Product Not Found: " + id;
    SprintfNoArgsPlain(msg);
    Status(NotFound, SprintfNoArgs(msg))
  }

  /** The NotFound error as evidently intended, and as the database path writes it with
      `%s`: the message ends with the id itself. */
  function NotFoundError(id: string): (e: Error)
    ensures e.Status? && e.code == NotFound
    ensures |e.message| >= |id| && e.message[|e.message| - |id|..] == id
  {
    Status(NotFound, "Product Not Found: " + id)
  }

  /** The intended message tells every id apart. */
  lemma NotFoundErrorIdentifiesId(a: string, b: string)
    ensures NotFoundError(a) == NotFoundError(b) <==> a == b
  {
    if NotFoundError(a) == NotFoundError(b) {
      var m := NotFoundError(a).message;
      assert a == m[|m| - |a|..] && b == m[|m| - |b|..];
    }
  }

  /** As written, the message is `Product Not Found: ` followed by the id rendered as a format. */
  lemma NotFoundAsWrittenRendersId(id: string)
    ensures NotFoundAsWritten(id).message == "Product Not Found: " + SprintfNoArgs(id)
  {
    SprintfNoArgsPlainPrefix("Product Not Found: ", id);
  }

  /** As written, an id made of `%`, a letter and plain text is not echoed: `%off` comes back
      as `%!o(MISSING)ff`. */
  lemma NotFoundAsWrittenGarblesPercent(verb: char, rest: string)
    requires 'a' <= verb <= 'z' || 'A' <= verb <= 'Z'
    requires '%' !in rest
    ensures NotFoundAsWritten(['%', verb] + rest).message == "Product Not Found: " + ("%!" + [verb] + "(MISSING)" + rest)
    ensures NotFoundAsWritten(['%', verb] + rest) != NotFoundError(['%', verb] + rest)
  {
    var id := ['%', verb] + rest;
    var shown := "%!" + [verb] + "(MISSING)" + rest;
    assert SprintfNoArgs(id) == shown by {
      SprintfNoArgsMissingVerb(verb, rest);
      SprintfNoArgsPlain(rest);
    }
    NotFoundAsWrittenRendersId(id);
    assert |NotFoundAsWritten(id).message| > |NotFoundError(id).message|;
  }

  /** As written, two different ids get the same message: a width digit is swallowed, so
      `%d` and `%5d` cannot be told apart. */
  lemma NotFoundAsWrittenConflatesIds(w: char, verb: char, rest: string)
    requires IsDigit(w)
    requires 'a' <= verb <= 'z' || 'A' <= verb <= 'Z'
    ensures ['%', w, verb] + rest != ['%', verb] + rest
    ensures NotFoundAsWritten(['%', w, verb] + rest) == NotFoundAsWritten(['%', verb] + rest)
  {
    assert (['%', w, verb] + rest)[1] != (['%', verb] + rest)[1];
    NotFoundAsWrittenRendersId(['%', w, verb] + rest);
    NotFoundAsWrittenRendersId(['%', verb] + rest);
    SprintfNoArgsWidthIgnored(w, verb, rest);
  }

  /** What `GetProduct` answers: the injected failure first, then the database's answer
      unchanged, or the first catalog product with the id, or NotFound. */
  function GetProductResult(b: Backend, catalog: seq<Product>, flag: FlagEvaluation, id: string): (r: Result<Product, Error>)
    ensures CheckProductFailure(id, flag) ==> r == Err(Status(Internal, FailureMessage))
    ensures !CheckProductFailure(id, flag) && !DatabaseMode(b) && '%' !in id ==>
      (r.Err? ==> r.error == NotFoundError(id))
    ensures !CheckProductFailure(id, flag) && DatabaseMode(b) ==> r == b.db.value.getById(id)
    ensures !CheckProductFailure(id, flag) && !DatabaseMode(b) ==>
      (r.Ok? ==> r.value in catalog && r.value.id == id) &&
      (r.Err? ==> r.error == NotFoundAsWritten(id))
    ensures !CheckProductFailure(id, flag) && !DatabaseMode(b) && r.Ok? ==>
      exists i :: IsFirstWithId(catalog, i, id) && r.value == catalog[i]
  {
    FindByIdIsFirstMatch(catalog, id);
    if CheckProductFailure(id, flag) then Err(Status(Internal, FailureMessage))
    else if DatabaseMode(b) then b.db.value.getById(id)
    else match FindById(catalog, id)
      case Some(p) => Ok(p)
      case None => Err(NotFoundAsWritten(id))
  }

  /** In file mode, and unless the injected failure fires, a product is found exactly when
      some catalog product holds the id. */
  lemma GetFindsExactlyPresentIds(b: Backend, catalog: seq<Product>, flag: FlagEvaluation, id: string)
    requires !DatabaseMode(b) && !CheckProductFailure(id, flag)
    ensures GetProductResult(b, catalog, flag, id).Ok? <==> exists i :: 0 <= i < |catalog| && catalog[i].id == id
  {
    FindByIdIsFirstMatch(catalog, id);
  }

  /** The injected failure pre-empts every lookup: the catalog and the database do not matter. */
  lemma InjectedFailureIgnoresSources(b1: Backend, c1: seq<Product>, b2: Backend, c2: seq<Product>, flag: FlagEvaluation, id: string)
    requires CheckProductFailure(id, flag)
    ensures GetProductResult(b1, c1, flag, id) == GetProductResult(b2, c2, flag, id)
  {
  }

  /** For any id but the fixed one, the answer does not depend on the flag. */
  lemma GetIgnoresFlagForOtherIds(b: Backend, catalog: seq<Product>, f1: FlagEvaluation, f2: FlagEvaluation, id: string)
    requires id != FailingProductId
    ensures GetProductResult(b, catalog, f1, id) == GetProductResult(b, catalog, f2, id)
  {
  }

  /** `GetProduct`: the override check, then the database or a linear scan that stops at the
      first product with the id. */
  method GetProduct(b: Backend, catalog: seq<Product>, flag: FlagEvaluation, id: string) returns (r: Result<Product, Error>)
    ensures r == GetProductResult(b, catalog, flag, id)
  {
    if CheckProductFailure(id, flag) {
      return Err(Status(Internal, FailureMessage));
    }
    if DatabaseMode(b) {
      return b.db.value.getById(id);
    }
    var found: Option<Product> := None;
    var i := 0;
    while i < |catalog|
      invariant 0 <= i <= |catalog|
      invariant found.None? ==> FindById(catalog, id) == FindById(catalog[i..], id)
      invariant found.Some? ==> FindById(catalog, id) == found
    {
      if id == catalog[i].id {
        found := Some(catalog[i]);
        break;
      }
      assert catalog[i..][1..] == catalog[i + 1..];
      i := i + 1;
    }
    match found
    case None =>
      var msg := "Product Not Found: " + id;
      return Err(Status(NotFound, SprintfNoArgs(msg)));
    case Some(p) =>
      return Ok(p);
  }

  // ----- SearchProducts -----

  /** The file-mode match: the lowered query occurs in the lowered name or description. */
  predicate MatchesQuery(p: Product, query: string)
    ensures query == "" ==> MatchesQuery(p, query)
  {
    ContainsEmpty(ToLower(p.name));
    Contains(ToLower(p.name), ToLower(query)) || Contains(ToLower(p.description), ToLower(query))
  }

  /** The matching products, in catalog order. */
  function FilterMatches(catalog: seq<Product>, query: string): (r: seq<Product>)
    ensures |r| <= |catalog|
  {
    if catalog == [] then []
    else
      var last := catalog[|catalog| - 1];
      FilterMatches(catalog[..|catalog| - 1], query) + (if MatchesQuery(last, query) then [last] else [])
  }

  /** A product is in the result exactly when it is in the catalog and matches. */
  lemma {:induction false} FilterMembership(catalog: seq<Product>, query: string, p: Product)
    ensures p in FilterMatches(catalog, query) <==> p in catalog && MatchesQuery(p, query)
  {
    if catalog != [] {
      var init := catalog[..|catalog| - 1];
      FilterMembership(init, query, p);
      assert catalog == init + [catalog[|catalog| - 1]];
    }
  }

  /** Filtering distributes over concatenation, so the result keeps catalog order. */
  lemma {:induction false} FilterAppend(a: seq<Product>, b: seq<Product>, query: string)
    ensures FilterMatches(a + b, query) == FilterMatches(a, query) + FilterMatches(b, query)
  {
    if b == [] {
      assert a + b == a;
    } else {
      var b' := b[..|b| - 1];
      assert (a + b)[..|a + b| - 1] == a + b';
      FilterAppend(a, b', query);
    }
  }

  /** The empty query matches every product, so it returns the whole catalog. */
  lemma {:induction false} EmptyQueryReturnsAll(catalog: seq<Product>)
    ensures FilterMatches(catalog, "") == catalog
  {
    if catalog != [] {
      EmptyQueryReturnsAll(catalog[..|catalog| - 1]);
    }
  }

  /** Upper-casing the query changes nothing: the match ignores ASCII case. */
  lemma {:induction false} SearchIgnoresQueryCase(catalog: seq<Product>, query: string)
    ensures FilterMatches(catalog, ToUpper(query)) == FilterMatches(catalog, query)
  {
    LowerOfUpper(query);
    if catalog != [] {
      SearchIgnoresQueryCase(catalog[..|catalog| - 1], query);
    }
  }

  /** What `SearchProducts` answers: the database's result with its error turned into
      Internal, or the matching catalog products, never an error. */
  function SearchProductsResult(b: Backend, catalog: seq<Product>, query: string): (r: Result<seq<Product>, Error>)
    ensures !DatabaseMode(b) ==> r.Ok? && forall p :: p in r.value <==> p in catalog && MatchesQuery(p, query)
    ensures !DatabaseMode(b) ==> r == Ok(FilterMatches(catalog, query))
    ensures DatabaseMode(b) && b.db.value.searchFor(query).Ok? ==> r == b.db.value.searchFor(query)
    ensures r.Err? ==> (DatabaseMode(b) && b.db.value.searchFor(query).Err? &&
      r.error == Status(Internal, "Failed to search products: " + ErrorText(b.db.value.searchFor(query).error)))
  {
    if DatabaseMode(b) then
      match b.db.value.searchFor(query)
      case Ok(ps) => Ok(ps)
      case Err(e) => Err(Status(Internal, "Failed to search products: " + ErrorText(e)))
    else
      var r := FilterMatches(catalog, query);
      assert forall p :: p in r <==> p in catalog && MatchesQuery(p, query) by {
        forall p ensures p in r <==> p in catalog && MatchesQuery(p, query) {
          FilterMembership(catalog, query, p);
        }
      }
      Ok(r)
  }

  /** `SearchProducts`: the database's search, or a scan appending each matching product. */
  method SearchProducts(b: Backend, catalog: seq<Product>, query: string) returns (r: Result<seq<Product>, Error>)
    ensures r == SearchProductsResult(b, catalog, query)
  {
    if DatabaseMode(b) {
      match b.db.value.searchFor(query)
      case Err(e) =>
        return Err(Status(Internal, "Failed to search products: " + ErrorText(e)));
      case Ok(ps) =>
        return Ok(ps);
    }
    var result: seq<Product> := [];
    var i := 0;
    while i < |catalog|
      invariant 0 <= i <= |catalog|
      invariant result == FilterMatches(catalog[..i], query)
    {
      var product := catalog[i];
      assert catalog[..i + 1][..i] == catalog[..i];
      if Contains(ToLower(product.name), ToLower(query)) ||
         Contains(ToLower(product.description), ToLower(query)) {
        result := result + [product];
      }
      i := i + 1;
    }
    assert catalog[..i] == catalog;
    return Ok(result);
  }

  // ----- dispatch -----

  /** In database mode list and search failures surface as Internal, while a get error is
      passed back unchanged (a NotFound status stays NotFound). */
  lemma DatabaseErrorHandling(b: Backend, catalog: seq<Product>, flag: FlagEvaluation, id: string, query: string)
    requires DatabaseMode(b)
    ensures ListProducts(b, catalog).Err? <==> b.db.value.listAll.Err?
    ensures ListProducts(b, catalog).Err? ==> ListProducts(b, catalog).error.Status? && ListProducts(b, catalog).error.code == Internal
    ensures SearchProductsResult(b, catalog, query).Err? <==> b.db.value.searchFor(query).Err?
    ensures SearchProductsResult(b, catalog, query).Err? ==> SearchProductsResult(b, catalog, query).error.code == Internal
    ensures !CheckProductFailure(id, flag) ==> GetProductResult(b, catalog, flag, id) == b.db.value.getById(id)
  {
  }

  /** In database mode the in-memory catalog is never read. */
  lemma DatabaseModeIgnoresCatalog(b: Backend, c1: seq<Product>, c2: seq<Product>, flag: FlagEvaluation, id: string, query: string)
    requires DatabaseMode(b)
    ensures ListProducts(b, c1) == ListProducts(b, c2)
    ensures GetProductResult(b, c1, flag, id) == GetProductResult(b, c2, flag, id)
    ensures SearchProductsResult(b, c1, query) == SearchProductsResult(b, c2, query)
  {
  }
}
