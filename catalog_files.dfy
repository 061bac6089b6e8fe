/** Loading the catalog from the `./products` directory (`readProductFiles`).
    The file system is abstract: a listing is the outcome of `os.ReadDir`, and each entry
    carries the outcomes of `entry.Info()`, of `os.ReadFile` and of the JSON decode. */
module CatalogFiles {
  import opened ProductModel
  import opened GoText

  const JsonSuffix := ".json"

  /** The outcome of `entry.Info()`. */
  datatype StatOutcome = StatOk | StatFailed(cause: string)

  /** The outcome of reading one file and decoding it as a `ListProductsResponse`. */
  datatype FileOutcome =
    | ReadFailed(cause: string)
    | DecodeFailed(cause: string)
    | Decoded(products: seq<Product>)

  datatype DirEntry = DirEntry(name: string, stat: StatOutcome, file: FileOutcome)

  /** The outcome of `os.ReadDir`: an error, or the entries in the order it returns them. */
  datatype Listing = ListingFailed(cause: string) | Listed(entries: seq<DirEntry>)

  /** Why a load failed: the file system (listing, stat, read) or the decoder. */
  datatype LoadError = ReadError(cause: string) | ParseError(cause: string)

  predicate IsJsonFile(e: DirEntry)
  {
    HasSuffix(e.name, JsonSuffix)
  }

  /** The entries whose names end in `.json`, in listing order. */
  function JsonEntries(es: seq<DirEntry>): (js: seq<DirEntry>)
    ensures |js| <= |es|
  {
    if es == [] then []
    else JsonEntries(es[..|es| - 1]) + (if IsJsonFile(es[|es| - 1]) then [es[|es| - 1]] else [])
  }

  /** The kept entries are exactly the listed entries named `*.json`. */
  lemma {:induction false} JsonEntriesMembership(es: seq<DirEntry>, e: DirEntry)
    ensures e in JsonEntries(es) <==> e in es && IsJsonFile(e)
  {
    if es != [] {
      var init := es[..|es| - 1];
      JsonEntriesMembership(init, e);
      assert es == init + [es[|es| - 1]];
    }
  }

  /** The first failing `Info()` among the given entries. */
  function StatFailure(js: seq<DirEntry>): (r: Option<LoadError>)
    ensures r.Some? ==> js != [] && r.value.ReadError?
  {
    if js == [] then None
    else
      var earlier := StatFailure(js[..|js| - 1]);
      if earlier.Some? then earlier
      else match js[|js| - 1].stat
        case StatOk => None
        case StatFailed(c) => Some(ReadError(c))
  }

  /** Read and decode the given files in order, stopping at the first failure. */
  function ReadAll(js: seq<DirEntry>): (r: Result<seq<Product>, LoadError>)
    ensures r.Err? ==> js != []
  {
    if js == [] then Ok([])
    else match ReadAll(js[..|js| - 1])
      case Err(e) => Err(e)
      case Ok(ps) =>
        match js[|js| - 1].file
        case ReadFailed(c) => Err(ReadError(c))
        case DecodeFailed(c) => Err(ParseError(c))
        case Decoded(qs) => Ok(ps + qs)
  }

  /** What `readProductFiles` returns for a directory: the listing error; else the first
      `Info()` error among the `.json` entries; else the first read or decode error;
      else the products of the `.json` files, concatenated in listing order. */
  function Load(dir: Listing): (r: Result<seq<Product>, LoadError>)
    ensures dir.ListingFailed? ==> r == Err(ReadError(dir.cause))
    ensures dir.Listed? && JsonEntries(dir.entries) == [] ==> r == Ok([])
  {
    match dir
    case ListingFailed(c) => Err(ReadError(c))
    case Listed(es) =>
      var js := JsonEntries(es);
      match StatFailure(js)
      case Some(e) => Err(e)
      case None => ReadAll(js)
  }

  // ----- an independent description of a successful load -----

  /** Every file stats, reads and decodes. */
  predicate AllLoadable(js: seq<DirEntry>)
  {
    forall i :: 0 <= i < |js| ==> js[i].stat.StatOk? && js[i].file.Decoded?
  }

  /** Some file fails to stat, read or decode. */
  predicate SomeFailure(js: seq<DirEntry>)
  {
    exists i :: 0 <= i < |js| && (js[i].stat.StatFailed? || !js[i].file.Decoded?)
  }

  /** The product lists of the files, concatenated front to back. */
  function Concat(js: seq<DirEntry>): seq<Product>
    requires AllLoadable(js)
  {
    if js == [] then [] else js[0].file.products + Concat(js[1..])
  }

  /** The number of products across the files. */
  function Count(js: seq<DirEntry>): nat
    requires AllLoadable(js)
  {
    if js == [] then 0 else |js[0].file.products| + Count(js[1..])
  }

  // ----- lemmas -----

  lemma {:induction false} JsonEntriesAppend(a: seq<DirEntry>, b: seq<DirEntry>)
    ensures JsonEntries(a + b) == JsonEntries(a) + JsonEntries(b)
  {
    if b != [] {
      var b' := b[..|b| - 1];
      assert (a + b)[..|a + b| - 1] == a + b';
      JsonEntriesAppend(a, b');
    } else {
      assert a + b == a;
    }
  }

  lemma {:induction false} StatFailureAppend(a: seq<DirEntry>, b: seq<DirEntry>)
    ensures StatFailure(a + b) == if StatFailure(a).Some? then StatFailure(a) else StatFailure(b)
  {
    if b != [] {
      var b' := b[..|b| - 1];
      assert (a + b)[..|a + b| - 1] == a + b';
      StatFailureAppend(a, b');
    } else {
      assert a + b == a;
    }
  }

  lemma {:induction false} ReadAllAppend(a: seq<DirEntry>, b: seq<DirEntry>)
    ensures ReadAll(a + b) ==
      match ReadAll(a)
      case Err(e) => Err(e)
      case Ok(ps) =>
        match ReadAll(b)
        case Err(e) => Err(e)
        case Ok(qs) => Ok(ps + qs)
  {
    if b != [] {
      var b' := b[..|b| - 1];
      assert (a + b)[..|a + b| - 1] == a + b';
      ReadAllAppend(a, b');
      if ReadAll(a).Ok? && ReadAll(b').Ok? && b[|b| - 1].file.Decoded? {
        var ps, qs, rs := ReadAll(a).value, ReadAll(b').value, b[|b| - 1].file.products;
        assert ps + qs + rs == ps + (qs + rs);
      }
    } else {
      assert a + b == a;
      if ReadAll(a).Ok? {
        assert ReadAll(a).value + [] == ReadAll(a).value;
      }
    }
  }

  lemma {:induction false} StatFailureNoneIff(js: seq<DirEntry>)
    ensures StatFailure(js) == None <==> forall i :: 0 <= i < |js| ==> js[i].stat.StatOk?
  {
    if js != [] {
      StatFailureNoneIff(js[..|js| - 1]);
      assert forall i :: 0 <= i < |js| - 1 ==> js[..|js| - 1][i] == js[i];
    }
  }

  lemma {:induction false} ConcatSnoc(js: seq<DirEntry>)
    requires js != [] && AllLoadable(js)
    ensures Concat(js) == Concat(js[..|js| - 1]) + js[|js| - 1].file.products
  {
    if |js| > 1 {
      var rest := js[1..];
      assert rest[..|rest| - 1] == js[..|js| - 1][1..];
      ConcatSnoc(rest);
      var p0 := js[0].file.products;
      assert p0 + (Concat(rest[..|rest| - 1]) + js[|js| - 1].file.products)
          == p0 + Concat(rest[..|rest| - 1]) + js[|js| - 1].file.products;
    } else {
      assert js[..|js| - 1] == [];
      assert js[1..] == [];
      assert js[0].file.products + [] == js[0].file.products;
    }
  }

  /** With every stat succeeding, reading the files succeeds exactly when each decodes,
      and then yields their concatenation. */
  lemma {:induction false} ReadAllExactly(js: seq<DirEntry>)
    requires forall i :: 0 <= i < |js| ==> js[i].stat.StatOk?
    ensures ReadAll(js).Ok? <==> AllLoadable(js)
    ensures AllLoadable(js) ==> ReadAll(js) == Ok(Concat(js))
  {
    if js != [] {
      var init := js[..|js| - 1];
      assert forall i :: 0 <= i < |init| ==> init[i] == js[i];
      ReadAllExactly(init);
      if AllLoadable(js) {
        ConcatSnoc(js);
      }
    }
  }

  /** Loading succeeds exactly when the listing succeeds and every `.json` entry stats,
      reads and decodes; the catalog is then exactly the concatenation of their product
      lists, in listing order. */
  lemma LoadSucceedsExactly(dir: Listing)
    ensures Load(dir).Ok? <==> dir.Listed? && AllLoadable(JsonEntries(dir.entries))
    ensures Load(dir).Ok? ==> Load(dir).value == Concat(JsonEntries(dir.entries))
  {
    if dir.Listed? {
      var js := JsonEntries(dir.entries);
      StatFailureNoneIff(js);
      if StatFailure(js) == None {
        ReadAllExactly(js);
      }
    }
  }

  /** All or nothing: a load fails exactly when the listing fails or some `.json` entry
      fails to stat, read or decode; a failed load carries no products at all. */
  lemma LoadFailsExactly(dir: Listing)
    ensures Load(dir).Err? <==> dir.ListingFailed? || SomeFailure(JsonEntries(dir.entries))
  {
    LoadSucceedsExactly(dir);
  }

  /** A decode error is the only source of `ParseError`. */
  lemma {:induction false} ParseErrorMeansDecodeFailed(js: seq<DirEntry>)
    requires ReadAll(js).Err? && ReadAll(js).error.ParseError?
    ensures exists i :: 0 <= i < |js| && js[i].file == DecodeFailed(ReadAll(js).error.cause)
  {
    var init := js[..|js| - 1];
    if ReadAll(init).Err? {
      ParseErrorMeansDecodeFailed(init);
      var i :| 0 <= i < |init| && init[i].file == DecodeFailed(ReadAll(init).error.cause);
      assert js[i] == init[i];
    } else {
      assert js[|js| - 1].file == DecodeFailed(ReadAll(js).error.cause);
    }
  }

  /** Entries whose names do not end in `.json` contribute nothing, wherever they appear. */
  lemma LoadIgnoresNonJson(a: seq<DirEntry>, e: DirEntry, b: seq<DirEntry>)
    requires !IsJsonFile(e)
    ensures Load(Listed(a + [e] + b)) == Load(Listed(a + b))
  {
    JsonEntriesAppend(a + [e], b);
    JsonEntriesAppend(a, [e]);
    JsonEntriesAppend(a, b);
    assert JsonEntries([e]) == [] by {
      assert [e][..0] == [];
    }
    assert JsonEntries(a + [e] + b) == JsonEntries(a) + JsonEntries(b);
  }

  /** Adding a well-formed `.json` file after the others appends its products to a
      successful load. */
  lemma AddedFileAppends(es: seq<DirEntry>, f: DirEntry)
    requires Load(Listed(es)).Ok?
    requires IsJsonFile(f) && f.stat.StatOk? && f.file.Decoded?
    ensures Load(Listed(es + [f])) == Ok(Load(Listed(es)).value + f.file.products)
  {
  }

  lemma {:induction false} ConcatLength(js: seq<DirEntry>)
    requires AllLoadable(js)
    ensures |Concat(js)| == Count(js)
  {
    if js != [] {
      ConcatLength(js[1..]);
    }
  }

  /** A loaded catalog holds as many products as the `.json` files hold together. */
  lemma LoadCount(dir: Listing)
    requires Load(dir).Ok?
    ensures dir.Listed? && AllLoadable(JsonEntries(dir.entries))
    ensures |Load(dir).value| == Count(JsonEntries(dir.entries))
  {
    LoadSucceedsExactly(dir);
    ConcatLength(JsonEntries(dir.entries));
  }

  /** Scanning one more entry extends the collected `.json` entries by at most that entry. */
  lemma JsonEntriesStep(entries: seq<DirEntry>, i: nat)
    requires i < |entries|
    ensures JsonEntries(entries[..i + 1]) ==
      JsonEntries(entries[..i]) + (if IsJsonFile(entries[i]) then [entries[i]] else [])
  {
    assert entries[..i + 1][..i] == entries[..i];
  }

  /** Checking one more entry after entries that all stat. */
  lemma StatFailureSnoc(js: seq<DirEntry>, x: DirEntry)
    requires StatFailure(js) == None
    ensures StatFailure(js + [x]) == if x.stat.StatFailed? then Some(ReadError(x.stat.cause)) else None
  {
  }

  /** Once some `.json` entry of a prefix fails to stat, later entries do not matter. */
  lemma StatFailureOfPrefixDecides(a: seq<DirEntry>, b: seq<DirEntry>)
    requires StatFailure(JsonEntries(a)).Some?
    ensures StatFailure(JsonEntries(a + b)) == StatFailure(JsonEntries(a))
  {
    JsonEntriesAppend(a, b);
    StatFailureAppend(JsonEntries(a), JsonEntries(b));
  }

  /** A `.json` entry whose `Info()` fails, after entries that all stat, decides the load. */
  lemma StatFailureAt(before: seq<DirEntry>, x: DirEntry, after: seq<DirEntry>)
    requires IsJsonFile(x) && x.stat.StatFailed?
    requires StatFailure(JsonEntries(before)) == None
    ensures StatFailure(JsonEntries(before + [x] + after)) == Some(ReadError(x.stat.cause))
  {
    JsonEntriesAppend(before, [x]);
    assert JsonEntries([x]) == [x] by {
      assert [x][..0] == [];
    }
    StatFailureSnoc(JsonEntries(before), x);
    StatFailureOfPrefixDecides(before + [x], after);
  }

  /** A file that fails to read or decode, after files that all loaded, decides the load. */
  lemma FileFailureAt(js: seq<DirEntry>, k: nat, ps: seq<Product>)
    requires k < |js| && !js[k].file.Decoded?
    requires ReadAll(js[..k]) == Ok(ps)
    ensures ReadAll(js) == match js[k].file
      case ReadFailed(c) => Err(ReadError(c))
      case DecodeFailed(c) => Err(ParseError(c))
  {
    assert js[..k + 1][..k] == js[..k];
    assert js == js[..k + 1] + js[k + 1..];
    ReadAllAppend(js[..k + 1], js[k + 1..]);
  }

  /** `readProductFiles`: first collect the `.json` entries, checking `Info()` on each, then
      read and decode each of them, appending its products. Any failure aborts the load. */
  method ReadProductFiles(dir: Listing) returns (r: Result<seq<Product>, LoadError>)
    ensures r == Load(dir)
  {
    if dir.ListingFailed? {
      return Err(ReadError(dir.cause));
    }
    var entries := dir.entries;
    var jsonFiles: seq<DirEntry> := [];
    var i := 0;
    while i < |entries|
      invariant 0 <= i <= |entries|
      invariant jsonFiles == JsonEntries(entries[..i])
      invariant StatFailure(jsonFiles) == None
    {
      var entry := entries[i];
      JsonEntriesStep(entries, i);
      if HasSuffix(entry.name, JsonSuffix) {
        if entry.stat.StatFailed? {
          assert entries == entries[..i] + [entry] + entries[i + 1..];
          StatFailureAt(entries[..i], entry, entries[i + 1..]);
          return Err(ReadError(entry.stat.cause));
        }
        StatFailureSnoc(jsonFiles, entry);
        jsonFiles := jsonFiles + [entry];
      }
      i := i + 1;
    }
    assert entries[..i] == entries;

    var products: seq<Product> := [];
    var k := 0;
    while k < |jsonFiles|
      invariant 0 <= k <= |jsonFiles|
      invariant ReadAll(jsonFiles[..k]) == Ok(products)
    {
      var f := jsonFiles[k];
      match f.file
      case ReadFailed(c) =>
        FileFailureAt(jsonFiles, k, products);
        return Err(ReadError(c));
      case DecodeFailed(c) =>
        FileFailureAt(jsonFiles, k, products);
        return Err(ParseError(c));
      case Decoded(batch) =>
        assert jsonFiles[..k + 1][..k] == jsonFiles[..k];
        products := products + batch;
      k := k + 1;
    }
    assert jsonFiles[..k] == jsonFiles;
    return Ok(products);
  }
}
