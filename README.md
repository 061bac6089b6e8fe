# Product catalog service: a Dafny model

This project models the core of the demo's product catalog service (`src/product-catalog/main.go`):

- loading the catalog from the `*.json` files of the products directory;
- installing the catalog at startup and replacing it on each reload tick;
- choosing the reload interval and the data source (JSON files or the database);
- answering `ListProducts`, `GetProduct` and `SearchProducts`, including the
  feature-flag override that makes `GetProduct` fail for one product id.

Modules:

- `ProductModel`: products, money, and the errors the handlers return. An error is a gRPC status
  (`NotFound`/`Internal`) or a plain Go error.
- `GoText`: the string, number and formatting functions the code calls. These are
  `strings.HasSuffix`, `strings.Contains`, `strings.ToLower` (ASCII only), `strconv.Atoi` and
  `fmt.Sprintf` called with a format and no arguments.
  - Atoi is modelled for a 64-bit platform, following the digit loop of `strconv.ParseUint`.
    Digits past the uint64 range give the int64 bound of their sign, whatever follows them.
    Otherwise a syntax error yields 0, and an out-of-range value is clamped.
  - `SprintfNoArgs` follows `fmt`'s directive scanner: flags, `[n]` argument indexes, `*` or
    digit widths and precisions, then the verb, each directive reporting its missing argument.
- `CatalogFiles`: `readProductFiles`, which is the method `ReadProductFiles`. It is proved equal to
  the specification function `Load`. Lemmas characterise `Load` on its own terms: all-or-nothing,
  the exact concatenation in listing order, non-`.json` entries ignored, and the product count.
- `CatalogStore`: the reload interval, the `catalog` global, and the ticker that
  `loadProductCatalog` starts. These are the class `Store`, with one method call per tick.
- `Startup`: `initDatabase` and the fallback in `main`, which together fix the data-source mode.
- `CatalogService`: the three handlers, each a specification function plus, where the code loops,
  a method proved equal to it. This module also holds `checkProductFailure`.

Inputs the code reads from its environment are parameters:

- the directory listing: per entry, the outcome of `Info()`, of `ReadFile` and of the JSON decode;
- the environment variables, as strings (empty when unset);
- the database, as the answers its three queries would give;
- the feature flag, as an evaluation outcome (an evaluation error reads as false);
- the catalog snapshot a handler reads.

The model follows the code as written, including these behaviours:

- A failed reload stores the failed load's nil result, so the catalog becomes empty; keeping the
  previous catalog is evidently what should happen (see Findings).
- An unparsable interval setting falls back to the default, just like a non-positive one. Two
  settings select the int64 maximum instead: one whose leading digits pass the uint64 range, and
  a digit string between 2^63 and 2^64-1, which Atoi clamps. Its period wraps negative and the
  ticker panics; rejecting an interval whose period does not fit, like a non-positive one, is
  evidently what should happen (see Findings).
- In file mode, `GetProduct` hands its NotFound message to `status.Errorf` as the format, so a
  `%` in the requested id is interpreted by `fmt`; passing the id as an argument of `%s`, as the
  database path does, is evidently what should happen (see Findings).
- In database mode, `GetProduct` returns the database error unchanged, not as Internal.
  A plain error from the driver therefore reaches the caller as gRPC's Unknown code.

## Model

| member | source | states |
|---|---|---|
| `GoText.HasSuffix` | src/product-catalog/main.go:494 | a name that ends in the suffix is some text followed by exactly that suffix |
| `GoText.Contains` | src/product-catalog/main.go:960-961 | a string contains only what fits in it, and contains each of its suffixes |
| `GoText.ContainsEmpty` | src/product-catalog/main.go:960-961 | every string contains the empty query |
| `GoText.ToLower` | src/product-catalog/main.go:960-961 | lower-casing keeps the length and maps each character through the ASCII lower-case mapping |
| `GoText.Atoi` | src/product-catalog/main.go:460 | the result is always within int64; leading digits past the uint64 range give the bound of the sign with an error, whatever follows; other malformed text gives 0 with an error; an in-range digit string gives its exact value |
| `GoText.AtoiOfDecimal` | src/product-catalog/main.go:460 | every non-negative int64 written in decimal parses back to itself without error |
| `GoText.AtoiOfSignedDecimal` | src/product-catalog/main.go:460 | an int64 written in decimal after a `-` (for a non-positive value) or a `+` (for a non-negative one) parses back to itself without error |
| `GoText.AtoiClampsPastInt64` | src/product-catalog/main.go:460 | a digit string worth more than the int64 maximum but within uint64 reads as the int64 maximum with an error, also after `+`; after `-`, one worth more than 2^63 reads as the int64 minimum with an error |
| `GoText.AtoiOverflowIgnoresRest` | src/product-catalog/main.go:460 | digits whose value passes uint64, followed by any text at all, read as the int64 maximum with an error |
| `GoText.SprintfNoArgs` | src/product-catalog/main.go:912 | `fmt` with no arguments drops no format without a trace: a non-empty format renders as non-empty text; its plain text, directives and widths are stated by the `SprintfNoArgs...` lemmas below |
| `GoText.SprintfNoArgsPlainPrefix` | src/product-catalog/main.go:912 | text without `%` at the front of a format is copied, and the rest is rendered on its own |
| `GoText.SprintfNoArgsPlain` | src/product-catalog/main.go:912 | a format without `%` renders as itself, so an id without `%` reaches the NotFound message unchanged |
| `GoText.SprintfNoArgsLetter` | src/product-catalog/main.go:912 | a letter right after `%` is taken as the verb, with no flags, width or index, and the rest of the format is rendered after its text |
| `GoText.SprintfNoArgsMissingVerb` | src/product-catalog/main.go:912 | `%` and a letter with no argument renders as `%!`, the letter and `(MISSING)` |
| `GoText.SprintfNoArgsWidthIgnored` | src/product-catalog/main.go:912 | a one-digit width before a letter verb with no argument leaves no trace in the output |
| `CatalogFiles.JsonEntries` | src/product-catalog/main.go:492-501 | the `.json` filter keeps at most the listed entries |
| `CatalogFiles.JsonEntriesMembership` | src/product-catalog/main.go:492-501 | an entry is kept if and only if it is in the listing and its name ends in `.json` |
| `CatalogFiles.StatFailure` | src/product-catalog/main.go:493-498 | a failing `Info()` is reported as a file-system error, and only when there are `.json` entries |
| `CatalogFiles.StatFailureAt` | src/product-catalog/main.go:493-498 | a `.json` entry whose `Info()` fails, after entries that all stat, makes the load fail with that error |
| `CatalogFiles.ReadAll` | src/product-catalog/main.go:505-518 | reading no files succeeds; a read or decode failure needs a file |
| `CatalogFiles.FileFailureAt` | src/product-catalog/main.go:506-515 | a file that fails to read or decode, after files that all loaded, makes the load fail with that read or parse error |
| `CatalogFiles.Load` | src/product-catalog/main.go:487-528 | a listing error is returned as the load error; a listing with no `.json` entry loads the empty catalog |
| `CatalogFiles.ReadProductFiles` | src/product-catalog/main.go:484-528 | the two loops return exactly `Load(dir)`: the listing error, else the first `Info()` error, else the first read or decode error, else the concatenated products |
| `CatalogFiles.LoadSucceedsExactly` | src/product-catalog/main.go:487-518 | a load succeeds if and only if the listing succeeds and every `.json` entry stats, reads and decodes; the result is then exactly the concatenation of their product lists in listing order |
| `CatalogFiles.LoadFailsExactly` | src/product-catalog/main.go:487-515 | a load fails if and only if the listing fails or some `.json` entry fails to stat, read or decode; a failure carries no products |
| `CatalogFiles.ParseErrorMeansDecodeFailed` | src/product-catalog/main.go:512-515 | a parse error is always the decode error of one of the files |
| `CatalogFiles.LoadIgnoresNonJson` | src/product-catalog/main.go:493-494 | inserting an entry whose name does not end in `.json` anywhere in the listing leaves the load result unchanged |
| `CatalogFiles.AddedFileAppends` | src/product-catalog/main.go:505-518 | appending a well-formed `.json` file to a listing that loads appends exactly its products |
| `CatalogFiles.LoadCount` | src/product-catalog/main.go:517 | a loaded catalog holds as many products as the `.json` files hold together |
| `CatalogStore.ResolveInterval` | src/product-catalog/main.go:456-464 | the interval is always positive; it is the value Atoi read when the setting is set and that value is positive, and the default 10 otherwise |
| `CatalogStore.IntervalDefaults` | src/product-catalog/main.go:457-464 | an unset, zero or negative setting gives the default of 10, and so does a malformed one whose leading digits do not overflow |
| `CatalogStore.IntervalParses` | src/product-catalog/main.go:458-464 | a positive int64 written in decimal gives exactly that interval |
| `CatalogStore.OverflowingSettingPanics` | src/product-catalog/main.go:458-467 | leading digits past the uint64 range, followed by anything, select the int64 maximum as the interval, whose period wraps to minus one second |
| `CatalogStore.ClampedSettingPanics` | src/product-catalog/main.go:458-467 | a digit string between 2^63 and 2^64-1 is clamped to the int64 maximum as the interval, whose period wraps to minus one second |
| `CatalogStore.OverflowExample` | src/product-catalog/main.go:458-464 | the setting `18446744073709551616x` selects the int64 maximum as the interval |
| `CatalogStore.WrapInt64` | src/product-catalog/main.go:467 | the int64 result is the input itself when it fits, and always agrees with it modulo 2^64 |
| `CatalogStore.TickerPeriod` | src/product-catalog/main.go:467 | the period is an int64 that agrees with the interval times 10^9 nanoseconds modulo 2^64 |
| `CatalogStore.MaxIntervalWraps` | src/product-catalog/main.go:467 | the int64 maximum as an interval in seconds wraps to a period of minus one second |
| `CatalogStore.PeriodPositive` | src/product-catalog/main.go:467 | intervals up to 9223372036 seconds give the ticker a positive period of that many seconds |
| `CatalogStore.OverlongIntervalPanics` | src/product-catalog/main.go:458-467 | every interval from 9223372037 to twice 9223372036 seconds is accepted when written in decimal, yet its `time.Duration` wraps to a negative period |
| `CatalogStore.ResolveIntervalBounded` | src/product-catalog/main.go:456-467 | corrected interval: always at most 9223372036 with a positive period, and equal to the code's choice whenever that fits |
| `CatalogStore.FirstLoad` | src/product-catalog/main.go:447-452 | the first load installs the loaded products, or the empty catalog when loading fails |
| `CatalogStore.ReloadAsWritten` | src/product-catalog/main.go:474-478 | as written, a tick installs the loaded products, or the empty catalog when loading fails, whatever the current catalog is |
| `CatalogStore.FailedReloadEmptiesCatalog` | src/product-catalog/main.go:474-478 | a tick whose load fails replaces a non-empty catalog with the empty one |
| `CatalogStore.ReloadKeepingSnapshot` | src/product-catalog/main.go:472-478 | corrected tick: a successful load replaces the catalog wholesale, a failed one keeps the current catalog |
| `CatalogStore.AfterReloads` | src/product-catalog/main.go:469-481 | as written, no tick leaves the initial catalog, and after one or more ticks the catalog depends on the last tick's directory only |
| `CatalogStore.SnapshotIsSomeCompleteLoad` | src/product-catalog/main.go:469-481 | corrected, the catalog is always the initial one or one complete successful load, it stays the initial one while every tick fails, and the latest success wins |
| `CatalogStore.Store.constructor` | src/product-catalog/main.go:60-62 | the process starts with an empty catalog and no ticker |
| `CatalogStore.Store.LoadProductCatalog` | src/product-catalog/main.go:443-467 | installs `FirstLoad(dir)`; starts no ticker when loading fails; otherwise starts it with `ResolveInterval`, or panics exactly when that interval's period is not positive |
| `CatalogStore.Store.Tick` | src/product-catalog/main.go:472-478 | one reload as written: the catalog becomes `ReloadAsWritten` of the old one; only possible once the ticker runs, and the ticker keeps its positive period |
| `CatalogStore.Store.TickKeepingSnapshot` | src/product-catalog/main.go:472-478 | one reload with the correction: the catalog becomes `ReloadKeepingSnapshot` of the old one, and the ticker keeps its positive period |
| `CatalogStore.Store.ReloadLoop` | src/product-catalog/main.go:469-481 | a run of ticks leaves the catalog `AfterReloads` of the old catalog and the listings seen, and the ticker unchanged |
| `CatalogService.DatabaseMode` | src/product-catalog/main.go:829 | every handler that takes the database branch has a database handle to query |
| `CatalogService.FlagEnabled` | src/product-catalog/main.go:980-983 | the flag reads as enabled exactly when it evaluated to true; an evaluation error reads as the default false |
| `CatalogService.CheckProductFailure` | src/product-catalog/main.go:974-984 | the check fires if and only if the id is `OLJCESPC7Z` and the flag evaluated to true |
| `CatalogService.FlagIgnoredForOtherIds` | src/product-catalog/main.go:975-977 | for every other id the check is false whatever the flag |
| `CatalogService.ListProducts` | src/product-catalog/main.go:826-859 | file mode returns the catalog as it is; database mode returns the database's list, or an Internal status "Failed to list products: ..." when the query fails |
| `CatalogService.FindById` | src/product-catalog/main.go:900-905 | a product the scan finds is in the catalog and has the requested id |
| `CatalogService.FindByIdIsFirstMatch` | src/product-catalog/main.go:900-905 | the scan finds nothing if and only if no product has the id; otherwise it returns the product at the least index holding it |
| `CatalogService.NotFoundAsWritten` | src/product-catalog/main.go:909-912 | as written, the NotFound status carries the intended message whenever the id holds no `%` |
| `CatalogService.NotFoundAsWrittenRendersId` | src/product-catalog/main.go:909-912 | as written, the message is `Product Not Found: ` followed by the id rendered as a `fmt` format |
| `CatalogService.NotFoundAsWrittenGarblesPercent` | src/product-catalog/main.go:909-912 | as written, an id made of `%`, a letter and plain text (such as `%off`) comes back as `%!o(MISSING)ff`, not as the id |
| `CatalogService.NotFoundAsWrittenConflatesIds` | src/product-catalog/main.go:909-912 | as written, distinct ids such as `%d` and `%5d` get the same NotFound message |
| `CatalogService.NotFoundError` | src/product-catalog/main.go:694 | corrected NotFound status, as the database path writes it with `%s`: its message always ends with the id itself |
| `CatalogService.NotFoundErrorIdentifiesId` | src/product-catalog/main.go:694 | corrected, two ids get the same NotFound error only when they are the same id |
| `CatalogService.GetProductResult` | src/product-catalog/main.go:861-930 | the override gives Internal with the fixed message; otherwise database mode returns the database answer unchanged, and file mode returns the first catalog product with that id or the as-written NotFound status, whose message is exactly "Product Not Found: id" for ids without `%` |
| `CatalogService.GetFindsExactlyPresentIds` | src/product-catalog/main.go:900-913 | in file mode, when the override does not fire, a product is returned if and only if some catalog product has the id |
| `CatalogService.InjectedFailureIgnoresSources` | src/product-catalog/main.go:867-873 | when the override fires the answer does not depend on the catalog or the database |
| `CatalogService.GetIgnoresFlagForOtherIds` | src/product-catalog/main.go:867-873 | for any id but `OLJCESPC7Z` the answer does not depend on the flag |
| `CatalogService.GetProduct` | src/product-catalog/main.go:861-930 | the override check, dispatch, loop with `break` and `status.Errorf` of the formatted message return exactly `GetProductResult` |
| `CatalogService.MatchesQuery` | src/product-catalog/main.go:960-961 | the empty query matches every product |
| `CatalogService.FilterMatches` | src/product-catalog/main.go:959-964 | the search keeps at most the catalog's products |
| `CatalogService.FilterMembership` | src/product-catalog/main.go:959-964 | a product is in the search result if and only if it is in the catalog and its lowered name or description contains the lowered query |
| `CatalogService.FilterAppend` | src/product-catalog/main.go:959-964 | filtering distributes over concatenation, so matches keep catalog order |
| `CatalogService.EmptyQueryReturnsAll` | src/product-catalog/main.go:959-964 | the empty query returns the whole catalog |
| `CatalogService.SearchIgnoresQueryCase` | src/product-catalog/main.go:960-961 | upper-casing the query does not change the result |
| `CatalogService.SearchProductsResult` | src/product-catalog/main.go:932-972 | file mode never fails and returns exactly the matching catalog products, in catalog order and with their repetitions, as `FilterMatches` does; database mode returns the database's result, or an Internal status "Failed to search products: ..." |
| `CatalogService.SearchProducts` | src/product-catalog/main.go:932-972 | the dispatch and the appending loop return exactly `SearchProductsResult` |
| `CatalogService.DatabaseErrorHandling` | src/product-catalog/main.go:826-955 | in database mode list and search fail exactly when their query fails, and always with Internal; a get error is passed back unchanged |
| `CatalogService.DatabaseModeIgnoresCatalog` | src/product-catalog/main.go:826-966 | in database mode no handler's answer depends on the in-memory catalog |
| `ProductModel.ErrorText` | src/product-catalog/main.go:845 | a plain error renders as its text; a status renders as text ending with its message, which is what `%v` puts after "Failed to list products: " |
| `Startup.InitDatabase` | src/product-catalog/main.go:154-220 | a handle is returned only when connecting succeeded; an error only when the database was requested, a connection string was set and connecting failed |
| `Startup.ResolveBackend` | src/product-catalog/main.go:307-332 | after the fallback `useDatabase` never holds without a database handle |
| `Startup.DatabaseModeExactly` | src/product-catalog/main.go:154-316 | database mode holds if and only if `USE_DATABASE` is "true" or "1", the connection string is non-empty and connecting succeeded; the handlers then use that connection |

## Left out

- OpenTelemetry tracer, meter and logger setup, spans, attributes and log lines: they are observability side effects with no behaviour to state.
- The gRPC server, listener, reflection, the health `Check`/`Watch`, signal handling, `createClient` and `mustMapEnv`: these are transport and process lifecycle.
- The SQL inside `listProductsFromDB`, `getProductFromDB` and `searchProductsFromDB` (ORDER BY name, ILIKE, row scanning, pool settings): each query is an abstract answer of the `Database` value.
- The protojson decoder and the file system: each directory entry carries an abstract outcome. The order of the listing is whatever `os.ReadDir` returns; in Go that is sorted by file name, which the model takes as given.
- The goroutine and ticker concurrency of the reload loop, and the unsynchronised access to `catalog` it causes: each tick is a sequential method call. Atomicity of the swap is stated sequentially, as a catalog that is always one complete load.
- `GoText.SprintfNoArgs`: models `fmt` for calls without arguments, the only kind whose format this core takes from data; a verb is one character, so invalid UTF-8 in an id is not modelled.
- `GoText.Atoi`: models a 64-bit platform, where `int` is int64; the 32-bit limits are not modelled.
- `GoText.ToLower`: models ASCII letters only, because Go's Unicode case mapping is platform library behaviour. The search properties hold relative to this mapping.
- `CatalogService.GetProductResult`: the injected-failure message at main.go:872 also reaches `status.Errorf` as its format; it is modelled as its literal text, which holds no `%`, but no lemma proves that formatting leaves it unchanged, because the verifier does not decide `'%' !in` for a literal of that length.
- The OpenFeature and flagd provider: the flag is an injected evaluation outcome.
- `CatalogStore.Store.LoadProductCatalog`: the panic of `time.NewTicker` is a returned flag; the process exit that `main`'s recover performs is not modelled.
- `src/accounting/Consumer.cs` and `src/frontend/utils/telemetry/FrontendTracer.ts`: they are I/O plumbing and tracing configuration, outside this core.

## Findings

| source | as written | input that shows it | evidently intended | confidence | as-written member | corrected member |
|---|---|---|---|---|---|---|
| src/product-catalog/main.go:474 | a reload stores `readProductFiles`'s result even on error, so a failed reload leaves a nil (empty) catalog | a non-empty catalog and a tick on which reading the products directory fails | keep the previous catalog when a reload fails | high (not executed) | `CatalogStore.FailedReloadEmptiesCatalog` | `CatalogStore.ReloadKeepingSnapshot` |
| src/product-catalog/main.go:467 | the interval in seconds is multiplied by `time.Second` in int64 with no bound, so a large setting wraps to a negative period and `time.NewTicker` panics | `PRODUCT_CATALOG_RELOAD_INTERVAL=9223372037`, `9223372036854775808` (Atoi's int64 clamp, see `CatalogStore.ClampedSettingPanics`) or `18446744073709551616x` (Atoi's uint64 overflow, see `CatalogStore.OverflowingSettingPanics`), with a successful first load | reject an interval whose period does not fit, like a non-positive one | medium (not executed) | `CatalogStore.OverlongIntervalPanics` | `CatalogStore.ResolveIntervalBounded` |
| src/product-catalog/main.go:909-912 | the NotFound message, already formatted with the id, is passed to `status.Errorf` as its format with no arguments, so `fmt` interprets any `%` in the id | `GetProduct` in file mode for the missing id `%off`, which answers "Product Not Found: %!o(MISSING)ff"; the ids `%d` and `%5d` get the same message | echo the id verbatim, as the database path does with `"Product Not Found: %s", id` at line 694 | high (not executed) | `CatalogService.NotFoundAsWrittenGarblesPercent` | `CatalogService.NotFoundError` |

The store's methods `Tick` and `LoadProductCatalog`, and `GetProduct`, follow the code as written. `TickKeepingSnapshot`, `ResolveIntervalBounded` and `NotFoundError` give the corrected behaviour.
