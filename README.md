# Diagnostic provider registry — a Dafny model

This project models the provider registry of the Cloudzero agent validator,
`pkg/diagnostic/catalog/catalog.go`. The registry maps a diagnostic check
identifier to a pair: a `private` flag and the check's provider. It has four
operations:

- `add` registers a check once. It refuses a nil provider, and then an
  identifier that is already registered.
- `Has` tests whether an identifier is registered.
- `Get(ids...)` returns the providers of the requested identifiers that are
  registered. It keeps their input order and any repeats, and silently drops
  unknown identifiers.
- `List` returns the identifiers of the public entries.

`NewCatalog` builds the registry from a fixed list. It adds six user-facing
checks (API key, egress access, Kubernetes version, KMS, node exporter, scrape
config) and then five private stage-event checks (init start, init stop, init
failed, pod start, pod stop).

Everything is in one module, `Catalog`, in `catalog.dfy`:

- `Registry` is a class whose field `providers: map<string, ProviderInfo>`
  is the Go map. `Add` changes the field in place. `Has`, `Get` and `List`
  only read it, and `Get` and `List` keep the source's loops.
- `Provider` is an empty class, so providers are opaque references. Go's nil
  is the `null` of `Provider?`. A stored `ProviderInfo` holds a non-null
  `Provider`, so no entry can hold a nil provider.
- In the source each refusal of `add` is a panic. Here `Add` returns an
  `Outcome`: `Pass`, or `Fail(NilProvider)`, or `Fail(Duplicate(name))`.
  A refused `Add` leaves the registry unchanged.
- `NewCatalog` takes two parameters: the eleven identifier constants
  (`DiagnosticIds`) and the eleven providers the factories build
  (`BuiltProviders`). It makes the same eleven `Add` calls in the same
  order. It returns `Failure` where the source would panic.
- `Known(m, ids)` is the reference definition of `Get`'s filter.
  `PublicIds(m)` is the set `List` must return. `BuildCatalog(d, p)` is the
  outcome of NewCatalog's registrations, written out one step after another
  (`ElevenSteps`). `RegisterAll` is the same thing as
  a fold over the list `Registrations(d, p)`.

## Model

| member | source | states |
|---|---|---|
| `Catalog.Registry.constructor` | pkg/diagnostic/catalog/catalog.go:36-38 | a new registry has no entries |
| `Catalog.Registry.Add` | pkg/diagnostic/catalog/catalog.go:99-109 | a nil provider is refused with NilProvider even when the name is already taken. Otherwise a taken name is refused with Duplicate(name). Both refusals leave the entries unchanged. Otherwise the entry `name` is set to exactly `(private, provider)` and nothing else changes. The outcome is Pass exactly when the provider is non-nil and the name is new |
| `Catalog.AddOneEntry` | pkg/diagnostic/catalog/catalog.go:108 | inserting a new name adds exactly one key, raises the size by one, and keeps every existing entry and its visibility |
| `Catalog.Registry.Has` | pkg/diagnostic/catalog/catalog.go:79-84 | the result is true exactly when the identifier is a key. The method changes nothing |
| `Catalog.Registry.Get` | pkg/diagnostic/catalog/catalog.go:57-77 | the result has one handler per registered requested id, in input order: handler k is the stored handler of the k-th registered id. Its length is at most the number of ids |
| `Catalog.Known` | pkg/diagnostic/catalog/catalog.go:63-68 | the kept ids are no more than the requested ones, and every kept id is registered |
| `Catalog.KnownAppend` | pkg/diagnostic/catalog/catalog.go:63-68 | filtering a concatenation gives the filtered parts in the same order, so the filter preserves order |
| `Catalog.KnownMember` | pkg/diagnostic/catalog/catalog.go:63-68 | an id is kept exactly when it was requested and is registered |
| `Catalog.KnownMultiplicity` | pkg/diagnostic/catalog/catalog.go:63-68 | a registered id is kept as many times as it was requested. An unknown id is kept zero times |
| `Catalog.KnownEmpty` | pkg/diagnostic/catalog/catalog.go:58-68 | the result is empty exactly when no requested id is registered. This includes the empty request |
| `Catalog.KnownWhole` | pkg/diagnostic/catalog/catalog.go:63-68 | the whole request comes back unchanged, and its length is kept, exactly when every requested id is registered |
| `Catalog.KnownExample` | pkg/diagnostic/catalog/catalog.go:57-76 | with a, b and c registered, the request [x, b, a] resolves to [b, a] |
| `Catalog.Registry.List` | pkg/diagnostic/catalog/catalog.go:86-97 | the returned ids, as a set, are exactly the keys whose entry is not private. They have no repeats, and there are as many as there are public entries |
| `Catalog.PublicIds` | pkg/diagnostic/catalog/catalog.go:86-97 | the reference set for `List`: the keys whose entry is not private. It contains only registered ids |
| `Catalog.Registrations` | pkg/diagnostic/catalog/catalog.go:40-52 | NewCatalog makes eleven registrations. Registration k is for the k-th check, and it is private exactly for the five stage checks (k >= 6) |
| `Catalog.AddEntry` | pkg/diagnostic/catalog/catalog.go:105-108 | one registration step with a non-nil provider. An earlier refusal stands. Otherwise the step succeeds exactly when the name is new, and then the keys grow by exactly that name, which holds its own visibility and provider. A present name is refused as Duplicate(name). Nil cannot occur, because a registration's provider is non-null by type |
| `Catalog.RegisterAll` | pkg/diagnostic/catalog/catalog.go:40-52 | registering a list in order, stopping at the first refusal. A refusal is always a Duplicate |
| `Catalog.ElevenSteps` | pkg/diagnostic/catalog/catalog.go:40-52 | eleven registrations written out one after another, as NewCatalog makes them. A refusal is always a Duplicate |
| `Catalog.BuildCatalog` | pkg/diagnostic/catalog/catalog.go:40-52 | the outcome of NewCatalog's eleven registrations. A refusal is always a Duplicate, since every built provider is non-nil |
| `Catalog.RegisterAllSnoc` | pkg/diagnostic/catalog/catalog.go:40-52 | registering one more entry after a sequence is one further registration step on that sequence's outcome |
| `Catalog.ElevenStepsIsFold` | pkg/diagnostic/catalog/catalog.go:40-52 | any eleven straight-line registrations have the same outcome as folding their list |
| `Catalog.CatalogIsFold` | pkg/diagnostic/catalog/catalog.go:40-52 | the eleven straight-line registrations have the same outcome as folding the registration list |
| `Catalog.RegisterAllOutcome` | pkg/diagnostic/catalog/catalog.go:105-108 | a sequence of registrations succeeds exactly when its names are pairwise distinct and none is already registered |
| `Catalog.RegisterAllRefusal` | pkg/diagnostic/catalog/catalog.go:105-107 | a refused sequence of registrations is refused as a Duplicate, and the duplicate is one of the names it registers |
| `Catalog.RegisterAllKeeps` | pkg/diagnostic/catalog/catalog.go:105-108 | a successful sequence adds exactly its names as keys, and keeps every earlier entry unchanged |
| `Catalog.RegisterAllEntries` | pkg/diagnostic/catalog/catalog.go:105-108 | after a successful sequence, each registered name is a key that holds its own visibility and provider |
| `Catalog.NewCatalog` | pkg/diagnostic/catalog/catalog.go:35-55 | the catalog is built exactly when the eleven identifiers are pairwise distinct. It is then a fresh registry holding the entries BuildCatalog gives. Otherwise the result is a Duplicate refusal naming one of the eleven identifiers |
| `Catalog.CatalogOutcome` | pkg/diagnostic/catalog/catalog.go:40-52 | the catalog's registrations succeed exactly when the eleven ids are distinct. A failure is a Duplicate refusal naming one of the eleven ids |
| `Catalog.RegisterAllRepeated` | pkg/diagnostic/catalog/catalog.go:105-108 | the name a refused sequence of registrations reports was already registered, or occurs at two positions of the sequence |
| `Catalog.CatalogRefusalRepeated` | pkg/diagnostic/catalog/catalog.go:40-52 | a refusal of the catalog names an id that occurs at two different positions among the eleven checks |
| `Catalog.RegistrationEntries` | pkg/diagnostic/catalog/catalog.go:40-52 | with distinct ids, the folded registration list has exactly the eleven ids as keys. The k-th id is private exactly when k >= 6 |
| `Catalog.CatalogEntriesAt` | pkg/diagnostic/catalog/catalog.go:40-52 | the same facts, stated for NewCatalog's entries |
| `Catalog.CatalogSize` | pkg/diagnostic/catalog/catalog.go:40-52 | with distinct ids, exactly eleven identifiers are registered |
| `Catalog.PublicOfEleven` | pkg/diagnostic/catalog/catalog.go:86-97 | in any registry holding eleven distinct checks, where check k is private exactly when k >= 6, the public ids are the first six checks and there are six of them. The last five are registered but not public |
| `Catalog.CatalogVisibility` | pkg/diagnostic/catalog/catalog.go:40-52 | with distinct ids, the public entries are exactly the six user-facing checks. The five stage checks are registered (Has is true) but are never public, so List never returns them |

## Left out

- The `sync.Mutex` and all concurrency are left out; the registry is modelled as sequential. `Get` checks with `Has` and then takes the lock a second time. That is safe only because entries are never removed, and interleavings are not modelled.
- The `Registry` Go interface is only a type and has no behaviour to model.
- The provider factories (`cz`, `egress`, `k8s`, `kms`, `pne`, `prom`, `stage`) and the `status.StatusType_*` values are not part of this model. Their results come in as the `BuiltProviders` parameter, and each is an opaque non-null provider. In the source each factory runs just before its `add`, so the factories after a refused `add` never run. The model takes all eleven built providers up front.
- The string values of the `config.Diagnostic*` constants are not part of this model. They come in as the `DiagnosticIds` parameter. Whether they are distinct decides whether `NewCatalog` succeeds.
- Go panics, and the text of their messages, are not modelled. A refused `add` returns `Fail(...)` and leaves the registry unchanged. `NewCatalog` passes the first refusal on as `Failure(...)` rather than ending the process.
- Catalog.NewCatalog: the result of the first `Add` is not passed through a failure check. It cannot be refused, because the registry is empty and the provider is not nil, and the method asserts that it is `Pass`.
- Catalog.Registry.List: the order of the returned identifiers is left unspecified, because Go's map iteration order is not defined. The model picks each key arbitrarily.
