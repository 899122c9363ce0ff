# Owl secret providers — a Dafny model

This project models the two pieces of logic in the Owl configuration
providers that do more than call an SDK:

- **The HashiCorp Vault walk** (`HashicorpVault`, `hashicorp_vault.dfy`).
  `Load` walks a KV2 namespace from the root. It lists a path and looks at
  each entry's name. A name ending in `/` is a folder: the walk lists it in
  turn. Any other name is a secret: the walk reads it and stores each field
  in the provider's `Data` dictionary. The key is the secret's path with every
  `/` turned into `:`, then `:`, then the field name. Every call catches all
  exceptions for itself. A failing folder therefore loses only its own
  subtree. A failing secret read ends the listing it belongs to. Whatever was
  written before a failure stays written.
- **The composite Azure Key Vault lookup** (`CompositeKeyVault`,
  `composite_key_vault.dfy`). One secret client is made per vault URI, in the
  order given. `TryGet` asks the clients in that order. The first one that
  returns a secret object supplies that object's value, even a null one. A
  null object or a 404 failure moves on to the next client. Any other failure
  escapes. When every client has been skipped the value is null. `TryGet`
  reports "found" exactly when the value is not null.

The store is given to the model as a value. In the vault walk it is a finite
tree: each `Node` holds the answers the store gives at one path. Those answers
are a listing (entries, failure, or no keys) and a read (fields, or failure).
In the composite lookup it is a total function `Vaults` from a client and a
secret name to that client's `Response`. Each operation is specified by a
pure function: `Walk` for the dictionary, `Trace` for the calls made to the
store, `Resolve` and `QueryCount` for the lookup. The imperative methods are
proved equal to those functions, and the lemmas state the behaviour on top of
them. `VaultConfigurationProvider.Requests` is a ghost log of calls; the C#
code does not keep one. It is there so that call order and mount points can
be stated.

Some behaviour of the code that a user might not expect:

- Only a 404 moves the lookup on to the next vault. Any other failure
  escapes from `TryGet` (`OtherFailuresEscape`).
- Nothing is cached. `Load` does nothing, and each `TryGet` runs the whole
  search again. `TryGet`'s result is a function of the clients, the key and
  the vaults' answers alone, so repeated calls with unchanged answers agree.
- Flat keys can collide. A secret `a/b` and a secret named `a:b` give the
  same key (`KeysOfDistinctSecretsCanCollide`). A path can be read back from
  its key only when it contains no `:` (`ReplaceSlashesInjectiveWithoutColons`).
- A failed secret read loses more than that secret. It also drops the
  entries after it in the same listing (`FailedReadEndsListing`).

## Model

| member | source | states |
|---|---|---|
| `HashicorpVault.ReplaceSlashes` | Zooper.Owl.HashicorpVault/Extensions/HashicorpVaultConfigurationProvider.cs:100 | same length; each `/` becomes `:`, every other character is kept; no `/` remains |
| `HashicorpVault.ChildPath` | Zooper.Owl.HashicorpVault/Extensions/HashicorpVaultConfigurationProvider.cs:79 | an entry's path is the path text (null read as empty) followed by the entry name; with a null or empty path it is the name alone |
| `HashicorpVault.ConfigurationKey` | Zooper.Owl.HashicorpVault/Extensions/HashicorpVaultConfigurationProvider.cs:100 | the key is the path with `/` mapped to `:` (so its path part has no `/`), then `:`, then exactly the field name |
| `HashicorpVault.IsFolder` | Zooper.Owl.HashicorpVault/Extensions/HashicorpVaultConfigurationProvider.cs:82 | an entry is a folder exactly when its name ends in `/` (definition) |
| `HashicorpVault.ListArgument` | Zooper.Owl.HashicorpVault/Extensions/HashicorpVaultConfigurationProvider.cs:66-74 | the path handed to the listing call: `/` for a null path, the path itself otherwise (definition) |
| `HashicorpVault.Walk` | Zooper.Owl.HashicorpVault/Extensions/HashicorpVaultConfigurationProvider.cs:63-109 | the dictionary after loading one path: a listing that fails or has no keys leaves it unchanged, otherwise the listing's entries are walked (definition; stated by `WalkOverlay`, `WalkKeys`, `WalkTwice`) |
| `HashicorpVault.WalkEntries` | Zooper.Owl.HashicorpVault/Extensions/HashicorpVaultConfigurationProvider.cs:77-104 | the entries in order: a folder is walked, a secret's fields are written, and a failing read ends the listing keeping earlier writes (definition; stated by `FailedReadEndsListing`, `LaterSiblingsUnaffected`) |
| `HashicorpVault.Trace` | Zooper.Owl.HashicorpVault/Extensions/HashicorpVaultConfigurationProvider.cs:66-74 | the calls made for one path: its listing call, then the calls of its entries when the listing succeeds (definition; stated by `WalkListsItsPathFirst`, `TraceShapes`, `TraceUsesMount`) |
| `HashicorpVault.TraceEntries` | Zooper.Owl.HashicorpVault/Extensions/HashicorpVaultConfigurationProvider.cs:84-96 | the calls made for a listing's entries: a folder's own trace, or one read per secret, up to and including the first failing read (definition) |
| `HashicorpVault.ConfigurationKeyFieldInjective` | Zooper.Owl.HashicorpVault/Extensions/HashicorpVaultConfigurationProvider.cs:100 | for one secret, distinct field names give distinct keys |
| `HashicorpVault.ReplaceSlashesInjectiveWithoutColons` | Zooper.Owl.HashicorpVault/Extensions/HashicorpVaultConfigurationProvider.cs:100 | two paths without `:` that map to the same text are equal |
| `HashicorpVault.KeysOfDistinctSecretsCanCollide` | Zooper.Owl.HashicorpVault/Extensions/HashicorpVaultConfigurationProvider.cs:100 | the secrets `a/b` and `a:b` give the same key for field `x` |
| `HashicorpVault.WriteFields` | Zooper.Owl.HashicorpVault/Extensions/HashicorpVaultConfigurationProvider.cs:98-102 | writing a secret adds exactly one key per field to the keys already present |
| `HashicorpVault.WriteFieldsLastWins` | Zooper.Owl.HashicorpVault/Extensions/HashicorpVaultConfigurationProvider.cs:98-102 | a field's key holds the value of the field's last occurrence, and a null value is stored as a null entry |
| `HashicorpVault.WriteFieldsKeepsOthers` | Zooper.Owl.HashicorpVault/Extensions/HashicorpVaultConfigurationProvider.cs:98-102 | keys that no field maps to keep their old value |
| `HashicorpVault.WriteFieldsOverlay` | Zooper.Owl.HashicorpVault/Extensions/HashicorpVaultConfigurationProvider.cs:101 | writing over a dictionary equals that dictionary overridden by the same writes into an empty one |
| `HashicorpVault.WalkOverlay` | Zooper.Owl.HashicorpVault/Extensions/HashicorpVaultConfigurationProvider.cs:58-110 | the walk only adds or overwrites: its result is the old dictionary overridden by the flattened tree |
| `HashicorpVault.WalkEntriesOverlay` | Zooper.Owl.HashicorpVault/Extensions/HashicorpVaultConfigurationProvider.cs:77-104 | the same for the entries of one listing |
| `HashicorpVault.WalkKeepsKeys` | Zooper.Owl.HashicorpVault/Extensions/HashicorpVaultConfigurationProvider.cs:101 | every key present before a walk is present after it |
| `HashicorpVault.WalkTwice` | Zooper.Owl.HashicorpVault/Extensions/HashicorpVaultConfigurationProvider.cs:26-41 | loading the same store twice gives the same dictionary as loading it once |
| `HashicorpVault.WalkKeys` | Zooper.Owl.HashicorpVault/Extensions/HashicorpVaultConfigurationProvider.cs:76-103 | every added key is the key of a field of a secret in the tree; when no secret read fails, every such key is added |
| `HashicorpVault.WalkEntriesKeys` | Zooper.Owl.HashicorpVault/Extensions/HashicorpVaultConfigurationProvider.cs:77-104 | the same for the entries of one listing |
| `HashicorpVault.FailedReadEndsListing` | Zooper.Owl.HashicorpVault/Extensions/HashicorpVaultConfigurationProvider.cs:93-109 | at the first failing secret read, the listing's result is what the earlier entries wrote, and that read is the listing's last call |
| `HashicorpVault.LaterSiblingsUnaffected` | Zooper.Owl.HashicorpVault/Extensions/HashicorpVaultConfigurationProvider.cs:84-88 | after entries with no failing read, later siblings write their keys on top, whatever the earlier subtrees did or failed to do |
| `HashicorpVault.FailedFolderContributesNothing` | Zooper.Owl.HashicorpVault/Extensions/HashicorpVaultConfigurationProvider.cs:76-88 | a folder whose listing fails or has no keys changes nothing: leaving it out gives the same dictionary |
| `HashicorpVault.WalkListsItsPathFirst` | Zooper.Owl.HashicorpVault/Extensions/HashicorpVaultConfigurationProvider.cs:66-74 | a walk first lists its path, or `/` when the path is null |
| `HashicorpVault.TraceUsesMount` | Zooper.Owl.HashicorpVault/Extensions/HashicorpVaultConfigurationProvider.cs:66-96 | every call of the walk uses the configured mount point |
| `HashicorpVault.TraceEntriesUsesMount` | Zooper.Owl.HashicorpVault/Extensions/HashicorpVaultConfigurationProvider.cs:77-96 | the same for the entries of one listing |
| `HashicorpVault.TraceShapes` | Zooper.Owl.HashicorpVault/Extensions/HashicorpVaultConfigurationProvider.cs:79-96 | from the root, with non-empty names, a call lists a path exactly when the path ends in `/`: folders are never read and secrets never listed |
| `HashicorpVault.TraceEntriesShapes` | Zooper.Owl.HashicorpVault/Extensions/HashicorpVaultConfigurationProvider.cs:77-96 | the same for the entries of one listing |
| `HashicorpVault.FlattenExample` | Zooper.Owl.HashicorpVault/Extensions/HashicorpVaultConfigurationProvider.cs:58-110 | `{a/: {b: {x, y}}, c: {x}}` flattens to `a:b:x`, `a:b:y` and `c:x` |
| `HashicorpVault.FailedSubtreeExample` | Zooper.Owl.HashicorpVault/Extensions/HashicorpVaultConfigurationProvider.cs:84-109 | when reading `a/b` fails, the sibling `c` still gives `c:x` |
| `HashicorpVault.VaultConfigurationProvider.constructor` | Zooper.Owl.HashicorpVault/Extensions/HashicorpVaultConfigurationProvider.cs:17 | a new provider has the source's mount point and an empty dictionary |
| `HashicorpVault.VaultConfigurationProvider.Load` | Zooper.Owl.HashicorpVault/Extensions/HashicorpVaultConfigurationProvider.cs:26-41 | walks from a null path under the configured mount point: `Data` becomes `Walk(old Data, store, null)` |
| `HashicorpVault.VaultConfigurationProvider.LoadRecursive` | Zooper.Owl.HashicorpVault/Extensions/HashicorpVaultConfigurationProvider.cs:58-110 | updates `Data` in place to `Walk` of the old dictionary and logs exactly the `Trace` calls |
| `HashicorpVault.VaultConfigurationProvider.LoadListing` | Zooper.Owl.HashicorpVault/Extensions/HashicorpVaultConfigurationProvider.cs:76-104 | the entry loop leaves `Data` equal to `WalkEntries` of the old dictionary and logs exactly the `TraceEntries` calls |
| `HashicorpVault.VaultConfigurationProvider.LoadEntry` | Zooper.Owl.HashicorpVault/Extensions/HashicorpVaultConfigurationProvider.cs:79-103 | one entry: it stops the listing exactly when the entry is a secret whose read fails; otherwise `Data` becomes the old dictionary with the folder walked or the secret's fields written (`Visit`), and `Data` and the call log move one entry along the listing's walk |
| `HashicorpVault.VaultConfigurationProvider.WriteSecret` | Zooper.Owl.HashicorpVault/Extensions/HashicorpVaultConfigurationProvider.cs:98-102 | the field loop leaves `Data` equal to `WriteFields` of the old dictionary |
| `CompositeKeyVault.FirstStop` | Zooper.Owl.AzureKeyVault/CompositeKeyVaultProvider.cs:69-83 | every client before the returned index skips (null object or 404), and the client at it does not |
| `CompositeKeyVault.Skips` | Zooper.Owl.AzureKeyVault/CompositeKeyVaultProvider.cs:75-83 | the answers after which the loop moves on: a null secret object, or a request failure with status 404 (definition) |
| `CompositeKeyVault.Resolve` | Zooper.Owl.AzureKeyVault/CompositeKeyVaultProvider.cs:69-88 | the lookup over the clients in order: a secret object's value, the next client after a skip, an escaping exception otherwise, null when no client is left (definition; stated by `ResolveAtFirstStop`) |
| `CompositeKeyVault.QueryCount` | Zooper.Owl.AzureKeyVault/CompositeKeyVaultProvider.cs:69-84 | the number of clients asked is at most the number of clients, and is zero only when there are none |
| `CompositeKeyVault.FirstStopUnique` | Zooper.Owl.AzureKeyVault/CompositeKeyVaultProvider.cs:69-83 | that index is the only one with this property |
| `CompositeKeyVault.ResolveAtFirstStop` | Zooper.Owl.AzureKeyVault/CompositeKeyVaultProvider.cs:69-88 | the lookup is decided by the first client that does not skip, and is null when there is none |
| `CompositeKeyVault.FirstSecretWins` | Zooper.Owl.AzureKeyVault/CompositeKeyVaultProvider.cs:73-78 | the first client with a secret object supplies its value, and only the clients up to it are asked |
| `CompositeKeyVault.OtherFailuresEscape` | Zooper.Owl.AzureKeyVault/CompositeKeyVaultProvider.cs:80 | a failure other than a 404 escapes, after which no later client is asked |
| `CompositeKeyVault.AllSkipGivesNull` | Zooper.Owl.AzureKeyVault/CompositeKeyVaultProvider.cs:86-88 | when every client skips, the result is null rather than an exception, and every client was asked |
| `CompositeKeyVault.UnaskedClientsDoNotMatter` | Zooper.Owl.AzureKeyVault/CompositeKeyVaultProvider.cs:69-78 | answers of clients that are not asked cannot change the outcome |
| `CompositeKeyVault.AppendedClientsIgnored` | Zooper.Owl.AzureKeyVault/CompositeKeyVaultProvider.cs:69-78 | vaults added after a deciding client change neither the outcome nor the first stop, and none of them is asked |
| `CompositeKeyVault.NullValueStopsSearch` | Zooper.Owl.AzureKeyVault/CompositeKeyVaultProvider.cs:51-52 | a secret object with a null value ends the search with a null value |
| `CompositeKeyVault.CompositeKeyVaultProvider.constructor` | Zooper.Owl.AzureKeyVault/CompositeKeyVaultProvider.cs:25-28 | one client per URI, in the order of the URIs |
| `CompositeKeyVault.CompositeKeyVaultProvider.Load` | Zooper.Owl.AzureKeyVault/CompositeKeyVaultProvider.cs:36-39 | does nothing: the provider loads and caches no secrets (it has no `modifies` clause) |
| `CompositeKeyVault.CompositeKeyVaultProvider.GetSecret` | Zooper.Owl.AzureKeyVault/CompositeKeyVaultProvider.cs:67-89 | the loop's outcome is `Resolve` of the clients, and the clients asked are exactly the first `QueryCount` of them, in order |
| `CompositeKeyVault.CompositeKeyVaultProvider.TryGet` | Zooper.Owl.AzureKeyVault/CompositeKeyVaultProvider.cs:47-53 | throws exactly when the lookup raises; otherwise returns the resolved value, with found true exactly when it is not null |

## Left out

- Building `VaultClient`, `SecretClient`, `DefaultAzureCredential` and the token authentication, and all network traffic. These are SDK calls; the store's answers are inputs instead (a `Node` tree, a `Vaults` function).
- Async tasks and `.GetAwaiter().GetResult()`: every call is one synchronous step.
- The `Console.WriteLine` in the catch block: a caught failure just ends that call.
- `kv.Value?.ToString()`: field values are given already converted, as optional strings.
- Keys compared ignoring case. The `Data` dictionary of the framework's `ConfigurationProvider` base class, which is not part of this model, ignores case when it compares keys. The model's map compares keys exactly, so keys that differ only in case are separate entries here.
- `EndsWith("/")` compared by culture: the model checks the last character, which agrees except on characters the culture ignores.
- A null entry name in a listing, or a null `secret.Data`: a null name is not modelled (names are strings), and a null payload is folded into `ReadFailed`, since dereferencing it throws inside the same try block.
- The default `mountPoint = "kv"` of `LoadRecursive`: `Load` always passes the source's mount point, so the model takes the mount point explicitly.
- `HashicorpVaultConfigurationSource`, `CompositeKeyVaultSource`, `AzureKeyVaultExtensions` and `AppConfigurationExtensions`: these only pass settings along or wire up the host builder. The `--` to `:` renaming there is done by an SDK class that is not part of this model.
- The secret objects' properties other than `Value`, and the `Status` of failures other than `RequestFailedException` (they all escape alike).
