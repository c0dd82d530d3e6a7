# Google Secret Manager references in secrets-init, modelled in Dafny

secrets-init rewrites the environment of a process before starting it. The
Google Cloud provider (`pkg/secrets/google/secrets.go`) handles a list of
`KEY=VALUE` entries. An entry whose value starts with `gcp:secretmanager:`
is a reference to a secret. The rest of the value is turned into a Secret
Manager resource name, that name is fetched, and the entry becomes
`KEY=<payload>`. Every other entry is copied as it is.

The model has three files:

- `go_strings.dfy` (module `GoStrings`): the parts of Go's `strings`
  package that the provider uses. These are `HasPrefix`, `TrimPrefix`,
  `Contains` and `Split` on a one-character separator. `IndexOf` (the
  first separator) and `Join` (the inverse of `Split`, used by the
  round-trip lemmas) are there to give `Split` its meaning; the provider
  calls neither.
- `secrets.dfy` (module `GoogleSecrets`): the provider itself. It contains:
  - the long-form test. This is the regular expression
    `projects/[^/]+/secrets/[^/+](/version/[^/+])?`, matched anywhere in
    the name. It is hand-coded as a scan (`IsLong`) and proved equal to its
    existential reading (`MatchesLongForm`).
  - the rewrite of short names under the provider's project (`Qualify`).
  - the `/versions/latest` default (`WithDefaultVersion`).
  - the fate of one entry (`Classify`, `ResolveEntry`, `Requested`).
  - the loop of `ResolveSecrets` as a method, with its body on one entry
    as the method `ResolveOne`. Both are proved against those functions,
    and the names they send to the client are proved to be exactly those
    of `Requested` and `FetchLog`.
  - `NewGoogleSecretsProvider` as a method, with the precedence of the
    explicit project over discovery.
- `scenarios.dfy` (module `GoogleSecretsScenarios`): the documented name
  forms and some unusual entries, with what the model gives for each
  stated and proved as a lemma.

The Secret Manager client is the object `sm` of the provider, of class
`SecretManagerClient`. Its constant function `answer` is what the store
gives for each resource name. A call `AccessSecretVersion(name)` returns
`answer(name)` and appends `name` to the client's ghost `log`, so the order
and the number of fetches of a pass can be stated as the change of that log.

Where the code and its documentation differ, the model follows the code:

- The value of an entry is `kv[1]` of `strings.Split(env, "=")`. That is the
  text between the first and the second `=`, not everything after the
  first `=`. A reference followed by `=more` is resolved without `=more`,
  and the rebuilt entry loses it. An entry without the tag is copied whole.
- The long-form test is structural and unanchored. `[^/+]` matches exactly
  one character other than `/` and `+`. The optional `/version/` group
  (spelled without the `s`) never changes whether the expression matches.
  So `x/projects/p/secrets/s` counts as long and is never put under the
  provider's project.
- The version test looks for `/versions/` anywhere in the name, the project
  segment included. Under a project called `versions`, no default version
  is appended (`ProjectNamedVersions`).
- A fetch failure wraps only the store's cause, not the failing name.
- On any error the pass returns its input `vars` unchanged, together with
  the error.

## Model

| member | source | states |
|---|---|---|
| `GoStrings.HasPrefixIff` | pkg/secrets/google/secrets.go:61 | a string starts with the prefix exactly when it is the prefix followed by some text |
| `GoStrings.TrimPrefix` | pkg/secrets/google/secrets.go:63 | putting the prefix back in front of the result gives the input; without the prefix the input is returned as it was |
| `GoStrings.Contains` | pkg/secrets/google/secrets.go:75 | the empty text is contained in every string, and a contained text is never longer than the string |
| `GoStrings.ContainsIff` | pkg/secrets/google/secrets.go:75 | the `Contains` scan is true exactly when the searched text occurs at some index |
| `GoStrings.NotContainsMissingChar` | pkg/secrets/google/secrets.go:75 | a string that lacks one of the characters of the searched text does not contain it |
| `GoStrings.ContainsInContext` | pkg/secrets/google/secrets.go:75 | an occurrence stays an occurrence whatever text is put before and after it |
| `GoStrings.IndexOf` | pkg/secrets/google/secrets.go:59 | the result is the first position of the separator, or the length exactly when the separator is absent |
| `GoStrings.CutAtIndex` | pkg/secrets/google/secrets.go:59 | a string holding the separator is the text before its first separator, that separator, and the rest |
| `GoStrings.Split` | pkg/secrets/google/secrets.go:59 | there is at least one field, and two when the separator occurs; the first field is the text before the first separator |
| `GoStrings.SplitFieldsLackSeparator` | pkg/secrets/google/secrets.go:59 | no field of a split contains the separator |
| `GoStrings.JoinSplit` | pkg/secrets/google/secrets.go:59 | joining the fields of a split gives back the original string |
| `GoStrings.SplitJoin` | pkg/secrets/google/secrets.go:59 | splitting the join of separator-free fields gives back those fields |
| `GoStrings.SecondField` | pkg/secrets/google/secrets.go:60 | `kv[1]` is the text between the first and the second separator, or up to the end |
| `GoogleSecrets.IsLongIff` | pkg/secrets/google/secrets.go:56 | the scan is true exactly when some `projects/`, run of non-`/`, `/secrets/`, char-not-`/`-or-`+` piece occurs anywhere in the name |
| `GoogleSecrets.IsLong` | pkg/secrets/google/secrets.go:56 | a name that matches the long form has at least 20 characters |
| `GoogleSecrets.LongFormAnywhere` | pkg/secrets/google/secrets.go:65 | any name with a `projects/<p>/secrets/<c>` piece somewhere is long, whatever text surrounds it |
| `GoogleSecrets.QualifiedIsLong` | pkg/secrets/google/secrets.go:56 | the documented form `projects/{P}/secrets/{S}` is long whenever P is non-empty without `/` and S starts with a character other than `/` and `+` |
| `GoogleSecrets.Qualify` | pkg/secrets/google/secrets.go:65-72 | fails exactly for a short name with an empty project, and then with that name; a long name is returned as it is; a short one is exactly `projects/{P}/secrets/{name}` |
| `GoogleSecrets.WithDefaultVersion` | pkg/secrets/google/secrets.go:74-77 | the result always contains `/versions/` and starts with the input; a name that already contains it is untouched, any other gets exactly `/versions/latest` appended |
| `GoogleSecrets.WithDefaultVersionIdempotent` | pkg/secrets/google/secrets.go:74-77 | adding the default version twice is the same as adding it once |
| `GoogleSecrets.Normalize` | pkg/secrets/google/secrets.go:63-77 | fails exactly for a short name with no project; every name it produces carries a version |
| `GoogleSecrets.LongNameIgnoresProject` | pkg/secrets/google/secrets.go:65-72 | a long name resolves to the same fetched name under every project, and never fails |
| `GoogleSecrets.ShortNameUnderProject` | pkg/secrets/google/secrets.go:67-72 | a short name under a non-empty project succeeds, and the result starts with `projects/{P}/secrets/{name}` |
| `GoogleSecrets.ShortNameDefaultVersion` | pkg/secrets/google/secrets.go:67-77 | a short name under a non-empty project, whose qualified form holds no `/versions/`, becomes `projects/{P}/secrets/{name}/versions/latest` |
| `GoogleSecrets.VersionedShortName` | pkg/secrets/google/secrets.go:52 | the form `{SECRET}/versions/{V}` becomes `projects/{P}/secrets/{SECRET}/versions/{V}` |
| `GoogleSecrets.UnversionedLongName` | pkg/secrets/google/secrets.go:49 | every long name without `/versions/`, such as `projects/{P}/secrets/{S}`, becomes that name followed by `/versions/latest`, under any provider project |
| `GoogleSecrets.KeyAndValue` | pkg/secrets/google/secrets.go:59-60 | the key of `key=value...` is `key`, and the value stops at the second `=` |
| `GoogleSecrets.KeyValueShape` | pkg/secrets/google/secrets.go:59-60 | for any entry with `=`, neither key nor value holds `=`; the entry starts with `key=`, and after that comes the value, then the end or another `=` |
| `GoogleSecrets.ClassifyCases` | pkg/secrets/google/secrets.go:61-72 | an entry is copied exactly when its value lacks the tag; it is rejected exactly when the tagged name is short and the project empty, with that name; otherwise it fetches the normalised name and keeps its key |
| `GoogleSecrets.ClassifyReference` | pkg/secrets/google/secrets.go:59-72 | an entry `key=gcp:secretmanager:{name}` without a second `=` keeps `key` and is decided by the normalisation of `name` alone: its error, or a fetch of the normalised name |
| `GoogleSecrets.ReferenceEntry` | pkg/secrets/google/secrets.go:59-86 | `key=gcp:secretmanager:{name}` fetches nothing and fails when `name` cannot be normalised; otherwise it fetches exactly the normalised name and becomes `key=payload` or the store's failure |
| `GoogleSecrets.Requested` | pkg/secrets/google/secrets.go:61-82 | an entry causes at most one fetch, none when its value lacks the tag, and any name it fetches carries a version |
| `GoogleSecrets.ResolveEntry` | pkg/secrets/google/secrets.go:61 | an entry whose value lacks the tag is emitted unchanged |
| `GoogleSecrets.TaggedEntry` | pkg/secrets/google/secrets.go:61-86 | a tagged entry whose name cannot be normalised yields that error and fetches nothing; otherwise it fetches exactly the normalised name and becomes `key=payload` or the store's failure |
| `GoogleSecrets.SubstitutedEntry` | pkg/secrets/google/secrets.go:59-86 | a resolved reference is exactly `key=payload`, with the payload the store gave for the normalised name, and the output reads back with the same key |
| `GoogleSecrets.ShortNameWithoutProject` | pkg/secrets/google/secrets.go:67-69 | a short reference with no project fails with its name, and nothing is fetched for it |
| `GoogleSecrets.LongReferenceIgnoresProject` | pkg/secrets/google/secrets.go:65-72 | a long reference resolves and fetches the same under any two projects |
| `GoogleSecrets.ResolvedKeysUnchanged` | pkg/secrets/google/secrets.go:86 | when every entry resolves, every output entry keeps its `=` and its key |
| `GoogleSecrets.FetchLogAppend` | pkg/secrets/google/secrets.go:58 | the fetches of a concatenated list are those of the first part, then those of the second only if the whole first part succeeds |
| `GoogleSecrets.NoFetchAfterFailure` | pkg/secrets/google/secrets.go:82-85 | after the first failing entry nothing more is fetched |
| `GoogleSecrets.FetchLogExtend` | pkg/secrets/google/secrets.go:58-85 | while every earlier entry resolves, entry i adds exactly its own requested names to the fetches of the pass |
| `GoogleSecrets.FirstFailureUnique` | pkg/secrets/google/secrets.go:67-85 | a list has at most one first failing entry, so the error a failed pass reports is determined by its input |
| `GoogleSecrets.FetchLogBound` | pkg/secrets/google/secrets.go:58-82 | a pass fetches at most one name per entry, and every fetched name carries a version |
| `GoogleSecrets.ResolveOne` | pkg/secrets/google/secrets.go:59-87 | the loop body on one entry yields exactly `ResolveEntry` of it, and the client's log grows by exactly the names `Requested` gives |
| `GoogleSecrets.PassStep` | pkg/secrets/google/secrets.go:58-88 | once the entries before it resolved, entry i adds its own fetches; if it resolves the resolved prefix grows by it, and if it fails it is the first failure and nothing after it is fetched |
| `GoogleSecrets.ResolveNext` | pkg/secrets/google/secrets.go:58-88 | one turn of the loop: on success the output prefix grows by the resolved entry and the log is the fetches of the entries so far; on failure the entry is the first failure and the log holds the fetches of the whole pass |
| `GoogleSecrets.ResolveSecrets` | pkg/secrets/google/secrets.go:53-92 | on success, same length and entry i is entry i resolved; on error, the input list and the error of the first failing entry, all earlier entries having resolved; the client's log grows by exactly `FetchLog`, in input order |
| `GoogleSecrets.SecretManagerClient.AccessSecretVersion` | pkg/secrets/google/secrets.go:79-82 | a request for a name returns the store's answer for that name and appends the name to the client's log |
| `GoogleSecrets.NewGoogleSecretsProvider` | pkg/secrets/google/secrets.go:25-43 | an explicit project wins and discovery is not asked; otherwise the discovered project, or empty if discovery failed; only a client failure fails construction |
| `GoogleSecretsScenarios.ShortReferenceResolved` | pkg/secrets/google/secrets.go:51 | `KEY=gcp:secretmanager:{S}` under project P, where `projects/P/secrets/{S}` holds no `/versions/`, fetches exactly `projects/P/secrets/{S}/versions/latest` and becomes `KEY=<payload>` |
| `GoogleSecretsScenarios.DbPassExample` | pkg/secrets/google/secrets.go:51 | `DB_PASS=gcp:secretmanager:db-pass` under `p1`, with the store holding `hunter2`, becomes `DB_PASS=hunter2` |
| `GoogleSecretsScenarios.QualifiedVersionedName` | pkg/secrets/google/secrets.go:50 | `projects/P/secrets/S/versions/V` is fetched exactly as written under any provider project |
| `GoogleSecretsScenarios.ValueIsSecondField` | pkg/secrets/google/secrets.go:59-60 | `A=B=C` has key `A` and value `B` |
| `GoogleSecretsScenarios.TextAfterSecondSeparatorIgnored` | pkg/secrets/google/secrets.go:59-86 | a reference followed by `=rest` resolves and fetches as if `=rest` were absent |
| `GoogleSecretsScenarios.ProjectNamedVersions` | pkg/secrets/google/secrets.go:75-77 | under a project named `versions`, a short name gets no `/versions/latest` |

## Left out

- The Secret Manager SDK (`secretmanager.NewClient`, `AccessSecretVersion`, the protobuf request and response) is network I/O behind a foreign library. Client creation enters construction as an input `Result`. The store is the client's constant function `answer`, so it always gives the same answer for the same name.
- `metadata.ProjectID()` queries the GCE metadata service. Its outcome enters construction as an input `Result`, and a failure is taken to leave the project empty.
- NewGoogleSecretsProvider: the model assumes that a failed discovery yields an empty project. That is what the metadata library returns beside its error, but the library is not part of this model.
- Logging through logrus and the text of the wrapped errors. Errors are the plain variants `InitFailed`, `UnknownProject` and `FetchFailed`.
- `context.Context` cancellation and deadlines. They only act inside the store call, and they show up here as a fetch failure.
- Entries without `=`: the source panics on `kv[1]`. Every entry holding `=` is a precondition of the pass.
- Strings are sequences of characters, one per byte of the Go string. The regular expression works on runes. Its classes exclude only ASCII characters, so matching bytes or runes gives the same answer.
- A general regular-expression engine. Only the one expression the provider compiles is modelled, and it is compiled once per call in the source, which has no effect on results.
- Concurrent use of one provider. The source does not synchronise it, and the pass is sequential.
