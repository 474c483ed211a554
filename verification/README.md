# dexsidecar token rotation, modelled in Dafny

dexsidecar is a sidecar that keeps an OAuth2 access token fresh in a file.
Once per tick it loads its configuration from `dex_*` environment variables,
reads the stored token's `exp` claim, and, when the token is missing,
unreadable or due, performs a token exchange against the identity provider
and writes the new token to the file.

This project models the issuer package (`pkg/issuer`) as pure functions over
immutable data:

- `wrappers.dfy`: `Option` and `Result`, which stand for Go's nil pointers and `(T, error)` returns.
- `strings.dfy`: `strings.Cut` and `strings.CutPrefix`, with the lemma that `Cut` splits at the first separator.
- `url_values.dfy`: `url.Values` as a multimap from name to the ordered list of its values. `Add` appends. A lemma states that grouping keeps every value in order.
- `clock.dfy`: instants and durations as integer nanoseconds.
- `errors.dfy`: one constructor per distinct message of a returned `fmt.Errorf` error; `LoadConfig` stands for both issuer.go:114 and issuer.go:128, and `IssueFailed` for both issuer.go:119 and issuer.go:141. An error that wraps another holds it as its cause. The three errors of `loadTokenExp` (issuer.go:80, 86 and 90) are only logged, so they have no constructor: the model turns them into an unknown expiry.
- `files.dfy`: the file system as a map from path to contents. The empty path names no file.
- `config.dfy`: `ConfigFromEnvs`, `loadFromEnv`, `loadFromFile` and `os.Getenv` over an environment given as a sequence of `KEY=VALUE` entries.
- `issuer.dfy`: the Basic-auth split, `issue` (as `ExchangeToken`), `Issue`, `loadTokenExp`, `save` and `Rotate`.
- `rotation.dfy`: properties that relate two cycles, or two configurations.

`Rotate` is a function from four inputs to a `Cycle`:

- the inputs: the loaded configuration (or its error), the file system, a `World` of abstract effects, and one instant `now`;
- the `World`: the reading of a token's claims, the HTTP transport and JSON decoder, and how the next write behaves;
- the `Cycle`: the outcome (`Fresh`, `Rotated` or `Failed`), the file system afterwards, the ordered steps taken (`Inspect`, `Exchange`, `Commit`), and whether the "token expiration is too short" warning fired.

Go's `Rotate` returns nil for both `Fresh` and `Rotated`.

Facts about the code that the model keeps:

- The code writes the token file in place: `os.Create` truncates it, then the token is written. There is no temporary file and no rename. A write that fails after truncation leaves a prefix of the new token (`Save`, `TornWrite`).
- `issue` always reports a lifetime of 0 and ignores `expires_in`. The computed expiry is therefore `now`. With the clock read once, the warning fires exactly when a token was obtained and `RefreshBefore > 0`. So with the default one-hour margin, every cycle that gets a token warns, even when the provider announces two hours (`AnnouncedLifetimeIgnored`). A fresh cycle or a failed exchange does not warn.
- `loadTokenExp` calls `jwt.ParseWithClaims` with a nil key function, which golang-jwt v5 rejects for every token. So the code never finds a stored token fresh and exchanges on every cycle whose configuration loads (`RotateAsWritten`; see "## Findings"). `Rotate` models the evidently intended reading of the claims without verification. Under that reading, whether the next cycle is a no-op depends only on the `exp` claim inside the new token (`SecondCycleIsNoOp`).
- A non-200 response is reported by its status code alone. The body is only logged.
- Configuration loading is part of the cycle. Every `dex_K=V` entry with a non-empty `K` becomes a form parameter, including `dex_endpoint`, `dex_access_token_file`, `dex_basic_auth` and `dex_refresh_before`. `dex_=V` contributes nothing (`EmptyKeySkipped`), and `dex_file_K=P` contributes `K` with the contents of the file `P` (`FileEntry`).
- The empty path can be neither read nor created. So `dex_file_K` without `=` always fails to load (`FileEntryWithoutPath`). An unset `dex_access_token_file` makes every exchanging cycle fail at the write (`UnsetDestinationNeverRotates`).

## Model

| member | source | states |
|---|---|---|
| Files.ReadFile | pkg/issuer/config.go:92 | a read succeeds exactly when the path holds a file, and the empty path never reads |
| Strings.Cut | pkg/issuer/config.go:79 | the result re-joins to the input around the separator and `before` holds no separator; with no separator, everything is `before` and `after` is empty |
| Strings.CutAtFirst | pkg/issuer/config.go:90 | any separator-free prefix followed by the separator is exactly where the cut happens, whatever the rest holds |
| Strings.CutPrefix | pkg/issuer/config.go:74 | found exactly when the prefix is a prefix; then the input is prefix plus remainder, otherwise the input is returned unchanged |
| UrlValues.Add | pkg/issuer/config.go:39 | appends the value to the end of its key's list, and the key is present afterwards |
| UrlValues.AddKeepsOtherKeys | pkg/issuer/config.go:49 | leaves every other key's list unchanged |
| UrlValues.GroupLookup | pkg/issuer/config.go:32-52 | after adding a sequence of parameters, each key lists exactly its values, in insertion order, with repeats kept |
| UrlValues.GroupKeys | pkg/issuer/config.go:32-52 | the keys present are exactly the keys added |
| IssuerConfig.Getenv | pkg/issuer/config.go:54-59 | a name containing `=` never has a value, and a non-empty value comes from an entry `name=value` of the environment |
| IssuerConfig.GetenvFirst | pkg/issuer/config.go:54-56 | a variable reads as the value of the first entry that defines it |
| IssuerConfig.GetenvUnset | pkg/issuer/config.go:59 | an undefined variable reads as the empty string |
| IssuerConfig.LoadFromEnv | pkg/issuer/config.go:73-82 | an entry without `dex_` gives the empty key; otherwise the key has no `=`, and the entry is `dex_` key `=` value, or `dex_` key with an empty value |
| IssuerConfig.LoadFromFile | pkg/issuer/config.go:84-98 | an entry without `dex_file_` gives the empty key; a failure only happens for a `dex_file_` entry and names the text after the prefix |
| IssuerConfig.NotFileEntry | pkg/issuer/config.go:85-88 | a `dex_` entry whose key does not start with `file_` never has the `dex_file_` prefix |
| IssuerConfig.EntryOf | pkg/issuer/config.go:33-51 | an entry without `dex_` contributes nothing; only a `dex_file_` entry can fail; a contributed key is non-empty and free of `=` |
| IssuerConfig.LiteralBranch | pkg/issuer/config.go:73-82 | `loadFromEnv` on `dex_K=V` gives `(K, V)`, and on `dex_K` gives `(K, "")`, for every `K` without `=` |
| IssuerConfig.FileBranch | pkg/issuer/config.go:84-98 | `loadFromFile` on `dex_file_K=P` gives `K` with the contents of `P`, or an error naming `K=P` when `P` cannot be read |
| IssuerConfig.LiteralEntry | pkg/issuer/config.go:73-82 | `dex_K=V` contributes `(K, V)`, and `V` may itself contain `=` |
| IssuerConfig.LiteralEntryWithoutValue | pkg/issuer/config.go:79-81 | `dex_K` with no `=` contributes `K` with the empty value |
| IssuerConfig.EmptyKeySkipped | pkg/issuer/config.go:48-51 | `dex_=V` contributes nothing |
| IssuerConfig.FileEntry | pkg/issuer/config.go:84-97 | `dex_file_K=P` contributes `K` with the contents of `P`, not a literal `file_K`; an unreadable `P` fails the entry |
| IssuerConfig.FileEntryWithoutPath | pkg/issuer/config.go:90-95 | `dex_file_K` without `=` names the empty path and fails, whatever the file system holds |
| IssuerConfig.EmptyFileKeyFallsThrough | pkg/issuer/config.go:33-49 | `dex_file_=P` with `P` readable falls through to the literal branch and contributes `file_` with value `P` |
| IssuerConfig.Pairs | pkg/issuer/config.go:32-52 | the whole environment contributes at most one parameter per entry |
| IssuerConfig.PairsKeysNonEmpty | pkg/issuer/config.go:38-51 | every contributed parameter has a non-empty key |
| IssuerConfig.PairsSuccess | pkg/issuer/config.go:33-36 | loading the parameters succeeds exactly when every entry does |
| IssuerConfig.PairsFirstFailure | pkg/issuer/config.go:33-36 | the first failing entry aborts the load with its own error |
| IssuerConfig.CollectValues | pkg/issuer/config.go:32-52 | the loop fails exactly when some entry fails, with the first failure's error; otherwise it builds the grouping of all contributed parameters in environment order |
| IssuerConfig.ConfigFromEnvs | pkg/issuer/config.go:28-71 | a file failure or an unparsable `dex_refresh_before` discards the configuration; otherwise each key lists exactly its values in environment order, the three settings are read from their variables, and `RefreshBefore` is one hour when its variable is empty |
| Issuer.BasicAuthOf | pkg/issuer/issuer.go:49-52 | no credentials when the setting is empty; otherwise the user has no `:`, user `:` password re-joins to the setting when it has a colon, and the password is empty when it has none |
| Issuer.UserPassRoundTrip | pkg/issuer/issuer.go:50-51 | the Basic `user-pass` re-joined from the split is the setting itself, with a `:` appended when it had none |
| Issuer.BasicAuthSplitsAtFirstColon | pkg/issuer/issuer.go:50 | every colon-free user and any password are recovered from `user:password` |
| Issuer.BuildRequest | pkg/issuer/issuer.go:45-53 | a form POST of every configured value to the endpoint, with Basic credentials exactly when `BasicAuth` is set, and they re-join to the setting |
| Issuer.ExchangeToken | pkg/issuer/issuer.go:44-75 | a malformed endpoint, a send failure, a non-200 status and an undecodable body are each an error; otherwise the token is the decoded `access_token` with lifetime 0 |
| Issuer.Issue | pkg/issuer/issuer.go:111-123 | a loader failure is wrapped as a configuration error; otherwise the exchange's token, or its error wrapped as an issue failure |
| Issuer.LoadTokenExp | pkg/issuer/issuer.go:77-94 | with the claims read without verification: an expiry is known exactly when the file reads, its claims decode and carry `exp`, and it is that claim |
| Issuer.LoadTokenExpAsWritten | pkg/issuer/issuer.go:84-87 | with the nil key function passed to `jwt.ParseWithClaims` at issuer.go:84 (`ParseWithNilKeyfunc`, which fails for every token), no expiry is ever known |
| Issuer.Save | pkg/issuer/issuer.go:96-109 | success exactly when the path is non-empty and nothing faults, and the file then holds the token; a failed create, or the empty path, changes nothing; a failed write leaves a prefix of the token, a proper one when it wrote fewer characters; no other file changes |
| Issuer.SaveThenRead | pkg/issuer/issuer.go:78 | after a successful save, `os.ReadFile` of the destination returns the token, and every path that names another file reads as before |
| Issuer.Rotate | pkg/issuer/issuer.go:125-157 | steps run in the order inspect, exchange, commit, each at most once; a config failure touches nothing; the token is fresh exactly when a known expiry is strictly after `now + RefreshBefore`, and unknown expiry means exchange; commit happens exactly after a successful exchange; a failed exchange leaves files unchanged; a committed cycle ends as the write does; the warning fires exactly when a commit happens with a positive margin |
| Issuer.RotateAsWritten | pkg/issuer/issuer.go:125-157 | with the source's JWT call, every cycle that loads its configuration exchanges, and commits whenever the exchange succeeds |
| RotationProperties.SecondCycleIsNoOp | pkg/issuer/issuer.go:131-136 | after a successful rotation, the next cycle is a no-op when the new token's `exp` lies beyond the next margin |
| RotationProperties.WarningIsAdvisory | pkg/issuer/issuer.go:144-152 | two cycles differing only in the margin, both exchanging, end alike and leave the same files |
| RotationProperties.AnnouncedLifetimeIgnored | pkg/issuer/issuer.go:139-148 | with a positive margin the warning fires even when `expires_in` covers the margin |
| RotationProperties.FailedExchangeKeepsExpiry | pkg/issuer/issuer.go:139-142 | a cycle that fails before committing leaves the next cycle reading the same expiry |
| RotationProperties.TornWrite | pkg/issuer/issuer.go:97-106 | a write failing after truncation leaves a file that is neither the old nor the new token |
| RotationProperties.TornWriteHealsNextCycle | pkg/issuer/issuer.go:131-133 | when a torn file no longer parses, the next cycle exchanges again |
| RotationProperties.AsWrittenRewritesFreshToken | pkg/issuer/issuer.go:84-87 | a stored token valid for ten more hours is left alone by `Rotate` but exchanged and overwritten by `RotateAsWritten` |
| RotationProperties.UnsetDestinationNeverRotates | pkg/issuer/issuer.go:97-100 | with an empty destination no cycle rotates, the files stay as they were, and a committed cycle fails at the create |
| RotationProperties.IssueMatchesRotation | pkg/issuer/issuer.go:111-123 | given the same provider response, `Issue` returns exactly the token a successful rotation writes |

## Left out

- HTTP transport, the 10-second client timeout and context cancellation (`NewIssuer`): network I/O. A round trip is the abstract `Transport.send`, and building a request is the abstract `Transport.validEndpoint`.
- JSON decoding of the response and the decoding of a stored token's claims: foreign libraries. They are the abstract `Transport.decode` and `World.readClaims`. The source asks golang-jwt to verify the token with no key, and that call always fails (`ParseWithNilKeyfunc`).
- `url.Values.Encode`, the base64 encoding of the Basic header and `time.ParseDuration`: library internals. The form is the multimap itself, credentials stop at the user/password pair, and the duration parser is a parameter.
- `slog` logging: the only log the model exposes is the too-short warning, as `Cycle.warned`.
- `cmd/dexsidecar/main.go`: the ticker, the signal handling and the `dex_refresh_interval` parsing are orchestration. `main.go` is not part of this model.
- Issuer.Rotate: reads the clock once per cycle, where the source calls `now()` up to three times. Differences between those readings are not modelled. As a consequence, with `RefreshBefore == 0` the code warns whenever the clock advances between the readings at issuer.go:144 and issuer.go:145; the model never does.
- Clock: instants and durations are unbounded integers. The int64 overflow of `time.Duration` and of `time.Time.Add` is not modelled.
- Errors: the `%w` cause from the operating system or a library is dropped. Only the kind of failure and the source's own context are kept.
- IssuerConfig.Getenv: the environment is the sequence `os.Environ` returns. Go's removal of later duplicates of a name is not modelled, and the first definition wins either way.
- Files: every reason a read can fail is one absent path. `Save` leaves the number of bytes a failing write manages to the abstract `WriteFails`, and the ignored error of the deferred `Close` is not modelled.
- Issuer.SaveThenRead: distinct path strings stand for distinct files. Symlinks, hard links and other spellings of one file (such as `./tok` for `tok`) are not modelled; in Go a save through one of them is read back through all of them.
- RotationProperties.IssueMatchesRotation: `Transport.send` is a function, so two exchanges of the same request get the same response. In Go, `Issue` and `Rotate` each make their own HTTP exchange and generally get different tokens.
- Issuer.Save: a `WriteFails` count of at least the token's length, which a Go write that errors never reports, leaves the whole token in the file.
- Strings.Cut: takes a one-character separator. The source only ever passes `=` and `:`.
- Strings: a Go string is a sequence of bytes, while the model's `string` is a sequence of characters. Every split and prefix test in the source uses ASCII text (`=`, `:`, `dex_`, `dex_file_`), so the results agree for valid UTF-8. Environment entries or file contents that are not valid UTF-8 cannot be represented.

## Findings

| source | as written | input that shows it | evidently intended | confidence | as-written member | corrected member |
|---|---|---|---|---|---|---|
| pkg/issuer/issuer.go:84-87 | `jwt.ParseWithClaims` is called with a nil key function; golang-jwt v5 then returns `ErrTokenUnverifiable` for every token, so `loadTokenExp` always errors and the freshness test at issuer.go:134-135 never runs | a stored token whose `exp` lies ten hours ahead, with a one-hour margin: the cycle exchanges and overwrites it | read the claims without verifying the signature (as `ParseUnverified` does) and skip the exchange while the token is fresh | not executed; rests on golang-jwt v5's handling of a nil key function | Issuer.RotateAsWritten | RotationProperties.SecondCycleIsNoOp |
