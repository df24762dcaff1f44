# GeoIP route predicate, modelled in Dafny

This project models the GeoIP predicate plugin for the skipper gateway. The
plugin has three steps.

- **Load time.** `InitPredicate` reads the plugin options. The database path
  is the suffix of the last option that starts with `db=`. An empty or
  missing path is an error. Otherwise the MaxMind database is opened, and
  the result is a spec named `GeoIP`.
- **Route compile time.** `GeoipSpec.Create` reads the route's arguments and
  skips any that are not strings. A `from_last=` argument sets the
  address-mode flag through `strconv.ParseBool`; a value that is not a
  boolean literal aborts with `ErrInvalidPredicateParameters`. Every other
  string is upper-cased and added to the country set.
- **Request time.** `GeoipPredicate.Match` picks the client address, using the
  last forwarded address when the flag is set and the remote host otherwise.
  It looks the address up, replaces an empty ISO code by `UNKNOWN`, and
  tests whether that code is in the country set.

Files:

- `wrappers.dfy`: `Option` and `Result`.
- `go_strings.dfy`: `strings.HasPrefix` and `strings.ToUpper`, the latter on
  ASCII letters.
- `go_strconv.dfy`: `strconv.ParseBool` with its twelve literals.
- `geoip.dfy`: the predicate.

The two loops of the source (over the options and over the route arguments)
are methods. Their state is proved equal to recursive specification functions
of the processed prefix: `LastDb`, `LastFlag` and `Countries`. The argument
loop also keeps `!HasInvalidFlag` of the processed prefix, where
`HasInvalidFlag` says some `from_last=` argument has a value ParseBool
refuses. Lemmas then state what those functions mean.

The foreign parts become function values:

- `maxminddb.Open` is the `open` parameter of `InitPredicate`.
- `Reader.Lookup` is the field `Reader.lookup`. It returns the decoded ISO
  code together with an optional error.
- `snet.RemoteHost` and `snet.RemoteHostFromLast` are the two fields of
  `AddressSource`, over an abstract request type.

`Match` is a function, so calling it twice on the same configuration,
database and request gives the same answer.

The package's usage comment promises two things that the code does only in
part. The model follows the code.

- The comment at `geoip/geoip.go:12` says all lookup errors and unknowns get
  the `UNKNOWN` country. The code falls back to `UNKNOWN` only when the
  decoded code is empty (lines 113-115). A lookup that reports an error but
  still filled in a code is tested with that code (`GeoipPredicate.Match`,
  `MatchIgnoresLookupError`).
- The comment at `geoip/geoip.go:16` says country codes may be given in any
  case. That holds for the configured codes, which are upper-cased at line
  81. The looked-up code is never upper-cased (line 116), so a looked-up code
  with a lower-case letter never matches a created predicate
  (`CreatedLowerCaseNeverMatches`).

The usage comment's example `"last_from=true"` is not a flag. Under `Create`
it becomes the country `LAST_FROM=TRUE`, and the flag keeps its default
(`MisspelledFlagIsCountry`, `MisspelledFlagKeepsDefault`).

## Model

| member | source | states |
|---|---|---|
| `GoStrings.HasPrefix` | geoip/geoip.go:50 | `s` starts with `prefix` exactly when `s` is at least as long as `prefix` and begins with the same characters (Go's length-and-slice test) |
| `GoStrings.ToUpper` | geoip/geoip.go:81 | the upper-cased string has the same length, upper-cases each character, and contains no lower-case ASCII letter |
| `GoStrings.ToUpperIdempotent` | geoip/geoip.go:81 | upper-casing twice is the same as upper-casing once |
| `GoStrings.ToUpperFixedPoint` | geoip/geoip.go:81 | a string is left unchanged by upper-casing exactly when it contains no lower-case ASCII letter |
| `GoStrconv.ParseBool` | geoip/geoip.go:76 | accepts exactly the twelve literals 1 t T TRUE true True 0 f F FALSE false False and refuses every other string; an accepted value is true exactly when it upper-cases to 1, T or TRUE |
| `GoStrconv.ParseBoolRefuses` | geoip/geoip.go:76-79 | ParseBool is not case-insensitive: it refuses "tRUE" and "fALSE", and it refuses "yes" and "" |
| `GeoIP.LastDb` | geoip/geoip.go:47-53 | a non-empty path is the suffix after `db=` of the last option with that prefix |
| `GeoIP.LastDbNone` | geoip/geoip.go:47-53 | when no option starts with `db=`, the path is empty |
| `GeoIP.LastDbIsLastOption` | geoip/geoip.go:48-53 | the path is the suffix after `db=` of the last option with that prefix; earlier ones are overwritten |
| `GeoIP.LastDbIgnoresOthers` | geoip/geoip.go:48-52 | inserting an option without the `db=` prefix anywhere in the list does not change the path |
| `GeoIP.LastDbEmptyIff` | geoip/geoip.go:47-56 | the path is empty exactly when no option starts with `db=`, or the last such option is exactly `db=` |
| `GeoIP.EmptyLastDbWins` | geoip/geoip.go:47-56 | a non-empty earlier `db=` does not rescue an empty last one |
| `GeoIP.InitPredicate` | geoip/geoip.go:46-66 | empty path: the missing-parameter error, with the message "missing db= parameter for geoip plugin"; the ghost record of the open call says it is skipped then; otherwise open gets that path; its failure becomes the open error carrying path and cause, with the message "failed to open db <path>: <cause>"; its success becomes a spec holding the reader, whose name is "GeoIP" |
| `GeoIP.GeoipSpec.Create` | geoip/geoip.go:68-86 | fails, with ErrInvalidPredicateParameters only, exactly when some `from_last=` argument has a non-literal value; on success yields the spec's reader, flag LastFlag(config) and country set Countries(config) |
| `GeoIP.Countries` | geoip/geoip.go:71-84 | no configured country contains a lower-case ASCII letter |
| `GeoIP.LastFlag` | geoip/geoip.go:69-76 | the flag is set only if some `from_last=` argument carries a literal ParseBool reads as true |
| `GeoIP.CountriesMembers` | geoip/geoip.go:71-84 | a string is in the country set exactly when some string argument without the `from_last=` prefix upper-cases to it; nothing else is added, duplicates collapse |
| `GeoIP.CountriesUpper` | geoip/geoip.go:81 | every configured country has no lower-case ASCII letter and is a fixed point of ToUpper |
| `GeoIP.LastFlagNone` | geoip/geoip.go:69 | without `from_last=` arguments the flag is false |
| `GeoIP.LastFlagIsLast` | geoip/geoip.go:75-76 | otherwise the flag is what ParseBool gives for the last `from_last=` argument |
| `GeoIP.NoFlagNeverFails` | geoip/geoip.go:72-85 | without `from_last=` arguments construction cannot fail and the flag is false |
| `GeoIP.OtherAddsNoCountry` | geoip/geoip.go:72-73 | a non-string argument inserted anywhere adds no country |
| `GeoIP.OtherKeepsFlag` | geoip/geoip.go:72-73 | a non-string argument inserted anywhere leaves the flag unchanged |
| `GeoIP.OtherCannotFail` | geoip/geoip.go:72-73 | a non-string argument inserted anywhere neither causes nor removes a construction failure |
| `GeoIP.LaterFlagDoesNotRescue` | geoip/geoip.go:75-79 | `from_last=maybe` followed by `from_last=true` still fails construction |
| `GeoIP.MisspelledFlagIsCountry` | geoip/geoip.go:15 | the usage comment's `last_from=true` becomes the country `LAST_FROM=TRUE` |
| `GeoIP.MisspelledFlagKeepsDefault` | geoip/geoip.go:15 | `last_from=true` leaves the flag false |
| `GeoIP.UpperCaseFlagIsCountry` | geoip/geoip.go:75-81 | the prefix test is case-sensitive: `FROM_LAST=true` is a country string, upper-cased to `FROM_LAST=TRUE` |
| `GeoIP.GeoipPredicate.Match` | geoip/geoip.go:100-118 | an address without a code matches exactly when `UNKNOWN` is configured, whether or not the lookup reported an error; a non-empty code is tested for membership unchanged, without upper-casing |
| `GeoIP.MatchUsesSelectedExtractor` | geoip/geoip.go:102-106 | only the extractor the flag selects matters (from-last when set, remote host otherwise); sources that agree on it decide alike |
| `GeoIP.MatchIgnoresLookupError` | geoip/geoip.go:109-117 | two lookups that give the same code lead to the same decision, whatever errors they report |
| `GeoIP.CreatedMatchIff` | geoip/geoip.go:68-118 | a created predicate matches exactly when some country argument upper-cases to the resolved code (`UNKNOWN` for an empty one) |
| `GeoIP.CreatedLowerCaseNeverMatches` | geoip/geoip.go:81-116 | because looked-up codes are not upper-cased, a code with a lower-case letter never matches a created predicate |
| `GeoIP.ConfiguredLowerCaseMatchesUpperCode` | geoip/geoip.go:68-118 | route `GeoIP("de")` matches a remote host the database maps to `DE` |

## Left out

- `GoStrings.ToUpper`: models only ASCII upper-casing (`a`-`z` to `A`-`Z`). Go's `strings.ToUpper` maps every Unicode letter; the model covers ISO codes and other ASCII input only.
- The MaxMind database format and reader (`maxminddb.Open`, `Reader.Lookup`) are foreign code. They are the `open` parameter and the `Reader.lookup` function value. Where the reader shares one pointer among predicates, the model copies the same value into each.
- Client-address extraction (`snet.RemoteHost`, `snet.RemoteHostFromLast`) is foreign code over HTTP headers. It is the two function values of `AddressSource`.
- The diagnostic `fmt.Printf` on a lookup error is output only and does not affect the result.
- `plugin_test.go` loads a compiled plugin and a real database file. It has no logic to model.
- Go's `ParseBool` returns a `*NumError` on refusal. The model returns `None`, because `Create` only tests whether there was an error.
- The country set is a Go `map[string]struct{}`; the model uses a `set<string>`.
- Go strings are byte strings, while Dafny strings are characters. The prefixes `db=` and `from_last=` are ASCII, so slicing at 3 and 10 means the same in both.
- Concurrent use of the reader by many requests is not modelled; every operation here is sequential.
