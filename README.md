# Chirpy: request authentication and chirp ownership

This project models the request-authentication and ownership core of Chirpy, a small Go HTTP API for short posts ("chirps"), and proves properties of that model in Dafny. It covers five pieces:

- **Header parsers.** `auth.GetBearerToken` and `auth.GetAPIKey` are pure functions over the first `Authorization` header value. They keep Go's exact prefixes, the order of the checks and the exact error texts.
- **Refresh tokens.** `auth.MakeRefreshToken` fills a 32-byte array from the random source, an imperative method. It then encodes the bytes as lowercase hexadecimal, a function. The encoding is proved against a decoder, which is its inverse.
- **Protected delete.** `handlerChirpsDelete` is a ladder of checks: parse the id, take the bearer token, validate it, look the chirp up, compare requester and author. Only a request that passes all of them reaches the one store mutation.
- **Fetch one chirp.** `handlerChirpsGet` maps the outcomes of one lookup to 400, 404 or 200.
- **List chirps.** `handlerChirpsRetrieve` picks all chirps or one author's, copies the rows in a loop and sorts an array in place by creation time. The order is newest first only for `sort=desc`.

Module layout, one file each:

- `Go` (`go.dfy`): Go's `error`, `(string, error)` results and `Header.Get`.
- `Strings` (`strings.dfy`): `HasPrefix`, `TrimPrefix` and `TrimSpace` with `unicode.IsSpace`.
- `Bearer` (`bearer.dfy`) and `ApiKey` (`api_key.dfy`): the two header parsers.
- `RefreshToken` (`refresh_token.dfy`): the token generator.
- `Store` (`store.dfy`): the chirps table, a class over a `map` from chirp id to row.
- `ChirpSort` (`chirp_sort.dfy`): the `sort.Slice` call.
- `Api` (`api.dfy`): requests, responses and status codes.
- `ChirpsDelete` (`handler_chirps_delete.dfy`) and `ChirpsGet` (`handler_chirps_get.dfy`): the handlers.
- `Ownership` (`ownership.dfy`): how delete and fetch fit together on one store.

Collaborators that are not part of this model appear as inputs:

- `uuid.Parse` is a function parameter.
- `auth.ValidateJWT` is a function parameter. It returns the token's user id or an error.
- The random source is a stream of bytes, or a reader that fails.
- Each SQL query receives the database's failure, if any, as an `Option`.

## Model

| member | source | states |
|---|---|---|
| Go.FirstValue | internal/auth/bearer.go:10 | `Header.Get`, which is also `Query().Get` at handler_chirps_get.go:34-35 and `headers.Get` at get_api_key.go:12: the first value stored under the key, or "" when the key is absent or has no values |
| Go.FirstValueIgnoresOthers | internal/auth/bearer.go:10 | the value read for `Authorization` depends only on the first value stored under that key; other keys and later values change nothing |
| Strings.IsSpace | internal/auth/bearer.go:20 | `unicode.IsSpace` as `TrimSpace` uses it; in the Latin-1 range exactly tab through carriage return, space, NEL and no-break space |
| Strings.HasPrefix | internal/auth/bearer.go:16 | `strings.HasPrefix`, also at get_api_key.go:18: a string with the prefix is the prefix followed by the rest of the string |
| Strings.PrefixOfConcat | internal/auth/get_api_key.go:18 | the converse: every `prefix + rest` has the prefix |
| Strings.TrimPrefix | internal/auth/get_api_key.go:22 | with the prefix, the input is the prefix followed by the result; without it the input comes back unchanged |
| Strings.TrimSpace | internal/auth/bearer.go:20 | the trimmed string neither begins nor ends with a `unicode.IsSpace` character and is no longer than the input |
| Strings.TrimSpaceParts | internal/auth/bearer.go:20 | the input is blank `p` + the trimmed string + blank `q`, so only surrounding spaces are removed |
| Strings.TrimSpacePadded | internal/auth/bearer.go:20 | the trimmed string is unique: any trimmed `t` padded with blanks on both sides trims back to `t` |
| Strings.TrimSpaceIdempotent | internal/auth/bearer.go:20 | trimming twice equals trimming once |
| Strings.TrimSpaceEmptyIffBlank | internal/auth/bearer.go:20-23 | a string trims to "" exactly when every character is a space |
| Api.ErrorResponse | handler_chirps_delete.go:14-42 | `respondWithError`, called at every error return of both handler files: the given status with an error payload carrying exactly the given message |
| Bearer.GetBearerToken | internal/auth/bearer.go:9-26 | every error comes with the empty token; a success has a non-empty token with no leading or trailing space |
| Bearer.MissingIffEmptyValue | internal/auth/bearer.go:10-13 | the "authorization header is missing" error occurs exactly when the first `Authorization` value is absent or empty |
| Bearer.NotBearerIffNoPrefix | internal/auth/bearer.go:15-18 | the "not a bearer token" error occurs exactly when the value is non-empty and lacks the case-sensitive "Bearer " prefix |
| Bearer.EmptyIffBlankRemainder | internal/auth/bearer.go:20-23 | the "bearer token is empty" error occurs exactly when the prefix is followed by spaces only or nothing |
| Bearer.SuccessShape | internal/auth/bearer.go:20-25 | a success came from "Bearer " + blank + token + blank, and the lemma returns both blank runs |
| Bearer.PaddedTokenAccepted | internal/auth/bearer.go:15-25 | the converse of the previous row: "Bearer " + blank + trimmed non-empty `t` + blank yields `t` with no error |
| Bearer.RoundTrip | internal/auth/bearer.go:15-25 | "Bearer " + `t` yields exactly `t` with no error, for every non-empty `t` without surrounding spaces |
| Bearer.ReadsOnlyFirstValue | internal/auth/bearer.go:10 | headers that agree on the first `Authorization` value give the same result |
| Bearer.PrefixNeedsTrailingSpace | internal/auth/bearer.go:15-18 | "Bearer" with no trailing space, and the lowercase "bearer abc", are not bearer tokens |
| Bearer.TableValid | internal/auth/auth_test.go:101-108 | "Bearer valid_token" yields "valid_token" with no error |
| Bearer.TableMissing | internal/auth/auth_test.go:109-116 | a header set without `Authorization` yields "" and "authorization header is missing" |
| Bearer.TableNoPrefix | internal/auth/auth_test.go:117-124 | "InvalidTokenString" yields "" and "authorization header is not a bearer token" |
| Bearer.TableEmpty | internal/auth/auth_test.go:125-132 | "Bearer " yields "" and "bearer token is empty" |
| ApiKey.GetAPIKey | internal/auth/get_api_key.go:11-28 | the result is either the empty key with the sentinel error, or a non-empty key with no error |
| ApiKey.FailureIff | internal/auth/get_api_key.go:9-25 | the sentinel is returned exactly for an empty value, a value without "ApiKey ", or exactly "ApiKey "; all three failures are the identical value |
| ApiKey.SuccessShape | internal/auth/get_api_key.go:22-27 | on success the header value is exactly "ApiKey " + key and the key is non-empty |
| ApiKey.RoundTrip | internal/auth/get_api_key.go:17-27 | "ApiKey " + `k` yields exactly `k` with no error, for every non-empty `k` |
| ApiKey.KeepsSpaces | internal/auth/get_api_key.go:22-27 | no trimming: "ApiKey  key " yields " key ", spaces kept |
| ApiKey.ReadsOnlyFirstValue | internal/auth/get_api_key.go:12 | headers that agree on the first `Authorization` value give the same result |
| RefreshToken.Encode | internal/auth/make_refresh_token.go:17 | the encoding is twice as long as the input; characters 2i and 2i+1 are the lowercase digits of the high and low nibble of byte i |
| RefreshToken.EncodeAlphabet | internal/auth/make_refresh_token.go:17 | every character of an encoding is one of 0123456789abcdef |
| RefreshToken.DecodeEncode | internal/auth/make_refresh_token.go:17 | decoding an encoding gives back exactly the input bytes |
| RefreshToken.EncodeInjective | internal/auth/make_refresh_token.go:17 | distinct byte strings have distinct encodings |
| RefreshToken.LowercaseHexEncodesDecode | internal/auth/make_refresh_token.go:17 | every even-length string over the lowercase alphabet decodes, and re-encodes to itself |
| RefreshToken.TokenFormIsImage | internal/auth/make_refresh_token.go:10-17 | every 64-character lowercase-hex string decodes to a 32-byte buffer that encodes back to it, and that buffer is the only byte string whose encoding it is |
| RefreshToken.Read | internal/auth/make_refresh_token.go:11-12 | the fill succeeds exactly when the buffer is empty or a healthy stream holds enough bytes; it copies the stream's first bytes and touches nothing past them; a broken or short source fails with its error, "EOF" or "unexpected EOF" |
| RefreshToken.MakeRefreshToken | internal/auth/make_refresh_token.go:9-19 | no error exactly when the source yields 32 bytes, and then the token is the 64-character lowercase hex of those bytes; any failure gives "" and the read error wrapped as "error: " + its text ("EOF" or "unexpected EOF" for a short stream, the reader's own for a broken one) |
| Store.Lookup | handler_chirps_delete.go:29 | the lookup succeeds exactly when the database does not fail and the id is stored, and then returns that row; a missing id gives `sql.ErrNoRows`; a failing database gives its own error |
| Store.ChirpStore.DeleteChirp | handler_chirps_delete.go:40 | without a database failure exactly the row with that id is removed; with one nothing changes |
| Store.ChirpStore.Select | handler_chirps_get.go:46-66 | the rows returned are, as a multiset, exactly the stored rows the author filter keeps, each once |
| Store.ChirpStore.GetChirps | handler_chirps_get.go:62-66 | every stored row exactly once, or the database's error and no rows |
| Store.ChirpStore.GetChirpByAuthor | handler_chirps_get.go:46-50 | exactly the stored rows whose author is the given user, each once, or the database's error and no rows |
| Store.SelectionMembers | handler_chirps_get.go:39-77 | a row is selected exactly when it is stored and passes the author filter |
| ChirpSort.Less | handler_chirps_get.go:79-84 | the `sort.Slice` closure: equal creation times are never ordered; otherwise "desc" puts the later chirp first and every other value the earlier one |
| ChirpSort.SortedMeaning | handler_chirps_get.go:79-84 | sorted by the closure means non-increasing creation times for "desc" and non-decreasing ones for every other value |
| ChirpSort.SortSlice | handler_chirps_get.go:79-84 | afterwards the array is sorted by the handler's closure and holds the same chirps as before |
| ChirpSort.Insert | handler_chirps_get.go:79-84 | one insertion step: with `a[..i]` sorted, `a[..i+1]` becomes sorted, the array keeps its chirps and every element after `i` stays where it was |
| ChirpSort.Swap | handler_chirps_get.go:79-84 | the exchange the sort makes: two elements trade places, every other element stays, and the array keeps its chirps |
| ChirpsDelete.DeleteChecks | handler_chirps_delete.go:11-38 | the ladder refuses only with 400, 401, 404 or 403 |
| ChirpsDelete.DeleteResponse | handler_chirps_delete.go:40-45 | the response after the ladder: a refusal unchanged; after a permitted deletion, 204 exactly when it succeeded and 500 "Couldn't delete chirp" when it failed |
| ChirpsDelete.UnparsableIdIsBadRequest | handler_chirps_delete.go:11-16 | an unparsable id gives 400 "Invalid chirp ID", whatever the credentials and the store |
| ChirpsDelete.MissingTokenIsUnauthorized | handler_chirps_delete.go:18-22 | a parsable id without a bearer token gives 401 "Couldn't find JWT", whatever the store |
| ChirpsDelete.InvalidTokenIsUnauthorized | handler_chirps_delete.go:23-33 | a token that does not validate gives 401 "Couldn't validate JWT" and the same answer for any store, so existence is not revealed |
| ChirpsDelete.AbsentChirpIsNotFound | handler_chirps_delete.go:29-38 | an authenticated request for a chirp the store does not return gives 404 "Couldn't get chirp" whoever asks, before ownership is checked |
| ChirpsDelete.NonOwnerIsForbidden | handler_chirps_delete.go:35-38 | an authenticated requester other than the chirp's author gets 403 "User is not authorized to delete the chirp" |
| ChirpsDelete.PermitIffAuthorized | handler_chirps_delete.go:10-40 | a deletion is permitted exactly when the id parses, the token is present and valid, the chirp exists and the token's user is its author; the permitted id is the requested one |
| ChirpsDelete.HandlerChirpsDelete | handler_chirps_delete.go:10-46 | the response is what the ladder and the deletion outcome give; the store loses exactly the permitted chirp and keeps every other row; on any refusal or failed deletion it is unchanged |
| ChirpsDelete.NoContentMeansOwnerDeleted | handler_chirps_delete.go:18-45 | a 204 implies the chirp existed, the token was valid, and its user was the chirp's author |
| ChirpsDelete.DeleteWritesAsWritten | handler_chirps_delete.go:40-45 | the responses the handler as written sends: one on every path, two after a failed permitted deletion, and the last write after any permitted deletion is the 204 |
| ChirpsDelete.FallThroughWritesTwice | handler_chirps_delete.go:40-45 | as written, two responses (500, then 204) are written exactly when a permitted deletion fails; the first write is always the modelled response |
| ChirpsGet.HandlerChirpsGet | handler_chirps_get.go:10-31 | the fetch answers only 200, 400 or 404 |
| ChirpsGet.GetOutcomes | handler_chirps_get.go:11-30 | 400 exactly for an unparsable id, then independent of the store; 404 exactly for a parsed id the store does not return; otherwise 200 with the stored row unchanged, whose id is the requested one |
| ChirpsGet.CopyRows | handler_chirps_get.go:52-60 | the copy loop yields the fetched rows in order with every field unchanged |
| ChirpsGet.AuthorFilter | handler_chirps_get.go:39-40 | an empty `author_id` selects no author, and a non-empty one selects whatever `uuid.Parse` makes of it |
| ChirpsGet.HandlerChirpsRetrieve | handler_chirps_get.go:33-87 | an unparsable non-empty `author_id` gives 500 "couldn't parse to uuid"; a failed query gives 500 with that query's message; otherwise 200 with the selected rows, all of them or one author's, each once and sorted by the `sort` rule |
| ChirpsGet.ListedChirpsAreStoredRows | handler_chirps_get.go:39-77 | every listed chirp is a stored row and, when an author was asked for, one of that author's |
| Ownership.DeleteThenGetNotFound | handler_chirps_delete.go:40-45 | after a permitted deletion succeeds, fetching the same id gives 404 |
| Ownership.AtMostOneOwner | handler_chirps_delete.go:35-38 | requests authenticated as two different users cannot both be permitted to delete the same chirp |
| Ownership.EndToEnd | handler_chirps_delete.go:10-46 | on one store, a second user's delete gets 403, then the author's delete gets 204, and a fetch afterwards gets 404 |

## Left out

- Server plumbing in `main.go` is not part of this model: environment loading, the database connection, routing, the listen loop, and the `fileserverHits` counter, which is concurrency.
- Password hashing and JWT signing and validation are foreign cryptography. `ValidateJWT` is an abstract function parameter.
- `uuid.Parse` accepts several textual formats. It is an abstract partial function; a UUID is identified by a natural number.
- The SQL behind `GetChirp`, `GetChirps`, `GetChirpByAuthor` and `DeleteChirp` is not modelled. The table is a map from id to row, and a failure is an input.
- Store.ChirpStore.Select: the row order is whatever the store picks. The `ORDER BY` of the queries is not shown, and the handler re-sorts anyway.
- ChirpSort.SortSlice: an insertion sort stands in for Go's `sort.Slice`. It promises only what `sort.Slice` promises: sorted by the closure and the same chirps. No order among chirps with equal `CreatedAt` is proved, because the Go sort is not stable.
- `time.Time` is an integer instant, so `Before` and `After` are `<` and `>`. Monotonic clock readings and time zones are outside the model.
- Header values are modelled as valid UTF-8 only. A Dafny `string` is a sequence of Unicode scalar values, but Go strings are bytes, and `net/http` accepts header values with bytes that are not UTF-8. `GetBearerToken` with `Strings.TrimSpace` therefore does not cover such input. For example, Go reads a lone 0xA0 byte as U+FFFD and does not trim it, so "Bearer " + 0xA0 gives a token in Go.
- Header-key canonicalisation is not modelled, and nothing is lost by that. `Header.Get` canonicalises only the key it looks up, and `"Authorization"` is already canonical, so `Go.FirstValue` with that key reads what Go reads for every map. A value stored under a non-canonical key such as `"authorization"` is missed in both. `url.Values.Get` never canonicalises.
- JSON encoding and response writing are not modelled. A response is a status code and a payload value. Go encodes an empty list as `null`, and that difference is not kept.
- The `err` argument passed to `respondWithError` is left out. `respondWithError` is not part of this model, so this assumes that argument only affects logging and not the response.
- `crypto/rand` is an input: a stream of bytes, or a reader that fails with a message.
- RefreshToken.Read follows `crypto/rand.Read` up to Go 1.23, which is `io.ReadFull` and can fail. The Go version is not pinned here. From Go 1.24 on, `Read` never returns an error, and the failure branch of `MakeRefreshToken` cannot be reached.
- RefreshToken.RandomSource: a broken reader fails before it supplies any bytes. A reader that gives some bytes and then a non-EOF error is not represented. `MakeRefreshToken` returns "" and the wrapped error either way.
- The decoder used as the partner of the hex encoder accepts both letter cases, as `encoding/hex` does. Its error texts are not modelled.
- The refresh, revoke, login and webhook handlers are not part of this model. Their source is not available, so no revocation store can be grounded in it.
- Writing a second response after the first is not modelled. The as-written double write is exhibited under Findings only.

## Findings

| source | as written | input that shows it | evidently intended | confidence | as-written member | corrected member |
|---|---|---|---|---|---|---|
| handler_chirps_delete.go:41-45 | after a failed `DeleteChirp` the handler writes the 500 error and, with no `return`, goes on to write the 204 response as well | the author of an existing chirp, with a valid token, deletes it while the database fails the `DELETE` | return right after the 500, so the client sees only "Couldn't delete chirp" | not executed | ChirpsDelete.DeleteWritesAsWritten | ChirpsDelete.HandlerChirpsDelete |

`ChirpsDelete.FallThroughWritesTwice` states the as-written behaviour outright: two writes, the 500 and then the 204, happen exactly when a permitted deletion fails.
