# MockDynamo article store, modelled in Dafny

This project models the in-memory article store `MockDynamo` of the
article-management service. The store is a key-value table from an integer
article id to an `Article` (user id, article id, title, body), plus an id
counter that starts at 1 and is advanced by every create. It offers the six
calls of the `Storage` interface: get by id, list all, list by user, create,
update and delete.

The model is functional. A `Store` value holds the table and the counter.
Each call is a function or method that takes a store and returns its answer.
The calls that write also return the store they leave behind. Go's
`(value, error)` pairs become small datatypes whose error slot is an
`Option<Error>`, with `None` playing the part of a `nil` error.

Files:

- `wrappers.dfy`: the `Option` type.
- `models.dfy`: `Article`, `NewArticle`, the zero `Article`, Go's 64-bit `int`, and its wrapping `++`.
- `storage.dfy`: the `ResourceNotFound` error and the list of interface calls.
- `mock_dynamo.dfy`: the store and its six operations.
- `mock_dynamo_properties.dfy`: lemmas relating several calls.

Two behaviours of the Go code are kept as written, not corrected:

- **Zero value means "not found".** A lookup reads the map, which yields the
  zero `Article` for a missing key. It then reports "not found" when the value
  read equals the zero `Article`. So a key mapped to an all-zero article looks
  absent to get, update and delete. It is still present in the table and still
  listed by `GetAllArticles`. `ZeroEntryLooksAbsent` and `ZeroUpdateStrandsKey`
  state this.
- **The counter is a Go `int`.** `idCounter++` wraps from the largest 64-bit
  value to the smallest one. The invariant "every key lies in [1, counter)"
  therefore holds only while the counter stays below that maximum.
  `CreateWrapsAtMax` shows that the invariant breaks at the wrap.

Two points about the interface are worth noting:

- The `Storage` interface lets create return an error, but
  `MockDynamo.CreateArticle` never does.
- Update replaces the whole record, including its `ArticleID`. The new
  `ArticleID` need not equal the key.

Map iteration order is unspecified in Go. The two listing methods pick the
next key with a non-deterministic choice. Their contracts fix only how many
times each article appears: once per key that stores it.

## Model

| member | source | states |
|---|---|---|
| `Models.Increment` | internal/storage/dynamoMock.go:58 | `++` on a Go `int` gives the one 64-bit value congruent to x + 1 modulo 2^64, the two's-complement rule. Below the maximum this is a larger value. |
| `MockDynamo.NewMockDynamo` | internal/storage/dynamoMock.go:14-17 | A new store has an empty table, so no id is found. Its counter holds the initial value 1, so the key invariant holds from the start. |
| `MockDynamo.GetArticleByID` | internal/storage/dynamoMock.go:19-27 | Succeeds exactly when the key is present and its value is not the zero Article, returning the stored value. Otherwise it returns the zero Article with ResourceNotFound. |
| `MockDynamo.GetAllArticles` | internal/storage/dynamoMock.go:29-36 | Never errors. Returns as many articles as the table has keys. Each article appears as often as the number of keys storing it, so the values are exactly the table's values. |
| `MockDynamo.GetArticleByUserID` | internal/storage/dynamoMock.go:38-47 | Never errors. Each article of the given user appears once per key storing it, and no other article appears. Every element is a table value of that user. The result is empty exactly when no stored value has that user id. |
| `MockDynamo.CreateArticle` | internal/storage/dynamoMock.go:49-62 | Never errors. Returns the current counter as the id and stores the payload's fields under it, with that id as ArticleID. Adds exactly that key and leaves every other entry alone. Advances the counter by one, or wraps it at the maximum. |
| `MockDynamo.UpdateArticle` | internal/storage/dynamoMock.go:64-72 | Fails with ResourceNotFound exactly when the lookup fails, and then the store is unchanged. On success it stores the article exactly as passed under the id. The key set, the other entries and the counter are unchanged. |
| `MockDynamo.DeleteArticle` | internal/storage/dynamoMock.go:74-82 | Fails with ResourceNotFound exactly when the lookup fails, and then the store is unchanged. On success it removes exactly that key, so the table shrinks by one. The other entries and the counter are unchanged. |
| `MockDynamo.Step` | internal/storage/storage.go:6-13 | Of the six interface calls, the three reads leave the store untouched. Only create moves the counter. |
| `MockDynamoProperties.CreatePreservesValid` | internal/storage/dynamoMock.go:50-61 | The id a create hands out is not yet a key. Every key stays in [1, counter) while the counter does not overflow. |
| `MockDynamoProperties.CreateWrapsAtMax` | internal/storage/dynamoMock.go:52-58 | A create at the largest counter value wraps the counter to the smallest 64-bit value. The new key then lies above the counter. |
| `MockDynamoProperties.CreateThenGet` | internal/storage/dynamoMock.go:50-61 | A created article is never the zero Article, because its id is the counter and the counter is not 0. A lookup of the returned id finds the payload's fields with the assigned id. |
| `MockDynamoProperties.SuccessiveCreatesIncrease` | internal/storage/dynamoMock.go:52-60 | Two creates in a row return consecutive, strictly increasing ids. |
| `MockDynamoProperties.UpdateThenGet` | internal/storage/dynamoMock.go:65-72 | After an update the key is still present. A lookup returns the new article, unless the new article is the zero Article; then the key reads as missing. |
| `MockDynamoProperties.DeleteThenGet` | internal/storage/dynamoMock.go:75-82 | After a delete the id reads as missing. A second delete of it fails and changes nothing. |
| `MockDynamoProperties.ZeroEntryLooksAbsent` | internal/storage/dynamoMock.go:20-25 | A key mapped to the zero Article gets the same answers from get, update and delete as an absent key: not found, store unchanged. The table is larger by one, and the listing counts one more zero Article. |
| `MockDynamoProperties.ZeroUpdateStrandsKey` | internal/storage/dynamoMock.go:65-82 | From a new store, create then update the id to the zero Article. The update succeeds and the key stays in the table, but get, update and delete all report it missing, while a listing still counts its zero Article once. |
| `MockDynamoProperties.IdsIncreaseAcrossRun` | internal/storage/dynamoMock.go:50-61 | After any sequence of calls whose creates cannot overflow the counter, a create returns an id at least the earlier counter and above every key held before or after those calls. |
| `MockDynamoProperties.WritesPreserveValid` | internal/storage/dynamoMock.go:65-82 | Update and delete keep every key in [1, counter). |
| `MockDynamoProperties.StepPreservesValid` | internal/storage/storage.go:6-13 | Any single interface call keeps every key in [1, counter), provided a create does not overflow the counter. |
| `MockDynamoProperties.RunPreservesValid` | internal/storage/dynamoMock.go:5-7 | Any sequence of calls keeps every key in [1, counter) as long as its creates cannot overflow the counter. The counter grows by exactly the number of creates. |

## Left out

- The concurrent bulk fetch and bulk create (fan-out with cancellation) are not part of this model. That code is not among the source files modelled, and its substance is concurrency.
- HTTP routing, the request handlers (their bodies are empty), server start-up and signal handling are left out. They are I/O plumbing.
- The `Server` wrapper holds a storage pointer and has no logic, so it is left out.
- The counter is threaded through each `Store` instead of living in one process-wide variable. Two stores in one process would share the Go counter, so a second `NewMockDynamo` would not restart at 1. Sharing and thread safety are not modelled.
- Go `int` is taken to be 64 bits wide. 32-bit platforms are not modelled.
- Go's `nil` slice versus empty slice for an empty listing is not distinguished: an empty listing is a `nil` slice in Go and the empty sequence here. The two differ under a `== nil` test and in JSON (`null` versus `[]`); no code in the repository inspects the difference.
- Strings are sequences of characters, not bytes. Only their equality matters to the store.
- JSON field tags on `Article` and `NewArticle` are serialisation metadata and are ignored.
- The Go listing methods build their result with `append` in map iteration order. Here the iteration order is a non-deterministic choice, and no particular order is promised.
