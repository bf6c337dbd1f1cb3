# Daily exchange rates: resolution and storage, in Dafny

This project models the core of a small GraphQL service for daily currency
exchange rates. The service stores one rate per directed currency pair per
day in a MongoDB collection. Its resolvers answer three calls:

- `getExchangeRate(src, tgt)`: the latest direct quote, else the reciprocal
  of the latest reverse quote, else a not-found error.
- `postExchangeRate(info)`: an upsert keyed on (src, tgt, date). The date
  defaults to today. A same-currency pair is written with rate 1.
- `deleteExchangeRate(info)`: removes exactly one (src, tgt, date) document
  and returns it.

Files:

- `wrappers.dfy` (module `Wrappers`): `Option` and `Result`.
- `strings.dfy` (module `Strings`): the string primitives the code relies on.
  These are `toLowerCase` on ASCII letters, JavaScript `trim`, and the
  character-by-character order MongoDB uses to sort a string field.
- `exchange_rate.dfy` (module `ExchangeRateModel`): the collection. It
  defines the document shape, the `lowercase`/`trim` setters on `src` and
  `tgt`, and the unique index. It also defines the `Store` class. `Store`
  holds the collection as a map from (src, tgt, date) to rate and updates
  it in place with `Upsert` and `DeleteOne`. `Latest` is the sorted
  `findOne`.
- `resolvers.dfy` (module `Resolvers`): the three resolvers and the
  properties that relate them.

Modelling choices:

- The clock is a parameter. `now` is the ISO timestamp that
  `new Date().toISOString()` would return. `CurrentDate(now)` is its part
  before the first `T`.
- The resolvers only lower-case the codes. The collection's setters
  lower-case and trim them; Mongoose applies these setters both to the values
  it stores and to the values in a query filter. Every store operation
  therefore looks up and writes `Normalize(code)`, which is
  `Trim(Lower(code))`.
- A rate is an exact `real`. The reciprocal `1 / rate` needs a non-zero
  stored rate, so `GetExchangeRate` requires `RatesNonZero`.
- A missing date on a post is `None`. `date || getCurrentDate()` also treats
  the empty string as missing, and the model does the same.
- Errors are the datatype `Error`. `RateNotFound` is the query error and
  `RateNotFoundOn` is the delete error. Both carry the codes as the caller
  wrote them, before any normalisation.

Behaviour of the code worth knowing (the model follows the code throughout):

- Same-currency pairs ARE written by a post, with rate 1, although the
  comment at src/resolvers/index.js:148 says such rates are not actually
  stored. A delete of the same pair answers rate 1 without touching the
  collection, so that row stays. `IdentityRowOutlivesDelete` states this.
- The same-currency test compares lower-cased codes without trimming, while
  the schema trims every code (src/models/ExchangeRate.js:22). So
  `" usd"` against `"USD"` skips the rate-1 shortcut. On an empty collection
  it fails with not-found (`PaddedIdentityMissesShortcut`). A post with those
  codes keeps the supplied rate and files it under the identity key
  (usd, usd) (`PaddedIdentityPostKeepsRate`). A delete of `" usd"` to
  `"usd"` likewise reaches `findOneAndDelete`, whose filter the setters turn
  into (usd, usd). It removes the identity row, which is the only way to
  remove one (`PaddedDeleteRemovesIdentityRow`).
- A post does not check that the rate is positive. `PostKeepsRatesPositive`
  shows that positivity survives a post only when the posted rate is
  positive.
- A direct hit returns the stored (trimmed) codes. The reciprocal answer and
  the identity answer return the lower-cased but untrimmed codes.

## Model

| member | source | states |
|---|---|---|
| `Strings.Lower` | src/resolvers/index.js:35-37 | `toLowerCase` keeps the length and leaves no ASCII upper-case letter |
| `Strings.LowerChars` | src/resolvers/index.js:35-37 | lower-casing changes no character other than an upper-case letter, and maps each upper-case letter to its lower-case form |
| `Strings.LowerOfLowerCase` | src/resolvers/index.js:35-37 | lower-casing a lower-case string changes nothing |
| `Strings.LowerIdempotent` | src/resolvers/index.js:35-37 | lower-casing twice is the same as lower-casing once |
| `Strings.SkipSpaceForward` | src/models/ExchangeRate.js:22 | the index found is at or after the start, is a non-white-space character or the end, and only white space lies before it |
| `Strings.SkipSpaceBackward` | src/models/ExchangeRate.js:22 | the end found is at or before the limit, follows a non-white-space character or is 0, and only white space lies after it |
| `Strings.Trim` | src/models/ExchangeRate.js:22 | the result has no white space at either end, and it is the slice of the input that starts at the first non-white-space character; everything before and after that slice is white space |
| `Strings.TrimOfTrimmed` | src/models/ExchangeRate.js:22 | trim leaves a string without surrounding white space unchanged |
| `Strings.TrimKeepsLowerCase` | src/models/ExchangeRate.js:21-22 | trimming a lower-case string gives a lower-case string |
| `Strings.LexLe` | src/resolvers/index.js:53 | the order behind `.sort({ date: -1 })`: a prefix sorts no later than the longer string, and a string that sorts no later starts with a character no greater |
| `Strings.LexLeReflexive` | src/resolvers/index.js:53 | the date order is reflexive |
| `Strings.LexLeTotal` | src/resolvers/index.js:53 | any two dates are comparable |
| `Strings.LexLeAntisymmetric` | src/resolvers/index.js:53 | two dates that each sort no later than the other are equal |
| `Strings.LexLeTransitive` | src/resolvers/index.js:53 | the date order is transitive |
| `Strings.MaxOfUnique` | src/resolvers/index.js:50-53 | a set of dates has at most one greatest element |
| `Strings.MaxOfExists` | src/resolvers/index.js:50-53 | every finite non-empty set of dates has a greatest element, so the sort by date descending always has a first document |
| `ExchangeRateModel.Normalize` | src/models/ExchangeRate.js:21-28 | the `lowercase` and `trim` setters of `src` and `tgt` always give a lower-case code without surrounding white space |
| `ExchangeRateModel.NormalizeFixesCanonical` | src/models/ExchangeRate.js:18-29 | a stored code passes through the setters unchanged |
| `ExchangeRateModel.NormalizeIdempotent` | src/models/ExchangeRate.js:18-29 | normalising a stored code again gives the same code |
| `ExchangeRateModel.NormalizeAfterLower` | src/resolvers/index.js:101-102 | the resolver lower-casing a code before the setters run does not change the stored form |
| `ExchangeRateModel.DocumentsOfMap` | src/models/ExchangeRate.js:17-44 | a record is a document of the collection exactly when its (src, tgt, date) is a stored key and its rate is the rate stored under that key; every document therefore carries all four fields |
| `ExchangeRateModel.UniqueIndex` | src/models/ExchangeRate.js:42-44 | two documents of the collection that agree on (src, tgt, date) are the same document |
| `ExchangeRateModel.LatestUnique` | src/resolvers/index.js:50-53 | a currency pair has at most one latest date |
| `ExchangeRateModel.Latest` | src/resolvers/index.js:50-53 | the lookup gives None exactly when no document has the normalised pair; otherwise it gives the document of that pair with the greatest date |
| `ExchangeRateModel.Store.constructor` | src/models/ExchangeRate.js:47 | a new collection is empty and holds the stored-form invariant |
| `ExchangeRateModel.Store.Upsert` | src/resolvers/index.js:110-126 | writes the rate under the normalised key and leaves every other key alone; the number of documents grows by one only when the key was new; returns the stored document; keeps the invariant |
| `ExchangeRateModel.Store.DeleteOne` | src/resolvers/index.js:159-163 | removes exactly the normalised key and returns its document when the key is present; otherwise returns None and changes nothing |
| `Resolvers.CurrentDate` | src/resolvers/index.js:17-20 | the date is the prefix of the timestamp up to its first `T` and contains no `T` |
| `Resolvers.GetExchangeRate` | src/resolvers/index.js:34-84 | same currency after lower-casing: rate 1 dated today. Otherwise, if a direct document exists, the direct document with the latest date. Otherwise, if a reverse document exists, `1 / rate` and the date of the latest reverse document, with the lower-cased codes. Otherwise not-found with the codes as given |
| `Resolvers.IdentityIgnoresStore` | src/resolvers/index.js:39-47 | a same-currency answer is rate 1 and does not depend on the collection |
| `Resolvers.DirectBeatsReverse` | src/resolvers/index.js:50-57 | with documents in both directions, the answer is a direct document with the normalised codes, the latest of its pair and with its stored rate, whatever the reverse dates |
| `Resolvers.StoredCodesAnswerDirectly` | src/resolvers/index.js:50-53 | asking for any stored pair of distinct codes with the stored codes answers that pair's latest direct document, its stored rate included; the stored codes pass the setters of src/models/ExchangeRate.js:21-22 unchanged |
| `Resolvers.AnswerRatePositive` | src/resolvers/index.js:67-73 | with positive stored rates, every answer has a positive rate, reciprocals included |
| `Resolvers.PostExchangeRate` | src/resolvers/index.js:98-134 | the collection afterwards is the old one with `PostRate` written under `PostKey` and nothing else changed; the returned record is the stored document; keeps the invariant |
| `Resolvers.PostDefaults` | src/resolvers/index.js:104-107 | the written rate is 1 for a same-currency pair and the given rate otherwise; the date is today when missing or empty and the given date otherwise; the written codes are in stored form |
| `Resolvers.PostIdempotent` | src/resolvers/index.js:110-126 | posting the same arguments twice leaves the same collection and the same returned document as posting once |
| `Resolvers.PostTwice` | src/resolvers/index.js:110-126 | two calls of the post resolver with the same arguments leave the collection as one call does, and both return the same record |
| `Resolvers.PostReplaces` | src/resolvers/index.js:110-126 | a post adds a document only for a new key, changes no other key, and leaves exactly one rate under its key |
| `Resolvers.PostKeepsRatesPositive` | src/resolvers/index.js:107-120 | posting a positive rate keeps every stored rate positive |
| `Resolvers.PostThenGet` | src/resolvers/index.js:110-133 | a post dated no earlier than any stored date of its pair becomes the answer of the next query for that pair |
| `Resolvers.DeleteExchangeRate` | src/resolvers/index.js:142-177 | same currency after lower-casing: rate 1 with the given date and the collection unchanged. Otherwise, a present key is removed alone and its document is returned; an absent key gives not-found with the codes as given and the date, and changes nothing |
| `Resolvers.DeleteThenGet` | src/resolvers/index.js:159-163 | after deleting a document, a remaining direct document of the pair answers the query with a different date, older than the deleted one when that one was the latest |
| `Resolvers.IdentityRowOutlivesDelete` | src/resolvers/index.js:148-156 | a same-currency document written by a post is still stored, with rate 1, after a delete with the same codes and date |
| `Resolvers.PaddedDeleteRemovesIdentityRow` | src/resolvers/index.js:145-170 | after a post of (usd, usd) on a date, a delete of (" usd", "usd") on that date skips the same-currency branch, returns the rate-1 identity document and leaves no (usd, usd) row on that date |
| `Resolvers.SingleDocumentDirect` | src/resolvers/index.js:50-83 | a collection holding one document answers a query for its pair with that document |
| `Resolvers.SingleDocumentReverse` | src/resolvers/index.js:57-74 | a collection holding one document answers a query for the reverse pair with its reciprocal and its date |
| `Resolvers.UsdKrwPost` | src/resolvers/index.js:98-126 | posting ("USD", " krw ", 1350, "2024-01-01") into an empty collection stores exactly the document (usd, krw, 2024-01-01) with rate 1350 |
| `Resolvers.UsdKrwDirect` | src/resolvers/index.js:34-84 | with that document, ("usd", "KRW") answers (usd, krw, 1350, 2024-01-01) |
| `Resolvers.UsdKrwReverse` | src/resolvers/index.js:57-74 | with that document, ("krw", "usd") answers (krw, usd, 1/1350, 2024-01-01) |
| `Resolvers.PaddedIdentityMissesShortcut` | src/resolvers/index.js:36-47 | " usd" against "USD" is not treated as a same-currency pair, and fails with not-found on an empty collection |
| `Resolvers.PaddedIdentityPostKeepsRate` | src/resolvers/index.js:101-107 | posting " usd" to "USD" keeps the supplied rate and writes it under the identity key (usd, usd) |

## Left out

- HTTP/GraphQL transport, server start-up, port parsing and `process.exit` (src/index.js) are process plumbing.
- The database connection, environment loading and connection listeners (src/config/database.js) are infrastructure. Their errors are outside the model.
- src/schema/typeDefs.js is used only as the field contract: `date` is optional on a post and required on a delete.
- The `createdAt`/`updatedAt` timestamps are bookkeeping with no behaviour.
- Reading the wall clock is not modelled. The timestamp is a parameter.
- Concurrency is not modelled. Each collection operation is one atomic step with no interleaving, so concurrent upserts to one key are not modelled.
- `Float` rounding is not modelled. Rates are exact reals, so `1 / rate` is exact.
- Strings.Lower: only ASCII letters are lower-cased. Unicode case mapping is not modelled.
- Resolvers.GetExchangeRate: requires every stored rate to be non-zero. In JavaScript, `1 / 0` gives `Infinity` instead of an error.
- The `required` validators are not modelled as non-empty checks. Every document has all four fields by construction. Mongoose runs no validators on `findOneAndUpdate` unless asked to, so the code does not reject an empty trimmed code.
- A missing `info` argument is not modelled. The schema lets a caller omit `info` on both mutations, and destructuring it then throws a TypeError; the model takes the fields as plain parameters.
- Errors from the store, such as a lost connection, are not modelled. They propagate unchanged and are outside the core.
