# Student record store — a Dafny model

The student management service keeps its records in process memory: an array
`students` of `{id, name, age, grade, email}` objects and a counter `nextId`.
Seven Express routes touch that state. This project models six of them: list
all records, get one record by id, create, update and delete by id, and
search by a case-insensitive substring. The seventh, the health route, only
reads `students.length` and is left out (see "Left out"). The store and the
logic of the six routes are modelled as pure Dafny functions. It proves the
store invariant and what each route promises.

Layout, one module per concern:

- `wrappers.dfy` (`Wrappers`): `Option`. An absent or `null` JSON field is `None`.
- `text.dfy` (`Text`): the JavaScript string primitives the routes call:
  `trim`, `toUpperCase`, `toLowerCase` and `includes`.
- `seqs.dfy` (`Seqs`): `Array.prototype.filter` and the subsequence relation.
- `store.dfy` (`Store`): `Student` and `Store`, the invariant `Valid`, the seed
  data, and `findIndex` on ids.
- `handlers.dfy` (`Handlers`): one function per route. `List` is
  GET `/api/students`; `Get`, `Create`, `Update`, `Delete` and `Search` are
  the id, POST, PUT, DELETE and search routes. The read routes return only
  their answer: `List` and `Get` a `Reply` (200 or 404, with the record or
  records), `Search` the matching records. The writing routes `Create`,
  `Update` and `Delete` return an `Outcome`: a `Reply` (200, 201, 400 or 404)
  and the new `Store`.
- `server.dfy` (`Server`): dispatch of a `Request` to its handler, which wraps
  every answer into an `Outcome`, and runs of any sequence of requests.
- `properties.dfy` (`Properties`): lemmas relating the routes to each other
  and to reference definitions.
- `scenario.dfy` (`Scenario`): the seeded end-to-end run and the edges of the
  POST presence check.

The store invariant `Valid` says that ids are pairwise distinct and all below
`nextId`. The seed satisfies it and every request preserves it. Ids handed
out by successive creates strictly increase. So an id is never issued twice,
even after the record holding it is deleted. This holds because ids and the
counter are unbounded integers here; in the source they are JavaScript
numbers, exact only below 2^53 (see "Left out").

Details of the code that the model keeps:

- The POST check (src/student-app.js:49) runs on the raw values, before
  trimming, so a name of blanks passes it and is stored as `""`
  (`Scenario.BlankNameStoredEmpty`).
- The POST check uses JavaScript truthiness, so an age of `0` is refused as
  missing (`Scenario.ZeroAgeRejected`).
- PUT destructures the body first (src/student-app.js:70), which gives
  `undefined` for a missing field, but it uses the fields only after the id
  check (src/student-app.js:79-82). An absent id answers 404 at
  src/student-app.js:72-75, so any body, even an empty one, gets 404 there.
- PUT and DELETE act on the first record with the id, because they use
  `findIndex`. "No record with that id remains" therefore needs the store
  invariant.

## Model

| member | source | states |
|---|---|---|
| Store.Seed | src/student-app.js:13-21 | The initial store has five records with ids 1 to 5 and `nextId` 6, and it satisfies the invariant (distinct ids, all below the counter). |
| Store.AppendFreshKeepsValid | src/student-app.js:53-61 | Appending a record whose id is the counter and advancing the counter by one keeps ids distinct and below the counter. |
| Store.ReplaceSameIdKeepsValid | src/student-app.js:77-85 | Overwriting a position with a record carrying the same id keeps the invariant. |
| Store.RemoveAtDistinct | src/student-app.js:100 | Splicing one position out of a store with distinct ids keeps them distinct and leaves no record with the removed id. |
| Store.FindIndex | src/student-app.js:72 | `findIndex` on the id gives -1 exactly when no record has the id. Otherwise it gives a position holding the id with no earlier position holding it. |
| Store.FindIndexFirst | src/student-app.js:72 | Converse of the above: if a position holds the id and no earlier position does, `findIndex` returns that position. No distinctness of ids is needed. |
| Handlers.Find | src/student-app.js:41 | `find` on the id gives nothing exactly when the id is absent. Otherwise it gives the record at the first position holding the id. |
| Handlers.List | src/student-app.js:35-37 | GET of the collection answers 200 with every record, in store order. |
| Handlers.ErrorText | src/student-app.js:42-50 | A 400 reply carries the text "All fields are required" and a 404 reply "Student not found". |
| Handlers.Get | src/student-app.js:39-44 | GET by id answers 404 exactly when no record has the id. Otherwise it answers 200 with the first record carrying the id. |
| Handlers.Normalize | src/student-app.js:53-59 | The stored record is in normal form: name and email have no surrounding whitespace and grade has no ASCII lowercase letter. Id and age are as given. |
| Handlers.NormalizeKeepsContent | src/student-app.js:55-58 | Normalisation changes only what it should: name and email are the input with only surrounding whitespace removed, and grade equals the input ignoring ASCII case. |
| Handlers.NormalizeFixesNormalized | src/student-app.js:77-83 | Normalising the fields of a record already in normal form gives back that record. |
| Handlers.HasRequiredFields | src/student-app.js:49 | The guard `name && age && grade && email` is modelled with JavaScript truthiness. A string field is falsy when it is absent, null or "", and the age when it is absent, null or 0; absent and null are both `None`. Passing the guard means every field is present. An empty name, grade or email, or an age of 0, fails it. Every field present and not falsy passes it. |
| Handlers.Create | src/student-app.js:46-66 | A body missing a field, or with a falsy one, gets 400 and leaves the store and counter unchanged. Otherwise the reply is 201 with the normalised record, which has id equal to the old `nextId`; the record is appended at the end, earlier records are unchanged, the counter goes up by one, and the invariant is preserved. |
| Handlers.Update | src/student-app.js:68-90 | An absent id gets 404, whatever the body, and leaves the store unchanged. Otherwise only the first position with the id changes, to the normalised body carrying the path id; the length, the counter, every other record and every id stay the same, and the invariant is preserved. |
| Handlers.Delete | src/student-app.js:92-105 | An absent id gets 404 and leaves the store unchanged. Otherwise the reply is the first record with the id; the store loses exactly that record (one shorter, a subsequence of the old one, multiset minus that record) and keeps its counter. On a valid store the invariant holds afterwards and no record with the id remains. |
| Handlers.Search | src/student-app.js:107-115 | The result is a subsequence of the store, so store order is kept. Each record occurs as often as in the store if it matches the query ignoring ASCII case in name, email or grade, and not at all otherwise. |
| Text.Trim | src/student-app.js:55 | `trim` gives a string that neither starts nor ends with whitespace and is no longer than the input. |
| Text.TrimIsSlice | src/student-app.js:58 | `trim` removes whitespace and nothing else: its result is a slice of the input and everything outside that slice is whitespace. |
| Text.TrimStart | src/student-app.js:55 | Removes exactly the leading whitespace: the result is a suffix of the input that does not start with whitespace, and every dropped character is whitespace. |
| Text.TrimEnd | src/student-app.js:58 | Removes exactly the trailing whitespace: the result is a prefix of the input that does not end with whitespace, and every dropped character is whitespace. |
| Text.TrimIdempotent | src/student-app.js:79 | Trimming a trimmed value again changes nothing. |
| Text.TrimStripsPadding | src/student-app.js:58 | One blank on each side of a trimmed string is exactly what `trim` removes. |
| Text.Upper | src/student-app.js:57 | `toUpperCase` keeps the length and maps each character to its ASCII uppercase. |
| Text.Lower | src/student-app.js:108 | `toLowerCase` keeps the length and maps each character to its ASCII lowercase. |
| Text.UpperIdempotent | src/student-app.js:57 | Uppercasing a grade that was already uppercased changes nothing. |
| Text.LowerForgetsUpper | src/student-app.js:108 | ASCII lowercasing of an ASCII-uppercased string is the same as ASCII lowercasing of the original. |
| Text.Contains | src/student-app.js:110-112 | The empty needle is in every string. A contained needle is no longer than the haystack, so the empty haystack contains only the empty needle. |
| Text.ContainsIffOccurs | src/student-app.js:110-112 | The scanning `includes` holds exactly when the needle occurs at some position of the haystack. |
| Text.ContainsLowered | src/student-app.js:110-112 | A literal occurrence survives ASCII lowercasing of both sides. |
| Seqs.Filter | src/student-app.js:109-113 | `filter` returns no more elements than its input, and every element it returns satisfies the predicate. `Seqs.FilterSelects` gives the full characterisation. |
| Seqs.FilterSelects | src/student-app.js:109-113 | `filter` returns a subsequence of its input that keeps each element satisfying the predicate with its multiplicity and drops every other element. |
| Seqs.RemoveAtIsSubsequence | src/student-app.js:100 | `splice(i, 1)` leaves the other elements in their original relative order. |
| Handlers.RemoveAt | src/student-app.js:100 | `splice(i, 1)` leaves one record fewer, keeps the others in their relative order, removes exactly the record at `i` (multiset), and on distinct ids keeps them distinct with the removed id gone. |
| Server.Run | src/student-app.js:13-21 | The module-level `students` and `nextId` carried from request to request: a run gives one outcome per request, and the first is the request served on the starting store. |
| Server.RunTail | src/student-app.js:13-21 | Each later request is served on the store the previous one left: entry `k + 1` of a run is entry `k` of the run that starts from the store after the first request. |
| Server.Handle | src/student-app.js:39-115 | Every route preserves the invariant. A 201 happens exactly for a POST whose fields are all present and truthy; it carries the old counter as id and advances the counter by one. Any other reply leaves the counter unchanged, and the read routes leave the store unchanged. |
| Server.RunKeepsValid | src/student-app.js:46-105 | From a valid store, every store reached by any sequence of modelled requests is valid. |
| Server.RunCounterAt | src/student-app.js:54 | After any request of a run, the counter is at least the starting counter, and a record created by that request got an id from the starting counter up to the counter after it. |
| Server.RunCounterGrows | src/student-app.js:54 | Along any run the counter never drops below its start. Every created id is at least the starting counter and below the counter after its request. |
| Server.CreatedIdsIncrease | src/student-app.js:54 | Along any run, ids of successive 201 replies strictly increase, so they are pairwise distinct. |
| Server.IdsNeverReissued | src/student-app.js:54 | An id present in a valid store is never given to a later created record, even after that record is deleted. |
| Properties.GetAfterCreate | src/student-app.js:39-66 | On a valid store, a GET of a newly created id returns exactly the record the POST answered with. |
| Properties.DeleteUndoesCreate | src/student-app.js:46-105 | On a valid store, DELETE of the id a POST just issued answers with the created record and restores the records as they were, with the counter still advanced. |
| Properties.GetAfterUpdate | src/student-app.js:68-90 | On any store holding the id, a GET after a successful PUT returns exactly the record the PUT answered with, because the replaced slot is still the first one with that id. |
| Properties.StaleIdNotFound | src/student-app.js:39-105 | After an id is deleted from a valid store, GET, PUT with any body and DELETE of it all answer 404 and leave the store unchanged. |
| Properties.UpdateIsReplace | src/student-app.js:72-85 | On a valid store, PUT equals the reference "replace every record with the id by the normalised body". |
| Properties.DeleteIsFilter | src/student-app.js:94-100 | On a valid store, DELETE equals the reference "keep every record whose id differs", in order. |
| Properties.FilterWithoutIsSplice | src/student-app.js:100 | With distinct ids, filtering out the id at a position is the same as splicing out that position. |
| Properties.SeedCanonical | src/student-app.js:13-19 | Every seed record is already in the normal form POST and PUT produce. |
| Properties.CanonicalPreserved | src/student-app.js:53-85 | POST, PUT and DELETE keep every stored record in normal form. |
| Properties.PutBackIsNoop | src/student-app.js:77-85 | On a valid, normalised store, a PUT of a fetched record's own fields answers with that record and leaves the store unchanged. |
| Properties.SearchEmptyQuery | src/student-app.js:108-113 | The search filter with the empty query returns every record, in store order. No HTTP request reaches this case: the `:query` segment cannot be empty, and `/api/students/search/` is matched by the `/:id` route (src/student-app.js:39), which answers 404. |
| Properties.SearchIgnoresQueryCase | src/student-app.js:108 | For the ASCII case mapping of this model, search gives the same result for the query, its uppercase and its lowercase. |
| Properties.SearchFindsLiteralMatch | src/student-app.js:109-113 | For the ASCII case mapping of this model, a record whose name, email or grade literally contains the query is in the result. |
| Properties.SearchNoMatch | src/student-app.js:109-113 | When no record matches, the result is empty. |
| Scenario.AnnLeeNormalized | src/student-app.js:53-59 | The body `{name "Ann Lee", age 20, grade "a", email " ann@x.com "}` is stored as `"Ann Lee"`, 20, `"A"`, `"ann@x.com"`. |
| Scenario.CreateAnnLee | src/student-app.js:46-66 | On any store of five records with counter 6, POST of the sample body answers 201 with record 6 holding the normalised fields, and the list then has six records. |
| Scenario.EndToEnd | src/student-app.js:13-105 | From the seed: POST answers 201 with id 6; the list then has six records; DELETE of 6 answers with that record; GET of 6 answers 404 "Student not found". |
| Scenario.ZeroAgeRejected | src/student-app.js:49-51 | A POST with age 0 is refused with 400 and the store is unchanged. |
| Scenario.BlankNameStoredEmpty | src/student-app.js:49-55 | A name of blanks passes the presence check and is stored empty. |

## Left out

- Express setup, the `cors()` and `express.json()` middleware, route matching, JSON serialisation and `app.listen`. These are framework and I/O plumbing.
- The health route. It reads the clock and `process.env`. Of the store it reads only `students.length` (src/student-app.js:29), which it does not change.
- The HTML landing page. It is static text.
- The success message strings of POST, PUT and DELETE. The replies carry only the status, the record and the two error texts.
- `parseInt` of the path id and of the age: ids and ages are integers here. Non-numeric input that gives NaN, and fractional or string ages, are not modelled.
- Body fields that are not strings: name, grade and email are strings or absent. A truthy non-string value there makes `.trim()` or `.toUpperCase()` throw. In POST this happens after `nextId++` has run (src/student-app.js:54 is evaluated before :55 and :57), so such a failed POST uses up an id without storing a record.
- Handlers.Update: a PUT of a present id requires all four fields present (`Complete`). In the source such a PUT with a missing name, grade or email throws on `.trim()`/`.toUpperCase()` and becomes a framework 500; a missing age would store NaN. A PUT of an absent id is modelled for any body, since it answers 404 before it uses the body's fields (src/student-app.js:79-82).
- Handlers.Create: ids and the counter are unbounded integers. In the source they are JavaScript numbers (IEEE doubles), exact only below 2^53. At 2^53 `nextId++` stops advancing, so the next create reuses the counter as an id and a later one issues it again; `Valid`, `Server.CreatedIdsIncrease` and `Server.IdsNeverReissued` hold in the source only while the counter stays below 2^53.
- Text.Upper: maps only the ASCII letters. Unicode case mapping, which can change length, is not modelled.
- Text.Lower: maps only the ASCII letters, for the same reason.
- Properties.SearchIgnoresQueryCase: holds for ASCII text only. With Unicode case mapping, as in the source, it fails: `"ß".toUpperCase()` is `"SS"`, so the queries `ß` and `SS` lowercase to different strings, and a name "Strauß" matches only the first.
- Properties.SearchFindsLiteralMatch: holds for ASCII text only. With Unicode case mapping, as in the source, the name "ΟΔΟΣ" literally contains the query "Σ", but `"ΟΔΟΣ".toLowerCase()` ends in the final sigma "ς" while `"Σ".toLowerCase()` is "σ", so the record is not returned.
- Concurrency: the process handles one request at a time, and each route is one atomic step.
