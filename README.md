# Record shop API — a Dafny model

This project models the core of a small Symfony/Doctrine CRUD API for music
records. It has four layers:

- **The request validators**: `Pagination` (`offset`, `limit`), `RecordFilters`
  (`title`, `artist`) and `RecordParameters` (`title`, `artist`, `price`,
  `releasedYear`).
  - Each validator is a function from the raw request values (`Option<string>`, where `None` is `null`) to the list of
    `(property path, message)` violations. The list is in the order Symfony reports them: by property
    declaration, then by annotation order. Nothing short-circuits.
  - The getters are functions over the same values.
  - The current year that `releasedYearValidation` reads from the clock is a parameter.
- **The list query**: `RecordRepository::findByCriterion`, a pure function over the table's rows. Each step
  corresponds to a query-builder clause:
  1. order by `(artist, title)`;
  2. WHERE substring containment for each truthy filter, combined with AND;
  3. skip `offset` rows when the offset is not 0;
  4. keep at most `limit` rows when the limit is not 0.
- **The store and the service**: `RecordService` is a class.
  - It holds the persisted `Record` entities in id order, plus the next value of the id generator.
  - Create, update and delete change that state in place; an update goes through the entity's setters.
  - What each operation does to the table is stated by pure functions over `RecordData` rows: `Find`,
    `Replace`, `Remove`, and appending a row. Lemmas give each of them its "absent id changes nothing" and
    "every other id finds what it found before" properties.
- **The controller**: `RecordController` maps outcomes to a status code and a body:
  - 400 with the `{field, message}` pairs of every violation;
  - 404 with "Record not found";
  - 200, 201 or 204.

  `validateParameters` is a loop, proved against the function `FieldErrors`.

**PHP semantics.** The model follows PHP 7.4 and Symfony 5 semantics where the code depends on them:

- `(int)` of a string reads its leading decimal number, which may be signed, saturates at the 64-bit limits,
  and is 0 for `null`. A fraction is read exactly and then dropped; PHP reads it as a double (see
  "## Left out").
- The loose comparisons of the `Positive`, `GreaterThan(0)` and `LessThanOrEqual(100)` constraints convert a
  string the same way.
- `NotBlank` rejects `null` and `""`, but not `"0"`.
- `Regex` skips `null` and `""`. The length and comparison constraints skip `null`. The `releasedYear` callback
  does not skip `null`: it casts it to 0.
- A filter or a year is truthy unless it is `null`, `""` or `"0"`.

**The entity's title.** The entity `Record` declares its title column and accessors as `name` and `setName`
(app/src/Entity/Record.php:26, 61-72). The service and the repository use `setTitle` and `r.title` instead.
As written, `updateRecord` on a present id calls a method the entity lacks, and the list query names a field
that is not mapped, so both would fail. The model follows the evident intent: one `title` field throughout.

**Prices.** Prices are integer cents: a price string that matches the decimal pattern is converted exactly.

**Where the code and the documented behaviour differ, the model follows the code:**

- An `offset` must be strictly positive: `Positive` rejects `"0"`.
- An absent limit is 0, which means no limit; there is no default of 10.

## Model

| member | source | states |
|---|---|---|
| RecordEntity.Record.constructor | app/src/Entity/Record.php:43-48 | a new record holds exactly the given title, artist and price, has no id yet, and has no year |
| RecordEntity.Record.SetTitle | app/src/Entity/Record.php:61-72 | the title getter returns the value just set; id, artist, price and year are unchanged |
| RecordEntity.Record.SetArtist | app/src/Entity/Record.php:77-88 | the artist getter returns the value just set; every other field, including the id, is unchanged |
| RecordEntity.Record.SetPrice | app/src/Entity/Record.php:93-104 | the price getter returns the value just set; every other field, including the id, is unchanged |
| RecordEntity.Record.SetReleasedYear | app/src/Entity/Record.php:109-120 | the year getter returns the value just set; every other field, including the id, is unchanged |
| Pagination.OffsetViolationsIff | app/src/RequestParameters/Pagination.php:11-18 | the offset raises no violation exactly when it is absent or a positive decimal integer; every offset violation is reported at `offset` |
| Pagination.LimitViolationsIff | app/src/RequestParameters/Pagination.php:20-28 | the limit raises no violation exactly when it is absent or a decimal integer in 1..100; every limit violation is reported at `limit` |
| Pagination.ValidIff | app/src/RequestParameters/Pagination.php:11-28 | a pagination is valid exactly when both values are accepted; a present value that is not all digits is reported at its own field |
| Pagination.ValidGetters | app/src/RequestParameters/Pagination.php:30-50 | for a valid pagination, an absent value reads as 0, a present offset is at least 1, and a present limit is in 1..100 |
| Pagination.NonNumericLimit | app/src/RequestParameters/Pagination.php:20-28 | `limit=abc` gives two violations, both at `limit`: the pattern's message, then the positivity message |
| Pagination.ZeroRejected | app/src/RequestParameters/Pagination.php:16-26 | `offset=0` and `limit=0` are each rejected with exactly the positivity violation |
| Pagination.LimitOverCap | app/src/RequestParameters/Pagination.php:25 | `limit=101` is rejected by the `<= 100` constraint alone |
| PhpRuntime.DigitsConvert | app/src/RequestParameters/Pagination.php:39-50 | for a non-empty string of digits, `(int)` is its decimal value (saturated), and `> 0` holds exactly when that value is positive |
| RecordFilters.ValidIff | app/src/RequestParameters/RecordFilters.php:11-31 | the filters are valid exactly when each present value has at most 100 characters; a longer title or artist is reported at its own field; a `null` one never is |
| RecordParameters.ReleasedYearValidation | app/src/RequestParameters/RecordParameters.php:90-100 | at most one violation, present exactly when the year cast to an integer (0 for `null`) is after the current year, reported at `releasedYear.releasedYear` |
| RecordParameters.FractionCentsPositive | app/src/RequestParameters/RecordParameters.php:26-34 | the one or two digits after the decimal point are worth a positive number of cents exactly when one of them is not 0 |
| RecordParameters.PricePositiveIff | app/src/RequestParameters/RecordParameters.php:26-34 | for a price in the decimal pattern, `GreaterThan(0)` holds exactly when its value in cents is positive |
| RecordParameters.PriceViolationsIff | app/src/RequestParameters/RecordParameters.php:26-34 | the price raises no violation exactly when it is present, matches the decimal pattern and is worth more than 0 cents |
| RecordParameters.YearViolationsIff | app/src/RequestParameters/RecordParameters.php:36-44 | the year raises no violation exactly when it is absent or 1 to 4 digits not all zero, and its integer cast is not after the current year |
| RecordParameters.ValidIff | app/src/RequestParameters/RecordParameters.php:12-44 | a payload raises no violation exactly when title and artist are non-blank with at most 100 characters, the price matches the pattern and is above 0, the year is absent or 1 to 4 digits not all zero, and the year cast to an integer is not after the current year |
| RecordParameters.RequiredFieldsReported | app/src/RequestParameters/RecordParameters.php:12-34 | a missing, blank or over-long title or artist is reported at its own field, and a missing or blank price at `price` |
| RecordParameters.EmptyPayload | app/src/RequestParameters/RecordParameters.php:12-44 | the empty payload gives exactly three violations, the not-blank ones for title, artist and price, in that order |
| RecordParameters.RejectedPrices | app/src/RequestParameters/RecordParameters.php:26-34 | `0`, `0.00`, `1.234` and `-1` are rejected as prices |
| RecordParameters.AcceptedPrice | app/src/RequestParameters/RecordParameters.php:26-34 | `14.99` is accepted as a price, worth 1499 cents |
| RecordParameters.AcceptedYearGetter | app/src/RequestParameters/RecordParameters.php:81-88 | for an accepted year, the getter gives `null` exactly for an absent year, and otherwise the year's decimal value, in 1..9999 |
| RecordParameters.ValidReleasedYear | app/src/RequestParameters/RecordParameters.php:36-44 | for a valid payload, the year getter gives `null` or a year in 1..currentYear |
| RecordRepository.ContainsIff | app/src/Repository/RecordRepository.php:29-37 | the `LIKE '%t%'` match holds exactly when `t` occurs in the column at some position |
| RecordRepository.LexLeTotal | app/src/Repository/RecordRepository.php:23-24 | any two strings are ordered one way or the other |
| RecordRepository.LexLeAntisymmetric | app/src/Repository/RecordRepository.php:23-24 | two strings ordered both ways are equal |
| RecordRepository.LexLeTransitive | app/src/Repository/RecordRepository.php:23-24 | the string order is transitive |
| RecordRepository.KeyLeTotal | app/src/Repository/RecordRepository.php:23-24 | any two rows are ordered one way or the other by `(artist, title)` |
| RecordRepository.KeyLeTransitive | app/src/Repository/RecordRepository.php:23-24 | the `(artist, title)` order is transitive |
| RecordRepository.SortedCons | app/src/Repository/RecordRepository.php:23-24 | a row that may precede every row of a sorted list, placed in front of it, keeps the list sorted |
| RecordRepository.Insert | app/src/Repository/RecordRepository.php:23-24 | inserting a row adds exactly that row to the multiset of rows |
| RecordRepository.OrderBy | app/src/Repository/RecordRepository.php:23-24 | the ordered table is a permutation of the table |
| RecordRepository.InsertAbove | app/src/Repository/RecordRepository.php:23-24 | inserting a row above a lower bound keeps every row above that bound |
| RecordRepository.InsertSorted | app/src/Repository/RecordRepository.php:23-24 | insertion keeps a sorted list sorted |
| RecordRepository.OrderBySorted | app/src/Repository/RecordRepository.php:23-24 | the ordered table is ascending by artist, then title |
| RecordRepository.Where | app/src/Repository/RecordRepository.php:26-42 | the filtered rows are a sub-multiset of the input; each passes every truthy filter; and every input row that passes them is kept |
| RecordRepository.WhereAbove | app/src/Repository/RecordRepository.php:26-42 | filtering keeps a lower bound of the rows |
| RecordRepository.WhereSorted | app/src/Repository/RecordRepository.php:26-42 | filtering keeps an ordered list ordered |
| RecordRepository.WhereUnfiltered | app/src/Repository/RecordRepository.php:29-34 | with both filters falsy (`null`, `""` or `"0"`), no row is dropped |
| RecordRepository.Window | app/src/Repository/RecordRepository.php:44-50 | the window's length is what is left after the offset, capped by a non-zero limit, and its i-th row is the input's row at offset + i |
| RecordRepository.WindowSubset | app/src/Repository/RecordRepository.php:44-50 | the window adds no rows |
| RecordRepository.WindowSorted | app/src/Repository/RecordRepository.php:44-50 | the window of an ordered list is ordered |
| RecordRepository.FindByCriterionSpec | app/src/Repository/RecordRepository.php:21-54 | the result is ascending by `(artist, title)`, consists of stored rows only, every row contains each truthy filter, and has at most `limit` rows when the limit is not 0 |
| RecordRepository.FindByCriterionComplete | app/src/Repository/RecordRepository.php:21-54 | without offset and limit every matching stored row is returned; without filters either, the result is exactly the table, reordered |
| RecordFixtures.TableOrdered | app/src/DataFixtures/RecordFixtures.php:14-30 | the two fixture records are already in `(artist, title)` order |
| RecordFixtures.ListAll | app/src/DataFixtures/RecordFixtures.php:14-30 | no parameters list both fixture records, Guns N' Roses first |
| RecordFixtures.ListFirst | app/src/Repository/RecordRepository.php:44-46 | `limit=1` lists only the Appetite for Destruction record |
| RecordFixtures.ListSecond | app/src/Repository/RecordRepository.php:44-50 | `offset=1&limit=1` lists only the second record in `(artist, title)` order |
| RecordFixtures.ContainsSuffix | app/src/Repository/RecordRepository.php:29-37 | a column ending in a text contains that text |
| RecordFixtures.RosesInGunsNRoses | app/src/Repository/RecordRepository.php:34-37 | "Roses" matches the artist "Guns N' Roses" |
| RecordFixtures.ContainsFirstChar | app/src/Repository/RecordRepository.php:29-37 | a column that contains a text contains its first character |
| RecordFixtures.RosesNotInPinkFloyd | app/src/Repository/RecordRepository.php:34-37 | "Roses" does not match the artist "Pink Floyd" |
| RecordFixtures.WhereRoses | app/src/Repository/RecordRepository.php:34-42 | the artist filter "Roses" keeps only the Guns N' Roses record |
| RecordFixtures.ListByArtist | app/src/Repository/RecordRepository.php:21-54 | `artist=Roses` lists only the Guns N' Roses record |
| RecordService.IndexOf | app/src/Service/RecordService.php:32-35 | the position found holds a row with that id, and there is none exactly when no row has that id |
| RecordService.FindAt | app/src/Service/RecordService.php:32-35 | in a table with unique ids, looking up a row's id gives that row |
| RecordService.FindAppend | app/src/Service/RecordService.php:42-56 | appending a row with the next generated id keeps the table valid; the row is found by its id; every other id finds what it found before |
| RecordService.FindReplace | app/src/Service/RecordService.php:58-74 | replacing an absent id changes nothing; a present id afterwards finds the new fields under the same id; every other id finds what it found before; the table keeps its length and stays valid |
| RecordService.ReplaceAt | app/src/Service/RecordService.php:66-73 | giving one row new fields that fit the columns, under its own id, keeps the table valid |
| RecordService.RemoveAt | app/src/Service/RecordService.php:76-88 | dropping a row keeps the table valid and shifts the later rows down by one |
| RecordService.RemoveAtGone | app/src/Service/RecordService.php:76-88 | once a row is dropped, its id finds nothing |
| RecordService.RemoveAtOthers | app/src/Service/RecordService.php:76-88 | once a row is dropped, every other id finds what it found before |
| RecordService.FindRemove | app/src/Service/RecordService.php:76-88 | removing an absent id changes nothing; afterwards the id finds nothing; every other id finds what it found before; the table shrinks by one exactly when the id was present |
| RecordService.FieldsOf | app/src/RequestParameters/RecordParameters.php:54-88 | the fields read from well-formed parameters fit the table's columns, and a year is in 1..9999 |
| RecordService.Snapshot | app/src/Service/RecordService.php:32-35 | the table has one row per stored entity, in order, holding that entity's fields |
| RecordService.SnapshotRemoveAt | app/src/Service/RecordService.php:84-87 | dropping an entity from the store drops exactly its row from the table, in place |
| RecordService.RecordService.constructor | app/src/Service/RecordService.php:26-30 | the store starts empty and valid |
| RecordService.RecordService.GetRecord | app/src/Service/RecordService.php:32-35 | gives `null` exactly when no stored row has the id; otherwise a stored entity whose row is the one with that id |
| RecordService.RecordService.GetRecords | app/src/Service/RecordService.php:37-40 | gives exactly the list query over the stored rows, with the same pagination and filters |
| RecordService.RecordService.Persist | app/src/Service/RecordService.php:52-53 | the entity gets the next generated id and joins the table after the rows already there; the store stays valid |
| RecordService.RecordService.CreateRecord | app/src/Service/RecordService.php:42-56 | a fresh entity holding the parameters' four fields is appended with the next id; it is found by that id; every other id finds what it found before |
| RecordService.RecordService.UpdateRecord | app/src/Service/RecordService.php:58-74 | on an absent id, gives `null` and leaves the table unchanged; on a present id, that row gets the four new fields and keeps its id, and nothing else changes |
| RecordService.RecordService.DeleteRecord | app/src/Service/RecordService.php:76-88 | gives `true` exactly when the id was present; exactly that row is removed; afterwards the id finds nothing |
| RecordController.FieldErrors | app/src/Controller/RecordController.php:451-465 | one `{field, message}` pair per violation, with the violation's path and message, in order |
| RecordController.FieldErrorsAppend | app/src/Controller/RecordController.php:131-135 | the pairs of two violation lists are those of the first followed by those of the second |
| RecordController.RecordController.constructor | app/src/Controller/RecordController.php:43-54 | the controller uses the given service |
| RecordController.RecordController.ValidateParameters | app/src/Controller/RecordController.php:451-465 | emits exactly the pairs of the validator's violations, and none exactly when there are none; a record payload with none is well-formed |
| RecordController.RecordController.ErrorPairs | app/src/Controller/RecordController.php:457-462 | the loop appends one pair per violation, in order, giving exactly the pairs of the list |
| RecordController.RecordController.List | app/src/Controller/RecordController.php:129-144 | any pagination or filter violation gives 400 with the pagination's pairs before the filters'; otherwise 200 with the list query over the stored rows |
| RecordController.RecordController.Show | app/src/Controller/RecordController.php:180-189 | 404 with "Record not found" when no row has the id cast from the request; otherwise 200 with that row |
| RecordController.RecordController.Create | app/src/Controller/RecordController.php:264-282 | violations give 400 with their pairs and leave the table unchanged; otherwise a row with the next id and the payload's fields is appended, and 201 carries it |
| RecordController.RecordController.Update | app/src/Controller/RecordController.php:378-400 | violations give 400 whether or not the id exists, and the table is unchanged; otherwise an absent id gives 404 and a present one gives 200 with the updated row, and the table is the replaced one |
| RecordController.RecordController.Delete | app/src/Controller/RecordController.php:435-444 | 204 with no body when the id was present, 404 otherwise; the table is the one with that id removed, and the id generator is unchanged |

## Left out

- HTTP routing, request parsing, the JSON serializer and the OpenAPI annotations are left out. A request is
  a map of parameter names to strings, and a response is a status code and an unserialised body. The
  `ApiController` helpers are folded into the `Body` constructors.
- Annotation-only bounds are left out, because nothing enforces them: the documented price maximum and the
  documented minimum of 0 for the offset.
- Doctrine is left out: the entity manager, the unit of work, the `Paginator` and the SQL it produces. The
  table is a sequence of entities in id order. The AUTO id generator is a counter whose start is a parameter.
- `LIKE` wildcards and collation are left out. `%` and `_` in a filter are ordinary characters here, and
  matching and ordering are by character code. A case-insensitive collation would match and order
  differently.
- Floating point is left out. `getPrice()` and the entity's `float` price are modelled as exact integer
  cents.
- `RecordService.FieldsOf`: does not model the `decimal(8,2)` column's capacity. A validated price can have
  any number of integer digits, and a store would reject one above 999999.99.
- The `smallint` year column is modelled as a range check on stored rows, which validated years (at most
  9999) always pass.
- The clock is a parameter: `date('Y')` in `releasedYearValidation` becomes `currentYear`.
- Some PHP numeric-string forms are left out: the leading whitespace and exponent forms (`" 12"`, `"1e3"`)
  that `(int)` and loose comparison also accept. Only an optional sign, digits and an optional fraction are
  read. None of these forms passes the validators' patterns, but the difference still reaches a response in
  two places:
  - The unvalidated `{id}` of show, update and delete: PHP reads `1e3` as 1000 and `" 7"` as 7, and the model
    reads them as 1 and 0.
  - The comparison and callback constraints, which also run on a value the pattern rejects:
    - `limit=1e3`: PHP adds the `<= 100` violation, and the model does not.
    - `limit=" 5"`: the model adds the positivity violation, and PHP does not.
    - `releasedYear=1e5`: the callback violation differs in the same way.
- A numeric string's fraction is read exactly here. PHP converts the number to a double, so a long fraction
  can round the whole part up. This reaches a response in three places:
  - The `{id}`: PHP reads `1.99999999999999999999` as 2, and the model reads it as 1, so show, update and
    delete act on a different row.
  - The `<= 100` constraint: PHP sees `limit=100.00000000000000001` as 100.0 and reports nothing, and the
    model reports a violation.
  - The year callback, with current year 2026: PHP casts `releasedYear=2026.99999999999999999` to 2027 and
    reports a violation, and the model casts it to 2026 and does not.
- The PCRE `$` in the validators' patterns also matches before a final newline. The model treats `$` as the
  end of the string, so a value such as `"12\n"` is rejected here.
- `RecordEntity.Record.constructor`: an entity whose year setter has not run has an uninitialised typed
  property in PHP. Here it reads as `None`, which is what the store keeps for it.
- `getId()` on an entity that was never persisted fails in PHP. Here the getter requires an assigned id.
- The order of rows with equal `(artist, title)` is left out. The query has no tie-breaker, so the database
  may return tied rows in any order, and an offset or a limit may then keep different rows. The model fixes
  that order to table order, which is id order.
- `RecordParameters.GetReleasedYear`: requires the year to be neither `""` nor `"0"`. For those values the
  getter returns the raw string from a method declared `?int` under strict types, which throws a `TypeError`.
  No caller reaches this, because `Positive` rejects both values before the service reads the getter.
- The `Length` constraint's charset check is left out. It reports a value that is not valid UTF-8, such as
  the single byte `0xFF`. Strings here are sequences of characters and cannot hold such a value.
- Concurrency and transactions are left out: every operation runs alone against the store.
- The `Hello` demo resource is not part of this model.
