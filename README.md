# Movie collection router, modelled in Dafny

This project models the movie resource of a small Express service. The
service keeps its movies in one flat file. Every handler reads the whole
collection, changes it in memory and writes it back. The router offers:

- lookup by id;
- a genre filter with a limit;
- create, update and delete;
- a PDF download;
- a bulk update of every record's language.

It also has a middleware, `FechaIP`, that stamps write bodies with a
timestamp and the client address. Two functions sit before the handlers:
`validateMovie`, a Joi schema, and `FechaIP`.

Layout, one module per concern of `API_PARCIAL/routes/movie.file.router.js`:

- `wrappers.dfy` (`Wrappers`): `Option`, for JSON keys that may be absent.
- `text.dfy` (`Text`): the string built-ins the router uses.
  - `toLowerCase` on ASCII letters.
  - `includes`.
  - `trim`, with the ECMAScript white-space set.
  - The decimal rendering of an integer inside a template literal.
- `schema.dfy` (`MovieSchema`):
  - the stored record `Movie` and the write body `Body` (schema keys only);
  - the Joi schema, one check per key, tried in declaration order and
    stopping at the first failure;
  - `Conforms`, the schema in plain terms, proved equivalent to validation.
- `collection.dfy` (`MovieCollection`): the array operations as functions
  on `seq<Movie>`, namely `find`, `findIndex`, the update's object spread,
  `splice`, `filter`, `slice(0, n)` and `map`. Beside them are the lemmas
  that relate them.
- `router.dfy` (`MovieRouter`):
  - `Request`, a class whose body `FechaIP` changes in place;
  - `MovieStore`, a class whose `movies` field stands for what `read()`
    returns and `write()` replaces, with one method per route;
  - two client methods that replay concrete request sequences.

The current year, the timestamp and the client address are parameters.
`release_year`, `rating` and `duration_minutes` are `real`, as JavaScript
numbers carry fractions; the integer rule means no fractional part, and
`rating` is compared only with 0 and 10. Ids, path ids, `limit` and the
current year are `int`.

Three behaviours of the code worth knowing:

- **Duplicate ids.** A create assigns `length + 1`, which after a delete
  can be an id still in use. When the ids were 1..n before the delete (the
  state creates alone reach), deleting any record but the last makes the
  next create reuse the id of the record now last;
  `DeleteThenNextIdCollides` proves this. `CreateUnderTakenIdIsShadowed`
  proves that, whenever the new id is taken, a later lookup of it still
  returns the older record. `IdCollisionScenario` replays the case.
- **`created_at` can change.** An update body may carry `created_at`, and
  the spread then overwrites the stored value. `Merge` states this, and
  `EnrichedValidation` shows that such a body passes. Likewise a created
  record keeps any `updated_at` the client sent.
- **Empty strings.** A Joi string refuses `''` by default, even for the
  optional keys `created_at`, `updated_at` and `ip`. The model does the same,
  as rule `EmptyString`.

## Model

| member | source | states |
|---|---|---|
| `Text.ToLower` | API_PARCIAL/routes/movie.file.router.js:131 | lowering keeps the length and lowers each character in place |
| `Text.Includes` | API_PARCIAL/routes/movie.file.router.js:131 | `includes` never holds for a needle longer than the string, and always holds for the empty needle |
| `Text.IncludedSomewhere` | API_PARCIAL/routes/movie.file.router.js:131 | when `includes` holds, the needle occurs at a position it returns |
| `Text.OccurrenceIsIncluded` | API_PARCIAL/routes/movie.file.router.js:131 | an occurrence at any position makes `includes` hold |
| `Text.IncludesIffOccurs` | API_PARCIAL/routes/movie.file.router.js:131 | `includes` holds exactly when the needle occurs as a contiguous block |
| `Text.DropLeading` | API_PARCIAL/routes/movie.file.router.js:178 | start of `trim`: result is a suffix, everything dropped is white space, the result starts with a kept character |
| `Text.DropTrailing` | API_PARCIAL/routes/movie.file.router.js:178 | end of `trim`: result is a prefix, everything dropped is white space, the result ends with a kept character |
| `Text.Trim` | API_PARCIAL/routes/movie.file.router.js:178 | `trim` leaves a block of the input with only white space outside it, starting and ending with a non-space character |
| `Text.BlockLengthAtLeastTwo` | API_PARCIAL/routes/movie.file.router.js:178 | such a block has at least two characters exactly when the input holds two kept characters at different positions |
| `Text.TrimmedLengthAtLeastTwo` | API_PARCIAL/routes/movie.file.router.js:178 | `language.trim().length >= 2` exactly when the string has non-space characters at two different positions |
| `Text.NatToDecimal` | API_PARCIAL/routes/movie.file.router.js:157 | the rendering of a non-negative id is a non-empty string of digits with no leading zero, except `0` itself |
| `Text.DecimalRoundTrip` | API_PARCIAL/routes/movie.file.router.js:157 | reading the rendered numeral gives back the id |
| `Text.IntToDecimal` | API_PARCIAL/routes/movie.file.router.js:157 | the rendering of an id starts with `-` exactly when it is negative, and has no leading zero and no `-0` |
| `Text.IntDecimalRoundTrip` | API_PARCIAL/routes/movie.file.router.js:157 | reading the sign and then the digits of the rendering gives back the id |
| `Text.IntToDecimalInjective` | API_PARCIAL/routes/movie.file.router.js:157 | distinct ids render as distinct strings |
| `MovieSchema.FirstViolation` | API_PARCIAL/routes/movie.file.router.js:10-24 | accepted exactly when every key passes; a rejection names a key that fails and its rule, with every earlier key passing |
| `MovieSchema.Validate` | API_PARCIAL/routes/movie.file.router.js:10-24 | `validateMovie` accepts exactly when every key passes its check; a rejection names a key and a rule that key breaks |
| `MovieSchema.ValidateAcceptsConforming` | API_PARCIAL/routes/movie.file.router.js:10-24 | validation accepts exactly the bodies meeting every bound: title 1-255, director 3-255, whole release year 1888..current year, genre 3-50, rating 0..10, whole duration of at least 1, language 2-50, audit keys absent or non-empty |
| `MovieSchema.RejectionIsFirstViolation` | API_PARCIAL/routes/movie.file.router.js:64-65 | the reported error is a rule its key breaks, and every key declared before it passes |
| `MovieSchema.MissingTitleRejected` | API_PARCIAL/routes/movie.file.router.js:12 | a body without a title is refused for the missing title |
| `MovieSchema.EarlyReleaseYearRejected` | API_PARCIAL/routes/movie.file.router.js:14 | a whole release year before 1888 after a valid title and director is refused by the 1888 bound |
| `MovieSchema.HighRatingRejected` | API_PARCIAL/routes/movie.file.router.js:16 | a rating above 10 after valid earlier keys is refused by the bound 10 |
| `MovieSchema.WithId` | API_PARCIAL/routes/movie.file.router.js:68-71 | `{ ...req.body, id }` carries the given id and exactly the keys of the body |
| `MovieCollection.Find` | API_PARCIAL/routes/movie.file.router.js:52 | not found exactly when no record has the id; a found record is in the collection and has the id |
| `MovieCollection.FindIndex` | API_PARCIAL/routes/movie.file.router.js:96 | -1 exactly when no record has the id; otherwise the index of a record with the id and no earlier one |
| `MovieCollection.FindIsAtFindIndex` | API_PARCIAL/routes/movie.file.router.js:110-113 | `find` yields the record at the index `findIndex` reports, so a found record always has a valid index |
| `MovieCollection.FindInConcat` | API_PARCIAL/routes/movie.file.router.js:52 | a lookup in a concatenation searches the front part first |
| `MovieCollection.GenreMatches` | API_PARCIAL/routes/movie.file.router.js:131 | a record matches exactly when its lowered filter occurs as a block of its lowered genre |
| `MovieCollection.Merge` | API_PARCIAL/routes/movie.file.router.js:90-93 | the spread keeps the id; every key the body carries wins; every key it lacks keeps the old value |
| `MovieCollection.MergeOfCompleteBody` | API_PARCIAL/routes/movie.file.router.js:84-93 | merging a body with every business key present keeps only the old id, and the old `created_at` when the body has none |
| `MovieCollection.RemoveAt` | API_PARCIAL/routes/movie.file.router.js:112-115 | splice of one element: length drops by one, records before keep their index, records after shift down by one |
| `MovieCollection.RemoveAtMultiset` | API_PARCIAL/routes/movie.file.router.js:112-115 | exactly the one removed record is lost |
| `MovieCollection.SubsequencePrefix` | API_PARCIAL/routes/movie.file.router.js:137 | a prefix of a subsequence is a subsequence, so limiting a filtered list keeps original order |
| `MovieCollection.RemoveAtIsSubsequence` | API_PARCIAL/routes/movie.file.router.js:112-115 | the remaining records keep their relative order |
| `MovieCollection.FilterByGenre` | API_PARCIAL/routes/movie.file.router.js:130-132 | the result is a subsequence; every record occurs as many times as in the input when it matches, and not at all otherwise |
| `MovieCollection.FilterByEmptyKeepsAll` | API_PARCIAL/routes/movie.file.router.js:129-132 | the empty filter keeps every record |
| `MovieCollection.FilterIgnoresCase` | API_PARCIAL/routes/movie.file.router.js:131 | filters that lower to the same string select the same records |
| `MovieCollection.SliceTo` | API_PARCIAL/routes/movie.file.router.js:137 | `slice(0, n)` is a prefix of length min(n, len) for n >= 0 and max(len + n, 0) for n < 0 |
| `MovieCollection.WithLanguage` | API_PARCIAL/routes/movie.file.router.js:184-188 | same length; each record, in place, gets the new language and `updated_at`, and keeps everything else |
| `MovieCollection.WithLanguageKeepsIds` | API_PARCIAL/routes/movie.file.router.js:184-188 | the bulk update moves no id: every id is found at the same index |
| `MovieCollection.DenseIdsAreUnique` | API_PARCIAL/routes/movie.file.router.js:70 | ids 1..n are unique |
| `MovieCollection.AppendNextIdKeepsDense` | API_PARCIAL/routes/movie.file.router.js:68-73 | without deletes, `length + 1` keeps the ids 1..n |
| `MovieCollection.AppendKeepsUniqueIff` | API_PARCIAL/routes/movie.file.router.js:68-73 | a create keeps ids unique exactly when its id is not already taken |
| `MovieCollection.CreateThenFind` | API_PARCIAL/routes/movie.file.router.js:68-73 | a created record whose id was free is then found by that id |
| `MovieCollection.CreateUnderTakenIdIsShadowed` | API_PARCIAL/routes/movie.file.router.js:70 | when the new id is already taken, a lookup still returns the older record |
| `MovieCollection.DeleteThenNextIdCollides` | API_PARCIAL/routes/movie.file.router.js:70 | after deleting a non-last record of ids 1..n, `length + 1` is the id of the record now last |
| `MovieCollection.ReplaceFirstThenFind` | API_PARCIAL/routes/movie.file.router.js:95-97 | replacing the first record with an id by one with the same id makes the lookup return the replacement |
| `MovieCollection.UpdateThenFind` | API_PARCIAL/routes/movie.file.router.js:88-97 | after an update, a lookup of the id returns the merged record |
| `MovieCollection.DeleteThenFind` | API_PARCIAL/routes/movie.file.router.js:110-115 | after a delete, a lookup of the id finds the next record with that id, if any |
| `MovieCollection.DeleteUniqueThenNotFound` | API_PARCIAL/routes/movie.file.router.js:108-121 | with unique ids, a deleted id is not found afterwards |
| `MovieRouter.RecordedAddress` | API_PARCIAL/routes/movie.file.router.js:30-35 | `::1` is recorded as `192.168.20.123`; any other address is recorded as given |
| `MovieRouter.Enriched` | API_PARCIAL/routes/movie.file.router.js:27-46 | an update gets `updated_at`, a creation gets `created_at`, both get `ip`, and no other key changes |
| `MovieRouter.EnrichedValidation` | API_PARCIAL/routes/movie.file.router.js:61-64 | an enriched body passes validation exactly when the client's keys, apart from the stamped ones, conform |
| `MovieRouter.Request.StampDateAndAddress` | API_PARCIAL/routes/movie.file.router.js:37-42 | the request body becomes its enrichment, changed in place |
| `MovieRouter.Failure.Status` | API_PARCIAL/routes/movie.file.router.js:56-65 | a missing record answers 404 (also :102, :119, :151); an invalid body or language answers 400 (also :85, :179) |
| `MovieRouter.LanguageAccepted` | API_PARCIAL/routes/movie.file.router.js:178 | the bulk guard accepts exactly strings with non-space characters at two different positions |
| `MovieRouter.PdfFileName` | API_PARCIAL/routes/movie.file.router.js:157 | the file name is `movie_`, the canonical numeral of the id (no leading zero except in `movie_0.pdf`, no `-0`) and `.pdf`, and the numeral reads back as the id |
| `MovieRouter.PdfFileNameInjective` | API_PARCIAL/routes/movie.file.router.js:157 | distinct ids give distinct PDF file names |
| `MovieRouter.PdfHeaders` | API_PARCIAL/routes/movie.file.router.js:156-157 | content type `application/pdf` and disposition `attachment; filename=movie_<id>.pdf` |
| `MovieRouter.GenreSelection` | API_PARCIAL/routes/movie.file.router.js:129-133 | the filter step keeps a subsequence; any present filter, even empty, gives the same result as filtering by it |
| `MovieRouter.MovieStore.GetById` | API_PARCIAL/routes/movie.file.router.js:50-58 | the record at the first index with the id, or not found when there is none; the collection is not modified |
| `MovieRouter.MovieStore.Create` | API_PARCIAL/routes/movie.file.router.js:61-78 | body stamped; if invalid, the error and the collection unchanged; else the body with id `old length + 1` appended at the end and returned |
| `MovieRouter.MovieStore.Update` | API_PARCIAL/routes/movie.file.router.js:81-105 | body stamped; invalid or unknown id leaves the collection unchanged; else only the first record with the id is replaced, at its index, by the merge |
| `MovieRouter.MovieStore.Delete` | API_PARCIAL/routes/movie.file.router.js:108-121 | not found leaves the collection unchanged; else the first record with the id is removed and returned |
| `MovieRouter.MovieStore.List` | API_PARCIAL/routes/movie.file.router.js:124-141 | a subsequence of the collection; every record matches a present filter; no limit gives the whole selection; a limit gives a prefix of it, of length min(n, len) for n >= 0 and max(len + n, 0) for n < 0 |
| `MovieRouter.MovieStore.ExportPdf` | API_PARCIAL/routes/movie.file.router.js:146-157 | not found when no record has the id; else the first such record with the PDF headers |
| `MovieRouter.MovieStore.UpdateLanguage` | API_PARCIAL/routes/movie.file.router.js:174-195 | a refused language leaves the collection unchanged; else every record gets the untrimmed language and the timestamp, and the count is the old length |

## Left out

- Routing, the Express server and the access log are left out. That covers `API_PARCIAL/index.js`, `API_PARCIAL/routes/index.js` and the logging middleware. `PUT /:id` is registered before `PUT /update-language`, so a real request to the bulk route reaches the update handler; each handler is modelled on its own, with no dispatch.
- File persistence is not modelled. `src/utils/files.js` is not part of this model; `read()` and `write()` are the store's `movies` field. A storage failure, which the code does not handle, is not modelled either.
- Concurrent requests racing on the shared file are not modelled.
- PDF rendering through pdfkit is left out. `MovieRouter.MovieStore.ExportPdf` returns the record and the headers, not the document's text.
- Clock, address and year are inputs. That covers dayjs formatting, `new Date().getFullYear()` and `req.ip || req.connection.remoteAddress`.
- `MovieRouter.MovieStore.UpdateLanguage`: the source calls the clock once per record inside `map`; the model stamps every record with one timestamp `now`.
- `MovieSchema.FirstViolation`: Joi's type coercion is not modelled; the body is typed. Also not modelled: unknown-key rejection, infinite or unsafe numbers, and message wording. The failure carries the key and the rule instead of Joi's message text.
- `MovieSchema.ValidateAcceptsConforming`: lengths count Unicode scalar values, not UTF-16 code units as JavaScript does. Numbers are exact reals, not doubles.
- Ids are unbounded integers. In JavaScript an id is a double, exact only up to 2^53, and `${id}` switches to exponent form from 1e21; ids assigned as `length + 1` never get that far, so only a hand-edited file could show the difference.
- `MovieRouter.LanguageAccepted`: `trim().length` counts Unicode scalar values, not UTF-16 code units, so a string of one character outside the Basic Multilingual Plane, such as an emoji, is refused here while the route accepts it.
- `MovieCollection.GenreMatches` lowers ASCII letters only, not all of Unicode.
- Query parsing is not modelled.
  - Path ids are integers, so `parseInt` giving `NaN` (which never matches) is not modelled.
  - `limit` is the parsed number when `limit && !isNaN(limit)` holds, and absent otherwise. Where `isNaN` and `parseInt` disagree (for example `" "`), the model does not follow.
  - A repeated `filter` or `limit` key, which Express turns into an array, is not modelled.
- Stored records are assumed to carry every business field. This holds for every record these handlers create or update; a hand-edited file could break it.
- Response message texts are not modelled: `Película no encontrada`, for one, and Joi's messages.
- The `updated_at` of an update is not compared with the previous one. Timestamps are opaque strings, so "newer" cannot be stated.
