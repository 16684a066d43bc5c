# stations_api in Dafny

A model of the station service's core:

- **The importer.** It downloads a list of railway-station records. For each record it normalises the latitude (field `lat`) and longitude (field `long`). It skips records whose coordinates do not read as numbers. It inserts the rest into the `stations` table keyed by `station_code`, with `ON CONFLICT DO NOTHING`.
- **The HTTP layer.** It covers the API-key gate and the two nearest-station queries, which take a `limit` and a `page`; their `parseInt(x) || default` parameters are modelled. It also covers the route that runs the importer.

The project has five modules, one per file:

- `wrappers.dfy`: `Option`.
- `js_numbers.dfy` (`JsNumbers`): the JavaScript built-ins the service depends on:
  - `String.prototype.trim`, per section 22.1.3.32.1 of ECMA-262.
  - `parseFloat`, per section 19.2.4 of ECMA-262, over the StrDecimalLiteral grammar of section 7.1.4.1.
  - `parseInt` with no radix, including its `0x` prefix rule, per section 19.2.5 of ECMA-262.
  - `Number::toString`, per section 6.1.6.1.20 of ECMA-262, which `String(n)` and the database driver use to write a number.

  Numbers are exact: `Decimal` is a canonical value `(-1)^negative * mantissa * 10^exponent`, or a signed infinity. NaN is `None`. `parseFloat` is proved to read the value of the longest literal that starts the trimmed input.
- `normalize.dfy` (`Normalize`): the decoded JSON values a record field holds, their string form, and `normalizeNumber`.
- `importer.dfy` (`Importer`):
  - The table is a `StationsTable` class whose `rows` map is updated in place by the `InsertStations` loop.
  - That loop is proved equal to the function `Ingest`.
  - The specification lemmas are stated about `Ingest`.
- `server.dfy` (`Server`):
  - The gate, the parameter defaulting, offsets and pages as pure functions.
  - The database's distance order as a parameter, constrained by `NearestFirst`.
  - `Serve`, which routes one request against a table.

Three behaviours of the code worth knowing, which the model follows:

- **Failed download.** `POST /stations/fetch` answers 200 even when the download fails, although the OpenAPI comment above the route (server.js:48-49) documents a 500 "Failed to load stations". `insertStations` catches its own errors, so the 500 branch is reached only by errors thrown outside it, which the model does not have.
- **Infinite coordinates.** A coordinate text such as `"Infinity"` is not NaN, so `normalizeNumber` keeps it, although the importer is meant to store finite coordinates only. Such a record reaches the INSERT, where only the database can reject it (`fails`).
- **Malformed coordinates.** Query coordinates that `parseFloat` reads as NaN are not refused. They reach the distance function as absent coordinates.

## Model

| member | source | states |
|---|---|---|
| JsNumbers.TrimStartShape | fetchStations.js:7 | trimming the front removes exactly a run of whitespace characters |
| JsNumbers.TrimEndShape | fetchStations.js:7 | trimming the back removes exactly a run of whitespace characters |
| JsNumbers.Trim | fetchStations.js:7 | trim returns the part of the string between a leading and a trailing run of whitespace, and that part neither starts nor ends with whitespace |
| JsNumbers.ScanLiteralLongest | fetchStations.js:11 | the scanner returns the longest well-formed literal that is a prefix of the input, and returns none exactly when no literal is a prefix |
| JsNumbers.ScanLiteralText | fetchStations.js:11 | scanning the spelling of any well-formed literal gives that literal back |
| JsNumbers.TextInjective | fetchStations.js:11 | two well-formed literals with the same spelling are the same literal |
| JsNumbers.ScanLiteralStop | fetchStations.js:11 | text that begins with a character no literal uses does not change the literal scanned before it |
| JsNumbers.Normal | fetchStations.js:11 | a mantissa and exponent are reduced to the canonical decimal of the same value and sign; zero is 0e0 |
| JsNumbers.Meaning | fetchStations.js:11 | a literal's value is canonical, has the literal's sign, and is infinite exactly for Infinity; a digits literal is the integer of its digits times ten to its exponent less its fraction length, zero exactly when those digits are |
| JsNumbers.ParseFloatNone | fetchStations.js:11-13 | parseFloat is NaN exactly when no literal starts the input after leading whitespace |
| JsNumbers.ParseFloatLongest | fetchStations.js:11 | parseFloat is the value of the longest literal that starts the input after leading whitespace |
| JsNumbers.ParseFloat | fetchStations.js:11 | a number is read only when a literal character starts the input after whitespace, and every number read is canonical |
| JsNumbers.MeaningOfToStringLiteral | fetchStations.js:7 | the literal Number::toString writes for a number has that number's value; negative zero is written as zero |
| JsNumbers.ParseFloatNumberToString | fetchStations.js:7-11 | parseFloat reads back String(n) of every number n as n, except that -0 reads back as 0 |
| JsNumbers.NumberToStringWhole | fetchStations.js:7 | the integer 1010 is written "1010", with no exponent |
| JsNumbers.NumberToStringNegativeZero | fetchStations.js:7 | String(-0) is "0" |
| JsNumbers.NumberToStringLarge | fetchStations.js:7 | 10^21 is written "1e+21" |
| JsNumbers.NumberToStringSmall | fetchStations.js:7 | 10^-6 is written "0.000001", with no exponent |
| JsNumbers.NumberToStringTiny | fetchStations.js:7 | 10^-7 is written "1e-7" |
| JsNumbers.NumberToStringFraction | fetchStations.js:7 | -1.5 is written "-1.5" |
| JsNumbers.ParseFloatLeadingSpace | fetchStations.js:7 | leading whitespace does not change parseFloat |
| JsNumbers.ParseFloatStop | fetchStations.js:11 | text after a character no literal uses does not change parseFloat |
| JsNumbers.ParseFloatSurroundingSpace | fetchStations.js:7 | whitespace on both sides does not change parseFloat |
| JsNumbers.ParseFloatLiteralPrefix | fetchStations.js:11 | a literal followed by text that cannot continue it parses to the literal's value |
| JsNumbers.ParseFloatOfTrimmed | fetchStations.js:9-11 | dropping text that cannot continue a literal from after the trimmed start does not change parseFloat |
| JsNumbers.ParseFloatNoNumber | fetchStations.js:11-13 | a string starting with no digit, point, sign, whitespace or Infinity parses to NaN |
| JsNumbers.ParseInt | server.js:201 | an integer is read only when a sign or a digit starts the input after whitespace |
| JsNumbers.ParseIntDecimal | server.js:201 | after whitespace and a sign, parseInt reads exactly the decimal digits and ignores what follows them; only a lone 0 before x or X starts a hexadecimal number instead |
| JsNumbers.ParseIntHex | server.js:201 | parseInt reads the hexadecimal digits after a 0x or 0X prefix, with the sign in front |
| JsNumbers.ParseIntNone | server.js:201 | parseInt is NaN exactly when, after whitespace and one optional sign, no digit follows, or 0x or 0X is followed by no hexadecimal digit |
| JsNumbers.ParseIntNoneExamples | server.js:201 | "-x", "+", "0x" and "0xg" are NaN |
| JsNumbers.ParseIntNoDigits | server.js:201 | parseInt of text with no sign or digit after its whitespace is NaN |
| JsNumbers.ParseIntNatDigits | server.js:202 | parseInt reads back the decimal spelling of any natural number, with or without a minus sign |
| Normalize.ToStr | fetchStations.js:7 | String(v) throws exactly for an object with its own toString field; String(v) of a number is text parseFloat reads back as that number, negative zero as zero |
| Normalize.ToStrThrowsExample | fetchStations.js:7 | an object with its own toString field throws; one with only valueOf is "[object Object]" |
| Normalize.StripTrailingCommas | fetchStations.js:9 | the result is no longer than the input and does not end in a comma |
| Normalize.StripShape | fetchStations.js:9 | stripping removes exactly the run of commas at the end |
| Normalize.NormalizeNumber | fetchStations.js:3-14 | null and undefined give absent; it throws exactly when String(v) does; every present result is a canonical decimal |
| Normalize.ParseFloatClean | fetchStations.js:7-11 | trimming and then removing trailing commas never changes what parseFloat reads |
| Normalize.NormalizeIsParseFloat | fetchStations.js:3-14 | for any value other than null and undefined whose string conversion does not throw, the normalised value is parseFloat of its string form |
| Normalize.NormalizeNone | fetchStations.js:5-13 | the result is absent exactly for null and undefined, and for values whose string conversion does not throw and whose trimmed string form starts with no literal |
| Normalize.NormalizeThrowsExample | fetchStations.js:7 | a value that is an object with its own toString field makes normalizeNumber throw |
| Normalize.TrailingCommasIgnored | fetchStations.js:9 | appending any run of commas to a string does not change its normalised value |
| Normalize.SurroundingSpaceIgnored | fetchStations.js:7 | whitespace around a string does not change its normalised value |
| Normalize.NormalizeNumberValue | fetchStations.js:7-13 | a decoded JSON number normalises to itself, except that -0 becomes 0 |
| Normalize.NormalizeNegativeZero | fetchStations.js:7-13 | a coordinate -0 is normalised to 0 |
| Normalize.NormalizeLiteralPrefix | fetchStations.js:11 | a literal followed by junk normalises to the literal's value |
| Normalize.NoNumberIn | fetchStations.js:11-13 | a string that starts with nothing a number can start with normalises to absent |
| Normalize.ExampleJunkAfterNumber | fetchStations.js:11 | "12.3abc" normalises to 12.3 |
| Normalize.ExampleTrailingComma | fetchStations.js:9 | "10," normalises to 10 |
| Normalize.ExampleTrailingCommas | fetchStations.js:9 | "45.2,," normalises to 45.2 |
| Normalize.ExampleNegativeZeroText | fetchStations.js:7-13 | the text "-0" normalises to negative zero |
| Normalize.ExampleEmpty | fetchStations.js:11-13 | "" normalises to absent |
| Normalize.ExampleLetters | fetchStations.js:11-13 | "abc" normalises to absent |
| Normalize.ExampleNotAvailable | fetchStations.js:11-13 | "N/A" normalises to absent |
| Normalize.ExampleTrueText | fetchStations.js:11-13 | "true" normalises to absent |
| Importer.Field | fetchStations.js:26-27 | a field of a record is the object's own value for that name, and undefined when the record has none |
| Importer.ToParam | fetchStations.js:51-69 | an undefined value is bound as NULL; any other value is passed unchanged |
| Importer.CommentOf | fetchStations.js:36 | the comment is bound as NULL exactly when it is the string "NULL", null or undefined; otherwise it is bound as it is |
| Importer.StepOf | fetchStations.js:25-76 | a null or undefined record aborts the loop. A written record carries its own station_code, one whose string conversion does not throw, and the comment as bound |
| Importer.StepOfCases | fetchStations.js:25-76 | the loop body aborts exactly when the record is null or undefined, when normalising lat or long throws, or when both coordinates are usable and the station_code throws on conversion in the catch's message; it skips exactly when neither throws and one is absent; a write carries the normalised lat and long |
| Importer.WriteColumns | fetchStations.js:51-67 | a written record binds exactly the thirteen pass-through fields, each to the column of its name |
| Importer.KeyOf | fetchStations.js:49-52 | a string, number or boolean code has a key, a string as itself and a number or boolean as its String form; a null, undefined or object code has none |
| Importer.Insert | fetchStations.js:38-76 | existing rows stay unchanged. A new row appears only when the write succeeds with a usable key; it is stored under that key with the coordinates as the driver writes them (negative zero as zero) and geom (lng, lat). Well-formedness is preserved |
| Importer.IngestAll | fetchStations.js:25-77 | the loop never modifies or removes a row already in the table |
| Importer.Ingest | fetchStations.js:16-83 | a failed download leaves the table as it was, and no pass modifies or removes an existing row |
| Importer.IngestWellFormed | fetchStations.js:47 | after a pass every row is stored under its own code with geom == Point(lng, lat) |
| Importer.NewKeys | fetchStations.js:25-77 | a key not in the table is present after the pass exactly when some record before the first aborting one writes it successfully |
| Importer.FirstWriteWins | fetchStations.js:49 | the first record that writes a new key successfully decides its row: the normalised lat and long, negative zero written as zero, with geom (lng, lat) |
| Importer.AbortEndsPass | fetchStations.js:25-82 | a record the loop body throws on ends the pass: the result is that of the records before it |
| Importer.ThrowingLatEndsPass | fetchStations.js:26-82 | a lat whose string conversion throws ends the pass at that record, leaving the table unchanged |
| Importer.ThrowingCodeEndsPass | fetchStations.js:71-82 | a record with usable coordinates and a station_code whose string conversion throws ends the pass: its write fails and the catch's message throws |
| Importer.SkipContinues | fetchStations.js:31-34 | a record with an unusable coordinate leaves the table unchanged and the loop continues |
| Importer.FailedWriteContinues | fetchStations.js:71-76 | a write the database rejects leaves the table unchanged and the loop continues |
| Importer.CoveredAfterPass | fetchStations.js:49 | after a pass, every key a successful write of that pass targets is in the table |
| Importer.CoveredPassChangesNothing | fetchStations.js:49 | a pass whose successful writes all target existing keys changes nothing |
| Importer.IngestIdempotent | fetchStations.js:16-83 | importing the same download twice leaves the table as importing it once |
| Importer.LongNotLng | fetchStations.js:27 | the longitude comes from field long: a record without it is never written, and is skipped unless its lat throws on conversion, even if it has lng |
| Importer.CommentStored | fetchStations.js:36 | the comment "NULL" is stored as NULL; any other defined comment is stored verbatim |
| Importer.NegativeZeroStoredAsZero | fetchStations.js:47-76 | a record whose lat is the text "-0" gets a row whose lat and point ordinate are zero |
| Importer.NumericCodeIsText | fetchStations.js:49-52 | the number 1010 and the string "1010" are one station_code, so the second of the two writes is ignored |
| Importer.StationsTable.InsertOrIgnore | fetchStations.js:38-76 | the table afterwards is Insert of the table before |
| Importer.StationsTable.InsertStations | fetchStations.js:16-83 | the loop leaves the table equal to Ingest of the old table and keeps it well formed; a failed download changes nothing |
| Server.Rejected | server.js:19 | a request that is let through carries a non-empty key equal to the configured one |
| Server.PassesExactly | server.js:17-23 | a request passes the gate exactly when a non-empty key is configured and the header equals it |
| Server.UnconfiguredRejectsAll | server.js:19 | with the key unset or empty every request gets 401 |
| Server.Missing | server.js:118 | a parameter that is not missing is present and non-empty |
| Server.ParamText | server.js:201-202 | a present parameter is read as its text; an absent one as "undefined", in which parseInt finds no integer |
| Server.IntOr | server.js:201-202 | a non-zero integer parseInt reads is the value; NaN or 0 gives the default; the value is never 0 when the default is not |
| Server.IntOrAbsent | server.js:201-202 | an absent parameter takes the default |
| Server.IntOrNumber | server.js:201 | a non-zero number, with or without a minus sign, is read as itself |
| Server.IntOrZero | server.js:201-202 | a parameter reading 0 takes the default |
| Server.IntOrNoDigits | server.js:201-202 | a parameter starting with no digit, sign or whitespace takes the default |
| Server.IntOrDigitsThenText | server.js:201 | a non-zero run of digits followed by anything that is not a digit is read as those digits alone |
| Server.IntOrHex | server.js:201 | a 0x prefix is read in base 16 |
| Server.Offset | server.js:203 | the offset of page 1 or later is non-negative; a page before 1 with a positive size has a negative offset |
| Server.NextPageOffset | server.js:203 | page p + 1 starts where page p ends |
| Server.QueryPointOrder | server.js:122 | coordinates written as numbers give the point (x = lng, y = lat), in the order the importer builds geom; -0 comes back as 0 |
| Server.Page | server.js:210 | LIMIT/OFFSET: the page holds min(lim, remaining) rows, and row i of the page is row off + i of the order |
| Server.PagePastEnd | server.js:210 | an offset at or past the end gives an empty page |
| Server.PagesAdjacent | server.js:210 | consecutive slices concatenate to the slice as long as both |
| Server.ConsecutivePages | server.js:201-210 | pages p and p + 1 together are the double-size page from page p's offset, and they share no row |
| Server.PageNearestFirst | server.js:124-125 | a page of a nearest-first order is nearest first, has no duplicates, holds table rows only and at most lim rows |
| Server.FirstPageNearest | server.js:124-125 | no row left off the first page is nearer than a row on it |
| Server.InsertByDistance | server.js:124 | inserting a row adds exactly that row |
| Server.InsertKeepsSorted | server.js:124 | inserting into a distance-sorted sequence keeps it sorted |
| Server.InsertKeepsDistinct | server.js:124 | inserting a new row into a duplicate-free sequence keeps it duplicate-free |
| Server.SortRows | server.js:124 | any set of rows has an arrangement holding exactly those rows, nearest first, without duplicates |
| Server.NearestFirstExists | server.js:124 | every table has a nearest-first order |
| Server.Project | server.js:121-122 | a row whose point is (lng, lat) is answered with its own lat and lng |
| Server.ProjectAll | server.js:128 | one answer row per ordered row, in the same order |
| Server.AnswerCoordinates | server.js:121 | in a well-formed table the answer returns the stored lat and lng |
| Server.Near | server.js:115-135 | the answer is 400 exactly when lat or lng is absent or empty |
| Server.Paginate | server.js:196-218 | the answer is 400 exactly when lat or lng is absent or empty |
| Server.NearAnswer | server.js:118-128 | 500 exactly when the limit is negative or beyond bigint. Otherwise the first limit rows of the order, projected: at most limit rows, in nondecreasing distance |
| Server.PaginateAnswer | server.js:199-213 | 500 exactly when the limit or the offset is negative or beyond bigint; otherwise the rows [offset, offset + limit) of the order |
| Server.NearLimitTooLarge | server.js:127 | a limit of 2^63 is refused with 500 |
| Server.PaginateOffsetTooLarge | server.js:201-210 | with the default limit, a page past (2^63 - 1) / 10 + 1 overflows the offset and is refused with 500 |
| Server.PaginateDefaults | server.js:201-203 | with neither limit nor page the answer is the ten nearest rows |
| Server.ZeroIsPresent | server.js:118 | the coordinate "0" does not count as missing |
| Server.Serve | server.js:14-23 | only the fetch route can change the table |
| Server.GateStopsRequest | server.js:17-23 | the answer is 401 exactly for a rejected key outside /docs, and a 401 leaves the table unchanged |
| Server.FetchAlwaysLoaded | server.js:52-60 | an admitted fetch answers 200 with the importer's table; a failed download leaves the table unchanged |

## Left out

- The network download, the JSON decoding and `res.json()`.
  - The importer receives an already decoded `FetchOutcome`.
  - A failed download, a body that does not decode, and a body that is not a list are all `FetchFailed`.
  - A body that decodes to a string would be iterated character by character, and every character skipped. The table would be left unchanged, the same effect as `FetchFailed`.
- JSON arrays as field values: `Json` has no array case, because nothing in the records is one.
- IEEE-754 doubles. Numbers are exact decimals, so rounding, overflow to Infinity for huge literals, and the precision of integer parameters are not modelled.
- Number::toString (section 6.1.6.1.20 of ECMA-262) is modelled on exact decimals. Its choice of the shortest digits that round-trip a double is not modelled, because there are no doubles.
- The database:
  - `fails` is an arbitrary predicate saying which INSERTs the database rejects, as a function of the parameters alone. It stands for rejections decided by the values written, such as a constraint violation or a column type the value does not fit. A transient error, such as a lost connection that fails one record and not a later equal one, is not modelled.
  - `Insert`, `IngestWellFormed`, `FirstWriteWins`, `IngestIdempotent`: the `::geography` cast in the INSERT coerces a longitude or latitude outside its range (with a notice) instead of rejecting it. The model stores the point as (lng, lat) as written, so its promise about `geom` holds for the database only for coordinates in range. `IngestIdempotent` also relies on the same writes failing on both passes, which transient errors would break.
  - `KeyOf`: a `station_code` that is null, undefined or an object has no key in the model, so its write counts as failed. The driver would bind an object as its JSON text and a null code as NULL, and what the table then stores is the table's schema's business, which is not part of this model.
- PostGIS geodesy:
  - `ST_Distance` and the `<->` order are one abstract distance `dist` into the reals. In PostGIS the `<->` order on geography uses the sphere while `ST_Distance` uses the spheroid, so near-ties can come back with a `distance` column that is not nondecreasing; `NearAnswer`'s "nondecreasing distance" holds for the single `dist` of the model.
  - The order the database returns is the `order` parameter, constrained by `NearestFirst`.
  - Ties come in any order.
  - Coordinate ranges are not checked, and a NaN coordinate is an absent component of the query point.
- A LIMIT or OFFSET that is negative or beyond bigint is modelled only as a `ServerError` answer. The database's message is not modelled.
- `NearAnswer`, `PaginateAnswer`: `parseInt` and `(p - 1) * l` are computed in doubles in the source. Near 2^63 rounding can carry an in-range value past the bigint bound, and above 2^53 the value sent is rounded. The model computes exactly.
- `ConsecutivePages`: two page requests agree with each other only when the database breaks distance ties the same way for both and no import runs between them. The model fixes one `order` for both.
- Express wiring, CORS, the Swagger specification served under `/docs`, and the listening port. `Docs` stands for whatever that middleware answers.
- A query parameter given several times, which Express turns into an array.
- Logging (console calls), async scheduling and concurrent requests.
- db.js and swagger.js are not part of this model.
