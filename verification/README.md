# A model of the event-map page's data core

The page shows a timeline of historical events next to a world map. Its
script, `scripts.js`, has four parts that decide what is shown:

- `validateData` checks a CSV table of events against a world map.
  - It reports missing columns, malformed start and end dates, and location
    codes that are not country codes.
  - It rewrites the `Location` and `Influences` fields of every record after
    the first into a `;`-separated list of upper-case codes. The first record
    is only checked for its columns; it is neither rewritten nor validated. The aliases `world`, `prussia`,
    `scandinavia`, `south america` and `central america` are expanded.
- `populateTimeline` keeps the events whose start date has no `//`. It
  numbers them and builds one slide per event, with parsed start and end
  dates. It also builds `idLookup`, which maps lower-cased titles to ids.
- `setEmpireColours` picks the period of the empire table that applies to a
  year. It colours every code of every empire column of that period, using
  the second word of the column's header as the colour.
- `displayEventOnMap` draws an event's locations:
  - one location is a bubble;
  - two locations are an arc;
  - more locations are filled in `#4C668C`;
  - the event's influences are then painted in `#758AA8`.

The Dafny project models these parts as pure functions over immutable
values. JavaScript's own behaviour is modelled explicitly wherever the code
relies on it:

- `undefined` and `null` are modelled as `Option`.
- `split` always returns at least one piece.
- `trim` removes the JavaScript whitespace set.
- `parseInt` skips a sign, reads a `0x` prefix as hexadecimal, and gives
  `NaN` when there are no digits.
- `String.prototype.format` leaves a placeholder that has no argument as it
  is.

Modules, one per file:

| module | file | models |
|---|---|---|
| `Wrappers` | wrappers.dfy | `Option`; a record field that may be absent |
| `JsString` | js_string.dfy | `trim`, `split`, `join`, ASCII `toLowerCase` / `toUpperCase` |
| `JsNumber` | js_number.dfy | `parseInt`, `Number.prototype.toString` for whole numbers |
| `StringFormat` | format.dfy | `String.prototype.format` |
| `Messages` | messages.dfy | the validator's messages and their text |
| `Dates` | dates.dfy | `validateDate`, `parseDate`, the info panel's `formatDate` |
| `Locations` | locations.dfy | `splitUpLocations`, `expandParts`, the field rewrite |
| `Codes` | codes.dfy | `codeMap`, `NameToCodeMap`, `validateCodes` |
| `Validation` | validation.dfy | `validateData` as a whole |
| `Choropleth` | choropleth.dfy | assigning one colour to a list of codes |
| `Empires` | empires.dfy | `setEmpireColours` |
| `Timeline` | timeline.dfy | `populateTimeline` |
| `Projection` | projection.dfy | `displayEventOnMap`, `ensureLatLong`, `GetLocForCode` |

`Validation.ValidateWith` takes the field rewrite as a parameter, so its
facts about reports and idempotence hold for any rewrite.
`Validation.ValidateData` applies it with the validator's own rewrite:
lower-case, split, expand and join.

Two places where the script's code is narrower than a plain reading of
what it does; the model follows the code in both:

- A code suggestion is offered only when the country's id is non-empty.
  The script tests the looked-up id for truthiness, not for presence.
- A location code missing from the coordinate table makes the script
  throw. The model reports this as a failed drawing (`None`).

## Model

| member | source | states |
|---|---|---|
| StringFormat.Format | scripts.js:20-30 | A template without `{` comes back unchanged, whatever the arguments. |
| StringFormat.FormatNoArguments | scripts.js:23-27 | With no arguments every placeholder is put back as written, so the template comes back unchanged. |
| StringFormat.FormatPlaceholder | scripts.js:20-30 | A one-digit placeholder after text with no `{` is replaced by its argument, or stays as written when there is no such argument. The text before it is kept, and formatting goes on after it without rescanning what was substituted. |
| Messages.FormatThreeSlots | scripts.js:122 | A template with placeholders 0, 1 and 2, in order, between placeholder-free texts gets the three arguments in those places. |
| Messages.RenderContext | scripts.js:86-87 | A date message starts "Line n: ", where n is the decimal line number, then names its column: "Start Date: " or "End Date: ". |
| Messages.Render | scripts.js:73-247 | The three message kinds, built at lines 73, 86-87 and 204-247, and 115-122. A missing column reads "You are missing the column " and its name. A date message reads as the line and column context, then "Date is missing", the too-many-parts text and the date, or the expected-format text and the date. An invalid code reads "Line n: Location has a invalid country code: X ", then the suggestion text, which is empty when there is no suggestion. |
| Messages.RenderSuggestion | scripts.js:119 | A suggestion reads " (Did you mean to use the code X?)" with the suggested code in place of X. |
| Dates.ValidateDate | scripts.js:182-248 | A blank date is missing unless optional. Otherwise the only problems are too-many-parts and bad-format, and too-many-parts holds exactly when the date has three or more `/`. |
| Dates.SplitCount | scripts.js:193-204 | The number of `/`-parts is one more than the number of `/`. This links the `length > 3` test to the slash count. |
| Dates.ValidateDateGrammar | scripts.js:193-245 | A non-empty date is accepted exactly when it is `YYYY`, `YYYY/M`, `YYYY/M/D` or `D/M/YYYY`, with month and day one or two digits. Both directions are proved. |
| Dates.ParseDate | scripts.js:260-288 | The result is null exactly for a missing or all-whitespace date. A month is present exactly when the trimmed text has a `/`, and a day exactly when it has two. |
| Dates.ParseDatePieces | scripts.js:260-288 | For any trimmed, non-blank text made of `/`-separated pieces: when there are three or more pieces and the third has four characters, the year, month and day are the last, second-to-last and third-to-last pieces. Otherwise they are the first, second and third, with month and day absent when there are too few pieces. |
| Dates.FourPiecesReadFromTheEnd | scripts.js:271-273 | `a/b/cdef/g` parses to year `g`, month `cdef` and day `b`: the reversal looks only at the third piece and reads the whole list backwards. |
| Dates.ParseValidatedDate | scripts.js:260-288 | Every date the validator accepts parses to a value with a four-digit year and a one- or two-digit month and day. |
| Dates.PaddedYear | scripts.js:193-268 | The format check splits the date as written, while parsing trims it first. So a year with a leading space is rejected as badly formatted, yet parses to that year. |
| Dates.DayFirstMatchesYearFirst | scripts.js:271-273 | `D/M/YYYY` and `YYYY/M/D` parse to the same year-first value, because a four-character third part turns the parts round. |
| Dates.FormatDate | scripts.js:509-519 | For a well-shaped date, the shown text has two `/` when there is a day, one when there is only a month, and none for a year alone. |
| Dates.FormatParseFullDate | scripts.js:509-519 | A full date shown by the info panel as day/month/year parses back to the same value. |
| Dates.FormatParseYear | scripts.js:509-519 | A year on its own is shown as the year and parses back unchanged. |
| Dates.FormatMonthYearSwaps | scripts.js:509-519 | A year and month are shown as month/year, and parsing that text back swaps them: the month becomes the year. |
| Locations.Countries | scripts.js:93-95 | `allCodes` holds exactly the map's entries whose id is not `-99`. |
| Locations.CountriesAppend | scripts.js:93-95 | The filter keeps order: the countries of a concatenation are the countries of the first part followed by those of the second. |
| Locations.CountriesOne | scripts.js:94 | A single entry is kept exactly when its id is not `-99`. |
| Locations.CountryIdsAppend | scripts.js:93-95 | The ids of a concatenation are the ids of the first part followed by those of the second. |
| Locations.CountryIdsAt | scripts.js:95 | The ids are the countries' ids, one for one and in the same order. |
| Locations.SplitUpLocationsTokens | scripts.js:483-491 | Every piece is non-empty, has no whitespace at either end, and contains no `;`. |
| Locations.SplitUpJoin | scripts.js:483-491 | Splitting up the `;`-join of such pieces gives back the same pieces: tokenising inverts joining. |
| Locations.ExpandParts | scripts.js:128-153 | Every token that is not an alias contributes its upper-cased text. Every code produced is a map id, an alias code or an upper-cased token. |
| Locations.ExpandPartsAppend | scripts.js:128-153 | The expansion of a concatenation is the concatenation of the expansions, so order and duplicates are kept. |
| Locations.ExpandWorld | scripts.js:135-136 | `world`, in any case, expands to every country id of the map, in map order. |
| Locations.ExpandPrussiaScandinavia | scripts.js:137-140 | `prussia` then `scandinavia` expand to DEU, POL, FIN, DNK, SWE, NOR. |
| Locations.CanonicalExpandsToItself | scripts.js:145-146 | An upper-case token that is not an alias expands to itself, whatever the case in which it was written. |
| Locations.NormaliseFieldTokens | scripts.js:159-162 | The rewritten field splits up into exactly the expansion of the lower-cased field's tokens, and every one of them is a canonical upper-case code, when the map's ids are. |
| Locations.NormaliseIdempotent | scripts.js:159-162 | Rewriting a field a second time leaves what the first rewrite produced, when the map's ids are canonical codes. |
| Codes.CodeSet | scripts.js:97-99 | A code is in `codeMap` exactly when it is the id of some map entry and is not `-99`. |
| Codes.NameTable | scripts.js:97-101 | The keys are exactly the lower-cased country names. When two countries share a lower-cased name, the later country's id is kept. |
| Codes.SuggestsCountryCode | scripts.js:97-120 | A token spelling a country's name, in any case, is offered that country's id, when the id is non-empty and no later country has the same lower-cased name. |
| Codes.CheckTokens | scripts.js:106-124 | There is one message for each flagged token, on the given line and with its suggestion. A token is flagged when it has a letter and is not a known three-character code. There are no messages exactly when no token is flagged. |
| Codes.CheckTokensAppend | scripts.js:106-124 | The messages for a concatenation of tokens are those for the first part followed by those for the second, so order and repeats are kept. |
| Codes.CheckTokensOne | scripts.js:108-122 | One token gives exactly one message, with its code and suggestion, when it is flagged, and none otherwise. |
| Codes.ValidateCodes | scripts.js:103-126 | Over the tokens of the field: every message is for a flagged token and carries that token's suggestion, which exists exactly when its lower-cased text names a country with a non-empty id. Every flagged token has a message, and there are none exactly when nothing is flagged. |
| Codes.ValidateCodesAppend | scripts.js:103-126 | Checking the `;`-join of two token lists gives the messages of the first list followed by those of the second. |
| Codes.ValidateCodesOne | scripts.js:103-126 | A field holding one token gives exactly one message for it when it is flagged, and none otherwise. |
| Codes.NoLetterNeverFlagged | scripts.js:108 | A token with no ASCII letter is never reported. |
| Codes.KnownCodesPass | scripts.js:109-112 | A field made only of the map's three-character codes raises no message. |
| Validation.MissingColumns | scripts.js:61-75 | A message names a column exactly when it is a needed column the first record lacks. |
| Validation.MissingFromAppend | scripts.js:63-75 | The messages for a concatenation of column lists are those for the first list followed by those for the second. |
| Validation.MissingFromOne | scripts.js:63-75 | One column gives exactly one message when the record lacks it, and none otherwise. |
| Validation.MissingFromSameColumns | scripts.js:63-75 | Which messages appear depends only on which needed columns the first record has. |
| Validation.RowDateMessages | scripts.js:83-88 | A record gives one message per date problem, on its line. When both dates are wrong, the start date's message comes first. |
| Validation.DateMessages | scripts.js:83-88 | A message is produced exactly for each date problem of each record, on that record's line. There are none exactly when every record's dates are acceptable. |
| Validation.DateMessagesAppend | scripts.js:83-88 | The date messages of a concatenation are those of the first part followed by those of the second, whose lines continue where the first part's stop. |
| Validation.DateMessagesOne | scripts.js:83-88 | A single record gives exactly its own date messages on its line. |
| Validation.DateMessagesInLineOrder | scripts.js:83-88 | Date messages come out record by record, in increasing line order. |
| Validation.NormaliseRow | scripts.js:159-168 | The rewrite replaces `Location` and `Influences` and changes no other field. |
| Validation.RewriteIdempotent | scripts.js:159-168 | The validator's field rewrite, applied twice, equals one application, when the map's ids are canonical codes. |
| Validation.RowCodeMessages | scripts.js:159-169 | A record's code messages are those of its rewritten `Location` followed by those of its rewritten `Influences`, all on its line. |
| Validation.CodeMessages | scripts.js:155-170 | Code messages carry the lines of the records. There are none exactly when every rewritten record's fields hold no flagged token. |
| Validation.CodeMessagesAppend | scripts.js:155-170 | The code messages of a concatenation are those of the first part followed by those of the second, whose lines continue where the first part's stop. |
| Validation.CodeMessagesOne | scripts.js:159-169 | A single record gives its `Location` messages followed by its `Influences` messages. |
| Validation.CodeMessagesInLineOrder | scripts.js:155-170 | Code messages come out record by record, in increasing line order. |
| Validation.RecordsReportValid | scripts.js:172-179 | The report is valid exactly when no record has a date problem and no rewritten record has a flagged token. |
| Validation.RecordsReportLines | scripts.js:83-179 | Every reported line belongs to a record counted from line 3, and every date message comes before every code message. |
| Validation.ValidateWith | scripts.js:32-180 | An empty table gives exactly the "at least one event" message. The records keep their number, and an invalid report always has a message. |
| Validation.ValidateWithMissingColumns | scripts.js:61-79 | When a needed column is missing, the report is exactly one message per missing column, in the order the columns are checked, and no record is rewritten. |
| Validation.ValidateWithChecks | scripts.js:83-170 | With every column present, the first record stays as it is and every later record is rewritten. The report is that of the original dates and the rewritten codes. |
| Validation.ValidateWithValid | scripts.js:32-180 | The table is valid exactly when the first record has every column and each later record has acceptable dates and rewritten fields with no flagged token. Both directions are proved. |
| Validation.ValidateWithLines | scripts.js:83-170 | Reported line numbers run from 3 to the number of records plus 1, and date messages precede code messages. |
| Validation.FirstRecordSkipped | scripts.js:83-157 | Replacing the first record by any record with the same needed columns leaves the report unchanged: its dates and codes are never checked. |
| Validation.RewriteStable | scripts.js:155-170 | Rewriting already rewritten records changes nothing, and does not change their date messages. |
| Validation.ValidateWithIdempotent | scripts.js:32-180 | Validating the rewritten table again gives the same report and the same records, for any idempotent field rewrite. |
| Validation.ValidateData | scripts.js:32-180 | Holds the same guarantees as `ValidateWith`, for the validator's own rewrite. |
| Validation.ValidateDataIdempotent | scripts.js:155-170 | Running the validator on its own output reproduces that output, when the map's ids are canonical codes. |
| Choropleth.Paint | scripts.js:591-596 | Every listed code gets the colour, every other entry keeps its colour, and nothing else is added. |
| Choropleth.PaintTwice | scripts.js:591-596 | Painting the same codes twice leaves only the second colour. |
| Choropleth.PaintAll | scripts.js:425-449 | After painting a sequence of updates, a code is coloured exactly when the start map or some update has it. The last update that has a code decides its colour, and codes no update touches keep their colour. |
| JsNumber.ParseIntDigits | scripts.js:377 | `parseInt` of a string of decimal digits is the number those digits denote. |
| JsNumber.ParseIntNatToString | scripts.js:377 | `parseInt` of a slide's `unique_id` text gives back the id it was made from. |
| Empires.YearOfDigits | scripts.js:387 | A year written in decimal digits is that year. |
| Empires.YearOfDecimal | scripts.js:387 | The decimal text of a number reads back as that year. |
| Empires.SelectIndex | scripts.js:402-410 | The loop stops at the first period it may stop at, or at the last period. None of the periods before the chosen one could have stopped it. |
| Empires.SelectPeriod | scripts.js:402-410 | There is no period exactly when the table is empty. An undefined year picks the first period and a `NaN` year picks the last. |
| Empires.SelectInSortedTable | scripts.js:404-409 | In a table sorted by `Year`, a year up to the last bound picks the period with the first bound not below it. |
| Empires.SelectAfterLastYear | scripts.js:404-409 | A year after every bound picks the last period. |
| Empires.Colour | scripts.js:435-437 | A colour exists exactly when the header has at least two non-empty space-separated words; it is non-empty and contains no space. |
| Empires.ColourOfKey | scripts.js:435-437 | The header "Empire colour" gives the colour `colour`, for any one-word empire and colour. |
| Empires.CodesOf | scripts.js:440-442 | A cell gives at least one code. Every code is trimmed and contains no `;`. |
| Empires.CodesOfJoin | scripts.js:440-442 | A cell written as the `;`-join of trimmed codes without `;` gives back exactly those codes, in order. |
| Empires.ColourMap | scripts.js:425-449 | A code is coloured exactly when some empire column lists it. The last column that lists it decides its colour. |
| Empires.EmpireColours | scripts.js:400-453 | An empty table colours nothing. Otherwise the colour map is that of the selected period's columns, so the coloured codes are exactly those listed by an empire column of that period. |
| Empires.TrailingSemicolonColoursEmpty | scripts.js:440-447 | A cell ending in `;` also colours the empty code. |
| Empires.NonEmpireColumnsIgnored | scripts.js:430-433 | Adding a `Year` column or a column with an empty header does not change the colour map. |
| Timeline.KeepEvents | scripts.js:295-297 | The filter keeps exactly the records whose start date contains no `//`. |
| Timeline.KeepEventsAppend | scripts.js:295-297 | Filtering keeps order: filtering a concatenation concatenates the filtered parts. |
| Timeline.DoubleSlashInsideDrops | scripts.js:296 | A `//` anywhere in the start date drops the record, not only at its start. |
| Timeline.Slide | scripts.js:306-352 | The slide's headline is the title and its text is "Not Included". Its id is the decimal text of the record's number and parses back to that number. Its start and end dates are the parsed `StartDate` and `EndDate`, so there is no start date exactly when the text is blank. |
| Timeline.Slides | scripts.js:301-354 | There is one slide per kept record, and the k-th slide is built from the k-th record with id k. |
| Timeline.SlideIdsDistinct | scripts.js:303-311 | No two slides share a `unique_id`. |
| Timeline.IdLookup | scripts.js:303-304 | The keys are exactly the lower-cased titles. Each key maps to a record with that title, and no later record has it. |
| Timeline.LookupLastWins | scripts.js:304 | The last record with a given title is the one its key maps to. |
| Timeline.LookupFindsSlide | scripts.js:304-308 | The id a key maps to leads to a slide whose headline lower-cases to the key, and no later slide has that headline. |
| Timeline.LookupOnSlides | scripts.js:303-308 | Every key of the lookup maps to the position of a slide whose headline lower-cases to that key. |
| Timeline.Undated | scripts.js:336-344 | The reported ids are exactly those of slides with no start date, in increasing order. |
| Timeline.UndatedRecords | scripts.js:336-344 | The reported ids are exactly the positions of the kept records whose start date is blank. |
| Timeline.Populate | scripts.js:293-357 | The kept records are exactly those the filter keeps, in order. There is one slide per record with its id; the lookup has exactly the kept titles as keys, and each lands on the last slide with that headline. The undated ids are those of the slides with no start date, which are the records with a blank start date. |
| Projection.EnsureLatLong | scripts.js:455-470 | A three-character location is looked up in the coordinate table, and fails exactly when the code is not there. Any other location is split at `,`. |
| Projection.CoordinatesRead | scripts.js:463-467 | `lat,long` written without extra commas reads back as the same latitude and longitude. |
| Projection.RadiusReadsDecimal | scripts.js:611-614 | An event whose `radius` is the decimal text of a number is drawn with that radius. |
| Projection.Shape | scripts.js:598-642 | One location gives one bubble, two give one arc, and more fill exactly those codes in `#4C668C`. The shape fails exactly when a bubble or arc location's lookup fails. |
| Projection.DisplayEvent | scripts.js:493-649 | No event draws nothing. An event is drawn only when its start date parses and it has `RelatedEvents`, `Tags`, `Footnotes`, `Location` and `Influences`; without any of these the script throws, and the model draws nothing. |
| Projection.DrawnWhen | scripts.js:511-649 | An event is drawn exactly when it has those fields and a parsed start date, and it is not the case that it has one or two locations one of which is missing from the coordinate table. Both directions are proved. |
| Projection.GeometryByCount | scripts.js:605-637 | The bubble carries the title, the location and the radius. The arc runs from the first location to the second. |
| Projection.InfluencesWin | scripts.js:638-645 | The coloured codes are the influences plus any fill. Influences are `#758AA8` even where the fill coloured them, and the rest of the fill stays `#4C668C`. |
| Projection.FillAlone | scripts.js:638-645 | With no influences, a fill colours exactly its locations. |

## Left out

- Page, DOM and jQuery work is not modelled. This covers `displayErrors`, the info panel apart from `formatDate`, the error `div`s, CSS and the SVG transforms: these are presentation.
- The "has no start date" message that `populateTimeline` appends to the page is modelled as the list `Timeline.Populated.undated` of the ids it names.
- Loading is not modelled: `Papa.parse`, `$.getJSON`, `topojson` and the map set-up. Their results are inputs: the records as `seq<Row>`, the map's countries as `seq<GeoEntry>`, the coordinate table and the empire table.
- The TimelineJS widget is not modelled: `updateTimeline`, `TL.Timeline`, and the change handler apart from its `parseInt` calls. It is third-party code.
- `playSlideShow` and timers are not modelled, because they depend on time.
- `isOdd` and the commented-out grouping code have no effect on behaviour.
- Global variables are not modelled as shared state: `allEvents`, `idLookup`, `selections` and `_currentEmpireColours` are returned as values. The reset of the previous colours to `silver` and the `updateChoropleth`, `bubbles` and `arc` calls are drawing side effects.
- In-place rewrites of records are modelled as returned values:
  - the validator's rewrite of `Location` and `Influences` is `Outcome.rows`;
  - the timeline's `row.id` and parsed `StartDate`/`EndDate` are the kept records' positions and the slides.
- Projection.DisplayEvent takes the record as the timeline left it, with `StartDate` still as text; the model reads it through `Dates.ParseDate`, as the timeline does before the record reaches the map.
- Projection.EnsureLatLong keeps coordinates as text. `parseFloat` is floating point, so a latitude or longitude is the raw text between the commas.
- Empires.Period: the numeric value of a period's `Year` cell, from JavaScript's string-to-number conversion, is an input (`bound`, `None` for `NaN`). Fractional years are not modelled.
- Empires.ColourMap: a period's columns are a sequence in the order `for … in` enumerates them. Which order a JavaScript engine uses for the table's property names is not modelled.
- Codes.NameTable: names that clash with properties of `Object.prototype` are not modelled. A plain object lookup would find such properties for tokens like `constructor`.
- Where the script throws, the model takes one of two forms:
  - a `requires`: `Validation.Checkable` covers a later record without `Location`/`Influences`, and `Timeline.Populate` covers a record without `StartDate` or a kept record without `Title`;
  - a `None` result: `Projection.EnsureLatLong` covers a code missing from the coordinate table, and `Projection.DisplayEvent` covers an event whose start date did not parse (`formatDate` of `null`, scripts.js:524) or that lacks `RelatedEvents` (533), `Tags` (555), `Footnotes` (571), `Location` (598) or `Influences` (644).
- Projection.DisplayEvent: a throw at 644, or in a coordinate lookup at 609 or 628-631, comes after `selections` was cleared at 600-602. The model returns `None` and does not describe that partly reset state. The earlier throws leave `selections` as it was.
- JsString: `length` counts UTF-16 code units in JavaScript, while a Dafny `string` counts characters. The `length` tests at scripts.js:271 (a four-character date part) and scripts.js:460 (a three-character location) therefore differ for text outside the Basic Multilingual Plane.
- JsNumber.ParseInt returns an unbounded integer. JavaScript's `parseInt` returns a double, which loses precision above 2^53, so very long digit strings are not modelled exactly.
- JsString.ToLower and JsString.ToUpper only change ASCII letters. Unicode case mapping of other letters is not modelled.
- Locations.NormaliseIdempotent holds for the ASCII-only case mapping of the model. In JavaScript, `ſcandinavia` (with U+017F) upper-cases to `SCANDINAVIA`, which lower-cases to the alias `scandinavia`, so a second rewrite would expand what the first kept as a code.
- Validation.ValidateDataIdempotent rests on the same ASCII-only case mapping and has the same limit for `ſcandinavia`.
