# Old School RuneScape hiscores client, modelled in Dafny

This project models the part of the hiscores tracker that talks to the Old
School RuneScape hiscores service (`rs_api.py`). The model covers five steps:

- **Endpoint.** It picks the ironman endpoint when the player's name holds
  "iron" in any case.
- **Response check.** It classifies the HTTP outcome. A read timeout is
  reported as "hiscores down", and so is a page with the HTML maintenance
  marker. A status other than 200 is reported as a bad status. A slow response
  only logs a warning.
- **Payload parsing.** It parses the plain-text `index_lite` payload. The text
  is stripped and split into lines. The skill lines come first, then the
  activity lines. Each line is a row of comma-separated integers, labelled by a
  column schema.
- **Error reporting.** Schema errors are reported per section. A field that is
  not an integer is reported as the raw conversion error.
- **Final record.** It builds the record: skills, activities, the player name
  read back from the request's query (`+` decoded as a space), and a
  `%Y-%m-%d %H:%M:%S` timestamp.

Everything in the source is pure computation around one HTTP call, so the model
consists of datatypes, functions and lemmas. The HTTP call, the clock and the
configured catalogs are parameters:

- `Transport` is the outcome of the HTTP call.
- `DateTime` is the capture time.
- `Catalog` holds the skill and activity labels and their column schemas.

The files:

- **`wrappers.dfy`**: `Option` and `Result`, and `TryMap`. `TryMap` is the
  stop-at-first-exception traversal that a lazily consumed `map(f, xs)` gives.
- **`pystr.dfy`**: the Python string operations the code uses:
  - `strip` with Python's whitespace set;
  - `split` on one character, and `join`;
  - substring `in`, ASCII `lower` and one-character `replace`.
- **`pyint.dfy`**: `int()` on an optional minus sign followed by digits, and
  `str()`. It also has the zero-padded fields of `strftime`.
- **`pydict.dfy`**: `dict(zip(keys, values))`. The zip stops at the shorter
  input, and a repeated key keeps its last value.
- **`rs_api.dfy`**: the client itself.
- **`rs_api_properties.dfy`**: lemmas relating the operations. They cover:
  - how the lines are split between the two sections;
  - what a wrong line count does;
  - which error wins;
  - a render-then-parse round trip for payloads;
  - the player-query examples.

## Model

| member | source | states |
|---|---|---|
| RsApi.GetHiscoresApi | lambda/get_and_parse_hiscores/lib/hiscores/rs_api.py:39-42 | the ironman endpoint exactly when the name contains "iron" in any mix of cases, the standard endpoint exactly otherwise |
| RsApi.LowerIronMatch | lambda/get_and_parse_hiscores/lib/hiscores/rs_api.py:40 | testing "iron" in the lower-cased name is the same as finding the four letters in any case at some position |
| RsApi.ClassifyResponse | lambda/get_and_parse_hiscores/lib/hiscores/rs_api.py:87-95 | the HTML marker anywhere in the text gives the HTML error whatever the status; without the marker a non-200 status gives the bad-status error with code, reason and URL; the response passes, unchanged, exactly when there is no marker and the status is 200 |
| RsApi.RequestHiscores | lambda/get_and_parse_hiscores/lib/hiscores/rs_api.py:65-95 | a "hiscores down" error exactly for a read timeout or an HTML page; any other transport failure passes through unhandled; a read timeout carries the timeout; a received response is classified exactly as ClassifyResponse states, so it is accepted exactly when it has no marker and status 200 |
| RsApi.SlowResponse | lambda/get_and_parse_hiscores/lib/hiscores/rs_api.py:81 | the warning condition: the elapsed time exceeds `warn_secs` seconds; SlowWarningOnlyLogs states that it never changes the outcome |
| RsApi.Fields | lambda/get_and_parse_hiscores/lib/hiscores/rs_api.py:47 | one more field than the line has commas, and the fields rejoined with commas are the line |
| RsApi.IntField | lambda/get_and_parse_hiscores/lib/hiscores/rs_api.py:52 | a field converts exactly when it is an integer literal, to the value `int()` gives; otherwise the conversion error names the field |
| RsApi.ParseLine | lambda/get_and_parse_hiscores/lib/hiscores/rs_api.py:45-52 | the schema error comes exactly when the field count differs from the schema's length; otherwise the line parses exactly when every field is an integer, with keys exactly the schema names and each name's last occurrence holding its field's value; a conversion error names the first non-integer field |
| RsApi.ParseSkillLine | lambda/get_and_parse_hiscores/lib/hiscores/rs_api.py:55-57 | a skill line whose field count differs from the skill columns is a schema error; a parsed skill line has exactly the skill columns as keys |
| RsApi.ParseActivityLine | lambda/get_and_parse_hiscores/lib/hiscores/rs_api.py:60-62 | the same for activity lines and the activity columns |
| RsApi.Lines | lambda/get_and_parse_hiscores/lib/hiscores/rs_api.py:107 | at least one line, no line holds a newline, and the lines joined by newlines are the stripped text |
| RsApi.SkillCount | lambda/get_and_parse_hiscores/lib/hiscores/rs_api.py:117 | the skill slice is as long as the skill catalog, or as the whole payload when that is shorter |
| RsApi.ActivityCount | lambda/get_and_parse_hiscores/lib/hiscores/rs_api.py:127-135 | the activity lines parsed are as many as the activity catalog, or as the lines left after the skills when fewer remain |
| RsApi.ParseSection | lambda/get_and_parse_hiscores/lib/hiscores/rs_api.py:120-122 | only the first min(labels, lines) lines are parsed; success exactly when all of them parse, with keys exactly those labels, each label's last occurrence holding its line's parse; otherwise the error of the first failing line |
| RsApi.SanitizeLines | lambda/get_and_parse_hiscores/lib/hiscores/rs_api.py:109-140 | success exactly when every skill line taken and every activity line reached parses, with keys and entries as in ParseSection for each section; otherwise the re-wrapped error of the first failing skill line, or, when all skill lines parse, that of the first failing activity line; a wrong line count is not an error |
| RsApi.SkillError | lambda/get_and_parse_hiscores/lib/hiscores/rs_api.py:123-124 | a skill line's schema error becomes the malformed-skill-line error quoting the same schema and line; a conversion error passes through as the raw conversion error; never the activity error |
| RsApi.ActivityError | lambda/get_and_parse_hiscores/lib/hiscores/rs_api.py:136-137 | the same for activity lines: a schema error becomes the malformed-activity-line error, a conversion error stays raw, never the skill error |
| RsApi.Sanitize | lambda/get_and_parse_hiscores/lib/hiscores/rs_api.py:98-140 | `SanitizeLines` applied to the lines of the stripped text; every parsed label comes from its catalog, and a malformed-line error quotes that section's columns and a payload line whose field count differs from them (SanitizeRoundTrip and BlankTextFails state its outcome on whole payloads) |
| RsApi.SanitizeQuotes | lambda/get_and_parse_hiscores/lib/hiscores/rs_api.py:119-137 | a skill or activity schema error names that section's columns and a line of the payload with the wrong field count |
| RsApi.FormatTimestamp | lambda/get_and_parse_hiscores/lib/hiscores/rs_api.py:155 | nineteen characters, `-`, `-`, ` `, `:`, `:` at positions 4, 7, 10, 13, 16, digits elsewhere, and each field reads back as the year, month, day, hour, minute and second |
| RsApi.PlayerQuerySplit | lambda/get_and_parse_hiscores/lib/hiscores/rs_api.py:149-150 | splitting the query on `=` gives `player` and exactly one value if and only if the query is `player=` followed by text with no `=` |
| RsApi.ExtractPlayer | lambda/get_and_parse_hiscores/lib/hiscores/rs_api.py:149-152 | accepted exactly for the `player=<value>` shape, giving the value with every `+` replaced by a space; a rejected query is reported unchanged |
| RsApi.ProcessResponse | lambda/get_and_parse_hiscores/lib/hiscores/rs_api.py:143-156 | a payload error wins over a bad query; a bad query is reported as such; on success the record holds the parsed skills and activities, the extracted player and the formatted capture time |
| Wrappers.TryMap | lambda/get_and_parse_hiscores/lib/hiscores/rs_api.py:52 | succeeds exactly when every element succeeds, keeping all results in order; otherwise returns the error of the first failing element, all earlier ones having succeeded |
| PyDict.DictZip | lambda/get_and_parse_hiscores/lib/hiscores/rs_api.py:52 | keys exactly those of the first min(keys, values) pairs; each last occurrence of a key maps to its own value |
| PyDict.DictZipDistinct | lambda/get_and_parse_hiscores/lib/hiscores/rs_api.py:52 | with distinct keys every zipped key maps to its own value |
| PyStr.Strip | lambda/get_and_parse_hiscores/lib/hiscores/rs_api.py:107 | the result is a contiguous slice of the input with whitespace only before and after it, and neither end of the result is whitespace |
| PyStr.Split | lambda/get_and_parse_hiscores/lib/hiscores/rs_api.py:47 | one more piece than separators, no piece holds the separator, and joining the pieces gives the input back |
| PyStr.SplitJoin | lambda/get_and_parse_hiscores/lib/hiscores/rs_api.py:149-151 | splitting the join of separator-free pieces gives the pieces back |
| PyStr.Contains | lambda/get_and_parse_hiscores/lib/hiscores/rs_api.py:40 | `sub in s`: true exactly when `sub` occurs at some position of `s` |
| PyStr.LowerAscii | lambda/get_and_parse_hiscores/lib/hiscores/rs_api.py:40 | same length, each character lower-cased (ASCII letters) |
| PyStr.ReplaceChar | lambda/get_and_parse_hiscores/lib/hiscores/rs_api.py:152 | same length; every `from` character becomes `to` and every other character is kept |
| PyInt.ParseInt | lambda/get_and_parse_hiscores/lib/hiscores/rs_api.py:52 | a value exactly for an optional `-` followed by at least one digit; non-negative without the sign; the value itself is fixed by ParseIntToString and ParseDigitsLeadingZero |
| PyInt.ParseDigitsLeadingZero | lambda/get_and_parse_hiscores/lib/hiscores/rs_api.py:52 | a leading zero never changes a digit string's value, so together with ParseNatToString every literal reads as the number its significant digits spell |
| PyInt.ZeroPaddedLiteral | lambda/get_and_parse_hiscores/lib/hiscores/rs_api.py:52 | `int("007")` is 7 |
| PyInt.ParseIntToString | lambda/get_and_parse_hiscores/lib/hiscores/rs_api.py:52 | reading back the decimal rendering of any integer gives that integer |
| PyInt.ZeroPad | lambda/get_and_parse_hiscores/lib/hiscores/rs_api.py:155 | exactly `width` digits, which read back as the number when it fits |
| RsApiProperties.LinesPartition | lambda/get_and_parse_hiscores/lib/hiscores/rs_api.py:117-127 | the skill slice and the activity slice together are all the lines; the skill slice has min(skills, lines) lines |
| RsApiProperties.BlankTextOneLine | lambda/get_and_parse_hiscores/lib/hiscores/rs_api.py:107 | an empty or all-whitespace payload splits into exactly one empty line |
| RsApiProperties.BlankTextFails | lambda/get_and_parse_hiscores/lib/hiscores/rs_api.py:107-137 | such a payload fails with the skill schema error, or the conversion error of the empty field when the skill schema has one column; with no skills the same holds for activities; with empty catalogs it parses to empty sections |
| RsApiProperties.SectionIgnoresTail | lambda/get_and_parse_hiscores/lib/hiscores/rs_api.py:120-122 | lines beyond the labels do not change a section's parse |
| RsApiProperties.ExtraLinesIgnored | lambda/get_and_parse_hiscores/lib/hiscores/rs_api.py:109-135 | lines beyond the catalogs' total are never parsed and change nothing |
| RsApiProperties.ShortPayloadKeys | lambda/get_and_parse_hiscores/lib/hiscores/rs_api.py:109-135 | a payload shorter than the catalogs parses, when it does, to only the labels of the lines present |
| RsApiProperties.ParseLineDistinct | lambda/get_and_parse_hiscores/lib/hiscores/rs_api.py:52 | with distinct column names every column is present and holds the integer written in its field |
| RsApiProperties.FirstFailureUnique | lambda/get_and_parse_hiscores/lib/hiscores/rs_api.py:119-137 | the first failing line is unique |
| RsApiProperties.FirstBadFieldUnique | lambda/get_and_parse_hiscores/lib/hiscores/rs_api.py:52 | the first non-integer field is unique |
| RsApiProperties.FirstBadSkillLine | lambda/get_and_parse_hiscores/lib/hiscores/rs_api.py:119-124 | the first failing skill line decides the result: the skill schema error when its field count is wrong, else the conversion error of its first bad field |
| RsApiProperties.FirstBadActivityLine | lambda/get_and_parse_hiscores/lib/hiscores/rs_api.py:129-137 | when all skill lines parse, the first failing activity line decides the result in the same way, with the activity schema error |
| RsApiProperties.LineErrorKinds | lambda/get_and_parse_hiscores/lib/hiscores/rs_api.py:47-52 | a failed line is a schema error exactly when its field count is wrong, otherwise the conversion error of its first non-integer field |
| RsApiProperties.SkillErrorWins | lambda/get_and_parse_hiscores/lib/hiscores/rs_api.py:119-124 | any failing skill line makes the payload fail with the error of the first failing skill line, whatever the activities hold |
| RsApiProperties.FirstFailing | lambda/get_and_parse_hiscores/lib/hiscores/rs_api.py:119-124 | a failing line has a first failing line at or before it |
| RsApiProperties.RenderRowParses | lambda/get_and_parse_hiscores/lib/hiscores/rs_api.py:45-52 | a non-empty row of integers written with commas parses back, against a schema of its length, to the schema zipped with the row |
| RsApiProperties.RenderPayloadLines | lambda/get_and_parse_hiscores/lib/hiscores/rs_api.py:107 | a payload of rendered rows joined by newlines splits back into those rows |
| RsApiProperties.LinesOfJoin | lambda/get_and_parse_hiscores/lib/hiscores/rs_api.py:107 | newline-free lines whose outer ends are not whitespace split back out of their join |
| RsApiProperties.SectionRoundTrip | lambda/get_and_parse_hiscores/lib/hiscores/rs_api.py:120-135 | rendered rows, one per label, parse to the labels zipped with the rows' entries |
| RsApiProperties.SanitizeRoundTrip | lambda/get_and_parse_hiscores/lib/hiscores/rs_api.py:98-140 | a payload written from one row per skill and per activity parses to exactly the catalogs zipped with those rows |
| RsApiProperties.SanitizeRoundTripLookup | lambda/get_and_parse_hiscores/lib/hiscores/rs_api.py:98-140 | with distinct labels and columns, skill `i` column `j` of the parsed payload is the integer written there, and the skill keys are exactly the catalog |
| RsApiProperties.SanitizeRoundTripActivityLookup | lambda/get_and_parse_hiscores/lib/hiscores/rs_api.py:126-140 | with distinct labels and columns, activity `i` column `j` of the parsed payload is the integer written there, and the activity keys are exactly the catalog |
| RsApiProperties.SectionLookup | lambda/get_and_parse_hiscores/lib/hiscores/rs_api.py:120-122 | with distinct labels and columns a zipped section holds every label, and each entry holds its row's values by column |
| RsApiProperties.ElapsedIrrelevant | lambda/get_and_parse_hiscores/lib/hiscores/rs_api.py:81-85 | the elapsed time never changes whether or how a response is rejected |
| RsApiProperties.SlowWarningOnlyLogs | lambda/get_and_parse_hiscores/lib/hiscores/rs_api.py:81-85 | a response slow enough to draw the warning and the same response arriving in time are accepted or rejected alike |
| RsApiProperties.QueryOfName | lambda/get_and_parse_hiscores/lib/hiscores/rs_api.py:149-152 | `player=` followed by a name without `=` yields the name with `+` decoded |
| RsApiProperties.QueryPlainName | lambda/get_and_parse_hiscores/lib/hiscores/rs_api.py:149-152 | `player=Zezima` yields `Zezima` |
| RsApiProperties.QueryPlusIsSpace | lambda/get_and_parse_hiscores/lib/hiscores/rs_api.py:149-152 | `player=Player+One` yields `Player One` |
| RsApiProperties.QueryRejected | lambda/get_and_parse_hiscores/lib/hiscores/rs_api.py:149-151 | the empty query, a query with two `=` and a query whose key is not `player` are rejected, each quoted unchanged |
| RsApiProperties.EndpointExamples | lambda/get_and_parse_hiscores/lib/hiscores/rs_api.py:39-42 | `Iron Bob` and `xIRONx` go to the ironman endpoint, `Zezima` to the standard one |

## Left out

- The HTTP request itself, the `params` it sends and the `**kwargs` passed through are not modelled, because they are I/O. The outcome of the call is the `Transport` parameter, and the timeout is a parameter that is only reported back.
- Logging is left out because it only writes messages and does not affect any result. This covers the slow-response warning and the wrong-line-count warning. `SlowResponse` states when the warning would fire.
- `urlparse` is not modelled, because it is library code. The query component of the request URL is a field of `Response`.
- `datetime.now()` is replaced by a `DateTime` parameter, because it reads the clock. `RsApi.FormatTimestamp` accepts the years `datetime` allows, 1 to 9999. It zero-pads a year below 1000 to four digits (year 5 as `0005`), while what `%Y` writes for such a year depends on the platform's C library.
- The contents of the skill and activity catalogs and their column lists are not modelled, because they are configuration. The `Catalog` parameter stands in for them, so the properties hold for any catalog. The lemmas that need distinct labels or columns require it.
- `PyStr.LowerAscii`: lower-cases ASCII letters only, so it is not Python's `lower()` on non-ASCII text. The endpoint choice is still what the source computes: no non-ASCII character lower-cases to a bare `i`, `r`, `o` or `n` (`İ` becomes `i` followed by a combining dot), so `"iron" in p.lower()` holds exactly when `MentionsIron(p)` does.
- `PyInt.ParseInt`: accepts only an optional `-` followed by ASCII digits. Python's `int()` also accepts surrounding whitespace, a leading `+`, underscores between digits and non-ASCII digits, so such fields are rejected in the model where Python would accept them. In particular a payload with CRLF line ends has a trailing `\r` on each line, which `int()` ignores and the model reports as `IntConversion`. In the other direction, Python 3.11 and later by default refuses decimal strings of more than 4300 digits with `ValueError`, which the model accepts.
- The error messages are kept only as the data they quote (schema, line, field, query, status, reason, URL), because their wording carries no property.
- Exceptions become `Result` values. `HiscoresDownError`, `ValueError` and `InvalidSchemaError` correspond to the constructors of `FetchError`, `LineError`, `SanitizeError` and `ProcessError`, as commented in `rs_api.dfy`.
- `run_integration_test.py` and `lambda/aggregator/test_handler.py` are not part of this model. The first performs live calls. The second tests another component.

Where the code and its description differ, the model follows the code:

- Only a read timeout is turned into "hiscores down". Other transport failures propagate (`Unhandled`).
- A query is accepted whenever it is `player=` followed by text with no further `=`, so `player=a&b` yields the player `a&b`.
- Only `+` is decoded in the player name. Percent-escapes are left as they are.
