# Song catalog and DJ roster loaders, in Dafny

This project models the data loaders of the 2025 anime-song awards site
(`app/src/lib/dataParser.ts`) and the record shapes they produce
(`app/src/lib/types.ts`). It then proves properties of the model.

- `parseSongs` turns the song catalog CSV into a `Map` from song id to
  `Song`. It drops the header line and skips blank lines. Each line is split
  with an inline quote-aware field splitter. Rows of at least nine fields
  are kept, and a later row overwrites an earlier one with the same id.
- `parseDJs` turns the DJ roster CSV into an array of `DJ`. It drops the
  header and skips blank lines. Each line is split with a plain
  `split(',')`. Rows of at least six fields are kept in input order. An
  empty id column becomes `null`.

The fetched text is a parameter of the model. Everything else is pure.

Files (one module each):

- `wrappers.dfy`: `Option`. `None` stands for JavaScript's `NaN`.
- `text.dfy`: `split` and `join` with a one-character separator, and
  `trim` with the exact ECMAScript whitespace set, plus the lemmas relating
  them.
- `numbers.dfy`: the global `parseInt` with no radix. It skips leading
  whitespace, takes an optional sign, and reads hexadecimal digits after
  `0x`/`0X` and decimal digits otherwise. A canonical decimal rendering is
  the reference it is checked against.
- `fields.dfy`: the quote-aware splitter. `Scan` is the left fold,
  `SplitFields` its result, and `SplitLine` the loop.
- `types.dfy`: `Song`, `DJ` and the `number | null` id column.
- `data_parser.dfy`: both loaders. Each is a pure function (`ParseSongs`,
  `ParseDJs`) and also a method that follows the source loop (`LoadSongs`,
  `LoadDJs`). Each method is proved equal to its function.
- `round_trip.dfy`: writing records back out as CSV lines and files. These
  writers are independent of the loaders, and loading what they write gives
  the records back.
- `examples.dfy`: worked examples of `parseSongs` and `parseDJs`, each stated on concrete lines.

Modelling decisions:

- A JavaScript number produced by `parseInt` is an `Option<int>`. The
  catalog is therefore a `map<Option<int>, Song>`: every row whose id does
  not parse lands under the single key `None`, because a JavaScript `Map`
  compares keys with SameValueZero, under which `NaN` equals `NaN`.
- A roster id column is `Null` or `Id(v)`, where `v` may itself be `None`.
  Only the empty string is falsy, so only an empty column gives `null`. A
  non-empty column that does not parse, such as `abc`, gives `NaN`, not
  `null`.
- The record types declare `id: number` for a song and `number | null`
  for each roster id (app/src/lib/types.ts lines 2 and 15-19), which reads
  as "an integer, or nothing for an empty column". The code yields `NaN`
  for a column with no numeric prefix, and the model follows the code.
- Lines are split on `\n` only. With `\r\n` line endings, the `\r` stays at
  the end of the last field, exactly as in the code. On such a roster an
  empty `all` column is the text `"\r"`, which is not empty and therefore
  truthy, so `all` becomes `NaN` rather than `null`; a number in that
  column still reads as the number (`RoundTrip.DJRowCarriageReturn`).

## Model

| member | source | states |
|---|---|---|
| Types.Song.Columns | app/src/lib/types.ts:1-11 | a `Song` has the id and eight text members of the interface, in its order (English names for the Korean ones, listed in `types.dfy`); there are exactly eight text columns |
| Types.DJ.Ids | app/src/lib/types.ts:13-20 | a `DJ` has the name and five number-or-null ids of the interface, each a `NullableId` (`Null`, or `Id` of a possibly-`NaN` number); there are exactly five id columns |
| Text.Trim | app/src/lib/dataParser.ts:11 | `trim()` keeps a slice of the line with only whitespace before and after it; the slice is empty or starts and ends with a non-whitespace character (`TrimStartSpec` and `TrimEndSpec` describe the two halves) |
| Text.IsBlank | app/src/lib/dataParser.ts:11 | the `!line.trim()` test that skips a line holds exactly when every character is ECMAScript whitespace or a line terminator |
| Text.BlankIffAllWhitespace | app/src/lib/dataParser.ts:11 | a corollary of the contract of `Text.Trim`, named for its callers: the trimmed line is the empty string exactly when every character is ECMAScript whitespace or a line terminator |
| Text.TrimStartSpec | app/src/lib/dataParser.ts:11 | trimming the front removes an all-whitespace prefix and leaves a suffix that is empty or starts with a non-whitespace character |
| Text.TrimEndSpec | app/src/lib/dataParser.ts:11 | trimming the end removes an all-whitespace suffix and leaves a prefix that is empty or ends with a non-whitespace character |
| Text.Split | app/src/lib/dataParser.ts:6 | `split` with a one-character separator gives one piece more than there are separators, and no piece contains the separator; the same function is the roster's `split(',')` of line 61 |
| Text.JoinSplit | app/src/lib/dataParser.ts:6 | joining the pieces of `split('\n')` with the separator gives back the text, so splitting loses and reorders nothing |
| Text.SplitJoin | app/src/lib/dataParser.ts:61 | splitting a join of separator-free pieces gives back exactly those pieces |
| Text.SplitAtSeparator | app/src/lib/dataParser.ts:6 | the pieces of `a + sep + b` are the pieces of `a` followed by the pieces of `b` |
| Text.SplitWithoutSeparator | app/src/lib/dataParser.ts:61 | a text without the separator splits into itself alone |
| Fields.ScanSpec | app/src/lib/dataParser.ts:18-29 | describes `Fields.Scan`, the character loop as a left fold of `Fields.Step` (one iteration on one character): after any prefix the scanner is inside quotes exactly when an odd number of quotes has been read, it has closed one field per comma read outside quotes, and it has kept no quote character |
| Fields.SplitFields | app/src/lib/dataParser.ts:14-30 | the splitter returns one field more than the line has commas outside quotes, the commas being counted independently of the scanner |
| Fields.SplitFieldsSpec | app/src/lib/dataParser.ts:14-30 | a line with N commas outside quotes gives exactly N+1 fields, none of which contains a quote |
| Fields.SplitLine | app/src/lib/dataParser.ts:14-30 | the character loop computes the quote-aware fields, N+1 of them, and joining them with commas gives the line with its quotes removed |
| Fields.SplitFieldsJoin | app/src/lib/dataParser.ts:18-30 | apart from dropping quote characters, the splitter loses and reorders no character: the fields joined by commas are the line without its quotes |
| Fields.SplitFieldsWithoutQuotes | app/src/lib/dataParser.ts:14-30 | on a line without quotes the quote-aware splitter agrees with the plain `split(',')` used for the roster |
| Fields.SplitFieldsSingle | app/src/lib/dataParser.ts:14-30 | a line with no comma outside quotes, unbalanced quotes included, is one field: the line without its quotes |
| Fields.NoCommaNoUnquotedComma | app/src/lib/dataParser.ts:23-25 | a line without commas closes no field before the end |
| Fields.SplitFieldsAtComma | app/src/lib/dataParser.ts:23-25 | a comma read outside quotes cuts the line into two halves that are split independently |
| Fields.ScanInsideQuotes | app/src/lib/dataParser.ts:21-27 | after a quote opened anywhere outside quotes (at the start of the line, after closed fields or in the middle of a field), every character up to the next quote, commas included, is appended to the current field and no field is closed |
| Fields.SplitFieldsQuoted | app/src/lib/dataParser.ts:21-22 | a line that is one quoted region is one field holding its content, commas kept and quotes dropped |
| Numbers.ParseInt | app/src/lib/dataParser.ts:34 | `parseInt` gives a number only for a text that contains a decimal digit (a hexadecimal number starts with `0`); the value for every shape of input is given by `ParseIntDecimal`, `ParseIntSignedHex` and `ParseIntNoNumber` |
| Numbers.ParseIntDecimal | app/src/lib/dataParser.ts:34 | after leading whitespace and an optional `+` or `-`, a run of decimal digits, leading zeros included, is read whole up to the first non-digit and signed, unless it begins a `0x` marker |
| Numbers.ParseIntSignedHex | app/src/lib/dataParser.ts:34 | after leading whitespace and an optional sign, a `0x`/`0X` marker makes the following run of hexadecimal digits be read in radix 16 and signed; an empty run is `NaN` |
| Numbers.ParseIntNoNumber | app/src/lib/dataParser.ts:34 | when, after leading whitespace and an optional sign, the text does not start with a digit, `parseInt` is `NaN` |
| Numbers.DigitPrefixSpec | app/src/lib/dataParser.ts:34 | the digits `parseInt` reads are the longest decimal-digit prefix: a prefix, followed by a non-digit or nothing |
| Numbers.HexPrefixSpec | app/src/lib/dataParser.ts:34 | after a `0x` marker the digits read are the longest hexadecimal-digit prefix |
| Numbers.ParseIntShow | app/src/lib/dataParser.ts:34 | `parseInt` of the decimal rendering of any integer, negative ones included, followed by text that cannot continue the number, is that integer |
| Numbers.ParseIntSkipsWhitespace | app/src/lib/dataParser.ts:34 | leading whitespace does not change what `parseInt` reads |
| Numbers.ParseIntWithoutDigits | app/src/lib/dataParser.ts:34 | the contrapositive of the contract of `Numbers.ParseInt`, named for its callers: a text containing no decimal digit parses to `NaN` |
| Numbers.ParseIntHex | app/src/lib/dataParser.ts:34 | after a `0x`/`0X` marker the longest run of hexadecimal digits is read in radix 16, and a marker with no such digit after it is `NaN` |
| DataParser.DataLines | app/src/lib/dataParser.ts:6 | there is one data line per line break of the text, and no data line contains a line break |
| DataParser.DataLinesAfterHeader | app/src/lib/dataParser.ts:6 | the data lines of `header + "\n" + body` are the lines of `body`, and a text with no line break has no data lines |
| DataParser.HeaderIgnored | app/src/lib/dataParser.ts:6 | the header drop of line 6 and of line 54: both loaders give the same result whatever the first line says, and a text that is only a header gives an empty catalog and an empty roster |
| DataParser.BlankLineContributesNothing | app/src/lib/dataParser.ts:11 | a corollary of the contracts of `Text.IsBlank`, `DataParser.SongRow` and `DataParser.DJRow`, for lines 11 and 59 alike: a whitespace-only line contributes nothing to either loader |
| DataParser.Kept | app/src/lib/dataParser.ts:71 | the rows keep at most one record each; `KeptAppend` and `KeptMembers` state the order and the membership |
| DataParser.SongRow | app/src/lib/dataParser.ts:11-45 | a data line adds nothing to the catalog exactly when it is blank or has fewer than eight commas outside quotes |
| DataParser.DecodeSong | app/src/lib/dataParser.ts:32-43 | a row is kept exactly when it has at least nine fields; the id is `parseInt` of field 0 and the eight text members are fields 1 to 8 in order |
| DataParser.StoreSongs | app/src/lib/dataParser.ts:44 | every song in the catalog is stored under its own id |
| DataParser.StoreSongsKeys | app/src/lib/dataParser.ts:44 | the catalog has a key exactly when some kept row has that id |
| DataParser.StoreSongsLastWriteWins | app/src/lib/dataParser.ts:44 | under each id the catalog holds the song of the last kept row with that id |
| DataParser.ParseSongs | app/src/lib/dataParser.ts:6-48 | every song `parseSongs` returns is stored under its own parsed id; `ParseSongsKeys` and `ParseSongsLastWriteWins` give the keys and the values |
| DataParser.ParseSongsKeys | app/src/lib/dataParser.ts:10-46 | a key is in `parseSongs`'s result exactly when some data line decodes to a song with that id |
| DataParser.ParseSongsLastWriteWins | app/src/lib/dataParser.ts:10-46 | the song stored under an id is the one decoded from the last data line carrying that id |
| DataParser.LoadSongs | app/src/lib/dataParser.ts:6-48 | the loop builds exactly the catalog `ParseSongs` describes, and every song is stored under its own id |
| DataParser.NullableIdOf | app/src/lib/dataParser.ts:65-69 | an id column is `null` exactly when it is empty, and otherwise `parseInt` of the column, which may be `NaN` |
| DataParser.DecodeDJ | app/src/lib/dataParser.ts:62-70 | a row is kept exactly when it has at least six fields; the name is field 0 and the five ids decode fields 1 to 5 in order |
| DataParser.DJRow | app/src/lib/dataParser.ts:59-71 | a data line adds nothing to the roster exactly when it is blank or has fewer than five commas; quotes are not special |
| DataParser.KeptAppend | app/src/lib/dataParser.ts:71 | the records of two consecutive runs of rows are the first run's records followed by the second's |
| DataParser.KeptMembers | app/src/lib/dataParser.ts:62-71 | a record is kept exactly when some row produces it |
| DataParser.ParseDJs | app/src/lib/dataParser.ts:54-75 | `parseDJs` returns at most one DJ per line break of the text |
| DataParser.ParseDJsInOrder | app/src/lib/dataParser.ts:58-73 | the roster keeps input order: the roster of lines `first` then `second` is the roster of `first` followed by the roster of `second` |
| DataParser.ParseDJsMembers | app/src/lib/dataParser.ts:58-73 | a DJ is in the roster exactly when some data line decodes to it |
| DataParser.LoadDJs | app/src/lib/dataParser.ts:54-75 | the loop builds exactly the roster `ParseDJs` describes, with at most one DJ per line break |
| RoundTrip.IdTextRoundTrip | app/src/lib/dataParser.ts:34 | `parseInt` reads the written form of an id back to the id, `NaN` included |
| RoundTrip.NullableIdRoundTrip | app/src/lib/dataParser.ts:65-69 | decoding the written form of a `number or null` column gives back the column |
| RoundTrip.SongRowRoundTrip | app/src/lib/dataParser.ts:11-45 | a song whose text columns contain no quote and no comma, written as a CSV line, loads back to the same song |
| RoundTrip.DJRowRoundTrip | app/src/lib/dataParser.ts:59-71 | a DJ whose name contains no comma, written as a CSV line, loads back to the same DJ |
| RoundTrip.DJRowCarriageReturn | app/src/lib/dataParser.ts:59-71 | a roster line ending in `\r` decodes to the written DJ, except that an empty `all` column becomes `NaN` instead of `null` |
| RoundTrip.CarriageReturnColumn | app/src/lib/dataParser.ts:69 | a last column followed by `\r` reads as `NaN` when it was empty and as its own id otherwise |
| RoundTrip.ParseDJsRoundTrip | app/src/lib/dataParser.ts:54-75 | loading a written roster gives back the DJs it was written from, in order, for a one-line header and DJs whose names contain no comma and no line break |
| RoundTrip.EmptyFile | app/src/lib/dataParser.ts:6 | a file with a header and no records loads to an empty catalog and an empty roster |
| RoundTrip.ParseSongsRoundTripKeys | app/src/lib/dataParser.ts:6-48 | loading a written catalog stores songs under exactly the ids written, for a one-line header, at least one song, and text columns without quote, comma or line break |
| RoundTrip.ParseSongsRoundTripValues | app/src/lib/dataParser.ts:6-48 | under each id, loading a written catalog gives the last song written with that id, for a one-line header, at least one song, and text columns without quote, comma or line break |
| Examples.QuotedMiddleField | app/src/lib/dataParser.ts:14-30 | `id,"title",artist` has the three fields `id`, `title` and `artist`, even when the title contains commas |
| Examples.QuotedCommaExample | app/src/lib/dataParser.ts:14-30 | `1,"Song, Title",Artist` splits into `1`, `Song, Title` and `Artist` |
| Examples.AliceExample | app/src/lib/dataParser.ts:61-70 | `Alice,1,,3,,10` decodes to Alice with ids 1, null, 3, null, 10 |
| Examples.SongFortyTwoExample | app/src/lib/dataParser.ts:32-44 | a nine-column line starting `42` decodes to the song with id 42 and the other columns in order |
| Examples.DuplicateIdExample | app/src/lib/dataParser.ts:44 | two catalog lines with id 7 give a catalog whose only key is 7, holding the later song |
| Examples.HexExamples | app/src/lib/dataParser.ts:34 | `parseInt("0x1A")` is 26 and `parseInt("0xg")` is `NaN` |

## Left out

- Fetching (`fetch`, `response.text()`, lines 4-5 and 52-53) and the `async`/`Promise` wrapping: the fetched text is a parameter, and a failed fetch is outside the model.
- Iteration order of the catalog: a JavaScript `Map` remembers the order in which keys were first inserted, but a Dafny `map` is unordered. The loaders never iterate the map, so only its contents are modelled.
- `Award` (types.ts lines 22-26): neither loader produces it.
- Floating point: `parseInt` returns an IEEE double, so a digit run above 2^53 is rounded and `parseInt("-0")` is negative zero. The model uses exact integers. Under the SameValueZero key comparison, `-0` and `0` are one key, as in the model.
- UTF-16: JavaScript strings are sequences of UTF-16 code units, while a Dafny `string` is a sequence of Unicode scalar values. The splitter reads code units (`line[i]` up to `line.length`, lines 18-19), so a character outside the BMP is read as two surrogate halves. Neither half is `"` or `,`, so both are appended to `current` one after the other, and the field holds the same character as in the model. `split` and `trim` likewise only look for BMP characters.
- Numbers.ParseIntShow: the text after the number must be empty or start with a character other than a digit, `x` or `X`. For a nonzero number the `x` exclusion is stronger than needed. It matters only after a lone `0`, where `0x…` switches to hexadecimal.
- RoundTrip.SongRowRoundTrip: stated only for text columns without quotes and commas. The writer does no quoting, and the splitter has no escape for a literal quote.
- RoundTrip.ParseSongsRoundTripKeys and RoundTrip.ParseSongsRoundTripValues: stated for at least one song. The empty file is covered separately by RoundTrip.EmptyFile.
