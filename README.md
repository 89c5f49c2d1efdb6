# PHPG in Dafny

PHPG is a PHP wrapper around PostgreSQL's `pg_*` functions. This project models its core:

- the connection registry kept under an alias, and the connection string the `PHPG` constructor builds;
- the cursor's result bookkeeping: `execute`, `iter`, `fetchall`, `rows_returned`, `rows_affected`, `last_query` and `free`;
- the type-directed decoding of each fetched cell: the type transform table, `_transform_data` and the six geometric parsers;
- the text codecs of `PHPG_Utils`: the hstore encoder and decoder, `hstoreToPhp`, `arrayFromPhp`, the normalisation in `arrayToPhp` and `recordFromPhp`.

Modules:

- `Php` (php.dfy) holds the PHP primitives the code relies on. These are `str_replace` of one character, `explode`/`implode`, and PHP truthiness. It also models ordered arrays with string keys as association lists (`Assoc`): `Put` keeps an existing key's position and appends a new key.
- `Escaping` (escaping.dfy) holds the backslash escaping the encoders share.
- `Geometry` (geometry.dfy) holds the geometric parsers, with formatters that serve as their inverses.
- `Dispatch` (dispatch.dfy) holds the transform table and the decoding of one cell.
- `Cursors` (cursor.dfy) holds the cursor class.
- `Hstore` (hstore.dfy) holds the hstore codec.
- `ArrayText` (arrays.dfy) holds the array and record codecs.
- `Registry` (registry.dfy) holds the connection table and the constructor.

Queries the code sends to the server are parameters of the model:

- `unnest`: `SELECT UNNEST(…)`, which splits an array text, read as the given array type (`T[]`), into its elements;
- `each`: `SELECT … FROM EACH(…::hstore)`, which splits an hstore text into its pairs;
- the outcome of `pg_query`;
- whether `pg_connect` succeeds.

A cursor's result is modelled as the columns (name and type), the rows as `pg_fetch_assoc` returns them, and the affected-row count.

## Model

| member | source | states |
|---|---|---|
| Dispatch.Decoder | phpg.php:43-116 | the type transform table: a type has a decoder exactly when it is listed with a non-null entry |
| Dispatch.TransformData | phpg.php:507-515 | an unlisted type, or one listed as null, passes the value through. A text keeps its value exactly when the decoder is null, string or time. The result is a type error exactly when an array reaches a decoder that accepts only a text. The result is never the SQL-NULL value: a decoded cell is a text, a list, a map, a geometry, a type error or a library conversion |
| Dispatch.LineIsReadAsLseg | phpg.php:78-79 | `line` is decoded exactly as `lseg` is, with the line-segment parser |
| Dispatch.Describe | phpg.php:380-395 | a field is an array exactly when its type starts with `_`. The stored type drops that underscore, and the original tag can be rebuilt from the descriptor |
| Dispatch.CatalogKeys | phpg.php:371-399 | the field catalog has exactly the result's column names as keys |
| Dispatch.CatalogLookup | phpg.php:374-399 | a name is described by the last column that carries it |
| Dispatch.CatalogOfDistinct | phpg.php:374-399 | with distinct names, the catalog lists every column in order, with its descriptor |
| Dispatch.CatalogRestoresTags | phpg.php:374-399 | with distinct names, each column's type tag can be recovered from the catalog |
| Dispatch.DecodeCell | phpg.php:419-435 | a cell decodes to the SQL-NULL value exactly when it is SQL NULL (a library conversion such as `json_decode` of `null` is a separate value; see below). A non-array cell goes through `_transform_data` with its column's type |
| Dispatch.ArrayCell | phpg.php:429-435 | an array cell is expanded by UNNEST read as the element type followed by `[]`, then transformed with the element type. It is a type error exactly when the element type's decoder accepts only text |
| Geometry.PartsToPoints | phpg.php:698-723 | each `),(`-separated part of a path becomes one point, in order |
| Geometry.TransformGeoPath | phpg.php:698-723 | the loop over the parts computes the path parser's result: open when the text starts with `[`, closed otherwise, one point per part |
| Geometry.TransformGeoPolygon | phpg.php:737-753 | the loop computes the polygon parser's result |
| Geometry.PointRoundTrip | phpg.php:726-734 | parsing the PostgreSQL text of a point gives its coordinates back |
| Geometry.BoxRoundTrip | phpg.php:640-656 | parsing a box text gives both corners back, in the input form `((x1,y1),(x2,y2))` and in PostgreSQL's output form `(x1,y1),(x2,y2)` |
| Geometry.LsegRoundTrip | phpg.php:676-695 | parsing a bracketed segment text gives both endpoints back |
| Geometry.CircleRoundTrip | phpg.php:659-673 | parsing `<(x,y),r>` gives the centre and the radius back |
| Geometry.PathRoundTrip | phpg.php:698-723 | parsing an open (`[…]`) or closed (`(…)`) path text gives its kind and every vertex back |
| Geometry.PolygonRoundTrip | phpg.php:737-753 | parsing a polygon text gives every vertex back |
| Geometry.PathKindFromFirstChar | phpg.php:703-709 | a path is open exactly when its text starts with `[` |
| Geometry.PointExample | phpg.php:726-734 | `(1,2)` parses to the point (1,2) |
| Geometry.BoxExample | phpg.php:640-656 | `((1,2),(3,4))` parses to the box with corners (1,2) and (3,4) |
| Geometry.LsegExample | phpg.php:676-695 | `[(1,2),(3,4)]` parses to the segment between the two points |
| Geometry.CircleExample | phpg.php:659-673 | `<(1,2),3>` parses to centre (1,2) and radius 3 |
| Geometry.PathExample | phpg.php:698-723 | `[(1,2),(3,4)]` parses to an open path through two points |
| Cursors.BuildFields | phpg.php:366-405 | the loop over the columns builds exactly the field catalog, keyed by the column names |
| Cursors.CatalogStep | phpg.php:374-399 | one pass of that loop adds or overwrites the current column's entry |
| Cursors.DecodeRow | phpg.php:419-436 | the loop over a fetched row decodes every cell in place. Names and order are kept, and a null cell stays null |
| Cursors.DecodedRowCells | phpg.php:419-436 | each decoded cell is the cell decoder's result for that column. It is null exactly when the cell was SQL NULL |
| Cursors.NullCellStaysNull | phpg.php:421-426 | with distinct column names, the decoded row has one entry per column in order, and a NULL cell reads as null |
| Cursors.FetchAssocKeys | phpg.php:414 | a fetched row's keys are the column names, and a row of a result with columns is not empty |
| Cursors.FetchAssocOfDistinct | phpg.php:414 | with distinct names, a fetched row pairs each column with its cell, in order |
| Cursors.FetchedRows | phpg.php:414 | every row fetched from one result has the result's column names as keys |
| Cursors.Rows | phpg.php:357-363 | the rows from one position to another are that many decoded rows |
| Cursors.RowsAt | phpg.php:357-363 | the k-th of those rows is the decoded row at position start + k |
| Cursors.RowEmpty | phpg.php:357-363 | a decoded row is empty exactly when the result has no columns, which is when the fetch loop stops early |
| Cursors.Cursor.constructor | phpg.php:252-263 | a new cursor has a null result, no position, null row counts and a null last query |
| Cursors.Cursor.Execute | phpg.php:331-351 | a failed query changes nothing. A successful one installs the result, resets the position and both memoised counts, and records the query |
| Cursors.Cursor.RowsReturned | phpg.php:468-473 | the row count is read from the driver once and then memoised. Every call returns the same value, and nothing else changes |
| Cursors.Cursor.RowsAffected | phpg.php:475-480 | the affected-row count is read once and memoised in the same way |
| Cursors.Cursor.LastQuery | phpg.php:462-466 | returns the query last executed on the cursor; null before any query and again after `free` |
| Cursors.Cursor.Iter | phpg.php:365-441 | the first call builds the field catalog and starts at row 0. Each call returns the decoded row at the current position and advances it. Past the end it returns nothing and resets the cursor, so the next call starts over. The row count is asked of the driver only when it is not cached, and the affected-row count is untouched |
| Cursors.Cursor.Rewind | phpg.php:366-406 | a reset cursor gets the catalog of its result's fields and starts at row 0; a cursor with a position keeps it. No count is asked of the driver |
| Cursors.Cursor.ReadRow | phpg.php:413-440 | the row at the current position comes back decoded, and the position moves one row on. Nothing else changes |
| Cursors.Cursor.FetchAll | phpg.php:357-363 | returns every decoded row from the current position to the end and leaves the cursor reset when the result has columns. When the result has no columns it returns nothing, and if a row remained the cursor ends one row further on. A cursor already at the end stays reset. Afterwards the row count is cached, asked of the driver at most once, and the affected-row count is untouched |
| Cursors.Cursor.Free | phpg.php:443-448 | with a result, the result, position, field catalog, row counts and last query are all dropped, so `last_query` then gives null. Without one (a fresh or already freed cursor) `pg_free_result` receives null and fails, and nothing changes |
| Escaping.EscapeByReplacements | phpg_utils.php:96-99 | the two whole-string replacements (backslashes first, then quotes) escape each character on its own |
| Escaping.UnescapeEscape | phpg_utils.php:96-99 | that escaping loses nothing: removing the escapes gives the text back |
| Hstore.HstoreToPhpHelper | phpg_utils.php:141-220 | the character loop of the hstore decoder computes `Decode`: the scanner state stepped over every character, then the pending pair stored |
| Hstore.QuotedKey | phpg_utils.php:159-183 | a quoted key followed by `=>` sets the key and starts a value, with backslashes dropped |
| Hstore.QuotedValue | phpg_utils.php:169-183 | a quoted value stores the pair and skips the two separator characters |
| Hstore.BareKey | phpg_utils.php:190-197 | an unquoted key runs up to `=` and skips the `>` |
| Hstore.BareValueThenSeparator | phpg_utils.php:198-207 | an unquoted value runs up to `,`, stores the pair and skips the space |
| Hstore.DecodePairs | phpg_utils.php:141-220 | the decoder reads back any `, `-separated list of pairs into the pairs in order, with every backslash removed and an empty quoted value read as null (a later duplicate key overwrites an earlier one), provided each quoted key or value does not end in a backslash and each bare one is non-empty, does not start with `"` or `,`, and holds no `=` (key) or `,` (value) |
| Hstore.HstoreFromPhpHelper | phpg_utils.php:91-115 | the encoder's loop writes `"key"=>"value"` or `"key"=>NULL` per pair, escaped, joined by `,` |
| Hstore.ReadEncodedPairs | phpg_utils.php:91-220 | what the encoder writes for each pair is read back by the decoder when the pairs are joined as PostgreSQL joins them (`, `), with every backslash removed and an empty quoted value read as null |
| Hstore.QuotedPairLosses | phpg_utils.php:152-220 | a quoted pair comes back with every backslash of its key and value removed, and an empty value comes back as null |
| Hstore.EncoderOutputNotReadBack | phpg_utils.php:91-220 | the encoder's own output (joined by `,`) is not read back: `{a:1, b:2}` decodes with the key `b"` |
| Hstore.DecodeDocumentedSample | phpg_utils.php:141-220 | `"a"=>"1","b"=>NULL` decodes to `a` ↦ `1` and `b"` ↦ the text `NULL` |
| Hstore.DecodePostgresSample | phpg_utils.php:141-220 | PostgreSQL's form `"a"=>"1", "b"=>NULL` decodes to `a` ↦ `1` and `b` ↦ the text `NULL` |
| Hstore.HstoreToPhp | phpg_utils.php:118-138 | a text starting with `{` and ending with `}` is an array of hstores: each element is unnested and decoded, and a null element gives an empty map. Any other text is decoded as one hstore |
| ArrayText.ArrayFromPhp | phpg_utils.php:263-289 | the loop writes `{` and the elements joined by `,`: each is `NULL` or quoted and escaped, then `}` |
| ArrayText.Appended | phpg_utils.php:265-287 | one pass of the loop puts a comma before every element but the first |
| ArrayText.ArrayRoundTrip | phpg_utils.php:263-289 | reading an array literal the encoder wrote gives the elements back, nulls included |
| ArrayText.ArrayLiteralExample | phpg_utils.php:263-289 | `["x", null, "y\"z"]` is written `{"x",NULL,"y\"z"}` |
| ArrayText.NormalizeLiteral | phpg_utils.php:228-236 | the text is made to start with `{` and end with `}`, and a braced text is left alone. Exactly one `{` is added when the text does not start with one (an empty text included) and exactly one `}` when it does not end with one, and nothing else is added |
| ArrayText.NormalizeLiteralIdempotent | phpg_utils.php:228-236 | normalising twice is normalising once |
| ArrayText.NormalizeArrayLiteral | phpg_utils.php:228-289 | a literal written by the encoder is not changed by the normalisation |
| ArrayText.NormalizeType | phpg_utils.php:240-242 | the type is made to end in `[]`, and a type that already does is left alone |
| ArrayText.ArrayToPhp | phpg_utils.php:223-260 | null stays null. Otherwise UNNEST receives the normalised literal and the type with `[]` appended when missing; a braced literal reaches UNNEST unchanged |
| ArrayText.ArrayToPhpOfArrayFromPhp | phpg_utils.php:223-289 | when UNNEST returns each element's text unchanged, as the server does for text element types, decoding what the encoder wrote gives the elements back |
| ArrayText.KeepDigits | phpg_utils.php:294-297 | integer mode keeps exactly the entries that are non-empty runs of decimal digits. A list of digit strings is kept whole |
| ArrayText.KeepDigitsAppend | phpg_utils.php:294-297 | the filter decides entry by entry and keeps the order: filtering a concatenation is concatenating the filtered parts |
| ArrayText.RecordFromPhp | phpg_utils.php:292-319 | the result is empty exactly when no entry is kept. Otherwise it is wrapped in single quotes |
| ArrayText.IntegerRecordChars | phpg_utils.php:294-319 | an integer record holds only digits, quotes and commas |
| ArrayText.IntegerRecordSplits | phpg_utils.php:294-319 | splitting the inside of an integer record on `','` gives back exactly the kept entries |
| ArrayText.StringRecordSplits | phpg_utils.php:292-319 | in string mode, with entries holding no single quote, the text between the outer quotes splits on `','` back into the entries in order |
| Registry.Setting | phpg.php:161-166 | a setting counts exactly when it is present and not null |
| Registry.ConnInfo | phpg.php:153-170 | a string goes to pg_connect as it is, an array becomes a connection string, and any other type has no connection string |
| Registry.Construct | phpg.php:142-190 | without parameters, an existing alias is reused and an unknown one is an error. Otherwise, a connection is created and stored exactly when the parameters are a string or an array, the alias is new and the connection succeeds. Every other outcome leaves the table as it was |
| Registry.Connections.Open | phpg.php:123-207 | the constructor's branches, in their order, produce the outcome and the new connection table that `Construct` gives |
| Registry.BuildConnectionString | phpg.php:158-167 | the six `isset` statements followed by `implode(' ', …)` build exactly the connection string: one `key='value'` entry per set setting, in the order host, port, dbname, user, password, options |
| Registry.AddSetting | phpg.php:161-166 | one `isset` statement appends the entry of its keyword when that setting is set, and nothing otherwise |
| Registry.EntriesAppend | phpg.php:161-167 | the entries for two lists of settings written one after the other are the entries of the first list followed by those of the second |
| Registry.AliasRules | phpg.php:142-190 | once an alias is created, asking for it without parameters reuses it, and creating it again fails with "already exists" |
| Registry.UnknownSettingIgnored | phpg.php:158-167 | array entries other than the six settings do not change the connection string |
| Registry.EntriesByValue | phpg.php:158-167 | the connection string depends only on the settings' values, not on their order in the array |
| Registry.ConnectionStringEmpty | phpg.php:158-167 | the connection string is empty exactly when none of the six settings is set |
| Registry.ConnectionStringSplits | phpg.php:158-167 | when no value holds a space, splitting the string on spaces gives one `key='value'` entry per set setting, in the fixed order host, port, dbname, user, password, options |
| Registry.ConnectionStringExample | phpg.php:158-167 | `[dbname => d, port => null, host => h]` gives `host='h' dbname='d'` |

## Left out

- Transport is not modelled: the network, `pg_connect` itself, `BEGIN`, `commit`, `rollback`, `escape`, and the error texts of the exceptions. A failed connection or query is a parameter.
- The server's `UNNEST` and `EACH` queries are functions passed in (`unnest`, `each`). Their parsing is PostgreSQL's, not PHPG's.
- `Cursors.Cursor.Iter` and `Cursors.Cursor.FetchAll` take the cell decoder as a parameter (`convert`). `Cursors.DecodedRowCells` connects it to `Dispatch.DecodeCell`, so the cursor proofs do not depend on the decoders.
- `pg_fetch_assoc` is modelled by the rows it returns. With two columns of the same name the row keeps one entry, and `pg_field_is_null` by name looks at the first such column. The model looks the cell up by the row's entry.
- The conversions done by PHP library functions are not modelled: `json_decode`, `intval`, `floatval`, the boolean test, `pg_unescape_bytea`, `strtotime`, and the date functions. The model only records which decoder was applied (`Converted`). PHP 8 type errors for an array passed to a text-only decoder are modelled as `TypeError`.
- `seek` and `reset` are not modelled. They pass a key that is never set to `pg_result_seek`.
- Also not modelled: the cursor-id generation with `mt_rand` and the storing of the new entry under that id, the static `transform_*` helpers, `hstoreFromPhp`'s array-of-hstores wrapper and the date helpers.
- Dispatch.TransformData and Dispatch.DecodeCell: `json_decode` of the text `null` gives PHP null, so in PHP a non-null json cell can decode to the same null as an SQL NULL cell. The model keeps that result as `Converted(Json, …)`, distinct from `Null`, because it does not model `json_decode`.
- Hstore.DecodePairs: a quoted key or value whose text ends in a backslash (written `"a\\"`) does not close in the source decoder: the backslash before the closing quote makes that quote part of the text (phpg_utils.php:165-169), so the field does not end there. The round-trip lemmas therefore require texts that do not end in a backslash (`Closable`).
- Hstore.DecodePairs, Hstore.ReadEncodedPairs: the round trip loses what the source decoder loses. A backslash is never stored, only the character after it (phpg_utils.php:165-167), so every `\` of a key or value is dropped. An empty quoted value leaves the pending part null (phpg_utils.php:169-182), so `""` comes back as null. PostgreSQL's own output (`\\` for a backslash, `""` for an empty text) loses the same way. `Hstore.QuotedPairLosses` states both losses.
- Hstore.HstoreToPhpHelper, Hstore.Step: strings are sequences of characters, while the source indexes bytes (`strlen` and `$string[$i]` at phpg_utils.php:142-153, and `$skip`, which skips the next one or two bytes after a field ends, at :155-157). The decoder agrees with the source only when each skipped character is a single byte. PostgreSQL's output always meets this, because the skipped characters there are the `>` of `=>`, the space of `, `, or the `=>` or `, ` after a closing quote, all single bytes. A text such as `a=>1,é=>2` splits a multi-byte character in the source but not in the model.
- ArrayText.RecordFromPhp: the `numeric` and `decimal` modes are not modelled. They rely on `is_numeric` and on a `preg_filter` call made with too few arguments. The `auto_escape` branch is not modelled either; it calls `array_map` with its arguments swapped.
- Hstore.HstoreFromPhpHelper: `auto_escape` (`pg_escape_string`) is not modelled, because it needs the server's escaping.
- Keys are strings throughout. PHP turns integer-like string keys into integers, and that is not modelled. Array elements are strings or null.
- `Cursors.Cursor.Iter`, `Cursors.Cursor.FetchAll`, `Cursors.Cursor.RowsReturned` and `Cursors.Cursor.RowsAffected` require a result. On a fresh cursor the PHP code hands the null resource to the driver functions, and after `free` it reads the removed entry of `$GLOBALS`; what the driver does with those is outside the model.
- The decoder keeps PostgreSQL's output form (`, ` between pairs). The encoder's form (`,` with no space) is not read back correctly: the second key gains a trailing `"` (`b"`). The lemmas state both the decoder's behaviour and the mismatch. An unquoted `NULL` decodes to the text `NULL`, not to null.
- Registry.Construct: the connection string does not escape quotes in values, as the source does not. The stored connection is its connection string, not a resource.
