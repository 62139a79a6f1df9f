# Mork ingestion engine

A model of the reading side of the `Mork` class in `demork.php`. `Mork` reads a
Mozilla Mork 1.4 database, which is a snapshot followed by an append-only change
log. It builds two things:

- a store of tables → rows → cells;
- a dictionary of long strings that cells refer to by `^id`.

The file is a string held in memory, with a cursor in place of the file handle.
`ftell` and `fseek` become reading and restoring that cursor.

The project is layered like the class:

| module | file | what it holds |
|---|---|---|
| `Base` | base.dfy | `Option`, the fixed escape character `\`, and PHP truthiness (`""` and `"0"` are false) |
| `Tokenizer` | tokenizer.dfy | `readUntil` as a function over the input and cursor; the trimming and line-break removal of its text |
| `Codec` | codec.dfy | `unescape` as its two passes, plus an escaping function that it inverts |
| `Ids` | ids.dfy | `normalizeId` and the `explode(':', …)[1]` scope field |
| `Store` | store.dfy | PHP's ordered table array, as an order sequence plus a map; the row and cell edits of `parseRow` and `parseTable` |
| `Resolver` | resolver.dfy | `lookup` |
| `Header` | header.dfy | the header regex of `parseFile`, written as explicit string tests |
| `Grammar` | grammar.dfy | every `parse*` production as a function from a reader state to an outcome: a new state, or the error strict mode throws |
| `Engine` | engine.dfy | the class `Mork`: cursor, store, dictionary and the two scopes as fields. Each `parse*` method runs the source's `while` loop over these fields and is proved to end in the state the matching grammar function gives |
| `Forms` | forms.dfy | what the productions do on concretely written input: a cell, an alias, a dict, a metadict |
| `Rows` | rows.dfy | what `parseRow` does on written rows: a lone id, and an id with one cell |

Each production loop is specified by a non-recursive "pass" function. A pass
either leaves the loop with an outcome or goes on from a new state. The
recursive driver repeats the passes, and each engine step method is proved
equal to one pass. Termination is by the remaining length of the input. A
group rewinds only once, and its replay loop never re-enters `parseGroup`.

Where the code departs from a natural reading of the format, the model follows the code:

- A cell `(a=X)` directly inside a group is a cell of the replay loop. It is not
  a metadict, so it leaves the dictionary scope alone.
- `lookup` uses the key exactly as written after `^`; it adds no scope.
- `parseRow` with no table picks the last table, in insertion order, that holds
  the row. It does not pick the first.
- `unescape` is not idempotent: `$2441` gives `$41`, and a second call gives `A`.
- The `$hh` lookbehind of `unescape` looks at one byte only, so `\\$41` gives `\$41`: the escaped escape character still shields the `$`.

## Model

| member | source | states |
|---|---|---|
| Tokenizer.ReadToken | demork.php:726-754 | The cursor only moves forward. At end of input the result is `false` (no token), with the whole input consumed and the text empty. A token found ends exactly at the new cursor, its last byte being the byte just consumed |
| Tokenizer.ReadTokenFound | demork.php:730-733 | The token returned is one of the candidates, with `HEX` expanded to the 22 hex digits, and it is exactly the bytes just before the cursor |
| Tokenizer.ReadTokenUnescaped | demork.php:743-747 | The token is not preceded by the escape character within the bytes read by this call; a token at the start of the call is never escaped |
| Tokenizer.ReadTokenLongest | demork.php:743-747 | No candidate matches at an earlier offset of the buffer, so the token is the leftmost, which is the longest suffix matched |
| Tokenizer.ReadTokenFirst | demork.php:745-752 | No shorter prefix of the input matched any candidate: the call stops at the first byte where one matches |
| Tokenizer.ReadTokenText | demork.php:748-749 | The text is the bytes read before the token, trimmed, with the four line-break strings removed |
| Tokenizer.ReadTokenOneLine | demork.php:175 | The text returned holds no CR or LF |
| Tokenizer.CleanOneLine | demork.php:748-749 | Trimming and then removing the break strings leaves no CR or LF |
| Tokenizer.RemoveBreaksSteps | demork.php:175 | Removing the break list is the four removals in list order: `\`CR, `\`LF, LF, CR |
| Tokenizer.TrimmedEnds | demork.php:748 | After `trim` neither end is one of PHP's trimmed bytes |
| Tokenizer.TrimNoop | demork.php:748 | `trim` leaves text that already has clean ends unchanged |
| Tokenizer.CleanNoop | demork.php:748-749 | Text of one line with clean ends is handed back unchanged |
| Tokenizer.SuffixMatchSingle | demork.php:743-747 | With one-byte candidates only the last byte read can match, and it matches when it is a candidate and not escaped |
| Tokenizer.ReadToByte | demork.php:745-752 | With one-byte candidates, the call stops at the first unescaped candidate byte. The text is the cleaned bytes before it |
| Tokenizer.ReadTokenWord | demork.php:726-754 | On a word followed by the candidate byte `c`, the token is `c`, the text is the word itself, and the cursor ends just after `c` |
| Tokenizer.ReadTokenAtCursor | demork.php:745-752 | A candidate byte at the cursor is returned at once, with empty text. A hex digit counts as a candidate when the list holds `HEX` |
| Engine.Mork.ReadUntil | demork.php:726-754 | The byte loop over the file cursor returns the token, text and new cursor that `ReadToken` gives |
| Codec.UnescapePlain | demork.php:905-915 | Text with no `$` and no escape character is returned unchanged |
| Codec.HexPass | demork.php:909-911 | The `$hh` pass never makes the text longer |
| Codec.EscPass | demork.php:913 | The escape-pair pass never makes the text longer |
| Codec.Unescape | demork.php:905-915 | Unescaping never makes the text longer |
| Codec.UnescapeHexEscape | demork.php:909-911 | A lone `$hh`, with two hex digits in either case, becomes the single byte 0xhh |
| Codec.HexPassPlainPrefix | demork.php:909 | Text with no `$` and no escape character passes the `$hh` pass unchanged, and it does not shield the `$` that follows it |
| Codec.EscPassPlainPrefix | demork.php:913 | Text with no escape character passes the escape-pair pass unchanged, whatever follows |
| Codec.HexPassEscapeIn | demork.php:909-911 | A `$hh` anywhere after such text becomes the byte 0xhh in place, and the pass goes on after it |
| Codec.UnescapeHexIn | demork.php:905-915 | Through both passes, a `$hh` after such text becomes the byte 0xhh in place, and the rest is unescaped on its own. The byte must not be the escape character, which the second pass would pair with the next byte |
| Codec.UnescapePair | demork.php:909-913 | An escape character followed by a byte other than LF or the escape character becomes that byte, and the rest is unescaped on its own. An escaped `$` is not decoded |
| Codec.UnescapeEscapedEscape | demork.php:909-913 | After an escaped escape character the `$hh` lookbehind still sees an escape character: `\\$41` gives `\$41` |
| Codec.UnescapeEscape | demork.php:905-915 | `unescape` inverts escaping, which puts the escape character before `$` and before the escape character itself: every string round-trips |
| Codec.UnescapeNotIdempotent | demork.php:905-915 | Unescaping twice differs from unescaping once: `$2441` gives `$41`, and then `A` |
| Codec.Escape | demork.php:905-915 | The escaping that `unescape` undoes never makes the text shorter |
| Ids.QualifyKey | demork.php:303 | The result always holds `:`. An id that holds one is kept; any other id gets `:` and the scope appended |
| Ids.NormalizeId | demork.php:300-305 | The creation status is false exactly when the id starts with `-`. That `-` is stripped, and the result always holds a scope |
| Ids.QualifyKeyIdempotent | demork.php:303 | Qualifying an id a second time changes nothing, whatever the second scope |
| Ids.NormalizeIdIdempotent | demork.php:300-305 | Normalising a normalised id again changes nothing and asks for creation |
| Ids.Field1 | demork.php:679 | `explode(':', id)[1]`: the text after the first `:` up to the next one; it holds no `:` |
| Ids.Field1OfQualified | demork.php:679 | The scope field of an id qualified by this model is its scope, cut at the next `:` |
| Ids.Field1NotAnId | demork.php:702-704 | The scope field of an id is never itself a normalised id, since it holds no `:` |
| Resolver.Lookup | demork.php:281-292 | A `^` reference to a key whose value is PHP-truthy gives that value unescaped. A missing key or falsy value gives `??`. Any other value is unescaped as a literal |
| Resolver.LookupAfterAlias | demork.php:281-292 | After `dict[key] = val` with a truthy `val`, looking up `^key` gives `val` unescaped |
| Resolver.LookupMissing | demork.php:285 | A reference to a key not in the dictionary gives `??` |
| Resolver.LookupLiteral | demork.php:288-291 | A plain literal is returned as it is |
| Header.HeaderVersion | demork.php:157 | The version read from the header is a single line |
| Header.HeaderRoundTrip | demork.php:157 | `//`, any white space, the `<!-- <mdb:mork:z v="` marker, a one-line version and `"/> -->` yield that version |
| Header.HeaderVersionShape | demork.php:157 | Conversely, whenever a version is read, the text is `//`, white space, the opening marker, that version, `"/> -->` and the rest |
| Store.PutTable | demork.php:673-676 | Assigning a table keeps the order of known tables and appends a new one at the end. A valid order stays valid |
| Store.CreateRow | demork.php:612-619 | Afterwards the row exists. Creating an existing row keeps its cells; a new row is empty. Nothing but that row changes, and a well-formed store stays so |
| Store.DeleteRow | demork.php:620-630 | Afterwards the row is gone. Deleting an absent row changes nothing; deleting a present one removes only that key from that table |
| Store.SetCell | demork.php:646 | The row holds the old row with this one cell set. PHP re-creates a missing table or row. Nothing else changes |
| Store.ColumnKey | demork.php:643 | The column key always has a scope: the id with any `-` stripped, qualified with `c` |
| Store.CellValue | demork.php:644 | A `^` reference gets the atom scope `a` unless it has one and stays a reference; a literal is unchanged; truthiness is kept |
| Store.StoreCell | demork.php:638-646 | A cell is written only when its value is PHP-truthy and a table id is known; otherwise the store is unchanged |
| Store.BareRow | demork.php:699-706 | The bare id's row exists afterwards. No table is removed, and a well-formed store stays so |
| Store.BareRowOnlyCreates | demork.php:702-704 | On a well-formed store the `unset` of the scope-part key never finds a row, so the construct only creates the row |
| Store.LastHolding | demork.php:604-606 | The index found holds the row, and no later table in the order does |
| Store.HoldingTable | demork.php:603-607 | When some table holds the row, the table chosen holds it and no table after it in insertion order does. When none holds it, the result is the fallback |
| Grammar.Comment | demork.php:397-400 | The comment ends at a CR or LF (consumed) or at end of input, and holds no line break |
| Grammar.Id | demork.php:512-515 | The id ends at one of its eight delimiters, which is consumed |
| Grammar.CellColumn | demork.php:382-386 | The column part of a cell keeps the cursor within the input and moving forward |
| Grammar.ParseCell | demork.php:381-390 | The cursor stays within the input and moves forward |
| Grammar.ParseAlias | demork.php:311-318 | Only the cursor and the dictionary change, and no dictionary key is lost |
| Grammar.MetadictPass | demork.php:522-540 | One pass either moves the cursor forward and changes at most the dictionary scope, or leaves the loop. EOF is an error only in strict mode. A strict success ends just after `>` |
| Grammar.Metadict | demork.php:521-543 | Only the cursor and the dictionary scope change. EOF is an error only in strict mode. A strict success ends just after `>`. The only failure is the missing terminator |
| Grammar.DictPass | demork.php:407-437 | One pass either moves the cursor forward, keeping the store and table scope, or leaves the loop. Leaving before end of input resets the dictionary scope to `a`. The only failure is an unterminated metadict |
| Grammar.Dict | demork.php:406-439 | The store and table scope are untouched. Leaving before end of input resets the dictionary scope to `a`. EOF is tolerated even in strict mode: the only failure is an unterminated metadict |
| Grammar.MetarowPass | demork.php:550-562 | One pass moves only the cursor. EOF is an error only in strict mode, and the only failure is the missing terminator. A strict success ends just after `]` |
| Grammar.Metarow | demork.php:549-565 | Only the cursor moves. EOF is an error only in strict mode, and the only failure is the missing terminator |
| Grammar.MetatablePass | demork.php:572-588 | One pass moves only the cursor and never fails |
| Grammar.Metatable | demork.php:571-589 | Only the cursor moves, and it never fails, even at EOF in strict mode |
| Grammar.RowTable | demork.php:603-607 | A truthy table id is used as given. Otherwise the result is the last table in insertion order that holds the row; when none holds it, the given id |
| Grammar.Row | demork.php:595-661 | The dictionary and both scopes are kept, as are the store's invariants. EOF inside a row is tolerated even in strict mode: the only failures are an orphaned row, in strict mode only, and an unterminated metarow |
| Grammar.RowPass | demork.php:632-657 | One pass of the row loop keeps the dictionary, the scopes and the store's invariants. It moves the cursor forward whenever a next token was read. It fails only in strict mode, and only on an unterminated metarow |
| Grammar.RowBody | demork.php:631-658 | The row loop keeps the dictionary, the scopes and the store's invariants. It fails only in strict mode, and only on an unterminated metarow |
| Rows.RowEdit | demork.php:612-630 | After an id that asks for creation the row exists; after a `-` id it does not |
| Rows.RowStart | demork.php:596-611 | After a written id and its delimiter, strict mode fails on an orphan. Otherwise the row is created or removed in its table, and the loop starts on the delimiter just after the id |
| Rows.RowPassCell | demork.php:637-657 | A written cell and the delimiter after it: the cell is stored under the store's rules, and the loop goes on with that delimiter |
| Rows.RowCellEnd | demork.php:637-652 | `(col=val)]` inside a row stores the cell and ends the row just after `]` |
| Rows.RowAlone | demork.php:595-652 | `id]` creates the row in its table and `-id]` removes it, with nothing else changed and the cursor just after `]`. With no table, strict mode fails with the orphaned id |
| Rows.RowOneCell | demork.php:595-652 | `id(col=val)]` creates (or, for `-id`, removes) the row in its table and then stores the cell. The cursor ends just after `]`. With no table, strict mode fails with the orphaned id |
| Grammar.TableId | demork.php:670-672 | The table id read after `{` always holds a scope, and the cursor stays within the input |
| Grammar.TableStart | demork.php:668-679 | The table exists afterwards, the table scope becomes the scope field of its id, and the cursor is the one after the id |
| Grammar.Table | demork.php:667-714 | The table named by the id read exists in the resulting store. No table or dictionary entry is lost |
| Grammar.TableBody | demork.php:681-714 | `}` keeps the table scope; only EOF clears it. A strict success ends just after `}` |
| Grammar.TablePass | demork.php:681-707 | One pass keeps the table and the table scope while the loop goes on. Only EOF clears the scope. A strict success ends just after `}` |
| Grammar.TableItem | demork.php:682-706 | Each item of the table loop keeps the table and the table scope |
| Grammar.BareId | demork.php:699-706 | A bare id keeps the dictionary, the scopes and every table. An id that asks for creation leaves its row, qualified with the table scope, in the table; on a well-formed store that is exactly creating the row. A `-` id changes nothing |
| Grammar.ScanGroup | demork.php:446-453 | The group id is the text before `{@`, and the saved cursor is just after `{@`. Without `{@` the cursor is at the end of input and no marker is found. The marker found really ends at the new cursor |
| Grammar.Group | demork.php:445-505 | An abort marker, a nested `@$${` or EOF leaves everything but the cursor untouched. In strict mode a nested group or EOF fails. Only the matching commit replays from the saved cursor |
| Grammar.ReplayPass | demork.php:471-503 | One pass moves the cursor forward, or leaves the loop; leaving with success means the cursor is just after the commit marker or at end of input |
| Grammar.ReplayItem | demork.php:476-498 | A dict, table, row or cell in the replay keeps the store's invariants, and fails only in strict mode |
| Grammar.Replay | demork.php:471-503 | The replay stops just after the commit marker or at end of input |
| Grammar.TopPass | demork.php:337-358 | One pass moves the cursor forward, or leaves the loop; leaving with success means the whole input was consumed |
| Grammar.TopItem | demork.php:338-357 | A comment, group, dict or table keeps the store's invariants, and fails only in strict mode |
| Grammar.Top | demork.php:337-359 | The dispatch loop consumes the whole input |
| Grammar.File | demork.php:331-359 | A header without the marker fails, and so does a version other than 1.4. A lenient read of a 1.4 file always succeeds, consumes everything and leaves a well-formed store |
| Engine.Mork.ParseComment | demork.php:397-400 | The method consumes what `Comment` consumes and returns its text |
| Engine.Mork.ParseId | demork.php:512-515 | The method consumes what `Id` consumes and returns its text |
| Engine.Mork.ParseCell | demork.php:381-390 | The method returns the column and slot `ParseCell` gives |
| Engine.Mork.ParseAlias | demork.php:311-318 | The new fields are what `ParseAlias` gives |
| Engine.Mork.ParseMetadict | demork.php:521-543 | The loop ends in the outcome `Metadict` gives |
| Engine.Mork.ParseDict | demork.php:406-439 | The loop ends in the outcome `Dict` gives |
| Engine.Mork.ParseMetarow | demork.php:549-565 | The loop ends in the outcome `Metarow` gives |
| Engine.Mork.ParseMetatable | demork.php:571-589 | The loop ends in the state `Metatable` gives |
| Engine.Mork.FindTable | demork.php:604-606 | The `foreach` returns the table `HoldingTable` picks |
| Engine.Mork.ParseRow | demork.php:595-661 | The method ends in the outcome `Row` gives |
| Engine.Mork.ParseRowBody | demork.php:631-658 | The row loop ends in the outcome `RowBody` gives |
| Engine.Mork.ParseRowStep | demork.php:632-657 | One iteration of the row loop is the pass `RowPass` gives |
| Engine.Mork.ParseTable | demork.php:667-714 | The method ends in the outcome `Table` gives |
| Engine.Mork.ParseTableId | demork.php:670-672 | The id and cursor are those `TableId` gives |
| Engine.Mork.ParseTableStep | demork.php:681-707 | One iteration of the table loop is the pass `TablePass` gives |
| Engine.Mork.ParseTableItem | demork.php:682-706 | One item of the table loop ends in the outcome `TableItem` gives |
| Engine.Mork.ParseTableStart | demork.php:668-679 | The header of the table leaves the state `TableStart` gives |
| Engine.Mork.ParseBareId | demork.php:699-706 | The bare-id branch leaves the state `BareId` gives |
| Engine.Mork.ParseGroup | demork.php:445-505 | Scanning, saving the cursor, seeking back and replaying end in the outcome `Group` gives |
| Engine.Mork.ScanMarkers | demork.php:446-453 | The scan returns what `ScanGroup` gives and leaves the cursor after the marker |
| Engine.Mork.ParseReplay | demork.php:471-503 | The replay loop ends in the outcome `Replay` gives |
| Engine.Mork.ParseReplayStep | demork.php:471-503 | One iteration of the replay loop is the pass `ReplayPass` gives |
| Engine.Mork.ParseReplayItem | demork.php:476-498 | One item of the replay ends in the outcome `ReplayItem` gives |
| Engine.Mork.ParseFile | demork.php:326-359 | Reading a file from a fresh reader ends in the outcome `File` gives |
| Engine.Mork.ParseTopStep | demork.php:337-358 | One iteration of the dispatch loop is the pass `TopPass` gives |
| Engine.Mork.ParseTopItem | demork.php:338-357 | One item of the dispatch loop ends in the outcome `TopItem` gives |
| Forms.CellColumnPlain | demork.php:382 | A written plain column and its separator give that separator and the column as written |
| Forms.CellColumnRef | demork.php:382-386 | A written `^` column and its separator give that separator and the column with its `^` put back |
| Forms.TableIdText | demork.php:670-672 | A written table id led by a hex digit, then a delimiter, is read as that id in the default scope `c`, with the cursor after the delimiter |
| Forms.PlainTableId | demork.php:672-679 | A hex-led table id without `:` asks for creation, is qualified with `c`, and its scope field is `c` |
| Forms.TableStartText | demork.php:668-679 | After `{` and such an id, the table `id:c` exists, the table scope is `c`, and the cursor is after the delimiter |
| Forms.ParseCellText | demork.php:381-390 | A cell written `[^]col(=or^)val)` gives `^` on the column exactly when it starts with `^`, and on the value exactly when the separator is `^`; the two are independent |
| Forms.ParseAliasText | demork.php:311-318 | An alias `key=val)` stores the raw value under the key qualified with the current dictionary scope. A later alias with the same key overwrites it |
| Forms.DictAlias | demork.php:406-439 | A dict `(key=val)>` stores the alias, and `>` resets the scope to `a` |
| Forms.AliasLookup | demork.php:281-318 | After a dict `(key=val)>` with a truthy value, looking up `^` and the qualified key gives the value unescaped |
| Forms.MetadictScope | demork.php:521-543 | A metadict `(a=X)>` sets the dictionary scope to X and changes nothing else |
| Forms.DictMetadict | demork.php:406-412 | A metadict inside a dict makes the rest of the dict read with X as its scope. An alias after it is then qualified with X |
| Forms.DictPassMetadict | demork.php:409-412 | One pass of the dict loop over `<(a=X)>` sets the scope to X |
| Forms.DictPassAlias | demork.php:417-420 | One pass of the dict loop over `(key=val)` stores the alias |
| Forms.DictEnd | demork.php:413-416 | `>` ends the dict and resets the scope to `a` |
| Forms.MetadictEnd | demork.php:536-538 | `>` ends the metadict and leaves the state as it was |

## Left out

- Command-line handling, help text and the setters: argument plumbing. `strict` is a constructor parameter of `Engine.Mork`; the escape character is fixed as `\`, since `setEscape` writes a field nothing reads.
- The output projections `csv`, `csvify`, `json` and `stats`. They format the store through library calls such as `json_encode` and `asort`.
- The diagnostics `say`, `say1` and `say2`: output only, with no effect on the state.
- File I/O. `fopen`, `fgetc` and `fclose` become an in-memory string and a cursor. A file that cannot be opened is not modelled.
- The PCRE engine. Each regex (the token pattern, `$hh`, the escape pair and the header) is written as an explicit string test.
- `$scopeRow`: it is written at the end of `parseRow` but never read.
- Exceptions become a `Fail` outcome, which stops every production above it as the exception would.
- Row and cell order: rows and cells are maps, so PHP's insertion order of rows in a table and of cells in a row is not kept. Nor is the move of a row to the end when it is unset and then created again. Only the output projections observe this order; the order of tables is kept.
- Grammar.CellColumn: its own contract states only the cursor bounds; what a written plain or `^` column yields is stated by `Forms.CellColumnPlain` and `Forms.CellColumnRef`.
- Grammar.TableId: its own contract states only that the id holds a scope and the cursor bounds; which id is read, in the default scope `c`, is stated for a hex-led written id by `Forms.TableIdText`. An id not led by a hex digit, where `readUntil(.., 'HEX')` first skips ahead to the next hex digit, has no written-form lemma.
- Grammar.ParseCell: its own contract states only the cursor bounds; what a written cell yields is stated by `Forms.ParseCellText`.
- Grammar.ParseAlias: its own contract states only what it leaves alone; the key and value it stores are stated by `Forms.ParseAliasText`.
- Grammar.Table: its own contract does not say what the rows of the table hold; the row and cell edits are stated by the `Store` functions it applies.
- Forms.DictMetadict: a metadict followed by an alias is stated as two lemmas, `Forms.DictMetadict` and `Forms.DictAlias`, which compose; there is no single lemma for the whole dict.
