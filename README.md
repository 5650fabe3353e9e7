# talk2tables backend core, modelled in Dafny

talk2tables lets a user ask questions in natural language about database
tables and uploaded spreadsheets. Its backend stores uploads in memory for a
fixed time and renames their columns so that SQL can use them. This project
models three pieces of that backend and proves properties of them:

- **Column cleaning** (`ColumnNames`, `column_names.dfy`). This is
  `clean_column_name`. Every character that is not a letter or digit becomes
  `_`. The string is then split at `_`, the empty parts are dropped and the
  rest are joined with `_` again. A name that starts with a digit gets the
  prefix `n_`, and the whole name is lower-cased. The split, the filter and
  the join are modelled one by one, with Python's `str.split` semantics.
- **The upload catalog** (`ExcelTables`, `table_manager.dfy`). This is the
  class `ExcelTableManager`. Its two dictionaries, `tables` and
  `columnMappings`, are `map` fields. A third field, `order`, keeps the
  insertion order that Python dictionaries iterate in, because
  `get_all_tables` lists the tables in that order. The methods change these
  fields in place. All of them keep `Valid()`, which says:
  - both dictionaries have the same keys;
  - `order` lists each key once;
  - every entry's mapping and clean column list are derived from its
    original columns.

  The clock (`datetime.now()`) and the 8-character uuid fragment are method
  parameters. Time is an integer number of microseconds, which is the
  resolution of `datetime`, so `ttl_minutes` becomes
  `ttlMinutes * 60_000_000`. A DataFrame is its ordered column names plus an
  opaque body of type `P`.
- **Chat-path helpers** (`ChatQuery`, `chat_query.dfy`). These are the split
  of the requested table names into `excel_` names and database names, and
  the renaming of query-result columns back to the uploads' original column
  names.

`clean_column_name` fails with an `IndexError` on a name that has no letter
and no digit: the collapsed name is empty, so `cleaned[0]` does not exist.
The function therefore requires `HasAlnum`, and `CollapseEmptyIff` proves
that this precondition is exactly the failing case. `add_table` reaches the
failure while it builds the mapping, before either dictionary changes.
`AddTable` models that path as a `None` result with the state unchanged.

## Model

| member | source | states |
|---|---|---|
| `ColumnNames.CleanColumnName` | backend/main.py:113-122 | The four steps of `clean_column_name`, for a name with a letter or digit. Its guarantees are stated by `CleanNameFormat`, `CleanNameDigitPrefix`, `CleanNameLetters`, `CleanNameWords` and `CleanNameIdempotent`. |
| `ColumnNames.CleanNameFormat` | backend/main.py:113-122 | A cleaned name is non-empty and uses only lower-case letters, digits and `_`. It never has two `_` in a row, never starts or ends with `_`, and never starts with a digit. |
| `ColumnNames.CleanNameDigitPrefix` | backend/main.py:118-122 | If the input's first letter or digit is a digit, the result starts with `n_` and then that digit. Otherwise the result starts with that character lower-cased. |
| `ColumnNames.CleanNameLetters` | backend/main.py:116-122 | The result's letters and digits are the input's, lower-cased and in order, after the `n` of any prefix. |
| `ColumnNames.CleanNameWords` | backend/main.py:116-122 | Splitting the result at `_` gives the input's words, lower-cased and in order, with a first word `n` when the first letter or digit is a digit. So every run of characters that are not letters or digits between two words becomes exactly one `_`. |
| `ColumnNames.Words` | backend/main.py:116-118 | The words of a name are its non-empty pieces between characters that are not letters or digits. No word is empty. |
| `ColumnNames.WordsLetters` | backend/main.py:116-118 | Together the words hold exactly the name's letters and digits, in order. |
| `ColumnNames.CollapseEmptyIff` | backend/main.py:116-120 | The collapsed name is empty, so `cleaned[0]` fails, exactly when the input has no letter or digit. |
| `ColumnNames.CleanNameIdempotent` | backend/main.py:113-122 | Cleaning a cleaned name returns it unchanged. |
| `ColumnNames.CleanShapeIsFixed` | backend/main.py:113-122 | Any string with the cleaned-name shape is its own cleaned name. |
| `ColumnNames.CollapseKeepsCharacters` | backend/main.py:118 | Split, filter and join lose and reorder no character other than `_`. |
| `ColumnNames.CollapseShape` | backend/main.py:118 | A non-empty collapsed string has no `_` at either end and no two `_` in a row. |
| `ColumnNames.CollapseWords` | backend/main.py:118 | A non-empty collapsed string splits at `_` into exactly the non-empty parts of the original split, in order. |
| `ColumnNames.Collapse` | backend/main.py:118 | Split at `_`, drop the empty parts, join with `_`. `CollapseKeepsCharacters`, `CollapseShape` and `CollapseWords` state what this does. |
| `ColumnNames.JoinSplit` | backend/main.py:118 | `sep.join(s.split(sep)) == s` for every string `s`. |
| `ColumnNames.SplitJoin` | backend/main.py:118 | `sep.join(parts).split(sep) == parts` for a non-empty list of parts without `sep`. With `JoinSplit` and `SplitPartsSepFree`, the split is the only such list that joins to the string. |
| `ColumnNames.Join` | backend/main.py:118 | `sep.join(parts)`: the parts with one `sep` between neighbours. `JoinSplit`, `SplitJoin`, `StripJoin` and `JoinShape` state its properties. |
| `ColumnNames.SplitCleanShape` | backend/main.py:118 | A non-empty string with no `_` at either end and no `__` splits into non-empty parts only. |
| `ColumnNames.SplitPartsSepFree` | backend/main.py:118 | No part of `s.split(sep)` contains `sep`. |
| `ColumnNames.ConcatSplit` | backend/main.py:118 | The parts of a split, concatenated, are the string with every separator removed. |
| `ColumnNames.ConcatNonEmptyParts` | backend/main.py:118 | `filter(None, parts)` drops no character. |
| `ColumnNames.StripJoin` | backend/main.py:118 | Joining separator-free parts and then removing the separators gives the parts concatenated. |
| `ColumnNames.JoinShape` | backend/main.py:118 | Joining non-empty, separator-free parts puts no separator at either end and never two in a row. |
| `ColumnNames.Split` | backend/main.py:118 | `str.split` always returns at least one part. |
| `ColumnNames.NonEmptyParts` | backend/main.py:118 | Every part `filter(None, ...)` keeps is non-empty and comes from the input. |
| `ColumnNames.NonEmptyPartsKeepsAll` | backend/main.py:118 | `filter(None, parts)` keeps every non-empty part as often as it occurs, drops every empty one, and keeps the parts in their order. |
| `ColumnNames.Lower` | backend/main.py:122 | Lower-casing turns an upper-case letter into the same letter in lower case and leaves every other character unchanged. Letters and digits become lower-case letters and digits. |
| `ColumnNames.LowerString` | backend/main.py:122 | `str.lower` on a string: `Lower` applied to each character. `SplitLower` and `StripLower` state how it interacts with `_`. |
| `ColumnNames.SplitLower` | backend/main.py:118-122 | Lower-casing a string lower-cases each part of its split at `_`, so it creates and removes no separator. |
| `ColumnNames.Sanitize` | backend/main.py:116 | Each character that is not a letter or digit becomes `_` and the others are kept. `StripSanitize` and `WordsLetters` state what survives. |
| `ColumnNames.AlnumOnly` | backend/main.py:133 | The safe filename holds only letters and digits. |
| `ColumnNames.AlnumOnlyKeepsAll` | backend/main.py:133 | The safe filename holds every letter and digit of the filename as often as it occurs, nothing else, and in the filename's order. |
| `ExcelTables.ExcelTableManager.constructor` | backend/main.py:125-128 | Both dictionaries start empty, the invariant holds and `ttlMinutes` is stored (30 by default). |
| `ExcelTables.ExcelTableManager.AddTable` | backend/main.py:130-154 | Fails with no state change exactly when some column has no letter or digit. On success it returns `"excel_" + letters and digits of the filename + "_" + id`. The name is then a key of both dictionaries, with `expiresAt == now + ttl`. The mapping's keys are exactly the original columns, each mapped to its cleaned name. The clean column list is the original columns cleaned, in order. A reused name keeps its place in the order, a new name goes last, and every other entry is unchanged. The invariant is kept. |
| `ExcelTables.ExcelTableManager.GetTable` | backend/main.py:156-165 | Returns the data exactly when the name is present and `now < expiresAt`. A present but expired entry is deleted from both dictionaries and `None` is returned. An absent name returns `None` with no change. No other entry is touched, and the invariant is kept. |
| `ExcelTables.ExcelTableManager.GetColumnMapping` | backend/main.py:167-169 | An unknown name gives the empty map. A known name gives a map whose keys are exactly that table's original columns, each mapped to its cleaned name. |
| `ExcelTables.ExcelTableManager.GetAllTables` | backend/main.py:171-191 | Afterwards the entries expired at `now` are gone from both dictionaries and from the order, and no stored entry has `expiresAt <= now`. Every unexpired entry is still there, unchanged. The result has one record per surviving name, in dictionary order, with its name, original filename, columns, clean columns, expiry and description. The loop keeps the invariant on every deletion. |
| `ExcelTables.ExcelTableManager.PurgeExpired` | backend/main.py:171-178 | Collects the names expired at `now` in dictionary order and deletes them one by one. Afterwards exactly those names are gone from both dictionaries and from the order, and the invariant holds. |
| `ExcelTables.ExcelTableManager.RemoveTable` | backend/main.py:193-199 | Returns true exactly when the name was a key of `tables`. Afterwards the name is in neither dictionary and every other entry is unchanged. |
| `ExcelTables.ExcelTableManager.DeleteEntry` | backend/main.py:162-164 | The deletion that is written out three times in the source. It removes exactly one name from both dictionaries and from the order, and keeps the invariant. |
| `ExcelTables.DeleteCoherent` | backend/main.py:175-178 | Deleting a name from both dictionaries keeps the key sets equal and every entry consistent. |
| `ExcelTables.DeleteAllCoherent` | backend/main.py:175-178 | Deleting any set of names from both dictionaries and from the order keeps them coherent. |
| `ExcelTables.PurgePending` | backend/main.py:175-178 | While names are pending, the next one is still stored and the dictionaries are coherent. |
| `ExcelTables.PurgeStep` | backend/main.py:175-178 | Deleting the next pending name moves the loop one step on: it joins the deleted names and leaves the pending list, and the rest of the loop's bookkeeping still holds. |
| `ExcelTables.PurgeDone` | backend/main.py:175-178 | When nothing is pending, exactly the expired names have been deleted from both dictionaries and the order, and they are coherent. |
| `ExcelTables.InsertCoherent` | backend/main.py:139-152 | Storing a consistent entry under a new or existing name keeps the key sets equal, each name listed once in the order, and every entry consistent. |
| `ExcelTables.ExpiredNames` | backend/main.py:174-175 | The collected names are exactly the listed names with `now >= expiresAt`, each one once. |
| `ExcelTables.ExpiredNamesAgree` | backend/main.py:173-174 | When the order lists exactly the stored names, the names collected from it are exactly the stored names expired at `now`, each once. |
| `ExcelTables.Without` | backend/main.py:162 | Deleting keys from a dictionary keeps exactly the other keys, each once. |
| `ExcelTables.WithoutInOrder` | backend/main.py:162 | Deletion keeps every other key as often as it occurs and in its order, so the dictionary order of the survivors is unchanged. |
| `ExcelTables.TableName` | backend/main.py:133-134 | `excel_`, the filename's letters and digits, `_`, the id. `UploadedNamesAreExcel` and `AlnumOnlyKeepsAll` state its properties. |
| `ExcelTables.ColumnMapping` | backend/main.py:137-138 | Each original column mapped to its cleaned name. `GetColumnMapping` and `AddTable` state its keys and values. |
| `ExcelTables.CleanColumns` | backend/main.py:141-150 | Each column's cleaned name, in column order. `AddTable` states its length and elements. |
| `ExcelTables.ToRecord` | backend/main.py:181-188 | The listed fields of one stored entry. |
| `ExcelTables.Records` | backend/main.py:180-191 | One record per name of the order. `GetAllTables` states its length and elements. |
| `ExcelTables.ExpiryBoundary` | backend/main.py:147-165 | On a new manager, an upload can be read until one microsecond before `now + 30 minutes`. The first read at that time deletes it, and removing it afterwards returns false. |
| `ChatQuery.IsExcelName` | backend/main.py:422 | `t.startswith("excel_")`. |
| `ChatQuery.ExcelTableNames` | backend/main.py:422 | `excel_tables`, the requested `excel_` names. `Partition` states what it holds. |
| `ChatQuery.PgTableNames` | backend/main.py:423 | `pg_tables`, the other requested names. `Partition` states what it holds. |
| `ChatQuery.Select` | backend/main.py:422-423 | Each list holds only names of its own kind (`excel_` prefix or not) and is no longer than the request. |
| `ChatQuery.Partition` | backend/main.py:422-423 | `excel_tables` holds exactly the requested `excel_` names and `pg_tables` exactly the rest, each as often as requested and in request order. No name is in both, and together they hold every requested name. |
| `ChatQuery.SelectCounts` | backend/main.py:422-423 | Each list holds a name as often as the request does if the name is of the list's kind, and never otherwise. |
| `ChatQuery.SelectSplits` | backend/main.py:422-423 | The two lists together hold every requested name as often as requested, and their lengths add up to the request's. |
| `ChatQuery.SelectDisjoint` | backend/main.py:422-423 | No name is in both lists. |
| `ChatQuery.SelectInOrder` | backend/main.py:422-423 | Each list is a subsequence of the request. |
| `ChatQuery.UploadedNamesAreExcel` | backend/main.py:134 | Every name `add_table` hands out starts with `excel_`, so the split sends it to the uploaded tables. |
| `ChatQuery.ReverseOf` | backend/main.py:643 | The reverse of a mapping has every cleaned name as a key, and maps each key to an original that the mapping sends to it. |
| `ChatQuery.ReverseOfLastWins` | backend/main.py:643 | When several originals clean to the same name, the reverse holds the last one in the mapping's order. |
| `ChatQuery.MergedReverse` | backend/main.py:639-642 | The reversed mappings of the queried tables merged in turn, so a later table wins. `MergedReverseCleaned` states its keys and values. |
| `ChatQuery.MergedReverseCleaned` | backend/main.py:640-643 | Over all queried uploads, every key of the merged reverse map is a cleaned name and maps to an original that cleans to it. Every cleaned name of every table is a key. |
| `ChatQuery.RenameBack` | backend/main.py:644 | `reverse_mappings.get(col, col)` for each result column. `RenameBackUndoesCleaning` states what it gives. |
| `ChatQuery.RenameBackUndoesCleaning` | backend/main.py:639-644 | Renaming keeps the number of columns. A result column that is a cleaned name of a queried upload becomes an original column that cleans to it. Every other column is kept, in particular any column not shaped like a cleaned name. |
| `ChatQuery.RenameBackThenClean` | backend/main.py:639-644 | Cleaning a renamed column gives the result column it came from, whenever that column had the cleaned-name shape. |

## Left out

- Letters and digits are ASCII only. Python's `isalnum`, `isdigit` and `lower` also accept non-ASCII letters and digits, so a name such as `"é"` is cleaned differently here (it becomes a failing input).
- FastAPI endpoints, CORS, HTTP status codes and logging are I/O plumbing.
- SQLAlchemy and PostgreSQL access, the metadata table and its in-memory fallback are left out, because they depend on foreign database calls and exceptions.
- OpenAI prompt building and completion calls are network calls to an external model.
- pandas reading, `to_sql`, SQLite execution, and the cleaning of NaN, infinity and datetimes for JSON are left out. They are foreign-library and floating-point behaviour.
- The regex-based "no such column" error rewriting and the `str.replace` edits of generated SQL are left out. They depend on database error text and regex semantics, and promise nothing checkable.
- uuid generation and the system clock are method parameters, not modelled. `ExpiryBoundary` fixes the default ttl of 30 minutes.
- `ExcelTables.ExcelTableManager.AddTable`: `add_table` renames the caller's DataFrame columns in place. The model stores a renamed copy and does not model the alias to the caller's object.
- `ExcelTables.ExcelTableManager.AddTable`: column labels are strings here. pandas can give a non-string label, such as a number or a date from the header row, and then `clean_column_name` raises `TypeError`. The model does not cover that failure, so its failure condition is only "some column has no letter or digit".
- `ExcelTables.ExcelTableManager.GetAllTables`: `expires_at` is returned as a timestamp, not as its `isoformat()` text.
- `ExcelTables.ExcelTableManager.GetColumnMapping`: a column mapping is an unordered `map`. The reverse renaming (`ChatQuery.MergedReverse`) therefore takes each mapping's items in dictionary order as an explicit list. That order is the first-occurrence order of the original columns.
- The column mapping is not claimed to be injective. Distinct originals can clean to the same name, and `ReverseOfLastWins` states which original the reverse then keeps.
- The browser client (chart inference, catalog polling, query composer) is not modelled; this project covers the backend only.
