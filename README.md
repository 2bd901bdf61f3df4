# ChronoDB query path in Dafny

This project models the part of ChronoDB that runs one command line. It covers:

- the tokenizer (`query/lexer.cpp`);
- the string helpers (`utils/helpers.cpp`);
- the record merge sort and the two range binary searches (`utils/sorting.cpp`, `utils/sorting.h`);
- the storage layer's data model (`storage/storage.h`), with an abstract engine behind its interface;
- the statement dispatcher with its undo/redo log (`query/parser.cpp`): `parseAndExecute`, `undo`, `redo`, and the CREATE, INSERT, SELECT, UPDATE and DELETE handlers.

Every operation has two forms.

- A specification on values. `Lexing.Tokens` is the tokenizer, `Sorting.SortSeq` the sort, `Query.Exec` one command line, and `Query.CreateOutcome` and its siblings are the handlers.
- An imperative form that keeps the source's own state: the `Lexer` cursor, the in-place merge sort on an `array`, the `StorageEngine` tables, and the `Parser` stacks. Each method is proved to agree with its specification.

The undo and redo stacks hold reversal actions (`Query.Action`). Each action stands for the closure its handler pushes.

An uncaught C++ exception ends the program. A read past the end of a vector through `operator[]` is undefined behaviour in C++. The model reports both as `Crashed`. This covers `std::stoi`/`std::stof` outside INSERT's `try`, `std::get` on a field of another type, and the seven-token WHERE clause that reads `tokens[7]`.

Proved properties include:

- Every command keeps the tables well typed, and keeps the stacks' UPDATE reversals consistent with them.
- A range SELECT shows exactly the qualifying rows, sorted by the column.
- A failing statement changes nothing. A successful one pushes exactly one action.
- Any line other than UNDO and REDO empties the redo stack.
- UNDO after INSERT, DELETE, UPDATE and CREATE does the following:
  - After INSERT, it removes the inserted row only when field 0 is a fresh int. When another row already has that id, it deletes the first such row, an older one, and the inserted row stays.
  - After DELETE, it puts the row back at the end of the table.
  - After UPDATE, it restores the row unless field 0 was rewritten. Then the update stays. If a later row still has the old id, UNDO overwrites that row with the image of the updated one.
  - After CREATE, it only logs; the table stays.

REDO runs the same reversal action again and pushes it back onto the undo stack. It does not re-apply the statement that the action reversed. `QueryFacts.UndoThenRedo` and `QueryFacts.InsertThenUndo` show the consequence: after INSERT, UNDO, REDO, the inserted row does not come back.

`readNumber` takes any run of digits and dots, for example `1.2.3`, as one NUMBER token. `Lexing.DigitsAndDotsLexAsOneNumber` states this.

`storage/storage.cpp` is not part of this model, and `storage.h` declares only signatures. What the engine calls do is therefore an assumption of the model, chosen to fit how `parser.cpp` uses their results. In the model, `createTable`, `insertRecord`, `updateRecord` and `deleteRecord` act on a map from table name to columns and live records. Updates and deletes act on the first record whose int field 0 is the id.

## Model

| member | source | states |
|---|---|---|
| Lexing.Lexer.constructor | query/lexer.cpp:7 | the lexer starts at position 0 of its input |
| Lexing.Lexer.Current | query/lexer.cpp:9-12 | the character at the cursor, and NUL at or past the end of the input |
| Lexing.Lexer.Advance | query/lexer.cpp:14 | the cursor moves one position forward |
| Lexing.Lexer.SkipWhitespace | query/lexer.cpp:16-18 | the cursor ends on the first non-space character at or after it, and every character skipped is white space |
| Lexing.Lexer.ReadString | query/lexer.cpp:20-29 | the literal is the text after the quote up to the closing quote or the end of the input; the cursor passes the closing quote |
| Lexing.Lexer.ReadNumber | query/lexer.cpp:31-38 | the token is the maximal run of digits and dots at the cursor |
| Lexing.Lexer.ReadIdentifierOrKeyword | query/lexer.cpp:40-48 | the token is the maximal run of letters, digits and underscores at the cursor, typed IDENTIFIER |
| Lexing.Lexer.NextToken | query/lexer.cpp:50-73 | the token and new position are those of `Next`, the one-token specification |
| Lexing.Lexer.Tokenize | query/lexer.cpp:75-83 | the tokens are exactly `Tokens(src, pos)`: every token up to END_OF_FILE, which is not included |
| Lexing.SkipSpaces | query/lexer.cpp:16-18 | the position reached is not white space and everything skipped is |
| Lexing.RunEnd | query/lexer.cpp:23-45 | the end of a run: every character before it belongs to the run and the one at it does not |
| Lexing.Next | query/lexer.cpp:50-73 | END_OF_FILE exactly when only white space remains before a NUL or the end; any other token moves past its start |
| Lexing.NextWellFormed | query/lexer.cpp:50-73 | each token is well formed: identifiers start with a letter, numbers with a digit, symbols are one character or a comparison followed by `=` |
| Lexing.LexWellFormed | query/lexer.cpp:75-83 | every token of a line is well formed and none is END_OF_FILE or a keyword |
| Lexing.Tokens | query/lexer.cpp:75-83 | the tokens from a position hold no END_OF_FILE, and there are no more of them than characters left |
| Lexing.Lex | query/lexer.cpp:75-83 | the tokens of a line hold no END_OF_FILE, and there are no more of them than characters |
| Lexing.UnterminatedLiteral | query/lexer.cpp:20-29 | a string literal without a closing quote takes the rest of the input and is the last token |
| Lexing.NulBetweenTokensEndsInput | query/lexer.cpp:52 | a NUL where a token would start ends tokenization |
| Lexing.NulTruncates | query/lexer.cpp:9-12 | a NUL with no quote before it cuts the line: the text after it is never tokenized |
| Lexing.NumberLexesAsOneToken | query/lexer.cpp:31-38 | a string `isNumber` accepts lexes as one NUMBER token holding it |
| Lexing.DigitsAndDotsLexAsOneNumber | query/lexer.cpp:31-38 | any run of digits and dots that starts with a digit, such as `1.2.3`, lexes as one NUMBER token |
| Helper.Trim | utils/helpers.cpp:13-20 | returns the input without its leading and trailing white space |
| Helper.TrimmedCharacterization | utils/helpers.cpp:13-20 | the trimmed text is the slice between the leading and trailing white-space runs, and empty when the text is all white space |
| Helper.TrimmedEmptyIffBlank | utils/helpers.cpp:18 | trimming gives the empty string exactly when the text is all white space |
| Helper.TrimKeepsMiddle | utils/helpers.cpp:13-20 | the text is its leading white space, its trimmed form and its trailing white space, in that order |
| Helper.TrimDropsBlanks | utils/helpers.cpp:13-20 | only white space is removed |
| Helper.TrimKeepsNonBlankEnds | utils/helpers.cpp:13-20 | a trimmed non-blank text starts and ends with a non-space character |
| Helper.TrimmedIsSubstring | utils/helpers.cpp:13-20 | every character of the trimmed text comes from the input |
| Helper.TrimIdempotent | utils/helpers.cpp:13-20 | trimming twice is trimming once |
| Helper.Split | utils/helpers.cpp:22-30 | the pieces are the `getline` pieces between delimiters, empty ones dropped, each trimmed |
| Helper.PiecesRejoin | utils/helpers.cpp:26 | joining the `getline` pieces with the delimiter gives back the input, with a final delimiter added when it lacks one |
| Helper.SplitPiecesLackDelimiter | utils/helpers.cpp:22-30 | no piece holds the delimiter and there are no more pieces than `getline` reads |
| Helper.SplitStep | utils/helpers.cpp:26-27 | a leading piece contributes its trimmed form unless empty; a blank piece contributes an empty string |
| Helper.IsNumber | utils/helpers.cpp:32-35 | a number is non-empty and has no sign and no decimal point |
| Helper.ToUpper | utils/helpers.cpp:37-41 | same length, each character upper-cased as `toupper` does in the C locale |
| Helper.ToUpperIdempotent | utils/helpers.cpp:37-41 | upper-casing twice is upper-casing once |
| Helper.ToUpperRemovesLower | utils/helpers.cpp:37-41 | the result has no lower-case letter, and the text is unchanged exactly when it had none |
| Values.ParseColType | query/parser.cpp:123 | a column type is accepted exactly when it is INT, FLOAT or STRING, and names it; CREATE's type check and the tables' invariant use it |
| Values.StoI | query/parser.cpp:223 | `stoi` succeeds only on a digit after the white space and sign, and only with a 32-bit value |
| Values.StoIShowInt | query/parser.cpp:223 | `stoi` reads back every 32-bit integer written out, and rejects every one out of range |
| Values.StoIRejectsNoDigits | query/parser.cpp:221-234 | text with no digit after the white space and sign is rejected |
| Values.StoF | query/parser.cpp:226 | `stof` succeeds only when a digit, or a point followed by a digit, follows the white space and sign |
| Values.StoFAccepts | query/parser.cpp:226 | `stof` succeeds exactly when a digit, or a point followed by a digit, follows the white space and sign |
| Values.StoFShowInt | query/parser.cpp:226 | `stof` reads every written-out integer back as that number |
| Values.Coerce | query/parser.cpp:221-230 | the value read has the column's type: INT through `stoi`, FLOAT through `stof`, STRING verbatim |
| Values.CoerceShowInt | query/parser.cpp:221-223 | an INT field written out and read back is the same value |
| Sorting.CompareIsStrictOrder | utils/sorting.cpp:8-16 | `compare` on records that hold the column's type is irreflexive, asymmetric and transitive, and total on records whose fields differ |
| Sorting.KeyLessStrict | utils/sorting.cpp:8-16 | a value below another differs from it and is not above it |
| Sorting.CompareVal | utils/sorting.cpp:18-26 | `compareVal` holds only when the literal reads as the column's type and the field has it; then the literal is not below the field; on INT it is `<` against `stoi`, on STRING it is string `<` |
| Sorting.KeyLessIsStrictTotalOrder | utils/sorting.cpp:8-16 | `compare` on one column type is irreflexive, transitive and total on distinct values |
| Sorting.Merge | utils/sorting.cpp:28-62 | the array becomes the merge of the two sorted halves; everything outside `left..right` is unchanged |
| Sorting.MergeSeq | utils/sorting.cpp:38-61 | the merge of two runs has as many records as both together |
| Sorting.SortSeq | utils/sorting.cpp:64-70 | the sort keeps the number of records |
| Sorting.MergeSorted | utils/sorting.cpp:38-61 | merging two sorted runs gives a sorted run |
| Sorting.MergePerm | utils/sorting.cpp:28-62 | merging keeps every record, as often as before |
| Sorting.MergeStable | utils/sorting.cpp:39-43 | among records of equal key, the merge keeps left-run records before right-run ones, in order |
| Sorting.MergeSortRecursive | utils/sorting.cpp:64-70 | the slice `left..right` becomes its sorted version and the rest of the array is unchanged |
| Sorting.MergeSort | utils/sorting.cpp:72-75 | the array becomes `SortSeq` of its old contents |
| Sorting.SortSeqCorrect | utils/sorting.cpp:72-75 | the sort result is a permutation of the input, sorted by the column, and stable |
| Sorting.SortSeqSorted | utils/sorting.cpp:64-70 | the sort result is ordered by the column |
| Sorting.SortPerm | utils/sorting.cpp:64-70 | the sort result has the input's records, as often |
| Sorting.SortSeqStable | utils/sorting.cpp:39-43 | records with equal keys stay in their input order |
| Sorting.BinarySearchLowerBound | utils/sorting.cpp:77-88 | on sorted rows, the index is the first row not below the literal: rows before it are below, the rest are not |
| Sorting.BinarySearchUpperBound | utils/sorting.cpp:90-124 | on sorted rows, the index is the first row above the literal: rows before it are not above, the rest are |
| Storage.Page.constructor | storage/storage.h:38-48 | a page starts with no slots, its free space after the reserved header, and PAGE_SIZE zero bytes |
| Storage.NewSlotEntry | storage/storage.h:30-35 | a slot entry holds the offset, length and active flag it is given |
| Storage.NewSlotEntryDefaults | storage/storage.h:34-35 | a slot entry built without arguments is active, at offset 0, with length 0 |
| Storage.TypeMatchesNamedType | storage/storage.h:108 | a value matches a type name exactly when the name is INT, FLOAT or STRING and the value has that type |
| Storage.Page.UsedDataBytes | storage/storage.h:50 | the used byte count lies between the header size and the page size |
| Storage.AddTable | storage/storage.h:71 | creating succeeds exactly when the name is new and every column type is INT, FLOAT or STRING; then only that empty table is added, with those columns; on failure nothing changes |
| Storage.AddLegacyTable | storage/storage.h:74 | creating without a schema succeeds exactly when the name is new; then only an empty table with no columns is added; on failure nothing changes |
| Storage.AppendRecord | storage/storage.h:76 | inserting succeeds exactly when the table exists and the record fits its columns; then the record follows the existing ones; the table names and columns never change, and on failure nothing changes |
| Storage.ReplaceRecord | storage/storage.h:79 | updating succeeds exactly when some record has the id; then the record count is unchanged and the new record is among them; table names and columns never change, and on failure nothing changes |
| Storage.RemoveRecord | storage/storage.h:80 | deleting succeeds exactly when some record has the id; then there is one record fewer; table names and columns never change, and on failure nothing changes |
| Storage.IdIndex | storage/storage.h:79-80 | the position of the first record whose field 0 is the id, or the row count when none is |
| Storage.FindId | storage/storage.h:79-80 | the scan for an id finds the first record with it |
| Storage.MutatorsAreLocal | storage/storage.h:71-80 | each mutator touches only the named table, never removes a table or changes its columns, and reports failure when tables stay as they were |
| Storage.AddTableShows | storage/storage.h:71 | a new table has the given columns and no records, and the tables stay well typed |
| Storage.AppendShows | storage/storage.h:76 | an inserted record is the table's last, after its previous records, and the tables stay well typed |
| Storage.RemoveShows | storage/storage.h:80 | deleting keeps every other record in order and the tables well typed |
| Storage.ReplaceShows | storage/storage.h:79 | updating replaces exactly the first record with the id, and keeps the tables well typed with a conforming record |
| Storage.IdIndexAppend | storage/storage.h:76-80 | appending a record after a row with the id does not move where the id is first found |
| Storage.AppendThenRemoveFirst | storage/storage.h:76-80 | inserting a record whose id a row already has, then deleting that id, removes the older row and keeps the new record last |
| Storage.InsertDeleteRoundTrip | storage/storage.h:76-80 | inserting a record with a fresh id and deleting that id restores the tables |
| Storage.DeleteReinsertMoves | storage/storage.h:76-80 | deleting a record and inserting it again keeps the records but moves it to the end |
| Storage.ReplaceBack | storage/storage.h:79 | updating a record keeping its id, then updating back, restores the tables |
| Storage.IdIndexReplace | storage/storage.h:79 | replacing the first row with the id by another row with the same id leaves it the first such row |
| Storage.ReplaceLosesId | storage/storage.h:79 | after an update that rewrites field 0 of the only row with the id, a second update of that id finds nothing |
| Storage.StorageEngine.constructor | storage/storage.h:67 | a new engine has no tables |
| Storage.StorageEngine.CreateTable | storage/storage.h:71 | the tables and the reply are those of `AddTable` |
| Storage.StorageEngine.CreateLegacyTable | storage/storage.h:74 | the tables and the reply are those of `AddLegacyTable` |
| Storage.StorageEngine.InsertRecord | storage/storage.h:76 | the tables and the reply are those of `AppendRecord` |
| Storage.StorageEngine.SelectAll | storage/storage.h:77 | the table's records in insertion order, or none for an unknown table |
| Storage.StorageEngine.UpdateRecord | storage/storage.h:79 | the tables and the reply are those of `ReplaceRecord` |
| Storage.StorageEngine.DeleteRecord | storage/storage.h:80 | the tables and the reply are those of `RemoveRecord` |
| Storage.StorageEngine.GetTableColumns | storage/storage.h:86 | the table's columns, or none for an unknown table |
| Query.CoerceAll | query/parser.cpp:217-235 | the record is built exactly when every value reads as its column's type; field i is value i read that way |
| Query.ColumnIndex | query/parser.cpp:314-320 | the first column whose upper-cased name matches, or the column count when none does |
| Query.FindColumn | query/parser.cpp:437-443 | the column search stops at `ColumnIndex` |
| Query.ScanFrom | query/parser.cpp:450-451 | the first row with the id, with int ids before it; or no row with it; or a row whose field 0 is not an int |
| Query.ProbeId | query/parser.cpp:498-504 | the DELETE/UPDATE row scan gives `ScanFrom` from row 0 |
| Query.KeepSub | query/parser.cpp:338-394 | the rows a filter keeps are among the rows it was given, each at most as often |
| Query.RangeReply | query/parser.cpp:331-368 | the range branch either shows rows drawn from the table, each at most as often, or crashes on a non-numeric literal |
| Query.ScanReply | query/parser.cpp:370-394 | the scan branch either shows rows drawn from the table, each at most as often, or crashes on a non-numeric literal |
| Query.WhereReply | query/parser.cpp:307-394 | an unknown column is reported exactly when no column matches, and any rows shown are drawn from the table |
| Query.SelectReply | query/parser.cpp:254-411 | SELECT never replies with a bare success, only with rows or a failure, and any rows shown are drawn from the named table |
| Query.Where | query/parser.cpp:307-394 | the WHERE clause reports `WhereReply`: unknown column, a crash on a non-numeric literal, or the rows kept |
| Query.CellTest | query/parser.cpp:374-389 | one equality test: no answer exactly when the literal is not a number of the column's type, else whether the row passes |
| Query.EqualityScan | query/parser.cpp:370-394 | the scan reports `ScanReply`: the rows passing the equality test, in table order |
| Query.SortRows | query/parser.cpp:336 | the rows sorted by the column with the merge sort, as a sorted sequence |
| Query.CopyFrom | query/parser.cpp:351-353 | the rows from the found index to the end |
| Query.CopyBefore | query/parser.cpp:363-365 | the rows before the found index |
| Query.RangeFilter | query/parser.cpp:331-368 | the range branch reports `RangeReply`: the sorted rows that pass the operator |
| Query.KeepSuffix | query/parser.cpp:341-353 | when failing rows precede passing ones, the passing rows are the suffix from the bound |
| Query.KeepPrefix | query/parser.cpp:355-365 | when passing rows precede failing ones, the passing rows are the prefix before the bound |
| Query.UndoOutcome | query/parser.cpp:15-29 | UNDO on an empty stack fails and changes nothing; otherwise it moves the top action from the undo stack to the redo stack |
| Query.RedoOutcome | query/parser.cpp:34-47 | REDO on an empty stack fails and changes nothing; otherwise it pops the top redo action and pushes it on the undo stack only when running it succeeded |
| Query.ColumnDefsTyped | query/parser.cpp:107-130 | the column loop keeps the columns read so far and adds only columns whose type is INT, FLOAT or STRING, each a name token followed by its upper-cased type token |
| Query.ColumnDefsBadType | query/parser.cpp:120-124 | the column loop reports an invalid type only after a type token that is not INT, FLOAT or STRING |
| Query.CreateOutcome | query/parser.cpp:78-158 | a failing CREATE changes nothing; a successful one needs `CREATE TABLE`, adds exactly the new table name and pushes its logging action; the redo stack is untouched (the table's columns and empty rows are stated by `QueryFacts.CreateDone`) |
| Query.InsertOutcome | query/parser.cpp:163-249 | a failing INSERT changes nothing; a successful one needs `INSERT INTO t VALUES` on a table with columns, appends one record holding the VALUES read as their columns' types, one per column, and pushes the action deleting it; the redo stack is untouched |
| Query.UpdateOutcome | query/parser.cpp:418-475 | a failing UPDATE changes nothing; a successful one has exactly eight tokens, with SET, WHERE and ID in their places, keeps the row count and pushes the action restoring a row of the table; the redo stack is untouched |
| Query.DeleteOutcome | query/parser.cpp:480-518 | a failing DELETE changes nothing; a successful one has exactly six tokens, with FROM, WHERE and ID in their places, removes one row and pushes the action reinserting it; the redo stack is untouched |
| Query.Dispatch | query/parser.cpp:64-72 | a statement that does not succeed changes nothing; one that does pushes exactly one action; the redo stack is untouched |
| Query.Exec | query/parser.cpp:52-73 | any line other than UNDO and REDO leaves the redo stack empty, and no line grows the two stacks together by more than one action |
| Query.DeleteRunKeeps | query/parser.cpp:240-244 | running an INSERT's reversal keeps the tables well typed and their schemas unchanged |
| Query.ReinsertRunKeeps | query/parser.cpp:511-517 | running a DELETE's reversal keeps the tables well typed and their schemas unchanged |
| Query.RestoreRunKeeps | query/parser.cpp:463-467 | running an UPDATE's reversal with a fitting row keeps the tables well typed and their schemas unchanged |
| Query.RunKeepsValid | query/parser.cpp:27 | running a reversal action keeps the tables well typed and their schemas unchanged |
| Query.UndoRedoKeepValid | query/parser.cpp:15-47 | UNDO and REDO keep the invariant |
| Query.CreateKeepsValid | query/parser.cpp:78-158 | CREATE keeps the invariant |
| Query.InsertKeepsValid | query/parser.cpp:163-249 | INSERT keeps the invariant |
| Query.UpdateKeepsValid | query/parser.cpp:418-475 | UPDATE keeps the invariant; its reversal names an existing table and a conforming row |
| Query.DeleteKeepsValid | query/parser.cpp:480-518 | DELETE keeps the invariant |
| Query.DispatchKeepsValid | query/parser.cpp:64-72 | every handler keeps the invariant |
| Query.ExecKeepsValid | query/parser.cpp:52-73 | every command line keeps the invariant, whatever it reports |
| Query.Parser.constructor | query/parser.cpp:10 | a parser starts on its engine with both stacks empty |
| Query.Parser.Perform | query/parser.cpp:240-244 | running a reversal action changes the tables as `Run` says and reports the same fault |
| Query.Parser.Undo | query/parser.cpp:15-29 | the tables, stacks and reply are those of `UndoOutcome` |
| Query.Parser.Redo | query/parser.cpp:34-47 | the tables, stacks and reply are those of `RedoOutcome` |
| Query.Parser.HandleCreate | query/parser.cpp:78-158 | the tables, stacks and reply are those of `CreateOutcome` |
| Query.ReadValues | query/parser.cpp:187-208 | the values read are `ValueTokens`: the tokens up to the end, `;` or the closing `)`, with the commas dropped |
| Query.BuildRecord | query/parser.cpp:215-235 | the record built is `CoerceAll`: one field per column read as its type, or no record when a value does not read |
| Query.Parser.HandleInsert | query/parser.cpp:163-249 | the tables, stacks and reply are those of `InsertOutcome` |
| Query.Parser.HandleSelect | query/parser.cpp:254-411 | the reply is `SelectReply` on the current tables, and nothing changes |
| Query.Parser.HandleUpdate | query/parser.cpp:418-475 | the tables, stacks and reply are those of `UpdateOutcome` |
| Query.Parser.HandleDelete | query/parser.cpp:480-518 | the tables, stacks and reply are those of `DeleteOutcome` |
| Query.Parser.ParseAndExecute | query/parser.cpp:52-73 | the tables, stacks and reply are those of `Exec`, and the invariant still holds |
| QueryFacts.KeepMembers | query/parser.cpp:338-394 | a row is shown exactly when it is a table row that passes the test |
| QueryFacts.KeepPerm | query/parser.cpp:336-368 | filtering after sorting keeps the same rows, as often, as filtering the table |
| QueryFacts.KeepSorted | query/parser.cpp:336-368 | the rows kept from the sorted rows are still sorted |
| QueryFacts.RangeSelect | query/parser.cpp:331-368 | a range SELECT shows exactly the table rows satisfying the operator, as often as in the table, sorted by the column |
| QueryFacts.RangeOperators | query/parser.cpp:341-365 | `>` keeps rows above the literal, `>=` rows not below it, `<` rows below it, `<=` rows not above it |
| QueryFacts.ScanOtherOperator | query/parser.cpp:370-394 | in the scan branch, an operator other than `=` (such as `!=`) shows no row |
| QueryFacts.ScanEquals | query/parser.cpp:376-389 | an INT or STRING equality SELECT shows exactly the rows whose field equals the literal |
| QueryFacts.ScanFindsFirst | query/parser.cpp:450-451 | the handlers' scan finds the same row the engine updates or deletes, and when it finds no row neither does the engine |
| QueryFacts.DispatchStacks | query/parser.cpp:64-72 | a statement that does not succeed changes nothing; one that does pushes one action; none touches the redo stack |
| QueryFacts.OtherLinesClearRedo | query/parser.cpp:58 | any line other than UNDO and REDO leaves the redo stack empty, and changes nothing else unless it succeeds |
| QueryFacts.UndoThenRedo | query/parser.cpp:15-47 | UNDO then REDO puts the action back on the undo stack and runs the reversal a second time |
| QueryFacts.InsertPushes | query/parser.cpp:237-244 | a successful INSERT appends a conforming record and pushes the action deleting by its field 0 |
| QueryFacts.InsertRepeatedIdThenUndo | query/parser.cpp:240-244 | when a row already has the inserted record's id, UNDO after INSERT deletes the first such row and keeps the inserted record, last |
| QueryFacts.InsertThenUndo | query/parser.cpp:240-244 | UNDO after INSERT restores the tables when field 0 is a fresh int, and crashes when it is not an int; REDO then leaves the row out |
| QueryFacts.DeleteThenUndo | query/parser.cpp:511-517 | UNDO after DELETE reinserts the row at the end: same records, another order |
| QueryFacts.UpdateDone | query/parser.cpp:418-470 | a successful UPDATE replaces the first row with the id by that row with the named field set, and pushes the action restoring the old row |
| QueryFacts.UndoTop | query/parser.cpp:15-29 | UNDO runs the top action on the tables, moves it to the redo stack, and reports its fault |
| QueryFacts.RedoTop | query/parser.cpp:34-47 | REDO runs the top redo action on the tables, pops it, pushes it back on the undo stack unless it faulted, and reports its fault |
| QueryFacts.InsertDone | query/parser.cpp:237-244 | a successful INSERT appends the record through the engine and pushes the action deleting by that record's field 0 |
| QueryFacts.DeleteDone | query/parser.cpp:490-517 | a successful DELETE removes the first row with the id through the engine and pushes the action reinserting exactly that row |
| QueryFacts.UpdateThenUndo | query/parser.cpp:450-467 | UPDATE replaces the first row with the id; UNDO restores the tables when the updated field is not field 0 |
| QueryFacts.UpdateKeyThenUndo | query/parser.cpp:463-466 | after an UPDATE that rewrites field 0, UNDO writes the old row over the first row that still has the old id, which comes after the updated one; when there is none, nothing changes and the update stays |
| QueryFacts.CreateDone | query/parser.cpp:78-158 | a successful CREATE had its `(`, read a column list of valid types, and added exactly one new table holding those columns in order and no rows, pushing its logging action |
| QueryFacts.CreateRejectsType | query/parser.cpp:120-124 | CREATE reports an invalid type only when a type token is not INT, FLOAT or STRING, and then changes nothing |
| QueryFacts.CreateThenUndo | query/parser.cpp:151-153 | UNDO after CREATE only logs: the new table stays |

## Left out

- Printing: messages, `printTable`, `printLine`, `printRecord`, `printError`, `printSuccess` and `println` become `Reply` values. `Shown` carries the rows SELECT prints.
- `handleGraph` (parser.cpp:523-568) and the BST/BFS/DFS search of SELECT (parser.cpp:264-294) need the graph engine and `getBST`, which are not part of this model. The model reports `GraphCommand` or `TreeSearch`; before `TreeSearch` it does model the `stoi` on the id.
- The structure type (AVL, BST, HASH, HEAP, or the USING suffix) is parsed and checked. It is then dropped: parser.cpp:148 calls a three-argument `createTable` that `storage.h` does not declare, so the model calls the two-argument one.
- `storage/storage.cpp` is not part of this model. That leaves out persistence to files, schema I/O (`loadSchema`, `saveSchema`, meta files), page file I/O, record serialization, and the page algorithms (`freeSpace`, `insertRawRecord`, `deleteSlot`, `readRawRecord`, page serialization).
- `Storage.AppendRecord`, `Storage.ReplaceRecord`, `Storage.RemoveRecord`, `Storage.AddTable`, `Storage.TypeMatches`: their meaning is assumed, because the engine's implementation is not part of this model. The assumptions are insertion order, appending at the end, refusing records that do not fit the columns, acting on the first record whose int field 0 is the id, and `typeStringMatchesValue` matching INT, FLOAT and STRING to the value of that type.
- `Storage.Page.constructor`: `Page` models only its fields, its constructor and `usedDataBytes`.
- `Storage.StorageEngine.UpdateRecord`: replaces the first record with the id without checking it against the table's columns. The implementation is not part of this model. UPDATE only writes values of the column's type, so the tables stay well typed either way.
- `Storage.Conforms`: a table created without columns accepts any record. INSERT refuses such tables before inserting.
- `Values.StoF`: only plain decimal text is read: white space, a sign, digits and one point. Exponents, hexadecimal, `inf` and `nan` are not modelled.
- `Values.StoF`: `float` values are exact rationals. Rounding to 32 bits is not modelled, for the stored values, the sort, the range comparisons or the FLOAT equality test within 0.0001.
- `Values.StoF`: `stof`'s `out_of_range` error on a literal beyond the range of `float` is not modelled. Examples are a 40-digit integer or a denormal such as `0.000…1`. INSERT of such a value succeeds in the model, while the code catches the error and reports a type mismatch.
- `Values.StoI`: the `out_of_range` and `invalid_argument` exceptions are both `None`.
- `Query.WhereReply`: when some row's field lacks the column's type, the reply is `Crashed(BadVariant)`. The model does not say which exception the C++ code would hit first. The invariant rules this case out.
- `Query.UpdateOutcome`: an empty record, or an UPDATE column past the record's end, is reported as a crash. The C++ code has undefined behaviour there, and under the invariant neither case arises. The same holds for the seven-token WHERE clause reading `tokens[7]`.
- `Sorting.Merge`: the three loops of `merge` are three methods (`MergeBoth`, `DrainLeft`, `DrainRight`), to keep each proof small. The copies into `L` and `R` are sequence slices.
- `Lexing.Next`, `Lexing.Lexer.NextToken`: the input is a sequence of characters, not of bytes. A non-ASCII character outside a string literal is one SYMBOL token in the model, but one SYMBOL per UTF-8 byte in the code. That changes token counts, and so the outcome of the positional checks of UPDATE (eight tokens) and DELETE (six tokens) on such input.
- Integer widths: token positions, sizes and stack depths are unbounded. INT fields are 32-bit only through `stoi`'s range check.
- `src/main.cpp`, `src/gui.cpp` and `storage/storage_gui_ext.cpp` are callers and are not modelled. The read–eval loop is one `ParseAndExecute` call per line.
