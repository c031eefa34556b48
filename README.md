# csvr string containers in Dafny

This project models `string_st.c` from csvr. That file is a small in-memory container library with three levels:

- **STRING_ST (a Text)** is a growable byte buffer. It has a length `len` and a capacity `mlen`.
- **VECTOR_ST (a Row)** is a growable array of Text pointers.
- **TABLE_ST (a Table)** is a growable array of Row pointers.

On top of these sit:

- constructors;
- single-byte and literal appends;
- deep copies;
- N-ary concatenation;
- accessors;
- `transpose`;
- the single-byte-delimiter tokenizer `parse_delimited_c`.

Each level is a Dafny `class` with the fields the C code updates in place:

- `Strings.Text` has `buf: array<byte>`, `len` and `mlen`.
- `Vectors.Row` has `slots: array<Text?>`, `len` and `mlen`.
- `Tables.Table` has `rows: array<Row?>`, `len` and `mlen`.

Each class has a ghost `Valid()` invariant and a ghost value `View()`:

- a Text reads as `Str(content, cap)`;
- a Row reads as `Vec(cells, cap)`, where an absent cell is `None`;
- a Table reads as `Tab(rows, cap)`.

Every method is proved against pure functions on these values:

- `AppendByteVal` and `AppendLitVal` for the Text appends;
- `AppendVal` and `AppendRowVal` for the Row and Table appends;
- `ConcatVal`, `Flatten` and `AllRows` for concatenation;
- `TransposeVal` for `transpose`;
- `Parse` for the tokenizer.

Lemmas then prove what the library promises about those functions.

Bytes are the newtype `CBytes.byte`. A C string is the prefix of a buffer before its first zero byte (`CBytes.CStr`). `DEFAULT_MEMORY_LEN` is `CBytes.DefaultMemoryLen`, which is 256.

The code behaves in ways that differ from the ideal, and the model follows the code:

- **Growth rules.** `s_append_c` grows a full Text by exactly 256. `s_append_l`, `v_append` and `t_append` grow to a tight fit.
- **`transpose` capacity.** `transpose` asks `new_table` for a size, but `new_table` takes none. The result's capacity is therefore `max(256, m)` after `m` appends.
- **Tokenizer losses.** When the tokenizer's 256-byte scratch buffer is full, the byte that arrives is dropped, and even a delimiter sets the continuation flag. The `append` flag ("Whether continue appending last str", string_st.c:425) and the continuing flush at string_st.c:429-430 show that a long field is meant to come back whole. The code instead returns a 300-byte delimiter-free field as 299 bytes, and the model follows the code (see Findings).

## Model

| member | source | states |
|---|---|---|
| CBytes.CStr | string_st.c:609-611 | the C string a buffer holds: its bytes before the first zero byte, which is what the strlen loop counts and the copy loop copies |
| CBytes.CLen | string_st.c:609-611 | the length of a C string is the index of the first zero byte, and every byte before it is non-zero |
| CBytes.CStrOfLiteral | string_st.c:427 | a literal followed by its terminator reads back, up to the first zero, as exactly that literal |
| CBytes.CStrOfPaddedPrefix | string_st.c:421-427 | a zero-padded buffer reads as the C string of its unpadded prefix |
| Strings.AppendByteVal | string_st.c:568-597 | s_append_c on values: the byte goes after the content, and the capacity grows by DEFAULT_MEMORY_LEN when `len == mlen - 1` and is otherwise kept |
| Strings.AppendLitVal | string_st.c:599-637 | s_append_l on values: the literal goes after the content, and the capacity becomes `len + n + 1` when `len + n >= mlen` and is otherwise kept |
| Strings.AppendEach | string_st.c:568-597 | a reference for the literal append: one s_append_c per byte of the literal |
| Strings.SumLen | string_st.c:645-651 | the total of the present sources' lengths, NULL sources skipped |
| Strings.Pieces | string_st.c:657-661 | the C strings of the present sources in argument order, as s_append_l reads them |
| Strings.Joined | string_st.c:657-661 | the contents of the present sources in argument order, all `len` bytes of each |
| Strings.AppendAll | string_st.c:657-661 | s_concat's second loop on values: s_append_l of every present source in argument order, NULL sources skipped |
| Strings.ConcatVal | string_st.c:639-665 | s_concat on values: an empty Text of capacity SumLen, then AppendAll of the sources |
| Strings.AppendByteSpec | string_st.c:568-597 | s_append_c keeps a Text terminated and adds exactly one byte; capacity grows by exactly 256 if and only if `len == mlen - 1`, and is unchanged otherwise |
| Strings.AppendLitSpec | string_st.c:599-637 | s_append_l keeps a Text terminated, keeps the old bytes and adds exactly the literal; capacity becomes `len + n + 1` when `len + n >= mlen`, and is unchanged when `len + n < mlen` |
| Strings.AppendEachAsLiteral | string_st.c:568-637 | appending a literal byte by byte with s_append_c gives the same content as one s_append_l |
| Strings.AppendEachCapacity | string_st.c:568-637 | byte-by-byte appends never end with less capacity than the tight fit of s_append_l |
| Strings.AppendAllContent | string_st.c:657-661 | s_concat's second loop leaves the present sources' C strings (their bytes before the first zero) in argument order after the initial content |
| Strings.ConcatExact | string_st.c:639-665 | when no present source holds a zero byte, s_concat holds the present sources' contents joined in order, its length is the sum of their lengths, and its capacity is that sum, plus one when any source is present |
| Strings.ConcatPrefix | string_st.c:645-661 | when no present source holds a zero byte, appending the sources to an empty Text with room reserved for their sum gives them joined; the capacity grows by one only when some source is present and the sum fills the reservation exactly |
| Strings.StrLen | string_st.c:609-611 | the strlen loop stops at the first zero byte |
| Strings.CopyAt | string_st.c:627-631 | the copy loop writes the literal at `olen` and leaves every other byte unchanged |
| Strings.Text.constructor | string_st.c:549-566 | new_empty_str_s gives an empty Text of capacity `sz` in a fresh zero-filled buffer |
| Strings.Text.Empty | string_st.c:540-547 | new_empty_str gives an empty, terminated Text of capacity 256 |
| Strings.Text.FromLiteral | string_st.c:518-527 | new_str is s_append_l of the literal onto an empty Text of capacity 256 |
| Strings.Text.FromLiteralSized | string_st.c:529-538 | new_str_s is s_append_l of the literal onto an empty Text of capacity `str_len + 1` |
| Strings.Text.AppendByte | string_st.c:568-597 | the new Text is AppendByteVal of the old one, it stays terminated, and the buffer is the old one or a fresh one |
| Strings.Text.AppendLiteral | string_st.c:599-637 | the new Text is AppendLitVal of the old one and the literal's C string, and it is terminated |
| Strings.Text.Reserve | string_st.c:616-625 | reallocation gives a fresh zero-filled buffer of exactly the new capacity that holds the old content |
| Strings.Text.Copy | string_st.c:667-682 | s_copy gives a fresh Text with equal length, capacity, content and whole buffer |
| Strings.Text.GetLen | string_st.c:697-702 | s_get_len is the content length |
| Strings.Text.GetMlen | string_st.c:704-709 | s_get_mlen is the capacity |
| Strings.Text.GetStrL | string_st.c:711-719 | the C string of s_get_str_l's buffer for a terminated Text equals the C string of the content |
| Strings.SumLens | string_st.c:645-651 | the first loop sums the lengths of the present sources |
| Strings.Concat | string_st.c:639-665 | s_concat returns a fresh Text equal to ConcatVal of the sources, which skips absent ones |
| Strings.CopyThenAppend | string_st.c:667-682 | appending to an s_copy copy leaves the source Text unchanged |
| Vectors.AppendVal | string_st.c:342-364 | v_append on values: the cell goes at index `len`, and the capacity becomes `len + 1` when that exceeds `mlen` and is otherwise kept |
| Vectors.Grown | string_st.c:342-364 | the capacity after `n` v_append or t_append calls on a container created with capacity `init`: `max(init, n)` |
| Vectors.AppendMany | string_st.c:342-364 | a sequence of v_append calls on values |
| Vectors.AppendRow | string_st.c:386-390 | the inner loop of v_concat on values: one source's cells appended in index order |
| Vectors.TotalLen | string_st.c:372-378 | the first loop of v_concat: the sum of the sources' lengths |
| Vectors.Flatten | string_st.c:386-390 | the cells of all sources in argument order and index order, as the second loop of v_concat appends them |
| Vectors.AppendSpec | string_st.c:342-364 | v_append adds exactly one cell at index `len` and keeps the earlier cells; capacity becomes `len + 1` when the Row was full and is unchanged otherwise |
| Vectors.AppendManyGrown | string_st.c:342-364 | after `n` appends to a Row created with capacity `c`, the capacity is `max(c, n)` |
| Vectors.AppendRowStep | string_st.c:388-389 | appending the next source cell continues the append of the earlier ones |
| Vectors.FlattenLength | string_st.c:372-390 | v_concat produces as many cells as the sum of the sources' lengths |
| Vectors.FlattenAt | string_st.c:386-390 | cell `j` of source `i` lands at index `len(src[0]) + ... + len(src[i-1]) + j` |
| Vectors.FlattenStep | string_st.c:386-390 | each source adds its cells after the cells of the earlier sources |
| Vectors.Row.constructor | string_st.c:324-340 | new_vector_s gives an empty Row of capacity `sz` |
| Vectors.Row.Default | string_st.c:314-322 | new_vector gives an empty Row of capacity 256 |
| Vectors.Row.Grow | string_st.c:348-357 | reallocating the slot array changes only the capacity |
| Vectors.Row.Append | string_st.c:342-364 | the new Row is AppendVal of the old one and the appended Text, an absent Text reading as an absent cell |
| Vectors.Row.Push | string_st.c:359-361 | a store into a Row that has room adds exactly that cell and keeps the capacity |
| Vectors.Row.Copy | string_st.c:396-414 | v_copy gives a fresh Row whose view equals the source's: same length, same capacity, equal cells |
| Vectors.Row.CopyCellInto | string_st.c:406-408 | one step of v_copy makes the copy hold the first `i + 1` cells |
| Vectors.Row.AppendCopyOf | string_st.c:388-389 | appending an s_copy of a source cell is AppendVal of that cell |
| Vectors.Row.AppendCopies | string_st.c:386-390 | appending copies of every cell of a source gives AppendRow of the two views |
| Vectors.Row.AppendToLast | string_st.c:429-430 | s_append_l onto the last token replaces exactly that cell with AppendLitVal of it |
| Vectors.Row.GetLen | string_st.c:478-484 | v_get_len is the number of cells |
| Vectors.Row.GetMlen | string_st.c:486-492 | v_get_mlen is the capacity |
| Vectors.Row.GetStr | string_st.c:494-504 | v_get_str is null past the length and for an absent cell, and otherwise the Text that the cell holds |
| Vectors.Row.GetStrL | string_st.c:506-516 | v_get_str_l is absent exactly when the cell is, and otherwise its C string equals the C string of the cell's content |
| Vectors.SumLens | string_st.c:372-378 | the first loop of v_concat sums the sources' lengths |
| Vectors.ConcatOne | string_st.c:387-389 | copying one more source extends the result by exactly its cells |
| Vectors.Concat | string_st.c:366-394 | v_concat returns a fresh Row holding the sources' cells in order, with capacity equal to the total length |
| Vectors.CopyThenAppend | string_st.c:396-414 | appending to a v_copy copy leaves the source Row unchanged |
| Tables.AppendRowVal | string_st.c:124-146 | t_append on values: the row goes at index `len`, and the capacity becomes `len + 1` when that exceeds `mlen` and is otherwise kept |
| Tables.AppendTab | string_st.c:168-172 | the inner loop of t_concat on values: one source's rows appended in index order |
| Tables.RowTotal | string_st.c:154-160 | the first loop of t_concat: the sum of the sources' lengths |
| Tables.AllRows | string_st.c:168-172 | the rows of all sources in argument order and index order, as the second loop of t_concat appends them |
| Tables.RowLen | string_st.c:207 | the length of a row, read through `src->vs[i]->len` |
| Tables.MaxLen | string_st.c:262-270 | the greatest row length, as computed by t_get_max_vector_len and the first loop of transpose |
| Tables.Column | string_st.c:216-222 | destination row `j` of transpose: the present cells at index `j` of the rows long enough to have one, in row order |
| Tables.ColumnRow | string_st.c:212-221 | destination row `j` as a Row: new_vector() followed by one v_append per cell of the column |
| Tables.Columns | string_st.c:210-222 | the first `m` destination rows of transpose |
| Tables.TransposeVal | string_st.c:198-227 | transpose on values: `max_length` destination rows, one per column, in a Table of capacity `max(256, max_length)` |
| Tables.Scatter | string_st.c:217-221 | one pass of the inner loop of transpose over a source row: each destination row `j` gets the present cell at `j` |
| Tables.ScatterBelow | string_st.c:217-221 | the same pass stopped before index `n` |
| Tables.AppendRowSpec | string_st.c:124-146 | t_append adds exactly one row at index `len` and keeps the earlier rows; capacity becomes `len + 1` when the Table was full and is unchanged otherwise |
| Tables.AppendTabStep | string_st.c:170-171 | appending the next source row continues the append of the earlier ones |
| Tables.AllRowsLength | string_st.c:154-172 | t_concat produces as many rows as the sum of the sources' lengths |
| Tables.AllRowsAt | string_st.c:168-172 | row `j` of source `i` lands after all rows of the earlier sources |
| Tables.AllRowsStep | string_st.c:168-172 | each source adds its rows after those of the earlier sources |
| Tables.MaxLenIsMax | string_st.c:262-270 | the greatest row length bounds every row's length and, unless it is 0, is reached by some row |
| Tables.ScatterBelowStep | string_st.c:217-221 | one more inner iteration of transpose appends at most the cell at that index |
| Tables.ScatterBelowAll | string_st.c:217 | the inner loop stops at whichever of `max_length` and the row length comes first, having handled every column |
| Tables.ColumnsStep | string_st.c:216-222 | one outer iteration of transpose turns the columns of the first `i` rows into those of the first `i + 1` |
| Tables.ColumnShape | string_st.c:217-220 | a destination row has no more cells than there are source rows, and none of them is absent |
| Tables.ColumnOfFull | string_st.c:216-222 | when every row has a present cell at `j`, destination row `j` is that column, element by element |
| Tables.ColumnStep | string_st.c:217-220 | one more source row adds its cell at `j` to column `j` when that cell exists and is present |
| Tables.TransposeRectangular | string_st.c:198-227 | when n >= 1 or k == 0, transpose of an n x k table is a k x n table whose cell (j, i) is the source's cell (i, j) |
| Tables.TransposeTwice | string_st.c:198-227 | transposing a rectangular table whose rows are non-empty twice gives back its rows, including when it has no rows |
| Tables.TransposeNoColumns | string_st.c:204-214 | an n x 0 table transposes to a Table without rows, so transposing it twice loses its n rows |
| Tables.JaggedMax | string_st.c:204-208 | for rows of lengths 3, 1 and 2 the greatest length is 3 |
| Tables.JaggedColumn | string_st.c:216-222 | for rows of lengths 3, 1 and 2, column `j` holds the cells at `j` of those rows long enough to have one |
| Tables.TransposeJagged | string_st.c:198-227 | rows of lengths 3, 1 and 2 transpose to rows of lengths 3, 2 and 1, with short rows skipped |
| Tables.Table.constructor | string_st.c:106-122 | new_table_s gives an empty Table of capacity `sz` |
| Tables.Table.Default | string_st.c:96-104 | new_table gives an empty Table of capacity 256 |
| Tables.Table.Grow | string_st.c:130-139 | reallocating the row array changes only the capacity |
| Tables.Table.Append | string_st.c:124-146 | the new Table is AppendRowVal of the old one and the appended Row |
| Tables.Table.Push | string_st.c:141-143 | a store into a Table that has room adds exactly that row and keeps the capacity |
| Tables.Table.AppendToRow | string_st.c:220 | v_append onto destination row `j` changes that row and no other |
| Tables.Table.Copy | string_st.c:178-196 | t_copy gives a fresh Table equal to the source: same length, same capacity, equal rows and cells |
| Tables.Table.CopyRowInto | string_st.c:188-190 | one step of t_copy makes the copy hold the first `i + 1` rows |
| Tables.Table.CopyRow | string_st.c:189 | v_copy of a row is a fresh Row equal to it |
| Tables.Table.AppendCopies | string_st.c:170-171 | appending copies of every row of a source gives AppendTab of the two views |
| Tables.Table.AppendCopyOf | string_st.c:171 | appending a v_copy of a source row is AppendRowVal of that row |
| Tables.Table.AppendEmptyRows | string_st.c:212-214 | `m` t_append calls of new_vector add `m` empty Rows of capacity 256 and grow the capacity to `max(mlen, len + m)` |
| Tables.Table.ScatterCopies | string_st.c:217-221 | the inner loop of transpose over one source row is Scatter of that row |
| Tables.Table.ScatterRowOf | string_st.c:216-222 | an outer iteration of transpose applies Scatter with source row `i` |
| Tables.Table.ScatterCell | string_st.c:218-220 | a present cell is appended to destination row `j`, an absent one is skipped, and nothing else changes |
| Tables.Table.MaxRowLen | string_st.c:262-270 | t_get_max_vector_len is MaxLen of the rows |
| Tables.Table.GetLen | string_st.c:246-252 | t_get_len is the number of rows |
| Tables.Table.GetMlen | string_st.c:254-260 | t_get_mlen is the capacity |
| Tables.Table.GetVector | string_st.c:288-296 | t_get_vector is null past the length and for an absent row, and otherwise the Row held there |
| Tables.Table.GetStr | string_st.c:272-286 | t_get_str is non-null exactly when the row and the cell exist and are present, and it is then that cell's Text |
| Tables.Table.GetStrL | string_st.c:298-312 | t_get_str_l is present exactly when the cell is, and then its C string equals the C string of the cell's content |
| Tables.SumLens | string_st.c:154-160 | the first loop of t_concat sums the sources' lengths |
| Tables.ConcatOne | string_st.c:169-171 | copying one more source extends the result by exactly its rows |
| Tables.Concat | string_st.c:148-176 | t_concat returns a fresh Table holding the sources' rows in order, with capacity equal to the total length |
| Tables.CopyThenAppend | string_st.c:178-196 | appending to a t_copy copy leaves the source Table unchanged |
| Tables.EmptyColumns | string_st.c:210-214 | the destination of transpose starts with `m` empty Rows and capacity `max(256, m)` |
| Tables.Transpose | string_st.c:198-227 | transpose returns a fresh Table equal to TransposeVal of the source: one row per column up to the greatest row length, each holding the present cells of that column in row order |
| Tokenizer.Parse | string_st.c:416-452 | parse_delimited_c on values: the loop from new_vector() and an empty scratch buffer, then the final flush at 443-446 |
| Tokenizer.Extend | string_st.c:428-441 | a reference for one input byte: a delimiter starts a new empty field, and any other byte extends the last field |
| Tokenizer.Split | string_st.c:416-452 | the fields between the delimiters: a reference definition, independent of the scratch buffer, that the tokenizer is compared against |
| Tokenizer.Join | string_st.c:416-452 | fields written out with the delimiter between neighbours: the inverse of Split |
| Tokenizer.Count | string_st.c:416-452 | the number of delimiters in the input |
| Tokenizer.Tokens | string_st.c:431-432 | the tokens new_str makes of short fields: each a Text of capacity 256 |
| Tokenizer.Keep | string_st.c:428-441 | a delimiter-free input as the loop keeps it: the last byte of every whole block of 256 is lost |
| Tokenizer.Block | string_st.c:428-438 | the Row after whole blocks of a delimiter-free input: one token of the kept bytes with a tight capacity |
| Tokenizer.StepFixed | string_st.c:428-441 | the corrected loop body: a delimiter ends the token and clears the flag, and a byte arriving when the scratch is full is kept as the first byte of the next scratch |
| Tokenizer.RunFixed | string_st.c:427-441 | the corrected loop over the input |
| Tokenizer.ParseFixed | string_st.c:416-452 | the corrected parse_delimited_c: the corrected loop, then the final flush |
| Tokenizer.Flush | string_st.c:429-432 | a flush that continues extends the last token in place, and otherwise appends one more token; earlier tokens are unchanged |
| Tokenizer.Step | string_st.c:428-441 | after any byte, a set continuation flag always has a last token to continue |
| Tokenizer.Run | string_st.c:427-441 | the loop never holds more than 255 bytes in the scratch buffer |
| Tokenizer.RunPrefix | string_st.c:427-441 | the loop over one more byte is one more Step |
| Tokenizer.SplitJoin | string_st.c:416-452 | the fields between the delimiters, joined with the delimiter, give back the input |
| Tokenizer.SplitFree | string_st.c:416-452 | no field contains the delimiter |
| Tokenizer.SplitCount | string_st.c:416-452 | there is one more field than there are delimiters |
| Tokenizer.SplitSnoc | string_st.c:428-441 | the fields after one more byte are the previous fields extended by that byte |
| Tokenizer.SplitAppendFree | string_st.c:440-441 | a delimiter-free run extends the last field by exactly that run |
| Tokenizer.SplitAfterDelimiter | string_st.c:428-436 | a delimiter then a delimiter-free run adds exactly that run as a new field |
| Tokenizer.JoinSplit | string_st.c:416-452 | splitting the join of delimiter-free fields gives back those fields |
| Tokenizer.FlushShort | string_st.c:431-432 | flushing a short last field appends it as a new token of capacity 256 |
| Tokenizer.RunShort | string_st.c:427-441 | while no field reaches 255 bytes, the loop has emitted one token per completed field, holds the current field, and never continues a token |
| Tokenizer.ParseShort | string_st.c:416-452 | when no field reaches 255 bytes, parse_delimited_c returns exactly the fields as tokens of capacity 256, delimiter count plus one of them, in a Row of capacity `max(256, n)` |
| Tokenizer.KeepLength | string_st.c:428-438 | of `q` whole blocks of 256 bytes and `r` more, the kept input has `255q + r` bytes |
| Tokenizer.KeepTail | string_st.c:440-441 | nothing after the last whole block is lost |
| Tokenizer.KeepBlock | string_st.c:428-438 | each whole block of 256 bytes keeps its first 255 |
| Tokenizer.StepInto | string_st.c:440-441 | a non-delimiter arriving when the scratch has room is appended to it |
| Tokenizer.StepFull | string_st.c:428-438 | any byte arriving when the scratch is full flushes it, is itself dropped, and sets the flag |
| Tokenizer.FlushFirst | string_st.c:431-432 | the first flush of a short scratch makes one token of capacity 256 |
| Tokenizer.FlushBlock | string_st.c:429-430 | continuing a single token whose capacity is one more than its length keeps that tight capacity |
| Tokenizer.RunFree | string_st.c:427-441 | after `q` whole blocks and `r` more delimiter-free bytes, the scratch holds the `r` bytes, and from the first whole block on the Row is one token of the kept bytes, with the flag set |
| Tokenizer.RunFreeFull | string_st.c:428-438 | the byte that ends a whole block flushes the scratch into the single token and is lost |
| Tokenizer.ParseFree | string_st.c:416-452 | delimiter-free input comes back as one token of length `n - n/256` that misses the last byte of every whole block of 256 bytes; its capacity is at least 256, and one more than its length beyond that |
| Tokenizer.Parse300 | string_st.c:428-438 | a 300-byte delimiter-free input comes back as a single 299-byte token, so not as its field |
| Tokenizer.RunMerge | string_st.c:428-441 | after 255 bytes, a delimiter and one more byte, the loop has set the flag and holds that byte to continue the first token |
| Tokenizer.ParseMerge | string_st.c:435 | 255 bytes, a delimiter and one more byte are two fields but come back as one merged token |
| Tokenizer.TextsFlush | string_st.c:429-432 | a flush extends the last token's content by the scratch, or adds the scratch as a new token |
| Tokenizer.StepFixedDelimiter | string_st.c:428-438 | in the corrected loop a delimiter starts a new empty field |
| Tokenizer.StepFixedFull | string_st.c:428-438 | in the corrected loop a byte arriving when the scratch is full continues the last field |
| Tokenizer.StepFixedInto | string_st.c:440-441 | in the corrected loop any other byte extends the last field |
| Tokenizer.StepFixedTexts | string_st.c:428-441 | one corrected step extends the tokens' contents exactly as one byte extends the fields |
| Tokenizer.ParseFixedSplits | string_st.c:416-452 | the corrected tokenizer returns exactly the fields between the delimiters, whatever their lengths |
| Tokenizer.ScratchLiteral | string_st.c:427-432 | a scratch buffer of `i` bytes and zero padding reads as a C string of those `i` bytes |
| Tokenizer.FlushAppend | string_st.c:429-430 | s_append_l of the scratch onto the last token performs a continuing Flush |
| Tokenizer.FlushNew | string_st.c:431-432 | v_append of new_str of the scratch performs a fresh Flush |
| Tokenizer.FlushScratch | string_st.c:429-434 | the flush, chosen by the flag, is Flush of the current state |
| Tokenizer.Consume | string_st.c:428-441 | one loop iteration over the scratch array performs exactly one Step |
| Tokenizer.ScanBytes | string_st.c:418-441 | the loop over the input's bytes reaches Run of the input |
| Tokenizer.ParseDelimited | string_st.c:416-452 | parse_delimited_c returns a fresh Row equal to Parse of the Text's C string |

## Left out

- Destructors: `del_str`, `del_vector` and `del_table` only free memory. They are not modelled, and neither is the `del_table(src)` at the end of `transpose`, so `Tables.Transpose` leaves its source intact.
- `del_str` reads `str->l` before it tests `str` for NULL (string_st.c:686-690). That is a defect of the destructor, which is not modelled.
- Allocation failure is not modelled: Dafny's `new` does not fail, so every NULL return after a failed `calloc` is left out.
- The `sizeof(sz)` factor of `calloc(sz, sizeof(sz))` at string_st.c:556 is not modelled: a Text's byte buffer has exactly `mlen` bytes. The extra slot of `calloc(len + 1, ...)` at string_st.c:131 and 349 is modelled: `Vectors.Row.Grow` and `Tables.Table.Grow` allocate `len + 1` slots and record `len` as the capacity.
- Null handles and the `STRING_FAILURE` sentinel are not modelled. The `s_get_*`, `v_get_*` and `t_get_*` accessors (all but `t_get_max_vector_len`), `s_append_c` and `s_append_l` (string_st.c:570-573, 601-604) and `check_table` (string_st.c:721-729) test for a NULL handle or a NULL array; `v_append` and `t_append` do not. Class references here are non-null, and every array exists while `Valid()` holds, so those paths cannot occur.
- Varargs: `s_concat`, `v_concat` and `t_concat` take a `seq` of sources in place of `va_list`.
- The unimplemented stubs are left out: `parse_delimited_f`, `parse_delimited_l`, `check_vector` and `check_string`. So is the FILE/stdio code around them.
- Integer widths are not modelled. `size_t` and the tokenizer's `int` counters are unbounded `nat`s, so overflow of a length sum is not captured.
- Strings.Text.AppendByte: requires `len < mlen`. With `mlen == 0`, the C code computes `mlen - 1` as the largest `size_t` and writes past its buffer, which this model does not capture.
- Strings.Concat: requires every present source to be terminated (`len < mlen`), because the C code reads each source's buffer as a C string.
- Vectors.Row.GetStr: requires `index < mlen`. The C code does not check the index, and reading past the slot array is undefined.
- Tables.Table.GetStr: requires `i < mlen` and `j` below the row's `mlen`. The C code checks neither index.
- Vectors.Row.GetStrL: requires `index < mlen`. The C code checks no index, and reading past the slot array is undefined.
- Tables.Table.GetVector: requires `index < mlen`. The C code checks no index, and reading past the row array is undefined.
- Tables.Table.GetStrL: requires `i < mlen` and `j` below the row's `mlen`. The C code checks neither index.
- Tables.Table.MaxRowLen: requires every row present, because t_get_max_vector_len (string_st.c:262-270) dereferences every row.
- Tokenizer.ParseDelimited: requires the input Text to be terminated (`len < mlen`), because string_st.c:421-427 reads its buffer as a C string.
- Vectors.Row.Copy: requires every cell present, because `v_copy` passes every slot to `s_copy`, which dereferences it. `Tables.Table.Copy`, `Vectors.Concat` and `Tables.Concat` require presence for the same reason.
- Tables.Transpose: requires every row present, because `transpose` reads `src->vs[i]->len` for every row (string_st.c:207). Absent cells are allowed: the C code skips them (string_st.c:218-219), and so does `TransposeVal`.
- Vectors.Row.Append: requires that the appended Text is not already held by the Row. The C code would store the same pointer twice, and the model does not capture that aliasing. `Tables.Table.Append` makes the same restriction for Rows.
- Tokenizer.ParseDelimited: models the loop as written, including both findings below. The corrected tokenizer `ParseFixed` is defined on values only and has no imperative counterpart.

## Findings

| source | as written | input that shows it | evidently intended | confidence | as-written member | corrected member |
|---|---|---|---|---|---|---|
| string_st.c:428-438 | a byte that arrives when the scratch buffer holds 255 bytes triggers the flush and is never stored | 300 bytes without the delimiter: one token of 299 bytes | the byte that triggers the flush starts the next scratch, so every field comes back whole | not executed | Tokenizer.Parse300 | Tokenizer.ParseFixedSplits |
| string_st.c:435 | a delimiter that arrives when the scratch is full sets the continuation flag, so the next field is appended to the previous token | 255 non-delimiter bytes, the delimiter, then one more byte: one merged token of 256 bytes instead of two tokens | a delimiter always ends the token and clears the flag | not executed | Tokenizer.ParseMerge | Tokenizer.ParseFixedSplits |
