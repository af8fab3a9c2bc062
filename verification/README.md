# CppSQLite3 core, modelled in Dafny

This project models the core of CppSQLite3, a C++ wrapper around the SQLite
engine, and proves properties of the model. It covers three parts:

- **The binary-to-text codec.** `sqlite3_encode_binary` and
  `sqlite3_decode_binary` turn arbitrary bytes into text without 0x00 or the
  quote, and back. The `CppSQLite3Binary` wrapper keeps one buffer and
  converts it in place between raw and encoded form. The model covers the
  histogram, the choice of offset, the escapes, the terminator, in-place
  decoding and the 32-bit size arithmetic of `allocBuffer`.
- **The retry and rollback loops.** `CppSQLite3DB::execDML`,
  `CppSQLite3DB::execQuery`, `CppSQLite3Statement::execQuery`,
  `CppSQLite3Query::nextRow` and `CppSQLite3DB::backupOrRestore` each run
  one. The loop is driven by a sequence of engine answers. Each answer is a
  result code plus the autocommit flag `rollback()` would see. The loop
  yields the number of answers used, the answers after which a ROLLBACK was
  issued, and how it ended.
- **Single ownership of engine handles.** This covers copy, assignment and
  `finalize` for `CppSQLite3Query`, `CppSQLite3Statement` and
  `CppSQLite3Table`, and the `mbOwnVM` flag. Every operation reports which
  engine objects it handed back. The lemmas count those hand-backs over
  whole lifetimes. It also covers the row-major indexing of
  `CppSQLite3Table` snapshots and the inline guards of the header.

The SQLite engine is foreign code. Every answer it would give is a
parameter: result codes, handles, column names, change counts and
snapshots. When the supplied answers run out before a loop ends, the call's
outcome is `Pending`.

Modules, one per file:

- `Engine` (engine.dfy): result codes, exceptions, handles, and what a call did.
- `Codec` (codec.dfy): the encoding and decoding as functions, with the round trip and the alphabet.
- `CodecSize` (codec_size.dfy): the counting argument behind the size bound.
- `CodecRoutines` (codec_routines.dfy): the C routines as a method with loops and an in-place decoder.
- `BinaryBuffer` (binary.dfy): `CppSQLite3Binary`.
- `Retries` (retries.dfy): the loops.
- `Queries` (queries.dfy), `Statements` (statements.dfy), `Tables` (tables.dfy) and `Connections` (connections.dfy): the four classes.
- `Lifecycle` (lifecycle.dfy): handle lifetimes across the classes.

The encoder's comment (CppSQLite3.cpp:1356-1396) describes adding the offset
while encoding and subtracting it while decoding. The code does the reverse:
it subtracts at line 1454 and adds at line 1499. The model follows the code.
The round trip holds either way.

## Model

| member | source | states |
|---|---|---|
| Engine.ErrorCode | CppSQLite3.h:42 | The wrapper's own failures report code CPPSQLITE_ERROR = 10000. Engine failures report the engine's code. |
| Codec.BestFromIsLeastMinimiser | CppSQLite3.cpp:1441-1450 | Scanning the remaining candidates with strict improvement only keeps the first candidate that needs the fewest escapes. |
| Codec.BestOffsetIsLeastMinimiser | CppSQLite3.cpp:1440-1450 | The chosen offset needs the fewest escapes of all candidates 1..255 other than 0x27. It is the smallest such candidate. |
| Codec.LeastMinimiserUnique | CppSQLite3.cpp:1440-1450 | At most one offset is the smallest with the fewest escapes, so the choice is determined by the input. |
| Codec.SpecialShift | CppSQLite3.cpp:1454-1465 | Byte x needs an escape under offset e exactly when x is e, e+1 or e+39 (mod 256). |
| Codec.EscapesByCounts | CppSQLite3.cpp:1444 | The escape count for offset e is cnt[e] + cnt[e+1] + cnt[e+39] (mod 256), the sum the histogram scan uses. |
| Codec.EncodeBodyAppend | CppSQLite3.cpp:1453-1467 | Encoding a concatenation is the concatenation of the encodings. |
| Codec.EncodeBodyLength | CppSQLite3.cpp:1453-1467 | The body is one byte per input byte plus one per escape. |
| Codec.EncodeLength | CppSQLite3.cpp:1428-1469 | The returned length is 1 for empty input. Otherwise it is 1 + n + the number of escapes. |
| Codec.EncodeBodyTokenised | CppSQLite3.cpp:1453-1467 | The body is a run of single non-special bytes and escape pairs 0x01 followed by 1, 2 or 3. |
| Codec.TokenisedAlphabet | CppSQLite3.cpp:1332-1347 | Such a run holds neither 0x00 nor 0x27. |
| Codec.EncodeAlphabet | CppSQLite3.cpp:1428-1469 | The first byte is a valid offset (not 0, not 0x27). No 0x00 or 0x27 appears in the encoding. 0x01 appears only as an escape prefix. |
| Codec.ShiftInverse | CppSQLite3.cpp:1454-1499 | The decoder's addition undoes the encoder's subtraction modulo 256. |
| Codec.EncodeByteDecodes | CppSQLite3.cpp:1454-1499 | One encoded byte decodes back to that byte, whatever follows it. |
| Codec.DecodeEncodeBody | CppSQLite3.cpp:1453-1499 | Decoding an encoded body followed by anything yields the input bytes in front of whatever the rest decodes to. |
| Codec.RoundTrip | CppSQLite3.cpp:1428-1502 | For every byte sequence, including the empty one, decoding the encoding plus terminator gives the bytes back. The returned length is their number. Trailing buffer contents do not matter. |
| Codec.RoundTripNonEmpty | CppSQLite3.cpp:1451-1502 | A non-empty input's encoding, followed by any buffer that starts with 0x00, decodes to the input. |
| Codec.RoundTripWith | CppSQLite3.cpp:1482-1502 | The round trip holds for whichever offset byte heads the text. |
| Codec.EncodeNonEmpty | CppSQLite3.cpp:1451-1467 | A non-empty input's encoding is its offset followed by the encoded body. |
| Codec.BodyRoundTrip | CppSQLite3.cpp:1486-1499 | An encoded body directly followed by the terminator decodes to the input. |
| Codec.DecodeAfterOffset | CppSQLite3.cpp:1484-1486 | The decoder takes the first byte as the offset and decodes the rest. |
| Codec.DecodeRejectsBadEscape | CppSQLite3.cpp:1486-1496 | An escape prefix followed by anything but 1, 2 or 3 makes decoding fail (-1). This includes the terminator, whatever came before. |
| Codec.DecodeShrinks | CppSQLite3.cpp:1472-1481 | The output is shorter than the input, as the decoder's comment says. |
| CodecSize.EscapingOffsets | CppSQLite3.cpp:1405-1407 | Each byte value forces an escape under exactly three offsets. |
| CodecSize.SumEscapesBound | CppSQLite3.cpp:1420-1422 | Summed over all offsets, the escapes number at most 3n. |
| CodecSize.MinimiserFewEscapes | CppSQLite3.cpp:1420-1422 | The least escape count over the 254 candidates is at most 3n/254. |
| CodecSize.FewEscapes | CppSQLite3.cpp:1420-1422 | The chosen offset needs at most 3n/254 escapes. |
| CodecSize.OffsetAssigned | CppSQLite3.cpp:1439-1450 | For n >= 1 some candidate needs fewer than n escapes, so `e` is always assigned before it is written. |
| CodecSize.EncodeSizeBound | CppSQLite3.cpp:1419-1422 | The encoding plus its terminator fits in 2 + (257n)/254 bytes. |
| CodecRoutines.Histogram | CppSQLite3.cpp:1436-1439 | Cell v of the histogram is the number of occurrences of v in the input. |
| CodecRoutines.ChooseOffset | CppSQLite3.cpp:1440-1450 | The scan with its early exit on 0 returns the least minimiser. Its escape count is below n. |
| CodecRoutines.EmitByte | CppSQLite3.cpp:1454-1465 | One input byte becomes its shifted value, or an escape pair. |
| CodecRoutines.EncodeBinary | CppSQLite3.cpp:1428-1469 | The routine writes exactly the encoding followed by 0x00. It returns the length without the terminator. |
| CodecRoutines.DecodeFrom | CppSQLite3.cpp:1482-1502 | The decoding loop keeps the write index below the read index, keeps the buffer's length and returns a length below it. |
| CodecRoutines.DecodeFromDecodes | CppSQLite3.cpp:1482-1502 | Decoding in place, with the write index kept below the read index, leaves the bytes before the write start unchanged. The result is -1 exactly when the text is malformed. Otherwise the decoded bytes are written from the write start and the returned length is their number. |
| CodecRoutines.DecodeInPlace | CppSQLite3.cpp:1482-1502 | Decoding a buffer onto itself returns the decoded length (or -1), and the buffer then starts with the decoded bytes. |
| BinaryBuffer.Clear | CppSQLite3.cpp:276-284 | The buffer is freed. The lengths are reset only when there was a buffer. The encoded flag is kept. |
| BinaryBuffer.ClearIdempotent | CppSQLite3.cpp:276-284 | Clearing twice is clearing once. |
| BinaryBuffer.Int32 | CppSQLite3.cpp:263 | A C `int` result is the value congruent modulo 2^32 in [-2^31, 2^31). |
| BinaryBuffer.CDiv | CppSQLite3.cpp:263 | C division truncates toward zero. |
| BinaryBuffer.AllocLenAsWrittenAgrees | CppSQLite3.cpp:255-274 | While 257n fits in an `int`, the source's size is 3 + (257n)/254. |
| BinaryBuffer.AllocLenAsWrittenOverflows | CppSQLite3.cpp:255-274 | For n = 16711936 the size wraps to 4 bytes, too small for the data or its encoding. |
| BinaryBuffer.AllocLenFits | CppSQLite3.cpp:255-274 | The intended size holds the raw bytes and also their encoding with its terminator. |
| BinaryBuffer.AllocBuffer | CppSQLite3.cpp:255-274 | A fresh raw buffer of the intended size replaces the old one. |
| BinaryBuffer.SetBinary | CppSQLite3.cpp:197-201 | The buffer starts with the given bytes and is marked raw, with that length. |
| BinaryBuffer.SetEncoded | CppSQLite3.cpp:203-218 | The buffer holds the text and its terminator and is marked encoded. The binary length is reset only if a buffer was freed. |
| BinaryBuffer.GetEncoded | CppSQLite3.cpp:220-231 | An encoded buffer is returned as is. A raw one is encoded in place when the encoding fits, and then starts with the encoding and terminator. Otherwise the write runs past the buffer. |
| BinaryBuffer.GetBinary | CppSQLite3.cpp:233-247 | A raw buffer is returned as is. An encoded one is decoded in place. Malformed text throws CPPSQLITE_ERROR and leaves the length at -1. |
| BinaryBuffer.GetBinaryLength | CppSQLite3.cpp:249-253 | The length after `getBinary`, with the same failures. |
| BinaryBuffer.SetBinaryThenEncoded | CppSQLite3.cpp:197-231 | Raw bytes come back from `getEncoded` as their encoding plus terminator. |
| BinaryBuffer.SetBinaryEncodedDecoded | CppSQLite3.cpp:197-253 | Encoding and then decoding in the object gives back the bytes and their length. |
| BinaryBuffer.SetEncodedThenBinary | CppSQLite3.cpp:203-253 | The text of an encoding, set with `setEncoded`, decodes to the original bytes. |
| BinaryBuffer.BadTextThrows | CppSQLite3.cpp:233-247 | Text with a bad escape makes `getBinary` throw CPPSQLITE_ERROR. |
| Retries.RunFrom | CppSQLite3.cpp:1068-1098 | From any answer on, the loop uses only answers that exist. It ends with the code of the last answer it used, or runs out only after using them all. |
| Retries.Execute | CppSQLite3.cpp:1068-1098 | A whole loop uses at most the answers given and ends with the code of the last one it used. |
| Retries.RunFromOrdered | CppSQLite3.cpp:1068-1098 | The ROLLBACKs follow distinct answers the run used, in increasing order. |
| Retries.ExecuteCharacterised | CppSQLite3.cpp:1068-1098 | A loop consumes answers up to the first one it does not absorb and ends with that answer's code. It is Finished exactly on the loop's success codes. It rolls back after exactly the answers `RollsBackAt` names. The loops at lines 511-554, 854-893, 1101-1149 and 1224-1254 have the same shape. |
| Retries.RetryBound | CppSQLite3.cpp:1068-1098 | At most `mnMaxRetryCount` BUSY/LOCKED answers are retried, none when it is negative. Every loop but the backup asks at most `mnMaxRetryCount + 1` times. |
| Retries.NoRollbackOutsideRollingLoops | CppSQLite3.cpp:854-893 | The statement query loop and the backup loop never roll back. |
| Retries.NoRollbackInAutocommit | CppSQLite3.cpp:1290-1305 | `rollback()` issues nothing while the engine reports autocommit. |
| Retries.RollbackCauses | CppSQLite3.cpp:1068-1098 | Every ROLLBACK follows an answer seen with a transaction open, in a rolling loop. That answer is either a retried BUSY (never LOCKED) or the final fatal code the run failed with. |
| Retries.AlwaysBusy | CppSQLite3.cpp:1068-1098 | Under a lock that never clears, a loop asks exactly `mnMaxRetryCount + 1` times and fails with BUSY. With a transaction open, a rolling loop issues one ROLLBACK per retry and one before throwing. |
| Retries.UnlistedCodeFails | CppSQLite3.cpp:1139-1147 | A code the loops do not name, such as an extended code or MISUSE, ends every loop after one answer. It is never retried and never rolled back. |
| Queries.Make | CppSQLite3.cpp:310-319 | The query holds the given connection, handle, eof flag and columns, with the default retry settings. |
| Queries.MakeOwnsByDefault | CppSQLite3.h:120 | A query built without an ownership flag owns its handle. |
| Engine.CheckVM | CppSQLite3.h:346-351 | Throws CPPSQLITE_ERROR exactly when the statement handle is NULL. The statement's guard at CppSQLite3.h:374-379 is the same, so both classes use this one. |
| Queries.CheckFieldIndex | CppSQLite3.h:353-358 | Throws CPPSQLITE_ERROR exactly when nCol < 0 or nCol > mnCols - 1. |
| Queries.CopyAsWritten | CppSQLite3.cpp:298-308 | The handle moves to the copy and the source is nulled, so no handle is duplicated. The copy's connection is left uninitialised. |
| Queries.Copy | CppSQLite3.cpp:298-308 | The intended copy: the handle moves and the connection is copied too. |
| Queries.Finalize | CppSQLite3.cpp:556-566 | Hands back exactly the handles the query owns. A borrowed handle is kept. Throws the finalize code only when something was finalized. |
| Queries.FinalizeOnce | CppSQLite3.cpp:556-566 | Over two calls, at most one handle is handed back. |
| Queries.AssignAsWritten | CppSQLite3.cpp:329-345 | The destination's owned handle is finalized and the source's members move over. The destination keeps its old connection. |
| Queries.Assign | CppSQLite3.cpp:329-345 | The intended assignment: the connection moves with the handle. |
| Queries.SelfAssign | CppSQLite3.cpp:329-345 | `q = q` ends with a NULL handle. The handle is finalized if the query owned it. Nothing else changes. |
| Queries.SelfAssignLosesHandle | CppSQLite3.cpp:329-345 | A query assigned to itself loses its handle, whereas assigning an equal, separate query keeps it. |
| Queries.NumFields | CppSQLite3.cpp:347-351 | The column count, or NULL-VM CPPSQLITE_ERROR. |
| Queries.Eof | CppSQLite3.cpp:505-509 | The eof flag, or NULL-VM CPPSQLITE_ERROR. |
| Queries.FieldName | CppSQLite3.cpp:481-487 | Column n's name exactly for a live handle and a valid index. Otherwise the matching guard throws. |
| Queries.FindColumn | CppSQLite3.cpp:469-475 | The scan finds the first column with the name at or after a start index, or reports that none has it. |
| Queries.FieldIndex | CppSQLite3.cpp:463-479 | The first column whose name equals a non-empty name. Otherwise CPPSQLITE_ERROR. |
| Queries.RollbacksTo | CppSQLite3.cpp:578-593 | Every ROLLBACK of the query's loop goes to the query's own connection. |
| Queries.NextRowAsWritten | CppSQLite3.cpp:511-554 | DONE sets eof and ROW changes nothing. A failure rolls back as the loop says, finalizes the handle even when it is borrowed, nulls it, and throws the finalize code. |
| Queries.NextRow | CppSQLite3.cpp:511-554 | The intended `nextRow`: a failure hands back only a handle the query owns. |
| Queries.MovedFromIsDead | CppSQLite3.cpp:298-308 | Once the handle has moved away, every accessor of the source throws and its finalize hands back nothing. |
| Statements.Make | CppSQLite3.cpp:802-808 | The statement holds the connection and the handle, which may be NULL, with the default retry settings. |
| Statements.CheckDB | CppSQLite3.h:367-372 | Throws CPPSQLITE_ERROR exactly when the connection is NULL. |
| Statements.Copy | CppSQLite3.cpp:792-800 | The handle moves to the copy and the source is nulled. No handle is duplicated. |
| Statements.AssignAsWritten | CppSQLite3.cpp:818-825 | The connection and handle move over. The old handle is not finalized and the retry settings are not copied. |
| Statements.Assign | CppSQLite3.cpp:818-825 | The intended assignment hands back the old handle and copies every member. Handles are conserved. |
| Statements.SelfAssignAsWritten | CppSQLite3.cpp:818-825 | `s = s` ends with a NULL handle and finalizes nothing. |
| Statements.SelfAssignLeaks | CppSQLite3.cpp:818-825 | A statement assigned to itself loses its handle without handing it back. |
| Statements.Finalize | CppSQLite3.cpp:967-978 | Hands back the handle if there is one and nulls it. Throws a failing finalize code. |
| Statements.FinalizeIdempotent | CppSQLite3.cpp:967-978 | A second finalize changes and hands back nothing. |
| Statements.Reset | CppSQLite3.cpp:955-965 | Throws exactly when there is a handle and the reset code is not OK. |
| Statements.Bind | CppSQLite3.cpp:895-953 | Returns exactly for a live handle and an OK bind code. Otherwise throws NULL-VM or the bind code. |
| Statements.ExecDml | CppSQLite3.cpp:827-852 | A single step. DONE returns the change count unless the reset fails. Anything else throws the reset's code. The guards come first. |
| Statements.ExecQuery | CppSQLite3.cpp:854-893 | Returns exactly when the loop finishes. The query borrows the handle, has eof exactly for DONE, and has the statement's retry settings. A failure throws the reset's code. |
| Statements.ExecQueryNeverRollsBack | CppSQLite3.cpp:854-893 | The statement's loop never rolls back. |
| Tables.Make | CppSQLite3.cpp:615-621 | A table on the snapshot with the cursor on row 0. |
| Tables.Cell | CppSQLite3.cpp:666-676 | A read inside the array gives the cell's text. A NULL cell converted to `std::string` is undefined, and so is a read outside the array. |
| Tables.CheckResults | CppSQLite3.h:360-365 | Throws CPPSQLITE_ERROR exactly when the results pointer is NULL. |
| Tables.NumFields | CppSQLite3.cpp:654-658 | The column count, or a NULL-results throw. |
| Tables.NumRows | CppSQLite3.cpp:660-664 | The row count, or a NULL-results throw. |
| Tables.FieldValue | CppSQLite3.cpp:666-676 | Throws exactly when there are no results or f is outside 0..mnCols-1. Otherwise it reads the cell, which is undefined for a NULL cell. |
| Tables.FieldValueInBounds | CppSQLite3.cpp:666-676 | With at least one row, field f reads cell (mnCurrentRow + 1) * mnCols + f, inside the array and past the header. It never reads past the end. |
| Tables.FieldValueOfHeaderOnlyTable | CppSQLite3.cpp:666-676 | With no data rows the cursor stays on row 0 and `fieldValue` reads past the end of the array. |
| Tables.FindHeader | CppSQLite3.cpp:684-690 | The scan stops at the first header cell that has the name or is NULL. Otherwise it reports that every header names another column. |
| Tables.FindHeaderStopsAt | CppSQLite3.cpp:684-690 | The scan stops exactly at the first column that does not name another field. |
| Tables.FieldValueByName | CppSQLite3.cpp:678-692 | The current row's cell under the first header column equal to a non-empty name. It throws exactly when there is no such column. A NULL header reached first gives an undefined read. |
| Tables.ByNameAgreesWithByIndex | CppSQLite3.cpp:666-692 | Looking up a field by its (first) name reads the same as looking it up by index. |
| Tables.FieldIsNullAsWritten | CppSQLite3.cpp:748-752 | As written: true exactly for an empty text. A NULL cell is an undefined read. Failures are those of `fieldValue`. |
| Tables.FieldIsNull | CppSQLite3.cpp:748-752 | As intended: the guards of `fieldValue`, then true exactly when the cell's pointer is NULL. It never converts a NULL cell. |
| Tables.FieldIsNullAsWrittenConfuses | CppSQLite3.cpp:748-752 | On a one-cell table, the written test cannot report a NULL cell and reports an empty text as NULL. The intended test tells the two apart. |
| Tables.FieldIsNullMatchesValue | CppSQLite3.cpp:666-752 | With at least one row, the intended `fieldIsNull` is true exactly when `fieldValue` would convert a NULL cell. It is false exactly when `fieldValue` returns a text. |
| Tables.FieldName | CppSQLite3.cpp:760-769 | For valid c, header cell c, or an undefined read when that header is NULL. Otherwise the matching throw. It never reads past the end. |
| Tables.SetRow | CppSQLite3.cpp:771-780 | Moves the cursor exactly for rows in [0, mnRows - 1] and changes nothing else. Otherwise throws. |
| Tables.SetRowThenRead | CppSQLite3.cpp:771-780 | `setRow` keeps the table well formed, and `fieldValue` then reads the chosen row. |
| Tables.Copy | CppSQLite3.cpp:605-613 | The snapshot moves to the copy and the source is nulled. |
| Tables.Finalize | CppSQLite3.cpp:646-652 | Frees the snapshot if there is one and nulls the pointer. |
| Tables.FinalizeIdempotent | CppSQLite3.cpp:646-652 | A second finalize frees nothing. |
| Tables.Assign | CppSQLite3.cpp:631-644 | Frees the destination's snapshot and takes the source's. Snapshots are conserved. |
| Tables.SelfAssign | CppSQLite3.cpp:631-644 | `t = t` frees the table's own snapshot and ends with a NULL results pointer. The other members are kept. |
| Tables.SelfAssignEmpties | CppSQLite3.cpp:631-644 | A readable table assigned to itself can no longer be read. |
| Tables.MovedFromIsDead | CppSQLite3.cpp:605-613 | A table whose snapshot moved away or was freed cannot be read. |
| Connections.CheckDB | CppSQLite3.h:381-386 | Throws CPPSQLITE_ERROR exactly when the connection is NULL. |
| Connections.Close | CppSQLite3.cpp:1038-1044 | Closes an open connection and hands it back. A closed one is left alone. |
| Connections.CloseIdempotent | CppSQLite3.cpp:1038-1044 | A second close does nothing. |
| Connections.Open | CppSQLite3.cpp:1020-1036 | Succeeds exactly on OK. A failed open closes the handle the engine stored and throws the open code. |
| Connections.PreparedVM | CppSQLite3.cpp:1273-1289 | An OK prepare hands on a statement pointer, which is NULL exactly when the SQL held no statement. |
| Connections.CompileStatement | CppSQLite3.cpp:1046-1052 | A statement on the connection with the default retry settings, not the connection's. Its handle is NULL exactly when the SQL held no statement. Otherwise the guard or prepare code is thrown. |
| Connections.EmptyStatementUnusable | CppSQLite3.cpp:1046-1052 | A statement compiled from SQL without a statement throws the NULL-handle error on bind, `execDML` and `execQuery`. Finalizing it hands nothing back. |
| Connections.RollbacksTo | CppSQLite3.cpp:1290-1305 | Every ROLLBACK goes to this connection. |
| Connections.ExecDml | CppSQLite3.cpp:1062-1099 | Returns the change count exactly when the loop finishes. Otherwise throws the final code, after the loop's ROLLBACKs. |
| Connections.ExecDmlAlwaysBusy | CppSQLite3.cpp:1062-1099 | Under a lock that never clears, with a transaction open, `execDML` sends `mnMaxRetryCount + 1` ROLLBACKs and throws BUSY. |
| Connections.ExecQuery | CppSQLite3.cpp:1101-1149 | Returns exactly when the loop finishes. The query owns the handle, has eof exactly for DONE, and has the connection's retry settings. A failure finalizes the handle and throws the finalize code. SQL without a statement throws OK's code after a MISUSE step, with no ROLLBACK and nothing handed back. |
| Connections.GetTable | CppSQLite3.cpp:1162-1179 | A table on the engine's snapshot with the cursor on row 0, or the engine's code thrown. |
| Connections.Direction | CppSQLite3.cpp:1214-1215 | A backup copies this connection into the file's. A restore copies the other way. |
| Connections.BackupOrRestore | CppSQLite3.cpp:1202-1255 | Throws the open code, the final code of the WAL pragma's `execDML` (backup only), the `errcode` of the destination, or the finish code. The file's connection is closed on every ending. ROLLBACKs come only from the pragma and go to the file's connection. The step loop never rolls back. |
| Connections.BackupPragmaFailure | CppSQLite3.cpp:1210-1212 | A backup whose pragma fails at once throws that code, closes the file's connection and copies nothing. |
| Connections.OpenKeepsExclusive | CppSQLite3.h:319-320 | Opening on a handle nobody holds keeps connection handles exclusive. |
| Connections.CloseKeepsExclusive | CppSQLite3.h:319-320 | Closing keeps connection handles exclusive. |
| Connections.PrivateCopy | CppSQLite3.cpp:1000-1006 | The private copy constructor copies every member, the connection handle included. |
| Connections.PrivateCopyWouldShare | CppSQLite3.h:319-320 | The private copy would share the handle, and both destructors would close it. |
| Lifecycle.BorrowedHandleReleasedOnce | CppSQLite3.cpp:556-566 | A statement's query hands back nothing. The statement hands its handle back once. |
| Lifecycle.OwnedHandleReleasedOnce | CppSQLite3.cpp:511-566 | A connection's query owns its handle. A failed `nextRow` finalizes it once and the later `finalize` hands back nothing. |
| Lifecycle.BorrowedHandleFinalizedTwice | CppSQLite3.cpp:543-552 | As written, a failing `nextRow` on a statement's query and the statement's own finalize finalize the same handle twice. |
| Lifecycle.IoErrorFailsStep | CppSQLite3.cpp:517-552 | A reachability witness: a single I/O error makes the step loop fail, whatever the retry setting, so the double finalize can happen. |
| Lifecycle.BorrowedHandleFinalizedOnce | CppSQLite3.cpp:543-552 | With the intended `nextRow` the handle is finalized exactly once. |
| Lifecycle.StatementAssignLeaks | CppSQLite3.cpp:818-825 | As written, the assigned-to statement's old handle is neither finalized nor held by anyone. |
| Lifecycle.StatementAssignReleases | CppSQLite3.cpp:818-825 | The intended assignment hands back exactly the old handle and conserves handles. |
| Lifecycle.CopiedQueryRollsBackNowhere | CppSQLite3.cpp:298-308 | As written, a copied query sends its ROLLBACK through an uninitialised connection pointer. |
| Lifecycle.CopiedQueryRollsBackToItsConnection | CppSQLite3.cpp:298-308 | With the connection copied, the ROLLBACK reaches the query's connection. |
| Lifecycle.CopyKeepsRollbackTarget | CppSQLite3.cpp:298-308 | After the intended copy, every ROLLBACK goes to the original connection. |
| Lifecycle.ReturnedByCopy | CppSQLite3.cpp:1101-1149 | If `execQuery`'s returned local goes through the copy constructor as written, every ROLLBACK of the caller's query goes to an uninitialised pointer. With the intended copy they all reach the connection. |

## Left out

- Every `sqlite3_*` call (open, prepare, step, reset, finalize, bind, column access, get_table, backup, errmsg): the engine is foreign code. Its answers are parameters and the handles it returns are opaque numbers.
- `usleep` and `cout` in the retry loops and in `rollback()`: timing and console output have no bearing on the results.
- `interrupt` and `setBusyTimeout`: engine configuration. The busy timeout is only carried as a number. The WAL pragma of `backupOrRestore` is modelled as an `execDML` run, but what it configures is not.
- `atoi`/`atof` and the typed getters (`getIntField`, `getFloatField` and so on), and `getBlobField`: C library parsing, floating point and raw pointers.
- The query's direct column accessors (`fieldValue`, `fieldDataType`, `fieldDeclType`, `fieldIsNull` on `CppSQLite3Query`): each is one guard followed by one engine call. The guards are modelled.
- `CppSQLite3Buffer::format`, `tableExists`, `execScalar`, `lastRowId`, `errorCodeAsString` and the `ostringstream` formatting of exception messages: string building and lookups in numbering from sqlite3.h, which is not part of this model.
- The header's include guard: it has no run-time meaning.
- Failed allocations (`new` returning NULL) in `CppSQLite3Binary` and the table constructors: the model assumes memory is available.
- BinaryBuffer.AllocBuffer: takes a `nat`, so a negative length passed to `allocBuffer` is not modelled. It uses the corrected size; the size as written is AllocLenAsWritten.
- BinaryBuffer.AllocBuffer: the contents of a new buffer are unspecified in C++. The model fills them with zeros, and no property depends on them.
- BinaryBuffer.GetEncoded: an encoding that would run past the buffer is reported as an out-of-bounds access rather than modelled byte by byte. This can happen after `setEncoded` text is decoded, since the buffer then has only the text's size.
- Codec.DecodeBody: running out of bytes with no terminator is treated as malformed. The C routine would read past the buffer there, but on a terminated buffer that case cannot arise.
- Tables.FieldValueByName: requires a well-formed snapshot, one whose array has (rows + 1) * cols cells, as the engine delivers.
- Tables.FieldValue: a NULL cell is reported as an undefined read. What a given C++ library does with it (libstdc++ throws `logic_error`, others crash) is not modelled.
- Tables.FieldIsNull: models the intended pointer test. The code as written is Tables.FieldIsNullAsWritten.
- `fieldIsNull(name)` and the typed getters of `CppSQLite3Table` (CppSQLite3.cpp:694-758) are not modelled: each combines `fieldValue` and `fieldIsNull`, which are.
- Tables.FieldName: requires a well-formed snapshot, for the same reason.
- `CppSQLite3DB::operator=` (CppSQLite3.cpp:1013-1018) is private and never called. Only the private copy is modelled, to show why it must stay private.
- The `sqlite3_backup` object of `backupOrRestore` is not tracked as a handle: it is finished on every ending of the loop and never escapes the call.
- Connections.Open: `sqlite3_extended_result_codes(mpDB, 1)` (CppSQLite3.cpp:1033) is not a separate step. Its effect is modelled through the engine's answers: extended codes such as BUSY_SNAPSHOT, LOCKED_SHAREDCACHE and IOERR_READ arrive as `Other`, and the loops neither retry nor roll back for them (Retries.UnlistedCodeFails).
- ExecQuery: Connections.ExecQuery and Statements.ExecQuery assume the returned local is built in place (copy elision). A compiler that copies it instead goes through the Query copy constructor as written and drops `mpDB`. Lifecycle.ReturnedByCopy states what the caller then gets.
- Queries.AssignAsWritten: describes assignment between two separate objects. `q = q` is Queries.SelfAssign.
- Statements.AssignAsWritten: describes assignment between two separate objects. `s = s` is Statements.SelfAssignAsWritten.
- Tables.Assign: describes assignment between two separate objects. `t = t` is Tables.SelfAssign.
- Destructors are not separate members: each one calls the class's `finalize` or `close`, which are modelled.

## Findings

| source | as written | input that shows it | evidently intended | confidence | as-written member | corrected member |
|---|---|---|---|---|---|---|
| CppSQLite3.cpp:263 | `mnBufferLen = 3 + (257 * nLen) / 254` in 32-bit `int` | nLen = 16711936: 257 * nLen wraps to 256, giving a 4-byte buffer that `setBinary` then copies 16711936 bytes into | a buffer of 3 + (257 * nLen) / 254 bytes, computed without overflow | high; not executed | BinaryBuffer.AllocLenAsWrittenOverflows | BinaryBuffer.AllocLenFits |
| CppSQLite3.cpp:543-552 | the error path of `nextRow` finalizes `mpVM` without checking `mbOwnVM` | a statement's query (`mbOwnVM` false) whose step returns SQLITE_IOERR; the statement later finalizes the same handle | finalize only an owned handle, as `finalize()` does | high; not executed | Lifecycle.BorrowedHandleFinalizedTwice | Lifecycle.BorrowedHandleFinalizedOnce |
| CppSQLite3.cpp:818-825 | `CppSQLite3Statement::operator=` overwrites `mpVM` without finalizing it and does not copy the retry settings | assigning to a statement that holds a compiled handle | finalize the old handle and copy every member, as the Query and Table operators do | high; not executed | Lifecycle.StatementAssignLeaks | Lifecycle.StatementAssignReleases |
| CppSQLite3.cpp:298-308 | the Query copy constructor does not copy `mpDB`, and `operator=` (329-345) keeps the old one | copy a query, then step it through a BUSY with a transaction open: `rollback()` uses the uninitialised pointer. `execQuery` reaches this path too when its returned local is copied rather than elided (Lifecycle.ReturnedByCopy) | copy `mpDB` together with the handle | high; not executed | Lifecycle.CopiedQueryRollsBackNowhere | Lifecycle.CopiedQueryRollsBackToItsConnection |
| CppSQLite3.cpp:748-752 | `fieldIsNull` tests whether the converted `std::string` is empty | a cell holding SQL NULL: `sqlite3_get_table` stores a NULL pointer, and building a `std::string` from it is undefined. A cell holding the empty text is reported as NULL | test the cell's pointer for NULL | high; not executed | Tables.FieldIsNullAsWrittenConfuses | Tables.FieldIsNull |
