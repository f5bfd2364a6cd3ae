# Fortune engine — a verified model

This project models the engine of a small "fortune cookie" program (`App/Fortune.cs`).

The program reads a directory of plain-text fortune files. In those files, entries are separated by lines holding a single `%`. Next to each source file it keeps a binary *sidecar* index, `<file>.datx`. The sidecar holds one 10-byte record per entry:

- an Int64 offset, followed by
- an Int16 length,
- both little-endian.

A sidecar is rebuilt whenever it is missing or older than its source. When asked for a fortune, the engine:

1. counts the entries of every source;
2. draws one index uniformly over all of them;
3. walks the sources to find the one the index falls in;
4. reads that entry's bytes through its record;
5. rewrites lone `\r` as `\r\n` and splits the text on `\r\n`;
6. when the last line starts with `--`, peels it off as the author.

The model follows the C# code step by step, quirks included:

- The scanner skips the first three bytes, which the byte-order-mark check has already read.
- The scanner only accepts a `%` whose preceding newline it read itself.
- The final break point is `(Length - 1, -1)`, so the last byte of every file is dropped.
- A file that ends with a `%` line the scanner recognises, terminated by `\n` or `\r\n`, gets a final record of length -1, and the reader crashes on it.
  A `%` line ended by a bare `\r` instead gets a final record of length 0, because the scanner backs off onto that `\r`.
- A `-- author` line after a bare `\n` is not attributed, because it stays part of the previous line.
  The exception is a line that holds only white space before the bare `\n` and follows a `\r\n` or a lone `\r`: `Trim` then strips the bare `\n`.

Modules:

- `Wrappers`: `Option` and `Result`.
- `Binary`: the Int64 and Int16 encodings, the 10-byte record and its round trip, and a `BinaryWriter` class.
- `Streams`: a `ByteStream` class standing in for `FileStream`, with `Position`, `ReadByte` and `Read`.
- `Scanner`: `FindNextFortuneBreak`, proved against a declarative definition of a delimiter.
- `IndexBuilder`: `IsBomfStart` and the rebuild loop, proved against the list of records it writes.
- `Text`: decoding, lone-`\r` normalisation, `Split` and `Join` on `\r\n`, `Trim`, and the attribution step.
- `Registry`: a `FileSystem` class and `GetUpdatedFortuneSources`, proved against a function of the old directory.
- `Selector`: `GetRandomFortuneIndexFrom` and the walk that maps a global index to a source and a local entry.
- `FortuneEngine`: the `Fortune` value, the entry reader (`GetFortuneTextFrom`) and `Get`.

.NET exceptions are modelled as `Err` values of `FortuneEngine.Fault`.

## Model

| member | source | states |
|---|---|---|
| Binary.LittleEndianRoundTrip | App/Fortune.cs:63-64 | Reading back the k little-endian bytes written for any n < 256^k gives n. |
| Binary.ToShort | App/Fortune.cs:64 | `(short) len` yields a 16-bit signed value congruent to len modulo 2^16, and equal to len when len fits a short. |
| Binary.Int64RoundTrip | App/Fortune.cs:149 | ReadInt64 of the bytes Write(long) produces gives back every Int64 value. |
| Binary.Int16RoundTrip | App/Fortune.cs:150 | ReadInt16 of the bytes Write(short) produces gives back every Int16 value. |
| Binary.AppendRecord | App/Fortune.cs:63-64 | Writing an offset and then a length appends exactly that record's 10-byte encoding. |
| Binary.EncodeRecordsAppend | App/Fortune.cs:59-67 | The encoding of two record lists one after the other is the concatenation of their encodings. |
| Binary.ReadRecordAt | App/Fortune.cs:148-150 | Reading at index*10 gives a record exactly when ten bytes remain there, and that record fits Int64/Int16. |
| Binary.RecordRoundTrip | App/Fortune.cs:148-150 | A record written and read back at offset 0 is unchanged. |
| Binary.EncodeRecordsSlice | App/Fortune.cs:148 | Bytes k*10 to k*10+10 of a sidecar are the encoding of its k-th record. |
| Binary.ReadRecordInSlice | App/Fortune.cs:148-150 | Reading record k looks at its own ten bytes and nothing else. |
| Binary.SidecarRoundTrip | App/Fortune.cs:147-150 | The k-th record written is the one read back at k*10; past the last record the read fails. |
| Binary.BinaryWriter.WriteInt64 | App/Fortune.cs:63 | Appends the eight little-endian two's-complement bytes of the value to what was written. |
| Binary.BinaryWriter.WriteInt16 | App/Fortune.cs:64 | Appends the two little-endian two's-complement bytes of the value to what was written. |
| Streams.ByteStream.ReadByte | App/Fortune.cs:101-113 | Returns the byte at Position and advances, or returns -1 at the end without moving. |
| Streams.ByteStream.Read | App/Fortune.cs:155 | Copies min(count, bytes left) bytes to the front of the buffer, advances by that many, leaves the rest of the buffer alone and returns the count copied. |
| Scanner.FirstDelimiter | App/Fortune.cs:100-129 | Finds the first `%` at or after k whose previous byte, read by this scan, ends a line and whose next byte ends a line; -1 when there is none. |
| Scanner.EndBefore | App/Fortune.cs:104-107 | An entry ends before a `\r\n` that precedes the `%` (k-2), and otherwise before the single `\r` or `\n` (k-1); it never ends before the scan's start. |
| Scanner.StartAfter | App/Fortune.cs:111-123 | The next entry starts past `%\n` or `%\r\n`. After `%\r` and another byte it backs off to that byte. When `%\r` ends the file, it backs off onto the `\r` itself. |
| Scanner.FindBreak | App/Fortune.cs:97-132 | The last break is (Length-1, -1). Any other break ends at or after the scan's start and at least two bytes before the next start, which lies within the file. |
| Scanner.BreakAtFirstDelimiter | App/Fortune.cs:103-124 | The scan breaks at the first delimiter it meets, with EndBefore and StartAfter of that `%`. |
| Scanner.FindNextFortuneBreak | App/Fortune.cs:97-132 | The byte-by-byte loop, with its two-byte lookback and its `continue`s, returns FindBreak of the starting position and leaves the stream where the reads stopped. |
| Scanner.FoundBreakEndsBeforeDelimiterLine | App/Fortune.cs:103-110 | Every break other than the last ends just before the newline that introduces a `%` line. |
| IndexBuilder.FirstScanPosition | App/Fortune.cs:80-86 | IsBomfStart leaves the stream at 3, or at the end of a file shorter than 3 bytes. |
| IndexBuilder.IsBomfStart | App/Fortune.cs:80-86 | True exactly when the file starts with EF BB BF; the stream then stands at FirstScanPosition. |
| IndexBuilder.WellFormedCons | App/Fortune.cs:59-67 | Putting the record of an entry that ends before a `%` line in front of well-formed later records keeps the list well formed. |
| IndexBuilder.RecordsFromShape | App/Fortune.cs:59-67 | Every record the loop writes has length -1..short.MaxValue and starts at or after the loop's start. Each entry ends at the file's end less one byte, or before a `%` line. Records come in file order, at least two bytes apart. |
| IndexBuilder.RecordsFromUnfold | App/Fortune.cs:59-67 | The records from a start are this break's record, if its length fits a short, then those from the next start, until the final break. |
| IndexBuilder.BuildStep | App/Fortune.cs:60-66 | One pass of the loop splits the records still to come into this pass's record and the records after the break. |
| IndexBuilder.WriteRecord | App/Fortune.cs:61-65 | Writes the offset and the `(short)` length when the length is at most short.MaxValue, and nothing otherwise. |
| IndexBuilder.BuildSidecar | App/Fortune.cs:53-67 | The rebuild writes exactly the encoding of BuildRecords of the source's bytes. |
| IndexBuilder.BuildRecordsShape | App/Fortune.cs:55-67 | Rebuilt records lie after the byte-order mark, if any, and are well formed. For a file shorter than 2^63 bytes each one fits Int64/Int16. |
| IndexBuilder.EmptyFileRecord | App/Fortune.cs:59-67 | An empty file gets the single record (0, -1). |
| IndexBuilder.TrailingDelimiterRecord | App/Fortune.cs:59-67 | "Hello\n%\n" gets the records (0,5) and (8,-1). |
| IndexBuilder.EarlyDelimiterIgnored | App/Fortune.cs:56-60 | A `%` line inside the first three bytes does not split: "x\n%\ny\n" is one entry (0,5). |
| IndexBuilder.BareCRDelimiterRecord | App/Fortune.cs:112-118 | "Hello\n%\r" gets the records (0,5) and (7,0): the scanner backs off onto the final `\r`, so the last record is empty rather than of length -1. |
| Text.DecodeBytes | App/Fortune.cs:156 | One character per byte, each with that byte's value. |
| Text.NormalizeNoLoneCR | App/Fortune.cs:157 | After the rewrite, every `\r` is followed by `\n`. |
| Text.NormalizeFixpoint | App/Fortune.cs:157 | Text without a lone `\r` is left as it is. |
| Text.NormalizeIdempotent | App/Fortune.cs:157 | Rewriting twice is the same as rewriting once. |
| Text.NormalizeOnlyInsertsLF | App/Fortune.cs:157 | The rewrite only inserts `\n`: every other character stays, in order. |
| Text.NormalizeAppendCR | App/Fortune.cs:157 | A trailing `\r` becomes a trailing `\r\n`. |
| Text.JoinSplit | App/Fortune.cs:158 | Joining the pieces of the split with `\r\n` gives back the text. |
| Text.SplitPiecesHaveNoCRLF | App/Fortune.cs:158 | No piece of the split contains `\r\n`. |
| Text.SplitPiecesHaveNoCR | App/Fortune.cs:157-158 | Split after the rewrite, no piece contains `\r` at all. |
| Text.JoinNoLoneCR | App/Fortune.cs:165 | Joining lines that contain no `\r` leaves no lone `\r`. |
| Text.JoinAppend | App/Fortune.cs:165 | Joining two non-empty line lists one after the other puts `\r\n` between their joins. |
| Text.SplitWithoutCR | App/Fortune.cs:158 | Text without `\r` splits into itself alone. |
| Text.SplitAtFirstCRLF | App/Fortune.cs:158 | A first piece without `\r`, then `\r\n`, splits off exactly that piece. |
| Text.SplitTrailingCRLF | App/Fortune.cs:158 | Text ending in `\r\n` splits into at least two pieces, the last of them empty. |
| Text.Trim | App/Fortune.cs:160-161 | Gives a slice of the string that neither starts nor ends with white space; everything dropped on either side is white space. |
| Text.BlankIffTrimsToEmpty | App/Fortune.cs:164 | A line is blank exactly when it trims to "". |
| Text.LastNonBlank | App/Fortune.cs:162-164 | Finds the last non-blank line before n, with only blank lines after it up to n; -1 when there is none. |
| Text.KeptLines | App/Fortune.cs:162-164 | The do-while keeps a proper, non-empty leading run of lines that ends with a non-blank line. Only blank lines lie between it and the marker line. |
| Text.DropAttributionLines | App/Fortune.cs:162-164 | The do-while loop returns exactly KeptLines. |
| Text.PeelAuthorSplits | App/Fortune.cs:160-165 | With a `--` last line, the author is the rest of that line, trimmed. The normalised text is the returned text, then `\r\n`, then only blank lines and the marker line. |
| Text.AttributeSplitsOffAuthor | App/Fortune.cs:157-166 | Without a `--` last line, the text is the normalised text and the author is "". With one, the PeelAuthorSplits decomposition holds of the whole text. |
| Text.AttributeNoLoneCR | App/Fortune.cs:157-166 | The text returned never contains a lone `\r`. |
| Text.AttributionOfTwoLineEntry | App/Fortune.cs:157-166 | "body\r\n-- name" yields the text "body" and the author "name", trimmed. |
| Text.BareLineFeedsKeepTheAuthorLine | App/Fortune.cs:157-166 | Text without `\r` is a single line. It is shown whole with no author, or the do-while overruns when the text begins with `--`. |
| Text.TrailingCRHidesAuthor | App/Fortune.cs:157-166 | Text ending in `\r` never yields an author and never overruns. |
| Registry.FileSystem.Write | App/Fortune.cs:54 | Creating the sidecar replaces that one file's content and write time. |
| Registry.SidecarNameIsSidecar | App/Fortune.cs:51 | file + ".datx" always ends with ".datx". |
| Registry.SidecarNamesDiffer | App/Fortune.cs:52-54 | Distinct sources have distinct sidecar names. |
| Registry.SourcePathsAreListed | App/Fortune.cs:50-51 | The result's keys are the listed files that do not end in ".datx", in listing order. |
| Registry.SourceCountsAreChecked | App/Fortune.cs:50-73 | Every source is a listed non-sidecar file. Its count is its checked sidecar's length divided by 10. |
| Registry.CountOfSource | App/Fortune.cs:68-73 | A stale source counts the records the rebuild writes. A fresh one counts its old sidecar's whole records. |
| Registry.RefreshedFrame | App/Fortune.cs:47-78 | The refresh touches no file other than the sidecars of the listed sources. |
| Registry.RefreshedSidecar | App/Fortune.cs:52-54 | A listed source's sidecar is rebuilt and stamped `now` exactly when it was missing or older than the source. Otherwise it is kept. |
| Registry.RefreshedKeepsSource | App/Fortune.cs:47-78 | Source files keep their bytes and write times. |
| Registry.NothingStaleNothingChanged | App/Fortune.cs:71-74 | With no stale source, nothing is written. |
| Registry.SameCountsSameSources | App/Fortune.cs:68-73 | The dictionary depends only on the counts. |
| Registry.RefreshTwice | App/Fortune.cs:52-54 | If no source was written after `now`, a second refresh at `now` changes nothing and reports the same counts. |
| Registry.GetUpdatedFortuneSources | App/Fortune.cs:47-78 | The loop returns SourcesOf(old directory) and leaves the directory Refreshed. |
| Selector.TotalWeight | App/Fortune.cs:135-138 | The loop adds up every count. |
| Selector.GetRandomFortuneIndexFrom | App/Fortune.cs:134-140 | The index drawn lies below the total of all counts, or is 0 when the total is 0. |
| Selector.Locate | App/Fortune.cs:143-170 | The walk lands, if at all, on an existing source and an entry below that source's count. |
| Selector.LocateFindsIffBelowTotal | App/Fortune.cs:143-173 | The walk finds a source exactly when the index is below the total. |
| Selector.LocateFound | App/Fortune.cs:143-170 | Every source passed over had a count no larger than what was left of the index. The entry is the index less the earlier counts. |
| Selector.LocateSpec | App/Fortune.cs:143-170 | The chosen source is the one whose span of the running total holds the index. |
| Selector.LocateGlobal | App/Fortune.cs:143-170 | The walk sends the global index of entry `local` of source p back to (p, local), so every entry can be drawn. |
| FortuneEngine.MakeFortune | App/Fortune.cs:36-39 | A null text becomes "No fortune for you today." and a null author becomes "". |
| FortuneEngine.EntryBytes | App/Fortune.cs:153-155 | The buffer has `len` bytes: the file's bytes from the offset as far as the file goes, then zeros. |
| FortuneEngine.EntryBytesInFile | App/Fortune.cs:153-155 | Inside the file, the buffer is exactly the named slice. |
| FortuneEngine.TakeAuthor | App/Fortune.cs:159-166 | The method computes PeelAuthor: the author line and trailing blanks removed, the rest rejoined. |
| FortuneEngine.PostProcess | App/Fortune.cs:156-167 | Decodes, normalises and attributes, failing with AttributionOverrun where the do-while runs off the array. |
| FortuneEngine.ReadEntryBytes | App/Fortune.cs:145-155 | Reads the record, then the bytes. Each exception is raised in the order the source raises it. |
| FortuneEngine.ReadEntry | App/Fortune.cs:145-167 | Reads the entry and post-processes it. |
| FortuneEngine.PassOver | App/Fortune.cs:169-170 | Subtracting a count no larger than the remaining index keeps the walk on track. |
| FortuneEngine.LandOn | App/Fortune.cs:144 | The walk stops at the first source whose count exceeds the remaining index. |
| FortuneEngine.GetFortuneTextFrom | App/Fortune.cs:142-174 | The walk-and-read loop yields FortuneFrom: the entry the walk lands on, or the default fortune. |
| FortuneEngine.Get | App/Fortune.cs:41-45 | The directory is refreshed, and the result is the fortune at the index drawn over the counts of the old directory. |
| FortuneEngine.PastTotalGivesDefault | App/Fortune.cs:142-173 | An index at or past the total yields ("No fortune for you today.", ""). |
| FortuneEngine.RefreshedSourceHasRecord | App/Fortune.cs:52-73 | After the refresh, every counted entry has a whole record in its source's sidecar. A stale source's sidecar is the rebuilt one. |
| FortuneEngine.RefreshedReadsNeverMissFiles | App/Fortune.cs:142-174 | After a refresh the reader never fails for a missing file or a short sidecar. Only a negative length, a negative offset or the attribution overrun remain. |
| FortuneEngine.BuiltRecordReadBack | App/Fortune.cs:59-67 | A rebuilt record reads back unchanged and lies inside the file. |
| FortuneEngine.EntryOfBuiltSidecar | App/Fortune.cs:147-155 | From a rebuilt sidecar, the reader takes exactly the bytes the record names, or fails with the overflow for length -1. |
| FortuneEngine.DrawnEntryOfRebuiltSource | App/Fortune.cs:142-155 | End to end: a draw landing on a stale source reads exactly the bytes of the entry the builder recorded. |
| FortuneEngine.TrailingDelimiterCrashesReader | App/Fortune.cs:153 | "Hello\n%\n" counts two entries, and drawing the second one raises the OverflowException of `new byte[-1]`. |
| FortuneEngine.TrailingCRHasNoAuthor | App/Fortune.cs:156-166 | An entry whose bytes end in `\r` gets no author. This covers the last entry of a CRLF file, whose final `\n` the last break drops. |

## Left out

- The user-interface files and the process entry point are not part of this model.
- Real I/O is replaced by an in-memory model:
  - the directory is a `map` from path to (bytes, write time) inside the `FileSystem` class;
  - `Directory.GetFiles` is the `names` parameter, which must list distinct existing files;
  - `DateTime.Now` as a sidecar's new write time is the `now` parameter;
  - file-open failures other than a missing file (sharing, permissions) are not modelled.
- `new Random().Next(maxValue)` is the `next` parameter, constrained to the contract of `Random.Next`. The distribution is not modelled.
- `Dictionary` enumeration order is modelled as listing order (a `seq`). .NET does not promise that order, but every property above holds for any fixed order.
- Concurrency, such as another process writing the directory during a run, is not modelled.
- `Encoding.UTF8.GetString` is modelled as one character per byte. Multi-byte UTF-8 sequences, invalid-byte replacement and a BOM inside an entry are not decoded.
- The `Regex` engine is replaced by a direct recursive definition of "`\r` not followed by `\n` becomes `\r\n`".
- `EndsWith` and `StartsWith` are modelled as ordinal, character-by-character comparisons. Culture-sensitive comparison is not modelled.
- Selector.GetRandomFortuneIndexFrom: `maxValue` and the counts are unbounded. The 32-bit overflow of `maxValue += file.Value` and of the `(int)` casts at lines 68 and 73 is not modelled.
- FortuneEngine.GetFortuneTextFrom: `index` is a `nat`, since `Random.Next` never returns a negative value. The 32-bit product `index * 10` at line 148 is unbounded.
- FortuneEngine.EntryBytesAt: a `FileStream.Read` is modelled as reading every byte available up to `len`. The real call may return fewer.
- FortuneEngine.PostProcess: the attribution do-while that runs off the front of the array is modelled as the error `AttributionOverrun`, not excluded by a precondition. The reader can reach it on an entry whose only non-blank line is the `--` line.
- The attribution is taken from the very last line after the split, as the code does, not from the last non-empty line.
  - A CRLF entry that ends with an empty line therefore never gets an author (`TrailingCRHidesAuthor`).
  - A `-- author` line after a bare `\n` is part of the same single line (`BareLineFeedsKeepTheAuthorLine`).
  - So an LF-only file such as "Another quote.\n-- Author Name\n%\n" yields no author.
- The index builder's `BinaryWriter.Write(long)` is modelled for offsets below 2^63. Files of 2^63 bytes or more are outside `BuildRecordsShape`'s encodability clause.
