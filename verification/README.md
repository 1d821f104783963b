# Verified models of LIBC/370

LIBC/370 is a C run-time library for MVS 3.8j on System/370.  This project models the parts
of it where the most can go wrong, in Dafny, and proves what they are for.
`dafny verify dfyconfig.toml` checks everything.

**Streams over record data sets** (`AccessMethod`, `StreamSpec`, `StreamFile`, `Doc`,
`StreamRefines`, `StreamRuns`, `StreamOpen`, `DocFacts`, `StreamTheorems`, `StreamTapes`,
`StreamSafety`).
A data set is a sequence of F, V or U records; `FILE` shows it as bytes.  `StreamSpec` has one
function per routine; `StreamFile.File` carries the routines out on a mutable FILE with its two
arrays and is proved equal to them, the mutual recursion of `__fgetc`, `__fpswt` and
`__fflush` included.  `Doc` is the simple form: records as the reader sees them, the line being
written, one position.  `StreamRuns.RunRefines` says that every run on the stream is a run on
the document, on a device that updates in place and on one that does not.  The access method is
a contract, records and rewrites that wait in its block buffer included, and what the device
answers is an arbitrary tape.  The refinement holds for every tape without failures, wherever blocks
end; `StreamTapes.LifeUntilReported` carries it to every tape, up to the first call that shows a
failure; `StreamSafety` says what holds beyond that.  What the document itself does is said byte
by byte in `DocFacts` and `StreamTheorems`: which bytes are accepted, where a seek goes, and what
comes back.

**printf** (`IntFormat`, `IntPrint`, `IntRead`, `HexFloat`, `HexPrint`, `HexRead`, `HexForm`,
`Decimal`, `DblScale`, `DblPrint`, `DblCvt`, `DblRead`, `DblForm`).  Each conversion is proved
against a reference that does not know the digit loops: a layout for the integers, rounding of the
whole fraction for `%a`, floor(v * 10**p + 1/2) for `%e`, `%f` and `%g`.  `HexRead` and `DblRead`
read whole texts back as C99's floating constants: `%a` without a precision gives the double
itself, the others a number within half a unit of the last place asked for; `IntRead` reads a
whole integer field back.  `IntRead`, `HexForm` and `DblForm` say what each text looks like from
the conversion, its flags and its precision alone.

**Compare and swap** (`Atomic`): any number of threads, one word, load / compute / CS steps.
`EveryEffect` says what each call of a run did to the word.

**SVC 99 requests** (`Dynreq`, `DynRequest`, `Dynalloc`, `DynWanted`): text units packed into a
fixed buffer, the decoder that reads them back, and what they say then, key by key.

**Floating point** (`Hfp`, `Sqrt`): long hexadecimal floating point with any rounding that gives
a representable number, fixes representable ones and keeps the order; the square root in exact
arithmetic.

**Parsers and canonical forms** (`Inet`, `InetAton`, `AtonForms`, `Gate`, `GateText`).

Where the code and what is said about it part, the model follows the code:

- Under UPDAT a record can be replaced only while it is the one read last, and reading the end
  takes that away: a byte written over the last record after the end has been read - after
  `fseek(fp, -2, SEEK_END)`, say - is accepted and never reaches the data set
  (`StreamTheorems.WriteAfterEndLost`); `StreamTheorems.PutReachesDisk` says exactly when.
- `fseek()` clears the error indicator while it works.  On a stream whose DCB could not be opened
  again that lets a seek forward or to the end read without a DCB (`StreamTheorems.SeekWithoutDcb`);
  `StreamSpec.SeekReaches` says exactly which seeks do.
- Trailing X'00' of a text record are stripped on reading.  V and U get them back on a rewrite; an
  F record gets blanks (`StreamTheorems.RewriteExact`, `StreamTheorems.TrailingNulGrows`).
- An empty binary record reads as one stale byte (`StreamTheorems.EmptyRecordRead`,
  `StreamTheorems.EmptyRecordMisread`); a flush in the middle of a binary F record pads it without
  counting (`StreamTheorems.FlushCountsExactly`, `StreamTheorems.FlushMiscounts`).
- The refinement therefore asks for no write over the last record once the end has been read, F
  text records that do not end in X'00' and no X'00' written to text, binary records that are not
  empty, and no flush inside a binary F record.
- A `+` mode that does not begin with r, w or a, such as "bw+", opens EXTEND at `filepos` 0
  (`StreamOpen.LeadingB`); `StreamOpen.OpenPlaced` says exactly which opens start at the right
  position.
- The gate calls two files "renumbered" also when a literal `@@F#` or `,F#` in one meets a
  reference in the other (`GateText.GateFooled`, `GateText.GateExact`).
- `+` and blank flags put a sign in front of `%u`, `%x`, `%o` and `%p` too, which C99 does not
  (`IntPrint.PlusUnsigned`); `IntPrint.StandardText` says exactly when the text is the standard's.
- `%e` and `%g` print two digits of the exponent, whatever it is (`DblRead.ExponentExact`,
  `DblRead.ThreeDigits`); no double has more (`DblRead.DoubleRange`).

## Model

| member | source | states |
|---|---|---|
| `AccessMethod.Aread` | src/stdio/@@aread.asm:27-324 | a read gives the next record and moves by one, the end only after the last record; under UPDAT a failing read can lose the rewrites of the block before it, and after the end or an error there is no record left to replace |
| `AccessMethod.Awrite` | src/stdio/@@awrite.asm:37-197 | UPDAT lays the data over the record read last, cut or filled with X'00' to its length, its RDW kept, and ignores the request when there is none; OUTPUT and EXTEND append; a write that fails loses records of its block, none from before this open, and is coded 12 or 8 |
| `AccessMethod.Survivors` | src/stdio/@@atrout.asm:38-98 | what a block that could not be written leaves: a prefix of the records, with all from before this open |
| `AccessMethod.Replace` | src/stdio/@@awrite.asm:39-51 | the record replaced keeps its length and stays a record of its format |
| `AccessMethod.Aopen` | src/stdio/@@fpopen.c:107-186 | only an OUTPUT open that succeeds changes the records: it empties the data set; a device that does not update in place refuses UPDAT |
| `AccessMethod.Aclose` | src/stdio/@@aclose.asm:25-43 | a refused CLOSE loses at most records written under this open, under UPDAT the rewrites that were waiting; an INPUT DCB loses none |
| `StreamRuns.RunRefines` | src/stdio/@@fpswt.c:50-262 | every allowed run of getc, putc, flush and seek on a `+` stream returns what the same run on a plain (records, unfinished line, position) document returns, and leaves the stream standing for the document, whether or not the device accepts UPDAT |
| `StreamTheorems.LifeRefines` | src/stdio/@@fpopn.c:131-144 | the same from fopen() on, for r+, w+ and a+ over every data set whose records survive a rewrite, on devices with and without UPDAT |
| `StreamRuns.StepRefines` | src/stdio/@@fpswt.c:50-262 | one call of any kind is one step of the document |
| `StreamTapes.UntilReported` | src/stdio/@@fpswt.c:50-262 | on every device, every run returns what the document returns call by call, up to a first call that sets the error flag, refuses a byte or falls back from UPDAT, or to its end |
| `StreamTapes.LifeUntilReported` | src/stdio/@@fpopn.c:131-144 | the same from an fopen() that succeeded |
| `StreamTapes.StepCalm` | src/stdio/@@fpswt.c:50-262 | a call whose device fails either shows it or does what it does on a device that does not fail |
| `StreamRefines.FgetcRefines` | src/stdio/@@fgetc.c:15-150 | getc returns the byte at the position and moves by one, or EOF at the end, having ended an unfinished record first |
| `StreamRefines.FputcRefines` | src/stdio/@@fputc.c:6-71 | putc writes over the byte at the position, appends at the end, or refuses and changes nothing; without UPDAT every byte before the end is refused |
| `StreamRefines.FputcRefused` | src/stdio/@@fputc.c:39-42 | where UPDAT was refused, a byte before the end is refused and the document is as it was |
| `StreamRefines.FpupcRefines` | src/stdio/@@fpswt.c:211-262 | in a UPDAT stream the byte at the position is written over as `DocFacts.PutcAccepts` says, through the dirty record; at the end the DCB turns to writing |
| `StreamRefines.FflushRefines` | src/stdio/@@fflush.c:40-146 | a flush ends the pending record or commits the dirty one; the position is then behind it |
| `StreamRefines.FseekRefines` | src/stdio/fseek.c:6-28 | a seek is the seek of the document, and one that fails sets EINVAL |
| `StreamRefines.PlusseekRefines` | src/stdio/@@fseek.c:166-241 | plusseek() is the seek of the document, whichever of skipping, stepping back and reopening it takes |
| `StreamSpec.SeekReaches` | src/stdio/@@fseek.c:17-32 | a seek reads without a DCB if and only if the stream is not open and the seek is to the end or forward; any other leaves a closed stream closed and in error, and returns 0 exactly when it is to where the stream is |
| `StreamSpec.WriterStays` | src/stdio/@@fseek.c:42-80 | a stream that only writes is sought to where it is, and to nowhere else; ESPIPE and nothing moved otherwise |
| `StreamRefines.TurnToReading` | src/stdio/@@fpswt.c:99-136 | a turn to reading ends the pending record, keeps every earlier one and stands at the position held before |
| `StreamRefines.TurnToWriting` | src/stdio/@@fpswt.c:99-136 | a turn to writing at the end keeps records and position |
| `StreamRefines.SwitchOnlyAtEnd` | src/stdio/@@fpswt.c:77-97 | a stream that does not append, open UPDAT or - where that was refused - INPUT: before the end the turn to writing is refused with records and position as they were; at the end it succeeds |
| `StreamRefines.CommitRefines` | src/stdio/@@fflush.c:157-197 | a dirty record handed back makes the volume read as the buffer laid over it did |
| `StreamRefines.HeldView` | src/stdio/@@fflush.c:157-197 | the record the access method stores for updrec() reads back as the buffer, on V and U with the X'00's it had behind |
| `StreamRefines.AppendRefines` | src/stdio/@@fputc.c:46-67 | a byte on a writing DCB joins the pending record, or starts a new one when that is full; a newline ends it |
| `StreamRefines.WritePendingRefines` | src/stdio/@@fflush.c:90-142 | the pending bytes become one record that reads back as they do, padded on F, one fill byte for an empty U record |
| `StreamRefines.SkipUntilRefines` | src/stdio/@@fpswt.c:172-184 | skipping reads to the position or to the end, and changes no byte |
| `StreamRefines.GetcReadingRefines` | src/stdio/@@fgetc.c:37-150 | on a reading DCB each call gives the next byte of the byte view |
| `StreamTheorems.TextRoundTrip` | src/stdio/@@fflush.c:90-270 | lines of any length written to a new w+ text stream, rewound and read, come back record for record and then EOF, on F, V and U, empty lines included, a line longer than a record as several; on V byte for byte |
| `StreamTheorems.BinaryRoundTrip` | src/stdio/@@fflush.c:90-270 | any bytes written to a new w+b stream are accepted one by one and, rewound and read, come back, on F with X'00' behind them to the end of the last record, and then EOF |
| `StreamTheorems.FputcAccepts` | src/stdio/@@fpswt.c:211-262 | over byte k of record i in a UPDAT stream: anything is stored in a binary record, in a text record anything but a newline in front of the last byte, the newline over the last byte and, on F alone, in front of it; the rest is refused with EOPNOTSUPP and nothing changed |
| `StreamTheorems.FseekArrives` | src/stdio/@@fseek.c:166-241 | fseek returns 0 exactly when its place is in the bytes there are or is the position itself, and is there then; -1 and EINVAL otherwise, a place past the end leaving the stream at the end; no byte changes |
| `StreamTheorems.NothingTruncated` | src/stdio/@@fpopen.c:107-124 | over every run no record there at the open of r+ or a+ is dropped or resized; a+ only ever extends |
| `StreamTheorems.FirstOpen` | src/stdio/@@fpopn.c:139-144 | r+ starts at byte 0, w+ empty, a+ with filepos equal to the length of the byte view |
| `StreamTheorems.FgetsRefines` | src/stdio/@@fgets.c:6-41 | fgets is the line reader of the document; a null pointer at once after EOF |
| `StreamTheorems.GetsBytes` | src/stdio/@@fgets.c:13-41 | a line is the bytes up to and with the next newline, as many as fit; null only when there is none |
| `StreamTheorems.RewriteExact` | src/stdio/@@awrite.asm:37-51 | a text record rewritten unchanged is the record it was if and only if it is not F or its data does not end in X'00' |
| `StreamTheorems.TrailingNulGrows` | src/stdio/@@fgetc.c:123-128 | an F record that ends in X'00', opened r+, written to at its first byte and flushed: the X'00' has become a blank and the line is longer |
| `StreamTheorems.FlushCountsExactly` | src/stdio/@@fflush.c:117-137 | after a flush filepos is the length of the byte view if and only if the flush did not pad a binary F record |
| `StreamTheorems.EmptyRecordRead` | src/stdio/@@fgetc.c:118-135 | reading a binary record returns its first byte and counts it if and only if it has one; an empty one counts a byte and returns what the buffer held before |
| `StreamTheorems.EmptyRecordMisread` | src/stdio/@@fgetc.c:118-135 | an empty V record in front of an A: the first byte read is X'00' |
| `StreamTheorems.FlushMiscounts` | src/stdio/@@fflush.c:117-137 | one byte and a flush on a w+b stream of 3-byte records: three bytes there, filepos 1 |
| `StreamTheorems.PutReachesDisk` | src/stdio/@@awrite.asm:37-41 | a byte written and flushed makes the records of the document if and only if it is not one put over the last record after the end was read, or changes nothing; the code returned is the document's either way |
| `StreamTheorems.SpentWrite` | src/stdio/@@aread.asm:320-322 | over the last record after the end was read: the write reports what the document does, and the flush leaves every record as it was |
| `StreamTheorems.WriteAfterEndLost` | src/stdio/@@awrite.asm:39-41 | r+ on one record, fseek(-4, SEEK_END), fputc, fflush: all succeed and the record is unchanged |
| `StreamTheorems.SeekWithoutDcb` | src/stdio/@@fpswt.c:117-127 | r+, a byte that cannot be appended because neither reopen succeeds, and a seek forward reads without a DCB, while one to byte 0 is answered |
| `StreamTheorems.ReopenRefused` | src/stdio/@@fpswt.c:117-127 | a turn to writing whose reopens both fail leaves the stream closed, in error and at its position |
| `DocFacts.PutcBytes` | src/stdio/@@fpswt.c:233-262 | a byte is refused if and only if the device does not update in place or it would change where a text record ends, and that changes nothing; an accepted one changes exactly the byte at the position, a newline in F blanks the rest of the record |
| `DocFacts.PutcAccepts` | src/stdio/@@fpswt.c:233-262 | the byte over byte k of record i is accepted if and only if the stream is binary, or it is no newline in front of the last byte, or a newline over the last byte, or a newline in front of it on F; what the record and the position are then, and that no other record changes |
| `DocFacts.PutcAtEnd` | src/stdio/@@fputc.c:46-67 | at the end, or on an append stream, every byte is accepted and comes behind all that was written; a newline ends the record |
| `DocFacts.TextRecord` | src/stdio/@@fflush.c:200-270 | a text record reads back as its line and a newline, behind blanks to LRECL on F, with one blank for an empty line on U |
| `DocFacts.FlushEnds` | src/stdio/@@fflush.c:40-146 | a flush ends the record being written, the position behind it, and changes nothing that would be read |
| `DocFacts.SeekArrives` | src/stdio/@@fseek.c:166-241 | from the start, the position or the end: 0 exactly for a place in the bytes or the position itself, which the position then is; where it is left otherwise |
| `DocFacts.OverwriteBytes` | src/stdio/@@fpswt.c:246-262 | writing over is refused exactly when it would change where a text record ends; else it touches one byte, or blanks up to the newline |
| `DocFacts.DocRunKeeps` | src/stdio/@@fpswt.c:211-262 | over every run each record keeps its length; only putc on a non-append stream changes one |
| `DocFacts.ReadOn` | src/stdio/@@fgetc.c:78-150 | n reads return the bytes from the position on, then EOF |
| `DocFacts.PutLines` | src/stdio/@@fputc.c:46-67 | lines written at the end become exactly their records, a line longer than a record as many as it takes |
| `DocFacts.ShortPieces` | src/stdio/@@fputc.c:46-67 | lines that fit are one record each |
| `DocFacts.VariableIsExact` | src/stdio/@@fflush.c:240-270 | V records read back the bytes written |
| `StreamSafety.FailFast` | src/stdio/@@fflush.c:49-74 | once the error flag is set no sequence of calls reads or changes the data set or asks the device anything; pending and dirty data is never written |
| `StreamSafety.RunKeeps` | src/stdio/@@fpswt.c:50-184 | whatever the device answers, no run - short of a seek that reads without a DCB - drops or resizes a secure record, and an append stream changes none; a run without putc makes no record anything it could not have become already: itself, itself before a waiting rewrite, or itself as the buffer holds it |
| `StreamSafety.RunUnchanged` | src/stdio/@@fpswt.c:50-184 | in a run without putc and without such a seek, on any device, every secure record but the dirty one is unchanged when no rewrite waits |
| `StreamSafety.FpswtKeeps` | src/stdio/@@fpswt.c:50-136 | the records before a switch that succeeds, the dirty one as the buffer holds it, are a prefix of those after; when it fails the secure records keep their place and length, and where nothing waited their contents |
| `StreamOpen.ParseMode` | src/stdio/@@fpmode.c:7-90 | the loop over the mode string gives the flags of the mode and of its options record, bsam and rlse, or refuses it |
| `StreamOpen.DocumentedModes` | src/stdio/@@fpmode.c:7-90 | r, w or a with b and + in either order and options behind a comma: which of reading, writing, appending, binary, POSEND, EXTEND and DCBOUT each sets; refused exactly for + with record |
| `StreamOpen.PlusModes` | src/stdio/@@fpmode.c:63-83 | of the `+` modes only one beginning with w can open OUTPUT; only a+ starts at an uncounted end |
| `StreamOpen.OpenExtends` | src/stdio/@@fpopen.c:207-221 | after the first open every output open of a `+` stream is EXTEND, whatever the device answered |
| `StreamOpen.OpenAppend` | src/stdio/@@fpopn.c:139-144 | a+ knows its position: the length of everything there |
| `StreamOpen.OpenOutput` | src/stdio/@@fpopen.c:111-122 | w+ starts with an empty data set |
| `StreamOpen.OpenUpdate` | src/stdio/@@fpopen.c:111-122 | r+ starts at the first byte of what is there |
| `StreamOpen.OpenPlaced` | src/stdio/@@fpmode.c:72-83 | a `+` mode opens at the position its bytes go to if and only if it is not an EXTEND open of a mode that does not append, or the data set shows no byte |
| `StreamOpen.LeadingB` | src/stdio/@@fpmode.c:75-83 | "bw+" is accepted and opens EXTEND, not OUTPUT |
| `StreamFile.File.constructor` | src/stdio/@@fpopn.c:60-131 | a FILE that is not open yet |
| `StreamFile.File.Fgetc` | src/stdio/@@fgetc.c:15-150 | __fgetc on the mutable FILE; the recursion through __fpswt ends |
| `StreamFile.File.GetcBody` | src/stdio/@@fgetc.c:49-150 | the body of __fgetc once the DCB reads |
| `StreamFile.File.ReadRecord` | src/stdio/@@fgetc.c:84-150 | one record into the buffer, or EOF, or the error flag |
| `StreamFile.File.Fputc` | src/stdio/@@fputc.c:6-71 | __fputc on the mutable FILE |
| `StreamFile.File.Fpupc` | src/stdio/@@fpswt.c:211-262 | __fpupc on the mutable FILE |
| `StreamFile.File.WriteOver` | src/stdio/@@fpswt.c:236-262 | the byte, the newline and the refusals inside a record |
| `StreamFile.File.Fpswt` | src/stdio/@@fpswt.c:50-136 | __fpswt on the mutable FILE, for the turns its callers ask for |
| `StreamFile.File.Turn` | src/stdio/@@fpswt.c:99-136 | flush, reopen, reposition, and the recovery when the reopen fails |
| `StreamFile.File.Redcb` | src/stdio/@@fpswt.c:142-168 | redcb: close, reset, reopen |
| `StreamFile.File.Skipto` | src/stdio/@@fpswt.c:172-184 | skipto and its loops |
| `StreamFile.File.Flushrec` | src/stdio/@@fflush.c:40-146 | flushrec on the mutable FILE |
| `StreamFile.File.Updrec` | src/stdio/@@fflush.c:157-197 | updrec: the record rebuilt in asmbuf and written back |
| `StreamFile.File.Fixflush` | src/stdio/@@fflush.c:200-237 | an F record padded to LRECL |
| `StreamFile.File.Varflush` | src/stdio/@@fflush.c:240-270 | a V record behind its RDW |
| `StreamFile.File.Fpopen` | src/stdio/@@fpopen.c:73-282 | __fpopen up to the buffer: open mode, UPDAT fallback, device check; every failure leaves the stream shut |
| `StreamFile.File.OpenDcb` | src/stdio/@@fpopen.c:107-186 | the DCB opened, INPUT where UPDAT is refused |
| `StreamFile.File.GetBuffer` | src/stdio/@@fpopen.c:240-272 | a cleared buffer of the right size |
| `StreamFile.File.Fgets` | src/stdio/@@fgets.c:6-41 | __fgets into the caller's array, NUL behind the line |
| `StreamFile.File.Fseek` | src/stdio/fseek.c:6-28 | fseek of a `+` stream on the mutable FILE, open or not: indicators cleared, sought, error put back |
| `StreamFile.File.Plusseek` | src/stdio/@@fseek.c:166-241 | plusseek on the mutable FILE |
| `StreamFile.File.PlusseekShut` | src/stdio/@@fseek.c:182-240 | plusseek on a FILE that is not open: where it stays, errno and the code, when it does not read |
| `Atomic.Linearizable` | src/s370/@@swap.c:32-39 | any interleaving of any number of the six operations is linearizable at each call's last CS: the returned values chain from the first value to the last, in real-time order |
| `Atomic.EveryEffect` | src/s370/@@swap.c:32-39 | every completed call of every run, with the word before and after it met on the way: __swap stored its value and returned the old one, __cas stored its value where it found the expected one and else handed back what it found, the counters counted and returned what they found |
| `Atomic.LastStored` | src/s370/@@cas.c:35-47 | the call that completed last left its new value, or - a __cas that failed - the value it handed back, which was not the expected one |
| `Atomic.CountersAdd` | src/s370/@@uinc.c:14-28 | completed increments and decrements add up modulo 2**32, over every run |
| `Atomic.CountsModulo` | src/s370/@@udec.c:14-28 | the same of a log of operations |
| `Atomic.FailureIsCharged` | src/s370/@@cas.c:35-47 | in every run, a CS of a retry loop that fails has in the log, behind what was there when it loaded the word, a successful CS of another call |
| `Atomic.LockFree` | src/s370/@@inc.c:14-28 | over every run failures are at most (threads - 1) times successes |
| `Atomic.SignedOperations` | src/s370/@@dec.c:14-28 | increment goes from the greatest value to 0, decrement from the least to the greatest |
| `Atomic.DecUndoesInc` | src/s370/@@dec.c:14-28 | a decrement undoes an increment if and only if the value was not the greatest |
| `IntFormat.FetchValue` | src/stdio/@@examin.c:254-320 | sign and magnitude taken from the argument are those of its value in its own type, the least value of each type included |
| `IntFormat.TypedValue` | src/stdio/@@examin.c:254-320 | the value agrees with the argument in its low 8, 16, 32 or 64 bits, as hh, h, none or ll say, and lies in the range of the signed or unsigned type |
| `IntFormat.NumeralDenotes` | src/stdio/@@examin.c:303-346 | the digits read back to the value in its base and do not begin with a zero |
| `IntFormat.PutDigits` | src/stdio/@@examin.c:303-346 | the digit loop fills work from the last digit on and never passes the 22nd place |
| `IntPrint.PrintInteger` | src/stdio/@@examin.c:245-402 | blanks, sign, 0x, zeros, digits, blanks in that order, and the count of all of them |
| `IntPrint.LayoutMeans` | src/stdio/@@examin.c:358-402 | the field is as wide as the width or the number; its digits are at least the precision and denote the magnitude; # makes an octal number begin with 0 |
| `IntRead.FieldMeans` | src/stdio/@@examin.c:303-402 | the whole field read back - blanks, sign, 0x, digits - is the value, with a '-' for a negative one alone; sign, prefix, digits and their letters as conversion, flags and precision ask for; the padding behind with -, zeros behind the prefix with 0, blanks in front otherwise |
| `IntRead.FieldsDiffer` | src/stdio/@@examin.c:347-402 | two arguments that print the same have the same value |
| `IntPrint.StandardText` | src/stdio/@@examin.c:358-402 | the text is the one C99 asks for if and only if the conversion is signed, or has neither the + nor the blank flag, or the flag's blank falls among the blanks of the field |
| `IntPrint.PlusUnsigned` | src/stdio/@@examin.c:360-360 | %+u of 5 is +5 |
| `IntPrint.CountZeros` | src/stdio/@@examin.c:361-368 | the zeros of the precision, of # with o, and of the 0 flag |
| `IntPrint.PrintToString` | src/stdio/@@examin.c:22-25 | a string gets exactly the first min(smax, count) characters of what a stream gets, and keeps the rest |
| `IntPrint.PrintToStream` | src/stdio/@@examin.c:22-25 | a stream gets every character, and the count says how many |
| `IntPrint.Sink.Outch` | src/stdio/@@examin.c:22-25 | one character into either sink |
| `HexFloat.ShownExact` | src/stdio/@@examin.c:47-96 | without a precision, and from 13 digits on, the text denotes exactly 0.F * 16**(E-64), normalized or not |
| `HexFloat.ShownNearest` | src/stdio/@@examin.c:73-81 | a precision shows the nearest number with that many hex digits, half away from zero, carry past the first digit included |
| `HexFloat.FirstShown` | src/stdio/@@examin.c:61-71 | the first digit is not zero unless the number is |
| `HexFloat.FractionField` | src/stdio/@@examin.c:57-59 | the 14 digits are the 56 fraction bits |
| `HexFloat.RoundDigits` | src/stdio/@@examin.c:74-76 | adding one where the first digit cut is 8 or more is rounding the whole number |
| `HexPrint.HexFlt` | src/stdio/@@examin.c:47-96 | the characters in the work area are sign, 0x, digits and binary exponent of the number shown, and a NUL |
| `HexPrint.Unpack` | src/stdio/@@examin.c:57-59 | the digit array is the fraction |
| `HexPrint.Normalize` | src/stdio/@@examin.c:61-71 | the first nonzero digit goes first, the exponent follows |
| `HexPrint.Carry` | src/stdio/@@examin.c:76-80 | the carry adds one to the digits kept, or makes 1 and zeros of them |
| `HexPrint.RoundAt` | src/stdio/@@examin.c:73-81 | the digits kept are those of the rounded number |
| `HexPrint.CutDenotes` | src/stdio/@@examin.c:88-88 | the digits there is no room for are zeros |
| `HexPrint.CharsDenote` | src/stdio/@@examin.c:83-88 | read as hexadecimal the characters give the digits' number back |
| `HexRead.TextReads` | src/stdio/@@examin.c:47-96 | read as a C99 constant, the whole text - sign, 0x, point, digits, exponent - is the number shown, cut short by the room or not |
| `HexForm.TextForm` | src/stdio/@@examin.c:47-96 | sign, 0x or 0X, a first digit, the point, exactly as many decimals as the precision - without one as many as needed - p or P and a signed exponent, every letter in the case of the conversion |
| `HexRead.TextExact` | src/stdio/@@examin.c:47-96 | without a precision or from 13 digits on the text reads back to the double itself |
| `DblCvt.Dblcvx` | src/stdio/@@dblcvt.c:316-372 | only result[0..rsize) is written and a NUL ends it; the text is the value in the style and with the digits asked for, cut to the room and padded |
| `DblCvt.Prepare` | src/stdio/@@dblcvt.c:333-342 | scaling, style and rounding together: in exact arithmetic the digits are floor(v * 10**p + 1/2), for up to 17 digits after the leading one |
| `DblCvt.ExponentWhole` | src/stdio/@@dblcvt.c:344-349 | in e style the four characters of the exponent are never cut when rsize is at least 5 |
| `DblCvt.NothingCut` | src/stdio/@@dblcvt.c:344-372 | when it fits nothing is cut |
| `DblCvt.AboveIsFixed` | src/stdio/@@dblcvt.c:217-240 | digits, point and decimals of a number from 1 up are those of the rounded number |
| `DblCvt.BelowIsFixed` | src/stdio/@@dblcvt.c:194-215 | leading zeros and digits of a number below 1 are those of the rounded number |
| `DblCvt.FixedTextReads` | src/stdio/@@dblcvt.c:195-240 | the digits around the point read back to the rounded number |
| `DblRead.TextNear` | src/stdio/@@dblcvt.c:316-372 | every double, in e, f and g, with room for the text and up to 17 digits after the leading one: read as a C99 constant it is, in exact arithmetic, within half a unit of the place that conversion and precision ask for - behind the first digit for e, behind the point for f, digits in all for g |
| `DblForm.ExponentForm` | src/stdio/@@dblcvt.c:316-372 | e and E: one digit, as many decimals as the precision, the letter of the conversion, a sign and two digits |
| `DblForm.FixedForm` | src/stdio/@@dblcvt.c:316-372 | every other conversion but g: digits without leading zeros, exactly as many decimals as the precision, no exponent |
| `DblForm.GeneralForm` | src/stdio/@@dblcvt.c:121-143 | g and G: the e form when the exponent it would show is below -4 or not below the precision, else the f form, zeros at the end of the decimals dropped without # |
| `DblForm.PaddedForm` | src/stdio/@@dblcvt.c:298-314 | the width puts blanks in front, as far as the buffer goes |
| `DblRead.TextReads` | src/stdio/@@dblcvt.c:316-372 | a text that fits reads back to exactly the rounded value of its style, sign, stripping and exponent included |
| `DblRead.PrintedNear` | src/stdio/@@dblcvt.c:155-192 | the rounded value is within half a unit of the last place asked for of the number, also where %g shows one decimal less because of a carry |
| `DblRead.ExponentExact` | src/stdio/@@dblcvt.c:280-296 | the exponent characters read back to the exponent if and only if it has at most two digits |
| `DblRead.ThreeDigits` | src/stdio/@@dblcvt.c:280-296 | 10**150 and 10**50 get the same exponent text |
| `DblRead.DoubleRange` | src/stdio/@@dblcvt.c:79-90 | a double is between 10**-98 and 10**79, so the search covers it and its exponent has two digits |
| `DblRead.DigitsNormal` | src/stdio/@@dblcvt.c:155-176 | in e style a nonzero number shows p + 1 digits, the first not zero |
| `DblRead.ScientificReads` | src/stdio/@@dblcvt.c:242-258 | digit, point and decimals read back to the p + 1 digits over 10**p |
| `DblRead.FixedReads` | src/stdio/@@dblcvt.c:194-240 | digits, point and decimals of the f style read back to n over 10**p |
| `DblRead.StripShape` | src/stdio/@@dblcvt.c:260-278 | only zeros behind the point are dropped, all of them, and the point with the last |
| `DblRead.StripReads` | src/stdio/@@dblcvt.c:260-278 | stripping keeps the number |
| `DblScale.Scale` | src/stdio/@@dblcvt.c:70-110 | b is in [1,10) and b * 10**exp is the value |
| `DblScale.FindExponent` | src/stdio/@@dblcvt.c:79-90 | the search finds the decimal exponent |
| `DblScale.ScaleBy` | src/stdio/@@dblcvt.c:92-97 | the second pass is b / 10**exp |
| `DblScale.Gstyle` | src/stdio/@@dblcvt.c:121-143 | C99's choice between e and f, on the exponent after rounding |
| `DblScale.RoundB` | src/stdio/@@dblcvt.c:155-192 | rounding with carry, the all-zero case and a first digit past the last place |
| `DblScale.RoundScientific` | src/stdio/@@dblcvt.c:165-176 | half a unit added, with or without a carry, gives digits and exponent of the e style |
| `DblScale.RoundAway` | src/stdio/@@dblcvt.c:177-191 | a number below half a unit rounds to zero, from half a unit up to one unit |
| `DblPrint.PutDigits` | src/stdio/@@dblcvt.c:48-55 | the digits taken out of b are those of floor(b * 10**t) |
| `DblPrint.PutMantissa` | src/stdio/@@dblcvt.c:242-258 | one digit, the point, the decimals |
| `DblPrint.PutAbove1` | src/stdio/@@dblcvt.c:217-240 | the point stands where it belongs, # included |
| `DblPrint.PutBelow1` | src/stdio/@@dblcvt.c:194-215 | 0., the leading zeros, the digits |
| `DblPrint.Gstrip` | src/stdio/@@dblcvt.c:260-278 | trailing zeros of the fraction go, and the point with them |
| `DblPrint.Expo` | src/stdio/@@dblcvt.c:280-296 | e or E, the sign and two digits of the exponent, into the room there is, and a NUL |
| `DblPrint.PadLeft` | src/stdio/@@dblcvt.c:298-314 | blanks in front, only as far as the buffer goes |
| `DblPrint.Out.Put` | src/stdio/@@dblcvt.c:41-46 | a character while there is room below dlim |
| `Dynalloc.Dynalloc` | src/dynit/dynalloc.c:104-148 | a bad field issues nothing (-2), more than 48 units issue nothing (-1), otherwise the request decodes to exactly the fields set, in order, then the caller's units |
| `Dynalloc.Dynfree` | src/dynit/dynfree.c:12-37 | the same of an unallocation; nothing named is refused |
| `DynWanted.RequestSays` | src/dynit/dynalloc.c:104-148 | read back out of what goes to SVC 99: under each key exactly what the field for it says, no key twice, in order, and no other unit but the caller's |
| `DynWanted.WantedSays` | src/dynit/dynalloc.c:44-142 | the units asked for, key by key: DALPRIME with the primary quantity if and only if it is above 0, and so on for all 35 keys |
| `DynWanted.WantedOrdered` | src/dynit/dynalloc.c:120-141 | no key twice, and the keys in the order the fields are looked at |
| `DynWanted.RefusedExactly` | src/dynit/dynalloc.c:20-93 | a request is refused exactly when a field without a key is set or a number does not fit its unit |
| `DynWanted.NamedSays` | src/dynit/dynfree.c:25-30 | the units of an unallocation, key by key |
| `DynWanted.TakenIs` | src/dynit/@@dynrq.c:87-103 | the caller's units up to the first marked one or to a null pointer |
| `Dynalloc.AlwaysFits` | src/dynit/dynreq.h:7-19 | with up to 16 units of the caller's the request always fits |
| `Dynalloc.SixteenIsTheMost` | src/dynit/dynreq.h:18-19 | a request that takes 32 pointers, so 17 units of the caller's do not fit |
| `Dynreq.WantedSmall` | src/dynit/dynalloc.c:122-142 | the library's own units take at most 32 pointers and 398 bytes |
| `Dynreq.DecodeEncode` | src/dynit/@@dynrq.c:30-46 | a unit reads back as its key and value |
| `Dynreq.UnitsDisjoint` | src/dynit/@@dynrq.c:12-28 | units are halfword aligned, pairwise disjoint and inside buf |
| `Dynreq.BigEndianReads` | src/dynit/@@dynrq.c:55-58 | a number read back from its bytes |
| `DynRequest.Delivered` | src/dynit/@@dynrq.c:129-137 | the list of pointers reads back as the fields, only its last pointer marked |
| `DynRequest.Request.constructor` | src/dynit/dynalloc.c:118-118 | an empty request |
| `DynRequest.Request.Room` | src/dynit/@@dynrq.c:12-28 | room for a unit, or err and nothing else |
| `DynRequest.Request.NewUnit` | src/dynit/@@dynrq.c:30-46 | a unit and its header |
| `DynRequest.Request.AddBytes` | src/dynit/@@dynrq.c:48-59 | a unit with a number of n bytes |
| `DynRequest.Request.AddString` | src/dynit/@@dynrq.c:61-76 | a unit with a string, cut and in upper case; none for an empty one |
| `DynRequest.Request.AddReturn` | src/dynit/@@dynrq.c:78-85 | a unit of blanks for MVS to fill |
| `DynRequest.Request.AddItems` | src/dynit/@@dynrq.c:87-103 | the caller's units, up to the marked one |
| `DynRequest.Request.Issue` | src/dynit/@@dynrq.c:118-137 | nothing is issued once err is set; else the last pointer is marked |
| `DynRequest.Request.AddNumber` | src/dynit/dynalloc.c:30-42 | a numeric field: skipped from 0 down, added when n bytes hold it, else the request goes bad |
| `Dynalloc.AddWanted` | src/dynit/dynalloc.c:120-141 | all units of an allocation in order, or an error that sticks |
| `Dynalloc.AddDcb` | src/dynit/dynalloc.c:57-68 | the DCB fields |
| `Dynalloc.AddSpace` | src/dynit/dynalloc.c:70-80 | the space fields |
| `Dynalloc.AddFlags` | src/dynit/dynalloc.c:82-93 | the flags |
| `Dynalloc.AddSysout` | src/dynit/dynalloc.c:95-102 | the SYSOUT fields |
| `Dynalloc.AddDdName` | src/dynit/dynalloc.c:46-55 | a DD name given or asked for |
| `Hfp.Ipart` | src/internal/ipart.h:20-31 | the integral part of every non-negative long HFP number: each int conversion in range, no step rounds, for any rounding |
| `Hfp.Floor` | src/math/floor.c:22-37 | the greatest integer not above x, for every HFP number |
| `Hfp.Ceil` | src/math/ceil.c:22-37 | the least integer not below x, for every HFP number |
| `Hfp.Modf` | src/math/modf.c:29-48 | two parts of the sign of the argument that add up to it exactly |
| `Hfp.Fmod` | src/math/fmod.c:22-39 | magnitude below that of y, and never opposite in sign to x, whatever the roundings |
| `Hfp.FmodExact` | src/math/fmod.c:34-37 | the exact remainder for multiples of one power of 16 whose coefficients together fit 14 digits, for every rounding |
| `Hfp.TruncationRounds` | src/internal/ipart.h:14-18 | truncation to 14 hex digits is a rounding in the sense of the model |
| `Hfp.RemainderRep` | src/internal/ipart.h:16-18 | what is left below 16**k is representable |
| `Hfp.DivideKeepsIntegralPart` | src/internal/ipart.h:16-17 | dividing by a power of 16 keeps the integral part, underflow included |
| `Hfp.BigIsInteger` | src/internal/ipart.h:8-10 | from 2**52 up an HFP number is an integer |
| `Sqrt.Sqrt` | src/math/sqrt.c:45-85 | 0 <= r**2 - x <= 16**-28 * x whichever way the loop ends; EDOM below 0 |
| `Sqrt.Scale` | src/math/sqrt.c:64-68 | the loops end with xs * pow1**2 = x and 1 <= xs < 4 |
| `Sqrt.StepLeaves` | src/math/sqrt.c:80-80 | every iterate from the first on is at or above the root |
| `Sqrt.StepSquares` | src/math/sqrt.c:80-80 | the excess over the root is squared and quartered by a step |
| `Sqrt.CloseEnough` | src/math/sqrt.c:81-81 | the tolerance exit is accurate |
| `Sqrt.ManySteps` | src/math/sqrt.c:82-82 | the count exit is accurate |
| `Inet.InetPton` | src/net/@@inpton.c:9-40 | accepts s as address a if and only if s is the text of a |
| `Inet.InetNtop` | src/net/@@inntop.c:9-37 | the text of the address and a NUL, or ENOSPC exactly when they do not fit, and nothing else of dst changed |
| `Inet.PtonOfText` | src/net/@@inpton.c:19-39 | the parser accepts exactly what the formatter prints |
| `Inet.TextInjective` | src/net/@@inntop.c:22-29 | different addresses have different texts |
| `AtonForms.DottedQuad` | src/net/@@inntop.c:22-29 | the text is the four octets, the highest first, decimal without leading zeros, with points between them |
| `InetAton.InetAton` | src/net/@@inaton.c:52-87 | the loops compute the address of BSD's forms |
| `InetAton.AtonAccepts` | src/net/@@inaton.c:52-87 | every text of one to four numbers that fit their fields, then nothing or a blank, is accepted with its value |
| `InetAton.AtonOnly` | src/net/@@inaton.c:52-87 | nothing else is accepted |
| `AtonForms.OneNumber` | src/net/@@inaton.c:52-87 | "a" is accepted if and only if a is at most 2**32 - 1, as that address |
| `AtonForms.TwoNumbers` | src/net/@@inaton.c:52-87 | "a.b": 8 bits and 24 |
| `AtonForms.ThreeNumbers` | src/net/@@inaton.c:52-87 | "a.b.c": 8 bits, 8 and 16 |
| `AtonForms.FourNumbers` | src/net/@@inaton.c:52-87 | "a.b.c.d": 8 bits each |
| `AtonForms.FormsOnly` | src/net/@@inaton.c:52-87 | a text that is accepted has one of these forms, with a blank or nothing behind |
| `AtonForms.PartIs` | src/net/@@inaton.c:14-50 | a part is decimal, octal behind 0 or hexadecimal behind 0x, with a-f and A-F as 10 to 15 |
| `InetAton.OverflowTest` | src/net/@@inaton.c:41-42 | the test lets through exactly what fits 32 bits |
| `InetAton.ReadNumber` | src/net/@@inaton.c:25-50 | one part, decimal, octal or hexadecimal |
| `InetAton.AtonOfText` | src/net/@@inaton.c:52-87 | every text inet_ntop prints is read back |
| `InetAton.AtonExtendsPton` | src/net/@@inaton.c:52-87 | what inet_pton accepts, inet_aton accepts with the same value |
| `GateText.GateDecides` | sdk/gate.py:53-64 | on files without the marker the gate says yes exactly when a one-to-one renaming of the numbers turns one into the other, blanks folded |
| `GateText.GateExact` | sdk/gate.py:53-64 | on all files: a renaming exists if and only if the gate says yes and the files agree, marker by marker, on which are references |
| `GateText.TokensAre` | sdk/gate.py:60-64 | the tokens put together again are the text |
| `GateText.TokensNamed` | sdk/gate.py:60-64 | a reference has a number and takes all its digits |
| `GateText.ReferenceFound` | sdk/gate.py:62-64 | every "@@F" or ",F" with a digit behind it is a reference, wherever it stands |
| `GateText.FoldRun` | sdk/gate.py:62-64 | a run of blanks and tabs becomes one blank; the text around it is folded by itself |
| `GateText.GateFooled` | sdk/gate.py:60-63 | two files that differ by more than numbering and compare equal |
| `Gate.NumberingComplete` | sdk/gate.py:57-63 | numbering in order of first appearance is a complete invariant of one-to-one renaming |
| `Gate.Substitute` | sdk/gate.py:58-62 | the dictionary gives each name its place of first appearance |
| `Gate.Renumbered` | sdk/gate.py:53-64 | compares the two canonical texts |
| `GateText.RenderInjective` | sdk/gate.py:62-64 | equal texts come from equal tokens when the markers agree |

## Left out

- TSO terminal input and output, record i/o mode, `ungetc` itself: other paths of the same routines.
- Streams that are not `+` streams in the refinement: the step functions and the class cover them; runs cover the streams that may write.
- 32-bit wrap of `filepos` and of offsets: positions are taken to stay below 2**31.
- StreamFile.File.Fpopen: without the failures after OPEN (`__rdjfcb`, `calloc`) and the choice of errno there, which come from code that is not modelled.
- `appmem`, names, ENQ and DD handling of `__fpopn`.
- StreamFile.File.Fseek: for `+` streams, open or not, where the seek does not read without a DCB - what it does then is not the library's to say; a stream that only reads takes the path through `__reopen`, which is not modelled.
- StreamFile.File.Fpswt: for the turns its callers ask for; none turns a writing DCB to writing.
- The run theorems do not cover the `+` modes that begin with another letter than r, w or a (`StreamOpen.PlusModes` says which are covered, `StreamOpen.OpenPlaced` what the others do).
- The bodies of the BSAM routines, SVCs and inline assembler: contracts only, with blocks left out; which records share a block, and so when a waiting rewrite goes out, is part of the device's answers.
- The format parser of printf (flags, width, precision, length modifier) and the conversions c, s and n.
- The field around a floating conversion in `__examin` (width, sign, 0 and - flags): the text of `__dblcvx` and `hexflt` that goes into it is modelled.
- `__64_divmod`: division as arithmetic.
- DblScale.Scale: exact real arithmetic, so HFP truncation is not modelled; magnitudes from 10**-330 to 10**330, wider than HFP.
- DblCvt.Prepare: says nothing about digits past the 17th after the leading one, where the source rounds at the 17th.
- HFP exponent overflow, a program exception on the machine: a rounding is total in the model.
- Sqrt.Sqrt: exact real arithmetic; `10 * DBL_MIN` is a parameter no larger than 16**-14.
- The names MVS returns after SVC 99 (`__dynrqc`) and the SVC itself; `toupper` is a parameter.
- Where the source ors fields that do not overlap (`inet_aton`, `inet_pton`), the model adds.
- The null-pointer arguments that the atomic routines, `inet_aton`, `dynalloc` and `dynfree` answer at once.
- The remaining checks of the gate (archive, warnings, implicit declarations) and the rest of `sdk/`: file-system and subprocess work.
- sin, cos, exp, log and the other series; ctype tables; sockets; signals; everything under `attic/`.
