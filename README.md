# gobjdump metadata decoder, modelled in Dafny

gobjdump reads a compiled Go ELF binary and dumps the metadata the Go runtime
keeps about it. It takes the `.gopclntab`, `.rodata` and `.typelink` sections
as byte buffers and recovers several structures from them:

- the function table (`ftab` and the `_func` records);
- the per-function pc-value tables (stack depth, line numbers, source files, stack-map indices);
- the stack maps and GC bitmaps;
- the type names.

This project models the decoder in `elf/module.go` and proves properties of it.

The model has seven modules, one per part of the decoder:

| file | module | what it models |
|---|---|---|
| `machine.dfy` | `Machine` | uint32/uint64/int32/int64 arithmetic and the `|`, `^`, `<<` operators. Go panics become `Fault`. |
| `codec.dfy` | `Codec` | `readvarint` (a loop method and its specification), the writer side of the varint, and `zigzag_decode` |
| `pcvalue.dfy` | `PcValues` | `pc_next`, the decoded pair stream, and the `getpcvaluefunc` loop |
| `catalog.dfy` | `FuncCatalog` | `indexByte`/`toString`, `findFunc`, `func_file`, `process_func` with the Go map as a class, the grouping loop of `PrintFuncs`, and the `funcdata` slot |
| `stackmap.dfy` | `StackMaps` | `printbitmap`, `printstackmap` and the GC-bits part of `printStackObj` |
| `types.dfy` | `TypeNames` | `typeName` |
| `loader.dfy` | `Loader` | `relocate`, `relocate_module`, and the load-once `loadpcln`/`loadrodata`/`loadTypeLinks` on an `ElfInfo` class; `funcdata`, `getFuncData` |

Conventions:

- The decoders work on the relocated tables as byte sequences, gathered in a `Tables` value.
- The loader layer works on the addresses held in `moduledata`.
- A panic, an unchecked read past a buffer, or `os.Exit` is the `Fault` outcome, or `ok == false` for a loader method.
- `readvarint` is modelled as written: shifts `7k & 31`, uint32 `|`, and a panic when no byte ends the varint.
- The zigzag decoder's bit expression `int32(-(d & 1) ^ (d >> 1))` is modelled as well, and proved equal to the value form the other decoders use.

Points where the model keeps the code's own choices:

- **GC-bitmap length.** The code computes `(ptrdata/8 + 7)/8`. The first division truncates, so a partial pointer word gets no bit. `StackMaps.GcBitsLenSpec` proves this is ceil(ptrdata/64) for word-aligned `ptrdata`. Rounding up twice would differ only for a partial word.
- **Relocation.** The code mutates the module record's pointer words in place, once, behind a flag. The model does the same in `Loader.ModuleData.RelocateModule` and `Loader.ElfInfo.LoadPcln`.
- **`toString` on an empty slice.** The code takes `&fnames[0]`, which panics on an empty slice. The model faults there.

## Model

| member | source | states |
|---|---|---|
| Codec.DecodeVarint | elf/module.go:352-364 | A varint is read exactly when a byte with a clear high bit follows. The count read runs through the first such byte. |
| Codec.ReadVarint | elf/module.go:352-364 | The loop stops at the first byte with a clear high bit. It returns that byte count and the OR of each byte's low 7 bits at shift `7k & 31`. |
| Codec.TerminatorFromFirst | elf/module.go:354-361 | Every byte before the terminator has its high bit set. With no terminator, all remaining bytes do. |
| Codec.DecodeEncode | elf/module.go:352-364 | Round trip: the encoder's bytes decode to the value and consume exactly the encoded length, whatever precedes or follows them. |
| Codec.DecodeAt | elf/module.go:352-364 | The round trip for encoded bytes found at any offset of a buffer. |
| Codec.ZigZagDecodeBits | elf/module.go:366-368 | The source's bit expression always gives an int32. |
| Codec.ZigZagDecodeValue | elf/module.go:366-368 | The bit expression equals d/2 for even d and -(d+1)/2 for odd d, on every uint32. |
| Codec.ZigZagRoundTrip | elf/module.go:366-368 | Decoding inverts zigzag encoding on every int32. |
| Codec.ZigZagEncodeDecode | elf/module.go:366-368 | Every uint32 code is the encoding of what it decodes to, so decoding is one-to-one. |
| PcValues.PcNext | elf/module.go:339-350 | The table ends exactly when the value delta is 0 and the step is not the first. The step faults exactly when a varint cannot be read. Otherwise the rest is strictly shorter, and both deltas are int32 values. |
| PcValues.PcNextEncodedPair | elf/module.go:339-350 | An encoded (value delta, pc delta) pair decodes back to that pair and consumes exactly its bytes. |
| PcValues.PcNextEndMarker | elf/module.go:341-344 | A zero byte after the first step ends the table. |
| PcValues.StepsEncodeTable | elf/module.go:243-252 | Round trip: a table written as pairs plus the end marker decodes to exactly those pairs, wherever it sits. |
| PcValues.StepsEncodedPair | elf/module.go:243-252 | An encoded pair in front of a decodable table extends the decoded pairs by that pair. |
| PcValues.GetPcValueFunc | elf/module.go:236-254 | The loop returns the rows of the decoded pairs, starting at pc `text + entryoff` with value -1. It faults exactly when decoding faults or the table offset is past `pctab`. |
| PcValues.RowAt | elf/module.go:236-254 | Row 0 starts at the entry pc. Each row starts where the previous one ends and is as wide as its pc delta (mod 2^64). Row k's value is -1 plus the first k+1 value deltas. |
| FuncCatalog.IndexByte | elf/module.go:383-390 | The scan returns the first position holding the byte, or -1. |
| FuncCatalog.IndexOfFirst | elf/module.go:383-390 | The byte is found iff it occurs. The position found holds it, and no earlier position does. |
| FuncCatalog.ToString | elf/module.go:370-381 | Faults exactly on an empty slice (taking the first byte's address panics). Otherwise the result is a NUL-free prefix of the slice. |
| FuncCatalog.ToStringSpec | elf/module.go:370-381 | That prefix stops right at the first NUL, and is empty when the slice holds no NUL. |
| FuncCatalog.ToStringOfTerminated | elf/module.go:370-381 | A NUL-terminated name reads back as itself. |
| FuncCatalog.FuncName | elf/module.go:312-314 | A name read comes from an offset inside `funcnametab`, is a prefix of the bytes there, and holds no NUL. |
| FuncCatalog.FuncNameStored | elf/module.go:312-314 | A name stored NUL-terminated at `nameoff` is the function's name. |
| FuncCatalog.FirstMatch | elf/module.go:53-58 | A match found lies in range and is an exact name match. |
| FuncCatalog.FindFunc | elf/module.go:52-61 | The loop returns what `Find` specifies: the first record in `ftab` order with the exact name, or none. |
| FuncCatalog.FirstMatchSpec | elf/module.go:52-61 | Every name before a match was read and differs. "Not found" means every name was read and differs. A fault comes from the first unreadable name. |
| FuncCatalog.FindSpec | elf/module.go:52-61 | The same three facts over the `ftab` records and their names. |
| FuncCatalog.FuncFile | elf/module.go:326-337 | Every file name `func_file` returns, "?" included, is NUL-free. |
| FuncCatalog.FuncFileCases | elf/module.go:326-337 | Only an unreadable first pc-file varint faults. The result is "?" for each of: absent cu offset, slot past `cutab`, absent `cutab` entry, file offset past `filetab`. |
| FuncCatalog.FileNoEncoded | elf/module.go:327-328 | A pc-file table starting with the zigzag encoding of fileno+1 gives file number fileno. |
| FuncCatalog.FuncFileFound | elf/module.go:326-337 | When every lookup succeeds, the file is the NUL-terminated string at the `cutab` entry's offset in `filetab`. |
| FuncCatalog.GroupByBuckets | elf/module.go:316-324 | Each file's bucket lists that file's function names in `ftab` order. A key exists exactly for files that occur. |
| FuncCatalog.FileIndex.Add | elf/module.go:319-323 | Appends the name to the file's bucket, creating the bucket when missing; nothing else changes. |
| FuncCatalog.ProcessFunc | elf/module.go:316-324 | Files the record's name under its file. The map is unchanged when either lookup faults. |
| FuncCatalog.ListFunc | elf/module.go:39-42 | The same for the i-th `ftab` entry, whose record must exist. |
| FuncCatalog.CollectSpec | elf/module.go:39-42 | The listing succeeds iff every lookup does. Entry k is lookup k's result. |
| FuncCatalog.GroupFuncs | elf/module.go:36-43 | The loop succeeds iff every function's lookups do. The map then equals the grouping of the whole listing. |
| FuncCatalog.FuncDataSlotAsWritten | elf/module.go:216-224 | Reads the word `npcdata + i` after the record whenever it exists, with no check against `nfuncdata`. It is absent exactly when that word is the sentinel; otherwise it is that word. |
| FuncCatalog.FuncDataSlot | elf/module.go:216-224 | The corrected lookup: a present offset comes from a slot below `nfuncdata` and is never the sentinel. |
| FuncCatalog.FuncDataSlotSpec | elf/module.go:216-224 | A present slot is the record's own word and not the sentinel. "Absent" means the slot is past `nfuncdata` or holds the sentinel. A well-formed record never faults. |
| FuncCatalog.FuncDataSlotPastRecord | elf/module.go:218-219 | The unchecked read hands out the word after a record with no func-data; the checked one reports it absent. |
| StackMaps.DigitsRoundTrip | elf/module.go:211 | w binary digits of a number below 2^w read back as that number. |
| StackMaps.Binary8RoundTrip | elf/module.go:211 | `%8.8b` of a byte reads back as the byte. |
| StackMaps.JoinLayout | elf/module.go:213 | Joining 8-character parts with spaces puts part k at 9k, with a space after every part but the last. |
| StackMaps.BitmapLineLayout | elf/module.go:208-214 | The line is two spaces, then byte k's digits at columns 2+9k..10+9k (which read back as byte k), single spaces between, and a newline. |
| StackMaps.PrintBitmap | elf/module.go:208-214 | The array loop produces exactly that line. |
| StackMaps.RowWidth | elf/module.go:191 | The row width `(nbit + 7) / 8` in int32 arithmetic stays within ±2^28. |
| StackMaps.RowWidthSpec | elf/module.go:191-194 | Without overflow the width is the fewest bytes holding nbit bits. It is 0 exactly for nbit in -14..0. Near the int32 limit it wraps negative. |
| StackMaps.RowSelectedAsWritten | elf/module.go:199 | The guard as written admits only non-negative values. It admits values below 2^31 only if they are below `n`. |
| StackMaps.RowGuardAgrees | elf/module.go:199-201 | The truncating guard and the range check agree on every value below 2^31. |
| StackMaps.RowGuardTruncates | elf/module.go:199 | Value 2^32 passes the truncating guard of a one-row map although it names no row. |
| StackMaps.RowInside | elf/module.go:199-204 | A row that passes the range check lies inside a bitmap that holds n rows. |
| StackMaps.RowBits | elf/module.go:203-204 | The row is read iff the width is non-negative and the row ends inside the bitmap. It is then the b bytes at value*b. |
| StackMaps.SelectRows | elf/module.go:198-205 | The loop with the corrected guard never prints more rows than there are pc-value entries. |
| StackMaps.SelectRowsAsWritten | elf/module.go:198-205 | The loop with the guard as written never prints more rows than there are pc-value entries. |
| StackMaps.SelectRowsGuardsAgree | elf/module.go:198-205 | On a table whose values all fit an int32, the loop as written prints exactly the rows of the corrected loop. |
| StackMaps.SelectRowsTruncates | elf/module.go:199-204 | The value 2^32 in a one-row map makes the loop as written read far past the map and fault, while the corrected loop skips the entry. |
| StackMaps.KeptSpec | elf/module.go:198-201 | An entry is printed-from iff it is one of the entries and its value names a row. |
| StackMaps.SelectRowsSpec | elf/module.go:198-205 | The printed rows are the kept entries in order, each with its pc range and its row's bytes. Printing faults iff one of those rows cannot be read. |
| StackMaps.StackMapRowsFit | elf/module.go:198-205 | With the range check, a bitmap that holds its n rows never faults. |
| StackMaps.PrintRows | elf/module.go:198-205 | The loop computes the selected rows. |
| StackMaps.PrintStackMap | elf/module.go:190-206 | `printstackmap` yields nothing for a zero width. Otherwise it yields the rows selected from the stack-map index table of the record. |
| StackMaps.SelectRowsLayout | elf/module.go:198-205 | With a non-zero width, row k is the k-th kept entry's pc range with the `b` bytes at `value * b`. Selection fails exactly when such a row would lie outside the map's bytes or have a negative width. |
| StackMaps.StackMapRowsSpec | elf/module.go:190-197 | A zero width prints nothing. Otherwise `printstackmap` prints the rows `SelectRowsLayout` describes for the entries of the decoded stack-map index table. |
| StackMaps.GcBitsLen | elf/module.go:160-161 | One bit per whole pointer word, rounded up to bytes, with no spare byte. |
| StackMaps.GcBitsLenSpec | elf/module.go:160-161 | This is ceil(ptrdata/64) for word-aligned `ptrdata`. |
| StackMaps.StackObjGcBits | elf/module.go:158-162 | No bits for a pointer-free object. Otherwise the bits are GcBitsLen bytes at `gcdataoff`, and reading faults iff they do not fit in `rodata`. |
| StackMaps.PrintStackObj | elf/module.go:155-166 | Prints "gcbits:" and the bitmap line of those bytes, or nothing for a pointer-free object. |
| TypeNames.TypeName | elf/module.go:100-110 | A non-empty name comes from an offset inside `rodata`. |
| TypeNames.TypeNameEncoded | elf/module.go:100-110 | Round trip: tag byte, varint length and name bytes read back as the name, whatever the tag. |
| TypeNames.TypeNameSpec | elf/module.go:100-110 | A name read is as long as its varint length and sits right after that varint. |
| Loader.Relocate | elf/module.go:472-474 | `relocate` adds the delta modulo 2^64, whatever the sign of either operand as an int64. |
| Loader.RelocateUndo | elf/module.go:472-474 | Relocating back by the opposite delta restores the word. |
| Loader.RelocateKeepsDistance | elf/module.go:462-474 | Two words relocated by one delta keep their distance. |
| Loader.PclnDelta | elf/module.go:457-458 | The int64 delta, added to the recorded header address modulo 2^64, gives the address of the copy of the section. |
| Loader.ModuleData.RelocateModule | elf/module.go:462-470 | Moves exactly the seven table pointers by the delta; the other words are unchanged. |
| Loader.RelocatedLayout | elf/module.go:462-470 | After the move each table is as far from the header as before. |
| Loader.GofuncOffset | elf/module.go:125-126 | A pointer `gofunc + off` into the copy lies as far into it as the address `gofunc + off` lies into the original read-only data. |
| Loader.ElfInfo.constructor | elf/module.go:422-424 | A freshly opened binary has no section loaded. |
| Loader.ElfInfo.LoadPcln | elf/module.go:444-460 | After a first successful call, the header points at the copy and all seven pointers moved by one delta; nothing else changed. A second call changes nothing. A missing or empty section stops before any change. |
| Loader.ElfInfo.LoadRodata | elf/module.go:112-128 | The first call keeps the copy and points `gofunc` into it; later calls change nothing. |
| Loader.ElfInfo.LoadTypeLinks | elf/module.go:427-442 | The first call points the type links at the copy; later calls change nothing. |
| Loader.ElfInfo.FuncData | elf/module.go:216-224 | A first call loads the read-only data exactly when the section is present and non-empty, and keeps its bytes and address. The call faults iff the data is not loaded or the slot cannot be read. An absent slot gives none. A present one gives the address `gofunc + off` and a pointer at the matching place in the copy. |
| Loader.ElfInfo.GetFuncData | elf/module.go:168-177 | Succeeds iff three things hold: both sections are loaded or loadable, `findFunc` finds the name, and its slot can be read. It returns that record and the slot's address `gofunc + off`, with a pointer at the matching place in the copy. The module record is left relocated as `loadpcln` leaves it. |

## Left out

- `Open` (elf/module.go:392-425) is left out: the ELF file, its symbol table and the read of `runtime.firstmoduledata`. The `ElfInfo` constructor takes the module record instead.
- Section reads in the three loaders are parameters. A section's bytes and the address of the fresh buffer they were copied into come in as a `Section`. A missing section or a short read is None.
- `PrintFuncs` output (elf/module.go:44-49) is not modelled. It iterates a Go map, so the bucket order is unspecified. The model stops at the grouped map.
- `PrintPCLN`, `PrintPCSP`, `PrintSafePoints`, `getpcvalue` and `printPCvalue` (elf/module.go:63-81, 256-306) are modelled only up to the rows `getpcvaluefunc` returns. Their `%#x` formatting and value-mapping closures are left out.
- `PrintTypes` and `printType` (elf/module.go:83-98) are left out: the sort of the type links and the formatted print. `typeName` is modelled.
- `PrintStackObjs` (elf/module.go:138-153) is left out: it reads a count and records through `unsafe`, and `printObject` lives in `elf/print.go`, which is not part of this model. Only the GC-bits part of `printStackObj` is modelled.
- `printPointerMap` and `printFuncNameAndFile` (elf/module.go:179-188, 226-228) are left out beyond their parts, `GetFuncData` and `PrintStackMap`.
- `PrintModule` and `Close` are left out: a reflective dump and file closing.
- Record layouts are not claimed.
  - `_func` is a tuple of the fields read, plus the run of uint32 words after them.
  - The `_PCDATA_StackMapIndex` and `_FUNCDATA_*` constants are the parameters `slot` and `i`.
  - `pclntable` maps record offsets to decoded records. An offset without a record is a fault.
  - `stackmap` and `stackObjectRecord` are tuples of the fields read.
- The decoders take the relocated tables directly. How the slice headers (pointer, length, capacity) cut them out of the loaded section is not modelled. Relocation moves only the pointer words.
- Reads that the code makes through `unsafe` without a bounds check, past the end of a buffer, are faults in the model, where the program would read neighbouring memory. This covers:
  - a type name past `rodata`;
  - GC bits past `rodata`;
  - a stack-map row past `bytedata`;
  - a record word past its trailer.
- PcValues.GetPcValueFunc: the running value is an unbounded integer rather than a Go `int`. Overflowing 64 bits would take more than 2^32 pairs.
- StackMaps.SelectRows, StackMaps.PrintRows: use the corrected row guard, so an entry whose value is 2^31 or more is skipped where the code would try to print it. `StackMaps.SelectRowsGuardsAgree` shows the two loops print the same rows whenever every value fits an int32.
- StackMaps.PrintStackMap: uses the corrected row guard (see Findings). It returns rows as (pc range, bytes) records rather than the `%#x` text. A fault drops the rows printed before the panic.
- Loader.ElfInfo.FuncData: uses the bounds-checked slot lookup (see Findings).
- Loader.ElfInfo.GetFuncData: uses the bounds-checked slot lookup through `Loader.ElfInfo.FuncData` (see Findings), so a slot at or past `nfuncdata` gives none where the code hands out the word after the record.
- FuncCatalog.GroupFuncs: a fault drops the buckets filled before the panic.
- Codec.ReadVarint: its precondition stands for the panic of indexing past the buffer. `Codec.DecodeVarint` models that case as None.

## Findings

| source | as written | input that shows it | evidently intended | confidence | as-written member | corrected member |
|---|---|---|---|---|---|---|
| elf/module.go:218-219 | `funcdata` reads word `npcdata + i` after the record without comparing `i` with `nfuncdata` | a record with `npcdata = 0`, `nfuncdata = 0` and the word 7 after it: slot 0 yields offset 7 | a slot at or past `nfuncdata` is absent | not executed; medium | FuncCatalog.FuncDataSlotPastRecord | FuncCatalog.FuncDataSlotSpec |
| elf/module.go:199 | the row guard compares `int32(v.value)` with `n`, so a Go `int` value is truncated first | a pc-value entry with value 2^32 against a map with n = 1 passes and reads row 2^32 | print only rows with 0 <= value < n | not executed; medium | StackMaps.SelectRowsTruncates | StackMaps.StackMapRowsFit |

- First row. `FuncCatalog.FuncDataSlotAsWritten` models the code as written. `FuncCatalog.FuncDataSlot` is the corrected lookup, and `Loader.ElfInfo.FuncData` uses it.
- Second row. `StackMaps.RowSelectedAsWritten` models the guard as written. `StackMaps.SelectRowsAsWritten` is the loop as written. `StackMaps.RowSelected` is the corrected guard, and `StackMaps.SelectRows` and `StackMaps.PrintStackMap` use it.
