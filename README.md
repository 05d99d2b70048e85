# rockdisk core in Dafny

This project models the disk-image core of `rockdisk`, the tool that builds the floppy
images used to bootstrap RockOS and its assembler RockAsm:

- `disk.ts` — sector ranges (`DiskSectorRange`, `FloppyDiskSectorRange`), the floppy size and
  `toFriendlySize`, `createBlankDisk`, the bounded block copy `copyBlock` (with
  `openForRead`/`openForWrite`), and `trimTrailingZerosAndAlignTo16ByteBoundary`;
- `os-disk.ts` — the `OsFloppySectorMap` and its default, `createBootableOsFloppy` with
  `copyDiskPart`, the four-stage `compileOs` pipeline and `extractAndTrimCompiledFile`;
- `prompter.ts` — the `VirtualPrompter` used by the tests and the key loop of the terminal
  prompter's `promptYesNo`;
- `utility.ts` — `parseSize`, including the behaviour of JavaScript's `Number.parseInt`;
- `version-info.ts` and `commands/parse-args.ts` — the two copies of `VersionInfo`
  (`tryParse`, `parse`, `toString`, `decrementMinor`).

The file system is a class `Disk.FileSystem` whose one field maps paths to byte sequences.
The operations that change files (`CreateBlankDisk`, `CopyBlock`, the trim,
`CopyDiskPart`, `CreateBootableOsFloppy`, `ExtractAndTrimCompiledFile`, `CompileOs`) are
methods with the source's loops and steps. Each one is proved equal to a specification
function (`CopyBlockSpec`, `TrimSpec`, `CreateBootableOsFloppySpec`, `CompileOsSpec`, ...)
that returns an `Effect`: the result (success, or the error the source throws) together
with the files left behind. What the source promises is then proved about those functions
as lemmas. `VirtualPrompter` is a class whose message log is a `seq<string>` field.

Modules: `Wrappers` (Option/Result), `Numerals` (digit strings), `Disk`, `OsDisk`,
`Prompter`, `CompileOs`, `Utility`, `VersionInfo`, `ParseArgs`.

Modelling choices:

- Sizes and offsets are `nat`. `maxSourceLength || Number.MAX_SAFE_INTEGER` becomes the
  literal 9007199254740991 when the limit is missing or 0.
- A positional write past the end of a file leaves a zero-filled hole, as `pwrite` does
  (`Disk.Overwrite`).
- Errors the source throws become `Failure` values: `SourceNotFound` ("Source file '<p>'
  not found."), `SizeExceeded` ("The size of '<p>' exceeds the maximum size of <n>.") and
  `NoSuchFile` (ENOENT from `stat` or a whole-file read). A failure part-way keeps the
  writes already done, as the source does.
- The virtual machine the operator runs between building a floppy and answering the
  prompt is a parameter `machine: (stage index, image bytes) -> image bytes`.
- A callback yes/no responder is a function of the prompt and of the number of earlier
  callback calls, which stands for whatever state the callback keeps.
- `path.basename` is modelled for '/' separators only (POSIX).
- An all-zero or empty file trims to an empty file: the backward scan reads `buffer[-1]`,
  which is `undefined`, so it stops at -1 and keeps no bytes.
- The trim pads a file with no trailing zeros up to a multiple of 16 (it returns 0 only
  when the length is already a multiple of 16).

## Model

| member | source | states |
|---|---|---|
| Disk.FloppyRange | tools/rockdisk/src/disk.ts:39-43 | a floppy range keeps its start and count and has 512 bytes per sector, so its start address is start·512 and its size count·512 |
| Disk.SectorRangeSpan | tools/rockdisk/src/disk.ts:15-37 | endSector + 1 = startSector + sectorCount, and the end address is (endSector + 1)·bytesPerSector |
| Disk.FollowingRangeAbuts | tools/rockdisk/src/disk.ts:20-26 | a range starting at the previous range's endSector + 1 starts at the byte where the previous one ends |
| Disk.SectorRangeExamples | tools/rockdisk/src/disk.ts:20-30 | the start address, end sector and total bytes of the ranges (4,4,10) and (0,4,10) are 40, 3 and 40 |
| Disk.DiskError.Message | tools/rockdisk/src/disk.ts:135 | the text of each error: "Source file '<p>' not found.", "The size of '<p>' exceeds the maximum size of <n>." (os-disk.ts:101) and Node's ENOENT message |
| Disk.ToFriendlySize | tools/rockdisk/src/disk.ts:9-51 | succeeds exactly for 2·80·18·512 = 1474560 bytes, with "1.44 MB"; any other size fails with "Not implemented yet" |
| Disk.FileSystem.constructor | tools/rockdisk/test/disk.test.ts:73 | the in-memory file store, which stands for the tests' mocked file system, starts with the given files |
| Disk.Zeros | tools/rockdisk/src/disk.ts:64 | a buffer of n bytes, all zero |
| Disk.WriteByte | tools/rockdisk/src/disk.ts:109 | writing one byte at an offset makes the file at least offset + 1 long |
| Disk.WriteByteBytes | tools/rockdisk/src/disk.ts:109 | after a one-byte write, the byte at the offset is the written one, the bytes of a hole are zero and every other byte is unchanged |
| Disk.Overwrite | tools/rockdisk/src/disk.ts:109 | a positional write of data leaves the file max(old length, offset + length) long, or unchanged in length for empty data |
| Disk.OverwriteBytes | tools/rockdisk/src/disk.ts:109 | after a positional write, byte offset + j is data[j], bytes past the old end and before the offset are zero, and every other byte is the old one |
| Disk.OverwriteFromStart | tools/rockdisk/src/disk.ts:109 | writing non-empty data at offset 0 gives the data followed by whatever the old file had beyond it |
| Disk.OverwriteAppend | tools/rockdisk/src/disk.ts:109-116 | writing a and then b right after it equals writing a + b at once |
| Disk.Segment | tools/rockdisk/src/disk.ts:103 | a read of k bytes at an offset returns exactly k bytes |
| Disk.EffectiveLimit | tools/rockdisk/src/disk.ts:98 | the copy limit is positive; it is the given maximum when that is present and non-zero, and Number.MAX_SAFE_INTEGER when it is missing or 0 |
| Disk.CopyCount | tools/rockdisk/src/disk.ts:95-121 | the number of bytes copied is at most the limit, never reads past the source, and stops short of the limit only at the source's end |
| Disk.CopyBlockSpec | tools/rockdisk/src/disk.ts:81-126 | fails exactly when the source is missing, with "Source file '<p>' not found." and no file changed (the destination is not created); otherwise the destination exists afterwards and no other path appears |
| Disk.CopiedBytes | tools/rockdisk/src/disk.ts:101-119 | after the copy, dest[d + j] = src[o + j] for j below the count, every other byte of the destination is unchanged and its length is max(old length, d + count) |
| Disk.CopyBlock | tools/rockdisk/src/disk.ts:81-145 | the loop's outcome and new files equal `CopyBlockSpec` (when source and destination differ); a missing source fails with nothing changed; other files are unchanged |
| Disk.CopyLoop | tools/rockdisk/src/disk.ts:101-119 | the 4096-byte chunk loop keeps every file but the destination; when source and destination differ, it writes exactly the bytes the specification copies and returns their count |
| Disk.CopyTurn | tools/rockdisk/src/disk.ts:103-116 | one read and write of at most 4096 bytes, stopping at the end of the source; when source and destination differ, the chunk extends the bytes copied so far by exactly what it read |
| Disk.CopyChunk | tools/rockdisk/src/disk.ts:103-116 | one loop step writes the chunk read at the source position to the destination position |
| Disk.CopyStep | tools/rockdisk/src/disk.ts:114-118 | two consecutive chunk writes equal one write of the joined chunk |
| Disk.CopyFinished | tools/rockdisk/src/disk.ts:101-118 | when the loop stops (nothing left to read, or the limit reached) the bytes copied are the specified count |
| Disk.CopyBlockExamples | tools/rockdisk/src/disk.ts:81-121 | copies between a 10-byte and a 6-byte file give the byte-exact results the unit tests expect, including the returned counts |
| Disk.CopyBlockUnlimited | tools/rockdisk/src/disk.ts:95-99 | with a missing or 0 maximum length the copy is unlimited: it returns the number of source bytes past the offset and writes all of them at the destination offset |
| Disk.CreateBlankDisk | tools/rockdisk/src/disk.ts:58-71 | the file at the path becomes exactly n zero bytes whatever it held, every other file is unchanged; the loop writes min(4096, n - i) bytes per step |
| Disk.LastNonZero | tools/rockdisk/src/disk.ts:158-161 | the backward scan stops at the last non-zero byte, or at -1 when there is none; every byte after it is zero |
| Disk.LastNonZeroUnique | tools/rockdisk/src/disk.ts:158-161 | any index with a non-zero byte and only zeros after it is the scan's result |
| Disk.PaddingLength | tools/rockdisk/src/disk.ts:167-168 | the padding is under 16 bytes and brings the length to a multiple of 16 |
| Disk.TrimAligned | tools/rockdisk/src/disk.ts:158-170 | the trimmed bytes are the original up to and including the last non-zero byte followed by zeros, with a length that is a multiple of 16 and less than 16 beyond that byte |
| Disk.TrimAllZero | tools/rockdisk/src/disk.ts:158-170 | an all-zero or empty file trims to nothing |
| Disk.TrimKeepsLastNonZero | tools/rockdisk/src/disk.ts:158-170 | trimming keeps the position of the last non-zero byte |
| Disk.TrimIdempotent | tools/rockdisk/src/disk.ts:153-177 | trimming trimmed bytes changes nothing |
| Disk.TrimSameLengthUnchanged | tools/rockdisk/src/disk.ts:173-175 | when the trim would not change the length it would not change the bytes either, so skipping the write is safe |
| Disk.TrimSpec | tools/rockdisk/src/disk.ts:153-177 | a missing file fails with ENOENT and nothing changed; otherwise it succeeds and the set of files is unchanged |
| Disk.TrimTwice | tools/rockdisk/src/disk.ts:173-177 | a second trim leaves the files as they are and returns 0 |
| Disk.TrimTrailingZerosAndAlignTo16ByteBoundary | tools/rockdisk/src/disk.ts:153-178 | the scan, pad and conditional write produce exactly `TrimSpec`'s files and return the old length minus the new one |
| Disk.TrimFullRowExample | tools/rockdisk/src/disk.ts:153-177 | a full 16-byte row without trailing zeros is unchanged and the trim returns 0 |
| Disk.TrimPaddedRowExample | tools/rockdisk/src/disk.ts:153-177 | a 16-byte row ending in zeros is unchanged and the trim returns 0 |
| Disk.TrimPadsExample | tools/rockdisk/src/disk.ts:164-177 | [1,2,3,4] becomes those bytes plus 12 zeros and the trim returns -12 |
| Disk.TrimDropsRowsExample | tools/rockdisk/src/disk.ts:158-177 | trailing zero rows are dropped down to the row that holds the last non-zero byte |
| OsDisk.Following | tools/rockdisk/src/os-disk.ts:43-49 | a defaulted section starts at the previous section's endSector + 1 |
| OsDisk.NewSectorMap | tools/rockdisk/src/os-disk.ts:35-50 | the boot sector is always (0,1); each supplied section is kept; each missing one follows the previous section with 56, 56, 2000 and 56 sectors |
| OsDisk.NewSectorMapContiguous | tools/rockdisk/src/os-disk.ts:41-49 | sections the constructor fills in start at the byte where the previous section ends |
| OsDisk.AscendingIsWellFormed | tools/rockdisk/src/os-disk.ts:16-27 | sections laid out in ascending order inside the floppy are pairwise disjoint and in bounds |
| OsDisk.DefaultSectorMapLayout | tools/rockdisk/src/os-disk.ts:13-53 | the default map is boot (0,1), kernel (1,56), assembler (57,56), source (113,2000) and assembled (2113,56), starting at 0x200, 0x7200, 0xE200 and 0x108200 and ending at 0x10F1FF, inside the 1474560-byte floppy, with no overlaps |
| OsDisk.CopyDiskPartSpec | tools/rockdisk/src/os-disk.ts:96-107 | fails exactly when the payload is missing (ENOENT from stat) or larger than the range's total bytes ("exceeds the maximum size of <n>"), and then changes nothing; a size equal to the total is accepted |
| OsDisk.CopyDiskPartPlaces | tools/rockdisk/src/os-disk.ts:96-107 | an accepted payload is written at the range's start address in the image and nothing else changes |
| OsDisk.CopyDiskPart | tools/rockdisk/src/os-disk.ts:96-107 | fails exactly when the payload is missing or larger than the range's total bytes, and then changes no file; otherwise only the image changes (and exists afterwards); when the payload is not the image, the result and files equal `CopyDiskPartSpec`'s |
| OsDisk.Parts | tools/rockdisk/src/os-disk.ts:90-93 | the payloads are boot loader, kernel, assembler and source file, in that order, each with its section from the map |
| OsDisk.PlacePartsUnfold | tools/rockdisk/src/os-disk.ts:90-93 | placing the payloads is placing the first one and then, if that succeeded, the rest |
| OsDisk.CreateBootableOsFloppy | tools/rockdisk/src/os-disk.ts:86-94 | the image exists afterwards and no other file changes or appears; when no payload is the image itself, blanking the image and copying the four payloads equals `CreateBootableOsFloppySpec` |
| OsDisk.WritePart | tools/rockdisk/src/os-disk.ts:105-106 | writing a fitting payload into an image places it at the start address and leaves the length and every other byte unchanged |
| OsDisk.StaysPlaced | tools/rockdisk/src/os-disk.ts:90-93 | a placed payload survives later writes into disjoint sections |
| OsDisk.StaysUntouched | tools/rockdisk/src/os-disk.ts:90-93 | bytes outside every section stay as the blank image had them |
| OsDisk.PlacePartsLayout | tools/rockdisk/src/os-disk.ts:86-94 | with fitting payloads in disjoint in-bounds sections, every payload sits at its section's start address and all other bytes keep their value |
| OsDisk.PlacePartsSucceedsIff | tools/rockdisk/src/os-disk.ts:90-102 | placing succeeds exactly when every payload exists and fits its section |
| OsDisk.PlacePartsReportsFirstFailure | tools/rockdisk/src/os-disk.ts:90-102 | the error reported is that of the first payload that is missing or too large, and the files are those left by placing only the payloads before it (no rollback) |
| OsDisk.PlacePartsStopsAtFirstBad | tools/rockdisk/src/os-disk.ts:87-102 | when the payloads before the bad one fit in disjoint sections, they sit at their start addresses, every other byte of the image and every other file is unchanged, and the bad payload's error is reported |
| OsDisk.PlacePartsFrame | tools/rockdisk/src/os-disk.ts:86-94 | placing creates no file other than the image, removes none, and changes no file other than the image |
| OsDisk.CreateBootableOsFloppySucceedsIff | tools/rockdisk/src/os-disk.ts:86-107 | building succeeds exactly when all four payloads exist and fit; the image exists afterwards, even after a failure, and no other file changes |
| OsDisk.CreateBootableOsFloppyStopsAtFirstBadPart | tools/rockdisk/src/os-disk.ts:86-102 | a build whose payload k is missing or too large reports it and leaves a 1474560-byte image holding only the payloads before k at their start addresses, zero everywhere else, with no other file changed |
| OsDisk.BlankImageStopsAtFirstBad | tools/rockdisk/src/os-disk.ts:86-102 | on a fresh zero-filled 1474560-byte image, the payloads before the bad one are placed, the bad one is reported, and every other file and every other byte stays as it was |
| OsDisk.CreateBootableOsFloppyLayout | tools/rockdisk/src/os-disk.ts:86-94 | with a well-formed map and fitting payloads the image is exactly 1474560 bytes, each payload sits at its section's start address and every other byte is zero |
| OsDisk.ExtractAndTrimSpec | tools/rockdisk/src/os-disk.ts:236-245 | a missing image fails with "Source file '<p>' not found." and nothing changed; otherwise it succeeds and the bin file exists afterwards |
| OsDisk.ExtractAndTrimCompiledFile | tools/rockdisk/src/os-disk.ts:236-245 | fails exactly when the image is missing, with "Source file '<p>' not found." and nothing changed; otherwise only the bin file changes; when the image is not the bin file, the copy of the assembled-output section followed by the trim equals `ExtractAndTrimSpec` |
| OsDisk.ExtractedBinary | tools/rockdisk/src/os-disk.ts:241-244 | the bin file becomes the trimmed assembled-output section, followed by the bytes of a longer old bin file beyond the section size, which the copy does not clear |
| OsDisk.ExtractedBinaryFromEmptySection | tools/rockdisk/src/os-disk.ts:241-244 | with a zero-sector assembled-output section the copy limit is 0, which `copyBlock` reads as no limit (disk.ts:98): the bin file receives everything from the section's start to the end of the image, then is trimmed |
| Prompter.Decision | tools/rockdisk/src/prompter.ts:27-44 | a chunk decides the question exactly when its first byte is Ctrl-C, Y/y or N/n; an empty chunk (first byte `undefined`) or any other key decides nothing |
| Prompter.KeyMessage | tools/rockdisk/src/prompter.ts:87 | the shown message is never empty: a given non-empty message as is, otherwise "Press any key to continue..." |
| Prompter.VirtualPrompter.constructor | tools/rockdisk/src/prompter.ts:56-62 | a new prompter has an empty log and the given responses |
| Prompter.VirtualPrompter.Report | tools/rockdisk/src/prompter.ts:64-66 | appends exactly the message to the log and changes nothing else |
| Prompter.VirtualPrompter.ReportError | tools/rockdisk/src/prompter.ts:68-70 | appends exactly the message to the log and changes nothing else |
| Prompter.VirtualPrompter.ReportSuccess | tools/rockdisk/src/prompter.ts:72-74 | appends exactly the message to the log and changes nothing else |
| Prompter.VirtualPrompter.PromptYesNo | tools/rockdisk/src/prompter.ts:76-84 | logs the prompt first; a configured boolean is returned every time; a callback's answer for the prompt is returned and counted |
| Prompter.VirtualPrompter.WaitForAnyKey | tools/rockdisk/src/prompter.ts:86-89 | logs the message or the default one and returns 10 ('\n') |
| Prompter.FirstDecisive | tools/rockdisk/src/prompter.ts:25-47 | the index of the first key that answers Y/y/N/n or is Ctrl-C; every key before it asks again |
| Prompter.KeysRead | tools/rockdisk/src/prompter.ts:25-26 | the loop never reads more keys than there are |
| Prompter.Lines | tools/rockdisk/src/prompter.ts:26-36 | the prompt is printed once per key read |
| Prompter.TerminalPromptYesNo | tools/rockdisk/src/prompter.ts:24-50 | the loop's outcome is the first decisive key's, and the console shows "<message> [Y/N]" once per key read, then "^C" when interrupted; when the keys run out the prompt is shown once more |
| Prompter.OtherKeysAskAgain | tools/rockdisk/src/prompter.ts:25-32 | an empty read or a key other than Y, y, N, n and Ctrl-C leaves the outcome to the following keys and costs one more prompt |
| Prompter.PromptAnswersAtFirstYesOrNo | tools/rockdisk/src/prompter.ts:24-33 | the loop answers yes (no) exactly when some key is Y/y (N/n) and every key before it is neither an answer nor Ctrl-C |
| Prompter.PromptInterruptedAtCtrlC | tools/rockdisk/src/prompter.ts:41-44 | the loop is interrupted exactly when Ctrl-C comes before any answer |
| Prompter.TerminalPromptExamples | tools/rockdisk/src/prompter.ts:24-50 | "q" then "y" answers yes after two prompts; an empty read then "Ny" answers no; Ctrl-C then "n" is interrupted; "A", "B" never answers |
| CompileOs.TrimTrailingSeparatorsRemovesEndRun | tools/rockdisk/src/os-disk.ts:150-152 | `path.basename` first drops exactly the run of trailing '/' characters |
| CompileOs.LastComponentIsEndSegment | tools/rockdisk/src/os-disk.ts:150-152 | the last component is a suffix without '/' preceded by '/' or the start of the path |
| CompileOs.BasenameIsLastComponent | tools/rockdisk/src/os-disk.ts:150-152 | the base name is the last '/'-free component of the path without its trailing separators |
| CompileOs.Basename | tools/rockdisk/src/os-disk.ts:150-152 | `path.basename` with '/' separators; what it returns is stated by `BasenameIsLastComponent` |
| CompileOs.BasenameExamples | tools/rockdisk/src/os-disk.ts:150-152 | "a/b/" has base name "b" and "/" has the empty base name |
| CompileOs.Stages | tools/rockdisk/src/os-disk.ts:139-231 | there are four stages: boot loader, kernel and kernel tests compiled in turn, then a floppy with the tests ready to run |
| CompileOs.DistinctStages | tools/rockdisk/src/os-disk.ts:140-225 | when no named file is the floppy image, no stage's floppy build or extraction writes over one of its own inputs |
| CompileOs.StagesFeedForward | tools/rockdisk/src/os-disk.ts:140-225 | the boot loader and kernel extracted by a stage are the boot and kernel payloads of every later build, the kernel-test binary is the last build's assembler payload, and every stage uses the same image and sector map (the default when none is given) |
| CompileOs.BootImage | tools/rockdisk/src/os-disk.ts:149-154 | running the virtual machine changes only the image file |
| CompileOs.StageStep | tools/rockdisk/src/os-disk.ts:139-160 | a stage asks once exactly when its floppy build succeeds, with the configured answer; a "no" returns false and reports "Exiting early" last; true means the answer was yes |
| CompileOs.RunVirtualMachine | tools/rockdisk/src/os-disk.ts:149-154 | the operator's virtual machine run replaces the image by the machine's output |
| CompileOs.CompileStage | tools/rockdisk/src/os-disk.ts:139-160 | report, build, instruction, prompt, "Exiting early" on no, extraction on yes: when no file the stage reads or extracts to is its image, the files, log and callback count equal `StageStep`'s |
| CompileOs.RunStagesUnfold | tools/rockdisk/src/os-disk.ts:133-234 | the pipeline runs the first stage and continues with the next only after a yes |
| CompileOs.RunPrefixUnfold | tools/rockdisk/src/os-disk.ts:133-234 | the stages up to j run one after another as the full run does, stopping at the first that does not say go on |
| CompileOs.RunStagesAdvance | tools/rockdisk/src/os-disk.ts:133-234 | a run that has reached a stage ends there unless that stage says go on, and then continues from the next stage with the stage's answer recorded |
| CompileOs.CompileOs | tools/rockdisk/src/os-disk.ts:133-234 | the four stages run in order and stop at the first failure or "no": the result, files, log and callback count equal `CompileOsSpec`'s |
| CompileOs.RunnerShaped | tools/rockdisk/src/os-disk.ts:139-160 | every stage of the pipeline asks at most once and returns true only after a yes, false only after a no |
| CompileOs.RunnerAnswersCanned | tools/rockdisk/src/prompter.ts:78-80 | with a boolean configured every stage's answer is that boolean |
| CompileOs.RunStagesAnswers | tools/rockdisk/src/os-disk.ts:133-234 | every answer but the last is yes, and unless the run returned false every answer is yes |
| CompileOs.RunStagesStopsAtNo | tools/rockdisk/src/os-disk.ts:155-158 | a "no" ends the run with false and "Exiting early" as the last message |
| CompileOs.RunStagesCannedAnswers | tools/rockdisk/src/os-disk.ts:133-234 | with a canned answer every answer given is that answer |
| CompileOs.CompileOsTrueMeansAllYes | tools/rockdisk/src/os-disk.ts:227-233 | `compileOs` returns true only when four questions were asked and all answered yes |
| CompileOs.CompileOsFalseIffSomeNo | tools/rockdisk/src/os-disk.ts:154-231 | `compileOs` returns false exactly when some question was answered no |
| CompileOs.CompileOsExitsEarlyAtNo | tools/rockdisk/src/os-disk.ts:155-158 | on a false result the no is the last answer, every earlier answer is yes, and "Exiting early" is the last message |
| CompileOs.StageStepNoExtractsNothing | tools/rockdisk/src/os-disk.ts:154-158 | a stage answered "no" leaves the files as its build and the virtual machine left them: nothing is extracted |
| CompileOs.RunStagesStopsInOneStage | tools/rockdisk/src/os-disk.ts:133-234 | a run that does not go through ends inside one stage j: the stages before j, run as a prefix, all go through with one answer each, and the run is stage j run from the world they left, with their answers in front; no stage after j runs |
| CompileOs.StopsOneStageLater | tools/rockdisk/src/os-disk.ts:133-234 | a stage that goes through with one answer puts the stage where the rest of the run ends one stage further on |
| CompileOs.CompileOsNoLeavesStageFiles | tools/rockdisk/src/os-disk.ts:154-158 | when `compileOs` returns false, the stages before the one answered no all went through, and the files are those that stage's floppy build and machine run leave, starting from the world the earlier stages left: nothing is extracted and no later stage builds |
| CompileOs.AlwaysYesNeverExitsEarly | tools/rockdisk/src/os-disk.ts:133-234 | with every answer yes the pipeline either fails on a file or returns true after four questions |
| CompileOs.AlwaysNoStopsAtFirstQuestion | tools/rockdisk/src/os-disk.ts:154-158 | with every answer no the pipeline returns false after the first question, or fails before it |
| CompileOs.BuiltImageOutputSectionBlank | tools/rockdisk/src/os-disk.ts:140-225 | a freshly built image has an all-zero assembled-output section |
| CompileOs.StageExtractsAssembledSection | tools/rockdisk/src/os-disk.ts:154-160 | after a yes, the stage's binary is the trimmed assembled-output section of the image the virtual machine produced |
| CompileOs.StageFeedsNextImage | tools/rockdisk/src/os-disk.ts:160-173 | the binary a confirmed stage extracts is placed into the next stage's image at its section's start address |
| Utility.ParseInt | tools/rockdisk/src/utility.ts:7 | `Number.parseInt` for radix 10 or 16: white space and a sign are skipped, a "0x" prefix in radix 16, then the longest digit run is read; blank text gives NaN, and a negative value needs a leading '-' |
| Utility.TrimStart | tools/rockdisk/src/utility.ts:7 | `parseInt` skips exactly the leading ECMAScript white space |
| Utility.SizeRadix | tools/rockdisk/src/utility.ts:6 | the radix is 16 exactly when the text ends in 'h', 10 otherwise |
| Utility.ParseSize | tools/rockdisk/src/utility.ts:1-13 | a number is returned unchanged; text fails exactly when `parseInt` yields NaN, with "size '<s>' cannot be converted to a number" |
| Utility.ParseSizeLeadingRun | tools/rockdisk/src/utility.ts:6-7 | the value is that of the leading run of valid digits, whatever follows it |
| Utility.ParseIntLeadingRun | tools/rockdisk/src/utility.ts:7 | `Number.parseInt` of an unsigned run of digits followed by a non-digit is the value of the run |
| Utility.ParseSizeNoLeadingDigit | tools/rockdisk/src/utility.ts:7-10 | text that starts with no digit, sign or white space fails with the error message |
| Utility.ParseSizeDecimal | tools/rockdisk/src/utility.ts:6-7 | the decimal digits of any n parse back to n |
| Utility.ParseSizeHex | tools/rockdisk/src/utility.ts:6-7 | the hexadecimal digits of any n followed by 'h' parse back to n |
| Utility.ParseSizeDecimalSuffixExample | tools/rockdisk/src/utility.ts:6-7 | "123d" is 123 |
| Utility.ParseSizeHexExample | tools/rockdisk/src/utility.ts:6-7 | "10h" is 16 |
| Utility.ParseSizeRejectExample | tools/rockdisk/src/utility.ts:7-10 | "what?" fails with "size 'what?' cannot be converted to a number" |
| Numerals.NatToDigits | tools/rockdisk/src/version-info.ts:54-56 | a number's digits are valid in the radix, without a leading zero, and their value is the number |
| Numerals.LeadingDigits | tools/rockdisk/src/version-info.ts:18 | the longest prefix of digits: a `\d+` run is greedy |
| Numerals.LeadingDigitsOfRun | tools/rockdisk/src/version-info.ts:18 | a run of digits followed by a non-digit is exactly the leading run |
| VersionInfo.MatchAtSound | tools/rockdisk/src/version-info.ts:18-19 | a match at a position is a 'v', digits, '.', digits substring with maximal digit runs |
| VersionInfo.MatchAtComplete | tools/rockdisk/src/version-info.ts:18-19 | every position where the pattern occurs gives a match |
| VersionInfo.FirstMatchNone | tools/rockdisk/src/version-info.ts:18-22 | the search finds nothing exactly when the pattern occurs at no position from the start onward |
| VersionInfo.FirstMatchSome | tools/rockdisk/src/version-info.ts:18-19 | the search returns the match at the leftmost position where one exists |
| VersionInfo.TryParse | tools/rockdisk/src/version-info.ts:17-28 | undefined exactly when no 'v', digits, '.', digits substring occurs anywhere; otherwise major and minor are the decimal values of the leftmost match's digit runs |
| VersionInfo.Parse | tools/rockdisk/src/version-info.ts:34-41 | `tryParse`'s value when there is one, otherwise "Version is not in a correct format: '<s>'" |
| VersionInfo.DecrementMinor | tools/rockdisk/src/version-info.ts:46-52 | fails exactly when minor is 0, with "Cannot decrement the minor version below zero"; otherwise the same major and minor - 1 |
| VersionInfo.ToString | tools/rockdisk/src/version-info.ts:54-56 | renders "v<major>.<minor>", at least four characters starting with 'v'; `TryParseToString` parses it back |
| VersionInfo.ToStringMatches | tools/rockdisk/src/version-info.ts:54-56 | "v<major>.<minor>" matches the pattern with the two numbers' digits as its groups |
| VersionInfo.TryParseToString | tools/rockdisk/src/version-info.ts:17-56 | parsing the rendered version gives the version back |
| VersionInfo.DecrementMinorRoundTrip | tools/rockdisk/src/version-info.ts:34-56 | decrementing a non-zero minor and rendering it parses to (major, minor - 1) |
| ParseArgs.Parse | tools/rockdisk/src/commands/parse-args.ts:21-32 | fails exactly when no 'v', digits, '.', digits substring occurs, with "Version is not in a correct format: '<s>'" |
| ParseArgs.ParseAgreesWithVersionInfo | tools/rockdisk/src/commands/parse-args.ts:21-32 | this copy of `parse` gives the same result as the one in version-info.ts on every string |
| ParseArgs.ParseToString | tools/rockdisk/src/commands/parse-args.ts:21-36 | parsing the rendered version returns an equal version |

## Left out

- File-system plumbing: file descriptors, `ensureDirSync`/`ensureFileSync` directory creation, the `finally` closes and errors other than a missing file are not modelled; a file is a byte sequence in a map.
- The short-write error of `copyBlock` ("read n bytes but only wrote out m") cannot happen with an in-memory store and is not modelled.
- JavaScript numbers are unbounded `nat`s here; `Number.MAX_SAFE_INTEGER` is the literal 9007199254740991, and negative or fractional sizes are not modelled.
- Promises and `await` are not modelled; the prompts are sequential calls.
- The terminal prompter's I/O is not modelled: raw mode, the console, the colours of `reportError`/`reportSuccess`, and `process.exit(1)` on Ctrl-C, which the model reports as the `Interrupted` outcome.
- Prompter.TerminalPromptYesNo: a finite key sequence stands for stdin; when it runs out without an answer the outcome is `Exhausted`, where the real program would keep waiting.
- Disk.CopyLoop: the count and bytes are stated only when source and destination differ; otherwise only that no other file changes (as for CopyBlock).
- Disk.CopyTurn: the chunk's effect on the bytes copied so far is stated only when source and destination differ; the count and the frame hold always.
- CompileOs.CompileStage: equality with `StageStep` is stated only when no file the stage reads or extracts to is its image (as for CompileOs).
- The state a yes/no callback keeps is modelled as the number of earlier callback calls.
- The virtual machine run by the operator is the `machine` parameter; what RockAsm compiles is not modelled.
- `path.basename` on Windows separators, and the `path.dirname`/`path.resolve` calls, are not modelled.
- Disk.CopyBlock: the byte-exact result is stated only when the source and destination paths differ; a copy of a file onto itself is modelled step by step but not specified.
- CopyDiskPart: when the payload is the image itself, the contract states when the part is rejected, that a rejection changes nothing, and that only the image changes; it does not state the bytes written.
- OsDisk.CreateBootableOsFloppy: the result is stated only when no payload path is the image path; otherwise only that the image exists and no other file changes.
- OsDisk.ExtractAndTrimCompiledFile: the bytes are stated only when the image is not the bin file; the failure condition and the frame hold always.
- CompileOs.CompileOs: the result is stated only when no named file is the floppy image.
- The command-line modules, `index.ts`, `source-file-tree.ts`, `src/parse-args.ts` and the path and JSON sector-map helpers of `commands/parse-args.ts` are outside the model.
