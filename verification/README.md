# Secure-C strings, NTC temperature, SPMI transfers, print wrappers

A Dafny model of the parts of this repository whose behaviour is hard to see
from one function body, with proofs over every input, every run or every
reachable state:

- **`libc_sec`**: the bounded copy, move, set, concatenate and tokenise
  functions of the secure-C library, over one flat memory in which source and
  destination may overlap. Character width is a parameter (`cap` is the largest
  accepted length), so narrow and wide functions share their tables.
- **NTC sensor** (`hisi_pmu_tsensor.c`, `hisi_pmic_spmi.c`): two ADC bytes to a
  12-bit value, millivolts, thermistor ohms, table bisection, interpolation.
- **SPMI path** (`hisi-spmi-dbgfs.c`, `hisi-spmi-core.c`,
  `hisi-spmi-controller.c`): chunking, range checks, command words, FIFO words
  and byte swap, down to a register file; and the debug log that streams dumps.
- **Format scan and print wrappers** (`secureprintoutput_a.c`, `vsprintf_s.c`,
  `vsnprintf_s.c`).

`dafny verify dfyconfig.toml` checks the whole project.

| file | contents |
|---|---|
| `Basics.dfy` | shared definitions |
| `Memory.dfy` | memory, strings in it, bounded length scans |
| `MemOps.dfy` | `memcpy_s`, `memmove_s`, `memset_s` and the performance routes |
| `CopyStrings.dfy`, `CatStrings.dfy` | `strcpy_s`, `strncpy_s`, `wcscpy_s`, `wcsncpy_s`, `strcat_s`, `strncat_s`, `_SM` macros |
| `StringRuns.dfy` | whole runs of string calls on one buffer |
| `Strtok.dfy` | `strtok_s`, one call and whole runs |
| `FormatScan.dfy`, `PrintWrappers.dfy` | the `%n` scan and the wrappers above it |
| `Ntc.dfy`, `NtcTable.dfy` | the temperature path, and the shipped table |
| `SpmiWords.dfy`, `SpmiRegisters.dfy`, `SpmiBus.dfy` | words, registers, transfers |
| `LogText.dfy`, `DebugLog.dfy` | the debug log: its lines and fills, and the driver's reads |

## How it is built

Code that changes memory or device state is a method on an array or a class and
is proved equal to a table (`CopySpec`, `NcpySpec`, `CatSpec`, `Tok`, ...), a
function of the memory before the call. What the source promises is then proved
about the tables: `CpyMeaning`, `CatMeaning`, `RunFollowsMachine`, `WholeRun`,
`ReportAntitone` and so on, which speak of texts, maximal runs and physical
quantities and not of the code's branches.

Linux configuration, performance add-ons on, `SECUREC_COMPATIBLE_WIN_FORMAT`
off. Addresses do not wrap, as the overlap macros themselves assume
(`libc_sec/src/securecutil.h:128`).

## What the proofs show about the code

- **The kernel path of the debug transfers moves at most 8 bytes.** Chunks are up
  to 16 bytes (`kernel-tools/spmi_hisi/hisi-spmi-dbgfs.c:30`), but the long
  extended commands accept 8 (`kernel-tools/spmi_hisi/include/hisi-spmi.h:24-25`).
  On a bus that always completes, a kernel-path transfer succeeds if and only if
  its count is at most 8; the help text promises any count. The firmware (ATF)
  path is not affected. The limit is a constant of the model's controller, so
  every other theorem holds for each value of it.
- `strncpy_s` and `wcsncpy_s` agree in code and memory on every input except
  exactly when a string is truncated onto itself (`NarrowVersusWide`).
- The overlap test of `strcat_s` is exact. For `strncat_s`, whose copy does not read
  the terminator, the same test is sufficient and refuses more than it must exactly
  when the source starts inside the destination text or runs into it from below
  (`NcatOverlapTest`); that of `strncpy_s` exactly when the source ends where the
  destination starts (`NcpyOverlapTest`).
- `SECUREC_STRNCPY_SM` equals `strncpy_s` wherever its `memcpy` is defined, except
  exactly for a count above the string limit, which it does not check, and for a
  cut source abutting its copy (`NcpySmVersusPlain`). `SECUREC_STRCAT_SM` differs
  from `strcat_s` exactly when the source is the destination's own terminator,
  `SECUREC_STRNCAT_SM` from `strncat_s` exactly where the latter's stricter
  overlap test refuses (`CatSmVersusPlain`, `NcatSmVersusPlain`).
- A raw fill of the debug log shows its lines whole except exactly when the buffer
  is a whole number of 80-character lines long and the fill takes all the items that
  fit; then the last line loses its newline (`FillIsWhole`). The buffer the driver
  allocates (4072 or 4084 characters) is never such a number, so there every line is
  whole (`AllocatedFillIsWhole`): the room test of 80 is one short of what it has to
  be, and the page size hides it.
- `spmi_register_read` passes a byte count of 0
  (`kernel-tools/spmi_hisi/hisi-spmi-core.c:352`): the command word that leaves has
  type 127 and length 16 whatever was asked for (`ZeroCountBits`, `CommandFields`),
  and on a bus that completes the call returns 0 without ever storing the byte
  (`RegisterRead`).
- A read of size 0 from a log that has text returns `-EFAULT`: the test that detects
  a failed copy (`kernel-tools/spmi_hisi/hisi-spmi-dbgfs.c:571`) compares two zeros
  (`RegRead`).
- `strtok_s` overwrites only the delimiter that ends each token; its comment says
  that all delimiters are replaced (`libc_sec/src/strtok_s.c:79-80`). The model
  follows the code (`CellAfter`).
- A run of `strtok_s` calls returns the maximal delimiter-free runs and then NULL if
  and only if the delimiter string is not a tail of the subject, two or more
  characters long, right behind a token (`RunIsRightExactly`); in that case ending
  the token empties the delimiter string and the rest of it comes back as a token.
- A device tree whose sensor name is empty matches the closing entry of the sensor
  list and clears a table known before (`ShippedNames`).

## Model

| member | source | states |
|---|---|---|
| Memory.StrNLen | libc_sec/src/securecutil.h:196-204 | the bounded scan stops at the first terminator or at the bound, reading no cell beyond |
| Memory.StrNLenOpt | libc_sec/src/securecutil.h:165-189 | the unrolled scan meets the same specification as the plain one |
| MemOps.OverlapMacros | libc_sec/src/securecutil.h:128-135 | the two overlap macros are complementary exactly on distinct pointers, and IS_OVERLAP means that some cell lies in both ranges |
| MemOps.CopyForward | libc_sec/src/memmove_s.c:32-42 | copying upwards gives the old source bytes whenever the destination does not start inside the source |
| MemOps.CopyBackward | libc_sec/src/memmove_s.c:43-55 | copying downwards gives the old source bytes whenever the destination does not start below the source |
| MemOps.UtilMemmove | libc_sec/src/memmove_s.c:26-56 | for every overlap the destination gets the old source bytes and nothing else changes |
| MemOps.SmallCopy | libc_sec/src/memcpy_s.c:27-428 | struct assignment and the fall-through switch copy every count up to the last label, and above it nothing |
| MemOps.CopyOpt | libc_sec/src/memcpy_s.c:430-439 | as long as the threshold does not exceed the last label, library copy and small copy have one effect on ranges that do not clash |
| MemOps.MemmoveS | libc_sec/src/memmove_s.c:86-118 | return code and whole final memory are those of the table, for every argument combination |
| MemOps.MemcpyError | libc_sec/src/memcpy_s.c:445-471 | on the inputs the fast path rejects, the error path gives the table's code and memory |
| MemOps.MemcpyS | libc_sec/src/memcpy_s.c:515-523 | code and memory of the memcpy_s table, including the reset of all destMax bytes on an overlap |
| MemOps.MemcpySOptAsm | libc_sec/src/memcpy_s.c:533-541 | the optimised entry has the same table |
| MemOps.MemcpySOptTc | libc_sec/src/memcpy_s.c:544-553 | so has the entry without the upper limit check, for every size within that limit, 0 included |
| MemOps.MemcpySp | libc_sec/src/securec.h:606-613 | every dispatch route of memcpy_sp equals memcpy_s; the constant-count route wherever its memcpy is defined |
| MemOps.CopyVersusMove | libc_sec/src/memcpy_s.c:445-523 | memcpy_s and memmove_s agree if and only if no distinct ranges clash; on a clash the whole buffer is zero |
| MemOps.MoveMeaning | libc_sec/src/memmove_s.c:58-118 | exactly when each of the five codes is returned, and every cell afterwards: EOK for all proper arguments, whatever the overlap, with cell dest+k the old src+k |
| MemOps.CopyMeaning | libc_sec/src/memcpy_s.c:445-523 | the same for memcpy_s, whose sixth code is for distinct ranges that share a cell |
| MemOps.MemFrame | libc_sec/src/memmove_s.c:86-118 | neither function writes outside the destination buffer; EOK means it holds the old source bytes, a reset that it is all zero |
| MemOps.UnalignedSet | libc_sec/src/memset_s.c:85-188 | the fall-through stores fill exactly count bytes |
| MemOps.SetOpt | libc_sec/src/memset_s.c:194-425 | aligned constant blocks, byte stores and library call have one effect |
| MemOps.MemsetError | libc_sec/src/memset_s.c:431-445 | code and memory for rejected arguments |
| MemOps.MemsetS | libc_sec/src/memset_s.c:469-477 | code and memory of the memset_s table, an empty buffer with count 0 included |
| MemOps.MemsetSOptAsm | libc_sec/src/memset_s.c:487-495 | same table |
| MemOps.MemsetSOptTc | libc_sec/src/memset_s.c:500-508 | same table for the sizes its macro lets through |
| MemOps.MemsetSp | libc_sec/src/securec.h:615-621 | every dispatch route of memset_sp equals memset_s on every input |
| MemOps.SetMeaning | libc_sec/src/memset_s.c:431-477 | exactly when each code is returned, and every cell afterwards, filled with the unsigned char congruent to c modulo 256 |
| MemOps.MaskedRangeTests | libc_sec/src/securectype.h:570-581 | for every 64-bit size the `& -2` range comparisons are the plain comparisons with the limit |
| MemOps.ClearLowBitTest | libc_sec/src/securec.h:606-621 | against any odd limit the masked comparison is the plain one |
| CopyStrings.CheckSrcRange | libc_sec/src/strcpy_s.c:264-279 | the rescan resets the destination exactly when the source has destMax characters or more |
| CopyStrings.StrcpyError | libc_sec/src/strcpy_s.c:284-299 | the error path gives the table's code and memory, equal pointers included |
| CopyStrings.StrcpyS | libc_sec/src/strcpy_s.c:327-348 | fast path plus rescan compute the strcpy table on every input and any overlap |
| CopyStrings.WcscpyS | libc_sec/src/wcscpy_s.c:17-85 | the wide form, with another overlap macro and no rescan, computes the same table |
| CopyStrings.StrcpySm | libc_sec/src/securectype.h:494-498 | the macro equals strcpy_s wherever its memcpy is defined |
| CopyStrings.CpyMeaning | libc_sec/src/strcpy_s.c:301-348 | EOK if and only if the source fits and does not partly overlap its copy; then the destination holds the old source string, otherwise the empty one; the rest of memory is unchanged |
| CopyStrings.ArgumentCodes | libc_sec/src/strcpy_s.c:284-299 | exactly when improper arguments give which of three codes, and that only one of them resets |
| CopyStrings.CpyCodes | libc_sec/src/strcpy_s.c:264-348 | exactly when strcpy_s returns each code, by lengths and addresses |
| CopyStrings.CheckSrcCountRange | libc_sec/src/strncpy_s.c:35-53 | resets exactly when the characters to copy fill the buffer |
| CopyStrings.StrncpyError | libc_sec/src/strncpy_s.c:58-82 | the error path gives the table's code and memory |
| CopyStrings.StrncpyS | libc_sec/src/strncpy_s.c:108-140 | code and memory of the strncpy table on every input |
| CopyStrings.StrncpySm | libc_sec/src/securectype.h:487-492 | what the macro does wherever its memcpy is defined, with no bound on count |
| CopyStrings.NcpySmVersusPlain | libc_sec/src/securectype.h:487-492 | the macro agrees with strncpy_s if and only if the count is within the limit and no cut source abuts its copy; where it differs it makes the copy |
| CopyStrings.NcpyMeaning | libc_sec/src/strncpy_s.c:84-140 | EOK if and only if the prefix fits and does not overlap; then the destination holds the first count characters, otherwise the empty string; the rest is unchanged |
| CopyStrings.NcpyCodes | libc_sec/src/strncpy_s.c:58-140 | exactly when strncpy_s returns each code |
| CopyStrings.NcpyOverlapTest | libc_sec/src/securecutil.h:141-143 | the overlap test is sound, and conservative exactly when a source ends where the destination starts |
| CopyStrings.DoCpyLimitW | libc_sec/src/wcsncpy_s.c:17-43 | code and memory of the wide table |
| CopyStrings.WcsncpyS | libc_sec/src/wcsncpy_s.c:75-106 | the same for the public function with all argument errors |
| CopyStrings.NarrowVersusWide | libc_sec/src/wcsncpy_s.c:17-106 | strncpy_s and wcsncpy_s agree in code and memory if and only if no string is truncated onto itself; then the narrow form stores one terminator and the wide form nothing, both with EOK |
| CatStrings.CatOverlapExact | libc_sec/src/securecutil.h:157-159 | on terminated strings the overlap macro holds exactly when cells read and cells written meet |
| CatStrings.NcatOverlapTest | libc_sec/src/strncat_s.c:20-52 | when the test does not refuse, cells copied and written are disjoint; it refuses disjoint ones if and only if the source starts inside the destination text or runs into it from below |
| CatStrings.CatDecision | libc_sec/src/strcat_s.c:20-50 | the code's branches, with a source scan cut where the buffer ends, give the table's return code; reaching the copy means that the scan stopped on a terminator and the ranges are disjoint |
| CatStrings.NcatDecision | libc_sec/src/strncat_s.c:20-52 | the same for the bounded form |
| CatStrings.CatTests | libc_sec/src/strcat_s.c:20-45 | the two scans and the tests leave memory alone and decide as the table does |
| CatStrings.DoCat | libc_sec/src/strcat_s.c:20-50 | code and memory of the strcat table |
| CatStrings.StrcatS | libc_sec/src/strcat_s.c:81-96 | the same with all argument errors |
| CatStrings.WalkDest | libc_sec/src/securectype.h:506-511 | the macro's walk ends at the destination's terminator or at the end of the buffer |
| CatStrings.StrcatSm | libc_sec/src/securectype.h:502-526 | what the macro does wherever its memcpy is defined |
| CatStrings.CatSmVersusPlain | libc_sec/src/securectype.h:502-526 | the macro agrees with strcat_s if and only if the source is not the destination's terminator; there it returns EOK and changes nothing |
| CatStrings.DoCatLimit | libc_sec/src/strncat_s.c:20-52 | code and memory of the strncat table |
| CatStrings.StrncatS | libc_sec/src/strncat_s.c:87-114 | the same with all argument errors |
| CatStrings.StrncatSm | libc_sec/src/securectype.h:533-564 | what the macro does wherever its memcpy is defined |
| CatStrings.NcatSmVersusPlain | libc_sec/src/securectype.h:533-564 | the macro agrees with strncat_s if and only if the latter's overlap test does not refuse what fits |
| CatStrings.NcatSmOutcome | libc_sec/src/securectype.h:547-553 | whatever fits is appended with EOK, refused by strncat_s or not |
| CatStrings.NcatSmRefusal | libc_sec/src/securectype.h:533-564 | such a refusal needs a source cut short, or the destination's own terminator as source |
| CatStrings.CatMeaning | libc_sec/src/strcat_s.c:52-96 | EOK if and only if both texts fit together and cells read and written are disjoint; then the destination holds old text plus old source, otherwise the empty string; the rest is unchanged |
| CatStrings.NcatMeaning | libc_sec/src/strncat_s.c:54-114 | the same for at most count characters |
| CatStrings.EndsExactly | libc_sec/src/strcat_s.c:20-30 | the destination counts as terminated exactly if one of its destMax cells is NUL |
| CatStrings.CatCodes | libc_sec/src/strcat_s.c:20-96 | exactly when strcat_s returns each code, unterminated destinations and texts that do not fit included |
| CatStrings.NcatCodes | libc_sec/src/strncat_s.c:20-114 | exactly when strncat_s returns each code |
| StringRuns.CallFollowsMachine | libc_sec/src/strcat_s.c:20-96 | one call of any of the four functions keeps the buffer terminated within destMax and acts on texts as the abstract machine does |
| StringRuns.RunFollowsMachine | libc_sec/src/strncat_s.c:20-114 | any run of the four functions, with any overlaps, keeps the buffer terminated, computes the machine's text and changes no other cell |
| StringRuns.AlwaysRunnable | libc_sec/src/strncpy_s.c:108-140 | in a memory ending in a terminator every list of calls is such a run: sources stay strings whatever the calls do |
| StringRuns.ApartRun | libc_sec/src/strcpy_s.c:264-348 | with sources outside the buffer the final text is a function of the initial texts alone |
| Strtok.DelimsAre | libc_sec/src/strtok_s.c:17-24 | the delimiters are exactly the characters in the cells of the delimiter string |
| Strtok.IsInDelimit | libc_sec/src/strtok_s.c:17-24 | true exactly when some cell of the delimiter string holds the character |
| Strtok.FindBegin | libc_sec/src/strtok_s.c:30-42 | the first position that holds no delimiter, or the end |
| Strtok.FindRest | libc_sec/src/strtok_s.c:47-61 | overwrites the first delimiter only and returns the position behind it, or the end |
| Strtok.UpdateToken | libc_sec/src/strtok_s.c:66-75 | the same with the context updated, and NULL when nothing was found |
| Strtok.StrtokS | libc_sec/src/strtok_s.c:95-112 | result, context and memory of one call, the NULL argument combinations included |
| Strtok.ListExists | libc_sec/src/strtok_s.c:77-94 | every string has a list of its maximal delimiter-free runs from left to right |
| Strtok.StepTakesFirstRun | libc_sec/src/strtok_s.c:95-112 | one call returns the first run, overwrites its delimiter and leaves the other runs to be found |
| Strtok.TraceIsCore | libc_sec/src/strtok_s.c:95-112 | repeated NULL calls keep searching the same text for the same delimiters although both are reread, unless the delimiter string spoils the run |
| Strtok.CallTakesRun | libc_sec/src/strtok_s.c:95-112 | call number n of a run returns run number n of the original string, and NULL once they are used up |
| Strtok.CellAfter | libc_sec/src/strtok_s.c:47-61 | after n calls exactly the delimiters ending the first n runs are overwritten, in all of memory |
| Strtok.TokensSurvive | libc_sec/src/strtok_s.c:66-112 | every pointer returned so far still holds exactly its run of the original string |
| Strtok.RemainingTextShrinks | libc_sec/src/strtok_s.c:95-112 | each successful call leaves strictly less text, a failing one leaves none and writes nothing |
| Strtok.WholeRun | libc_sec/src/strtok_s.c:77-112 | unless the delimiter string spoils the run, the tokens are the maximal non-empty delimiter-free runs in order, intact and terminated, then NULL for ever; only delimiters of the string are overwritten |
| Strtok.RunIsRightExactly | libc_sec/src/strtok_s.c:47-112 | every run longer than its tokens returns the runs and then NULL if and only if the delimiter string does not spoil it |
| Strtok.TokensInOrder | libc_sec/src/strtok_s.c:17-112 | the same over memory cells alone: tokens are maximal runs of cells equal to no cell of the delimiter string, and only cells equal to one are overwritten |
| Strtok.SpoiltRun | libc_sec/src/strtok_s.c:47-112 | in a spoilt run the call behind the last token returns the second character of the delimiter string |
| Strtok.SpoiltExample | libc_sec/src/strtok_s.c:47-61 | a four-cell memory in which the run is spoilt |
| Strtok.TokenRun | libc_sec/src/strtok_s.c:95-112 | a first call and n calls on NULL of the code make a run of the kind all these results speak of, for any two strings |
| FormatScan.FlagTableIs | libc_sec/src/secureprintoutput_a.c:27-40 | the entry of the 128-entry table is not zero exactly for the known flags |
| FormatScan.FlagsAre | libc_sec/src/secureprintoutput_a.c:28-30 | the known flags are the documented characters |
| FormatScan.SkipKnownFlags | libc_sec/src/secureprintoutput_a.c:25-52 | ends the longest run of flag characters, inside the string |
| FormatScan.ContainsN | libc_sec/src/secureprintoutput_a.c:54-75 | true if and only if some maximal run of `%` of odd length is followed by the longest run of flags and then `n`; the scan stays inside the string |
| FormatScan.SkipEven | libc_sec/src/secureprintoutput_a.c:57-66 | a run of `%` of even length starts no conversion |
| FormatScan.SkipOdd | libc_sec/src/secureprintoutput_a.c:67-73 | an odd run whose flags are not followed by `n` can be skipped with its flags |
| PrintWrappers.VsnprintfImpl | libc_sec/src/secureprintoutput_a.c:79-99 | return value and terminated text for a refused format, an error, a truncation and a fit; no cell outside the buffer changes |
| PrintWrappers.ClearDest | libc_sec/src/secureprintoutput.h:116-120 | empties a destination that can be written, and only that |
| PrintWrappers.VsprintfS | libc_sec/src/vsprintf_s.c:41-63 | return value and text, parameter errors included |
| PrintWrappers.VsnprintfTruncatedS | libc_sec/src/vsnprintf_s.c:112-133 | return value and text, a truncation returning destMax - 1 |
| PrintWrappers.VsnprintfS | libc_sec/src/vsnprintf_s.c:44-80 | return value and text for every relation of count and destMax |
| PrintWrappers.WrapperGuarantees | libc_sec/src/vsnprintf_s.c:18-133 | the text fits and is a prefix of the formatted one; a non-negative return is its length; a negative one means empty except exactly for a vsnprintf_s truncation at a count below destMax |
| PrintWrappers.SprintfMeaning | libc_sec/src/vsprintf_s.c:41-63 | succeeds if and only if the text is printed and fits, and then leaves it; otherwise -1 and the empty string |
| PrintWrappers.SnprintfMeaning | libc_sec/src/vsnprintf_s.c:44-80 | succeeds if and only if the text fits buffer and count; otherwise -1 and the first count characters or nothing, stated exactly |
| PrintWrappers.TruncatedMeaning | libc_sec/src/vsnprintf_s.c:112-133 | returns and leaves as much of the text as fits |
| PrintWrappers.ArgumentMeaning | libc_sec/src/secureprintoutput.h:113-120 | which arguments are usable, and what unusable ones leave |
| PrintWrappers.WrappersAgreeOnFittingText | libc_sec/src/vsprintf_s.c:41-63 | where nothing has to be cut the three wrappers agree |
| Ntc.RawBits | kernel-tools/spmi_hisi/hisi_pmic_spmi.c:604-605 | shifts and masks assemble the 12-bit value |
| Ntc.Raw | kernel-tools/spmi_hisi/hisi_pmic_spmi.c:594-605 | the raw value is the 16-bit value of both bytes without its low four bits |
| Ntc.MilliVolts | kernel-tools/spmi_hisi/hisi_pmic_spmi.c:630-632 | the largest whole millivolt value not above the counts' share of the 1800 mV reference |
| Ntc.MilliVoltsMonotone | kernel-tools/spmi_hisi/hisi_pmic_spmi.c:619-633 | more counts are never fewer millivolts |
| Ntc.OhmFits64 | kernel-tools/spmi_hisi/hisi_pmu_tsensor.c:353-382 | the 64-bit product does not overflow for 32-bit inputs |
| Ntc.OhmIsTight | kernel-tools/spmi_hisi/hisi_pmu_tsensor.c:353-382 | the reported resistance is the largest integer whose divider voltage does not exceed mv |
| Ntc.OhmMonotone | kernel-tools/spmi_hisi/hisi_pmu_tsensor.c:336-382 | resistance is monotone in the voltage, failures included |
| Ntc.LookupComp | kernel-tools/spmi_hisi/hisi_pmu_tsensor.c:390-461 | the bisection with early exit stays inside the table, terminates and returns the bracket |
| Ntc.BracketIsUnique | kernel-tools/spmi_hisi/hisi_pmu_tsensor.c:390-461 | there is one bracket, and when its ends differ its two resistances differ, so the divisor is not zero |
| Ntc.GetTempMc | kernel-tools/spmi_hisi/hisi_pmu_tsensor.c:469-497 | the interpolated temperature as a function of resistance, with C's truncating division |
| Ntc.TempIsTight | kernel-tools/spmi_hisi/hisi_pmu_tsensor.c:469-497 | at an entry the entry's temperature, between entries the exact line through them rounded up by less than a milli-degree |
| Ntc.TempWithinBracket | kernel-tools/spmi_hisi/hisi_pmu_tsensor.c:469-497 | it lies between the temperatures of its bracket |
| Ntc.TempBounded | kernel-tools/spmi_hisi/hisi_pmu_tsensor.c:469-497 | it lies between 1000 times the first and last table temperatures |
| Ntc.TempAntitone | kernel-tools/spmi_hisi/hisi_pmu_tsensor.c:390-497 | more resistance never gives a higher temperature, within a bracket or across brackets |
| Ntc.InterpolationFits32 | kernel-tools/spmi_hisi/hisi_pmu_tsensor.c:491-494 | no intermediate value overflows an int when the products at the table entries do not |
| Ntc.ReportAntitone | kernel-tools/spmi_hisi/hisi_pmu_tsensor.c:505-550 | through all five stages a larger raw value never reports a higher temperature, successful raw values are downward closed, and reports lie within the table |
| Ntc.ReportMeaning | kernel-tools/spmi_hisi/hisi_pmu_tsensor.c:353-550 | a report is missing exactly if the voltage reaches the pull-up voltage or the resistance is out of range; otherwise it is the table's temperature for the largest resistance whose divider voltage does not exceed the measured one: an entry's own, or the line between two entries rounded up by less than a milli-degree |
| Ntc.ResistanceExists | kernel-tools/spmi_hisi/hisi_pmu_tsensor.c:353-382 | that resistance exists and is unique |
| Ntc.NtcDevice.MatchSensor | kernel-tools/spmi_hisi/hisi_pmu_tsensor.c:292-302 | the table becomes that of the first entry with the name, the closing entry's missing one included; an unknown name keeps it |
| Ntc.NtcDevice.GetDeviceTreeData | kernel-tools/spmi_hisi/hisi_pmu_tsensor.c:273-328 | succeeds exactly when the name leads to a table and every property is present; every field afterwards, on the early exits too |
| Ntc.NtcDevice.ReadTemp | kernel-tools/spmi_hisi/hisi_pmu_tsensor.c:505-550 | the report of the bytes read if and only if the channel, the output and every register access are good and the device is initialised; initialisation happens exactly on the first usable call with complete properties and is kept |
| NtcTable.ShippedIsTable | kernel-tools/spmi_hisi/hisi_pmu_tsensor.c:82-249 | the 166 entries of the shipped table are ordered as the lookup needs, no interpolation in it overflows, and it spans -40 to 125 degrees |
| NtcTable.ShippedRange | kernel-tools/spmi_hisi/hisi_pmu_tsensor.c:82-249 | with the shipped table every report lies between -40000 and 125000 milli-degrees, for all inputs |
| NtcTable.ShippedNames | kernel-tools/spmi_hisi/hisi_pmu_tsensor.c:251-302 | against the shipped list the one name leads to the shipped table, the empty name to none, any other to what was known |
| SpmiWords.CommandFields | kernel-tools/spmi_hisi/hisi-spmi-controller.c:262-266 | the controller decodes every field the driver encoded, except that a count of 0 reads as type 127 and length 16 |
| SpmiWords.ZeroCountBits | kernel-tools/spmi_hisi/hisi-spmi-controller.c:192-196 | with a count of 0 the or-ed word has every bit of type and length set, whatever the operation |
| SpmiWords.CommandBits | kernel-tools/spmi_hisi/hisi-spmi-controller.c:192-196 | the fields do not overlap: or-ing them is the sum of the fields at weights 2^31, 2^24, 2^20, 2^16 and 1 |
| SpmiWords.CommandWeights | kernel-tools/spmi_hisi/hisi-spmi-controller.c:262-266 | the model's command word is that sum |
| SpmiWords.SwapBits | kernel-tools/spmi_hisi/hisi-spmi-controller.c:61-64 | the byte-swap macro reverses the four bytes |
| SpmiWords.BytesOfValue | kernel-tools/spmi_hisi/hisi-spmi-controller.c:61-64 | a data word's bytes are the base-256 digits of its value |
| SpmiWords.SentWord | kernel-tools/spmi_hisi/hisi-spmi-controller.c:272-292 | the value written for up to four bytes has the first byte most significant |
| SpmiWords.SentBytes | kernel-tools/spmi_hisi/hisi-spmi-controller.c:271-294 | a word filled from memory and swapped leaves in memory order |
| SpmiWords.ReceivedBytes | kernel-tools/spmi_hisi/hisi-spmi-controller.c:206-224 | a received word, swapped, enters memory in bus order |
| SpmiRegisters.FlatParts | kernel-tools/spmi_hisi/hisi-spmi-dbgfs.c:231-232 | address 65536 * sid + addr names register addr of slave sid |
| SpmiRegisters.OffsetBits | kernel-tools/spmi_hisi/hisi-spmi-dbgfs.c:279-280 | the driver's shift and masks are the quotient and remainders used |
| SpmiRegisters.BurstIsFlat | kernel-tools/spmi_hisi/hisi-spmi-dbgfs.c:230-232 | if a slave's address counter wraps within its 16 bits, a burst follows 20-bit addresses if and only if it does not run past the slave's last register |
| SpmiRegisters.AlignedIsFlat | kernel-tools/spmi_hisi/hisi-spmi-dbgfs.c:222-300 | from a 16-aligned address chunks and single bytes visit the same registers in the same order |
| SpmiRegisters.PathsAgree | kernel-tools/spmi_hisi/hisi-spmi-dbgfs.c:222-300 | under the same assumption the two paths visit the same registers in the same order if and only if the transfer is 16-aligned or stays within one slave |
| SpmiRegisters.PutThenGet | kernel-tools/spmi_hisi/hisi-spmi-dbgfs.c:270-300 | bytes stored in distinct registers are read back unchanged |
| SpmiRegisters.PutAllFrame | kernel-tools/spmi_hisi/hisi-spmi-dbgfs.c:270-300 | a register not visited keeps its value |
| SpmiRegisters.VisitedDistinct | kernel-tools/spmi_hisi/hisi-spmi-dbgfs.c:222-300 | transfers of up to 2^20 bytes name no register twice, on either path and from any address |
| SpmiBus.Controller.FillWriteFifo | kernel-tools/spmi_hisi/hisi-spmi-controller.c:271-294 | the packing loop puts exactly the buffer's bytes on the bus, a partial last word included, and each data register gets its four bytes as a big-endian number; a count of 0 stores one zero word |
| SpmiBus.Controller.WriteCmd | kernel-tools/spmi_hisi/hisi-spmi-controller.c:234-305 | the command register gets type 1, 3 or 5 by opcode with count, slave and address in their places; success with a count above 0 means the addressed burst of registers got the buffer's bytes; bad opcodes and counts are refused without effect |
| SpmiBus.Controller.DrainReadFifo | kernel-tools/spmi_hisi/hisi-spmi-controller.c:206-224 | the unpacking loop stores exactly the FIFO's bytes and nothing beside them |
| SpmiBus.Controller.ReadCmd | kernel-tools/spmi_hisi/hisi-spmi-controller.c:164-231 | the command register gets type 2, 4 or 6 by opcode; success with a count above 0 means the buffer got the addressed burst of registers, which are unchanged; with a count of 0 the buffer stays as it is |
| SpmiBus.Controller.RegisterRead | kernel-tools/spmi_hisi/hisi-spmi-core.c:346-353 | the buffer never changes, although on a bus that completes every accepted call returns 0 |
| SpmiBus.Controller.ExtRegisterWriteL | kernel-tools/spmi_hisi/hisi-spmi-core.c:473-486 | range check, then the write; refused lengths have no effect |
| SpmiBus.Controller.ExtRegisterReadL | kernel-tools/spmi_hisi/hisi-spmi-core.c:396-407 | range check, then the read |
| SpmiBus.Controller.WriteData | kernel-tools/spmi_hisi/hisi-spmi-dbgfs.c:270-300 | an answer that is not negative means exactly the visited registers got the bytes in order, and is 0 or the firmware's last answer; on a bus that completes it comes if and only if the first chunk is within the limit, and otherwise nothing is written |
| SpmiBus.Controller.ReadData | kernel-tools/spmi_hisi/hisi-spmi-dbgfs.c:222-258 | success means the bytes of the visited registers in order, registers and the rest of the buffer unchanged; same condition |
| SpmiBus.WriteThenRead | kernel-tools/spmi_hisi/hisi-spmi-dbgfs.c:222-300 | a write and a read that both succeed return the bytes written and change no other register, on one path from any address, and on two wherever they agree; after a flat write register a of slave s holds byte 65536 * s + a - offset |
| SpmiBus.StoredAt | kernel-tools/spmi_hisi/hisi-spmi-dbgfs.c:270-300 | byte k of a flat transfer is in the register whose slave and address make up offset + k |
| SpmiBus.KernelPathLimit | kernel-tools/spmi_hisi/include/hisi-spmi.h:24-25 | with the header's limit the kernel path accepts a write, and a read, if and only if it has at most 8 bytes |
| SpmiBus.Controller.Start | kernel-tools/spmi_hisi/hisi-spmi-controller.c:135-162 | a transaction completes, fails or times out; only a completed one has the decoded command's effect |
| DebugLog.Trans.constructor | kernel-tools/spmi_hisi/hisi-spmi-dbgfs.c:140-180 | an empty log of a page less its header, with the count and address of the controller data |
| DebugLog.Trans.PrintToLog | kernel-tools/spmi_hisi/hisi-spmi-dbgfs.c:311-324 | appends what fits in front of the terminator and advances wpos by just that |
| DebugLog.Trans.WriteToLog | kernel-tools/spmi_hisi/hisi-spmi-dbgfs.c:339-434 | if and only if there is room for 80 or 55 characters and the read succeeds, one line of the bytes the bus returned is appended and they leave the count; otherwise nothing happens |
| LogText.LineIsWhole | kernel-tools/spmi_hisi/hisi-spmi-dbgfs.c:339-434 | a line is whole, its separator turned into a newline, if and only if it is not a full raw line with just 80 characters of room |
| LogText.LineReads | kernel-tools/spmi_hisi/hisi-spmi-dbgfs.c:339-434 | in any line, cut or not, the two digits of item i read to base 16 are byte i, and a formatted line starts with address 0 |
| LogText.LineTellsBytes | kernel-tools/spmi_hisi/hisi-spmi-dbgfs.c:339-434 | the text of a line, cut or not, determines the bytes it shows |
| LogText.FillIsWhole | kernel-tools/spmi_hisi/hisi-spmi-dbgfs.c:402-471 | a fill is its whole lines put together if and only if it does not exhaust a buffer of a whole number of raw lines |
| LogText.AllocatedFillIsWhole | kernel-tools/spmi_hisi/hisi-spmi-dbgfs.c:142-169 | with the buffer the driver allocates, every line of every fill is whole |
| LogText.CutExample | kernel-tools/spmi_hisi/hisi-spmi-dbgfs.c:402-434 | a buffer of 80 characters would cut the first full raw line |
| LogText.FillTellsLines | kernel-tools/spmi_hisi/hisi-spmi-dbgfs.c:442-471 | two fills of a buffer with the same text show the same bytes, line by line |
| DebugLog.Trans.FillBuffer | kernel-tools/spmi_hisi/hisi-spmi-dbgfs.c:464-471 | the fill loop terminates; the buffer holds lines of 16 items or the rest, each showing what the bus answered; items are left only for lack of room or a failed read |
| DebugLog.Trans.GetLogData | kernel-tools/spmi_hisi/hisi-spmi-dbgfs.c:442-478 | consumed items move from count to offset, their sum conserved modulo 2^32; the fill is one of the bus's bytes; nothing is delivered |
| DebugLog.Conserved | kernel-tools/spmi_hisi/hisi-spmi-dbgfs.c:473-475 | the conservation holds across a wrap of the 32-bit offset |
| DebugLog.Trans.RegRead | kernel-tools/spmi_hisi/hisi-spmi-dbgfs.c:554-582 | one read refills only an empty log and hands out the next piece, exactly as long as asked for, available and copied; it returns 0 only with everything logged delivered, and each success comes closer to that |
| DebugLog.Trans.ReadRun | kernel-tools/spmi_hisi/hisi-spmi-dbgfs.c:554-582 | over any run of reads of any sizes 0 <= rpos <= wpos <= len holds, count plus offset is conserved, and the pieces delivered are the fills put together, none lost or repeated; each fill shows the bytes of its own, later bus reads and starts with the items the earlier ones left |
| DebugLog.Trans.ReadAll | kernel-tools/spmi_hisi/hisi-spmi-dbgfs.c:554-582 | reading on with any buffer size ends, with everything logged delivered and the count used up unless the bus failed or no line fits the log |
| DebugLog.Trans.ChainIsWhole | kernel-tools/spmi_hisi/hisi-spmi-dbgfs.c:142-169 | with the allocated buffer every fill of such a run shows its lines whole |

## Left out

- MemOps.MemcpySp: on the constant-count route a clash of distinct ranges is outside the contract, because plain `memcpy` is undefined there; the other routes have no such proviso.
- CopyStrings.StrcpySm: a fitting source that clashes with its copy is outside the contract for the same reason; likewise for the other `_SM` macros.
- SpmiRegisters.BurstIsFlat: that a slave's address counter wraps within its 16 bits is an assumption about the hardware; the driver sends one command word and does not say.
- SpmiBus.Controller.WriteCmd: what the controller and the slave do with the command a count of 0 produces is not known, so nothing is promised about the registers then.
- SpmiBus.Controller.Start: that the controller sends the most significant byte of a data register first is an assumption about the hardware; the status polling loop is an outcome chosen by the environment; spinlocks, delays and barriers are not modelled, each transaction is atomic.
- DebugLog.Trans.WriteToLog: which addresses a dump shows is not claimed; the line writers are given offset 0 (`kernel-tools/spmi_hisi/hisi-spmi-dbgfs.c:467`). The two names the source uses for the log field are one field here.
- FormatScan.SkipKnownFlags: format and destination are separate arrays, so a format inside the destination is not modelled.
- Ntc.InterpolationFits32: other 32-bit conversions of device-tree values are not modelled; parameters are natural numbers.
- String sources are NUL-terminated, and addresses do not wrap.
- libc `vsnprintf` is a parameter: some NUL-free text or an error that may leave anything behind.
- `input.inl`, `output.inl` and the scanf family: the formatter itself is not part of this model.
- `gets_s` and its line-end trimming, and the remaining wide-character files: input and output, and the same code at another width.
- `spmi_dfs_reg_write`, probe and remove, device registration, interrupts, power management, debugfs creation: foreign kernel calls.
- Regulator voltage tables, enable and disable functions: short straight-line code over fixed tables.
- `driver/inc` declarations and the signing scripts.
