# A Dafny model of parts of the libc headers

This project models the code in this C library that has the most behaviour packed
into headers and small files, and proves what that code is for:

- **The floating-point environment** (`fenv.h` and `i387/fenv.c`). Two hardware units,
  the x87 and SSE, must look to a C program like the single environment of section 7.6
  of ISO/IEC 9899:1999. `Words.dfy` gives machine words as sets of bits; `FenvModel.dfy`
  has the registers and what each function does to them; `Fenv.dfy` has the functions
  themselves, instruction by instruction, on a mutable process; `FenvRuns.dfy` has whole
  programs and the single abstract environment; `FenvTheorems.dfy`, `FenvLaws.dfy`
  and `FenvFrames.dfy` have the results.
- **The directive scanner** of `strspn-1.c` (`Scanner.dfy`), which cuts the buffer it is
  scanning, for any NUL-terminated buffer.
- **Recognising a double that is a small integer** (`JsNumber.dfy`), for every 64-bit
  pattern, with exact values in units of the least positive double.
- **Argz vectors** (`ArgzModel.dfy`, `ArgzText.dfy`, `Argz.dfy`): the iterator of
  `argz.h` and the functions that build and change vectors, as operations on lists of
  strings.
- **Wide characters**: the generator of the screen-width table and the search over it
  (`Widths.dfy`), the classification functions of `locale_ctype.c`, the tables made from
  them and the inline fast paths that use the tables (`Ctype.dfy`).
- **The a.out header macros** (`AOut.dfy`) and **byte swaps** (`ByteSwap.dfy`).

`Numbers.dfy` (C integers and the bitwise `&`), `CStrings.dfy` and `Options.dfy` hold what
several of these share.

`dafny verify dfyconfig.toml` checks everything.

## The machine

The x87 instructions follow the Intel manual: FNSTENV masks every exception after
storing, FNCLEX also clears stack fault, error summary and busy, and FLDCW, FLDENV and
FWAIT wait for pending exceptions, which is when a math fault happens. Error summary and
busy always follow the flags and masks. Control words are loaded as they are given, and
condition codes survive FNCLEX and FNSTCW. A machine may lack CPUID, SSE, or the
denormals-are-zeros bit of MXCSR. Between library calls a program may do x87 and SSE
arithmetic that raises any flags, the x87 stack fault (which is an invalid operation)
included. A fault ends a call, and a run. Saved `fenv_t` objects are numbered in the order
they were stored, with `FE_DFL_ENV` first.

## Where the code and its documentation differ

- `feenableexcept` and `fedisableexcept` return the complement of the old masks without
  cutting it to the six exceptions, so never what `fegetexcept` returns
  (`OldEnabledMeans`).
- `feclearexcept` of all exceptions at once also clears the x87 stack fault bit, which
  clearing them in two calls does not (`ClearTwice`, and runs that show it in
  `StackFaultTells`).
- `argz_replace` is documented to count replacements and counts entries
  (`HitsAreReplacements`, `CountedOnce`).
- `argz_create_sep` and `argz_add_sep` drop empty pieces except one after a trailing
  delimiter (`EmptyPieceIff`, `TrailingDelimiter`).
- `argz_insert` looks backwards for the start of an entry, and finds no NUL to stop at
  when its position is strictly inside the first entry (`SearchStops`, `SearchLeaves`).
- `argz_add_sep` overwrites the pointer with null when it runs out of memory and keeps
  the length, so the vector is usable afterwards if and only if the call succeeded or the
  vector was empty (`AddSep`, `LoseVector`); `argz_create` and `argz_create_sep` do the
  same to a length that was not 0. `argz_append`, `argz_insert` and `argz_replace` leave
  the vector alone.
- The `for` style of iterating documented in `argz.h` visits an entry that is not there
  when the vector is empty and its pointer is not null (`IterateFor`).
- `__wctype` and its relatives pass an `int` to functions of a 16-bit `__wchar_t`, so a
  character beyond U+FFFF is taken for another (`FastIsSlow`, `HighCharacterAliases`).
- `_ctype.h` says that the bidirectional class is part of a type word; the shift that
  should put it there binds tighter than the mask, so it never is (`BidiLost`).
- ROUNDUP of 32-bit operands gives the least multiple if and only if the sum inside it
  does not wrap (`RoundUpIsLeast`). The data address is that macro for every text size
  (`DatAddrIsRoundUp`), so it is the boundary above the text exactly for text sizes up to
  0xfffe0000 (`DatAddrIsBoundary`); one byte more and it is 0 (`DatAddrWraps`).

## Model

| member | source | states |
|---|---|---|
| Fenv.Process.TestSse | src/emx/src/lib/msun/i387/fenv.c:64-85 | The probe answers whether the machine has SSE and leaves a correct cache, without CPUID on a machine that lacks it; the ID flag stays toggled |
| Fenv.Process.SseAvailable | src/emx/include/fenv.h:85-94 | The cached test always answers correctly, and probes only when the cache is unknown |
| Fenv.Process.FeClearExcept | src/emx/include/fenv.h:113-132 | Clears the named flags in both units; the control word is unchanged although FNSTENV masks it on the way, and no MXCSR instruction runs without SSE |
| Fenv.Process.FeGetExceptFlag | src/emx/include/fenv.h:134-147 | Stores the requested flags of the union of both units and changes nothing but the cache |
| Fenv.Process.FeTestExcept | src/emx/include/fenv.h:152-164 | Returns the requested flags of the union of both units |
| Fenv.Process.FeSetRound | src/emx/include/fenv.h:181-203 | Rejects anything but a rounding mode; otherwise sets the field in both units, or faults with nothing changed |
| Fenv.Process.FeSetEnv | src/emx/include/fenv.h:208-228 | Loads both units from the image, with the exact conditions under which it faults |
| Fenv.Process.FeSetExceptFlag | src/emx/src/lib/msun/i387/fenv.c:87-106 | Makes the named flags equal to the given ones in both units, with control and other flags untouched |
| Fenv.Process.FeRaiseExcept | src/emx/src/lib/msun/i387/fenv.c:108-116 | Raises flags in both units and faults exactly when one is then pending |
| Fenv.Process.FeGetEnv | src/emx/src/lib/msun/i387/fenv.c:118-136 | Stores the environment and leaves it as it was, the masks included |
| Fenv.Process.FeHoldExcept | src/emx/src/lib/msun/i387/fenv.c:138-153 | Stores the environment, then clears flags and masks everything in both units |
| Fenv.Process.FeUpdateEnv | src/emx/src/lib/msun/i387/fenv.c:155-169 | Loads the image and raises the flags that were set before |
| Fenv.Process.FeEnableExcept | src/emx/src/lib/msun/i387/fenv.c:171-191 | Unmasks exceptions in both units and returns the complement of the old masks |
| Fenv.Process.FeDisableExcept | src/emx/src/lib/msun/i387/fenv.c:193-213 | Masks exceptions in both units and returns the complement of the old masks |
| Fenv.Process.Execute | src/emx/include/fenv.h:113-248 | A whole program run by these functions is the run of the model: same state, same values, same fault |
| FenvTheorems.MxcsrPacking | src/emx/include/fenv.h:39-53 | Splitting MXCSR over two reserved fields is a round trip both ways |
| FenvTheorems.RunKeepsInv | src/emx/include/fenv.h:72-94 | Over every run: the units agree on rounding and masks, every saved image is loadable, the cache is unknown or right, no reserved MXCSR bit is loaded, no library call uses SSE that is not there |
| FenvTheorems.ReadingEitherUnit | src/emx/include/fenv.h:166-179 | Under that invariant the x87 alone gives the rounding mode and masks that MXCSR holds |
| FenvTheorems.StepMeans | src/emx/include/fenv.h:113-248 | Each call that does not fault does and returns what one abstract environment would |
| FenvTheorems.RunMeans | src/emx/include/fenv.h:113-248 | Every run that does not fault is a run of the one abstract environment of the C standard, values included |
| FenvTheorems.OldEnabledMeans | src/emx/src/lib/msun/i387/fenv.c:171-213 | The two mask functions return the enabled exceptions plus every higher bit, so never what fegetexcept returns |
| FenvLaws.SetEnvForgets | src/emx/include/fenv.h:208-228 | Any two runs that end in fesetenv of equal images have the same environment |
| FenvLaws.RestoreAfterRun | src/emx/src/lib/msun/i387/fenv.c:118-136 | fegetenv, any run, fesetenv: every register is back |
| FenvLaws.DefaultEstablishes | src/emx/src/lib/msun/i387/fenv.c:35-43 | FE_DFL_ENV brings the units into agreement from any state |
| FenvLaws.HoldIsNonStop | src/emx/src/lib/msun/i387/fenv.c:138-153 | After feholdexcept no run that leaves the masks alone faults in either unit |
| FenvLaws.HoldThenUpdate | src/emx/src/lib/msun/i387/fenv.c:138-169 | Hold, compute, update: rounding and masks come back, flags are joined, and the exact condition for a fault |
| FenvLaws.ClearTwice | src/emx/include/fenv.h:113-132 | Clearing a then b equals clearing both at once, if and only if the stack fault bit does not tell the FNCLEX path apart; flags and control always agree |
| FenvLaws.StackFaultTells | src/emx/include/fenv.h:113-132 | Runs that reach such states: after an x87 stack fault two partial clears leave the bit that one full clear removes, with the same environment for C |
| FenvLaws.SetRoundFrame | src/emx/include/fenv.h:181-203 | An accepted fesetround is read back and touches no flag, mask or precision bit; a rejected one changes nothing |
| FenvLaws.SetRoundOfGetRound | src/emx/include/fenv.h:166-203 | Setting the mode just read is a no-op if and only if the units agree on it |
| FenvLaws.EnableUndoesDisable | src/emx/src/lib/msun/i387/fenv.c:171-213 | Enabling what fedisableexcept returned restores both units |
| FenvLaws.ExceptFlagRoundTrip | src/emx/src/lib/msun/i387/fenv.c:87-106 | Flags saved by fegetexceptflag come back, and no other flag moves |
| FenvLaws.FaultsExactly | src/emx/include/fenv.h:100-111 | For every call, the exact states in which it is cut short by a math fault |
| FenvFrames.StepFrame | src/emx/src/lib/msun/i387/fenv.c:87-213 | Every call but those that load an environment leaves precision control, condition codes, tags, pointers, denormals-are-zeros and flush-to-zero alone, all of MXCSR without SSE, and the stack fault unless it runs FNCLEX |
| FenvFrames.RunFrame | src/emx/include/fenv.h:113-248 | The same over every run of such calls |
| FenvFrames.LoadFrame | src/emx/src/lib/msun/i387/fenv.c:155-169 | fesetenv and feupdateenv load all of the image, the flags that the second adds apart |
| FenvFrames.CacheFrame | src/emx/src/lib/msun/i387/fenv.c:64-85 | A known cache is never touched, nor EFLAGS with it; an unknown one is filled with the truth and the ID flag flips exactly where there is CPUID |
| FenvFrames.UnitFlags | src/emx/src/lib/msun/i387/fenv.c:87-116 | The flags of each unit by itself after every call: both units are treated alike |
| FenvFrames.FaultKeeps | src/emx/include/fenv.h:181-228 | A call cut short by a pending exception has changed no register of the environment |
| FenvFrames.DefaultImage | src/emx/src/lib/msun/i387/fenv.c:35-43 | The default control word is 0x127f, with no flag set and every tag empty |
| FenvFrames.DefaultMxcsr | src/emx/src/lib/msun/i387/fenv.c:39-39 | The default MXCSR is 0x1f80 |
| FenvFrames.ExceptMask | src/emx/include/fenv.h:58-65 | The six exceptions are 0x3f |
| FenvFrames.RoundMask | src/emx/include/fenv.h:68-73 | The rounding field is 0x0c00 |
| FenvFrames.SseExceptMask | src/emx/include/fenv.h:81-81 | The masks of MXCSR are 0x1f80 |
| FenvFrames.SseRoundMask | src/emx/include/fenv.h:80-80 | The rounding field of MXCSR is 0x6000 |
| Scanner.Scan | testcase/strspn-1.c:41-75 | The destructive loop prints what the original string means, finds its tokens, and changes exactly the '%' signs that open directives |
| Scanner.OpenDirective | testcase/strspn-1.c:46-54 | Cuts at the '%', prints the text before it, copies '%' and flags out |
| Scanner.TokensSpell | testcase/strspn-1.c:43-58 | The tokens concatenate back to the original string |
| Scanner.FlagIs | testcase/strspn-1.c:50-50 | A flag is a character of "#-+.I 0123456789" and no other |
| Scanner.FlagsEndIsSpan | testcase/strspn-1.c:50-50 | The flags end where strspn over that string ends |
| Scanner.PrintedText | testcase/strspn-1.c:48-48 | Text without '%' is printed as it is, and what follows it as if it stood alone |
| Scanner.PrintedDirective | testcase/strspn-1.c:50-67 | A '%', flags and a conversion character print '%' if that is the character and nothing otherwise, and what follows as if it stood alone |
| Scanner.PrintedTrailing | testcase/strspn-1.c:59-64 | A directive that the string ends in prints '%' |
| JsNumber.NewNumberValue | testcase/floatingpoint/jsnumexception.c:37-57 | For every pattern and any result of an out-of-range conversion: succeeds exactly on integers of magnitude at most 2^30-1 other than negative zero, and stores the integer |
| JsNumber.BitTests | testcase/floatingpoint/jsnumexception.c:22-28 | The bitwise masks decide finiteness and negative zero |
| JsNumber.ExponentBits | testcase/floatingpoint/jsnumexception.c:27-28 | The bitwise and with the exponent mask is the exponent field in its place |
| JsNumber.CastEqual | testcase/floatingpoint/jsnumexception.c:30-32 | Comparing with the truncation recognises the integers of the int range and nothing else |
| JsNumber.FitsIs | testcase/floatingpoint/jsnumexception.c:34-34 | The wrap-around unsigned test is the plain range test |
| JsNumber.TruncatedIs | testcase/floatingpoint/jsnumexception.c:30-32 | The conversion takes the whole part of the magnitude and keeps the sign |
| JsNumber.PackUnpack | src/emx/include/ieee754.h:71-99 | The two views of the union correspond one to one |
| JsNumber.PowerOfTwoPattern | src/emx/include/ieee754.h:92-130 | 0x3ff00000:00000000 is 1, each step of the exponent field doubles it up to 2^1023, and the top bit negates |
| JsNumber.WholePattern | src/emx/include/ieee754.h:92-130 | With exponent field 0x433 the pattern is 2^52 plus the mantissa, its high part above its low word |
| JsNumber.NextExponent | src/emx/include/ieee754.h:92-97 | One more in the exponent field is twice the value; below the least exponent the leading bit is missing |
| JsNumber.ValueDetermines | src/emx/include/ieee754.h:92-97 | Two patterns with the same value are the same pattern, the zeros apart |
| JsNumber.EncodeDenotes | src/emx/include/ieee754.h:92-130 | Encoding an integer as sign, biased exponent and mantissa is a round trip |
| JsNumber.RecogniseEncoded | testcase/floatingpoint/jsnumexception.c:37-57 | Encoding any integer that fits and running the function gives success and that integer |
| JsNumber.ExactlyOnePattern | testcase/floatingpoint/jsnumexception.c:25-45 | For each integer that fits exactly one pattern is accepted, the encoded one |
| ArgzModel.FlatEntries | src/emx/include/argz.h:147-159 | Reading the entries of a vector loses nothing |
| ArgzModel.EntriesFlat | src/emx/include/argz.h:147-159 | Packing strings and reading them back gives the same strings |
| Argz.NextFrom | src/emx/include/argz.h:167-180 | From any position inside entry k, argz_next returns the start of entry k+1, or null after the last |
| Argz.IterateWhile | src/emx/include/argz.h:151-153 | The while style visits every entry start once and in order |
| Argz.IterateFor | src/emx/include/argz.h:155-159 | The for style does the same if and only if the vector is not an empty one with a non-null pointer |
| Argz.StepsAreNuls | src/emx/include/argz.h:147-159 | There are as many steps as NULs |
| Argz.Extract | src/emx/src/lib/lgpl/string/argz-extract.c:28-39 | A second loop finds the same starts |
| Argz.Stringify | src/emx/src/lib/lgpl/string/argz-stringify.c:29-42 | Turns every NUL but the last byte into the separator, in place, on any buffer |
| ArgzText.StringifiedIsJoined | src/emx/src/lib/lgpl/string/argz-stringify.c:27-28 | On a vector that is its entries joined by the separator |
| Argz.Vector.Create | src/emx/src/lib/lgpl/string/argz-create.c:32-57 | The vector's entries are the arguments; an empty list gives a null pointer; a failure leaves a null pointer beside the old length |
| Argz.Vector.Append | src/emx/src/lib/lgpl/string/argz-append.c:29-43 | Entries are concatenated; a failure changes neither bytes, pointer nor length |
| Argz.Vector.Add | src/emx/src/lib/lgpl/string/argz-append.c:48-52 | One entry more at the end |
| Argz.Vector.Delete | src/emx/src/lib/lgpl/string/argz-delete.c:29-44 | Exactly that entry goes; the last deletion leaves a null pointer |
| Argz.Vector.Insert | src/emx/src/lib/lgpl/string/argz-insert.c:34-66 | For every position: the bytes of the entry go in at the start of the entry that holds it and nothing else moves; EINVAL exactly outside the vector; an error changes nothing; the search leaves the block exactly when no NUL precedes the position |
| Argz.InsertedAt | src/emx/src/lib/lgpl/string/argz-insert.c:55-58 | The new entry takes the number of the one that holds the position, and the others keep their order around it |
| Argz.SearchStops | src/emx/src/lib/lgpl/string/argz-insert.c:43-46 | The backwards search stops inside the block if and only if the position is the start or in a later entry than the first |
| Argz.SearchLeaves | src/emx/src/lib/lgpl/string/argz-insert.c:43-46 | The second byte of the only entry "ab" is a position from which it does not |
| Argz.HolderHolds | src/emx/src/lib/lgpl/string/argz-insert.c:40-46 | Every position in a vector lies in the entry said to hold it |
| Argz.Vector.AddSep | src/emx/src/lib/lgpl/string/argz-addsep.c:29-61 | Adds the pieces of the string, with the length adjusted as the loop goes; the vector is valid afterwards if and only if the call succeeded or the vector was empty |
| Argz.LoseVector | src/emx/src/lib/lgpl/string/argz-addsep.c:39-41 | A failed call on a vector of one entry leaves a null pointer with length 2 |
| Argz.Vector.CreateSep | src/emx/src/lib/lgpl/string/argz-ctsep.c:29-73 | The entries of the new vector are the pieces; its branch for a length of zero is never taken; a failure leaves a null pointer beside the old length |
| ArgzText.PiecesAreKept | src/emx/src/lib/lgpl/string/argz-addsep.c:45-55 | The pieces are the segments between delimiters without the empty ones, a last one excepted |
| ArgzText.PiecesKeepText | src/emx/src/lib/lgpl/string/argz-addsep.c:45-55 | The pieces end to end are the string without its delimiters, and no piece holds one |
| ArgzText.SegmentsJoin | src/emx/src/lib/lgpl/string/argz-ctsep.c:45-55 | Joining the segments gives the string back |
| ArgzText.EmptyPieceIff | src/emx/src/lib/lgpl/string/argz-ctsep.c:45-55 | A piece is empty if and only if the string ends in a delimiter |
| ArgzText.SplitUndoesJoin | src/emx/src/lib/lgpl/string/argz-ctsep.c:29-73 | Splitting a stringified vector recovers non-empty entries free of the separator |
| Argz.Vector.Replace | src/emx/src/lib/lgpl/string/argz-replace.c:53-138 | With copying delayed to the first match: every entry is rewritten, or nothing changes on failure; the counter is the number of entries that matched |
| Argz.ReplaceIn | src/emx/src/lib/lgpl/string/argz-replace.c:71-95 | The loop over matches builds the leftmost, non-overlapping replacement |
| ArgzText.ReplacedToMatch | src/emx/src/lib/lgpl/string/argz-replace.c:83-93 | Nothing before the leftmost match changes |
| ArgzText.ReplacedFrom | src/emx/src/lib/lgpl/string/argz-replace.c:71-95 | A rewritten entry is the text before the leftmost match, the replacement, and the rest rewritten; without a match it is itself |
| ArgzText.FindIsLeftmost | src/emx/src/lib/lgpl/string/argz-replace.c:71-71 | No occurrence of the substring begins before the match found |
| ArgzText.MatchIs | src/emx/src/lib/lgpl/string/argz-replace.c:71-71 | A match is a place where the substring stands |
| ArgzText.HitsAreReplacements | src/emx/src/lib/lgpl/string/argz-replace.c:115-116 | The counter is the number of replacements if and only if no entry has two |
| AOut.Exec.SetAll | src/emx/include/a_out.h:32-46 | After any writes each getter gives the last value written to its field, and the word is their packing |
| AOut.InfoNumber | src/emx/include/a_out.h:32-34 | The word as a number is the magic number, plus 2^16 times the machine type, plus 2^24 times the flags |
| AOut.MagicNumbers | src/emx/include/a_out.h:48-52 | The magic numbers are 0407 and 0413 |
| AOut.TxtOffIs | src/emx/include/a_out.h:59-61 | Text begins at 1024 in a demand-paged executable and at 32 otherwise |
| AOut.MacrosRecoverSections | src/emx/include/a_out.h:59-66 | Slicing a file by the offset macros recovers header, text, data, relocations, symbols and strings |
| AOut.OffsetsChain | src/emx/include/a_out.h:59-66 | Without overflow each part begins where the one before ends, the demand-paged header included |
| AOut.RoundDownIsGreatest | src/emx/include/gmon.h:119-119 | ROUNDDOWN of 32-bit operands gives the greatest multiple not above its argument |
| AOut.RoundUpIsLeast | src/emx/include/gmon.h:120-120 | ROUNDUP of 32-bit operands gives the least multiple not below its argument if and only if x + y - 1 does not wrap, and 0 otherwise |
| AOut.DatAddrIsRoundUp | src/emx/include/a_out.h:80-86 | For every text size the mask form is ROUNDUP of the text end to a segment |
| AOut.DatAddrIsBoundary | src/emx/include/a_out.h:80-86 | It is the least segment boundary not below the true text end if and only if the text is at most 0xfffe0000 bytes |
| AOut.DatAddrWraps | src/emx/include/a_out.h:80-86 | With 0xfffe0001 bytes of text the data address is 0 |
| AOut.AddressesOrdered | src/emx/include/a_out.h:68-88 | Data begins right at the text end for OMAGIC and otherwise at the next segment boundary, and bss right after data, for every header whose ends are 32-bit addresses |
| ByteSwap.Swap32 | src/emx/include/db.h:171-184 | Reverses the four bytes in place and nothing else |
| ByteSwap.Copy32 | src/emx/include/db.h:185-190 | Writes the reversed word to another location |
| ByteSwap.Swap16 | src/emx/include/db.h:198-207 | Reverses the two bytes in place and nothing else |
| ByteSwap.Copy16 | src/emx/include/db.h:208-211 | Writes the reversed half-word to another location |
| ByteSwap.LittleIs | src/emx/include/db.h:165-170 | What number two and four bytes are |
| ByteSwap.ReversedReads | src/emx/include/db.h:165-170 | Reversed bytes read in one order are the number they were in the other |
| ByteSwap.SwapsCancel | src/emx/include/db.h:165-211 | For either width: a swap from one place to another and a swap there reproduce the word and move nothing else |
| ByteSwap.SwapTwice | src/emx/include/db.h:171-184 | Swapping a word twice restores all of memory |
| ByteSwap.SwapTwice16 | src/emx/include/db.h:198-207 | Swapping a half-word twice restores all of memory |
| ByteSwap.CopyThenSwap | src/emx/include/db.h:178-190 | A swapping copy and a swap in place reproduce the source and leave it alone |
| ByteSwap.CopyThenSwap16 | src/emx/include/db.h:203-211 | The same for half-words |
| Widths.UnicodeWidthFlags | src/emx/src/lib/locale/locale_ctype.c:402-418 | The binary search over sorted, disjoint ranges returns the flags of the range that holds the character, and 0 when none does |
| Widths.MakeIntervals | src/emx/src/lib/locale/gen_wcwidth.py:25-32 | The loop over sorted points gives the fewest ranges that hold exactly those points |
| Widths.TableOrdered | src/emx/include/InnoTekLIBC/locale.h:259-260 | Sorting disjoint ranges gives the sorted, disjoint table that the search needs |
| Widths.GeneratedWidths | src/emx/src/lib/locale/gen_wcwidth.py:68-91 | In the generated table every zero-width point has flag 0, every other wide point flag 2, and no other point a flag |
| Ctype.WcTypeOf | src/emx/src/lib/locale/locale_ctype.c:425-439 | The function with its search and its test of the mask gives the slow type |
| Ctype.TypeWord | src/emx/include/InnoTekLIBC/locale.h:346-369 | The low byte of a type word, as a number: wc - '0' or wc - 'A' + 10 for those digits, otherwise the system's value if it is one byte, and 0 for anything that is no digit |
| Ctype.TypeAttributes | src/emx/include/InnoTekLIBC/locale.h:349-356 | Bits 8 to 23 are the system's attributes moved up, with the ideogram's in bit 22, and nothing is above |
| Words.BitsNumber | src/emx/include/InnoTekLIBC/locale.h:357-369 | The bits that are stored for a number are that number |
| Ctype.TypeConstants | src/emx/include/_ctype.h:94-118 | The attribute masks have the values of the header |
| Ctype.StoredConstants | src/emx/include/_ctype.h:114-117 | So have the four stored widths |
| Ctype.NoWidthBits | src/emx/include/InnoTekLIBC/locale.h:346-374 | The width bits are left clear for the table |
| Ctype.BidiLost | src/emx/include/InnoTekLIBC/locale.h:370-370 | The bidirectional class is in the type word if and only if it is 0 |
| Ctype.MakeTables | src/emx/src/lib/locale/locale_ctype.c:613-655 | The loops fill the tables with what the slow functions give |
| Ctype.TablesServe | src/emx/src/lib/locale/setlocale.c:1836-1840 | Tables made outside the C locale agree with the slow functions under both masks |
| Ctype.TablesFromC | src/emx/src/lib/locale/locale_ctype.c:482-482 | Tables made in the C locale would serve another one if and only if no character from 128 to 255 has a type or another case there |
| Ctype.InTableIs | src/emx/include/_ctype.h:200-224 | The bitwise test of the mask holds exactly for the indices below 128 or 256 |
| Ctype.FastIsSlow | src/emx/include/_ctype.h:200-224 | With tables so made, the table paths equal the out-of-line functions of the narrowed character, for every int and in every locale |
| Ctype.NarrowIs | src/emx/include/_ctype.h:151-155 | The narrowed character is the character itself exactly below 65536, and differs by a multiple of that otherwise |
| Ctype.FoldsLike | src/emx/src/lib/locale/locale_ctype.c:445-469 | Upper and lower case are the system's, but for what the C locale does not know |
| Ctype.ClassIs | src/emx/include/_ctype.h:200-205 | Each attribute of every int, from what the system says of the narrowed character |
| Ctype.HighCharacterAliases | src/emx/include/_ctype.h:200-224 | Characters that differ by a multiple of 65536 are classified and folded alike |
| Ctype.CLocale | src/emx/src/lib/locale/locale_ctype.c:425-469 | In the C locale nothing above 127 has a type, and it folds to itself |
| Ctype.WidthDecodes | src/emx/include/_ctype.h:226-237 | Every stored width comes out; without one the printable bit decides |
| Ctype.WidthIs | src/emx/include/_ctype.h:226-237 | From the generator's sets to the answer, for every int and in every locale: 0 for zero-width characters, 2 for other wide ones, 1 for the printable rest, -1 otherwise |
| Ctype.CTypeIs | src/emx/include/_ctype.h:166-171 | The table entry for every char, signed or not, and nothing for any other value |
| Ctype.SignedCharLikeUnsigned | src/emx/include/_ctype.h:166-171 | A sign-extended char classifies like the unsigned one, 0xff excepted |

## Left out

- Fenv.Process.FeSetExceptFlag: `excepts` outside the six exceptions, which section 7.6.2 of the C standard does not define
- Fenv.Process.FeRaiseExcept: `excepts` outside the six exceptions, as above
- Memory blocks: an argz vector is the bytes in use, so the addresses and spare room that `realloc` gives are not modelled
- Condition codes that the Intel manual leaves undefined after some instructions, and reserved control-word bits that hardware forces
- The printing done by the scanner is an output string; `print_func`, commented out in the source, is not called
- The alternative body of `js_NewNumberValue` under `#else`, the main programs, signals and window calls
- The float, long double, big-endian and NaN views of `ieee754.h`
- What `argz_insert` does after its search has left the block, and what a later call does with a lost vector
- The answers of the OS/2 Unicode library are parameters; so are the Unicode data files, and the built-in sort of Python is taken at its word
- That the checked-in rows of `locale_wcwidth.c` and of the ctype tables are what the modelled generators print
- The `is*` macros of `ctype.h` and the narrow case-conversion tables, which would add only one-line members
- Symbol tables, relocation records and stab codes of `a_out.h`
- Functions that are only declared in the modelled headers, linker and calling-convention test cases, and the rest of the library
