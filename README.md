# RISC-V ISA discovery and the extension registry, in Dafny

This project models the boot-time ISA discovery of a RISC-V Linux kernel fork
that publishes per-hart extension versions through the vDSO, and proves
properties of the model.

- **`riscv_fill_hwcap`** reads each hart's device-tree "riscv,isa" string.
  - It strips the `rv32`/`rv64` prefix.
  - It splits the rest into single-letter and multi-letter (`s`/`x`/`z`) extensions, with their versions.
  - It builds the hart's ELF hwcap word and ISA bitmap.
  - It registers the allow-listed multi-letter extensions (`sscofpmf`, `zba`, `zbb`, `zfh`) as `struct rvext` records. Each record goes into the next slot of the hart's 8192-byte vDSO buffer, linked after the tail of a list.
  - It reduces the per-hart results into the host `elf_hwcap` and `riscv_isa`.
  - It drops F when D is missing.
- **Queries.**
  - `riscv_isa_extension_base` and `__riscv_isa_extension_available` read the bitmap.
  - The `riscv_check_extension` system call and the vDSO's `__vdso_riscv_check_extension` look a name up in hart 0's records. The vDSO version uses its own `strcmp`.

Modules, one file each:

| file | module | what it holds |
|---|---|---|
| cstring.dfy | `CString` | C strings as the bytes before the terminator; ctype classes |
| decimal.dfy | `Decimal` | `_decimal_part_to_uint` as a specification function and as a loop |
| layout.dfy | `VdsoLayout` | `struct arch_vdso_data` and `struct rvext`; record size and buffer capacity |
| grammar.dfy | `IsaGrammar` | the tokenizer as functions (`NextToken`, `Tokens`); an independent description of well-formed strings (`Render`) and the round trip between them |
| scanner.dfy | `IsaScanner` | the tokenizer's pointer loop as methods proved equal to `NextToken` |
| registry.dfy | `Registry` | a hart's page as a value: slots, index links, the list from `extension_head`; registration and its laws |
| lookup.dfy | `Lookup` | `strcmp`; the two lookups as written; the lookup that walks the list |
| hwcap.dfy | `Hwcap` | per-token and per-hart contributions; the cross-hart reduction; the F/D policy; class `Kernel` holding `elf_hwcap`, `riscv_isa`, the fpu key and the array of vDSO pages, with `FillHwcap` and the two bitmap queries |

How the model represents the source:

- Bitmaps and hwcap words are sets of bit positions. `COMPAT_HWCAP_ISA_x` is bit `x - 'a'`.
- A pointer into a page is a `Link`: `Null`, `Head` (the page's `extension_head`), or `Slot(k)` (the list node embedded in record k).
- `|records|` of a page is that hart's counter `ext_offset_n`. The counters are a local array zeroed on every call (cpufeature.c:119), and `riscv_fill_hwcap` runs once, at boot, on zeroed vDSO data. So `FillHwcap` requires that no page holds a record yet (`NoRecords`). Slots beyond the count read as the zeroed record.
- The device tree and the SBI are inputs. Each `HartNode` holds:
  - the hart id;
  - the optional isa string;
  - the three ids.
- `Kernel.FillHwcap` is proved against specification functions of its input:
  - `ReduceAll(HwcapsOf(..))`;
  - `ReduceAll(IsasOf(..))`;
  - `PagesAfter(..)`.

  Lemmas then relate these functions to what the source promises: common capabilities, listed entries, and what a lookup finds.

## Model

| member | source | states |
|---|---|---|
| Decimal.DecimalPartToUint | arch/riscv/kernel/cpufeature.c:97-111 | returns -EINVAL exactly when the first byte is not a digit, and -ERANGE exactly when the value of the digit run exceeds UINT_MAX; otherwise returns 0 with the value of the maximal digit run; the result variable is unchanged on failure |
| Decimal.OverflowGuard | arch/riscv/kernel/cpufeature.c:105-107 | the guard `value > (UINT_MAX - d) / 10` holds exactly when `value * 10 + d` would exceed UINT_MAX |
| Decimal.DigitsEnd | arch/riscv/kernel/cpufeature.c:103-108 | the digit run from k is maximal: every byte before the end is a digit, the byte at the end is not |
| Decimal.DecimalPartOfDec | arch/riscv/kernel/cpufeature.c:97-111 | round trip: the decimal spelling of any n <= UINT_MAX, followed by a non-digit, parses back to n |
| VdsoLayout.RecordSize | arch/riscv/include/asm/vdso/data.h:16-21 | `sizeof(struct rvext)` is 136 bytes on a 64-bit build and 128 on a 32-bit one |
| VdsoLayout.SlotInBufferIff | arch/riscv/include/asm/vdso/data.h:13-21 | slot k lies inside the 8192-byte buffer exactly when k is below the capacity, which is 60 slots on 64-bit and 64 on 32-bit |
| IsaGrammar.NextToken | arch/riscv/kernel/cpufeature.c:168-249 | every token consumes at least one byte and resumes inside the string |
| IsaGrammar.SingleToken | arch/riscv/kernel/cpufeature.c:228-246 | the forward parse of a single letter yields a token for that letter and consumes at least the letter |
| IsaGrammar.MultiToken | arch/riscv/kernel/cpufeature.c:194-214 | the multi-letter branch on a span: dropped on a bad byte, no version when the span does not end in a digit, otherwise the backward version parse; `MultiTokenShape` and `MultiAt` state its properties |
| IsaGrammar.MultiTokenShape | arch/riscv/kernel/cpufeature.c:194-201 | a span becomes a dropped token exactly when a byte after its first is neither lower-case nor a digit; otherwise the name is a non-empty leading part of the span |
| IsaGrammar.TrailingVersion | arch/riscv/kernel/cpufeature.c:204-214 | the backward parse from the last non-digit: the trailing digits are the major, unless a 'p' after another digit run makes them the minor; `MultiAt` states the result for well-formed input |
| IsaGrammar.LeadingMajor | arch/riscv/kernel/cpufeature.c:215-220 | the `<major>p<minor>` case: the name ends before the major's digits, and a major that fails to convert keeps the minor's value |
| IsaGrammar.Tokens | arch/riscv/kernel/cpufeature.c:168-249 | the token loop: one `NextToken` step after another until the terminator, in string order; `TokensOfRender` is its round trip |
| IsaGrammar.TokensBound | arch/riscv/kernel/cpufeature.c:168-249 | each step consumes at least one byte, so a string yields no more tokens than it has bytes |
| IsaGrammar.MultiAt | arch/riscv/kernel/cpufeature.c:190-221 | a well-formed multi-letter extension, delimited by '_' or the end, scans to its name without the version suffix. A trailing `<M>p<m>` gives major M and minor m; trailing digits alone give the major; no digits give UINT_MAX.0 |
| IsaGrammar.SingleAt | arch/riscv/kernel/cpufeature.c:222-246 | a single letter followed by `<digits>[p<digits>]` scans forward to that letter and version; no version gives UINT_MAX.0. What follows need only be a byte that is not a digit, and after a bare major not a 'p' with a digit after it: a '_', the end, or the next extension written directly after it |
| IsaGrammar.TokensSingle | arch/riscv/kernel/cpufeature.c:222-249 | under the same stop condition, the token list is that letter's token followed by the tokens from where the forward parse stopped, skipping one '_' |
| IsaGrammar.SingleBareP | arch/riscv/kernel/cpufeature.c:229-248 | after a letter's major, a 'p' with no digit after it is not consumed: the token ends before it with minor 0, and the next step reads the 'p' as an unversioned letter |
| IsaGrammar.VersionsTogether | arch/riscv/kernel/cpufeature.c:222-246 | "rv64i2p0m2p0", versioned letters written together, gives i 2.0 then m 2.0 |
| IsaGrammar.BarePString | arch/riscv/kernel/cpufeature.c:229-248 | "rv64i2pm" gives i with major 2, then 'p' and 'm' as unversioned letters |
| IsaGrammar.UndelimitedMerge | arch/riscv/kernel/cpufeature.c:192-197 | "rv64zbazbb" gives the single unversioned name "zbazbb": multi-letter extensions not separated by '_' merge |
| IsaGrammar.TokensOfRender | arch/riscv/kernel/cpufeature.c:168-288 | round trip: any list of well-formed extensions, rendered in the ISA manual's naming convention, scans back to exactly one token per extension, in order, with its letter or name and its version |
| IsaGrammar.MalformedSkipped | arch/riscv/kernel/cpufeature.c:222-227 | whatever follows it, a byte that is not a lower-case letter becomes one dropped token, and scanning resumes at the next byte, skipping one '_' |
| IsaGrammar.MalformedRun | arch/riscv/kernel/cpufeature.c:222-227 | a run such as "IMA" of bytes that cannot start a token, other than '_', gives one dropped token per byte |
| IsaGrammar.BadSpanSkipped | arch/riscv/kernel/cpufeature.c:190-201 | whatever follows it, a multi-letter span holding a byte that is neither lower-case nor a digit is dropped as a whole, and scanning resumes after the span, skipping one '_' |
| IsaGrammar.MixedCaseSpan | arch/riscv/kernel/cpufeature.c:190-201 | "rv64zbA_zba" gives one dropped token for "zbA", then `zba` with no version |
| IsaGrammar.QemuSuSkipped | arch/riscv/kernel/cpufeature.c:177-188 | whatever follows it, `su` not preceded by '_' is consumed as one pair that contributes nothing, and scanning resumes after it, skipping one '_' |
| IsaGrammar.LettersThenQemuSu | arch/riscv/kernel/cpufeature.c:177-188 | letters followed by QEMU's trailing `su`, as in "imsu": one unversioned token per letter, then the pair that contributes nothing |
| IsaGrammar.QemuString | arch/riscv/kernel/cpufeature.c:177-188 | "rv64imsu" gives i, m and the skipped `su` |
| IsaGrammar.TokensOfLetters | arch/riscv/kernel/cpufeature.c:222-230 | a run of plain letters gives one unversioned single-letter token per letter |
| IsaGrammar.LettersThen | arch/riscv/kernel/cpufeature.c:222-230 | a run of plain letters followed by anything but a digit gives one unversioned token per letter, and scanning resumes after the run |
| IsaGrammar.LettersThenRender | arch/riscv/kernel/cpufeature.c:168-249 | letters written together, then '_' and well-formed extensions, as in "imafdc_zba": one token per letter, then one per extension, in order |
| IsaScanner.ScanToken | arch/riscv/kernel/cpufeature.c:168-249 | the pointer loop's body yields the same token and resume position as `NextToken` |
| IsaScanner.ScanLong | arch/riscv/kernel/cpufeature.c:190-221 | the multi-letter branch stops at the next '_' or the end, and returns the token `MultiToken` defines for that span |
| IsaScanner.ScanSpan | arch/riscv/kernel/cpufeature.c:194-197 | the span ends at the next '_' or the end; the error flag is set exactly when a byte in it is neither lower-case nor a digit |
| IsaScanner.ScanVersion | arch/riscv/kernel/cpufeature.c:202-221 | the backward version parse yields `TrailingVersion`: a pair when `<digits>p<digits>` ends the span, otherwise the trailing digits as major; a failed major keeps the value already held |
| IsaScanner.ScanLeadingMajor | arch/riscv/kernel/cpufeature.c:215-220 | in the `<major>p<minor>` case the value already read becomes the minor, the walk back stops at the last non-digit of the span, and the name is the span up to it; a failed conversion of the major leaves it equal to the minor |
| IsaScanner.BackOverDigits | arch/riscv/kernel/cpufeature.c:204-205 | the backward walk stops at the last non-digit before k |
| IsaScanner.OverDigits | arch/riscv/kernel/cpufeature.c:234-235 | the forward walk stops at the end of the digit run |
| IsaScanner.ScanLetter | arch/riscv/kernel/cpufeature.c:222-246 | a non-lower-case byte is an error token that resumes after it; otherwise the token and resume position are those of `SingleToken`, and a 'p' without a digit after it is left for the next token |
| Registry.SlotAt | arch/riscv/include/asm/vdso/data.h:13 | a slot beyond the hart's count reads as the zeroed record |
| Registry.Reset | arch/riscv/kernel/cpufeature.c:150-154 | a hart's pass stores the SBI ids and clears `extension_head`, leaving the slots and the count; `ResetEmpties` states the effect |
| Registry.Appended | arch/riscv/kernel/cpufeature.c:256-269 | the record goes into slot `ext_offset_n` and is linked after the tail; `ListedAppended`, `AppendedWellLinked` and `AppendedKeepsSlots` state the effect |
| Registry.Registered | arch/riscv/kernel/cpufeature.c:251-270 | one registration with the bound: appended when the next slot fits, otherwise the page is unchanged |
| Registry.ZeroPageEmpty | arch/riscv/include/asm/vdso/data.h:8-14 | the zeroed page is well linked and lists nothing |
| Registry.ResetEmpties | arch/riscv/kernel/cpufeature.c:150-154 | clearing `extension_head` empties the list but keeps every slot and the count |
| Registry.TailEndsWalk | arch/riscv/kernel/cpufeature.c:262-265 | the walk from the head ends at a node whose `next` is NULL: the head itself when the list is empty, otherwise the last written slot |
| Registry.AppendedWellLinked | arch/riscv/kernel/cpufeature.c:256-269 | linking the new record after the tail keeps the list well formed |
| Registry.ListedAppended | arch/riscv/kernel/cpufeature.c:256-269 | after an append, the list is the old list followed by exactly the new entry |
| Registry.AppendedKeepsSlots | arch/riscv/kernel/cpufeature.c:256-269 | an append writes slot `ext_offset_n`, adds one to the count, and changes no stored name or version |
| Registry.RegisteredAll | arch/riscv/kernel/cpufeature.c:251-286 | registering in order keeps the page well linked and within the buffer |
| Registry.RegisteredAllListed | arch/riscv/kernel/cpufeature.c:251-286 | the list gains exactly the entries that fit, in order, and the count grows by their number |
| Registry.RegisteredAllConcat | arch/riscv/kernel/cpufeature.c:282-285 | registering two runs one after the other is registering their concatenation |
| Registry.AppendedAll | arch/riscv/kernel/cpufeature.c:256-269 | as written, with no bound: every entry takes a slot, and the list stays well linked |
| Registry.RegisteredAllWhenRoom | arch/riscv/kernel/cpufeature.c:256-269 | while the entries fit, the bounded registration is the unbounded one |
| Registry.RegisteredAllHead | arch/riscv/kernel/cpufeature.c:262-268 | on an empty page, the first registration becomes the head at slot 0 |
| Lookup.CompareFrom | arch/riscv/kernel/vdso/check_extension.c:14-27 | `strcmp` returns only -1, 0 or 1 |
| Lookup.StrCmp | arch/riscv/kernel/vdso/check_extension.c:14-27 | the loop returns the comparison `Compare` defines |
| Lookup.CompareZeroIff | arch/riscv/kernel/vdso/check_extension.c:14-27 | for NUL-free strings, the result is 0 exactly when they are byte-identical |
| Lookup.CompareSign | arch/riscv/kernel/vdso/check_extension.c:21-22 | for NUL-free strings, the result is -1 exactly when the first string sorts first, comparing unsigned bytes with the terminator as the smallest byte; it is 1 exactly when the second sorts first |
| Lookup.CompareAntisymmetric | arch/riscv/kernel/vdso/check_extension.c:21-22 | swapping the arguments negates the result |
| Lookup.FirstMatch | arch/riscv/kernel/vdso/check_extension.c:41-44 | a found entry is in the list and has the queried name |
| Lookup.FirstMatchIff | arch/riscv/kernel/vdso/check_extension.c:40-47 | a name is found exactly when some entry has it, and the first such entry wins |
| Lookup.Scan | arch/riscv/kernel/vdso/check_extension.c:39-47 | the slot scan both lookups perform (the system call's at cpufeature.c:63-73): an entry it finds has the queried name |
| Lookup.ScanFollowsList | arch/riscv/kernel/vdso/check_extension.c:40-47 | from any slot on the list, the slot scan meets the listed entries in list order |
| Lookup.ScanFindsListed | arch/riscv/kernel/vdso/check_extension.c:39-47 | when the list starts at slot 0, the lookups find exactly the listed names, each with the version of its first registration |
| Lookup.EmptyQueryFoundOnEmptyPage | arch/riscv/kernel/vdso/check_extension.c:40-41 | as written, on a page with nothing registered, the empty name is found with version 0.0 although nothing is listed |
| Lookup.RegisteredAllNamesProper | arch/riscv/kernel/cpufeature.c:256-261 | registering proper names keeps every stored name a proper C string |
| Lookup.SyscallCheckExtension | arch/riscv/kernel/cpufeature.c:51-74 | the result is 0 exactly when the slot scan from slot 0, following `next`, meets the name; major and minor are then that record's versions; otherwise the result is -1 and they are untouched |
| Lookup.VdsoCheckExtension | arch/riscv/kernel/vdso/check_extension.c:31-49 | the same: 0 with the first matching record's versions, or -1 with the outputs unwritten |
| Lookup.LookupListed | arch/riscv/kernel/vdso/check_extension.c:31-49 | corrected walk from `extension_head`: 0 exactly when the name is listed, with the versions of its first listing; otherwise -1 with the outputs unwritten |
| Lookup.LookupListedIff | arch/riscv/kernel/vdso/check_extension.c:31-49 | the corrected lookup succeeds exactly when some listed entry has the name |
| Hwcap.HwcapOfLetter | arch/riscv/kernel/cpufeature.c:124-131 | `isa2hwcap` is nonzero exactly for i, m, a, f, d and c, and then it is bit `c - 'a'` |
| Hwcap.NamedBit | arch/riscv/kernel/cpufeature.c:282-285 | exactly the four allow-listed names have a bitmap bit; it lies below RISCV_ISA_EXT_MAX, and the name fits the record |
| Hwcap.TokenHwcap | arch/riscv/kernel/cpufeature.c:275-276 | a single letter contributes its `isa2hwcap` entry; other tokens contribute nothing |
| Hwcap.TokenIsa | arch/riscv/kernel/cpufeature.c:273-285 | a single letter sets bit `c - 'a'`, an allow-listed name its RISCV_ISA_EXT bit; dropped tokens set nothing |
| Hwcap.TokenEntries | arch/riscv/kernel/cpufeature.c:278-286 | an allow-listed name registers one entry with its version; nothing else registers |
| Hwcap.PageAfterNode | arch/riscv/kernel/cpufeature.c:150-166 | a hart's pass leaves its page well linked and within the buffer |
| Hwcap.PagesAfter | arch/riscv/kernel/cpufeature.c:137-305 | the node loop keeps every page well linked and within the buffer |
| Hwcap.Kernel.constructor | arch/riscv/kernel/cpufeature.c:26-32 | at boot, hwcap and bitmap are empty, the fpu key is off, and every page is zero |
| Hwcap.Kernel.FillHwcap | arch/riscv/kernel/cpufeature.c:113-330 | starting from pages with no records, as at boot: the bitmap is the reduction of the per-hart bitmaps; the hwcap is the F/D policy applied to the reduction of the per-hart hwcaps; the fpu key is turned on when F or D remains; the pages are those the node loop specifies, all still valid |
| Hwcap.Kernel.FillFromNode | arch/riscv/kernel/cpufeature.c:137-305 | one node: skipped without hart id or isa string; otherwise its page is reset; its results are scanned and folded in only when the prefix matches the build |
| Hwcap.Kernel.ScanIsa | arch/riscv/kernel/cpufeature.c:167-288 | the token loop's hwcap and bitmap are the unions over the string's tokens, and the hart's page is its recognised entries registered in order |
| Hwcap.Kernel.ApplyNext | arch/riscv/kernel/cpufeature.c:168-287 | one iteration of the token loop: hwcap and bitmap become the unions over the tokens so far plus this one, and the hart's page is those tokens' entries registered in order; nothing else changes |
| Hwcap.Kernel.ApplyToken | arch/riscv/kernel/cpufeature.c:273-286 | a letter adds its hwcap bit and its bitmap bit; a recognised name adds its bitmap bit and registers one record; anything else changes nothing |
| Hwcap.Kernel.Register | arch/riscv/kernel/cpufeature.c:251-270 | the record is written into the next free slot and linked after the tail, when that slot lies inside the buffer |
| Hwcap.Kernel.ExtensionBase | arch/riscv/kernel/cpufeature.c:43-48 | returns only bits of word 0 of the given bitmap, or of the host bitmap when none is given |
| Hwcap.Kernel.ExtensionAvailable | arch/riscv/kernel/cpufeature.c:86-94 | false for any bit at or above RISCV_ISA_EXT_MAX |
| Hwcap.Kernel.BaseAgreesWithAvailable | arch/riscv/kernel/cpufeature.c:86-94 | on word 0 the two queries agree: a bit is in the base word exactly when it is available |
| Hwcap.CommonIff | arch/riscv/kernel/cpufeature.c:290-293 | a bit is in `Common` exactly when every hart has it |
| Hwcap.Reduce | arch/riscv/kernel/cpufeature.c:295-303 | one step of the reduction as written: intersect, unless the running value is empty, then copy the hart's value |
| Hwcap.ReduceAll | arch/riscv/kernel/cpufeature.c:295-303 | the reduction over the harts in node order; `ReduceAllCommon`, `ReduceAllWithinLast` and `ReduceAllReseeds` state its properties |
| Hwcap.ReduceCommon | arch/riscv/kernel/cpufeature.c:290-303 | corrected reduction: a bit is kept exactly when some hart was scanned and every scanned hart has it |
| Hwcap.ReduceAllCommon | arch/riscv/kernel/cpufeature.c:295-303 | when the harts share some capability, the reduction as written is the common set |
| Hwcap.ReduceAllWithinLast | arch/riscv/kernel/cpufeature.c:295-303 | the reduction never holds a bit the last scanned hart lacks |
| Hwcap.ReduceAllReseeds | arch/riscv/kernel/cpufeature.c:295-303 | as written, the per-hart sets {i}, {m}, {a} reduce to {a} although the harts share nothing |
| Hwcap.ReseedHarts | arch/riscv/kernel/cpufeature.c:137-305 | three 64-bit harts with strings "rv64i", "rv64m" and "rv64a" give exactly those per-hart hwcaps |
| Hwcap.HartHwcap | arch/riscv/kernel/cpufeature.c:273-277 | `this_hwcap`: the union of what the hart's tokens contribute, in string order; `HartHwcapIff` states it |
| Hwcap.HartIsa | arch/riscv/kernel/cpufeature.c:273-285 | `this_isa`, zeroed before the token loop, then the union of the tokens' bits; `HartIsaIff` states it |
| Hwcap.HartEntries | arch/riscv/kernel/cpufeature.c:278-286 | the records a hart registers, in string order; `PageAfterNodeListed` and `HartEntriesProper` state them |
| Hwcap.HasPrefix | arch/riscv/kernel/cpufeature.c:157-165 | the `strncmp` test: the string starts with "rv32" on a 32-bit build, "rv64" on a 64-bit one; `FillFromNode` states its use |
| Hwcap.Takes | arch/riscv/kernel/cpufeature.c:142-148 | a node is used only with a hart id and an isa string, and only then is its page reset; `FillFromNode` states its use |
| Hwcap.Parses | arch/riscv/kernel/cpufeature.c:142-165 | a node's string is scanned and folded in only when it is taken and has the build's prefix; `FillFromNode` states its use |
| Hwcap.OneLetterNode | arch/riscv/kernel/cpufeature.c:137-305 | a node holding the prefix and one plain letter appends that letter's `isa2hwcap` entry to the per-hart hwcaps; the step `ReseedHarts` is built from |
| Hwcap.HartHwcapIff | arch/riscv/kernel/cpufeature.c:275-277 | a hart's hwcap bit is set exactly when one of its tokens contributes it |
| Hwcap.HartIsaIff | arch/riscv/kernel/cpufeature.c:275-285 | a hart's bitmap bit is set exactly when one of its tokens contributes it |
| Hwcap.LettersHart | arch/riscv/kernel/cpufeature.c:222-277 | for a prefix followed by plain letters, the hwcap is the union of the letters' `isa2hwcap` entries, and the bitmap holds exactly bits `c - 'a'` |
| Hwcap.OneLetterHart | arch/riscv/kernel/cpufeature.c:222-277 | a single plain letter gives its `isa2hwcap` entry, its own bitmap bit, and no record |
| Hwcap.FdPolicyMasks | arch/riscv/kernel/cpufeature.c:309-312 | F survives exactly when F and D are both present; every other bit is unchanged; applying the policy twice changes nothing more |
| Hwcap.FdPolicy | arch/riscv/kernel/cpufeature.c:309-312 | F is cleared when D is absent; `FdPolicyMasks` states the effect |
| Hwcap.PageAfterNodeListed | arch/riscv/kernel/cpufeature.c:150-286 | after a hart's pass, its list is exactly its recognised entries that fit, in string order, and the count grew by their number |
| Hwcap.BootThenLookup | arch/riscv/kernel/vdso/check_extension.c:38-47 | after hart 0's pass on a fresh page, either nothing was stored, or a lookup finds a name exactly when it is among the recognised extensions that fit, with the version of its first occurrence |
| Hwcap.HartEntriesProper | arch/riscv/kernel/cpufeature.c:282-285 | only allow-listed names are registered, and each fits the 100-byte name array |
| Hwcap.PagesAfterNamesProper | arch/riscv/kernel/cpufeature.c:256-261 | after the node loop, every stored name is still a proper C string, as the lookups require |
| Hwcap.OverflowAsWritten | arch/riscv/kernel/cpufeature.c:256-258 | as written, 61 recognised extensions on a 64-bit build take 61 slots, and slot 60 lies past the buffer; the bounded registration stops at 60 |
| Hwcap.OverflowString | arch/riscv/kernel/cpufeature.c:168-288 | the string "rv64zba_zba_..._zba" with `zba` 61 times yields those 61 entries |

## Left out

- Device-tree and SBI access become the `HartNode` inputs: `for_each_of_cpu_node`, `riscv_of_processor_hartid`, `of_property_read_string` and the `sbi_get_*` ids.
- The lookups take hart 0's page as an argument. The vDSO mapping and `__arch_get_k_vdso_data` are not modelled.
- Not modelled:
  - `pr_info`/`pr_warn`;
  - the two `print_str` letter dumps;
  - the `static_branch_enable` machinery. Only the key's final state is modelled.
- Raw pointers and `__packed` are replaced by index links.
- `extension_head.prev` and each record's `prev` are stored but never read by the code. The model keeps `prev` in records but not in the page head.
- `ext_err_ver` is set but never read by the code, so a version error never drops a token. The model has no such flag.
- The 256-byte `tmp` copy and the `strncpy` into the record are not modelled. The name is stored directly.
  - `NamesFit` states that tokens fit `tmp`.
  - `ProperName` states that stored names fit the record.
- The RISCV_ISA_EXT numbers for the four names (26 to 29) and RISCV_ISA_EXT_MAX (64) are assumed. asm/hwcap.h is not part of this model. The proofs rely only on the numbers lying below RISCV_ISA_EXT_MAX.
- Hwcap.Kernel.FillHwcap: requires each node's isa string to be 7-bit ASCII. The kernel's `islower` also accepts Latin-1 letters, whose bit `c - 'a'` would fall outside the bitmap.
- Hwcap.Kernel.FillHwcap: requires the hart ids of nodes that register something to be below MAX_HART (the size of `ext_offset_n`), and every hart id to index a vDSO page. The code does not check either.
- Hwcap.Kernel.Register: models registration with the capacity check. As written the code has none; `Registry.AppendedAll` models that behaviour, and the Findings below record it.
- Hwcap.Kernel.ExtensionAvailable: requires `bit >= 0`. The code takes a signed `int` and checks only the upper bound, so a negative bit would make `test_bit` read before the bitmap. The model does not represent that read.
- Lookup.SyscallCheckExtension: requires the name to be already copied from user memory, NUL-free and shorter than MAX_ARG_STRLEN.
  - `strnlen_user` and `strncpy_from_user` faults are not modelled.
  - The code does not reject longer names.
  - The `copy_to_user` faults and the 128 KiB on-stack buffer are not modelled.
- Lookup.VdsoCheckExtension: requires the query to be NUL-free, that is, the C string the caller passes.
- Integer widths: versions are `nat`. Values are bounded by UINT_MAX where the parser bounds them. `unsigned long` hwcap words are sets of bit positions.

Behaviour that follows the code rather than the evidently intended design:

- Multi-letter extensions run to the next '_' or the end, so two that are not separated by '_' merge into one unrecognised name (`IsaGrammar.UndelimitedMerge`).
- A 'p' after a single letter's major with no digit after it is not a minor's marker; the next step reads it as the letter 'p' (`IsaGrammar.SingleBareP`).
- In the `<M>p<m>` case, a major that fails to parse keeps the value already held, which is the minor's value.
- A single-letter major that overflows keeps UINT_MAX.
- A hart's pass clears `extension_head` but not `ext_offset_n`. A hart id seen twice keeps its old slots, which the slot scan still visits.

## Findings

| source | as written | input that shows it | evidently intended | confidence | as-written member | corrected member |
|---|---|---|---|---|---|---|
| arch/riscv/kernel/cpufeature.c:295-303 | the running `elf_hwcap`/`riscv_isa` is re-seeded from the current hart whenever it is zero, so harts with nothing in common yield the last hart's set | per-hart sets {i}, {m}, {a} from "rv64i", "rv64m", "rv64a" reduce to {a} | the capabilities common to every scanned hart (here: none) | not executed | Hwcap.ReduceAllReseeds | Hwcap.ReduceCommon |
| arch/riscv/kernel/cpufeature.c:256-258 | a record is written at slot `ext_offset_n` with no check against the 8192-byte buffer | "rv64zba_zba_..._zba" with `zba` 61 times, on a 64-bit build, writes slot 60, bytes 8160-8295 | registration stops when the next slot would not fit | not executed | Hwcap.OverflowAsWritten | Registry.RegisteredAllListed |
| arch/riscv/kernel/vdso/check_extension.c:40-41 | both lookups compare slot 0 before looking at the list, so the zeroed slot 0 of a hart with nothing registered matches the empty name | query "" on a page with nothing registered returns 0 with version 0.0 | only registered extensions are found | not executed | Lookup.EmptyQueryFoundOnEmptyPage | Lookup.LookupListed |

The registry uses the corrected registration everywhere: `Hwcap.Kernel.Register` writes a slot only when it fits. The reduction and the two lookups stay as written in `Hwcap.Kernel.FillHwcap` and `Lookup`, because that is what user space observes. The corrected members stand beside them.
- `Hwcap.ReduceAllCommon` shows that the two reductions agree whenever the harts share at least one capability.
- `Hwcap.BootThenLookup` with `Lookup.ScanFindsListed` shows that the two lookups agree once something is registered.
