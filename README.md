# objc-selector-unalias, modelled in Dafny

`objc-selector-unalias.py` is a Hopper disassembler script for AArch64
Mach-O binaries. It walks the procedures of the `__TEXT` segment and looks
for Objective-C alias stubs. An alias stub is a procedure with a single
basic block of 16 bytes whose five instructions are `adrp`, `ldr`, `adrp`,
`ldr`, `br`. The first `adrp`/`ldr` pair loads a selector reference. From
the page operand and the offset operand of that pair the script computes the
reference's address, follows the first cross-reference from it, and reads
the zero-terminated selector name stored there. It then renames the stub's
entry point to `ALIAS__<selector>`.

The model has seven modules:

- `Results` (`results.dfy`) holds `Option` and `Result`.
- `Utf8` (`utf8.dfy`) holds bytes and the encoding `chr(x).encode()` with the decoding `bytearray.decode()`.
- `PyText` (`pytext.dfy`) holds the Python string operations the recogniser uses: `s[1:]`, `s[1:-1]`, `split(", ")` and `int(s, 16)`.
- `Image` (`image.dfy`) holds the document the script reads, as plain values. These are the `__TEXT` procedures and instructions, the segments with their reference tables, and the image's bytes. It also holds one `Fault` per place where the script raises an exception.
- `StringReader` (`reader.dfy`) models `read_string`. The function `CString` specifies it, and the method `ReadString` runs the script's loop.
- `AliasStub` (`selector.dfy`) models `getselector_aarch64` as a pure function, with the properties of the recogniser.
- `Scanner` (`scanner.dfy`) models `analyze_procedures`. The function `Scan` specifies the loop. The method `AnalyzeProcedures` runs it and issues renames to a `NameStore` object.

`AliasStub.GetSelector` models `getselector_aarch64`. It returns
`Success(None)` where the script returns `None`, `Success(Some(name))` where
the script returns a name, and `Failure(fault)` where it raises.
`AliasStub.SelectorAddress` models the address computation of lines 44-47.
`Scanner.ProcedureStep` models one pass of the loop in
`analyze_procedures`. A pass that raises outside the `try` (a procedure
without basic blocks, or no instruction at the block's start) comes out as
`Failure`. Such a pass ends the scan, just as the uncaught exception ends
the script.

## Model

| member | source | states |
|---|---|---|
| Utf8.Latin1 | objc-selector-unalias.py:19 | the text holds one character per byte read |
| Utf8.EncodeAllSnoc | objc-selector-unalias.py:19 | appending `chr(x).encode()` to the buffer extends the encoding of the bytes read by one code point |
| Utf8.DecodeEncodeAll | objc-selector-unalias.py:19-22 | decoding the buffer never fails, and gives one character per byte read, with that byte as its code point |
| StringReader.CString | objc-selector-unalias.py:18-20 | on success: every byte read is present and non-zero, and a zero byte follows; on failure: the first unreadable address comes before any zero byte |
| StringReader.ReadString | objc-selector-unalias.py:13-22 | the loop returns exactly `ReadStringValue`: the decoded bytes up to the first zero byte, or the fault at the first unreadable address |
| StringReader.ReadStringCharacters | objc-selector-unalias.py:13-22 | over non-zero bytes ending in a zero byte at `address + n`, the result has length `n`, character `i` is `memory[address + i]`, and there is no NUL |
| StringReader.CStringOf | objc-selector-unalias.py:13-22 | a name stored before a zero byte reads back as exactly that name |
| StringReader.ReadStringEmpty | objc-selector-unalias.py:18 | the empty string exactly when the first byte is zero |
| StringReader.PrependStep | objc-selector-unalias.py:18-20 | one pass of the loop moves one non-zero byte from the unread part to the read part |
| PyText.Find | objc-selector-unalias.py:47 | `None` exactly when `", "` does not occur; otherwise the index of the first occurrence |
| PyText.SplitJoin | objc-selector-unalias.py:47 | `split(", ")` gives at least one piece, and joining the pieces with `", "` gives back the text |
| PyText.SplitPiecesFree | objc-selector-unalias.py:47 | no piece of `split(", ")` contains the separator |
| PyText.SplitHasSecond | objc-selector-unalias.py:47 | `[1]` of the split exists exactly when `", "` occurs in the text |
| PyText.SplitAround | objc-selector-unalias.py:47 | splitting `a + ", " + b`, with no comma in `a` or `b`, gives `[a, b]` |
| PyText.ParseHex | objc-selector-unalias.py:47 | `int(s, 16)` succeeds exactly on one or more hex digits after an optional `0x`/`0X` prefix |
| PyText.ToHex | objc-selector-unalias.py:47 | the printed immediate is a non-empty string of hex digits |
| PyText.DigitsValueToHex | objc-selector-unalias.py:47 | the value of the printed hex digits is the number printed |
| PyText.ParseHexRoundTrip | objc-selector-unalias.py:47 | `int(..., 16)` reads back a printed immediate, with or without `0x` |
| Image.SegmentAt | objc-selector-unalias.py:49 | fails, with `NoSegment`, exactly when no segment covers the address; otherwise gives the first segment that covers it |
| AliasStub.Mnemonics | objc-selector-unalias.py:37 | on success: one mnemonic per slot `base + 4*i`, in order; on failure: the fault names the first slot without an instruction |
| AliasStub.SignatureRead | objc-selector-unalias.py:4-37 | five instructions whose mnemonics match the signature read as exactly `OPCODE_SIGNATURE_AARCH64` |
| AliasStub.LengthPrefilter | objc-selector-unalias.py:30-32 | a first block of any length other than 16 gives `None`, whatever else is in the document |
| AliasStub.SignatureRequired | objc-selector-unalias.py:30-40 | a selector is found only for a 16-byte block whose five instructions carry the signature's mnemonics in order |
| AliasStub.MismatchRejected | objc-selector-unalias.py:37-40 | with all five instructions present, one mnemonic that differs from the signature gives `None` |
| AliasStub.MissingInstructionRaises | objc-selector-unalias.py:37 | a missing instruction raises at the first missing slot, even when an earlier mnemonic already differs |
| AliasStub.PageOperandRoundTrip | objc-selector-unalias.py:47 | dropping the first character of a printed page operand and parsing it as hex gives the page |
| AliasStub.OffsetTailHasNoComma | objc-selector-unalias.py:47 | the `#0x…]` tail of a printed offset operand holds no comma |
| AliasStub.OffsetTailDecodes | objc-selector-unalias.py:47 | dropping the tail's first and last characters and parsing as hex gives the offset |
| AliasStub.OffsetOperandRoundTrip | objc-selector-unalias.py:47 | a printed offset operand has a second `", "` piece, and it decodes to the offset |
| AliasStub.SelectorAddressIsSum | objc-selector-unalias.py:44-47 | once both operands decode, the address is page plus offset |
| AliasStub.SelectorAddressRoundTrip | objc-selector-unalias.py:44-47 | for operands printed as the disassembler prints them, the address is page plus offset |
| AliasStub.MissingOffsetRaises | objc-selector-unalias.py:47 | an offset operand without `", "` raises, and with a valid page it raises `NoOffsetPart` rather than giving a zero offset |
| AliasStub.BadPageRaises | objc-selector-unalias.py:47 | a page slice `[1:]` that is not a hex literal raises `BadHex` on that slice, before the offset operand is read |
| AliasStub.BadOffsetRaises | objc-selector-unalias.py:47 | with a valid page, an offset slice `[1:-1]` of the second piece that is not a hex literal raises `BadHex` on that slice |
| AliasStub.AddressFaultRaises | objc-selector-unalias.py:37-47 | for a recognised stub, any fault raised while computing the selector address is the recogniser's result |
| AliasStub.NameFromFirstReference | objc-selector-unalias.py:49-53 | for a recognised stub, the result is what `read_string` gives at element 0 of the references, or `NoReference` when there are none |
| AliasStub.NoReferenceRaises | objc-selector-unalias.py:49-50 | a recognised stub with no reference from its address raises `NoReference` |
| AliasStub.StubRoundTrip | objc-selector-unalias.py:25-53 | a recognised stub whose first reference points at a zero-terminated name resolves to exactly that name |
| Scanner.RenamesSnoc | objc-selector-unalias.py:79 | each step adds its own rename, if any, at the end of the log |
| Scanner.ScanPrefixNext | objc-selector-unalias.py:60-81 | one more procedure after a prefix that has not raised either appends its step or ends the scan with its fault |
| Scanner.AbortIsFinal | objc-selector-unalias.py:68-72 | once an exception outside the `try` has ended the scan, later procedures change nothing |
| Scanner.ScanInOrder | objc-selector-unalias.py:60-81 | step `i` is what the loop body does with procedure `i`; the scan stops early only at a procedure that raises outside the `try` |
| Scanner.ScanCompletes | objc-selector-unalias.py:64-81 | when every procedure has a block and a single block starts at an instruction, every procedure is visited; failures inside the recogniser never stop the scan |
| Scanner.StepMeaning | objc-selector-unalias.py:64-81 | a rename exactly for single-block AArch64 procedures whose recogniser call returned, named `ALIAS__` plus the result; a caught fault exactly when the call raised; a skip otherwise |
| Scanner.AliasNoneRename | objc-selector-unalias.py:30-79 | a candidate whose block is not 16 bytes long is renamed to `ALIAS__None` |
| Scanner.RenamesAreRenamedSteps | objc-selector-unalias.py:79 | the rename log holds every renamed step, and holds nothing else |
| Scanner.NameStore.constructor | objc-selector-unalias.py:1 | the store starts with no renames |
| Scanner.NameStore.SetNameAtAddress | objc-selector-unalias.py:79 | the store gains exactly one rename, at the end |
| Scanner.VisitProcedure | objc-selector-unalias.py:62-81 | one loop pass returns the procedure's step, or its uncaught fault, and issues exactly the step's rename |
| Scanner.AnalyzeProcedures | objc-selector-unalias.py:56-81 | the loop computes exactly `Scan(doc)`, and the store gains exactly the renamed steps, in order |

## Left out

- The global `document` (line 1) and `getSegmentByName("__TEXT")` (lines 27 and 58) become one `Document` value passed to every operation. Hopper's live document is not modelled.
- The `print` calls (lines 73, 78, 81) have no effect on the model.
- `setNameAtAddress` (line 79) is modelled as appending to the log of a `NameStore`. Its effect on the database is not modelled.
- `Utf8.Decode` decodes only the one- and two-byte UTF-8 forms. Those are all that `chr(x).encode()` produces for a byte, so the buffer `read_string` decodes never needs more.
- `PyText.ParseHex` accepts only an optional `0x`/`0X` prefix followed by ASCII hex digits. It does not model Python's leading or trailing whitespace, sign, underscores, or non-ASCII digits. Operand text printed by the disassembler contains none of these.
- `PyText.Split` is `str.split` for the one separator `", "` the script uses, not for any separator.
- `readByte` outside the image's bytes is modelled as `Fault.UnreadableByte`, which the `try` of line 76 catches, so the stub is not renamed. What Hopper returns there is not known. If it returns `None`, `chr(None)` on line 19 raises, which agrees with the model. If it returns a non-integer value such as `False`, then `False != 0x00` is false, the loop of line 18 stops, and the partial name is returned, so the stub would be renamed instead. The model does not capture that alternative.
- `getRawArgument(1)` on an instruction with fewer operands is `Fault.NoOperand`, and a missing instruction or segment is a fault at the place where the `None` is first used. The exception's Python type is not modelled.
- The fifth mnemonic is read at `base + 16`, as line 37 does, although the block is 16 bytes long. Whether that instruction lies inside the block depends on Hopper's convention for `getEndingAddress`, which is not modelled.
- AliasStub.StubRoundTrip: takes the resolved selector address as a hypothesis rather than the operand text. `AliasStub.SelectorAddressRoundTrip` covers the operand text.
- The script's final call `analyze_procedures()` (line 84) is `Scanner.AnalyzeProcedures` on the document; running it is not modelled.
- Hopper's `getArchitecture()` tag is an integer: 5 means AArch64 (line 75). The meanings of other tags are not modelled.
