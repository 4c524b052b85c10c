# RV32I assemblers, modelled in Dafny

This project models the two RV32I assemblers of the single-cycle CPU
repository and proves what they compute.

- `single_cycle/insturction_to_machinecode.py` is a one-pass assembler
  without labels. Each line is assembled on its own into one word or none.
  It knows the RV32I base set plus FENCE, FENCE.I, ECALL, EBREAK and the six
  Zicsr instructions, and writes one 32-digit binary line per word.
- `single_cycle/asm2c-0113.py` is a two-pass assembler with labels. Pass one
  drops comments and labels and numbers the instructions 0, 4, 8, …. Pass
  two encodes each instruction, reading an operand as a number or as a label
  relative to the instruction's address. It writes a binary text file and a
  Xilinx COE file.

The modules follow the program's structure:

| module | file | what it holds |
|---|---|---|
| `Results` | `results.dfy` | the error kinds the assemblers raise, `Option` and `Result` |
| `Text` | `text.dfy` | `strip`, `lower`, splitting at commas and blanks, the `offset(base)` matcher |
| `Bits` | `bits.dfy` | Python's `&`, `|`, `^`, `<<` and `>>` on unbounded integers and their arithmetic facts |
| `Isa` | `isa.dfy` | the mnemonics and the opcode, funct3 and funct7 tables |
| `Decode` | `decode.dfy` | reading fields and signed immediates back out of a word |
| `Layouts` | `layouts.dfy` | the R/I/S/B/J field layouts as sums of shifted fields |
| `Operands` | `operands.dfy` | `parse_register`, `parse_immediate` and the register table |
| `Lines` | `lines.dfy` | instruction lines written in the usual form, `name op0, op1, ...`, and how the shared splitter takes them apart |
| `Format` | `format.dfy` | the binary text file and the COE file as strings |
| `RV32IEncoders` | `rv32i_encoders.dfy` | the one-pass encoders, fence masks and CSR parsing |
| `RV32IAssembler` | `rv32i_assembler.dfy` | `assemble_instruction` and `assemble_file` of the one-pass assembler |
| `TwoPassEncoders` | `two_pass_encoders.dfy` | the masked encoders `enc_r/i/s/b/u/j` |
| `TwoPassAssembler` | `two_pass_assembler.dfy` | `preprocess`, `assemble_instr` and `assemble_file` of the two-pass assembler |

The one-pass encoders are modelled as written. That includes three places
where they depart from the RV32I layout (see "## Findings"). Words are
unbounded `int`s, as in Python, so a word that does not fit in 32 bits is
modelled as such rather than cut short. The two-pass encoders mask every
field, and their words are proved to lie in [0, 2^32).

Python exceptions become `Err` values of one `Error` datatype. Python's
`|`, `^` and two's complement are defined explicitly on integers. Each
regular expression the assemblers use becomes a small matcher over ASCII
characters.

What the code does, and the model with it:
- neither file range-checks I/S/B/J immediates;
- `parse_csr` does not range-check CSR addresses;
- neither file normalises a U-type immediate: the one-pass assembler shifts
  it right by 12 and the two-pass assembler masks it to 20 bits;
- the one-pass assembler ignores any operands of `ecall` and `ebreak`;
- the two-pass assembler has no CSR, FENCE, ECALL/EBREAK, `lbu` or `lhu`;
- the two-pass assembler reports no line number with a failure;
- the error kinds are finer than one "out of range" kind: a shift amount
  and a CSR immediate have kinds of their own.

## Model

`P1` below stands for `single_cycle/insturction_to_machinecode.py` and `P2`
for `single_cycle/asm2c-0113.py`.

| member | source | states |
|---|---|---|
| `Operands.ParseRegister` | single_cycle/insturction_to_machinecode.py:95-107 | a register token gives a number in 0..31; any other token fails with an invalid-register error |
| `Operands.RegisterCaseAndBlanks` | single_cycle/insturction_to_machinecode.py:97 | a register token reads as its stripped, lower-cased form does; the same holds in single_cycle/asm2c-0113.py:67 |
| `Operands.SpacedAlias` | single_cycle/asm2c-0113.py:67-69 | ` RA ` reads as register 1 |
| `Operands.UpperCaseRegister` | single_cycle/asm2c-0113.py:67-72 | `X5` reads as register 5 |
| `Text.LowerStripped` | single_cycle/asm2c-0113.py:67 | a stripped, lower-cased string is left as it is by stripping and lower-casing again |
| `Operands.AliasAgrees` | single_cycle/insturction_to_machinecode.py:97-99 | an ABI alias (`zero`, `ra`, `sp`, `fp`, …) reads as the same register as its `xN` name |
| `Operands.NumberedRegister` | single_cycle/insturction_to_machinecode.py:100-104 | `xN` reads as register N for every N in 0..31 |
| `Operands.ParseNumeral` | single_cycle/asm2c-0113.py:76-80 | a token is read as an immediate exactly when it is a hex numeral (`0x`/`-0x`) or a decimal one; otherwise it fails with an invalid-immediate error |
| `Operands.DecimalRoundTrip` | single_cycle/insturction_to_machinecode.py:115-116 | every integer written in decimal reads back as itself |
| `Operands.HexRoundTrip` | single_cycle/insturction_to_machinecode.py:113-114 | every integer written as `0x…` or `-0x…` reads back as itself |
| `Operands.HexToken` | single_cycle/asm2c-0113.py:78-79 | a `0x` token is read in base 16 |
| `Operands.NegativeHexToken` | single_cycle/insturction_to_machinecode.py:113-114 | a `-0x` token is read in base 16 and negated |
| `Operands.DecimalToken` | single_cycle/asm2c-0113.py:80 | a run of digits is read in base 10 |
| `Operands.NegativeDecimalToken` | single_cycle/insturction_to_machinecode.py:116 | `-` and a run of digits is read in base 10 and negated |
| `RV32IEncoders.CsrNamesAreWords` | single_cycle/insturction_to_machinecode.py:87-93 | every named CSR starts with a letter, so the name table never hides a numeral |
| `RV32IEncoders.CsrHexRoundTrip` | single_cycle/insturction_to_machinecode.py:125-126 | every address written as `0x…` is read back as itself, whatever its size |
| `RV32IEncoders.CsrDecimalRoundTrip` | single_cycle/insturction_to_machinecode.py:127-129 | every integer written in decimal is read back as itself as a CSR address |
| `RV32IEncoders.ParseFenceMask` | single_cycle/insturction_to_machinecode.py:237-248 | the loop that ORs one bit per letter computes the fence mask of the trimmed, lower-cased text |
| `RV32IEncoders.FenceMaskLetters` | single_cycle/insturction_to_machinecode.py:241-247 | a mask is accepted exactly when all its letters are among i, o, r, w; then it is below 16 and has bit 3 iff `i` occurs, bit 2 iff `o`, bit 1 iff `r`, bit 0 iff `w` |
| `RV32IEncoders.FenceMaskLetterSet` | single_cycle/insturction_to_machinecode.py:240-248 | two masks with the same set of letters give the same result: order and repetition do not matter |
| `RV32IEncoders.IorwMask` | single_cycle/insturction_to_machinecode.py:364-365 | the default mask `iorw` is 15 |
| `RV32IEncoders.FenceWord` | single_cycle/insturction_to_machinecode.py:223-235 | `fence` succeeds exactly when both masks do; the word has opcode 0x0F, zero rd, funct3 and rs1, pred in bits 27:24 and succ in bits 23:20 |
| `RV32IEncoders.FenceDefault` | single_cycle/insturction_to_machinecode.py:363-366 | `fence iorw, iorw` is 0x0FF0000F |
| `RV32IEncoders.CsrFields` | single_cycle/insturction_to_machinecode.py:250-264 | a CSR word fits in 32 bits exactly when the address is in 0..4095, and then the address, rs1 or 5-bit immediate, funct3, rd and opcode read back from their fields |
| `RV32IEncoders.TwosComplementLow` | single_cycle/insturction_to_machinecode.py:148-150 | `(abs(imm) ^ mask) + 1` agrees with imm in its low k bits, and it fits in k bits exactly when imm > -2^k |
| `RV32IEncoders.RTypeFields` | single_cycle/insturction_to_machinecode.py:133-140 | for registers in 0..31 the R-type word is 32 bits and funct7, rs2, rs1, funct3, rd and opcode read back from bits 31:25, 24:20, 19:15, 14:12, 11:7 and 6:0 |
| `RV32IEncoders.AddExample` | single_cycle/insturction_to_machinecode.py:519 | `add x3, x1, x2` is 0x002081B3 |
| `RV32IEncoders.ITypeFields` | single_cycle/insturction_to_machinecode.py:142-153 | the I-type word fits in 32 bits exactly when imm > -4096; then bits 31:20 hold imm mod 4096 and read back as imm when imm is in -2048..2047 |
| `RV32IEncoders.AddiExample` | single_cycle/insturction_to_machinecode.py:517 | `addi x1, x0, 10` is 0x00A00093 |
| `RV32IEncoders.WideImmediateAsWritten` | single_cycle/insturction_to_machinecode.py:148-150 | an immediate of -4097 spills past bit 31 of the I-type word |
| `RV32IEncoders.SraiAsWritten` | single_cycle/insturction_to_machinecode.py:142-153 | `srai` encodes exactly like `srli`, with funct7 0 instead of 0x20 |
| `RV32IEncoders.STypeFields` | single_cycle/insturction_to_machinecode.py:155-168 | for every integer imm, bits 31:25 and 11:7 together hold imm mod 4096, and rs2, rs1, funct3 and opcode are in their fields; the word fits in 32 bits |
| `RV32IEncoders.BTypeFields` | single_cycle/insturction_to_machinecode.py:170-190 | for an even offset the B-type word is 32 bits with opcode, funct3, rs1 and rs2 in their fields and bit 7 always 0 |
| `RV32IEncoders.BTypeAsWritten` | single_cycle/insturction_to_machinecode.py:184-189 | the offset read back from the word is the offset given when its bit 11 is 0, and 1024 or 2048 less when bit 11 is 1 |
| `RV32IEncoders.BTypeRoundTripAsWritten` | single_cycle/insturction_to_machinecode.py:189 | an even offset in -4096..4094 reads back from the word exactly when its bit 11 is 0 |
| `RV32IEncoders.BranchAsWritten` | single_cycle/insturction_to_machinecode.py:185 | `beq x0, x0, 2048` is 0x40000063 |
| `RV32IEncoders.BranchReadBackAsWritten` | single_cycle/insturction_to_machinecode.py:184-187 | that word reads back as offset 1024 |
| `RV32IEncoders.UTypeFields` | single_cycle/insturction_to_machinecode.py:192-200 | the U-type word is 32 bits with opcode and rd in place, and its upper field holds bits 31:12 of imm |
| `RV32IEncoders.LuiAsWritten` | single_cycle/insturction_to_machinecode.py:197 | `lui x1, 0x12345` places 0x12, not 0x12345, in the upper field |
| `RV32IEncoders.JTypeRoundTrip` | single_cycle/insturction_to_machinecode.py:202-221 | for an even offset in -2^20..2^20-2 the J-type word is 32 bits and bits 31, 19:12, 20 and 30:21 reassemble to the offset |
| `RV32IEncoders.OddOffsetsRefused` | single_cycle/insturction_to_machinecode.py:176-208 | the B-type and J-type encoders fail with a misalignment error exactly when the offset is odd |
| `RV32IAssembler.CutComment` | single_cycle/insturction_to_machinecode.py:269 | the line is cut at its first `#` and holds no `#` before it |
| `RV32IAssembler.BlankLine` | single_cycle/insturction_to_machinecode.py:269-271 | a line gives no word and no error exactly when it is blank after its comment is cut |
| `RV32IAssembler.UnknownMnemonic` | single_cycle/insturction_to_machinecode.py:394-395 | a mnemonic outside the tables is refused as unsupported, whatever its operands |
| `RV32IAssembler.SystemWords` | single_cycle/insturction_to_machinecode.py:373-377 | `ecall` is 0x00000073 and `ebreak` is 0x00100073, whatever the operands |
| `RV32IAssembler.FenceWithoutOperands` | single_cycle/insturction_to_machinecode.py:363-366 | `fence` with no operands is 0x0FF0000F |
| `RV32IAssembler.DefaultMasks` | single_cycle/insturction_to_machinecode.py:364-365 | with no operands both masks default to `iorw` |
| `RV32IAssembler.ShiftAmountChecked` | single_cycle/insturction_to_machinecode.py:346-353 | with well-formed operands a shift is assembled exactly when its amount is in 0..31, and is refused as out of range otherwise |
| `RV32IAssembler.CsrImmediateChecked` | single_cycle/insturction_to_machinecode.py:386-392 | with well-formed operands a CSR-immediate instruction is assembled exactly when the immediate is in 0..31, and is refused otherwise |
| `RV32IAssembler.UsualLine` | single_cycle/insturction_to_machinecode.py:269-276 | a line written as a lower-case mnemonic and operands joined by `, ` assembles to the encoding of that mnemonic and those operands |
| `RV32IAssembler.LineWord` | single_cycle/insturction_to_machinecode.py:266-283 | such a line whose operands encode to w yields w |
| `RV32IAssembler.RegisterLine` | single_cycle/insturction_to_machinecode.py:356-360 | `op xD, xS, xT` for an R-type mnemonic yields a 32-bit word with those registers and the mnemonic's opcode, funct3 and funct7 in their fields |
| `RV32IAssembler.RegisterOperands` | single_cycle/insturction_to_machinecode.py:357-360 | three well-formed registers give the R-type encoding |
| `RV32IAssembler.ImmediateLine` | single_cycle/insturction_to_machinecode.py:339-343 | `op xD, xS, imm` for an I-type ALU mnemonic with imm in -2048..2047 yields a word whose fields read back as the registers and imm |
| `RV32IAssembler.ImmediateOperands` | single_cycle/insturction_to_machinecode.py:340-343 | two well-formed registers and an immediate give the I-type encoding |
| `RV32IAssembler.LoadOperands` | single_cycle/insturction_to_machinecode.py:317-325 | `rd, off(rs1)` for a load gives the I-type encoding of rd, rs1 and off |
| `RV32IAssembler.StoreOperands` | single_cycle/insturction_to_machinecode.py:328-336 | `rs2, off(rs1)` for a store gives the S-type encoding |
| `RV32IAssembler.MalformedAddress` | single_cycle/insturction_to_machinecode.py:292-336 | a load, a store or a two-operand `jalr` whose address does not match `off(reg)` is refused as badly formed |
| `RV32IAssembler.JumpRegisterAddress` | single_cycle/insturction_to_machinecode.py:293-300 | `jalr rd, off(rs1)` gives the I-type encoding |
| `RV32IAssembler.JumpRegisterOperands` | single_cycle/insturction_to_machinecode.py:302-307 | `jalr rd, rs1, imm` gives the same I-type encoding |
| `RV32IAssembler.MissingRegister` | single_cycle/insturction_to_machinecode.py:356-398 | an R-type line with fewer than three operands is refused as missing an operand |
| `Lines.SplitLine` | single_cycle/insturction_to_machinecode.py:274-276 | splitting at commas and blanks gives back the mnemonic and the operands; single_cycle/asm2c-0113.py:178 splits the same way |
| `RV32IAssembler.CollectFailedFirst` | single_cycle/insturction_to_machinecode.py:410-418 | the file fails at line n with error e exactly when line n fails with e and every earlier line assembles |
| `RV32IAssembler.CollectWordsAll` | single_cycle/insturction_to_machinecode.py:410-414 | the file assembles exactly when every line does, and its words are those of the non-blank lines in line order |
| `RV32IAssembler.CollectAppend` | single_cycle/insturction_to_machinecode.py:412-414 | the words of two files read one after the other are the first file's words followed by the second's |
| `RV32IAssembler.PassSkipsBlank` | single_cycle/insturction_to_machinecode.py:412-414 | a blank or comment-only line changes nothing |
| `RV32IAssembler.CollectStops` | single_cycle/insturction_to_machinecode.py:416-418 | once a prefix of the lines fails, the file fails |
| `RV32IAssembler.AssembleFile` | single_cycle/insturction_to_machinecode.py:400-423 | the loop reports success exactly when every line assembles, and then the output is one binary line per word; on failure nothing is written |
| `Format.TextLayout` | single_cycle/insturction_to_machinecode.py:421-423 | for 32-bit words the text file has 33 characters per word: its 32 binary digits, then a newline |
| `Format.Binary032Bits` | single_cycle/asm2c-0113.py:319 | character j of a word's binary line is bit 31-j of the word |
| `Format.Hex08Nibbles` | single_cycle/asm2c-0113.py:327-329 | character j of a word's hex entry is the hex digit of its bits 31-4j..28-4j |
| `Format.CoeLayout` | single_cycle/asm2c-0113.py:322-329 | the COE file is the two header lines, then each word as 8 hex digits followed by `,` and a newline, except the last |
| `Format.LastEntry` | single_cycle/asm2c-0113.py:326-327 | a non-empty COE vector ends with `;` after the last word |
| `Text.OffsetBaseMatches` | single_cycle/insturction_to_machinecode.py:319 | an offset, `(`, a word and `)` are matched as those two groups and the rest of the token |
| `Text.OffsetBaseShape` | single_cycle/asm2c-0113.py:231 | conversely, every match is an offset, `(`, a word and `)` followed by the rest |
| `TwoPassEncoders.EncR` | single_cycle/asm2c-0113.py:84-90 | every R-type word is in [0, 2^32) |
| `TwoPassEncoders.EncRFields` | single_cycle/asm2c-0113.py:84-90 | funct7, funct3 and opcode read back from their fields, each register as its low 5 bits |
| `TwoPassEncoders.EncRAgrees` | single_cycle/asm2c-0113.py:84-90 | for registers in 0..31 the two assemblers give the same R-type word |
| `TwoPassEncoders.EncI` | single_cycle/asm2c-0113.py:92-100 | every I-type word is in [0, 2^32), whatever imm |
| `TwoPassEncoders.EncIFields` | single_cycle/asm2c-0113.py:92-100 | bits 31:20 hold imm mod 4096 for every imm and read back as imm in -2048..2047 |
| `TwoPassEncoders.EncIShiftFields` | single_cycle/asm2c-0113.py:94 | a shift puts the mnemonic's funct7 in bits 31:25 and the amount in bits 24:20 |
| `TwoPassEncoders.SraiSrli` | single_cycle/asm2c-0113.py:57 | `srai` differs from `srli` only in bit 30 |
| `TwoPassEncoders.NopWord` | single_cycle/asm2c-0113.py:183-184 | `nop` is `addi x0, x0, 0` = 0x00000013 |
| `TwoPassEncoders.EncS` | single_cycle/asm2c-0113.py:102-111 | every S-type word is in [0, 2^32) |
| `TwoPassEncoders.EncSFields` | single_cycle/asm2c-0113.py:103-111 | bits 31:25 and 11:7 together hold imm mod 4096 and read back as imm in -2048..2047 |
| `TwoPassEncoders.EncB` | single_cycle/asm2c-0113.py:113-115 | the B-type encoder succeeds exactly when the offset is even, fails with a misalignment error otherwise, and gives a 32-bit word |
| `TwoPassEncoders.EncBFields` | single_cycle/asm2c-0113.py:116-124 | bits 31, 7, 30:25 and 11:8 reassemble to imm mod 8192, and to imm itself in -4096..4094 |
| `TwoPassEncoders.BranchOffset` | single_cycle/asm2c-0113.py:117-124 | for registers in 0..31 and an even offset in range every field reads back |
| `TwoPassEncoders.BranchExample` | single_cycle/asm2c-0113.py:123 | `beq x0, x0, 2048` is 0x000000E3, which reads back as 2048 |
| `TwoPassEncoders.EncU` | single_cycle/asm2c-0113.py:126-128 | every U-type word is in [0, 2^32) |
| `TwoPassEncoders.EncUFields` | single_cycle/asm2c-0113.py:127-128 | the upper field holds imm mod 2^20, and imm itself when imm is in 0..2^20-1 |
| `TwoPassEncoders.LuiExample` | single_cycle/asm2c-0113.py:127 | `lui x1, 0x12345` places 0x12345 in the upper field |
| `TwoPassEncoders.EncJ` | single_cycle/asm2c-0113.py:130-132 | the J-type encoder succeeds exactly when the offset is even and gives a 32-bit word |
| `TwoPassEncoders.EncJFields` | single_cycle/asm2c-0113.py:133-139 | bits 31, 19:12, 20 and 30:21 reassemble to imm mod 2^21, and to imm itself in -2^20..2^20-2 |
| `TwoPassEncoders.JumpOffset` | single_cycle/asm2c-0113.py:130-139 | `jal` with rd in 0..31 and an even offset in range reads back opcode 0x6F, rd and the offset |
| `TwoPassAssembler.CommentStart` | single_cycle/asm2c-0113.py:150 | the comment starts at the first `#` or `//` of the line, or there is none |
| `TwoPassAssembler.LabelPrefix` | single_cycle/asm2c-0113.py:156 | a label prefix is found exactly when the line is a label name, a colon and the rest |
| `TwoPassAssembler.HeadLabels` | single_cycle/asm2c-0113.py:155-162 | the names of the `name:` prefixes at the head of a line, each a label name, and the text after them, which starts with no label |
| `TwoPassAssembler.UnboundStep` | single_cycle/asm2c-0113.py:159-162 | names n, rest are distinct and unbound exactly when n is unbound and rest are distinct and unbound once n is bound |
| `TwoPassAssembler.TakeLabels` | single_cycle/asm2c-0113.py:155-163 | the label loop succeeds exactly when the head names are distinct and none is bound yet, and fails with a duplicate-label error otherwise; then the text is what follows the names, the table gains exactly those names, each bound to pc, and earlier bindings are kept |
| `TwoPassAssembler.ScanLine` | single_cycle/asm2c-0113.py:149-171 | a line succeeds exactly when its head names are distinct and unbound; then the instructions gain the text after the labels, at address 4 times the number before it, when that text is not empty, and nothing otherwise, and the table gains exactly the line's names, bound to that address |
| `TwoPassAssembler.Preprocess` | single_cycle/asm2c-0113.py:143-173 | the loop with its inner label loop computes pass one of the lines |
| `TwoPassAssembler.ScanStops` | single_cycle/asm2c-0113.py:160-161 | the first duplicate label ends pass one with that error |
| `TwoPassAssembler.ScanNumbered` | single_cycle/asm2c-0113.py:170-171 | entry i has pc 4i and non-empty text, and every label is a multiple of 4 no greater than 4 times the number of entries |
| `TwoPassAssembler.ScanPrefix` | single_cycle/asm2c-0113.py:149 | pass one over more lines keeps the instructions and labels of pass one over fewer |
| `TwoPassAssembler.LabelAddress` | single_cycle/asm2c-0113.py:162 | a label defined on line k maps to the address of the next instruction after it |
| `TwoPassAssembler.ScanAppend` | single_cycle/asm2c-0113.py:149 | pass one over one more line is one more turn of the loop |
| `TwoPassAssembler.DuplicateRejected` | single_cycle/asm2c-0113.py:160-161 | a line with a label already bound at any head position, or with the same label twice, makes pass one fail with a duplicate-label error |
| `TwoPassAssembler.LabelDefined` | single_cycle/asm2c-0113.py:155-162 | a label at the head of line k of an accepted program is bound to 4n, n being the number of instructions on the lines before k, and those are the first n instructions of the program |
| `TwoPassAssembler.NextInstruction` | single_cycle/asm2c-0113.py:164-171 | the text of line k after its labels, when not empty, is instruction n of the program, at address 4n |
| `TwoPassAssembler.LineDefines` | single_cycle/asm2c-0113.py:159-162 | a label at the head of an accepted line was unbound before it and is bound to the next address |
| `TwoPassAssembler.NextLine` | single_cycle/asm2c-0113.py:149 | pass one over the first k + 1 lines is pass one over the first k, then line k |
| `TwoPassAssembler.BlankSkipped` | single_cycle/asm2c-0113.py:150-152 | a blank or comment-only line changes nothing |
| `TwoPassAssembler.ImmOrLabel` | single_cycle/asm2c-0113.py:187-196 | a numeral is read as an immediate; any other token succeeds exactly when it is a label, and then pc plus the result is the label's address; failure is an unknown-label error |
| `TwoPassAssembler.EncodeMnemonic` | single_cycle/asm2c-0113.py:198-289 | a mnemonic is refused as unsupported exactly when it is not in the two-pass tables, and every word is 32 bits |
| `TwoPassAssembler.AssembleInstr` | single_cycle/asm2c-0113.py:177-289 | every instruction assembles to a 32-bit word or an error |
| `TwoPassAssembler.NopLine` | single_cycle/asm2c-0113.py:183-184 | `nop` assembles to 0x00000013 whatever follows it |
| `TwoPassAssembler.OperandCount` | single_cycle/asm2c-0113.py:199-283 | a known mnemonic with the wrong number of operands is refused before any operand is read |
| `TwoPassAssembler.LoadFromLabel` | single_cycle/asm2c-0113.py:227-236 | `lw rd, label(rs1)` encodes a load whose offset added to pc is the label's address |
| `TwoPassAssembler.StoreToLabel` | single_cycle/asm2c-0113.py:239-248 | `sw rs2, label(rs1)` encodes a store whose offset added to pc is the label's address |
| `TwoPassAssembler.MalformedAddress` | single_cycle/asm2c-0113.py:215-248 | a `jalr`, load or store whose address does not match `off(reg)` is refused as badly formed |
| `TwoPassAssembler.TrailingTextRefused` | single_cycle/asm2c-0113.py:219 | an address with text after its `)` does not match |
| `TwoPassAssembler.ShiftRange` | single_cycle/asm2c-0113.py:260-268 | with well-formed operands a shift is assembled exactly when its amount is in 0..31 |
| `TwoPassAssembler.JumpToLabel` | single_cycle/asm2c-0113.py:207-212 | `jal rd, label` encodes a jump whose offset added to pc is the label's address |
| `TwoPassAssembler.LoopBack` | single_cycle/asm2c-0113.py:194-196 | `jal x0, loop` at pc 4 with `loop` at 0 carries offset -4 |
| `TwoPassAssembler.BranchToLabel` | single_cycle/asm2c-0113.py:271-277 | a branch to a label in range encodes a word whose offset added to pc is the label's address |
| `TwoPassAssembler.UsualText` | single_cycle/asm2c-0113.py:177-180 | an instruction written as a lower-case mnemonic and operand tokens joined by `, ` is encoded as that mnemonic applied to exactly those operands |
| `TwoPassAssembler.TextWord` | single_cycle/asm2c-0113.py:177-180 | such an instruction whose operands encode to w assembles to w |
| `TwoPassAssembler.NamedMnemonic` | single_cycle/asm2c-0113.py:183-199 | a name of the tables other than `nop` goes to its mnemonic's branch of the `if` chain |
| `TwoPassAssembler.RegisterText` | single_cycle/asm2c-0113.py:280-289 | `op xD, xS, xT` for an R-type mnemonic assembles to a word whose fields read back as the three registers and the mnemonic's opcode, funct3 and funct7 |
| `TwoPassAssembler.RegisterOperands` | single_cycle/asm2c-0113.py:280-289 | three well-formed registers give the R-type encoding |
| `TwoPassAssembler.AluText` | single_cycle/asm2c-0113.py:251-258 | `op xD, xS, t` for an I-type ALU mnemonic, t a numeral or label read as an immediate in -2048..2047, assembles to a word whose fields read back as the registers and that immediate |
| `TwoPassAssembler.AluOperands` | single_cycle/asm2c-0113.py:251-258 | two well-formed registers and an immediate or label give the I-type encoding |
| `TwoPassAssembler.ShiftText` | single_cycle/asm2c-0113.py:260-268 | `op xD, xS, n` for a shift with n in 0..31 assembles to a word with the registers, the amount in bits 24:20 and the mnemonic's funct7 |
| `TwoPassAssembler.UpperText` | single_cycle/asm2c-0113.py:199-205 | `lui` or `auipc xD, n` assembles to a word with the opcode, rd and n mod 2^20 in bits 31:12 |
| `TwoPassAssembler.AddressText` | single_cycle/asm2c-0113.py:215-236 | `jalr` or a load `xD, off(xS)`, the offset a numeral or label read as an immediate in -2048..2047, assembles to a word whose fields read back as rd, the base register and the offset |
| `TwoPassAssembler.AddressOperands` | single_cycle/asm2c-0113.py:215-236 | rd and a well-formed `off(base)` give the I-type encoding for `jalr` and the loads |
| `TwoPassAssembler.StoreText` | single_cycle/asm2c-0113.py:239-248 | a store `xT, off(xS)` assembles to a word whose fields read back as the two registers and the offset |
| `TwoPassAssembler.JumpText` | single_cycle/asm2c-0113.py:207-212 | `jal xD, l` for a label within 1 MiB assembles to a jump whose offset added to pc is the label's address |
| `TwoPassAssembler.BranchText` | single_cycle/asm2c-0113.py:271-277 | a branch `xS, xT, l` to a label within 4 KiB assembles to a word whose offset added to pc is the label's address |
| `TwoPassAssembler.GatherAll` | single_cycle/asm2c-0113.py:311-313 | pass two succeeds exactly when every instruction assembles, and then gives one word per instruction in order |
| `TwoPassAssembler.GatherFirstError` | single_cycle/asm2c-0113.py:312 | pass two fails with the error of the first instruction that fails |
| `TwoPassAssembler.GatherStops` | single_cycle/asm2c-0113.py:311 | once a prefix of pass two fails, the whole pass fails the same way |
| `TwoPassAssembler.ProgramWords` | single_cycle/asm2c-0113.py:301-313 | a program's words are 32-bit words, one per instruction of pass one, each the word of that instruction at its address |
| `TwoPassAssembler.AssembleFile` | single_cycle/asm2c-0113.py:293-329 | both passes, then the text and COE files of the words; an error in either pass is returned before any file is written |
| `TwoPassAssembler.WriteText` | single_cycle/asm2c-0113.py:317-319 | the loop writes the text file of the words |
| `TwoPassAssembler.WriteCoe` | single_cycle/asm2c-0113.py:322-329 | the indexed loop writes the COE file of the words |

## Left out

- File reading and writing, the progress tables printed to the console, the `input()` prompt and `main` in both files: the model works on the lines read and returns the output text.
- The derivation of the COE path from the text path (single_cycle/asm2c-0113.py:294-295): it is file-name handling only.
- `create_sample_asm` and `create_simple_program` (single_cycle/insturction_to_machinecode.py:437-588) and the sample program of single_cycle/asm2c-0113.py:338-346: they only write example files.
- sim.py is not part of this model: it hands boolean expressions to an external simplifier and has no logic of its own.
- Quirks of Python's `int()`, `lower()` and regular expressions: underscores in numerals, `+` signs, Unicode digits, Unicode word characters, Unicode blanks, and the Unicode case mapping of `lower()` (which maps, for example, U+212A KELVIN SIGN to `k`); `Text.Lower` maps only `A`-`Z`. The matchers use ASCII digits, letters and `_`, and the blanks space, tab to carriage return and 0x1C-0x1F.
- Exception message text, and the one-pass assembler's re-wrapping of every exception as a `ValueError` (single_cycle/insturction_to_machinecode.py:397-398): errors are kinds, not messages.
- The unused `is_branch` argument of `parse_imm_or_label`.
- The progress listing's `0x{code:08x}` text: only the two output files are modelled.
- RV32IAssembler.UsualLine: the whole-line lemmas cover lines written as a lower-case mnemonic and operands joined by `, `; other spacings are covered by `Text.Split` itself but not by a lemma of their own.
- Operands.ParseImmediate: its contract only names the error kind; which tokens are accepted, and their values, are stated by `Operands.ParseNumeral`, `Operands.DecimalRoundTrip` and `Operands.HexRoundTrip`.
- TwoPassAssembler.AssembleInstr: its contract states only that words are 32 bits; which word each class of mnemonic gives, for instructions written in the usual form, is stated by `TwoPassAssembler.UsualText` and the lemmas `RegisterText`, `AluText`, `ShiftText`, `UpperText`, `AddressText`, `StoreText`, `JumpText`, `BranchText` and `NopLine`; other spacings are covered by `Text.Split` itself but not by a lemma of their own.

## Findings

| source | as written | input that shows it | evidently intended | confidence | as-written member | corrected member |
|---|---|---|---|---|---|---|
| single_cycle/insturction_to_machinecode.py:189 | imm[11] of a branch offset is ORed into bit 30, over imm[10] | `beq x0, x0, 2048` gives 0x40000063, which reads back as offset 1024 | imm[11] in bit 7, giving 0x000000E3 | not executed | `RV32IEncoders.BranchAsWritten` | `TwoPassEncoders.BranchExample` |
| single_cycle/insturction_to_machinecode.py:142-153 | the I-type encoder never writes funct7, so `srai` gets funct7 0 | `srai x1, x1, 3` encodes exactly like `srli x1, x1, 3` | funct7 0x20 in bits 31:25: `srai` is `srli` plus 0x40000000 | not executed | `RV32IEncoders.SraiAsWritten` | `TwoPassEncoders.SraiSrli` |
| single_cycle/insturction_to_machinecode.py:197 | the U-type immediate is shifted right by 12 before it is placed | `lui x1, 0x12345` puts 0x12 in bits 31:12 | the 20-bit immediate itself in bits 31:12 | not executed | `RV32IEncoders.LuiAsWritten` | `TwoPassEncoders.LuiExample` |
| single_cycle/insturction_to_machinecode.py:148-150 | the two's complement `(abs(imm) ^ 0xFFF) + 1` is not masked to 12 bits | `addi x0, x0, -4097` gives a word of 33 bits or more | a 12-bit field holding imm mod 4096, as the comment at line 147 says | not executed | `RV32IEncoders.WideImmediateAsWritten` | `TwoPassEncoders.EncIFields` |
