# Verified models of armlint's scanners, rewriters and tools

armlint looks for AArch64 instruction sequences that could be shorter, and ships
tools that search for candidates, fuzz its rewrites and turn JIT dumps into ELF
files. This project models the parts of it that claim something about every
register value, every chain, every byte stream or every run, and proves those
claims.

| files | what they model |
|---|---|
| `Nzcv`, `CcmpChain` | CMP and CMP/CCMP chains on w-bit values, and the search of `tools/net11scan.py` for one compare that replaces a chain |
| `Bits`, `Words`, `LogicalImmediate`, `MoveImmediate`, `MoveAgreement` | A64 words, the logical-immediate codec in both its Python and its C form, and single-instruction moves of a constant |
| `MaskChain`, `MaskWords`, `MaskChainMissed`, `MaskFlags` | what the mask instructions do, the five rewrites of a two-instruction AND/UXT/SXT chain, and the pairs left alone although one instruction would do |
| `Branches`, `ZeroTest`, `SplitAdd`, `FuzzProgram` | `tools/rwfuzz.c`: branch encodings, the zero-test fold, the 24-bit ADD split, and the programs the generator builds |
| `Insns`, `InsnMeaning`, `DefUseRuns`, `DefUse`, `DefUseMeaning`, `DefUseReports` | `tools/defuse.c`: the block-local scan, its tables, and what each report means |
| `BranchTargets`, `PairTable` | `tools/pairscan.c`: branch-target bitsets (also defuse's) and the counting hash table |
| `Anchors`, `CodeRanges`, `BtiEvidence`, `FunctionStarts`, `Relr` | `main.c`: anchor tables, masking outside the kept ranges, BTI evidence, function starts and RELR |
| `ElfObject`, `ElfSymbols`, `DumpChunks`, `DumpSizes`, `DumpParsers`, `DumpRoundTrip` | `tools/*dump2elf.py`: from dump lines to ELF bytes, and back through the reader of `tools/net11scan.py` |
| `Widths`, `Arithmetic`, `Sequences`, `Options` | machine integers, powers of two and modular arithmetic, small helpers |

Code that updates state in place is a class or a method over arrays here, proved
against a specification; the specification's own properties are the lemmas. A
value of which the source looks at single bits is the set of its one bits; a
value it compares or adds is a number below 2^w.

For defuse the statements are in the manner of past-time temporal logic:
`Since(t, start, keep)` holds of a run when some event satisfied `start`, given
the run before it, and every later event satisfied `keep`.

## Differences and limits found

* `_single_compare_equivalent` is described as finding some single CMP or CMN
  with a constant up to 4095 (tools/net11scan.py:414-418). It tries constants
  within 2 of the links' own, and so misses chains that only look at the sign
  when no link compares with a small constant. `CcmpChain.SearchIsExactIff` gives
  the exact condition, settled by the links' constants and by evaluating the chain
  at their finitely many breakpoints, and `CcmpChain.SearchMisses` an encodable
  chain that is missed: CMP Rn, #20 ; CCMP Rn, #20, #0, NE, read under EQ.
* defuse calls a reload "same (base,disp,size)" (tools/defuse.c:19), but files every
  LDR of a register other than an X register under 4 bytes
  (tools/defuse.c:475-482). `DefUseMeaning.SameBytesIff`: what a reload report says
  was read again is as many bytes if and only if the load is not filed under 4; a
  D load before a W one, or a W load before a D one, is reported all the same.
* `classify_mask_chain` calls a second instruction a no-op only by its mask
  (tools/net11scan.py:530-576). One more pair changes nothing: a W sign extension
  feeding a wider X one. `MaskChain.NoopIff` is exact. Of the pairs the classifier
  does not refuse for their registers, spelling or flags, `MaskChainMissed.LeftAloneIff`
  says which it leaves alone although one instruction computes them: four families,
  for example AND W, #0x00FF00FF and then SXTH, which is AND #0xFF.
* The bitset of tools/pairscan.c has a bit for every whole word, and the scan marks
  any landing below the section's size (tools/pairscan.c:346-378).
  `BranchTargets.MarksFitIff` says when every mark has its bit: not when the whole
  words fill the bitset's last byte and a branch lands on a partial word after
  them. `BranchTargets.TailSectionOverruns` is a 33-byte section of that kind.
* `--max-sections` takes any integer (tools/v8dump2elf.py:229-256). A limit of 0
  raises and a negative one writes no file while reporting success: the round trip
  holds exactly for a positive limit or a dump without code. A limit above 65531
  raises on a dump of more chunks than that, since a file counts its sections in
  sixteen bits; under the default of 60000 every ordinary dump is converted.
* `mov_imm` searches one width (tools/rwfuzz.c:1575-1606). A value of 32 bits may have a
  W instruction and no X one, 0xFFFF1234 for example: `MoveImmediate.SomeMoveIff` and
  `MoveImmediate.NarrowOnly`.
* The constant table of defuse, like its load table, misses what it has no room for:
  `DefUseMeaning.RematComplete` and `DefUseMeaning.RematMissed`.

One condition is on an input no generated program reaches. `split_control` does not
refuse a chain that writes register 31 (tools/rwfuzz.c:1859-1925); its replacement
is then wrong (`SplitAdd.SplitIff`, `SplitAdd.ZeroChainSplitWrong`). The generator's
bodies use registers 0 to 7 (tools/rwfuzz.c:127-131, 817-821), for which the split is
always right (`SplitAdd.GeneratedSplitSound`).

## Model

| member | source | states |
|---|---|---|
| Nzcv.CompareIsAddWithCarry | tools/net11scan.py:366-379 | the compare's flags are those of the architecture's AddWithCarry: of x and k for CMN, of x and the complement of k with carry in for CMP |
| Nzcv.ConditionMeaning | tools/net11scan.py:361-379 | after CMP x, k every condition is what it is named for: equality, the unsigned and signed orders, the sign of the difference, and whether it overflows |
| Nzcv.CmnMeaning | tools/net11scan.py:361-379 | after CMN x, k every condition says the same of the sum |
| CcmpChain.ChainFlags | tools/net11scan.py:382-390 | the loop over the links leaves the flags of the recursive chain meaning |
| CcmpChain.LiteralBits | tools/net11scan.py:389 | the immediate of a failed CCMP loads N, Z, C and V with the weights 8, 4, 2 and 1 |
| CcmpChain.LastLink | tools/net11scan.py:382-390 | a chain ends with the last link's compare, by AddWithCarry, where its condition holds on what came before, else with its immediate in those weights |
| CcmpChain.ImmediateCarry | tools/net11scan.py:382-390 | CMP #5 ; CCMP #9, #2, HS read under HS decides x < 5 or x >= 9, which no single compare does |
| CcmpChain.CompareConstant | tools/net11scan.py:366-379 | all four flags of a compare stay the same between two values with no break of that compare in between |
| CcmpChain.ChainConstant | tools/net11scan.py:382-390 | so do a whole chain's, for any number of links |
| CcmpChain.SamplePoints | tools/net11scan.py:419-429 | the sampled values include zero, the least negative value and the neighbourhood of every constant |
| CcmpChain.SamplesDecide | tools/net11scan.py:413-438 | a compare that agrees with the chain on the sampled values agrees on all 2^w |
| CcmpChain.TrySpelling | tools/net11scan.py:430-437 | one candidate constant and spelling: found exactly when some condition agrees on all values |
| CcmpChain.SingleCompareEquivalent | tools/net11scan.py:413-438 | true exactly when some tried constant, spelling and condition agrees with the chain on every value, for any chain and width |
| CcmpChain.VaryingIsTried | tools/net11scan.py:419-437 | if the chain's outcome varies within one sign half, any compare with a constant up to 4095 that decides it is matched by a tried one |
| CcmpChain.SmallLinkIsTried | tools/net11scan.py:419-437 | so is a sign-only chain with a link that compares with a small constant |
| CcmpChain.SignOnlyMissed | tools/net11scan.py:413-438 | and no other sign-only chain is |
| CcmpChain.SignOnlyIff | tools/net11scan.py:419-429 | any sample with zero, the least negative value and every breakpoint of the links tells whether a chain looks at more than the sign |
| CcmpChain.SearchIsExactIff | tools/net11scan.py:413-438 | the tried compares answer the documented question exactly when the chain has a small link or decides differently at two breakpoints of one half |
| CcmpChain.SearchMisses | tools/net11scan.py:414-461 | an encodable two-link chain, at 32 and 64 bits, that some compare decides and no tried one does |
| LogicalImmediate.DecodeBitmask | tools/net11scan.py:130-150 | the replication loop gives the tiled, rotated run of ones, or nothing for a reserved encoding |
| LogicalImmediate.DecodeIsPattern | tools/net11scan.py:130-150 | every decoded value is a power-of-two-sized element holding a rotated run of ones, repeated over the width |
| LogicalImmediate.EncodableIffPattern | tools/net11scan.py:153-161 | encodable values are exactly those patterns |
| LogicalImmediate.NeverEmptyNorFull | tools/net11scan.py:153-161 | zero, all ones and anything over the width are not encodable |
| LogicalImmediate.ComplementEncodable | tools/net11scan.py:153-161 | the complement of an encodable value is encodable |
| LogicalImmediate.RotationEncodable | tools/net11scan.py:153-161 | so is every rotation |
| LogicalImmediate.AnyDecodes | tools/net11scan.py:156-160 | trying every field value finds a decoding exactly when there is one |
| LogicalImmediate.EncodableMemo.Encodable | tools/net11scan.py:152-161 | the memoized answer is right and each question is stored once |
| LogicalImmediate.BitmaskValue | tools/rwfuzz.c:1546-1573 | the C decoder agrees with the Python one on every field value, reserved ones included |
| MoveImmediate.NarrowEncodings | tools/rwfuzz.c:1590-1606 | at 32 bits N=1 decodes to nothing and rotations of 32 and more repeat smaller ones, so the encoder's search space is complete |
| MoveImmediate.MovImm | tools/rwfuzz.c:1575-1606 | succeeds exactly when some word of that width leaves the value, and then the word found does |
| MoveImmediate.SomeMoveIff | tools/rwfuzz.c:1575-1606 | some word at all leaves a value exactly when the search succeeds at 64 bits, or the value is narrow and it succeeds at 32 |
| MoveImmediate.NarrowOnly | tools/rwfuzz.c:1575-1606 | 0xFFFF1234 is left by a W MOVN and by no X word |
| MoveAgreement.MovesAgree | tools/net11scan.py:222-236 | a MOVZ or MOVN leaves the same number whether read as bits, as here, or in halfwords, as the ADD split does |
| MaskChain.MaskRoleValid | tools/net11scan.py:491-517 | a recognized mask instruction has a mask or field within its width |
| MaskWords.RoleExecutes | tools/net11scan.py:491-517 | a word's role computes, from the register it names, bit for bit what executing the ORR, AND, SBFM or UBFM leaves, in every register file |
| MaskWords.MovWordRole | tools/net11scan.py:496-497 | MOV Wd, Wm has a role that reads m, writes d and keeps the low word |
| MaskWords.MovWordIff | tools/net11scan.py:496-497 | and no other word is taken for one |
| MaskWords.PairExecutes | tools/net11scan.py:520-593 | for every classified pair, executing the two words leaves what the rewrite computes from the first's source |
| MaskChain.RoleOfFields | tools/net11scan.py:491-517 | which role an AND-immediate or bitfield word has, field by field |
| MaskChain.RewritePreservesValue | tools/net11scan.py:520-593 | in all five categories and every W/X mix the rewritten value is the consumer applied to the producer's result, for every value |
| MaskChain.NoopIff | tools/net11scan.py:530-576 | the consumer changes nothing exactly when the code says no-op or a W sign extension feeds a wider X one |
| MaskChainMissed.LeftAloneIff | tools/net11scan.py:530-576 | of the pairs considered, those that are left alone and yet computed by one instruction are exactly four families |
| MaskChainMissed.DeadSextIff | tools/net11scan.py:541-558 | a pair is refused as a dead extension exactly when, in place and under a low mask, the extension never changes a bit the mask keeps |
| MaskFlags.TakenPairs | tools/net11scan.py:530-558 | every pair taken: the second reads what the first wrote, neither that nor the source is register 31, the first sets no flags, and the second is no move, no dead end and no no-op in place |
| MaskFlags.AndsTakenIff | tools/net11scan.py:530-576 | of pairs that end in ANDS exactly those are taken that one ANDS at its width replaces, but for masks that miss every copy of the sign |
| MaskChainMissed.ClearedSignMet | tools/net11scan.py:562-576 | AND W, #0x00FF00FF under SXTH is in the first |
| MaskChainMissed.NarrowMaskEncodes | tools/net11scan.py:563-568 | an X immediate inside the low word, other than all of it, is a W immediate too |
| MaskChain.WithRegistersRole | tools/net11scan.py:597-612 | changing the register fields of a mask instruction changes only the registers of its role |
| MaskChain.MergedWord | tools/net11scan.py:568-576 | a merge is one AND-immediate word with the consumer's destination and flag setting |
| MaskChain.RewriteIsOneInstruction | tools/net11scan.py:530-593 | each category's replacement exists as one instruction word with the same result |
| Branches.FieldRoundTrip | tools/rwfuzz.c:193-205 | an in-range offset survives being cut to its field and sign-extended |
| Branches.UpAndDownExtends | tools/pairscan.c:357-370 | the shift left and arithmetic shift right is sign extension of the field |
| Branches.EncodersRoundTrip | tools/rwfuzz.c:193-205 | each encoder's word decodes to the displacement given exactly when it fits the field |
| Branches.BranchDispIsDisplacement | tools/rwfuzz.c:1493-1499 | the decoder returns the architecture's displacement of a conditional branch |
| ZeroTest.ZeroTestFlags | tools/rwfuzz.c:1762-1789 | every word accepted as a zero test leaves the flags of its register compared with zero |
| ZeroTest.ZeroTestIff | tools/rwfuzz.c:1762-1789 | a word is accepted if and only if, on every register file, it sets Z exactly when its register, one of X0 to X7, is zero and writes none |
| ZeroTest.SubstituteTaken | tools/rwfuzz.c:1797-1811 | when the substituted branch is taken, for every register value |
| ZeroTest.SubstituteSame | tools/rwfuzz.c:1791-1814 | the substitute is taken exactly when the test and B.cond are, and goes to the same place |
| ZeroTest.FoldsIff | tools/rwfuzz.c:1797-1811 | the conditions folded are exactly those that some zero or sign test decides, HI and LS after SUBS only |
| ZeroTest.CbzControl | tools/rwfuzz.c:1791-1814 | succeeds exactly on a zero test and a folded B.cond in the body, leaves a NOP and an equivalent branch, and touches nothing else |
| SplitAdd.ChainRuns | tools/rwfuzz.c:1859-1899 | executing a MOVZ/MOVN and any number of MOVKs leaves the chain's computed constant and every other register as before |
| SplitAdd.ChainConstant | tools/rwfuzz.c:1881-1896 | the loop over the chain computes that constant |
| SplitAdd.SplitFields | tools/rwfuzz.c:1859-1925 | an accepted span is a chain in the body, the other operand is not the constant, and both immediates are 1 to 0xfff |
| SplitAdd.MagnitudeIff | tools/rwfuzz.c:1905-1917 | a constant is split exactly when it or its negation is hi * 4096 + lo with both from 1 to 0xfff |
| SplitAdd.SplitSound | tools/rwfuzz.c:1859-1925 | the two immediate instructions leave what the chain and the ADD or SUB left, for every register file, in all W/X mixes and the sign-crossed form |
| SplitAdd.ZeroRegisterDiffers | tools/rwfuzz.c:1859-1925 | a chain written to register 31 makes them differ on every register file |
| SplitAdd.SplitIff | tools/rwfuzz.c:1859-1925 | they agree if and only if the chain's register is not 31 |
| SplitAdd.GeneratedSplitSound | tools/rwfuzz.c:127-131 | for every chain register the generator uses they agree on every register file |
| SplitAdd.ZeroChainSplitWrong | tools/rwfuzz.c:1859-1925 | MOVZ XZR, MOVK XZR and ADD X0, X1, XZR are accepted, and the replacement leaves another X0 whatever the registers held |
| SplitAdd.WriteSplit | tools/rwfuzz.c:1819-1842 | the span becomes NOPs and the two immediates, words outside it are untouched |
| SplitAdd.SplitControl | tools/rwfuzz.c:1859-1925 | succeeds exactly on a span with a split and writes it; otherwise changes nothing |
| FuzzProgram.Generator.Push | tools/rwfuzz.c:265-270 | appends while there is room, and drops silently at the bound |
| FuzzProgram.Generator.PushChoice | tools/rwfuzz.c:265-284 | a plant adds its slots, a transfer one slot of its kind, register, condition and form, a filler one plain slot, as far as there is room |
| FuzzProgram.DrawnAt | tools/rwfuzz.c:868-882 | the slots of each choice stand together where those of the choices before it end |
| FuzzProgram.Generator.GenBody | tools/rwfuzz.c:868-891 | the body is, in order, the first 40 slots of as many choices as it takes to reach the drawn length, each aimed where it asks when that is in the body and else where its draw says; so every transfer aims forward |
| FuzzProgram.Generator.Assemble | tools/rwfuzz.c:893-946 | the words written are the program's image, within the program bound |
| FuzzProgram.TransferLands | tools/rwfuzz.c:917-945 | each transfer's decoded displacement lands on its slot, strictly later, at most the epilogue; calls land on the stub |
| FuzzProgram.TransferTaken | tools/rwfuzz.c:917-945 | what is written for each form is taken by the register against zero at the form's width, by its bit, or by its condition; jumps and calls ask nothing |
| FuzzProgram.CallReturns | tools/rwfuzz.c:905-914 | a call runs the stub and is back at the next slot nineteen instructions later, whatever the link was before |
| FuzzProgram.StubLeaves | tools/rwfuzz.c:905-912 | the stub leaves the same eight values in X0 to X7 whatever they held |
| FuzzProgram.FrameMatches | tools/rwfuzz.c:213-230 | what the prologue saves of X19 to X28 the epilogue restores from the same place, and what it loads of X0 to X7 it stores back |
| FuzzProgram.FrameStep | tools/rwfuzz.c:216-258 | outside the body every step falls on or returns, and the measure drops |
| FuzzProgram.BodyStep | tools/rwfuzz.c:893-946 | so does every step of the body, whichever way a condition goes |
| FuzzProgram.Halts | tools/rwfuzz.c:885-891 | from every reachable state the program returns to its caller |
| FuzzProgram.EveryProgramTerminates | tools/rwfuzz.c:868-946 | every assembled program ends, in at most 829 instructions, whatever its conditions decide |
| BranchTargets.OffsetsAreDisplacements | tools/pairscan.c:355-374 | both scanners compute the encoding's displacement, four bytes to the word, for every word |
| BranchTargets.MarksFitIff | tools/pairscan.c:346-378 | every landing has a bit in the bitset exactly when the whole words are no multiple of 8, there is no partial word after them, or no branch lands on it |
| BranchTargets.MarkBranchTargets | tools/pairscan.c:346-378 | on a section of any size: the scan stays inside its bitset exactly then, and the bits set are exactly the landings of the section's direct branches |
| BranchTargets.TailSectionOverruns | tools/pairscan.c:349-375 | a 33-byte section whose landing has no bit |
| BranchTargets.TargetIffLanding | tools/pairscan.c:380-383 | the test answers true exactly where some branch lands |
| BranchTargets.MarkDefuseTargets | tools/defuse.c:355-373 | the same for the other scanner, whatever the section's size |
| BranchTargets.ScansAgree | tools/defuse.c:355-373 | at every instruction of any section the two scans answer alike |
| Insns.SameSlotIff | tools/defuse.c:205-219 | two tracked names share a slot exactly when they name one register; only the zero registers and unknown ones have none |
| InsnMeaning.ReadsAre | tools/defuse.c:393-413 | a compare reads each of its first six register operands, any other instruction each register it is listed to read, as often as it stands there |
| InsnMeaning.ReadsIff | tools/defuse.c:393-413 | so it reads a slot exactly when such a register is at it |
| InsnMeaning.WritesIff | tools/defuse.c:397-403 | a compare writes nothing, any other instruction what it is listed to write |
| InsnMeaning.DefSlotIff | tools/defuse.c:537-546 | an instruction defines its first operand's slot exactly when it is no store and writes it, and it is not SP's |
| InsnMeaning.StartIff | tools/defuse.c:537-610 | which instructions start a def, of what kind and detail, and that all but loads are pure |
| InsnMeaning.KeyIff | tools/defuse.c:474-492 | what a plain load is filed under |
| InsnMeaning.KindsAgree | tools/defuse.c:221-324 | the tables of stores, branches, barriers and use classes agree with each other |
| DefUse.Machine.Step | tools/defuse.c:382-631 | after every word the tables, counters and reports are those the run calls for, with at most one live load per key |
| DefUse.Machine.CountUses | tools/defuse.c:411-435 | every read of a slot counts, and the first is remembered with its class |
| DefUse.Machine.RecordLoad | tools/defuse.c:489-518 | a live record of the key is reported and re-armed, else one is added while there is room; no other key changes |
| DefUse.Machine.ApplyWrites | tools/defuse.c:522-535 | each written slot's def is finalized once and everything that hangs on the slot dies, nothing else |
| DefUse.Machine.RecordConst | tools/defuse.c:576-595 | the oldest record of the value in another slot is reported, and a record is added while there is room |
| DefUse.ScanSection | tools/defuse.c:352-634 | the section's words are scanned in order, each a target exactly when a branch of the section lands on it, and the reports are those of the run |
| DefUseRuns.OldestIs | tools/defuse.c:579-590 | the search's result is the least index among the slots that hold the value |
| DefUseMeaning.FlagsMeaning | tools/defuse.c:258-260 | the slot is known exactly when its flag-capable definition has met no flag writer, redefinition or later such definition |
| DefUseMeaning.Cmp0Iff | tools/defuse.c:437-453 | a compare with zero is reported exactly on such a slot, with the distance to that definition |
| DefUseMeaning.LoadMeaning | tools/defuse.c:484-535 | a key is live exactly when a load found room and nothing has ended it since; its index is that of the latest load |
| DefUseMeaning.ReloadIff | tools/defuse.c:456-520 | a reload is reported exactly when the key was loaded in the same region with no listed store, call, barrier or write of the base between |
| DefUseMeaning.LoadsUnderPressure | tools/defuse.c:514-517 | the table never holds more entries than plain loads since it was emptied |
| DefUseMeaning.ReloadComplete | tools/defuse.c:484-520 | with no more than 64 plain loads since the last emptying every reload is reported |
| DefUseMeaning.LoadRunHolds | tools/defuse.c:514-517 | of any run of n loads of different words the first 64 are known |
| DefUseMeaning.ReloadMissed | tools/defuse.c:514-517 | the 65th, loaded again, is not reported |
| DefUseMeaning.SameBytesIff | tools/defuse.c:474-519 | every reported reload of a load reads as many bytes as the latest load of its key, in every run, if and only if its size is not filed as 4 |
| DefUseMeaning.OtherBytesReported | tools/defuse.c:475-482 | LDR D0 then LDR W1 from one address is reported as a reload of 4 bytes |
| DefUseMeaning.DefMeaning | tools/defuse.c:537-610 | a def is followed exactly until its slot is written or the region ends |
| DefUseMeaning.UnusedMeaning | tools/defuse.c:411-420 | its use count is 0 exactly while nothing has read it |
| DefUseMeaning.OnceMeaning | tools/defuse.c:411-420 | its use count is 1 exactly after one read, whose place and class it holds |
| DefUseMeaning.TaintMeaning | tools/defuse.c:612-619 | it is tagged exactly when a conditional branch has passed since |
| DefUseMeaning.DeadIff | tools/defuse.c:326-350 | a dead def is reported exactly when a pure def has no read up to and including the overwriting instruction |
| DefUseMeaning.DeadOnOperands | tools/defuse.c:326-435 | on operands: a dead def is reported exactly when a pure def stands that no instruction since, up to the overwriting one, reads, a compare by any operand among its first six registers |
| DefUseMeaning.SoleIff | tools/defuse.c:326-350 | a sole use is reported exactly when one read happened, the overwriting instruction's included, with its distance |
| DefUseMeaning.MultiIff | tools/defuse.c:326-350 | several uses are reported exactly when two reads or more happened |
| DefUseMeaning.ConstMeaning | tools/defuse.c:576-593 | a slot's constant is known exactly while nothing has written the slot or ended the region |
| DefUseMeaning.RematIff | tools/defuse.c:576-591 | a constant is reported exactly when its value still stands in another slot, with the distance to the oldest |
| DefUseMeaning.RematComplete | tools/defuse.c:576-593 | with no more than 48 constants in the region so far, every one that stands in another slot is reported |
| DefUseMeaning.MovRunHolds | tools/defuse.c:587-588 | of any run of n constants moved into one register, the last is known exactly while n is at most 48 |
| DefUseMeaning.RematMissed | tools/defuse.c:587-588 | the 49th, moved again into another register, is not reported |
| DefUseReports.ReportsEarned | tools/defuse.c:382-631 | an instruction makes reports of any sort, one report or all of a key, as often as it earns them: as a compare, a load or a constant, and once for each slot it writes |
| DefUseReports.ScanCounts | tools/defuse.c:352-634 | over a whole section reports of any sort are made exactly as often as they are earned |
| DefUseReports.PrintedCounts | tools/defuse.c:180-203 | the total printed for a key, and each of its six distance buckets (up to 1, 2, 3, 4 to 7, 8 to 15, 16 and more), is how often the section earns such a report |
| DefUseReports.ScanReports | tools/defuse.c:352-634 | so a report is made if and only if some instruction of the section earns it |
| PairTable.HashStr | tools/pairscan.c:181-186 | the loop computes the 32-bit hash of the key |
| PairTable.HashIsBase33 | tools/pairscan.c:181-186 | that hash is the start followed by the key's bytes as a number to the base 33, modulo 2^32 |
| PairTable.ProbeFindsKey | tools/pairscan.c:188-201 | every stored key is reached by its own probe run before any free slot |
| PairTable.FreeMeansAbsent | tools/pairscan.c:188-195 | a probe that meets a free slot first proves the key is not stored |
| PairTable.InsertKeeps | tools/pairscan.c:192-195 | storing there keeps every key reachable |
| PairTable.ProbeStopsIff | tools/pairscan.c:190-200 | a probe ends exactly when the key is stored or some slot is free |
| PairTable.Table.Bump | tools/pairscan.c:188-201 | one slot changes, on the key's probe run; each key sits in one slot with the number of its bumps |
| PairTable.Table.CountPair | tools/pairscan.c:455-456 | the counts add up to the total of pairs |
| Anchors.CmpIsTotalPreorder | main.c:1040-1059 | the comparator is a total preorder, and ties only anchors equal in all it looks at |
| Anchors.StrCmpIff | main.c:1058 | its string order is lexicographic |
| Anchors.AbsorbKeeps | main.c:1068-1081 | one anchor more: the output still has one entry per address, with the preferred name and the largest size |
| Anchors.AnchorsFinish | main.c:1061-1083 | the in-place loop leaves exactly that table |
| Anchors.SurvivorIs | main.c:1047-1081 | the name kept at an address: some if any anchor there is named, an external one's if any named one is external, and of those the least |
| Anchors.FinishIsUnique | main.c:1061-1083 | the table is a function of the multiset of anchors: no input order or ordering of ties matters |
| CodeRanges.MaskOutsideRanges | main.c:1280-1300 | a byte is kept exactly when some range, rounded outward to words, holds it; every other byte becomes 0xff |
| CodeRanges.RoundedIff | main.c:1280-1300 | a range rounded outward holds exactly the bytes of the words it touches, unless it ends in the last word of the address space |
| CodeRanges.FunctionSites.KeepNamedFunction | main.c:1310-1350 | the ranges kept and the running totals |
| CodeRanges.KeptAreOccurrences | main.c:1310-1350 | a range is kept exactly when it is an occurrence of the function in the section |
| CodeRanges.KeptIsSorted | main.c:1302-1350 | the ranges are ascending, non-empty and in bounds, as the masking needs |
| CodeRanges.MaskOutsideFunction | main.c:1280-1350 | together: exactly the function's occurrences survive |
| BtiEvidence.U64Contains | main.c:409-421 | the binary search is membership |
| BtiEvidence.FindSection | main.c:919-926 | the section of an address, or none |
| BtiEvidence.FirstOfAddress | main.c:884-914 | after the sort the first entry of an address is its strongest evidence |
| BtiEvidence.CheckTargets | main.c:904-947 | the counts and lists are those of the evidence: an address is checked if and only if it is in an executable section and has non-address evidence or is a known entry |
| BtiEvidence.ReportIsOfTheSet | main.c:884-947 | they depend only on the set of evidence, not on order or duplicates |
| BtiEvidence.VerdictZeroIff | main.c:949-976 | the verdict is 0 exactly when every checked address has a call pad, or without the claim when none has |
| BtiEvidence.VerdictCounts | main.c:949-976 | otherwise it is how many checked addresses lack a call pad, or one more than that without the claim |
| FunctionStarts.ReadStarts | main.c:1999-2039 | the loop writes the specified starts, never more than there are bytes |
| FunctionStarts.DecodeUleb | main.c:2013-2027 | the inner loop returns the number encoded, as section 7.6 of DWARF 5 defines it, and what follows |
| FunctionStarts.StartsOfEncoding | main.c:1999-2039 | the starts of encoded deltas are their running sums, followed by those of what comes after |
| FunctionStarts.PaddedOrMalformed | main.c:1999-2030 | zero padding or a malformed tail ends the list and keeps the valid prefix |
| FunctionStarts.MalformedIff | main.c:2013-2030 | an entry is malformed exactly when every byte there is room for has its continuation bit |
| Relr.VisitRelr | main.c:839-860 | the loop visits the specified slots in order |
| Relr.SlotsOfChunk | main.c:851-857 | a bitmap's slots are exactly the addresses its bits stand for, in order |
| Relr.BitmapWord | main.c:850-859 | the bitmap of addresses in the next 63 slots decodes to them |
| Relr.DecodeEncode | main.c:839-860 | decoding the encoding of any ascending list of 8-aligned addresses gives back that list |
| ElfObject.PackRoundTrip | tools/v8dump2elf.py:192-199 | a field is read back as written |
| ElfObject.ChunkInPayload | tools/v8dump2elf.py:170-182 | each chunk's bytes stand at the word-aligned offset its header will name, before the symbol table |
| ElfObject.WriteElf | tools/v8dump2elf.py:149-222 | writes the image, or raises exactly when a field does not fit |
| ElfObject.ElfExecSections | tools/net11scan.py:79-91 | the reader's loop over the section headers returns what its specification reads |
| ElfObject.ReadBack | tools/net11scan.py:79-91 | reading a written file gives back exactly the chunks' addresses and whole words, in order |
| ElfSymbols.SymbolRead | tools/v8dump2elf.py:173-206 | through the section headers and their links, each chunk has a symbol: a local function of its name, in its section, at its start, of its size |
| ElfSymbols.SectionNamesRead | tools/v8dump2elf.py:163-212 | every section is found under its name in the table the file header points to |
| ElfSymbols.TableHeaders | tools/v8dump2elf.py:182-206 | the table headers' types, offsets, sizes and links |
| ElfSymbols.ChunkHeader | tools/v8dump2elf.py:197-200 | a chunk's section is allocated code at its address, word aligned |
| DumpChunks.RunsFlatten | tools/v8dump2elf.py:100-107 | cutting a listing into contiguous runs loses, repeats and reorders nothing |
| DumpChunks.AllRunsFlatten | tools/v8dump2elf.py:91-136 | nor does cutting all listings |
| DumpChunks.RunsAreMaximal | tools/v8dump2elf.py:102-106 | no run is empty and no two neighbours could be joined |
| DumpChunks.Builder.Add | tools/v8dump2elf.py:100-107 | an instruction extends the open chunk when it is next, else opens one, and only then is a name used |
| DumpChunks.Builder.Flush | tools/v8dump2elf.py:113-116 | the end of a listing closes its chunk |
| DumpParsers.ParseV8 | tools/v8dump2elf.py:74-136 | the line machine's chunks are the maximal runs of the dump's listings; the i-th is named by the kind and the name in force at the i-th line that opens a chunk, and numbered by how often that name came before |
| DumpParsers.HeaderMeaning | tools/v8dump2elf.py:117-129 | the kind and the name in force are the texts of the last such lines since the last boundary, or nothing |
| DumpParsers.InCodeIff | tools/v8dump2elf.py:91-132 | a line is in a listing exactly when an Instructions line came and since then only instructions and blanks |
| DumpParsers.V8OpeningsAre | tools/v8dump2elf.py:100-107 | the opening lines, in order, are exactly the instructions of a listing that are its first or do not follow the one before |
| DumpParsers.V8Concat | tools/v8dump2elf.py:91-136 | the listings together are exactly the instruction lines inside listings |
| DumpParsers.ParseSm | tools/smdump2elf.py:58-93 | the same for the other line machine, whose names are made of the kind in force and the chunk's own address |
| DumpParsers.SmHeaderMeaning | tools/smdump2elf.py:84-91 | kind and base in force are those of the last header, or nothing and 0 |
| DumpParsers.SmOpeningsAre | tools/smdump2elf.py:74-83 | its opening lines likewise |
| DumpParsers.SmConcat | tools/smdump2elf.py:74-93 | its listings together are every instruction line, at its header's base plus its offset |
| DumpSizes.FitsIff | tools/v8dump2elf.py:164-222 | chunks with short names and less than 2^63 bytes of code have a file exactly when there are at most 65531 and their addresses have 64 bits |
| DumpSizes.SizeOfRuns | tools/v8dump2elf.py:100-107 | the chunks hold four bytes for each instruction |
| DumpChunks.NamesShort | tools/v8dump2elf.py:83-89 | numbering makes a name at most 21 bytes longer |
| DumpChunks.NamesMean | tools/v8dump2elf.py:83-89 | the first chunk of a name has it as it is, the n-th with .n behind it |
| DumpChunks.DigitsMean | tools/v8dump2elf.py:89 | n in decimal without leading zeros |
| DumpRoundTrip.SucceedsIff | tools/v8dump2elf.py:238-260 | for any limit: when every part of such chunks has a file |
| DumpRoundTrip.SplitJoins | tools/v8dump2elf.py:249-257 | the parts are not empty, within the limit and join to the chunks |
| DumpRoundTrip.OutputsJoin | tools/v8dump2elf.py:238-257 | for any limit at all: what goes into the files is every chunk once and in order exactly when the limit is positive or there are no chunks |
| DumpRoundTrip.Convert | tools/v8dump2elf.py:238-260 | no file and status 1 without chunks, else one file a part, each the image of its chunks; raises exactly when a part does not fit or the limit is 0 |
| DumpRoundTrip.FilesReadBack | tools/v8dump2elf.py:249-257 | the files of a split output, read one after another, hold every chunk once and in order |
| DumpRoundTrip.V8RoundTrip | tools/v8dump2elf.py:74-260 | from dump lines through files back to (address, word): exactly the accepted lines in order, for every positive limit and no other; the conversion succeeds exactly under the stated limit and addresses, and always for limits up to 65531 and 64-bit addresses; the status tells whether there was code |
| DumpRoundTrip.SmRoundTrip | tools/smdump2elf.py:58-213 | the same for the other dump |
| DumpRoundTrip.ParseJsc | tools/jscdump2elf.py:42-76 | the cursor loop keeps the complete records of whole words, names each after its own record and numbers it, and counts the bytes of a truncated tail |
| DumpRoundTrip.RecsReadBack | tools/jscdump2elf.py:42-76 | written records are parsed back, whatever incomplete tail follows |
| DumpRoundTrip.JscRoundTrip | tools/jscdump2elf.py:42-191 | from records through files back to the records of whole words, with the same account of when the conversion succeeds |

## Left out

- The check registry, liveness classifiers, value numbering and known-bits engine of armlint.c are not part of this model.
- Disassembly: what Capstone makes of a word, and which registers it lists as read and written, is a parameter of the scan, any record at all.
- DefUse.ScanSection: example lines and containers around the scan are not modelled, nor the probing of the histogram table, which is that of pairscan; details are not cut to 40 characters, and counters do not wrap.
- DefUseMeaning.ReloadIff: stores, calls and barriers are those the scan lists; an instruction it does not list, such as an atomic, does not end a load, in the model as in the code.
- FuzzProgram.EveryProgramTerminates: plain body words are any words outside the branch group; the individual fillers and plants, native execution, the random number generator and text parsing are not modelled, and each random draw is a parameter. A plain word is taken to leave the stack and the saved frame alone, as the generated ones do.
- MaskChainMissed.LeftAloneIff: pairs the classifier refuses on purpose (in place, stack pointer, dead extension) are not counted as left alone; consumers that set flags are the subject of MaskFlags.AndsTakenIff.
- DumpRoundTrip.V8RoundTrip: success is stated for names of at most 64979 bytes, which the converters' own names are far below, and less than 2^63 bytes of code.
- ZeroTest.ZeroTestFlags: a register operand with a zero shift amount is read as unshifted whatever its shift type; the unallocated type 3 is not told apart, in the code either. The same holds of the split.
- SplitAdd.SplitIff: W chain words that name an upper halfword are unallocated and not given a meaning.
- ZeroTest.FoldsIff: conditions AL and NV are left out of the equivalence; the code folds neither.
- Anchors.AnchorsFinish: takes what qsort promises, any sorted permutation, rather than modelling qsort; symbol loading and option parsing are left out.
- BtiEvidence.CheckTargets: landing pads and section contents are parameters, since the pad decoder is in armlint.c; how evidence is gathered from PLTs, relocations and code is left out.
- DumpParsers.ParseV8: lines come classified, and names are made by a parameter; regular expressions and name cleaning are left out, and so is the claim that symbol names are unique.
- DumpRoundTrip.ParseJsc: record names are bytes and the name function is a parameter.
- The shape scanners of tools/net11scan.py beyond the chains above, tools/shapescan.py, tools/addpairscan.py and the table auditors make single-instruction range tests that would only add easy members.
- File I/O, memory allocation failures, header sanity messages and report printing are left out.
