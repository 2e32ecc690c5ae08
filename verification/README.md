# Verification of MindKernelInfra's core algorithms

This project models six connected cores of MindKernelInfra and proves what they are for.
`dafny verify dfyconfig.toml` checks all of it.

* **Half-precision arithmetic.** `Binary16` states rounding without an algorithm: a half is `NearestEven` to a
  rational if no finite half is nearer and a tie goes to the even significand (sections 3.4 and 4.3.1 of IEEE 754-2008);
  since 65504 is the largest finite half, this includes saturation. `Words` holds the lemmas about shifts and the sticky
  register, for significands and exponents of any size; `Fp16Add`, `Fp16Mul`, `Fp16Narrow`, `Fp16Int` and `Fp16Compare`
  are the operations. An exponent field of 31 is read as an ordinary exponent, as the code does, so the theorems hold
  for all words; for operands that are finite halves they are the standard's.
* **The launch buffer.** `KernelInfos` is the state machine a kernel's initialisation drives; the class refines a step
  function on values, and what holds over whole runs is proved about runs of that function; `InitCalls` tells the
  outcome of a run from the arguments of the calls alone. `SlotFill`, `TensorList`,
  `KernelBases` and `KernelParams` build the argument buffer and the launch parameters; `Launch` joins them end to end.
* **Two printer and parser pairs.** `BinFiles` (with `Decimals`) and `KernelBinary`, each with the exact condition of
  its round trip.
* **The unpad device kernel**, `Unpad`, and **the memset plan and device loop**, `Memset`.
* **In-place expansion and element counts**, `OperationIrs` and `TensorDescs`.

`Powers`, `Splices`, `Bytes` and `Options` are shared helpers. A method that works step by step in the source is a method
here, tied by its contract to a function, and the promises of the source are proved about that function.

Where the code does not do what its surroundings suggest, the code is modelled and the exact condition is proved:

* the int32 minimum converts to -0.5, and a uint16 from 65520 on to infinity (`Fp16Int.FromInt32`, `Fp16Int.FromUInt16`);
* output tensor lists are numbered from the number of input lengths, which is wrong when no input lengths are given but
  there are inputs (`Launch.ListsTakeTheirOwnSlots`);
* a tensor list is not where its recorded offset says unless the recorded constants fill the constant area
  (`Launch.ListOffsetExact`), and no offset is right from 65536 on (`Launch.DataOffsetExact`);
* `KernelInfo::Copy` onto an object that holds a host buffer overwrites the recorded sizes and keeps the old buffers;
  with tiling off it shares the tiling buffer and leaves the arguments null;
* the checks in the parsing loop of a BinFile only log, because the `break` they are given leaves the loop inside
  `MKI_CHECK` (src/include/mki/utils/assert/assert.h:19-25). So there is no line limit, repeated attributes are appended,
  and Read can report success with a value cut or objects lost; `BinFiles.RoundTrip` has the exact condition, and the
  lemmas around `BinFiles.ReadWritten` say what comes back otherwise;
* an object that is too long for `memcpy_s` is refused by AddObject and is in the file all the same, with zeros
  (`BinFiles.HalfAdded`);
* the kernel binary's packer counts characters where the parser counts bytes, and the length is registered as a uint32, so
  that the code comes back exactly when all texts are ASCII and the length fits (`KernelBinary.PackThenParse`; there is an
  accidental exception from 2^32 bytes on, `KernelBinary.ByAccident`);
* the 32-bit loop of memset need not end on one core; `Memset.LaunchEndsExactly` says exactly when it does. And its guard
  wraps where the pointer it copies to does not, so that close to 2^32 a copy can land behind the tensor;
  `Memset.LaunchStaysExactly` says exactly when none does, and `Memset.CopyBehind` is a launch where one does;
* `TensorDesc::View` with empty dims turns a one-element tensor into an empty one;
* the expansion of an operation's tensor list loses a plain entry behind a list (`OperationIrs.ExtendedIsExpansion`).

## Model

| member | source | states |
|---|---|---|
| Fp16Add.Fp16Add | src/utils/fp16/fp16_t.cpp:592-682 | for any two words, the result is the finite half nearest to the exact sum, ties to even, saturated at 65504; sign of the exact sum, and of a zero sum when the operands agree in sign |
| Fp16Add.Fp16Sub | src/utils/fp16/fp16_t.cpp:685-691 | the same for the exact difference |
| Fp16Add.RightShift | src/utils/fp16/fp16_t.cpp:106-115 | the sign-extending shift loop divides the signed word, rounding towards minus infinity |
| Fp16Add.GetManSum | src/utils/fp16/fp16_t.cpp:117-137 | the aligned sum of two signed significands with the smaller one floored, as a 32-bit word |
| Fp16Add.FlooredIsFloor | src/utils/fp16/fp16_t.cpp:614-625 | the floored sum whose sign bit the code reads is the floor of the exact sum, so both have one sign |
| Fp16Add.Cancellation | src/utils/fp16/fp16_t.cpp:627-631 | when the floored sum vanishes, the exact sum does too or is a single unit one exponent apart: why three extra bits suffice |
| Fp16Add.SignOfSum | src/utils/fp16/fp16_t.cpp:614-625 | both significands flipped so that their sum is not negative, and the sign that belongs to it |
| Fp16Add.AlignSum | src/utils/fp16/fp16_t.cpp:636-646 | significand and 32-bit register together are exactly the aligned sum: no dropped bit is lost, also for negative words |
| Fp16Add.NormalizeSum | src/utils/fp16/fp16_t.cpp:648-662 | both normalising loops end, and the register pair stays the same number times a power of two |
| Fp16Add.RoundSum | src/utils/fp16/fp16_t.cpp:664-681 | rounding, carry, subnormal halving, saturation and packing give the word of the rounded significand |
| Fp16Add.FinishSum | src/utils/fp16/fp16_t.cpp:664-682 | rounding the normalised register gives the nearest-even half of the signed exact sum |
| Fp16Mul.Fp16Mul | src/utils/fp16/fp16_t.cpp:694-752 | for any two words, the finite half nearest to the exact product, ties to even, saturated; sign is the exclusive or |
| Fp16Mul.NormalizeProduct | src/utils/fp16/fp16_t.cpp:723-732 | both loops end with the exact product held by significand and register, subnormal results included |
| Fp16Mul.RoundProduct | src/utils/fp16/fp16_t.cpp:733-752 | the flags, the carry loop and the packing give the word of the rounded product |
| Words.SlideExact | src/utils/fp16/fp16_t.cpp:727-732 | the 32-bit register loses no bit in the first 32 right shifts of a significand |
| Words.SlideQuotient | src/utils/fp16/fp16_t.cpp:727-732 | the significand after k right shifts is the quotient by 2^k |
| Words.NormalizeAndPack | src/utils/fp16/fp16_t.cpp:181-190 | Fp16Normalize and FP16_CONSTRUCTOR together give the word of a rounded significand in every range |
| Binary16.EncodeIsNearestEven | src/utils/fp16/fp16_t.cpp:139-144 | rounding an aligned quotient and remainder by ties-to-even, with saturation, is nearest among all finite halves |
| Binary16.NearestEvenMonotone | src/utils/fp16/fp16_t.cpp:961-1013 | rounding to nearest even never reverses the order of two exact values |
| Binary16.NearestEvenUnique | src/utils/fp16/fp16_t.cpp:592-752 | the specification determines the value of a result |
| Fp16Narrow.IsRoundOneMeaning | src/utils/fp16/fp16_t.cpp:157-174 | the three masks decide exactly ties-to-even on the truncated bits |
| Fp16Narrow.NarrowNearest | src/utils/fp16/fp16_t.cpp:961-1013 | the shared narrowing rounds to nearest even for every exponent field and fraction of either format: normal, subnormal, half of the smallest subnormal, carry, overflow |
| Fp16Narrow.NarrowFloatNearest | src/utils/fp16/fp16_t.cpp:961-1013 | any float word, with its value written out from the binary32 fields, narrows to its nearest-even half, saturated, with the same sign |
| Fp16Narrow.NarrowDoubleNearest | src/utils/fp16/fp16_t.cpp:1278-1337 | the same for any double word and the binary64 fields |
| Fp16Narrow.OneNarrowsToOne | src/utils/fp16/fp16_t.cpp:961-1013 | the words of 1.0 in the three formats have one value, and both wide ones narrow to 0x3C00 |
| Fp16Narrow.NormalizeHalf | src/utils/fp16/fp16_t.cpp:204-207 | the widening loop shifts a subnormal up to the hidden bit without changing its value |
| Fp16Narrow.Fp16ToFloat | src/utils/fp16/fp16_t.cpp:193-220 | widening to float is exact for every half, and narrowing a widened finite half gives the same word back |
| Fp16Narrow.Fp16ToDouble | src/utils/fp16/fp16_t.cpp:223-251 | widening to double is exact for every half, and narrowing a widened finite half gives the same word back |
| Fp16Narrow.NarrowFloatExact | src/utils/fp16/fp16_t.cpp:961-1013 | a float with the value and sign of a finite half, as widening makes it, narrows back to the same word |
| Fp16Narrow.NarrowDoubleExact | src/utils/fp16/fp16_t.cpp:1278-1337 | the same for double |
| Fp16Compare.ComparisonsAreValueComparisons | src/utils/fp16/fp16_t.cpp:862-949 | all six operators compare the values of the words, both zeros equal |
| Fp16Compare.NarrowFloatMonotone | src/utils/fp16/fp16_t.cpp:961-1013 | narrowing floats keeps order and equality under the class's own operators |
| Fp16Compare.NarrowDoubleMonotone | src/utils/fp16/fp16_t.cpp:1278-1337 | narrowing doubles keeps order and equality under the class's own operators |
| Fp16Int.GetManBitLength | src/utils/fp16/fp16_t.cpp:146-155 | the loop counts the significant bits |
| Fp16Int.TruncationMask | src/utils/fp16/fp16_t.cpp:1241-1245 | the mask loop builds as many ones as bits are dropped |
| Fp16Int.TruncateAndRound | src/utils/fp16/fp16_t.cpp:1239-1262 | mask, truncated remainder, rounding and carry give the nearest-even half of a number of 12 to 32 bits; the exponent leaves the range exactly from 65520 on |
| Fp16Int.ShiftUp | src/utils/fp16/fp16_t.cpp:1267-1271 | at most eleven bits convert exactly |
| Fp16Int.FromUInt32 | src/utils/fp16/fp16_t.cpp:1227-1276 | any uint32 converts to its nearest-even half, saturated |
| Fp16Int.FromInt32 | src/utils/fp16/fp16_t.cpp:1171-1225 | an int32 converts to its nearest-even half if and only if it is not the minimum, which becomes -0.5 |
| Fp16Int.FromUInt16 | src/utils/fp16/fp16_t.cpp:1123-1169 | a uint16 converts to its nearest-even half if and only if it is below 65520, from where on it becomes infinity |
| Bytes.MemcpyS | src/schedule/common/kernel_info.cpp:234-236 | a copy succeeds exactly when it fits, and then overwrites just its place; a refused copy clears the room |
| KernelInfos.RunKeepsTilingInvariant | src/schedule/common/kernel_info.cpp:101-133 | over any run of calls with tiling on, used size and constant offset stay within the host buffer |
| KernelInfos.RunHolds | src/schedule/common/kernel_info.cpp:189-250 | over any run that leaves the constant area in place, every constant ever recorded keeps its index, its padded size and its bytes |
| InitCalls.SizesOfRun | src/schedule/common/kernel_info.cpp:101-111 | over any run of an InitImpl's calls, the used size is the last one taken, or the allocated length, cut by the offsets taken after it, and the constant offset the last one taken |
| InitCalls.NumbersOfRun | src/schedule/common/kernel_info.cpp:69-99 | over any run, block number, tiling id and sync index are the last ones taken, and workspaces and memset requests those asked for, in order |
| InitCalls.StoredStays | src/schedule/common/kernel_info.cpp:146-149 | what a call stores in the host buffer stays there unless a later store or constant overlaps it |
| InitCalls.RecordedByCall | src/schedule/common/kernel_info.cpp:217-250 | every recorded constant is that of a call |
| KernelInfos.StepHolds | src/schedule/common/kernel_info.cpp:217-250 | one call keeps all recorded constants and records exactly what it adds, whether it succeeds, is refused or overruns the vector |
| KernelInfos.ConstEnds | src/schedule/common/kernel_info.cpp:220-224 | a constant ends, padding included, before anything recorded after it |
| KernelInfos.KernelInfo.Reset | src/schedule/common/kernel_info.cpp:32-41 | the whole new state, memset requests included; buffers are released in the modes that own them |
| KernelInfos.KernelInfo.InitArgs | src/schedule/common/kernel_info.cpp:43-57 | a zeroed buffer of the length, within 1 MiB |
| KernelInfos.KernelInfo.AllocTilingHost | src/schedule/common/kernel_info.cpp:113-133 | allocation only with tiling on, within 1 MiB, and once; all three sizes are the length |
| KernelInfos.KernelInfo.SetTilingHostAddr | src/schedule/common/kernel_info.cpp:135-144 | with tiling off the caller's buffer becomes the tiling and all three sizes its length; with tiling on nothing changes |
| KernelInfos.KernelInfo.SetTilingUsedSize | src/schedule/common/kernel_info.cpp:101-106 | taken when within the buffer, otherwise unchanged |
| KernelInfos.KernelInfo.SetConstTensorOffset | src/schedule/common/kernel_info.cpp:189-200 | taken when strictly inside the buffer, and the used size is cut down to it |
| KernelInfos.KernelInfo.AddConstTensorData | src/schedule/common/kernel_info.cpp:217-250 | the new state for success, a missing place, a copy that does not fit, and a full vector |
| KernelInfos.KernelInfo.PerformAll | src/schedule/base/kernel_base.cpp:326-327 | the calls an InitImpl makes have the effect of the run of their steps, and it returns exactly when none overfills a vector |
| KernelInfos.KernelInfo.SetLaunchWithTiling | src/schedule/common/kernel_info.cpp:279-287 | toggling releases the tiling of the old mode; setting the same mode changes nothing |
| KernelInfos.KernelInfo.SetLaunchWithTensorlist | src/schedule/common/kernel_info.cpp:291-299 | the same for the tensor list |
| KernelInfos.KernelInfo.AllocTensorListHost | src/schedule/common/kernel_info.cpp:156-168 | a zeroed buffer of the length, once |
| KernelInfos.KernelInfo.Copy | src/schedule/common/kernel_info.cpp:350-388 | with tiling on, a copy onto an object without host buffer is equal in all but the tensor list, in buffers of its own, and onto one with a host buffer only the recorded sizes change; with tiling off the tiling buffer is shared and the arguments are null |
| SlotFill.UpdateInOutWkspArgs | src/schedule/base/kernel_base.cpp:117-148 | the three loops fill the null slots in order with inputs, outputs and workspace addresses, and touch nothing behind the slots |
| SlotFill.UpdateArgsWithTensorList | src/schedule/base/kernel_base.cpp:205-256 | with tensor lists the loops stay inside the slots, end, and fill the null slots in order with the plain tensors and the workspaces |
| SlotFill.FillAt | src/schedule/base/kernel_base.cpp:122-128 | a null slot receives the operand whose number is its rank among the null slots; every other slot is kept |
| SlotFill.RankStrict | src/schedule/base/kernel_base.cpp:122-146 | different null slots receive different operands, in slot order |
| SlotFill.RankOnto | src/schedule/base/kernel_base.cpp:122-146 | every operand that fits has a null slot of its own |
| SlotFill.WorkspaceAt | src/schedule/base/kernel_base.cpp:137-146 | a workspace starts at the running sum of the sizes before it |
| SlotFill.WorkspacesDisjoint | src/schedule/base/kernel_base.cpp:137-146 | no two workspaces overlap |
| SlotFill.NoLensSameOperands | src/schedule/base/kernel_base.cpp:205-256 | without lengths both ways to fill the slots use the same operands |
| SlotFill.ListsKeepLogicalIndex | src/schedule/base/kernel_base.cpp:205-256 | with just the lists' slots taken, every plain tensor is at its own argument index with its flattened number, then the workspaces |
| SlotFill.PresetHolds | src/schedule/base/kernel_base.cpp:160-186 | preset slots keep their addresses, and each is one null slot fewer |
| SlotFill.FillingIsABijection | src/schedule/base/kernel_base.cpp:117-196 | with an exact count the presets stay, every other slot but the last holds the operand of its rank, and the last is left null |
| TensorList.BuildTensorList | src/schedule/base/kernel_base.cpp:458-491 | the words written are the blocks of all lists, one behind the other, and each is recorded with its argument index and size |
| TensorList.WriteBlock | src/schedule/base/kernel_base.cpp:463-481 | one block: headers and dims from the front, data pointers from the data offset on |
| TensorList.DecodeBlock | src/schedule/base/kernel_base.cpp:465-481 | following the stored offset and the rank and index words recovers every tensor's dims and data pointer |
| TensorList.DecodeBytes | src/schedule/base/kernel_base.cpp:465-481 | the same from the bytes of a buffer |
| TensorList.InfosMatchWords | src/schedule/base/kernel_base.cpp:482-490 | the recorded sizes add up to the bytes written |
| TensorList.ListAt | src/schedule/base/kernel_base.cpp:463-485 | the block of a list lies behind the blocks before it, at the sum of their recorded sizes |
| KernelBases.GetTensorListSize | src/schedule/base/kernel_base.cpp:426-456 | the size is exactly that of the blocks of all lists |
| KernelBases.BuildTensorLists | src/schedule/base/kernel_base.cpp:493-505 | output blocks follow input blocks in the zeroed buffer, padded to 64 bytes |
| KernelBases.GetKernelArgsNum | src/schedule/base/kernel_base.cpp:367-379 | the argument count of the current state |
| KernelBases.CopyParts | src/schedule/base/kernel_base.cpp:348-363 | the copies put null slots, aligned tiling data, constants and lists side by side |
| KernelBases.FillArgs | src/schedule/base/kernel_base.cpp:331-364 | the argument buffer, or a refusal exactly when it exceeds 1 MiB |
| KernelBases.Init | src/schedule/base/kernel_base.cpp:304-365 | exactly when Init succeeds, and the state it leaves; a vector that overflows in InitImpl or afterwards is a failure |
| KernelParams.UpdateHwsyncArgs | src/schedule/base/kernel_base.cpp:103-115 | the address goes into its slot when the index is in range; failure exactly when the runtime has none |
| KernelParams.UpdateConstTensorArgs | src/schedule/base/kernel_base.cpp:160-173 | placeholders in the slots; each record has the 16-bit byte offset of its argument's slot and of its data, the latter running sums |
| KernelParams.UpdateConstTensorArgsOnDevice | src/schedule/base/kernel_base.cpp:175-186 | with tiling off the slots hold running device addresses |
| KernelParams.KernelParamBuilder.Init | src/schedule/base/kernel_base.cpp:28-95 | exactly when the builder succeeds, all slots it leaves, everything behind them untouched, and the offsets |
| Launch.LaunchBufferIsRight | src/schedule/base/kernel_base.cpp:304-365 | after Init and any number of builds, tiling bytes and every constant's bytes are unchanged at their places, apart and in bounds, for buffers of any size; each 16-bit offset is its place if and only if that is below 65536 |
| Launch.StoredIsLaunched | src/schedule/base/kernel_base.cpp:326-349 | what a kernel stores in its tiling buffer inside the used size in force, and leaves alone afterwards, is in the argument buffer at its place behind the slots |
| Launch.LaunchNumbers | src/schedule/base/kernel_base.cpp:326-365 | block number, tiling id, sync index, workspaces, used size and constant offset at launch are those of the last calls that were taken |
| Launch.ConstFromCall | src/schedule/common/kernel_info.cpp:217-250 | a constant at launch has the argument index and the data of the call that added it |
| Launch.ConstSlot | src/schedule/base/kernel_base.cpp:160-186 | the slot of a constant's argument holds its record's address, or with tiling off its place on the device, and no operand |
| Launch.DataOffsetExact | src/schedule/base/kernel_base.cpp:163-171 | a recorded data offset is its place cut to 16 bits, and the place itself if and only if that is below 65536 |
| Launch.InitThenBuildTwice | src/schedule/base/kernel_base.cpp:381-386 | succeeds exactly when Init and the builder do; two builds leave everything behind the slots as Init laid it out; block number and tiling id are the last ones taken; each constant's record has its argument's byte offset, and that slot holds the record's address, or with tiling off the constant's place on the device |
| Launch.ConstsApart | src/schedule/base/kernel_base.cpp:163-171 | no two constants overlap, padding included |
| Launch.SlotsComeOutExactly | src/schedule/base/kernel_base.cpp:367-379 | the argument count is exact: presets below the last slot are kept, operands fill all other slots by rank, the last is left for the tiling and gets its address when tiling is off; with or without lists |
| Launch.ListsTakeTheirOwnSlots | src/schedule/base/kernel_base.cpp:485-503 | the lists take exactly their own slots if and only if input lengths are given, there are no inputs, or there is no output list |
| Launch.MisplacedList | src/schedule/base/kernel_base.cpp:503 | otherwise the first output list takes the slot of a plain argument |
| Launch.ListInAPlainSlot | src/schedule/base/kernel_base.cpp:503 | a launch where that happens: one plain input and one output list |
| Launch.ListArgumentsInPlace | src/schedule/base/kernel_base.cpp:205-256 | then every plain tensor is at its logical index, lists keep their placeholders, workspaces follow |
| Launch.ListRecorded | src/schedule/base/kernel_base.cpp:458-505 | input and output blocks are adjacent, and each is recorded with argument index and size |
| Launch.ListInPlace | src/schedule/base/kernel_base.cpp:358-363 | a list read back behind the constant area gives its tensors, in buffers of any size |
| Launch.ListOffsetExact | src/schedule/base/kernel_base.cpp:160-173 | the offset recorded for a list is that place if and only if it is below 65536 and the recorded constants fill the constant area, up to multiples of 65536 |
| Launch.ListOffsetWrong | src/schedule/base/kernel_base.cpp:320-331 | a launch where it is not: a constant offset is set and no constant added |
| Decimals.StrtoullOfPrinted | src/utils/bin_file/bin_file.cpp:243-244 | reading a printed number gives it back |
| Decimals.DigitsOfPrinted | src/utils/bin_file/bin_file.cpp:97-112 | a printed number has its digits to the base ten, and no leading zero |
| BinFiles.StrSplit | src/utils/strings/str_split.cpp:19-32 | the getline loop delivers the fields, without one behind a final delimiter, cut off at its limit |
| BinFiles.BinFile.AddAttr | src/utils/bin_file/bin_file.cpp:36-50 | accepted exactly for a valid new name, and appended |
| BinFiles.BinFile.AddObject | src/utils/bin_file/bin_file.cpp:52-90 | accepted exactly for a valid new name, a buffer, room, and a length that memcpy_s takes; position recorded and bytes appended in pieces, and a refused copy leaves the object with zeros |
| BinFiles.BinFile.WriteImpl | src/utils/bin_file/bin_file.cpp:92-125 | the bytes written: version, number of objects and of bytes in front, a line for every attribute and for every object with its offset and length, the end line, and the blob behind it, in literal text |
| BinFiles.BinFile.ParseSystemAttr | src/utils/bin_file/bin_file.cpp:231-255 | an object line is accepted exactly with two fields, a new name and a position inside the buffer; the state left in every case |
| BinFiles.BinFile.ParseBinFile | src/utils/bin_file/bin_file.cpp:178-229 | the status, and the object that is left after success and failure; the checks in the loop end neither it nor the line |
| BinFiles.BinFile.Read | src/utils/bin_file/bin_file.cpp:157-176 | the same behind the limit on the file size |
| BinFiles.BinFile.GetAllObjects | src/utils/bin_file/bin_file.cpp:259-264 | every object's name with its bytes |
| BinFiles.ParseAttrLines | src/utils/bin_file/bin_file.cpp:103-106 | attribute lines come back split at their first two equals signs, or leave the parser without defined behaviour |
| BinFiles.ParseBinaryLines | src/utils/bin_file/bin_file.cpp:108-112 | object lines parse to the objects and their positions |
| BinFiles.ParsedIsFieldlike | src/utils/bin_file/bin_file.cpp:185-217 | parsed names and values have no equals sign or newline and no object is called Count or Length; a value may be empty |
| BinFiles.ReadWritten | src/utils/bin_file/bin_file.cpp:92-229 | what Read makes of any written file whose attributes and objects take one line each |
| BinFiles.EqualsInValues | src/utils/bin_file/bin_file.cpp:189-215 | equals signs in values: Read reports success, the values are cut at the first |
| BinFiles.NewlineInValue | src/utils/bin_file/bin_file.cpp:148 | a newline in a value: the bytes are those of a file with more attributes |
| BinFiles.ObjectCalledLength | src/utils/bin_file/bin_file.cpp:203-209 | an object called Length: Read reports success, that object and all behind it are lost, those before are intact |
| BinFiles.ObjectCalledCount | src/utils/bin_file/bin_file.cpp:201-202 | an object called Count: Read reports success and has everything else |
| BinFiles.LostValue | src/utils/bin_file/bin_file.cpp:185-217 | a call sequence whose attribute comes back cut |
| BinFiles.LostObject | src/utils/bin_file/bin_file.cpp:185-217 | a call sequence whose second object is lost |
| BinFiles.RoundTrip | src/utils/bin_file/bin_file.cpp:92-229 | reading what was written gives the same file if and only if values are not empty, names and values have no equals sign or newline, no object is called Count or Length, and the file is within the size limit |
| BinFiles.BuildHolds | src/utils/bin_file/bin_file.cpp:36-90 | after any calls the file holds what those that changed it gave it, in order, with earlier bytes unchanged; an object whose copy was refused has zeros |
| BinFiles.WrittenAddsUp | src/utils/bin_file/bin_file.cpp:92-125 | for any calls, the written bytes say how many objects were entered and how many bytes they have together, and for each where its bytes begin and how many there are |
| BinFiles.HalfAdded | src/utils/bin_file/bin_file.cpp:67-88 | the file has just the objects of the calls that reported success if and only if no object was too long for memcpy_s |
| BinFiles.WriteThenRead | src/utils/bin_file/bin_file.cpp:36-264 | the round trip, with that condition, for any sequence of calls on a fresh object, contents included |
| KernelBinary.GetHeader | scripts/build_util.py:68-144 | the header bytes; none exactly when the file cannot be used, a check fails or a value does not fit its word |
| KernelBinary.CountNames | scripts/build_util.py:95-109 | the padded names and the space they take |
| KernelBinary.PackKernel | scripts/build_util.py:198-204 | the whole packer: it emits the packed kernel exactly when the file can be used, the checks pass and every word fits; each header word byte by byte, with the literal codes of core types and magics, and refusal of any other magic |
| KernelBinary.CharactersAreBytes | scripts/build_util.py:130-132 | the recorded number of characters is the number of bytes just for ASCII |
| KernelBinary.BinHandle.Init | src/schedule/base/bin_handle.cpp:71-118 | on any handle, succeeds exactly when the bytes within the registered length parse and the code registers, and then holds the parsed data behind the names it had; the names an Init has read stay, also when it fails |
| KernelBinary.ReadNames | src/schedule/base/bin_handle.cpp:87-98 | the cursor loop reads the names up to the first that fails a length check |
| KernelBinary.PackedLength | scripts/build_util.py:93-146 | a packed kernel is at least as long as its header says, and exactly so just for ASCII texts |
| KernelBinary.ParsePacked | src/schedule/base/bin_handle.cpp:75-113 | every packed kernel with ASCII texts parses, each text up to its first NUL, as long as a uint32 holds its length |
| KernelBinary.PackThenParse | scripts/build_util.py:63-153 | for every packed kernel the code comes back if and only if all texts are ASCII and the length fits a uint32, unless the texts take a positive multiple of 2^32 bytes more than stated; then the scalars do, core type and magic as literal codes, and names, compile info and ratios if and only if no text has a NUL and the second ratio fits 16 bits |
| KernelBinary.ByAccident | src/schedule/base/bin_handle.cpp:78-113 | a packed kernel with such a text, which is not ASCII, whose code comes back all the same |
| Unpad.KernelUnpad.CopyIn | example/ops/unpad/op_kernel/kernel_unpad.cpp:119-134 | a whole aligned row is in the local buffer |
| Unpad.KernelUnpad.ComputeOnce | example/ops/unpad/op_kernel/kernel_unpad.cpp:80-101 | the padding value for all elements of the row, and the shifted offsets |
| Unpad.KernelUnpad.CopyOut | example/ops/unpad/op_kernel/kernel_unpad.cpp:135-155 | the row at its target, then zeros behind all rows |
| Unpad.KernelUnpad.CopyOutOnce | example/ops/unpad/op_kernel/kernel_unpad.cpp:103-117 | the padding values at the same target, although it is computed differently, and the shifted offsets |
| Unpad.KernelUnpad.ClearStep | example/ops/unpad/op_kernel/kernel_unpad.cpp:157-175 | zeros behind all rows in both outputs |
| Unpad.KernelUnpad.Process | example/ops/unpad/op_kernel/kernel_unpad.cpp:51-66 | both outputs are the concatenated valid parts, then zeros; cum_offsets_out is the shifted input |
| Unpad.OverwrittenKeeps | example/ops/unpad/op_kernel/kernel_unpad.cpp:135-155 | later overlapping rows leave the earlier valid parts alone, and nothing is written beyond one row behind the total |
| Unpad.Finished | example/ops/unpad/op_kernel/kernel_unpad.cpp:51-175 | the overlapping writes come out at the concatenation followed by zeros |
| Unpad.PaddingOffsetsPointBack | example/ops/unpad/op_kernel/kernel_unpad.cpp:103-155 | the unpadded element at a position is the padded one at that position plus its recorded padding |
| Memset.MemsetTiling | src/utils/memset/memset_kernel.cpp:66-100 | the words hold every tensor's plan as far as 32 bits go, the launch has the most cores any tensor needs, the zero buffer the longest copy |
| Memset.PlanCovers | src/utils/memset/memset_kernel.cpp:75-92 | the shares cover the rounded size, need at most all cores, and are whole blocks |
| Memset.PlanWords | src/utils/memset/memset_kernel.cpp:75-92 | below 2^32 the 32-bit words hold the plan itself |
| Memset.CleanTensor | src/utils/memset/kernel/memset.cc:40-57 | when its loop ends, one core has cleared its share and has changed bytes to zero only; copies go to the unwrapped sum of base and loop variable, so nothing behind the size changes when all of them stay below it, and otherwise a byte from 2^32 on has become zero; every copy fits the zero buffer |
| Memset.CleanOnAllCores | src/utils/memset/kernel/memset.cc:40-57 | when their loops end, all launched cores together clear the size if the shares cover it; where nothing behind the size is zero, nothing there changes if and only if all copies stay |
| Memset.LaunchEndsExactly | src/utils/memset/kernel/memset.cc:40-57 | for every size below 2^32 and every number of cores: all loops end if and only if there are two cores, or the size is below 256 or one copy, or it is at most 2^32 minus the largest power of two that divides the copy size |
| Memset.HighestReached | src/utils/memset/kernel/memset.cc:51 | the wrapping loop variable reaches 2^32 minus that power of two |
| Memset.NeverPassed | src/utils/memset/kernel/memset.cc:51 | and never passes it |
| Memset.OutOfReach | src/utils/memset/kernel/memset.cc:51 | one core, a size one block below 2^32 and 64 byte copies: the loop never ends |
| Memset.LaunchStaysExactly | src/utils/memset/kernel/memset.cc:40-57 | for every size below 2^32 and every launch with enough cores: all copies stay below the size if and only if the last core's loop variable passes its share, or passes the size before 2^32 |
| Memset.SharesBelowLimit | src/utils/memset/kernel/memset.cc:49-54 | it is enough that the shares together do not pass 2^32 |
| Memset.CopyBehind | src/utils/memset/kernel/memset.cc:50-54 | 2^32-32 bytes on three cores with 64-byte copies: the loops end, and core 2 makes a copy behind the size |
| Memset.RunMemset | src/utils/memset/memset_kernel.cpp:66-111 | from request to effect, for all tensors of a launch whose loops end and whose copies stay: exactly the requested bytes rounded up to 32 are cleared, by at most all cores |
| OperationIrs.ExtendFromBack | src/utils/operationir/operation_ir.cpp:278-285 | what the backward loop leaves for all non-negative lengths: no entry is overwritten before it is read |
| OperationIrs.ExtendedIsExpansion | src/utils/operationir/operation_ir.cpp:264-287 | that is every entry repeated by its length when the zeros come first, and for different entries only then |
| OperationIrs.MisplacedZero | src/utils/operationir/operation_ir.cpp:278-285 | a plain entry behind a list is lost |
| OperationIrs.OperationIr.ExtendInTensorIrByInputlens | src/utils/operationir/operation_ir.cpp:264-287 | refused for a negative length, throws beyond the capacity, otherwise the expansion |
| OperationIrs.OperationIr.ExtendOutTensorIrByOutputlens | src/utils/operationir/operation_ir.cpp:289-312 | the same for the outputs |
| TensorDescs.CalNumel | src/schedule/common/tensor.cpp:16-34 | the exact product of the dims in a range, or zero when one is not a positive int32 or the product leaves int64 |
| TensorDescs.DivisionTest | src/schedule/common/tensor.cpp:27 | the division compares the product with the limit without computing it |
| TensorDescs.TensorDesc.Numel | src/schedule/common/tensor.cpp:36-46 | the element count; none without dims |
| TensorDescs.TensorDesc.View | src/schedule/common/tensor.cpp:48-61 | taken exactly for dims of the same count; the element count changes only for empty dims on a one-element tensor |
| TensorDescs.CheckInTensor | src/utils/checktensor/check_tensor.cpp:21-38 | accepts exactly one to eight valid dims with a true byte size of 1 to 256 GiB |

## Left out

- `Fp16Div`, the half-to-integer conversions, and conversion from int8, uint8 and int16: division rests on native floats, the others repeat the modelled integer conversion or have few inputs.
- Infinity and NaN as such: the code has no cases for them.
- `memcpy_s` belongs to a library that is not part of this model; it follows Annex K of C11, where a copy that does not fit fails and clears the destination. Its largest destination size is a parameter of BinFiles.BinFile.AddObject, and for the tiling and argument buffers of at most 1 MiB it is taken to be large enough.
- Allocation failure (a `resize` to anything a vector can hold succeeds), logging, status texts, and C++ exceptions as control flow: a full vector is a result value, and `SVector::at` out of range is a precondition (`SlotFill.LensFit`).
- `InitImpl` is a sequence of calls on the `KernelInfo` chosen by the kernel; `CheckInTensors` and `CanSupport` are one answer given to `Init`.
- KernelInfos.KernelInfo.AddConstTensorData: takes the bytes of the converted elements; the element-type conversion is not modelled.
- KernelParams.KernelParamBuilder.Init: without `ClearTensors`, which launches the memset kernel during a build; also left out are the runtime's control address (a parameter), the real launch, and `RegisterBin` (a parameter).
- KernelBases.GetTensorListSize: negative lengths, about which it and `BuildTensorList` disagree.
- KernelBases.BuildTensorLists: negative lengths, for the same reason.
- `SetTensorListHostAddr`, which nothing calls.
- Launch.LaunchBufferIsRight: asks that the constant offset be set before the first constant.
- File opening, path checks and failing reads or writes; `WriteImpl` reports success even when the blob cannot be written, which needs such a failure to show.
- BinFiles.BinFile.ParseBinFile: a line with fewer than two fields, which indexes beyond them, an empty name, whose first character is asked for, and a length no vector can have end the model without a status or a state.
- BinFiles.ReadWritten: object names with an equals sign, and values with a newline other than as in BinFiles.NewlineInValue; the exact condition of BinFiles.RoundTrip covers both.
- KernelBinary.BinHandle.Init: reading a string beyond the registered length is a failed parse here; of what a failed parse leaves only the names are stated.
- KernelBinary.PackThenParse: texts that take a positive multiple of 2^32 bytes more than they have characters; whether the code comes back is then up to the bytes that happen to be where the parser looks (KernelBinary.ByAccident).
- The text of the generated C++ array, json parsing, and `GetKernelTilingSize`, which rounds in floating point.
- Unpad.KernelUnpad.Process: device copies, queues and barriers are sequential copies, 32-bit index overflow is not modelled, and the buffers have the slack that whole aligned copies and the fixed batch of 64 take.
- Memset.RunMemset: sizes below 2^32 (of larger ones the tiling keeps 32 bits), tensors and cores one after the other, and each tensor followed by memory of its own in Memset.CleanOnAllCores; the ratio that the unified buffer size is scaled by is any positive multiple of 32.
- OperationIrs.OperationIr.ExtendInTensorIrByInputlens: one length per entry; with fewer lengths `at` throws, with more `resize` exposes what the storage held before.
- OperationIrs.OperationIr.ExtendOutTensorIrByOutputlens: the same.
- The element sizes of data types (a parameter of `CheckInTensor`), and `CheckInTensors`, which only iterates.
- Loader, schedule, platform and configuration registries, SVector's own operations, share memory, timers and other plumbing: easy members.
