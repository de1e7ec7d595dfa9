# Verified models of psibase

psibase is a blockchain node with its toolchain. This project models the parts of it whose correctness is
hardest to see from the code and proves what they are for:

- **fracpack**, the serialisation format: packing and unpacking are inverse, and checking without unpacking
  is as strong as unpacking for exactly the types that `Exact` describes (`Fracpack*.dfy`, `Utf8.dfy`).
- **The schema compiler**: an explicit-stack search over a graph of types that lays out every reachable type
  or reports a recursive definition, both exactly when it should, with the layouts of the format (`Schema*.dfy`).
- **The deferred-destruction queue** of triedent: a lock-free epoch protocol, as a state machine in which
  every atomic access is a step (`GcQueue*.dfy`).
- **Printing doubles** with Grisu2: the decimal is nearer to the double than to any other, as short as the scaled
  interval allows, and rounded (`Grisu*.dfy`, `CachedPowers.dfy`, `Scaled.dfy`).
- **Debug information for jitted code**: 32-bit DWARF expressions become native ones with the same meaning,
  line programs and back-patched references say what they should, and no two variables of a frame overlap
  (`Dwarf*.dfy`, `Line*.dfy`, `Leb128.dfy`, `Sinks.dfy`, `Backpatch.dfy`, `FrameLayout.dfy`, `Bits.dfy`).
- **Linking WebAssembly modules**: a copied function behaves like the original (`Link*.dfy`).
- **Package dependencies**: the clauses given to the SAT solver, the packages that are broken, and operations
  that apply in their order and reach the selection (`Dep*.dfy`).
- **Base58 and base64url**: round trips in both directions (`Base58.dfy`, `Base64Url.dfy`, `Alphabets.dfy`).

Code that updates things step by step is modelled by methods and classes, each proved against a function or
predicate whose own properties are then proved as lemmas. Fixed-width arithmetic is written out wherever the
code's width matters. The clock, the network, the solver, the WebAssembly engine and imported functions are
parameters: a solver's model is any set of variables that satisfies the clauses, and a host is any function.

## Findings

Where the code does not do what is wanted of it, the model keeps the code, shows an input and says exactly
when it does.

- `libraries/triedent/include/triedent/gc_queue.hpp:146-174`, `libraries/triedent/src/gc_queue.cpp:146-184`:
  a session that stores the end of the queue it loaded some time ago can make a scan hand on a bound behind
  the oldest element. `GcQueueExact.UnsafeWithoutFreshness` is such a run, which pops a protected element.
  `GcQueueExact.SafeExactlyIfSound`: a run is safe if and only if, at the end of every scan,
  `(end + n - bound) % n <= size`. `GcQueueExact.ScanIsSafeIffReadsFresh` says the same of the indices taken
  in, and `GcQueueExact.PromptIsSound` gives a schedule that is always safe.
- `libraries/debug_eos_vm/dwarf.cpp:1765-1771`: the modulo operation is unsigned by section 2.5.1.4 of DWARF
  Version 4, but its operands are sign-extended. `DwarfSimulation.ModWitness` is an input,
  `DwarfSimulation.ModExact` the exact condition.
- `libraries/debug_eos_vm/dwarf.cpp:1679-1685`: a frame-relative address is not truncated to 32 bits.
  `DwarfSimulation.FbregWitness` is an input, `DwarfSimulation.FbregExact` the exact condition: it must not wrap.
- `libraries/debug_eos_vm/dwarf.cpp:1946-1951`: an expression that leaves nothing on the stack describes an
  object that is not there; its translation cannot be evaluated. `DwarfRuns.AbsentIsLost` is the smallest
  one, and `DwarfRuns.LocationPreserved` says that exactly these are lost.
- `rust/fracpack/src/fracpack.rs:260-276`: the check accepts a zero offset for any type, and any tag above
  the alternatives of an enum. `FracpackVerify.WitnessAt` builds such data for every inexact type, and
  `FracpackVerify.VerifyIsExactIff` is the exact condition on types.
- `rust/psibase/src/crypto.rs:230-231`: the character zero counts as a digit of value 58.
  `Base58.ZeroCharacterWitness` is an input, `Base58.ReencodeExact` the exact condition.
- `libraries/psibase_http/jwt.cpp:64-74`: text of length 1 modulo 4 with a zero last character is accepted,
  and the character lost. `Base64Url.OddLengthWitness` is an input, `Base64Url.EncodeDecode` the exact
  condition.
- `rust/cargo-psibase/src/link.rs:187-204`: a call of an imported function may be bound to an import of the
  destination that is itself about to be replaced. `LinkModule.LinkWrapper` links a wrapper around an import
  that is exported under that import's name: the wrapper returns, and what the linker makes of it calls itself
  forever. `LinkModule.Link` has the exact condition: everything that was copied or called behaves as in the
  source if and only if `LinkTable.NoClash` holds, which says that no lookup, in the table as it stands when a
  target is copied, finds a target still to be replaced by something else than that import.
- `libraries/triedent/src/gc_queue.cpp:165`, `libraries/triedent/src/gc_queue.cpp:178`: with the wait bit
  masked, an unlocked session looks like the index 2^31 - 1, which must not move the bound of a scan.
  `GcQueueExact.UnlockedIgnoredIff`: it does not, wherever the end and the bound are, if and only if the circle
  has at most 2^30 slots.
- `libraries/psio/src/schema.cpp:183-186`, `libraries/psio/src/schema.cpp:376`: fixed sizes are kept in 32 bits.
  `SchemaFormat.HugeArrayWraps` is a schema whose second member gets the offset of the first;
  `SchemaFormat.OffsetExactIff` and `SchemaFormat.SizeExactIff` are the exact conditions.
- `rust/psibase/src/depgraph.rs:453-461`: an installed package with a dependency that is not installed at all is
  taken for broken, and then its missing dependency is unwrapped. `DepBroken.MissingDependencyWitness` is an
  input; `DepBroken.DepGraph.AdjustCurrentlyBroken` has an answer if and only if every dependency is installed
  in some version.

## Model

| member | source | states |
|---|---|---|
| FracpackRoundTrip.UnpackAt | rust/fracpack/src/fracpack.rs:193-258 | wherever the bytes of a value of any nested type stand, unpacking there returns the value and stops right behind them |
| FracpackRoundTrip.PackThenUnpack | rust/fracpack/src/fracpack.rs:112-258 | packing at the end of any buffer and unpacking there is the identity, whatever stands before and after |
| FracpackRoundTrip.PackedInjective | rust/fracpack/src/fracpack.rs:112-133 | two values of one type with the same bytes are the same value |
| FracpackRoundTrip.SlotSize | rust/fracpack/src/fracpack.rs:139-155 | a member's slot is as wide as its type says, whatever it points to |
| FracpackRoundTrip.ReadHeaderAt | rust/fracpack/src/fracpack.rs:685-704 | the header of a packed list, array, tuple or struct reads back as its arity, the place of its slots and the place of its data |
| FracpackPack.Buffer.Overwrite | rust/fracpack/src/fracpack.rs:148-155 | replaces bytes in place and moves nothing |
| FracpackPack.Pack | rust/fracpack/src/fracpack.rs:112-126 | the two-pass packer appends exactly the bytes of the format, which the rows below give kind by kind, and leaves the rest of the buffer alone |
| FracpackFormat.EmptyIsZeroOffset | rust/fracpack/src/fracpack.rs:616-618 | an empty list, text or blob leaves a zero offset and no data, also inside an option |
| FracpackFormat.NoneIsOne | rust/fracpack/src/fracpack.rs:490-500 | a missing option is the offset 1 and no data |
| FracpackFormat.OthersArePointers | rust/fracpack/src/fracpack.rs:139-160 | every other value of variable size is an offset to its own bytes; a value of fixed size stands in place |
| FracpackFormat.ScalarBytes | rust/fracpack/src/fracpack.rs:342-349 | byte i of a scalar is digit i of its number to the base 256 |
| FracpackFormat.BoolByte | rust/fracpack/src/fracpack.rs:303-313 | a boolean is one byte, 0 or 1 |
| FracpackFormat.PairBytes | rust/fracpack/src/fracpack.rs:802-816 | a pair of any two types, byte by byte: size of the slots, two slots with the distances to their data, the data |
| FracpackFormat.NumberAndEmptyText | rust/fracpack/src/fracpack.rs:608-618 | a number and an empty text in a tuple, byte by byte |
| FracpackFormat.VectorAccepted | rust/fracpack/src/fracpack.rs:685-696 | a list is read if and only if its size is there, is a whole number of elements and ends below 2^32; then the data start behind it |
| FracpackFormat.ArrayAccepted | rust/fracpack/src/fracpack.rs:756-761 | an array is read if and only if its slots end below 2^32; its data start behind them |
| FracpackFormat.ExtensibleAccepted | rust/fracpack/src/fracpack.rs:824-830 | the header of a tuple or extensible struct is read if and only if it is there and ends below 2^32; the data start where it says, however many members the reader knows |
| FracpackFormat.UnpackedHasType | rust/fracpack/src/fracpack.rs:193-258 | whatever bytes unpack at all unpack to a value of the type |
| FracpackFormat.Normalises | rust/fracpack/src/fracpack.rs:112-258 | packing what was read, from whatever bytes, gives a message that reads back as the same value |
| Utf8.IsUtf8Iff | rust/fracpack/src/fracpack.rs:565-588 | a text is accepted if and only if it is the UTF-8 encoding, section 3 of RFC 3629, of some Unicode scalar values |
| FracpackPack.PackOption | rust/fracpack/src/fracpack.rs:482-489 | packs an option as a slot and data behind it |
| FracpackPack.PackVariant | rust/psibase_macros/src/fracpack_macro.rs:612-710 | packs an alternative with a size that is written after the alternative itself |
| FracpackPack.PackGroup | rust/fracpack/src/fracpack.rs:660-674 | header, slots and data of a list, array, tuple or struct |
| FracpackPack.PackHeader | rust/fracpack/src/fracpack.rs:802-806 | the header of each kind of group; the list's 32-bit size does not wrap |
| FracpackPack.PackFixed | rust/fracpack/src/fracpack.rs:664-668 | the first pass appends a placeholder for every member |
| FracpackPack.PackHeap | rust/fracpack/src/fracpack.rs:669-673 | the second pass turns placeholders into slots, each pointing to the data it appends |
| FracpackPack.EmbeddedFixedPack | rust/fracpack/src/fracpack.rs:490-500 | what the first pass leaves in a slot |
| FracpackPack.EmbeddedFixedRepack | rust/fracpack/src/fracpack.rs:501-511 | overwrites a placeholder, wherever it stands, by the slot that points to the data |
| FracpackPack.EmbeddedVariablePack | rust/fracpack/src/fracpack.rs:512-520 | appends a member's data, nothing for empty containers |
| FracpackRead.ReadMembers | rust/fracpack/src/fracpack.rs:697-703 | the reading loop, stopping at the first error |
| FracpackRead.CheckMembers | rust/fracpack/src/fracpack.rs:715-720 | the checking loop |
| FracpackRead.ReadGroup | rust/fracpack/src/fracpack.rs:685-704 | reads a group through the loop; whatever was packed there comes back |
| FracpackRead.CheckGroup | rust/fracpack/src/fracpack.rs:705-721 | passes whatever reads; for exact types, passes if and only if it reads |
| FracpackVerify.UnpackImpliesVerify | rust/fracpack/src/fracpack.rs:215-285 | whatever unpacks passes the check, with the same cursor |
| FracpackVerify.VerifyImpliesUnpack | rust/fracpack/src/fracpack.rs:260-285 | for exact types, whatever passes the check unpacks |
| FracpackVerify.WitnessAt | rust/fracpack/src/fracpack.rs:260-276 | for every other type, the witness bytes pass the check and do not unpack, wherever they stand |
| FracpackVerify.VerifyIsExactIff | rust/fracpack/src/fracpack.rs:215-285 | the check is as strong as unpacking if and only if the type is exact |
| GcQueueSafety.OrderIsCount | libraries/triedent/src/gc_queue.cpp:18-35 | the circular comparison orders indices by the push counts they stand for |
| GcQueueSafety.StartIsOldest | libraries/triedent/src/gc_queue.cpp:43-44 | the start index is the oldest element's slot |
| GcQueueSafety.FreshIffGap | libraries/triedent/src/gc_queue.cpp:146-184 | whether an index still lies within the queue can be told from the end, the size and the length of the circle |
| GcQueueSafety.StepInv | libraries/triedent/src/gc_queue.cpp:37-184 | every atomic step of sessions and queue keeps the invariant, provided a finished scan hands on a sound bound |
| GcQueueSafety.RunInv | libraries/triedent/src/gc_queue.cpp:37-184 | the invariant holds along every interleaving |
| GcQueueSafety.Reclamation | libraries/triedent/include/triedent/gc_queue.hpp:28-43 | no element is popped while a session that locked before its push is locked; first in, first out; pushed is popped plus queued; one slot stays empty; one notifier exactly when waiting |
| GcQueueSafety.BlockedPushIsNotified | libraries/triedent/src/gc_queue.cpp:47-56 | a push that waits does so with a session in place that will notify it |
| GcQueueExact.SafeExactlyIfSound | libraries/triedent/src/gc_queue.cpp:37-184 | along every run from the start, pops are safe if and only if every scan's bound is within the queue, a test on the queue's own fields |
| GcQueueExact.BoundExactlyFromReads | libraries/triedent/src/gc_queue.cpp:146-184 | however sessions interleave with a scan, its bound is sound if and only if every index it took in was fresh |
| GcQueueExact.PopsSafelyIffReadsFresh | libraries/triedent/src/gc_queue.cpp:130-184 | the pop loop behind a full scan is safe in every state if and only if everything the scan took in was fresh |
| GcQueueExact.ScanIsSafeIffReadsFresh | libraries/triedent/src/gc_queue.cpp:72-184 | the same from the first step of a poll, run or push |
| GcQueueExact.UnlockedIgnoredIff | libraries/triedent/src/gc_queue.cpp:165-181 | unlocked sessions leave every bound alone if and only if the circle has at most 2^30 slots |
| GcQueueExact.StaleIsOvertaken | libraries/triedent/include/triedent/gc_queue.hpp:146-174 | a stored index goes stale only if an element pushed after its load was popped before the lock was settled |
| GcQueueExact.PromptIsSound | libraries/triedent/include/triedent/gc_queue.hpp:146-174 | runs in which no session is overtaken in that way are safe |
| GcQueueExact.PopStaysInQueueIff | libraries/triedent/src/gc_queue.cpp:130-141 | a pop loop takes out no more than was pushed if and only if it runs to a fresh index |
| GcQueueExact.UnsafeWithoutFreshness | libraries/triedent/src/gc_queue.cpp:130-184 | a run of the code in which a protected element is about to be popped |
| GcQueueProgress.PollReclaims | libraries/triedent/src/gc_queue.cpp:72-184 | a poll that nothing interrupts, with all stored indices fresh, leaves exactly the elements from the earliest index on |
| GcQueueProgress.NoneHeld | libraries/triedent/src/gc_queue.cpp:146-184 | with no session locked, that is none |
| CachedPowers.TableIsAccurate | libraries/psio/src/powers.h:22-51 | each of the 87 cached powers is normalised and within half a unit of the power of ten it stands for |
| Grisu.BuildFp | libraries/psio/src/fpconv.c:42-59 | fraction and exponent of a finite double, in its one representation |
| Grisu.BuildFpOnce | libraries/psio/src/fpconv.c:42-59 | each finite double comes from exactly one pair of fraction bits and exponent bits, and from which |
| Grisu.Normalize | libraries/psio/src/fpconv.c:61-71 | shifts until the top bit is set and keeps the value |
| Grisu.Boundaries | libraries/psio/src/fpconv.c:73-97 | the halfway points to the neighbouring doubles, at one exponent |
| Grisu.MultiplyRounds | libraries/psio/src/fpconv.c:99-118 | the product of fractions is the exact product divided by 2^64, rounded to nearest |
| Grisu.MultiplyFits | libraries/psio/src/fpconv.c:99-118 | none of the four partial products, the rounding sum and the result overflows 64 bits |
| Grisu.FindCachedPower | libraries/psio/src/powers.h:53-80 | the search stays in the table, ends, and finds an entry in the window |
| Grisu.RoundDigit | libraries/psio/src/fpconv.c:120-128 | lowers only the last digit, keeps it a digit and stays within delta; no other number of steps within delta ends closer to the exact value |
| Grisu.IntegerDigits | libraries/psio/src/fpconv.c:142-168 | the digits of the integer part, first one nonzero, until they may be cut |
| Grisu.NoneCloser | libraries/psio/src/fpconv.c:120-128 | every decimal of the same scale in the interval is one that lowering the last digit reaches, so none is closer |
| Grisu.CoarserIsLow | libraries/psio/src/fpconv.c:157-185 | had the digits been cut one earlier, the value would lie at or below the lower bound |
| Grisu.FractionDigits | libraries/psio/src/fpconv.c:170-189 | the digits behind it: at most 18, at most 17 if the interval is coarse enough, chosen as in the next row, no overflow |
| Grisu.GenerateDigits | libraries/psio/src/fpconv.c:130-189 | well-formed digits whose value lies between the bounds; no decimal in the interval has fewer digits, unless it is the lower bound, and none with as many is closer to the exact value |
| GrisuBounds.Gaps | libraries/psio/src/fpconv.c:191-213 | the three scaled values keep their order with room for the one-unit corrections, and the interval is coarse enough for 17 digits |
| GrisuBounds.Inside | libraries/psio/src/fpconv.c:191-213 | the corrections absorb the errors of table and multiplication: the digits lie strictly between the true halfway points |
| GrisuBounds.Grisu2 | libraries/psio/src/fpconv.c:191-213 | for every positive finite double: at most 17 digits, first one nonzero, strictly between the halfway points to its neighbours; in the scale of one of the table's powers no shorter decimal lies in the interval and none as long is closer to the double |
| GrisuNearest.CloserThan | libraries/psio/src/fpconv.c:191-213 | a decimal strictly between the halfway points is closer to the double than to any other |
| GrisuNearest.BetweenIsNearest | libraries/psio/src/fpconv.c:191-213 | so any correctly rounding reader gets the double back |
| GrisuText.EmitDigits | libraries/psio/src/fpconv.c:215-293 | the text reads back as digits times the power of ten and fits 24 characters; it is plain, has a point or has an exponent exactly when the digits and the exponent call for it, and no zero leads that need not |
| GrisuText.FilterSpecial | libraries/psio/src/fpconv.c:295-318 | zero, infinities and NaN, and nothing else, have texts of their own |
| GrisuText.Dtoa | libraries/psio/src/fpconv.c:320-345 | for every double: a sign and a text of at most 24 characters in all whose value is nearest to that double, with the digits that were chosen and in the style due to them |
| DwarfTranslate.TranslateExpr | libraries/debug_eos_vm/dwarf.cpp:1528-1951 | the loop over the operations emits the translation that the lemmas below are about, or rejects the expression |
| DwarfTranslate.RejectsIff | libraries/debug_eos_vm/dwarf.cpp:1588-1945 | an expression is rejected if and only if it has a host register, an unknown operation, a location without storage or frame, or a dereference of something that is not an address in linear memory |
| DwarfSimulation.BinarySimulates | libraries/debug_eos_vm/dwarf.cpp:1747-1847 | the sequence emitted for each binary operation leaves, on the 64-bit machine, the 32-bit machine's result |
| DwarfSimulation.UnarySimulates | libraries/debug_eos_vm/dwarf.cpp:1740-1789 | the same for absolute value, negation and complement |
| DwarfSimulation.PlusUconstSimulates | libraries/debug_eos_vm/dwarf.cpp:1801-1807 | the same for adding a constant |
| DwarfSimulation.FetchSimulates | libraries/debug_eos_vm/dwarf.cpp:1717-1732 | a dereference fetches from linear memory, at its base |
| DwarfSimulation.ModExact | libraries/debug_eos_vm/dwarf.cpp:1765-1771 | the emitted modulo sequence leaves the right remainder if and only if ModAgrees holds of its operands |
| DwarfSimulation.ModWitness | libraries/debug_eos_vm/dwarf.cpp:1765-1771 | a run of the sequence on operands for which it is wrong |
| DwarfSimulation.FbregExact | libraries/debug_eos_vm/dwarf.cpp:1679-1685 | a frame-relative address is right if and only if it does not wrap |
| DwarfSimulation.FbregWitness | libraries/debug_eos_vm/dwarf.cpp:1679-1685 | one that is wrong |
| DwarfRuns.StepSimulates | libraries/debug_eos_vm/dwarf.cpp:1588-1945 | whatever an operation does to a related pair of machine states, its translation keeps them related |
| DwarfRuns.RunSimulates | libraries/debug_eos_vm/dwarf.cpp:1586-1945 | and so do whole expressions |
| DwarfRuns.LocationPreserved | libraries/debug_eos_vm/dwarf.cpp:1528-1951 | a translated location describes the same place, moved to its native address, if and only if there is a place; otherwise it cannot be evaluated |
| DwarfRuns.IntegerPreserved | libraries/debug_eos_vm/dwarf.cpp:1528-1951 | a translated integer expression leaves the same stack |
| DwarfRuns.AbsentIsLost | libraries/debug_eos_vm/dwarf.cpp:1946-1951 | the empty expression is one that is lost |
| DwarfFrame.VariablesApart | libraries/debug_eos_vm/dwarf.cpp:1881-1895 | the addresses that translated expressions give for two variables of a frame never overlap |
| FrameLayout.LayParams | libraries/debug_eos_vm/locals.hpp:13-34 | offsets of parameters; fails if and only if one does not fit 31 bits |
| FrameLayout.LayLocals | libraries/debug_eos_vm/locals.hpp:42-58 | groups of locals; fails if and only if the locals need more than 2^31 bytes |
| FrameLayout.FindGroup | libraries/debug_eos_vm/locals.hpp:67-68 | the partition point |
| FrameLayout.GetFrameOffset | libraries/debug_eos_vm/locals.hpp:65-74 | the lookup by group equals counting through all locals one by one |
| FrameLayout.FrameDisjoint | libraries/debug_eos_vm/locals.hpp:10-94 | any two slots of an accepted frame, parameters or locals, are disjoint, and all offsets are signed 32-bit numbers |
| FrameLayout.FrameOffset | libraries/debug_eos_vm/locals.hpp:84-94 | looking up an index finds its slot, or nothing if there is none |
| FrameLayout.FrameInNumbers | libraries/debug_eos_vm/locals.hpp:10-94 | every slot in numbers: 16 bytes for a vector and 8 for anything else, the last parameter at 16, the first local right below zero, one behind the other, and nothing beyond |
| LineProgram.DecodeEncode | libraries/debug_eos_vm/dwarf.cpp:704-798 | the reader decodes each written operation, wherever it stands |
| LineProgram.RunBytesRuns | libraries/debug_eos_vm/dwarf.cpp:627-798 | reading the bytes of a program runs its operations |
| LineWriter.FindInstr | libraries/debug_eos_vm/dwarf.cpp:830-834 | the first instruction at or behind an address |
| LineWriter.GetAddrRange | libraries/debug_eos_vm/dwarf.cpp:824-844 | the native range of a location that has instructions and one behind them |
| LineWriter.RangeMeans | libraries/debug_eos_vm/dwarf.cpp:824-844 | a location has a range if and only if it has instructions and the code goes on behind it; from its first to before its second address are exactly the instructions whose WebAssembly address is in the location |
| LineWriter.LineWriter.PutExtended | libraries/debug_eos_vm/dwarf.cpp:853-860 | an extended operation is preceded by the size a counting pass finds |
| LineWriter.LineWriter.PutLocation | libraries/debug_eos_vm/dwarf.cpp:862-928 | adds one row, after an end of sequence if its address lies behind; the writer's registers stay those of the reader |
| LineWriter.LineDelta | libraries/debug_eos_vm/dwarf.cpp:899-904 | the difference that is written is a signed 32-bit number and takes the line register to the new line |
| LineWriter.WriteLocations | libraries/debug_eos_vm/dwarf.cpp:862-928 | one row for every location with a range, in order, and an end of sequence behind the range before whenever the next one starts earlier |
| LineWriter.WriteLineProgram | libraries/debug_eos_vm/dwarf.cpp:846-933 | running the bytes on the machine of section 6.2 of DWARF Version 4 gives exactly those rows and a last end of sequence, each behind the code it ends; addresses do not decrease within a sequence |
| LineWriter.GenerateLineProgram | libraries/debug_eos_vm/dwarf.cpp:943-954 | the size that the counting pass finds is that of the bytes written |
| Leb128.DecodeEncodeU | libraries/psio/include/psio/from_bin.hpp:21-35 | an unsigned number of any size decodes to itself, wherever it stands |
| Leb128.DecodeEncodeS | libraries/psio/include/psio/from_bin.hpp:78-103 | a signed one too |
| Leb128.WriteU | libraries/psio/include/psio/to_bin.hpp:31-42 | the writing loop writes that encoding |
| Leb128.WriteS | libraries/psio/include/psio/to_bin.hpp:45-56 | the signed writing loop too |
| Backpatch.PatchedIsRendered | libraries/debug_eos_vm/dwarf.cpp:1448-1460 | patching all places of a key gives the output of a writer that knew it from the start |
| Backpatch.SlotsAreRight | libraries/debug_eos_vm/dwarf.cpp:1435-1460 | in such output every reference to a known entry holds its word |
| Backpatch.Relocations.StartUnit | libraries/debug_eos_vm/dwarf.cpp:1463-1469 | forgets all keys and keeps the output |
| Backpatch.Relocations.Append | libraries/debug_eos_vm/dwarf.cpp:1435-1447 | a reference, before or after its entry, keeps the output that of an all-knowing writer |
| Backpatch.Relocations.Set | libraries/debug_eos_vm/dwarf.cpp:1448-1460 | so does the start of an entry; only its first start counts |
| Backpatch.Relocations.Patch | libraries/debug_eos_vm/dwarf.cpp:1453-1456 | overwrites the listed places and no other byte |
| Backpatch.Relocations.ResolvedHolds | libraries/debug_eos_vm/dwarf.cpp:1430-1474 | after any interleaving, the eight bytes of every reference to a started entry, read as a number, are its offset in the unit |
| Backpatch.Relocations.PendingHolds | libraries/debug_eos_vm/dwarf.cpp:1435-1447 | a reference to an entry that has not started is eight zero bytes |
| LinkBehaviour.BodySame | rust/cargo-psibase/src/link.rs:227-555 | a renamed copy of an instruction sequence takes related states to related outcomes, branches included |
| LinkBehaviour.LoopSame | rust/cargo-psibase/src/link.rs:227-555 | so does a loop, for any number of rounds |
| LinkBehaviour.ApplySame | rust/cargo-psibase/src/link.rs:609-659 | a copied function returns what the original returns, for all hosts, arguments and memories |
| LinkCopy.Linker.ToDestLocal | rust/cargo-psibase/src/link.rs:581-594 | each local gets one new name of its own |
| LinkCopy.Linker.ToDestFunc | rust/cargo-psibase/src/link.rs:177-221 | the function found or made in the destination is a copy; nothing there changes; succeeds if nothing stands in the way |
| LinkCopy.Linker.ToDestImport | rust/cargo-psibase/src/link.rs:187-204 | an import of the same name and type, or a new one |
| LinkCopy.Linker.CopyLocalFunc | rust/cargo-psibase/src/link.rs:609-659 | the new function is a copy under fresh names |
| LinkCopy.Linker.ToDestBlock | rust/cargo-psibase/src/link.rs:227-247 | a block under a fresh name; branches inside go to the copies of their enclosing blocks |
| LinkCopy.Linker.ToDestInstr | rust/cargo-psibase/src/link.rs:249-552 | each instruction becomes its copy |
| LinkTable.ClashedBefore | rust/cargo-psibase/src/link.rs:160-173 | a lookup that clashes when a target is copied would have clashed at every earlier target |
| LinkTable.NotImportedNoClash | rust/cargo-psibase/src/link.rs:187-204 | a source that does not import what it replaces has no clash |
| LinkCopy.Linker.ImportLooked | rust/cargo-psibase/src/link.rs:160-173 | the first import of that name in the destination is the one the specification looks up |
| LinkModule.GetTargets | rust/cargo-psibase/src/link.rs:113-155 | exactly the imports that the source exports; a difference in type if and only if there is one |
| LinkModule.ImportBehaves | rust/cargo-psibase/src/link.rs:187-204 | only the same import behaves like an import |
| LinkModule.Expose | rust/cargo-psibase/src/link.rs:177-221 | every clash that copying a target meets leaves a call at a place that something else is put into |
| LinkModule.FillTarget | rust/cargo-psibase/src/link.rs:681-715 | replaces one import; copies made so far stay copies, except of imports that are replaced |
| LinkModule.BehavesIffNoClash | rust/cargo-psibase/src/link.rs:675-717 | once all targets are filled, everything copied or called behaves as in the source if and only if there is no clash |
| LinkModule.Link | rust/cargo-psibase/src/link.rs:675-717 | targets become copies and the rest is unchanged; all of it behaves as in the source if and only if there is no clash, and then each target behaves like its export on all inputs; behind the destination stands nothing that is not needed and nothing twice; never fails if memory is there and imports agree |
| LinkModule.LinkWrapper | rust/cargo-psibase/src/link.rs:675-717 | linking a wrapper around the import it replaces: the original returns, the result never does |
| SchemaAlias.LongChainsNeverEnd | libraries/psio/src/schema.cpp:10-19 | a chain of aliases that is longer than the number of names never ends |
| SchemaAlias.Resolve | libraries/psio/src/schema.cpp:6-23 | succeeds if and only if the chain ends, with the type at its end |
| SchemaModel.LayoutStable | libraries/psio/src/schema.cpp:167-187 | the recursive layout does not depend on how deep it may look |
| SchemaDfs.RecursiveNeedsItself | libraries/psio/src/schema.cpp:227-232 | a pending type met above its own position contains itself |
| SchemaDfs.NoneNeedsItself | libraries/psio/src/schema.cpp:212-242 | no finished type contains itself |
| SchemaDfs.FinishedIsComplete | libraries/psio/src/schema.cpp:491-500 | when stack and queue are empty, every reachable type is laid out and nothing is wrong |
| SchemaDfs.CompiledSchema.Discover | libraries/psio/src/schema.cpp:212-242 | first met, met again at its own position, or done |
| SchemaDfs.CompiledSchema.LinkMembers | libraries/psio/src/schema.cpp:167-195 | offsets and sizes of members are those of the recursive definition, which the rows below tie to the format |
| SchemaDfs.CompiledSchema.Link | libraries/psio/src/schema.cpp:260-464 | the layout of each kind of type, from the layouts of what it contains |
| SchemaDfs.CompiledSchema.Visit | libraries/psio/src/schema.cpp:494-499 | one step of the search keeps its invariant and makes progress |
| SchemaDfs.CompiledSchema.Round | libraries/psio/src/schema.cpp:493-499 | a round empties the stack |
| SchemaDfs.CompiledSchema.Compile | libraries/psio/src/schema.cpp:476-500 | ends; succeeds if and only if no reachable type contains itself, is an empty struct or is too large; then every layout is the recursive one, contained types first; where nothing is empty or too large, reports recursion if and only if there is some |
| SchemaFormat.LayoutIsFormat | libraries/psio/src/schema.cpp:167-464 | every layout agrees with the packed type it stands for: kind, variable size or not, fixed size, and the offset of each member as fracpack has it, in 32 bits |
| SchemaFormat.CompiledIsFormat | libraries/psio/src/schema.cpp:476-500 | so does every type that was compiled |
| SchemaFormat.OffsetExactIff | libraries/psio/src/schema.cpp:183-186 | a member stands where the format puts it if and only if that is below 2^32 |
| SchemaFormat.SizeExactIff | libraries/psio/src/schema.cpp:183-186 | the fixed size is that of the format if and only if that is below 2^32 |
| SchemaFormat.HugeArrayWraps | libraries/psio/src/schema.cpp:370-377 | 2^32 bytes in place are laid out as none |
| SchemaFormat.GroupTooLargeIff | libraries/psio/src/schema.cpp:178-179 | a group is too large if and only if one of its members would start beyond 16 bits |
| SchemaFormat.LaidOutRenders | libraries/psio/src/schema.cpp:260-464 | every type that is laid out stands for some packed type |
| SchemaFormat.MembersRefer | libraries/psio/src/schema.cpp:173-182 | each member refers to its type, an optional one to the type inside the option |
| SchemaFormat.SelfReference | libraries/psio/src/schema.cpp:197-198 | a type that refers to itself is recursive, unless through a list, an option or a variant |
| DepPlan.MetAgain | rust/psibase/src/depgraph.rs:159-163 | a package met again before it is done depends on itself |
| DepPlan.Installer.GetInstalled | rust/psibase/src/depgraph.rs:150-178 | lists each package after everything it depends on; fails only on a cycle |
| DepPlan.Remover.GetRemoved | rust/psibase/src/depgraph.rs:126-148 | goes through the working packages, dependencies first |
| DepPlan.OperationsNameChanged | rust/psibase/src/depgraph.rs:167-174 | exactly the packages that change get an operation, in the order in which they are done |
| DepChanges.Removals | rust/psibase/src/depgraph.rs:191-206 | removes exactly what is to go, each package once, dependents first if nothing installed is cyclic |
| DepChanges.EvaluateChanges | rust/psibase/src/depgraph.rs:185-224 | fails if and only if the selection is cyclic; otherwise removals, then each install or replacement once; applied to what is installed, no operation is refused, what a package depends on is there before it, the selection is reached, the unselected, working, removable packages are gone and the rest is untouched; a package in its selected version is named if and only if it is to be installed again |
| DepApply.PlanApplies | rust/psibase/src/depgraph.rs:185-224 | removals followed by installations, in the orders above, always apply and reach the selection |
| DepApply.PlanNotNeedless | rust/psibase/src/depgraph.rs:167-174 | a package in its selected version is left alone unless it is to be installed again |
| DepBroken.ClosedIsExact | rust/psibase/src/depgraph.rs:468-480 | when the worklist is empty, exactly the packages that must break are marked |
| DepBroken.DepGraph.BuildReverse | rust/psibase/src/depgraph.rs:447-467 | the directly broken packages and the reverse graph; fails if and only if a dependency is not installed |
| DepBroken.MissingDependencyWitness | rust/psibase/src/depgraph.rs:453-461 | a package that is broken and leaves the function without an answer |
| DepBroken.DepGraph.AdjustCurrentlyBroken | rust/psibase/src/depgraph.rs:447-481 | marks the least set that holds the directly broken packages and is closed under reverse dependency, and nothing else |
| DepExact.UnmarkedIsLargest | rust/psibase/src/depgraph.rs:447-481 | the packages left unmarked are the largest set that has all its dependencies in versions that fit; the others keep version and dependencies and are not to be removed |
| DepSat.AtMostOneSound | rust/psibase/src/depgraph.rs:510-520 | a model of the gadget makes at most one literal true, for any number of them |
| DepSat.AtMostOneComplete | rust/psibase/src/depgraph.rs:510-520 | any choice of at most one extends to a model of the gadget |
| DepSat.BitOr | rust/psibase/src/depgraph.rs:502-508 | adds a variable and the clauses that make it stand for the disjunction |
| DepSat.ZeroOrOneOf | rust/psibase/src/depgraph.rs:510-520 | the loop adds the gadget |
| DepSat.RootsMean | rust/psibase/src/depgraph.rs:419-428 | the request clauses hold if and only if every request is met |
| DepSat.DependsMean | rust/psibase/src/depgraph.rs:408-418 | the dependency clauses hold if and only if the dependencies of everything selected are met |
| DepSat.ConflictsSound | rust/psibase/src/depgraph.rs:429-443 | the conflict clauses allow one version of a package at most |
| DepSat.ConflictsComplete | rust/psibase/src/depgraph.rs:429-443 | and rule out nothing else |
| DepSat.ModelsAreValid | rust/psibase/src/depgraph.rs:397-443 | every model selects a valid choice |
| DepSat.ValidHasModel | rust/psibase/src/depgraph.rs:397-443 | every valid choice extends to a model |
| DepSat.EncodingExact | rust/psibase/src/depgraph.rs:397-443 | both together |
| DepSat.Encode | rust/psibase/src/depgraph.rs:281-287 | the clauses that are added are exact in this sense |
| DepSolve.OnlyOneSelected | rust/psibase/src/depgraph.rs:303-311 | of one package, a valid choice selects one version |
| DepSolve.ReadSelection | rust/psibase/src/depgraph.rs:303-311 | the packages read off a model are the selected versions |
| DepSolve.ValidIsInstallable | rust/psibase/src/depgraph.rs:302-312 | they meet all requests and each other's dependencies, and are closed under dependency |
| DepExact.InstallableIsValid | rust/psibase/src/depgraph.rs:397-443 | any installable selection among the candidates is a valid choice |
| DepExact.SatisfiableIff | rust/psibase/src/depgraph.rs:281-312 | the clauses have a model if and only if some of the candidates can be installed together |
| DepSolve.Solve | rust/psibase/src/depgraph.rs:281-312 | for any model: fails if and only if something installed lacks a dependency altogether or the selection is cyclic; otherwise a right plan, which applies and reaches a selection that meets everything |
| Base58.TrimmedUnique | rust/psibase/src/crypto.rs:249-298 | a number has one row of digits without leading zeros |
| Base58.DecodeEncode | rust/psibase/src/crypto.rs:249-298 | decoding an encoding returns the bytes, leading zeros included |
| Base58.EncodeDecode | rust/psibase/src/crypto.rs:249-298 | encoding the decoding of text in the alphabet returns the text |
| Base58.ReencodeExact | rust/psibase/src/crypto.rs:228-298 | for all accepted text: it returns if and only if it has no character zero |
| Base58.ZeroCharacterWitness | rust/psibase/src/crypto.rs:230-231 | accepted text that does not return |
| Base58.ToBinary | rust/psibase/src/crypto.rs:249-274 | the decoding loops; all carries fit their widths |
| Base58.TimesPlus58 | rust/psibase/src/crypto.rs:256-263 | one digit more, in bytes |
| Base58.ToBase58 | rust/psibase/src/crypto.rs:276-298 | the encoding loops; all carries fit their widths |
| Base58.TimesPlus256 | rust/psibase/src/crypto.rs:279-288 | one byte more, in characters |
| Base58.EncodeValue | rust/psibase/src/crypto.rs:276-298 | the text, read to the base 58, is the number of the bytes, read to the base 256 |
| Alphabets.Base58Alphabet | rust/psibase/src/crypto.rs:228 | the table is the alphabet, written out |
| Base64Url.DecodeEncode | libraries/psibase_http/jwt.cpp:44-108 | decoding an encoding returns the bytes |
| Base64Url.EncodeDecode | libraries/psibase_http/jwt.cpp:44-108 | encoding the decoding of accepted text returns it if and only if its length is not 1 modulo 4 |
| Base64Url.OddLengthWitness | libraries/psibase_http/jwt.cpp:64-74 | accepted text that does not return |
| Base64Url.ToSextets | libraries/psibase_http/jwt.cpp:49-75 | the accumulator, which is never masked, gives the groups of section 4 of RFC 4648 |
| Base64Url.FromSextets | libraries/psibase_http/jwt.cpp:49-75 | the other way; accepted if and only if the bits left over are zero |
| Base64Url.ToBase64Url | libraries/psibase_http/jwt.cpp:77-83 | bytes to text |
| Base64Url.FromBase64Url | libraries/psibase_http/jwt.cpp:88-108 | text to bytes, or the reason why not |
| Alphabets.Base64UrlAlphabet | libraries/psibase_http/jwt.cpp:14-27 | the table is Table 2 of RFC 4648, written out |
| Alphabets.GroupIsNumber | libraries/psibase_http/jwt.cpp:49-75 | four characters are the digits, to the base 64, of three bytes read as one number |

## Left out

- `FracParser` and its readers (`libraries/psio/src/schema.cpp:530-1045`), which walk packed bytes by a compiled
  schema, and the JSON conversion on top of them.
- `SchemaBuilder::optimize`, `SchemaMatch` and the handlers of custom types (`libraries/psio/src/schema.cpp:501-513,
  1047-1371`). A custom type is laid out like the type it wraps.
- fracpack: smart pointers and single-field wrappers, which pack like what they hold, are not types of their own.
- GcQueue: sessions that come and go, `flush`, and the memory orders below sequential consistency; mutexes and
  the condition variable are steps of the state machine.
- GcQueueSafety.Reclamation: for circles of 2 to 2^30 slots. One slot means a queue that never takes an element;
  above 2^30 the comparison itself fails, see `UnlockedIgnoredIff`.
- GcQueueExact.SafeExactlyIfSound: for the same lengths.
- Grisu.FindCachedPower: the estimate it starts from is computed in exact arithmetic instead of in a double.
- DwarfTranslate.TranslateExpr: on operations, without their byte encoding; `push_object_address` and shift amounts
  beyond the width of the word are left out.
- DwarfRuns.LocationPreserved: assumes that every modulo and every frame-relative address along the run meets
  the exact condition of `ModExact` or `FbregExact`.
- DwarfRuns.IntegerPreserved: has the same assumption.
- LineProgram.DecodeEncode: only the operations that `write_line_program` emits, with the 8-byte addresses it
  writes; the repository's own reader takes 4-byte addresses.
- LineProgram.RunBytesRuns: has the same limits.
- Leb128.DecodeEncodeU: numbers of any size, where the readers of the repository stop at their width.
- Leb128.DecodeEncodeS: likewise.
- ELF files, symbol tables, frame information, abbreviations and the header of the line table in
  `libraries/debug_eos_vm/dwarf.cpp`.
- FrameLayout: offsets of operand stack slots, which the source itself calls wrong for vectors.
- LinkModule.Link: requires that no function the targets reach calls itself, directly or not; on such a source the
  original does not return. Validation and garbage collection by the library, `ref.func`, imports other than
  functions, and types of blocks beyond the number of values they take and leave are not modelled.
- LinkCopy.Linker.ToDestBody: goes through the instructions by recursion where the original loops.
- DepSolve.Solve: starts from any model of the request, dependency and conflict clauses; the clauses for installed
  packages and the search for better models (`rust/psibase/src/depgraph.rs:320-396, 482-500`) only leave fewer
  models. Names and versions are numbers, and matching a version against a pattern is a parameter.
- Key strings, hashes and signatures around base58, and tokens around base64url.
- Allocators, mapped files, crash recovery, sockets, services and user interfaces.
