# Addictol: verified models

Dafny models of the parts of Addictol and its bundled libraries whose correctness rests on an invariant,
with proofs about every input, every run or every interleaving.

| files | what they model |
|---|---|
| `RobinHood.dfy`, `DenseTable.dfy`, `TableLaws.dfy` | the hash table of `unordered_dense`: the ring of buckets as values, the table as a class over an array of buckets, and what its operations mean for a finite map |
| `Wyhash.dfy` | the portable 64 by 64 bit multiplication of its hash function |
| `Addressing.dfy`, `AddressTheorems.dfy` | register expressions of the assembler, their ModR/M, SIB, displacement and REX encoding, and a decoder; which sums can be addressed |
| `Labels.dfy`, `LabelsCorrect.dfy`, `LabelTheorems.dfy`, `LabelMeaning.dfy`, `CodeGenerator.dfy` | label resolution of the assembler: the one-pass generator, the two-pass layout it is measured against, their agreement, what follows for finished code as a whole and statement by statement, and the generator as a class |
| `BurstRing.dfy`, `Modulo.dfy` | the single-producer single-consumer ring as interleaved atomic steps, and as an object |
| `ImageSeries.dfy`, `Starvation.dfy`, `Gcd.dfy` | the row drain with its rotating cursor, and which gauges it is sure to emit |
| `LineWindow.dfy` | the sixty-bucket line counter under concurrent compare-and-swap |
| `OwnedInflate.dfy`, `StreamAnswers.dfy`, `StreamRecords.dfy`, `StreamLives.dfy`, `OwnedStream.dfy`, `StreamRuns.dfy` | the owned zlib stream and its profile token: one stream as a transition system, what its caller sees, what its profile records, many streams over their lives, the objects, and runs on many objects |
| `PointerPatch.dfy` | replacing pointers in protected memory |
| `FacegenText.dfy` | reading and writing face-generation exceptions |
| `Words.dfy`, `Options.dfy` | machine words and their bytes, optional values |

Code that changes state is a class or a method over arrays, proved against a function of the old state;
the theorems are lemmas about those functions. Atomic operations are steps of a state machine, and the
theorems quantify over every sequence of steps. What the operating system, the allocator, the clock, the
hash function, the decoders and the profile source answer are parameters, so the results hold for every
answer.

`hide` statements only limit what the solver looks at; they assume nothing.

## Where the code does less than one might expect

Each of these is a theorem with its exact condition, and a lemma that shows an input.

- A backward near jump is range-checked against the start of the instruction, while the processor counts
  from its end. Jumps back over more than 2^31 - 5 bytes (2^31 - 6 with a prefix) and up to 2^31 are accepted
  and miss. All fields of finished code hit their labels if and only if it holds no such jump
  (`EveryFieldHits`, `AcceptedJumpMisses`).
- A 64-bit displacement is cut silently by the addressing-mode encoder. The operand addresses what was meant
  if and only if it is the sign extension of its low 32 bits, or addresses wrap at 32 bits (`EncodedAddress`,
  `CutDisplacement`).
- The telemetry drain rotates by its capacity even when it was given less room. A gauge in row r cannot
  starve from a cursor if and only if (r - cursor) mod gcd(capacity, row count) is below the room; so in a table
  that holds a gauge none can starve, wherever the cursor stands, if and only if the room is at least that gcd.
  While the number of rows has not changed since the start the condition is r mod gcd below the room
  (`GaugeServedExactly`, `NoneStarvesExactly`, `SameRowsServedExactly`, `SmallOutputStarves`).
- A logger may swap sixty seconds or more after reading the clock. The line counter is exact throughout a run
  if and only if every such swap found no line of the last sixty seconds in its bucket (`ExactExactly`,
  `LateLoggerHidesLine`).
- Initialising a stream that already owns a state, or copying onto it, drops that state. Every profile token
  is ended once if and only if no state is dropped while its token is live (`TokensSettledExactly`,
  `InitLosesToken`).
- A form ID is read back as it was written if and only if it holds no colon (`SerializeParse`,
  `ColonSplits`).

## Model

| member | source | states |
|---|---|---|
| `RobinHood.Reach` | Depends/unordered_dense/unordered_dense.h:1013-1023 | Every bucket between a stored key's home and its place holds an entry at least as far from its own home, so a probe that stops early cannot have passed the key |
| `RobinHood.SomeEmpty` | Depends/unordered_dense/unordered_dense.h:1080-1118 | Fewer entries than buckets leave an empty bucket, which is what ends every probe and shift loop |
| `RobinHood.DistanceBounded` | Depends/unordered_dense/unordered_dense.h:951-976 | A stored distance never exceeds the number of stored entries |
| `RobinHood.NeverFullTurn` | Depends/unordered_dense/unordered_dense.h:1025-1043 | No run of displaced entries goes all the way round the ring |
| `RobinHood.PlaceKeepsInv` | Depends/unordered_dense/unordered_dense.h:1025-1032 | Shifting buckets up keeps the ring invariant for the enlarged set of entries: stored distance is the true one plus one, indices stay injective and complete, a bucket is at most one step above its predecessor, empty buckets are zero |
| `RobinHood.PlaceOrdered` | Depends/unordered_dense/unordered_dense.h:1025-1032 | The ordering half of that, for any ring and any place a probe may stop at |
| `RobinHood.EraseKeepsInv` | Depends/unordered_dense/unordered_dense.h:1034-1043 | Shifting buckets back keeps the ring invariant for the reduced set: there are no tombstones |
| `RobinHood.EraseOrdered` | Depends/unordered_dense/unordered_dense.h:1034-1043 | The ordering half of that |
| `RobinHood.RenameKeepsInv` | Depends/unordered_dense/unordered_dense.h:1147-1167 | Pointing the bucket of the moved back value at its new index keeps the ring invariant under the renamed index |
| `DenseTable.HomeIsTopBits` | Depends/unordered_dense/unordered_dense.h:1000-1002 | The home of a key is the number that the top bits of its hash spell |
| `DenseTable.ProbeEnd` | Depends/unordered_dense/unordered_dense.h:1244-1283 | A probe that meets a smaller stored distance has shown that the key is absent |
| `DenseTable.ProbeLook` | Depends/unordered_dense/unordered_dense.h:1254-1267 | The two unrolled looks without the early exit read a valid value index whenever distance and fingerprint match |
| `DenseTable.StepOver` | Depends/unordered_dense/unordered_dense.h:1170-1181 | A colliding entry with equal distance and fingerprint but another key may be passed |
| `DenseTable.ProbePlace` | Depends/unordered_dense/unordered_dense.h:1200-1216 | The bucket where a probe ends is one where the new entry may be placed |
| `DenseTable.IndexErased` | Depends/unordered_dense/unordered_dense.h:1034-1043 | Erasing the bucket of a value leaves the index of exactly the other values |
| `DenseTable.IndexMoved` | Depends/unordered_dense/unordered_dense.h:1147-1167 | After the last value moves into the hole the buckets index the new vector one to one |
| `DenseTable.Table.constructor` | Depends/unordered_dense/unordered_dense.h:1306-1319 | An empty table with an empty index, in the smallest ring in which the requested number of entries fits, or the largest one |
| `DenseTable.Table.PlaceAndShiftUp` | Depends/unordered_dense/unordered_dense.h:1025-1032 | The swap loop leaves the ring in which the run from the place on has moved up by one with the new bucket before it |
| `DenseTable.Table.EraseAndShiftDown` | Depends/unordered_dense/unordered_dense.h:1034-1043 | The loop leaves the ring in which the displaced run has moved back by one and its last bucket is empty |
| `DenseTable.Table.NextWhileLess` | Depends/unordered_dense/unordered_dense.h:1013-1023 | Stops at a bucket where an entry of this key's hash may be placed, with its true packed distance there |
| `DenseTable.Table.ScanFor` | Depends/unordered_dense/unordered_dense.h:1796-1803 | The scan by value index finds the bucket of that value although empty buckets hold index 0 too |
| `DenseTable.Table.ClearAndFillBucketsFromValues` | Depends/unordered_dense/unordered_dense.h:1120-1130 | Rebuilds the index of all values in a ring of any size that has room |
| `DenseTable.Table.IncreaseSize` | Depends/unordered_dense/unordered_dense.h:1132-1144 | Doubles the ring and rebuilds the index, or reports overflow and changes nothing |
| `DenseTable.Table.Emplace` | Depends/unordered_dense/unordered_dense.h:1662-1692 | Appends the entry when the key is new and the table can take it, else leaves the values and reports the stored position or the overflow; the ring doubles exactly when an entry goes into a full table, and is the same object otherwise |
| `DenseTable.Table.TryEmplace` | Depends/unordered_dense/unordered_dense.h:1220-1241 | The same result and the same ring without building the value first |
| `DenseTable.Table.InsertOrAssign` | Depends/unordered_dense/unordered_dense.h:1191-1197 | Assigns in place when the key is present, else appends, growing as those do |
| `DenseTable.Table.Find` | Depends/unordered_dense/unordered_dense.h:1244-1283 | Returns the position of the key exactly when it is present and the end otherwise, for every hash function; the two unrolled probes and the early exit miss nothing |
| `DenseTable.Table.DoErase` | Depends/unordered_dense/unordered_dense.h:1147-1167 | Removes the value of a bucket, moves the back value into the hole and repairs its index |
| `DenseTable.Table.EraseAt` | Depends/unordered_dense/unordered_dense.h:1796-1808 | Erasing through an iterator removes that value and leaves a sound index |
| `DenseTable.Table.EraseKey` | Depends/unordered_dense/unordered_dense.h:1170-1188 | Removes the key and returns 1 when it is present, else returns 0 and changes nothing |
| `DenseTable.Table.EraseRange` | Depends/unordered_dense/unordered_dense.h:1836-1858 | Both loops together leave the prefix before the range untouched and remove exactly the range, in the long-tail and the short-tail case |
| `DenseTable.Table.EraseIf` | Depends/unordered_dense/unordered_dense.h:2215-2234 | Keeps exactly the entries that fail the predicate, tests each original entry once from the back, and returns how many went |
| `DenseTable.Table.ReplaceKey` | Depends/unordered_dense/unordered_dense.h:1750-1794 | Renames the key in place when the new one is absent, else returns where that one is and changes nothing |
| `DenseTable.Table.Clear` | Depends/unordered_dense/unordered_dense.h:1492-1495 | Empties the values and the index |
| `DenseTable.Table.CalcShiftsForSize` | Depends/unordered_dense/unordered_dense.h:1049-1055 | The smallest ring that takes the requested number of values, or the largest one |
| `DenseTable.Table.Rehash` | Depends/unordered_dense/unordered_dense.h:2028-2038 | Resizes and reindexes without touching the values, in the smallest ring that takes the requested number and the entries there are, or the largest one |
| `DenseTable.Table.Reserve` | Depends/unordered_dense/unordered_dense.h:2040-2053 | Never touches the values; the ring becomes the smallest one, from the present one on, that takes the requested number and the entries there are, or the largest one |
| `DenseTable.Table.Replace` | Depends/unordered_dense/unordered_dense.h:1543-1594 | Terminates, adopts the container with later duplicates overwritten by the back element, and rebuilds the index in the smallest ring, from the present one on, that takes the container |
| `TableLaws.Lookup` | Depends/unordered_dense/unordered_dense.h:1952-1968 | A key maps to a value exactly when some entry holds the pair |
| `TableLaws.EraseLaw` | Depends/unordered_dense/unordered_dense.h:1147-1167 | Swapping the back value into the hole removes exactly the one key from the map |
| `TableLaws.RekeyLaw` | Depends/unordered_dense/unordered_dense.h:1750-1794 | Renaming in place moves the mapped value from the old key to the new one |
| `TableLaws.RangeEraseLaw` | Depends/unordered_dense/unordered_dense.h:1836-1858 | After a range erase the prefix is untouched and the rest is a permutation of what followed the range |
| `TableLaws.EraseIfLaw` | Depends/unordered_dense/unordered_dense.h:2215-2234 | After erase_if the map is the old map restricted to the entries that fail the predicate |
| `TableLaws.DedupedLaw` | Depends/unordered_dense/unordered_dense.h:1543-1594 | After replace every key of the container is present exactly once and every surviving pair came from the container |
| `TableLaws.DedupedExactly` | Depends/unordered_dense/unordered_dense.h:1558-1593 | Which entries survive and where: the first ones in place, each hole filled from the back, passing over keys already held |
| `TableLaws.OneWayToSurvive` | Depends/unordered_dense/unordered_dense.h:1558-1593 | That description fits only one vector |
| `TableLaws.ReplaceExactly` | Depends/unordered_dense/unordered_dense.h:1543-1594 | So replace leaves exactly the vector with the container's keys, each once, of the entries that so survive |
| `TableLaws.SmallestOfBoth` | Depends/unordered_dense/unordered_dense.h:1049-1055 | A ring grown step by step is the smallest for all that was asked of it |
| `TableLaws.RingAfter` | Depends/unordered_dense/unordered_dense.h:1132-1144 | Each operation keeps the ring the smallest, from where growing started, that takes the most entries there were or were asked for |
| `Wyhash.Mum` | Depends/unordered_dense/unordered_dense.h:167-183 | The portable 32-bit halves give the exact product: hi * 2^64 + lo == a * b for all 64-bit a and b |
| `Wyhash.CarryIsLostBit` | Depends/unordered_dense/unordered_dense.h:177-180 | Comparing a wrapped sum with one of its parts tells exactly whether a carry was lost |
| `TableLaws.StepAsMap` | Depends/unordered_dense/unordered_dense.h:1169-1286 | One operation on the value vector, with what its caller learns, is that operation on a finite map with the map's answer: emplace, try_emplace, insert_or_assign, find, erase by key and by iterator, erase_if, replace_key, clear, rehash, reserve and replace |
| `TableLaws.RunsAsMap` | Depends/unordered_dense/unordered_dense.h:1169-1286 | Any sequence of them is the same sequence on the map, and every answer on the way is the map's |
| `TableLaws.Apply` | Depends/unordered_dense/unordered_dense.h:1169-1286 | One call of the method itself does what the step on the vector says, or is refused and changes nothing |
| `TableLaws.ApplyAll` | Depends/unordered_dense/unordered_dense.h:1169-1286 | A whole run of calls on a table is that run on a finite map: the entries at the end and all answers, for any hash function; and the ring is the smallest, from the one before the run on or of all since the last rehash, that takes the most entries there were or were asked for |
| `Addressing.BuildKeepsMeaning` | Depends/xbyak/xbyak.h:615-643 | The register expression built from a sum has the address of the sum modulo 2^64, including base + base and the ESP swap |
| `Addressing.PlusAdds` | Depends/xbyak/xbyak.h:615-634 | Adding two expressions adds their addresses |
| `Addressing.MinusSubtracts` | Depends/xbyak/xbyak.h:639-644 | Subtracting a displacement subtracts it from the address |
| `Addressing.OptimizeKeepsAddress` | Depends/xbyak/xbyak.h:575-585 | Turning reg*2 into reg+reg changes neither the address nor what is accepted, and never lengthens the encoding |
| `Addressing.DecodeEncode` | Depends/xbyak/xbyak.h:912-957 | A decoder written from sections 2.1.5 and 2.2.1 of the Intel SDM volume 2A reads back base, index, scale and displacement, in at most 6 bytes |
| `Addressing.EncodedAddress` | Depends/xbyak/xbyak.h:912-957 | The encoded operand addresses what the expression means if and only if its displacement is a sign-extended 32-bit number or addresses wrap at 32 bits |
| `AddressTheorems.PlusExactly` | Depends/xbyak/xbyak.h:615-634 | Adding succeeds if and only if at most two registers come together of which at most one must be the index; which register is base and which is index, with the stack pointer always the base |
| `AddressTheorems.BuildExactly` | Depends/xbyak/xbyak.h:560-634 | A sum of registers is accepted if and only if each addresses with a legal scale, there are at most two, and at most one is scaled or a vector register; with its base, index, scale and displacement |
| `AddressTheorems.BracketExactly` | Depends/xbyak/xbyak.h:594-601 | An accepted sum can be addressed if and only if its general registers have the same width and its index is not the stack pointer; else which error it is |
| `AddressTheorems.SumToAddress` | Depends/xbyak/xbyak.h:987-990 | From the sum a caller writes to the address the processor computes: every such sum is encoded, and addresses what was written if and only if the displacement fits |
| `AddressTheorems.EncodeIsShortest` | Depends/xbyak/xbyak.h:922-952 | No shorter bytes are read as the same operand |
| `AddressTheorems.OptimizeShortens` | Depends/xbyak/xbyak.h:575-585 | The rewriting of reg*2 saves bytes exactly for a lone index with a displacement of one byte |
| `AddressTheorems.RexExactly` | Depends/xbyak/xbyak.h:953-955 | A REX prefix is there exactly when a register of the upper eight needs it, and sets nothing else |
| `Addressing.CutDisplacement` | Depends/xbyak/xbyak.h:912-957 | [rax + 0x80000000] is accepted and addresses something else |
| `Words.ReadLE4` | Depends/xbyak/xbyak.h:755-757 | A 32-bit word written by dd is read back |
| `LabelsCorrect.FillOneMore` | Depends/xbyak/xbyak.h:1066-1097 | Defining one more label fills exactly the fields that refer to it |
| `LabelsCorrect.ResolveAllFills` | Depends/xbyak/xbyak.h:1066-1097 | Resolving the pending list of a label does to the code what filling its fields does, rewritten at once or saved |
| `LabelsCorrect.LookupAgrees` | Depends/xbyak/xbyak.h:1186-1206 | A lookup finds the label the reference stands for, through scopes and the two anonymous names |
| `LabelsCorrect.JumpAgrees` | Depends/xbyak/xbyak.h:1354-1387 | A jump, forward or backward, short or near, leaves the generator and the two-pass layout in agreement |
| `LabelsCorrect.RelativeAgrees` | Depends/xbyak/xbyak.h:1896-1915 | A rip-relative field keeps the agreement |
| `LabelsCorrect.AddressAgrees` | Depends/xbyak/xbyak.h:1896-1915 | An address field keeps the agreement, written now, patched later or saved until the end |
| `LabelsCorrect.AnonDefined` | Depends/xbyak/xbyak.h:1154-1173 | Defining an anonymous label keeps the agreement although a stored name is forgotten |
| `LabelsCorrect.NameDefined` | Depends/xbyak/xbyak.h:1154-1173 | Defining a global or scoped name keeps the agreement |
| `LabelsCorrect.ObjectDefined` | Depends/xbyak/xbyak.h:1174-1178 | Defining a label object keeps the agreement |
| `LabelsCorrect.LeaveAgrees` | Depends/xbyak/xbyak.h:1147-1152 | Leaving a local scope forgets nothing that is still waited for |
| `LabelsCorrect.EmitAgrees` | Depends/xbyak/xbyak.h:1354-1387 | Every statement keeps the agreement |
| `LabelsCorrect.OnePassIsTwoPasses` | Depends/xbyak/xbyak.h:1066-1097 | The finished code of an accepted program is the layout with every field filled in after the fact |
| `LabelTheorems.FieldHits` | Depends/xbyak/xbyak.h:1084-1089 | The bytes of a field, read little-endian and sign-extended, arrive at the label exactly when the distance passes the range checks |
| `LabelTheorems.FillAt` | Depends/xbyak/xbyak.h:798-806 | A field holds its own value at the end and bytes outside all fields are as emitted |
| `LabelTheorems.AcceptedExactly` | Depends/xbyak/xbyak.h:1066-1097 | A program is accepted if and only if each statement is admissible, told from the layout alone |
| `LabelTheorems.UndefinedExactly` | Depends/xbyak/xbyak.h:2174-2182 | ready() complains if and only if some field refers to a label that was never defined |
| `LabelTheorems.BuffersAgree` | Depends/xbyak/xbyak.h:689-709 | A fixed buffer accepts exactly what a growing one accepts and it has room for, and both finish with the same code at the same address or the same complaint |
| `LabelTheorems.ProgramReaches` | Depends/xbyak/xbyak.h:1354-1387 | An accepted program leaves every relative field with a distance that fits if and only if no near jump backwards is overlong, counted from the end of the instruction |
| `LabelTheorems.SmallCodeReaches` | Depends/xbyak/xbyak.h:1354-1387 | Code of at most 2^31 bytes holds no overlong jump |
| `LabelTheorems.EveryFieldHits` | Depends/xbyak/xbyak.h:702-709 | In finished code a relative field hits its label if and only if its distance fits, all do if and only if no jump is overlong, every address field holds its address, and all other bytes are untouched |
| `LabelTheorems.AcceptedJumpMisses` | Depends/xbyak/xbyak.h:1368-1375 | A label, 2^31 - 4 bytes and a near jump back: accepted and finished, and the jump misses |
| `LabelTheorems.AnonymousTurns` | Depends/xbyak/xbyak.h:1154-1202 | At most one of the two stored anonymous names is defined at a time, and pending references carry the other |
| `LabelTheorems.NextAnonymous` | Depends/xbyak/xbyak.h:1186-1202 | A reference to @f resolves to the first @@ after it |
| `LabelTheorems.LastAnonymous` | Depends/xbyak/xbyak.h:1186-1202 | A reference to @b resolves to the last @@ before it |
| `LabelMeaning.StatementMeans` | Depends/xbyak/xbyak.h:1354-1387 | What each statement of an accepted program is in the finished code: raw bytes; a short jump or the prefix, the long code and four bytes, leading from its end to its label unless more than 2^31 bytes back; a rip-relative distance; an address |
| `LabelMeaning.WaitingReaches` | Depends/xbyak/xbyak.h:1084-1089 | A reference that waits for its label reaches it once it is defined |
| `LabelMeaning.ScopeAfter` | Depends/xbyak/xbyak.h:1142-1152 | Scopes nest: a scope is open again after what lies within it, and once left is left for good |
| `LabelMeaning.NamesMeet` | Depends/xbyak/xbyak.h:1154-1206 | The same label at two places is the same address if and only if its name does not start with a dot or the two are in the same scope |
| `LabelMeaning.NamedBackwards` | Depends/xbyak/xbyak.h:1154-1206 | A reference leads to an earlier definition if and only if the label is not a local name or both are in the same scope |
| `LabelMeaning.NamedForwards` | Depends/xbyak/xbyak.h:1154-1215 | The same of a later definition |
| `CodeGenerators.CodeGenerator.GrowMemory` | Depends/xbyak/xbyak.h:689-698 | Doubles the buffer, to at least 4096 bytes, and keeps the code, or fails and changes nothing |
| `CodeGenerators.CodeGenerator.Db` | Depends/xbyak/xbyak.h:736-746 | Appends one byte, growing or failing as the buffer kind says, and only when it is full |
| `CodeGenerators.CodeGenerator.Rewrite` | Depends/xbyak/xbyak.h:798-806 | Overwrites exactly the named bytes with the little-endian value |
| `CodeGenerators.CodeGenerator.DefineInner` | Depends/xbyak/xbyak.h:1066-1097 | Defines a label and resolves all its pending references as the specification function does |
| `CodeGenerators.CodeGenerator.CalcJmpAddress` | Depends/xbyak/xbyak.h:702-709 | Applies all saved rewrites at the final address |
| `CodeGenerators.CodeGenerator.GetOffset` | Depends/xbyak/xbyak.h:1186-1206 | Looks a reference up in the scope and under the name in use |
| `CodeGenerators.CodeGenerator.AddUndefinedLabel` | Depends/xbyak/xbyak.h:1207-1215 | Appends the reference to the pending list of its scope |
| `CodeGenerators.CodeGenerator.OpJmp` | Depends/xbyak/xbyak.h:1368-1387 | Emits a jump or call in the form the specification function gives |
| `CodeGenerators.CodeGenerator.MakeJmp` | Depends/xbyak/xbyak.h:1354-1366 | Chooses between the short and the near form as the specification function does |
| `CodeGenerators.CodeGenerator.PutRelative` | Depends/xbyak/xbyak.h:1896-1915 | Emits a rip-relative field |
| `CodeGenerators.CodeGenerator.PutAddress` | Depends/xbyak/xbyak.h:1896-1915 | Emits an address field |
| `CodeGenerators.CodeGenerator.DefineSlabel` | Depends/xbyak/xbyak.h:1154-1173 | Defines a string label, alternating the two anonymous names |
| `CodeGenerators.CodeGenerator.DefineClabel` | Depends/xbyak/xbyak.h:1174-1178 | Defines a label object |
| `CodeGenerators.CodeGenerator.LeaveLocal` | Depends/xbyak/xbyak.h:1147-1152 | Pops the local scope unless it is the last one or still has pending references |
| `CodeGenerators.CodeGenerator.Ready` | Depends/xbyak/xbyak.h:2178-2182 | Fails on undefined labels, else finishes the code |
| `CodeGenerators.CodeGenerator.Perform` | Depends/xbyak/xbyak.h:1354-1387 | One statement by its own method does what the specification function says; with room for it the buffer stays, and else grows to at most twice what is needed |
| `CodeGenerators.CodeGenerator.Assemble` | Depends/xbyak/xbyak.h:2178-2182 | A whole program: the buffer then holds its finished code, with the conclusion of EveryFieldHits, or the error is the program's own, or a growing buffer ran out of memory; a fixed buffer assembles exactly the accepted programs that leave no label undefined, and a growing one is in the end at most twice as large as needed |
| `BurstRing.StepKeepsInv` | Addictol/Include/Telemetry/AdTelemetry.h:227-280 | Every atomic step of producer or consumer keeps the ring invariant |
| `BurstRing.DrainsArePrefix` | Addictol/Include/Telemetry/AdTelemetry.h:227-280 | Under every interleaving the drains are a prefix of the accepted records in order, consumed <= read <= published <= write <= consumed + capacity, and accepted plus overflow is the number of active calls |
| `BurstRing.RecordExactly` | Addictol/Include/Telemetry/AdTelemetry.h:227-250 | Under every interleaving: a call is refused if and only if, when it loaded the consumed count, the samples accepted and not released filled the ring; else its sample is accepted after all others |
| `BurstRing.DrainExactly` | Addictol/Include/Telemetry/AdTelemetry.h:252-269 | Under every interleaving: a drain takes as many samples as were accepted and not drained when it loaded, as far as there is room, oldest first |
| `BurstRing.ThreadsGoOn` | Addictol/Include/Telemetry/AdTelemetry.h:227-269 | In every reachable state each thread has a step to make: neither waits for the other |
| `BurstRing.RefusalsAreTaken` | Addictol/Include/Telemetry/AdTelemetry.h:271-280 | Taking the overflow has then reported every refusal so far |
| `BurstRing.NoOverwrite` | Addictol/Include/Telemetry/AdTelemetry.h:238-248 | The slot about to be written is never one still to be copied |
| `BurstRing.SingleProducerBurstSeriesBuffer.Record` | Addictol/Include/Telemetry/AdTelemetry.h:227-250 | Appends to the contents unless inactive or full, and counts the overflow |
| `BurstRing.SingleProducerBurstSeriesBuffer.Drain` | Addictol/Include/Telemetry/AdTelemetry.h:252-269 | Moves the oldest entries out in order |
| `BurstRing.SingleProducerBurstSeriesBuffer.DrainOverflow` | Addictol/Include/Telemetry/AdTelemetry.h:271-280 | Takes the overflow count and zeroes it |
| `ImageSeries.ScanEmits` | Addictol/Include/Telemetry/AdImageSeries.h:52-86 | The samples are those of the first due rows from the cursor on, and every other due row is counted as overflow |
| `ImageSeries.ScanRemembers` | Addictol/Include/Telemetry/AdImageSeries.h:59-85 | A gauge's remembered value changes only when it is emitted; what a drain does to one row depends on that row only |
| `ImageSeries.RowEmittedExactly` | Addictol/Include/Telemetry/AdImageSeries.h:50-86 | A row is emitted if and only if a gauge differs from what was last emitted, or a counter is not zero, and fewer such rows than the room come before it; once, with its values; the rest are counted |
| `ImageSeries.DueRowEmitted` | Addictol/Include/Telemetry/AdImageSeries.h:52-86 | A due row within the output size of the cursor is emitted whatever the others do |
| `Starvation.NoStarvation` | Addictol/Include/Telemetry/AdImageSeries.h:52-89 | A gauge that keeps differing is emitted by the first drain that starts near enough before it |
| `Starvation.EmittedExactly` | Addictol/Include/Telemetry/AdImageSeries.h:45-91 | A gauge is emitted within n drains, whatever the other rows do, if and only if one of them starts fewer rows before it than there is room |
| `Starvation.ReachedExactly` | Addictol/Include/Telemetry/AdImageSeries.h:87-89 | The rotating cursor comes that near if and only if the row's distance from it, modulo gcd(capacity, row count), is below the room; then within rows / gcd drains |
| `Starvation.GaugeServedExactly` | Addictol/Include/Telemetry/AdImageSeries.h:45-91 | Both together, for any kinds, cursor, row count, capacity and room: exactly which gauges cannot starve |
| `Starvation.NoneStarvesExactly` | Addictol/Include/Telemetry/AdImageSeries.h:45-91 | In a table that holds a gauge, whatever its other kinds: none can starve from any cursor if and only if the room is at least gcd(capacity, row count) |
| `Starvation.SameRowsServedExactly` | Addictol/Include/Telemetry/AdImageSeries.h:87-89 | While the number of rows is that of the start, a gauge cannot starve at any time if and only if its row modulo the gcd is below the room |
| `Starvation.DrainAll` | Addictol/Include/Telemetry/AdImageSeries.h:45-91 | A run of drains of the table object emits exactly what the run of scans does, and with it every gauge that cannot starve |
| `Starvation.EmittedWithinOneRound` | Addictol/Include/Telemetry/AdImageSeries.h:45-91 | With room for the capacity every gauge is emitted within ceil(rows / capacity) consecutive drains |
| `Starvation.SmallOutputStarves` | Addictol/Include/Telemetry/AdImageSeries.h:49-49 | Two rows, capacity two and room for one: the second can be skipped in every one of any number of drains |
| `ImageSeries.ImageSeriesTable.Drain` | Addictol/Include/Telemetry/AdImageSeries.h:45-91 | One drain does exactly what the scan says to counters, remembered values, cursor and overflow |
| `LineWindow.SwapShows` | Addictol/Source/Core/AdLogControl.cpp:43-53 | A swap in time leaves its bucket adding exactly the lines of the one second of the window that uses it |
| `LineWindow.LateShows` | Addictol/Source/Core/AdLogControl.cpp:43-53 | A late swap leaves a bucket that adds nothing |
| `LineWindow.TickShows` | Addictol/Source/Core/AdLogControl.cpp:73-81 | Time passing keeps every bucket adding what it should |
| `LineWindow.StepKeepsInv` | Addictol/Source/Core/AdLogControl.cpp:36-54 | Every atomic step keeps that of all buckets, late swaps included unless their bucket held lines of the window |
| `LineWindow.WindowIsExact` | Addictol/Source/Core/AdLogControl.cpp:73-81 | The sixty buckets then add up to the lines of the last sixty seconds |
| `LineWindow.LateSwapDropsLines` | Addictol/Source/Core/AdLogControl.cpp:43-53 | A late swap keeps the window exact if and only if its bucket held no line of the last sixty seconds |
| `LineWindow.ExactExactly` | Addictol/Source/Core/AdLogControl.cpp:36-81 | In every interleaving the window is exact in every state if and only if every late swap was such a harmless one |
| `LineWindow.RecentLinesAreCalls` | Addictol/Source/Core/AdLogControl.cpp:36-81 | When every call completes within sixty seconds of its clock reading, the reported number is that of the completed calls of the last sixty seconds, absent saturation |
| `LineWindow.LateLoggerHidesLine` | Addictol/Source/Core/AdLogControl.cpp:36-54 | From the initial state, a late logger makes another one's line vanish from the window |
| `LineWindow.CallIsCounted` | Addictol/Source/Core/AdLogControl.cpp:36-54 | However long a call takes and whatever runs beside it, what it logs is one line of the second in which it began |
| `LineWindow.SwapOrOtherDone` | Addictol/Source/Core/AdLogControl.cpp:43-53 | A swap after a look at the bucket succeeds, unless it fails spuriously or another call was completed since |
| `LineWindow.CountingSink.Log` | Addictol/Source/Core/AdLogControl.cpp:36-54 | One logged line is one more call in the window's history |
| `LineWindow.CountingSink.CopyStats` | Addictol/Source/Core/AdLogControl.cpp:67-84 | Reports the number of written lines, of flushes and of recent lines |
| `OwnedInflate.HeaderIsRfc1950` | Addictol/Include/Zlib/AdZlibInflate.h:97-103 | The bit tests accept exactly the headers of section 2.2 of RFC 1950 with method 8 and no preset dictionary |
| `OwnedInflate.ServedExactly` | Addictol/Include/Zlib/AdOwnedInflate.h:85-127 | When the first call of a lifetime is served whole; otherwise the stream is untouched and the reason names the first step towards a whole decode that failed |
| `OwnedInflate.StepAfter` | Addictol/Include/Zlib/AdOwnedInflate.h:66-162 | What an operation does depends on nothing that was logged before it |
| `OwnedInflate.ResetForgets` | Addictol/Include/Zlib/AdOwnedInflate.h:219-242 | After a successful Reset or Reset2 the stream goes on, over every sequence of calls, exactly as one just initialised with that window |
| `OwnedInflate.ServedConserves` | Addictol/Include/Zlib/AdOwnedInflate.h:107-120 | A whole decode moves bytes from available to total on both sides and loses none; exact unless the 32-bit totals wrap |
| `OwnedInflate.StepKeepsInv` | Addictol/Include/Zlib/AdOwnedInflate.h:66-162 | Done means outcome Whole with no reason, Streaming means outcome Streaming with a reason, and the token discipline holds, after every operation whatever it is answered |
| `OwnedInflate.RunKeepsInv` | Addictol/Include/Zlib/AdOwnedInflate.h:197-263 | The same over every sequence of calls |
| `OwnedInflate.DoneStep` | Addictol/Include/Zlib/AdOwnedInflate.h:130-162 | What one call can do to a finished stream |
| `OwnedInflate.DoneUntilReset` | Addictol/Include/Zlib/AdOwnedInflate.h:197-263 | From Done until a successful Reset or Reset2, over every sequence of calls: controls and ResetKeep fail, well-formed Inflate returns the end, and nothing but the caller moves the stream |
| `OwnedInflate.SinceAdmission` | Addictol/Include/Zlib/AdZlibOperationProfile.h:81-111 | From an admission on, either the time so far is being summed or the token was ended once with the sum |
| `OwnedInflate.TokenEndedOnce` | Addictol/Include/Zlib/AdZlibOperationProfile.h:81-111 | In every run each admitted token is ended exactly once before its lifetime is over, with the time of every decompression call of the lifetime up to the ending one, under a result of its own backend |
| `OwnedInflate.RecordsAreApart` | Addictol/Include/Zlib/AdZlibOperationProfile.h:105-111 | No lifetime ends two tokens, also when the stream is never reset or ended |
| `StreamAnswers.InflateAnswers` | Addictol/Include/Zlib/AdOwnedInflate.h:197-217 | What a decompression call answers: when it fails and changes nothing, when it ends the stream at once, and else the streaming decoder's own result and stream |
| `StreamAnswers.WholeDecodeMoves` | Addictol/Include/Zlib/AdOwnedInflate.h:107-120 | A call that ends the stream at once moves the input by what the whole decoder consumed and the output by what it produced, and takes the checksum from the last four bytes consumed |
| `StreamAnswers.LifetimeStarts` | Addictol/Include/Zlib/AdOwnedInflate.h:66-83 | Initialising and a successful reset leave an undecided stream with nothing read or written and the decoder's first checksum |
| `StreamAnswers.RefusedReset` | Addictol/Include/Zlib/AdOwnedInflate.h:219-242 | A reset that the decoder refuses gives its reason and changes nothing the caller sees |
| `StreamAnswers.KeepingAnswers` | Addictol/Include/Zlib/AdOwnedInflate.h:244-263 | What ResetKeep answers: no new attempt at a whole decode, and nothing changed where the decoder cannot or refuses |
| `StreamAnswers.ControlAnswers` | Addictol/Include/Zlib/AdOwnedInflate.h:129-162 | What a control answers: the decoder's result, after which no whole decode is attempted, or an error that changes nothing |
| `StreamAnswers.ProfileIsInvisible` | Addictol/Include/Zlib/AdZlibOperationProfile.h:64-113 | Over every run of calls results and stream are the same whether the stream is profiled or not and whatever its profile holds |
| `StreamAnswers.CopyAnswersAlike` | Addictol/Include/Zlib/AdOwnedInflate.h:280-305 | A copy answers every run of calls as its source would have |
| `StreamRecords.StepLogs` | Addictol/Include/Zlib/AdZlibOperationProfile.h:81-111 | What each call logs, told from the log before it: the first decompression call of a lifetime admits a token when a source samples it, every one is timed, and a running token is ended by a final result, a reset, or a failing control, with its time, the bytes written and how the stream was served |
| `StreamRecords.StepRecords` | Addictol/Include/Zlib/AdZlibOperationProfile.h:105-111 | A call records the stream as the call began or as it returned |
| `StreamRecords.ResultIsPosition` | Addictol/Include/Zlib/AdZlibOperationProfile.h:10-61 | A result is the position, in the list of the profile's rows, of its backend and of how the stream was served; an admission is the position of its backend |
| `StreamRecords.RecordTells` | Addictol/Include/Zlib/AdZlibOperationProfile.h:46-61 | In every run that is ended each record is of a state the stream was in, with the bytes then written, and its number stands for the row of that backend and outcome |
| `OwnedInflate.FinishedCodes` | Addictol/Include/Zlib/AdOwnedInflate.h:197-263 | What each call of a run on a finished stream returns |
| `StreamLives.SettledExactly` | Addictol/Include/Zlib/AdZlibOperationProfile.h:81-111 | From a log alone: every token admitted was ended once in its lifetime if and only if none is running at the end |
| `StreamLives.TokensSettledExactly` | Addictol/Include/Zlib/AdOwnedInflate.h:172-305 | For every run of any number of streams, with repeated initialisation and copies onto owned streams: every token of every ended or displaced state was ended once if and only if no state was displaced while its token was live |
| `StreamLives.InitLosesToken` | Addictol/Include/Zlib/AdOwnedInflate.h:189-194 | A stream initialised again after its first call and then ended: its first token is never ended |
| `StreamLives.NothingForgotten` | Addictol/Include/Zlib/AdOwnedInflate.h:172-305 | The log of every state is found again in the one its stream owns or among the past ones, so the theorem speaks of all tokens once all streams have ended |
| `OwnedStream.State.EndProfile` | Addictol/Include/Zlib/AdZlibOperationProfile.h:105-111 | Ends a live token with the time so far and forgets it |
| `OwnedStream.State.BeginProfile` | Addictol/Include/Zlib/AdZlibOperationProfile.h:81-90 | Asks for a token once per lifetime |
| `OwnedStream.State.Reset` | Addictol/Include/Zlib/AdOwnedInflate.h:66-83 | Starts a new lifetime after ending the old one's token |
| `OwnedStream.State.Choose` | Addictol/Include/Zlib/AdOwnedInflate.h:85-127 | Decides who serves the stream and why |
| `OwnedStream.State.MeasuredInflate` | Addictol/Include/Zlib/AdOwnedInflate.h:197-217 | One decompression call, measured, with its token ended on a final result |
| `OwnedStream.Init2` | Addictol/Include/Zlib/AdOwnedInflate.h:172-195 | Succeeds exactly when version, size, stream, memory and decoder allow it, and else gives the first reason and leaves the stream alone; a state the stream owned is displaced as it stands |
| `OwnedStream.Inflate` | Addictol/Include/Zlib/AdOwnedInflate.h:197-217 | Does to the stream what the step function says; an unowned stream is an error and untouched |
| `OwnedStream.Restart` | Addictol/Include/Zlib/AdOwnedInflate.h:219-242 | Reset and Reset2 |
| `OwnedStream.ResetKeeping` | Addictol/Include/Zlib/AdOwnedInflate.h:244-263 | ResetKeep, which ends the token even when it fails |
| `OwnedStream.Controlled` | Addictol/Include/Zlib/AdOwnedInflate.h:149-162 | The native controls |
| `OwnedStream.Header` | Addictol/Include/Zlib/AdOwnedInflate.h:314-321 | GetHeader, with its null check |
| `OwnedStream.MarkPosition` | Addictol/Include/Zlib/AdOwnedInflate.h:330-339 | Mark |
| `OwnedStream.End` | Addictol/Include/Zlib/AdOwnedInflate.h:265-278 | Ends the token and the stream, which leaves no token of its log unended |
| `OwnedStream.Copy` | Addictol/Include/Zlib/AdOwnedInflate.h:280-305 | Copies the policy and the view but not the token; a state of the destination is displaced as it stands |
| `OwnedStream.Perform` | Addictol/Include/Zlib/AdOwnedInflate.h:197-305 | Any call by its own method keeps the state valid and does what the step function says |
| `OwnedStream.PerformAll` | Addictol/Include/Zlib/AdOwnedInflate.h:197-305 | A run of calls does to the objects what the run function says; a finished stream stays finished and answers as one |
| `OwnedStream.Live` | Addictol/Include/Zlib/AdOwnedInflate.h:197-278 | From any valid state to the end of the stream: every token was ended once, with the time of its calls |
| `StreamRuns.Enact` | Addictol/Include/Zlib/AdOwnedInflate.h:172-305 | One act on one of several stream objects by its own method: the streams own what the world says, and the state that went is the one whose log it records |
| `StreamRuns.EnactAll` | Addictol/Include/Zlib/AdOwnedInflate.h:172-305 | Any acts on any number of stream objects: of all states ended or displaced on the way, every token was ended once if and only if none was displaced while its token was live |
| `PointerPatch.ReverseRestores` | Addictol/Source/Core/AdIAT.cpp:95-104 | Restoring the records in reverse order gives back every protection, however the slots share pages |
| `PointerPatch.ForwardRestoresIff` | Addictol/Source/Core/AdIAT.cpp:95-104 | Restoring in forward order would do if and only if no two slots share a page that opening changes |
| `PointerPatch.CheckedNow` | Addictol/Source/Core/AdIAT.cpp:67-76 | Checking a slot in the half-opened memory is the same as checking it in the original memory |
| `PointerPatch.LastTargetStays` | Addictol/Source/Core/AdIAT.cpp:106-111 | A slot ends with the target listed last for it |
| `PointerPatch.WrittenReplaces` | Addictol/Source/Core/AdIAT.cpp:106-111 | And all other slots keep what they held |
| `PointerPatch.PageIsOpen` | Addictol/Source/Core/AdIAT.cpp:78-84 | Every page is writable while the targets are stored, executable if it was so, and nothing else |
| `PointerPatch.Memory.PreparePointers` | Addictol/Source/Core/AdIAT.cpp:64-93 | Succeeds exactly when every slot is acceptable as memory stood; on failure no protection is changed; on success the records undo the opening and hold the original pointers |
| `PointerPatch.Memory.RestorePointersProtection` | Addictol/Source/Core/AdIAT.cpp:95-104 | Puts the records back, the last one first |
| `PointerPatch.Memory.PublishPointers` | Addictol/Source/Core/AdIAT.cpp:106-111 | Stores every target and gives back the original protections |
| `PointerPatch.Memory.PrepareInterface` | Addictol/Source/Telemetry/AdPluginCallbacks.cpp:25-38 | A foreign pointer also leaves every protection as it was |
| `PointerPatch.Memory.Install` | Addictol/Source/Telemetry/AdPluginCallbacks.cpp:58-62 | All or nothing: protections never change in the end, slots only if all may be replaced, and then to their last targets with the originals recorded |
| `FacegenText.TrimmedBetween` | Addictol/Include/Modules/AdFacegenExceptions.h:116-127 | Trimming finds the tight text between any blanks |
| `FacegenText.TrimmedIsTight` | Addictol/Include/Modules/AdFacegenExceptions.h:116-127 | Trimmed text has no blank at either end and keeps every character that is not blank |
| `FacegenText.Field.Trim` | Addictol/Include/Modules/AdFacegenExceptions.h:116-127 | Trims the field in place |
| `FacegenText.SerializeParse` | Addictol/Include/Modules/AdFacegenExceptions.h:256-273 | Parsing a serialised value gives back the trimmed form ID and plugin, none if blank, if and only if the form ID holds no colon |
| `FacegenText.ColonSplits` | Addictol/Include/Modules/AdFacegenExceptions.h:129-146 | The form ID 1:2 comes back as the form ID 1 of the plugin 2 |
| `FacegenText.ParseSerialize` | Addictol/Include/Modules/AdFacegenExceptions.h:129-146 | Parsed text survives being written and read again |
| `FacegenText.StrtoulDigits` | Addictol/Include/Modules/AdFacegenExceptions.h:184-195 | The C conversion of pure digits uses them all, and is in range exactly when their positional value is |
| `FacegenText.StrtoulReads` | Addictol/Include/Modules/AdFacegenExceptions.h:149-159 | The C conversion of any text: what it uses, when it is out of range, the largest value then, and a minus sign negating modulo the width |
| `FacegenText.TryParseFormID` | Addictol/Include/Modules/AdFacegenExceptions.h:161-197 | Accepts exactly the trimmed decimal or 0x-hexadecimal texts of a value up to 2^32-1, and returns that value |
| `FacegenText.ValueDigits` | Addictol/Include/Modules/AdFacegenExceptions.h:149-159 | Digits are those of their value, but for case |
| `FacegenText.DenotesExactly` | Addictol/Include/Modules/AdFacegenExceptions.h:161-197 | What a text denotes, told from the number: but for case and blanks, 0x and its last hexadecimal digits or its last decimal digits, found by repeated division, as many as it takes or more |
| `FacegenText.DecimalIsRead` | Addictol/Include/Modules/AdFacegenExceptions.h:149-159 | Every number is read back from its decimal digits, with or without leading zeros and blanks |
| `FacegenText.CaseIsIdle` | Addictol/Include/Modules/AdFacegenExceptions.h:149-159 | Upper and lower case denote the same, in the digits and in the prefix |
| `FacegenText.PrintedIsRead` | Addictol/Source/Modules/AdModuleFacegen.cpp:215-215 | The form ID as the log prints it is read back, blanks around it or not |

## Left out

- The table's largest bucket count: the ring stops growing at 2^31 buckets (`MIN_SHIFTS`), where the model reports the overflow; the clamped bucket count of the 32-bit index is not modelled.
- The load factor is a policy `capacityFor` with 0 < capacity < buckets that is larger in a larger ring, in place of the floating-point product, which has these properties for every load factor below one that leaves room for an entry in the smallest ring.
- Stored distances are unbounded numbers: the 24 bits of the packed field are assumed to suffice, and `DistanceBounded` says how large they can get.
- Allocators, exceptions of user code, copies, moves and segmented storage of the table, and `extract`, which erases like `erase`.
- Table.IncreaseSize: reports the overflow at 2^31 buckets, one doubling before the program, because of that bound.
- Table.CalcShiftsForSize: stops at a ring of 2^31 buckets where the program goes on, because of that bound.
- Table.Replace: the container is adopted by value and refused from 2^31 entries on, because of that bound.
- Range erase is no operation of the runs on a map, because which entries it takes depends on their order.
- Hash quality: every theorem holds for any hash function.
- opJmpAbs, label assignment, label copies and reference counts, and the mnemonic tables of the assembler.
- Executable protection of finished code (`ready` also asks for it) and the user-supplied allocator, whose failure is one limit `MAX_ALLOC` on the buffer size.
- VEX encoding and 32-bit builds: the addressing model is the 64-bit one.
- Rip-relative operands without a label, which are a range check and a little-endian word.
- Weak memory ordering: atomics are sequentially consistent steps. The ring's counters do not wrap at 64 bits.
- SingleProducerBurstSeriesBuffer.Record: the record's fields are one value, and the debug check of the producer thread is not modelled.
- ImageSeriesTable.Drain: tick scaling and bucket names are not modelled, and counters are read once per row rather than field by field.
- CountingSink.Log: the object runs one logger at a time, where the swap succeeds at once; concurrent loggers and spurious failures are in the state machine of the same module.
- CountingSink.CopyStats: no logger runs while the buckets are read; in the state machine it reads them in one step.
- The clock of the line counter does not run backwards and stays below 2^32 seconds.
- Inside the zlib stream: the stream mirror, its held byte and checksums, the decoders, and the output bytes themselves. A decoder's answer is any view and any code.
- The `Init` shortcut, which calls `Init2` with a window of 15 bits. A null version string is the empty string here.
- OwnedStream.Copy: the mirror and the decoder state are not copied because they are not modelled.
- The profile source's sampling, its records and its capture generations: only admitted or not, and what is ended, are modelled.
- Restoring a protection is taken to succeed; page flags other than the guard are not modelled.
- Duplicate and empty keys of face-generation drafts, comments, and the settings file around them.
- Hooks, registration, menus, configuration, metric labels and the Visper allocator: no logic of this kind.
