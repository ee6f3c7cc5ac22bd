# A verified model of parts of dtrace-utils

This project models, in Dafny, the parts of dtrace-utils where an error would be hardest
to see, and proves what they promise: BTF type and string deduplication, the back end of
the D compiler from expressions to a linked image, the arithmetic and data path of
aggregations, the ordering of definitions when BTF is dumped as C, and thread-local
variables. `dafny verify dfyconfig.toml` checks everything.

Code that works by changing things in place is modelled in that form (classes with fields
and arrays, methods with loops); each such method is proved against a specification
function or predicate, and the theorems are about those.

## How it is organised

BTF deduplication (libbpf/btf.c, libbpf/hashmap.c):

- `BtfGraph`: type records, the graph they form, and what it means for two ids to describe
  the same type: their unfoldings agree at every depth. This is the greatest bisimulation. A
  second notion lets a forward declaration agree with every type it may announce.
- `CanonMap`: the canonical map as a forest; roots, ranks, joining.
- `DedupTheory`, `DedupCompact`, `DedupErrors`: what the passes compare, why their links are
  right, why the compacted graph is the quotient, and when the passes fail.
- `Dedup`: the passes themselves. `DedupForwards`: where resolving forward declarations goes wrong.
- `BtfStrings`: the string section.
- `HashMap`: the candidate table, in module `HashMaps`.

The D compiler's back end (libdtrace/dt_cg.c, dt_as.c, dt_cc.c):

- `Bpf`: the BPF instructions used and their execution, after sections 4.1, 4.3 and 5.4 of
  RFC 9669. `Arith` and `Wrappers` hold shared arithmetic and the optional value.
- `Assembler`: the labelled instruction list, its execution, and the assembler.
- `CodeGen`, `CodeGenProof`, `CodeGenLabels`: the code of an expression, that running it
  gives the expression's value, that its labels are in order, and the registers it needs.
- `Generator`: the generator that appends code and allocates registers.
- `LinkSpec`, `Linker`: the linked image and the passes that build it (module `Linking`).

Aggregations (libdtrace/dt_cg.c, libdtrace/dt_aggregate.c, bpf/agg_*.c):

- `Llquantize`, `Quantize`, `Stddev`: the bins, weights and squares the generated code computes.
- `Latch`: the two-copy latch. `Snapshot`: merging the data of all CPUs.
- `KeyOrder`, `Joined`: key comparison and the joined walk.

Definition order (libbpf/btf_dump.c): `DumpOrder` (what must come first), `DumpStrong` (what must
come first even behind a pointer), `DumpOnce` (when a definition is queued once), `DumpStack` (when
the recursion ends), `DumpSuccess` (when ordering succeeds), `Dumper` (module `Dumping`).

Thread-local variables (bpf/get_tvar.c): `Tls`.

## What turned out differently from what the code or its comments say

- Growing a hash table reverses the order of each key's entries, so the remark that a lookup
  returns the entry inserted last (libbpf/hashmap.h:72-74) holds only until the table grows. A
  lookup survives growth exactly if the key's first and last values are equal
  (`HashMaps.HashMap.Grow`); `HashMaps.OlderEntryFound` is a run of four insertions where it does not.
- The signed remainder sequence follows C only for positive divisors or a zero remainder
  (`CodeGen.ModuloMatchesC`).
- Until assembly a branch keeps its label number in the 16-bit offset field. A label number from
  2^15 on therefore makes the assembler stop at its assertion, or is taken for a smaller one
  (`Assembler.StopsExactly`; `Assembler.LabelTooLarge` and `Assembler.JumpLost` are such lists). The
  list is assembled as it was meant exactly if all label numbers are below 2^15
  (`Assembler.StoredSame`), as they are for expressions that use fewer labels (`CodeGenLabels.FewLabels`).
- The carry test of the 128-bit square is strict, so squares of values whose magnitude has a
  zero low half come out 2^64 too large (`Stddev.Square`).
- Merging standard deviations of several CPUs drops the carry between the words
  (`Snapshot.StddevMerge`).
- With resolution of forward declarations on, which is the default, deduplication can join
  structs of one name whose members differ: a declaration resolved to one of them is paired with
  the other (`DedupForwards.DifferentStructsJoined`, `DedupForwards.RunAmbiguous`). Meaning
  is kept if no declaration is ambiguous, that is, if types that one declaration may announce are
  the same up to declarations (`DedupCompact.QuotientSame`); joining types that are the same in this
  sense keeps them the same exactly then (`BtfGraph.UnambiguousExactly`). Whether an
  ambiguous declaration does harm depends on the order of the records: in the example one of the
  structs has not been processed yet when the declaration is met against both.
- A definition can be queued twice: a typedef that stands for a function type and is
  reached again from it (`DumpOnce.QueuedTwice`). It cannot if no function type leads back to a
  typedef, array or modifier that stands for it, other than through a pointer to a named struct or
  union (`DumpOnce.OrderOnce`). Where one does, it depends on the order of the calls: on the same
  graph nothing is queued twice if the struct is dumped first (`DumpOnce.QueuedOnce`).
- A cycle of pointers, typedefs, arrays and modifiers is not detected while ordering definitions:
  the recursion uses up any stack (`DumpStack.StraightLoopRunsOn`; `DumpStack.TypedefOfItself` is
  such a graph). Through function types a cycle without a struct or union never succeeds
  (`DumpStack.LoopNeverEnds`), but an earlier parameter may fail first. On all other graphs the
  recursion ends (`DumpStack.OrderEnds`, `DumpStack.RankedOrLoop`). Deduplication does detect such cycles.
- Ordering marks a pointer as done even if what it points to failed, so after a failed call
  definitions can be queued before what they need (`DumpStrong.AfterFailure`).
- A call to the program's own identifier is not given the program's address by the linker: it
  lands on the program exactly if the identifier happened to hold 0 (`LinkSpec.CallToItself`,
  `LinkSpec.CallGoesAstray`); libdtrace/dt_bpf.c is not part of this model.
- Packed keys of thread-local variables collide with those of an idle CPU exactly if the thread id
  plus the number of CPUs reaches 2^32 (`Tls.KeysCollide`).
- Keys whose components of one size were made by different actions can each compare as greater
  than the other (`KeyOrder.NotAntisymmetric`).

## Model

| member | source | states |
|---|---|---|
| `BtfGraph.BisimulationAgrees` | libbpf/btf.c:2157-2254 | Any relation that respects record contents and references position by position relates only types whose unfoldings agree at every depth, also up to forward declarations; this is the sense in which the struct traversal's recorded pairs justify merging |
| `BtfGraph.SameIsBisimulation` | libbpf/btf.c:2157-2254 | Agreement of unfoldings is itself such a relation, so it is the greatest one: cyclic types are compared without ever unfolding them |
| `BtfGraph.AgreeTrans` | libbpf/btf.c:2418-2462 | Agreement is transitive; up to forward declarations, if none of these is ambiguous. It is why joining roots is sound |
| `BtfGraph.UnambiguousExactly` | libbpf/btf.c:2140-2153 | Being the same up to forward declarations is transitive exactly if types announced by one declaration are the same |
| `BtfGraph.ForwardFreeAgree` | libbpf/btf.c:1419 | Without forward declarations it makes no difference whether they are resolved |
| `BtfGraph.SameFolds` | libbpf/btf.c:2157-2254 | Two records with the same contents whose references pairwise describe the same types describe the same type |
| `BtfGraph.SetRef` | libbpf/btf.c:2578-2684 | Rewriting one reference of a record changes exactly that reference |
| `BtfGraph.SetRefKeepsShape` | libbpf/btf.c:2578-2684 | Rewriting a reference leaves kind, name, sizes, member names and offsets alone |
| `CanonMap.Relink` | libbpf/btf.c:2418-2462 | Linking a root to an id that does not lead back to it keeps the canonical map free of cycles |
| `CanonMap.JoinedRoot` | libbpf/btf.c:2418-2462 | After joining, everything that resolved to the old root resolves to the new one and all other roots are unchanged |
| `DedupTheory.StructMeaning` | libbpf/btf.c:1865-1889 | The shallow struct test accepts exactly records that agree in everything except the member types |
| `DedupTheory.FnProtoMeaning` | libbpf/btf.c:1967-2014 | The two prototype tests mean equality, and equality up to the referenced ids |
| `DedupTheory.EqualRefMeaning` | libbpf/btf.c:1759-1765 | The tests used on reference types after resolution mean equality of records |
| `DedupTheory.EqualPrimMeaning` | libbpf/btf.c:1778-1842 | The tests on ints, enums and forward declarations mean equality of records; the enum-forward test means equality, or that one enum is a forward declaration and both have the same name, size and flags |
| `DedupTheory.CompareMeaning` | libbpf/btf.c:2290-2390 | The node test of the traversal descends only between records equal up to references, and stops with success only between equal records or, where forward declarations are resolved, between such a declaration and something it may announce |
| `DedupTheory.WitnessDescends` | libbpf/btf.c:2255-2390 | A consistent assignment of canonical to candidate ids that covers a pair also covers every pair of their references |
| `DedupTheory.PairsAgree` | libbpf/btf.c:2255-2390 | If every recorded pair passes the node test and each child pair is recorded or already resolves to one id, then all recorded pairs have equal unfoldings, up to forward declarations where these are resolved and none is ambiguous: the hypothetical map is a bisimulation up to resolved ids |
| `DedupTheory.PairsAreHypotheses` | libbpf/btf.c:2255-2390 | A successful traversal leaves only pairs that may be merged |
| `DedupTheory.PairableByWitness` | libbpf/btf.c:2255-2390 | A struct can be paired with a representative exactly when a consistent assignment containing the pair exists |
| `DedupTheory.TraversalResult` | libbpf/btf.c:2486-2540 | The pairs a traversal from an empty map records are consistent, related and mergeable |
| `DedupTheory.JoinRoots` | libbpf/btf.c:2418-2462 | Merging the roots of an equivalent pair keeps the map acyclic, its links justified, and self-mapped structs where they are |
| `DedupTheory.PickFullEnum` | libbpf/btf.c:2069-2074 | Resolving an enum forward to a full enum gives a justified link |
| `DedupTheory.TakeOver` | libbpf/btf.c:2069-2077 | A full enum taking over a forward that is a representative keeps the map acyclic and its links justified |
| `DedupTheory.SameSignature` | libbpf/btf.c:1844-1863 | Structs that can be paired have the same hash, so candidates in other hash chains need not be tried |
| `DedupTheory.TriedAll` | libbpf/btf.c:2486-2540 | If no candidate in the hash chain can be paired, no representative at all can |
| `DedupTheory.EqualRecordsFit` | libbpf/btf.c:2578-2684 | Reference records that become identical after their references are resolved come from types with equal unfoldings, up to forward declarations where these are resolved |
| `DedupTheory.RootIsSettled` | libbpf/btf.c:2129-2134 | Every mapped id resolves to a self-mapped one |
| `DedupErrors.NotInvalid` | libbpf/btf.c:2290-2390 | When only sections refer to variables and sections, the traversal never meets a pair of kinds it cannot compare |
| `DedupErrors.RankingOrLoop` | libbpf/btf.c:2578-2684 | Either every reference type can be ranked above what it refers to, or some lead to one another for ever |
| `DedupCompact.CountOnto` | libbpf/btf.c:2712-2765 | The new ids are exactly 1..n: each is given to one representative |
| `DedupCompact.QuotientAgrees` | libbpf/btf.c:2712-2892 | Whatever is the same type as an original id agrees with that id's new id at every depth of unfolding |
| `DedupCompact.QuotientSame` | libbpf/btf.c:2712-2892 | Meaning is preserved: every original id describes the same type, through cycles, as its new id in the compacted graph; where forward declarations are resolved, up to these and if none is ambiguous |
| `DedupCompact.QuotientForwardFree` | libbpf/btf.c:1419 | In the default mode a graph without forward declarations keeps its meaning exactly, and the result has none either |
| `DedupCompact.NoDuplicates` | libbpf/btf.c:2021-2101 | Among ints, enums, forwards and reference types the result holds no record twice; for forwards if their type words are zero |
| `DedupCompact.RemapResult` | libbpf/btf.c:2768-2892 | Remapping every reference through the canonical map and the numbering gives the renumbered quotient graph |
| `DedupCompact.DedupCorrect` | libbpf/btf.c:1247-1292 | Collects the result: acyclic map, self-mapped roots, labels kept, unfoldings kept exactly when forward declarations are not resolved or there are none, and up to them when they are resolved and none is ambiguous; new ids numbered in order, no duplicates |
| `Dedup.BtfDedup.constructor` | libbpf/btf.c:1409-1460 | Void, variables and sections start self-mapped, everything else unprocessed; the candidate table is empty; this is a state the passes can start from |
| `Dedup.BtfDedup.ResolveTypeId` | libbpf/btf.c:2129-2134 | Ends, because the map has no cycle, at the root of the id's chain |
| `Dedup.BtfDedup.ResolveFwdId` | libbpf/btf.c:2140-2153 | A forward declaration is replaced by its root if that is no longer a forward declaration |
| `Dedup.BtfDedup.HypotMapAdd` | libbpf/btf.c:1351-1366 | Records one pair and uses up a free slot of the hypothetical map, which is what makes the traversal end |
| `Dedup.BtfDedup.IsEquiv` | libbpf/btf.c:2255-2390 | Ends on cyclic graphs; reports equivalence exactly when a consistent assignment exists, records the least one, and leaves the canonical map alone; never reports invalid input on a tame graph |
| `Dedup.BtfDedup.IsEquivRefs` | libbpf/btf.c:2333-2388 | The same for all references of a pair of records |
| `Dedup.BtfDedup.ClearHypotMap` | libbpf/btf.c:1368-1375 | Empties the hypothetical map by undoing the recorded entries only |
| `Dedup.BtfDedup.MergeHypotMap` | libbpf/btf.c:2418-2462 | Turns hypothetical pairs into links; the map stays acyclic and justified, and no self-mapped struct is remapped |
| `Dedup.BtfDedup.MergeOne` | libbpf/btf.c:2426-2460 | The new map: roots of the pair are joined exactly in the forward-declaration and unmapped-struct cases, the declaration giving way, and nothing else changes |
| `Dedup.BtfDedup.Settle` | libbpf/btf.c:2097-2099 | Writes one map entry; a new representative becomes a candidate |
| `Dedup.BtfDedup.PrimTypes` | libbpf/btf.c:2104-2114 | Maps every primitive type, moves nothing else, and fails only on a void record after the first |
| `Dedup.BtfDedup.PrimType` | libbpf/btf.c:2021-2101 | Maps the id to an equal candidate or itself; fails exactly on a void record |
| `Dedup.BtfDedup.FindPrim` | libbpf/btf.c:2046-2091 | Picks an equal candidate; with forward resolution it also resolves enum forwards in both directions |
| `Dedup.BtfDedup.StructTypes` | libbpf/btf.c:2542-2552 | Maps every struct and union, moving only forward declarations besides |
| `Dedup.BtfDedup.StructType` | libbpf/btf.c:2486-2540 | A struct joins a representative of the same outline that it can be paired with, and stays a representative of its own, changing nothing else, only if it can be paired with none |
| `Dedup.BtfDedup.FindStruct` | libbpf/btf.c:2506-2533 | Tries the candidates of the hash chain in order |
| `Dedup.BtfDedup.RefTypes` | libbpf/btf.c:2686-2699 | After it every id is mapped; fails if reference types form a loop, and only then |
| `Dedup.BtfDedup.RefType` | libbpf/btf.c:2578-2684 | Ends, resolves to a self-mapped id with the same unfolding, and detects loops of reference types |
| `Dedup.BtfDedup.RefChildren` | libbpf/btf.c:2592-2655 | Resolves and rewrites each reference of a record, an array's element type before its index type |
| `Dedup.BtfDedup.FinishRef` | libbpf/btf.c:2600-2683 | Maps the record to an identical one, or to itself if there is none |
| `Dedup.BtfDedup.CompactTypes` | libbpf/btf.c:2712-2765 | Moves the representatives' records to the front in order and numbers them |
| `Dedup.BtfDedup.RemapTypeId` | libbpf/btf.c:2768-2781 | Gives the new id of a reference's root, or fails if it has none |
| `Dedup.BtfDedup.RemapType` | libbpf/btf.c:2789-2880 | Rewrites every reference of a record to its new id, failing exactly when one has none |
| `Dedup.BtfDedup.RemapTypes` | libbpf/btf.c:2882-2892 | The same for all records |
| `Dedup.BtfDedup.LatePasses` | libbpf/btf.c:2712-2892 | Compaction and remapping cannot fail once every type has a representative |
| `Dedup.BtfDedup.Run` | libbpf/btf.c:1247-1292 | On success the output is the quotient described above; if only sections refer to variables and sections, it succeeds exactly if no reference types lead to one another for ever; it fails on a void record |
| `DedupForwards.DifferentStructsJoined` | libbpf/btf.c:2418-2462 | On one graph with an ambiguous forward declaration both traversals accept it, and what they tell the pass to join puts two different structs together |
| `DedupForwards.JoinDifferentStructs` | libbpf/btf.c:2418-2462 | The merging code run on that graph links one struct to the other |
| `DedupForwards.RunAmbiguous` | libbpf/btf.c:2486-2540 | From the initial state on that graph, the primitive pass and the first structs lead to the map from which it happens |
| `BtfStrings.AppendString` | libbpf/btf.c:1712-1720 | Appending a terminated string adds exactly one string start and keeps the text of all others |
| `BtfStrings.LeqTotal` | libbpf/btf.c:1561-1567 | The order strings are sorted by is total and antisymmetric |
| `BtfStrings.WeightOfPermutation` | libbpf/btf.c:1684-1685 | Sorting does not change the room the strings take |
| `BtfStrings.StringDedup.Index` | libbpf/btf.c:1649-1669 | Lists exactly the starts of strings, in order, and the strings together fill the section |
| `BtfStrings.StringDedup.Find` | libbpf/btf.c:1589-1607 | Binary search finds an entry for an offset if there is one |
| `BtfStrings.StringDedup.MarkUsed` | libbpf/btf.c:1678-1682 | Succeeds exactly if every nonzero reference is the start of a string; then marks the empty string and the strings referred to, nothing else |
| `BtfStrings.EmitGroup` | libbpf/btf.c:1707-1720 | Writing one string for a group of equal ones keeps the new section in strictly ascending order and gives every used member its offset |
| `BtfStrings.StringDedup.Emit` | libbpf/btf.c:1687-1726 | The new section is ascending, holds each used string and nothing else, and is no longer than the old strings |
| `BtfStrings.StringDedup.Remap` | libbpf/btf.c:1609-1625 | Replaces every reference by its string's new offset and cannot fail |
| `BtfStrings.StringDedup.Dedup` | libbpf/btf.c:1634-1745 | References keep their text, are equal exactly when their texts are, the empty string stays at offset 0, each text is present once and only if referred to, and the section does not grow; it fails exactly on an offset that is not the start of a string, and then changes no reference |
| `HashMaps.HashBits` | libbpf/hashmap.h:15-19 | The bucket number is below the number of buckets |
| `HashMaps.RehashKeepsEntries` | libbpf/hashmap.c:88-116 | Growth keeps the multiset of entries and puts each into its bucket |
| `HashMaps.RehashReverses` | libbpf/hashmap.c:105-108 | Growth turns the order of every key's entries around, so a lookup after growth need not find the entry appended last |
| `HashMaps.OlderEntryFound` | libbpf/hashmap.h:72-74 | After two appends of a key and two more insertions, the lookup that found the newer value finds the older one |
| `HashMaps.HashMap.constructor` | libbpf/hashmap.c:32-55 | An empty table, with no values under any key |
| `HashMaps.HashMap.ValuesAreItems` | libbpf/hashmap.h:157-163 | Iteration over a key yields each of its values as often as it is stored |
| `HashMaps.HashMap.RehashAll` | libbpf/hashmap.c:100-109 | Every old chain is walked in order, each entry pushed to the front of its new chain |
| `HashMaps.HashMap.Grow` | libbpf/hashmap.c:88-116 | Doubles the capacity, keeps the entries, makes room for one more, and turns each key's values around: a lookup finds what it found before exactly if the first and last values are equal |
| `HashMaps.HashMap.FindEntry` | libbpf/hashmap.c:118-140 | Finds the first entry of the key's chain for the key, if there is one |
| `HashMaps.HashMap.Find` | libbpf/hashmap.c:194-206 | Returns the first value of the key, or none |
| `HashMaps.HashMap.KeyEntries` | libbpf/hashmap.h:157-163 | Yields exactly the values stored under the key |
| `HashMaps.HashMap.Insert` | libbpf/hashmap.c:142-192 | The four strategies: what is added or replaced, when insertion is refused, and the order of every key's values afterwards, with and without growth; size, placement and the load bound are kept |
| `HashMaps.HashMap.PushEntry` | libbpf/hashmap.c:175-191 | Adds one entry in front of its chain, growing first if the load bound demands it; the order of every key's values follows |
| `HashMaps.HashMap.Delete` | libbpf/hashmap.c:208-228 | Removes the first entry for the key and nothing else; the order of the others stays |
| `HashMaps.HashMap.InsertOne` | libbpf/hashmap.h:94-114 | Without APPEND the table is a plain map: lookup of the key gives the new value where the strategy allows it, and other keys are unaffected |
| `HashMaps.HashMap.DeleteOne` | libbpf/hashmap.c:208-228 | In a plain map, deletion leaves the key without a value and other keys unaffected |
| `Bpf.XorMinusOne` | libdtrace/dt_cg.c:4345-4348 | Exclusive or with -1 is the complement |
| `Assembler.StepWithin` | libdtrace/dt_as.c:262-275 | Execution of the list stays inside it |
| `Assembler.KeptStep` | libdtrace/dt_as.c:262-366 | An instruction of the list and its flat image take corresponding steps, if label numbers and distances fit 16 bits; a branch lands on the first kept instruction at or after its label |
| `Assembler.AssembledRuns` | libdtrace/dt_as.c:262-366 | Every run of such a well-formed list is a run of the flat code, step for step except for nodes that only carry a label |
| `Assembler.FlatRunsAreAssembled` | libdtrace/dt_as.c:262-366 | Conversely every run of the flat code of such a list is the image of a run of the list |
| `Assembler.StoredSame` | include/bpf_asm.h:159-175 | The list as its 16-bit fields hold it is the list as it was meant exactly if all label numbers are below 2^15 |
| `Assembler.StopsExactly` | libdtrace/dt_as.c:361-367 | The assertion on label numbers fails exactly if one of them is 2^15 or more modulo 2^16 |
| `Assembler.LabelTooLarge` | libdtrace/dt_as.c:361 | A list at which the assembler stops |
| `Assembler.JumpLost` | libdtrace/dt_as.c:345-347 | A list whose jump is assembled into a no-op |
| `Assembler.RelocsOrdered` | libdtrace/dt_as.c:450-545 | Relocations ascend strictly by offset, each names the instruction it was made for, and none is missing |
| `Assembler.IrList.Append` | libdtrace/dt_as.c:38-49 | Appends a node, its offset cut to 16 bits, and counts it unless it only carries a label |
| `Assembler.IrList.Patch` | libdtrace/dt_cg.c:2874-2879 | Replaces one instruction in place, leaving labels and length alone |
| `Assembler.IrList.NewLabel` | libdtrace/dt_as.c:52-55 | Labels are handed out in sequence |
| `Assembler.IrList.Layout` | libdtrace/dt_as.c:268-275 | Fills the buffer with the kept instructions and the table with the address of every label, 0 for labels no node carries |
| `Assembler.IrList.Relocate` | libdtrace/dt_as.c:336-366 | Turns label numbers into distances; stops exactly at a label number that is not in the table |
| `Assembler.IrList.Assemble` | libdtrace/dt_as.c:198-545 | Produces the flat code and relocations of the list as its fields hold it, or stops exactly if a label number is not in the table; with small label numbers this is the code of the list as it was meant |
| `CodeGen.ModuloMatchesC` | libdtrace/dt_cg.c:2553-2610 | The signed remainder sequence agrees with C exactly for positive divisors or a zero remainder |
| `CodeGen.ModuloDiffersFromC` | libdtrace/dt_cg.c:2553-2610 | Two inputs with a negative divisor where it does not |
| `CodeGenProof.CompileReg` | libdtrace/dt_regset.c:61-71 | An expression nets exactly one register, the highest that was free |
| `CodeGenProof.RunDivision` | libdtrace/dt_cg.c:2553-2612 | Signed division and remainder truncate as described, and a zero divisor reports a fault and stops |
| `CodeGenProof.RunFault` | libdtrace/dt_cg.c:648-677 | The fault exit calls the error handler with the divide-by-zero code and returns |
| `CodeGenProof.RunTernary` | libdtrace/dt_cg.c:2851-2882 | Either arm leaves its value in the one result register, thanks to the patched move |
| `CodeGenProof.RunExpr` | libdtrace/dt_cg.c:4182-4378 | Running an expression's code, wherever it stands in a program, leaves the expression's value in its register and keeps memory and all registers in use, or reports a division by zero |
| `CodeGenLabels.CompileTidy` | libdtrace/dt_cg.c:2914-3006 | Generated code defines each label once, jumps only to its own labels, and uses no label twice |
| `CodeGenLabels.CompiledAndAssembled` | libdtrace/dt_cg.c:4182-4378 | End to end: the assembled program of an expression, if its label numbers and jumps fit 16 bits, halts with its value in the result register, or having reported a division by zero |
| `CodeGenLabels.CompileNext` | libdtrace/dt_as.c:52-55 | How many labels an expression uses up |
| `CodeGenLabels.FewLabels` | include/bpf_asm.h:159-175 | An expression that uses fewer than 2^15 labels has label numbers that fit |
| `CodeGenLabels.CompileSucceeds` | libdtrace/dt_regset.c:61-85 | Code is generated without spilling exactly when as many registers are free as the expression needs |
| `Generator.RegSet.Take` | libdtrace/dt_regset.c:61-71 | Allocates the highest free register |
| `Generator.RegSet.Release` | libdtrace/dt_regset.c:104-116 | Frees one register |
| `Generator.Generator.Node` | libdtrace/dt_cg.c:4182-4378 | Appends the code of an expression, allocating exactly its result register |
| `Generator.Generator.Constant` | libdtrace/dt_cg.c:4677-4685 | Constants, wide or not |
| `Generator.Generator.ArithmeticOp` | libdtrace/dt_cg.c:2531-2619 | Arithmetic, with the signed division sequence where it is needed |
| `Generator.Generator.CompareOp` | libdtrace/dt_cg.c:2768-2838 | Comparisons of integers |
| `Generator.Generator.AndOp` | libdtrace/dt_cg.c:2914-2936 | Short-circuit and |
| `Generator.Generator.OrOp` | libdtrace/dt_cg.c:2962-2985 | Short-circuit or |
| `Generator.Generator.XorOp` | libdtrace/dt_cg.c:2938-2959 | Exclusive or of truth values |
| `Generator.Generator.NotOp` | libdtrace/dt_cg.c:2988-3005 | Logical negation |
| `Generator.Generator.TernaryOp` | libdtrace/dt_cg.c:2851-2882 | Both arms into one register, patching the first arm's move afterwards |
| `Generator.Generator.OtherArm` | libdtrace/dt_cg.c:2862-2882 | From the placeholder move on: the second arm, and the move patched to its register |
| `Generator.Generator.CommaOp` | libdtrace/dt_cg.c:4193-4197 | Evaluates and drops the left operand |
| `Generator.Generator.UnaryOp` | libdtrace/dt_cg.c:4345-4377 | Complement and negation |
| `LinkSpec.ReachedFresh` | libdtrace/dt_cc.c:2198-2216 | Functions reached from a relocation table are placed at most once, none that was placed before, and every newly marked one is placed |
| `LinkSpec.ReachedClosed` | libdtrace/dt_cc.c:2198-2216 | Everything a placed function refers to is placed, or was before |
| `LinkSpec.RelTabSpaced` | libdtrace/dt_cc.c:2284-2307 | The final relocation table ascends by offset without overlaps |
| `LinkSpec.CodeOf` | libdtrace/dt_cc.c:2258-2268 | Each function's code stands at its place in the image |
| `LinkSpec.EntriesOf` | libdtrace/dt_cc.c:2292-2307 | Each function's relocations, moved to its place, are in the table |
| `LinkSpec.PlaceOf` | libdtrace/dt_cc.c:2212-2215 | A function's identifier holds the place of its first instruction |
| `LinkSpec.ResolveAt` | libdtrace/dt_cc.c:2416-2454 | Resolution touches only the immediates of relocated instructions, and no relocation undoes another |
| `LinkSpec.CallsLand` | libdtrace/dt_cc.c:2440-2453 | Every call to a function other than the program itself lands on the first instruction of that function, which is in the image exactly once, immediates apart as it was compiled |
| `LinkSpec.InlinedCallsLand` | libdtrace/dt_cc.c:2379-2382 | A call made in a block that was linked before keeps its distance, so it lands on the same instruction of its own block wherever that is placed |
| `LinkSpec.CallToItself` | libdtrace/dt_cc.c:2198-2216 | A call to the program's own identifier is resolved from whatever value that identifier held before, because layout never sets it; it lands on the program exactly if that was 0 modulo 2^32 |
| `LinkSpec.CallGoesAstray` | libdtrace/dt_cc.c:2198-2216 | A program of one instruction that calls itself, whose call goes elsewhere |
| `LinkSpec.OpcodeKept` | libdtrace/dt_cc.c:2449-2453 | Linking changes no opcode |
| `Linking.Linker.LayoutFunc` | libdtrace/dt_cc.c:2177-2218 | Accounts for a function and what it needs; ends on recursive call graphs; fails exactly if a function reached has no code |
| `Linking.Linker.LayoutRelocs` | libdtrace/dt_cc.c:2198-2216 | The same for a relocation table, recording each function's place |
| `Linking.Linker.Layout` | libdtrace/dt_cc.c:2472-2475 | Totals are the sizes of the image and identifiers hold the places |
| `Linking.Linker.CopyCode` | libdtrace/dt_cc.c:2258-2268 | Copies code behind what is there |
| `Linking.Linker.CopyRelocs` | libdtrace/dt_cc.c:2291-2307 | Copies relocations, moved to the block's place |
| `Linking.Linker.Construct` | libdtrace/dt_cc.c:2236-2412 | Appends a block, its relocations and everything they need, in the order layout used |
| `Linking.Linker.ConstructFunc` | libdtrace/dt_cc.c:2387-2401 | Returns the place layout had recorded |
| `Linking.Linker.ConstructRelocs` | libdtrace/dt_cc.c:2315-2410 | Handles the relocations of a block in order |
| `Linking.Linker.ConstructReloc` | libdtrace/dt_cc.c:2324-2409 | One relocation: constants, inlined functions, functions met before and new ones |
| `Linking.Linker.ConstructAll` | libdtrace/dt_cc.c:2480-2515 | Fills exactly the buffers layout sized |
| `Linking.Linker.ResolveAll` | libdtrace/dt_cc.c:2416-2454 | Stores constants and call distances |
| `Linking.Linker.Link` | libdtrace/dt_cc.c:2458-2553 | The linked program is the image: each function reached once, counts as allocated; fails exactly if a function reached has no code |
| `Linking.LayoutAgrees` | libdtrace/dt_cc.c:2177-2218 | The places layout records are those construction uses |
| `Linking.PlacedLast` | libdtrace/dt_cc.c:2212-2215 | Recording a function after its dependencies gives the same identifiers as recording it first |
| `Llquantize.SmallConstants` | libdtrace/dt_cg.c:5028-5034 | The constants of the generated code fit their 32-bit immediates |
| `Llquantize.NoOverflow` | libdtrace/dt_cg.c:5091-5113 | No product of the generated code leaves 64 bits |
| `Llquantize.StepsDivide` | libdtrace/dt_cg.c:5225-5254 | For accepted parameters a range divides evenly into steps, except the lowest range when it has more steps than values |
| `Llquantize.FindRange` | libdtrace/dt_cg.c:5089-5096 | The loop finds the magnitude of the value, or that it is past the last |
| `Llquantize.FindBin` | libdtrace/dt_cg.c:5105-5119 | The linear bin is the exact quotient, although the divisor is divided first |
| `Llquantize.Bin` | libdtrace/dt_cg.c:5020-5151 | The generated code computes the bin of every 64-bit value, for all accepted parameters |
| `Llquantize.BinBounds` | libdtrace/dt_cg.c:5030-5031 | Every bin lies between 0 and twice the underflow bin |
| `Llquantize.BinMonotone` | libdtrace/dt_cg.c:4974-5018 | Larger values do not have lower bins |
| `Llquantize.BinSymmetric` | libdtrace/dt_cg.c:5128-5136 | A value and its 64-bit negation have bins symmetric about the middle, exactly unless the value is the least one and lies outside the middle bin |
| `Llquantize.LeastIs` | libdtrace/dt_aggregate.c:155-190 | The consumer's weight of a bin is the least number placed in it, and is zero exactly for bins no number reaches |
| `Llquantize.LeastReached` | libdtrace/dt_aggregate.c:155-190 | A 64-bit value reaches a bin exactly if its weight is not 0 and, with the sign of the bin, a 64-bit value |
| `Llquantize.CountsAll` | libdtrace/dt_cg.c:5319-5339 | llquantize() drops no value: the buckets it makes room for take every bin |
| `Llquantize.Sum` | libdtrace/dt_aggregate.c:155-190 | The consumer's sum weights every bin's net count by that least value |
| `Quantize.QuantizeBin` | bpf/agg_qbin.c:13-40 | The unrolled search gives 63 plus the signed number of binary digits, with the stated cases for 0 and the least value |
| `Quantize.QBinBounds` | bpf/agg_qbin.c:13-40 | Every 64-bit value has one of the 127 buckets |
| `Quantize.QBinMonotone` | bpf/agg_qbin.c:13-40 | Larger values do not have lower buckets |
| `Quantize.QBinMeaning` | include/dtrace/actions_defines.h:115-119 | Bucket boundaries are the powers of two the consumer prints |
| `Quantize.LinearBin` | bpf/agg_lqbin.c:13-24 | The clamped exact quotient, even where the 64-bit difference wraps |
| `Quantize.LBinMonotone` | bpf/agg_lqbin.c:13-24 | Larger values do not have lower buckets |
| `Quantize.LBinMeaning` | bpf/agg_lqbin.c:13-24 | A value in range lies in its level |
| `Quantize.AddToBucket` | libdtrace/dt_cg.c:4945-4970 | Adds the increment to one bucket and so to the total, leaving other buckets alone; a bin out of range changes nothing |
| `Quantize.RunTotal` | libdtrace/dt_cg.c:4945-4970 | Over any run with bins in range, the total of the buckets is the sum of the increments modulo 2^64 |
| `Quantize.QuantizeCountsAll` | libdtrace/dt_cg.c:5608-5651 | quantize() drops no value: over any run the total grows by all increments |
| `Quantize.LinearCountsAll` | libdtrace/dt_cg.c:5476-5511 | Nor does lquantize() |
| `Stddev.Square` | libdtrace/dt_cg.c:5734-5784 | The register pair is the 128-bit square, plus 2^64 exactly when the low half of the magnitude is zero |
| `Stddev.Multiply` | libdtrace/dt_cg.c:5758-5784 | The same for the two halves |
| `Stddev.Accumulate` | libdtrace/dt_cg.c:5660-5700 | Adds the pair to words 2 and 3 with carry, and updates count and sum |
| `Stddev.AddValue` | libdtrace/dt_cg.c:5706-5790 | One call on one copy |
| `Stddev.RunSums` | libdtrace/dt_cg.c:5660-5790 | After any run of values the words hold the count, the sum modulo 2^64 and the sum of the pairs modulo 2^128 |
| `Latch.StepProgress` | libdtrace/dt_cg.c:4768-4812 | Every instruction of an update keeps the account of which copy holds what |
| `Latch.WritesElsewhere` | libdtrace/dt_cg.c:4786-4806 | While an update writes, the copy readers are directed to and the sequence number do not change |
| `Latch.RunProgress` | libdtrace/dt_cg.c:4768-4832 | After any number of instructions the reader's copy is the data before the update or after it |
| `Latch.UpdateDone` | libdtrace/dt_cg.c:4814-4832 | A full update leaves both copies equal to the updated data |
| `Latch.ReaderSafe` | libdtrace/dt_cg.c:4768-4832 | At every instruction of every run of updates the reader's copy is the fold of a prefix of the updates |
| `Snapshot.MergeAllIs` | libdtrace/dt_aggregate.c:420-563 | Whatever the table held, merging all CPUs gives the fold of their current data; there is an entry exactly if there was one or some CPU has data |
| `Snapshot.Table.SnapOne` | libdtrace/dt_aggregate.c:455-563 | One CPU's data of one aggregation, for the first and for later CPUs |
| `Snapshot.Table.SnapCpu` | libdtrace/dt_aggregate.c:566-580 | All aggregations of one CPU |
| `Snapshot.Table.Snap` | libdtrace/dt_aggregate.c:585-611 | After each snapshot the merged data is the fold over all online CPUs, given that unused data is neutral |
| `Snapshot.AddWords` | libdtrace/dt_aggregate.c:447-450 | Adds word by word, modulo 2^64 |
| `Snapshot.InitialSlots` | libdtrace/dt_aggregate.c:981-1074 | Initial data is neutral on every CPU and the flag borrowed from the first sequence number is cleared |
| `Snapshot.SequenceCounts` | libdtrace/dt_cg.c:4735-4748 | The sequence number counts updates modulo 2^64, and data never updated is the initial data |
| `Snapshot.UnusedKept` | libdtrace/dt_cg.c:4735-4748 | From the initial data, any run of fewer than 2^64 updates keeps what snapshots rely on: a zero sequence number means neutral data |
| `Snapshot.StddevMerge` | libdtrace/dt_aggregate.c:447-450 | Merging standard deviations word by word is the sum of the pairs exactly when the low words do not overflow |
| `KeyOrder.KeyCompare` | libdtrace/dt_aggregate.c:650-757 | Compares sizes and contents of key components from the sort position round, in the way the left component's size and action decide |
| `KeyOrder.KeyEqual` | libdtrace/dt_aggregate.c:650-757 | Keys of one signature compare as equal just when they are equal, whatever the sort position; the comparison is antisymmetric |
| `KeyOrder.KeyTrans` | libdtrace/dt_aggregate.c:650-757 | On such keys the comparison is transitive |
| `KeyOrder.NotAntisymmetric` | libdtrace/dt_aggregate.c:718-745 | Two components of 16 bytes made by different actions, each of which compares as greater |
| `Joined.BuildMap` | libdtrace/dt_aggregate.c:1393-1449 | Each variable is mapped to its first position from the sort position; repetitions are remapped to it |
| `Joined.MakeBundle` | libdtrace/dt_aggregate.c:1648-1681 | A bundle holds at each position the entry of that variable among the group, or zeroes, repetitions included |
| `Joined.AddBundle` | libdtrace/dt_aggregate.c:1629-1685 | Writing a bundle over the sorted array destroys no entry still to be read |
| `Joined.MakeBundles` | libdtrace/dt_aggregate.c:1631-1685 | The front of the array ends up with exactly one bundle for each key |
| `Joined.Collect` | libdtrace/dt_aggregate.c:1598-1607 | Exactly the entries of requested variables |
| `Joined.SortEntries` | libdtrace/dt_aggregate.c:1617-1618 | Sorted by key and a permutation |
| `Joined.MakeRow` | libdtrace/dt_aggregate.c:1705-1724 | Column j is taken from the position of the j-th requested variable |
| `Joined.Walk` | libdtrace/dt_aggregate.c:1366-1740 | One row per key; column j is the entry of the j-th requested variable with that key, or zero data if there is none; a bad variable id is refused |
| `DumpOrder.ReadyIs` | libbpf/btf_dump.c:263-306 | A type is ready exactly if it is queued where it is a definition and everything it embeds is ready |
| `DumpOrder.OrderSound` | libbpf/btf_dump.c:337-477 | Whatever the outcome, each queued definition comes after everything it embeds; after success without a pointer on the way, or a strong link, the type is ready |
| `DumpOrder.DefineSound` | libbpf/btf_dump.c:244-261 | Queueing a definition after what it embeds keeps the queue in order, and the type is ready then |
| `DumpStrong.MetIs` | libbpf/btf_dump.c:285-306 | What a type needs is met exactly if it is queued where it must be and what its parts need is met |
| `DumpStrong.OrderStrong` | libbpf/btf_dump.c:337-477 | As long as no call has failed, each queued definition also comes after what it needs through pointers to unnamed structs and unions; after a success what the type needs is there |
| `DumpStrong.AfterFailure` | libbpf/btf_dump.c:376-379 | A failed call leaves a pointer marked as done, and a later definition is queued without what it needs |
| `DumpOnce.QueuedTwice` | libbpf/btf_dump.c:425-443 | A typedef of a function type whose parameter points back to it is queued twice |
| `DumpOnce.QueuedOnce` | libbpf/btf_dump.c:425-443 | On the same graph nothing is queued twice if the struct is dumped first |
| `DumpOnce.OrderFrame` | libbpf/btf_dump.c:337-477 | Ordering changes only the states of types it may come to |
| `DumpOnce.Keep` | libbpf/btf_dump.c:337-477 | Types being ordered stay unmarked through every nested success: asked for again they fail, or answer weak and change nothing |
| `DumpOnce.OrderOnce` | libbpf/btf_dump.c:337-477 | Only typedefs can be queued twice; and nothing is if no function type leads back to a typedef, array or modifier that stands for it, except through a pointer to a named struct or union |
| `DumpStack.OrderEnds` | libbpf/btf_dump.c:337-477 | If every cycle of types goes through a struct or union, the recursion ends within a stated depth |
| `DumpStack.StraightLoopRunsOn` | libbpf/btf_dump.c:376-384 | In a cycle of pointers, typedefs, arrays and modifiers the recursion uses up whatever stack there is; no cycle is reported |
| `DumpStack.TypedefOfItself` | libbpf/btf_dump.c:425-430 | Such a graph: a typedef of a pointer to itself |
| `DumpStack.RankedOrLoop` | libbpf/btf_dump.c:337-477 | Types can be ranked so that the recursion ends exactly if there is no cycle without a struct or union |
| `DumpStack.LoopNeverEnds` | libbpf/btf_dump.c:376-379 | A cycle without struct or union, function types included, never succeeds, whatever the depth |
| `DumpSuccess.OrderSucceeds` | libbpf/btf_dump.c:358-414 | If no struct or union contains itself, directly or in an unnamed one behind a pointer, no cycle is reported |
| `DumpSuccess.OrderWorks` | libbpf/btf_dump.c:337-477 | On such a graph, with enough stack and nothing left open, ordering succeeds |
| `DumpSuccess.NeverContained` | libbpf/btf_dump.c:358-414 | A struct or union that contains itself, also through typedefs, arrays, modifiers or a pointer to an unnamed one, is never ordered with success |
| `DumpSuccess.OrderCloses` | libbpf/btf_dump.c:397-413 | A success leaves no type in the middle of being ordered |
| `Dumping.Dumper.OrderType` | libbpf/btf_dump.c:337-477 | The recursive ordering, changing states and the queue in place |
| `Dumping.Dumper.OrderTypes` | libbpf/btf_dump.c:400-404 | Members and parameters in turn |
| `Dumping.Dumper.DumpType` | libbpf/btf_dump.c:210-242 | Over any run of calls: definitions follow what they embed, in this call or an earlier one, and what they need through pointers as long as no call has failed; ids are queued once under the condition above; a successful call leaves the type ready; calls succeed where no type contains itself |
| `Tls.KeysDiffer` | bpf/get_tvar.c:16-33 | Keys are equal exactly for the same owner and variable, and never the reserved key, while thread ids leave room for the CPU numbers |
| `Tls.KeysCollide` | bpf/get_tvar.c:16-33 | That bound is exact: a thread shares its variables with an idle CPU just when it is exceeded, and when it is met the first variable's key is the reserved one |
| `Tls.HeldIsLast` | libdtrace/dt_cg.c:2380-2428 | What a variable holds is what its owner stored last, on whatever CPU |
| `Tls.LoadsLastStored` | libdtrace/dt_cg.c:2051-2093 | In any run of accesses every load gives the value last stored by the same owner, or 0 |
| `Tls.Variables.GetVar` | bpf/get_tvar.c:16-72 | Looks up, deletes on a zero store, creates with the default value on another store if there is room |
| `Tls.Variables.Load` | libdtrace/dt_cg.c:2051-2093 | Gives what the owner's variable holds after the accesses so far, 0 if nothing was stored |
| `Tls.Variables.Store` | libdtrace/dt_cg.c:2380-2428 | Sets the variable for its owner on every CPU, and no other variable; fails only when a new entry does not fit |

## Left out

- Allocation failure and freeing memory, everywhere.
- The walk over records that visits string offsets (libbpf/btf.c:1475-1560): string deduplication works on the offsets in the order visited.
- The option that makes all candidate hashes collide (libbpf/btf.c:1399-1402), and line information in the BTF extension section beyond its string offsets.
- DedupCompact.DedupCorrect: with resolution of forward declarations on and one of them ambiguous, it states that labels are kept and not that unfoldings are, because the code can join different structs then.
- DedupCompact.NoDuplicates: is stated for forward declarations only if their type words are zero, because remapping treats that word as a type id and could make two different declarations equal.
- Struct deduplication up to isomorphism: two structs that could only be merged together, and not one after the other, are not claimed to be merged.
- Register spilling: CodeGen.Compile gives no code when registers run out, and CodeGenLabels.CompileSucceeds says exactly when that is.
- Strings, pointers, casts, assignments, variables, subroutines and translators in code generation.
- Calls from assembled code to labels of the same list (libdtrace/dt_as.c:531-535), and the user and kernel relocation tables.
- CodeGenLabels.CompiledAndAssembled: is stated for programs whose label numbers and jump distances fit 16 bits, because larger ones are cut.
- Constants that differ between clauses of one program (probe, clause and enabled-probe ids), the variable table and the string table in linking.
- Floating point: the consumer's sum is exact integer arithmetic here; the quotients and comparisons of averages and deviations are not modelled.
- Latch.ReaderSafe: is about the configuration with two copies; the one the sources select keeps a single copy.
- Reading a copy while it is being copied out: the reader is one instant.
- Hash chains of the aggregation table: the table is a map here; per-CPU copies of the data are not modelled.
- Joined.Walk: gives the rows in key order; the sort of the rows by value that follows only permutes them. It takes a table with at most one entry per key and variable, as the source asserts while bundling, and keys of one signature, as printa() demands (libdtrace/dt_printf.c:1107-1162). The record descriptions attached to zero-filled data are not modelled.
- Joined.SortEntries: and the two sorts of BtfStrings stand for the library sort; only that their result is an ordered permutation is used.
- Dumping.Dumper.OrderType: takes the stack depth left as a parameter, so that runs on graphs on which the recursion does not end are covered too.
- Writing the C text of definitions, and forward declarations written on the way.
- Snapshot.UnusedKept: is stated for fewer than 2^64 updates, because the sequence number wraps then.
- Tls.LoadsLastStored: is stated for variables accessed with one size each, which is how variables are declared.
- Concurrency of thread-local variable accesses: operations are taken one after the other.
- The other subsystems: probes, providers, the parser, symbol handling, output and speculation.
