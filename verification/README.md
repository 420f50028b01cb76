# Verification of the linker's algorithms

A Dafny model of the parts of the mold linker that are algorithms rather than plumbing, with proofs of what they are for. `dafny verify dfyconfig.toml` checks everything.

| file | what it models |
|---|---|
| `IcfTheory.dfy`, `IcfRun.dfy`, `IcfLeaders.dfy` | Identical code folding. The mathematics of repeated hashing over the relocation graph, the program that computes it (flat edge arrays, two digest arrays that switch roles, the converged bits, both loops), and the election of leaders as concurrent steps. |
| `ConcurrentMap.dfy` | The lock-free hash map: threads claim, fill and publish buckets, in every interleaving. |
| `Glob.dfy`, `Tries.dfy`, `MultiGlob.dfy` | The glob compiler and its backtracking matcher; the Aho-Corasick automaton that searches for many globs at once. |
| `RiscvWords.dfy`, `ByteMap.dfy`, `RiscvRelax.dfy`, `RiscvApply.dfy`, `RiscvMeaning.dfy` | RISC-V relaxation: which bytes are deleted, how symbols move, how the rest is copied, the three passes that write relocations, and what the result means to a processor. |
| `SectionGc.dfy`, `SectionGcThreads.dfy` | Mark and sweep of sections: the program, and its marking phase as concurrent visits in every interleaving. |
| `Mergeable.dfy`, `Fragments.dfy` | Splitting mergeable sections into pieces, and redirecting symbols and relocations to pieces. |
| `DynRel.dfy`, `DynRelTable.dfy`, `Relr.dfy` | Dynamic relocations: the scan that counts them, the pass that emits them, the layout of their table, what a loader makes of them, and the packed encoding of relative ones. |
| `Uleb.dfy` | Unsigned LEB128 numbers. |
| `Bits.dfy`, `BitVector.dfy`, `Buffers.dfy`, `InputSections.dfy`, `Wrappers.dfy` | Small shared parts. |

Code that updates state is modelled by methods and classes that update state; each is proved against functions and predicates on values, and the theorems are about those.

## Where the code differs from what it says

These are results: each has a lemma with the exact condition.

- Leaf sections are compared without their flags and without the CIEs of their exception records, so leaves that are folded are identical if and only if these agree as well (`IcfLeaders.LeafKeysSuffice`, `IcfLeaders.OtherFlagsFold`).
- What is hashed of a section's exception records is all there is to them if and only if none of them refers to a foldable section (`IcfTheory.PlainFdesAreCompared`); two sections whose records refer to different functions are never told apart (`IcfTheory.RecordTargetsAreIgnored`).
- A trailing `**` in a glob wants at least one byte, because the fallback loop never tries the empty rest of the text (`Globs.MatcherIsExactUnlessTwoStars`).
- A zero byte inside the text to search passes for its end: a simple pattern is found if and only if it matches a segment of the text between zero bytes, so a match is made up exactly if it matches a segment and not the whole (`MultiGlobs.HitsAreBySegment`, `MultiGlobs.ZeroBytesMislead`; the pattern `b` in the text `a`, NUL, `b` is an example, `MultiGlobs.ZeroByteExample`). Symbol names, which version scripts are matched against (elf/passes.cc:1561-1576), have no zero bytes, and then the search is exact.
- A pattern added with the value 2^32 - 1 is never reported: that value stands for no match (`MultiGlobs.MultiGlob.Find`).
- The range check of an AUIPC and JALR pair is ±2 GiB, but a 64-bit machine reaches 0x800 bytes less at the upper end and as many more at the lower (`RiscvMeaning.PairReaches`, `RiscvMeaning.CheckIsTooWide`).
- The mask of `set_rs1` is one digit short and clears bit 31, so a negative low part is lost when its upper part is given up (`RiscvWords.SetRs1KeepsNonNegative`, `RiscvMeaning.RelaxedLow`): an address whose value relaxation leaves alone is addressed if and only if it is not one of the 0x800 below zero (`RiscvMeaning.SteadyAddress`).
- Padding is enough at every place if and only if it is at most one instruction unit short of the alignment (`RiscvRelax.PaddingSuffices`, `RiscvRelax.WholePadding`). Padding made for 4-byte instructions can be too short after a 2-byte one, and then the number of bytes to remove is negative (`RiscvRelax.MixedGrainOverruns`).
- A symbol strictly inside a deleted range is moved to no particular byte (`RiscvRelax.MovedWithItsByte`).
- Piece offsets are stored in 32 bits; a section whose last piece starts at 4 GiB or later is looked up wrongly (`Mergeable.OffsetsAreExact`, `Mergeable.WrappedOffsetsMiss`). An offset past the end yields the last piece rather than the error the callers test for, and there is no piece to take if and only if the section is empty or the offset negative, which nobody tests for (`Mergeable.GetFragment`); a relocation against the section symbol of an empty mergeable section runs into that (`Fragments.ObjectFile.NoPieceInEmptySection`, `Fragments.ObjectFile.RedirectAll`).
- The two tests for packed relative relocations disagree on a section whose header says alignment 0, whose words nobody relocates; and a word that refers to an ifunc can be both packed and recorded (`DynRel.PackedOrRecorded`). Those are exactly the words that can come out wrong (`DynRel.LoadedWordIsRight`).
- `uleb_size` never answers 10 (`Uleb.UlebSize`).
- Keys of 4 GiB or more are never recognised by the concurrent map (`ConcurrentMap.OversizedKeysNeverMatch`); one key can take two buckets if and only if it is that long (`ConcurrentMap.KeysAreUniqueIfTheyFit`).

## Model

| member | source | states |
|---|---|---|
| `IcfTheory.RoundRefines` | elf/icf.cc:53-59 | Sections that a round gives equal digests had equal digests in the round before: rounds only ever split classes. |
| `IcfTheory.RepeatsForever` | elf/icf.cc:437-440 | A vertex whose digest repeats once repeats in the next round as well, whatever its successors do; this is why the shortcut may skip it. |
| `IcfTheory.StableForever` | elf/icf.cc:56-58 | Once a round does not change the partition, no later one does. |
| `IcfTheory.CountDecides` | elf/icf.cc:53-58 | A later round never has fewer classes, and with as many classes it is the same partition. |
| `IcfTheory.StopRule` | elf/icf.cc:562-575 | Equal class counts after rounds n < m mean that the partition of every round from n on is that of round n: the proof the source omits. |
| `IcfTheory.EdgesAlign` | elf/icf.cc:260-311 | Two sections have equal labels and pointwise related edge lists exactly when their relocations agree, with targets equal or related foldable sections: what is hashed is neither more nor less. |
| `IcfTheory.StableIsBisimulation` | elf/icf.cc:25-33 | Soundness: a stable partition only groups sections that are interchangeable if those they refer to are. |
| `IcfTheory.BisimilarNeverSplit` | elf/icf.cc:36-41 | Maximality: sections related by any relation of that kind are never told apart by any round. |
| `IcfTheory.StableIsGreatest` | elf/icf.cc:36-41 | At a stable round two sections have equal digests exactly when some such relation relates them, and exactly when they have equal digests in every round (equal unfoldings to every depth). |
| `IcfTheory.PlainFdesAreCompared` | elf/icf.cc:288-303 | Interchangeable sections always agree in the relocations of their exception records as well, if and only if none of these refers to a foldable section. |
| `IcfTheory.FoldedRecordsAgree` | elf/icf.cc:288-303 | Sections without such references that end up in one class agree in their records too. |
| `IcfTheory.RecordTargetsAreIgnored` | elf/icf.cc:274-280 | Four sections that all qualify as vertices: two whose records refer to the other two are never told apart, although those are. |
| `IcfRun.GatherEdges` | elf/icf.cc:363-409 | The flat array holds the edge lists of all sections one after another, and the index array where each begins. |
| `IcfRun.OwnSlice` | elf/icf.cc:429-432 | The slice that begin and end cut out of the flat array is the section's own edge list, also for the last section. |
| `IcfRun.ChangesFall` | elf/icf.cc:554-560 | The number of vertices that change never rises from round to round, so the first loop ends. |
| `IcfRun.Propagation.constructor` | elf/icf.cc:526-536 | The three digest arrays and the bit vector start in a valid state at round 0. |
| `IcfRun.Propagation.Rehash` | elf/icf.cc:426-435 | The new digest of a vertex is that of the plain recurrence, although its successors are read through the flat arrays. |
| `IcfRun.Propagation.Visit` | elf/icf.cc:422-444 | One vertex: whether it was skipped or not, its entry of the other array holds its digest of the next round; a converged bit may be set or lost without harm. |
| `IcfRun.Propagation.Propagate` | elf/icf.cc:411-448 | After the arrays switch roles the current one equals the plain recurrence for all vertices, and the result is the number of vertices that changed. |
| `IcfRun.Propagation.PropagateUntilSteady` | elf/icf.cc:554-560 | The first loop ends, and its last two rounds changed as many vertices. |
| `IcfRun.CountNumClasses` | elf/icf.cc:450-462 | Sorting and counting unequal neighbours gives one less than the number of distinct digests, whatever the order. |
| `IcfRun.Propagation.Run` | elf/icf.cc:538-576 | Both loops end, and at the end no later round would change the partition. |
| `IcfLeaders.StepKeepsInv` | elf/icf.cc:188-198 | Every atomic step (emplace, load, give way, weak exchange with spurious failure, retry) keeps the invariant, and never replaces the entry of a class by a member of higher priority number. |
| `IcfLeaders.NeverStuck` | elf/icf.cc:188-198 | A section that is not done can always take a step. |
| `IcfLeaders.EveryRunElects` | elf/icf.cc:213-244 | Under every interleaving each class is in the end led by its member of least priority. |
| `IcfLeaders.ElectionIsByClass` | elf/icf.cc:585-596 | Two sections have the same leader exactly when they are in the same class, and the leader of a leader is itself. |
| `IcfLeaders.FoldingIsCorrect` | elf/icf.cc:578-619 | After a stable round: the same leader exactly when two sections may be folded, each section may be folded with its leader, and exactly the least of each class survives. |
| `IcfLeaders.LeafKeysSuffice` | elf/icf.cc:164-183 | Two leaf sections that compare equal are identical in contents, flags, exception records and relocations if and only if their flags and the CIEs of their records agree. |
| `IcfLeaders.LeavesFold` | elf/icf.cc:203-252 | After any election identical leaf sections have one leader, and leaf sections with one leader are identical exactly under that condition. |
| `InputSections.PriorityIsLexicographic` | elf/mold.h:2232-2235 | Priorities compare by file, then by section number, so two sections never tie. |
| `InputSections.Liveness.Kill` | elf/mold.h:2213-2218 | Only the section dies, and its FDEs die only if it was alive. |
| `InputSections.Liveness.SweepFolded` | elf/icf.cc:605-619 | Exactly the alive sections that are not their own leaders are killed, with their FDEs. |
| `BitVectors.BitVector.Set` | common/common.h:249-260 | Setting one bit changes that bit of the vector and no other. |
| `Bits.BitCeilIsLeast` | common/common.h:271-276 | bit_ceil is the least power of two that is not smaller, and it divides every larger power of two. |
| `Bits.AlignToIsLeast` | common/common.h:278-283 | Without overflow align_to is the first multiple that is not smaller. |
| `ConcurrentMap.ResizeMakesATable` | common/common.h:505-514 | Whatever size is asked for, the table has a power of two of buckets, at least 2048. |
| `ConcurrentMap.ShardSize` | common/common.h:558-560 | A shard has at least as many buckets as there are probes. |
| `ConcurrentMap.ProbeFormula` | common/common.h:545-547 | The probe that the mask arithmetic reaches after r retries is r places further, cyclically, in the shard of the first one. |
| `ConcurrentMap.ProbesAreDistinct` | common/common.h:545-547 | The buckets probed by one call are all different. |
| `ConcurrentMap.StepGrows` | common/common.h:524-548 | A bucket only ever goes from null to the marker to one key. |
| `ConcurrentMap.StepKeepsInv` | common/common.h:524-548 | Every step of every thread keeps the invariant that ties buckets to the threads that claimed them. |
| `ConcurrentMap.RunKeepsInv` | common/common.h:516-552 | So it holds in every state of every run. |
| `ConcurrentMap.NeverStuck` | common/common.h:524-548 | A thread that is not finished can always step: no size is read before it is written, and memcmp never leaves a key. |
| `ConcurrentMap.NoKeyTwice` | common/common.h:516-552 | No key ever holds two buckets, not even while one is being filled. |
| `ConcurrentMap.FinishedCallsAgree` | common/common.h:516-552 | Finished calls for one key return the same bucket with the inserter's value; at most one inserted it, and one that did exists. |
| `ConcurrentMap.GivingUpIsByKey` | common/common.h:550-551 | If one caller of a key gives up then none succeeds, and 128 different buckets are taken by other keys. |
| `ConcurrentMap.ResultsAreFinal` | common/common.h:516-552 | A finished call's result never changes. |
| `ConcurrentMap.EveryRunIsConsistent` | common/common.h:516-552 | Whatever two callers of one key observe, whenever they finish: both succeed or both give up, with one bucket, and at most one inserted. |
| `ConcurrentMap.OversizedKeysNeverMatch` | common/common.h:536-543 | A key is recognised by its own stored size exactly when that size is below 2^32. |
| `ConcurrentMap.KeysAreUniqueIfTheyFit` | common/common.h:516-552 | Two calls for one key can both insert it, into different buckets, in some run, if and only if its size is 2^32 or more. |
| `Globs.Find` | common/glob.cc:117-119 | The leftmost occurrence, or none if there is none. |
| `Globs.DoMatch` | common/glob.cc:97-147 | The matcher ends, and answers true exactly if the pattern, with a final pair of stars read as wanting a byte, denotes the text; this covers the backtracking and the search for literals after a star. |
| `Globs.MatchAfterLiteral` | common/glob.cc:112-126 | Trying only the occurrences of the literal, leftmost first, finds a match at some position exactly if there is one. |
| `Globs.MatcherIsSound` | common/glob.cc:97-147 | Every text the matcher accepts is denoted by the pattern. |
| `Globs.MatcherIsExactUnlessTwoStars` | common/glob.cc:128-132 | The matcher decides the denotation on all texts if and only if the pattern does not end in two stars (or matches nothing at all). |
| `Globs.Compile` | common/glob.cc:7-91 | The compiler's loop computes the parse of the pattern string, with all its error cases. |
| `Globs.CompileBracket` | common/glob.cc:31-70 | The bracket loop computes the set of bytes and the rest of the pattern, or fails on an unclosed bracket, a dangling backslash or a reversed range. |
| `Globs.ParseIsValid` | common/glob.cc:7-91 | Compiled patterns consist of valid elements. |
| `Globs.PiecesReadBack` | common/glob.cc:7-91 | Compiling a printed pattern after any elements gives what those elements followed by the pattern mean. |
| `Globs.CompileIsFaithful` | common/glob.cc:7-91 | Every pattern of an independent syntax (literals, stars, question marks, classes with ranges), printed and compiled, denotes exactly what it means. |
| `Tries.SearchFollows` | common/multi-glob.cc:144-145 | Following a suffix link skips no longer suffix that could be extended. |
| `Tries.SearchSucceeds` | common/multi-glob.cc:144-147 | The first extendable node found is the longest suffix in the trie. |
| `Tries.ShallowIsQueued` | common/multi-glob.cc:133-150 | In breadth-first order every node no deeper than the one being processed has been queued. |
| `MultiGlobs.SimpleWord` | common/multi-glob.cc:65-83 | For a simple pattern handle_stars yields the core with a zero byte on each side that has no star, and never the empty string. |
| `MultiGlobs.MultiGlob.Add` | common/multi-glob.cc:85-113 | The trie keeps one node for each path and holds the word of every simple pattern, each node's value is the least among the patterns whose word it is, and only a glob that does not compile is refused. |
| `MultiGlobs.SuffixFor` | common/multi-glob.cc:142-147 | The walk along suffix links ends at the longest proper suffix of the child that is in the trie. |
| `MultiGlobs.MultiGlob.FixSuffixLinks` | common/multi-glob.cc:123-151 | Afterwards every node's suffix link is the node of the longest proper suffix of its path; values and children stay. |
| `MultiGlobs.MultiGlob.FixValues` | common/multi-glob.cc:153-168 | Afterwards every node's value is the least among all patterns whose words end its path. |
| `MultiGlobs.MultiGlob.Compile` | common/multi-glob.cc:115-121 | Compiling turns any set of added patterns into a correct automaton. |
| `MultiGlobs.MultiGlob.Walk` | common/multi-glob.cc:35-47 | After each byte the node is the longest suffix of the text so far that is in the trie, and the value the least among the words that have occurred. |
| `MultiGlobs.MultiGlob.Find` | common/multi-glob.cc:27-63 | The result is the least value among the patterns that hit, simple or not, and none exactly if that is 2^32 - 1 or there is no hit. |
| `MultiGlobs.HitsMeanGlobs` | common/multi-glob.cc:73-76 | Without zero bytes, a simple pattern hits exactly if the glob matcher would accept it, which is exactly if its core is the text, or a prefix, suffix or substring of it, as the stars say. |
| `MultiGlobs.FindIsBruteForce` | common/multi-glob.cc:27-63 | Without zero bytes, the result is the least value among all patterns that the glob matcher accepts. |
| `MultiGlobs.HitsAreBySegment` | common/multi-glob.cc:70-83 | In any text, with or without zero bytes, the marked word of a simple pattern occurs if and only if the glob matches a segment between zero bytes. |
| `MultiGlobs.FindIsBySegment` | common/multi-glob.cc:27-63 | So in any text find returns the least value among simple patterns that match a segment and other patterns that match the whole. |
| `MultiGlobs.ZeroBytesMislead` | common/multi-glob.cc:70-83 | Zero bytes hide no match, and make one up exactly if the glob matches a segment and not the text. |
| `RiscvWords.JTypeRoundTrip` | elf/arch-riscv.cc:99-102 | The J-type immediate read back is the number written exactly if it fits 21 bits; opcode and register stay. |
| `RiscvWords.BTypeRoundTrip` | elf/arch-riscv.cc:85-88 | The same for B-type and 13 bits. |
| `RiscvWords.CJTypeRoundTrip` | elf/arch-riscv.cc:110-115 | The same for the compressed jump and 12 bits. |
| `RiscvWords.CBTypeRoundTrip` | elf/arch-riscv.cc:104-108 | The same for the compressed branch and 9 bits. |
| `RiscvWords.ITypeLow` | elf/arch-riscv.cc:77-79 | The I-type immediate is the signed low 12 bits of the number; the other bits stay. |
| `RiscvWords.STypeLow` | elf/arch-riscv.cc:81-83 | The same for the split immediate of S-type. |
| `RiscvWords.UTypeHigh` | elf/arch-riscv.cc:90-97 | The U-type immediate is the number less its signed low 12 bits, modulo 2^32. |
| `RiscvWords.SetRs1KeepsNonNegative` | elf/arch-riscv.cc:157-161 | Rewriting the base register keeps the immediate exactly if that is not negative. |
| `RiscvWords.SignExtendIsSigned` | common/common.h:299-301 | sign_extend is keeping the low bits and reading them as a signed number. |
| `ByteMap.KeptAt` | elf/arch-riscv.cc:626-642 | A kept byte is found at its offset less the number of bytes deleted before it. |
| `ByteMap.LowerBoundAdjusts` | elf/arch-riscv.cc:903-908 | Subtracting the running total at the lower bound sends a symbol to its byte, or to the first one after a deletion that starts there, exactly if it is not strictly inside a deletion. |
| `RiscvRelax.AlignSlackBounds` | elf/arch-riscv.cc:779-787 | The bytes removed are between none and all of the padding exactly if the next boundary lies within it, and what follows is aligned. |
| `RiscvRelax.PaddingSuffices` | elf/arch-riscv.cc:779-787 | The bytes to remove are never negative wherever whole instructions end, if and only if the addend is at most one instruction unit short of the alignment. |
| `RiscvRelax.WholePadding` | elf/arch-riscv.cc:779-787 | For padding in whole units that means exactly one unit short, which is what is assumed of compiler output. |
| `RiscvRelax.MixedGrainOverruns` | elf/arch-riscv.cc:779-787 | A section (jump, then padding for 4-byte instructions) that meets every other assumption and where relaxation removes -2 bytes, so that r_deltas falls. |
| `RiscvRelax.CallSlackIsLargest` | elf/arch-riscv.cc:803-828 | A call becomes the shortest instruction of the machine at hand that reaches its target. |
| `RiscvRelax.RemovedIsLargest` | elf/arch-riscv.cc:769-861 | As much is removed as can be: the padding left is the least that aligns what follows, an upper part goes exactly if the value fits twelve bits, a call as above; without R_RISCV_RELAX nothing goes. |
| `RiscvRelax.ShrinkSection` | elf/arch-riscv.cc:762-866 | The array holds the running totals, and the size shrinks by the last. |
| `RiscvRelax.DeltaBounds` | elf/arch-riscv.cc:769-861 | A running total is never negative, never exceeds the offset reached, and is a whole number of instruction units. |
| `RiscvRelax.CutsAreDisjoint` | elf/arch-riscv.cc:762-866 | The deletions are disjoint ranges inside the section, the array counts them, and it never decreases. |
| `RiscvRelax.FixSymbol` | elf/arch-riscv.cc:902-908 | The binary search and subtraction move a symbol with its byte, exactly if it is not strictly inside a deletion. |
| `RiscvRelax.MovedWithItsByte` | elf/arch-riscv.cc:902-908 | The same about the adjustment as a relation. |
| `RiscvRelax.CopyContents` | elf/arch-riscv.cc:618-643 | Piecewise copying writes the kept bytes in order, exactly the new size of them, and nothing behind them. |
| `RiscvRelax.CallSlackFits` | elf/arch-riscv.cc:803-828 | The shorter instruction chosen can encode the distance it was chosen for. |
| `RiscvRelax.CallKeepsReach` | elf/arch-riscv.cc:739-828 | For a call within its section, deletions anywhere leave the distance no larger, of the same sign and even, so the instruction chosen still fits. |
| `RiscvRelax.AlignHolds` | elf/arch-riscv.cc:455-472 | In the final layout, wherever the section is placed at a multiple of its alignment, the code after the padding is aligned as requested. |
| `RiscvApply.WriteNops` | elf/arch-riscv.cc:463-471 | The padding loop writes exactly the padding. |
| `RiscvApply.NopsAreASled` | elf/arch-riscv.cc:466-470 | A decoder walking over the padding sees only NOPs and ends exactly at its end. |
| `RiscvApply.ApplyRelocAlloc` | elf/arch-riscv.cc:286-540 | The three loops: every relocated place holds its final bytes (a HI20 its original instruction with its own upper part, a LO12 the low part of the HI20 it names, in any order and number), no byte outside changes, and an error is reported exactly if some value is out of its range. |
| `RiscvApply.ThreePasses` | elf/arch-riscv.cc:505-539 | Parking a value in the HI20's place, reading it from the LO12s and restoring the instruction combine to that result. |
| `RiscvMeaning.ShortCallDecodes` | elf/arch-riscv.cc:342-357 | A shortened call decodes to a jump by the value given, linking the original register, exactly if the value fits. |
| `RiscvMeaning.CheckedBranchesDecode` | elf/arch-riscv.cc:333-340 | The range checks of branches and jumps accept exactly the even distances that decode to themselves. |
| `RiscvMeaning.PairReaches` | elf/arch-riscv.cc:358-367 | Upper and lower part add up to the value modulo 2^32; with sign extension to 64 bits exactly from -2^31-0x800 up to 2^31-0x800. |
| `RiscvMeaning.CheckIsTooWide` | elf/arch-riscv.cc:364-366 | A distance the check accepts that a 64-bit pair misses. |
| `RiscvMeaning.RelaxedLow` | elf/arch-riscv.cc:400-404 | A LO12 whose upper part is given up addresses through the other register, with the right offset exactly if it is not negative. |
| `RiscvMeaning.RelaxedLayout` | elf/arch-riscv.cc:762-866 | After relaxation the relocated places are disjoint and inside the new section. |
| `RiscvMeaning.PairingSurvives` | elf/arch-riscv.cc:508-516 | If every LO12's label was at a HI20, the moved label is at the moved HI20. |
| `RiscvMeaning.WriteTo` | elf/arch-riscv.cc:618-643 | Copying and relocating together leave the kept bytes with all relocations applied. |
| `RiscvMeaning.CallLandsOnTarget` | elf/arch-riscv.cc:341-357 | A shortened call to a symbol of its section jumps from its new place exactly to the symbol's new address and links the original register. |
| `RiscvMeaning.PairAddsUp` | elf/arch-riscv.cc:505-539 | In the written section the parts of every pair add up to S + A - P of the HI20 modulo 2^32, and the other bits are the original ones. |
| `RiscvMeaning.PaddingIsNops` | elf/arch-riscv.cc:455-472 | In the written section the remaining padding is a sled of NOPs and what follows is aligned. |
| `RiscvMeaning.BranchesReach` | elf/arch-riscv.cc:333-340 | In a section written without error every branch and jump, compressed or not, is the original one with S + A - P as displacement, exactly if that is even. |
| `RiscvMeaning.BranchStaysInReach` | elf/arch-riscv.cc:333-340 | A branch or jump that reaches a symbol of its section before relaxation does so afterwards, so it raises no error. |
| `RiscvMeaning.BranchLandsOnTarget` | elf/arch-riscv.cc:333-340 | In the written section it jumps from its new place exactly to the symbol's new address. |
| `RiscvMeaning.FullCallsReach` | elf/arch-riscv.cc:358-367 | A call that was not shortened adds up to S + A - P modulo 2^32 (to nothing for an undefined weak symbol), with all other bits kept. |
| `RiscvMeaning.CheckedCallsReach` | elf/arch-riscv.cc:358-367 | Without a range error a 64-bit machine computes that distance exactly if it is below 2^31 - 0x800. |
| `RiscvMeaning.HiLoAddresses` | elf/arch-riscv.cc:386-433 | In the written section a HI20 or TPREL_HI20 and its LO12 (with the TPREL_ADD between) address S + A exactly if it does not fit twelve bits and what fills the base register is still there, or it fits and is not negative. |
| `RiscvMeaning.SteadyAddress` | elf/arch-riscv.cc:386-433 | So an address that is what relaxation took it for is addressed exactly if it is not one of the 0x800 below zero. |
| `RiscvMeaning.OtherBytesStay` | elf/arch-riscv.cc:618-643 | A byte that is neither deleted nor relocated is found unchanged at its new offset. |
| `SectionGc.Collector.MarkSection` | elf/gc-sections.cc:31-34 | True for exactly the one call that sets the mark of an alive section. |
| `SectionGc.Collector.Visit` | elf/gc-sections.cc:36-69 | With its inline recursion of depth three: marks are only added and only to what is reachable, everything newly marked is queued or expanded exactly once, and what was expanded has all it refers to marked. |
| `SectionGc.Collector.CollectRootSet` | elf/gc-sections.cc:71-133 | All roots are marked and queued; sections outside the memory image are marked without being queued. |
| `SectionGc.Collector.Mark` | elf/gc-sections.cc:135-145 | Marking ends whatever order the queue is served in. |
| `SectionGc.MarksAreExact` | elf/gc-sections.cc:135-145 | When the queue is empty the marks are exactly the reachable sections, each expanded exactly once, and the pieces kept are exactly those referred to. |
| `SectionGc.Collector.Sweep` | elf/gc-sections.cc:147-163 | Exactly the alive unmarked sections are killed, with their FDEs. |
| `SectionGc.Collector.GcSections` | elf/gc-sections.cc:165-173 | A section survives exactly if it was alive and is outside the memory image or reachable from a root by relocations and by FDE relocations other than the first. |
| `SectionGcThreads.StepKeepsInv` | elf/gc-sections.cc:31-69 | Every step of every visit (look at a relocation, test and set a mark, begin the visit of a marked section) keeps the invariant. |
| `SectionGcThreads.VisitedAtMostOnce` | elf/gc-sections.cc:31-34 | In every interleaving of visits no section is visited twice. |
| `SectionGcThreads.EveryRunMarksExactly` | elf/gc-sections.cc:135-145 | In every interleaving, when nothing is left to do exactly the reachable sections and the pieces they refer to are marked. |
| `SectionGcThreads.NeverStuck` | elf/gc-sections.cc:36-69 | A visit that is not done can always move. |
| `SectionGcThreads.RunsEnd` | elf/gc-sections.cc:135-145 | No run takes more steps than there is work at its start, so marking ends under every schedule. |
| `Mergeable.FindNull` | elf/input-files.cc:583-595 | The first entry of zeros at a multiple of the entry size, or none if there is none. |
| `Mergeable.SplitSection` | elf/input-files.cc:614-691 | Pieces join to the section without gap; strings have their only zero entry at the end, records their fixed size; errors exactly for an unterminated string section or a broken record. |
| `Mergeable.JoinSlice` | elf/input-files.cc:657-658 | Piece k is the part of the section between its offset and the next. |
| `Mergeable.OffsetsAreExact` | elf/input-files.cc:658-678 | The stored 32-bit offsets are the real ones exactly if the last piece starts below 4 GiB. |
| `Mergeable.GetFragment` | elf/mold.h:2354-2361 | Inside the section the piece and offset returned cover the byte asked for; past its end it is the last piece; the index is out of bounds exactly for a negative offset or a section without pieces. |
| `Mergeable.LocatesOneByte` | elf/mold.h:2354-2361 | There is no other piece with that byte, and the piece's byte is the section's. |
| `Mergeable.WrappedOffsetsMiss` | elf/input-files.cc:658-678 | If offsets wrap, the start of the last piece is not found whatever piece is looked at. |
| `Fragments.MergedSections.Insert` | elf/input-files.cc:749-759 | Equal pieces of one output section get one fragment with those contents, no other piece gets it, and no other fragment changes. |
| `Fragments.ObjectFile.AttachSymbols` | elf/input-files.cc:762-783 | Every symbol defined in a section that has pieces gets the piece and offset of its byte; no other symbol changes. |
| `Fragments.ObjectFile.CountFragSyms` | elf/input-files.cc:785-794 | The number of new symbols is that of the relocations to be redirected. |
| `Fragments.ObjectFile.RedirectAll` | elf/input-files.cc:796-838 | Redirected relocations are numbered without gap, as many as were counted, and each new symbol plus addend stands for the byte meant; other relocations stay. It fails exactly if some relocation to be redirected has no piece. |
| `Fragments.ObjectFile.NoPieceInEmptySection` | elf/input-files.cc:629-630 | Such a relocation has one exactly if the section it refers to was not empty and the offset is not negative. |
| `Fragments.ObjectFile.ResolveSectionPieces` | elf/input-files.cc:747-838 | All three phases together. |
| `Fragments.ObjectFile.SameByteAfterwards` | elf/input-files.cc:813-830 | For an offset inside the section, the redirected relocation denotes the very byte it denoted before. |
| `DynRel.WordSizeActions` | elf/input-sections.cc:251-267 | Word-size relocations only ever lead to actions that the apply pass handles. |
| `DynRel.SmallerOnesStayStatic` | elf/input-sections.cc:219-249 | No other relocation is ever counted as dynamic. |
| `DynRel.ScanCountsEmitted` | elf/input-sections.cc:134-217 | For every relocation, output kind and symbol: unless an error is reported, the scan counts exactly the records the apply pass will emit. |
| `DynRel.UndefinedSymbolsAreReported` | elf/arch-riscv.cc:653-656 | A record is emitted exactly for words only the loader can fill in; the count differs from that exactly for such words that refer to an undefined symbol, is then 0, and an error has been reported. |
| `DynRel.LoadedWordIsRight` | elf/input-sections.cc:321-378 | With the packed table as it is built, for every kind of output and symbol the loaded word is the run-time address plus the addend, if and only if the load bias is 0 or the word is neither of the two exceptions of `PackedOrRecorded`. |
| `DynRel.PackedOrRecorded` | elf/output-chunks.cc:945-973 | A base relocation is packed or recorded, never both, and neither exactly at alignment 0; an ifunc is always recorded and may be packed too; nothing else is packed. |
| `DynRelTable.Scanner.DoScanRel` | elf/input-sections.cc:134-217 | The switch, with its effect on counters, flags and errors. |
| `DynRelTable.Scanner.ScanFile` | elf/arch-riscv.cc:645-731 | Without errors the file's count is the number of records of all its sections, and each section's offset that of the sections before it. |
| `DynRelTable.SectionCounted` | elf/arch-riscv.cc:645-731 | The count of a section grows by exactly the number of records it will emit. |
| `DynRelTable.UpdateShdr` | elf/output-chunks.cc:425-441 | File slices follow the chunks' slices and each other without gap. |
| `DynRelTable.CountsLayOut` | elf/output-chunks.cc:425-441 | The counts of an error-free scan, laid out, give every section the slice its records will fill, and the table exactly the size of all records. |
| `DynRelTable.SlicesApart` | elf/arch-riscv.cc:290-293 | Slices of different sections do not overlap. |
| `DynRelTable.SlicesCover` | elf/arch-riscv.cc:290-293 | Every record of the region lies in the slice of some section. |
| `DynRelTable.Writer.DoApplyAbsrel` | elf/input-sections.cc:321-378 | One relocation: the record at the cursor, the cursor moved past it, and the word written. |
| `DynRelTable.Writer.ApplySection` | elf/input-sections.cc:380-387 | A section writes exactly its records to exactly its slice. |
| `DynRelTable.WriteAll` | elf/arch-riscv.cc:286-293 | In whatever order sections are written, in the end every slice holds its section's records. |
| `DynRelTable.EveryRecordIsEmitted` | elf/arch-riscv.cc:286-293 | In the finished table every record is the one that its section emitted for that place: no gap, no overlap. |
| `Relr.EncodeRelr` | elf/output-chunks.cc:916-942 | What a loader decodes from the packed entries is exactly the list of places encoded, and every entry fits a word. |
| `Relr.FillBitmap` | elf/output-chunks.cc:930-932 | The inner loop gathers into a bitmap exactly the places within its reach, and leaves the rest beyond it. |
| `Relr.AddBit` | elf/output-chunks.cc:932 | Setting a bit above the others adds the word it stands for at the end of what the bitmap denotes. |
| `Uleb.EncodeUleb` | common/common.h:365-371 | The encoder appends the encoding and nothing else. |
| `Uleb.EncodedIsNumber` | common/common.h:365-371 | Every 64-bit number is encoded in at most ten well-formed bytes that denote it. |
| `Uleb.ReadUleb` | common/common.h:413-427 | The bounded reader accepts exactly the well-formed numbers, never reads past the end or ten bytes, and on any number encoded, whatever follows, returns it and consumes exactly its bytes. |
| `Uleb.EncodedLength` | common/common.h:452-460 | An encoding has at most k bytes exactly if the number has at most 7k bits. |
| `Uleb.UlebSize` | common/common.h:452-460 | uleb_size is the encoded length exactly below 2^63. |

## Left out

- SHA-256, and the hash functions of the map and of strings: a digest is a free term, so different inputs never have equal digests; a map hash is any function of the key.
- `uniquify_cies`, `is_eligible`, `is_leaf` and `gather_sections`: an ICF vertex is given with its CIE class, and vertices are numbered; `IcfTheory.IsVertex` has what can be told from contents, flags and relocations.
- The hash of a leaf section: only the comparison decides.
- Relocations of FDEs to foldable sections contribute only a tag to the label, as in the code; of the sections they refer to only what `IcfTheory.PlainFdesAreCompared` says is claimed.
- `parallel_sort` is stood in for by an insertion sort, and `std::lower_bound` and `std::upper_bound` by binary searches.
- Edge numbers and edge indices are unbounded; the code keeps them in 32 bits.
- Weak memory: atomic operations are sequentially consistent steps.
- `ConcurrentMap.insert` on a table that has not been allocated (returns no bucket), and running out of memory.
- Bytes of a text that are 128 or above index a bracket's bit set as unsigned bytes; the code uses plain `char`.
- The prefix tree is modelled with the list of node paths as a ghost, and nodes are numbered rather than linked by pointers.
- RISC-V relocations that store data (ADD, SUB, SET and absolute words), the PLT, and `apply_reloc_nonalloc`.
- Distances between different sections, which re-padding can lengthen.
- `RiscvApply.ApplyRelocAlloc`: takes for granted that every LO12 names the place of a HI20 of the section, as the assertion in the code and the ABI do.
- `should_keep` (a test of section type and name) is a given property of a section.
- `SectionGc.Collector.Mark`: visits run one after another, in any order; the interleaving of visits on several threads is the subject of `SectionGcThreads`.
- The root set is collected by one thread; `SectionGcThreads` starts from its result.
- Output sections in which pieces are merged: alignment, liveness and placement of fragments.
- `get_addend` for targets that keep addends in the section contents: the addend is a field.
- Action tables for targets other than RISC-V, and GOT and PLT slots.
- `Relr.EncodeRelr`: the places strictly increase, as those of different relocations do; the code would also take equal neighbours.
- `Fragments.ObjectFile.ResolveSectionPieces`: an index outside the vector of pieces is reported as failure; the code goes on with whatever is there.
- Offsets in the table of dynamic relocations are counted in records; the 32-bit byte offset of a section does not wrap.
- `encode_sleb`, the unbounded `read_uleb`, and the archive, file and command line code.
