# Verified models of mogrix

These Dafny modules model the parts of mogrix in which a wrong step is hard to see: the build-order
engine, the bundle transformations, the relocation logic of the IRIX run-time linker that mogrix
documents, and C routines of the compatibility library. Each imperative routine is a method, with the
loops and the state of the original, that is proved against a specification; what the routine is for is
then proved about the specification, for all inputs or all runs.

Check everything with `dafny verify dfyconfig.toml`.

## Modules

- **Shared** (`Common`, `Firsts`).
- **Build order** (`Digraph`, `Tarjan`, `PostOrder`, `SccFinder`, `Kahn`, `BuildOrder`, `OnePlan`, `Sorting`). The iterative
  component search is a class whose fields are the variables of the original; its invariant is stated
  on a value of type `Search`, and each of the four transitions is shown to keep it. The search for
  components, the condensation, Kahn's algorithm and the greedy expansion together give
  `TopologicalSort`, whose contract determines its result: `PostOrder` is the recursive search whose
  order the iterative one follows.
- **Resolving** (`Breadth`, `Roadmap`, `OneRoadmap`). Breadth-first search with a depth limit over a queue that may
  repeat nodes. The provider resolution is an arbitrary function.
- **Bundle libraries** (`Sonames`, `DepGraph`, `Prune`). Finding the library that a soname stands for;
  transitive counts and depths; pruning to the reachable libraries.
- **Run-time linker** (`Rld`). An object's relocation table, msym cache, memory words and GOT.
- **Cookie streams** (`CookiePump`). The pump thread as a state machine, alone and in every interleaving
  with the application and the pipe; the set-up code with the descriptors it opens and closes.
- **ELF files** (`Bytes`, `Elf`, `StripRpath`, `MipsElf`, `Fixup`). Editing byte arrays in place; `Elf` has the
  structures of the format as lists of field widths.
- **Self-extracting files** (`RunFile`). The writer and the reader. The fixed text of the header is a
  parameter; what the proofs need of it is the predicate `Fits`, which the text in
  `mogrix/bundle.py:129-156` meets: 19 lines of commands behind the line number, no line that begins
  like a header line of the reader, no placeholder, and blanks around the names.
- **Shared commands** (`Registry`). Install and uninstall scripts over a bin directory.
- **C routines** (`GetoptLong`, `MemStream`, `Timegm`, `Environ`).

## Where the code does less than one would expect

Each of these is a lemma or a method contract with a concrete case and, where the code meets the
property on part of its inputs, the exact condition.

- A symbol bound to address 0, as an undefined weak one is, loses track of its relocated words
  (`Rld.Object.BindKeepsSymbolExactly`, `Rld.ZeroAddressLosesTrack`).
- `funopen` closes one descriptor twice when its thread cannot be started (`CookiePump.Funopen`).
- The RPATH stripper stops before a partial entry at the end of the dynamic table, the checker does not
  (`StripRpath.CheckAfterStrip`, `MipsElfCheck.PartialEntrySurvives`).
- The reader of `.run` files looks at four lines of the payload (`RunFile.EarlyKeyMisleads`), and a
  bundle name that contains the placeholder or a quote does not come back (`RunFile.NameComesBack`);
  exactly when it recovers what was written is `RunFile.ReaderRecovers`.
- A bundle whose list of commands has changed by the time it is uninstalled can leave trampolines
  without an owner (`Registry.UninstallTidyExactly`, `Registry.RunTidyExactly`,
  `Registry.ChangedListLeavesTrampoline`).
- An option letter with two colons requires an argument (`GetoptLong.TwoColonsExactly`).
- The memory stream cannot grow beyond 2^31 bytes: the capacity wraps to zero and the loop does not end
  (`MemStream.GrowthEndsExactly`, `MemStream.WriteFitsExactly`).
- Stripping a library whose dynamic table covers its own program header can move the table, so that a
  second run finds more (`StripRpath.StripFileTwiceExactly`, `StripRpath.StripsAgain`).
- `irix-fixup.py` can leave an unwanted type behind when the entries are smaller than the type that is
  read from them (`Fixup.NothingMarkedLeft`, `Fixup.TinyEntriesKeepType`).
- `timegm` ignores leap days before 1970, so it is wrong for 1968 and earlier, and it takes a negative
  month for January (`Timegm.RightFrom1969`).
- A cycle of symbolic links makes pruning run for ever (`Prune.LinksEndExactly`).
- A comment in `tools/rld-harness.py` (line 226) says that the last value of a repeated dynamic tag is
  kept; the code keeps the first, and so does `MipsElfCheck.MipsElf`.

## Model

| member | source | states |
|---|---|---|
| SccSearch.FindAllSccs | mogrix/roadmap.py:673-730 | for every graph and node set: the returned blocks partition the nodes, each block is exactly one class of mutually reachable nodes of the restricted graph, sorted, and no edge leads from a block to a later one; the blocks come in the order in which a recursive depth-first search over the sorted nodes leaves the last node of each; the loops end |
| SccSearch.SccFinder.FindAllSccs | mogrix/roadmap.py:726-728 | starting the search at the nodes in ascending order keeps the invariant, numbers all nodes, and finishes them in the order of the recursive search |
| SccSearch.SccFinder.StrongConnect | mogrix/roadmap.py:688-724 | from an empty call stack to an empty call stack, on any graph, with the whole invariant kept, the start node numbered, and the nodes finished as the recursive search leaves them; termination by nodes left to number, then positions left to look at |
| SccSearch.SccFinder.Visit | mogrix/roadmap.py:702-707 | numbering a new neighbour and calling into it is the transition Enter of the search state |
| SccSearch.SccFinder.Revisit | mogrix/roadmap.py:708-709 | a neighbour that is already numbered lowers the lowlink exactly when it is on the stack |
| SccSearch.SccFinder.Examine | mogrix/roadmap.py:699-709 | one look at the next neighbour keeps the invariant and makes progress |
| SccSearch.SccFinder.Finish | mogrix/roadmap.py:710-724 | the end of a call keeps the invariant, whether it completes a component or not |
| SccSearch.SccFinder.PopComponent | mogrix/roadmap.py:712-719 | popping down to the root takes exactly the top of the stack off it and records it, sorted, as one block |
| SccSearch.SccFinder.FoldIntoCaller | mogrix/roadmap.py:721-724 | the caller gets the smaller of the two lowlinks |
| SccSearch.SccFinder.AllVisited | mogrix/roadmap.py:726-730 | when every node is numbered and the stack is empty, the emitted blocks are the components |
| PostOrder.RestEnter | mogrix/roadmap.py:702-707 | calling into a neighbour leaves the sequence of nodes that are yet to finish as it is |
| PostOrder.ByRoots | mogrix/roadmap.py:726-728 | what can be reached from an earlier root is left before what can be reached only from later ones |
| PostOrder.WithoutEdges | mogrix/roadmap.py:726-728 | without edges the nodes are left in the order of the roots |
| SccSearch.BlocksByFirst | mogrix/roadmap.py:726-730 | the blocks come by their first names: whatever name leads to a later block, it or a name before it leads to each earlier one |
| SccSearch.WithinAppend | mogrix/roadmap.py:697 | the neighbours keep the order of the adjacency list |
| Tarjan.InitialInv | mogrix/roadmap.py:681-686 | the search invariant holds of the empty state |
| Tarjan.EnterPreserves | mogrix/roadmap.py:702-707 | entering a node keeps the invariant (stack order, reachability down the stack, lowlink bounds and witnesses, emitted blocks) |
| Tarjan.AdvancePreserves | mogrix/roadmap.py:708-709 | looking at a numbered neighbour keeps it |
| Tarjan.LeavePreserves | mogrix/roadmap.py:721-724 | leaving a node that is not the root of its component keeps it |
| Tarjan.CollapsePreserves | mogrix/roadmap.py:711-724 | emitting a component keeps it |
| Tarjan.BlockIsComponent | mogrix/roadmap.py:711-719 | if lowlink equals index, what lies above the node on the stack is exactly its class of mutual reachability |
| BuildOrder.TopologicalSort | mogrix/roadmap.py:555-630 | for every edge list and node set: the order is a permutation of the nodes, components are contiguous, every edge between components has the dependency first, each component is in greedy order; cycles are exactly the components with several members, in their order; order and cycles are what the plan of the graph gives |
| OnePlan.OneBuildOrder | mogrix/roadmap.py:555-630 | there is only one build order and one list of cycles that meets this for an edge list and a node set |
| OnePlan.OneBlockOrder | mogrix/roadmap.py:673-730 | there is only one list of components in that order |
| OnePlan.WithoutEdgesByName | mogrix/roadmap.py:555-630 | packages without dependencies are built in the order of their names |
| Sorting.BeforeExactly | mogrix/roadmap.py:654-663 | names are compared at the first place where they differ, and a proper beginning comes first |
| BuildOrder.ListsAppend | mogrix/roadmap.py:569-573 | successors and predecessors follow the order of the edges |
| BuildOrder.CountInCounts | mogrix/roadmap.py:656-660 | pending dependencies are counted by occurrence |
| BuildOrder.BuildAdjacency | mogrix/roadmap.py:569-573 | the two tables list the successors and the predecessors of each node, in edge order |
| BuildOrder.Cycles | mogrix/roadmap.py:577 | the list holds exactly the components with more than one member, in their order |
| BuildOrder.NumberComponents | mogrix/roadmap.py:580-583 | every node is mapped to the number of the block it is in |
| BuildOrder.Condense | mogrix/roadmap.py:586-594 | there is an edge between two block numbers exactly when some edge joins members of the two, and the in-degrees count distinct predecessors |
| BuildOrder.CondensedDescends | mogrix/roadmap.py:586-594 | the condensed graph is acyclic: every edge leads to a smaller block number |
| Kahn.Order | mogrix/roadmap.py:597-611 | every number appears once, each after all its predecessors and the least that could come next |
| Kahn.Release | mogrix/roadmap.py:602-606 | after a number is placed, in-degrees again count the predecessors not placed, and the queue is again the sorted list of what is ready |
| Kahn.NothingLeft | mogrix/roadmap.py:608-611 | with an empty queue every number has been placed, so the loop that appends what is left appends nothing |
| BuildOrder.PickBest | mogrix/roadmap.py:652-663 | the pick has the fewest pending dependencies, counted per edge, and among those the smallest name |
| BuildOrder.OrderSccGreedy | mogrix/roadmap.py:632-671 | a permutation of the component in which each member is the best of those still to come |
| BuildOrder.ExpandBlock | mogrix/roadmap.py:615-622 | one block in the order in which it is to be built |
| BuildOrder.ExtendAll | mogrix/roadmap.py:613-622 | appending the next block keeps contiguity, dependencies first and greediness |
| BuildOrder.AcyclicMeansTopological | mogrix/roadmap.py:555-568 | without cycles the result is a topological order of the packages |
| Breadth.Visit | mogrix/roadmap.py:460-508 | visiting the node at the front of the queue records its distance and keeps the queue invariant |
| Breadth.Skip | mogrix/roadmap.py:462-463 | dropping an entry that was visited before keeps it |
| Breadth.Frontier | mogrix/roadmap.py:456-508 | every unvisited node within reach has a queued node no farther from the roots |
| Breadth.Finish | mogrix/roadmap.py:460-508 | with an empty queue exactly the nodes within the limit are visited, each with its shortest distance |
| Roadmap.ScanRequirements | mogrix/roadmap.py:479-508 | one package: its sources, dependency pairs, new queue entries, and what was dropped, unresolvable or in the sysroot, for every requirement list |
| Roadmap.NextMentions | mogrix/roadmap.py:456-508 | the packages visited and then the queue are always the target and what the recorded packages lead to, in the order of first mention |
| Roadmap.RecordRest | mogrix/roadmap.py:482-500 | what is dropped, unresolvable or in the sysroot is what the recorded packages say, the last one visited deciding; and the dependency pairs are those of the packages in the order of visiting, one for each requirement that another package provides |
| Roadmap.OneOrder | mogrix/roadmap.py:456-512 | the order of visiting is determined: only one lists the recorded packages by distance and by first mention |
| Roadmap.Search | mogrix/roadmap.py:453-512 | the whole search keeps the queue invariant and the recorded graph, and ends |
| Roadmap.SearchResults | mogrix/roadmap.py:460-512 | exactly the packages at shortest distance at most max_depth are recorded (all reachable ones for 0), and those one step farther are visited but not recorded |
| Roadmap.FollowsEveryNeed | mogrix/roadmap.py:502-508 | with stop_at_rules off the search follows every dependency on another package |
| Roadmap.StopsAtRules | mogrix/roadmap.py:502-508 | with it on, those on a package for which there are no rules |
| Roadmap.RecordsExactly | mogrix/roadmap.py:466-467 | a limit of 0 or less is none; packages at the limit are recorded |
| OneRoadmap.OneResult | mogrix/roadmap.py:446-538 | the result is determined by the resolver and the target, down to the order of every list in it |
| Roadmap.AssignNumbers | mogrix/roadmap.py:518-520 | each package carries its place in the order, counted from one |
| Roadmap.FillNeededBy | mogrix/roadmap.py:522-525 | each package gets its dependents in the order of the dependency pairs, each once, and nothing else changes |
| Roadmap.GraphCompleted | mogrix/roadmap.py:510-525 | needed_by is exactly the inverse of buildrequires with self-dependencies removed |
| Roadmap.Resolve | mogrix/roadmap.py:446-538 | all of this for every index, provider resolution, depth limit and target, with the build order of the visited packages by the dependency pairs, the dependents of each package in the order of these pairs, and for a requirement that several packages drop or cannot resolve the word of the last one visited |
| Common.HasSoExactly | tools/rld-harness.py:473-481 | ".so" in a name: the three characters follow each other somewhere |
| DepGraph.TransitiveCounter.Count | tools/rld-harness.py:538-548 | a call with a shared set adds exactly a set closed under the edges into it, all reachable from the name, and returns its size less one; on cyclic graphs too |
| DepGraph.CountTransitive | tools/rld-harness.py:537-551 | the number of other libraries reachable through resolved edges |
| DepGraph.ReverseEdges | tools/rld-harness.py:513-517 | needed_by lists the libraries that need the name, in their order, each once for each of its entries that stands for the name |
| DepGraph.DependentsHas | tools/rld-harness.py:513-517 | these are exactly the sources of the edges into the name |
| DepGraph.FindRoots | tools/rld-harness.py:519-523 | the libraries nobody needs, or all when there is none |
| DepGraph.ComputeDepths | tools/rld-harness.py:525-535 | depth is the shortest distance from the roots, 0 for what they do not reach; nothing else changes |
| Sonames.AddName | tools/rld-harness.py:470-485 | a library is registered under its own name, and under each shorter version of it that is not taken |
| Sonames.IndexNames | tools/rld-harness.py:469-491 | the index finds for every soname the library of exactly that name, else the first whose name the soname is cut from, else none |
| DepGraph.ResolveAll | tools/rld-harness.py:494-503 | every NEEDED soname becomes the name of the library it stands for, or stays when there is none |
| DepGraph.ResolvedIsKey | tools/rld-harness.py:487-503 | a NEEDED entry leads into the bundle if and only if it is the name of a library or is cut from one |
| DepGraph.LastOfName | tools/rld-harness.py:494-511 | of several libraries with one name the last one counts, its entries resolved in their order |
| DepGraph.FillGraph | tools/rld-harness.py:513-553 | needed_by as a list, depths and counts from the resolved entries |
| DepGraph.BuildDepGraph | tools/rld-harness.py:464-553 | the whole graph from the names, in the order in which they first occur, and the NEEDED sonames of the libraries |
| Prune.WalkLinks | mogrix/bundle.py:487-492 | walking a chain of links adds exactly its hops and ends at a name that is no link |
| Prune.FindNeeded | mogrix/bundle.py:480-500 | the checked set is exactly what is reachable from the root sonames through links and NEEDED entries of real files |
| Prune.PruneUnusedLibs | mogrix/bundle.py:446-510 | the directory is left with the non-libraries and the reachable libraries, unchanged |
| Prune.NothingNeededIsRemoved | mogrix/bundle.py:476-510 | what a kept library needs or a kept link points to is kept |
| Prune.RootsAreKept | mogrix/bundle.py:457-474 | every soname a program needs is kept if it was there |
| Prune.PreloadedStay | mogrix/bundle.py:457-459 | libmogrix_compat.so and irix_rld_stubs.so stay, whatever the programs need |
| Prune.PruningTwice | mogrix/bundle.py:500-510 | a second run removes nothing |
| Prune.PrunedLinksEnd | mogrix/bundle.py:489-492 | pruning does not bring in cycles of links |
| Prune.CycleNeverEnds | mogrix/bundle.py:489-492 | from a name on a cycle of links no number of hops leads to a real file |
| Prune.LinksEndExactly | mogrix/bundle.py:489-492 | no reachable name lies on a cycle of links if and only if from every reachable name the walk comes to a name that is no link: the assumption is exactly what termination needs |
| Rld.SearchRun | docs/rld/rld_key_functions.c:188-217 | the binary search ends, on an entry of the run of a nonzero symbol if there is one, else at 0 |
| Rld.FindReloc | docs/rld/rld_key_functions.c:188-262 | the first index of the run of the symbol, or 0 |
| Rld.RunStartIsUnique | docs/rld/rld_key_functions.c:234-262 | that index is determined by the table |
| Rld.Object.LookUp | docs/rld/rld_key_functions.c:33-39 | with or without the cache the index is the start of the run, and the cache still agrees with the search for every symbol; it is filled only where it was empty |
| Rld.Object.RelocateOne | docs/rld/rld_key_functions.c:69-141 | one entry: only its word changes, as its type says; the word is as far into the mapped object as its offset into the linked one, or for an absolute symbol at the offset itself; unsupported types are reported |
| Rld.Object.ResolveRelocations | docs/rld/rld_key_functions.c:20-153 | exactly the words of the run of the symbol change, each from its old to its new symbol value modulo 2^32; the words are named by address, type and st_other |
| Rld.Object.CurrentReads | docs/rld/rld_key_functions.c:44-48 | the symbol value is the GOT word at four bytes a symbol from the first global slot, if it is not zero and st_other is 0 or 4, else st_value |
| Rld.Object.CurrentOfLocal | docs/rld/rld_key_functions.c:500-513 | a symbol whose place is in the local part of the GOT has its st_value |
| Rld.Object.SetDynsymGot | docs/rld/rld_full_decompile.c:3869-3878 | writes the slot that obj_dynsym_got reads, for symbols that have one |
| Rld.Object.Bind | docs/rld/rld_reloc_callers.c:419-425 | relocating and then setting the slot, as one step |
| Rld.Object.BindKeepsSymbol | docs/rld/rld_key_functions.c:44-111 | after a step the words are addend plus current value if and only if the current value is the new address |
| Rld.Object.BindKeepsSymbolExactly | docs/rld/rld_key_functions.c:44-48 | for a symbol with its own slot: if and only if it has no such words or the address settles (nonzero and no special st_other, or equal to the stub value) |
| Rld.Object.BoundValue | docs/rld/rld_key_functions.c:44-48 | the current value is the address last bound if and only if that address settles |
| Rld.Object.BindKeepsOthers | docs/rld/rld_key_functions.c:56-111 | words and value of every other symbol stay |
| Rld.Object.StepExactly | docs/rld/rld_key_functions.c:44-111 | a step from an object in which every word of every symbol is its addend plus its current value leads to such an object if and only if the symbol has no such words or the address settles |
| Rld.Object.BindAll | docs/rld/rld_reloc_callers.c:578-582 | over any series of steps the object is like that after every step if and only if each of them is such a step |
| Rld.ZeroAddressLosesTrack | docs/rld/rld_reloc_callers.c:338-341 | an undefined weak symbol bound to 0 breaks it: a concrete object and step |
| CookiePump.Proxy | compat/stdio/fopencookie.c:58-84 | the loop follows the state machine Pump, call by call, over a fixed buffer |
| CookiePump.PumpConserves | compat/stdio/funopen.c:55-89 | over every list of outcomes, taken bytes are given bytes and what is held, in order |
| CookiePump.AlwaysSound | compat/stdio/fopencookie.c:50-90 | in every interleaving of application, pipe and thread, what the source let go of is what the sink has, then the bytes in flight, in order |
| CookiePump.SinkIsPrefix | compat/stdio/funopen.c:47-98 | the sink has a prefix of the source |
| CookiePump.InterruptsAreRetried | compat/stdio/fopencookie.c:62-65 | in every interleaving interrupted calls can be left out: the run leads to the same state of application, pipe and thread, so they lose and repeat nothing |
| CookiePump.EndsExactly | compat/stdio/fopencookie.c:60-83 | a failed call, a write that takes nothing and end of file end the thread, and nothing else does |
| CookiePump.ErrorFreeExit | compat/stdio/fopencookie.c:66-83 | without failed calls and writes that take nothing the thread exits only at end of file |
| CookiePump.ErrorFreeRunDeliversAll | compat/stdio/fopencookie.c:66-83 | then everything has arrived when it exits |
| CookiePump.CheckMode | compat/stdio/fopencookie.c:100-119 | the errno for every mode string, and the end of the pipe the application gets |
| CookiePump.CloseAll | compat/stdio/fopencookie.c:147-149 | each descriptor that is still open is closed once |
| CookiePump.Fopencookie | compat/stdio/fopencookie.c:92-152 | when it succeeds each end has one owner; when it fails every descriptor it opened is closed exactly once |
| CookiePump.Funopen | compat/stdio/funopen.c:100-190 | the same except for one case, proved to be the only one: if the thread cannot be started the descriptor of the stream is closed twice |
| StripRpath.StripTable | mogrix/bundle.py:596-606 | the loop computes the stripped bytes, and reports a change if and only if there is one |
| StripRpath.EntryReplaced | mogrix/bundle.py:599-606 | each entry that the scan gets to and that has an RPATH tag becomes (DT_DEBUG, 0) |
| StripRpath.ChangedByte | mogrix/bundle.py:599-606 | a byte that changes belongs to such an entry |
| StripRpath.StripStrips | mogrix/bundle.py:596-606 | every live RPATH entry becomes (DT_DEBUG, 0) and no other byte changes, for every word size and byte order |
| StripRpath.ReplacedReads | mogrix/bundle.py:599-606 | an entry with the tag 15 or 29 that the scan gets to reads 21 and 0 afterwards; one with another tag keeps its bytes |
| StripRpath.HeaderIsLaidOut | mogrix/bundle.py:549-576 | which files have a header, and its fields, by the layout of the ELF header for 4-byte and 8-byte addresses |
| StripRpath.TableIsLaidOut | mogrix/bundle.py:579-594 | the table is given by p_offset and p_filesz of the program header |
| StripRpath.FirstDynamicExactly | mogrix/bundle.py:577-594 | the first program header of type 2, or the first whose type is not in the file, decides |
| Bytes.ReadsFour | mogrix/bundle.py:549-576 | four bytes in either order |
| StripRpath.StripTwice | mogrix/bundle.py:596-606 | stripping a table twice is stripping it once |
| StripRpath.FindDynamic | mogrix/bundle.py:577-594 | the first PT_DYNAMIC, for both classes and byte orders |
| StripRpath.StripLibrary | mogrix/bundle.py:549-610 | a whole file, with the cases that are skipped and the reads beyond its end |
| StripRpath.StripKeepsExactly | mogrix/bundle.py:599-606 | a table stays as it is if and only if the scan gets to no RPATH entry |
| StripRpath.StripLeavesExactly | mogrix/bundle.py:549-610 | a file stays as it is if and only if the parser gets through it and finds no table or one without such an entry; for every file, wherever its table lies |
| StripRpath.StripFileTwiceExactly | mogrix/bundle.py:549-610 | stripping a file twice is stripping it once if and only if that leaves such a file, as it does whenever the dynamic table lies apart from the headers |
| StripRpath.StripsAgain | mogrix/bundle.py:576-606 | a file of 79 bytes whose table covers its own program header: stripping moves the table, and a second run strips again |
| StripRpath.CheckAfterStrip | tools/rld-harness.py:217-229 | the check finds an RPATH in a stripped table if and only if the table ends in a partial entry with an RPATH tag |
| StripRpath.WholeTableHasNoPartial | tools/rld-harness.py:217-229 | which a table of whole entries has not |
| MipsElfCheck.MipsElf.ReadSegments | tools/rld-harness.py:153-173 | the last PT_DYNAMIC, or that a program header runs off the end of the file |
| MipsElfCheck.MipsElf.ReadSections | tools/rld-harness.py:175-215 | whether a read of the section headers runs off the end of the file, and the string table of the last dynamic symbol table |
| MipsElfCheck.MipsElf.ReadTable | tools/rld-harness.py:218-229 | the tag map holds exactly the tags of the entries read, each with the value of its first entry, and says whether there is an RPATH |
| MipsElfCheck.MipsElf.Parse | tools/rld-harness.py:123-229 | for every file: whether it is accepted, whether a read runs off its end, and whether the check finds an RPATH |
| MipsElfCheck.AcceptsExactly | tools/rld-harness.py:123-139 | the bytes that make a file acceptable |
| MipsElfCheck.SectionsAreLaidOut | tools/rld-harness.py:146-151 | the section header fields by the layout of the ELF header |
| MipsElfCheck.DynsymIsLaidOut | tools/rld-harness.py:175-215 | a dynamic symbol table has the type 11 and is neither named ".got" nor ".MIPS.stubs"; its string table is the one that sh_link says |
| MipsElfCheck.ReadableExactly | tools/rld-harness.py:175-215 | which section headers are read, and how far |
| MipsElfCheck.StringTableExactly | tools/rld-harness.py:175-215 | the string table is that of the last dynamic symbol table |
| MipsElfCheck.CheckFailsExactly | tools/rld-harness.py:123-229 | on which files the check stops with an error |
| MipsElfCheck.FindsFails | tools/rld-harness.py:217-229 | the scan reads beyond the file if and only if it gets to an entry that begins in the table and is not in the file to its end |
| MipsElfCheck.LastDynamicExactly | tools/rld-harness.py:154-173 | the last program header of type 2 decides |
| MipsElfCheck.FirstIsLast | tools/rld-harness.py:154-173 | the checker takes the last PT_DYNAMIC, the stripper the first; with one they agree |
| MipsElfCheck.FindsExactly | tools/rld-harness.py:217-229 | the scan of the checker finds an RPATH if and only if it gets to an entry with such a tag or the table ends in a partial one |
| MipsElfCheck.CheckExactly | tools/rld-harness.py:253-255 | so for any file, stripped or not and wherever its table lies, the check fails if and only if the last dynamic table has such an entry |
| MipsElfCheck.CheckOfStripped | tools/rld-harness.py:253-255 | for a file with one PT_DYNAMIC whose table lies apart from the headers, the check fails after stripping if and only if the table ended in a partial entry before |
| MipsElfCheck.CheckOfStrippedWhole | tools/rld-harness.py:253-255 | and never when the size of that table is a multiple of the entry size |
| MipsElfCheck.PartialEntrySurvives | mogrix/bundle.py:599-606 | a whole file of 92 bytes that both tools accept, with one PT_DYNAMIC apart from its headers and a table of half an entry: the stripper leaves it as it is and the check reports it |
| Fixup.FindMarked | tools/irix-fixup.py:70-80 | exactly the unwanted entries, in ascending order, or an error if and only if a type lies beyond the end of the file; for every table, with entries of any size |
| Fixup.FindAbiflags | tools/irix-fixup.py:82-90 | the section header it returns has the unwanted type and no earlier one has; or none has; or a read runs off the end before |
| Fixup.SectionIsFirst | tools/irix-fixup.py:82-90 | that determines the result; an error is raised if and only if there is no such header |
| Fixup.RemoveEntry | tools/irix-fixup.py:102-110 | one removal: a left shift of the entries behind it and a zeroed last entry |
| Fixup.ShiftPartly | tools/irix-fixup.py:99-111 | one removal takes the table that is filtered from some place on to one that is filtered from an earlier place on |
| Fixup.RemoveMarked | tools/irix-fixup.py:98-111 | all removals in descending order leave the order-preserving filter of the table, followed by zeros, and no other byte changes |
| Fixup.FixupElf | tools/irix-fixup.py:48-124 | the whole tool on every file: which it refuses, on which it raises (if and only if a read or a write is needed beyond the end), and what it makes of every other |
| Fixup.HeaderIsLaidOut | tools/irix-fixup.py:48-65 | which files are accepted, and the fields of the header, by the layout of the ELF header |
| Fixup.TablesFitExactly | tools/irix-fixup.py:70-121 | what has to lie in the file for the tool not to raise |
| Fixup.UnwantedExactly | tools/irix-fixup.py:70-80 | a program header has to go if its type is 0x70000003 or 6 |
| Fixup.SectionIsZeroed | tools/irix-fixup.py:82-121 | in bytes: the first section header of type 0x7000002a is e_shentsize zeros afterwards |
| Fixup.OtherBytesStay | tools/irix-fixup.py:98-121 | no byte changes outside e_phnum, the table and the zeroed section header |
| Fixup.FixedTableReads | tools/irix-fixup.py:98-121 | the header of the result differs in e_phnum only, which counts the entries that are kept, and the table is these entries followed by zeros |
| Fixup.NothingMarkedLeft | tools/irix-fixup.py:71-80 | no unwanted header is left among those counted, if an entry is not smaller than its type |
| Fixup.TinyEntriesKeepType | tools/irix-fixup.py:71-110 | with entries of one byte, whose types overlap, one can be left: a file of 58 bytes |
| RunFile.CreateSelfExtracting | mogrix/bundle.py:1500-1532 | the file is the header with its own line count filled in, then the payload; when the header is not ASCII an error is raised and the file, which is open by then, stays empty; for any fixed text |
| RunFile.ReplacesInNames | mogrix/bundle.py:1513-1522 | replacing the placeholder in the whole header is replacing it in each name and in the SKIP line, because the fixed text keeps it from running on |
| RunFile.WrittenLines | mogrix/bundle.py:1519-1522 | replacing it does not change the number of lines, whatever names and fixed text are |
| RunFile.PayloadExtracts | mogrix/bundle.py:1519-1532 | skipping to line SKIP gives exactly the payload, for all names, payloads and fixed texts |
| RunFile.DraftHas26Lines | mogrix/bundle.py:129-156 | 26 lines when no name has a newline |
| RunFile.ExtractRunFile | tools/mogrix-test-server.py:413-436 | the loop over at most 30 lines computes what was read, or raises |
| RunFile.StripExactly | tools/mogrix-test-server.py:426 | strip() takes off white space, the four separators included, and nothing else |
| RunFile.IntExactly | tools/mogrix-test-server.py:429 | int() takes blanks, a sign, and digits with single underscores between them, and nothing else; its value is decimal |
| RunFile.KeysExactly | tools/mogrix-test-server.py:428-430 | how a line that counts begins |
| RunFile.HeaderReads | mogrix/bundle.py:129-136 | the beginning of the header with the fixed text of the original: where each name stands |
| RunFile.ReaderPassesHeader | tools/mogrix-test-server.py:422-431 | behind the header the reader has SKIP 27 and the bundle name up to its first quote, and four more lines to look at |
| RunFile.NameComesBack | tools/mogrix-test-server.py:430-431 | that is the written name if and only if it has no quote and no placeholder in it |
| RunFile.ReadsExactly | tools/mogrix-test-server.py:423-431 | the reader ends with a given number and name if and only if every SKIP line it looks at is readable, the last one has that number and the last BUNDLE line that name, or there is none and it knew them before |
| RunFile.ReaderRecovers | tools/mogrix-test-server.py:419-436 | the reader gets SKIP 27 and the bundle name from a written file if and only if the first four lines of the payload repeat them where they look like header lines, and the name has no quote and no placeholder or is repeated; the payload is extracted in any case |
| RunFile.EarlyKeyMisleads | tools/mogrix-test-server.py:423-429 | a payload that begins with a SKIP line replaces the number |
| RunFile.SubstituteKeeps | mogrix/bundle.py:1522 | a name survives the replacement if and only if the placeholder does not occur in it |
| Registry.BinDir.Install | mogrix/bundle.py:1325-1360 | the install script on any directory, for any list of commands |
| Registry.BinDir.Uninstall | mogrix/bundle.py:1361-1375 | the removals of the uninstall script, against the unchanged registry |
| Registry.BinDir.Clean | mogrix/bundle.py:199-205 | the entries of the bundle are dropped at the end |
| Registry.InstallKeeps | mogrix/bundle.py:1325-1360 | the bundle becomes the only owner of each of its commands; no other owner changes |
| Registry.UninstallSparesOthers | mogrix/bundle.py:1361-1375 | a trampoline registered to another bundle stays, and so does its entry |
| Registry.UninstallKeeps | mogrix/bundle.py:199-205 | one entry a command, and a trampoline for each entry, also after uninstalling |
| Registry.UninstallTidyExactly | mogrix/bundle.py:1361-1375 | no trampoline without an entry is left if and only if the script lists every command its bundle owns |
| Registry.RunIsSound | mogrix/bundle.py:1325-1375 | after every run of installs and uninstalls each command has at most one entry, which names its last installer, and its trampoline leads there |
| Registry.TrampolinesOfRun | mogrix/bundle.py:1325-1375 | after every run a trampoline exists exactly for the commands that have an owner or were left behind by an uninstallation that did not list them, and leads to that bundle |
| Registry.RunTidyExactly | mogrix/bundle.py:1325-1375 | so no trampoline is without an owner if and only if none was left behind |
| Registry.RunIsTidy | mogrix/bundle.py:1325-1375 | with command lists that do not change, a trampoline exists exactly for the commands that have an owner |
| Registry.ChangedListLeavesTrampoline | mogrix/bundle.py:1365-1370 | a shorter list leaves a trampoline behind, which another bundle can then remove |
| GetoptLong.Getopt.Call | compat/functions/getopt_long.c:22-53 | one call on any argument list, from any place a call can have left |
| GetoptLong.Getopt.Long | compat/functions/getopt_long.c:51-107 | the long option branch: the first option of exactly that name, its argument, flag and errors |
| GetoptLong.Getopt.Short | compat/functions/getopt_long.c:110-158 | the short option branch |
| GetoptLong.EndReports | compat/functions/getopt_long.c:28-48 | where the calls end, and that only a "--" is passed |
| GetoptLong.UnknownLetter | compat/functions/getopt_long.c:115-127 | a letter that is not in the option string, or a colon, gives a question mark |
| GetoptLong.LetterReports | compat/functions/getopt_long.c:128-157 | a letter at a place of the option string: its result, its argument, and the answer when that is missing |
| GetoptLong.UnknownLong | compat/functions/getopt_long.c:99-107 | a name that no long option has gives a question mark, and optopt is 0 |
| GetoptLong.LongReports | compat/functions/getopt_long.c:62-98 | the first long option of the name: its result, argument, flag and longindex, for each kind of argument |
| GetoptLong.KeepsReady | compat/functions/getopt_long.c:25-53 | current_pos always is at a character of the element, never at its NUL, when a letter is read |
| GetoptLong.Progresses | compat/functions/getopt_long.c:22-159 | every call that does not return -1 shrinks the unread input |
| GetoptLong.FlagsRead | compat/functions/getopt_long.c:148-155 | a group of letters is reported letter by letter |
| GetoptLong.GroupWithArgument | compat/functions/getopt_long.c:128-147 | letters and then one with an attached or a separate argument |
| GetoptLong.LongRead | compat/functions/getopt_long.c:62-98 | a long option with none, an attached or a separate argument |
| GetoptLong.WordRead | compat/functions/getopt_long.c:22-159 | each way of writing an option is read back as what was meant |
| GetoptLong.WordsRead | compat/functions/getopt_long.c:22-159 | so is any list of them, in order |
| GetoptLong.ReadsBack | compat/functions/getopt_long.c:22-159 | a rendered command line comes back in order and then the calls stop with optind at the first operand, behind a "--" if there is one |
| GetoptLong.TwoColonsExactly | compat/functions/getopt_long.c:128-147 | for every letter with two colons, at every place: the call does what an argument that may be missing asks for if and only if text is attached (or the letter is a "?" at the end of the line); otherwise the next element is taken, or its lack is an error |
| MemStream.MemStream.constructor | compat/stdio/open_memstream.c:142-154 | an empty file in a zeroed buffer of 128 bytes |
| MemStream.MemStream.Grow | compat/stdio/open_memstream.c:25-50 | content and invariant stay, and on success the capacity is the first doubling with room |
| MemStream.MemStream.Write | compat/stdio/open_memstream.c:52-76 | the stream is the file with the bytes put at its position; it fails exactly when it needs memory and there is none, and then nothing changes |
| MemStream.MemStream.Seek | compat/stdio/open_memstream.c:78-101 | the position modulo 2^32 from the place named by whence; an unknown one is refused |
| MemStream.MemStream.Close | compat/stdio/open_memstream.c:103-117 | the caller is left with the content, its length, and a NUL behind it |
| MemStream.GrowthEndsExactly | compat/stdio/open_memstream.c:34-36 | the doubling reaches the need if and only if the need is at most 2^31; beyond, the capacity wraps to zero |
| MemStream.WriteFitsExactly | compat/stdio/open_memstream.c:61-70 | the loop ends with room for the bytes and the NUL if and only if they fit into 2^31 bytes, a need that wraps included |
| MemStream.PutExactly | compat/stdio/open_memstream.c:52-76 | a write of nothing and one without memory do nothing; otherwise the file is written and the capacity doubled just as often as needed |
| MemStream.MoveExactly | compat/stdio/open_memstream.c:78-101 | whence 0, 1 and 2 |
| MemStream.Replay | compat/stdio/open_memstream.c:52-101 | any run of writes, with or without memory, and seeks of every kind keeps the invariant and gives the file |
| MemStream.ReadsWhatWasWritten | compat/stdio/open_memstream.c:65-73 | in that file each byte is the last one written there, zero in gaps, and the end is behind the last byte ever written |
| Timegm.CountYears | compat/time/timegm.c:32-41 | the first loop counts the days of the years, with the leap days since 1970 |
| Timegm.AddMonths | compat/time/timegm.c:43-49 | the second loop adds the days of the months before the given one, and none for a negative month |
| Timegm.Timegm | compat/time/timegm.c:23-56 | for all fields on which no 32-bit sum or product overflows: the result is the time they denote, plus one day for each leap year between the year and 1970, plus the days that a negative month goes back |
| Timegm.RightFrom1969 | compat/time/timegm.c:33-49 | so it is right if and only if the year is at least 1969 and the month is not negative |
| Timegm.FitsFrom1970 | compat/time/timegm.c:33-55 | for valid fields from 1970 on nothing overflows if and only if the time is at most 2^31-1 |
| Timegm.SecondsByFormula | compat/time/timegm.c:33-55 | the time that the fields denote is the closed formula of section 4.16 of POSIX.1-2017 XBD, with the day of the year in closed form too |
| Timegm.MonthDaysClosed | compat/time/timegm.c:25-27 | the table of month lengths: from March on, 153 days in five months |
| Timegm.TwelveMonths | compat/time/timegm.c:29-30 | twelve months are a year, also for months out of range |
| Timegm.ExpandThenConvert | compat/time/timegm.c:17-22 | converting the expansion of a time gives the time |
| Timegm.ConvertThenExpand | compat/time/timegm.c:17-22 | expanding the time of a proper date gives the date |
| Environ.UnsetOnePass | compat/stdlib/setenv.c:60-87 | one pass leaves the order-preserving filter of the environment, NULL-terminated; bad names change nothing |
| Environ.UnsetShifting | compat/dicl/dicl-compat.c:138-162 | repeated shifting leaves the same filter, also with duplicates |
| Environ.ShiftLeft | compat/dicl/dicl-compat.c:152-155 | the inner loop moves everything behind an entry, with the NULL, one place to the left |
| Environ.Matches | compat/stdlib/setenv.c:78 | the comparison holds exactly for entries that begin with the name and a "=" |
| Environ.SetsExactly | compat/stdlib/setenv.c:78 | an entry of the variable is longer than the name, agrees with it, and goes on with "=" |
| Environ.BadNameExactly | compat/stdlib/setenv.c:60-66 | no name, an empty one and one with "=" in it are refused, and no other |
| Environ.BothAgree | compat/dicl/dicl-compat.c:138-162 | the two leave the same environment |
| Environ.RemovedUnsets | compat/stdlib/setenv.c:75-84 | afterwards looking the name up finds nothing, and every other variable is found as before |
| Environ.RemovedKeeps | compat/stdlib/setenv.c:75-84 | exactly the entries of other variables stay, as often as they were there |
| Environ.RemovedTwice | compat/stdlib/setenv.c:75-84 | nothing is left to remove |

## Left out

- Reading specifications, rules, sqlite and YAML in `mogrix/roadmap.py`: `Roadmap.Resolver` takes the requirements and the outcome of the provider resolution as arbitrary functions; classifications and complexity are not recorded, as nothing in the graph depends on them except what `stop_at_rules` looks at.
- `analysis/analyze_tdnf_deps.py`: a weaker form of the same ordering.
- Prune.PruneUnusedLibs: the scan of the bin, sbin and libexec directories is the parameter `binaries`; a link target with a directory in it, which leads out of the library directory, is not modelled. Acyclic links are assumed, without which the loop does not end.
- Rld.Object.Bind: objects with several GOTs, whose value is looked up through the relocation table (`docs/rld/rld_key_functions.c:517-532`), are not modelled; the address is an arbitrary parameter, so `resolve_symbol` and `lazy_text_resolve` are not; trace output is dropped. Relocated words are assumed to be apart from each other and from the GOT slots that are read or written.
- Rld.FindReloc: the cached branch in front of the search is part of `Rld.Object.LookUp`; a table without the null entry in front, for which 0 would be ambiguous, is not modelled.
- CookiePump.Fopencookie: a mode that reads or writes for which the caller passed no callback is not modelled; the thread then works on the wrong end of the pipe and ends with an error. The contents of errno after a failed system call are not modelled.
- CookiePump.Proxy: the scheduler is an arbitrary list of outcomes; a thread that is blocked for ever is a list that ends.
- MipsElfCheck.MipsElf.Parse: of what is read of sections and segments only the string table, the reads that run off the end of the file and the dynamic table are modelled; the checks other than the one for RPATHs are not.
- Fixup.FixedTableReads: a table over the ELF header or over the section header that is zeroed, which then overwrite each other, is excluded; `Fixup.FixupElf` covers it.
- MipsElfCheck.CheckOfStripped: files with several PT_DYNAMIC headers or with a table over their headers are excluded; `MipsElfCheck.CheckExactly` and `StripRpath.StripStrips` cover them.
- StripRpath.StripLibrary: which files of the directory are visited is not modelled; each is one call.
- RunFile.ExtractRunFile: `int()` is that of ASCII text, around which it skips blanks and the characters 9 to 13, without a limit on the number of digits. The extraction by shell commands is `DropLines`, which is what `tail` prints.
- RunFile.ReaderRecovers: names with newlines, for which the header has more lines, and bundle names that are not ASCII, for which the file is left empty, are excluded; `RunFile.PayloadExtracts` covers them.
- Registry.BinDir.Install: matching by `grep` is exact on command and bundle names, as it is for names without characters special to regular expressions; the text of a trampoline is the bundle it leads to; file system errors do not occur.
- GetoptLong.Getopt.Call: messages on standard error are not modelled; a caller that resets optind in the middle of a group, which the static position does not notice, is excluded by the precondition.
- `getopt_long_only`: the same function.
- MemStream.MemStream.Write: writes that do not fit into 2^31 bytes, for which the loop does not end or the copy goes beyond the buffer, are excluded by the precondition, which `MemStream.WriteFitsExactly` shows to be exact; end to end the stream cannot be opened, because `funopen` refuses a seek function (`compat/stdio/funopen.c:113-117`), so only the callbacks are modelled.
- Timegm.Timegm: fields on which a 32-bit operation overflows, and months beyond the thirteenth, for which the original reads past its table, have no result in the original and are excluded by the precondition.
- Environ.UnsetOnePass: strings are compared as values; that entries are pointers which several slots can share is not modelled.
- `utimensat`, `mkdtemp`, `strtof`, `bsearch`, `memmem`, the string copies, header overlays, reports, downloads, servers and the command line: input and output, floating point, or simpler than what is here.
