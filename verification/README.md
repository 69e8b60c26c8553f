# KernInst driver bookkeeping, verified

A Dafny model of the bookkeeping inside the KernInst kernel drivers (Solaris and
Linux), with proofs of what it keeps over whole runs.  `dafny verify
dfyconfig.toml` checks everything.

Each part has the same three layers.  Functions on values (`...Spec`) say what
each routine computes.  Classes and methods with the routine's own arrays, links
and loops are proved to compute exactly that.  Lemmas over the functions prove
the properties of every run.

* **Context-switch timer virtualization** (`HashTableSpec`, `HashTable`,
  `Timers`, `SwitchSpec`, `SwitchLaws`, `Conservation`, `Alternation`,
  `Virtualization`, `TimerTotals`, `TimerAccounts`, `Switch`, `Drive`).
  A switch-out stops the running per-CPU timers, takes a vector from a free list,
  saves the timers in it and files it in a hash table by thread; a switch-in
  undoes this on any CPU.  Each routine runs under one lock and is one step.
* **Undo logs for kernel text writes** (`UndoLog`, `SolarisWrites`,
  `LinuxWritesSpec`, `LinuxWritesProofs`, `LinuxFiles`, `LinuxWrites`).  Two designs, two
  priority dictionaries and a flat array, refine one abstract log whose invariant
  is that memory overlaid with the logged originals is the memory at open.
* **Callee counter** (`CalleeSpec`, `CalleeThreads`, `CalleeDiversion`,
  `CalleeCounter`).  A chained table, once under every interleaving of small
  atomic steps, once serially.
* **Homogenous heap** (`HeapSpec`, `HeapProofs`, `HeapRuns`, `Heap`).  A growing
  chain of subheaps of equal chunks.
* **Allocation log** (`AllocLogSpec`, `AllocLogProofs`, `Padding`, `AllocLog`).
  Aligned allocation with padding and retry over four backing allocators.
* **Symbol table** (`SymTabSpec`, `SymTabProofs`, `SymTabRoundTrip`, `SymTab`).
  The Linux 2.6 driver's two-pass serializer, and the daemon's reader.

`Arith`, `Hashing` and `Wrappers` hold what the parts share.  Counter
readings, memory changed by instrumentation, the allocators' answers and the
regions given by `create_subheap` are inputs.

## Where code and promises differ

The code is modelled as it is.  Where a promise fails, a lemma gives the failing
inputs and another the exact condition under which it holds.

* `hash_table.h` promises NULL when nothing is removed; removal, lookup and
  update ignore tombstones, so a key once added is found until the table packs
  (`StaleKeysStillFound`).
* Packing leaves one entry twice on exactly one shape of table
  (`PackDuplicatesIff`), and such a key comes back after removal
  (`PackResurrects`).
* A table of 256 entries refuses a new key when all are live, and also with 255
  live entries on that same shape (`FullRefusesIff`).
* The vectors stay partitioned between free list and table exactly on runs whose
  every step is clean (`RunConservesIff`): with handling on, a thread ever saved
  comes in only while it is held, and none is saved while held
  (`HistoryConservesIff`).  Threads that alternate properly can leave such runs
  (`AlternatingRunBreaks`), and do exactly when one saved once is not saved at a
  later switch-out it comes back from (`AlternatingConservesIff`).
* Timers keep readings of 48 and 32 bits, and a switch-in restarts a timer even
  where it already runs, dropping what ran so far (`RestartLoses`).  Totals are
  exact if and only if every interval fits and no such restart happens
  (`TotalExactIff`, and over whole runs `TotalsIff`).
* The Linux log is keyed by start address only; `WriteKeepsGoodIff` says which
  writes it can take back, `LoggedWriteRestorableIff` and
  `FreshWriteRestorableIff` exactly when closing right after a write restores
  memory.  A write of length 0 stores a byte it does not log
  (`ZeroWriteKeepsGoodIff`, `ZeroWriteRestorableIff`).
* A callee-counter thread can count another pair's cell, on runs from reset: after
  finding its own (`MiscountPossible`), after finding none (`NullMiscount`), and
  after finding site and callee in two different cells (`MixedMiscount`).  It does
  exactly when, since it came to the cell before, the last insertion there was for
  another pair (`VisitCountsIff`, `CountsOwnIff`).  No bin's sum is affected
  (`AnyInterleaving`).
* The heap's comment says each new subheap has twice the entries; the code gives
  it 150% in whole chunks, which is twice exactly while the largest holds at most
  one chunk (`DoublesIff`); two one-element chunks grow to three (`NotTwice`).
* A freed chunk reaches its subheap exactly when no earlier one takes its address
  by an index cut to 32 bits (`PushReachesIff`, `FarRegionMisfiles`).
* The allocator's size checks panic exactly when the retry block starts 1 to 3
  bytes past a multiple of the alignment (`AllocPanicsIff`).  Two allocators'
  first answers are not checked, and a misaligned one is passed on
  (`GrantedAlignedIff`).
* The symbol table's size is right below 256 modules (`ReportedIff`), its module
  count only below 255 (`CountWraps`).  A module called kernel that has symbols
  (`KernelNamesake`) and any name of 255 bytes or more (`NamesFoundIff`) also
  defeat the daemon's reader; `RoundTripIff` gives the exact condition.

## Model

| member | source | states |
|---|---|---|
| HashTableSpec.BinIgnoresWrap | kerninstdriver/src/hash_table.c:34-43 | the 32-bit wrap-around in the hash accumulator never changes the bin: it is the bin of the polynomial over unbounded integers |
| HashTableSpec.ChainsPartition | kerninstdriver/src/hash_table.c:45-60 | in a linked table the walk from a bin holds exactly the indices whose keys hash to it, strictly descending, so every index is on one chain once and walks end |
| HashTableSpec.LinkedAppend | kerninstdriver/src/hash_table.c:123-144 | adding an element at the array's end and its chain's front keeps every chain right |
| HashTableSpec.LinkedSameKeys | kerninstdriver/src/hash_table.c:149-191 | changing data and tombstones without changing a key keeps every chain right |
| HashTableSpec.CompactKeeps | kerninstdriver/src/hash_table.c:68-89 | where the two-pointer loop stops, everything below is live and holds exactly the live entries, plus the straddling one |
| HashTableSpec.PackedContents | kerninstdriver/src/hash_table.c:62-106 | packing keeps every live (key, data) pair copy for copy, drops every tombstone, leaves entries dense, and ends with the live count, or one more on the straddling shape |
| HashTableSpec.PackDuplicatesIff | kerninstdriver/src/hash_table.c:71-105 | packing leaves an entry too many if and only if, with L live entries, slot L-1 is a tombstone and slot L is live |
| HashTableSpec.PackedFinds | kerninstdriver/src/hash_table.c:62-106 | with distinct keys, after packing a key is found if and only if it was live, with the same data |
| HashTableSpec.PackResurrects | kerninstdriver/src/hash_table.c:71-105 | on every straddling table the duplicated key, once removed, is found again after the next packing |
| HashTableSpec.FullRefusesIff | kerninstdriver/src/hash_table.c:115-121 | a full table refuses a key if and only if some entry of the key is live, all 256 entries are live, or 255 are and the table has the straddling shape |
| HashTableSpec.AddStores | kerninstdriver/src/hash_table.c:123-144 | on every table, full ones included, a key that was added is found, live and with its data |
| HashTableSpec.AddCopies | kerninstdriver/src/hash_table.c:108-147 | on every table every live pair keeps its copies through an add, plus one for the pair added and one for the entry packing a full straddling table duplicates |
| HashTableSpec.FullAddRefines | kerninstdriver/src/hash_table.c:108-147 | with distinct keys, an add to a full table forgets exactly the keys that are not live, and sets its own if it is not refused |
| HashTableSpec.StepRefines | kerninstdriver/src/hash_table.c:108-191 | each operation, but for adding to a full table, is the same operation on a map from key to last data and liveness, with the same reply |
| HashTableSpec.RunRefinesMap | kerninstdriver/src/hash_table.c:108-191 | from initialization every run that adds at most 255 keys, whatever other keys it asks for, is a run of that map, reply for reply |
| HashTableSpec.MapRunKnows | kerninstdriver/src/hash_table.c:108-191 | the map knows a key if and only if it did at the start or some add named it |
| HashTableSpec.StaleKeysStillFound | kerninstdriver/src/hash_table.h:59-60 | after any such run remove and lookup yield data, and update succeeds, exactly for keys ever added, removed since or not |
| HashTable.HashBin | kerninstdriver/src/hash_table.c:34-43 | the hashing loop computes the bin |
| HashTable.Table.Initialize | kerninstdriver/src/hash_table.c:14-24 | an empty, linked table |
| HashTable.Table.KeyAndBinToElem | kerninstdriver/src/hash_table.c:45-60 | the chain walk returns the highest index with the key, or -1 |
| HashTable.Table.CompactElems | kerninstdriver/src/hash_table.c:68-89 | the in-place two-pointer loop is the compaction function; from - to is its measure |
| HashTable.Table.Rebuild | kerninstdriver/src/hash_table.c:91-105 | re-chaining the compacted elements gives a linked table of them |
| HashTable.Table.Pack | kerninstdriver/src/hash_table.c:62-106 | the table stays linked and holds the packing of what it held |
| HashTable.Table.AddElem | kerninstdriver/src/hash_table.c:108-147 | 0 or -1 and the new contents as specified: pack when full, refuse a live key, reuse its tombstone |
| HashTable.Table.RemoveElem | kerninstdriver/src/hash_table.c:149-166 | marks the newest element of the key and returns its data, tombstone or not |
| HashTable.Table.LookupElem | kerninstdriver/src/hash_table.c:168-178 | the newest element's data, tombstone or not |
| HashTable.Table.UpdateElem | kerninstdriver/src/hash_table.c:180-191 | replaces the newest element's data, tombstone or not |
| Timers.TypeFields | kerninstdriver/src/vtimer.h:37-40 | a counter type put together from kind, wall flag and counter number is taken apart into the same three |
| Timers.StopReads | kerninstdriver/src/context_switch.c:35-128 | for every counter type and all register contents a stop saves the recursion count and the low half of %pic, its high half or 48 bits of %tick, adds the counts since the start modulo 2^64, and only turns off a kind without a counter |
| Timers.RestartReads | kerninstdriver/src/context_switch.c:130-207 | likewise a restart runs on from that reading with the saved recursion count, and adds the counts since the stop for a wall timer alone |
| Timers.SeenIff | kerninstdriver/src/context_switch.c:50-121 | the difference of two cut readings never exceeds the events between, and equals them if and only if the interval is measurable: below 2^32 for a performance counter; for ticks empty, or begun since driver load and crossing no multiple of 2^48 |
| Timers.StopCountsIff | kerninstdriver/src/context_switch.c:35-128 | a stop leaves the timer off, saves its recursion count and the reading, and adds the events since its start if and only if that interval is measurable, fewer otherwise |
| Timers.RestartCountsIff | kerninstdriver/src/context_switch.c:130-207 | a restart runs the timer from this reading with the saved recursion count; a virtual total is kept, a wall total gains the switched-out events if and only if that interval is measurable |
| Timers.LiveTotals | kerninstdriver/src/context_switch.c:97-206 | over any sequence of stretches on any CPUs the totals of all CPUs grow by exactly what the readings show |
| Timers.TotalExactIff | kerninstdriver/src/context_switch.c:50-206 | over one thread's life on any CPUs a timer's total grows by exactly the on-CPU events (virtual) or last minus first (wall) if and only if every interval it measures is measurable, for performance counters and ticks alike |
| TimerTotals.StepCountsIff | kerninstdriver/src/context_switch.c:223-340 | one event of the whole driver adds to the sum of a registered timer's per-CPU totals at most the interval it closes, and exactly that if and only if the interval is measurable |
| TimerAccounts.StepAccruesIff | kerninstdriver/src/context_switch.c:223-340 | from one event to the next, totals and intervals under way together grow by at most the counts passed times the CPUs the timer runs on (for a wall timer also the threads it is saved for), and by exactly that if and only if the interval closed is measurable and the timer is not restarted on a CPU where it has run since an earlier count |
| TimerAccounts.TotalsIff | kerninstdriver/src/context_switch.c:223-340 | over every clean run of any threads sharing the timer, toggles included: the per-CPU totals and the intervals still under way grow together by at most all that accrued, counted apart from the code's stamps, and by exactly that if and only if every interval closed is measurable and no switch-in restarts the timer on a CPU where it has run since an earlier count |
| TimerAccounts.RestartLoses | kerninstdriver/src/context_switch.c:184-190 | from initialization, a clean run after which a switch-in on the CPU where the timer runs loses ten counts |
| SwitchSpec.SafeNext | kerninstdriver/src/context_switch.c:223-340 | every step, clean or not, keeps links and indices in range and every vector in the table ended by NULL within its 50 slots |
| SwitchLaws.RegisterIff | kerninstdriver/src/all_vtimers.c:40-78 | up to 49 timers are registered, in order; the next changes nothing |
| SwitchLaws.DeregisterMoves | kerninstdriver/src/all_vtimers.c:108-141 | the last registration takes the place of the first one of the timer, and all else but saved vectors stays |
| SwitchLaws.ToggleFlips | kerninstdriver/src/kerninst.c:978-988 | toggling flips switch handling alone, and twice is nothing |
| SwitchLaws.ClearStarts | kerninstdriver/src/kerninst.c:963-976 | no timer or thread is left and the free list is all 200 vectors in order |
| SwitchLaws.QuietSwitches | kerninstdriver/src/context_switch.c:223-340 | with handling off, no registered timer running or a thread never saved, nothing changes |
| SwitchLaws.StopCounts | kerninstdriver/src/context_switch.c:296-327 | a switch-out stops each running registered timer once, however often it is registered |
| SwitchLaws.UnsavedCounts | kerninstdriver/src/context_switch.c:296-327 | without a vector the unsaved count grows by the number of running registered timers, in 32 bits, and nothing but memory changes with it |
| SwitchLaws.VectorFilled | kerninstdriver/src/context_switch.c:296-336 | a switch-out writes the saved pairs and one NULL address to its vector, and no other slot of any vector |
| SwitchLaws.SavedInOrder | kerninstdriver/src/context_switch.c:296-327 | the pairs are saved in order of registration |
| SwitchLaws.SwitchInKeeps | kerninstdriver/src/context_switch.c:223-271 | a switch-in changes memory, table and free list only |
| Conservation.SwitchInConserves | kerninstdriver/src/context_switch.c:223-271 | the switch-in of a waiting thread moves exactly its vector back to the free list |
| Conservation.SwitchOutConserves | kerninstdriver/src/context_switch.c:273-340 | a saving switch-out moves exactly the head of the free list to the thread |
| Conservation.TombstoneBreaks | kerninstdriver/src/context_switch.c:241-267 | a switch-in meeting a tombstone always unbalances the accounts |
| Conservation.DoubleFreeCycles | kerninstdriver/src/stacklist.c:63-71 | freeing a free vector ties the list into a cycle |
| Conservation.DoubleSaveBreaks | kerninstdriver/src/context_switch.c:334-336 | saving an already saved thread loses a vector |
| Conservation.StepConservesIff | kerninstdriver/src/context_switch.c:223-340 | one step keeps every vector in exactly one place if and only if it is clean |
| Conservation.RunConservesIff | kerninstdriver/src/context_switch.c:223-340 | over every run of fewer than 256 threads the 200 vectors are partitioned, each once, between an acyclic free list and the live entries at every step if and only if every step is clean |
| Conservation.RunFromResetConservesIff | kerninstdriver/src/kerninst.c:963-976 | the same from initialization, whatever memory and vectors held |
| Conservation.AlternatingRunBreaks | kerninstdriver/src/context_switch.c:223-340 | a thread that alternates out and in, without a timer running the second time, breaks conservation |
| Alternation.AlternatingRunIff | kerninstdriver/src/context_switch.c:223-340 | while every thread alternates, every step is clean if and only if no switch-in meets a tombstone |
| Alternation.HistoryIff | kerninstdriver/src/context_switch.c:223-340 | on any run, every step is clean if and only if, with handling on, a thread ever saved since the last clearing comes in only while held, and none is saved while held |
| Alternation.HistoryConservesIff | kerninstdriver/src/context_switch.c:223-340 | from initialization, over every run of fewer than 256 threads, alternating or not, with switch handling toggled at any time, the vectors stay partitioned at every step if and only if that condition on the history holds |
| Alternation.AlternatingConservesIff | kerninstdriver/src/context_switch.c:223-340 | with handling on throughout and every thread alternating, that is if and only if no switch-in meets a tombstone, equivalently if and only if a thread saved once is saved at every later switch-out it comes back from |
| Virtualization.StopAllSaves | kerninstdriver/src/context_switch.c:296-327 | only running registered timers are saved, each once |
| Virtualization.StopAllComplete | kerninstdriver/src/context_switch.c:97-127 | every registered running timer of a valid kind is saved with its count |
| Virtualization.SwitchOutStopsAll | kerninstdriver/src/context_switch.c:273-340 | after any enabled switch-out no registered timer runs on that CPU, saved or not |
| Virtualization.RestartAllRestores | kerninstdriver/src/context_switch.c:251-264 | every saved timer is restarted from exactly the pair saved for it |
| Virtualization.DropPrefix | kerninstdriver/src/all_vtimers.c:80-106 | the shifting loop removes the address from the NULL-ended prefix and keeps all other pairs in order, whatever lies past the NULL |
| Virtualization.DeregisterForgets | kerninstdriver/src/all_vtimers.c:80-141 | deregistering takes one registration away and the timer out of every waiting thread's saved list, and nothing else |
| Virtualization.SavedOkNext | kerninstdriver/src/all_vtimers.c:40-141 | no saved list ever names a timer twice or one no longer registered |
| Virtualization.KeepsRun | kerninstdriver/src/context_switch.c:223-340 | a saved pair survives any clean run of other threads, registrations, other deregistrations, toggles and instrumentation |
| Virtualization.Virtualized | kerninstdriver/src/context_switch.c:97-127 | a timer running at switch-out has the same recursion count after the switch-in on any CPU, whatever happened between |
| Switch.StackList.Initialize | kerninstdriver/src/stacklist.c:13-34 | the initialization loop links all vectors in order |
| Switch.StackList.Get | kerninstdriver/src/stacklist.c:45-61 | takes the head, or -1 |
| Switch.StackList.Free | kerninstdriver/src/stacklist.c:63-71 | relinks the vector at the head |
| Switch.AllVtimers.Add | kerninstdriver/src/all_vtimers.c:40-78 | appends, or 1 when 49 timers are registered |
| Switch.AllVtimers.Remove | kerninstdriver/src/all_vtimers.c:108-141 | found if and only if registered; the last registration takes its place |
| Switch.Driver.OnSwitchOut | kerninstdriver/src/context_switch.c:273-340 | the object's memory becomes the specified state: timers stopped, vector taken, filled, ended and filed |
| Switch.Driver.OnSwitchIn | kerninstdriver/src/context_switch.c:223-271 | the object's memory becomes the specified state: entry removed, timers restarted, vector freed |
| Switch.Driver.AddToAllVtimers | kerninstdriver/src/all_vtimers.c:40-78 | the registration, and 0 if and only if there was room |
| Switch.Driver.RemoveFromHashtable | kerninstdriver/src/all_vtimers.c:80-106 | the nested shifting loops scrub the vector of every live entry |
| Switch.Driver.RemoveFromAllVtimers | kerninstdriver/src/all_vtimers.c:108-141 | the deregistration, 0 if and only if it was registered |
| Switch.Driver.ClearClientState | kerninstdriver/src/kerninst.c:963-976 | the initial state again |
| Switch.Driver.ToggleSwitchHandling | kerninstdriver/src/kerninst.c:978-988 | flips switch handling and nothing else |
| Drive.Drive | kerninstdriver/src/context_switch.c:223-340 | executing any sequence of events on the object leaves it in the state of the run the lemmas are about |
| UndoLog.RunKeepsOpened | kerninstdriver/src/loggedMem.C:87-223 | over every run of the abstract log memory overlaid with the originals is the memory at open |
| UndoLog.UndoRestoresOldest | kerninstdriver/src/loggedMem.C:131-223 | after any run undoing a cell gives its oldest value, and undoing all gives the memory at open and an empty log |
| SolarisWrites.WriteRefines | kerninstdriver/src/physMem.C:85-100 | an undoable aligned write is one abstract write, or a panic that changes nothing |
| SolarisWrites.WriteKeepsOpenedIff | kerninstdriver/src/loggedMem.C:87-129 | with a caller-given old value the overlay survives if and only if the word was logged or the value is the one it holds |
| SolarisWrites.WriteFiles | kerninstdriver/src/loggedMem.C:87-129 | a write files an unlogged word under the priority named, with the value given, and returns 0; a logged word is not filed again and gives 1; it panics exactly on a misaligned address or a new word with neither priority |
| SolarisWrites.UndoWordRefines | kerninstdriver/src/loggedMem.C:131-149 | an explicit undo restores the oldest value and forgets the word |
| SolarisWrites.ChangeRefines | kerninstdriver/src/loggedMem.C:163-186 | changing priority logs and restores nothing |
| SolarisWrites.RunKeeps | kerninstdriver/src/loggedMem.C:87-223 | over every run the priorities are disjoint and the overlay is the memory at open |
| SolarisWrites.PrioritiesFollow | kerninstdriver/src/loggedMem.C:87-186 | over every run the two dictionaries are one map from word to priority and entry: a word is in pri0 if and only if it is logged and the last write that logged it, or change since, named 0 |
| SolarisWrites.UndoAfterAnyRun | kerninstdriver/src/loggedMem.C:131-149 | after any run an undo of a logged word gives its value at open |
| SolarisWrites.LoggedWrites.PerformUndoableAlignedWrite | kerninstdriver/src/loggedMem.C:87-129 | the object's two dictionaries and memory become the specified state, panics included |
| SolarisWrites.LoggedWrites.WriteUndoable | kerninstdriver/src/physMem.C:85-100 | reads the word, then writes it undoably |
| SolarisWrites.LoggedWrites.UndoWriteWord | kerninstdriver/src/loggedMem.C:131-149 | the specified undo, with its return code |
| SolarisWrites.LoggedWrites.ChangeHowSoon | kerninstdriver/src/loggedMem.C:163-186 | the specified move between dictionaries |
| SolarisWrites.LoggedWrites.Undo | kerninstdriver/src/loggedMem.C:188-223 | in any iteration order memory is the memory at open, both dictionaries are empty, and the words put back are, in order, each priority-0 word once and then each other word once |
| LinuxWritesSpec.UndoOrderComplete | kerninstdriver-linux/src/loggedWrites.c:40-62 | closing undoes exactly the logged entries, those with howsoon 0 first |
| LinuxWritesSpec.SelectInOrder | kerninstdriver-linux/src/loggedWrites.c:46-57 | entries of one priority are undone in the order of the list |
| LinuxWritesSpec.CloseDisabled | kerninstdriver-linux/src/physMem.c:102-120 | closing with writing disabled leaves memory as it is |
| LinuxWritesSpec.GoodRestores | kerninstdriver-linux/src/loggedWrites.c:40-62 | closing on a good log with writes enabled restores all memory, overlapping ranges included |
| LinuxWritesSpec.WriteKeepsGoodIff | kerninstdriver-linux/src/loggedWrites.c:64-95 | a write of 1 to 16 bytes keeps the log good for all bytes of its length if and only if a fresh range meets logged bytes only at their originals and a later one stays within logged bytes |
| LinuxWritesSpec.ZeroWriteKeepsGoodIff | kerninstdriver-linux/src/physMem.c:107-111 | a write of length 0, which stores one byte all the same, keeps the log good for all bytes if and only if its address is logged or a full log refuses it |
| LinuxWritesSpec.UndoRestoresRange | kerninstdriver-linux/src/loggedWrites.c:97-121 | an undo gives its whole range the bytes at open and touches no other byte |
| LinuxWritesSpec.UndoKeepsGood | kerninstdriver-linux/src/loggedWrites.c:97-121 | swap-with-last removal keeps the log good |
| LinuxWritesSpec.ChangeKeepsGood | kerninstdriver-linux/src/loggedWrites.c:123-138 | changing howsoon keeps the log good |
| LinuxWritesProofs.GoodIsOverlay | kerninstdriver-linux/src/loggedWrites.c:64-121 | a good log is the abstract log: memory overlaid with its originals is the memory at open |
| LinuxWritesProofs.WriteRefines | kerninstdriver-linux/src/loggedWrites.c:64-95 | a write the log can take back is one abstract write |
| LinuxWritesProofs.UndoRefines | kerninstdriver-linux/src/loggedWrites.c:97-121 | an undo is one abstract restore of its range, forgetting what no other entry covers |
| LinuxWritesProofs.CloseRestores | kerninstdriver-linux/src/loggedWrites.c:40-138 | from open, after any run of writes of 0 to 16 bytes the log can take back, undos and changes with writes enabled, closing restores all memory |
| LinuxWritesProofs.SimpleWritesOk | kerninstdriver-linux/src/loggedWrites.c:64-95 | disjoint ranges, and later writes no longer than the first, are always such writes |
| LinuxWritesProofs.LoggedWriteRestorableIff | kerninstdriver-linux/src/loggedWrites.c:71-94 | closing right after a write at a logged address restores memory if and only if each byte is logged or is its byte at open |
| LinuxWritesProofs.FreshWriteRestorableIff | kerninstdriver-linux/src/loggedWrites.c:77-94 | the exact condition for closing right after a fresh write |
| LinuxWritesProofs.ZeroWriteRestorableIff | kerninstdriver-linux/src/loggedWrites.c:77-94 | closing right after a fresh write of length 0 restores memory if and only if the byte found in its empty entry is the byte at open, or an entry undone later covers it |
| LinuxFiles.WriteFiles | kerninstdriver-linux/src/loggedWrites.c:64-95 | a write files its address once, with the bytes there and the priority named, stores the bytes if enabled, and returns 1 exactly for a new address when 1024 are filed |
| LinuxFiles.ZeroWriteFiles | kerninstdriver-linux/src/loggedWrites.c:64-95 | the same for length 0 |
| LinuxFiles.UndoFiles | kerninstdriver-linux/src/loggedWrites.c:97-121 | an undo takes out exactly the entry at the address, stores its bytes if enabled, and returns 1 exactly if there is none |
| LinuxFiles.ChangeFiles | kerninstdriver-linux/src/loggedWrites.c:123-138 | a change gives the entry at the address the new priority and nothing else, and returns 1 exactly if there is none |
| LinuxFiles.LogFollows | kerninstdriver-linux/src/loggedWrites.c:64-138 | over every run the list is a map from start address to entry, each address once, and memory is what those calls on the map leave |
| LinuxWrites.LoggedWrites.DoAtomicWrite | kerninstdriver-linux/src/physMem.c:20-99 | storing a padded 4-, 8- or 16-byte unit, or several, changes exactly the bytes given |
| LinuxWrites.LoggedWrites.Write1Insn | kerninstdriver-linux/src/physMem.c:102-131 | writes exactly the bytes given, the first byte for length 0, or nothing when writing is disabled |
| LinuxWrites.LoggedWrites.PerformUndoableWrite | kerninstdriver-linux/src/loggedWrites.c:64-95 | the array and memory become the specified state, length 0 included; a full log writes nothing |
| LinuxWrites.LoggedWrites.UndoWrite | kerninstdriver-linux/src/loggedWrites.c:97-121 | the specified undo with swap-with-last removal |
| LinuxWrites.LoggedWrites.ChangeHowSoon | kerninstdriver-linux/src/loggedWrites.c:123-138 | the specified change, with its return code |
| LinuxWrites.LoggedWrites.Destroy | kerninstdriver-linux/src/loggedWrites.c:40-62 | the two loops leave the specified memory |
| CalleeSpec.AppendKeepsTable | kerninstdriver-linux/src/calleeCounter.c:90-106 | linking in a new cell keeps every bin's chain acyclic and loses no cell |
| CalleeSpec.BumpKeepsTable | kerninstdriver-linux/src/calleeCounter.c:107-112 | counting keeps the chains |
| CalleeSpec.BinOfWord | kerninstdriver-linux/src/calleeCounter.c:62-74 | the bin of a site depends on its word address alone, and is that of the polynomial without wrap-around |
| CalleeThreads.StepKeepsInv | kerninstdriver-linux/src/calleeCounter.c:76-119 | no atomic step of any thread follows a NULL next, and each keeps chains and sums |
| CalleeThreads.AnyInterleaving | kerninstdriver-linux/src/calleeCounter.c:76-119 | from reset, under every interleaving of any number of updates, chains stay acyclic, hold only sites of their bin and lose no cell, and each bin's counts sum to its completed updates, less the multiples of 2^32 lost by wrap-around |
| CalleeThreads.UpdatesAccounted | kerninstdriver-linux/src/calleeCounter.c:76-119 | from reset, under every interleaving, each update begun for a bin is completed, given up for lack of a cell, or still under way |
| CalleeDiversion.LinkAfter | kerninstdriver-linux/src/calleeCounter.c:90-106 | over any interleaving a cell keeps its link if nothing was inserted after it, and otherwise leads to a cell of the pair inserted there last |
| CalleeDiversion.CountsFoundIff | kerninstdriver-linux/src/calleeCounter.c:107-112 | after any events of other threads a thread that decided to count counts the cell that followed its own then if and only if none of them inserted in between |
| CalleeDiversion.VisitCountsIff | kerninstdriver-linux/src/calleeCounter.c:84-112 | from the test for the end of the chain to the count, under any interleaving: the count goes to the cell that followed at the start if and only if no thread inserted there since, and to a cell of the thread's own pair if and only if none did or the last one inserted that pair |
| CalleeDiversion.VisitInserts | kerninstdriver-linux/src/calleeCounter.c:90-106 | a visit that ends in an insertion records the thread's own pair with count 1, or changes nothing when no cell is left |
| CalleeDiversion.CountsOwnIff | kerninstdriver-linux/src/calleeCounter.c:76-112 | for a whole update, from reset or between updates, under any interleaving: there is an event at which its present visit began, and the count goes to its own pair if and only if since then nothing was inserted after the cell visited, or that pair last |
| CalleeDiversion.MiscountPossible | kerninstdriver-linux/src/calleeCounter.c:84-112 | from reset, for every site and two callees, one update of the first and two of the second can leave them with counts two and one |
| CalleeDiversion.NullMiscount | kerninstdriver-linux/src/calleeCounter.c:84-112 | from reset, one update each of two callees can leave the second with count two and the first without a cell |
| CalleeDiversion.MixedMiscount | kerninstdriver-linux/src/calleeCounter.c:84-112 | from reset, with two sites of one bin, an update can be counted for the other site |
| CalleeCounter.RunCounts | kerninstdriver-linux/src/calleeCounter.c:76-119 | serially from reset, a pair has a cell if and only if fewer than 7679 distinct pairs preceded it, and its count is its updates modulo 2^32 |
| CalleeCounter.RecordedCount | kerninstdriver-linux/src/calleeCounter.c:90-97 | all pairs met are recorded, up to 7679 |
| CalleeCounter.Counter.Reset | kerninstdriver-linux/src/calleeCounter.c:46-59 | an empty table, whatever it held |
| CalleeCounter.Counter.Hfunc | kerninstdriver-linux/src/calleeCounter.c:62-74 | the hashing loop computes the bin |
| CalleeCounter.Counter.Update | kerninstdriver-linux/src/calleeCounter.c:76-119 | the walk and its two outcomes are one update of the recorded map |
| CalleeCounter.Counter.NumCallees | kerninstdriver-linux/src/calleeCounter.c:121-136 | the number of recorded callees of the site |
| CalleeCounter.Counter.GetCallees | kerninstdriver-linux/src/calleeCounter.c:138-155 | fills two slots for each of the site's recorded callees, each once with its count, up to the number asked for, and no other slot |
| HeapSpec.NewSizeGrows | util/h/HomogenousHeapBase.h:250-258 | barring wrap-around a new subheap holds whole chunks, more than the largest so far and at least 4/3 of it |
| HeapSpec.DoublesIff | util/h/HomogenousHeapBase.h:39-45 | barring wrap-around a new subheap has at least twice the elements of the largest so far if and only if that holds at most one chunk |
| HeapSpec.GrowthBound | util/h/HomogenousHeapBase.h:250-271 | with each subheap at least 4/3 of the next, 3^k times the largest is at least 4^k times the k-th |
| HeapProofs.BelongsToOwn | util/h/HomogenousHeapBase.h:150-174 | a chunk belongs to its own subheap |
| HeapProofs.OwnChecksHold | util/h/HomogenousHeapBase.h:165-169 | and passes both alignment checks there |
| HeapProofs.BelongsToNoOther | util/h/HomogenousHeapBase.h:150-174 | and to no other, when the truncated index cannot alias |
| HeapProofs.StackHasRoom | util/h/HomogenousHeapBase.h:176-186 | while one of its chunks is out a subheap's stack has room |
| HeapProofs.PushReachesIff | util/h/HomogenousHeapBase.h:165-186 | wherever the regions lie, a freed chunk lands on its own subheap's stack and no other changes if and only if no earlier subheap takes it by an index cut to 32 bits |
| HeapProofs.OutstandingApart | util/h/HomogenousHeapBase.h:102-122 | two chunks handed out never overlap |
| HeapProofs.PopKeeps | util/h/HomogenousHeapBase.h:102-122 | allocate takes a chunk nobody holds and fails only when all stacks are empty |
| HeapProofs.PopTakesFirst | util/h/HomogenousHeapBase.h:102-122 | allocate takes the top of the first stack that has a chunk and touches no other |
| HeapProofs.FreeKeeps | util/h/HomogenousHeapBase.h:176-186 | freeing a chunk that is out always reaches its subheap, and outstanding plus free chunks stay exactly all chunks |
| HeapProofs.AllocKeeps | util/h/HomogenousHeapBase.h:243-276 | alloc fails if and only if no chunk is free and no subheap is given, and then changes nothing; otherwise the chunk is new and all chunks stay accounted for |
| HeapProofs.AllocGrowsIff | util/h/HomogenousHeapBase.h:243-276 | alloc makes a subheap if and only if nothing is free and a region is given; the new one comes first, whole but for the chunk handed out, and the others stay |
| HeapRuns.RunFine | util/h/HomogenousHeapBase.h:243-286 | over every run of alloc and of free of held chunks all chunks are accounted for and sizes strictly decrease down the list |
| HeapRuns.FreshHeapRuns | util/h/HomogenousHeapBase.h:243-286 | from one subheap, after any run held chunks are pairwise disjoint, and with k growths the largest n satisfies 3^k n >= 4^k n0 |
| HeapRuns.FarRegionMisfiles | util/h/HomogenousHeapBase.h:165-166 | regions 2^32 elements apart make a chunk land on the wrong stack |
| Heap.SubHeap.constructor | util/h/HomogenousHeapBase.h:188-216 | the fill loop leaves the stack of all chunks |
| Heap.SubHeap.Allocate | util/h/HomogenousHeapBase.h:102-122 | pops from the first subheap down the links that has a chunk; its check holds |
| Heap.SubHeap.Deallocate | util/h/HomogenousHeapBase.h:176-186 | pushes on the first subheap down the links the chunk belongs to; no check fails and no stack overflows |
| Heap.HomogenousHeap.Alloc | util/h/HomogenousHeapBase.h:243-276 | the specified result; the chunk was not held before; fails only when nothing is free and no subheap is given |
| Heap.HomogenousHeap.Free | util/h/HomogenousHeapBase.h:278-286 | null is ignored, a held chunk goes back to its subheap |
| AllocLogProofs.AllocateAdds | kerninstdriver/src/loggedAllocRequests.C:97-170 | allocate holds exactly one block more when it succeeds and none more when it fails, whichever attempt failed and why |
| AllocLogProofs.AllocConserves | kerninstdriver/src/loggedAllocRequests.C:173-269 | alloc keeps the blocks held equal, with type, addresses and size, to the blocks logged |
| AllocLogProofs.FreeConserves | kerninstdriver/src/loggedAllocRequests.C:312-371 | free gives back only a held block with its true size, and swap-with-back removal keeps the equality |
| AllocLogProofs.FreeExact | kerninstdriver/src/loggedAllocRequests.C:312-371 | free releases exactly the first record equal in address, mapping and size, moves the last into its place, and does nothing for null or an unknown address |
| AllocLogProofs.UndoReleasesAll | kerninstdriver/src/loggedAllocRequests.C:271-310 | undo gives back every held block exactly once with its size, and nothing else |
| AllocLogProofs.AnyRunConserves | kerninstdriver/src/loggedAllocRequests.C:97-371 | over every run, whatever the allocators answer, short of a panic: nothing unheld is ever given back, held is logged, and undo leaves nothing held |
| Padding.FirstAnswerGranted | kerninstdriver/src/loggedAllocRequests.C:112-119 | a first answer that is non-null, and aligned where that is tested, is granted as it is with the size asked for, and logged |
| Padding.FirstAnswerFails | kerninstdriver/src/loggedAllocRequests.C:112-126 | any other fails, and is given back, when the alignment is 1 or the second attempt is not answered |
| Padding.SecondAnswer | kerninstdriver/src/loggedAllocRequests.C:128-170 | outcome, log and calls of a second attempt, from the remainders of its block and mapping |
| Padding.AllocGrantsIff | kerninstdriver/src/loggedAllocRequests.C:112-259 | a permitted request is granted if and only if the first answer is good, or it is not and a second one is tried and usable |
| Padding.AllocRejects | kerninstdriver/src/loggedAllocRequests.C:173-190 | what becomes of a bad alignment, alignment 0, the obsolete type and unknown types |
| Padding.PaddedExact | kerninstdriver/src/loggedAllocRequests.C:128-160 | the retry is granted, given back or a panic, exactly by the block's and its mapping's remainders modulo the alignment |
| Padding.AllocPanicsIff | kerninstdriver/src/loggedAllocRequests.C:112-259 | for a permitted alignment and no overflow alloc panics if and only if the retry block starts 1 to 3 bytes past a multiple of the alignment |
| Padding.AlignedAnswersNeverPanic | kerninstdriver/src/loggedAllocRequests.C:130-160 | with 4-aligned blocks both size panics are unreachable |
| Padding.GrantedInside | kerninstdriver/src/loggedAllocRequests.C:143-259 | every granted range lies inside its block, for every size and alignment, overflowing sizes included |
| Padding.GrantedAlignedIff | kerninstdriver/src/loggedAllocRequests.C:112-154 | a granted result and its mapping are aligned if and only if it is not an unchecked misaligned first answer of the below or nucleus allocator |
| Padding.FreeReleasesOwn | kerninstdriver/src/loggedAllocRequests.C:321-364 | with blocks disjoint, the address handed out finds its own record |
| Padding.AllocThenFree | kerninstdriver/src/loggedAllocRequests.C:173-371 | freeing what alloc returned gives back its block and restores the log exactly |
| AllocLog.LoggedAllocRequests.Allocate | kerninstdriver/src/loggedAllocRequests.C:97-170 | outcome and calls to the backing allocator as specified |
| AllocLog.LoggedAllocRequests.Alloc | kerninstdriver/src/loggedAllocRequests.C:173-269 | outcome, log and calls as specified; conservation kept |
| AllocLog.LoggedAllocRequests.Free | kerninstdriver/src/loggedAllocRequests.C:312-371 | the first full match is released and removed; a null or unknown address changes nothing |
| AllocLog.LoggedAllocRequests.Undo | kerninstdriver/src/loggedAllocRequests.C:271-310 | the log is empty and nothing is held |
| SymTabProofs.ReportedIff | kerninstdriver-linux/src/symbol_table-2.6.c:52-257 | the size both passes return is the number of bytes written if and only if there are fewer than 256 modules, whatever the names |
| SymTabProofs.ReportedExact | kerninstdriver-linux/src/symbol_table-2.6.c:52-257 | for any number of modules the size is short by 256 for every full 256 modules |
| SymTabProofs.OffsetDrift | kerninstdriver-linux/src/symbol_table-2.6.c:100-145 | the running name offset exceeds the string table's length by 256 for every name of length 255 modulo 256 |
| SymTabProofs.EntryAt | kerninstdriver-linux/src/symbol_table-2.6.c:130-142 | symbol k's record holds its value and the offset accumulated before it |
| SymTabProofs.OffsetPointsAtName | kerninstdriver-linux/src/symbol_table-2.6.c:96-142 | that offset points at its own NUL-terminated name in the string table |
| SymTabRoundTrip.NamesFoundIff | kerninstdriver-linux/src/symbol_table-2.6.c:100-142 | every symbol's running offset is where the string table has its name if and only if every name has fewer than 255 bytes and no NUL |
| SymTabRoundTrip.ModReadIff | kerninstd/kerninstd/src/gatherMod-linux.C:258-412 | one module is read back whole, leaving what follows, if and only if its name and its symbols' names have fewer than 255 bytes, or it is called kernel and has no symbols |
| SymTabRoundTrip.RoundTripIff | kerninstd/kerninstd/src/gatherMod-linux.C:258-412 | the daemon reads back every module, section, symbol and name, and consumes exactly the bytes written, if and only if fewer than 255 modules are loaded, all names have fewer than 255 bytes, and none called kernel has symbols |
| SymTabRoundTrip.CountWraps | kerninstdriver-linux/src/symbol_table-2.6.c:54-61 | at 255 modules the daemon reads none |
| SymTabRoundTrip.KernelNamesake | kerninstd/kerninstd/src/gatherMod-linux.C:384-406 | a loadable module called kernel is read without its symbols, and the reader is left at its first record |
| SymTabRoundTrip.CookieChecked | kerninstd/kerninstd/src/gatherMod-linux.C:357-361 | the daemon stops at a body whose cookie is not 0x12345678 |
| SymTabRoundTrip.DaemonAcceptsIff | kerninstd/kerninstd/src/driver.C:330-370 | the size the daemon was told is the size it consumes, with all read back, in exactly those cases |
| SymTab.FindHead | kerninstdriver-linux/src/symbol_table-2.6.c:38-50 | the first list node whose state is none of the three a module can have |
| SymTab.ModulesAround | kerninstdriver-linux/src/symbol_table-2.6.c:38-66 | module i of the table is the node i + 1 links past the list head in the circular list |
| SymTab.AroundOnce | kerninstdriver-linux/src/symbol_table-2.6.c:38-66 | those places are all different and none is the head's |
| SymTab.AllListed | kerninstdriver-linux/src/symbol_table-2.6.c:38-66 | this driver's own module and every other node but the head are listed |
| SymTab.PutNames | kerninstdriver-linux/src/symbol_table-2.6.c:100-109 | the table's length, and in the second pass the names themselves |
| SymTab.PutTable | kerninstdriver-linux/src/symbol_table-2.6.c:91-113 | the length is filled in before the table afterwards |
| SymTab.PutEntries | kerninstdriver-linux/src/symbol_table-2.6.c:130-142 | the records with their running offsets |
| SymTab.PutModule | kerninstdriver-linux/src/symbol_table-2.6.c:66-145 | one module's size, and in the second pass its bytes |
| SymTab.SymtabDo | kerninstdriver-linux/src/symbol_table-2.6.c:10-258 | both passes return the same size; the second writes exactly the table and leaves the rest of the buffer, the first writes nothing; 0 without a buffer or a list head |

## Left out

- Locks and memory ordering: each lock-held Solaris routine is one step; the callee counter's steps are atomic and sequentially consistent.
- Hardware: inline assembly, counter reads, cache flushing, cross-CPU calls and traps; readings are inputs, and a compare-and-exchange succeeds.
- ioctl dispatch, open and close, user-space copying, messages, debug output and statistics counters (the counts of bad starts and rollbacks among them).
- Timers in unmapped memory: they read as blank timers that are not running.
- LinuxWrites.LoggedWrites.Write1Insn: writes of 0 to 16 bytes to mapped memory with room for the padding; a longer one overruns the 16-byte buffers and has no defined effect, and the ppc64 copy is not modelled.
- LinuxWrites.LoggedWrites.PerformUndoableWrite: the same lengths, for the same reason.
- CalleeThreads.AnyInterleaving: speaks of bins only; which cell an update is counted in is in CalleeDiversion.
- HeapRuns.FreshHeapRuns: regions are disjoint, within 2^32 elements of one another, and sizes do not wrap; without the second PushReachesIff says which chunks still come back.
- AllocLogProofs.AnyRunConserves: after a panic the machine stops, and nothing is said of the block then held.
- SymTabRoundTrip.RoundTripIff: module names are NUL-free, the running name offset fits a word, and a module whose own name has 255 bytes or more has its core on a multiple of 256, as a page is; all words have one width, as on the i386, and the daemon uses a System.map for the kernel's own symbols.
- SymTab.SymtabDo: a module list without a head, which the kernel never has, gives 0 as for an empty list; the code's search would not end.
- TimerAccounts.TotalsIff: during the run instrumentation leaves the timer's own copies alone, its registration stays, client state is not cleared, all readings of one routine show one count, and copies of different timers do not coincide.
- Alternation.AlternatingConservesIff: switch handling is on and not toggled; HistoryConservesIff covers the other runs.
- What the daemon does with the symbols once read (renaming duplicates, sizes, parsing functions).
- The build without kallsyms, and kerninst_symtab_get's page arithmetic.
- The Linux copies of the hash table, free list and switch routines: the same algorithms.
- The Linux allocation log, the buddy heap (HomogenousBlockHeap), DictionaryMulti and destroy_below_allocator.
- The claim in all_vtimers.h that removal is safe against a lock-free traversal: traversals hold the lock.
- Heap memory statistics and destruction, and the debug assertion comparing the two nucleus flags of a logged write.
- The client library (kerninstapi), RPC stubs and hardware-counter tables.
