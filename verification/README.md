# Verified models of Rocstar IMPACT

IMPACT couples physics modules. Each module registers its meshes and data with COM, and SIM decides in which order the
actions that exchange the data run. This project models the parts of the system whose correctness depends on state that
changes step by step, and proves what they promise for every input, every call sequence or every interleaving.

| modules | what they model |
|---|---|
| Actions, DataDependency, LinkTheorems, LinkFailures, LinkExamples | registration of actions, and `buildDDG`, which links each declared read to a declared write |
| TopologicalOrder, ScheduleTheorems, DDGScheduler | `topological_sort`, the scheduler object, and what `schedule` guarantees about the declarations |
| SchedulerLifecycle, SchedulerVisits | schedule, init, run, finalize and restart over a tree of nested schedulers, and how often each action is called |
| Semaphores, IoThread | counting semaphores over a condition variable, and the queue between clients and the HDF4 I/O thread |
| StridedStorage, DataItems | the two array layouts, `copy_array`, `set_pointer`, `allocate`, `append_array` |
| Blas, Calc, Axpy | elementwise operations over that storage, with a fast path and a general path |
| BlockMesh, PaneElements, StructuredElements | numbering of nodes and elements, and the enumerators that step through them |
| StructuredCounts | the closed formulas for real and ghost nodes and elements, against the sets they count |
| Profiler | the time accounting around nested function calls |
| Common, Arithmetic | lists without repetition, quotients and products |

How to read it. Code that changes an object or a buffer is a method of a class, or a method over arrays, and its
contract ties the new state to a function of the old one; the lemmas are about those functions. The two concurrent
parts are step relations over an explicit state, one step per access to something shared; a run is any sequence of
states joined by steps. A call of COM_abort_msg, a failed assertion and a thrown exception are results (`Aborted`,
`Stopped`, `Err`, `false`), so preconditions name only the state of the object and the memory that a caller vouches for;
the two enumerators' constructors are reached through factories that answer `false` where an assertion of the source
fails. Integers are unbounded. `dafny verify dfyconfig.toml` checks everything.

## What the proofs found

These are consequences of the code as it stands; each is a lemma, with the exact condition where the code does behave.

- `buildDDG` does not report every write that nobody reads. With at most one reader and one writer per key it aborts
  exactly when an action reads what nobody writes, or only writes and writes what nobody reads (`AbortsExactly`); when the
  unread write belongs to an action that also reads, the loop goes round for ever (`HangsExactly`); it returns exactly when
  every key has both (`ReturnsAbortsOrHangs`). `DanglingOutputHangs` is the smallest case.
- The documentation promises that the order in which actions are added does not matter. It is kept for all orders at once
  exactly by declarations with one reader and one writer per key (`LinkFailures.AnyOrderExact`, and with loops
  `ScheduleTheorems.AnyOrderExact`); for declarations that succeed in some order, the order matters exactly when an action
  names a key twice on one side (`OrderMattersExactly` in both modules; `OrderMatters` is an example). Adding one action
  twice declares its keys twice, so that is included unless the action declares nothing.
- `copy_array` with an offset writes to the wrong items unless items are packed or the offset is zero (`OffsetExact`).
- Appending from a buffer with padding copies at most as many items as there were before the call (`AppendComplete`).
- Reallocating a component-major connectivity table to a smaller capacity reads the old table at wrong addresses; in
  all other cases every kept entry survives (`KeptExact`).
- A caller queued behind a Terminate command waits for ever, although the comment in HDF4.C says that such commands are
  ignored: at the end of a run a caller has returned exactly when no Terminate was pushed before its command
  (`ReturnsUnlessBehindTerminate`), and before that it has not returned either (`BehindTerminateNeverReturns`). Two calls
  are enough (`SomeCallerIsBlocked`). The server's test for an empty queue never succeeds (`ServerAlwaysFindsWork`).
- `restarting` clears one flag only, so the next initialization skips every nested scheduler (`RestartIsShallow`).
- The element enumerator built from a row and a column accepts every row and column of nodes, so also the last row and
  the last column, where no element is; it stands on an element exactly in all other cases (`PairExact`,
  `LastRowHasNoElement`, `LastColumnHasNoElement`).
- The formula for the real elements of a structured mesh is wrong exactly when an even number of directions (not none) is
  too thin for the ghost layers and no direction is filled by them exactly: the negative factors cancel
  (`RealElementsExact`, `TwoThinDirections`).

## Model

| member | source | states |
|---|---|---|
| `Actions.IndexOf` | SIM/src/Scheduler.C:209-221 | the position found is the first one that holds the attribute and index, and -1 is answered exactly when none does |
| `Actions.KeysCount` | SIM/src/Action.C:24-35 | a side of an action gets every key as often as it is declared for that side |
| `Actions.KeysInOrder` | SIM/src/Action.C:24-35 | and in the order of declaration |
| `Actions.TableShape` | SIM/src/Scheduler.C:22-62 | after any registrations the first item of an action holds its declarations once per registration and every later item of it holds none |
| `Actions.UsedItemIsOnlyItem` | SIM/src/Scheduler.C:22-62 | when no key is named twice, an item that declares anything is the only item of its action |
| `LinkTheorems.LinkReadCases` | SIM/src/DDGScheduler.C:56-92 | an open read slot gets linked exactly when one action still in the pool writes its key and that write is open, and then to that action |
| `LinkTheorems.JoinKeeps` | SIM/src/DDGScheduler.C:62-81 | a double link keeps all slots consistent with each other and undoes no link |
| `LinkTheorems.StepKeeps` | SIM/src/DDGScheduler.C:53-156 | every round keeps the link invariant, only adds links, and drops from the pool only actions with all slots filled |
| `LinkTheorems.RunByInvariant` | SIM/src/DDGScheduler.C:53-156 | what every round of the loop keeps holds after any number of rounds |
| `LinkTheorems.DoneIsWellLinked` | SIM/src/DDGScheduler.C:48-162 | a normal return implies that every key has one reader and one writer, and that inputs and outputs pair up by key |
| `LinkTheorems.BuildCompletes` | SIM/src/DDGScheduler.C:48-162 | keys with one reader and one writer are linked within two rounds per action, whatever the order of the actions |
| `LinkTheorems.BuildExact` | SIM/src/DDGScheduler.C:39-162 | one reader and one writer per key holds if and only if no action names a key twice and `buildDDG` returns; every such return leaves matched links |
| `LinkTheorems.SanityCheckPasses` | SIM/src/DDGScheduler.C:164-182 | whatever was declared, the sanity check finds nothing after a normal return of `buildDDG` |
| `LinkTheorems.RunMore` | SIM/src/DDGScheduler.C:53-156 | a loop that has ended has one outcome, however long it is observed |
| `LinkTheorems.SameLinksInAnyOrder` | SIM/src/DDGScheduler.C:39-47 | reordering the actions yields the same links up to renumbering |
| `LinkFailures.AbortsExactly` | SIM/src/DDGScheduler.C:54-136 | with at most one slot per key and side, the loop aborts within a round per action if and only if a read has no writer or an action that only writes has an unread write |
| `LinkFailures.HangsExactly` | SIM/src/DDGScheduler.C:138-156 | for the same declarations it is still running, however long it is watched, if and only if all that is in order and an action that also reads has an unread write |
| `LinkFailures.ReturnsAbortsOrHangs` | SIM/src/DDGScheduler.C:48-162 | two rounds per action decide which of the three outcomes it is, and a return means one reader and one writer per key |
| `LinkFailures.RepeatFails` | SIM/src/DDGScheduler.C:56-92 | the visit of an action that reads one key twice aborts |
| `LinkFailures.LaterNeverReturns` | SIM/src/DDGScheduler.C:56-92 | an action that also reads and writes one key twice never has its second write linked, so the loop does not return |
| `LinkFailures.FirstRepeats` | SIM/src/DDGScheduler.C:48-162 | when the action added first names a key twice on one side, `buildDDG` does not return |
| `LinkFailures.AnyOrderExact` | SIM/src/DDGScheduler.C:39-47 | it returns for every order of the actions if and only if every key has one reader and one writer |
| `LinkFailures.OrderMattersExactly` | SIM/src/DDGScheduler.C:39-47 | for actions that are linked in the order given, every other order works too if and only if none names a key twice on one side |
| `LinkExamples.OrderMatters` | SIM/src/DDGScheduler.C:39-162 | three actions, one naming a key twice, are linked in one order of registration and abort in another |
| `LinkExamples.DanglingOutputHangs` | SIM/src/DDGScheduler.C:138-156 | a concrete pair of actions with one unread write keeps the loop running for ever |
| `TopologicalOrder.SortKeeps` | SIM/src/DDGScheduler.C:191-226 | pool and sorted list split the items, every sorted item was fed when taken, and no earlier unsorted item was ready then |
| `TopologicalOrder.StuckHasCycle` | SIM/src/DDGScheduler.C:219-231 | a pool in which nobody is ready contains a cycle of input links |
| `TopologicalOrder.OrderExcludesCycles` | SIM/src/DDGScheduler.C:184-187 | a list in which every item follows its inputs exists only if there is no cycle |
| `TopologicalOrder.SortExact` | SIM/src/DDGScheduler.C:188-232 | the sort empties its pool if and only if the input links have no cycle, and then it lists every item once and after all its inputs |
| `TopologicalOrder.SortIsFirstOrder` | SIM/src/DDGScheduler.C:194-222 | the result is the first of all topological orders in the dictionary order of insertion positions |
| `ScheduleTheorems.RegisteredFeedersUnique` | SIM/src/DDGScheduler.C:206-208 | comparing actions instead of items in the sort is harmless when no key is named twice |
| `ScheduleTheorems.ScheduleExact` | SIM/src/DDGScheduler.C:5-37 | scheduling succeeds if and only if every key has one reader and one writer and no action depends on itself through others |
| `ScheduleTheorems.WritersRunFirst` | SIM/src/DDGScheduler.C:5-37 | on success every action is sorted once, and whoever writes a key stands before whoever reads it |
| `ScheduleTheorems.NoRepeatIsDeclaresOnce` | SIM/src/Action.C:24-35 | the condition on the registered table is a condition on the declarations of the actions alone |
| `ScheduleTheorems.OrderDoesNotMatter` | SIM/src/DDGScheduler.C:39-47 | whether a set of actions can be scheduled does not depend on the order in which they are added |
| `ScheduleTheorems.AnyOrderExact` | SIM/src/DDGScheduler.C:39-47 | scheduling succeeds for every order of adding the actions if and only if every key has one reader and one writer and there is no loop |
| `ScheduleTheorems.OrderMattersExactly` | SIM/src/DDGScheduler.C:39-47 | for actions that can be scheduled as added, every other order works too if and only if every action declares every key once and is added once or declares nothing |
| `DDGSchedulers.DDGScheduler.Reads` | SIM/src/Scheduler.C:30-45 | a declared input adds its key and an open link to the first item of the action and changes nothing else; false and no change for an action that was not added |
| `DDGSchedulers.DDGScheduler.Writes` | SIM/src/Scheduler.C:47-62 | the same for a declared output |
| `DDGSchedulers.DDGScheduler.ItemOf` | SIM/src/Scheduler.C:30-37 | the first item of the action, or -1 |
| `DDGSchedulers.DDGScheduler.Declare` | SIM/src/Action.C:24-35 | one declared datum, as input or as output, to the first item of the action |
| `DDGSchedulers.DDGScheduler.AddAction` | SIM/src/Scheduler.C:22-28 | a new item at the end, with the action's declarations on the first item of that action |
| `DDGSchedulers.DDGScheduler.FindWriter` | SIM/src/DDGScheduler.C:58-83 | the loop over the pool links or aborts exactly as the specification of one read slot says |
| `DDGSchedulers.DDGScheduler.LinkInputs` | SIM/src/DDGScheduler.C:54-93 | the read slots of an action end up linked as specified, or the program aborts |
| `DDGSchedulers.DDGScheduler.FindReader` | SIM/src/DDGScheduler.C:98-125 | the search for a reader is the search for a writer with the two sides exchanged |
| `DDGSchedulers.DDGScheduler.LinkOutputs` | SIM/src/DDGScheduler.C:94-136 | the write slots of an action without inputs are treated like read slots with the sides exchanged |
| `DDGSchedulers.DDGScheduler.Round` | SIM/src/DDGScheduler.C:54-155 | one round of the outer loop, with the erasure and the wrap-around of the iterator |
| `DDGSchedulers.DDGScheduler.BuildDDG` | SIM/src/DDGScheduler.C:48-162 | any number of rounds leave the links, or the abort, that the specified run has after that many rounds |
| `DDGSchedulers.DDGScheduler.CheckSanity` | SIM/src/DDGScheduler.C:167-182 | true exactly when every link vector has the length of its keys and holds no null |
| `DDGSchedulers.DDGScheduler.InputsSorted` | SIM/src/DDGScheduler.C:199-216 | true exactly when each input's action occurs in the sorted list |
| `DDGSchedulers.DDGScheduler.TopologicalSort` | SIM/src/DDGScheduler.C:188-232 | the sorted list is the specified one, and the method fails exactly when it is incomplete |
| `DDGSchedulers.DDGScheduler.Schedule` | SIM/src/DDGScheduler.C:5-37 | a second call stops; a first one leaves links, order and flag as the run of the loop and the sort determine them |
| `DDGSchedulers.OutcomeExact` | SIM/src/DDGScheduler.C:5-37 | two rounds per action decide whether the declarations can be scheduled |
| `DDGSchedulers.AddAndSchedule` | SIM/src/DDGScheduler.C:5-37 | a scheduler object that is given all actions and then scheduled returns if and only if every key has one reader and one writer and there is no loop, with every writer before its reader |
| `SchedulerLifecycle.Scheduler.Schedule` | SIM/src/UserScheduler.C:8-36 | all nested schedulers are scheduled first, and it aborts exactly when some scheduler of the tree was scheduled before or cannot be ordered |
| `SchedulerLifecycle.RegistrationPermutes` | SIM/src/UserScheduler.C:24-28 | the order of a UserScheduler, which is that of registration, lists every action once |
| `SchedulerLifecycle.OrderPermutes` | SIM/src/DDGScheduler.C:188-232 | a topological order lists every action once |
| `SchedulerLifecycle.Scheduler.InitActions` | SIM/src/Scheduler.C:64-77 | the calls made, action by action in sorted order, the new state of the whole tree, and exactly when it aborts |
| `SchedulerLifecycle.Scheduler.InitAction` | SIM/src/SchedulerAction.C:5-5 | an action that holds a scheduler passes the call on to it; only that scheduler changes |
| `SchedulerLifecycle.Scheduler.RunActions` | SIM/src/Scheduler.C:79-88 | one run of every ordinary action, and one uninterrupted piece for every nested scheduler, in sorted order; it aborts exactly when a scheduler on the way was not initialized |
| `SchedulerLifecycle.Scheduler.RunAction` | SIM/src/SchedulerAction.C:7-9 | the same for one action, which is run exactly once if it is an ordinary one |
| `SchedulerLifecycle.Scheduler.FinalizeActions` | SIM/src/Scheduler.C:90-102 | the same for finalizing, from the last sorted action to the first |
| `SchedulerLifecycle.RunVisits` | SIM/src/Scheduler.C:79-88 | the run of an initialized tree falls into one piece per sorted action, each of them that action's own run, in order |
| `SchedulerLifecycle.FinalizeVisits` | SIM/src/Scheduler.C:90-102 | the finalization falls into one piece per sorted action, from the last to the first |
| `SchedulerLifecycle.InitVisits` | SIM/src/Scheduler.C:64-77 | the initialization falls into one piece per sorted action, empty for a nested scheduler that is initialized already |
| `SchedulerLifecycle.Scheduler.Restarting` | SIM/include/Scheduler.h:113-113 | only the flag of the scheduler itself is cleared |
| `SchedulerLifecycle.Scheduler.PerformAll` | SIM/src/Scheduler.C:64-102 | any sequence of operations on an object that was just set up aborts, changes it and makes the calls as the theorems on sequences of operations say |
| `SchedulerLifecycle.PerformSettles` | SIM/src/Scheduler.C:64-102 | after any operations that did not abort, the flags of nested schedulers agree with the outer one, and an initialized scheduler's actions have been initialized |
| `SchedulerLifecycle.InitComesFirst` | SIM/src/Scheduler.C:64-102 | in every sequence of operations that does not abort, each run or finalize of an action comes after an init of the same action |
| `SchedulerLifecycle.OuterFlagsDecide` | SIM/src/Scheduler.C:64-102 | an operation on the tree aborts if and only if the outermost scheduler's own two flags forbid it |
| `SchedulerLifecycle.RestartIsShallow` | SIM/include/Scheduler.h:109-113 | the initialization after a restart reaches the scheduler's own actions in sorted order and no nested ones |
| `SchedulerVisits.EveryActionIsCalled` | SIM/src/Scheduler.C:79-102 | whatever was done before, a run or finalization that does not abort calls each action of the tree as often as it was registered |
| `SchedulerVisits.EveryActionIsInitialized` | SIM/src/Scheduler.C:64-77 | the first initialization initializes each action of the tree as often as it was registered |
| `SchedulerVisits.RunRepeatsInit` | SIM/src/Scheduler.C:64-88 | a run after the first initialization goes through the same actions in the same order |
| `Semaphores.StepKeeps` | SimIO/src/Sync.C:161-205 | every step of every thread, spurious wake-ups included, keeps mutual exclusion, the count and the wake-up invariant |
| `Semaphores.CountIsConserved` | SimIO/src/Sync.C:161-205 | in every reachable state the count is the initial count plus posts minus waits, at least zero and at most a positive maximum |
| `Semaphores.NoLostWakeup` | SimIO/src/Sync.C:161-205 | whenever the mutex is free and a thread sleeps, at least as many threads are awake as there are units to take |
| `Semaphores.StuckOnlyWhenEmpty` | SimIO/src/Sync.C:161-205 | if only idle and sleeping threads could move, everybody is idle or asleep, and a thread sleeps only if the count is zero |
| `Semaphores.StepIsAtomic` | SimIO/src/Sync.C:161-205 | every step acts on the count like a plain counting semaphore, and TryWait and Post refuse only at the bounds |
| `Semaphores.AnswerIsTrue` | SimIO/src/Sync.C:161-205 | Wait and TryWait answer true if and only if they took a unit, which is if and only if there was one; Post answers true if and only if it added one, which is if and only if there was room |
| `Semaphores.CountByAnswers` | SimIO/src/Sync.C:161-205 | at every moment the count is the initial count plus the calls of Post that answered true, and the one about to, less the waits that answered true |
| `IoThread.NextKeeps` | SimIO/src/HDF4.C:575-858 | every step of a caller or of the server keeps the lock, the accounting, the history, the answers and the end conditions |
| `IoThread.QueueIsAccountedFor` | SimIO/src/HDF4.C:575-587 | queue length equals pending count plus callers between push and post plus the server between wait and pop |
| `IoThread.ServerAlwaysFindsWork` | SimIO/src/HDF4.C:714-725 | after its wait the server finds a command, and it never uses a null command |
| `IoThread.OnceAndInOrder` | SimIO/src/HDF4.C:721-728 | performed commands are a prefix of the pushed ones, and none is pushed twice |
| `IoThread.ReturnsAfterItsCommand` | SimIO/src/HDF4.C:575-587 | a call returns only after its own command was performed |
| `IoThread.TerminateIsLast` | SimIO/src/HDF4.C:840-858 | nothing is performed after a Terminate, and the server has exited only with the first Terminate as its last command |
| `IoThread.RunsAreFinite` | SimIO/src/HDF4.C:575-858 | n calls allow at most 14n + 8 steps in all |
| `IoThread.StuckIsQuiet` | SimIO/src/HDF4.C:575-858 | where no step is possible, the server has exited or waits at an empty count, and every caller has returned or waits for an answer |
| `IoThread.WhereRunsEnd` | SimIO/src/HDF4.C:552-587 | at the end of every run each caller has returned with its command performed, or waits for ever with its command queued behind a Terminate |
| `IoThread.ReturnsUnlessBehindTerminate` | SimIO/src/HDF4.C:552-587 | at the end of every run a caller has returned if and only if no Terminate was pushed before its command |
| `IoThread.BehindTerminateNeverReturns` | SimIO/src/HDF4.C:552-587 | at no moment of any run has a caller returned whose command was pushed after a Terminate |
| `IoThread.RunsToTheEnd` | SimIO/src/HDF4.C:575-858 | every run can be continued until no step is possible |
| `IoThread.SomeCallerIsBlocked` | SimIO/src/HDF4.C:552-587 | a run of two calls, one a Terminate, at whose end the other one waits for ever |
| `StridedStorage.AddrInjective` | COM/src/DataItem.C:229-315 | in both layouts different cells have different addresses |
| `StridedStorage.CopiedUnique` | COM/src/DataItem.C:229-315 | the logical copy determines the whole target block |
| `StridedStorage.ContiguousIsCopy` | COM/src/DataItem.C:271-276 | the single memcpy of the first branch is the logical copy, in packed and in full component-major layout |
| `StridedStorage.CopyItems` | COM/src/DataItem.C:277-292 | one memcpy per item is the logical copy and leaves padding alone |
| `StridedStorage.CopyCells` | COM/src/DataItem.C:293-314 | one memcpy per component is the logical copy for any two layouts |
| `StridedStorage.CopyBetween` | COM/src/DataItem.C:271-314 | whichever branch is chosen, exactly the cells of the moved items are transferred |
| `StridedStorage.OutThenIn` | COM/src/DataItem.C:229-315 | copying out and back in restores the array for every pair of layouts |
| `DataItems.DataItem.SetSize` | COM/src/DataItem.C:171-188 | sets both sizes and nothing else |
| `DataItems.DataItem.GetAddr` | COM/src/DataItem.C:73-85 | through the component descriptor, the address of component j of item i in the parent's own block (null if there is none), or the error that the source throws |
| `DataItems.DataItem.GetTableAddr` | COM/src/Connectivity.C:34-44 | the same address in a connectivity table, by the layout's formula |
| `DataItems.DataItem.CopyArray` | COM/src/DataItem.C:229-315 | each error in its order, and the logical copy in either direction: of all items when copying out without a count, else of as many as asked for, but no more than there are unless both sides have the same dense layout |
| `DataItems.OffsetExact` | COM/src/DataItem.C:268-269 | an offset reaches the items from there on if and only if it is zero or the items are packed |
| `DataItems.DataItem.SetPointer` | COM/src/DataItem.C:190-227 | the new block, from the given component on, with every component descriptor pointing into it, or an error and no change |
| `DataItems.DataItem.Replace` | COM/src/DataItem.C:360-399 | a zeroed block into which the kept items, and nothing else, have been copied, with the descriptors moved along |
| `DataItems.CarryComponents` | COM/src/DataItem.C:380-392 | component by component, the new block is a logical copy of the same number of items of all components, whatever the two layouts are |
| `DataItems.CarryWhole` | COM/src/DataItem.C:377-379 | the same for scalars and connectivity tables, which are copied as a whole |
| `DataItems.KeptExact` | COM/src/DataItem.C:377-379 | that whole copy reads the old cells if and only if there is one component, or items are stored side by side, or the whole capacity is kept |
| `DataItems.DataItem.Allocate` | COM/src/DataItem.C:328-411 | each error in its order; a request of the same stride within the capacity changes nothing, and every other one leaves a new block that is zero but for the items carried over, and how many these are |
| `DataItems.CarriedCell` | COM/src/DataItem.C:360-399 | cell by cell: the carried items keep their values and every later item of the new block is zero |
| `DataItems.DataItem.Resize` | COM/src/Pane.C:318-375 | an item without a size is refused or, on a window, gets size 1; then the errors, the new stride and capacity with the defaults written out, and what the reallocation preserves |
| `DataItems.DataItem.AppendItems` | COM/src/DataItem.C:317-326 | exactly when it succeeds, and for any two layouts the logical copy to the offset of the old size; the size grows by the full request |
| `DataItems.DataItem.AppendRows` | COM/src/DataItem.C:317-326 | for packed items: the old items stay and the moved ones follow |
| `DataItems.DataItem.AppendArray` | COM/src/ComponentInterface.C:261-286 | one append to packed items keeps the old ones and puts the moved ones behind them, across a reallocation |
| `DataItems.DataItem.AppendAll` | COM/src/ComponentInterface.C:261-286 | any sequence of appends of packed items leaves exactly the concatenation of all blocks |
| `DataItems.AppendComplete` | COM/src/DataItem.C:285-302 | an append moves all its items if and only if the buffer is packed or there were at least as many items before |
| `Blas.CellReadable` | Simpal/include/Rocblas.h:253-264 | broadcasting over items and components never leaves the operand's memory |
| `Blas.YPackedCell` | Simpal/include/Rocblas.h:266-290 | on packed operands one running index through `getref` reaches the cell |
| `Blas.GeneralY` | Simpal/include/Rocblas.h:266-290 | the general path's base pointer and `getref` reach the cell for every kind of operand |
| `Blas.ReadsOld` | Simpal/src/op3args.C:147-178 | an operand is read as it was before the operation, also when it is the result itself |
| `Calc.FastPath` | Simpal/src/op3args.C:137-152 | the contiguous loop computes the pointwise result |
| `Calc.GeneralPath` | Simpal/src/op3args.C:153-181 | the loops over components and items compute the same pointwise result |
| `Calc.Calc` | Simpal/src/op3args.C:35-183 | on one pane: exactly which shapes are accepted, and the pointwise result with every other element unchanged; a value passed by pointer goes to every cell |
| `Calc.CalcChoose` | Simpal/src/op3args.C:185-209 | exactly which arguments are accepted, and z = x op y cell by cell with the operands in the order given, whichever is broadcast or exchanged |
| `Axpy.FastPath` | Simpal/src/axpy.C:123-137 | the contiguous loop computes a * x + y pointwise |
| `Axpy.GeneralPath` | Simpal/src/axpy.C:138-168 | the loops over components and items compute the same |
| `Axpy.AxpyGen` | Simpal/src/axpy.C:11-170 | on one pane: exactly which shapes are accepted, and the pointwise result with every other element unchanged; a factor passed by pointer goes to every cell |
| `Axpy.Axpy` | Simpal/src/axpy.C:172-207 | exactly which arguments are accepted, and z = a * x + y cell by cell for a factor on the window or on the pane, with one component or all |
| `BlockMesh.BSExtent.Sync` | SolverUtils/include/BSMesh.H:84-95 | sizes and strides of all directions |
| `BlockMesh.BSExtent.NNodes` | SolverUtils/include/BSMesh.H:96-104 | the product of all sizes |
| `BlockMesh.BSExtent.DirLoop` | SolverUtils/include/BSMesh.H:115-130 | the recursive loop appends the indices of the sub-extent and keeps what was there |
| `BlockMesh.BSExtent.GetFlatIndices` | SolverUtils/include/BSMesh.H:131-142 | the indices of the sub-extent, for any number of directions |
| `BlockMesh.IndexIsNumber` | SolverUtils/include/BSMesh.H:115-130 | the k-th index is one plus the mixed-radix value of the k-th point in dictionary order |
| `BlockMesh.FlatIndicesOrdered` | SolverUtils/include/BSMesh.H:115-142 | indices strictly increase, lie in the extent, and there is one per point |
| `BlockMesh.FullExtentIsEverything` | SolverUtils/include/BSMesh.H:131-142 | the full extent yields exactly 1 to NNodes |
| `BlockMesh.FlatIndicesExact` | SolverUtils/include/BSMesh.H:131-142 | the indices of a sub-extent are the numbers of its points and no others |
| `BlockMesh.ElementIsCell` | SolverUtils/include/BSMesh.H:204-218 | the offsets added to a lower corner give the four or eight corners of its cell |
| `BlockMesh.CellIsElement` | SolverUtils/include/BSMesh.H:204-218 | the nodes of an element are listed around a face along edges, from the lower corner in the first direction, and those of the upper face of a hexahedron in the same order |
| `BlockMesh.ElementHasCorners` | SolverUtils/include/BSMesh.H:204-218 | they are pairwise different, and they are the numbers of all corners of the cell and of no other point |
| `BlockMesh.ElementsAreCells` | SolverUtils/include/BSMesh.H:204-218 | one element per lower corner, with the corners of its cell; none for an extent that is empty in some direction |
| `BlockMesh.CellsAreMesh` | SolverUtils/include/BSMesh.H:187-222 | every cell of the extent has exactly one element, and there is no other element |
| `BlockMesh.EveryNodeIsUsed` | SolverUtils/include/BSMesh.H:187-222 | the elements use exactly the nodes 1 to NNodes |
| `BlockMesh.CreateUnstructuredMesh` | SolverUtils/include/BSMesh.H:187-222 | for every extent: refused unless it has three directions and extends in two of them, else exactly one element per cell with all its corners in the order of an element |
| `PaneElements.Partition` | COM/src/Pane.C:81-98 | on a numbered pane the intervals of the tables partition 1 to the total |
| `PaneElements.Pane.Insert` | COM/src/Pane.C:100-124 | the first table of that name, or a new empty one at the end; refused for a name that is neither present nor an element type; the numbering stays valid |
| `PaneElements.Pane.Refresh` | COM/src/Pane.C:661-680 | offsets become the running sums of the declared numbers of items, and the pane's totals the sums of items and ghosts |
| `PaneElements.Pane.SetSize` | COM/src/Pane.C:654-659 | a size change renumbers the pane and changes nothing else, or is refused without a change |
| `PaneElements.Pane.Owner` | COM/src/Pane.C:81-98 | the one table that owns an element, null one past the end, a failed assertion elsewhere |
| `PaneElements.Enumerator.constructor` | COM/src/Element_accessors.C:14-37 | an enumerator built for an element stands on it |
| `PaneElements.Enumerator.Create` | COM/src/Element_accessors.C:14-37 | it is built exactly for the numbers 1 to one past the last |
| `PaneElements.Enumerator.InTable` | COM/src/Element_accessors.C:14-37 | an enumerator built for an index into a table stands on the element with the table's offset added |
| `PaneElements.Enumerator.CreateInTable` | COM/src/Element_accessors.C:14-37 | it is built exactly for the indices of the table's elements, while the assertions also let index 1 of an empty table through |
| `PaneElements.Enumerator.Next` | COM/src/Element_accessors.C:63-78 | a step from element i leads to where one built for i + 1 would stand, across table ends and empty tables |
| `PaneElements.Enumerator.Id` | COM/include/Element_accessors.hpp:88-95 | the number of the element it stands on |
| `PaneElements.AtUnique` | COM/src/Element_accessors.C:14-37 | the state of an enumerator is determined by its element |
| `PaneElements.Walk` | COM/src/Element_accessors.C:63-78 | stepping from the first element visits every number once and in order |
| `StructuredElements.GridEnumerator.constructor` | COM/src/Element_accessors.C:38-41 | the enumerator stands on the grid cell of the element |
| `StructuredElements.GridEnumerator.Create` | COM/src/Element_accessors.C:38-41 | it is built exactly for the numbers of the grid's elements |
| `StructuredElements.GridEnumerator.FromPair` | COM/src/Element_accessors.C:52-61 | the row and column constructor leaves an enumerator on an element, and then on the right one, if and only if neither the last row nor the last column of nodes is given |
| `StructuredElements.GridEnumerator.CreateFromPair` | COM/src/Element_accessors.C:52-61 | it is built for every row and column of nodes, whether an element is there or not |
| `StructuredElements.PairExact` | COM/src/Element_accessors.C:52-61 | the fields it computes are those of an element of the grid if and only if row and column are an element's |
| `StructuredElements.LastRowHasNoElement` | COM/src/Element_accessors.C:52-61 | every pair in the last row of nodes is accepted and stands on no element |
| `StructuredElements.LastColumnHasNoElement` | COM/src/Element_accessors.C:52-61 | so is every pair in the last column, where the further corners lie outside the grid |
| `StructuredElements.GridEnumerator.Next` | COM/src/Element_accessors.C:79-84 | a step from element i leads to where one built for i + 1 would stand |
| `StructuredElements.GridEnumerator.Id` | COM/include/Element_accessors.hpp:88-91 | the number of the element it stands on |
| `StructuredElements.GridEnumerator.Corner` | COM/include/Element_accessors.hpp:103-111 | the four corners are the cell's grid nodes, and lie in the grid |
| `StructuredElements.Walk` | COM/src/Element_accessors.C:79-84 | stepping from the first element visits every number once and in order |
| `StructuredCounts.InnerSize` | COM/src/Connectivity.C:65-211 | the number of index tuples behind the ghost layers is the product of the remaining widths, in any number of directions |
| `StructuredCounts.TotalsExact` | COM/src/Connectivity.C:65-167 | the formulas for the whole mesh count the box, with the same exceptions for directions without nodes |
| `StructuredCounts.ElementsNotNegative` | COM/src/Connectivity.C:65-142 | no number of elements is ever negative |
| `StructuredCounts.RealElementsExact` | COM/src/Connectivity.C:120-142 | the formula counts the elements behind all ghost layers if and only if no direction is too thin, or an odd number of them is, or one is filled exactly |
| `StructuredCounts.RealNodesExact` | COM/src/Connectivity.C:192-211 | the same for nodes, where no maximum with zero is taken: if and only if no direction is too thin or one is filled exactly |
| `StructuredCounts.GhostsExact` | COM/src/Connectivity.C:93-190 | the formulas for ghosts count what lies in the layers if and only if no direction is too thin or one is filled exactly |
| `StructuredCounts.CountsAddUp` | COM/src/Connectivity.C:65-211 | where the layers fit, all four formulas count their sets, and real and ghost ones add up to the whole mesh |
| `StructuredCounts.TwoThinDirections` | COM/src/Connectivity.C:120-142 | a mesh of 3 by 3 nodes with two layers is given four real elements and has none |
| `Profiler.Profile.Account` | COM/src/COM_base.C:1911-1930 | how the columns and the timer stack change after one call |
| `Profiler.Profile.Invoke` | COM/src/COM_base.C:1884-1931 | a call adds to every column what the calls of its tree are worth, and to the timers only its own length for its caller |
| `Profiler.Profile.Session` | COM/src/COM_base.C:1884-1931 | after any outermost calls the timers are empty and entry zero has grown by the time they took |
| `Profiler.OwnTimesAddUp` | COM/src/COM_base.C:1917-1930 | over every call tree the own times of all functions add up to the time of the outermost calls |
| `Profiler.ChargesInBounds` | COM/src/COM_base.C:1917-1930 | with a clock that never goes back no function is charged a negative own time, nor more than its tree time |
| `Profiler.Conserved` | COM/src/COM_base.C:1884-1931 | from a new profile the column of own times adds up to the recorded total |

## Left out

- DDGSchedulers.DDGScheduler.BuildDDG: is observed for a given number of rounds, because the source's loop need not end; `ReturnsAbortsOrHangs` says when it does.
- DDGSchedulers.DDGScheduler.Schedule: does not call `schedule` of nested schedulers; SchedulerLifecycle does, with each scheduler's own order given.
- SchedulerLifecycle.Scheduler.Schedule: the links that a UserScheduler puts between neighbours are not modelled, since only the printing routines read them; a scheduler held by two actions is excluded.
- DataItems.DataItem.SetSize: is that of an item that is its own root and holds its own size; a component's copy of the two sizes, the exception for inherited items and the assertion for nodal and elemental ones are not modelled.
- DataItems.DataItem.SetPointer: is called for whole items; the pointer of a single component is set only through its parent, so `allocate` never meets separately allocated components.
- DataItems.DataItem.AppendArray: is stated for packed components and for memory that covers the item's size; `AppendItems` covers all layouts, and `OffsetExact` says where the copy then goes.
- PaneElements.Pane.Refresh: covers unstructured tables; the node count that it takes from a structured one is not modelled.
- PaneElements.Pane.SetSize: covers unstructured tables of panes that are not inherited and keep their ghosts.
- StructuredCounts.CountsAddUp: is about a mesh whose sizes have been given; without them the source counts zero elements and nodes.
- PaneElements.Enumerator.Create: does not include the assertion that the first node number is not negative, which is about the table's contents.
- Profiler.Profile.Invoke: covers calls that return normally while profiling is on; a call that throws leaves the depth counter raised, and switching profiling on in the middle of a call is not modelled.
- Semaphores.StepKeeps: errors of pthread calls other than a failing condition wait are not modelled; nor is the constructor, which accepts invalid counts because the flag it sets is overwritten.
- IoThread.ReturnsAfterItsCommand: holds as long as no wait on a semaphore fails; a wait that returns false is not a step of the model, while the source ignores that result at SimIO/src/HDF4.C:586 and would return early.
- IoThread.NextKeeps: steps are those of successful waits and posts; HDF commands are opaque, and the label of a command is kept with the call: the source reads it from the command after its caller was released, and whether that memory is still there is not claimed.
- The test at SIM/src/DDGScheduler.C:154 for an unexpected loop: an iterator into the pool never precedes its beginning, so it has no branch in the model.
- The list of roots, `discoverSets` and all printing: they influence no result modelled here.
- Loops over panes, data types other than integers, rounding, and division by zero inside an operation: Calc and Axpy treat one pane.
- Reductions (dot products, norms, extrema) and `gen2arg`: the same traversal with an accumulator.
- Byte addresses: storage is counted in elements, so a wrong element size is not visible.
- Machine width and overflow of sizes and offsets.
- Use-inheritance of data items, compaction of data item ids, ghost-dropping inheritance of connectivity tables.
- `BSExtent::Overlap`, `BSExtent::NodeNum` and `Pane_node_enumerator`.
- MPI, dynamic module loading, Fortran bindings, HDF4 file contents, name parsing.
