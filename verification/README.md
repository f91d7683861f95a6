# Models and proofs for a user-level thread library and the algorithms of its test framework

The repository holds two user-level thread libraries and, checked in beside them, the sources of googletest.
This project models both schedulers and the algorithmic core of googletest in Dafny and proves what they are for.

**The preemptive scheduler** (`uthreads.cpp`; `SchedulerModel.dfy`, `SchedulerCoherence.dfy`, `SchedulerRuns.dfy`,
`SchedulerEffects.dfy`, `Scheduler.dfy`). A class holds the library's globals, one method per function, each atomic;
what each method does to the whole state is a function of the state before, and the theorems speak of runs of those
functions. For each structure it is proved, in terms of the call alone, which threads are in it afterwards, and which
thread is charged for the quantum. The thread table, the ready queue, the blocked set, the sleeper countdowns and the
free ids agree after every step; waiting is bounded; the window of a sleep is exact; a blocked thread does not run until
it is resumed; quantums are conserved. Bounded waiting by position and the accounts of quantums hold on every run, the
others on runs that terminate no sleeping thread. The code has no case for that although `uthreads.h` (line 46) asks
for removal from all structures; the model keeps the code, agreement is proved to survive a call, and a run, if and only
if no call is of that kind, and a run is given on which the next tick after such a call has no table entry to read.

**The scheduler with a hand-off mutex** (`nim/uthreads.cpp`; `MutexModel.dfy`, `MutexRuns.dfy`, `MutexEffects.dfy`,
`MutexScheduler.dfy`). The same division. A thread may be blocked and wait for the mutex at once. `switchThread` takes
the front of the ready queue unasked; a call that finds it empty is stuck, and exactly those calls are characterised.

**googletest.** `BipartiteMatching.dfy`: the maximum matching behind unordered element matchers.
`GlobFilter.dfy`: wildcard test filters. `SimpleRegex.dfy`: the portable regular expressions. `Utf8.dfy`: the encoder
and the validator. `EditDistance.dfy`: edit scripts. `CDataSection.dfy`: the CDATA writer. `Expectations.dfy`:
prerequisite worklists. `PrimeTables.dfy`: the sample prime tables. In each the code's own loops and recursion are
methods, proved against definitions that do not mention them. `Common.dfy` holds facts on sets, sequences and sums,
`Words.dfy` on the bits of machine words.

Where code and comments disagree the code is modelled:

- `uthread_terminate` on a sleeping thread, as above.
- `CodePointToUtf8` (`gtest.cc`, lines 1927-1929) announces the message for everything above 0x10FFFF; the code gives
  four bytes, which are not UTF-8, up to 0x1FFFFF. The exact range is proved, with 0x110000 as the input.
- `CalculateOptimalEdits` (`gtest-internal.h`, lines 163-166) announces optimal edits; where none of add, remove and
  replace is strictly the least, the code falls through to a replacement, which then is not the cheapest move. The
  script is a cheapest one if and only if some cheapest script avoids those entries; a counterexample is given.
- `RE::FullMatch` (`gtest-port.cc`, line 972) announces a match of the entire string; a regex that ends in an escaped
  `$` gets no anchor at its end. The condition is proved exact.

## Model

File names in the second column starting with `cmake-build-debug/_deps/googletest-src/` are googletest's.

| member | source | states |
|---|---|---|
| `SchedulerCoherence.StepCoheres` | uthreads.cpp:236-535 | From a coherent state every call that does not end the process can be taken, and leads to a coherent state if and only if it does not terminate a sleeping thread |
| `SchedulerCoherence.RunCoheres` | uthreads.cpp:236-535 | All structures and statuses agree after every step of every run without such a termination |
| `SchedulerCoherence.RunCoheresIff` | uthreads.cpp:236-535 | Over every run from a coherent state, all states are coherent if and only if no call terminates a sleeping thread |
| `SchedulerCoherence.TerminateCoheresIff` | uthreads.cpp:382-434 | Termination never lacks a table entry, and keeps the structures in agreement exactly when its victim is not asleep |
| `SchedulerCoherence.InitCoheres` | uthreads.cpp:321-349 | The state after initialisation is coherent |
| `SchedulerCoherence.RunnableIffNotWaiting` | uthreads.cpp:236-251 | A live thread is queued or running, never both, exactly when it is neither asleep nor blocked |
| `SchedulerCoherence.FallbackIsUnreachable` | uthreads.cpp:253-258 | Whichever call switches threads, the queue is not empty when the next one is chosen |
| `SchedulerCoherence.SwitchCoheres` | uthreads.cpp:269-302 | A switch to ready, blocked, asleep or terminated needs no missing table entry and ends in a coherent state |
| `SchedulerCoherence.UpdateSleepersStatus` | uthreads.cpp:236-251 | Only threads whose count expires change status, to blocked if they are blocked as well and to ready otherwise |
| `SchedulerCoherence.SleepCoheres` | uthreads.cpp:511-535 | Going to sleep keeps the structures in agreement, for any number of quantums |
| `SchedulerCoherence.BlockCoheres` | uthreads.cpp:436-479 | Blocking a running, ready, sleeping or blocked thread keeps the structures in agreement |
| `SchedulerCoherence.ResumeCoheres` | uthreads.cpp:481-509 | So does resuming one, in any status |
| `SchedulerCoherence.SpawnCoheres` | uthreads.cpp:351-380 | So does spawning, including that live and free ids still split 0 to 99 |
| `SchedulerRuns.SwitchQueue` | uthreads.cpp:236-302 | A switch serves the front of the queue; threads that wake enter in ascending tid order behind those waiting and ahead of the preempted thread; thread 0 runs if there is nobody |
| `SchedulerRuns.StepTotal` | uthreads.cpp:269-302 | A call starts a quantum exactly when it switches threads, and never more than one |
| `SchedulerRuns.WaitingStep` | uthreads.cpp:253-302 | Through any call that does not stop it, a waiting thread is dispatched from the front or does not move back relative to the quantum count |
| `SchedulerRuns.BoundedWaiting` | uthreads.cpp:253-302 | Over every run, a thread at position p when the count is T runs by quantum T + p + 1 unless it is itself blocked or terminated |
| `SchedulerRuns.QueueIsShort` | uthreads.cpp:253-302 | The queue holds at most MAX_THREAD_NUM - 1 threads |
| `SchedulerRuns.ReadyThreadRunsSoon` | uthreads.cpp:253-302 | So a ready thread that is left alone runs within MAX_THREAD_NUM - 1 switches |
| `SchedulerRuns.SleepStep` | uthreads.cpp:511-535 | After sleep(n) at quantum T the countdown and the count add up to T + n; sleep(0) is over in the same switch |
| `SchedulerRuns.AsleepStep` | uthreads.cpp:236-251 | Countdown plus count of a sleeping thread is the same after every call, until the switch at which it is due ends the sleep |
| `SchedulerRuns.SleepWindow` | uthreads.cpp:236-302 | Over every run, after sleep(n) at quantum T the thread is asleep through quantum T + n, and the switch to quantum T + n + 1 makes it ready or running, or blocked if it was blocked meanwhile |
| `SchedulerRuns.SleeperRunsSoon` | uthreads.cpp:236-302 | If nobody blocks or terminates it, it does not run before quantum T + n + 1 and runs by quantum T + n + MAX_THREAD_NUM |
| `SchedulerRuns.CountPasses` | uthreads.cpp:293-293 | The quantum count skips no value |
| `SchedulerRuns.NotBlockedUnlessStopped` | uthreads.cpp:436-479 | A thread that no call blocks or terminates stays live and unblocked |
| `SchedulerRuns.StepConserves` | uthreads.cpp:104-126 | The quantums of all live threads together grow by one in a switch, and a terminated thread takes away exactly its own |
| `SchedulerRuns.StepPartitions` | uthreads.cpp:354-410 | Free and live ids split 0 to 99 after every call, even one that terminates a sleeping thread |
| `SchedulerRuns.QuantumsConserved` | uthreads.cpp:333-334 | Over every run without exception the total is the sum of the live threads' quantums and those of the terminated ones |
| `SchedulerRuns.KilledSleeperIsStale` | uthreads.cpp:402-430 | Terminating a sleeping thread reports success and leaves its countdown behind |
| `SchedulerRuns.StaleCountdownEndsEveryRun` | uthreads.cpp:236-248 | Unless the tid is handed out again, no run gets past the quantum at which such a countdown was due |
| `SchedulerRuns.CountdownStep` | uthreads.cpp:236-251 | In every state, coherent or not, countdown plus count of a tid stays the same until the switch that ends it |
| `SchedulerRuns.CountdownKept` | uthreads.cpp:236-251 | So over every run it expires in the first switch at which it is due, whatever becomes of the tid |
| `SchedulerRuns.OldSleepEnds` | uthreads.cpp:240-247 | In every state, the end of a countdown queues a thread that is queued already, or running and giving way, a second time; one that counts as blocked becomes blocked while it stands in the queue |
| `SchedulerRuns.ReusedTidIsQueuedTwice` | uthreads.cpp:236-251 | Over every run that starts by terminating a sleeper, the old sleep ends when it was due, with these effects on a new thread of the same tid |
| `SchedulerRuns.TidComesBack` | uthreads.cpp:354-379 | The tid is handed out again by the next spawn if it is less than every free one |
| `SchedulerRuns.ReusedTidIsQueuedAndBlocked` | uthreads.cpp:402-430 | If the victim was blocked as well, a new thread with its tid starts out ready and in the blocked set |
| `SchedulerRuns.ARunThatCannotTick` | uthreads.cpp:382-434 | A concrete run from initialisation after which the next tick reads a missing table entry |
| `SchedulerEffects.LiveStep` | uthreads.cpp:351-434 | After any call a thread is live exactly if it was and is not the target of a termination, or is the least free tid in a successful spawn |
| `SchedulerEffects.BlockedStep` | uthreads.cpp:436-509 | After any call a live thread is blocked exactly if it was and is not being resumed, or is the target of a block other than thread 0, whatever its status |
| `SchedulerEffects.AsleepIff` | uthreads.cpp:236-251 | After any call a live thread is asleep exactly if it was and is not due in this switch, or called sleep for at least one quantum; and when it is due |
| `SchedulerEffects.StatusByPlace` | uthreads.cpp:85-93 | The status of every thread, by the structures it is in |
| `SchedulerEffects.QuantumStep` | uthreads.cpp:123-126 | For each thread: a quantum is charged to it exactly when a switch starts it, and a spawned thread has none |
| `SchedulerEffects.SwitchStep` | uthreads.cpp:236-302 | The exact queue and running thread after every call that switches |
| `SchedulerEffects.QuietStep` | uthreads.cpp:351-509 | The exact queue after every call that does not switch; the running thread stays |
| `SchedulerEffects.FailsIff` | uthreads.cpp:321-535 | Which calls return -1, and then nothing has changed; the others return 0 or the least free tid |
| `SchedulerEffects.LastReasonMakesReady` | uthreads.cpp:236-251 | A thread that is asleep, blocked or both enters the queue exactly once, in the call that clears its last reason to wait |
| `SchedulerEffects.ResumedIsQueued` | uthreads.cpp:494-499 | Resuming a blocked thread that is not asleep makes it ready at the end of the queue, where it stands once |
| `SchedulerEffects.BlockedUntilResumed` | uthreads.cpp:436-509 | Over every run without termination of a sleeper, a blocked thread is neither queued nor running until somebody resumes it |
| `SchedulerEffects.QuantumsCountDispatches` | uthreads.cpp:549-560 | Over every run, the quantums of a thread grow by exactly the number of switches to it |
| `SchedulerLibrary.Scheduler.UpdateSleepers` | uthreads.cpp:236-251 | The loop over the sleepers, erasing as it goes, has the effect of the specification on the whole state |
| `SchedulerLibrary.Scheduler.InsertReadyToRunning` | uthreads.cpp:253-267 | The whole state after choosing the next thread |
| `SchedulerLibrary.Scheduler.StartRunning` | uthreads.cpp:123-126 | One more quantum for the thread, nothing else changes |
| `SchedulerLibrary.Scheduler.SwitchThreads` | uthreads.cpp:269-302 | The switch, made of the three steps above, has the effect of the specified switch on the whole state |
| `SchedulerLibrary.Scheduler.TimerHandler` | uthreads.cpp:304-308 | A tick is the specified step |
| `SchedulerLibrary.Scheduler.Init` | uthreads.cpp:321-349 | Rejects quantums that are not positive; otherwise all ids from 1 are free, the main thread is in its first quantum, and the state is coherent |
| `SchedulerLibrary.Scheduler.Spawn` | uthreads.cpp:351-380 | Takes the least free id, or fails and changes nothing |
| `SchedulerLibrary.Scheduler.Terminate` | uthreads.cpp:382-434 | The new state and the result for every status of the victim and for a missing tid |
| `SchedulerLibrary.Scheduler.Block` | uthreads.cpp:436-479 | The new state and the result for every status, for tid 0 and for a missing tid |
| `SchedulerLibrary.Scheduler.Resume` | uthreads.cpp:481-509 | The new state and the result for every status and for a missing tid |
| `SchedulerLibrary.Scheduler.Sleep` | uthreads.cpp:511-535 | The new state and the result, including thread 0 and negative arguments; a countdown that is already there is kept |
| `SchedulerLibrary.DueStep` | uthreads.cpp:238-248 | Met in ascending tid order, the next sleeper extends the queue exactly when it is due and not blocked |
| `MutexRuns.StepCoheres` | nim/uthreads.cpp:185-588 | Every legal call that is not stuck keeps the invariant: each live thread runs, is ready, or waits for at least one reason, and the mutex is safe |
| `MutexRuns.RunCoheres` | nim/uthreads.cpp:185-588 | The invariant holds after every step of every run |
| `MutexRuns.HandOffCoheres` | nim/uthreads.cpp:250-285 | Handing the mutex to a waiter keeps the invariant, whichever waiter the map order brings up |
| `MutexRuns.ReachableStuckIff` | nim/uthreads.cpp:185-204 | In every reachable state a call is stuck exactly when nobody is ready and the running thread blocks itself, waits for another thread's mutex, or ends without holding the mutex; main then waits for a mutex whose holder is blocked |
| `MutexRuns.StuckIff` | nim/uthreads.cpp:185-204 | The exact calls that take the front of an empty queue, by the caller, the queue and the mutex alone |
| `MutexRuns.StuckMeansMainWaitsOnBlockedHolder` | nim/uthreads.cpp:185-204 | Whenever that happens main waits for the mutex and the mutex holder is blocked |
| `MutexRuns.MainPullsItThrough` | nim/uthreads.cpp:394-405 | When the running holder ends, somebody is ready afterwards |
| `MutexRuns.EndingTheHolderIsNeverStuck` | nim/uthreads.cpp:394-405 | Terminating a holder that main waits on is never stuck |
| `MutexRuns.ARunThatGetsStuck` | nim/uthreads.cpp:185-204 | A concrete run from initialisation to a stuck call |
| `MutexEffects.LiveStep` | nim/uthreads.cpp:342-414 | After any call a thread is live exactly if it was and is not the target of a termination, or has the least unused id in a successful spawn |
| `MutexEffects.BlockedStep` | nim/uthreads.cpp:420-491 | After any call a live thread is blocked exactly if it was and is not being resumed, or is the target of a block other than main |
| `MutexEffects.WaitersStep` | nim/uthreads.cpp:250-285 | After any call a live thread waits for the mutex exactly if it did and is not picked in a hand-off, or locks a mutex that another thread holds; the picked one holds it |
| `MutexEffects.LockWaits` | nim/uthreads.cpp:549-550 | A thread that locks a held mutex waits for the mutex and is not blocked |
| `MutexEffects.LockMeansHolding` | nim/uthreads.cpp:535-560 | Over every run, when the caller of a lock call that returns 0 next runs it holds the mutex |
| `MutexEffects.QuantumStep` | nim/Thread.cpp:84-105 | For each thread: a quantum is charged to it exactly when a switch starts it, and a spawned thread has none |
| `MutexEffects.SwitchStep` | nim/uthreads.cpp:185-217 | The exact queue and running thread after every call that switches |
| `MutexEffects.QuietStep` | nim/uthreads.cpp:342-588 | The exact queue after every call that does not switch; the running thread stays |
| `MutexEffects.FailsIff` | nim/uthreads.cpp:342-588 | Which calls return -1, and then nothing has changed; the others return 0 or the new id |
| `MutexEffects.BlockedUntilResumed` | nim/uthreads.cpp:420-491 | Over every run, a blocked thread is neither queued nor running until somebody resumes it |
| `MutexEffects.QuantumsCountDispatches` | nim/uthreads.cpp:507-519 | Over every run, the quantums of a thread grow by exactly the number of switches to it |
| `MutexRuns.OwnershipStep` | nim/uthreads.cpp:250-285 | The mutex changes hands only by locking a free mutex, or from an unlocking or ending holder to a waiter, an unblocked one if there is one |
| `MutexRuns.HolderKeepsMutex` | nim/uthreads.cpp:535-588 | Mutual exclusion over every run: the holder stays the holder until it unlocks or ends |
| `MutexRuns.WaiterStep` | nim/uthreads.cpp:250-285 | A waiter stops waiting only as the new holder or by ending |
| `MutexRuns.LockReturnsWithMutex` | nim/uthreads.cpp:535-560 | Over every run, a waiter that runs again holds the mutex |
| `MutexRuns.WaitingStep` | nim/uthreads.cpp:185-217 | Through any call that does not stop it, a waiting thread is dispatched or does not move back relative to the quantum count |
| `MutexRuns.BoundedWaiting` | nim/uthreads.cpp:185-217 | Over every run, a thread at position p when the count is T runs by quantum T + p + 1 unless it is itself blocked or terminated |
| `MutexRuns.ReadyThreadRunsSoon` | nim/uthreads.cpp:185-217 | So a ready thread that is left alone runs within MAX_THREAD_NUM - 1 switches |
| `MutexRuns.LastReasonMakesReady` | nim/uthreads.cpp:467-491 | A thread with two reasons to wait enters the ready queue exactly once, in the step that clears the last one, in either order |
| `MutexRuns.NewIdIsFresh` | nim/uthreads.cpp:107-118 | With fewer than MAX_THREAD_NUM live threads the scan finds the least unused id, so its fallback is not reached from spawn |
| `MutexRuns.StepConserves` | nim/Thread.cpp:84-105 | The quantums of all live threads together grow by one in a switch, and an ended thread takes away exactly its own |
| `MutexRuns.QuantumsConserved` | nim/uthreads.cpp:328-330 | Over every run the total is the sum over live and ended threads |
| `MutexRuns.InitCoheres` | nim/uthreads.cpp:307-336 | The invariant holds after initialisation |
| `MutexLibrary.Scheduler.Init` | nim/uthreads.cpp:307-336 | Rejects quantums that are not positive; otherwise the specified first state |
| `MutexLibrary.Scheduler.GetId` | nim/uthreads.cpp:107-118 | The scan returns the least unused id, or the last id if all are used |
| `MutexLibrary.Scheduler.FindInReady` | nim/uthreads.cpp:125-136 | The first position of the thread in the queue, or its length |
| `MutexLibrary.Scheduler.Free` | nim/uthreads.cpp:143-163 | The thread is gone from every structure, nothing else changes |
| `MutexLibrary.Scheduler.SwitchThread` | nim/uthreads.cpp:185-217 | The whole state after a switch, for each place the leaving thread goes |
| `MutexLibrary.Scheduler.MutexUnblockRandomThread` | nim/uthreads.cpp:250-285 | Some legal waiter becomes the holder, or the mutex becomes free |
| `MutexLibrary.Scheduler.AlarmSigHandler` | nim/uthreads.cpp:224-230 | A tick is the specified step |
| `MutexLibrary.Scheduler.Spawn` | nim/uthreads.cpp:342-369 | The new state and result, including the limit on threads |
| `MutexLibrary.Scheduler.Terminate` | nim/uthreads.cpp:376-414 | The specified step for the waiter met in the hand-off, if there is one |
| `MutexLibrary.Scheduler.Block` | nim/uthreads.cpp:420-461 | The new state and result for running, ready, mutex-blocked and blocked threads, thread 0 and a missing id |
| `MutexLibrary.Scheduler.Resume` | nim/uthreads.cpp:467-491 | The new state and result; a thread that waits for the mutex is not queued |
| `MutexLibrary.Scheduler.MutexLock` | nim/uthreads.cpp:535-560 | Fails for the holder, takes a free mutex, otherwise waits |
| `MutexLibrary.Scheduler.MutexUnlock` | nim/uthreads.cpp:565-588 | Fails unless called by the holder, otherwise hands the mutex on |
| `BipartiteMatching.MaxBipartiteMatchState.TryAugment` | cmake-build-debug/_deps/googletest-src/googlemock/src/gmock-matchers.cc:165-205 | On failure nothing is linked anew and the nodes newly marked are closed; on success exactly the given left node becomes matched, through newly marked right nodes outside every closed set |
| `BipartiteMatching.MaxBipartiteMatchState.Compute` | cmake-build-debug/_deps/googletest-src/googlemock/src/gmock-matchers.cc:129-160 | One pass over the left nodes gives a matching of maximum cardinality |
| `BipartiteMatching.MaxBipartiteMatchState.constructor` | cmake-build-debug/_deps/googletest-src/googlemock/src/gmock-matchers.cc:123-126 | No node is linked at first |
| `BipartiteMatching.FindMaxBipartiteMatching` | cmake-build-debug/_deps/googletest-src/googlemock/src/gmock-matchers.cc:225-227 | A maximum matching for every graph, in ascending order of left nodes |
| `BipartiteMatching.FindPairing` | cmake-build-debug/_deps/googletest-src/googlemock/src/gmock-matchers.cc:417-456 | Accepts exactly when some matching covers all matchers (superset) and all elements (subset), as far as each is required |
| `BipartiteMatching.WeakDuality` | cmake-build-debug/_deps/googletest-src/googlemock/src/gmock-matchers.cc:132-143 | No matching is larger than any vertex cover |
| `BipartiteMatching.ClosedSetProvesMaximum` | cmake-build-debug/_deps/googletest-src/googlemock/src/gmock-matchers.cc:132-143 | A closed set that catches every unmatched left node gives a vertex cover as large as the matching, so the matching is maximum |
| `BipartiteMatching.PairsAreMatching` | cmake-build-debug/_deps/googletest-src/googlemock/src/gmock-matchers.cc:101-102 | Mutually referent vectors record a matching |
| `BipartiteMatching.LinkExtends` | cmake-build-debug/_deps/googletest-src/googlemock/src/gmock-matchers.cc:194-201 | Linking through a right node whose partner was re-linked restores mutual reference and adds one unit of flow |
| `BipartiteMatching.CoveringIsSize` | cmake-build-debug/_deps/googletest-src/googlemock/src/gmock-matchers.cc:421-434 | A matching covers a side exactly when it is at least as large as that side |
| `GlobFilter.PatternMatchesString` | cmake-build-debug/_deps/googletest-src/googletest/src/gtest.cc:655-700 | The loop with one backtrack point ends and returns true exactly for names in the language of the pattern |
| `GlobFilter.MatchesFilter` | cmake-build-debug/_deps/googletest-src/googletest/src/gtest.cc:702-725 | True exactly when one of the colon-separated patterns matches |
| `GlobFilter.NewStarCoversOld` | cmake-build-debug/_deps/googletest-src/googletest/src/gtest.cc:681-688 | A name the previous star could still match, the new star can match too, so the older backtrack point may be forgotten |
| `GlobFilter.StarSplits` | cmake-build-debug/_deps/googletest-src/googletest/src/gtest.cc:681-697 | Passing a star: no character now, or keep it and give it one more |
| `GlobFilter.StarFreeIsFixed` | cmake-build-debug/_deps/googletest-src/googletest/src/gtest.cc:666-680 | Between stars the pattern takes as many characters as it has |
| `GlobFilter.PatternsAreTheParts` | cmake-build-debug/_deps/googletest-src/googletest/src/gtest.cc:704-710 | The patterns hold no colon, and joined with colons they are the filter |
| `GlobFilter.FirstPatternOrLater` | cmake-build-debug/_deps/googletest-src/googletest/src/gtest.cc:708-722 | A filter matches by its first pattern or by what follows the first colon |
| `SimpleRegex.ValidateRegex` | cmake-build-debug/_deps/googletest-src/googletest/src/gtest-port.cc:828-879 | Valid exactly for the texts ^? item* $? of the grammar; a null pointer and a trailing backslash are invalid |
| `SimpleRegex.NoComplaintIsGrammar` | cmake-build-debug/_deps/googletest-src/googletest/src/gtest-port.cc:834-878 | The checks made character by character accept exactly the grammar |
| `SimpleRegex.MatchRepetitionAndRegexAtHead` | cmake-build-debug/_deps/googletest-src/googletest/src/gtest-port.cc:888-910 | True exactly when a prefix is an allowed number of repetitions followed by a match of the rest, although it stops at the first that fits |
| `SimpleRegex.MatchRegexAtHead` | cmake-build-debug/_deps/googletest-src/googletest/src/gtest-port.cc:915-941 | Ends, and is true exactly when some prefix of the string is in the language of the regex |
| `SimpleRegex.MatchRegexAnywhere` | cmake-build-debug/_deps/googletest-src/googletest/src/gtest-port.cc:951-963 | True exactly when some substring matches, or a prefix for '^'; false for null pointers |
| `SimpleRegex.HeadUnfolds` | cmake-build-debug/_deps/googletest-src/googletest/src/gtest-port.cc:897-908 | Matching at the head is matching the first item some allowed number of times and then the rest |
| `SimpleRegex.AtomChars` | cmake-build-debug/_deps/googletest-src/googletest/src/gtest-port.cc:781-795 | Which characters may stand after a backslash and which may stand alone, by code and by name |
| `SimpleRegex.PunctuationCodes` | cmake-build-debug/_deps/googletest-src/googletest/src/gtest-port.cc:782-784 | The punctuation characters are the codes 21-2F, 3A-40, 5B-60 and 7B-7E |
| `SimpleRegex.DigitWords` | cmake-build-debug/_deps/googletest-src/googletest/src/gtest-port.cc:802-803 | The words of d and D after a backslash, by code |
| `SimpleRegex.WordCharWords` | cmake-build-debug/_deps/googletest-src/googletest/src/gtest-port.cc:811-812 | The words of w and W after a backslash, by code |
| `SimpleRegex.SpaceWords` | cmake-build-debug/_deps/googletest-src/googletest/src/gtest-port.cc:807-808 | The words of s and S after a backslash, by code |
| `SimpleRegex.ControlWords` | cmake-build-debug/_deps/googletest-src/googletest/src/gtest-port.cc:804-810 | The words of f, n, r, t and v after a backslash, by code |
| `SimpleRegex.PunctuationWords` | cmake-build-debug/_deps/googletest-src/googletest/src/gtest-port.cc:814-814 | Escaped punctuation stands for itself |
| `SimpleRegex.PlainWords` | cmake-build-debug/_deps/googletest-src/googletest/src/gtest-port.cc:817-817 | A dot stands for anything but a line feed, any other character for itself |
| `SimpleRegex.TextShape` | cmake-build-debug/_deps/googletest-src/googletest/src/gtest-port.cc:924-928 | The text of an item shows its escape, its character and its repetition without ambiguity |
| `SimpleRegex.RE.constructor` | cmake-build-debug/_deps/googletest-src/googletest/src/gtest-port.cc:984-1015 | Valid exactly for the grammar; the full pattern is the anchored regex with a '$' behind it unless that character is already last |
| `SimpleRegex.RE.FullMatch` | cmake-build-debug/_deps/googletest-src/googletest/src/gtest-port.cc:973-975 | Anchored match to the end of the string, or only to a prefix if the regex ends in an escaped '$' |
| `SimpleRegex.RE.PartialMatch` | cmake-build-debug/_deps/googletest-src/googletest/src/gtest-port.cc:979-981 | Valid, and some substring matches |
| `SimpleRegex.FullPatternParses` | cmake-build-debug/_deps/googletest-src/googletest/src/gtest-port.cc:1003-1012 | The full pattern is in the grammar again, and which regex it is |
| `SimpleRegex.FullMatchIsExactIff` | cmake-build-debug/_deps/googletest-src/googletest/src/gtest-port.cc:972-975 | A full match means that the entire string is in the language, for every string, if and only if the regex does not end in an escaped '$' |
| `CDataSection.OutputXmlCDataSection` | cmake-build-debug/_deps/googletest-src/googletest/src/gtest.cc:4125-4142 | For every text, reading the output as XML content gives the text back |
| `CDataSection.WrittenReadsBack` | cmake-build-debug/_deps/googletest-src/googletest/src/gtest.cc:4125-4142 | The same for what is written from any segment on |
| `CDataSection.FirstClose` | cmake-build-debug/_deps/googletest-src/googletest/src/gtest.cc:4137-4141 | The closing mark after a segment is the first one, whatever brackets the segment ends in |
| `CDataSection.SplitReads` | cmake-build-debug/_deps/googletest-src/googletest/src/gtest.cc:4134-4135 | Where the writer splits, the reader sees the three characters as text and goes on in the next section |
| `EditDistance.CalculateOptimalEdits` | cmake-build-debug/_deps/googletest-src/googletest/src/gtest.cc:1227-1282 | Ends with a valid edit script from left to right whose cost is the one recorded in the table; it is a cheapest script exactly when some cheapest script avoids every entry at which the strict comparisons miss a tie |
| `EditDistance.PathIsScript` | cmake-build-debug/_deps/googletest-src/googletest/src/gtest.cc:1272-1281 | The path read off the table consumes exactly left, produces exactly right, and costs what the table says |
| `EditDistance.FillEdges` | cmake-build-debug/_deps/googletest-src/googletest/src/gtest.cc:1234-1243 | The entries for an empty side |
| `EditDistance.FillRow` | cmake-build-debug/_deps/googletest-src/googletest/src/gtest.cc:1245-1270 | A row filled from the one above holds the specified entries; later rows are untouched |
| `EditDistance.ReadPath` | cmake-build-debug/_deps/googletest-src/googletest/src/gtest.cc:1272-1281 | Walking back and reversing gives the specified path, and ends |
| `EditDistance.LeastIsLowerBound` | cmake-build-debug/_deps/googletest-src/googletest/include/gtest/internal/gtest-internal.h:163-166 | No script costs less than the three-way minimum |
| `EditDistance.LeastIsReached` | cmake-build-debug/_deps/googletest-src/googletest/include/gtest/internal/gtest-internal.h:163-166 | Some script costs exactly that |
| `EditDistance.TableIsMinimalIff` | cmake-build-debug/_deps/googletest-src/googletest/src/gtest.cc:1257-1268 | Every entry of the table holds the least cost exactly when none of them misses a tie |
| `EditDistance.OptimalIff` | cmake-build-debug/_deps/googletest-src/googletest/include/gtest/internal/gtest-internal.h:163-166 | The promise of optimal edits for the one call: the path is a cheapest script if and only if some cheapest script meets no entry that falls through and takes the matches at its end |
| `EditDistance.NoDearerThanAvoiding` | cmake-build-debug/_deps/googletest-src/googletest/src/gtest.cc:1257-1268 | The table is no dearer than any script that avoids the entries that fall through |
| `EditDistance.CheapPathAvoids` | cmake-build-debug/_deps/googletest-src/googletest/src/gtest.cc:1257-1268 | A path that costs the least avoids them itself |
| `EditDistance.FallingThroughIsDearer` | cmake-build-debug/_deps/googletest-src/googletest/src/gtest.cc:1254-1268 | At unequal elements the entry is the least its three neighbours allow exactly when one of them is strictly the least; on a tie it is more |
| `EditDistance.CheapestInSpiteOfATie` | cmake-build-debug/_deps/googletest-src/googletest/src/gtest.cc:1257-1268 | A call whose table misses a tie off the path and whose script is a cheapest one all the same |
| `EditDistance.PathsAreCheapestIff` | cmake-build-debug/_deps/googletest-src/googletest/src/gtest.cc:1257-1281 | For the whole table rather than one call: the scripts for all pairs of prefixes are cheapest exactly when no entry misses a tie |
| `EditDistance.NotAlwaysCheapest` | cmake-build-debug/_deps/googletest-src/googletest/include/gtest/internal/gtest-internal.h:163-166 | Turning 0 1 0 into 1 0 1 gives three replacements although two edits do |
| `EditDistance.TwoEditsDo` | cmake-build-debug/_deps/googletest-src/googletest/include/gtest/internal/gtest-internal.h:163-166 | The two edits that do |
| `Utf8.IsValidUTF8` | cmake-build-debug/_deps/googletest-src/googletest/src/gtest-printers.cc:459-492 | True exactly for the byte sequences of the syntax in section 4 of RFC 3629 |
| `Utf8.CodePointToUtf8` | cmake-build-debug/_deps/googletest-src/googletest/src/gtest.cc:1930-1956 | The shortest layout of section 3 of RFC 3629 up to 0x1FFFFF, nothing for 0, and the message above |
| `Utf8.ChopLowBits` | cmake-build-debug/_deps/googletest-src/googletest/src/gtest.cc:1918-1922 | For any number of bits, the low bits and the others, put together, are the number again |
| `Words.ChopIsDivision` | cmake-build-debug/_deps/googletest-src/googletest/src/gtest.cc:1919-1920 | Masking a word with its n lowest bits set and shifting it right by n stand for the remainder and the quotient of its number by 2 to the n, for every word and n |
| `Words.LowMaskIsOneLess` | cmake-build-debug/_deps/googletest-src/googletest/src/gtest.cc:1919-1919 | That mask stands for (1 << n) - 1 |
| `Words.MarkerIsAdded` | cmake-build-debug/_deps/googletest-src/googletest/src/gtest.cc:1941-1953 | Setting marker bits above the bits of a small number adds the marker |
| `Utf8.MarkersAreSums` | cmake-build-debug/_deps/googletest-src/googletest/src/gtest.cc:1941-1953 | This holds for the four markers of the layouts |
| `Utf8.HexReadsBack` | cmake-build-debug/_deps/googletest-src/googletest/src/gtest.cc:2143-2147 | The hexadecimal text stands for the number |
| `Utf8.EncodingIsUnique` | cmake-build-debug/_deps/googletest-src/googletest/src/gtest.cc:1935-1955 | Only one byte string fits the layout of a code point |
| `Utf8.EncodingIsUtf8Iff` | cmake-build-debug/_deps/googletest-src/googletest/src/gtest.cc:1935-1955 | Up to four bytes, a UTF-8 character comes out exactly for Unicode scalar values |
| `Utf8.EncoderWritesUtf8Iff` | cmake-build-debug/_deps/googletest-src/googletest/src/gtest.cc:1930-1956 | Over all inputs the output is valid UTF-8 except for surrogates and for 0x110000 to 0x1FFFFF |
| `Utf8.MessageIsGivenIff` | cmake-build-debug/_deps/googletest-src/googletest/src/gtest.cc:1927-1933 | The promise of the message beyond 0x10FFFF is kept exactly up to there and beyond 0x1FFFFF |
| `Utf8.MessageNamesNumber` | cmake-build-debug/_deps/googletest-src/googletest/src/gtest.cc:1931-1933 | The message begins with the announced words, then names the number in hexadecimal, and ends with a parenthesis |
| `Utf8.FourBytesForNoCodePoint` | cmake-build-debug/_deps/googletest-src/googletest/src/gtest.cc:1927-1955 | At 0x110000 the output is F4 90 80 80, which is neither the message nor UTF-8 |
| `Utf8.DecodesBack` | cmake-build-debug/_deps/googletest-src/googletest/src/gtest-printers.cc:459-492 | Every UTF-8 character but NUL is the encoding of the scalar value it stands for |
| `Utf8.EncodedReadsBack` | cmake-build-debug/_deps/googletest-src/googletest/src/gtest.cc:1930-1956 | Encodings of non-zero scalar values in a row are UTF-8 without NUL and decode to just those values, so the decomposition is unique |
| `Utf8.Utf8IsEncoded` | cmake-build-debug/_deps/googletest-src/googletest/src/gtest-printers.cc:459-492 | UTF-8 without NUL is what the encoder writes for the values decoded from it |
| `Utf8.Utf8IffEncoded` | cmake-build-debug/_deps/googletest-src/googletest/src/gtest-printers.cc:459-492 | Among strings without NUL the validator's language is exactly the encoder's |
| `Utf8.IsUtf8Unfolds` | cmake-build-debug/_deps/googletest-src/googletest/src/gtest-printers.cc:462-489 | Taking a character off the front does not change whether the string is UTF-8 |
| `Expectations.ExpectationBase.AllPrerequisitesAreSatisfied` | cmake-build-debug/_deps/googletest-src/googlemock/src/gmock-spec-builders.cc:135-152 | Ends without a record of what it has seen, and is true exactly when every prerequisite at any distance is satisfied |
| `Expectations.ExpectationBase.RetireAllPreRequisites` | cmake-build-debug/_deps/googletest-src/googlemock/src/gmock-spec-builders.cc:108-131 | Retires exactly the prerequisites at any distance, in spite of its short-cut and of skipping retired ones, and leaves nothing retired before its prerequisites |
| `Expectations.ExpectationBase.FindUnsatisfiedPrerequisites` | cmake-build-debug/_deps/googletest-src/googlemock/src/gmock-spec-builders.cc:155-182 | Adds exactly the unsatisfied prerequisites reached through satisfied ones without calls |
| `Expectations.RetiredAll` | cmake-build-debug/_deps/googletest-src/googlemock/src/gmock-spec-builders.cc:110-114 | If immediate prerequisites of retired expectations are retired, so are those at any distance, which is what the short-cut relies on |
| `Expectations.FoundIsUnsatisfied` | cmake-build-debug/_deps/googletest-src/googlemock/src/gmock-spec-builders.cc:155-182 | What is found is an unsatisfied prerequisite |
| `Expectations.FailureIsExplained` | cmake-build-debug/_deps/googletest-src/googlemock/src/gmock-spec-builders.cc:168-173 | A failed check has something to name, or some prerequisite was called before its own prerequisites were satisfied |
| `Expectations.ExplainedIff` | cmake-build-debug/_deps/googletest-src/googlemock/src/gmock-spec-builders.cc:168-173 | Unless that happened, the check fails exactly when there is something to name |
| `PrimeTables.OnTheFlyPrimeTable.IsPrime` | cmake-build-debug/_deps/googletest-src/googletest/samples/prime_tables.h:57-66 | Trial division up to the square root decides primality, for every integer |
| `PrimeTables.OnTheFlyPrimeTable.GetNextPrime` | cmake-build-debug/_deps/googletest-src/googletest/samples/prime_tables.h:68-74 | Ends, and returns the least prime above p; -1 for negative p |
| `PrimeTables.PrimeAbove` | cmake-build-debug/_deps/googletest-src/googletest/samples/prime_tables.h:68-74 | There is a prime above every number |
| `PrimeTables.SmallDivisor` | cmake-build-debug/_deps/googletest-src/googletest/samples/prime_tables.h:60-63 | A number is prime exactly when it has no divisor up to its square root |
| `PrimeTables.PreCalculatedPrimeTable.CalculatePrimesUpTo` | cmake-build-debug/_deps/googletest-src/googletest/samples/prime_tables.h:101-117 | After the sieve an entry is true exactly for primes |
| `PrimeTables.PreCalculatedPrimeTable.CrossOutMultiples` | cmake-build-debug/_deps/googletest-src/googletest/samples/prime_tables.h:110-115 | Crossing out from i * i deals with all multiples of i |
| `PrimeTables.PreCalculatedPrimeTable.constructor` | cmake-build-debug/_deps/googletest-src/googletest/samples/prime_tables.h:82-85 | The table holds exactly the primes up to max |
| `PrimeTables.PreCalculatedPrimeTable.IsPrime` | cmake-build-debug/_deps/googletest-src/googletest/samples/prime_tables.h:88-90 | True exactly for primes within the table |
| `PrimeTables.PreCalculatedPrimeTable.GetNextPrime` | cmake-build-debug/_deps/googletest-src/googletest/samples/prime_tables.h:92-98 | The least prime above p if the table holds one, and -1 exactly if it does not |
| `PrimeTables.Crossed` | cmake-build-debug/_deps/googletest-src/googletest/samples/prime_tables.h:110-113 | Starting at i * i is enough: smaller multiples have a smaller divisor |
| `PrimeTables.CompositeSkipped` | cmake-build-debug/_deps/googletest-src/googletest/samples/prime_tables.h:108-108 | Multiples of a crossed-out candidate are crossed out already |
| `PrimeTables.EvenSkipped` | cmake-build-debug/_deps/googletest-src/googletest/samples/prime_tables.h:105-107 | So are the multiples of the even candidates left out |
| `PrimeTables.HybridPrimeTable.constructor` | cmake-build-debug/_deps/googletest-src/googletest/samples/sample8_unittest.cc:50-55 | With or without a sieve the table is in a valid state |
| `PrimeTables.HybridPrimeTable.IsPrime` | cmake-build-debug/_deps/googletest-src/googletest/samples/sample8_unittest.cc:61-66 | Decides primality for every integer, as the on-the-fly table does |
| `PrimeTables.HybridPrimeTable.GetNextPrime` | cmake-build-debug/_deps/googletest-src/googletest/samples/sample8_unittest.cc:68-74 | The least prime above every p >= 0, as the on-the-fly table; the exact result below 0 |
| `PrimeTables.LeastPrimeIsUnique` | cmake-build-debug/_deps/googletest-src/googletest/samples/sample8_unittest.cc:68-74 | The least prime above p is one number, so the tables agree |

## Left out

- Register contexts, stacks, `sigsetjmp` and `siglongjmp`: a switch is an atomic transfer of control together with the quantum it starts; the model assumes that a resumed thread returns from `switchThread` to its caller. The code of `nim` ignores the return value of `saveEnv` (line 202), so taken literally a resumed thread would go through lines 203-216, and so switch, once more; that second pass is not modelled.
- Signal masks and interval timers: each call is one atomic step and a tick may come between any two; `uthread_terminate` unmasks the alarm before its switch (line 421), and error returns leave it masked, which the model does not show.
- Termination of thread 0 ends the process and so ends a run; freeing memory, allocation failure, `exit` and error messages are not modelled.
- A second call of `uthread_init`: the header (lines 22-23) rules it out.
- Entry points: only whether one is null matters, in `uthreads.cpp`; `nim` does not look.
- Getters of thread ids and quantums: they read one field.
- Thread objects are values in the table, not objects of their own; the pointers that several structures share in `nim` are ids here, so a stale pointer cannot be told from a reused id.
- Fairness among mutex waiters: the order of an unordered map is an arbitrary choice, and nothing is claimed about which of several unblocked waiters is next.
- The header with the mutex functions of `nim` is not part of this model; MAX_THREAD_NUM is that of `uthreads.h`.
- Storage of `MatchMatrix`, the per-element report of `VerifyMatchMatrix` and everything written to a listener: the graph is a relation, and only the decision of `FindPairing` is modelled.
- Strings: characters and bytes are values; C strings are sequences without NUL where the code relies on it, and a null pointer is an absent option.
- Indices and counters are unbounded: the largest repetition count of the regex matcher and the sieve's products do not overflow.
- Rounding of edit costs: they are exact decimals, as real numbers.
- Interning of strings before edit scripts, and the unified diff printed from them.
- The XML reader does not check which characters XML admits (section 2.2 of XML 1.0) and does not normalise line ends (section 2.11): a text with control characters or carriage returns reads back in the model, though an XML parser would refuse or change it.
- Shifts, masks and markers in the UTF-8 encoder are quotients, remainders and sums of numbers; `Words.dfy` proves that this is what they do to the bits of a word.
- Whether an expectation is satisfied is a flag; cardinalities, actions, call matching and the inline functions of gmock-spec-builders.h are not modelled. Acyclicity of prerequisites is stated through the order of creation.
- The pre-calculated prime table with a maximum below 1, and its `GetNextPrime` below -1, read or write outside the array and are excluded.
- The rest of googletest (death tests, result printers, flags, file paths, mock registries, scripts) and the repository's demos and drivers.
