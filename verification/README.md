# Verification models of a C++ repository

Dafny models of the parts of this repository whose correctness depends on interleavings, aliasing,
partial input or bounded buffers, with proofs of what those parts are for.  `dafny verify
dfyconfig.toml` checks the whole project.

Each component has a model on values (functions, steps and lemmas over every run or input) and,
where the source updates things in place, classes and methods whose bodies follow the source and
are proved against the model.

| component | files |
|---|---|
| callback list of eventpp, changed while it is traversed | CallbackListModel, CallbackListRuns, CallbackList |
| event queue of eventpp, any number of concurrent calls | EventQueueModel, EventQueueRuns, EventQueueOrder, EventQueue |
| key filter and document builder of rapidjson | JsonDom, FilterKey, FilterKeyHandler |
| the six Unicode converters of linenoise | UtfCodec, UtfConvert, UtfTheorems, UtfReturns |
| the three stream framers | FramerModel, Framer |
| logger: hand-off between two threads, formatter | LoggerModel, LogFormat, Logger |
| pool allocator of rapidjson | PoolModel, MemoryPool |
| kill ring, yank, bracket matching and screen positions of linenoise | KillRingModel, LineEditor, Brackets, ScreenPosition |

## Conventions

- Concurrency and reentrancy are step relations.  A step is what the source does under one mutex,
  with one atomic counter, or on memory that is its own; runs are arbitrary sequences of steps.
- Fields called history are read by no operation; the theorems are stated with them.
- Integer widths are explicit where the source relies on them: the 32 bit generation counter, the
  depth counter and member counts of the filter, flags and bits of JSON numbers, code units, the
  unsigned length of the four byte header.
- The host is little-endian with 64 bit pointers (framer headers, short strings, alignment).
- The output of `time` functions, of `write` and of the base allocator, and the answers of handlers and
  predicates, are parameters.

## Where the code falls short of its documentation or of the expected property

- Callback list: doc/callbacklist.md of eventpp speaks of a 64 bit generation counter; the code has
  `unsigned int`.  A node added while a traversal runs passes its counter test exactly if the counter
  has wrapped since the traversal began and has come no further up to that node than it had come for
  the traversal (`LateNodeIsVisibleIff`, and a run in which that happens, `WrapShowsLateNode`).
- Callback list: the handle of a node that was removed but is kept alive is not expired.  Removing it
  again leaves the links of the list as they were exactly if the linked ones of the two nodes it names
  still adjoin (`FreeAgainKeepsShapeIff`); otherwise it can take others out with it
  (`RemovedTwiceLosesAnother`).  A node inserted before it is met by later traversals exactly if the
  removed node names a linked one before it, and then `previous` and `next` no longer mirror each other
  (`InsertBeforeUnlinkedIsReachedIff`, `InsertedBeforeRemovedIsInvokedIff`,
  `InsertedBeforeRemovedIsMet`).
- Event queue: `emptyQueue` reads the list, then the counter.  A true answer can be relied on exactly
  if no `processIf` held an event when the list was read (`TwoReadsTellIff`): it may put the event back
  in between.  Such a state is reachable (`TwoReadsCanMiss`).
- Converters: `isLegalUTF8` checks no lower bound of the second byte after ED and F4
  (`LegalIsAlmostWellFormed`, `IllFormedIsAccepted`).  In lenient mode a call can stop right behind a
  lone high surrogate, and then what was written is not the conversion of what was consumed
  (`WrittenIsConsumed`, `LenientStopsInside`).  Some size of the target does that to a source exactly if
  a high surrogate in it is followed by a unit that is neither a low surrogate nor a high surrogate at
  the end (`LenientCutsCleanlyIff`), and none does in strict mode (`StrictCutsCleanly`); continuing is
  correct all the same (`Resume`).
- Framers: the header of generic_framer1 allows an empty body, the code refuses 0 and 1; that of
  generic_framer2 allows a length of 4, the code refuses 4 to 7 and lets values below 4 wrap, so that
  they can only fail on the body bound (`FrameIsDeliveredIffAccepted`, `LowHeaderOnlyFails`).
- Logger: if the destructor sets `m_terminate` before the disk thread has taken its mutex for the first
  time, the dirty pool is dropped (`LateThreadLoses`, `JoinedMeansWritten`).  The final test for a forced
  flush compares two settings of the logger, not the level of the message, so that it forces all messages
  or none (`UrgentIsWrittenOutIff`); with the default settings it forces none (`FatalStaysInBuffer`).
- Kill ring: `index` is left alone by a kill that is added to a group, so a yank after a yank-pop, a kill
  of nothing and a kill gives an older entry (`EditorYankCanMiss`, `YankAfterKillCanMiss`, `YankedNextIff`).
- Bracket matching: `strchr` gets a character cut to a byte and also finds the NUL at the end of its
  string, so other characters are taken for brackets (`MutualIffBracket`, `LetterIsTakenForBracket`).
- Pool allocator: nothing checks that a user buffer is aligned (`BlocksAreSafe`, `UserBlockMisaligned`).

## Model

| member | source | states |
|---|---|---|
| CallbackListRuns.SnapshotIteration | eventpp/include/eventpp/callbacklist.h:273-299 | In every run of additions, removals and nested traversals, a traversal that ends without a counter wrap has invoked, once each and in list order, exactly the nodes linked at its start and not removed before their turn |
| CallbackListRuns.SnapshotSoFar | eventpp/include/eventpp/callbacklist.h:273-299 | At every moment of every run without a wrap, stopped and running traversals included: the traversal is past some first part of the nodes linked at its start and has invoked exactly those of them not removed before their turn; a stopped one has invoked the node it stopped at last |
| CallbackListRuns.VisibleIffWithinCounter | eventpp/include/eventpp/callbacklist.h:283-287 | In every reachable world, after any number of wraps: a live node passes the counter test of a traversal if and only if no more counters were taken from the last wrap to its own than the traversal began with |
| CallbackListRuns.LateNodeIsVisibleIff | eventpp/include/eventpp/callbacklist.h:283-287 | A node added after a traversal began passes its test if and only if the counter has wrapped since the traversal began and came no further up to the node than it had come for the traversal: the exact condition under which the guarantee is lost |
| CallbackListRuns.NewNodeIsVisibleIffWrapped | eventpp/include/eventpp/callbacklist.h:283-287 | At the moment of adding, in a traversal without a wrap so far: if and only if adding the node wrapped the counter |
| CallbackListRuns.WrapShowsLateNode | eventpp/include/eventpp/callbacklist.h:357-373 | A run from the empty list in which the counter wraps under a traversal, which then invokes a node that was not linked when it began |
| CallbackListRuns.CounterTellsAge | eventpp/include/eventpp/callbacklist.h:283-286 | The counter test answers whether a live node was linked when the traversal began |
| CallbackListRuns.StepKeepsInv | eventpp/include/eventpp/callbacklist.h:181-299 | Every operation and every step of every traversal keeps the heap valid and all cursors tracked, whatever is interleaved |
| CallbackListRuns.NextShrinksAfter | eventpp/include/eventpp/callbacklist.h:353-354 | Following `next`, stale or not, strictly shrinks the set of nodes still ahead, so a paused loop ends even from a removed node |
| CallbackListRuns.TraversalFinishes | eventpp/include/eventpp/callbacklist.h:285-299 | From wherever it stands, whatever was removed and added before, a traversal that is left alone comes to its end |
| CallbackListRuns.TestDecides | eventpp/include/eventpp/callbacklist.h:285-287 | What the test of a node leads to: the end, the listener, or the next node |
| CallbackListRuns.WalkOfLinked | eventpp/include/eventpp/callbacklist.h:289-296 | From a linked node the chain of `next` pointers is the rest of the list, in order |
| CallbackListRuns.WalkMissesNothing | eventpp/include/eventpp/callbacklist.h:353-354 | From any node, removed or not, the walk still meets every linked node ahead of it that is older than the removal |
| CallbackListRuns.NextIsGood | eventpp/include/eventpp/callbacklist.h:294-296 | Loading `next` loses no node that is still due, also when the current node or its neighbours were removed meanwhile |
| CallbackListModel.NextCounterKeepsValid | eventpp/include/eventpp/callbacklist.h:357-373 | Taking a counter, the wrap reset included, keeps the heap invariant and every linked counter in 1..currentCounter |
| CallbackListModel.LinkedKeepsValid | eventpp/include/eventpp/callbacklist.h:181-233 | Linking a new node at any position keeps mirrored links, the order of all nodes, forward `next` pointers and the stale links of removed nodes |
| CallbackListModel.AppendLinks | eventpp/include/eventpp/callbacklist.h:181-198 | `append` puts the node last and keeps the invariant |
| CallbackListModel.PrependLinks | eventpp/include/eventpp/callbacklist.h:200-217 | `prepend` puts the node first and keeps the invariant |
| CallbackListModel.InsertLinks | eventpp/include/eventpp/callbacklist.h:219-233 | `insert` puts the node right before the given linked node and keeps the invariant |
| CallbackListModel.RemoveUnlinks | eventpp/include/eventpp/callbacklist.h:334-355 | Freeing a linked node takes exactly it from the list: its neighbours adjoin, its counter is cleared, every other link is left |
| CallbackListModel.RemoveKeepsValid | eventpp/include/eventpp/callbacklist.h:334-355 | Freeing a linked node keeps the invariant; its own links stay and still lead forward, past no older survivor |
| CallbackListModel.FreeAgainKeepsShapeIff | eventpp/include/eventpp/callbacklist.h:235-245 | A removed node that a loop keeps alive can be removed again: the links of the list stay as they were if and only if the linked ones of the two nodes it names still adjoin |
| CallbackListModel.FreeAgainIsNothingIff | eventpp/include/eventpp/callbacklist.h:334-355 | It changes nothing at all if and only if both neighbours, linked or not, still point past it |
| CallbackListModel.InsertBeforeUnlinkedIsReachedIff | eventpp/include/eventpp/callbacklist.h:315-327 | A node inserted before a removed one is on the chain of `next` from the head if and only if the removed one names a linked node before it, and exactly then the links no longer mirror each other |
| CallbackListModel.InsertBeforeUnlinkedKeepsShapeIff | eventpp/include/eventpp/callbacklist.h:315-327 | The half about the mirrored links on its own |
| CallbackListModel.InsertedBeforeRemovedIsMet | eventpp/include/eventpp/callbacklist.h:315-327 | Three nodes, the middle one removed, another inserted before it: the chain goes from the first to the new node, to the removed one and to the last |
| CallbackListRuns.InsertedBeforeRemovedIsInvokedIff | eventpp/include/eventpp/callbacklist.h:273-299 | A traversal that starts later passes the counter test at that node, and comes past it if and only if the removed one names a linked node before it |
| CallbackListModel.ReachesIffLinked | eventpp/include/eventpp/callbacklist.h:285-296 | In a list whose links mirror each other, the nodes on the chain from the head are exactly the linked ones |
| CallbackListModel.RemovedTwiceLosesAnother | eventpp/include/eventpp/callbacklist.h:334-345 | Three nodes put into an empty list, the middle one removed, another put in its place, the middle one removed again: the other is no longer on the chain from the head |
| CallbackListModel.FreeAssigns | eventpp/include/eventpp/callbacklist.h:334-355 | Freeing a linked or a removed node: what it does to ends and counters, and that the invariant is kept unless a neighbour of a removed node has moved |
| CallbackListModel.LinkedNodeIsCurrent | eventpp/include/eventpp/callbacklist.h:283-286 | A linked node passes the test of a traversal that starts now |
| CallbackLists.CallbackList.Append | eventpp/include/eventpp/callbacklist.h:181-198 | The pointer assignments of `append` change the heap as the model says, the returned handle included |
| CallbackLists.CallbackList.Prepend | eventpp/include/eventpp/callbacklist.h:200-217 | The pointer assignments of `prepend` change the heap as the model says |
| CallbackLists.CallbackList.Insert | eventpp/include/eventpp/callbacklist.h:219-233 | `insert` links before any live handle, of a linked or a removed node, as the model says, and appends for an expired one |
| CallbackLists.CallbackList.Remove | eventpp/include/eventpp/callbacklist.h:235-245 | `remove` frees the node of any live handle, of a linked or a removed node, as the model says, and reports it; an expired one changes nothing |
| CallbackLists.CallbackList.FreeNode | eventpp/include/eventpp/callbacklist.h:334-355 | Ends, links and counter together are the list of the model |
| CallbackLists.CallbackList.Empty | eventpp/include/eventpp/callbacklist.h:168-175 | True exactly if no node is linked |
| CallbackLists.CallbackList.DoInsert | eventpp/include/eventpp/callbacklist.h:315-327 | Relinking before a node refines the model, at the head as well |
| CallbackLists.CallbackList.DoFreeNode | eventpp/include/eventpp/callbacklist.h:334-355 | Unlinking refines the model: neighbours and ends move, the counter is cleared, the own links are left |
| CallbackLists.CallbackList.GetNextCounter | eventpp/include/eventpp/callbacklist.h:357-373 | The counter advances, and on overflow the loop over the list resets every linked node to 1 |
| CallbackLists.CallbackList.ResetCounters | eventpp/include/eventpp/callbacklist.h:361-368 | The reset loop visits every linked node and no other |
| CallbackLists.Traversal.Test | eventpp/include/eventpp/callbacklist.h:285-287 | The loop condition and counter test on the heap are those of the model |
| CallbackLists.Traversal.Next | eventpp/include/eventpp/callbacklist.h:294-296 | The load of `next` on the heap is that of the model |
| CallbackLists.ForEachIf | eventpp/include/eventpp/callbacklist.h:257-299 | With a function that leaves the list alone, the callbacks are visited in list order up to the first one answered with false |
| CallbackListModel.ClonedIsValid | eventpp/include/eventpp/callbacklist.h:375-398 | A copy is a valid list of the same callbacks in the same order |
| CallbackLists.CallbackList.CloneFrom | eventpp/include/eventpp/callbacklist.h:375-398 | The loop over the other list builds exactly that copy, on fresh nodes that share one counter |
| EventQueueModel.StepKeepsInv | eventpp/include/eventpp/eventqueue.h:179-325 | Every step of any number of concurrent calls keeps ownership, conservation, the set/get/clear discipline and the counter |
| EventQueueRuns.NothingIsLost | eventpp/include/eventpp/eventqueue.h:179-447 | In every run: no assert of `BufferedItem` fails, queued nodes are full and free ones empty, every node is in exactly one list once, every submitted event is in exactly one of queued, in flight, handed out, cleared |
| EventQueueModel.ConsumerKeepsDiscipline | eventpp/include/eventpp/internal/eventqueue_i.h:61-94 | A consuming call clears or keeps nodes so that `get` and `clear` always find a `dtor` and free nodes never have one |
| EventQueueModel.EnqueueKeepsDiscipline | eventpp/include/eventpp/internal/eventqueue_i.h:69-75 | `set` always finds an empty node, reused or new |
| EventQueueModel.AssertsAreSeen | eventpp/include/eventpp/internal/eventqueue_i.h:69-94 | An assert of `BufferedItem` counts as failed exactly if `set` meets a full node or `get` or `clear` an empty one, and is never forgotten |
| EventQueueModel.FreeNodeIsUsed | eventpp/include/eventpp/eventqueue.h:426-440 | A free node the call sees is used again; a new one is made only if there is none |
| EventQueueModel.ConsumerKeeps | eventpp/include/eventpp/eventqueue.h:184-325 | No step of a consuming call changes how often a node or an event occurs in the lists, the call and the history together |
| EventQueueModel.GuardMatchesCounter | eventpp/include/eventpp/internal/eventqueue_i.h:28-41 | Each step moves `queueEmptyCounter` exactly as the call enters or leaves its guard |
| EventQueueRuns.UndoneMeansCounted | eventpp/include/eventpp/eventqueue.h:205-325 | An event a process call still has to hand out implies `queueEmptyCounter` > 0 |
| EventQueueRuns.EmptyQueueTells | eventpp/include/eventpp/eventqueue.h:179-182 | If queue and counter are both empty at one moment, every event is handed out or cleared, or in a call that counts nothing |
| EventQueueRuns.TwoReadsTell | eventpp/include/eventpp/eventqueue.h:179-182 | `emptyQueue` reads the list, then the counter. If no `processIf` holds an event at the first read, then whatever goes on in between, a true answer means that everything enqueued before the first read is done or in an uncounted call |
| EventQueueRuns.TwoReadsTellIff | eventpp/include/eventpp/eventqueue.h:179-182 | For every reachable world with an empty list: all continuations keep that promise if and only if no `processIf` holds an event in it |
| EventQueueRuns.RetainedCanMislead | eventpp/include/eventpp/eventqueue.h:272-325 | If one does, there is a continuation that breaks it: the other calls run to their end and it puts the event back |
| EventQueueRuns.TwoReadsCanMiss | eventpp/include/eventpp/eventqueue.h:179-182 | Such a world is reachable: a run from the empty queue in which `emptyQueue` answers true although an event was in the system throughout |
| EventQueueOrder.HandedOutInOrder | eventpp/include/eventpp/eventqueue.h:205-271 | In every run of process, processOne and takeEvent calls that do not hold events at the same time, what was handed out is a prefix of what was enqueued |
| EventQueueOrder.CallKeepsOrder | eventpp/include/eventpp/eventqueue.h:205-325 | One call from start to end while others enqueue: it takes a prefix of old and new events, hands out the chosen ones in order, and leaves the others, in order, in front of the rest; only `processIf` chooses |
| EventQueueOrder.StoryOfRun | eventpp/include/eventpp/eventqueue.h:273-325 | The same at every step on the way, so also while listeners enqueue |
| EventQueueOrder.ConsumerTakesInOrder | eventpp/include/eventpp/eventqueue.h:205-271 | No step of process, processOne or takeEvent changes the sequence handed out, held, queued |
| EventQueues.BufferedItem.Set | eventpp/include/eventpp/internal/eventqueue_i.h:69-75 | Fills an empty node |
| EventQueues.BufferedItem.Get | eventpp/include/eventpp/internal/eventqueue_i.h:78-82 | Reads a full node |
| EventQueues.BufferedItem.Clear | eventpp/include/eventpp/internal/eventqueue_i.h:84-89 | Empties a full node |
| EventQueues.EventQueue.EmptyQueue | eventpp/include/eventpp/eventqueue.h:179-182 | True exactly if the queue is empty and nothing is counted |
| EventQueues.EventQueue.DoEnqueue | eventpp/include/eventpp/eventqueue.h:426-447 | The event is the last in the queue, on the first free node if there is one and on a new one otherwise; the body is the three steps of the protocol |
| EventQueues.EventQueue.Process | eventpp/include/eventpp/eventqueue.h:205-236 | Every queued event is handed out in order, the queue is empty and all its nodes are free and empty, and the answer is whether there was any; the body, loop included, is a run of the protocol |
| EventQueues.EventQueue.ProcessOne | eventpp/include/eventpp/eventqueue.h:238-270 | The first event is handed out and its node freed, the rest of the queue stays, and the answer is whether there was one; a run of the protocol |
| EventQueues.EventQueue.ProcessIf | eventpp/include/eventpp/eventqueue.h:272-325 | Exactly the events the predicate holds of are handed out, in order, and their nodes freed; the others stay queued, in order; the answer is whether any was handed out; a run of the protocol |
| EventQueues.EventQueue.TakeEvent | eventpp/include/eventpp/eventqueue.h:370-395 | The first event goes to the caller and its node is freed; nothing happens to an empty queue; a run of the protocol |
| EventQueues.EventQueue.ClearEvents | eventpp/include/eventpp/eventqueue.h:184-203 | Every queued event is cleared without being handed out, and all nodes are freed; a run of the protocol |
| FilterKey.FilterPushesWithout | rapidjson/tags/release_v1.0.2/rapidjson-master/example/filterkeydom/filterkeydom.cpp:27-100 | For every value and key: the events of the value, sent through the filter into a document, push exactly the value without the members of that key at any level; nesting below 2^32, the range of the depth counter |
| FilterKey.FilteredValueIsSilent | rapidjson/tags/release_v1.0.2/rapidjson-master/example/filterkeydom/filterkeydom.cpp:27-100 | Below a filtered key nothing is let through, and the depth counter comes back to where it was |
| FilterKey.FilterPushesMembers | rapidjson/tags/release_v1.0.2/rapidjson-master/example/filterkeydom/filterkeydom.cpp:48-59 | The counter on top of the stack grows by the number of members let through |
| FilterKey.FilterEndsObject | rapidjson/tags/release_v1.0.2/rapidjson-master/example/filterkeydom/filterkeydom.cpp:61-72 | `EndObject` with the recounted number pops exactly the kept members, whatever number the reader sent |
| FilterKey.CountersWrap | rapidjson/tags/release_v1.0.2/rapidjson-master/example/filterkeydom/filterkeydom.cpp:37-88 | The depth and the member counts are counted modulo 2^32 |
| FilterKey.WithoutLacks | rapidjson/tags/release_v1.0.2/rapidjson-master/example/filterkeydom/filterkeydom.cpp:48-59 | What is left has no member of the key at any level, and a value is left as it is if and only if it had none |
| FilterKeyHandlers.FilterKeyHandler.Scalar | rapidjson/tags/release_v1.0.2/rapidjson-master/example/filterkeydom/filterkeydom.cpp:27-35 | Scalar events pass or are swallowed as the model says |
| FilterKeyHandlers.FilterKeyHandler.StartObject | rapidjson/tags/release_v1.0.2/rapidjson-master/example/filterkeydom/filterkeydom.cpp:37-46 | Refines the model |
| FilterKeyHandlers.FilterKeyHandler.Key | rapidjson/tags/release_v1.0.2/rapidjson-master/example/filterkeydom/filterkeydom.cpp:48-59 | Refines the model |
| FilterKeyHandlers.FilterKeyHandler.EndObject | rapidjson/tags/release_v1.0.2/rapidjson-master/example/filterkeydom/filterkeydom.cpp:61-72 | Refines the model |
| FilterKeyHandlers.FilterKeyHandler.StartArray | rapidjson/tags/release_v1.0.2/rapidjson-master/example/filterkeydom/filterkeydom.cpp:74-81 | Refines the model |
| FilterKeyHandlers.FilterKeyHandler.EndArray | rapidjson/tags/release_v1.0.2/rapidjson-master/example/filterkeydom/filterkeydom.cpp:83-90 | Refines the model |
| FilterKeyHandlers.FilterKeyHandler.Feed | rapidjson/tags/release_v1.0.2/rapidjson-master/example/filterkeydom/filterkeydom.cpp:120-126 | A list of events, one after the other, refines the model |
| FilterKeyHandlers.PopulateFiltered | rapidjson/tags/release_v1.0.2/rapidjson-master/include/rapidjson/document.h:2135-2142 | Populating a document through the filter leaves the filtered value as its root and an empty stack |
| FilterKeyHandlers.GenericDocument.EndObject | rapidjson/tags/release_v1.0.2/rapidjson-master/include/rapidjson/document.h:2361-2365 | Pops the members and stores them in the object below |
| FilterKeyHandlers.GenericDocument.EndArray | rapidjson/tags/release_v1.0.2/rapidjson-master/include/rapidjson/document.h:2369-2373 | Pops the elements and stores them in the array below |
| FilterKeyHandlers.DeepCopy | rapidjson/tags/release_v1.0.2/rapidjson-master/include/rapidjson/document.h:2408-2431 | Copying through the events of a document gives an equal value |
| JsonDom.AcceptPushesValue | rapidjson/tags/release_v1.0.2/rapidjson-master/include/rapidjson/document.h:1768-1805 | For every value built by the typed constructors, its events push exactly one equal value and leave the stack below alone |
| JsonDom.NumberEventRebuilds | rapidjson/tags/release_v1.0.2/rapidjson-master/include/rapidjson/document.h:1796-1803 | The number event `Accept` chooses rebuilds the same flags and bits |
| JsonDom.FromInt | rapidjson/tags/release_v1.0.2/rapidjson-master/include/rapidjson/document.h:634-638 | The flags mark exactly the integer types that can hold the number, and the bits are its two's complement |
| JsonDom.FromUint | rapidjson/tags/release_v1.0.2/rapidjson-master/include/rapidjson/document.h:640-644 | The same for `unsigned` |
| JsonDom.FromInt64 | rapidjson/tags/release_v1.0.2/rapidjson-master/include/rapidjson/document.h:646-659 | The same for `int64_t` |
| JsonDom.FromUint64 | rapidjson/tags/release_v1.0.2/rapidjson-master/include/rapidjson/document.h:661-671 | The same for `uint64_t` |
| JsonDom.DenotationIsUnique | rapidjson/tags/release_v1.0.2/rapidjson-master/include/rapidjson/document.h:634-671 | Values of the same integer are equal, whichever constructor made them |
| JsonDom.TypedIffConstructed | rapidjson/tags/release_v1.0.2/rapidjson-master/include/rapidjson/document.h:634-671 | The numbers the theorems are about are exactly those the constructors build, and the constructors agree on every integer that several of them take |
| JsonDom.IntegerIsAnnounced | rapidjson/tags/release_v1.0.2/rapidjson-master/include/rapidjson/document.h:1800-1803 | `Accept` announces an integer with the first of int, unsigned, int64_t and uint64_t that holds it, and with its value |
| JsonDom.MasksAreASet | rapidjson/tags/release_v1.0.2/rapidjson-master/include/rapidjson/document.h:634-671 | The bits of the flags behave as a set: a bitwise or adds a member and a mask test asks for one |
| JsonDom.ObjectIsPushed | rapidjson/tags/release_v1.0.2/rapidjson-master/include/rapidjson/document.h:1774-1783 | The events of an object push it, its members in order |
| JsonDom.PairsOfFlat | rapidjson/tags/release_v1.0.2/rapidjson-master/include/rapidjson/document.h:1947-1957 | Names and values lying on the stack pair up to the members they came from |
| UtfTheorems.Factoring | linenoise/src/ConvertUTF.cpp:337-406 | On every byte sequence, malformed ones included, UTF-8 to 16 gives the result and source position of UTF-8 to 32, and the output of that followed by UTF-32 to 16 |
| UtfTheorems.Resume | linenoise/src/ConvertUTF.cpp:111-521 | A call of a resumable converter that stops with a full target can be continued: the two outcomes together are those of one call with room enough |
| UtfTheorems.CallsMakeOneCall | linenoise/src/ConvertUTF.cpp:111-521 | Any number of calls with fresh targets yield the output, position and result of one call |
| UtfTheorems.WrittenIsConsumed | linenoise/src/ConvertUTF.cpp:111-164 | Whatever stops a call, the written units are the conversion of the consumed units alone, if and only if the consumed part does not end in a high surrogate |
| UtfTheorems.StrictIsOnBoundary | linenoise/src/ConvertUTF.cpp:126-130 | In strict mode no call stops behind a lone high surrogate |
| UtfTheorems.StrictCutsCleanly | linenoise/src/ConvertUTF.cpp:111-164 | So in strict mode, and from UTF-8 in any mode, what a call with a full target wrote is the conversion of what it consumed |
| UtfTheorems.LenientCutsCleanlyIff | linenoise/src/ConvertUTF.cpp:111-164 | In lenient mode, from UTF-16, that holds for every size of the target if and only if the source has no high surrogate followed by a unit that is neither a low surrogate nor a last high surrogate |
| UtfTheorems.LenientStopsInside | linenoise/src/ConvertUTF.cpp:111-131 | In lenient mode one does: D800 0041 with room for one unit |
| UtfTheorems.ScalarsReturn | linenoise/src/ConvertUTF.cpp:410-521 | UTF-32 to UTF-8 to UTF-32 is the identity on every sequence of scalar values |
| UtfTheorems.TextReturnsIffWellFormed | linenoise/src/ConvertUTF.cpp:410-521 | Both converters in turn: an accepted UTF-8 text comes back from UTF-32 whole and without error if and only if it is well-formed under section 4 of RFC 3629; every well-formed text is accepted |
| UtfReturns.Text16Returns | linenoise/src/ConvertUTF.cpp:66-164 | Both converters in turn: every well-formed UTF-16 sequence, of pairs and BMP characters, comes back from UTF-32 whole, in either mode, and strict mode accepts nothing else |
| UtfReturns.ReadsWhatIsAnnounced | linenoise/src/ConvertUTF.cpp:175-184 | Reading UTF-8 runs out exactly if fewer bytes are left than the first one has leading ones, legal or not; otherwise just as many are taken or refused |
| UtfReturns.ScalarsReturnBy16 | linenoise/src/ConvertUTF.cpp:66-164 | UTF-32 to UTF-16 and back is the identity on every sequence of scalar values |
| UtfReturns.OutOfRangeIsDropped | linenoise/src/ConvertUTF.cpp:87-92 | A value above 10FFFF (hexadecimal) in strict mode: nothing is written, one unit of room is asked for, the call goes on and remembers that it was illegal |
| UtfReturns.Factoring16 | linenoise/src/ConvertUTF.cpp:220-290 | UTF-16 to UTF-8 gives result, position and bytes of UTF-16 to UTF-32 followed by UTF-32 to UTF-8, for ill-formed input as well |
| UtfReturns.StrictAcceptsScalars | linenoise/src/ConvertUTF.cpp:66-108 | From UTF-32 strict mode accepts exactly the sequences of scalar values |
| UtfReturns.LenientReplaces16 | linenoise/src/ConvertUTF.cpp:82-95 | From UTF-32 to UTF-16 lenient mode writes FFFD for exactly what is no scalar value, and reports nothing |
| UtfReturns.LenientReplaces8 | linenoise/src/ConvertUTF.cpp:410-460 | From UTF-32 to UTF-8 lenient mode writes surrogates as they are and FFFD for what is above 10FFFF, which alone it reports |
| UtfReturns.FitsIff | linenoise/src/ConvertUTF.cpp:111-521 | A call does all that one with room enough does if and only if its target holds what that one writes; otherwise the target is what stops it |
| UtfReturns.StopsInFront | linenoise/src/ConvertUTF.cpp:111-521 | Whatever stops a call, it stands right in front of what stopped it |
| UtfReturns.UnitsSpell | linenoise/src/ConvertUTF.cpp:126-131 | The value of two surrogates, and what is written for it, in the terms of section 2.1 of RFC 2781 |
| UtfReturns.BytesSpell | linenoise/src/ConvertUTF.cpp:262-275 | The bits of a character in its bytes, in the terms of section 3 of RFC 3629 |
| UtfCodec.LegalIsAlmostWellFormed | linenoise/src/ConvertUTF.cpp:296-319 | A sequence is accepted if and only if it is well-formed or of ED or F4 with a second byte below 80 |
| UtfCodec.IllFormedIsAccepted | linenoise/src/ConvertUTF.cpp:302-309 | ED 20 80 is accepted and ill-formed |
| UtfCodec.AcceptedDecodesToScalar | linenoise/src/ConvertUTF.cpp:296-319 | No accepted sequence decodes to a surrogate or above 10FFFF |
| UtfCodec.EncodeThenDecode | linenoise/src/ConvertUTF.cpp:410-459 | The bytes of every scalar value are accepted and decode to it |
| UtfCodec.DecodeThenEncode | linenoise/src/ConvertUTF.cpp:463-521 | An accepted sequence is given back by decoding and encoding if and only if it is well-formed |
| UtfCodec.PairThenHalves | linenoise/src/ConvertUTF.cpp:48-51 | Splitting the character of a surrogate pair gives the pair back |
| UtfCodec.HalvesThenPair | linenoise/src/ConvertUTF.cpp:48-51 | Joining the halves of a supplementary character gives it back |
| UtfCodec.TailByteBits | linenoise/src/ConvertUTF.cpp:200-201 | The masks and marks of a trailing byte compute what the arithmetic of the model does |
| UtfCodec.ShiftBits | linenoise/src/ConvertUTF.cpp:48-51 | The shift and mask of the surrogate halves are division and remainder |
| UtfCodec.LeadByteBits2 | linenoise/src/ConvertUTF.cpp:274 | Marking the first byte of two by a bitwise or is adding the mark |
| UtfCodec.LeadByteBits3 | linenoise/src/ConvertUTF.cpp:274 | The same for three |
| UtfCodec.LeadByteBits4 | linenoise/src/ConvertUTF.cpp:274 | The same for four |
| UtfConvert.ConvertUTF32toUTF16 | linenoise/src/ConvertUTF.cpp:62-107 | The loop writes, consumes and returns what the specification function says, and touches nothing else of the target |
| UtfConvert.ConvertUTF16toUTF32 | linenoise/src/ConvertUTF.cpp:111-164 | The same |
| UtfConvert.ConvertUTF16toUTF8 | linenoise/src/ConvertUTF.cpp:215-281 | The same |
| UtfConvert.ConvertUTF8toUTF16 | linenoise/src/ConvertUTF.cpp:337-406 | The same |
| UtfConvert.ConvertUTF32toUTF8 | linenoise/src/ConvertUTF.cpp:410-459 | The same |
| UtfConvert.ConvertUTF8toUTF32 | linenoise/src/ConvertUTF.cpp:463-521 | The same |
| UtfConvert.Read8 | linenoise/src/ConvertUTF.cpp:344-368 | Reading a character by its length table and offsets, with the order of the checks |
| UtfConvert.Write8 | linenoise/src/ConvertUTF.cpp:252-271 | Writing a character of one to four bytes, or none if it does not fit |
| FramerModel.ChunkingDoesNotMatter | util_lib/generic_framer/src/generic_framer.cpp:45-98 | Frames, their order and the first error depend on the bytes alone, not on how they are cut into calls, for all three framers |
| FramerModel.StreamsAreIndependent | util_lib/generic_framer/src/generic_framer.cpp:51-53 | Whatever other streams receive in between, a stream delivers and returns what it would alone |
| FramerModel.TrafficDeliversTheBytes | util_lib/generic_framer/src/generic_framer.cpp:45-98 | Both together: in any traffic a stream without errors delivers the frames of its own bytes taken at once |
| FramerModel.FirstErrorOfTraffic | util_lib/generic_framer/src/generic_framer.cpp:45-98 | In any traffic, and with other streams failing as they may, the first error of a stream is the one its bytes raise when taken at once |
| FramerModel.DeliveredUpToFirstError | util_lib/generic_framer/src/generic_framer.cpp:45-98 | There is a moment in the traffic right after that error, and by then the stream has delivered exactly the frames its bytes deliver when taken at once |
| FramerModel.FrameIsDeliveredIffAccepted | util_lib/generic_framer/src/generic_framer1.cpp:61-93 | The encoding of a payload is delivered if and only if its length is in the accepted range of the framer; otherwise which of the two errors it raises |
| FramerModel.HandlerDecides | util_lib/generic_framer/src/generic_framer1.cpp:61-96 | A frame in front of an idle stream is handed to the handler whatever follows it; an error of the handler is the answer of the call and drops the rest, otherwise the call goes on behind the frame |
| FramerModel.DeliveredAreFrames | util_lib/generic_framer/src/generic_framer.cpp:55-98 | Nothing else is ever delivered: the bytes of a call are, in order and without gaps, the frames delivered and what the stream holds at the end; the handler let all of them pass but perhaps the last, whose error is the answer |
| FramerModel.LowHeaderOnlyFails | util_lib/generic_framer/src/generic_framer2.cpp:58-82 | Header values 0 to 3 wrap: nothing is ever delivered, and the body bound is reported if and only if more bytes follow than it leaves room for |
| FramerModel.FramesReturn | util_lib/generic_framer/src/generic_framer.cpp:54-98 | Encoding any list of accepted payloads and feeding it in any chunks calls back exactly those frames and ends idle |
| FramerModel.RunBody | util_lib/generic_framer/src/generic_framer1.cpp:74-92 | Taking the body in blocks is taking it byte by byte |
| FramerModel.RunKeepsPhaseValid | util_lib/generic_framer/src/generic_framer2.cpp:54-94 | Between rounds the body phase always lacks at least one byte, and every error leaves the stream idle |
| FramerModel.NumberOfDigits | util_lib/generic_framer/src/generic_framer2.cpp:67 | Header digits and length are inverse |
| Framers.SecondByteIsTaken | util_lib/generic_framer/src/generic_framer.cpp:64-92 | The fall through from the second header byte into the body, a frame without body included |
| Framers.StreamControl16.Round | util_lib/generic_framer/src/generic_framer.cpp:54-94 | One round of the loop consumes input and does what the byte by byte machine does |
| Framers.StreamControl16.Parse | util_lib/generic_framer/src/generic_framer.cpp:45-98 | The whole call does; generic_framer and generic_framer1 |
| Framers.StreamControl32.HeaderByte | util_lib/generic_framer/src/generic_framer2.cpp:58-71 | The four byte header, with the unsigned wrap of its length |
| Framers.StreamControl32.Parse | util_lib/generic_framer/src/generic_framer2.cpp:45-94 | The whole call of generic_framer2, on an idle stream of any length, and within a frame as long as the sums it tests stay below 2^32 |
| Framers.GenericFramer.constructor | util_lib/generic_framer/src/generic_framer.cpp:8-20 | Clamps streams and length, and starts every stream idle |
| Framers.GenericFramer.ParseRawRxData | util_lib/generic_framer/src/generic_framer.cpp:45-98 | Moves the named stream as the machine does and no other; a bad stream number is refused |
| Framers.GenericFramer2.ParseRawRxData | util_lib/generic_framer/src/generic_framer2.cpp:45-94 | The same for four byte headers |
| LoggerModel.StepKeepsInv | util_lib/logger/src/logger.cpp:657-765 | Every step of writer and disk thread keeps mutual exclusion, order of bytes, distinct buffers and the signalling discipline |
| LoggerModel.NothingIsLost | util_lib/logger/src/logger.cpp:657-765 | In every interleaving, file, taken buffers, dirty pool and current buffer concatenate to exactly the bytes logged, and every buffer is in one place |
| LoggerModel.NoLostWakeup | util_lib/logger/src/logger.cpp:664-667 | The disk thread never sleeps unsignalled on a dirty buffer or on the request to end |
| LoggerModel.JoinedMeansWritten | util_lib/logger/src/logger.cpp:146-155 | After the destructor has joined, the file holds everything if and only if the disk thread entered its loop or nothing was logged |
| LoggerModel.LateThreadLoses | util_lib/logger/src/logger.cpp:664 | A run in which the thread comes too late and all bytes are lost |
| LoggerModel.JoinReturns | util_lib/logger/src/logger.cpp:657-682 | Once the destructor waits, the disk thread ends after a bounded number of steps, whatever sizes the writes come in |
| LoggerModel.JoinGetsCloser | util_lib/logger/src/logger.cpp:657-682 | Each of these steps strictly lowers what is left to do |
| LoggerModel.DiskCatchesUp | util_lib/logger/src/logger.cpp:657-682 | While it runs: from every moment at which the writer does not hold the mutex, and as long as it does not take it, the disk thread writes all that was handed over and comes to rest in a bounded number of steps |
| LoggerModel.SleepsAndWakes | util_lib/logger/src/logger.cpp:664-667 | It sleeps, and gives up the mutex, only with nothing to write, and wakes only by a signal or spuriously |
| LoggerModel.WriteWrites | util_lib/logger/src/logger.cpp:620-648 | A `write` adds to the file as many of the remaining bytes of the buffer as it manages |
| LoggerModel.HandOverStarts | util_lib/logger/src/logger.cpp:726-733 | An empty buffer is not handed over |
| LoggerModel.DiskKeepsOrder | util_lib/logger/src/logger.cpp:620-648 | Partial and interrupted writes keep the order of the bytes |
| LoggerModel.WriterKeepsPlaces | util_lib/logger/src/logger.cpp:741-757 | Handing over and switching buffers never puts a buffer in two places |
| LogFormat.FormatIsLines | util_lib/logger/src/logger.cpp:401-428 | The byte loop writes one header per line, each line ended by a newline, and nothing else |
| LogFormat.LinesAreTheData | util_lib/logger/src/logger.cpp:424-431 | The lines are the data with carriage return and NUL turned into newline, a missing last newline supplied |
| LogFormat.LinesAreCut | util_lib/logger/src/logger.cpp:389-428 | The lines are what stands between the newlines, carriage returns and NULs of the data; with those put back they are the data |
| LogFormat.HeaderFields | util_lib/logger/src/logger.cpp:415-424 | Stamp, level, name and blanks stand in the header at fixed places |
| LogFormat.RanksCountUp | util_lib/logger/h/logger.hpp:33-50 | The levels compare in the order of the enumeration |
| LogFormat.ExtraIsEnoughIff | util_lib/logger/src/logger.cpp:415-430 | For all buffer positions and messages the write pointer stays within `sz_log_buf` + 200, if and only if the name has at most 165 bytes |
| LogFormat.HighWaterBounded | util_lib/logger/src/logger.cpp:427-428 | Flushing at `sz_log_buf` bounds the write pointer by one header beyond it |
| LogFormat.NothingWrittenIff | util_lib/logger/src/logger.cpp:401-443 | In a buffered logger, a message stays in the buffer whole, behind what was there, if and only if the two levels of the logger force nothing and its lines, headers included, leave the buffer short of full |
| LogFormat.UrgentIsWrittenOutIff | util_lib/logger/src/logger.cpp:440-441 | Whatever the buffer holds, every message of at least the forcing level is written out on return if and only if the logger is unbuffered or the forcing level is at most its logging level (names of at most 165 bytes, beyond which the buffer overruns) |
| Loggers.Logger.ProcessData | util_lib/logger/src/logger.cpp:401-443 | What is written out and what stays in the buffer grow by exactly the lines of the message, wherever flushes fall; exactly how much stays; how far the pointer goes |
| Loggers.FatalStaysInBuffer | util_lib/logger/src/logger.cpp:401-443 | With the default levels a fatal message is left in the buffer |
| Loggers.Logger.Copy | util_lib/logger/src/logger.cpp:415-431 | The loop and the newline after it |
| Loggers.Logger.PDoWork | util_lib/logger/src/logger.cpp:726-765 | A flush loses nothing |
| PoolModel.BlocksAreSafe | rapidjson/tags/release_v1.0.2/rapidjson-master/include/rapidjson/allocators.h:176-222 | After every sequence of calls every block, also a single one, lies inside one chunk and is aligned if and only if its chunk is, which only a user buffer can fail to be; and no two blocks overlap |
| PoolModel.UserBlockMisaligned | rapidjson/tags/release_v1.0.2/rapidjson-master/include/rapidjson/allocators.h:113-136 | A user buffer at address 4: the first block is at 28 |
| PoolModel.ReallocResizes | rapidjson/tags/release_v1.0.2/rapidjson-master/include/rapidjson/allocators.h:191-222 | `Realloc` keeps the first min(old, new) bytes, in place or moved, and disturbs no other block; null changes nothing |
| PoolModel.RunDisturbsNone | rapidjson/tags/release_v1.0.2/rapidjson-master/include/rapidjson/allocators.h:176-222 | A block keeps its place and its bytes through every sequence of calls and writes that concern other blocks |
| PoolModel.LastIsLast | rapidjson/tags/release_v1.0.2/rapidjson-master/include/rapidjson/allocators.h:207 | The test on addresses is true if and only if the block ends the used part of the head chunk with no room to spare; a block of an adjacent chunk never passes it |
| PoolModel.MallocKeepsInv | rapidjson/tags/release_v1.0.2/rapidjson-master/include/rapidjson/allocators.h:176-188 | `Malloc` gives a new block in the head chunk or in a new one and changes nothing else |
| PoolModel.MallocServes | rapidjson/tags/release_v1.0.2/rapidjson-master/include/rapidjson/allocators.h:176-188 | `Malloc` gives null if and only if the head chunk, if any, has too few bytes left and the base allocator has none; otherwise the address served, in the head chunk or in a new one of the usual capacity or more |
| PoolModel.ReallocServes | rapidjson/tags/release_v1.0.2/rapidjson-master/include/rapidjson/allocators.h:191-222 | `Realloc` leaves the block where it is if the rounded sizes allow it or if it ends the head chunk and there is room behind it; otherwise it gives what `Malloc` gives; when the answer is null |
| PoolModel.StepKeepsInv | rapidjson/tags/release_v1.0.2/rapidjson-master/include/rapidjson/allocators.h:145-249 | Every call keeps the pool invariant |
| PoolModel.SizeAtMostCapacity | rapidjson/tags/release_v1.0.2/rapidjson-master/include/rapidjson/allocators.h:155-173 | Size never exceeds Capacity |
| PoolModel.SumsCountEveryChunk | rapidjson/tags/release_v1.0.2/rapidjson-master/include/rapidjson/allocators.h:155-173 | The sums are additive over the chunks, and of one chunk what it says |
| PoolModel.ClearKeepsOnlyTheUsersChunk | rapidjson/tags/release_v1.0.2/rapidjson-master/include/rapidjson/allocators.h:145-153 | After any use, `Clear` leaves the user buffer as supplied and empty, and nothing else |
| MemoryPool.MemoryPoolAllocator.Malloc | rapidjson/tags/release_v1.0.2/rapidjson-master/include/rapidjson/allocators.h:176-188 | The body does what the model says |
| MemoryPool.MemoryPoolAllocator.Realloc | rapidjson/tags/release_v1.0.2/rapidjson-master/include/rapidjson/allocators.h:191-222 | The body, its copy included, does what the model says |
| MemoryPool.MemoryPoolAllocator.Clear | rapidjson/tags/release_v1.0.2/rapidjson-master/include/rapidjson/allocators.h:145-153 | The loop stops at the user buffer and resets it |
| MemoryPool.MemoryPoolAllocator.Capacity | rapidjson/tags/release_v1.0.2/rapidjson-master/include/rapidjson/allocators.h:158-163 | The sum over the chunks |
| MemoryPool.MemoryPoolAllocator.Size | rapidjson/tags/release_v1.0.2/rapidjson-master/include/rapidjson/allocators.h:168-173 | The sum over the chunks, at most the capacity |
| MemoryPool.MemoryPoolAllocator.AddChunk | rapidjson/tags/release_v1.0.2/rapidjson-master/include/rapidjson/allocators.h:237-249 | Puts an empty chunk at the head, or reports that there is no memory |
| KillRingModel.RingIsLatestGroups | linenoise/src/linenoise.cpp:799-834 | For every sequence of commands the ring is the at most ten latest groups of kills, newest first |
| KillRingModel.RingOfSession | linenoise/src/linenoise.cpp:2566-3096 | In every session of the line editor, whatever is typed in between, the ring is the at most ten latest groups of what the keys killed, newest first |
| KillRingModel.CommandsAreEvents | linenoise/src/linenoise.cpp:2566-3096 | A session does to the ring what its kills, yanks, yank-pops and other keys do, in order |
| KillRingModel.GroupIsWholeIff | linenoise/src/linenoise.cpp:803-820 | A kill that opens a group is kept whole; one that is added is kept whole if and only if neither text has a NUL |
| KillRingModel.YankAndPops | linenoise/src/linenoise.cpp:2936-3000 | After a yank and k yank-pops the line is the left part, the entry k places on cut to the free space, and the right part, the cursor between |
| KillRingModel.YankedNextIff | linenoise/src/linenoise.cpp:804-832 | For any text, NULs included: what was killed is in the first entry, whole if and only if it opened the entry or neither text has a NUL, and the next yank gives that entry if and only if the kill opened it or the index was 0 |
| KillRingModel.YankAfterKillCanMiss | linenoise/src/linenoise.cpp:800-832 | For any three characters, a sequence of commands after which the entry to be yanked is not the text killed last |
| KillRingModel.EditorYankCanMiss | linenoise/src/linenoise.cpp:2795-3000 | The same on a line: after yank, yank-pop and two kills a yank brings back 6 although 5 6 7 was killed last |
| KillRingModel.KillThenYank | linenoise/src/linenoise.cpp:2698-2802 | Any kill that opens a group and reaches from or to the cursor is undone by a yank, and the cursor ends behind the text |
| KillRingModel.WordKillThenYank | linenoise/src/linenoise.cpp:2698-2717 | That goes for the word commands, with the words as they find them |
| KillRingModel.WordRightMeans | linenoise/src/linenoise.cpp:2702-2709 | A word to the right: what is not of the word is passed over, then the word, both as far as they go |
| KillRingModel.WordLeftMeans | linenoise/src/linenoise.cpp:2767-2772 | The same to the left |
| KillRingModel.KillToSpaceMeans | linenoise/src/linenoise.cpp:2917-2934 | ctrl-W takes the spaces before the cursor and what is no space before them |
| KillRingModel.KillsAreRanges | linenoise/src/linenoise.cpp:2795-2802 | The two kills to the ends of the line are such kills |
| KillRingModel.KillToEndThenYank | linenoise/src/linenoise.cpp:2795-2802 | Killing to the end of the line and yanking is the identity |
| KillRingModel.KillToStartThenYank | linenoise/src/linenoise.cpp:2883-2896 | Killing to the start of the line and yanking is the identity on the line |
| KillRingModel.CommandsKeepValid | linenoise/src/linenoise.cpp:2936-3000 | After yanks, yank-pops and all kills: 0 <= pos <= len <= buflen, and the last yank still stands before the cursor |
| LineEditor.KillRing.Kill | linenoise/src/linenoise.cpp:799-834 | Slots and index array, kept a permutation, do what the ring of entries does |
| LineEditor.KillRing.Yank | linenoise/src/linenoise.cpp:836 | The entry at the index, if there is one |
| LineEditor.KillRing.YankPop | linenoise/src/linenoise.cpp:838-847 | Turns to the next entry, around the end |
| LineEditor.InputBuffer.Yank | linenoise/src/linenoise.cpp:2936-2963 | The moves in the buffer give the line of the model; it beeps exactly if there is no entry or the entry is cut |
| LineEditor.InputBuffer.YankPop | linenoise/src/linenoise.cpp:2965-3000 | The two moves, in either order, give the line of the model |
| LineEditor.InputBuffer.Replace | linenoise/src/linenoise.cpp:2978-2990 | Both orders of the moves put the new text in place and lose nothing |
| LineEditor.InputBuffer.KillToEnd | linenoise/src/linenoise.cpp:2795-2802 | Refines the model |
| LineEditor.InputBuffer.KillToStart | linenoise/src/linenoise.cpp:2883-2896 | Refines the model |
| LineEditor.InputBuffer.WordEnd | linenoise/src/linenoise.cpp:2700-2709 | The two loops stop behind the other characters and then those of the word, and at no other place |
| LineEditor.InputBuffer.BackUp | linenoise/src/linenoise.cpp:2765-2773 | The same to the left, moving the cursor |
| LineEditor.InputBuffer.KillWordRight | linenoise/src/linenoise.cpp:2698-2717 | Refines the model |
| LineEditor.InputBuffer.KillWordLeft | linenoise/src/linenoise.cpp:2764-2781 | Refines the model; with other classes of characters also ctrl-W |
| ScreenPosition.CalculateScreenPosition | linenoise/src/linenoise.cpp:569-587 | The row by row loop gives the position that many cells on, wrapped at the right edge, if and only if there is a cell to advance or the start is on the screen |
| ScreenPosition.PositionIsDivision | linenoise/src/linenoise.cpp:560-567 | That position is the quotient and remainder by the width, and the only one |
| Brackets.FindHighlight | linenoise/src/linenoise.cpp:1208-1271 | The scan highlights the nearest position in its direction where the nesting is back to zero, flags other kinds left open in between, and reports nothing exactly if there is none |
| Brackets.MatchingIsMutual | linenoise/src/linenoise.cpp:1208-1271 | From a real bracket, scanning back from what is highlighted highlights the bracket with the same error flag |
| Brackets.MutualIffBracket | linenoise/src/linenoise.cpp:1214-1238 | It does so if and only if the character is a real bracket, not one that only ends in the same byte |
| Brackets.LetterIsTakenForBracket | linenoise/src/linenoise.cpp:1214-1223 | The character 128 (hexadecimal) in front of a closing bracket is highlighted as its partner |
| Brackets.FoundIsPartner | linenoise/src/linenoise.cpp:1243-1268 | What is highlighted is the partner, of the same kind |
| Brackets.HighlightIsUnique | linenoise/src/linenoise.cpp:1243-1268 | There is at most one such position and flag |
| Brackets.HighlightMeans | linenoise/src/linenoise.cpp:1208-1271 | In terms of the characters: from a real bracket the nearest position in its direction is highlighted up to which its kind opens as often as it closes, and holds the partner; without look-alikes in the line an error is flagged if and only if up to there all kinds together open and close unequally often |

## Left out

- Callback list: moving and swapping lists, assignment, destructors, and reclaiming nodes.
- Callback list: handles of other lists, and anything that follows once a removed node was removed again between new neighbours or inserted before.
- CallbackLists.ForEachIf: the function leaves the list alone here; a list that changes during the loop is covered by the steps of CallbackListRuns.
- SnapshotIteration: says nothing of a traversal during which the counter wraps; head and counter are read in one step, so it is about reentrant use of one thread.
- Exceptions thrown by callbacks and listeners, and the policy, mixin and argument machinery of eventpp.
- Event queue: `wait`, `waitFor`, `DisableQueueNotify` and the condition variable; `peekEvent`; copying queues.
- EventQueues.EventQueue.Process: listeners do not use the queue here; what they may do to it meanwhile is covered by the steps of EventQueueModel.
- EventQueues.EventQueue.ProcessOne: the same.
- EventQueues.EventQueue.ProcessIf: the same, and the predicate is a function of the event.
- HandedOutInOrder: leaves out `processIf`, for which CallKeepsOrder says what happens instead, and `clearEvents`.
- JSON: the reader (the events of a tree are those `Accept` emits), stack capacities and allocation, strings with shared storage, comparison of values, arithmetic of doubles (a double is its 64 bits), the default number with all flags set.
- Converters: UTF-32 above 10FFFF is modelled in the loops but not in the theorems about resuming, which are for the four converters that do not go on after an error; round trips of lone surrogates in lenient mode; `isLegalUTF8Sequence`.
- Framers: destructors, and frames handed to a handler that calls back into the framer.
- Framers.StreamControl32.Parse: within a frame it requires that the bytes held and the chunk, or the length announced, stay below 2^32; beyond that the test of the source wraps.
- Framers.GenericFramer2.ParseRawRxData: the same.
- Logger: `open` and `write` errors other than an interruption, changing file or mode while running, the output stream, `timestamp` itself (a stamp is a given string of 25 characters), level names from strings.
- Loggers.Logger.PDoWork: appends to what was written out; the exchange of buffers in asynchronous mode is in LoggerModel.
- PoolModel: overflow of sizes, creating the base allocator, and the destructor; the base allocator returns null or memory no chunk uses.
- Line editor: history, completion, drawing and column widths; what keys that do not use the ring do to the line; history search, which leaves the last action of the ring alone; which characters are alphanumeric is a parameter.
- Sockets, consoles, clients, configuration files and the other utility classes: input and output, or simpler code.
