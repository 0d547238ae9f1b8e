# Verified model of the ATP platform's core

A Dafny model of six parts of the platform, with proofs of what they keep over whole runs:

1. **Port delivery.** `PortSpec` says what one input does to its state; `PortRuns` proves what holds over
   every run; `Ports` has the inputs and outputs as objects updated in place. `Delivery` is the concurrent
   protocol as a state machine - any number of writer threads, outputs, inputs and on-demand reader threads,
   with connections changing in between - `DeliveryInvariants` proves what every step keeps and
   `DeliveryTheorems` what follows for every interleaving; `DeliveryPorts` carries what holds of one port over to
   every input of the protocol, and `DeliveryWakes` shows how an unread value is got out.
2. **Config documents and their editor.** `ConfigNode` is the ordered tree, `ConfigShape` the declared
   config with reading and writing back, `ConfigRoundTrip` their agreement, `ConfigMisfits` the check of a
   document, `ConfigFill` and `ConfigFillTheorems` filling as it runs, entry by entry up to a refused value,
   `ConfigProblems` what it reports, `ConfigCarry` and `ConfigCarryTheorems` the merge of undeclared keys,
   `ConfigAddress` step lists and erasing, `ConfigRows` the rows and their way back, `ConfigEditor` the document
   that is saved, `ConfigErase` what erasing means for the values, `ConfigUnknown` undeclared keys by address,
   `ConfigSlots` writes at the place a row resolves to, `ConfigTree` the editor object.
3. **Script module descriptors** (`Descriptors`): nested tables flattened into vectors that point at one
   another.
4. **The canvas** (`CanvasWalk`, `CanvasStack`): the outward walk over exported ports, and which node lies
   over which.
5. **Versions and the registry** (`Decimal`, `Version`, `Registry`).
6. **Option-guarded values** (`Options`): a module's property and a field of its config.

`Common` holds a few facts about sequences. `dafny verify dfyconfig.toml` checks everything.

Code that works step by step is a class or a method with loops here, proved against a function of its old
state; the theorems are lemmas about those functions. The C++ counters are 64-bit words and wrap
(`PortSpec.Wrap`); the histories beside them never do.

## Where the code and its documentation part

- **load_fields.** It is documented never to throw for bad data
  (src/runtime/include/atp/runtime/config_binding.hpp:401). It throws exactly on documents that give a field
  other than a text a value of its form outside its declared set: `ConfigFillTheorems.LoadThrowsIff`. The
  editor's own check lets such a document through (`ConfigFillTheorems.AdmittedYetThrows`), the config is left
  filled up to the refused value (`ConfigFillTheorems.FillStops`), and saving it then loses the fields after
  that (`ConfigEditor.SavingAfterThrowLoses`).
- **disconnect.** An input is to be disconnected before it is destroyed
  (include/atp/io/output.hpp:34-35). That alone does not end deliveries: a write that took its snapshot
  earlier still delivers afterwards (`DeliveryTheorems.DeliveredAfterDisconnect`, and from every state with an
  idle writer `DeliveryTheorems.LateDelivery`). It is over exactly when no write in flight still has the
  input ahead of it: `DeliveryTheorems.DisconnectSilences`.
- **The editor and its own documents.** An element added to an array of an enumeration starts at a value
  its table may not list, which prints as the empty text, and then the editor declines the very document it
  wrote: one such array and one click in `ConfigSlots.GrownDeclined`. It can be told before the click: the rows
  survive exactly when the array is not one of texts or lists what a fresh element prints as - the empty text, or
  the name its table gives the zero (`ConfigSlots.GrownAdmitted`); in general the editor accepts its document
  exactly when every text element is listed (`ConfigEditor.OwnDocumentAdmitted`). No other edit takes the rows
  down: `ConfigTree.Editor.Write`, `ConfigTree.Editor.CommitErased`.
- **erase_at.** An address ending in an index removes the i-th entry where it stands on an object, although
  no such address can be looked up there: `ConfigAddress.EraseAnswers`.
- **Text doors.** A config field checks the text it is given, a property the text its value prints, so another
  spelling of an allowed value is taken by the second only: "01" where 1 is allowed, in `Options.OtherSpelling`.
  With options spelled as their values print, the two agree exactly on texts that parse to no allowed value or are
  the print of their value (`Options.TextDoorsPart`).
- **Printing a parsed version** gives the text back exactly when no part has a leading zero:
  `Version.ParseThenPrint`; "01" comes back as "1": `Version.LeadingZeroLost`.

## Model

| member | source | states |
|---|---|---|
| PortSpec.AcceptPending | include/atp/io/queued_input.hpp:148-183 | an arrival at a port with room is appended; at a full one the incoming value is lost under drop_incoming and the oldest otherwise; received always goes up, discarded exactly when the port was full, the peak to the new pending count if larger |
| PortRuns.Conservation | include/atp/io/input.hpp:160-192 | over all runs since the last reset: accepted = handed out + lost + pending, both counters are those lengths in 64 bits, pending never exceeds the capacity, and peak_pending is exactly the largest pending count ever seen |
| PortRuns.ReadsHandOver | include/atp/io/queued_input.hpp:97-132 | after any run a drain hands over everything pending, in order, and leaves nothing; a take hands over the first of it and leaves the rest; neither touches a counter |
| PortRuns.StatsTell | include/atp/io/input.hpp:74-80 | after any run the stats are the numbers of values accepted and lost since the reset in 64 bits, the number still pending, the largest pending count, and the capacity |
| PortRuns.OldestDroppedKeepsTail | include/atp/io/queued_input.hpp:148-183 | under drop_oldest, and for the last-value input, what is pending is always a suffix of everything accepted; hand-outs and drops together are the prefix before it, each in arrival order |
| PortRuns.IncomingDroppedKeepsRun | include/atp/io/queued_input.hpp:148-183 | under drop_incoming hand-outs followed by pending are exactly the arrivals that did not find the queue full, in order, and the discarded ones exactly those that did |
| PortRuns.LastValueIsQueueOfOne | include/atp/io/input.hpp:131-154 | no run of writes, takes, empty, stats and reset tells input<T> from a queued_input<T> of drop_oldest(1), and both hand out the same values |
| PortRuns.PoliciesCountAlike | include/atp/io/queued_input.hpp:173-183 | on the same operations the two policies agree at every step on size, received, discarded, peak and the number of values handed out |
| Ports.InputPort.Build | include/atp/io/queued_input.hpp:64-69 | a queue is built exactly when its capacity is not zero, and starts empty with counters at zero |
| Ports.InputPort.MakeRoomFor | include/atp/io/queued_input.hpp:173-183 | the in-place overflow policy is the one of the specification |
| Ports.InputPort.StoreValue | include/atp/io/input.hpp:131-142 | the storage half of both kinds of input, in place, is the specified one |
| Ports.InputPort.Put | include/atp/io/input.hpp:182-186 | a direct write counts and stores, and fires no notifier |
| Ports.InputPort.Deliver | include/atp/io/input_base.hpp:81-86 | a delivery accepts the value first and fires the notifier second: the signal goes up with the input already showing the delivered state; the writer's object must be intact to be read |
| Ports.InputPort.DeliverMove | include/atp/io/input_base.hpp:93-98 | the same order, and the writer's object is moved from |
| Ports.InputPort.ReadStats | include/atp/io/input.hpp:74-80 | the stats are the five counts of the state for either kind |
| Ports.InputPort.Empty | include/atp/io/queued_input.hpp:84-87 | empty exactly when nothing is pending |
| Ports.InputPort.TakeValue | include/atp/io/input.hpp:103-108 | takes the readable value or the queue head and leaves the rest, touching no counter |
| Ports.InputPort.Pop | include/atp/io/queued_input.hpp:97-105 | the head, or an error exactly on an empty queue |
| Ports.InputPort.DrainAll | include/atp/io/queued_input.hpp:125-132 | everything pending, in order, leaving nothing and touching no counter |
| Ports.InputPort.ResetPort | include/atp/io/queued_input.hpp:134-138 | back to the fresh state, counters included |
| Ports.OutputPort.Connect | include/atp/io/output.hpp:145-153 | refuses a connected input, else appends it; the list stays duplicate-free |
| Common.WithoutOne | include/atp/io/output.hpp:90-93 | taking one subscriber out leaves the others in their order |
| Ports.OutputPort.Disconnect | include/atp/io/output.hpp:85-95 | answers whether the input was connected; without it nothing changes, else the list loses that one place and the others keep their order |
| Ports.OutputPort.Dispatch | include/atp/io/output.hpp:129-143 | every subscriber accepts the value written and is notified; no read meets a moved-from value, and the value ends moved exactly when the writer owned it and somebody was connected |
| Ports.OutputPort.Write | include/atp/io/output.hpp:51-67 | a write counts itself and delivers to exactly the subscribers of its snapshot |
| DeliveryInvariants.StepInvariant | include/atp/io/output.hpp:51-67 | every atomic step of the protocol keeps its invariant: duplicate-free lists and snapshots, intact values, exact logs and counters, order, and wake-ups owed |
| DeliveryInvariants.RunInvariant | include/atp/io/output.hpp:51-153 | so does every interleaving, and logs and program histories only grow |
| DeliveryInvariants.DeliverOrdered | include/atp/io/output.hpp:129-143 | a new arrival is later in its writer's program order than all that writer sent there before, because a snapshot holds no input twice |
| DeliveryInvariants.ReceiveSeen | include/atp/io/queued_input.hpp:148-183 | whatever the overflow policy drops, hand-outs followed by pending stay a subsequence of the arrivals |
| DeliveryInvariants.AwakeStep | src/runtime/include/atp/runtime/pipeline_runner.hpp:455-475 | every step keeps a delivered unread value watched for |
| DeliveryTheorems.ExactlyOnce | include/atp/io/output.hpp:129-143 | in every reachable state an input's log holds a write exactly once if that write has served it and else not at all; once the write has returned, serving is being in its snapshot, and with no write in flight all have returned |
| DeliveryTheorems.WriteReachesItsSubscribers | include/atp/io/output.hpp:51-67 | by the time it returns, a write has reached exactly the inputs connected when it began, once each, whatever is connected, disconnected, read or reset meanwhile and whatever other writes are still in flight |
| DeliveryTheorems.ReceivedIsReached | include/atp/io/input.hpp:182-186 | every arrival is the value of a write that served the input, and the received count is the number of those since the reset, in 64 bits |
| DeliveryTheorems.WritesAreBegun | include/atp/io/output.hpp:51-57 | in every reachable state an output's write counter is the number of writes begun on it, less those begun before its last reset, in 64 bits |
| DeliveryTheorems.WritesSinceReset | include/atp/io/output.hpp:107-119 | reset an output and let anything else happen: the counter is the number of writes begun on that output since, by all threads together |
| DeliveryTheorems.ListChanges | include/atp/io/output.hpp:85-153 | a subscriber list changes only by a new input going last, one going out with the others in their order, or all going |
| DeliveryTheorems.ConnectedAsAsked | include/atp/io/output.hpp:85-100 | in every interleaving an output is connected to exactly the inputs it was connected to and not disconnected from since |
| DeliveryTheorems.MovedValueNeverRead | include/atp/io/output.hpp:122-143 | in every interleaving each delivery reads an intact value, the one written |
| DeliveryTheorems.WriterOrderKept | include/atp/io/watcher.hpp:50-96 | what an input received from one thread is in its program order across all outputs, and what its reader is handed, with what is pending, keeps that order |
| DeliveryTheorems.NoLostWakeUp | src/runtime/include/atp/runtime/pipeline_runner.hpp:321-333 | in every reachable state an unread value's reader is going to look, or is signaled, or a writer stands between its store and its notify; so a sleeping unsignaled reader misses nothing |
| DeliveryWakes.WaitEnds | src/runtime/include/atp/runtime/pipeline_runner.hpp:467-472 | a raised signal ends the wait: the reader takes it down and starts a pass over every input it is notified by; without a signal only the time-out does |
| DeliveryWakes.PassEnds | src/runtime/include/atp/runtime/pipeline_runner.hpp:439-475 | a pass, in whatever order it visits its inputs, reads each as it was found; the reader sleeps after it exactly if none had anything to read, and else starts another over everything it watches |
| DeliveryWakes.UnreadIsGotOut | src/runtime/include/atp/runtime/pipeline_runner.hpp:455-475 | from every reachable state with an unread value in a notified input, its reader alone, after at most one notification a writer owes, sleeping whenever it may and without any time-out, gets it out |
| DeliveryTheorems.DisconnectSilences | include/atp/io/output.hpp:85-95 | an input off the list hears from the output never again, in any interleaving not reconnecting it, if and only if no write in flight has it ahead |
| DeliveryTheorems.LateDelivery | include/atp/io/output.hpp:51-67 | a write begun before the disconnect can deliver after it, from every state with the input connected and a writer idle |
| DeliveryTheorems.DeliveredAfterDisconnect | include/atp/io/output.hpp:85-95 | one such run from the initial state |
| DeliveryTheorems.CutStaysCut | include/atp/io/output.hpp:85-100 | with the input off the list and no write ahead of it, no run without a reconnection delivers to it |
| DeliveryPorts.InputsFollowRuns | include/atp/io/input.hpp:182-186 | in every reachable state an input's port is the result of a run of one lone port that accepted exactly its arrivals since the reset and handed out exactly what was handed out since |
| DeliveryPorts.InputsConserve | include/atp/io/queued_input.hpp:97-183 | so in every interleaving, for either kind of input: arrivals since the reset are what was handed out since, lost and is pending, the counters are those numbers in 64 bits, the peak is the largest pending count, and each overflow policy keeps of them what it keeps of a single writer's |
| Decimal.ValueOfDigits | include/atp/support/version.hpp:53-56 | decimal text reads back as its number and has no leading zero |
| Decimal.DigitsOfValue | include/atp/support/version.hpp:72-78 | text without leading zeros is the text of its number |
| ConfigNode.LookupPut | include/atp/config/node.hpp:228-243 | assigning under a key changes what is found there and nowhere else |
| ConfigNode.PutKeys | include/atp/config/node.hpp:228-243 | keys stay unique and in place, a new one goes last |
| ConfigRoundTrip.LoadSave | src/runtime/include/atp/runtime/config_binding.hpp:329-362 | reading what was saved into a fresh config gives every value back, at every depth, and meets no value outside its set |
| ConfigRoundTrip.SaveFind | src/runtime/include/atp/runtime/config_binding.hpp:329-362 | a saved document holds under each declared name what the field had to say, and nothing else |
| ConfigRoundTrip.SaveSays | src/runtime/include/atp/runtime/config_binding.hpp:329-362 | what is written down, said without the writer: a scalar that was written and is required or off its default, a group one of whose fields speaks, an array that was sized, with every element; each value in its own form, and no other key |
| ConfigShape.ReadSpells | src/runtime/include/atp/runtime/config_binding.hpp:66-84 | a field reads a node exactly when the node says a value of its form, and then that value: a real field the number equal to a whole one, and never the other way round |
| ConfigShape.FreshHolds | include/atp/module/module_config.hpp:868-896 | a fresh config holds the defaults, required fields the zero of their form, empty arrays, and nothing written |
| ConfigFill.LoadFieldsInto | src/runtime/include/atp/runtime/config_binding.hpp:242-275 | the loops over the entries and over the document's own keys fill and report as specified, and an exception leaves them at once, with the values filled by then |
| ConfigFillTheorems.LoadThrowsIff | src/runtime/include/atp/runtime/config_binding.hpp:89-105 | filling throws if and only if some field other than a text is given a value of its form outside its set; otherwise the values are those of the plain reading |
| ConfigFillTheorems.FillsFrom | src/runtime/include/atp/runtime/config_binding.hpp:72-233 | whatever the document and the config before: without an exception each field given nothing, null or what it does not take is as it was, each other one holds what the document says and is marked as written, at every depth and in every element |
| ConfigFillTheorems.FillStops | include/atp/module/module_config.hpp:168-175 | an exception leaves every field and element before the refused value filled, and the refused one and all after it as they were |
| ConfigFillTheorems.FilledTidy | src/runtime/include/atp/runtime/config_binding.hpp:401-425 | however filling ends, the values are of their forms and inside their sets |
| ConfigFillTheorems.AdmittedYetThrows | src/runtime/include/atp/runtime/config_binding.hpp:401-425 | a document the editor's check admits and filling throws on |
| ConfigFillTheorems.MisfitsAreReported | src/studio/ui/kit/config_tree.hpp:50-65 | the check answers the very lines load_fields would report, in order, short of required fields nobody filled and keys no field declares |
| ConfigProblems.ProblemsOf | src/runtime/include/atp/runtime/config_binding.hpp:242-275 | beside misfits load_fields reports exactly the required fields the document leaves out and exactly the keys no field declares, at every depth the objects of the document reach |
| ConfigMisfits.CollectMisfits | src/studio/ui/kit/config_tree.cpp:177-218 | the loops of the check add exactly the specified lines, in order |
| ConfigMisfits.NoMisfitsIffConforms | src/studio/ui/kit/config_tree.cpp:240-248 | no misfits exactly when the document is an object or null whose declared fields conform at every depth |
| ConfigMisfits.OneLinePerOffender | src/studio/ui/kit/config_tree.cpp:177-218 | with sibling names unique the lines stand at exactly the offending positions, one each |
| ConfigMisfits.LinesTell | src/studio/ui/kit/config_tree.cpp:177-218 | each line names the value at its address: an unlisted text where a text belongs, and anything else as of the wrong form |
| ConfigCarry.CarryUnknown | src/studio/ui/kit/config_tree.cpp:117-149 | the in-place merge is the specified one |
| ConfigCarry.CarryFind | src/studio/ui/kit/config_tree.cpp:121-148 | the merge key by key: each key of the loaded document is settled once against what was there, all others are untouched |
| ConfigCarryTheorems.CarryIdempotent | src/studio/ui/kit/config_tree.cpp:117-149 | merging twice is merging once, entry order included |
| ConfigCarryTheorems.LoadIgnoresCarry | src/studio/ui/kit/config_tree.cpp:117-149 | the merge changes no declared value at any depth: filling gives the same values and throws alike |
| ConfigCarryTheorems.CarryRebuilds | src/studio/ui/kit/config_tree.cpp:117-149 | a document's declared part, free of undeclared keys, with those of the document carried back is the document, up to entry order |
| ConfigCarryTheorems.CarryKeepsUnknown | src/studio/ui/kit/config_tree.cpp:122-148 | every undeclared key survives with its value, in every nested object and every element both documents have |
| ConfigCarryTheorems.CarryAddsOnly | src/studio/ui/kit/config_tree.cpp:117-149 | a key the saved document did not have is added exactly when the loaded one has it and no field declares it, or when a group declares it and an undeclared key stands below |
| ConfigAddress.TokensRoundTrip | src/studio/ui/kit/config_tree.cpp:36-46 | a step list travels as tokens and comes back, whatever characters its keys hold |
| ConfigAddress.TokenReads | src/studio/ui/kit/config_tree.cpp:56-93 | what any token reads as: after "i:" a position, 0 where no number that fits stands there, and otherwise the key behind the two-character mark |
| ConfigAddress.ParentAt | src/studio/ui/kit/config_tree.cpp:56-78 | the loop finds what all steps but the last name, or nothing |
| ConfigAddress.EraseAnswers | src/studio/ui/kit/config_tree.cpp:80-93 | true exactly when there was something to remove; on false the tree is unchanged |
| ConfigAddress.EraseRemovesOnly | src/studio/ui/kit/config_tree.cpp:80-93 | every other address still names the same value, later siblings in an array one position earlier |
| ConfigAddress.EraseKeyGone | include/atp/config/node.hpp:248-260 | what was erased by key is gone |
| ConfigAddress.EraseElement | include/atp/config/node.hpp:204-220 | erasing an element leaves the others, in order |
| ConfigRows.Resolve | src/studio/ui/kit/config_tree.cpp:462-506 | the loop over a row's tokens ends at the place the specified walk leads to, or nowhere |
| ConfigRows.RowsResolve | src/studio/ui/kit/config_tree.cpp:374-506 | every editable row's tokens resolve to exactly the place it was drawn from, and no two rows share their tokens |
| ConfigRows.RowsComplete | src/studio/ui/kit/config_tree.cpp:374-460 | whatever editable place steps lead to has its row, under those very steps |
| ConfigEditor.DocumentRoundTrip | src/studio/ui/kit/config_tree.cpp:508-512 | load_fields takes the document to be saved without throwing and gives the values on screen back, and it keeps every undeclared key of the stored one |
| ConfigEditor.OpenAndSave | src/studio/ui/kit/config_tree.cpp:327-358 | opening a document and saving it untouched keeps what was read of it, and its undeclared keys |
| ConfigEditor.ConformingIsTaken | src/studio/ui/kit/config_tree.hpp:50-65 | a document without misfits and without a value outside its set is taken whole: every field it fills holds the value it says, a whole number in a real field the number equal to it |
| ConfigEditor.FilledListed | src/studio/ui/kit/config_tree.cpp:345-358 | a document without misfits leaves no unlisted text element, whether it was filled to the end or an exception cut it short |
| ConfigEditor.SavingAfterThrowLoses | src/studio/ui/kit/config_tree.cpp:508-512 | a field declared after the one that threw is not in the document the half-filled config would be saved as |
| ConfigEditor.OwnDocumentAdmitted | src/studio/ui/kit/config_tree.cpp:508-532 | the editor accepts the document it writes if and only if every text element is a listed one |
| ConfigEditor.SameShapeIff | src/studio/ui/kit/config_tree.cpp:95-115 | two declarations agree if and only if each place of the one has the name and the sort of that place in the other; requiredness, defaults and sets make no difference |
| ConfigEditor.SameShapeCarriesAlike | src/studio/ui/kit/config_tree.cpp:95-115 | two declarations same_shape calls alike merge every document alike |
| ConfigErase.LoadErased | src/studio/ui/kit/config_tree.cpp:80-93 | erasing a field or an element in the document and loading is loading and erasing it in the values; all other values are as before |
| ConfigErase.EraseKeepsClean | src/studio/ui/kit/config_tree.cpp:80-93 | no erasure, at any address, makes an acceptable document unacceptable |
| ConfigErase.RowAddresses | src/studio/ui/kit/config_tree.cpp:462-506 | a row of a scalar field or of an element addresses that field or element |
| ConfigUnknown.UnknownStays | src/studio/ui/kit/config_tree.cpp:117-149 | the document to be saved holds every undeclared key of the stored one, with all below it, at the very address it had, through groups and through elements the values have |
| ConfigUnknown.RemovedElementOnly | src/studio/ui/kit/config_tree.cpp:626-637 | removing any array element, at whatever depth: every undeclared key that is not its own keeps its value under the address it had, counted without the element |
| ConfigUnknown.ClearedFieldOnly | src/studio/ui/kit/config_tree.cpp:596-602 | emptying a field moves and changes no undeclared key |
| ConfigSlots.SlotNames | src/studio/ui/kit/config_tree.cpp:462-506 | the slot a row's steps resolve to names a field the config has, and an element it has |
| ConfigSlots.WriteChangesOnly | src/studio/ui/kit/config_tree.cpp:560-613 | a write through a row changes the field or the one element its steps resolve to, to the value written, and no other field anywhere; forms and sets are kept |
| ConfigSlots.WriteTaken | include/atp/module/module_config.hpp:205-214 | a row takes exactly the values of its form that its declared set allows |
| ConfigSlots.GrowTaken | src/studio/ui/kit/config_tree.cpp:615-624 | the add button works on the rows of arrays and on no others |
| ConfigSlots.GrowChangesOnly | src/studio/ui/kit/config_tree.cpp:615-624 | the add button puts a fresh element behind the ones of its own array, which stay in their places, and changes no other field |
| ConfigSlots.GrownAdmitted | src/studio/ui/kit/config_tree.cpp:615-624 | whether the rows survive the add button, told before the click: exactly if the array is not one of texts or its set lists the text a fresh element prints as |
| ConfigSlots.GrownDeclined | src/studio/ui/kit/config_tree.cpp:615-624 | one array of an enumeration whose zero is unlisted, one click, and a document the editor declines |
| ConfigTree.EraseUnique | src/studio/ui/kit/config_tree.cpp:80-93 | erasing keeps keys unique |
| ConfigTree.DocumentUnique | src/studio/ui/kit/config_tree.cpp:508-512 | the document to be saved has unique keys at every depth |
| ConfigTree.ErasedDocument | src/studio/ui/kit/config_tree.cpp:596-602 | what is left of the editor's document after an erasure is acceptable and loads as what was shown without what was erased |
| ConfigTree.ModuleEntry.SetConfig | src/studio/include/atp/studio/project.hpp:549-557 | the project takes an object or a text for a module it has, and refuses all else unchanged |
| ConfigTree.ModuleEntry.ClearConfig | src/studio/include/atp/studio/project.hpp:562-569 | a module that is there is left with no config |
| ConfigTree.Editor.Adopt | src/studio/ui/kit/config_tree.cpp:327-358 | declined exactly on a disagreeing declaration or a misfit; when drawn, the rows show the whole document; an exception escapes exactly on a value outside its set and leaves the config filled up to there |
| ConfigTree.Editor.Commit | src/studio/ui/kit/config_tree.cpp:514-532 | the same document changes nothing; another is written into the project, an empty one as none, and taken over; where the project refuses, the stored one is taken over again |
| ConfigTree.Editor.CommitValues | src/studio/ui/kit/config_tree.cpp:508-532 | after an edit the document loads as edited, every undeclared key keeps its address and value, and the rows stay up exactly when every text element is listed |
| ConfigTree.Editor.Write | src/studio/ui/kit/config_tree.cpp:560-613 | an edited row writes its field or element and nothing else, refuses what its set does not allow, and never takes the rows down |
| ConfigTree.Editor.AddElement | src/studio/ui/kit/config_tree.cpp:615-624 | the array is one longer, and the rows stay up exactly when the fresh element is a listed one |
| ConfigTree.Editor.CommitErased | src/studio/ui/kit/config_tree.cpp:514-532 | a document with something erased is always one the rows can carry, and they show what is left |
| ConfigTree.Editor.RemoveElement | src/studio/ui/kit/config_tree.cpp:626-637 | the element leaves document and values alike, every undeclared key not its own stays at its address counted without it, the rows stay up, and steps that lead nowhere change nothing |
| ConfigTree.RequiredRows | src/studio/ui/kit/config_tree.cpp:582-602 | emptying a row removes the field exactly when it is the row of a required field |
| ConfigTree.Editor.ClearRequired | src/studio/ui/kit/config_tree.cpp:582-602 | emptying a required field's row removes that field and leaves it as never filled; everything else, undeclared keys included, is as it was |
| Version.ParseVersion | include/atp/support/version.hpp:67-101 | accepts exactly one to four dot-separated non-empty decimal parts each at most the unsigned maximum, with those values zero-padded; the overflow guard is exact |
| Version.ToString | include/atp/support/version.hpp:49-59 | the printed text is the given components joined by dots, "0" for none |
| Version.PrintThenParse | include/atp/support/version.hpp:49-101 | every version prints to a text that parses back to it, with its count when it has one |
| Version.ParseThenPrint | include/atp/support/version.hpp:49-101 | printing a parsed text gives it back if and only if no component has a leading zero |
| Version.LeadingZeroLost | include/atp/support/version.hpp:49-101 | an accepted text that does not come back: "01" prints as "1" |
| Version.LargestPart | include/atp/support/version.hpp:76-80 | a part is accepted up to 4294967295 and no further |
| Version.HopelessStays | include/atp/support/version.hpp:71-92 | a prefix the parser gives up on has no acceptable continuation |
| Version.VersionOrder | include/atp/support/version.hpp:40-42 | of two versions the smaller is the one with the smaller component at the first place they differ in |
| Version.LessTotal | include/atp/support/version.hpp:40-45 | the order of the components is total, and equality is equality of the padded components |
| Version.LessTransitive | include/atp/support/version.hpp:40-42 | and transitive |
| Registry.AddGet | include/atp/hosting/module_registry.hpp:45-57 | an addition changes the answer for its own name and version only, and only if there was none; no name is left without versions |
| Registry.RemoveGet | include/atp/hosting/module_registry.hpp:159-171 | a removal takes its own name and version only, and a name left without versions goes too |
| Registry.StoreIsItsAnswers | include/atp/hosting/module_registry.hpp:156-157 | with no empty version map, two registries that answer alike are the same |
| Registry.RollbackRestores | include/atp/hosting/module_registrar.hpp:72-84 | removing every registered pair restores the registry, even if some additions were refused |
| Registry.NameOrder | include/atp/hosting/module_registry.hpp:193-196 | of two names the one comes first that ends, or has the smaller character, where they first differ |
| Registry.BeforeTotal | include/atp/hosting/module_registry.hpp:193-198 | the order by name and version is total on distinct keys |
| Registry.ModuleRegistry.Add | include/atp/hosting/module_registry.hpp:45-57 | refuses null and duplicates and then changes nothing; else adds |
| Registry.ModuleRegistry.Find | include/atp/hosting/module_registry.hpp:117-123 | answers for exactly the known names, with the version above all others of the name by the first component they differ in |
| Registry.ModuleRegistry.Remove | include/atp/hosting/module_registry.hpp:159-171 | removes one version as specified and answers whether there was one |
| Registry.ModuleRegistry.List | include/atp/hosting/module_registry.hpp:186-200 | complete, and strictly ascending: by the first character two names differ in, then by the first component two versions do |
| Registry.ModuleRegistrar.Add | include/atp/hosting/module_registrar.hpp:72-79 | remembers exactly the pairs that went in, in order |
| Registry.LoadAndUnload | src/runtime/include/atp/runtime/module_loader.hpp:300-309 | loading a plugin's factories and unloading them leaves the registry as it was |
| CanvasWalk.OuterConnections | src/studio/ui/canvas/canvas_scene.cpp:248-277 | the last-in first-out loop ends, by a weight that goes down by one each turn, with what the specified walk finds, in its order |
| CanvasWalk.WalkFindsCarriers | src/studio/ui/canvas/canvas_scene.cpp:248-277 | a connection is found if and only if a chain of exports, read off the document, leads from the port to one it ends at: an output by the listed outputs to a connection from it, an input by the listed inputs to a connection to it |
| CanvasWalk.WalkDistinct | src/studio/ui/canvas/canvas_scene.cpp:265-274 | with aliases unique in each group no connection is found twice |
| CanvasWalk.WalksApart | src/studio/ui/canvas/canvas_scene.cpp:258-274 | two ports of one group never lead to the same connection |
| CanvasStack.RaisingIsStable | src/studio/ui/canvas/canvas_scene.hpp:190-195 | raising is a stable partition: the grabbed nodes in front as they lay, the others behind as they lay |
| CanvasStack.StackedAgain | src/studio/ui/canvas/canvas_scene.cpp:512-539 | stacking what is already stacked changes nothing |
| CanvasStack.NewcomersInFront | src/studio/ui/canvas/canvas_scene.cpp:471-490 | newcomers come over everything else, the last of them foremost, the remembered order behind them |
| CanvasStack.RenewedDistinct | src/studio/ui/canvas/canvas_scene.cpp:481-488 | the remembered order gains exactly the newcomers and holds no name twice |
| CanvasStack.RaisedDistinct | src/studio/ui/canvas/canvas_scene.cpp:506-508 | so does raising, for the grabbed nodes |
| CanvasStack.Scene.ForgetStacking | src/studio/ui/canvas/canvas_scene.cpp:466-469 | forgets every order and every build; the nodes stay as they lie |
| CanvasStack.Scene.ApplyStacking | src/studio/ui/canvas/canvas_scene.cpp:512-539 | the nodes lie as remembered, the rest behind as they stood, and the z values are exactly -1 to -n |
| CanvasStack.Scene.RaiseNewNodes | src/studio/ui/canvas/canvas_scene.cpp:471-490 | the first build of a group only takes note; later ones raise what was not there |
| CanvasStack.Scene.RaiseMoving | src/studio/ui/canvas/canvas_scene.cpp:492-510 | the pile is partitioned stably, the orders of other groups are untouched, z is -1 to -n again |
| CanvasStack.Scene.Rebuild | src/studio/ui/canvas/canvas_scene.cpp:156-186 | after a rebuild of any group the nodes are its children, stacked by its order over the document's |
| Descriptors.ModuleSlot.KeepOptions | src/bridges/lua/descriptors.cpp:208-218 | a row's options are kept as pointers to its texts, a null pointer for none |
| Descriptors.ModuleSlot.ReadConfigFields | src/bridges/lua/descriptors.cpp:187-236 | the arrays left encode exactly the table, nested pointers name later vectors, and nothing finished before the call changes |
| Descriptors.EncodesDecodes | src/bridges/lua/descriptors.cpp:170-236 | what was flattened decodes to the table again, unknown forms read as string |
| Descriptors.KindsNumbered | src/bridges/lua/descriptors.cpp:170-185 | the codes 0 to 5 are the six kinds in the order of the C boundary, any other reads as text |
| Descriptors.EncodesKept | src/bridges/lua/module_slot.hpp:14-40 | growing the storage changes nothing that was encoded |
| Descriptors.AcceptedAlone | src/bridges/lua/descriptors.cpp:250-308 | a module passes exactly when the boundary knows all its port kinds |
| Descriptors.AcceptedInOrder | src/bridges/lua/descriptors.cpp:373-391 | those that pass stay in the order given, each as often as it was given |
| Descriptors.VersionCut | src/bridges/lua/descriptors.cpp:261-268 | of a version the first four components are kept, each modulo 32 bits |
| Descriptors.Library.ReadPorts | src/bridges/lua/descriptors.cpp:67-84 | a module is refused exactly when one of its ports has a kind outside 1 to 6 |
| Descriptors.Library.BuildOne | src/bridges/lua/descriptors.cpp:250-308 | a refused module leaves storage and batches as they were; an accepted one adds a slot and a descriptor that describes it |
| Descriptors.Library.Discover | src/bridges/lua/descriptors.cpp:373-391 | a new batch describes the acceptable modules in order; earlier batches and slots stay |
| Descriptors.Scan | src/bridges/python/descriptors.cpp:328-355 | over any sequence of scans every handed-out descriptor still describes its module and points at a slot in storage |
| Descriptors.DescribedDecodes | src/bridges/python/descriptors.cpp:211-256 | following a handed-out descriptor gives the module's own table |
| Options.PropertyOverRuns | include/atp/io/property.hpp:62-114 | after any run the property holds an allowed value, the last one accepted, and its flag is up exactly when something was stored since the last take |
| Options.Property.Build | include/atp/io/property.hpp:38-41 | a default outside the set is refused |
| Options.Property.Assign | include/atp/io/property.hpp:62-67 | stores and raises the flag exactly for an allowed value |
| Options.Property.FromString | include/atp/io/property.hpp:104-114 | stores the parsed value exactly when it parses and is allowed, with the two errors apart |
| Options.Property.TakeChange | include/atp/io/property.hpp:77-84 | the value if it changed since the last take, clearing the flag |
| Options.Property.ResetValue | include/atp/io/property.hpp:93-97 | the default again, as a change |
| Options.FieldOverRuns | include/atp/module/module_config.hpp:168-214 | over any run the text door can replace the typed one throughout, and with canonical options a written field holds an allowed value |
| Options.TextDoorsPart | include/atp/io/property.hpp:104-114 | a field and a property given one text part exactly where listing the text and listing its value's print differ; with canonical options they agree if and only if it parses to no allowed value or is that value's print, and without options always |
| Options.TextRunsAgree | include/atp/module/module_config.hpp:205-214 | given any run of texts on each of which the two agree, field and property hold the same value |
| Options.OtherSpelling | include/atp/module/module_config.hpp:205-214 | one text of another spelling that the property takes and the field refuses |
| Options.ConfigField.Build | include/atp/module/module_config.hpp:868-896 | a default outside the set is refused, unless the field is required and has none |
| Options.ConfigField.Assign | include/atp/module/module_config.hpp:168-175 | writes and marks exactly an allowed value |
| Options.ConfigField.FromString | include/atp/module/module_config.hpp:205-214 | writes and marks exactly a listed text that parses |
| Options.ConfigField.IsDefault | include/atp/module/module_config.hpp:230-235 | the texts are compared, and where parsing undoes printing that is asking whether an optional field holds its default |

## Left out

- Qt, Lua and CPython calls, painting, events, files and environment: foreign calls; script tables arrive as plain trees, the canvas nodes as names front to back.
- Ports built unsafe: used from one thread only by contract; the objects of `Ports` cover that use, the protocol does not.
- Type checks of a connection, boxing into any, and conversions before a store: the model's values have one type.
- A store that throws while allocating: not modelled.
- Direct writes into an input beside the protocol: they fire no notifier by design, so the wake-up theorem is about delivered values.
- Watcher handlers and the module's iterate: a pass of an on-demand thread visits each notified input once, by take or drain, and answers busy when it found something, as the watcher's rules do; a module that ignores an input is outside the model.
- Back-off delays, spinning and throttled threads: any pass may be followed by another one or, if it found nothing, by a sleep that ends with the signal or the time-out.
- DeliveryTheorems.NoLostWakeUp: says what is owed in every reachable state, and `DeliveryWakes.UnreadIsGotOut` that a schedule without time-outs pays it; that the scheduler ever runs these threads is not modelled.
- ConfigMisfits.CollectMisfits: a line is its address and what is wrong there; its wording, and the dotted path it prints, are not modelled.
- ConfigFill.LoadFieldsInto: the problems are addresses likewise; the source text attached after filling, and a raw config that takes the document whole, are not modelled.
- ConfigAddress.TokensRoundTrip: keys are texts; the conversion of a name that is not valid UTF-8 into a QString loses what it cannot read, and such names are outside the model.
- ConfigRows.RowsResolve: the same; two names that differ only in invalid UTF-8 could share their tokens.
- ConfigAddress.TokenReads: the space and the sign QString skips in a number are not modelled; the editor makes no such token.
- ConfigTree.Editor.Adopt: a registry that no longer answers, and a module without a config, decline before this point.
- ConfigTree.Editor.Write: takes what the field's codec made of the text, none if it does not parse; a set spelled otherwise than its values print is in `Options`.
- Options are kept as the values they print; a set spelled otherwise than its values print, and writes through a config's bound references, are not modelled in `ConfigShape`.
- The zero of a required enumeration field nobody filled: modelled as the empty text; it is shown as an empty cell and never written. An array's is a part of its declaration.
- The declaration of an array's elements: the prototype's; the source asks the element itself while merging, which declares the same.
- Reals are exact: rounding, not-a-number and negative zero are not modelled; conversion between numbers and texts other than versions is a codec whose parsing undoes its printing.
- Descriptors.Library.ReadPorts: a port row is the code of its kind; the name, the flavour, the limits and the property's default and options it also carries are not modelled.
- Descriptors.Library.BuildOne: a port row is reduced to the code of its kind, a refusal's message is left out, and counts are not cut to 32 bits.
- Rows a Python sequence cannot answer are skipped by the source; the model's tables have none.
- CanvasStack.Scene.ApplyStacking: z is a whole number, counting down by one.
- Registry.ModuleRegistrar.Add: without a pin. With one, a null factory is wrapped before the registry can refuse it, and asking the wrapper for its name fails.
- Registry.ModuleRegistry.List: the library's sort is an insertion.
- The runner's threads and groups, the module loader's files, the log ring, the JSON codec, the C host adapter, demo modules, settings and panels: they would only add easy members or foreign calls.
