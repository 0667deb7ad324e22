# OPC UA publishing and the flip-flop application: verified model

This project models two parts of the integration of IEC 61499 function blocks with OPC UA and proves
properties of them with Dafny. `dafny verify dfyconfig.toml` checks everything.

## What is modelled

**Publishing.** On each REQ an OPC_UA_PUBLISH block makes its data source visible on an OPC UA server.
It browses the Objects folder for its function-block object. If the object is missing it creates the
object and the variable; otherwise it browses the object, deletes an existing variable and creates it
again. Nothing is locked and almost every result is ignored, and any number of blocks do this at once.

- `Names.dfy`: the string ids and when they collide.
- `AddressSpace.dfy`, `Server.dfy`: the address space and the AddNodes, DeleteNodes, Browse and Write services
  of the server bundled as `OCP_UA/open62541.c`, as functions on values and as a class edited in place.
- `Publisher.dfy`: one request as a client program that makes one service call at a time, each call
  delivered, lost, or delivered with its answer lost; and the structure every call keeps.
- `Upsert.dfy`: one publish on its own. When it works from an arbitrary address space, what it changes,
  what repetition costs, and which failures lose a variable.
- `Protocol.dfy`: any number of blocks on one server, interleaved at service calls. A run is any list of
  scheduler choices, so every theorem about runs covers every interleaving and every failure pattern.
- `Blocks.dfy`: the blocks as the runtime executes them, with sessions, CNF events and search loops, and
  sequences of publish and write requests.
- `Probing.dfy`, `HashTable.dfy`, `NodeStore.dfy`: the hash table under the server's address space with its
  rehashes; its arithmetic, its operations on values, and the class that edits an array in place.
- `Republish.dfy`: what that table makes of a delete followed by a create, and how a table comes to refuse it.
- `TableServer.dfy`: the table with its nodes as the server's address space, and the blocks' protocol run
  against it.

`Options.dfy` holds the one datatype the two parts share.

**The flip-flop.** E_CYCLE, E_SWITCH, E_SR and OPC_UA_WRITE are wired into two feedback loops, E_SR.EO
to E_CYCLE.START and OPC_UA_WRITE.CNF to E_CYCLE.STOP.

- `FlipFlop.dfy`: the wiring, the blocks, one FIFO queue and the timer; conservation and alternation.
- `Runs.dfy`: tick spacing, drained runs, and when STOP holds.
- `Application.dfy`: the resource that executes the application, as a class.

## What the proofs found

- Repeating a publish is harmless only up to the multiplicity of references. The server does not remove
  the parent's reference when the variable is deleted and appends a new one when it is created again, so
  the block's list grows by one with every publish (`Upsert.ReferencesAccumulate`).
- A publish can be blocked for good by a node of another namespace with the same text
  (`Upsert.AliasBlocks`); `Upsert.PublishWorksIff` gives the exact condition for every address space.
- Whatever the interleaving, if connects and searches are answered and the other calls reach the server, the
  result is the one-shot upsert of all requested pairs (`Protocol.RunIsUpsert`). Lost answers to creates and
  deletes are harmless. Lost answers to searches cost at most the new value: a variable keeps an old value
  exactly if it had one at the start and no delete of it ever arrived (`Protocol.StaleIff`).
- A request that is cut off between delete and create loses the variable; no other failing call does
  (`Upsert.LosesVariableIff`), and the next publish restores it (`Protocol.SelfHealing`).
- The variable that OPC_UA_WRITE writes can be published by an OPC_UA_PUBLISH block, but then its type is not
  the one written: every write is refused, and confirmed all the same
  (`Blocks.PublishedAnswerIsNeverWritten`).
- E_SWITCH sends events E_SR ignores when ticks queue up; how many is stated exactly
  (`FlipFlop.RunAlternates`). A confirmed write is sure to stop the cycle exactly if no toggle waits behind it
  (`Runs.StopHoldsIff`).
- The server's hash table empties a slot on removal without a marker. A delete therefore hides other nodes
  whose search passes through that slot (`HashTable.RemovalHidesIff`) until a rehash or a new entry in that
  slot. This can hit the block itself: then the create that follows the delete is refused because the parent is
  not found, and the variable is lost, although no call failed and nobody else was active.
  `Republish.RepublishAcceptedIff` says exactly when, for every table. The growth of the table brings it about
  for any variable that overtakes its block in the rehash (`Republish.GrowthRefuses`);
  `Republish.ServedRunRefuses` gives requests that lead there from the table of a running server, and
  `Republish.EveryTableIsExposed` hash values and requests for every such table with a free slot 0.
- The next publish then stores the block a second time, in the slot of the lost variable. The first copy is
  never found again (`TableServer.BlockIsShadowed`), so the block's other variables, though still there, are no
  longer listed, and publishing them is a silent no-op (`Upsert.SiblingsAreStranded`).
- The address space of the other files is a map. Over any run in which each delete that arrives rehashes the
  table or empties a slot no other search uses, the blocks do on the table exactly what they do on the map, and
  clients see exactly the map (`TableServer.RunMirrors`); a delete that does neither makes some stored node
  unfindable (`TableServer.RemovedMirrors`).

## Assumptions

- Service calls are atomic, as in the server built without UA_MULTITHREADING.
- Names are non-empty and dot-free. The string copies of OPC_UA_PUBLISH.cpp lines 153 to 157 are plain
  copies, and the search of lines 189 and 225 compares string identifiers only.
- Browse is forward and complete: the request asks for no limit. The bundled server omits references to
  missing nodes; the parameter `dangling` covers a server that reports them.
- Where a theorem speaks of well-formed spaces: published blocks and variables that already exist are listed by
  Objects and by their blocks, Objects lists no published block that is missing, and no other namespace repeats a
  published text where the blocks search. Other dangling references may exist. `Upsert.PublishWorksIff`,
  `Protocol.PresenceIff`, `Protocol.StaleIff`, `Protocol.AbsenceWindow`, `Protocol.LostAtRestIff`,
  `Protocol.NothingOrphaned`, `Protocol.RunSpares` and `Protocol.RunLeavesTidy` need none of this.
- The value a block publishes is one constant. Variables hold a value from the start. A write is one scalar of
  a built-in type.
- A request may arrive at any time. In the protocol it is counted as waiting from the start, since a block
  that is not scheduled does nothing.
- E_CYCLE.fbt leaves a START to a running cycle open. As in IEC 61499-1 Annex A, and as E_DELAY.fbt
  shows, it is ignored. The timer fires at its due time: time does not pass a due timer.
- The hash table's list of sizes is a function that returns 7 for up to 7 and otherwise a prime no smaller than
  asked and at most three times as large (the list of open62541.c lines 13824 to 13830 and the binary search below it, for every request within its
  range). Hashes of string ids are arbitrary; hashes of numeric ids are the server's.
- E_SWITCH samples Q when it runs. Each COLD or WARM restart queues one START. Whether a write connects is
  chosen by the environment.

Where the code's comments disagree with it: the file header of OPC_UA_PUBLISH.cpp says the block reads a
value; the model follows the code, which only creates nodes.

## Model

| member | source | states |
|---|---|---|
| `Protocol.RunIsUpsert` | OCP_UA/OPC_UA_PUBLISH.cpp:125-265 | For any number of blocks in any interleaving, if connects and searches are answered and creates and deletes reach the server, then once all have finished the address space is, up to order and multiplicity of references, the one-shot upsert of the requested pairs: every other node as before, every requested variable fresh, each new or old node with exactly its children added. |
| `Protocol.RunIsSequential` | OCP_UA/OPC_UA_PUBLISH.cpp:125-265 | So every such run ends where serving the requested pairs one at a time, in any order and with any repetition, would end. |
| `Protocol.Convergence` | OCP_UA/OPC_UA_PUBLISH.cpp:175-255 | If connects are answered and creates reach the server, whatever happens to searches, deletes and other answers, then once all blocks have finished every requested variable is there under its block, and the block under Objects, also when several blocks publish the same variable. It has the configured value if and only if it had no other value at the start or some delete of it arrived. |
| `Protocol.ConvergesFresh` | OCP_UA/OPC_UA_PUBLISH.cpp:175-255 | If moreover searches are answered and deletes reach the server, every requested variable ends with the configured value. |
| `Protocol.PresenceIff` | OCP_UA/OPC_UA_PUBLISH.cpp:235-249 | In every run from any space with the built-in nodes, at any time, with any failures, a variable is there if and only if it was there at the start or a create of it has reached the server under its block, and no delete has reached the server since the last such create. |
| `Protocol.StaleIff` | OCP_UA/OPC_UA_PUBLISH.cpp:103-103 | In every run, at any time, a variable holds another value than the configured one if and only if it did at the start and no delete of it has ever arrived. |
| `Protocol.AbsenceWindow` | OCP_UA/OPC_UA_PUBLISH.cpp:235-249 | In every run, with any failures, a variable that existed or was published is missing only while a block of the same pair is between its delete and its create, or after such a create was lost and none has arrived since. |
| `Protocol.LostAtRestIff` | OCP_UA/OPC_UA_PUBLISH.cpp:235-249 | With all blocks at rest such a variable is missing if and only if a delete was the last of its deletes and creates to arrive, and then a create after a delete was lost. |
| `Protocol.NothingOrphaned` | OCP_UA/OPC_UA_PUBLISH.cpp:235-249 | If every create reaches the server, whichever other calls fail, the window is the only time an existing or published variable is missing. |
| `Protocol.SelfHealing` | OCP_UA/OPC_UA_PUBLISH.cpp:206-249 | From every state any run with any failures can reach, one undisturbed publish leaves the variable fresh and linked, whether or not browse reports dangling references. |
| `Protocol.RunKeepsSound` | OCP_UA/OPC_UA_PUBLISH.cpp:74-82 | In every run variables are listed by their existing blocks, blocks by Objects, Objects lists no missing block, and no other namespace comes to repeat a published text. |
| `Protocol.RunKeepsBacklinks` | OCP_UA/open62541.c:10604-10610 | In every run, from any space with the built-in nodes, blocks and variables keep their references back to what they hang under. |
| `Protocol.RunLeavesTidy` | OCP_UA/OPC_UA_PUBLISH.cpp:238-242 | In every run, from any space, a forward reference that dangles afterwards dangled at the start or names a variable being published. |
| `Publisher.ExecKeeps` | OCP_UA/OPC_UA_PUBLISH.cpp:125-262 | Each single service call, delivered, lost or with its answer lost, keeps that structure. |
| `Protocol.RunSpares` | OCP_UA/OPC_UA_PUBLISH.cpp:235-249 | Over whole runs nodes other than the variables being published are never removed and change only by references appended at the end of their lists, each to a child published under that very node; the only other nodes that appear are new block objects. |
| `Protocol.BystandersStay` | OCP_UA/OPC_UA_PUBLISH.cpp:235-249 | A node that is neither Objects nor a block nor a variable being published is never created, deleted or altered. |
| `Protocol.BlocksStay` | OCP_UA/OPC_UA_PUBLISH.cpp:64-89 | A block object that exists is never removed and changes only by references appended to its list, each to a published variable of that block. |
| `Protocol.CreatedBlocksAreObjects` | OCP_UA/OPC_UA_PUBLISH.cpp:74-82 | In every run a block that was not there at the start is an object without a value, and every write to it is refused for its class. |
| `Protocol.CreatedVariablesTakeTheirType` | OCP_UA/OPC_UA_PUBLISH.cpp:103-113 | In every run a variable that was not there at the start, or of which a delete arrived, is a variable node with value 0 of type index 1; it takes every write of that type and refuses every other for its type. |
| `Protocol.RunsEnd` | OCP_UA/OPC_UA_PUBLISH.cpp:162-263 | No run makes more effective moves than five per waiting request: one connect and at most four service calls. |
| `Protocol.QuiescentIff` | OCP_UA/OPC_UA_PUBLISH.cpp:162-263 | All blocks are at rest exactly when no work is left, and exactly when nobody can move. |
| `Protocol.OneConfirmationPerRequest` | OCP_UA/OPC_UA_PUBLISH.cpp:165-169 | In every run each request is waiting, in progress or confirmed, and confirmed exactly once at rest, also when connecting failed. |
| `Protocol.SoloIsRun` | OCP_UA/OPC_UA_PUBLISH.cpp:125-265 | The calls of one request made with no other block moving are a run of the protocol with the same space, one more confirmation and no other block touched; this ties the executed block to the interleaved model. |
| `Upsert.PublishWorksIff` | OCP_UA/OPC_UA_PUBLISH.cpp:185-250 | From any address space the closing create succeeds if and only if a block reported under Objects exists in namespace 1 and an existing variable is reported by its block (or, with no block reported, the variable does not exist). Success leaves the fresh linked node, failure leaves the variable as it was. |
| `Upsert.AliasBlocks` | OCP_UA/OPC_UA_PUBLISH.cpp:189-192 | A node of another namespace with the block's text under Objects turns every publish of a missing block into a no-op, because the search ignores the namespace. |
| `Upsert.AliasExample` | OCP_UA/OPC_UA_PUBLISH.cpp:189-192 | A concrete address space and pair for which publishing does nothing, with an object of namespace 0 as the server's start-up code can make it. |
| `Upsert.UnlistedIsStranded` | OCP_UA/OPC_UA_PUBLISH.cpp:211-250 | An existing variable that its reported block does not list cannot be published again: every attempt changes nothing. |
| `Upsert.SiblingsAreStranded` | OCP_UA/OPC_UA_PUBLISH.cpp:199-250 | If a block object is replaced by a new one, the variables it had stay, and publishing any of them again changes nothing, before and after the variable that caused it has been published anew. |
| `Upsert.SearchFindsFb` | OCP_UA/OPC_UA_PUBLISH.cpp:175-194 | In well-formed spaces the first search is true exactly when the block object exists. |
| `Upsert.SearchFindsVar` | OCP_UA/OPC_UA_PUBLISH.cpp:211-230 | In well-formed spaces the second search is true when the variable exists, and only then against the bundled server. |
| `Upsert.PublishNormalForm` | OCP_UA/OPC_UA_PUBLISH.cpp:199-250 | In well-formed spaces both branches equal: ensure the block, drop the variable, create the variable. |
| `Upsert.PublishEffect` | OCP_UA/OPC_UA_PUBLISH.cpp:199-250 | The exact new address space of a publish: the fresh variable, one reference more on its block, Objects changed only for a new block, every other node as before. |
| `Upsert.PublishIsUpsert` | OCP_UA/OPC_UA_PUBLISH.cpp:199-250 | Up to order and multiplicity of references a publish is the plain upsert of its pair, for either branch and either browse behaviour. |
| `Upsert.PublishAllIsUpsert` | OCP_UA/OPC_UA_PUBLISH.cpp:125-262 | Any sequence of publishes is the one-shot upsert of its set of pairs. |
| `Upsert.OrderAndRepetitionDoNotMatter` | OCP_UA/OPC_UA_PUBLISH.cpp:125-262 | Two sequences over the same set of pairs give the same address space up to order and multiplicity of references. |
| `Upsert.ReferencesAccumulate` | OCP_UA/open62541.c:10604-10606 | The block holds exactly one more reference to its variable for each publish of that pair in the sequence, and none for other pairs: references are never reclaimed. |
| `Upsert.NeverIdempotentOnLists` | OCP_UA/open62541.c:11273-11291 | On the stored lists a second publish of the same pair always changes the address space. |
| `Upsert.LosesVariableIff` | OCP_UA/OPC_UA_PUBLISH.cpp:162-255 | One request, for every fate of its calls, loses an existing variable if and only if connect and both browses work, the delete reaches the server and the create does not. |
| `Names.DottedCollision` | OCP_UA/OPC_UA_PUBLISH.cpp:160-160 | On arbitrary strings two dotted ids coincide if and only if the names do or one block name extends the other by a dotted suffix. |
| `Names.VarStringInjective` | OCP_UA/OPC_UA_PUBLISH.cpp:100-101 | On dot-free names different pairs get different ids. |
| `Names.VarStringIsNoName` | OCP_UA/OPC_UA_PUBLISH.cpp:107-108 | No variable id is a block id, so deleting a variable never removes a block. |
| `Names.DottedNamesCollide` | OCP_UA/OPC_UA_PUBLISH.cpp:160-160 | Two different pairs with dots in their names that share an id. |
| `AddressSpace.FindsIff` | OCP_UA/OPC_UA_PUBLISH.cpp:185-194 | A search succeeds if and only if the browsed node exists and has a reported forward reference whose string id is the sought text, in any namespace. |
| `AddressSpace.AddStatusIff` | OCP_UA/open62541.c:10547-10596 | Which status AddNodes gives, by the first requirement that fails: namespace 0, a namespace that is not there, the parent, the reference type and its class, its abstractness, an id that exists. |
| `AddressSpace.AddNodeEffect` | OCP_UA/open62541.c:10544-10617 | AddNodes changes nothing on any refused check and otherwise adds one node with its inverse reference and appends one forward reference to the parent. |
| `AddressSpace.Targets` | OCP_UA/open62541.c:11597-11639 | The browse answer holds exactly the targets of forward references that exist (or dangle, if that is asked for). |
| `AddressSpace.TargetsInOrder` | OCP_UA/open62541.c:11808-11857 | The browse answer keeps order and multiplicity of the reference list: it is put together reference by reference. |
| `AddressSpace.BrowseGoodIff` | OCP_UA/open62541.c:11776-11781 | A browse is answered Good exactly if the node is there; a missing node has no answer. |
| `AddressSpace.DeleteGoodIff` | OCP_UA/open62541.c:11373-11424 | A delete is answered Good exactly if it changes the address space, and otherwise the node id is reported invalid. |
| `Server.UaServer.AddNodes` | OCP_UA/open62541.c:10544-10617 | The in-place service returns the status of the first failing check and leaves the space AddNode describes. |
| `Server.UaServer.AddOneWayReference` | OCP_UA/open62541.c:11273-11291 | One reference is appended to an existing node; a missing node is reported and nothing changes. |
| `Server.UaServer.DeleteNodes` | OCP_UA/open62541.c:11373-11424 | The node is removed with its own references, references held by others stay; a missing node is reported. |
| `Publisher.WriteKeeps` | OCP_UA/open62541.c:10303-10361 | A write to any node keeps the structure of published blocks and variables. |
| `Server.UaServer.Write` | OCP_UA/open62541.c:10469-10486 | The value of a variable or variable type is replaced by one of the same type index. Each refused case has its status: a missing node, any other node class, a value of another type; then nothing changes. |
| `Server.UaServer.BrowseForward` | OCP_UA/open62541.c:11808-11857 | The loop over the reference list yields the existing forward targets in order; a missing node is reported. |
| `Blocks.Search` | OCP_UA/OPC_UA_PUBLISH.cpp:185-194 | For response arrays of any size the flag is true exactly when some reference of some result carries the sought text. |
| `Blocks.BrowseFor` | OCP_UA/OPC_UA_PUBLISH.cpp:175-197 | One call; the flag is true exactly when the answer arrived and the server's space has the reported reference. |
| `Blocks.CreateFbNode` | OCP_UA/OPC_UA_PUBLISH.cpp:64-89 | One AddNodes call for an object with the block's string id in namespace 1, under i=85 by i=35, with no effect if the request is lost. |
| `Blocks.CreateVariableNode` | OCP_UA/OPC_UA_PUBLISH.cpp:91-120 | One AddNodes call for a variable with the dotted string id under the block by i=35, with value 0 of type index 1, with no effect if the request is lost. |
| `Blocks.Reconcile` | OCP_UA/OPC_UA_PUBLISH.cpp:171-250 | Between connect and disconnect the block does what the protocol prescribes from its first browse on. |
| `Blocks.ExecutePublish` | OCP_UA/OPC_UA_PUBLISH.cpp:125-265 | One request: the space the protocol gives, exactly one CNF in every case, and every client made is freed once and not used afterwards. |
| `Blocks.ServePublish` | OCP_UA/OPC_UA_PUBLISH.cpp:125-265 | Over any sequence of requests and networks: one CNF each, no client left over, the spaces chained. |
| `Blocks.LastRequestHeals` | OCP_UA/OPC_UA_PUBLISH.cpp:125-265 | Whatever happened to the earlier requests of a block, a last one that connects, gets its searches answered and whose other calls reach the server leaves the variable fresh and linked in a well-formed space. |
| `Blocks.ExecuteWrite` | OCP_UA/OPC_UA_WRITE.cpp:45-86 | CNF if and only if connecting worked; the answer node gets the value if the request arrived and the server's checks pass, and nothing else changes; the client made is freed once. |
| `Blocks.ServeWrites` | OCP_UA/OPC_UA_WRITE.cpp:45-86 | Over any sequence of requests the CNFs are the connects that worked, no client is left over, and the spaces are chained. |
| `Blocks.LastArrivedWins` | OCP_UA/OPC_UA_WRITE.cpp:56-72 | Of any sequence of writes only the last to arrive counts. It is stored if and only if the answer node existed, as a variable or variable type holding a value of type index 5; otherwise the address space is unchanged, and nothing else in it ever changes. |
| `Blocks.PublishedAnswerIsNeverWritten` | OCP_UA/OPC_UA_PUBLISH.cpp:47-49 | If the answer node was made by an OPC_UA_PUBLISH block, no sequence of writes changes anything, because the types differ. |
| `FlipFlop.RunConserves` | FlipFlopTutorial/FlipFlopApplication.xml:74-94 | In every reachable state ticks, toggles, write requests, STARTs and STOPs emitted equal those handled plus those queued; STOPs are the writes that connected. |
| `FlipFlop.RunAlternates` | FlipFlopTutorial/events/E_SR.fbt:37-39 | On every run, whatever the timing, Q is the parity of effective sets and resets, and the events E_SR ignores are exactly the decisions E_SWITCH takes while a queued set or reset is about to change Q. |
| `Runs.DrainedNeverMisjudges` | FlipFlopTutorial/events/E_SWITCH.fbt:36-39 | If each tick is drained through E_SR before the next is issued, E_SWITCH never sends an event E_SR ignores. |
| `Runs.StrictAlternation` | FlipFlopTutorial/FlipFlopApplication.xml:74-85 | On drained runs nothing is ignored, Q is the parity of all ticks and each tick caused exactly one write request. |
| `Runs.TicksLost` | FlipFlopTutorial/FlipFlopApplication.xml:74-85 | On every run the number of lost or doomed ticks is the number of misjudged ones. |
| `Runs.BurstLosesTick` | FlipFlopTutorial/events/E_SWITCH.fbt:36-38 | Whenever two ticks wait back to back the second is lost. |
| `Runs.BurstReachable` | FlipFlopTutorial/FlipFlopApplication.xml:74-82 | A run from power-up on which two ticks wait back to back. |
| `Runs.RunSpaces` | FlipFlopTutorial/FlipFlopApplication.xml:107-112 | In every run, for any DT, consecutive ticks are at least DT apart and n ticks take at least n times DT. |
| `Runs.ExactPeriod` | FlipFlopTutorial/events/E_DELAY.fbt:41-51 | While no STOP is handled ticks come at exactly the due times: a START to a running cycle, from the feedback or a restart, shifts, adds and drops nothing. |
| `Runs.TicksFromStart` | FlipFlopTutorial/events/E_CYCLE.fbt:19-40 | From any net with the timer off: if the next START is handled at time t and no STOP after it, the ticks from then on are exactly those at t + DT, t + 2 DT and so on, up to the present. |
| `Runs.TicksFromPowerUp` | FlipFlopTutorial/FlipFlopApplication.xml:105-112 | From power-up, with a restart at any time whose START is handled any time later, and no STOP handled: the j-th tick, counted from 1, comes j times DT after that START. |
| `Runs.DispatchLightens` | FlipFlopTutorial/FlipFlopApplication.xml:74-94 | Every event handled lowers a weight of the queue, so event chains through both feedback loops end. |
| `Runs.DrainIsRun` | FlipFlopTutorial/FlipFlopApplication.xml:74-94 | Draining the queue is a run of the event loop in which the write of each turn meets its own fate, of no more turns than the queue weighs. |
| `Runs.DrainRestsIff` | FlipFlopTutorial/FlipFlopApplication.xml:86-94 | The network comes to rest with its timer off for every assignment of fates to the writes still to come, if and only if no toggle is pending and the last queued START or STOP is a STOP (with none queued: the timer is off). |
| `Runs.StopHoldsIff` | FlipFlopTutorial/FlipFlopApplication.xml:92-94 | The STOP of a write that connects ends the cycle for every assignment of fates to later writes, if and only if no tick, effective set or effective reset waits behind that write. |
| `Runs.StopAfterFirstConfirmedWrite` | FlipFlopTutorial/FlipFlopApplication.xml:86-94 | From power-up, with no restart once a write has connected and ticks only when nothing but STARTs is queued: at most one write ever connects; with an empty queue the cycle runs exactly if it was started and no write has connected, and every tick made one write; without a connect no STOP is handled. |
| `Runs.IdlePhase` | FlipFlopTutorial/SysConf.xml:219-225 | Power-up meets the requirements of the row above. |
| `Runs.QuiescenceLasts` | FlipFlopTutorial/SysConf.xml:219-225 | With an empty queue and no timer nothing but time changes until a restart. |
| `Application.FlipFlopResource.SendOutputEvent` | FlipFlopTutorial/FlipFlopApplication.xml:86-91 | An output event is queued for its connections in declared order, START before REQ for E_SR. |
| `Application.FlipFlopResource.ExecuteSr` | FlipFlopTutorial/events/E_SR.fbt:29-47 | S acts outside SET and R in SET only; an acting event sets Q and emits EO, any other changes nothing. |
| `Application.FlipFlopResource.ExecuteSwitch` | FlipFlopTutorial/events/E_SWITCH.fbt:28-39 | EI goes to EO0 when Q is false and to EO1 when it is true. |
| `Application.FlipFlopResource.ExecuteCycle` | FlipFlopTutorial/events/E_CYCLE.fbt:27-51 | START arms a timer that is off, STOP clears it. |
| `Application.FlipFlopResource.ExecuteWrite` | OCP_UA/OPC_UA_WRITE.cpp:47-84 | CNF is emitted only if the write connected. |
| `Application.FlipFlopResource.ExecuteEvent` | FlipFlopTutorial/FlipFlopApplication.xml:74-94 | An event is handled by the block it is an input of and by no other. |
| `Application.FlipFlopResource.DispatchNext` | FlipFlopTutorial/FlipFlopApplication.xml:74-94 | The oldest queued event is taken and handled; conservation, alternation and spacing are kept. |
| `Application.FlipFlopResource.DrainQueue` | FlipFlopTutorial/FlipFlopApplication.xml:74-94 | The event loop ends with an empty queue in the drained state, keeps conservation, alternation and spacing, and leaves the timer off if no toggle was pending and the last START or STOP was a STOP, whatever becomes of the writes. |
| `Application.FlipFlopResource.TimerHandler` | FlipFlopTutorial/events/E_CYCLE.fbt:27-40 | A due timer emits one tick and is due again DT later; conservation, alternation and spacing are kept. |
| `Application.FlipFlopResource.ColdRestart` | FlipFlopTutorial/SysConf.xml:219-225 | A restart queues a START; conservation, alternation and spacing are kept. |
| `Application.FlipFlopResource.Elapse` | FlipFlopTutorial/events/E_DELAY.fbt:41-51 | Time never passes a due timer; conservation, alternation and spacing are kept. |
| `Probing.ProbeSequence` | OCP_UA/open62541.c:2560-2561 | The first probe is the hash modulo the size; each further one is advanced by one more than the hash modulo the size less two, and wrapped. |
| `Probing.SameProbesIff` | OCP_UA/open62541.c:13847-13884 | Two hashes are searched for in the same slots throughout if and only if they agree modulo the size and modulo the size less two; two equal probes at the start are enough. |
| `Probing.SecondSlotsDiffer` | OCP_UA/open62541.c:13863-13867 | Hashes with the same first slot that differ modulo the size less two part at the second probe. |
| `HashTable.KnuthCollidesIff` | OCP_UA/open62541.c:2619-2623 | The hash of numeric ids can be undone, so two of them have the same hash if and only if number and namespace add up to the same 32-bit word. |
| `Probing.ProbesCover` | OCP_UA/open62541.c:13847-13884 | With a prime number of slots every search visits every slot. |
| `HashTable.SearchEnds` | OCP_UA/open62541.c:13847-13884 | With a prime number of slots and a free one every search ends at the id or at a free slot. |
| `HashTable.LooksUp` | OCP_UA/open62541.c:14117-14123 | A consistent table finds exactly the ids it stores. |
| `HashTable.InsertKeeps` | OCP_UA/open62541.c:14036-14087 | Inserting where the search ended keeps every stored id findable. |
| `HashTable.InsertedKeeps` | OCP_UA/open62541.c:14036-14087 | An insert, with the rehash a crowded table gets first, keeps the load limit and leaves the contents with the id added. If the table was crowded or consistent it is consistent afterwards and the insert refused exactly the stored ids. |
| `HashTable.RemovalHidesIff` | OCP_UA/open62541.c:14125-14141 | Emptying a slot hides another stored id if and only if that id's probes pass through the slot. |
| `HashTable.HiddenIsAddable` | OCP_UA/open62541.c:14066-14070 | A hidden id is not refused as existing: its search ends at the emptied slot. |
| `HashTable.RemovalSafeIff` | OCP_UA/open62541.c:14125-14133 | After emptying a slot the table still answers like the set of its ids if and only if no other stored id is searched for through it. |
| `HashTable.FilledKeeps` | OCP_UA/open62541.c:13908-13918 | A rehash, from a table in any state, yields a consistent table with the same ids: hidden ids are found again. |
| `HashTable.ExpandedKeeps` | OCP_UA/open62541.c:13889-13921 | Unless its size fits, the table is replaced by a consistent one with the same ids that meets the load limit. |
| `HashTable.RehashIff` | OCP_UA/open62541.c:13889-13906 | A table is rehashed exactly when its size is at most twice the count, or it has more than 32 slots and at least eight times the count; it then has the size for twice the count and is consistent with the same ids. |
| `HashTable.InsertBoundsLoad` | OCP_UA/open62541.c:14036-14040 | The upper load bound: a table grows for an insert exactly if three quarters of it were counted as taken, and then every stored id can be found. |
| `HashTable.RemovalBoundsLoad` | OCP_UA/open62541.c:14125-14141 | The lower load bound: after every successful removal the table has at most 32 slots or at most eight per node. A removal that leaves fewer than an eighth of more than 32 slots taken rehashes, and every stored id can be found; any other empties one slot and changes nothing else. |
| `HashTable.RemovedIff` | OCP_UA/open62541.c:14125-14141 | A removal from a consistent table reports unknown ids and takes exactly its id out; the table stays consistent if and only if it is rehashed or no other search uses the slot. |
| `HashTable.ActsLikeSet` | OCP_UA/open62541.c:14036-14141 | Any sequence of inserts and such safe removals, with all rehashes, gives each operation the status a set of ids would give and ends finding exactly the ids of that set. |
| `Republish.RepublishAcceptedIff` | OCP_UA/open62541.c:10547-10606 | Delete and re-create of a variable with nobody else active, from any table in which variable, parent and reference type are found: if the delete rehashes the table, the create is accepted unless a second copy of the variable was stored. Otherwise it is accepted if and only if neither the parent's search nor the reference type's passes through the variable's slot; then the table is what it was, and if not the variable is lost and the status names the id that was not found. |
| `Republish.ReinsertRestores` | OCP_UA/open62541.c:14066-14087 | The success half: if the create gets as far as the insert, and the delete caused no rehash, the id goes back into its slot. |
| `Republish.RehashReverses` | OCP_UA/open62541.c:13908-13918 | A rehash stores ids in slot order: a variable that finds its first new slot free, where its block's search also begins, stands in the block's way from then on, even if the block was stored first. |
| `Republish.GrowthRefuses` | OCP_UA/open62541.c:14036-14040 | For every table at three quarters load in which a variable is about to overtake its block: after any further insert the next delete and re-create of the variable is refused with BadParentNodeIdInvalid and the variable is lost. |
| `Republish.ServedRunRefuses` | OCP_UA/open62541.c:10547-10606 | The requests that lead there, from any consistent table with the built-in nodes: a block and its variable, each into its first slot, the variable's being slot 0; then any requests until the table is three quarters full, and one more. If both have the same first slot in the new table, the next publish loses the variable. |
| `Republish.EveryTableIsExposed` | OCP_UA/open62541.c:14036-14087 | From any consistent table with the built-in nodes, room for two more and slot 0 free, and for any new block and variable, there are hash values of the two and a sequence of requests after which re-creating the variable is refused and the variable is lost: no size of table and no set of stored nodes is safe. |
| `Republish.SameHashHides` | OCP_UA/open62541.c:14125-14141 | Two ids of the same hash stored one after the other into any consistent table: removing the first hides the second if and only if the removal does not rehash. |
| `Republish.TwinsHide` | OCP_UA/open62541.c:2619-2623 | Numeric ids whose number and namespace add up alike are such ids. |
| `TableServer.SeenIsWhole` | OCP_UA/open62541.c:14117-14123 | In a consistent table clients see every stored node. |
| `TableServer.FilledWhole` | OCP_UA/open62541.c:13908-13918 | A rehash keeps every node under its id, also from a table in which ids are hidden. |
| `TableServer.FilledLatest` | OCP_UA/open62541.c:13908-13918 | A rehash of any table, also one in which a block was stored a second time, keeps under each id the node of the last slot that held it. |
| `TableServer.AddedMirrors` | OCP_UA/open62541.c:10547-10610 | AddNodes on a consistent table has the status and the effect of AddNodes on the map, rehash and both references included, and leaves a consistent table. |
| `TableServer.RemovedMirrors` | OCP_UA/open62541.c:14125-14141 | A removal from a consistent table takes out the right node; the table goes on mirroring the map if and only if it is rehashed or no other search uses the slot. |
| `TableServer.RunMirrors` | OCP_UA/OPC_UA_PUBLISH.cpp:125-265 | Refinement over whole runs: if every delete that arrives is safe at its turn, the blocks end in the same states on the table as on the map, and clients see exactly the map. |
| `TableServer.TableRunIsUpsert` | OCP_UA/OPC_UA_PUBLISH.cpp:125-265 | So the one-shot upsert is what clients see of the table at the end of every such interleaving. |
| `TableServer.BlockIsShadowed` | OCP_UA/open62541.c:14060-14087 | After a create that was refused because the variable stood in its block's way, the block is not seen; adding it again is accepted, and what clients then see is the address space without the variable and with a new block object in place of the old one. |
| `NodeStore.Store.constructor` | OCP_UA/open62541.c:14004-14018 | A new store is empty and meets the load limit. |
| `NodeStore.Store.ContainsNodeId` | OCP_UA/open62541.c:13847-13884 | The probing loop ends at the slot the search prescribes, and reports the id exactly when it can be found. |
| `NodeStore.Store.Expand` | OCP_UA/open62541.c:13889-13921 | The array is replaced by the rehashed table; the copying loop may stop at the count because the rest of the old array is free. |
| `NodeStore.Store.Insert` | OCP_UA/open62541.c:14036-14087 | The insert of the proofs, with its rehash at three quarters load; the store stays valid. |
| `NodeStore.Store.Remove` | OCP_UA/open62541.c:14125-14141 | The removal of the proofs, with its shrinking rehash; the store stays valid. |
| `NodeStore.Store.AddExistingNode` | OCP_UA/open62541.c:10547-10606 | The namespace, the parent, the reference type, its class and its abstractness are checked in that order before the insert; the first that fails decides the status. |

## Left out

- Transport, secure channels, timeouts and logging: a call is delivered, lost, or loses its answer.
- OPC_UA_READ and OP_UA_SUBSCRIBE: straight-line client code without protocol logic.
- Encoding of messages and the generated type tables.
- C memory: fixed text buffers, uninitialised pointers, ownership of request members, failing allocations, the
  end of the list of table sizes, and 32-bit overflow of a probe index in tables near the largest size.
- AddNodes with an empty id, type definitions, display and browse names, masks, and DeleteNodes with
  deleteTargetReferences set: the publisher uses none of them.
- Server.UaServer.Write: does not model array ranges, data sources, the conversion of byte strings to byte arrays,
  and variables without a value, on which the server dereferences a null type. No block sends such a write, and
  the model refuses a write to a variable without a value.
- The hash table: reference counts of nodes, the numbering of nodes without an id, and the hash of string ids.
- The class of `NodeStore.dfy` holds ids; the nodes its entries lead to are in `TableServer.dfy`, on values.
- The .old application files, project files, build files and the FORTE runtime outside the event queue.
