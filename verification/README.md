# Verification model of the audit event pipeline

The collector takes audit records from the kernel, groups them into events, serialises the events,
keeps them in a persistent ring and delivers them to outputs that acknowledge them. This project
models the stateful parts of that path in Dafny and proves what they keep. `dafny verify
dfyconfig.toml` checks all of it.

* **The ring queue** (`Bytes`, `Ring`, `RingFile`, `QueueSpec`, `Queue`, `QueueRuns`). Memory is an
  array of bytes with 24-byte block headers in little-endian words; the file is a header and a byte
  image. `Ring` relates the bytes to a list of items (identifier, bytes, position) that may wrap
  once. `RingFile` treats the writes of a save one by one, with a crash between any two or inside a
  data write. `QueueSpec` states each operation as a relation between states, `Queue` is the class
  itself, proved against those relations, and `QueueRuns` follows readers over whole runs. The
  class invariant says at once that the blocks from tail to head are exactly the retained items,
  that they are the end of everything ever committed, that disk and memory agree on the saved part,
  and that the file recovers to a contiguous piece of the history.
* **Acknowledged delivery** (`AckQueue`, `Delivery`, `DeliveryQueue`). The ack queue's two maps, sequence counter and
  auto cursor as a class; the sending loop, the connection, the receiver, the acknowledgement reader
  and the cursor file as a step system with disconnects, eviction, and restarts after which the queue
  may have lost what was not saved; and that its set of identifiers is the ring.
* **The event format** (`Names`, `EventFormat`, `EventBuilder`). The byte layout, the readers, the
  validator, the lookup by field name, and the builder writing into a buffer that is reused.
* **Accumulation** (`RawEvent`, `RawEventRuns`, `Cache`, `Accumulator`, `AccumulatorRuns`). The limits
  and drop counters of one event and its whole history, the linked recency list over real nodes with
  its map, the accumulator over both, and what becomes of one event's records over a run.
* **Audit rules** (`AuditRules`, `PackedRule`). Merging and differencing of rule lists; a rule with its
  packed field table, string buffer and incrementally kept offsets.
* **Command lines** (`Shell`, `BashEscape`, `BashForms`, `BashInverse`). How a shell reads quoted words (section
  2.2 of the POSIX.1-2017 Shell Command Language, section 3.1.2.4 of the Bash Reference Manual, with
  the backslashes kept that begin no listed sequence), the escaping, that it does no more than it
  must, and when the one undoes the other.
* **NETLINK requests** (`Netlink`, `NetlinkRuns`, `NetlinkAnswers`). The request table, and every interleaving of
  senders, the receiving thread and the stop, over the one buffer they share; what senders are told.

Where the code does not keep a promise for all inputs, the code is modelled as it is, a member shows
an input on which it fails, and another states exactly when it holds:

* A Put keeps the queue sound exactly when `PutSafe` holds, a condition on the head, the newest item
  and the new size. Where it fails every item is dropped, and then, if the new one fits in front of
  the head, it is stored there with the tail left on the WRAP block; otherwise the tail passes the
  head over bytes that are no block. Two Puts into a new queue lead to either. Items of a third of the
  ring or less are always safe, in every state such items lead to.
* Retained identifiers are consecutive up to the next one, but for a queue opened after a crash that
  left only a part of its items on file: there they are so only once those items are gone.
* Delivery loses nothing exactly when four things do not happen: two items with the same event
  identifier; an auto cursor, saved when a connection ends, that is newer than something outstanding;
  a connection that starts at the head although items have been read; and a queue that comes back,
  after a crash, with a next identifier at or below the cursor on file. Nothing in the code rules any
  of them out; each has its losing run.
* Field values read back exactly when sizes and type fit in 16 bits: the sizes are stored in 32-bit
  words but cut to 16 bits first. The event's own size word is right exactly below 2^24 bytes.
* A second EXECVE record over a size limit makes the eviction index an empty vector; no other record
  does.
* Merging a merged list of rules changes nothing exactly when no rule turns into a watch in the merge
  and meets one with the same fields. Of rules that are no watches only the first one's permissions
  are kept.
* Applying a difference of rules makes actual cover desired exactly when no merge of matching rules
  turns a non-watch rule with watch fields into one with all system calls.
* Keys written to a rule come back exactly when none is empty or contains the separator.
* An escaped string reads back exactly when it is not both in the `$''` form and contains a backslash
  that, with what follows it, is an escape sequence of that form. A command line of arguments that
  survive splits back into them exactly when none but the first is empty.
* No NETLINK request is left waiting for ever exactly when two things do not happen: a `sendto` that
  fails after another call, or an arriving message, has put a number somebody waits for into the
  shared message buffer, and a sequence counter that goes round once while a message is handled. The
  first needs no more than two senders.

Code and comments disagree in four places; the model follows the code. `StringUtils.cpp:294-295`
says the `$''` form is chosen for metacharacters together with `!`: it is for a single quote together
with `!`. `AuditRules.cpp:1965` says strict subset: it is subset. `AuditRules.cpp:1982` says the
difference has the merge key and the keys of its rules: it may have become a watch. `Queue.h:86`
speaks of a parameter `overwrite`: Put has none and always evicts.

## Model

| member | source | states |
|---|---|---|
| `Bytes.LeRoundTrip` | Queue.cpp:507-513 | a number that fits is read back from its little-endian bytes |
| `Ring.ReadHeader` | Queue.cpp:550-553 | a stored block header reads back as its size, identifier and state |
| `Ring.ChainFrame` | Queue.cpp:479-494 | the chain of blocks from tail to head depends only on the bytes between them in ring order |
| `Ring.NextState` | Queue.cpp:606-615 | behind item i lies item i + 1, a WRAP block leading to it at the front, or the head |
| `Ring.EvictStep` | Queue.cpp:507-513 | one turn of the eviction loop stays inside the ring and moves the tail to the next item, past a WRAP block, or to the head |
| `Ring.SafeIffSomeTailFits` | Queue.cpp:479-514 | some retained item can be the oldest with the new one still fitting if and only if PutSafe holds |
| `Ring.FitsIffSuffices` | Queue.cpp:479-494 | check_fit succeeds if and only if the bytes between head and tail hold what the block and its headers need |
| `Ring.SmallItemsAreSafe` | Queue.cpp:479-514 | when every item, with two headers, is at most a third of the ring, and the head of an empty ring is at its beginning, PutSafe holds in every shape of the ring |
| `Ring.AllocatedIsFree` | Queue.cpp:534-554 | when check_fit holds, the reserved block, the HEAD block behind it and a WRAP block at the old head lie inside the ring and touch no retained byte |
| `Ring.Append` | Queue.cpp:534-578 | any memory that keeps the used bytes and holds the new item, the marker and the WRAP block is a well-formed ring with the item appended and the next identifier |
| `Ring.PutWrites` | Queue.cpp:534-603 | the headers and the copy that Put writes produce such a memory |
| `RingFile.PrefixRecovers` | Queue.cpp:244-278 | a file with the saved part and a header that ends there recovers to exactly the saved items |
| `RingFile.RegionsAreUnsaved` | Queue.cpp:358-392 | every region written by a save comes from memory and touches no byte of the saved part |
| `RingFile.RegionsCover` | Queue.cpp:358-392 | the regions cover every used byte that is not saved |
| `RingFile.CrashAfterHeader` | Queue.cpp:396-407 | after the first header, a crash in any write leaves a file that recovers to the saved items or to all |
| `RingFile.CrashDuringSave` | Queue.cpp:396-407 | a crash anywhere in a save leaves a file that recovers to what it held before, to the saved items still retained, or to all retained items |
| `RingFile.SaveSavesAll` | Queue.cpp:355-412 | an incremental save makes the file recover to all retained items, with nothing left unsaved |
| `RingFile.EvictKeepsSync` | Queue.cpp:516-532 | after the corrected saved size disk and memory still agree on the saved part of what is left |
| `RingFile.AppendKeepsSync` | Queue.cpp:534-578 | appending an item, with or without wrapping, changes no saved byte |
| `QueueSpec.DropOne` | Queue.cpp:506-514 | one turn of the eviction loop drops the oldest item, which left too little room for the new one, and keeps the ring well formed |
| `QueueSpec.TailPasses` | Queue.cpp:506-514 | when the eviction reaches the head in vain, PutSafe fails and the item does not fit in front of the head |
| `QueueSpec.RoomIsMade` | Queue.cpp:506-532 | the eviction that ends drops the shortest prefix that makes room, leaves nothing of a queue with items exactly when PutSafe fails, and keeps the invariant of what is left |
| `QueueSpec.PutReads` | Queue.cpp:559-562 | copying the item in leaves the reserved size intact for the commit |
| `QueueSpec.PutExtends` | Queue.cpp:534-603 | reserving, copying and committing appends one item with the next identifier to log and history and keeps the invariant |
| `QueueSpec.PutStrands` | Queue.cpp:534-603 | where PutSafe fails and the item fits in front of the head, it is stored there with the tail on the WRAP block at the old head |
| `QueueSpec.NumberedSnoc` | Queue.cpp:564-568 | what is put since the opening is numbered on from the next identifier found |
| `QueueSpec.SmallPutIsSafe` | Queue.cpp:479-514 | in a queue of items of a third of the ring or less another such item is safe to put |
| `QueueSpec.PutKeepsSmall` | Queue.cpp:580-603 | a Put of such an item keeps it such a queue |
| `QueueSpec.SliceKeepsSmall` | Queue.cpp:244-278 | so does opening what a save or a crash left of one |
| `QueueSpec.PutKeepsKnown` | Queue.cpp:580-603 | a cursor handed out before a Put still names a retained item or one older than all retained |
| `QueueSpec.KnownIsNotForged` | Queue.cpp:638-651 | a cursor handed out by the queue is never mistaken for another item |
| `QueueSpec.ReopenedKeepsCursors` | Queue.cpp:244-278 | a queue opened on the saved items of another one knows all cursors that one had handed out |
| `QueueSpec.DeliveredIsKnown` | Queue.cpp:684-687 | the cursor Get returns names a retained item and is not the HEAD cursor |
| `QueueSpec.ReaderProgress` | Queue.cpp:632-690 | the item read after a known cursor is the first retained one with a larger identifier |
| `QueueSpec.NotRetained` | Queue.cpp:638-651 | when a check on the cursor fails the cursor's item is not retained, so reading goes on at the tail |
| `QueueSpec.AfterItem` | Queue.cpp:643-655 | when all checks succeed the cursor's item is retained and reading goes on behind it |
| `QueueSpec.AtItem` | Queue.cpp:674-690 | at the position of item n, Get's checks and copies yield that item, a timeout only at the head, and an error only for a small buffer |
| `QueueSpec.SaveReady` | Queue.cpp:355-407 | the planned writes are in range and bring over exactly the unsaved number of bytes |
| `QueueSpec.SaveDone` | Queue.cpp:355-412 | a save keeps the invariant, with every retained item on file |
| `QueueSpec.CrashSafety` | Queue.cpp:327-415 | whatever a crash in a save leaves recovers to a contiguous run of committed items: the old file's, the saved prefix or all that is retained |
| `QueueSpec.UnsavedCount` | Queue.cpp:418-432 | the saved size never exceeds the used size, and equals it exactly when every retained item is on file |
| `QueueSpec.StartEmpty` | Queue.cpp:226-248 | the header and image written for a new queue recover to an empty queue |
| `QueueSpec.ResetWorks` | Queue.cpp:434-459 | a reset keeps the invariant with no items, and cursors handed out before stay known |
| `QueueSpec.OpenEmptySound` | Queue.cpp:207-248 | opening a file of another version, or with its tail at its head, gives an empty valid queue |
| `QueueSpec.OpenFilledSound` | Queue.cpp:244-278 | loading the used part of the image and marking the head gives a valid queue with the recovered items |
| `Queue.Queue.constructor` | Queue.cpp:126-135 | a closed queue of zero bytes, of at least the minimum size |
| `Queue.Queue.DropOldest` | Queue.cpp:506-514 | the eviction loop drops exactly the items with which as the oldest there would be too little room, and ends with room made, or goes on past the head with every item dropped |
| `Queue.Queue.MakeRoom` | Queue.cpp:504-532 | eviction with the saved size corrected keeps the invariant; the tail passes the head exactly when PutSafe fails and the item does not fit in front of the head |
| `Queue.Queue.AllocateLocked` | Queue.cpp:496-557 | too long a message changes nothing; otherwise a block is reserved behind the newest item or at the front, with the rest of the ring as it was; or the tail has passed the head |
| `Queue.Queue.CommitLocked` | Queue.cpp:559-578 | the reserved block becomes an item with the next identifier, followed by a HEAD block |
| `Queue.Queue.Fill` | Queue.cpp:600-602 | after the copy and the commit the log and the history end with the item |
| `Queue.Queue.Put` | Queue.cpp:580-603 | every outcome and when it occurs. Where PutSafe holds the log is what was there less the items that leave too little room as the oldest, and no others, plus the item in its place, and old cursors stay known; where it fails the item is stored with the tail on the WRAP block, or the tail passes the head; small items are always stored safely; on refusal nothing changes |
| `Queue.Queue.TwoPutsStrand` | Queue.cpp:479-578 | two Puts into a new queue of the smallest size after which the tail rests on a WRAP block, both returning OK |
| `Queue.Queue.TwoPutsLoseTheTail` | Queue.cpp:506-514 | two Puts into a new queue of the smallest size of which the second sends the tail past the head |
| `Queue.Queue.HaveData` | Queue.cpp:606-615 | past a WRAP block, data is there exactly when the position is not the head |
| `Queue.Queue.Locate` | Queue.cpp:632-655 | the position and the item a reader goes on from, for every kind of cursor |
| `Queue.Queue.Get` | Queue.cpp:617-690 | the item after the cursor's, the oldest retained one when the cursor's is gone, a timeout exactly when there is no later item; closed, empty and small buffers as the code reports them |
| `Queue.Queue.UnsavedRegions` | Queue.cpp:355-392 | the three branches compute the regions and the first header's head |
| `Queue.Queue.WritePlan` | Queue.cpp:396-407 | the writes in order bring the file to the plan's result, and count its bytes |
| `Queue.Queue.SaveLocked` | Queue.cpp:327-415 | afterwards the file recovers to exactly the retained items and the next identifier |
| `Queue.Queue.UnsavedSize` | Queue.cpp:418-432 | the used bytes not on file; zero if and only if every retained item is on file |
| `Queue.Queue.Save` | Queue.cpp:306-318 | an open queue is saved, a closed one is left alone |
| `Queue.Queue.Close` | Queue.cpp:284-304 | the queue is closed with its items; on request the file recovers to them |
| `Queue.Queue.Reset` | Queue.cpp:434-459 | no items in memory or on file, the next identifier kept, old cursors still known |
| `Queue.Queue.Open` | Queue.cpp:145-278 | what the file recovers to is what is retained, with its next identifier, whatever save or crash left the file, and cursors handed out before a complete save stay known; foreign files are refused and an open queue is left alone |
| `Queue.Queue.LoadRegions` | Queue.cpp:249-267 | the used part of the image comes into memory |
| `QueueRuns.PutKeepsDenseIff` | Queue.cpp:564-568 | after a Put the retained identifiers are consecutive up to the next one if and only if those of the items it left were |
| `QueueRuns.DenseIff` | Queue.cpp:244-278 | in every state they are if and only if, of the items found at the opening, those still retained run up to the next identifier found |
| `QueueRuns.CrashKeepsDenseIff` | Queue.cpp:396-407 | what a crash behind the first header leaves is consecutive up to its next identifier if and only if nothing or everything was saved |
| `QueueRuns.PartlySavedCrash` | Queue.cpp:396-407 | every partly saved queue has such a crash, after which it is not |
| `QueueRuns.PutDropsNoMoreThanNeeded` | Queue.cpp:506-514 | no item from the first that could have been the oldest on is dropped |
| `QueueRuns.PutDropsExactly` | Queue.cpp:479-557 | in bytes: each dropped item as the oldest would have left less than the size and three headers behind the head, or two when the room is not bounded by it; the first that leaves enough stays; and the new one goes behind the head unless the ring ends too soon |
| `QueueRuns.GetHandsBack` | Queue.cpp:617-690 | a reader at the tail gets the oldest item, one at the head or beyond waits, one whose item is retained gets the next, one whose item is gone the oldest; with its cursor, if the buffer is large enough |
| `QueueRuns.RunCursorsKnown` | Queue.cpp:617-690 | every cursor of a chaining reader is known at the moment of its read |
| `QueueRuns.ReaderIncreases` | Queue.cpp:617-690 | over a whole run a reader sees strictly increasing identifiers |
| `QueueRuns.ReaderMissesOnlyEvicted` | Queue.cpp:617-690 | an identifier between two reads was read, or was not retained at the read that skipped it |
| `AckQueue.AddKeepsConsistent` | Output.cpp:47-89 | adding, setting the auto cursor and removing keep every listed event pointing at its own entry, duplicates included |
| `AckQueue.AckKeepsConsistent` | Output.cpp:109-147 | an acknowledgement, of whatever event, keeps every listed event pointing at its own entry |
| `AckQueue.AckReturnsBelowOutstanding` | Output.cpp:109-147 | an acknowledgement removes exactly the entries up to its own, and the cursor returned is older than all that stay |
| `AckQueue.AckReturnsAutoIff` | Output.cpp:131-144 | the auto cursor is returned, and no longer pending, if and only if there is one, newer than the acknowledged entry and older than all that stay; otherwise the entry's own cursor, and none for an unlisted event |
| `AckQueue.AckLeavesTheRest` | Output.cpp:109-129 | the entries behind the acknowledged one stay as they were, and so do the events without an entry up to it |
| `AckQueue.AckAfterAdd` | Output.cpp:47-57 | an event acknowledged right after its Add gives back its own cursor, or the first one when it was listed before |
| `AckQueue.RemoveUndoesAdd` | Output.cpp:78-89 | Remove undoes Add |
| `AckQueue.AutoFollowsLastAck` | Output.cpp:131-144 | an auto cursor is returned as soon as everything entered before it has been acknowledged |
| `AckQueue.First` | Output.cpp:122-122 | the first entry of the ordered map |
| `AckQueue.AckQueue.constructor` | Output.cpp:39-39 | an empty open queue |
| `AckQueue.AckQueue.Add` | Output.cpp:47-57 | both maps after an Add, the old sequence number of a listed event being kept; refused exactly when full and open |
| `AckQueue.AckQueue.SetAutoCursor` | Output.cpp:59-65 | the auto cursor takes the next sequence number |
| `AckQueue.AckQueue.GetAutoCursor` | Output.cpp:67-76 | the auto cursor is returned once |
| `AckQueue.AckQueue.Remove` | Output.cpp:78-89 | a listed event goes with its entry, an unlisted one changes nothing |
| `AckQueue.AckQueue.Reset` | Output.cpp:91-100 | empty, open, and counting from zero again |
| `AckQueue.AckQueue.Ack` | Output.cpp:109-147 | the tables and the cursor of the specification, for every event identifier |
| `AckQueue.AckQueue.ClearUpTo` | Output.cpp:121-128 | the loop removes exactly the entries up to the sequence number and the events they belong to, and ends with that entry's cursor |
| `Delivery.NextKeepsInv` | Output.cpp:266-284 | every step keeps the invariant: what is saved, received or on file has nothing undelivered before it |
| `Delivery.PassCovers` | Output.cpp:452-477 | the items the loop jumps over are gone from the ring, or were never read and are passed by the first reader at the head |
| `DeliveryQueue.GetRefines` | Queue.cpp:617-690 | the item the ring's Get reads behind a cursor it handed out is the one the delivery steps read from their set of identifiers |
| `DeliveryQueue.NothingToGet` | Queue.cpp:617-690 | and when Get has nothing to read there, the delivery steps have nothing either |
| `DeliveryQueue.PutRefines` | Queue.cpp:580-603 | a Put is a number of evictions of the oldest identifier and then one put of the next |
| `Delivery.RemoveKeepsAccount` | Output.cpp:494-500 | undoing the Add of an event that was not sent leaves every other item accounted for |
| `Delivery.ReadyAutoIsCovered` | Output.cpp:131-144 | an auto cursor older than everything outstanding has nothing undelivered before it |
| `Delivery.RunKeepsInv` | Output.cpp:440-518 | the invariant holds in every state of every run in which none of the four things happens that can lose an item |
| `Delivery.AtLeastOnce` | Output.cpp:440-518 | in every such run an item at or before the saved cursor or the cursor file has been received, was filtered or NOOP, was gone from the ring when its turn came, or was put before the first connection |
| `Delivery.HeadPassesOnlyUnread` | Output.cpp:452-477 | the last of these are items no loop has ever read, passed before anything was read |
| `Delivery.ExitIsSafeIff` | Output.cpp:277-280 | saving the pending auto cursor at a disconnect is safe if and only if every older entry is of a settled item |
| `Delivery.AutoCursorCanLose` | Output.cpp:277-280 | a reachable state whose saved cursor passes an item that was sent and never received, by the auto cursor saved when the connection is lost |
| `Delivery.DuplicateIdsCanLose` | Output.cpp:47-57 | for any two items with the same event identifier, a reachable state whose saved cursor passes the second, never received, when the receiver acknowledges the first twice |
| `Delivery.OneAckEachCanLose` | Output.cpp:109-147 | the same for a receiver that acknowledges each receipt once, with another item between the two |
| `Delivery.HeadAgainCanLose` | Output.cpp:440-444 | a reachable state in which an item that was sent, lost with its connection and is still in the ring lies before the saved cursor, because the next connection started at the head again |
| `Delivery.RollbackCanLose` | Queue.cpp:638-651 | a reachable state in which a queue that came back with fewer items than the cursor file knows has an item before the saved cursor that no loop will read |
| `Delivery.NeverLosesIff` | Output.cpp:440-518 | no reachable state ever has an unsettled item at or before the saved cursor if and only if identifiers are distinct, auto cursors are saved only when nothing as old is outstanding, no connection starts at the head after something was read, and the queue comes back knowing the cursor on file |
| `Names.SortByName` | Event.cpp:405-412 | a permutation of the offsets, sorted by the names they point at |
| `Names.FindName` | Event.cpp:640-661 | binary search over sorted offsets finds a name exactly when it is there |
| `Names.LessIff` | Event.cpp:405-412 | the order of names is that of their bytes, a proper prefix coming first |
| `EventFormat.FieldRoundTrip` | Event.cpp:431-490 | a written field reads back as itself if and only if its sizes and type fit in 16 bits |
| `EventFormat.FieldsRoundTrip` | Event.cpp:568-587 | the fields of a record read back in order if and only if they all fit |
| `EventFormat.RecordRoundTrip` | Event.cpp:593-635 | a record's type, name, text and fields read back if and only if its fields fit |
| `EventFormat.RecordsRoundTrip` | Event.cpp:723-742 | the records of an event read back in order if and only if all fields fit |
| `EventFormat.EventRoundTrip` | Event.cpp:746-800 | a whole event reads back if and only if all its fields fit |
| `EventFormat.TruncatedField` | Event.cpp:468-482 | a longer value never reads back |
| `EventFormat.IndexedField` | Event.cpp:484-486 | an index entry leads to its field's name |
| `EventFormat.FieldByName` | Event.cpp:640-669 | the lookup succeeds if and only if some field has the name up to its first NUL, and then returns such a field |
| `EventFormat.Validate` | Event.cpp:801-846 | zero is returned exactly when all the checks on header, records and fields hold; otherwise 1 or 2 for a short header or index, or what is wrong with the first record that fails |
| `EventFormat.ValidateRecord` | Event.cpp:809-843 | zero exactly when the checks of one record and its fields hold; otherwise what is wrong with its header, or with its first field that fails |
| `EventFormat.FinishedIsSane` | Event.cpp:801-846 | a finished event below 4 GiB validates |
| `EventFormat.EventSame` | Event.cpp:63-240 | an event depends only on its own header, index and record bytes |
| `EventBuilder.BegunReads` | Event.cpp:246-274 | a begun event has its header values, process identifier -1, and the flags the reused buffer happened to hold |
| `EventBuilder.BeginStep` | Event.cpp:347-394 | beginning a record keeps the finished ones and opens a record without fields |
| `EventBuilder.AddStep` | Event.cpp:431-490 | adding a field keeps all that was built and appends the field |
| `EventBuilder.EndStep` | Event.cpp:405-417 | writing the sorted index finishes the record and keeps the others |
| `EventBuilder.FinishedReads` | Event.cpp:308-322 | the committed bytes are the built event: valid, of version 1, read back if and only if all fields fit, with the right size word if and only if below 2^24 bytes |
| `EventBuilder.Builder.constructor` | EventQueue.h:24-24 | nothing started, an empty buffer |
| `EventBuilder.Builder.Allocate` | EventQueue.h:26-35 | the buffer only grows, with zeros behind what it held |
| `EventBuilder.Builder.BeginEvent` | Event.cpp:246-274 | an event with the given header begins, or the error for one already started or without records |
| `EventBuilder.Builder.SetEventFlags` | Event.cpp:276-282 | only the flags change |
| `EventBuilder.Builder.SetEventPid` | Event.cpp:292-298 | only the process identifier changes |
| `EventBuilder.Builder.BeginRecord` | Event.cpp:347-394 | a record is opened, or one of the errors in the code's order, changing nothing that was built |
| `EventBuilder.Builder.AddField` | Event.cpp:431-490 | the open record gains the field, or one of the errors in the code's order |
| `EventBuilder.Builder.EndRecord` | Event.cpp:396-418 | the record joins the event exactly when it has as many fields as declared |
| `EventBuilder.Builder.EndEvent` | Event.cpp:308-322 | the bytes committed read back as everything built since BeginEvent, when the record count is the one declared |
| `EventBuilder.Builder.CancelEvent` | Event.cpp:324-334 | no event is open any more; the size word is zero and the rest of the buffer as it was |
| `RawEvent.StoredKeepsBooks` | RawEventAccumulator.cpp:22-66 | every record keeps the books: sizes are sums over what is kept, at most 11 extra EXECVE records in order of arrival with the latest four unbroken, every other one counted as dropped by type, the first SYSCALL found |
| `RawEvent.ExtrasKept` | RawEventAccumulator.cpp:35-50 | the extra EXECVE records are a subsequence of the arrivals ending in the latest ones |
| `RawEvent.FaultIsReachable` | RawEventAccumulator.cpp:36-45 | thirteen records of legal size after which one more makes the eviction index an empty vector |
| `RawEvent.FaultIsSecondExecve` | RawEventAccumulator.cpp:36-45 | that happens if and only if the second EXECVE record of an event breaks a size limit |
| `RawEvent.LatestExecveIsKept` | RawEventAccumulator.cpp:29-52 | an EXECVE record just added is always the last one kept |
| `RawEvent.OutsAreKept` | RawEventAccumulator.cpp:81-127 | the emitted records are exactly the kept ones, each once |
| `RawEvent.DeclaredIsRight` | RawEventAccumulator.cpp:72-75 | the number declared to BeginEvent is the number emitted, so that EndEvent's count check passes, if and only if that number fits in 16 bits |
| `RawEvent.ParsedEventsFit` | RawEventAccumulator.cpp:54-60 | it does fit for records of at least two bytes |
| `RawEventRuns.OtherIsLostIff` | RawEventAccumulator.cpp:54-63 | in every history of an event, a record that is not EXECVE is lost if and only if what was kept left less than its size of the 112K, or more than twelve EXECVE records had come |
| `RawEventRuns.FirstExecveStays` | RawEventAccumulator.cpp:29-34 | the first EXECVE record is always kept |
| `RawEventRuns.LaterExecveStays` | RawEventAccumulator.cpp:35-51 | so is every later one; for it an earlier one is lost, the oldest but the latest three, if and only if it would break one of the three limits |
| `RawEventRuns.RecordsAreStaying` | RawEventAccumulator.cpp:22-66 | at any time an event has exactly the records that found room when they came, in their order |
| `RawEventRuns.NothingIsLost` | RawEventAccumulator.cpp:22-66 | an event whose records together keep to the limits has all of them, in their order, and has dropped none |
| `RawEventRuns.LimitsGather` | RawEventAccumulator.cpp:22-66 | and no such event faults |
| `RawEventRuns.OutsInOrder` | RawEventAccumulator.cpp:81-127 | the first SYSCALL record is sent first, the others in the order of their arrival with the later EXECVE records behind the first, and a report last if and only if something was dropped |
| `RawEvent.RawEvent.constructor` | RawEventAccumulator.h:34-34 | an event without records |
| `RawEvent.RawEvent.AddRecord` | RawEventAccumulator.cpp:22-66 | the new state is that of the specification; the event is complete exactly for EOE and for types that come alone |
| `RawEvent.RawEvent.AddExecve` | RawEventAccumulator.cpp:29-52 | the EXECVE branch with its eviction |
| `RawEvent.RawEvent.AddEvent` | RawEventAccumulator.cpp:68-129 | the SYSCALL record first, the others in order with the extra EXECVE records behind the first, then the drop report; nothing for an event without records |
| `Cache.Unlink` | Cache.h:139-151 | taking a node out of the chain joins its neighbours and leaves the others alone |
| `Cache.LinkNewest` | Cache.h:159-166 | putting a node in front of the newest sentinel makes it the last of the chain |
| `Cache.DropAt` | Cache.h:153-157 | removing a key from a list with distinct keys removes exactly its place |
| `Cache.CountKeys` | Cache.h:47-48 | the map has as many entries as the list |
| `Cache.Cache.constructor` | Cache.h:35-40 | an empty cache with linked sentinels |
| `Cache.Cache.Add` | Cache.h:50-63 | the key becomes the newest entry, with the new value whether it was known or not |
| `Cache.Cache.Remove` | Cache.h:65-72 | the key's entry goes from the map and the list |
| `Cache.Cache.Touch` | Cache.h:74-81 | the key's entry becomes the newest, with the time of the touch |
| `Cache.Cache.Find` | Cache.h:83-86 | the value of the key, if it has an entry |
| `Cache.Cache.Oldest` | Cache.h:98-101 | the first of the list |
| `Cache.Cache.RemoveOldest` | Cache.h:107-110 | the first of the list goes |
| `Cache.Cache.LogInOrder` | Cache.h:50-166 | the list has each key once, ordered by the time of the last touch |
| `Accumulator.PlacedKeepsBooks` | RawEventAccumulator.cpp:142-160 | whatever a record does to its event, what is cached and what was sent are together exactly the accepted records |
| `Accumulator.Conserved` | RawEventAccumulator.cpp:131-193 | every accepted record is in exactly one of an emitted event, a cached event or the lost ones, and the drop counters count the lost ones |
| `Accumulator.CommittedIsKept` | RawEventAccumulator.cpp:68-129 | the committed events hold exactly the kept records of the events sent |
| `Accumulator.RawEventAccumulator.constructor` | RawEventAccumulator.h:57-57 | nothing cached, sent or accepted |
| `Accumulator.RawEventAccumulator.AddRecord` | RawEventAccumulator.cpp:131-171 | the record goes to its event, which is sent when complete; then the oldest events are sent until 256 remain; empty records are ignored |
| `Accumulator.RawEventAccumulator.AddToKnown` | RawEventAccumulator.cpp:144-151 | a record of a cached event: sent and removed, or moved to the newest end |
| `Accumulator.RawEventAccumulator.AddToNew` | RawEventAccumulator.cpp:152-160 | a record of a new event: sent at once, or cached |
| `Accumulator.RawEventAccumulator.Trim` | RawEventAccumulator.cpp:161-169 | the oldest events are sent until the limit is met |
| `Accumulator.RawEventAccumulator.SendOldest` | RawEventAccumulator.cpp:162-167 | the oldest cached event is sent and removed |
| `Accumulator.RawEventAccumulator.Flush` | RawEventAccumulator.cpp:173-193 | exactly the events not touched for longer than the given time are sent, oldest first; all of them when it is not positive |
| `AccumulatorRuns.OneEvent` | RawEventAccumulator.cpp:131-171 | over every run: the records of an identifier are sent in one event, all and in order, when its EOE record comes and not before, unless trimmed or flushed; none is lost within the limits |
| `AccumulatorRuns.SentAlone` | RawEventAccumulator.cpp:144-155 | a record of a type that comes alone is sent at once, with what its identifier has in the cache |
| `AccumulatorRuns.CompletesIff` | RecordType.h:262-264 | the types that complete an event |
| `AccumulatorRuns.RecordTouches` | RawEventAccumulator.cpp:144-160 | a record makes its event the newest and leaves the others in their order, with their times and records |
| `AccumulatorRuns.TrimmedIs` | RawEventAccumulator.cpp:161-169 | trimming sends exactly the oldest events beyond 256 |
| `AccumulatorRuns.ExpiredIff` | RawEventAccumulator.cpp:173-184 | an event has expired if and only if its last touch is a whole millisecond more than the limit ago |
| `AuditRules.CheckKeys` | AuditRules.cpp:1268-1290 | the key string is within the limit, an empty key counting for nothing, whatever the order of the set |
| `AuditRules.MergeRule` | AuditRules.cpp:1942-1962 | the merged rule, or the failure when the keys grow too long |
| `AuditRules.MergeInto` | AuditRules.cpp:2019-2029 | the loop with its index map computes the merge |
| `AuditRules.MergeRules` | AuditRules.cpp:2015-2043 | the two loops compute the merge of the joined list |
| `AuditRules.DiffRules` | AuditRules.cpp:2049-2072 | the loop over indexes computes the difference by the first rule of each key, which DiffIsExact describes |
| `AuditRules.DiffIsExact` | AuditRules.cpp:2049-2072 | for each desired rule in turn: the rule itself when no actual one has its key; nothing when the first that has it lacks nothing; otherwise that rule with exactly the permissions, or system calls, that the desired one has and it lacks |
| `AuditRules.MissingIsDifference` | AuditRules.cpp:1964-1994 | one rule covers another if and only if it lacks nothing the other has, and the difference is what it lacks |
| `AuditRules.SameKeyIff` | AuditRules.cpp:877-908 | two rules have one merge key if and only if both are watches of the same fields, or neither is and they agree in mode, action, list, arch and fields |
| `AuditRules.CombinedIsUnion` | AuditRules.cpp:1942-1962 | a merged rule has what either has: permissions for a watch, system calls for another rule, and the keys; and nothing else |
| `AuditRules.KeysFitIff` | AuditRules.cpp:1268-1290 | keys fit if and only if the string joined from the non-empty ones is at most 256 characters long |
| `AuditRules.CombinedKeepsKey` | AuditRules.cpp:1942-1962 | merging keeps the merge key of a rule if and only if the two do not flip, that is, the rule does not become a watch by it |
| `AuditRules.MergeDistinct` | AuditRules.cpp:2015-2043 | merging rules of different keys changes nothing |
| `AuditRules.MergeGathers` | AuditRules.cpp:2015-2043 | the merge has one rule for each merge key, with the keys of all rules that have it, and the union of the permissions of watches or of the system calls of others, which keep the permissions of the first; it turns into a watch exactly when the first lacks only system calls to be one and all of them come together |
| `AuditRules.MergeIdempotentIff` | AuditRules.cpp:2015-2043 | merging a merged list gives the same list if and only if no rule that turned into a watch meets another of the same fields |
| `AuditRules.MergeCanMeet` | AuditRules.cpp:2015-2043 | three rules whose merge changes when it is merged again |
| `AuditRules.MergeWithMissing` | AuditRules.cpp:1983-1994 | an actual rule merged with its difference covers the desired one and keeps its key, unless it flips |
| `AuditRules.MergeFlips` | AuditRules.cpp:989-1007 | a flip makes a watch of the difference or of the merged rule |
| `AuditRules.FlipIsPossible` | AuditRules.cpp:989-1007 | a pair of rules that flips |
| `AuditRules.ConvergesIff` | AuditRules.cpp:2049-2072 | after merging the difference into actual nothing differs from desired if and only if no pair flips |
| `PackedRule.AddKeepsConsistent` | AuditRules.cpp:1352-1362 | an added string field has the offset that recomputation gives, and adds exactly its entry |
| `PackedRule.RemoveKeepsConsistent` | AuditRules.cpp:1364-1397 | removing a string field leaves recomputable offsets and every other entry with its bytes |
| `PackedRule.OffsetsAreDetermined` | AuditRules.cpp:1450-1487 | consistent offsets are the only ones for a table and a buffer |
| `PackedRule.WithKeysKeepsOthers` | AuditRules.cpp:1291-1300 | setting keys changes no other field, and replaces the first key field |
| `PackedRule.SplitJoin` | StringUtils.cpp:409-425 | splitting joined non-empty separator-free keys gives them back in order |
| `PackedRule.ReadsBackIff` | AuditRules.cpp:1233-1301 | a set of keys written and read is the same if and only if no key is empty or contains the separator |
| `PackedRule.GetAfterSet` | AuditRules.cpp:1233-1301 | GetKeys after SetKeys on a rule with at most one key field returns the set under exactly that condition |
| `PackedRule.AuditRule.AddStrField` | AuditRules.cpp:1340-1362 | the entries gain the field, or the table is full and nothing changes |
| `PackedRule.AuditRule.RemoveField` | AuditRules.cpp:1364-1397 | the entries lose exactly that field |
| `PackedRule.AuditRule.MoveDown` | AuditRules.cpp:1369-1377 | the bytes behind the removed ones move down, the ones in front stay |
| `PackedRule.AuditRule.ShiftColumns` | AuditRules.cpp:1381-1390 | the columns behind the removed field move down by one, with their offsets corrected |
| `PackedRule.AuditRule.FillValueOffsets` | AuditRules.cpp:1450-1487 | offsets become consistent, and stay what they are when they were |
| `PackedRule.AuditRule.GetKeys` | AuditRules.cpp:1233-1247 | the parts of all key fields |
| `PackedRule.AuditRule.SetKeys` | AuditRules.cpp:1268-1301 | the entries with the sorted joined keys; too long keys change nothing |
| `PackedRule.AuditRule.FindKey` | AuditRules.cpp:1291-1297 | the first key field |
| `PackedRule.SplitText` | StringUtils.cpp:409-425 | the loop computes the split, runs of separators counting as one |
| `PackedRule.SortKeys` | AuditRules.cpp:1271-1279 | the set as a strictly sorted list |
| `BashEscape.Scan` | StringUtils.cpp:299-335 | the size up to the first NUL and the form the characters call for |
| `BashEscape.BashEscapeString` | StringUtils.cpp:299-390 | what is appended is the escaped text up to the first NUL, and its length is returned |
| `BashEscape.CodeReads` | StringUtils.cpp:365-381 | a shell reads the code of a character, in the form it was chosen for, as that character |
| `BashEscape.KeptReads` | StringUtils.cpp:353-381 | a backslash in the $'' form in front of what begins no escape sequence is read as itself |
| `BashEscape.EscapedReads` | StringUtils.cpp:299-390 | a shell reads the escaped text of a NUL-free string as that string, whatever follows, when the form is not the $'' one or none of its backslashes begins an escape sequence there |
| `BashForms.LeastForm` | StringUtils.cpp:280-352 | each form is used if and only if no lesser one will do: $'' for bytes that are not printable ASCII or for ! with a single quote, single quotes for other !, nothing when a shell reads the string as itself, backslashes when it reads it back with them, double quotes when neither |
| `BashForms.UnchangedIff` | StringUtils.cpp:335-339 | a string of printable ASCII without ! comes out unchanged if and only if a shell reads it as itself |
| `BashForms.ReadsItselfIff` | StringUtils.cpp:195-262 | a shell reads a string as itself if and only if no character in it means anything |
| `BashForms.BackslashIsNeeded` | StringUtils.cpp:365-381 | a character gets a backslash if and only if a shell would not always read it as itself without |
| `BashForms.AnsiCodeIs` | StringUtils.cpp:263-279 | which characters the $'' form writes as themselves, with a letter, or in hexadecimal |
| `BashForms.NothingIsQuotes` | StringUtils.cpp:299-390 | the empty string is written as two single quotes |
| `BashEscape.ConvertRawCmdline` | ExecveConverter.cpp:213-233 | the loop ends and gives the escaped pieces separated by spaces |
| `BashEscape.LineReads` | ExecveConverter.cpp:213-233 | a shell splits that line into the pieces |
| `BashEscape.PiecesOf` | ExecveConverter.cpp:219-231 | the pieces of NUL-terminated arguments are the first and the later non-empty ones |
| `BashEscape.CmdlineRoundTrip` | ExecveConverter.cpp:213-233 | a shell splits the line into the original arguments if and only if none but the first is empty |
| `BashInverse.NeverLonger` | StringUtils.cpp:353-381 | no reading of the $'' form, however it goes astray, gives back more than went in |
| `BashInverse.BackslashIsLost` | StringUtils.cpp:353-381 | a text in the $'' form that begins with a backslash and completes an escape sequence is not read back, however it goes on |
| `BashInverse.AnsiReadsIff` | StringUtils.cpp:353-385 | a string in the $'' form reads back if and only if none of its backslashes begins an escape sequence there |
| `BashInverse.RoundTripIff` | StringUtils.cpp:299-390 | unquoting the escaped text of a NUL-free string gives it back if and only if it is not both in the $'' form and contains a backslash that begins an escape sequence there |
| `BashInverse.BackslashExample` | StringUtils.cpp:263-279 | a string of three bytes that does not come back, and one that does although it has a backslash |
| `Netlink.PickSequence` | Netlink.cpp:87-94 | the loop ends with the first non-zero number that is neither live nor recently known |
| `Netlink.AheadDistinct` | Netlink.cpp:90-93 | no number comes twice in one round of the counter |
| `Netlink.RequestTable.constructor` | Netlink.h:34-34 | no requests, the counter at one |
| `Netlink.RequestTable.Register` | Netlink.cpp:76-117 | a request is entered under an unused number, which the message buffer then holds, unless the thread is stopping |
| `Netlink.RequestTable.Sent` | Netlink.cpp:119-134 | after sendto the sender waits; or the entry with the number in the buffer goes, whosever it is, and the error is returned |
| `Netlink.RequestTable.Arrive` | Netlink.cpp:323-323 | a message that comes in overwrites the number in the buffer |
| `Netlink.RequestTable.Lookup` | Netlink.cpp:366-385 | the request of the number, made younger, with its done flag |
| `Netlink.RequestTable.FnEnded` | Netlink.cpp:399-428 | the request completes when its function said no, or with the exception, and then leaves the table |
| `Netlink.RequestTable.Close` | Netlink.cpp:430-457 | which messages complete the request, with what, and remove it, and which leave it for more |
| `Netlink.RequestTable.CloseReply` | Netlink.cpp:437-443 | a promise already completed is not completed again |
| `Netlink.RequestTable.Flush` | Netlink.cpp:225-269 | the table after a flush, with every expired request completed once |
| `Netlink.RequestTable.FlushReplies` | Netlink.cpp:232-257 | the first loop, in any order of the map |
| `Netlink.RequestTable.FlushKnown` | Netlink.cpp:259-268 | exactly the known numbers older than ten seconds are forgotten, or all of them at the exit |
| `NetlinkRuns.RegisterKeepsInvIff` | Netlink.cpp:87-115 | taking a number keeps the invariant if and only if the message being handled is not for a request with that number |
| `NetlinkRuns.FailureKeepsInvIff` | Netlink.cpp:125-132 | a failing sendto keeps the invariant if and only if the number in the buffer is not that of another request somebody waits for |
| `NetlinkRuns.NextKeepsInv` | Netlink.cpp:360-458 | every step but these two failing ones, in every interleaving, keeps the invariant |
| `NetlinkRuns.NextKeepsCore` | Netlink.cpp:360-458 | every step at all keeps the table indexed and the completions counted |
| `NetlinkRuns.RunKeepsInv` | Netlink.cpp:360-458 | the invariant holds in every state of every run without these two steps |
| `NetlinkRuns.AtMostOnce` | Netlink.cpp:360-458 | no promise is completed twice, in any run |
| `NetlinkRuns.LiveNumbersDiffer` | Netlink.cpp:87-115 | while neither happens, requests still to be completed have distinct non-zero numbers and lie in the table |
| `NetlinkRuns.NobodyWaitsForEver` | Netlink.cpp:225-269 | while neither happens, once the thread has ended every request that was sent has been completed exactly once |
| `NetlinkAnswers.StepTells` | Netlink.cpp:360-458 | what each step tells a sender: the code of an error reply, unless it is 0 and a function is to answer; 0 for NLMSG_DONE, a last data message or a function that said no; the exception of one that threw; -ECANCELED at the exit and -ETIMEDOUT after a second; and nothing else |
| `NetlinkAnswers.RunTells` | Netlink.cpp:360-458 | in every run, what a sender has been told is what exactly one such step told it |
| `NetlinkAnswers.MoreChangesNothing` | Netlink.cpp:430-457 | a message with more to come changes nothing |
| `NetlinkAnswers.CalledIff` | Netlink.cpp:399-401 | the function is called if and only if a data message comes for an unanswered request that has one |
| `NetlinkAnswers.EntryStaysIff` | Netlink.cpp:125-132 | an entry stays in the table until its number is in the buffer of a failing sendto, a message ends it, its function throws, or a flush finds it older than a second |
| `NetlinkAnswers.AgeIs` | Netlink.cpp:366-376 | a request's age starts anew with every message that arrives for it, and with nothing else |
| `NetlinkAnswers.KnownIs` | Netlink.cpp:259-268 | since when a number counts as known, and when it stops to |
| `NetlinkRuns.LapLoses` | Netlink.cpp:87-94 | a reachable state in which the counter, having gone round once while a message was handled, has left a request waiting outside the table |
| `NetlinkRuns.ForeignErasureLoses` | Netlink.cpp:125-132 | a reachable state in which one sender's failure has erased the entry of another, whose message went out; the counter is at three |
| `NetlinkRuns.NobodyLostIff` | Netlink.cpp:76-134 | no reachable state has a request waiting outside the table if and only if neither happens |
| `NetlinkRuns.LostStaysLost` | Netlink.cpp:225-269 | a request that waits outside the table is never completed, by any step |

## Left out

- Queue.Queue.SaveLocked: one step; Put calls in the stretch where the lock is released, and the `_save_active` flag that keeps a second save out, are not modelled.
- Queue.Queue.Get: without waiting; timeouts, Interrupt and being closed while waiting are not modelled. A cursor that no queue handed out, at whose position the bytes happen to look like its item, is excluded by its precondition; KnownIsNotForged shows that cursors of this queue never are.
- Queue.Queue.Put: requires that the next identifier does not reach 2^64. Where the tail passes the head the model stops; what the loop goes on to read there, and any operation on a queue whose tail rests on a WRAP block or has passed the head, is not modelled. The copy for a block left in state UNCOMMITTED_PUT is not modelled: with Put in one step there is none.
- Queue.Queue.constructor: sizes are below 2^56, so that positions differ from the special cursors.
- Queue.Queue.Open: of a newly constructed queue and of a file that a queue wrote, whole or up to a crash; after a crash cursors of items that were never saved are not covered. Opening the same object again, corrupt files, sizes that differ between header and file, and queues without a path are not modelled.
- Queue.Queue.Reset: its write of the data area, which starts behind the area's beginning and reads past its end, is not modelled; the header write is.
- RingFile.CrashDuringSave: header writes are atomic and writes reach the disk in order.
- Bytes: little-endian words, as on the platforms the collector is built for.
- Delivery.AtLeastOnce: in ack mode, the other mode saving each cursor as it goes. The queue is its retained identifiers, with the event identifier each item carries; a reset of the queue by the loop, a timeout of Add and the output's stop are not separate steps. The cursor file holds what was last written. After a restart with fewer items the histories are of the items the queue still knows.
- AckQueue.AckQueue.Add: one look at the condition; waiting for it and the timeout are not modelled, nor is Wait.
- EventBuilder.Builder.BeginRecord: called without an open record and with room in the declared count, which the builder does not check; events stay below 4 GiB.
- EventBuilder.Builder.AddField: called with an open record, which the builder does not check; so is EndRecord.
- EventBuilder.Builder.EndEvent: the allocator's Commit succeeds; GetEventFlags, GetEventPid and GetFieldCount only read.
- EventFormat.Validate: reads outside the buffer of a corrupt event are a separate outcome; nothing is claimed about using an event that validates but was not built.
- Names.SortByName: the standard library's sort is an insertion sort here; what is stated is any sort's result.
- RawEvent.RawEvent.AddRecord: requires that the case FaultIsSecondExecve describes does not occur, since the source then has no defined behaviour. Records are their identifier, type and size.
- RawEvent.RawEvent.AddEvent: the builder's calls succeed, as the counts proved here and the limits of RawEventRecord let them.
- Accumulator.RawEventAccumulator.AddRecord: the clock is a parameter and does not go back; metrics, locks and logging are not modelled.
- AuditRules.MergeRule: a rule is its merge key's parts, permission field, system call mask and key set; text parsing, CanonicalText and the parts' spelling are not modelled, and a second permission field counts as part of the first. AddPerms on a rule without a permission field changes nothing, as in the source.
- AuditRules.DiffRules: its third parameter is not used by the source either.
- PackedRule.AuditRule.AddStrField: the string buffer has room, which the source does not check. Of numeric fields only their entries in the table occur.
- PackedRule.AuditRule.RemoveField: of a string field; SetKeys, the only caller in the source, passes a key field.
- PackedRule.AuditRule.FillValueOffsets: on a rule whose string lengths add up to its buffer length. IsDataValid, which checks only that they do not exceed the message, is not modelled.
- Shell: expansions, globs, tildes, comments and history are not modelled, a dollar sign or backquote outside single quotes making a reading fail; the locale is UTF-8, and characters of more than 31 bits are cut.
- BashEscape.ConvertRawCmdline: every argument ends with a NUL byte in CmdlineRoundTrip; the state machine that collects EXECVE pieces is not modelled.
- Netlink.RequestTable.Register: not all numbers are in use. Of the shared message buffer its number is modelled, as each call and each arrival leaves it; that a message may go out with another's payload is not. Messages with sequence number zero go to the default handler and touch no request.
- NetlinkRuns.RunKeepsInv: in runs without foreign erasures and laps, which NobodyLostIff shows to be needed.
- Decoding of hexadecimal fields, rule file sections, process and user tables, configuration, JSON, msgpack, fluent and syslog writers: lookups and formatting without state.
