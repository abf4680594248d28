# Verified models of the streaming server's runtime library

This project models the runtime library of the streaming server and the preference and HTTP layers that stand on it,
and proves what their code keeps in every call, every run or every interleaving. `dafny verify dfyconfig.toml` checks
all of it.

- **Task scheduler** (`TaskScheduler`, `SchedulerInvariant`, `SchedulerTheorems`, `SchedulerBehaviour`, `Atomic`): signalling calls and
  worker threads as an interleaved step system, any number of each. One step is one atomic operation, one queue
  operation, or one access to memory that only the acting thread may touch. The alive bit says who owns a task; no
  event is lost; a task is never queued or run twice and never deleted while it is linked; and over whole runs `GetEvents`,
  the thread choice, the queues and the timers do what they are for.
- **Containers** (`LinkedQueue`, `MinHeap`): the intrusive circular list and the array heap, updated in place.
- **File block cache** (`LeastRecentlyUsed`, `FileCache`, `FileSource`): the pool of buffers, the map from blocks to
  them and the copying loop. A cached read is a direct read, whatever happened before, and the map always holds the
  most recently used blocks.
- **XML** (`TextParser`, `XmlText`, `XmlRoundTrip`, `XmlReadable`, `XmlComments`, `XmlParser`, `XmlPrefs`): the cursor, the
  recursive parser, the pretty printer and the list of preference values. `Print` and `Read` are what the printer and the parser
  are proved to compute; the round trips are about these two, and `XmlComments` says what
  each piece of a text means to `Read`: comments, declarations, start tags in any spacing, end tags.
- **Response stream** (`Formatter`, `ResponseStream`): the growing buffer and the writes over a socket that may take
  any part of what it is offered.
- **Reference table** (`BitMask`, `HashTable`, `RefTable`): the chained hash table, its iterator, and the counted
  references in it.
- **Locks** (`RecursiveMutex`, `RecursiveMutexCalls`, `ReadWriteLock`): the recursive mutex over a plain one with condition waits, and the
  reader/writer lock, as step systems over any number of threads.
- **Codecs** (`UrlPath`, `UrlCodec`, `UrlEscapes`, `Base64`, `Base64Standard`, `Md5`): URL decoding with dot-segment stripping, Base64 (section 4 of
  RFC 4648), and streaming MD5 (RFC 1321) over an uninterpreted block transformation.

Objects that the code updates in place are classes whose ghost fields hold the value they stand for; `Valid()` ties the
two. Code that several threads run at once is a step system on values. Where the code does not do what its
documentation says, the model follows the code, and two members say so: one exactly when it does, the other one an
input on which it does not.

- `RecursiveMutex.WaitIsSoundAtDepthOne`, `WaitAtDepthTwoFails`
- `ReadWriteLock.SecondWriterIsAdmitted`, `ReaderBesideSecondWriter`
- `MinHeap.OrderAfterExtract`, `OrderLostExample`
- `UrlCodec.DecodeStripsPath`, `QueryBehindDotSegment`
- `UrlCodec.DecodeUndoesEncode`, `TabIsLost`
- `XmlPrefs.SetPrefValue`, `ShortListExample`
- `FileSource.OSFileSource.Read`, `WrappedReadExample`

Assumptions: the pool has short-task threads, and blocking pickers only where it has blocking threads; `GetEvents` is
called by a task's own `Run`; nobody signals a deleted task; a file's contents do not change and disk reads deliver
every byte there is; a reference keeps its id.

## Model

| member | source | states |
|---|---|---|
| Atomic.SubtractClearsExactly | CommonUtilitiesLib/atomic.cpp:39-42 | subtracting a set of bits that are set clears exactly these, without borrowing into another bit |
| Atomic.RetirableWord | CommonUtilitiesLib/Task.cpp:273-282 | the word compares equal to the bare alive bit exactly when the task is alive and nothing is pending |
| SchedulerInvariant.StepKeepsInv | CommonUtilitiesLib/Task.cpp:84-361 | every step of every thread keeps: each task has exactly one place or none, its alive bit and its owed events agree with that place |
| SchedulerInvariant.RunKeepsInv | CommonUtilitiesLib/Task.cpp:84-361 | the invariant holds in every state of every interleaving |
| SchedulerTheorems.AliveIffExactlyOneSite | CommonUtilitiesLib/Task.cpp:93-158 | an undeleted task is alive exactly when one signaller, queue slot, heap slot or worker has it; nothing has a deleted one |
| SchedulerTheorems.AssertsNeverFail | CommonUtilitiesLib/Task.cpp:195-314 | a task is never queued or parked twice, never run by two workers, and nothing else refers to it when it is deleted, not even a worker that has parked it and still writes its event word |
| SchedulerTheorems.CallsNeverStuck | CommonUtilitiesLib/Task.cpp:104-150 | the next step of a signalling call that owns a task is always possible: the thread it picks exists |
| SchedulerTheorems.CallsGetQueued | CommonUtilitiesLib/Task.cpp:104-150 | over any interleaving such a call has its task in a queue by its third own step |
| SchedulerTheorems.PendingUntilReported | CommonUtilitiesLib/Task.cpp:84-91 | one step never drops a pending event unless it is the `GetEvents` that reports it; what `GetEvents` reports is in SchedulerBehaviour.GetEventsReportsPending |
| SchedulerTheorems.NoEventLost | CommonUtilitiesLib/Task.cpp:84-158 | over any stretch of a run an event that is signalled, or the idle event of a parked task, stays pending, and its task alive, until a `GetEvents` reports it |
| SchedulerTheorems.RetiredOnlyWhenNothingOwed | CommonUtilitiesLib/Task.cpp:273-292 | compare-and-store retires a task exactly when everything signalled has been reported, else the worker runs it again |
| SchedulerTheorems.ForcedRunStaysOnThread | CommonUtilitiesLib/Task.h:112-128 | after `ForceSameThread` the next run of the task is on the same thread, however it is scheduled |
| SchedulerBehaviour.GetEventsReportsPending | CommonUtilitiesLib/Task.cpp:84-91 | over any interleaving a `GetEvents` reports exactly the events that were pending when it read the word, and takes exactly these out of what is there when it subtracts |
| SchedulerBehaviour.TakenIsRun | CommonUtilitiesLib/Task.cpp:195-237 | what a worker takes from its queue or its timer heap is what it runs next |
| SchedulerBehaviour.ResultIsObeyed | CommonUtilitiesLib/Task.cpp:244-292 | over any interleaving a negative result deletes the task, zero retires it exactly if nothing is pending and else runs it again, a positive one parks it in the worker's own heap until that much later |
| SchedulerBehaviour.FirstQueuedIsFirstTaken | CommonUtilitiesLib/Task.cpp:119-151 | a task queued behind another one on a thread is taken after it |
| SchedulerBehaviour.ParkedUntilDue | CommonUtilitiesLib/Task.cpp:284-327 | a parked task is taken from the timer heap neither before the time its last run asked for is over nor before one that is due earlier |
| SchedulerBehaviour.QueuedWhereAsked | CommonUtilitiesLib/Task.cpp:103-152 | a signalling call queues its task on the thread the task asked for, else on its default thread, else on one of its picker's group: the blocking threads are those behind the short-task ones |
| SchedulerBehaviour.PicksInTurn | CommonUtilitiesLib/Task.cpp:121-138 | consecutive picks go round the group's threads in a circle, which starts over at the first one when the 32-bit counter does |
| SchedulerBehaviour.RequestLastsOneRun | CommonUtilitiesLib/Task.cpp:219-221 | from the start of a run on the task asks for no thread until it does so anew |
| LinkedQueue.OSQueue.EnQueue | CommonUtilitiesLib/OSQueue.cpp:42-54 | appends to the sequence the circular list stands for; an element that is in a queue changes nothing |
| LinkedQueue.OSQueue.DeQueue | CommonUtilitiesLib/OSQueue.cpp:56-70 | takes the first element of that sequence, null when it is empty |
| LinkedQueue.OSQueue.Remove | CommonUtilitiesLib/OSQueue.cpp:72-84 | deletes the element wherever it is; one of another queue is left alone |
| MinHeap.RootIsLeast | CommonUtilitiesLib/OSHeap.h:56 | in an ordered heap the root is the least element |
| MinHeap.FittingLeaf | CommonUtilitiesLib/OSHeap.cpp:104-156 | moving the last leaf into a hole leaves only that slot to be sifted down when the leaf fits its new parent |
| MinHeap.MisplacedLeaf | CommonUtilitiesLib/OSHeap.cpp:104-156 | a leaf smaller than its new parent breaks the order, and sifting down never moves it |
| MinHeap.OrderAfterExtract | CommonUtilitiesLib/OSHeap.cpp:104-156 | taking an element out keeps the order exactly when the moved leaf is not smaller than the hole's parent, or the hole is the root or the last slot |
| MinHeap.OrderLostExample | CommonUtilitiesLib/OSHeap.cpp:104-156 | an ordered heap of seven elements that taking out slot 4 leaves unordered |
| MinHeap.Drain | CommonUtilitiesLib/OSHeap.cpp:104-156 | extracting the least element of an ordered heap until it is empty gives exactly its elements, in nondecreasing order |
| MinHeap.InsertAndDrain | CommonUtilitiesLib/OSHeap.cpp:50-156 | inserting any elements into a new heap and draining it gives them back in nondecreasing order |
| MinHeap.OSHeap.Insert | CommonUtilitiesLib/OSHeap.cpp:50-101 | keeps order, elements and membership through growth and sifting up |
| MinHeap.OSHeap.Extract | CommonUtilitiesLib/OSHeap.cpp:104-156 | takes one slot's element out, keeps the others, and keeps order exactly when the leaf fits |
| MinHeap.OSHeap.ExtractMin | CommonUtilitiesLib/OSHeap.h:63 | takes a least element out of an ordered heap and leaves an ordered one |
| MinHeap.OSHeap.Remove | CommonUtilitiesLib/OSHeap.cpp:159-181 | takes a given element out wherever it is, or changes nothing |
| LeastRecentlyUsed.LastAccessIsLast | CommonUtilitiesLib/OSFileSource.cpp:143-153 | the last access of a block in a history is the last position it has there |
| LeastRecentlyUsed.TouchKeepsMostRecent | CommonUtilitiesLib/OSFileSource.cpp:143-185 | an access at any capacity leaves the most recently accessed blocks cached, so that an evicted one is the least recently used |
| LeastRecentlyUsed.TouchKeepsComplete | CommonUtilitiesLib/OSFileSource.cpp:255-310 | at an unchanged capacity a cache that is full, or holds every block accessed so far, stays so |
| FileCache.FileMap.QueuedByLastAccess | CommonUtilitiesLib/OSFileSource.cpp:143-153 | after any history of accesses, allocations and changes of capacity the queue has its buffers in the order in which their blocks were last asked for |
| FileCache.FileMap.UnmappedIsOlder | CommonUtilitiesLib/OSFileSource.cpp:266-310 | a block without a buffer was last asked for before every block that has one: what is evicted is the least recently used |
| FileCache.FileBlockPool.GetBufferElement | CommonUtilitiesLib/OSFileSource.cpp:155-185 | a new buffer at the tail below the maximum, else the least recently used one, off the queue |
| FileCache.FileBlockPool.MarkUsed | CommonUtilitiesLib/OSFileSource.cpp:143-153 | moves a buffer to the tail, keeping the order of the others |
| FileCache.FileBlockPool.IncMaxBuffers | CommonUtilitiesLib/OSFileSource.h:82 | adds the increment in unsigned arithmetic |
| FileCache.FileBlockPool.DecMaxBuffers | CommonUtilitiesLib/OSFileSource.h:83 | subtracts the increment only while something is left |
| FileCache.FileMap.BlocksDistinct | CommonUtilitiesLib/OSFileSource.cpp:266-310 | no block is served by two buffers |
| FileCache.FileMap.DeleteOldBuffs | CommonUtilitiesLib/OSFileSource.cpp:255-264 | gives up exactly the oldest buffers beyond the maximum, in the queue and in the map |
| FileCache.FileMap.GetBuffer | CommonUtilitiesLib/OSFileSource.cpp:266-310 | map and queue stay one to one, at most the maximum, and hold the most recently used blocks, at an unchanged capacity as many as fit; the caller fills the buffer exactly when the block was not cached |
| FileCache.FileMap.AllocateBufferMap | CommonUtilitiesLib/OSFileSource.cpp:210-253 | nothing changes when the map is of that kind, else an empty map of all the file's blocks, with all sizes in unsigned arithmetic; a buffer is a number of 32 Kbyte units whatever unit size is asked for |
| FileCache.FileMap.UnitsAreGreatest | CommonUtilitiesLib/OSFileSource.cpp:221-234 | the number of units worked out is the greatest one within the bit rate and the maximum, and at least one; without a bit rate it is the maximum while its product fits 32 bits |
| FileSource.ProgressAdvances | CommonUtilitiesLib/OSFileSource.cpp:455-512 | one round of copying ends at the next block, or completes the read in its last block; a short block is the last one |
| FileSource.DirectOf | CommonUtilitiesLib/OSFileSource.cpp:533-592 | a direct read gives the bytes of the file from the position on |
| FileSource.DirectLength | CommonUtilitiesLib/OSFileSource.cpp:533-592 | and as many of them as are asked for or are there |
| FileSource.OSFileSource.ReadFromPos | CommonUtilitiesLib/OSFileSource.cpp:533-592 | delivers every byte there is at the position, up to the length; refuses positions that are negative as signed numbers |
| FileSource.OSFileSource.LoadBlock | CommonUtilitiesLib/OSFileSource.cpp:464-473 | the block's buffer holds the block's bytes, and every other mapped buffer still holds its own |
| FileSource.OSFileSource.CopyBlock | CommonUtilitiesLib/OSFileSource.cpp:476-510 | copies the wanted part of one block behind the bytes read so far |
| FileSource.OSFileSource.ReadFromCache | CommonUtilitiesLib/OSFileSource.cpp:409-531 | a read through the cache delivers the bytes of a direct read, asks for the blocks of its range in ascending order, and keeps the map that of the most recently used blocks |
| FileSource.OSFileSource.Read | CommonUtilitiesLib/OSFileSource.cpp:396-406 | whatever reads, allocations and changes of capacity came before, a read is a direct read for every 64-bit position and 32-bit length, except exactly where a direct read refuses a position from 2 to the 63 on and the unsigned end wraps into the map: there nothing is read; the cached blocks stay the most recently used ones |
| FileSource.WrappedReadExample | CommonUtilitiesLib/OSFileSource.cpp:396-406 | such a read at the last position |
| FileSource.OSFileSource.AllocateFileCache | CommonUtilitiesLib/OSFileSource.h:188-190 | a new map starts in the state from which every read is a direct read |
| TextParser.SpanStops | CommonUtilitiesLib/StringParser.cpp:248-280 | a run of characters that do not stop the cursor, in front of one that does, is what it consumes |
| TextParser.MaskTables | CommonUtilitiesLib/StringParser.cpp:127-185 | the characters of the whitespace and line end tables, and of the names, by their codes |
| TextParser.StringParser.ConsumeUntil | CommonUtilitiesLib/StringParser.cpp:248-280 | takes the characters before the first stopping one |
| TextParser.StringParser.ConsumeLength | CommonUtilitiesLib/StringParser.cpp:282-304 | takes that many characters, or what is left; a negative number moves back, except from the end |
| TextParser.StringParser.Expect | CommonUtilitiesLib/StringParser.cpp:393-406 | passes the character if it is next, else stays |
| TextParser.StringParser.ExpectEOL | CommonUtilitiesLib/StringParser.cpp:408-425 | passes one line end of one or two characters |
| TextParser.StringParser.GetThru | CommonUtilitiesLib/StringParser.h:159-163 | takes the characters before a character and passes it |
| TextParser.StringParser.GetThruEOL | CommonUtilitiesLib/StringParser.h:165-169 | takes the line and passes its end |
| XmlRoundTrip.AttributesReadBack | AuthServer/PrefsSourceLib/XMLParser.cpp:317-376 | printed attributes are read back, in order, or refused when the verifier refuses one |
| XmlRoundTrip.ChildrenReadBack | AuthServer/PrefsSourceLib/XMLParser.cpp:402-475 | printed children are read back, in order, at any indent |
| XmlRoundTrip.ReadUndoesPrint | AuthServer/PrefsSourceLib/XMLParser.cpp:276-475 | the printed form of every printable tree, at any indent and with any text behind, is read back as that tree (a missing leaf value as an empty one) exactly when the verifier accepts it |
| XmlReadable.ReadIsGood | AuthServer/PrefsSourceLib/XMLParser.cpp:276-475 | what the parser accepts from text without NULs is printable and accepted by the verifier |
| XmlReadable.ReadPrintRead | AuthServer/PrefsSourceLib/XMLParser.cpp:276-684 | printing what was read and reading it again gives the same tree, for every text without NULs |
| XmlComments.CommentIsPassed | AuthServer/PrefsSourceLib/XMLParser.cpp:257-274 | a comment is passed up to and including the first "-->" behind its "<!-", whatever is in it and behind it |
| XmlComments.UnclosedComment | AuthServer/PrefsSourceLib/XMLParser.cpp:257-274 | of a comment that is never closed at most two characters are left |
| XmlComments.NoComment | AuthServer/PrefsSourceLib/XMLParser.cpp:257-274 | text that does not go on with "--" is left alone |
| XmlComments.CommentInFront | AuthServer/PrefsSourceLib/XMLParser.cpp:276-300 | a comment in front of a tag does not change the tree that is read, whatever tags it comments out |
| XmlComments.CommentInContent | AuthServer/PrefsSourceLib/XMLParser.cpp:401-454 | nor does one inside the content of a tag: what is commented out does not become an embedded tag; the value is what stands behind the last comment |
| XmlComments.UnclosedCommentIsNoTag | AuthServer/PrefsSourceLib/XMLParser.cpp:257-300 | behind a comment that is never closed no tag is read |
| XmlComments.DeclarationInFront | AuthServer/PrefsSourceLib/XMLParser.cpp:293-300 | a declaration or processing instruction in front of a tag is passed |
| XmlComments.DeclarationBecomesValue | AuthServer/PrefsSourceLib/XMLParser.cpp:401-454 | inside the content of a leaf it becomes the value of the tag, without its '<' |
| XmlComments.StartTagIsRead | AuthServer/PrefsSourceLib/XMLParser.cpp:302-399 | a start tag in any spacing gives its name and its attributes in order, and is refused exactly when the verifier refuses one of them |
| XmlComments.SelfClosingIsRead | AuthServer/PrefsSourceLib/XMLParser.cpp:380-392 | a self-closing tag has its attributes, no value and no embedded tags |
| XmlComments.AttributeIff | AuthServer/PrefsSourceLib/XMLParser.cpp:326-361 | an attribute is a name, '=' and a value in double quotes with nothing between them, and nothing else is |
| XmlComments.EndTagIff | AuthServer/PrefsSourceLib/XMLParser.cpp:456-472 | an end tag is accepted exactly when its name is that of the start tag |
| XmlComments.ContentEndsIff | AuthServer/PrefsSourceLib/XMLParser.cpp:401-472 | content ends at an end tag with the right name, giving the value of a leaf, and a tag with another end tag is refused |
| XmlComments.ContentMustEnd | AuthServer/PrefsSourceLib/XMLParser.cpp:403-409 | content without an end tag is refused |
| XmlComments.AttributesAcceptedIff | AuthServer/PrefsSourceLib/XMLParser.cpp:363-375 | the verifier is asked for the name and the value of every attribute |
| XmlComments.EmbeddedAcceptedIff | AuthServer/PrefsSourceLib/XMLParser.cpp:434-448 | and for every embedded tag as a subtag |
| XmlComments.LeafIsPrinted | AuthServer/PrefsSourceLib/XMLParser.cpp:643-684 | a leaf is printed on one line, indented by tabs |
| XmlParser.ConsumeIfComment | AuthServer/PrefsSourceLib/XMLParser.cpp:257-274 | computes `XmlText.SkipIfComment`; XmlComments.CommentIsPassed, UnclosedComment and NoComment say what that is for every text |
| XmlParser.ParseTag | AuthServer/PrefsSourceLib/XMLParser.cpp:276-475 | the recursive parser computes `XmlText.Read` and leaves the cursor behind what it read; the round trips and the XmlComments rows say what that is |
| XmlParser.FormatData | AuthServer/PrefsSourceLib/XMLParser.cpp:643-684 | the recursive printer appends exactly `XmlText.Print` to the formatter, up to the last byte its buffer can grow to |
| XmlPrefs.GetNumPrefValues | AuthServer/PrefsSourceLib/XMLPrefsParser.cpp:115-130 | the number of values in the sequence |
| XmlPrefs.GetPrefValueByRef | AuthServer/PrefsSourceLib/XMLPrefsParser.cpp:152-182 | the value at an index of the sequence, none outside it; the first NAME attribute; the first TYPE attribute or the default, except that objects have their own type |
| XmlPrefs.AddPrefValue | AuthServer/PrefsSourceLib/XMLPrefsParser.cpp:225-255 | appends a value; a PREF with a value becomes a LIST-PREF of two |
| XmlPrefs.SetPrefValue | AuthServer/PrefsSourceLib/XMLPrefsParser.cpp:297-315 | the values become those with one replaced, or added at the end, exactly when the preference is not a list of fewer than two values set at index 0 (or holds just that value) |
| XmlPrefs.ShortListExample | AuthServer/PrefsSourceLib/XMLPrefsParser.cpp:297-315 | a list without values that has none after its first value has been set |
| XmlPrefs.RemovePrefValue | AuthServer/PrefsSourceLib/XMLPrefsParser.cpp:317-358 | deletes the value at an index; the last one takes the preference out of its container, the last but one makes it a PREF again |
| Formatter.GrownSizeIsLarger | CommonUtilitiesLib/ResizeableStringFormatter.cpp:38-45 | the buffer really grows exactly when doubling does not overflow |
| Formatter.StringFormatter.Put | CommonUtilitiesLib/StringFormatter.cpp:50-91 | on a resizable formatter of any capacity the buffer becomes the old contents followed by all the input; the loop ends and never finds itself unable to resize |
| Formatter.StringFormatter.BufferIsFull | CommonUtilitiesLib/ResizeableStringFormatter.cpp:36-54 | a buffer of the doubled size, in unsigned arithmetic, with the same contents |
| ResponseStream.HttpResponseStream.NothingLostOrReordered | AuthServer/Server.tproj/HttpResponseStream.cpp:45-187 | after any calls the bytes on the wire followed by the unsent part of the buffer are the concatenation of everything accepted |
| ResponseStream.HttpResponseStream.WriteV | AuthServer/Server.tproj/HttpResponseStream.cpp:45-149 | the socket takes a prefix of the unsent bytes and the vectors; `DontBuffer` keeps nothing more and reports what was taken; `AlwaysBuffer` reports and keeps everything unless the socket fails; `AllOrNothing` accepts nothing, with EAGAIN, when nothing was taken of a non-empty write, and else everything; the stream accepts exactly the bytes it reports |
| ResponseStream.HttpResponseStream.Flush | AuthServer/Server.tproj/HttpResponseStream.cpp:151-187 | sends a prefix of the unsent bytes and keeps the rest |
| ResponseStream.HttpResponseStream.SkipSent | AuthServer/Server.tproj/HttpResponseStream.cpp:131-138 | finds the vector and the offset behind the bytes that have gone |
| BitMask.MaskIsRemainder | CommonUtilitiesLib/OSHashTable.h:121-127 | masking with one less than a power of two is the remainder by it |
| BitMask.MaskTest | CommonUtilitiesLib/OSHashTable.h:59-61 | the constructor's test finds exactly the powers of two |
| BitMask.ShiftedOr | CommonUtilitiesLib/base64.c:141-205 | "or" of a shifted number and one that fits below it is their sum |
| BitMask.MaskHigh | CommonUtilitiesLib/base64.c:184-205 | a mask of high digits takes the high digits |
| HashTable.OSRefHashTable.constructor | CommonUtilitiesLib/OSHashTable.h:50-63 | an empty table |
| HashTable.OSRefHashTable.ComputeIndex | CommonUtilitiesLib/OSHashTable.h:121-127 | the remainder by the table's size, whether it masks or divides |
| HashTable.OSRefHashTable.Push | CommonUtilitiesLib/OSHashTable.h:72-74 | the entry becomes the head of its bucket's chain, and the other chains stay |
| HashTable.OSRefHashTable.Add | CommonUtilitiesLib/OSHashTable.h:68-75 | the entry joins the entries, whose number is kept |
| HashTable.OSRefHashTable.Remove | CommonUtilitiesLib/OSHashTable.h:76-97 | the entry leaves the entries; removing it a second time changes nothing |
| HashTable.OSRefHashTable.Map | CommonUtilitiesLib/OSHashTable.h:98-109 | the first entry of the chain with the key, null exactly when no entry has it |
| HashTable.AllOfTable | CommonUtilitiesLib/OSHashTable.h:130-167 | bucket by bucket every entry comes exactly once |
| HashTable.OSHashTableIter.First | CommonUtilitiesLib/OSHashTable.h:138-145 | stands at the first entry of all |
| HashTable.OSHashTableIter.Next | CommonUtilitiesLib/OSHashTable.h:146-156 | passes one entry; when it is done it has passed all of them, in that order |
| RefTable.RunKeepsCounts | CommonUtilitiesLib/OSRef.cpp:57-196 | in every run the count of a reference is its resolves less its releases, and ids in the table are unique |
| RefTable.OSRefTable.CountIsOutstanding | CommonUtilitiesLib/OSRef.cpp:57-196 | after any calls on a table an object's `fRefCount` is its resolves less its releases |
| RefTable.LeavesOnlyEvicted | CommonUtilitiesLib/OSRef.cpp:57-196 | a step takes a reference out exactly when it swaps another one in for its id or unregisters it at a level its resolves allow |
| RefTable.PinnedStays | CommonUtilitiesLib/OSRef.cpp:114-145 | while it stays resolved, without swaps of its id and unregistrations at a level above zero, a reference stays in the table |
| RefTable.OSRefTable.PinnedIsEntry | CommonUtilitiesLib/OSRef.cpp:114-145 | after any such calls on a table the reference is an entry of its hash table |
| RefTable.ComesOnlyBrought | CommonUtilitiesLib/OSRef.cpp:57-196 | a step brings a reference in exactly when it registers it under a free id, or swaps it in for a taken one |
| RefTable.StaysOut | CommonUtilitiesLib/OSRef.cpp:57-196 | over any stretch of a run without such a step a reference stays out |
| RefTable.UnRegisterOfSwapped | CommonUtilitiesLib/OSRef.cpp:114-196 | however long ago a reference was swapped out, unregistering it leaves the table and the counts as they are, unless it has been brought in again |
| RefTable.OSRefTable.SwappedIsNoEntry | CommonUtilitiesLib/OSRef.cpp:177-196 | after any calls on a table a swapped-out reference that was not brought in again is no entry of its hash table |
| RefTable.OSRefTable.Find | CommonUtilitiesLib/OSHashTable.h:98-109 | with unique ids, looking up in the chains is looking up in the finite map from ids to references |
| RefTable.OSRefTable.AddRef | CommonUtilitiesLib/OSHashTable.h:68-75 | with a new id, adding to the chains is inserting into that map |
| RefTable.OSRefTable.RemoveRef | CommonUtilitiesLib/OSHashTable.h:76-97 | removing is deleting from that map when the map has this very reference, and nothing else changes |
| RefTable.OSRefTable.Register | CommonUtilitiesLib/OSRef.cpp:57-88 | fails for an empty or a registered id, else adds |
| RefTable.OSRefTable.RegisterOrResolve | CommonUtilitiesLib/OSRef.cpp:91-112 | adds a new id, or resolves and returns the reference that has it |
| RefTable.OSRefTable.Resolve | CommonUtilitiesLib/OSRef.cpp:148-162 | returns the reference with the id and counts it |
| RefTable.OSRefTable.Release | CommonUtilitiesLib/OSRef.cpp:164-175 | takes one resolve back |
| RefTable.OSRefTable.UnRegister | CommonUtilitiesLib/OSRef.cpp:114-133 | takes the reference out by identity once its count is at the level; one that is not in the table changes nothing |
| RefTable.OSRefTable.TryUnRegister | CommonUtilitiesLib/OSRef.cpp:135-145 | as UnRegister when that need not wait, else changes nothing; the UnRegister it makes never waits |
| RefTable.OSRefTable.Swap | CommonUtilitiesLib/OSRef.cpp:177-196 | replaces the reference with the id, keeping all counts |
| RecursiveMutex.StepKeepsInv | CommonUtilitiesLib/OSMutex.cpp:94-157 | every step keeps: the plain mutex's owner is in the holder field, or about to be, with its nesting depth in the count |
| RecursiveMutex.AssertsHold | CommonUtilitiesLib/OSMutex.cpp:94-157 | the assertions hold at every step of every interleaving in which waits are at depth one |
| RecursiveMutex.HolderOwnsAtItsDepth | CommonUtilitiesLib/OSMutex.cpp:94-157 | the holder owns the plain mutex; a thread that has returned from its locks is the holder and the count is its depth; no two threads are |
| RecursiveMutex.UnlockByAnotherDoesNothing | CommonUtilitiesLib/OSMutex.cpp:115-131 | an unlock by a thread that has not locked changes nothing; what an unlock by the holder does is in RecursiveMutexCalls.EveryCallIsCarriedOut |
| RecursiveMutex.WaitIsSoundAtDepthOne | CommonUtilitiesLib/OSCond.cpp:79-118 | after a wait the next thread to lock finds its assertion true exactly when the wait was at depth one |
| RecursiveMutex.WaitAtDepthTwoFails | CommonUtilitiesLib/OSCond.cpp:79-118 | a run in which a wait at depth two makes the assertion fail |
| RecursiveMutexCalls.EveryCallIsCarriedOut | CommonUtilitiesLib/OSMutex.cpp:94-157 | over any disciplined interleaving a call has returned by its thread's seventh step: a lock one deeper, holding the mutex with that count; a try lock likewise, or unchanged while another thread has it; an unlock by the holder one shallower, freeing owner and holder exactly from depth one; a wait as it was |
| RecursiveMutexCalls.CallGoesOn | CommonUtilitiesLib/OSMutex.cpp:94-157 | every step of a thread inside a call brings the call nearer to its return |
| RecursiveMutexCalls.WaitsOnlyForTheMutex | CommonUtilitiesLib/OSMutex.cpp:94-113 | a thread inside a call waits exactly while another one has the plain mutex it is about to take |
| ReadWriteLock.StepKeepsInv | CommonUtilitiesLib/OSMutexRW.cpp:59-179 | with one writer at a time the counters are the numbers of clients, and a writer excludes readers |
| ReadWriteLock.StateIsReadersOrWriter | CommonUtilitiesLib/OSMutexRW.h:68-95 | in every disciplined run the state is the number of readers, or -1 exactly while the writer is active |
| ReadWriteLock.AdmissionIsSafe | CommonUtilitiesLib/OSMutexRW.cpp:59-114 | a reader is let in only while no writer is queued or active, a writer only while nobody is active |
| ReadWriteLock.ReaderIsAdmittedIff | CommonUtilitiesLib/OSMutexRW.cpp:59-86 | a reader is let in exactly then |
| ReadWriteLock.WriterIsAdmittedIff | CommonUtilitiesLib/OSMutexRW.cpp:88-114 | a writer is let in exactly when no reader is active, else it waits on |
| ReadWriteLock.UnlockLeaves | CommonUtilitiesLib/OSMutexRW.cpp:117-151 | an unlock takes its client out of the lock and nobody else, and the state is the number of readers left |
| ReadWriteLock.LastUnlockAdmits | CommonUtilitiesLib/OSMutexRW.cpp:59-151 | behind the last unlock a waiting writer that wakes up is let in, or a reader when no writer waits |
| ReadWriteLock.OthersStay | CommonUtilitiesLib/OSMutexRW.cpp:59-179 | a call changes where its own client is and nobody else |
| ReadWriteLock.TriesDoNotWait | CommonUtilitiesLib/OSMutexRW.cpp:153-179 | the calls that the try variants make take the lock at once, exactly when it is free for them |
| ReadWriteLock.SecondWriterIsAdmitted | CommonUtilitiesLib/OSMutexRW.cpp:88-114 | LockWrite makes a second active writer exactly when one is active already |
| ReadWriteLock.ReaderBesideSecondWriter | CommonUtilitiesLib/OSMutexRW.cpp:88-148 | a run in which a reader comes in beside the second writer |
| UrlPath.StripRemovesDotSegments | CommonUtilitiesLib/StringTranslator.cpp:106-145 | a stripped path has no dot segment; a path is left alone exactly when it has none; stripping twice is stripping once |
| UrlPath.StripBySegments | CommonUtilitiesLib/StringTranslator.cpp:106-145 | stripping keeps the segments that are not "." or "..", in order, with an empty one for a dot segment at the end; a ".." does not take away the segment before it |
| UrlPath.EveryPathHasSegments | CommonUtilitiesLib/StringTranslator.cpp:106-145 | every path is that of some segments |
| UrlPath.SlashEndsSegment | CommonUtilitiesLib/StringTranslator.cpp:106-116 | at a '/' the decoder's backing up removes exactly a dot segment |
| UrlPath.CharGrowsSegment | CommonUtilitiesLib/StringTranslator.cpp:116-133 | the dot counter is the length of a segment of nothing but dots, else zero |
| UrlCodec.FinishStripsPath | CommonUtilitiesLib/StringTranslator.cpp:142-146 | the final correction leaves the stripped path and the query exactly when there is no query or no dot segment at the path's end |
| UrlCodec.DecodeStripsPath | CommonUtilitiesLib/StringTranslator.cpp:42-147 | for every well-formed URL the output is the stripped decoded path and the decoded query exactly then; without a query no dot segment survives |
| UrlCodec.QueryBehindDotSegment | CommonUtilitiesLib/StringTranslator.cpp:97-145 | behind a dot segment a query loses its end, and the dot segment stays |
| UrlCodec.DecodeURL | CommonUtilitiesLib/StringTranslator.cpp:42-147 | writes `Decoded`; reports too little space exactly when the room is full before some character and everything up to there is well-formed, never with room for the source; else reports a malformed URL exactly when there is no decoding |
| UrlCodec.EncodeURL | CommonUtilitiesLib/StringTranslator.cpp:149-227 | writes the encoding, or reports too little space exactly when it does not fit |
| UrlCodec.DecodeUndoesEncode | CommonUtilitiesLib/StringTranslator.cpp:42-227 | decoding an encoded text gives its stripped path exactly when it begins with '/' and has no tab, CR, LF or NUL, else an error |
| UrlCodec.TabIsLost | CommonUtilitiesLib/StringTranslator.cpp:149-227 | a path with a tab whose encoding the decoder refuses |
| UrlEscapes.HexDigitIff | CommonUtilitiesLib/StringTranslator.cpp:71-84 | the hexadecimal digits are those of both cases, each with its value |
| UrlEscapes.PercentIff | CommonUtilitiesLib/StringTranslator.cpp:66-95 | percent-decoding succeeds exactly on texts spelt from plain characters and escapes with digits of either case, and gives what they spell |
| UrlEscapes.WrittenAsIs | CommonUtilitiesLib/StringTranslator.cpp:160-219 | the characters that encoding leaves as they are |
| UrlEscapes.EscapeIs | CommonUtilitiesLib/StringTranslator.cpp:167-208 | an escape is the character's number in upper-case hexadecimal without leading zeros |
| Base64.FieldsOfBytes | CommonUtilitiesLib/base64.c:184-205 | the values looked up for three bytes are their shifted and masked fields |
| Base64.BytesOfFields | CommonUtilitiesLib/base64.c:141-165 | the three bytes of four values are the shifted values put together with "or" and cut off to a byte |
| Base64.RoundTrip | CommonUtilitiesLib/base64.c:126-209 | decoding the encoding of any bytes gives them back, whatever stands behind |
| Base64.DecodeUndoesEncode | CommonUtilitiesLib/base64.c:111-209 | what the encoder writes the decoder accepts and gives back, in the announced lengths |
| Base64.EncodedLength | CommonUtilitiesLib/base64.c:174-177 | the announced length is that of the encoding and its NUL |
| Base64.DecodedLength | CommonUtilitiesLib/base64.c:111-124 | the decoding and its zero byte stay within the announced length, which is exact for whole groups and makes room for three bytes of a begun one |
| Base64.Base64encode | CommonUtilitiesLib/base64.c:179-209 | writes exactly the encoding and a NUL, and nothing behind |
| Base64.Base64decode | CommonUtilitiesLib/base64.c:126-169 | writes exactly the decoding and a zero byte, and returns its length |
| Base64.Base64decode_len | CommonUtilitiesLib/base64.c:111-124 | counts the characters before the first one outside the alphabet |
| Base64Standard.AlphabetIff | CommonUtilitiesLib/base64.c:90-172 | both tables are those of the alphabet of RFC 4648, section 4 |
| Base64Standard.OutsideAlphabet | CommonUtilitiesLib/base64.c:90-108 | exactly the characters outside the alphabet stop the decoder |
| Base64Standard.EncodedGroups | CommonUtilitiesLib/base64.c:179-209 | every four characters have the 24 bits of their three bytes, high bits first, with padding exactly for missing bytes |
| Base64Standard.DecodedGroups | CommonUtilitiesLib/base64.c:126-169 | every group of any text is decoded to the bits of its values, less those that do not fill a byte |
| Md5.FoldBlock | CommonUtilitiesLib/md5.c:161-167 | transforming one more block is the fold over one more block |
| Md5.CountAdds | CommonUtilitiesLib/md5.c:151-155 | the two counters with their carry hold 8 times the length modulo 2 to the 64 |
| Md5.IndexOfCount | CommonUtilitiesLib/md5.c:148-149 | the counter gives the length modulo 64 |
| Md5.EncodingIsUnique | CommonUtilitiesLib/md5.c:301-323 | different words have different encodings |
| Md5.WordsInOrder | CommonUtilitiesLib/md5.c:301-323 | each word stands in four bytes, low-order byte first |
| Md5.InitialBytes | CommonUtilitiesLib/md5.c:133-136 | the initial words have the bytes of section 3.3 of RFC 1321 |
| Md5.PaddedIs | CommonUtilitiesLib/md5.c:184-199 | the message is followed by a byte of 0x80, as few zeros as make whole blocks, and its length in bits modulo 2 to the 64 in eight bytes, low-order byte first |
| Md5.Encode | CommonUtilitiesLib/md5.c:301-311 | words as bytes, low-order byte first |
| Md5.Decode | CommonUtilitiesLib/md5.c:316-323 | the words whose encoding the input is |
| Md5.MD5Context.Update | CommonUtilitiesLib/md5.c:144-178 | after any split of a message into updates the state is the fold over its complete blocks, the buffer its tail, the counters its length |
| Md5.MD5Context.Final | CommonUtilitiesLib/md5.c:184-206 | the digest of the message padded as sections 3.1 and 3.2 of RFC 1321 say |

## Left out

- The bodies of task `Run` methods, thread start and stop, and the global reader/writer lock a task may ask for: a run is the steps between start and return.
- Waiting on queues with timeouts: a worker takes an expired task from its heap, takes one from its queue, or stops, whichever the run says.
- XmlParser.ParseTag: builds tags as values, so that the queues of attributes and children it fills in place, their aliasing and their deletion are not modelled; the preference operations do work on tag objects, a second and separate model of the class.
- XmlParser.FormatData: prints tags that are values.
- XML error texts, line numbers, files, and lookups of tags and attributes by name.
- Preferences that hold objects (`AddNewObject`, object lists), and changes of a preference's attributes.
- XmlPrefs.GetPrefValueByRef: the name and the type are always asked for; the code takes null pointers for either, but writes the type of an object through one.
- TextParser.StringParser.ConsumeLength: requires that no more than 32767 characters are to be passed, since the 16-bit loop counter does not reach a larger number, and that moving back stays in the text; for a negative number the returned string is not described.
- Formatter.StringFormatter.Put: requires, of a resizeable formatter, that the text fits into a buffer that doubling can reach; beyond that the doubled size overflows and the copy runs over the new buffer.
- Formatter.StringFormatter.BufferIsFull: requires that the contents fit into the new buffer, for the same reason.
- ResponseStream.HttpResponseStream.WriteV: requires that what is to be kept fits in this way behind the unsent bytes.
- Sockets, connections and timeouts of the response stream: a write takes any part of what it is offered, refuses or fails.
- Read errors of the disk, and files that change or are closed while they are cached.
- FileSource.OSFileSource.Read: with the cache enabled, requires a maximum of at least one buffer; after an increment that wraps the maximum to zero the code has no buffer to use. What it reports as received when it fails is not described.
- FileCache.FileMap.AllocateBufferMap: requires that no divisor comes out as zero and that the map's size in bytes fits the signed 32-bit number the code clears it with.
- FileSource.OSFileSource.AllocateFileCache: requires the same.
- The mutexes of the cache and of the reference table: their operations are single steps. Making the cache's map takes no mutex in the code; that it is made while nobody reads is assumed.
- RefTable.OSRefTable.UnRegister: its wait is a guard on the count, in the runs of the table as in the method; that somebody releases the reference in the end is not proved.
- The 32-bit range of reference counts, of hash table entry counts and of lock counters: they are unbounded numbers.
- Hash tables of other entry and key types: the table is modelled for references and their string ids, with ids fixed when a reference is made.
- UrlCodec.DecodeURL: the source and the output are different memory.
- UrlCodec.EncodeURL: requires one byte behind the destination length exactly where an escape of two digits ends there, since the printed escape is ended by a NUL.
- Md5.MD5Context.Update: requires that the block loop's 32-bit index does not wrap when 63 is added to it, which inputs of nearly 2 to the 32 bytes can make it do.
- The plain mutex and condition variables of the operating system: an acquisition is possible whenever the mutex is free, and a wait may end at any time.
- Fairness and termination of waits in the scheduler and the locks.
- The rounds of the MD5 block transformation, and the digest authentication built on it.
- Other platforms, debug output, memory debugging, self tests, dates, hexadecimal helpers, the buffer pool, logs, module dictionaries and the other codecs: no further hard property.
