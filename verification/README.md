# A verified model of Net_Disk_v1

Net_Disk_v1 is a network disk: a route server keeps connections and the directory tree, file
servers keep the contents of files, and a client uploads and downloads.  This project models
its five cores in Dafny and proves what they are for.  `dafny verify dfyconfig.toml` checks
all of it.

## What is modelled

**Client manager** (`MurmurHash`, `Clients`, `Chains`, `ClientMap`, `TimeQueue`,
`ClientManager`, `IdleEviction`, `EventLoop`).  A chained hash map from a descriptor to its
client and its slot, beside a timing wheel of linked lists, both relinked in place.  The
methods on the linked structures are proved to follow a value (`Manager`), the value is proved
to refine a table of idle clocks, and over every run of connections, activity, departures and
ticks a client is evicted on exactly the tick that fills its time-out.  The size of the wheel
is a parameter; the server's is 30.

**Blocking queue and worker pool** (`BlockQueue`, `ThreadPool`).  A ring buffer under one
mutex and two conditions.  A critical section is one step, a signal wakes one or more sleepers
of the system's choice, and threads may wake spuriously.  No wake-up is ever lost, and the
poison-pill shutdown is complete under every interleaving.

**Configuration table** (`ConfigTable`).  Open addressing over 32 slots.

**Transfers** (`Bytes`, `Channels`, `Framing`, `Files`, `TransFile`, `FileServer`,
`NetClient`, `BrokenDownloads`).  A socket is a byte stream of which `send` and `recv` move any positive number
of bytes; a file is its bytes, a position, and the set of pages that have blocks on the disk,
from which the client works out where to resume.  `mmap` demands a page-aligned offset.  A
file of 100 MiB or more is uploaded whole to two servers and comes back in two parts that are
merged in place; the attempt may be killed at any byte of the downloads or of the merge, any
number of times.  Connections may also break without the client noticing.

**Virtual file system** (`Vfs`, `VfsUpdates`, `VfsRuns`, `RouteServer`, `CommandLoop`).  The
directory tree is a flat table of rows; a session caches a code, a parent code and a path
string.  The root is 0 in a session and -1 in the table.  The commands work on the shared
table and on the client record with its 128-byte path buffer, and are proved to follow
specification functions; over every run of commands from any number of sessions each code is
what its path resolves to, the table is a forest, and an md5 once known stays known.
`mkdir` does not refuse a name in use, so siblings of one name are part of every result.
Clients leave by command, when their connection closes, or by eviction; `Server` joins the
two halves of the event loop: over every run a client has a session exactly if it has logged
in and was heard from within the time-out.

**Storage** (`Storage`).  The table and the file servers together: over every run each file
row describes a file that its servers hold, and whoever downloads an md5 gets what was kept
of its first upload, which is its content if no connection broke.

`Naturals` holds a few facts about natural numbers.

## Where the code does not keep what it promises

- Making a directory does not refuse a name in use, although the comment at
  Net_Disk_v1/server/route_server/src/do_mkdir.c:13 says it should
  (`VfsUpdates.MkdirKeepsUniqueIff`).  The forest survives all the same: no session ever gets
  into the second of two siblings of one name, so what `rmdir` deletes beside the directory
  it has looked at is empty (`VfsUpdates.RmdirSeesAll`).
- Removing a directory in which another session stands leaves that session without a valid
  position (`VfsUpdates.RmdirKeepsSessionIff`), and what that session makes or uploads next
  is an orphan; both happen in no other case (`VfsUpdates.StrandedInsertIff`).  It can be
  brought about from any table (`VfsUpdates.StrandedMkdirOrphans`).
- Downloading a small file over an older, longer one leaves the old tail, and a connection
  that breaks leaves a short or mixed file without a message (`NetClient.DoGetsSmall`).
- The client does not look at what its two downloads of a big file return.  If a connection
  breaks and the client lives on, it merges and renames an incomplete file
  (`BrokenDownloads.DroppedDownload` gives the exact condition under which the result is
  right all the same).  If it is killed while merging then, the next attempt resumes behind
  bytes that never arrived (`BrokenDownloads.DroppedKilledResumed`, with an input in
  `BrokenDownloads.TwoPagesHole`).
- A file server keeps an upload that broke off under its md5, and one that breaks off in its
  header cuts even a file that was stored whole (`FileServer.CutUploadIff`, with inputs in
  `FileServer.CutUploadInputs`).  The row is there already, so every later upload of the md5
  is quick and every download gets what was kept (`Storage.SecondUploadShares`, with an input
  in `Storage.BrokenUploadShared`).
- A message of which only the beginning arrives is taken for a whole one
  (`Framing.CutFrameIff`, with an input in `Framing.CutFrameInput`).
- Inserting a configuration key that is in its home slot does not overwrite it, since that
  slot is never compared; and a shorter value does not replace the tail of a longer one
  (`ConfigTable.InsertedIff`, with inputs in `ConfigTable.RepeatedKey` and
  `ConfigTable.OverlaidKey`).
- An event fetched before a tick that evicts its client is handled without a client
  (`IdleEviction.FetchedBeforeTick`, with an input in `IdleEviction.FetchedTooEarly`).

## Model

The members below are those that state something about the source.  The others are the
definitions and the smaller steps of their proofs.

| member | source | states |
|---|---|---|
| MurmurHash.Hash | Net_Disk_v1/server/route_server/src/client_manager.c:40-75 | the word loop and the fall-through tail compute, in 32-bit arithmetic, the staged hash for a key of any length and any seed |
| MurmurHash.FourByteKey | Net_Disk_v1/server/route_server/src/client_manager.c:40-75 | on a four-byte key, such as a descriptor, the general hash is one round without a tail |
| MurmurHash.HashThenUnhash | Net_Disk_v1/server/route_server/src/client_manager.c:40-75 | for every seed the hash of a four-byte key can be undone |
| MurmurHash.UnhashThenHash | Net_Disk_v1/server/route_server/src/client_manager.c:40-75 | for every seed every 32-bit value is the hash of some four-byte key, so the hash is a bijection |
| MurmurHash.HashWordInjective | Net_Disk_v1/server/route_server/src/client_manager.c:40-75 | two words have one hash exactly if they are equal |
| MurmurHash.WordBytes | Net_Disk_v1/server/route_server/src/client_manager.c:47-49 | the word read from four bytes has all four of them, the first lowest |
| MurmurHash.FourBytesDiffer | Net_Disk_v1/server/route_server/src/client_manager.c:40-75 | two keys of four bytes have one hash exactly if they are the same bytes |
| MurmurHash.ShortKeysDiffer | Net_Disk_v1/server/route_server/src/client_manager.c:40-75 | so do keys of any one length up to four, through the fall-through tail |
| MurmurHash.DescriptorsDiffer | Net_Disk_v1/server/route_server/src/client_manager.c:82-82 | two descriptors, hashed as the bytes they are in memory, have one hash exactly if they are equal |
| MurmurHash.HashVectors | Net_Disk_v1/server/route_server/src/client_manager.c:40-75 | keys of length 0 to 4 with their hashes |
| MurmurHash.LongHashVector | Net_Disk_v1/server/route_server/src/client_manager.c:40-75 | a key of a word and three bytes more with its hash |
| Chains.Chain.Prepend | Net_Disk_v1/server/route_server/src/client_manager.c:96-106 | a new node at the head, all others kept in order; the list stays acyclic |
| Chains.Chain.Unlink | Net_Disk_v1/server/route_server/src/client_manager.c:182-214 | unlinking a node, from the head or the middle, drops exactly that position of the list |
| Chains.Chain.Replace | Net_Disk_v1/server/route_server/src/client_manager.c:86-94 | overwriting a node in place changes exactly that position of the list |
| ClientMap.HashMap.constructor | Net_Disk_v1/server/route_server/src/client_manager.c:11-20 | a new map represents the empty finite map, with every bucket empty; the hash of a descriptor is that of its four bytes under the seed |
| ClientMap.HashMap.Search | Net_Disk_v1/server/route_server/src/client_manager.c:111-128 | walking one bucket finds a descriptor exactly if the finite map has it, with its entry, its place in the bucket and its predecessor |
| ClientMap.HashMap.Put | Net_Disk_v1/server/route_server/src/client_manager.c:77-109 | updates the finite map at one descriptor and keeps every other entry; a known descriptor keeps its client and answers its old slot, a new one answers -1 |
| ClientMap.HashMap.Get | Net_Disk_v1/server/route_server/src/client_manager.c:111-128 | the slot recorded for the descriptor, -1 exactly if there is none |
| ClientMap.HashMap.GetCurClient | Net_Disk_v1/server/route_server/src/client_manager.c:335-352 | the client recorded for the descriptor, null exactly if there is none |
| ClientMap.HashMap.Delete | Net_Disk_v1/server/route_server/src/client_manager.c:130-159 | removes exactly the descriptor's entry, or nothing if it has none; `size` still counts the entries |
| ClientMap.RepresentsHolds | Net_Disk_v1/server/route_server/src/client_manager.c:111-128 | a descriptor is in the finite map exactly if its own bucket holds it, and then with the map's entry |
| ClientMap.RepresentsInserted | Net_Disk_v1/server/route_server/src/client_manager.c:96-108 | prepending an entry to the bucket of a new descriptor represents the finite map with that entry added |
| ClientMap.RepresentsReplaced | Net_Disk_v1/server/route_server/src/client_manager.c:86-94 | overwriting the node of a descriptor represents the finite map with that one entry changed |
| ClientMap.RepresentsRemoved | Net_Disk_v1/server/route_server/src/client_manager.c:130-159 | dropping the node of a descriptor, wherever it is in its bucket, represents the finite map without it |
| TimeQueue.TimeOutQueue.constructor | Net_Disk_v1/server/route_server/src/client_manager.c:219-224 | a new wheel stands at slot 0 with all slots empty and no clean flag set |
| TimeQueue.TimeOutQueue.Push | Net_Disk_v1/server/route_server/src/client_manager.c:226-229 | the descriptor is first in the current slot and nothing else changes |
| TimeQueue.TimeOutQueue.Pop | Net_Disk_v1/server/route_server/src/client_manager.c:231-234 | the first occurrence in the slot goes and nothing else changes; -1 exactly if there was none |
| TimeQueue.RemoveFirstAt | Net_Disk_v1/server/route_server/src/client_manager.c:182-214 | the node at which the walk stops is the first that holds the descriptor, so unlinking it removes the first occurrence |
| TimeQueue.TimeOutQueue.CleanFd | Net_Disk_v1/server/route_server/src/client_manager.c:236-250 | takes the head of the current slot only if its flag is set, and otherwise answers -1 and changes nothing |
| TimeQueue.TimeOutQueue.UpdateConn | Net_Disk_v1/server/route_server/src/client_manager.c:252-258 | a descriptor goes from its old slot to the head of the current one and nothing else changes |
| TimeQueue.TimeOutQueue.UpdateTimer | Net_Disk_v1/server/route_server/src/client_manager.c:260-266 | the slot left behind becomes due for cleaning and the wheel moves on one slot around the ring |
| ClientManager.AddClient | Net_Disk_v1/server/route_server/src/client_manager.c:271-281 | on the linked structures: keeps map and wheel in agreement and has the effect of adding a client in the current slot |
| ClientManager.DelClient | Net_Disk_v1/server/route_server/src/client_manager.c:283-295 | on the linked structures: keeps map and wheel in agreement and has the effect of removing the client from both |
| ClientManager.UpdateClient | Net_Disk_v1/server/route_server/src/client_manager.c:297-307 | on the linked structures: keeps map and wheel in agreement and has the effect of moving the client to the current slot |
| ClientManager.TouchedIsDeletedAdded | Net_Disk_v1/server/route_server/src/client_manager.c:297-307 | an update is a deletion followed at once by an addition, and keeps the agreement |
| ClientManager.InitialInv | Net_Disk_v1/server/route_server/src/main.c:94-95 | an empty map and an empty wheel agree |
| ClientManager.AddedInv | Net_Disk_v1/server/route_server/src/client_manager.c:271-281 | adding a new descriptor keeps the agreement |
| ClientManager.DeletedInv | Net_Disk_v1/server/route_server/src/client_manager.c:283-295 | deleting a known descriptor keeps the agreement |
| ClientManager.TickedInv | Net_Disk_v1/server/route_server/src/client_manager.c:354-359 | a tick keeps the agreement and leaves the new current slot empty, also on the first lap, when its flag is still false |
| ClientManager.RecordedOnce | Net_Disk_v1/server/route_server/src/client_manager.c:271-333 | in every state in agreement, a descriptor is mapped to slot s exactly if it occurs once in the whole wheel, in slot s |
| ClientManager.Forget | Net_Disk_v1/server/route_server/src/client_manager.c:317-326 | looking up and deleting the client of one descriptor leaves the wheel alone, and finds the client exactly if the map knew it |
| ClientManager.EvictOne | Net_Disk_v1/server/route_server/src/client_manager.c:309-333 | one round of the clean-up forgets one descriptor that is due, takes the next one off the wheel, and always finds the client |
| ClientManager.Drain | Net_Disk_v1/server/route_server/src/client_manager.c:309-333 | the clean-up loop ends, closes the descriptors of a slot that is due in list order, and never leaves through its exit for an unknown client |
| ClientManager.CleanClient | Net_Disk_v1/server/route_server/src/client_manager.c:309-333 | empties exactly the current slot if it is due, forgets exactly its clients, clears the flag, and always answers 0 |
| ClientManager.TimerFunc | Net_Disk_v1/server/route_server/src/client_manager.c:354-359 | one second on the linked structures has the effect of a tick and closes exactly the descriptors of the slot reached |
| IdleEviction.NextInv | Net_Disk_v1/server/route_server/src/client_manager.c:271-359 | connection, activity, departure and tick all keep the agreement of map and wheel |
| IdleEviction.TickRefines | Net_Disk_v1/server/route_server/src/client_manager.c:260-266 | a tick ages every client's idle clock by one and drops exactly those that reach the time-out, across the wrap-around |
| IdleEviction.NextRefines | Net_Disk_v1/server/route_server/src/client_manager.c:271-359 | the wheel refines a table of idle clocks: every event commutes with the abstraction |
| IdleEviction.ConnectedWhileRecent | Net_Disk_v1/server/route_server/src/client_manager.c:219-359 | over every run and for every time-out >= 1, a client is connected exactly while fewer than time-out ticks have passed since it was last heard from |
| IdleEviction.PossibleIff | Net_Disk_v1/server/route_server/src/main.c:97-188 | which histories are possible, read off the history alone: a client can connect exactly if it is not connected, can be heard from or leave exactly if it is, and time can pass at any moment |
| IdleEviction.EvictedOnExactTick | Net_Disk_v1/server/route_server/src/client_manager.c:309-359 | over every run a tick evicts, and the clean-up closes, exactly the clients for which it is the time-out-th tick since they were last heard from |
| IdleEviction.FetchedBeforeTick | Net_Disk_v1/server/route_server/src/main.c:128-135 | an event fetched before a tick still finds its client after it exactly if the tick was not the client's time-out-th |
| IdleEviction.FetchedTooEarly | Net_Disk_v1/server/route_server/src/main.c:128-135 | an input for every time-out: a connection, silence up to the last second before the time-out, an event fetched, and a tick before it is handled: its client is gone |
| EventLoop.Handle | Net_Disk_v1/server/route_server/src/main.c:97-188 | one event of the server's loop, handled on the linked structures, has exactly the effect of that event |
| EventLoop.Serve | Net_Disk_v1/server/route_server/src/main.c:94-188 | with 10 buckets and a time-out of 30, the linked structures follow every possible history of events and stay in agreement |
| ConfigTable.CfgHash | Net_Disk_v1/server/route_server/src/config.c:40-49 | for every key of any length the times-33 loop with 32-bit wrap-around followed by modulo 32 is the sum of the characters modulo 32 |
| ConfigTable.HomeOfParts | Net_Disk_v1/server/route_server/src/config.c:40-49 | the home slot of one character is the character modulo 32, and that of two strings in a row the sum of theirs modulo 32 |
| ConfigTable.PermutedKeysCollide | Net_Disk_v1/server/route_server/src/config.c:40-49 | keys with the same characters in any order start at the same slot |
| ConfigTable.ProbeEnds | Net_Disk_v1/server/route_server/src/config.c:51-85 | no probe passes a free slot, so every probe makes fewer than 32 steps |
| ConfigTable.RepresentsStored | Net_Disk_v1/server/route_server/src/config.c:51-70 | storing a pair in the first free slot of its probe gives a new key the value and leaves a key that the probe meets before with the value it had |
| ConfigTable.RepresentsRevalued | Net_Disk_v1/server/route_server/src/config.c:57-63 | another value in the slot at which the probe first meets a key changes the lookup of that key and of no other |
| ConfigTable.RepresentsShadowed | Net_Disk_v1/server/route_server/src/config.c:57-63 | another value in a later slot of a key that is in its home slot changes no lookup |
| ConfigTable.AbsentAtFree | Net_Disk_v1/server/route_server/src/config.c:72-85 | a probe that meets a free slot before the key proves the key absent |
| ConfigTable.RoomStops | Net_Disk_v1/server/route_server/src/config.c:51-63 | with a free slot every insertion probe ends |
| ConfigTable.InsertionKeeps | Net_Disk_v1/server/route_server/src/config.c:51-70 | where the insertion probe ends, the table goes on representing a map, no key comes to or leaves its home but the inserted one, and a slot is taken exactly if the probe ends on a free one |
| ConfigTable.Config.Seek | Net_Disk_v1/server/route_server/src/config.c:51-63 | on any table, a full one included, on which the insertion probe ends at all, it ends on the first free slot or on the first slot after the home slot that holds the key |
| ConfigTable.Config.Insert | Net_Disk_v1/server/route_server/src/config.c:51-70 | for every key, new or not, the table goes on representing a map: a new key is added, a key in its home slot keeps its value, any other is overwritten up to the tail of a longer old value, and no other key changes |
| ConfigTable.InsertedIff | Net_Disk_v1/server/route_server/src/config.c:51-70 | a lookup after an insertion gives the value inserted exactly if the key was new, or was outside its home slot with a value that is not longer, or was at home with that very value |
| ConfigTable.RepeatedKey | Net_Disk_v1/server/route_server/src/config.c:51-70 | on an empty table, for every key and every two values: the second insertion is lost, and the lookup gives the first value |
| ConfigTable.OverlaidKey | Net_Disk_v1/server/route_server/src/config.c:51-70 | for every two keys that are rearrangements of each other, the second outside its home slot: inserting a shorter value over a longer one leaves the tail of the longer one |
| ConfigTable.Config.Find | Net_Disk_v1/server/route_server/src/config.c:72-85 | for a stored key on any table, and for any key on a table that is not full, the probe ends and answers the stored value or nothing |
| ConfigTable.SettledSets | Net_Disk_v1/server/route_server/src/config.c:3-27 | a key has a value after the lines exactly if some line sets it |
| ConfigTable.SettledDistinct | Net_Disk_v1/server/route_server/src/config.c:3-27 | with distinct keys every line decides its key's value |
| ConfigTable.LoadedNext | Net_Disk_v1/server/route_server/src/config.c:3-27 | one line more keeps the settings what the lines say: the first line's value for a key at home, the lines overlaid for any other |
| ConfigTable.RoomEnough | Net_Disk_v1/server/route_server/src/config.c:3-27 | as many lines as there are slots always find a place, whatever their keys |
| ConfigTable.ReadConfig | Net_Disk_v1/server/route_server/src/config.c:3-27 | after any number of lines each of which finds a place, repeated keys included, a key is found exactly if some line sets it, with the value that the lines leave it |
| BlockQueue.NoLostWakeUpInitially | Net_Disk_v1/server/route_server/src/block_queue.c:3-27 | a fresh queue with any number of threads has no lost wake-up |
| BlockQueue.StepsAllowed | Net_Disk_v1/server/route_server/src/block_queue.c:29-81 | any thread that is awake may go on, its signal may wake any sleepers, one or several, and any sleeper may wake of itself |
| BlockQueue.StepEffect | Net_Disk_v1/server/route_server/src/block_queue.c:29-81 | a task taken is the first, a task added is the last, and who can do neither sleeps |
| BlockQueue.NoLostWakeUpKept | Net_Disk_v1/server/route_server/src/block_queue.c:29-81 | for any number of producers and consumers every step, spurious wake-ups included, keeps: if a consumer sleeps then size <= woken consumers, and if a producer sleeps then free room <= woken producers |
| BlockQueue.SomeoneCanServe | Net_Disk_v1/server/route_server/src/block_queue.c:29-81 | with a task queued and a consumer asleep some consumer is already woken, and the same for free room and producers |
| BlockQueue.RingQueue.constructor | Net_Disk_v1/server/route_server/src/block_queue.c:3-27 | a fresh ring buffer is the empty queue with no thread waiting |
| BlockQueue.RingQueue.TakeFront | Net_Disk_v1/server/route_server/src/block_queue.c:37-41 | advancing `front` around the ring takes exactly the first task of the queue |
| BlockQueue.RingQueue.AddRear | Net_Disk_v1/server/route_server/src/block_queue.c:73-76 | storing at `rear` and advancing it adds exactly one task at the end of the queue, across the wrap-around |
| BlockQueue.RingQueue.PopSection | Net_Disk_v1/server/route_server/src/block_queue.c:29-47 | one critical section on the ring buffer is one step of the abstract queue: the first task, or sleep |
| BlockQueue.RingQueue.PushSection | Net_Disk_v1/server/route_server/src/block_queue.c:65-81 | one critical section on the ring buffer is one step of the abstract queue: one task more at the end, or sleep |
| ThreadPool.InitialInv | Net_Disk_v1/server/route_server/src/thread_pool.c:66-90 | the pool starts with nothing taken, nobody asleep and the whole script of tasks and pills to distribute |
| ThreadPool.PoolSteps | Net_Disk_v1/server/route_server/src/thread_pool.c:6-114 | whatever the queue allows a worker to take or the distributing thread to add is a step of the pool |
| ThreadPool.FirstTaskTaken | Net_Disk_v1/server/route_server/src/thread_pool.c:15-25 | from the start, the first task can be added and be taken at once by a worker |
| ThreadPool.StepInv | Net_Disk_v1/server/route_server/src/thread_pool.c:6-114 | every step of every thread keeps: no lost wake-up; taken, queued and undistributed tasks are the script in order; a worker has exited exactly if it took one pill |
| ThreadPool.AllExitedMeansDrained | Net_Disk_v1/server/route_server/src/thread_pool.c:92-109 | once every worker has exited, every task was taken and the queue is empty |
| ThreadPool.DrainedMeansAllExited | Net_Disk_v1/server/route_server/src/thread_pool.c:92-109 | once everything was taken, every worker has taken its pill |
| ThreadPool.CleanShutdown | Net_Disk_v1/server/route_server/src/thread_pool.c:92-109 | the pool is never stuck before shutdown is over: queue empty, tasks taken once and in order before any pill, one pill for each worker |
| ThreadPool.WorkUsed | Net_Disk_v1/server/route_server/src/thread_pool.c:6-114 | a measure goes down with every step of an awake thread and up by one only with a spurious wake-up |
| ThreadPool.RunBounded | Net_Disk_v1/server/route_server/src/thread_pool.c:6-114 | every run is bounded by the initial measure and twice its spurious wake-ups, and keeps the invariant |
| ThreadPool.TakenInOrder | Net_Disk_v1/server/route_server/src/thread_pool.c:15-25 | at every moment the tasks taken are a prefix of those distributed, so none is lost, repeated or overtaken |
| ThreadPool.ShutdownUnderEveryInterleaving | Net_Disk_v1/server/route_server/src/thread_pool.c:92-114 | for every interleaving: order kept, run bounded, and when no awake thread can go on shutdown is complete |
| ThreadPool.WorkerSection | Net_Disk_v1/server/route_server/src/thread_pool.c:15-25 | one turn of a worker on the ring buffer is one step of the pool, and a pill makes that worker exit |
| ThreadPool.PoolSection | Net_Disk_v1/server/route_server/src/thread_pool.c:92-114 | every step of the pool, performed on the ring buffer and the thread states, has exactly the abstract effect |
| ThreadPool.RunPool | Net_Disk_v1/server/route_server/src/thread_pool.c:66-114 | the ring buffer follows every run of the pool step by step |
| Bytes.DecodeEncode | Net_Disk_v1/client/src/task.c:33-35 | a number that fits its width survives being written byte by byte and read back |
| Bytes.DecodeCut | Net_Disk_v1/server/route_server/src/route_task.c:8-14 | a number cut off in the middle is read right exactly if only zero bytes are missing |
| Channels.SendN | Net_Disk_v1/client/src/trans_file.c:4-19 | however `send` fragments, the whole buffer goes onto the stream, once and in order |
| Channels.RecvN | Net_Disk_v1/client/src/trans_file.c:21-36 | however `recv` fragments, exactly the next n bytes are taken off the stream; 0 exactly if the stream ends first, with what had arrived in the buffer |
| Framing.SendCmd | Net_Disk_v1/client/src/task.c:26-38 | writes the frame of the message that the train holds |
| Framing.FrameExample | Net_Disk_v1/client/src/task.c:26-38 | an upload message of one byte, as it is on the wire |
| Framing.GetsExample | Net_Disk_v1/client/src/task.c:26-38 | a download message without payload, as it is on the wire |
| Framing.RecvCmd | Net_Disk_v1/server/route_server/src/route_task.c:6-20 | on any stream whose length field fits the buffer: 0 exactly if the length does not arrive; otherwise the message as far as it arrives, with zeros for the rest, and exactly what follows it left on the stream |
| Framing.ParsedFrame | Net_Disk_v1/server/route_server/src/route_task.c:6-20 | a whole message is read as exactly what it says, whatever follows it |
| Framing.CutFrameIff | Net_Disk_v1/server/route_server/src/route_task.c:6-20 | a message cut off after its length is taken for a whole one, and for the one sent exactly if nothing but zeros is missing |
| Framing.CutFrameInput | Net_Disk_v1/server/route_server/src/route_task.c:6-20 | an input: an upload message that loses its last byte, a 1, is read as one with a 0 |
| Framing.SendAll | Net_Disk_v1/client/src/task.c:26-38 | messages sent one after another put the frames of exactly these messages on the stream |
| Framing.ReceiveAll | Net_Disk_v1/server/file_server_1/src/file_server_task.c:3-17 | the reader recovers exactly the sequence of messages sent, one by one; a stream that ends inside a further message yields one more exactly if its length arrived |
| Framing.FramesInjective | Net_Disk_v1/client/src/task.c:26-38 | different sequences of messages never give the same stream |
| Framing.FrameInjective | Net_Disk_v1/client/src/task.c:26-38 | a stream determines its first message and what follows it |
| TransFile.SendSmallFile | Net_Disk_v1/server/file_server_1/src/trans_file.c:37-58 | sends the requested number of bytes from the current position, whatever the offset asked for, zeros past the end |
| TransFile.SendBigFile | Net_Disk_v1/server/file_server_1/src/trans_file.c:60-89 | sends the bytes from the offset on and stops at the first page past the end of the file, answering -1 exactly then; every mapping is page aligned |
| TransFile.ReadOutIs | Net_Disk_v1/server/file_server_1/src/trans_file.c:37-58 | what a small send puts on the wire, byte by byte: the file from the position on, then zeros |
| TransFile.ServedIs | Net_Disk_v1/server/file_server_1/src/trans_file.c:60-89 | what a big send puts on the wire, byte by byte: the file from the offset on, then zeros up to the end of its last page |
| TransFile.RecvSmallFile | Net_Disk_v1/client/src/trans_file.c:73-94 | for every stream: what arrives is written over the file from its position, except the piece of 1024 bytes in which the stream ends early, which is lost; 0 exactly then, for a file that is not empty |
| TransFile.RecvBigFile | Net_Disk_v1/client/src/trans_file.c:96-122 | exactly the bytes that arrive are in the file from the offset on, also if the stream ends early, and exactly the pages written get blocks; the result is positive exactly if all arrived |
| FileServer.CStrStops | Net_Disk_v1/server/file_server_1/src/file_server_task.c:19-32 | the name read out of the zero-filled message buffer is the name that was sent |
| FileServer.FileServer.DoPutsTask | Net_Disk_v1/server/file_server_1/src/file_server_task.c:88-138 | for every stream: stores under the name what arrives of the announced file over what was there, and leaves every other file |
| FileServer.UploadServed | Net_Disk_v1/server/file_server_1/src/file_server_task.c:88-138 | a whole upload, on either path, stores exactly the file sent |
| FileServer.CutUploadServed | Net_Disk_v1/server/file_server_1/src/file_server_task.c:88-138 | an upload of which the header and some of the file arrive stores exactly what these bytes make of what was there, under its name alone |
| FileServer.CutUploadIff | Net_Disk_v1/server/file_server_1/src/file_server_task.c:88-138 | an upload that breaks off anywhere, in its header too, stores the file exactly if what it does not get to was right in what was stored before; inside the header that is the whole file, and the missing bytes of its size are zero |
| FileServer.CutUploadInputs | Net_Disk_v1/server/file_server_1/src/file_server_task.c:88-138 | two inputs that go wrong, a new file of which only the header arrives and a stored one whose next upload closes at once |
| FileServer.CutUploadHarmless | Net_Disk_v1/server/file_server_1/src/file_server_task.c:88-138 | and two that do not, with what is missing right on the server |
| FileServer.FileServer.DoGetsTask | Net_Disk_v1/server/file_server_1/src/file_server_task.c:34-86 | a part below the boundary is served from the start of the file, whatever the offset, any other from the offset asked for; nothing stored changes |
| FileServer.RequestServed | Net_Disk_v1/server/file_server_1/src/file_server_task.c:34-86 | a whole request is answered with the part asked for |
| FileServer.ReplyIs | Net_Disk_v1/server/file_server_1/src/file_server_task.c:47-72 | below 50 MiB a part is the start of the file whatever the offset; from there on it is the part at the offset |
| FileServer.UploadExample | Net_Disk_v1/client/src/trans_file.c:124-175 | an upload of one byte, as it is on the wire |
| FileServer.RequestExample | Net_Disk_v1/client/src/do_gets.c:132-138 | a request, as it is on the wire |
| FileServer.FileServer.TaskAnalyse | Net_Disk_v1/server/file_server_1/src/file_server_task.c:19-32 | for every stream: a connection that closes before a message, or says something else, does nothing; the others have the effect of that upload or download |
| NetClient.SplitAgrees | Net_Disk_v1/client/src/do_puts.c:76-109 | a file is split from 100 MiB on; for every size the parts add up, the first is page aligned, the second is 0 exactly for files that are not split, the parts differ by less than 8192, and both parts of a split file reach the server's boundary |
| NetClient.SendUpload | Net_Disk_v1/client/src/trans_file.c:124-175 | an upload puts the flag, the size and exactly the file on the stream, on either path |
| NetClient.DoPuts | Net_Disk_v1/client/src/do_puts.c:71-135 | an upload stores exactly the file on the first server, for a big file on the second as well, and changes nothing else; the sizes reported are those of the split |
| NetClient.PutCut | Net_Disk_v1/client/src/do_puts.c:86-135 | an upload whose connection breaks after some bytes of the file leaves on the server exactly what these bytes make of what was there |
| NetClient.DoGetsSmall | Net_Disk_v1/client/src/do_gets.c:174-206 | the file, or with a connection that breaks all but the last piece of what arrived, is written over what the target held; the result is the file exactly if the target was not longer, or, after a break, held the rest already |
| NetClient.SmallRightIff | Net_Disk_v1/client/src/do_gets.c:174-206 | the first m bytes of a file written over another file give the file exactly if the other was not longer, or for smaller m was as long and agreed from m on |
| NetClient.SmallInputs | Net_Disk_v1/client/src/do_gets.c:174-206 | two inputs that go wrong: an older longer target, and a connection that breaks at once |
| NetClient.ResumedSmall | Net_Disk_v1/client/src/do_gets.c:174-206 | any number of interrupted attempts at a small file followed by one that is left alone give exactly the file |
| NetClient.Prepare | Net_Disk_v1/client/src/do_gets.c:97-130 | the offset from which a part is resumed is page aligned, and all before it is right whatever interrupted the earlier attempt |
| NetClient.RightWriteKeeps | Net_Disk_v1/client/src/trans_file.c:96-122 | right bytes written from a point up to which all is right, cut off anywhere, leave a file that can be resumed |
| NetClient.ReceivedKeeps | Net_Disk_v1/client/src/trans_file.c:96-122 | wherever the stream ends, also when the offset is already beyond the part, the temporary file stays resumable, and it is right if the stream did not end early |
| NetClient.ReplyDelivers | Net_Disk_v1/server/file_server_1/src/trans_file.c:60-89 | what the server sends for a part, asked from any resumed offset and cut anywhere, starts with the bytes still missing |
| NetClient.DownloadKeeps | Net_Disk_v1/client/src/trans_file.c:96-122 | from every resumable state and every stream that begins with the missing bytes: resumable afterwards, complete if nothing was missing, and right exactly if what did not arrive was right before |
| NetClient.PthDownload | Net_Disk_v1/client/src/thread_func.c:20-27 | completes the part if the stream carries it, leaves a resumable file in any case, and makes the part right exactly if what did not arrive was right before |
| NetClient.MultiPointDownload | Net_Disk_v1/client/src/trans_file.c:54-71 | both parts are completed, or, when killed after any number of bytes of each, left resumable |
| NetClient.MergeFile | Net_Disk_v1/client/src/do_gets.c:144-163 | the in-place loop copies exactly the second part behind the first, page by page, or exactly as much as it got to |
| NetClient.Merge | Net_Disk_v1/client/src/do_gets.c:144-163 | merging two right parts gives the file; killed after any number of bytes, the first temporary file can still be resumed |
| NetClient.DoGetsBig | Net_Disk_v1/client/src/do_gets.c:60-172 | one attempt from any state that earlier attempts may have left: it gives the file unless killed; killed before, during or after the downloads it leaves exactly the bytes that had arrived or been merged, in files that can be resumed |
| NetClient.ResumedDownload | Net_Disk_v1/client/src/do_gets.c:60-172 | any number of killed attempts followed by one that is left alone give exactly the file |
| NetClient.ReceivedRightIff | Net_Disk_v1/client/src/trans_file.c:96-122 | a part is right after a download that ended early exactly if every byte that did not arrive was right before |
| BrokenDownloads.MergedRightIff | Net_Disk_v1/client/src/do_gets.c:144-163 | the merged file is right exactly if both parts were |
| BrokenDownloads.DroppedDownload | Net_Disk_v1/client/src/do_gets.c:132-172 | when connections break without the client being killed, it merges all the same: the result is the file exactly if every byte that did not arrive was right in the temporary files before |
| BrokenDownloads.FreshMissing | Net_Disk_v1/client/src/do_gets.c:109-130 | for a first attempt that condition is: the file has zeros wherever nothing arrived |
| BrokenDownloads.CleanAttempt | Net_Disk_v1/client/src/do_gets.c:97-172 | from whatever temporary files there are, an attempt that is left alone gives the file exactly if all before the two points of resumption is right |
| BrokenDownloads.DroppedAndKilled | Net_Disk_v1/client/src/do_gets.c:132-163 | when connections break and the client is then killed while merging, the first temporary file has blocks behind bytes that never arrived; the second can still be resumed |
| BrokenDownloads.DroppedKilledResumed | Net_Disk_v1/client/src/do_gets.c:97-172 | the next attempt then gives the file exactly if the bytes from where the download stopped up to where the client resumes were right in the first temporary file before |
| BrokenDownloads.TwoPagesHole | Net_Disk_v1/client/src/do_gets.c:97-130 | an input: nothing of the first part arrives and two pages are merged; the next attempt gives the file only if its first page is all zeros |
| NetClient.DoGets | Net_Disk_v1/client/src/do_gets.c:58-206 | from servers that hold a file, or each its part of it, with any number of interruptions, exactly the file is downloaded, on the path that its size selects; the servers keep what they hold |
| NetClient.UploadThenDownload | Net_Disk_v1/client/src/do_gets.c:58-206 | for every content below 2^31 bytes, every fragmentation and any number of interruptions, what comes back is byte for byte what was uploaded |
| Vfs.ComponentsRender | Net_Disk_v1/server/route_server/src/do_cd.c:36-58 | the path string determines the names it was put together from |
| Vfs.CutRender | Net_Disk_v1/server/route_server/src/do_cd.c:36-50 | cutting at the last slash undoes appending a name |
| Vfs.LoginOk | Net_Disk_v1/server/route_server/src/do_login.c:103-108 | after a login of any user the cached position is right in every table, and it is the root of that user |
| Vfs.PathExamples | Net_Disk_v1/server/route_server/src/do_cd.c:51-58 | the paths of the root and of directories one and two below it, as they are written |
| Vfs.ChildIff | Net_Disk_v1/server/route_server/src/do_cd.c:113-131 | a name leads to a directory exactly if there is one of that name, owner and parent, and then to the one of the lowest code |
| Vfs.CdDown | Net_Disk_v1/server/route_server/src/do_cd.c:110-190 | into a child: the code is what the lengthened path resolves to, the cached parent is right, and on failure the old position still holds |
| Vfs.CdUp | Net_Disk_v1/server/route_server/src/do_cd.c:91-109 | up: the code is what the shortened path resolves to and the cached parent is right; it fails exactly at the root |
| Vfs.CdKeeps | Net_Disk_v1/server/route_server/src/do_cd.c:8-198 | every cd keeps the code equal to resolving the path from the root and the cached parent right; a failed one changes neither code nor path; it succeeds exactly if the target resolves |
| Vfs.WalkKeepsPrefix | Net_Disk_v1/server/route_server/src/do_cd.c:8-198 | a walk that never climbs above a depth keeps the path up to that depth |
| Vfs.BalancedWalkReturns | Net_Disk_v1/server/route_server/src/do_cd.c:8-198 | any walk, failed steps included, that never climbs above its start and ends at the same depth restores code and path, and the cached parent up to the two ways of writing it at the root |
| Vfs.DownAndUp | Net_Disk_v1/server/route_server/src/do_cd.c:91-190 | a successful cd into a child followed by cd .. succeeds and restores code, path and cached parent |
| VfsUpdates.MkdirAdds | Net_Disk_v1/server/route_server/src/do_mkdir.c:45-66 | one directory more, of the name, the owner and the parent, with the next code, and nothing else changes |
| VfsUpdates.MkdirKeeps | Net_Disk_v1/server/route_server/src/do_mkdir.c:45-66 | whether or not the name is in use, mkdir keeps the table a forest in which only the first of several siblings of one name holds anything |
| VfsUpdates.SessionInFirst | Net_Disk_v1/server/route_server/src/do_cd.c:110-190 | no session ever stands in a directory that has a sibling of its name before it |
| VfsUpdates.InsertKeepsFirsts | Net_Disk_v1/server/route_server/src/do_mkdir.c:45-66 | so what a session makes or uploads goes into the first of its name |
| VfsUpdates.MkdirKeepsUniqueIff | Net_Disk_v1/server/route_server/src/do_mkdir.c:10-17 | sibling directory names stay distinct exactly if the name was not in use; the code does not refuse one that is |
| VfsUpdates.CdEntersMkdir | Net_Disk_v1/server/route_server/src/do_mkdir.c:45-66 | after mkdir the name can be entered, and the directory entered is the new one exactly if the name was new |
| VfsUpdates.RmdirUndoesMkdirIff | Net_Disk_v1/server/route_server/src/do_rmdir.c:68-147 | rmdir right after mkdir succeeds and restores all rows, but for the code used up, exactly if the name was new |
| VfsUpdates.InsertKeepsWalk | Net_Disk_v1/server/route_server/src/do_mkdir.c:45-66 | a new row changes the way to no directory that could be reached before |
| VfsUpdates.PutsKeeps | Net_Disk_v1/server/route_server/src/do_puts.c:47-258 | an upload keeps the forest, is quick exactly if the md5 is known, adds one row, and all rows of an md5 carry the same sizes and servers |
| VfsUpdates.PutsLists | Net_Disk_v1/server/route_server/src/do_puts.c:139-258 | an upload lists exactly one file more in its owner's directory and hides none |
| VfsUpdates.PutsThenGets | Net_Disk_v1/server/route_server/src/do_gets.c:52-102 | the row that a download works from right after an upload of the name is the new one |
| VfsUpdates.GetsIff | Net_Disk_v1/server/route_server/src/do_gets.c:62-67 | a download finds a row exactly if there is a file of that name, owner and parent, and then the one of the greatest code |
| VfsUpdates.GetsAfterInsert | Net_Disk_v1/server/route_server/src/do_gets.c:62-67 | what a download finds is not changed by a new directory, nor by a new file of another name or in another place |
| VfsUpdates.GetsAfterRmdir | Net_Disk_v1/server/route_server/src/do_rmdir.c:122-125 | nor by removing a directory |
| VfsUpdates.GetsAfterRm | Net_Disk_v1/server/route_server/src/do_rm.c:69-73 | nor, up to the count, by removing a file: a removed file can still be downloaded |
| VfsUpdates.RmHides | Net_Disk_v1/server/route_server/src/do_rm.c:39-98 | rm answers 0 exactly on a file that is listed, and hides that one and no other; otherwise it answers -1 and changes nothing |
| VfsUpdates.RmKeeps | Net_Disk_v1/server/route_server/src/do_rm.c:69-73 | rm changes nothing but counts of files, keeps the table in order and keeps every session's position |
| VfsUpdates.RmdirVerdict | Net_Disk_v1/server/route_server/src/do_rmdir.c:68-147 | 2 exactly if there is no such directory, 1 exactly if one of that name holds a row (removed files count), and 0 deletes exactly the directories of that name, all of them empty |
| VfsUpdates.RmdirZeroIff | Net_Disk_v1/server/route_server/src/do_rmdir.c:90-129 | the answer is 0 exactly if there is a directory of the name and all of them are empty, and it is never anything but 0, 1 or 2 |
| VfsUpdates.RmdirKeeps | Net_Disk_v1/server/route_server/src/do_rmdir.c:68-147 | rmdir orphans no row, also with several siblings of one name, keeps the table in order and deletes no file row |
| VfsUpdates.RmdirSeesAll | Net_Disk_v1/server/route_server/src/do_rmdir.c:96-125 | the emptiness test looks at one directory, yet everything that is then deleted is empty |
| VfsUpdates.RmdirKeepsForestIff | Net_Disk_v1/server/route_server/src/do_rmdir.c:68-147 | on any forest, reachable or not, rmdir keeps the forest exactly if it refuses or every directory of that name is empty |
| VfsUpdates.ForestAloneOrphans | Net_Disk_v1/server/route_server/src/do_rmdir.c:122-125 | being a forest would not be enough: a table that no run reaches, with a row in the second of two siblings of one name, is orphaned by rmdir |
| VfsUpdates.RmdirKeepsSessionIff | Net_Disk_v1/server/route_server/src/do_rmdir.c:122-125 | after a successful rmdir another session's position is right exactly if it does not stand in a deleted directory |
| VfsUpdates.InsertForestIff | Net_Disk_v1/server/route_server/src/do_mkdir.c:45-66 | what a session makes or uploads keeps the forest exactly if the directory in which it believes to stand is there |
| VfsUpdates.StrandedInsertIff | Net_Disk_v1/server/route_server/src/do_rmdir.c:122-125 | after a successful rmdir, what another session makes or uploads next is an orphan exactly if that session stood in a deleted directory |
| VfsUpdates.StrandedMkdirOrphans | Net_Disk_v1/server/route_server/src/do_rmdir.c:122-125 | from any table and for any new name: one session makes a directory, another enters it, the first removes it, and the next directory of the other is an orphan |
| VfsRuns.NextOk | Net_Disk_v1/server/route_server/src/do_cd.c:8-198 | every command of every session, an exit or an eviction included, keeps the table in order, every session's position right and every file row |
| VfsRuns.LegalIff | Net_Disk_v1/server/route_server/src/route_task.c:22-49 | which commands of a run are possible: any of a client with a session, with a proper name where one is made |
| VfsRuns.LoginEffect | Net_Disk_v1/server/route_server/src/do_login.c:103-108 | a login puts its client, and nobody else, at the root of its user |
| VfsRuns.TokenEffect | Net_Disk_v1/server/route_server/src/do_token.c:57-88 | a token gives its client, and nobody else, the session of the connection it comes from |
| VfsRuns.CdEffect | Net_Disk_v1/server/route_server/src/do_cd.c:8-198 | a cd moves its client, and nobody else, down by the target exactly if that leads somewhere, or up by one, to the place where its path then leads; the table stays |
| VfsRuns.MkdirEffect | Net_Disk_v1/server/route_server/src/do_mkdir.c:45-66 | a mkdir adds one directory of the name below that in which its client stands, and moves nobody |
| VfsRuns.PutsEffect | Net_Disk_v1/server/route_server/src/do_puts.c:47-258 | an upload adds one file of the name and the md5 where its client stands, described as the md5 is if it is known and as given if not |
| VfsRuns.RmEffect | Net_Disk_v1/server/route_server/src/do_rm.c:39-98 | after an rm the file is no longer listed, all others are, and no row has gone |
| VfsRuns.RmdirEffect | Net_Disk_v1/server/route_server/src/do_rmdir.c:68-147 | an rmdir deletes exactly the directories of the name if all of them are empty, and otherwise nothing |
| VfsRuns.LeaveEffect | Net_Disk_v1/server/route_server/src/main.c:161-184 | an exit or an eviction ends exactly the sessions of the clients that leave |
| VfsRuns.LoginMkdirCd | Net_Disk_v1/server/route_server/src/route_task.c:22-49 | from any table, for any user and any proper name: a client logs in, makes a directory and enters it, and then stands in a directory of that name below the root |
| VfsRuns.RunOk | Net_Disk_v1/server/route_server/src/do_puts.c:47-258 | over every run of commands from any number of sessions: the table stays a forest, every code is what its path resolves to, and no file row is lost |
| VfsRuns.KnownIsQuick | Net_Disk_v1/server/route_server/src/do_puts.c:101-222 | an md5 of which some row remains, removed or not, is uploaded quickly with that row's sizes and servers |
| VfsRuns.OnceKnownAlwaysKnown | Net_Disk_v1/server/route_server/src/do_rm.c:69-73 | over every run, once an md5 is known every later upload of it is quick and described alike, even after the file was removed |
| VfsRuns.EmptyWorld | Net_Disk_v1/server/mysql/Net_Disk.sql:25-44 | an empty table, whatever its next code, with no sessions is where runs may start |
| CommandLoop.Perform | Net_Disk_v1/server/route_server/src/main.c:133-184 | one command, exit or eviction, on the shared table and the records of all clients, has exactly the specified effect and touches no other client's record |
| CommandLoop.FitsWhen | Net_Disk_v1/server/route_server/src/do_cd.c:51-58 | the buffers exclude only paths of 128 characters or more, and a client that shows its own token |
| Server.Start | Net_Disk_v1/server/route_server/src/main.c:92-95 | at the start, with nobody connected and an empty table, all is in order |
| Server.StepOk | Net_Disk_v1/server/route_server/src/main.c:97-188 | every input of the event loop keeps: map and wheel agree, the table is in order, every position right, and only connected clients have sessions |
| Server.PossibleIff | Net_Disk_v1/server/route_server/src/main.c:97-188 | a connection is possible exactly with a descriptor that is not open, a departure exactly of a connected client, and a second always |
| Server.MessagePossibleIff | Net_Disk_v1/server/route_server/src/main.c:128-176 | a message is possible exactly of a connected client, if its command is |
| Server.SecondEffect | Net_Disk_v1/server/route_server/src/client_manager.c:309-359 | a second leaves a client its session, unchanged, exactly if it is not the last second of its time-out |
| Server.ComingAndGoing | Net_Disk_v1/server/route_server/src/main.c:103-184 | who connects has no session, and who leaves has none any more; nobody else's is there or gone for it |
| Server.OthersUntouched | Net_Disk_v1/server/route_server/src/main.c:97-188 | a connection, a message or a departure touches the session of no other client |
| Server.MessageEffect | Net_Disk_v1/server/route_server/src/main.c:133-160 | a message keeps its client connected and has the effect of its command |
| Server.SessionWhileRecent | Net_Disk_v1/server/route_server/src/main.c:97-188 | over every run a client has a session exactly if it has logged in since it connected and fewer seconds than the time-out have passed since it was last heard from |
| Server.RunOk | Net_Disk_v1/server/route_server/src/main.c:97-188 | so does every run of connections, messages, departures and seconds |
| Server.RmdirPossibleIff | Net_Disk_v1/server/route_server/src/do_rmdir.c:122-125 | what the runs exclude is exactly the removals after which the position of a client that is still connected is wrong |
| CommandLoop.ServeCommands | Net_Disk_v1/server/route_server/src/main.c:92-188 | from an empty table the heap follows every run of commands, exits and evictions; in the end the table is in order and every record's position right |
| Storage.NameForInjective | Net_Disk_v1/server/file_server_1/src/file_server_task.c:88-92 | different md5 sums are different file names |
| Storage.KeptAvailable | Net_Disk_v1/server/route_server/src/do_puts.c:47-99 | whatever part of an upload arrives at each server, what they then hold has the announced length and can be downloaded |
| Storage.WholeKept | Net_Disk_v1/client/src/do_puts.c:71-135 | when nothing breaks, what is kept is what was uploaded |
| Storage.SmallKeptIff | Net_Disk_v1/server/file_server_1/src/trans_file.c:91-113 | a small upload that breaks keeps the file exactly if every byte that was not written was right on the server before |
| Storage.BigKeptIff | Net_Disk_v1/server/file_server_1/src/trans_file.c:115-135 | a big upload to two servers that breaks keeps the file exactly if what did not arrive of each part was right on the server of that part before |
| Storage.UploadKeeps | Net_Disk_v1/server/route_server/src/do_puts.c:47-99 | an upload, whole, broken or quick, leaves every file row, the new one included, describing something that its servers hold, with the row's size and parts |
| Storage.ActKeeps | Net_Disk_v1/server/route_server/src/do_puts.c:47-258 | so does every other command |
| Storage.ContentStays | Net_Disk_v1/server/route_server/src/do_rm.c:69-73 | over every run of commands and uploads by any number of clients, broken uploads included, what a file row once describes stays on its servers, even when removed from the table |
| Storage.SecondUploadShares | Net_Disk_v1/server/route_server/src/do_puts.c:139-222 | after any run since the first upload of an md5, a second upload of it by anyone sends nothing, and the row that its download works from describes what was kept of the first: its content, if nothing broke |
| Storage.BrokenUploadShared | Net_Disk_v1/server/route_server/src/do_puts.c:139-222 | an input: a file of one byte, 1, of which only the announcement arrives; after any run everyone who uploads and downloads its md5 gets a 0 |
| Storage.EmptyDisk | Net_Disk_v1/server/mysql/Net_Disk.sql:25-44 | an empty table is in order, whatever the servers hold |
| Storage.DescribedSize | Net_Disk_v1/server/route_server/src/do_puts.c:224-258 | a row gives the size of what it describes and the two parts that make it up |
| Storage.CanActIff | Net_Disk_v1/server/route_server/src/do_puts.c:47-99 | an upload is possible for every client with a session, whatever of it arrives where |
| Storage.UploadContent | Net_Disk_v1/client/src/do_puts.c:71-135 | carried out on the servers it names, each connection breaking where it may, a new upload leaves every server exactly as the run says |
| Storage.DownloadRow | Net_Disk_v1/client/src/do_gets.c:58-206 | what a row describes is what a download from the servers that the row names gives, however often it is interrupted |
| Storage.ShareFile | Net_Disk_v1/server/route_server/src/do_puts.c:47-222 | on the shared table and the servers by their addresses: A uploads an unknown md5, B announces the same md5 whatever it says of the file, and B's download from the servers that the table names is byte for byte A's file |
| RouteServer.CutPath | Net_Disk_v1/server/route_server/src/do_cd.c:36-50 | scanning back and zeroing in the buffer leaves exactly the string up to the last slash |
| RouteServer.StrCat | Net_Disk_v1/server/route_server/src/do_cd.c:51-58 | appending in the buffer gives exactly the concatenation, terminated inside the buffer |
| RouteServer.SqlDoCd | Net_Disk_v1/server/route_server/src/do_cd.c:82-198 | the fields of the client and the answer follow the specified cd for every branch |
| RouteServer.MovePath | Net_Disk_v1/server/route_server/src/do_cd.c:36-58 | editing the path in its buffer gives exactly the specified path, and copies it out |
| RouteServer.DoCd | Net_Disk_v1/server/route_server/src/do_cd.c:8-80 | the client record with its path buffer becomes exactly the session that the specified cd gives, and the reply is its path or the error |
| RouteServer.DoLogin | Net_Disk_v1/server/route_server/src/do_login.c:103-108 | the client record becomes the session at the root of its user |
| RouteServer.DoToken | Net_Disk_v1/server/route_server/src/do_token.c:68-74 | the client record takes over the position of the connection whose token it shows |
| RouteServer.DoMkdir | Net_Disk_v1/server/route_server/src/do_mkdir.c:45-66 | the shared table changes exactly as the specified mkdir |
| RouteServer.DoRmdir | Net_Disk_v1/server/route_server/src/do_rmdir.c:68-147 | the two queries and the deletion change the shared table and answer exactly as the specified rmdir |
| RouteServer.DoRm | Net_Disk_v1/server/route_server/src/do_rm.c:39-98 | the query and the update change the shared table and answer exactly as the specified rm |
| RouteServer.DoPuts | Net_Disk_v1/server/route_server/src/do_puts.c:47-258 | the query and the insertion change the shared table and answer exactly as the specified upload |
| RouteServer.SqlDoGets | Net_Disk_v1/server/route_server/src/do_gets.c:52-102 | the loop over the matching rows ends with the md5 and the servers of the last file of that name, owner and parent |

## Left out

- `hashmap_destroy` and `block_queue_peek`, which nothing calls, and the destructors.
- Sockets, epoll, `accept`, signals, logging, terminal output and the seed taken from the clock: the seed is a parameter, and `accept` is assumed to hand out a descriptor that is not open.
- Login by name and password, registration, tokens, `crypt`, JWT, OpenSSL: only what they do to a session is modelled.
- MySQL: a query always succeeds, one command is one step, names match exactly, rows come in the order of their codes, and the branches for failed queries are not modelled.
- `ls` and `pwd`, which only read the table.  Of the route server's side of `gets` only the query is modelled; it answers a name that is not there like one that is, with an empty md5.
- `load_balance`: the two servers of an upload are parameters of it, as are the sizes that the client reports.
- Parsing of command lines and of configuration lines with `strtok` and `fgets`: commands and settings come in already split.
- What a worker does between two turns at the queue, and freeing of memory.
- `client_t.name`, which no modelled operation reads.
- Files of 2^31 bytes and more, whose sizes do not fit the message fields.
- ClientManager.TimerFunc: a tick is one step; a signal that arrives while a command or an eviction is under way, and a worker that still holds a client evicted meanwhile, are not modelled.
- ClientManager.AddClient: asks for a descriptor that is not yet in the map, and ClientManager.DelClient and ClientManager.UpdateClient for one that is.
- EventLoop.Handle: assumes that an event concerns a client that is still connected.  The loop does not look: an event fetched together with others, for a client that a tick evicts before its turn, would be handled with a null client.  `IdleEviction.FetchedBeforeTick` says exactly when that is.
- EventLoop.Serve: assumes the same of the whole history.
- ConfigTable.ReadConfig: lines of which each finds a place, as 32 lines always do, with non-empty keys and values of fewer than 32 characters; on a full table a probe may go round for ever.
- ConfigTable.Config.Insert: the insertion probe ends; ConfigTable.Config.Find: the lookup probe ends.  On a full table they need not.
- Channels.RecvN: a `recv` that fails, with a negative result, is not modelled; `recv_cmd` takes it for a message that has arrived.
- Channels.SendN: a `send` that fails, with its early return, is not modelled on the sender's side; what the receiver sees of it, a stream that ends early, is.
- Framing.RecvCmd: a length that does not fit the buffer, which the source does not check and which would overrun it, is not modelled.
- FileServer.FileServer.DoPutsTask: the announced size is not negative as a C `off_t`, and the repository takes the new contents when the transfer ends, not byte by byte.
- FileServer.FileServer.DoGetsTask: the file asked for is in the repository, since the server process ends otherwise; the two numbers are not negative; and a part at or above the boundary begins on a page, since its mapping fails otherwise.
- NetClient.MultiPointDownload: the two download threads are run one after the other; they share no file and no stream.
- NetClient.DoPuts: the two uploads of a big file are done one after the other, where the source interleaves their headers; they share no stream.
- NetClient.DoGetsBig: pages get their blocks in the order in which they are written, and the two servers' connections are opened when needed.
- BrokenDownloads.DroppedDownload: a limit beyond what is missing stands for a connection that does not break.
- BrokenDownloads.DroppedKilledResumed: one such attempt and then one that is left alone; after several of them in a row BrokenDownloads.CleanAttempt still says exactly when the last one gives the file.
- Vfs.CdKeeps: assumes that directory names are non-empty and hold neither a slash nor a NUL.
- RouteServer.DoCd: the path after a successful cd has to fit its 128-byte buffer; the source does not check that it does.
- VfsRuns.RunOk: runs in which nobody removes a directory that the session of a client still connected stands in, and in which a token is that of a client still connected; what happens after such a removal is stated by the lemmas named above.  Two uploads of one md5 at the same time are not modelled.
- Commands before a login: the source accepts them from any connection, with user 0, an empty path and code 0.  RouteServer.DoCd covers them, but the runs of VfsRuns do not, since an empty path resolves to nothing and what user 0 inserts fails the table's foreign key.
- Storage.ContentStays: an upload, whole or broken, is one step; and an upload that breaks in the header, of which FileServer.CutUploadIff speaks, is not among the steps.
- Storage.ShareFile: speaks of contents with one md5 as the clients announce it; that different contents have different md5 sums is not part of this model.
- The other versions of the program, which are earlier or partial, and file_server_2 and file_server_3, which are copies.
