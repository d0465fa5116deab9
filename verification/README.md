# FindFriendBot: the member directory and its pools, in Dafny

FindFriendBot introduces friends to each other. A friend who sends `/start` allows the bot to recommend it,
`/stop` takes that back, and `/get` shows another friend who is online and allowed it. The bot keeps a table of
registered members (one row per public key) and a cache of `Member` objects for those who are connected, taken
from a recycling pool.

This project models that core and proves what it promises, over every run and every interleaving.

| file | what it holds |
|---|---|
| `Directory.dfy` | events, and what one event does to the connected friends, the cache and the table |
| `Consent.dfy` | who may be recommended, told from the run alone |
| `NonInterference.dfy` | no user's events reach another user's data |
| `Agreement.dfy` | when the cached copy of a record agrees with its row, exactly |
| `Accounting.dfy` | where every Member object is: cached, pooled, deleted or orphaned |
| `KeyOrder.dfy`, `Recommend.dfy` | key order of `std::map`, and the choice `/get` makes |
| `CommandLine.dfy` | from the text of a message to a command, with 64-bit unsigned positions |
| `Dialogue.dfy` | what each input means, who is registered and shown after a run of inputs, and what is answered |
| `Member.dfy`, `LockedQueue.dfy`, `MemberMgr.dfy`, `DBConn.dfy`, `MemberModel.dfy`, `Assisant.dfy` | the classes: pointers, pools and callbacks, proved to do what the pure files say |
| `ConnectionPool.dfy` | the connection pool as a protocol of interleaved threads |
| `Backoff.dfy` | resending the welcome message: the doubling timer and its heap buffer |
| `Avatar.dfy` | the avatar buffer and its chunks |

`Callbacks.Assisant.Serve` is where the two levels meet: after any run of inputs, the map of pointers, the pool and
the table mean what `Accounting.RunHeap` says, and the answers to `/get` are `Dialogue.Answers`. The lemmas about
runs then hold of the objects. `Serve` also says it from the inputs alone: who is connected, registered and cached at
the end, and who was shown on the way. `Callbacks.Assisant.Handle` says what one input does. Likewise every call of `DBConn.Pool` is proved to be a passage of one thread through the
protocol of `ConnectionPool`, so that what holds under every schedule holds of the pool the callbacks use.

## What was found

- A `/start` by a user who is already cached rewrites the row (and empties its signature) but not the cached record,
  because `std::map::insert` keeps what it has. Until that user reconnects, `/get` goes on showing the old Tok ID, name,
  bio and signature: `Agreement.RepeatedStartIsNotShown`. The object allocated for the repeat is orphaned:
  `Accounting.OrphansAreCollisions`. `Agreement.FieldAgreesIff` gives the exact condition, field by field.
- A `/start` or `/set` parameter with a NUL character in it is kept whole in the cache, but is cut at the NUL in the
  row, which is written through `c_str()`. That is the other half of the same condition: `Agreement.NulPartsTheTwo`.
- When a space comes before the first slash, the word count wraps: the command word is all the rest of the message, and
  the parameter is the message from that space on, the word included (`CommandLine.ParseSpaceFirst`). Such a message
  cannot carry a parameter of the user's own after the word, but its /start is never without a Tok ID. It passes by
  the refusal of an empty ID, and replaces the user's row with that text as the ID and an empty signature:
  `CommandLine.SpaceFirstStart`. `CommandLine.StartWithoutIdIff` says exactly which messages are refused.
- The test of an avatar request compares a 64-bit sum. A request that ends past 2^64 by no more than the size of the
  image passes it and reads outside the buffer, and no other request does: `Avatar.AnswerIff`, `Avatar.BrokenIff`.
- The cached keys are exactly the connected registered friends only as long as every `/start` comes from a connected
  friend: `Consent.KeysExactIff`. Consent itself needs no such condition.
- With k threads the connection pool never has more than k connections, whatever `max_conn` is, and k free ones can be
  reached even for `max_conn` = 0. `release` can destroy a connection only with at least `max_conn` + 2 threads.

## Assumptions about the surroundings

- Statements on the table succeed in the callbacks. The operations of `MemberModel` take an `ok` argument for a
  statement that throws, which leaves the table alone and gives the connection back, and `FindFriend` takes the number
  of columns read before a read throws, which leaves a half-filled object.
- The table is a map from public key to row (the key is unique) and stores strings as they are given to it.
- Connections and objects that are created are not null, and `malloc` does not fail.
- The messenger is a source of events. What it knows of who is connected is ghost state; what it answers for a friend's
  name and status message comes with each message; a timer fires at most once.
- `rand()`, `isClosed()`, the avatar file's contents, whether it can be opened, and the success of a send are arguments or arbitrary values.
- Sizes and positions are of 64 bits (`size_t`, `uint64_t`), the avatar's size is of 32, as in the source.
- Command words and parameters change case as in the "C" locale. No message is as long as the largest `size_t`.
- The two caps are parameters everywhere, so what is proved holds of `Member::MAX_POOL_SIZE` = 1024 and of any `max_conn`.
- The unlocked read of the free list's size in `DBConn::release` is one step. `CMakeLists.txt` defines no thread macro,
  so the program as built runs the protocol with one thread (k = 1); the lock is the one of the pthread branch.

## Model

| member | source | states |
|---|---|---|
| Consent.TableIsConsent | src/MemberModel.cpp:38-87 | after any run, with restarts, a user has a row iff its last carried-out /start has no /stop after it, or it was registered before the run and never sent /stop |
| Consent.ConnectedIsOnline | src/Assisant.cpp:45-74 | a friend is connected iff its last connection event since the last restart says so |
| Consent.CacheBetween | src/MemberMgr.cpp:32-53 | in every run connected registered friends are cached and only registered ones are |
| Consent.KeysExactIff | src/Assisant.cpp:48-72 | the cached keys are exactly the connected registered friends after every prefix of a run iff every carried-out /start came from a connected friend |
| Consent.OnlyConsentingMembersAreShown | src/Assisant.cpp:356-371 | in every run whoever /get shows is not the requester and has consented |
| Consent.ShownIsOnlineAndConsenting | src/Assisant.cpp:356-371 | the members some roll of /get can show are exactly the other friends who are online and consenting |
| Consent.GetFindsNobodyIff | src/MemberMgr.cpp:55-70 | /get finds nobody, on any roll, iff no other friend is online and consenting |
| Directory.StartIsRefused | src/Assisant.cpp:300-312 | a /start without a Tok ID, or by a user whose name or status message is unknown, changes nothing |
| Directory.StartRegisters | src/Assisant.cpp:314-326 | any other /start writes the whole row, and caches a record unless there is one |
| NonInterference.SameOwnEventsSameView | src/Assisant.cpp:188-216 | two runs in which a user starts from the same place and does the same leave it the same connection, row and cached record, whatever all others do |
| Agreement.LastWriteWins | src/MemberModel.cpp:38-153 | after any run each field of a row has the value of the last event that writes it, the signature being emptied by every /start |
| Agreement.UnwrittenIsInitial | src/MemberModel.cpp:38-153 | a field no event wrote is still what the table held at the beginning |
| Agreement.FieldAgreesIff | src/Assisant.cpp:315-326 | a field of a cached record equals the row's iff the last event touching it was neither a /start that met the record in the cache with another value nor a parameter with a NUL |
| Agreement.LastTouchExists | src/MemberMgr.cpp:32-34 | every field of every cached record has such a last event |
| Agreement.CacheIsRow | src/Assisant.cpp:340-354 | a user who never repeats /start while cached and sends no NUL has a cached record equal to its row, in every run |
| Agreement.RepeatedStartIsNotShown | src/MemberMgr.cpp:32-34 | in every run, /start by a cached user changes the row only, and a reconnection makes the two equal again |
| Agreement.NulPartsTheTwo | src/Assisant.cpp:315-326 | a first /start whose Tok ID has a NUL leaves the whole ID in the cache and a shorter one in the row |
| Agreement.NulPartsTheTwoAt | src/Assisant.cpp:315-326 | for the ID A, NUL, B the row gets A |
| Accounting.TickCounts | src/LockedQueue.h:40-71 | how each event changes the numbers of created, pooled, deleted and orphaned objects |
| Accounting.Conservation | src/LockedQueue.h:40-71 | in every run, created = cached + pooled + deleted + orphaned |
| Accounting.OrphansAreCollisions | src/MemberMgr.cpp:32-34 | the orphans are as many as the times since the last restart that add_member met a cached key |
| Accounting.LiveWithinPeak | src/LockedQueue.h:40-54 | objects alive never exceed those in use, counting orphans, at one moment since the last restart |
| Accounting.PoolWithinCap | src/LockedQueue.h:57-71 | the pool never holds more than its cap plus one |
| Accounting.PoolReachesCapPlusOne | src/LockedQueue.h:63-67 | for every cap, some run fills the pool with cap plus one objects |
| Recommend.ChooseFindsSomeoneElse | src/MemberMgr.cpp:55-70 | nobody is chosen iff there is nobody else, and the requester never is |
| Recommend.ChooseReachesEveryone | src/MemberMgr.cpp:62-67 | every other member has one position in key order and is chosen iff the roll falls on it |
| Recommend.NearUniform | src/MemberMgr.cpp:64 | of the rolls below a bound, the member at position i gets bound / n, and one more iff i < bound % n |
| Recommend.SharesAddUp | src/MemberMgr.cpp:64 | the members' shares of the rolls add up to all of them |
| KeyOrder.LessIff | src/MemberMgr.cpp:55-70 | keys are compared as in a dictionary: at the first difference the one that ends or has the smaller byte is less |
| KeyOrder.KeysInOrder | src/MemberMgr.cpp:63-64 | the walk over the map meets every key once, in strictly increasing byte order |
| CommandLine.ParseSlashFirst | src/Assisant.cpp:218-231 | prefix/word param, with no space before the slash, parses to word and param |
| CommandLine.ParseSpaceFirst | src/Assisant.cpp:218-231 | with a space before the slash the count wraps: the word is the rest of the message and the param starts at the space |
| CommandLine.ParseIsTotal | src/Assisant.cpp:218-231 | every message with a slash is of exactly one of these kinds, and no substr throws on any message |
| CommandLine.LayoutsParse | src/Assisant.cpp:218-231 | the three layouts of a message spelled out character by character, with what each parses to |
| CommandLine.CaseOfText | src/Assisant.cpp:236-238 | each letter changes case and every other character stays |
| CommandLine.PlainCommands | src/Assisant.cpp:233-260 | slash, a command's word in any case, and a space with anything after it is that command |
| CommandLine.InterpretIff | src/Assisant.cpp:233-260 | every message is taken for a command iff that word, in any case, comes right after its first slash, up to the first space or, if a space came earlier, to the end |
| CommandLine.ParameterIs | src/Assisant.cpp:237-243 | /start gets the upper-cased parameter, /set gets it as it is |
| CommandLine.SpaceInsideTheWordIsNoCommand | src/Assisant.cpp:226-227 | a message with a space before the slash and another one in the rest after it is no command |
| CommandLine.SpaceFirstStart | src/Assisant.cpp:300-315 | a /start with a space before its slash always gets a Tok ID, the upper-cased message from that space on, and, if the profile is there, replaces the row with it and an empty signature |
| CommandLine.StartWithoutIdIff | src/Assisant.cpp:300-303 | a message is a /start without an ID iff no space comes before its slash and nothing after its word |
| Backoff.BackoffOfOneFriend | src/Assisant.cpp:425-451 | for any base and maximum that doubling cannot wrap: intervals base * 2^i, all but the last within the maximum, none above twice it, sum base * (2^n - 1) < 4 * maximum |
| Backoff.ProgramBackoff | src/Assisant.cpp:34-35 | with base 1 and maximum 128: nine timers, waiting 511 in all |
| Backoff.PendingOnSchedule | src/Assisant.cpp:441-449 | every timer pending in any run is armed with an interval of the back-off |
| Backoff.ResendingEnds | src/Assisant.cpp:425-451 | for any friends, timer order and outcomes: timers fired for a friend plus timers to come are at most n per failed request of that friend, exactly n if every resend to it fails |
| Backoff.Resender.FriendRequest | src/Assisant.cpp:86-95 | a failed first send arms the base interval with a fresh buffer |
| Backoff.Resender.EventTimeout | src/Assisant.cpp:425-451 | a firing timer frees its buffer (success or giving up) or hands it on to a timer of the same friend with the doubled interval; buffers and timers stay in bijection |
| Backoff.Resender.Free | src/Assisant.cpp:431-444 | only a live buffer can be freed, and it is then freed for good |
| Backoff.Resender.Serve | src/Assisant.cpp:76-96 | over any run the pending timers are the protocol's, one live buffer each, and live plus freed buffers are the failed requests |
| Avatar.ImageIsTheFile | src/Assisant.cpp:157-186 | in a run of requests the image is the whole file, below 2^32 bytes, that the first request to find it readable and not empty met |
| Avatar.RequestSends | src/Assisant.cpp:118-143 | each request of a run adds its slice to what is sent if it lies within the image, and else nothing |
| Avatar.FileReachesTheReceiver | src/Assisant.cpp:118-143 | the receiver gets only bytes of the file, and the whole file iff the requests that lie within it cover it |
| Avatar.AnswerIff | src/Assisant.cpp:120-137 | for every 64-bit position and length: a request passes the test and reads outside the image iff its end is past 2^64 by at most the image's size, and is answered, with exactly its slice, iff it lies within the image |
| Avatar.BrokenIff | src/Assisant.cpp:118-143 | a run of requests reads outside the image iff some request overruns, in that way, the image there is by then |
| Avatar.BrokenOnceLoaded | src/Assisant.cpp:118-143 | once an image is loaded this depends on the requests and its size alone |
| Avatar.ChunksOfOneImage | src/Assisant.cpp:118-143 | all chunks answered in any run, up to a read outside the image if there is one, are slices of one image, even if the file changes between requests |
| Avatar.Reassembly | src/Assisant.cpp:118-143 | the receiver's bytes always belong to the image and are the whole image iff the answered chunks cover it, in any order and with repeats |
| Avatar.Sender.FileChunkRequest | src/Assisant.cpp:118-143 | one request: loads the whole file if needed, and answers the slice, nothing, or copies from outside, each told exactly |
| Avatar.Sender.FriendConnected | src/Assisant.cpp:55-68 | the connection callback loads the whole file, below 2^32 bytes, into an empty buffer, keeps a loaded one, and offers the avatar iff there is a buffer |
| Avatar.Sender.Serve | src/Assisant.cpp:118-143 | any run of requests answers the chunks of the specification, each a slice of the final image, which is the file, and goes wrong only where the specification says |
| ConnectionPool.PoolIsSafe | src/DBConn.cpp:53-79 | under every schedule of k threads: no pop from an empty list, one holder of the lock, every connection in one place, created = free + held + destroyed |
| ConnectionPool.WaitsForTheLock | src/DBConn.cpp:55-75 | a thread that finds the lock taken changes nothing |
| ConnectionPool.OthersStay | src/DBConn.cpp:53-79 | a move of one thread moves no other |
| ConnectionPool.LiveWithinPeak | src/DBConn.cpp:53-79 | connections alive never exceed those held at once at some moment of the run |
| ConnectionPool.LiveWithinThreads | src/DBConn.cpp:53-79 | k threads never have more than k connections |
| ConnectionPool.FreeListWithinThreads | src/DBConn.cpp:71-79 | the free list, with the connections already let in by the unlocked test, has at most k |
| ConnectionPool.FreeListReachesThreads | src/DBConn.cpp:71-79 | for every k and maximum, even 0, some schedule makes the free list k long |
| ConnectionPool.ReleaseDestroysIff | src/DBConn.cpp:72-73 | release destroys a connection under some schedule iff k >= maximum + 2 |
| ConnectionPool.SomeoneCanMove | src/DBConn.cpp:53-79 | the pool never deadlocks |
| ConnectionPool.ShutdownLeavesNothing | src/DBConn.cpp:34-42 | once all threads are out, the destructor's walk destroys no connection twice, and after it every connection ever created is destroyed |
| ConnectionPool.AllocateFresh | src/DBConn.cpp:56-57 | an uninterrupted allocate on an empty list creates one connection |
| ConnectionPool.AllocateOpen | src/DBConn.cpp:60-62 | an uninterrupted allocate takes the last connection off the list and hands it out if it is open |
| ConnectionPool.AllocateClosed | src/DBConn.cpp:60-65 | an uninterrupted allocate deletes the last connection if it is closed, and hands out a new one |
| ConnectionPool.ReleaseKeeps | src/DBConn.cpp:74-78 | an uninterrupted release with room in the list pushes the connection |
| ConnectionPool.ReleaseDestroys | src/DBConn.cpp:72-73 | an uninterrupted release to a list longer than the maximum destroys the connection |
| DBConn.Pool.Allocate | src/DBConn.cpp:53-69 | a connection nobody holds; the number alive grows only if the list was empty; the call takes the protocol's one thread from outside to holding this connection |
| DBConn.Pool.Release | src/DBConn.cpp:71-79 | the connection is destroyed iff the list is longer than the maximum, and pushed otherwise; the call takes the protocol's one thread back outside |
| DBConn.Pool.FollowsSafely | src/DBConn.cpp:53-79 | a pool that follows the protocol's one thread, as it does after every call, keeps every connection in one place, and created = free + in hand + destroyed |
| DBConn.Pool.AtMostOne | src/DBConn.cpp:53-79 | a pool that follows the protocol's one thread never has more than one connection, free or in hand |
| DBConn.Pool.Shutdown | src/DBConn.cpp:34-42 | every connection not held is destroyed, once |
| Members.Member.Clear | src/Member.cpp:39-46 | no field keeps what the last user left |
| LockedQueue.LockQueue.Allocate | src/LockedQueue.h:40-54 | the last pooled object, or a new one if there is none |
| LockedQueue.LockQueue.Deallocate | src/LockedQueue.h:57-71 | deleted iff the pool is already larger than the cap, pooled otherwise, null ignored |
| LockedQueue.LockQueue.Clear | src/LockedQueue.h:82-102 | everything pooled is deleted, each object once |
| MemberMgr.Manager.Allocate | src/MemberMgr.cpp:88-98 | a blank object owned by the caller; no cached record changes |
| MemberMgr.Manager.AddMember | src/MemberMgr.cpp:32-34 | first one in wins; on a taken key the new object is orphaned |
| MemberMgr.Manager.FindMember | src/MemberMgr.cpp:36-42 | the object under the key, or null |
| MemberMgr.Manager.WriteThrough | src/Assisant.cpp:194-197 | writing through the pointer of find_member changes exactly the one record under that key |
| MemberMgr.Manager.DelMember | src/MemberMgr.cpp:44-53 | exactly that entry goes, and its object goes to the pool or is deleted |
| MemberMgr.Manager.RandomMember | src/MemberMgr.cpp:55-70 | the object of the chosen key, the cache unchanged |
| MemberMgr.Manager.Destroy | src/MemberMgr.cpp:72-82 | the draining loop ends with an empty map and no object lost |
| MemberMgr.Manager.Shutdown | src/MemberMgr.cpp:72-82 | after both destructors the deleted objects are exactly those created and not orphaned |
| MemberModel.Model.AddFriend | src/MemberModel.cpp:38-67 | the row is rewritten whole; the connection comes back on both paths and never more than one is open |
| MemberModel.Model.DelFriend | src/MemberModel.cpp:69-87 | the row goes; the answer says whether there was one |
| MemberModel.Model.UpdateFriendSignature | src/MemberModel.cpp:89-109 | only the signature of an existing row changes; the answer is the driver's count |
| MemberModel.Model.UpdateFriendBio | src/MemberModel.cpp:111-131 | only the bio of an existing row changes |
| MemberModel.Model.UpdateFriendName | src/MemberModel.cpp:133-153 | only the name of an existing row changes |
| MemberModel.Model.FindFriend | src/MemberModel.cpp:156-185 | an object filled from the row, as far as it could be read, or null and nothing allocated |
| Callbacks.Assisant.FriendOnline | src/Assisant.cpp:48-53 | the objects do what the directory and the accounting say of a connection |
| Callbacks.Assisant.FriendOffline | src/Assisant.cpp:70-72 | the same for a disconnection |
| Callbacks.Assisant.CmdStart | src/Assisant.cpp:299-331 | the same for /start; without an ID or a profile nothing changes |
| Callbacks.Assisant.CmdStop | src/Assisant.cpp:333-338 | the same for /stop; answered iff there was a row |
| Callbacks.Assisant.CmdSet | src/Assisant.cpp:340-354 | the same for /set; answered iff there is no signature or the driver counts the row it updates |
| Callbacks.Assisant.CmdGet | src/Assisant.cpp:356-371 | the object at position roll % n of the n other keys in order, with exactly its cached record, or null if there is none |
| Callbacks.Assisant.FriendName | src/Assisant.cpp:188-201 | the same for a name change |
| Callbacks.Assisant.FriendStatusMessage | src/Assisant.cpp:203-216 | the same for a bio change |
| Callbacks.Assisant.FriendMessage | src/Assisant.cpp:98-106 | a message does what its text asks for, and only /get is shown somebody |
| Callbacks.Assisant.Handle | src/Assisant.cpp:45-106 | what each input does, in its own terms: connection, disconnection, crash, name, status message, /start, /stop and /get; nobody else's data change |
| Callbacks.Assisant.Loop | src/main.cpp:56-59 | over any run the pointers, the pool and the table refine the directory and the accounting, and the answers are those of the specification |
| Callbacks.Assisant.Serve | src/main.cpp:56-59 | and from the inputs alone: connected iff so reported since the last loss, registered iff /start said after any /stop, cached iff both when /start comes from connected friends; only a /get shows somebody, another and registered, and nobody iff nobody else is |
| Dialogue.ConnectionMeans | src/Assisant.cpp:48-72 | the state after a connection, a disconnection and a crash, exactly |
| Dialogue.ProfileMeans | src/Assisant.cpp:188-216 | the state after a name or a status message, exactly |
| Dialogue.StartMeans | src/Assisant.cpp:299-331 | the state after a text with /start, exactly, with its refusals |
| Dialogue.BareStartMeans | src/Assisant.cpp:300-303 | prefix/start, in any case and with nothing after it, changes nothing |
| Dialogue.SetMeans | src/Assisant.cpp:340-354 | the state after a text with /set, exactly |
| Dialogue.OtherTextMeans | src/Assisant.cpp:233-260 | a text with /stop removes row and record; one with none of /start, /stop and /set changes nothing |
| Dialogue.OthersInput | src/Assisant.cpp:188-216 | an input of one user leaves every other user's connection, row and record alone |
| Dialogue.InputsDecide | src/Assisant.cpp:45-74 | connected, registered and cached after a run, told from the inputs |
| Dialogue.ShownIs | src/Assisant.cpp:356-371 | only /get shows anybody: the cached record at position roll % n of the n others in key order |
| Dialogue.GetIsNearUniform | src/MemberMgr.cpp:62-67 | of the rolls below a bound, /get shows the member at position i for bound / n, and one more iff i < bound % n |
| Dialogue.AnswersAre | src/Assisant.cpp:356-371 | every answer of a run: none but to /get, none iff nobody else is cached, online and consenting when starts were online, and else by the roll with the cached record |
| Dialogue.WhoIsShown | src/Assisant.cpp:356-371 | told from the inputs, somebody is shown only to /get, never to himself and only if he agreed |
| Dialogue.NobodyIsShownIff | src/MemberMgr.cpp:55-70 | told from the inputs, /get shows nobody iff nobody else is up and agreed |
| Dialogue.AnswersAreConsensual | src/Assisant.cpp:356-371 | in a whole run nobody is shown to himself or without having consented by then, nor offline if /start came from connected friends |
| Dialogue.AnswersAreCurrent | src/Assisant.cpp:356-366 | the record shown is the row at that moment, for a member who never repeated /start while cached and sent no NUL |
| Callbacks.RecyclingIsInvisible | src/LockedQueue.h:40-71 | two processes on the same table, with different caps, connection limits and other users, leave a user who does the same in both with the same connection, row and cached record |

## Left out

- Network calls, bootstrap, save data, configuration files and logging: input and output of libraries.
- The texts of the replies; /info, /help and /readme change nothing.
- `create_time` and `update_time`: written, never read.
- Failing statements and reads inside a whole run: `Callbacks.Assisant` always passes `ok` and all columns; a /stop whose DELETE fails, or a half-filled object that is cached, is not followed further.
- Column types: the table neither shortens strings nor pads them.
- `lock_queue` under several threads, its disabled specialisation and `lock_container`: the pool of members is used by one thread.
- Names and status messages that are not ended by a NUL, and names the messenger cannot give: a missing name or status message only makes /start do nothing.
- What happens after a copy from outside the avatar's buffer, which C++ does not define: a run is followed up to there.
- Null entries of the map: `std::map::operator[]` is never used and no null is inserted, which `MemberMgr.Manager.Valid` states.
- Fairness between threads: `ConnectionPool.SomeoneCanMove` says that the pool moves, not that each thread gets its turn.
