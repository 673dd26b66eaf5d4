# Verified models of the cache simulator, the instant message server, Mancala and the shell parser

This project models the cores of these programs in Dafny and proves what they are for:
`dafny verify dfyconfig.toml` checks all of it.

## What is modelled

**Cache simulator** (`Recency`, `CacheTrace`, `CacheLines`, `CacheSim`, `CacheTheorems`, `Competitive`,
`Tightness`). The simulator keeps an age counter in every line, raises all counters of a set on each access,
resets the line that was touched and evicts the line with the largest counter. `CacheSim` has the arrays, the
scanning loops and the counters of the source. They are proved to do, on every trace, what textbook LRU does
on a recency list (`Recency.Lru`) and to count what `CacheTrace.Totals` says, a function of the trace alone.
About that function the classical theorems follow: hits are decided by reuse distance, more lines never lose a
hit, the counters are conserved, trace rewritings change nothing, the sets are independent, and LRU misses at
most E times as often as any other demand replacement policy, a factor that cannot be lowered.

**Instant message server** (`ImAccounts`, `ImProtocol`, `ImEdges`, `ImConsent`, `ImDelivery`, `ImMirror`,
`ImConnections`, `ImAnswers`, `ImEffects`, `Udbase`, `ImServer`). `ImProtocol.Step` gives, for each client
operation, the new database, the messages in sending order and the return code. What it sends, returns and
leaves is said a second time by user name, with every limit, error and return code written out
(`ImAnswers.StepSends`, `ImEffects.StepLeaves`). `Udbase` holds the user and friend nodes the handlers walk
and change in place, each friend node pointing to a user node; `ImServer.Server` has the handlers with the
source's branches and is proved to make exactly these steps. The handlers look up the second half of a
friendship without checking that it is there; the invariant that makes this safe is proved for every reachable
database, by showing that each pair of users follows one small automaton (`ImEdges.EdgeNext`). On top of it:
who is friends with whom is decided by who asked whom since the last removal, instant messages only pass
between such users, and a client that only listens to status messages always knows its user's friend list.
Messages carry the user they are meant for and the connection they are sent over; the mirror is proved for
both readings. For the connection it needs that no login uses a connection that already speaks for somebody,
which the code does not prevent (`ImEdges.ConnectionSharedIff`, `ImConnections.SharedEars`).

**Database files** (`DbText`, `DbRoundTrip`, `DbLines`, `DbFiles`, `ImRestart`, `ServerRuns`, and the file
methods of `Udbase`). The writer, the two-pass reader that resolves names of users listed later, what the
reader makes of any file at all, and what it makes of a written one for every stored user count. Where the
code falls short of its own limits, that is proved as it is. Registration does not raise the stored count, so
a file saved later loads without the new user; once a counted user has an entry for an uncounted one, the
loaded entry points to nobody (`ImRestart.ForgottenFriend`), and `ImRestart.LoadedIsWellFormedIff` says
exactly when a loaded database is well-formed. The reader's name buffer has no room for a name of the greatest
length that registration accepts (`ImRestart.LongestNameOverruns`). The round trip holds exactly when neither
is the case (`ImRestart.SavedRunReloadsIff`).

**Database comparator** (`Sorting`, `Canonical`, `Cndb`). Users are sorted by name and friend lines within
each user, in dictionary order, then both databases are compared place by place. The result is exact when
names decide users, and without that a database has more than one canonical form
(`Canonical.CanonicalFormUniqueIff`).

**Mancala** (`Sowing`, `Mancala`, `MancalaGame`). The recursive sowing, the modular formula that predicts
where the last stone lands, and the rules; written as functions, as the Haskell source is.

**Shell command lines** (`ShellText`, `ShellRoundTrip`, `ShellTokens`, `Shell`). Three nested levels of
destructive splitting of one character buffer, into lists of lists of pointers into that buffer, and the
printer. The three levels together find exactly the runs of characters that are no blank and no separator.

Methods are proved against specification functions (`Totals`, `Step`, `ReadDb`, `ParseLine`, ...), and the
theorems are about those functions; a method's postcondition is the link. Every induction is written out: lemmas on
which Dafny would start one of its own carry `{:induction false}`.

## Model

| member | source | states |
|---|---|---|
| CacheSim.CacheSet.constructor | cache-memory-simulator/csim.c:45-59 | a new set has E invalid lines and represents the empty access history |
| CacheSim.CacheSet.FindLine | cache-memory-simulator/csim.c:121-131 | the first valid line with the tag, or -1 when there is none |
| CacheSim.CacheSet.FindEmptyLine | cache-memory-simulator/csim.c:133-143 | finds an invalid line with only valid lines before it, or -1 when all are valid |
| CacheSim.CacheSet.FindLruLine | cache-memory-simulator/csim.c:145-157 | the first line with the largest counter; the result stays unassigned exactly when every counter is 0 |
| CacheSim.CacheSet.Age | cache-memory-simulator/csim.c:179-184 | every counter rises by one and the touched line's is reset, nothing else changes |
| CacheSim.CacheSet.Place | cache-memory-simulator/csim.c:159-177 | whenever the access is defined, the line chosen on a hit, a fill or an eviction makes the aged set represent the history with the new access |
| CacheSim.CacheSet.MemoryOp | cache-memory-simulator/csim.c:159-191 | for every defined access the lines then represent the longer history, and the result code tells hit, fill or eviction of the LRU recency list, 3 more for a modify |
| CacheSim.Cache.constructor | cache-memory-simulator/csim.c:61-77 | a cache of S separate empty sets of E lines |
| CacheSim.Cache.Access | cache-memory-simulator/csim.c:217-243 | an access changes its own set only and the counters grow by the cost of LRU |
| CacheSim.Cache.Step | cache-memory-simulator/csim.c:204-243 | an instruction fetch changes nothing, any other entry is one access |
| CacheSim.Cache.Simulate | cache-memory-simulator/csim.c:193-249 | after any defined trace every set represents its part of the trace and the counters are those of LRU |
| CacheSim.Cache.CountersMatchLines | cache-memory-simulator/csim.c:193-249 | misses minus evictions is the number of valid lines of the whole cache, at most sets times E |
| CacheLines.RepresentsHit | cache-memory-simulator/csim.c:165-184 | on a hit, raising all counters and resetting one refines moving a tag to the front of the recency list |
| CacheLines.RepresentsFill | cache-memory-simulator/csim.c:169-184 | on a miss with a free line, the valid lines stay a prefix with distinct tags and exact ages |
| CacheLines.RepresentsEvict | cache-memory-simulator/csim.c:171-184 | on a miss in a full set, overwriting the line with the largest counter refines dropping the last tag of the recency list |
| CacheLines.OldestLine | cache-memory-simulator/csim.c:145-157 | in a full set the line of the least recently used tag has a strictly larger counter than any other |
| CacheLines.VictimIsLeastRecent | cache-memory-simulator/csim.c:145-157 | in a full set a line with the largest counter is unique and holds the least recently used tag |
| CacheLines.VictimAssignedIff | cache-memory-simulator/csim.c:147-154 | the victim scan assigns its result in every reachable full set exactly when the set has two lines or more |
| CacheLines.SafeIff | cache-memory-simulator/csim.c:165-174 | on a reachable set an access is defined exactly when it hits, finds a free line, or the victim scan assigns its result |
| CacheLines.OneLineVictim | cache-memory-simulator/csim.c:147-156 | a reachable set of one line on which the scan assigns nothing |
| CacheTrace.SafeRunIff | cache-memory-simulator/csim.c:145-177 | a trace is defined exactly with two lines per set, or with one line when no set is accessed with two tags, or without lines when nothing is accessed |
| CacheTrace.DefinedByEvictions | cache-memory-simulator/csim.c:145-177 | with fewer than two lines a trace is defined exactly when LRU evicts nothing on it |
| CacheTrace.OneLineTrace | cache-memory-simulator/csim.c:145-177 | with one line, two loads of different tags are not defined |
| CacheLines.ValidIsHeld | cache-memory-simulator/csim.c:173-174 | as many lines are valid as the recency list is long |
| Recency.LruIsStackPrefix | cache-memory-simulator/csim.c:159-191 | E lines hold the first E entries of the unbounded recency stack |
| Recency.LruAges | cache-memory-simulator/csim.c:179-184 | further down the recency list means more accesses since last use, strictly |
| Recency.StackInclusion | cache-memory-simulator/csim.c:159-191 | what E lines hold, E + 1 lines hold as well, in the same order |
| Recency.SinceIsAbove | cache-memory-simulator/csim.c:159-191 | the entries above a tag in the stack are the tags used since its last use |
| Recency.ReuseDistance | cache-memory-simulator/csim.c:121-191 | a tag is held exactly when it was used before and fewer than E other tags were used since |
| CacheTheorems.MissByReuseDistance | cache-memory-simulator/csim.c:121-191 | an access misses exactly unless its tag was used in its set with fewer than E other tags since |
| CacheTheorems.MoreLinesNeverHurt | cache-memory-simulator/csim.c:159-191 | on every trace hits never fall and misses never rise when a line per set is added |
| CacheTheorems.HitsPlusMisses | cache-memory-simulator/csim.c:220-243 | hits plus misses is loads plus stores plus two for each modify |
| CacheTheorems.MissesMinusEvictions | cache-memory-simulator/csim.c:167-177 | misses minus evictions is the number of tags held by all sets, never above the capacity |
| CacheTheorems.ModifyCost | cache-memory-simulator/csim.c:186-188 | a modify costs what a load and then a store of the same address cost |
| CacheTheorems.ModifyRecency | cache-memory-simulator/csim.c:186-188 | a modify leaves the recency lists that a load and then a store leave |
| CacheTheorems.ExpandingModifies | cache-memory-simulator/csim.c:186-188 | writing every modify as load and store changes no counter and no recency list |
| CacheTheorems.ErasingFetches | cache-memory-simulator/csim.c:205-208 | erasing instruction fetches changes no counter and no recency list |
| CacheTheorems.TotalsSumOverSets | cache-memory-simulator/csim.c:214-243 | each counter is the sum over the sets of simulating the part of the trace that maps there |
| Competitive.LruIsDemandPolicy | cache-memory-simulator/csim.c:159-177 | LRU is one of the policies it is compared with |
| Competitive.PolicyMove | cache-memory-simulator/csim.c:159-177 | the other policy's move raises the potential by at most E - 1, and not at all on its hit |
| Competitive.Amortized | cache-memory-simulator/csim.c:159-177 | on one access LRU's miss plus the growth of the potential is at most E times the other policy's miss |
| Competitive.LruIsCompetitive | cache-memory-simulator/csim.c:145-191 | on every trace LRU misses at most E times as often as any demand policy with the same sets and lines, both starting empty |
| Tightness.LruMissesAll | cache-memory-simulator/csim.c:145-191 | on requests that go round E + 1 tags LRU misses every time |
| Tightness.FactorIsReached | cache-memory-simulator/csim.c:145-191 | traces of any number of rounds on which LRU misses E * (k + 1) times and another demand policy E + k times |
| Tightness.NoSmallerFactor | cache-memory-simulator/csim.c:145-191 | no factor below E bounds LRU's misses by those of every demand policy, whatever constant is added |
| ImAccounts.PartnerExists | instant-message-server/main.c:374-378 | in a well-formed database the other half of every friend entry exists and has the dual status |
| ImEdges.HalvesAgree | instant-message-server/main.c:480-487 | the two halves of an edge are both there with dual statuses or both missing |
| ImEdges.RequestEdits | instant-message-server/main.c:355-406 | a request sets the pair's two entries as the edge automaton says and touches no other entry |
| ImEdges.RemoveEdits | instant-message-server/main.c:463-487 | a removal deletes both entries of the pair and touches no other entry |
| ImEdges.StepRefinesEdge | instant-message-server/main.c:156-509 | every operation moves the edge between any two users exactly as the automaton says |
| ImEdges.StepKeepsSymmetry | instant-message-server/main.c:317-509 | every operation keeps the two lists dual for every pair, and nobody on its own list |
| ImEdges.StepKeepsShape | instant-message-server/main.c:156-509 | every operation keeps names unique, lists free of duplicates, and users active exactly when they have a connection |
| ImEdges.StepKeepsWellFormed | instant-message-server/main.c:156-638 | every operation keeps the whole invariant |
| ImEdges.RunsStayWellFormed | instant-message-server/main.c:156-638 | every database reachable from a well-formed one is well-formed |
| ImEdges.ConnectionSharedIff | instant-message-server/main.c:221-235 | a step makes one connection speak for two users exactly when a bound connection logs another inactive user in |
| ImEdges.SharedConnection | instant-message-server/main.c:221-235 | two new users logged in over one connection share it |
| ImConsent.FriendshipIsConsent | instant-message-server/main.c:317-509 | from empty lists, each entry is decided by who asked whom since the last removal; friends exactly when both asked |
| ImConsent.ForwardedOnlyToFriends | instant-message-server/main.c:565-638 | only a message operation forwards texts, from the sender's user to an active friend over that friend's connection |
| ImConsent.MessagesNeedConsent | instant-message-server/main.c:565-638 | in every run from empty lists a forwarded text passes between users who both asked since the last removal |
| ImConsent.ForwardedIff | instant-message-server/main.c:591-635 | a text is forwarded exactly when the recipient is an active friend and the text is allowed |
| ImAnswers.ListSendsEntries | instant-message-server/main.c:526-543 | a list request sends one status message for each entry of the asking user's list, in list order, over that connection, and changes nothing |
| ImAnswers.ImAnsweredOnce | instant-message-server/main.c:575-637 | a message request has exactly one answer, an acknowledgement with return code 0 exactly when the text was forwarded, otherwise the first error that applies |
| ImAnswers.StepSends | instant-message-server/main.c:139-638 | for every operation the return code and the complete sequence of messages: kinds, names, receivers, connections and order, in terms of who knows whom, with the character ranges and lengths written out |
| ImEffects.StepNames | instant-message-server/main.c:156-198 | users stay in their places and only a registration with an allowed new name adds one, at the end |
| ImEffects.StepSessions | instant-message-server/main.c:206-315 | a login binds the named inactive user, a logout frees the first user on the connection, and nothing else binds or frees anybody |
| ImEffects.StepLists | instant-message-server/main.c:317-509 | a request puts both names at the ends of the lists when there was no edge, a removal takes both out, and the order of the rest is kept |
| ImEffects.KnownByName | instant-message-server/udbase.c:43-73 | users in order, connections, names on lists in order and statuses make up the whole database |
| ImEffects.StepLeaves | instant-message-server/main.c:156-638 | the database an operation leaves is the only one that fits its description by name |
| ImMirror.Informed | instant-message-server/main.c:240-265 | replaying true status messages leaves the client with the new record of whoever they mention and the old one of the others |
| ImMirror.ListingTells | instant-message-server/main.c:511-543 | a listing tells the truth about exactly the users on the list |
| ImMirror.NoticesTrue | instant-message-server/main.c:256-265 | the notices sent when a user comes or goes are true for their receivers |
| ImMirror.NoticesReach | instant-message-server/main.c:256-265 | a notice goes to every active friend over that friend's connection |
| ImDelivery.StepDelivers | instant-message-server/main.c:156-638 | every message meant for a user goes to a user who is active after the step, over the connection that user has |
| ImMirror.StepInforms | instant-message-server/main.c:156-543 | every status message an operation sends is true afterwards and goes to its user's connection, and every active user whose record changed is told |
| ImMirror.LoginAcks | instant-message-server/main.c:235-242 | only a successful login is acknowledged as one, to that user, before any other message |
| ImMirror.ActiveByLogin | instant-message-server/main.c:206-235 | nobody becomes active but by logging in |
| ImMirror.HeardStep | instant-message-server/main.c:156-543 | one operation keeps an active user's client in agreement with the server |
| ImMirror.ClientsMirrorServer | instant-message-server/main.c:206-543 | in every run, replaying the messages meant for an active user since its last login gives its friend list, statuses and the activity of its friends |
| ImConnections.ConnectionsMirrorServer | instant-message-server/main.c:206-543 | in every run without a login over a connection in use, replaying what was sent over an active user's connection since the last login on it gives that user's friend list, statuses and the activity of its friends |
| ImConnections.ConnectionCarriesUser | instant-message-server/main.c:206-543 | in such a run a user's connection carries what is meant for that user and nothing else a client reacts to |
| ImConnections.StaysConnected | instant-message-server/main.c:206-315 | while a user stays active it stays on its connection |
| ImConnections.ListRefreshes | instant-message-server/main.c:511-543 | a client that starts from nothing and replays what a list request sends over its connection has the server's record of every user |
| ImConnections.ApartRunIff | instant-message-server/main.c:221-235 | no connection is ever shared exactly when no step logs an inactive user in over a connection in use |
| ImConnections.SharedEars | instant-message-server/main.c:221-242 | a run with a shared connection after which the connection's replay has lost a friend of a user who is still active on it |
| ImConnections.ClosingFreesIff | instant-message-server/main.c:783-785 | the single logout of a closed connection frees it exactly when at most one user was on it |
| ImConnections.ClosingFrees | instant-message-server/main.c:783-785 | in every run without a login over a connection in use, closing one leaves nobody on it |
| ImConnections.LeftBehind | instant-message-server/main.c:783-785 | a run after which a user is still active on a closed connection |
| ImServer.Server.RegisterUser | instant-message-server/main.c:156-204 | makes the protocol step of a registration on the lists: database, messages and return code |
| ImServer.Server.SendListing | instant-message-server/main.c:242-255 | sends one status message for each entry, in list order |
| ImServer.Server.SendNotices | instant-message-server/main.c:256-265 | notifies exactly the active friends, in list order |
| ImServer.Server.StartSession | instant-message-server/main.c:235-266 | binds the connection, then acknowledges, then lists, then notifies |
| ImServer.Server.EndSession | instant-message-server/main.c:294-312 | unbinds the user, then acknowledges, then notifies |
| ImServer.Server.LoginUser | instant-message-server/main.c:206-268 | makes the protocol step of a login |
| ImServer.Server.LogoutUser | instant-message-server/main.c:270-315 | makes the protocol step of a logout |
| ImServer.Server.AcceptFrom | instant-message-server/main.c:369-390 | both halves become friends, the unchecked lookup succeeds, both ends are told |
| ImServer.Server.AskFrom | instant-message-server/main.c:397-418 | both lists get an entry at the end, both ends are told |
| ImServer.Server.AnswerFrom | instant-message-server/main.c:363-396 | a request to somebody who has an entry: already asked, accepted or already friends |
| ImServer.Server.PartFrom | instant-message-server/main.c:474-499 | both halves are unlinked, the unchecked lookup succeeds, both ends are told |
| ImServer.Server.RequestFriend | instant-message-server/main.c:317-423 | makes the protocol step of a friend request |
| ImServer.Server.RemoveFriend | instant-message-server/main.c:425-509 | makes the protocol step of a removal |
| ImServer.Server.FriendListOf | instant-message-server/main.c:511-543 | makes the protocol step of a list request: what `ImAnswers.ListSendsEntries` and `ImConnections.ListRefreshes` say is sent |
| ImServer.Server.Forward | instant-message-server/main.c:597-637 | forwards and acknowledges, or refuses for the first reason that applies; `ImAnswers.ImAnsweredOnce` says which |
| ImServer.Server.ImUser | instant-message-server/main.c:565-638 | makes the protocol step of an instant message, with the single answer of `ImAnswers.ImAnsweredOnce` |
| ImServer.Server.Handle | instant-message-server/main.c:685-751 | each operation is dispatched to its handler and the database stays well-formed |
| ImServer.Server.Serve | instant-message-server/main.c:685-751 | any sequence of requests, each handled as a whole, leaves the database and the messages of the protocol's run |
| Udbase.User.constructor | instant-message-server/udbase.c:62-73 | a new user is inactive, unconnected and friendless |
| Udbase.Database.UserNamed | instant-message-server/main.c:209-212 | the first user with the name, or the end of the list |
| Udbase.Database.UserOn | instant-message-server/main.c:273-277 | the first user on the connection, or the end of the list |
| Udbase.Database.FriendNamed | instant-message-server/main.c:355-361 | the first entry for the name, or the end of the list |
| Udbase.Database.FriendInit | instant-message-server/udbase.c:43-60 | a fresh friend node for the first user with the name, or for nobody |
| Udbase.Database.AddUser | instant-message-server/main.c:195-198 | the new user is appended; every friend node keeps pointing to the user it named |
| Udbase.Database.SetSession | instant-message-server/main.c:235-239 | one user's session changes and nothing else |
| Udbase.Database.Append | instant-message-server/main.c:400-406 | a node is linked at the end of one user's list and nothing else changes |
| Udbase.Database.Unlink | instant-message-server/main.c:474-477 | one node leaves one user's list and nothing else changes |
| Udbase.Database.SetBoth | instant-message-server/main.c:371-378 | both halves of an edge become friends |
| Udbase.Database.LinkBoth | instant-message-server/main.c:399-406 | a new edge: one entry to answer, one requested |
| Udbase.Database.UnlinkBoth | instant-message-server/main.c:474-488 | both halves of an edge leave their lists |
| Udbase.Database.WriteEntries | instant-message-server/udbase.c:200-210 | writes a user's entries in order |
| Udbase.Database.Write | instant-message-server/udbase.c:180-217 | writes the stored count and then every user of the list, whatever the count says |
| Udbase.Database.ReadUsers | instant-message-server/udbase.c:109-127 | the first pass makes the announced number of users in order, or fails exactly when the text runs out |
| Udbase.Database.ReadFriends | instant-message-server/udbase.c:146-170 | the second pass links one user's entries in order, each pointing to the user it names, including users listed later |
| Udbase.Database.ReadAllFriends | instant-message-server/udbase.c:131-171 | the second pass fills every user's list |
| Udbase.Database.Read | instant-message-server/udbase.c:75-176 | the lists in memory represent what the text says, which `DbFiles.ReadsBlocks` and `DbFiles.RejectedIff` spell out; malformed and undefined inputs are told apart |
| Udbase.Database.ScanLine | instant-message-server/udbase.c:156-165 | the name buffer and the status after one friend line |
| DbRoundTrip.HeaderScans | instant-message-server/udbase.c:101-102 | a written header scans to the count it states |
| DbRoundTrip.EntryLineWords | instant-message-server/udbase.c:202-208 | a written friend line scans to its name and status word |
| DbLines.GetLineIff | instant-message-server/udbase.c:15-39 | a line is read exactly when the text starts with it and a newline, it is not empty and it is long enough |
| DbLines.ScansNumber | instant-message-server/udbase.c:101-102 | after blanks and a sign the number of all the digits, modulo 2^32 when negated, undefined from 2^32 on |
| DbLines.ScannedNumber | instant-message-server/udbase.c:101-102 | whatever scans starts with blanks, a sign or none, and digits |
| DbLines.FriendWordsIff | instant-message-server/udbase.c:156-157 | a friend line has exactly the words that stand in it after a leading dash, at most two |
| DbLines.EntryRead | instant-message-server/udbase.c:145-167 | the entry one line makes, whatever it holds: words of more than 19 and 9 characters overrun, a line without a word repeats the name before it |
| DbLines.NoLeadingZero | instant-message-server/udbase.c:196 | a written count has no leading zero |
| DbLines.ExampleLines | instant-message-server/udbase.c:202-208 | the three kinds of friend lines, character by character |
| DbLines.ExampleFile | instant-message-server/udbase.c:196-213 | one written file, character by character |
| DbFiles.ReadsBlocks | instant-message-server/udbase.c:75-176 | any file with a header line that states a count and that many blocks of lines up to a "." loads as what its lines mean, and is undefined when one means nothing |
| DbFiles.RejectedIff | instant-message-server/udbase.c:75-176 | a file is rejected exactly when its header line is missing or shorter than eight characters, or fewer whole blocks follow than it counts |
| DbRoundTrip.ReadWrittenEntries | instant-message-server/udbase.c:150-170 | written entries read back in order exactly when every name fits the buffer |
| DbRoundTrip.ReadWrittenNames | instant-message-server/udbase.c:112-127 | the first pass over a written file finds the first n names, or fails when there are fewer |
| DbRoundTrip.ReadWritten | instant-message-server/udbase.c:75-217 | what reading makes of a written database for every stored count, when user names are lines and friend names words: a prefix, a rejection or an overrun |
| DbRoundTrip.LoadedIsClean | instant-message-server/udbase.c:75-176 | whatever the file, what loads has the stated number of users, one-line names, one-word friend names that fit, and real statuses |
| DbRoundTrip.RoundTripIff | instant-message-server/udbase.c:75-217 | for every database, reading gives it back, nobody logged in, exactly when the count is the number of users, user names are non-empty lines, friend names are words that fit, and statuses are real |
| ImRestart.RunsKeepCleanNames | instant-message-server/main.c:139-154 | in every run all names stay one word on one line |
| ImRestart.SavedRunReloadsIff | instant-message-server/udbase.c:180-217 | the round trip for the database of any run, with its exact condition |
| ImRestart.LoadedIsWellFormedIff | instant-message-server/udbase.c:43-176 | for any run and stored count, the saved file loads the first users, and what is loaded is well-formed exactly when none of them has an entry for a user who was not counted |
| ImRestart.RestartIsFreshStart | instant-message-server/udbase.c:75-217 | when all users are counted and all friend names fit, the saved file of any run loads as a well-formed database without sessions and with the same friend graph |
| ImRestart.RegistrationIsForgotten | instant-message-server/main.c:195-198 | a database saved right after a registration loads as it was before |
| ImRestart.ForgottenFriend | instant-message-server/udbase.c:43-60 | a run after which the saved file loads with an entry whose friend is nobody |
| ImRestart.LongestNameOverruns | instant-message-server/udbase.c:147-157 | a file that loads, and a run from it after which the saved file does not, for every name of the greatest allowed length |
| ServerRuns.SaveAndLoad | instant-message-server/udbase.c:75-217 | saving and loading any database gives what the written text says; the counted users come back with their friend nodes, each pointing to the copy of the user it pointed to, users listed later included; all come back exactly under the condition of the round trip |
| ServerRuns.ServeFile | instant-message-server/main.c:685-751 | loading a file, serving any requests and saving gives the file of the protocol's run, with the old count |
| Canonical.StringsOrdered | instant-message-server/cndb.c:96-106 | the comparison functions are total preorders, and friend lines that compare equal are equal; which order it is, `Canonical.StrCmpIsBefore` says |
| Canonical.StrCmpIsBefore | instant-message-server/cndb.c:96-106 | the comparison is negative exactly when the first string is a proper prefix or has the smaller character at the first place that differs |
| Canonical.CanonicalIsDictionary | instant-message-server/cndb.c:168-170 | in a canonical form the names and every user's lines are in dictionary order |
| Canonical.ReorderingIff | instant-message-server/cndb.c:168-170 | after sorting lines within users, databases are rearrangements exactly when they were reorderings |
| Canonical.ComparisonExact | instant-message-server/cndb.c:243-272 | canonical forms agree exactly for reorderings when names are distinct, and never for anything else |
| Canonical.CanonicalFormUniqueIff | instant-message-server/cndb.c:96-100 | a database has one canonical form exactly when users with the same name have the same friend lines |
| Cndb.SortLinesOf | instant-message-server/cndb.c:168 | a user's friend lines are put into dictionary order, and there is only one way to do so |
| Cndb.SortDb | instant-message-server/cndb.c:168-170 | the array becomes a canonical form of what it held: a reordering with names and lines in dictionary order |
| Cndb.Compare | instant-message-server/cndb.c:244-272 | a reported difference is real and the first one |
| Cndb.CompareDbs | instant-message-server/cndb.c:243-272 | on filled arrays, sorting and comparing reports nothing only for reorderings, and for all of them when names decide users |
| Sowing.PlacedAreDrops | mancala/MancalaBoard.hs:143-147 | sowing adds to each place the number of stones that fall there |
| Sowing.KthStone | mancala/MancalaBoard.hs:143-147 | sowing k stones is sowing k - 1 and then one more at the k-th place of a closed form |
| Sowing.LandsWhereSown | mancala/MancalaBoard.hs:149-153 | sowing n stones is sowing n - 1 and then one more at the place the landing formula gives, for every ring, start off the skipped place and n |
| Sowing.SownByRounds | mancala/MancalaBoard.hs:143-147 | every place but the skipped one gains a stone per full round and one more if it is among the first of the rest |
| Sowing.PlacingAddsAll | mancala/MancalaBoard.hs:143-147 | sowing adds exactly the stones sown |
| Mancala.AllowedMovesAre | mancala/MancalaBoard.hs:111-112 | exactly the player's own pits with stones, each once, in board order |
| Mancala.MovesOfIff | mancala/MancalaBoard.hs:111-112 | a player has no allowed move exactly when its pits are empty |
| Mancala.GameOverIff | mancala/MancalaBoard.hs:167-168 | the game is over exactly when one of the players has no allowed move; until then the current one has |
| MancalaGame.MoveByRounds | mancala/MancalaBoard.hs:134-158 | what every place holds after an allowed move, the opponent's store untouched |
| MancalaGame.MoveConserves | mancala/MancalaBoard.hs:134-158 | a move keeps the board valid and the number of stones, and a disallowed one changes nothing, not even the turn |
| MancalaGame.DisallowedPick | mancala/MancalaBoard.hs:134-136 | a pick that is not one of the player's own pits with stones leaves the whole board as it was, the turn included |
| MancalaGame.OnlyLegalPicksCount | mancala/playMancala.hs:18-28 | for every sequence of picks, the board and the turn are those of the sequence without the disallowed picks |
| MancalaGame.ExtraTurnIff | mancala/MancalaBoard.hs:155-158 | the player moves again exactly when the last stone of the sowing goes into its own store |
| MancalaGame.ShortMove | mancala/MancalaBoard.hs:134-147 | a move that does not reach the store adds one stone to each of the next pits |
| MancalaGame.LongMove | mancala/MancalaBoard.hs:134-147 | a move that reaches the store raises it |
| MancalaGame.MoveProgresses | mancala/MancalaBoard.hs:134-158 | an allowed move raises the mover's store, or keeps it and brings stones strictly nearer to the stores |
| MancalaGame.GamesAreFinite | mancala/MancalaBoard.hs:134-158 | no sequence of allowed moves is longer than a bound read off its first board |
| MancalaGame.GamesConserve | mancala/MancalaBoard.hs:134-158 | no game loses or makes a stone |
| MancalaGame.GamesFromInitial | mancala/MancalaBoard.hs:50-53 | from the first board no game has more than 14040 moves and all boards hold 48 stones |
| MancalaGame.WinsByMajority | mancala/MancalaBoard.hs:176-183 | a player wins exactly with more than half of all stones, and nobody with exactly half |
| Shell.StrtokR | unix-shell/myshell.c:201-209 | one step of the splitter: the next run is cut off in place and the rest is what remains to be split |
| Shell.ParseRedirToken | unix-shell/myshell.c:194-214 | the pointers show the words of the part, and the buffer changes inside the part only; words are the runs between spaces, tabs and newlines (`ShellTokens.LevelsAreRuns`) |
| Shell.ParseShellCommand | unix-shell/myshell.c:216-236 | the lists show the parts of the command, the runs between '>' (`ShellTokens.LevelsAreRuns`) |
| Shell.ParseCommandLine | unix-shell/myshell.c:238-256 | after all nested cutting the lists show the three-level structure of the line as it was; its tokens are those of `ShellTokens.TokensAreRuns` |
| Shell.PrintRedirToken | unix-shell/myshell.c:290-300 | prints the words with single spaces between |
| Shell.PrintShellCommand | unix-shell/myshell.c:302-312 | prints the parts with " > " between |
| Shell.PrintCommandLine | unix-shell/myshell.c:314-325 | prints the commands with " ; " between and a newline |
| Shell.Reprint | unix-shell/myshell.c:194-325 | printing the lists into a new buffer and parsing that gives lists that show the same line, for every line the parser can give |
| ShellRoundTrip.PartParses | unix-shell/myshell.c:194-214 | a printed part splits back into its words, whatever blanks surround it |
| ShellRoundTrip.CommandParses | unix-shell/myshell.c:216-236 | a printed command parses back, whatever blanks surround it |
| ShellRoundTrip.PrintedLineParses | unix-shell/myshell.c:238-256 | a printed line of clean tokens parses back up to commands that print as nothing |
| ShellRoundTrip.ParsedIsClean | unix-shell/myshell.c:194-256 | whatever the text, parsed tokens are non-empty and free of space, tab, newline, '>' and ';' |
| ShellTokens.SplitIsRuns | unix-shell/myshell.c:194-256 | splitting gives exactly the maximal runs between delimiters, in order and none missing |
| ShellTokens.TokensAreRuns | unix-shell/myshell.c:194-256 | for every text the tokens of the parsed line are exactly the maximal runs of characters other than space, tab, newline, '>' and ';', in order |
| ShellTokens.LevelsAreRuns | unix-shell/myshell.c:194-256 | commands come from the runs between ';', their parts from the runs between '>', and tokens from the runs between blanks |
| ShellTokens.PrintsLiterally | unix-shell/myshell.c:290-325 | how parts, commands and lines are printed, with every separator written out |
| ShellRoundTrip.ParserUndoesPrinterIff | unix-shell/myshell.c:194-325 | parsing undoes printing exactly for non-empty lines of non-empty commands with clean tokens |
| ShellRoundTrip.ReparsingSettles | unix-shell/myshell.c:194-325 | printing what was parsed and parsing again gives a line that no further round changes |

## Left out

- CacheSim.CacheSet.MemoryOp: requires that the access does not evict from a set of one line; there the victim scan reads a variable it never assigned (`CacheLines.SafeIff`), so the source has no behaviour to model.
- CacheSim.Cache.Simulate: counters are unbounded integers; the source's `int` counters agree with it for fewer than 2^31 accesses to a set and totals below 2^31.
- CacheSim.Cache.Simulate: a trace is a list of operation, set index and tag; trace file parsing and the mask arithmetic on addresses are not modelled, only that set indices are in range.
- ImServer.Server.Serve: each handler is one atomic step; the source's list traversals are outside its semaphore, and interleavings of two handlers are not modelled.
- ImServer.Server.Serve: sockets, threads, wire strings, splitting of the receive buffer and logging are not modelled; the outbox holds what is handed to `send`, and a closed connection only acts through the logout it triggers.
- ImServer.Server.constructor: assumes a well-formed database; the reader does not check that a file describes one.
- ServerRuns.ServeFile: for files whose friend graph is not symmetric the handlers' unchecked lookups may find nobody, and what they do then is not modelled.
- Udbase.Database.Read: NUL bytes in the file are not modelled; a stored count that does not fit 32 bits counts as undefined, as the C standard leaves it.
- Udbase.Database.Unlink: each linked list with its head sentinel and `next` pointers is a sequence of node objects held by its owner; freed nodes are not modelled.
- Cndb.QSort: stands for the C library's `qsort` and is known by its contract only, so nothing depends on how it orders equal names.
- Cndb.CompareDbs: starts from the arrays that reading fills; the comparator's own parsing and its limit of friend lines per user are not modelled, nor is printing of one canonical database.
- Shell.ParseCommandLine: token nodes are positions in the line buffer and the three lists are sequences, so the walk to a list's tail is an append; `malloc` failures and freeing are not modelled.
- Shell line reading, built-in commands, redirection and program execution: system calls.
- Opening and closing of files, command-line arguments, server start and stop: input and output only.
- The interactive clients of the message server and of Mancala, and the textual display of boards: user interface.
- The protocol library's string encoding: only its header is present, so messages are values.
