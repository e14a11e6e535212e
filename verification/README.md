# Game server core: a Dafny model

This project models the hand-written data structures and state machines of the game server in Dafny
and proves what they promise. `dafny verify dfyconfig.toml` checks all of it.

## What is modelled

**Ranking lists** (`RankOrder`, `Layers`, `SkipNodes`, `SkipLinks`, `SkipLoops`, `Skiplist`, `RankList`,
`ArenaReset`). The span-indexed skip list is a heap of nodes with `next`, `prev` and `span` per layer. A ghost
sequence of the nodes together with their heights determines every link: `Layers` says which positions are neighbours
on a layer, and that inserting or removing a position changes exactly the links the code rewrites. `Skiplist.Valid()`
holds after every operation: each layer is the nodes tall enough for it, in descending order; `prev` inverts `next`; a
span is the distance to the next node, or the number of nodes that remain if there is none; layers from `currLayer` on
are empty; `lengthsNum` counts nodes by height; and `tail` is the last node, or nil or the head when the list is
empty. `currLayer` falls by at most one per deletion, so it is only an upper bound. The random height is a parameter.
On top, a ranking list shares its item objects with a key map; its ranks are counted independently, as the number of
players who rank before. The arena reset rewrites sort keys in place, rank by rank.

**Connection timeouts** (`Ring`, `TimerRuns`, `TimerList`, `TimerWheel`). The wheel is a ring of doubly linked lists
and a player map on the heap. Each round of its loop refines one `Tick` of a map from players to seconds left; the runs
of that map are studied in `TimerRuns`. `known` is the set of ids that still resolve to a player.

**Short ranking and team power** (`ShortRank`, `RolePower`, `RoleRuns`). A sorted array with an index map, moved in
place, refines "remove the key, then put the item behind the last one not smaller". Over every run the list holds the
powers last given, and the published team power is the sum of the four strongest of them.

**Framing** (`Wire`, `ServerConn`, `ClientConn`). Senders print frames, receivers cut them out of arbitrary chunks. Both
wires share one specification; compression is a pair of functions of which the second undoes the first.

**Chat log** (`ItemPool`, `Chat`, `ChatRuns`). A linked list over a fixed pool of objects. A push is proved on every
log: where it does what it should, list and free part share out the objects and the log is a closed-form function of
everything ever sent; where it does not, the contract says what it leaves instead.

**Guilds** (`GuildIndex`, `GuildRules`, `GuildMeaning`, `Guilds`, `Donation`, `DonationDesk`). `GuildRules` gives each
request as a step of a world of guild rows and players' guild columns and proves the invariant over all runs;
`GuildMeaning` says, without these steps, who is granted what and what exactly changes; the methods of `Guilds` take
the steps and keep that promise while they keep the index of live guilds. `Donation` is the escrow of donated items, kept
per player, and `DonationDesk` its columns.

**Invite codes** (`InviteCode`) and **income of a campaign left running** (`Hangup`). Each look at the income carries the
campaign that runs then, so that runs contain the campaign changes the cache exists for.

`Sequences`, `Sums` and `Options` hold what several of these share.

## Conventions

* Integers are unbounded except where width matters: header bytes and 16-bit lengths of frames, 32-bit
  arithmetic of invite codes, and item counts of the donation escrow are written out.
* Every locked section, and every round of a loop that owns its data, is one atomic step. Clocks, random draws, table
  rows and the order in which a Go map is walked are parameters.
* The layers of a skip list node are a sequence the methods reassign; a timer entry (`ConnTimerPlayer`), a guild
  row and a player's columns are values stored in maps, since only their owner holds them.
* What guild requests promise, and what a donation moves, is stated for orderly worlds and desks, which every run keeps.
* Preconditions that the source leaves to its callers: a heartbeat interval of at least one second; a chat pool
  that is not empty; a campaign period that is not zero; a guild index that is not full; a count and a buffer that
  fit in `GetRangeNodes`; ids for invite codes that are not negative (for others the source indexes its alphabet
  out of range).

## What the proofs brought to light

* A frame with length zero ends the work of a read between servers even if complete frames wait behind it
  (`Wires.ChunkIndependence` says exactly when chunks matter). Client connections have no such case.
* Client senders take bodies that client receivers refuse (`ClientConns.BodyLimit`); a compressed package
  that grows beyond the receive limit ends the connection (`ServerConns.PackageFits`).
* `send_data` clears the group it fills before it returns, so a group never collects messages
  (`ServerConns.ServerConn.SendData`).
* The arena reset skips scores without a division. It keeps the order of a list exactly if no new score rises along the
  ranks and no rewritten row changes places with a skipped one (`ArenaReset.ResetKeepsOrderIff`); a two-row list
  breaks it (`ArenaReset.UncoveredBreaksOrder`).
* A team that loses its power keeps the last published one (`RolePowers.PowerlessKeeps`, `RolePowers.LastRoleLingers`); the
  published power is the team's exactly while the team has any (`RolePowers.PublishedExactly`).
* A chat message is lost from the list if the last message expires before another, which takes a clock that goes back;
  a pool of one item links it to itself (`Chats.ChatMgr.PushChatMsg`, `ChatRuns.RunsFit`).
* A timer started over in a round counts from the round before (`TimerRuns.RestartSurvives`).
* Income that is cached before a change of campaign cannot be collected if and only if the next campaign has no
  rewards (`Hangups.SwitchGetsStuck`).

## Model

The rows down to `Hangups.SwitchGetsStuck` are the main results; the rest, file by file, are what they rest on.

| member | source | states |
|---|---|---|
| SkipLists.Skiplist.Insert | libs/utils/skiplist.go:76-131 | for every height: the list stays valid, and one new node of that height, holding the item, comes behind all nodes that rank before; the top layer and the count of heights follow |
| SkipLists.Skiplist.Delete | libs/utils/skiplist.go:239-253 | removes the first item that does not rank before the value if it has its key, and nothing else; one top layer closes exactly if nobody is left on it |
| SkipLists.Skiplist.GetRank | libs/utils/skiplist.go:171-184 | the rank of the first item that does not rank before the value if it has its key, else 0; with one row per key it inverts the lookup by rank for every stored row |
| SkipLists.Skiplist.GetByRankRange | libs/utils/skiplist.go:186-205 | copies exactly a slice of the list and leaves the rest of the buffer alone |
| RankLists.CommonRankingList.Update | libs/utils/ranklist.go:114-131 | stores the row under its key; map and list keep the same objects and the ranking stays in order |
| RankLists.CommonRankingList.GetRank | libs/utils/ranklist.go:172-181 | one more than the number of players who rank before; 0 for a stranger |
| RankLists.RankingUnique | libs/utils/ranklist.go:114-131 | the key map determines the ranking |
| ArenaReset.Reset | src/hall_server/player_arena.go:740-789 | rewriting in place gives every rank the row computed from its old one, although the list is out of order meanwhile, and hands exactly the rows with a division their new scores |
| ArenaReset.ResetKeepsOrderIff | src/hall_server/player_arena.go:755-788 | for every ordered list, scores without a division included: it is in order afterwards exactly if no new score rises along the ranks and no row with a new key changes places with one that keeps its key |
| TimerWheels.ConnTimerWheel.RunOnce | src/hall_server/conn_timer_wheel.go:91-165 | one round is one tick of the deadline map, requests for insertion and removal in order, and logs out exactly the known players who are due, in order of deadline |
| TimerRuns.DeadlineKept | src/hall_server/conn_timer_wheel.go:91-165 | over every run a player nobody asks about stays exactly until the clock reaches the deadline |
| TimerRuns.RemovedStaysOut | src/hall_server/conn_timer_wheel.go:91-165 | over every run, whoever was removed by the last request of a round is logged out by no round until somebody starts a timer |
| TimerRuns.RestartSurvives | src/hall_server/conn_timer_wheel.go:91-165 | a restarted timer survives its own round exactly if less than an interval passed since the last one |
| ShortRanks.ShortRankList.Update | libs/utils/short_ranklist.go:48-138 | removes the key and puts the new value behind the last item not smaller; no change on an equal value; refusal only for a new key at capacity |
| RolePowers.PublishedExactly | src/hall_server/player_role_power_rank.go:76-124 | after every run the published power is the team's if and only if the team has power at all |
| RoleRuns.PublishedIsTopFour | src/hall_server/player_role_power_rank.go:76-124 | over every run the published power is the most that four of the roles have with the powers last given, if and only if that is positive |
| Wires.ChunkIndependence | libs/server_conn/server_conn.go:588-630 | chunks do not matter if and only if the stream is clean |
| ServerConns.HandledExactly | libs/server_conn/server_conn.go:467-539 | a package is taken in whole exactly if it is what accepted messages are written as |
| ServerConns.MessagesArrive | libs/server_conn/server_conn.go:297-632 | end to end: any cutting of the bytes hands the handlers exactly the queued messages, in order |
| ServerConns.PackageFits | libs/server_conn/server_conn.go:356-411 | exactly when a package fits the receive limit, and what happens if not |
| ClientConns.MessagesArrive | libs/socket/socket.go:390-656 | end to end for all bodies up to 8190 bytes and every cutting |
| ClientConns.BodyLimit | libs/socket/socket.go:228-253 | bodies fit exactly up to 8190 bytes; longer ones end the connection |
| Chats.ChatMgr.PushChatMsg | src/hall_server/chat.go:149-195 | on any log it never fails; if `Fits` holds, the log loses its expired entries, one oldest if it is still full, and gains the message; if the last message expired before another, the new one is not linked to the list; if the only item is in use, it is linked to itself |
| ChatRuns.LogIsTail | src/hall_server/chat.go:125-195 | after any run the log is exactly the last message and those recent ones that are among the last as many as the pool holds |
| GuildIndexes.GuildIndex.Recommend | src/hall_server/guild.go:335-385 | for every draw: min(5, number of guilds) distinct live ids, each the first not yet picked from its drawn position on |
| GuildRules.RunKeeps | src/hall_server/guild.go:219-1411 | every run of requests keeps the invariant, whatever the clock says |
| GuildRules.OrderlyMeans | src/hall_server/guild.go:219-1411 | the invariant says: in a guild if and only if it is live and lists the player; one president each; position 0 outside; members within the limit |
| GuildMeaning.StepMeans | src/hall_server/guild.go:219-1411 | every request: granted exactly under its conditions, with exactly its effect; refused, nothing changes but that a guild whose time was over ends |
| GuildMeaning.AdmittedExactly | src/hall_server/guild.go:916-1034 | consent admits exactly the named players who asked and have no guild, and exactly these stop asking; all other rows and players stay |
| GuildMeaning.DismissalHolds | src/hall_server/guild.go:471-503 | a dismissed guild lives on exactly as long as its waiting time |
| GuildMeaning.CooldownHolds | src/hall_server/guild.go:871-913 | who quits can ask another guild exactly when the cooldown is over |
| Guilds.GuildManager.AgreeJoin | src/hall_server/guild.go:916-1034 | changes rows and players exactly as the admitting step of `GuildRules`, answers and changes what `GuildMeaning.Answered` promises, and keeps the index |
| DonationRules.RunConserves | src/hall_server/guild.go:1495-1697 | over every run no items are made, and none are lost while counts fit 32 bits |
| DonationRules.DonateMeans | src/hall_server/guild.go:1611-1697 | a donation granted takes one item from the donor and gives one to the one who asked, and to nobody else; one refused moves nothing but what timed out |
| InviteCodes.RoundTrip | src/hall_server/player_carnival.go:257-326 | every id from 0 to 2^31-1 comes back from its code |
| InviteCodes.CodesOfIds | src/hall_server/player_carnival.go:257-326 | a code comes back from its id exactly if it has no leading zeros and stands for a 32-bit id |
| Hangups.RunCredits | src/hall_server/player_campaign.go:341-549 | over any run of looks, campaign changes, limited and failed looks included, cache and bag together gain exactly what the looks earned |
| Hangups.ScheduleDoesNotMatter | src/hall_server/player_campaign.go:525-549 | under one campaign any schedule of caching and collecting credits exactly the rounds from start to end |
| Hangups.SwitchGetsStuck | src/hall_server/player_campaign.go:356-436 | income cached under a campaign with rewards cannot be collected under the next one if and only if that has no rewards |
| RankOrder.StrictTotalOrder | src/hall_server/common_rank_item.go:20-72 | the comparison is a strict total order on rows of different players, and "less" is its converse |
| RankOrder.WhoIsAhead | src/hall_server/common_rank_item.go:41-60 | in a ranking the higher value has the smaller rank, of equal ones the earlier time, of these the smaller id |
| RankOrder.CutIsCut | libs/utils/skiplist.go:76-88 | in a descending list the leading rows that rank before a value are all rows that do |
| RankOrder.InsertAtCut | libs/utils/skiplist.go:76-131 | inserting there keeps the list descending |
| RankOrder.RankItem.Assign | src/hall_server/common_rank_item.go:91-99 | copies every field |
| RankOrder.RankItem.SetValue | src/hall_server/common_rank_item.go:82-85 | changes the sort key, never whose row it is |
| Layers.PutAfter | libs/utils/skiplist.go:98-118 | after an insertion every old node's successor on a layer is the old one, or the new node exactly when it lies between them and reaches the layer |
| Layers.PutBefore | libs/utils/skiplist.go:98-118 | the same for predecessors |
| Layers.PutNew | libs/utils/skiplist.go:98-118 | the new node lies between its recorded predecessor and that one's old successor |
| Layers.AfterBefore | libs/utils/skiplist.go:98-118 | the predecessor of a successor is where one started |
| SkipNodes.PutPredecessor | libs/utils/skiplist.go:98-118 | new link and span of the node before an inserted one: the two parts of the old span add up to it plus one |
| SkipNodes.PutSuccessor | libs/utils/skiplist.go:98-118 | the node after an inserted one points back to it |
| SkipNodes.PutSelf | libs/utils/skiplist.go:98-118 | links and span of an inserted node |
| SkipNodes.PutElsewhere | libs/utils/skiplist.go:98-118 | all other nodes of a layer keep their links |
| SkipNodes.PutAbove | libs/utils/skiplist.go:115-118 | on layers above the new node only the span that covers it grows, by one |
| SkipLoops.SpliceAll | libs/utils/skiplist.go:98-114 | the splice loop turns the layers of the old list into those of the new one |
| SkipLoops.WidenAll | libs/utils/skiplist.go:115-118 | the loop above the new node's height does the same by widening spans |
| SkipLoops.UnspliceAll | libs/utils/skiplist.go:207-222 | the unlink loop turns the layers of a list into those of the list without the node |
| SkipLists.Skiplist.constructor | libs/utils/skiplist.go:66-74 | an empty list is valid |
| SkipLists.Skiplist.Walk | libs/utils/skiplist.go:82-88 | a walk along a layer stops at the last node on it that ranks before the value, and counts the places passed |
| SkipLists.Skiplist.FindPath | libs/utils/skiplist.go:78-91 | the descent records on each layer the predecessor of the place and its rank |
| SkipLists.Skiplist.Raise | libs/utils/skiplist.go:92-97 | opening new layers keeps the structure and extends the recorded path |
| SkipLists.Skiplist.GetNode | libs/utils/skiplist.go:133-145 | finds the node at a value's place if it has its key, and records the path to it |
| SkipLists.Skiplist.GetNodeByRank | libs/utils/skiplist.go:147-161 | adding up spans finds the node of any rank, the head for 0, nil beyond the end |
| SkipLists.Skiplist.GetByRank | libs/utils/skiplist.go:163-169 | the item of a rank is that element of the whole list |
| SkipLists.Skiplist.PullList | libs/utils/skiplist.go:269-276 | reads off the whole list |
| SkipLists.Skiplist.DeleteNode | libs/utils/skiplist.go:207-237 | with a fresh path above the node: takes out exactly this node; one top layer closes exactly if nobody is left on it |
| SkipLists.Skiplist.NoteDeleted | libs/utils/skiplist.go:223-237 | tail, length and the count of heights after a deletion |
| RankLists.PositionIsCount | libs/utils/ranklist.go:172-181 | a row's position is the number of rows that rank before it |
| RankLists.CommonRankingList.constructor | libs/utils/ranklist.go:20-35 | an empty list is valid |
| RankLists.CommonRankingList.Insert | libs/utils/ranklist.go:74-86 | adds a row with a new key |
| RankLists.CommonRankingList.Delete | libs/utils/ranklist.go:88-108 | takes the item of a key off the list but keeps it in the map |
| RankLists.CommonRankingList.Replace | libs/utils/ranklist.go:114-131 | an existing key's item is taken out, rewritten and put back where it now belongs |
| RankLists.CommonRankingList.SetValueByKey | libs/utils/ranklist.go:63-72 | rewrites one row's sort key in place, at whatever rank it is |
| RankLists.CommonRankingList.GetByRank | libs/utils/ranklist.go:37-48 | the row at that place of the ranking |
| RankLists.CommonRankingList.GetRangeNodes | libs/utils/ranklist.go:133-170 | copies min(count, remaining) consecutive rows, or nothing outside the limits |
| RankLists.CommonRankingList.GetLength | libs/utils/ranklist.go:237-241 | the number of rows |
| ArenaReset.CoveredKeepsOrderIff | src/hall_server/player_arena.go:755-788 | if every score has a division, that is exactly that new scores fall along the old ranks |
| ArenaReset.DivisionIsFirst | src/table_config/table_arena_division.go:84-92 | the division of a score is the first whose bounds, both included, hold it |
| ArenaReset.ResetTimes | src/hall_server/player_arena.go:784-787 | new times are spaced as the ranks are, the last of all at the time of the reset |
| ArenaReset.MonotoneScoresFall | src/hall_server/player_arena.go:755-788 | a table whose new scores do not fall with the old ones guarantees that |
| ArenaReset.UncoveredBreaksOrder | src/hall_server/player_arena.go:769-772 | one score without a division can leave the list out of order |
| TimerLists.ConnTimerList.Add | src/hall_server/conn_timer_mgr.go:20-33 | appends a timer to a well-formed list |
| TimerLists.ConnTimerList.Remove | src/hall_server/conn_timer_mgr.go:35-48 | unlinks a timer, which still points to its old successor |
| Rings.OnTimeMoves | src/hall_server/conn_timer_wheel.go:163-164 | moving index and clock keeps every running timer in the slot of its deadline |
| Rings.SweepEnds | src/hall_server/conn_timer_wheel.go:131-143 | the end index, with start index -1 and advances of a whole ring or more, is met after exactly the slots due |
| Rings.SlotApart | src/hall_server/conn_timer_wheel.go:48-75 | within one turn different deadlines are different slots |
| TimerWheels.ConnTimerWheel.constructor | src/hall_server/conn_timer_wheel.go:27-32 | an empty wheel is valid |
| TimerWheels.ConnTimerWheel.Insert | src/hall_server/conn_timer_wheel.go:48-75 | the player's deadline is one interval after the last check; an old timer is gone |
| TimerWheels.ConnTimerWheel.Remove | src/hall_server/conn_timer_wheel.go:77-89 | forgets exactly this player |
| TimerWheels.ConnTimerWheel.SweepList | src/hall_server/conn_timer_wheel.go:144-157 | walking a list while unlinking its timers visits each once: exactly the known players of the slot go |
| TimerWheels.ConnTimerWheel.SweepTo | src/hall_server/conn_timer_wheel.go:142-162 | the slot loop logs out, in deadline order and once each, exactly the known players whose time is over |
| TimerWheels.ConnTimerWheel.Sweep | src/hall_server/conn_timer_wheel.go:129-165 | the same for every advance of the clock |
| TimerRuns.StaysAway | src/hall_server/conn_timer_wheel.go:91-165 | a player who is gone stays gone until asked for |
| TimerRuns.LastRequestCounts | src/hall_server/conn_timer_wheel.go:98-122 | of several requests about a player in a round the last decides: a timer with a whole interval, or none |
| TimerRuns.NeverOut | src/hall_server/conn_timer_wheel.go:91-165 | over every run a player without a timer is logged out by no round until somebody starts one |
| TimerRuns.OutWhenDue | src/hall_server/conn_timer_wheel.go:91-165 | a round logs out a known player nobody asks about exactly if it finds the deadline reached |
| TimerRuns.FirstRoundWaits | src/hall_server/conn_timer_wheel.go:124-130 | the first round only sets the clock and logs out nobody |
| ShortRanks.PlacedIs | libs/utils/short_ranklist.go:60-79 | putting an item behind the last one not smaller keeps the list descending with one item per key |
| ShortRanks.MoveIs | libs/utils/short_ranklist.go:90-117 | where a changed item belongs among the others |
| ShortRanks.IndexMove | libs/utils/short_ranklist.go:119-137 | if every key's position follows the move, the index stays the exact inverse |
| ShortRanks.IndexTake | libs/utils/short_ranklist.go:149-157 | the same after a removal |
| ShortRanks.ShortRankList.constructor | libs/utils/short_ranklist.go:30-40 | an empty list is valid |
| ShortRanks.ShortRankList.Delete | libs/utils/short_ranklist.go:140-160 | removes exactly the item of the key |
| ShortRanks.ShortRankList.GetRank | libs/utils/short_ranklist.go:174-185 | the position of the key, found through the index |
| ShortRanks.ShortRankList.GetByRank | libs/utils/short_ranklist.go:187-201 | the item at that position |
| RolePowers.TeamIsStrongest | src/hall_server/player_role_power_rank.go:76-87 | no four roles have more power than the first four |
| RolePowers.PowerUnmoved | src/hall_server/player_role_power_rank.go:104-113 | an update that moves a role neither from nor to the first four leaves their sum alone |
| RoleRuns.RunLists | src/hall_server/player_role_power_rank.go:104-124 | over every run the list holds exactly the powers that the requests left, each role once |
| RoleRuns.LastPower | src/hall_server/player_role_power_rank.go:104-124 | while all roles find a place, the last request about a role decides its power, or that it is gone |
| RoleRuns.NotAbout | src/hall_server/player_role_power_rank.go:104-124 | a role that no request is about keeps its power |
| RoleRuns.LoadedLists | src/hall_server/player_role_power_rank.go:127-147 | loading leaves the list as an update for each stored role with a positive power would |
| RolePowers.PublishedStaysTrue | src/hall_server/player_role_power_rank.go:104-124 | over every run the published power is the sum of the first four whenever that is positive |
| RolePowers.PowerlessKeeps | src/hall_server/player_role_power_rank.go:86-124 | every step that leaves the team without power leaves the published power as it was |
| RolePowers.LastRoleLingers | src/hall_server/player_role_power_rank.go:86-88 | a run where that happens: a role is added and deleted, and its power stays published |
| RolePowers.RolePowerRank.Publish | src/hall_server/player_role_power_rank.go:76-96 | adds up the first four and publishes a positive sum |
| RolePowers.RolePowerRank.UpdateRolePowerRank | src/hall_server/player_role_power_rank.go:104-113 | list and published power become what the update step of the runs above says |
| RolePowers.RolePowerRank.DeleteRolePowerRank | src/hall_server/player_role_power_rank.go:115-124 | list and published power become what the deletion step of the runs above says |
| RolePowers.RolePowerRank.LoadRolesPowerRankData | src/hall_server/player_role_power_rank.go:127-147 | loading fills the list and leaves a true published power |
| Wires.ChunksDoNotMatter | libs/server_conn/server_conn.go:544-632 | a clean stream gives the same frames and the same rest however reads cut it |
| Wires.ZeroLengthStalls | libs/server_conn/server_conn.go:590-628 | every other stream has a cut that changes the result |
| Wires.ClientsAreClean | libs/socket/socket.go:623-626 | client streams are always clean |
| Wires.OneFrame | libs/server_conn/server_conn.go:386-409 | a frame that fits is handed on as it was sent |
| Wires.TooLongDrops | libs/server_conn/server_conn.go:604-607 | a frame over the limit ends the connection |
| Wires.FramesArrive | libs/server_conn/server_conn.go:544-632 | frames that fit arrive complete, in order, with nothing left over |
| ServerConns.WriteMsgs | libs/server_conn/server_conn.go:297-328 | writes the messages of a group one after the other; an empty group is an error |
| ServerConns.MessageLayout | libs/server_conn/server_conn.go:305-309 | four header bytes: the type, then the length of the body, high bytes first |
| ServerConns.SendGroup | libs/server_conn/server_conn.go:356-411 | frames the group's package: two length bytes, high byte first, and a control byte that says whether it is compressed, which it is above 2048 bytes |
| ServerConns.ServerConn.SendData | libs/server_conn/server_conn.go:184-242 | queues each accepted message once, behind all earlier ones, in a group of its own |
| ServerConns.ServerConn.SendFlush | libs/server_conn/server_conn.go:244-263 | sends a pending group; the queue of messages is the same |
| ServerConns.ServerReceiver.OnRead | libs/server_conn/server_conn.go:544-632 | the loop over the buffer hands on exactly the frames of the specification |
| ServerConns.HandleMsgs | libs/server_conn/server_conn.go:467-539 | splits a package, with 16-bit end positions and every error case |
| ServerConns.OnRecv | libs/server_conn/server_conn.go:423-542 | decompresses if the control byte says so, then splits |
| ServerConns.SplitWritten | libs/server_conn/server_conn.go:467-539 | what accepted messages are written as splits into these messages |
| ClientConns.SendItem | libs/socket/socket.go:390-411 | three length bytes, control byte, type and body |
| ClientConns.ClientReceiver.OnRead | libs/socket/socket.go:540-656 | hands on exactly the frames of the specification; the outer guard leaves no complete frame behind |
| ClientConns.OnRecv | libs/socket/socket.go:449-512 | type, body and every error case of a frame |
| ClientConns.ArrivesExactly | libs/socket/socket.go:449-512 | a frame with the low control bit set hands on the inflated body, another the body as it is; an unknown type, or a body that does not inflate or parse, is refused |
| ClientConns.CutsNeverMatter | libs/socket/socket.go:564-653 | any bytes at all give the same result however cut |
| ItemPools.SimpleItemPool.Init | libs/utils/simple_item_pool.go:14-21 | all made objects are free |
| ItemPools.SimpleItemPool.GetFree | libs/utils/simple_item_pool.go:23-33 | takes the next free object, if any |
| ItemPools.SimpleItemPool.Recycle | libs/utils/simple_item_pool.go:35-46 | an object given back is the next one taken; refused when all are free |
| ItemPools.SimpleItemPool.HasFree | libs/utils/simple_item_pool.go:48-53 | whether any object is free |
| Chats.NoTwice | src/hall_server/chat.go:115-123 | if list and free part share out the objects, no object is listed twice or both listed and free |
| Chats.ChatMgr.Unlink | src/hall_server/chat.go:130-143 | takes any item out of the list and gives it back |
| Chats.ChatMgr.RecycleOld | src/hall_server/chat.go:125-147 | exactly the expired entries leave the log, wherever they are; if the last one is among them the list has no tail |
| Chats.ChatMgr.DropOldest | src/hall_server/chat.go:155-166 | the head of a list that uses every object is given back, the others stay |
| Chats.KeptIsNotPushed | src/hall_server/chat.go:149-195 | what a push leaves when the last message expired before another is never what it should leave |
| ChatRuns.LogFits | src/hall_server/chat.go:125-195 | the log never outgrows the pool and is in the order of sending |
| ChatRuns.RunsFit | src/hall_server/chat.go:125-195 | if the clock does not go back and there are two items at least, `Fits` holds at every push |
| GuildIndexes.GuildIndex.AddGuild | src/hall_server/guild.go:114-134 | lists a guild unless its id or name is taken |
| GuildIndexes.GuildIndex.RemoveGuild | src/hall_server/guild.go:136-158 | swap-remove: the last id fills the place of the removed one |
| GuildIndexes.SwapRemovedIs | src/hall_server/guild.go:146-151 | a swap-remove loses exactly one id and keeps the rest without repetition |
| GuildIndexes.GuildIndex.HasGuildByName | src/hall_server/guild.go:160-169 | whether a live guild has the name |
| GuildIndexes.GuildIndex.Probe | src/hall_server/guild.go:358-378 | finds the first id not yet picked from a position on, around the ring; or all are picked |
| GuildRules.RemovedKeeps | src/hall_server/guild.go:471-503 | a lapsed dismissal keeps the invariant |
| GuildRules.RepairIdle | src/hall_server/guild.go:424-434 | under the invariant the repairs of a lookup change nothing |
| GuildRules.LookupKeeps | src/hall_server/guild.go:409-437 | a lookup finds only a live guild that lists the player |
| GuildRules.AgreeAllKeeps | src/hall_server/guild.go:946-1001 | admitting any list of players keeps the invariant, the level limit included |
| GuildRules.KickAllKeeps | src/hall_server/guild.go:1316-1338 | expelling any list of players keeps it |
| GuildRules.AppointAllKeeps | src/hall_server/guild.go:1244-1263 | appointing any list of players keeps it |
| GuildRules.HandOverKeeps | src/hall_server/guild.go:1389-1391 | handing over the presidency keeps it |
| GuildRules.FoundedKeeps | src/hall_server/guild.go:243-267 | founding a guild keeps it |
| GuildRules.GrowKeeps | src/hall_server/guild.go:1145-1176 | level by level the limit never shrinks |
| GuildRules.StepKeeps | src/hall_server/guild.go:219-1411 | every request keeps the invariant, granted or not |
| GuildMeaning.RefusedExactly | src/hall_server/guild.go:946-960 | a refusal takes exactly the named players off the list of who asked |
| GuildMeaning.ExpelledExactly | src/hall_server/guild.go:1299-1364 | exactly the ordinary members named are expelled and free from that moment |
| GuildMeaning.OfficersManage | src/hall_server/guild.go:1229-1338 | a member may expel others after being appointed with set type 1, and with no other |
| GuildMeaning.DismissalUndone | src/hall_server/guild.go:730-748 | a dismissal taken back in time leaves no trace but a cleared time |
| GuildMeaning.GrowPays | src/hall_server/guild.go:1154-1164 | the experience used up is what the levels gained cost, and the rest does not pay for one more |
| Guilds.GuildManager.constructor | src/hall_server/guild.go:196-209 | a server without guilds is orderly |
| Guilds.GuildManager.Expire | src/hall_server/guild.go:476-501 | frees all members and forgets the guild |
| Guilds.GuildManager.GetGuild | src/hall_server/guild.go:272-282 | finds a guild exactly if it is live and its waiting time is not over; one whose time is over ends on the way |
| Guilds.GuildManager.GetGuildFor | src/hall_server/guild.go:409-437 | the guild a player acts in, repairs included |
| Guilds.GuildManager.CreateGuild | src/hall_server/guild.go:219-270 | changes rows and players exactly as the founding step of `GuildRules`, answers and changes what `GuildMeaning.Answered` promises, and keeps the index |
| Guilds.GuildManager.AskToJoin | src/hall_server/guild.go:871-913 | changes rows and players exactly as the asking step of `GuildRules`, answers and changes what `GuildMeaning.Answered` promises, and keeps the index |
| Guilds.GuildManager.QuitGuild | src/hall_server/guild.go:1076-1102 | changes rows and players exactly as the quitting step of `GuildRules`, answers and changes what `GuildMeaning.Answered` promises, and keeps the index |
| Guilds.GuildManager.SetOfficers | src/hall_server/guild.go:1229-1296 | changes rows and players exactly as the appointing step of `GuildRules`, answers and changes what `GuildMeaning.Answered` promises, and keeps the index |
| Guilds.GuildManager.KickMembers | src/hall_server/guild.go:1299-1364 | changes rows and players exactly as the expelling step of `GuildRules`, answers and changes what `GuildMeaning.Answered` promises, and keeps the index |
| Guilds.GuildManager.HandOver | src/hall_server/guild.go:1367-1411 | changes rows and players exactly as the step that hands over the presidency of `GuildRules`, answers and changes what `GuildMeaning.Answered` promises, and keeps the index |
| Guilds.GuildManager.DismissGuild | src/hall_server/guild.go:707-727 | changes rows and players exactly as the dismissing step of `GuildRules`, answers and changes what `GuildMeaning.Answered` promises, and keeps the index |
| Guilds.GuildManager.CancelDismissGuild | src/hall_server/guild.go:730-748 | changes rows and players exactly as the step that takes a dismissal back of `GuildRules`, answers and changes what `GuildMeaning.Answered` promises, and keeps the index |
| Guilds.GuildManager.GuildAddExp | src/hall_server/guild.go:1145-1176 | changes rows and players exactly as the step that adds experience of `GuildRules`, answers and changes what `GuildMeaning.Answered` promises, and keeps the index |
| Guilds.GuildManager.LevelUp | src/hall_server/guild.go:1154-1164 | the level loop ends and pays for exactly the levels gained |
| Guilds.GuildManager.IndexIsLive | src/hall_server/guild.go:114-158 | the id array lists every live guild once and no other |
| DonationRules.SettledConserves | src/hall_server/guild.go:1514-1517 | closing a request moves what it holds into a bag |
| DonationRules.HandedConserves | src/hall_server/guild.go:1657-1662 | a donated item moves from the bag to the request |
| DonationRules.CheckAllConserves | src/hall_server/guild.go:1495-1527 | timeouts conserve items, whatever their order |
| DonationRules.CheckAllSides | src/hall_server/guild.go:1495-1527 | timeouts leave every player with what was in the bag and held with his or her own requests |
| DonationRules.ClosedExactly | src/hall_server/guild.go:1495-1527 | a request is closed exactly if it is looked at, its player is known and at most one second of its time is left |
| DonationRules.RunLimited | src/hall_server/guild.go:1643-1648 | no run brings a player's score over the day's limit |
| DonationRules.PerformConserves | src/hall_server/guild.go:1495-1697 | every request of the donation desk conserves items and keeps open requests short of their number |
| Donations.DonationDesk.AddResource | src/hall_server/player_item.go:64-129 | adds to a bag, stopping at the largest 32-bit count |
| Donations.DonationDesk.DelItem | src/hall_server/player_item.go:131-161 | takes any number of an item: all of them go from one bag, or nothing if there are too few |
| Donations.DonationDesk.CheckDonateList | src/hall_server/guild.go:1495-1527 | closes exactly the requests looked at, of known players, with at most one second left, and says whether there were any |
| Donations.DonationDesk.AskDonate | src/hall_server/guild.go:1563-1608 | opens a request exactly if the item is known, at most one second of the cooldown is left and no request is open; bags, requests and scores become what the asking step says |
| Donations.DonationDesk.DonateTo | src/hall_server/guild.go:1611-1697 | is granted exactly under its conditions; then the donor has one item less and the one who asked one more |
| InviteCodes.ValueOfDigits | src/hall_server/player_carnival.go:267-312 | the digits of a number stand for it |
| InviteCodes.DigitsOfValue | src/hall_server/player_carnival.go:314-326 | digits without leading zeros are those of their number |
| InviteCodes.HighestFirst | src/hall_server/player_carnival.go:267-312 | codes are written in base 36 with digits before letters and the highest digit first |
| InviteCodes.TopWritten | src/hall_server/player_carnival.go:278-295 | writing the top digit of what is left keeps written digits plus rest equal to the id |
| InviteCodes.InviteCodeGenerator.constructor | src/hall_server/player_carnival.go:257-265 | the character map inverts the alphabet |
| InviteCodes.InviteCodeGenerator.PowerN | src/hall_server/utils.go:10-20 | computes the power of any base |
| InviteCodes.InviteCodeGenerator.TopDigit | src/hall_server/player_carnival.go:279-284 | the top digit and how many digits follow it |
| InviteCodes.InviteCodeGenerator.Fill | src/hall_server/player_carnival.go:277-301 | the digit loop ends, stays inside the scratch array and writes the digits of the id |
| InviteCodes.InviteCodeGenerator.Generate | src/hall_server/player_carnival.go:267-312 | gives the code of the id and leaves the scratch array clear |
| InviteCodes.InviteCodeGenerator.GetId | src/hall_server/player_carnival.go:314-326 | reads any code with 32-bit arithmetic; 0 for a bad character |
| Hangups.LookCredits | src/hall_server/player_campaign.go:391-436 | any look, limited or not, even one that fails, credits the whole rounds of the seconds it counts and loses nothing cached |
| Hangups.RoundsAdd | src/hall_server/player_campaign.go:391-396 | two looks count the same rounds as one at the end |
| Hangups.CappedLook | src/hall_server/player_campaign.go:541-548 | a limited look counts up to eight hours after the logout; with a period of at most that, the same logout never limits a later look |
| Hangups.LimitExactly | src/hall_server/player_campaign.go:541-545 | the limit cuts off what lies more than eight hours after the logout, and nothing else |
| Hangups.HangupIncome.GetStaticIncome | src/hall_server/player_campaign.go:391-436 | caches or pays out the rounds together with what was cached; fails where the scratch map is missing |
| Hangups.HangupIncome.HangupIncomeGet | src/hall_server/player_campaign.go:525-549 | one look, with the eight-hour limit for players who are away |

## Left out

- SkipLists.Skiplist.DeleteNode: `DeleteByRank` calls it without refreshing the search path, so the fresh path is a precondition and `DeleteByRank` is not part of this model.
- RankLists.CommonRankingList.Delete: it keeps the map entry as the source does, so the list is no longer consistent afterwards; runs use `Update`.
- RankLists.CommonRankingList.Insert: it is stated for new keys; for an existing key the source leaves the old item in the list.
- ArenaReset.Reset: the scores handed to players and robots are one map by id; which of the two an id belongs to, or neither, is not part of this model.
- Chats.ChatMgr.PushChatMsg: the total message counter is kept but not stated.
- GuildIndexes.GuildIndex.AddGuild: an index that is full (10000 guilds) makes the source fail; room is a precondition of founding.
- GuildRules.StepKeeps: it needs a level table that starts at 1 and whose limits do not shrink along levels that can be left, and new guild ids that are positive.
- DonationRules.RunConserves: the donor's reward items are not counted, and items must be ordinary ones that the item table knows.
- Donations.DonationDesk.AddResource: head items, the honour bonus and items the item table does not know, which `add_item` treats apart, are not part of this model.
- InviteCodes.InviteCodeGenerator.PowerN: the product is unbounded; the 64-bit wrap-around of the source cannot be seen, since every use fits or is cut to 32 bits.
- InviteCodes.InviteCodeGenerator.Generate: negative ids are excluded.
- Hangups.RunCredits: it needs a clock that does not go back; bags are unbounded.
- Hangups.ScheduleDoesNotMatter: it is for one campaign under which the cache can be collected, and for looks to which the eight-hour limit does not apply, since a limited look counts less than all seconds (`Hangups.CappedLook`); `Hangups.RunCredits` has neither restriction.
- TimerWheels.ConnTimerWheel.RunOnce: the statistics counter of online players is not part of this model.
- Random income of campaigns, which draws from drop tables, is not part of this model.
- Renaming a guild does not check that the new name is free; it is not part of this model.
- Messages to clients, mails, logs of guilds, result codes of requests, wallets and level requirements are not modelled.
- The wheel variants `SimpleTimeWheel` and `ConnTimerMgr`, chat reader cursors, friend recommendations, battles, payments and persistence are not modelled.
- Sockets, TLS, deflate and protobuf are foreign code: bytes and functions stand for them.
- Interleavings inside a locked section are not modelled.
