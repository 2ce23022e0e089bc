# A verified model of casm's cluster core

casm builds clusters of peers: it finds them by crawling a network block, keeps a bounded
random view of them by gossip (PeX), tracks their heartbeats in a routing table, and lets
clients query that table. The modules here model the parts of it with the most state, and
prove what they promise for all inputs and for whole runs.

| module | models |
|---|---|
| `Bytes`, `Subnet`, `Crawl` | the CIDR iterator: byte arithmetic, blocks, the in-place iterator |
| `PexView`, `PexMerge`, `PexSurvival` | gossip views and the merge pipeline, for every outcome of its random choices |
| `PexRound`, `PexRuns` | a gossip round against the record store, and runs of a network of nodes |
| `Subscriptions` | subscriptions of the bootstrap socket as an interleaving state machine |
| `Rendezvous` | the hand-over of records to a client's iterator, as an interleaving state machine |
| `RoutingTable` | the two-index heartbeat table |
| `QueryIter`, `Query` | iterators, constraints and selectors of a query |
| `Prelude` | what several modules share |

Random choices, scheduling, clocks and what peers send are parameters or free choices of a
step, and results hold for all of them with two exceptions. `BoundedRuns` is about networks in
which strangers do not exceed a bound on hops. `MergeSize`,
`MergeIsDeterministic`, `MergeLayout`, `SurvivesIff` and `SwappedAreGone` are about unions in
which no record supersedes another one, as is the case whenever both views name each peer
once (`UnionIsClean`).

## What the code does, where that may surprise

- The push of a gossip round appends the own record to a shortened slice of the local view
  and thereby overwrites one record of it. The store then keeps one peer that the merged
  view does not have: `RoundStore`, `StoreMatchesViewIff`, `LeftBehind`.
- The crawl of a /0 block never ends: `EndsIffPrefixed`.
- `To`, and `While` with a matcher that looks at a record's fields, match against nil at the
  end of the selection and panic: `ToIsExact`, `WhileIsExact`.
- A call of the client's `Next` after nil can block for good: `StuckIff`, `StuckRun`.
- A result limit above 2^32 is truncated and fires early: `LimitExactIff`.
- A remote view that repeats a peer is accepted, and a merge may then lose records:
  `RepeatsAreAccepted`, `MergeSizeIff`, `SizeCertainIff`.
- A restarted server that has counted beyond an older instance's numbers is displaced by a
  late heartbeat of that instance: `LateHeartbeatDisplaces`, `InstanceStaysIff`.
- A received record of hop 2^64 - 1 is stored with hop 0, and pushing it makes receivers
  reject the push: `HopMayWrap`, `PushValidIff`.
- The `ttl` index orders times across the Unix epoch wrongly: `ScanIsExactIff`.
- `specs/pex.md:166-169` prefers the higher hop count among duplicates of equal number;
  `pkg/pex/store.go:139-151` prefers the lower one, and keeps both records when one is newer
  and the other has fewer hops. The model follows the code.
- `specs/pex.md:219-221` asks for a hop above 1 in all records of a message but the last; the code accepts any
  hop but 0. The model follows the code.
- The comment at `pkg/cluster/routing/table.go:128-129` says that at equal numbers another
  instance's new record is preferred; the code rejects it. The model follows the code.
- A reverse lower-bound scan is documented to include the bound
  (`pkg/stm/txn.go:183-185`). On the `ttl` index it does not, because stored keys carry a
  suffix: `ScanOrder`.

## Model

| member | source | states |
|---|---|---|
| `Bytes.IncrIsSuccessor` | pkg/boot/crawl/strategy.go:214-220 | For byte strings of any width, the carry loop adds one to the big-endian value, modulo 256 to the width. |
| `Subnet.BlockIsRange` | pkg/boot/crawl/strategy.go:169-171 | With a contiguous mask, the addresses of a block are exactly those whose value lies between the network address and the broadcast address, so that address is the greatest one inside. |
| `Subnet.BlockSize` | pkg/boot/crawl/strategy.go:229-242 | The broadcast address lies 2^(bits - prefix) - 1 above the network address. |
| `Subnet.XorPermutesBlock` | pkg/boot/crawl/strategy.go:272-276 | XOR with a mask confined to the host bits is its own inverse and keeps every address on its side of the block's border. |
| `Subnet.XorConnects` | pkg/boot/crawl/strategy.go:272-276 | From any address to any other one exactly one mask leads, and only the zero mask leaves an address where it is. |
| `Subnet.SkipAtMostTwice` | pkg/boot/crawl/strategy.go:192-206 | Of three consecutive counters at most two are skipped: the counter nextIP lands on after at most two increments is never one that has to be skipped. |
| `Subnet.NoWrapInside` | pkg/boot/crawl/strategy.go:214-220 | In a block with a prefix of at least one bit, an increment that stays inside never wraps, and the only one that leaves starts at the broadcast address. |
| `Subnet.WalkYields` | pkg/boot/crawl/strategy.go:157-206 | From any counter, an address is still to come if and only if it is inside the block, is neither network nor broadcast address, and its unmasked counter has not been passed. |
| `Subnet.WalkDistinct` | pkg/boot/crawl/strategy.go:157-206 | No address comes twice from any counter on. |
| `Subnet.WalkLength` | pkg/boot/crawl/strategy.go:157-206 | From any counter, the number of addresses to come plus the number of addresses to skip is the number of counters left. |
| `Subnet.CrawlCoversBlock` | pkg/boot/crawl/strategy.go:157-206 | A crawl yields every address of the block except network and broadcast address, each exactly once, and nothing else, whatever host bits the random mask flips; the count is 2^(bits - prefix) - 2, and 0 for a block of one address. |
| `Crawl.EndsIffPrefixed` | pkg/boot/crawl/strategy.go:157-171 | Some call of Next reports the end if and only if the prefix has at least one bit, whatever the mask: the counters of a /0 crawl stay inside for ever. If there is an end, call by call the addresses of the walk come first and the very next call reports it. |
| `Crawl.Complement` | pkg/boot/crawl/strategy.go:266-270 | The in-place loop negates every byte. |
| `Crawl.XorMask` | pkg/boot/crawl/strategy.go:272-276 | The in-place loop is byte-wise XOR of destination and source. |
| `Crawl.AndMask` | pkg/boot/crawl/strategy.go:278-282 | The in-place loop is byte-wise AND of destination and source. |
| `Crawl.MaskedIsHostOnly` | pkg/boot/crawl/strategy.go:244-264 | The drawn mask is zero on the network bits and agrees with the random bytes on every host bit, so every host mask can be drawn; complementing the netmask twice restores it. |
| `Crawl.CIDR.constructor` | pkg/boot/crawl/strategy.go:106-116 | A new iterator owns fresh buffers for its block, with broadcast address and random host mask set up, and has not started. |
| `Crawl.CIDR.Reset` | pkg/boot/crawl/strategy.go:145-149 | Puts the iterator back to not started, with a new mask that is the random bytes restricted to the host bits, and keeps the netmask although the complement loop runs over it twice. |
| `Crawl.CIDR.SetBroadcast` | pkg/boot/crawl/strategy.go:229-242 | Leaves the block's broadcast address, the one BlockIsRange shows to be the greatest, in its buffer. |
| `Crawl.CIDR.SetRandomMask` | pkg/boot/crawl/strategy.go:244-264 | Leaves a mask that is zero on the network bits and the random bytes on the host bits, and restores the netmask it complemented on the way. |
| `Crawl.CIDR.IncrIP` | pkg/boot/crawl/strategy.go:214-220 | The in-place carry loop replaces the counter by its successor. |
| `Crawl.CIDR.Skip` | pkg/boot/crawl/strategy.go:208-212 | Writes the masked counter into the destination and answers whether it is the network or broadcast address. |
| `Crawl.CIDR.Next` | pkg/boot/crawl/strategy.go:157-206 | Moves to the next counter that is not skipped, returns its masked address, which is neither network nor broadcast address, and reports whether the counter is inside the block; its loop ends after at most two rounds. |
| `Crawl.CrawlAll` | pkg/boot/crawl/crawl.go:113-116 | Draining a fresh iterator with calls of Next returns every address of the block but network and broadcast address exactly once, for any prefix of at least one bit. |
| `PexView.MergedPerPeer` | pkg/pex/store.go:131-151 | What the merged view holds of one peer: its only record if one view has it; both records if one is newer and the other has fewer hops; otherwise exactly the one with the higher number, then the lower hop, then the local one. |
| `PexView.MergedIsClean` | pkg/pex/store.go:131-151 | No record occurs twice in a merged view, and two records of one peer never supersede each other. |
| `PexView.UnionPerPeer` | pkg/pex/gossip.go:190-193 | After the node's own records are removed, the union holds of every other peer exactly what the merged view holds of it. |
| `PexView.UnionIsConcat` | pkg/pex/gossip.go:190-193 | If nothing is superseded and the node itself is in neither view, the union is the local view followed by the remote one. |
| `PexView.UnionIsClean` | pkg/pex/gossip.go:190-193 | No record occurs twice in the union, and two records of one peer never supersede each other. |
| `PexView.MergedIsConcat` | pkg/pex/store.go:131-151 | Merging views whose records together are clean is plain concatenation; deduplication changes nothing then. |
| `PexMerge.ClosingMerge` | pkg/pex/gossip.go:208-216 | The last merge, with the oldest records, never drops a record: its operands are disjoint parts of a clean union. |
| `PexMerge.MergeBound` | pkg/pex/gossip.go:185-220 | For any two views, also a remote one that repeats peers, no result exceeds MaxView or the deduplicated union without the node itself. |
| `PexMerge.MergeSize` | pkg/pex/gossip.go:185-220 | Whatever the random choices, a merge yields exactly min(size of that union, MaxView) records if no record of the union supersedes another one. |
| `PexSurvival.MergeSizeIff` | pkg/pex/gossip.go:185-220 | That size is certain for all parameters and random choices if and only if no record of the union supersedes another one; views that name each peer once make sure of it. |
| `PexSurvival.SizeCertainIff` | pkg/pex/gossip.go:185-220 | For given parameters that size is certain if and only if no two records of which one supersedes the other may be separated, the younger one spared by eviction and the older one protected, which is a condition on how many records are as old as the one and older than the other. |
| `PexSurvival.RepeatsAreAccepted` | pkg/pex/record.go:115-139 | A view that repeats a peer is accepted, makes a union in which a record supersedes another, and with suitable parameters a merge loses a record. |
| `PexMerge.MergeIsDeterministic` | pkg/pex/gossip.go:195-215 | If at most MaxView + Swap records are merged, none of which supersedes another, chance decides only the order: the result is, up to order, the last MaxView records of the union, one hop older. |
| `PexMerge.MergeKeepsPeers` | pkg/pex/gossip.go:185-220 | If the union fits into MaxView, every peer of either view but the node itself has a record in the result. |
| `PexSurvival.SurvivesIff` | pkg/pex/gossip.go:195-215 | Of the records that swapping leaves, a merge is certain to keep one, whatever the sort does with equal hops, the coin and the shuffle, if and only if nothing has to go, or at most Protect (and MaxView) records are as old as it and at least as many are older as exceed MaxView. |
| `PexSurvival.SwappedAreGone` | pkg/pex/gossip.go:195-199 | A record that swapping removes is in no result. |
| `PexMerge.MergeLayout` | pkg/pex/gossip.go:195-215 | The result is the surviving young records followed by the surviving oldest ones, each one hop older; min(Protect, MaxView, number left by swapping) records are set apart; decay takes no more of them than exceed MaxView; no kept young record is older than one set apart. |
| `PexMerge.MergeOrigin` | pkg/pex/gossip.go:185-220 | Every record of a result is a record of one of the two views, not the node's own, with the same peer and number and one hop more, 2^64 - 1 becoming 0. |
| `PexMerge.MergeTotal` | pkg/pex/gossip.go:185-220 | Every pair of views has a merge result: the relation the other results are about is never empty. |
| `PexMerge.Sort` | pkg/pex/store.go:160-165 | Sorts a window of the array by hop in place: sorted, a permutation, and nothing outside the window changes. |
| `PexMerge.Shuffle` | pkg/pex/store.go:153-158 | Permutes a window of the array in place and changes nothing outside it. |
| `PexMerge.FilterView` | pkg/pex/store.go:113-123 | The append loop computes the subsequence of the records that satisfy the predicate. |
| `PexView.ValidViewIff` | pkg/pex/record.go:115-139 | A view is valid if and only if it has one record of hop 0 and that is the last one. |
| `PexMerge.Validate` | pkg/pex/record.go:115-139 | The loop accepts exactly the valid views. |
| `PexMerge.Decay` | pkg/pex/store.go:195-203 | Drops exactly as many records as the coins show leading hits, unless the records or the allowance run out first. |
| `PexMerge.AgeAll` | pkg/pex/record.go:156-160 | Adds one hop, as a 64-bit word, to every record. |
| `PexMerge.MergedView` | pkg/pex/store.go:131-151 | The two filter loops compute the merged view that MergedPerPeer is about. |
| `PexMerge.Merge` | pkg/pex/gossip.go:185-220 | The in-place pipeline refuses exactly the invalid remote views, and everything it returns otherwise is one of the results MergeBound, SurvivesIff and MergeOrigin are about. |
| `PexRound.CommitExactly` | pkg/pex/store.go:80-111 | The stored keys afterwards are those before minus the peers of the old view plus the peers of the new one; a peer of the new view has the last record given for it, any other keeps what it had. |
| `PexRound.PushExactly` | pkg/pex/gossip.go:256-275 | A push is the first MaxView/2 - 1 records of the view, or all if there are fewer, and the own record; the view it leaves has the own record in place of the one behind them. |
| `PexRound.DisplacedPeers` | pkg/pex/store.go:210-218 | One stored peer, at position MaxView/2 - 1, is missing from the view after the push if the view is longer than that, and none otherwise. |
| `PexRound.RoundStore` | pkg/pex/gossip.go:169-183 | After a whole round with any remote view the store holds exactly the peers of the merged view and the peer the push overwrote; at most MaxView + 1 in all, and exactly the merged view if nothing was overwritten. |
| `PexRound.StoreMatchesViewIff` | pkg/pex/gossip.go:169-183 | Every round, whatever valid view is pulled, leaves exactly the merged view in the store if and only if the local view has at most MaxView/2 - 1 records when the round begins. |
| `PexRound.PushValidIff` | pkg/pex/gossip.go:256-275 | A push is accepted if and only if none of the stored records in it has hop 0. |
| `PexRound.HopMayWrap` | pkg/pex/record.go:115-160 | A receiver accepts a record of hop 2^64 - 1 and then, whatever the random choices, stores it with hop 0. |
| `PexRound.LeftBehind` | pkg/pex/gossip.go:256-275 | For every longer view there is a valid answer of a peer after which the store holds a peer the merged view does not. |
| `PexRound.Gossiper.constructor` | pkg/pex/gossip.go:73-94 | A new gossiper has an empty store. |
| `PexRound.Gossiper.LoadView` | pkg/pex/store.go:49-78 | The query loop returns every stored record once and nothing else. |
| `PexRound.Gossiper.GetPushView` | pkg/pex/gossip.go:149-167 | Returns a permutation of the store whose last Protect records are oldest, in hop order, so that none of them is younger than any record before. |
| `PexRound.Gossiper.Push` | pkg/pex/gossip.go:256-275 | Sends the first MaxView/2 - 1 records and the own record last, and leaves the local view with the overwritten record. |
| `PexRound.Gossiper.StoreRecords` | pkg/pex/store.go:80-111 | The delete and put loops give the store CommitExactly is about. |
| `PexRound.Gossiper.Round` | pkg/pex/gossip.go:229-239 | A round with any remote view keeps the own record out of the store and every record under its own peer; on an invalid view the store is unchanged; else it is the committed merge, of at most MaxView + 1 records, and at most MaxView if few were stored. |
| `PexRuns.StepKeepsInv` | pkg/pex/gossip.go:169-301 | Begin, end and abort of a round at any node, with other rounds of the same node under way, and pulling pushes of such nodes or what strangers send within the bound, keep: no store holds the own record, stored hops are at least 1 and at most the bound, every message sent is valid and without repeated peers; the bound grows by one with each merge. |
| `PexRuns.BoundedRuns` | pkg/pex/gossip.go:169-301 | In every run in which strangers send no hop above H, and H and the merges so far stay below 2^64 together, every push ever sent is accepted by Validate, names each peer once, has at most MaxView/2 records, ends with its sender, and no node ever stores itself or a record of hop 0. Without strangers H is 0. |
| `PexRuns.OpenRuns` | pkg/pex/gossip.go:169-301 | In every run, of any length and with whatever strangers send, no node stores itself, records are stored under their own peer, every push names each peer once, has at most MaxView/2 records and ends with its sender, and it is accepted if and only if no other record in it has hop 0. |
| `PexRuns.StoresChangeByRounds` | pkg/pex/gossip.go:169-183 | In every run a store changes only when a round of its node ends with a valid view, and then to the committed merge of what that round loaded; pushes are sent only when a round begins. |
| `PexRuns.RoundsGoOn` | pkg/pex/gossip.go:229-301 | In every reachable state every node can begin a round and every round under way can end with any message that may be pulled. |
| `PexRuns.SerialRunsAreBounded` | pkg/pex/gossip.go:229-239 | In every run in which no node has two rounds under way at once, no store ever exceeds MaxView + 1 records, whatever strangers send. |
| `Subscriptions.StepKeepsInv` | pkg/boot/socket/socket.go:149-310 | Each locked section, send and close, in any interleaving, keeps the invariant that ties subscriber sets, namespace map, limiters, channel buffers and the cancel closures' progress together. |
| `Subscriptions.NeverPanics` | pkg/boot/socket/socket.go:166-178 | In every run no channel is closed twice and nothing is sent on a closed channel; a channel is closed exactly once its cancel closure has finished. |
| `Subscriptions.SubscribeJoins` | pkg/boot/socket/socket.go:149-186 | In every reachable state that is not closed, Subscribe adds exactly the new channel, live, with the namespace and limit asked for and nothing sent; the namespace is mapped to its former subscribers and the new one, and everything else is as before. |
| `Subscriptions.CanSubscribe` | pkg/boot/socket/socket.go:149-186 | In every reachable state only a dispatch under way keeps anyone from subscribing. |
| `Subscriptions.ResultsAreConserved` | pkg/boot/socket/socket.go:279-310 | In every reachable state what a subscriber was sent is what it received and what waits in its buffer of 16; a step changes these for no one, except that an offer may add one result and receiving takes one. |
| `Subscriptions.MappedIffSubscribed` | pkg/boot/socket/socket.go:160-186 | In every reachable state a namespace is mapped if and only if it has a live subscriber, and the mapped set is exactly its live subscribers. |
| `Subscriptions.OnlyOwnCancelRemoves` | pkg/boot/socket/socket.go:166-186 | A live subscriber leaves its set by the locked section of its own cancel closure only; no step of another one removes it. |
| `Subscriptions.LimitHolds` | pkg/boot/socket/socket.go:312-332 | A subscriber is never sent more results than its limit; once the dispatcher is idle after the last of them its channel is closed and it is in no set; and whatever the dispatcher is about to release has a limit and has reached it. |
| `Subscriptions.ReleasedAtLimit` | pkg/boot/socket/socket.go:279-332 | A subscriber that does not cancel itself stays subscribed until the limiter's count is reached, and for good if it has no limit. |
| `Subscriptions.DispatcherGetsDone` | pkg/boot/socket/socket.go:279-310 | In every reachable state in which the dispatcher is not idle some step lowers a rank over the subscribers left to serve and the closures left to run, and no step of anyone raises it. |
| `Subscriptions.LimitExactIff` | pkg/boot/socket/socket.go:312-332 | In all runs a subscriber that asks for a positive number of results and does not cancel is sent no more and is not released before, if and only if that number is at most 2^32. |
| `Subscriptions.DispatchOffersAll` | pkg/boot/socket/socket.go:279-310 | By the end of a dispatch every subscriber of its namespace was offered the result exactly once, and got it exactly if its buffer had room at that moment. |
| `Subscriptions.DispatchReachesOnly` | pkg/boot/socket/socket.go:279-310 | A dispatch offers its result to no one but the live subscribers its namespace has when it begins, and by its end no one else has been sent anything. |
| `Subscriptions.ClosedIsFinal` | pkg/boot/socket/socket.go:79-92 | After Close no subscription is added in any later state. |
| `Rendezvous.StepKeepsInv` | pkg/cluster/client.go:81-146 | Every step of consumer, producer and shutdown keeps the invariant between the sync token, both positions and the records delivered. |
| `Rendezvous.DeliversInOrder` | pkg/cluster/client.go:96-146 | In every run the records Next has returned are a prefix of the stream, in order and without loss; once Next returned nil they are the whole stream. |
| `Rendezvous.RecordOutlivesNext` | pkg/cluster/client.go:70-79 | In every run the handler call that carries a record has not returned before the next call of Next has begun, which is when the caller is done with the record. |
| `Rendezvous.LiveNextReturns` | pkg/cluster/client.go:96-100 | A call of Next made before nil was returned always has a step left to take, and every step brings its return nearer. |
| `Rendezvous.StuckIff` | pkg/cluster/client.go:94-100 | After shutdown, a call of Next blocks for good if and only if nil was returned twice before, or once if the stream was empty. |
| `Rendezvous.StuckRun` | pkg/cluster/client.go:94-100 | There is a run in which Next, called again after nil on an empty stream, blocks for good. |
| `RoutingTable.ScanOrder` | pkg/cluster/routing/schema.go:138-165 | The keys at or below an encoded time are exactly those whose deadline, as an unsigned word, is strictly lower; an equal deadline is not visited because of the key suffix. |
| `RoutingTable.ScanIsExactIff` | pkg/cluster/routing/schema.go:157-165 | The scan separates expired from unexpired rows if and only if deadline and time are on the same side of the Unix epoch. |
| `RoutingTable.EvictionIsInvisible` | pkg/cluster/routing/table.go:63-138 | In every run the evicting table holds exactly the unexpired rows of a table that never evicts, so it accepts the same records. |
| `RoutingTable.UpsertDecides` | pkg/cluster/routing/table.go:101-131 | An Upsert stores a peer not in the table, replaces a record of the same instance by one numbered higher and of another instance by one numbered lower, with the deadline counted from the clock, and changes nothing else. |
| `RoutingTable.AbsentIsStored` | pkg/cluster/routing/table.go:101-131 | In every run a peer that was never upserted or has expired is stored by its next heartbeat, whatever instance and number that has. |
| `RoutingTable.ClockIsLatest` | pkg/cluster/routing/table.go:63-75 | In every run the clock shows the latest time it was advanced to, and a time in the past changes nothing. |
| `RoutingTable.RefreshedOutlives` | pkg/cluster/routing/table_test.go:112-133 | After an accepted Upsert and any run that does not upsert the peer again, the record is there if and only if the clock has not passed its new deadline. |
| `RoutingTable.KeepsLatest` | pkg/cluster/routing/table.go:115-131 | While a peer stays in the table, in whatever order the stored instance's heartbeats arrive and however often each, the table holds the one with the highest number, and keeps its row if none is higher than the stored one; heartbeats of other instances make no difference unless numbered lower than one of its own. |
| `RoutingTable.InstanceStaysIff` | pkg/cluster/routing/table.go:115-131 | Over all runs in which the peer stays, the instance's own numbers are at most U and those of other instances at least L, the stored instance is certain to stay the stored one if and only if U is at most L. |
| `RoutingTable.LateHeartbeatDisplaces` | pkg/cluster/routing/table.go:115-131 | A restarted instance that has been accepted and has counted beyond an older instance's last number is displaced by a late heartbeat of that older instance. |
| `RoutingTable.InsertConsistent` | pkg/cluster/routing/table.go:133-138 | Adding a row of a new peer to consistent indexes leaves them consistent. |
| `RoutingTable.DeleteConsistent` | pkg/cluster/routing/table.go:85-97 | Deleting by primary key the row stored under it leaves both indexes consistent. |
| `RoutingTable.ScanFindsExpired` | pkg/cluster/routing/table.go:77-83 | On consistent indexes the scan finds exactly the expired rows. |
| `RoutingTable.Table.constructor` | pkg/cluster/routing/table.go:33-53 | A new table is consistent and empty, at the given time. |
| `RoutingTable.Table.Insert` | pkg/cluster/routing/table.go:133-138 | The indexes stay consistent: the replaced row leaves the ttl index under its own deadline. |
| `RoutingTable.Table.Delete` | pkg/cluster/routing/table.go:85-97 | Both indexes lose exactly the row stored under the key. |
| `RoutingTable.Table.Upsert` | pkg/cluster/routing/table.go:101-113 | Writes exactly the superseding records, keeps both indexes consistent, and is the Upsert step EvictionIsInvisible is about. |
| `RoutingTable.Table.Advance` | pkg/cluster/routing/table.go:63-75 | Never goes back in time, leaves exactly the unexpired rows whether or not the read-only look found any, and is the Advance step EvictionIsInvisible is about. |
| `RoutingTable.Table.DropExpired` | pkg/cluster/routing/table.go:85-97 | The deletion loop over the scan removes exactly the expired rows from both indexes. |
| `QueryIter.NextPops` | pkg/cluster/query/selector.go:63-93 | One call of Next on any stack of filters and predicates, with their stateful matchers, returns the first of the records the stack yields and leaves a stack that yields the others; with none left it answers nil, or panics if that is how the stack ends. |
| `QueryIter.DrainYields` | pkg/cluster/query/selector.go:63-93 | Draining any stack returns those records in order, with one call more than there are records, and leaves it exhausted; it panics if and only if the stack ends in a panic. |
| `QueryIter.NilForever` | pkg/cluster/query/selector.go:75-93 | A stack that has returned nil returns nil on every later call. |
| `QueryIter.LimitCalls` | pkg/cluster/query/constraint.go:46-59 | A drained Limit(n) yields the first n records of any stack below and has called it once for each and once more, never again; it panics if and only if the stack below panics within these calls. |
| `QueryIter.LimitPulls` | pkg/cluster/query/constraint.go:46-59 | Over a table scan a drained Limit(n) has read min(n + 1, size) records. |
| `QueryIter.ToIsExact` | pkg/cluster/query/constraint.go:61-96 | Draining To over any stack succeeds if and only if a mismatch follows a match; it then yields everything up to the last record of the first run of matches and reads one record more. Otherwise it matches against nil and panics. |
| `QueryIter.WhileIsExact` | pkg/cluster/query/constraint.go:35-44 | With a matcher that cannot look at nil, draining While over any stack succeeds if and only if some record fails the predicate, and then yields the records before it. |
| `Query.Iter` | pkg/cluster/query/query.go:34-40 | The loop over the constraints builds the selector that StackComposes and FirstBadLimitFails are about. |
| `Query.WhereIsFilter` | pkg/cluster/query/constraint.go:24-33 | Where stands for filtering. |
| `Query.WhileIsTakeWhile` | pkg/cluster/query/constraint.go:35-44 | While stands for the longest prefix that satisfies the predicate; it meets the end below, and asks the matcher about nil, exactly if that prefix is everything. |
| `Query.LimitIsTake` | pkg/cluster/query/constraint.go:46-59 | The counting closure of Limit stands for the first n records, and meets the end below exactly if there are no more than n. |
| `Query.ToIsRange` | pkg/cluster/query/constraint.go:61-96 | The remembering closure of To stands for the records before the first mismatch that follows a match, and for everything and a panic if there is none. |
| `Query.StackComposes` | pkg/cluster/query/selector.go:13-23 | Any list of constraints with positive limits, bound to any selector, stands for the composition of filter, take-while, take and range in the order given, panics included; draining it yields exactly that and nil for ever after, or panics exactly if the composition does. |
| `Query.LimitedRange` | pkg/cluster/query/selector.go:45-48 | A range query with a limit on top succeeds if and only if a mismatch follows a match or there are more records than the limit, and then yields the first of the range. |
| `Query.FirstBadLimitFails` | pkg/cluster/query/constraint.go:46-53 | A list of constraints with a Limit that is not positive fails with the first such Limit. |
| `Query.NoBadLimit` | pkg/cluster/query/constraint.go:46-53 | Without such a Limit it does not fail. |
| `Query.Iterator.OverSource` | pkg/cluster/query/selector.go:32-36 | A scan starts with all its records. |
| `Query.Iterator.OverFilter` | pkg/cluster/query/constraint.go:24-33 | The new object filters the iterator it wraps. |
| `Query.Iterator.OverPredicate` | pkg/cluster/query/constraint.go:35-44 | The new object cuts off the iterator it wraps and has not stopped. |
| `Query.Iterator.Next` | pkg/cluster/query/selector.go:63-93 | The objects, nested and updated in place, return what the stack of values returns and then hold what it then is; a panic happens in the same calls. |
| `Query.Iterator.FilterLoop` | pkg/cluster/query/selector.go:68-73 | The skipping loop returns the next match of the wrapped iterator, and ends. |
| `Query.DrainAll` | pkg/cluster/client.go:70-72 | Calling Next on the objects until nil or a panic collects exactly the records the stack yields, panics exactly if the stack does, and otherwise leaves nothing. |

## Left out

- Crawl: the port range strategy, IPv4 addresses in 16-byte form, and blocks whose address has host bits set or whose mask is not contiguous, which `net.ParseCIDR` does not return. The buffers are allocated by the constructor and not grown by `Reset`.
- Crawl.CrawlAll: needs a prefix of at least one bit, because without one there is no end to reach (`EndsIffPrefixed`).
- PexMerge.Decay: the coins are a parameter; their probability is not modelled.
- PexMerge.Sort: the library sort is replaced by a simple one; results rest only on order and permutation, and `Shuffle` likewise only on permutation.
- PexMerge.MergeSize: states the exact size only for unions in which no record supersedes another one; `SizeCertainIff` says for given parameters when it is certain otherwise, and `MergeBound` holds for all views.
- PexSurvival.SurvivesIff: about the same unions, because beyond them the closing merge may drop a protected record that another copy supersedes.
- PexRuns.BoundedRuns: bounds the hops that strangers send; rounds may overlap, abort and read any message sent before. `OpenRuns` states what holds of any strangers, and `HopMayWrap` shows why a bound is needed.
- PexRuns.SerialRunsAreBounded: says nothing of rounds of one node that overlap; their stale views may leave more records in the store.
- Gossip records are values: that views share record objects, and age them through any of them, is not modelled. `MaxView` is at least 2, since the push panics below that, and no size is negative.
- Streams, compression, signatures and the encoding of gossip messages.
- Advertising, discovery and peer caches of PeX, which are timers and channels around the rounds modelled here.
- The bootstrap socket's packet format, validation, rate limiting, record cache and tracked namespaces.
- Subscriptions and Rendezvous are state machines over values, since steps of several goroutines interleave; sync.Once, mutex and channels are modelled by what they enable.
- Rendezvous: cancelled contexts, undecodable records, a query that fails, and concurrent calls of `Recv`, which the transport serialises.
- RoutingTable: overlapping transactions and the server, host and metadata indexes. Times are nanoseconds that fit 64 bits; the table starts at or after the Unix epoch and no time to live is negative.
- Query: which records a scan of an index returns (a snapshot is any sequence), reverse scans, `Lookup`, and the matchers for host and metadata, which are arbitrary predicates here. A `Limit` or `To` value keeps its state between uses; the model binds each once.
- Survey, multicast, pulse, generated code, command line and test doubles.
