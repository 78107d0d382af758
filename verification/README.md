# Verified models of the libevent and jansson cores

The repository carries libevent and jansson under `common/`. This project models the parts of the
two libraries in which state is hardest to keep straight, and proves what each part is for:

* **evbuffer** (`Pieces`, `Chains`, `Views`, `EvBuffer`, `EvSearch`, `EvBufferRuns`,
  `EvBufferGaps`). The linked chains, with `misalign`, `off`, the cached total length and `last_with_datap`, are
  objects that the methods relink in place. A buffer stands for one byte sequence, and every
  operation is proved against it, chain splices, realignment, pull-up and the searches across chain
  borders included.
* **Fd map, changelist and epoll** (`EpollTable`, `Epoll`, `Evmap`, `EvmapRuns`). Counters, batched
  changes with back-indices, the 512-row table and the kernel calls with their retries, against the
  events that listeners ask for.
* **Rate limiting** (`TokenBuckets`, `RateLimit`, `GroupProtocol`, `GroupProgress`). The refill
  arithmetic on machine words, the suspend and refill-timer state machine of one bufferevent, and the
  group protocol as a state machine over the steps of any number of threads, with what every
  interleaving keeps and what undisturbed sweeps achieve.
* **jansson's hash table** (`Entries`, `HashLists`, `Hashtables`, `HashtableRuns`). Bucket segments
  of one circular list, a second list for the order of insertion, and rehashing in place, against a
  finite map and an ordered list of keys.
* **DNS names** (`DnsNames`, `DnsWalks`, `EvDns`). Compression while writing, with what the table of
  labels holds, and pointers while reading.
* **DNS request queues** (`RequestLists`, `RequestQueues`, `EvdnsQueues`). Circular lists without a
  head, buckets by transaction id, the queue, the ring of servers, and all the counters about them.
* **Tagged data and hashing** (`TagCodes`, `EvTags`, `Lookup3`, `Lookup3Values`). Nibble and seven-bit
  codes in evbuffers, and the three read paths of `hashlittle`, with known hashes.
* **JSON** (`Utf`, `JsonStrings`, `JsonPrinter`, `JsonStream`, `JsonTokens`, `JsonLexer`,
  `JsonValues`, `JsonGrammar`, `JsonRoundTrip`, `JsonValidity`, `JsonParser`, `JsonGraphs`, `JsonDumper`,
  `JsonBadKeys`). UTF-8, the string escapes, the stream with its push-back, the lexer, the recursive
  parser, and the printer on a graph of nodes with its visited marks. `JsonTexts` defines the JSON texts
  of a value as RFC 8259 does, by syntax trees and without the parser; `JsonLetters`, `JsonAccepted` and
  `JsonLoading` prove that the parser makes a value of exactly its texts, and `JsonLayout` what the
  printed text looks like under each flag.

`Sequences` and `Options` hold what several modules use. The kernel's epoll set is a map from
descriptors to events. Memory allocation may fail where an object says so (`scarce`); every
allocation of an evbuffer operation, of which none makes two, fails while its `scarce` is set. Clocks are parameters. `size_t` and `ssize_t` have 64 bits, ticks and
`int` have 32, and the limits of a token bucket are taken to be `ssize_t` (the header with the bucket
types is not part of this model).

What the proofs turned up:

* All 512 rows of the epoll table do what the pseudocode above it says (`TableIsRight`).
* A dispatch sets a descriptor right exactly if the kernel was not disturbed on it since its last
  change or its queued change is not a no-op (`DispatchSettles`): the batched backend does not repair
  an entry whose changes cancel out (`CancelledDoesNotHeal` is a run), and after any run exactly the
  descriptors without an effective change since they were disturbed are wrong (`LostIsStray`).
* `evbuffer_prepend` of no bytes before an immutable first chain leaves an empty chain before data
  (`EvBuffer.Prepend`). Moving such chains with `evbuffer_remove_buffer` can leave `last_with_datap`
  behind, in either buffer; `Unbroken` says exactly when it does not. The next bytes then come before
  others that were there (`EvBufferGaps.Reordered` and `EvBufferGaps.BeforeTheRest` are runs), or the
  assertion in `evbuffer_free_trailing_empty_chains` ends the program, exactly as `EvBuffer.AddAny` says
  (`EvBufferGaps.AddEndsProgram` is a run).
* `evbuffer_remove_buffer` ignores a failed `evbuffer_add` and loses those bytes: exactly those of
  `EvBuffer.Losing` (`EvBufferGaps.OneLost` is a run). `evbuffer_prepend` may fail with some bytes
  already put: `PrependFails` says exactly when it fails and `Prepended` how many are in front then
  (`EvBufferGaps.HalfPut` is a run).
* The refill that avoids overflow is exact for a limit up to the maximum; above it, `RefilledIsMin`
  and `RefilledStaysPositive` say exactly when it is right, and `RefundWraps` gives a bucket that it
  makes negative. Reconfiguring the length of a tick can stall a bucket: `ReconfiguredRefills` says
  exactly when, and `ReconfigureStalls` is a case.
* A refill resumes a group with nothing to spend in some run if and only if the group's minimum share
  is 0 (`SolventIffShare`).
* Every member of a group is reached by a sweep that nobody disturbs, and one that was skipped is
  resumed by the next refill (`EverybodyResumed`) or suspended when it next asks (`CheckSuspends`).
* `name_parse` bounds the number of pointers it follows by the length of the packet; no name that ends
  is refused for it (`ParsedIffWay`).
* `dnsname_to_labels` writes its final zero behind the buffer exactly as `ZeroOutside` says, and a name
  comes back exactly if it has no empty label and no dot at its end (`NameComesBack`).
* `transaction_id_pick` never comes back once 65535 requests are under way (`TransactionIdPick`); up to
  then no two requests under way have the same id (`EvdnsQueues.Run`).
* Raising the number of requests in flight, or adding a first server, does not send off those that
  wait (`RaisingLeavesWaiting`, `FirstServerLeavesWaiting`): they go with the next request that is
  finished (`EvdnsBase.Pump`).
* `decode_tag_internal` reads one byte behind the five it has pulled up exactly as `SixthByte` says; the
  byte does not matter for its answer (`TagBack`). `evtag_unmarshal` does not look at the answer of
  `evbuffer_drain`: while the start of the source is frozen nothing is drained, and the bytes of the tag
  are read again as the length and the payload (`EvTags.Unmarshal`; `EvTags.FrozenRecord` is a run).
* `do_dump` ignores that a key is not valid UTF-8, so that `json_dumps` succeeds with a text that is not
  JSON (`BadKeyText`), or is JSON of another value (`BadKeysText`): as no text has a value with such a key
  (`DocumentValid`), printing and parsing give the value back if and only if all its keys are valid and the
  flags accept it (`DumpAndLoad`). `json_object_set` does not let such a key in, but
  `json_object_set_new_nocheck` does.
* Clearing the mark of the node where a cycle is found is harmless: every mark is clear after
  `do_dump`, whether it fails or not (`Dumps`).

`dafny verify dfyconfig.toml` checks everything.

## Model

| member | source | states |
|---|---|---|
| EpollTable.TableIsRight | common/libevent/epolltable-internal.h:43-139 | for every prior interest and every sane change to reading, writing and closing, the row found by the index expression holds the operation of the pseudocode: nothing if nothing changes, else add, modify or delete with exactly the target events; rows with an impossible change are marked bad |
| EpollTable.IndexTells | common/libevent/epolltable-internal.h:124-130 | the index expression separates all combinations: the block and the row of the index give back the prior events and the three changes |
| Epoll.Poller.EpollCtl | common/libevent/epoll.c:292-297 | an add answers EEXIST exactly for a descriptor that is there, a modify or delete ENOENT exactly for one that is not; a call that fails changes nothing, one that does not leaves the asked entry or none, and no other entry changes |
| Epoll.Poller.ApplyOneChange | common/libevent/epoll.c:266-353 | from any kernel state, absent or holding any events, a change that is not a no-op leaves the kernel holding its goal on the descriptor and nothing else changed; a no-op changes nothing |
| Epoll.Poller.ApplyChanges | common/libevent/epoll.c:355-372 | the loop over the changelist has the effect of the changes one after the other |
| Epoll.AppliedAllSettles | common/libevent/epoll.c:355-372 | with one change per descriptor, the kernel afterwards holds for each its own goal, whatever the order, and is untouched elsewhere |
| Evmap.CountsMeanWanted | common/libevent/evmap.c:265-342 | the counters are positive exactly for the events that some listener wants |
| Evmap.CountsWithout | common/libevent/evmap.c:346-409 | removing one listener lowers each counter by what it asked for |
| Evmap.StoreKeepsLinks | common/libevent/evmap.c:823-852 | storing a change keeps idxplus1 and the array of changes inverse to each other |
| Evmap.AddAims | common/libevent/evmap.c:854-887 | coalescing an add into a queued change keeps that change aimed at what the counters say |
| Evmap.DelAims | common/libevent/evmap.c:889-939 | coalescing a delete, which may cancel a queued add, does the same and never leaves add and delete together |
| Evmap.DistinctFds | common/libevent/evmap.c:740-759 | back-indices that fit mean that no descriptor has two queued changes |
| Evmap.DispatchSettles | common/libevent/epoll.c:355-372 | applying the queued changes makes the kernel right on a descriptor if and only if it was right up to the queued change before, or that change is not a no-op |
| Evmap.EventBase.constructor | common/libevent/evmap.c:696-702 | a new base has no listeners and no changes, and the kernel agrees with it |
| Evmap.EventBase.MakeSpace | common/libevent/evmap.c:203-225 | growing the slot array keeps every slot and adds empty ones, or fails and keeps all |
| Evmap.EventBase.GrowChangelist | common/libevent/evmap.c:797-817 | the room for changes grows, or without memory stays as it was |
| Evmap.EventBase.GetOrConstruct | common/libevent/evmap.c:823-852 | finds the queued change of a descriptor or appends a new one that remembers the events before it, with the back-index set; or fails and changes nothing |
| Evmap.EventBase.ChangelistAdd | common/libevent/evmap.c:854-887 | the queued change of the descriptor afterwards adds the asked events; others stay |
| Evmap.EventBase.ChangelistDel | common/libevent/evmap.c:889-939 | the queued change afterwards deletes events that were there and cancels those that were not |
| Evmap.EventBase.NochangelistAdd | common/libevent/epoll.c:374-393 | the immediate backend builds one change and applies it at once |
| Evmap.EventBase.NochangelistDel | common/libevent/epoll.c:395-411 | the same for a delete, of any events |
| Evmap.EventBase.IoAdd | common/libevent/evmap.c:265-342 | adds one listener: counters, list and queue or kernel agree afterwards; it answers 1 exactly if more is asked for than before, and then the descriptor has an effective change or its kernel entry is right; failure changes no listener; other descriptors stay as right as they were |
| Evmap.EventBase.IoDel | common/libevent/evmap.c:346-409 | removes one listener; it answers 0 exactly if as much is asked for as before; on failure the counters are updated all the same, as the code does, and the kernel is then wrong on that descriptor only |
| Evmap.EventBase.RemoveAll | common/libevent/evmap.c:767-786 | empties the changes and clears every back-index, keeping counters and listeners |
| Evmap.EventBase.Dispatch | common/libevent/epoll.c:413-518 | applies and clears the changes: afterwards the kernel is right on exactly those descriptors that were clean or had an effective change |
| Evmap.EventBase.Disturb | common/libevent/epoll.c:299-330 | a file closed or reopened behind the map changes its own entry only and keeps the invariant |
| EvmapRuns.Perform | common/libevent/evmap.c:265-409 | one command keeps the listener lists equal to the set of inserted events |
| EvmapRuns.Run | common/libevent/epoll.c:413-518 | over any run of adds, deletes, dispatches and disturbances, what the library and the kernel have for each descriptor is a function of the commands and their answers, and after a dispatch the kernel reports on a descriptor exactly what the inserted events ask for if and only if it is not lost |
| EvmapRuns.LostIsStray | common/libevent/evmap.c:854-939 | after any run the kernel differs from what it was told on a descriptor if and only if a disturbance or a failed delete spoiled its entry and no effective change was dispatched, or made at once, since |
| EvmapRuns.Heals | common/libevent/evmap.c:854-887 | after an add that changes what is asked for, with nothing deleted or disturbed later, the next dispatch leaves the entry right, whatever it was before |
| EvmapRuns.CancelledDoesNotHeal | common/libevent/evmap.c:889-939 | a run on a real base: a disturbed entry is still wrong after an add, a delete and a dispatch |
| EvmapRuns.RunBoth | common/libevent/epoll.c:374-411 | the batched and the immediate backend hold the same kernel state at every dispatch of a run in which they answer alike, and with memory to be had they always do |
| Pieces.AdvanceStops | common/libevent/buffer.c:702-716 | advance_last_with_data stops before the first empty chain |
| Pieces.AdvanceReaches | common/libevent/buffer.c:702-716 | after a splice, advance_last_with_data finds the last chain with data if and only if no empty chain precedes data in what was spliced in |
| Pieces.GapReorders | common/libevent/buffer.c:1254-1342 | what such a splice does to the bytes: those added next come before bytes that were there; `EvBufferGaps.Reordered` gets there with real buffers |
| Views.SplicedTo | common/libevent/buffer.c:702-716 | where last_with_datap is after chains move behind those of a buffer: at the last one with data if and only if what moves has no gap, or else before an empty chain with data behind it |
| Views.CompactUnbroken | common/libevent/buffer.c:1281-1327 | a source without gaps never gets last_with_datap wrong, in either buffer |
| Views.LeftIs | common/libevent/buffer.c:1281-1340 | what stays in the source: its bytes without the first ones; last_with_datap is wrong there exactly if only empty chains were passed over and the chain behind them is the last with data |
| Pieces.KeptAll | common/libevent/buffer.c:289-302 | freeing the trailing empty chains loses no byte |
| Pieces.AppendAtLast | common/libevent/buffer.c:1722-1817 | bytes written behind the last chain with data come last in the contents |
| Pieces.InsertAtEnd | common/libevent/buffer.c:307-326 | a chain put in after the trailing empty chains are freed comes last in the contents |
| Chains.ChainNew | common/libevent/buffer.c:155-192 | a new chain has the room asked for in the least doubling of the smallest memory that is enough, or exactly it if it is huge; there is none exactly if memory has run out or the room is too large |
| Chains.Chain.Align | common/libevent/buffer.c:1902-1909 | moving the data of a chain to its start keeps the data |
| Views.FrontSound | common/libevent/buffer.c:289-302 | cutting trailing empty chains keeps last_with_datap right |
| Views.JoinedSound | common/libevent/buffer.c:883-900 | splicing whole chains behind others keeps the representation |
| Views.PulledSound | common/libevent/buffer.c:1344-1454 | gathering the first chains in one, with last_with_datap repaired where its chain or its pointer went away, keeps the representation and the bytes |
| EvBuffer.EvBuffer.constructor | common/libevent/buffer.c:360-374 | a new buffer is empty |
| EvBuffer.EvBuffer.FreeTrailingEmptyChains | common/libevent/buffer.c:289-302 | frees the chains behind the last one with data and answers the place for a new one; contents stay |
| EvBuffer.EvBuffer.ChainInsert | common/libevent/buffer.c:307-326 | links a chain behind the data, and moves last_with_datap if it has data |
| EvBuffer.EvBuffer.Add | common/libevent/buffer.c:1722-1817 | appends the bytes or changes nothing; it fails exactly for a frozen end, a length that would be too large, or bytes that do not fit into the last chain with data when no other chain can be had |
| EvBuffer.EvBuffer.AddReference | common/libevent/buffer.c:2907-2945 | appends memory that is not copied in a chain of its own, or changes nothing: exactly for a frozen end or without memory |
| EvBuffer.EvBuffer.Prepend | common/libevent/buffer.c:1819-1899 | puts all the bytes in front, or fails exactly if the start is frozen, the length would be no size_t, or the first chain has too little room in front and another chain cannot be had; in the last case exactly as many bytes as it had room for, the last ones, are in front then; leaves a gap before data only for no bytes before an immutable first chain |
| EvBuffer.EvBuffer.Drain | common/libevent/buffer.c:1095-1161 | drops a prefix, whole and partial chains alike |
| EvBuffer.EvBuffer.SkipDrained | common/libevent/buffer.c:1125-1146 | the loop over drained chains stops at the chain that holds the first byte that stays |
| EvBuffer.EvBuffer.Copyout | common/libevent/buffer.c:1178-1249 | copies the prefix and leaves the buffer |
| EvBuffer.EvBuffer.CopyFrom | common/libevent/buffer.c:1224-1243 | the copying loop gives the bytes from a place on, across chains |
| EvBuffer.EvBuffer.Remove | common/libevent/buffer.c:1164-1176 | copies the prefix out and drains it |
| EvBuffer.EvBuffer.AddBuffer | common/libevent/buffer.c:960-1004 | moves all bytes behind those of the other buffer by splicing chains; the source is empty afterwards, and no chain is in both |
| EvBuffer.EvBuffer.CopyChains | common/libevent/buffer.c:869-881 | COPY_CHAIN: the buffer takes over the chains of another, its own empty ones freed |
| EvBuffer.EvBuffer.AppendChains | common/libevent/buffer.c:883-900 | APPEND_CHAIN: the chains come behind the data, with last_with_datap in the second list, also where it points into it |
| EvBuffer.EvBuffer.AdvanceLastWithData | common/libevent/buffer.c:702-716 | moves last_with_datap on to the chain before the first empty one behind it |
| EvBuffer.EvBuffer.RemoveBuffer | common/libevent/buffer.c:1254-1342 | for every source: what stays are the old bytes without the first ones; the others come behind those of the other buffer, but for the ones that evbuffer_add refuses, which are lost, exactly those of the chain that goes in part; both buffers are sound afterwards if and only if what moves has no gap and, where only empty chains were passed over, the chain cut short is not the last one with data; otherwise last_with_datap stays behind in one of them, with its exact chains and bytes, or the program ends, exactly if the bytes find no room there |
| EvBuffer.EvBuffer.CompactGoes | common/libevent/buffer.c:1281-1327 | a source without an empty chain before data is always moved soundly |
| EvBuffer.EvBuffer.NothingLost | common/libevent/buffer.c:1328-1335 | with memory to be had and no more bytes than fit, no byte is lost |
| EvBuffer.EvBuffer.AddAny | common/libevent/buffer.c:1722-1817 | evbuffer_add to a buffer whose last_with_datap may have stayed behind: then the bytes go into the chain there, or evbuffer_free_trailing_empty_chains ends the program, exactly if they do not fit and another chain could be had |
| EvBufferGaps.Reordered | common/libevent/buffer.c:1254-1342 | a run on two real buffers, with a reference, a prepend of nothing, another reference and one byte moved: the bytes 1, 2 and 3 put in one after the other stand there as 1, 3, 2 |
| EvBufferGaps.BeforeTheRest | common/libevent/buffer.c:1281-1340 | a run in which a byte added to the source after evbuffer_remove_buffer comes before the byte that stayed there |
| EvBufferGaps.AddEndsProgram | common/libevent/buffer.c:289-302 | the same run with one byte more than the passed-over chain has room for: the assertion ends the program |
| EvBufferGaps.OneLost | common/libevent/buffer.c:1328-1335 | a run in which a byte is answered as moved and is in neither buffer |
| EvBufferGaps.HalfPut | common/libevent/buffer.c:1848-1882 | a run in which evbuffer_prepend fails with some of its bytes in front and some not |
| EvBuffer.EvBuffer.Pullup | common/libevent/buffer.c:1344-1454 | contents never change; on success the first chain holds the first bytes in one piece; answers no pointer exactly for no bytes, for more than there are, and if a new chain is needed and cannot be had |
| EvBuffer.EvBuffer.Absorb | common/libevent/buffer.c:1412-1428 | the loop of pullup moves whole chains into the new one and notes whether last_with_datap lost its chain or its pointer |
| EvBuffer.EvBuffer.LinkPulled | common/libevent/buffer.c:1430-1447 | last_with_datap is repaired in both cases |
| EvBuffer.EvBuffer.ExpandSinglechain | common/libevent/buffer.c:1927-2035 | contents never change; the answered chain, or the one behind the data, has the room asked for |
| EvBuffer.EvBuffer.WritableChain | common/libevent/buffer.c:1934-1944 | the place that evbuffer_expand looks at is the last chain with data, or the one behind it if it is full |
| EvBuffer.EvBuffer.StillValid | common/libevent/evbuffer-internal.h:86-101 | the representation depends on nothing but the buffer and its chains |
| EvSearch.PtrSet | common/libevent/buffer.c:2609-2659 | a position is set to the chain and byte it means, or not found behind the end |
| EvSearch.PtrAdd | common/libevent/buffer.c:2609-2659 | moves a position forward by a number of bytes, across chains |
| EvSearch.PtrSubtract | common/libevent/buffer.c:2589-2607 | moves a position back, or fails before the start |
| EvSearch.Strchr | common/libevent/buffer.c:1466-1486 | the first place of a byte at or after a position, or -1 exactly if there is none |
| EvSearch.FindEolChar | common/libevent/buffer.c:1488-1513 | the first carriage return or line feed of a chain, found in blocks of 128 bytes |
| EvSearch.FindEol | common/libevent/buffer.c:1515-1535 | the same across chains |
| EvSearch.Strspn | common/libevent/buffer.c:1537-1574 | the number of leading bytes that are in a set |
| EvSearch.SpanIs | common/libevent/buffer.c:1537-1574 | that number is the only one with bytes of the set before it and none at it |
| EvSearch.Getchr | common/libevent/buffer.c:1577-1587 | the byte at a position, or -1 exactly at the end |
| EvSearch.PtrMemcmp | common/libevent/buffer.c:2665-2699 | compares across chains: 0 exactly if the bytes at the position are the given ones |
| EvSearch.SearchRange | common/libevent/buffer.c:2707-2769 | the least place in the range where the pattern occurs in the contents, chain borders or not, and not found exactly if there is none |
| EvSearch.SearchEol | common/libevent/buffer.c:1589-1677 | the first terminator of the style and its length, or not found exactly if there is none |
| EvSearch.StrictFirst | common/libevent/buffer.c:1625-1631 | in the strict style nothing terminates a line in a range if and only if the two bytes occur nowhere in it |
| EvSearch.AnyIsRun | common/libevent/buffer.c:1619-1624 | in the loosest style the first terminator is, if and only if, the whole of the first run of end-of-line bytes, whose two loops in the code find its start and its length |
| EvSearch.Readln | common/libevent/buffer.c:1679-1716 | line, terminator and what stays are the old contents, and the terminator is the first; with none the buffer stays |
| EvBufferRuns.Step | common/libevent/buffer.c:883-900 | every operation on two buffers does to the pair of byte sequences what its name says, frozen ends, lengths that are no size_t, chains that are too large and shortage of memory included; both are sound afterwards if and only if it was not an evbuffer_remove_buffer that leaves last_with_datap behind |
| EvBufferRuns.Run | common/libevent/buffer.c:960-1899 | every run of appends, references, prepends, drains, removes, moves, pull-ups, expansions, freezing, unfreezing and shortages of memory on two buffers is the same run on two byte sequences, with answers that fit, up to the first evbuffer_remove_buffer that leaves last_with_datap behind; without a prepend of nothing there is none; and of a run that pipes bytes through the two buffers and loses none, what came out and what is still there are the bytes that went in, in order |
| EvBufferRuns.PipeKeepsOrder | common/libevent/buffer.c:960-1342 | the same about the log of any such run: none lost, doubled or overtaken |
| TokenBuckets.RefilledIsMin | common/libevent/bufferevent_ratelim.c:73-111 | the refill that avoids overflow gives min(maximum, limit + ticks * rate) if and only if the limit is not above the maximum or the gain carries it around the range |
| TokenBuckets.RefilledStaysPositive | common/libevent/bufferevent_ratelim.c:73-111 | a positive limit is refilled to a positive one under an exact condition |
| TokenBuckets.RefundWraps | common/libevent/bufferevent_ratelim.c:73-111 | a concrete refunded bucket that a refill makes negative |
| TokenBuckets.UpdatedIs | common/libevent/bufferevent_ratelim.c:73-111 | an update refills by the ticks since the last one, wrap-around of the tick counter included, and does nothing if time went back |
| TokenBuckets.TwoSteps | common/libevent/bufferevent_ratelim.c:73-111 | refilling in two steps is refilling once |
| TokenBuckets.UpdatesCollapse | common/libevent/bufferevent_ratelim.c:73-111 | any number of updates is one update |
| TokenBuckets.WindowBound | common/libevent/bufferevent_ratelim.c:197-258 | in any window of n ticks, wherever it begins, no more than maximum + n * rate bytes are transferred |
| TokenBuckets.ReconfiguredRefills | common/libevent/bufferevent_ratelim.c:126-140 | for all old and new tick lengths and times: an update after a reconfiguration refills if and only if 1 to INT_MAX ticks lie between the old tick number and the new one; while no clock wraps around these are two quotients that a caller can compare |
| TokenBuckets.StallsUntil | common/libevent/bufferevent_ratelim.c:126-140 | with longer ticks nothing is refilled until the clock has seen as many new ticks as there were old ones |
| TokenBuckets.ReconfigureStalls | common/libevent/bufferevent_ratelim.c:126-140 | such a change of the tick length: no update refills for a thousand million seconds |
| TokenBuckets.TokenBucket.Init | common/libevent/bufferevent_ratelim.c:49-71 | a bucket starts with one tick's worth, and reconfiguring only clips it to the new maximum |
| TokenBuckets.TokenBucket.Update | common/libevent/bufferevent_ratelim.c:73-111 | the method updates both directions as the function says |
| RateLimit.Bufferevent.SuspendRead | common/libevent/bufferevent.c:66-112 | adds a reason and stops the backend |
| RateLimit.Bufferevent.UnsuspendRead | common/libevent/bufferevent.c:66-112 | takes a reason away and starts the backend only if none is left and reading is enabled |
| RateLimit.Bufferevent.Enable | common/libevent/bufferevent.c:459-480 | enables, starting only what is not suspended |
| RateLimit.Bufferevent.Disable | common/libevent/bufferevent.c:550-563 | disables and stops |
| RateLimit.Bufferevent.GetReadMax | common/libevent/bufferevent_ratelim.c:197-258 | the exact answer in every case: without a limit the largest single read, with one the smaller of the updated bucket's limit (or the largest single read) and the group's share, nothing for a suspended group, and never less than nothing |
| RateLimit.Bufferevent.GetWriteMax | common/libevent/bufferevent_ratelim.c:197-270 | the same for writing |
| RateLimit.SharesFit | common/libevent/bufferevent_ratelim.c:197-258 | the shares of all members together are no more than the group has, as long as no share is raised to the minimum |
| RateLimit.Bufferevent.DecrementReadBuckets | common/libevent/bufferevent_ratelim.c:272-308 | charges the bucket; exhausted it suspends and the timer runs, otherwise it resumes |
| RateLimit.Bufferevent.DecrementWriteBuckets | common/libevent/bufferevent_ratelim.c:310-346 | the same for writing |
| RateLimit.Bufferevent.DecrementReadLimit | common/libevent/bufferevent_ratelim.c:971-996 | a manual charge suspends or resumes when the limit crosses zero |
| RateLimit.Bufferevent.DecrementWriteLimit | common/libevent/bufferevent_ratelim.c:998-1025 | the same for writing |
| RateLimit.Bufferevent.RefillCallback | common/libevent/bufferevent_ratelim.c:393-439 | refills, resumes every direction with something to spend, and runs the timer again for the others |
| RateLimit.Bufferevent.SetRateLimit | common/libevent/bufferevent_ratelim.c:559-636 | a first configuration gives one tick's worth, a changed one clips the limits to its maxima and keeps the tick of the last update, a removed one resumes both directions; suspensions and timer are stated exactly |
| RateLimit.Run | common/libevent/bufferevent_ratelim.c:272-636 | over every run the state is the one that the calls make of it on plain values: limits, bits, enabled directions, timer and group; the backend works exactly where it is enabled and not suspended, an exhausted bucket suspends its direction, and what waits for bandwidth waits for the timer |
| GroupProtocol.NextKeeps | common/libevent/bufferevent_ratelim.c:349-557 | every step of every thread keeps the invariant of locks, bits, pending flags and members that a sweep still has to visit |
| GroupProtocol.RunKeeps | common/libevent/bufferevent_ratelim.c:735-810 | so does every interleaving of joining, leaving, checking, charging and refilling |
| GroupProtocol.NobodyForgotten | common/libevent/bufferevent_ratelim.c:228-251 | in every interleaving, in a group that is neither suspended nor due to resume members again, and that nobody is resuming, no member is suspended by it or about to be; a resume is due only if the group is not suspended; an exhausted group is suspended if its minimum share was never 0 |
| GroupProtocol.NonMembersRun | common/libevent/bufferevent_ratelim.c:788-810 | a bufferevent that left its group is not suspended by it, once nobody works on it |
| GroupProtocol.SolventIffShare | common/libevent/bufferevent_ratelim.c:528-557 | a group with nothing to spend is suspended in every run from an initial state in which nobody sets its minimum share, if and only if that share is positive |
| GroupProtocol.NoShareResumesEmpty | common/libevent/bufferevent_ratelim.c:528-557 | a run of three steps from any initial state with a minimum share of 0 after which the group has nothing to spend and is not suspended |
| GroupProgress.UndisturbedSweep | common/libevent/bufferevent_ratelim.c:349-372 | a sweep over the members, suspending or resuming, while no other thread holds a member's lock: it reaches them all, in as many steps as there are members and one, and changes nothing else |
| GroupProgress.EverybodyResumed | common/libevent/bufferevent_ratelim.c:487-557 | from every reachable state in which a group is due to resume members, or is suspended and refilled to its minimum share, with its lock and its members' locks free: one refill and the sweep leave no member suspended by it and the group neither suspended nor due |
| GroupProgress.RefundResumes | common/libevent/bufferevent_ratelim.c:1028-1046 | a manual decrement by a negative number that gives an exhausted group something again resumes every member in the same way |
| GroupProgress.RefillAlone | common/libevent/bufferevent_ratelim.c:528-557 | a refill when no resume is due changes the limit alone |
| GroupProgress.DecrementAlone | common/libevent/bufferevent_ratelim.c:1028-1046 | so does a manual decrement that leaves the limit on its side of zero |
| GroupProgress.EverybodySuspended | common/libevent/bufferevent_ratelim.c:349-372 | from every reachable state: a decrement that uses up what the group has, and the sweep, leave every member suspended |
| GroupProgress.CheckSuspends | common/libevent/bufferevent_ratelim.c:225-251 | before a transfer a member of a suspended group is suspended, also one that the sweep had missed; of any other nothing changes |
| GroupProgress.ChargeSpends | common/libevent/bufferevent_ratelim.c:272-308 | a transfer is charged to the group byte by byte, and while something is left nothing else happens |
| GroupProgress.ChargeSweeps | common/libevent/bufferevent_ratelim.c:272-308 | a transfer that uses up the group's bytes suspends every member, and one that leaves some in a suspended group resumes every member |
| GroupProgress.JoinSuspends | common/libevent/bufferevent_ratelim.c:735-780 | who joins is suspended by the group exactly if the group is suspended |
| GroupProgress.JoinMoves | common/libevent/bufferevent_ratelim.c:735-780 | who joins while in another group leaves that one, and is suspended exactly if the new one is |
| GroupProgress.JoinAgain | common/libevent/bufferevent_ratelim.c:756-759 | joining the group one is in changes nothing |
| GroupProgress.LeaveResumes | common/libevent/bufferevent_ratelim.c:788-820 | who leaves is not suspended by the group any more |
| GroupProgress.DestroyLeaves | common/libevent/bufferevent_ratelim.c:788-820 | what is destroyed is no member any more |
| Entries.PutIsUpdate | common/jansson/hashtable.c:219-268 | setting a key is a map update and keeps keys unique |
| Entries.WithoutIsRemoval | common/jansson/hashtable.c:106-137 | deleting a key is removal from the map |
| Entries.LookupIsMap | common/jansson/hashtable.c:270-284 | looking a key up in the entries is looking it up in the map |
| Entries.KeysAfterPut | common/jansson/hashtable.c:219-268 | a key keeps its place in the order, a new one comes last |
| HashLists.ListInsert | common/jansson/hashtable.c:46-52 | puts a node before another in a ring |
| HashLists.ListRemove | common/jansson/hashtable.c:54-58 | takes a node out of a ring |
| Hashtables.MaskIsRemainder | common/jansson/lookup3.h:75-76 | a hash masked with the hash mask of an order is its remainder by the number of buckets |
| Hashtables.AtEndSegments | common/jansson/hashtable.c:65-78 | a pair for an empty bucket, put at the end of the list, makes a segment of its own |
| Hashtables.AtFrontSegments | common/jansson/hashtable.c:65-78 | a pair put before the first of its bucket keeps all segments contiguous and each holding exactly its pairs |
| Hashtables.CutSegments | common/jansson/hashtable.c:106-137 | so does taking a pair out |
| Hashtables.Hashtable.constructor | common/jansson/hashtable.c:191-211 | a new table is empty |
| Hashtables.Hashtable.InsertToBucket | common/jansson/hashtable.c:65-78 | the bucket's first and last pointers and the ring agree with the new segments |
| Hashtables.Hashtable.FindPair | common/jansson/hashtable.c:80-103 | walks the segment of a bucket and finds the pair with the hash and key, or null exactly if there is none |
| Hashtables.Hashtable.RemoveFromBucket | common/jansson/hashtable.c:106-137 | the four cases of a pair that is first, last, both or neither in its bucket |
| Hashtables.Hashtable.Rehash | common/jansson/hashtable.c:153-188 | doubles the buckets and links every pair again: neither map nor order changes |
| Hashtables.Hashtable.Set | common/jansson/hashtable.c:219-268 | the entries become those with the key put in, or stay if there is no memory |
| Hashtables.Hashtable.Get | common/jansson/hashtable.c:270-284 | the value of a key, or none |
| Hashtables.Hashtable.Del | common/jansson/hashtable.c:286-290 | the entries without the key, and -1 exactly if it was not there |
| Hashtables.Hashtable.Clear | common/jansson/hashtable.c:292-307 | no entries |
| Hashtables.Hashtable.IterNext | common/jansson/hashtable.c:330-336 | the next pair in the order of insertion |
| Hashtables.Hashtable.IterAt | common/jansson/hashtable.c:314-328 | the iterator at a key |
| Hashtables.Hashtable.IterSet | common/jansson/hashtable.c:350-356 | replaces one value |
| Hashtables.Hashtable.Walk | common/jansson/hashtable.c:309-336 | iterating from the start gives all entries in the order of insertion |
| HashtableRuns.ReplayIsMap | common/jansson/hashtable.c:219-307 | a run of commands on entries is the same run on a finite map |
| HashtableRuns.OrderOfInsertion | common/jansson/hashtable.c:219-307 | after any run the keys are in the order in which they last came in |
| HashtableRuns.Run | common/jansson/hashtable.c:219-307 | every run on a table, with all its rehashes, leaves it with those entries |
| DnsNames.JoinLabels | common/libevent/evdns.c:1599-1663 | splitting a name at its dots and joining it gives it back, but for a dot at the end |
| DnsNames.DenotesParsed | common/libevent/evdns.c:959-1013 | what stands in a message, with every pointer marked by two set bits and leading back, is what parsing reads, and where it ends |
| DnsNames.DenotesExtended | common/libevent/evdns.c:1571-1586 | names stay readable when more is written behind them |
| EvDns.LabelTable.GetPos | common/libevent/evdns.c:1559-1568 | the place of a name in the table, or -1 exactly if it is not there |
| EvDns.LabelTable.Add | common/libevent/evdns.c:1571-1586 | adds a name, or changes nothing: always for a full table, and otherwise only without memory |
| EvDns.ProgressPointer | common/libevent/evdns.c:1626-1629 | ending a name with a pointer to a table entry makes it readable |
| EvDns.ProgressStep | common/libevent/evdns.c:1630-1653 | writing one label keeps what is written before and the table usable |
| EvDns.DnsnameToLabels | common/libevent/evdns.c:1599-1663 | the answer for every name, table, place and buffer, with its failures; a name that was put can be read at its place, every table entry at its own, and earlier bytes stay; with memory to be had the table has the new entries that `EntriesAre` describes, as many as there is room for |
| EvDns.EntriesAre | common/libevent/evdns.c:1609-1650 | what is entered for a name: each of its ends at a label before which none was known, with the place where it stands in the message |
| EvDns.WrittenPoints | common/libevent/evdns.c:1609-1622 | a name of which an end is in the table is written up to the first such end and then points to it: it is put if and only if the labels before are short and there is room, and takes their length and two bytes |
| EvDns.KnownAfter | common/libevent/evdns.c:1571-1586 | once a name is put, its ends up to the first one known before are in the table, if that had room |
| EvDns.SecondTime | common/libevent/evdns.c:1609-1622 | the same name again then takes two bytes |
| EvDns.AllNewIs | common/libevent/evdns.c:1609-1622 | no part of the name is in the table exactly if none of its ends at a label is |
| EvDns.ZeroOutside | common/libevent/evdns.c:1640-1657 | the final zero lands behind the buffer if and only if a name with none of its parts in the table, not empty and without a dot at its end, just fills the buffer |
| EvDns.WrittenWhole | common/libevent/evdns.c:1599-1663 | a name with none of its parts in the table is put if and only if its labels are short and there is room for them; then it takes its length and two bytes more, or one if it is empty or ends in a dot |
| EvDns.ZeroOutsideHappens | common/libevent/evdns.c:1640-1657 | such a name and buffer |
| EvDns.NameParse | common/libevent/evdns.c:959-1013 | ends on every packet, pointer loops included; succeeds exactly if the labels can be read and fit, with their join and the end of the name |
| DnsWalks.ParsedIffWay | common/libevent/evdns.c:959-1013 | labels are read at a place if and only if they stand on a way from there, along labels and pointers in any direction, to a zero: the limit on the number of pointers refuses no name that ends |
| DnsWalks.KnownNames | common/libevent/evdns.c:959-1013 | the message of section 4.1.4 of RFC 1035 is read as the names given there |
| EvDns.NameComesBack | common/libevent/evdns.c:959-1013 | a written name is read back if and only if it has no empty label and does not end in a dot |
| EvDns.PutNames | common/libevent/evdns.c:1541-1663 | names put one after the other with one table are each read back, and each ends where the next begins; all are put if they are short and there is room for them one by one |
| Utf.CheckFull | common/jansson/utf.c:83-137 | accepts exactly the encodings of scalar values: no overlong form, surrogate or value beyond 10FFFF |
| Utf.Iterate | common/jansson/utf.c:139-163 | the next character and its end, or -1 exactly if none begins there |
| Utf.CheckString | common/jansson/utf.c:165-187 | accepts exactly the concatenations of encoded scalar values |
| Utf.KnownCodes | common/jansson/utf.c:11-44 | the codes of a character of each length |
| Utf.EncodeInjective | common/jansson/utf.c:11-45 | different characters have different encodings |
| Utf.NextCharacter | common/jansson/utf.c:139-163 | a string can be read as characters in one way only |
| JsonStrings.Hex4Decoded | common/jansson/load.c:295-316 | four digits printed and decoded give the number back |
| JsonStrings.SecondPassFits | common/jansson/load.c:373-470 | the value of a string is never longer than its text, so the block allocated for it is large enough |
| JsonStrings.CharRead | common/jansson/dump.c:98-150 | what is printed for a character, a pair of surrogates included, is scanned as that character |
| JsonStrings.PrintedIsScanned | common/jansson/load.c:318-470 | scanning the text of any string of characters gives that string and stops behind its quote, for all flags |
| JsonStrings.FirstPassPieces | common/jansson/load.c:328-371 | what the first pass accepts has no malformed escape, so the second cannot meet one |
| JsonPrinter.DumpString | common/jansson/dump.c:70-161 | succeeds exactly for valid strings, and prints them as their text, of which `JsonLayout.TextLaid` says what the flags ask; of any other it prints what comes before the last character that had to be escaped before the invalid place |
| JsonLayout.TextLaid | common/jansson/dump.c:44-394 | the text of a value is a text of that value in which every character is spelled as the style wants it (above 7F raw or escaped, a slash with a backslash or without, controls, quotes and backslashes always escaped), every element and member begins on a new line behind its indent or behind one space or none, and a colon is followed by a space or not, as the flags say |
| JsonLayout.CompactTight | common/jansson/dump.c:44-68 | compact text without indent has no space outside strings |
| JsonLayout.TextAscii | common/jansson/dump.c:98-150 | with JSON_ENSURE_ASCII every byte of every text is below 80 |
| JsonLayout.KnownStrings | common/jansson/dump.c:98-150 | the texts of a letter beyond ASCII, of a character beyond the first 65536 and of a slash, with the flags and without |
| JsonPrinter.OneReading | common/jansson/dump.c:70-161 | the characters of a string are unique |
| JsonStream.Stream.Get | common/jansson/load.c:153-214 | delivers the bytes up to the first invalid character, then an error, or the end |
| JsonStream.Stream.Unget | common/jansson/load.c:216-224 | the byte comes again |
| JsonStream.ValidDelivered | common/jansson/load.c:153-214 | valid UTF-8 is delivered as a whole |
| JsonTokens.TokenInside | common/jansson/load.c:581-647 | a token is at least one byte and lies within the input |
| JsonTokens.SpaceBefore | common/jansson/load.c:590-592 | space before a token changes nothing but its place |
| JsonLexer.DecodeUnicodeEscape | common/jansson/load.c:295-316 | the value of four hexadecimal digits, or -1 exactly if they are not |
| JsonLexer.Lexer.FirstScan | common/jansson/load.c:328-371 | saves the text up to the closing quote, exactly if every piece is well formed |
| JsonLexer.Lexer.SecondScan | common/jansson/load.c:373-470 | decodes the saved text within its block, and fails only for a lone surrogate |
| JsonLexer.Lexer.ScanNumber | common/jansson/load.c:484-575 | the integer, with its range check and no leading zeros, and the place behind it |
| JsonLexer.Lexer.Scan | common/jansson/load.c:581-647 | the next token of the input and the place behind it |
| JsonValues.StringTextIs | common/jansson/dump.c:70-161 | a string has one text |
| JsonRoundTrip.IntegerLenBack | common/jansson/dump.c:187-201 | the digits printed for an integer are read as that integer and end where they end |
| JsonRoundTrip.ValueBack | common/jansson/load.c:803-877 | parsing the text of a value followed by a comma, a bracket or space gives the value and stops there, if its depth and zero bytes are acceptable, and fails otherwise |
| JsonRoundTrip.ElementsBack | common/jansson/load.c:763-801 | the same for the rest of an array |
| JsonRoundTrip.MembersBack | common/jansson/load.c:684-761 | the same for the rest of an object, with its keys in order |
| JsonRoundTrip.DocumentBack | common/jansson/load.c:879-915 | the round trip of a document for every indent, compact, ensure-ascii and escape-slash setting and all decoding flags; it fails exactly for values too deep, zero bytes not allowed, or a bare value without JSON_DECODE_ANY |
| JsonRoundTrip.TextLoadable | common/jansson/load.c:917-932 | every text is valid UTF-8 without zero bytes, so json_loads reads it to its end |
| JsonParser.ParseValue | common/jansson/load.c:803-877 | the recursive parser does what the grammar says of its token and the bytes ahead, and keeps the depth |
| JsonParser.ParseArray | common/jansson/load.c:763-801 | the same for arrays |
| JsonParser.ParseObject | common/jansson/load.c:684-761 | the same for objects, duplicate and zero-byte keys included |
| JsonParser.ParseJson | common/jansson/load.c:879-915 | the same for a document, with the check that nothing but space follows |
| JsonParser.Loads | common/jansson/load.c:934-962 | makes a value if and only if the input is a text of that value under the flags (`JsonTexts.IsText`); the text printed for a value gives that value, or an error exactly if the flags refuse it; all strings and keys of what comes out are valid UTF-8 |
| JsonLoading.ParsedIffText | common/jansson/load.c:880-915 | the grammar of the parser makes v of the input if and only if the input is a text of v as RFC 8259 has it, written as syntax trees without any of the parser's functions: space, commas and colons in their places, escapes, surrogate pairs, raw characters, numbers without leading zeros and within 64 bits, keys that come twice, depth and zero bytes as the flags want them, and nothing behind unless JSON_DISABLE_EOF_CHECK is set |
| JsonAccepted.TreeReads | common/jansson/load.c:801-877 | every text of a value is read as that value, up to its end |
| JsonAccepted.ValueWas | common/jansson/load.c:801-877 | whatever is read as a value was a text of it |
| JsonValidity.DocumentValid | common/jansson/load.c:684-877 | parsing text that is valid UTF-8 only makes values whose strings and keys are all valid UTF-8 |
| JsonGraphs.ShowsOne | common/jansson/dump.c:168-394 | a node stands for one value at most |
| JsonGraphs.NoLasso | common/jansson/dump.c:215-263 | a node within itself stands for none |
| JsonGraphs.SortReorders | common/jansson/dump.c:298-350 | sorting keys gives the same value but for the order of members |
| JsonGraphs.SortAscends | common/jansson/dump.c:163-166 | with JSON_SORT_KEYS the keys of every object ascend in the order of strcmp |
| JsonDumper.DumpIndent | common/jansson/dump.c:44-68 | the loop over blocks of blanks prints the whole indent |
| JsonDumper.DoDump | common/jansson/dump.c:168-394 | ends on every finite graph, shared nodes and cycles included; succeeds with the text of the value, or fails with a path to a cycle or to an invalid string; gives back the marks it found, or none but those of its callers |
| JsonDumper.DumpArray | common/jansson/dump.c:215-263 | the same for the loop over elements |
| JsonDumper.DumpObject | common/jansson/dump.c:265-394 | the same for the loop over members |
| JsonDumper.Dumps | common/jansson/dump.c:396-413 | fails exactly if a cycle or an invalid string value can be reached, or for a bare value without JSON_ENCODE_ANY; an invalid key does not make it fail; all marks are clear afterwards in any case |
| JsonBadKeys.BadKeyText | common/jansson/dump.c:352-365 | in compact format the text printed for the object with the one key 0xFF is refused by the grammar for every set of flags |
| JsonBadKeys.BadKeysText | common/jansson/dump.c:352-365 | in compact format the text printed for the object with the two keys 0xFF and 0xFE is that of an object with one other, valid key, and that is what it is parsed to |
| JsonDumper.DumpAndLoad | common/jansson/dump.c:396-413 | for every graph, format and set of flags: a value in memory, printed and parsed, is that value again if and only if all its keys are valid UTF-8, the decoding flags accept it and a bare value is allowed, sorted keys or not; with valid keys the only other outcome is an error |
| RequestLists.RequestInsert | common/libevent/evdns.c:2711-2724 | a request comes last in a circular list without a head node |
| RequestLists.RequestRemove | common/libevent/evdns.c:2680-2708 | a request is taken out of its list, and the head pointer moves on or becomes null |
| RequestQueues.PutInBucket | common/libevent/evdns.c:2711-2724 | the bucket of the transaction id gains the request; the other lists stay |
| RequestQueues.TakeFromBucket | common/libevent/evdns.c:2680-2708 | the bucket loses the request; the other lists stay |
| EvdnsQueues.EvdnsBase.Pick | common/libevent/evdns.c:1334-1367 | the server whose turn it is (`InTurn`): the next one that is up, or the one after the next if none is; the turns of all later picks go on from there; ends for every ring of servers, and answers none exactly if there is none |
| EvdnsQueues.EvdnsBase.TransactionIdPick | common/libevent/evdns.c:1316-1331 | an id that no request under way has, and never the one for waiting requests; there is one if and only if fewer than 65535 are under way, and the code loops forever otherwise |
| EvdnsQueues.EvdnsBase.FindFromTransId | common/libevent/evdns.c:465-482 | a request under way with the transaction id, or null exactly if there is none |
| EvdnsQueues.EvdnsBase.RequestNew | common/libevent/evdns.c:2735-2818 | a new request has a server and a transaction id exactly if there is room and a server; the server is the one whose turn it is and no request under way has the id; it does not come back exactly if there is room and all ids are in use |
| EvdnsQueues.EvdnsBase.Submit | common/libevent/evdns.c:2820-2840 | a request with a server joins those under way, any other comes last in the queue; no other request moves |
| EvdnsQueues.EvdnsBase.Pump | common/libevent/evdns.c:736-770 | those that waited longest are sent off in their order, the i-th to the server whose turn is the i-th, never above the maximum, until there is no room, nobody waits, there is no server or no id is left |
| EvdnsQueues.EvdnsBase.Finished | common/libevent/evdns.c:648-707 | exactly the request is gone, and the queue has moved up, each request to the server whose turn it is |
| EvdnsQueues.EvdnsBase.Swap | common/libevent/evdns.c:545-555 | a request goes over to another server, and both loads stay the numbers of their requests |
| EvdnsQueues.EvdnsBase.Reissue | common/libevent/evdns.c:714-735 | the request goes to the server whose turn it is, which is up if any is; pointless exactly if that is its own, and otherwise it counts as reissued and not sent |
| EvdnsQueues.EvdnsBase.Failed | common/libevent/evdns.c:559-613 | the server is down, and if another is up exactly those of its requests that were not sent yet went over, bucket by bucket, each to the server whose turn it is, which is up; no other request moved |
| EvdnsQueues.EvdnsBase.RescueBucket | common/libevent/evdns.c:598-612 | the same for the requests of one bucket |
| EvdnsQueues.EvdnsBase.Up | common/libevent/evdns.c:615-634 | the server is up, counted and starts with no timeouts; only its outstanding probe is gone |
| EvdnsQueues.EvdnsBase.Timeout | common/libevent/evdns.c:2159-2196 | a request that was sent often enough is gone and its server is down; any other goes to the server whose turn it is, as `Retransmit` says; no other server changes |
| EvdnsQueues.EvdnsBase.Retransmit | common/libevent/evdns.c:2179-2193 | the server whose turn it is counts one more timeout and is given up, with its count back at 0, exactly if that is more than the maximum; the request is with it, or with another one that is up if it had not gone out |
| EvdnsQueues.EvdnsBase.SetMaxRequestsInflight | common/libevent/evdns.c:3386-3415 | every request under way is in its bucket of the new array, none lost; requests go on waiting for nothing if and only if some waited, there is a server and fewer are under way than may be now |
| EvdnsQueues.EvdnsBase.NameserverAdd | common/libevent/evdns.c:2542-2554 | a new server comes second in the ring and is counted as good; requests go on waiting for nothing if and only if some waited and fewer were under way than may be |
| EvdnsQueues.RaisingLeavesWaiting | common/libevent/evdns.c:3386-3415 | a run on a real base: a request waits although one more may be under way |
| EvdnsQueues.FirstServerLeavesWaiting | common/libevent/evdns.c:2542-2554 | a run on a real base: a request waits although there is a server with nothing to do |
| EvdnsQueues.Run | common/libevent/evdns.c:545-770 | over every run of requests, replies, timeouts, reissues, failing and returning servers and new limits, every live request is in exactly one list, those under way in the bucket of their id, which no other has, and with a server, and the counters of requests, of each server's load and of good servers are the true numbers |
| TagCodes.TagBack | common/libevent/event_tagging.c:173-240 | every 32-bit tag is read back whatever follows, in at most five bytes |
| TagCodes.TagBytesIs | common/libevent/event_tagging.c:173-197 | the bytes of a tag are the only ones that have its digits to the base 128, the lowest first, the high bit on all but the last, and no zero digit at the end |
| TagCodes.TagOfIs | common/libevent/event_tagging.c:199-240 | a tag is read if and only if the bytes up to the first one without the high bit are five at most and their digits make a number of 32 bits |
| TagCodes.EncodeTag | common/libevent/event_tagging.c:173-197 | the loop writes seven bits a byte, the lowest first |
| TagCodes.TagFrom | common/libevent/event_tagging.c:199-240 | the loop reads a tag, and refuses more than 32 bits or a missing end; how many bytes it has read |
| TagCodes.SixthByte | common/libevent/event_tagging.c:199-240 | a byte behind the five that are pulled up is read if and only if there is one, all five have their high bit set and the low seven bits of the fifth are at most 15 |
| TagCodes.SixthByteIsRead | common/libevent/event_tagging.c:199-240 | such a buffer |
| TagCodes.EncodeInt | common/libevent/event_tagging.c:117-150 | an integer of 32 or 64 bits is written with as many nibbles as it has and zero behind them, and what is written is read back whatever follows |
| TagCodes.KnownInts | common/libevent/event_tagging.c:117-150 | the bytes of 1, 0xaf0 and 0xdeadbeef |
| TagCodes.DecodeInt | common/libevent/event_tagging.c:315-350 | the loop reads the nibbles from the highest down, and refuses too many or missing ones |
| EvTags.Marshal | common/libevent/event_tagging.c:255-262 | a record is appended to the buffer: tag, length, payload |
| EvTags.DecodeTagOf | common/libevent/event_tagging.c:199-246 | reads and drains the tag at the front of any chain layout, or changes nothing; drains nothing if the start is frozen, and may answer -1 if memory is short |
| EvTags.DecodeIntOf | common/libevent/event_tagging.c:315-390 | the same for an integer of 32 or 64 bits, answering 0 or -1 |
| EvTags.UnmarshalHeader | common/libevent/event_tagging.c:437-453 | tag and length of a record whose payload is there, and what is drained in each case of failure, with frozen ends and memory that runs out included |
| EvTags.Unmarshal | common/libevent/event_tagging.c:467-480 | moves the payload of the first record to another buffer and leaves the rest; fails for a missing or incomplete record, for a length above INT_MAX and for a payload the other buffer refuses, when the header is gone already; with the start of the source frozen nothing is drained and each part is read where the one before it stands; without memory it may fail with what is drained stated |
| EvTags.FrozenRecord | common/libevent/event_tagging.c:199-246 | a run on a frozen source: the byte of the tag is taken for the length and for the payload as well, and no failure is answered |
| EvTags.RecordBack | common/libevent/event_tagging.c:249-262 | a record at the front of a stream is read back, and the rest of the stream stays |
| EvTags.Reload | common/libevent/event_tagging.c:249-482 | any list of records marshalled one after the other unmarshals to the same list up to the first payload above INT_MAX; without one the buffer is consumed |
| Lookup3.MixUndone | common/jansson/lookup3.h:77-131 | mix is a bijection on triples of 32-bit words |
| Lookup3.FinalUndone | common/jansson/lookup3.h:133-170 | final is a bijection on triples of 32-bit words |
| Lookup3.RotBack | common/jansson/lookup3.h:77-77 | a rotation is undone by the rotation by the rest of 32 bits |
| Lookup3Values.XorIs | common/jansson/lookup3.h:77-170 | the exclusive or of the model is that of the machine, byte by byte |
| Lookup3Values.KnownHashes | common/jansson/lookup3.h:178-203 | two published values: the hash of the sentence of 30 bytes with seed 0, and of no bytes |
| Lookup3.HashWords | common/jansson/lookup3.h:204-292 | the path by words gives the hash of the key, whatever is in memory behind the key in its last word |
| Lookup3.HashHalves | common/jansson/lookup3.h:294-343 | the path by half words gives the same hash for every key, length and seed |
| Lookup3.HashBytes | common/jansson/lookup3.h:345-382 | so does the path by bytes |

## Left out

- The application code in `bll/` and `app/`: it drives sockets, threads and codecs that are not part of this model.
- evbuffer callbacks and their counters, locks, pinned and multicast chains, file segments, iovec reservation and the calls that read and write sockets.
- EvBuffer.EvBuffer.AddReference: memory of no bytes is left out. Such a chain may neither be written nor hold data, and when it is the only one `evbuffer_prepend` moves last_with_datap to it although the data is in front, a state that `Valid` does not know.
- EvBuffer.EvBuffer.RemoveBuffer: the source is shortened before the bytes are copied, and after it in the code; nobody sees it in between. Of what the operations do to a buffer whose last_with_datap has stayed behind only `AddAny` is modelled.
- EvBufferRuns.Run: a reference has at least one byte of memory and at most what a chain may hold. References and splices can make a buffer longer than a size_t, and its length is then not reduced as `total_len` would be. The run ends at the first `evbuffer_remove_buffer` that leaves last_with_datap behind.
- EvSearch.SearchRange: positions are `ssize_t`, so buffers are no longer than that.
- The memory of freed chains, pairs and changes: they are unlinked, and freeing them is not modelled.
- Evmap.EventBase.MakeSpace: does not model the overflow of the slot count for descriptors from 2^30 on.
- Edge-triggered events, signals, early close detection by the kernel's version, and debug checks in the fd map.
- Evmap.EventBase.IoDel: a change that cannot be allocated leaves the kernel as it was while the counters go on; the descriptor is then among the lost ones of `EvmapRuns.Run`. An event that is deleted is one that was added.
- RateLimit.Run: charges and refunds stay within the range of a limit and at most at the maximum; `RefundWraps` shows what a larger refund can do. Starting the refill timer is taken to succeed.
- A tick shorter than a millisecond, by which `ev_token_bucket_get_tick_` would divide by zero.
- GroupProtocol.NextKeeps: models one direction, a try-lock and the work under it as one step, and bytes of the group bucket without its refill arithmetic; changing a group's configuration is left out.
- The group's random choice of where a sweep begins is a parameter of a step.
- The hash function and the table's reference counts; the seed is left out.
- DNS messages from 16384 bytes on, where a pointer no longer fits, and all of a DNS message but its names.
- EvDns.PutNames: is for names without empty labels and dots at the end; for other names `NameComesBack` says exactly that they do not come back.
- EvdnsQueues.EvdnsBase.RequestNew: the random numbers that `transaction_id_pick` tries are any numbers; when all ids are in use, and the code loops forever, it answers null and the pump stops.
- EvdnsQueues.EvdnsBase.Up: the probe that is cancelled is given by the caller; handles, deferred callbacks and the timers of probes are left out.
- evdns_transmit, choked sockets and all sending: whether a packet goes out is any choice. The maximum in flight is no invariant, as probes are forced in.
- Tearing servers down, search domains, getaddrinfo, resolv.conf and the DNS server side.
- EvTags.Unmarshal: when memory runs out on the way it leaves open which of the contents that `GaveUp` lists is left; that depends on the layout of the chains, of which `EvBuffer.Pullup` says exactly when one of them is too small. `EvTags.Marshal` and `EvTags.Reload` are for buffers that are not frozen and not short of memory, with no more bytes than one chain could hold.
- The other record types of event_tagging.c (integers, strings, times): they are calls of what is here.
- lookup3.h on big-endian machines.
- JSON reals: the lexer stops at a point or an exponent, and the parser's result is then `MetReal`, of which nothing is said. JSON_DECODE_INT_AS_REAL goes with them.
- JsonStream.Stream.Get: input with zero bytes (json_loadb) is left out, as are line, column and error texts; after an invalid character nothing more is read.
- JsonParser.ParseObject: objects under construction are lists of members with the semantics that `Hashtables` proves for the table; running out of memory is left out.
- JsonDumper.DumpObject: the two loops with and without sorting are one, and qsort is a function.
- JSON_PARSER_MAX_DEPTH is a parameter (its header is not part of this model), and an indent is any number instead of at most 31.
- pack, unpack, paths, deep copies and updates of JSON values.
