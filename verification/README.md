# Verified model of the mesh radio, the form library and two BCM2835 kernels

This project models four parts of the repository in Dafny and proves what they are meant to guarantee. Each part has
two layers: classes and methods over arrays and objects that follow the C code statement by statement, and values and
functions that say what a call does. Every method is proved to do what the value layer says; the theorems are about
the value layer, for all inputs, all runs and all network sizes.

`dafny verify dfyconfig.toml` checks everything.

## The mesh radio (`julian_libraries/mesh_radio.c`)

A node keeps a table of 50 neighbours and routes, a reassembly slot for each sender, a snapshot of its routes that it
broadcasts in chunks, and a circular receive buffer. Slots are freed lazily: a freed slot keeps its address, weight and
trust, and some searches do not look at the in-use flag.

- `RouteTable`, `NeighborTable`, `TickRule`, `WholeMerge`: the table, its invariant, the timer pass as one simultaneous
  rule, and what merging a neighbour's table amounts to.
- `Reassembly`, `SenderTable`: the slots in which neighbour tables are put together again.
- `Snapshot`, `SnapshotBuffer`: what is broadcast, in which packets.
- `RxRing`: the receive buffer, and the queue of whole messages it refines.
- `Node`, `MeshNode`, `EntryPoints`: the entry points, as a step function and over the arrays, and what each of them does
  to every part of the state, in the numbers and bytes of the source.
- `NodeRuns`: any run of one node (the two-level forest of routes, silence, keep-alive, broadcast cycles).
- `Network`, `NetworkRuns`: any number of nodes with a channel that loses, delays, repeats and reorders packets; hop
  counts are walks.
- `GhostRoutes`, `CountToInfinity`: what is said about a node that has gone silent. The youngest copy never gets
  younger, and it can count up, hop by hop, to the limit of 15.
- `Delivery`: a data packet travels over settled tables and comes out as the plaintext.

Assumptions: each timer tick and each API call is one atomic step; packets have 4 to 32 bytes; senders have non-zero
addresses and never the receiver's own; the key is any non-empty sequence of bytes. The tables start zeroed, as globals do.

Two things one might expect do not always hold, and the model says exactly when they do. A reassembled table is merged
as a whole only if all but one of its addresses are served already (`WholeMerge.MergedWholeIff`, with a counterexample
in `WholeMerge.SecondPairIsLost`). A message comes out as it went in, with nothing left behind, if and only if it has at
most 27 bytes and its ciphertext holds no carriage return (`RxRing.ReadsBackIff`, `Delivery.EndToEnd`).
The code also leaves `received_packet` as it is when a sender is not trusted, and hands reassembly two bytes more than a
ping carries; the model does the same.

## The form library (`hva_libraries/ncurses/form`)

- `PageOrder`, `Rings`, `FormDef`, `ConnectFields`, `Forms`: connecting an array of fields to a form cuts it into pages
  and links each page's fields into a sorted, doubly linked ring, over real pointers.
- `Counting`, `TypeLedger`, `RingLedger`, `FieldStore`, `FormRuns`: fields that share buffers in link rings, and
  reference-counted field types. The store of objects carries ghost ledgers, its books, that its methods keep in step
  with the pointers and counters. Each call on the store is one step of the books, or leaves them as they are;
  `FormRuns` states what holds after any run of steps from the books of a new store.
- `FieldBuffer`, `EnumMatch`, `EnumField`: the memory of a field, matching it against the keywords of an enumeration,
  and stepping through them.

Assumptions: a form has fewer than 65536 fields, C integers that are not stored in a short do not overflow, cells are
single characters. A failing allocation or type argument is a parameter of the call.

## Two kernels of `hva_libraries/bcm2835/src/bcm2835.c`

- `Spi`: the polled full-duplex transfer that the source attributes to section 10.6.1 of the BCM2835 ARM Peripherals
  manual, over an arbitrary finite schedule of FIFO states. The device answers each octet knowing all it got before, and
  the receive FIFO never holds more than has been sent.
- `SysTimer`: the 64-bit counter read through two registers (section 12.1 of the same manual) while it runs. The counter
  never goes back or past 64 bits. `bcm2835_st_delay` promises to wait at least as long as asked; it does so if and only
  if `offset_micros + micros` fits in 64 bits (`SysTimer.Timer.StDelay`, `SysTimer.WaitEndsAtOnce`). The torn-read test
  turns out to be stronger than exactness under a short call: without any bound on the time between accesses, a reading
  still lies within the call.

## Model

| member | source | states |
|---|---|---|
| `Bytes.EncryptTwice` | julian_libraries/mesh_radio.c:281-286 | The cipher is its own inverse for every non-empty key: encrypting twice gives the data back. |
| `Bytes.CipherBits` | julian_libraries/mesh_radio.c:281-286 | What it computes, bit by bit: bit j of byte i is turned over exactly if bit j of key byte i modulo the key length is set. |
| `Bytes.Encryption` | julian_libraries/mesh_radio.c:281-286 | The in-place loop changes exactly the given stretch of the array, to its encryption, which is also said bit by bit. |
| `NeighborTable.NeighborTable.UpdateWeight` | julian_libraries/mesh_radio.c:348-373 | Hearing an address leaves the table as the value-level update says: the live entry is refreshed and capped, else the first free slot is taken with its old trust, else nothing changes. |
| `NeighborTable.NeighborTable.CheckTrusted` | julian_libraries/mesh_radio.c:376-385 | Returns the trust of the first slot with the address, live or stale, without changing anything. |
| `NeighborTable.NeighborTable.ProcessData` | julian_libraries/mesh_radio.c:452-494 | The nested loops replace what was reached through the owner and then merge at most one pair. |
| `NeighborTable.NeighborTable.GetOwnIds` | julian_libraries/mesh_radio.c:266-278 | Writes the own-range list and its length, and nothing behind it. |
| `NeighborTable.OwnIdsExact` | julian_libraries/mesh_radio.c:266-278 | The list holds each live trusted address of the own range exactly once and nothing else. |
| `NeighborTable.OwnIdsInOrder` | julian_libraries/mesh_radio.c:266-278 | The addresses stand in slot order. |
| `RouteTable.LiveIsUnique` | julian_libraries/mesh_radio.c:348-385 | In a table without shadowed addresses, which the lemmas below show to be kept, no two live entries carry the same address. |
| `RouteTable.UpdateWeightExact` | julian_libraries/mesh_radio.c:348-373 | Hearing an address, slot by slot and in numbers: the first live entry gains ten up to seventy and becomes direct at one hop, else the first free slot starts at ten, trust staying as it was; no other slot changes. |
| `RouteTable.CheckTrustedExact` | julian_libraries/mesh_radio.c:376-385 | The trust of the first slot that carries the address, in use or not; false without one. |
| `RouteTable.UpdateWeightInv` | julian_libraries/mesh_radio.c:348-373 | Hearing an address keeps the table invariant: weights within 0..70, live entries' hops and weights, no slot before a live one with its address, every owner a live direct trusted neighbour. |
| `RouteTable.CheckTrustedIsLive` | julian_libraries/mesh_radio.c:348-385 | Called right after the update, even on a full table, the trust check that ignores inUse says true exactly if the live entry for the address is trusted (and then direct). |
| `RouteTable.ProcessDataInv` | julian_libraries/mesh_radio.c:452-494 | Merging a neighbour table of a trusted neighbour keeps the table invariant. |
| `WholeMerge.FirstStoredIsFirst` | julian_libraries/mesh_radio.c:461-493 | The pair that merging is said to store first is the first storable one it gets to, and the other way round. |
| `WholeMerge.MergeStoresFirst` | julian_libraries/mesh_radio.c:460-493 | Of all pairs of a table that one is stored, and no other; without one nothing changes. |
| `WholeMerge.CommitExact` | julian_libraries/mesh_radio.c:470-492 | What storing that pair does, slot by slot: the first live entry for the address takes owner and hops only if it had more hops or no trust, else the first free slot takes the pair. |
| `WholeMerge.OwnerKept` | julian_libraries/mesh_radio.c:452-494 | Merging a table gives a trusted route that it does not drop to another owner only for strictly fewer hops. |
| `WholeMerge.CommitServes` | julian_libraries/mesh_radio.c:470-492 | Storing a pair serves its address and changes the route to no other address. |
| `WholeMerge.MergedWholeIff` | julian_libraries/mesh_radio.c:452-494 | A table is merged as a whole, every offered pair being served afterwards, if and only if what remains once the sender's routes are dropped already serves every offered pair but those about the one address that is stored. |
| `WholeMerge.SecondPairIsLost` | julian_libraries/mesh_radio.c:452-494 | It is not always: a concrete table of 50 slots and a full buffer of 28 bytes with two storable pairs, of which only the first gets in. |
| `RouteTable.TickFromInv` | julian_libraries/mesh_radio.c:561-586 | The rest of a timer pass, from any slot on, keeps the table invariant. |
| `TickRule.TickExact` | julian_libraries/mesh_radio.c:559-588 | The in-place pass with nested removals is one simultaneous rule, whatever the slot order: a weight that is not zero drops by one, neighbours stay while weight lasts and are trusted exactly above 30, routes stay exactly while their owner is trusted, and slots that leave keep their trust. |
| `RxRing.Ring.CanReadIsOccupancy` | julian_libraries/mesh_radio.c:143-151 | The pointer arithmetic is the exact number of unread bytes, always below the depth. |
| `RxRing.Ring.SaveQueue` | julian_libraries/mesh_radio.c:388-407 | A save appends the data and a carriage return, cut to the free space, and touches no unread byte. |
| `RxRing.Ring.SaveIsWholeIff` | julian_libraries/mesh_radio.c:388-407 | A message goes in whole, with its terminator, exactly if there is room for both. |
| `RxRing.ReadsBackIff` | julian_libraries/mesh_radio.c:154-184 | What is saved into an empty ring comes back whole, with nothing left behind, exactly if it has at most 27 bytes and no carriage return. |
| `RxRing.UnreadableMessages` | julian_libraries/mesh_radio.c:154-184 | Two concrete messages that are not: 28 bytes leave their terminator behind, and a carriage return cuts a message short. |
| `RxRing.Ring.TakeQueue` | julian_libraries/mesh_radio.c:154-177 | A frame that is short enough is taken whole, and exactly the rest of the queue stays. |
| `RxRing.Ring.TakeUnfinished` | julian_libraries/mesh_radio.c:154-177 | Without a terminator in the buffer, what there is is taken as it is, up to the limit. |
| `RxRing.RingRefinesQueue` | julian_libraries/mesh_radio.c:154-184 | Any interleaving of saves that fit and reads returns what a plain queue of messages would: whole messages, in order, decrypted. |
| `RxRing.RxBuffer.CanReadRadio` | julian_libraries/mesh_radio.c:143-151 | Returns the number of unread bytes. |
| `RxRing.RxBuffer.SaveReceivedData` | julian_libraries/mesh_radio.c:388-407 | The loop over the circular array stores data and terminator as the ring value's save does. |
| `RxRing.RxBuffer.ReadRadioMessage` | julian_libraries/mesh_radio.c:154-184 | Moves the read pointer and writes the decrypted message, leaving the rest of the caller's array alone. |
| `Snapshot.ChunksShape` | julian_libraries/mesh_radio.c:601-632 | The messages concatenate to all pairs, there are as many as 28-byte chunks are needed, none is empty and all but the last have exactly 28 bytes. |
| `Snapshot.PairsExact` | julian_libraries/mesh_radio.c:608-612 | A pair is broadcast if and only if some live trusted entry says so. |
| `Snapshot.PairsInOrder` | julian_libraries/mesh_radio.c:608-612 | The pairs stand in slot order, one for each live trusted entry: each behind those of the slots before it. |
| `Snapshot.ChunksAreMessages` | julian_libraries/mesh_radio.c:601-632 | Every message of a snapshot of a sound table consists of whole pairs with non-zero ids. |
| `Snapshot.IndexByteExact` | julian_libraries/mesh_radio.c:642-643 | A table of 50 slots needs at most four messages, so number and count are recovered from the index byte. |
| `SnapshotBuffer.SnapshotBuffer.CreateSnapshot` | julian_libraries/mesh_radio.c:601-632 | The buffer-filling loop stores exactly the chunks of the table's pairs. |
| `SnapshotBuffer.SnapshotBuffer.SendNextPing` | julian_libraries/mesh_radio.c:635-678 | Builds the packet and moves the snapshot as the value-level ping step says. |
| `Reassembly.MergeStarts` | julian_libraries/mesh_radio.c:460-493 | Merging a full slot does what merging the message it starts with does, whatever bytes follow. |
| `Reassembly.SavePing` | julian_libraries/mesh_radio.c:497-551 | For a ping's fragment with its closing zero and one stray byte: the sender's slot carries the first message accepted since its last reset, and completing it merges exactly that message. |
| `Reassembly.ResetAccepts` | julian_libraries/mesh_radio.c:527-550 | A slot that has been reset accepts the next fragment whatever its header says. |
| `Reassembly.SaveIgnores` | julian_libraries/mesh_radio.c:534 | A fragment whose message number or count differs from the slot's changes nothing at all. |
| `Reassembly.SaveTakes` | julian_libraries/mesh_radio.c:527-550 | Any other fragment is taken, field by field: number and count, exactly the bytes that fit behind those there are, and a full slot is merged and reset; no other slot changes. |
| `Reassembly.SaveNoSlot` | julian_libraries/mesh_radio.c:498-521 | When all slots are held by others the fragment is ignored. |
| `Reassembly.DropSenderExact` | julian_libraries/mesh_radio.c:439-449 | Dropping a sender frees and resets its slot and no other. |
| `Reassembly.SaveOpen` | julian_libraries/mesh_radio.c:534-550 | Between calls no slot is full. |
| `Reassembly.SaveInv` | julian_libraries/mesh_radio.c:497-551 | A fragment from a trusted neighbour keeps the table invariant. |
| `SenderTable.SenderTable.DropSender` | julian_libraries/mesh_radio.c:439-449 | Frees and resets the first slot held by the address. |
| `SenderTable.SenderTable.FindSlot` | julian_libraries/mesh_radio.c:498-521 | The first slot held by the address, else the first vacant one, claimed and reset, else -1. |
| `SenderTable.SenderTable.AppendFragment` | julian_libraries/mesh_radio.c:537-541 | Exactly the bytes that still fit are appended, to this slot only. |
| `SenderTable.SenderTable.SaveRemoteNeighborTable` | julian_libraries/mesh_radio.c:497-551 | Slot search, header check, appending and merging change table and slots as the value-level save says; no byte past received_packet[30] is read. |
| `Node.StepInv` | julian_libraries/mesh_radio.c:106-588 | Every entry point keeps the node invariant: table, open slots, well-formed snapshot, valid ring. |
| `Node.HearInv` | julian_libraries/mesh_radio.c:299-345 | Whatever packet is heard, the node invariant is kept; a table is merged only for a live, direct, trusted sender. |
| `EntryPoints.TickSlotsExact` | julian_libraries/mesh_radio.c:561-586 | A tick frees and resets the reassembly slot of exactly those senders whose live direct entry was at weight one or less; every other slot stays as it is. |
| `EntryPoints.ReachedOneEach` | julian_libraries/mesh_radio.c:497-521 | In every state a node can reach no address holds two reassembly slots. |
| `EntryPoints.PingExact` | julian_libraries/mesh_radio.c:640-665 | The bytes of a tick's ping: sender, command 1 or on the last message 2, number and count of the message, the message, a zero. |
| `EntryPoints.RenewedExact` | julian_libraries/mesh_radio.c:635-678 | Once everything is sent the tick takes a snapshot of the table, or sends [self, 2, 1, 0] if there is nothing to say. |
| `EntryPoints.TimerExact` | julian_libraries/mesh_radio.c:559-588 | A tick changes table, slots and snapshot only, and sends one ping of the table as it leaves it. |
| `EntryPoints.SendExact` | julian_libraries/mesh_radio.c:106-140 | With a route, the packet is [self, 3, hop, target] and the data, encrypted if asked for, the hop being the target itself or the owner of its entry; data of more than 28 bytes is not sent. |
| `EntryPoints.SendNothing` | julian_libraries/mesh_radio.c:116-126 | Without a live entry for the target nothing is sent. |
| `EntryPoints.PollExact` | julian_libraries/mesh_radio.c:299-345 | Without news nothing is read; news without a packet clears the receive buffer and the flag. |
| `EntryPoints.HearStranger` | julian_libraries/mesh_radio.c:308-313 | A packet from a sender that is no trusted neighbour has no effect but on its sender's weight, and stays in the receive buffer. |
| `EntryPoints.HearPing` | julian_libraries/mesh_radio.c:318-320 | A ping of either command goes to reassembly with the two bytes behind it, and does nothing else. |
| `EntryPoints.FirstPing` | julian_libraries/mesh_radio.c:318-320 | A ping of either command from a trusted neighbour whose slot is in its initial state: a full message is merged and the slot reset, a shorter one is what the slot carries. |
| `EntryPoints.FollowingPing` | julian_libraries/mesh_radio.c:534-550 | A ping that agrees with a started slot is appended, and once the slot is full the message it starts with is merged, and nothing else. |
| `EntryPoints.OtherPing` | julian_libraries/mesh_radio.c:534 | A ping that does not agree leaves table and slots alone. |
| `EntryPoints.DataArrives` | julian_libraries/mesh_radio.c:332-334 | A data packet for this node is queued with its terminator, cut to the space there is. |
| `EntryPoints.DataPassedOn` | julian_libraries/mesh_radio.c:327-331 | A data packet handed to this node for another one is sent on as it came, if there is a route. |
| `EntryPoints.HearOther` | julian_libraries/mesh_radio.c:315-339 | Any other packet only updates its sender's weight. |
| `MeshNode.MeshNode.constructor` | julian_libraries/mesh_radio.c:33-43 | A node starts with every global zero and the address that radioInit sets. |
| `EntryPoints.BootExact` | julian_libraries/mesh_radio.c:33-43 | That start: no entry, no slot, nothing to send or to read. |
| `MeshNode.MeshNode.InterruptHandler` | julian_libraries/mesh_radio.c:294-297 | The interrupt sets the flag and nothing else. |
| `MeshNode.MeshNode.LowerWeights` | julian_libraries/mesh_radio.c:561-586 | The loop over the table, with its nested removals and dropped senders, is the value-level pass over table and slots. |
| `MeshNode.MeshNode.TimerHandler` | julian_libraries/mesh_radio.c:559-588 | The tick over arrays is the value-level tick, and returns its ping. |
| `MeshNode.MeshNode.SendRadioData` | julian_libraries/mesh_radio.c:106-140 | Sends to the next hop or not at all; with encrypt the caller's bytes are encrypted in place. |
| `MeshNode.MeshNode.DispatchPacket` | julian_libraries/mesh_radio.c:315-339 | A packet from a trusted sender goes to reassembly, onwards, into the receive ring or nowhere. |
| `MeshNode.MeshNode.DoRead` | julian_libraries/mesh_radio.c:299-345 | The whole read, with its early return for untrusted senders that leaves received_packet as it is. |
| `MeshNode.MeshNode.ReadRadioMessage` | julian_libraries/mesh_radio.c:154-184 | Reading a message at the node level changes nothing but the ring and the caller's array. |
| `NodeRuns.ReachableForest` | julian_libraries/mesh_radio.c:106-140 | In every reachable state live addresses are distinct, never the node's own, and routes form a two-level forest below live, direct, trusted neighbours at one hop. |
| `NodeRuns.SentToNeighbour` | julian_libraries/mesh_radio.c:116-126 | Whatever data packet is sent is handed to a live one-hop neighbour. |
| `NodeRuns.HearKeeps` | julian_libraries/mesh_radio.c:452-494 | Hearing a packet first updates the sender's entry; the rest creates no direct entry and leaves trusted neighbours unchanged. |
| `NodeRuns.Silence` | julian_libraries/mesh_radio.c:559-588 | After 40 ticks without a packet from x nothing is reached through x, after 70 x is no neighbour, whatever else arrives. |
| `NodeRuns.KeepAlive` | julian_libraries/mesh_radio.c:348-373 | A live direct trusted neighbour at weight 41 or more that is heard in every ten ticks stays so, in its slot, for ever. |
| `NodeRuns.SnapshotMoves` | julian_libraries/mesh_radio.c:635-665 | Only ticks move the snapshot, one message each while there is one. |
| `NodeRuns.PingsInOrder` | julian_libraries/mesh_radio.c:635-665 | Over any run the ticks send the snapshot's messages once each and in order, with PING_END exactly on the last. |
| `NodeRuns.BroadcastCycle` | julian_libraries/mesh_radio.c:635-665 | A whole cycle broadcasts exactly the pairs of the table as the first tick leaves it, whatever else happens in between. |
| `NodeRuns.EmptyBroadcast` | julian_libraries/mesh_radio.c:666-677 | With nothing to advertise the tick sends the empty ping. |
| `Network.NetStepInv` | julian_libraries/mesh_radio.c:299-373 | Every step of a network of any size keeps the network invariant, packets being lost, delayed, repeated or reordered. |
| `Network.SaveSound` | julian_libraries/mesh_radio.c:497-551 | A fragment of a broadcast ping keeps table and slots backed by walks. |
| `NetworkRuns.HopSoundness` | julian_libraries/mesh_radio.c:452-494 | In every reachable network a live entry with h hops has a path of exactly h heard-from links, starting with its owner or the address itself, 1 <= h <= 15. |
| `NetworkRuns.PingSoundness` | julian_libraries/mesh_radio.c:601-678 | Every pair of every ping ever sent is backed by a path of as many links from its sender. |
| `NetworkRuns.SnapshotSoundness` | julian_libraries/mesh_radio.c:601-632 | Every pair of the snapshot that a node broadcasts from is backed by a path of as many links from that node. |
| `NetworkRuns.SlotSoundness` | julian_libraries/mesh_radio.c:497-551 | What a reassembly slot has collected, if anything, is of even length below 28 and starts with one whole message that its sender broadcast. |
| `NetworkRuns.SlotPairsSound` | julian_libraries/mesh_radio.c:536-541 | Whatever fragments a slot has mixed, each pair in it with a non-zero id is backed by a path. |
| `NetworkRuns.MergesOneBroadcast` | julian_libraries/mesh_radio.c:432-551 | The ping round trip: hearing a ping merges nothing, or exactly one whole message that this sender broadcast. |
| `GhostRoutes.StepAges` | julian_libraries/mesh_radio.c:461-493 | A step in which x is not heard leaves no copy of x, in tables, messages still to be sent, reassembly slots and packets in flight, younger than the youngest was, and every table entry that changes is strictly older than that. |
| `GhostRoutes.GhostsOnlyAge` | julian_libraries/mesh_radio.c:461-493 | Over any run in which x is not heard, packets in flight being heard any number of times or lost, the least hop count recorded for x anywhere never decreases. |
| `GhostRoutes.OldGhostsDie` | julian_libraries/mesh_radio.c:467 | Once every copy of x says 15 hops, no node gains an entry for a silent x. |
| `CountToInfinity.Climbs` | julian_libraries/mesh_radio.c:452-494 | Two nodes that reach a silent x through each other: one tells the other, which gives up its route for one that is a hop longer than the one it is told, and the least hop count is one more. |
| `CountToInfinity.GhostCountsUp` | julian_libraries/mesh_radio.c:452-494 | The ghosts exist: any three nodes can get from the start into a network whose youngest copy of x is a live entry of two hops, and from there, with x silent, into one where it is a live entry of any number of hops up to 15. |
| `Delivery.MiddleRound` | julian_libraries/mesh_radio.c:327-331 | One transmission over settled tables: only the addressed hop answers, with a packet for a next hop that trusts it and is nearer. |
| `Delivery.RelayDelivers` | julian_libraries/mesh_radio.c:106-140 | Over settled tables, a data packet whose every transmission is heard by its addressee reaches the target in at most as many transmissions as hops, and no other receive buffer changes. |
| `Delivery.CanBeHeard` | julian_libraries/mesh_radio.c:106-140 | That premise can be met: for any number of transmissions there are audiences that make it true. |
| `Delivery.EndToEnd` | julian_libraries/mesh_radio.c:106-184 | What sendRadioData encrypts at the source arrives, if every transmission is heard, within the source's hop count, and readRadioMessage returns it whole, with nothing left behind, if and only if it has at most 27 bytes and its ciphertext has no carriage return. |
| `PageOrder.OrderSorted` | hva_libraries/ncurses/form/frm_def.c:79-113 | Insertion yields an order by row, then column, equal fields later in the array first. |
| `PageOrder.OrderExact` | hva_libraries/ncurses/form/frm_def.c:228-238 | Each field of the page is visited exactly once and nothing else is. |
| `PageOrder.OrderUnique` | hva_libraries/ncurses/form/frm_def.c:79-113 | That order is the only sorted list of exactly the page's fields. |
| `FormDef.FollowRing` | hva_libraries/ncurses/form/frm_def.c:79-113 | Along snext the walk visits a ring's members in order. |
| `FormDef.InsertFieldByPosition` | hva_libraries/ncurses/form/frm_def.c:79-113 | The pointer walk ends and splices the field in before the first key that does not come before its own; the ring stays a doubly linked circle, and the head moves exactly if the field comes first. |
| `ConnectFields.SortPage` | hva_libraries/ncurses/form/frm_def.c:230-238 | The loop over a page links its fields into one ring in visiting order, each with its index and page. |
| `ConnectFields.ClaimFields` | hva_libraries/ncurses/form/frm_def.c:175-187 | Succeeds exactly if the fields are distinct and free; then all are claimed and the page starts counted. On failure fields have only been claimed. |
| `ConnectFields.LargestBounds` | hva_libraries/ncurses/form/frm_def.c:215-221 | The form's rows and columns bound all extents if and only if no extent is too large for a short; then they are the initial value or an extent. |
| `ConnectFields.ExtentTooLarge` | hva_libraries/ncurses/form/frm_def.c:212-220 | A concrete extent that is too large: a field of one row at row 32767 leaves the form with -32768 rows. |
| `ConnectFields.CutPages` | hva_libraries/ncurses/form/frm_def.c:198-224 | The pages cut the array exactly at the fields that start a page, and the form gets the largest extents, truncated as the source does. |
| `ConnectFields.PageStarts` | hva_libraries/ncurses/form/frm_def.c:198-213 | A page starts exactly at the first field and at the fields that ask for a new page. |
| `Forms.SortPages` | hva_libraries/ncurses/form/frm_def.c:227-249 | Sorting page after page leaves every page sorted; no page disturbs another. |
| `Forms.PageWalk` | hva_libraries/ncurses/form/frm_def.c:227-249 | From smin, snext leads through exactly the page's fields in visiting order to smax and back to smin; sprev links the two ends. |
| `Forms.ReadingOrder` | hva_libraries/ncurses/form/frm_def.c:79-113 | Of two fields on a page the walk meets the one in the higher row first, within a row the one further left, and of two in the same place the one later in the array. |
| `Forms.Connect` | hva_libraries/ncurses/form/frm_def.c:156-250 | The result code for every input; on success pages, order, size and ownership, on failure no more than claimed fields. |
| `Forms.OutcomeExact` | hva_libraries/ncurses/form/frm_def.c:175-196 | The order of the checks: a field that is taken or named twice, then no field or more than 32767, then the allocation. |
| `Forms.FormCovers` | hva_libraries/ncurses/form/frm_def.c:212-221 | A connected form has at least as many rows and columns as each of its fields reaches, if their extents fit in a short. |
| `Forms.Disconnect` | hva_libraries/ncurses/form/frm_def.c:123-143 | Fields of this form are released, those of other forms stay theirs, and the form is empty. |
| `Forms.NewForm` | hva_libraries/ncurses/form/frm_def.c:298-331 | A new form is fully connected, or every field is exactly as it was. |
| `TypeLedger.Ledger.AttachBalanced` | hva_libraries/ncurses/form/fld_def.c:215-240 | A field that takes a type keeps every count equal to its initial value plus its uses. |
| `TypeLedger.Ledger.DetachBalanced` | hva_libraries/ncurses/form/fld_def.c:250-259 | So does a field that gives its type up. |
| `TypeLedger.Ledger.AddTypeBalanced` | hva_libraries/ncurses/form/fld_ftlink.c:52-86 | So does a new type with two operands, the same one twice included. |
| `TypeLedger.Ledger.DropTypeBalanced` | hva_libraries/ncurses/form/fld_newftyp.c:124-147 | So does releasing a type whose count is zero, its operands' counts going down. |
| `TypeLedger.Ledger.ZeroIsUnused` | hva_libraries/ncurses/form/fld_newftyp.c:132-136 | A type whose count is zero is nobody's type and nobody's operand. |
| `RingLedger.Ledger.JoinSound` | hva_libraries/ncurses/form/fld_link.c:68-71 | Splicing a field in keeps the link pointers a partition into rings, one for each live buffer. |
| `RingLedger.Ledger.LeaveSound` | hva_libraries/ncurses/form/fld_def.c:369-382 | So does taking a field out, its buffer going if it was alone. |
| `RingLedger.Ledger.AloneIffSelfLinked` | hva_libraries/ncurses/form/fld_def.c:369 | A field leads to itself exactly if nobody shares its buffer. |
| `RingLedger.Ledger.JoinLeave` | hva_libraries/ncurses/form/fld_link.c:86-91 | Taking a field out again undoes its coming, so a failed link leaves no trace. |
| `FieldStore.Store.CopyType` | hva_libraries/ncurses/form/fld_def.c:215-240 | The copy takes the type and counts it, or takes none when the argument cannot be copied. |
| `FieldStore.Store.FreeType` | hva_libraries/ncurses/form/fld_def.c:250-259 | The type's count goes down by one, and the field is counted no more. |
| `FieldStore.Store.LinkBehind` | hva_libraries/ncurses/form/fld_link.c:68-71 | The two pointer writes put the field right behind the given one, sharing its buffer. |
| `FieldStore.Store.Leave` | hva_libraries/ncurses/form/fld_def.c:369-382 | A lone field's buffer is released, any other field is unlinked by the one before it. |
| `FieldStore.Store.FindBefore` | hva_libraries/ncurses/form/fld_def.c:378-380 | The walk around the ring ends, at the field that leads to the given one. |
| `FieldStore.Store.FreeField` | hva_libraries/ncurses/form/fld_def.c:357-399 | Result codes; a freed field leaves its ring and its type, as one step of the books; only a lone field's buffer goes. |
| `FieldStore.Store.constructor` | hva_libraries/ncurses/form/fld_def.c:66-67 | A store starts with the default field alone and with books that add up. |
| `FieldStore.Store.NewField` | hva_libraries/ncurses/form/fld_def.c:277-345 | A field alone in its ring with the default field's type and look and blank, closed buffers, as one step of the books, or no trace at all, for every combination of allocation failures and every argument. |
| `FieldStore.Store.LinkField` | hva_libraries/ncurses/form/fld_link.c:52-95 | A field right behind the given one that shares its buffer, type, size and look, as one step of the books, or no trace at all. |
| `FieldStore.Store.DupField` | hva_libraries/ncurses/form/fld_dup.c:51-100 | A field alone in its ring with the type, size and look and an equal copy of the buffers, as one step of the books, or no trace at all. |
| `FieldStore.Store.SetFieldType` | hva_libraries/ncurses/form/fld_type.c:49-81 | Moves a field's reference from one type to another, as one step of the books; a failure leaves it without a type. |
| `FieldStore.Store.Predefine` | hva_libraries/ncurses/form/fty_enum.c:410-413 | A predefined type is resident and counted once from the start. |
| `FieldStore.Store.NewFieldType` | hva_libraries/ncurses/form/fld_newftyp.c:74-112 | A fresh type with count zero, as one step of the books, or no trace. |
| `FieldStore.Store.LinkFieldType` | hva_libraries/ncurses/form/fld_ftlink.c:52-86 | A type over two counted operands, with the union of their capabilities, as one step of the books, or no trace. |
| `FieldStore.Store.FreeFieldType` | hva_libraries/ncurses/form/fld_newftyp.c:124-147 | Releases exactly types without references that are not predefined, as one step of the books; afterwards nothing refers to a released type. |
| `FormRuns.Books.StepSound` | hva_libraries/ncurses/form/fld_def.c:215-399 | Every step, and so every call on a store, keeps counts balanced, rings whole, and the two in agreement on which fields there are. |
| `FormRuns.Books.FieldsExact` | hva_libraries/ncurses/form/fld_def.c:215-399 | What each step does to types, link pointers and buffers of the fields, as maps: a new field gets the default field's type, a duplicate or linked one its model's; a linked field stands right behind its model; a freed one is skipped by the field that led to it. |
| `FormRuns.Books.TypesExact` | hva_libraries/ncurses/form/fld_ftlink.c:52-86 | And to the operands and initial counts of the types. |
| `FormRuns.ReleaseStep` | hva_libraries/ncurses/form/fld_def.c:369-373 | A step releases a buffer if and only if it frees the only field of its ring; released buffers are never in use. |
| `FormRuns.ReleasedOnce` | hva_libraries/ncurses/form/fld_def.c:357-399 | Over any run of steps a buffer is released at most once, and it is released exactly if it ends up so. |
| `FormRuns.RingsAreBuffers` | hva_libraries/ncurses/form/fld_link.c:52-95 | After any run two fields share a live buffer exactly if they are in the same ring. |
| `FormRuns.CountsUses` | hva_libraries/ncurses/form/fld_newftyp.c:124-147 | After any run a type's count is its initial value plus the fields and linked types that use it; at zero there are none. |
| `FieldBuffer.Prefill` | hva_libraries/ncurses/form/fld_def.c:319-333 | Every buffer is blank and closed by a terminator. |
| `FieldBuffer.SetFieldBuffer` | hva_libraries/ncurses/form/frm_driver.c:4747-4852 | The addressed buffer holds the value cut off or padded with blanks; no other cell changes; bad arguments change nothing. |
| `FieldBuffer.CopyCells` | hva_libraries/ncurses/form/fld_dup.c:88-89 | The copy equals the original. |
| `EnumMatch.SkipSpace` | hva_libraries/ncurses/form/fty_enum.c:216 | Stops at the first character from there on that is no blank, or at the end. |
| `EnumMatch.Compare` | hva_libraries/ncurses/form/fty_enum.c:234-274 | EXACT iff, leading blanks aside, the text is the keyword and then only blanks; PARTIAL iff not exact and the trimmed non-blank text begins the keyword. |
| `EnumMatch.SameExact` | hva_libraries/ncurses/form/fty_enum.c:259-262 | Without checkcase a letter is like itself in the other case; any other two characters are alike only if equal. |
| `EnumMatch.BlankMatches` | hva_libraries/ncurses/form/fty_enum.c:240-247 | A blank text matches a blank keyword exactly and any other not at all. |
| `EnumMatch.Parting` | hva_libraries/ncurses/form/fty_enum.c:264-273 | Where the texts part decides the match. |
| `EnumField.AcceptedOnce` | hva_libraries/ncurses/form/fty_enum.c:287-328 | At most one keyword is ever accepted, so the choice below is determined. |
| `EnumField.ChooseKeyword` | hva_libraries/ncurses/form/fty_enum.c:297-327 | With unique matching the first exact keyword, else the only partial one; without it the first match; -1 if there is none. |
| `EnumField.CheckEnumField` | hva_libraries/ncurses/form/fty_enum.c:287-328 | Accepts and shows that keyword, and otherwise changes nothing. |
| `EnumField.ScanForward` | hva_libraries/ncurses/form/fty_enum.c:354-358 | The loop leaves the index behind the first exact keyword and the number of keywords after it, or -1. |
| `EnumField.ScanBackward` | hva_libraries/ncurses/form/fty_enum.c:392-396 | The same from the other end. |
| `EnumField.NextEnum` | hva_libraries/ncurses/form/fty_enum.c:343-368 | Shows the successor keyword, the first one after the last and after a blank text, or changes nothing. |
| `EnumField.PreviousKeyword` | hva_libraries/ncurses/form/fty_enum.c:381-408 | Which keyword is loaded, for any list; it is looked for before the list exactly if there are no keywords and the text is blank. |
| `EnumField.PreviousEnum` | hva_libraries/ncurses/form/fty_enum.c:381-408 | In all other cases, shows the predecessor keyword, the last one before the first and before a blank text, or changes nothing. |
| `EnumField.ExactOnce` | hva_libraries/ncurses/form/fty_enum.c:343-408 | A text is at most one of keywords that differ in more than blanks and case. |
| `EnumField.StepsAreCyclic` | hva_libraries/ncurses/form/fty_enum.c:343-408 | From a text that is keyword j the steps lead to its neighbours around the list. |
| `EnumField.StepsExact` | hva_libraries/ncurses/form/fty_enum.c:343-408 | From the first, or last, keyword that the text is, the steps lead around the list. |
| `EnumField.StepsFromOther` | hva_libraries/ncurses/form/fty_enum.c:343-408 | From any other text they lead nowhere, from a blank one to the first and the last keyword. |
| `EnumField.StepsUndoEachOther` | hva_libraries/ncurses/form/fty_enum.c:343-408 | With keywords that differ and a field that is wide enough, each step undoes the other. |
| `Spi.CorrectOrderTwice` | hva_libraries/bcm2835/src/bcm2835.c:121-127 | Putting an octet into the other bit order twice gives it back. |
| `Spi.CorrectOrderExact` | hva_libraries/bcm2835/src/bcm2835.c:121-127 | Most significant bit first leaves an octet as it is; least significant bit first takes each bit to the other end. |
| `Spi.TransferExact` | hva_libraries/bcm2835/src/bcm2835.c:795-809 | So with the most significant bit first the wire carries the buffer itself and the device's octets come in as they are; otherwise each octet is mirrored on its way out and in. |
| `Spi.ReversedBits` | hva_libraries/bcm2835/src/bcm2835.c:85-119 | Reversal takes bit i to bit 7 - i. |
| `Spi.AnswerIsCausal` | hva_libraries/bcm2835/src/bcm2835.c:795-809 | What has been received does not depend on what is sent later. |
| `Spi.LoopBack` | hva_libraries/bcm2835/src/bcm2835.c:776-816 | A device that echoes gives the buffer back, in either bit order. |
| `Spi.Fill` | hva_libraries/bcm2835/src/bcm2835.c:797-802 | Sending until the FIFO is full: at any moment no more has been received than sent, so what is still to be sent has not been overwritten, even with one buffer. |
| `Spi.Drain` | hva_libraries/bcm2835/src/bcm2835.c:803-808 | Receiving until the FIFO is empty stores the answers to what has been sent, behind those already in. |
| `Spi.TransferNb` | hva_libraries/bcm2835/src/bcm2835.c:776-816 | For every schedule of FIFO states, and whether or not the buffers are the same: the wire carries the transmit buffer as it was, and the receive buffer gets the device's answers to it, each octet as it is or mirrored according to the bit order. It is done exactly if the schedule completes it. |
| `Spi.SteadyStatesComplete` | hva_libraries/bcm2835/src/bcm2835.c:792-812 | A transfer of n octets completes if more than 2n times two status reads in a row find what they wait for, and only if more than 2n reads do. |
| `Spi.TransferN` | hva_libraries/bcm2835/src/bcm2835.c:864-867 | One buffer ends up with what a separate receive buffer would have got. |
| `SysTimer.ReadingLiesInCall` | hva_libraries/bcm2835/src/bcm2835.c:1611-1642 | However far the counter gets, a reading lies between its values at the first and the last register access. |
| `SysTimer.ReadingIsExact` | hva_libraries/bcm2835/src/bcm2835.c:1611-1642 | The reading is the value at the access to the low word it uses exactly if the high word is still current then, and so whenever the counter advances by less than 2^32. |
| `SysTimer.SecondLookMatters` | hva_libraries/bcm2835/src/bcm2835.c:1629-1641 | A concrete carry between the accesses: the first branch's value would be off by 2^32, and the test takes the other branch, which is exact. |
| `SysTimer.ReadingsNeverGoBack` | hva_libraries/bcm2835/src/bcm2835.c:1611-1642 | Successive readings are monotone. |
| `SysTimer.WaitEndsFirst` | hva_libraries/bcm2835/src/bcm2835.c:1645-1651 | The wait ends exactly if some reading is not below the sum, and with the first such reading. |
| `SysTimer.Timer.StRead` | hva_libraries/bcm2835/src/bcm2835.c:1611-1642 | The register accesses compute that reading; 0 when the timer is not mapped. |
| `SysTimer.Timer.StDelay` | hva_libraries/bcm2835/src/bcm2835.c:1645-1651 | The wait ends at the first reading that is not below the 64-bit sum; the counter has then reached offset + micros if and only if that sum fits in 64 bits. On an unmapped timer only a wait for 0 ends. |
| `SysTimer.WaitEndsAtOnce` | hva_libraries/bcm2835/src/bcm2835.c:1645-1651 | A concrete wait that ends early: its sum is one past 64 bits, and it is over at the first reading. |

## Left out

- Drawing, windows and touch (`print*` in mesh_radio.c, terminal.c, hva_examples, rpitouch), the debug logs `broadcastMessages` and `dataMessages`, `nrf24L01.c` and `radioInit`: sending and receiving are packets in and out.
- `warnings.c`: branching over constants.
- Signal handlers that interrupt a function half way, and races on `isNewData`: ticks and calls are atomic.
- The memory that `createSnapshot` never frees.
- A claim that each occupied reassembly slot belongs to a live neighbour: a neighbour that is re-owned and then removed as a child is not passed to `dropSender`.
- Loop freedom of data forwarding without settled tables: packets carry no hop limit.
- SenderTable.SenderTable.SaveRemoteNeighborTable: the parallel arrays `senders`, `slotOccupied` and `addressMapping` are one array of records, and a slot's bytes and their count one sequence.
- MeshNode.MeshNode.DoRead: packets of less than four bytes, for which `packetLength - 4` wraps around and a data packet for this node makes `saveReceivedData` read past `received_packet`.
- Forms.Connect: arrays of 65536 fields or more, whose count a short cannot tell from a smaller one; the null-terminated array of fields and `form->page` are sequences; `form->curpage`, `current` and the call of `form_driver` in `Associate_Fields` are not modelled.
- FieldStore.Store.FreeField: freeing the memory of the field record itself.
- FieldStore.Store.CopyType: the type argument, whose copy is an opaque success or failure.
- FieldStore.Store.FreeType: releasing the memory of the type argument.
- FieldStore.Store.SetFieldType: type arguments are an opaque success or failure; `_nc_Copy_Argument` recurses on the same type for linked types, and is not followed.
- FieldBuffer.SetFieldBuffer: growable fields, the synchronisation with the screen and the wide-character build are not modelled.
- EnumField.PreviousEnum: what the field shows after a keyword has been read from before an empty list; `EnumField.PreviousKeyword` says exactly when that happens.
- EnumField.CheckEnumField: a keyword list whose copy could not be allocated is modelled as an empty list.
- Spi.TransferNb: registers are reduced to the two FIFOs and the status bits; a schedule that ends before the transfer stands for one that never ends. `Reversed` computes the bit-reversal that the source reads from a table of 256 literals.
- SysTimer.Timer.StRead: the 64-bit wrap of the counter after half a million years is not modelled; a list of counter values that ends before the wait stands for one that never ends.
- The rest of bcm2835.c and of the form library, and all build metadata.
