# Verified model of the MultiMadness input core

MultiMadness mirrors one keyboard and mouse into up to 32 game windows. A hook thread filters captured input and
pushes it into a single-producer/single-consumer ring; a broadcaster thread pops it, decides for each event which
windows get a copy and what has to be repaired afterwards, and carries that out on the desktop. A session object lays
the windows out and rotates which of them is the master. This project models that core in Dafny and proves what it
keeps, over every interleaving and every run where the source is concurrent or stateful.

`dafny verify dfyconfig.toml` checks everything.

## The parts

- **Ring** (`RingProtocol`, `SpscRing`). `push` and `pop` are split into their single atomic accesses. Each side may
  load a stale (never decreasing) value of the other's counter, counters wrap at a modulus, and a slot read may return
  any write that the acquired head does not order before a later one. Every interleaving refines a bounded FIFO queue.
  The class `SpscRing` holds the real array and wrapped counters, and each of its calls is a run of the protocol.
- **Pipeline** (`Capture`, `KeyStates`, `Pipeline`, `ClosedLoop`, `Drops`). Hook callbacks, ring steps, wake event and
  drain loop as one step system: no lost wakeup, agreement of the two key tables, independence from re-captured own
  output, and the exact damage done by a drop.
- **Configuration** (`ConfigSnapshots`). Setters and the broadcaster's refresh, field by field around the lock and the
  unlocked version load: snapshots are whole, never go back, and a handled swap is in force.
- **Dispatch and execution** (`Routing`, `Dispatch`, `Desktop`, `Broadcaster`, `MasterView`, `TargetStreams`,
  `Deliveries`, `Recovery`, `SwapPress`, `EndToEnd`, `Witnesses`). The plan
  of an event and its execution against an abstract desktop: one foreground window, one set of pressed game keys per
  window which focus loss clears (`docs/M0-FINDINGS.md:71`). Liveness and the outcome of every focus switch are chosen
  by an arbitrary environment.
- **Layout and rotation** (`Layout`, `Assignments`, `Rotation`, `Session`, `Placement`). Exact tilings, permutations of
  slots, and what any number of swap presses does.
- **Numbers** (`Geometry`, `LatencyStats`, `Arithmetic`, `Sequences`). Coordinate maps and the latency histogram.

Loops, arrays and mutable fields of the source are methods and classes here, each proved against a function of the old
state; the lemmas are about those functions.

## Where the code does not do what one would expect

Each point has its exact condition, and an input at which the code fails.

- `docs/ARCHITECTURE.md:157` asks the broadcaster never to assume that a focus switch happened. The held keys are
  nevertheless re-asserted when restoring the master's focus has failed, and then go to whatever window is in front.
  `TargetReceives`, `StraysNeedFailedRestore` and `FailedRestoreStrays`: a slave's window is given its own events and
  nothing else exactly when no cycle ended with that window in front and keys held, which takes a failed restore and
  follows from every one. `RestoreCanFail`: one key press goes into the slave twice.
- A focus cycle presses the held keys in the master's game but releases nothing. `RepairIffRestored`: while the master
  window lives, the view is repaired exactly when the restore succeeded and the game has no released key left over.
  Only a swallowed release leaves one (`RunStaysUnstuck`), and only a cycle in which no slave got the focus keeps it
  (`GrantedCycleRepairs`). `KeyCanStayDown`: after the swap key is released, a click mirrored to a slave that refuses
  the focus leaves that key down in the master's game, its focus restored.
- Held keys are re-injected whether or not the hook swallows them. `RepairHidesSwallowedIffNoneHeld`: a repair leaves
  the master's game with the keys it should see exactly when no swallowed key is held and none is left over.
  `SwallowedKeyCanShow` is a case.
- A wheel event carries its deltas where other pointer events carry the position, and the cursor repair uses those
  fields for both. `CursorAfterHook`: a button event brings the cursor back; a wheel event does exactly when the cursor
  was at the pixel its deltas come down to on the screen. `ScrollMovesCursor` is a case.
- A swap press is not followed by a re-assertion. `HandoverShows`: a new master's game never has the held keys after a
  handover; it is as it should be exactly when its window ended up in front and no unswallowed key is held.
  `NextCycleRepairsHandover`: the next focus cycle repairs that. `HandoverCanLoseKeys` is a case.
- A refused transition desynchronises the two key tables until the next one. `DropParity`: with nothing pending they
  agree on a key exactly when the number of its transitions refused in a row is even. `DropsCanDesynchronise` is a run.

Two limits that callers set themselves: the point maps round-trip on an axis exactly when the target is at least as
large (`AxisRoundTripsIffFineEnough`), and picture in picture, which always shows each pixel of the area once
(`PipCoversOnce`), stays inside the area exactly when the strip is no thicker than it (`PipStaysInsideIffFits`).

## Model

| member | source | states |
|---|---|---|
| RingProtocol.PowersOfTwoFit | core/include/mm/spsc_ring.hpp:15 | every power-of-two capacity of at least 2 below the counter range divides that range, so it is a shape for which the ring theorems hold |
| RingProtocol.DistanceIsExact | core/include/mm/spsc_ring.hpp:25 | the difference of two wrapped counters is their true distance, and they are equal only at distance 0, after any number of wraps |
| RingProtocol.SlotIsExact | core/include/mm/spsc_ring.hpp:29-39 | masking a wrapped counter gives the slot of the unbounded position |
| RingProtocol.ProducerKeepsInv | core/include/mm/spsc_ring.hpp:22-32 | every single step of `push`, with any stale tail, keeps the ring invariant |
| RingProtocol.ConsumerKeepsInv | core/include/mm/spsc_ring.hpp:35-42 | every single step of `pop`, with any stale head and any slot value the memory order permits, keeps the ring invariant |
| RingProtocol.CopyReturnsOldest | core/include/mm/spsc_ring.hpp:37-39 | the memory model lets the slot read return the oldest unread element and nothing else |
| RingProtocol.RunKeepsInv | core/include/mm/spsc_ring.hpp:22-42 | the invariant holds in every state of every interleaving |
| RingProtocol.RunIsBoundedFifo | core/include/mm/spsc_ring.hpp:22-42 | in every interleaving popped followed by in flight is what was accepted, in order, and at most `Capacity` are in flight |
| RingProtocol.ProducerStepOnQueue | core/include/mm/spsc_ring.hpp:25-31 | the head store appends the value to a queue that has room, a refusal only counts a drop, other steps do nothing to the queue |
| RingProtocol.ConsumerStepOnQueue | core/include/mm/spsc_ring.hpp:38-41 | the tail store removes the oldest element and hands it out, other steps do nothing to the queue |
| RingProtocol.RejectMeansFull | core/include/mm/spsc_ring.hpp:25-28 | the full test succeeds exactly when `Capacity` elements lie beyond the tail position loaded |
| RingProtocol.WriteNeverTouchesUnread | core/include/mm/spsc_ring.hpp:29 | the slot being written is none that the consumer may still read |
| RingProtocol.EarlierReadsAreAcquired | core/include/mm/spsc_ring.hpp:24-29 | and whatever was read from it before was read below the tail the producer has acquired |
| RingProtocol.SizeFromProducer | core/include/mm/spsc_ring.hpp:44-46 | on the producer's thread `size()` is between the true occupancy and `Capacity` |
| RingProtocol.SizeFromConsumer | core/include/mm/spsc_ring.hpp:44-46 | on the consumer's thread `size()` is between 0 and the true occupancy |
| SpscRing.SpscRing.constructor | core/include/mm/spsc_ring.hpp:54-57 | a new ring is empty |
| SpscRing.SpscRing.Size | core/include/mm/spsc_ring.hpp:44-46 | the wrapped difference is the number of elements |
| SpscRing.SpscRing.Push | core/include/mm/spsc_ring.hpp:22-32 | appends when there is room, otherwise leaves the contents and counts one drop; a run of the producer's protocol steps |
| SpscRing.SpscRing.Pop | core/include/mm/spsc_ring.hpp:35-42 | takes the oldest element, or reports empty exactly when the ring is; a run of the consumer's protocol steps |
| KeyStates.KeyState.Apply | core/include/mm/key_state.hpp:24-44 | reports exactly the real transitions, changes only that key, records a press's scan code and flags, and keeps the held count equal to the number of down keys |
| KeyStates.KeyState.ForEachDown | core/include/mm/key_state.hpp:49-54 | hands over the held keys with their records, as the walk about which the next lemma speaks |
| KeyStates.HeldInOrderIsHeld | core/include/mm/key_state.hpp:49-54 | that walk meets exactly the held keys, each once, ascending, with the scan code and flags in the table |
| KeyStates.KeyState.Clear | core/include/mm/key_state.hpp:56-59 | releases everything |
| KeyStates.DownIsLastPolarity | core/include/mm/key_state.hpp:24-46 | after any events at all a key is down iff its last transition event was a press |
| KeyStates.HeldRecord | core/include/mm/key_state.hpp:27-33 | a held key's record is that of the press that took it down, of which it has been down ever since |
| KeyStates.EffectiveAlternates | core/include/mm/key_state.hpp:22-42 | in a filtered stream each key goes down, up, down, ..., and is down after an odd number |
| Capture.FeedbackNonInterference | core/src/win/capture.cpp:102-125 | offered stream and key table are those of the input with own and ignored foreign injections removed, however interleaved |
| Capture.StreamRebuildsTable | core/src/win/capture.cpp:115-125 | the offered stream contains only real transitions, and applying it anew rebuilds the hook's table |
| Capture.KeyOffered | core/src/win/capture.cpp:102-125 | a key input is offered iff it is neither stamped nor unwanted foreign and its polarity differs from the table's; then as the record of its code, scan code, polarity and the two flags |
| Capture.MouseOffered | core/src/win/capture.cpp:129-159 | a mouse input is offered iff it is neither stamped nor unwanted foreign, known, and not an unwanted move; then with its own button and place, or its wheel delta on its own axis |
| Capture.Capture.SetSwallow | core/src/win/capture.cpp:36-38 | sets one key's swallow flag, ignoring codes out of range |
| Capture.Capture.Publish | core/src/win/capture.cpp:96-100 | the event goes to the ring or is counted as dropped, and the consumer is signalled in both cases |
| Capture.Capture.OnKey | core/src/win/capture.cpp:102-127 | filtered input is never blocked and changes nothing; other input is blocked iff its code is swallowed, and a real transition goes to table and ring as its record |
| Capture.Capture.OnMouse | core/src/win/capture.cpp:129-161 | never blocks; unfiltered, known, wanted input goes to the ring as its record, anything else changes nothing |
| Pipeline.RunKeepsInv | core/src/win/broadcaster.cpp:63-71 | ring, wake and history invariants hold in every interleaving of hook and broadcaster |
| Pipeline.NoLostWakeup | core/src/win/broadcaster.cpp:65-69 | a broadcaster parked over a non-empty ring finds the event set or a SetEvent still owed |
| Pipeline.ReplicasAgree | core/src/win/broadcaster.cpp:83-84 | until a drop, applying the pending events to the broadcaster's key table gives the hook's table: down, scan and flags |
| Pipeline.PublishedStreamAlternates | core/src/win/capture.cpp:114-125 | every key's offered (and, until a drop, published) stream alternates down, up, starting with down |
| Pipeline.OffersAreExternal | core/src/win/capture.cpp:102-107 | in every run the offers and the hook's table are those of the input not ignored |
| ClosedLoop.EchoChangesNothing | core/src/win/inject.cpp:14-67 | the stamped echo of any injections, interleaved with external input in any way, changes neither the hook's table nor its stream |
| ClosedLoop.ClosedLoopAddsNothing | core/src/win/capture.cpp:102-125 | in every run over external input and such an echo, table and offers are those of the external input, and until a drop the events handled and pending are exactly its stream |
| EndToEnd.SlaveGetsExternalInput | core/src/win/broadcaster.cpp:63-93 | in every drop-free run, with any echo, what goes into a slave's window is the granted part of a prefix of the external input's stream, and nothing else iff no cycle gave it held keys |
| Pipeline.MasterTracksHandled | core/src/win/broadcaster.cpp:84 | with any drops, the broadcaster has a key down iff the last handled transition was a press |
| Pipeline.DropParity | core/src/win/capture.cpp:96-98 | with nothing pending for a key, the tables agree on it iff an even number of its latest transitions in a row were refused |
| Drops.DropsCanDesynchronise | core/src/win/capture.cpp:96-98 | for every ring and settings there is a run after which they differ: fill the ring, press a key |
| Pipeline.AcceptedTransitionResynchronises | core/src/win/capture.cpp:115-125 | once the latest transition of a key was accepted and handled, the tables agree on it again |
| ConfigSnapshots.RunKeepsInv | core/src/win/broadcaster.cpp:15-26 | the pending fields are the latest configuration plus exactly what the lock holder has already written, and the version of the latest swap published what its callback was told |
| ConfigSnapshots.SnapshotIsWhole | core/src/win/broadcaster.cpp:73-81 | the copies in use are one published configuration, of a version between the recorded and the current one; equal versions mean the latest |
| ConfigSnapshots.SnapshotsNeverGoBack | core/src/win/broadcaster.cpp:73-81 | recorded version and configuration in use never decrease |
| ConfigSnapshots.SwapTakesEffect | core/src/win/broadcaster.cpp:113-121 | after a swap callback the broadcaster uses the targets and master that callback was told to publish, unless targets were set again since |
| ConfigSnapshots.LatestRoutes | core/src/win/broadcaster.cpp:15-19 | a published configuration has the routes of the latest set_routes, or the first ones |
| Routing.Routes.constructor | core/include/mm/routing.hpp:57-72 | new routes bind nothing |
| Routing.Routes.AddKey | core/include/mm/routing.hpp:32-40 | the table becomes the old one with the key's binding added or replaced, and grows only for a new key |
| Routing.Routes.Find | core/include/mm/routing.hpp:42-45 | the entry for the key if there is one, nothing iff there is none |
| Routing.Routes.Swallows | core/include/mm/routing.hpp:47-51 | true exactly for the swap key, when set, and for keys with an entry that swallows |
| Routing.LatestBindingWins | core/include/mm/routing.hpp:31-40 | after any additions a key's binding is the last one added for it |
| Routing.Routes.EntriesFitIndex | core/include/mm/routing.hpp:65-66 | there are never more than 256 entries, so positions fit the 16-bit index |
| Dispatch.AddDeliveries | core/include/mm/dispatch.hpp:35-45 | appends one delivery per bit of targets, alive and not master, and says whether there was one |
| Dispatch.MakePlan | core/include/mm/dispatch.hpp:49-85 | computes, step by step, the plan about which the next five lemmas speak |
| Dispatch.KeyPolicy | core/include/mm/dispatch.hpp:53-68 | the swap key only swaps, on its press; an unbound key does nothing; a bound one is delivered exactly to its binding's live targets but the master, by its binding's strategy |
| Dispatch.PointerPolicy | core/include/mm/dispatch.hpp:70-80 | buttons and wheel do nothing while a modifier is set and up; otherwise they are delivered exactly to the live mouse targets but the master, by the mouse strategy |
| Dispatch.OtherPolicy | core/include/mm/dispatch.hpp:82-84 | moves are never broadcast |
| Dispatch.PlanDeliversToEligible | core/include/mm/dispatch.hpp:49-80 | a plan delivers exactly to the eligible instances, with the right strategy, ascending, before any repair |
| Dispatch.PlanRepairsWhatItBreaks | core/include/mm/dispatch.hpp:62-78 | focus is restored iff some delivery cycles it, and then the plan ends with cursor (pointer only), focus, held keys (if any) |
| Dispatch.SentIsEligibleStream | core/include/mm/dispatch.hpp:49-85 | over any run with fixed routes and master, what the plans send to an instance is the popped stream filtered by eligibility, each event once, in order |
| Broadcaster.Broadcaster.constructor | core/include/mm/win/broadcaster.hpp:70-89 | starts with empty routes and targets, published version 1 and seen version 0 |
| Broadcaster.Broadcaster.SetRoutes | core/src/win/broadcaster.cpp:15-19 | publishes routes under a new version |
| Broadcaster.Broadcaster.SetTargets | core/src/win/broadcaster.cpp:21-26 | publishes targets and master under a new version |
| Broadcaster.Broadcaster.RefreshConfig | core/src/win/broadcaster.cpp:73-81 | takes over all three published fields and the version iff that changed, and touches nothing otherwise |
| Broadcaster.Broadcaster.BringToForeground | core/src/win/focus.cpp:18-35 | success iff the wanted window exists and is in front afterwards, wherever the switch attempts land |
| Broadcaster.Broadcaster.ReassertHeld | core/src/win/broadcaster.cpp:171-173 | presses the held keys in ascending order, nothing else |
| Broadcaster.Broadcaster.DeliverTo | core/src/win/broadcaster.cpp:127-169 | posts to the target, or injects into it after a successful switch, with a latency sample, a count, and an inject failure iff one of its calls reports failure; or counts a focus failure and nothing else |
| Deliveries.KeyIsPosted | core/src/win/broadcaster.cpp:132-134 | by window message the desktop gains exactly one post: the key with its code, scan code, polarity and flags |
| Deliveries.ClickIsPosted | core/src/win/broadcaster.cpp:136-140 | exactly one post: the button with its polarity, in client coordinates of a place inside the target, the master's own when mapped back |
| Deliveries.WheelIsPosted | core/src/win/broadcaster.cpp:141-143 | the vertical and then the horizontal turn, each iff there is one, at a place inside the target |
| Deliveries.KeyIsInjected | core/src/win/broadcaster.cpp:151-152 | after a granted switch exactly one stroke goes into the target: the key with its code, scan code, polarity and flags |
| Deliveries.ClickIsInjected | core/src/win/broadcaster.cpp:154-159 | exactly two inputs: the cursor to the place, then the button with its polarity |
| Deliveries.WheelIsInjected | core/src/win/broadcaster.cpp:154-160 | the cursor to the place, then the vertical and the horizontal turn, each iff there is one |
| Deliveries.ReassertionInjects | core/src/win/broadcaster.cpp:171-173 | re-asserting injects one press per held key, with its recorded scan code and flags, in ascending order, and nothing else |
| Deliveries.DeliveryCounts | core/src/win/broadcaster.cpp:146-168 | a refused switch is one focus failure and nothing else; any other delivery is counted once, timed from the event's stamp, and is an inject failure iff one of its calls reports failure |
| Deliveries.RestoreCounts | core/src/win/broadcaster.cpp:101-106 | a restore changes nothing without a master, and otherwise adds a focus failure iff the master's window does not exist or is not in front afterwards |
| Deliveries.PlannedWindowExists | core/src/win/broadcaster.cpp:87-91 | deliveries are planned only for the first 32 targets, other than the master, whose window exists when the event is handled |
| Deliveries.KeysFollowEvents | core/src/win/broadcaster.cpp:83-85 | over any run, targets or none, the key table is that of all events handled |
| Broadcaster.Broadcaster.CallSwap | core/src/win/broadcaster.cpp:113-121 | the callback's targets and master are published, its window is brought forward, and they are taken over at once |
| Broadcaster.Broadcaster.Execute | core/src/win/broadcaster.cpp:95-125 | carries out the actions in order |
| Broadcaster.Broadcaster.ObserveAlive | core/src/win/broadcaster.cpp:87-90 | exactly the indices below 32 of targets that have a window that exists now |
| Broadcaster.Broadcaster.Handle | core/src/win/broadcaster.cpp:83-93 | applies the event to the key table, plans and executes; with no targets only the key table changes |
| Broadcaster.Broadcaster.Drain | core/src/win/broadcaster.cpp:67-69 | one round takes over the configuration, handles exactly the ring's events in order, and leaves the ring empty |
| Desktop.BringFacts | core/src/win/focus.cpp:18-35 | success iff the wanted window exists and is in front afterwards; the only keys lost are those of the window in front, exactly when the foreground moved; nothing is injected |
| MasterView.InjectionsHitTheirTarget | core/src/win/broadcaster.cpp:145-152 | over any run, with any focus failures and swaps, a focus delivery only ever injects while its own target is in front |
| MasterView.ReassertFollowsForeground | core/src/win/broadcaster.cpp:171-173 | re-asserting adds exactly the held keys to the window in front and to no other |
| MasterView.CycleShows | core/src/win/broadcaster.cpp:95-112 | after any focus cycle the master shows given keys iff its window is in front and those are the held keys and what its game had left over; every other window has none |
| MasterView.RepairRestoresMaster | core/src/win/broadcaster.cpp:95-112 | after any focus cycle, whatever the slaves did, a successful restore leaves the master in front with the held keys and the left-over ones down, so with exactly the held keys iff no released key was left over |
| MasterView.FailedRestoreLeaksHeldKeys | core/src/win/broadcaster.cpp:101-112 | when the restore fails the held keys are pressed in another window |
| MasterView.RepairIffRestored | core/src/win/broadcaster.cpp:101-112 | with a live master window, the master's view is back iff the restore succeeded and no released key was left over |
| MasterView.RepairHidesSwallowedIffNoneHeld | core/src/win/broadcaster.cpp:171-173 | the repaired game sees what it should iff no held key is a swallowed one and no released key was left over |
| Recovery.RunStaysSilent | docs/M0-FINDINGS.md:71 | in every run at all, only the window in front has keys down, which is the standing assumption of the lemmas about one event |
| Recovery.GrantLeavesNothing | core/src/win/broadcaster.cpp:95-112 | a cycle in which some slave was granted the focus leaves nothing over |
| Recovery.GrantedCycleRepairs | core/src/win/broadcaster.cpp:95-112 | so then a live master's view is back iff the restore succeeded |
| Recovery.RunStaysUnstuck | core/src/win/broadcaster.cpp:83-125 | over any run, with failed restores and swaps, no game has a key down that is not held, unless a swallowed release found its key in the game |
| Recovery.ViewRecovers | core/src/win/broadcaster.cpp:83-125 | so after any such run the next focus cycle brings a live master's view back iff it brings its window back |
| MasterView.CycleAccounted | core/src/win/broadcaster.cpp:102-105 | in a focus cycle every planned delivery is counted once, as a delivery or a focus failure, and a failed restore as one more failure |
| MasterView.PointerCycleCursor | core/src/win/broadcaster.cpp:107-109 | a pointer cycle leaves the cursor where the event's own coordinates say |
| MasterView.CursorRestoredIffEventSaysSo | core/src/win/broadcaster.cpp:107-109 | the cursor is back at a position iff the event's fields, on the screen or off it, have the same nearest pixel |
| MasterView.CursorAfterHook | core/src/win/capture.cpp:137-151 | of what the hook captures, button events bring the cursor back, and wheel events iff the cursor was at the pixel nearest to their deltas |
| MasterView.EveryDeliveryIsTimed | core/src/win/broadcaster.cpp:164-167 | over any run there is one latency sample per delivery counted |
| MasterView.CalmRunKeepsView | core/src/win/broadcaster.cpp:83-125 | over any run of unswallowed input in which each cycle restores the master, physical and re-asserted keys together keep the master's game equal to the held keys |
| SwapPress.PressEffect | core/src/win/broadcaster.cpp:113-121 | the whole state after a swap press: configuration published and already in use for the next event, one switch to the callback's window, nothing re-asserted |
| SwapPress.UnansweredPress | core/src/win/broadcaster.cpp:113-121 | without a callback a swap press only brings the configuration up to date |
| SwapPress.SwapShows | core/src/win/broadcaster.cpp:113-121 | after a swap press the new master is in view with given keys iff its window ends up in front and those are the keys it kept |
| SwapPress.InViewAfterSwap | core/src/win/broadcaster.cpp:113-121 | its view is in step iff it was in front all along with all held keys, the swap key included |
| SwapPress.HandoverShows | core/src/win/broadcaster.cpp:113-121 | when another window becomes the master's, its game never has the held keys, and sees what it should iff it is in front and that is nothing |
| SwapPress.NextCycleRepairsHandover | core/src/win/broadcaster.cpp:95-125 | after a handover and any input that cycles nothing, the next focus cycle whose restore succeeds puts the new master's view in step |
| SwapPress.BroadcasterFollowsSession | core/tools/mm_core.cpp:351-365 | with nobody exiting, over any run the broadcaster works with the session's live windows and its master after as many presses as the run contains |
| SwapPress.RunOfARound | core/tools/mm_core.cpp:351-365 | so k presses make it work for the k-th live instance, and a round brings the first master back |
| TargetStreams.HandledLogs | core/src/win/broadcaster.cpp:83-112 | everything that handling one event puts into a target's window, for whatever reason: the event if it is granted, then the held keys if a cycle ends with that window in front |
| TargetStreams.TargetReceives | core/src/win/broadcaster.cpp:83-173 | over any run without a swap press, the keys, clicks and wheel turns that go into a target's window are exactly the granted events, in order, each once, iff no cycle gave it held keys; and it is posted exactly the eligible window-message events |
| TargetStreams.StraysNeedFailedRestore | core/src/win/broadcaster.cpp:101-112 | a cycle gives held keys to another window than the master's only after its restore failed |
| TargetStreams.FailedRestoreStrays | core/src/win/broadcaster.cpp:101-112 | with a live master and keys held, the restore failed iff some other window is given the held keys |
| TargetStreams.RestoredRunHasNoStrays | core/src/win/broadcaster.cpp:83-173 | when every cycle of the run gets the master back, a slave's window is given exactly its granted events |
| Witnesses.RestoreCanFail | core/src/win/broadcaster.cpp:101-112 | with a master that is alive and a slave that keeps the focus, one key press goes into the slave twice and the master's view is lost |
| Witnesses.SwallowedKeyCanShow | core/src/win/broadcaster.cpp:171-173 | a swallowed key, mirrored by a cycle that works, is down in the master's game afterwards |
| Witnesses.KeyCanStayDown | core/src/win/broadcaster.cpp:101-112 | from a view in step, a swallowed release and a click leave that key down in the restored master's game with no key held |
| Witnesses.HandoverCanLoseKeys | core/src/win/broadcaster.cpp:113-121 | from a view in step, a swap brings the new master in front without a held key that its game should see |
| Witnesses.ScrollMovesCursor | core/src/win/capture.cpp:150-151 | scrolling down in the middle of a 1920 x 1080 desktop leaves the cursor elsewhere, clicking there does not |
| TargetStreams.GrantedThinsDue | core/src/win/broadcaster.cpp:146-150 | the granted events are the eligible focus-cycled events with the refused ones left out, and all of them when the focus is never refused |
| TargetStreams.GrantedKeyReachesGame | core/src/win/broadcaster.cpp:146-152 | a granted key event puts exactly that key into the target game's state with the event's polarity, the target being in front |
| TargetStreams.PostedClick | core/src/win/broadcaster.cpp:136-140 | a click inside the master is posted inside the target's client area, at the place that maps back to the master's pixel when the target is at least as large |
| TargetStreams.InjectedClick | core/src/win/broadcaster.cpp:154-159 | the injected cursor units decode to that place on the screen, and the button follows the move |
| Layout.DeriveGrid | core/include/mm/layout.hpp:31-36 | terminates with the smallest square that fits and the fewest rows for it |
| Layout.DerivedGridFits | core/include/mm/layout.hpp:30-36 | columns are tight, rows are columns or one fewer, and fewer than one row's worth of cells is empty |
| Layout.DerivedGridIsMinimal | core/include/mm/layout.hpp:30-36 | no grid with room for n has a smaller rows + cols |
| Layout.PartIsUnique | core/include/mm/layout.hpp:56-59 | of the parts an axis is cut into, exactly one holds a given pixel |
| Layout.PartSizes | core/include/mm/layout.hpp:56-59 | parts stay inside the axis and differ in size by at most one |
| Layout.GridTiles | core/include/mm/layout.hpp:51-61 | a cell contains a pixel iff the pixel is in the area and the cell is the one given by its row and column part; cells are therefore disjoint and inside, and a full grid covers the area |
| Layout.GridCellSize | core/include/mm/layout.hpp:55-60 | cells of an axis differ by at most one pixel, and slots beyond the grid have zero size |
| Layout.GridIsRowMajor | core/include/mm/layout.hpp:53-60 | slot 0 is top left, the next slot is the right neighbour, the slot a row on is below |
| Layout.UnsignedCutIsExact | core/include/mm/layout.hpp:82-87 | the unsigned 64-bit cut of a strip is the exact one for every non-negative 32-bit length |
| Layout.NegativeCutGoesAstray | core/include/mm/layout.hpp:82-87 | for a negative length it is not: a length of -1 is cut in three at 0x55555555 |
| Layout.PipTiles | core/include/mm/layout.hpp:65-91 | for every edge, when the strip is no thicker than the area, a rectangle shows a pixel iff the pixel is in the area and the rectangle is the one given by its place |
| Layout.PipCoversOnce | core/include/mm/layout.hpp:65-91 | each pixel of the area is in exactly one rectangle, whatever the thickness of the strip |
| Layout.PipStaysInsideIffFits | core/include/mm/layout.hpp:65-91 | no rectangle shows a pixel outside the area iff the strip is no thicker than the area |
| Layout.FillGrid | core/include/mm/layout.hpp:52-61 | fills every slot with its cell |
| Layout.FillPip | core/include/mm/layout.hpp:76-90 | fills every slot with the main rectangle or its thumbnail |
| Layout.ComputeLayout | core/include/mm/layout.hpp:39-95 | one rectangle per slot: the whole area when stacked, the cell in the grid asked for, the area without the strip as the main picture; the strip as thick as asked for, otherwise a fifth of the shorter side |
| Assignments.InstanceAtInverts | core/include/mm/layout.hpp:110-113 | on a permutation the search inverts the assignment, and finds someone in every slot |
| Assignments.SetMasterEffect | core/include/mm/layout.hpp:121-125 | any index keeps a permutation; an existing instance becomes master and trades slots with the old one, nobody else moves |
| Assignments.EraseKeepsPermutation | core/include/mm/layout.hpp:128-133 | slots stay 0..n-2 |
| Assignments.EraseKeepsOrder | core/include/mm/layout.hpp:127-133 | erasing also keeps the relative slot order of all others |
| Assignments.Assignment.constructor | core/include/mm/layout.hpp:100-105 | starts as the identity |
| Assignments.Assignment.Reset | core/include/mm/layout.hpp:102-105 | back to the identity |
| Assignments.Assignment.Find | core/include/mm/layout.hpp:110-113 | first instance in the slot, or the largest index when there is none |
| Assignments.Assignment.Swap | core/include/mm/layout.hpp:117-119 | exchanges two slots, ignoring indices out of range, and keeps a permutation |
| Assignments.Assignment.SetMaster | core/include/mm/layout.hpp:122-125 | the assignment with that master; keeps a permutation |
| Assignments.Assignment.Erase | core/include/mm/layout.hpp:128-133 | the compacted assignment; keeps a permutation |
| Session.Session.constructor | core/tools/mm_core.cpp:302-318 | with 1 to 32 instances, nobody exited, and the requested master, or the first instance when there is no such one |
| Session.Session.MasterIsMaskBit | core/tools/mm_core.cpp:212-221 | in every session state the master is a legal mask bit and every window has a layout slot of its own |
| Session.Session.OnSwap | core/tools/mm_core.cpp:351-365 | the first live instance after the master takes over (the master itself when nobody is left), is published with the windows of all live instances, and its own window is the one brought forward |
| Session.Session.Targets | core/tools/mm_core.cpp:235-240 | the windows of the instances that have not exited, none for the others |
| Session.Session.MarkExited | core/tools/mm_core.cpp:392-404 | marks exactly the instances gone, for good, and reports whether anything changed |
| Session.RingFacts | core/tools/mm_core.cpp:356-359 | the live instances from a live master on, each exactly once |
| Session.NextOnRing | core/tools/mm_core.cpp:356-359 | a press goes from each of them to the next, skipping the dead, and from the last to the first |
| Session.RoundOfSwaps | core/tools/mm_core.cpp:351-362 | L presses make each of L live instances master once, bring the first one back, move the other live slots on by one, and move no dead instance |
| Session.SwapsRestoreTheAssignment | core/tools/mm_core.cpp:351-362 | L*(L-1) presses restore the whole assignment |
| Session.DeadStayPut | core/tools/mm_core.cpp:356-361 | under a live master no number of presses moves a dead instance or makes one master |
| Session.DeadMasterYields | core/tools/mm_core.cpp:356-361 | one press replaces a dead master by a live instance that trades slots with it |
| Rotation.RotationUnderway | core/include/mm/layout.hpp:122-125 | where everybody is after k presses within a round |
| Rotation.FullRound | core/include/mm/layout.hpp:122-125 | a round keeps the cycle of successors and shifts all but the master by one |
| Placement.WindowsTile | core/tools/mm_core.cpp:216-221 | whatever the assignment has become, each pixel of an occupied slot shows exactly one window, that of the slot's holder, and no window leaves the area |
| Placement.SwapTradesWindows | core/tools/mm_core.cpp:214-221 | a swap exchanges two windows' rectangles and leaves all others in place |
| Geometry.RealRounding | core/include/mm/geometry.hpp:35-41 | the maps' expression is rounding to the nearest point, halves up |
| Geometry.DenormalizeLandsInside | core/include/mm/geometry.hpp:35-44 | for any fractions the point lies inside a non-empty client |
| Geometry.PointRoundTrip | core/include/mm/geometry.hpp:25-44 | every in-client point survives master to target to master when the target is at least as large per axis |
| Geometry.AxisRoundTripsIffFineEnough | core/include/mm/geometry.hpp:25-44 | on one axis all points survive iff the target is at least as large |
| Geometry.OutsideGoesToTheEnds | core/include/mm/geometry.hpp:25-43 | positions left of the master's client go to the target's first pixel, positions right of it to its last; an empty client parts them at its origin |
| Geometry.AbsoluteRecoversPixel | core/include/mm/geometry.hpp:52-60 | for extents 2 to 65536 nearest-pixel decoding recovers the pixel |
| Geometry.AbsoluteStrictlyMonotone | core/include/mm/geometry.hpp:52-60 | for those extents larger pixels get strictly larger units |
| Geometry.SameUnitsIffSamePixel | core/include/mm/geometry.hpp:52-60 | positions get the same units iff they have the same nearest pixel, for extents 1 to 65536, off-screen positions included |
| Geometry.AbsoluteEnds | core/include/mm/geometry.hpp:46-47 | the first pixel is 0 and the last is 65535 |
| LatencyStats.PercentileIsOrderStatistic | core/include/mm/latency_stats.hpp:31-41 | for any samples and percentage, with k = ceil(pct*n/100), the answer is the upper edge of the bucket of the k-th smallest sample (25 when k is 0) |
| LatencyStats.TargetIs | core/include/mm/latency_stats.hpp:34 | the target is pct hundredths of the count, percentages beyond either end counting as that end |
| LatencyStats.PercentileMonotone | core/include/mm/latency_stats.hpp:32-41 | a higher percentage never gives a lower answer |
| LatencyStats.PercentileResolution | core/include/mm/latency_stats.hpp:13-14 | the answer exceeds the exact order statistic by at most 25 us below 51.2 ms, and is 51.2 ms from there on |
| LatencyStats.ScanStops | core/include/mm/latency_stats.hpp:36-40 | with at least one sample the scan stops inside the buckets: the final return is never reached |
| LatencyStats.MeanBetween | core/include/mm/latency_stats.hpp:27-29 | the mean lies between the extremes |
| LatencyStats.Histogram.constructor | core/include/mm/latency_stats.hpp:53-57 | starts with no samples |
| LatencyStats.Histogram.Record | core/include/mm/latency_stats.hpp:16-24 | buckets, count, sum, minimum and maximum become those of the samples with one more |
| LatencyStats.Histogram.Reset | core/include/mm/latency_stats.hpp:43-49 | forgets all samples |
| LatencyStats.Histogram.Extremes | core/include/mm/latency_stats.hpp:27-28 | smallest and largest sample, 0 when there is none |
| LatencyStats.Histogram.Mean | core/include/mm/latency_stats.hpp:29 | rounded-down average, 0 when there is none, and always fits 32 bits |
| LatencyStats.Histogram.Percentile | core/include/mm/latency_stats.hpp:32-41 | the percentile about which the lemmas speak, 0 when there are no samples |

## Left out

- Target masks are sets of bit numbers below 32; their encoding as a 32-bit word is not modelled. The word for the bit of a master number of 32 or more is undefined in C++; `MasterIsMaskBit` shows sessions do not get there.
- `head & kMask` is modelled as the remainder by the capacity, which is the same for powers of two.
- RingProtocol.SizeFromProducer, RingProtocol.SizeFromConsumer: `size()` from a third thread is not covered, because its two loads are no snapshot there.
- Doubles (coordinates, percentiles) are exact reals; their rounding is not modelled.
- Overflow of 32-bit rectangles and counters is not modelled, except for the ring's counters and the unsigned strip cut.
- `SendInput` and `PostMessage` report success or failure as the environment likes, and the failures are counted; but an input is taken to arrive whatever its call reports.
- The scan-code lookup for scan 0, the message bit layout, buttons other than the five known ones, and the settle sleep.
- MasterView.InjectionsHitTheirTarget: nobody else moves the foreground between the check that a switch succeeded and the injection; in the model it moves only inside switches.
- A game's key is identified by its virtual key; two keys that share a scan code are two keys here.
- MasterView.RepairRestoresMaster: no physical key moves during a focus cycle; key transitions between events are covered by `CalmRunKeepsView`.
- MasterView.CalmRunKeepsView: the input contains no swallowed key, because a re-assertion would show it to the master (see above), and each cycle's restore succeeds.
- TargetStreams.TargetReceives: configuration taken over between drains starts a new run, and so does a swap press; moving the cursor is not counted as input to a window.
- Broadcaster.Broadcaster.Drain: the ring does not grow during the round; concurrent pushes are the subject of `Pipeline`.
- Pipeline.ReplicasAgree: holds until the first drop; what drops do is `DropParity`.
- Swallow flags are those of the routes, as the start-up code sets them (`core/tools/mm_core.cpp:345-346`); the pipeline model keeps the capture settings fixed during a run.
- The watchdog's unlocked read of the master while a swap is in progress, and hence agreement of session and broadcaster at that moment.
- SwapPress.BroadcasterFollowsSession: no instance exits during the run.
- Threads' start, stop, join, detach and shutdown signal, timeouts, and all latency bounds.
- Windows as such: launching, discovery, borderless mode, DeferWindowPos, process policy, hooks, monitors, and the attach-input variant of focus switching.
- A picture-in-picture layout with one slot: its strip is left empty.
- Argument and key-name parsing, the console commands, and the designs in `docs/ARCHITECTURE.md` that have no code yet.
