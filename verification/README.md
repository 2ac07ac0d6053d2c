# Verified model of the graphics driver's state machines

The repository is a Linux DRM driver. This project models the parts of it that are state
machines or array algorithms and proves what they promise. `dafny verify dfyconfig.toml`
checks everything.

| module | what it models |
|---|---|
| `FenceTracking`, `FenceDrivers` | DMA fences that enter a list when they are armed, and the event thread that retires them |
| `SyncJoin`, `SyncObjects` | the sync object: a count-down over many fences whose callbacks may run while it is being armed |
| `SetConfig` | the legacy call that configures a CRTC: stage, swap, roll back |
| `ActiveOutputs` | the per-CRTC masks of active outputs |
| `DpQueue`, `DpWakeup` | the ring of DisplayPort events between interrupt handler and work item, and its wake-up rule |
| `InterruptMask`, `InterruptThreads` | the interrupt-enable mask, in hardware or in a saved word, and the threads that move it |
| `Mmio` | register reads and writes through a table of segments and holes |
| `ModeMerge`, `ModeFixup` | the mode list that is offered, and the hardware mode for a requested one |
| `VideoSeqIndex`, `VideoSeqThreads` | the allocator of video sequence indices: calls one after the other, and threads |
| `FlashCache` | the flash operations with their page cache |
| `Basics`, `BitMasks` | shared helpers |

**Interleavings.** `FenceTracking`, `SyncJoin`, `DpWakeup`, `InterruptThreads` and
`VideoSeqThreads` have a state, an action for each
atomic step of each thread, and `Run`, which lets any sequence of actions happen; an action
that is not enabled has no effect. A statement about every sequence of actions is a statement
about every interleaving. A region under a lock is one step, or is guarded by a lock in the
state. `FenceDrivers`, `SyncObjects` and `DpQueue` hold the driver's own functions as methods
on mutable state; the first two are proved to be runs of the protocol. `GetReference` and
`PutOutside` of a sync object are what other holders of its fence may do.

**Serialisation.** The flash operations run under their mutex and the configuration call under
the locks of the DRM core. The index allocator takes no lock: `VideoSeqIndex` is about calls
one after the other, `VideoSeqThreads` about threads. Reads and writes of registers are taken
to run alone.

**Contracts for code outside.** The Linux fence core: adding a callback fails exactly if the
fence is signalled, signalling runs each callback once, `enable_signaling` is asked at most
once. The work queue: pending work is queued once, and the same work never runs twice at a
time. The DRM helpers for setting a mode: all or nothing, no effect on an unused CRTC. Chip
and firmware functions: an interrupt register that is set, read and cleared; registers that
behave as memory; flash reads that may fail and failing writes that may leave anything in
their range. What the hardware answers is an argument or an action.

**Where the code does less than one might expect.** Each has a lemma in the table.

- Without the freezing protocol the event thread can reorder fences, because the splice goes
  to the head of the list (`OrderLostWithoutFreezing`); the driver always sets `can_freeze`
  (kernel/linux/gf_fence.c:646).
- Suspending cancels the DisplayPort work without draining the ring; later events then find
  the ring non-empty and never schedule the work again (`CancelCanStall`, `StallIsPermanent`).
- The enable and disable functions test `irq_enabled` before they take the lock. A stale
  enable undoes requests (`StaleEnableKeepsMaskIff`, `LateEnableLosesRequest`), a stale disable
  leaves nothing but the fence interrupt (`StaleDisableLosesMask`, `TwoDisablesLoseMask`).
- Removing the interrupt does not save the mask (`ReinstallKeepsMaskIff`), and requests during
  installation go to the wrong word (`RequestsDuringInstallKeptIff`).
- The index allocator takes no lock. Two queries can be given the same index
  (`TwoQueriesShare`), the search can get stuck for good (`SearchCanStick`,
  `StuckIsPermanent`), and a return can leave an index taken without owner
  (`LateClearLeaks`).
- Register offsets are narrowed to an int, so that some behind the register space are accepted
  (`MistakenIff`, `TopBitIsAstray`); sums of flash addresses and sizes wrap around
  (`PassesIsInRangeIff`, `CacheIndexIff`).
- Mode sets that overlap can undo each other in the masks of active outputs
  (`OverlapUndoesFirst`).
- The clean-up of a device does not test for an unknown handle (`FinalCleanup`).
- An index may be returned on behalf of a device that does not have it
  (`ReturnKeepsInvIff`, `ReturnByOtherIsShared`).
- The older path for active outputs does not take an output away from its former CRTC
  (`PreparesAreExclusiveIff`, `PreparesCanShare`).
- A device mode with both scan types, or whose rate lies half-way between two whole rates, is
  offered but does not match itself (`DeviceModeIsNativeIff`, `OfferedIsDrivableIff`).

**Where comment and code differ.** The comment in front of the validity marks says that the
adapter list is not strictly sorted (kernel/linux/gf_cbios.c:918-921). In the order that the
merge uses, the adapter table is strictly ascending (`AdapterTableIsRising`); the comment means
being smaller in every respect, which is no total order. The model follows the code.

## Main results

Everything else in the table below leads up to these.

- Fences: `FenceTracking.NothingLostOrDuplicated`, `CountIsListLength`, `ListsHoldOneReference`,
  `RetiredFencesAreSignalled`, `ListsKeepArmingOrder` with its limit `SpliceKeepsOrderIff`;
  `FenceDrivers.FenceDriver.EventThread` and `EventThreadRound` for the code.
- Sync objects: `SyncJoin.PendingCountsOpen`, `ArmingFailsOnlyAtLast`, `SignalsOnlyAfterAll`,
  `SignalIsNotLost`, `ReleasedOnceWithoutCallbacks`, `WaitingCallbackFindsLoopDone`;
  `SyncObjects.EveryReferenceIsDroppedOnce`, `CapacitySuffices`, `CreateSyncObject`.
- Configuration: `SetConfig.ModeConfig.SetConfig`, `AcceptedIff`, `StagedRoute`,
  `ConnectorsAreIndependent`.
- Active outputs: `ActiveOutputs.OutputFollowsModeSets`, `RunIsExclusive`, `PreparesAreExclusiveIff`.
- DisplayPort events: `DpWakeup.RingIsBoundedFifo`, `NoLostWakeup`, `RunsAreDrained`,
  `CancelKeepsWakeIff`, `StallIsPermanent`.
- Interrupt mask: `InterruptThreads.MaskIsHeeded`, `MaskIsWanted`,
  `HotPlugFollowsLastRequest`, `StaleEnableKeepsMaskIff`,
  `StaleDisableLosesMask`, `ReinstallKeepsMaskIff`.
- Registers: `Mmio.MmioDevice.Read`, `Write`, `WriteThenRead`, `Mmio.AlignedMeans`.
- Modes: `ModeMerge.MergeResult`, `MergedFinds`, `MergeModes`; `ModeFixup.OfferedIsDrivableIff`,
  `EncoderModeFixup`.
- Sequence indices: `VideoSeqThreads.OwnershipIsExclusive`, `NothingIsHandedOutTwice`,
  `StoreKeepsIff`, `EveryQueryIsAnswered`, `StuckIsPermanent`, `QueryAlone`;
  `VideoSeqIndex.SearchIsComplete`, `ReturnKeepsInvIff`, `DestroyFreesOwn`.
- Flash: `FlashCache.CacheIsTransparent`, `WriteThenRead`.

## Model

Sources are relative to the root of the repository.

| member | source | states |
|---|---|---|
| `FenceTracking.ArmAloneLinks` | kernel/linux/gf_fence.c:51-78 | Arming an unfinished fence nobody disturbs takes exactly one list reference, appends it to the list and the log, and counts it once |
| `FenceTracking.SpliceKeepsOrderIff` | kernel/linux/gf_fence.c:535-582 | Splicing in keeps arming order if and only if one of the two lists is empty, because the splice goes to the head |
| `FenceTracking.OrderLostWithoutFreezing` | kernel/linux/gf_fence.c:535-582 | A run that breaks arming order when the driver may not freeze: f armed before g, process list g, f |
| `FenceTracking.RetiredFencesAreSignalled` | kernel/linux/gf_fence.c:535-582 | After every run, an armed fence that is not signalled is in a list or is the one being retired; nothing is dropped silently |
| `FenceTracking.ListsKeepArmingOrder` | kernel/linux/gf_fence.c:535-582 | After every run with freezing, process list followed by fence list is the arming log without the removed fences |
| `FenceTracking.ArmedBefore` | kernel/linux/gf_fence.c:535-582 | So a fence in front of another one in the lists was armed before it |
| `FenceTracking.OnlyReportedFencesSignal` | kernel/linux/gf_fence.c:535-582 | A fence is signalled or retired only if some earlier hardware report had it back |
| `FenceTracking.NothingLostOrDuplicated` | kernel/linux/gf_fence.c:51-78 | After every run each armed fence is in exactly one of fence list, process list, removed, and once |
| `FenceTracking.CountIsListLength` | kernel/linux/gf_fence.c:51-78 | After every run fence_count is never negative and, outside the two windows of arming and retiring, is the length of both lists |
| `FenceTracking.ListsHoldOneReference` | kernel/linux/gf_fence.c:51-78 | After every run a listed fence has exactly one reference more than its holders have and is not freed; a removed one has none left |
| `FenceTracking.InvStep` | kernel/linux/gf_fence.c:51-78 | Every single step of every thread keeps all five parts of the invariant, and arming order where the driver may freeze |
| `FenceTracking.Reachable` | kernel/linux/gf_fence.c:51-78 | All of the invariant after every sequence of steps from the start |
| `FenceDrivers.ArmRun` | kernel/linux/gf_fence.c:51-78 | The steps of an undisturbed arming come to one of three results: refused at the first test, refused under the lock, or linked and counted |
| `FenceDrivers.FenceDriver.EnableSignaling` | kernel/linux/gf_fence.c:51-78 | Returns false exactly if the hardware reports the fence back at the first or the second test; otherwise list, count and reference grow by this fence; equals a run of the protocol |
| `FenceDrivers.FenceDriver.CreateFence` | kernel/linux/gf_fence.c:134-157 | A new fence has one reference, which belongs to the caller |
| `FenceDrivers.RetireRun` | kernel/linux/gf_fence.c:545-554 | The four steps of a retirement unlink, uncount, signal and drop one reference of exactly the fence at the cursor |
| `FenceDrivers.FenceDriver.RetireAt` | kernel/linux/gf_fence.c:545-554 | Retires the fence under the cursor as that run of the protocol |
| `FenceDrivers.FenceDriver.ScanProcessList` | kernel/linux/gf_fence.c:545-554 | The loop keeps exactly the unfinished fences in order, signals and uncounts exactly the finished ones; equals a run of the protocol |
| `FenceDrivers.KeptMember` | kernel/linux/gf_fence.c:545-554 | A fence survives the scan if and only if it was there and is not back |
| `FenceDrivers.FenceDriver.SpliceFenceList` | kernel/linux/gf_fence.c:535-582 | Process list becomes fence list followed by the old process list, fence list empty |
| `FenceDrivers.FenceDriver.HandBack` | kernel/linux/gf_fence.c:535-582 | With freezing the rest goes back in front of the fence list, also at the end of a freeze; without it stays in the process list |
| `FenceDrivers.FenceDriver.EventThreadRound` | kernel/linux/gf_fence.c:535-582 | One whole round with any number of retries in a freeze: which fences are signalled what both lists hold afterwards, and that the thread waits again, or has ended exactly if it was told to, as a run of the protocol |
| `FenceDrivers.FenceDriver.EventThread` | kernel/linux/gf_fence.c:535-582 | Any number of rounds, each with the fences reported by then: every fence that some round finds reported is signalled, no other is, the others stay listed; the thread ends only if told to |
| `FenceDrivers.KeptThroughMember` | kernel/linux/gf_fence.c:535-582 | A fence is left after all rounds if and only if it was there and none of them found it reported |
| `FenceDrivers.KeptKeepsOrder` | kernel/linux/gf_fence.c:535-582 | What a scan leaves is in the old order |
| `FenceDrivers.FenceDriver.TryAgain` | kernel/linux/gf_fence.c:535-582 | One retry: sleep, new report, scan from the start |
| `SyncJoin.PendingCountsOpen` | kernel/linux/gf_fence.c:241-281 | In every interleaving of arming loop and callbacks num_pending is the number of components not accounted for, and it hits zero exactly once |
| `SyncJoin.ZeroOnlyAtLast` | kernel/linux/gf_fence.c:241-281 | While the arming loop has another component to come, its decrement cannot reach zero |
| `SyncJoin.ArmingFailsOnlyAtLast` | kernel/linux/gf_fence.c:241-281 | The loop returns false only at its last component, and then every component has signalled |
| `SyncJoin.SignalsOnlyAfterAll` | kernel/linux/gf_fence.c:241-281 | The object signals only after every component has signalled |
| `SyncJoin.SignalIsNotLost` | kernel/linux/gf_fence.c:241-281 | Once all components have signalled and no callback is on its way, the object has signalled |
| `SyncJoin.InvStep` | kernel/linux/gf_fence.c:241-281 | Every step of loop, callbacks, creator and outside holders keeps all parts of the invariant |
| `SyncJoin.Reachable` | kernel/linux/gf_fence.c:241-281 | The invariant after every sequence of steps, for any set of components signalled beforehand |
| `SyncJoin.CreatorCallbackRunsOnce` | kernel/linux/gf_fence.c:372-381 | The callback of the creator runs at most once, and exactly if it was installed and the object has signalled |
| `SyncJoin.LetGoIsReleased` | kernel/linux/gf_fence.c:283-294 | Once creation is over, creator and others have let go and no callback is outstanding, the components have been released |
| `SyncJoin.SelfReferencesAreCallbacks` | kernel/linux/gf_fence.c:283-294 | References of the object are one per outstanding callback, plus the outside ones, plus the one of the creator |
| `SyncJoin.ReleasedOnceWithoutCallbacks` | kernel/linux/gf_fence.c:283-294 | Components are released at most once and only with no callback outstanding and the loop finished |
| `SyncObjects.SyncObject.PutReference` | kernel/linux/gf_fence.c:283-294 | Dropping a reference releases the components exactly when it was the last, and then each stored reference once |
| `SyncObjects.ReservationGetFences` | kernel/linux/gf_fence.h:174-201 | A writer gets every shared fence once and in order, and the exclusive one last; a reader gets the exclusive one alone; exactly what an earlier call left is dropped |
| `SyncObjects.NewestFence` | kernel/linux/gf_fence.h:91-114 | Returns the first fence with the highest sequence number; returned and dropped references together are those handed out |
| `SyncObjects.SyncObject.constructor` | kernel/linux/gf_fence.c:320-337 | Allocated with the computed capacity, no component, count zero, one reference |
| `SyncObjects.ForeignAndOwnAre` | kernel/linux/gf_fence.c:339-384 | A fence is kept to wait for exactly if its context is another one, else its reference is dropped by the loop |
| `SyncObjects.ForeignKeepsOrder` | kernel/linux/gf_fence.c:339-384 | The components keep the order in which the fences were handed out |
| `SyncObjects.SplitConserves` | kernel/linux/gf_fence.c:339-384 | Same-context and foreign references together are the references handed out, as multisets |
| `SyncObjects.CapacitySuffices` | kernel/linux/gf_fence.c:339-384 | The capacity computed at the first foreign fence bounds all foreign fences still to come, so fences[] never overruns |
| `SyncObjects.CollectForeign` | kernel/linux/gf_fence.c:339-384 | The loop stores exactly the foreign fences in order and drops exactly the others |
| `SyncObjects.SyncObject.StartWaiting` | kernel/linux/gf_fence.c:339-384 | Sets the count and installs the callback; null if everything had signalled already; the whole is a run of the join |
| `SyncObjects.CreateSyncObject` | kernel/linux/gf_fence.c:339-384 | Creates an object iff some foreign fence is unsignalled; every handed-out reference is stored, dropped by the loop, or dropped by the release of an object given up |
| `SyncObjects.SyncObject.ArmComponent` | kernel/linux/gf_fence.c:254-274 | One turn of the loop: a signalled component is counted off and its reference undone, another gets a callback and keeps the reference |
| `SyncObjects.SyncObject.EnableSignaling` | kernel/linux/gf_fence.c:254-274 | The loop as a run of the join; false exactly if its last decrement reached zero |
| `SyncObjects.SyncObject.FenceCallback` | kernel/linux/gf_fence.c:241-252 | Counts one component off, signals the object exactly at zero, drops one reference, and releases the components with the last, as a run of the join |
| `SyncObjects.SyncObject.ComponentSignals` | kernel/linux/gf_fence.c:241-252 | The core signals a component and takes its callback from the list |
| `SyncObjects.SyncObject.ReleaseCreator` | kernel/linux/gf_fence.c:386-391 | The creator drops its reference, and the components with it if it is the last |
| `SyncObjects.EveryReferenceIsDroppedOnce` | kernel/linux/gf_fence.c:283-384 | In every life of every object, over all interleavings: its counter is zero exactly when everybody has let go; before that nothing is dropped, and from then on the references dropped at creation and at release are together exactly those handed out |
| `SyncJoin.WaitingCallbackFindsLoopDone` | kernel/linux/gf_fence.c:254-281 | No lock-order cycle: when a callback waits for the lock of the object, the arming loop takes no component lock any more |
| `SetConfig.OutputInit` | kernel/linux/gf_disp.c:882-913 | One connector with an encoder of its own for each bit of the support mask and for no other, no two sharing a bit |
| `SetConfig.ModeConfig.constructor` | kernel/linux/gf_disp.c:882-913 | A new device has a routing that satisfies all that the configuration call relies on |
| `SetConfig.SwapBack` | kernel/linux/gf_crtc.c:546-607 | Swap in and swap back is the identity on any routing and any staging |
| `SetConfig.ModeConfig.SwapChanged` | kernel/linux/gf_crtc.c:546-607 | The two loops exchange or copy and clear both kinds of links as the two flags say |
| `SetConfig.ModeConfig.DisableUnused` | kernel/linux/gf_crtc.c:631-697 | Unplugged connectors lose their encoder; exactly the CRTCs that nothing leads to are turned off and lose their frame buffer |
| `SetConfig.ModeConfig.DisableCrtc` | kernel/linux/gf_crtc.c:699-725 | The CRTC leaves every encoder and those encoders leave their connectors; CRTCs that are still in use keep their picture |
| `SetConfig.ModeConfig.SwitchOff` | kernel/linux/gf_crtc.c:699-725 | The switching-off case in terms of the fields |
| `SetConfig.SwitchedOff` | kernel/linux/gf_crtc.c:699-725 | Switching a CRTC off detaches exactly its connectors and the unplugged ones, and nothing leads to it afterwards |
| `SetConfig.RequestedIsListed` | kernel/linux/gf_crtc.c:805-880 | The mask test selects exactly the listed connectors, because outputs do not share bits |
| `SetConfig.StagedRoute` | kernel/linux/gf_crtc.c:805-880 | Requested connectors go to the CRTC, others that were on it are detached, all others stay; a link changes if and only if the route changes, and then a full mode set is forced |
| `SetConfig.FinalRoute` | kernel/linux/gf_crtc.c:805-880 | The same for the routing at the end of a successful call, unplugged connectors taken off |
| `SetConfig.StagedTwice` | kernel/linux/gf_crtc.c:805-880 | Staging the same request on its own result changes nothing |
| `SetConfig.RefusedIff` | kernel/linux/gf_crtc.c:805-880 | With a routing that encoders can take, staging is refused exactly if a requested encoder cannot take the CRTC |
| `SetConfig.ChangesKeepPossible` | kernel/linux/gf_crtc.c:805-880 | Staging that is not refused, taking off and switching off keep every route one that its encoder can take |
| `SetConfig.ModeConfig.StageEncoders` | kernel/linux/gf_crtc.c:805-880 | The first loop stages for each connector the encoder of the specification and reports whether one is new |
| `SetConfig.ModeConfig.StageCrtcs` | kernel/linux/gf_crtc.c:805-880 | The second loop refuses exactly the impossible requests, else stages the CRTC of every encoder |
| `SetConfig.ModeConfig.Stage` | kernel/linux/gf_crtc.c:805-880 | Both loops: the staged routing, the refusal and the change flag, each exactly |
| `SetConfig.ModeConfig.Commit` | kernel/linux/gf_crtc.c:887-923 | Fails exactly if the hardware is asked and does not agree, and then nothing has changed; else pictures and routing of every CRTC |
| `SetConfig.ModeConfig.RollBack` | kernel/linux/gf_crtc.c:925-945 | After a failed commit the routing before the swap is back, nothing is staged, and every picture is as it was |
| `SetConfig.ModeChangesIff` | kernel/linux/gf_crtc.c:760-945 | A full mode set is due exactly if there is no frame buffer yet, the mode differs, or some connector has to come to the CRTC or to leave it |
| `SetConfig.RefusedMeans` | kernel/linux/gf_crtc.c:760-945 | Staging is refused exactly if a listed connector cannot take the CRTC, or another one stays on a CRTC that it cannot take |
| `SetConfig.AcceptedIff` | kernel/linux/gf_crtc.c:760-945 | Success exactly if staging is not refused, a full mode set that is due works or no connector is listed, and a flip that alone is due works |
| `SetConfig.RestoreSucceeds` | kernel/linux/gf_crtc.c:760-945 | Asking for the configuration in force succeeds whatever the hardware would answer, and is not a full mode set |
| `SetConfig.ModeConfig.Reconfigure` | kernel/linux/gf_crtc.c:760-945 | The configuring case in terms of the fields: success, routes, pictures |
| `SetConfig.ModeConfig.Configure` | kernel/linux/gf_crtc.c:760-945 | Success exactly if not refused and the hardware agrees; on failure routing, staging and pictures of all CRTCs equal their entry values; on success the new routing and pictures |
| `SetConfig.ConnectorsAreIndependent` | kernel/linux/gf_crtc.c:727-945 | After any sequence of the outcomes that the call can have, a connector is where its own history puts it |
| `SetConfig.ModeConfig.SetConfig` | kernel/linux/gf_crtc.c:727-945 | The whole call in terms of the fields: when it succeeds, where every connector is routed and what every CRTC shows then, and that a failure leaves links and pictures as they were; nothing stays staged |
| `ActiveOutputs.RunIsExclusive` | kernel/linux/gf_crtc.c:74-112 | After every sequence of mode sets the masks of different CRTCs are disjoint |
| `ActiveOutputs.LastModeSetWins` | kernel/linux/gf_crtc.c:74-112 | After every sequence, an output is with the CRTC that the last accepted mode set concerning it has given it, and with none if that CRTC has been set without it |
| `ActiveOutputs.OutputFollowsModeSets` | kernel/linux/gf_crtc.c:74-112 | After every sequence a CRTC has an output exactly if some accepted mode set gave it, and none since has given it away or has ruled anew what this CRTC has |
| `ActiveOutputs.AfterMeans` | kernel/linux/gf_crtc.c:74-112 | One mode set bit by bit: nothing changes if it is refused, inactive or without connectors; else a moved output is with the CRTC alone, the CRTC loses all others, and the rest stays |
| `ActiveOutputs.FeederIs` | kernel/linux/gf_crtc.c:74-112 | The feeder of an output is the one CRTC whose mask has it |
| `ActiveOutputs.MoveFeeds` | kernel/linux/gf_crtc.c:74-112 | One accepted mode set, seen from any single output: moved, dropped or untouched |
| `ActiveOutputs.MoveKeeps` | kernel/linux/gf_crtc.c:74-112 | An accepted mode set keeps the masks disjoint |
| `ActiveOutputs.MovedMeans` | kernel/linux/gf_crtc.c:74-112 | An output is moved if and only if a selected connector has it |
| `ActiveOutputs.DisplayInfo.UpdateActiveConnector` | kernel/linux/gf_crtc.c:74-112 | The nested loop does this, bit by bit and CRTC by CRTC; a refused, inactive or idle update leaves all masks unchanged |
| `ActiveOutputs.OverlappingIsExclusive` | kernel/linux/gf_crtc.c:89-110 | Mode sets of different CRTCs that overlap, each on its own copy of the masks, do not make two CRTCs share an output either |
| `ActiveOutputs.OverlapUndoesFirst` | kernel/linux/gf_crtc.c:89-110 | Of two that overlap, the one written back last undoes the other |
| `ActiveOutputs.PreparesAreExclusiveIff` | kernel/linux/gf_crtc.c:947-977 | The older path keeps the masks disjoint all along a sequence of prepares if and only if no accepted one takes an output from a CRTC that was not prepared again before |
| `ActiveOutputs.PreparesCanShare` | kernel/linux/gf_crtc.c:947-977 | Two prepares after which one output is with two CRTCs |
| `ActiveOutputs.MaskIsLastFed` | kernel/linux/gf_crtc.c:947-977 | On the older path every mask is what its CRTC was last prepared with |
| `ActiveOutputs.FedMeans` | kernel/linux/gf_crtc.c:947-977 | An output is prepared if and only if an encoder of the CRTC has it |
| `ActiveOutputs.DisplayInfo.CrtcPrepare` | kernel/linux/gf_crtc.c:947-977 | The new mask has exactly the outputs of the encoders that the CRTC feeds; other masks stay, and a refusal changes nothing |
| `DpQueue.DepthIsLength` | kernel/linux/gf_irq.c:662-666 | The depth macro is the length of the queue content, and empty means zero |
| `DpQueue.StoreAppends` | kernel/linux/gf_irq.c:662-666 | Storing at the tail and advancing appends, wrap-around included |
| `DpQueue.AdvanceTakes` | kernel/linux/gf_irq.c:662-666 | Advancing the head takes the oldest event off |
| `DpQueue.DpEventRing.Push` | kernel/linux/gf_irq.c:705-718 | Offers one event to a bounded queue: appended below 63, dropped at 63; reports emptiness before |
| `DpQueue.OfferAllKeepsOrder` | kernel/linux/gf_irq.c:705-718 | Offering many events accepts the first that fit, in order |
| `DpQueue.OfferAllIs` | kernel/linux/gf_irq.c:705-718 | What fits is what brings the queue to 63 |
| `DpQueue.DpEventRing.HpdHandle` | kernel/linux/gf_irq.c:669-733 | The handler loop: events offered in connector order, plugged outputs collected, unplugged connectors marked in a compliance test, work requested exactly on a change from empty to non-empty |
| `DpQueue.BringingMeans` | kernel/linux/gf_irq.c:680-721 | The ports that bring an event: polled, enabled, digital, concerned by the interrupt, with a plug or a short pulse |
| `DpQueue.EventsAre` | kernel/linux/gf_irq.c:680-721 | Each brings one event, with its output and its interrupt, in the order of the ports |
| `DpQueue.PluggedMeans` | kernel/linux/gf_irq.c:680-721 | An output is to be looked at exactly if a concerned port has it that is not digital or reports an unplug |
| `DpQueue.UnpluggedMeans` | kernel/linux/gf_irq.c:680-721 | Marked as unplugged are the concerned digital ports that report an unplug; hot-plug work is due exactly if some concerned port is not digital or reports one |
| `DpQueue.DetectMeans` | kernel/linux/gf_irq.c:1110-1150 | An output is detected, or compared, exactly if an event of it was answered that way |
| `DpQueue.DpEventRing.Pop` | kernel/linux/gf_irq.c:1093-1106 | Takes exactly the oldest event or reports an empty queue |
| `DpQueue.DpEventRing.HandleDpIrqs` | kernel/linux/gf_irq.c:1083-1155 | The work item handles all queued events in order, empties the ring, reports exactly the outputs to detect and to compare, and asks for hot-plug work exactly if there are any |
| `DpWakeup.FillOffers` | kernel/linux/gf_irq.c:705-733 | A locked section offers its events in order and decides to schedule exactly if it saw the ring empty |
| `DpWakeup.DropsOnlyWhenFull` | kernel/linux/gf_irq.c:705-733 | Events are dropped only once 63 are queued, and never an accepted one |
| `DpWakeup.RingIsBoundedFifo` | kernel/linux/gf_irq.c:1091-1111 | After every run, also with cancels, accepted events are the handled ones followed by the queued ones, and at most 63 are queued |
| `DpWakeup.WakeStep` | kernel/linux/gf_irq.c:1091-1111 | Every step but the cancel keeps the wake-up rule |
| `DpWakeup.NoLostWakeup` | kernel/linux/gf_irq.c:1091-1111 | After every run without cancel, a non-empty ring means scheduling is due, the work is pending, or the worker is draining |
| `DpWakeup.EveryScheduleDrains` | kernel/linux/gf_irq.c:1091-1111 | From such a state every schedule of both sides without new interrupts is finite, and when neither can go on everything accepted has been handled |
| `DpWakeup.RunsAreDrained` | kernel/linux/gf_irq.c:1091-1111 | The same after every run without cancel |
| `DpWakeup.CancelKeepsWakeIff` | kernel/linux/gf_disp.c:1067 | Cancelling the work keeps the wake-up rule if and only if the ring is empty or the handler is about to schedule |
| `DpWakeup.CancelCanStall` | kernel/linux/gf_disp.c:1067 | A run of three steps after which an event waits and nobody will look |
| `DpWakeup.StallIsPermanent` | kernel/linux/gf_disp.c:1067 | From such a state no sequence of steps handles an event again |
| `InterruptMask.InterruptControl.EnableVblank` | kernel/linux/gf_irq.c:324-335 | Turns on exactly the interrupt of the pipe, 1, 2, 4 or 8, in the word in force; the other word stays |
| `InterruptMask.InterruptControl.DisableVblank` | kernel/linux/gf_irq.c:395-406 | Turns off exactly that interrupt in the word in force; the other word stays |
| `InterruptMask.InterruptControl.HotPlugIntrCtrl` | kernel/linux/gf_irq.c:987-1031 | In the word in force a bit that is a hot-plug bit and in the argument becomes what is asked for, every other one stays; the other word stays |
| `InterruptMask.InterruptControl.EnableInterrupt` | kernel/linux/gf_irq.c:416-472 | Nothing if the mark is set; else the saved word goes to the hardware with the fence bit on; for installation the defaults are added and the mark is left |
| `InterruptMask.InterruptControl.EnableSection` | kernel/linux/gf_irq.c:441-472 | The locked part alone, as the threads below take it, whether or not the test still holds |
| `InterruptMask.InterruptControl.DisableInterrupt` | kernel/linux/gf_irq.c:499-538 | Nothing if the mark is clear; else the hardware word is saved with the fence bit on; for installation only the hardware is cleared |
| `InterruptMask.InterruptControl.DisableSection` | kernel/linux/gf_irq.c:520-540 | The locked part alone, whether or not the test still holds |
| `InterruptMask.InterruptControl.Install` | kernel/linux/gf_disp.c:697-709 | Hardware has the defaults, 0x7FFF00, and the saved bits, and the mark is set |
| `InterruptMask.InterruptControl.Uninstall` | kernel/linux/gf_disp.c:711-723 | Mark and hardware cleared, the saved word kept |
| `InterruptThreads.MaskIsHeeded` | kernel/linux/gf_irq.c:416-549 | In every interleaving of requests, tests and locked parts, stale ones included, the mask is what the requests still in force make of its origin, with the fence interrupt on, and the hardware is silent while the mark is clear |
| `InterruptThreads.MaskIsWanted` | kernel/linux/gf_irq.c:416-549 | If no locked part runs on a stale test, the mask is the fold of all requests over the installed mask, with every default interrupt on |
| `InterruptThreads.LastRequestWins` | kernel/linux/gf_irq.c:416-549 | Every single interrupt is then on if and only if the last request about it turned it on |
| `InterruptThreads.VblankFollowsLastRequest` | kernel/linux/gf_irq.c:416-549 | The four pipes and the hot-plug requests do not disturb each other |
| `InterruptThreads.HotPlugFollowsLastRequest` | kernel/linux/gf_irq.c:416-549 | A hot-plug interrupt is on if and only if the last hot-plug request with it in its argument turned it on |
| `InterruptThreads.TakeHolds` | kernel/linux/gf_irq.c:416-549 | Every step of every thread keeps the invariant behind this |
| `InterruptMask.ApplyBit` | kernel/linux/gf_irq.c:416-549 | A request decides about its own bits and no other |
| `InterruptMask.SameWantedIff` | kernel/linux/gf_irq.c:416-549 | Two request histories lead to the same mask if and only if they agree about every single interrupt |
| `InterruptThreads.StaleEnableKeepsMaskIff` | kernel/linux/gf_irq.c:432-472 | A stale enable takes the mask back to the last enabling as a whole; it is kept if and only if the last request since then about each interrupt, if any, left it as it was |
| `InterruptThreads.LateEnableLosesRequest` | kernel/linux/gf_irq.c:432-472 | A run of three threads in which a vertical-blank request is lost that way |
| `InterruptThreads.StaleDisableLosesMask` | kernel/linux/gf_irq.c:511-540 | A stale disable leaves the fence interrupt alone, in every run; without earlier stale parts this is never the mask it found |
| `InterruptThreads.TwoDisablesLoseMask` | kernel/linux/gf_irq.c:511-540 | A run of two threads that ends like this |
| `InterruptThreads.ReinstallKeepsMaskIff` | kernel/linux/gf_disp.c:697-723 | Removing and installing again undoes the requests since the last enabling as a whole; the mask is kept if and only if interrupts are off, or the last of these requests about each interrupt, if any, left it as it was |
| `InterruptThreads.ReinstallLosesRequest` | kernel/linux/gf_disp.c:697-723 | One vertical-blank request is lost that way |
| `InterruptThreads.RequestsDuringInstallKeptIff` | kernel/linux/gf_disp.c:702-708 | Requests between setting the hardware and the mark have no effect; this does no harm if and only if the last of them about each interrupt asks for what is installed anyway |
| `InterruptThreads.RequestDuringInstallIsLost` | kernel/linux/gf_disp.c:702-708 | One vertical-blank request is lost that way |
| `Mmio.TableIsWellFormed` | kernel/linux/gf_debugfs.c:34-45 | The table of the driver is sorted, disjoint and 4-aligned at its boundaries |
| `Mmio.FindSegment` | kernel/linux/gf_debugfs.c:328-366 | Succeeds exactly if the offset, narrowed to an int, is below the size of the register space; gives the segment of the narrowed position, or the first one behind its hole; takes a negative one for the hole behind the last segment |
| `Mmio.MmioDevice.Read` | kernel/linux/gf_debugfs.c:468-572 | Below the size of the register space: accepts exactly the aligned ranges; transfers min(size, mmio_size - pos) bytes, each the register if a segment has it and zero if not, and leaves the rest of the buffer alone. Behind it: nothing is transferred, except for exactly the offsets that go astray |
| `Mmio.MmioDevice.AccessesAreProper` | kernel/linux/gf_debugfs.c:468-572 | Every access is aligned, has the width of its segment and stays inside it |
| `Mmio.MmioDevice.ReadRegion` | kernel/linux/gf_debugfs.c:468-572 | The inner loops: one region with its own width equals the byte-by-byte read |
| `Mmio.MmioDevice.Admit` | kernel/linux/gf_debugfs.c:481-500 | The tests in front of the loops, for every offset: which ranges they accept, refuse or ignore, and what the clipped size is, wrapped around behind the register space |
| `Mmio.AlignedMeans` | kernel/linux/gf_debugfs.c:481-500 | Aligned ranges: the start is a multiple of the width of the segment of the first byte, the end of that of the last byte, and of four where there is no segment |
| `Mmio.WordsAreAligned` | kernel/linux/gf_debugfs.c:481-500 | Every range of whole words is accepted |
| `Mmio.AstrayMeans` | kernel/linux/gf_debugfs.c:481-500 | The offsets that go astray, written out: from the size on, low word inside the registers or with its top bit set, offset and size aligned |
| `Mmio.MistakenIff` | kernel/linux/gf_debugfs.c:481-500 | Which offsets behind the registers are taken for one inside them |
| `Mmio.TopBitIsAstray` | kernel/linux/gf_debugfs.c:481-500 | Offset 2^31 passes all tests on a register space of whole words |
| `Mmio.MmioDevice.NextRegion` | kernel/linux/gf_debugfs.c:481-500 | What is left after a region is aligned again, so the outer loop goes on to its end |
| `Mmio.MmioDevice.Write` | kernel/linux/gf_debugfs.c:368-466 | Below the size of the register space: an accepted write changes exactly the bytes of its range that lie in segments, to the data; a refused one changes nothing. Behind it: as for Read |
| `Mmio.MmioDevice.WriteRegion` | kernel/linux/gf_debugfs.c:368-466 | One region equals the byte-by-byte write, a hole swallows it |
| `Mmio.ReadBack` | kernel/linux/gf_debugfs.c:368-466 | Reading what was written gives the data in segments and zero in holes |
| `Mmio.MmioDevice.WriteThenRead` | kernel/linux/gf_debugfs.c:368-466 | The same for the two calls of the driver |
| `ModeMerge.ReverseInPlace` | kernel/linux/gf_cbios.c:910-916 | The list is reversed in place and the slack behind it untouched |
| `ModeMerge.MarkValid` | kernel/linux/gf_cbios.c:923-936 | Marks exactly the modes not larger than the first device mode in any respect |
| `ModeMerge.CandidatesAre` | kernel/linux/gf_cbios.c:923-936 | The merge takes an adapter mode if and only if it is so bounded |
| `ModeMerge.MergedFinds` | kernel/linux/gf_cbios.c:938-1003 | For every key the merged list holds: both modes combined, or the one there is, or none |
| `ModeMerge.CombinedCan` | kernel/linux/gf_cbios.c:938-1003 | A combined mode has a capability of each of the four kinds if and only if one of the two has it; all else is from the device |
| `ModeMerge.MergedKeys` | kernel/linux/gf_cbios.c:938-1003 | The keys are the union of the keys |
| `ModeMerge.MergedOrigin` | kernel/linux/gf_cbios.c:938-1003 | Every merged mode is a device mode, an adapter mode, or a combination of two with the same key |
| `ModeMerge.MergedHolds` | kernel/linux/gf_cbios.c:938-1003 | Nothing gets lost: every mode of either list is there as it is or combined |
| `ModeMerge.MergedSizes` | kernel/linux/gf_cbios.c:938-1003 | The sizes and rates are those of the two lists together, in whatever order they come |
| `ModeMerge.MergedIsNotRising` | kernel/linux/gf_cbios.c:938-1003 | The merged list is in order, also if the device has a size and rate twice |
| `ModeMerge.MergedIsFalling` | kernel/linux/gf_cbios.c:938-1003 | It is strictly descending if the device list is |
| `ModeMerge.MergedLength` | kernel/linux/gf_cbios.c:938-1003 | Its length is devices plus candidates less coincidences |
| `ModeMerge.MergeHeads` | kernel/linux/gf_cbios.c:938-1003 | The main loop with its three indices, skipping marked modes, against the recursive merge |
| `ModeMerge.MergeModes` | kernel/linux/gf_cbios.c:896-1013 | The whole function writes the merge of the device list and the candidates, within the two lengths together |
| `ModeMerge.MergedIsSorted` | kernel/linux/gf_cbios.c:896-1013 | By width, then height, then rate, the result does not rise |
| `ModeMerge.MergeResult` | kernel/linux/gf_cbios.c:896-1013 | Order, keys, first mode and length of the result for a descending device list and an ascending adapter list |
| `ModeFixup.GetDeviceModelist` | kernel/linux/gf_cbios.c:1214-1283 | The offered list: the merge in a buffer of both lengths, the device list where nothing scales, nothing where there is no device list |
| `ModeFixup.OfferedSizes` | kernel/linux/gf_cbios.c:1214-1283 | A size and rate is offered exactly if the device has it, or scaling is on, the adapter has it and it does not exceed the first device mode |
| `ModeFixup.AdapterTableIsRising` | kernel/cbios/Display/CBiosMode.c:2027-2159 | The adapter table itself is strictly ascending, at full refresh rates |
| `ModeFixup.GetPreferredMode` | kernel/linux/gf_cbios.c:873-889 | The first preferred mode, the last mode if none is preferred, none for an empty list |
| `ModeFixup.FindNative` | kernel/linux/gf_encoder.c:222-241 | The first native match, with its correction of the signal |
| `ModeFixup.NativeIsFirst` | kernel/linux/gf_encoder.c:222-241 | The native mode is the first of the requested size and scan type less than half a hertz off |
| `ModeFixup.NoNativeIff` | kernel/linux/gf_encoder.c:222-241 | There is none exactly if no mode is so |
| `ModeFixup.DeviceModeIsNativeIff` | kernel/linux/gf_encoder.c:222-241 | A device mode requested as it is offered matches itself if and only if it has exactly one scan type and its rate is not half-way between two |
| `ModeFixup.FindScaled` | kernel/linux/gf_encoder.c:263-295 | Preferred mode if it covers the request, else the first mode if it does, and only for an adapter mode |
| `ModeFixup.EncoderModeFixup` | kernel/linux/gf_encoder.c:185-302 | The whole choice and the signal, with the early exit where there is no device list |
| `ModeFixup.ChoiceMeans` | kernel/linux/gf_encoder.c:185-302 | Native exactly if there is a native mode; scaled only to the preferred or first mode, at least as large and fast, for an adapter mode with scaling on; always scaled if the first mode covers such a request |
| `ModeFixup.OfferIsServed` | kernel/linux/gf_encoder.c:185-302 | What a user gets who requests an offered mode: a mode of that size near that rate, or one at least as large and fast |
| `ModeFixup.PreferredIsChosen` | kernel/linux/gf_encoder.c:185-302 | A scaled request goes to the first preferred mode wherever that covers it |
| `ModeFixup.DrivenIff` | kernel/linux/gf_encoder.c:185-302 | A request is driven if and only if the device has it, or the adapter has it and the preferred or first mode covers it |
| `ModeFixup.KeptModeIsDrivable` | kernel/linux/gf_encoder.c:185-302 | Every adapter mode that the merge keeps is driven natively or by a mode at least as large and fast |
| `ModeFixup.OfferedIsDrivable` | kernel/linux/gf_encoder.c:185-302 | An offered mode can be driven when requested, given one scan type and a clear rate if it is a device mode, or a rate that rounds down if not; nothing is asked of the other modes |
| `ModeFixup.OfferedIsDrivableIff` | kernel/linux/gf_encoder.c:185-302 | It can be driven if and only if it meets that condition or some other listed mode stands in for it |
| `ModeFixup.BothScansAloneIsNotDrivable` | kernel/linux/gf_encoder.c:185-302 | An offered mode that nothing drives |
| `ModeFixup.SignalIsCarried` | kernel/linux/gf_encoder.c:185-302 | The signal is one that the chosen mode carries |
| `VideoSeqIndex.SearchIsComplete` | kernel/core/kernel_interface.c:714-744 | The search finds an index if and only if one is free, and then the nearest going round from the start index |
| `VideoSeqIndex.Adapter.FindFree` | kernel/core/kernel_interface.c:714-744 | The loop with its two wrap-arounds terminates with that index, or at the minimum after seeing all taken |
| `VideoSeqIndex.Adapter.Take` | kernel/core/kernel_interface.c:714-744 | Marks the index, gives it to the device and moves on, or leaves the start index if the handle is unknown |
| `VideoSeqIndex.Adapter.QueryVideoSeqIndex` | kernel/core/kernel_interface.c:714-744 | The whole query: fails exactly if all are taken; else marks one free index, the one of the search, and moves the start behind it |
| `VideoSeqIndex.QueryMeans` | kernel/core/kernel_interface.c:714-744 | What a query does: the first free index from the start on, going round once, is taken and given to the device and nobody else; where the start moves |
| `VideoSeqIndex.ReturnedIsReusedLast` | kernel/core/kernel_interface.c:714-744 | An index given back at once is handed out by the next query if and only if no other is free |
| `VideoSeqIndex.QueryIsFair` | kernel/core/kernel_interface.c:714-744 | A query that runs alone hands out an index that nobody has, and fails exactly if every index is owned or was handed out without owner |
| `VideoSeqIndex.NextKeeps` | kernel/core/kernel_interface.c:714-744 | Every call that runs alone keeps: taken means owned once or unowned, never both; for returns, if no other device has the index |
| `VideoSeqIndex.OwnershipIsExclusive` | kernel/core/kernel_interface.c:714-744 | After every permitted sequence of calls, one after the other, no index has two owners and owned indices are taken |
| `VideoSeqIndex.Adapter.ReturnVideoSeqIndex` | kernel/core/kernel_interface.c:746-754 | Frees the index and clears the bit of this device only |
| `VideoSeqIndex.ReturnMeans` | kernel/core/kernel_interface.c:746-754 | What a return does: this index is free and the device has it no longer, all else stays |
| `VideoSeqIndex.ReturnKeepsInvIff` | kernel/core/kernel_interface.c:746-754 | A return keeps the invariant if and only if no other device has the index |
| `VideoSeqIndex.ReturnByOtherIsShared` | kernel/core/kernel_interface.c:746-754 | A return on behalf of another device ends, after some further queries, with two owners |
| `VideoSeqIndex.BitmapIsSet` | kernel/core/kernel_interface.c:389-413 | Byte i / 8 and bit i % 8 address every index once, so the bitmap is a set of indices |
| `VideoSeqIndex.LayoutIs` | kernel/core/kernel_interface.c:389-413 | The bits of a byte in ascending order |
| `VideoSeqIndex.Adapter.FreeIndices` | kernel/core/kernel_interface.c:389-413 | The decoding loop frees exactly the indices in the bitmap |
| `VideoSeqIndex.DestroyFreesOwn` | kernel/core/kernel_interface.c:389-413 | Destroying a device frees exactly its own indices and nobody else loses one |
| `VideoSeqIndex.NothingLeaks` | kernel/core/kernel_interface.c:389-413 | After calls one after the other, once all devices are gone, only indices handed out without owner are taken |
| `VideoSeqIndex.Adapter.DestroyDevice` | kernel/core/kernel_interface.c:389-420 | Indices freed, bitmap cleared, handle gone; an unknown handle changes nothing |
| `VideoSeqIndex.Adapter.FinalCleanup` | kernel/core/kernel_interface.c:422-448 | The same, except that an unknown handle makes it pass null to the function that destroys the device |
| `VideoSeqIndex.Adapter.CreateDevice` | kernel/core/kernel_interface.c:369-387 | A new device owns no index |
| `VideoSeqThreads.NothingIsHandedOutTwice` | kernel/core/kernel_interface.c:714-744 | With queries, returns and removals as interleaved steps: as long as no thread steps between another one looking at a free slot and storing, or into a return or removal, no index is ever handed out twice |
| `VideoSeqThreads.OwnershipIsExclusive` | kernel/core/kernel_interface.c:714-744 | In such runs, whenever nothing critical is going on, no index has two owners and exactly the owned and unowned indices are taken |
| `VideoSeqThreads.TakeFocus` | kernel/core/kernel_interface.c:714-744 | The step behind this: what disturbs nobody keeps ownership in order |
| `VideoSeqThreads.StoreKeepsIff` | kernel/core/kernel_interface.c:714-744 | A store keeps ownership in order if and only if the slot under the start index is still free, or the start index has left the array |
| `VideoSeqThreads.TwoQueriesShare` | kernel/core/kernel_interface.c:714-744 | A run of two queries that both look before either stores: both devices own index 0, and both callers have been given it |
| `VideoSeqThreads.QueryAlone` | kernel/core/kernel_interface.c:714-744 | A query whose steps come one after the other does what the serialised query does |
| `VideoSeqThreads.EveryQueryIsAnswered` | kernel/core/kernel_interface.c:715-741 | As long as nobody steps between another thread counting the start index up and wrapping it around, it stays in the array and every query ends with an index or with failure |
| `VideoSeqThreads.TwoCountsStick` | kernel/core/kernel_interface.c:715-741 | Two threads that both count up at the last slot push the start index behind the end |
| `VideoSeqThreads.SearchCanStick` | kernel/core/kernel_interface.c:715-741 | A run from the beginning that ends like this |
| `VideoSeqThreads.StuckIsPermanent` | kernel/core/kernel_interface.c:715-741 | From there on no query is given an index, whatever happens |
| `VideoSeqThreads.LateClearLeaks` | kernel/core/kernel_interface.c:746-754 | A query for the same device between the two halves of a return: the index stays taken and nobody owns it |
| `VideoSeqThreads.NothingLeaks` | kernel/core/kernel_interface.c:389-413 | In undisturbed runs, once all devices are gone, only indices handed out without owner are taken |
| `FlashCache.NextIsCoherent` | kernel/linux/gf_disp.c:2157-2264 | Every operation, failed reads and partial writes included, keeps a valid cache equal to the first page |
| `FlashCache.CacheIndexIff` | kernel/linux/gf_disp.c:2157-2264 | A range that passes and is taken for one of the cached page lies inside the cache if and only if the 32-bit sum does not wrap |
| `FlashCache.WrappingRangePasses` | kernel/linux/gf_disp.c:2157-2264 | A range that passes without being in the flash |
| `FlashCache.PassesIsInRangeIff` | kernel/linux/gf_disp.c:2157-2264 | The range test with its 32-bit sum lets through exactly what is in range, if and only if the sum fits into 32 bits |
| `FlashCache.CacheIsTransparent` | kernel/linux/gf_disp.c:2157-2264 | Every run with the cache gives the results of a run without it, on hardware that fails no more often |
| `FlashCache.ReadGivesFlash` | kernel/linux/gf_disp.c:2157-2264 | After any run a successful read gives what the flash holds |
| `FlashCache.WriteThenRead` | kernel/linux/gf_disp.c:2157-2264 | What a successful write stored is read back, with a cold or a warm cache |
| `FlashCache.DisplayInfo.FlashOperation` | kernel/linux/gf_disp.c:2157-2264 | Both constants, all error codes in their order, what is read and what the flash holds afterwards, for every address and size, up to exactly the ranges that pass the test without being in the flash |
| `FlashCache.MaxSizeIsLongest` | kernel/linux/gf_disp.c:2170-2175 | The maximal size is that of the longest range from the start address that is in range; longer ones are rejected unless their end wraps around |
| `FlashCache.DisplayInfo.FlashRead` | kernel/linux/gf_disp.c:2176-2224 | Range, hardware and copy errors in this order, else the bytes of the flash; a valid cache makes the hardware unnecessary for the first page |
| `FlashCache.DisplayInfo.FillCache` | kernel/linux/gf_disp.c:2176-2224 | A failed fill leaves the cache invalid, a good one leaves it equal to the page |
| `FlashCache.ReadWarmsCache` | kernel/linux/gf_disp.c:2176-2224 | After one good read of the page, reads of the page succeed whatever the hardware does |
| `FlashCache.DisplayInfo.FlashWrite` | kernel/linux/gf_disp.c:2225-2254 | Permission, range, copy and hardware errors in this order; the flash changes only in the range of a complete, permitted write, and holds the data after a good one; invalidates the cache as the source does |
| `FlashCache.PageChangesOnlyBelow` | kernel/linux/gf_disp.c:2225-2254 | A write that does not start in front of the end of the page cannot change it, so the invalidation test is sufficient |

## Left out

- FenceTracking.CountIsListLength: says nothing about waking the event thread; the notifier reads the counter without the lock, and the counter grows only after the second test, so a fence may wait for the timeout of the thread (kernel/linux/gf_fence.c:65-73, 192-200).
- FenceDrivers.FenceDriver.EventThreadRound: nobody arms a fence during the round, so the jump back to the first splice is not taken; that jump and all interleavings are in `FenceTracking`.
- FenceTracking.Reachable: the deferred free of a fence and its magic-number check, time stamps, and the primary-buffer tracking of the same thread are not modelled.
- SyncObjects.ReservationGetFences: the reservation is a value and the variants for other kernel versions are not modelled; neither is the error return of the kernel's own getter.
- SyncObjects.SyncObject.FenceCallback: runs without interference; callbacks that fire during the arming loop are in `SyncJoin`.
- The loop that waits for all fences of a reservation stops only on a negative result, so a positive one does not say that all have signalled (kernel/linux/gf_fence.c:600-608).
- SetConfig.ModeConfig.SetConfig: the calls into encoders and CRTCs that only switch hardware off, and the missing helper table, have no counterpart.
- SetConfig.ModeConfig.StageCrtcs: the statement that clears the staged CRTC of a connector's former, different encoder is an assertion that there is none, since each connector is created with one encoder (kernel/linux/gf_disp.c:894-901).
- SetConfig.ModeConfig.SetMode: the mode-setting helper belongs to the DRM core and is a contract.
- DpQueue.DpEventRing.HandleDpIrqs: runs without interruption, interrupts between its steps are in `DpWakeup`; the search for the connector and the delay of the compliance test are left out.
- InterruptThreads.MaskIsHeeded: covers the time from one installation to the next removal; a test that was made before a removal and is acted on after it is not covered. Message-signalled interrupts and error messages are left out.
- Mmio.MmioDevice.Read: says nothing about what happens after an offset has gone astray, nor about sizes near 2^64 and user memory that cannot be accessed; registers are memory without side effects of reading.
- Mmio.MmioDevice.Write: the same.
- ModeMerge.MergeModes: the copy flags of a mode that neither merge nor choice looks at are not in the model; allocation does not fail.
- ModeFixup.EncoderModeFixup: the timing that is computed for the chosen mode belongs to the firmware. Rates are below 2^31, so that the unsigned difference in the native test is the difference.
- ModeFixup.OfferedIsDrivable: takes the rate of an offered mode to be its rate in hertz, rounded, as computed from the timing of the firmware.
- VideoSeqIndex.Adapter.CreateDevice: the handle manager gives a handle that is not in use; the counters of the video cores are left out.
- FlashCache.DisplayInfo.FlashOperation: says nothing about what happens with a range that passes the test without being in the flash; allocation does not fail.
- FlashCache.DisplayInfo.FlashRead: the same.
- FlashCache.DisplayInfo.FlashWrite: the same.
- VideoSeqThreads.OwnershipIsExclusive: a store behind the arrays changes nothing in the model, and a device is not destroyed while its memory is in use; memory accesses are taken in program order.
- ActiveOutputs.RunIsExclusive: is about mode sets one after the other; `OverlappingIsExclusive` is about those that overlap.
- Kernel versions: the configuration call is the one before 4.8, the active outputs those from 4.8 on, with the older path beside them.
- The graphics memory manager and the scheduler, whose Linux-side callers are thin; the splice feature, hot-plug reporting and polling, audio, HDCP, cursors and gamma, which mostly pass values to the hardware; ioctl dispatch and printing.
