# JackBridge, verified

JackBridge is two processes over one POSIX shared-memory region. A JACK daemon writes captured audio into
rings and takes played audio out of them; a CoreAudio HAL driver does the opposite, on its own clock. They
share no lock: they meet in rings indexed by absolute frame, a zero-timestamp pair, a seqlock, a heartbeat
and a status word. This project models that bridge in Dafny and proves what it keeps.

Check everything with `dafny verify dfyconfig.toml`.

## How it is organised

Code that updates state in place is modelled in place, as classes and array methods, and each such method is
proved against a function on values. What the code is *for* is then proved about those functions, over every
run and, where threads or processes meet, over every interleaving. A run is a sequence of actions; an action
that is not possible in a state leaves it alone, so "every sequence" is "every schedule".

| part | files |
|---|---|
| machine words and modular facts | `Arithmetic` |
| shared memory and its rings: layout, meaning, daemon copies, driver copies | `Layout`, `Ring`, `RingProjector`, `RingCopy`, `SharedRegion`, `DriverDevice` |
| the bridge as a system: cursor, capture, playback, clock, and what the schedule alone determines | `Registers`, `Bridge`, `Clock`, `Schedule` |
| rings at single sample accesses, and that the bridge's runs are runs of them | `Playback`, `PlaybackRefinement`, `Capture`, `CaptureRefinement` |
| the daemon and driver objects, and that their sessions are runs of the bridge | `DaemonProcess`, `DriverDevice`, `Simulation`, `Session` |
| protocols between threads and processes | `Seqlock`, `ZeroTimeStamp`, `ZeroTimeStampRefinement`, `WireWakeup`, `StressTest` |
| lifecycle and liveness | `Lifecycle`, `Watchdog` |
| objects, references, devices | `ObjectRegistry`, `ObjectMap`, `Releaser`, `Teardown`, `PlugIn` |
| the recursive mutex | `Mutex`, `MutexThreads` |
| two self-contained algorithms | `XrunWatcher`, `HostTime` |

## Main results

* **Capture.** After any run of callbacks, stops, restarts and driver reloads, a driver read whose frames lie
  within one ring of the cursor returns exactly what JACK delivered, for every stream (`CaptureIsExact`). With
  single sample accesses interleaved, the same holds for a window that is shorter by the chunk being written
  (`InterleavedReadIsExact`). Any session of calls on the in-place objects does call by call what a reference on
  values says, buffers included (`ExecuteAll`), and that is such a run (`SessionIsARun`); so a client's buffer
  holds, channel by channel, what the callbacks took from JACK's port buffers (`ReadHoldsPortSamples`).
* **Playback.** A sample the driver writes is handed to JACK exactly once, at the first position due for its
  cell, and on time exactly when it was written less than a ring ahead (`PlaybackExactlyOnce`). With single
  accesses interleaved after any such run, it is lost exactly when it lands between the daemon's read and its
  zeroing of the same cell (`InterleavedWriteIsExact`).
* **Clock.** Through any stops, restarts and reloads, both unwrapped copies stay inside the ring, and the stamp
  the daemon stored last brackets the cursor and never goes back. The *advertised* stamp does the same throughout
  a run if and only if no store of the driver's own lands on an active daemon's register with another number
  (`BracketHoldsExactly`). That is so when no such store crosses the activation and the driver is not reloaded
  under an active daemon (`SettledIsUndisturbed`); both ways of failing are shown. Which callbacks anchor the
  clock, with which reading, and what the seed and the heartbeat count, is read off the schedule alone
  (`CallbackSetsTheClock`, `SeedCountsStarts`, `HeartbeatCountsCallbacks`).
* **Protocols.** Seqlock snapshots hold the values one publication was given, and an attempt is accepted exactly
  when none was under way or begun meanwhile (`SnapshotIsLatestPublication`). In every interleaving, two values of the daemon in one zero-timestamp pair never have a
  host time older than the number; a call gets such a pair exactly when the daemon stored both registers last at
  the two loads, which one whole stamp with no driver store outstanding ensures; and it comes from one stamp
  exactly when no stamp was half stored at the first load and none began before the second. Every
  run of the bridge is a run of that protocol (`ZeroTimeStampRefinement`). No wiring request is lost, and every
  registered port gets a later walk of its own direction. The stress test cannot report a false failure, and its
  exit code says exactly what it has seen.
* **Lifecycle.** The shared status is STARTED exactly when a client has IO running and the daemon has not shut
  down since. The device is dead exactly when some poll, its guards holding, found the heartbeat stale past that
  poll's threshold and it has not changed since; deaths and revivals are announced alternately exactly when no
  poll trips after a start that found the device dead (`AlternatesExactly`).
* **Objects.** The object map is a reference-counted partial map; a device under teardown is destroyed exactly
  once, at the last release, whoever makes it, and the destruction does come unless the teardown block gave up.
* **Mutex.** Mutual exclusion in every interleaving of the separate steps; nested scopes restore ownership
  exactly when every Unlocker is used while owned.

## Where the code and its comments differ

The code is followed in each case.

* `daemon/JackBridge.cpp:383-388` zeroes the heartbeat so that the driver declares the device dead at once. The
  driver takes any change of the counter for life, so the store restarts the staleness timer
  (`ShutdownStoreIsAChange`).
* `daemon/JackBridge.cpp:273-276` maps the current time to the current frame. What is stored is the start of
  the ring period that frame is in (`ReanchorRoundsDown`).
* `driver/JackBridge/Plug-In/SA_Device.cpp:1770-1771` clears SyncMode when the driver is loaded. A daemon that
  is already active never sets it again, so the driver stays on its own clock: sync mode is back if and only if
  the daemon was not active then and has activated since, with no reload after that (`SyncModeExactly`).
* `driver/JackBridge/Plug-In/SA_Device.cpp:1502-1509` tests SyncMode and stores its own pair in separate steps. A
  store decided before the daemon activates can land after it, on the daemon's number (`LateStoreBreaksTheBracket`,
  `LateStoreUnsettles`).
* `driver/JackBridge/Plug-In/SA_Device.cpp:1815` makes a dead device alive again without telling the host, so a
  later death is announced after a death (`SilentRearm`, with the exact condition in `AlternatesExactly`).
* `driver/JackBridge/Plug-In/SA_PlugIn.cpp:260-282` keeps the device variable outside the loop. A creation that
  fails before it has an object therefore removes and releases the device made by the iteration before it;
  `CreationsKeepExactly` says exactly which devices survive. The plug-in only ever creates one device.
* `driver/JackBridge/Plug-In/SA_Object.h:273` retains without releasing when a holder is assigned another holder
  of the same object (`AssignmentMovesOneReference`).
* `driver/PublicUtility/CAMutex.cpp:310-313` calls the mutex free when the owner field is 0, which it also is while
  a thread is between its pthread call and its write of the field (`IsFreeIsRightOutsideTheGaps`).

## Model

| member | source | states |
|---|---|---|
| RingProjector.RecvOffsetIsEuclidean | daemon/RingProjector.hpp:36-42 | the unsigned underflow gives the Euclidean (cursor - n) mod R for every cursor with cursor >= n, and for the others exactly when R divides 2^64 |
| RingProjector.WindowsAdjacent | daemon/RingProjector.hpp:32-42 | the chunk read in a cycle ends where the chunk written in it begins, wrap-around and underflow included |
| RingProjector.WindowsDisjoint | daemon/RingProjector.hpp:32-42 | a cycle's read and write windows share no frame exactly when two chunks fit in the ring |
| RingProjector.AlignedCopiesFit | daemon/RingCopy.hpp:25-27 | the bound the unwrapped loops demand of their caller holds for a period that divides the ring and a cursor on a period boundary |
| Ring.LoadAfterStore | driver/JackBridge/Plug-In/SA_Device.cpp:1651-1707 | writing and then reading at the same time returns the data, wherever the ring wraps |
| Ring.StoreConcat | driver/JackBridge/Plug-In/SA_Device.cpp:1702-1707 | two consecutive cyclic writes are one write of the concatenation |
| RingCopy.RingWriteStereoInterleaved | daemon/RingCopy.hpp:28-40 | frame i of the chunk is in the ring with its left sample in the even cell and its right one in the odd cell after it, and the ring is the cyclic write of the chunk |
| RingCopy.RingReadStereoInterleaved | daemon/RingCopy.hpp:45-57 | the left output gets the even cells and the right one the odd cells, together the cyclic read; the ring is untouched |
| RingCopy.RingConsumeStereoInterleaved | daemon/RingCopy.hpp:63-77 | left and right outputs get the even and odd cells of the old ring, which is silent there afterwards and unchanged elsewhere |
| DriverDevice.TwoChunkLoad | driver/JackBridge/Plug-In/SA_Device.cpp:1651-1677 | the two memcpys of a read are the sample-by-sample cyclic read at the sample time |
| DriverDevice.TwoChunkStore | driver/JackBridge/Plug-In/SA_Device.cpp:1688-1707 | the two memcpys of a write are the sample-by-sample cyclic write |
| DriverDevice.SplitCopy | driver/JackBridge/Plug-In/SA_Device.cpp:1651-1662 | the split covers exactly the requested frames, stays in the ring, and has a second chunk only from the ring's end |
| DriverDevice.SA_Device.ReadInputData | driver/JackBridge/Plug-In/SA_Device.cpp:1642-1680 | the client gets the cyclic read of the capture ring, or silence from a dead device, nothing past it is touched, and the published read head is t + m |
| DriverDevice.SA_Device.WriteOutputData | driver/JackBridge/Plug-In/SA_Device.cpp:1682-1710 | the playback ring becomes the cyclic write of the client's frames, and the published write head is t + m |
| Layout.AreasAreDisjoint | shared/JackBridge.h:104-111 | for any number of streams, no register or ring overlaps another and the rings fit the region, exactly as long as the head registers stop short of the first ring |
| Layout.StreamsLieEndToEnd | shared/JackBridge.h:104-111 | head registers and rings of consecutive streams lie end to end in the documented order, up to the end of the region |
| Layout.ShippedGeometry | shared/JackBridge.h:104-105 | the shipped ring is 4096 stereo frames and meets the hypotheses of the theorems for every period dividing it |
| SharedRegion.Region.constructor | shared/JackBridge.h:183-235 | the rings of all streams and directions are distinct and of the ring size |
| DaemonProcess.JackBridge.FrameOfBlock | daemon/JackBridge.cpp:480-510 | sample 2i of stream j's chunk is sample i of port buffer 2j, and sample 2i + 1 that of port buffer 2j + 1 |
| DaemonProcess.JackBridge.constructor | daemon/JackBridge.cpp:100-123 | a new daemon has cursor 0, is not active, and has cleared SyncMode |
| DaemonProcess.JackBridge.SendToCoreAudio | daemon/JackBridge.cpp:480-494 | every input stream's ring takes its chunk at the cursor, for all streams at once |
| DaemonProcess.JackBridge.ReceiveFromCoreAudio | daemon/JackBridge.cpp:496-510 | JACK gets the chunk before the cursor of every output stream, that chunk becomes silence, unused rings keep their contents |
| DaemonProcess.JackBridge.ProcessCallback | daemon/JackBridge.cpp:254-349 | registers, cursor, rings and port buffers after one callback: started, or not started with a whole ring's bytes of every output buffer cleared |
| DaemonProcess.JackBridge.DetectRestart | daemon/JackBridge.cpp:258-286 | the heartbeat moves, a restart is re-anchored and counted, and the status seen is remembered |
| DaemonProcess.JackBridge.StampClock | daemon/JackBridge.cpp:300-326 | activation zeroes the cursor and enters sync mode once; the clock is stamped exactly at ring boundaries |
| DaemonProcess.JackBridge.OnShutdown | daemon/JackBridge.cpp:382-392 | heartbeat 0, status INIT, everything else in the region as it was |
| Bridge.CopyPositions | daemon/JackBridge.cpp:480-510 | a started callback copies at the absolute position the history has reached, also after the cursor wrapped |
| Bridge.StepKeepsCursor | daemon/JackBridge.cpp:288-347 | the cursor, activity and stream lengths stay consistent through every action of either process, driver reloads and daemon shutdowns included |
| Bridge.StepKeepsCapture | daemon/JackBridge.cpp:480-494 | every cell within a ring of the cursor keeps holding the sample JACK sent for it, and history is only appended to |
| Bridge.AppendKeepsWindow | daemon/RingCopy.hpp:28-40 | a chunk written at the end of the history keeps the last ring's worth of it in the ring |
| Bridge.CaptureIsExact | driver/JackBridge/Plug-In/SA_Device.cpp:1642-1680 | after any run, a read within one ring of the cursor returns, for every stream, exactly JACK's samples of those frames |
| Bridge.CursorCountsStartedCallbacks | daemon/JackBridge.cpp:288-347 | the cursor is n times the number of callbacks made while the status register, read off the schedule alone, was STARTED |
| Schedule.SeedCountsStarts | daemon/JackBridge.cpp:270-317 | the seed is what it was last reset to plus one for every callback that finds STARTED where the callback before it did not, and one for the first started callback, read off the schedule alone |
| Schedule.CallbackSetsTheClock | daemon/JackBridge.cpp:270-326 | a callback stores its second clock reading on a ring boundary, its first one off a boundary if the driver is newly started, with the number of the period the started callbacks so far lead to, and else leaves both registers alone |
| Schedule.HeartbeatCountsCallbacks | daemon/JackBridge.cpp:258-262 | the heartbeat counts every callback, started or not, since it was last zeroed |
| Schedule.ReadIsWhatCallbacksBrought | driver/JackBridge/Plug-In/SA_Device.cpp:1642-1680 | end to end: after any run, a read inside the window returns for frame f and channel c of a stream what started callback number f / n of the schedule brought for frame f mod n and that channel |
| Capture.StepKeepsInv | daemon/RingCopy.hpp:36-39 | the window invariant survives every single sample store and load |
| Capture.ReadIsExact | driver/JackBridge/Plug-In/SA_Device.cpp:1642-1680 | in every interleaving of single accesses, a read finished while the cursor is within a ring less one chunk returns exactly what JACK sent |
| Capture.CycleIsSteps | daemon/RingCopy.hpp:36-39 | the store-by-store chunk is the cyclic write the copy loop is proved to make |
| CaptureRefinement.RunRefines | daemon/JackBridge.cpp:480-494 | every run of the whole bridge is, for each input stream, a run of the sample-level capture ring |
| CaptureRefinement.InterleavedReadIsExact | driver/JackBridge/Plug-In/SA_Device.cpp:1642-1680 | after any run of the bridge, a read interleaved sample by sample with the daemon's further writes returns exactly JACK's samples inside the window |
| Playback.DueIsOnTime | daemon/JackBridge.cpp:496-510 | the first position due for a sample's cell is its own position exactly inside the safe window |
| Playback.DeliveredExactlyOnce | daemon/RingCopy.hpp:71-76 | in every interleaving of stores with the reads and zeroings of a frame's two cells, a stored sample is handed out at its due position and every other consumption of its cell yields silence |
| Playback.LostMeansAlreadyRead | daemon/RingCopy.hpp:72-75 | a sample is lost exactly when stored between the read and the zeroing of its cell |
| Playback.DeliveredOnTime | daemon/RingCopy.hpp:71-76 | inside the safe window, a sample reaches JACK at its own position if and only if it did not land in that gap |
| Playback.SilentUntilWritten | daemon/RingCopy.hpp:59-62 | a consumed cell reads silence until the driver writes it again |
| Playback.ConsumeIsSteps | daemon/RingCopy.hpp:63-77 | frame by frame, both channels read and then both zeroed, consumption is the chunk read followed by the silent cyclic write |
| Playback.StoreIsSteps | driver/JackBridge/Plug-In/SA_Device.cpp:1702-1707 | a block written sample by sample is the cyclic write |
| PlaybackRefinement.RunRefines | daemon/JackBridge.cpp:496-510 | every run of the whole bridge is, for each output stream, a run of the sample-level playback ring |
| PlaybackRefinement.PlaybackExactlyOnce | driver/JackBridge/Plug-In/SA_Device.cpp:1682-1710 | through any run that does not overwrite it, each sample of a driver write is delivered in exactly one position, silence at all others of its cell, and on time exactly when its frame is less than a ring ahead of the next chunk |
| PlaybackRefinement.InterleavedWriteIsExact | driver/JackBridge/Plug-In/SA_Device.cpp:1682-1710 | after any run of the bridge, each sample of a driver write interleaved sample by sample with the daemon's reads and zeroings is handed to JACK at its due position and silence at all others of its cell, and at its own position exactly outside the read-to-zero gap |
| Simulation.DaemonCycle | daemon/JackBridge.cpp:217-349 | the daemon object's callback is one step of the bridge, and the bridge's invariant already gives the bounds its unwrapped copies need |
| Simulation.DaemonShutdown | daemon/JackBridge.cpp:382-392 | the shutdown is the two stores of the bridge |
| Simulation.DriverOpen | driver/JackBridge/Plug-In/SA_Device.cpp:1770-1774 | loading the driver, also under a running daemon, makes a new device with count 0, alive and nothing announced, and is the three stores of the bridge |
| Simulation.DriverStart | driver/JackBridge/Plug-In/SA_Device.cpp:1397-1415 | the first successful start publishes STARTED and any other stores nothing; count, outcome, watchdog and clock fields are those of the lifecycle and the watchdog |
| Simulation.DriverStop | driver/JackBridge/Plug-In/SA_Device.cpp:1417-1432 | the last stop publishes ACTIVE and any other stores nothing; count and status are those of the lifecycle |
| Simulation.DriverStamp | driver/JackBridge/Plug-In/SA_Device.cpp:1502-1511 | a timestamp call is one poll of the watchdog, offers the driver's own stamp to the bridge, and in sync mode reports the register pair unchanged |
| Simulation.DriverWrite | driver/JackBridge/Plug-In/SA_Device.cpp:1682-1710 | the driver object's write is one step of the bridge |
| Simulation.DriverRead | driver/JackBridge/Plug-In/SA_Device.cpp:1642-1680 | end to end on the objects: a live device hands the client the ring at the read time, which inside the window is exactly JACK's samples, a dead one silence |
| Session.Boot | daemon/JackBridge.cpp:100-123 | driver and daemon as created are in an initial state of the bridge, with the device as constructed and opened |
| Session.SessionIsARun | driver/JackBridge/Plug-In/SA_Device.cpp:1397-1710 | what the calls of a session do to the bridge is one run of it, made of their steps in order, so every theorem about runs holds of sessions |
| Session.WatchIsARun | driver/JackBridge/Plug-In/SA_Device.cpp:1447-1492 | what they do to a device's watchdog is one run of polls and starts, until the driver is loaded again |
| Session.Execute | driver/JackBridge/Plug-In/SA_Device.cpp:1397-1710 | each call of either process takes exactly what its input buffers hold, makes exactly the bridge steps and the changes to the driver's fields that the reference prescribes for it, and leaves the prescribed samples in its output buffers; a read inside the window by a live device holds JACK's samples |
| Session.ExecuteAll | driver/JackBridge/Plug-In/SA_Device.cpp:1397-1710 | any sequence of calls, stops, restarts, reloads and shutdowns included, goes call by call where the reference goes; each call took what its input buffers held at the start unless an earlier call filled them, and what it delivered is there at the end unless a later call filled it over |
| Session.ReadHoldsPortSamples | driver/JackBridge/Plug-In/SA_Device.cpp:1642-1680 | after any session, the buffer of a read inside the window by a live device holds, frame by frame and channel by channel, what the session's started callbacks took from their port buffers |
| Clock.CursorIsAligned | daemon/JackBridge.cpp:480-510 | the period divides the cursor and both unwrapped copies fit the ring, even after the cursor wrapped |
| Clock.StartedCallbackStamp | daemon/JackBridge.cpp:270-326 | a callback that stores a number stores its cursor's period, and one that reaches the end of the latest period does store |
| Clock.ClockOverRuns | daemon/JackBridge.cpp:270-347 | through any stops, restarts, reloads and driver stores the daemon's latest stamp brackets the cursor and never goes back, and the seed counts the re-anchorings since it was last reset |
| Clock.BracketHoldsExactly | driver/JackBridge/Plug-In/SA_Device.cpp:1502-1510 | the advertised stamp brackets the cursor after every action of a run if and only if no own store of the driver puts another number over an active daemon's |
| Clock.SampleTimeNeverGoesBack | daemon/JackBridge.cpp:321-326 | in such a run the advertised sample time never decreases |
| Clock.SampleTimeDropsExactly | driver/JackBridge/Plug-In/SA_Device.cpp:1502-1510 | a step decreases the advertised time exactly when the driver's own store brings a smaller number, or a callback about to stamp finds a number larger than its cursor's ring period |
| Clock.SettledIsUndisturbed | driver/JackBridge/Plug-In/SA_Device.cpp:1502-1510 | no such store exists if none was due at the activation and the driver is not reloaded under the active daemon |
| Clock.LateStoreBreaksTheBracket | driver/JackBridge/Plug-In/SA_Device.cpp:1502-1508 | an own store with number 7, decided before the first started callback and made after it, leaves a stamp that does not bracket the cursor |
| Clock.NextStampGoesBack | daemon/JackBridge.cpp:321-326 | the next boundary stamp then takes the advertised time back from period 7 to period 1 |
| Clock.ReloadBreaksTheBracket | driver/JackBridge/Plug-In/SA_Device.cpp:1770-1773 | after a reload under an active daemon the driver's next own stamp breaks the bracket unless it names the daemon's period |
| Clock.ClockFromConstruction | daemon/JackBridge.cpp:270-347 | from construction: alignment, fitting copies, the daemon's bracket and the seed after any run, and the advertised bracket after any run without those two causes |
| Clock.ReanchorRoundsDown | daemon/JackBridge.cpp:271-285 | re-anchoring maps the clock to the start of the cursor's ring period, and to the cursor itself only on a boundary |
| Clock.SyncModeExactly | driver/JackBridge/Plug-In/SA_Device.cpp:1770-1773 | after SyncMode was cleared it is on again if and only if the daemon was not active then, has made a started callback since, and the driver was not reloaded after that |
| Lifecycle.StartedExactly | driver/JackBridge/Plug-In/SA_Device.cpp:1397-1432 | with the state lock free, the shared status is STARTED if and only if the start count is positive and the daemon has not shut down since the driver published it |
| Lifecycle.ShutdownSticks | daemon/JackBridge.cpp:389 | after a shutdown under running clients, no mix of starts and stops publishes STARTED until the count has been 0 |
| Lifecycle.OperationsAreSteps | driver/JackBridge/Plug-In/SA_Device.cpp:1397-1432 | the methods as wholes are the uninterrupted store-by-store operations |
| Lifecycle.StopUndoesStart | driver/JackBridge/Plug-In/SA_Device.cpp:1417-1432 | a stop undoes a successful start, nested or outermost |
| DriverDevice.SA_Device.constructor | driver/JackBridge/Plug-In/SA_Device.cpp:74-105 | a new device is not started, not opened, and has nothing announced |
| DriverDevice.SA_Device.HwOpen | driver/JackBridge/Plug-In/SA_Device.cpp:1770-1774 | opening activates the driver, resets seed and SyncMode, and leaves every other register |
| DriverDevice.SA_Device.HwClose | driver/JackBridge/Plug-In/SA_Device.cpp:1793-1797 | closing is the lifecycle's close step |
| DriverDevice.SA_Device.StartIO | driver/JackBridge/Plug-In/SA_Device.cpp:1397-1415 | count, status and outcome are the lifecycle's, the first start re-arms the watchdog and the driver's clock, a failed one leaves the watchdog alone |
| DriverDevice.SA_Device.HwStartIO | driver/JackBridge/Plug-In/SA_Device.cpp:1799-1817 | fails exactly when the driver was closed, and then changes nothing |
| DriverDevice.SA_Device.StopIO | driver/JackBridge/Plug-In/SA_Device.cpp:1417-1432 | count and status are the lifecycle's |
| DriverDevice.SA_Device.GetZeroTimeStamp | driver/JackBridge/Plug-In/SA_Device.cpp:1434-1512 | one watchdog poll, at most one advance of the driver's clock, then the daemon's pair in sync mode or else the driver's own, published: the ideal clock's host time rounded down to a tick, and never the start of a period that has not begun when the clock has just moved on |
| DriverDevice.OwnClockIsIdeal | driver/JackBridge/Plug-In/SA_Device.cpp:1493-1507 | without wrap-around, period 0 starts at the anchor, period k within one tick below anchor + k periods, and the clock is due to move on when the next period starts |
| DriverDevice.OwnStampIsIdeal | driver/JackBridge/Plug-In/SA_Device.cpp:1493-1510 | what a call reports is the ideal time in whole ticks, and not later than the clock reading if the call has moved the stamp on |
| DriverDevice.ThresholdIsFivePeriods | driver/JackBridge/Plug-In/SA_Device.cpp:1479-1480 | the staleness threshold is five ring periods to within one tick |
| DriverDevice.SA_Device.UpdateLiveness | driver/JackBridge/Plug-In/SA_Device.cpp:1447-1492 | the nested tests are one poll of the watchdog with its guards |
| Watchdog.AliveIffRecentChange | driver/JackBridge/Plug-In/SA_Device.cpp:1447-1492 | after any polls since StartIO, each with its own guards and threshold, the device is dead if and only if some armed poll found the counter stale past its threshold and it has not changed since; whatever was announced before, notifications since alternate, starting with dead, one per flip |
| Watchdog.SteadyThreshold | driver/JackBridge/Plug-In/SA_Device.cpp:1479-1480 | with guards and threshold fixed: alive if and only if the counter changed within the threshold of the last poll |
| Watchdog.AlternatesExactly | driver/JackBridge/Plug-In/SA_Device.cpp:1447-1492 | over any run of polls and starts, at any times, the host is told of deaths and revivals alternately, died first, if and only if no poll trips after a start that found the device dead |
| Watchdog.SilentRearm | driver/JackBridge/Plug-In/SA_Device.cpp:1813-1815 | that happens: a death, a start that is not announced, and a second death give two deaths in a row |
| Watchdog.DisarmedNeverFires | driver/JackBridge/Plug-In/SA_Device.cpp:1463-1478 | while a guard fails the device is never declared dead |
| Watchdog.ShutdownStoreIsAChange | daemon/JackBridge.cpp:383-388 | the poll that sees the shutdown store of 0 finds the device dead only if the counter already read 0 and is or had been found stale |
| Seqlock.StepKeepsInv | driver/JackBridge/Plug-In/SA_Device.cpp:1588-1600 | the word is even exactly between publications, where the fields are those of the latest, at every single store and load |
| Seqlock.WordIsFaithful | daemon/JackBridge.cpp:669-673 | the 64-bit word tells two moments apart, and their parity, until it has gone all the way round |
| Seqlock.AcceptsExactly | daemon/JackBridge.cpp:666-673 | an attempt that has loaded its fields is accepted if and only if the word was not stored to since its first load and no publication was under way then; otherwise it takes nothing and retries |
| Seqlock.SnapshotIsLatestPublication | daemon/JackBridge.cpp:666-673 | read off the schedule: an attempt is accepted if and only if no publication was under way at its first load or began since, and then its value i is the one the latest finished publication was given for the i-th field asked for |
| Seqlock.SnapshotsAreConsistent | daemon/JackBridge.cpp:666-673 | in every interleaving the publications are the values given to the finished ones, in order, each accepted snapshot of any fields holds one of them, the one its number names, and the numbers never go back |
| ZeroTimeStamp.StepKeepsInv | daemon/JackBridge.cpp:270-326 | whatever a register or a result got from the daemon is the value of the stamp it came from |
| ZeroTimeStamp.StampsAreScheduled | daemon/JackBridge.cpp:270-326 | every stamp was begun by an action of the schedule, has that action's clock reading, and its number times the ring brackets the cursor at that moment |
| ZeroTimeStampRefinement.RunRefines | daemon/JackBridge.cpp:254-349 | every run of the bridge, callback by callback, is a run of the access-by-access protocol with the same registers, cursor and own stamps |
| ZeroTimeStampRefinement.UninterruptedRead | driver/JackBridge/Plug-In/SA_Device.cpp:1502-1511 | an uninterrupted call in sync mode returns exactly the two registers |
| ZeroTimeStamp.DaemonValuesAreOrdered | driver/JackBridge/Plug-In/SA_Device.cpp:1502-1511 | from the daemon's construction, in every interleaving, with own stores of the driver and reloads at any time: whenever a call returns two values of the daemon, the host time is of the same or a later stamp than the number |
| ZeroTimeStamp.NeverEarlierExactly | driver/JackBridge/Plug-In/SA_Device.cpp:1503-1504 | a call in any such run returns a number with a host time of the same or a later stamp if and only if the daemon was the last to store the number at the first load and the host time at the second |
| ZeroTimeStamp.HostIsNeverEarlier | driver/JackBridge/Plug-In/SA_Device.cpp:1502-1511 | from a settled state on, in every interleaving and through reloads of the driver, both values of every call are the daemon's and the host time is never from an earlier stamp than the number |
| ZeroTimeStamp.WholeStampSettles | daemon/JackBridge.cpp:321-326 | from any moment with no own store outstanding, any run that ends in sync mode and in which the daemon begins and completes a stamp settles the registers, whatever the driver does meanwhile |
| ZeroTimeStamp.LaterCallsNeverEarlier | driver/JackBridge/Plug-In/SA_Device.cpp:1502-1511 | once the registers are settled every call begun afterwards is never earlier; only one already past its first load may return what it had loaded |
| ZeroTimeStamp.NeverEarlierFromConstruction | driver/JackBridge/Plug-In/SA_Device.cpp:1502-1511 | how a caller can be sure of it: after a moment with no own store outstanding and one whole stamp, in sync mode, every call begun returns two values of the daemon, so ordered, in every interleaving |
| ZeroTimeStamp.OnePairExactly | driver/JackBridge/Plug-In/SA_Device.cpp:1503-1504 | a call's two values come from one stamp if and only if no stamp was half stored at the first load and none began before the second |
| ZeroTimeStamp.UnoverlappedCallIsOnePair | driver/JackBridge/Plug-In/SA_Device.cpp:1502-1511 | a call during which no stamp is under way returns the latest stamp's pair |
| ZeroTimeStamp.NextStampSettles | daemon/JackBridge.cpp:321-326 | the shortest way to settle: one stamp's two stores with the driver outside a call |
| ZeroTimeStamp.CallAcrossTheStamp | driver/JackBridge/Plug-In/SA_Device.cpp:1503-1504 | a call that loads the number between those stores keeps the old one: the registers settle, the call does not |
| ZeroTimeStamp.LateStoreUnsettles | driver/JackBridge/Plug-In/SA_Device.cpp:1502-1510 | a driver store decided before sync mode and made after it is returned by a later call, although no stamp ever had those values |
| ZeroTimeStamp.StampDuringCallTears | driver/JackBridge/Plug-In/SA_Device.cpp:1503-1504 | a stamp beginning between the two loads tears the pair, so "never earlier" is the most that holds |
| WireWakeup.NoLostWakeup | daemon/JackBridge.cpp:394-409 | in every interleaving, a registered port that no walk of its direction has seen since has its callback still to store, the flag set with a wakeup under way, or main inside the pass that will see it |
| WireWakeup.AnnouncedPortsAreProtected | daemon/JackBridge.cpp:405-407 | once its callback has stored, such a port has the flag set and a signal pending, coming, or just taken |
| WireWakeup.UncoveredExactly | daemon/JackBridge.cpp:394-409 | read off the schedule: a port is uncovered if and only if it was so initially or registered, and no walk of its own direction has begun since |
| WireWakeup.WalksExactly | daemon/JackBridge.cpp:767-783 | main wakes exactly for a signal raised since it last took one, and then walks both directions exactly if the flag was stored since it last exchanged it |
| WireWakeup.StepDecreasesWork | daemon/JackBridge.cpp:774-782 | every internal step decreases a measure, so the schedule is finite |
| WireWakeup.EveryPortIsCovered | daemon/JackBridge.cpp:767-783 | with no new registration and no request to exit, every schedule is bounded, and once it cannot go on every port ever registered has had a walk of its own direction begun after its registration |
| StressTest.MirrorIncreases | tools/stress_atomic.cpp:66-67 | the mirrored words increase for all iterations if and only if these fit 32 bits |
| StressTest.StressIsSound | tools/stress_atomic.cpp:63-121 | in every interleaving of single-cell accesses: no torn word, no regression, no cell older than the sequence number, and only exit code 0 |
| StressTest.VerdictIsExact | tools/stress_atomic.cpp:85-120 | on any memory, however it changes, the exit code is 2 if a loaded word or number went back, else 3 if a word was torn or a scanned cell older than its number, else 0 |
| StressTest.ScanFindsOlderCell | tools/stress_atomic.cpp:106-110 | the scan misses no cell: the first one older than a positive number is counted |
| StressTest.ConsumerExits | tools/stress_atomic.cpp:85-120 | after the producer has finished, the consumer exits with code 0 within a bounded number of its own steps |
| ObjectRegistry.ApplyKeepsValid | driver/JackBridge/Plug-In/SA_Object.cpp:330-485 | every operation keeps IDs mapped to live objects, each live object with an ID and a positive 64-bit count |
| ObjectRegistry.DestroysExactly | driver/JackBridge/Plug-In/SA_Object.cpp:367-485 | an object's life ends exactly with its last ID or its last reference, nothing else leaves, and no ID of it is kept |
| ObjectRegistry.CountsAndDestructions | driver/JackBridge/Plug-In/SA_Object.cpp:330-485 | over every sequence of operations a live object's count is 1 + retains + copies - releases, and each object was queued for destruction once per ended life |
| ObjectRegistry.DeadStaysDead | driver/JackBridge/Plug-In/SA_Object.cpp:401-425 | an object that is not live is never returned or queued again by operations that do not map it again |
| ObjectMap.RepresentsIsValid | driver/JackBridge/Plug-In/SA_Object.h:239-248 | a well-formed entry list is a consistent registry |
| ObjectMap.EntryIDs | driver/JackBridge/Plug-In/SA_Object.h:239-248 | the IDs that lead to an object are exactly those of its one entry |
| ObjectMap.RewriteRefines | driver/JackBridge/Plug-In/SA_Object.cpp:330-485 | replacing one entry changes the registry for that object only |
| ObjectMap.EraseRefines | driver/JackBridge/Plug-In/SA_Object.cpp:384-390 | erasing an entry removes its object and all its IDs and nothing else |
| ObjectMap.UnmapRefines | driver/JackBridge/Plug-In/SA_Object.cpp:367-399 | removing an ID from its entry, and the entry with its last ID, is the registry's unmap, and destroys exactly then |
| ObjectMap.ReleaseRefines | driver/JackBridge/Plug-In/SA_Object.cpp:452-485 | counting down, and erasing at 0, is the registry's release, and destroys exactly then |
| ObjectMap.FindByID | driver/JackBridge/Plug-In/SA_Object.cpp:338 | the linear search finds an entry with the ID exactly when there is one |
| ObjectMap.FindByObject | driver/JackBridge/Plug-In/SA_Object.cpp:345 | the linear search finds the object's entry exactly when there is one |
| ObjectMap.SA_ObjectMap.constructor | driver/JackBridge/Plug-In/SA_Object.cpp:221-228 | an empty map whose first ID is 32 |
| ObjectMap.SA_ObjectMap.GetNextObjectID | driver/JackBridge/Plug-In/SA_Object.cpp:325-328 | IDs count up modulo 2^32 |
| ObjectMap.SA_ObjectMap.MapObject | driver/JackBridge/Plug-In/SA_Object.cpp:330-365 | the list refines the registry's map operation; the answer is whether the ID was free and both arguments valid |
| ObjectMap.SA_ObjectMap.UnmapObject | driver/JackBridge/Plug-In/SA_Object.cpp:367-399 | the list refines the registry's unmap; the object is dispatched for destruction exactly with its last ID |
| ObjectMap.SA_ObjectMap.CopyObjectByObjectID | driver/JackBridge/Plug-In/SA_Object.cpp:401-425 | the list refines the registry's copy; the answer is the object of the ID unless its count is at the maximum |
| ObjectMap.SA_ObjectMap.RetainObject | driver/JackBridge/Plug-In/SA_Object.cpp:427-450 | the list refines the registry's retain; the answer is the new count, 0 for an unknown object |
| ObjectMap.SA_ObjectMap.ReleaseObject | driver/JackBridge/Plug-In/SA_Object.cpp:452-485 | the list refines the registry's release; the object is dispatched exactly with its last reference |
| Releaser.SA_ObjectReleaser.CopyOf | driver/JackBridge/Plug-In/SA_Object.h:271 | a copy of a holder retains its object |
| Releaser.SA_ObjectReleaser.Destroy | driver/JackBridge/Plug-In/SA_Object.h:272 | a destroyed holder releases its object, dispatching it if that was the last reference |
| Releaser.SA_ObjectReleaser.Assign | driver/JackBridge/Plug-In/SA_Object.h:273 | the holder ends up with the other's object, which is retained, and the old one is released if it differs, dispatching it if that was the last reference |
| Releaser.AssignmentMovesOneReference | driver/JackBridge/Plug-In/SA_Object.h:273 | assignment moves exactly one reference if and only if the holders' objects differ or both are NULL; otherwise one is leaked |
| Releaser.CopyThenDestroy | driver/JackBridge/Plug-In/SA_Object.h:271-272 | copying a holder and destroying the copy leaves the map as it was |
| Teardown.StepKeepsInv | driver/JackBridge/Plug-In/SA_PlugIn.cpp:345-357 | every reference is accounted for at every step of the block and of the clients |
| Teardown.DestroyedExactlyOnce | driver/JackBridge/Plug-In/SA_PlugIn.cpp:334-359 | with any clients and any interleaving, exceptions included, the device is in the map exactly while a reference is left, counted by it, and has been dispatched for destruction once exactly when none is |
| Teardown.DispatchIsLastRelease | driver/JackBridge/Plug-In/SA_Object.cpp:452-485 | the dispatching step is the release of the last reference, by whoever makes it, and no other |
| Teardown.DestructionComes | driver/JackBridge/Plug-In/SA_PlugIn.cpp:345-357 | in any interleaving, once the block has made its steps and the clients hold nothing, the device is gone and was dispatched once if and only if the block did not give up (copy at the maximal count, or an exception) |
| Teardown.OwnIdIsTheLast | driver/JackBridge/Plug-In/SA_Device.cpp:149-158 | after the stream IDs only the device's own ID is left; unmapping it too would destroy the device with at least two references outstanding |
| PlugIn.SA_PlugIn.RemoveDevice | driver/JackBridge/Plug-In/SA_PlugIn.cpp:309-332 | the loop removes the first entry with the device's ID and no other |
| PlugIn.UnlistedIs | driver/JackBridge/Plug-In/SA_PlugIn.cpp:309-332 | from a list without repetitions exactly that ID goes |
| PlugIn.SA_PlugIn.CreateDevice | driver/JackBridge/Plug-In/SA_PlugIn.cpp:261-281 | one creation, succeeding or failing at each place it can |
| PlugIn.SA_PlugIn.CreateDevices | driver/JackBridge/Plug-In/SA_PlugIn.cpp:256-283 | the loop is the fold of single creations, starting with no device in the variable |
| PlugIn.NotActivatedEffect | driver/JackBridge/Plug-In/SA_PlugIn.cpp:277-281 | a failed activation leaves no trace in the map or the list, and the object is queued for destruction |
| PlugIn.ActivatedEffect | driver/JackBridge/Plug-In/SA_Device.cpp:107-124 | a successful creation has one reference and exactly its own and its stream IDs |
| PlugIn.NoObjectEffect | driver/JackBridge/Plug-In/SA_PlugIn.cpp:260-281 | a creation that fails without an object changes nothing if and only if the device of the creation before it is neither live nor listed |
| PlugIn.CreationsKeepExactly | driver/JackBridge/Plug-In/SA_PlugIn.cpp:256-283 | over every sequence of creations, with addresses of destroyed devices reused at will, a device survives if and only if its creation succeeded and the next one got an object; earlier objects are untouched and the list stays consistent |
| PlugIn.SA_PlugIn.RemoveAllDevices | driver/JackBridge/Plug-In/SA_PlugIn.cpp:334-344 | one block is queued per entry, in order; the entries stay, zeroed, so a second call queues only blocks for ID 0 |
| PlugIn.SA_PlugIn.TeardownBlock | driver/JackBridge/Plug-In/SA_PlugIn.cpp:345-357 | the block, also when Deactivate throws half way, is an uninterrupted run of the teardown's steps, and does nothing for an ID that resolves to nothing |
| PlugIn.UninterruptedTeardown | driver/JackBridge/Plug-In/SA_PlugIn.cpp:345-357 | run to its end the block leaves exactly the clients' references, or none and one pending destruction |
| Mutex.CAMutex.Lock | driver/PublicUtility/CAMutex.cpp:118-168 | the caller owns the mutex afterwards; the answer is whether it did not before |
| Mutex.CAMutex.Unlock | driver/PublicUtility/CAMutex.cpp:170-211 | only the owner's unlock has an effect, and it frees the mutex whatever the nesting |
| Mutex.CAMutex.Try | driver/PublicUtility/CAMutex.cpp:213-308 | succeeds exactly when free or owned; reports a real lock exactly when it was free |
| Mutex.Locker.constructor | driver/PublicUtility/CAMutex.h:109-112 | owns the mutex; remembers whether the lock was a real one |
| Mutex.Locker.Destroy | driver/PublicUtility/CAMutex.h:113 | unlocks only what its own constructor locked |
| Mutex.Tryer.constructor | driver/PublicUtility/CAMutex.h:142-149 | has the lock exactly when the caller owns the mutex; remembers a real lock |
| Mutex.Unlocker.constructor | driver/PublicUtility/CAMutex.cpp:329-337 | gives the mutex up if the caller owns it, and wants it back in any case |
| Mutex.Unlocker.Destroy | driver/PublicUtility/CAMutex.cpp:339-345 | the caller owns the mutex afterwards |
| Mutex.ScopesRestoreOwnership | driver/PublicUtility/CAMutex.h:102-160 | in every nesting, each scope leaves the ownership it found if and only if every Unlocker stands where the thread owns the mutex |
| Mutex.LocksBalance | driver/PublicUtility/CAMutex.h:102-160 | in every nesting, real locks less real unlocks is the change of ownership; rightly nested scopes balance |
| Mutex.RunScopes | driver/PublicUtility/CAMutex.cpp:329-345 | any nesting, run on the objects with failing tries made by another thread, has the ownership and lock counts of the specification |
| MutexThreads.StepKeepsInv | driver/PublicUtility/CAMutex.cpp:118-211 | owner, holder and every thread's place stay consistent at each separate step |
| MutexThreads.MutualExclusion | driver/PublicUtility/CAMutex.cpp:118-308 | in every interleaving at most one thread is inside, a thread reads itself as owner exactly when it is, then it holds the pthread mutex, and no thread waits for itself |
| MutexThreads.IsFreeIsRightOutsideTheGaps | driver/PublicUtility/CAMutex.cpp:310-313 | with the owner 0, the pthread mutex is free if and only if no thread is between its pthread call and its owner write |
| MutexThreads.FreeOwnerHeldMutex | driver/PublicUtility/CAMutex.cpp:134-136 | two steps into a lock the mutex is held while the owner field says free |
| MutexThreads.UninterruptedLock | driver/PublicUtility/CAMutex.cpp:118-168 | the three steps of a lock nobody interrupts are the class's Lock |
| MutexThreads.UninterruptedUnlock | driver/PublicUtility/CAMutex.cpp:170-211 | the three steps of an unlock nobody interrupts are the class's Unlock |
| XrunWatcher.NextMinute | pi/bin/jackbridge-xrun-watcher:73-77 | zeroing one bucket moves the fifteen-minute window by one minute |
| XrunWatcher.OneMoreMatch | pi/bin/jackbridge-xrun-watcher:83-85 | one increment keeps the counts of the window in step with the history |
| XrunWatcher.Watcher.WriteFile | pi/bin/jackbridge-xrun-watcher:29-37 | the rows are the last fifteen minutes, oldest first, with the counts of the full history |
| XrunWatcher.Watcher.Advance | pi/bin/jackbridge-xrun-watcher:72-77 | a jump of any length keeps the buckets in agreement with the history |
| XrunWatcher.Watcher.Iterate | pi/bin/jackbridge-xrun-watcher:67-93 | one iteration handles one line at most, writes at most one file, at least a second after the last, none at the end of input, and leaves counts unwritten for less than a second |
| XrunWatcher.Watcher.Watch | pi/bin/jackbridge-xrun-watcher:65-93 | over any events whose minutes do not go back, the buckets agree with the matching lines up to the end of input, and every file written shows the fifteen minutes up to its own with exactly the lines handled by that event |
| XrunWatcher.FileShowsTheLog | pi/bin/jackbridge-xrun-watcher:29-37 | a file has fifteen rows a minute apart, the last one the minute of writing, each with the number of matching lines handled within its sixty seconds |
| HostTime.AnswerIsExact | driver/PublicUtility/CAHostTimeBase.h:219-232 | the 128-bit product never overflows, and the answer is the exact rounded-down ratio if and only if that fits 64 bits |
| HostTime.Monotone | driver/PublicUtility/CAHostTimeBase.h:219-232 | conversion is monotone up to the largest time that fits |
| HostTime.RoundTrip | driver/PublicUtility/CAHostTimeBase.h:150-178 | to nanoseconds and back never gains and loses at most ceil((D-1)/N) ticks, at most one when N >= D |
| HostTime.AbsoluteDifference | driver/PublicUtility/CAHostTimeBase.h:185-200 | in either order, the absolute difference is the exact quotient of the ticks between the times if and only if that fits 64 bits, and that quotient modulo 2^64 otherwise |
| HostTime.SignedDifference | driver/PublicUtility/CAHostTimeBase.h:185-217 | the signed difference has the absolute one as magnitude, with the right sign, exactly when it fits a signed word; it is antisymmetric except at 2^63 |

## Left out

- Weak memory: every atomic access is one sequentially consistent step; Dafny has no C++ memory model.
- Whether the driver's sample times stay within a ring of the daemon's cursor. Nothing in the code ties the two
  clocks, so this is a hypothesis of the capture and playback theorems, never a conclusion.
- Reads and writes of more than one ring at a time, which would run past the ring in the code as well.
- JACK periods that change or do not divide the ring; the unwrapped copies would leave the ring.
- A driver that dies in the middle of a seqlock publication, leaving the word odd.
- Seqlock.SnapshotsAreConsistent: does not cover 2^63 or more publications during a single snapshot attempt,
  where the 64-bit word has gone all the way round and the code would accept a torn snapshot as well.
- Session.ExecuteAll: does not interleave the accesses of two calls; calls follow one another there, and the
  interleavings are the subject of the sample-level rings and of the protocols.
- Clock.ClockOverRuns: does not cover a cursor past 2^64 frames, where the bracket fails; the audio results do.
  `ZeroTimeStampRefinement` has the same bound.
- DriverDevice.OwnClockIsIdeal: does not cover host times or stamp counts that wrap around 64 bits.
- ZeroTimeStamp.NeverEarlierFromConstruction: does not go beyond the life of one daemon; a new one begins again at
  the initial state.
- PlugIn.SA_PlugIn.CreateDevice: does not say that the ID of the latest device may be read through a destroyed
  object, which the code does when a creation without an object follows a failed activation; the model reads the ID
  the device had.
- ObjectMap.SA_ObjectMap.ReleaseObject: does not say what is answered after the last release, because the code
  reads it through an erased iterator; the model leaves it arbitrary.
- Teardown.DestroyedExactlyOnce: does not include a client's retain at a count of 2^64 - 1, where the holder gets
  no reference of its own; a copy at that count is included.
- PlugIn.CreationsKeepExactly: does not cover a 32-bit ID counter that has wrapped around onto IDs in use.
- The host clock, health counters, latency figures and the sample-time conversion from floating point; times are
  words, rates are reals.
- The property tables and COM entry points of the plug-in, the CoreFoundation wrappers, and logging: flat case
  analysis or thin wrappers.
- The dispatch queue beyond its order, workgroups and thread policy, MIDI, configuration files, opening and
  mapping shared memory: foreign calls.
- The protocol version handshake: one load and one store with a race its comment accepts.
- A wall clock that steps back to an earlier minute in the xrun watcher, and failing file writes, which end it.
- Installers, launch agents, route scripts and the capture analysis script.
