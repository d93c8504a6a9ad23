/** shared/JackBridge.h and the register side of daemon/JackBridge.cpp `process_callback`: the shared
    control words, the daemon's cursor, and how one callback changes them. */
module Registers {
  import opened Arithmetic

  const STATUS_INIT: UInt64 := 0
  const STATUS_ACTIVE: UInt64 := 1
  const STATUS_STARTED: UInt64 := 2

  const STREAM_BYTES: nat := 0x8000
  const SAMPLE_BYTES: nat := 4
  const RING_FRAMES: nat := STREAM_BYTES / SAMPLE_BYTES / 2

  /** A JACK period of n frames and a ring of r frames that fit together and fit the word size. */
  ghost predicate Geometry(n: nat, r: nat) {
    0 < n < TWO64 && 0 < r && r % n == 0 && TWO64 % r == 0
  }

  datatype Shared = Shared(numberTimeStamps: UInt64, zeroHostTime: UInt64, seed: UInt64,
                           syncMode: UInt64, driverStatus: UInt64, daemonAlive: UInt64)

  datatype Daemon = Daemon(frameNumber: UInt64, isActive: bool, lastDriverStatus: UInt64)

  datatype Control = Control(shm: Shared, daemon: Daemon)

  /** The daemon object as constructed; it also clears SyncMode. */
  function Constructed(shm: Shared): Control {
    Control(shm.(syncMode := 0), Daemon(0, false, STATUS_ACTIVE))
  }

  function Heartbeat(c: Control): Control {
    c.(shm := c.shm.(daemonAlive := Wrap64(c.shm.daemonAlive + 1)))
  }

  predicate Restarting(c: Control) {
    c.shm.driverStatus == STATUS_STARTED && c.daemon.lastDriverStatus != STATUS_STARTED
  }

  function Stamped(c: Control, ring: nat, now: UInt64): Control
    requires 0 < ring
  {
    c.(shm := c.shm.(zeroHostTime := now, numberTimeStamps := c.daemon.frameNumber / ring))
  }

  /** Detects a restart of the driver, re-anchoring the clock, and remembers the status seen. */
  function Observed(c: Control, ring: nat, now: UInt64): Control
    requires 0 < ring
  {
    var a := if Restarting(c)
             then var s := Stamped(c, ring, now); s.(shm := s.shm.(seed := Wrap64(s.shm.seed + 1)))
             else c;
    a.(daemon := a.daemon.(lastDriverStatus := c.shm.driverStatus))
  }

  /** First started callback of this daemon: zero the cursor and enter sync mode. */
  function Activated(c: Control): Control {
    if c.daemon.isActive then c
    else
      Control(c.shm.(syncMode := 1, numberTimeStamps := 0, seed := Wrap64(c.shm.seed + 1)),
              c.daemon.(frameNumber := 0, isActive := true))
  }

  function StampedAtBoundary(c: Control, ring: nat, now: UInt64): Control
    requires 0 < ring
  {
    if c.daemon.frameNumber % ring == 0 then Stamped(c, ring, now) else c
  }

  /** The cursor at which a started callback copies audio. */
  function CopyCursor(d: Daemon): UInt64 {
    if d.isActive then d.frameNumber else 0
  }

  /** The state in which a started callback copies audio. */
  function Ready(c: Control, ring: nat, anchorTime: UInt64, stampTime: UInt64): Control
    requires 0 < ring
  {
    StampedAtBoundary(Activated(Observed(Heartbeat(c), ring, anchorTime)), ring, stampTime)
  }

  /** A callback in this state stores a stamp number. */
  predicate Stamps(c: Control, ring: nat)
    requires 0 < ring
  {
    c.shm.driverStatus == STATUS_STARTED
    && (Restarting(c) || !c.daemon.isActive || c.daemon.frameNumber % ring == 0)
  }

  function Advanced(c: Control, n: nat): Control {
    c.(daemon := c.daemon.(frameNumber := Wrap64(c.daemon.frameNumber + n)))
  }

  /** One `process_callback` of n frames. */
  function Callback(c: Control, n: nat, ring: nat, anchorTime: UInt64, stampTime: UInt64): Control
    requires 0 < ring
  {
    if c.shm.driverStatus != STATUS_STARTED
    then Observed(Heartbeat(c), ring, anchorTime)
    else Advanced(Ready(c, ring, anchorTime, stampTime), n)
  }
}
