/** What the other end of the parallel wire makes of the signals. */
module WireReceiver {
  import opened Bytes

  datatype Signal =
    | Data(value: byte)
    | Control(validN: bool, clock: bool)
    | SampleReady(high: bool)
    | EpochOpened                    // not a wire event: the coordinator has found the peer recovered
    | SampleTicks

  /** The receiver samples the data lines at every falling clock edge with VALID low; VALID going low opens a
      record and VALID going high closes it.  `orderly` holds as long as every record opened with the clock
      high, after READY had been seen low, and after READY had been seen high since the record before it in
      the same epoch. */
  datatype Receiver = Receiver(
    data: byte, validN: bool, clock: bool,
    readyHigh: bool, released: bool, orderly: bool,
    record: seq<byte>, records: seq<seq<byte>>)
  {
    predicate AtRest() { validN && clock && record == [] }
  }

  const QUIET := Receiver(0, true, true, true, true, true, [], [])

  function Next(r: Receiver, s: Signal): Receiver
  {
    match s
    case Data(v) => r.(data := v)
    case SampleTicks => r
    case EpochOpened => r.(released := true)
    case SampleReady(high) => r.(readyHigh := high, released := r.released || high)
    case Control(v, c) =>
      if r.validN && !v then
        r.(validN := v, clock := c, orderly := r.orderly && r.clock && c && !r.readyHigh && r.released, released := false, record := [])
      else if !r.validN && v then
        r.(validN := v, clock := c, released := false, record := [], records := r.records + [r.record])
      else if !v && r.clock && !c then r.(clock := c, record := r.record + [r.data])
      else r.(validN := v, clock := c)
  }

  function Receive(trace: seq<Signal>): Receiver
  {
    if trace == [] then QUIET else Next(Receive(trace[..|trace| - 1]), trace[|trace| - 1])
  }

  lemma ReceiveOneMore(trace: seq<Signal>, s: Signal)
    ensures Receive(trace + [s]) == Next(Receive(trace), s)
  {
    assert (trace + [s])[..|trace|] == trace;
  }

  /** Everything received: complete records, then the open one. */
  function Received(r: Receiver): seq<byte> { Flatten(r.records) + r.record }

  /** `bytes` cut into records of `max` bytes, the last one possibly shorter. */
  function Chunks(bytes: seq<byte>, max: nat): seq<seq<byte>>
    requires max > 0
  {
    if bytes == [] then []
    else if |bytes| <= max then [bytes]
    else [bytes[..max]] + Chunks(bytes[max..], max)
  }

  /** Records lose no byte and respect the limit. */
  lemma {:induction false} ChunksArePartition(bytes: seq<byte>, max: nat)
    requires max > 0
    ensures Flatten(Chunks(bytes, max)) == bytes
    ensures forall i :: 0 <= i < |Chunks(bytes, max)| ==> 1 <= |Chunks(bytes, max)[i]| <= max
    decreases |bytes|
  {
    if bytes == [] {
    } else if |bytes| <= max {
      FlattenSnoc([], bytes);
      assert [] + [bytes] == [bytes];
    } else {
      ChunksArePartition(bytes[max..], max);
      FlattenConcat([bytes[..max]], Chunks(bytes[max..], max));
      FlattenSnoc([], bytes[..max]);
      assert [] + [bytes[..max]] == [bytes[..max]];
      assert bytes == bytes[..max] + bytes[max..];
    }
  }

  /** Cutting off the first `done` bytes at a chunk boundary. */
  lemma {:induction false} ChunksStep(bytes: seq<byte>, max: nat)
    requires max > 0 && bytes != []
    ensures var k := if |bytes| > max then max else |bytes|;
            Chunks(bytes, max) == [bytes[..k]] + Chunks(bytes[k..], max)
  {
    if |bytes| <= max { assert bytes[..|bytes|] == bytes && bytes[|bytes|..] == []; }
  }
}

/** The raw-stream to record engine. */
module ParallelEngine {
  import opened Bytes
  import opened WireReceiver

  type status = x: int | 0 <= x < 256

  const OK: status := 0x00
  const INVALID: status := 0xE0
  const NOT_OWNED: status := 0xE1
  const BUSY: status := 0xE2
  const ADMISSION_TIMEOUT: status := 0xE3
  const COMPLETION_TIMEOUT: status := 0xE4
  const CONFIG_ERROR: status := 0xE7
  const EPOCH_EXHAUSTED: status := 0xE8

  const MAX_RECORD_BYTES: nat := 4096
  const TICKS: int := 0x1_0000_0000

  datatype Buffer = NoBuffer | Buffer(bytes: seq<byte>)

  class Engine {
    var maximumRecordBytes: nat
    var admissionTimeoutTicks: nat
    var completionTimeoutTicks: nat
    var clockStallPollLimit: nat
    var recordsCompleted: nat
    var bytesCompleted: nat
    var configured: bool
    var epochOpen: bool
    var busy: bool
    var firstFault: status

    ghost var trace: seq<Signal>     // everything that has happened on the wire
    var now: nat                     // the clock of the machine, not wrapped

    ghost function Peer(): Receiver reads this { Receive(trace) }

    ghost predicate Valid()
      reads this
    {
      && (configured ==>
            && 0 < maximumRecordBytes <= MAX_RECORD_BYTES && 0 < clockStallPollLimit < 0x100_0000
            && 0 < admissionTimeoutTicks < 0x1_0000 && 0 < completionTimeoutTicks < 0x1_0000)
      && (!busy ==> Peer().AtRest() && Peer().orderly)
      && (!busy && epochOpen && firstFault == OK ==> Peer().released)
      && recordsCompleted < TICKS && bytesCompleted < TICKS
    }

    /** Before configuration: nothing has happened on the wire. */
    constructor ()
      ensures Valid() && trace == [] && !configured && !epochOpen && !busy && firstFault == OK
      ensures maximumRecordBytes == admissionTimeoutTicks == completionTimeoutTicks == clockStallPollLimit == 0
      ensures recordsCompleted == bytesCompleted == 0 && now == 0
    {
      maximumRecordBytes, admissionTimeoutTicks, completionTimeoutTicks, clockStallPollLimit := 0, 0, 0, 0;
      recordsCompleted, bytesCompleted, configured, epochOpen, busy, firstFault := 0, 0, false, false, false, OK;
      trace, now := [], 0;
    }

    // ---------------------------------------------------------------------- the injected wire operations

    /** While the engine is at the wire, an interrupt may latch a fault, never clear one; `fault` is what it has to say. */
    ghost predicate Latched(was: status, fault: status)
      reads `firstFault
    {
      firstFault == if was == OK then fault else was
    }

    ghost predicate OnlyLatched(was: status)
      reads `firstFault
    {
      was != OK ==> firstFault == was
    }

    method Interrupted() returns (ghost fault: status)
      modifies `firstFault
      ensures Latched(old(firstFault), fault)
    {
      var latch: status := *;
      fault := latch;
      if firstFault == OK { firstFault := latch; }
    }

    method WriteControl(validN: bool, clock: bool) returns (ghost fault: status)
      modifies `trace, `firstFault
      ensures Peer() == Next(old(Peer()), Control(validN, clock)) && Latched(old(firstFault), fault)
      ensures trace == old(trace) + [Control(validN, clock)]
    {
      ReceiveOneMore(trace, Control(validN, clock));
      trace := trace + [Control(validN, clock)];
      fault := Interrupted();
    }

    method Idle() returns (ghost fault: status)
      modifies `trace, `firstFault
      ensures Peer() == Next(old(Peer()), Control(true, true)) && Latched(old(firstFault), fault)
      ensures trace == old(trace) + [Control(true, true)]
    {
      fault := WriteControl(true, true);
    }

    // between the signals that open and close a record, none goes out once a fault is latched

    method RecordData(value: byte)
      requires firstFault == OK
      modifies `trace, `firstFault
      ensures Peer() == Next(old(Peer()), Data(value)) && trace == old(trace) + [Data(value)]
    {
      ReceiveOneMore(trace, Data(value));
      trace := trace + [Data(value)];
      ghost var fault := Interrupted();
    }

    method RecordControl(clock: bool)
      requires firstFault == OK
      modifies `trace, `firstFault
      ensures Peer() == Next(old(Peer()), Control(false, clock)) && trace == old(trace) + [Control(false, clock)]
    {
      ghost var fault := WriteControl(false, clock);
    }

    method ReadReady() returns (high: bool)
      modifies `trace, `firstFault
      ensures Peer() == Next(old(Peer()), SampleReady(high)) && OnlyLatched(old(firstFault))
      ensures trace == old(trace) + [SampleReady(high)]
    {
      high := *;
      ReceiveOneMore(trace, SampleReady(high));
      trace := trace + [SampleReady(high)];
      ghost var fault := Interrupted();
    }

    /** The 32-bit clock; it may stand still or run, but not through half its range between two polls. */
    method ReadTicks() returns (t: nat)
      modifies `trace, `firstFault, `now
      ensures Peer() == old(Peer()) && OnlyLatched(old(firstFault))
      ensures old(now) <= now <= old(now) + TICKS / 2 && t == now % TICKS && trace == old(trace) + [SampleTicks]
    {
      var advance :| 0 <= advance <= TICKS / 2;
      now := now + advance;
      t := now % TICKS;
      ReceiveOneMore(trace, SampleTicks);
      trace := trace + [SampleTicks];
      ghost var fault := Interrupted();
    }

    // ----------------------------------------------------------------------------------- the engine

    method LatchFault(status: status)
      modifies `firstFault
      ensures firstFault == if old(firstFault) == OK then status else old(firstFault)
    {
      if firstFault == OK && status != OK {
        firstFault := status;
      }
    }

    /** `emos_parallel_wait_ready`: it ends whatever READY and the clock do.  It succeeds in the turn in which the level is
        seen, ends in the turn in which a fault is, and times out only after `timeoutTicks` of the clock, or after as many
        polls as allowed for which the clock stood still. */
    method WaitReady(expected: bool, timeoutTicks: nat, timeoutStatus: status)
      returns (status: status, ghost why: Ending, ghost began: nat, ghost stood: nat)
      requires 0 < timeoutTicks < 0x1_0000 && 0 < clockStallPollLimit && timeoutStatus != OK
      modifies `trace, `firstFault, `now
      ensures OnlyLatched(old(firstFault)) && old(trace) <= trace
      ensures var r := old(Peer()); Peer() == r.(readyHigh := Peer().readyHigh, released := Peer().released)
      ensures old(Peer()).released ==> Peer().released
      ensures why == Seen ==> status == OK && Peer().readyHigh == expected && (expected ==> Peer().released)
      ensures why == Faulted ==> status == firstFault != OK
      ensures why in {Late, Stalled} ==> status == timeoutStatus
      ensures why == Late ==> old(now) <= began && now - began >= timeoutTicks
      ensures why == Stalled ==> stood >= clockStallPollLimit
    {
      hide Receive;
      ghost var r := Peer();
      var started := ReadTicks();
      began, stood := now, 0;
      var lastTick := started;
      var stalledPolls := 0;
      ghost var seen, fault := false, false;
      while true
        invariant OnlyLatched(old(firstFault)) && old(trace) <= trace
        invariant Peer() == r.(readyHigh := Peer().readyHigh, released := Peer().released)
        invariant r.released ==> Peer().released
        invariant old(now) <= began <= now < began + timeoutTicks && started == began % TICKS && lastTick == now % TICKS
        invariant 0 <= stalledPolls == stood < clockStallPollLimit && !seen && !fault
        decreases timeoutTicks - (now - began), clockStallPollLimit - stalledPolls
      {
        var readyN := ReadReady();
        seen, fault := Peer().readyHigh == expected, firstFault != OK;
        if readyN == expected { return OK, Seen, began, stood; }
        if firstFault != OK { return firstFault, Faulted, began, stood; }
        ghost var before := now;
        var currentTick := ReadTicks();
        ElapsedIsExact(began, now, started, currentTick);
        stood := if now == before then stood + 1 else 0;
        if (currentTick - started) % TICKS >= timeoutTicks { return timeoutStatus, Late, began, stood; }
        if currentTick != lastTick {
          lastTick := currentTick;
          stalledPolls := 0;
        } else {
          StandsStill(before, now);
          stalledPolls := stalledPolls + 1;
          if stalledPolls >= clockStallPollLimit { return timeoutStatus, Stalled, began, stood; }
        }
      }
    }

    /** What a wait that timed out has to show for it. */
    ghost predicate TimedOut(why: Ending, began: nat, stood: nat, ticks: nat)
      reads `now, `clockStallPollLimit
    {
      (why == Late && now - began >= ticks) || (why == Stalled && stood >= clockStallPollLimit)
    }

    /** The bytes of a record: each is on the data lines before its one falling edge, and the clock recovers after it. */
    method ClockBytes(bytes: seq<byte>) returns (status: status)
      requires firstFault == OK && !Peer().validN && Peer().clock && Peer().orderly && Peer().record == []
      modifies `trace, `firstFault
      ensures old(trace) <= trace && (status != OK ==> status == firstFault)
      ensures InRecord(old(Peer()), Peer(), Peer().record, |Peer().record|) && Peer().record <= bytes
      ensures status == OK ==> Peer().record == bytes && Peer().clock
    {
      hide Receive;
      ghost var r := Peer();
      var index := 0;
      while index < |bytes|
        invariant 0 <= index <= |bytes| && old(trace) <= trace && firstFault == OK
        invariant InRecord(r, Peer(), bytes, index) && Peer().clock
      {
        RecordData(bytes[index]);
        if firstFault != OK { return firstFault; }
        RecordControl(false);
        assert bytes[..index + 1] == bytes[..index] + [bytes[index]];
        if firstFault != OK { return firstFault; }
        RecordControl(true);
        if firstFault != OK { return firstFault; }
        index := index + 1;
      }
      assert bytes[..index] == bytes;
      status := OK;
    }

    /** `emos_parallel_write_record` */
    method WriteRecord(bytes: seq<byte>) returns (status: status, ghost why: Ending, ghost began: nat, ghost stood: nat)
      requires 0 < |bytes| <= MAX_RECORD_BYTES
      requires 0 < admissionTimeoutTicks < 0x1_0000 && 0 < completionTimeoutTicks < 0x1_0000 && 0 < clockStallPollLimit
      requires Peer().AtRest() && Peer().released && Peer().orderly
      requires recordsCompleted < TICKS && bytesCompleted < TICKS
      modifies `trace, `firstFault, `now, `recordsCompleted, `bytesCompleted
      ensures OnlyLatched(old(firstFault)) && old(trace) + [Control(true, true)] <= trace
      ensures recordsCompleted < TICKS && bytesCompleted < TICKS && Peer().orderly
      ensures status == OK ==> Peer().AtRest() && Peer().released && Peer().records == old(Peer().records) + [bytes]
      ensures status == OK ==> recordsCompleted == (old(recordsCompleted) + 1) % TICKS && bytesCompleted == (old(bytesCompleted) + |bytes|) % TICKS
      ensures status != OK ==> OpenOrClosed(old(Peer()), Peer(), bytes)
      ensures status != OK ==> recordsCompleted == old(recordsCompleted) && bytesCompleted == old(bytesCompleted)
      // it fails by a fault, or because the peer did not let the record begin in time, or did not confirm its end in time
      ensures status != OK ==>
                || (why == Faulted && status == firstFault)
                || (status == ADMISSION_TIMEOUT && TimedOut(why, began, stood, admissionTimeoutTicks) && Peer().records == old(Peer().records) && Peer().validN)
                || (status == COMPLETION_TIMEOUT && TimedOut(why, began, stood, completionTimeoutTicks) && Peer().records == old(Peer().records) + [bytes])
    {
      hide Receive;
      ghost var r := Peer();
      ghost var fault := Idle();
      status, why, began, stood := WaitReady(false, admissionTimeoutTicks, ADMISSION_TIMEOUT);
      if status != OK { return; }
      why := Faulted;
      fault := WriteControl(false, true);
      if firstFault != OK { return firstFault, why, began, stood; }
      status := ClockBytes(bytes);
      if status != OK { return; }
      fault := Idle();
      status, why, began, stood := WaitReady(true, completionTimeoutTicks, COMPLETION_TIMEOUT);
      if status != OK { return; }
      recordsCompleted := (recordsCompleted + 1) % TICKS;
      bytesCompleted := (bytesCompleted + |bytes|) % TICKS;
      status := OK;
    }

    /** `emos_parallel_engine_configure` */
    method Configure(opsGiven: bool, maximumRecordBytes: nat, admissionTimeoutTicks: nat, completionTimeoutTicks: nat, clockStallPollLimit: nat)
      returns (status: status)
      requires admissionTimeoutTicks < 0x1_0000 && completionTimeoutTicks < 0x1_0000 && clockStallPollLimit < 0x100_0000
      requires Valid() && !busy
      modifies this
      ensures Valid() && trace == old(trace) && !busy && !epochOpen
      ensures configured <==> opsGiven && 0 < maximumRecordBytes <= MAX_RECORD_BYTES && 0 < admissionTimeoutTicks
                              && 0 < completionTimeoutTicks && 0 < clockStallPollLimit
      ensures status == firstFault == if configured then OK else CONFIG_ERROR
      ensures this.maximumRecordBytes == maximumRecordBytes && this.admissionTimeoutTicks == admissionTimeoutTicks
      ensures this.completionTimeoutTicks == completionTimeoutTicks && this.clockStallPollLimit == clockStallPollLimit
      ensures recordsCompleted == bytesCompleted == 0
    {
      hide Receive;
      this.maximumRecordBytes := maximumRecordBytes;
      this.admissionTimeoutTicks := admissionTimeoutTicks;
      this.completionTimeoutTicks := completionTimeoutTicks;
      this.clockStallPollLimit := clockStallPollLimit;
      recordsCompleted, bytesCompleted := 0, 0;
      configured, epochOpen, busy := false, false, false;
      firstFault := CONFIG_ERROR;
      if !opsGiven || maximumRecordBytes == 0 || maximumRecordBytes > MAX_RECORD_BYTES
         || admissionTimeoutTicks == 0 || completionTimeoutTicks == 0 || clockStallPollLimit == 0 {
        return CONFIG_ERROR;
      }
      configured := true;
      firstFault := OK;
      status := OK;
    }

    /** `emos_parallel_engine_open` */
    method Open() returns (status: status, ghost fault: status)
      requires Valid()
      modifies this
      ensures Valid() && configured == old(configured)
      ensures !old(configured) ==> status == CONFIG_ERROR && Untouched(old(trace), old(firstFault), old(epochOpen), old(busy))
      ensures old(configured) && old(busy) ==> status == BUSY && Untouched(old(trace), old(firstFault), old(epochOpen), old(busy))
      ensures old(configured) && !old(busy) ==>
                && status == OK && epochOpen && !busy && Peer() == old(Peer()).(released := true)
                && firstFault == fault && trace == old(trace) + [EpochOpened, Control(true, true)]
    {
      fault := OK;
      if !configured { return CONFIG_ERROR, fault; }
      if busy { return BUSY, fault; }
      firstFault := OK;
      epochOpen := true;
      ReceiveOneMore(trace, EpochOpened);
      trace := trace + [EpochOpened];
      fault := Idle();
      status := OK;
    }

    /** `emos_parallel_engine_close` */
    method Close() returns (status: status, ghost fault: status)
      requires Valid()
      modifies this
      ensures Valid() && configured == old(configured)
      ensures !old(configured) ==> status == CONFIG_ERROR && Untouched(old(trace), old(firstFault), old(epochOpen), old(busy))
      ensures old(configured) && old(busy) ==> status == BUSY && Untouched(old(trace), old(firstFault), old(epochOpen), old(busy))
      ensures old(configured) && !old(busy) ==>
                && status == OK && !epochOpen && !busy && Peer() == old(Peer())
                && Latched(old(firstFault), fault) && trace == old(trace) + [Control(true, true)]
    {
      fault := OK;
      if !configured { return CONFIG_ERROR, fault; }
      if busy { return BUSY, fault; }
      fault := Idle();
      epochOpen := false;
      status := OK;
    }

    ghost predicate Untouched(trace: seq<Signal>, firstFault: status, epochOpen: bool, busy: bool)
      reads this
    {
      this.trace == trace && this.firstFault == firstFault && this.epochOpen == epochOpen && this.busy == busy
    }

    /** `emos_parallel_engine_write` */
    method Write(buffer: Buffer, length: nat) returns (status: status)
      requires Valid() && (buffer.Buffer? ==> length <= |buffer.bytes|)
      modifies this
      ensures Valid() && configured == old(configured) && epochOpen == old(epochOpen) && busy == old(busy)
      // calls that are refused, among them every call nested inside a running one, leave the wire alone
      ensures !old(configured) ==> status == CONFIG_ERROR && Untouched(old(trace), old(firstFault), old(epochOpen), old(busy))
      ensures old(configured) && !old(epochOpen) ==> status == NOT_OWNED && trace == old(trace) && Latched(old(firstFault), NOT_OWNED)
      ensures old(configured && epochOpen && busy) ==> status == BUSY && Untouched(old(trace), old(firstFault), old(epochOpen), old(busy))
      ensures old(configured && epochOpen && !busy && firstFault != OK) ==>
                status == old(firstFault) && Untouched(old(trace), old(firstFault), old(epochOpen), old(busy))
      ensures old(configured && epochOpen && !busy && firstFault == OK) && buffer.NoBuffer? && length != 0 ==>
                status == INVALID == firstFault && trace == old(trace)
      // a call that is admitted
      ensures old(configured && epochOpen && !busy && firstFault == OK) && (buffer.Buffer? || length == 0) ==>
                Delivered(old(Peer()), Peer(), if length == 0 then [] else buffer.bytes[..length], maximumRecordBytes, status)
                && (status != OK ==> firstFault != OK) && Counted(old(recordsCompleted), old(bytesCompleted), old(Peer()), status, length)
    {
      if !configured { return CONFIG_ERROR; }
      if !epochOpen {
        LatchFault(NOT_OWNED);
        return NOT_OWNED;
      }
      if busy { return BUSY; }
      if firstFault != OK { return firstFault; }
      if length != 0 && buffer.NoBuffer? {
        LatchFault(INVALID);
        return INVALID;
      }
      if length == 0 { return OK; }
      status := WriteRecords(buffer.bytes[..length]);
    }

    /** What was completed is counted, in records and in bytes. */
    ghost predicate Counted(records: nat, bytes: nat, r: Receiver, status: status, length: nat)
      reads this
    {
      status == OK ==>
        && bytesCompleted == (bytes + length) % TICKS
        && recordsCompleted == (records + (|Peer().records| - |r.records|)) % TICKS
    }

    /** The admitted part of `emos_parallel_engine_write`: busy spans every record of the stream. */
    method WriteRecords(bytes: seq<byte>) returns (status: status)
      requires Valid() && configured && epochOpen && !busy && firstFault == OK && bytes != []
      modifies `busy, `trace, `firstFault, `now, `recordsCompleted, `bytesCompleted
      ensures Valid() && !busy
      ensures Delivered(old(Peer()), Peer(), bytes, maximumRecordBytes, status)
      ensures status != OK ==> firstFault != OK
      ensures Counted(old(recordsCompleted), old(bytesCompleted), old(Peer()), status, |bytes|)
    {
      hide Receive, Chunks, Flatten, Progress, AtMost, Delivered, OpenOrClosed;
      busy := true;
      ghost var r := Peer();
      var cursor: nat, remaining: nat := 0, |bytes|;
      status := OK;
      NoProgress(r, bytes, maximumRecordBytes);
      while remaining != 0 && status == OK
        invariant cursor + remaining == |bytes|
        invariant busy && Valid()
        invariant status == OK ==> bytesCompleted == (old(bytesCompleted) + cursor) % TICKS
        invariant status == OK ==> recordsCompleted == (old(recordsCompleted) + (|Peer().records| - |r.records|)) % TICKS
        invariant status == OK ==> Peer().AtRest() && Peer().released && Peer().orderly && Progress(r, Peer(), bytes, cursor, maximumRecordBytes)
        invariant status != OK ==> Peer().orderly && AtMost(r, Peer(), bytes)
        decreases remaining, status == OK
      {
        var amount := if remaining > maximumRecordBytes then maximumRecordBytes else remaining;
        ghost var q := Peer();
        ghost var why, began, stood;
        status, why, began, stood := WriteRecord(bytes[cursor..cursor + amount]);
        if status == OK {
          OneMore(old(bytesCompleted), cursor, amount);
          OneMore(old(recordsCompleted), |q.records| - |r.records|, 1);
          RecordDone(r, q, Peer(), bytes, cursor, amount, maximumRecordBytes);
          cursor := cursor + amount;
          remaining := remaining - amount;
        } else {
          RecordCutShort(r, q, Peer(), bytes, cursor, amount, maximumRecordBytes);
        }
      }
      Conclude(r, bytes, cursor, status);
    }

    /** The common exit: the wire is idle, and a failure is latched. */
    method Conclude(ghost r: Receiver, ghost bytes: seq<byte>, ghost cursor: nat, status: status)
      requires Valid() && busy && maximumRecordBytes > 0 && Peer().orderly
      requires if status == OK then Peer().AtRest() && Peer().released && Progress(r, Peer(), bytes, cursor, maximumRecordBytes) && cursor == |bytes|
               else AtMost(r, Peer(), bytes)
      modifies `busy, `trace, `firstFault
      ensures Valid() && !busy && Delivered(r, Peer(), bytes, maximumRecordBytes, status)
      ensures Peer().records == if old(Peer()).validN then old(Peer()).records else old(Peer()).records + [old(Peer()).record]
      ensures status != OK ==> firstFault != OK
    {
      hide Receive, Chunks, Flatten, Progress, AtMost, OpenOrClosed;
      ghost var q := Peer();
      ghost var fault := Idle();
      Concluded(r, q, Peer(), bytes, cursor, maximumRecordBytes, status);
      busy := false;
      if status != OK {
        LatchFault(status);
      }
    }
  }

  lemma OneMore(a: nat, b: int, c: nat)
    ensures ((a + b) % TICKS + c) % TICKS == (a + b + c) % TICKS
  {
  }

  /** How a wait for READY ended. */
  datatype Ending = Seen | Faulted | Late | Stalled

  /** The first `cursor` bytes have been delivered as full records. */
  ghost predicate Progress(r: Receiver, r': Receiver, bytes: seq<byte>, cursor: nat, max: nat)
  {
    && cursor <= |bytes| && max > 0
    && r.records + Chunks(bytes, max) == r'.records + Chunks(bytes[cursor..], max)
    && Flatten(r'.records) == Flatten(r.records) + bytes[..cursor]
  }

  lemma NoProgress(r: Receiver, bytes: seq<byte>, max: nat)
    requires max > 0
    ensures Progress(r, r, bytes, 0, max)
  {
    assert bytes[0..] == bytes && bytes[..0] == [];
  }

  lemma Concluded(r: Receiver, q: Receiver, r': Receiver, bytes: seq<byte>, cursor: nat, max: nat, status: status)
    requires r' == Next(q, Control(true, true)) && q.orderly
    requires if status == OK then q.AtRest() && q.released && Progress(r, q, bytes, cursor, max) && cursor == |bytes| else AtMost(r, q, bytes)
    ensures Delivered(r, r', bytes, max, status)
  {
    if status == OK {
      assert bytes[cursor..] == [];
    } else {
      ClosedByIdle(r, q, r', bytes);
    }
  }

  /** The outcome of an admitted write. */
  ghost predicate Delivered(r: Receiver, r': Receiver, bytes: seq<byte>, max: nat, status: status)
  {
    && r'.AtRest() && r'.orderly
    && (status == OK ==> max > 0 && r'.records == r.records + Chunks(bytes, max) && r'.released)
    && (status != OK ==> exists k :: 0 <= k <= |bytes| && Flatten(r'.records) == Flatten(r.records) + bytes[..k])
  }

  lemma ElapsedIsExact(began: nat, now: nat, started: int, current: int)
    requires began <= now < began + TICKS && started == began % TICKS && current == now % TICKS
    ensures (current - started) % TICKS == now - began
  {
    var a, b := began / TICKS, now / TICKS;
    assert current - started == (now - began) - TICKS * (b - a);
    assert b - a == 0 || b - a == 1;
  }

  lemma StandsStill(before: nat, now: nat)
    requires before <= now <= before + TICKS / 2 && before % TICKS == now % TICKS
    ensures before == now
  {
    var a, b := before / TICKS, now / TICKS;
    assert now - before == TICKS * (b - a);
  }

  /** Within a record of which `index` bytes have been clocked out. */
  ghost predicate InRecord(r: Receiver, r': Receiver, bytes: seq<byte>, index: nat)
    requires index <= |bytes|
  {
    !r'.validN && r'.orderly && r'.records == r.records && r'.record == bytes[..index]
  }

  /** The receiver has at most a prefix of `bytes` more than before: in an open record, in a closed one, or
      nothing at all. */
  ghost predicate OpenOrClosed(r: Receiver, r': Receiver, bytes: seq<byte>)
  {
    || (r'.validN && r'.clock && r'.record == [] && r'.records == r.records)
    || (!r'.validN && r'.records == r.records && r'.record <= bytes)
    || (r'.validN && r'.clock && r'.record == [] && r'.records == r.records + [bytes])
  }

  /** A successful write is the channel doing its job: the receiver has exactly the given bytes more, in
      new records of 1 to `max` bytes. */
  lemma DeliveredBytes(r: Receiver, r': Receiver, bytes: seq<byte>, max: nat)
    requires Delivered(r, r', bytes, max, OK)
    ensures Flatten(r'.records) == Flatten(r.records) + bytes
    ensures r.records <= r'.records && forall i :: |r.records| <= i < |r'.records| ==> 1 <= |r'.records[i]| <= max
  {
    FlattenConcat(r.records, Chunks(bytes, max));
    ChunksArePartition(bytes, max);
  }

  /** What has been received beyond `r`, closed or not, is a prefix of `bytes`. */
  ghost predicate AtMost(r: Receiver, r': Receiver, bytes: seq<byte>)
  {
    && (r'.validN ==> r'.clock && r'.record == [])
    && exists k :: 0 <= k <= |bytes| && Received(r') == Flatten(r.records) + bytes[..k]
  }

  lemma RecordDone(r: Receiver, q: Receiver, r': Receiver, bytes: seq<byte>, cursor: nat, amount: nat, max: nat)
    requires 0 < amount && cursor + amount <= |bytes| && max > 0
    requires r'.records == q.records + [bytes[cursor..cursor + amount]]
    requires Progress(r, q, bytes, cursor, max)
    requires amount == if |bytes| - cursor > max then max else |bytes| - cursor
    ensures Progress(r, r', bytes, cursor + amount, max)
  {
    hide Chunks, Flatten;
    var piece, rest := bytes[cursor..cursor + amount], bytes[cursor + amount..];
    FlattenSnoc(q.records, piece);
    ChunksStep(bytes[cursor..], max);
    assert bytes[..cursor + amount] == bytes[..cursor] + piece;
    assert bytes[cursor..][..amount] == piece;
    assert bytes[cursor..][amount..] == rest;
    assert q.records + ([piece] + Chunks(rest, max)) == q.records + [piece] + Chunks(rest, max);
  }

  /** `k` more bytes than before, `tail` of them since the last full record. */
  lemma PrefixReceived(before: seq<byte>, bytes: seq<byte>, cursor: nat, tail: seq<byte>)
    requires cursor + |tail| <= |bytes| && tail == bytes[cursor..cursor + |tail|]
    ensures (before + bytes[..cursor]) + tail == before + bytes[..cursor + |tail|]
  {
    assert bytes[..cursor + |tail|] == bytes[..cursor] + tail;
  }

  lemma RecordCutShort(r: Receiver, q: Receiver, r': Receiver, bytes: seq<byte>, cursor: nat, amount: nat, max: nat)
    requires cursor + amount <= |bytes| && OpenOrClosed(q, r', bytes[cursor..cursor + amount])
    requires Progress(r, q, bytes, cursor, max)
    ensures AtMost(r, r', bytes)
  {
    hide Chunks, Flatten;
    var piece := bytes[cursor..cursor + amount];
    var tail := if r'.records == q.records then r'.record else piece;
    assert tail == piece[..|tail|] == bytes[cursor..cursor + |tail|];
    PrefixReceived(Flatten(r.records), bytes, cursor, tail);
    if r'.records != q.records {
      FlattenSnoc(q.records, piece);
      assert Received(r') == Flatten(r'.records);
    }
    assert Received(r') == Flatten(r.records) + bytes[..cursor + |tail|];
  }

  lemma ClosedByIdle(r: Receiver, q: Receiver, r': Receiver, bytes: seq<byte>)
    requires AtMost(r, q, bytes) && r' == Next(q, Control(true, true))
    ensures r'.AtRest() && exists k :: 0 <= k <= |bytes| && Flatten(r'.records) == Flatten(r.records) + bytes[..k]
  {
    var k :| 0 <= k <= |bytes| && Received(q) == Flatten(r.records) + bytes[..k];
    if !q.validN { FlattenSnoc(q.records, q.record); }
    assert Flatten(r'.records) == Flatten(r.records) + bytes[..k];
  }
}
