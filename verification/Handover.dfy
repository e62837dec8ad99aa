/** The ownership sequencer, and the deadline that bounds every wait for it. */
module Handover {
  import opened Bytes

  datatype Phase =
    | ReturnRelease | ReturnAck | ReturnRequest | ReturnUart | ReturnPeer | Uart
    | Drain | EntryRelease | EntryAck | EntryClear | EntryArm | LocalArm | Block | BlockRelease

  datatype Action = Wait | Fence | Release | Arm | Run | Restore | Live

  /** Adapter actions that have been completed, and the level of READY. */
  datatype Done = Done(readyHigh: bool, quiet: bool, released: bool, armed: bool, done: bool, uartUp: bool)

  datatype State = State(phase: Phase, validN: bool, clockHigh: bool, failed: bool)

  const FENCED: State := State(ReturnRelease, true, false, true)

  function Cancelled(h: State): State { h.(failed := true, phase := ReturnRelease) }

  /** What has to be seen in a phase before the next one is entered. */
  predicate Evidence(p: Phase, d: Done)
  {
    match p
    case Drain => d.quiet
    case EntryRelease | BlockRelease | ReturnRelease => d.released
    case EntryAck | EntryArm | ReturnRequest => !d.readyHigh
    case EntryClear | ReturnAck | ReturnPeer => d.readyHigh
    case LocalArm => d.armed
    case Block => d.done
    case ReturnUart => d.uartUp
    case Uart => false
  }

  function Successor(p: Phase): Phase
  {
    match p
    case Drain => EntryRelease case EntryRelease => EntryAck case EntryAck => EntryClear
    case EntryClear => EntryArm case EntryArm => LocalArm case LocalArm => Block
    case Block => BlockRelease case BlockRelease => ReturnAck case ReturnRelease => ReturnAck
    case ReturnAck => ReturnRequest case ReturnRequest => ReturnUart case ReturnUart => ReturnPeer
    case ReturnPeer => Uart case Uart => Uart
  }

  /** VALID and CLOCK in each phase that is reached by steps. */
  function ValidLevel(p: Phase): bool { p !in {EntryAck, ReturnRequest, ReturnUart} }
  function ClockLevel(p: Phase): bool { p in {EntryArm, LocalArm, Block, BlockRelease} }

  class Sequencer {
    var phase: Phase
    var validN: bool
    var clockHigh: bool
    var failed: bool

    function View(): State reads this { State(phase, validN, clockHigh, failed) }

    ghost predicate InStep()
      reads this
    {
      phase != ReturnRelease ==> validN == ValidLevel(phase) && clockHigh == ClockLevel(phase)
    }

    constructor ()
      ensures View() == FENCED && InStep()
    {
      phase, validN, clockHigh, failed := ReturnRelease, true, false, true;
    }

    /** `emos_parallel_handover_init` */
    method Init()
      modifies this
      ensures View() == FENCED
    {
      phase, validN, clockHigh, failed := ReturnRelease, true, false, true;
    }

    /** `emos_parallel_handover_cancel` */
    method Cancel()
      modifies this
      ensures View() == Cancelled(old(View())) && InStep()
    {
      failed := true;
      phase := ReturnRelease;
    }

    /** `emos_parallel_handover_begin` */
    method Begin() returns (ok: bool)
      modifies this
      ensures ok <==> old(phase) == Uart
      ensures ok ==> View() == old(View()).(failed := false, phase := Drain)
      ensures !ok ==> View() == old(View())
      ensures old(InStep()) ==> InStep()
    {
      if phase != Uart { return false; }
      failed := false;
      phase := Drain;
      ok := true;
    }

    /** `emos_parallel_handover_step`: one phase at a time, in the one order there is, each on its evidence.
        Losing READY at rest is a recovery, never permission. */
    method Step(d: Done) returns (action: Action)
      modifies this
      ensures old(phase) != Uart ==> failed == old(failed) && phase == if Evidence(old(phase), d) then Successor(old(phase)) else old(phase)
      ensures old(phase) == Uart ==> View() == if d.readyHigh then old(View()) else Cancelled(old(View()))
      ensures action == Live <==> phase == Uart
      ensures action == Run <==> old(phase) == LocalArm && phase == Block
      ensures action == Arm <==> phase == LocalArm
      ensures action == Restore <==> phase == ReturnUart
      ensures action == Fence <==> phase == Drain
      ensures action == Release <==> phase in {EntryRelease, BlockRelease, ReturnRelease}
      // the control lines always tell the peer which phase this end is in
      ensures old(InStep()) ==> InStep()
      ensures phase == old(phase) ==> validN == old(validN) && clockHigh == old(clockHigh)
      // and entering a phase sets the lines it is about, whatever they were
      ensures phase != old(phase) && old(phase) != Uart ==>
                && clockHigh == (if phase in {EntryAck, ReturnAck} then false else if phase == EntryArm then true else old(clockHigh))
                && validN == (if phase in {EntryAck, ReturnRequest} then false
                              else if phase in {EntryClear, ReturnAck, ReturnPeer, Uart} then true else old(validN))
    {
      match phase {
        case Uart =>
          if d.readyHigh { return Live; }
          Cancel();
          return Release;
        case Drain =>
          if !d.quiet { return Fence; }
          phase := EntryRelease;
          return Release;
        case EntryRelease =>
          if !d.released { return Release; }
          clockHigh := false;
          validN := false;
          phase := EntryAck;
        case EntryAck =>
          if !d.readyHigh {
            validN := true;
            phase := EntryClear;
          }
        case EntryClear =>
          if d.readyHigh {
            clockHigh := true;
            phase := EntryArm;
          }
        case EntryArm =>
          if !d.readyHigh {
            phase := LocalArm;
            return Arm;
          }
        case LocalArm =>
          if !d.armed { return Arm; }
          phase := Block;
          return Run;
        case Block =>
          if d.done {
            phase := BlockRelease;
            return Release;
          }
        case BlockRelease =>
          if !d.released { return Release; }
          clockHigh := false;
          validN := true;
          phase := ReturnAck;
        case ReturnRelease =>
          if !d.released { return Release; }
          clockHigh := false;
          validN := true;
          phase := ReturnAck;
        case ReturnAck =>
          if d.readyHigh {
            validN := false;
            phase := ReturnRequest;
          }
        case ReturnRequest =>
          if !d.readyHigh {
            phase := ReturnUart;
            return Restore;
          }
        case ReturnUart =>
          if !d.uartUp { return Restore; }
          validN := true;
          phase := ReturnPeer;
        case ReturnPeer =>
          if d.readyHigh {
            validN := true;
            phase := Uart;
            return Live;
          }
      }
      action := Wait;
    }
  }

  // -------------------------------------------------------------------------------------- deadlines

  const BUDGET: nat := 262144
  const LIMIT: nat := 600

  datatype Deadline = Deadline(last: byte, elapsed: nat, budget: nat)

  function Fresh(now: byte): Deadline { Deadline(now, 0, BUDGET) }

  /** `emos_keyboard_deadline_step` */
  function Poll(d: Deadline, now: byte): (r: (Deadline, bool))
    requires d.budget > 0
  {
    var delta := (now - d.last) % 256;
    if delta != 0 then (Deadline(now, d.elapsed + delta, BUDGET), d.elapsed + delta < LIMIT)
    else (d.(budget := d.budget - 1), d.budget - 1 != 0 && d.elapsed < LIMIT)
  }

  /** The polls at the ticks `ts` all find the deadline not used up; the clock shows the low byte of the tick. */
  predicate Lasts(d: Deadline, ts: seq<nat>)
    decreases |ts|
  {
    ts == [] || (d.budget > 0 && Poll(d, ts[0] % 256).1 && Lasts(Poll(d, ts[0] % 256).0, ts[1..]))
  }

  /** Ticks that never go back, with less than a turn of the byte between two polls. */
  ghost predicate Rising(t: nat, ts: seq<nat>)
  {
    (ts != [] ==> t <= ts[0] < t + 256) && forall i {:trigger ts[i]} :: 0 < i < |ts| ==> ts[i - 1] <= ts[i] < ts[i - 1] + 256
  }

  /** The clock has moved within the next `budget` polls, and after that within every `BUDGET` of them. */
  ghost predicate Moving(t: nat, ts: seq<nat>, budget: nat)
  {
    && (0 < budget <= |ts| ==> t < ts[budget - 1])
    && (forall i {:trigger ts[i]} :: 0 <= i < |ts| - BUDGET ==> ts[i] < ts[i + BUDGET])
  }

  lemma {:induction false} RisingGrows(t: nat, ts: seq<nat>, i: nat, j: nat)
    requires Rising(t, ts) && i <= j < |ts|
    ensures t <= ts[i] <= ts[j]
    decreases j
  {
    if i < j { RisingGrows(t, ts, i, j - 1); } else if i > 0 { RisingGrows(t, ts, i - 1, j - 1); }
  }

  lemma RisingOn(t: nat, ts: seq<nat>)
    requires Rising(t, ts) && ts != []
    ensures Rising(ts[0], ts[1..])
  {
    forall i {:trigger ts[1..][i]} | 0 < i < |ts| - 1 ensures ts[1..][i - 1] <= ts[1..][i] < ts[1..][i - 1] + 256 {
      assert ts[1..][i] == ts[i + 1] && ts[1..][i - 1] == ts[i];
    }
    if |ts| > 1 { assert ts[1..][0] == ts[1]; }
  }

  /** One poll: the time that has passed is counted right, though the clock is a byte that wraps. */
  lemma PollCounts(d: Deadline, t: nat, u: nat)
    requires d.last == t % 256 && t <= u < t + 256 && d.budget > 0
    ensures Poll(d, u % 256).0 == if u == t then d.(budget := d.budget - 1) else Deadline(u % 256, d.elapsed + (u - t), BUDGET)
  {
    var turns := u / 256 - t / 256;
    assert u % 256 - t % 256 == u - t - 256 * turns;
    assert turns == 0 || turns == 1;
  }

  lemma MovingOn(t: nat, ts: seq<nat>, budget: nat)
    requires Rising(t, ts) && ts != [] && 0 < budget <= BUDGET && !(ts[0] == t && budget == 1)
    ensures Moving(t, ts, budget) <==> Moving(ts[0], ts[1..], if ts[0] == t then budget - 1 else BUDGET)
  {
    var rest, left := ts[1..], if ts[0] == t then budget - 1 else BUDGET;
    if Moving(t, ts, budget) {
      if left <= |rest| { assert rest[left - 1] == ts[left]; }
      forall i {:trigger rest[i]} | 0 <= i < |rest| - BUDGET ensures rest[i] < rest[i + BUDGET] {
        assert rest[i] == ts[i + 1] && rest[i + BUDGET] == ts[i + 1 + BUDGET];
      }
    }
    if Moving(ts[0], rest, left) {
      if budget <= |ts| {
        RisingGrows(t, ts, 0, budget - 1);
        if ts[0] == t { assert ts[budget - 1] == rest[budget - 2]; }
      }
      forall i {:trigger ts[i]} | 0 <= i < |ts| - BUDGET ensures ts[i] < ts[i + BUDGET] {
        if i > 0 { assert ts[i] == rest[i - 1] && ts[i + BUDGET] == rest[i - 1 + BUDGET]; }
        else { assert ts[left] == rest[left - 1]; RisingGrows(t, ts, left, BUDGET); }
      }
    }
  }

  lemma StillMoving(t: nat, ts: seq<nat>, budget: nat) ensures ts == [] ==> Moving(t, ts, budget) {}
  lemma StoodStill(t: nat, ts: seq<nat>) ensures ts != [] && ts[0] == t ==> !Moving(t, ts, 1) {}

  lemma {:induction false} LastsExactly(d: Deadline, t: nat, ts: seq<nat>)
    requires d.last == t % 256 && 0 < d.budget <= BUDGET && d.elapsed < LIMIT && Rising(t, ts)
    ensures Lasts(d, ts) <==> (ts == [] || d.elapsed + (ts[|ts| - 1] - t) < LIMIT) && Moving(t, ts, d.budget)
    decreases |ts|
  {
    hide Moving;
    if ts == [] {
      StillMoving(t, ts, d.budget);
      return;
    }
    PollCounts(d, t, ts[0]);
    RisingOn(t, ts);
    RisingGrows(t, ts, 0, |ts| - 1);
    var d' := Poll(d, ts[0] % 256).0;
    if d'.budget == 0 {
      StoodStill(t, ts);
    } else {
      MovingOn(t, ts, d.budget);
      if d'.elapsed < LIMIT {
        LastsExactly(d', ts[0], ts[1..]);
        assert |ts| > 1 ==> ts[1..][|ts| - 2] == ts[|ts| - 1];
      }
    }
  }

  /** A deadline set at tick `t` lasts exactly as long as fewer than `LIMIT` ticks have gone by and the clock has not stood still
      for `BUDGET` polls on end. */
  lemma DeadlineExactly(t: nat, ts: seq<nat>)
    requires Rising(t, ts)
    ensures Lasts(Fresh(t % 256), ts) <==>
              && (ts == [] || ts[|ts| - 1] < t + LIMIT)
              && (BUDGET <= |ts| ==> t < ts[BUDGET - 1])
              && (forall i {:trigger ts[i]} :: 0 <= i < |ts| - BUDGET ==> ts[i] < ts[i + BUDGET])
  {
    LastsExactly(Fresh(t % 256), t, ts);
  }

  /** Whatever the clock shows, polls that succeed use the deadline up: either time or budget goes down. */
  lemma PollProgress(d: Deadline, now: byte)
    requires d.budget > 0 && Poll(d, now).1
    ensures var d' := Poll(d, now).0;
            && 0 < d'.budget && d'.elapsed < LIMIT
            && (d'.elapsed > d.elapsed || (d'.elapsed == d.elapsed && d'.budget < d.budget))
  {
  }

  /** And one that fails has found it used up. */
  lemma PollEnds(d: Deadline, now: byte)
    requires d.budget > 0
    ensures var d' := Poll(d, now).0; !Poll(d, now).1 <==> d'.elapsed >= LIMIT || d'.budget == 0
  {
  }
}
