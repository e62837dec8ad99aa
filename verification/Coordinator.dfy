/** Traces of one run on the native port, and how far along a script they are. */
module PortScript {
  import opened Handover

  /** What the owner of the port does and sees, in the order in which it happens. */
  datatype Happening =
    | Ready(high: bool)
    | Parked | PadsReleased | Armed | Payload(ok: bool) | UartRestored | ReservationReleased
    | Fenced

  /** How many steps of the script have been seen, one after the other. */
  function Reached(script: seq<Happening>, trace: seq<Happening>): (k: nat)
    ensures k <= |script|
  {
    if trace == [] then 0
    else
      var k := Reached(script, trace[..|trace| - 1]);
      if k < |script| && trace[|trace| - 1] == script[k] then k + 1 else k
  }

  lemma ReachedNext(script: seq<Happening>, trace: seq<Happening>, x: Happening)
    ensures var k := Reached(script, trace);
            Reached(script, trace + [x]) == if k < |script| && script[k] == x then k + 1 else k
  {
    assert (trace + [x])[..|trace|] == trace;
  }

  /** The instants at which the steps of the script were taken. */
  ghost predicate InOrder(script: seq<Happening>, trace: seq<Happening>, at: seq<nat>)
  {
    && |at| <= |script|
    && (forall i :: 0 <= i < |at| ==> at[i] < |trace| && trace[at[i]] == script[i])
    && (forall i, j :: 0 <= i < j < |at| ==> at[i] < at[j])
  }

  lemma InOrderNext(script: seq<Happening>, trace: seq<Happening>, x: Happening, at: seq<nat>)
    requires InOrder(script, trace, at)
    ensures InOrder(script, trace + [x], at)
    ensures |at| < |script| && script[|at|] == x ==> InOrder(script, trace + [x], at + [|trace|])
  {
  }

  lemma {:induction false} ReachedMeansInOrder(script: seq<Happening>, trace: seq<Happening>) returns (at: seq<nat>)
    ensures |at| == Reached(script, trace) && InOrder(script, trace, at)
  {
    hide InOrder;
    if trace == [] {
      at := [];
      assert InOrder(script, trace, at) by { AtTheStart(script, trace); }
    } else {
      var n := |trace| - 1;
      at := ReachedMeansInOrder(script, trace[..n]);
      InOrderNext(script, trace[..n], trace[n], at);
      assert trace == trace[..n] + [trace[n]];
      if Reached(script, trace) > |at| { at := at + [n]; }
    }
  }

  lemma AtTheStart(script: seq<Happening>, trace: seq<Happening>)
    ensures InOrder(script, trace, [])
  {
  }

  /** What was done, leaving out what was only seen. */
  function Acts(trace: seq<Happening>): seq<Happening>
  {
    if trace == [] then []
    else
      var x := trace[|trace| - 1];
      Acts(trace[..|trace| - 1]) + if x.Ready? then [] else [x]
  }

  lemma ActsNext(trace: seq<Happening>, x: Happening)
    ensures Acts(trace + [x]) == Acts(trace) + if x.Ready? then [] else [x]
  {
    assert (trace + [x])[..|trace|] == trace;
  }

  /** The order that makes a complete block transaction. */
  function Transaction(): seq<Happening>
  {
    [Parked, PadsReleased, Ready(false), Ready(true), Ready(false), Armed, Payload(true), PadsReleased,
     Ready(true), Ready(false), UartRestored, Ready(true)]
  }

  /** The order that makes the link usable after a reset: the peer has to answer the request and then release. */
  function Connection(): seq<Happening>
  {
    [Ready(true), Ready(false), Fenced, PadsReleased, Ready(true), Ready(false), UartRestored, Ready(true)]
  }

  /** How many steps of a transaction lie behind a phase. */
  function Rank(p: Phase): nat
  {
    match p
    case Drain => 0 case EntryRelease => 1 case EntryAck => 2 case EntryClear => 3 case EntryArm => 4 case LocalArm => 5
    case Block => 6 case BlockRelease => 7 case ReturnAck => 8 case ReturnRequest => 9 case ReturnUart => 10
    case ReturnPeer => 11 case Uart => 12 case ReturnRelease => 13
  }

  /** How many steps of a connection lie behind a phase of its release cycle. */
  function ReturnRank(p: Phase): nat
  {
    match p
    case ReturnRelease => 3 case ReturnAck => 4 case ReturnRequest => 5 case ReturnUart => 6 case ReturnPeer => 7
    case _ => 8
  }

  /** The step that ends a phase. */
  function Due(p: Phase): Happening
  {
    match p
    case Drain => Parked
    case EntryRelease | BlockRelease | ReturnRelease => PadsReleased
    case EntryAck | EntryArm | ReturnRequest => Ready(false)
    case EntryClear | ReturnAck | ReturnPeer | Uart => Ready(true)
    case LocalArm => Armed
    case Block => Payload(true)
    case ReturnUart => UartRestored
  }

  /** What a transaction has done when it enters a phase. */
  function ActsBefore(p: Phase): seq<Happening>
  {
    match p
    case Drain => []
    case EntryRelease => [Parked]
    case EntryAck | EntryClear | EntryArm | LocalArm => [Parked, PadsReleased]
    case Block => [Parked, PadsReleased, Armed]
    case BlockRelease => [Parked, PadsReleased, Armed, Payload(true)]
    case ReturnAck | ReturnRequest | ReturnUart => [Parked, PadsReleased, Armed, Payload(true), PadsReleased]
    case ReturnPeer | Uart | ReturnRelease => [Parked, PadsReleased, Armed, Payload(true), PadsReleased, UartRestored]
  }

  lemma DueIsNext(p: Phase)
    requires Rank(p) <= 11
    ensures |Transaction()| == 12 && Transaction()[Rank(p)] == Due(p)
    ensures Rank(Successor(p)) == Rank(p) + 1
    ensures ActsBefore(Successor(p)) == ActsBefore(p) + if Due(p).Ready? then [] else [Due(p)]
  {
  }

  lemma DueOnReturn(p: Phase)
    requires p in {ReturnRelease, ReturnAck, ReturnRequest, ReturnUart, ReturnPeer}
    ensures |Connection()| == 8 && Connection()[ReturnRank(p)] == Due(p)
    ensures ReturnRank(Successor(p)) == ReturnRank(p) + 1
  {
  }

  /** A transaction that ends early has done a prefix of it, or its payload was refused by the wire. */
  ghost predicate CutShort(acts: seq<Happening>)
  {
    acts <= ActsBefore(Uart) || acts == ActsBefore(Block) + [Payload(false)]
  }

  lemma PrefixIsCutShort(p: Phase)
    ensures CutShort(ActsBefore(p)) && CutShort(ActsBefore(Block) + [Payload(false)])
    ensures Rank(p) <= 11 && !Due(p).Ready? ==> CutShort(ActsBefore(p) + [Due(p)])
  {
  }

  /** The payload is in it at most once. */
  lemma CutShortRunsPayloadOnce(acts: seq<Happening>, i: nat, j: nat)
    requires CutShort(acts) && i < |acts| && j < |acts| && acts[i].Payload? && acts[j].Payload?
    ensures i == j
  {
  }
}

/** The physical port: boot connection, its revocation by the keyboard tick, and the block transaction. */
module Coordinator {
  import opened Bytes
  import opened Handover
  import opened ParallelWire
  import opened PortScript

  datatype Grant = NoGrant | RestoreGrant | LiveGrant
  datatype Uart1 = Off | Active | Suspended                 // uart1_keyboard_owned: 0, 1, parked
  datatype Pads = UartPads | Inputs | Driven
  datatype Answer = Granted | NotYet | Refused           // what parking and its counterparts report
  datatype Line = MidPacket | LineError | Busy | Quiet    // what UART1 is found at when it is to be parked
  datatype Lines = Lines(validN: bool, clockHigh: bool)   // the control outputs to the peer
  datatype Cause = None | OutOfTime | Fault | Stuck | Late   // why a run on the port was given up

  /** The offers that a block may be run for: the one the session has just admitted, with room for its bytes. */
  predicate Admissible(session: seq<byte>, offer: Record, capacity: nat)
  {
    && BlockMatches(offer, offer, OFFER) && offer[12] <= 1 && offer[13] == 0 && session == offer[4..10]
    && 1 <= Pair(offer[10], offer[11]) <= MAX_BLOCK && Pair(offer[10], offer[11]) <= capacity
  }

  /** Admission leaves the session with exactly the identity that is asked for here. */
  lemma AdmittedIsAdmissible(session: seq<byte>, offer: Record, capacity: nat)
    requires |session| == 6 && OfferValid(session, offer) && Pair(offer[10], offer[11]) <= capacity
    ensures Admissible(session[..4] + offer[8..10], offer, capacity)
  {
    ValidOfferMeans(session, offer);
    hide Nonzero, Low, High;
    assert offer[4..10] == offer[4..8] + offer[8..10];
  }

  const BLOCK_PHASES: set<Phase> := {Drain, EntryRelease, EntryAck, EntryClear, EntryArm, LocalArm, Block, BlockRelease}

  const FENCED_LINES: Lines := Lines(true, false)
  const REQUEST_LINES: Lines := Lines(false, true)    // a reset is asked for
  const ANSWER_LINES: Lines := Lines(true, true)      // and its first answer has been seen

  class Link {
    const h: Sequencer
    var grant: Grant                 // parallel_boot_grant
    var blockBusy: bool              // parallel_boot_block
    var session: seq<byte>           // nonce and number of the session record
    var sessionActive: bool
    var reserved: bool               // parallel_reserved
    var uart: Uart1
    var pads: Pads
    var lines: Lines                 // VALID and CLOCK
    var faulted: bool                // emos_key_faulted
    var asked: bool                  // a fault or a stop has been requested
    ghost var run: seq<Happening>
    ghost var moved: seq<(byte, int)>   // direction and length of every payload that was run

    constructor ()
      ensures fresh(h) && h.View() == FENCED && grant == NoGrant && !blockBusy && !sessionActive && !reserved
      ensures uart == Off && pads == Inputs && lines == FENCED_LINES && run == [] && moved == [] && !faulted && !asked
      ensures session == [0, 0, 0, 0, 0, 0]
    {
      h := new Sequencer();
      grant, blockBusy, sessionActive, reserved, uart, pads, faulted := NoGrant, false, false, false, Off, Inputs, false;
      asked, lines := false, FENCED_LINES;
      session := [0, 0, 0, 0, 0, 0];
      run, moved := [], [];
    }

    method Note(x: Happening)
      modifies `run
      ensures run == old(run) + [x]
    {
      run := run + [x];
    }

    /** `emos_parallel_boot_fence`: interrupts masked, every pad an input, then the sequencer at its start. */
    method Fence()
      modifies `pads, `lines, `run, h
      ensures h.View() == FENCED && pads == Inputs && lines == FENCED_LINES && run == old(run) + [Fenced]
    {
      pads := Inputs;
      lines := FENCED_LINES;
      h.Init();
      Note(Fenced);
    }

    /** `emos_parallel_boot_start`: the fence, and the request to the peer. */
    method BootStart()
      modifies `grant, `blockBusy, `pads, `lines, `run, h
      ensures grant == NoGrant && !blockBusy && h.View() == FENCED && pads == Inputs && lines == REQUEST_LINES && run == old(run) + [Fenced]
    {
      grant := NoGrant;
      blockBusy := false;
      Fence();
      lines := REQUEST_LINES;
    }

    /** The output levels that go with the phase. */
    method Show()
      modifies `lines
      ensures Shown()
    {
      lines := Lines(h.validN, h.clockHigh);
    }

    ghost predicate Shown()
      reads `lines, h
    {
      lines == Lines(h.validN, h.clockHigh)
    }

    /** `emos_parallel_boot_uart_allowed`: a READY low seen once while live takes the grant away for good. */
    method UartAllowed(high: bool) returns (ok: bool)
      modifies `grant
      ensures old(blockBusy) ==> grant == old(grant) && (ok <==> h.phase == ReturnUart)
      ensures !old(blockBusy) ==> (ok <==> grant != NoGrant)
                                  && grant == if old(grant) == LiveGrant && !high then NoGrant else old(grant)
    {
      if blockBusy { return h.phase == ReturnUart; }
      if grant == LiveGrant && !high { grant := NoGrant; }
      ok := grant != NoGrant;
    }

    /** The keyboard interrupt.  `emos_parallel_boot_tick` closes and fences a link whose grant is gone, except
        during a block; what else the interrupt may do to this state is to raise a fault. */
    method Tick() returns (ghost lost: bool, ghost high: bool)
      modifies `grant, `blockBusy, `pads, `lines, `uart, `faulted, `asked, `run, h
      ensures lost <==> old(uart == Active && !blockBusy && (grant == NoGrant || (grant == LiveGrant && !high)))
      ensures lost ==> uart == Off && grant == NoGrant && !blockBusy && h.View() == FENCED && pads == Inputs && lines == REQUEST_LINES
                       && run == old(run) + [Fenced]
      ensures !lost ==> unchanged(`grant, `blockBusy, `pads, `lines, `uart, `run) && h.View() == old(h.View())
      ensures old(uart) == Suspended ==> faulted == old(faulted)
    {
      lost, high := false, true;
      if uart == Suspended {
        asked := *;
        return;
      }
      if !blockBusy && uart == Active {
        var ready: bool := *;
        high := ready;
        var ok := UartAllowed(ready);
        if !ok {
          uart := Off;
          BootStart();
          lost := true;
        }
      }
      faulted, asked := *, *;
    }

    // ------------------------------------------------------------------------------ connection after reset

    ghost predicate Seen(k: nat) reads `run { Reached(Connection(), run) == k }

    /** READY is sampled: it takes the connection one step on if that level is what is due. */
    method Sample() returns (high: bool)
      modifies `run
      ensures run == old(run) + [Ready(high)]
      ensures var k := old(Reached(Connection(), run));
              Seen(if k < |Connection()| && Connection()[k] == Ready(high) then k + 1 else k)
    {
      high := *;
      ReachedNext(Connection(), run, Ready(high));
      Note(Ready(high));
    }

    method Did(ghost k: nat, x: Happening)
      requires Seen(k) && k < |Connection()| && Connection()[k] == x
      modifies `run
      ensures Seen(k + 1) && run == old(run) + [x]
    {
      ReachedNext(Connection(), run, x);
      Note(x);
    }

    /** Where a connection stands once the peer has answered the request. */
    ghost predicate Returning(claimed: bool)
      reads `run, `pads, `grant, `uart, h
    {
      match h.phase
      case ReturnRelease | ReturnAck | ReturnRequest => !claimed && Seen(ReturnRank(h.phase)) && pads == Inputs && grant == NoGrant && uart == Off
      case ReturnUart => claimed && Seen(7) && grant == RestoreGrant && uart == Active
      case ReturnPeer => claimed && (Seen(7) || Seen(8)) && grant == RestoreGrant && uart == Active
      case _ => false
    }

    /** What the boot adapter can report. */
    static function BootDone(phase: Phase, high: bool, pads: Pads, claimed: bool): Done
    {
      Done(high, false, phase == ReturnRelease && pads == Inputs, false, false, phase == ReturnUart && claimed)
    }

    /** `emos_parallel_boot_poll`: nothing is done in the phases of a block; in the others the sequencer moves on exactly the
        evidence there is, and the peer is shown the new phase unless this end has not let go yet. */
    method BootPoll(claimed: bool) returns (action: Action, ghost high: bool)
      modifies `run, `lines, h
      ensures old(h.phase) in BLOCK_PHASES ==> action == Release && unchanged(`run, `lines) && h.View() == old(h.View())
      ensures old(h.phase) == Uart ==> h.View() == if high then old(h.View()) else Cancelled(old(h.View()))
      ensures old(h.phase) !in BLOCK_PHASES + {Uart} ==>
                var p := old(h.phase);
                && h.phase == (if Evidence(p, BootDone(p, high, pads, claimed)) then Successor(p) else p)
                && h.failed == old(h.failed)
      ensures old(h.phase) !in BLOCK_PHASES ==>
                && action == (match h.phase case Uart => Live case ReturnUart => Restore case ReturnRelease => Release case _ => Wait)
                && lines == (if action == Release then old(lines) else Lines(h.validN, false))
                && run == old(run) + [Ready(high)] + (if old(h.phase) == ReturnRelease && pads == Inputs then [PadsReleased] else [])
      ensures old(h.InStep()) ==> h.InStep()
    {
      high := true;
      if h.phase in BLOCK_PHASES { return Release, high; }
      var ready: bool := *;
      high := ready;
      Note(Ready(ready));
      var done := Done(ready, false, false, false, false, false);
      if h.phase == ReturnRelease && pads == Inputs {
        Note(PadsReleased);
        done := done.(released := true);
      }
      if h.phase == ReturnUart && claimed { done := done.(uartUp := true); }
      action := h.Step(done);
      if action != Release { lines := Lines(h.validN, false); }
    }

    /** `emos_keyboard_transport_claim`, under the one grant that lets it open UART1; `able` says that interrupts are on and
        no selection is under way, `opens` that the hardware is found free. */
    method TransportClaim() returns (ok: bool, ghost able: bool, ghost opens: bool)
      requires grant == RestoreGrant && !blockBusy
      modifies `uart, `pads
      ensures ok <==> able && !faulted && (old(uart) == Off ==> opens)
      ensures if ok && old(uart) == Off then uart == Active && pads == UartPads else unchanged(`uart, `pads)
    {
      var a: bool, o: bool := *, *;
      able, opens := a, o;
      if !a || faulted { return false, able, opens; }
      if uart == Off {
        if !o { return false, able, opens; }
        uart, pads := Active, UartPads;
      }
      ok := true;
    }

    /** `emos_keyboard_transport_release`: the port stays open for whoever else has it. */
    method TransportRelease() returns (ghost kept: bool)
      modifies `uart, `pads
      ensures if !reserved && !kept && old(uart) == Active then uart == Off && pads == Inputs else unchanged(`uart, `pads)
    {
      var keep: bool := *;
      kept := keep;
      if !reserved && !keep && uart == Active { uart, pads := Off, Inputs; }
    }

    /** Where a connection stands: waiting for READY high, waiting for it low, or in the release cycle. */
    ghost predicate Connecting(requested: nat, claimed: bool)
      reads `run, `pads, `grant, `uart, `blockBusy, h
    {
      && !blockBusy
      && if requested < 2 then !claimed && grant == NoGrant && uart == Off && Seen(requested) else Returning(claimed)
    }

    /** The interrupt finds nothing to revoke while a connection is made. */
    method ConnectTick(ghost requested: nat, ghost claimed: bool)
      requires Connecting(requested, claimed)
      modifies `grant, `blockBusy, `pads, `lines, `uart, `faulted, `asked, `run, h
      ensures Connecting(requested, claimed) && lines == old(lines) && h.View() == old(h.View())
    {
      hide Reached;
      var _, _ := Tick();
    }

    /** READY while the request is out: the answer is high first, then low, and then comes the fence. */
    method AwaitAnswer(requested: nat) returns (now: nat, ghost high: bool)
      requires requested < 2 && Connecting(requested, false)
      modifies `pads, `lines, `run, h
      ensures now == (if high == (requested == 0) then requested + 1 else requested) && Connecting(now, false)
      ensures lines == if now == requested then old(lines) else if now == 1 then ANSWER_LINES else FENCED_LINES
      ensures now == 2 ==> h.View() == FENCED
    {
      hide Reached;
      ConnectionStart();
      var ready := Sample();
      high := ready;
      if ready == (requested == 1) { return requested, high; }
      if requested == 0 {
        lines := ANSWER_LINES;
        return 1, high;
      }
      ReachedNext(Connection(), run, Fenced);
      Fence();
      now := 2;
    }

    /** The sole restore: UART1 is opened when the peer has let go of the port. */
    method OpenOnRestore() returns (ok: bool, ghost able: bool, ghost opens: bool)
      requires h.phase == ReturnUart && Seen(6) && !blockBusy && uart == Off
      modifies `grant, `uart, `pads, `run
      ensures ok ==> Connecting(2, true)
      ensures ok <==> able && !faulted && opens
      ensures grant == RestoreGrant && (ok ==> pads == UartPads) && (!ok ==> unchanged(`uart, `pads, `run))
    {
      hide Reached;
      DueOnReturn(ReturnUart);
      grant := RestoreGrant;
      ok, able, opens := TransportClaim();
      if ok { Did(6, UartRestored); }
    }

    /** A poll while the peer answers. */
    method PollReturning(claimed: bool) returns (action: Action)
      requires Returning(claimed)
      modifies `run, `lines, h
      ensures action == Live ==> h.phase == Uart && claimed && Seen(8) && lines == Lines(h.validN, false)
      ensures action == Restore ==> h.phase == ReturnUart && (if claimed then Returning(true) else Seen(6) && uart == Off)
      ensures action == Release <==> h.phase == ReturnRelease
      ensures action !in {Live, Restore, Release} ==> Returning(claimed)
    {
      hide Reached;
      ghost var high, p, before;
      p, before := h.phase, run;
      DueOnReturn(p);
      DueOnReturn(ReturnPeer);
      action, high := BootPoll(claimed);
      ReachedNext(Connection(), before, Ready(high));
      ReachedNext(Connection(), before + [Ready(high)], PadsReleased);
      assert before + [Ready(high)] + [] == before + [Ready(high)];
    }

    /** `emos_parallel_boot_connect`: the link is live only after the peer has answered the request, seen the fence,
        and gone through high, low, high again; it ends for every behaviour of clock and pins, and it is given up only when
        the time is up, UART1 cannot be opened, or this end cannot let go of its pads. */
    method Connect() returns (connected: bool, ghost cause: Cause)
      requires grant == NoGrant && !blockBusy && !reserved && uart == Off
      modifies this, h
      ensures connected ==> grant == LiveGrant && h.phase == Uart && Seen(8) && lines == Lines(h.validN, false)
      ensures !connected ==> grant == NoGrant && h.View() == FENCED && lines == FENCED_LINES && cause in {OutOfTime, Stuck}
      ensures !blockBusy && unchanged(`reserved, `sessionActive, `session, `moved)
    {
      hide Reached, Returning, Seen, Connection, BootDone;
      var claimed, requested: nat := false, 0;
      run, cause := [], None;
      NothingSeen();
      var now: byte :| true;
      var deadline := Fresh(now);
      while true
        invariant unchanged(`reserved, `sessionActive, `session, `moved) && Connecting(requested, claimed)
        invariant 0 < deadline.budget <= BUDGET && deadline.elapsed < LIMIT && cause == None
        decreases LIMIT - deadline.elapsed, deadline.budget
      {
        now :| true;
        var polled := Poll(deadline, now);
        if !polled.1 { cause := OutOfTime; }
        if !polled.1 { break; }
        PollProgress(deadline, now);
        deadline := polled.0;
        ConnectTick(requested, claimed);
        ghost var high;
        if requested < 2 {
          requested, high := AwaitAnswer(requested);
          if requested < 2 { continue; }
        }
        var action := PollReturning(claimed);
        if action == Restore && !claimed {
          var ok;
          ok, cause := OpenOnce();
          if !ok { break; }
          claimed := true;
        }
        if action == Live {
          GoLive();
          return true, None;
        }
        if h.phase == ReturnRelease { cause := Stuck; }
        if action == Release { break; }
      }
      GiveUpConnection(claimed);
      connected := false;
    }

    method OpenOnce() returns (ok: bool, ghost cause: Cause)
      requires h.phase == ReturnUart && Seen(6) && !blockBusy && uart == Off
      modifies `grant, `uart, `pads, `run
      ensures ok ==> Connecting(2, true)
      ensures cause == if ok then None else Stuck
      ensures grant == RestoreGrant
    {
      ghost var able, opens;
      ok, able, opens := OpenOnRestore();
      cause := if able && !faulted && opens then None else Stuck;
    }

    method GoLive()
      modifies `grant, `uart, `pads
      ensures grant == LiveGrant
    {
      grant := LiveGrant;
      ghost var kept := TransportRelease();
    }

    /** Without a grant, the port stays fenced. */
    method GiveUpConnection(claimed: bool)
      modifies `grant, `uart, `pads, `lines, `run, h
      ensures grant == NoGrant && h.View() == FENCED && pads == Inputs && lines == FENCED_LINES
      ensures if claimed then uart in {Off, old(uart)} else uart == old(uart)
    {
      grant := NoGrant;
      if claimed { ghost var kept := TransportRelease(); }
      Fence();
    }

    lemma NothingSeen()
      requires run == []
      ensures Seen(0)
    {
    }

    lemma ConnectionStart()
      ensures |Connection()| == 8 && Connection()[0] == Ready(true) && Connection()[1] == Ready(false) && Connection()[2] == Fenced
    {
    }

    // ------------------------------------------------------------------------------ one block transaction

    /** The run so far is that of a transaction in phase `p`, whose own step is behind it or not. */
    ghost predicate At(p: Phase, acted: bool)
      reads `run
    {
      && Reached(Transaction(), run) == Rank(p) + (if acted then 1 else 0)
      && Acts(run) == ActsBefore(p) + if acted && !Due(p).Ready? then [Due(p)] else []
    }

    lemma AtTheBeginning()
      requires run == []
      ensures At(Drain, false)
    {
    }

    lemma Onward(p: Phase)
      requires Rank(p) <= 11 && At(p, true)
      ensures At(Successor(p), false) && Rank(Successor(p)) == Rank(p) + 1
    {
      hide Reached, Acts;
      DueIsNext(p);
    }

    lemma SoFarCutShort(p: Phase, acted: bool)
      requires Rank(p) <= 12 && At(p, acted) && (Rank(p) == 12 ==> !acted)
      ensures CutShort(Acts(run))
    {
      hide Reached, Acts, CutShort;
      PrefixIsCutShort(p);
      assert ActsBefore(p) + [] == ActsBefore(p);
    }

    method Observe(ghost p: Phase) returns (high: bool)
      requires Rank(p) <= 11 && At(p, false)
      modifies `run
      ensures At(p, Due(p) == Ready(high))
    {
      hide Reached, Acts, Rank, ActsBefore, Transaction;
      high := *;
      DueIsNext(p);
      ReachedNext(Transaction(), run, Ready(high));
      ActsNext(run, Ready(high));
      Note(Ready(high));
    }

    method Act(x: Happening, ghost p: Phase)
      requires Rank(p) <= 11 && At(p, false) && x == Due(p) && !x.Ready?
      modifies `run
      ensures At(p, true)
    {
      hide Reached, Acts, Rank, ActsBefore, Transaction;
      DueIsNext(p);
      ReachedNext(Transaction(), run, x);
      ActsNext(run, x);
      Note(x);
    }

    /** Whether UART1 may be parked now, and what comes of it. */
    function Parking(line: Line): Answer
      reads this
    {
      if faulted || asked || !reserved || line == MidPacket || uart != Active || pads != UartPads || line == LineError then Refused
      else if line == Busy then NotYet else Granted
    }

    /** `emos_keyboard_parallel_park`: UART1 lets go of the port only when nothing is left in either direction. */
    method Park() returns (answer: Answer, ghost line: Line)
      requires At(Drain, false)
      modifies `uart, `pads, `asked, `run
      ensures answer == old(Parking(line))
      ensures answer == Granted ==> uart == Suspended && pads == Inputs && At(Drain, true)
      ensures answer != Granted ==> unchanged(`uart, `pads, `run)
      ensures old(asked) || (line == LineError && old(!faulted && reserved && uart == Active && pads == UartPads)) <==> asked
    {
      var found: Line := *;
      line := found;
      if faulted || asked || !reserved || found == MidPacket { return Refused, line; }
      if uart != Active || pads != UartPads { return Refused, line; }
      if found == LineError {
        asked := true;
        return Refused, line;
      }
      if found == Busy { return NotYet, line; }
      uart, pads := Suspended, Inputs;
      Act(Parked, Drain);
      answer := Granted;
    }

    /** The pads are looked at, not assumed. */
    method CheckPads(parked: bool) returns (ok: bool)
      requires h.phase in {EntryRelease, BlockRelease} && At(h.phase, false)
      modifies `run
      ensures ok <==> parked && pads == Inputs
      ensures At(h.phase, ok)
    {
      ok := parked && pads == Inputs;
      if ok { Act(PadsReleased, h.phase); }
    }

    /** `emos_parallel_native_payload`: the bytes go out, or come in, while UART1 is off the port; what it leaves the pads at
        is checked afterwards. */
    method NativePayload(direction: byte, length: int) returns (ok: bool, ghost paid: bool)
      requires uart == Suspended && At(Block, false)
      modifies `pads, `run, `moved
      ensures moved == old(moved) + [(direction, length)] && (ok <==> paid)
      ensures ok ==> At(Block, true)
      ensures !ok ==> Acts(run) == ActsBefore(Block) + [Payload(false)]
    {
      hide Reached, ActsBefore;
      moved := moved + [(direction, length)];
      pads := *;
      var status: bool := *;
      paid := status;
      ok := status;
      if ok {
        Act(Payload(true), Block);
      } else {
        ActsNext(run, Payload(false));
        Note(Payload(false));
      }
    }

    /** `emos_keyboard_parallel_unpark`: during a block UART1 comes back in one phase only. */
    method Unpark() returns (ok: bool)
      requires h.phase == ReturnUart && At(ReturnUart, false) && blockBusy
      modifies `grant, `uart, `pads, `run
      ensures ok <==> old(uart == Suspended && pads == Inputs && reserved)
      ensures if ok then uart == Active && pads == UartPads else unchanged(`uart, `pads)
      ensures grant == old(grant) && At(ReturnUart, ok)
    {
      var high: bool := *;
      if !reserved { return false; }
      var allowed := UartAllowed(high);
      ok := allowed && uart == Suspended && pads == Inputs;
      if ok {
        uart, pads := Active, UartPads;
        Act(UartRestored, ReturnUart);
      }
    }

    /** UART1 is off the port from parking until it is restored. */
    ghost predicate Underway(p: Phase, parked: bool, restored: bool)
      reads `uart, `blockBusy, `reserved
    {
      && blockBusy && reserved && Rank(p) <= 11
      && (parked <==> Rank(p) >= 1) && (restored <==> Rank(p) >= 11)
      && uart == if 1 <= Rank(p) <= 10 then Suspended else Active
    }

    /** What the adapter makes of a turn: `line` is what UART1 is found at, `paid` what becomes of the payload. */
    ghost function Verdict(wasParked: bool, line: Line, paid: bool): Outcome
      reads this, h
    {
      match h.phase
      case Drain => (match Parking(line) case Granted => Continue case NotYet => TryAgain case Refused => GiveUp)
      case EntryRelease | BlockRelease => if wasParked && pads == Inputs then Continue else GiveUp
      case Block => if paid then Continue else GiveUp
      case ReturnUart => if uart == Suspended && pads == Inputs && reserved then Continue else GiveUp
      case _ => Continue
    }

    /** What it reports when the transaction goes on. */
    static function Report(p: Phase, high: bool): Done
    {
      Done(high, p == Drain, p in {EntryRelease, BlockRelease}, p == LocalArm, p == Block, p == ReturnUart)
    }

    /** The adapter's part of one turn: it reports only what it has completed. */
    method Adapter(high: bool, wasParked: bool, wasRestored: bool, direction: byte, length: int)
      returns (outcome: Outcome, done: Done, parked: bool, restored: bool, ghost line: Line, ghost paid: bool)
      requires Underway(h.phase, wasParked, wasRestored) && At(h.phase, Due(h.phase) == Ready(high))
      modifies `grant, `uart, `pads, `asked, `run, `moved
      ensures grant == old(grant) && outcome == old(Verdict(wasParked, line, paid))
      ensures moved == old(moved) + if h.phase == Block then [(direction, length)] else []
      ensures outcome == TryAgain ==> !parked && !restored && uart == Active && At(Drain, false)
      ensures outcome == GiveUp ==> CutShort(Acts(run))
      ensures outcome == Continue ==>
                && done == Report(h.phase, high) && At(h.phase, Evidence(h.phase, done))
                && (parked <==> wasParked || h.phase == Drain) && (restored <==> wasRestored || h.phase == ReturnUart)
                && uart == (if h.phase in {ReturnUart, ReturnPeer} then Active else Suspended)
    {
      hide At, CutShort, Acts;
      parked, restored := wasParked, wasRestored;
      done := Done(high, false, false, false, false, false);
      outcome, line, paid := Continue, Quiet, true;
      match h.phase {
        case Drain =>
          var answer;
          answer, line := Park();
          if answer == NotYet { return TryAgain, done, parked, restored, line, paid; }
          if answer == Refused { SoFarCutShort(Drain, false); return GiveUp, done, parked, restored, line, paid; }
          parked := true;
          done := done.(quiet := true);
        case EntryRelease | BlockRelease =>
          var released := CheckPads(parked);
          if !released { SoFarCutShort(h.phase, false); return GiveUp, done, parked, restored, line, paid; }
          done := done.(released := true);
        case LocalArm =>
          Act(Armed, LocalArm);
          done := done.(armed := true);
        case Block =>
          var ok;
          ok, paid := NativePayload(direction, length);
          if !ok { PrefixIsCutShort(Block); return GiveUp, done, parked, restored, line, paid; }
          done := done.(done := true);
        case ReturnUart =>
          var ok := Unpark();
          if !ok { SoFarCutShort(ReturnUart, false); return GiveUp, done, parked, restored, line, paid; }
          restored := true;
          done := done.(uartUp := true);
        case _ =>
      }
    }

    /** One turn of the transaction, after its deadline was polled.  It gives up on a fault, or when the adapter does; else
        the sequencer moves on exactly the evidence there is, and the peer is shown the new phase. */
    method Turn(wasParked: bool, wasRestored: bool, direction: byte, length: int)
      returns (outcome: Outcome, live: bool, parked: bool, restored: bool, ghost high: bool, ghost line: Line, ghost paid: bool)
      requires Underway(h.phase, wasParked, wasRestored) && At(h.phase, false) && !h.failed
      modifies `grant, `uart, `pads, `lines, `asked, `run, `moved, h
      ensures grant == old(grant)
      ensures outcome == if old(faulted) then GiveUp else old(Verdict(wasParked, line, paid))
      ensures moved == old(moved) + if !old(faulted) && old(h.phase) == Block then [(direction, length)] else []
      ensures outcome == GiveUp ==> CutShort(Acts(run)) && !live && lines == old(lines)
      ensures live <==> outcome == Continue && h.phase == Uart
      ensures live ==> !h.failed && uart == Active && At(Uart, false)
      ensures outcome != GiveUp && !live ==> Underway(h.phase, parked, restored) && At(h.phase, false) && !h.failed
      ensures outcome == TryAgain ==> h.phase == old(h.phase) && lines == old(lines)
      ensures outcome == Continue ==>
                && h.phase == (if Evidence(old(h.phase), Report(old(h.phase), high)) then Successor(old(h.phase)) else old(h.phase))
                && Rank(h.phase) <= Rank(old(h.phase)) + 1 && (h.phase == old(h.phase) || Rank(h.phase) == Rank(old(h.phase)) + 1)
                && Shown()
      ensures old(h.InStep()) ==> h.InStep()
    {
      hide At, CutShort, Acts, ActsBefore;
      live, parked, restored, line, paid := false, wasParked, wasRestored, Quiet, true;
      ghost var p := h.phase;
      var ready := Observe(p);
      high := ready;
      var done;
      if faulted { SoFarCutShort(p, Due(p) == Ready(ready)); return GiveUp, false, parked, restored, high, line, paid; }
      outcome, done, parked, restored, line, paid := Adapter(ready, parked, restored, direction, length);
      if outcome != Continue { return; }
      outcome, live := Advance(done, restored);
    }

    /** The sequencer's part of a turn. */
    method Advance(done: Done, restored: bool) returns (outcome: Outcome, live: bool)
      requires Rank(h.phase) <= 11 && At(h.phase, Evidence(h.phase, done)) && !h.failed && (restored <==> h.phase in {ReturnUart, ReturnPeer})
      requires h.phase == Drain ==> done.quiet
      modifies `lines, h
      ensures outcome == Continue && (live <==> h.phase == Uart)
      ensures h.phase == if Evidence(old(h.phase), done) then Successor(old(h.phase)) else old(h.phase)
      ensures Rank(h.phase) == Rank(old(h.phase)) + if Evidence(old(h.phase), done) then 1 else 0
      ensures !h.failed && At(h.phase, false) && Shown() && (old(h.InStep()) ==> h.InStep())
    {
      hide At, CutShort, Acts, ActsBefore;
      ghost var p := h.phase;
      if Evidence(p, done) { Onward(p); } else { NotYetDue(p, done); }
      outcome := Continue;
      var action := h.Step(done);
      if h.failed || action == Action.Fence || (action == Arm && h.phase != LocalArm) { return GiveUp, false; }
      Show();
      live := action == Live;
      if live && !restored { return GiveUp, false; }
    }

    lemma NotYetDue(p: Phase, done: Done)
      requires At(p, Evidence(p, done)) && !Evidence(p, done)
      ensures At(p, false)
    {
    }

    /** During a block the interrupt can do no more than raise a fault. */
    method TickDuringBlock(ghost parked: bool, ghost restored: bool)
      requires Underway(h.phase, parked, restored) && At(h.phase, false) && !h.failed
      modifies `grant, `blockBusy, `pads, `lines, `uart, `faulted, `asked, `run, h
      ensures Underway(h.phase, parked, restored) && At(h.phase, false) && !h.failed
      ensures h.View() == old(h.View()) && grant == old(grant) && lines == old(lines)
    {
      hide Reached, Acts;
      var _, _ := Tick();
    }

    /** The loop of the transaction.  It ends for every behaviour of clock, READY, interrupts and adapter: phases only
        advance, and between two advances the deadline runs out.  A fault that is pending when a turn begins ends it, and so
        do a deadline used up in one phase and an adapter that is stuck; nothing else does. */
    method Transact(direction: byte, length: int) returns (live: bool, ghost cause: Cause, ghost spent: Deadline)
      requires Underway(h.phase, false, false) && At(Drain, false) && !h.failed && h.phase == Drain
      modifies `grant, `blockBusy, `uart, `pads, `lines, `faulted, `asked, `run, `moved, h
      ensures grant == old(grant)
      ensures live ==> h.phase == Uart && !h.failed && uart == Active && At(Uart, false) && Shown() && cause == None
      ensures live ==> moved == old(moved) + [(direction, length)]
      ensures !live ==> CutShort(Acts(run)) && cause in {OutOfTime, Fault, Stuck}
      ensures !live ==> moved == old(moved) || moved == old(moved) + [(direction, length)]
      ensures old(h.InStep()) ==> h.InStep()
      ensures cause == OutOfTime ==> spent.elapsed >= LIMIT || spent.budget == 0
    {
      hide At, CutShort, Acts, Underway, Poll;
      UnderwayFrom(false, false);
      cause := None;
      var phase, parked, restored := h.phase, false, false;
      var now: byte :| true;
      var deadline := Fresh(now);
      spent := deadline;
      while true
        invariant Underway(h.phase, parked, restored) && At(h.phase, false) && !h.failed && h.phase == phase
        invariant 0 < deadline.budget && grant == old(grant) && Rank(h.phase) <= 11 && cause == None && spent == deadline
        invariant old(h.InStep()) ==> h.InStep()
        invariant moved == old(moved) + if Rank(h.phase) > 6 then [(direction, length)] else []
        decreases 12 - Rank(h.phase), LIMIT - deadline.elapsed, deadline.budget
      {
        now :| true;
        var polled := Poll(deadline, now);
        spent := Poll(spent, now).0;
        if !polled.1 {
          PollEnds(deadline, now);
          SoFarCutShort(h.phase, false);
          return false, OutOfTime, spent;
        }
        PollProgress(deadline, now);
        deadline := polled.0;
        TickDuringBlock(parked, restored);
        ghost var sawFault, before, p := faulted, moved, h.phase;
        var outcome;
        ghost var high, line, paid;
        outcome, live, parked, restored, high, line, paid := Turn(parked, restored, direction, length);
        BlockIsSixth(p);
        if sawFault { cause := Fault; } else if outcome == GiveUp { cause := Stuck; }
        if outcome == GiveUp { return false, cause, spent; }
        if outcome == TryAgain { continue; }
        if live { return true, cause, spent; }
        UnderwayFrom(parked, restored);
        if h.phase != p { spent := Fresh(0); }
        if phase != h.phase {
          phase := h.phase;
          now :| true;
          deadline := Fresh(now);
          spent := spent.(last := now);
        }
      }
    }

    lemma BlockIsSixth(p: Phase)
      ensures p == Block <==> Rank(p) == 6
    {
    }

    lemma UnderwayFrom(parked: bool, restored: bool)
      requires Underway(h.phase, parked, restored)
      ensures Rank(h.phase) <= 11 && (h.phase == Drain <==> !parked)
    {
    }

    /** `emos_parallel_boot_block_begin` */
    method BlockBegin(irq: bool) returns (ok: bool)
      modifies `blockBusy
      ensures ok <==> irq && !old(blockBusy) && grant == LiveGrant && h.phase == Drain && !h.failed
      ensures blockBusy == (old(blockBusy) || ok)
    {
      ok := irq && !blockBusy && grant == LiveGrant && h.phase == Drain && !h.failed;
      if ok { blockBusy := true; }
    }

    /** `emos_parallel_boot_block_end`: anything but a completed return is fenced. */
    method BlockEnd(success: bool)
      modifies `grant, `blockBusy, `pads, `lines, `run, h
      ensures !blockBusy
      ensures success && old(h.phase == Uart && !h.failed) ==> unchanged(`grant, `pads, `lines, `run) && h.View() == old(h.View())
      ensures !(success && old(h.phase == Uart && !h.failed)) ==>
                grant == NoGrant && h.View() == FENCED && pads == Inputs && lines == REQUEST_LINES && run == old(run) + [Fenced]
    {
      if success && h.phase == Uart && !h.failed {
        blockBusy := false;
      } else {
        BootStart();
      }
    }

    /** `emos_keyboard_parallel_release` */
    method ReleaseReservation() returns (released: bool)
      modifies `reserved, `run
      ensures released <==> old(reserved) && uart == Active
      ensures released ==> !reserved && run == old(run) + [ReservationReleased]
      ensures !released ==> reserved == old(reserved) && run == old(run)
    {
      released := reserved && uart == Active;
      if released {
        reserved := false;
        Note(ReservationReleased);
      }
    }

    /** The first checks. */
    method CheckOffer(given: bool, offer: Record, capacity: nat) returns (admissible: bool, length: nat)
      ensures admissible <==> given && Admissible(session, offer, capacity) && reserved && sessionActive && uart == Active
                              && !faulted && !asked && h.phase == Drain && !h.failed
      ensures admissible ==> |session| == 6 && length == Pair(offer[10], offer[11])
    {
      if !given || !reserved || uart != Active || asked || faulted || !sessionActive || h.phase != Drain || h.failed
         || !BlockMatches(offer, offer, OFFER) || offer[12] > 1 || offer[13] != 0 || session != offer[4..10] {
        return false, 0;
      }
      length := Pair(offer[10], offer[11]);
      admissible := length > 0 && length <= MAX_BLOCK && length <= capacity;
    }

    /** `emos_parallel_native_coordinate`; `given` says that none of its pointers is null. */
    method Coordinate(given: bool, offer: Record, capacity: nat, irq: bool)
      returns (ok: bool, ghost began: bool, ghost early: seq<Happening>, ghost cause: Cause)
      modifies this, h
      // refused before the block began: nothing has changed
      ensures began <==> given && irq && Admissible(old(session), offer, capacity)
                         && old(reserved && sessionActive && uart == Active && !faulted && !asked && !blockBusy
                                                  && h.phase == Drain && !h.failed && grant == LiveGrant)
      ensures !began ==> !ok && unchanged(this) && h.View() == old(h.View())
      // success: every step of the transaction in order, nothing done besides, and the reservation given back
      ensures ok ==> began && Reached(Transaction(), run) == 12 && Acts(run) == ActsBefore(Uart) + [ReservationReleased]
      ensures ok ==> !reserved && !blockBusy && sessionActive && uart == Active
                     && grant == LiveGrant && h.phase == Uart && !h.failed && Shown()
      // the payload is the one that was offered, and it is run at most once
      ensures ok ==> moved == old(moved) + [(offer[12], Pair(offer[10], offer[11]))]
      ensures moved == old(moved) || moved == old(moved) + [(offer[12], Pair(offer[10], offer[11]))]
      // failure of a block that began: no session, no grant, the pads let go, and the reservation kept
      ensures began && !ok ==> !sessionActive && session == old(session[..4] + [0, 0]) && grant == NoGrant && !blockBusy && reserved
                               && pads == Inputs && lines == REQUEST_LINES && h.View() == FENCED
      ensures began && !ok ==> Acts(run) == early + [Fenced]
                               && (CutShort(early) || (cause == Late && early == ActsBefore(Uart) + [Fenced]))
      // and it has a cause: a fault pending when a turn began is one, a run that went well has none
      ensures ok <==> began && cause == None
      ensures old(h.InStep()) ==> h.InStep() && (ok ==> lines == Lines(true, false))
    {
      hide At, CutShort, Acts, Reached, Transaction, ActsBefore, Admissible;
      early, cause := [], None;
      var admissible, length := CheckOffer(given && irq, offer, capacity);
      if !admissible { return false, false, [], None; }
      var begun := BlockBegin(irq);
      if !begun { return false, false, [], None; }
      run := [];
      AtTheBeginning();
      var live;
      ghost var spent;
      live, cause, spent := Transact(offer[12], length);
      early := Acts(run);
      if live {
        BlockEnd(true);
        ok, early, cause := Finish();
        if ok { return true, true, early, None; }
      }
      Abandon();
      return false, true, early, cause;
    }

    /** The end of a transaction that failed: no session and the physical fence. */
    method Abandon()
      requires |session| == 6
      modifies `session, `sessionActive, `grant, `blockBusy, `pads, `lines, `run, h
      ensures !sessionActive && session == old(session[..4] + [0, 0]) && grant == NoGrant && !blockBusy
      ensures pads == Inputs && lines == REQUEST_LINES && h.View() == FENCED
      ensures Acts(run) == old(Acts(run)) + [Fenced]
    {
      hide Acts;
      CancelSession();
      ActsNext(run, Fenced);
      BlockEnd(false);
    }

    /** `emos_parallel_session_cancel` */
    method CancelSession()
      requires |session| == 6
      modifies `session, `sessionActive, h
      ensures !sessionActive && session == old(session[..4] + [0, 0]) && h.View() == Cancelled(old(h.View()))
    {
      sessionActive := false;
      session := session[..4] + [0, 0];
      h.Cancel();
    }

    /** The way out of a transaction that went well: a last interrupt may still refuse it, by taking UART1 away. */
    method Finish() returns (ok: bool, ghost early: seq<Happening>, ghost cause: Cause)
      requires h.phase == Uart && !h.failed && uart == Active && !blockBusy && reserved && At(Uart, false) && grant == LiveGrant
      modifies `grant, `blockBusy, `pads, `lines, `uart, `faulted, `asked, `reserved, `run, h
      ensures !blockBusy && (ok <==> cause == None) && (!ok ==> cause == Late && uart == Off)
      ensures ok ==> Reached(Transaction(), run) == 12 && Acts(run) == ActsBefore(Uart) + [ReservationReleased]
      ensures ok ==> !reserved && uart == Active && grant == LiveGrant && h.View() == old(h.View()) && lines == old(lines)
      ensures !ok ==> reserved && Acts(run) == early && early == ActsBefore(Uart) + [Fenced]
    {
      hide Reached, Acts, ActsBefore, Transaction;
      assert ActsBefore(Uart) + [] == ActsBefore(Uart);
      ActsNext(run, Fenced);
      ActsNext(run, ReservationReleased);
      ReachedNext(Transaction(), run, ReservationReleased);
      early := Acts(run) + [Fenced];
      TransactionLength();
      ghost var lost, high;
      lost, high := Tick();
      cause := if lost then Late else None;
      ok := ReleaseReservation();
    }

    lemma TransactionLength()
      ensures |Transaction()| == 12
    {
    }
  }

  datatype Outcome = Continue | TryAgain | GiveUp
}
