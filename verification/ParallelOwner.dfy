/** The owner of the forward-parallel epoch, under interrupts.

    Every method takes the nesting depth that is still possible.  `Interrupt` stands between any two steps:
    there, any number of complete calls may run, each of which may be interrupted in turn.  Interrupts are
    held off only inside the steps that the assembly makes indivisible.  For a call that nothing interrupts,
    at depth 0, the contracts say exactly what it does. */
module ParallelOwner {
  import opened ParallelEngine

  const PEER_NOT_READY: status := 0xE5
  const UART1_ACTIVE: status := 0xE6
  const LAST_GENERATION: nat := 0xFF_FFFF

  datatype Holder = Nobody | Entering | Leaving | Writing | OpeningUart | Reserved
  datatype Pins = Released | Driven | UartMux

  /** A write let through to the engine: the lease it showed and the epoch that was open. */
  datatype Admission = Admission(lease: nat, epoch: nat)

  /** An entry that had the lock: how many calls had lost the lock when it took it and when it gave it up, whether the peer
      had answered that it is ready, and the lease it published, 0 for none. */
  datatype Entry = Entry(taken: nat, given: nat, ready: bool, lease: nat)

  /** What an entry finds: UART1 open when it looks, and the peer's answer. */
  datatype Findings = Findings(uart1: bool, ready: bool)

  /** The status of an entry that nobody contends with. */
  function Verdict(generation: nat, found: Findings): status
  {
    if generation == LAST_GENERATION then EPOCH_EXHAUSTED
    else if found.uart1 then UART1_ACTIVE
    else if !found.ready then PEER_NOT_READY
    else OK
  }

  class Owner {
    var initialized: bool
    var initLock: bool
    var configStatus: status
    var bindingStatus: status
    var pinsOwned: bool
    var generation: nat
    var lock: bool
    var deferredFault: status
    var routeLease: nat
    var uart1Open: bool          // serialFlags & 0x10
    var pins: Pins
    var engineOpen: bool
    var engineBusy: bool

    ghost var holder: Holder               // who holds the lock
    ghost var admissions: seq<Admission>
    ghost var refusals: nat                // calls that lost the lock, other than UART1 opens
    ghost var refusalsAtEntry: nat         // and how many of them when the lock was last taken for an entry
    ghost var peerReady: bool              // what the peer has answered to the entry that has the lock
    ghost var entries: seq<Entry>          // recorded in the instant in which an entry gives the lock up

    ghost predicate Valid()
      reads this
    {
      && (lock <==> holder != Nobody)
      && (!initialized ==> !lock && !pinsOwned && generation == 0)
      && (initialized ==> configStatus == OK)
      && deferredFault in {OK, BUSY}
      // who may touch Port C
      && (pinsOwned ==> engineOpen && pins == Driven && !uart1Open && holder !in {Entering, OpeningUart, Reserved})
      && (engineOpen ==> pinsOwned || holder in {Entering, Leaving})
      && (pins == Driven ==> pinsOwned || holder in {Entering, Leaving})
      && (pins == Driven ==> !uart1Open)
      && (engineBusy ==> holder == Writing && pinsOwned)
      // generations
      && generation <= LAST_GENERATION
      && (pinsOwned ==> generation > 0)
      && Proper(admissions)
      // no entry that saw a contender, or whose peer was not ready, has published a lease
      && Justified(entries)
      // contenders during an entry leave their mark
      && refusalsAtEntry <= refusals
      && (holder == Entering ==> (deferredFault == OK <==> refusals == refusalsAtEntry))
    }

    /** The state after a reset; pins are inputs until somebody drives them. */
    constructor ()
      ensures Valid() && !initialized && !lock && !pinsOwned && !uart1Open && generation == 0 && admissions == [] && refusals == 0 && entries == []
      ensures !initLock && configStatus == deferredFault == bindingStatus == OK && routeLease == 0 && pins == Released && !engineOpen && !engineBusy
    {
      initialized, initLock, configStatus := false, false, OK;
      lock, pinsOwned, generation, deferredFault, bindingStatus, routeLease := false, false, 0, OK, OK, 0;
      uart1Open, pins, engineOpen, engineBusy := false, Released, false, false;
      holder, admissions, refusals, refusalsAtEntry, peerReady, entries := Nobody, [], 0, 0, false, [];
    }

    /** The epochs that have been left are those numbered 1 up to this. */
    ghost function ClosedUpTo(): int
      reads this
    {
      if pinsOwned then generation - 1 else generation
    }

    /** What a complete call, or any number of them, may do to the calls they interrupt: while somebody holds
        the lock, they can close UART1, mark a contention, and nothing else. */
    twostate predicate Interfered()
      reads this
    {
      && old(generation) <= generation && old(ClosedUpTo()) <= ClosedUpTo() && old(refusals) <= refusals
      && old(entries) <= entries
      && (old(initialized) ==> initialized)
      && (lock <==> old(lock)) && (initLock <==> old(initLock))
      && (old(initLock) && !old(initialized) ==> !initialized)
      && (old(lock) || (old(initLock) && !old(initialized)) ==> Frozen())
    }

    /** Nothing has changed but what interrupting calls may change while the lock is held. */
    twostate predicate Frozen()
      reads this
    {
      && unchanged(`initialized, `initLock, `configStatus, `lock, `holder, `pinsOwned, `generation, `admissions, `pins,
                   `engineOpen, `engineBusy, `refusalsAtEntry, `peerReady, `entries,
                   `routeLease)
      && old(refusals) <= refusals
      && (uart1Open ==> old(uart1Open))
      && (deferredFault == old(deferredFault) || deferredFault == BUSY)
      && (bindingStatus == old(bindingStatus) || bindingStatus == BUSY)
    }

    /** Nothing but the status words and the record of refusals has changed. */
    twostate predicate Stationary()
      reads this
    {
      unchanged(`initialized, `initLock, `configStatus, `pinsOwned, `generation, `lock, `routeLease, `uart1Open, `pins, `engineOpen,
                `engineBusy, `holder, `admissions, `refusalsAtEntry, `peerReady, `entries)
    }

    // -------------------------------------------------------------------------------------- interrupts

    method Interrupt(depth: nat)
      requires Valid()
      modifies this
      ensures Valid() && Interfered() && (depth == 0 ==> unchanged(this))
      decreases depth, 0, 0
    {
      if depth > 0 {
        var calls: nat :| true;
        for i := 0 to calls
          invariant Valid() && Interfered()
        {
          Call(depth - 1);
        }
      }
    }

    /** An interrupt while the lock is held. */
    method Pause(depth: nat)
      requires Valid() && lock
      modifies this
      ensures Valid() && Frozen() && (depth == 0 ==> unchanged(this))
      decreases depth, 0, 1
    {
      Interrupt(depth);
    }

    /** One complete call of any kind. */
    method Call(depth: nat)
      requires Valid()
      modifies this
      ensures Valid() && Interfered()
      decreases depth, 5
    {
      var kind :| 0 <= kind < 7;
      if kind == 0 {
        var hasPeer: bool := *;
        var s, lease, at, found := EpochEnter(hasPeer, depth);
      } else if kind == 1 {
        var s := EpochLeave(depth);
      } else if kind == 2 {
        var lease: nat :| true;
        var s, engine := WriteStream(lease, depth);
      } else if kind == 3 {
        var hasPeer: bool := *;
        var s, found := RouteEnter(hasPeer, depth);
      } else if kind == 4 {
        var s := RouteLeave(depth);
      } else if kind == 5 {
        var allowed: bool := *;
        var ok := OpenUart1(allowed, depth);
      } else {
        var owned: bool := *;
        CloseUart1(owned);
      }
    }

    // --------------------------------------------------------------------------- indivisible steps

    /** `emos_parallel_io_try_begin_entry` */
    method TryBeginEntry() returns (status: status)
      requires Valid() && initialized
      modifies this
      ensures Valid()
      ensures status == OK <==> old(!lock && !pinsOwned)
      ensures status == OK ==> lock && holder == Entering && deferredFault == OK && refusals == refusalsAtEntry
                               && unchanged(`initialized, `initLock, `configStatus, `bindingStatus, `pinsOwned, `generation,
                                            `uart1Open, `pins, `engineOpen, `engineBusy, `admissions, `refusals, `entries, `routeLease)
      ensures status != OK ==> status == BUSY && Interfered() && bindingStatus == old(bindingStatus) && Stationary()
                               && deferredFault == if old(lock) then BUSY else old(deferredFault)
      ensures refusals == if old(lock) then old(refusals) + 1 else old(refusals)
    {
      if lock {
        deferredFault := BUSY;
        refusals := refusals + 1;
        status := BUSY;
      } else if pinsOwned {
        status := BUSY;
      } else {
        lock := true;
        holder := Entering;
        deferredFault := OK;
        refusalsAtEntry := refusals;
        status := OK;
      }
    }

    /** `emos_parallel_io_try_lock` on the writer lock */
    method TryLock(ghost forWhom: Holder) returns (status: status)
      requires Valid() && initialized && forWhom in {Leaving, Writing}
      modifies `lock, `holder
      ensures Valid()
      ensures status == OK <==> old(!lock)
      ensures status == OK ==> lock && holder == forWhom
      ensures status != OK ==> status == BUSY && unchanged(this)
    {
      if lock { return BUSY; }
      lock := true;
      holder := forWhom;
      status := OK;
    }

    /** `emos_parallel_io_try_reserve_portc`: losing this lock is not held against an entry. */
    method TryReservePortC(ghost forWhom: Holder) returns (status: status)
      requires Valid() && forWhom in {OpeningUart, Reserved} && initialized
      modifies `lock, `holder
      ensures Valid()
      ensures status == OK <==> old(!lock && !pinsOwned)
      ensures status == OK ==> holder == forWhom
      ensures status != OK ==> status == BUSY && unchanged(this)
    {
      if lock || pinsOwned { return BUSY; }
      lock := true;
      holder := forWhom;
      status := OK;
    }

    /** `emos_parallel_io_commit_epoch`: ownership is published exactly if nobody contended since the lock was
        taken. */
    method CommitEpoch(candidate: nat) returns (status: status, lease: nat)
      requires Valid() && initialized && holder == Entering && !pinsOwned && engineOpen && !engineBusy && pins == Driven && !uart1Open
      requires candidate == generation + 1 <= LAST_GENERATION && peerReady
      modifies this
      ensures Valid()
      ensures status == OK <==> old(refusals == refusalsAtEntry)
      ensures status == OK ==> !lock && pinsOwned && generation == candidate == lease
                               && entries == old(entries) + [Entry(old(refusalsAtEntry), refusals, true, lease)]
      ensures status != OK ==> status == old(deferredFault) && lease == 0 && unchanged(this)
      ensures unchanged(`initialized, `initLock, `configStatus, `refusals, `admissions, `bindingStatus, `deferredFault, `routeLease, `pins,
                        `engineOpen, `engineBusy, `uart1Open) && ClosedUpTo() == old(ClosedUpTo())
    {
      lease := 0;
      if deferredFault != OK { return deferredFault, 0; }
      JustifiedSnoc(entries, Entry(refusalsAtEntry, refusals, true, candidate));
      entries := entries + [Entry(refusalsAtEntry, refusals, true, candidate)];
      generation := candidate;
      lease := candidate;
      pinsOwned := true;
      lock := false;
      holder := Nobody;
      status := OK;
    }

    // --------------------------------------------------------------------------------- initialisation

    /** An interrupt while the state is being initialised: every call is refused. */
    method InitPause(depth: nat)
      requires Valid() && initLock && !initialized
      modifies this
      ensures Valid() && Frozen() && (depth == 0 ==> unchanged(this))
      decreases depth, 0, 1
    {
      Interrupt(depth);
    }

    /** `emos_parallel_init` under its own lock: first the state, then the word that it is ready. */
    method InitUnderLock(depth: nat)
      requires Valid() && initLock && !initialized
      modifies this
      ensures Valid() && initialized && initLock && !lock && !pinsOwned && generation == 0 && routeLease == 0
      ensures deferredFault in {OK, BUSY} && bindingStatus in {OK, BUSY} && configStatus == OK
      ensures old(refusals) <= refusals && unchanged(`entries, `admissions, `holder, `pins, `engineOpen,
                                                     `engineBusy) && (uart1Open ==> old(uart1Open))
      ensures depth == 0 ==> deferredFault == OK && bindingStatus == OK && unchanged(`refusals, `uart1Open)
      decreases depth, 1
    {
      hide Proper, Justified, Interfered, ClosedUpTo;
      configStatus := OK;
      InitPause(depth);
      InitOwnership(depth);
      InitPause(depth);
      routeLease := 0;
      bindingStatus := configStatus;
      InitPause(depth);
      initialized := true;
    }

    method InitOwnership(depth: nat)
      requires Valid() && initLock && !initialized
      modifies this
      ensures Valid() && initLock && !initialized && !lock && !pinsOwned && generation == 0 && deferredFault == OK
      ensures unchanged(`configStatus, `entries, `admissions, `holder, `pins, `engineOpen, `engineBusy) && old(refusals) <= refusals
      ensures uart1Open ==> old(uart1Open)
      ensures depth == 0 ==> unchanged(`refusals, `uart1Open)
      decreases depth, 0, 2
    {
      hide Proper, Justified, Interfered, ClosedUpTo;
      pinsOwned := false;
      generation := 0;
      InitPause(depth);
      lock := false;
      deferredFault := OK;
    }

    /** `emos_parallel_init` and `emos_parallel_ensure_initialized`: refused only while somebody else initialises. */
    method EnsureInitialized(depth: nat) returns (status: status)
      requires Valid()
      modifies this
      ensures Valid() && Interfered()
      ensures status == OK <==> initialized
      ensures status != OK ==> status == BUSY
      ensures old(initialized || !initLock) ==> status == OK
      ensures old(initialized) && depth == 0 ==> unchanged(this)
      ensures !old(initialized || initLock) && depth == 0 ==>
                && !lock && !pinsOwned && generation == 0 && routeLease == 0 && deferredFault == OK && bindingStatus == OK
                && unchanged(`initLock, `entries, `admissions, `pins, `engineOpen, `uart1Open, `refusals)
      decreases depth, 2
    {
      hide Proper, Justified;
      if !initialized {
        Interrupt(depth);
        if !initialized && !initLock {
          initLock := true;
          Interrupt(depth);
          InitUnderLock(depth);
          Interrupt(depth);
          initLock := false;
        }
      }
      Interrupt(depth);
      if !initialized { return BUSY; }
      status := configStatus;
    }

    // ---------------------------------------------------------------------------------- the life cycle

    /** Losing the lock to somebody is remembered until the next entry. */
    method NoteLockedContention()
      requires Valid() && lock
      modifies `deferredFault, `bindingStatus, `refusals
      ensures Valid() && deferredFault == BUSY && bindingStatus == BUSY && refusals == old(refusals) + 1
    {
      deferredFault := BUSY;
      bindingStatus := BUSY;
      refusals := refusals + 1;
    }

    /** `emos_parallel_epoch_enter`; `lease` is 0 unless the entry succeeds.  `at` is where its having the lock is recorded,
        or the end of the record if it never had it. */
    method EpochEnter(hasPeer: bool, depth: nat) returns (status: status, lease: nat, ghost at: nat, ghost found: Findings)
      requires Valid()
      modifies this
      ensures Valid() && Interfered() && (found.ready ==> hasPeer)
      ensures status != OK ==> lease == 0
      ensures status == OK ==> old(generation) < lease <= generation && !old(lock) && found.ready
      ensures |old(entries)| <= at <= |entries| && (status == OK ==> at < |entries|)
      ensures at < |entries| ==> old(refusals) <= entries[at].taken <= entries[at].given <= refusals && entries[at].lease == lease
                                 && (entries[at].ready <==> found.ready)
      ensures at < |entries| && entries[at].taken < entries[at].given ==> status != OK
      // one that never had the lock, or saw a contender, is busy or was refused for a reason of its own
      ensures at == |entries| ==> status == BUSY
      ensures old(initLock && !initialized) ==> status == BUSY
      ensures old(lock) && old(initialized) ==> status == BUSY && refusals > old(refusals)
      ensures depth == 0 && old(initialized) ==> Entered(hasPeer, status, found)
      decreases depth, 3
    {
      hide Proper, Justified;
      lease, at, found := 0, |entries|, Findings(false, false);
      status := EnsureInitialized(depth);
      at := |entries|;
      if status != OK { return; }
      Interrupt(depth);
      status := TryBeginEntry();
      if status != OK {
        Interrupt(depth);
        bindingStatus := BUSY;
        at := |entries|;
        return BUSY, 0, at, found;
      }
      at := |entries|;
      status, lease, found := EntryUnderLock(hasPeer, depth);
    }

    /** An entry that nothing interrupts. */
    twostate predicate Entered(hasPeer: bool, status: status, found: Findings)
      reads this
    {
      && bindingStatus == status && unchanged(`initialized, `initLock, `configStatus, `routeLease, `uart1Open, `admissions)
      && if old(lock) then status == BUSY && deferredFault == BUSY && Stationary()
         else if old(pinsOwned) then status == BUSY && deferredFault == old(deferredFault) && Stationary()
         else
           && status == Verdict(old(generation), found) && deferredFault == OK && !lock && (found.ready ==> hasPeer)
           && (old(generation) < LAST_GENERATION ==> found.uart1 == old(uart1Open))
           && (pinsOwned <==> status == OK) && (engineOpen <==> status == OK)
           && generation == (if status == OK then old(generation) + 1 else old(generation))
           && pins == (if status == OK then Driven else if status == PEER_NOT_READY then Released else old(pins))
    }

    /** `emos_parallel_epoch_enter` from the moment it has the lock.  The record says when it gave the lock up: if a call had
        lost the lock by then, or the peer is not ready, nothing is published; if not, the verdict is that of what it finds. */
    method EntryUnderLock(hasPeer: bool, depth: nat) returns (status: status, lease: nat, ghost found: Findings)
      requires Valid() && initialized && holder == Entering && !pinsOwned && !engineOpen && pins != Driven
      requires deferredFault == OK && refusals == refusalsAtEntry
      modifies this
      ensures Valid() && initialized && (initLock <==> old(initLock)) && !lock
      ensures old(generation) <= generation && old(ClosedUpTo()) <= ClosedUpTo()
      ensures old(entries) < entries && (found.ready ==> hasPeer)
      ensures var e := entries[|old(entries)|];
              && e.taken == old(refusals) <= e.given <= refusals && e.lease == lease && (e.given > e.taken ==> status != OK)
              && (e.ready <==> found.ready)
              && (e.given == e.taken ==> status == Verdict(old(generation), found))
              && (e.given > e.taken ==> status in {EPOCH_EXHAUSTED, UART1_ACTIVE, PEER_NOT_READY, BUSY})
      ensures status != OK ==> lease == 0
      ensures status == OK ==> old(generation) < lease <= generation && found.ready
      ensures depth == 0 ==>
                && bindingStatus == status == Verdict(old(generation), found) && deferredFault == OK
                && (old(generation) < LAST_GENERATION ==> found.uart1 == old(uart1Open))
                && unchanged(`configStatus, `routeLease, `uart1Open, `admissions)
                && (pinsOwned <==> status == OK) && (engineOpen <==> status == OK)
                && generation == (if status == OK then old(generation) + 1 else old(generation))
                && pins == (if status == OK then Driven else if status == PEER_NOT_READY then Released else old(pins))
      decreases depth, 2
    {
      hide Proper;
      Pause(depth);
      lease := 0;
      var candidate := generation + 1;
      var prepared;
      status, prepared, found := PreparePins(hasPeer, depth);
      if status == OK {
        Pause(depth);
        bindingStatus := OK;
        Pause(depth);
        status, lease := CommitEpoch(candidate);
        if status == OK {
          Interrupt(depth);
          return;
        }
      }
      AbandonEntry(status, prepared, depth);
    }

    /** The checks and the pin work of an entry, up to the open engine.  The peer is asked with the pins released, and they
        are driven only if it is ready. */
    method PreparePins(hasPeer: bool, depth: nat) returns (status: status, prepared: bool, ghost found: Findings)
      requires Valid() && initialized && holder == Entering && !pinsOwned && !engineOpen && pins != Driven
      modifies this
      ensures Valid() && unchanged(`initialized, `initLock, `configStatus, `lock, `holder, `pinsOwned, `generation,
                                   `admissions, `refusalsAtEntry, `entries, `routeLease, `engineBusy)
      ensures old(refusals) <= refusals && (peerReady <==> found.ready) && (found.ready ==> hasPeer) && (found.uart1 ==> old(uart1Open))
      ensures status == OK ==> generation < LAST_GENERATION && prepared && engineOpen && pins == Driven && !uart1Open && found.ready
      ensures status != OK ==> !engineOpen && pins == if prepared then Released else old(pins)
      ensures prepared <==> generation < LAST_GENERATION && !found.uart1
      ensures refusals == refusalsAtEntry ==> status == Verdict(generation, found)
      ensures status in {OK, EPOCH_EXHAUSTED, UART1_ACTIVE, PEER_NOT_READY} || (status == BUSY == deferredFault)
      ensures status == OK ==> Verdict(generation, found) == OK
      ensures depth == 0 ==> unchanged(`refusals, `deferredFault, `bindingStatus, `uart1Open)
                             && (generation < LAST_GENERATION ==> found.uart1 == uart1Open)
      decreases depth, 1
    {
      hide Proper, Justified, Interfered, ClosedUpTo;
      prepared, found := false, Findings(false, false);
      peerReady := false;
      if generation == LAST_GENERATION { return EPOCH_EXHAUSTED, false, found; }
      Pause(depth);
      found := Findings(uart1Open, false);
      if uart1Open { return UART1_ACTIVE, false, found; }
      Pause(depth);
      prepared := true;
      var ready := AskPeer(hasPeer, depth);
      found := Findings(false, peerReady);
      if !ready {
        status := if deferredFault != OK then deferredFault else PEER_NOT_READY;
        return;
      }
      Pause(depth);
      if deferredFault != OK {
        status := deferredFault;
        return;
      }
      DriveAndOpen(depth);
      status := OK;
    }

    /** The pins are released, and the peer is asked. */
    method AskPeer(hasPeer: bool, depth: nat) returns (ready: bool)
      requires Valid() && initialized && holder == Entering && !pinsOwned && !engineOpen && pins != Driven
      modifies this
      ensures Valid() && unchanged(`initialized, `initLock, `configStatus, `lock, `holder, `pinsOwned, `generation,
                                   `admissions, `refusalsAtEntry, `entries, `routeLease, `engineBusy)
      ensures old(refusals) <= refusals && pins == Released && !engineOpen && (uart1Open ==> old(uart1Open))
      ensures ready == peerReady && (ready ==> hasPeer)
      ensures depth == 0 ==> unchanged(`refusals, `deferredFault, `bindingStatus, `uart1Open)
      decreases depth, 0, 2
    {
      hide Proper, Justified, Interfered, ClosedUpTo;
      pins := Released;
      Pause(depth);
      var answer: bool := *;
      peerReady := hasPeer && answer;
      ready := true;
      if !hasPeer || !answer { ready := false; }
    }

    method DriveAndOpen(depth: nat)
      requires deferredFault == OK
      requires Valid() && initialized && holder == Entering && !pinsOwned && !engineOpen && pins != Driven && !uart1Open
      modifies this
      ensures Valid() && unchanged(`initialized, `initLock, `configStatus, `lock, `holder, `pinsOwned, `generation,
                                   `admissions, `refusalsAtEntry, `entries, `routeLease, `engineBusy, `peerReady)
      ensures old(refusals) <= refusals && engineOpen && pins == Driven && !uart1Open
      ensures depth == 0 ==> unchanged(`refusals, `deferredFault, `bindingStatus)
      decreases depth, 0, 2
    {
      hide Proper, Justified, Interfered, ClosedUpTo;
      Pause(depth);
      pins := Driven;
      Pause(depth);
      engineOpen := true;
    }

    /** The common end of an entry that fails: it never publishes ownership. */
    method AbandonEntry(status: status, prepared: bool, depth: nat)
      requires Valid() && initialized && holder == Entering && !pinsOwned && (engineOpen || pins == Driven ==> prepared)
      requires !engineBusy
      modifies this
      ensures Valid() && !lock && !pinsOwned && !engineOpen && pins == if prepared then Released else old(pins)
      ensures bindingStatus == status || bindingStatus == BUSY
      ensures unchanged(`initialized, `initLock, `configStatus, `generation, `admissions, `routeLease) && old(refusals) <= refusals
      ensures entries == old(entries) + [Entry(old(refusalsAtEntry), refusals, old(peerReady), 0)]
      ensures depth == 0 ==> bindingStatus == status && unchanged(`refusals, `deferredFault, `uart1Open)
      decreases depth, 1
    {
      hide Proper, Justified, Interfered, ClosedUpTo;
      Pause(depth);
      LetGo(status, prepared, depth);
      UnlockEntry();
    }

    /** The engine is closed, the pins are released if they had been prepared, and the status is told. */
    method LetGo(status: status, prepared: bool, depth: nat)
      requires Valid() && initialized && holder in {Entering, Leaving} && !pinsOwned && (engineOpen || pins == Driven ==> prepared) && !engineBusy
      modifies this
      ensures Valid() && !engineOpen && pins == (if prepared then Released else old(pins)) && bindingStatus in {status, BUSY}
      ensures old(refusals) <= refusals
      ensures unchanged(`initialized, `initLock, `configStatus, `lock, `holder, `pinsOwned, `generation, `admissions, `routeLease, `entries,
                        `refusalsAtEntry, `peerReady, `engineBusy)
      ensures depth == 0 ==> bindingStatus == status && unchanged(`refusals, `deferredFault, `uart1Open)
      decreases depth, 0, 2
    {
      hide Proper, Justified, Interfered, ClosedUpTo;
      engineOpen := false;
      Pause(depth);
      if prepared { pins := Released; }
      Pause(depth);
      bindingStatus := status;
      Pause(depth);
    }

    /** The instant in which a failed entry gives the lock up. */
    method UnlockEntry()
      requires Valid() && holder == Entering && !pinsOwned && !engineOpen && pins != Driven && !engineBusy
      modifies `lock, `holder, `entries
      ensures Valid() && !lock && entries == old(entries) + [Entry(refusalsAtEntry, refusals, peerReady, 0)]
    {
      hide Proper;
      JustifiedSnoc(entries, Entry(refusalsAtEntry, refusals, peerReady, 0));
      entries := entries + [Entry(refusalsAtEntry, refusals, peerReady, 0)];
      lock := false;
      holder := Nobody;
    }

    /** `emos_parallel_epoch_leave` */
    method EpochLeave(depth: nat) returns (status: status)
      requires Valid()
      modifies this
      ensures Valid() && Interfered() && status in {OK, BUSY}
      // when it wins, every epoch there was is closed for good
      ensures status == OK ==> old(generation) <= ClosedUpTo()
      ensures old(lock) ==> status != OK && (old(initialized) ==> refusals > old(refusals))
      ensures old(initLock && !initialized) ==> status == BUSY
      ensures depth == 0 && old(initialized) ==>
                && bindingStatus == status == (if old(lock) then BUSY else OK)
                && deferredFault == (if old(lock) then BUSY else old(deferredFault))
                && (old(lock) ==> Stationary())
                && (!old(lock) ==> !lock && !pinsOwned && (old(pinsOwned) ==> !engineOpen && pins == Released)
                                   && (!old(pinsOwned) ==> unchanged(`pins, `engineOpen)) && unchanged(`generation,
                                                                                                       `routeLease, `uart1Open, `refusals, `admissions, `entries))
      decreases depth, 3
    {
      hide Proper, Justified;
      status := EnsureInitialized(depth);
      if status != OK { return; }
      Interrupt(depth);
      status := TryLock(Leaving);
      if status != OK {
        NoteLockedContention();
        Interrupt(depth);
        return BUSY;
      }
      LeaveUnderLock(depth);
      status := OK;
    }

    /** A leave that has the lock closes the epoch, if one is open. */
    method LeaveUnderLock(depth: nat)
      requires Valid() && initialized && holder == Leaving && (engineOpen || pins == Driven ==> pinsOwned)
      modifies this
      ensures Valid() && !lock && !pinsOwned && (bindingStatus == OK || bindingStatus == BUSY)
      ensures if old(pinsOwned) then !engineOpen && pins == Released else unchanged(`engineOpen, `pins)
      ensures unchanged(`initialized, `initLock, `configStatus, `generation, `entries, `routeLease, `admissions) && old(refusals) <= refusals
      ensures depth == 0 ==> bindingStatus == OK && unchanged(`refusals, `deferredFault, `uart1Open)
      decreases depth, 2
    {
      hide Proper, Justified, Interfered, ClosedUpTo;
      Pause(depth);
      if !pinsOwned {
        bindingStatus := OK;
        Pause(depth);
      } else {
        CloseEpoch(depth);
      }
      lock := false;
      holder := Nobody;
    }

    method CloseEpoch(depth: nat)
      requires Valid() && initialized && holder == Leaving && pinsOwned
      modifies this
      ensures Valid() && holder == Leaving && !pinsOwned && !engineOpen && pins == Released
      ensures bindingStatus == OK || bindingStatus == BUSY
      ensures unchanged(`initialized, `initLock, `configStatus, `generation, `entries, `routeLease, `admissions) && old(refusals) <= refusals
      ensures depth == 0 ==> bindingStatus == OK && unchanged(`refusals, `deferredFault, `uart1Open)
      decreases depth, 1
    {
      hide Proper, Justified, Interfered, ClosedUpTo;
      pinsOwned := false;
      Pause(depth);
      LetGo(OK, true, depth);
    }

    /** `emos_parallel_write_stream`.  Whatever the engine makes of the bytes, `engine`, it sees them only after the
        lease was found to be that of the open epoch. */
    method WriteStream(lease: nat, depth: nat) returns (status: status, ghost engine: status)
      requires Valid()
      modifies this
      ensures Valid() && Interfered()
      ensures old(lock) && old(initialized) ==> status == BUSY && refusals > old(refusals)
      // a lease whose epoch has been left, or that was never issued, is not accepted
      ensures lease == 0 || lease <= old(ClosedUpTo()) ==> status != OK
      // uninterrupted, the lease of the open epoch is accepted, and nothing else is
      ensures depth == 0 && old(initialized) ==>
                if old(lock) then status == bindingStatus == deferredFault == BUSY && Stationary()
                else Written(lease, status, engine) && !lock
      decreases depth, 4
    {
      hide Proper, Justified;
      engine := OK;
      status := EnsureInitialized(depth);
      if status != OK { return; }
      Interrupt(depth);
      status := TryLock(Writing);
      if status != OK {
        NoteLockedContention();
        Interrupt(depth);
        return bindingStatus, engine;
      }
      status, engine := WriteAndUnlock(lease, depth);
    }

    /** A write that has the lock and that nothing interrupts. */
    twostate predicate Written(lease: nat, status: status, engine: status)
      reads this
    {
      && unchanged(`initialized, `initLock, `configStatus, `generation, `pinsOwned, `entries, `routeLease, `deferredFault, `refusals,
                   `uart1Open, `pins, `engineOpen)
      && if !old(pinsOwned) || lease == 0 || lease != old(generation) then
           status == bindingStatus == NOT_OWNED && admissions == old(admissions)
         else if old(deferredFault) != OK then status == bindingStatus == old(deferredFault) && admissions == old(admissions)
         else status == engine && bindingStatus == engine && admissions == old(admissions) + [Admission(lease, generation)]
    }

    method WriteAndUnlock(lease: nat, depth: nat) returns (status: status, ghost engine: status)
      requires Valid() && initialized && holder == Writing && !engineBusy
      modifies this
      ensures Valid() && !lock
      ensures unchanged(`initialized, `initLock, `configStatus, `generation, `pinsOwned, `entries, `routeLease) && old(refusals) <= refusals
      ensures lease == 0 || lease <= old(ClosedUpTo()) ==> status != OK
      ensures depth == 0 ==> Written(lease, status, engine)
      decreases depth, 3
    {
      hide Proper, Justified;
      status, engine := WriteUnderLock(lease, depth);
      Pause(depth);
      lock := false;
      holder := Nobody;
    }

    method WriteUnderLock(lease: nat, depth: nat) returns (status: status, ghost engine: status)
      requires Valid() && initialized && holder == Writing && !engineBusy
      modifies this
      ensures Valid() && holder == Writing && !engineBusy
      ensures unchanged(`initialized, `initLock, `configStatus, `generation, `pinsOwned, `entries, `routeLease) && old(refusals) <= refusals
      ensures lease == 0 || lease <= ClosedUpTo() || lease > generation ==> status == NOT_OWNED && admissions == old(admissions)
      // the lease of the open epoch is refused only for a contention
      ensures pinsOwned && lease == generation ==>
                || (status == engine && admissions == old(admissions) + [Admission(lease, generation)])
                || (status == deferredFault != OK && admissions == old(admissions))
      ensures depth == 0 ==> Written(lease, status, engine)
      decreases depth, 2
    {
      engine := OK;
      Pause(depth);
      if !pinsOwned || lease == 0 || lease != generation {
        bindingStatus := NOT_OWNED;
        return NOT_OWNED, engine;
      }
      Pause(depth);
      if deferredFault != OK {
        status := deferredFault;
        Pause(depth);
        bindingStatus := status;
        return;
      }
      status := RunEngine(lease, depth);
      engine := status;
      Pause(depth);
      bindingStatus := if status != OK then status else deferredFault;
    }

    /** The engine at work: it is entered only with the lease of the epoch that is open. */
    method RunEngine(lease: nat, depth: nat) returns (status: status)
      requires Valid() && initialized && holder == Writing && !engineBusy && pinsOwned && lease == generation
      modifies this
      ensures Valid() && !engineBusy && admissions == old(admissions) + [Admission(lease, generation)]
      ensures unchanged(`initialized, `initLock, `configStatus, `lock, `holder, `generation, `pinsOwned, `entries,
                        `routeLease) && old(refusals) <= refusals
      ensures depth == 0 ==> unchanged(`refusals, `deferredFault, `bindingStatus, `uart1Open, `pins, `engineOpen)
      decreases depth, 1
    {
      ProperSnoc(admissions, Admission(lease, generation));
      admissions := admissions + [Admission(lease, generation)];
      engineBusy := true;
      Pause(depth);
      status := *;
      engineBusy := false;
    }

    // ---------------------------------------------------------------------------------- route bridge

    /** `emos_parallel_route_enter` */
    method RouteEnter(hasPeer: bool, depth: nat) returns (status: status, ghost found: Findings)
      requires Valid()
      modifies this
      ensures Valid() && Interfered()
      ensures status == OK ==> old(generation) < routeLease <= generation && hasPeer && found.ready
      // uninterrupted, a failed entry keeps the credential there is
      ensures depth == 0 && old(initialized) ==> routeLease == (if status == OK then generation else old(routeLease)) && bindingStatus == status
      decreases depth, 4
    {
      var candidate;
      ghost var at;
      status, candidate, at, found := EpochEnter(hasPeer, depth);
      Interrupt(depth);
      if status == OK { routeLease := candidate; }
    }

    /** `emos_parallel_route_leave` */
    method RouteLeave(depth: nat) returns (status: status)
      requires Valid()
      modifies this
      ensures Valid() && Interfered()
      ensures status == OK ==> routeLease == 0 && old(generation) <= ClosedUpTo()
      // uninterrupted, a leave that loses keeps epoch and credential
      ensures depth == 0 && old(initialized) ==> (status != OK <==> old(lock)) && (status != OK ==> Stationary())
      decreases depth, 4
    {
      status := EpochLeave(depth);
      Interrupt(depth);
      if status == OK { routeLease := 0; }
    }

    // ---------------------------------------------------------------------------------------- UART1

    /** `open_UART1`: the port is reserved before the first change and released after UART1 is marked open.  `allowed` says
        that the link permits it and the keyboard does not own UART1. */
    method OpenUart1(allowed: bool, depth: nat) returns (ok: bool)
      requires Valid()
      modifies this
      ensures Valid() && Interfered()
      ensures ok ==> allowed && !old(lock) && !pinsOwned && pins == UartMux
      ensures !allowed ==> !ok && unchanged(this)
      ensures depth == 0 && allowed && old(initialized) ==>
                && (ok <==> old(!lock && !pinsOwned))
                && (if ok then uart1Open && !lock && unchanged(`generation, `routeLease, `bindingStatus, `deferredFault,
                                                               `engineOpen, `refusals, `entries)
                    else unchanged(this))
      decreases depth, 3
    {
      hide Proper, Justified;
      if !allowed { return false; }
      var status := EnsureInitialized(depth);
      if status != OK { return false; }
      Interrupt(depth);
      status := TryReservePortC(OpeningUart);
      if status != OK { return false; }
      UartSetUp(depth);
      lock := false;
      holder := Nobody;
      ok := true;
    }

    method UartSetUp(depth: nat)
      requires Valid() && initialized && holder == OpeningUart && !pinsOwned
      modifies this
      ensures Valid() && pins == UartMux
      ensures unchanged(`initialized, `initLock, `configStatus, `lock, `holder, `generation, `pinsOwned, `entries,
                        `routeLease, `admissions) && old(refusals) <= refusals
      ensures depth == 0 ==> uart1Open && unchanged(`refusals, `deferredFault, `bindingStatus, `engineOpen)
      decreases depth, 1
    {
      hide Proper, Justified, Interfered, ClosedUpTo;
      Pause(depth);
      uart1Open := false;
      Pause(depth);
      pins := UartMux;
      Pause(depth);
      uart1Open := true;
      Pause(depth);
    }

    /** `close_UART1` takes no lock; the keyboard's receiver is not closed by it. */
    method CloseUart1(owned: bool)
      requires Valid()
      modifies `uart1Open
      ensures Valid() && Interfered() && uart1Open == (old(uart1Open) && owned)
    {
      if owned { return; }
      uart1Open := false;
    }

    // ----------------------------------------------------- reservations that outlive the call taking them

    /** `emos_parallel_uart1_guard_acquire` and `_release` as the keyboard's coordinator uses them, in the
        foreground only. */
    method ReservePortC(depth: nat) returns (status: status)
      requires Valid()
      modifies this
      ensures Valid()
      ensures status == OK ==> holder == Reserved && !pinsOwned
      ensures status != OK ==> (lock <==> old(lock))
      ensures depth == 0 && old(initialized) ==> (status == OK <==> old(!lock && !pinsOwned)) && (status != OK ==> unchanged(this))
    {
      status := EnsureInitialized(depth);
      if status != OK { return; }
      Interrupt(depth);
      status := TryReservePortC(Reserved);
      Interrupt(depth);
    }

    method ReleasePortC(depth: nat)
      requires Valid() && holder == Reserved
      modifies this
      ensures Valid() && !lock && (depth == 0 ==> unchanged(`initialized, `pinsOwned, `generation, `uart1Open, `pins, `deferredFault, `bindingStatus))
    {
      Interrupt(depth);
      lock := false;
      holder := Nobody;
    }
  }

  ghost predicate Proper(s: seq<Admission>) { forall a :: a in s ==> a.lease == a.epoch > 0 }

  ghost predicate Justified(s: seq<Entry>)
  {
    forall e :: e in s ==> e.taken <= e.given && (e.lease != 0 ==> e.taken == e.given && e.ready)
  }

  lemma JustifiedSnoc(s: seq<Entry>, e: Entry)
    requires Justified(s) && e.taken <= e.given && (e.lease != 0 ==> e.taken == e.given && e.ready)
    ensures Justified(s + [e])
  {
  }

  lemma ProperSnoc(s: seq<Admission>, a: Admission)
    requires Proper(s) && a.lease == a.epoch > 0
    ensures Proper(s + [a])
  {
  }
}
