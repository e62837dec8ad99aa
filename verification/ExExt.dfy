/** The ordinary ExExt stream: a queue of bytes going out in blocks, a buffer of packets coming back, and
    interrupts everywhere else.

    Every method takes the nesting depth that is still possible; `Interrupt` stands where interrupts are
    admitted.  Steps under the interrupt lock, and the tick apart from its service, have none inside. */
module ExExt {
  import opened Bytes
  import opened ParallelWire
  import opened HeldKeys
  import opened ReturnPackets
  import F = KeyboardFraming

  const OUT_SIZE: nat := 4096
  const IN_SIZE: nat := 512

  const REPLY_START: seq<byte> := [69, 88, WIRE_VERSION]

  datatype Ticket = Ticket(nonce: Word4, number: int)
  datatype Status = OK | BUSY | COMPLETION_TIMEOUT

  /** Whether the key counter, a byte, tells the one from the other. */
  predicate Moved(log: seq<Event>, later: seq<Event>) { (|later| - |log|) % 256 != 0 }

  lemma NotMoved(log: seq<Event>) ensures !Moved(log, log) {}

  /** What a transfer meets: the link is free, a new session is agreed when one is due, the offer is acknowledged, and the
      port completes the block. */
  datatype Path = Path(free: bool, agreed: bool, acknowledged: bool, completed: bool)

  /** What a control exchange meets: the link is free, the peer answers with so many bytes pending, and the reservation can be
      given back. */
  datatype Control = Control(free: bool, answered: bool, released: bool, pending: nat)

  /** A control exchange that was begun: the operation and what it met. */
  datatype Ask = Ask(op: byte, met: Control)

  const START_OP: byte := 6
  const POLL_OP: byte := 8
  const STOP_OP: byte := 10

  /** What the beginning of a stream meets. */
  datatype Greeting = Greeting(free: bool, agreed: bool, answered: bool, released: bool)

  /** As much as one return block may bring. */
  function BlockOf(pending: nat): (n: nat)
    ensures n <= pending && n <= 256 && (n == pending || n == 256)
  {
    if pending > 256 then 256 else pending
  }

  class Stream {
    var owned: bool
    var busy: bool
    var routed: bool                   // emosVduBackend == 2
    const outgoing: array<byte>
    var queued: nat
    const incoming: array<byte>
    var received: nat
    var readAt: nat
    var needMore: bool
    // the session record
    var nonce: Word4
    var number: nat
    var sessionActive: bool
    // the keyboard's side
    var reserved: bool                 // parallel_reserved
    var keyFaulted: bool
    var rx: F.Parser
    var keys: Keys
    var keycount: byte

    ghost var accepted: seq<byte>          // bytes taken into the queue
    ghost var sent: seq<seq<byte>>         // blocks delivered
    ghost var attempts: seq<seq<byte>>     // blocks for which the link was reserved
    ghost var flying: seq<seq<byte>>       // the block, if any, that was attempted and not delivered
    ghost var settled: bool                // the queue holds bytes already delivered, about to be dropped
    ghost var doomed: bool                 // a transfer failed after its reservation
    ghost var fetched: seq<byte>           // bytes of the return blocks
    ghost var fed: seq<byte>               // bytes given to the packet parser
    ghost var keyLog: seq<Event>           // every event published
    ghost var offers: seq<Record>          // offers made
    ghost var carried: seq<seq<byte>>      // what the port has taken out, block by block
    ghost var brought: seq<seq<byte>>      // and what it has brought in
    ghost var asks: seq<Ask>               // control exchanges
    ghost var denied: nat                  // reservations that were refused
    ghost var fenced: bool                 // the port has been fenced after a failure
    ghost var admitted: seq<Ticket>
    ghost var nonces: seq<Word4>
    ghost var nonceReused: bool            // the peer has repeated a nonce

    ghost function Queue(): seq<byte>
      requires queued <= outgoing.Length
      reads `queued, outgoing
    {
      outgoing[..queued]
    }

    ghost function Unread(): seq<byte>
      requires readAt <= received <= incoming.Length
      reads `readAt, `received, incoming
    {
      incoming[readAt..received]
    }

    ghost predicate Valid()
      reads this, outgoing, incoming
    {
      && outgoing.Length == OUT_SIZE && incoming.Length == IN_SIZE && outgoing != incoming
      && queued <= OUT_SIZE && readAt <= received <= IN_SIZE && number < 0x1_0000
      && ForwardOk() && ReturnOk() && NumbersOk() && F.Shaped(rx)
    }

    /** The state after a reset. */
    constructor ()
      ensures Valid() && fresh(outgoing) && fresh(incoming)
      ensures !owned && !busy && !routed && queued == received == 0 && !sessionActive && !reserved && !keyFaulted && rx == F.Idle
      ensures accepted == [] && sent == [] && attempts == [] && fetched == [] && fed == [] && keyLog == [] && admitted == []
      ensures keys == Keys(false, false, false, 0, WIPED, 0, false) && keycount == 0
      ensures nonce == ZERO4 && number == 0 && nonces == [] && !nonceReused && readAt == 0 && !needMore && !fenced
      ensures flying == [] && !settled && !doomed && offers == [] && carried == [] && brought == [] && asks == [] && denied == 0
    {
      outgoing := new byte[OUT_SIZE](_ => 0);
      incoming := new byte[IN_SIZE](_ => 0);
      owned, busy, routed, queued, received, readAt, needMore := false, false, false, 0, 0, 0, false;
      nonce, number, sessionActive, reserved, keyFaulted := ZERO4, 0, false, false, false;
      rx, keys, keycount := F.Idle, Keys(false, false, false, 0, WIPED, 0, false), 0;
      accepted, sent, attempts, flying, settled, doomed := [], [], [], [], false, false;
      fetched, fed, keyLog, admitted, nonces, nonceReused := [], [], [], [], [], false;
      offers, carried, brought, asks, denied, fenced := [], [], [], [], 0, false;
    }

    /** What went in comes out, once and in order. */
    ghost predicate ForwardOk()
      requires queued <= outgoing.Length
      reads `accepted, `sent, `settled, `queued, `attempts, `flying, `reserved, `doomed, `busy, outgoing
    {
      && accepted == Flatten(sent) + (if settled then [] else Queue())
      && (forall b :: b in sent ==> 1 <= |b| <= OUT_SIZE)
      && attempts == sent + flying && |flying| <= 1
      && (flying != [] ==> reserved) && (doomed ==> reserved)
      && (settled ==> busy)
    }

    /** What came back has been fed to the parser or is still to be. */
    ghost predicate ReturnOk()
      requires readAt <= received <= incoming.Length
      reads `keyFaulted, `fed, `readAt, `received, `fetched, `needMore, incoming
    {
      && (!keyFaulted ==> fed + Unread() == fetched)
      && (!keyFaulted && needMore ==> Unread() != [] && !Complete(Unread()))
    }

    /** Block numbers within a session run 1, 2, 3, ... */
    ghost predicate NumbersOk()
      reads `sessionActive, `nonce, `nonces, `admitted, `nonceReused, `number
    {
      && (sessionActive ==> Nonzero(nonce) && nonce in nonces)
      && (forall t :: t in admitted ==> 1 <= t.number < 0x1_0000 && t.nonce in nonces)
      && (!nonceReused ==>
            && (forall i, j :: 0 <= i < j < |admitted| ==> admitted[i] != admitted[j])
            && (sessionActive ==> forall k :: Ticket(nonce, k) in admitted <==> 1 <= k <= number))
    }

    /** The return side is at a packet boundary as far as anybody can tell. */
    ghost predicate Drained()
      reads `received, `needMore
    {
      received == 0 || needMore
    }

    /** What interrupting calls may do.  While a call holds `busy`, they can only publish packets. */
    twostate predicate Interfered()
      requires old(Valid()) && Valid()
      reads this, outgoing, incoming
    {
      Progressed() && (old(busy) ==> OnlyPublished())
    }

    /** Histories only grow, and not at all on the way out once a transfer has failed after its reservation. */
    twostate predicate Progressed()
      reads this
    {
      (busy <==> old(busy)) && Progressing()
    }

    twostate predicate Progressing()
      reads this
    {
      && (old(doomed) ==> doomed && unchanged(`attempts, `sent))
      && (old(keyFaulted) ==> keyFaulted)
      && old(accepted) <= accepted && old(sent) <= sent && old(fetched) <= fetched
      && old(offers) <= offers && old(carried) <= carried && old(brought) <= brought
      && old(asks) <= asks && old(denied) <= denied
    }

    twostate predicate OnlyPublished()
      requires old(Valid()) && Valid()
      reads this, outgoing, incoming
    {
      && unchanged(`owned, `busy, `routed, `queued, `nonce, `number, `sessionActive, `reserved, `accepted, `sent, `attempts, `flying, `settled,
                   `doomed, `fetched, `admitted, `nonces, `nonceReused, `offers, `carried, `brought, `asks, `denied, `fenced)
      && Queue() == old(Queue()) && (forall j {:trigger incoming[j]} :: 0 <= j < IN_SIZE ==> incoming[j] == old(incoming[j]))
      && (old(keyFaulted) ==> keyFaulted)
      && (received == 0 || received == old(received))
      && (!keyFaulted && old(Drained()) ==> unchanged(`received, `readAt, `needMore, `fed))
      && (old(Drained() || keyFaulted) ==> (Drained() || keyFaulted) && (received == 0 || readAt == old(readAt)))
    }

    // ---------------------------------------------------------------------------------------- interrupts

    method Interrupt(depth: nat)
      requires Valid()
      modifies this, outgoing, incoming
      ensures Valid() && Interfered()
      ensures depth == 0 ==> unchanged(this) && unchanged(outgoing) && unchanged(incoming)
      decreases depth, 0, 0
    {
      hide Valid, Unread, Queue, ForwardOk, ReturnOk, NumbersOk, Flatten, Complete;
      if depth > 0 {
        var calls: nat :| true;
        for i := 0 to calls
          invariant Valid() && Interfered()
        {
          Call(depth - 1);
        }
      }
    }

    /** One of the calls that an interrupt may make, itself open to interrupts. */
    method Call(depth: nat)
      requires Valid()
      modifies this, outgoing, incoming
      ensures Valid() && Interfered()
      decreases depth, 8
    {
      hide Valid, Interfered, Unread, Queue, ForwardOk, ReturnOk, NumbersOk, Flatten, Complete;
      var kind :| 0 <= kind < 5;
      if kind == 0 {
        var storage: bool := *;
        ghost var served, last, unread := Tick(storage, depth);
      } else if kind == 1 {
        var value: byte :| true;
        var irq: bool := *;
        var s, closed := WriteByte(value, irq, depth);
      } else if kind == 2 {
        var bytes: seq<byte> :| true;
        var irq: bool := *;
        var s := WriteStream(bytes, irq, depth);
      } else if kind == 3 {
        var value: byte :| true;
        UartByte(value);
      } else {
        OtherKeyboardWork();
      }
    }

    /** A byte received by UART goes to the same parser. */
    method UartByte(value: byte)
      requires Valid()
      modifies `rx, `keyFaulted, `keys, `keycount, `keyLog
      ensures Valid() && Interfered() && Keyboard() == ReturnPackets.FeedByte(old(Keyboard()), value)
    {
      hide ForwardOk, NumbersOk, Complete, ReturnPackets.FeedByte, F.Shaped;
      FeedByteKeepsShape(Keyboard(), value);
      FeedByte(value);
    }

    /** Whatever else happens at the keyboard between steps: selection of a source, keys of the mainboard, and so on. */
    method OtherKeyboardWork()
      requires Valid()
      modifies `keys, `keycount, `keyLog
      ensures Valid() && Interfered()
    {
      hide ForwardOk, NumbersOk, ReturnOk;
      keys, keycount := *, *;
      var e: seq<Event> := *;
      keyLog := keyLog + e;
    }

    // ---------------------------------------------------------------------------------- publication

    /** The parser, the keyboard and the events, as one value. */
    ghost function Keyboard(): Board
      reads `rx, `keyFaulted, `keys, `keyLog
    {
      Board(rx, keyFaulted, keys, keyLog)
    }

    /** Events reach the log, and the counter moves with them. */
    method Announce(events: seq<Event>)
      modifies `keycount, `keyLog
      ensures keyLog == old(keyLog) + events && Counted(old(keycount), old(keyLog))
    {
      keycount := (keycount + |events|) % 256;
      keyLog := keyLog + events;
    }

    ghost predicate Counted(count: byte, log: seq<Event>)
      reads `keycount, `keyLog
    {
      |log| <= |keyLog| && keycount == (count + (|keyLog| - |log|)) % 256
    }

    lemma CountedMeans(count: byte, log: seq<Event>)
      requires Counted(count, log)
      ensures |log| <= |keyLog| && keycount == (count + (|keyLog| - |log|)) % 256
    {
    }

    lemma CountedSelf() ensures Counted(keycount, keyLog) {}

    lemma StillCounted(count: byte, log: seq<Event>, so: byte, longer: seq<Event>)
      requires |log| <= |longer| && so == (count + (|longer| - |log|)) % 256 && Counted(so, longer)
      ensures Counted(count, log)
    {
    }

    /** `cleanup`, as `Keyboard.Receiver.Cleanup` does it */
    method Cleanup()
      modifies `keys, `keycount, `keyLog
      ensures keys == old(keys).Cleaned() && keyLog == old(keyLog) + old(keys).Cleanup() && Counted(old(keycount), old(keyLog))
    {
      Announce(keys.Cleanup());
      keys := keys.Cleaned();
    }

    /** `emos_keyboard_fault`, with UART1 not parked */
    method KeyboardFault()
      modifies `rx, `keyFaulted, `keys, `keycount, `keyLog
      ensures Keyboard() == Faulted(old(Keyboard())) && Counted(old(keycount), old(keyLog))
    {
      hide Keys.Cleanup;
      rx, keyFaulted := F.Idle, true;
      if keys.remote { Cleanup(); }
      keys := keys.(preparing := false);
      assert old(keyLog) + [] == old(keyLog);
    }

    /** `emos_keyboard_dispatch`: the answer to a prepared poll releases every key, a key packet is one event. */
    method Dispatched(f: F.Frame)
      requires rx == F.Idle && !keyFaulted
      modifies `rx, `keyFaulted, `keys, `keycount, `keyLog
      ensures Keyboard() == ReturnPackets.Dispatch(old(Keyboard()), f) && Counted(old(keycount), old(keyLog))
    {
      hide Keys.Cleanup, Faulted;
      if f.command == SDLINK { return; }
      if f.command == POLL_REPLY && |f.payload| == 1 && keys.preparing && f.payload[0] == keys.token {
        Cleanup();
        keys := keys.(remote := true, preparing := false);
      } else if !keys.preparing && keys.remote && f.command == F.KEY_PACKET && |f.payload| == 4 {
        if f.payload[2] > KEY_MAX || f.payload[3] > 1 {
          KeyboardFault();
        } else {
          var e := Event(f.payload[1], f.payload[2], f.payload[3] == 1);
          Announce([e]);
          keys := keys.Published(e);
        }
      }
    }

    /** One byte for the packet parser, `emos_keyboard_byte`. */
    method FeedByte(value: byte)
      modifies `rx, `keyFaulted, `keys, `keycount, `keyLog
      ensures Keyboard() == ReturnPackets.FeedByte(old(Keyboard()), value) && Counted(old(keycount), old(keyLog))
      ensures old(keyFaulted) ==> keyFaulted
    {
      hide Keys.Cleanup, Faulted, ReturnPackets.Dispatch, F.Step;
      if keyFaulted || !keys.listening { return; }
      match F.Step(rx, value) {
        case Fault => KeyboardFault();
        case Going(next, done) =>
          IdleWhenDone(rx, value);
          rx := next;
          if done != [] { Dispatched(done[0]); }
      }
    }

    /** Where the feeding of unit `u` to keyboard `w` stands after `i` bytes. */
    ghost predicate Feeding(w: Board, u: seq<byte>, i: nat, count: byte)
      requires i <= |u|
      reads `rx, `keyFaulted, `keys, `keycount, `keyLog
    {
      Keyboard() == FeedAll(w, u[..i]) && Counted(count, w.log) && (w.faulted ==> keyFaulted)
    }

    method FeedNext(ghost w: Board, ghost u: seq<byte>, ghost i: nat, ghost count: byte, value: byte)
      requires i < |u| && value == u[i] && Feeding(w, u, i, count)
      modifies `rx, `keyFaulted, `keys, `keycount, `keyLog
      ensures Feeding(w, u, i + 1, count)
    {
      hide ReturnPackets.FeedByte, FeedAll, Faulted;
      FeedSnoc(w, u[..i], value);
      assert u[..i + 1] == u[..i] + [value];
      FeedByte(value);
    }

    /** The inner loop of `publish_return`. */
    method FeedUnit(n: nat)
      requires readAt <= received <= incoming.Length && Complete(Unread()) && n == UnitLength(Unread())
      modifies `rx, `keyFaulted, `keys, `keycount, `keyLog, `readAt, `fed
      ensures readAt == old(readAt) + n
      ensures fed == old(fed) + incoming[old(readAt)..readAt]
      ensures Keyboard() == FeedAll(old(Keyboard()), old(Unread())[..n]) && Counted(old(keycount), old(keyLog))
    {
      hide Complete, ReturnPackets.FeedByte;
      ghost var w, u, count, a := Keyboard(), Unread()[..n], keycount, readAt;
      assert u[..0] == [] && u == incoming[a..a + n];
      hide Unread, FeedAll;
      var i := 0;
      while i < n
        invariant 0 <= i <= n == |u| && readAt == a + i <= received
        invariant fed == old(fed) + u[..i] && Feeding(w, u, i, count)
      {
        FeedNext(w, u, i, count, incoming[readAt]);
        fed := fed + [u[i]];
        assert u[..i + 1] == u[..i] + [u[i]];
        readAt := readAt + 1;
        i := i + 1;
      }
      assert u[..i] == u;
    }

    /** One turn of `publish_return`; `n` is the length of the unit, 0 when none has arrived completely. */
    method PublishUnit() returns (n: nat)
      requires Valid() && !needMore && !keyFaulted && readAt < received
      modifies `rx, `keyFaulted, `keys, `keycount, `keyLog, `readAt, `fed
      ensures Valid() && readAt == old(readAt) + n <= received && (n > 0 <==> old(Complete(Unread())))
      ensures n == 0 ==> unchanged(`rx, `keyFaulted, `keys, `keycount, `keyLog, `fed)
      ensures Counted(old(keycount), old(keyLog))
      ensures n > 0 ==>
                PublishFrom(old(Keyboard()), old(Unread()))
                == (if keycount != old(keycount) then Keyboard() else PublishFrom(Keyboard(), Unread()))
                && PublishRead(old(Keyboard()), old(Unread()))
                   == n + if keycount != old(keycount) then 0 else PublishRead(Keyboard(), Unread())
    {
      hide ForwardOk, NumbersOk, ReturnOk, Complete, FeedAll, PublishFrom, PublishRead;
      n := NextUnit();
      if n == 0 { return; }
      PublishStep(Keyboard(), Unread());
      ghost var rest := Unread()[n..];
      FeedOne(n);
      CounterMoves(old(keycount), |keyLog| - |old(keyLog)|);
      assert Unread() == rest;
    }

    /** `publish_return`: whole packets only, until the key counter has moved. */
    method PublishUnits() returns (event: bool)
      requires Valid()
      modifies `rx, `keyFaulted, `keys, `keycount, `keyLog, `readAt, `received, `fed, `needMore
      ensures Valid() && (old(keyFaulted) ==> keyFaulted)
      ensures received == 0 || received == old(received)
      ensures !event ==> Drained()
      ensures !keyFaulted && old(Drained()) ==> unchanged(`received, `readAt, `needMore, `fed)
      ensures old(Drained() || keyFaulted) ==> (Drained() || keyFaulted) && (received == 0 || readAt == old(readAt))
      ensures Keyboard() == PublishFrom(old(Keyboard()), old(Unread()))
      ensures var until := old(readAt) + PublishRead(old(Keyboard()), old(Unread()));
              if keyFaulted || until == old(received) then received == readAt == 0 else received == old(received) && readAt == until
      ensures event <==> Moved(old(keyLog), keyLog)
    {
      hide Valid, Queue, ForwardOk, ReturnOk, NumbersOk, Flatten, Complete, PublishFrom, PublishRead, F.Shaped, FeedAll;
      StalledTail();
      NothingIsComplete();
      assert received == 0 ==> Unread() == [];
      ghost var log := keyLog;
      var before := keycount;
      SetNeedMore(false);
      PublishLoop();
      CounterMoves(before, |keyLog| - |log|);
      NothingIsComplete();
      assert readAt == received ==> Unread() == [];
      PublishEnd(Keyboard(), Unread());
      event := keycount != before;
      PublishEnds(event);
    }

    /** Units are fed until the counter moves, a fault ends it, or none is left. */
    method PublishLoop()
      requires Valid() && !needMore
      modifies `rx, `keyFaulted, `keys, `keycount, `keyLog, `readAt, `fed
      ensures Valid() && !needMore && readAt <= received && Counted(old(keycount), old(keyLog))
      ensures old(keyFaulted) ==> keyFaulted
      ensures old(keyFaulted || !Complete(Unread())) ==> unchanged(`readAt, `fed, `keycount)
      ensures var moved := keycount != old(keycount);
              && PublishFrom(old(Keyboard()), old(Unread())) == (if moved then Keyboard() else PublishFrom(Keyboard(), Unread()))
              && PublishRead(old(Keyboard()), old(Unread())) == readAt - old(readAt) + (if moved then 0 else PublishRead(Keyboard(), Unread()))
              && (!moved && readAt < received && !keyFaulted ==> !Complete(Unread()))
    {
      hide Valid, Queue, ForwardOk, ReturnOk, NumbersOk, Flatten, Complete, PublishFrom, PublishRead, F.Shaped, FeedAll, UnitLength, Drained, Counted;
      StalledTail();
      CountedSelf();
      ghost var w, target, until := Keyboard(), PublishFrom(Keyboard(), Unread()), readAt + PublishRead(Keyboard(), Unread());
      var before := keycount;
      while readAt < received && !keyFaulted
        invariant Valid() && !needMore && readAt <= received <= incoming.Length
        invariant old(keyFaulted) ==> keyFaulted
        invariant old(keyFaulted || !Complete(Unread())) ==> readAt == old(readAt) && fed == old(fed)
        invariant keycount == before && Counted(before, w.log)
        invariant PublishFrom(Keyboard(), Unread()) == target && PublishRead(Keyboard(), Unread()) == until - readAt
        decreases received - readAt
      {
        ghost var log := keyLog;
        assert before == (before + (|log| - |w.log|)) % 256 && |w.log| <= |log| by { CountedMeans(before, w.log); }
        var n := PublishUnit();
        StillCounted(before, w.log, before, log);
        if n == 0 || keycount != before { break; }
      }
    }

    /** The end of `publish_return`: an empty buffer is given back, and without an event more must come. */
    method PublishEnds(event: bool)
      requires Valid() && !needMore && (readAt < received && !keyFaulted && !event ==> !Complete(Unread()))
      modifies `readAt, `received, `needMore
      ensures Valid()
      ensures if old(readAt) == old(received) || keyFaulted then received == readAt == 0 && !needMore
              else unchanged(`readAt, `received) && needMore == !event
    {
      hide Valid, Complete;
      StalledTail();
      if readAt == received || keyFaulted {
        Discard();
      } else if !event {
        SetNeedMore(true);
      }
    }

    /** The same, and what it means: the flag says whether the counter moved; from a parser at rest the parser is left at
        rest, and one event is delivered unless releases are set off. */
    method Publish() returns (event: bool)
      requires Valid()
      modifies `rx, `keyFaulted, `keys, `keycount, `keyLog, `readAt, `received, `fed, `needMore
      ensures Valid() && (old(keyFaulted) ==> keyFaulted)
      ensures received == 0 || received == old(received)
      ensures !event ==> Drained()
      ensures !keyFaulted && old(Drained()) ==> unchanged(`received, `readAt, `needMore, `fed)
      ensures old(Drained() || keyFaulted) ==> (Drained() || keyFaulted) && (received == 0 || readAt == old(readAt))
      ensures Keyboard() == PublishFrom(old(Keyboard()), old(Unread()))
      ensures var until := old(readAt) + PublishRead(old(Keyboard()), old(Unread()));
              if keyFaulted || until == old(received) then received == readAt == 0 else received == old(received) && readAt == until
      ensures event <==> Moved(old(keyLog), keyLog)
      ensures old(rx == F.Idle && !keyFaulted && keys.listening) ==>
                && rx == F.Idle && (event <==> |keyLog| > |old(keyLog)|)
                && (Quiet(old(keys)) || (NoAnswerDue(old(keys)) && !keyFaulted) ==> |keyLog| <= |old(keyLog)| + 1)
    {
      hide Valid, Queue, ForwardOk, ReturnOk, NumbersOk, Complete, PublishFrom, Quiet, NoAnswerDue;
      StalledTail();
      if !keyFaulted && keys.listening && rx == F.Idle { PublishBounded(Keyboard(), Unread()); }
      event := PublishUnits();
    }

    /** The first five bytes of a control reply, by UART. */
    method ReplyBegins()
      requires Valid() && rx == F.Idle && !keyFaulted && keys.listening
      modifies `rx, `keyFaulted, `keys, `keycount, `keyLog
      ensures Valid() && rx == F.InPayload(0xFF, 16, 13, REPLY_START) && unchanged(`keyFaulted, `keys, `keyLog)
      ensures Unread() == old(Unread())
    {
      hide Valid, Interfered, ReturnPackets.Dispatch, Faulted, Unread;
      UartByte(0xFF);
      UartByte(16);
      UartByte(REPLY_START[0]);
      UartByte(REPLY_START[1]);
      UartByte(REPLY_START[2]);
      assert [] + [REPLY_START[0]] + [REPLY_START[1]] + [REPLY_START[2]] == REPLY_START;
    }

    /** A key that is lost, at any stream at rest.  A return block has been fetched, and a control reply has been received up
        to its fifth byte, when a tick publishes the block: the whole packet is read, no event comes of it, and the parser is
        still inside the reply.  Before the reply began, the same publication would have delivered the key. */
    method LoseKey(p: seq<byte>)
      requires Valid() && rx == F.Idle && !keyFaulted && received == 0 && |p| == 4
      requires keys.listening && keys.remote && !keys.preparing
      modifies `rx, `keyFaulted, `keys, `keycount, `keyLog, `readAt, `received, `fetched, `fed, `needMore, incoming
      ensures Valid() && unchanged(`keys, `keyLog, `keyFaulted) && fetched == fed == old(fetched) + F.KeyPacket(p) && received == 0
      ensures rx == F.InPayload(0xFF, 16, 7, REPLY_START + F.KeyPacket(p))
      ensures p[2] <= KEY_MAX && p[3] <= 1 ==> KeyArrives(old(Keyboard()), p)
    {
      hide ForwardOk, NumbersOk, KeyArrives;
      assert fed + Unread() == fetched;
      assert fed == fetched;
      if p[2] <= KEY_MAX && p[3] <= 1 { KeyArrivesExactly(Keyboard(), p); }
      hide Valid, ReturnOk, Unread, Queue;
      Arrived(F.KeyPacket(p));
      ReplyBegins();
      PublishInside(p);
    }

    method PublishInside(p: seq<byte>)
      requires Valid() && !keyFaulted && keys.listening && |p| == 4 && rx == F.InPayload(0xFF, 16, 13, REPLY_START)
      requires Unread() == F.KeyPacket(p)
      modifies `rx, `keyFaulted, `keys, `keycount, `keyLog, `readAt, `received, `fed, `needMore
      ensures Valid() && unchanged(`keyFaulted, `keys, `keyLog) && received == 0 && fed == fetched
      ensures rx == F.InPayload(0xFF, 16, 7, REPLY_START + F.KeyPacket(p))
    {
      hide ForwardOk, NumbersOk, PublishFrom, PublishRead, Complete, FeedAll, Quiet, NoAnswerDue;
      BusyParserSwallowsKey(Keyboard(), REPLY_START, p);
      PublishPacket(Keyboard(), p);
      var event := Publish();
      assert Unread() == [];
    }

    /** A return block into an empty buffer. */
    method Arrived(data: seq<byte>)
      requires Valid() && received == 0 && |data| <= IN_SIZE && fed == fetched
      modifies `received, `readAt, `needMore, `fetched, incoming
      ensures Valid() && Unread() == data && fetched == old(fetched) + data && readAt == 0 && !needMore
    {
      hide ForwardOk, NumbersOk, Complete;
      forall i | 0 <= i < |data| { incoming[i] := data[i]; }
      readAt, received, needMore := 0, |data|, false;
      fetched := fetched + data;
      assert Unread() == data;
    }

    lemma StalledTail()
      requires Valid()
      ensures readAt <= received <= incoming.Length
      ensures !keyFaulted && needMore ==> readAt < received && !Complete(Unread())
    {
    }

    method SetNeedMore(more: bool)
      requires Valid() && (more && !keyFaulted ==> readAt < received && !Complete(Unread()))
      modifies `needMore
      ensures Valid() && needMore == more
    {
      hide ForwardOk, NumbersOk, Complete;
      needMore := more;
    }

    /** Nothing is left to read, or a fault makes it worthless. */
    method Discard()
      requires Valid() && !needMore && (readAt == received || keyFaulted)
      modifies `received, `readAt
      ensures Valid() && received == readAt == 0
    {
      hide ForwardOk, NumbersOk, Complete;
      ghost var u := Unread();
      received, readAt := 0, 0;
      assert !keyFaulted ==> u == [] && Unread() == [];
    }

    /** The length of the unit at hand, 0 when it has not arrived completely. */
    method NextUnit() returns (n: nat)
      requires readAt < received <= incoming.Length
      ensures if Complete(Unread()) then n == UnitLength(Unread()) else n == 0
    {
      n := 1;
      if incoming[readAt] >= 0x80 {
        if received - readAt < 2 { return 0; }
        n := 2 + (incoming[readAt + 1] as int);
        if n > received - readAt { return 0; }
      }
    }

    method FeedOne(n: nat)
      requires Valid() && !needMore && !keyFaulted && readAt < received && Complete(Unread()) && n == UnitLength(Unread())
      modifies `rx, `keyFaulted, `keys, `keycount, `keyLog, `readAt, `fed
      ensures Valid() && readAt == old(readAt) + n <= received && n > 0
      ensures Keyboard() == FeedAll(old(Keyboard()), old(Unread())[..n]) && Counted(old(keycount), old(keyLog))
    {
      hide ForwardOk, NumbersOk, Complete, FeedAll, F.Shaped;
      ghost var s, f0, a := Unread(), fed, readAt;
      FeedKeepsShape(Keyboard(), s[..n]);
      FeedUnit(n);
      assert s == incoming[a..readAt] + Unread();
      assert f0 + s == (f0 + incoming[a..readAt]) + Unread();
    }

    // ------------------------------------------------------------------------------------ transfers

    /** `emos_keyboard_parallel_reserve`: granted at most while nobody holds a reservation and the packet parser
        is at a boundary. */
    method Reserve() returns (ready: bool, ghost free: bool)
      requires Valid()
      modifies `reserved, `denied
      ensures Valid() && reserved == (old(reserved) || ready) && denied == old(denied) + if ready then 0 else 1
      ensures ready <==> free && !old(reserved) && rx == F.Idle && !keyFaulted && !keys.preparing
    {
      hide ReturnOk, NumbersOk;
      var open: bool := *;
      free := open;
      ready := open && !reserved && !keyFaulted && !keys.preparing && rx == F.Idle;
      if ready { reserved := true; } else { denied := denied + 1; }
    }

    /** `emos_parallel_session_negotiate`: a fresh nonce and numbers from 1, or no session. */
    method Negotiate() returns (ok: bool)
      requires Valid()
      modifies `nonce, `number, `sessionActive, `nonces, `nonceReused
      ensures Valid() && number == 0 && (ok ==> sessionActive && nonce != old(nonce) && nonces == old(nonces) + [nonce])
      ensures !ok ==> !sessionActive && unchanged(`nonce, `nonces)
      ensures nonceReused <==> old(nonceReused) || (ok && nonce in old(nonces))
    {
      hide ForwardOk, ReturnOk;
      ok := *;
      number := 0;
      sessionActive := ok;
      if ok {
        var n: Word4 :| Nonzero(n) && n != nonce by { DifferentNonce(nonce); }
        if n in nonces { nonceReused := true; }
        nonce := n;
        nonces := nonces + [n];
      }
    }

    /** The exchange of an offer, `emos_parallel_block_offer`: an exact acknowledgement uses the number up. */
    method OfferBlock(length: nat, reverse: bool) returns (ok: bool, ghost acknowledged: bool)
      requires Valid() && number < 0xFFFF && 1 <= length <= OUT_SIZE
      modifies `number, `sessionActive, `admitted, `offers
      ensures Valid() && (ok <==> old(sessionActive) && acknowledged)
      ensures ok ==> sessionActive && number == old(number) + 1 && admitted == old(admitted) + [Ticket(nonce, number)]
      ensures !ok ==> !sessionActive && admitted == old(admitted)
      ensures offers == old(offers) + if old(sessionActive) then [MakeOffer(nonce, old(number) + 1, length, reverse)] else []
    {
      hide ForwardOk, ReturnOk, NumbersOk, OfferValid, MakeOffer;
      acknowledged := false;
      if !sessionActive { return false, acknowledged; }
      SessionIsReal();
      var session := nonce + [Low(number), High(number)];
      PairSplits(number);
      var offer := MakeOffer(nonce, number + 1, length, reverse);
      assert session[..4] == nonce;
      MadeOfferIsValid(session, length, reverse);
      assert OfferValid(session, offer);
      offers := offers + [offer];
      var answered: bool := *;
      acknowledged := answered;
      if !answered {
        CancelSession();
        return false, acknowledged;
      }
      UseNumber();
      ok := true;
    }

    lemma SessionIsReal()
      requires Valid() && sessionActive
      ensures Nonzero(nonce)
    {
    }

    /** The admission of the next number. */
    method UseNumber()
      requires Valid() && sessionActive && number < 0xFFFF
      modifies `number, `admitted
      ensures Valid() && number == old(number) + 1 && admitted == old(admitted) + [Ticket(nonce, number)]
    {
      hide ForwardOk, ReturnOk;
      number := number + 1;
      admitted := admitted + [Ticket(nonce, number)];
    }

    /** `emos_parallel_session_cancel` */
    method CancelSession()
      requires Valid()
      modifies `number, `sessionActive
      ensures Valid() && !sessionActive && number == 0
    {
      hide ForwardOk, ReturnOk;
      sessionActive, number := false, 0;
    }

    /** A transfer that fails after its reservation: the port is fenced and the reservation kept for good. */
    method Doom()
      requires Valid() && reserved
      modifies `doomed, `fenced
      ensures Valid() && doomed && fenced
    {
      hide ReturnOk, NumbersOk;
      doomed, fenced := true, true;
    }

    /** A transfer that succeeds. */
    method Deliver(reverse: bool)
      requires Valid() && busy && reserved && !doomed && !settled
      requires if reverse then flying == [] else flying == [Queue()] && 1 <= queued
      modifies `reserved, `sent, `flying, `settled
      ensures Valid() && !reserved && flying == [] && settled == !reverse
      ensures sent == if reverse then old(sent) else old(sent) + [Queue()]
    {
      hide Complete, ReturnOk, NumbersOk, Flatten, F.Shaped;
      if !reverse { QueueSent(); }
      reserved := false;
    }

    /** The queue has gone out as a block. */
    method QueueSent()
      requires Valid() && busy && reserved && !doomed && !settled && flying == [Queue()] && 1 <= queued
      modifies `sent, `flying, `settled
      ensures Valid() && flying == [] && settled && sent == old(sent) + [Queue()]
    {
      hide Complete, ReturnOk, NumbersOk, Flatten, F.Shaped, Queue;
      FlattenSnoc(sent, Queue());
      assert accepted == Flatten(sent + [Queue()]) + [];
      assert |Queue()| == queued by { QueueLength(); }
      sent := sent + flying;
      flying := [];
      settled := true;
    }

    lemma QueueLength()
      requires queued <= outgoing.Length
      ensures |Queue()| == queued
    {
    }

    /** What a transfer leaves as it was: everything but the session, the histories, and the return buffer from
        `limit` on; and the return side only as interrupts may move it. */
    twostate predicate Kept(limit: nat)
      requires old(Valid()) && Valid() && limit <= IN_SIZE
      reads this, outgoing, incoming
    {
      && unchanged(`owned, `busy, `routed, `queued, `accepted, `fetched)
      && Queue() == old(Queue()) && (forall j {:trigger incoming[j]} :: 0 <= j < limit ==> incoming[j] == old(incoming[j]))
      && (old(keyFaulted) ==> keyFaulted) && (old(doomed) ==> doomed)
      && (received == 0 || received == old(received))
      && (!keyFaulted && old(Drained()) ==> unchanged(`received, `readAt, `needMore, `fed))
      && (old(Drained() || keyFaulted) ==> (Drained() || keyFaulted) && (received == 0 || readAt == old(readAt)))
    }

    /** An interrupt while `busy` is held. */
    method Pause(depth: nat)
      requires Valid() && busy
      modifies this, outgoing, incoming
      ensures Valid() && OnlyPublished() && Kept(IN_SIZE)
      ensures depth == 0 ==> unchanged(this) && unchanged(outgoing) && unchanged(incoming)
      decreases depth, 0, 1
    {
      Interrupt(depth);
    }

    /** An interrupt, for those who only need to know that it leaves session and queue alone. */
    method Breathe(depth: nat)
      requires Valid() && busy
      modifies this, outgoing, incoming
      ensures Valid() && unchanged(`owned, `busy, `queued, `nonce, `number, `sessionActive, `reserved, `accepted, `sent, `attempts, `flying,
                                   `settled, `doomed, `nonces, `asks, `denied)
      decreases depth, 0, 2
    {
      hide Kept, Interfered, Progressed, Valid, Unread, Queue, ForwardOk, ReturnOk, NumbersOk, Flatten, Complete;
      Pause(depth);
    }

    /** The payload on the parallel port, with interrupts before and after: the bytes given go out, or bytes come in. */
    method Payload(length: nat, reverse: bool, dst: nat, depth: nat) returns (ghost data: seq<byte>)
      requires Valid() && busy && (reverse ==> received <= dst && dst + length <= IN_SIZE) && dst <= IN_SIZE
      requires !reverse ==> length == queued
      modifies this, outgoing, incoming
      ensures Valid() && Kept(if reverse then dst else IN_SIZE)
      ensures unchanged(`nonces, `nonceReused, `admitted, `attempts, `sent, `flying, `settled, `reserved, `doomed, `fenced, `offers,
                        `nonce, `number, `sessionActive, `asks, `denied)
      ensures if reverse then |data| == length && brought == old(brought) + [data] && carried == old(carried) && incoming[dst..dst + length] == data
              else carried == old(carried) + [old(Queue())] && brought == old(brought)
      decreases depth, 0, 3
    {
      hide Valid, Unread, Queue, ForwardOk, ReturnOk, NumbersOk, Flatten, Complete;
      Pause(depth);
      data := Move(length, reverse, dst);
      PauseOver(dst, if reverse then length else 0, depth);
    }

    /** The bytes move. */
    method Move(length: nat, reverse: bool, dst: nat) returns (ghost data: seq<byte>)
      requires Valid() && (reverse ==> received <= dst && dst + length <= IN_SIZE)
      modifies `carried, `brought, incoming
      ensures Valid() && forall j {:trigger incoming[j]} :: 0 <= j < (if reverse then dst else IN_SIZE) ==> incoming[j] == old(incoming[j])
      ensures if reverse then |data| == length && brought == old(brought) + [data] && carried == old(carried) && incoming[dst..dst + length] == data
              else carried == old(carried) + [Queue()] && brought == old(brought)
      ensures Queue() == old(Queue())
    {
      hide Valid, Unread, Queue, ForwardOk, ReturnOk, NumbersOk, Flatten, Complete;
      BufferBounds();
      data := [];
      if reverse {
        var blank: seq<byte> := seq(length, _ => 0);
        var bytes: seq<byte> :| |bytes| == length by { assert |blank| == length; }
        data := bytes;
        QueueApart();
        Arrive(bytes, dst);
      } else {
        TakeOut();
      }
    }

    lemma QueueApart()
      requires Valid()
      ensures outgoing != incoming
    {
    }

    /** An interrupt that leaves a piece of the return buffer as it is. */
    method PauseOver(dst: nat, length: nat, depth: nat)
      requires Valid() && busy && dst + length <= IN_SIZE
      modifies this, outgoing, incoming
      ensures Valid() && OnlyPublished() && Kept(IN_SIZE) && incoming[dst..dst + length] == old(incoming[dst..dst + length])
      decreases depth, 0, 2
    {
      hide Valid, Unread, Queue, ForwardOk, ReturnOk, NumbersOk, Flatten, Complete;
      BufferBounds();
      ghost var there := incoming[..];
      Pause(depth);
      BufferBounds();
      Same(there, dst, length);
    }

    /** The queue goes out over the port. */
    method TakeOut()
      requires Valid()
      modifies `carried
      ensures Valid() && carried == old(carried) + [Queue()]
    {
      hide ForwardOk, ReturnOk, NumbersOk, Queue;
      carried := carried + [Queue()];
    }

    lemma Same(there: seq<byte>, dst: nat, length: nat)
      requires incoming.Length == IN_SIZE == |there| && forall j {:trigger incoming[j]} :: 0 <= j < IN_SIZE ==> incoming[j] == there[j]
      ensures incoming[..] == there && (dst + length <= IN_SIZE ==> incoming[dst..dst + length] == there[dst..dst + length])
    {
    }

    /** The physical part, `emos_parallel_native_coordinate`: only success gives the reservation back.  The payload is run at
        most once, and it has been run when it succeeds. */
    method Coordinate(length: nat, reverse: bool, dst: nat, depth: nat) returns (ok: bool, ghost data: seq<byte>)
      requires Valid() && busy && reserved && !doomed && !settled && 1 <= length
      requires if reverse then flying == [] && received <= dst && dst + length <= IN_SIZE else flying == [Queue()] && queued == length <= OUT_SIZE && dst == 0
      modifies this, outgoing, incoming
      ensures Valid() && Kept(if reverse then dst else IN_SIZE)
      ensures unchanged(`nonces, `nonceReused, `admitted, `attempts, `offers, `asks, `denied)
      ensures ok ==> !reserved && flying == [] && !doomed && sent == (if reverse then old(sent) else old(sent) + old(flying)) && settled == !reverse
                     && unchanged(`nonce, `number, `sessionActive, `fenced)
      ensures !ok ==> doomed && reserved && fenced && !sessionActive && unchanged(`sent, `flying, `settled)
      ensures CarriedOnce(old(carried), old(brought), old(Queue()), reverse, data, ok)
      ensures ok && reverse ==> |data| == length && incoming[dst..dst + length] == data
      decreases depth, 1
    {
      hide Valid, Unread, Queue, ForwardOk, ReturnOk, NumbersOk, Flatten, Complete;
      var runs: bool, fine: bool := *, *;
      data := [];
      if runs { data := Payload(length, reverse, dst, depth); }
      ok := runs && fine;
      if !ok {
        CancelSession();
        Doom();
        return;
      }
      Deliver(reverse);
    }

    /** The port has carried one block, or, short of success, perhaps none. */
    ghost predicate CarriedOnce(out: seq<seq<byte>>, into: seq<seq<byte>>, queue: seq<byte>, reverse: bool, data: seq<byte>, ok: bool)
      reads `carried, `brought
    {
      || (carried == (if reverse then out else out + [queue]) && brought == (if reverse then into + [data] else into))
      || (!ok && carried == out && brought == into)
    }

    /** The bytes of a return block land behind what is still unread. */
    method Arrive(data: seq<byte>, dst: nat)
      requires Valid() && received <= dst && dst + |data| <= IN_SIZE
      modifies incoming, `brought
      ensures Valid() && (forall j {:trigger incoming[j]} :: 0 <= j < dst ==> incoming[j] == old(incoming[j]))
      ensures incoming[dst..dst + |data|] == data && brought == old(brought) + [data]
    {
      hide ForwardOk, NumbersOk, Complete;
      ghost var u := Unread();
      forall i | 0 <= i < |data| { incoming[dst + i] := data[i]; }
      assert |Unread()| == |u| && forall k :: 0 <= k < |u| ==> Unread()[k] == u[k];
      assert Unread() == u;
      brought := brought + [data];
    }

    /** The queue as a block under way. */
    method TakeOff()
      requires Valid() && busy && reserved && flying == []
      modifies `attempts, `flying
      ensures Valid() && flying == [Queue()] && attempts == old(attempts) + [Queue()]
    {
      hide ReturnOk, NumbersOk;
      attempts := attempts + [Queue()];
      flying := [Queue()];
    }

    /** A new session once the numbers of the old one are used up, and only then. */
    method Renew(depth: nat) returns (ok: bool, ghost agreed: bool)
      requires Valid() && busy
      modifies this, outgoing, incoming
      ensures Valid() && Kept(IN_SIZE) && (ok ==> number < 0xFFFF)
      ensures unchanged(`admitted, `attempts, `sent, `flying, `settled, `reserved, `doomed, `offers, `carried, `brought, `fenced, `asks, `denied)
      ensures if old(number) < 0xFFFF then ok && unchanged(`nonce, `number, `sessionActive)
              else ok == agreed == sessionActive && number == 0
      decreases depth, 0, 3
    {
      hide Interfered, Progressed, Valid, Unread, Queue, ForwardOk, ReturnOk, NumbersOk, Flatten, Complete, Drained;
      NumberInRange();
      ok, agreed := true, false;
      if number == 0xFFFF {
        ok := NewSession(depth);
        agreed := ok;
      }
      Pause(depth);
    }

    method NewSession(depth: nat) returns (ok: bool)
      requires Valid() && busy
      modifies this, outgoing, incoming
      ensures Valid() && Kept(IN_SIZE) && number == 0 && ok == sessionActive
      ensures unchanged(`admitted, `attempts, `sent, `flying, `settled, `reserved, `doomed, `offers, `carried, `brought, `fenced, `asks, `denied)
      decreases depth, 0, 2
    {
      hide Interfered, Progressed, Valid, Unread, Queue, ForwardOk, ReturnOk, NumbersOk, Flatten, Complete, Drained;
      Pause(depth);
      ok := Negotiate();
    }

    lemma NumberInRange() requires Valid() ensures number < 0x1_0000 {}

    /** Whether a transfer gets through. */
    ghost predicate Through(path: Path)
      reads this
    {
      path.free && !reserved && rx == F.Idle && !keyFaulted && !keys.preparing && Agreed(path) && path.completed
    }

    ghost predicate Agreed(path: Path)
      reads `number, `sessionActive
    {
      (if number == 0xFFFF then path.agreed else sessionActive) && path.acknowledged
    }

    /** A current session, and the offer of the block acknowledged. */
    method Propose(length: nat, reverse: bool, depth: nat) returns (ok: bool, ghost path: Path)
      requires Valid() && busy && 1 <= length <= OUT_SIZE
      modifies this, outgoing, incoming
      ensures Valid() && Kept(IN_SIZE) && (ok <==> old(Agreed(path)))
      ensures unchanged(`attempts, `sent, `flying, `settled, `reserved, `doomed, `carried, `brought, `fenced, `asks, `denied)
      ensures ok ==> offers == old(offers) + [MakeOffer(nonce, number, length, reverse)]
                     && number == (if old(number) == 0xFFFF then 1 else old(number) + 1)
      ensures !ok ==> !sessionActive
      ensures old(offers) <= offers
      decreases depth, 0, 4
    {
      hide OnlyPublished, Interfered, Progressed, Valid, Unread, Queue, ForwardOk, ReturnOk, NumbersOk, Flatten, Complete, MakeOffer;
      NumberInRange();
      ghost var agreed, acknowledged := false, false;
      ok, agreed := Renew(depth);
      if ok { ok, acknowledged := OfferBlock(length, reverse); }
      path := Path(true, agreed, acknowledged, true);
    }

    /** `transfer` after the reservation: renew the session if its numbers are used up, offer, coordinate. */
    method Attempt(length: nat, reverse: bool, dst: nat, depth: nat) returns (ok: bool, ghost path: Path, ghost data: seq<byte>)
      requires Valid() && busy && reserved && !doomed && !settled && flying == [] && 1 <= length <= OUT_SIZE
      requires if reverse then received <= dst && dst + length <= IN_SIZE else queued == length && dst == 0
      modifies this, outgoing, incoming
      ensures Valid() && Kept(if reverse then dst else IN_SIZE) && (ok <==> old(Agreed(path)) && path.completed)
      ensures attempts == if reverse then old(attempts) else old(attempts) + [old(Queue())]
      ensures ok ==> !reserved && flying == [] && !doomed && sent == (if reverse then old(sent) else old(sent) + [old(Queue())]) && settled == !reverse
                     && offers == old(offers) + [MakeOffer(nonce, number, length, reverse)] && unchanged(`fenced)
      ensures !ok ==> doomed && reserved && fenced && !sessionActive && unchanged(`sent, `settled)
      ensures unchanged(`asks, `denied)
      ensures CarriedOnce(old(carried), old(brought), old(Queue()), reverse, data, ok) && old(offers) <= offers
      ensures ok && reverse ==> |data| == length && incoming[dst..dst + length] == data
      decreases depth, 2
    {
      hide OnlyPublished, Interfered, Progressed, Valid, Unread, Queue, ForwardOk, ReturnOk, NumbersOk, Flatten, Complete, MakeOffer;
      data := [];
      if !reverse { TakeOff(); }
      var offered;
      offered, path := Propose(length, reverse, depth);
      if !offered {
        Doom();
        return false, path, data;
      }
      ok, data := Coordinate(length, reverse, dst, depth);
      path := path.(completed := ok);
    }

    /** `transfer` of the queue, or into the return buffer at `dst`. */
    method Transfer(length: nat, reverse: bool, dst: nat, depth: nat) returns (ok: bool, ghost path: Path, ghost data: seq<byte>)
      requires Valid() && busy && !settled && 1 <= length <= OUT_SIZE
      requires if reverse then received <= dst && dst + length <= IN_SIZE else queued == length && dst == 0
      modifies this, outgoing, incoming
      ensures Valid() && Kept(if reverse then dst else IN_SIZE) && (ok <==> old(Through(path)))
      ensures old(reserved || doomed) ==> !ok && unchanged(`attempts, `sent)
      ensures ok ==> !reserved && sent == (if reverse then old(sent) else old(sent) + [old(Queue())]) && settled == !reverse
                     && offers == old(offers) + [MakeOffer(nonce, number, length, reverse)] && unchanged(`fenced)
      ensures ok ==> attempts == if reverse then old(attempts) else old(attempts) + [old(Queue())]
      ensures attempts == old(attempts) || (!reverse && attempts == old(attempts) + [old(Queue())])
      ensures !ok ==> unchanged(`sent, `settled) && (denied == old(denied) ==> doomed && !old(doomed) && fenced)
      ensures unchanged(`asks)
      ensures denied == old(denied) + if path.free && old(!reserved && rx == F.Idle && !keyFaulted && !keys.preparing) then 0 else 1
      ensures denied > old(denied) ==> unchanged(`received, `readAt, `needMore, `nonce, `number, `sessionActive, `reserved, `doomed, `attempts,
                                                 `flying, `offers, `carried, `brought, `fetched, `fenced)
      ensures CarriedOnce(old(carried), old(brought), old(Queue()), reverse, data, ok) && old(offers) <= offers
      ensures ok && reverse ==> |data| == length && incoming[dst..dst + length] == data
      decreases depth, 3
    {
      hide Valid, Unread, Queue, ForwardOk, ReturnOk, NumbersOk, Flatten, Complete, MakeOffer;
      UnreservedOrNot();
      data := [];
      var ready;
      ghost var free;
      ready, free := Reserve();
      path := Path(free, false, false, false);
      if !ready { return false, path, data; }
      ok, path, data := Attempt(length, reverse, dst, depth);
      path := path.(free := free);
    }

    /** `flush` */
    method Flush(depth: nat) returns (ok: bool, ghost path: Path)
      requires Valid() && busy && !settled
      modifies this, outgoing, incoming
      ensures Valid() && Progressed() && !settled && unchanged(`owned, `accepted, `fetched, `brought, `asks)
      ensures !ok ==> Excused()
      ensures ok <==> old(queued == 0 || Through(path))
      ensures ok ==> queued == 0
      ensures !ok ==> Queue() == old(Queue()) && queued == old(queued) && sent == old(sent)
      ensures sent == old(sent) + if ok && old(queued) > 0 then [old(Queue())] else []
      ensures ok ==> carried == old(carried) + if old(queued) > 0 then [old(Queue())] else []
      ensures attempts == old(attempts) || attempts == old(attempts) + [old(Queue())]
      ensures old(queued) == 0 ==> unchanged(this)
      ensures old(Drained() || keyFaulted) ==> Drained() || keyFaulted
      decreases depth, 4
    {
      hide Valid, ReturnOk, ForwardOk, NumbersOk, Flatten, Complete, Through, Queue, Unread, MakeOffer;
      QueueBounds();
      path := Path(false, false, false, false);
      if queued == 0 { return true, path; }
      ghost var data;
      ok, path, data := Transfer(queued, false, 0, depth);
      if !ok { return; }
      Pause(depth);
      Emptied();
    }

    /** The delivered queue is dropped. */
    method Emptied()
      requires Valid() && settled
      modifies `queued, `settled
      ensures Valid() && queued == 0 && !settled
    {
      hide ReturnOk, NumbersOk, Flatten;
      queued := 0;
      settled := false;
    }

    /** The unread tail moves to the front of the buffer. */
    method Compact(keep: nat)
      requires Valid() && readAt + keep <= IN_SIZE && (!keyFaulted ==> keep == received - readAt)
      modifies incoming, `readAt, `received
      ensures Valid() && readAt == 0 && received == keep
      ensures !keyFaulted ==> Unread() == old(Unread())
    {
      hide ForwardOk, NumbersOk, Complete;
      ghost var u := Unread();
      forall i | 0 <= i < keep { incoming[i] := incoming[readAt + i]; }
      readAt := 0;
      received := keep;
      assert !keyFaulted ==> Unread() == u;
    }

    /** The bytes that arrived behind the tail become readable. */
    method Append(keep: nat, pending: nat)
      requires Valid() && keep + pending <= IN_SIZE && (received == 0 || received == keep) && readAt == 0 && (!keyFaulted ==> received == keep)
      modifies `received, `needMore, `fetched
      ensures Valid() && received == keep + pending && !needMore
      ensures fetched == old(fetched) + incoming[keep..keep + pending]
    {
      hide ForwardOk, NumbersOk, Complete;
      ghost var u, got := Unread(), incoming[keep..keep + pending];
      if !keyFaulted {
        assert u == incoming[..][..keep] && got == incoming[..][keep..keep + pending];
        AppendSlices(incoming[..], keep, pending, fed, fetched);
      }
      assert incoming[0..keep + pending] == incoming[..][..keep + pending];
      received := keep + pending;
      needMore := false;
      fetched := fetched + got;
    }

    lemma TailFits()
      requires Valid() && Drained() && !keyFaulted
      ensures received - readAt <= 256
    {
      if received > 0 { TailIsShort(Unread()); }
    }

    /** `fetch_return`: at most 256 bytes at once, behind the tail that is kept.  Absent a fault the tail leaves room for the
        next block: the refusal is for a buffer that cannot occur. */
    method FetchReturn(wanted: nat, depth: nat) returns (ok: bool, ghost refused: bool, ghost through: bool, ghost data: seq<byte>)
      requires Valid() && busy && !settled && (Drained() || keyFaulted)
      modifies this, outgoing, incoming
      ensures Valid() && Progressed() && !settled && unchanged(`owned, `accepted, `queued, `carried, `sent, `asks)
      ensures refused ==> keyFaulted
      ensures refused <==> old(received - readAt) + BlockOf(wanted) > IN_SIZE
      ensures !ok && !refused ==> Excused()
      ensures !ok ==> (Drained() || keyFaulted) && fetched == old(fetched)
      ensures ok <==> !refused && (wanted == 0 || through)
      ensures ok ==> |data| == BlockOf(wanted) && fetched == old(fetched) + data && !needMore
                     && brought == old(brought) + if wanted > 0 then [data] else []
      decreases depth, 4
    {
      hide Valid, Unread, Queue, ForwardOk, ReturnOk, NumbersOk, Flatten, Complete, Through;
      through, data := true, [];
      var keep;
      keep, refused := MakeRoom(wanted, depth);
      if keep > IN_SIZE { return false, true, through, data; }
      ok := true;
      var pending := BlockOf(wanted);
      if pending > 0 {
        ghost var path;
        label Ready:
        ok, path, data := Transfer(pending, true, keep, depth);
        through := old@Ready(Through(path));
        if !ok { return; }
      }
      BufferBounds();
      TakeIn(keep, pending, depth);
    }

    /** The first part of `fetch_return`: the unread tail, and whether a block fits behind it.  A `keep` beyond
        the buffer stands for the refusal. */
    method MakeRoom(wanted: nat, depth: nat) returns (keep: nat, ghost refused: bool)
      requires Valid() && busy && !settled && (Drained() || keyFaulted)
      modifies this, outgoing, incoming
      ensures Valid() && busy && !settled && unchanged(`owned, `accepted, `queued, `sent, `attempts, `doomed, `fetched, `carried, `brought, `offers, `asks, `denied)
      ensures old(keyFaulted) ==> keyFaulted
      ensures refused ==> keyFaulted
      ensures keep > IN_SIZE <==> refused
      ensures refused <==> old(received - readAt) + BlockOf(wanted) > IN_SIZE
      ensures Drained() || keyFaulted
      ensures !refused ==> keep + BlockOf(wanted) <= IN_SIZE && readAt == 0 && received == keep == old(received - readAt)
      decreases depth, 0, 2
    {
      hide Valid, Unread, Queue, ForwardOk, ReturnOk, NumbersOk, Flatten, Complete;
      BufferBounds();
      keep := received - readAt;
      if !keyFaulted { TailFits(); }
      Pause(depth);
      if keep + (if wanted > 256 then 256 else wanted) > IN_SIZE { return IN_SIZE + 1, true; }
      BufferBounds();
      Compact(keep);
      refused := false;
    }

    /** The last part of `fetch_return`. */
    method TakeIn(keep: nat, pending: nat, depth: nat)
      requires Valid() && busy && !settled && keep + pending <= IN_SIZE && (Drained() || keyFaulted)
      requires (received == 0 || received == keep) && readAt == 0 && (!keyFaulted ==> received == keep)
      modifies this, outgoing, incoming
      ensures Valid() && Progressed() && !settled && unchanged(`owned, `accepted, `queued, `sent, `attempts, `carried, `brought, `fenced, `asks, `denied, `doomed)
      ensures fetched == old(fetched) + old(incoming[keep..keep + pending]) && !needMore
      decreases depth, 0, 2
    {
      hide Valid, Unread, Queue, ForwardOk, ReturnOk, NumbersOk, Flatten, Complete;
      ghost var there := incoming[..];
      Pause(depth);
      BufferBounds();
      Same(there, keep, pending);
      Append(keep, pending);
    }

    lemma BufferBounds()
      requires Valid()
      ensures readAt <= received <= IN_SIZE && incoming.Length == IN_SIZE
    {
    }

    /** `poll_return`: what the peer has pending is fetched, a block of it. */
    method PollReturn(depth: nat) returns (ok: bool, ghost asked: Control, ghost polled: bool, ghost refused: bool, ghost through: bool, ghost data: seq<byte>)
      requires Valid() && busy && !settled && (Drained() || keyFaulted)
      modifies this, outgoing, incoming
      ensures Valid() && Progressed() && !settled && unchanged(`owned, `accepted, `queued, `carried, `sent)
      ensures asks == old(asks) + [Ask(POLL_OP, asked)] && (polled <==> old(Answering(asked)))
      ensures !ok ==> Excused() || keyFaulted
      ensures ok <==> polled && !refused && (asked.pending == 0 || through)
      ensures refused ==> keyFaulted
      ensures !ok ==> fetched == old(fetched)
      ensures ok ==> |data| == BlockOf(asked.pending) && fetched == old(fetched) + data
                     && brought == old(brought) + if asked.pending > 0 then [data] else []
      decreases depth, 5
    {
      hide Valid, Unread, Queue, ForwardOk, ReturnOk, NumbersOk, Flatten, Complete, Answering;
      refused, through, data := false, false, [];
      var pending;
      ok, pending, asked := StreamControl(POLL_OP, depth);
      polled := old(Answering(asked));
      if !ok { return; }
      ok, refused, through, data := FetchReturn(pending, depth);
    }

    /** Whether a control exchange succeeds. */
    ghost predicate Answering(c: Control)
      reads this
    {
      c.free && !reserved && rx == F.Idle && !keyFaulted && !keys.preparing && owned && sessionActive && c.answered && c.released
    }

    /** A control exchange under its own reservation, which is given back also when no answer came. */
    method StreamControl(op: byte, depth: nat) returns (ok: bool, pending: nat, ghost c: Control)
      requires Valid() && busy
      modifies this, outgoing, incoming
      ensures Valid() && Kept(IN_SIZE) && (ok <==> old(Answering(c))) && (ok ==> pending == c.pending)
      ensures asks == old(asks) + [Ask(op, c)] && (ok <==> c.answered && c.released) && (ok ==> c.free) && old(denied) <= denied
      ensures unchanged(`sent, `attempts, `settled, `doomed, `carried, `brought, `offers, `fenced, `nonce, `number, `sessionActive)
      ensures reserved == (old(reserved) || (c.free && old(rx == F.Idle && !keyFaulted && !keys.preparing) && !c.released))
      decreases depth, 4
    {
      hide Valid, Unread, Queue, ForwardOk, ReturnOk, NumbersOk, Flatten, Complete;
      ok, pending := false, 0;
      UnreservedOrNot();
      var ready;
      ghost var free;
      ready, free := Reserve();
      c := Control(free, false, false, 0);
      if ready { ok, pending, c := Converse(op, depth); } else { Record(op, c); }
    }

    /** The exchange itself, and the end of the reservation. */
    method Converse(op: byte, depth: nat) returns (ok: bool, pending: nat, ghost c: Control)
      requires Valid() && busy && reserved && flying == [] && !doomed
      modifies this, outgoing, incoming
      ensures Valid() && Kept(IN_SIZE) && (ok <==> c.answered && c.released) && (ok ==> pending == c.pending)
      ensures asks == old(asks) + [Ask(op, c)] && c.free && (c.answered ==> old(owned && sessionActive)) && reserved == !c.released
      ensures unchanged(`sent, `attempts, `settled, `doomed, `carried, `brought, `offers, `fenced, `nonce, `number, `sessionActive, `denied)
      decreases depth, 3
    {
      hide Valid, Unread, Queue, ForwardOk, ReturnOk, NumbersOk, Flatten, Complete;
      ok, pending := false, 0;
      c := Control(true, false, false, 0);
      Pause(depth);
      if owned && sessionActive {
        var answered: bool := *;
        if answered { pending :| true; }
        c := c.(answered := answered, pending := pending);
        ok := answered;
      }
      var released := GiveBack();
      c := c.(released := released);
      if !released { ok := false; }
      Record(op, c);
    }

    ghost method Record(op: byte, met: Control)
      requires Valid()
      modifies `asks
      ensures Valid() && asks == old(asks) + [Ask(op, met)]
    {
      hide ForwardOk, ReturnOk, NumbersOk;
      asks := asks + [Ask(op, met)];
    }

    /** What a failure can be put down to: a reservation that was refused, a transfer that failed after its reservation, or a
        control exchange without an answer or without the reservation given back. */
    twostate predicate Excused()
      reads this
    {
      || denied > old(denied) || (doomed && !old(doomed))
      || (|asks| > |old(asks)| && !(asks[|asks| - 1].met.answered && asks[|asks| - 1].met.released))
    }

    lemma UnreservedOrNot()
      requires Valid()
      ensures !reserved ==> flying == [] && !doomed
    {
    }

    method Release()
      requires Valid() && reserved && flying == [] && !doomed
      modifies `reserved
      ensures Valid() && !reserved
    {
      hide ReturnOk, NumbersOk;
      reserved := false;
    }

    /** `emos_exext_service`, under the interrupt bridge: the queue goes out, then a block comes in; if either fails, the port is
        fenced and the stream is over. */
    method Service(depth: nat) returns (ghost flushed: bool, ghost polled: bool, ghost asked: Control, ghost data: seq<byte>)
      requires Valid() && busy && !settled && (Drained() || keyFaulted)
      modifies this, outgoing, incoming
      ensures Valid() && Progressed() && !settled && accepted == old(accepted)
      ensures (flushed ==> queued == 0) && (!flushed ==> !polled && queued == old(queued) && brought == old(brought))
      ensures sent == old(sent) + if flushed && old(queued) > 0 then [old(Queue())] else []
      ensures polled ==> |data| == BlockOf(asked.pending) && fetched == old(fetched) + data
      ensures asks == old(asks) + (if flushed then [Ask(POLL_OP, asked)] else []) && (!(flushed && polled) ==> Excused() || keyFaulted)
      ensures !polled ==> fetched == old(fetched)
      ensures owned == (old(owned) && flushed && polled) && (!(flushed && polled) ==> fenced)
      ensures old(queued) == 0 ==> flushed
      decreases depth, 6, 0
    {
      hide Valid, Unread, Queue, ForwardOk, ReturnOk, NumbersOk, Flatten, Complete, Through, Answering;
      asked, data, polled := Control(false, false, false, 0), [], false;
      var ok;
      ghost var path, refused, through, answered;
      ok, path := Flush(depth);
      flushed := old(queued == 0 || Through(path));
      if ok {
        ok, asked, answered, refused, through, data := PollReturn(depth);
        polled := answered && !refused && (asked.pending == 0 || through);
      }
      if !ok { GiveUp(); }
    }

    method GiveUp()
      requires Valid()
      modifies `owned, `fenced
      ensures Valid() && !owned && fenced
    {
      owned, fenced := false, true;
    }

    /** The keyboard after what a tick publishes first, and whether that was an event. */
    ghost function FirstPublished(): Board
      requires readAt <= received <= incoming.Length
      reads this, incoming
    {
      if received != 0 then PublishFrom(Keyboard(), Unread()) else Keyboard()
    }

    ghost predicate FirstEvent()
      requires readAt <= received <= incoming.Length
      reads this, incoming
    {
      Moved(keyLog, FirstPublished().log)
    }

    /** The publication that a tick begins with. */
    method PublishFirst() returns (event: bool)
      requires Valid()
      modifies `rx, `keyFaulted, `keys, `keycount, `keyLog, `readAt, `received, `fed, `needMore
      ensures Valid() && Interfered() && (event <==> old(FirstEvent())) && keyFaulted == old(FirstPublished()).faulted
      ensures if old(received) != 0 then Published(old(Keyboard()), old(Unread())) else Keyboard() == old(Keyboard()) && received == 0
      ensures !event ==> Drained()
    {
      hide Valid, Unread, Queue, ForwardOk, ReturnOk, NumbersOk, Flatten, Complete, PublishFrom, PublishRead, Moved, Published, F.Shaped;
      event := false;
      BufferBounds();
      ghost var last, unread := Keyboard(), Unread();
      if received != 0 {
        event := PublishRest();
        PublishedBoard(last, unread);
      } else {
        NotMoved(keyLog);
      }
    }

    lemma PublishedBoard(last: Board, unread: seq<byte>)
      requires Valid() && Published(last, unread)
      ensures Keyboard() == PublishFrom(last, unread)
    {
    }

    /** `emos_exext_tick`: what is unread is published; if that was no event and the stream is free, with storage idle, its
        service runs, and what that has brought is published too; `storage` says that a transaction with the card is open. */
    method Tick(storage: bool, depth: nat) returns (ghost served: bool, ghost last: Board, ghost unread: seq<byte>)
      requires Valid()
      modifies this, outgoing, incoming
      ensures Valid() && Interfered()
      ensures served <==> !old(FirstEvent()) && old(owned && !busy && routed) && !old(FirstPublished()).faulted && !storage
      ensures !served ==> if old(received) != 0 then Published(old(Keyboard()), old(Unread())) else Keyboard() == old(Keyboard()) && received == 0
      ensures !served ==> unchanged(`owned, `queued, `sent, `attempts, `fetched, `brought, `carried, `fenced, `asks, `denied)
      // the service: the queue is out, what the peer has pending has been fetched, a block of it, and published as far as one tick goes
      ensures served ==> Published(last, unread)
      ensures served && !owned ==> fenced && (Excused() || keyFaulted)
      ensures served && owned ==> queued == 0 && |asks| == |old(asks)| + 1 && asks[..|old(asks)|] == old(asks) && asks[|old(asks)|].op == POLL_OP
                                  && |fetched| == |old(fetched)| + BlockOf(asks[|old(asks)|].met.pending)
      ensures served && old(queued) == 0 ==> queued == 0
      decreases depth, 7
    {
      hide Valid, Unread, Queue, ForwardOk, ReturnOk, NumbersOk, Flatten, Complete, Published, FirstPublished, FirstEvent, Moved;
      BufferBounds();
      served, last, unread := false, Keyboard(), [];
      var event := PublishFirst();
      if event { return; }
      if !owned || busy || !routed || keyFaulted { return; }
      if storage { return; }
      served := true;
      last, unread := Serve(depth);
    }

    method Serve(depth: nat) returns (ghost last: Board, ghost unread: seq<byte>)
      requires Valid() && !busy && Drained()
      modifies this, outgoing, incoming
      ensures Valid() && Progressed() && accepted == old(accepted)
      ensures Published(last, unread)
      ensures old(owned) && !owned ==> fenced && (Excused() || keyFaulted)
      ensures owned ==> queued == 0 && |asks| == |old(asks)| + 1 && asks[..|old(asks)|] == old(asks) && asks[|old(asks)|].op == POLL_OP
                        && |fetched| == |old(fetched)| + BlockOf(asks[|old(asks)|].met.pending)
      ensures old(queued) == 0 ==> queued == 0
      decreases depth, 6, 2
    {
      hide Valid, Unread, Queue, ForwardOk, ReturnOk, NumbersOk, Flatten, Complete, PublishFrom, F.Shaped, BlockOf, Published;
      ServeBusy(depth);
      BufferBounds();
      last, unread := Keyboard(), Unread();
      var event := PublishRest();
      DropBusy();
    }

    /** The service with `busy` held. */
    method ServeBusy(depth: nat)
      requires Valid() && !busy && Drained()
      modifies this, outgoing, incoming
      ensures Valid() && busy && !settled && accepted == old(accepted) && Progressing()
      ensures old(owned) && !owned ==> fenced && (Excused() || keyFaulted)
      ensures owned ==> queued == 0 && |asks| == |old(asks)| + 1 && asks[..|old(asks)|] == old(asks) && asks[|old(asks)|].op == POLL_OP
                        && |fetched| == |old(fetched)| + BlockOf(asks[|old(asks)|].met.pending)
      ensures old(queued) == 0 ==> queued == 0
      decreases depth, 6, 1
    {
      hide Valid, Unread, Queue, ForwardOk, ReturnOk, NumbersOk, Flatten, Complete, PublishFrom, F.Shaped, BlockOf;
      Settled();
      TakeBusy();
      ghost var flushed, polled, asked, data := Service(depth);
    }

    /** A publication of `unread` from `last`: the keyboard has what it brings, and what it leaves is still unread. */
    ghost predicate Published(last: Board, unread: seq<byte>)
      requires readAt <= received <= incoming.Length
      reads `rx, `keyFaulted, `keys, `keyLog, `readAt, `received, incoming
    {
      Keyboard() == PublishFrom(last, unread) && Unread() == (if keyFaulted then [] else unread[PublishRead(last, unread)..])
    }

    /** A publication, for those who only need to know what it leaves alone. */
    method PublishRest() returns (event: bool)
      requires Valid()
      modifies `rx, `keyFaulted, `keys, `keycount, `keyLog, `readAt, `received, `fed, `needMore
      ensures Valid() && (old(keyFaulted) ==> keyFaulted)
      ensures received == 0 || received == old(received)
      ensures !event ==> Drained()
      ensures !keyFaulted && old(Drained()) ==> unchanged(`received, `readAt, `needMore, `fed)
      ensures old(Drained() || keyFaulted) ==> (Drained() || keyFaulted) && (received == 0 || readAt == old(readAt))
      ensures Published(old(Keyboard()), old(Unread())) && (event <==> Moved(old(keyLog), keyLog))
    {
      hide Valid, Unread, Queue, ForwardOk, ReturnOk, NumbersOk, Flatten, Complete, PublishFrom, PublishRead, Quiet, NoAnswerDue, Drained, Moved;
      BufferBounds();
      ghost var k := PublishRead(Keyboard(), Unread());
      RestOfUnread(k);
      ghost var last, unread, rest := Keyboard(), Unread(), incoming[readAt + k..received];
      event := Publish();
      Remains(last, unread, k, rest);
    }

    lemma RestOfUnread(k: nat)
      requires Valid() && k <= |Unread()|
      ensures readAt + k <= received <= incoming.Length && Unread()[k..] == incoming[readAt + k..received]
    {
    }

    lemma Remains(last: Board, unread: seq<byte>, k: nat, rest: seq<byte>)
      requires Valid() && Keyboard() == PublishFrom(last, unread) && k == PublishRead(last, unread) && rest == unread[k..]
      requires keyFaulted ==> received == 0
      requires !keyFaulted ==> if rest == [] then received == 0 else received <= incoming.Length && rest == incoming[readAt..received]
      ensures Published(last, unread)
    {
      hide PublishFrom, PublishRead, ForwardOk, ReturnOk, NumbersOk;
    }

    method DropBusy()
      requires Valid() && busy && !settled
      modifies `busy
      ensures Valid() && !busy
    {
      hide NumbersOk, ReturnOk, Flatten;
      busy := false;
    }

    lemma Settled()
      requires Valid() && !busy
      ensures !settled
    {
    }

    // --------------------------------------------------------------------------------- writing

    /** Append to the queue. */
    method Enqueue(part: seq<byte>)
      requires Valid() && !settled && queued + |part| <= OUT_SIZE
      modifies outgoing, `queued, `accepted
      ensures Valid() && queued == old(queued) + |part| && accepted == old(accepted) + part
    {
      hide ReturnOk, NumbersOk, Flatten;
      UnreadKept();
      ghost var q := Queue();
      forall i | 0 <= i < |part| { outgoing[queued + i] := part[i]; }
      queued := queued + |part|;
      assert Queue() == q + part;
      accepted := accepted + part;
    }

    lemma UnreadKept()
      requires Valid()
      ensures outgoing != incoming
    {
    }

    /** `emos_parallel_route_write_stream`: refused exactly when the stream is not there, busy, not routed or interrupts are off;
        if not, everything is taken, or what there was room for when a flush failed. */
    method WriteStream(bytes: seq<byte>, irq: bool, depth: nat) returns (status: Status)
      requires Valid()
      modifies this, outgoing, incoming
      ensures Valid() && Interfered()
      ensures status == BUSY <==> old(!owned || busy || !routed) || !irq
      ensures status == BUSY ==> unchanged(this) && unchanged(outgoing) && unchanged(incoming)
      ensures status == OK ==> accepted == old(accepted) + bytes && (bytes != [] ==> queued < OUT_SIZE)
      ensures status == COMPLETION_TIMEOUT ==> queued == OUT_SIZE && Excused()
      ensures old(accepted) <= accepted <= old(accepted) + bytes
      // blocks are sent when they are full
      ensures old(attempts) <= attempts && forall i :: |old(attempts)| <= i < |attempts| ==> |attempts[i]| == OUT_SIZE
      decreases depth, 6
    {
      hide Valid, Unread, Queue, ForwardOk, ReturnOk, NumbersOk, Flatten, Complete;
      if !owned || busy || !routed || !irq {
        Nothing(bytes);
        return BUSY;
      }
      Settled();
      TakeBusy();
      var ok := Accept(bytes, depth);
      DropBusy();
      status := if ok then OK else COMPLETION_TIMEOUT;
    }

    lemma Nothing(bytes: seq<byte>)
      ensures accepted <= accepted + bytes
    {
    }

    /** The loop of the stream writer. */
    method Accept(bytes: seq<byte>, depth: nat) returns (ok: bool)
      requires Valid() && busy && !settled
      modifies this, outgoing, incoming
      ensures Valid() && Progressed() && !settled && busy
      ensures ok ==> accepted == old(accepted) + bytes && (bytes != [] ==> queued < OUT_SIZE)
      ensures !ok ==> queued == OUT_SIZE && Excused()
      ensures old(accepted) <= accepted <= old(accepted) + bytes
      ensures old(attempts) <= attempts && forall i :: |old(attempts)| <= i < |attempts| ==> |attempts[i]| == OUT_SIZE
      decreases depth, 5
    {
      hide Valid, Unread, Queue, ForwardOk, ReturnOk, NumbersOk, Flatten, Complete;
      ok := true;
      var done := 0;
      assert bytes[..0] == [];
      while done < |bytes| && ok
        invariant 0 <= done <= |bytes|
        invariant Valid() && Progressed() && !settled && busy
        invariant accepted == old(accepted) + bytes[..done] && (ok && done > 0 ==> queued < OUT_SIZE) && (!ok ==> queued == OUT_SIZE && Excused())
        invariant old(attempts) <= attempts && forall i :: |old(attempts)| <= i < |attempts| ==> |attempts[i]| == OUT_SIZE
        decreases |bytes| - done, queued, ok
      {
        ghost var before := queued;
        QueueBounds();
        var part := OUT_SIZE - queued;
        if part > |bytes| - done { part := |bytes| - done; }
        ghost var a := accepted;
        Enqueue(bytes[done..done + part]);
        assert bytes[..done + part] == bytes[..done] + bytes[done..done + part];
        done := done + part;
        if queued == OUT_SIZE {
          QueueBounds();
          ghost var path;
          ok, path := Flush(depth);
        }
      }
      assert bytes == bytes[..done] + bytes[done..];
      assert ok ==> bytes[..done] == bytes;
    }

    lemma QueueBounds()
      requires Valid()
      ensures queued <= OUT_SIZE == outgoing.Length && |Queue()| == queued
    {
    }

    /** `emos_parallel_route_write_byte`: a plain append except for the byte that completes a block.  `closed` says that the
        stream was gone or busy when that byte came to be written. */
    method WriteByte(value: byte, irq: bool, depth: nat) returns (status: Status, ghost closed: bool)
      requires Valid()
      modifies this, outgoing, incoming
      ensures Valid() && Interfered()
      ensures old(!owned || busy || !routed) || !irq ==> status == BUSY && unchanged(this)
      ensures old(owned && !busy && routed && queued < OUT_SIZE - 1) && irq ==>
                status == OK && accepted == old(accepted) + [value] && queued == old(queued) + 1
                && unchanged(`owned, `busy, `routed, `sent, `attempts, `fetched, `received, `readAt)
      ensures old(owned && !busy && routed && queued >= OUT_SIZE - 1) && irq ==>
                (status == BUSY <==> closed) && (depth == 0 ==> !closed) && (status == COMPLETION_TIMEOUT ==> queued == OUT_SIZE && Excused())
      ensures status == OK ==> queued < OUT_SIZE && exists before :: old(accepted) <= before && accepted == before + [value]
      decreases depth, 7
    {
      hide Valid, Unread, Queue, ForwardOk, ReturnOk, NumbersOk, Flatten, Complete;
      closed := false;
      if !owned || busy || !routed || !irq { return BUSY, closed; }
      Settled();
      if queued < OUT_SIZE - 1 {
        Enqueue([value]);
        return OK, closed;
      }
      status, closed := WriteBoundary(value, irq, depth);
    }

    /** The byte that completes a block goes the way of the stream writer, and an interrupt may come first. */
    method WriteBoundary(value: byte, irq: bool, depth: nat) returns (status: Status, ghost closed: bool)
      requires Valid() && owned && !busy && routed && irq
      modifies this, outgoing, incoming
      ensures Valid() && Interfered()
      ensures (status == BUSY <==> closed) && (depth == 0 ==> !closed) && (status == COMPLETION_TIMEOUT ==> queued == OUT_SIZE && Excused())
      ensures status == OK ==> queued < OUT_SIZE && exists before :: old(accepted) <= before && accepted == before + [value]
      decreases depth, 7, 0
    {
      hide Valid, Unread, Queue, ForwardOk, ReturnOk, NumbersOk, Flatten, Complete;
      Interrupt(depth);
      ghost var before := accepted;
      closed := !owned || busy || !routed;
      status := WriteStream([value], irq, depth);
      assert status == OK ==> old(accepted) <= before && accepted == before + [value];
    }

    // ------------------------------------------------------------------------------ beginning and end

    /** Whether the negotiation and the start control of a stream succeed, when a session is agreed. */
    ghost predicate Connecting(c: Greeting)
      reads this
    {
      c.free && !reserved && rx == F.Idle && !keyFaulted && !keys.preparing && c.answered && c.released
    }

    /** `emos_exext_start` in the foreground; `admissible` is what the console and the link have to say. */
    method Start(admissible: bool, depth: nat) returns (ok: bool, ghost c: Greeting)
      requires Valid()
      modifies this, outgoing, incoming
      ensures Valid()
      ensures !admissible || old(owned || busy) ==> !ok && unchanged(this)
      ensures admissible && !old(owned || busy) ==> owned == ok && !busy && (ok <==> old(Connecting(c)) && c.agreed)
      ensures ok ==> queued == 0 && accepted == [] && sent == []
      ensures ok ==> owned && !busy && sessionActive && Nonzero(nonce) && nonces == old(nonces) + [nonce] && number == 0 && !old(reserved)
      ensures ok ==> asks == old(asks) + [Ask(START_OP, Control(true, true, true, 0))]
      ensures admissible && !old(owned || busy) && !ok ==> Excused() || !sessionActive
      ensures old(doomed) ==> !ok && doomed && reserved
      decreases depth, 7
    {
      hide Valid, Unread, Queue, ForwardOk, ReturnOk, NumbersOk, Flatten, Complete, F.Shaped, Nonzero, Interfered, Progressed, Drained;
      UnreservedOrNot();
      c := Greeting(false, false, false, false);
      if owned || busy || !admissible { return false, c; }
      Settled();
      ResetStream();
      ok, c := Connect(depth);
      Disown(ok);
    }

    method ResetStream()
      requires Valid() && !busy && !settled
      modifies `busy, `owned, `queued, `received, `readAt, `needMore, `accepted, `sent, `attempts, `fetched, `fed
      ensures Valid() && busy && owned && !settled && queued == received == 0 && accepted == [] && sent == []
      ensures attempts == flying
    {
      hide Valid, Flatten;
      ResetReturn();
      ResetForward();
      TakeBusy();
      GiveOwnership();
    }

    method GiveOwnership()
      requires Valid()
      modifies `owned
      ensures Valid() && owned
    {
      hide NumbersOk, ReturnOk, ForwardOk;
      owned := true;
    }

    method ResetReturn()
      requires Valid()
      modifies `received, `readAt, `needMore, `fetched, `fed
      ensures Valid() && received == 0
    {
      hide NumbersOk, ForwardOk, Complete;
      received, readAt, needMore := 0, 0, false;
      fetched, fed := [], [];
      assert Unread() == [];
    }

    method ResetForward()
      requires Valid() && !settled
      modifies `queued, `accepted, `sent, `attempts
      ensures Valid() && queued == 0 && accepted == [] && sent == [] && attempts == flying
    {
      hide NumbersOk, ReturnOk, ForwardOk, Flatten;
      ClearForward();
    }

    method ClearForward()
      requires queued <= outgoing.Length && ForwardOk() && !settled
      modifies `queued, `accepted, `sent, `attempts
      ensures queued == 0 && accepted == [] && sent == [] && attempts == flying && ForwardOk()
    {
      hide Flatten;
      var none: seq<seq<byte>> := [];
      FlattenNothing();
      queued := 0;
      accepted, sent, attempts := [], none, flying;
      assert outgoing[..0] == [];
      assert none + flying == flying;
    }

    method Disown(ok: bool)
      requires Valid() && busy && !settled
      modifies `busy, `owned
      ensures Valid() && !busy && (ok ==> owned == old(owned)) && (!ok ==> !owned)
    {
      hide NumbersOk, ReturnOk, Flatten;
      busy := false;
      if !ok { owned := false; }
    }

    /** The negotiation and the start control, under one reservation. */
    method Connect(depth: nat) returns (ok: bool, ghost c: Greeting)
      requires Valid() && busy && !settled && owned
      modifies this, outgoing, incoming
      ensures Valid() && busy && !settled && owned && unchanged(`queued, `accepted, `sent)
      ensures ok <==> old(Connecting(c)) && c.agreed
      ensures ok ==> sessionActive && Nonzero(nonce) && nonces == old(nonces) + [nonce] && number == 0
      ensures ok ==> asks == old(asks) + [Ask(START_OP, Control(true, true, true, 0))]
      ensures !ok ==> Excused() || !sessionActive
      ensures old(reserved || doomed) ==> !ok && reserved == old(reserved) && doomed == old(doomed)
      ensures reserved == (old(reserved) || (c.free && old(rx == F.Idle && !keyFaulted && !keys.preparing) && !c.released))
      decreases depth, 5
    {
      hide Kept, Interfered, Progressed, Drained, Nonzero, Valid, Unread, Queue, ForwardOk, ReturnOk, NumbersOk, Flatten, Complete;
      UnreservedOrNot();
      var ready;
      ghost var free;
      ready, free := Reserve();
      c := Greeting(free, false, false, false);
      if !ready { return false, c; }
      ok, c := Agree(depth);
    }

    /** The two exchanges, and the end of the reservation. */
    method Agree(depth: nat) returns (ok: bool, ghost c: Greeting)
      requires Valid() && busy && reserved && flying == [] && !doomed
      modifies this, outgoing, incoming
      ensures Valid() && unchanged(`busy, `settled, `owned, `queued, `accepted, `sent)
      ensures c.free && reserved == !c.released && (ok <==> c.agreed && c.answered && c.released)
      ensures ok ==> sessionActive && Nonzero(nonce) && nonces == old(nonces) + [nonce] && number == 0
      ensures c.agreed ==> asks == old(asks) + [Ask(START_OP, Control(true, c.answered, c.released, 0))]
      ensures !c.agreed ==> !sessionActive && asks == old(asks)
      ensures unchanged(`denied, `doomed)
      decreases depth, 4
    {
      hide Kept, Interfered, Progressed, Drained, Nonzero, Valid, Unread, Queue, ForwardOk, ReturnOk, NumbersOk, Flatten, Complete;
      Breathe(depth);
      ok := Negotiate();
      c := Greeting(true, ok, false, false);
      Breathe(depth);
      if ok {
        var control: bool := *;
        c := c.(answered := control);
        ok := control;
      }
      Breathe(depth);
      var released := GiveBack();
      c := c.(released := released);
      if c.agreed { Record(START_OP, Control(true, c.answered, released, 0)); }
      if !released { ok := false; }
      NumberInRange();
      if ok { SessionIsReal(); }
    }

    /** `emos_keyboard_parallel_release`, if it is granted. */
    method GiveBack() returns (released: bool)
      requires Valid() && reserved && flying == [] && !doomed
      modifies `reserved
      ensures Valid() && reserved == !released
    {
      hide ReturnOk, NumbersOk, ForwardOk;
      released := *;
      if released { Release(); }
    }

    /** The peer, asked to stop, has said last that it has nothing pending. */
    ghost predicate Cleared(before: seq<Ask>)
      reads `asks
    {
      |asks| > |before| && asks[|asks| - 1] == Ask(STOP_OP, Control(true, true, true, 0))
    }

    /** `emos_exext_stop` in the foreground: when it succeeds, everything accepted has been delivered and
        everything fetched has been published. */
    method Stop(depth: nat) returns (ok: bool)
      requires Valid()
      modifies this, outgoing, incoming
      ensures Valid()
      ensures old(!owned || busy) ==> ok == !old(owned) && unchanged(this)
      ensures old(owned && !busy) ==> !busy && owned == !ok && (ok ==> queued == received == readAt == 0)
      ensures ok && old(owned) ==> Cleared(old(asks)) && accepted == Flatten(sent) && (keyFaulted || fed == fetched)
      // it fails for a reason only: a flush or an exchange that failed, a fault, or bytes that keep coming
      ensures !ok && old(owned && !busy) ==> Excused() || keyFaulted || received != 0 || (asks != [] && asks[|asks| - 1].met.pending != 0)
      ensures old(doomed) ==> doomed && unchanged(`attempts, `sent)
      decreases depth, 7
    {
      hide Valid, Unread, Queue, ForwardOk, ReturnOk, NumbersOk, Flatten, Complete, F.Shaped, Cleared;
      if !owned { return true; }
      if busy { return false; }
      Settled();
      ok := Drain(depth);
      if ok { Retire(); }
      Disown(true);
    }

    /** Nothing is queued and nothing unread: the stream can go. */
    method Retire()
      requires Valid() && busy && !settled && queued == 0 && received == 0
      modifies `owned, `queued, `received, `readAt
      ensures Valid() && busy && !owned && accepted == Flatten(sent) && (keyFaulted || fed == fetched) && queued == received == readAt == 0
    {
      hide ForwardOk, ReturnOk, NumbersOk, Flatten, Complete;
      Finished();
      owned := false;
      queued, received, readAt := 0, 0, 0;
    }

    lemma Finished()
      requires Valid() && !settled && queued == 0 && received == 0
      ensures accepted == Flatten(sent) && (keyFaulted || fed == fetched)
    {
      hide NumbersOk, Flatten, Complete;
      assert Queue() == [] && Unread() == [];
    }

    /** The exchange that asks the peer to stop, once the return side is drained. */
    method AskStop(depth: nat) returns (ok: bool, pending: nat, ghost c: Control)
      requires Valid() && busy && !settled && Drained()
      modifies this, outgoing, incoming
      ensures Valid() && busy && !settled && unchanged(`owned, `queued, `doomed, `sent, `attempts) && (Drained() || keyFaulted)
      ensures asks == old(asks) + [Ask(STOP_OP, c)] && (ok <==> c.answered && c.released) && (ok ==> c.free && pending == c.pending)
      ensures old(denied) <= denied && (old(keyFaulted) ==> keyFaulted) && (received == 0 || received == old(received))
      decreases depth, 5
    {
      hide Valid, Unread, Queue, ForwardOk, ReturnOk, NumbersOk, Flatten, Complete, Answering;
      ok, pending, c := StreamControl(STOP_OP, depth);
    }

    /** The waiting and retrying of `emos_exext_stop`. */
    method Drain(depth: nat) returns (ok: bool)
      requires Valid() && !busy && !settled
      modifies this, outgoing, incoming
      ensures Valid() && busy && !settled && owned == old(owned) && (ok ==> queued == 0 && received == 0)
      ensures ok <==> Cleared(old(asks)) && received == 0
      ensures !ok ==> Excused() || keyFaulted || received != 0 || (asks != [] && asks[|asks| - 1].met.pending != 0)
      ensures old(doomed) ==> doomed && unchanged(`attempts, `sent)
      decreases depth, 6
    {
      hide Kept, BlockOf, Valid, Unread, Queue, ForwardOk, ReturnOk, NumbersOk, Flatten, Complete, Through, Answering;
      TakeBusy();
      ghost var path;
      ok, path := Flush(depth);
      var pending: nat := 0;
      var attemptsLeft: nat :| true;      // what the deadline leaves
      while true
        invariant Valid() && busy && !settled && owned == old(owned) && (ok ==> queued == 0)
        invariant old(asks) <= asks && old(denied) <= denied && (old(keyFaulted) ==> keyFaulted)
        invariant if asks == old(asks) then pending == 0 && (!ok ==> Excused())
                  else pending != 0 && asks[|asks| - 1].met.pending == pending && (!ok ==> Excused() || keyFaulted)
        invariant old(doomed) ==> doomed && unchanged(`attempts, `sent)
        decreases attemptsLeft
      {
        var published := AwaitPublication(depth);
        if !published || !ok || keyFaulted { ok := false; break; }
        ghost var c, refused, through, data;
        var p;
        ok, p, c := AskStop(depth);
        if ok { pending := p; }
        if !ok || pending == 0 { break; }
        ok, refused, through, data := FetchReturn(pending, depth);
        if attemptsLeft == 0 { break; }
        attemptsLeft := attemptsLeft - 1;
      }
      if pending != 0 || received != 0 { ok := false; }
    }

    method TakeBusy()
      requires Valid() && !busy
      modifies `busy
      ensures Valid() && busy
    {
      hide NumbersOk, ReturnOk, Flatten;
      busy := true;
    }

    /** Wait for ticks to publish what has been fetched; it fails only when the time is up. */
    method AwaitPublication(depth: nat) returns (published: bool)
      requires Valid() && busy && !settled
      modifies this, outgoing, incoming
      ensures Valid() && busy && !settled && unchanged(`queued, `owned) && (published <==> Drained())
      ensures unchanged(`attempts, `sent, `doomed, `asks, `denied) && (old(keyFaulted) ==> keyFaulted)
      decreases depth, 4
    {
      hide Valid, Unread, Queue, ForwardOk, ReturnOk, NumbersOk, Flatten, Complete;
      var polls: nat :| true;
      while received != 0 && !needMore && polls > 0
        invariant Valid() && busy && !settled && unchanged(`queued, `owned)
        invariant unchanged(`attempts, `sent, `doomed, `asks, `denied) && (old(keyFaulted) ==> keyFaulted)
        decreases polls
      {
        Pause(depth);
        polls := polls - 1;
      }
      published := received == 0 || needMore;
    }
  }

  lemma DifferentNonce(n: Word4)
    ensures exists m: Word4 :: Nonzero(m) && m != n
  {
    var a: Word4, b: Word4 := [1, 0, 0, 0], [2, 0, 0, 0];
    assert a[0] != b[0];
    assert Nonzero(if a == n then b else a);
  }

  lemma FlattenNothing()
    ensures Flatten<byte>([]) == []
  {
  }

  lemma AppendSlices(buffer: seq<byte>, keep: nat, pending: nat, fed: seq<byte>, fetched: seq<byte>)
    requires keep + pending <= |buffer| && fed + buffer[..keep] == fetched
    ensures fed + buffer[..keep + pending] == fetched + buffer[keep..keep + pending]
  {
    assert buffer[..keep + pending] == buffer[..keep] + buffer[keep..keep + pending];
  }

  lemma IdleWhenDone(r: F.Parser, b: byte)
    ensures var o := F.Step(r, b); o.Going? && o.done != [] ==> o.next == F.Idle
  {
  }

  /** The counter, a byte, misses only multiples of 256. */
  lemma CounterMoves(count: byte, n: nat)
    ensures (count + n) % 256 != count <==> n % 256 != 0
  {
  }

  lemma NothingIsComplete()
    ensures !Complete([])
  {
  }
}
