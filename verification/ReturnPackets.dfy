/** Packets in the return buffer. */
module ReturnPackets {
  import opened Bytes
  import opened HeldKeys
  import F = KeyboardFraming

  /** The unread bytes begin with something that can be fed whole: a byte that is no header, or a packet that
      has arrived completely. */
  predicate Complete(s: seq<byte>)
  {
    s != [] && (s[0] < 0x80 || (|s| >= 2 && 2 + (s[1] as int) <= |s|))
  }

  /** How many bytes that is. */
  function UnitLength(s: seq<byte>): (n: nat)
    requires Complete(s)
    ensures 1 <= n <= |s|
  {
    if s[0] < 0x80 then 1 else 2 + (s[1] as int)
  }

  /** What cannot be fed yet is the beginning of one packet: at most 256 bytes. */
  lemma TailIsShort(s: seq<byte>)
    requires !Complete(s)
    ensures |s| <= 256
  {
  }

  /** A unit fed to an idle parser leaves it idle and completes at most one packet, or is refused outright. */
  lemma UnitLeavesIdle(s: seq<byte>)
    requires Complete(s)
    ensures match F.Run(F.Idle, s[..UnitLength(s)])
            case Fault => true
            case Going(next, done) => next == F.Idle && |done| <= 1
  {
    var n := UnitLength(s);
    var u := s[..n];
    if s[0] < 0x80 {
      assert u[1..] == [];
    } else {
      var f := F.Frame(s[0], s[2..n]);
      assert u[1..][0] == s[1];
      if F.WrongLength(s[0], s[1]) {
        assert F.Step(F.HaveCommand(s[0]), u[1..][0]) == F.Fault;
        assert F.Run(F.HaveCommand(s[0]), u[1..]) == F.Fault;
        assert F.Run(F.Idle, u) == F.Fault;
      } else {
        assert F.Serialize(f) == u;
        F.RunFrame(f);
      }
    }
  }

  // ------------------------------------------------------------------- what the keyboard makes of bytes

  const WIPED: seq<bv8> :=
    [0, 0, 0, 0, 0, 0, 0, 0, 0, 0, 0, 0, 0, 0, 0, 0, 0, 0, 0, 0, 0, 0, 0, 0, 0, 0, 0, 0, 0, 0, 0, 0]

  type Bitmap = s: seq<bv8> | |s| == 32 witness WIPED

  const POLL_REPLY: byte := 0x80
  const SDLINK: byte := 0x8D

  /** The keyboard, as far as events go.  A `remote` source is one behind UART1; `listening` says that UART1 is open and
      not parked; `preparing` that a new source waits for the answer to its poll. */
  datatype Keys = Keys(listening: bool, remote: bool, preparing: bool, token: byte,
                       held: Bitmap, modifiers: byte, zeroDown: bool)
  {
    /** The releases that a change of source, or a fault, publishes. */
    function Cleanup(): seq<Event> { CleanupEvents(held, modifiers, zeroDown) }
    function Cleaned(): Keys { this.(held := WIPED, modifiers := LockBits(modifiers), zeroDown := false) }
    function Published(e: Event): Keys
    {
      this.(modifiers := e.modifiers, zeroDown := if e.key == 0 then e.down else zeroDown,
            held := if 1 <= e.key <= KEY_MAX then SetKey(held, e.key, e.down) else held)
    }
  }

  /** The parser, the keyboard and every event published; the callback leaves payloads as they are. */
  datatype Board = Board(rx: F.Parser, faulted: bool, keys: Keys, log: seq<Event>)

  /** `emos_keyboard_fault` */
  function Faulted(w: Board): Board
  {
    var cleaned := if w.keys.remote then w.keys.Cleaned() else w.keys;
    Board(F.Idle, true, cleaned.(preparing := false), w.log + if w.keys.remote then w.keys.Cleanup() else [])
  }

  lemma FaultedIsFaulted(w: Board)
    ensures Faulted(w).faulted && Faulted(w.(rx := F.Idle)) == Faulted(w)
  {
  }

  predicate Answers(k: Keys, f: F.Frame)
  {
    f.command == POLL_REPLY && |f.payload| == 1 && k.preparing && f.payload[0] == k.token
  }

  /** `emos_keyboard_dispatch` of a packet that has just been completed */
  function Dispatch(w: Board, f: F.Frame): Board
  {
    if f.command == SDLINK then w
    else if Answers(w.keys, f) then
      w.(keys := w.keys.Cleaned().(remote := true, preparing := false), log := w.log + w.keys.Cleanup())
    else if !w.keys.preparing && w.keys.remote && f.command == F.KEY_PACKET && |f.payload| == 4 then
      if f.payload[2] > KEY_MAX || f.payload[3] > 1 then Faulted(w)
      else
        var e := Event(f.payload[1], f.payload[2], f.payload[3] == 1);
        w.(keys := w.keys.Published(e), log := w.log + [e])
    else w
  }

  /** `emos_keyboard_byte` */
  function FeedByte(w: Board, b: byte): Board
  {
    if w.faulted || !w.keys.listening then w
    else
      match F.Step(w.rx, b)
      case Fault => Faulted(w)
      case Going(next, done) =>
        if done == [] then w.(rx := next) else Dispatch(w.(rx := next), done[0])
  }

  function FeedAll(w: Board, s: seq<byte>): Board
    decreases |s|
  {
    if s == [] then w else FeedAll(FeedByte(w, s[0]), s[1..])
  }

  /** `publish_return`: whole units, until the key counter, a byte, has moved. */
  function PublishFrom(w: Board, s: seq<byte>): Board
    decreases |s|
  {
    if w.faulted || !Complete(s) then w
    else
      var n := UnitLength(s);
      var w' := FeedAll(w, s[..n]);
      if (|w'.log| - |w.log|) % 256 != 0 then w' else PublishFrom(w', s[n..])
  }

  /** How many bytes it reads. */
  function PublishRead(w: Board, s: seq<byte>): (k: nat)
    ensures k <= |s|
    decreases |s|
  {
    if w.faulted || !Complete(s) then 0
    else
      var n := UnitLength(s);
      var w' := FeedAll(w, s[..n]);
      if (|w'.log| - |w.log|) % 256 != 0 then n else n + PublishRead(w', s[n..])
  }

  lemma PublishStep(w: Board, s: seq<byte>)
    requires !w.faulted && Complete(s)
    ensures var w' := FeedAll(w, s[..UnitLength(s)]);
            && PublishFrom(w, s) == (if (|w'.log| - |w.log|) % 256 != 0 then w' else PublishFrom(w', s[UnitLength(s)..]))
            && PublishRead(w, s) == UnitLength(s) + if (|w'.log| - |w.log|) % 256 != 0 then 0 else PublishRead(w', s[UnitLength(s)..])
  {
    hide FeedAll, Complete, UnitLength;
  }

  lemma CompleteIsSome(s: seq<byte>)
    ensures Complete(s) ==> s != []
  {
  }

  lemma PublishEnd(w: Board, s: seq<byte>)
    ensures w.faulted || !Complete(s) ==> PublishFrom(w, s) == w && PublishRead(w, s) == 0
  {
  }

  lemma {:induction false} FeedSnoc(w: Board, s: seq<byte>, b: byte)
    ensures FeedAll(w, s + [b]) == FeedByte(FeedAll(w, s), b)
    decreases |s|
  {
    if s == [] {
      assert (s + [b])[1..] == [];
    } else {
      FeedSnoc(FeedByte(w, s[0]), s[1..], b);
      assert (s + [b])[1..] == s[1..] + [b];
    }
  }

  lemma {:induction false} FeedNothing(w: Board, s: seq<byte>)
    requires w.faulted || !w.keys.listening
    ensures FeedAll(w, s) == w
    decreases |s|
  {
    if s != [] { FeedNothing(w, s[1..]); }
  }

  // ----------------------------------------------------------------------------- units, one at a time

  /** A payload, up to its last byte. */
  lemma {:induction false} FeedPayload(w: Board, s: seq<byte>)
    requires !w.faulted && w.keys.listening && w.rx.InPayload? && |s| == w.rx.left
    requires s != [] && w.rx.length <= F.PAYLOAD_LIMIT ==> |w.rx.kept| + |s| <= F.PAYLOAD_LIMIT
    requires s != []
    ensures FeedAll(w, s) == if w.rx.length <= F.PAYLOAD_LIMIT
                             then Dispatch(w.(rx := F.Idle), F.Frame(w.rx.command, w.rx.kept + s)) else w.(rx := F.Idle)
    decreases |s|
  {
    hide Dispatch, Faulted;
    var w' := FeedByte(w, s[0]);
    if |s| == 1 {
      assert s[1..] == [];
      assert [s[0]] == s;
    } else {
      FeedPayload(w', s[1..]);
      assert w.rx.length <= F.PAYLOAD_LIMIT ==> w'.rx.kept + s[1..] == w.rx.kept + s;
    }
  }

  /** What a whole unit does to an idle receiver. */
  function UnitFromIdle(w: Board, u: seq<byte>): Board
    requires Complete(u)
  {
    if u[0] < 0x80 then w
    else if F.WrongLength(u[0], u[1]) then Faulted(w)
    else if u[1] == 0 || u[1] > F.PAYLOAD_LIMIT then w
    else Dispatch(w, F.Frame(u[0], u[2..2 + (u[1] as int)]))
  }

  lemma UnitDone(w: Board, u: seq<byte>)
    requires w.rx == F.Idle && !w.faulted && w.keys.listening && Complete(u) && UnitLength(u) == |u|
    ensures FeedAll(w, u) == UnitFromIdle(w, u)
  {
    hide Dispatch, Faulted;
    if u[0] < 0x80 {
      assert u[1..] == [];
    } else {
      var w1 := FeedByte(w, u[0]);
      var w2 := FeedByte(w1, u[1]);
      assert u[1..][0] == u[1] && u[1..][1..] == u[2..];
      assert FeedAll(w, u) == FeedAll(w2, u[2..]) by { assert FeedAll(w1, u[1..]) == FeedAll(w2, u[1..][1..]); }
      if F.WrongLength(u[0], u[1]) {
        FaultedIsFaulted(w1);
        FeedNothing(w2, u[2..]);
      } else if u[1] != 0 {
        FeedPayload(w2, u[2..]);
        assert [] + u[2..] == u[2..] == u[2..2 + (u[1] as int)];
        assert w2.(rx := F.Idle) == w;
      } else {
        assert u[2..] == [];
      }
    }
  }

  // -------------------------------------------------------------------- how many events, and how many at most

  /** No release of more than one event is in store, whatever comes. */
  predicate Quiet(k: Keys) { |k.Cleanup()| <= 1 || (!k.remote && !k.preparing) }

  /** Nor is one, as long as nothing is malformed. */
  predicate NoAnswerDue(k: Keys) { |k.Cleanup()| <= 1 || !k.preparing }

  /** What one packet, or a fault, can publish from a receiver at rest. */
  ghost predicate Bounded(w: Board, r: Board)
  {
    var news := |r.log| - |w.log|;
    && r.rx == F.Idle && r.keys.listening == w.keys.listening && 0 <= news <= KEY_MAX + 1
    && (Quiet(w.keys) ==> news <= 1 && (news == 0 ==> Quiet(r.keys)))
    && (NoAnswerDue(w.keys) && !r.faulted ==> news <= 1 && (news == 0 ==> NoAnswerDue(r.keys)))
  }

  lemma CleanedIsQuiet(k: Keys)
    ensures k.Cleaned().Cleanup() == []
  {
    NothingToRelease(WIPED, k.modifiers);
  }

  lemma FaultBounded(w: Board)
    requires w.rx == F.Idle
    ensures Bounded(w, Faulted(w))
  {
    hide CleanupEvents;
    CleanupBound(w.keys.held, w.keys.modifiers, w.keys.zeroDown);
    CleanedIsQuiet(w.keys);
    assert w.keys.Cleaned().(preparing := false).Cleanup() == w.keys.Cleaned().Cleanup();
    assert w.keys.(preparing := false).Cleanup() == w.keys.Cleanup();
  }

  lemma DispatchBounded(w: Board, f: F.Frame)
    requires w.rx == F.Idle
    ensures Bounded(w, Dispatch(w, f))
  {
    hide CleanupEvents, Faulted;
    FaultBounded(w);
    CleanupBound(w.keys.held, w.keys.modifiers, w.keys.zeroDown);
    CleanedIsQuiet(w.keys);
    assert w.keys.Cleaned().(remote := true, preparing := false).Cleanup() == w.keys.Cleaned().Cleanup();
  }

  lemma UnitBounded(w: Board, u: seq<byte>)
    requires w.rx == F.Idle && !w.faulted && w.keys.listening && Complete(u) && UnitLength(u) == |u|
    ensures Bounded(w, FeedAll(w, u))
  {
    hide CleanupEvents, Faulted, Dispatch, FeedAll;
    UnitDone(w, u);
    FaultBounded(w);
    if u[0] >= 0x80 && u[1] != 0 { DispatchBounded(w, F.Frame(u[0], u[2..2 + (u[1] as int)])); }
  }

  /** From a receiver at rest, everything a publication can do. */
  lemma {:induction false} PublishBounded(w: Board, s: seq<byte>)
    requires w.rx == F.Idle && !w.faulted && w.keys.listening
    ensures Bounded(w, PublishFrom(w, s))
    decreases |s|
  {
    hide Faulted, Dispatch, FeedAll, Keys.Cleanup;
    if Complete(s) {
      var n := UnitLength(s);
      PrefixUnit(s);
      UnitBounded(w, s[..n]);
      var w' := FeedAll(w, s[..n]);
      if |w'.log| == |w.log| && !w'.faulted { PublishBounded(w', s[n..]); }
    }
  }

  lemma PrefixUnit(s: seq<byte>)
    requires Complete(s)
    ensures Complete(s[..UnitLength(s)]) && UnitLength(s[..UnitLength(s)]) == UnitLength(s)
  {
  }

  /** A publication as it is meant to be. */
  predicate CleanPublish(w: Board, s: seq<byte>)
  {
    var r := PublishFrom(w, s);
    r.rx == F.Idle && |r.log| <= |w.log| + 1
  }

  lemma AnswerReleases(w: Board)
    requires w.rx == F.Idle && !w.faulted && w.keys.listening && w.keys.preparing
    ensures var r := PublishFrom(w, [POLL_REPLY, 1, w.keys.token]);
            r.log == w.log + w.keys.Cleanup() && !r.faulted
  {
    hide CleanupEvents;
    var u: seq<byte> := [POLL_REPLY, 1, w.keys.token];
    assert u[..3] == u && u[3..] == [] && u[2..3] == [w.keys.token];
    UnitDone(w, u);
  }

  lemma MalformedReleases(w: Board)
    requires w.rx == F.Idle && !w.faulted && w.keys.listening && w.keys.remote
    ensures PublishFrom(w, [F.KEY_PACKET, 0]).log == w.log + w.keys.Cleanup()
  {
    hide CleanupEvents;
    var u: seq<byte> := [F.KEY_PACKET, 0];
    assert u[..2] == u && u[2..] == [];
    UnitDone(w, u);
  }

  /** One byte is missing from a key packet that will be looked at. */
  predicate LastOfKey(w: Board)
  {
    w.rx.InPayload? && w.rx.command == F.KEY_PACKET && w.rx.left == 1 && w.keys.remote && !w.keys.preparing
  }

  /** A buffer with something to feed, of which the publication is not clean. */
  function Breaker(w: Board): seq<byte>
  {
    match w.rx
    case Idle => if w.keys.preparing then [POLL_REPLY, 1, w.keys.token] else [F.KEY_PACKET, 0]
    case HaveCommand(c) => [if c == F.KEY_PACKET then 4 else if c == F.SETTINGS_PACKET then 5 else 1]
    case InPayload(_, _, left, _) =>
      if left > 1 then [0] else if LastOfKey(w) then [2] else [if w.keys.token == 0x80 then 0x82 else 0x80, 1, 0x80]
  }

  /** Exactly when every publication that finds something to feed leaves the parser idle and publishes at most one event,
      faults included: no more than one release is in store or no packet can set them off, and the parser is idle or wants
      but the last byte of a key.  Of publications that may also find nothing, the parser must be idle. */
  lemma PublishesCleanlyExactly(w: Board)
    requires !w.faulted && w.keys.listening && F.Shaped(w.rx)
    ensures (forall s :: Complete(s) ==> CleanPublish(w, s)) <==> (w.rx == F.Idle || LastOfKey(w)) && Quiet(w.keys)
    ensures (forall s :: CleanPublish(w, s)) <==> w.rx == F.Idle && Quiet(w.keys)
  {
    hide PublishFrom, CleanupEvents, F.Step, Complete;
    if w.rx == F.Idle && Quiet(w.keys) {
      forall s ensures CleanPublish(w, s) { PublishBounded(w, s); }
    } else {
      PublishEnd(w, []);
      assert !Complete([]) by { CompleteIsSome([]); }
      assert w.rx != F.Idle ==> !CleanPublish(w, []);
    }
    if (w.rx == F.Idle || LastOfKey(w)) && Quiet(w.keys) {
      forall s | Complete(s) ensures CleanPublish(w, s) {
        if w.rx == F.Idle { PublishBounded(w, s); } else { KeyEnds(w, s); }
      }
    } else {
      BreakerBreaks(w);
    }
  }

  /** The last byte of a key packet: one event, or a fault. */
  lemma KeyEnds(w: Board, s: seq<byte>)
    requires !w.faulted && w.keys.listening && F.Shaped(w.rx) && LastOfKey(w) && Complete(s) && Quiet(w.keys)
    ensures CleanPublish(w, s)
  {
    hide CleanupEvents;
    var n := UnitLength(s);
    var u := s[..n];
    var f := F.Frame(F.KEY_PACKET, w.rx.kept + [u[0]]);
    var w1 := FeedByte(w, u[0]);
    assert w1 == Dispatch(w.(rx := F.Idle), f);
    assert FeedAll(w, u) == FeedAll(w1, u[1..]);
    PublishStep(w, s);
    if w1.faulted {
      FeedNothing(w1, u[1..]);
      FaultBounded(w.(rx := F.Idle));
      assert w1 == Faulted(w.(rx := F.Idle));
      PublishEnd(w1, s[n..]);
    } else {
      assert u[1..] == [];
    }
  }

  lemma BreakerBreaks(w: Board)
    requires !w.faulted && w.keys.listening && F.Shaped(w.rx) && !((w.rx == F.Idle || LastOfKey(w)) && Quiet(w.keys))
    ensures Complete(Breaker(w)) && !CleanPublish(w, Breaker(w))
  {
    hide CleanupEvents;
    if w.rx == F.Idle {
      if w.keys.preparing { AnswerReleases(w); } else { MalformedReleases(w); }
    } else if |Breaker(w)| == 1 {
      OneByte(w, Breaker(w)[0]);
    } else {
      EndThenBegin(w, Breaker(w));
    }
  }

  lemma OneByte(w: Board, b: byte)
    requires !w.faulted && b < 0x80
    ensures Complete([b]) && UnitLength([b]) == 1
    ensures PublishFrom(w, [b]) == FeedByte(w, b)
  {
    hide FeedByte;
    assert [b][..1] == [b] && [b][1..] == [];
    var w' := FeedByte(w, b);
    assert FeedAll(w, [b]) == w';
    PublishEnd(w', []);
    PublishStep(w, [b]);
  }

  /** A packet of which the first byte ends what the parser is in, and the last one begins something new. */
  lemma EndThenBegin(w: Board, s: seq<byte>)
    requires !w.faulted && w.keys.listening && F.Shaped(w.rx) && w.rx.InPayload? && w.rx.left == 1 && !LastOfKey(w)
    requires |s| == 3 && s[1..] == [1, 0x80] && s[0] >= 0x80 && s[0] != w.keys.token
    ensures PublishFrom(w, s).rx == F.HaveCommand(0x80)
  {
    hide CleanupEvents;
    assert s[..3] == s && s[3..] == [] && s[1] == s[1..][0] == 1 && s[1..][1..] == [0x80];
    var w1 := FeedByte(w, s[0]);
    assert w1 == w.(rx := F.Idle);
    var w2 := FeedByte(w1, 1);
    assert w2 == w1;
    var w3 := FeedByte(w2, 0x80);
    assert FeedAll(w2, [0x80]) == w3 by { assert [0x80 as byte][1..] == []; }
    assert FeedAll(w1, s[1..]) == FeedAll(w2, s[1..][1..]);
    assert FeedAll(w, s) == FeedAll(w1, s[1..]);
    PublishEnd(w3, []);
    PublishStep(w, s);
  }

  /** And exactly when the same holds of all publications that end without a fault. */
  lemma PublishesWithoutFaultExactly(w: Board)
    requires !w.faulted && w.keys.listening && w.rx == F.Idle
    ensures (forall s :: PublishFrom(w, s).faulted || CleanPublish(w, s)) <==> NoAnswerDue(w.keys)
  {
    hide CleanupEvents, PublishFrom;
    if NoAnswerDue(w.keys) {
      forall s ensures PublishFrom(w, s).faulted || CleanPublish(w, s) { PublishBounded(w, s); }
    } else {
      AnswerReleases(w);
      assert !CleanPublish(w, [POLL_REPLY, 1, w.keys.token]);
    }
  }

  lemma FeedByteKeepsShape(w: Board, b: byte)
    requires F.Shaped(w.rx)
    ensures F.Shaped(FeedByte(w, b).rx)
  {
    hide F.Step, CleanupEvents;
    F.StepKeepsShape(w.rx, b);
  }

  lemma {:induction false} FeedKeepsShape(w: Board, s: seq<byte>)
    requires F.Shaped(w.rx)
    ensures F.Shaped(FeedAll(w, s).rx)
    decreases |s|
  {
    hide FeedByte, F.Shaped;
    if s != [] {
      FeedByteKeepsShape(w, s[0]);
      FeedKeepsShape(FeedByte(w, s[0]), s[1..]);
    }
  }

  // --------------------------------------------------------------------------------- one key, exactly

  /** An event of the log comes from a key packet that was completed. */
  ghost predicate FromFrame(e: Event, done: seq<F.Frame>)
  {
    exists f :: f in done && f.command == F.KEY_PACKET && |f.payload| == 4 && f.payload[3] <= 1
                && e == Event(f.payload[1], f.payload[2], f.payload[3] == 1)
  }

  /** Absent a fault and a change of source, parser and log follow the framing. */
  lemma {:induction false} FeedFollowsRun(w: Board, s: seq<byte>)
    requires w.keys.listening && !w.keys.preparing && !FeedAll(w, s).faulted
    ensures var o := F.Run(w.rx, s); var r := FeedAll(w, s);
            && o.Going? && r.rx == o.next && |w.log| <= |r.log|
            && forall i :: |w.log| <= i < |r.log| ==> FromFrame(r.log[i], o.done)
    decreases |s|
  {
    if s != [] {
      hide CleanupEvents, F.Step;
      var w' := FeedByte(w, s[0]);
      if w'.faulted { FeedNothing(w', s[1..]); assert false; }
      FeedFollowsRun(w', s[1..]);
      var o, o' := F.Run(w.rx, s), F.Run(w'.rx, s[1..]);
      var done := F.Step(w.rx, s[0]).done;
      var r := FeedAll(w, s);
      forall i | |w.log| <= i < |r.log| ensures FromFrame(r.log[i], o.done) {
        if i < |w'.log| {
          LogKept(w', s[1..], i);
          assert done[0] in o.done;
        } else {
          assert forall f :: f in o'.done ==> f in o.done;
        }
      }
    }
  }

  lemma {:induction false} LogKept(w: Board, s: seq<byte>, i: nat)
    requires i < |w.log|
    ensures i < |FeedAll(w, s).log| && FeedAll(w, s).log[i] == w.log[i]
    decreases |s|
  {
    hide CleanupEvents, F.Step;
    if s != [] { LogKept(FeedByte(w, s[0]), s[1..], i); }
  }

  /** The key of packet `p` is published, and nothing else happens. */
  ghost predicate KeyArrives(w: Board, p: seq<byte>)
    requires |p| == 4
  {
    var r := PublishFrom(w, F.KeyPacket(p));
    !r.faulted && r.rx == F.Idle && r.log == w.log + [Event(p[1], p[2], p[3] == 1)]
  }

  lemma PublishPacket(w: Board, p: seq<byte>)
    requires |p| == 4 && !w.faulted
    ensures PublishFrom(w, F.KeyPacket(p)) == FeedAll(w, F.KeyPacket(p)) && PublishRead(w, F.KeyPacket(p)) == 6
    ensures Complete(F.KeyPacket(p)) && UnitLength(F.KeyPacket(p)) == 6
  {
    hide FeedAll;
    var u := F.KeyPacket(p);
    assert u[..6] == u && u[6..] == [];
  }

  lemma ArrivalDelivers(w: Board, p: seq<byte>)
    requires w.keys.listening && !w.keys.preparing && !w.faulted && |p| == 4 && p[3] <= 1 && KeyArrives(w, p)
    ensures F.Delivers(F.Run(w.rx, F.KeyPacket(p)), p)
  {
    hide FeedAll, PublishFrom, F.Run;
    var s := F.KeyPacket(p);
    PublishPacket(w, p);
    FeedFollowsRun(w, s);
    var r := FeedAll(w, s);
    assert FromFrame(r.log[|w.log|], F.Run(w.rx, s).done);
    var f :| f in F.Run(w.rx, s).done && f.command == F.KEY_PACKET && |f.payload| == 4 && f.payload[3] <= 1
             && r.log[|w.log|] == Event(f.payload[1], f.payload[2], f.payload[3] == 1);
    assert f.payload[1..] == p[1..];
  }

  /** A key in the return buffer arrives, as itself and alone, if and only if the parser is idle when it is published. */
  lemma KeyArrivesExactly(w: Board, p: seq<byte>)
    requires F.Shaped(w.rx) && !w.faulted && w.keys.listening && w.keys.remote && !w.keys.preparing
    requires |p| == 4 && p[2] <= KEY_MAX && p[3] <= 1
    ensures KeyArrives(w, p) <==> w.rx == F.Idle
  {
    hide FeedAll, PublishFrom, F.Run;
    var s := F.KeyPacket(p);
    PublishPacket(w, p);
    if w.rx == F.Idle {
      UnitDone(w, s);
      assert s[2..6] == p;
    } else if KeyArrives(w, p) {
      F.KeyPacketNeedsIdle(w.rx, p);
      ArrivalDelivers(w, p);
    }
  }

  /** The key that is lost: it comes while the parser is 3 bytes into a control reply of 16. */
  lemma BusyParserSwallowsKey(w: Board, kept: seq<byte>, p: seq<byte>)
    requires !w.faulted && w.keys.listening && |kept| == 3 && |p| == 4 && w.rx == F.InPayload(0xFF, 16, 13, kept)
    ensures PublishFrom(w, F.KeyPacket(p)) == w.(rx := F.InPayload(0xFF, 16, 7, kept + F.KeyPacket(p)))
  {
    PublishPacket(w, p);
    FeedInside(w, F.KeyPacket(p));
  }

  lemma {:induction false} FeedInside(w: Board, s: seq<byte>)
    requires !w.faulted && w.keys.listening && w.rx.InPayload? && |s| < w.rx.left && |w.rx.kept| + |s| <= F.PAYLOAD_LIMIT
    ensures FeedAll(w, s) == w.(rx := F.InPayload(w.rx.command, w.rx.length, w.rx.left - |s|, w.rx.kept + s))
    decreases |s|
  {
    hide Dispatch, Faulted, CleanupEvents;
    if s == [] {
      assert w.rx.kept + s == w.rx.kept;
    } else {
      FeedInside(FeedByte(w, s[0]), s[1..]);
      assert (w.rx.kept + [s[0]]) + s[1..] == w.rx.kept + s;
    }
  }
}
