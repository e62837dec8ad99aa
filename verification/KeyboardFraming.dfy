/** The framing of the packet stream that the keyboard receiver parses: a command byte with its top bit
    set, a length, and that many payload bytes. */
module KeyboardFraming {
  import opened Bytes

  const PAYLOAD_LIMIT: int := 240
  const KEY_PACKET: byte := 0x81
  const SETTINGS_PACKET: byte := 0x88

  datatype Frame = Frame(command: byte, payload: seq<byte>)

  /** The receiver between two bytes.  `left` bytes of the payload are still to come; `kept` is what has
      been stored of it. */
  datatype Parser =
    | Idle
    | HaveCommand(command: byte)
    | InPayload(command: byte, length: byte, left: int, kept: seq<byte>)

  /** What one byte does: the next state, and the frame it completes if any.  A key or settings packet of
      the wrong length is a fault. */
  datatype Outcome = Going(next: Parser, done: seq<Frame>) | Fault

  predicate WrongLength(command: byte, length: byte)
  {
    (command == KEY_PACKET && length != 4) || (command == SETTINGS_PACKET && length != 5)
  }

  function Step(p: Parser, b: byte): Outcome
  {
    match p
    case Idle => Going(if b >= 0x80 then HaveCommand(b) else Idle, [])
    case HaveCommand(c) =>
      if WrongLength(c, b) then Fault
      else Going(if b == 0 then Idle else InPayload(c, b, b, []), [])
    case InPayload(c, n, left, kept) =>
      var kept' := if |kept| < PAYLOAD_LIMIT then kept + [b] else kept;
      if left == 1 then Going(Idle, if n <= PAYLOAD_LIMIT then [Frame(c, kept')] else [])
      else Going(InPayload(c, n, left - 1, kept'), [])
  }

  /** The states a receiver can be in. */
  predicate Shaped(p: Parser)
  {
    match p
    case Idle => true
    case HaveCommand(c) => c >= 0x80
    case InPayload(c, n, left, kept) =>
      c >= 0x80 && !WrongLength(c, n) && 1 <= left <= n && |kept| == if n - left < PAYLOAD_LIMIT then n - left else PAYLOAD_LIMIT
  }

  function Run(p: Parser, bytes: seq<byte>): Outcome
    decreases |bytes|
  {
    if bytes == [] then Going(p, [])
    else
      match Step(p, bytes[0])
      case Fault => Fault
      case Going(next, done) =>
        match Run(next, bytes[1..])
        case Fault => Fault
        case Going(end, more) => Going(end, done + more)
  }

  // ------------------------------------------------------------------------------ the sending side

  predicate WellFormed(f: Frame)
  {
    f.command >= 0x80 && |f.payload| < 256 && !WrongLength(f.command, |f.payload|)
  }

  function Serialize(f: Frame): seq<byte>
    requires |f.payload| < 256
  {
    [f.command, |f.payload|] + f.payload
  }

  /** A stream: frames, with bytes that are no frame headers strewn in between. */
  datatype Item = Noise(b: byte) | Packet(frame: Frame)

  predicate Sendable(item: Item)
  {
    match item
    case Noise(b) => b < 0x80
    case Packet(f) => WellFormed(f)
  }

  function Stream(items: seq<Item>): seq<byte>
    requires forall k :: 0 <= k < |items| ==> Sendable(items[k])
  {
    if items == [] then []
    else assert Sendable(items[0]); (match items[0] case Noise(b) => [b] case Packet(f) => Serialize(f)) + Stream(items[1..])
  }

  predicate Deliverable(f: Frame) { 1 <= |f.payload| <= PAYLOAD_LIMIT }

  function Expected(items: seq<Item>): seq<Frame>
  {
    if items == [] then []
    else (if items[0].Packet? && Deliverable(items[0].frame) then [items[0].frame] else []) + Expected(items[1..])
  }

  lemma {:induction false} RunConcat(p: Parser, a: seq<byte>, b: seq<byte>)
    ensures Run(p, a + b) == match Run(p, a)
                             case Fault => Fault
                             case Going(q, done) => (match Run(q, b) case Fault => Fault case Going(r, more) => Going(r, done + more))
    decreases |a|
  {
    if a == [] {
      assert a + b == b;
    } else {
      assert (a + b)[1..] == a[1..] + b;
      match Step(p, a[0])
      case Fault =>
      case Going(next, done) =>
        RunConcat(next, a[1..], b);
        match Run(next, a[1..])
        case Fault =>
        case Going(q, more) =>
          match Run(q, b)
          case Fault =>
          case Going(r, last) => assert done + (more + last) == (done + more) + last;
    }
  }

  /** The payload is taken by count: no byte of it is looked at as a header. */
  lemma {:induction false} RunPayload(command: byte, length: byte, kept: seq<byte>, rest: seq<byte>)
    requires rest != []
    ensures Run(InPayload(command, length, |rest|, kept), rest)
         == Going(Idle, if length <= PAYLOAD_LIMIT then [Frame(command, Kept(kept, rest))] else [])
    decreases |rest|
  {
    if |rest| == 1 {
      assert rest[1..] == [];
    } else {
      var kept' := if |kept| < PAYLOAD_LIMIT then kept + [rest[0]] else kept;
      RunPayload(command, length, kept', rest[1..]);
    }
  }

  /** What is stored when `rest` arrives after `kept`. */
  function Kept(kept: seq<byte>, rest: seq<byte>): seq<byte>
    decreases |rest|
  {
    if rest == [] then kept
    else Kept(if |kept| < PAYLOAD_LIMIT then kept + [rest[0]] else kept, rest[1..])
  }

  lemma {:induction false} KeptWhole(kept: seq<byte>, rest: seq<byte>)
    requires |kept| + |rest| <= PAYLOAD_LIMIT
    ensures Kept(kept, rest) == kept + rest
    decreases |rest|
  {
    if rest == [] {
      assert kept + rest == kept;
    } else {
      KeptWhole(kept + [rest[0]], rest[1..]);
      assert kept + [rest[0]] + rest[1..] == kept + rest;
    }
  }

  lemma RunFrame(f: Frame)
    requires WellFormed(f)
    ensures Run(Idle, Serialize(f)) == Going(Idle, if Deliverable(f) then [f] else [])
  {
    var s := Serialize(f);
    assert s[0] == f.command && s[1..][0] == |f.payload| && s[1..][1..] == f.payload;
    var body := if f.payload == [] then Idle else InPayload(f.command, |f.payload|, |f.payload|, []);
    assert Step(HaveCommand(f.command), |f.payload|) == Going(body, []);
    assert Run(HaveCommand(f.command), s[1..]) == match Run(body, f.payload) case Fault => Fault case Going(end, more) => Going(end, [] + more);
    assert Run(Idle, s) == match Run(HaveCommand(f.command), s[1..]) case Fault => Fault case Going(end, more) => Going(end, [] + more);
    if f.payload != [] {
      RunPayload(f.command, |f.payload|, [], f.payload);
      if |f.payload| <= PAYLOAD_LIMIT {
        KeptWhole([], f.payload);
        assert [] + f.payload == f.payload;
      }
    }
  }

  /** Round trip: an idle receiver that is fed any stream of well-formed frames and noise delivers exactly
      the frames with 1 to 240 bytes of payload, in order and unchanged, and is idle again. */
  lemma {:induction false} RoundTrip(items: seq<Item>)
    requires forall k :: 0 <= k < |items| ==> Sendable(items[k])
    ensures Run(Idle, Stream(items)) == Going(Idle, Expected(items))
  {
    if items != [] {
      RoundTrip(items[1..]);
      var head := match items[0] case Noise(b) => [b] case Packet(f) => Serialize(f);
      RunConcat(Idle, head, Stream(items[1..]));
      assert Sendable(items[0]);
      match items[0]
      case Noise(b) => assert head[1..] == [];
      case Packet(f) => RunFrame(f);
    }
  }

  lemma StepKeepsShape(p: Parser, b: byte)
    requires Shaped(p)
    ensures Step(p, b).Going? ==> Shaped(Step(p, b).next)
  {
  }

  function KeyPacket(p: seq<byte>): seq<byte>
    requires |p| == 4
  {
    [KEY_PACKET, 4] + p
  }

  /** Bytes that do not complete the payload leave the receiver inside it. */
  lemma {:induction false} StaysInside(c: byte, n: byte, left: int, kept: seq<byte>, s: seq<byte>)
    requires |s| < left
    ensures Run(InPayload(c, n, left, kept), s) == Going(InPayload(c, n, left - |s|, Kept(kept, s)), [])
    decreases |s|
  {
    hide Step;
    if s != [] {
      var more := if |kept| < PAYLOAD_LIMIT then kept + [s[0]] else kept;
      assert Step(InPayload(c, n, left, kept), s[0]) == Going(InPayload(c, n, left - 1, more), []) by { StepInside(c, n, left, kept, s[0]); }
      StaysInside(c, n, left - 1, more, s[1..]);
      assert Kept(kept, s) == Kept(more, s[1..]);
    }
  }

  lemma StepInside(c: byte, n: byte, left: int, kept: seq<byte>, b: byte)
    requires left > 1
    ensures Step(InPayload(c, n, left, kept), b)
            == Going(InPayload(c, n, left - 1, if |kept| < PAYLOAD_LIMIT then kept + [b] else kept), [])
  {
  }

  /** How much of a frame has been seen. */
  function Seen(p: Parser): nat
  {
    match p
    case Idle => 0
    case HaveCommand(_) => 1
    case InPayload(_, _, _, kept) => 2 + |kept|
  }

  /** Every frame that is completed was paid for by the bytes that came. */
  lemma {:induction false} FramesNeedBytes(p: Parser, s: seq<byte>)
    ensures Run(p, s).Going? ==> forall f :: f in Run(p, s).done ==> |f.payload| + 2 <= Seen(p) + |s|
    decreases |s|
  {
    if s != [] && Step(p, s[0]).Going? {
      FramesNeedBytes(Step(p, s[0]).next, s[1..]);
    }
  }

  /** The one way in which a tail of a payload and the start of a key packet are that packet again. */
  lemma OverlapsItself(p: seq<byte>, kept: seq<byte>, left: nat)
    requires |p| == 4 && p[3] <= 1 && 1 <= left <= 4 && |kept| == 4 - left && p[1..] == (kept + KeyPacket(p)[..left])[1..]
    ensures left == 3 && KeyPacket(p)[left..] == [KEY_PACKET, 4, p[3]]
  {
    var head := KeyPacket(p)[..left];
    var whole := kept + head;
    assert p[1] == p[1..][0] == whole[1] && p[2] == p[1..][1] == whole[2] && p[3] == p[1..][2] == whole[3];
    assert whole[3] == head[left - 1] == KeyPacket(p)[left - 1];
    assert left == 3 ==> whole[1] == head[0] && whole[2] == head[1];
  }

  /** The key of packet `p` has come through, and nothing is left half done.  The first byte is no part of a key. */
  ghost predicate Delivers(o: Outcome, p: seq<byte>)
    requires |p| == 4
  {
    o.Going? && o.next == Idle
    && exists f :: f in o.done && f.command == KEY_PACKET && |f.payload| == 4 && f.payload[1..] == p[1..]
  }

  /** A key packet that begins inside a payload. */
  lemma KeyPacketInside(r: Parser, p: seq<byte>)
    requires Shaped(r) && r.InPayload? && |p| == 4 && p[3] <= 1
    ensures !Delivers(Run(r, KeyPacket(p)), p)
  {
    hide Run, Step, Kept;
    var s := KeyPacket(p);
    var c, n, left, kept := r.command, r.length, r.left, r.kept;
    if left > 6 {
      StaysInside(c, n, left, kept, s);
    } else {
      var head, rest := s[..left], s[left..];
      assert s == head + rest;
      RunConcat(r, head, rest);
      RunPayload(c, n, kept, head);
      FramesNeedBytes(Idle, rest);
      if n <= PAYLOAD_LIMIT {
        KeptWhole(kept, head);
        var first := Frame(c, kept + head);
        if first.command == KEY_PACKET && |first.payload| == 4 && first.payload[1..] == p[1..] {
          OverlapsItself(p, kept, left);
          HalfPacket(p[3]);
        }
      }
    }
  }

  lemma HalfPacket(b: byte)
    ensures Run(Idle, [KEY_PACKET, 4, b]) == Going(InPayload(KEY_PACKET, 4, 3, [b]), [])
  {
    var s := [KEY_PACKET, 4, b];
    assert s[1..] == [4, b] && s[1..][1..] == [b];
    KeptWhole([], [b]);
    assert [] + [b] == [b];
    assert Run(InPayload(KEY_PACKET, 4, 4, []), [b]) == Going(InPayload(KEY_PACKET, 4, 3, [b]), []) by {
      StaysInside(KEY_PACKET, 4, 4, [], [b]);
    }
    assert Run(HaveCommand(KEY_PACKET), [4, b]) == Going(InPayload(KEY_PACKET, 4, 3, [b]), []) by {
      assert [4, b][1..] == [b];
    }
  }

  /** Exactly an idle receiver takes a key packet for what it is: in every other state the key is lost or changed, or
      the receiver is left inside something. */
  lemma KeyPacketNeedsIdle(r: Parser, p: seq<byte>)
    requires Shaped(r) && |p| == 4 && p[3] <= 1
    ensures Delivers(Run(r, KeyPacket(p)), p) <==> r == Idle
    ensures r == Idle ==> Run(r, KeyPacket(p)) == Going(Idle, [Frame(KEY_PACKET, p)])
  {
    var s := KeyPacket(p);
    match r {
      case Idle =>
        assert Serialize(Frame(KEY_PACKET, p)) == s;
        RunFrame(Frame(KEY_PACKET, p));
        assert Frame(KEY_PACKET, p) in Run(r, s).done;
      case HaveCommand(c) =>
        if !WrongLength(c, KEY_PACKET) { StaysInside(c, KEY_PACKET, KEY_PACKET, [], s[1..]); }
      case InPayload(_, _, _, _) =>
        KeyPacketInside(r, p);
    }
  }
}
