/** The control packets of the admission exchange. */
module AdmissionPacket {
  import opened Bytes
  import opened Checksum

  const WRAP: nat := 0x1_0000_0000

  const HELLO: byte := 1
  const POLL: byte := 2
  const DECIDE: byte := 3
  const CLOSE: byte := 10

  function Put32(n: nat): (p: seq<byte>)
    ensures |p| == 4
  {
    [n % 256, n / 256 % 256, n / 256 / 256 % 256, n / 256 / 256 / 256 % 256]
  }

  function U32(p: seq<byte>): (n: nat)
    requires |p| == 4
    ensures n < WRAP
  {
    (p[0] as int) + 256 * ((p[1] as int) + 256 * ((p[2] as int) + 256 * (p[3] as int)))
  }

  lemma U32OfPut32(n: nat)
    requires n < WRAP
    ensures U32(Put32(n)) == n
  {
    var a := n / 256;
    var b := a / 256;
    var c := b / 256;
    assert n == n % 256 + 256 * a && a == a % 256 + 256 * b && b == b % 256 + 256 * c;
    assert c < 256 && c % 256 == c;
  }

  predicate Nonzero(p: seq<byte>)
  {
    exists i :: 0 <= i < |p| && p[i] != 0
  }

  lemma NonzeroMeans(p: seq<byte>)
    ensures Nonzero(p) <==> p != seq(|p|, _ => 0)
  {
    var zeros: seq<byte> := seq(|p|, _ => 0);
    if !Nonzero(p) { assert p == zeros; }
    if p == zeros { assert forall i :: 0 <= i < |p| ==> p[i] == zeros[i]; }
  }

  /** The check over a packet: the CRC-32 of what is around its own four bytes. */
  function Crc(p: seq<byte>): nat
    requires |p| == 48
  {
    Crc32(p[..16] + p[20..]) as nat
  }

  /** What the loop has been over. */
  function Covered(p: seq<byte>, n: nat): seq<byte>
    requires n <= |p| == 48
  {
    if n <= 16 then p[..n] else if n <= 20 then p[..16] else p[..16] + p[20..n]
  }

  lemma CoveredNext(p: seq<byte>, n: nat)
    requires n < |p| == 48
    ensures Covered(p, n + 1) == Covered(p, n) + if n < 16 || n >= 20 then [p[n]] else []
  {
    assert p[..16] + [] == p[..16];
  }

  /** `crc`, bit by bit. */
  method ComputeCrc(p: seq<byte>) returns (crc: nat)
    requires |p| == 48
    ensures crc == Crc(p)
  {
    hide CrcByte, InBits, CrcRun, Covered;
    var c: bv32 := 0xFFFFFFFF;
    CrcStart(p);
    for i := 0 to 48
      invariant c == CrcRun(0xFFFFFFFF, Covered(p, i))
    {
      CoveredNext(p, i);
      if i < 16 || i >= 20 {
        CrcRunSnoc(0xFFFFFFFF, Covered(p, i), p[i]);
        c := TakeByte(c, p[i]);
      } else {
        assert Covered(p, i) + [] == Covered(p, i);
      }
    }
    CoversAll(p);
    crc := (c ^ 0xFFFFFFFF) as nat;
  }

  lemma CrcStart(p: seq<byte>)
    requires |p| == 48
    ensures CrcRun(0xFFFFFFFF, Covered(p, 0)) == 0xFFFFFFFF
  {
  }

  lemma CoversAll(p: seq<byte>)
    requires |p| == 48
    ensures Covered(p, 48) == p[..16] + p[20..]
  {
    assert p[20..48] == p[20..];
  }

  /** Everything a control packet says about one admission. */
  datatype Identity = Identity(link: seq<byte>, generation: nat, job: seq<byte>, grant: seq<byte>, jobClass: byte) {
    predicate Shaped() { |link| == 8 && |job| == 4 && |grant| == 8 }
  }

  /** Bytes 20 to 45 of a packet. */
  function Body(id: Identity): (p: seq<byte>)
    requires id.Shaped()
    ensures |p| == 26
  {
    id.link + Put32(id.generation) + id.job + id.grant + [if Nonzero(id.job) then 1 else 0, id.jobClass]
  }

  /** Bytes 4 to 12: control session, sequence number, operation. */
  function Head(sequence: nat, op: byte): (p: seq<byte>)
    ensures |p| == 9
  {
    Put32(1) + Put32(sequence) + [op]
  }

  function Unchecked(op: byte, result: byte, sequence: nat, id: Identity): (p: seq<byte>)
    requires id.Shaped()
    ensures |p| == 48 && p[4..13] == Head(sequence, op) && p[12] == op && p[13] == result
    ensures op != HELLO ==> p[20..46] == Body(id)
  {
    var p := [83, 68, 1, 4] + Head(sequence, op) + [result, 28, 0, 0, 0, 0, 0] + (if op == HELLO then seq(26, _ => 0) else Body(id))
             + [if op == HELLO then 1 else 0, 0];
    assert p[20..46] == if op == HELLO then seq(26, _ => 0) else Body(id);
    p
  }

  function Packet(op: byte, result: byte, sequence: nat, id: Identity): (p: seq<byte>)
    requires id.Shaped()
    ensures |p| == 48 && p[4..13] == Head(sequence, op) && p[12] == op && p[13] == result
    ensures op != HELLO ==> p[20..46] == Body(id)
  {
    hide Crc, Put32, Body, Head, Unchecked;
    Sealed(Unchecked(op, result, sequence, id))
  }

  /** A packet with its check in place. */
  function Sealed(p: seq<byte>): (q: seq<byte>)
    requires |p| == 48
    ensures |q| == 48 && q[..16] == p[..16] && q[16..20] == Put32(Crc(p)) && q[20..] == p[20..]
    ensures q[4..13] == p[4..13] && q[12] == p[12] && q[13] == p[13] && q[20..46] == p[20..46]
  {
    hide Crc;
    p[..16] + Put32(Crc(p)) + p[20..]
  }

  /** The check does not depend on what stands in its own place. */
  lemma SealedIsChecked(p: seq<byte>)
    requires |p| == 48
    ensures Crc(Sealed(p)) == Crc(p) && U32(Sealed(p)[16..20]) == Crc(Sealed(p))
  {
    hide Crc32, Put32, U32;
    CrcIsWord(p);
    U32OfPut32(Crc(p));
  }

  lemma CrcIsWord(p: seq<byte>)
    requires |p| == 48
    ensures Crc(p) < WRAP
  {
    hide Crc32;
  }

  /** What every packet says, field by field. */
  ghost predicate Says(p: seq<byte>, op: byte, result: byte, sequence: nat)
    requires |p| == 48
  {
    hide Crc;
    && p[..4] == [83, 68, 1, 4] && U32(p[4..8]) == 1 && U32(p[8..12]) == sequence && p[12] == op && p[13] == result
    && p[14] == 28 && p[15] == 0 && U32(p[16..20]) == Crc(p) && p[46] == (if op == HELLO then 1 else 0) && p[47] == 0
  }

  /** And what it says of an admission. */
  ghost predicate Identifies(p: seq<byte>, op: byte, id: Identity)
    requires |p| == 48
  {
    if op == HELLO then forall i :: 20 <= i < 46 ==> p[i] == 0
    else
      && p[20..28] == id.link && U32(p[28..32]) == id.generation && p[32..36] == id.job && p[36..44] == id.grant
      && p[44] == (if id.job == [0, 0, 0, 0] then 0 else 1) && p[45] == id.jobClass
  }

  lemma PacketSays(op: byte, result: byte, sequence: nat, id: Identity)
    requires id.Shaped() && sequence < WRAP && id.generation < WRAP
    ensures Says(Packet(op, result, sequence, id), op, result, sequence) && Identifies(Packet(op, result, sequence, id), op, id)
  {
    hide Put32, U32, Crc, Body, Packet, Unchecked, Head, Nonzero;
    var p := Packet(op, result, sequence, id);
    PacketIsSealed(op, result, sequence, id);
    UncheckedSays(op, result, sequence, id);
    HeadSays(p, sequence, op);
    FirstFour(p);
    if op != HELLO { BodySays(p, id); }
  }

  /** Sealing leaves every other byte as it is. */
  lemma PacketIsSealed(op: byte, result: byte, sequence: nat, id: Identity)
    requires id.Shaped()
    ensures var p, u := Packet(op, result, sequence, id), Unchecked(op, result, sequence, id);
            && (forall i :: 0 <= i < 16 || 20 <= i < 48 ==> p[i] == u[i]) && U32(p[16..20]) == Crc(p)
  {
    hide Put32, U32, Crc, Body, Unchecked;
    var p, u := Packet(op, result, sequence, id), Unchecked(op, result, sequence, id);
    SealedIsChecked(u);
    assert p == Sealed(u) && p[..16] == u[..16] && p[20..] == u[20..];
    assert forall i :: 0 <= i < 16 ==> p[i] == p[..16][i] == u[i];
    assert forall i :: 20 <= i < 48 ==> p[i] == p[20..][i - 20] == u[i];
  }

  lemma UncheckedSays(op: byte, result: byte, sequence: nat, id: Identity)
    requires id.Shaped()
    ensures var u := Unchecked(op, result, sequence, id);
            && u[0] == 83 && u[1] == 68 && u[2] == 1 && u[3] == 4 && u[14] == 28 && u[15] == 0 && u[47] == 0
            && u[46] == (if op == HELLO then 1 else 0) && (op == HELLO ==> forall i :: 20 <= i < 46 ==> u[i] == 0)
  {
    hide Put32, Body, Head;
  }

  lemma FirstFour(p: seq<byte>)
    requires |p| == 48
    ensures p[..4] == [p[0], p[1], p[2], p[3]]
  {
  }

  lemma HeadSays(p: seq<byte>, sequence: nat, op: byte)
    requires |p| == 48 && sequence < WRAP && p[4..13] == Head(sequence, op)
    ensures U32(p[4..8]) == 1 && U32(p[8..12]) == sequence
  {
    hide Put32, U32, Crc;
    var head := p[4..13];
    SliceOfSlice(p, 4, 13, 0, 4);
    SliceOfSlice(p, 4, 13, 4, 8);
    assert head[0..4] == Put32(1);
    HeadParts(sequence, op);
    U32OfPut32(1);
    U32OfPut32(sequence);
  }

  lemma BodySays(p: seq<byte>, id: Identity)
    requires id.Shaped() && id.generation < WRAP && |p| == 48 && p[20..46] == Body(id)
    ensures p[20..28] == id.link && U32(p[28..32]) == id.generation && p[32..36] == id.job && p[36..44] == id.grant
    ensures p[44] == (if id.job == [0, 0, 0, 0] then 0 else 1) && p[45] == id.jobClass
  {
    hide Put32, U32;
    var body := p[20..46];
    SliceOfSlice(p, 20, 46, 0, 8);
    SliceOfSlice(p, 20, 46, 8, 12);
    SliceOfSlice(p, 20, 46, 12, 16);
    SliceOfSlice(p, 20, 46, 16, 24);
    BodyParts(id);
    U32OfPut32(id.generation);
    NonzeroMeans(id.job);
    assert seq(4, _ => 0) == [0 as byte, 0, 0, 0];
    assert p[44] == body[24] && p[45] == body[25];
  }

  /** A peer that says a packet back, as a reply and with a check of its own, gives the answer to it. */
  function Echo(tx: seq<byte>): seq<byte>
    requires |tx| == 48
  {
    Sealed(tx[3 := 5][46 := 0])
  }

  lemma EchoAnswers(op: byte, result: byte, sequence: nat, id: Identity)
    requires id.Shaped() && sequence < WRAP && id.generation < WRAP
    ensures var tx := Packet(op, result, sequence, id);
            Answers(Echo(tx), tx) && Echo(tx)[20..46] == tx[20..46] && Echo(tx)[46] == 0 && Echo(tx)[47] == 0
  {
    hide Put32, U32, Crc, Body, Packet;
    PacketSays(op, result, sequence, id);
    var tx := Packet(op, result, sequence, id);
    var e := tx[3 := 5][46 := 0];
    var rx := Echo(tx);
    SealedIsChecked(e);
    assert forall i :: 0 <= i < 16 ==> rx[i] == rx[..16][i] == e[i];
    assert forall i :: 20 <= i < 48 ==> rx[i] == rx[20..][i - 20] == e[i];
    assert tx[0] == tx[..4][0] && tx[1] == tx[..4][1] && tx[2] == tx[..4][2];
    assert rx[4..13] == tx[4..13] && rx[20..46] == tx[20..46];
  }

  /** A reply packet, whole and undamaged. */
  predicate Genuine(rx: seq<byte>)
    requires |rx| == 48
  {
    && rx[0] == 83 && rx[1] == 68 && rx[2] == 1 && rx[3] == 5 && rx[14] == 28 && rx[15] == 0
    && U32(rx[16..20]) == Crc(rx)
  }

  /** The reply answers this very request: same control session, sequence number and operation. */
  predicate Answers(rx: seq<byte>, tx: seq<byte>)
    requires |rx| == 48 && |tx| == 48
  {
    Genuine(rx) && rx[4..13] == tx[4..13]
  }

  /** The answer to the decision numbered so, with the whole identity of the claim. */
  predicate Confirms(rx: seq<byte>, id: Identity, sequence: nat)
    requires |rx| == 48
  {
    hide Crc;
    && Genuine(rx) && rx[13] == 0 && U32(rx[8..12]) == sequence && rx[12] == DECIDE
    && rx[20..28] == id.link && U32(rx[28..32]) == id.generation && rx[32..36] == id.job && rx[36..44] == id.grant && rx[45] == id.jobClass
  }

  lemma HeadParts(sequence: nat, op: byte)
    ensures Head(sequence, op)[4..8] == Put32(sequence) && Head(sequence, op)[8] == op
  {
  }

  lemma BodyParts(id: Identity)
    requires id.Shaped()
    ensures Body(id)[0..8] == id.link && Body(id)[8..12] == Put32(id.generation)
    ensures Body(id)[12..16] == id.job && Body(id)[16..24] == id.grant && Body(id)[25] == id.jobClass
  {
    hide Put32;
  }

  /** What a packet that repeats head and body of another says, field by field. */
  lemma EchoMeans(rx: seq<byte>, sequence: nat, op: byte, id: Identity)
    requires id.Shaped() && |rx| == 48 && sequence < WRAP && id.generation < WRAP
    requires rx[4..13] == Head(sequence, op) && rx[20..46] == Body(id)
    ensures U32(rx[8..12]) == sequence && rx[12] == op
    ensures rx[20..28] == id.link && U32(rx[28..32]) == id.generation && rx[32..36] == id.job && rx[36..44] == id.grant
    ensures rx[45] == id.jobClass
  {
    hide Put32, Head, Body, U32;
    var head, body := rx[4..13], rx[20..46];
    SliceOfSlice(rx, 4, 13, 4, 8);
    SliceOfSlice(rx, 20, 46, 0, 8);
    SliceOfSlice(rx, 20, 46, 8, 12);
    SliceOfSlice(rx, 20, 46, 12, 16);
    SliceOfSlice(rx, 20, 46, 16, 24);
    assert rx[12] == head[8] && rx[45] == body[25];
    HeadParts(sequence, op);
    BodyParts(id);
    U32OfPut32(sequence);
    U32OfPut32(id.generation);
  }
}

/** The idle-prompt admission of the finite utility. */
module Admission {
  import opened Bytes
  import opened AdmissionPacket

  datatype State = Off | HelloWait | Idle | PollWait | DecideWait | Claimed | Running
  datatype Mode = Legacy | ExclusiveCompat | OtherMode
  datatype Terminal = NoResult | Completed | Failed

  /** One grant: its number, and the generation it was made in. */
  datatype Claim = Claim(counter: nat, generation: nat)

  ghost predicate Rising(s: seq<nat>)
  {
    forall i, j :: 0 <= i < j < |s| ==> s[i] < s[j]
  }

  /** Neither part of a claim ever comes back. */
  ghost predicate NeverTwice(s: seq<Claim>)
  {
    forall i, j :: 0 <= i < j < |s| ==> s[i].counter < s[j].counter && s[i].generation < s[j].generation
  }

  ghost predicate Before(s: seq<Claim>, counter: nat, generation: nat)
  {
    forall i :: 0 <= i < |s| ==> s[i].counter < counter && s[i].generation < generation
  }

  /** What was dispatched had been granted. */
  ghost predicate AllIn(s: seq<Claim>, t: seq<Claim>)
  {
    forall i :: 0 <= i < |s| ==> s[i] in t
  }

  lemma OneMoreClaim(s: seq<Claim>, c: Claim)
    requires NeverTwice(s) && Before(s, c.counter, c.generation)
    ensures NeverTwice(s + [c]) && Before(s + [c], c.counter + 1, c.generation + 1)
  {
  }

  lemma MoreGranted(s: seq<Claim>, t: seq<Claim>, c: Claim)
    requires AllIn(s, t)
    ensures AllIn(s, t + [c])
  {
  }

  lemma OneMoreDispatched(s: seq<Claim>, t: seq<Claim>, c: Claim)
    requires AllIn(s, t) && c in t
    ensures AllIn(s + [c], t)
  {
  }

  lemma StillBefore(s: seq<Claim>, counter: nat, generation: nat, counter': nat, generation': nat)
    requires Before(s, counter, generation) && counter <= counter' && generation <= generation'
    ensures Before(s, counter', generation')
  {
  }

  lemma OneMoreNumber(s: seq<nat>, n: nat)
    requires Rising(s) && forall i :: 0 <= i < |s| ==> s[i] < n
    ensures Rising(s + [n])
  {
  }

  const NO_GRANT: seq<byte> := [0, 0, 0, 0, 0, 0, 0, 0]
  const NO_JOB: seq<byte> := [0, 0, 0, 0]
  const BUSY: int := 31
  const UNAVAILABLE: int := 35
  const TURNS: nat := 262144

  // ---------------------------------------------------------------- what each step makes of the state

  /** The console without the reply slot and the key counter, which belong to interrupts. */
  datatype Snapshot = Snapshot(state: State, caps: byte, modeSeen: Mode, lastTick: byte, sentAt: byte, retryAt: byte,
                               retrying: bool, tx: seq<byte>, waiting: bool, sequence: nat, id: Identity, grantCounter: nat,
                               spinBudget: nat, exhausted: bool, terminal: Terminal)

  /** What becomes of a packet: the clock when it was sent, and whether it went out whole. */
  datatype Sending = Sending(at: byte, delivered: bool)

  /** Every end of a claim. */
  function Retired(s: Snapshot, next: State, link: seq<byte>): Snapshot
  {
    var generation := (s.id.generation + 1) % WRAP;
    s.(state := next, waiting := false, id := Identity(link, generation, NO_JOB, NO_GRANT, 0), exhausted := s.exhausted || generation == 0)
  }

  function Started(s: Snapshot): Snapshot { Retired(s.(caps := 0, terminal := NoResult), Off, NO_GRANT) }

  /** A failure after which HELLO is tried again, but not at once. */
  function PutOff(s: Snapshot, at: byte): Snapshot { Started(s).(retrying := true, retryAt := at) }

  function Numbered(s: Snapshot): nat { (s.sequence + 1) % WRAP }

  function Sent(s: Snapshot, op: byte, result: byte, how: Sending): Snapshot
    requires s.id.Shaped()
  {
    var n := Numbered(s);
    if n == 0 then s.(sequence := 0, exhausted := true)
    else
      var t := s.(sequence := n, tx := Packet(op, result, n, s.id), waiting := true, sentAt := how.at, spinBudget := TURNS);
      if how.delivered then t else PutOff(t, how.at)
  }

  function Withdrawn(s: Snapshot): Snapshot { Retired(s, if s.caps != 0 then Idle else Off, s.id.link) }

  /** A key or an application comes first; the peer is told only of a grant that it may already have. */
  function Left(s: Snapshot, how: Sending): Snapshot
    requires s.id.Shaped()
  {
    Withdrawn(if s.state == DecideWait then Sent(s, CLOSE, 9, how) else s)
  }

  /** The answer to HELLO brings a link and capabilities. */
  function Linked(s: Snapshot, rx: seq<byte>, now: byte): Snapshot
    requires |rx| == 48
  {
    if LinkOffered(rx) then s.(state := Idle, caps := rx[46], id := s.id.(link := rx[20..28])) else PutOff(s, now)
  }

  function Granted(s: Snapshot, rx: seq<byte>): Snapshot
    requires |rx| == 48
  {
    var counter := s.grantCounter + 1;
    s.(state := DecideWait, grantCounter := counter,
       id := Identity(s.id.link, s.id.generation, rx[32..36], Put32(counter) + Put32(s.id.generation), rx[45]))
  }

  /** The answer to POLL: nothing to do, or a job that is granted unless a key came first, or nonsense. */
  function Polled(s: Snapshot, rx: seq<byte>, key: bool, how: Sending): Snapshot
    requires |rx| == 48 && s.id.Shaped()
  {
    if NoJob(rx) then s.(state := Idle)
    else if !JobOffered(rx) then Started(s)
    else if key then Left(s, how)
    else if s.grantCounter + 1 == WRAP then Started(s.(grantCounter := 0, exhausted := true))
    else Sent(Granted(s, rx), DECIDE, 0, how)
  }

  /** The answer to DECIDE. */
  function Decided(s: Snapshot, rx: seq<byte>, key: bool, how: Sending): Snapshot
    requires |rx| == 48 && s.id.Shaped()
  {
    if rx[13] != 0 then Started(s) else if key then Left(s, how) else s.(state := Claimed)
  }

  predicate Overdue(s: Snapshot, now: byte) { (now - s.sentAt) % 256 >= 24 || s.spinBudget % WRAP == 1 }

  function Unanswered(s: Snapshot, now: byte): Snapshot
  {
    var late := (now - s.sentAt) % 256 >= 24;
    var t := if late then s else s.(spinBudget := (s.spinBudget + WRAP - 1) % WRAP);
    if Overdue(s, now) then PutOff(t, now) else t
  }

  /** Whether an idle exchange goes on: once in a tick, with HELLO in Legacy mode only and not soon after a failure. */
  predicate RequestDue(s: Snapshot, now: byte, mode: Mode)
  {
    now != s.lastTick
    && (s.state == Idle || (s.state == Off && mode == Legacy && !(s.retrying && (now - s.retryAt) % 256 < 120)))
  }

  function Requested(s: Snapshot, now: byte, mode: Mode, how: Sending): Snapshot
    requires s.id.Shaped()
  {
    var t := s.(lastTick := now);
    if !RequestDue(s, now, mode) then t
    else if s.state == Off then Sent(t.(retrying := false, state := HelloWait), HELLO, 0, how)
    else Sent(t.(state := PollWait), POLL, 0, how)
  }

  /** The end of a run: the peer is told, the link is kept in Exclusive Compatible mode after a success, and the grant is
      gone. */
  function Outcome(outcome: int, told: bool): int { if outcome == 0 && !told then UNAVAILABLE else outcome }

  function Ended(s: Snapshot, outcome: int, mode: Mode, how: Sending): Snapshot
    requires s.id.Shaped()
  {
    var t := Sent(s, CLOSE, if outcome != 0 then 7 else 0, how);
    if Outcome(outcome, Numbered(s) != 0 && how.delivered) == 0 && mode == ExclusiveCompat then Withdrawn(t) else Started(t)
  }

  /** What interrupts and the wire do to one call at the prompt: the key count when it is first looked at, whether a reply
      is found in the slot and which, the key count when it is looked at again, and what becomes of packets sent. */
  datatype Happened = Happened(keys: byte, found: bool, rx: seq<byte>, keysAgain: byte, leaving: Sending, sending: Sending)

  /** A reply is taken, or the wait goes on. */
  function Answered(s: Snapshot, observed: byte, now: byte, e: Happened): Snapshot
    requires s.id.Shaped() && |e.rx| == 48 && |s.tx| == 48
  {
    hide Crc, Sent, Left, Started, PutOff;
    if !(e.found && Acceptable(s, e.rx)) then Unanswered(s, now)
    else
      var t := s.(waiting := false);
      match s.state
      case HelloWait => Linked(t, e.rx, now)
      case PollWait => Polled(t, e.rx, observed != e.keysAgain, e.sending)
      case _ => Decided(t, e.rx, observed != e.keysAgain, e.sending)
  }

  /** Whether the call goes on to the next request after a reply. */
  predicate Onward(s: Snapshot, e: Happened)
    requires |e.rx| == 48 && |s.tx| == 48
  {
    hide Crc;
    e.found && Acceptable(s, e.rx) && ((s.state == HelloWait && LinkOffered(e.rx)) || (s.state == PollWait && NoJob(e.rx)))
  }

  /** A call that was let through: an exchange that waits looks for its reply, and one that does not asks the next thing. */
  function Continued(s: Snapshot, observed: byte, now: byte, mode: Mode, e: Happened): Snapshot
    requires s.id.Shaped() && |e.rx| == 48 && |s.tx| == 48
  {
    hide Crc, Sent, Left, Started, PutOff;
    if s.state !in {HelloWait, PollWait, DecideWait} then Requested(s, now, mode, e.sending)
    else if Onward(s, e) then Requested(Answered(s, observed, now, e), now, mode, e.sending)
    else Answered(s, observed, now, e)
  }

  lemma OnlyTheReply(s: Snapshot, observed: byte, now: byte, mode: Mode, e: Happened, keys: byte, leaving: Sending)
    requires s.id.Shaped() && |e.rx| == 48 && |s.tx| == 48
    ensures Continued(s, observed, now, mode, e.(keys := keys, leaving := leaving)) == Continued(s, observed, now, mode, e)
  {
    hide Sent, Left, Started, PutOff, Requested, Crc;
  }

  /** What goes on after a reply depends on no packet sent before. */
  lemma OnwardSendsLater(s: Snapshot, observed: byte, now: byte, e: Happened, sending: Sending)
    requires s.id.Shaped() && |e.rx| == 48 && |s.tx| == 48 && Onward(s, e)
    ensures Onward(s, e.(sending := sending)) && Answered(s, observed, now, e.(sending := sending)) == Answered(s, observed, now, e)
  {
    hide Crc;
  }

  /** The gates: admission may be off, a key or a change of mode withdraws a claim, and ExCom needs its capability. */
  function Gated(s: Snapshot, mode: Mode, usable: bool, key: bool, leaving: Sending): (Snapshot, bool)
    requires s.id.Shaped()
  {
    if mode == OtherMode || s.exhausted || !usable then (if s.state == Off && s.caps == 0 then s else Started(s), false)
    else if key then (Left(s, leaving), false)
    else
      var t := if mode != s.modeSeen then Left(s, leaving).(modeSeen := mode) else s;
      (t, mode == Legacy || t.caps / 2 % 2 == 1)
  }

  /** The whole call at the prompt. */
  function Prompted(s: Snapshot, observed: byte, now: byte, mode: Mode, usable: bool, e: Happened): Snapshot
    requires s.id.Shaped() && |e.rx| == 48 && |s.tx| == 48
  {
    hide Crc;
    var (t, through) := Gated(s, mode, usable, observed != e.keys, e.leaving);
    if through then Continued(t, observed, now, mode, e) else t
  }

  /** What the packet in the slot has to be: it answers the latest packet and repeats the identity, or brings a job to a
      POLL. */
  predicate Acceptable(s: Snapshot, p: seq<byte>)
    requires |p| == 48 && |s.tx| == 48
  {
    && Answers(p, s.tx)
    && (s.state != HelloWait && (p[20..46] != s.tx[20..46] || p[46] != 0 || p[47] != 0) ==>
          && s.state == PollWait && p[20..28] == s.id.link && U32(p[28..32]) == s.id.generation
          && !Nonzero(p[36..44]) && p[46] == 0 && p[47] == 0)
  }

  lemma AcceptableAnyhow(s: Snapshot, waiting: bool, p: seq<byte>)
    requires |p| == 48 && |s.tx| == 48
    ensures Acceptable(s.(waiting := waiting), p) == Acceptable(s, p)
  {
  }

  lemma AcceptableAtDecide(s: Snapshot, p: seq<byte>)
    requires |p| == 48 && |s.tx| == 48 && s.state == DecideWait && Acceptable(s, p)
    ensures Answers(p, s.tx) && p[20..46] == s.tx[20..46]
  {
  }

  /** An answer to HELLO that makes a link: a nonzero incarnation, nothing else said, and the capabilities wanted. */
  predicate LinkOffered(rx: seq<byte>)
    requires |rx| == 48
  {
    && rx[13] == 0 && Nonzero(rx[20..28]) && !Nonzero(rx[28..46]) && rx[47] == 0
    && rx[46] % 2 == 1 && rx[46] / 4 % 2 == 1 && rx[46] < 16
  }

  /** An answer to POLL with nothing to do, and one with a job. */
  predicate NoJob(rx: seq<byte>)
    requires |rx| == 48
  {
    rx[13] == 1 && !Nonzero(rx[32..36]) && rx[44] == 0 && rx[45] == 0
  }

  predicate JobOffered(rx: seq<byte>)
    requires |rx| == 48
  {
    rx[13] == 0 && Nonzero(rx[32..36]) && rx[44] == 1 && 1 <= rx[45] <= 8
  }

  class Console {
    var state: State
    var caps: byte
    var modeSeen: Mode
    var lastTick: byte
    var sentAt: byte
    var retryAt: byte
    var retrying: bool
    var tx: seq<byte>                  // the packet, without its four bytes of framing
    var rx: seq<byte>
    var received: bool
    var waiting: bool
    var sequence: nat
    var id: Identity                   // link, id.generation, job, grant and class of the job
    var grantCounter: nat
    var spinBudget: nat
    var exhausted: bool
    var terminal: Terminal
    var keycount: byte                 // counted by the keyboard interrupt
    ghost var transmitted: seq<nat>    // sequence numbers put on the wire
    ghost var claims: seq<Claim>       // grants made
    ghost var dispatched: seq<Claim>   // grants the utility was run for
    ghost var seenAtClaim: (byte, byte)    // what the prompt had observed, and the key count, when the claim was made

    ghost predicate Shaped()
      reads `tx, `rx, `id, `sequence, `grantCounter
    {
      && |tx| == 48 && |rx| == 48 && id.Shaped()
      && sequence < WRAP && id.generation < WRAP && grantCounter < WRAP
    }

    /** Until something has wrapped around, sequence numbers only go up. */
    ghost predicate SentOk()
      reads `transmitted, `sequence, `exhausted
    {
      !exhausted ==> Rising(transmitted) && forall i :: 0 <= i < |transmitted| ==> transmitted[i] <= sequence
    }

    /** No grant and no generation is claimed twice, and none is dispatched twice. */
    ghost predicate ClaimsOk()
      reads `claims, `dispatched, `state, `grantCounter, `id, `exhausted
    {
      && NeverTwice(claims) && NeverTwice(dispatched) && AllIn(dispatched, claims)
      && (state == Claimed ==> !exhausted)
      && (!exhausted ==>
            if state in {DecideWait, Claimed} then
              && Before(claims, grantCounter + 1, id.generation + 1) && Before(dispatched, grantCounter, id.generation)
              && claims != [] && claims[|claims| - 1] == Claim(grantCounter, id.generation)
            else
              var limit := if state == Running then id.generation + 1 else id.generation;
              Before(claims, grantCounter + 1, limit) && Before(dispatched, grantCounter + 1, limit))
    }

    /** A wait is for the answer to the latest packet, which names the present identity; with no claim there is no job. */
    ghost predicate TxOk()
      requires |tx| == 48 && id.Shaped()
      reads `tx, `id, `sequence, `grantCounter, `state, `exhausted
    {
      && (state in {HelloWait, PollWait, DecideWait} && !exhausted ==>
            && tx[4..13] == Head(sequence, Op(state))
            && (state != HelloWait ==> tx[20..46] == Body(id)))
      && (state in {DecideWait, Claimed} ==> id.grant == Put32(grantCounter) + Put32(id.generation))
      && (state in {Off, HelloWait, Idle, PollWait} ==> id.job == NO_JOB && id.grant == NO_GRANT && id.jobClass == 0)
    }

    static function Op(s: State): byte { if s == HelloWait then HELLO else if s == PollWait then POLL else DECIDE }

    /** The acknowledgement in hand: it repeats the number of the latest packet and the whole identity of the claim, and
        no key had come between what the prompt observed and the claim. */
    ghost predicate Acked()
      requires Shaped()
      reads `tx, `rx, `id, `sequence, `grantCounter, `seenAtClaim
    {
      hide Confirms;
      Confirms(rx, id, sequence) && seenAtClaim.0 == seenAtClaim.1
    }

    /** Only an answer to the packet that is out is ever in the slot. */
    ghost predicate SlotOk()
      requires |tx| == 48 && |rx| == 48
      reads `tx, `rx, `waiting, `received
    {
      received ==> waiting && rx[3] == 5 && rx[4..13] == tx[4..13]
    }

    ghost predicate Valid()
      reads `tx, `rx, `id, `sequence, `grantCounter, `received,
            `state, `exhausted, `seenAtClaim, `waiting, `transmitted, `claims, `dispatched
    {
      && Shaped() && SentOk() && ClaimsOk() && TxOk() && SlotOk()
      && (state == Claimed ==> !waiting && Acked())
    }

    ghost function View(): Snapshot
      reads `state, `caps, `modeSeen, `lastTick, `sentAt, `retryAt, `retrying, `tx, `waiting, `sequence, `id, `grantCounter,
            `spinBudget, `exhausted, `terminal
    {
      Snapshot(state, caps, modeSeen, lastTick, sentAt, retryAt, retrying, tx, waiting, sequence, id, grantCounter, spinBudget,
               exhausted, terminal)
    }

    constructor ()
      ensures Valid() && claims == [] && dispatched == [] && transmitted == [] && !received && keycount == 0
      ensures View() == Snapshot(Off, 0, OtherMode, 0, 0, 0, false, seq(48, _ => 0), false, 0, Identity(NO_GRANT, 1, NO_JOB, NO_GRANT, 0),
                                 0, 0, false, NoResult)
    {
      state, caps, modeSeen, lastTick, sentAt, retryAt, retrying := Off, 0, OtherMode, 0, 0, 0, false;
      tx, rx, id := seq(48, _ => 0), seq(48, _ => 0), Identity(NO_GRANT, 1, NO_JOB, NO_GRANT, 0);
      received, waiting, sequence, grantCounter, spinBudget := false, false, 0, 0, 0;
      exhausted, terminal, keycount := false, NoResult, 0;
      transmitted, claims, dispatched, seenAtClaim := [], [], [], (0, 0);
    }

    /** `emos_admission_packet`, in the interrupt: a copy, and only of an answer to the packet that is out. */
    method Receive(p: seq<byte>)
      requires |tx| == 48
      modifies `rx, `received
      ensures if old(waiting && !received) && |p| == 48 && p[3] == 5 && p[4..13] == tx[4..13] then received && rx == p
              else unchanged(`rx, `received)
    {
      if waiting && !received && |p| == 48 && p[3] == 5 && p[4..13] == tx[4..13] {
        rx := p;
        received := true;
      }
    }

    /** Keys and packets may come between any two steps of the foreground. */
    method Interrupt()
      requires |tx| == 48 && |rx| == 48 && SlotOk()
      modifies `rx, `received, `keycount
      ensures |rx| == 48 && SlotOk()
      ensures !old(waiting) || old(received) ==> unchanged(`rx, `received)
    {
      keycount := *;
      var p: seq<byte> := *;
      Receive(p);
    }

    /** Between calls, keys and packets change nothing that admission rests on. */
    method Idling()
      requires Valid()
      modifies `rx, `received, `keycount
      ensures Valid() && (old(received) ==> unchanged(`rx, `received))
    {
      hide ClaimsOk, SentOk, Genuine, Body, Head, U32;
      Interrupt();
    }

    method ClearWait()
      modifies `waiting, `received
      ensures !waiting && !received
    {
      waiting, received := false, false;
    }

    /** What ends every claim: job and grant forgotten, a new generation; when those run out, admission is over. */
    method Retire(next: State, link: seq<byte>)
      requires Shaped() && ClaimsOk() && |link| == 8 && next in {Off, Idle} && !waiting
      modifies `state, `id, `exhausted
      ensures Shaped() && ClaimsOk() && View() == Retired(old(View()), next, link)
    {
      hide Before, NeverTwice, AllIn, View, Retired;
      if !exhausted {
        if state in {DecideWait, Claimed} {
          StillBefore(dispatched, grantCounter, id.generation, grantCounter + 1, id.generation + 1);
        } else if state != Running {
          StillBefore(claims, grantCounter + 1, id.generation, grantCounter + 1, id.generation + 1);
          StillBefore(dispatched, grantCounter + 1, id.generation, grantCounter + 1, id.generation + 1);
        }
      }
      Forget(next, link);
    }

    method Forget(next: State, link: seq<byte>)
      requires !waiting
      modifies `state, `id, `exhausted
      ensures state == next && id == Identity(link, (old(id).generation + 1) % WRAP, NO_JOB, NO_GRANT, 0)
      ensures exhausted == (old(exhausted) || id.generation == 0) && View() == Retired(old(View()), next, link)
    {
      state := next;
      id := Identity(link, (id.generation + 1) % WRAP, NO_JOB, NO_GRANT, 0);
      if id.generation == 0 { exhausted := true; }
    }

    /** `emos_admission_reset` */
    method Reset()
      requires Shaped() && SentOk() && ClaimsOk()
      modifies `state, `id, `exhausted, `waiting, `received, `caps, `terminal
      ensures Valid() && Shaped() && SentOk() && ClaimsOk() && SlotOk() && !received && View() == Started(old(View()))
      ensures state == Off && caps == 0
    {
      hide ClaimsOk, Rising;
      ClearWait();
      caps, terminal := 0, NoResult;
      Retire(Off, NO_GRANT);
    }

    /** A failure after which HELLO may be tried again, but not at once. */
    method RetryLater(at: byte)
      requires Shaped() && SentOk() && ClaimsOk()
      modifies `state, `id, `exhausted, `waiting, `received, `caps, `terminal, `retrying, `retryAt
      ensures Valid() && Shaped() && SentOk() && ClaimsOk() && SlotOk() && !received && View() == PutOff(old(View()), at)
    {
      hide ClaimsOk, SentOk, TxOk, Acked;
      Reset();
      retrying, retryAt := true, at;
    }

    /** A counter has come round to zero. */
    method Exhaust()
      requires ClaimsOk() && state != Claimed
      modifies `exhausted
      ensures exhausted && SentOk() && ClaimsOk()
    {
      exhausted := true;
    }

    method ExhaustGrants()
      requires Valid() && state == PollWait
      modifies `grantCounter, `exhausted
      ensures Shaped() && SentOk() && ClaimsOk() && View() == old(View()).(grantCounter := 0, exhausted := true)
    {
      hide Before, NeverTwice, AllIn, Rising;
      grantCounter, exhausted := 0, true;
    }

    /** The packet is built, and only then waited for. */
    method Compose(op: byte, result: byte) returns (ghost at: byte)
      requires Shaped() && sequence != 0 && SentOk() && SlotOk()
      requires !exhausted ==> forall i :: 0 <= i < |transmitted| ==> transmitted[i] < sequence
      modifies `waiting, `received, `tx, `rx, `keycount, `sentAt, `spinBudget, `transmitted
      ensures Shaped() && SentOk() && SlotOk() && transmitted == old(transmitted) + [sequence]
      ensures View() == old(View()).(tx := Packet(op, result, sequence, id), waiting := true, sentAt := at, spinBudget := TURNS)
    {
      hide Packet, Rising, SlotOk, View, SentOk;
      Interrupt();
      var clock: byte := *;
      at := clock;
      Fill(op, result, clock);
      NumberSent();
      Interrupt();
    }

    method Fill(op: byte, result: byte, clock: byte)
      requires Shaped()
      modifies `waiting, `received, `tx, `sentAt, `spinBudget
      ensures Shaped() && SlotOk()
      ensures View() == old(View()).(tx := Packet(op, result, sequence, id), waiting := true, sentAt := clock, spinBudget := TURNS)
    {
      hide Packet, SlotOk;
      tx := Packet(op, result, sequence, id);
      received, waiting := false, true;
      sentAt := clock;
      spinBudget := TURNS;
      NothingInSlot();
    }

    /** The number goes on the wire. */
    method NumberSent()
      requires SentOk() && (!exhausted ==> forall i :: 0 <= i < |transmitted| ==> transmitted[i] < sequence)
      modifies `transmitted
      ensures SentOk() && transmitted == old(transmitted) + [sequence]
    {
      hide Rising;
      if !exhausted { OneMoreNumber(transmitted, sequence); }
      transmitted := transmitted + [sequence];
    }

    lemma NothingInSlot()
      requires |tx| == 48 && |rx| == 48 && !received
      ensures SlotOk()
    {
    }

    /** The next number, unless there is none. */
    method NextNumber() returns (ok: bool)
      requires Shaped() && SentOk() && ClaimsOk() && state != Claimed
      modifies `sequence, `exhausted
      ensures Shaped() && SentOk() && ClaimsOk() && sequence == (old(sequence) + 1) % WRAP
      ensures ok <==> sequence != 0
      ensures View() == old(View()).(sequence := sequence, exhausted := old(exhausted) || !ok)
      ensures !exhausted ==> forall i :: 0 <= i < |transmitted| ==> transmitted[i] < sequence
    {
      hide ClaimsOk;
      sequence := (sequence + 1) % WRAP;
      ok := sequence != 0;
      if !ok { Exhaust(); }
    }

    /** `send_control`: a number is used up before it is sent, and what cannot be sent ends the admission. */
    method SendControl(op: byte, result: byte) returns (ok: bool, ghost how: Sending)
      requires Shaped() && SentOk() && ClaimsOk() && SlotOk() && state != Claimed
      modifies `state, `id, `exhausted, `waiting, `received, `caps, `terminal,
               `sequence, `tx, `rx, `keycount, `sentAt, `spinBudget, `retrying, `retryAt, `transmitted
      ensures Shaped() && SentOk() && ClaimsOk() && SlotOk()
      ensures View() == Sent(old(View()), op, result, how) && (ok <==> sequence != 0 && how.delivered)
      ensures transmitted == old(transmitted) + if sequence == 0 then [] else [sequence]
      ensures sequence != 0 && !ok ==> Valid()
    {
      hide ClaimsOk, SentOk, Valid, Packet, Rising, SlotOk, PutOff, View;
      Fields();
      how := Sending(0, false);
      var usable := NextNumber();
      Fields();
      if !usable { return false, how; }
      ghost var at := Compose(op, result);
      var went: bool := *;
      how := Sending(at, went);
      ok := went;
      Fields();
      if !ok { RetryLater(sentAt); }
    }

    lemma Fields()
      ensures View().sentAt == sentAt && View().sequence == sequence && View().state == state && View().caps == caps && View().tx == tx
      ensures View().id == id && View().exhausted == exhausted && View().waiting == waiting && View().lastTick == lastTick && View().modeSeen == modeSeen
      ensures View().grantCounter == grantCounter
    {
    }

    /** `emos_admission_leave`: a key or an application withdraws the claim, if there is one. */
    method Leave() returns (ghost how: Sending)
      requires Valid()
      modifies this
      ensures Valid() && !received && View() == Left(old(View()), how) && state in {Off, Idle}
      ensures unchanged(`claims, `dispatched, `seenAtClaim)
      // the peer is told only of a grant that it may already have
      ensures transmitted == old(transmitted) + if old(state) == DecideWait && sequence != 0 then [sequence] else []
    {
      hide Valid, ClaimsOk, SentOk, Packet, View, Sent, Withdrawn;
      ValidParts();
      Fields();
      how := Sending(0, false);
      if state == DecideWait {
        var ok;
        ok, how := SendControl(CLOSE, 9);
      }
      Withdraw();
    }

    method Withdraw()
      requires Shaped() && SentOk() && ClaimsOk()
      modifies `state, `id, `exhausted, `waiting, `received
      ensures Valid() && !received && View() == Withdrawn(old(View())) && state in {Off, Idle}
    {
      hide ClaimsOk, Rising;
      ClearWait();
      Retire(if caps != 0 then Idle else Off, id.link);
    }

    /** `reply`: the packet in the slot, if there is one, counts if it is acceptable; if it is not, the wait goes on. */
    method Reply() returns (have: bool, ghost found: bool)
      requires Valid() && state in {HelloWait, PollWait, DecideWait} && !exhausted
      modifies `rx, `received, `keycount, `waiting
      ensures Valid() && (old(received) ==> found && rx == old(rx))
      ensures have <==> found && Acceptable(old(View()), rx)
      ensures View() == old(View()).(waiting := old(waiting) && !have) && (found ==> !received)
    {
      hide ClaimsOk, SentOk, TxOk, Acked, Acceptable;
      Interrupt();
      found := received;
      have := received;
      if have { waiting := false; }
      if !have { return; }
      AcceptableAnyhow(old(View()), false, rx);
      have := Judge();
      if !have {
        Refuse();
        return;
      }
      received := false;
    }

    /** The checks on the packet in the slot. */
    method Judge() returns (ok: bool)
      requires |tx| == 48 && |rx| == 48
      ensures ok <==> Acceptable(View(), rx)
    {
      hide Crc;
      var crc := ComputeCrc(rx);
      if rx[0] != 83 || rx[1] != 68 || rx[2] != 1 || rx[3] != 5 || rx[14] != 28 || rx[15] != 0
         || U32(rx[16..20]) != crc || rx[4..13] != tx[4..13] { return false; }
      if state != HelloWait && (rx[20..46] != tx[20..46] || rx[46] != 0 || rx[47] != 0) {
        if state != PollWait || rx[20..28] != id.link || U32(rx[28..32]) != id.generation
           || Nonzero(rx[36..44]) || rx[46] != 0 || rx[47] != 0 { return false; }
      }
      ok := true;
    }

    /** The wait goes on. */
    method Refuse()
      requires Shaped() && SentOk() && ClaimsOk() && TxOk() && state != Claimed
      modifies `received, `waiting
      ensures Valid() && waiting && !received
    {
      hide ClaimsOk, SentOk, TxOk;
      received, waiting := false, true;
    }

    /** The answer to HELLO brings a link and the capabilities, or the exchange starts again later. */
    method OnHello(now: byte) returns (onward: bool)
      requires Valid() && state == HelloWait && !exhausted && !waiting
      modifies `state, `id, `exhausted, `waiting, `received, `caps, `terminal, `retrying, `retryAt
      ensures Valid() && (onward <==> LinkOffered(rx)) && View() == Linked(old(View()), rx, now) && state in {Off, Idle}
    {
      hide Answers, Body, Head, Rising, Before, NeverTwice, AllIn;
      if rx[13] != 0 || !Nonzero(rx[20..28]) || Nonzero(rx[28..46]) || rx[47] != 0
         || rx[46] % 2 == 0 || rx[46] / 4 % 2 == 0 || rx[46] / 16 != 0 {
        RetryLater(now);
        return false;
      }
      id := id.(link := rx[20..28]);
      caps, state := rx[46], Idle;
      onward := true;
    }

    /** A grant is made: a new number in the present generation, which is below no other claim. */
    method MakeGrant()
      requires Valid() && state == PollWait && !exhausted && grantCounter + 1 < WRAP
      modifies `id, `grantCounter, `state, `claims
      ensures Shaped() && SentOk() && ClaimsOk() && SlotOk() && View() == Granted(old(View()), rx)
      ensures claims == old(claims) + [Claim(grantCounter, id.generation)]
    {
      hide View, Granted, Rising, Put32, Head, Body, Before, NeverTwice, AllIn;
      ghost var c := Claim(grantCounter + 1, id.generation);
      StillBefore(claims, grantCounter + 1, id.generation, c.counter, c.generation);
      OneMoreClaim(claims, c);
      MoreGranted(dispatched, claims, c);
      Assign();
      claims := claims + [c];
    }

    method Assign()
      requires Shaped() && grantCounter + 1 < WRAP
      modifies `id, `grantCounter, `state
      ensures Shaped() && state == DecideWait && grantCounter == old(grantCounter) + 1
      ensures id.generation == old(id).generation && id.grant == Put32(grantCounter) + Put32(id.generation)
      ensures View() == Granted(old(View()), rx)
    {
      hide Put32;
      grantCounter := grantCounter + 1;
      id := Identity(id.link, id.generation, rx[32..36], Put32(grantCounter) + Put32(id.generation), rx[45]);
      state := DecideWait;
    }

    /** The grant is made, and offered to the peer. */
    method Decide() returns (ghost how: Sending)
      requires Valid() && state == PollWait && !exhausted && grantCounter + 1 < WRAP
      modifies this
      ensures Valid() && unchanged(`dispatched, `seenAtClaim) && View() == Sent(Granted(old(View()), old(rx)), DECIDE, 0, how)
      ensures state in {Off, DecideWait}
      ensures claims == old(claims) + [Claim(old(grantCounter) + 1, old(id).generation)]
    {
      hide ClaimsOk, SentOk, Body, Head, Put32, Packet, Genuine;
      MakeGrant();
      var ok;
      ok, how := SendControl(DECIDE, 0);
    }

    /** The answer to POLL: nothing to do, or a job, for which a grant is made unless a key came first. */
    method OnPoll(observed: byte) returns (onward: bool, ghost keys: byte, ghost how: Sending)
      requires Valid() && state == PollWait && !exhausted && !waiting
      modifies this
      ensures Valid() && unchanged(`dispatched, `seenAtClaim) && (onward <==> NoJob(old(rx)))
      ensures View() == Polled(old(View()), old(rx), observed != keys, how) && state in {Off, Idle, DecideWait}
      ensures claims == old(claims)
                        + if !NoJob(old(rx)) && JobOffered(old(rx)) && observed == keys && old(grantCounter) + 1 < WRAP
                          then [Claim(old(grantCounter) + 1, old(id).generation)] else []
    {
      hide Valid, View, Left, Started, Sent, Granted, Nonzero;
      ValidParts();
      Fields();
      keys, how := observed, Sending(0, false);
      if rx[13] == 1 && !Nonzero(rx[32..36]) && rx[44] == 0 && rx[45] == 0 {
        BackToIdle();
        return true, keys, how;
      } else if rx[13] == 0 && Nonzero(rx[32..36]) && rx[44] == 1 && rx[45] >= 1 && rx[45] <= 8 {
        Interrupt();
        keys := keycount;
        if observed != keycount {
          how := Leave();
          return false, keys, how;
        }
        if grantCounter + 1 == WRAP {
          ExhaustGrants();
          Fields();
          Reset();
          return false, keys, how;
        }
        how := Decide();
      } else {
        Reset();
      }
      onward := false;
    }

    method BackToIdle()
      requires Valid() && state == PollWait
      modifies `state
      ensures Valid() && state == Idle && View() == old(View()).(state := Idle)
    {
      hide Before, NeverTwice, AllIn, Rising, Body, Head;
      state := Idle;
    }

    /** The answer to DECIDE: the claim is made in the same instant in which no key is seen to have come. */
    method OnDecide(observed: byte) returns (claimed: bool, ghost keys: byte, ghost how: Sending)
      requires Valid() && state == DecideWait && !exhausted && !waiting && Answers(rx, tx) && rx[20..46] == tx[20..46]
      modifies this
      ensures Valid() && unchanged(`claims, `dispatched)
      ensures View() == Decided(old(View()), old(rx), observed != keys, how) && (claimed <==> state == Claimed)
      ensures claimed ==> seenAtClaim == (observed, observed) && unchanged(`id, `sequence)
    {
      hide Valid, View, Started, Left, Answers;
      ValidParts();
      Fields();
      keys, how := observed, Sending(0, false);
      if rx[13] != 0 {
        Reset();
        return false, keys, how;
      }
      Interrupt();
      keys := keycount;
      if observed != keycount {
        how := Leave();
        return false, keys, how;
      }
      MakeClaim(observed);
      claimed := true;
    }

    /** The reservation becomes a claim. */
    method MakeClaim(observed: byte)
      requires Valid() && state == DecideWait && !exhausted && !waiting && Answers(rx, tx) && rx[20..46] == tx[20..46] && rx[13] == 0
      requires observed == keycount
      modifies `state, `seenAtClaim
      ensures Valid() && state == Claimed && seenAtClaim == (observed, observed) && View() == old(View()).(state := Claimed)
    {
      hide SentOk, Genuine, Body, Head, Before, NeverTwice, U32, Put32;
      EchoMeans(rx, sequence, DECIDE, id);
      state, seenAtClaim := Claimed, (observed, keycount);
    }


    /** Once in a clock tick an idle exchange goes on: with HELLO first, with POLL from then on. */
    method NextRequest(now: byte, mode: Mode) returns (ghost how: Sending)
      requires Valid()
      modifies this
      ensures Valid() && unchanged(`claims, `dispatched, `seenAtClaim)
      ensures View() == Requested(old(View()), now, mode, how) && (state == Claimed ==> old(state) == Claimed)
    {
      hide SentOk, ClaimsOk, TxOk, Packet, Acked, SlotOk, Sent, PutOff;
      how := Sending(0, false);
      if now == lastTick { return; }
      lastTick := now;
      if state == Off {
        if mode != Legacy || (retrying && (now - retryAt) % 256 < 120) { return; }
        retrying := false;
        how := Ask(HELLO, HelloWait);
      } else if state == Idle {
        how := Ask(POLL, PollWait);
      }
    }

    /** A request of an exchange that waits for nothing yet. */
    method Ask(op: byte, wait: State) returns (ghost how: Sending)
      requires Valid() && state in {Off, Idle} && (op, wait) in {(HELLO, HelloWait), (POLL, PollWait)}
      modifies this
      ensures Valid() && unchanged(`claims, `dispatched, `seenAtClaim) && state != Claimed && View() == Sent(old(View()).(state := wait), op, 0, how)
    {
      hide Before, NeverTwice, AllIn, Rising, Packet, Body, Head, Acked;
      state := wait;
      var ok;
      ok, how := SendControl(op, 0);
    }

    /** Waiting too long, by the clock or by the number of turns, ends the admission. */
    method NoReply(now: byte)
      requires Valid() && state in {HelloWait, PollWait, DecideWait}
      modifies this
      ensures Valid() && unchanged(`claims, `dispatched, `seenAtClaim, `transmitted)
      ensures View() == Unanswered(old(View()), now) && state in {Off, old(state)}
    {
      hide ClaimsOk, SentOk, TxOk;
      var late := (now - sentAt) % 256 >= 24;
      if !late {
        spinBudget := (spinBudget + WRAP - 1) % WRAP;
        late := spinBudget == 0;
      }
      if late { RetryLater(now); }
    }

    lemma ValidParts()
      requires Valid()
      ensures Shaped() && SlotOk() && SentOk() && ClaimsOk()
    {
    }

    /** A reply is looked for and acted on, or waited for. */
    method Await(observed: byte, now: byte) returns (onward: bool, claimed: bool, ghost e: Happened)
      requires Valid() && state in {HelloWait, PollWait, DecideWait} && !exhausted
      modifies this
      ensures Valid() && dispatched == old(dispatched) && |e.rx| == 48
      ensures View() == Answered(old(View()), observed, now, e) && (onward <==> Onward(old(View()), e))
      ensures old(received) ==> e.found && e.rx == old(rx)
      ensures (claimed <==> state == Claimed) && !(claimed && onward)
      ensures claimed ==> old(state) == DecideWait && seenAtClaim == (observed, observed) && unchanged(`id, `sequence, `claims)
      ensures claims == old(claims) || (|claims| == |old(claims)| + 1 && old(claims) < claims)
    {
      hide Valid, Acked, Answers, Acceptable, Linked, Polled, Decided, Unanswered, LinkOffered, NoJob, JobOffered, View;
      ValidParts();
      Fields();
      onward, claimed := false, false;
      ghost var none := Sending(0, false);
      var have;
      ghost var found, keys, how;
      have, found := Reply();
      ValidParts();
      Fields();
      e := Happened(observed, found, rx, observed, none, none);
      if !have {
        NoReply(now);
        return;
      }
      if state == DecideWait { AcceptableAtDecide(old(View()), rx); }
      if state == HelloWait {
        onward := OnHello(now);
      } else if state == PollWait {
        onward, keys, how := OnPoll(observed);
        e := e.(keysAgain := keys, sending := how);
      } else {
        claimed, keys, how := OnDecide(observed);
        e := e.(keysAgain := keys, sending := how);
      }
    }

    method SetMode(mode: Mode)
      requires Valid()
      modifies `modeSeen
      ensures Valid() && View() == old(View()).(modeSeen := mode)
    {
      modeSeen := mode;
    }

    /** The gates at the prompt. */
    method Gate(observed: byte, mode: Mode, usable: bool) returns (through: bool, ghost keys: byte, ghost leaving: Sending)
      requires Valid()
      modifies this
      ensures Valid() && unchanged(`claims, `dispatched, `seenAtClaim)
      ensures (View(), through) == Gated(old(View()), mode, usable, observed != keys, leaving)
      ensures through && state in {HelloWait, PollWait, DecideWait} ==>
                !exhausted && unchanged(`id, `sequence, `state) && (old(received) ==> received && rx == old(rx))
      ensures state == Claimed ==> old(state) == Claimed
      ensures old(exhausted) || !usable || mode == OtherMode ==> !through && state == Off && caps == 0
    {
      hide Valid, Started, Left, View;
      ValidParts();
      Fields();
      keys, leaving := observed, Sending(0, false);
      if mode == OtherMode || exhausted || !usable {
        if state != Off || caps != 0 { Reset(); }
        return false, keys, leaving;
      }
      Idling();
      keys := keycount;
      if observed != keycount {
        leaving := Leave();
        return false, keys, leaving;
      }
      if mode != modeSeen {
        leaving := Leave();
        SetMode(mode);
      }
      Fields();
      assert View() == (if mode != old(modeSeen) then Left(old(View()), leaving).(modeSeen := mode) else old(View()));
      if mode != Legacy && caps / 2 % 2 == 0 { return false, keys, leaving; }
      through := true;
    }

    /** `emos_admission_idle`, called at the idle prompt with the key count that the prompt has seen */
    method IdlePrompt(observed: byte, now: byte, mode: Mode, usable: bool) returns (claimed: bool, ghost e: Happened)
      requires Valid()
      modifies this
      ensures Valid() && dispatched == old(dispatched) && |e.rx| == 48
      ensures View() == Prompted(old(View()), observed, now, mode, usable, e)
      // at most one grant is made, and only while nothing has run out
      ensures |claims| <= |old(claims)| + 1 && old(claims) <= claims
      ensures old(exhausted) || !usable || mode == OtherMode ==> !claimed && claims == old(claims) && state == Off && caps == 0
      // a claim is made here and nowhere else, by the acknowledgement of the latest DECIDE, with no key in between
      ensures claimed ==> old(state) == DecideWait && state == Claimed && seenAtClaim == (observed, observed)
                          && unchanged(`id, `sequence, `claims)
      ensures state == Claimed ==> claimed || old(state) == Claimed
    {
      hide Valid, Gated, Continued, View;
      ValidParts();
      Fields();
      ghost var none := Sending(0, false);
      var through;
      ghost var keys, leaving;
      through, keys, leaving := Gate(observed, mode, usable);
      ValidParts();
      Fields();
      e := Happened(keys, false, rx, observed, leaving, none);
      if !through { return false, e; }
      ghost var t, c := View(), e;
      claimed, c := Continue(observed, now, mode);
      OnlyTheReply(t, observed, now, mode, c, keys, leaving);
      e := c.(keys := keys, leaving := leaving);
    }

    /** The part of the call that the gates let through. */
    method Continue(observed: byte, now: byte, mode: Mode) returns (claimed: bool, ghost e: Happened)
      requires Valid() && (state in {HelloWait, PollWait, DecideWait} ==> !exhausted)
      modifies this
      ensures Valid() && dispatched == old(dispatched) && |e.rx| == 48
      ensures View() == Continued(old(View()), observed, now, mode, e)
      ensures old(received) && old(state) in {HelloWait, PollWait, DecideWait} ==> e.found && e.rx == old(rx)
      ensures |claims| <= |old(claims)| + 1 && old(claims) <= claims
      ensures claimed ==> old(state) == DecideWait && state == Claimed && seenAtClaim == (observed, observed)
                          && unchanged(`id, `sequence, `claims)
      ensures state == Claimed ==> claimed || old(state) == Claimed
    {
      hide Valid, Answered, Onward, Requested, View;
      ValidParts();
      Fields();
      claimed := false;
      ghost var none := Sending(0, false);
      e := Happened(observed, received, rx, observed, none, none);
      ghost var s, waits := View(), state in {HelloWait, PollWait, DecideWait};
      if state in {HelloWait, PollWait, DecideWait} {
        var onward;
        onward, claimed, e := Await(observed, now);
        if !onward { return; }
      }
      ghost var how := NextRequest(now, mode);
      if waits { OnwardSendsLater(s, observed, now, e, how); }
      e := e.(sending := how);
    }

    /** `emos_admission_terminal`: the utility hands back the last number it used, once. */
    method ReportTerminal(n: nat, failed: byte) returns (ok: bool)
      requires Valid() && n < WRAP
      modifies `sequence, `terminal
      ensures Valid()
      ensures ok <==> state == Running && old(terminal) == NoResult && old(sequence) <= n < WRAP - 1 && failed <= 1
      ensures if ok then sequence == n && terminal == (if failed == 0 then Completed else Failed)
              else unchanged(`sequence, `terminal)
    {
      hide ClaimsOk, Body, Head, Rising;
      if state != Running || terminal != NoResult || n < sequence || n == WRAP - 1 || failed > 1 { return false; }
      sequence := n;
      terminal := if failed != 0 then Failed else Completed;
      ok := true;
    }

    /** `emos_admission_binding`: what the running utility may know of its claim. */
    method Binding() returns (ok: bool, out: seq<byte>)
      requires Valid()
      ensures ok <==> state == Running && terminal == NoResult
      ensures ok ==> |out| == 36 && out[0..8] == id.link && out[8..12] == Put32(id.generation) && out[12..16] == id.job
                     && out[16..24] == id.grant && out[24..28] == [1, id.jobClass, 0, 0] && out[28..32] == Put32(1)
                     && out[32..36] == Put32(sequence)
    {
      hide ClaimsOk, SentOk, TxOk, Acked, Put32;
      if state != Running || terminal != NoResult { return false, []; }
      out := id.link + Put32(id.generation) + id.job + id.grant + [1, id.jobClass, 0, 0] + Put32(1) + Put32(sequence);
      ok := true;
    }

    /** The utility, as far as admission is concerned: it may report, rightly or wrongly and more than once, the claim
        may be withdrawn under it, and it ends with any result. */
    method RunUtility(steps: nat) returns (result: int)
      requires Valid() && state == Running
      modifies this
      ensures Valid() && unchanged(`claims, `dispatched) && state in {Running, Idle, Off}
      ensures old(exhausted) ==> exhausted
    {
      hide ClaimsOk, SentOk, TxOk, Acked;
      for i := 0 to steps
        invariant Valid() && unchanged(`claims, `dispatched) && state in {Running, Idle, Off}
        invariant old(exhausted) ==> exhausted
      {
        Idling();
        var n: nat, failed: byte, withdrawn: bool := *, *, *;
        if n < WRAP { var _ := ReportTerminal(n, failed); }
        if withdrawn { ghost var how := Leave(); }
      }
      result := *;
    }

    /** The claim is turned into a run, once. */
    method StartRun()
      requires Valid() && state == Claimed
      modifies `state, `terminal, `dispatched
      ensures Valid() && state == Running && terminal == NoResult
      ensures dispatched == old(dispatched) + [Claim(grantCounter, id.generation)]
    {
      hide Before, NeverTwice, AllIn, Rising, Body, Head;
      ghost var c := Claim(grantCounter, id.generation);
      OneMoreClaim(dispatched, c);
      OneMoreDispatched(dispatched, claims, c);
      dispatched := dispatched + [c];
      state, terminal := Running, NoResult;
    }

    lemma ClaimIsAcknowledged()
      requires Valid() && state == Claimed
      ensures Acked() && !exhausted
    {
    }

    /** `emos_admission_dispatch`; `outcome` is what the utility returned and `reported` what it had reported by then. */
    method Dispatch(core: bool, mode: Mode, steps: nat)
      returns (result: int, ghost reported: Terminal, ghost outcome: int, ghost told: bool)
      requires Valid()
      modifies this
      ensures Valid()
      // without a claim nothing runs
      ensures !(old(state) == Claimed && core) ==> result == BUSY && unchanged(this)
      // with one, the acknowledgement is in hand, and the grant is used up whatever happens
      ensures old(state) == Claimed && core ==>
                && old(Acked()) && !old(exhausted)
                && dispatched == old(dispatched) + [Claim(old(grantCounter), old(id).generation)] && claims == old(claims)
                && state in {Off, Idle}
      // the result is the utility's own, unless it claims a success that it has not reported, or the peer was not told
      ensures old(state) == Claimed && core ==>
                result == Outcome(if outcome == 0 && reported != Completed then UNAVAILABLE else outcome, told)
      ensures old(state) == Claimed && core && sequence != 0 ==>
                tx[12] == CLOSE && tx[13] == if outcome == 0 && reported == Completed then 0 else 7
      ensures old(state) == Claimed && core && result == 0 ==> reported == Completed && told
    {
      hide ClaimsOk, SentOk, TxOk, Acked, Packet, Started, Withdrawn;
      reported, outcome, told := NoResult, BUSY, false;
      if state != Claimed || !core { return BUSY, reported, outcome, told; }
      ClaimIsAcknowledged();
      StartRun();
      result := RunUtility(steps);
      outcome := result;
      reported := terminal;
      if result == 0 && terminal != Completed { result := UNAVAILABLE; }
      ghost var how;
      ghost var n := Numbered(View());
      result, how := EndRun(result, mode);
      told := n != 0 && how.delivered;
    }

    /** The end of a run: the peer is told, and the grant is gone. */
    method EndRun(outcome: int, mode: Mode) returns (result: int, ghost how: Sending)
      requires Valid() && state in {Running, Idle, Off}
      modifies this
      ensures Valid() && unchanged(`claims, `dispatched) && state in {Off, Idle}
      ensures View() == Ended(old(View()), outcome, mode, how)
      ensures result == Outcome(outcome, sequence != 0 && how.delivered) && sequence == Numbered(old(View()))
      ensures sequence != 0 ==> tx[12] == CLOSE && tx[13] == if outcome != 0 then 7 else 0
    {
      hide ClaimsOk, SentOk, TxOk, Acked, Packet;
      result := outcome;
      var sent;
      sent, how := SendControl(CLOSE, if result != 0 then 7 else 0);
      if !sent && result == 0 { result := UNAVAILABLE; }
      if result == 0 && mode == ExclusiveCompat {
        Withdraw();
      } else {
        Reset();
      }
    }
  }
}
