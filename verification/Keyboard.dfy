/** Which keys are held: the bitmap, the event log, and the release of every key. */
module HeldKeys {
  import opened Bytes

  const KEY_MAX: nat := 248
  const FIRST_MODIFIER: nat := 117
  const LAST_MODIFIER: nat := 124

  /** The mask of bit `k & 7`. */
  function Mask(k: nat): bv8
  {
    match k % 8
    case 0 => 1 case 1 => 2 case 2 => 4 case 3 => 8 case 4 => 16 case 5 => 32 case 6 => 64 case _ => 128
  }

  predicate Bit(a: bv8, k: nat) { a & Mask(k) != 0 }
  function WithBit(a: bv8, k: nat, down: bool): bv8 { if down then a | Mask(k) else a & !Mask(k) }

  predicate IsHeld(bits: seq<bv8>, k: nat) requires |bits| == 32 { k / 8 < 32 && Bit(bits[k / 8], k) }

  function SetKey(bits: seq<bv8>, k: nat, down: bool): (r: seq<bv8>)
    requires |bits| == 32 && k < 256
    ensures |r| == 32
  {
    bits[k / 8 := WithBit(bits[k / 8], k, down)]
  }

  lemma WithBitChangesOne(a: bv8, i: nat, j: nat, down: bool)
    ensures Bit(WithBit(a, i, down), j) == if i % 8 == j % 8 then down else Bit(a, j)
  {
  }

  /** Setting one key's bit is exactly that: no other key's bit moves. */
  lemma SetKeySetsOne(bits: seq<bv8>, k: nat, down: bool, j: nat)
    requires |bits| == 32 && k < 256 && j < 256
    ensures IsHeld(SetKey(bits, k, down), j) <==> if j == k then down else IsHeld(bits, j)
  {
    hide Bit, WithBit;
    WithBitChangesOne(bits[k / 8], k, j, down);
  }

  /** An event as the system has seen it: modifiers, key code, down or up. */
  datatype Event = Event(modifiers: byte, key: byte, down: bool)

  /** Whether the last event of a key was a press. */
  function LastDown(log: seq<Event>, k: nat): bool
  {
    log != [] && (if log[|log| - 1].key == k then log[|log| - 1].down else LastDown(log[..|log| - 1], k))
  }

  lemma LastDownSnoc(log: seq<Event>, e: Event, k: nat)
    ensures LastDown(log + [e], k) == if e.key == k then e.down else LastDown(log, k)
  {
    assert (log + [e])[..|log|] == log;
  }

  /** The bitmap agrees with the history of events. */
  ghost predicate Agrees(bits: seq<bv8>, log: seq<Event>)
  {
    |bits| == 32 && forall k: nat {:trigger IsHeld(bits, k)} :: 1 <= k <= KEY_MAX ==> (IsHeld(bits, k) <==> LastDown(log, k))
  }

  lemma AgreesAfterEvent(bits: seq<bv8>, log: seq<Event>, e: Event)
    requires Agrees(bits, log)
    ensures Agrees(if 1 <= e.key <= KEY_MAX then SetKey(bits, e.key, e.down) else bits, log + [e])
  {
    var bits' := if 1 <= e.key <= KEY_MAX then SetKey(bits, e.key, e.down) else bits;
    forall k: nat | 1 <= k <= KEY_MAX ensures IsHeld(bits', k) <==> LastDown(log + [e], k) {
      LastDownSnoc(log, e, k);
      if 1 <= e.key <= KEY_MAX { SetKeySetsOne(bits, e.key, e.down, k); }
    }
  }

  // ------------------------------------------------------------------------------------- releasing

  /** `modifiers & 0x70`: the lock bits are kept, the others are not. */
  function LockBits(m: byte): (r: byte)
    ensures r / 16 % 8 == m / 16 % 8 && r % 16 == 0 && r < 0x80
  {
    m / 16 % 8 * 16
  }
  /** `modifiers & 0x8F`, as a test: some physical modifier. */
  predicate HasPhysical(m: byte) { m % 16 != 0 || m >= 0x80 }

  lemma LockBitsOnly(m: byte)
    ensures !HasPhysical(LockBits(m)) && LockBits(LockBits(m)) == LockBits(m)
    ensures !HasPhysical(m) ==> LockBits(m) == m
  {
    var q := m / 16;
    assert m == 16 * q + m % 16 && 0 <= q < 16;
    assert LockBits(m) == q % 8 * 16;
  }

  /** The order in which keys are released: virtual modifiers first. */
  function ReleaseOrder(): seq<nat>
  {
    Range(FIRST_MODIFIER, LAST_MODIFIER + 1) + Range(1, FIRST_MODIFIER) + Range(LAST_MODIFIER + 1, KEY_MAX + 1)
  }

  function Range(lo: nat, hi: nat): (s: seq<nat>)
    requires lo <= hi
    ensures |s| == hi - lo && forall i :: 0 <= i < |s| ==> s[i] == lo + i
  {
    seq(hi - lo, i requires 0 <= i < hi - lo => lo + i)
  }

  /** The releases of those of `keys` that are held. */
  function Releases(bits: seq<bv8>, modifiers: byte, keys: seq<nat>): seq<Event>
    requires |bits| == 32 && forall i :: 0 <= i < |keys| ==> keys[i] <= KEY_MAX
  {
    if keys == [] then []
    else
      var k := keys[|keys| - 1];
      Releases(bits, modifiers, keys[..|keys| - 1]) + if IsHeld(bits, k) then [Event(LockBits(modifiers), k, false)] else []
  }

  lemma OrderIsComplete()
    ensures |ReleaseOrder()| == KEY_MAX
    ensures forall i :: 0 <= i < |ReleaseOrder()| ==> 1 <= ReleaseOrder()[i] <= KEY_MAX
    ensures forall k: nat :: 1 <= k <= KEY_MAX ==> k in ReleaseOrder()
    ensures forall i, j :: 0 <= i < j < |ReleaseOrder()| ==> ReleaseOrder()[i] != ReleaseOrder()[j]
  {
    var s := ReleaseOrder();
    forall k: nat | 1 <= k <= KEY_MAX ensures k in s {
      var i := if FIRST_MODIFIER <= k <= LAST_MODIFIER then k - 117 else if k < FIRST_MODIFIER then k + 7 else k - 1;
      assert s[i] == k;
    }
  }

  lemma {:induction false} ReleasesMembers(bits: seq<bv8>, modifiers: byte, keys: seq<nat>)
    requires |bits| == 32 && forall i :: 0 <= i < |keys| ==> keys[i] <= KEY_MAX
    ensures forall e :: e in Releases(bits, modifiers, keys) <==> e.modifiers == LockBits(modifiers) && !e.down && (e.key as nat) in keys && IsHeld(bits, e.key)
  {
    if keys != [] {
      ReleasesMembers(bits, modifiers, keys[..|keys| - 1]);
      assert keys == keys[..|keys| - 1] + [keys[|keys| - 1]];
    }
  }

  ghost predicate DistinctKeys(r: seq<Event>) { forall i, j :: 0 <= i < j < |r| ==> r[i].key != r[j].key }

  lemma DistinctSnoc(r: seq<Event>, e: Event)
    requires DistinctKeys(r) && forall i :: 0 <= i < |r| ==> r[i].key != e.key
    ensures DistinctKeys(r + [e])
  {
  }

  lemma {:induction false} ReleasesDistinct(bits: seq<bv8>, modifiers: byte, keys: seq<nat>)
    requires |bits| == 32 && forall i :: 0 <= i < |keys| ==> keys[i] <= KEY_MAX
    requires forall i, j :: 0 <= i < j < |keys| ==> keys[i] != keys[j]
    ensures DistinctKeys(Releases(bits, modifiers, keys))
  {
    if keys != [] {
      var init := keys[..|keys| - 1];
      ReleasesDistinct(bits, modifiers, init);
      ReleasesMembers(bits, modifiers, init);
      var q := Releases(bits, modifiers, init);
      var last := keys[|keys| - 1];
      assert last !in init;
      forall i | 0 <= i < |q| ensures q[i].key != last {
        assert q[i] in q;
      }
      DistinctSnoc(q, Event(LockBits(modifiers), last, false));
      assert q + [] == q;
    }
  }

  /** Everything a cleanup publishes, when the callback leaves payloads alone. */
  function CleanupEvents(bits: seq<bv8>, modifiers: byte, zeroDown: bool): seq<Event>
    requires |bits| == 32
  {
    OrderIsComplete();
    var r := Releases(bits, modifiers, ReleaseOrder());
    r + if zeroDown || (r == [] && HasPhysical(modifiers)) then [Event(LockBits(modifiers), 0, false)] else []
  }

  lemma {:induction false} ReleasesBound(bits: seq<bv8>, modifiers: byte, keys: seq<nat>)
    requires |bits| == 32 && forall i :: 0 <= i < |keys| ==> keys[i] <= KEY_MAX
    ensures |Releases(bits, modifiers, keys)| <= |keys|
  {
    if keys != [] { ReleasesBound(bits, modifiers, keys[..|keys| - 1]); }
  }

  lemma CleanupBound(bits: seq<bv8>, modifiers: byte, zeroDown: bool)
    requires |bits| == 32
    ensures |CleanupEvents(bits, modifiers, zeroDown)| <= KEY_MAX + 1
  {
    OrderIsComplete();
    ReleasesBound(bits, modifiers, ReleaseOrder());
  }

  lemma {:induction false} NoneHeldNoReleases(bits: seq<bv8>, modifiers: byte, keys: seq<nat>)
    requires |bits| == 32 && (forall i :: 0 <= i < 32 ==> bits[i] == 0) && forall i :: 0 <= i < |keys| ==> keys[i] <= KEY_MAX
    ensures Releases(bits, modifiers, keys) == []
  {
    if keys != [] { NoneHeldNoReleases(bits, modifiers, keys[..|keys| - 1]); }
  }

  /** With no key down there is nothing to release. */
  lemma NothingToRelease(bits: seq<bv8>, modifiers: byte)
    requires |bits| == 32 && forall i :: 0 <= i < 32 ==> bits[i] == 0
    ensures CleanupEvents(bits, LockBits(modifiers), false) == []
  {
    OrderIsComplete();
    LockBitsOnly(modifiers);
    NoneHeldNoReleases(bits, LockBits(modifiers), ReleaseOrder());
  }

  /** A cleanup releases each held key by exactly one event and releases nothing else; none of its events
      carries a physical modifier. */
  lemma CleanupReleasesAll(bits: seq<bv8>, modifiers: byte, zeroDown: bool)
    requires |bits| == 32
    ensures var es := CleanupEvents(bits, modifiers, zeroDown);
            && (forall i :: 0 <= i < |es| ==> !es[i].down && !HasPhysical(es[i].modifiers))
            && DistinctKeys(es)
            && (forall k: byte :: 1 <= k <= KEY_MAX ==> (IsHeld(bits, k) <==> exists i :: 0 <= i < |es| && es[i].key == k))
  {
    OrderIsComplete();
    var r, es := Releases(bits, modifiers, ReleaseOrder()), CleanupEvents(bits, modifiers, zeroDown);
    ReleasesMembers(bits, modifiers, ReleaseOrder());
    ReleasesDistinct(bits, modifiers, ReleaseOrder());
    LockBitsOnly(modifiers);
    assert |es| == |r| || (|es| == |r| + 1 && es[|r|].key == 0);
    assert forall i :: 0 <= i < |r| ==> es[i] == r[i];
    forall i | 0 <= i < |r| ensures r[i].key != 0 && !r[i].down && r[i].modifiers == LockBits(modifiers) && IsHeld(bits, r[i].key) {
      assert r[i] in r;
    }
    assert r + [] == r;
    DistinctSnoc(r, Event(LockBits(modifiers), 0, false));
    forall k: byte | 1 <= k <= KEY_MAX && IsHeld(bits, k) ensures exists i :: 0 <= i < |es| && es[i].key == k {
      var e := Event(LockBits(modifiers), k, false);
      assert (k as nat) in ReleaseOrder();
      assert e in r;
      var i :| 0 <= i < |r| && r[i] == e;
      assert es[i].key == k;
    }
  }
}

/** The resident keyboard receiver. */
module Keyboard {
  import opened Bytes
  import opened HeldKeys
  import F = KeyboardFraming
  import RP = ReturnPackets

  datatype Source = Mainboard | Browser | Extender
  datatype Uart = Closed | Active | Parked      // uart1_keyboard_owned

  const FRAME_AGE_LIMIT: int := 30

  function EventOf(p: seq<byte>): Event requires |p| >= 4 { Event(p[1], p[2], p[3] % 2 == 1) }
  predicate ValidKey(p: seq<byte>) requires |p| >= 4 { p[2] <= KEY_MAX && p[3] <= 1 }

  class Receiver {
    var source: Source
    var preparedSource: Source
    var faulted: bool
    var preparing: bool
    var stopRequested: bool
    var faultRequested: bool
    var textPending: bool
    var token: byte
    var uart: Uart
    // the receive record
    var state: nat
    var command: byte
    var length: byte
    var remaining: nat
    var used: nat
    var partialAt: byte
    const payload: array<byte>
    // held keys
    const held: array<bv8>
    var modifiers: byte
    var zeroDown: bool

    const edits: bool                       // whether the registered callback edits payloads
    ghost var log: seq<Event>               // every event published
    ghost var dispatched: seq<F.Frame>      // every frame handed to dispatch

    ghost predicate Valid()
      reads this, payload, held
    {
      && payload.Length == 240 && held.Length == 32
      && state <= 2 && used <= 240
      && (state != 0 ==> command >= 0x80) && (state == 2 ==> !F.WrongLength(command, length))
      && (state == 2 ==> 1 <= remaining <= length && used == if length - remaining < 240 then length - remaining else 240)
      && (preparing ==> preparedSource != Mainboard)
      && (!edits ==> Agrees(held[..], log))
    }

    /** Parser, keyboard and events as one value. */
    ghost function Board(): RP.Board
      requires Valid()
      reads this, payload, held
    {
      RP.Board(View(), faulted, RP.Keys(uart == Active, source != Mainboard, preparing, token, held[..], modifiers, zeroDown), log)
    }

    /** The state of the parser. */
    ghost function View(): (p: F.Parser)
      requires Valid()
      reads this, payload, held
      ensures F.Shaped(p)
    {
      if state == 0 then F.Idle else if state == 1 then F.HaveCommand(command)
      else F.InPayload(command, length, remaining, payload[..used])
    }

    predicate Listening() reads this { !faulted && uart == Active }

    constructor (edits: bool)
      ensures Valid() && this.edits == edits && fresh(payload) && fresh(held)
      ensures preparedSource == Mainboard && partialAt == 0
      ensures dispatched == [] && source == Mainboard && uart == Closed && !stopRequested && !faultRequested && !textPending
      ensures Board() == RP.Board(F.Idle, false, RP.Keys(false, false, false, 0, RP.WIPED, 0, false), [])
    {
      payload := new byte[240](_ => 0);
      held := new bv8[32](_ => 0);
      source, preparedSource, uart := Mainboard, Mainboard, Closed;
      faulted, preparing, stopRequested, faultRequested, textPending := false, false, false, false, false;
      token, state, command, length, remaining, used, partialAt := 0, 0, 0, 0, 0, 0, 0;
      modifiers, zeroDown := 0, false;
      this.edits := edits;
      log, dispatched := [], [];
    }

    method ParserReset()
      requires payload.Length == 240 && held.Length == 32 && (preparing ==> preparedSource != Mainboard)
      requires !edits ==> Agrees(held[..], log)
      modifies `state, `remaining, `used
      ensures Valid() && View() == F.Idle && remaining == used == 0
    {
      state, remaining, used := 0, 0, 0;
    }

    /** The stock callback and publication, `emos_keyboard_effect`; the callback may edit the payload. */
    method Effect(p: seq<byte>) returns (q: seq<byte>)
      requires |p| >= 4
      modifies `log
      ensures |q| == |p| && (!edits ==> q == p) && log == old(log) + [EventOf(q)]
    {
      q := p;
      if edits {
        var e0: byte, e1: byte, e2: byte, e3: byte := *, *, *, *;
        q := [e0, e1, e2, e3] + p[4..];
      }
      log := log + [EventOf(q)];
    }

    /** `publish` */
    method Publish(p: seq<byte>) returns (ghost e: Event)
      requires Valid() && |p| >= 4
      modifies held, `log, `modifiers, `zeroDown
      ensures Valid() && (!edits ==> e == EventOf(p))
      ensures log == old(log) + [e] && modifiers == e.modifiers
      ensures zeroDown == if e.key == 0 then e.down else old(zeroDown)
      ensures held[..] == if 1 <= e.key <= KEY_MAX then SetKey(old(held[..]), e.key, e.down) else old(held[..])
    {
      hide Agrees, Bit, WithBit;
      var q := Effect(p);
      e := EventOf(q);
      if !edits { AgreesAfterEvent(held[..], old(log), e); }
      modifiers := q[1];
      if q[2] == 0 { zeroDown := q[3] % 2 == 1; }
      if q[2] != 0 && q[2] <= KEY_MAX {
        held[q[2] / 8] := WithBit(held[q[2] / 8], q[2], q[3] % 2 == 1);
      }
    }

    /** `release_key` */
    method ReleaseKey(key: nat)
      requires Valid() && 1 <= key <= KEY_MAX
      modifies held, `log, `modifiers, `zeroDown
      ensures Valid()
      ensures !edits ==>
                && log == old(log) + (if IsHeld(old(held[..]), key) then [Event(LockBits(old(modifiers)), key, false)] else [])
                && modifiers == (if IsHeld(old(held[..]), key) then LockBits(old(modifiers)) else old(modifiers))
                && held[..] == (if IsHeld(old(held[..]), key) then SetKey(old(held[..]), key, false) else old(held[..]))
                && zeroDown == old(zeroDown)
    {
      if !Bit(held[key / 8], key) { return; }
      ghost var e := Publish([0, LockBits(modifiers), key, 0]);
    }

    /** How far a cleanup has got: the first `n` keys of the release order have been dealt with. */
    ghost predicate CleanedUpTo(bits: seq<bv8>, m: byte, z: bool, before: seq<Event>, n: nat)
      requires |bits| == 32 && n <= |ReleaseOrder()| && held.Length == 32
      reads this, held
    {
      OrderIsComplete();
      var r := Releases(bits, m, ReleaseOrder()[..n]);
      && log == before + r
      && modifiers == (if r == [] then m else LockBits(m))
      && zeroDown == z
      && (forall k: nat {:trigger IsHeld(held[..], k)} :: k < 256 ==> (IsHeld(held[..], k) <==> IsHeld(bits, k) && k !in ReleaseOrder()[..n]))
    }

    method CleanupKey(ghost bits: seq<bv8>, ghost m: byte, ghost z: bool, ghost before: seq<Event>, ghost n: nat, key: nat)
      requires Valid() && |bits| == 32 && n < |ReleaseOrder()| && ReleaseOrder()[n] == key && 1 <= key <= KEY_MAX
      requires !edits ==> CleanedUpTo(bits, m, z, before, n)
      modifies held, `log, `modifiers, `zeroDown
      ensures Valid() && (!edits ==> CleanedUpTo(bits, m, z, before, n + 1))
    {
      hide Bit, WithBit, Agrees;
      OrderIsComplete();
      ghost var done := ReleaseOrder()[..n];
      assert ReleaseOrder()[..n + 1] == done + [key];
      assert key !in done by { assert forall i :: 0 <= i < n ==> ReleaseOrder()[i] != ReleaseOrder()[n]; }
      hide ReleaseOrder;
      ReleasesSnoc(bits, m, done, key);
      LockBitsOnly(m);
      ghost var was := held[..];
      ReleaseKey(key);
      forall k: nat | k < 256 ensures IsHeld(SetKey(was, key, false), k) <==> IsHeld(was, k) && k != key {
        SetKeySetsOne(was, key, false, k);
      }
    }

    /** `cleanup`: every held key is released. */
    method Cleanup()
      requires Valid()
      modifies held, `log, `modifiers, `zeroDown
      ensures Valid() && Wiped() && !zeroDown && !HasPhysical(modifiers)
      ensures !edits ==> log == old(log) + CleanupEvents(old(held[..]), old(modifiers), old(zeroDown)) && modifiers == LockBits(old(modifiers))
    {
      hide Bit, Agrees, WithBit, ReleaseOrder, Releases, CleanedUpTo, Wiped, CleanupEvents, HasPhysical;
      ghost var bits, m, z, before := held[..], modifiers, zeroDown, log;
      OrderIsComplete();
      NothingCleaned();
      var key := FIRST_MODIFIER;
      while key <= LAST_MODIFIER
        invariant FIRST_MODIFIER <= key <= LAST_MODIFIER + 1
        invariant Valid() && (!edits ==> CleanedUpTo(bits, m, z, before, key - FIRST_MODIFIER))
      {
        OrderAt(key);
        CleanupKey(bits, m, z, before, key - FIRST_MODIFIER, key);
        key := key + 1;
      }
      key := 1;
      while key <= KEY_MAX
        invariant 1 <= key <= KEY_MAX + 1
        invariant Valid() && (!edits ==> CleanedUpTo(bits, m, z, before, Progress(key)))
      {
        if key < FIRST_MODIFIER || key > LAST_MODIFIER {
          OrderAt(key);
          CleanupKey(bits, m, z, before, Progress(key), key);
        }
        key := key + 1;
      }
      CleanupEnd(bits, m, z, before);
    }

    lemma NothingCleaned()
      requires Valid()
      ensures CleanedUpTo(held[..], modifiers, zeroDown, log, 0)
    {
      hide Bit;
      OrderIsComplete();
      assert ReleaseOrder()[..0] == [];
    }

    /** The end of `cleanup`: key zero, and the bitmap wiped. */
    method CleanupEnd(ghost bits: seq<bv8>, ghost m: byte, ghost z: bool, ghost before: seq<Event>)
      requires Valid() && |bits| == 32 && |ReleaseOrder()| == KEY_MAX
      requires !edits ==> CleanedUpTo(bits, m, z, before, KEY_MAX)
      modifies held, `log, `modifiers, `zeroDown
      ensures Valid() && Wiped() && !zeroDown && !HasPhysical(modifiers)
      ensures !edits ==> log == before + CleanupEvents(bits, m, z) && modifiers == LockBits(m)
    {
      hide Bit, WithBit, Agrees;
      OrderIsComplete();
      assert ReleaseOrder()[..KEY_MAX] == ReleaseOrder();
      hide ReleaseOrder;
      LockBitsOnly(m);
      LockBitsOnly(modifiers);
      LockBitsOnly(LockBits(modifiers));
      ghost var r := Releases(bits, m, ReleaseOrder());
      assert before + r + [Event(LockBits(m), 0, false)] == before + (r + [Event(LockBits(m), 0, false)]);
      assert r + [] == r;
      if zeroDown || HasPhysical(modifiers) {
        ghost var e := Publish([0, LockBits(modifiers), 0, 0]);
      }
      ghost var was := held[..];
      forall i | 0 <= i < 32 { held[i] := 0; }
      NothingHeld(was, held[..], log, edits);
      modifiers := LockBits(modifiers);
      zeroDown := false;
      LockBitsOnly(modifiers);
    }

    /** No key is held. */
    ghost predicate Wiped()
      requires held.Length == 32
      reads held
    {
      held[..] == RP.WIPED
    }

    lemma WipedHoldsNothing(k: nat)
      requires held.Length == 32 && Wiped() && k < 256
      ensures !IsHeld(held[..], k)
    {
      ZeroBits(k);
    }

    // ------------------------------------------------------------------------------- faults and sources

    /** `emos_keyboard_fault` */
    method KeyboardFault()
      requires Valid()
      modifies `state, `remaining, `used, `preparing, `textPending, `faulted, `faultRequested, held, `log, `modifiers, `zeroDown
      ensures Valid()
      ensures uart == Parked ==> faultRequested && unchanged(`state, `remaining, `used, `preparing, `textPending, `faulted)
      ensures uart != Parked ==> faulted && View() == F.Idle && !preparing && !textPending && faultRequested == old(faultRequested)
      ensures uart != Parked && source != Mainboard ==> Wiped() && !zeroDown && !HasPhysical(modifiers)
      ensures uart == Parked || source == Mainboard ==> unchanged(`log, `modifiers, `zeroDown) && held[..] == old(held[..])
      ensures !edits ==> Board() == if uart == Parked then old(Board()) else RP.Faulted(old(Board()))
    {
      hide Agrees, HasPhysical, CleanupEvents;
      if uart == Parked { faultRequested := true; return; }
      ParserReset();
      preparing, textPending := false, false;
      faulted := true;
      assert log + [] == log;
      if source != Mainboard { Cleanup(); }
    }

    /** What `emos_keyboard_tick` does on a stop request. */
    method GiveUpSource(consoleOwned: bool)
      requires Valid()
      modifies `state, `remaining, `used, `preparing, `faulted, `faultRequested, `stopRequested, `source, held, `log, `modifiers, `zeroDown
      ensures Valid()
      ensures source == Mainboard && !preparing && !faulted && !faultRequested && !stopRequested
      ensures Wiped() && !zeroDown && !HasPhysical(modifiers)
      ensures View() == if consoleOwned then old(View()) else F.Idle
      ensures !edits ==> log == old(log) + CleanupEvents(old(held[..]), old(modifiers), old(zeroDown)) && modifiers == LockBits(old(modifiers))
    {
      hide Agrees, HasPhysical, CleanupEvents;
      Cleanup();
      if !consoleOwned { ParserReset(); }
      preparing := false;
      source := Mainboard;
      faulted, faultRequested, stopRequested := false, false, false;
    }

    /** A fault has been asked for, or a frame is not complete in time, however it dribbles in. */
    predicate FaultDue(clock: byte)
      reads this
    {
      uart != Closed && !faulted && (faultRequested || (state != 0 && (clock - partialAt) % 256 >= FRAME_AGE_LIMIT))
    }

    /** The stop request and the age limit in `emos_keyboard_tick`.  The parser is reset on a stop unless the console has
        the UART. */
    method Tick(clock: byte, consoleOwned: bool)
      requires Valid()
      modifies `state, `remaining, `used, `preparing, `textPending, `faulted, `faultRequested, `stopRequested, `source,
               held, `log, `modifiers, `zeroDown
      ensures Valid()
      ensures old(uart == Parked || (!stopRequested && !FaultDue(clock))) ==> unchanged(this) && unchanged(held)
      ensures uart != Parked && old(stopRequested) ==>
                && source == Mainboard && !preparing && !faulted && !faultRequested && !stopRequested && textPending == old(textPending)
                && Wiped() && !zeroDown && !HasPhysical(modifiers) && View() == (if consoleOwned then old(View()) else F.Idle)
                && (!edits ==> log == old(log) + CleanupEvents(old(held[..]), old(modifiers), old(zeroDown)) && modifiers == LockBits(old(modifiers)))
      ensures uart != Parked && !old(stopRequested) && old(FaultDue(clock)) ==>
                && faulted && !faultRequested && !preparing && !textPending && View() == F.Idle && source == old(source)
                && (source != Mainboard ==> Wiped() && !zeroDown && !HasPhysical(modifiers))
                && (!edits ==> Board() == RP.Faulted(old(Board())))
    {
      hide Agrees, HasPhysical, CleanupEvents, Wiped, RP.Faulted;
      if uart == Parked { return; }
      if stopRequested {
        GiveUpSource(consoleOwned);
      } else if uart != Closed && !faulted
                && (faultRequested || (state != 0 && (clock - partialAt) % 256 >= FRAME_AGE_LIMIT)) {
        faultRequested := false;
        KeyboardFault();
      }
    }

    /** The reset of the peer seen by `emos_parallel_boot_tick`. */
    method PeerReset()
      requires Valid() && uart == Active
      modifies `state, `remaining, `used, `preparing, `textPending, `faulted, `faultRequested, `source, `uart,
               held, `log, `modifiers, `zeroDown
      ensures Valid() && source == Mainboard && uart == Closed && faulted && !preparing && !textPending && View() == F.Idle
      ensures faultRequested == old(faultRequested)
      ensures old(source) != Mainboard ==> Wiped() && !zeroDown && !HasPhysical(modifiers)
      ensures !edits ==> var w := RP.Faulted(old(Board())); Board() == w.(keys := w.keys.(listening := false, remote := false))
    {
      hide Agrees, HasPhysical, CleanupEvents, RP.Faulted;
      KeyboardFault();
      uart := Closed;
      source := Mainboard;
    }

    /** The beginning of a selection: the new source is asked by a poll with a token of its own. */
    method Prepare(next: Source)
      requires Valid() && next != Mainboard
      modifies `preparing, `preparedSource, `token
      ensures Valid() && preparing && preparedSource == next && token == (old(token) + 1) % 256
    {
      hide Agrees;
      preparing := true;
      preparedSource := next;
      token := (token + 1) % 256;
    }

    /** `emos_keyboard_mainboard` */
    method FromMainboard(p: seq<byte>)
      requires Valid() && |p| >= 4
      modifies held, `log, `modifiers, `zeroDown
      ensures Valid()
      ensures !(source == Mainboard && ValidKey(p)) ==> unchanged(`log, `modifiers, `zeroDown) && held[..] == old(held[..])
      ensures source == Mainboard && ValidKey(p) && !edits ==>
                Board() == old(Board()).(keys := old(Board()).keys.Published(EventOf(p)), log := old(log) + [EventOf(p)])
    {
      hide Agrees;
      if source == Mainboard && ValidKey(p) {
        ghost var e := Publish(p);
      }
    }

    // ----------------------------------------------------------------------------------- reception

    /** The packet that has just been completed. */
    ghost function Completed(): F.Frame
      requires Valid() && used == length
      reads this, payload, held
    {
      F.Frame(command, payload[..used])
    }

    /** `emos_keyboard_dispatch`, without the packets of other services. */
    method Dispatch()
      requires Valid() && state == 0 && Listening() && used == length && !F.WrongLength(command, length)
      modifies `state, `remaining, `used, `preparing, `textPending, `faulted, `faultRequested, `source,
               held, `log, `modifiers, `zeroDown
      ensures Valid() && faultRequested == old(faultRequested)
      // the answer to the poll of a prepared source, and nothing else, changes the source, and releases every key
      ensures var answer := RP.Answers(old(Board().keys), old(Completed()));
              && source == (if answer then old(preparedSource) else old(source))
              && (answer ==> !preparing && !faulted && Wiped() && !zeroDown && !HasPhysical(modifiers) && textPending == old(textPending))
              && (!answer && !faulted ==> preparing == old(preparing))
      // a key that is malformed is a fault of its source
      ensures faulted <==> command == F.KEY_PACKET && !old(preparing) && source != Mainboard && !old(ValidKey(payload[..]))
      ensures faulted ==> Wiped() && !zeroDown && !HasPhysical(modifiers) && !preparing && !textPending && View() == F.Idle
      ensures !faulted ==> View() == F.Idle
      ensures var acknowledged := command == RP.POLL_REPLY && length == 1 && !old(preparing) && source != Mainboard && payload[0] == token;
              !faulted ==> textPending == (old(textPending) && !acknowledged)
      ensures !edits ==> Board() == RP.Dispatch(old(Board()), old(Completed()))
    {
      hide Agrees, HasPhysical, CleanupEvents, RP.Faulted;
      if command == RP.SDLINK { return; }
      if command == RP.POLL_REPLY && length == 1 && preparing && payload[0] == token {
        Cleanup();
        source := preparedSource;
        preparing := false;
      } else if !preparing && source != Mainboard {
        if command == F.KEY_PACKET {
          if !ValidKey(payload[..]) { KeyboardFault(); } else { ghost var e := Publish(payload[..]); }
        } else if command == F.SETTINGS_PACKET {
          // stock settings effects
        } else if command == RP.POLL_REPLY && length == 1 && textPending && payload[0] == token {
          textPending := false;
        }
      }
    }

    /** What a fault of a remote source leaves of the keys. */
    ghost predicate LetGo()
      requires held.Length == 32
      reads `source, `modifiers, `zeroDown, held
    {
      source != Mainboard ==> Wiped() && !zeroDown && !HasPhysical(modifiers)
    }

    /** `emos_keyboard_byte` */
    method Byte(value: byte, clock: byte)
      requires Valid()
      modifies this, payload, held
      ensures Valid() && unchanged(`uart, `token, `preparedSource, `stopRequested, `faultRequested)
      ensures !old(Listening()) ==> unchanged(this) && unchanged(payload) && unchanged(held)
      ensures old(Listening()) ==>
                && partialAt == (if old(state) == 0 && value >= 0x80 then clock else old(partialAt))
                && match F.Step(old(View()), value)
                   case Fault => faulted && dispatched == old(dispatched) && source == old(source)
                   case Going(next, done) => dispatched == old(dispatched) + done && (!faulted ==> View() == next)
      ensures old(Listening()) && faulted ==> LetGo() && !preparing && !textPending && View() == F.Idle
      ensures !edits ==> Board() == RP.FeedByte(old(Board()), value)
    {
      hide Agrees, HasPhysical, CleanupEvents, RP.Faulted, RP.Dispatch;
      if faulted || uart != Active { return; }
      if state == 0 {
        if value < 0x80 { return; }
        command, state, partialAt := value, 1, clock;
      } else if state == 1 {
        LengthByte(value);
      } else {
        PayloadByte(value);
      }
    }

    /** The byte after a command. */
    method LengthByte(value: byte)
      requires Valid() && Listening() && state == 1
      modifies `length, `remaining, `used, `state, `preparing, `textPending, `faulted, `faultRequested, held, `log, `modifiers, `zeroDown
      ensures Valid() && faultRequested == old(faultRequested)
      ensures match F.Step(old(View()), value)
              case Fault => faulted && LetGo() && !preparing && !textPending && View() == F.Idle
              case Going(next, done) => !faulted && View() == next && done == []
                                        && unchanged(`preparing, `textPending, `log, `modifiers, `zeroDown) && held[..] == old(held[..])
      ensures !edits ==> Board() == RP.FeedByte(old(Board()), value)
    {
      hide Agrees, HasPhysical, CleanupEvents, RP.Faulted, RP.Dispatch, Wiped;
      length, remaining, used := value, value, 0;
      if (command == F.KEY_PACKET && value != 4) || (command == F.SETTINGS_PACKET && value != 5) {
        ParserReset();
        ghost var w := Board();
        KeyboardFault();
        RP.FaultedIsFaulted(old(Board()));
        assert w == old(Board()).(rx := F.Idle);
        return;
      }
      state := 2;
      if remaining == 0 { ParserReset(); }
    }

    /** A byte of a payload, the last of which completes the packet. */
    method PayloadByte(value: byte)
      requires Valid() && Listening() && state == 2
      modifies `state, `remaining, `used, `preparing, `textPending, `faulted, `faultRequested, `source, `dispatched,
               payload, held, `log, `modifiers, `zeroDown
      ensures Valid() && faultRequested == old(faultRequested)
      ensures var o := F.Step(old(View()), value);
              o.Going? && dispatched == old(dispatched) + o.done && (!faulted ==> View() == o.next)
      ensures faulted ==> LetGo() && !preparing && !textPending && View() == F.Idle
      ensures !edits ==> Board() == RP.FeedByte(old(Board()), value)
    {
      hide Agrees, HasPhysical, CleanupEvents, RP.Faulted, RP.Dispatch, Wiped;
      ghost var kept := payload[..used];
      if used < 240 {
        payload[used] := value;
        used := used + 1;
        assert payload[..used] == kept + [value];
      }
      remaining := remaining - 1;
      if remaining == 0 {
        state := 0;
        Hand();
      }
    }

    /** A complete packet is handed to dispatch, unless it was too long to be kept. */
    method Hand()
      requires Valid() && Listening() && state == 0 && !F.WrongLength(command, length) && (length <= 240 ==> used == length)
      modifies `state, `remaining, `used, `preparing, `textPending, `faulted, `faultRequested, `source, `dispatched,
               held, `log, `modifiers, `zeroDown
      ensures Valid() && faultRequested == old(faultRequested)
      ensures dispatched == old(dispatched) + if length <= 240 then [old(Completed())] else []
      ensures if faulted then LetGo() && !preparing && !textPending && View() == F.Idle else View() == F.Idle
      ensures !edits ==> Board() == if length <= 240 then RP.Dispatch(old(Board()), old(Completed())) else old(Board())
    {
      hide Agrees, HasPhysical, CleanupEvents, RP.Faulted, RP.Dispatch, Wiped;
      if length <= 240 {
        dispatched := dispatched + [Completed()];
        Dispatch();
      }
    }

    /** A stream of bytes, as the interrupt feeds them. */
    method Feed(bytes: seq<byte>, clock: byte)
      requires Valid() && Listening()
      modifies this, payload, held
      ensures Valid() && uart == old(uart)
      ensures !faulted ==>
                match F.Run(old(View()), bytes)
                case Fault => false
                case Going(next, done) => View() == next && dispatched == old(dispatched) + done
      ensures faulted ==> LetGo() && !preparing && !textPending && View() == F.Idle
      ensures !edits ==> Board() == RP.FeedAll(old(Board()), bytes)
    {
      hide Agrees, HasPhysical, RP.FeedByte, RP.FeedAll, Wiped;
      ghost var p, w := View(), Board();
      FeedNothingYet(w, bytes);
      var i := 0;
      while i < |bytes|
        invariant 0 <= i <= |bytes| && Valid() && uart == old(uart)
        invariant faulted ==> LetGo() && !preparing && !textPending && View() == F.Idle
        invariant !edits ==> Board() == RP.FeedAll(w, bytes[..i])
        invariant !faulted ==>
                    match F.Run(p, bytes[..i])
                    case Fault => false
                    case Going(next, done) => View() == next && dispatched == old(dispatched) + done
      {
        F.RunConcat(p, bytes[..i], [bytes[i]]);
        RP.FeedSnoc(w, bytes[..i], bytes[i]);
        assert bytes[..i] + [bytes[i]] == bytes[..i + 1];
        assert [bytes[i]][1..] == [];
        Byte(bytes[i], clock);
        i := i + 1;
      }
      assert bytes[..i] == bytes;
    }
  }

  lemma FeedNothingYet(w: RP.Board, bytes: seq<byte>)
    ensures RP.FeedAll(w, bytes[..0]) == w
  {
  }

  /** How many keys of the release order a second pass that stands at `key` has behind it. */
  function Progress(key: nat): nat
    requires 1 <= key
  {
    if key <= FIRST_MODIFIER then 8 + key - 1 else if key <= LAST_MODIFIER + 1 then 8 + FIRST_MODIFIER - 1 else key - 1
  }

  /** Where a key stands in the release order. */
  lemma OrderAt(key: nat)
    requires 1 <= key <= KEY_MAX
    ensures |ReleaseOrder()| == KEY_MAX
    ensures FIRST_MODIFIER <= key <= LAST_MODIFIER ==> ReleaseOrder()[key - FIRST_MODIFIER] == key
    ensures key < FIRST_MODIFIER || key > LAST_MODIFIER ==> ReleaseOrder()[Progress(key)] == key
  {
  }

  lemma ReleasesSnoc(bits: seq<bv8>, m: byte, done: seq<nat>, key: nat)
    requires |bits| == 32 && key <= KEY_MAX && forall i :: 0 <= i < |done| ==> done[i] <= KEY_MAX
    ensures forall i :: 0 <= i < |done + [key]| ==> (done + [key])[i] <= KEY_MAX
    ensures Releases(bits, m, done + [key]) == Releases(bits, m, done) + if IsHeld(bits, key) then [Event(LockBits(m), key, false)] else []
  {
    assert (done + [key])[..|done|] == done;
  }

  /** Wiping the bitmap changes nothing when every key had been released. */
  lemma NothingHeld(was: seq<bv8>, now: seq<bv8>, log: seq<Event>, edits: bool)
    requires |was| == |now| == 32 && forall i :: 0 <= i < 32 ==> now[i] == 0
    requires !edits ==> Agrees(was, log) && forall k: nat {:trigger IsHeld(was, k)} :: k < 256 && IsHeld(was, k) ==> k > KEY_MAX || k == 0
    ensures forall k: nat :: k < 256 ==> !IsHeld(now, k)
    ensures !edits ==> Agrees(now, log)
  {
    forall k: nat | k < 256 ensures !IsHeld(now, k) { ZeroBits(k); }
    if !edits {
      forall k: nat | 1 <= k <= KEY_MAX ensures IsHeld(now, k) <==> LastDown(log, k) { assert !IsHeld(was, k); }
    }
  }

  lemma ZeroBits(k: nat)
    ensures !Bit(0, k)
  {
  }
}
