/** The session handshake as a two-party protocol.

    The channel may lose, delay, duplicate and reorder control records, but delivers only records that
    were sent: everything ever sent stays available, and any of it may be delivered at any time, any
    number of times, or never.  A request may also be overwritten by a reply while it is sent. */
module SessionProtocol {
  import opened Bytes
  import opened ParallelWire
  import opened ParallelSession
  import C = ConsoleExchange

  datatype Activation = Activation(txn: Word4, nonce: Word4)

  datatype World = World(
    initiator: State,
    peer: State,
    requests: set<Record>,          // records the initiator has sent
    replies: set<Record>,           // records the peer has sent
    begun: seq<Word4>,              // transactions the initiator has begun, in order
    staged: seq<Word4>,             // nonces the peer has staged, in order
    initiatorActive: seq<Activation>,
    peerActive: seq<Activation>)

  datatype Event =
    | Begin(txn: Word4)
    | Cancel                        // the initiator gives its session up
    | Overwrite(request: Record, reply: Record, sent: nat)   // the reply is let in when so many bytes have been sent
    | DeliverReply(reply: Record)
    | DeliverRequest(request: Record, nonce: Word4)
    | PeerReset

  const INITIAL: World :=
    World(State([0, 0, 0, 0, 0, 0], ZERO4, Idle), State([0, 0, 0, 0, 0, 0], ZERO4, Idle), {}, {}, [], [], [], [])

  function Apply(w: World, e: Event): World
    requires w.initiator.Valid() && w.peer.Valid()
  {
    match e
    case Begin(t) =>
      if !MayBegin(w.initiator, t) then w
      else w.(initiator := Begun(w.initiator, t), requests := w.requests + {PrepareRecord(t)}, begun := w.begun + [t])
    case Cancel => w.(initiator := Invalidated(w.initiator))
    case Overwrite(q, r, k) =>
      if q !in w.requests || r !in w.replies || k > 16 || !C.Matches(q[3], q, r) then w
      else w.(requests := w.requests + {C.Emitted(q, r, k)})
    case DeliverReply(r) =>
      if r !in w.replies then w
      else
        var s := Accepted(w.initiator, r);
        if AcceptsPrepare(w.initiator, r) then w.(initiator := s, requests := w.requests + {CommitRecord(r)})
        else if AcceptsCommit(w.initiator, r) then
          w.(initiator := s, initiatorActive := w.initiatorActive + [Activation(s.transaction, s.Nonce())])
        else w
    case DeliverRequest(q, n) =>
      if q !in w.requests then w
      else
        var s := PeerNext(w.peer, q, n);
        if PeerStages(w.peer, q, n) then
          w.(peer := s, replies := w.replies + {ReplyRecord(q, s.Nonce())}, staged := w.staged + [n])
        else if PeerActivates(w.peer, q) then
          w.(peer := s, replies := w.replies + {ReplyRecord(q, s.Nonce())},
             peerActive := w.peerActive + [Activation(s.transaction, s.Nonce())])
        else w
    case PeerReset => w.(peer := Invalidated(w.peer))
  }

  /** The world after a sequence of events. */
  function After(es: seq<Event>): (w: World)
    ensures w.initiator.Valid() && w.peer.Valid()
  {
    if es == [] then INITIAL else Apply(After(es[..|es| - 1]), es[|es| - 1])
  }

  ghost predicate NoRepeats<T>(s: seq<T>) { forall i, j :: 0 <= i < j < |s| ==> s[i] != s[j] }

  // ------------------------------------------------------------------------------------- agreement

  ghost predicate Safe(w: World)
  {
    && w.initiator.Valid() && w.peer.Valid()
    // a commit reply on the wire is evidence of a peer activation
    && (forall r :: r in w.replies && r[3] == ReplyTo(COMMIT) ==> Activation(Txn(r), NonceOf(r)) in w.peerActive)
    && (forall a :: a in w.initiatorActive ==> a in w.peerActive)
    && (w.initiator.phase == Active ==> Activation(w.initiator.transaction, w.initiator.Nonce()) in w.initiatorActive)
  }

  lemma ReplyFields(q: Record, n: Word4)
    ensures var r := ReplyRecord(q, n); Txn(r) == Txn(q) && NonceOf(r) == n && r[3] == ReplyTo(q[3])
    ensures RecordValid(q) ==> RecordValid(ReplyRecord(q, n))
  {
    var b := q[..8] + n + q[12..];
    assert b[4..8] == q[4..8] && b[8..12] == n;
    assert ReplyRecord(q, n)[4..8] == b[4..8] && ReplyRecord(q, n)[8..12] == b[8..12];
  }

  lemma SafeStep(w: World, e: Event)
    requires Safe(w)
    ensures Safe(Apply(w, e))
  {
    match e
    case Begin(t) =>
    case Cancel =>
    case Overwrite(_, _, _) =>
    case DeliverReply(r) =>
      if r in w.replies && AcceptsCommit(w.initiator, r) {
        assert Activation(Txn(r), NonceOf(r)) in w.peerActive;
      }
    case DeliverRequest(q, n) =>
      var s := PeerNext(w.peer, q, n);
      ReplyFields(q, s.Nonce());
    case PeerReset =>
  }

  lemma {:induction false} SafeAlways(es: seq<Event>)
    ensures Safe(After(es))
  {
    if es != [] {
      SafeAlways(es[..|es| - 1]);
      SafeStep(After(es[..|es| - 1]), es[|es| - 1]);
    }
  }

  /** Whenever the initiator considers a session active, the peer has entered that very session; so has it
      for every session the initiator ever entered. */
  lemma Agreement(es: seq<Event>)
    ensures var w := After(es);
            && (w.initiator.phase == Active ==> Activation(w.initiator.transaction, w.initiator.Nonce()) in w.peerActive)
            && forall a :: a in w.initiatorActive ==> a in w.peerActive
  {
    SafeAlways(es);
  }

  // ---------------------------------------------------------------------------- one for one, when fresh

  ghost predicate InitiatorFresh(w: World)
  {
    && w.initiator.Valid()
    && (forall a :: a in w.initiatorActive ==> a.txn in w.begun)
    && NoRepeatedTxn(w.initiatorActive)
    // a transaction still being negotiated is the latest one begun and has not been activated
    && (w.initiator.phase != Idle && w.initiator.phase != Active ==>
          && w.begun != [] && w.initiator.transaction == w.begun[|w.begun| - 1]
          && forall a :: a in w.initiatorActive ==> a.txn != w.initiator.transaction)
  }

  ghost predicate NoRepeatedTxn(s: seq<Activation>) { forall i, j :: 0 <= i < j < |s| ==> s[i].txn != s[j].txn }

  lemma InitiatorFreshStep(w: World, e: Event)
    requires InitiatorFresh(w) && w.peer.Valid()
    requires NoRepeats(Apply(w, e).begun)
    ensures InitiatorFresh(Apply(w, e))
  {
    match e
    case Begin(t) =>
      if MayBegin(w.initiator, t) {
        var w' := Apply(w, e);
        assert w'.begun[..|w.begun|] == w.begun;
        assert t !in w.begun by {
          forall i | 0 <= i < |w.begun| ensures w.begun[i] != t {
            assert w'.begun[i] == w.begun[i] && w'.begun[|w.begun|] == t;
          }
        }
      }
    case _ =>
  }

  ghost predicate PeerFresh(w: World)
  {
    && w.peer.Valid()
    && (forall a :: a in w.peerActive ==> a.nonce in w.staged)
    && NoRepeats(w.peerActive)
    && (w.peer.phase == Staged ==>
          && w.staged != [] && w.peer.Nonce() == w.staged[|w.staged| - 1]
          && forall a :: a in w.peerActive ==> a.nonce != w.peer.Nonce())
  }

  lemma PeerFreshStep(w: World, e: Event)
    requires PeerFresh(w) && w.initiator.Valid()
    requires NoRepeats(Apply(w, e).staged)
    ensures PeerFresh(Apply(w, e))
  {
    match e
    case DeliverRequest(q, n) =>
      if q in w.requests && PeerStages(w.peer, q, n) {
        var w' := Apply(w, e);
        assert n !in w.staged by {
          forall i | 0 <= i < |w.staged| ensures w.staged[i] != n {
            assert w'.staged[i] == w.staged[i] && w'.staged[|w.staged|] == n;
          }
        }
      }
    case _ =>
  }

  lemma HistoriesGrow(w: World, e: Event)
    requires w.initiator.Valid() && w.peer.Valid()
    ensures w.begun <= Apply(w, e).begun && w.staged <= Apply(w, e).staged
  {
  }

  lemma PrefixNoRepeats<T>(s: seq<T>, t: seq<T>)
    requires s <= t && NoRepeats(t)
    ensures NoRepeats(s)
  {
    assert forall i :: 0 <= i < |s| ==> s[i] == t[i];
  }

  lemma {:induction false} FreshAlways(es: seq<Event>)
    requires NoRepeats(After(es).begun) && NoRepeats(After(es).staged)
    ensures InitiatorFresh(After(es)) && PeerFresh(After(es))
  {
    if es != [] {
      var w, e := After(es[..|es| - 1]), es[|es| - 1];
      HistoriesGrow(w, e);
      PrefixNoRepeats(w.begun, Apply(w, e).begun);
      PrefixNoRepeats(w.staged, Apply(w, e).staged);
      FreshAlways(es[..|es| - 1]);
      InitiatorFreshStep(w, e);
      PeerFreshStep(w, e);
    }
  }

  /** If transactions and nonces are never reused, activations correspond one for one: each activation of
      the initiator is exactly one activation of the peer, and no two share one. */
  lemma OneForOne(es: seq<Event>, i: nat)
    requires NoRepeats(After(es).begun) && NoRepeats(After(es).staged)
    requires i < |After(es).initiatorActive|
    ensures var w := After(es);
            && (exists j :: 0 <= j < |w.peerActive| && w.peerActive[j] == w.initiatorActive[i])
            && (forall j, k | 0 <= j < k < |w.peerActive| ::
                  !(w.peerActive[j] == w.initiatorActive[i] && w.peerActive[k] == w.initiatorActive[i]))
            && (forall k :: 0 <= k < |w.initiatorActive| && k != i ==> w.initiatorActive[k] != w.initiatorActive[i])
  {
    FreshAlways(es);
    SafeAlways(es);
    assert After(es).initiatorActive[i] in After(es).initiatorActive;
  }

  // ------------------------------------------------------------------------------ overwritten requests

  /** What the peer looks at are the first 14 bytes. */
  lemma PadIsIgnored(s: State, g: Record, q: Record, n: Word4)
    requires s.Valid() && g[..14] == q[..14]
    ensures PeerStages(s, g, n) == PeerStages(s, q, n) && PeerActivates(s, g) == PeerActivates(s, q)
    ensures PeerNext(s, g, n) == PeerNext(s, q, n) && ReplyRecord(g, n) == ReplyRecord(q, n)
  {
    hide Nonzero;
    assert forall i :: 0 <= i < 14 ==> g[i] == g[..14][i] == q[..14][i] == q[i];
    assert Txn(g) == g[..14][4..8] == Txn(q) && NonceOf(g) == g[..14][8..12] == NonceOf(q);
    assert forall x: Record :: (x[..8] + n + x[12..])[..14] == x[..14][..8] + n + x[..14][12..];
  }

  /** A prepare record that a reply ran into is never activated on, and it is staged exactly if it would have been as it was
      meant, and no byte that the peer looks at is another. */
  lemma OverwrittenPrepare(s: State, t: Word4, r: Record, k: nat, n: Word4)
    requires s.Valid() && Nonzero(t) && k <= 16 && C.Matches(PREPARE, PrepareRecord(t), r)
    ensures var q := PrepareRecord(t); var g := C.Emitted(q, r, k);
            && !PeerActivates(s, g)
            && (PeerStages(s, g, n) <==> PeerStages(s, q, n) && g[..14] == q[..14])
  {
    var q := PrepareRecord(t);
    var g := C.Emitted(q, r, k);
    assert g[..14][3] == g[3] && q[..14][3] == q[3] == PREPARE && (k < 4 ==> g[3] == r[3]);
    assert NonceOf(g) == g[..14][8..12] && NonceOf(q) == q[..14][8..12] == ZERO4;
    if k >= 4 && NonceOf(g) == ZERO4 {
      AsMeant(q, r, k);
      PadIsIgnored(s, g, q, n);
    }
  }

  lemma AsMeant(q: Record, r: Record, k: nat)
    requires 4 <= k <= 16 && r[4..8] == q[4..8] && r[12] == q[12] && r[13] == q[13]
    requires NonceOf(C.Emitted(q, r, k)) == NonceOf(q)
    ensures C.Emitted(q, r, k)[..14] == q[..14]
  {
    var g := C.Emitted(q, r, k);
    forall i | 0 <= i < 14 ensures g[i] == q[i] {
      if 4 <= i < 8 { assert r[i] == r[4..8][i - 4] && q[i] == q[4..8][i - 4]; }
      if 8 <= i < 12 { assert g[i] == NonceOf(g)[i - 8] && q[i] == NonceOf(q)[i - 8]; }
    }
  }

  /** A commit record that a reply ran into is activated on exactly as it was meant, or, with its operation byte changed,
      refused. */
  lemma OverwrittenCommit(s: State, answer: Record, r: Record, k: nat, n: Word4)
    requires s.Valid() && RecordValid(answer) && k <= 16 && C.Matches(COMMIT, CommitRecord(answer), r)
    ensures var q := CommitRecord(answer); var g := C.Emitted(q, r, k);
            && !PeerStages(s, g, n)
            && (PeerActivates(s, g) <==> PeerActivates(s, q) && k >= 4)
            && (k >= 4 <==> g[..14] == q[..14])
  {
    hide Nonzero;
    var q := CommitRecord(answer);
    var g := C.Emitted(q, r, k);
    CommitFields(answer);
    assert q[4..8] == r[4..8] && q[8..12] == r[8..12];
    if k >= 4 {
      assert forall i :: 0 <= i < 4 ==> NonceOf(g)[i] == if 8 + i < k then q[8..12][i] else r[8..12][i];
      AsMeant(q, r, k);
      PadIsIgnored(s, g, q, n);
    } else {
      assert g[3] == r[3] && g[..14][3] == g[3];
    }
  }

  lemma AfterOneMore(es: seq<Event>, e: Event)
    ensures After(es + [e]) == Apply(After(es), e)
  {
    assert (es + [e])[..|es|] == es;
  }

  lemma CommitFields(r: Record)
    ensures var c := CommitRecord(r); Txn(c) == Txn(r) && NonceOf(c) == NonceOf(r) && c[3] == COMMIT
    ensures RecordValid(r) ==> RecordValid(CommitRecord(r))
  {
    var c := CommitRecord(r);
    assert c[4..8] == r[4..8] && c[8..12] == r[8..12];
  }

  /** The four records of an undisturbed handshake. */
  function Handshake(t: Word4, n: Word4): (h: (Record, Record, Record, Record))
  {
    var p := PrepareRecord(t);
    var r := ReplyRecord(p, n);
    var c := CommitRecord(r);
    (p, r, c, ReplyRecord(c, n))
  }

  lemma HandshakeFields(t: Word4, n: Word4)
    requires Nonzero(t)
    ensures var (p, r, c, a) := Handshake(t, n);
            && RecordValid(p) && p[3] == PREPARE && Txn(p) == t && NonceOf(p) == ZERO4
            && RecordValid(r) && r[3] == ReplyTo(PREPARE) && Txn(r) == t && NonceOf(r) == n
            && RecordValid(c) && c[3] == COMMIT && Txn(c) == t && NonceOf(c) == n
            && RecordValid(a) && a[3] == ReplyTo(COMMIT) && Txn(a) == t && NonceOf(a) == n
  {
    var (p, r, c, a) := Handshake(t, n);
    assert p[4..8] == t && p[8..12] == ZERO4;
    ReplyFields(p, n);
    CommitFields(r);
    ReplyFields(c, n);
  }

  /** The prepare and its reply, in a handshake that loses nothing. */
  lemma PrepareSteps(t: Word4, n: Word4) returns (w: World)
    requires Nonzero(t) && Nonzero(n)
    ensures var (p, r, c, _) := Handshake(t, n);
            && w == Apply(Apply(Apply(INITIAL, Begin(t)), DeliverRequest(p, n)), DeliverReply(r))
            && w == World(State(n + [0, 0], t, Committing), State(n + [0, 0], t, Staged), {p, c}, {r}, [t], [n], [], [])
  {
    var (p, r, c, a) := Handshake(t, n);
    HandshakeFields(t, n);
    hide After, Apply, Handshake, RecordValid, ReplyRecord, PrepareRecord, CommitRecord, Txn, NonceOf;
    assert PrepareRecord(t) == p && ReplyRecord(p, n) == r && CommitRecord(r) == c by { HandshakeIs(t, n); }
    FirstBegin(t);
    var w1 := Apply(INITIAL, Begin(t));
    Restaged(w1, p, n);
    var w2 := Apply(w1, DeliverRequest(p, n));
    FirstReply(w2, r);
    w := Apply(w2, DeliverReply(r));
    assert n + [0, 0, 0, 0, 0, 0][4..] == n + [0, 0];
  }

  lemma FirstBegin(t: Word4)
    requires Nonzero(t)
    ensures Apply(INITIAL, Begin(t))
            == INITIAL.(initiator := State([0, 0, 0, 0, 0, 0], t, Preparing), requests := {PrepareRecord(t)}, begun := [t])
  {
    hide PrepareRecord;
  }

  lemma FirstReply(w: World, r: Record)
    requires w.initiator.Valid() && w.peer.Valid() && r in w.replies && AcceptsPrepare(w.initiator, r)
    ensures Apply(w, DeliverReply(r))
            == w.(initiator := State(NonceOf(r) + w.initiator.bytes[4..], w.initiator.transaction, Committing),
                  requests := w.requests + {CommitRecord(r)})
  {
    hide CommitRecord, RecordValid, Txn, NonceOf;
  }

  /** The five steps. */
  lemma HandshakeSteps(t: Word4, n: Word4, other: Word4) returns (w: World)
    requires Nonzero(t) && Nonzero(n)
    ensures var (p, r, c, a) := Handshake(t, n);
            w == Apply(Apply(Apply(Apply(Apply(INITIAL, Begin(t)), DeliverRequest(p, n)), DeliverReply(r)), DeliverRequest(c, other)), DeliverReply(a))
    ensures w.initiator == State(n + [0, 0], t, Active) && w.peer == State(n + [0, 0], t, Active)
    ensures w.begun == [t] && w.staged == [n] && Handshake(t, n).0 in w.requests
  {
    var (p, r, c, a) := Handshake(t, n);
    HandshakeFields(t, n);
    hide After, Handshake, RecordValid, ReplyRecord, PrepareRecord, CommitRecord, Txn, NonceOf;
    assert ReplyRecord(c, n) == a by { HandshakeIs(t, n); }
    assert (n + [0, 0])[..4] == n;
    var w3 := PrepareSteps(t, n);
    var w4 := Apply(w3, DeliverRequest(c, other));
    assert w4.peer == State(n + [0, 0], t, Active) && w4.initiator == w3.initiator && a in w4.replies && w4.requests == {p, c};
    w := Apply(w4, DeliverReply(a));
  }

  /** Liveness of the protocol: delivered in order, the handshake makes both ends active. */
  lemma HandshakeCompletes(t: Word4, n: Word4, other: Word4) returns (es: seq<Event>)
    requires Nonzero(t) && Nonzero(n)
    ensures After(es).initiator.phase == Active && After(es).peer.phase == Active
    ensures After(es).initiator.Nonce() == n == After(es).peer.Nonce() && After(es).initiator.transaction == t
    ensures After(es).begun == [t] && After(es).staged == [n]
    ensures Handshake(t, n).0 in After(es).requests
  {
    hide After, Handshake, Apply;
    var (p, r, c, a) := Handshake(t, n);
    var w := HandshakeSteps(t, n, other);
    AfterNothing();
    AfterOneMore([], Begin(t));
    es := [] + [Begin(t)];
    AfterOneMore(es, DeliverRequest(p, n));
    es := es + [DeliverRequest(p, n)];
    AfterOneMore(es, DeliverReply(r));
    es := es + [DeliverReply(r)];
    AfterOneMore(es, DeliverRequest(c, other));
    es := es + [DeliverRequest(c, other)];
    AfterOneMore(es, DeliverReply(a));
    es := es + [DeliverReply(a)];
    assert After(es) == w;
  }

  lemma AfterNothing() ensures After([]) == INITIAL {}

  lemma HandshakeIs(t: Word4, n: Word4)
    ensures var (p, r, c, a) := Handshake(t, n); PrepareRecord(t) == p && ReplyRecord(p, n) == r && CommitRecord(r) == c && ReplyRecord(c, n) == a
  {
  }

  /** Agreement is about the past: the peer need not be in the session now.  A duplicate of the prepare
      record, delivered after both ends are active, takes the peer out again, with nothing reused. */
  lemma DuplicatePrepareDisplacesPeer(t: Word4, n: Word4, other: Word4) returns (es: seq<Event>)
    requires Nonzero(t) && Nonzero(n) && Nonzero(other) && n != other
    ensures After(es).initiator.phase == Active && After(es).peer.phase == Staged
    ensures After(es).initiator.Nonce() != After(es).peer.Nonce()
    ensures NoRepeats(After(es).begun) && NoRepeats(After(es).staged)
  {
    var before := HandshakeCompletes(t, n, other);
    HandshakeFields(t, n);
    var p := Handshake(t, n).0;
    es := before + [DeliverRequest(p, other)];
    AfterOneMore(before, DeliverRequest(p, other));
    hide After, Apply, Handshake, RecordValid, Txn, NonceOf;
    Restaged(After(before), p, other);
    assert (other + [0, 0])[..4] == other;
  }

  lemma Restaged(w: World, p: Record, other: Word4)
    requires w.initiator.Valid() && w.peer.Valid() && p in w.requests && PeerStages(w.peer, p, other)
    ensures Apply(w, DeliverRequest(p, other))
            == w.(peer := State(other + [0, 0], Txn(p), Staged), replies := w.replies + {ReplyRecord(p, other)}, staged := w.staged + [other])
  {
    hide ReplyRecord, RecordValid, Txn, NonceOf;
    assert (other + [0, 0])[..4] == other;
  }

  // ------------------------------------------------------------------- how long the peer stays in a session

  predicate InSession(w: World, a: Activation)
    requires w.peer.Valid()
  {
    w.peer.phase == Active && w.peer.transaction == a.txn && w.peer.Nonce() == a.nonce
  }

  /** The event makes the peer enter session `a`. */
  predicate Enters(w: World, e: Event, a: Activation)
    requires w.peer.Valid()
  {
    && e.DeliverRequest? && e.request in w.requests && !PeerStages(w.peer, e.request, e.nonce) && PeerActivates(w.peer, e.request)
    && a == Activation(w.peer.transaction, w.peer.Nonce())
  }

  /** The event takes the peer out of whatever session it is in: its reset, or a prepare record that it stages. */
  predicate Displaces(w: World, e: Event)
    requires w.peer.Valid()
  {
    e == PeerReset || (e.DeliverRequest? && e.request in w.requests && PeerStages(w.peer, e.request, e.nonce))
  }

  ghost predicate EnteredAt(es: seq<Event>, i: nat, a: Activation)
  {
    i < |es| && Enters(After(es[..i]), es[i], a)
  }

  /** The peer entered session `a` with event `i`, and no event since then has taken it out. */
  ghost predicate EnteredAndStayed(es: seq<Event>, i: nat, a: Activation)
  {
    && EnteredAt(es, i, a)
    && forall j :: i < j < |es| ==> !Displaces(After(es[..j]), es[j])
  }

  lemma InSessionStep(w: World, e: Event, a: Activation)
    requires w.initiator.Valid() && w.peer.Valid()
    ensures InSession(Apply(w, e), a) <==> (InSession(w, a) && !Displaces(w, e)) || Enters(w, e, a)
    ensures !(InSession(w, a) && Enters(w, e, a)) && !(Displaces(w, e) && Enters(w, e, a))
  {
  }

  lemma PrefixesOf(es: seq<Event>, n: nat)
    requires n <= |es|
    ensures forall j :: 0 <= j <= n ==> es[..n][..j] == es[..j]
  {
  }

  lemma StayedLonger(before: seq<Event>, e: Event, i: nat, a: Activation)
    requires i < |before|
    ensures EnteredAndStayed(before + [e], i, a) <==> EnteredAndStayed(before, i, a) && !Displaces(After(before), e)
  {
    hide After, Enters, Displaces;
    var es := before + [e];
    var n := |before|;
    assert es[..n] == before && es[i] == before[i] && es[n] == e;
    PrefixesOf(es, n);
    if EnteredAndStayed(es, i, a) {
      assert !Displaces(After(es[..n]), es[n]);
      forall j | i < j < n ensures !Displaces(After(before[..j]), before[j]) {
        assert es[..j] == before[..j] && es[j] == before[j];
      }
    }
    if EnteredAndStayed(before, i, a) && !Displaces(After(before), e) {
      forall j | i < j < n + 1 ensures !Displaces(After(es[..j]), es[j]) {
        if j < n { assert es[..j] == before[..j] && es[j] == before[j]; }
      }
    }
  }

  lemma JustEntered(before: seq<Event>, e: Event, a: Activation)
    ensures EnteredAndStayed(before + [e], |before|, a) <==> Enters(After(before), e, a)
  {
    hide After, Enters, Displaces;
    assert (before + [e])[..|before|] == before;
  }

  /** The peer is in session `a` if and only if it has entered it and no prepare record that it staged, and no reset, has
      come since. */
  lemma {:induction false} StaysExactly(es: seq<Event>, a: Activation)
    ensures InSession(After(es), a) <==> exists i: nat :: EnteredAndStayed(es, i, a)
  {
    hide Apply, Enters, Displaces, EnteredAndStayed;
    if es == [] {
      NeverIn(a);
    } else {
      hide After, InSession;
      var n := |es| - 1;
      var before, e := es[..n], es[n];
      assert es == before + [e];
      StaysExactly(before, a);
      InSessionStep(After(before), e, a);
      AfterOneMore(before, e);
      JustEntered(before, e, a);
      forall i: nat | i < n
        ensures EnteredAndStayed(es, i, a) <==> EnteredAndStayed(before, i, a) && !Displaces(After(before), e)
      {
        StayedLonger(before, e, i, a);
      }
      Bounds(before, a);
      Bounds(es, a);
      assert EnteredAndStayed(es, n, a) <==> Enters(After(before), e, a);
    }
  }

  lemma NeverIn(a: Activation)
    ensures !InSession(After([]), a) && forall i: nat :: !EnteredAndStayed([], i, a)
  {
  }

  lemma Bounds(es: seq<Event>, a: Activation)
    ensures forall i: nat :: EnteredAndStayed(es, i, a) ==> i < |es|
  {
  }

  lemma {:induction false} EnteredOnce(es: seq<Event>, a: Activation)
    requires a in After(es).peerActive
    ensures exists i: nat :: EnteredAt(es, i, a)
  {
    hide Apply, Enters;
    if es != [] {
      hide After;
      var n := |es| - 1;
      var before, e := es[..n], es[n];
      assert es == before + [e];
      AfterOneMore(before, e);
      if Enters(After(before), e, a) {
        assert EnteredAt(es, n, a);
      } else {
        NotEntered(After(before), e, a);
        EnteredOnce(before, a);
        var i: nat :| EnteredAt(before, i, a);
        assert es[..i] == before[..i];
        assert EnteredAt(es, i, a);
      }
    }
  }

  lemma NotEntered(w: World, e: Event, a: Activation)
    requires w.initiator.Valid() && w.peer.Valid() && !Enters(w, e, a) && a in Apply(w, e).peerActive
    ensures a in w.peerActive
  {
  }

  /** While the initiator is active the peer has entered the same session, and is still in it exactly if nothing has
      taken it out since. */
  lemma TogetherExactly(es: seq<Event>, a: Activation)
    requires After(es).initiator.phase == Active && a == Activation(After(es).initiator.transaction, After(es).initiator.Nonce())
    ensures exists i: nat :: EnteredAt(es, i, a)
    ensures InSession(After(es), a) <==> exists i: nat :: EnteredAndStayed(es, i, a)
  {
    hide After, Apply, Enters, InSession, EnteredAndStayed, EnteredAt;
    Agreement(es);
    EnteredOnce(es, a);
    StaysExactly(es, a);
  }
}
