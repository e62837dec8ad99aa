/** The foreground exchanges of the parallel transport: one shared record that is sent, and overwritten by its reply. */
module ConsoleExchange {
  import opened Bytes
  import opened ParallelWire
  import S = ParallelSession
  import H = Handover

  const PREPARE_KEEP: byte := 5
  const STREAM_OPS: set<byte> := {6, 8, 10}

  /** A reply about the return queue: the session's bytes repeated, and a length of at most 4096. */
  predicate StreamReply(q: Record, p: Record)
  {
    && p[..3] == q[..3] && p[4..10] == q[4..10] && p[12] == 0 && p[13] == 0
    && p[11] <= 16 && !(p[11] == 16 && p[10] != 0)
  }

  /** The reply filter of `emos_console_packet` for the parallel format. */
  predicate Matches(op: byte, q: Record, p: Record)
  {
    && p[2] == q[2] && p[3] == ReplyTo(op)
    && if op in STREAM_OPS then StreamReply(q, p)
       else if op == OFFER then BlockMatches(q, p, ReplyTo(op))
       else S.RecordValid(p) && p[4..8] == q[4..8]
            && if op == PREPARE || op == PREPARE_KEEP then Nonzero(p[8..12]) else p[8..12] == q[8..12]
  }

  /** The record an exchange sends. */
  function Asked(q: Record, op: byte): Record { S.Pad(q[3 := op]) }

  /** What goes out when the reply `p` takes the place of `q` after `k` bytes have gone. */
  function Emitted(q: Record, p: Record, k: nat): (out: Record)
    requires k <= 16
  {
    q[..k] + p[k..]
  }

  /** Replies of earlier exchanges that are still under way do a request no harm: whichever of them comes, and at whatever
      byte, the record goes out as asked. */
  ghost predicate Harmless(q: Record, op: byte, earlier: set<Record>)
  {
    forall p, k: nat :: p in earlier && k <= 16 && Matches(op, Asked(q, op), p) ==> Emitted(Asked(q, op), p, k) == Asked(q, op)
  }

  /** They are harmless exactly if the filter lets none of them in: any other changes the operation when it comes after
      three bytes. */
  lemma HarmlessExactly(q: Record, op: byte, earlier: set<Record>)
    requires 0 < op < 0x80
    ensures Harmless(q, op, earlier) <==> forall p :: p in earlier ==> !Matches(op, Asked(q, op), p)
  {
    forall p | p in earlier && Matches(op, Asked(q, op), p) ensures !Harmless(q, op, earlier) {
      assert Asked(q, op)[3] == op && p[3] != op;
      assert Emitted(Asked(q, op), p, 3)[3] == p[3];
    }
  }

  /** Acknowledgements of other sessions, and of numbers that the session has used up. */
  ghost predicate Outdated(session: seq<byte>, earlier: set<Record>)
    requires |session| == 6
  {
    forall p :: p in earlier ==> p[4..8] != session[..4] || Pair(p[8], p[9]) <= Pair(session[4], session[5])
  }

  /** They leave the next offer alone, and admitting it adds its own acknowledgement to them. */
  lemma OutdatedAreHarmless(session: seq<byte>, offer: Record, earlier: set<Record>, ack: Record)
    requires |session| == 6 && OfferValid(session, offer) && Outdated(session, earlier)
    requires ack[4..10] == offer[4..10]
    ensures Harmless(offer, OFFER, earlier) && forall p :: p in earlier ==> !Matches(OFFER, Asked(offer, OFFER), p)
    ensures Outdated(session[..4] + offer[8..10], earlier + {ack})
  {
    hide Nonzero, Low, High, OfferValid, Harmless;
    ValidOfferMeans(session, offer);
    var q := Asked(offer, OFFER);
    forall p | p in earlier ensures !Matches(OFFER, q, p) {
      assert p[4..8] == p[4..13][..4] && q[4..8] == q[4..13][..4];
      assert p[8] == p[4..13][4] && p[9] == p[4..13][5];
    }
    HarmlessExactly(offer, OFFER, earlier);
    var after := session[..4] + offer[8..10];
    assert after[..4] == session[..4] && after[4] == offer[8] && after[5] == offer[9];
    assert ack[8] == ack[4..10][4] && ack[9] == ack[4..10][5];
  }

  /** Replies to other transactions leave a prepare alone. */
  lemma OtherTransactionsAreHarmless(t: Word4, earlier: set<Record>)
    requires forall p :: p in earlier ==> S.Txn(p) != t
    ensures Harmless(S.PrepareRecord(t), PREPARE, earlier)
  {
    hide Harmless, Nonzero, S.RecordValid;
    var q := S.PrepareRecord(t);
    assert q[4..8] == t && Asked(q, PREPARE)[4..8] == q[4..8];
    HarmlessExactly(S.PrepareRecord(t), PREPARE, earlier);
  }

  /** They leave the commit alone that follows, and so does every other answer to the prepare. */
  lemma AnswersAreHarmless(r: Record, earlier: set<Record>, answers: set<Record>)
    requires forall p :: p in earlier ==> S.Txn(p) != S.Txn(r)
    requires forall p :: p in answers ==> p[3] == ReplyTo(PREPARE)
    ensures Harmless(S.CommitRecord(r), COMMIT, earlier + answers)
  {
    hide Harmless, Nonzero, S.RecordValid;
    assert Asked(S.CommitRecord(r), COMMIT)[4..8] == r[4..8];
    HarmlessExactly(S.CommitRecord(r), COMMIT, earlier + answers);
  }

  /** But polls repeat the identity of the session: what answered one is let in by every other. */
  lemma PollRepliesAreNot(q: Record, again: Record, op: byte, p: Record, earlier: set<Record>)
    requires op in STREAM_OPS && q[..3] == again[..3] && q[4..10] == again[4..10]
    requires p in earlier && Matches(op, Asked(q, op), p)
    ensures !Harmless(again, op, earlier)
  {
    hide Harmless;
    var a, b := Asked(q, op), Asked(again, op);
    assert a[..3] == q[..3] == b[..3] && a[4..10] == q[4..10] == b[4..10];
    assert a[2] == a[..3][2] && b[2] == b[..3][2];
    assert Matches(op, b, p);
    HarmlessExactly(again, op, earlier);
  }

  /** What went out is the record asked for exactly if the bytes still to go were the same in the reply. */
  lemma SentAsAskedExactly(q: Record, p: Record, k: nat)
    requires k <= 16
    ensures Emitted(q, p, k) == q <==> p[k..] == q[k..]
    ensures k == 16 ==> Emitted(q, p, k) == q
  {
    assert q == q[..k] + q[k..];
    assert Emitted(q, p, k)[k..] == p[k..];
  }

  /** For an offer that comes down to how far the record had gone: past the operation, which every reply changes, and at
      the end only zeros are the same. */
  lemma OfferSentAsAsked(offer: Record, p: Record, k: nat)
    requires k <= 16 && offer[13] == 0
    requires Matches(OFFER, Asked(offer, OFFER), p)
    ensures Emitted(Asked(offer, OFFER), p, k) == Asked(offer, OFFER)
            <==> k >= 4 && (k >= 15 || p[14] == 0) && (k >= 16 || p[15] == 0)
  {
    hide Nonzero, S.RecordValid;
    var q := Asked(offer, OFFER);
    SentAsAskedExactly(q, p, k);
    assert q[3] == OFFER && q[13] == 0 && q[14] == 0 && q[15] == 0;
    forall i | 4 <= i < 14 ensures p[i] == q[i] {
      if i < 13 { assert p[i] == p[4..13][i - 4] == q[4..13][i - 4] == q[i]; }
    }
    if k < 4 {
      assert p[k..][3 - k] == p[3] && q[k..][3 - k] == q[3];
    } else if (k >= 15 || p[14] == 0) && (k >= 16 || p[15] == 0) {
      assert forall i :: k <= i < 16 ==> p[i] == q[i];
      assert p[k..] == q[k..];
    } else {
      assert k < 15 ==> p[k..][14 - k] == p[14] && q[k..][14 - k] == q[14];
      assert p[k..][15 - k] == p[15] && q[k..][15 - k] == q[15];
    }
  }

  /** A status poll and a second copy of the reply to the poll before it: the filter lets the copy in, and if the first
      three bytes had gone then, a reply goes out in place of the poll. */
  lemma DuplicatePollReply(nonce: Word4, pending: byte) returns (q: Record, p: Record)
    requires Nonzero(nonce)
    ensures q == Asked(q, 8) && Matches(8, q, p)
    ensures Emitted(q, p, 3) != q && Emitted(q, p, 3) == p
  {
    q := [CHAR_E, CHAR_X, WIRE_VERSION, 8] + nonce + [1, 0, 0, 0, 0, 0, 0, 0];
    p := [CHAR_E, CHAR_X, WIRE_VERSION, 0x88] + nonce + [1, 0, pending, 0, 0, 0, 0, 0];
    assert q[4..10] == p[4..10];
    assert Emitted(q, p, 3)[3] == p[3];
    assert Emitted(q, p, 3) == p;
  }

  /** What goes before every record. */
  const PREFIX: seq<byte> := [23, 0, 0xF7]

  /** How an exchange, or what rests on it, ended: a byte was not sent; no reply came within the time or the polls allowed, or
      a fault did; or the session would not take the reply, or had lost its reservation. */
  datatype Ending = Fine | Unsent | Unanswered(waited: nat, left: nat) | Refused(reserved: bool, s: S.State, reply: Record)

  class Console {
    const request: array<byte>
    const session: S.Session
    const h: H.Sequencer
    var waiting: byte                  // operation whose reply is awaited, or 0
    var accepted: bool
    var faulted: bool                  // emos_key_faulted
    ghost var wire: seq<Record>        // records that went out whole
    ghost var heard: seq<Record>       // replies that were let in
    ghost var bytes: seq<byte>         // every byte that went out

    ghost predicate Valid()
      reads this, session
    {
      request.Length == 16 && session.Valid()
    }

    ghost function Request(): Record
      requires request.Length == 16
      reads request
    {
      request[..]
    }

    constructor ()
      ensures Valid() && fresh(request) && fresh(session) && fresh(h)
      ensures waiting == 0 && !accepted && !faulted && wire == [] && heard == [] && bytes == [] && forall i :: 0 <= i < 16 ==> request[i] == 0
      ensures session.View() == S.State([0, 0, 0, 0, 0, 0], ZERO4, S.Idle) && h.View() == H.FENCED
    {
      request := new byte[16](_ => 0);
      session := new S.Session();
      h := new H.Sequencer();
      waiting, accepted, faulted, wire, heard, bytes := 0, false, false, [], [], [];
    }

    /** `emos_console_packet`, in the interrupt: the first reply that matches replaces the record; all others change
        nothing. */
    method Packet(p: Record)
      requires request.Length == 16
      modifies `accepted, `heard, request
      ensures if old(waiting != 0 && !accepted && Matches(waiting, Request(), p))
              then accepted && Request() == p && heard == old(heard) + [p]
              else accepted == old(accepted) && Request() == old(Request()) && heard == old(heard)
    {
      if waiting == 0 || accepted || !Matches(waiting, request[..], p) { return; }
      forall i | 0 <= i < 16 { request[i] := p[i]; }
      accepted := true;
      heard := heard + [p];
      assert request[..] == p;
    }

    /** Since `q` was put into the record, either nothing was let in, or one matching reply has taken its place. */
    ghost predicate Untouched(q: Record, before: seq<Record>)
      requires request.Length == 16
      reads `accepted, `heard, `waiting, request
    {
      if accepted then heard == before + [Request()] && Matches(waiting, q, Request()) && waiting != 0
      else Request() == q && heard == before
    }

    method Interrupt(ghost q: Record, ghost before: seq<Record>)
      requires request.Length == 16 && Untouched(q, before)
      modifies `accepted, `heard, `faulted, request
      ensures Untouched(q, before)
      ensures old(accepted) ==> accepted && Request() == old(Request())
    {
      hide Matches;
      faulted := *;
      var p: Record := *;
      Packet(p);
    }

    /** The prefix goes out; replies may come in meanwhile. */
    method SendPrefix(ghost q: Record, ghost before: seq<Record>) returns (ok: bool, ghost blocked: bool)
      requires request.Length == 16 && !accepted && Untouched(q, before)
      modifies `accepted, `heard, `faulted, `bytes, request
      ensures Untouched(q, before) && (ok <==> !blocked)
      ensures ok ==> bytes == old(bytes) + PREFIX
    {
      hide Matches;
      blocked := false;
      for i := 0 to 3
        invariant Untouched(q, before) && bytes == old(bytes) + PREFIX[..i] && !blocked
      {
        Interrupt(q, before);
        bytes := bytes + [PREFIX[i]];
        assert PREFIX[..i + 1] == PREFIX[..i] + [PREFIX[i]];
        var sent: bool := *;
        blocked := !sent;
        if !sent { return false, blocked; }
      }
      assert PREFIX[..3] == PREFIX;
      ok := true;
    }

    /** The record goes out byte by byte, and replies may come in meanwhile; `gone` bytes had gone when one was let in. */
    method SendRequest(ghost q: Record, ghost before: seq<Record>) returns (ok: bool, ghost out: seq<byte>, ghost gone: nat, ghost blocked: bool)
      requires request.Length == 16 && Untouched(q, before)
      modifies `accepted, `heard, `faulted, `bytes, request
      ensures Untouched(q, before) && gone <= 16 && (ok <==> !blocked)
      ensures ok ==> (gone < 16 <==> accepted) && out == Emitted(q, Request(), gone) && bytes == old(bytes) + out
    {
      hide Matches;
      out, gone, blocked := [], 0, false;
      for i := 0 to 16
        invariant Untouched(q, before) && gone <= i && bytes == old(bytes) + out && !blocked
        invariant if accepted then (gone < i || gone == 0) && out == q[..gone] + Request()[gone..i] else gone == i && out == q[..i]
      {
        Interrupt(q, before);
        if !accepted { gone := i + 1; }
        out := out + [request[i]];
        bytes := bytes + [request[i]];
        var sent: bool := *;
        blocked := !sent;
        if !sent { return false, out, gone, blocked; }
      }
      ok := true;
      assert out == Emitted(q, Request(), gone);
    }

    /** `wait_reply`, for every behaviour of the clock: it ends with a reply, a fault, or the time or the polls used up. */
    method WaitReply(ghost q: Record, ghost before: seq<Record>) returns (ok: bool, ghost waited: nat, ghost left: nat)
      requires request.Length == 16 && Untouched(q, before)
      modifies `accepted, `heard, `faulted, request
      ensures Untouched(q, before) && (ok <==> accepted && !faulted)
      ensures accepted || faulted || waited >= H.LIMIT || left == 0
      ensures waited < H.LIMIT + 255
      ensures old(accepted) ==> Request() == old(Request())
    {
      hide Untouched;
      var ticks, budget: nat := 0, H.BUDGET;
      waited, left := 0, H.BUDGET;
      while !accepted && !faulted && ticks < H.LIMIT && budget > 0
        invariant Untouched(q, before) && (old(accepted) ==> accepted && Request() == old(Request()))
        invariant ticks == waited < H.LIMIT + 255 && budget == left
        decreases H.LIMIT - ticks, budget
      {
        Interrupt(q, before);
        var delta: byte :| true;
        ticks := ticks + delta;
        budget := if delta != 0 then H.BUDGET else budget - 1;
        waited, left := waited + delta, if delta != 0 then H.BUDGET else left - 1;
      }
      ok := accepted && !faulted;
    }

    /** `exchange`, in the parallel format: it succeeds exactly with one reply that matches what was asked, and that reply is
        then in the record.  What went out is the record as asked up to the byte at which the reply came, and from there
        on the reply. */
    method Exchange(op: byte) returns (ok: bool, ghost gone: nat, ghost end: Ending)
      requires request.Length == 16 && op != 0
      modifies `waiting, `accepted, `heard, `faulted, `wire, `bytes, request
      ensures waiting == 0 && gone <= 16
      ensures ok ==> heard == old(heard) + [Request()] && Matches(op, Asked(old(Request()), op), Request())
      ensures old(heard) <= heard && |heard| <= |old(heard)| + 1
      ensures ok ==> wire == old(wire) + [Emitted(Asked(old(Request()), op), Request(), gone)]
                     && bytes == old(bytes) + PREFIX + Emitted(Asked(old(Request()), op), Request(), gone)
      ensures ok <==> end == Fine
      ensures end in {Fine, Unsent} || (end.Unanswered? && (faulted || end.waited >= H.LIMIT || end.left == 0))
    {
      hide Matches;
      ghost var q, before := Asked(Request(), op), heard;
      request[3] := op;
      request[14], request[15] := 0, 0;
      assert Request() == q;
      accepted := false;
      waiting := op;
      gone, end := 0, Unsent;
      ghost var out, blocked;
      ok, blocked := SendPrefix(q, before);
      if ok {
        ok, out, gone, blocked := SendRequest(q, before);
      }
      if ok {
        assert !blocked;
        ghost var sent := Request();
        wire := wire + [out];
        ghost var waited, left;
        ok, waited, left := WaitReply(q, before);
        end := if accepted && !faulted then Fine else Unanswered(waited, left);
        if gone == 16 { SentAsAskedExactly(q, sent, 16); SentAsAskedExactly(q, Request(), 16); }
      }
      waiting := 0;
    }

    // ------------------------------------------------------------------------------------- negotiation

    /** `emos_parallel_session_accept`: never without the reservation. */
    method AcceptReply() returns (ok: bool, ghost reserved: bool)
      requires Valid()
      modifies request, session
      ensures Valid()
      ensures ok <==> h.phase == H.Uart && reserved
                      && old(S.AcceptsPrepare(session.View(), Request()) || S.AcceptsCommit(session.View(), Request()))
      ensures ok ==> old(S.AcceptsPrepare(session.View(), Request()) || S.AcceptsCommit(session.View(), Request()))
                     && session.View() == S.Accepted(old(session.View()), old(Request()))
                     && Request() == if old(S.AcceptsPrepare(session.View(), Request())) then S.CommitRecord(old(Request())) else old(Request())
      ensures !ok ==> session.View() == old(session.View())
    {
      hide S.RecordValid, S.AcceptsPrepare, S.AcceptsCommit;
      var held: bool := *;
      reserved := held;
      if h.phase != H.Uart || !held { return false, reserved; }
      ok := session.Accept(request, request);
    }

    /** `emos_parallel_session_cancel` */
    method Cancel()
      requires Valid()
      modifies session, h
      ensures Valid() && session.View() == S.Invalidated(old(session.View())) && h.View() == H.Cancelled(old(h.View()))
    {
      session.Invalidate();
      h.Cancel();
    }

    lemma PhasesOfAccept(s: S.State, r: Record)
      requires s.Valid()
      ensures S.AcceptsPrepare(s, r) ==> s.phase == S.Preparing && S.Accepted(s, r).phase == S.Committing
      ensures S.AcceptsCommit(s, r) ==> s.phase == S.Committing && S.Accepted(s, r).phase == S.Active
    {
    }

    lemma RecordsAreAsked(t: Word4, r: Record)
      ensures S.PrepareRecord(t)[3] == PREPARE && Asked(S.PrepareRecord(t), PREPARE) == S.PrepareRecord(t)
      ensures S.CommitRecord(r)[3] == COMMIT && Asked(S.CommitRecord(r), COMMIT) == S.CommitRecord(r)
    {
    }

    /** One exchange of the negotiation and what the session makes of its reply. */
    method Round() returns (ok: bool, ghost gone: nat, ghost r: Record, ghost end: Ending)
      requires Valid() && request[3] != 0 && Asked(Request(), request[3]) == Request() && h.phase == H.Uart
      modifies `waiting, `accepted, `heard, `faulted, `wire, `bytes, request, session, h
      ensures (ok <==> end == Fine) && Explained(end)
      ensures Valid() && waiting == 0
      ensures ok ==> heard == old(heard) + [r] && session.View() == S.Accepted(old(session.View()), r) && h.View() == old(h.View())
      ensures ok ==> S.AcceptsPrepare(old(session.View()), r) || S.AcceptsCommit(old(session.View()), r)
      ensures ok ==> Request() == if S.AcceptsPrepare(old(session.View()), r) then S.CommitRecord(r) else r
      ensures gone <= 16 && (ok ==> wire == old(wire) + [Emitted(old(Request()), r, gone)])
      ensures !ok ==> session.View() == S.Invalidated(old(session.View())) && h.View() == H.Cancelled(old(h.View()))
    {
      hide Matches, Asked, Emitted, S.AcceptsPrepare, S.AcceptsCommit, S.Accepted, S.CommitRecord, S.Invalidated;
      ok, gone, end := Exchange(request[3]);
      r := Request();
      if ok {
        ghost var s, reserved := session.View(), true;
        ok, reserved := AcceptReply();
        if !(reserved && (S.AcceptsPrepare(s, r) || S.AcceptsCommit(s, r))) { end := Refused(reserved, s, r); }
      }
      if !ok { Cancel(); }
    }

    /** What can be said of a failure. */
    ghost predicate Explained(end: Ending)
      reads `faulted
    {
      match end
      case Fine => true
      case Unsent => true
      case Unanswered(waited, left) => faulted || waited >= H.LIMIT || left == 0
      case Refused(reserved, s, r) => s.Valid() && !(reserved && (S.AcceptsPrepare(s, r) || S.AcceptsCommit(s, r)))
    }

    /** How far a negotiation of transaction `t` has come from session `s`: `r1` and `r2` are the peer's replies. */
    ghost predicate Negotiating(s: S.State, t: Word4, before: seq<Record>, r1: Record, r2: Record)
      requires Valid() && s.Valid()
      reads `heard, session, request, this
    {
      var begun := S.Begun(s, t);
      match session.phase
      case Preparing => session.View() == begun && Request() == S.PrepareRecord(t) && heard == before
      case Committing =>
        && S.AcceptsPrepare(begun, r1) && session.View() == S.Accepted(begun, r1)
        && Request() == S.CommitRecord(r1) && heard == before + [r1]
      case Active =>
        && S.AcceptsPrepare(begun, r1) && S.AcceptsCommit(S.Accepted(begun, r1), r2)
        && session.View() == S.Accepted(S.Accepted(begun, r1), r2) && heard == before + [r1, r2]
      case _ => false
    }

    /** What a negotiation has put on the wire, when its replies came after `g1` and `g2` bytes of what they answer. */
    ghost function Posted(phase: S.Phase, t: Word4, r1: Record, g1: nat, r2: Record, g2: nat): seq<Record>
      requires g1 <= 16 && g2 <= 16
    {
      match phase
      case Committing => [Emitted(S.PrepareRecord(t), r1, g1)]
      case Active => [Emitted(S.PrepareRecord(t), r1, g1), Emitted(S.CommitRecord(r1), r2, g2)]
      case _ => []
    }

    /** `emos_parallel_session_negotiate`: an active session rests on exactly two replies, one to the prepare and one to
        the commit that carries its nonce; anything else leaves no session. */
    method Negotiate(busy: bool, reserved: bool, t: Word4, ghost earlier: set<Record>)
      returns (ok: bool, ghost r1: Record, ghost g1: nat, ghost r2: Record, ghost g2: nat, ghost end: Ending)
      requires Valid()
      modifies `waiting, `accepted, `heard, `faulted, `wire, `bytes, request, session, h
      ensures Valid()
      ensures !MayNegotiate(busy, reserved, t, old(waiting), old(h.phase), old(session.View())) ==>
                !ok && Request() == old(Request()) && session.View() == old(session.View()) && h.View() == old(h.View())
                && wire == old(wire) && heard == old(heard)
      // past the gates it fails for a reason only
      ensures MayNegotiate(busy, reserved, t, old(waiting), old(h.phase), old(session.View())) ==> (ok <==> end == Fine) && Explained(end)
      ensures ok ==> session.phase == S.Active && Negotiating(old(session.View()), t, old(heard), r1, r2)
      ensures g1 <= 16 && g2 <= 16 && (ok ==> wire == old(wire) + Posted(S.Active, t, r1, g1, r2, g2))
      // if nothing that is still under way carries this transaction, both records went out as they are
      ensures ok && (forall p :: p in earlier ==> S.Txn(p) != t) && (g1 < 16 ==> r1 in earlier)
              && (g2 < 16 ==> r2 in earlier || r2[3] == ReplyTo(PREPARE)) ==>
                wire == old(wire) + [S.PrepareRecord(t), S.CommitRecord(r1)]
      ensures ok ==> h.View() == old(h.View())
      ensures MayNegotiate(busy, reserved, t, old(waiting), old(h.phase), old(session.View())) && !ok ==>
                session.phase == S.Idle && h.View() == H.Cancelled(old(h.View()))
    {
      hide S.AcceptsPrepare, S.AcceptsCommit, S.Accepted, S.CommitRecord, S.PrepareRecord, S.Begun, Asked, Emitted, S.MayBegin, Nonzero;
      ok, r1, g1, r2, g2, end := false, Request(), 16, Request(), 16, Fine;
      if busy || waiting != 0 || h.phase != H.Uart || !reserved { return; }
      ghost var s := session.View();
      var may := session.Begin(t, request);
      if !may { return; }
      BegunIsPreparing(s, t);
      while session.phase != S.Active
        invariant Valid() && h.View() == old(h.View()) && Negotiating(s, t, old(heard), r1, r2)
        invariant end == Fine
        invariant g1 <= 16 && g2 <= 16 && wire == old(wire) + Posted(session.phase, t, r1, g1, r2, g2)
        decreases if session.phase == S.Active then 0 else if session.phase == S.Committing then 1 else 2
      {
        RecordsAreAsked(t, r1);
        ghost var at := session.View();
        var again;
        ghost var gone, latest;
        again, gone, latest, end := Round();
        if !again { return; }
        PhasesOfAccept(at, latest);
        if at.phase == S.Preparing { r1, g1 := latest, gone; } else { r2, g2 := latest, gone; }
      }
      ok := true;
      BothAsAsked(s, t, old(heard), r1, g1, r2, g2);
    }

    /** The replies of a negotiation carry its transaction, and the second answers the commit. */
    lemma BothAsAsked(s: S.State, t: Word4, before: seq<Record>, r1: Record, g1: nat, r2: Record, g2: nat)
      requires Valid() && s.Valid() && session.phase == S.Active && Negotiating(s, t, before, r1, r2) && g1 <= 16 && g2 <= 16
      ensures S.Txn(r1) == S.Txn(r2) == t && r2[3] == ReplyTo(COMMIT)
      ensures g1 == g2 == 16 ==> Posted(S.Active, t, r1, g1, r2, g2) == [S.PrepareRecord(t), S.CommitRecord(r1)]
    {
      hide S.RecordValid, Nonzero, S.CommitRecord, S.PrepareRecord;
      SentAsAskedExactly(S.PrepareRecord(t), r1, 16);
      SentAsAskedExactly(S.CommitRecord(r1), r2, 16);
    }

    lemma BegunIsPreparing(s: S.State, t: Word4)
      requires s.Valid()
      ensures S.Begun(s, t).phase == S.Preparing
      ensures S.MayBegin(s, t) ==> Nonzero(t)
    {
    }

    /** What an active session stands for: the transaction that was asked for, and one nonce in both replies. */
    lemma AgreedIdentity(s: S.State, t: Word4, before: seq<Record>, r1: Record, r2: Record)
      requires Valid() && s.Valid() && session.phase == S.Active && Negotiating(s, t, before, r1, r2)
      ensures session.transaction == t == S.Txn(r1) == S.Txn(r2)
      ensures session.bytes[..4] == S.NonceOf(r1) == S.NonceOf(r2) && session.bytes[..4] != s.bytes[..4]
      ensures Nonzero(session.bytes[..4]) && session.bytes[4..] == [0, 0]
    {
    }

    // ----------------------------------------------------------------------------------- block admission

    /** `emos_parallel_handover_admit` behind `emos_parallel_session_admit`: an exact acknowledgement starts the handover
        and uses the number up, and is the only thing that does. */
    method Admit(mode: byte, reserved: bool, offer: Record) returns (ok: bool)
      requires Valid()
      modifies session`bytes, h
      ensures Valid()
      ensures ok <==> old(session.phase == S.Active && h.phase == H.Uart && OfferValid(session.bytes, offer)) && reserved && mode == EXEXT
                      && Request()[3] == ACK && Request()[..3] == offer[..3] && Request()[4..14] == offer[4..14]
      ensures ok ==> session.bytes == old(session.bytes)[..4] + offer[8..10]
                     && h.View() == old(h.View()).(failed := false, phase := H.Drain)
      ensures !ok ==> session.bytes == old(session.bytes) && h.View() == old(h.View())
    {
      hide OfferValid;
      if session.phase != S.Active || !reserved || mode != EXEXT || h.phase != H.Uart { return false; }
      if !OfferValid(session.bytes, offer) || request[3] != ACK
         || request[..3] != offer[..3] || request[4..14] != offer[4..14] { return false; }
      ok := h.Begin();
      session.bytes := session.bytes[4 := offer[8]][5 := offer[9]];
    }

    /** The acknowledgement that the reply filter lets in is the one that admission asks for. */
    lemma MatchIsAcknowledgement(session: seq<byte>, offer: Record, p: Record)
      requires |session| == 6 && OfferValid(session, offer) && Matches(OFFER, Asked(offer, OFFER), p)
      ensures p[3] == ACK && p[..3] == offer[..3] && p[4..14] == offer[4..14]
    {
      hide Nonzero, Low, High;
      var q := Asked(offer, OFFER);
      assert q[..3] == offer[..3] && q[4..13] == offer[4..13];
      assert p[4..14] == p[4..13] + [p[13]] && offer[4..14] == offer[4..13] + [offer[13]];
    }

    /** `emos_parallel_stream_control`: the answer comes from the peer of this very session, and says how much it holds. */
    method StreamControl(owned: bool, reserved: bool, op: byte) returns (ok: bool, pending: nat, ghost gone: nat, ghost end: Ending)
      requires Valid() && op in STREAM_OPS
      modifies `waiting, `accepted, `heard, `faulted, `wire, `bytes, request
      ensures Valid()
      ensures !(owned && old(waiting) == 0 && session.phase == S.Active && reserved) ==>
                !ok && Request() == old(Request()) && wire == old(wire) && heard == old(heard) && waiting == old(waiting)
      ensures owned && old(waiting) == 0 && session.phase == S.Active && reserved ==> (ok <==> end == Fine) && Explained(end)
      ensures ok ==> heard == old(heard) + [Request()] && Request()[3] == ReplyTo(op) && Request()[4..10] == session.bytes
                     && pending == Pair(Request()[10], Request()[11]) <= MAX_BLOCK
      ensures ok ==> gone <= 16 && wire == old(wire) + [Emitted(Asked(StreamRequest(session.bytes), op), Request(), gone)]
    {
      hide Matches, Asked, Emitted;
      ok, pending, gone, end := false, 0, 16, Fine;
      if !owned || waiting != 0 || session.phase != S.Active || !reserved { return; }
      forall i | 0 <= i < 16 { request[i] := 0; }
      request[0], request[1], request[2] := CHAR_E, CHAR_X, WIRE_VERSION;
      forall i | 0 <= i < 6 { request[4 + i] := session.bytes[i]; }
      assert Request() == StreamRequest(session.bytes);
      ok, gone, end := Exchange(op);
      if !ok { return; }
      StreamMatchesExactly(session.bytes, op, Request());
      assert Request()[..4][3] == Request()[3];
      pending := (request[10] as int) + 256 * (request[11] as int);
    }

    /** `emos_parallel_block_offer`: one exchange, and then the block is admitted or there is no session any more. */
    method OfferBlock(busy: bool, mode: byte, reserved: bool, offer: Record, ghost earlier: set<Record>)
      returns (ok: bool, ghost gone: nat, ghost end: Ending)
      requires Valid()
      modifies `waiting, `accepted, `heard, `faulted, `wire, `bytes, request, session, h
      ensures Valid()
      ensures !MayOffer(busy, mode, reserved, offer, old(waiting), old(h.phase), old(session.View())) ==>
                !ok && Request() == old(Request()) && session.View() == old(session.View()) && h.View() == old(h.View())
                && wire == old(wire) && heard == old(heard)
      // past the gates it fails only if no reply came, or the reservation was lost
      ensures MayOffer(busy, mode, reserved, offer, old(waiting), old(h.phase), old(session.View())) ==>
                (ok <==> end == Fine) && Explained(end) && (end.Refused? ==> !end.reserved)
      ensures ok ==>
                && MayOffer(busy, mode, reserved, offer, old(waiting), old(h.phase), old(session.View()))
                && |heard| == |old(heard)| + 1 && heard[|heard| - 1] == Request()
                && Request()[3] == ACK && Request()[..3] == offer[..3] && Request()[4..14] == offer[4..14]
                && session.View() == old(session.View()).(bytes := old(session.bytes)[..4] + offer[8..10])
                && h.phase == H.Drain && !h.failed
      ensures gone <= 16 && (ok ==> wire == old(wire) + [Emitted(Asked(offer, OFFER), Request(), gone)])
      // if all that is still under way is outdated, the offer went out as it is, and it is all outdated again
      ensures ok && Outdated(old(session.bytes), earlier) && (gone < 16 ==> Request() in earlier) ==>
                wire == old(wire) + [Asked(offer, OFFER)] && Outdated(session.bytes, earlier + {Request()})
      ensures MayOffer(busy, mode, reserved, offer, old(waiting), old(h.phase), old(session.View())) && !ok ==>
                session.View() == S.Invalidated(old(session.View())) && h.View() == H.Cancelled(old(h.View()))
    {
      hide OfferValid, Matches, Asked, Emitted, S.Invalidated, Outdated;
      gone, end := 16, Fine;
      if busy || waiting != 0 || mode != EXEXT || h.phase != H.Uart || session.phase != S.Active || !reserved
         || !OfferValid(session.bytes, offer) { return false, gone, end; }
      forall i | 0 <= i < 16 { request[i] := offer[i]; }
      assert Request() == offer;
      ok, gone, end := Exchange(OFFER);
      if ok {
        MatchIsAcknowledgement(session.bytes, offer, Request());
        if Outdated(session.bytes, earlier) {
          assert Request()[4..10] == Request()[4..14][..6] && offer[4..10] == offer[4..14][..6];
          OutdatedAreHarmless(session.bytes, offer, earlier, Request());
          SentAsAskedExactly(Asked(offer, OFFER), Request(), 16);
        }
        var still: bool := *;
        if !still { end := Refused(false, session.View(), Request()); }
        ok := Admit(mode, still, offer);
      }
      if !ok { Cancel(); }
    }
  }

  /** The record of a stream operation: the identity of the session. */
  function StreamRequest(session: seq<byte>): Record
    requires |session| == 6
  {
    [CHAR_E, CHAR_X, WIRE_VERSION, 0] + session + [0, 0, 0, 0, 0, 0]
  }

  /** What the filter lets in, operation by operation.  For a stream operation: the identity of the session, and a length of at
      most 4096. */
  lemma StreamMatchesExactly(session: seq<byte>, op: byte, p: Record)
    requires |session| == 6 && op in STREAM_OPS
    ensures Matches(op, Asked(StreamRequest(session), op), p) <==>
              p[..4] == [69, 88, 4, op + 0x80] && p[4..10] == session && Pair(p[10], p[11]) <= 4096 && p[12] == 0 && p[13] == 0
  {
    hide Pair;
    PairIsZero(p[10], p[11]);
    var r := StreamRequest(session);
    var q := Asked(r, op);
    assert r[..3] == [69, 88, 4] && r[2] == 4 && r[4..10] == session;
    assert q[..3] == r[..3] && q[4..10] == r[4..10];
    assert p[..4] == p[..3] + [p[3]] && (p[..3] == [69, 88, 4] ==> p[2] == p[..3][2]);
  }

  /** For an offer: its acknowledgement, whatever the two last bytes. */
  lemma OfferMatchesExactly(offer: Record, p: Record)
    requires offer[..4] == [69, 88, 4, 2] && offer[13] == 0
    ensures Matches(OFFER, Asked(offer, OFFER), p) <==> p[..14] == [69, 88, 4, 0x82] + offer[4..14]
  {
    var q := Asked(offer, OFFER);
    assert offer[..4][0] == offer[0] && offer[..4][1] == offer[1] && offer[..4][2] == offer[2];
    assert q[..3] == [69, 88, 4] && q[2] == 4 && q[4..13] == offer[4..13] && offer[4..14] == offer[4..13] + [0];
    assert p[..14] == p[..3] + [p[3]] + p[4..13] + [p[13]];
    assert p[..3] == [69, 88, 4] ==> p[2] == p[..3][2];
    assert [69, 88, 4, 0x82] + offer[4..14] == [69 as byte, 88, 4] + [0x82] + offer[4..13] + [0];
  }

  /** For a prepare: a nonce for this transaction. */
  lemma PrepareMatchesExactly(t: Word4, p: Record)
    requires t != [0, 0, 0, 0]
    ensures Matches(PREPARE, Asked(S.PrepareRecord(t), PREPARE), p) <==>
              p[..4] == [69, 88, 4, 0x81] && p[4..8] == t && p[8..12] != [0, 0, 0, 0] && p[12] == 3 && p[13] == 0
  {
    var r := S.PrepareRecord(t);
    assert r[4..8] == t && Asked(r, PREPARE)[4..8] == r[4..8] && Asked(r, PREPARE)[2] == 4;
    assert p[..4] == [p[0], p[1], p[2], p[3]];
  }

  lemma InParts(p: Record, a: Word4, b: Word4, c: Word4, d: seq<byte>)
    requires |d| == 2
    ensures p[..14] == a + b + c + d <==> p[..4] == a && p[4..8] == b && p[8..12] == c && p[12] == d[0] && p[13] == d[1]
  {
    var x, y := p[..14], a + b + c + d;
    assert x == p[..4] + p[4..8] + p[8..12] + [p[12], p[13]] && d == [d[0], d[1]];
    assert p[..4] == x[..4] && p[4..8] == x[4..8] && p[8..12] == x[8..12] && p[12] == x[12] && p[13] == x[13];
    assert y[..4] == a && y[4..8] == b && y[8..12] == c && y[12] == d[0] && y[13] == d[1];
  }

  /** For a commit: the same record with the bit of a reply. */
  lemma CommitMatchesExactly(r: Record, p: Record)
    requires S.RecordValid(r)
    ensures Matches(COMMIT, Asked(S.CommitRecord(r), COMMIT), p) <==> p[..14] == [69, 88, 4, 0x83] + r[4..12] + [3, 0]
  {
    var q := Asked(S.CommitRecord(r), COMMIT);
    assert q[4..8] == r[4..8] && q[8..12] == r[8..12] && q[2] == 4;
    assert r[4..12] == r[4..8] + r[8..12] && p[..4] == [p[0], p[1], p[2], p[3]];
    InParts(p, [69, 88, 4, 0x83], r[4..8], r[8..12], [3, 0]);
  }

  /** The gates of an offer. */
  predicate MayOffer(busy: bool, mode: byte, reserved: bool, offer: Record, waiting: byte, phase: H.Phase, s: S.State)
  {
    !busy && waiting == 0 && mode == EXEXT && phase == H.Uart && s.phase == S.Active && reserved
    && |s.bytes| == 6 && OfferValid(s.bytes, offer)
  }

  /** A number that was admitted cannot be offered again in the session. */
  lemma NumberUsedUp(session: seq<byte>, offer: Record)
    requires |session| == 6 && OfferValid(session, offer)
    ensures var after := session[..4] + offer[8..10];
            && Pair(after[4], after[5]) == Pair(session[4], session[5]) + 1 && after[..4] == session[..4]
            && !OfferValid(after, offer)
  {
    hide Nonzero;
    ValidOfferMeans(session, offer);
    var after := session[..4] + offer[8..10];
    if OfferValid(after, offer) {
      ValidOfferMeans(after, offer);
      assert false;
    }
  }

  /** The gates of a negotiation, all of them before anything is touched. */
  predicate MayNegotiate(busy: bool, reserved: bool, t: Word4, waiting: byte, phase: H.Phase, s: S.State)
  {
    !busy && waiting == 0 && phase == H.Uart && reserved && S.MayBegin(s, t)
  }
}
