/** Session negotiation: the initiator and the peer side, each a small record updated in place. */
module ParallelSession {
  import opened Bytes
  import opened ParallelWire

  datatype Phase = Idle | Preparing | Committing | Active | Staged

  /** The contents of a session record: nonce and last block number, transaction, phase. */
  datatype State = State(bytes: seq<byte>, transaction: Word4, phase: Phase)
  {
    ghost predicate Valid() { |bytes| == 6 }
    function Nonce(): Word4 requires |bytes| == 6 { bytes[..4] }
  }

  /** `parallel_session_valid` */
  predicate RecordValid(p: Record)
  {
    p[0] == CHAR_E && p[1] == CHAR_X && p[2] == WIRE_VERSION && p[12] == EXEXT && p[13] == 0 && Nonzero(p[4..8])
  }

  function Pad(p: Record): Record { p[..14] + [0, 0] }

  function Txn(p: Record): Word4 { p[4..8] }
  function NonceOf(p: Record): Word4 { p[8..12] }

  // ------------------------------------------------------------------- the transitions, as functions

  function Invalidated(s: State): State
    requires s.Valid()
  {
    s.(phase := Idle, bytes := s.bytes[..4] + [0, 0])
  }

  function PrepareRecord(t: Word4): Record
  {
    [CHAR_E, CHAR_X, WIRE_VERSION, PREPARE] + t + [0, 0, 0, 0, EXEXT, 0, 0, 0]
  }

  predicate MayBegin(s: State, t: Word4) { Nonzero(t) && (s.phase == Idle || s.phase == Active) }

  function Begun(s: State, t: Word4): State
    requires s.Valid()
  {
    Invalidated(s).(transaction := t, phase := Preparing)
  }

  predicate AcceptsPrepare(s: State, reply: Record)
    requires s.Valid()
  {
    && RecordValid(reply) && Txn(reply) == s.transaction && s.phase == Preparing && reply[3] == ReplyTo(PREPARE)
    && Nonzero(NonceOf(reply)) && NonceOf(reply) != s.bytes[..4]
  }

  predicate AcceptsCommit(s: State, reply: Record)
    requires s.Valid()
  {
    && RecordValid(reply) && Txn(reply) == s.transaction && s.phase == Committing && reply[3] == ReplyTo(COMMIT)
    && NonceOf(reply) == s.bytes[..4]
  }

  function CommitRecord(reply: Record): Record { Pad(reply[3 := COMMIT]) }

  function Accepted(s: State, reply: Record): State
    requires s.Valid()
  {
    if AcceptsPrepare(s, reply) then s.(bytes := NonceOf(reply) + s.bytes[4..], phase := Committing)
    else if AcceptsCommit(s, reply) then s.(phase := Active)
    else s
  }

  predicate PeerStages(s: State, request: Record, nonce: Word4)
    requires s.Valid()
  {
    && RecordValid(request) && request[3] == PREPARE
    && !Nonzero(NonceOf(request)) && Nonzero(nonce) && nonce != s.bytes[..4]
  }

  predicate PeerActivates(s: State, request: Record)
    requires s.Valid()
  {
    && RecordValid(request) && request[3] == COMMIT && s.phase == Staged
    && Txn(request) == s.transaction && NonceOf(request) == s.bytes[..4]
  }

  function PeerNext(s: State, request: Record, nonce: Word4): State
    requires s.Valid()
  {
    if PeerStages(s, request, nonce) then State(nonce + [0, 0], Txn(request), Staged)
    else if PeerActivates(s, request) then s.(phase := Active)
    else s
  }

  function ReplyRecord(request: Record, nonce: Word4): Record
  {
    Pad(request[..8] + nonce + request[12..])[3 := ReplyTo(request[3])]
  }

  lemma ReplyBytes(q: Record, n: Word4, out: Record)
    requires forall i :: 0 <= i < 14 && i != 3 ==> out[i] == if 8 <= i < 12 then n[i - 8] else q[i]
    requires out[3] == ReplyTo(q[3]) && out[14] == out[15] == 0
    ensures out == ReplyRecord(q, n)
  {
  }

  lemma PrepareBytes(t: Word4, out: Record)
    requires out[0] == CHAR_E && out[1] == CHAR_X && out[2] == WIRE_VERSION && out[3] == PREPARE && out[12] == EXEXT
    requires forall i :: 4 <= i < 12 || 13 <= i < 16 ==> out[i] == if i < 8 then t[i - 4] else 0
    ensures out == PrepareRecord(t)
  {
  }

  // ------------------------------------------------------------------------------- the record itself

  class Session {
    var bytes: seq<byte>
    var transaction: Word4
    var phase: Phase

    ghost predicate Valid() reads this { |bytes| == 6 }
    function View(): State reads this { State(bytes, transaction, phase) }

    constructor ()
      ensures Valid() && View() == State([0, 0, 0, 0, 0, 0], ZERO4, Idle)
    {
      bytes, transaction, phase := [0, 0, 0, 0, 0, 0], ZERO4, Idle;
    }

    /** `parallel_session_invalidate`: the nonce is kept, only to refuse its reuse. */
    method Invalidate()
      requires Valid()
      modifies this
      ensures Valid() && View() == Invalidated(old(View()))
    {
      phase := Idle;
      bytes := bytes[4 := 0][5 := 0];
      assert bytes == old(bytes)[..4] + [0, 0];
    }

    /** `parallel_session_begin` */
    method Begin(t: Word4, request: array<byte>) returns (ok: bool)
      requires Valid() && request.Length == 16
      modifies this, request
      ensures Valid() && ok == MayBegin(old(View()), t)
      ensures ok ==> View() == Begun(old(View()), t) && request[..] == PrepareRecord(t)
      ensures !ok ==> View() == old(View()) && request[..] == old(request[..])
    {
      hide PrepareRecord;
      if !Nonzero(t) || (phase != Idle && phase != Active) { return false; }
      Invalidate();
      transaction := t;
      forall i | 0 <= i < 16 { request[i] := 0; }
      request[0], request[1], request[2], request[3], request[12] := CHAR_E, CHAR_X, WIRE_VERSION, PREPARE, EXEXT;
      forall i | 0 <= i < 4 { request[4 + i] := t[i]; }
      request[14], request[15] := 0, 0;
      phase := Preparing;
      ok := true;
      PrepareBytes(t, request[..]);
    }

    /** `parallel_session_accept`; `commit` may be the very buffer that holds the reply. */
    method Accept(reply: array<byte>, commit: array<byte>) returns (ok: bool)
      requires Valid() && reply.Length == 16 && commit.Length == 16
      modifies this, commit
      ensures Valid() && View() == Accepted(old(View()), old(reply[..]))
      ensures ok <==> AcceptsPrepare(old(View()), old(reply[..])) || AcceptsCommit(old(View()), old(reply[..]))
      ensures commit[..] == if AcceptsPrepare(old(View()), old(reply[..])) then CommitRecord(old(reply[..])) else old(commit[..])
    {
      ghost var r: Record := reply[..];
      assert reply[4..8] == r[4..8] && reply[8..12] == r[8..12];
      if !(reply[0] == CHAR_E && reply[1] == CHAR_X && reply[2] == WIRE_VERSION && reply[12] == EXEXT && reply[13] == 0
           && Nonzero(reply[4..8])) || reply[4..8] != transaction { return false; }
      if phase == Preparing && reply[3] == ReplyTo(PREPARE) {
        if !Nonzero(reply[8..12]) || reply[8..12] == bytes[..4] { return false; }
        bytes := reply[8..12] + bytes[4..];
        if commit != reply {
          forall i | 0 <= i < 16 { commit[i] := reply[i]; }
        }
        commit[3] := COMMIT;
        commit[14], commit[15] := 0, 0;
        phase := Committing;
        assert commit[..] == CommitRecord(r);
      } else if phase == Committing && reply[3] == ReplyTo(COMMIT) && reply[8..12] == bytes[..4] {
        phase := Active;
      } else {
        return false;
      }
      ok := true;
    }

    /** `parallel_session_peer`; `reply` may be the buffer that holds the request. */
    method Peer(request: array<byte>, nonce: Word4, reply: array<byte>) returns (ok: bool)
      requires Valid() && request.Length == 16 && reply.Length == 16
      modifies this, reply
      ensures Valid() && View() == PeerNext(old(View()), old(request[..]), nonce)
      ensures ok <==> PeerStages(old(View()), old(request[..]), nonce) || PeerActivates(old(View()), old(request[..]))
      ensures reply[..] == if ok then ReplyRecord(old(request[..]), View().Nonce()) else old(reply[..])
    {
      hide ReplyRecord;
      ghost var q: Record := request[..];
      assert request[4..8] == q[4..8] && request[8..12] == q[8..12];
      if !(request[0] == CHAR_E && request[1] == CHAR_X && request[2] == WIRE_VERSION && request[12] == EXEXT && request[13] == 0
           && Nonzero(request[4..8])) { return false; }
      if request[3] == PREPARE {
        if Nonzero(request[8..12]) || !Nonzero(nonce) || nonce == bytes[..4] { return false; }
        Invalidate();
        transaction := request[4..8];
        bytes := nonce + bytes[4..];
        phase := Staged;
      } else if request[3] == COMMIT && phase == Staged && request[4..8] == transaction && request[8..12] == bytes[..4] {
        phase := Active;
      } else {
        return false;
      }
      Answer(request, reply);
      ok := true;
    }

    /** The answer of the peer: the request, with its own nonce. */
    method Answer(request: array<byte>, reply: array<byte>)
      requires Valid() && request.Length == 16 && reply.Length == 16
      modifies reply
      ensures reply[..] == ReplyRecord(old(request[..]), bytes[..4])
    {
      ghost var q: Record := request[..];
      if reply != request {
        forall i | 0 <= i < 16 { reply[i] := request[i]; }
      }
      forall i | 0 <= i < 4 { reply[8 + i] := bytes[i]; }
      reply[3] := ReplyTo(reply[3]);
      reply[14], reply[15] := 0, 0;
      ReplyBytes(q, bytes[..4], reply[..]);
    }
  }
}
