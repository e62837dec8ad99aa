/** The memory effect of each list operation of the allocator, and what it does to the layout. */
module UmmListOps {
  import opened UmmLayout

  /** The links around a block. */
  lemma Around(m: seq<Word>, L: Layout, b: nat)
    requires Wf(m, L) && b in L.starts
    ensures InHeap(m, b) && b < 0x8000
    ensures b != 0 ==> P(m, b) in L.starts && P(m, b) < b && InHeap(m, P(m, b)) && N(m, P(m, b)) == b
    ensures b != Last(m) ==> N(m, b) in L.starts && b < N(m, b) && InHeap(m, N(m, b)) && P(m, N(m, b)) == b
    ensures b in L.free ==> b != 0 && b != Last(m) && N(m, b) !in L.free && P(m, b) !in L.free
    ensures Flagged(Raw(m, b)) <==> b in L.free
    ensures b !in L.free ==> Raw(m, b) == N(m, b)
  {
    assert b != 0 ==> N(m, P(m, b)) == b;
  }

  // ---------------------------------------------------------------------------------- disconnect

  /** `umm_disconnect_from_free_list` */
  function Disconnect(m: seq<Word>, c: nat): seq<Word>
    requires InHeap(m, c) && InHeap(m, PF(m, c)) && InHeap(m, NF(m, c))
    requires NF(m, c) != c && PF(m, c) != c
  {
    var m1 := SetNF(m, PF(m, c), NF(m, c));
    var m2 := SetPF(m1, NF(m1, c), PF(m1, c));
    SetRaw(m2, c, N(m2, c))
  }

  function Without<T>(s: seq<T>, i: nat): seq<T> requires i < |s| { s[..i] + s[i + 1..] }

  lemma RingNeighbours(m: seq<Word>, L: Layout, i: nat)
    requires Wf(m, L) && i < |L.free|
    ensures var c := L.free[i];
            && InHeap(m, c) && c != 0
            && PF(m, c) == Ring(L.free)[i] && NF(m, c) == Ring(L.free)[i + 2]
            && InHeap(m, PF(m, c)) && InHeap(m, NF(m, c)) && PF(m, c) != c && NF(m, c) != c
            && PF(m, c) in L.starts && NF(m, c) in L.starts
            && (PF(m, c) != 0 ==> PF(m, c) in L.free) && (NF(m, c) != 0 ==> NF(m, c) in L.free)
  {
    var r := Ring(L.free);
    assert r[i + 1] == L.free[i];
    assert i > 0 ==> r[i] == L.free[i - 1];
    assert i + 1 < |L.free| ==> r[i + 2] == L.free[i + 1];
  }

  /** What a walk along the free list meets at its `i`-th stop; stop `|L.free|` is the head again. */
  lemma WalkStep(m: seq<Word>, L: Layout, i: nat)
    requires Wf(m, L) && i <= |L.free|
    ensures |Ring(L.free)| == |L.free| + 2 && Ring(L.free)[0] == 0
    ensures var b := Ring(L.free)[i];
            && InHeap(m, b) && NF(m, b) == Ring(L.free)[i + 1]
            && (Ring(L.free)[i + 1] == 0 <==> i == |L.free|)
            && (i < |L.free| ==> var f := Ring(L.free)[i + 1]; f == L.free[i] && f in L.free && f in L.starts && InHeap(m, f) && f < N(m, f) <= 32766)
    ensures forall f :: f in L.free ==> InHeap(m, f)
    ensures forall f :: f in L.free[i..] ==> InHeap(m, f)
    ensures forall f :: f in L.free[..i] ==> InHeap(m, f)
  {
    var r := Ring(L.free);
    RingMember(m, L, i);
    assert i < |L.free| ==> r[i + 1] == L.free[i] && L.free[i] in L.free;
    if i < |L.free| { Around(m, L, L.free[i]); }
  }

  lemma RingDistinct(L: Layout, i: nat, j: nat)
    requires Distinct(L.free) && 0 !in L.free
    requires i <= |L.free| && j <= |L.free| && i != j
    ensures Ring(L.free)[i] != Ring(L.free)[j]
  {
    var r := Ring(L.free);
    assert i > 0 ==> r[i] == L.free[i - 1];
    assert j > 0 ==> r[j] == L.free[j - 1];
  }

  lemma DisconnectEffect(m: seq<Word>, c: nat)
    requires InHeap(m, c) && InHeap(m, PF(m, c)) && InHeap(m, NF(m, c))
    requires NF(m, c) != c && PF(m, c) != c
    ensures var m' := Disconnect(m, c);
            && |m'| == |m|
            && (forall b: nat {:trigger Raw(m', b)} :: InHeap(m, b) ==> Raw(m', b) == if b == c then N(m, c) else Raw(m, b))
            && (forall b: nat {:trigger N(m', b)} :: InHeap(m, b) ==> N(m', b) == N(m, b))
            && (forall b: nat {:trigger P(m', b)} :: InHeap(m, b) ==> P(m', b) == P(m, b))
            && (forall b: nat {:trigger NF(m', b)} :: InHeap(m, b) ==> NF(m', b) == if b == PF(m, c) then NF(m, c) else NF(m, b))
            && (forall b: nat {:trigger PF(m', b)} :: InHeap(m, b) ==> PF(m', b) == if b == NF(m, c) then PF(m, c) else PF(m, b))
            && Touches(m, m', {c}, {PF(m, c), NF(m, c)})
  {
  }

  /** Chain depends on the headers of the blocks only. */
  lemma ChainSame(m: seq<Word>, m': seq<Word>, B: set<nat>)
    requires Chain(m, B) && |m'| == |m|
    requires forall b: nat {:trigger N(m', b)} :: b in B ==> N(m', b) == N(m, b)
    requires forall b: nat {:trigger P(m', b)} :: b in B ==> P(m', b) == P(m, b)
    requires m'[0].next == 1 && m'[2 * Last(m)].next == 0
    ensures Chain(m', B)
  {
  }

  /** Writes to block headers and to the bodies of free blocks stay out of every payload. */
  lemma PayloadUntouched(m: seq<Word>, L: Layout, m': seq<Word>, H: set<nat>, F: set<nat>, x: nat)
    requires Wf(m, L) && Touches(m, m', H, F) && IsLive(m, L, x)
    requires forall h :: h in H ==> h in L.starts || h <= x || N(m, x) <= h
    requires forall f :: f in F ==> f != x && (f in L.starts || f <= x || N(m, x) <= f)
    ensures Kept(m, m', 2 * x + 1, 2 * N(m, x))
  {
    assert x < N(m, x);
    forall j | 0 <= j < |m| && 2 * x + 1 <= j < 2 * N(m, x)
      ensures m'[j] == m[j]
    {
      if m'[j] != m[j] {
        assert false;
      }
    }
  }

  lemma WithoutMembers(s: seq<nat>, i: nat)
    requires i < |s| && Distinct(s)
    ensures Distinct(Without(s, i))
    ensures forall f :: f in Without(s, i) <==> f in s && f != s[i]
  {
  }

  lemma DisconnectShape(m: seq<Word>, L: Layout, i: nat)
    requires Wf(m, L) && i < |L.free|
    requires var c := L.free[i]; InHeap(m, c) && InHeap(m, PF(m, c)) && InHeap(m, NF(m, c)) && PF(m, c) != c && NF(m, c) != c
    ensures Wf(Disconnect(m, L.free[i]), L.(free := Without(L.free, i)))
  {
    var c := L.free[i];
    var m' := Disconnect(m, c);
    DisconnectEffect(m, c);
    DisconnectRing(m, L, i);
    WithoutMembers(L.free, i);
    hide Disconnect, Without, Linked, Ring, Touches, Distinct;
    assert Raw(m', 0) == Raw(m, 0) && Raw(m', Last(m)) == Raw(m, Last(m));
    ChainSame(m, m', L.starts);
  }

  lemma DisconnectKeeps(m: seq<Word>, L: Layout, i: nat)
    requires Wf(m, L) && i < |L.free|
    requires var c := L.free[i]; InHeap(m, c) && InHeap(m, PF(m, c)) && InHeap(m, NF(m, c)) && PF(m, c) != c && NF(m, c) != c
    ensures Undisturbed(m, L, Disconnect(m, L.free[i]), L.(free := Without(L.free, i)), {L.free[i]})
  {
    var c := L.free[i];
    RingNeighbours(m, L, i);
    DisconnectEffect(m, c);
    WithoutMembers(L.free, i);
    hide Disconnect, Without, Linked, Ring, Touches, Distinct;
    var m', L' := Disconnect(m, c), L.(free := Without(L.free, i));
    forall x: nat | x != c
      ensures IsLive(m, L, x) <==> IsLive(m', L', x)
      ensures IsLive(m, L, x) ==> Same(m, m', x)
    {
      if IsLive(m, L, x) {
        PayloadUntouched(m, L, m', {c}, {PF(m, c), NF(m, c)}, x);
        assert N(m', x) == N(m, x);
      }
    }
  }

  lemma WfDisconnect(m: seq<Word>, L: Layout, i: nat)
    requires Wf(m, L) && i < |L.free|
    ensures var c := L.free[i];
            && InHeap(m, c) && InHeap(m, PF(m, c)) && InHeap(m, NF(m, c)) && PF(m, c) != c && NF(m, c) != c
            && var m' := Disconnect(m, c); var L' := L.(free := Without(L.free, i));
               && Wf(m', L') && IsLive(m', L', c) && N(m', c) == N(m, c)
               && Undisturbed(m, L, m', L', {c})
  {
    var c := L.free[i];
    RingNeighbours(m, L, i);
    DisconnectEffect(m, c);
    WithoutMembers(L.free, i);
    DisconnectShape(m, L, i);
    DisconnectKeeps(m, L, i);
    assert c in L.free;
    hide Disconnect, Undisturbed, Chain, Linked, Without, Distinct, Touches;
  }

  lemma DisconnectRing(m: seq<Word>, L: Layout, i: nat)
    requires Wf(m, L) && i < |L.free|
    requires var c := L.free[i]; InHeap(m, c) && InHeap(m, PF(m, c)) && InHeap(m, NF(m, c)) && PF(m, c) != c && NF(m, c) != c
    ensures Linked(Disconnect(m, L.free[i]), Ring(Without(L.free, i)))
  {
    var c := L.free[i];
    RingNeighbours(m, L, i);
    DisconnectEffect(m, c);
    var m' := Disconnect(m, c);
    var r, r' := Ring(L.free), Ring(Without(L.free, i));
    forall k | 0 <= k < |r'| ensures InHeap(m', r'[k]) {
      assert r'[k] == if k <= i then r[k] else r[k + 1];
    }
    forall k, j | 0 <= k && j == k + 1 && j < |r'|
      ensures NF(m', r'[k]) == r'[j] && PF(m', r'[j]) == r'[k]
    {
      if k < i {
        assert r'[k] == r[k] && r'[j] == r[j];
        RingDistinct(L, k, i);
        if j < |L.free| + 1 && i + 2 < |L.free| + 1 { RingDistinct(L, j, i + 2); }
        else if 0 < j { RingDistinct(L, j, 0); }
      } else if k == i {
        assert r'[k] == r[i] && r'[j] == r[i + 2];
      } else {
        assert r'[k] == r[k + 1] && r'[j] == r[j + 1];
        RingDistinct(L, k + 1, i);
        if j + 1 < |L.free| + 1 { RingDistinct(L, j + 1, i + 2); }
        else { RingDistinct(L, i + 2, 0); }
      }
    }
  }

  // ------------------------------------------------------------------------------ joining blocks

  /** The common effect of `umm_assimilate_up` (its second half) and `umm_assimilate_down`: block `p`
      swallows the next block; `flag` keeps or clears the free mark of the result. */
  function Join(m: seq<Word>, p: nat, flag: bool): seq<Word>
    requires InHeap(m, p) && InHeap(m, N(m, p)) && InHeap(m, N(m, N(m, p)))
    requires p < 0x8000
  {
    var n := N(m, N(m, p));
    SetP(SetRaw(m, p, Tagged(n, flag)), n, p)
  }

  lemma JoinEffect(m: seq<Word>, p: nat, flag: bool)
    requires InHeap(m, p) && InHeap(m, N(m, p)) && InHeap(m, N(m, N(m, p)))
    requires p < N(m, p) < N(m, N(m, p)) && p < 0x8000
    ensures var m' := Join(m, p, flag); var n := N(m, N(m, p));
            && |m'| == |m|
            && (forall b: nat {:trigger Raw(m', b)} :: InHeap(m, b) ==> Raw(m', b) == if b == p then Tagged(n, flag) else Raw(m, b))
            && (forall b: nat {:trigger N(m', b)} :: InHeap(m, b) ==> N(m', b) == if b == p then n else N(m, b))
            && (forall b: nat {:trigger P(m', b)} :: InHeap(m, b) ==> P(m', b) == if b == n then p else P(m, b))
            && (forall b: nat {:trigger NF(m', b)} :: InHeap(m, b) ==> NF(m', b) == NF(m, b))
            && (forall b: nat {:trigger PF(m', b)} :: InHeap(m, b) ==> PF(m', b) == PF(m, b))
            && Touches(m, m', {p, n}, {})
  {
  }

  lemma ChainJoin(m: seq<Word>, B: set<nat>, p: nat, flag: bool)
    requires Chain(m, B) && p in B && p != 0 && p != Last(m) && N(m, p) != Last(m)
    ensures InHeap(m, p) && InHeap(m, N(m, p)) && InHeap(m, N(m, N(m, p))) && p < N(m, p) < N(m, N(m, p)) && p < 0x8000
    ensures N(m, N(m, p)) in B
    ensures Chain(Join(m, p, flag), B - {N(m, p)})
  {
    var c := N(m, p);
    var n := N(m, c);
    JoinEffect(m, p, flag);
    var m' := Join(m, p, flag);
    assert P(m, c) == p && P(m, n) == c;
    assert N(m, 0) == 1;
    assert c != 1;
    hide Join, Touches;
    ChainJoinGaps(m, B, m', p);
  }

  lemma ChainJoinGaps(m: seq<Word>, B: set<nat>, m': seq<Word>, p: nat)
    requires Chain(m, B) && p in B && p != 0 && p != Last(m) && InHeap(m, N(m, p)) && N(m, p) != Last(m)
    requires |m'| == |m| && forall b: nat {:trigger N(m', b)} :: InHeap(m, b) ==> N(m', b) == if b == p then N(m, N(m, p)) else N(m, b)
    ensures forall b: nat, k: nat {:trigger N(m', b), k in B - {N(m, p)}} :: InHeap(m, b) && b in B - {N(m, p)} && b != Last(m) && k in B - {N(m, p)} ==> k <= b || N(m', b) <= k
  {
    var c := N(m, p);
    forall b: nat, k: nat | InHeap(m, b) && b in B - {c} && b != Last(m) && k in B - {c}
      ensures k <= b || N(m', b) <= k
    {
      assert k <= b || N(m, b) <= k;
      assert b == p ==> k <= c || N(m, c) <= k;
    }
  }

  lemma JoinShape(m: seq<Word>, L: Layout, p: nat)
    requires Wf(m, L) && p in L.starts && p != 0 && p != Last(m)
    requires N(m, p) != Last(m) && N(m, p) !in L.free
    requires p in L.free ==> N(m, N(m, p)) !in L.free
    ensures InHeap(m, N(m, p)) && InHeap(m, N(m, N(m, p))) && p < 0x8000
    ensures Wf(Join(m, p, p in L.free), L.(starts := L.starts - {N(m, p)}))
  {
    ChainJoin(m, L.starts, p, p in L.free);
    JoinEffect(m, p, p in L.free);
    var m' := Join(m, p, p in L.free);
    assert Linked(m', Ring(L.free)) by { hide Join; }
    hide Join, Linked, Ring, Distinct, Chain;
  }

  lemma JoinKeeps(m: seq<Word>, L: Layout, p: nat)
    requires Wf(m, L) && p in L.starts && p != 0 && p != Last(m)
    requires N(m, p) != Last(m) && N(m, p) !in L.free
    requires InHeap(m, N(m, p)) && InHeap(m, N(m, N(m, p))) && p < 0x8000
    ensures var c := N(m, p); var m' := Join(m, p, p in L.free); var L' := L.(starts := L.starts - {c});
            N(m', p) == N(m, c) && Undisturbed(m, L, m', L', {p, c}) && Kept(m, m', 2 * p + 1, 2 * N(m, c))
  {
    hide Linked, Ring, Distinct;
    var c := N(m, p);
    ChainJoin(m, L.starts, p, p in L.free);
    JoinEffect(m, p, p in L.free);
    var m', L' := Join(m, p, p in L.free), L.(starts := L.starts - {c});
    hide Join;
    assert Kept(m, m', 2 * p + 1, 2 * N(m, c));
    forall x: nat | x !in {p, c}
      ensures IsLive(m, L, x) <==> IsLive(m', L', x)
      ensures IsLive(m, L, x) ==> Same(m, m', x)
    {
      if IsLive(m, L, x) {
        PayloadUntouched(m, L, m', {p, N(m, c)}, {}, x);
        assert N(m', x) == N(m, x);
      }
    }
  }

  lemma WfJoin(m: seq<Word>, L: Layout, p: nat)
    requires Wf(m, L) && p in L.starts && p != 0 && p != Last(m)
    requires N(m, p) != Last(m) && N(m, p) !in L.free
    requires p in L.free ==> N(m, N(m, p)) !in L.free
    ensures InHeap(m, N(m, p)) && InHeap(m, N(m, N(m, p))) && p < 0x8000
    ensures var c := N(m, p); var m' := Join(m, p, p in L.free); var L' := L.(starts := L.starts - {c});
            && Wf(m', L') && N(m', p) == N(m, c)
            && Undisturbed(m, L, m', L', {p, c})
            && Kept(m, m', 2 * p + 1, 2 * N(m, c))
  {
    hide Wf, Join, Undisturbed, Kept;
    JoinShape(m, L, p);
    JoinKeeps(m, L, p);
  }

  // ------------------------------------------------------------------------- onto the free list

  /** The last branch of `umm_free_core`: `c` becomes the first free block. */
  function PushFree(m: seq<Word>, c: nat): seq<Word>
    requires InHeap(m, c) && InHeap(m, 0) && InHeap(m, NF(m, 0)) && c < 0x8000
    requires c != 0 && NF(m, 0) != c
  {
    var m1 := SetPF(m, NF(m, 0), c);
    var m2 := SetNF(m1, c, NF(m1, 0));
    var m3 := SetPF(m2, c, 0);
    var m4 := SetNF(m3, 0, c);
    SetRaw(m4, c, Tagged(Raw(m4, c), true))
  }

  lemma PushFreeEffect(m: seq<Word>, c: nat)
    requires InHeap(m, c) && InHeap(m, 0) && InHeap(m, NF(m, 0)) && c < 0x8000
    requires c != 0 && NF(m, 0) != c
    ensures var m' := PushFree(m, c); var h := NF(m, 0);
            && |m'| == |m|
            && (forall b: nat {:trigger Raw(m', b)} :: InHeap(m, b) ==> Raw(m', b) == if b == c then Tagged(Raw(m, c), true) else Raw(m, b))
            && (forall b: nat {:trigger N(m', b)} :: InHeap(m, b) ==> N(m', b) == N(m, b))
            && (forall b: nat {:trigger P(m', b)} :: InHeap(m, b) ==> P(m', b) == P(m, b))
            && (forall b: nat {:trigger NF(m', b)} :: InHeap(m, b) ==> NF(m', b) == if b == 0 then c else if b == c then h else NF(m, b))
            && (forall b: nat {:trigger PF(m', b)} :: InHeap(m, b) ==> PF(m', b) == if b == c then 0 else if b == h then c else PF(m, b))
            && Touches(m, m', {c}, {0, c, h})
  {
  }

  lemma RingHead(m: seq<Word>, L: Layout)
    requires Wf(m, L)
    ensures 0 in L.starts
    ensures InHeap(m, 0) && NF(m, 0) == Ring(L.free)[1]
    ensures InHeap(m, NF(m, 0)) && (NF(m, 0) == 0 || NF(m, 0) in L.free)
    ensures forall x: nat :: x !in L.free && x != 0 ==> NF(m, 0) != x
  {
    var r := Ring(L.free);
    assert r[0] == 0;
    assert r[1] == if L.free == [] then 0 else L.free[0];
    assert NF(m, r[0]) == r[1];
  }

  lemma PushFreeShape(m: seq<Word>, L: Layout, c: nat)
    requires Wf(m, L) && IsLive(m, L, c)
    requires N(m, c) !in L.free && P(m, c) !in L.free
    requires InHeap(m, 0) && InHeap(m, NF(m, 0)) && c < 0x8000 && NF(m, 0) != c
    ensures Wf(PushFree(m, c), L.(free := [c] + L.free))
  {
    PushFreeEffect(m, c);
    PushFreeRing(m, L, c);
    hide PushFree, Linked, Ring, Touches;
    var m', L' := PushFree(m, c), L.(free := [c] + L.free);
    assert Raw(m', 0) == Raw(m, 0) && Raw(m', Last(m)) == Raw(m, Last(m));
    ChainSame(m, m', L.starts);
    forall b: nat | b in L'.free && InHeap(m', b) ensures N(m', b) !in L'.free {
      assert N(m', b) == N(m, b);
      Around(m, L, b);
    }
  }

  lemma PushFreeKeeps(m: seq<Word>, L: Layout, c: nat)
    requires Wf(m, L) && IsLive(m, L, c)
    requires InHeap(m, 0) && InHeap(m, NF(m, 0)) && c < 0x8000 && NF(m, 0) != c
    ensures Undisturbed(m, L, PushFree(m, c), L.(free := [c] + L.free), {c})
  {
    RingHead(m, L);
    PushFreeEffect(m, c);
    hide PushFree, Linked, Ring, Touches, Distinct;
    var m', L' := PushFree(m, c), L.(free := [c] + L.free);
    forall x: nat | x != c
      ensures IsLive(m, L, x) <==> IsLive(m', L', x)
      ensures IsLive(m, L, x) ==> Same(m, m', x)
    {
      if IsLive(m, L, x) {
        PayloadUntouched(m, L, m', {c}, {0, c, NF(m, 0)}, x);
        assert N(m', x) == N(m, x);
      }
    }
  }

  lemma WfPushFree(m: seq<Word>, L: Layout, c: nat)
    requires Wf(m, L) && IsLive(m, L, c)
    requires N(m, c) !in L.free && P(m, c) !in L.free
    ensures InHeap(m, 0) && InHeap(m, NF(m, 0)) && c < 0x8000 && NF(m, 0) != c
    ensures var m' := PushFree(m, c); var L' := L.(free := [c] + L.free);
            && Wf(m', L') && N(m', c) == N(m, c) && !IsLive(m', L', c)
            && Undisturbed(m, L, m', L', {c})
  {
    RingHead(m, L);
    Around(m, L, c);
    PushFreeEffect(m, c);
    PushFreeShape(m, L, c);
    PushFreeKeeps(m, L, c);
    assert c in [c] + L.free;
  }

  lemma PushFreeRing(m: seq<Word>, L: Layout, c: nat)
    requires Wf(m, L) && IsLive(m, L, c)
    requires InHeap(m, 0) && InHeap(m, NF(m, 0)) && c < 0x8000 && NF(m, 0) != c
    ensures Linked(PushFree(m, c), Ring([c] + L.free))
  {
    RingHead(m, L);
    PushFreeEffect(m, c);
    var m' := PushFree(m, c);
    var r, r' := Ring(L.free), Ring([c] + L.free);
    forall k | 0 <= k < |r'| ensures InHeap(m', r'[k]) {
      assert r'[k] == if k == 0 then 0 else if k == 1 then c else r[k - 1];
    }
    forall k, j | 0 <= k && j == k + 1 && j < |r'|
      ensures NF(m', r'[k]) == r'[j] && PF(m', r'[j]) == r'[k]
    {
      if k == 0 {
        assert r'[0] == 0 && r'[1] == c;
      } else if k == 1 {
        assert r'[1] == c && r'[2] == r[1];
      } else {
        assert r'[k] == r[k - 1] && r'[j] == r[k];
        RingDistinct(L, k - 1, 0);
        assert r[k - 1] == L.free[k - 2];
        if k <= |L.free| { RingDistinct(L, k, 1); assert r[k] == L.free[k - 1]; }
        else { RingDistinct(L, 0, 1); }
      }
    }
  }

  // ------------------------------------------------------------------------------------ splitting

  /** `umm_split_block` */
  function Split(m: seq<Word>, c: nat, k: nat, flag: bool): seq<Word>
    requires InHeap(m, c) && InHeap(m, c + k) && InHeap(m, N(m, c)) && c + k < 0x8000
    requires InHeap(m, N(SetP(SetRaw(m, c + k, Tagged(N(m, c), flag)), c + k, c), c))
  {
    var m1 := SetRaw(m, c + k, Tagged(N(m, c), flag));
    var m2 := SetP(m1, c + k, c);
    var m3 := SetP(m2, N(m2, c), c + k);
    SetRaw(m3, c, c + k)
  }

  lemma SplitEffect(m: seq<Word>, c: nat, k: nat, flag: bool)
    requires InHeap(m, c) && InHeap(m, N(m, c)) && 0 < k && c + k < N(m, c)
    ensures InHeap(m, c + k) && c + k < 0x8000
    ensures InHeap(m, N(SetP(SetRaw(m, c + k, Tagged(N(m, c), flag)), c + k, c), c))
    ensures var m' := Split(m, c, k, flag); var n := N(m, c);
            && |m'| == |m|
            && (forall b: nat {:trigger Raw(m', b)} :: InHeap(m, b) ==>
                  Raw(m', b) == if b == c then c + k else if b == c + k then Tagged(n, flag) else Raw(m, b))
            && (forall b: nat {:trigger N(m', b)} :: InHeap(m, b) ==> N(m', b) == if b == c then c + k else if b == c + k then n else N(m, b))
            && (forall b: nat {:trigger P(m', b)} :: InHeap(m, b) ==> P(m', b) == if b == n then c + k else if b == c + k then c else P(m, b))
            && (forall b: nat {:trigger NF(m', b)} :: InHeap(m, b) ==> NF(m', b) == NF(m, b))
            && (forall b: nat {:trigger PF(m', b)} :: InHeap(m, b) ==> PF(m', b) == PF(m, b))
            && Touches(m, m', {c, c + k, n}, {})
  {
  }

  ghost predicate LinksSplit(m: seq<Word>, m': seq<Word>, c: nat, k: nat)
    requires InHeap(m, c)
  {
    && |m'| == |m|
    && (forall b: nat {:trigger N(m', b)} :: InHeap(m, b) ==> N(m', b) == if b == c then c + k else if b == c + k then N(m, c) else N(m, b))
    && (forall b: nat {:trigger P(m', b)} :: InHeap(m, b) ==> P(m', b) == if b == N(m, c) then c + k else if b == c + k then c else P(m, b))
  }

  lemma SplitGaps(m: seq<Word>, B: set<nat>, m': seq<Word>, c: nat, k: nat, b: nat, j: nat)
    requires Chain(m, B) && c in B && c != 0 && c != Last(m) && 0 < k && c + k < N(m, c)
    requires LinksSplit(m, m', c, k)
    requires b in B + {c + k} && b != Last(m) && j in B + {c + k} && InHeap(m', b)
    ensures j <= b || N(m', b) <= j
  {
    if b in B && j in B {
      assert j <= b || N(m, b) <= j;
    } else if b in B {
      assert c <= b || N(m, b) <= c;
      assert b <= c || N(m, c) <= b;
    } else {
      assert j in B ==> j <= c || N(m, c) <= j;
    }
  }

  lemma SplitLinks(m: seq<Word>, B: set<nat>, m': seq<Word>, c: nat, k: nat, b: nat)
    requires Chain(m, B) && c in B && c != 0 && c != Last(m) && 0 < k && c + k < N(m, c)
    requires LinksSplit(m, m', c, k)
    requires b in B + {c + k} && InHeap(m', b)
    ensures b != 0 ==> P(m', b) < b && P(m', b) in B + {c + k} && N(m', P(m', b)) == b
    ensures b != Last(m) ==> b < N(m', b) && N(m', b) in B + {c + k} && P(m', N(m', b)) == b
  {
    assert c + k !in B;
    assert P(m, N(m, c)) == c;
    if b in B && b != 0 {
      assert P(m, b) < b && P(m, b) in B && N(m, P(m, b)) == b;
    }
    if b in B && b != Last(m) {
      assert b < N(m, b) && N(m, b) in B && P(m, N(m, b)) == b;
    }
  }

  lemma ChainSplit(m: seq<Word>, B: set<nat>, m': seq<Word>, c: nat, k: nat)
    requires Chain(m, B) && c in B && c != 0 && c != Last(m) && 0 < k && c + k < N(m, c)
    requires LinksSplit(m, m', c, k)
    requires m'[0].next == 1 && m'[2 * Last(m)].next == 0
    ensures Chain(m', B + {c + k})
    ensures c + k !in B
  {
    assert c + k !in B;
    var B' := B + {c + k};
    assert forall b: nat :: b in B' ==> b <= Last(m);
    forall b: nat {:trigger N(m', b)} {:trigger P(m', b)} | b in B'
      ensures b != 0 ==> P(m', b) < b && P(m', b) in B' && N(m', P(m', b)) == b
      ensures b != Last(m) ==> b < N(m', b) && N(m', b) in B' && P(m', N(m', b)) == b
    {
      SplitLinks(m, B, m', c, k, b);
    }
    forall b: nat, j: nat {:trigger N(m', b), j in B'} | b in B' && b != Last(m) && j in B'
      ensures j <= b || N(m', b) <= j
    {
      SplitGaps(m, B, m', c, k, b, j);
    }
  }

  lemma SplitShape(m: seq<Word>, L: Layout, c: nat, k: nat)
    requires Wf(m, L) && IsLive(m, L, c) && 0 < k && c + k < N(m, c)
    ensures InHeap(m, N(m, c)) && InHeap(m, c + k) && c + k < 0x8000
    ensures InHeap(m, N(SetP(SetRaw(m, c + k, Tagged(N(m, c), false)), c + k, c), c))
    ensures var m' := Split(m, c, k, false); var L' := L.(starts := L.starts + {c + k});
            && Wf(m', L') && IsLive(m', L', c) && IsLive(m', L', c + k)
            && N(m', c) == c + k && N(m', c + k) == N(m, c)
  {
    SplitEffect(m, c, k, false);
    var m' := Split(m, c, k, false);
    ChainSplit(m, L.starts, m', c, k);
    assert Linked(m', Ring(L.free)) by { hide Split; }
    assert c + k !in L.free;
    hide Split, Linked, Ring, Distinct;
  }

  lemma SplitKeeps(m: seq<Word>, L: Layout, c: nat, k: nat)
    requires Wf(m, L) && IsLive(m, L, c) && 0 < k && c + k < N(m, c) && InHeap(m, N(m, c)) && InHeap(m, c + k) && c + k < 0x8000
    requires InHeap(m, N(SetP(SetRaw(m, c + k, Tagged(N(m, c), false)), c + k, c), c))
    ensures var m' := Split(m, c, k, false); var L' := L.(starts := L.starts + {c + k});
            Undisturbed(m, L, m', L', {c, c + k}) && Kept(m, m', 2 * c + 1, 2 * (c + k))
  {
    hide Linked, Ring, Distinct;
    SplitEffect(m, c, k, false);
    var m', L' := Split(m, c, k, false), L.(starts := L.starts + {c + k});
    hide Split;
    assert Kept(m, m', 2 * c + 1, 2 * (c + k));
    forall x: nat | x !in {c, c + k}
      ensures IsLive(m, L, x) <==> IsLive(m', L', x)
      ensures IsLive(m, L, x) ==> Same(m, m', x)
    {
      if IsLive(m, L, x) {
        assert c <= x || N(m, x) <= c;
        assert x <= c || N(m, c) <= x;
        PayloadUntouched(m, L, m', {c, c + k, N(m, c)}, {}, x);
        assert N(m', x) == N(m, x);
      }
    }
  }

  lemma WfSplit(m: seq<Word>, L: Layout, c: nat, k: nat)
    requires Wf(m, L) && IsLive(m, L, c) && 0 < k && c + k < N(m, c)
    ensures InHeap(m, N(m, c)) && InHeap(m, c + k) && c + k < 0x8000
    ensures InHeap(m, N(SetP(SetRaw(m, c + k, Tagged(N(m, c), false)), c + k, c), c))
    ensures var m' := Split(m, c, k, false); var L' := L.(starts := L.starts + {c + k});
            && Wf(m', L') && IsLive(m', L', c) && IsLive(m', L', c + k)
            && N(m', c) == c + k && N(m', c + k) == N(m, c)
            && Undisturbed(m, L, m', L', {c, c + k})
            && Kept(m, m', 2 * c + 1, 2 * (c + k))
  {
    hide Wf, Split, Undisturbed, Kept;
    SplitShape(m, L, c, k);
    SplitKeeps(m, L, c, k);
  }

  // --------------------------------------------------------------- allocating part of a free block

  /** The inexact branch of `umm_malloc_core`: the first `k` blocks of free block `c` are allocated and
      the rest takes its place in the free list. */
  function Relink(m: seq<Word>, c: nat, k: nat): seq<Word>
    requires InHeap(m, c) && InHeap(m, c + k) && c + k < 0x8000
    requires InHeap(m, PF(m, c)) && InHeap(m, NF(m, c))
    requires k > 0 && NF(m, c) != c && PF(m, c) != c && PF(m, c) != c + k && NF(m, c) != c + k
  {
    var m1 := SetNF(m, PF(m, c), c + k);
    var m2 := SetPF(m1, c + k, PF(m1, c));
    var m3 := SetPF(m2, NF(m2, c), c + k);
    SetNF(m3, c + k, NF(m3, c))
  }

  lemma RelinkEffect(m: seq<Word>, c: nat, k: nat)
    requires InHeap(m, c) && InHeap(m, c + k) && c + k < 0x8000
    requires InHeap(m, PF(m, c)) && InHeap(m, NF(m, c))
    requires k > 0 && NF(m, c) != c && PF(m, c) != c && PF(m, c) != c + k && NF(m, c) != c + k
    ensures var m' := Relink(m, c, k);
            && |m'| == |m|
            && (forall b: nat {:trigger Raw(m', b)} :: InHeap(m, b) ==> Raw(m', b) == Raw(m, b))
            && (forall b: nat {:trigger N(m', b)} :: InHeap(m, b) ==> N(m', b) == N(m, b))
            && (forall b: nat {:trigger P(m', b)} :: InHeap(m, b) ==> P(m', b) == P(m, b))
            && (forall b: nat {:trigger NF(m', b)} :: InHeap(m, b) ==>
                  NF(m', b) == if b == PF(m, c) then c + k else if b == c + k then NF(m, c) else NF(m, b))
            && (forall b: nat {:trigger PF(m', b)} :: InHeap(m, b) ==>
                  PF(m', b) == if b == NF(m, c) then c + k else if b == c + k then PF(m, c) else PF(m, b))
            && Touches(m, m', {}, {PF(m, c), c + k, NF(m, c)})
  {
  }

  /** The whole effect of allocating the first `k` blocks of free block `c`. */
  ghost predicate Carved(m: seq<Word>, m': seq<Word>, c: nat, k: nat)
    requires InHeap(m, c)
  {
    && LinksSplit(m, m', c, k)
    && (forall b: nat {:trigger Raw(m', b)} :: InHeap(m, b) ==>
          Raw(m', b) == if b == c then c + k else if b == c + k then Tagged(N(m, c), true) else Raw(m, b))
    && (forall b: nat {:trigger NF(m', b)} :: InHeap(m, b) ==>
          NF(m', b) == if b == PF(m, c) then c + k else if b == c + k then NF(m, c) else NF(m, b))
    && (forall b: nat {:trigger PF(m', b)} :: InHeap(m, b) ==>
          PF(m', b) == if b == NF(m, c) then c + k else if b == c + k then PF(m, c) else PF(m, b))
    && Touches(m, m', {c, c + k, N(m, c)}, {PF(m, c), c + k, NF(m, c)})
  }

  predicate Carvable(m: seq<Word>, c: nat, k: nat)
  {
    && InHeap(m, c) && InHeap(m, N(m, c)) && 0 < k && c + k < N(m, c)
    && InHeap(m, PF(m, c)) && InHeap(m, NF(m, c))
    && NF(m, c) != c && PF(m, c) != c && PF(m, c) != c + k && NF(m, c) != c + k
  }

  /** `umm_split_block` followed by the relinking. */
  function Carve(m: seq<Word>, c: nat, k: nat): seq<Word>
    requires Carvable(m, c, k)
  {
    SplitEffect(m, c, k, true);
    Relink(Split(m, c, k, true), c, k)
  }

  lemma CarveEffect(m: seq<Word>, c: nat, k: nat)
    requires Carvable(m, c, k)
    ensures Carved(m, Carve(m, c, k), c, k)
  {
    SplitEffect(m, c, k, true);
    RelinkEffect(Split(m, c, k, true), c, k);
  }

  lemma RingMember(m: seq<Word>, L: Layout, a: nat)
    requires Wf(m, L) && a < |L.free| + 2
    ensures Ring(L.free)[a] in L.starts && InHeap(m, Ring(L.free)[a])
  {
    assert 0 < a <= |L.free| ==> Ring(L.free)[a] == L.free[a - 1];
  }

  lemma CarveRingAt(m: seq<Word>, L: Layout, i: nat, k: nat, m': seq<Word>, a: nat)
    requires Wf(m, L) && i < |L.free| && InHeap(m, L.free[i])
    requires var c := L.free[i]; 0 < k && InHeap(m, c + k) && c + k !in L.starts && Carved(m, m', c, k)
    requires a <= |L.free|
    ensures var r' := Ring(L.free[i := L.free[i] + k]);
            InHeap(m', r'[a]) && InHeap(m', r'[a + 1]) && NF(m', r'[a]) == r'[a + 1] && PF(m', r'[a + 1]) == r'[a]
  {
    var c := L.free[i];
    RingNeighbours(m, L, i);
    var r := Ring(L.free);
    assert Ring(L.free[i := c + k]) == r[i + 1 := c + k];
    RingMember(m, L, a);
    RingMember(m, L, a + 1);
    assert r[i + 1] == c;
    assert NF(m, r[a]) == r[a + 1] && PF(m, r[a + 1]) == r[a];
    if a != i && a != i + 1 {
      RingDistinct(L, a, i);
      var e := if i + 2 == |L.free| + 1 then 0 else i + 2;
      var j := if a + 1 == |L.free| + 1 then 0 else a + 1;
      RingDistinct(L, j, e);
    }
  }

  lemma CarveRing(m: seq<Word>, L: Layout, i: nat, k: nat, m': seq<Word>)
    requires Wf(m, L) && i < |L.free| && InHeap(m, L.free[i])
    requires var c := L.free[i]; 0 < k && InHeap(m, c + k) && c + k !in L.starts && Carved(m, m', c, k)
    ensures Linked(m', Ring(L.free[i := L.free[i] + k]))
  {
    hide Wf, Carved;
    var c := L.free[i];
    RingNeighbours(m, L, i);
    var r, r' := Ring(L.free), Ring(L.free[i := c + k]);
    assert r' == r[i + 1 := c + k];
    forall a | 0 <= a < |r'| ensures InHeap(m', r'[a]) {
      CarveRingAt(m, L, i, k, m', if a == 0 then 0 else a - 1);
    }
    forall a, j | 0 <= a && j == a + 1 && j < |r'|
      ensures NF(m', r'[a]) == r'[j] && PF(m', r'[j]) == r'[a]
    {
      CarveRingAt(m, L, i, k, m', a);
    }
  }

  lemma ReplacedMembers(s: seq<nat>, i: nat, v: nat)
    requires i < |s| && Distinct(s) && v !in s
    ensures Distinct(s[i := v])
    ensures forall f :: f in s[i := v] <==> (f in s && f != s[i]) || f == v
  {
    assert s[i := v][i] == v;
    assert forall j :: 0 <= j < |s| && j != i ==> s[i := v][j] == s[j];
  }

  lemma CarveKeeps(m: seq<Word>, L: Layout, i: nat, k: nat, m': seq<Word>)
    requires Wf(m, L) && i < |L.free| && 0 < k && InHeap(m, L.free[i]) && k < Size(m, L.free[i])
    requires Carved(m, m', L.free[i], k)
    ensures Undisturbed(m, L, m', Layout(L.starts + {L.free[i] + k}, L.free[i := L.free[i] + k]), {L.free[i]})
  {
    var c := L.free[i];
    var L' := Layout(L.starts + {c + k}, L.free[i := c + k]);
    RingNeighbours(m, L, i);
    assert c + k !in L.starts;
    ReplacedMembers(L.free, i, c + k);
    forall x: nat | x != c
      ensures IsLive(m, L, x) <==> IsLive(m', L', x)
      ensures IsLive(m, L, x) ==> Same(m, m', x)
    {
      if IsLive(m, L, x) {
        assert c <= x || N(m, x) <= c;
        assert x <= c || N(m, c) <= x;
        PayloadUntouched(m, L, m', {c, c + k, N(m, c)}, {PF(m, c), c + k, NF(m, c)}, x);
        assert N(m', x) == N(m, x);
      }
    }
  }

  lemma CarveChain(m: seq<Word>, L: Layout, i: nat, k: nat, m': seq<Word>)
    requires Wf(m, L) && i < |L.free| && 0 < k && InHeap(m, L.free[i]) && k < Size(m, L.free[i])
    requires Carved(m, m', L.free[i], k)
    ensures Chain(m', L.starts + {L.free[i] + k}) && L.free[i] + k !in L.starts && Last(m') == Last(m) && InHeap(m, L.free[i] + k)
  {
    hide Linked, Ring, Distinct, Touches;
    var c := L.free[i];
    RingNeighbours(m, L, i);
    assert m'[0].next == 1 && m'[2 * Last(m)].next == 0 by {
      assert Raw(m', 0) == Raw(m, 0) && Raw(m', Last(m)) == Raw(m, Last(m));
    }
    ChainSplit(m, L.starts, m', c, k);
  }

  /** No two free blocks have become neighbours. */
  lemma CarveApart(m: seq<Word>, L: Layout, i: nat, k: nat, m': seq<Word>)
    requires Wf(m, L) && i < |L.free| && 0 < k && InHeap(m, L.free[i]) && k < Size(m, L.free[i])
    requires Carved(m, m', L.free[i], k) && L.free[i] + k !in L.starts
    ensures forall b: nat {:trigger N(m', b)} :: b in L.free[i := L.free[i] + k] && InHeap(m', b) ==> N(m', b) !in L.free[i := L.free[i] + k]
  {
    hide Linked, Ring, Distinct, Touches;
    var c := L.free[i];
    RingNeighbours(m, L, i);
    assert Distinct(L.free);
    ReplacedMembers(L.free, i, c + k);
    forall b: nat {:trigger N(m', b)} | b in L.free[i := c + k] && InHeap(m', b) ensures N(m', b) !in L.free[i := c + k] {
      if b == c + k { assert N(m', b) == N(m, c); } else { assert N(m', b) == N(m, b); }
    }
  }

  lemma CarveShape(m: seq<Word>, L: Layout, i: nat, k: nat, m': seq<Word>)
    requires Wf(m, L) && i < |L.free| && 0 < k && InHeap(m, L.free[i]) && k < Size(m, L.free[i])
    requires Carved(m, m', L.free[i], k)
    ensures Wf(m', Layout(L.starts + {L.free[i] + k}, L.free[i := L.free[i] + k]))
  {
    hide Linked, Ring, Distinct, Touches;
    var c := L.free[i];
    CarveChain(m, L, i, k, m');
    CarveRing(m, L, i, k, m');
    CarveApart(m, L, i, k, m');
    ReplacedMembers(L.free, i, c + k);
  }

  lemma WfCarve(m: seq<Word>, L: Layout, i: nat, k: nat)
    requires Wf(m, L) && i < |L.free| && 0 < k && InHeap(m, L.free[i]) && k < Size(m, L.free[i])
    ensures Carvable(m, L.free[i], k)
    ensures var c := L.free[i]; var m' := Carve(m, c, k); var L' := Layout(L.starts + {c + k}, L.free[i := c + k]);
            && Wf(m', L') && IsLive(m', L', c) && N(m', c) == c + k && N(m', c + k) == N(m, c)
            && Undisturbed(m, L, m', L', {c})
  {
    var c := L.free[i];
    RingNeighbours(m, L, i);
    assert c + k !in L.starts;
    CarveEffect(m, c, k);
    var m' := Carve(m, c, k);
    CarveShape(m, L, i, k, m');
    CarveKeeps(m, L, i, k, m');
    ReplacedMembers(L.free, i, c + k);
  }
}
