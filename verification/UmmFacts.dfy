/** Properties of a well-formed heap as a whole: sizes, conservation, and what remains when nothing is
    allocated. */
module UmmFacts {
  import opened UmmLayout

  /** `umm_blocks`: how many blocks a request for `size` bytes takes. */
  function UmmBlocks(size: nat): (k: u16)
    ensures 1 <= k <= 32767
  {
    if size <= 4 then 1
    else
      var blocks := 2 + (size - 4 - 1) / 8;
      if blocks > 32767 then 32767 else blocks
  }

  /** A block of `k` blocks has `8 * k - 4` bytes of payload. */
  function Capacity(k: nat): int { 8 * k - 4 }

  /** The rounding is exact, so for any block the heap can hold, counting blocks and counting bytes agree
      on whether a request fits. */
  lemma BlocksFit(size: nat, k: nat)
    requires size > 0 && k <= 32766
    ensures UmmBlocks(size) <= k <==> size <= Capacity(k)
  {
    if size > 4 {
      var q := (size - 5) / 8;
      assert 8 * q <= size - 5 < 8 * q + 8;
    }
  }

  // ---------------------------------------------------------------------------------------- sums

  function FreeBlocks(m: seq<Word>, fl: seq<nat>): int
    requires forall f :: f in fl ==> InHeap(m, f)
  {
    if fl == [] then 0 else Size(m, fl[0]) + FreeBlocks(m, fl[1..])
  }

  /** The size in blocks of the largest free block; 0 when there is none. */
  function LargestFree(m: seq<Word>, fl: seq<nat>): int
    requires forall f :: f in fl ==> InHeap(m, f)
  {
    if fl == [] then 0
    else var rest := LargestFree(m, fl[1..]); if Size(m, fl[0]) > rest then Size(m, fl[0]) else rest
  }

  lemma {:induction false} LargestIsMaximum(m: seq<Word>, fl: seq<nat>)
    requires forall f :: f in fl ==> InHeap(m, f)
    ensures forall f {:trigger Size(m, f)} :: f in fl ==> Size(m, f) <= LargestFree(m, fl)
    ensures LargestFree(m, fl) == 0 || exists f {:trigger Size(m, f)} :: f in fl && Size(m, f) == LargestFree(m, fl)
  {
    if fl != [] {
      LargestIsMaximum(m, fl[1..]);
      assert fl[0] in fl;
      assert forall f :: f in fl ==> f == fl[0] || f in fl[1..];
    }
  }

  /** The total size of a set of blocks. */
  ghost function SetBlocks(m: seq<Word>, S: set<nat>): int
    requires forall b :: b in S ==> InHeap(m, b)
  {
    if S == {} then 0 else var b :| b in S; Size(m, b) + SetBlocks(m, S - {b})
  }

  lemma {:induction false} SetBlocksRemove(m: seq<Word>, S: set<nat>, x: nat)
    requires x in S && forall b :: b in S ==> InHeap(m, b)
    ensures SetBlocks(m, S) == Size(m, x) + SetBlocks(m, S - {x})
  {
    var y :| y in S && SetBlocks(m, S) == Size(m, y) + SetBlocks(m, S - {y});
    if y != x {
      SetBlocksRemove(m, S - {y}, x);
      SetBlocksRemove(m, S - {x}, y);
      assert S - {y} - {x} == S - {x} - {y};
    }
  }

  lemma {:induction false} SetBlocksUnion(m: seq<Word>, S: set<nat>, T: set<nat>)
    requires S !! T && forall b :: b in S + T ==> InHeap(m, b)
    ensures SetBlocks(m, S + T) == SetBlocks(m, S) + SetBlocks(m, T)
  {
    if S == {} {
      assert S + T == T;
    } else {
      var x :| x in S;
      SetBlocksRemove(m, S, x);
      SetBlocksRemove(m, S + T, x);
      assert S + T - {x} == (S - {x}) + T;
      SetBlocksUnion(m, S - {x}, T);
    }
  }

  function Members(s: seq<nat>): set<nat> { set x | x in s }

  lemma {:induction false} FreeBlocksOfSet(m: seq<Word>, fl: seq<nat>)
    requires Distinct(fl) && forall f :: f in fl ==> InHeap(m, f)
    ensures FreeBlocks(m, fl) == SetBlocks(m, Members(fl))
  {
    if fl != [] {
      FreeBlocksOfSet(m, fl[1..]);
      assert fl[0] in Members(fl);
      assert forall i :: 0 < i < |fl| ==> fl[i] != fl[0];
      assert fl[0] !in fl[1..];
      assert Members(fl) - {fl[0]} == Members(fl[1..]);
      SetBlocksRemove(m, Members(fl), fl[0]);
    } else {
      assert Members(fl) == {};
    }
  }

  ghost function Below(B: set<nat>, b: nat): set<nat> { set x | x in B && x < b }

  /** Blocks below `b` tile the memory from 0 up to `b`. */
  lemma {:induction false} Tiling(m: seq<Word>, B: set<nat>, b: nat)
    requires Chain(m, B) && b in B
    ensures SetBlocks(m, Below(B, b)) == b
    decreases b
  {
    if b == 0 {
      assert Below(B, b) == {};
    } else {
      var p := P(m, b);
      assert p < b && p in B && N(m, p) == b;
      Tiling(m, B, p);
      assert Below(B, b) - {p} == Below(B, p) by {
        forall x | x in B && x < b && x != p ensures x < p { }
      }
      SetBlocksRemove(m, Below(B, b), p);
    }
  }

  ghost function LiveSet(m: seq<Word>, L: Layout): set<nat> { set b | b in L.starts && IsLive(m, L, b) }

  /** Conservation: no block is ever lost or counted twice. */
  lemma FreePlusLive(m: seq<Word>, L: Layout)
    requires Wf(m, L)
    ensures FreeBlocks(m, L.free) + SetBlocks(m, LiveSet(m, L)) + 2 == |m| / 2
  {
    var last := Last(m);
    Tiling(m, L.starts, last);
    FreeBlocksOfSet(m, L.free);
    var F, V := Members(L.free), LiveSet(m, L);
    assert Below(L.starts, last) == {0} + (F + V);
    assert {0} !! (F + V) && F !! V;
    SetBlocksUnion(m, {0}, F + V);
    SetBlocksUnion(m, F, V);
    SetBlocksRemove(m, {0}, 0);
    assert {0} - {0} == {};
    assert N(m, 0) == 1;
  }

  // ------------------------------------------------------------------------------- nothing allocated

  /** The state `umm_multi_init_heap` builds. */
  ghost predicate OneFreeBlock(m: seq<Word>, L: Layout)
  {
    && |m| % 2 == 0 && Last(m) >= 2
    && L == Layout({0, 1, Last(m)}, [1])
    && Flagged(Raw(m, 1)) && N(m, 1) == Last(m) && P(m, 1) == 0 && P(m, Last(m)) == 1
    && NF(m, 0) == 1 && PF(m, 0) == 1 && NF(m, 1) == 0 && PF(m, 1) == 0
  }

  /** When nothing is allocated any more, coalescing has restored the initial state. */
  lemma AllFreed(m: seq<Word>, L: Layout)
    requires Wf(m, L)
    requires forall b: nat :: !IsLive(m, L, b)
    ensures OneFreeBlock(m, L)
  {
    var last := Last(m);
    assert !IsLive(m, L, 1);
    assert 1 in L.free;
    var n := N(m, 1);
    assert n in L.starts && n !in L.free;
    assert !IsLive(m, L, n);
    assert n == last;
    forall b | b in L.starts ensures b in {0, 1, last} { assert b <= 1 || n <= b; }
    assert L.starts == {0, 1, last};
    assert forall i :: 0 <= i < |L.free| ==> L.free[i] in L.free;
    assert forall i :: 0 <= i < |L.free| ==> L.free[i] == 1;
    assert L.free[0] == L.free[|L.free| - 1] == 1;
    assert L.free == [1];
    var r := Ring(L.free);
    assert r == [0, 1, 0];
    assert NF(m, r[0]) == r[1] && PF(m, r[1]) == r[0] && NF(m, r[1]) == r[2] && PF(m, r[2]) == r[1];
    assert N(m, 0) == 1;
    assert Raw(m, 1) == m[2].next;
  }

  lemma InitialChain(m: seq<Word>, L: Layout)
    requires |m| % 2 == 0 && 2 <= Last(m) <= 32766
    requires OneFreeBlock(m, L) && m[0] == Word(1, 0) && m[2 * Last(m)].next == 0
    ensures Chain(m, L.starts)
  {
    assert N(m, 0) == 1;
  }

  lemma InitialRing(m: seq<Word>, L: Layout)
    requires |m| % 2 == 0 && 2 <= Last(m) <= 32766
    requires OneFreeBlock(m, L)
    ensures Linked(m, Ring(L.free)) && Distinct(L.free)
  {
    assert Ring(L.free) == [0, 1, 0];
  }

  lemma InitialIsWf(m: seq<Word>, L: Layout)
    requires |m| % 2 == 0 && 2 <= Last(m) <= 32766
    requires OneFreeBlock(m, L) && m[0] == Word(1, 0) && m[2 * Last(m)].next == 0
    ensures Wf(m, L) && forall b: nat :: !IsLive(m, L, b)
  {
    hide Chain, Linked, Distinct, Ring;
    InitialChain(m, L);
    InitialRing(m, L);
    assert Raw(m, 0) == 1 && Raw(m, Last(m)) == 0;
  }

  // ------------------------------------------------------------------------- composing small steps

  lemma UndisturbedTrans(m0: seq<Word>, L0: Layout, m1: seq<Word>, L1: Layout, m2: seq<Word>, L2: Layout, A: set<nat>, B: set<nat>)
    requires Undisturbed(m0, L0, m1, L1, A) && Undisturbed(m1, L1, m2, L2, B)
    ensures Undisturbed(m0, L0, m2, L2, A + B)
  {
    forall x: nat | x !in A + B
      ensures IsLive(m0, L0, x) <==> IsLive(m2, L2, x)
      ensures IsLive(m0, L0, x) ==> Same(m0, m2, x)
    {
      assert IsLive(m0, L0, x) <==> IsLive(m1, L1, x);
    }
  }

  /** Writing inside the payload of a live block disturbs nothing else. */
  lemma PayloadWrite(m: seq<Word>, L: Layout, m': seq<Word>, x: nat)
    requires Wf(m, L) && IsLive(m, L, x) && |m'| == |m|
    requires forall j {:trigger m'[j]} :: 0 <= j < |m| && !(2 * x + 1 <= j < 2 * N(m, x)) ==> m'[j] == m[j]
    ensures Wf(m', L) && IsLive(m', L, x) && N(m', x) == N(m, x)
    ensures Undisturbed(m, L, m', L, {x})
  {
    forall b: nat | b in L.starts ensures m'[2 * b] == m[2 * b] { assert b <= x || N(m, x) <= b; }
    forall b: nat | b in L.starts && b != x ensures m'[2 * b + 1] == m[2 * b + 1] { assert b <= x || N(m, x) <= b; }
    assert forall b: nat {:trigger N(m', b)} :: b in L.starts ==> N(m', b) == N(m, b);
    assert forall b: nat {:trigger P(m', b)} :: b in L.starts ==> P(m', b) == P(m, b);
    assert forall b: nat {:trigger Raw(m', b)} :: b in L.starts ==> Raw(m', b) == Raw(m, b);
    assert Chain(m', L.starts);
    PayloadWriteRing(m, L, m', x);
    forall y: nat | y != x && IsLive(m, L, y) ensures Same(m, m', y) {
      assert x <= y || N(m, y) <= x;
      assert y <= x || N(m, x) <= y;
      assert N(m', y) == N(m, y);
    }
  }

  lemma PayloadWriteRing(m: seq<Word>, L: Layout, m': seq<Word>, x: nat)
    requires Wf(m, L) && IsLive(m, L, x) && |m'| == |m|
    requires forall b: nat {:trigger m'[2 * b + 1]} :: b in L.starts && b != x ==> m'[2 * b + 1] == m[2 * b + 1]
    ensures Linked(m', Ring(L.free))
  {
    var r := Ring(L.free);
    forall i | 0 <= i < |r| ensures r[i] in L.starts && r[i] != x {
      assert 0 < i <= |L.free| ==> r[i] == L.free[i - 1];
    }
  }
}
