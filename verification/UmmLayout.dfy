/** The block layout of the heap, as values.

    Memory is a sequence of 4-byte words.  Block `b` is the two words at `2*b` (its header: the
    numbers of the next and the previous block) and `2*b + 1` (its body).  The body of a free block
    holds the free-list links; the body of an allocated block is the first word of its payload, and
    the payload runs up to the header of the next block.  Nothing in memory tells the two apart
    except the flag in bit 15 of the header, so the invariant has to say where every word belongs. */
module UmmLayout {
  type u16 = x: int | 0 <= x < 0x1_0000

  /** A word: a pair of 16-bit halves, whether they are links or payload. */
  datatype Word = Word(next: u16, prev: u16)

  const FREELIST_MASK: int := 0x8000

  predicate Flagged(x: u16) { x >= FREELIST_MASK }

  /** `x & UMM_BLOCKNO_MASK` */
  function BlockNo(x: u16): nat { if x >= FREELIST_MASK then x - FREELIST_MASK else x }

  /** `x | UMM_FREELIST_MASK` when the flag is wanted */
  function Tagged(x: u16, flag: bool): u16 { if flag && x < FREELIST_MASK then x + FREELIST_MASK else x }

  predicate InHeap(m: seq<Word>, b: int) { 0 <= b && 2 * b + 1 < |m| }

  function Raw(m: seq<Word>, b: nat): u16 requires InHeap(m, b) { m[2 * b].next }
  function N(m: seq<Word>, b: nat): nat requires InHeap(m, b) { BlockNo(m[2 * b].next) }
  function P(m: seq<Word>, b: nat): nat requires InHeap(m, b) { m[2 * b].prev }
  function NF(m: seq<Word>, b: nat): nat requires InHeap(m, b) { m[2 * b + 1].next }
  function PF(m: seq<Word>, b: nat): nat requires InHeap(m, b) { m[2 * b + 1].prev }
  function Size(m: seq<Word>, b: nat): int requires InHeap(m, b) { N(m, b) - b }

  function SetRaw(m: seq<Word>, b: nat, v: u16): seq<Word> requires InHeap(m, b) { m[2 * b := m[2 * b].(next := v)] }
  function SetP(m: seq<Word>, b: nat, v: u16): seq<Word> requires InHeap(m, b) { m[2 * b := m[2 * b].(prev := v)] }
  function SetNF(m: seq<Word>, b: nat, v: u16): seq<Word> requires InHeap(m, b) { m[2 * b + 1 := m[2 * b + 1].(next := v)] }
  function SetPF(m: seq<Word>, b: nat, v: u16): seq<Word> requires InHeap(m, b) { m[2 * b + 1 := m[2 * b + 1].(prev := v)] }

  /** Which blocks there are, and the free ones in free-list order. */
  datatype Layout = Layout(starts: set<nat>, free: seq<nat>)

  function Last(m: seq<Word>): int { |m| / 2 - 1 }

  /** The next/prev links partition the whole heap: they are inverse to each other, and no block starts
      strictly inside another. */
  ghost predicate Chain(m: seq<Word>, B: set<nat>)
  {
    && |m| % 2 == 0 && 2 <= Last(m) <= 32766
    && (forall b :: b in B ==> b <= Last(m))
    && 0 in B && 1 in B && Last(m) in B
    && m[0].next == 1 && m[2 * Last(m)].next == 0
    && (forall b: nat {:trigger N(m, b)} :: b in B && b != Last(m) ==>
          b < N(m, b) && N(m, b) in B && P(m, N(m, b)) == b)
    && (forall b: nat {:trigger P(m, b)} :: b in B && b != 0 ==> P(m, b) < b && P(m, b) in B)
    && (forall b: nat, a: nat {:trigger P(m, b), N(m, a)} :: b in B && b != 0 && a == P(m, b) ==> N(m, a) == b)
    && (forall b: nat, k: nat {:trigger N(m, b), k in B} :: b in B && b != Last(m) && k in B ==> k <= b || N(m, b) <= k)
  }

  /** The free list closed into a ring through block 0. */
  function Ring(fl: seq<nat>): seq<nat> { [0] + fl + [0] }

  ghost predicate Linked(m: seq<Word>, r: seq<nat>)
  {
    && (forall i :: 0 <= i < |r| ==> InHeap(m, r[i]))
    && (forall i, j {:trigger r[i], r[j]} :: 0 <= i && j == i + 1 && j < |r| ==> NF(m, r[i]) == r[j] && PF(m, r[j]) == r[i])
  }

  ghost predicate Distinct(s: seq<nat>) { forall i, j :: 0 <= i < j < |s| ==> s[i] != s[j] }

  ghost predicate Wf(m: seq<Word>, L: Layout)
  {
    && Chain(m, L.starts)
    && Distinct(L.free)
    && (forall f :: f in L.free ==> f in L.starts && f != 0 && f != Last(m))
    && Linked(m, Ring(L.free))
    // the flag marks exactly the members of the free list
    && (forall b: nat {:trigger Raw(m, b)} :: b in L.starts ==> (Flagged(Raw(m, b)) <==> b in L.free))
    // no two free blocks are neighbours
    && (forall b: nat {:trigger N(m, b)} :: b in L.free ==> N(m, b) !in L.free)
  }

  predicate IsLive(m: seq<Word>, L: Layout, b: nat) { b in L.starts && b !in L.free && b != 0 && b != Last(m) }

  /** The words in `[lo, hi)` have not changed. */
  ghost predicate Kept(m: seq<Word>, m': seq<Word>, lo: int, hi: int)
  {
    |m'| == |m| && forall j {:trigger m'[j]} {:trigger m[j]} :: 0 <= j < |m| && lo <= j < hi ==> m'[j] == m[j]
  }

  /** Block `x` keeps its extent and every payload word. */
  ghost predicate Same(m: seq<Word>, m': seq<Word>, x: nat)
  {
    InHeap(m, x) && InHeap(m', x) && N(m', x) == N(m, x) && Kept(m, m', 2 * x + 1, 2 * N(m, x))
  }

  /** Every live block other than `except` stays live, in place and unchanged. */
  ghost predicate Undisturbed(m: seq<Word>, L: Layout, m': seq<Word>, L': Layout, except: set<nat>)
  {
    forall x: nat {:trigger IsLive(m', L', x)} {:trigger IsLive(m, L, x)} :: x !in except ==>
      (IsLive(m, L, x) <==> IsLive(m', L', x)) && (IsLive(m, L, x) ==> Same(m, m', x))
  }

  /** What may differ between two memories: headers of blocks in `H`, bodies of blocks in `F`. */
  ghost predicate Touches(m: seq<Word>, m': seq<Word>, H: set<nat>, F: set<nat>)
  {
    |m'| == |m| && forall j {:trigger m'[j]} :: 0 <= j < |m| && m'[j] != m[j] ==> (j % 2 == 0 && j / 2 in H) || (j % 2 == 1 && j / 2 in F)
  }
}
