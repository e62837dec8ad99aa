/** The allocator itself, working in place on its array of words. */
module UmmHeap {
  import opened UmmLayout
  import opened UmmListOps
  import opened UmmFacts

  const NULL: nat := 0

  class Heap {
    const mem: array<Word>
    const pheap: nat          // address of block 0
    const heapSize: nat
    const numblocks: nat
    ghost var layout: Layout

    ghost predicate Valid()
      reads this, mem
    {
      && pheap > 0 && numblocks == heapSize / 8
      && mem.Length == 2 * numblocks
      && Wf(mem[..], layout)
    }

    /** The address of the payload of block `b`, `&UMM_DATA(b)`. */
    function Address(b: nat): nat { pheap + 8 * b + 4 }

    /** The block an address lies in. */
    function BlockOf(ptr: int): nat requires ptr >= pheap { (ptr - pheap) / 8 }

    /** `ptr` was handed out and not yet given back. */
    ghost predicate Live(ptr: nat)
      reads this, mem
    {
      ptr >= pheap && ptr == Address(BlockOf(ptr)) && IsLive(mem[..], layout, BlockOf(ptr))
    }

    predicate OutOfRange(ptr: nat) { ptr < pheap || ptr >= pheap + heapSize }

    // ------------------------------------------------------------------------------- initialisation

    /** `umm_multi_init_heap` */
    constructor (ptr: nat, size: nat)
      requires ptr > 0 && 3 <= size / 8 <= 32767
      ensures Valid() && fresh(mem)
      ensures pheap == ptr && heapSize == size
      ensures OneFreeBlock(mem[..], layout)
      ensures forall p: nat :: !Live(p)
    {
      pheap, heapSize, numblocks := ptr, size, size / 8;
      var blank := Word(0, 0);
      mem := new Word[2 * (size / 8)](_ => blank);
      layout := Layout({0, 1, size / 8 - 1}, [1]);
      new;
      var last := numblocks - 1;
      mem[0] := mem[0].(next := 1);
      mem[1] := mem[1].(next := 1);
      mem[1] := mem[1].(prev := 1);
      mem[2] := mem[2].(next := Tagged(last, true));
      mem[2 * last] := mem[2 * last].(prev := 1);
      assert Last(mem[..]) == last;
      assert Raw(mem[..], 1) == mem[2].next;
      InitialIsWf(mem[..], layout);
    }

    // ------------------------------------------------------------------------- the block macros

    method SetNBlock(b: nat, v: u16)
      requires InHeap(mem[..], b)
      modifies mem
      ensures mem[..] == SetRaw(old(mem[..]), b, v)
    {
      mem[2 * b] := mem[2 * b].(next := v);
    }

    method SetPBlock(b: nat, v: u16)
      requires InHeap(mem[..], b)
      modifies mem
      ensures mem[..] == SetP(old(mem[..]), b, v)
    {
      mem[2 * b] := mem[2 * b].(prev := v);
    }

    method SetNFree(b: nat, v: u16)
      requires InHeap(mem[..], b)
      modifies mem
      ensures mem[..] == SetNF(old(mem[..]), b, v)
    {
      mem[2 * b + 1] := mem[2 * b + 1].(next := v);
    }

    method SetPFree(b: nat, v: u16)
      requires InHeap(mem[..], b)
      modifies mem
      ensures mem[..] == SetPF(old(mem[..]), b, v)
    {
      mem[2 * b + 1] := mem[2 * b + 1].(prev := v);
    }

    // ------------------------------------------------------------------------------ the list steps

    /** `umm_split_block` */
    method SplitBlock(c: nat, blocks: nat, free: bool)
      requires InHeap(mem[..], c) && InHeap(mem[..], N(mem[..], c)) && 0 < blocks && c + blocks < N(mem[..], c)
      modifies mem
      ensures InHeap(old(mem[..]), c + blocks) && c + blocks < 0x8000
      ensures InHeap(old(mem[..]), N(SetP(SetRaw(old(mem[..]), c + blocks, Tagged(N(old(mem[..]), c), free)), c + blocks, c), c))
      ensures mem[..] == Split(old(mem[..]), c, blocks, free)
    {
      SplitEffect(mem[..], c, blocks, free);
      SetNBlock(c + blocks, Tagged(BlockNo(mem[2 * c].next), free));
      SetPBlock(c + blocks, c);
      SetPBlock(BlockNo(mem[2 * c].next), c + blocks);
      SetNBlock(c, c + blocks);
    }

    /** `umm_disconnect_from_free_list` */
    method DisconnectFromFreeList(c: nat)
      requires InHeap(mem[..], c) && InHeap(mem[..], PF(mem[..], c)) && InHeap(mem[..], NF(mem[..], c))
      requires NF(mem[..], c) != c && PF(mem[..], c) != c
      modifies mem
      ensures mem[..] == Disconnect(old(mem[..]), c)
    {
      SetNFree(mem[2 * c + 1].prev, mem[2 * c + 1].next);
      SetPFree(mem[2 * c + 1].next, mem[2 * c + 1].prev);
      SetNBlock(c, BlockNo(mem[2 * c].next));
    }

    /** `umm_assimilate_up`: a live block takes in the next block if that one is free. */
    method AssimilateUp(c: nat)
      requires Valid() && IsLive(mem[..], layout, c)
      modifies mem, `layout
      ensures Valid() && Grown(old(mem[..]), old(layout), mem[..], layout, c)
    {
      ghost var m0, L0 := mem[..], layout;
      var n := mem[2 * c].next;
      assert n == N(m0, c) == Raw(m0, c);
      if Flagged(mem[2 * n].next) {
        assert Flagged(Raw(m0, n));
        ghost var i :| 0 <= i < |layout.free| && layout.free[i] == n;
        WfGrow(m0, L0, c, i);
        DisconnectFromFreeList(n);
        ghost var m1 := mem[..];
        assert mem[2 * n].next == Raw(m1, n);
        SetPBlock(BlockNo(mem[2 * n].next), c);
        SetNBlock(c, BlockNo(mem[2 * n].next));
        assert mem[..] == Join(m1, c, false);
        layout := Layout(layout.starts - {n}, Without(layout.free, i));
      } else {
        assert !Flagged(Raw(m0, n));
      }
    }

    /** `umm_assimilate_down`: the previous block takes in block `c`. */
    method AssimilateDown(c: nat, free: bool) returns (p: nat)
      requires InHeap(mem[..], c) && InHeap(mem[..], P(mem[..], c)) && InHeap(mem[..], N(mem[..], c))
      requires N(mem[..], P(mem[..], c)) == c && P(mem[..], c) < c < N(mem[..], c) && P(mem[..], c) < 0x8000
      requires !Flagged(Raw(mem[..], c))
      modifies mem
      ensures p == P(old(mem[..]), c) && mem[..] == Join(old(mem[..]), p, free)
    {
      JoinEffect(mem[..], P(mem[..], c), free);
      SetNBlock(mem[2 * c].prev, Tagged(mem[2 * c].next, free));
      SetPBlock(mem[2 * c].next, mem[2 * c].prev);
      p := mem[2 * c].prev;
    }

    // --------------------------------------------------------------------------------------- free

    /** The end of `umm_free_core` when the previous block is in use. */
    method AddToFreeList(c: nat)
      requires c != 0 && c < 0x8000 && InHeap(mem[..], c) && InHeap(mem[..], NF(mem[..], 0)) && NF(mem[..], 0) != c
      modifies mem
      ensures mem[..] == PushFree(old(mem[..]), c)
    {
      SetPFree(mem[1].next, c);
      SetNFree(c, mem[1].next);
      SetPFree(c, 0);
      SetNFree(0, c);
      SetNBlock(c, Tagged(mem[2 * c].next, true));
    }

    /** The two ways `umm_free_core` ends. */
    method Unite(c: nat)
      requires Valid() && IsLive(mem[..], layout, c) && N(mem[..], c) !in layout.free && P(mem[..], c) in layout.free
      modifies mem, `layout
      ensures Valid() && Freed(old(mem[..]), old(layout), mem[..], layout, c)
    {
      hide Join, Undisturbed, Linked, Distinct, Chain;
      Around(mem[..], layout, c);
      WfAbsorbed(mem[..], layout, c);
      var p := AssimilateDown(c, true);
      layout := layout.(starts := layout.starts - {c});
    }

    method Enlist(c: nat)
      requires Valid() && IsLive(mem[..], layout, c) && N(mem[..], c) !in layout.free && P(mem[..], c) !in layout.free
      modifies mem, `layout
      ensures Valid() && Freed(old(mem[..]), old(layout), mem[..], layout, c)
    {
      hide PushFree, Undisturbed, Linked, Distinct, Chain;
      Around(mem[..], layout, c);
      WfPushFree(mem[..], layout, c);
      AddToFreeList(c);
      layout := layout.(free := [c] + layout.free);
    }

    /** `umm_free_core` */
    method FreeCore(ptr: nat)
      requires Valid() && Live(ptr)
      modifies mem, `layout
      ensures Valid() && Freed(old(mem[..]), old(layout), mem[..], layout, BlockOf(ptr))
    {
      hide Undisturbed, Linked, Distinct, Chain;
      var c := (ptr - pheap) / 8;
      ghost var m0, L0 := mem[..], layout;
      AssimilateUp(c);
      ghost var m1, L1 := mem[..], layout;
      Around(m1, L1, c);
      var p := mem[2 * c].prev;
      Around(m1, L1, p);
      assert mem[2 * p].next == Raw(m1, p);
      if Flagged(mem[2 * p].next) {
        Unite(c);
      } else {
        Enlist(c);
      }
      FreedAfterGrowing(m0, L0, m1, L1, mem[..], layout, c);
    }

    /** `umm_multi_free` */
    method Free(ptr: nat)
      requires Valid() && (ptr == NULL || OutOfRange(ptr) || Live(ptr))
      modifies mem, `layout
      ensures Valid()
      ensures ptr == NULL || OutOfRange(ptr) ==> mem[..] == old(mem[..]) && layout == old(layout)
      ensures ptr != NULL && !OutOfRange(ptr) ==> Freed(old(mem[..]), old(layout), mem[..], layout, BlockOf(ptr))
    {
      if ptr == NULL { return; }
      if ptr < pheap || ptr >= pheap + heapSize { return; }
      FreeCore(ptr);
    }

    // ------------------------------------------------------------------------------------- malloc

    /** The scan of the free list in `umm_malloc_core`: the head of the list or the best block so far,
        and the size of the block seen last. */
    method ScanFreeList(blocks: u16) returns (cf: nat, blockSize: u16)
      requires Valid() && blocks > 0
      ensures cf != 0 ==> BestFit(mem[..], layout.free, blocks, cf) && blockSize == Size(mem[..], cf)
      ensures cf == 0 ==> blockSize < blocks && NoneFits(mem[..], layout.free, blocks)
    {
      hide Wf, Ring, BestFit;
      ghost var m, L := mem[..], layout;
      WalkStep(m, L, 0);
      blockSize := 0;
      cf := mem[1].next;
      var bestBlock: nat := mem[1].next;
      var bestSize := 0x7FFF;
      ghost var i := 0;
      while cf != 0
        invariant i <= |L.free| < |Ring(L.free)| - 1 && cf == Ring(L.free)[i + 1] && (cf == 0 <==> i == |L.free|)
        invariant blockSize >= blocks ==> bestSize != 0x7FFF
        invariant forall f :: f in L.free[..i] ==> InHeap(m, f)
        invariant bestSize == 0x7FFF ==> NoneFits(m, L.free[..i], blocks)
        invariant bestSize != 0x7FFF ==>
                    bestSize < 0x7FFF && bestBlock in L.free[..i] && BestFit(m, L.free[..i], blocks, bestBlock) && Size(m, bestBlock) == bestSize
        decreases |L.free| - i
      {
        WalkStep(m, L, i);
        WalkStep(m, L, i + 1);
        assert N(m, cf) == BlockNo(mem[2 * cf].next);
        blockSize := BlockNo(mem[2 * cf].next) - cf;
        assert L.free[..i + 1] == L.free[..i] + [cf];
        StillEarliest(m, L.free[..i], blocks, bestBlock, cf);
        if blockSize >= blocks && blockSize < bestSize {
          bestBlock := cf;
          bestSize := blockSize;
        }
        cf := mem[2 * cf + 1].next;
        i := i + 1;
      }
      assert L.free[..i] == L.free;
      if 0x7FFF != bestSize {
        cf := bestBlock;
        blockSize := bestSize;
        assert cf != 0 by { FreeIsNotHead(m, L, cf); }
      }
    }

    /** `umm_malloc_core` */
    method MallocCore(size: nat) returns (ptr: nat)
      requires Valid() && size > 0
      modifies mem, `layout
      ensures Valid()
      ensures ptr == NULL ==> mem[..] == old(mem[..]) && layout == old(layout)
      ensures ptr == NULL <==> NoneFits(old(mem[..]), old(layout).free, UmmBlocks(size))
      ensures ptr != NULL ==> Live(ptr) && Taken(old(mem[..]), old(layout), mem[..], layout, BlockOf(ptr), UmmBlocks(size))
    {
      var blocks := UmmBlocks(size);
      ghost var m, L := mem[..], layout;
      var cf, blockSize := ScanFreeList(blocks);
      if BlockNo(mem[2 * cf].next) != 0 && blockSize >= blocks {
        if blockSize == blocks {
          TakeWhole(cf);
        } else {
          TakeStart(cf, blocks);
        }
        ptr := pheap + 8 * cf + 4;
        assert BlockOf(ptr) == cf;
      } else {
        assert BlockNo(mem[2 * cf].next) == N(m, cf);
        ptr := NULL;
      }
    }

    /** The exact fit of `umm_malloc_core`. */
    method TakeWhole(cf: nat)
      requires Valid() && cf in layout.free
      modifies mem, `layout
      ensures Valid() && IsLive(mem[..], layout, cf) && Size(mem[..], cf) == Size(old(mem[..]), cf)
      ensures Undisturbed(old(mem[..]), old(layout), mem[..], layout, {cf})
    {
      ghost var i :| 0 <= i < |layout.free| && layout.free[i] == cf;
      RingNeighbours(mem[..], layout, i);
      WfDisconnect(mem[..], layout, i);
      DisconnectFromFreeList(cf);
      layout := layout.(free := Without(layout.free, i));
    }

    /** The inexact fit of `umm_malloc_core`. */
    method TakeStart(cf: nat, blocks: nat)
      requires Valid() && cf in layout.free && InHeap(mem[..], cf) && 0 < blocks < Size(mem[..], cf)
      modifies mem, `layout
      ensures Valid() && IsLive(mem[..], layout, cf) && Size(mem[..], cf) == blocks
      ensures Undisturbed(old(mem[..]), old(layout), mem[..], layout, {cf})
    {
      hide Wf, Undisturbed, Carve, IsLive, Carvable;
      ghost var i :| 0 <= i < |layout.free| && layout.free[i] == cf;
      WfCarve(mem[..], layout, i, blocks);
      SplitAndRelink(cf, blocks);
      layout := Layout(layout.starts + {cf + blocks}, layout.free[i := cf + blocks]);
    }

    /** The memory writes of the inexact fit: split, then put the rest in the place of the whole. */
    method SplitAndRelink(cf: nat, blocks: nat)
      requires Carvable(mem[..], cf, blocks)
      modifies mem
      ensures mem[..] == Carve(old(mem[..]), cf, blocks)
    {
      SplitEffect(mem[..], cf, blocks, true);
      SplitBlock(cf, blocks, true);
      RelinkFree(cf, blocks);
    }

    method RelinkFree(cf: nat, blocks: nat)
      requires InHeap(mem[..], cf) && InHeap(mem[..], cf + blocks) && cf + blocks < 0x8000
      requires InHeap(mem[..], PF(mem[..], cf)) && InHeap(mem[..], NF(mem[..], cf))
      requires blocks > 0 && NF(mem[..], cf) != cf && PF(mem[..], cf) != cf && PF(mem[..], cf) != cf + blocks && NF(mem[..], cf) != cf + blocks
      modifies mem
      ensures mem[..] == Relink(old(mem[..]), cf, blocks)
    {
      SetNFree(mem[2 * cf + 1].prev, cf + blocks);
      SetPFree(cf + blocks, mem[2 * cf + 1].prev);
      SetPFree(mem[2 * cf + 1].next, cf + blocks);
      SetNFree(cf + blocks, mem[2 * cf + 1].next);
    }

    /** `umm_multi_malloc` */
    method Malloc(size: nat) returns (ptr: nat)
      requires Valid()
      modifies mem, `layout
      ensures Valid()
      ensures ptr == NULL ==> mem[..] == old(mem[..]) && layout == old(layout)
      ensures ptr == NULL <==> size == 0 || NoneFits(old(mem[..]), old(layout).free, UmmBlocks(size))
      ensures ptr != NULL ==> Live(ptr) && Taken(old(mem[..]), old(layout), mem[..], layout, BlockOf(ptr), UmmBlocks(size))
    {
      ptr := NULL;
      if size == 0 { return; }
      ptr := MallocCore(size);
    }

    // ------------------------------------------------------------------------------------ realloc

    /** `memmove` and `memcpy` of `n` words: all reads happen before any write. */
    method MoveWords(dst: nat, src: nat, n: nat)
      requires dst + n <= mem.Length && src + n <= mem.Length
      modifies mem
      ensures Copied(old(mem[..]), src, mem[..], dst, n)
      ensures forall j {:trigger mem[j]} :: 0 <= j < mem.Length && !(dst <= j < dst + n) ==> mem[j] == old(mem[j])
    {
      forall i | 0 <= i < n {
        mem[dst + i] := mem[src + i];
      }
      assert forall i {:trigger mem[dst..dst + n][i]} :: 0 <= i < n ==> mem[dst..dst + n][i] == mem[dst + i];
      assert mem[dst..dst + n] == old(mem[src..src + n]);
      assert mem[..][dst..dst + n] == mem[dst..dst + n];
      assert old(mem[..])[src..src + n] == old(mem[src..src + n]);
    }

    /** Merge live block `c` into the free block before it and slide the payload down: the common part of
        strategies 4 and 5. */
    method TakePrevious(c: nat, words: nat) returns (p: nat)
      requires Valid() && IsLive(mem[..], layout, c) && InHeap(mem[..], c)
      requires P(mem[..], c) in layout.free && words < 2 * Size(mem[..], c)
      modifies mem, `layout
      ensures Valid() && p == P(old(mem[..]), c)
      ensures Slid(old(mem[..]), old(layout), mem[..], layout, c, p, words)
    {
      hide Chain, Linked, Distinct, Join, Disconnect, Undisturbed, Touches, Without;
      ghost var m, L := mem[..], layout;
      Around(m, L, c);
      p := mem[2 * c].prev;
      ghost var i :| 0 <= i < |L.free| && L.free[i] == p;
      WfTakePrevious(m, L, c, i);
      DisconnectFromFreeList(p);
      var q := AssimilateDown(c, false);
      layout := Layout(L.starts - {c}, Without(L.free, i));
      ghost var m1 := mem[..];
      Around(m1, layout, p);
      MoveWords(2 * p + 1, 2 * c + 1, words);
      SlideIsPayloadWrite(m1, layout, mem[..], p, words);
      SlidDone(m, L, m1, mem[..], layout, c, p, words);
    }

    /** Give back the end of a live block. */
    method Trim(c: nat, blocks: nat)
      requires Valid() && IsLive(mem[..], layout, c) && InHeap(mem[..], c) && 0 < blocks < Size(mem[..], c)
      modifies mem, `layout
      ensures Valid() && Trimmed(old(mem[..]), old(layout), mem[..], layout, c, blocks)
    {
      hide Chain, Linked, Distinct, Split, Undisturbed, Touches;
      ghost var m, L := mem[..], layout;
      Around(m, L, c);
      WfSplit(m, L, c, blocks);
      SplitBlock(c, blocks, false);
      layout := L.(starts := L.starts + {c + blocks});
      ghost var m1, L1 := mem[..], layout;
      var rest := pheap + 8 * (c + blocks) + 4;
      assert BlockOf(rest) == c + blocks;
      FreeCore(rest);
      TrimDone(m, L, m1, L1, mem[..], layout, c, blocks);
    }

    /** The copy of strategy 6, from one live block into another. */
    method CopyPayload(oldptr: nat, ptr: nat, words: nat)
      requires Valid() && Live(oldptr) && Live(ptr) && oldptr != ptr
      requires var m, c, d := mem[..], BlockOf(oldptr), BlockOf(ptr);
               && InHeap(m, c) && InHeap(m, d) && 2 * c + 1 + words <= |m| && 2 * d + 1 + words <= 2 * N(m, d) <= |m|
      modifies mem
      ensures Valid() && IsLive(mem[..], layout, BlockOf(ptr)) && InHeap(mem[..], BlockOf(ptr))
      ensures N(mem[..], BlockOf(ptr)) == N(old(mem[..]), BlockOf(ptr))
      ensures Undisturbed(old(mem[..]), layout, mem[..], layout, {BlockOf(ptr)})
      ensures Copied(old(mem[..]), 2 * BlockOf(oldptr) + 1, mem[..], 2 * BlockOf(ptr) + 1, words)
    {
      hide Wf, Undisturbed, Copied;
      ghost var m := mem[..];
      MoveWords((ptr - pheap - 4) / 4 + 1, (oldptr - pheap - 4) / 4 + 1, words);
      SlideIsPayloadWrite(m, layout, mem[..], BlockOf(ptr), words);
    }

    /** Strategy 6: allocate, copy and free. */
    method Relocate(oldptr: nat, size: nat, words: nat) returns (ptr: nat)
      requires Valid() && Live(oldptr) && size > 0
      requires var c := BlockOf(oldptr); InHeap(mem[..], c) && words == 2 * Size(mem[..], c) - 1 && Size(mem[..], c) < UmmBlocks(size)
      modifies mem, `layout
      ensures Valid()
      ensures ptr == NULL ==> mem[..] == old(mem[..]) && layout == old(layout)
      ensures ptr == NULL <==> NoneFits(old(mem[..]), old(layout).free, UmmBlocks(size))
      ensures ptr != NULL ==> Live(ptr) && Resized(old(mem[..]), old(layout), mem[..], layout, BlockOf(oldptr), BlockOf(ptr), UmmBlocks(size))
    {
      hide Wf, Undisturbed, NoneFits, Taken, Freed, Copied, Resized, UmmBlocks;
      ghost var m, L, c := mem[..], layout, BlockOf(oldptr);
      Around(m, L, c);
      ptr := MallocCore(size);
      if ptr != NULL {
        ghost var m1, L1, d := mem[..], layout, BlockOf(ptr);
        RelocateTarget(m, L, m1, L1, c, d, UmmBlocks(size));
        CopyPayload(oldptr, ptr, words);
        ghost var m2 := mem[..];
        StillThere(m1, L1, m2, L1, {d}, c);
        FreeCore(oldptr);
        RelocateDone(m, L, m1, L1, m2, mem[..], layout, c, d, UmmBlocks(size), words);
        ResizedFacts(m, L, mem[..], layout, c, d, UmmBlocks(size));
      }
    }

    /** `umm_multi_realloc` */
    method Realloc(ptr: nat, size: nat) returns (r: nat)
      requires Valid() && (ptr == NULL || Live(ptr))
      modifies mem, `layout
      ensures Valid()
      ensures ptr == NULL ==>
                && (r == NULL <==> size == 0 || NoneFits(old(mem[..]), old(layout).free, UmmBlocks(size)))
                && (r == NULL ==> mem[..] == old(mem[..]) && layout == old(layout))
                && (r != NULL ==> Live(r) && Taken(old(mem[..]), old(layout), mem[..], layout, BlockOf(r), UmmBlocks(size)))
      ensures ptr != NULL && size == 0 ==> r == NULL && Freed(old(mem[..]), old(layout), mem[..], layout, BlockOf(ptr))
      ensures ptr != NULL && size > 0 ==>
                && (r == NULL <==> old(Room(mem[..], layout, BlockOf(ptr))) < UmmBlocks(size)
                                   && NoneFits(old(mem[..]), old(layout).free, UmmBlocks(size)))
                && (r == NULL ==> mem[..] == old(mem[..]) && layout == old(layout))
                && (r != NULL ==> Live(r) && Resized(old(mem[..]), old(layout), mem[..], layout, BlockOf(ptr), BlockOf(r), UmmBlocks(size)))
    {
      if ptr == NULL {
        r := Malloc(size);
        return;
      }
      if size == 0 {
        Free(ptr);
        r := NULL;
        return;
      }
      r := ReallocCore(ptr, size);
    }

    /** The size of live block `c` and of its neighbours where these are free. */
    method Neighbours(c: nat) returns (prevBlockSize: nat, blockSize: nat, nextBlockSize: nat)
      requires Valid() && IsLive(mem[..], layout, c)
      ensures var m := mem[..];
              && InHeap(m, c) && InHeap(m, N(m, c)) && InHeap(m, P(m, c)) && N(m, P(m, c)) == c
              && blockSize == Size(m, c) > 0 && Room(m, layout, c) == prevBlockSize + blockSize + nextBlockSize
              && prevBlockSize == (if P(m, c) in layout.free then c - P(m, c) else 0) && (prevBlockSize == 0 <==> P(m, c) !in layout.free)
              && nextBlockSize == (if N(m, c) in layout.free then Size(m, N(m, c)) else 0)
              && prevBlockSize == FreeBefore(m, layout, c) && nextBlockSize == FreeAfter(m, layout, c)
    {
      hide Wf, Room;
      ghost var m, L := mem[..], layout;
      RoomSum(m, L, c);
      Around(m, L, c);
      var n := mem[2 * c].next;
      blockSize := n - c;
      prevBlockSize, nextBlockSize := 0, 0;
      Around(m, L, n);
      assert mem[2 * n].next == Raw(m, n);
      if Flagged(mem[2 * n].next) {
        nextBlockSize := BlockNo(mem[2 * n].next) - n;
      }
      var p: nat := mem[2 * c].prev;
      Around(m, L, p);
      assert mem[2 * p].next == Raw(m, p);
      if Flagged(mem[2 * p].next) {
        prevBlockSize := c - p;
      }
    }

    /** Strategies 1 to 5: the block where it is, or grown into a free neighbour on either side; `c` is the block that
        results and `blockSize` its size, which may be more than wanted. */
    method Fit(ptr: nat, blocks: nat) returns (fits: bool, c: nat, blockSize: int, words: nat)
      requires Valid() && Live(ptr) && blocks > 0
      modifies mem, `layout
      ensures Valid()
      ensures fits <==> old(Room(mem[..], layout, BlockOf(ptr))) >= blocks
      ensures InHeap(old(mem[..]), BlockOf(ptr)) && words == 2 * Size(old(mem[..]), BlockOf(ptr)) - 1
      ensures !fits ==> mem[..] == old(mem[..]) && layout == old(layout) && Size(mem[..], BlockOf(ptr)) < blocks
      ensures fits ==> blockSize >= blocks && Resized(old(mem[..]), old(layout), mem[..], layout, BlockOf(ptr), c, blockSize)
      ensures var way := WayOf(old(mem[..]), old(layout), BlockOf(ptr), blocks);
              && (fits <==> way != Elsewhere) && (fits ==> c == EndsIn(old(mem[..]), old(layout), BlockOf(ptr), blocks))
              && (way == InPlace ==> mem[..] == old(mem[..]) && layout == old(layout))
              && blockSize == Size(old(mem[..]), BlockOf(ptr)) + (if way in {Up, Both} then FreeAfter(old(mem[..]), old(layout), BlockOf(ptr)) else 0)
                              + (if way in {Down, Both} then FreeBefore(old(mem[..]), old(layout), BlockOf(ptr)) else 0)
    {
      hide Wf, Undisturbed, NoneFits, Grown, Slid, Resized, Trimmed, Freed, Taken, Room, FreeBefore, FreeAfter;
      ghost var m, L, c0 := mem[..], layout, (ptr - pheap) / 8;
      Around(m, L, c0);
      c := (ptr - pheap) / 8;
      var prevBlockSize, nextBlockSize;
      prevBlockSize, blockSize, nextBlockSize := Neighbours(c);
      words := 2 * blockSize - 1;
      fits := true;
      if blockSize >= blocks {
        ResizedInPlace(m, L, c);
      } else if blockSize + nextBlockSize == blocks || (prevBlockSize == 0 && blockSize + nextBlockSize >= blocks) {
        AssimilateUp(c);
        ResizedByGrowing(m, L, mem[..], layout, c);
        blockSize := blockSize + nextBlockSize;
      } else if prevBlockSize + blockSize >= blocks {
        c := TakePrevious(c, words);
        ResizedBySliding(m, L, mem[..], layout, c0, c, words);
        blockSize := blockSize + prevBlockSize;
      } else if prevBlockSize + blockSize + nextBlockSize >= blocks {
        AssimilateUp(c);
        ghost var m1, L1 := mem[..], layout;
        GrownFacts(m, L, m1, L1, c);
        c := TakePrevious(c, words);
        ResizedByBoth(m, L, m1, L1, mem[..], layout, c0, c, words);
        blockSize := blockSize + prevBlockSize + nextBlockSize;
      } else {
        fits := false;
      }
    }

    /** The strategies of `umm_multi_realloc`. */
    method ReallocCore(ptr: nat, size: nat) returns (r: nat)
      requires Valid() && Live(ptr) && size > 0
      modifies mem, `layout
      ensures Valid()
      ensures r == NULL <==> old(Room(mem[..], layout, BlockOf(ptr))) < UmmBlocks(size)
                             && NoneFits(old(mem[..]), old(layout).free, UmmBlocks(size))
      ensures r == NULL ==> mem[..] == old(mem[..]) && layout == old(layout)
      ensures r != NULL ==> Live(r) && Resized(old(mem[..]), old(layout), mem[..], layout, BlockOf(ptr), BlockOf(r), UmmBlocks(size))
      // where it ends
      ensures var way := WayOf(old(mem[..]), old(layout), BlockOf(ptr), UmmBlocks(size));
              && (way != Elsewhere ==> r != NULL && BlockOf(r) == EndsIn(old(mem[..]), old(layout), BlockOf(ptr), UmmBlocks(size)))
              && (way in {InPlace, Up} ==> r == ptr)
    {
      hide Wf, Undisturbed, NoneFits, Grown, Slid, Resized, Trimmed, Freed, Taken, Room, UmmBlocks, FreeBefore, FreeAfter, WayOf, EndsIn;
      EndsWhere(mem[..], layout, (ptr - pheap) / 8, UmmBlocks(size));
      ghost var m, L, c0 := mem[..], layout, (ptr - pheap) / 8;
      var blocks := UmmBlocks(size);
      var fits, c, blockSize, words := Fit(ptr, blocks);
      if !fits {
        r := Relocate(ptr, size, words);
        return;
      }
      r := pheap + 8 * c + 4;
      assert BlockOf(r) == c;
      ResizedFacts(m, L, mem[..], layout, c0, c, blockSize);
      if blockSize > blocks {
        ghost var m1, L1 := mem[..], layout;
        Trim(c, blocks);
        ResizedByTrimming(m, L, m1, L1, mem[..], layout, c0, c, blockSize, blocks);
        ResizedFacts(m, L, mem[..], layout, c0, c, blocks);
      }
    }

    /** Give back everything that is allocated, in the order of `ptrs`. */
    method FreeAll(ptrs: seq<nat>)
      requires Valid()
      requires forall i :: 0 <= i < |ptrs| ==> Live(ptrs[i]) && !OutOfRange(ptrs[i]) && ptrs[i] != NULL
      requires forall i, j :: 0 <= i < j < |ptrs| ==> ptrs[i] != ptrs[j]
      requires forall b: nat :: IsLive(mem[..], layout, b) ==> Address(b) in ptrs
      modifies mem, `layout
      ensures Valid() && OneFreeBlock(mem[..], layout)
    {
      hide Wf, Undisturbed, OneFreeBlock;
      for i := 0 to |ptrs|
        invariant Valid()
        invariant forall j :: i <= j < |ptrs| ==> Live(ptrs[j])
        invariant forall b: nat :: IsLive(mem[..], layout, b) ==> Address(b) in ptrs[i..]
      {
        ghost var m, L := mem[..], layout;
        Free(ptrs[i]);
        forall x: nat | x != BlockOf(ptrs[i]) ensures IsLive(m, L, x) <==> IsLive(mem[..], layout, x) {
          LivenessKept(m, L, mem[..], layout, BlockOf(ptrs[i]), x);
        }
        forall b: nat | IsLive(mem[..], layout, b) ensures Address(b) in ptrs[i + 1..] {
          assert Address(b) in ptrs[i..] && Address(b) != ptrs[i];
        }
      }
      AllFreed(mem[..], layout);
    }

    /** `umm_heap_stats` */
    method HeapStats() returns (total: nat, used: int, free: int, largestFree: int)
      requires Valid()
      ensures total == heapSize
      ensures free == 8 * FreeBlocks(mem[..], layout.free)
      ensures used == 8 * (SetBlocks(mem[..], LiveSet(mem[..], layout)) + 2)
      ensures largestFree == LargestFreeBytes(mem[..], layout.free)
    {
      hide Wf, Ring;
      ghost var m, L := mem[..], layout;
      WalkStep(m, L, 0);
      RingHead(m, L);
      var totalFreeBlocks, largestFreeBlocks := 0, 0;
      var cf: nat := mem[1].next;
      ghost var i := 0;
      while cf != 0
        invariant i <= |L.free| < |Ring(L.free)| - 1 && cf == Ring(L.free)[i + 1] && (cf == 0 <==> i == |L.free|)
        invariant forall f :: f in L.free[i..] ==> InHeap(m, f)
        invariant FreeBlocks(m, L.free) == totalFreeBlocks + FreeBlocks(m, L.free[i..])
        invariant largestFreeBlocks >= 0
        invariant LargestFree(m, L.free) == Max(largestFreeBlocks, LargestFree(m, L.free[i..]))
        decreases |L.free| - i
      {
        WalkStep(m, L, i);
        WalkStep(m, L, i + 1);
        assert cf == L.free[i..][0];
        assert L.free[i..][1..] == L.free[i + 1..];
        assert N(m, cf) == BlockNo(mem[2 * cf].next);
        var blockSize := BlockNo(mem[2 * cf].next) - cf;
        totalFreeBlocks := totalFreeBlocks + blockSize;
        if blockSize > largestFreeBlocks {
          largestFreeBlocks := blockSize;
        }
        cf := mem[2 * cf + 1].next;
        i := i + 1;
      }
      FreePlusLive(m, layout);
      total := heapSize;
      free := totalFreeBlocks * 8;
      used := (numblocks - totalFreeBlocks) * 8;
      largestFree := if largestFreeBlocks > 0 then largestFreeBlocks * 8 - 4 else 0;
    }
  }

  lemma FreeIsNotHead(m: seq<Word>, L: Layout, f: nat)
    requires Wf(m, L) && f in L.free
    ensures f != 0
  {
  }

  function Max(a: int, b: int): int { if a > b then a else b }

  /** The `largest_free` figure: the payload of the largest free block. */
  function LargestFreeBytes(m: seq<Word>, fl: seq<nat>): int
    requires forall f :: f in fl ==> InHeap(m, f)
  {
    if LargestFree(m, fl) > 0 then Capacity(LargestFree(m, fl)) else 0
  }

  ghost predicate NoneFits(m: seq<Word>, fl: seq<nat>, k: nat)
    requires forall f :: f in fl ==> InHeap(m, f)
  {
    forall f: nat {:trigger Size(m, f)} :: f in fl ==> Size(m, f) < k
  }

  /** `c` is a smallest free block among those of at least `k` blocks. */
  ghost predicate BestFit(m: seq<Word>, fl: seq<nat>, k: nat, c: nat)
    requires forall f :: f in fl ==> InHeap(m, f)
  {
    && c in fl && Size(m, c) >= k && (forall f: nat {:trigger Size(m, f)} :: f in fl && Size(m, f) >= k ==> Size(m, c) <= Size(m, f))
    && exists i :: EarliestAt(m, fl, k, c, i)
  }

  /** Of the blocks that fit as well, `c` is the first in the list. */
  ghost predicate EarliestAt(m: seq<Word>, fl: seq<nat>, k: nat, c: nat, i: int)
    requires forall f :: f in fl ==> InHeap(m, f)
  {
    0 <= i < |fl| && fl[i] == c && InHeap(m, c)
    && forall j :: 0 <= j < i ==> (InHeap(m, fl[j]) && Size(m, fl[j]) >= k ==> Size(m, c) < Size(m, fl[j]))
  }

  lemma StillEarliest(m: seq<Word>, fl: seq<nat>, k: nat, c: nat, more: nat)
    requires (forall f :: f in fl + [more] ==> InHeap(m, f)) && InHeap(m, more)
    requires forall f :: f in fl ==> InHeap(m, f)
    ensures BestFit(m, fl, k, c) && !(k <= Size(m, more) < Size(m, c)) ==> BestFit(m, fl + [more], k, c)
    ensures (BestFit(m, fl, k, c) && k <= Size(m, more) < Size(m, c)) || (NoneFits(m, fl, k) && Size(m, more) >= k) ==> BestFit(m, fl + [more], k, more)
  {
    var fl' := fl + [more];
    if BestFit(m, fl, k, c) {
      var i :| EarliestAt(m, fl, k, c, i);
      if k <= Size(m, more) < Size(m, c) {
        forall j | 0 <= j < |fl| ensures InHeap(m, fl'[j]) && Size(m, fl'[j]) >= k ==> Size(m, more) < Size(m, fl'[j]) { assert fl[j] in fl; }
        assert EarliestAt(m, fl', k, more, |fl|);
      } else {
        assert EarliestAt(m, fl', k, c, i);
      }
    }
    if NoneFits(m, fl, k) && Size(m, more) >= k {
      forall j | 0 <= j < |fl| ensures InHeap(m, fl'[j]) && Size(m, fl'[j]) >= k ==> Size(m, more) < Size(m, fl'[j]) { assert fl[j] in fl; }
      assert EarliestAt(m, fl', k, more, |fl|);
    }
  }

  /** A best-fitting free block has become live with exactly `k` blocks; nothing else moved. */
  ghost predicate Taken(m: seq<Word>, L: Layout, m': seq<Word>, L': Layout, c: nat, k: nat)
    requires forall f :: f in L.free ==> InHeap(m, f)
  {
    BestFit(m, L.free, k, c) && IsLive(m', L', c) && InHeap(m', c) && Size(m', c) == k && Undisturbed(m, L, m', L', {c})
  }

  /** A request is granted exactly when it is no larger than the `largest_free` figure. */
  lemma GrantedUpToLargestFree(m: seq<Word>, L: Layout, size: nat)
    requires Wf(m, L) && size > 0
    ensures NoneFits(m, L.free, UmmBlocks(size)) <==> size > LargestFreeBytes(m, L.free)
  {
    LargestIsMaximum(m, L.free);
    var k := LargestFree(m, L.free);
    if k > 0 {
      var f :| f in L.free && Size(m, f) == k;
      BlocksFit(size, k);
    }
  }

  /** The live block `c` has taken in the next block, if that one was free. */
  ghost predicate Grown(m: seq<Word>, L: Layout, m': seq<Word>, L': Layout, c: nat)
    requires Wf(m, L) && IsLive(m, L, c)
  {
    var n := N(m, c);
    && Wf(m', L') && IsLive(m', L', c)
    && N(m', c) == (if n in L.free then N(m, n) else n) && N(m', c) !in L'.free
    && L'.starts == (if n in L.free then L.starts - {n} else L.starts)
    && (forall f :: f in L'.free <==> f in L.free && f != n)
    && P(m', c) == P(m, c)
    && Undisturbed(m, L, m', L', {c})
    && Kept(m, m', 2 * c + 1, 2 * n)
  }

  lemma WfGrow(m: seq<Word>, L: Layout, c: nat, i: nat)
    requires Wf(m, L) && IsLive(m, L, c) && i < |L.free| && L.free[i] == N(m, c)
    ensures var n := N(m, c);
            && InHeap(m, n) && InHeap(m, PF(m, n)) && InHeap(m, NF(m, n)) && NF(m, n) != n && PF(m, n) != n
            && var m1 := Disconnect(m, n);
               && |m1| == |m| && Raw(m1, n) == N(m, n) && N(m1, c) == n && InHeap(m1, N(m1, n)) && c < n < N(m1, n) && c < 0x8000
               && Grown(m, L, Join(m1, c, false), Layout(L.starts - {n}, Without(L.free, i)), c)
  {
    hide Chain, Linked, Distinct, Join, Disconnect, Without, Touches, Undisturbed;
    Around(m, L, c);
    var n := N(m, c);
    assert n in L.free;
    Around(m, L, c);
    Around(m, L, n);
    Around(m, L, N(m, n));
    RingNeighbours(m, L, i);
    WfDisconnect(m, L, i);
    DisconnectEffect(m, n);
    WithoutMembers(L.free, i) by { assert Distinct(L.free); }
    var m1, L1 := Disconnect(m, n), L.(free := Without(L.free, i));
    DisconnectFarAway(m, L, i, c);
    WfJoin(m1, L1, c);
    JoinEffect(m1, c, false);
    var m2, L2 := Join(m1, c, false), L1.(starts := L1.starts - {n});
    assert P(m2, c) == P(m1, c) == P(m, c);
    assert !IsLive(m, L, n) && !IsLive(m2, L2, n);
    UndisturbedTrans(m, L, m1, L1, m2, L2, {n}, {c, n});
    assert {n} + {c, n} == {c} + {n};
    UndisturbedDrop(m, L, m2, L2, {c}, n);
  }

  lemma DisconnectFarAway(m: seq<Word>, L: Layout, i: nat, c: nat)
    requires Wf(m, L) && i < |L.free| && IsLive(m, L, c)
    requires var f := L.free[i]; InHeap(m, f) && InHeap(m, PF(m, f)) && InHeap(m, NF(m, f)) && PF(m, f) != f && NF(m, f) != f
    ensures Same(m, Disconnect(m, L.free[i]), c)
  {
    WfDisconnect(m, L, i);
    assert IsLive(m, L, c);
  }

  /** Block `c` is live no longer; every other live block is as it was. */
  ghost predicate Freed(m: seq<Word>, L: Layout, m': seq<Word>, L': Layout, c: nat)
  {
    IsLive(m, L, c) && !IsLive(m', L', c) && Undisturbed(m, L, m', L', {c})
  }

  lemma FreedAfterGrowing(m: seq<Word>, L: Layout, m1: seq<Word>, L1: Layout, m': seq<Word>, L': Layout, c: nat)
    requires IsLive(m, L, c) && Undisturbed(m, L, m1, L1, {c}) && Freed(m1, L1, m', L', c)
    ensures Freed(m, L, m', L', c)
  {
    UndisturbedTrans(m, L, m1, L1, m', L', {c}, {c});
  }

  lemma LivenessKept(m: seq<Word>, L: Layout, m': seq<Word>, L': Layout, c: nat, x: nat)
    requires Freed(m, L, m', L', c) && x != c
    ensures IsLive(m, L, x) <==> IsLive(m', L', x)
  {
  }

  /** Exceptions that are live neither before nor after need not be exceptions. */
  lemma UndisturbedDrop(m: seq<Word>, L: Layout, m': seq<Word>, L': Layout, A: set<nat>, y: nat)
    requires Undisturbed(m, L, m', L', A + {y}) && !IsLive(m, L, y) && !IsLive(m', L', y)
    ensures Undisturbed(m, L, m', L', A)
  {
  }

  /** Freeing block `c` next to a free block `p` below it. */
  lemma WfAbsorbed(m: seq<Word>, L: Layout, c: nat)
    requires Wf(m, L) && IsLive(m, L, c) && P(m, c) in L.free && N(m, c) !in L.free
    ensures var p := P(m, c);
            && InHeap(m, p) && N(m, p) == c && p < c < N(m, c) && InHeap(m, N(m, c)) && p < 0x8000
            && var m' := Join(m, p, true); var L' := L.(starts := L.starts - {c});
               && Wf(m', L') && !IsLive(m', L', c) && Undisturbed(m, L, m', L', {c})
  {
    var p := P(m, c);
    assert N(m, p) == c;
    WfJoin(m, L, p);
    var m', L' := Join(m, p, true), L.(starts := L.starts - {c});
    assert {p, c} == {c} + {p};
    UndisturbedDrop(m, L, m', L', {c}, p);
  }

  // ------------------------------------------------------------------------- what realloc guarantees

  /** `n` words have been copied from `src` in the old memory to `dst` in the new one. */
  ghost predicate Copied(m: seq<Word>, src: nat, m': seq<Word>, dst: nat, n: int)
  {
    0 <= n && src + n <= |m| && dst + n <= |m'| && m'[dst..dst + n] == m[src..src + n]
  }

  lemma KeptSlice(m: seq<Word>, m': seq<Word>, lo: nat, hi: int, n: nat)
    requires Kept(m, m', lo, hi) && lo + n <= hi && lo + n <= |m|
    ensures m'[lo..lo + n] == m[lo..lo + n]
  {
  }

  lemma CopiedPrefix(m: seq<Word>, src: nat, m': seq<Word>, dst: nat, n: int, k: nat)
    requires Copied(m, src, m', dst, n) && k <= n
    ensures Copied(m, src, m', dst, k)
  {
    assert m'[dst..dst + k] == m'[dst..dst + n][..k];
    assert m[src..src + k] == m[src..src + n][..k];
  }

  lemma CopyLength(m: seq<Word>, src: nat, m': seq<Word>, dst: nat, n: int)
    requires Copied(m, src, m', dst, n)
    ensures 0 <= n
  {
  }

  lemma StillFree(m: seq<Word>, L: Layout, m': seq<Word>, L': Layout, E: set<nat>, x: nat)
    requires Undisturbed(m, L, m', L', E) && !IsLive(m, L, x) && x !in E
    ensures !IsLive(m', L', x)
  {
  }

  lemma CopyKept(m: seq<Word>, src: nat, m1: seq<Word>, dst: nat, n: int, m2: seq<Word>, hi: int)
    requires Copied(m, src, m1, dst, n) && Kept(m1, m2, dst, hi) && dst + n <= hi
    ensures Copied(m, src, m2, dst, n)
  {
    KeptSlice(m1, m2, dst, hi, n);
  }

  /** The payload of a block of `k` blocks, in words. */
  function Words(k: int): int { 2 * k - 1 }

  function Min(a: int, b: int): int { if a < b then a else b }

  /** Live block `c` is now live block `d` of exactly `k` blocks: it carries as much of its payload as fits,
      and every other allocation is untouched. */
  ghost predicate Resized(m: seq<Word>, L: Layout, m': seq<Word>, L': Layout, c: nat, d: nat, k: int)
  {
    && IsLive(m, L, c) && IsLive(m', L', d)
    && InHeap(m, c) && InHeap(m', d) && Size(m', d) == k
    && (d != c ==> !IsLive(m, L, d) && !IsLive(m', L', c))
    && Copied(m, 2 * c + 1, m', 2 * d + 1, Min(Words(Size(m, c)), Words(k)))
    && Undisturbed(m, L, m', L', {c, d})
  }

  /** How a block is resized: where it is, into the next block, down into the previous one, into both, or elsewhere. */
  datatype Way = InPlace | Up | Down | Both | Elsewhere

  /** The first way that gives enough, except that an exact fit above, or a previous block in use, goes before going down. */
  function Choose(prev: nat, size: nat, next: nat, blocks: nat): Way
  {
    if size >= blocks then InPlace
    else if size + next == blocks || (prev == 0 && size + next >= blocks) then Up
    else if prev + size >= blocks then Down
    else if prev + size + next >= blocks then Both
    else Elsewhere
  }

  ghost function FreeBefore(m: seq<Word>, L: Layout, c: nat): nat
    requires Wf(m, L) && IsLive(m, L, c)
  {
    Around(m, L, c);
    if P(m, c) in L.free then c - P(m, c) else 0
  }

  ghost function FreeAfter(m: seq<Word>, L: Layout, c: nat): nat
    requires Wf(m, L) && IsLive(m, L, c)
  {
    Around(m, L, c);
    if N(m, c) in L.free then Around(m, L, N(m, c)); Size(m, N(m, c)) else 0
  }

  lemma EndsWhere(m: seq<Word>, L: Layout, c: nat, blocks: nat)
    requires Wf(m, L) && IsLive(m, L, c)
    ensures WayOf(m, L, c, blocks) in {InPlace, Up} ==> EndsIn(m, L, c, blocks) == c
  {
  }

  /** The way of a resize, and the block it ends in, unless it ends elsewhere. */
  ghost function WayOf(m: seq<Word>, L: Layout, c: nat, blocks: nat): Way
    requires Wf(m, L) && IsLive(m, L, c)
  {
    Around(m, L, c);
    Choose(FreeBefore(m, L, c), Size(m, c), FreeAfter(m, L, c), blocks)
  }

  ghost function EndsIn(m: seq<Word>, L: Layout, c: nat, blocks: nat): nat
    requires Wf(m, L) && IsLive(m, L, c)
  {
    Around(m, L, c);
    if WayOf(m, L, c, blocks) in {Down, Both} then P(m, c) else c
  }

  /** The blocks `c` could occupy together with its free neighbours. */
  ghost function Room(m: seq<Word>, L: Layout, c: nat): int
    requires Wf(m, L) && IsLive(m, L, c)
  {
    Around(m, L, c);
    var n, p := N(m, c), P(m, c);
    Around(m, L, n);
    (if p in L.free then c - p else 0) + Size(m, c) + (if n in L.free then Size(m, n) else 0)
  }

  lemma RoomSum(m: seq<Word>, L: Layout, c: nat)
    requires Wf(m, L) && IsLive(m, L, c)
    ensures InHeap(m, c) && InHeap(m, N(m, c)) && InHeap(m, P(m, c))
    ensures Room(m, L, c) == (if P(m, c) in L.free then c - P(m, c) else 0) + Size(m, c) + (if N(m, c) in L.free then Size(m, N(m, c)) else 0)
  {
    Around(m, L, c);
    Around(m, L, N(m, c));
  }

  ghost predicate Slid(m: seq<Word>, L: Layout, m': seq<Word>, L': Layout, c: nat, p: nat, words: nat)
  {
    && InHeap(m, c) && InHeap(m, p) && InHeap(m', p)
    && !IsLive(m, L, p) && IsLive(m', L', p) && !IsLive(m', L', c)
    && Size(m', p) == Size(m, p) + Size(m, c) && N(m, p) == c
    && Copied(m, 2 * c + 1, m', 2 * p + 1, words)
    && Undisturbed(m, L, m', L', {c, p})
  }

  ghost predicate Trimmed(m: seq<Word>, L: Layout, m': seq<Word>, L': Layout, c: nat, k: nat)
  {
    && IsLive(m', L', c) && InHeap(m', c) && Size(m', c) == k
    && Kept(m, m', 2 * c + 1, 2 * (c + k))
    && Undisturbed(m, L, m', L', {c})
  }

  lemma StillThere(m: seq<Word>, L: Layout, m': seq<Word>, L': Layout, E: set<nat>, x: nat)
    requires Undisturbed(m, L, m', L', E) && IsLive(m, L, x) && x !in E
    ensures IsLive(m', L', x) && Same(m, m', x)
  {
  }

  lemma WfTakePrevious(m: seq<Word>, L: Layout, c: nat, i: nat)
    requires Wf(m, L) && IsLive(m, L, c) && InHeap(m, c) && i < |L.free| && L.free[i] == P(m, c)
    ensures var p := P(m, c);
            && InHeap(m, p) && InHeap(m, PF(m, p)) && InHeap(m, NF(m, p)) && NF(m, p) != p && PF(m, p) != p && N(m, p) == c
            && var m1 := Disconnect(m, p);
               && |m1| == |m| && P(m1, c) == p && N(m1, p) == c && N(m1, c) == N(m, c) && InHeap(m1, N(m1, c)) && p < c < N(m1, c) && p < 0x8000
               && !Flagged(Raw(m1, c))
               && var m2 := Join(m1, p, false); var L2 := Layout(L.starts - {c}, Without(L.free, i));
                  && Wf(m2, L2) && IsLive(m2, L2, p) && N(m2, p) == N(m, c) && !IsLive(m, L, p) && !IsLive(m2, L2, c)
                  && Undisturbed(m, L, m2, L2, {c, p}) && Kept(m, m2, 2 * c + 1, 2 * N(m, c))
  {
    hide Chain, Linked, Distinct, Join, Disconnect, Without, Touches, Undisturbed;
    var p := P(m, c);
    Around(m, L, c);
    Around(m, L, p);
    Around(m, L, N(m, c));
    assert p in L.free;
    RingNeighbours(m, L, i);
    WfDisconnect(m, L, i);
    DisconnectEffect(m, p);
    WithoutMembers(L.free, i) by { assert Distinct(L.free); }
    DisconnectFarAway(m, L, i, c);
    var m1, L1 := Disconnect(m, p), L.(free := Without(L.free, i));
    assert Raw(m1, c) == Raw(m, c);
    WfJoin(m1, L1, p);
    var m2, L2 := Join(m1, p, false), L1.(starts := L1.starts - {c});
    UndisturbedTrans(m, L, m1, L1, m2, L2, {p}, {p, c});
    assert {p} + {p, c} == {c, p};
  }

  /** A copy into the payload of a live block. */
  lemma SlideIsPayloadWrite(m: seq<Word>, L: Layout, m': seq<Word>, d: nat, words: nat)
    requires Wf(m, L) && IsLive(m, L, d) && InHeap(m, d) && |m'| == |m| && 2 * d + 1 + words <= 2 * N(m, d)
    requires forall j {:trigger m'[j]} :: 0 <= j < |m| && !(2 * d + 1 <= j < 2 * d + 1 + words) ==> m'[j] == m[j]
    ensures Wf(m', L) && IsLive(m', L, d) && N(m', d) == N(m, d)
    ensures Undisturbed(m, L, m', L, {d})
  {
    PayloadWrite(m, L, m', d);
  }

  lemma SlidDone(m: seq<Word>, L: Layout, m1: seq<Word>, m2: seq<Word>, L2: Layout, c: nat, p: nat, words: nat)
    requires Wf(m, L) && IsLive(m, L, c) && InHeap(m, c) && p == P(m, c) && InHeap(m, p) && N(m, p) == c && words < 2 * Size(m, c)
    requires InHeap(m1, p) && N(m1, p) == N(m, c) && !IsLive(m, L, p) && !IsLive(m1, L2, c)
    requires Undisturbed(m, L, m1, L2, {c, p}) && Kept(m, m1, 2 * c + 1, 2 * N(m, c))
    requires InHeap(m2, p) && IsLive(m2, L2, p) && N(m2, p) == N(m1, p) && Undisturbed(m1, L2, m2, L2, {p})
    requires Copied(m1, 2 * c + 1, m2, 2 * p + 1, words)
    requires p < c && |m1| == |m2|
    ensures Slid(m, L, m2, L2, c, p, words)
  {
    UndisturbedTrans(m, L, m1, L2, m2, L2, {c, p}, {p});
    assert {c, p} + {p} == {c, p};
    KeptSlice(m, m1, 2 * c + 1, 2 * N(m, c), words);
  }

  lemma TrimDone(m: seq<Word>, L: Layout, m1: seq<Word>, L1: Layout, m2: seq<Word>, L2: Layout, c: nat, k: nat)
    requires Wf(m, L) && IsLive(m, L, c) && InHeap(m, c) && 0 < k < Size(m, c)
    requires IsLive(m1, L1, c) && InHeap(m1, c) && N(m1, c) == c + k && Undisturbed(m, L, m1, L1, {c, c + k}) && Kept(m, m1, 2 * c + 1, 2 * (c + k))
    requires Freed(m1, L1, m2, L2, c + k)
    ensures Trimmed(m, L, m2, L2, c, k)
  {
    UndisturbedTrans(m, L, m1, L1, m2, L2, {c, c + k}, {c + k});
    StillThere(m1, L1, m2, L2, {c + k}, c);
    assert c + k !in L.starts;
    assert {c, c + k} + {c + k} == {c} + {c + k};
    UndisturbedDrop(m, L, m2, L2, {c}, c + k);
    forall j | 0 <= j < |m| && 2 * c + 1 <= j < 2 * (c + k) ensures m2[j] == m[j] { assert m1[j] == m[j]; }
  }

  lemma RelocateTarget(m: seq<Word>, L: Layout, m1: seq<Word>, L1: Layout, c: nat, d: nat, k: nat)
    requires Wf(m, L) && IsLive(m, L, c) && InHeap(m, c) && Wf(m1, L1) && Taken(m, L, m1, L1, d, k)
    ensures c != d && IsLive(m1, L1, c) && InHeap(m1, c) && IsLive(m1, L1, d) && InHeap(m1, d)
    ensures N(m1, d) == d + k && 2 * (d + k) < |m1|
    ensures N(m1, c) == N(m, c) && 2 * N(m1, c) < |m1|
  {
    Around(m1, L1, d);
    StillThere(m, L, m1, L1, {d}, c);
    Around(m1, L1, c);
  }

  lemma RelocateDone(m: seq<Word>, L: Layout, m1: seq<Word>, L1: Layout, m2: seq<Word>, m3: seq<Word>, L3: Layout, c: nat, d: nat, k: nat, words: nat)
    requires Wf(m, L) && IsLive(m, L, c) && InHeap(m, c) && words == Words(Size(m, c)) && Size(m, c) < k
    requires Taken(m, L, m1, L1, d, k)
    requires IsLive(m2, L1, d) && InHeap(m2, d) && N(m2, d) == N(m1, d) && Undisturbed(m1, L1, m2, L1, {d})
    requires Copied(m1, 2 * c + 1, m2, 2 * d + 1, words)
    requires Freed(m2, L1, m3, L3, c)
    ensures Resized(m, L, m3, L3, c, d, k)
  {
    hide Chain, Linked, Distinct, Ring, Undisturbed;
    Around(m, L, c);
    assert d in L.free && c != d;
    StillThere(m, L, m1, L1, {d}, c);
    StillThere(m2, L1, m3, L3, {c}, d);
    UndisturbedTrans(m, L, m1, L1, m2, L1, {d}, {d});
    UndisturbedTrans(m, L, m2, L1, m3, L3, {d} + {d}, {c});
    assert {d} + {d} + {c} == {c, d};
    KeptSlice(m, m1, 2 * c + 1, 2 * N(m, c), words);
    KeptSlice(m2, m3, 2 * d + 1, 2 * N(m2, d), words);
  }

  lemma ResizedInPlace(m: seq<Word>, L: Layout, c: nat)
    requires Wf(m, L) && IsLive(m, L, c) && InHeap(m, c)
    ensures Resized(m, L, m, L, c, c, Size(m, c))
  {
  }

  lemma GrownFacts(m: seq<Word>, L: Layout, m': seq<Word>, L': Layout, c: nat)
    requires Wf(m, L) && IsLive(m, L, c) && InHeap(m, c) && Grown(m, L, m', L', c)
    ensures Wf(m', L') && IsLive(m', L', c) && InHeap(m', c) && P(m', c) == P(m, c) && Size(m, c) <= Size(m', c)
    ensures P(m, c) in L.free ==> P(m', c) in L'.free
  {
    Around(m, L, c);
    Around(m, L, N(m, c));
    Around(m', L', c);
  }

  lemma ResizedByGrowing(m: seq<Word>, L: Layout, m': seq<Word>, L': Layout, c: nat)
    requires Wf(m, L) && IsLive(m, L, c) && InHeap(m, c) && Grown(m, L, m', L', c)
    ensures InHeap(m, N(m, c))
    ensures Resized(m, L, m', L', c, c, Size(m, c) + if N(m, c) in L.free then Size(m, N(m, c)) else 0)
  {
    Around(m, L, c);
    Around(m, L, N(m, c));
    assert {c} == {c, c};
  }

  lemma ResizedBySliding(m: seq<Word>, L: Layout, m': seq<Word>, L': Layout, c: nat, p: nat, words: nat)
    requires IsLive(m, L, c) && Slid(m, L, m', L', c, p, words) && words == Words(Size(m, c)) && Size(m, p) > 0
    ensures Resized(m, L, m', L', c, p, Size(m, p) + Size(m, c))
  {
  }

  lemma ResizedByBoth(m: seq<Word>, L: Layout, m1: seq<Word>, L1: Layout, m2: seq<Word>, L2: Layout, c: nat, p: nat, words: nat)
    requires Wf(m, L) && IsLive(m, L, c) && InHeap(m, c) && Grown(m, L, m1, L1, c) && P(m, c) == p && InHeap(m, p) && p in L.free
    requires Slid(m1, L1, m2, L2, c, p, words) && words == Words(Size(m, c))
    ensures InHeap(m, N(m, c))
    ensures Resized(m, L, m2, L2, c, p, c - p + Size(m, c) + if N(m, c) in L.free then Size(m, N(m, c)) else 0)
  {
    hide Chain, Linked, Distinct, Ring, Undisturbed, Kept;
    Around(m, L, c);
    Around(m, L, N(m, c));
    UndisturbedTrans(m, L, m1, L1, m2, L2, {c}, {c, p});
    assert {c} + {c, p} == {c, p};
    KeptSlice(m, m1, 2 * c + 1, 2 * N(m, c), words);
  }

  lemma ResizedFacts(m: seq<Word>, L: Layout, m': seq<Word>, L': Layout, c: nat, d: nat, k: int)
    requires Resized(m, L, m', L', c, d, k)
    ensures IsLive(m', L', d) && InHeap(m', d) && Size(m', d) == k
  {
  }

  lemma ResizedByTrimming(m: seq<Word>, L: Layout, m1: seq<Word>, L1: Layout, m2: seq<Word>, L2: Layout, c: nat, d: nat, s: int, k: nat)
    requires Resized(m, L, m1, L1, c, d, s) && 0 < k < s && Trimmed(m1, L1, m2, L2, d, k)
    ensures Resized(m, L, m2, L2, c, d, k)
  {
    hide Undisturbed, Copied, Kept;
    UndisturbedTrans(m, L, m1, L1, m2, L2, {c, d}, {d});
    assert {c, d} + {d} == {c, d};
    if d != c { StillFree(m1, L1, m2, L2, {d}, c); }
    CopyLength(m, 2 * c + 1, m1, 2 * d + 1, Min(Words(Size(m, c)), Words(s)));
    var w := Min(Words(Size(m, c)), Words(k));
    CopiedPrefix(m, 2 * c + 1, m1, 2 * d + 1, Min(Words(Size(m, c)), Words(s)), w);
    CopyKept(m, 2 * c + 1, m1, 2 * d + 1, w, m2, 2 * (d + k));
  }

  // ------------------------------------------------------------------------------------- in bytes

  /** The payload as the caller sees it, little-endian. */
  function ByteAt(w: Word, i: nat): int
  {
    if i == 0 then w.next % 256 else if i == 1 then w.next / 256 else if i == 2 then w.prev % 256 else w.prev / 256
  }

  function PayloadByte(m: seq<Word>, b: nat, i: nat): int
    requires 2 * b + 1 + i / 4 < |m|
  {
    ByteAt(m[2 * b + 1 + i / 4], i % 4)
  }

  /** Whatever strategy was used, the caller finds the first min(old capacity, new size) bytes again, in a
      block with room for the new size. */
  lemma ResizedBytes(m: seq<Word>, L: Layout, m': seq<Word>, L': Layout, c: nat, d: nat, size: nat)
    requires Wf(m', L') && size > 0 && Resized(m, L, m', L', c, d, UmmBlocks(size))
    ensures size <= Capacity(Size(m', d))
    ensures forall i: nat :: i < Min(Capacity(Size(m, c)), size) ==>
              && 2 * c + 1 + i / 4 < |m| && 2 * d + 1 + i / 4 < |m'|
              && PayloadByte(m', d, i) == PayloadByte(m, c, i)
  {
    var k := UmmBlocks(size);
    Around(m', L', d);
    BlocksFit(size, k);
    var n := Min(Words(Size(m, c)), Words(k));
    forall i: nat | i < Min(Capacity(Size(m, c)), size)
      ensures 2 * c + 1 + i / 4 < |m| && 2 * d + 1 + i / 4 < |m'| && PayloadByte(m', d, i) == PayloadByte(m, c, i)
    {
      assert i / 4 < n;
      assert m'[2 * d + 1..2 * d + 1 + n][i / 4] == m[2 * c + 1..2 * c + 1 + n][i / 4];
    }
  }

  /** And a block handed out by malloc has room for the request. */
  lemma TakenCapacity(m: seq<Word>, L: Layout, m': seq<Word>, L': Layout, c: nat, size: nat)
    requires Wf(m, L) && Wf(m', L') && size > 0 && Taken(m, L, m', L', c, UmmBlocks(size))
    ensures size <= Capacity(Size(m', c))
  {
    Around(m', L', c);
    BlocksFit(size, UmmBlocks(size));
  }
}
