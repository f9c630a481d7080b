/** The allocator as the kernel runs it: loads and stores of 32-bit words in one block of memory. */
module KernelHeap {
  import opened Bytes
  import opened HeapLayout
  import opened HeapModel
  import opened HeapOps
  import opened HeapInvariant
  import opened HeapBlocks
  import opened HeapRuns

  /** What reading the control block of live block i tells. */
  lemma ReadBlock(h: Heap, i: int)
    requires Inv(h) && 0 <= i < |h.blocks|
    ensures Holds(h.mem, h.blocks[i]) && 0 < h.blocks[i].addr && |h.mem| <= ADDRESS_LIMIT
    ensures 0 <= h.blocks[i].size && h.blocks[i].addr + HEADER + h.blocks[i].size <= |h.mem|
    ensures h.blocks[i].next == (if i + 1 < |h.blocks| then h.blocks[i + 1].addr else 0)
    ensures i + 1 < |h.blocks| ==> 0 < h.blocks[i + 1].addr
    ensures h.blocks[i].prev == 0 <==> i == 0
  {
    hide Bytes.Word;
    WithinTop(h.blocks, |h.mem|, i);
    assert Joined(h.blocks, i, |h.mem|);
    if i + 1 < |h.blocks| {
      WithinTop(h.blocks, |h.mem|, i + 1);
    }
    if i > 0 {
      assert BackLink(h.blocks, i);
    }
  }

  lemma FirstKept(h: Heap, n: int)
    requires Inv(h) && 0 <= n
    ensures |AllocHeap(h, n).blocks| > 0 && AllocHeap(h, n).blocks[0].addr == h.blocks[0].addr
  {
    hide SplitMem, Bytes.StoreTag;
    var k := FirstFit(h.blocks, n, 0);
    if k < |h.blocks| && Splits(h.blocks[k], n) {
      SplitIndex(h.blocks, k, n);
    }
  }

  class Allocator {
    /** Memory up to heap_top, indexed by address. */
    const mem: array<byte>
    /** The address of heap_root. */
    const bottom: int
    /** The blocks reached from heap_root, which the code never keeps. */
    ghost var blocks: seq<Block>

    ghost function State(): Heap
      reads this, mem
    {
      Heap(mem[..], blocks)
    }

    ghost predicate Valid()
      reads this, mem
    {
      Inv(State()) && blocks[0].addr == bottom
    }

    constructor (memory: array<byte>, bottom: int)
      requires 0 < bottom && bottom + HEADER <= memory.Length <= ADDRESS_LIMIT && Blank(memory[..], bottom)
      modifies memory
      ensures Valid() && mem == memory && this.bottom == bottom
      ensures State() == InitHeap(old(memory[..]), bottom)
    {
      hide Bytes.Word, Bytes.Store, Bytes.StoreTag, Inv;
      mem := memory;
      this.bottom := bottom;
      var root := InitBlocks(bottom, memory.Length);
      blocks := root;
      new;
      StoreTagWord(bottom, HEAD);
      StoreTagWord(bottom + 4, FREE);
      StoreWord(bottom + 16, memory.Length - bottom - HEADER);
      StoreWord(bottom + 12, 0);
      StoreWord(bottom + 8, 0);
      InitInv(old(memory[..]), bottom);
    }

    method LoadWord(a: int) returns (w: word)
      requires 0 <= a && a + 4 <= mem.Length
      ensures w == Word(mem[..], a)
    {
      var v := mem[a + 2] as int + 0x100 * (mem[a + 3] as int);
      w := mem[a] as int + 0x100 * (mem[a + 1] as int + 0x100 * v);
    }

    method StoreWord(a: int, v: word)
      requires 0 <= a && a + 4 <= mem.Length
      modifies mem
      ensures mem[..] == Store(old(mem[..]), a, v)
    {
      var v1 := v / 0x100;
      var v2 := v1 / 0x100;
      mem[a] := v % 0x100;
      mem[a + 1] := v1 % 0x100;
      mem[a + 2] := v2 % 0x100;
      mem[a + 3] := v2 / 0x100;
    }

    /** Stores one of the three magic numbers. */
    method StoreTagWord(a: int, t: Tag)
      requires 0 <= a && a + 4 <= mem.Length
      modifies mem
      ensures mem[..] == StoreTag(old(mem[..]), a, t)
    {
      StoreTagIsStore(mem[..], a, t);
      StoreWord(a, TagWord(t));
    }

    /** The word at a is the given magic number. */
    method IsTag(a: int, t: Tag) returns (b: bool)
      requires 0 <= a && a + 4 <= mem.Length
      ensures b <==> HasTag(mem[..], a, t)
    {
      TagIsWord(mem[..], a, t);
      var w := LoadWord(a);
      b := w == TagWord(t);
    }

    method Merge(head: int, tail: int) returns (merged: int)
      requires Mergeable(mem[..], head, tail)
      modifies mem
      ensures mem[..] == MergeMem(old(mem[..]), head, tail)
      ensures merged == if MergeGuards(old(mem[..]), head, tail) then head else 0
      ensures !MergeGuards(old(mem[..]), head, tail) ==> mem[..] == old(mem[..])
    {
      hide Bytes.Word, Bytes.Store, Bytes.Wrap, Bytes.HasTag;
      var headMagic := IsTag(head, HEAD);
      var tailMagic := IsTag(tail, HEAD);
      if !headMagic || !tailMagic {
        return 0;
      }
      var headFree := IsTag(head + 4, FREE);
      var tailFree := IsTag(tail + 4, FREE);
      if !headFree || !tailFree {
        return 0;
      }
      var headNext := LoadWord(head + 8);
      var tailPrev := LoadWord(tail + 12);
      if headNext != tail || tailPrev != head {
        return 0;
      }
      var headSize := LoadWord(head + 16);
      if Wrap(head + HEADER + headSize) != tail {
        return 0;
      }
      var bound := LoadWord(tail + 8);
      if bound != 0 {
        StoreWord(bound + 12, head);
      }
      bound := LoadWord(tail + 8);
      StoreWord(head + 8, bound);
      headSize := LoadWord(head + 16);
      var tailSize := LoadWord(tail + 16);
      StoreWord(head + 16, Wrap(headSize + HEADER + tailSize));
      return head;
    }
  
    /** The search loop of heap_alloc: walks the blocks and stops at the first free one that is large enough. */
    method FindFit(size: word) returns (block: int, ghost k: int)
      requires Valid()
      ensures k == FirstFit(blocks, size, 0)
      ensures block == if k < |blocks| then blocks[k].addr else 0
      ensures k < |blocks| ==> block != 0
    {
      hide Bytes.Word;
      ghost var h := State();
      ReadBlock(h, 0);
      hide Inv;
      k := 0;
      block := bottom;
      while block != 0
        invariant 0 <= k <= |blocks| && block == (if k < |blocks| then blocks[k].addr else 0)
        invariant block == 0 <==> k == |blocks|
        invariant FirstFit(blocks, size, 0) == FirstFit(blocks, size, k)
        decreases |blocks| - k
      {
        ReadBlock(h, k);
        var magic := IsTag(block, HEAD);
        if !magic {
          assert false;
        }
        var free := IsTag(block + 4, FREE);
        var blockSize := LoadWord(block + 16);
        if free && blockSize >= size {
          return;
        }
        block := LoadWord(block + 8);
        k := k + 1;
      }
    }

    /** First fit: take the lowest free block that is large enough, and split it if enough is left over. */
    method Alloc(size: word) returns (buffer: int)
      requires Valid()
      modifies this, mem
      ensures Valid()
      ensures State() == AllocHeap(old(State()), size)
      ensures buffer == AllocResult(old(blocks), size)
    {
      AllocInv(State(), size);
      assert AllocHeap(State(), size).blocks[0].addr == bottom by { FirstKept(State(), size); }
      hide Inv, SplitHeap, StatusHeap, SameOutside, AllocBlocks;
      var block, k := FindFit(size);
      buffer := 0;
      if block != 0 {
        Take(block, size, k);
        buffer := block + HEADER;
      }
    }

    /** Marks the block used, and gives back what is left of it when that is worth a block. */
    method Take(block: int, size: int, ghost k: int)
      requires Valid() && 0 <= size && 0 <= k < |blocks| && blocks[k].addr == block && Fits(blocks[k], size)
      modifies this, mem
      ensures State() == if Splits(old(blocks)[k], size) then SplitHeap(old(State()), k, size)
        else StatusHeap(old(State()), k, true)
    {
      hide Inv, Bytes.Word, Bytes.Store, Bytes.StoreTag, SplitBlocks, WriteHeader;
      ghost var h := State();
      ReadBlock(h, k);
      StoreStatus(h.mem, blocks[k], true);
      StoreTagWord(block + 4, USED);
      var blockSize := LoadWord(block + 16);
      if blockSize > size + SPLIT_SLACK {
        WriteRemainder(block, size);
        blocks := SplitBlocks(blocks, k, size);
      } else {
        blocks := blocks[k := blocks[k].(used := true)];
      }
    }

    /** Cuts the block in two: a new control block after the first size bytes, then the shrunk header. */
    method WriteRemainder(block: int, size: int)
      requires 0 <= size && InRange(mem[..], block) && block + HEADER + size + HEADER <= mem.Length <= ADDRESS_LIMIT
      requires size + SPLIT_SLACK < Size(mem[..], block) < ADDRESS_LIMIT
      modifies mem
      ensures var m, rest := old(mem[..]), block + HEADER + size;
        var remainder := Block(rest, Size(m, block) - size - HEADER, false, Next(m, block), block);
        mem[..] == Store(Store(WriteHeader(m, remainder), block + 16, size), block + 8, rest)
    {
      hide Bytes.Word, Bytes.Store, Bytes.StoreTag;
      var rest := block + HEADER + size;
      ghost var m := mem[..];
      StoreTagWord(rest, HEAD);
      StoreTagWord(rest + 4, FREE);
      WordFrame(m, mem[..], block + 16);
      WordFrame(m, mem[..], block + 8);
      var blockSize := LoadWord(block + 16);
      StoreWord(rest + 16, blockSize - size - HEADER);
      StoreWord(rest + 12, block);
      WordFrame(m, mem[..], block + 8);
      var blockNext := LoadWord(block + 8);
      StoreWord(rest + 8, blockNext);
      StoreWord(block + 16, size);
      StoreWord(block + 8, rest);
    }

    /** Marks the buffer's block free and merges it with its neighbours; anything that is no buffer is ignored. */
    method Free(ptr: int)
      requires Valid() && Releasable(State(), ptr)
      modifies this, mem
      ensures Valid()
      ensures State() == FreeHeap(old(State()), ptr)
    {
      hide Bytes.Word, Bytes.Store, Bytes.StoreTag, Bytes.HasTag, MergeBlocks, MergeMem;
      ghost var h := State();
      FreeInv(h, ptr);
      FreeAcceptsExactly(h, ptr);
      var header := ptr - HEADER;
      var magic := IsTag(header, HEAD);
      if !magic {
        return;
      }
      var used := IsTag(header + 4, USED);
      if !used {
        return;
      }
      ghost var i := OwnerOf(blocks, header, 0);
      StatusInv(h, i, false);
      StoreTagWord(header + 4, FREE);
      blocks := blocks[i := blocks[i].(used := false)];
      MergeAbove(header, i);
      MergeBelow(header, i);
    }

    method MergeAbove(header: int, ghost i: int)
      requires Valid() && 0 <= i < |blocks| && blocks[i].addr == header
      modifies this, mem
      ensures Valid() && State() == MergeUp(old(State()), i) && i < |blocks| && blocks[i].addr == header
    {
      hide Bytes.Word, MergeBlocks, MergeMem, MergeGuards, Inv, SameOutside;
      ghost var h := State();
      MergeUpInv(h, i);
      ReadBlock(h, i);
      var next := LoadWord(header + 8);
      if next != 0 {
        LiveMergeable(h, i);
        MergeIndex(blocks, i);
        var merged := Merge(header, next);
        if merged != 0 {
          blocks := MergeBlocks(blocks, i);
        }
      }
    }

    method MergeBelow(header: int, ghost i: int)
      requires Valid() && 0 <= i < |blocks| && blocks[i].addr == header
      modifies this, mem
      ensures Valid() && State() == if i > 0 then MergeUp(old(State()), i - 1) else old(State())
    {
      hide Bytes.Word, MergeBlocks, MergeMem, MergeGuards, Inv, SameOutside;
      ghost var h := State();
      ReadBlock(h, i);
      var prev := LoadWord(header + 12);
      if prev != 0 {
        MergeUpInv(h, i - 1);
        StaleLinkNeverMerges(h, i);
        var merged := Merge(prev, header);
        if merged != 0 {
          blocks := MergeBlocks(blocks, i - 1);
        }
      }
    }
  }
}
