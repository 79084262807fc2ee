// The slab allocator of mempool.c. Addresses are integers, 0 is NULL; memory is
// one map for the words in the chunks and one for each header field it changes.
module MemPool {
  import opened PoolShape

  class MemPool {
    const chunkSize: nat
    var word: map<int, int>
    var blockNext: map<int, int>
    var freeCount: map<int, nat>

    var freeList: int
    var blocks: int
    var currentBlock: int
    var nextFree: int
    var remaining: nat

    ghost var live: set<int>
    ghost var free: seq<int>
    ghost var blockList: seq<int>

    ghost predicate Shape()
      reads this
    {
      && 0 < chunkSize <= BLOCK - HEADER && chunkSize % 8 == 0
      && Linked(word, freeList, free)
      && Linked(blockNext, blocks, blockList)
      && Headers(freeCount, blockList)
      && ChunksOk(chunkSize, freeCount, Bump(currentBlock, nextFree, remaining), live, free)
    }

    // No block is held that has nothing but free chunks.
    ghost predicate Valid()
      reads this
    {
      Shape() && AllBelow(freeCount, Capacity(chunkSize))
    }

    constructor (userSize: nat)
      requires 0 < userSize && ChunkSize(userSize) <= BLOCK - HEADER
      ensures Valid() && userSize <= chunkSize < userSize + 8
      ensures live == {} && free == [] && freeCount == map[]
    {
      chunkSize := ChunkSize(userSize);
      word, blockNext, freeCount := map[], map[], map[];
      freeList, blocks, currentBlock, nextFree, remaining := 0, 0, 0, 0, 0;
      live, free, blockList := {}, [], [];
    }

    // mem: the aligned block that the system gives, or 0 if it has none.
    method AddNewBlock(mem: int) returns (ok: bool)
      requires Valid() && remaining == 0
      requires mem != 0 ==> BlockAddress(mem) && mem !in freeCount
      modifies this`blockNext, this`freeCount, this`blocks, this`currentBlock, this`nextFree, this`remaining
      modifies this`blockList
      ensures Valid() && ok == (mem != 0)
      ensures if ok
              then remaining == Capacity(chunkSize) && currentBlock == mem && freeCount == old(freeCount)[mem := 0]
              else remaining == 0 && freeCount == old(freeCount)
      // The uncarved chunks begin behind the header and reach to the end.
      ensures ok ==> nextFree == mem + 40 && nextFree + remaining * chunkSize <= mem + 65536 < nextFree + (remaining + 1) * chunkSize
    {
      hide ChunksOk, Linked, Capacity, BlockAddress, Headers, AllBelow;
      if mem == 0 { return false; }
      NewBump(chunkSize, mem);
      CapacityPositive(chunkSize);
      OneMoreBelow(freeCount, Capacity(chunkSize), mem);
      NewBlock(chunkSize, freeCount, Bump(currentBlock, nextFree, remaining), live, free, mem);
      OneMoreHeader(freeCount, blockList, mem);
      Push(blockNext, blocks, blockList, mem);
      blockNext := blockNext[mem := blocks];
      freeCount := freeCount[mem := 0];
      blocks, blockList := mem, [mem] + blockList;
      currentBlock, nextFree, remaining := mem, mem + HEADER, Capacity(chunkSize);
      return true;
    }

    method Alloc(mem: int) returns (p: int)
      requires Valid()
      requires mem != 0 ==> BlockAddress(mem) && mem !in freeCount
      modifies this
      ensures Valid()
      ensures p == 0 <==> old(free) == [] && old(remaining) == 0 && mem == 0
      ensures p == 0 ==> live == old(live) && free == old(free) && freeCount == old(freeCount)
      // It fails only if every place of every block where a chunk fits has a live one.
      ensures p == 0 ==> forall b, k: nat :: b in freeCount && HEADER + (k + 1) * chunkSize <= BLOCK ==> Chunk(b, chunkSize, k) in live
      ensures p != 0 ==> p !in old(live) && live == old(live) + {p}
      ensures old(free) != [] ==> p == old(free)[0] && free == old(free)[1..] && freeCount.Keys == old(freeCount.Keys)
      ensures old(free) == [] ==> free == []
      ensures old(free) == [] && p != 0 ==>
        freeCount == if old(remaining) > 0 then old(freeCount) else old(freeCount)[mem := 0]
    {
      if freeList != 0 {
        p := TakeFromFreeList();
      } else {
        if remaining == 0 {
          var ok := AddNewBlock(mem);
          if !ok {
            AllTaken();
            return 0;
          }
          CapacityPositive(chunkSize);
        }
        p := TakeNext();
      }
    }

    lemma {:induction false} AllTaken()
      requires Valid() && free == [] && remaining == 0
      ensures forall b, k: nat :: b in freeCount && HEADER + (k + 1) * chunkSize <= BLOCK ==> Chunk(b, chunkSize, k) in live
    {
      forall b, k: nat | b in freeCount && HEADER + (k + 1) * chunkSize <= BLOCK ensures Chunk(b, chunkSize, k) in live {
        NoPlaceLeft(chunkSize, freeCount, Bump(currentBlock, nextFree, remaining), live, b, k);
      }
    }

    method TakeFromFreeList() returns (p: int)
      requires Valid() && freeList != 0
      modifies this`freeList, this`freeCount, this`live, this`free
      ensures Valid() && p > 0 && p == old(free)[0] && free == old(free)[1..]
      ensures p !in old(live) && live == old(live) + {p}
      ensures freeCount.Keys == old(freeCount.Keys)
    {
      hide ChunksOk, Linked, Capacity, BlockOf, BlockAddress;
      Pop(word, freeList, free);
      TakeFree(chunkSize, freeCount, Bump(currentBlock, nextFree, remaining), live, free);
      p := freeList;
      freeList := word[p];
      var block := BlockOf(p);
      freeCount := freeCount[block := freeCount[block] - 1];
      live, free := live + {p}, free[1..];
    }

    method TakeNext() returns (p: int)
      requires Valid() && remaining > 0
      modifies this`nextFree, this`remaining, this`live
      ensures Valid() && p > 0 && p !in old(live) && live == old(live) + {p}
    {
      hide ChunksOk, Linked, Capacity, BlockOf, BlockAddress;
      Carve(chunkSize, freeCount, Bump(currentBlock, nextFree, remaining), live, free);
      p := nextFree;
      nextFree := nextFree + chunkSize;
      remaining := remaining - 1;
      live := live + {p};
    }

    // The owner of a chunk writes a word anywhere in it.
    method Write(p: int, a: int, v: int)
      requires Valid() && p in live && p <= a < p + chunkSize
      modifies this`word
      ensures Valid() && word == old(word)[a := v]
    {
      if a in free { LiveChunksAreApart(chunkSize, freeCount, Bump(currentBlock, nextFree, remaining), live, free, p, a); }
      Elsewhere(word, freeList, free, a, v);
      word := word[a := v];
    }

    method FreeChunk(ptr: int)
      requires Valid() && ptr in live
      modifies this
      ensures Valid() && live == old(live) - {ptr}
      // The block goes back exactly when it is carved to the end and holds no
      // other live chunk.
      ensures BlockOf(ptr) !in freeCount <==>
        LiveIn(live, BlockOf(ptr)) == {} && (BlockOf(ptr) == old(currentBlock) ==> old(remaining) == 0)
      ensures freeCount.Keys - {BlockOf(ptr)} == old(freeCount.Keys) - {BlockOf(ptr)}
      ensures free == if BlockOf(ptr) in freeCount then [ptr] + old(free) else Without([ptr] + old(free), BlockOf(ptr))
    {
      hide Linked, Headers, BumpOk;
      var block := BlockOf(ptr);
      PutBack(ptr);
      FullyFree(chunkSize, freeCount, Bump(currentBlock, nextFree, remaining), live, free, block);
      if freeCount[block] == Capacity(chunkSize) {
        ReleaseBlock(block);
      }
    }

    method PutBack(ptr: int)
      requires Valid() && ptr in live
      modifies this`word, this`freeList, this`freeCount, this`live, this`free
      ensures Shape() && live == old(live) - {ptr} && free == [ptr] + old(free)
      ensures BlockOf(ptr) in old(freeCount)
      ensures freeCount == old(freeCount)[BlockOf(ptr) := old(freeCount)[BlockOf(ptr)] + 1]
    {
      hide ChunksOk, Linked, Capacity, BlockOf, BlockAddress;
      GiveBack(chunkSize, freeCount, Bump(currentBlock, nextFree, remaining), live, free, ptr);
      LiveChunksAreApart(chunkSize, freeCount, Bump(currentBlock, nextFree, remaining), live, free, ptr, ptr);
      Push(word, freeList, free, ptr);
      word := word[ptr := freeList];
      freeList := ptr;
      var block := BlockOf(ptr);
      freeCount := freeCount[block := freeCount[block] + 1];
      live, free := live - {ptr}, [ptr] + free;
    }

    method ReleaseBlock(block: int)
      requires Shape() && block in freeCount && freeCount[block] == Capacity(chunkSize)
      requires forall b <- freeCount :: b != block ==> freeCount[b] < Capacity(chunkSize)
      modifies this`word, this`freeList, this`free, this`blockNext, this`blocks, this`blockList, this`freeCount
      modifies this`currentBlock, this`nextFree, this`remaining
      ensures Valid() && freeCount == old(freeCount) - {block} && free == Without(old(free), block)
    {
      hide ChunksOk, Linked, Capacity, BlockOf, BlockAddress;
      ghost var bump := Bump(currentBlock, nextFree, remaining);
      Release(chunkSize, freeCount, bump, live, free, block);
      UnlinkBlock(block);
      RemoveFromFreeList(block);
      if currentBlock == block {
        currentBlock, nextFree, remaining := 0, 0, 0;
      }
      Forget(block);
    }

    // free(): the header is gone with its block.
    method Forget(block: int)
      requires block !in blockList && Linked(blockNext, blocks, blockList)
      modifies this`blockNext, this`freeCount
      ensures Linked(blockNext, blocks, blockList)
      ensures freeCount == old(freeCount) - {block}
    {
      blockNext := blockNext - {block};
      freeCount := freeCount - {block};
    }

    // *pp == block is found by following the links, and overwritten.
    method UnlinkBlock(block: int)
      requires Linked(blockNext, blocks, blockList) && block in blockList
      modifies this`blockNext, this`blocks, this`blockList
      ensures Linked(blockNext, blocks, blockList)
      ensures forall b :: b in blockList <==> b in old(blockList) && b != block
    {
      ghost var s := blockList;
      ghost var i := 0;
      var prev, curr := 0, blocks;
      while curr != block
        invariant 0 <= i <= |s| && curr == At(s, i) && prev == if i == 0 then 0 else s[i - 1]
        invariant block in s[i..]
        decreases |s| - i
      {
        prev, curr := curr, blockNext[curr];
        i := i + 1;
      }
      Unlink(blockNext, blocks, s, i);
      RemovedHas(s, i);
      hide Linked, Removed, Distinct;
      if prev == 0 {
        blocks := blockNext[curr];
      } else {
        blockNext := blockNext[prev := blockNext[curr]];
      }
      blockList := Removed(s, i);
    }

    method RemoveFromFreeList(block: int)
      requires Linked(word, freeList, free)
      modifies this`word, this`freeList, this`free
      ensures Linked(word, freeList, free) && free == Without(old(free), block)
    {
      hide Linked, BlockOf, Without;
      ghost var all := Without(free, block);
      ghost var kept: seq<int>, rest := [], free;
      EndIs(word, freeList, free, 0);
      var prev, curr := 0, freeList;
      while curr != 0
        invariant Linked(word, freeList, free) && free == kept + rest
        invariant all == kept + Without(rest, block)
        invariant curr == At(rest, 0) && prev == Last(kept) && (curr == 0 ==> rest == [])
        decreases |rest|
      {
        WithoutFirst(rest, block, kept);
        prev, curr, kept := FilterOne(block, prev, curr, kept, rest);
        rest := rest[1..];
      }
      WithoutNothing(block);
    }

    method FilterOne(block: int, prev: int, curr: int, ghost kept: seq<int>, ghost rest: seq<int>)
      returns (newPrev: int, next: int, ghost newKept: seq<int>)
      requires Linked(word, freeList, free) && free == kept + rest
      requires rest != [] && curr == rest[0] && prev == Last(kept)
      modifies this`word, this`freeList, this`free
      ensures Linked(word, freeList, free) && free == newKept + rest[1..]
      ensures newKept == kept + if BlockOf(curr) == block then [] else [curr]
      ensures next == At(rest[1..], 0) && newPrev == Last(newKept)
      ensures next == 0 ==> rest[1..] == []
    {
      SplitAt(word, freeList, kept, rest);
      hide Linked, BlockOf;
      newPrev, newKept := prev, kept;
      if BlockOf(curr) == block {
        RemovedMiddle(kept, rest);
        next := Skip(prev, curr, |kept|);
      } else {
        next, newPrev, newKept := word[curr], curr, kept + [curr];
      }
    }

    method Skip(prev: int, curr: int, ghost k: nat) returns (next: int)
      requires Linked(word, freeList, free) && k < |free| && curr == free[k]
      requires prev == if k == 0 then 0 else free[k - 1]
      modifies this`word, this`freeList, this`free
      ensures Linked(word, freeList, free) && free == Removed(old(free), k)
      ensures next == At(free, k)
    {
      Unlink(word, freeList, free, k);
      if prev == 0 {
        freeList := word[curr];
      } else {
        word := word[prev := word[curr]];
      }
      free := Removed(free, k);
      return if prev == 0 then freeList else word[prev];
    }

    // A trim looks for blocks that are all free. There never is one: the last
    // chunk to come back has already released its block.
    method Trim() returns (found: seq<int>)
      requires Valid()
      ensures found == []
    {
      found := [];
      var block := blocks;
      ghost var i := 0;
      while block != 0
        invariant 0 <= i <= |blockList| && block == At(blockList, i) && found == []
        decreases |blockList| - i
      {
        assert block in blockList;
        var next := blockNext[block];
        if freeCount[block] == Capacity(chunkSize) {
          found := found + [block];
        }
        block := next;
        i := i + 1;
      }
    }
  }

  lemma {:induction false} CapacityPositive(cs: nat)
    requires 0 < cs <= BLOCK - HEADER
    ensures Capacity(cs) > 0
  {
    CapacityFills(cs);
  }

  // --------------------------------------------------------- slab classes

  const MAX_SLAB: nat := 8192
  const Classes: seq<nat> := [32, 64, 128, 256, 512, 1024, 2048, 4096, 8192]

  // The class of each request size: the smallest that is large enough.
  method SizeMap() returns (m: array<nat>)
    ensures fresh(m) && m.Length == MAX_SLAB + 1
    ensures forall s :: 1 <= s <= MAX_SLAB ==> m[s] < |Classes| && Classes[m[s]] >= s
    ensures forall s, j :: 1 <= s <= MAX_SLAB && 0 <= j < m[s] && j < |Classes| ==> Classes[j] < s
    // No more than twice as large as is asked for, from 16 bytes on.
    ensures forall s :: 1 <= s <= MAX_SLAB ==> Classes[m[s]] == 32 || Classes[m[s]] < 2 * s
  {
    m := new nat[MAX_SLAB + 1](i => 0);
    var size := 1;
    while size <= MAX_SLAB
      invariant 1 <= size <= MAX_SLAB + 1
      invariant forall s :: 1 <= s < size ==> m[s] < |Classes| && Classes[m[s]] >= s
      invariant forall s, j :: 1 <= s < size && 0 <= j < m[s] && j < |Classes| ==> Classes[j] < s
      invariant forall s :: 1 <= s < size ==> Classes[m[s]] == 32 || Classes[m[s]] < 2 * s
    {
      var i := 0;
      while Classes[i] < size
        invariant 0 <= i < |Classes| && forall j :: 0 <= j < i ==> Classes[j] < size
        decreases |Classes| - i
      {
        i := i + 1;
      }
      assert i > 0 ==> Classes[i] == 2 * Classes[i - 1];
      m[size] := i;
      size := size + 1;
    }
  }
}
