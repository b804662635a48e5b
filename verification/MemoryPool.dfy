/** `MemoryPoolAllocator` itself, on a memory that it shares with its callers. */
module MemoryPool {
  import opened PoolModel

  /** What the body of `Realloc` relies on. */
  lemma ReallocIsSafe(p: Pool, ptr: nat, newSize: nat, grant: nat)
    requires Inv(p) && ptr in p.blocks && Granted(p, Align(newSize), grant)
    ensures Inv(Realloc(p, ptr, newSize, grant).0) && KeepsUserChunk(p, Realloc(p, ptr, newSize, grant).0)
    ensures ptr + Align(p.blocks[ptr].size) <= |p.memory| && ptr != 0
    ensures var (q, buffer) := Malloc(p, newSize, grant);
      buffer != 0 && Align(p.blocks[ptr].size) < Align(newSize) ==> buffer + Align(p.blocks[ptr].size) <= |p.memory|
  {
    hide Inv, Align, Granted, Malloc, Realloc;
    ReallocResizes(p, ptr, newSize, grant);
    StepKeepsUserChunk(p, ReallocCall(ptr, newSize, grant));
    RoomHolds(p, ptr);
    InsideMemory(p, ptr);
    MallocKeepsInv(p, newSize, grant);
    var (q, buffer) := Malloc(p, newSize, grant);
    if buffer != 0 {
      InsideMemory(q, buffer);
    }
  }

  class MemoryPoolAllocator {
    const memory: array<Byte>
    var chunks: seq<Chunk>
    const chunkCapacity: nat
    const userBuffer: nat
    ghost var blocks: map<nat, Block>

    ghost function Abstract(): Pool
      reads this, memory
    {
      Pool(memory[..], chunks, chunkCapacity, userBuffer != 0, blocks)
    }

    /** The user's buffer is known by its address. */
    ghost predicate Valid()
      reads this, memory
    {
      Inv(Abstract()) && (userBuffer != 0 ==> chunks[0].base == userBuffer)
    }

    constructor (memory: array<Byte>, chunkSize: nat)
      ensures Valid() && this.memory == memory && Abstract() == Fresh(memory[..], chunkSize)
    {
      this.memory, chunks, chunkCapacity, userBuffer, blocks := memory, [], chunkSize, 0, map[];
    }

    constructor OnBuffer(memory: array<Byte>, buffer: nat, size: nat, chunkSize: nat)
      requires buffer != 0 && size > HEADER && buffer + size <= memory.Length
      ensures Valid() && this.memory == memory && Abstract() == WithBuffer(memory[..], buffer, size, chunkSize)
    {
      this.memory, chunkCapacity, userBuffer, blocks := memory, chunkSize, buffer, map[];
      chunks := [Chunk(buffer, size - HEADER, 0)];
    }

    /** The total of the chunks' capacities, head first. */
    method Capacity() returns (capacity: nat)
      requires Valid()
      ensures capacity == SumOfCapacities(chunks)
    {
      capacity := 0;
      var i := |chunks|;
      assert chunks[..i] == chunks;
      while i > 0
        invariant 0 <= i <= |chunks| && capacity + SumOfCapacities(chunks[..i]) == SumOfCapacities(chunks)
      {
        assert chunks[..i][..i - 1] == chunks[..i - 1];
        i := i - 1;
        capacity := capacity + chunks[i].capacity;
      }
    }

    /** The total of the chunks' sizes, which never exceeds their capacity. */
    method Size() returns (size: nat)
      requires Valid()
      ensures size == SumOfSizes(chunks) <= SumOfCapacities(chunks)
    {
      size := 0;
      var i := |chunks|;
      assert chunks[..i] == chunks;
      while i > 0
        invariant 0 <= i <= |chunks| && size + SumOfSizes(chunks[..i]) == SumOfSizes(chunks)
      {
        assert chunks[..i][..i - 1] == chunks[..i - 1];
        i := i - 1;
        size := size + chunks[i].size;
      }
      SizeAtMostCapacity(Abstract(), chunks);
    }

    method AddChunk(capacity: nat, grant: nat) returns (added: bool)
      modifies `chunks
      ensures added <==> grant != 0
      ensures Abstract() == if grant != 0 then PoolModel.AddChunk(old(Abstract()), capacity, grant) else old(Abstract())
    {
      added := grant != 0;
      if added {
        chunks := chunks + [Chunk(grant, capacity, 0)];
      }
    }

    method Malloc(size: nat, grant: nat) returns (buffer: nat)
      requires Valid() && Granted(Abstract(), Align(size), grant)
      modifies `chunks, `blocks
      ensures Valid() && (Abstract(), buffer) == PoolModel.Malloc(old(Abstract()), size, grant)
    {
      hide Align, Granted, ChunksValid, BlocksValid;
      if size == 0 {
        return 0;
      }
      ghost var before := Abstract();
      MallocKeepsInv(before, size, grant);
      var aligned := Align(size);
      if chunks == [] || chunks[|chunks| - 1].size + aligned > chunks[|chunks| - 1].capacity {
        var added := AddChunk(if chunkCapacity > aligned then chunkCapacity else aligned, grant);
        if !added {
          return 0;
        }
      }
      var last := |chunks| - 1;
      buffer := Top(chunks[last]);
      blocks := blocks[buffer := Block(size, aligned, last)];
      chunks := chunks[last := chunks[last].(size := chunks[last].size + aligned)];
    }

    method Realloc(originalPtr: nat, originalSize: nat, newSize: nat, grant: nat) returns (buffer: nat)
      requires Valid() && Granted(Abstract(), Align(newSize), grant)
      requires originalPtr != 0 ==> originalPtr in blocks && originalSize == blocks[originalPtr].size
      modifies `chunks, `blocks, memory
      ensures Valid() && (Abstract(), buffer) == PoolModel.Realloc(old(Abstract()), originalPtr, newSize, grant)
    {
      hide Align, Granted, ChunksValid, BlocksValid, Resized, Copy, Gives;
      if originalPtr == 0 {
        buffer := Malloc(newSize, grant);
        return;
      }
      if newSize == 0 {
        return 0;
      }
      ghost var before := Abstract();
      ReallocIsSafe(before, originalPtr, newSize, grant);
      var o, n := Align(originalSize), Align(newSize);
      if o >= n {
        blocks := blocks[originalPtr := blocks[originalPtr].(size := newSize)];
        return originalPtr;
      }
      var last := |chunks| - 1;
      if last >= 0 && originalPtr == Top(chunks[last]) - o {
        var increment := n - o;
        if chunks[last].size + increment <= chunks[last].capacity {
          chunks := chunks[last := chunks[last].(size := chunks[last].size + increment)];
          var room := blocks[originalPtr].room + increment;
          blocks := blocks[originalPtr := blocks[originalPtr].(size := newSize, room := room)];
          return originalPtr;
        }
      }
      buffer := Malloc(newSize, grant);
      if buffer != 0 {
        MemCopy(buffer, originalPtr, o);
      }
    }

    /** `memcpy`. */
    method MemCopy(target: nat, source: nat, n: nat)
      requires target + n <= memory.Length && source + n <= memory.Length
      modifies memory
      ensures memory[..] == Copy(old(memory[..]), target, source, n)
    {
      forall i | target <= i < target + n {
        memory[i] := memory[source + (i - target)];
      }
    }

    /** All chunks but the user's are freed, from the head on. */
    method Clear()
      requires Valid()
      modifies `chunks, `blocks
      ensures Valid() && Abstract() == PoolModel.Clear(old(Abstract()))
    {
      ghost var before := Abstract();
      ClearKeepsInv(before);
      while chunks != [] && chunks[|chunks| - 1].base != userBuffer
        invariant chunks == before.chunks[..|chunks|] && |chunks| <= |before.chunks|
        invariant userBuffer != 0 ==> |chunks| > 0
        decreases |chunks|
      {
        chunks := chunks[..|chunks| - 1];
      }
      blocks := map[];
      if chunks != [] && chunks[|chunks| - 1].base == userBuffer {
        chunks := chunks[..|chunks| - 1] + [chunks[|chunks| - 1].(size := 0)];
      }
    }
  }
}
