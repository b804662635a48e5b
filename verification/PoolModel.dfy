/**
  `MemoryPoolAllocator` of rapidjson's allocators.h on flat memory, 64 bit: addresses are numbers,
  0 is the null pointer, and sizes do not overflow.  The chunk list is kept oldest first, so the
  head of the source's list is the last element.
 */
module PoolModel {
  type Byte = b: nat | b < 0x100

  /** `RAPIDJSON_ALIGN(sizeof(ChunkHeader))`. */
  const HEADER: nat := 24

  function Align(size: nat): (aligned: nat)
    ensures aligned % 8 == 0 && size <= aligned < size + 8
  {
    (size + 7) / 8 * 8
  }

  datatype Chunk = Chunk(base: nat, capacity: nat, size: nat)

  /** What the caller got: the size asked for last, the bytes set aside for it, and the chunk they are in. */
  datatype Block = Block(size: nat, room: nat, home: nat)

  /** `user` says that the first chunk is the buffer supplied by the user; `blocks` is history. */
  datatype Pool = Pool(memory: seq<Byte>, chunks: seq<Chunk>, chunkCapacity: nat, user: bool, blocks: map<nat, Block>)

  function Head(p: Pool): Chunk
    requires p.chunks != []
  {
    p.chunks[|p.chunks| - 1]
  }

  function Start(c: Chunk): nat {
    c.base + HEADER
  }

  function Top(c: Chunk): nat {
    Start(c) + c.size
  }

  function End(c: Chunk): nat {
    Start(c) + c.capacity
  }

  // ---------------------------------------------------------------- operations

  /** `AddChunk`; `grant` is what the base allocator returns. */
  function AddChunk(p: Pool, capacity: nat, grant: nat): Pool {
    p.(chunks := p.chunks + [Chunk(grant, capacity, 0)])
  }

  predicate NeedsChunk(p: Pool, aligned: nat) {
    p.chunks == [] || Head(p).size + aligned > Head(p).capacity
  }

  function NewCapacity(p: Pool, aligned: nat): nat {
    if p.chunkCapacity > aligned then p.chunkCapacity else aligned
  }

  /** The head chunk serves a block of the size asked for. */
  function Serve(p: Pool, size: nat): (Pool, nat)
    requires p.chunks != []
  {
    var last, head := |p.chunks| - 1, Head(p);
    (p.(chunks := p.chunks[last := head.(size := head.size + Align(size))],
        blocks := p.blocks[Top(head) := Block(size, Align(size), last)]),
     Top(head))
  }

  function Malloc(p: Pool, size: nat, grant: nat): (Pool, nat) {
    if size == 0 then (p, 0)
    else if NeedsChunk(p, Align(size)) then
      if grant == 0 then (p, 0) else Serve(AddChunk(p, NewCapacity(p, Align(size)), grant), size)
    else Serve(p, size)
  }

  /** `memcpy`. */
  function Copy(memory: seq<Byte>, target: nat, source: nat, n: nat): seq<Byte> {
    if target + n <= |memory| && source + n <= |memory| then
      memory[..target] + memory[source..source + n] + memory[target + n..]
    else memory
  }

  predicate IsLast(p: Pool, ptr: nat, originalSize: nat) {
    p.chunks != [] && ptr == Top(Head(p)) - Align(originalSize)
  }

  function Grow(p: Pool, ptr: nat, newSize: nat, increment: nat): Pool
    requires p.chunks != [] && ptr in p.blocks
  {
    var last := |p.chunks| - 1;
    p.(chunks := p.chunks[last := Head(p).(size := Head(p).size + increment)],
       blocks := p.blocks[ptr := p.blocks[ptr].(size := newSize, room := p.blocks[ptr].room + increment)])
  }

  /** `Realloc` with the block's own size as the original size, which is what it asks of its callers. */
  function Realloc(p: Pool, ptr: nat, newSize: nat, grant: nat): (Pool, nat)
    requires ptr == 0 || ptr in p.blocks
  {
    if ptr == 0 then Malloc(p, newSize, grant)
    else if newSize == 0 then (p, 0)
    else
      var original, aligned := Align(p.blocks[ptr].size), Align(newSize);
      if original >= aligned then (p.(blocks := p.blocks[ptr := p.blocks[ptr].(size := newSize)]), ptr)
      else if IsLast(p, ptr, p.blocks[ptr].size) && Head(p).size + (aligned - original) <= Head(p).capacity then
        (Grow(p, ptr, newSize, aligned - original), ptr)
      else
        var (q, buffer) := Malloc(p, newSize, grant);
        (if buffer == 0 then q else q.(memory := Copy(q.memory, buffer, ptr, original)), buffer)
  }

  /** `Clear`: the chunks go back to the base allocator, but for the user's, which is emptied. */
  function Clear(p: Pool): Pool {
    p.(chunks := if p.user && p.chunks != [] then [p.chunks[0].(size := 0)] else [], blocks := map[])
  }

  // ---------------------------------------------------------------- the invariant

  /** The base allocator returns null, or aligned memory that no chunk uses. */
  predicate Granted(p: Pool, aligned: nat, grant: nat) {
    grant == 0 || (grant % 8 == 0 && Free(p, grant, grant + HEADER + NewCapacity(p, aligned)))
  }

  predicate Free(p: Pool, from: nat, end: nat) {
    end <= |p.memory| && forall i :: 0 <= i < |p.chunks| ==> end <= p.chunks[i].base || End(p.chunks[i]) <= from
  }

  predicate ChunkValid(p: Pool, c: Chunk) {
    c.base > 0 && c.size % 8 == 0 && c.size <= c.capacity && End(c) <= |p.memory|
  }

  predicate Apart(c: Chunk, d: Chunk) {
    End(c) <= d.base || End(d) <= c.base
  }

  predicate ChunksValid(p: Pool) {
    && (forall i :: 0 <= i < |p.chunks| ==> ChunkValid(p, p.chunks[i]))
    && (forall i :: 0 <= i < |p.chunks| && !(p.user && i == 0) ==> p.chunks[i].base % 8 == 0)
    && (forall i, j :: 0 <= i < j < |p.chunks| ==> Apart(p.chunks[i], p.chunks[j]))
  }

  /** A block is aligned in its chunk, holds what was asked for, and is in the used part of the chunk. */
  predicate BlockValid(p: Pool, ptr: nat, b: Block) {
    && b.room % 8 == 0 && 0 < b.size <= b.room
    && b.home < |p.chunks|
    && Start(p.chunks[b.home]) <= ptr && ptr + b.room <= Top(p.chunks[b.home])
    && (ptr - p.chunks[b.home].base) % 8 == 0
  }

  predicate BlocksValid(p: Pool) {
    && (forall ptr :: ptr in p.blocks ==> BlockValid(p, ptr, p.blocks[ptr]))
    && (forall x, y :: x in p.blocks && y in p.blocks && x < y ==> x + p.blocks[x].room <= y)
  }

  predicate Inv(p: Pool) {
    ChunksValid(p) && BlocksValid(p) && (p.user ==> p.chunks != [])
  }

  lemma AddChunkKeepsInv(p: Pool, aligned: nat, grant: nat)
    requires Inv(p) && grant != 0 && Granted(p, aligned, grant)
    ensures Inv(AddChunk(p, NewCapacity(p, aligned), grant))
  {
    var q := AddChunk(p, NewCapacity(p, aligned), grant);
    forall ptr | ptr in q.blocks ensures BlockValid(q, ptr, q.blocks[ptr]) {
      assert BlockValid(p, ptr, p.blocks[ptr]);
    }
  }

  /** A block below the top of its chunk does not reach the part that is served next. */
  lemma BelowTop(p: Pool, ptr: nat)
    requires Inv(p) && p.chunks != [] && ptr in p.blocks
    ensures ptr + p.blocks[ptr].room <= Top(Head(p)) || End(Head(p)) <= ptr
  {
    var b := p.blocks[ptr];
    assert BlockValid(p, ptr, b) && ChunkValid(p, p.chunks[b.home]) && ChunkValid(p, Head(p));
    if b.home != |p.chunks| - 1 {
      assert Apart(p.chunks[b.home], Head(p));
    }
  }

  lemma ServeKeepsChunks(p: Pool, size: nat)
    requires ChunksValid(p) && p.chunks != [] && Head(p).size + Align(size) <= Head(p).capacity
    ensures ChunksValid(Serve(p, size).0)
  {
    hide Align;
    var q := Serve(p, size).0;
    assert ChunkValid(p, Head(p));
    forall i | 0 <= i < |q.chunks| ensures ChunkValid(q, q.chunks[i]) {
      assert ChunkValid(p, p.chunks[i]);
    }
    forall i, j | 0 <= i < j < |q.chunks| ensures Apart(q.chunks[i], q.chunks[j]) {
      assert Apart(p.chunks[i], p.chunks[j]);
    }
  }

  lemma ServeIsNew(p: Pool, size: nat)
    requires Inv(p) && p.chunks != [] && size > 0 && Head(p).size + Align(size) <= Head(p).capacity
    ensures Top(Head(p)) !in p.blocks && Top(Head(p)) != 0
  {
    var ptr := Top(Head(p));
    assert ChunkValid(p, Head(p)) && (ptr in p.blocks ==> BlockValid(p, ptr, p.blocks[ptr]));
    if ptr in p.blocks {
      BelowTop(p, ptr);
    }
  }

  lemma HeadValid(p: Pool)
    requires ChunksValid(p) && p.chunks != []
    ensures ChunkValid(p, Head(p))
  {
  }

  lemma ServeKeepsBlock(p: Pool, size: nat, x: nat)
    requires Inv(p) && p.chunks != [] && size > 0 && Head(p).size + Align(size) <= Head(p).capacity
    requires x == Top(Head(p)) || x in p.blocks
    ensures var q := Serve(p, size).0; BlockValid(q, x, q.blocks[x])
  {
    hide Align, ChunksValid;
    assert ChunkValid(p, Head(p)) by {
      HeadValid(p);
    }
    if x in p.blocks {
      ServeIsNew(p, size);
      assert BlockValid(p, x, p.blocks[x]);
    }
  }

  lemma ServeKeepsBlocks(p: Pool, size: nat)
    requires Inv(p) && p.chunks != [] && size > 0 && Head(p).size + Align(size) <= Head(p).capacity
    ensures BlocksValid(Serve(p, size).0)
  {
    hide Align, ChunksValid;
    var (q, ptr) := Serve(p, size);
    forall x | x in q.blocks ensures BlockValid(q, x, q.blocks[x]) {
      hide Inv, BlockValid;
      ServeKeepsBlock(p, size, x);
    }
    ServeIsNew(p, size);
    forall x, y | x in q.blocks && y in q.blocks && x < y ensures x + q.blocks[x].room <= y {
      if x == ptr {
        BelowTop(p, y);
        assert BlockValid(p, y, p.blocks[y]);
      } else if y == ptr {
        BelowTop(p, x);
      }
    }
  }

  /** What `Malloc` gives is a new block; nothing else changes. */
  predicate Gives(p: Pool, size: nat, q: Pool, ptr: nat) {
    && q.memory == p.memory && q.user == p.user && q.chunkCapacity == p.chunkCapacity
    && if ptr == 0 then q == p
       else ptr !in p.blocks && |q.chunks| > 0 && q.blocks == p.blocks[ptr := Block(size, Align(size), |q.chunks| - 1)]
  }

  lemma ServeKeepsInv(p: Pool, size: nat)
    requires Inv(p) && p.chunks != [] && size > 0 && Head(p).size + Align(size) <= Head(p).capacity
    ensures var (q, ptr) := Serve(p, size); Inv(q) && Gives(p, size, q, ptr) && ptr != 0
  {
    hide ChunksValid, BlocksValid, Align;
    ServeKeepsChunks(p, size);
    ServeKeepsBlocks(p, size);
    ServeIsNew(p, size);
  }

  lemma MallocKeepsInv(p: Pool, size: nat, grant: nat)
    requires Inv(p) && Granted(p, Align(size), grant)
    ensures var (q, ptr) := Malloc(p, size, grant); Inv(q) && Gives(p, size, q, ptr)
  {
    hide Inv, Serve;
    if size != 0 && NeedsChunk(p, Align(size)) {
      if grant != 0 {
        AddChunkKeepsInv(p, Align(size), grant);
        ServeKeepsInv(AddChunk(p, NewCapacity(p, Align(size)), grant), size);
      }
    } else if size != 0 {
      ServeKeepsInv(p, size);
    }
  }

  // ---------------------------------------------------------------- Realloc

  /** A block that ends the used part of the head chunk and has no room to spare. */
  predicate EndsHead(p: Pool, ptr: nat, b: Block) {
    && p.chunks != [] && b.home == |p.chunks| - 1
    && b.room == Align(b.size) && ptr + b.room == Top(Head(p))
  }

  /**
    The test on addresses finds exactly that block, and is not taken in by one that ends where the head
    chunk begins.
   */
  lemma LastIsLast(p: Pool, ptr: nat)
    requires Inv(p) && ptr in p.blocks
    ensures IsLast(p, ptr, p.blocks[ptr].size) <==> EndsHead(p, ptr, p.blocks[ptr])
  {
    var b := p.blocks[ptr];
    assert BlockValid(p, ptr, b) && ChunkValid(p, p.chunks[b.home]) && ChunkValid(p, Head(p));
    assert b.home != |p.chunks| - 1 ==> Apart(p.chunks[b.home], Head(p));
    RoomIsAligned(b);
  }

  lemma RoomIsAligned(b: Block)
    requires b.room % 8 == 0 && b.size <= b.room
    ensures Align(b.size) <= b.room
  {
  }

  lemma GrowKeepsChunks(p: Pool, ptr: nat, newSize: nat, increment: nat)
    requires ChunksValid(p) && p.chunks != [] && ptr in p.blocks && increment % 8 == 0
    requires Head(p).size + increment <= Head(p).capacity
    ensures ChunksValid(Grow(p, ptr, newSize, increment))
  {
    var q := Grow(p, ptr, newSize, increment);
    assert ChunkValid(p, Head(p));
    forall i | 0 <= i < |q.chunks| ensures ChunkValid(q, q.chunks[i]) {
      assert ChunkValid(p, p.chunks[i]);
    }
    forall i, j | 0 <= i < j < |q.chunks| ensures Apart(q.chunks[i], q.chunks[j]) {
      assert Apart(p.chunks[i], p.chunks[j]);
    }
  }

  lemma GrowKeepsBlock(p: Pool, ptr: nat, newSize: nat, increment: nat, x: nat)
    requires p.chunks != [] && ptr in p.blocks && x in p.blocks && BlockValid(p, x, p.blocks[x]) && increment % 8 == 0
    requires p.blocks[ptr].home == |p.chunks| - 1 && ptr + p.blocks[ptr].room == Top(Head(p))
    requires 0 < newSize <= p.blocks[ptr].room + increment
    ensures var q := Grow(p, ptr, newSize, increment); BlockValid(q, x, q.blocks[x])
  {
  }

  lemma GrowKeepsBlocks(p: Pool, ptr: nat, newSize: nat, increment: nat)
    requires Inv(p) && p.chunks != [] && ptr in p.blocks && increment % 8 == 0
    requires Head(p).size + increment <= Head(p).capacity
    requires p.blocks[ptr].home == |p.chunks| - 1 && ptr + p.blocks[ptr].room == Top(Head(p))
    requires 0 < newSize <= p.blocks[ptr].room + increment
    ensures BlocksValid(Grow(p, ptr, newSize, increment))
  {
    hide ChunksValid, BlockValid;
    var q := Grow(p, ptr, newSize, increment);
    forall x | x in q.blocks ensures BlockValid(q, x, q.blocks[x]) {
      assert BlockValid(p, x, p.blocks[x]);
      GrowKeepsBlock(p, ptr, newSize, increment, x);
    }
    forall x, y | x in q.blocks && y in q.blocks && x < y ensures x + q.blocks[x].room <= y {
      if x == ptr {
        AfterHead(p, ptr, y);
      } else {
        assert x + p.blocks[x].room <= y;
      }
    }
  }

  /** What is after the last block of the head chunk is after the chunk. */
  lemma AfterHead(p: Pool, ptr: nat, y: nat)
    requires Inv(p) && p.chunks != [] && ptr in p.blocks && y in p.blocks && ptr < y
    requires ptr + p.blocks[ptr].room == Top(Head(p))
    ensures End(Head(p)) <= y
  {
    BelowTop(p, y);
    assert BlockValid(p, y, p.blocks[y]);
    assert ptr + p.blocks[ptr].room <= y;
  }

  lemma Difference(a: nat, b: nat)
    requires a % 8 == 0 && b % 8 == 0
    ensures (a - b) % 8 == 0
  {
  }

  lemma RoomIsMultiple(p: Pool, ptr: nat, newSize: nat)
    requires Inv(p) && ptr in p.blocks
    ensures p.blocks[ptr].room % 8 == 0 && (Align(newSize) - p.blocks[ptr].room) % 8 == 0
  {
    hide Align, ChunksValid;
    assert BlockValid(p, ptr, p.blocks[ptr]);
    hide Inv, BlocksValid, BlockValid;
    Difference(Align(newSize), p.blocks[ptr].room);
  }

  lemma GrowKeepsInv(p: Pool, ptr: nat, newSize: nat)
    requires Inv(p) && ptr in p.blocks && IsLast(p, ptr, p.blocks[ptr].size) && newSize > p.blocks[ptr].room
    requires Head(p).size + (Align(newSize) - p.blocks[ptr].room) <= Head(p).capacity
    ensures Inv(Grow(p, ptr, newSize, Align(newSize) - p.blocks[ptr].room))
  {
    hide Align, ChunksValid, BlocksValid, IsLast;
    LastIsLast(p, ptr);
    RoomIsMultiple(p, ptr, newSize);
    var increment: nat := Align(newSize) - p.blocks[ptr].room;
    GrowKeepsChunks(p, ptr, newSize, increment);
    GrowKeepsBlocks(p, ptr, newSize, increment);
  }

  // ---------------------------------------------------------------- contents

  /** The bytes of a block that its owner asked for. */
  function Contents(p: Pool, ptr: nat): seq<Byte>
    requires Inv(p) && ptr in p.blocks
  {
    assert BlockValid(p, ptr, p.blocks[ptr]) && ChunkValid(p, p.chunks[p.blocks[ptr].home]);
    p.memory[ptr..ptr + p.blocks[ptr].size]
  }

  lemma InsideMemory(p: Pool, ptr: nat)
    requires Inv(p) && ptr in p.blocks
    ensures ptr + p.blocks[ptr].size <= ptr + p.blocks[ptr].room <= |p.memory| && ptr != 0 && p.blocks[ptr].size > 0
  {
    assert BlockValid(p, ptr, p.blocks[ptr]) && ChunkValid(p, p.chunks[p.blocks[ptr].home]);
  }

  lemma DisjointBlocks(p: Pool, x: nat, y: nat)
    requires Inv(p) && x in p.blocks && y in p.blocks && x != y
    ensures x + p.blocks[x].room <= y || y + p.blocks[y].room <= x
  {
  }

  lemma MemoryDoesNotMatter(p: Pool, memory: seq<Byte>)
    requires Inv(p) && |memory| == |p.memory|
    ensures Inv(p.(memory := memory))
  {
    var q := p.(memory := memory);
    assert forall i :: 0 <= i < |q.chunks| ==> ChunkValid(p, q.chunks[i]) && ChunkValid(q, q.chunks[i]);
    assert forall ptr :: ptr in q.blocks ==> BlockValid(p, ptr, q.blocks[ptr]) && BlockValid(q, ptr, q.blocks[ptr]);
  }

  lemma {:induction false} CopyWrites(memory: seq<Byte>, target: nat, source: nat, n: nat, from: nat, end: nat)
    requires target + n <= |memory| && source + n <= |memory| && from <= end <= |memory|
    ensures |Copy(memory, target, source, n)| == |memory|
    ensures end <= target || target + n <= from ==> Copy(memory, target, source, n)[from..end] == memory[from..end]
    ensures target == from && end <= target + n
        ==> Copy(memory, target, source, n)[from..end] == memory[source..source + (end - from)]
  {
    var copy := Copy(memory, target, source, n);
    assert forall i :: 0 <= i < |copy| && !(target <= i < target + n) ==> copy[i] == memory[i];
    assert forall i :: target <= i < target + n ==> copy[i] == memory[source + (i - target)];
    if end <= target || target + n <= from {
      assert forall i :: from <= i < end ==> copy[i] == memory[i];
    } else if target == from && end <= target + n {
      assert forall i :: 0 <= i < end - from ==> copy[from..end][i] == memory[source..source + (end - from)][i];
    }
  }

  function Min(a: nat, b: nat): nat {
    if a < b then a else b
  }

  /** The block at `x` is as it was, and holds what it held. */
  predicate Undisturbed(p: Pool, q: Pool, x: nat)
    requires Inv(p) && Inv(q) && x in p.blocks
  {
    x in q.blocks && q.blocks[x] == p.blocks[x] && Contents(q, x) == Contents(p, x)
  }

  /** What `Realloc` promises: the block, moved or not, keeps its first bytes, and no other block is disturbed. */
  predicate Resized(p: Pool, ptr: nat, newSize: nat, q: Pool, r: nat)
    requires Inv(p) && ptr in p.blocks
  {
    && Inv(q)
    && (r == 0 ==> q == p)
    && (r != 0 ==>
          && r in q.blocks && q.blocks[r].size == newSize && (r == ptr || r !in p.blocks)
          && var n := Min(p.blocks[ptr].size, newSize); Contents(q, r)[..n] == Contents(p, ptr)[..n])
    && (forall x :: x in p.blocks && (x != ptr || r != ptr) ==> Undisturbed(p, q, x))
  }

  lemma RoomHolds(p: Pool, ptr: nat)
    requires Inv(p) && ptr in p.blocks
    ensures Align(p.blocks[ptr].size) <= p.blocks[ptr].room
  {
    assert BlockValid(p, ptr, p.blocks[ptr]);
    RoomIsAligned(p.blocks[ptr]);
  }

  /** A block resized where it is: its bytes, and the other blocks, are as they were. */
  lemma ResizedInPlace(p: Pool, ptr: nat, newSize: nat, q: Pool)
    requires Inv(p) && ptr in p.blocks && Inv(q) && q.memory == p.memory && newSize > 0
    requires ptr in q.blocks && q.blocks == p.blocks[ptr := q.blocks[ptr]] && q.blocks[ptr].size == newSize
    ensures Resized(p, ptr, newSize, q, ptr)
  {
    InsideMemory(p, ptr);
    InsideMemory(q, ptr);
    hide Inv;
    var n := Min(p.blocks[ptr].size, newSize);
    assert Contents(q, ptr)[..n] == p.memory[ptr..ptr + n] == Contents(p, ptr)[..n];
    forall x | x in p.blocks && x != ptr ensures Undisturbed(p, q, x) {
      assert x in q.blocks && q.blocks[x] == p.blocks[x];
    }
  }

  lemma ShrinkKeepsInv(p: Pool, ptr: nat, newSize: nat)
    requires Inv(p) && ptr in p.blocks && 0 < newSize <= p.blocks[ptr].room
    ensures Inv(p.(blocks := p.blocks[ptr := p.blocks[ptr].(size := newSize)]))
  {
    hide Apart;
    var q := p.(blocks := p.blocks[ptr := p.blocks[ptr].(size := newSize)]);
    forall x | x in q.blocks ensures BlockValid(q, x, q.blocks[x]) {
      assert BlockValid(p, x, p.blocks[x]);
    }
    forall i | 0 <= i < |q.chunks| ensures ChunkValid(q, q.chunks[i]) {
      assert ChunkValid(p, p.chunks[i]);
    }
  }

  lemma ShrinkResizes(p: Pool, ptr: nat, newSize: nat)
    requires Inv(p) && ptr in p.blocks && 0 < newSize <= p.blocks[ptr].room
    ensures Resized(p, ptr, newSize, p.(blocks := p.blocks[ptr := p.blocks[ptr].(size := newSize)]), ptr)
  {
    hide Inv, Resized;
    ShrinkKeepsInv(p, ptr, newSize);
    ResizedInPlace(p, ptr, newSize, p.(blocks := p.blocks[ptr := p.blocks[ptr].(size := newSize)]));
  }

  lemma GrowResizes(p: Pool, ptr: nat, newSize: nat)
    requires Inv(p) && ptr in p.blocks && IsLast(p, ptr, p.blocks[ptr].size) && newSize > p.blocks[ptr].room
    requires Head(p).size + (Align(newSize) - p.blocks[ptr].room) <= Head(p).capacity
    ensures Resized(p, ptr, newSize, Grow(p, ptr, newSize, Align(newSize) - p.blocks[ptr].room), ptr)
  {
    hide Inv, Resized, Align;
    GrowKeepsInv(p, ptr, newSize);
    ResizedInPlace(p, ptr, newSize, Grow(p, ptr, newSize, Align(newSize) - p.blocks[ptr].room));
  }

  /** Copying into a new block leaves the others alone. */
  lemma CopyDisturbsNone(p: Pool, q: Pool, buffer: nat, source: nat, n: nat, x: nat)
    requires Inv(p) && Inv(q) && q.memory == p.memory && x in p.blocks && x in q.blocks && q.blocks[x] == p.blocks[x]
    requires buffer in q.blocks && x != buffer && n <= q.blocks[buffer].room && source + n <= |q.memory|
    ensures var r := q.(memory := Copy(q.memory, buffer, source, n)); Inv(r) && Undisturbed(p, r, x)
  {
    InsideMemory(q, buffer);
    InsideMemory(p, x);
    DisjointBlocks(q, x, buffer);
    hide Inv, Copy;
    CopyWrites(q.memory, buffer, source, n, x, x + p.blocks[x].size);
    MemoryDoesNotMatter(q, Copy(q.memory, buffer, source, n));
  }

  lemma MoveResizes(p: Pool, ptr: nat, newSize: nat, q: Pool, buffer: nat)
    requires Inv(p) && ptr in p.blocks && Inv(q) && Gives(p, newSize, q, buffer) && buffer != 0
    requires Align(p.blocks[ptr].size) < Align(newSize)
    ensures Resized(p, ptr, newSize, q.(memory := Copy(q.memory, buffer, ptr, Align(p.blocks[ptr].size))), buffer)
  {
    hide Inv, Copy, Undisturbed;
    var size, n := p.blocks[ptr].size, Align(p.blocks[ptr].size);
    var r := q.(memory := Copy(q.memory, buffer, ptr, n));
    InsideMemory(q, buffer);
    InsideMemory(p, ptr);
    RoomHolds(p, ptr);
    assert size < newSize by {
      AlignIsMonotonic(size, newSize);
    }
    hide Align;
    CopyWrites(q.memory, buffer, ptr, n, buffer, buffer + size);
    CopyDisturbsNone(p, q, buffer, ptr, n, ptr);
    forall x | x in p.blocks ensures Undisturbed(p, r, x) {
      CopyDisturbsNone(p, q, buffer, ptr, n, x);
    }
    InsideMemory(r, buffer);
    assert Contents(r, buffer)[..size] == r.memory[buffer..buffer + size];
    assert Contents(p, ptr)[..size] == p.memory[ptr..ptr + size];
  }

  lemma AlignIsMonotonic(a: nat, b: nat)
    ensures Align(a) < Align(b) ==> a < b
  {
  }

  lemma ReallocResizes(p: Pool, ptr: nat, newSize: nat, grant: nat)
    requires Inv(p) && ptr in p.blocks && Granted(p, Align(newSize), grant)
    ensures var (q, r) := Realloc(p, ptr, newSize, grant); Resized(p, ptr, newSize, q, r)
  {
    hide Inv, Copy, Malloc, Granted, Resized, Grow;
    InsideMemory(p, ptr);
    var original, aligned := Align(p.blocks[ptr].size), Align(newSize);
    RoomHolds(p, ptr);
    if newSize == 0 {
      NothingResized(p, ptr);
    } else if original >= aligned {
      ShrinkResizes(p, ptr, newSize);
    } else if IsLast(p, ptr, p.blocks[ptr].size) && Head(p).size + (aligned - original) <= Head(p).capacity {
      LastIsLast(p, ptr);
      GrowResizes(p, ptr, newSize);
    } else {
      MallocKeepsInv(p, newSize, grant);
      var (q, buffer) := Malloc(p, newSize, grant);
      if buffer == 0 {
        NothingResized(p, ptr);
      } else {
        MoveResizes(p, ptr, newSize, q, buffer);
      }
    }
  }

  lemma NothingResized(p: Pool, ptr: nat)
    requires Inv(p) && ptr in p.blocks
    ensures Resized(p, ptr, 0, p, 0) && forall newSize :: Resized(p, ptr, newSize, p, 0)
  {
    assert forall x :: x in p.blocks ==> Undisturbed(p, p, x);
  }

  // ---------------------------------------------------------------- what is served

  /** The bytes left in the chunk that serves. */
  function Left(p: Pool): int {
    if p.chunks == [] then 0 else p.chunks[|p.chunks| - 1].capacity - p.chunks[|p.chunks| - 1].size
  }

  /** The smallest multiple of 8 that holds the size. */
  predicate IsRounded(size: nat, aligned: nat) {
    aligned % 8 == 0 && size <= aligned < size + 8
  }

  lemma RoundedIsAligned(size: nat, aligned: nat)
    requires IsRounded(size, aligned)
    ensures aligned == Align(size)
  {
  }

  /**
    `Malloc` of some bytes gives null if and only if the chunk that serves, if there is one, has too few
    bytes left and the base allocator has none either.  Otherwise it gives what is left of that chunk
    from its front, or the front of a new chunk at the address granted, of the usual capacity or more.
   */
  lemma MallocServes(p: Pool, size: nat, aligned: nat, grant: nat)
    requires size > 0 && IsRounded(size, aligned)
    ensures var (q, ptr) := Malloc(p, size, grant); var last := |p.chunks| - 1;
      if aligned <= Left(p) then
        && ptr == p.chunks[last].base + 24 + p.chunks[last].size
        && q.chunks == p.chunks[last := p.chunks[last].(size := p.chunks[last].size + aligned)]
      else if grant != 0 then
        && ptr == grant + 24
        && q.chunks
            == p.chunks + [Chunk(grant, if p.chunkCapacity > aligned then p.chunkCapacity else aligned, aligned)]
      else ptr == 0 && q == p
    ensures Malloc(p, size, grant).1 == 0 <==> aligned > Left(p) && grant == 0
  {
    RoundedIsAligned(size, aligned);
    hide Align;
    if aligned > Left(p) && grant != 0 {
      var a := AddChunk(p, NewCapacity(p, aligned), grant);
      assert a.chunks[..|p.chunks|] == p.chunks && Head(a) == Chunk(grant, NewCapacity(p, aligned), 0);
    }
  }

  lemma NothingServed(p: Pool, grant: nat)
    ensures Malloc(p, 0, grant) == (p, 0)
  {
  }

  /**
    `Realloc` of a block: it stays where it is if the rounded sizes allow it, or if it ends the chunk that
    serves and there is room behind it; otherwise it moves to what `Malloc` gives, and the answer is null
    if and only if that is null, or no bytes are asked for.
   */
  lemma ReallocServes(p: Pool, ptr: nat, newSize: nat, grant: nat, was: nat, aligned: nat)
    requires Inv(p) && ptr in p.blocks && Granted(p, Align(newSize), grant)
    requires IsRounded(p.blocks[ptr].size, was) && IsRounded(newSize, aligned)
    ensures var (q, r) := Realloc(p, ptr, newSize, grant); var last := |p.chunks| - 1;
      if newSize == 0 then r == 0 && q == p
      else if aligned <= was then r == ptr && q.chunks == p.chunks
      else if EndsHead(p, ptr, p.blocks[ptr]) && aligned - was <= Left(p) then
        r == ptr && q.chunks == p.chunks[last := p.chunks[last].(size := p.chunks[last].size + (aligned - was))]
      else r == Malloc(p, newSize, grant).1 && r != ptr && q.chunks == Malloc(p, newSize, grant).0.chunks
    ensures Realloc(p, ptr, newSize, grant).1 == 0 <==>
      newSize == 0 || (aligned > was && !(EndsHead(p, ptr, p.blocks[ptr]) && aligned - was <= Left(p))
                       && aligned > Left(p) && grant == 0)
  {
    hide Inv, Align, Malloc, Granted, Copy, EndsHead, IsLast, Realloc, IsRounded, Grow, Left;
    RoundedIsAligned(p.blocks[ptr].size, was);
    RoundedIsAligned(newSize, aligned);
    InsideMemory(p, ptr);
    LastIsLast(p, ptr);
    MallocGoesElsewhere(p, ptr, newSize, grant);
    ReallocCases(p, ptr, newSize, grant);
    if newSize > 0 {
      MallocServes(p, newSize, aligned, grant);
    }
  }

  lemma MallocGoesElsewhere(p: Pool, ptr: nat, newSize: nat, grant: nat)
    requires Inv(p) && ptr in p.blocks && Granted(p, Align(newSize), grant)
    ensures Malloc(p, newSize, grant).1 != ptr
  {
    hide Malloc;
    InsideMemory(p, ptr);
    MallocKeepsInv(p, newSize, grant);
    hide Inv, Align, Granted;
  }

  /** The branches of `Realloc`. */
  lemma ReallocCases(p: Pool, ptr: nat, newSize: nat, grant: nat)
    requires ptr in p.blocks && ptr != 0
    ensures var (q, r) := Realloc(p, ptr, newSize, grant);
      var was, aligned, last := Align(p.blocks[ptr].size), Align(newSize), |p.chunks| - 1;
      if newSize == 0 then r == 0 && q == p
      else if aligned <= was then r == ptr && q.chunks == p.chunks
      else if IsLast(p, ptr, p.blocks[ptr].size) && aligned - was <= Left(p) then
        r == ptr && q.chunks == p.chunks[last := p.chunks[last].(size := p.chunks[last].size + (aligned - was))]
      else r == Malloc(p, newSize, grant).1 && q.chunks == Malloc(p, newSize, grant).0.chunks
  {
    hide Align, Malloc, Copy;
  }

  // ---------------------------------------------------------------- every run

  /** What callers do: the calls, with what the base allocator answers, and a write to a byte of a block. */
  datatype Request =
    | MallocCall(size: nat, grant: nat)
    | ReallocCall(ptr: nat, newSize: nat, grant: nat)
    | Write(ptr: nat, offset: nat, byte: Byte)
    | ClearCall

  predicate Legal(p: Pool, r: Request) {
    match r
    case MallocCall(size, grant) => Granted(p, Align(size), grant)
    case ReallocCall(ptr, newSize, grant) => (ptr == 0 || ptr in p.blocks) && Granted(p, Align(newSize), grant)
    case Write(ptr, offset, _) => ptr in p.blocks && offset < p.blocks[ptr].size && ptr + offset < |p.memory|
    case ClearCall => true
  }

  function Step(p: Pool, r: Request): Pool
    requires Legal(p, r)
  {
    match r
    case MallocCall(size, grant) => Malloc(p, size, grant).0
    case ReallocCall(ptr, newSize, grant) => Realloc(p, ptr, newSize, grant).0
    case Write(ptr, offset, byte) => p.(memory := p.memory[ptr + offset := byte])
    case ClearCall => Clear(p)
  }

  predicate AllLegal(p: Pool, requests: seq<Request>)
    decreases |requests|
  {
    requests == [] || (Legal(p, requests[0]) && AllLegal(Step(p, requests[0]), requests[1..]))
  }

  function RunAll(p: Pool, requests: seq<Request>): Pool
    requires AllLegal(p, requests)
    decreases |requests|
  {
    if requests == [] then p else RunAll(Step(p, requests[0]), requests[1..])
  }

  lemma ClearKeepsInv(p: Pool)
    requires Inv(p)
    ensures Inv(Clear(p))
  {
    var q := Clear(p);
    if p.user {
      assert ChunkValid(p, p.chunks[0]);
    }
  }

  lemma StepKeepsInv(p: Pool, r: Request)
    requires Inv(p) && Legal(p, r)
    ensures Inv(Step(p, r))
  {
    hide Inv, Malloc, Realloc, Clear, Granted;
    match r
    case MallocCall(size, grant) => MallocKeepsInv(p, size, grant);
    case ReallocCall(ptr, newSize, grant) =>
      if ptr == 0 {
        MallocKeepsInv(p, newSize, grant);
        NullIsMalloc(p, newSize, grant);
      } else {
        ReallocResizes(p, ptr, newSize, grant);
      }
    case Write(ptr, offset, byte) => MemoryDoesNotMatter(p, p.memory[ptr + offset := byte]);
    case ClearCall => ClearKeepsInv(p);
  }

  lemma NullIsMalloc(p: Pool, newSize: nat, grant: nat)
    ensures Realloc(p, 0, newSize, grant) == Malloc(p, newSize, grant)
  {
  }

  lemma {:induction false} RunKeepsInv(p: Pool, requests: seq<Request>)
    requires Inv(p) && AllLegal(p, requests)
    ensures Inv(RunAll(p, requests))
    decreases |requests|
  {
    hide Inv, Step, Legal;
    if requests != [] {
      StepKeepsInv(p, requests[0]);
      RunKeepsInv(Step(p, requests[0]), requests[1..]);
    }
  }

  /**
    A block lies inside its chunk and is aligned exactly if its chunk is, which only the user's buffer
    can fail to be.
   */
  predicate Safe(q: Pool, x: nat)
    requires x in q.blocks
  {
    var b := q.blocks[x];
    && x != 0 && b.size <= b.room && b.home < |q.chunks|
    && (x % 8 == 0 <==> q.chunks[b.home].base % 8 == 0)
    && (q.chunks[b.home].base % 8 != 0 ==> q.user && b.home == 0)
    && Start(q.chunks[b.home]) <= x && x + b.room <= End(q.chunks[b.home]) <= |q.memory|
  }

  lemma BlockIsSafe(q: Pool, x: nat)
    requires Inv(q) && x in q.blocks
    ensures Safe(q, x)
  {
    assert BlockValid(q, x, q.blocks[x]) && ChunkValid(q, q.chunks[q.blocks[x].home]);
    SameAlignment(x, q.chunks[q.blocks[x].home].base);
  }

  /** Pool safety: whatever was called, every block is safe, and no two overlap. */
  lemma BlocksAreSafe(p: Pool, requests: seq<Request>)
    requires Inv(p) && AllLegal(p, requests)
    ensures var q := RunAll(p, requests);
      && (forall x :: x in q.blocks ==> Safe(q, x))
      && (forall x, y :: x in q.blocks && y in q.blocks && x < y ==> x + q.blocks[x].room <= y)
  {
    hide AllLegal, RunAll, Safe, ChunksValid, BlockValid;
    RunKeepsInv(p, requests);
    var q := RunAll(p, requests);
    forall x | x in q.blocks ensures Safe(q, x) {
      BlockIsSafe(q, x);
    }
  }

  /** The user's buffer at address 4: the first block of the pool is at 28, which is no multiple of 8. */
  lemma UserBlockMisaligned(memory: seq<Byte>) returns (p: Pool, requests: seq<Request>)
    requires |memory| >= 104
    ensures p == WithBuffer(memory, 4, 100, 1024) && Inv(p) && AllLegal(p, requests)
    ensures 28 in RunAll(p, requests).blocks && 28 % 8 != 0
  {
    p := WithBuffer(memory, 4, 100, 1024);
    InitiallyInv(memory, 4, 100, 1024);
    requests := [MallocCall(8, 0)];
    assert AllLegal(Step(p, requests[0]), requests[1..]);
    assert RunAll(p, requests) == Step(p, requests[0]);
    assert Malloc(p, 8, 0) == Serve(p, 8) && Top(Head(p)) == 28;
  }

  lemma SameAlignment(x: nat, base: nat)
    requires base <= x && (x - base) % 8 == 0
    ensures x % 8 == 0 <==> base % 8 == 0
  {
    assert x == base + (x - base);
  }

  /** Requests that do not concern a block. */
  predicate Elsewhere(r: Request, x: nat) {
    match r
    case MallocCall(_, _) => true
    case ReallocCall(ptr, _, _) => ptr != x
    case Write(ptr, _, _) => ptr != x
    case ClearCall => false
  }

  lemma GivesUndisturbed(p: Pool, size: nat, q: Pool, ptr: nat, x: nat)
    requires Inv(p) && Inv(q) && Gives(p, size, q, ptr) && x in p.blocks
    ensures Undisturbed(p, q, x)
  {
    hide Inv, Align;
  }

  lemma ResizedUndisturbed(p: Pool, ptr: nat, newSize: nat, q: Pool, r: nat, x: nat)
    requires Inv(p) && ptr in p.blocks && Resized(p, ptr, newSize, q, r) && x in p.blocks && x != ptr
    ensures Inv(q) && Undisturbed(p, q, x)
  {
    hide Inv, Undisturbed;
  }

  lemma StepDisturbsNone(p: Pool, r: Request, x: nat)
    requires Inv(p) && Legal(p, r) && Elsewhere(r, x) && x in p.blocks
    ensures Inv(Step(p, r)) && Undisturbed(p, Step(p, r), x)
  {
    hide Inv, Malloc, Realloc, Granted, Gives, Resized, Undisturbed;
    match r
    case MallocCall(size, grant) =>
      MallocKeepsInv(p, size, grant);
      GivesUndisturbed(p, size, Malloc(p, size, grant).0, Malloc(p, size, grant).1, x);
    case ReallocCall(ptr, newSize, grant) =>
      if ptr == 0 {
        MallocKeepsInv(p, newSize, grant);
        NullIsMalloc(p, newSize, grant);
        GivesUndisturbed(p, newSize, Malloc(p, newSize, grant).0, Malloc(p, newSize, grant).1, x);
      } else {
        ReallocResizes(p, ptr, newSize, grant);
        var (q, s) := Realloc(p, ptr, newSize, grant);
        ResizedUndisturbed(p, ptr, newSize, q, s, x);
      }
    case Write(ptr, offset, byte) => WriteDisturbsNone(p, ptr, offset, byte, x);
  }

  lemma WriteDisturbsNone(p: Pool, ptr: nat, offset: nat, byte: Byte, x: nat)
    requires Inv(p) && ptr in p.blocks && offset < p.blocks[ptr].size && ptr + offset < |p.memory| && x in p.blocks
    requires x != ptr
    ensures var q := p.(memory := p.memory[ptr + offset := byte]); Inv(q) && Undisturbed(p, q, x)
  {
    MemoryDoesNotMatter(p, p.memory[ptr + offset := byte]);
    DisjointBlocks(p, x, ptr);
    InsideMemory(p, x);
    InsideMemory(p, ptr);
    hide Inv;
    assert p.memory[ptr + offset := byte][x..x + p.blocks[x].size] == p.memory[x..x + p.blocks[x].size];
  }

  /** A block keeps its place and its bytes through anything that is done elsewhere. */
  lemma {:induction false} RunDisturbsNone(p: Pool, requests: seq<Request>, x: nat)
    requires Inv(p) && AllLegal(p, requests) && x in p.blocks
    requires forall i :: 0 <= i < |requests| ==> Elsewhere(requests[i], x)
    ensures Inv(RunAll(p, requests)) && Undisturbed(p, RunAll(p, requests), x)
    decreases |requests|
  {
    hide Inv, Step, Legal, Contents;
    if requests != [] {
      StepDisturbsNone(p, requests[0], x);
      RunDisturbsNone(Step(p, requests[0]), requests[1..], x);
    }
  }

  // ---------------------------------------------------------------- sizes

  function SumOfSizes(chunks: seq<Chunk>): nat {
    if chunks == [] then 0 else SumOfSizes(chunks[..|chunks| - 1]) + chunks[|chunks| - 1].size
  }

  function SumOfCapacities(chunks: seq<Chunk>): nat {
    if chunks == [] then 0 else SumOfCapacities(chunks[..|chunks| - 1]) + chunks[|chunks| - 1].capacity
  }

  /** The sums count every chunk: they are additive, and of a single chunk what it says. */
  lemma {:induction false} SumsCountEveryChunk(left: seq<Chunk>, right: seq<Chunk>)
    ensures SumOfSizes(left + right) == SumOfSizes(left) + SumOfSizes(right)
    ensures SumOfCapacities(left + right) == SumOfCapacities(left) + SumOfCapacities(right)
    ensures forall c :: SumOfSizes([c]) == c.size && SumOfCapacities([c]) == c.capacity
    decreases |right|
  {
    if right == [] {
      assert left + right == left;
    } else {
      assert (left + right)[..|left + right| - 1] == left + right[..|right| - 1];
      SumsCountEveryChunk(left, right[..|right| - 1]);
    }
    forall c: Chunk ensures SumOfSizes([c]) == c.size && SumOfCapacities([c]) == c.capacity {
      assert [c][..0] == [];
    }
  }

  lemma {:induction false} SizeAtMostCapacity(p: Pool, chunks: seq<Chunk>)
    requires forall i :: 0 <= i < |chunks| ==> ChunkValid(p, chunks[i])
    ensures SumOfSizes(chunks) <= SumOfCapacities(chunks)
    decreases |chunks|
  {
    if chunks != [] {
      assert ChunkValid(p, chunks[|chunks| - 1]);
      SizeAtMostCapacity(p, chunks[..|chunks| - 1]);
    }
  }

  /** The pool before the first call: no chunk, or the user's buffer. */
  function Fresh(memory: seq<Byte>, chunkCapacity: nat): Pool {
    Pool(memory, [], chunkCapacity, false, map[])
  }

  function WithBuffer(memory: seq<Byte>, buffer: nat, size: nat, chunkCapacity: nat): Pool
    requires size > HEADER
  {
    Pool(memory, [Chunk(buffer, size - HEADER, 0)], chunkCapacity, true, map[])
  }

  lemma InitiallyInv(memory: seq<Byte>, buffer: nat, size: nat, chunkCapacity: nat)
    requires 0 < buffer && HEADER < size && buffer + size <= |memory|
    ensures Inv(Fresh(memory, chunkCapacity)) && Inv(WithBuffer(memory, buffer, size, chunkCapacity))
  {
  }

  predicate KeepsUserChunk(p: Pool, q: Pool) {
    q.user == p.user
    && (p.user ==> p.chunks != [] && q.chunks != []
                   && q.chunks[0].base == p.chunks[0].base && q.chunks[0].capacity == p.chunks[0].capacity)
  }

  lemma StepKeepsUserChunk(p: Pool, r: Request)
    requires Inv(p) && Legal(p, r)
    ensures KeepsUserChunk(p, Step(p, r))
  {
    hide Align, Granted, Copy, BlocksValid, ChunksValid;
  }

  lemma {:induction false} RunKeepsUserChunk(p: Pool, requests: seq<Request>)
    requires Inv(p) && AllLegal(p, requests)
    ensures KeepsUserChunk(p, RunAll(p, requests))
    decreases |requests|
  {
    hide ChunksValid, BlocksValid, Step, Legal;
    if requests != [] {
      StepKeepsInv(p, requests[0]);
      StepKeepsUserChunk(p, requests[0]);
      RunKeepsUserChunk(Step(p, requests[0]), requests[1..]);
    }
  }

  /** After any use, `Clear` leaves the user's buffer as it was supplied, empty, and no other chunk or block. */
  lemma ClearKeepsOnlyTheUsersChunk(p: Pool, requests: seq<Request>)
    requires Inv(p) && AllLegal(p, requests) && (p.user ==> |p.chunks| == 1 && p.chunks[0].size == 0)
    ensures var q := Clear(RunAll(p, requests)); q.blocks == map[] && q.chunks == if p.user then p.chunks else []
  {
    hide Inv;
    RunKeepsUserChunk(p, requests);
  }
}
