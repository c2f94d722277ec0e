/** What `file_write` does to the disk, block by block, and to the inode it names. */
module FsWrite {
  import opened Bits
  import opened Codec
  import opened FileSystem
  import opened FsInvariant
  import opened FsContents

  /** The disk after a write that ends in the direct blocks. */
  function WrittenDisk(st: Store, n: Inode, offset: nat, buf: seq<Byte>, junk: Block): (d: seq<Block>)
    requires StoreOk(st) && InodeFits(n) && InTables(offset, |buf|) && BlockOk(junk)
    ensures |d| == MAX_BLOCK
  {
    var bs := Touched(st, n, offset, |buf|);
    GatherLength(st.disk, bs, junk);
    assert StartByte(offset) + |buf| <= BLOCK_SIZE * |bs|;
    Scatter(st.disk, bs, Overlaid(Gather(st.disk, bs, junk), StartByte(offset), buf))
  }

  // ----- Pieces -----

  /** What the write puts on the block of direct entry `j`: its old bytes, under those of the buffer. */
  function Piece(d: seq<Block>, n: Inode, offset: nat, buf: seq<Byte>, j: nat): (p: Block)
    requires |d| == MAX_BLOCK && DiskOk(d) && InodeFits(n) && j < DIRECT_BLOCK
    ensures |p| == BLOCK_SIZE
  {
    assert BlockOk(d[n.direct[j]]);
    seq(BLOCK_SIZE, q requires 0 <= q < BLOCK_SIZE =>
      if offset <= BLOCK_SIZE * j + q < offset + |buf| then buf[BLOCK_SIZE * j + q - offset] else d[n.direct[j]][q])
  }

  /** Entry `j` is in the range, and no later one there names the same block. */
  predicate LastNaming(n: Inode, offset: nat, size: nat, j: nat) {
    && |n.direct| == DIRECT_BLOCK && StartBlock(offset) <= j <= EndBlock(offset, size) < DIRECT_BLOCK
    && forall k :: j < k <= EndBlock(offset, size) ==> n.direct[k] != n.direct[j]
  }

  lemma LastOf(n: Inode, offset: nat, size: nat, i: nat) returns (j: nat)
    requires |n.direct| == DIRECT_BLOCK && StartBlock(offset) <= i <= EndBlock(offset, size) < DIRECT_BLOCK
    ensures i <= j && LastNaming(n, offset, size, j) && n.direct[j] == n.direct[i]
    decreases DIRECT_BLOCK - i
  {
    if k :| i < k <= EndBlock(offset, size) && n.direct[k] == n.direct[i] {
      j := LastOf(n, offset, size, k);
    } else {
      j := i;
    }
  }

  lemma GatherByte(st: Store, bs: seq<nat>, junk: Block, k: nat, j: nat)
    requires StoreOk(st) && BlockOk(junk) && k < |bs| && j < BLOCK_SIZE && bs[k] < MAX_BLOCK
    ensures |Gather(st.disk, bs, junk)| == BLOCK_SIZE * |bs|
    ensures Gather(st.disk, bs, junk)[BLOCK_SIZE * k + j] == st.disk[bs[k]][j]
  {
    GatherAt(st.disk, bs, junk, k, j);
  }

  lemma FirstPiece(offset: nat, size: nat)
    ensures offset == BLOCK_SIZE * StartBlock(offset) + StartByte(offset)
    ensures StartBlock(offset) <= EndBlock(offset, size)
    ensures StartByte(offset) + size <= BLOCK_SIZE * (EndBlock(offset, size) + 1 - StartBlock(offset))
  {
  }

  /** Byte `j` of piece `k` of an overlaid buffer. */
  lemma PieceAt(data: seq<Byte>, at: nat, buf: seq<Byte>, k: nat, j: nat)
    requires at + |buf| <= |data| && BLOCK_SIZE * (k + 1) <= |data| && j < BLOCK_SIZE
    ensures var c, q := Chunk(Overlaid(data, at, buf), k), BLOCK_SIZE * k + j;
      |c| == BLOCK_SIZE && c[j] == if at <= q < at + |buf| then buf[q - at] else data[q]
  {
  }

  lemma Outside(offset: nat, size: nat, i: nat, j: nat)
    requires (i < StartBlock(offset) || i > EndBlock(offset, size)) && j < BLOCK_SIZE
    ensures BLOCK_SIZE * i + j < offset || BLOCK_SIZE * i + j >= offset + size
  {
  }

  lemma ShortTouched(st: Store, n: Inode, offset: nat, size: nat)
    requires StoreOk(st) && InodeFits(n) && EndBlock(offset, size) < DIRECT_BLOCK
    ensures |n.direct| == DIRECT_BLOCK && n.indirect < MAX_BLOCK && |st.disk| == MAX_BLOCK && DiskOk(st.disk)
    ensures InTables(offset, size) && StartBlock(offset) <= EndBlock(offset, size)
    ensures Touched(st, n, offset, size) == n.direct[StartBlock(offset)..EndBlock(offset, size) + 1]
  {
  }

  /** A block holds, after the write, the piece of the last entry that names it. */
  lemma WrittenLast(st: Store, n: Inode, offset: nat, buf: seq<Byte>, junk: Block, j: nat)
    requires StoreOk(st) && InodeFits(n) && BlockOk(junk) && LastNaming(n, offset, |buf|, j)
    ensures |st.disk| == MAX_BLOCK && DiskOk(st.disk) && InTables(offset, |buf|)
    ensures WrittenDisk(st, n, offset, buf, junk)[n.direct[j]] == Piece(st.disk, n, offset, buf, j)
  {
    ShortTouched(st, n, offset, |buf|);
    FirstPiece(offset, |buf|);
    var a, at, i := StartBlock(offset), StartByte(offset), j - StartBlock(offset);
    var bs := Touched(st, n, offset, |buf|);
    assert bs[i] == n.direct[j];
    hide Touched, Scatter, Gather, Overlaid, InTables, StartBlock, EndBlock, StartByte, Chunk, StoreOk, InodeFits,
      Piece;
    var data := Gather(st.disk, bs, junk);
    GatherLength(st.disk, bs, junk);
    ScatterAt(st.disk, bs, Overlaid(data, at, buf), i);
    var c := Chunk(Overlaid(data, at, buf), i);
    ChunkIs(Overlaid(data, at, buf), i);
    forall q: nat | q < BLOCK_SIZE ensures c[q] == Piece(st.disk, n, offset, buf, j)[q] {
      GatherByte(st, bs, junk, i, q);
      PieceOfChunk(st.disk, n, offset, buf, j, data, at, a, q);
    }
    assert c == Piece(st.disk, n, offset, buf, j);
  }

  /** A piece of the overlaid buffer, counted from block `a` on. */
  lemma PieceOfChunk(d: seq<Block>, n: Inode, offset: nat, buf: seq<Byte>, j: nat, data: seq<Byte>, at: nat, a: nat,
    q: nat)
    requires |d| == MAX_BLOCK && DiskOk(d) && InodeFits(n) && a <= j < DIRECT_BLOCK && q < BLOCK_SIZE
    requires offset == BLOCK_SIZE * a + at && at + |buf| <= |data| && BLOCK_SIZE * (j - a + 1) <= |data|
    requires |d[n.direct[j]]| == BLOCK_SIZE && data[BLOCK_SIZE * (j - a) + q] == d[n.direct[j]][q]
    ensures |Chunk(Overlaid(data, at, buf), j - a)| == BLOCK_SIZE
    ensures Chunk(Overlaid(data, at, buf), j - a)[q] == Piece(d, n, offset, buf, j)[q]
  {
    PieceAt(data, at, buf, j - a, q);
    hide Chunk, Overlaid;
  }

  lemma ChunkIs(tmp: seq<Byte>, i: nat)
    requires BLOCK_SIZE * (i + 1) <= |tmp|
    ensures Chunk(tmp, i) == tmp[BLOCK_SIZE * i..BLOCK_SIZE * (i + 1)] && |Chunk(tmp, i)| == BLOCK_SIZE
  {
  }

  /** A block that no entry in the range names is left alone. */
  lemma WrittenElse(st: Store, n: Inode, offset: nat, buf: seq<Byte>, junk: Block, b: nat)
    requires StoreOk(st) && InodeFits(n) && BlockOk(junk) && EndBlock(offset, |buf|) < DIRECT_BLOCK && b < MAX_BLOCK
    requires forall j :: StartBlock(offset) <= j <= EndBlock(offset, |buf|) ==> n.direct[j] != b
    ensures |st.disk| == MAX_BLOCK && InTables(offset, |buf|)
    ensures WrittenDisk(st, n, offset, buf, junk)[b] == st.disk[b]
  {
    ShortTouched(st, n, offset, |buf|);
    FirstPiece(offset, |buf|);
    var bs := Touched(st, n, offset, |buf|);
    assert forall i :: 0 <= i < |bs| ==> bs[i] == n.direct[StartBlock(offset) + i];
    GatherLength(st.disk, bs, junk);
    ScatterOthers(st.disk, bs, Overlaid(Gather(st.disk, bs, junk), StartByte(offset), buf));
  }

  lemma WrittenShape(st: Store, n: Inode, offset: nat, buf: seq<Byte>, junk: Block)
    requires StoreOk(st) && InodeFits(n) && BlockOk(junk) && EndBlock(offset, |buf|) < DIRECT_BLOCK
    ensures InTables(offset, |buf|) && StoreOk(st.(disk := WrittenDisk(st, n, offset, buf, junk)))
  {
    ShortTouched(st, n, offset, |buf|);
    FirstPiece(offset, |buf|);
    var bs := Touched(st, n, offset, |buf|);
    GatherLength(st.disk, bs, junk);
    ScatterOthers(st.disk, bs, Overlaid(Gather(st.disk, bs, junk), StartByte(offset), buf));
  }

  /** Outside the range a piece is the block as it was. */
  lemma PieceOutside(d: seq<Block>, n: Inode, offset: nat, buf: seq<Byte>, i: nat)
    requires |d| == MAX_BLOCK && DiskOk(d) && InodeFits(n) && i < DIRECT_BLOCK
    requires i < StartBlock(offset) || i > EndBlock(offset, |buf|)
    ensures Piece(d, n, offset, buf, i) == d[n.direct[i]]
  {
    assert BlockOk(d[n.direct[i]]);
    forall q: nat | q < BLOCK_SIZE ensures Piece(d, n, offset, buf, i)[q] == d[n.direct[i]][q] {
      Outside(offset, |buf|, i, q);
    }
  }

  // ----- The inode's own blocks -----

  /** A direct entry of an inode's own blocks. */
  lemma DirectEntry(st: Store, n: Inode, i: nat)
    requires StoreOk(st) && InodeOk(st, n) && i < DIRECT_BLOCK && i < n.blockCount
    ensures n.direct[i] == DataBlocks(st, n)[i] && METADATA_BLOCKS <= n.direct[i] < MAX_BLOCK
  {
    assert Owned(st, n)[i] in Owned(st, n);
  }

  lemma DataBlock(st: Store, n: Inode, i: nat, j: nat)
    requires StoreOk(st) && InodeOk(st, n) && i < n.blockCount && j < n.blockCount
    ensures METADATA_BLOCKS <= DataBlocks(st, n)[i] < MAX_BLOCK
    ensures DataBlocks(st, n)[i] == DataBlocks(st, n)[j] <==> i == j
  {
    var o := Owned(st, n);
    assert o[i] in o && o[i] == DataBlocks(st, n)[i] && o[j] == DataBlocks(st, n)[j];
  }

  /** An entry in the range past the inode's blocks, the last one there to name its block. */
  predicate Stray(n: Inode, offset: nat, size: nat, j: nat) {
    n.blockCount <= j && LastNaming(n, offset, size, j)
  }

  /** Where a stray entry names one of the inode's own blocks, it brings the piece that belongs there. */
  ghost predicate OwnInOrder(d: seq<Block>, n: Inode, offset: nat, buf: seq<Byte>)
    requires |d| == MAX_BLOCK && DiskOk(d) && InodeFits(n)
  {
    forall i: nat, j: nat :: i < n.blockCount && Stray(n, offset, |buf|, j) && n.direct[i] == n.direct[j] ==>
      Piece(d, n, offset, buf, j) == Piece(d, n, offset, buf, i)
  }

  /** Block `i` of the inode after the write. */
  lemma OwnBlock(st: Store, n: Inode, offset: nat, buf: seq<Byte>, junk: Block, i: nat)
    requires StoreOk(st) && InodeOk(st, n) && BlockOk(junk) && EndBlock(offset, |buf|) < DIRECT_BLOCK
    requires i < n.blockCount && i < DIRECT_BLOCK
    ensures |st.disk| == MAX_BLOCK && DiskOk(st.disk) && InTables(offset, |buf|)
    ensures (forall j: nat :: Stray(n, offset, |buf|, j) ==> n.direct[j] != n.direct[i]) ==>
              WrittenDisk(st, n, offset, buf, junk)[n.direct[i]] == Piece(st.disk, n, offset, buf, i)
    ensures forall j: nat :: Stray(n, offset, |buf|, j) && n.direct[j] == n.direct[i] ==>
              WrittenDisk(st, n, offset, buf, junk)[n.direct[i]] == Piece(st.disk, n, offset, buf, j)
  {
    ShortTouched(st, n, offset, |buf|);
    hide Touched, InTables, WrittenDisk, Piece, StoreOk;
    if k: nat :| StartBlock(offset) <= k <= EndBlock(offset, |buf|) && n.direct[k] == n.direct[i] {
      var j := LastOf(n, offset, |buf|, k);
      WrittenLast(st, n, offset, buf, junk, j);
      if j < n.blockCount { DistinctEntries(st, n, i, j); }
      assert forall l: nat :: LastNaming(n, offset, |buf|, l) && n.direct[l] == n.direct[j] ==> l == j;
    } else {
      WrittenElse(st, n, offset, buf, junk, n.direct[i]);
      PieceOutside(st.disk, n, offset, buf, i);
    }
  }

  lemma DistinctEntries(st: Store, n: Inode, i: nat, j: nat)
    requires StoreOk(st) && InodeOk(st, n) && i < n.blockCount && j < n.blockCount && i < DIRECT_BLOCK
    requires j < DIRECT_BLOCK
    ensures n.direct[i] == n.direct[j] <==> i == j
  {
    DirectEntry(st, n, i);
    DirectEntry(st, n, j);
    DataBlock(st, n, i, j);
  }

  /** The blocks an inode owns stay the same, its map with them. */
  lemma OwnFrame(st: Store, t: Store, n: Inode, offset: nat, buf: seq<Byte>, junk: Block)
    requires StoreOk(st) && InodeOk(st, n) && BlockOk(junk) && EndBlock(offset, |buf|) < DIRECT_BLOCK
    requires InTables(offset, |buf|)
    requires t == st.(disk := WrittenDisk(st, n, offset, buf, junk))
    ensures StoreOk(t) && InodeOk(t, n) && DataBlocks(t, n) == DataBlocks(st, n)
    ensures |Content(t, n)| == |Content(st, n)| == BLOCK_SIZE * n.blockCount
    ensures n.blockCount > DIRECT_BLOCK ==> t.disk[n.indirect] == st.disk[n.indirect]
  {
    WrittenShape(st, n, offset, buf, junk);
    if n.blockCount > DIRECT_BLOCK {
      MapApart(st, n);
      WrittenElse(st, n, offset, buf, junk, n.indirect);
    }
    hide WrittenDisk, Words;
    assert DataBlocks(t, n) == DataBlocks(st, n);
    ContentLength(st, n);
    ContentLength(t, n);
  }

  lemma MapApart(st: Store, n: Inode)
    requires StoreOk(st) && InodeOk(st, n) && n.blockCount > DIRECT_BLOCK
    ensures n.indirect < MAX_BLOCK && forall k :: 0 <= k < n.blockCount ==> DataBlocks(st, n)[k] != n.indirect
    ensures forall j :: 0 <= j < DIRECT_BLOCK ==> n.direct[j] != n.indirect
  {
    hide Words;
    var d, o := DataBlocks(st, n), Owned(st, n);
    assert o[n.blockCount] == n.indirect && o[n.blockCount] in o;
    forall k | 0 <= k < n.blockCount ensures d[k] != n.indirect { assert o[k] == d[k]; }
    assert forall j :: 0 <= j < DIRECT_BLOCK ==> d[j] == n.direct[j];
  }

  /** The blocks past the direct ones are not in reach of a short range. */
  lemma MapBlocksKept(st: Store, n: Inode, offset: nat, buf: seq<Byte>, junk: Block, i: nat)
    requires StoreOk(st) && InodeOk(st, n) && BlockOk(junk) && EndBlock(offset, |buf|) < DIRECT_BLOCK
    requires InTables(offset, |buf|)
    requires DIRECT_BLOCK <= i < n.blockCount
    ensures DataBlocks(st, n)[i] < MAX_BLOCK && |st.disk| == MAX_BLOCK
    ensures WrittenDisk(st, n, offset, buf, junk)[DataBlocks(st, n)[i]] == st.disk[DataBlocks(st, n)[i]]
  {
    DataBlock(st, n, i, i);
    var b := DataBlocks(st, n)[i];
    forall j | StartBlock(offset) <= j <= EndBlock(offset, |buf|) ensures n.direct[j] != b {
      DirectEntry(st, n, j);
      DataBlock(st, n, j, i);
    }
    hide WrittenDisk, DataBlocks, InodeOk;
    FitsOf(st, n);
    WrittenElse(st, n, offset, buf, junk, b);
  }

  lemma FitsOf(st: Store, n: Inode)
    requires StoreOk(st) && InodeOk(st, n)
    ensures InodeShape(n) && InodeFits(n) && |n.direct| == DIRECT_BLOCK && |st.disk| == MAX_BLOCK && DiskOk(st.disk)
  {
  }

  /** Byte `q` of direct block `i` of the inode: after the write, and in the overlaid file. */
  lemma OwnByte(st: Store, t: Store, n: Inode, offset: nat, buf: seq<Byte>, junk: Block, i: nat, q: nat)
    requires StoreOk(st) && InodeOk(st, n) && BlockOk(junk) && EndBlock(offset, |buf|) < DIRECT_BLOCK
    requires InTables(offset, |buf|) && t == st.(disk := WrittenDisk(st, n, offset, buf, junk))
    requires i < n.blockCount && i < DIRECT_BLOCK && q < BLOCK_SIZE
    ensures |st.disk| == MAX_BLOCK && DiskOk(st.disk) && InodeFits(n) && StoreOk(t) && InodeOk(t, n)
    ensures |Content(t, n)| == |Content(st, n)| == BLOCK_SIZE * n.blockCount && |t.disk[n.direct[i]]| == BLOCK_SIZE
    ensures Content(t, n)[BLOCK_SIZE * i + q] == t.disk[n.direct[i]][q]
    ensures Content(st, n)[BLOCK_SIZE * i + q] == st.disk[n.direct[i]][q]
    ensures Overlaid(Content(st, n), offset, buf)[BLOCK_SIZE * i + q] == Piece(st.disk, n, offset, buf, i)[q]
  {
    FitsOf(st, n);
    OwnFrame(st, t, n, offset, buf, junk);
    FitsOf(t, n);
    DirectEntry(st, n, i);
    hide WrittenDisk, InodeOk, Content, DataBlocks, StoreOk, Piece, Overlaid, InTables, EndBlock;
    ContentByte(st, n, i, q);
    ContentByte(t, n, i, q);
    PieceByte(st.disk, n, Content(st, n), offset, buf, i, q);
  }

  lemma PieceByte(d: seq<Block>, n: Inode, data: seq<Byte>, offset: nat, buf: seq<Byte>, i: nat, q: nat)
    requires |d| == MAX_BLOCK && DiskOk(d) && InodeFits(n) && i < DIRECT_BLOCK && q < BLOCK_SIZE
    requires |d[n.direct[i]]| == BLOCK_SIZE && BLOCK_SIZE * i + q < |data|
    requires data[BLOCK_SIZE * i + q] == d[n.direct[i]][q]
    ensures Overlaid(data, offset, buf)[BLOCK_SIZE * i + q] == Piece(d, n, offset, buf, i)[q]
  {
  }

  /** The file holds the buffer in its range, as far as the file goes, and its old bytes elsewhere, exactly
      when its own blocks are written in order. */
  lemma OverlaidExactly(st: Store, t: Store, n: Inode, offset: nat, buf: seq<Byte>, junk: Block)
    requires StoreOk(st) && InodeOk(st, n) && BlockOk(junk) && EndBlock(offset, |buf|) < DIRECT_BLOCK
    requires InTables(offset, |buf|) && t == st.(disk := WrittenDisk(st, n, offset, buf, junk))
    ensures |st.disk| == MAX_BLOCK && DiskOk(st.disk) && InodeFits(n) && StoreOk(t) && InodeOk(t, n)
    ensures Content(t, n) == Overlaid(Content(st, n), offset, buf) <==> OwnInOrder(st.disk, n, offset, buf)
  {
    FitsOf(st, n);
    OwnFrame(st, t, n, offset, buf, junk);
    if OwnInOrder(st.disk, n, offset, buf) {
      forall p: nat | p < BLOCK_SIZE * n.blockCount
        ensures Content(t, n)[p] == Overlaid(Content(st, n), offset, buf)[p]
      {
        hide *;
        OrderedByte(st, t, n, offset, buf, junk, p);
      }
    }
    if Content(t, n) == Overlaid(Content(st, n), offset, buf) {
      hide *;
      OverlaidInOrder(st, t, n, offset, buf, junk);
    }
  }

  lemma OrderedByte(st: Store, t: Store, n: Inode, offset: nat, buf: seq<Byte>, junk: Block, p: nat)
    requires StoreOk(st) && InodeOk(st, n) && BlockOk(junk) && EndBlock(offset, |buf|) < DIRECT_BLOCK
    requires InTables(offset, |buf|) && t == st.(disk := WrittenDisk(st, n, offset, buf, junk))
    requires p < BLOCK_SIZE * n.blockCount && |st.disk| == MAX_BLOCK && DiskOk(st.disk) && InodeFits(n)
    requires OwnInOrder(st.disk, n, offset, buf)
    ensures StoreOk(t) && InodeOk(t, n) && |Content(t, n)| == |Content(st, n)| == BLOCK_SIZE * n.blockCount
    ensures Content(t, n)[p] == Overlaid(Content(st, n), offset, buf)[p]
  {
    var i, q := p / BLOCK_SIZE, p % BLOCK_SIZE;
    Position(p);
    assert i < n.blockCount;
    OwnFrame(st, t, n, offset, buf, junk);
    if i < DIRECT_BLOCK {
      hide WrittenDisk, InodeOk, Content, DataBlocks, StoreOk, Piece, Overlaid, InTables, InodeFits;
      OwnByte(st, t, n, offset, buf, junk, i, q);
      OwnBlock(st, n, offset, buf, junk, i);
    } else {
      FarByte(st, t, n, offset, buf, junk, i, q);
    }
  }

  lemma FarByte(st: Store, t: Store, n: Inode, offset: nat, buf: seq<Byte>, junk: Block, i: nat, q: nat)
    requires StoreOk(st) && InodeOk(st, n) && BlockOk(junk) && EndBlock(offset, |buf|) < DIRECT_BLOCK
    requires InTables(offset, |buf|) && t == st.(disk := WrittenDisk(st, n, offset, buf, junk))
    requires DIRECT_BLOCK <= i < n.blockCount && q < BLOCK_SIZE
    ensures StoreOk(t) && InodeOk(t, n) && |Content(t, n)| == |Content(st, n)| == BLOCK_SIZE * n.blockCount
    ensures Content(t, n)[BLOCK_SIZE * i + q] == Content(st, n)[BLOCK_SIZE * i + q]
    ensures Overlaid(Content(st, n), offset, buf)[BLOCK_SIZE * i + q] == Content(st, n)[BLOCK_SIZE * i + q]
  {
    OwnFrame(st, t, n, offset, buf, junk);
    MapBlocksKept(st, n, offset, buf, junk, i);
    Outside(offset, |buf|, i, q);
    hide WrittenDisk, InodeOk, Content, DataBlocks, StoreOk;
    ContentByte(st, n, i, q);
    ContentByte(t, n, i, q);
  }

  lemma OverlaidInOrder(st: Store, t: Store, n: Inode, offset: nat, buf: seq<Byte>, junk: Block)
    requires StoreOk(st) && InodeOk(st, n) && BlockOk(junk) && EndBlock(offset, |buf|) < DIRECT_BLOCK
    requires InTables(offset, |buf|) && t == st.(disk := WrittenDisk(st, n, offset, buf, junk))
    requires StoreOk(t) && InodeOk(t, n) && |st.disk| == MAX_BLOCK && DiskOk(st.disk) && InodeFits(n)
    requires Content(t, n) == Overlaid(Content(st, n), offset, buf)
    ensures OwnInOrder(st.disk, n, offset, buf)
  {
    hide WrittenDisk, InodeOk, Content, DataBlocks, StoreOk, Piece, Overlaid, InTables, InodeFits;
    forall i: nat, j: nat | i < n.blockCount && Stray(n, offset, |buf|, j) && n.direct[i] == n.direct[j]
      ensures Piece(st.disk, n, offset, buf, j) == Piece(st.disk, n, offset, buf, i)
    {
      OwnBlock(st, n, offset, buf, junk, i);
      forall q: nat | q < BLOCK_SIZE
        ensures Piece(st.disk, n, offset, buf, j)[q] == Piece(st.disk, n, offset, buf, i)[q]
      {
        OwnByte(st, t, n, offset, buf, junk, i, q);
      }
    }
  }

  // ----- What is read back -----

  /** `data` goes on past the range at `offset`, and holds `buf` there. */
  predicate HasAt(data: seq<Byte>, offset: nat, buf: seq<Byte>) {
    offset + |buf| <= |data| && data[offset..offset + |buf|] == buf
  }

  lemma HasBytes(data: seq<Byte>, offset: nat, buf: seq<Byte>)
    ensures HasAt(data, offset, buf) <==>
              offset + |buf| <= |data| && forall p :: offset <= p < offset + |buf| ==> data[p] == buf[p - offset]
  {
    if offset + |buf| <= |data| && forall p :: offset <= p < offset + |buf| ==> data[p] == buf[p - offset] {
      forall x: nat | x < |buf| ensures data[offset..offset + |buf|][x] == buf[x] {
        assert data[offset + x] == buf[offset + x - offset];
      }
    } else if HasAt(data, offset, buf) {
      forall p | offset <= p < offset + |buf| ensures data[p] == buf[p - offset] {
        assert data[offset..offset + |buf|][p - offset] == data[p];
      }
    }
  }

  /** Where the direct entry after a file's blocks names one of them, `data` has the buffer's bytes already. */
  predicate AlreadyThere(n: Inode, data: seq<Byte>, offset: nat, buf: seq<Byte>)
    requires |n.direct| == DIRECT_BLOCK && n.blockCount < DIRECT_BLOCK
    requires offset + |buf| <= |data| == BLOCK_SIZE * n.blockCount
  {
    forall p :: offset <= p < offset + |buf| && n.direct[p / BLOCK_SIZE] == n.direct[n.blockCount] ==>
      data[p] == buf[p - offset]
  }

  /** After a write that ends in the direct blocks the file holds the buffer in its range exactly when the
      range lies in the file's blocks, and ends before their end; a range that ends there is written back
      through the entry after them as well, over whatever of the file that entry names. */
  lemma HeldExactly(st: Store, t: Store, n: Inode, offset: nat, buf: seq<Byte>, junk: Block)
    requires StoreOk(st) && InodeOk(st, n) && BlockOk(junk) && EndBlock(offset, |buf|) < DIRECT_BLOCK
    requires InTables(offset, |buf|) && t == st.(disk := WrittenDisk(st, n, offset, buf, junk))
    ensures StoreOk(t) && InodeOk(t, n) && |Content(t, n)| == |Content(st, n)| == BLOCK_SIZE * n.blockCount
    ensures HasAt(Content(t, n), offset, buf) <==>
              && offset + |buf| <= BLOCK_SIZE * n.blockCount
              && (EndBlock(offset, |buf|) < n.blockCount || AlreadyThere(n, Content(st, n), offset, buf))
  {
    hide *;
    FitsOf(st, n);
    OwnFrame(st, t, n, offset, buf, junk);
    EndOf(offset, |buf|, n.blockCount);
    forall p: nat | offset + |buf| <= BLOCK_SIZE * n.blockCount && offset <= p < offset + |buf|
      ensures p / BLOCK_SIZE < n.blockCount && p / BLOCK_SIZE < DIRECT_BLOCK && EndBlock(offset, |buf|) <= n.blockCount
      ensures Content(t, n)[p] == InRange(n, Content(st, n), offset, buf, p)
    {
      BlockOf(offset, |buf|, n.blockCount, p);
      InRangeByte(st, t, n, offset, buf, junk, p / BLOCK_SIZE, p % BLOCK_SIZE);
    }
    HeldBy(n, Content(st, n), Content(t, n), offset, buf);
  }

  /** Byte `p` of a range inside the file, after the write. */
  function InRange(n: Inode, was: seq<Byte>, offset: nat, buf: seq<Byte>, p: nat): Byte
    requires |n.direct| == DIRECT_BLOCK && |was| == BLOCK_SIZE * n.blockCount && offset <= p < offset + |buf|
    requires p / BLOCK_SIZE < n.blockCount && p / BLOCK_SIZE < DIRECT_BLOCK && EndBlock(offset, |buf|) < DIRECT_BLOCK
  {
    Position(p);
    if EndBlock(offset, |buf|) == n.blockCount && n.direct[p / BLOCK_SIZE] == n.direct[n.blockCount]
    then was[p] else buf[p - offset]
  }

  lemma HeldBy(n: Inode, was: seq<Byte>, now: seq<Byte>, offset: nat, buf: seq<Byte>)
    requires |n.direct| == DIRECT_BLOCK && |was| == |now| == BLOCK_SIZE * n.blockCount
    requires EndBlock(offset, |buf|) < DIRECT_BLOCK
    requires offset + |buf| <= BLOCK_SIZE * n.blockCount ==> EndBlock(offset, |buf|) <= n.blockCount
    requires forall p: nat :: offset + |buf| <= BLOCK_SIZE * n.blockCount && offset <= p < offset + |buf| ==>
      && p / BLOCK_SIZE < n.blockCount && p / BLOCK_SIZE < DIRECT_BLOCK && now[p] == InRange(n, was, offset, buf, p)
    ensures HasAt(now, offset, buf) <==>
              && offset + |buf| <= BLOCK_SIZE * n.blockCount
              && (EndBlock(offset, |buf|) < n.blockCount || AlreadyThere(n, was, offset, buf))
  {
    hide HasAt, EndBlock;
    HasBytes(now, offset, buf);
  }

  lemma EndOf(offset: nat, size: nat, c: nat)
    ensures offset + size <= BLOCK_SIZE * c ==> EndBlock(offset, size) <= c
  {
  }

  lemma BlockOf(offset: nat, size: nat, c: nat, p: nat)
    requires offset <= p < offset + size <= BLOCK_SIZE * c && EndBlock(offset, size) < DIRECT_BLOCK
    ensures p / BLOCK_SIZE < c && p / BLOCK_SIZE < DIRECT_BLOCK && p % BLOCK_SIZE < BLOCK_SIZE
    ensures BLOCK_SIZE * (p / BLOCK_SIZE) + p % BLOCK_SIZE == p
    ensures EndBlock(offset, size) <= c && (EndBlock(offset, size) == c ==> offset + size == BLOCK_SIZE * c)
  {
    Position(p);
  }

  lemma InRangeByte(st: Store, t: Store, n: Inode, offset: nat, buf: seq<Byte>, junk: Block, i: nat, q: nat)
    requires StoreOk(st) && InodeOk(st, n) && BlockOk(junk) && EndBlock(offset, |buf|) < DIRECT_BLOCK
    requires InTables(offset, |buf|) && t == st.(disk := WrittenDisk(st, n, offset, buf, junk))
    requires i < n.blockCount && i < DIRECT_BLOCK && q < BLOCK_SIZE && EndBlock(offset, |buf|) <= n.blockCount
    requires EndBlock(offset, |buf|) == n.blockCount ==> offset + |buf| == BLOCK_SIZE * n.blockCount
    requires offset <= BLOCK_SIZE * i + q < offset + |buf|
    ensures |n.direct| == DIRECT_BLOCK && StoreOk(t) && InodeOk(t, n)
    ensures |Content(t, n)| == |Content(st, n)| == BLOCK_SIZE * n.blockCount
    ensures (BLOCK_SIZE * i + q) / BLOCK_SIZE == i
    ensures Content(t, n)[BLOCK_SIZE * i + q] == InRange(n, Content(st, n), offset, buf, BLOCK_SIZE * i + q)
  {
    hide *;
    FitsOf(st, n);
    OwnByte(st, t, n, offset, buf, junk, i, q);
    OwnBlock(st, n, offset, buf, junk, i);
    InRangeIs(n, Content(st, n), offset, buf, i, q);
    StrayAtEnd(n, offset, |buf|, i);
    if EndBlock(offset, |buf|) == n.blockCount && n.direct[i] == n.direct[n.blockCount] {
      PieceAfter(st.disk, n, offset, buf, n.blockCount, q);
    } else {
      PieceIn(st.disk, n, offset, buf, i, q);
    }
  }

  lemma InRangeIs(n: Inode, was: seq<Byte>, offset: nat, buf: seq<Byte>, i: nat, q: nat)
    requires |n.direct| == DIRECT_BLOCK && |was| == BLOCK_SIZE * n.blockCount
    requires offset <= BLOCK_SIZE * i + q < offset + |buf| && EndBlock(offset, |buf|) < DIRECT_BLOCK
    requires i < n.blockCount && i < DIRECT_BLOCK && q < BLOCK_SIZE
    ensures (BLOCK_SIZE * i + q) / BLOCK_SIZE == i
    ensures InRange(n, was, offset, buf, BLOCK_SIZE * i + q) ==
      if EndBlock(offset, |buf|) == n.blockCount && n.direct[i] == n.direct[n.blockCount]
      then was[BLOCK_SIZE * i + q] else buf[BLOCK_SIZE * i + q - offset]
  {
    assert (BLOCK_SIZE * i + q) / BLOCK_SIZE == i;
    hide EndBlock;
  }

  /** A range that ends with the inode's blocks, or before, has at most the one stray entry after them. */
  lemma StrayAtEnd(n: Inode, offset: nat, size: nat, i: nat)
    requires |n.direct| == DIRECT_BLOCK && i < DIRECT_BLOCK && EndBlock(offset, size) <= n.blockCount
    requires EndBlock(offset, size) < DIRECT_BLOCK
    ensures EndBlock(offset, size) == n.blockCount ==>
      n.blockCount < DIRECT_BLOCK && Stray(n, offset, size, n.blockCount)
    ensures !(EndBlock(offset, size) == n.blockCount && n.direct[i] == n.direct[n.blockCount]) ==>
              forall j: nat :: Stray(n, offset, size, j) ==> n.direct[j] != n.direct[i]
  {
    FirstPiece(offset, size);
    hide StartBlock, EndBlock;
  }

  lemma PieceIn(d: seq<Block>, n: Inode, offset: nat, buf: seq<Byte>, i: nat, q: nat)
    requires |d| == MAX_BLOCK && DiskOk(d) && InodeFits(n) && i < DIRECT_BLOCK && q < BLOCK_SIZE
    requires offset <= BLOCK_SIZE * i + q < offset + |buf|
    ensures Piece(d, n, offset, buf, i)[q] == buf[BLOCK_SIZE * i + q - offset]
  {
  }

  lemma PieceAfter(d: seq<Block>, n: Inode, offset: nat, buf: seq<Byte>, j: nat, q: nat)
    requires |d| == MAX_BLOCK && DiskOk(d) && InodeFits(n) && j < DIRECT_BLOCK && q < BLOCK_SIZE
    requires offset + |buf| <= BLOCK_SIZE * j
    ensures n.direct[j] < MAX_BLOCK && |d[n.direct[j]]| == BLOCK_SIZE
    ensures Piece(d, n, offset, buf, j)[q] == d[n.direct[j]][q]
  {
  }

  /** The helper for writes that end beyond the direct blocks leaves the disk as it was. */
  lemma LongWrite(s: Fs, name: Name, offset: nat, buf: seq<Byte>, junk: Block)
    requires FsShape(s) && InTables(offset, |buf|) && BlockOk(junk) && 0 <= Find(s.cur, name) < MAX_INODE
    requires EndBlock(offset, |buf|) >= DIRECT_BLOCK
    ensures FileWrite(s, name, offset, |buf|, buf, junk) == (Done, s)
  {
    WriteBackUnchanged(s.store.disk, Touched(s.store, s.inodes[Find(s.cur, name)], offset, |buf|), junk);
  }
}
