/** Block arithmetic: what the loops over blocks read and write, byte by byte. */
module FsContents {
  import opened Lists
  import opened Bits
  import opened Codec
  import opened FileSystem
  import opened FsInvariant

  predicate DiskOk(d: seq<Block>) {
    forall b :: 0 <= b < |d| ==> BlockOk(d[b])
  }

  /** Byte `p` of what a read loop gathers is byte `p % 512` of its block `p / 512`. */
  lemma {:induction false} GatherAt(d: seq<Block>, bs: seq<nat>, buf: Block, i: nat, j: nat)
    requires DiskOk(d) && BlockOk(buf) && i < |bs| && j < BLOCK_SIZE && bs[i] < |d|
    ensures |Gather(d, bs, buf)| == BLOCK_SIZE * |bs| && Gather(d, bs, buf)[BLOCK_SIZE * i + j] == d[bs[i]][j]
  {
    GatherLength(d, bs, buf);
    if i > 0 {
      var b := Fetch(d, bs[0], buf);
      GatherAt(d, bs[1..], b, i - 1, j);
      assert Gather(d, bs, buf)[BLOCK_SIZE * i + j] == Gather(d, bs[1..], b)[BLOCK_SIZE * (i - 1) + j];
    }
  }

  /** A bad block number leaves in the buffer what the block before it brought, or what it first held. */
  lemma {:induction false} GatherBad(d: seq<Block>, bs: seq<nat>, buf: Block, i: nat)
    requires DiskOk(d) && BlockOk(buf) && i < |bs| && bs[i] >= |d|
    ensures |Gather(d, bs, buf)| == 512 * |bs|
    ensures Gather(d, bs, buf)[512 * i..512 * i + 512]
         == if i == 0 then buf else Gather(d, bs, buf)[512 * (i - 1)..512 * i]
  {
    GatherLength(d, bs, buf);
    var b, u := Fetch(d, bs[0], buf), bs[1..];
    GatherLength(d, u, b);
    if i > 0 {
      GatherBad(d, u, b, i - 1);
      assert Gather(d, bs, buf) == b + Gather(d, u, b);
      hide *;
      Shifted(b, Gather(d, u, b), 512 * (i - 1), 512 * (i - 1) + 512);
      if i > 1 { Shifted(b, Gather(d, u, b), 512 * (i - 2), 512 * (i - 1)); }
    }
  }

  lemma Shifted(b: Block, h: seq<Byte>, lo: nat, hi: nat)
    requires BlockOk(b) && lo <= hi <= |h|
    ensures (b + h)[512 + lo..512 + hi] == h[lo..hi] && (b + h)[0..512] == b
  {
  }

  lemma Position(p: nat)
    ensures p == BLOCK_SIZE * (p / BLOCK_SIZE) + p % BLOCK_SIZE && p % BLOCK_SIZE < BLOCK_SIZE
  {
  }

  /** Byte `j` of block `i` of a file. */
  lemma ContentByte(st: Store, n: Inode, i: nat, j: nat)
    requires StoreOk(st) && InodeOk(st, n) && i < n.blockCount && j < BLOCK_SIZE
    ensures |Content(st, n)| == BLOCK_SIZE * n.blockCount
    ensures DataBlocks(st, n)[i] < MAX_BLOCK
    ensures Content(st, n)[BLOCK_SIZE * i + j] == st.disk[DataBlocks(st, n)[i]][j]
  {
    var bs := DataBlocks(st, n);
    assert bs[i] == Owned(st, n)[i] && Owned(st, n)[i] in Owned(st, n);
    GatherAt(st.disk, bs, Zeros(BLOCK_SIZE), i, j);
  }

  lemma ContentLength(st: Store, n: Inode)
    requires StoreOk(st) && InodeShape(n)
    ensures |Content(st, n)| == BLOCK_SIZE * n.blockCount
  {
    GatherLength(st.disk, DataBlocks(st, n), Zeros(BLOCK_SIZE));
  }

  // ----- Reading -----

  /** The touched blocks are the file's own, as far as the file goes. */
  lemma TouchedAreData(st: Store, n: Inode, offset: nat, size: nat, i: nat)
    requires StoreOk(st) && InodeOk(st, n) && InTables(offset, size)
    requires StartBlock(offset) <= i < n.blockCount && i <= EndBlock(offset, size)
    ensures var bs := Touched(st, n, offset, size);
      i - StartBlock(offset) < |bs| && bs[i - StartBlock(offset)] == DataBlocks(st, n)[i]
  {
    hide Words, NoDup;
    var a, k := StartBlock(offset), i - DIRECT_BLOCK;
    if i < DIRECT_BLOCK {
      assert DataBlocks(st, n)[i] == n.direct[i];
    } else {
      assert DataBlocks(st, n)[i] == Words(st.disk, n.indirect)[k];
      assert Touched(st, n, offset, size)[DIRECT_BLOCK - a + k] == Words(st.disk, n.indirect)[k];
    }
  }

  /** Byte `q` of what is gathered for a range is byte `offset + q` of the file. */
  lemma ReadAt(st: Store, n: Inode, offset: nat, size: nat, buf: Block, q: nat)
    requires StoreOk(st) && InodeOk(st, n) && InTables(offset, size) && BlockOk(buf)
    requires offset + q < BLOCK_SIZE * n.blockCount && q < size
    ensures var all := Gather(st.disk, Touched(st, n, offset, size), buf); var at := StartByte(offset) + q;
      at < |all| && offset + q < |Content(st, n)| && all[at] == Content(st, n)[offset + q]
  {
    hide Touched, Gather, DataBlocks, Owned, InodeOk, Content, InTables, StartBlock, EndBlock, StartByte, Words;
    RangeTables(st, n, offset, size);
    var i, j := Locate(offset, size, q);
    var bs, a := Touched(st, n, offset, size), StartBlock(offset);
    TouchedAreData(st, n, offset, size, i);
    ContentByte(st, n, i, j);
    GatherAt(st.disk, bs, buf, i - a, j);
  }

  lemma RangeTables(st: Store, n: Inode, offset: nat, size: nat)
    requires StoreOk(st) && InodeOk(st, n) && InTables(offset, size)
    ensures |n.direct| == DIRECT_BLOCK && n.indirect < MAX_BLOCK && DiskOk(st.disk) && |st.disk| == MAX_BLOCK
  {
  }

  /** The block and the byte in it where byte `q` of a range lies. */
  lemma Locate(offset: nat, size: nat, q: nat) returns (i: nat, j: nat)
    requires q < size
    ensures j < BLOCK_SIZE && offset + q == BLOCK_SIZE * i + j && StartBlock(offset) <= i <= EndBlock(offset, size)
    ensures BLOCK_SIZE * (i - StartBlock(offset)) + j == StartByte(offset) + q
  {
    var p := offset + q;
    i, j := p / BLOCK_SIZE, p % BLOCK_SIZE;
    Position(p);
    Position(offset);
  }

  lemma FitsToo(st: Store, n: Inode)
    requires StoreOk(st) && InodeOk(st, n)
    ensures InodeFits(n) && InodeShape(n)
  {
  }

  /** The part of a range that lies in `data`. */
  function PartIn(data: seq<Byte>, offset: nat, size: nat): seq<Byte> {
    if offset >= |data| then [] else if offset + size <= |data| then data[offset..offset + size] else data[offset..]
  }

  /** `file_read` gives as many bytes as it was asked for, and those that lie in the file's blocks are the
      file's; the block after them, which it fetches too when the range ends with a block, does not show. */
  lemma ReadShowsContent(st: Store, n: Inode, offset: nat, size: nat, buf: Block)
    requires StoreOk(st) && InodeOk(st, n) && InTables(offset, size) && BlockOk(buf)
    ensures |ReadBytes(st, n, offset, size, buf)| == size
    ensures PartIn(Content(st, n), offset, size) <= ReadBytes(st, n, offset, size, buf)
  {
    hide Touched, Gather, DataBlocks, InodeOk, Content, InTables, StartBlock, EndBlock, StartByte, InodeFits, StoreOk;
    FitsToo(st, n);
    ReadsOf(st, n, offset, size, buf);
    ContentLength(st, n);
    var r, part := ReadBytes(st, n, offset, size, buf), PartIn(Content(st, n), offset, size);
    forall q | 0 <= q < |part| ensures r[q] == part[q] {
      ReadAt(st, n, offset, size, buf, q);
    }
  }

  /** The block that an inode names as its block `j`, in use or not. */
  function NamedBlock(st: Store, n: Inode, j: nat): nat
    requires StoreOk(st) && InodeFits(n) && j < DIRECT_BLOCK + MAX_INDIRECT_BLOCK
  {
    if j < DIRECT_BLOCK then n.direct[j] else Words(st.disk, n.indirect)[j - DIRECT_BLOCK]
  }

  /** Byte `q` of what `file_read` prints is the one in the block named for it, whoever owns that block. */
  lemma ReadNamed(st: Store, n: Inode, offset: nat, size: nat, buf: Block, q: nat)
    requires StoreOk(st) && InodeFits(n) && InTables(offset, size) && BlockOk(buf) && q < size
    ensures (offset + q) / BLOCK_SIZE < DIRECT_BLOCK + MAX_INDIRECT_BLOCK
    ensures var b := NamedBlock(st, n, (offset + q) / BLOCK_SIZE);
      b < MAX_BLOCK ==>
        && |ReadBytes(st, n, offset, size, buf)| == size && |st.disk[b]| == BLOCK_SIZE
        && ReadBytes(st, n, offset, size, buf)[q] == st.disk[b][(offset + q) % BLOCK_SIZE]
  {
    hide Touched, Words, Gather, InTables, StartBlock, EndBlock, StartByte, NamedBlock;
    var i, j := Locate(offset, size, q);
    Quotient(offset + q, i, j);
    TouchedNamed(st, n, offset, size, i);
    ReadsOf(st, n, offset, size, buf);
    var a, bs := StartBlock(offset), Touched(st, n, offset, size);
    if NamedBlock(st, n, i) < MAX_BLOCK { GatherAt(st.disk, bs, buf, i - a, j); }
  }

  lemma ReadsOf(st: Store, n: Inode, offset: nat, size: nat, buf: Block)
    requires StoreOk(st) && InodeFits(n) && InTables(offset, size) && BlockOk(buf)
    ensures |n.direct| == DIRECT_BLOCK && n.indirect < MAX_BLOCK && |st.disk| == MAX_BLOCK && DiskOk(st.disk)
    ensures var all := Gather(st.disk, Touched(st, n, offset, size), buf);
      && StartByte(offset) + size <= |all|
      && ReadBytes(st, n, offset, size, buf) == all[StartByte(offset)..StartByte(offset) + size]
  {
    GatherLength(st.disk, Touched(st, n, offset, size), buf);
    hide Touched, Gather;
    assert StartByte(offset) + size <= |Gather(st.disk, Touched(st, n, offset, size), buf)|;
  }

  lemma Quotient(p: nat, i: nat, j: nat)
    requires p == BLOCK_SIZE * i + j && j < BLOCK_SIZE
    ensures p / BLOCK_SIZE == i && p % BLOCK_SIZE == j
  {
  }

  lemma TouchedNamed(st: Store, n: Inode, offset: nat, size: nat, i: nat)
    requires StoreOk(st) && InodeFits(n) && InTables(offset, size) && StartBlock(offset) <= i <= EndBlock(offset, size)
    ensures i < DIRECT_BLOCK + MAX_INDIRECT_BLOCK && i - StartBlock(offset) < |Touched(st, n, offset, size)|
    ensures Touched(st, n, offset, size)[i - StartBlock(offset)] == NamedBlock(st, n, i)
  {
    hide Words;
  }

  /** `file_cat` prints exactly the file's blocks. */
  lemma CatIsContent(st: Store, n: Inode)
    requires StoreOk(st) && InodeOk(st, n) && n.kind == File
    ensures CatBlocks(st, n) == DataBlocks(st, n)
  {
  }

  // ----- Creating -----

  lemma {:induction false} GatherChunks(d: seq<Block>, bs: seq<nat>, tmp: seq<Byte>, k: nat, buf: Block)
    requires BLOCK_SIZE * (k + |bs|) <= |tmp|
    requires forall i :: 0 <= i < |bs| ==> bs[i] < |d| && d[bs[i]] == Chunk(tmp, k + i)
    ensures Gather(d, bs, buf) == tmp[BLOCK_SIZE * k..BLOCK_SIZE * (k + |bs|)]
  {
    if bs != [] {
      var b := Fetch(d, bs[0], buf);
      assert b == Chunk(tmp, k + 0);
      forall i | 0 <= i < |bs[1..]| ensures d[bs[1..][i]] == Chunk(tmp, k + 1 + i) {
        assert d[bs[i + 1]] == Chunk(tmp, k + (i + 1));
      }
      GatherChunks(d, bs[1..], tmp, k + 1, b);
      Adjacent(tmp, BLOCK_SIZE * k, BLOCK_SIZE * (k + 1), BLOCK_SIZE * (k + |bs|));
    }
  }

  lemma Adjacent(s: seq<Byte>, a: nat, b: nat, c: nat)
    requires a <= b <= c <= |s|
    ensures s[a..b] + s[b..c] == s[a..c]
  {
  }

  lemma {:induction false} GatherConcat(d: seq<Block>, a: seq<nat>, b: seq<nat>, buf: Block)
    requires forall x :: x in a || x in b ==> x < |d|
    ensures Gather(d, a + b, buf) == Gather(d, a, buf) + Gather(d, b, buf)
  {
    if a == [] {
      assert a + b == b;
    } else {
      var c := Fetch(d, a[0], buf);
      assert (a + b)[1..] == a[1..] + b;
      assert forall x :: x in a[1..] ==> x in a;
      assert a[0] in a;
      GatherConcat(d, a[1..], b, c);
      GatherSame(d, d, b, c, buf);
    }
  }

  // ----- Writing -----

  /** Writing back what was read changes nothing, bad and repeated block numbers included. */
  lemma {:induction false} WriteBackUnchanged(d: seq<Block>, bs: seq<nat>, buf: Block)
    requires DiskOk(d) && BlockOk(buf)
    ensures |Gather(d, bs, buf)| == BLOCK_SIZE * |bs| && Scatter(d, bs, Gather(d, bs, buf)) == d
  {
    GatherLength(d, bs, buf);
    if bs != [] {
      var rest := |bs| - 1;
      WriteBackUnchanged(d, bs[..rest], buf);
      GatherSnoc(d, bs, buf);
    }
  }

  lemma {:induction false} GatherSnoc(d: seq<Block>, bs: seq<nat>, buf: Block)
    requires DiskOk(d) && BlockOk(buf) && bs != []
    ensures |Gather(d, bs, buf)| == BLOCK_SIZE * |bs|
    ensures var rest := |bs| - 1;
      && Gather(d, bs, buf)[..BLOCK_SIZE * rest] == Gather(d, bs[..rest], buf)
      && (bs[rest] < |d| ==> Gather(d, bs, buf)[BLOCK_SIZE * rest..] == d[bs[rest]])
  {
    GatherLength(d, bs, buf);
    if |bs| > 1 {
      var b, u := Fetch(d, bs[0], buf), bs[1..];
      GatherSnoc(d, u, b);
      assert bs[..|bs| - 1][1..] == u[..|u| - 1];
      GatherLength(d, u, b);
    } else {
      assert bs[..0] == [];
      assert bs[1..] == [];
    }
  }

  /** Where a piece goes when no later one overwrites it; other blocks keep what they held. */
  lemma {:induction false} ScatterAt(d: seq<Block>, bs: seq<nat>, data: seq<Byte>, i: nat)
    requires |data| == BLOCK_SIZE * |bs| && i < |bs| && bs[i] < |d|
    requires forall j :: i < j < |bs| ==> bs[j] != bs[i]
    ensures Scatter(d, bs, data)[bs[i]] == data[BLOCK_SIZE * i..BLOCK_SIZE * (i + 1)]
  {
    var rest := |bs| - 1;
    if i < rest {
      var front := data[..BLOCK_SIZE * rest];
      ScatterAt(d, bs[..rest], front, i);
      assert front[BLOCK_SIZE * i..BLOCK_SIZE * (i + 1)] == data[BLOCK_SIZE * i..BLOCK_SIZE * (i + 1)];
    }
  }

  lemma {:induction false} ScatterOthers(d: seq<Block>, bs: seq<nat>, data: seq<Byte>)
    requires |data| == BLOCK_SIZE * |bs| && DiskOk(d)
    ensures DiskOk(Scatter(d, bs, data))
    ensures forall b :: 0 <= b < |d| && b !in bs ==> Scatter(d, bs, data)[b] == d[b]
  {
    if bs != [] {
      var rest := |bs| - 1;
      ScatterOthers(d, bs[..rest], data[..BLOCK_SIZE * rest]);
      assert bs[rest] in bs;
      assert forall b :: b in bs[..rest] ==> b in bs;
    }
  }
}
