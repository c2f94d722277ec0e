/** The block file system (Project-4/fs.c, fs_util.c, disk.c) as functions of its state. */
module FileSystem {
  import opened Bits
  import opened Codec

  const MAX_BLOCK: nat := 4096
  const MAX_INODE: nat := 512
  const SMALL_FILE: nat := 5120
  const LARGE_FILE: nat := 70656
  const DIRECT_BLOCK: nat := 10
  const MAX_INDIRECT_BLOCK: nat := 128
  const METADATA_BLOCKS: nat := 131

  type Block = seq<Byte>

  datatype Kind = File | Directory

  /** `size` is in bytes, 1 for a directory. */
  datatype Inode = Inode(kind: Kind, size: nat, blockCount: nat, direct: seq<nat>, indirect: nat)

  /** The block map, its free counter, and the disk. */
  datatype Store = Store(used: seq<bool>, free: int, disk: seq<Block>)

  /** The globals of fs.c. `cur` is `curDir`, `scratch` is `inDirectBMap`. */
  datatype Fs = Fs(store: Store, inodeUsed: seq<bool>, freeInodes: int, inodes: seq<Inode>, cur: seq<Entry>,
                   curBlock: nat, scratch: seq<nat>)

  const DOT: Name := [46]
  const DOTDOT: Name := [46, 46]

  predicate BlockOk(b: Block) {
    |b| == BLOCK_SIZE
  }

  /** Everything has its size, and the counters are exact. */
  ghost predicate StoreOk(st: Store) {
    && |st.used| == |st.disk| == MAX_BLOCK && st.free == CountFree(st.used)
    && forall b :: 0 <= b < MAX_BLOCK ==> BlockOk(st.disk[b])
  }

  /** The block numbers an inode holds, in use or not, are on the disk. */
  predicate InodeFits(n: Inode) {
    |n.direct| == DIRECT_BLOCK && n.indirect < MAX_BLOCK && forall k :: 0 <= k < DIRECT_BLOCK ==>
      n.direct[k] < MAX_BLOCK
  }

  ghost predicate FsShape(s: Fs) {
    && StoreOk(s.store)
    && |s.inodeUsed| == |s.inodes| == MAX_INODE && s.freeInodes == CountFree(s.inodeUsed)
    && (forall i :: 0 <= i < MAX_INODE ==> InodeFits(s.inodes[i]))
    && EntriesOk(s.cur) && s.cur != [] && s.cur[0].inode < MAX_INODE
    && |s.scratch| == MAX_INDIRECT_BLOCK && WordsOk(s.scratch)
  }

  function Ceil(size: nat): nat {
    size / BLOCK_SIZE + if size % BLOCK_SIZE > 0 then 1 else 0
  }

  /** `disk_write` */
  function Put(st: Store, b: nat, data: Block): Store
    requires b < |st.disk|
  {
    st.(disk := st.disk[b := data])
  }

  /** `disk_read` into a buffer holding `buf`: a bad block number leaves the buffer alone. */
  function Fetch(disk: seq<Block>, b: nat, buf: Block): Block {
    if b < |disk| then disk[b] else buf
  }

  /** `get_free_block` when there is one. */
  function TakeBlock(st: Store): (r: (nat, Store))
    requires StoreOk(st) && st.free > 0
    ensures r.0 < MAX_BLOCK && !st.used[r.0] && StoreOk(r.1) && r.1.free == st.free - 1
    ensures r.1.used == st.used[r.0 := true] && r.1.disk == st.disk
    ensures forall b :: 0 <= b < r.0 ==> st.used[b]
  {
    FreeExists(st.used);
    var b := LowestFree(st.used);
    CountFreeUpdate(st.used, b, true);
    (b, st.(used := st.used[b := true], free := st.free - 1))
  }

  function Chunk(tmp: seq<Byte>, i: nat): Block
    requires BLOCK_SIZE * (i + 1) <= |tmp|
  {
    tmp[BLOCK_SIZE * i..BLOCK_SIZE * (i + 1)]
  }

  predicate Fresh(bs: seq<nat>, used: seq<bool>)
    requires |used| == MAX_BLOCK
  {
    && (forall i, j :: 0 <= i < j < |bs| ==> bs[i] != bs[j])
    && (forall i :: 0 <= i < |bs| ==> bs[i] < MAX_BLOCK && !used[bs[i]])
  }

  /** The allocation loops of `file_create`: `n` free blocks, block `i` holding piece `k + i` of `tmp`. */
  function Grab(st: Store, n: nat, tmp: seq<Byte>, k: nat): (r: (seq<nat>, Store))
    requires StoreOk(st) && st.free >= n && BLOCK_SIZE * (k + n) <= |tmp|
    ensures |r.0| == n && Fresh(r.0, st.used)
    ensures StoreOk(r.1) && r.1.free == st.free - n
    ensures forall b :: 0 <= b < MAX_BLOCK ==> (r.1.used[b] <==> st.used[b] || b in r.0)
    ensures forall b :: 0 <= b < MAX_BLOCK && b !in r.0 ==> r.1.disk[b] == st.disk[b]
    ensures forall i :: 0 <= i < n ==> r.1.disk[r.0[i]] == Chunk(tmp, k + i)
  {
    if n == 0 then ([], st)
    else
      hide TakeBlock, StoreOk, Fresh, Chunk;
      var (bs, t) := Grab(st, n - 1, tmp, k);
      GrabOne(st, bs, t, tmp, k);
      var (b, u) := TakeBlock(t);
      (bs + [b], Put(u, b, Chunk(tmp, k + n - 1)))
  }

  lemma GrabOne(st: Store, bs: seq<nat>, t: Store, tmp: seq<Byte>, k: nat)
    requires StoreOk(st) && StoreOk(t) && t.free > 0 && BLOCK_SIZE * (k + |bs| + 1) <= |tmp| && Fresh(bs, st.used)
    requires forall b :: 0 <= b < MAX_BLOCK ==> (t.used[b] <==> st.used[b] || b in bs)
    requires forall b :: 0 <= b < MAX_BLOCK && b !in bs ==> t.disk[b] == st.disk[b]
    requires forall i :: 0 <= i < |bs| ==> t.disk[bs[i]] == Chunk(tmp, k + i)
    ensures var (b, u) := TakeBlock(t); b < |u.disk| && |u.disk| == |u.used| == MAX_BLOCK == |st.used| == |st.disk|
    ensures var (b, u) := TakeBlock(t); var w, cs := Put(u, b, Chunk(tmp, k + |bs|)), bs + [b];
      && Fresh(cs, st.used) && StoreOk(w) && w.free == t.free - 1
      && (forall b :: 0 <= b < MAX_BLOCK ==> (w.used[b] <==> st.used[b] || b in cs))
      && (forall b :: 0 <= b < MAX_BLOCK && b !in cs ==> w.disk[b] == st.disk[b])
      && (forall i :: 0 <= i < |cs| ==> w.disk[cs[i]] == Chunk(tmp, k + i))
  {
    hide TakeBlock, CountFree, Chunk;
    var b := TakeBlock(t).0;
    assert BlockOk(Chunk(tmp, k + |bs|)) by { ChunkOk(tmp, k + |bs|); }
    assert b !in bs;
  }

  lemma ChunkOk(tmp: seq<Byte>, i: nat)
    requires BLOCK_SIZE * (i + 1) <= |tmp|
    ensures BlockOk(Chunk(tmp, i))
  {
  }

  // ----- Names -----

  /** `search_cur_dir` */
  function Find(es: seq<Entry>, name: Name): int {
    if es == [] then -1 else if es[0].name == name then es[0].inode else Find(es[1..], name)
  }

  predicate DirFull(es: seq<Entry>) {
    |es| + 1 >= MAX_DIR_ENTRY
  }

  // ----- Creating -----

  /** `file_create_small_helper`; `tmp` is the memory at the data pointer, which may go on past the data. */
  function CreateSmall(s: Fs, name: Name, size: nat, tmp: seq<Byte>): (int, Fs)
    requires FsShape(s) && size < SMALL_FILE && BLOCK_SIZE * Ceil(size) <= |tmp|
  {
    var n := Ceil(size);
    if Find(s.cur, name) >= 0 then (-1, s)
    else if DirFull(s.cur) then (-1, s)
    else if n > s.store.free then (-1, s)
    else if s.freeInodes < 1 then (-1, s)
    else
      FreeExists(s.inodeUsed);
      var ino := LowestFree(s.inodeUsed);
      var (bs, st) := Grab(s.store, n, tmp, 0);
      (ino as int, s.(store := st, inodeUsed := s.inodeUsed[ino := true], freeInodes := s.freeInodes - 1,
               inodes := s.inodes[ino := Inode(File, size, n, bs + s.inodes[ino].direct[n..], s.inodes[ino].indirect)],
               cur := s.cur + [Entry(name, ino)]))
  }

  /** `file_create_large_helper`: the map block first, then the data blocks, then the map is written. */
  function CreateLarge(s: Fs, ino: nat, size: nat, tmp: seq<Byte>): (int, Fs)
    requires FsShape(s) && ino < MAX_INODE && Ceil(size) <= MAX_INDIRECT_BLOCK
    requires BLOCK_SIZE * (DIRECT_BLOCK + Ceil(size)) <= |tmp|
  {
    var n := Ceil(size);
    if n + 1 > s.store.free then (-1, s)
    else
      var (indirect, t) := TakeBlock(s.store);
      var (bs, u) := Grab(t, n, tmp, DIRECT_BLOCK);
      var table := bs + s.scratch[n..];
      var inode := s.inodes[ino];
      (0, s.(store := Put(u, indirect, EncWords(table)), scratch := table,
             inodes := s.inodes[ino := inode.(size := inode.size + size, blockCount := inode.blockCount + n,
                                             indirect := indirect)]))
  }

  /** The part of a new file that `file_create` gives to the small helper. */
  function First(size: nat): (n: nat)
    ensures n < SMALL_FILE && n <= size
  {
    if size >= SMALL_FILE then SMALL_FILE - 1 else size
  }

  /** How many blocks the data of a new file takes. */
  function BlocksFor(size: nat): nat {
    Ceil(First(size)) + Ceil(size - First(size))
  }

  /** The split in `file_create` stays in range: at most 10 direct and 128 indirect blocks. */
  lemma SplitInRange(size: nat)
    requires size < LARGE_FILE
    ensures Ceil(First(size)) <= DIRECT_BLOCK && Ceil(size - First(size)) <= MAX_INDIRECT_BLOCK
    ensures size < SMALL_FILE ==> First(size) == size && Ceil(size - First(size)) == 0
    ensures size >= SMALL_FILE ==>
      First(size) == SMALL_FILE - 1 && Ceil(First(size)) == DIRECT_BLOCK && 1 <= Ceil(size - First(size))
    ensures BLOCK_SIZE * BlocksFor(size) >= size
  {
  }

  /** `blockCount` rounds up below 5120 bytes, and is one more than the whole blocks from there on; the small
      helper gets at most 5119 bytes. */
  lemma BlockCountIs(size: nat)
    ensures BlocksFor(size) == if size < 5120 then (size + 511) / 512 else size / 512 + 1
    ensures First(size) == (if size < 5120 then size else 5119) && Ceil(size) == (size + 511) / 512
  {
  }

  /** `file_create`. The result of the large half is not looked at, nor that of a small creation. */
  function FileCreate(s: Fs, name: Name, size: nat, tmp: seq<Byte>): (int, Fs)
    requires FsShape(s) && NameOk(name) && (size < LARGE_FILE ==> BLOCK_SIZE * BlocksFor(size) <= |tmp|)
  {
    if size >= LARGE_FILE then (-1, s)
    else
      SplitInRange(size);
      var (ino, t) := CreateSmall(s, name, First(size), tmp);
      if size < SMALL_FILE then (0, t)
      else if ino < 0 then (-1, t)
      else
        CreateSmallShape(s, name, First(size), tmp);
        (0, CreateLarge(t, ino, size - First(size), tmp).1)
  }

  lemma CreateSmallShape(s: Fs, name: Name, size: nat, tmp: seq<Byte>)
    requires FsShape(s) && NameOk(name) && size < SMALL_FILE && BLOCK_SIZE * Ceil(size) <= |tmp|
    ensures FsShape(CreateSmall(s, name, size, tmp).1) && CreateSmall(s, name, size, tmp).0 < MAX_INODE
  {
    if CreateSmall(s, name, size, tmp).0 >= 0 {
      FreeExists(s.inodeUsed);
      CountFreeUpdate(s.inodeUsed, LowestFree(s.inodeUsed), true);
    }
  }

  /** `dir_make` */
  function DirMake(s: Fs, name: Name): (int, Fs)
    requires FsShape(s)
  {
    if Find(s.cur, name) >= 0 then (-1, s)
    else if DirFull(s.cur) then (-1, s)
    else if s.freeInodes < 1 then (-1, s)
    else if s.store.free < 1 then (-1, s)
    else
      FreeExists(s.inodeUsed);
      var ino := LowestFree(s.inodeUsed);
      var (b, st) := TakeBlock(s.store);
      var sub := [Entry(DOT, ino), Entry(DOTDOT, s.cur[0].inode)];
      (0, s.(store := Put(st, b, EncDir(sub)), inodeUsed := s.inodeUsed[ino := true], freeInodes := s.freeInodes - 1,
             inodes := s.inodes[ino := Inode(Directory, 1, 1, s.inodes[ino].direct[0 := b], s.inodes[ino].indirect)],
             cur := s.cur + [Entry(name, ino)]))
  }

  /** `dir_change`: the current listing is written back before the name is looked up. */
  function DirChange(s: Fs, name: Name): (int, Fs)
    requires FsShape(s) && Find(s.cur, name) < MAX_INODE
  {
    var t := s.(store := Put(s.store, s.inodes[s.cur[0].inode].direct[0], EncDir(s.cur)));
    var n := Find(s.cur, name);
    if n < 0 then (-1, t)
    else if s.inodes[n].kind == File then (-1, t)
    else (0, t.(cur := DecDir(t.store.disk[s.inodes[n].direct[0]])))
  }

  // ----- Reading and writing -----

  /** The read loops: blocks fetched one after another into a buffer first holding `buf`. */
  function Gather(disk: seq<Block>, bs: seq<nat>, buf: Block): seq<Byte> {
    if bs == [] then [] else var b := Fetch(disk, bs[0], buf); b + Gather(disk, bs[1..], b)
  }

  function Words(disk: seq<Block>, b: nat): (w: seq<nat>)
    requires b < |disk| && BlockOk(disk[b])
    ensures |w| == MAX_INDIRECT_BLOCK
  {
    DecWords(disk[b], MAX_INDIRECT_BLOCK)
  }

  /** What `file_cat` needs of an inode: its blocks fit the tables the size sends it to. */
  predicate CatFits(n: Inode) {
    if n.size >= SMALL_FILE then DIRECT_BLOCK <= n.blockCount <= DIRECT_BLOCK + MAX_INDIRECT_BLOCK
    else n.blockCount <= DIRECT_BLOCK
  }

  /** `file_cat` and its helper: the blocks they print, chosen by the file's size. */
  function CatBlocks(st: Store, n: Inode): seq<nat>
    requires StoreOk(st) && |n.direct| == DIRECT_BLOCK && n.indirect < MAX_BLOCK
    requires CatFits(n)
  {
    if n.size >= SMALL_FILE then n.direct + Words(st.disk, n.indirect)[..n.blockCount - DIRECT_BLOCK]
    else n.direct[..n.blockCount]
  }

  function StartBlock(offset: nat): nat { offset / BLOCK_SIZE }

  /** Where in its first block a range starts. */
  function StartByte(offset: nat): nat { offset % BLOCK_SIZE }

  function EndBlock(offset: nat, size: nat): nat { (offset + size) / BLOCK_SIZE }

  /** The requests for which the code stays inside its buffers and tables. */
  predicate InTables(offset: nat, size: nat) {
    EndBlock(offset, size) >= DIRECT_BLOCK ==>
      StartBlock(offset) <= DIRECT_BLOCK && EndBlock(offset, size) < DIRECT_BLOCK + MAX_INDIRECT_BLOCK
  }

  /** The blocks `file_read` and `file_write` touch: both ends of the range included. */
  function Touched(st: Store, n: Inode, offset: nat, size: nat): seq<nat>
    requires StoreOk(st) && |n.direct| == DIRECT_BLOCK && n.indirect < MAX_BLOCK && InTables(offset, size)
  {
    var a, b := StartBlock(offset), EndBlock(offset, size);
    if b < DIRECT_BLOCK then n.direct[a..b + 1]
    else n.direct[a..] + Words(st.disk, n.indirect)[..b + 1 - DIRECT_BLOCK]
  }

  /** `file_read` of a file: `buf` is what the block buffer held. */
  function ReadBytes(st: Store, n: Inode, offset: nat, size: nat, buf: Block): seq<Byte>
    requires StoreOk(st) && |n.direct| == DIRECT_BLOCK
    requires n.indirect < MAX_BLOCK && InTables(offset, size) && BlockOk(buf)
  {
    var bs := Touched(st, n, offset, size);
    GatherLength(st.disk, bs, buf);
    assert StartByte(offset) + size <= BLOCK_SIZE * |bs|;
    Gather(st.disk, bs, buf)[StartByte(offset)..StartByte(offset) + size]
  }

  lemma {:induction false} GatherLength(disk: seq<Block>, bs: seq<nat>, buf: Block)
    requires BlockOk(buf) && forall b :: 0 <= b < |disk| ==> BlockOk(disk[b])
    ensures |Gather(disk, bs, buf)| == BLOCK_SIZE * |bs|
  {
    if bs != [] {
      GatherLength(disk, bs[1..], Fetch(disk, bs[0], buf));
    }
  }

  /** The write-back loops: piece `i` of `data` goes to block `bs[i]`; bad block numbers are skipped. */
  function Scatter(disk: seq<Block>, bs: seq<nat>, data: seq<Byte>): (d: seq<Block>)
    requires |data| == BLOCK_SIZE * |bs|
    ensures |d| == |disk|
  {
    if bs == [] then disk
    else
      var rest := |bs| - 1;
      var d := Scatter(disk, bs[..rest], data[..BLOCK_SIZE * rest]);
      if bs[rest] < |d| then d[bs[rest] := data[BLOCK_SIZE * rest..]] else d
  }

  /** `memcpy` of `buf` to position `at` of `data`, as far as `data` goes. */
  function Overlaid(data: seq<Byte>, at: nat, buf: seq<Byte>): (r: seq<Byte>)
    ensures |r| == |data|
  {
    seq(|data|, p requires 0 <= p < |data| => if at <= p < at + |buf| then buf[p - at] else data[p])
  }

  datatype Outcome = NoSuchFile | WrongSize | Done

  /** `file_write`. For ranges that end in the direct blocks the buffer is overlaid before the blocks
      are written back; the helper for longer ranges writes them back first. */
  function FileWrite(s: Fs, name: Name, offset: nat, size: nat, buf: seq<Byte>, junk: Block): (Outcome, Fs)
    requires FsShape(s) && BlockOk(junk) && Find(s.cur, name) < MAX_INODE
    requires Find(s.cur, name) >= 0 ==> InTables(offset, size)
  {
    var n := Find(s.cur, name);
    if n < 0 then (NoSuchFile, s)
    else if size != |buf| then (WrongSize, s)
    else
      var bs := Touched(s.store, s.inodes[n], offset, size);
      var data := Gather(s.store.disk, bs, junk);
      GatherLength(s.store.disk, bs, junk);
      assert StartByte(offset) + size <= BLOCK_SIZE * |bs|;
      var written := if EndBlock(offset, size) < DIRECT_BLOCK then Overlaid(data, StartByte(offset), buf) else data;
      (Done, s.(store := s.store.(disk := Scatter(s.store.disk, bs, written))))
  }

  /** What the read commands print, or -1. */
  datatype Answer = Failed | Printed(bytes: seq<Byte>)

  /** `file_read` */
  function FileRead(s: Fs, name: Name, offset: nat, size: nat, buf: Block): Answer
    requires FsShape(s) && BlockOk(buf) && Find(s.cur, name) < MAX_INODE
    requires var n := Find(s.cur, name); n >= 0 && s.inodes[n].kind != Directory ==> InTables(offset, size)
  {
    var n := Find(s.cur, name);
    if n < 0 || s.inodes[n].kind == Directory then Failed
      else Printed(ReadBytes(s.store, s.inodes[n], offset, size, buf))
  }

  /** `file_cat` */
  function FileCat(s: Fs, name: Name, buf: Block): Answer
    requires FsShape(s) && BlockOk(buf) && Find(s.cur, name) < MAX_INODE
    requires var n := Find(s.cur, name); n >= 0 && s.inodes[n].kind != Directory ==> CatFits(s.inodes[n])
  {
    var n := Find(s.cur, name);
    if n < 0 || s.inodes[n].kind == Directory then Failed
    else Printed(Gather(s.store.disk, CatBlocks(s.store, s.inodes[n]), buf))
  }

  // ----- A new file system -----

  /** The globals of a program that has just started: the metadata blocks are marked, the disk is zeros. */
  function Blank(): Fs {
    Fs(Store(seq(MAX_BLOCK, b => b < METADATA_BLOCKS), MAX_BLOCK - METADATA_BLOCKS,
             seq(MAX_BLOCK, b => Zeros(BLOCK_SIZE))),
       seq(MAX_INODE, i => false), MAX_INODE, seq(MAX_INODE, i => Inode(File, 0, 0, seq(DIRECT_BLOCK, k => 0), 0)),
       [], 0, seq(MAX_INDIRECT_BLOCK, k => 0))
  }

  lemma {:induction false} CountFreeMarked(n: nat, m: nat)
    requires m <= n
    ensures CountFree(seq(n, b => b < m)) == n - m
  {
    var s := seq(n, b => b < m);
    if n > m {
      assert s[..n - 1] == seq(n - 1, b => b < m);
      CountFreeMarked(n - 1, m);
    } else if n > 0 {
      assert forall b :: 0 <= b < n ==> s[b];
      CountFreeFull(s);
    }
  }

  lemma {:induction false} CountFreeFull(s: seq<bool>)
    requires forall b :: 0 <= b < |s| ==> s[b]
    ensures CountFree(s) == 0
  {
    if s != [] { CountFreeFull(s[..|s| - 1]); }
  }

  lemma BlankShape()
    ensures StoreOk(Blank().store) && Blank().freeInodes == CountFree(Blank().inodeUsed)
    ensures LowestFree(Blank().inodeUsed) == 0
  {
    var m, z := METADATA_BLOCKS, 0;
    var n, i := MAX_BLOCK, MAX_INODE;
    CountFreeMarked(n, m);
    CountFreeMarked(i, z);
    assert Blank().inodeUsed == seq(i, b => b < z);
    assert !Blank().inodeUsed[0];
  }

  /** `fs_mount` of a disk that does not exist yet: a root directory that holds itself. */
  function FirstMount(): Fs {
    var s := Blank();
    BlankShape();
    var ino := LowestFree(s.inodeUsed);
    var (b, st) := TakeBlock(s.store);
    var root := [Entry(DOT, ino)];
    s.(store := Put(st, b, EncDir(root)), inodeUsed := s.inodeUsed[ino := true], freeInodes := s.freeInodes - 1,
       inodes := s.inodes[ino := s.inodes[ino].(kind := Directory, size := 1, blockCount := 1,
         direct := s.inodes[ino].direct[0 := b])],
       cur := root, curBlock := b)
  }
}
