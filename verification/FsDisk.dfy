/** Project-4/fs.c and fs_util.c on their arrays: every function leaves the state that the function of
    the same name in `FileSystem` or `FsRemove` gives. */
module FsDisk {
  import opened Bits
  import opened Codec
  import opened FileSystem
  import opened FsRefinement
  import opened FsRemove
  import opened FsRuns
  import opened FsMount

  // ----- Shapes -----

  lemma PutOk(st: Store, b: nat, data: Block)
    requires StoreOk(st) && b < MAX_BLOCK && BlockOk(data)
    ensures StoreOk(Put(st, b, data))
  {
  }

  lemma ShapeStore(s: Fs, st: Store)
    requires FsShape(s) && StoreOk(st)
    ensures FsShape(s.(store := st))
  {
  }

  lemma ShapeInode(s: Fs, k: nat, n: Inode)
    requires FsShape(s) && k < MAX_INODE && InodeFits(n)
    ensures FsShape(s.(inodes := s.inodes[k := n]))
  {
  }

  lemma ShapeTaken(s: Fs, k: nat, used: bool, free: int)
    requires FsShape(s) && k < MAX_INODE
    requires free == s.freeInodes + (if s.inodeUsed[k] then 1 else 0) - if used then 1 else 0
    ensures FsShape(s.(inodeUsed := s.inodeUsed[k := used], freeInodes := free))
  {
    CountFreeUpdate(s.inodeUsed, k, used);
  }

  lemma ShapeCur(s: Fs, cur: seq<Entry>)
    requires FsShape(s) && EntriesOk(cur) && cur != [] && cur[0].inode < MAX_INODE
    ensures FsShape(s.(cur := cur))
  {
  }

  lemma ShapeScratch(s: Fs, w: seq<nat>)
    requires FsShape(s) && |w| == MAX_INDIRECT_BLOCK && WordsOk(w)
    ensures FsShape(s.(scratch := w))
  {
  }

  lemma TooLarge(s: Fs, name: Name, size: nat, tmp: seq<Byte>)
    requires FsShape(s) && NameOk(name) && size >= LARGE_FILE
    ensures FileCreate(s, name, size, tmp) == (-1, s)
  {
  }

  lemma SmallIsWhole(size: nat)
    ensures size < SMALL_FILE ==> First(size) == size
  {
  }

  // ----- Loops, as functions -----

  /** `file_create_small_helper` with `i` of the `n` blocks in place. */
  function Filling(s: Fs, k: nat, name: Name, size: nat, n: nat, tmp: seq<Byte>, i: nat): Fs
    requires FsShape(s) && k < MAX_INODE && i <= n <= DIRECT_BLOCK && n <= s.store.free && BLOCK_SIZE * n <= |tmp|
  {
    var (bs, st) := Grab(s.store, i, tmp, 0);
    s.(store := st, inodeUsed := s.inodeUsed[k := true], freeInodes := s.freeInodes - 1,
       inodes := s.inodes[k := Inode(File, size, n, bs + s.inodes[k].direct[i..], s.inodes[k].indirect)],
       cur := s.cur + [Entry(name, k)])
  }

  lemma FillStep(s: Fs, k: nat, name: Name, size: nat, n: nat, tmp: seq<Byte>, i: nat)
    requires FsShape(s) && k < MAX_INODE && i < n <= DIRECT_BLOCK && n <= s.store.free && BLOCK_SIZE * n <= |tmp|
    ensures var f := Filling(s, k, name, size, n, tmp, i); var x := f.inodes[k];
      && StoreOk(f.store) && f.store.free > 0 && |x.direct| == DIRECT_BLOCK
      && var (b, u) := TakeBlock(f.store);
        Filling(s, k, name, size, n, tmp, i + 1)
        == f.(store := Put(u, b, Chunk(tmp, i)), inodes := f.inodes[k := x.(direct := x.direct[i := b])])
  {
    hide Chunk, TakeBlock;
    var f, d := Filling(s, k, name, size, n, tmp, i), s.inodes[k].direct;
    var bs, b := Grab(s.store, i, tmp, 0).0, TakeBlock(f.store).0;
    assert (bs + d[i..])[i := b] == (bs + [b]) + d[i + 1..];
  }

  lemma FillStart(s: Fs, k: nat, name: Name, size: nat, n: nat, tmp: seq<Byte>)
    requires FsShape(s) && k < MAX_INODE && n <= DIRECT_BLOCK && n <= s.store.free && BLOCK_SIZE * n <= |tmp|
    ensures Filling(s, k, name, size, n, tmp, 0)
         == s.(inodeUsed := s.inodeUsed[k := true], freeInodes := s.freeInodes - 1,
               inodes := s.inodes[k := s.inodes[k].(kind := File, size := size, blockCount := n)],
                 cur := s.cur + [Entry(name, k)])
  {
    assert [] + s.inodes[k].direct[0..] == s.inodes[k].direct;
  }

  lemma Filled(s: Fs, name: Name, size: nat, tmp: seq<Byte>)
    requires FsShape(s) && size < SMALL_FILE && BLOCK_SIZE * Ceil(size) <= |tmp|
    requires Find(s.cur, name) < 0 && !DirFull(s.cur) && Ceil(size) <= s.store.free && s.freeInodes >= 1
    ensures Ceil(size) <= DIRECT_BLOCK
    ensures var k := LowestFree(s.inodeUsed);
      k < MAX_INODE && CreateSmall(s, name, size, tmp) == (k, Filling(s, k, name, size, Ceil(size), tmp, Ceil(size)))
  {
    SplitInRange(size);
    FreeExists(s.inodeUsed);
    hide Ceil, Grab;
  }

  /** `file_create_large_helper` with `i` of the data blocks in place. */
  function FillingMap(s: Fs, tmp: seq<Byte>, i: nat): Fs
    requires FsShape(s) && i <= MAX_INDIRECT_BLOCK && i + 1 <= s.store.free
    requires BLOCK_SIZE * (DIRECT_BLOCK + i) <= |tmp|
  {
    var (bs, st) := Grab(TakeBlock(s.store).1, i, tmp, DIRECT_BLOCK);
    s.(store := st, scratch := bs + s.scratch[i..])
  }

  lemma FillMapStep(s: Fs, tmp: seq<Byte>, i: nat)
    requires FsShape(s) && i < MAX_INDIRECT_BLOCK && i + 2 <= s.store.free
    requires BLOCK_SIZE * (DIRECT_BLOCK + i + 1) <= |tmp|
    ensures var f := FillingMap(s, tmp, i);
      && StoreOk(f.store) && f.store.free > 0 && |f.scratch| == MAX_INDIRECT_BLOCK
      && var (b, u) := TakeBlock(f.store);
        FillingMap(s, tmp, i + 1) == f.(store := Put(u, b, Chunk(tmp, DIRECT_BLOCK + i)), scratch := f.scratch[i := b])
  {
    hide Chunk, TakeBlock;
    var f := FillingMap(s, tmp, i);
    var bs, b := Grab(TakeBlock(s.store).1, i, tmp, DIRECT_BLOCK).0, TakeBlock(f.store).0;
    assert (bs + s.scratch[i..])[i := b] == (bs + [b]) + s.scratch[i + 1..];
  }

  lemma MapFilled(s: Fs, ino: nat, size: nat, tmp: seq<Byte>)
    requires FsShape(s) && ino < MAX_INODE && Ceil(size) <= MAX_INDIRECT_BLOCK && Ceil(size) + 1 <= s.store.free
    requires BLOCK_SIZE * (DIRECT_BLOCK + Ceil(size)) <= |tmp|
    ensures var n, m, x := Ceil(size), TakeBlock(s.store).0, s.inodes[ino]; var f := FillingMap(s, tmp, n);
      && StoreOk(f.store) && WordsOk(f.scratch) && |f.scratch| == MAX_INDIRECT_BLOCK
      && CreateLarge(s, ino, size, tmp) == (0, f.(store := Put(f.store, m, EncWords(f.scratch)),
           inodes := s.inodes[ino := x.(size := x.size + size, blockCount := x.blockCount + n, indirect := m)]))
    ensures FillingMap(s, tmp, 0) == s.(store := TakeBlock(s.store).1)
  {
    hide Ceil, TakeBlock, EncWords, Chunk, WordsOk;
    FillingMapOk(s, tmp, Ceil(size));
    assert [] + s.scratch[0..] == s.scratch;
  }

  lemma FillingMapOk(s: Fs, tmp: seq<Byte>, n: nat)
    requires FsShape(s) && n <= MAX_INDIRECT_BLOCK && n + 1 <= s.store.free
    requires BLOCK_SIZE * (DIRECT_BLOCK + n) <= |tmp|
    ensures var f := FillingMap(s, tmp, n); StoreOk(f.store) && WordsOk(f.scratch) && |f.scratch| == MAX_INDIRECT_BLOCK
  {
    hide TakeBlock, Chunk, Grab;
    var f, bs := FillingMap(s, tmp, n), Grab(TakeBlock(s.store).1, n, tmp, DIRECT_BLOCK).0;
    assert forall i :: 0 <= i < n ==> f.scratch[i] == bs[i];
    assert forall i :: n <= i < MAX_INDIRECT_BLOCK ==> f.scratch[i] == s.scratch[i];
  }

  // ----- Reading and writing loops -----

  /** What is left in the block buffer after a reading loop. */
  function LastFetched(disk: seq<Block>, bs: seq<nat>, buf: Block): Block {
    if bs == [] then buf else LastFetched(disk, bs[1..], Fetch(disk, bs[0], buf))
  }

  lemma {:induction false} GatherAppend(d: seq<Block>, a: seq<nat>, b: seq<nat>, buf: Block)
    ensures Gather(d, a + b, buf) == Gather(d, a, buf) + Gather(d, b, LastFetched(d, a, buf))
    ensures LastFetched(d, a + b, buf) == LastFetched(d, b, LastFetched(d, a, buf))
  {
    if a == [] {
      assert a + b == b;
    } else {
      assert (a + b)[1..] == a[1..] + b;
      GatherAppend(d, a[1..], b, Fetch(d, a[0], buf));
    }
  }

  lemma GatherNext(d: seq<Block>, table: seq<nat>, lo: nat, i: nat, buf: Block)
    requires lo <= i < |table|
    ensures var b := Fetch(d, table[i], LastFetched(d, table[lo..i], buf));
      Gather(d, table[lo..i + 1], buf) == Gather(d, table[lo..i], buf) + b && LastFetched(d, table[lo..i + 1], buf) == b
  {
    SnocSlice(table, lo, i);
    GatherAppend(d, table[lo..i], [table[i]], buf);
    var b := Fetch(d, table[i], LastFetched(d, table[lo..i], buf));
    assert Gather(d, [table[i]], LastFetched(d, table[lo..i], buf)) == b + Gather(d, [], b) == b;
  }

  lemma SnocSlice(s: seq<nat>, lo: nat, i: nat)
    requires lo <= i < |s|
    ensures s[lo..i + 1] == s[lo..i] + [s[i]]
  {
  }

  lemma SlicesOfSlices(data: seq<Byte>, m: nat, k: nat)
    requires m + k <= |data|
    ensures data[..m + k][..m] == data[..m] && data[..m + k][m..] == data[m..][..k] && data[m + k..] == data[m..][k..]
  {
  }

  lemma {:induction false} ScatterAppend(d: seq<Block>, a: seq<nat>, b: seq<nat>, data: seq<Byte>)
    requires |data| == BLOCK_SIZE * |a + b|
    ensures var m := BLOCK_SIZE * |a|;
      Scatter(d, a + b, data) == Scatter(Scatter(d, a, data[..m]), b, data[m..])
  {
    var m, e := BLOCK_SIZE * |a|, Scatter(d, a, data[..BLOCK_SIZE * |a|]);
    if b == [] {
      assert a + b == a && data[..m] == data;
    } else {
      var r := |b| - 1;
      var rest := BLOCK_SIZE * (|a| + r);
      assert (a + b)[..|a| + r] == a + b[..r];
      ScatterAppend(d, a, b[..r], data[..rest]);
      SlicesOfSlices(data, m, BLOCK_SIZE * r);
    }
  }

  lemma SplicedIs(data: seq<Byte>, at: nat, buf: seq<Byte>)
    requires at + |buf| <= |data|
    ensures data[..at] + buf + data[at + |buf|..] == Overlaid(data, at, buf)
  {
  }

  /** The touched blocks of a long range: direct entries, then entries of the map. */
  lemma TouchedSplit(st: Store, n: Inode, offset: nat, size: nat)
    requires StoreOk(st) && |n.direct| == DIRECT_BLOCK && n.indirect < MAX_BLOCK && InTables(offset, size)
    requires EndBlock(offset, size) >= DIRECT_BLOCK
    ensures Touched(st, n, offset, size)
         == n.direct[StartBlock(offset)..DIRECT_BLOCK]
            + Words(st.disk, n.indirect)[0..EndBlock(offset, size) + 1 - DIRECT_BLOCK]
  {
  }

  // ----- Mounting -----

  lemma FirstMountShape()
    ensures FsShape(FirstMount()) && |Blank().store.disk| == |Blank().store.used| == MAX_BLOCK
    ensures |Blank().inodeUsed| == MAX_INODE
    ensures |Blank().inodes| == MAX_INODE && |Blank().inodes[0].direct| == DIRECT_BLOCK
  {
    hide FirstMount;
    FirstMountRoot();
  }

  method FromSeq<T>(s: seq<T>) returns (a: array<T>)
    ensures fresh(a) && a[..] == s
  {
    a := new T[|s|](i requires 0 <= i < |s| => s[i]);
  }

  lemma MetaHead(s: Fs)
    requires FsShape(s) && Fits(s)
    ensures MetaWritten(s, 3) == s.store.disk[0 := SuperBlock(s.store.free, s.freeInodes)]
                                  [1 := Pack(s.inodeUsed) + Zeros(BLOCK_SIZE - MAX_INODE / 8)][2 := Pack(s.store.used)]
  {
    hide SuperBlock, Pack, TableBlock, FitsWords;
    assert MetaBlock(s, 0) == SuperBlock(s.store.free, s.freeInodes);
    assert MetaBlock(s, 1) == Pack(s.inodeUsed) + Zeros(BLOCK_SIZE - MAX_INODE / 8);
    assert MetaBlock(s, 2) == Pack(s.store.used);
  }

  lemma MetaStep(s: Fs, i: nat)
    requires FsShape(s) && Fits(s) && i < MAX_INODE / INODES_PER_BLOCK
    ensures MetaWritten(s, 3 + i + 1) == MetaWritten(s, 3 + i)[3 + i := TableBlock(s.inodes, i)]
  {
    hide MetaBlock;
    TableIs(s, i);
  }

  lemma TableIs(s: Fs, i: nat)
    requires FsShape(s) && Fits(s) && i < MAX_INODE / INODES_PER_BLOCK
    ensures MetaBlock(s, 3 + i) == TableBlock(s.inodes, i)
  {
  }

  lemma NothingSet(a: seq<Byte>)
    requires forall i :: 0 <= i < |a| ==> a[i] == 0
    ensures forall i :: 0 <= i < 8 * |a| ==> !Unpacked(a)[i]
  {
    forall i | 0 <= i < 8 * |a| ensures !Unpacked(a)[i] {
      NoBit(i % 8);
    }
  }

  lemma NoBit(k: int)
    requires 0 <= k < 8
    ensures !BitAt(0, k)
  {
  }

  /** The loop that sets up a map in which nothing is set: the first `m` of the `n` bits it goes through. */
  method InitMap(a: array<Byte>, n: nat, m: nat)
    requires n <= 8 * a.Length && forall b :: 0 <= b < 8 * a.Length ==> !Unpacked(a[..])[b]
    modifies a
    ensures forall b :: 0 <= b < 8 * a.Length ==> (Unpacked(a[..])[b] <==> b < n && b < m)
  {
    assert |Unpacked(a[..])| == 8 * a.Length;
    hide BitAt, Unpacked;
    for i := 0 to n
      invariant |Unpacked(a[..])| == 8 * a.Length
      invariant forall b :: 0 <= b < 8 * a.Length ==> (Unpacked(a[..])[b] <==> b < i && b < m)
    {
      if i < m { SetBit(a, i, 1); } else { SetBit(a, i, 0); }
    }
  }

  class FileSys {
    const inodeMap: array<Byte>
    const blockMap: array<Byte>
    const inodes: array<Inode>
    const disk: array<Block>
    const indirectMap: array<nat>
    var freeBlocks: int
    var freeInodes: int
    var cur: seq<Entry>
    var curBlock: nat
    ghost var state: Fs

    ghost predicate Apart() {
      var a: object, b: object, c: object, d: object, e: object := inodeMap, blockMap, inodes, disk, indirectMap;
      a != b && a != c && a != d && a != e && b != c && b != d && b != e && c != d && c != e && d != e
    }

    /** `state` is what the fields hold. */
    ghost predicate Holds()
      reads this, inodeMap, blockMap, inodes, disk, indirectMap
    {
      && Apart()
      && inodeMap.Length == MAX_INODE / 8 && blockMap.Length == MAX_BLOCK / 8
      && state == Fs(Store(Unpacked(blockMap[..]), freeBlocks, disk[..]), Unpacked(inodeMap[..]), freeInodes,
                     inodes[..], cur, curBlock, indirectMap[..])
    }

    /** And it has the shape the code relies on. */
    ghost predicate Valid()
      reads this, inodeMap, blockMap, inodes, disk, indirectMap
    {
      Holds() && FsShape(state)
    }

    lemma ShapeOfState()
      requires Valid()
      ensures FsShape(state)
    {
    }

    // ----- fs_util.c -----

    method GetFreeInode() returns (i: int)
      requires Valid()
      modifies this`freeInodes, this`state, inodeMap
      ensures Valid()
      ensures var s, k := old(state), LowestFree(old(state.inodeUsed));
        if s.freeInodes > 0 then i == k < MAX_INODE
          && state == s.(inodeUsed := s.inodeUsed[k := true], freeInodes := s.freeInodes - 1)
        else i == -1 && state == s
    {
      hide BitAt, Unpacked, CountFree;
      FreeExists(state.inodeUsed);
      i := GetFree(inodeMap);
      if i >= 0 {
        freeInodes := freeInodes - 1;
        ShapeTaken(state, i, true, freeInodes);
        state := state.(inodeUsed := state.inodeUsed[i := true], freeInodes := freeInodes);
      }
    }

    method FreeInode(index: nat) returns (r: int)
      requires Valid() && index < MAX_INODE
      modifies this`freeInodes, this`state, inodeMap
      ensures Valid()
      ensures var s := old(state);
        if s.inodeUsed[index] then r == 0
          && state == s.(inodeUsed := s.inodeUsed[index := false], freeInodes := s.freeInodes + 1)
        else r == -1 && state == s
    {
      hide BitAt, Unpacked, CountFree;
      r := Release(inodeMap, index);
      if r == 0 {
        freeInodes := freeInodes + 1;
        ShapeTaken(state, index, false, freeInodes);
        state := state.(inodeUsed := state.inodeUsed[index := false], freeInodes := freeInodes);
      }
    }

    method GetFreeBlock() returns (i: int)
      requires Valid()
      modifies this`freeBlocks, this`state, blockMap
      ensures Valid()
      ensures var s := old(state);
        if s.store.free > 0 then i == TakeBlock(s.store).0 && state == s.(store := TakeBlock(s.store).1)
        else i == -1 && state == s
    {
      FreeExists(state.store.used);
      ghost var s := state;
      assert StoreOk(s.store);
      hide BitAt, Unpacked, CountFree, FsShape;
      i := GetFree(blockMap);
      if i >= 0 {
        freeBlocks := freeBlocks - 1;
        ShapeStore(s, TakeBlock(s.store).1);
        state := s.(store := TakeBlock(s.store).1);
      }
    }

    method FreeBlock(index: nat) returns (r: int)
      requires Valid() && index < MAX_BLOCK
      modifies this`freeBlocks, this`state, blockMap
      ensures Valid()
      ensures var (ok, st) := ReleaseBlock(old(state.store), index);
        r == (if ok then 0 else -1) && state == old(state).(store := st)
    {
      ghost var s := state;
      assert StoreOk(s.store);
      hide BitAt, Unpacked, CountFree, FsShape;
      r := Release(blockMap, index);
      if r == 0 { freeBlocks := freeBlocks + 1; }
      ShapeStore(s, ReleaseBlock(s.store, index).1);
      state := s.(store := ReleaseBlock(s.store, index).1);
    }

    // ----- disk.c -----

    method DiskRead(b: nat, buf: Block) returns (r: Block)
      requires Valid()
      ensures r == Fetch(state.store.disk, b, buf)
    {
      if b >= disk.Length { return buf; }
      return disk[b];
    }

    method DiskWrite(b: nat, data: Block)
      requires Valid() && BlockOk(data)
      modifies this`state, disk
      ensures Valid()
      ensures state == if b < MAX_BLOCK then old(state).(store := Put(old(state.store), b, data)) else old(state)
    {
      ghost var s := state;
      assert StoreOk(s.store);
      hide BitAt, Unpacked, CountFree, FsShape;
      if b < disk.Length {
        disk[b] := data;
        PutOk(s.store, b, data);
        ShapeStore(s, Put(s.store, b, data));
        state := s.(store := Put(s.store, b, data));
      }
    }

    // ----- Assignments to the tables -----

    method SetInode(k: nat, n: Inode)
      requires Valid() && k < MAX_INODE && InodeFits(n)
      modifies this`state, inodes
      ensures Valid() && state == old(state).(inodes := old(state).inodes[k := n])
    {
      ShapeInode(state, k, n);
      hide BitAt, Unpacked, CountFree;
      inodes[k] := n;
      state := state.(inodes := state.inodes[k := n]);
    }

    method SetCur(l: seq<Entry>)
      requires Valid() && EntriesOk(l) && l != [] && l[0].inode < MAX_INODE
      modifies this`state, this`cur
      ensures Valid() && state == old(state).(cur := l)
    {
      ShapeCur(state, l);
      hide BitAt, Unpacked, CountFree, FsShape;
      cur := l;
      state := state.(cur := l);
    }

    method SetIndirect(i: nat, b: nat)
      requires Valid() && i < MAX_INDIRECT_BLOCK && b < MAX_BLOCK
      modifies this`state, indirectMap
      ensures Valid() && state == old(state).(scratch := old(state).scratch[i := b])
    {
      ShapeScratch(state, state.scratch[i := b]);
      hide BitAt, Unpacked, CountFree;
      indirectMap[i] := b;
      state := state.(scratch := state.scratch[i := b]);
    }

    // ----- fs.c -----

    method SearchCurDir(name: Name) returns (r: int)
      requires Valid()
      ensures r == Find(state.cur, name)
    {
      for i := 0 to |cur|
        invariant Find(cur[i..], name) == Find(cur, name)
      {
        if cur[i].name == name { return cur[i].inode; }
      }
      return -1;
    }

    method FileCreateSmallHelper(name: Name, size: nat, tmp: seq<Byte>) returns (r: int)
      requires Valid() && NameOk(name) && size < SMALL_FILE && BLOCK_SIZE * Ceil(size) <= |tmp|
      modifies this, inodeMap, blockMap, inodes, disk
      ensures Valid() && (r, state) == CreateSmall(old(state), name, size, tmp)
    {
      hide BitAt, Unpacked, CountFree, Grab, TakeBlock, LowestFree;
      ghost var s := state;
      r := SearchCurDir(name);
      if r >= 0 { return -1; }
      if |cur| + 1 >= MAX_DIR_ENTRY { return -1; }
      var n := size / BLOCK_SIZE;
      if size % BLOCK_SIZE > 0 { n := n + 1; }
      if n > freeBlocks { return -1; }
      if freeInodes < 1 { return -1; }
      Filled(s, name, size, tmp);
      r := GetFreeInode();
      SetInode(r, inodes[r].(kind := File, size := size, blockCount := n));
      SetCur(cur + [Entry(name, r)]);
      FillStart(s, r, name, size, n, tmp);
      FillBlocks(r, n, tmp, s, name, size);
    }

    /** The loop of `file_create_small_helper`. */
    method FillBlocks(k: nat, n: nat, tmp: seq<Byte>, ghost s: Fs, ghost name: Name, ghost size: nat)
      requires FsShape(s) && k < MAX_INODE && n <= DIRECT_BLOCK && n <= s.store.free && BLOCK_SIZE * n <= |tmp|
      requires Valid() && state == Filling(s, k, name, size, n, tmp, 0)
      modifies this, blockMap, inodes, disk
      ensures Valid() && state == Filling(s, k, name, size, n, tmp, n)
    {
      for i := 0 to n
        invariant Valid() && state == Filling(s, k, name, size, n, tmp, i)
      {
        var piece := Chunk(tmp, i);
        assert BlockOk(piece);
        hide BitAt, Unpacked, CountFree, Grab, TakeBlock, Filling, Chunk, EntriesOk, StoreOk, WordsOk;
        FillStep(s, k, name, size, n, tmp, i);
        var b := GetFreeBlock();
        SetInode(k, inodes[k].(direct := inodes[k].direct[i := b]));
        DiskWrite(b, piece);
      }
    }

    method FileCreateLargeHelper(ino: nat, size: nat, tmp: seq<Byte>) returns (r: int)
      requires Valid() && ino < MAX_INODE && Ceil(size) <= MAX_INDIRECT_BLOCK
      requires BLOCK_SIZE * (DIRECT_BLOCK + Ceil(size)) <= |tmp|
      modifies this, blockMap, inodes, disk, indirectMap
      ensures Valid() && (r, state) == CreateLarge(old(state), ino, size, tmp)
    {
      hide BitAt, Unpacked, CountFree, Grab, TakeBlock, EncWords;
      ghost var s := state;
      var n := size / BLOCK_SIZE;
      if size % BLOCK_SIZE > 0 { n := n + 1; }
      if n + 1 > freeBlocks { return -1; }
      MapFilled(s, ino, size, tmp);
      var indirect := GetFreeBlock();
      FillMap(n, tmp, s);
      var x := inodes[ino];
      SetInode(ino, x.(size := x.size + size, blockCount := x.blockCount + n, indirect := indirect));
      DiskWrite(indirect, EncWords(indirectMap[..]));
      return 0;
    }

    /** The loop of `file_create_large_helper`. */
    method FillMap(n: nat, tmp: seq<Byte>, ghost s: Fs)
      requires FsShape(s) && n <= MAX_INDIRECT_BLOCK && n + 1 <= s.store.free
      requires BLOCK_SIZE * (DIRECT_BLOCK + n) <= |tmp|
      requires Valid() && state == FillingMap(s, tmp, 0)
      modifies this, blockMap, disk, indirectMap
      ensures Valid() && state == FillingMap(s, tmp, n)
    {
      for i := 0 to n
        invariant Valid() && state == FillingMap(s, tmp, i)
      {
        hide BitAt, Unpacked, CountFree, Grab, TakeBlock, FillingMap, FsShape, EntriesOk, StoreOk, WordsOk;
        var piece := Chunk(tmp, DIRECT_BLOCK + i);
        assert BlockOk(piece);
        hide Chunk;
        FillMapStep(s, tmp, i);
        var b := GetFreeBlock();
        SetIndirect(i, b);
        DiskWrite(b, piece);
      }
    }

    method FileCreate(name: Name, size: nat, tmp: seq<Byte>) returns (r: int)
      requires Valid() && NameOk(name) && (size < LARGE_FILE ==> BLOCK_SIZE * BlocksFor(size) <= |tmp|)
      modifies this, inodeMap, blockMap, inodes, disk, indirectMap
      ensures Valid() && (r, state) == FileSystem.FileCreate(old(state), name, size, tmp)
    {
      hide *;
      ShapeOfState();
      if size >= LARGE_FILE {
        TooLarge(state, name, size, tmp);
        return -1;
      }
      EnoughData(size, tmp);
      SmallIsWhole(size);
      CreateCases(state, name, size, tmp);
      if size >= SMALL_FILE {
        r := FileCreateSmallHelper(name, SMALL_FILE - 1, tmp);
        if r < 0 { return -1; }
        var _ := FileCreateLargeHelper(r, size - (SMALL_FILE - 1), tmp);
      } else {
        r := FileCreateSmallHelper(name, size, tmp);
      }
      return 0;
    }

    method DirMake(name: Name) returns (r: int)
      requires Valid() && NameOk(name)
      modifies this, inodeMap, blockMap, inodes, disk
      ensures Valid() && (r, state) == FileSystem.DirMake(old(state), name)
    {
      hide BitAt, Unpacked, CountFree, TakeBlock, LowestFree, EncDir;
      ghost var s := state;
      r := SearchCurDir(name);
      if r >= 0 { return -1; }
      if |cur| + 1 >= MAX_DIR_ENTRY { return -1; }
      if freeInodes < 1 { return -1; }
      if freeBlocks < 1 { return -1; }
      var ino := GetFreeInode();
      var b := GetFreeBlock();
      var x := inodes[ino];
      SetInode(ino, Inode(Directory, 1, 1, x.direct[0 := b], x.indirect));
      SetCur(cur + [Entry(name, ino)]);
      DiskWrite(b, EncDir([Entry(DOT, ino), Entry(DOTDOT, cur[0].inode)]));
      return 0;
    }

    /** The target's block is taken as it is, a listing or not. */
    method DirChange(name: Name) returns (r: int)
      requires Valid() && Find(state.cur, name) < MAX_INODE
      modifies this, disk
      ensures Holds() && (r, state) == FileSystem.DirChange(old(state), name)
    {
      hide BitAt, Unpacked, CountFree, EncDir, DecDir, EntriesOk;
      DiskWrite(inodes[cur[0].inode].direct[0], EncDir(cur));
      var n := SearchCurDir(name);
      if n < 0 { return -1; }
      if inodes[n].kind == File { return -1; }
      var b := DiskRead(inodes[n].direct[0], []);
      cur := DecDir(b);
      state := state.(cur := cur);
      return 0;
    }

    // ----- Reading and writing -----

    /** A reading loop over `table[lo..hi]`. */
    method ReadBlocks(table: seq<nat>, lo: nat, hi: nat, buf: Block) returns (data: seq<Byte>, last: Block)
      requires Valid() && lo <= hi <= |table|
      ensures data == Gather(state.store.disk, table[lo..hi], buf)
      ensures last == LastFetched(state.store.disk, table[lo..hi], buf)
    {
      data, last := [], buf;
      ghost var d := state.store.disk;
      for i := lo to hi
        invariant data == Gather(d, table[lo..i], buf) && last == LastFetched(d, table[lo..i], buf)
      {
        hide Valid, Gather, LastFetched, Fetch;
        GatherNext(d, table, lo, i, buf);
        last := DiskRead(table[i], last);
        data := data + last;
      }
    }

    /** A writing loop over `table[lo..hi]`. */
    method WriteBlocks(table: seq<nat>, lo: nat, hi: nat, data: seq<Byte>)
      requires Valid() && lo <= hi <= |table| && |data| == BLOCK_SIZE * (hi - lo)
      modifies this`state, disk
      ensures Valid()
      ensures state == old(state).(store := old(state.store).(disk := Scatter(old(state.store.disk), table[lo..hi],
        data)))
    {
      ghost var s := state;
      for i := lo to hi
        invariant Valid()
        invariant state == s.(store := s.store.(disk := Scatter(s.store.disk, table[lo..i],
          data[..BLOCK_SIZE * (i - lo)])))
      {
        hide BitAt, Unpacked, CountFree, FsShape;
        var front := data[..BLOCK_SIZE * (i + 1 - lo)];
        assert table[lo..i + 1][..i - lo] == table[lo..i];
        assert front[..BLOCK_SIZE * (i - lo)] == data[..BLOCK_SIZE * (i - lo)];
        assert front[BLOCK_SIZE * (i - lo)..] == data[(i - lo) * BLOCK_SIZE..(i - lo + 1) * BLOCK_SIZE];
        DiskWrite(table[i], data[(i - lo) * BLOCK_SIZE..(i - lo + 1) * BLOCK_SIZE]);
      }
      assert data[..BLOCK_SIZE * (hi - lo)] == data;
    }

    /** The block map of inode `n`, as the helpers read it. */
    method ReadMap(n: nat) returns (w: seq<nat>)
      requires Valid() && n < MAX_INODE
      ensures w == Words(state.store.disk, state.inodes[n].indirect) && |w| == MAX_INDIRECT_BLOCK
    {
      assert BlockOk(state.store.disk[inodes[n].indirect]);
      var b := DiskRead(inodes[n].indirect, []);
      return DecWords(b, MAX_INDIRECT_BLOCK);
    }

    method FileCat(name: Name, junk: Block) returns (r: Answer)
      requires Valid() && BlockOk(junk) && Find(state.cur, name) < MAX_INODE
      requires var n := Find(state.cur, name); n >= 0 && state.inodes[n].kind != Directory ==> CatFits(state.inodes[n])
      ensures r == FileSystem.FileCat(state, name, junk)
    {
      var n := SearchCurDir(name);
      if n < 0 { return Failed; }
      if inodes[n].kind == Directory { return Failed; }
      if inodes[n].size >= SMALL_FILE {
        r := FileCatHelper(n, junk);
        return r;
      }
      var data, _ := ReadBlocks(inodes[n].direct, 0, inodes[n].blockCount, junk);
      return Printed(data);
    }

    method FileCatHelper(n: nat, junk: Block) returns (r: Answer)
      requires Valid() && BlockOk(junk) && n < MAX_INODE
      requires CatFits(state.inodes[n]) && state.inodes[n].size >= SMALL_FILE
      ensures r == Printed(Gather(state.store.disk, CatBlocks(state.store, state.inodes[n]), junk))
    {
      var table := ReadMap(n);
      var a, last := ReadBlocks(inodes[n].direct, 0, DIRECT_BLOCK, junk);
      var b, _ := ReadBlocks(table, 0, inodes[n].blockCount - DIRECT_BLOCK, last);
      GatherAppend(state.store.disk, inodes[n].direct, table[..inodes[n].blockCount - DIRECT_BLOCK], junk);
      assert inodes[n].direct[0..DIRECT_BLOCK] == inodes[n].direct;
      return Printed(a + b);
    }

    method FileRead(name: Name, offset: nat, size: nat, junk: Block) returns (r: Answer)
      requires Valid() && BlockOk(junk) && Find(state.cur, name) < MAX_INODE
      requires var n := Find(state.cur, name); n >= 0 && state.inodes[n].kind != Directory ==> InTables(offset, size)
      ensures r == FileSystem.FileRead(state, name, offset, size, junk)
    {
      hide BitAt, Unpacked, CountFree, EntriesOk, WordsOk, Words;
      var n := SearchCurDir(name);
      if n < 0 { return Failed; }
      if inodes[n].kind == Directory { return Failed; }
      var a, e := offset / BLOCK_SIZE, (offset + size) / BLOCK_SIZE;
      var data;
      if e > DIRECT_BLOCK - 1 {
        data := ReadLong(n, offset, size, junk);
      } else {
        var x, _ := ReadBlocks(inodes[n].direct, a, e + 1, junk);
        data := x;
      }
      GatherLength(state.store.disk, Touched(state.store, state.inodes[n], offset, size), junk);
      return Printed(data[offset % BLOCK_SIZE..offset % BLOCK_SIZE + size]);
    }

    /** The reading loops of `file_read_helper` and `file_write_helper`. */
    method ReadLong(n: nat, offset: nat, size: nat, junk: Block) returns (data: seq<Byte>)
      requires Valid() && BlockOk(junk) && n < MAX_INODE
      requires InTables(offset, size) && EndBlock(offset, size) >= DIRECT_BLOCK
      ensures data == Gather(state.store.disk, Touched(state.store, state.inodes[n], offset, size), junk)
    {
      var table := ReadMap(n);
      var a, e := offset / BLOCK_SIZE, (offset + size) / BLOCK_SIZE;
      var x, last := ReadBlocks(inodes[n].direct, a, DIRECT_BLOCK, junk);
      var y, _ := ReadBlocks(table, 0, e + 1 - DIRECT_BLOCK, last);
      TouchedSplit(state.store, state.inodes[n], offset, size);
      GatherAppend(state.store.disk, inodes[n].direct[a..DIRECT_BLOCK], table[0..e + 1 - DIRECT_BLOCK], junk);
      return x + y;
    }

    method FileWrite(name: Name, offset: nat, size: nat, buf: seq<Byte>, junk: Block) returns (r: Outcome)
      requires Valid() && BlockOk(junk) && Find(state.cur, name) < MAX_INODE
      requires Find(state.cur, name) >= 0 ==> InTables(offset, size)
      modifies this`state, disk
      ensures Valid() && (r, state) == FileSystem.FileWrite(old(state), name, offset, size, buf, junk)
    {
      hide BitAt, Unpacked, CountFree, EntriesOk, WordsOk, Words, Scatter;
      var n := SearchCurDir(name);
      if n < 0 { return NoSuchFile; }
      var a, e := offset / BLOCK_SIZE, (offset + size) / BLOCK_SIZE;
      ghost var bs := Touched(state.store, state.inodes[n], offset, size);
      GatherLength(state.store.disk, bs, junk);
      if e > DIRECT_BLOCK - 1 {
        r := FileWriteHelper(n, offset, size, buf, junk);
        return r;
      }
      var data, _ := ReadBlocks(inodes[n].direct, a, e + 1, junk);
      if size != |buf| { return WrongSize; }
      SplicedIs(data, offset % BLOCK_SIZE, buf);
      data := data[..offset % BLOCK_SIZE] + buf + data[offset % BLOCK_SIZE + |buf|..];
      WriteBlocks(inodes[n].direct, a, e + 1, data);
      return Done;
    }

    /** It writes back what it has read; the buffer only goes into the copy in memory. */
    method FileWriteHelper(n: nat, offset: nat, size: nat, buf: seq<Byte>, junk: Block) returns (r: Outcome)
      requires Valid() && BlockOk(junk) && n < MAX_INODE
      requires InTables(offset, size) && EndBlock(offset, size) >= DIRECT_BLOCK
      modifies this`state, disk
      ensures Valid()
      ensures var s := old(state); var bs := Touched(s.store, s.inodes[n], offset, size);
        var data := Gather(s.store.disk, bs, junk);
        if size != |buf| then r == WrongSize && state == s
        else
          && |data| == BLOCK_SIZE * |bs| && r == Done
          && state == s.(store := s.store.(disk := Scatter(s.store.disk, bs, data)))
    {
      hide BitAt, Unpacked, CountFree, EntriesOk, WordsOk, Words, Scatter, Gather;
      var table := ReadMap(n);
      var a, e := offset / BLOCK_SIZE, (offset + size) / BLOCK_SIZE;
      ghost var s, bs := state, Touched(state.store, state.inodes[n], offset, size);
      var data := ReadLong(n, offset, size, junk);
      GatherLength(s.store.disk, bs, junk);
      if size != |buf| { return WrongSize; }
      TouchedSplit(s.store, s.inodes[n], offset, size);
      var m := BLOCK_SIZE * (DIRECT_BLOCK - a);
      ScatterAppend(s.store.disk, inodes[n].direct[a..DIRECT_BLOCK], table[0..e + 1 - DIRECT_BLOCK], data);
      WriteBlocks(inodes[n].direct, a, DIRECT_BLOCK, data[..m]);
      WriteBlocks(table, 0, e + 1 - DIRECT_BLOCK, data[m..]);
      return Done;
    }

    // ----- file_remove -----

    /** A freeing loop. */
    method FreeBlocks(bs: seq<nat>) returns (ok: bool)
      requires Valid() && OnDisk(bs)
      modifies this`freeBlocks, this`state, blockMap
      ensures Valid()
      ensures var r := ReleaseAll(old(state.store), bs); ok == r.0 && state == old(state).(store := r.1)
    {
      ghost var s := state;
      for i := 0 to |bs|
        invariant Valid() && state == s.(store := state.store)
        invariant ReleaseAll(s.store, bs) == ReleaseAll(state.store, bs[i..])
      {
        hide BitAt, Unpacked, CountFree, ReleaseBlock;
        assert bs[i..][0] == bs[i] && bs[i..][1..] == bs[i + 1..];
        var r := FreeBlock(bs[i]);
        if r != 0 { return false; }
      }
      return true;
    }

    method FileRemove(name: Name) returns (r: int)
      requires Valid() && Removable(state, name)
      modifies this, inodeMap, blockMap, inodes
      ensures Holds() && (r, state) == FsRemove.FileRemove(old(state), name)
    {
      hide BitAt, Unpacked, CountFree, ReleaseAll, Words;
      ghost var s := state;
      var n := SearchCurDir(name);
      if n < 0 { return -1; }
      if inodes[n].kind == Directory { return -1; }
      r := FreeInode(n);
      if r != 0 { return -1; }
      var table := ReadMap(n);
      var directNum := inodes[n].blockCount;
      ghost var x := s.inodes[n];
      if directNum > DIRECT_BLOCK {
        directNum := DIRECT_BLOCK;
        var w := table[..inodes[n].blockCount - DIRECT_BLOCK];
        ReleaseInTwo(s.store, x);
        var ok := FreeBlocks(w);
        if !ok { return -1; }
      }
      assert directNum == DIRECT_BLOCK ==> x.direct[..directNum] == x.direct;
      var ok := FreeBlocks(inodes[n].direct[..directNum]);
      if !ok { return -1; }
      Compact(n);
      return 0;
    }

    /** The end of `file_remove`: the last entry goes over entry `n`, and its number is taken for an inode's. */
    method Compact(n: nat)
      requires Valid() && n < MAX_INODE && SlotFor(cur, n)
      modifies this`cur, this`state, inodes
      ensures Holds() && state == old(state).(cur := Compacted(old(state.cur), n), inodes := Resized(old(state), n))
    {
      hide BitAt, Unpacked, CountFree;
      ghost var s := state;
      var last := |cur| - 1;
      var e := cur[last];
      cur := cur[..last];
      if n != e.inode {
        if n < last { cur := cur[n := e]; }
        inodes[n] := inodes[n].(size := inodes[last].size);
      }
      state := s.(cur := cur, inodes := inodes[..]);
    }

    // ----- fs_mount -----

    /** `fs_mount` of a disk that does not exist yet. */
    constructor ()
      ensures Valid() && state == FirstMount()
      ensures fresh(inodeMap) && fresh(blockMap) && fresh(inodes) && fresh(disk) && fresh(indirectMap)
    {
      inodeMap := new Byte[MAX_INODE / 8](i => 0);
      blockMap := new Byte[MAX_BLOCK / 8](i => 0);
      inodes := new Inode[MAX_INODE](i => Inode(File, 0, 0, seq(DIRECT_BLOCK, k => 0), 0));
      disk := new Block[MAX_BLOCK](i => Zeros(BLOCK_SIZE));
      indirectMap := new nat[MAX_INDIRECT_BLOCK](i => 0);
      freeBlocks := MAX_BLOCK - METADATA_BLOCKS;
      freeInodes := MAX_INODE;
      cur := [];
      curBlock := 0;
      state := Blank();
      new;
      NothingSet(inodeMap[..]);
      NothingSet(blockMap[..]);
      InitMap(inodeMap, MAX_INODE / 8, 0);
      InitMap(blockMap, MAX_BLOCK / 8, METADATA_BLOCKS);
      assert Unpacked(inodeMap[..]) == Blank().inodeUsed;
      assert Unpacked(blockMap[..]) == Blank().store.used;
      assert inodes[..] == Blank().inodes && disk[..] == Blank().store.disk && indirectMap[..] == Blank().scratch;
      MakeRoot();
    }

    /** The root directory: the first inode and the first block after the metadata. */
    method MakeRoot()
      requires Apart() && inodeMap.Length == MAX_INODE / 8 && blockMap.Length == MAX_BLOCK / 8
      requires state == Blank() == Fs(Store(Unpacked(blockMap[..]), freeBlocks, disk[..]), Unpacked(inodeMap[..]),
                                      freeInodes, inodes[..], cur, curBlock, indirectMap[..])
      modifies this, inodeMap, blockMap, inodes, disk
      ensures Valid() && state == FirstMount()
    {
      hide BitAt, Unpacked, CountFree, Blank, LowestFree, EncDir, FsShape;
      BlankShape();
      FirstMountShape();
      var root := GetFree(inodeMap);
      freeInodes := freeInodes - 1;
      curBlock := GetFree(blockMap);
      freeBlocks := freeBlocks - 1;
      inodes[root] := inodes[root].(kind := Directory, size := 1, blockCount := 1,
        direct := inodes[root].direct[0 := curBlock]);
      cur := [Entry(DOT, root)];
      disk[curBlock] := EncDir(cur);
      state := FirstMount();
    }

    /** `fs_mount` of the disk `d`, whatever is on it; `rest` is what the map buffer holds. */
    constructor Mount(d: seq<Block>, rest: seq<nat>)
      requires |d| == MAX_BLOCK && forall b :: 0 <= b < MAX_BLOCK ==> BlockOk(d[b])
      ensures Holds() && state == Mounted(d, rest)
      ensures fresh(inodeMap) && fresh(blockMap) && fresh(inodes) && fresh(disk) && fresh(indirectMap)
    {
      hide Unpacked, Dec, DecDir, InodeOnDisk, FsShape, Mounted;
      var blocks := FromSeq(d);
      var map1 := FromSeq(d[1][..MAX_INODE / 8]);
      var map2 := FromSeq(d[2]);
      var table := FromSeq(rest);
      disk, inodeMap, blockMap, indirectMap := blocks, map1, map2, table;
      freeBlocks, freeInodes := Dec(d[0][..4]), Dec(d[0][4..8]);
      inodes := new Inode[MAX_INODE](i => Inode(File, 0, 0, seq(DIRECT_BLOCK, k => 0), 0));
      var root := InodeOnDisk(d, 0).direct[0];
      curBlock := root;
      cur := if root < MAX_BLOCK then DecDir(d[root]) else [];
      state := Mounted(d, rest);
      new;
      LoadTable(d, rest);
    }

    method LoadTable(d: seq<Block>, ghost rest: seq<nat>)
      requires |d| == MAX_BLOCK && forall b :: 0 <= b < MAX_BLOCK ==> BlockOk(d[b])
      requires state == Mounted(d, rest)
      requires Apart() && inodeMap.Length == MAX_INODE / 8
      requires blockMap.Length == MAX_BLOCK / 8 && inodes.Length == MAX_INODE
      requires inodeMap[..] == d[1][..MAX_INODE / 8] && blockMap[..] == d[2]
      requires disk[..] == d && indirectMap[..] == rest
      requires freeBlocks == Dec(d[0][..4]) && freeInodes == Dec(d[0][4..8])
      requires curBlock == InodeOnDisk(d, 0).direct[0]
      requires cur == if curBlock < MAX_BLOCK then DecDir(d[curBlock]) else []
      modifies inodes
      ensures Holds()
    {
      hide Unpacked, Dec, DecDir, InodeOnDisk, FsShape;
      ReadTable(inodes, d);
      assert inodes[..] == state.inodes;
    }

    /** `fs_umount` */
    method FsUmount()
      requires Valid() && Fits(state)
      modifies this`state, disk
      ensures Valid() && state == AtRest(old(state)) && disk[..] == Umounted(old(state))
    {
      ghost var s := state;
      UmountMaps();
      UmountTable(s);
      hide Unpacked, EncDir, MetaBlock, FitsWords;
      DiskWrite(curBlock, EncDir(cur));
    }

    method UmountMaps()
      requires Valid() && Fits(state)
      modifies this`state, disk
      ensures Valid() && state == old(state).(store := old(state.store).(disk := MetaWritten(old(state), 3)))
    {
      ghost var s := state;
      PackedUnpacked(inodeMap[..]);
      PackedUnpacked(blockMap[..]);
      MetaHead(s);
      hide Unpacked, Pack, MetaWritten, SuperBlock, FitsWords, CountFree, EntriesOk, WordsOk;
      DiskWrite(0, SuperBlock(freeBlocks, freeInodes));
      DiskWrite(1, inodeMap[..] + Zeros(BLOCK_SIZE - MAX_INODE / 8));
      DiskWrite(2, blockMap[..]);
    }

    method UmountTable(ghost s: Fs)
      requires FsShape(s) && Fits(s) && Valid() && state == s.(store := s.store.(disk := MetaWritten(s, 3)))
      modifies this`state, disk
      ensures Valid() && state == s.(store := s.store.(disk := MetaWritten(s, METADATA_BLOCKS)))
    {
      hide Unpacked, MetaWritten, TableBlock, CountFree, EntriesOk, WordsOk, FitsWords;
      for i := 0 to MAX_INODE / INODES_PER_BLOCK
        invariant Valid() && state == s.(store := s.store.(disk := MetaWritten(s, 3 + i)))
      {
        MetaStep(s, i);
        DiskWrite(3 + i, TableBlock(inodes[..], i));
      }
    }
  }
}
