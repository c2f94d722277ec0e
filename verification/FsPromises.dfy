/** What a user of the file system may count on, and exactly when. */
module FsPromises {
  import opened Bits
  import opened Codec
  import opened FileSystem
  import opened FsInvariant
  import opened FsContents
  import opened FsTree
  import opened FsWrite
  import opened FsWriteReach
  import opened FsRefinement
  import opened FsDirectories
  import opened FsWriteRefinement
  import opened FsRuns

  lemma {:induction false} FindAppended(es: seq<Entry>, name: Name, k: nat)
    requires Find(es, name) < 0
    ensures Find(es + [Entry(name, k)], name) == k
  {
    var l := es + [Entry(name, k)];
    if es != [] {
      assert l[1..] == es[1..] + [Entry(name, k)];
      FindAppended(es[1..], name, k);
    }
  }

  /** `u` is `t` with the whole new file, and nothing else changed. */
  ghost predicate Created(t: Tree, u: Tree, name: Name, size: nat, tmp: seq<Byte>)
    requires t.cwd in t.dirs && BLOCK_SIZE * BlocksFor(size) <= |tmp|
  {
    && u.cwd in u.dirs && u.cwd == t.cwd
    && var k := Find(Here(u), name);
      && k >= 0 && k !in t.files && k !in t.dirs
      && u.dirs == WithEntry(t, name, k)
      && u.files == t.files[k := FileData(size, tmp[..BLOCK_SIZE * BlocksFor(size)])]
  }

  lemma FirstOnly(size: nat)
    requires SMALL_FILE <= size < LARGE_FILE
    ensures First(size) < size && BlocksFor(size) > Ceil(First(size))
  {
  }

  lemma CreatedInTree(t: Tree, name: Name, size: nat, tmp: seq<Byte>)
    requires TreeOk(t) && size < LARGE_FILE && BLOCK_SIZE * BlocksFor(size) <= |tmp|
    ensures Created(t, Create(t, name, size, tmp).1, name, size, tmp) <==>
              CanCreate(t, name, Ceil(First(size))) && RestFits(t, size)
  {
    hide BlocksFor, Ceil, First, Taken;
    var u, k := Create(t, name, size, tmp).1, NextInode(t);
    if CanCreate(t, name, Ceil(First(size))) {
      NextIsNew(t);
      FindAppended(Here(t), name, k);
      if !RestFits(t, size) {
        FirstOnly(size);
        assert u.files[k].size == First(size);
      }
    } else {
      assert Here(u) == Here(t) && u.files == t.files;
    }
  }

  /** After `file_create` the file is there, whole, exactly when its name is new, the directory, the
      inodes and the blocks suffice, and, for a large file, there is a block more for the map. */
  lemma CreatedExactly(s: Fs, name: Name, size: nat, tmp: seq<Byte>)
    requires Inv(s) && NameOk(name) && size < LARGE_FILE && BLOCK_SIZE * BlocksFor(size) <= |tmp|
    ensures var t := FileCreate(s, name, size, tmp).1;
      && Inv(t)
      && (Created(Abs(s), Abs(t), name, size, tmp) <==>
            CanCreate(Abs(s), name, Ceil(First(size))) && RestFits(Abs(s), size))
  {
    hide *;
    InvTreeOk(s);
    CreateRefines(s, name, size, tmp);
    CreatedInTree(Abs(s), name, size, tmp);
  }

  lemma AnswerOfCreate(t: Tree, name: Name, size: nat, tmp: seq<Byte>)
    requires t.cwd in t.dirs && size < LARGE_FILE && BLOCK_SIZE * BlocksFor(size) <= |tmp|
    ensures Create(t, name, size, tmp).0 == 0 <==> size < SMALL_FILE || CanCreate(t, name, Ceil(First(size)))
    ensures size < SMALL_FILE ==> First(size) == size && RestFits(t, size)
  {
    hide BlocksFor, Ceil, CanCreate;
  }

  /** The return value does not say so: 0 is also returned when a small file is not created at all, and
      when a large one is cut to SMALL_FILE - 1 bytes. */
  lemma ZeroIsNotSuccess(s: Fs, name: Name, size: nat, tmp: seq<Byte>)
    requires Inv(s) && NameOk(name) && size < LARGE_FILE && BLOCK_SIZE * BlocksFor(size) <= |tmp|
    ensures var (r, t) := FileCreate(s, name, size, tmp); var a := Abs(s);
      && Inv(t)
      && ((r == 0 ==> Created(a, Abs(t), name, size, tmp)) <==>
            (if size < SMALL_FILE then CanCreate(a, name, Ceil(size))
             else CanCreate(a, name, Ceil(First(size))) ==> RestFits(a, size)))
  {
    hide *;
    InvTreeOk(s);
    CreateRefines(s, name, size, tmp);
    CreatedExactly(s, name, size, tmp);
    AnswerOfCreate(Abs(s), name, size, tmp);
  }

  lemma FileReads(t: Fs, name: Name, data: seq<Byte>, offset: nat, n: nat, buf: Block)
    requires Inv(t) && BlockOk(buf) && InTables(offset, n) && offset + n <= |data|
    requires var k := Find(t.cur, name); k in Abs(t).files && Abs(t).files[k].data == data
    ensures Find(t.cur, name) < MAX_INODE && CatFits(t.inodes[Find(t.cur, name)])
    ensures FileRead(t, name, offset, n, buf) == Printed(data[offset..offset + n])
    ensures FileCat(t, name, buf) == Printed(data)
  {
    CatRefines(t, name, buf);
    ReadInside(t, name, offset, n, buf);
  }

  /** A file reads back as the data it was made from, across the boundary of direct and indirect blocks. */
  lemma CreateThenRead(s: Fs, name: Name, size: nat, tmp: seq<Byte>, offset: nat, n: nat, buf: Block)
    requires Inv(s) && NameOk(name) && size < LARGE_FILE && BLOCK_SIZE * BlocksFor(size) <= |tmp| && BlockOk(buf)
    requires CanCreate(Abs(s), name, Ceil(First(size))) && RestFits(Abs(s), size)
    requires offset + n <= size && InTables(offset, n)
    ensures var t := FileCreate(s, name, size, tmp).1; var k := Find(t.cur, name);
      && Inv(t) && 0 <= k < MAX_INODE && CatFits(t.inodes[k])
      && FileRead(t, name, offset, n, buf) == Printed(tmp[offset..offset + n])
      && FileCat(t, name, buf) == Printed(tmp[..BLOCK_SIZE * BlocksFor(size)])
  {
    hide *;
    InvFacts(s);
    InvTreeOk(s);
    EnoughBlocks(size);
    CreateRefines(s, name, size, tmp);
    CreatedExactly(s, name, size, tmp);
    var t, whole := FileCreate(s, name, size, tmp).1, tmp[..BLOCK_SIZE * BlocksFor(size)];
    InvFacts(t);
    HereIsCur(t);
    CreatedFile(Abs(s), Abs(t), name, size, tmp);
    FileReads(t, name, whole, offset, n, buf);
    Narrower(tmp, BLOCK_SIZE * BlocksFor(size), offset, offset + n);
  }

  lemma Narrower(s: seq<Byte>, m: nat, a: nat, b: nat)
    requires a <= b <= m <= |s|
    ensures s[..m][a..b] == s[a..b]
  {
  }

  lemma CreatedFile(t: Tree, u: Tree, name: Name, size: nat, tmp: seq<Byte>)
    requires t.cwd in t.dirs && BLOCK_SIZE * BlocksFor(size) <= |tmp| && Created(t, u, name, size, tmp)
    ensures u.cwd in u.dirs && Find(Here(u), name) in u.files
    ensures u.files[Find(Here(u), name)].data == tmp[..BLOCK_SIZE * BlocksFor(size)]
  {
  }

  lemma EnoughBlocks(size: nat)
    requires size < LARGE_FILE
    ensures BLOCK_SIZE * BlocksFor(size) >= size
  {
    SplitInRange(size);
  }

  // ----- Writing -----

  lemma FileParts(s: Fs, name: Name)
    requires Inv(s) && Find(s.cur, name) in Abs(s).files
    ensures var n := Find(s.cur, name);
      && 0 <= n < MAX_INODE && FsShape(s) && s.inodeUsed[n] && IsFile(s, n) && Here(Abs(s)) == s.cur
      && n !in Abs(s).dirs && |Abs(s).files[n].data| == BLOCK_SIZE * s.inodes[n].blockCount
  {
    HereIsCur(s);
    FileFound(s, name);
    ContentLength(s.store, s.inodes[Find(s.cur, name)]);
  }

  lemma SameHereBy(s: Fs, t: Fs)
    requires Inv(s) && Inv(t) && Abs(t).cwd == Abs(s).cwd && Abs(t).dirs == Abs(s).dirs
    ensures t.cur == s.cur
  {
    HereIsCur(s);
    HereIsCur(t);
  }

  lemma FileOwns(s: Fs, name: Name)
    requires Inv(s) && Find(s.cur, name) in Abs(s).files
    ensures var n := Find(s.cur, name);
      && Sound(s) && FsShape(s) && StoreOk(s.store) && 0 <= n < MAX_INODE == |s.inodes| && Allocated(s, n)
      && InodeOk(s.store, s.inodes[n]) && InodeFits(s.inodes[n]) && InodeShape(s.inodes[n])
      && |s.inodes[n].direct| == DIRECT_BLOCK && s.inodes[n].indirect < MAX_BLOCK && s.inodes[n].kind == File
      && |s.store.disk| == MAX_BLOCK && DiskOk(s.store.disk)
  {
    FileParts(s, name);
    hide TreeOk;
  }

  /** When the range lies in the file's blocks and ends in the direct ones, what decides is whether it ends
      before them, or whether the entry after them names none of what it wrote anew. */
  ghost predicate Survives(s: Fs, n: nat, offset: nat, buf: seq<Byte>)
    requires FsShape(s) && n < MAX_INODE && InodeOk(s.store, s.inodes[n])
  {
    var x := s.inodes[n];
    ContentLength(s.store, x);
    && offset + |buf| <= BLOCK_SIZE * x.blockCount
    && if EndBlock(offset, |buf|) >= DIRECT_BLOCK then HasAt(Content(s.store, x), offset, buf)
       else
         EndOf(offset, |buf|, x.blockCount);
         EndBlock(offset, |buf|) < x.blockCount || AlreadyThere(x, Content(s.store, x), offset, buf)
  }

  /** What `file_write` leaves. The file holds the buffer where it was asked for exactly when the range lies
      in the file's blocks, and: it ends beyond the direct blocks and the bytes were there before; or it
      ends before the file's blocks do; or the entry after them, through which it also goes then, names
      no block of the range but such as had the bytes already. */
  lemma WriteThenRead(s: Fs, name: Name, offset: nat, buf: seq<Byte>, junk: Block)
    requires Inv(s) && BlockOk(junk) && Find(s.cur, name) in Abs(s).files && InTables(offset, |buf|)
    ensures Find(s.cur, name) < MAX_INODE && FsShape(s) && InodeOk(s.store, s.inodes[Find(s.cur, name)])
    ensures var (r, t) := FileWrite(s, name, offset, |buf|, buf, junk); var n := Find(s.cur, name);
      && r == Done && FsShape(t) && t == s.(store := t.store) && InodeOk(t.store, t.inodes[n])
      && (HasAt(Content(t.store, t.inodes[n]), offset, buf) <==> Survives(s, n, offset, buf))
  {
    hide *;
    FileOwns(s, name);
    var n := Find(s.cur, name);
    if EndBlock(offset, |buf|) < DIRECT_BLOCK {
      ShortIs(s, name, offset, buf, junk);
      WrittenExactly(s, n, offset, buf, junk);
      WrittenStore(s, n, offset, buf, junk);
      HeldExactly(s.store, Written(s, n, offset, buf, junk).store, s.inodes[n], offset, buf, junk);
    } else {
      LongWrite(s, name, offset, buf, junk);
      ContentLength(s.store, s.inodes[n]);
    }
    SurvivesIs(s, n, offset, buf);
  }

  lemma WrittenStore(s: Fs, k: nat, offset: nat, buf: seq<Byte>, junk: Block)
    requires Sound(s) && Allocated(s, k) && k < |s.inodes| && BlockOk(junk) && InTables(offset, |buf|)
    requires StoreOk(s.store) && InodeFits(s.inodes[k])
    ensures var t := Written(s, k, offset, buf, junk);
      && t == s.(store := t.store) && t.store == s.store.(disk := WrittenDisk(s.store, s.inodes[k], offset, buf, junk))
  {
  }

  lemma SurvivesIs(s: Fs, n: nat, offset: nat, buf: seq<Byte>)
    requires FsShape(s) && StoreOk(s.store) && n < MAX_INODE && n < |s.inodes| && InodeOk(s.store, s.inodes[n])
    requires InodeShape(s.inodes[n]) && |s.inodes[n].direct| == DIRECT_BLOCK
    ensures var x := s.inodes[n]; |Content(s.store, x)| == BLOCK_SIZE * x.blockCount
    ensures var x := s.inodes[n]; EndBlock(offset, |buf|) < DIRECT_BLOCK ==>
      (Survives(s, n, offset, buf) <==>
         && offset + |buf| <= BLOCK_SIZE * x.blockCount
         && (EndBlock(offset, |buf|) < x.blockCount ||
               (EndOf(offset, |buf|, x.blockCount); AlreadyThere(x, Content(s.store, x), offset, buf))))
    ensures EndBlock(offset, |buf|) >= DIRECT_BLOCK ==>
      (Survives(s, n, offset, buf) <==> HasAt(Content(s.store, s.inodes[n]), offset, buf))
  {
    ContentLength(s.store, s.inodes[n]);
    EndOf(offset, |buf|, s.inodes[n].blockCount);
    hide InodeOk, Content, AlreadyThere;
  }

  /** `file_read` of a file, whatever its blocks hold by now: in the file's blocks it is the slice. */
  lemma ReadsSlice(s: Fs, name: Name, offset: nat, buf: seq<Byte>, junk: Block)
    requires FsShape(s) && BlockOk(junk) && InTables(offset, |buf|) && 0 <= Find(s.cur, name) < MAX_INODE
    requires var x := s.inodes[Find(s.cur, name)];
      x.kind == File && InodeOk(s.store, x) && InodeShape(x) && offset + |buf| <= BLOCK_SIZE * x.blockCount
    ensures FileRead(s, name, offset, |buf|, junk) == Printed(buf) <==>
              HasAt(Content(s.store, s.inodes[Find(s.cur, name)]), offset, buf)
  {
    var x := s.inodes[Find(s.cur, name)];
    ContentLength(s.store, x);
    hide ReadBytes, Content, InodeOk, InTables, PartIn;
    ReadShowsContent(s.store, x, offset, |buf|, junk);
    WholePart(Content(s.store, x), offset, |buf|);
  }

  /** Inside the file, `file_read` gives back what `file_write` was given under the same condition. */
  lemma WriteIsReadBack(s: Fs, name: Name, offset: nat, buf: seq<Byte>, junk: Block)
    requires Inv(s) && BlockOk(junk) && Find(s.cur, name) in Abs(s).files && InTables(offset, |buf|)
    requires offset + |buf| <= |Abs(s).files[Find(s.cur, name)].data|
    ensures Find(s.cur, name) < MAX_INODE && FsShape(s) && InodeOk(s.store, s.inodes[Find(s.cur, name)])
    ensures var (r, t) := FileWrite(s, name, offset, |buf|, buf, junk); var n := Find(s.cur, name);
      && r == Done && FsShape(t) && t.cur == s.cur && t.inodes == s.inodes
      && (FileRead(t, name, offset, |buf|, junk) == Printed(buf) <==> Survives(s, n, offset, buf))
      && (EndBlock(offset, |buf|) >= DIRECT_BLOCK ==>
            (Survives(s, n, offset, buf) <==> FileRead(s, name, offset, |buf|, junk) == Printed(buf)))
  {
    hide *;
    FileOwns(s, name);
    FileParts(s, name);
    var n := Find(s.cur, name);
    WriteThenRead(s, name, offset, buf, junk);
    ReadsSlice(FileWrite(s, name, offset, |buf|, buf, junk).1, name, offset, buf, junk);
    ReadsSlice(s, name, offset, buf, junk);
    SurvivesIs(s, n, offset, buf);
  }

  /** Any range that ends in the direct blocks, in the file or past it, is read back exactly when every byte of
      it is what the last piece written to its block has there. */
  lemma ReadBackExactly(s: Fs, name: Name, offset: nat, buf: seq<Byte>, junk: Block)
    requires Inv(s) && BlockOk(junk) && Find(s.cur, name) in Abs(s).files && EndBlock(offset, |buf|) < DIRECT_BLOCK
    ensures InTables(offset, |buf|) && 0 <= Find(s.cur, name) < MAX_INODE && FsShape(s)
    ensures |s.store.disk| == MAX_BLOCK && DiskOk(s.store.disk) && InodeFits(s.inodes[Find(s.cur, name)])
    ensures var (r, t) := FileWrite(s, name, offset, |buf|, buf, junk);
      && r == Done && FsShape(t) && t.cur == s.cur && t.inodes == s.inodes
      && (FileRead(t, name, offset, |buf|, junk) == Printed(buf) <==>
            LastPiecesHold(s.store.disk, s.inodes[Find(s.cur, name)], offset, buf))
  {
    hide *;
    ShortInTables(offset, |buf|);
    FileOwns(s, name);
    var n := Find(s.cur, name);
    var x := s.inodes[n];
    ShortIs(s, name, offset, buf, junk);
    WrittenExactly(s, n, offset, buf, junk);
    WrittenStore(s, n, offset, buf, junk);
    var t := FileWrite(s, name, offset, |buf|, buf, junk).1;
    ReadsFileOf(t, name, offset, |buf|, junk);
    var bytes := ReadBytes(t.store, x, offset, |buf|, junk);
    ReadsPieces(s.store, t.store, x, offset, buf, junk);
    ReadBackBy(s.store.disk, x, offset, buf, bytes);
  }

  lemma ShortInTables(offset: nat, size: nat)
    requires EndBlock(offset, size) < DIRECT_BLOCK
    ensures InTables(offset, size)
  {
  }

  lemma ReadsFileOf(t: Fs, name: Name, offset: nat, size: nat, junk: Block)
    requires FsShape(t) && BlockOk(junk) && InTables(offset, size) && 0 <= Find(t.cur, name) < MAX_INODE
    requires |t.inodes| == MAX_INODE && t.inodes[Find(t.cur, name)].kind == File
    ensures var x := t.inodes[Find(t.cur, name)];
      && StoreOk(t.store) && |x.direct| == DIRECT_BLOCK && x.indirect < MAX_BLOCK
      && |ReadBytes(t.store, x, offset, size, junk)| == size
      && FileRead(t, name, offset, size, junk) == Printed(ReadBytes(t.store, x, offset, size, junk))
  {
    GatherLength(t.store.disk, Touched(t.store, t.inodes[Find(t.cur, name)], offset, size), junk);
    hide Gather, Touched;
  }

  /** Entry `l` is the last in the range to name the block of byte `p` of it. */
  predicate LastFor(n: Inode, offset: nat, size: nat, p: nat, l: nat) {
    && offset <= p < offset + size && p / BLOCK_SIZE < DIRECT_BLOCK && LastNaming(n, offset, size, l)
    && n.direct[p / BLOCK_SIZE] == n.direct[l]
  }

  ghost predicate LastPiecesHold(d: seq<Block>, n: Inode, offset: nat, buf: seq<Byte>)
    requires |d| == MAX_BLOCK && DiskOk(d) && InodeFits(n) && EndBlock(offset, |buf|) < DIRECT_BLOCK
  {
    forall p: nat, l: nat :: LastFor(n, offset, |buf|, p, l) ==>
      Piece(d, n, offset, buf, l)[p % BLOCK_SIZE] == buf[p - offset]
  }

  lemma ReadsPiece(st: Store, t: Store, x: Inode, offset: nat, buf: seq<Byte>, junk: Block, q: nat, i: nat, j: nat,
    l: nat)
    requires StoreOk(st) && StoreOk(t) && InodeFits(x) && |x.direct| == DIRECT_BLOCK && x.indirect < MAX_BLOCK
    requires BlockOk(junk) && EndBlock(offset, |buf|) < DIRECT_BLOCK
    requires InTables(offset, |buf|) && t == st.(disk := WrittenDisk(st, x, offset, buf, junk))
    requires q < |buf| && i == (offset + q) / BLOCK_SIZE < DIRECT_BLOCK && j == (offset + q) % BLOCK_SIZE < BLOCK_SIZE
    requires l < DIRECT_BLOCK && LastNaming(x, offset, |buf|, l) && x.direct[i] == x.direct[l]
    ensures |st.disk| == MAX_BLOCK && DiskOk(st.disk) && |ReadBytes(t, x, offset, |buf|, junk)| == |buf|
    ensures ReadBytes(t, x, offset, |buf|, junk)[q] == Piece(st.disk, x, offset, buf, l)[j]
  {
    hide *;
    DirectNamed(t, x, i);
    ReadNamed(t, x, offset, |buf|, junk, q);
    WrittenLast(st, x, offset, buf, junk, l);
  }

  lemma ReadsPieces(st: Store, t: Store, x: Inode, offset: nat, buf: seq<Byte>, junk: Block)
    requires StoreOk(st) && StoreOk(t) && InodeFits(x) && |x.direct| == DIRECT_BLOCK && x.indirect < MAX_BLOCK
    requires BlockOk(junk) && EndBlock(offset, |buf|) < DIRECT_BLOCK && |st.disk| == MAX_BLOCK && DiskOk(st.disk)
    requires InTables(offset, |buf|) && t == st.(disk := WrittenDisk(st, x, offset, buf, junk))
    requires |ReadBytes(t, x, offset, |buf|, junk)| == |buf|
    ensures forall p: nat, l: nat :: LastFor(x, offset, |buf|, p, l) ==>
      ReadBytes(t, x, offset, |buf|, junk)[p - offset] == Piece(st.disk, x, offset, buf, l)[p % BLOCK_SIZE]
  {
    hide ReadBytes, WrittenDisk, Piece, StoreOk, StartBlock, EndBlock, InTables;
    forall p: nat, l: nat | LastFor(x, offset, |buf|, p, l)
      ensures ReadBytes(t, x, offset, |buf|, junk)[p - offset] == Piece(st.disk, x, offset, buf, l)[p % BLOCK_SIZE]
    {
      assert offset + (p - offset) == p;
      ReadsPiece(st, t, x, offset, buf, junk, p - offset, p / BLOCK_SIZE, p % BLOCK_SIZE, l);
    }
  }

  lemma DirectNamed(st: Store, n: Inode, j: nat)
    requires StoreOk(st) && InodeFits(n) && j < DIRECT_BLOCK
    ensures |n.direct| == DIRECT_BLOCK && NamedBlock(st, n, j) == n.direct[j] < MAX_BLOCK
  {
  }

  lemma SomeLastFor(n: Inode, offset: nat, size: nat, p: nat) returns (l: nat)
    requires |n.direct| == DIRECT_BLOCK && EndBlock(offset, size) < DIRECT_BLOCK && offset <= p < offset + size
    ensures LastFor(n, offset, size, p, l)
  {
    l := LastOf(n, offset, size, p / BLOCK_SIZE);
  }

  lemma ReadBackBy(d: seq<Block>, n: Inode, offset: nat, buf: seq<Byte>, bytes: seq<Byte>)
    requires |d| == MAX_BLOCK && DiskOk(d) && InodeFits(n) && EndBlock(offset, |buf|) < DIRECT_BLOCK
    requires |bytes| == |buf|
    requires forall p: nat, l: nat :: LastFor(n, offset, |buf|, p, l) ==>
      bytes[p - offset] == Piece(d, n, offset, buf, l)[p % BLOCK_SIZE]
    ensures bytes == buf <==> LastPiecesHold(d, n, offset, buf)
  {
    if LastPiecesHold(d, n, offset, buf) {
      hide Piece, LastNaming, EndBlock;
      forall i: nat | i < |buf| ensures bytes[i] == buf[i] {
        var l := SomeLastFor(n, offset, |buf|, offset + i);
        assert bytes[offset + i - offset] == Piece(d, n, offset, buf, l)[(offset + i) % BLOCK_SIZE];
      }
    }
  }

  // ----- What is not the file's -----

  lemma FoundOwns(s: Fs, name: Name)
    requires Inv(s) && Find(s.cur, name) >= 0
    ensures var n := Find(s.cur, name);
      && Sound(s) && FsShape(s) && StoreOk(s.store) && n < MAX_INODE == |s.inodes| && Allocated(s, n)
      && InodeFits(s.inodes[n]) && |s.store.disk| == MAX_BLOCK
  {
    FileFound(s, name);
    hide TreeOk;
  }

  /** `file_write`, to a file or a directory, leaves every block of every other file and directory as it was
      exactly when it ends beyond the direct blocks, or each stray entry that reaches one brings it as it is. */
  lemma OthersLeftAlone(s: Fs, name: Name, offset: nat, buf: seq<Byte>, junk: Block)
    requires Inv(s) && BlockOk(junk) && Find(s.cur, name) >= 0 && InTables(offset, |buf|)
    ensures FsShape(s) && Find(s.cur, name) < MAX_INODE && Allocated(s, Find(s.cur, name))
    ensures var (r, t) := FileWrite(s, name, offset, |buf|, buf, junk); var n := Find(s.cur, name);
      && r == Done && t == s.(store := t.store) && |t.store.disk| == MAX_BLOCK
      && (OthersKept(s, t, n) <==> EndBlock(offset, |buf|) >= DIRECT_BLOCK || OthersSpared(s, n, offset, buf))
  {
    hide *;
    FoundOwns(s, name);
    var n := Find(s.cur, name);
    if EndBlock(offset, |buf|) < DIRECT_BLOCK {
      ShortIs(s, name, offset, buf, junk);
      WrittenStore(s, n, offset, buf, junk);
      OthersKeptExactly(s, n, offset, buf, junk);
    } else {
      LongWrite(s, name, offset, buf, junk);
      NothingTouched(s, n);
    }
  }

  lemma NothingTouched(s: Fs, n: nat)
    requires Sound(s) && |s.store.disk| == MAX_BLOCK
    ensures OthersKept(s, s, n) && ListingsKept(s, s)
  {
  }

  /** And it leaves all listings alone exactly when it ends beyond the direct blocks, or every directory but the
      current one whose block the range names reads the same from the last piece written there. */
  lemma ListingsLeftAlone(s: Fs, name: Name, offset: nat, buf: seq<Byte>, junk: Block)
    requires Inv(s) && BlockOk(junk) && Find(s.cur, name) >= 0 && InTables(offset, |buf|)
    ensures FsShape(s) && Find(s.cur, name) < MAX_INODE && Allocated(s, Find(s.cur, name))
    ensures var (r, t) := FileWrite(s, name, offset, |buf|, buf, junk); var n := Find(s.cur, name);
      && r == Done && t == s.(store := t.store) && StoreOk(t.store)
      && (ListingsKept(s, t) <==> EndBlock(offset, |buf|) >= DIRECT_BLOCK || ListingsSpared(s, n, offset, buf))
  {
    hide *;
    FoundOwns(s, name);
    var n := Find(s.cur, name);
    if EndBlock(offset, |buf|) < DIRECT_BLOCK {
      ShortIs(s, name, offset, buf, junk);
      WrittenStore(s, n, offset, buf, junk);
      ListingsKeptExactly(s, n, offset, buf, junk);
    } else {
      LongWrite(s, name, offset, buf, junk);
      NothingTouched(s, n);
    }
  }

  // ----- The rest -----

  /** What a write to a file of a tree leaves. */
  lemma WrittenTree(t: Tree, name: Name, offset: nat, buf: seq<Byte>)
    requires t.cwd in t.dirs && Find(Here(t), name) in t.files
    ensures var (r, u) := Write(t, name, offset, |buf|, buf); var n := Find(Here(t), name);
      && r == Done && u == t.(files := u.files) && u.files.Keys == t.files.Keys && u.files[n].size == t.files[n].size
      && |u.files[n].data| == |t.files[n].data|
      && (forall p :: 0 <= p < |t.files[n].data| && !(offset <= p < offset + |buf|) ==>
            u.files[n].data[p] == t.files[n].data[p])
      && (forall m :: m in t.files && m != n ==> u.files[m] == t.files[m])
  {
  }

  /** A proper write leaves the other bytes of the file, every other file and every listing as they were. */
  lemma WriteKeepsTheRest(s: Fs, name: Name, offset: nat, buf: seq<Byte>, junk: Block)
    requires Inv(s) && BlockOk(junk) && Find(s.cur, name) in Abs(s).files && InTables(offset, |buf|)
    requires Proper(s, name, offset, |buf|, buf)
    ensures Find(s.cur, name) < MAX_INODE
    ensures var (r, t) := FileWrite(s, name, offset, |buf|, buf, junk); var n := Find(s.cur, name);
      && r == Done && Inv(t) && t.cur == s.cur && Abs(t) == Abs(s).(files := Abs(t).files)
      && Abs(t).files.Keys == Abs(s).files.Keys && Abs(t).files[n].size == Abs(s).files[n].size
      && |Abs(t).files[n].data| == |Abs(s).files[n].data|
      && (forall p :: 0 <= p < |Abs(s).files[n].data| && !(offset <= p < offset + |buf|) ==>
            Abs(t).files[n].data[p] == Abs(s).files[n].data[p])
      && (forall m :: m in Abs(s).files && m != n ==> Abs(t).files[m] == Abs(s).files[m])
  {
    hide Inv, Abs, Sound, TreeOk, FileWrite, Write, EndBlock, Proper, FsShape, InTables;
    InvTreeOk(s);
    FileParts(s, name);
    WriteRefines(s, name, offset, |buf|, buf, junk);
    WrittenTree(Abs(s), name, offset, buf);
    SameHereBy(s, FileWrite(s, name, offset, |buf|, buf, junk).1);
  }

  // ----- Reading past the end -----

  /** What `file_read` of a file prints, past its blocks as well: byte `q` is the one in the block the inode
      names for it, when that is a block number. */
  lemma ReadsWhatIsNamed(s: Fs, name: Name, offset: nat, size: nat, junk: Block, q: nat)
    requires Inv(s) && BlockOk(junk) && Find(s.cur, name) in Abs(s).files && InTables(offset, size) && q < size
    ensures 0 <= Find(s.cur, name) < MAX_INODE && FsShape(s) && InodeFits(s.inodes[Find(s.cur, name)])
    ensures (offset + q) / BLOCK_SIZE < DIRECT_BLOCK + MAX_INDIRECT_BLOCK
    ensures var a := FileRead(s, name, offset, size, junk);
      var b := NamedBlock(s.store, s.inodes[Find(s.cur, name)], (offset + q) / BLOCK_SIZE);
      && a.Printed? && |a.bytes| == size
      && (b < MAX_BLOCK ==> |s.store.disk[b]| == BLOCK_SIZE && a.bytes[q] == s.store.disk[b][(offset + q) % BLOCK_SIZE])
  {
    hide *;
    FileOwns(s, name);
    ReadsFileOf(s, name, offset, size, junk);
    ReadNamed(s.store, s.inodes[Find(s.cur, name)], offset, size, junk, q);
  }

  /** Until a file has been removed, what a short range shows past the file's blocks is disk block 0. */
  lemma PastIsBlockZero(s: Fs, name: Name, offset: nat, size: nat, junk: Block, q: nat)
    requires Inv(s) && BlockOk(junk) && Find(s.cur, name) in Abs(s).files && FsShape(s) && Tidy(s) && q < size
    requires EndBlock(offset, size) < DIRECT_BLOCK && |Abs(s).files[Find(s.cur, name)].data| <= offset + q
    ensures InTables(offset, size) && Find(s.cur, name) < MAX_INODE
    ensures var a := FileRead(s, name, offset, size, junk);
      a.Printed? && |a.bytes| == size && |s.store.disk[0]| == BLOCK_SIZE
        && a.bytes[q] == s.store.disk[0][(offset + q) % BLOCK_SIZE]
  {
    hide *;
    ShortInTables(offset, size);
    FileOwns(s, name);
    FileParts(s, name);
    ReadsWhatIsNamed(s, name, offset, size, junk, q);
    ZeroPast(s, Find(s.cur, name), offset, size, q);
  }

  lemma ZeroPast(s: Fs, n: nat, offset: nat, size: nat, q: nat)
    requires FsShape(s) && Tidy(s) && n < MAX_INODE && Allocated(s, n) && EndBlock(offset, size) < DIRECT_BLOCK
    requires q < size
    requires BLOCK_SIZE * s.inodes[n].blockCount <= offset + q
    ensures (offset + q) / BLOCK_SIZE < DIRECT_BLOCK && 0 < MAX_BLOCK
    ensures NamedBlock(s.store, s.inodes[n], (offset + q) / BLOCK_SIZE) == 0
  {
    hide EntriesOk, CountFree;
  }

  /** On the disk: cd into a child and cd ".." lead back to the same listing and leave every other
      listing and every file as it was. */
  lemma CdAndBack(s: Fs, name: Name)
    requires Inv(s) && name != DOT && (Cwd(s) != 0 ==> name != DOTDOT) && Find(s.cur, name) < MAX_INODE
    requires DirChange(s, name).0 == 0
    ensures var t := DirChange(s, name).1;
      && Inv(t) && Find(t.cur, DOTDOT) < MAX_INODE
      && var (r, u) := DirChange(t, DOTDOT);
        r == 0 && Inv(u) && u.cur == s.cur && Abs(u) == Abs(s)
  {
    hide *;
    CwdIs(s);
    ChangeRefines(s, name);
    var t := DirChange(s, name).1;
    CwdIs(t);
    ChangeRefines(t, DOTDOT);
    ThereAndBack(Abs(s), name);
    SameHereBy(s, DirChange(t, DOTDOT).1);
  }

  lemma CwdIs(s: Fs)
    requires Inv(s)
    ensures FsShape(s) && Sound(s) && TreeOk(Abs(s)) && Abs(s).cwd in Abs(s).dirs && s.cur != [] && Abs(s).cwd == Cwd(s)
  {
  }
}
