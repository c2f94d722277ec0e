/** The block file system refines the tree of module `FsTree`: every operation gives the same
    answer and leaves the tree that the abstract operation leaves. */
module FsRefinement {
  import opened Bits
  import opened Codec
  import opened FileSystem
  import opened FsInvariant
  import opened FsTree
  import opened FsCreate

  function Cwd(s: Fs): nat
    requires s.cur != []
  {
    s.cur[0].inode
  }

  ghost predicate IsDir(s: Fs, i: int)
    requires FsShape(s)
  {
    Allocated(s, i) && s.inodes[i].kind == Directory
  }

  ghost predicate IsFile(s: Fs, i: int)
    requires FsShape(s)
  {
    Allocated(s, i) && s.inodes[i].kind == File
  }

  /** A directory's listing: in memory for the current one, on its block for the others. */
  ghost function ListingOf(s: Fs, i: int): seq<Entry>
    requires Sound(s) && IsDir(s, i)
  {
    if i == Cwd(s) then s.cur else Listing(s.store, s.inodes[i])
  }

  ghost function FileOf(s: Fs, i: int): FileData
    requires Sound(s) && IsFile(s, i)
  {
    FileData(s.inodes[i].size, Content(s.store, s.inodes[i]))
  }

  ghost function DirsOf(s: Fs): (m: map<nat, seq<Entry>>)
    requires Sound(s)
    ensures forall i: nat :: i in m <==> i < MAX_INODE && IsDir(s, i)
    ensures forall i: nat :: i in m ==> m[i] == ListingOf(s, i)
  {
    map i: nat | i < MAX_INODE && IsDir(s, i) :: ListingOf(s, i)
  }

  ghost function FilesOf(s: Fs): (m: map<nat, FileData>)
    requires Sound(s)
    ensures forall i: nat :: i in m <==> i < MAX_INODE && IsFile(s, i)
    ensures forall i: nat :: i in m ==> m[i] == FileOf(s, i)
  {
    map i: nat | i < MAX_INODE && IsFile(s, i) :: FileOf(s, i)
  }

  ghost function Abs(s: Fs): Tree
    requires Sound(s)
  {
    Tree(Cwd(s), DirsOf(s), FilesOf(s), s.store.free)
  }

  ghost predicate Inv(s: Fs) {
    Sound(s) && TreeOk(Abs(s))
  }

  lemma TakenIsUsed(s: Fs)
    requires Sound(s)
    ensures Taken(Abs(s)) == s.inodeUsed && NextInode(Abs(s)) == LowestFree(s.inodeUsed)
    ensures s.freeInodes >= 1 <==> NextInode(Abs(s)) < MAX_INODE
  {
    assert Taken(Abs(s)) == s.inodeUsed;
    FreeExists(s.inodeUsed);
  }

  lemma HereIsCur(s: Fs)
    requires Inv(s)
    ensures Here(Abs(s)) == s.cur && IsDir(s, Cwd(s))
  {
  }

  lemma FileFound(s: Fs, name: Name)
    requires Inv(s) && Find(s.cur, name) >= 0
    ensures var n := Find(s.cur, name);
      && n < MAX_INODE && (n in Abs(s).files ==> IsFile(s, n))
      && (n in Abs(s).dirs ==> IsDir(s, n))
    ensures var n := Find(s.cur, name); n in Abs(s).files || n in Abs(s).dirs
  {
    HereIsCur(s);
    FindInTree(Abs(s), name);
  }

  // ----- Adding an inode -----

  /** Inode `i` is the same directory or file; the current directory's listing may differ. */
  ghost predicate Kept(s: Fs, t: Fs, i: nat)
    requires Sound(s) && Sound(t)
  {
    && (IsDir(s, i) <==> IsDir(t, i)) && (IsFile(s, i) <==> IsFile(t, i))
    && (IsDir(s, i) && i != Cwd(s) ==> ListingOf(t, i) == ListingOf(s, i))
    && (IsFile(s, i) ==> FileOf(t, i) == FileOf(s, i))
  }

  lemma KeptInode(s: Fs, t: Fs, k: nat, i: nat)
    requires Sound(s) && Sound(t) && Extends(s, t, k) && Allocated(t, k) && i < MAX_INODE && i != k
    requires Cwd(t) == Cwd(s)
    ensures Kept(s, t, i)
  {
    if Allocated(s, i) { OthersUntouched(s, t, k, i); }
  }

  ghost predicate KeptBut(s: Fs, t: Fs, k: nat)
    requires Sound(s) && Sound(t)
  {
    forall i: nat :: i < MAX_INODE && i != k ==> Kept(s, t, i)
  }

  lemma FilesKept(s: Fs, t: Fs, k: nat)
    requires Sound(s) && Sound(t) && k < MAX_INODE && KeptBut(s, t, k)
    ensures IsFile(t, k) ==> FilesOf(t) == FilesOf(s)[k := FileOf(t, k)]
    ensures !IsFile(t, k) && !IsFile(s, k) ==> FilesOf(t) == FilesOf(s)
  {
    var e := if IsFile(t, k) then FilesOf(s)[k := FileOf(t, k)] else FilesOf(s);
    forall i: nat | IsFile(t, k) || !IsFile(s, k)
      ensures (i in FilesOf(t) <==> i in e) && (i in e ==> FilesOf(t)[i] == e[i])
    {
      if i < MAX_INODE && i != k { assert Kept(s, t, i); }
    }
  }

  lemma DirKept(s: Fs, t: Fs, k: nat, i: nat)
    requires Sound(s) && Sound(t) && k < MAX_INODE && KeptBut(s, t, k) && i != k
    requires IsDir(s, Cwd(s)) && k != Cwd(s) && Cwd(t) == Cwd(s)
    ensures i in DirsOf(t) <==> i in DirsOf(s)
    ensures i in DirsOf(s) ==> DirsOf(t)[i] == if i == Cwd(s) then t.cur else DirsOf(s)[i]
  {
    if i < MAX_INODE { assert Kept(s, t, i); }
  }

  lemma DirsKept(s: Fs, t: Fs, k: nat)
    requires Sound(s) && Sound(t) && k < MAX_INODE && KeptBut(s, t, k)
    requires IsDir(s, Cwd(s)) && k != Cwd(s) && Cwd(t) == Cwd(s) && (IsDir(s, k) ==> IsDir(t, k))
    ensures IsDir(t, k) ==> DirsOf(t) == DirsOf(s)[Cwd(s) := t.cur][k := ListingOf(t, k)]
    ensures !IsDir(t, k) ==> DirsOf(t) == DirsOf(s)[Cwd(s) := t.cur]
  {
    var m, n, c := DirsOf(s), DirsOf(t), Cwd(s);
    forall i: nat | i != k
      ensures (i in n <==> i in m) && (i in m ==> n[i] == if i == c then t.cur else m[i])
    {
      DirKept(s, t, k, i);
    }
    TwoUpdates(m, n, c, t.cur, k);
  }

  lemma TwoUpdates<V>(m: map<nat, V>, n: map<nat, V>, c: nat, v: V, k: nat)
    requires c in m && k != c
    requires forall i: nat :: i != k ==> (i in n <==> i in m) && (i in m ==> n[i] == if i == c then v else m[i])
    ensures k in n ==> n == m[c := v][k := n[k]]
    ensures k !in n && k !in m ==> n == m[c := v]
  {
  }

  /** The tree of `t`, when it has one more inode or a longer file `k`, and a longer current listing. */
  lemma TreeExtends(s: Fs, t: Fs, k: nat)
    requires Sound(s) && Sound(t) && Extends(s, t, k) && Allocated(t, k) && IsDir(s, Cwd(s)) && k != Cwd(s)
    requires Cwd(t) == Cwd(s)
    requires Allocated(s, k) ==> s.inodes[k].kind == t.inodes[k].kind == File
    ensures IsFile(t, k) ==>
      Abs(t) == Tree(Cwd(s), DirsOf(s)[Cwd(s) := t.cur], FilesOf(s)[k := FileOf(t, k)], t.store.free)
    ensures IsDir(t, k) ==>
      Abs(t) == Tree(Cwd(s), DirsOf(s)[Cwd(s) := t.cur][k := ListingOf(t, k)], FilesOf(s), t.store.free)
  {
    forall i: nat | i < MAX_INODE && i != k ensures Kept(s, t, i) {
      KeptInode(s, t, k, i);
    }
    assert IsDir(t, Cwd(t)) by { assert Kept(s, t, Cwd(s)); }
    FilesKept(s, t, k);
    DirsKept(s, t, k);
  }

  // ----- file_create -----

  lemma CanCreateIs(s: Fs, name: Name, size: nat)
    requires Inv(s)
    ensures CanCreate(Abs(s), name, Ceil(size)) <==> SmallGoesThrough(s, name, size)
    ensures NextInode(Abs(s)) == LowestFree(s.inodeUsed)
  {
    TakenIsUsed(s);
    HereIsCur(s);
  }

  /** The tree after the first, or only, half of a creation. */
  lemma SmallRefines(s: Fs, name: Name, size: nat, tmp: seq<Byte>)
    requires Inv(s) && NameOk(name) && size < SMALL_FILE && BLOCK_SIZE * Ceil(size) <= |tmp|
    requires SmallGoesThrough(s, name, size)
    ensures var (k, t) := CreateSmall(s, name, size, tmp); var a := Abs(s);
      && Sound(t) && 0 <= k == NextInode(a)
      && Abs(t) == Tree(a.cwd, WithEntry(a, name, k), a.files[k := FileData(size, tmp[..BLOCK_SIZE * Ceil(size)])],
                        a.freeBlocks - Ceil(size))
  {
    var (k, t) := CreateSmall(s, name, size, tmp);
    SmallEffect(s, name, size, tmp);
    CanCreateIs(s, name, size);
    HereIsCur(s);
    hide CreateSmall, Extends, ListingOf;
    TreeExtends(s, t, k);
  }

  lemma SameHere(s: Fs)
    requires Sound(s) && IsDir(s, Cwd(s))
    ensures DirsOf(s)[Cwd(s) := s.cur] == DirsOf(s)
  {
  }

  lemma LargeRefines(s: Fs, k: nat, size: nat, tmp: seq<Byte>)
    requires Sound(s) && IsFile(s, k) && IsDir(s, Cwd(s))
    requires s.inodes[k].blockCount == DIRECT_BLOCK && s.inodes[k].size == SMALL_FILE - 1
    requires 1 <= Ceil(size) <= MAX_INDIRECT_BLOCK && Ceil(size) + 1 <= s.store.free
    requires BLOCK_SIZE * (DIRECT_BLOCK + Ceil(size)) <= |tmp|
    ensures var t := CreateLarge(s, k, size, tmp).1;
      var more := tmp[BLOCK_SIZE * DIRECT_BLOCK..BLOCK_SIZE * (DIRECT_BLOCK + Ceil(size))];
      && Sound(t)
      && Abs(t) == Abs(s).(files := Abs(s).files[k := FileData(SMALL_FILE - 1 + size, FileOf(s, k).data + more)],
                           freeBlocks := s.store.free - Ceil(size) - 1)
  {
    hide Ceil, CreateLarge, Gather, DataBlocks, InodeOk, DirsOf, FilesOf, Extends;
    var t := CreateLarge(s, k, size, tmp).1;
    LargeEffect(s, k, size, tmp);
    TreeExtends(s, t, k);
    SameHere(s);
  }

  /** What `file_create` does, by its halves. */
  lemma CreateCases(s: Fs, name: Name, size: nat, tmp: seq<Byte>)
    requires FsShape(s) && NameOk(name) && size < LARGE_FILE && BLOCK_SIZE * BlocksFor(size) <= |tmp|
    ensures Ceil(First(size)) <= DIRECT_BLOCK && Ceil(size - First(size)) <= MAX_INDIRECT_BLOCK
    ensures var (k, t) := CreateSmall(s, name, First(size), tmp);
      && k < MAX_INODE && FsShape(t)
      && FileCreate(s, name, size, tmp)
           == if size < SMALL_FILE then (0, t) else if k < 0 then (-1, t)
              else (0, (SplitInRange(size); CreateLarge(t, k, size - First(size), tmp).1))
  {
    SplitInRange(size);
    CreateSmallShape(s, name, First(size), tmp);
    hide Grab, Ceil, First;
  }

  /** What it does once the first half has gone through. */
  lemma CreateSteps(s: Fs, name: Name, size: nat, tmp: seq<Byte>)
    requires FsShape(s) && NameOk(name) && size < LARGE_FILE && BLOCK_SIZE * BlocksFor(size) <= |tmp|
    requires SmallGoesThrough(s, name, First(size))
    ensures Ceil(First(size)) <= DIRECT_BLOCK && Ceil(size - First(size)) <= MAX_INDIRECT_BLOCK
    ensures var (k, t) := CreateSmall(s, name, First(size), tmp);
      && 0 <= k < MAX_INODE && FsShape(t)
      && FileCreate(s, name, size, tmp) == (0, if size < SMALL_FILE then t
                                               else (SplitInRange(size); CreateLarge(t, k, size - First(size), tmp).1))
  {
    CreateCases(s, name, size, tmp);
    hide Grab, Ceil, First;
  }

  lemma AbsParts(s: Fs, k: nat)
    requires Sound(s)
    ensures Abs(s).freeBlocks == s.store.free && Abs(s).cwd == Cwd(s)
    ensures Abs(s).files == FilesOf(s) && Abs(s).dirs == DirsOf(s)
    ensures IsFile(s, k) ==> k in Abs(s).files && Abs(s).files[k] == FileOf(s, k)
  {
  }

  lemma LargeFails(s: Fs, k: nat, size: nat, tmp: seq<Byte>)
    requires Sound(s) && k < MAX_INODE && Ceil(size) <= MAX_INDIRECT_BLOCK
    requires BLOCK_SIZE * (DIRECT_BLOCK + Ceil(size)) <= |tmp|
    requires Ceil(size) + 1 > s.store.free
    ensures CreateLarge(s, k, size, tmp).1 == s
  {
  }

  lemma EnoughData(size: nat, tmp: seq<Byte>)
    requires size < LARGE_FILE && BLOCK_SIZE * BlocksFor(size) <= |tmp|
    ensures BLOCK_SIZE * Ceil(First(size)) <= |tmp|
    ensures size >= SMALL_FILE ==> BLOCK_SIZE * (DIRECT_BLOCK + Ceil(size - First(size))) <= |tmp|
    ensures size >= SMALL_FILE ==>
      First(size) == SMALL_FILE - 1 && Ceil(First(size)) == DIRECT_BLOCK
        && 1 <= Ceil(size - First(size)) <= MAX_INDIRECT_BLOCK
  {
    SplitInRange(size);
  }

  /** The tree after the first half of a creation. */
  function HalfMade(a: Tree, name: Name, size: nat, tmp: seq<Byte>): Tree
    requires a.cwd in a.dirs && BLOCK_SIZE * Ceil(First(size)) <= |tmp|
  {
    var k, c := NextInode(a), Ceil(First(size));
    Tree(a.cwd, WithEntry(a, name, k), a.files[k := FileData(First(size), tmp[..BLOCK_SIZE * c])], a.freeBlocks - c)
  }

  /** The tree once the second half, `n` bytes, has gone through or found no room. */
  function Grown(h: Tree, k: nat, n: nat, tmp: seq<Byte>): Tree
    requires k in h.files && BLOCK_SIZE * (DIRECT_BLOCK + Ceil(n)) <= |tmp|
  {
    if Ceil(n) + 1 > h.freeBlocks then h
    else
      var more := tmp[BLOCK_SIZE * DIRECT_BLOCK..BLOCK_SIZE * (DIRECT_BLOCK + Ceil(n))];
      h.(files := h.files[k := FileData(SMALL_FILE - 1 + n, h.files[k].data + more)],
        freeBlocks := h.freeBlocks - Ceil(n) - 1)
  }

  /** `Create`, from its halves. */
  lemma CreateInHalves(a: Tree, name: Name, size: nat, tmp: seq<Byte>)
    requires a.cwd in a.dirs && size < LARGE_FILE && BLOCK_SIZE * BlocksFor(size) <= |tmp|
    requires CanCreate(a, name, Ceil(First(size)))
    ensures var h := HalfMade(a, name, size, tmp);
      Create(a, name, size, tmp) == (0,
        if size < SMALL_FILE then h else (EnoughData(size, tmp); Grown(h, NextInode(a), size - First(size), tmp)))
  {
    var c, n, k := Ceil(First(size)), Ceil(size - First(size)), NextInode(a);
    SplitInRange(size);
    hide Ceil, First, NextInode;
    assert tmp[..BLOCK_SIZE * c] + tmp[BLOCK_SIZE * c..BLOCK_SIZE * (c + n)] == tmp[..BLOCK_SIZE * (c + n)];
    if size >= SMALL_FILE && n + 1 <= a.freeBlocks - c {
      var d := FileData(First(size), tmp[..BLOCK_SIZE * c]);
      var e := FileData(size, tmp[..BLOCK_SIZE * (c + n)]);
      assert a.files[k := d][k := e] == a.files[k := e];
    }
  }

  lemma SecondHalf(t: Fs, k: nat, n: nat, tmp: seq<Byte>)
    requires Sound(t) && IsFile(t, k) && IsDir(t, Cwd(t))
    requires t.inodes[k].blockCount == DIRECT_BLOCK && t.inodes[k].size == SMALL_FILE - 1
    requires 1 <= Ceil(n) <= MAX_INDIRECT_BLOCK && BLOCK_SIZE * (DIRECT_BLOCK + Ceil(n)) <= |tmp|
    ensures var u := CreateLarge(t, k, n, tmp).1;
      Sound(u) && Abs(u) == Grown(Abs(t), k, n, tmp)
  {
    hide Ceil, CreateLarge, Gather, DataBlocks, DirsOf, FilesOf, FileOf, Sound, IsFile, IsDir;
    AbsParts(t, k);
    if Ceil(n) + 1 <= t.store.free {
      LargeRefines(t, k, n, tmp);
    } else {
      LargeFails(t, k, n, tmp);
    }
  }

  lemma FirstHalf(s: Fs, name: Name, size: nat, tmp: seq<Byte>)
    requires Inv(s) && NameOk(name) && BLOCK_SIZE * Ceil(First(size)) <= |tmp|
    requires SmallGoesThrough(s, name, First(size))
    ensures var (k, t) := CreateSmall(s, name, First(size), tmp);
      && Sound(t) && 0 <= k < MAX_INODE && k == NextInode(Abs(s)) && Abs(t) == HalfMade(Abs(s), name, size, tmp)
      && IsFile(t, k) && t.inodes[k].blockCount == Ceil(First(size)) && t.inodes[k].size == First(size)
      && IsDir(t, Cwd(t))
  {
    hide CreateSmall, Sound, Ceil, First;
    SmallRefines(s, name, First(size), tmp);
    SmallEffect(s, name, First(size), tmp);
    HereIsCur(s);
  }

  /** `file_create`, small or large, with room or without. */
  lemma CreateRefines(s: Fs, name: Name, size: nat, tmp: seq<Byte>)
    requires Inv(s) && NameOk(name) && (size < LARGE_FILE ==> BLOCK_SIZE * BlocksFor(size) <= |tmp|)
    ensures var (r, t) := FileCreate(s, name, size, tmp);
      Inv(t) && (r, Abs(t)) == Create(Abs(s), name, size, tmp)
  {
    CreateKeepsTree(Abs(s), name, size, tmp);
    if size < LARGE_FILE {
      CanCreateIs(s, name, First(size));
      if SmallGoesThrough(s, name, First(size)) {
        CreateThrough(s, name, size, tmp);
      }
    }
  }

  lemma InvFacts(s: Fs)
    requires Inv(s)
    ensures Sound(s) && FsShape(s) && Abs(s).cwd in Abs(s).dirs
  {
  }

  lemma CreateThrough(s: Fs, name: Name, size: nat, tmp: seq<Byte>)
    requires Inv(s) && NameOk(name) && size < LARGE_FILE && BLOCK_SIZE * BlocksFor(size) <= |tmp|
    requires SmallGoesThrough(s, name, First(size)) && CanCreate(Abs(s), name, Ceil(First(size)))
    ensures var (r, t) := FileCreate(s, name, size, tmp);
      Sound(t) && (r, Abs(t)) == Create(Abs(s), name, size, tmp)
  {
    hide *;
    InvFacts(s);
    EnoughData(size, tmp);
    CreateSteps(s, name, size, tmp);
    FirstHalf(s, name, size, tmp);
    var (k, t) := CreateSmall(s, name, First(size), tmp);
    CreateInHalves(Abs(s), name, size, tmp);
    if size >= SMALL_FILE {
      SecondHalf(t, k, size - First(size), tmp);
    }
  }
}
