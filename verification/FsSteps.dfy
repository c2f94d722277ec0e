/** Single commands with their inode and block numbers written out: the lowest free ones, in order. */
module FsSteps {
  import opened Bits
  import opened Codec
  import opened FileSystem
  import opened FsInvariant
  import opened FsTree
  import opened FsCreate
  import opened FsRefinement
  import opened FsDirectories
  import opened FsRemove
  import opened FsRuns
  import opened FsPromises
  import opened FsFailures

  // ----- Blocks in order -----

  /** A map once `n` blocks have been taken. */
  function Marked(used: seq<bool>, n: nat): (u: seq<bool>)
    ensures |u| == |used|
  {
    if n == 0 then used
    else
      var u := Marked(used, n - 1);
      if LowestFree(u) < |u| then u[LowestFree(u) := true] else u
  }

  /** The block that is taken next then. */
  function Nth(used: seq<bool>, n: nat): nat {
    LowestFree(Marked(used, n))
  }

  function NextOnes(used: seq<bool>, i: nat, n: nat): (bs: seq<nat>)
    ensures |bs| == n && forall k :: 0 <= k < n ==> bs[k] == Nth(used, i + k)
  {
    seq<nat>(n, k requires 0 <= k < n => Nth(used, i + k))
  }

  lemma {:induction false} MarkedSum(used: seq<bool>, i: nat, j: nat)
    ensures Marked(Marked(used, i), j) == Marked(used, i + j)
  {
    if j > 0 { MarkedSum(used, i, j - 1); }
  }

  lemma {:induction false} StillFree(used: seq<bool>, n: nat)
    requires n <= CountFree(used)
    ensures CountFree(Marked(used, n)) == CountFree(used) - n
    ensures n < CountFree(used) ==> Nth(used, n) < |used| && !Marked(used, n)[Nth(used, n)]
  {
    FreeExists(Marked(used, n));
    if n > 0 {
      StillFree(used, n - 1);
      CountFreeUpdate(Marked(used, n - 1), Nth(used, n - 1), true);
    }
  }

  lemma TakesNext(st: Store)
    requires StoreOk(st) && st.free > 0
    ensures TakeBlock(st).0 == LowestFree(st.used) < |st.used| && TakeBlock(st).1.used == Marked(st.used, 1)
  {
    assert Marked(st.used, 0) == st.used;
    hide CountFree;
  }

  lemma {:induction false} GrabInOrder(st: Store, n: nat, tmp: seq<Byte>)
    requires StoreOk(st) && n <= st.free && BLOCK_SIZE * n <= |tmp|
    ensures Grab(st, n, tmp, 0).0 == NextOnes(st.used, 0, n) && Grab(st, n, tmp, 0).1.used == Marked(st.used, n)
  {
    hide TakeBlock, Chunk, StoreOk, CountFree, Marked, NextOnes, Grab;
    if n == 0 {
      MarkedNone(st.used);
      GrabNone(st, tmp);
    } else {
      GrabInOrder(st, n - 1, tmp);
      var t := Grab(st, n - 1, tmp, 0).1;
      TakesNext(t);
      MarkedSum(st.used, n - 1, 1);
      OnesNext(st.used, 0, n - 1);
      GrabNext(st, n, tmp);
    }
  }

  lemma GrabNone(st: Store, tmp: seq<Byte>)
    requires StoreOk(st)
    ensures Grab(st, 0, tmp, 0) == ([], st) && NextOnes(st.used, 0, 0) == []
  {
  }

  lemma GrabNext(st: Store, n: nat, tmp: seq<Byte>)
    requires StoreOk(st) && 0 < n <= st.free && BLOCK_SIZE * n <= |tmp|
    ensures var (bs, t) := Grab(st, n - 1, tmp, 0);
      && StoreOk(t) && t.free > 0
      && Grab(st, n, tmp, 0).0 == bs + [TakeBlock(t).0] && Grab(st, n, tmp, 0).1.used == TakeBlock(t).1.used
  {
    hide TakeBlock, Chunk, StoreOk, CountFree;
  }

  lemma OnesNone(used: seq<bool>, i: nat)
    ensures NextOnes(used, i, 0) == []
  {
  }

  lemma OnesNext(used: seq<bool>, i: nat, n: nat)
    ensures NextOnes(used, i, n + 1) == NextOnes(used, i, n) + [Nth(used, i + n)]
  {
  }

  lemma MarkedNext(used: seq<bool>, k: nat)
    requires Nth(used, k) < |used|
    ensures Marked(used, k + 1) == Marked(used, k)[Nth(used, k) := true]
  {
  }

  lemma MarkedNone(used: seq<bool>)
    ensures Marked(used, 0) == used
  {
  }

  /** Giving the last `n` blocks back. */
  lemma {:induction false} GivenUp(used: seq<bool>, i: nat, n: nat, b: nat)
    requires i + n <= CountFree(used) && b < |used|
    ensures Marked(used, i)[b] <==> Marked(used, i + n)[b] && b !in NextOnes(used, i, n)
  {
    hide *;
    if n == 0 {
      OnesNone(used, i);
    } else {
      GivenUp(used, i, n - 1, b);
      StillFree(used, i + n - 1);
      MarkedNext(used, i + n - 1);
      OnesNext(used, i, n - 1);
      if Marked(used, i)[b] { MarkedStays(used, i, n - 1, b); }
    }
  }

  lemma {:induction false} MarkedStays(used: seq<bool>, i: nat, n: nat, b: nat)
    requires b < |used| && Marked(used, i)[b]
    ensures Marked(used, i + n)[b]
  {
    if n > 0 { MarkedStays(used, i, n - 1, b); }
  }

  // ----- Commands -----

  /** Inodes 0 to `m - 1` are in use, and the first `i` of the blocks that are free in `used`. */
  ghost predicate At(s: Fs, cur: seq<Entry>, used: seq<bool>, i: nat, m: nat) {
    && Inv(s) && s.cur == cur && |used| == MAX_BLOCK && s.store.used == Marked(used, i) && i + 10 <= CountFree(used)
    && s.store.free == CountFree(used) - i && 1 <= m < 20 && |s.inodeUsed| == |s.inodes| == MAX_INODE
    && (forall k :: 0 <= k < MAX_INODE ==> (s.inodeUsed[k] <==> k < m))
    && (forall k :: 0 <= k < MAX_INODE ==> |s.inodes[k].direct| == DIRECT_BLOCK)
  }

  lemma AtFirst(s: Fs)
    requires Empty(s)
    ensures At(s, [Entry(DOT, 0)], s.store.used, 0, 1)
  {
    EmptyFacts(s);
    AbsParts(s, 0);
    TakenIsUsed(s);
    assert forall k :: 0 <= k < MAX_INODE ==> (Taken(NewTree())[k] <==> k == 0);
    hide Empty, Inv, Abs, TreeOk, Sound;
  }

  lemma NextInodeIs(used: seq<bool>, m: nat)
    requires |used| == MAX_INODE && m < 20 && forall k :: 0 <= k < MAX_INODE ==> (used[k] <==> k < m)
    ensures LowestFree(used) == m && CountFree(used) >= 1
  {
    assert !used[m];
    FreeExists(used);
  }

  lemma AtShape(s: Fs, cur: seq<Entry>, used: seq<bool>, i: nat, m: nat)
    requires At(s, cur, used, i, m)
    ensures Inv(s) && Sound(s) && FsShape(s) && StoreOk(s.store) && s.freeInodes >= 1 && LowestFree(s.inodeUsed) == m
    ensures Abs(s).cwd in Abs(s).dirs && Here(Abs(s)) == s.cur && s.cur != [] && |s.inodes| == MAX_INODE
    ensures 10 <= s.store.free && s.cur == cur && m < MAX_INODE
  {
    NextInodeIs(s.inodeUsed, m);
    HereIsCur(s);
  }

  /** `create` of a file of one block or two. */
  lemma CreateStep(s: Fs, cur: seq<Entry>, used: seq<bool>, i: nat, m: nat, name: Name, size: nat, n: nat,
    tmp: seq<Byte>)
    requires At(s, cur, used, i, m) && m < 19 && |cur| < 20 && i + n + 10 <= CountFree(used)
    requires NameOk(name) && Find(cur, name) < 0 && size < SMALL_FILE && Ceil(size) == n <= 2 && |tmp| == BLOCK_SIZE * n
    ensures Allowed(s, CreateFile(name, size, tmp)) && Asked(Abs(s), CreateFile(name, size, tmp))
    ensures var t := Step(s, CreateFile(name, size, tmp)).1;
      && At(t, cur + [Entry(name, m)], used, i + n, m + 1) && |s.inodes| == MAX_INODE
      && |s.inodes[m].direct| == DIRECT_BLOCK
      && t.inodes == s.inodes[m := Inode(File, size, n, NextOnes(used, i, n) + s.inodes[m].direct[n..],
                                         s.inodes[m].indirect)]
  {
    hide Inv, Abs, Grab, FileCreate, FsShape, Sound, Marked, Ceil, BlocksFor, First;
    AtShape(s, cur, used, i, m);
    Made(s, name, size, n, tmp);
    GrabInOrder(s.store, n, tmp);
    MarkedSum(used, i, n);
    SameOnes(used, i, n);
    hide NextOnes;
    LastEntryAdded(s, name, size, tmp);
  }

  lemma LastEntryAdded(s: Fs, name: Name, size: nat, tmp: seq<Byte>)
    requires Inv(s) && FsShape(s) && NameOk(name) && size < SMALL_FILE && BlocksFor(size) * BLOCK_SIZE == |tmp|
    ensures Abs(s).cwd in Abs(s).dirs && Allowed(s, CreateFile(name, size, tmp))
      && Asked(Abs(s), CreateFile(name, size, tmp))
    ensures Step(s, CreateFile(name, size, tmp)).1 == FileCreate(s, name, size, tmp).1
  {
    hide FileCreate, BlocksFor, Ceil, First, TreeOk;
    InvTreeOk(s);
  }

  lemma SameOnes(used: seq<bool>, i: nat, n: nat)
    ensures NextOnes(Marked(used, i), 0, n) == NextOnes(used, i, n)
  {
    forall k: nat | k < n ensures Nth(Marked(used, i), k) == Nth(used, i + k) {
      MarkedSum(used, i, k);
    }
  }

  /** A small creation that goes through. */
  lemma Made(s: Fs, name: Name, size: nat, n: nat, tmp: seq<Byte>)
    requires Inv(s) && NameOk(name) && size < SMALL_FILE && Ceil(size) == n && BLOCK_SIZE * n <= |tmp|
    requires SmallGoesThrough(s, name, size)
    ensures First(size) == size && BlocksFor(size) == n <= DIRECT_BLOCK && n <= s.store.free && StoreOk(s.store)
    ensures FsShape(s)
    ensures var t, k := FileCreate(s, name, size, tmp).1, LowestFree(s.inodeUsed);
      var (bs, st) := Grab(s.store, n, tmp, 0);
      && Inv(t) && k < MAX_INODE && t.store == st && t.inodeUsed == s.inodeUsed[k := true]
      && t.cur == s.cur + [Entry(name, k)]
      && |s.inodes[k].direct| == DIRECT_BLOCK
      && t.inodes == s.inodes[k := Inode(File, size, n, bs + s.inodes[k].direct[n..], s.inodes[k].indirect)]
  {
    hide Inv, Grab, CreateSmall, FileCreate, FsShape, Ceil;
    InvTreeOk(s);
    SmallFits(s, size);
    SplitInRange(size);
    SmallIs(s, name, size, tmp);
    CreateCases(s, name, size, tmp);
    CreateRefines(s, name, size, tmp);
  }

  /** `mkdir` */
  lemma MakeStep(s: Fs, cur: seq<Entry>, used: seq<bool>, i: nat, m: nat, name: Name)
    requires At(s, cur, used, i, m) && m < 19 && |cur| < 20 && i + 11 <= CountFree(used)
    requires NameOk(name) && Find(cur, name) < 0
    ensures Allowed(s, MakeDirectory(name)) && Asked(Abs(s), MakeDirectory(name))
    ensures var t := Step(s, MakeDirectory(name)).1;
      && At(t, cur + [Entry(name, m)], used, i + 1, m + 1) && |s.inodes| == MAX_INODE
      && |s.inodes[m].direct| == DIRECT_BLOCK
      && t.inodes == s.inodes[m := Inode(Directory, 1, 1, s.inodes[m].direct[0 := Nth(used, i)], s.inodes[m].indirect)]
  {
    hide Inv, Abs, TakeBlock, DirMake, FsShape, Sound, EncDir, CountFree;
    AtShape(s, cur, used, i, m);
    MakeIs(s, name);
    TakesNext(s.store);
    MarkedSum(used, i, 1);
    MakeRefines(s, name);
  }

  /** `rm` of the file listed last. */
  lemma RemoveStep(s: Fs, cur: seq<Entry>, used: seq<bool>, i: nat, n: nat, m: nat, name: Name)
    requires m >= 2 && At(s, cur + [Entry(name, m - 1)], used, i + n, m) && cur != [] && NameOk(name)
    requires Find(cur, name) < 0
    requires s.inodes[m - 1].kind == File && s.inodes[m - 1].blockCount == n <= 2
    requires s.inodes[m - 1].direct[..n] == NextOnes(used, i, n)
    ensures Abs(s).cwd in Abs(s).dirs && Allowed(s, RemoveFile(name)) && Asked(Abs(s), RemoveFile(name))
    ensures var t := Step(s, RemoveFile(name)).1; At(t, cur, used, i, m - 1) && t.inodes == s.inodes
  {
    hide Inv, Abs, FileRemove, FsShape, Sound, Marked, NextOnes, Removable, Compacted, Resized;
    var all := cur + [Entry(name, m - 1)];
    AtShape(s, all, used, i + n, m);
    FindAppended(cur, name, m - 1);
    RemovedIs(s, cur, name, m - 1);
    RemovedStep(s, name);
    var t := FileRemove(s, name).1;
    forall b | 0 <= b < MAX_BLOCK ensures t.store.used[b] == Marked(used, i)[b] {
      GivenUp(used, i, n, b);
    }
    assert t.store.used == Marked(used, i);
  }

  lemma RemovedStep(s: Fs, name: Name)
    requires Inv(s) && FsShape(s) && Here(Abs(s)) == s.cur && InPlace(s.cur, Find(s.cur, name)) && Removable(s, name)
    ensures Allowed(s, RemoveFile(name)) && Asked(Abs(s), RemoveFile(name))
    ensures Step(s, RemoveFile(name)).1 == FileRemove(s, name).1
  {
    hide FileRemove, TreeOk, Removable;
  }

  lemma RemovedIs(s: Fs, cur: seq<Entry>, name: Name, k: nat)
    requires Inv(s) && FsShape(s) && s.cur == cur + [Entry(name, k)] && cur != [] && Find(s.cur, name) == k < MAX_INODE
    requires Allocated(s, k) && s.inodes[k].kind == File && s.inodes[k].blockCount <= DIRECT_BLOCK
    ensures Removable(s, name) && InPlace(s.cur, k) && |s.inodes[k].direct| == DIRECT_BLOCK
    ensures var t := FileRemove(s, name).1;
      && Inv(t) && t.cur == cur && t.inodes == s.inodes && t.inodeUsed == s.inodeUsed[k := false]
      && t.store.free == s.store.free + s.inodes[k].blockCount && |t.store.used| == |s.store.used| == MAX_BLOCK
      && forall b :: 0 <= b < MAX_BLOCK ==>
           (t.store.used[b] <==> s.store.used[b] && b !in s.inodes[k].direct[..s.inodes[k].blockCount])
  {
    hide Abs, FileRemove, TreeOk, Removable;
    InvTreeOk(s);
    assert InPlace(s.cur, k) && SlotFor(s.cur, k) && IsFile(s, k);
    RemoveEffect(s, name);
    RemoveRefines(s, name);
  }

  // ----- Runs -----

  lemma GoOn(s: Fs, c: Command, rest: seq<Command>, cs: seq<Command>)
    requires cs == [c] + rest && Inv(s) && Allowed(s, c) && Asked(Abs(s), c) && Inv(Step(s, c).1)
    requires AllAllowed(Step(s, c).1, rest)
    ensures AllAllowed(s, cs) && Run(s, cs).1 == Run(Step(s, c).1, rest).1
  {
    hide *;
    OneMoreAllowed(s, c, rest);
    FirstAllowed(s, c, rest);
  }

  lemma NoMore(s: Fs)
    requires Inv(s)
    ensures AllAllowed(s, []) && Run(s, []).1 == s
  {
  }
}
