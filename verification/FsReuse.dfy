/** A freed inode keeps its block numbers, and the file that gets it next reads and writes through them. */
module FsReuse {
  import opened Bits
  import opened Codec
  import opened FileSystem
  import opened FsInvariant
  import opened FsContents
  import opened FsTree
  import opened FsWrite
  import opened FsRefinement
  import opened FsWriteReach
  import opened FsWriteRefinement
  import opened FsRemove
  import opened FsRuns
  import opened FsPromises
  import opened FsFailures
  import opened FsSteps

  const E: Name := [101]
  const V: Name := [118]
  const W: Name := [119]

  // ----- Another inode's block -----

  /** The first direct entry past the one block of file `n` is the block of inode `m`. */
  ghost predicate Stale(s: Fs, n: nat, m: nat) {
    && FsShape(s) && IsFile(s, n) && Allocated(s, m) && n != m
    && s.inodes[n].blockCount == s.inodes[m].blockCount == 1 && s.inodes[n].direct[1] == s.inodes[m].direct[0]
  }

  lemma OneBlockFile(s: Fs, m: nat)
    requires Sound(s) && IsFile(s, m) && s.inodes[m].blockCount == 1
    ensures Content(s.store, s.inodes[m]) == s.store.disk[s.inodes[m].direct[0]]
  {
    var q := s.inodes[m].direct[0];
    assert DataBlocks(s.store, s.inodes[m]) == [q];
    OneGathered(s.store.disk, q, Zeros(BLOCK_SIZE));
  }

  lemma OneGathered(d: seq<Block>, q: nat, junk: Block)
    requires q < |d|
    ensures Gather(d, [q], junk) == d[q]
  {
    assert Gather(d, [q], junk) == d[q] + Gather(d, [], d[q]);
  }

  lemma OneScattered(d: seq<Block>, q: nat, w: seq<Byte>)
    requires q < |d| && |w| == BLOCK_SIZE
    ensures Scatter(d, [q], w) == d[q := w]
  {
    assert w[..BLOCK_SIZE * 0] == [] && w[BLOCK_SIZE * 0..] == w && [q][..0] == [];
  }

  /** A byte written just past the blocks of file `n` then becomes the first byte of file `m`. */
  lemma WrittenToAnother(s: Fs, name: Name, m: nat, x: Byte, junk: Block)
    requires Inv(s) && BlockOk(junk) && Find(s.cur, name) >= 0 && Stale(s, Find(s.cur, name), m) && IsFile(s, m)
    ensures Find(s.cur, name) < MAX_INODE && EndBlock(512, 1) == 1
    ensures var (r, t) := FileWrite(s, name, 512, 1, [x], junk);
      && r == Done && Sound(t) && IsFile(t, m) && |FileOf(t, m).data| == BLOCK_SIZE && FileOf(t, m).data[0] == x
  {
    FileFound(s, name);
    StaleWritten(s, name, m, x, junk);
    var t := FileWrite(s, name, 512, 1, [x], junk).1;
    OneBlockFile(s, m);
    ContentLength(s.store, s.inodes[m]);
    RewriteSound(s, t, m);
    hide FileWrite, Rewrites, InodeOk;
    OneBlockFile(t, m);
    ContentLength(t.store, t.inodes[m]);
  }

  /** Or the count of the entries of directory `m`: above 25 its listing, and the file system, are gone. */
  lemma WrittenToListing(s: Fs, name: Name, m: nat, x: Byte, junk: Block)
    requires Inv(s) && BlockOk(junk) && Find(s.cur, name) >= 0 && Stale(s, Find(s.cur, name), m) && x > 25
    requires IsDir(s, m) && m != Cwd(s)
    ensures Find(s.cur, name) < MAX_INODE && EndBlock(512, 1) == 1
    ensures var (r, t) := FileWrite(s, name, 512, 1, [x], junk);
      && r == Done && Sound(t) && IsDir(t, m) && Listing(t.store, t.inodes[m]) == [] && !Inv(t)
  {
    FileFound(s, name);
    StaleWritten(s, name, m, x, junk);
    var t, q := FileWrite(s, name, 512, 1, [x], junk).1, s.inodes[m].direct[0];
    RewriteSound(s, t, m);
    hide FileWrite, Rewrites, InodeOk, DecDir, Overlaid, TreeOk;
    TooMany(s.store.disk[q], x);
    NoListing(s, t, m);
  }

  /** `file_read` just past the blocks of file `n` prints what file `m` begins with. */
  lemma ReadFromAnother(s: Fs, name: Name, m: nat, junk: Block)
    requires Inv(s) && BlockOk(junk) && Find(s.cur, name) >= 0 && Stale(s, Find(s.cur, name), m) && IsFile(s, m)
    ensures Find(s.cur, name) < MAX_INODE && InTables(512, 1) && |FileOf(s, m).data| == BLOCK_SIZE
    ensures FileRead(s, name, 512, 1, junk) == Printed(FileOf(s, m).data[..1])
  {
    hide Inv, Abs, FileRead, Content, InodeOk, TreeOk;
    var n := Find(s.cur, name);
    InvTreeOk(s);
    StaleFile(s, name, m);
    ReadsWhatIsNamed(s, name, 512, 1, junk, 0);
    OneBlockFile(s, m);
    ContentLength(s.store, s.inodes[m]);
    assert FileRead(s, name, 512, 1, junk).bytes == FileOf(s, m).data[..1];
  }

  lemma StaleFile(s: Fs, name: Name, m: nat)
    requires Inv(s) && Find(s.cur, name) >= 0 && Stale(s, Find(s.cur, name), m) && IsFile(s, m)
    ensures Find(s.cur, name) in Abs(s).files && Find(s.cur, name) < MAX_INODE && InTables(512, 1) && FsShape(s)
    ensures StoreOk(s.store) && InodeFits(s.inodes[Find(s.cur, name)]) && InodeShape(s.inodes[m])
      && s.inodes[m].blockCount == 1
    ensures NamedBlock(s.store, s.inodes[Find(s.cur, name)], (512 + 0) / BLOCK_SIZE)
      == s.inodes[m].direct[0] < MAX_BLOCK
  {
    FileFound(s, name);
    InFiles(s, Find(s.cur, name));
    hide TreeOk;
  }

  lemma StaleWritten(s: Fs, name: Name, m: nat, x: Byte, junk: Block)
    requires Inv(s) && BlockOk(junk) && 0 <= Find(s.cur, name) < MAX_INODE && Stale(s, Find(s.cur, name), m)
    ensures var (r, t) := FileWrite(s, name, 512, 1, [x], junk); var q := s.inodes[m].direct[0];
      && r == Done && FsShape(t) && t.inodes == s.inodes && t.inodeUsed == s.inodeUsed && Rewrites(s, t, m)
      && q < MAX_BLOCK && |t.store.disk| == MAX_BLOCK && |t.store.disk[q]| == BLOCK_SIZE && t.store.disk[q][0] == x
      && |s.store.disk[q]| == BLOCK_SIZE && t.store.disk[q] == Overlaid(s.store.disk[q], 0, [x])
  {
    hide *;
    var n := Find(s.cur, name);
    StaleFacts(s, n, m);
    var q := s.inodes[m].direct[0];
    ShortIs(s, name, 512, [x], junk);
    WrittenStore(s, n, 512, [x], junk);
    StaleDisk(s.store, s.inodes[n], q, x, junk);
    Rewritten(s, FileWrite(s, name, 512, 1, [x], junk).1, m, q, Overlaid(s.store.disk[q], 0, [x]));
  }

  lemma StaleFacts(s: Fs, n: nat, m: nat)
    requires Inv(s) && Stale(s, n, m)
    ensures Sound(s) && FsShape(s) && StoreOk(s.store) && Allocated(s, n) && Allocated(s, m) && n < |s.inodes|
      && m < |s.inodes|
    ensures |s.inodes[n].direct| == |s.inodes[m].direct| == DIRECT_BLOCK
      && s.inodes[n].direct[1] == s.inodes[m].direct[0]
    ensures InodeFits(s.inodes[n]) && InodeShape(s.inodes[n]) && EndBlock(512, |[0]|) == 1 < DIRECT_BLOCK == 10
      && InTables(512, 1)
    ensures InodeShape(s.inodes[m]) && METADATA_BLOCKS <= s.inodes[m].direct[0] < MAX_BLOCK
    ensures DataBlocks(s.store, s.inodes[m]) == [s.inodes[m].direct[0]]
  {
    hide Inv, EntriesOk, CountFree;
    InvTreeOk(s);
    InodeIs(s, n);
    InodeIs(s, m);
    hide Sound;
    DirectEntry(s.store, s.inodes[m], 0);
  }

  lemma InodeIs(s: Fs, i: nat)
    requires Sound(s) && Allocated(s, i)
    ensures StoreOk(s.store) && i < |s.inodes| && InodeOk(s.store, s.inodes[i])
  {
    hide InodeOk, StoreOk;
  }

  lemma Rewritten(s: Fs, t: Fs, m: nat, q: nat, w: Block)
    requires Sound(s) && FsShape(s) && StoreOk(s.store) && Allocated(s, m) && m < |s.inodes| && InodeShape(s.inodes[m])
    requires DataBlocks(s.store, s.inodes[m]) == [q] && q < |s.store.disk|
    requires t == s.(store := s.store.(disk := s.store.disk[q := w])) && StoreOk(t.store)
    ensures FsShape(t) && t.inodes == s.inodes && t.inodeUsed == s.inodeUsed && Rewrites(s, t, m)
      && |t.store.disk| == MAX_BLOCK
    ensures t.store.disk[q] == w
  {
    DataOnly(s, t, m);
    hide DataBlocks, InodeOk, EntriesOk, CountFree;
  }

  lemma StaleDisk(st: Store, n: Inode, q: nat, x: Byte, junk: Block)
    requires StoreOk(st) && InodeShape(n) && BlockOk(junk) && q < MAX_BLOCK && n.direct[1] == q
    ensures |st.disk| == MAX_BLOCK && |st.disk[q]| == BLOCK_SIZE && InTables(512, 1)
    ensures var w := Overlaid(st.disk[q], 0, [x]);
      && WrittenDisk(st, n, 512, [x], junk) == st.disk[q := w] && |w| == BLOCK_SIZE && w[0] == x
      && StoreOk(st.(disk := st.disk[q := w]))
  {
    assert Touched(st, n, 512, 1) == [q];
    OneGathered(st.disk, q, junk);
    OneScattered(st.disk, q, Overlaid(st.disk[q], 0, [x]));
    hide Gather, Scatter, Touched, Overlaid;
    assert BlockOk(st.disk[q]);
  }

  // ----- The file's own block, twice -----

  /** A write that ends with the file's only block, when the entry after it names that block again, is
      answered Done and changes nothing. */
  lemma WrittenInVain(s: Fs, name: Name, buf: seq<Byte>, junk: Block)
    requires Inv(s) && BlockOk(junk) && Find(s.cur, name) in Abs(s).files && |buf| == 10
    requires 0 <= Find(s.cur, name) < |s.inodes| && |s.inodes[Find(s.cur, name)].direct| == DIRECT_BLOCK
    requires var x := s.inodes[Find(s.cur, name)]; x.blockCount == 1 && x.direct[1] == x.direct[0]
    ensures FsShape(s) && Find(s.cur, name) < MAX_INODE && InTables(502, 10)
    ensures FileWrite(s, name, 502, 10, buf, junk) == (Done, s)
  {
    hide Inv, Abs, WrittenDisk, FileWrite, InodeOk, EntriesOk;
    var n := Find(s.cur, name);
    FileOwns(s, name);
    ShortIs(s, name, 502, buf, junk);
    SameDisk(s.store, s.inodes[n], buf, junk);
    assert Written(s, n, 502, buf, junk) == s;
  }

  lemma SameDisk(st: Store, x: Inode, buf: seq<Byte>, junk: Block)
    requires StoreOk(st) && InodeFits(x) && |x.direct| == DIRECT_BLOCK && BlockOk(junk) && |buf| == 10
    requires x.direct[1] == x.direct[0]
    ensures InTables(502, 10) && WrittenDisk(st, x, 502, buf, junk) == st.disk
  {
    assert StartBlock(502) == 0 && EndBlock(502, 10) == 1;
    assert LastNaming(x, 502, |buf|, 1);
    ShortTouched(st, x, 502, |buf|);
    hide WrittenDisk, StoreOk;
    WrittenLast(st, x, 502, buf, junk, 1);
    NotCovered(st.disk, x, 502, buf, 1);
    forall b: nat | b < MAX_BLOCK ensures WrittenDisk(st, x, 502, buf, junk)[b] == st.disk[b] {
      if b != x.direct[0] { WrittenElse(st, x, 502, buf, junk, b); }
    }
  }

  // ----- Runs -----

  lemma Sizes()
    ensures Ceil(1024) == 2 && Ceil(512) == 1 && Ceil(1) == 1
    ensures NameOk(A) && NameOk(B) && NameOk(D) && NameOk(E) && NameOk(V) && NameOk(W)
  {
  }

  /** `create a 1024`, `rm a`, `create a 1` */
  function AgainA(big: seq<Byte>, one: seq<Byte>, rest: seq<Command>): seq<Command> {
    [CreateFile(A, 1024, big), RemoveFile(A), CreateFile(A, 1, one)] + rest
  }

  /** The state after these. */
  ghost predicate Reused(t: Fs, used: seq<bool>) {
    && At(t, [Entry(DOT, 0), Entry(A, 1)], used, 1, 2) && 13 <= CountFree(used)
    && t.inodes[1].kind == File && t.inodes[1].blockCount == 1 && t.inodes[1].direct[1] == Nth(used, 1)
  }

  lemma ReusedA(s: Fs, big: seq<Byte>, one: seq<Byte>) returns (p: Fs, q: Fs, t: Fs)
    requires Empty(s) && |big| == 2 * BLOCK_SIZE && |one| == BLOCK_SIZE
    ensures Inv(s) && Abs(s).cwd in Abs(s).dirs && Asked(Abs(s), CreateFile(A, 1024, big))
      && Allowed(s, CreateFile(A, 1024, big))
    ensures p == Step(s, CreateFile(A, 1024, big)).1 && Inv(p) && Allowed(p, RemoveFile(A))
      && Asked(Abs(p), RemoveFile(A))
    ensures q == Step(p, RemoveFile(A)).1 && Inv(q)
    ensures Allowed(q, CreateFile(A, 1, one)) && Asked(Abs(q), CreateFile(A, 1, one))
    ensures t == Step(q, CreateFile(A, 1, one)).1 && Inv(t) && Reused(t, s.store.used)
  {
    hide Empty, Inv, Abs, Allowed, Asked, Step, Marked, NextOnes;
    EmptyFacts(s);
    Sizes();
    AtFirst(s);
    var u, c0 := s.store.used, [Entry(DOT, 0)];
    RoomEnough(s);
    DotIsNot(A);
    CreateStep(s, c0, u, 0, 1, A, 1024, 2, big);
    p := Step(s, CreateFile(A, 1024, big)).1;
    Front2(u, 0, 2, s.inodes[1].direct);
    RemoveStep(p, c0, u, 0, 2, 2, A);
    q := Step(p, RemoveFile(A)).1;
    CreateStep(q, c0, u, 0, 1, A, 1, 1, one);
    t := Step(q, CreateFile(A, 1, one)).1;
    Front2(u, 0, 1, q.inodes[1].direct);
    assert c0 + [Entry(A, 1)] == [Entry(DOT, 0), Entry(A, 1)];
  }

  lemma RoomEnough(s: Fs)
    requires Empty(s)
    ensures 100 <= CountFree(s.store.used)
  {
    EmptyFacts(s);
  }

  lemma DotIsNot(name: Name)
    requires name != DOT
    ensures Find([Entry(DOT, 0)], name) < 0
  {
  }

  /** What the first `n` direct entries are after a creation, and the one after them. */
  lemma Front2(used: seq<bool>, i: nat, n: nat, direct: seq<nat>)
    requires |direct| == DIRECT_BLOCK && n <= 2
    ensures var d := NextOnes(used, i, n) + direct[n..];
      && |d| == DIRECT_BLOCK && d[..n] == NextOnes(used, i, n) && d[n] == direct[n]
      && forall k :: 0 <= k < n ==> d[k] == Nth(used, i + k)
  {
  }

  lemma ThenOne(s: Fs, big: seq<Byte>, one: seq<Byte>, c: Command) returns (t: Fs)
    requires Empty(s) && |big| == 2 * BLOCK_SIZE && |one| == BLOCK_SIZE
    ensures Inv(s) && Inv(t) && Reused(t, s.store.used) && Abs(t).cwd in Abs(t).dirs
    ensures Asked(Abs(t), c) && Allowed(t, c) && Inv(Step(t, c).1) ==>
      AllAllowed(s, AgainA(big, one, [c])) && Run(s, AgainA(big, one, [c])).1 == Step(t, c).1
  {
    hide Inv, Abs, Allowed, Asked, Step, AllAllowed, Run, Reused, Empty;
    var p, q;
    p, q, t := ReusedA(s, big, one);
    InvTreeOk(t);
    if Asked(Abs(t), c) && Allowed(t, c) && Inv(Step(t, c).1) {
      NoMore(Step(t, c).1);
      GoOn(t, c, [], [c]);
      GoOn(q, CreateFile(A, 1, one), [c], [CreateFile(A, 1, one), c]);
      GoOn(p, RemoveFile(A), [CreateFile(A, 1, one), c], [RemoveFile(A), CreateFile(A, 1, one), c]);
      GoOn(s, CreateFile(A, 1024, big), [RemoveFile(A), CreateFile(A, 1, one), c], AgainA(big, one, [c]));
    }
  }

  lemma FindTwo(x: Name, y: Name)
    requires x != y && x != DOT && y != DOT
    ensures var l := [Entry(DOT, 0), Entry(x, 1)]; var m := l + [Entry(y, 2)];
      Find(l, y) < 0 && Find(m, x) == 1 && Find(m, y) == 2
  {
    var l := [Entry(DOT, 0), Entry(x, 1)];
    NotThere(l, y);
    FindAppended(l, y, 2);
    assert (l + [Entry(y, 2)])[1..][0] == Entry(x, 1);
  }

  /** A new disk after `create a 1024`, `rm a`, `create a 1`, `create b 1`: the entry of `a` past its block,
      left over from the removed file, is the block of `b`. */
  lemma ReusedInode(big: seq<Byte>, one: seq<Byte>, two: seq<Byte>)
    requires |big| == 2 * BLOCK_SIZE && |one| == |two| == BLOCK_SIZE
    ensures Possible(AgainA(big, one, [CreateFile(B, 1, two)]))
    ensures var s := FromNewDisk(AgainA(big, one, [CreateFile(B, 1, two)])).1;
      Inv(s) && Find(s.cur, A) == 1 && Stale(s, 1, 2) && IsFile(s, 2)
  {
    hide Inv, Abs, Allowed, Asked, Step, AllAllowed, Run, Empty, FirstMount, Marked, NextOnes, Stale, AgainA;
    NewDiskIsEmpty();
    Sizes();
    var u := FirstMount().store.used;
    var t := ThenOne(FirstMount(), big, one, CreateFile(B, 1, two));
    FindTwo(A, B);
    CreateStep(t, [Entry(DOT, 0), Entry(A, 1)], u, 1, 2, B, 1, 1, two);
    var v := Step(t, CreateFile(B, 1, two)).1;
    Front2(u, 1, 1, t.inodes[2].direct);
    StaleBy(v);
  }

  lemma StaleBy(s: Fs)
    requires Inv(s) && |s.inodes| == |s.inodeUsed| == MAX_INODE && s.inodeUsed[1] && s.inodeUsed[2]
    requires s.inodes[1].kind == File && s.inodes[1].blockCount == s.inodes[2].blockCount == 1
    requires |s.inodes[1].direct| == |s.inodes[2].direct| == DIRECT_BLOCK
    requires s.inodes[1].direct[1] == s.inodes[2].direct[0]
    ensures Stale(s, 1, 2)
    ensures s.inodes[2].kind == File ==> IsFile(s, 2)
    ensures s.inodes[2].kind == Directory ==> IsDir(s, 2)
  {
    hide TreeOk, InodeOk;
  }

  /** And with `mkdir d` in place of `create b 1`: `write a 512 1 x` writes to a file and empties a listing. */
  lemma FileOverListing(big: seq<Byte>, one: seq<Byte>, junk: Block)
    requires |big| == 2 * BLOCK_SIZE && |one| == BLOCK_SIZE && BlockOk(junk)
    ensures Possible(AgainA(big, one, [MakeDirectory(D)]))
    ensures var s := FromNewDisk(AgainA(big, one, [MakeDirectory(D)])).1;
      && Inv(s) && Find(s.cur, A) == 1 && IsFile(s, 1) && IsDir(s, 2)
      && var (r, t) := FileWrite(s, A, 512, 1, [120], junk);
        r == Done && Sound(t) && IsDir(t, 2) && Listing(t.store, t.inodes[2]) == [] && !Inv(t)
  {
    hide Inv, Abs, Allowed, Asked, Step, AllAllowed, Run, Empty, FirstMount, Marked, NextOnes, Stale, AgainA, FileWrite,
         Listing;
    NewDiskIsEmpty();
    Sizes();
    var u := FirstMount().store.used;
    var t := ThenOne(FirstMount(), big, one, MakeDirectory(D));
    FindTwo(A, D);
    MakeStep(t, [Entry(DOT, 0), Entry(A, 1)], u, 1, 2, D);
    var v := Step(t, MakeDirectory(D)).1;
    StaleBy(v);
    StaleIsFile(v);
    WrittenToListing(v, A, 2, 120, junk);
  }

  lemma StaleIsFile(s: Fs)
    requires Stale(s, 1, 2)
    ensures FsShape(s) && IsFile(s, 1)
  {
  }

  /** `create e 1`, `create a 1024`, `rm a`, `rm e`, `create w 1024`, `create v 512` */
  function Twice(a: seq<Byte>, b: seq<Byte>, c: seq<Byte>, d: seq<Byte>): seq<Command> {
    [CreateFile(E, 1, a), CreateFile(A, 1024, b), RemoveFile(A), RemoveFile(E), CreateFile(W, 1024, c),
      CreateFile(V, 512, d)]
  }

  lemma TwiceSteps(s: Fs, a: seq<Byte>, b: seq<Byte>, c: seq<Byte>, d: seq<Byte>) returns (v: Fs)
    requires Empty(s) && |a| == |d| == BLOCK_SIZE && |b| == |c| == 2 * BLOCK_SIZE
    ensures Inv(s) && AllAllowed(s, Twice(a, b, c, d)) && v == Run(s, Twice(a, b, c, d)).1
    ensures At(v, [Entry(DOT, 0), Entry(W, 1), Entry(V, 2)], s.store.used, 3, 3)
    ensures v.inodes[2].kind == File && v.inodes[2].blockCount == 1 && v.inodes[2].direct[1] == v.inodes[2].direct[0]
  {
    hide Empty, Inv, Abs, Allowed, Asked, Step, AllAllowed, Run, Marked, NextOnes;
    EmptyFacts(s);
    Sizes();
    AtFirst(s);
    RoomEnough(s);
    var u, c0, c1, c2 := s.store.used, [Entry(DOT, 0)], [Entry(DOT, 0), Entry(E, 1)], [Entry(DOT, 0), Entry(W, 1)];
    DotIsNot(E);
    DotIsNot(W);
    FindTwo(E, A);
    FindTwo(W, V);
    CreateStep(s, c0, u, 0, 1, E, 1, 1, a);
    var s1 := Step(s, CreateFile(E, 1, a)).1;
    Front2(u, 0, 1, s.inodes[1].direct);
    CreateStep(s1, c1, u, 1, 2, A, 1024, 2, b);
    var s2 := Step(s1, CreateFile(A, 1024, b)).1;
    Front2(u, 1, 2, s1.inodes[2].direct);
    RemoveStep(s2, c1, u, 1, 2, 3, A);
    var s3 := Step(s2, RemoveFile(A)).1;
    RemoveStep(s3, c0, u, 0, 1, 2, E);
    var s4 := Step(s3, RemoveFile(E)).1;
    CreateStep(s4, c0, u, 0, 1, W, 1024, 2, c);
    var s5 := Step(s4, CreateFile(W, 1024, c)).1;
    CreateStep(s5, c2, u, 2, 2, V, 512, 1, d);
    v := Step(s5, CreateFile(V, 512, d)).1;
    Front2(u, 2, 1, s5.inodes[2].direct);
    TwiceRun(s, s1, s2, s3, s4, s5, v, a, b, c, d);
  }

  lemma TwiceRun(s: Fs, s1: Fs, s2: Fs, s3: Fs, s4: Fs, s5: Fs, v: Fs, a: seq<Byte>, b: seq<Byte>, c: seq<Byte>,
    d: seq<Byte>)
    requires Inv(s) && Allowed(s, CreateFile(E, 1, a)) && Asked(Abs(s), CreateFile(E, 1, a))
    requires s1 == Step(s, CreateFile(E, 1, a)).1 && Inv(s1)
    requires Allowed(s1, CreateFile(A, 1024, b)) && Asked(Abs(s1), CreateFile(A, 1024, b))
    requires s2 == Step(s1, CreateFile(A, 1024, b)).1 && Inv(s2) && Allowed(s2, RemoveFile(A))
    requires Asked(Abs(s2), RemoveFile(A))
    requires s3 == Step(s2, RemoveFile(A)).1 && Inv(s3) && Allowed(s3, RemoveFile(E)) && Asked(Abs(s3), RemoveFile(E))
    requires s4 == Step(s3, RemoveFile(E)).1 && Inv(s4)
    requires Allowed(s4, CreateFile(W, 1024, c)) && Asked(Abs(s4), CreateFile(W, 1024, c))
    requires s5 == Step(s4, CreateFile(W, 1024, c)).1 && Inv(s5)
    requires Allowed(s5, CreateFile(V, 512, d)) && Asked(Abs(s5), CreateFile(V, 512, d))
    requires v == Step(s5, CreateFile(V, 512, d)).1 && Inv(v)
    ensures AllAllowed(s, Twice(a, b, c, d)) && v == Run(s, Twice(a, b, c, d)).1
  {
    hide Inv, Abs, Allowed, Asked, Step, AllAllowed, Run;
    var r5: seq<Command> := [CreateFile(V, 512, d)];
    var r4 := [CreateFile(W, 1024, c)] + r5;
    var r3 := [RemoveFile(E)] + r4;
    var r2 := [RemoveFile(A)] + r3;
    var r1 := [CreateFile(A, 1024, b)] + r2;
    NoMore(v);
    GoOn(s5, CreateFile(V, 512, d), [], r5);
    GoOn(s4, CreateFile(W, 1024, c), r5, r4);
    GoOn(s3, RemoveFile(E), r4, r3);
    GoOn(s2, RemoveFile(A), r3, r2);
    GoOn(s1, CreateFile(A, 1024, b), r2, r1);
    GoOn(s, CreateFile(E, 1, a), r1, Twice(a, b, c, d));
  }

  /** After that run on a new disk `write v 502 10`, inside the one block of `v`, is answered Done and nothing
      is written. */
  lemma NothingWritten(a: seq<Byte>, b: seq<Byte>, c: seq<Byte>, d: seq<Byte>, buf: seq<Byte>, junk: Block)
    requires |a| == |d| == BLOCK_SIZE && |b| == |c| == 2 * BLOCK_SIZE && |buf| == 10 && BlockOk(junk)
    ensures Possible(Twice(a, b, c, d)) && InTables(502, 10)
    ensures var s := FromNewDisk(Twice(a, b, c, d)).1;
      && Inv(s) && Find(s.cur, V) == 2 && IsFile(s, 2) && s.inodes[2].blockCount == 1
      && FileWrite(s, V, 502, 10, buf, junk) == (Done, s)
  {
    hide Inv, Abs, AllAllowed, Run, Empty, FirstMount, Twice, FileWrite, Marked;
    NewDiskIsEmpty();
    var v := TwiceSteps(FirstMount(), a, b, c, d);
    FindTwo(W, V);
    assert [Entry(DOT, 0), Entry(W, 1)] + [Entry(V, 2)] == [Entry(DOT, 0), Entry(W, 1), Entry(V, 2)];
    FileThere(v, V, 2);
    WrittenInVain(v, V, buf, junk);
  }

  lemma FileThere(s: Fs, name: Name, k: nat)
    requires Inv(s) && k < |s.inodes| && k < |s.inodeUsed| && s.inodeUsed[k] && s.inodes[k].kind == File
    requires Find(s.cur, name) == k
    ensures FsShape(s) && IsFile(s, k) && Sound(s) && k in Abs(s).files
  {
    InFiles(s, k);
    hide TreeOk;
  }
}
