/** Where everything lies on the disk, byte by byte and bit by bit. */
module FsLayout {
  import opened Bits
  import opened Codec
  import opened FileSystem
  import opened FsMount

  /** Byte `j` of an integer, low byte first. */
  lemma WordLayout(x: nat)
    requires x < WORD
    ensures var b := Enc(x);
      b[0] as nat == x % 256 && b[1] as nat == x / 256 % 256 && b[2] as nat == x / 65536 % 256
        && b[3] as nat == x / 16777216
  {
  }

  /** A directory's block: the count, at most 25, in byte 0; entry `i` from byte 4 + 20 i on, its name ended by a zero
      byte and its inode number 16 bytes further on. */
  lemma DirLayout(es: seq<Entry>, i: nat, j: nat)
    requires EntriesOk(es) && i < |es| && j < |es[i].name|
    ensures var b, at := EncDir(es), 4 + 20 * i;
      && |b| == 512 && |es| <= 25 && |es[i].name| <= 15 && b[0] as nat == |es| && b[1] == b[2] == b[3] == 0
      && b[at + j] == es[i].name[j] && b[at + |es[i].name|] == 0
      && b[at + 16..at + 20] == Enc(es[i].inode)
  {
    hide DecDir, DecEntry;
    EntryPlace(es, i);
    CountPlace(es);
    var e := EncEntry(es[i]);
    assert e[j] == es[i].name[j] && e[|es[i].name|] == 0 && e[16..20] == Enc(es[i].inode);
    hide EncDir, EncEntry, Enc;
    var b, at := EncDir(es), 4 + 20 * i;
    assert b[at..at + 20][j] == b[at + j] && b[at..at + 20][|es[i].name|] == b[at + |es[i].name|];
    assert b[at..at + 20][16..20] == b[at + 16..at + 20];
  }

  lemma EntryPlace(es: seq<Entry>, i: nat)
    requires EntriesOk(es) && i < |es|
    ensures EncDir(es)[4 + 20 * i..24 + 20 * i] == EncEntry(es[i])
  {
    SliceMiddle(Enc(|es|), EncEntries(es), Zeros(BLOCK_SIZE - 4 - 20 * |es|), 20 * i, 20 * i + 20);
    EncEntriesAt(es, i);
    hide Enc, EncEntry, EncEntries;
  }

  lemma CountPlace(es: seq<Entry>)
    requires EntriesOk(es)
    ensures EncDir(es)[0] as nat == |es| && EncDir(es)[1] == EncDir(es)[2] == EncDir(es)[3] == 0
  {
    SmallWord(|es|);
    assert EncDir(es)[..4] == Enc(|es|);
    hide *;
    FirstFour(EncDir(es), Enc(|es|));
  }

  lemma SmallWord(x: nat)
    requires x < 256
    ensures Enc(x)[0] as nat == x && Enc(x)[1] == Enc(x)[2] == Enc(x)[3] == 0
  {
    assert x / 256 == 0 && x / 65536 == 0 && x / 16777216 == 0 && x % 256 == x;
    assert ToByte(0) == 0;
  }

  lemma FirstFour(b: seq<Byte>, w: seq<Byte>)
    requires |b| >= 4 && |w| == 4 && b[..4] == w
    ensures b[0] == w[0] && b[1] == w[1] && b[2] == w[2] && b[3] == w[3]
  {
    assert forall k :: 0 <= k < 4 ==> b[k] == b[..4][k];
  }

  /** An inode's 128 bytes: its type at 0, its size at 48, its block count at 52, its direct blocks from 56 on, its map
      block at 96. */
  lemma InodeLayout(n: Inode, k: nat)
    requires FitsWords(n) && k < 10
    ensures |n.direct| == 10
    ensures var b := EncInode(n);
      && |b| == 128 && b[0..4] == Enc(if n.kind == File then 0 else 1)
      && b[48..52] == Enc(n.size) && b[52..56] == Enc(n.blockCount)
      && b[56 + 4 * k..60 + 4 * k] == Enc(n.direct[k]) && b[96..100] == Enc(n.indirect)
  {
    hide Enc, EncWords;
    var w := InodeWords(n);
    EncWordsAt(w, 0);
    EncWordsAt(w, 12);
    EncWordsAt(w, 13);
    EncWordsAt(w, 14 + k);
    EncWordsAt(w, 24);
    assert w[14 + k] == n.direct[k];
  }

  /** After unmounting: both counters in block 0, the inode map in block 1 and the block map in block 2, bit `i` being
      bit i % 8 of byte i / 8. */
  lemma MapsLayout(s: Fs, i: nat, b: nat)
    requires FsShape(s) && Fits(s) && METADATA_BLOCKS <= s.curBlock && i < 512 && b < 4096
    ensures var d := Umounted(s);
      && |d| == 4096 && |d[0]| == |d[1]| == |d[2]| == 512 && |s.inodeUsed| == 512 && |s.store.used| == 4096
      && d[0][0..4] == Enc(s.store.free) && d[0][4..8] == Enc(s.freeInodes)
      && (s.inodeUsed[i] <==> BitAt(d[1][i / 8], i % 8)) && (s.store.used[b] <==> BitAt(d[2][b / 8], b % 8))
  {
    hide *;
    MetaAt(s, 0);
    MetaAt(s, 1);
    MetaAt(s, 2);
    SuperAt(s);
    InodeMapAt(s, i);
    BlockMapAt(s, b);
  }

  lemma MetaAt(s: Fs, b: nat)
    requires FsShape(s) && Fits(s) && METADATA_BLOCKS <= s.curBlock && b < 131
    ensures |Umounted(s)| == 4096 && b < METADATA_BLOCKS && |MetaBlock(s, b)| == 512
    ensures Umounted(s)[b] == MetaBlock(s, b)
  {
    hide MetaBlock, EncDir, CountFree, EntriesOk, WordsOk, FitsWords;
  }

  lemma SuperAt(s: Fs)
    requires FsShape(s) && Fits(s)
    ensures MetaBlock(s, 0)[0..4] == Enc(s.store.free) && MetaBlock(s, 0)[4..8] == Enc(s.freeInodes)
  {
    SuperParts(s.store.free, s.freeInodes);
    hide SuperBlock, CountFree, EntriesOk, WordsOk, FitsWords;
  }

  lemma InodeMapAt(s: Fs, i: nat)
    requires FsShape(s) && Fits(s) && i < 512
    ensures |s.inodeUsed| == 512 && (s.inodeUsed[i] <==> BitAt(MetaBlock(s, 1)[i / 8], i % 8))
  {
    PackedAt(s.inodeUsed, i / 8, i % 8);
    hide PackedByte, BitAt, CountFree, EntriesOk, WordsOk, FitsWords;
  }

  lemma BlockMapAt(s: Fs, b: nat)
    requires FsShape(s) && Fits(s) && b < 4096
    ensures |s.store.used| == 4096 && (s.store.used[b] <==> BitAt(MetaBlock(s, 2)[b / 8], b % 8))
  {
    PackedAt(s.store.used, b / 8, b % 8);
    hide PackedByte, BitAt, CountFree, EntriesOk, WordsOk, FitsWords;
  }

  /** Inode `k` is the (k % 4)-th of block 3 + k / 4; the current listing goes to the root's block; the other blocks
      from 131 on stay. */
  lemma BlocksLayout(s: Fs, k: nat, b: nat)
    requires FsShape(s) && Fits(s) && METADATA_BLOCKS <= s.curBlock && k < 512 && b < 4096
    ensures var d := Umounted(s);
      && |d| == |s.store.disk| == 4096 && |d[3 + k / 4]| == 512 && |s.inodes| == 512
      && d[3 + k / 4][128 * (k % 4)..128 * (k % 4) + 128] == EncInode(s.inodes[k])
      && d[s.curBlock] == EncDir(s.cur) && (131 <= b && b != s.curBlock ==> d[b] == s.store.disk[b])
  {
    hide *;
    BlockPlaces(s, k);
    FromRestOn(s, s.curBlock);
    FromRestOn(s, b);
    TableAt(s.inodes, k / 4, k % 4);
    assert 4 * (k / 4) + k % 4 == k;
  }

  lemma BlockPlaces(s: Fs, k: nat)
    requires FsShape(s) && Fits(s) && METADATA_BLOCKS <= s.curBlock && k < 512
    ensures |s.store.disk| == 4096 && |s.inodes| == 512 && s.curBlock < 4096 && INODES_PER_BLOCK == 4
    ensures INODE_BYTES == 128 && (forall i :: 0 <= i < |s.inodes| ==> FitsWords(s.inodes[i]))
    ensures |Umounted(s)| == 4096 && |Umounted(s)[3 + k / 4]| == 512
    ensures Umounted(s)[3 + k / 4] == TableBlock(s.inodes, k / 4)
  {
    hide EncDir, TableBlock, CountFree, EntriesOk, WordsOk, FitsWords, Pack, SuperBlock;
  }

  lemma FromRestOn(s: Fs, b: nat)
    requires FsShape(s) && Fits(s) && b < 4096
    ensures |Umounted(s)| == |s.store.disk| == 4096 && METADATA_BLOCKS == 131 && EntriesOk(s.cur)
    ensures 131 <= b ==> Umounted(s)[b] == if b == s.curBlock then EncDir(s.cur) else s.store.disk[b]
  {
    if 131 <= b { UmountedAt(s, b); }
    hide EncDir, CountFree, EntriesOk, WordsOk, FitsWords, MetaBlock;
  }

  /** What mounting any disk gives: counters, maps and inodes from the same places, and as the current listing what
      decodes from the first block of inode 0, if that is a block. */
  lemma MountLayout(d: seq<Block>, rest: seq<nat>, i: nat, b: nat, k: nat)
    requires |d| == 4096 && (forall x :: 0 <= x < 4096 ==> |d[x]| == 512) && i < 512 && b < 4096 && k < 512
    ensures var s := Mounted(d, rest);
      && |s.store.used| == 4096 && |s.inodeUsed| == |s.inodes| == 512 && |s.inodes[0].direct| == 10
      && s.store.disk == d && s.store.free == Dec(d[0][0..4]) && s.freeInodes == Dec(d[0][4..8])
      && (s.inodeUsed[i] <==> BitAt(d[1][i / 8], i % 8)) && (s.store.used[b] <==> BitAt(d[2][b / 8], b % 8))
      && s.inodes[k] == DecInode(d[3 + k / 4][128 * (k % 4)..128 * (k % 4) + 128])
      && s.curBlock == s.inodes[0].direct[0] && (s.curBlock < 4096 ==> s.cur == DecDir(d[s.curBlock]))
      && (s.curBlock >= 4096 ==> s.cur == [])
  {
    hide DecDir, DecInode, BitAt, Dec;
  }
}
