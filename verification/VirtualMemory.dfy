/**
 * The paging simulator (Project-3/pagetable.c) as a step function. The page contents that
 * `disk_read` and `disk_write` would move are part of the state, so that what a program sees
 * through `MMU` can be stated.
 */
module VirtualMemory {
  import opened Lists
  import opened PagingTheory
  import opened Replacement

  const PAGE_SIZE: nat := 256

  /** `sets` is TLB_ENTRY / 2, the number of two-way sets of each process. */
  datatype Config = Config(policy: Policy, frames: nat, pids: nat, pages: nat, sets: nat)

  /** A page's bytes by offset; an offset never written reads as 0. */
  type Data = map<int, int>

  datatype Pte = Pte(frameNo: int, valid: bool, dirty: bool)

  type Bit = x: int | 0 <= x < 2

  datatype Way = Way(entry: int, frameNo: int, valid: bool)

  /** A TLB set with its `tlbset_ptr`. */
  datatype TlbSet = TlbSet(way0: Way, way1: Way, ptr: Bit) {
    function At(k: Bit): Way {
      if k == 0 then way0 else way1
    }

    function Put(k: Bit, w: Way): TlbSet {
      if k == 0 then this.(way0 := w) else this.(way1 := w)
    }
  }

  datatype SetId = SetId(pid: nat, index: nat)

  /** Everything but the TLB. `loads` and `stores` are numDiskRead and numDiskWrite. */
  datatype Memory = Memory(pt: map<PageId, Pte>, inverted: seq<PageId>, frameInd: nat, repl: State,
                           ram: seq<Data>, disk: map<PageId, Data>, loads: nat, stores: nat)

  datatype Stats = Stats(hit: nat, miss: nat, tlbHit: nat, tlbMiss: nat)

  datatype Machine = Machine(mem: Memory, tlb: map<SetId, TlbSet>, stats: Stats)

  predicate ConfigOk(c: Config) {
    c.frames > 0 && c.pids > 0 && c.pages > 0 && c.sets > 0
  }

  predicate InRange(c: Config, p: PageId) {
    p.pid < c.pids && p.no < c.pages
  }

  ghost function AllPages(c: Config): (s: set<PageId>)
    ensures forall p :: p in s <==> InRange(c, p)
  {
    set i: nat, j: nat {:trigger PageId(i, j)} | i < c.pids && j < c.pages :: PageId(i, j)
  }

  ghost function AllSets(c: Config): (s: set<SetId>)
    ensures forall k :: k in s <==> k.pid < c.pids && k.index < c.sets
  {
    set i: nat, j: nat {:trigger SetId(i, j)} | i < c.pids && j < c.sets :: SetId(i, j)
  }

  function SetOf(c: Config, p: PageId): SetId
    requires c.sets > 0
  {
    SetId(p.pid, p.no % c.sets)
  }

  // ----- The TLB -----

  function Fill(t: TlbSet, page: int, frame: int): TlbSet {
    t.Put(1 - t.ptr, Way(page, frame, true)).(ptr := 1 - t.ptr)
  }

  function DropWay(t: TlbSet, k: Bit, page: int): TlbSet {
    if t.At(k).entry == page then t.Put(k, t.At(k).(valid := false)).(ptr := 1 - k) else t
  }

  /** The eviction loop over both ways; it compares entries whether valid or not. */
  function Drop(t: TlbSet, page: int): TlbSet {
    DropWay(DropWay(t, 0, page), 1, page)
  }

  predicate Holds(t: TlbSet, k: Bit, page: int) {
    t.At(k).valid && t.At(k).entry == page
  }

  predicate InTlb(t: TlbSet, page: int) {
    Holds(t, 0, page) || Holds(t, 1, page)
  }

  function HitWay(t: TlbSet, page: int): Bit
    requires InTlb(t, page)
  {
    if Holds(t, 0, page) then 0 else 1
  }

  // ----- The page tables -----

  ghost predicate Shaped(c: Config, m: Memory) {
    && ConfigOk(c)
    && |m.inverted| == |m.ram| == |m.repl.clockFlag| == c.frames && m.frameInd <= c.frames
    && 0 <= m.repl.clockIndex < c.frames && 0 <= m.repl.fifoIndex
    && (forall p :: p in m.pt <==> InRange(c, p))
    && (forall p :: p in m.disk <==> InRange(c, p))
  }

  /** Valid entries and the frames below `frame_ind` are inverse to one another. */
  ghost predicate MapsInverse(m: Memory)
    requires m.frameInd <= |m.inverted|
  {
    && (forall p :: p in m.pt && m.pt[p].valid ==>
       0 <= m.pt[p].frameNo < m.frameInd && m.inverted[m.pt[p].frameNo] == p)
    && (forall f :: 0 <= f < m.frameInd ==>
          m.inverted[f] in m.pt && m.pt[m.inverted[f]].valid && m.pt[m.inverted[f]].frameNo == f)
  }

  ghost predicate ListsLoadedFrames(m: Memory) {
    NoDup(m.repl.frames) && |m.repl.frames| == m.frameInd && forall f :: f in m.repl.frames ==> 0 <= f < m.frameInd
  }

  ghost predicate Sound(c: Config, m: Memory) {
    && Shaped(c, m) && MapsInverse(m)
    && (forall p :: p in m.pt && m.pt[p].dirty ==> m.pt[p].valid)
    && (c.policy == LRU ==> ListsLoadedFrames(m))
  }

  predicate Loaded(m: Memory, p: PageId) {
    p in m.pt && m.pt[p].valid
  }

  function Hit(c: Config, m: Memory, p: PageId, write: bool): Memory
    requires Loaded(m, p) && 0 <= m.pt[p].frameNo < |m.repl.clockFlag|
  {
    m.(pt := if write then m.pt[p := m.pt[p].(dirty := true)] else m.pt,
       repl := Touch(c.policy, m.repl, m.pt[p].frameNo))
  }

  function LoadFree(c: Config, m: Memory, p: PageId, write: bool): Memory
    requires Shaped(c, m) && InRange(c, p) && m.frameInd < c.frames
  {
    var f := m.frameInd;
    m.(pt := m.pt[p := Pte(f, true, write)], inverted := m.inverted[f := p], frameInd := f + 1,
       repl := Touch(c.policy, m.repl, f), ram := m.ram[f := m.disk[p]], loads := m.loads + 1)
  }

  /** Frame `v` changes hands; `repl` is the policy's state after choosing it. */
  function Replace(c: Config, m: Memory, p: PageId, write: bool, v: nat, repl: State): Memory
    requires Shaped(c, m) && InRange(c, p) && v < c.frames && m.inverted[v] in m.pt
  {
    var victim := m.inverted[v];
    var former := m.pt[victim];
    var disk := if former.dirty then m.disk[victim := m.ram[v]] else m.disk;
    m.(pt := m.pt[victim := Pte(former.frameNo, false, false)][p := Pte(v, true, write)],
       inverted := m.inverted[v := p], repl := repl, disk := disk, ram := m.ram[v := disk[p]],
       loads := m.loads + 1, stores := m.stores + if former.dirty then 1 else 0)
  }

  lemma FullVictim(c: Config, m: Memory, rnd: nat)
    requires Sound(c, m) && m.frameInd == c.frames
    ensures Ready(c.policy, m.repl, c.frames)
    ensures var v := Victim(c.policy, m.repl, c.frames, rnd).0; 0 <= v < c.frames && Loaded(m, m.inverted[v])
  {
    VictimInRange(c.policy, m.repl, c.frames, rnd);
  }

  function Fault(c: Config, m: Memory, p: PageId, write: bool, rnd: nat): Memory
    requires Sound(c, m) && InRange(c, p)
  {
    if m.frameInd == c.frames then
      FullVictim(c, m, rnd);
      var (v, repl) := Victim(c.policy, m.repl, c.frames, rnd);
      Replace(c, m, p, write, v, repl)
    else LoadFree(c, m, p, write)
  }

  function Serviced(c: Config, m: Memory, p: PageId, write: bool, rnd: nat): Memory
    requires Sound(c, m) && InRange(c, p)
  {
    if Loaded(m, p) then Hit(c, m, p, write) else Fault(c, m, p, write, rnd)
  }

  // ----- One access -----

  ghost predicate TlbShaped(c: Config, tlb: map<SetId, TlbSet>) {
    c.sets > 0 && forall k :: k in tlb <==> k.pid < c.pids && k.index < c.sets
  }

  /** One set is in order: a single valid way is the one `ptr` selects, two hold different pages. */
  ghost predicate SetOk(t: TlbSet) {
    && (t.way0.valid && t.way1.valid ==> t.way0.entry != t.way1.entry)
    && (t.way0.valid != t.way1.valid ==> t.At(t.ptr).valid)
  }

  ghost predicate NamesLoaded(c: Config, m: Memory, k: SetId, w: Way)
    requires c.sets > 0
  {
    w.valid ==> 0 <= w.entry && Loaded(m, PageId(k.pid, w.entry)) && w.entry % c.sets == k.index
  }

  ghost predicate TlbSound(c: Config, m: Memory, tlb: map<SetId, TlbSet>) {
    && TlbShaped(c, tlb)
    && forall k :: k in tlb ==> SetOk(tlb[k]) && NamesLoaded(c, m, k, tlb[k].way0) && NamesLoaded(c, m, k, tlb[k].way1)
  }

  ghost predicate Inv(c: Config, s: Machine) {
    Sound(c, s.mem) && TlbSound(c, s.mem, s.tlb)
  }

  lemma SetInTlb(c: Config, tlb: map<SetId, TlbSet>, p: PageId)
    requires TlbShaped(c, tlb) && InRange(c, p)
    ensures SetOf(c, p) in tlb
  {
  }

  /** The page the full-memory branch evicts, when this access takes it. */
  datatype Evicted = Nothing | Evicted(page: PageId)

  function EvictedBy(c: Config, m: Memory, p: PageId, rnd: nat): (e: Evicted)
    requires Sound(c, m) && InRange(c, p)
    ensures e.Evicted? ==> InRange(c, e.page) && Loaded(m, e.page) && e.page != p
  {
    if Loaded(m, p) || m.frameInd < c.frames then Nothing
    else FullVictim(c, m, rnd); Evicted(m.inverted[Victim(c.policy, m.repl, c.frames, rnd).0])
  }

  /** The frame number stored in the TLB. On a full memory it is read from the page table before
      the load, so it is stale. */
  function CachedFrame(c: Config, m: Memory, p: PageId): int
    requires p in m.pt
  {
    if Loaded(m, p) || m.frameInd == c.frames then m.pt[p].frameNo else m.frameInd
  }

  function TlbAfter(c: Config, s: Machine, p: PageId, rnd: nat): map<SetId, TlbSet>
    requires Inv(c, s) && InRange(c, p)
  {
    SetInTlb(c, s.tlb, p);
    var k := SetOf(c, p);
    if InTlb(s.tlb[k], p.no) then s.tlb[k := s.tlb[k].(ptr := HitWay(s.tlb[k], p.no))]
    else if Loaded(s.mem, p) || s.mem.frameInd < c.frames
      then s.tlb[k := Fill(s.tlb[k], p.no, CachedFrame(c, s.mem, p))]
    else
      var victim := EvictedBy(c, s.mem, p, rnd).page;
      SetInTlb(c, s.tlb, victim);
      var dropped := s.tlb[SetOf(c, victim) := Drop(s.tlb[SetOf(c, victim)], victim.no)];
      dropped[k := Fill(dropped[k], p.no, CachedFrame(c, s.mem, p))]
  }

  function Counted(c: Config, s: Machine, p: PageId): Stats
    requires Inv(c, s) && InRange(c, p)
  {
    SetInTlb(c, s.tlb, p);
    if InTlb(s.tlb[SetOf(c, p)], p.no) then s.stats.(hit := s.stats.hit + 1, tlbHit := s.stats.tlbHit + 1)
    else if Loaded(s.mem, p) then s.stats.(hit := s.stats.hit + 1, tlbMiss := s.stats.tlbMiss + 1)
    else s.stats.(miss := s.stats.miss + 1, tlbMiss := s.stats.tlbMiss + 1)
  }

  /** What `MMU` does for an address of page `p`. */
  function Access(c: Config, s: Machine, p: PageId, write: bool, rnd: nat): Machine
    requires Inv(c, s) && InRange(c, p)
  {
    Machine(Serviced(c, s.mem, p, write, rnd), TlbAfter(c, s, p, rnd), Counted(c, s, p))
  }

  function PhysicalAddress(m: Memory, p: PageId, offset: nat): int
    requires p in m.pt
  {
    m.pt[p].frameNo * PAGE_SIZE + offset
  }
}
