/** Whole runs of the simulator, and what a program sees through it. */
module VmRuns {
  import opened Wrappers
  import opened Lists
  import opened PagingTheory
  import opened Replacement
  import opened VirtualMemory
  import opened VmInvariant

  datatype Op = Read | Write(value: int)

  /** One call of `MMU`; `rnd` is what `rand()` would return if the RANDOM policy asks. */
  datatype Request = Request(pid: nat, addr: nat, op: Op, rnd: nat)

  function PageOf(r: Request): PageId {
    PageId(r.pid, r.addr / PAGE_SIZE)
  }

  function Offset(r: Request): nat {
    r.addr % PAGE_SIZE
  }

  /** The two guards of `MMU`, which answer -1; `VmReference.Guards` says in numbers what they do. */
  predicate Rejected(c: Config, r: Request) {
    r.addr / PAGE_SIZE > c.pages || r.pid > c.pids
  }

  /** The guards let a page or pid equal to its bound through; such a request indexes past a table. */
  predicate Defined(c: Config, r: Request) {
    Rejected(c, r) || InRange(c, PageOf(r))
  }

  ghost predicate AllDefined(c: Config, rs: seq<Request>) {
    forall r :: r in rs ==> Defined(c, r)
  }

  function Peek(m: Memory, addr: int): int
    requires 0 <= addr && addr / PAGE_SIZE < |m.ram|
  {
    var d := m.ram[addr / PAGE_SIZE];
    if addr % PAGE_SIZE in d then d[addr % PAGE_SIZE] else 0
  }

  function Poke(m: Memory, addr: int, v: int): Memory
    requires 0 <= addr && addr / PAGE_SIZE < |m.ram|
  {
    m.(ram := m.ram[addr / PAGE_SIZE := m.ram[addr / PAGE_SIZE][addr % PAGE_SIZE := v]])
  }

  lemma AddressInRam(c: Config, m: Memory, p: PageId, i: nat)
    requires Sound(c, m) && Loaded(m, p) && i < PAGE_SIZE
    ensures var a := PhysicalAddress(m, p, i);
      && 0 <= a && a / PAGE_SIZE == m.pt[p].frameNo < |m.ram|
      && a % PAGE_SIZE == i
  {
  }

  /** The machine when `MMU` returns, before the program uses the address. */
  function Translated(c: Config, s: Machine, r: Request): (t: Machine)
    requires Inv(c, s) && InRange(c, PageOf(r))
    ensures Inv(c, t) && Loaded(t.mem, PageOf(r))
  {
    AccessKeepsInv(c, s, PageOf(r), r.op.Write?, r.rnd);
    ServicedSound(c, s.mem, PageOf(r), r.op.Write?, r.rnd);
    Access(c, s, PageOf(r), r.op.Write?, r.rnd)
  }

  /** What the program finds at the physical address it is given. */
  function Seen(c: Config, s: Machine, r: Request): Option<int>
    requires Inv(c, s) && Defined(c, r)
  {
    if Rejected(c, r) then None
    else
      var m := Translated(c, s, r).mem;
      AddressInRam(c, m, PageOf(r), Offset(r));
      Some(Peek(m, PhysicalAddress(m, PageOf(r), Offset(r))))
  }

  function Step(c: Config, s: Machine, r: Request): (t: Machine)
    requires Inv(c, s) && Defined(c, r)
    ensures Inv(c, t)
  {
    if Rejected(c, r) then s
    else
      var t := Translated(c, s, r);
      AddressInRam(c, t.mem, PageOf(r), Offset(r));
      if r.op.Read? then t
      else
        var m := Poke(t.mem, PhysicalAddress(t.mem, PageOf(r), Offset(r)), r.op.value);
        StoreKeepsInv(c, t, m);
        t.(mem := m)
  }

  lemma StoreKeepsInv(c: Config, s: Machine, m: Memory)
    requires Inv(c, s) && m == s.mem.(ram := m.ram) && |m.ram| == |s.mem.ram|
    ensures Inv(c, s.(mem := m))
  {
    assert forall k, w :: k in s.tlb && NamesLoaded(c, s.mem, k, w) ==> NamesLoaded(c, m, k, w);
  }

  function Run(c: Config, s: Machine, rs: seq<Request>): (t: Machine)
    requires Inv(c, s) && AllDefined(c, rs)
    ensures Inv(c, t)
  {
    if rs == [] then s else Step(c, Run(c, s, Front(rs)), Last(rs))
  }

  function Outputs(c: Config, s: Machine, rs: seq<Request>): seq<Option<int>>
    requires Inv(c, s) && AllDefined(c, rs)
  {
    if rs == [] then [] else Outputs(c, s, Front(rs)) + [Seen(c, Run(c, s, Front(rs)), Last(rs))]
  }

  /** After `pt_init` and `tlb_init`: nothing loaded, nothing cached, all counters 0. */
  ghost predicate Started(c: Config, s: Machine) {
    && Shaped(c, s.mem) && TlbShaped(c, s.tlb)
    && (forall p :: p in s.mem.pt ==> !s.mem.pt[p].valid && !s.mem.pt[p].dirty)
    && (forall k :: k in s.tlb ==> !s.tlb[k].way0.valid && !s.tlb[k].way1.valid)
    && s.mem.frameInd == s.mem.loads == s.mem.stores == 0
    && s.mem.repl.frames == [] && !s.mem.repl.nullDeref && s.mem.repl.fifoIndex == 0
    && s.stats == Stats(0, 0, 0, 0)
  }

  lemma StartedInv(c: Config, s: Machine)
    requires Started(c, s)
    ensures Inv(c, s)
  {
  }

  // ----- Transparency -----

  type Flat = map<PageId, Data>

  function FlatSeen(c: Config, flat: Flat, r: Request): Option<int> {
    if r.pid > c.pids || r.addr / 256 > c.pages then None
    else if PageOf(r) in flat && Offset(r) in flat[PageOf(r)] then Some(flat[PageOf(r)][Offset(r)])
    else Some(0)
  }

  function FlatStep(c: Config, flat: Flat, r: Request): Flat {
    if r.pid > c.pids || r.addr / 256 > c.pages || r.op.Read? || PageOf(r) !in flat then flat
    else flat[PageOf(r) := flat[PageOf(r)][Offset(r) := r.op.value]]
  }

  function FlatRun(c: Config, flat: Flat, rs: seq<Request>): Flat {
    if rs == [] then flat else FlatStep(c, FlatRun(c, flat, Front(rs)), Last(rs))
  }

  /** The answers of a store that keeps every page in one place. */
  function FlatOutputs(c: Config, flat: Flat, rs: seq<Request>): seq<Option<int>> {
    if rs == [] then [] else FlatOutputs(c, flat, Front(rs)) + [FlatSeen(c, FlatRun(c, flat, Front(rs)), Last(rs))]
  }

  /** A loaded page's frame is current; the disk copy of a clean page is current. */
  ghost predicate Coherent(c: Config, m: Memory, flat: Flat)
    requires Sound(c, m)
  {
    && flat.Keys == m.pt.Keys
    && forall p :: p in m.pt ==>
         && (m.pt[p].valid ==> m.ram[m.pt[p].frameNo] == flat[p])
         && (!m.pt[p].dirty ==> m.disk[p] == flat[p])
  }

  lemma ServicedCoherent(c: Config, m: Memory, flat: Flat, p: PageId, write: bool, rnd: nat)
    requires Sound(c, m) && InRange(c, p) && Coherent(c, m, flat)
    ensures Sound(c, Serviced(c, m, p, write, rnd)) && Coherent(c, Serviced(c, m, p, write, rnd), flat)
    ensures write ==> Serviced(c, m, p, write, rnd).pt[p].dirty
  {
    hide *;
    ServicedSound(c, m, p, write, rnd);
    if !Loaded(m, p) && m.frameInd == c.frames {
      FullVictim(c, m, rnd);
      FullVictimIs(c, m, p, write, rnd);
      var (v, repl) := Victim(c.policy, m.repl, c.frames, rnd);
      ReplaceCoherent(c, m, flat, p, write, v, repl);
    } else {
      RoomCoherent(c, m, flat, p, write, rnd);
    }
  }

  lemma RoomCoherent(c: Config, m: Memory, flat: Flat, p: PageId, write: bool, rnd: nat)
    requires Sound(c, m) && InRange(c, p) && Coherent(c, m, flat) && (Loaded(m, p) || m.frameInd != c.frames)
    requires Sound(c, Serviced(c, m, p, write, rnd)) && Loaded(Serviced(c, m, p, write, rnd), p)
    ensures Coherent(c, Serviced(c, m, p, write, rnd), flat)
    ensures write ==> Serviced(c, m, p, write, rnd).pt[p].dirty
  {
    hide ListsLoadedFrames, Touch, Replace, Victim, Coherent;
    if Loaded(m, p) { HitCoherent(c, m, flat, p, write); } else { LoadFreeCoherent(c, m, flat, p, write); }
  }

  lemma HitCoherent(c: Config, m: Memory, flat: Flat, p: PageId, write: bool)
    requires Sound(c, m) && InRange(c, p) && Coherent(c, m, flat) && Loaded(m, p) && Sound(c, Hit(c, m, p, write))
    ensures Coherent(c, Hit(c, m, p, write), flat) && (write ==> Hit(c, m, p, write).pt[p].dirty)
  {
    hide ListsLoadedFrames, Touch;
  }

  lemma LoadFreeCoherent(c: Config, m: Memory, flat: Flat, p: PageId, write: bool)
    requires Sound(c, m) && InRange(c, p) && Coherent(c, m, flat) && !Loaded(m, p) && m.frameInd < c.frames
    requires Sound(c, LoadFree(c, m, p, write))
    ensures Coherent(c, LoadFree(c, m, p, write), flat) && (write ==> LoadFree(c, m, p, write).pt[p].dirty)
  {
    hide ListsLoadedFrames, Touch;
  }

  lemma ReplaceCoherent(c: Config, m: Memory, flat: Flat, p: PageId, write: bool, v: nat, repl: State)
    requires Sound(c, m) && InRange(c, p) && Coherent(c, m, flat) && !Loaded(m, p)
    requires m.frameInd == c.frames && v < c.frames && Sound(c, Replace(c, m, p, write, v, repl))
    ensures Coherent(c, Replace(c, m, p, write, v, repl), flat)
      && (write ==> Replace(c, m, p, write, v, repl).pt[p].dirty)
  {
    var n := Replace(c, m, p, write, v, repl);
    assert Shaped(c, m) && Shaped(c, n) && n.pt[p] == Pte(v, true, write) && flat.Keys == m.pt.Keys;
    assert n.pt.Keys == m.pt.Keys;
    hide Replace, Sound, MapsInverse, Coherent;
    forall q | q in m.pt
      ensures n.pt[q].valid ==> 0 <= n.pt[q].frameNo < |n.ram| && n.ram[n.pt[q].frameNo] == flat[q]
      ensures !n.pt[q].dirty ==> n.disk[q] == flat[q]
    {
      ReplacePage(c, m, flat, p, write, v, repl, q);
    }
    CoherentBy(c, n, flat);
  }

  lemma CoherentBy(c: Config, n: Memory, flat: Flat)
    requires Sound(c, n) && flat.Keys == n.pt.Keys == n.disk.Keys
    requires forall q :: q in n.pt ==>
      (n.pt[q].valid ==> 0 <= n.pt[q].frameNo < |n.ram| && n.ram[n.pt[q].frameNo] == flat[q])
                                       && (!n.pt[q].dirty ==> n.disk[q] == flat[q])
    ensures Coherent(c, n, flat)
  {
  }

  /** One page after a replacement. */
  lemma ReplacePage(c: Config, m: Memory, flat: Flat, p: PageId, write: bool, v: nat, repl: State, q: PageId)
    requires Sound(c, m) && InRange(c, p) && Coherent(c, m, flat) && !Loaded(m, p) && q in m.pt
    requires m.frameInd == c.frames && v < c.frames && m.inverted[v] in m.pt
    ensures var n := Replace(c, m, p, write, v, repl);
      && q in n.pt && q in n.disk && q in flat
      && (n.pt[q].valid ==> 0 <= n.pt[q].frameNo < |n.ram| && n.ram[n.pt[q].frameNo] == flat[q])
      && (!n.pt[q].dirty ==> n.disk[q] == flat[q])
  {
    hide ListsLoadedFrames;
    var w := m.inverted[v];
    assert Loaded(m, w) && m.pt[w].frameNo == v;
    assert Loaded(m, q) ==> m.inverted[m.pt[q].frameNo] == q;
  }

  lemma FullVictimIs(c: Config, m: Memory, p: PageId, write: bool, rnd: nat)
    requires Sound(c, m) && InRange(c, p) && !Loaded(m, p) && m.frameInd == c.frames
    requires Ready(c.policy, m.repl, c.frames)
    ensures var (v, repl) := Victim(c.policy, m.repl, c.frames, rnd);
      && 0 <= v < c.frames && m.inverted[v] in m.pt && Shaped(c, m)
      && Serviced(c, m, p, write, rnd) == Replace(c, m, p, write, v, repl) && p in Replace(c, m, p, write, v, repl).pt
  {
    FullVictim(c, m, rnd);
  }


  lemma TranslatedCoherent(c: Config, s: Machine, flat: Flat, r: Request)
    requires Inv(c, s) && InRange(c, PageOf(r)) && Coherent(c, s.mem, flat)
    ensures Coherent(c, Translated(c, s, r).mem, flat)
    ensures r.op.Write? ==> Translated(c, s, r).mem.pt[PageOf(r)].dirty
  {
    ServicedCoherent(c, s.mem, flat, PageOf(r), r.op.Write?, r.rnd);
  }

  lemma SeenIsFlat(c: Config, s: Machine, flat: Flat, r: Request)
    requires Inv(c, s) && Defined(c, r) && Coherent(c, s.mem, flat)
    ensures Seen(c, s, r) == FlatSeen(c, flat, r)
  {
    if !Rejected(c, r) {
      TranslatedCoherent(c, s, flat, r);
      AddressInRam(c, Translated(c, s, r).mem, PageOf(r), Offset(r));
    }
  }

  lemma StepCoherent(c: Config, s: Machine, flat: Flat, r: Request)
    requires Inv(c, s) && Defined(c, r) && Coherent(c, s.mem, flat)
    ensures Coherent(c, Step(c, s, r).mem, FlatStep(c, flat, r))
  {
    hide Coherent, Sound, TlbSound, Serviced, TlbAfter, Counted, Poke;
    if !Rejected(c, r) {
      TranslatedCoherent(c, s, flat, r);
      if r.op.Write? {
        AddressInRam(c, Translated(c, s, r).mem, PageOf(r), Offset(r));
        PokeCoherent(c, Translated(c, s, r).mem, flat, PageOf(r), Offset(r), r.op.value);
      }
    }
  }

  lemma RamSound(c: Config, m: Memory, ram: seq<Data>)
    requires Sound(c, m) && |ram| == |m.ram|
    ensures Sound(c, m.(ram := ram))
  {
  }

  lemma PokeCoherent(c: Config, m: Memory, flat: Flat, p: PageId, i: nat, v: int)
    requires Sound(c, m) && Coherent(c, m, flat) && Loaded(m, p) && m.pt[p].dirty && i < PAGE_SIZE
    requires var a := PhysicalAddress(m, p, i);
      && 0 <= a && a / PAGE_SIZE == m.pt[p].frameNo < |m.ram|
      && a % PAGE_SIZE == i
    ensures var n := Poke(m, PhysicalAddress(m, p, i), v);
      Sound(c, n) && Coherent(c, n, flat[p := flat[p][i := v]])
  {
    var n := Poke(m, PhysicalAddress(m, p, i), v);
    assert n == m.(ram := m.ram[m.pt[p].frameNo := flat[p][i := v]]);
    RamSound(c, m, n.ram);
    hide Poke, PhysicalAddress, Shaped, ListsLoadedFrames;
    forall q | q in m.pt && m.pt[q].valid && q != p ensures m.pt[q].frameNo != m.pt[p].frameNo {
      assert m.inverted[m.pt[q].frameNo] == q;
    }
  }

  lemma {:induction false} RunCoherent(c: Config, s: Machine, flat: Flat, rs: seq<Request>)
    requires Inv(c, s) && Coherent(c, s.mem, flat) && AllDefined(c, rs)
    ensures Coherent(c, Run(c, s, rs).mem, FlatRun(c, flat, rs))
  {
    if rs != [] {
      RunCoherent(c, s, flat, Front(rs));
      StepCoherent(c, Run(c, s, Front(rs)), FlatRun(c, flat, Front(rs)), Last(rs));
    }
  }

  lemma {:induction false} SameOutputs(c: Config, s: Machine, flat: Flat, rs: seq<Request>)
    requires Inv(c, s) && Coherent(c, s.mem, flat) && AllDefined(c, rs)
    ensures Outputs(c, s, rs) == FlatOutputs(c, flat, rs)
  {
    if rs != [] {
      SameOutputs(c, s, flat, Front(rs));
      RunCoherent(c, s, flat, Front(rs));
      SeenIsFlat(c, Run(c, s, Front(rs)), FlatRun(c, flat, Front(rs)), Last(rs));
    }
  }

  /** Virtual memory is transparent: for every request string, policy and size, every access sees
      what a flat store started from the disk's contents would hold. */
  lemma Transparent(c: Config, s: Machine, rs: seq<Request>)
    requires Started(c, s) && AllDefined(c, rs)
    ensures Inv(c, s) && Outputs(c, s, rs) == FlatOutputs(c, s.mem.disk, rs)
  {
    StartedInv(c, s);
    assert s.mem.disk.Keys == s.mem.pt.Keys;
    SameOutputs(c, s, s.mem.disk, rs);
  }
}
