/** The tables and functions of Project-3/pagetable.c, refining module `VirtualMemory`. */
module MemoryManager {
  import opened PagingTheory
  import opened Replacer
  import opened VirtualMemory
  import opened VmInvariant
  import opened VmRuns

  lemma StartState(c: Config, pt: map<PageId, Pte>, inverted: seq<PageId>, r: R.State, ram: seq<Data>,
                   disk: map<PageId, Data>, sets: map<SetId, TlbSet>)
    requires ConfigOk(c) && pt.Keys == disk.Keys == AllPages(c) && sets.Keys == AllSets(c)
    requires |inverted| == |ram| == c.frames && r == R.State([], false, seq(c.frames, i => 0), 0, 0)
    requires forall p :: p in pt ==> !pt[p].valid && !pt[p].dirty
    requires forall k :: k in sets ==> !sets[k].way0.valid && !sets[k].way1.valid
    ensures Started(c, Machine(Memory(pt, inverted, 0, r, ram, disk, 0, 0), sets, Stats(0, 0, 0, 0)))
  {
    assert forall p :: p in disk <==> p in AllPages(c);
    assert forall p :: p in pt <==> p in AllPages(c);
    assert forall k :: k in sets <==> k in AllSets(c);
  }

  lemma StartShape(c: Config, s: Machine)
    requires Started(c, s)
    ensures Shaped(c, s.mem) && TlbShaped(c, s.tlb)
  {
  }

  lemma VictimShaped(c: Config, m: Memory, rnd: nat)
    requires Sound(c, m) && m.frameInd == c.frames && R.Ready(c.policy, m.repl, c.frames)
    ensures Shaped(c, m.(repl := R.Victim(c.policy, m.repl, c.frames, rnd).1))
  {
    R.VictimInRange(c.policy, m.repl, c.frames, rnd);
  }

  lemma TlbHitIsAccess(c: Config, s: Machine, p: PageId, write: bool, rnd: nat)
    requires Inv(c, s) && InRange(c, p) && SetOf(c, p) in s.tlb && InTlb(s.tlb[SetOf(c, p)], p.no)
    ensures Loaded(s.mem, p) && 0 <= s.mem.pt[p].frameNo < |s.mem.repl.clockFlag|
    ensures var k := SetOf(c, p);
      Access(c, s, p, write, rnd) == Machine(Hit(c, s.mem, p, write),
        s.tlb[k := s.tlb[k].(ptr := HitWay(s.tlb[k], p.no))],
                                             s.stats.(hit := s.stats.hit + 1, tlbHit := s.stats.tlbHit + 1))
    ensures p in Hit(c, s.mem, p, write).pt && Hit(c, s.mem, p, write).pt[p].frameNo == s.mem.pt[p].frameNo
  {
    InTlbIsLoaded(c, s, SetOf(c, p), p.no);
  }

  lemma PageHitIsAccess(c: Config, s: Machine, p: PageId, write: bool, rnd: nat)
    requires Inv(c, s) && InRange(c, p) && Loaded(s.mem, p)
    requires SetOf(c, p) in s.tlb && !InTlb(s.tlb[SetOf(c, p)], p.no)
    ensures 0 <= s.mem.pt[p].frameNo < |s.mem.repl.clockFlag|
    ensures var k := SetOf(c, p);
      Access(c, s, p, write, rnd) == Machine(Hit(c, s.mem, p, write),
        s.tlb[k := Fill(s.tlb[k], p.no, s.mem.pt[p].frameNo)],
                                             s.stats.(hit := s.stats.hit + 1, tlbMiss := s.stats.tlbMiss + 1))
    ensures p in Hit(c, s.mem, p, write).pt && Hit(c, s.mem, p, write).pt[p].frameNo == s.mem.pt[p].frameNo
  {
  }

  lemma EvictIsFault(c: Config, s: Machine, p: PageId, write: bool, rnd: nat)
    requires Inv(c, s) && InRange(c, p) && !Loaded(s.mem, p) && s.mem.frameInd == c.frames
    requires SetOf(c, p) in s.tlb && !InTlb(s.tlb[SetOf(c, p)], p.no)
    ensures Shaped(c, s.mem) && Sound(c, s.mem) && R.Ready(c.policy, s.mem.repl, c.frames)
    ensures |s.mem.inverted| == c.frames && p in s.mem.pt
    ensures var (v, r) := R.Victim(c.policy, s.mem.repl, c.frames, rnd);
      && 0 <= v < c.frames && s.mem.inverted[v] in s.mem.pt && InRange(c, s.mem.inverted[v])
      && Fault(c, s.mem, p, write, rnd) == Replace(c, s.mem, p, write, v, r)
      && SetOf(c, s.mem.inverted[v]) in s.tlb
      && var j := SetOf(c, s.mem.inverted[v]);
         var dropped := s.tlb[j := Drop(s.tlb[j], s.mem.inverted[v].no)];
         TlbAfter(c, s, p, rnd) == dropped[SetOf(c, p) := Fill(dropped[SetOf(c, p)], p.no, s.mem.pt[p].frameNo)]
  {
    FullVictim(c, s.mem, rnd);
    SetInTlb(c, s.tlb, EvictedBy(c, s.mem, p, rnd).page);
  }

  lemma ReplaceInSteps(c: Config, m: Memory, p: PageId, write: bool, v: nat, repl: R.State)
    requires Shaped(c, m) && InRange(c, p) && v < c.frames && m.inverted[v] in m.pt
    ensures var victim := m.inverted[v]; var former := m.pt[victim];
      var w := m.(repl := repl, pt := m.pt[victim := Pte(former.frameNo, false, false)],
                  disk := if former.dirty then m.disk[victim := m.ram[v]] else m.disk,
                  stores := m.stores + if former.dirty then 1 else 0);
      && p in w.disk
      && Replace(c, m, p, write, v, repl) == w.(pt := w.pt[p := Pte(v, true, write)], inverted := w.inverted[v := p],
                                                ram := w.ram[v := w.disk[p]], loads := w.loads + 1)
  {
  }

  lemma NotFullIsFault(c: Config, s: Machine, p: PageId, write: bool, rnd: nat)
    requires Inv(c, s) && InRange(c, p) && !Loaded(s.mem, p)
    requires SetOf(c, p) in s.tlb && !InTlb(s.tlb[SetOf(c, p)], p.no)
    ensures s.mem.frameInd < c.frames ==>
      && Fault(c, s.mem, p, write, rnd) == LoadFree(c, s.mem, p, write)
      && p in LoadFree(c, s.mem, p, write).pt && LoadFree(c, s.mem, p, write).pt[p].frameNo == s.mem.frameInd
      && TlbAfter(c, s, p, rnd) == s.tlb[SetOf(c, p) := Fill(s.tlb[SetOf(c, p)], p.no, s.mem.frameInd)]
  {
  }

  lemma FaultIsAccess(c: Config, s: Machine, p: PageId, write: bool, rnd: nat)
    requires Inv(c, s) && InRange(c, p) && !Loaded(s.mem, p)
    requires SetOf(c, p) in s.tlb && !InTlb(s.tlb[SetOf(c, p)], p.no)
    ensures Access(c, s, p, write, rnd) == Machine(Fault(c, s.mem, p, write, rnd), TlbAfter(c, s, p, rnd),
                                                   s.stats.(miss := s.stats.miss + 1, tlbMiss := s.stats.tlbMiss + 1))
    ensures p in Fault(c, s.mem, p, write, rnd).pt
  {
    ServicedSound(c, s.mem, p, write, rnd);
  }

  lemma TranslatedIs(c: Config, s: Machine, p: PageId, r: Request)
    requires Inv(c, s) && InRange(c, p) && p == PageOf(r)
    ensures c.sets > 0 && SetOf(c, p) in s.tlb
    ensures Translated(c, s, r) == Access(c, s, p, r.op.Write?, r.rnd) && Inv(c, Translated(c, s, r))
  {
    SetInTlb(c, s.tlb, p);
  }

  lemma AddressIs(m: Memory, p: PageId, offset: nat)
    requires p in m.pt
    ensures PhysicalAddress(m, p, offset) == m.pt[p].frameNo * PAGE_SIZE + offset
  {
  }

  lemma FrameInMemory(c: Config, s: Machine, p: PageId)
    requires Inv(c, s) && Loaded(s.mem, p)
    ensures 0 <= s.mem.pt[p].frameNo < c.frames
  {
  }

  /** What a hit on page `p` leaves of its dirty bit, of CLOCK's bits and of LRU's list. */
  predicate Referred(c: Config, m: Memory, n: Memory, p: PageId, write: bool) {
    && p in m.pt && p in n.pt && n.pt[p] == m.pt[p].(dirty := m.pt[p].dirty || write)
    && 0 <= m.pt[p].frameNo < |m.repl.clockFlag|
    && (c.policy == R.CLOCK ==> n.repl == m.repl.(clockFlag := m.repl.clockFlag[m.pt[p].frameNo := 1]))
    && (c.policy == R.LRU ==> n.repl.frames != [] && n.repl.frames[0] == m.pt[p].frameNo)
    && (c.policy == R.RANDOM || c.policy == R.FIFO ==> n.repl == m.repl)
  }

  lemma HitRefers(c: Config, m: Memory, p: PageId, write: bool)
    requires Loaded(m, p) && 0 <= m.pt[p].frameNo < |m.repl.clockFlag|
    ensures Referred(c, m, Hit(c, m, p, write), p, write)
    ensures Hit(c, m, p, write)
         == m.(pt := if write then m.pt[p := m.pt[p].(dirty := true)] else m.pt,
               repl := R.Touch(c.policy, m.repl, m.pt[p].frameNo))
  {
  }

  class Mmu {
    const c: Config
    const pageTable: array2<Pte>
    const invertTable: array<PageId>
    const tlb: array2<TlbSet>
    const repl: Policies
    var frameInd: nat
    var stats: Stats
    var numDiskRead: nat
    var numDiskWrite: nat
    /** The abstract value of all the fields above; it also holds the contents of the frames and of
        the disk, whose transfers the simulator only counts. */
    ghost var state: Machine

    ghost predicate Apart()
      reads this, repl
    {
      && repl in repl.Repr && this !in repl.Repr && pageTable !in repl.Repr && invertTable !in repl.Repr
      && tlb !in repl.Repr
    }

    ghost predicate Valid()
      reads this, pageTable, invertTable, tlb, repl, repl.Repr
    {
      && Shaped(c, state.mem) && TlbShaped(c, state.tlb)
      && repl.Valid() && Apart() && repl.policy == c.policy
      && pageTable.Length0 == tlb.Length0 == c.pids && pageTable.Length1 == c.pages && tlb.Length1 == c.sets
      && repl.clockFlag.Length == c.frames
      && (forall p :: p in state.mem.pt ==> state.mem.pt[p] == pageTable[p.pid, p.no])
      && (forall k :: k in state.tlb ==> state.tlb[k] == tlb[k.pid, k.index])
      && state.mem.inverted == invertTable[..] && state.mem.frameInd == frameInd && state.mem.repl == repl.state
      && state.mem.loads == numDiskRead && state.mem.stores == numDiskWrite && state.stats == stats
    }

    /** The program's statics, all zero but `tlbset_ptr[0][0]`, then `pt_init` and `tlb_init`. */
    constructor (c: Config, ghost ram: seq<Data>, ghost disk: map<PageId, Data>)
      requires c.frames > 0 && c.pids > 0 && c.pages > 0 && c.sets > 0
      requires |ram| == c.frames && forall p :: p in disk <==> p.pid < c.pids && p.no < c.pages
      ensures Valid() && this.c == c && fresh(this) && fresh(pageTable)
      ensures fresh(invertTable) && fresh(tlb) && fresh(repl.Repr)
      ensures Started(c, state) && state.mem.disk == disk && state.mem.ram == ram
    {
      this.c := c;
      pageTable := new Pte[c.pids, c.pages]((i, j) => Pte(0, false, false));
      invertTable := new PageId[c.frames](i => PageId(0, 0));
      tlb := new TlbSet[c.pids, c.sets]((i, j) =>
        TlbSet(Way(0, 0, false), Way(0, 0, false), if i == 0 && j == 0 then 1 else 0));
      repl := new Policies(c.policy, c.frames);
      frameInd, stats := 0, Stats(0, 0, 0, 0);
      numDiskRead, numDiskWrite := 0, 0;
      new;
      assert disk.Keys == AllPages(c);
      Start(ram, disk);
    }

    /** `pt_init` and `tlb_init`. */
    method Start(ghost ram: seq<Data>, ghost disk: map<PageId, Data>)
      requires ConfigOk(c) && |ram| == c.frames && disk.Keys == AllPages(c)
      requires repl.Valid() && Apart() && repl.policy == c.policy
      requires repl.state == R.State([], false, seq(c.frames, i => 0), 0, 0)
      requires pageTable.Length0 == tlb.Length0 == c.pids && pageTable.Length1 == c.pages && tlb.Length1 == c.sets
      requires repl.clockFlag.Length == invertTable.Length == c.frames && frameInd == numDiskRead == numDiskWrite == 0
      requires forall i, j :: 0 <= i < c.pids && 0 <= j < c.pages ==> !pageTable[i, j].dirty
      modifies this, pageTable, tlb
      ensures Valid() && Started(c, state) && state.mem.disk == disk && state.mem.ram == ram
    {
      PtInit(c, pageTable);
      TlbInit(c, tlb);
      stats := Stats(0, 0, 0, 0);
      ghost var pt := map p | p in AllPages(c) :: pageTable[p.pid, p.no];
      ghost var sets := map k | k in AllSets(c) :: tlb[k.pid, k.index];
      state := Machine(Memory(pt, invertTable[..], 0, repl.state, ram, disk, 0, 0), sets, stats);
      StartState(c, pt, invertTable[..], repl.state, ram, disk, sets);
      StartShape(c, state);
      hide Started, Shaped, TlbShaped, InRange;
    }

    lemma Mirrors()
      requires Valid()
      ensures c.sets > 0 && stats == state.stats && frameInd == state.mem.frameInd <= c.frames
      ensures |state.mem.repl.clockFlag| == c.frames
      ensures invertTable[..] == state.mem.inverted
    {
    }

    lemma PteAt(p: PageId)
      requires Valid() && InRange(c, p)
      ensures p.pid < pageTable.Length0 && p.no < pageTable.Length1
      ensures p in state.mem.pt && pageTable[p.pid, p.no] == state.mem.pt[p]
    {
    }

    lemma TlbAt(k: SetId)
      requires Valid() && k in state.tlb
      ensures k.pid < c.pids == tlb.Length0 && k.index < c.sets == tlb.Length1 && tlb[k.pid, k.index] == state.tlb[k]
    {
    }

    // ----- Single updates -----

    method SetPte(p: PageId, e: Pte)
      requires Valid() && InRange(c, p)
      modifies this`state, pageTable
      ensures Valid() && state == old(state).(mem := old(state).mem.(pt := old(state).mem.pt[p := e]))
    {
      pageTable[p.pid, p.no] := e;
      state := state.(mem := state.mem.(pt := state.mem.pt[p := e]));
    }

    method SetTlb(k: SetId, t: TlbSet)
      requires Valid() && k.pid < c.pids && k.index < c.sets
      modifies this`state, tlb
      ensures Valid() && state == old(state).(tlb := old(state).tlb[k := t])
    {
      tlb[k.pid, k.index] := t;
      state := state.(tlb := state.tlb[k := t]);
    }

    method SetInverted(f: nat, p: PageId)
      requires Valid() && f < c.frames
      modifies this`state, invertTable
      ensures Valid() && state == old(state).(mem := old(state).mem.(inverted := old(state).mem.inverted[f := p]))
    {
      invertTable[f] := p;
      state := state.(mem := state.mem.(inverted := state.mem.inverted[f := p]));
    }

    method DiskRead(f: nat, p: PageId)
      requires Valid() && f < c.frames && InRange(c, p)
      modifies this
      ensures Valid()
      ensures var m := old(state).mem;
        state == old(state).(mem := m.(ram := m.ram[f := m.disk[p]], loads := m.loads + 1))
    {
      numDiskRead := numDiskRead + 1;
      state := state.(mem := state.mem.(ram := state.mem.ram[f := state.mem.disk[p]], loads := numDiskRead));
    }

    method DiskWrite(f: nat, p: PageId)
      requires Valid() && f < c.frames && InRange(c, p)
      modifies this
      ensures Valid()
      ensures var m := old(state).mem;
        state == old(state).(mem := m.(disk := m.disk[p := m.ram[f]], stores := m.stores + 1))
    {
      numDiskWrite := numDiskWrite + 1;
      state := state.(mem := state.mem.(disk := state.mem.disk[p := state.mem.ram[f]], stores := numDiskWrite));
    }

    method Count(s: Stats)
      requires Valid()
      modifies this
      ensures Valid() && state == old(state).(stats := s)
    {
      stats := s;
      state := state.(stats := s);
    }

    /** The policy updates that follow a hit (`flag` 1) and the load of a free frame (`flag` 3). */
    method Reference(frame: nat, flag: int)
      requires Valid() && frame < c.frames && (flag == 1 || flag == 3)
      modifies this`state, repl.Repr
      ensures Valid() && fresh(repl.Repr - old(repl.Repr))
      ensures state == old(state).(mem := old(state).mem.(repl := R.Touch(c.policy, old(state).mem.repl, frame)))
    {
      repl.Reference(frame, flag);
      state := state.(mem := state.mem.(repl := repl.state));
    }

    // ----- The functions of pagetable.c -----

    /** `is_TLB_hit`: -1 on a miss. */
    method IsTlbHit(p: PageId, write: bool) returns (frame: int)
      requires Valid() && Inv(c, state) && InRange(c, p) && SetOf(c, p) in state.tlb
      modifies this, pageTable, invertTable, tlb, repl.Repr
      ensures Valid() && fresh(repl.Repr - old(repl.Repr))
      ensures var s, t := old(state), old(state).tlb[SetOf(c, p)];
        if InTlb(t, p.no)
        then Loaded(s.mem, p) && frame == s.mem.pt[p].frameNo && Referred(c, s.mem, state.mem, p, write)
             && state == s.(mem := Hit(c, s.mem, p, write), tlb := s.tlb[SetOf(c, p) := t.(ptr := HitWay(t, p.no))])
        else frame == -1 && state == s
    {
      hide Valid, Inv, Hit, Referred;
      Mirrors();
      var k := SetOf(c, p);
      for w := 0 to 2
        invariant Valid() && state == old(state) && repl.Repr == old(repl.Repr)
        invariant w > 0 ==> !Holds(state.tlb[k], 0, p.no)
        invariant w > 1 ==> !Holds(state.tlb[k], 1, p.no)
      {
        TlbAt(k);
        var t := tlb[k.pid, k.index];
        if t.At(w).valid && t.At(w).entry == p.no {
          InTlbIsLoaded(c, state, k, p.no);
          FrameInMemory(c, state, p);
          SetTlb(k, t.(ptr := w));
          frame := Referenced(p, write);
          return;
        }
      }
      return -1;
    }

    /** What both kinds of hit do to the page table and the policy's state. */
    method Referenced(p: PageId, write: bool) returns (frame: int)
      requires Valid() && InRange(c, p) && Loaded(state.mem, p) && 0 <= state.mem.pt[p].frameNo < c.frames
      modifies this, pageTable, invertTable, tlb, repl.Repr
      ensures Valid() && fresh(repl.Repr - old(repl.Repr))
      ensures frame == old(state).mem.pt[p].frameNo && state == old(state).(mem := Hit(c, old(state).mem, p, write))
      ensures Referred(c, old(state).mem, state.mem, p, write)
    {
      hide *;
      Mirrors();
      HitRefers(c, state.mem, p, write);
      PteAt(p);
      var e := pageTable[p.pid, p.no];
      if write {
        SetPte(p, e.(dirty := true));
      }
      Reference(e.frameNo, 1);
      return e.frameNo;
    }

    /** The TLB update shared by a page hit and both kinds of fault. */
    method FillTlb(p: PageId, frame: int)
      requires Valid() && InRange(c, p) && SetOf(c, p) in state.tlb
      modifies this`state, tlb
      ensures Valid()
      ensures var k := SetOf(c, p);
        state == old(state).(tlb := old(state).tlb[k := Fill(old(state).tlb[k], p.no, frame)])
    {
      var k := SetOf(c, p);
      var t := tlb[k.pid, k.index];
      var w := 1 - t.ptr;
      SetTlb(k, t.(ptr := w).Put(w, Way(p.no, frame, true)));
    }

    /** `is_page_hit`: -1 when the page is not loaded. */
    method IsPageHit(p: PageId, write: bool) returns (frame: int)
      requires Valid() && Inv(c, state) && InRange(c, p) && SetOf(c, p) in state.tlb
      modifies this, pageTable, invertTable, tlb, repl.Repr
      ensures Valid() && fresh(repl.Repr - old(repl.Repr))
      ensures var s, m, k := old(state), old(state).mem, SetOf(c, p);
        if Loaded(m, p)
        then frame == m.pt[p].frameNo && Referred(c, m, state.mem, p, write)
             && state == s.(mem := Hit(c, m, p, write), tlb := s.tlb[k := Fill(s.tlb[k], p.no, m.pt[p].frameNo)])
        else frame == -1 && state == s
    {
      hide Valid, Inv, Hit, Fill, Referred;
      PteAt(p);
      var e := pageTable[p.pid, p.no];
      if e.valid {
        FrameInMemory(c, state, p);
        frame := Referenced(p, write);
        FillTlb(p, frame);
        return frame;
      }
      return -1;
    }

    /** The loop of `pagefault_handler` that takes the victim out of the TLB. */
    method DropFromTlb(victim: PageId)
      requires Valid() && InRange(c, victim) && SetOf(c, victim) in state.tlb
      modifies this`state, tlb
      ensures Valid()
      ensures var k := SetOf(c, victim);
        state == old(state).(tlb := old(state).tlb[k := Drop(old(state).tlb[k], victim.no)])
    {
      hide Valid;
      Mirrors();
      var k := SetOf(c, victim);
      ghost var t0 := state.tlb[k];
      for j := 0 to 2
        invariant Valid()
        invariant state == old(state).(tlb := old(state).tlb[k := if j == 0 then t0
                                                               else if j == 1 then DropWay(t0, 0, victim.no)
                                                               else Drop(t0, victim.no)])
      {
        TlbAt(k);
        var t := tlb[k.pid, k.index];
        if t.At(j).entry == victim.no {
          SetTlb(k, t.Put(j, t.At(j).(valid := false)).(ptr := 1 - j));
        }
      }
    }

    /** Frame `f` becomes page `p`: read from the disk, entered in both tables, dirty for a write. */
    method LoadFrame(f: nat, p: PageId, write: bool)
      requires Valid() && InRange(c, p) && f < c.frames
      modifies this, pageTable, invertTable, tlb
      ensures Valid()
      ensures var m := old(state).mem;
        state == old(state).(mem := m.(pt := m.pt[p := Pte(f, true, write)], inverted := m.inverted[f := p],
                                       ram := m.ram[f := m.disk[p]], loads := m.loads + 1))
    {
      SetPte(p, Pte(f, true, write));
      DiskRead(f, p);
      SetInverted(f, p);
    }

    /** The branch of `pagefault_handler` for a memory that is not full, less its TLB update. */
    method LoadFreeFrame(p: PageId, write: bool) returns (frame: int)
      requires Valid() && InRange(c, p) && frameInd < c.frames
      modifies this, pageTable, invertTable, tlb, repl.Repr
      ensures Valid() && fresh(repl.Repr - old(repl.Repr))
      ensures frame == old(frameInd) && state == old(state).(mem := LoadFree(c, old(state).mem, p, write))
    {
      hide Valid, R.Touch;
      Mirrors();
      frame := frameInd;
      Reference(frame, 3);
      LoadFrame(frame, p, write);
      Advance();
    }

    /** `frame_ind++` */
    method Advance()
      requires Valid() && state.mem.frameInd < c.frames
      modifies this`frameInd, this`state
      ensures Valid() && state == old(state).(mem := old(state).mem.(frameInd := old(state).mem.frameInd + 1))
    {
      frameInd := frameInd + 1;
      state := state.(mem := state.mem.(frameInd := frameInd));
    }

    /** `page_replacement` with `lru_flag` 2. */
    method ChooseVictim(rnd: nat) returns (v: nat)
      requires Valid() && Sound(c, state.mem) && frameInd == c.frames
      modifies this`state, repl.Repr
      ensures Valid() && fresh(repl.Repr - old(repl.Repr))
      ensures R.Ready(c.policy, old(state).mem.repl, c.frames) && v < c.frames
      ensures var (frame, r) := R.Victim(c.policy, old(state).mem.repl, c.frames, rnd);
        v == frame && state == old(state).(mem := old(state).mem.(repl := r))
    {
      hide MapsInverse, Shaped, TlbShaped, R.Victim, InRange;
      FullVictim(c, state.mem, rnd);
      VictimShaped(c, state.mem, rnd);
      repl.lruFlag := 2;
      assert c.policy == R.LRU ==> |repl.nodes| == |repl.state.frames|;
      v := repl.PageReplacement(rnd);
      state := state.(mem := state.mem.(repl := repl.state));
    }

    /** The victim's entry becomes invalid and clean; a dirty page is written to the disk first. */
    method WriteBack(v: nat, victim: PageId)
      requires Valid() && v < c.frames && InRange(c, victim)
      modifies this, pageTable, invertTable, tlb
      ensures Valid()
      ensures var m := old(state).mem; var former := m.pt[victim];
        state == old(state).(mem := m.(pt := m.pt[victim := Pte(former.frameNo, false, false)],
                                       disk := if former.dirty then m.disk[victim := m.ram[v]] else m.disk,
                                       stores := m.stores + if former.dirty then 1 else 0))
    {
      hide Valid;
      PteAt(victim);
      var former := pageTable[victim.pid, victim.no];
      SetPte(victim, former.(valid := false));
      if former.dirty {
        DiskWrite(v, victim);
        SetPte(victim, Pte(former.frameNo, false, false));
      }
    }

    /** The full-memory branch updates the TLB before the page table, so it stores a stale frame. */
    method ExchangeInTlb(victim: PageId, p: PageId)
      requires Valid() && InRange(c, p) && InRange(c, victim)
      requires SetOf(c, p) in state.tlb && SetOf(c, victim) in state.tlb
      modifies this`state, tlb
      ensures Valid()
      ensures var s, k, j := old(state), SetOf(c, p), SetOf(c, victim);
        var dropped := s.tlb[j := Drop(s.tlb[j], victim.no)];
        state == s.(tlb := dropped[k := Fill(dropped[k], p.no, s.mem.pt[p].frameNo)])
    {
      DropFromTlb(victim);
      var e := pageTable[p.pid, p.no];
      FillTlb(p, e.frameNo);
    }

    /** The full-memory branch of `pagefault_handler`. */
    method EvictAndLoad(p: PageId, write: bool, rnd: nat) returns (frame: int)
      requires Valid() && Inv(c, state) && InRange(c, p) && !Loaded(state.mem, p) && frameInd == c.frames
      requires SetOf(c, p) in state.tlb && !InTlb(state.tlb[SetOf(c, p)], p.no)
      modifies this, pageTable, invertTable, tlb, repl.Repr
      ensures Valid() && fresh(repl.Repr - old(repl.Repr))
      ensures state == old(state).(mem := Fault(c, old(state).mem, p, write, rnd),
        tlb := TlbAfter(c, old(state), p, rnd))
      ensures frame == state.mem.pt[p].frameNo
    {
      hide *;
      ghost var s := state;
      Mirrors();
      EvictIsFault(c, s, p, write, rnd);
      var v := ChooseVictim(rnd);
      Mirrors();
      var victim := invertTable[v];
      ExchangeInTlb(victim, p);
      WriteBack(v, victim);
      LoadFrame(v, p, write);
      ReplaceInSteps(c, s.mem, p, write, v, R.Victim(c.policy, s.mem.repl, c.frames, rnd).1);
      frame := v;
    }

    /** `pagefault_handler` */
    method PagefaultHandler(p: PageId, write: bool, rnd: nat) returns (frame: int)
      requires Valid() && Inv(c, state) && InRange(c, p) && !Loaded(state.mem, p)
      requires SetOf(c, p) in state.tlb && !InTlb(state.tlb[SetOf(c, p)], p.no)
      modifies this, pageTable, invertTable, tlb, repl.Repr
      ensures Valid() && fresh(repl.Repr - old(repl.Repr))
      ensures state == old(state).(mem := Fault(c, old(state).mem, p, write, rnd),
        tlb := TlbAfter(c, old(state), p, rnd))
      ensures frame == state.mem.pt[p].frameNo
    {
      hide *;
      Mirrors();
      NotFullIsFault(c, state, p, write, rnd);
      if frameInd == c.frames {
        frame := EvictAndLoad(p, write, rnd);
      } else {
        frame := LoadFreeFrame(p, write);
        FillTlb(p, frame);
      }
    }

    /** The last part of `MMU`, after a miss in the page table. */
    method AfterPageMiss(p: PageId, write: bool, rnd: nat) returns (frame: int)
      requires Valid() && Inv(c, state) && InRange(c, p) && !Loaded(state.mem, p)
      requires SetOf(c, p) in state.tlb && !InTlb(state.tlb[SetOf(c, p)], p.no)
      modifies this, pageTable, invertTable, tlb, repl.Repr
      ensures Valid() && fresh(repl.Repr - old(repl.Repr))
      ensures state == Access(c, old(state), p, write, rnd)
      ensures p in state.mem.pt && frame == state.mem.pt[p].frameNo
    {
      hide *;
      Mirrors();
      FaultIsAccess(c, state, p, write, rnd);
      frame := PagefaultHandler(p, write, rnd);
      Mirrors();
      Count(stats.(miss := stats.miss + 1, tlbMiss := stats.tlbMiss + 1));
    }

    /** The part of `MMU` after a TLB miss. */
    method AfterTlbMiss(p: PageId, write: bool, rnd: nat) returns (frame: int, hit: bool)
      requires Valid() && Inv(c, state) && InRange(c, p)
      requires SetOf(c, p) in state.tlb && !InTlb(state.tlb[SetOf(c, p)], p.no)
      modifies this, pageTable, invertTable, tlb, repl.Repr
      ensures Valid() && fresh(repl.Repr - old(repl.Repr))
      ensures state == Access(c, old(state), p, write, rnd) && hit == Loaded(old(state).mem, p)
      ensures p in state.mem.pt && frame == state.mem.pt[p].frameNo
    {
      hide Valid, Inv, Access, Counted, Serviced, TlbAfter, Hit, Fill, R.Touch;
      if Loaded(state.mem, p) { PageHitIsAccess(c, state, p, write, rnd); }
      frame := IsPageHit(p, write);
      Mirrors();
      if frame > -1 {
        Count(stats.(hit := stats.hit + 1, tlbMiss := stats.tlbMiss + 1));
        return frame, true;
      }
      frame := AfterPageMiss(p, write, rnd);
      return frame, false;
    }

    /** The part of `MMU` after its guards. */
    method Serve(p: PageId, write: bool, rnd: nat) returns (frame: int, hit: bool, tlbHit: bool)
      requires Valid() && Inv(c, state) && InRange(c, p) && SetOf(c, p) in state.tlb
      modifies this, pageTable, invertTable, tlb, repl.Repr
      ensures Valid() && fresh(repl.Repr - old(repl.Repr))
      ensures state == Access(c, old(state), p, write, rnd)
      ensures hit == Loaded(old(state).mem, p) && tlbHit == InTlb(old(state).tlb[SetOf(c, p)], p.no)
      ensures p in state.mem.pt && frame == state.mem.pt[p].frameNo
    {
      hide Valid, Inv, Access, Serviced, TlbAfter, Counted, R.Touch;
      frame := ServeFromTlb(p, write, rnd);
      if frame > -1 {
        return frame, true, true;
      }
      frame, hit := AfterTlbMiss(p, write, rnd);
      return frame, hit, false;
    }

    method ServeFromTlb(p: PageId, write: bool, ghost rnd: nat) returns (frame: int)
      requires Valid() && Inv(c, state) && InRange(c, p) && SetOf(c, p) in state.tlb
      modifies this, pageTable, invertTable, tlb, repl.Repr
      ensures Valid() && fresh(repl.Repr - old(repl.Repr))
      ensures if InTlb(old(state).tlb[SetOf(c, p)], p.no)
              then state == Access(c, old(state), p, write, rnd) && Loaded(old(state).mem, p)
                   && p in state.mem.pt && 0 <= frame == state.mem.pt[p].frameNo
              else frame == -1 && state == old(state)
    {
      hide *;
      Mirrors();
      if InTlb(state.tlb[SetOf(c, p)], p.no) { TlbHitIsAccess(c, state, p, write, rnd); }
      frame := IsTlbHit(p, write);
      Mirrors();
      if frame > -1 {
        Count(stats.(hit := stats.hit + 1, tlbHit := stats.tlbHit + 1));
      }
    }

    /** `MMU` after its guards, up to the address. */
    method Address(r: Request, p: PageId, offset: nat) returns (physical: int, hit: bool, tlbHit: bool)
      requires Valid() && Inv(c, state) && InRange(c, p) && p == PageOf(r)
      modifies this, pageTable, invertTable, tlb, repl.Repr
      ensures Valid() && fresh(repl.Repr - old(repl.Repr)) && Inv(c, state)
      ensures state == Translated(c, old(state), r) && p in state.mem.pt
      ensures physical == PhysicalAddress(state.mem, p, offset)
      ensures hit == Loaded(old(state).mem, p) && SetOf(c, p) in old(state).tlb
      ensures tlbHit == InTlb(old(state).tlb[SetOf(c, p)], p.no)
    {
      hide *;
      ghost var s := state;
      TranslatedIs(c, s, p, r);
      var frame;
      frame, hit, tlbHit := Serve(p, r.op.Write?, r.rnd);
      AddressIs(state.mem, p, offset);
      physical := frame * PAGE_SIZE + offset;
    }

    /** `MMU`: the physical address, or -1 for a rejected request, which changes nothing. */
    method Translate(r: Request) returns (physical: int, hit: bool, tlbHit: bool)
      requires Valid() && Inv(c, state) && Defined(c, r)
      modifies this, pageTable, invertTable, tlb, repl.Repr
      ensures Valid() && fresh(repl.Repr - old(repl.Repr)) && Inv(c, state)
      ensures r.pid > c.pids || r.addr / 256 > c.pages ==> physical == -1 && state == old(state)
      ensures r.pid <= c.pids && r.addr / 256 <= c.pages ==>
                var p := PageId(r.pid, r.addr / 256);
                && InRange(c, PageOf(r)) && state == Translated(c, old(state), r)
                && p in state.mem.pt && physical == state.mem.pt[p].frameNo * 256 + r.addr % 256
                && hit == Loaded(old(state).mem, p) && SetId(p.pid, p.no % c.sets) in old(state).tlb
                && tlbHit == InTlb(old(state).tlb[SetId(p.pid, p.no % c.sets)], p.no)
    {
      var p := PageId(r.pid, r.addr / PAGE_SIZE);
      var offset := r.addr - p.no * PAGE_SIZE;
      if p.no > c.pages { return -1, false, false; }
      if r.pid > c.pids { return -1, false, false; }
      assert offset == Offset(r);
      hide Valid, Inv, Translated, Loaded, InTlb, PhysicalAddress;
      physical, hit, tlbHit := Address(r, p, offset);
    }
  }

  /** The loops of `pt_init`. */
  method PtInit(c: Config, pageTable: array2<Pte>)
    requires pageTable.Length0 == c.pids && pageTable.Length1 == c.pages
    modifies pageTable
    ensures forall a, b :: 0 <= a < c.pids && 0 <= b < c.pages ==>
      pageTable[a, b] == old(pageTable[a, b]).(valid := false)
  {
    for i := 0 to c.pids
      invariant forall a, b :: 0 <= a < c.pids && 0 <= b < c.pages ==>
                  pageTable[a, b] == if a < i then old(pageTable[a, b]).(valid := false) else old(pageTable[a, b])
    {
      for j := 0 to c.pages
        invariant forall a, b :: 0 <= a < c.pids && 0 <= b < c.pages ==>
                    pageTable[a, b] == if a < i || (a == i && b < j) then old(pageTable[a, b]).(valid := false)
                                       else old(pageTable[a, b])
      {
        pageTable[i, j] := pageTable[i, j].(valid := false);
      }
    }
  }

  /** The loops of `tlb_init`. */
  method TlbInit(c: Config, tlb: array2<TlbSet>)
    requires tlb.Length0 == c.pids && tlb.Length1 == c.sets
    modifies tlb
    ensures forall a, b :: 0 <= a < c.pids && 0 <= b < c.sets ==> !tlb[a, b].way0.valid && !tlb[a, b].way1.valid
  {
    for i := 0 to c.pids
      invariant forall a, b :: 0 <= a < i && 0 <= b < c.sets ==> !tlb[a, b].way0.valid && !tlb[a, b].way1.valid
    {
      for j := 0 to c.sets
        invariant forall a, b :: 0 <= a < i && 0 <= b < c.sets ==> !tlb[a, b].way0.valid && !tlb[a, b].way1.valid
        invariant forall b :: 0 <= b < j ==> !tlb[i, b].way0.valid && !tlb[i, b].way1.valid
      {
        var t := tlb[i, j];
        tlb[i, j] := t.(way0 := t.way0.(valid := false), way1 := t.way1.(valid := false));
      }
    }
  }
}
