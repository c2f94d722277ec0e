/** Which pages are written back to the disk, told from the requests and from which pages are loaded; whom the random
    policy evicts; and what the TLB keeps of a page's frame. */
module VmTransfers {
  import opened Lists
  import opened PagingTheory
  import opened Replacement
  import opened VirtualMemory
  import opened VmInvariant
  import opened VmRuns
  import opened PolicyTheorems
  import opened VmReference

  // ----- Dirty pages -----

  /** Page `p` is loaded and has been written to since it was. */
  ghost function WrittenSince(c: Config, s: Machine, rs: seq<Request>, p: PageId): bool
    requires Inv(c, s) && AllDefined(c, rs)
  {
    if rs == [] then false
    else
      var before, r := WrittenSince(c, s, Front(rs), p), Last(rs);
      if r.pid > c.pids || r.addr / 256 > c.pages then before
      else Loaded(Run(c, s, rs).mem, p) && (before || (PageId(r.pid, r.addr / 256) == p && r.op.Write?))
  }

  /** The page goes from memory in this request. */
  predicate Leaves(m: Memory, n: Memory, p: PageId) {
    Loaded(m, p) && !Loaded(n, p)
  }

  /** A page that leaves is written to the disk, and counted, exactly if it is dirty; every other page's copy on
      the disk stays. */
  ghost predicate WritesBack(m: Memory, n: Memory, p: PageId) {
    && p in m.pt && p in n.disk && p in m.disk
    && (Leaves(m, n, p) && m.pt[p].dirty ==> 0 <= m.pt[p].frameNo < |m.ram| && n.disk[p] == m.ram[m.pt[p].frameNo])
    && (!(Leaves(m, n, p) && m.pt[p].dirty) ==> n.disk[p] == m.disk[p])
  }

  lemma ServicedDirty(c: Config, m: Memory, p: PageId, write: bool, rnd: nat, q: PageId)
    requires Sound(c, m) && InRange(c, p) && InRange(c, q)
    ensures var n := Serviced(c, m, p, write, rnd);
      && q in m.pt && q in n.pt && WritesBack(m, n, q)
      && (n.pt[q].dirty <==> Loaded(n, q) && (m.pt[q].dirty || (q == p && write)))
  {
    if !Loaded(m, p) && m.frameInd == c.frames { FullVictim(c, m, rnd); }
  }

  lemma ServicedStores(c: Config, m: Memory, p: PageId, write: bool, rnd: nat)
    requires Sound(c, m) && InRange(c, p)
    ensures var n := Serviced(c, m, p, write, rnd);
      n.stores == m.stores + if exists q :: Leaves(m, n, q) && m.pt[q].dirty then 1 else 0
  {
    var n, e := Serviced(c, m, p, write, rnd), EvictedBy(c, m, p, rnd);
    forall q ensures Leaves(m, n, q) <==> e == Evicted(q) {
      LoadedAfter(c, m, p, write, rnd, q);
    }
    if e.Evicted? {
      FullVictim(c, m, rnd);
      assert Leaves(m, n, e.page);
    }
  }

  lemma StepDirty(c: Config, s: Machine, r: Request, p: PageId)
    requires Inv(c, s) && Defined(c, r) && InRange(c, p)
    ensures var m, n := s.mem, Step(c, s, r).mem;
      && p in m.pt && p in n.pt && WritesBack(m, n, p)
      && (n.pt[p].dirty <==>
            if r.pid > c.pids || r.addr / 256 > c.pages then m.pt[p].dirty
            else Loaded(n, p) && (m.pt[p].dirty || (PageId(r.pid, r.addr / 256) == p && r.op.Write?)))
  {
    if Rejected(c, r) {
      Refused(c, s, r);
    } else {
      StepEffect(c, s, r);
      ServicedDirty(c, s.mem, PageOf(r), r.op.Write?, r.rnd, p);
      hide Step, Serviced, TlbSound;
    }
  }

  /** A page's dirty bit says exactly that it is loaded and has been written to since. */
  lemma {:induction false} DirtyExactly(c: Config, s: Machine, rs: seq<Request>, p: PageId)
    requires Started(c, s) && Inv(c, s) && AllDefined(c, rs) && InRange(c, p)
    ensures p in Run(c, s, rs).mem.pt
    ensures Run(c, s, rs).mem.pt[p].dirty <==> WrittenSince(c, s, rs, p)
  {
    if rs != [] {
      DirtyExactly(c, s, Front(rs), p);
      StepDirty(c, Run(c, s, Front(rs)), Last(rs), p);
      hide Inv, Started, Step;
    }
  }

  /** How many pages have left memory after they were written to there. */
  ghost function WrittenAndGone(c: Config, s: Machine, rs: seq<Request>): nat
    requires Inv(c, s) && AllDefined(c, rs)
  {
    if rs == [] then 0
    else
      var m, n := Run(c, s, Front(rs)).mem, Run(c, s, rs).mem;
      WrittenAndGone(c, s, Front(rs))
        + if exists p :: Leaves(m, n, p) && WrittenSince(c, s, Front(rs), p) then 1 else 0
  }

  lemma StepStores(c: Config, s: Machine, r: Request)
    requires Inv(c, s) && Defined(c, r)
    ensures var m, n := s.mem, Step(c, s, r).mem;
      n.stores == m.stores + if exists p :: Leaves(m, n, p) && m.pt[p].dirty then 1 else 0
  {
    if Rejected(c, r) {
      Refused(c, s, r);
    } else {
      StepEffect(c, s, r);
      ServicedStores(c, s.mem, PageOf(r), r.op.Write?, r.rnd);
      hide Step, Serviced, TlbSound;
      var m, n := s.mem, Step(c, s, r).mem;
      assert forall q :: Leaves(m, n, q) <==> Leaves(m, Serviced(c, m, PageOf(r), r.op.Write?, r.rnd), q);
    }
  }

  /** The simulator's disk writes are exactly those: a page that was only read since it was loaded is never
      written back. */
  lemma {:induction false} StoresExactly(c: Config, s: Machine, rs: seq<Request>)
    requires Started(c, s) && Inv(c, s) && AllDefined(c, rs)
    ensures Run(c, s, rs).mem.stores == WrittenAndGone(c, s, rs)
  {
    if rs != [] {
      var u := Front(rs);
      StoresExactly(c, s, u);
      var t := Run(c, s, u);
      StepStores(c, t, Last(rs));
      OnlyPages(c, t);
      hide Inv, Started, Step, WrittenSince;
      forall p | Loaded(t.mem, p) ensures t.mem.pt[p].dirty <==> WrittenSince(c, s, u, p) {
        DirtyExactly(c, s, u, p);
      }
    }
  }

  lemma OnlyPages(c: Config, s: Machine)
    requires Inv(c, s)
    ensures forall p :: Loaded(s.mem, p) ==> InRange(c, p)
  {
  }

  /** And without a write nothing is written back, whatever has to go. */
  lemma {:induction false} ReadsOnly(c: Config, s: Machine, rs: seq<Request>)
    requires Started(c, s) && Inv(c, s) && AllDefined(c, rs) && forall r :: r in rs ==> r.op.Read?
    ensures Run(c, s, rs).mem.stores == 0 && Run(c, s, rs).mem.disk == s.mem.disk
  {
    if rs != [] {
      var u, r := Front(rs), Last(rs);
      assert r in rs && forall x :: x in u ==> x in rs;
      ReadsOnly(c, s, u);
      StoresExactly(c, s, rs);
      NoneWritten(c, s, rs);
      assert Run(c, s, rs) == Step(c, Run(c, s, u), r) && Defined(c, r);
      hide *;
      var t := Run(c, s, u);
      forall p | InRange(c, p)
        ensures p in Step(c, t, r).mem.disk && p in t.mem.disk && Step(c, t, r).mem.disk[p] == t.mem.disk[p]
      {
        DirtyExactly(c, s, u, p);
        NeverWritten(c, s, u, p);
        StepDirty(c, t, r, p);
        CleanStays(t.mem, Step(c, t, r).mem, p);
      }
      SameDisk(c, t, Step(c, t, r));
    }
  }

  lemma CleanStays(m: Memory, n: Memory, p: PageId)
    requires p in m.pt && WritesBack(m, n, p) && !m.pt[p].dirty
    ensures p in n.disk && p in m.disk && n.disk[p] == m.disk[p]
  {
  }

  lemma SameDisk(c: Config, s: Machine, t: Machine)
    requires Inv(c, s) && Inv(c, t)
    requires forall p :: InRange(c, p) ==> p in t.mem.disk && p in s.mem.disk && t.mem.disk[p] == s.mem.disk[p]
    ensures t.mem.disk == s.mem.disk
  {
    OnDiskInRange(c, s);
    OnDiskInRange(c, t);
    hide Inv, InRange;
  }

  lemma OnDiskInRange(c: Config, s: Machine)
    requires Inv(c, s)
    ensures forall p :: p in s.mem.disk <==> InRange(c, p)
  {
  }

  lemma {:induction false} NeverWritten(c: Config, s: Machine, rs: seq<Request>, p: PageId)
    requires Inv(c, s) && AllDefined(c, rs) && forall r :: r in rs ==> r.op.Read?
    ensures !WrittenSince(c, s, rs, p)
  {
    if rs != [] {
      assert Last(rs) in rs && forall r :: r in Front(rs) ==> r in rs;
      NeverWritten(c, s, Front(rs), p);
    }
  }

  lemma {:induction false} NoneWritten(c: Config, s: Machine, rs: seq<Request>)
    requires Inv(c, s) && AllDefined(c, rs) && forall r :: r in rs ==> r.op.Read?
    ensures WrittenAndGone(c, s, rs) == 0
  {
    if rs != [] {
      assert forall r :: r in Front(rs) ==> r in rs;
      NoneWritten(c, s, Front(rs));
      forall p ensures !WrittenSince(c, s, Front(rs), p) {
        NeverWritten(c, s, Front(rs), p);
      }
      hide Inv, Run, WrittenSince;
    }
  }

  // ----- The random policy -----

  /** RANDOM evicts the page whose frame number is the remainder of what `rand` gives, so that every loaded page
      can be the one to go. */
  lemma RandomVictim(c: Config, m: Memory, p: PageId, rnd: nat, q: PageId)
    requires Sound(c, m) && c.policy == RANDOM && InRange(c, p) && !Loaded(m, p) && m.frameInd == c.frames
    requires Loaded(m, q)
    ensures EvictedBy(c, m, p, rnd) == Evicted(q) <==> m.pt[q].frameNo == rnd % c.frames
    ensures m.pt[q].frameNo >= 0 && EvictedBy(c, m, p, m.pt[q].frameNo) == Evicted(q)
  {
    ModSmall(m.pt[q].frameNo, c.frames);
    FullVictim(c, m, rnd);
  }

  // ----- The TLB's frame numbers -----

  /** What the TLB keeps of a page it did not have is the frame the page is in, unless the page was loaded over
      another: then it is the frame the page table named before. */
  lemma CachedFrameIs(c: Config, s: Machine, p: PageId, write: bool, rnd: nat)
    requires Inv(c, s) && InRange(c, p)
    ensures var k := SetId(p.pid, p.no % c.sets); k in s.tlb && k in TlbAfter(c, s, p, rnd)
    ensures var k, n := SetId(p.pid, p.no % c.sets), Serviced(c, s.mem, p, write, rnd);
      var t := TlbAfter(c, s, p, rnd)[k];
      && InTlb(t, p.no) && HitWay(t, p.no) == t.ptr && p in n.pt && p in s.mem.pt
      && (InTlb(s.tlb[k], p.no) ==> t.At(t.ptr) == s.tlb[k].At(t.ptr))
      && (!InTlb(s.tlb[k], p.no) ==>
            t.At(t.ptr).frameNo
              == if EvictedBy(c, s.mem, p, rnd).Evicted? then s.mem.pt[p].frameNo else n.pt[p].frameNo)
  {
    SetInTlb(c, s.tlb, p);
    SetAfter(c, s, p, rnd, SetOf(c, p));
    ServicedSound(c, s.mem, p, write, rnd);
    if EvictedBy(c, s.mem, p, rnd).Evicted? { FullVictim(c, s.mem, rnd); }
  }
}
