/** Every access keeps the page table, inverted table, policy state and TLB in step. */
module VmInvariant {
  import opened Lists
  import opened PagingTheory
  import opened Replacement
  import opened VirtualMemory

  lemma TouchKeepsList(r: State, frame: int, n: nat)
    requires NoDup(r.frames) && forall f :: f in r.frames ==> 0 <= f < n
    requires 0 <= frame < n
    ensures var s := LruTouch(r, frame);
      && NoDup(s.frames) && (forall f :: f in s.frames ==> 0 <= f < n)
      && |s.frames| == |r.frames| + (if frame in r.frames then 0 else 1)
  {
    MoveFrontMembers(r.frames, frame);
  }

  /** The list names every loaded frame: it has as many distinct entries as there are frames. */
  lemma ListHasAll(m: Memory, f: int)
    requires ListsLoadedFrames(m) && 0 <= f < m.frameInd
    ensures f in m.repl.frames
  {
    ElemsSize(m.repl.frames);
    SubsetSize(Elems(m.repl.frames), Below(m.frameInd));
    assert f in Below(m.frameInd);
  }

  ghost function Below(n: nat): (s: set<int>)
    ensures |s| == n && forall i :: i in s <==> 0 <= i < n
  {
    if n == 0 then {} else Below(n - 1) + {n - 1}
  }

  lemma HitSound(c: Config, m: Memory, p: PageId, write: bool)
    requires Sound(c, m) && InRange(c, p) && Loaded(m, p)
    ensures Sound(c, Hit(c, m, p, write))
  {
    if c.policy == LRU {
      TouchKeepsList(m.repl, m.pt[p].frameNo, m.frameInd);
      ListHasAll(m, m.pt[p].frameNo);
    }
  }

  lemma LoadFreeSound(c: Config, m: Memory, p: PageId, write: bool)
    requires Sound(c, m) && InRange(c, p) && !Loaded(m, p) && m.frameInd < c.frames
    ensures Sound(c, LoadFree(c, m, p, write))
  {
    if c.policy == LRU {
      TouchKeepsList(m.repl, m.frameInd, m.frameInd + 1);
    }
  }

  lemma EvictKeepsList(r: State)
    requires NoDup(r.frames) && r.frames != []
    ensures var s := LruEvict(r).1;
      NoDup(s.frames) && |s.frames| == |r.frames| && forall f :: f in s.frames ==> f in r.frames
  {
  }

  lemma ReplaceMaps(c: Config, m: Memory, p: PageId, write: bool, v: nat, repl: State)
    requires Sound(c, m) && InRange(c, p) && !Loaded(m, p) && m.frameInd == c.frames && v < c.frames
    ensures MapsInverse(Replace(c, m, p, write, v, repl))
  {
  }

  lemma FaultSound(c: Config, m: Memory, p: PageId, write: bool, rnd: nat)
    requires Sound(c, m) && InRange(c, p) && !Loaded(m, p)
    ensures Sound(c, Fault(c, m, p, write, rnd))
  {
    if m.frameInd == c.frames {
      FullVictim(c, m, rnd);
      VictimInRange(c.policy, m.repl, c.frames, rnd);
      var (v, repl) := Victim(c.policy, m.repl, c.frames, rnd);
      ReplaceMaps(c, m, p, write, v, repl);
      if c.policy == LRU { EvictKeepsList(m.repl); }
    } else {
      LoadFreeSound(c, m, p, write);
    }
  }

  lemma ServicedSound(c: Config, m: Memory, p: PageId, write: bool, rnd: nat)
    requires Sound(c, m) && InRange(c, p)
    ensures Sound(c, Serviced(c, m, p, write, rnd)) && Loaded(Serviced(c, m, p, write, rnd), p)
  {
    if Loaded(m, p) { HitSound(c, m, p, write); } else { FaultSound(c, m, p, write, rnd); }
  }

  /** Which pages are loaded after an access: those before, less the victim, and the page itself. */
  lemma LoadedAfter(c: Config, m: Memory, p: PageId, write: bool, rnd: nat, q: PageId)
    requires Sound(c, m) && InRange(c, p)
    ensures Loaded(Serviced(c, m, p, write, rnd), q) <==>
            q == p || (Loaded(m, q) && EvictedBy(c, m, p, rnd) != Evicted(q))
    ensures EvictedBy(c, m, p, rnd).Evicted? ==> Loaded(m, EvictedBy(c, m, p, rnd).page)
  {
    if !Loaded(m, p) && m.frameInd == c.frames { FullVictim(c, m, rnd); }
  }

  lemma DropOk(t: TlbSet, page: int)
    requires SetOk(t)
    ensures SetOk(Drop(t, page)) && !InTlb(Drop(t, page), page)
  {
  }

  lemma InTlbIsLoaded(c: Config, s: Machine, k: SetId, page: int)
    requires Inv(c, s) && k in s.tlb && InTlb(s.tlb[k], page)
    ensures c.sets > 0 && 0 <= page && Loaded(s.mem, PageId(k.pid, page)) && page % c.sets == k.index
  {
  }

  /** Each set after an access, one set at a time. */
  lemma SetAfter(c: Config, s: Machine, p: PageId, rnd: nat, k: SetId)
    requires Inv(c, s) && InRange(c, p) && k in s.tlb
    ensures k in TlbAfter(c, s, p, rnd)
    ensures var e := EvictedBy(c, s.mem, p, rnd);
            var t := if e.Evicted? && SetOf(c, e.page) == k then Drop(s.tlb[k], e.page.no) else s.tlb[k];
            TlbAfter(c, s, p, rnd)[k] ==
              if k != SetOf(c, p) then t
              else if InTlb(t, p.no) then t.(ptr := HitWay(t, p.no))
              else Fill(t, p.no, CachedFrame(c, s.mem, p))
  {
    SetInTlb(c, s.tlb, p);
    var own := SetOf(c, p);
    if InTlb(s.tlb[own], p.no) {
      InTlbIsLoaded(c, s, own, p.no);
    }
    var e := EvictedBy(c, s.mem, p, rnd);
    if e.Evicted? {
      SetInTlb(c, s.tlb, e.page);
      DropFilters(s.tlb[own], e.page.no, p.no);
    }
  }

  lemma DropFilters(t: TlbSet, page: int, q: int)
    ensures InTlb(Drop(t, page), q) <==> InTlb(t, q) && q != page
  {
  }

  lemma OneSetSound(c: Config, s: Machine, p: PageId, write: bool, rnd: nat, k: SetId)
    requires Inv(c, s) && InRange(c, p) && k in s.tlb
    ensures k in TlbAfter(c, s, p, rnd)
    ensures var m, t := Serviced(c, s.mem, p, write, rnd), TlbAfter(c, s, p, rnd)[k];
      SetOk(t) && NamesLoaded(c, m, k, t.way0) && NamesLoaded(c, m, k, t.way1)
  {
    SetAfter(c, s, p, rnd, k);
    var e := EvictedBy(c, s.mem, p, rnd);
    var before := s.tlb[k];
    var t := if e.Evicted? && SetOf(c, e.page) == k then Drop(before, e.page.no) else before;
    var after := TlbAfter(c, s, p, rnd)[k];
    DropOk(before, if e.Evicted? then e.page.no else 0);
    WayNamesLoaded(c, s, p, write, rnd, k, t, after.way0);
    WayNamesLoaded(c, s, p, write, rnd, k, t, after.way1);
  }

  lemma WayNamesLoaded(c: Config, s: Machine, p: PageId, write: bool, rnd: nat, k: SetId, t: TlbSet, w: Way)
    requires Inv(c, s) && InRange(c, p) && k in s.tlb
    requires var e := EvictedBy(c, s.mem, p, rnd);
      t == if e.Evicted? && SetOf(c, e.page) == k then Drop(s.tlb[k], e.page.no) else s.tlb[k]
    requires w.valid ==> InTlb(t, w.entry) || (k == SetOf(c, p) && w.entry == p.no)
    ensures NamesLoaded(c, Serviced(c, s.mem, p, write, rnd), k, w)
  {
    if w.valid {
      var e := EvictedBy(c, s.mem, p, rnd);
      if InTlb(t, w.entry) {
        if e.Evicted? { DropFilters(s.tlb[k], e.page.no, w.entry); }
        InTlbIsLoaded(c, s, k, w.entry);
      }
      LoadedAfter(c, s.mem, p, write, rnd, PageId(k.pid, w.entry));
    }
  }

  /** The invariant of the whole simulator is kept by every access under every policy. */
  lemma AccessKeepsInv(c: Config, s: Machine, p: PageId, write: bool, rnd: nat)
    requires Inv(c, s) && InRange(c, p)
    ensures Inv(c, Access(c, s, p, write, rnd))
  {
    ServicedSound(c, s.mem, p, write, rnd);
    SetInTlb(c, s.tlb, p);
    var tlb := TlbAfter(c, s, p, rnd);
    TlbKeysKept(c, s, p, rnd);
    forall k | k in tlb
      ensures SetOk(tlb[k]) && NamesLoaded(c, Serviced(c, s.mem, p, write, rnd), k, tlb[k].way0)
      ensures NamesLoaded(c, Serviced(c, s.mem, p, write, rnd), k, tlb[k].way1)
    {
      OneSetSound(c, s, p, write, rnd, k);
    }
  }

  lemma TlbKeysKept(c: Config, s: Machine, p: PageId, rnd: nat)
    requires Inv(c, s) && InRange(c, p)
    ensures TlbAfter(c, s, p, rnd).Keys == s.tlb.Keys
  {
    SetInTlb(c, s.tlb, p);
    var e := EvictedBy(c, s.mem, p, rnd);
    if e.Evicted? { SetInTlb(c, s.tlb, e.page); }
  }

  /** Different loaded addresses go to different physical addresses with the same low 8 bits. */
  lemma AddressesInjective(c: Config, m: Memory, p: PageId, i: nat, q: PageId, j: nat)
    requires Sound(c, m) && Loaded(m, p) && Loaded(m, q) && i < PAGE_SIZE && j < PAGE_SIZE
    ensures PhysicalAddress(m, p, i) == PhysicalAddress(m, q, j) <==> p == q && i == j
    ensures PhysicalAddress(m, p, i) % PAGE_SIZE == i
    ensures 0 <= PhysicalAddress(m, p, i) < c.frames * PAGE_SIZE
  {
    assert m.inverted[m.pt[p].frameNo] == p && m.inverted[m.pt[q].frameNo] == q;
  }
}
