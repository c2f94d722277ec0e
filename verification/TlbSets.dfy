/** A two-way set with its one pointer bit is an LRU list of at most two pages. */
module TlbSets {
  import opened Lists
  import opened PagingTheory
  import opened VirtualMemory
  import opened VmInvariant

  /** The valid entries of a set, the way `ptr` selects first. */
  function Listed(t: TlbSet): seq<int> {
    (if t.At(t.ptr).valid then [t.At(t.ptr).entry] else [])
    + (if t.At(1 - t.ptr).valid then [t.At(1 - t.ptr).entry] else [])
  }

  lemma ListedIs(t: TlbSet, page: int)
    requires SetOk(t)
    ensures NoDup(Listed(t)) && |Listed(t)| <= 2 && (page in Listed(t) <==> InTlb(t, page))
  {
  }

  lemma HitMovesFront(t: TlbSet, page: int)
    requires SetOk(t) && InTlb(t, page)
    ensures Listed(t.(ptr := HitWay(t, page))) == Take(MoveFront(Listed(t), page), 2)
  {
    var l := Listed(t);
    assert page == l[0] || (|l| == 2 && page == l[1]);
    assert |l| == 2 && page == l[1] ==> Remove(l, page) == [l[0]] by {
      if |l| == 2 && page == l[1] { RemoveAt(l, 1); }
    }
  }

  lemma FillPushes(t: TlbSet, page: int, frame: int)
    requires SetOk(t) && !InTlb(t, page)
    ensures Listed(Fill(t, page, frame)) == Take(MoveFront(Listed(t), page), 2)
  {
    ListedIs(t, page);
    RemoveAbsent(Listed(t), page);
  }

  lemma DropDeletes(t: TlbSet, page: int)
    requires SetOk(t)
    ensures Listed(Drop(t, page)) == Remove(Listed(t), page)
  {
    var l := Listed(t);
    ListedIs(t, page);
    if page in l {
      var i :| 0 <= i < |l| && l[i] == page;
      RemoveAt(l, i);
    } else {
      RemoveAbsent(l, page);
    }
  }

  /** What one access does to every set: the evicted page leaves its list, and the accessed page
      goes to the front of its own, which is then cut to two. */
  lemma SetIsLruList(c: Config, s: Machine, p: PageId, rnd: nat, k: SetId)
    requires Inv(c, s) && InRange(c, p) && k in s.tlb && k in TlbAfter(c, s, p, rnd)
    ensures var e := EvictedBy(c, s.mem, p, rnd);
      var gone := e.Evicted? && e.page.pid == k.pid && e.page.no % c.sets == k.index;
      var l := if gone then Remove(Listed(s.tlb[k]), e.page.no) else Listed(s.tlb[k]);
      Listed(TlbAfter(c, s, p, rnd)[k])
        == if p.pid == k.pid && p.no % c.sets == k.index then Take(MoveFront(l, p.no), 2) else l
  {
    SetAfter(c, s, p, rnd, k);
    var e := EvictedBy(c, s.mem, p, rnd);
    var t := s.tlb[k];
    if e.Evicted? && SetOf(c, e.page) == k {
      DropDeletes(t, e.page.no);
      DropOk(t, e.page.no);
      t := Drop(t, e.page.no);
    }
    if k == SetOf(c, p) {
      if InTlb(t, p.no) { HitMovesFront(t, p.no); } else { FillPushes(t, p.no, CachedFrame(c, s.mem, p)); }
    }
  }

  /** A fill never drops a valid entry while the other way is free. */
  lemma FillKeepsEntry(t: TlbSet, page: int, frame: int, q: int)
    requires SetOk(t) && InTlb(t, q) && !(t.way0.valid && t.way1.valid)
    ensures InTlb(Fill(t, page, frame), q)
  {
  }
}
