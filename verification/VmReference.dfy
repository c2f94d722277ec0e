/** What a program is answered and what the statistics count, told from the requests and from which pages are loaded:
    no tables, no bits, no TLB ways. */
module VmReference {
  import opened Wrappers
  import opened Lists
  import opened PagingTheory
  import opened Replacement
  import opened VirtualMemory
  import opened VmInvariant
  import opened TlbSets
  import opened VmRuns
  import opened PolicyTheorems

  // ----- Which requests are served -----

  /** A request is defined unless its pid or its page number equals the bound and neither exceeds it. It is
      answered -1, and changes nothing, exactly when its pid or page number exceeds the bound, whatever the
      operation; otherwise its page is loaded when `MMU` returns. */
  lemma Guards(c: Config, s: Machine, r: Request)
    requires Inv(c, s)
    ensures Defined(c, r) <==>
              || r.pid > c.pids || r.addr / 256 > c.pages
              || (r.pid < c.pids && r.addr / 256 < c.pages)
    ensures Defined(c, r) ==>
              && (Seen(c, s, r) == None <==> r.pid > c.pids || r.addr / 256 > c.pages)
              && (Seen(c, s, r) == None ==> Step(c, s, r) == s)
              && (Seen(c, s, r) != None ==> Loaded(Step(c, s, r).mem, PageId(r.pid, r.addr / 256)))
  {
    hide Sound, TlbSound, Serviced, Peek, Step;
    if Defined(c, r) && !Rejected(c, r) {
      StepEffect(c, s, r);
      LoadedAfter(c, s.mem, PageOf(r), r.op.Write?, r.rnd, PageOf(r));
    }
    if Defined(c, r) && Rejected(c, r) { Refused(c, s, r); }
  }

  lemma Refused(c: Config, s: Machine, r: Request)
    requires Inv(c, s) && Rejected(c, r)
    ensures Step(c, s, r) == s
  {
  }

  // ----- Last writes -----

  /** What the byte at `addr` of process `pid` was last written to, or what the disk began with, or 0. */
  function LastWritten(disk: Flat, rs: seq<Request>, pid: nat, addr: nat): int {
    if rs == [] then
      var p := PageId(pid, addr / 256);
      if p in disk && addr % 256 in disk[p] then disk[p][addr % 256] else 0
    else
      var r := Last(rs);
      if r.op.Write? && r.pid == pid && r.addr == addr then r.op.value
      else LastWritten(disk, Front(rs), pid, addr)
  }

  lemma SameByte(a: nat, b: nat)
    requires a / 256 == b / 256 && a % 256 == b % 256
    ensures a == b
  {
  }

  lemma {:induction false} FlatIsLastWritten(c: Config, disk: Flat, rs: seq<Request>, pid: nat, addr: nat)
    requires (forall p :: p in disk <==> InRange(c, p)) && pid < c.pids && addr / 256 < c.pages
    ensures var flat, p := FlatRun(c, disk, rs), PageId(pid, addr / 256);
      && flat.Keys == disk.Keys && p in flat
      && LastWritten(disk, rs, pid, addr) == if addr % 256 in flat[p] then flat[p][addr % 256] else 0
  {
    if rs != [] {
      FlatIsLastWritten(c, disk, Front(rs), pid, addr);
      var r := Last(rs);
      if r.addr / 256 == addr / 256 && r.addr % 256 == addr % 256 { SameByte(r.addr, addr); }
    }
  }

  /** Whatever the policy and the sizes: after any run, a request for a byte that a process has is served, and
      finds there what was last written to it. */
  lemma FindsLastWritten(c: Config, s: Machine, rs: seq<Request>, r: Request)
    requires Started(c, s) && Inv(c, s) && AllDefined(c, rs) && r.pid < c.pids && r.addr / 256 < c.pages
    ensures Defined(c, r)
    ensures Seen(c, Run(c, s, rs), r) == Some(LastWritten(s.mem.disk, rs, r.pid, r.addr))
    ensures Loaded(Step(c, Run(c, s, rs), r).mem, PageId(r.pid, r.addr / 256))
  {
    StartedCoherent(c, s);
    RunCoherent(c, s, s.mem.disk, rs);
    FlatIsLastWritten(c, s.mem.disk, rs, r.pid, r.addr);
    Guards(c, Run(c, s, rs), r);
    hide Coherent, Inv, Sound, Seen, Step;
    SeenIsFlat(c, Run(c, s, rs), FlatRun(c, s.mem.disk, rs), r);
  }

  lemma StartedCoherent(c: Config, s: Machine)
    requires Started(c, s) && Inv(c, s)
    ensures Coherent(c, s.mem, s.mem.disk) && forall p :: p in s.mem.disk <==> InRange(c, p)
  {
  }

  /** A write is found by the next read of the same byte by the same process, other requests in between. */
  lemma ReadYourWrite(c: Config, s: Machine, before: seq<Request>, w: Request, others: seq<Request>, r: Request)
    requires Started(c, s) && Inv(c, s) && AllDefined(c, before + [w] + others)
    requires w.op.Write? && w.pid < c.pids && w.addr / 256 < c.pages && r.pid == w.pid && r.addr == w.addr
    requires forall o :: o in others ==> !(o.op.Write? && o.pid == w.pid && o.addr == w.addr)
    ensures Defined(c, r) && Seen(c, Run(c, s, before + [w] + others), r) == Some(w.op.value)
  {
    FindsLastWritten(c, s, before + [w] + others, r);
    StillWritten(s.mem.disk, before, w, others);
  }

  lemma {:induction false} StillWritten(disk: Flat, before: seq<Request>, w: Request, others: seq<Request>)
    requires w.op.Write? && forall o :: o in others ==> !(o.op.Write? && o.pid == w.pid && o.addr == w.addr)
    ensures LastWritten(disk, before + [w] + others, w.pid, w.addr) == w.op.value
  {
    if others == [] {
      assert before + [w] + others == before + [w];
    } else {
      assert Front(before + [w] + others) == before + [w] + Front(others);
      assert Last(others) in others && forall o :: o in Front(others) ==> o in others;
      StillWritten(disk, before, w, Front(others));
    }
  }

  // ----- The TLB -----

  /** The page numbers in `l` that process `pid` still has loaded. */
  function StillLoaded(l: seq<int>, pid: nat, m: Memory): seq<int> {
    if l == [] then []
    else (if 0 <= l[0] && Loaded(m, PageId(pid, l[0])) then [l[0]] else []) + StillLoaded(l[1..], pid, m)
  }

  /** The page numbers that the TLB holds for process `pid` and remainder `i`, latest first: of those asked for,
      two at most, a page going when it is no longer loaded. */
  ghost function TlbPages(c: Config, s: Machine, rs: seq<Request>, pid: nat, i: nat): seq<int>
    requires Inv(c, s) && AllDefined(c, rs)
  {
    if rs == [] then []
    else
      var before, r := TlbPages(c, s, Front(rs), pid, i), Last(rs);
      if r.pid > c.pids || r.addr / 256 > c.pages then before
      else
        var kept := StillLoaded(before, pid, Run(c, s, rs).mem);
        if r.pid == pid && r.addr / 256 % c.sets == i then Take(MoveFront(kept, r.addr / 256), 2) else kept
  }

  /** An access leaves the TLB's entry for another page as it was, unless both are pages of one process and leave
      the same remainder, or that page is evicted. */
  lemma OtherEntriesStay(c: Config, s: Machine, p: PageId, rnd: nat, q: PageId)
    requires Inv(c, s) && InRange(c, p) && InRange(c, q) && q != p
    requires !(q.pid == p.pid && q.no % c.sets == p.no % c.sets) && EvictedBy(c, s.mem, p, rnd) != Evicted(q)
    ensures var k := SetId(q.pid, q.no % c.sets);
      && k in s.tlb && k in TlbAfter(c, s, p, rnd)
      && (InTlb(TlbAfter(c, s, p, rnd)[k], q.no) <==> InTlb(s.tlb[k], q.no))
  {
    SetInTlb(c, s.tlb, q);
    var k, e := SetId(q.pid, q.no % c.sets), EvictedBy(c, s.mem, p, rnd);
    SetAfter(c, s, p, rnd, k);
    if e.Evicted? { DropFilters(s.tlb[k], e.page.no, q.no); }
  }

  lemma {:induction false} KeptIsRemoved(l: seq<int>, pid: nat, m: Memory, e: int)
    requires NoDup(l)
    requires forall x: int :: x in l ==> 0 <= x && (Loaded(m, PageId(pid, x)) <==> x != e)
    ensures StillLoaded(l, pid, m) == Remove(l, e)
  {
    if l != [] {
      assert l[0] in l && forall x :: x in l[1..] ==> x in l;
      KeptIsRemoved(l[1..], pid, m, e);
      assert l[0] !in l[1..];
      if l[0] == e {
        RemoveAbsent(l[1..], e);
        assert [] + l[1..] == l[1..];
      }
    }
  }

  lemma {:induction false} KeptIsAll(l: seq<int>, pid: nat, m: Memory)
    requires forall x: int :: x in l ==> 0 <= x && Loaded(m, PageId(pid, x))
    ensures StillLoaded(l, pid, m) == l
  {
    if l != [] {
      assert l[0] in l && forall x :: x in l[1..] ==> x in l;
      KeptIsAll(l[1..], pid, m);
      assert l == [l[0]] + l[1..];
    }
  }

  /** The pages a set lists are loaded, and leave its remainder. */
  lemma ListedAreLoaded(c: Config, s: Machine, k: SetId)
    requires Inv(c, s) && k in s.tlb
    ensures NoDup(Listed(s.tlb[k])) && |Listed(s.tlb[k])| <= 2
    ensures forall x: int :: x in Listed(s.tlb[k]) ==>
              && 0 <= x && Loaded(s.mem, PageId(k.pid, x)) && x % c.sets == k.index
  {
    ListedIs(s.tlb[k], 0);
    forall x: int | x in Listed(s.tlb[k])
      ensures 0 <= x && Loaded(s.mem, PageId(k.pid, x)) && x % c.sets == k.index
    {
      ListedIs(s.tlb[k], x);
      InTlbIsLoaded(c, s, k, x);
    }
  }

  lemma SetStep(c: Config, s: Machine, p: PageId, write: bool, rnd: nat, k: SetId)
    requires Inv(c, s) && InRange(c, p) && k in s.tlb && k in TlbAfter(c, s, p, rnd)
    ensures var kept := StillLoaded(Listed(s.tlb[k]), k.pid, Serviced(c, s.mem, p, write, rnd));
      Listed(TlbAfter(c, s, p, rnd)[k])
        == if k == SetId(p.pid, p.no % c.sets) then Take(MoveFront(kept, p.no), 2) else kept
  {
    var m, e, l := Serviced(c, s.mem, p, write, rnd), EvictedBy(c, s.mem, p, rnd), Listed(s.tlb[k]);
    SetIsLruList(c, s, p, rnd, k);
    ListedAreLoaded(c, s, k);
    forall x: int | x in l
      ensures 0 <= x && (Loaded(m, PageId(k.pid, x)) <==> e != Evicted(PageId(k.pid, x)))
    {
      LoadedAfter(c, s.mem, p, write, rnd, PageId(k.pid, x));
    }
    hide Serviced, TlbAfter, EvictedBy, Sound, TlbSound, Listed, NoDup;
    if e.Evicted? && e.page.pid == k.pid && e.page.no % c.sets == k.index {
      KeptIsRemoved(l, k.pid, m, e.page.no);
    } else {
      KeptIsAll(l, k.pid, m);
    }
  }

  lemma SetOfStep(c: Config, s: Machine, r: Request, k: SetId)
    requires Inv(c, s) && Defined(c, r) && k in s.tlb
    ensures k in Step(c, s, r).tlb
    ensures var t := Step(c, s, r); var kept := StillLoaded(Listed(s.tlb[k]), k.pid, t.mem);
      Listed(t.tlb[k])
        == if r.pid > c.pids || r.addr / 256 > c.pages then Listed(s.tlb[k])
           else if k == SetId(r.pid, r.addr / 256 % c.sets) then Take(MoveFront(kept, r.addr / 256), 2)
           else kept
  {
    if !Rejected(c, r) {
      var p := PageOf(r);
      SetAfter(c, s, p, r.rnd, k);
      SetStep(c, s, p, r.op.Write?, r.rnd, k);
      StepEffect(c, s, r);
      StepTlb(c, s, r);
      hide Serviced, TlbAfter, Step, Sound, TlbSound, Listed, MoveFront, Take, Loaded;
      SameLoaded(Serviced(c, s.mem, p, r.op.Write?, r.rnd), Step(c, s, r).mem, Listed(s.tlb[k]), k.pid);
    }
  }

  lemma StepTlb(c: Config, s: Machine, r: Request)
    requires Inv(c, s) && Defined(c, r) && !Rejected(c, r)
    ensures Step(c, s, r).tlb == TlbAfter(c, s, PageOf(r), r.rnd)
  {
    hide Serviced, TlbAfter, Counted;
  }

  lemma {:induction false} SameLoaded(m: Memory, n: Memory, l: seq<int>, pid: nat)
    requires n.pt == m.pt
    ensures StillLoaded(l, pid, n) == StillLoaded(l, pid, m)
  {
    if l != [] { SameLoaded(m, n, l[1..], pid); }
  }

  /** After any run each set of the TLB lists the pages the reference says, latest first. */
  lemma {:induction false} TlbExact(c: Config, s: Machine, rs: seq<Request>, pid: nat, i: nat)
    requires Started(c, s) && Inv(c, s) && AllDefined(c, rs) && pid < c.pids && i < c.sets
    ensures SetId(pid, i) in Run(c, s, rs).tlb
    ensures Listed(Run(c, s, rs).tlb[SetId(pid, i)]) == TlbPages(c, s, rs, pid, i)
  {
    if rs != [] {
      TlbExact(c, s, Front(rs), pid, i);
      SetOfStep(c, Run(c, s, Front(rs)), Last(rs), SetId(pid, i));
      hide Inv, Started, Step, Listed, StillLoaded, Take, MoveFront;
    }
  }

  /** `MMU` counts a request as a TLB hit exactly when its page is among them; and as a page hit exactly when it
      is loaded. */
  lemma HitsExact(c: Config, s: Machine, rs: seq<Request>, r: Request)
    requires Started(c, s) && Inv(c, s) && AllDefined(c, rs) && r.pid < c.pids && r.addr / 256 < c.pages
    ensures Defined(c, r) && c.sets > 0
    ensures var t := Run(c, s, rs); var u, no := Step(c, t, r), r.addr / 256;
      var tlbHit, hit := no in TlbPages(c, s, rs, r.pid, no % c.sets), Loaded(t.mem, PageId(r.pid, no));
      && u.stats.tlbHit == t.stats.tlbHit + (if tlbHit then 1 else 0)
      && u.stats.tlbMiss == t.stats.tlbMiss + (if tlbHit then 0 else 1)
      && u.stats.hit == t.stats.hit + (if hit then 1 else 0)
      && u.stats.miss == t.stats.miss + if hit then 0 else 1
  {
    DefinedIs(c, r);
    StartedInv(c, s);
    hide *;
    var t := Run(c, s, rs);
    TlbExact(c, s, rs, r.pid, r.addr / 256 % c.sets);
    StepStats(c, t, r);
    CountedExactly(c, t, PageId(r.pid, r.addr / 256));
  }

  lemma DefinedIs(c: Config, r: Request)
    requires r.pid < c.pids && r.addr / 256 < c.pages
    ensures Defined(c, r) && !Rejected(c, r) && PageOf(r) == PageId(r.pid, r.addr / 256)
    ensures InRange(c, PageId(r.pid, r.addr / 256))
  {
  }

  lemma CountedExactly(c: Config, s: Machine, p: PageId)
    requires Inv(c, s) && InRange(c, p)
    ensures c.sets > 0 && SetId(p.pid, p.no % c.sets) in s.tlb
    ensures var tlbHit, hit := p.no in Listed(s.tlb[SetId(p.pid, p.no % c.sets)]), Loaded(s.mem, p);
      var n := Counted(c, s, p);
      && n.tlbHit == s.stats.tlbHit + (if tlbHit then 1 else 0)
      && n.tlbMiss == s.stats.tlbMiss + (if tlbHit then 0 else 1)
      && n.hit == s.stats.hit + (if hit then 1 else 0)
      && n.miss == s.stats.miss + if hit then 0 else 1
  {
    SetInTlb(c, s.tlb, p);
    var k := SetId(p.pid, p.no % c.sets);
    SetsAreOk(c, s, k);
    ListedIs(s.tlb[k], p.no);
    if InTlb(s.tlb[k], p.no) { InTlbIsLoaded(c, s, k, p.no); }
    hide Inv, Listed, InTlb, SetOk, NoDup;
  }

  lemma SetsAreOk(c: Config, s: Machine, k: SetId)
    requires Inv(c, s) && k in s.tlb
    ensures SetOk(s.tlb[k])
  {
  }

  // ----- While no page is evicted -----

  /** The pages of process `pid` with remainder `i` asked for, by number. */
  function AskedOf(c: Config, rs: seq<Request>, pid: nat, i: nat): seq<int>
    requires c.sets > 0
  {
    if rs == [] then []
    else
      var r := Last(rs);
      AskedOf(c, Front(rs), pid, i)
        + if r.pid == pid && r.addr / 256 < c.pages && r.addr / 256 % c.sets == i then [r.addr / 256] else []
  }

  /** The last of `ns` that is not `x`, if there is one. */
  function LastOther(ns: seq<int>, x: int): seq<int> {
    if ns == [] then [] else if Last(ns) != x then [Last(ns)] else LastOther(Front(ns), x)
  }

  /** The last two different numbers of `ns`, the latest first. */
  function LastTwo(ns: seq<int>): seq<int> {
    if ns == [] then [] else [Last(ns)] + LastOther(Front(ns), Last(ns))
  }

  lemma LastTwoNext(ns: seq<int>, x: int)
    ensures LastTwo(ns + [x]) == Take(MoveFront(LastTwo(ns), x), 2)
  {
    assert Front(ns + [x]) == ns && Last(ns + [x]) == x;
    OtherIs(ns, x);
  }

  lemma OtherIs(ns: seq<int>, x: int)
    ensures |LastOther(ns, x)| <= 1 && (LastOther(ns, x) != [] ==> LastOther(ns, x)[0] != x)
  {
  }

  /** No page goes from memory while the requests of `window` are served. */
  ghost predicate NoneEvicted(c: Config, s: Machine, before: seq<Request>, window: seq<Request>)
    requires Inv(c, s) && AllDefined(c, before + window)
  {
    window == [] ||
    (FrontOfConcat(before, window);
     && NoneEvicted(c, s, before, Front(window))
     && forall p :: Loaded(Run(c, s, before + Front(window)).mem, p) ==> Loaded(Run(c, s, before + window).mem, p))
  }

  /** The pages of a set in the order in which they would have been asked for. */
  function Earlier(l: seq<int>): seq<int> {
    if |l| == 2 then [l[1], l[0]] else l
  }

  lemma EarlierIs(l: seq<int>)
    requires NoDup(l) && |l| <= 2
    ensures LastTwo(Earlier(l)) == l
  {
  }

  /** One more request, while the pages of the set stay loaded. */
  lemma NextOfSet(c: Config, s: Machine, rs: seq<Request>, pid: nat, i: nat)
    requires Inv(c, s) && AllDefined(c, rs) && rs != [] && pid < c.pids && c.sets > 0
    requires forall x: int :: x in TlbPages(c, s, Front(rs), pid, i) ==>
               0 <= x && Loaded(Run(c, s, rs).mem, PageId(pid, x))
    ensures AllDefined(c, Front(rs))
    ensures var l, r := TlbPages(c, s, Front(rs), pid, i), Last(rs);
      if AskedOf(c, [r], pid, i) == [] then TlbPages(c, s, rs, pid, i) == l
      else
        && AskedOf(c, [r], pid, i) == [r.addr / 256]
        && TlbPages(c, s, rs, pid, i) == Take(MoveFront(l, r.addr / 256), 2)
  {
    hide *;
    AllDefinedLast(c, rs);
    PagesNext(c, s, rs, pid, i);
    AskedOfOne(c, Last(rs), pid, i);
    KeptIsAll(TlbPages(c, s, Front(rs), pid, i), pid, Run(c, s, rs).mem);
  }

  lemma AllDefinedLast(c: Config, rs: seq<Request>)
    requires AllDefined(c, rs) && rs != []
    ensures AllDefined(c, Front(rs))
    ensures var r := Last(rs);
      || r.pid > c.pids || r.addr / 256 > c.pages
      || (r.pid < c.pids && r.addr / 256 < c.pages)
  {
    assert Defined(c, Last(rs));
  }

  lemma PagesNext(c: Config, s: Machine, rs: seq<Request>, pid: nat, i: nat)
    requires Inv(c, s) && AllDefined(c, rs) && rs != [] && AllDefined(c, Front(rs)) && c.sets > 0
    ensures var before, r := TlbPages(c, s, Front(rs), pid, i), Last(rs);
      TlbPages(c, s, rs, pid, i)
        == if r.pid > c.pids || r.addr / 256 > c.pages then before
           else
             var kept := StillLoaded(before, pid, Run(c, s, rs).mem);
             if r.pid == pid && r.addr / 256 % c.sets == i then Take(MoveFront(kept, r.addr / 256), 2) else kept
  {
    hide Inv, Run, StillLoaded, MoveFront, Take, AllDefined;
  }

  lemma AskedOfOne(c: Config, r: Request, pid: nat, i: nat)
    requires c.sets > 0
    ensures AskedOf(c, [r], pid, i)
         == if r.pid == pid && r.addr / 256 < c.pages && r.addr / 256 % c.sets == i then [r.addr / 256] else []
  {
    assert Front([r]) == [] && Last([r]) == r;
  }

  lemma AskedNext(c: Config, rs: seq<Request>, pid: nat, i: nat)
    requires rs != [] && c.sets > 0
    ensures AskedOf(c, rs, pid, i) == AskedOf(c, Front(rs), pid, i) + AskedOf(c, [Last(rs)], pid, i)
  {
    assert Front([Last(rs)]) == [] && Last([Last(rs)]) == Last(rs);
  }

  /** While no page is evicted, the pages of a set are the last two different ones asked for of its process and
      remainder, counting those it had before. */
  lemma {:induction false} LastTwoAsked(c: Config, s: Machine, before: seq<Request>, window: seq<Request>, pid: nat,
                                        i: nat)
    requires Started(c, s) && Inv(c, s) && AllDefined(c, before) && AllDefined(c, before + window)
    requires pid < c.pids && i < c.sets && NoneEvicted(c, s, before, window)
    ensures TlbPages(c, s, before + window, pid, i)
         == LastTwo(Earlier(TlbPages(c, s, before, pid, i)) + AskedOf(c, window, pid, i))
    decreases |window|
  {
    hide *;
    var l := Earlier(TlbPages(c, s, before, pid, i));
    if window == [] {
      TlbExact(c, s, before, pid, i);
      ListedAreLoaded(c, Run(c, s, before), SetId(pid, i));
      EarlierIs(TlbPages(c, s, before, pid, i));
      NothingAsked(c, before, l, pid, i);
    } else {
      ShorterWindow(c, s, before, window);
      LastTwoAsked(c, s, before, Front(window), pid, i);
      SetStays(c, s, before, window, pid, i);
      NextOfSet(c, s, before + window, pid, i);
      AskedNext(c, window, pid, i);
      LastTwoGrows(l, AskedOf(c, Front(window), pid, i), AskedOf(c, [Last(window)], pid, i));
    }
  }

  lemma NothingAsked(c: Config, before: seq<Request>, l: seq<int>, pid: nat, i: nat)
    requires c.sets > 0
    ensures before + [] == before && l + AskedOf(c, [], pid, i) == l
  {
  }

  lemma LastTwoGrows(l: seq<int>, asked: seq<int>, more: seq<int>)
    requires |more| <= 1
    ensures LastTwo(l + (asked + more))
         == if more == [] then LastTwo(l + asked) else Take(MoveFront(LastTwo(l + asked), more[0]), 2)
  {
    if more == [] {
      assert asked + more == asked;
    } else {
      LastTwoNext(l + asked, more[0]);
      assert l + (asked + more) == l + asked + [more[0]];
    }
  }

  lemma SetStays(c: Config, s: Machine, before: seq<Request>, window: seq<Request>, pid: nat, i: nat)
    requires Started(c, s) && Inv(c, s) && AllDefined(c, before + window) && window != []
    requires AllDefined(c, before + Front(window)) && pid < c.pids && i < c.sets
    requires forall p :: Loaded(Run(c, s, before + Front(window)).mem, p) ==> Loaded(Run(c, s, before + window).mem, p)
    ensures forall x: int :: x in TlbPages(c, s, before + Front(window), pid, i) ==>
              0 <= x && Loaded(Run(c, s, before + window).mem, PageId(pid, x))
  {
    hide *;
    TlbExact(c, s, before + Front(window), pid, i);
    ListedAreLoaded(c, Run(c, s, before + Front(window)), SetId(pid, i));
  }

  lemma ShorterWindow(c: Config, s: Machine, before: seq<Request>, window: seq<Request>)
    requires Inv(c, s) && AllDefined(c, before + window) && window != [] && NoneEvicted(c, s, before, window)
    ensures before + window != [] && Front(before + window) == before + Front(window)
    ensures Last(before + window) == Last(window) && |Front(window)| < |window|
    ensures AllDefined(c, before + Front(window)) && NoneEvicted(c, s, before, Front(window))
    ensures forall p :: Loaded(Run(c, s, before + Front(window)).mem, p) ==> Loaded(Run(c, s, before + window).mem, p)
  {
    FrontOfConcat(before, window);
    hide Inv, Run;
  }

  /** No page has to go in the first requests, as many as there are frames. */
  lemma {:induction false} NoneEvictedAtFirst(c: Config, s: Machine, rs: seq<Request>)
    requires Started(c, s) && Inv(c, s) && AllDefined(c, [] + rs) && |rs| <= c.frames
    ensures NoneEvicted(c, s, [], rs) && Run(c, s, [] + rs).mem.frameInd <= |rs|
  {
    if rs != [] {
      FrontOfConcat([], rs);
      NoneEvictedAtFirst(c, s, Front(rs));
      var t := Run(c, s, [] + Front(rs));
      assert Defined(c, Last(rs)) by { assert Last(rs) in [] + rs; }
      RoomLeft(c, t, Last(rs));
      hide Inv, Started, Step, Loaded;
    }
  }

  lemma RoomLeft(c: Config, s: Machine, r: Request)
    requires Inv(c, s) && Defined(c, r) && s.mem.frameInd < c.frames
    ensures Step(c, s, r).mem.frameInd <= s.mem.frameInd + 1
    ensures forall p :: Loaded(s.mem, p) ==> Loaded(Step(c, s, r).mem, p)
  {
    if !Rejected(c, r) {
      StepEffect(c, s, r);
      hide Step, TlbSound;
    } else {
      Refused(c, s, r);
    }
  }

  function Reads(no: nat): Request {
    Request(0, 256 * no, Read, 0)
  }

  /** With the sizes of vm.h: process 0 reads pages 0, 1, 3 and 0, and the last is a TLB hit under every policy,
      because 1 and 3 go to the other set. */
  lemma FourthHitsTlb(policy: Policy, s: Machine)
    requires Started(Config(policy, 8, 2, 8, 2), s)
    ensures var c, rs := Config(policy, 8, 2, 8, 2), [Reads(0), Reads(1), Reads(3)];
      && Inv(c, s) && AllDefined(c, rs) && Defined(c, Reads(0))
      && Step(c, Run(c, s, rs), Reads(0)).stats.tlbHit == Run(c, s, rs).stats.tlbHit + 1
  {
    var c, rs := Config(policy, 8, 2, 8, 2), [Reads(0), Reads(1), Reads(3)];
    StartedInv(c, s);
    ThreeReads(policy);
    hide *;
    NoneEvictedAtFirst(c, s, rs);
    NoPagesYet(c, s);
    LastTwoAsked(c, s, [], rs, 0, 0);
    HitsExact(c, s, rs, Reads(0));
  }

  lemma NoPagesYet(c: Config, s: Machine)
    requires Inv(c, s)
    ensures AllDefined(c, []) && Earlier(TlbPages(c, s, [], 0, 0)) == []
  {
    hide Inv;
  }

  lemma ThreeReads(policy: Policy)
    ensures var c, rs := Config(policy, 8, 2, 8, 2), [Reads(0), Reads(1), Reads(3)];
      && [] + rs == rs && AllDefined(c, rs) && Reads(0).pid == 0 && Reads(0).addr / 256 == 0
      && |rs| <= c.frames && LastTwo([] + AskedOf(c, rs, 0, 0)) == [0]
  {
    var c := Config(policy, 8, 2, 8, 2);
    ReadIs(c, 0);
    ReadIs(c, 1);
    ReadIs(c, 3);
    AskedMore(c, [], Reads(0));
    AskedMore(c, [Reads(0)], Reads(1));
    AskedMore(c, [Reads(0), Reads(1)], Reads(3));
    hide *;
    assert [] + [Reads(0)] == [Reads(0)] && [Reads(0)] + [Reads(1)] == [Reads(0), Reads(1)];
    assert [Reads(0), Reads(1)] + [Reads(3)] == [Reads(0), Reads(1), Reads(3)];
    OnlyZero();
    NoneAsked(c);
  }

  lemma ReadIs(c: Config, no: nat)
    requires c.pids == 2 && c.pages == 8 && no < 8
    ensures Reads(no).pid == 0 && Reads(no).addr / 256 == no && Defined(c, Reads(no))
  {
  }

  lemma NoneAsked(c: Config)
    requires c.sets == 2
    ensures AllDefined(c, []) && AskedOf(c, [], 0, 0) == []
  {
  }

  lemma AskedMore(c: Config, rs: seq<Request>, r: Request)
    requires c.sets == 2
    ensures AskedOf(c, rs + [r], 0, 0)
         == AskedOf(c, rs, 0, 0)
            + if r.pid == 0 && r.addr / 256 < c.pages && r.addr / 256 % 2 == 0 then [r.addr / 256] else []
    ensures AllDefined(c, rs + [r]) <==> AllDefined(c, rs) && Defined(c, r)
  {
    assert Front(rs + [r]) == rs && Last(rs + [r]) == r;
    assert r in rs + [r] && (forall x :: x in rs ==> x in rs + [r]) && forall x :: x in rs + [r] ==> x in rs || x == r;
    hide Defined;
  }

  lemma OnlyZero()
    ensures [] + [0] == [0] && LastTwo([0]) == [0]
  {
  }
}
