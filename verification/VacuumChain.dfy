/** The outer loop of the vacuum: every page of the chain in turn is the source. Pages before a blind page other than
    the last are passed one by one, the pages behind them are compacted in one run, a blind last page is passed. */
module VacuumChain {
  import opened Bytes
  import opened SlottedPage
  import opened PageLists
  import opened PageGroups
  import opened PageStorage
  import opened Compaction
  import opened CompactionRun
  import opened VacuumResult
  import opened VacuumSlots

  // A vacuum of the pages of a chain: pages 0..m-1 are passed, pages m..k-1 compacted.
  datatype Job = Job(cap: nat, data: map<PageId, PageData>, chain: seq<PageId>, pages: seq<seq<Entry>>,
                     blind: set<nat>, m: nat, k: nat)

  ghost predicate Split(w: Job)
  {
    && 0 < |w.chain| == |w.pages| && w.m <= w.k <= |w.chain|
    && (forall j :: w.m <= j < w.k ==> j !in w.blind)
    && (w.m == w.k ==> w.m == |w.chain|)
    && (w.k < |w.chain| ==> w.k + 1 == |w.chain| && w.k in w.blind)
  }

  function PageOf(data: map<PageId, PageData>, id: PageId): PageData
  {
    if id in data then data[id] else PageData(0, 0, 0, [])
  }

  function PagesData(data: map<PageId, PageData>, chain: seq<PageId>): (ps: seq<PageData>)
    ensures |ps| == |chain|
  {
    seq(|chain|, j requires 0 <= j < |chain| => PageOf(data, chain[j]))
  }

  // A page as a vacuum finds it.
  ghost predicate Ready(cap: nat, p: PageData, es: seq<Entry>, j: nat, blind: bool)
  {
    && |p.contents| == cap && SLOT_SIZE <= cap < U16_LIMIT
    && if blind then p.freeStart == 0 && Scannable(p, j) && Entries(p) == es
       else Packed(p, es) && (j > 0 && es == [] ==> ZeroDeleted(p))
  }

  ghost predicate AllReady(w: Job)
    requires |w.pages| == |w.chain|
  {
    forall j :: 0 <= j < |w.chain| ==>
      w.chain[j] in w.data && Ready(w.cap, w.data[w.chain[j]], w.pages[j], j, j in w.blind)
  }

  ghost predicate AllLive(w: Job)
    requires w.m <= |w.pages|
  {
    forall j, i :: 0 <= j < w.m && j !in w.blind && 0 <= i < |w.pages[j]| ==> Live(w.pages[j][i])
  }

  // A page passed before the compaction.
  ghost predicate PassedAs(cap: nat, p: PageData, p0: PageData, es: seq<Entry>, j: nat, blind: bool)
  {
    && |p.contents| == cap && Scannable(p, j) && Entries(p) == SweptPage(es, blind)
    && if blind then p == p0 else Formed(p)
  }

  ghost predicate AllPassed(w: Job, pre: seq<PageData>)
    requires |pre| <= |w.chain| == |w.pages|
  {
    forall j :: 0 <= j < |pre| ==>
      PassedAs(w.cap, pre[j], PageOf(w.data, w.chain[j]), w.pages[j], j, j in w.blind)
  }

  // A run over the pages from pos to k, behind page s.
  ghost predicate RunOf(w: Job, st: State, pos: nat, k: nat)
    requires pos <= k <= |w.chain| == |w.pages|
  {
    st.cap == w.cap && st.pos == pos && st.ps0 == PagesData(w.data, w.chain[pos..k]) && st.es0 == w.pages[pos..k]
  }

  ghost predicate Behind(st: State, l: Locals, s: nat)
  {
    Good(st, l) && Bounds(st) && st.s == s && st.i == |st.es0[st.s]|
  }

  // The passed pages as they are now, the data when the compaction began, its run.
  datatype Progress = Progress(pre: seq<PageData>, data1: map<PageId, PageData>, st: State)

  // Pages 0..p-1 of the chain have been the source.
  ghost predicate Passing(w: Job, data: map<PageId, PageData>, p: nat, g: Progress, l: Locals)
    requires Split(w)
  {
    p <= w.m && |g.pre| == p && AllPassed(w, g.pre) && l == Locals(false, 0, 0) && Mirror(data, w.data, w.chain, g.pre)
  }

  ghost predicate Running(w: Job, data: map<PageId, PageData>, p: nat, g: Progress, l: Locals)
    requires Split(w)
  {
    && w.m < p <= |w.chain| && |g.pre| == w.m && AllPassed(w, g.pre) && Mirror(g.data1, w.data, w.chain, g.pre)
    && RunOf(w, g.st, w.m, w.k) && Behind(g.st, l, (if p <= w.k then p else w.k) - w.m - 1)
    && Mirror(data, g.data1, w.chain[w.m..], g.st.ps)
  }

  ghost predicate Passed(w: Job, data: map<PageId, PageData>, p: nat, g: Progress, l: Locals)
    requires Split(w)
  {
    if p <= w.m then Passing(w, data, p, g, l) else w.m < w.k && Running(w, data, p, g, l)
  }

  // The source is the page before page p, and so is the destination unless the run is compacting.
  ghost predicate Standing(groups: PageGroupManager, w: Job, p: nat, d: nat, l: Locals, src: PageIterator,
                           dst: PageIterator)
    reads src, dst
  {
    if p == 0 then Unstarted(src, groups, w.chain) && Unstarted(dst, groups, w.chain)
    else OnPage(src, groups, w.chain, p - 1) && OnPage(dst, groups, w.chain, if l.started then w.m + d else p - 1)
  }

  // A forward iterator that has not started.
  ghost predicate Unstarted(it: PageIterator, groups: PageGroupManager, chain: seq<PageId>)
    reads it
  {
    it.manager == groups && !it.inverse && !it.started && |chain| > 0 && it.nextId == chain[0]
  }

  // ---- the outer loop ----

  method CompactChain(self: PageDataManager, src: PageIterator, dst: PageIterator, ghost w: Job)
    returns (l: Locals, ghost g: Progress)
    requires src != dst && NextChain(self.groups.links, w.chain)
    requires Split(w) && w.cap == self.cap && w.data == self.data && AllReady(w) && AllLive(w)
    requires Standing(self.groups, w, 0, 0, Locals(false, 0, 0), src, dst)
    modifies self`data, src, dst
    ensures Passed(w, self.data, |w.chain|, g, l)
    ensures Standing(self.groups, w, |w.chain|, g.st.d, l, src, dst)
  {
    hide Split, Passed, Standing, NextChain, AllReady, AllLive;
    ghost var p := 0;
    l := Locals(false, 0, 0);
    g := PassStart(w);
    StandStart(self.groups, w, g.st.d, src, dst);
    while src.HasNext()
      invariant p <= |w.chain| && Passed(w, self.data, p, g, l)
      invariant Standing(self.groups, w, p, g.st.d, l, src, dst)
      decreases |w.chain| - p
    {
      StandNext(self.groups, w, self.data, p, g, l, src, dst);
      l, g := Round(self, src, dst, l, w, p, g);
      p := p + 1;
    }
    StandNext(self.groups, w, self.data, p, g, l, src, dst);
  }

  lemma PassStart(w: Job) returns (g: Progress)
    requires Split(w)
    ensures Passed(w, w.data, 0, g, Locals(false, 0, 0))
  {
    g := Progress([], w.data, State(0, 0, [], [], [], [], 0, 0, 0));
  }

  lemma StandStart(groups: PageGroupManager, w: Job, d: nat, src: PageIterator, dst: PageIterator)
    requires Standing(groups, w, 0, 0, Locals(false, 0, 0), src, dst)
    ensures Standing(groups, w, 0, d, Locals(false, 0, 0), src, dst)
  {
  }

  // The source has a next page exactly when it is not the last.
  lemma StandNext(groups: PageGroupManager, w: Job, data: map<PageId, PageData>, p: nat, g: Progress, l: Locals,
                  src: PageIterator, dst: PageIterator)
    requires Split(w) && NextChain(groups.links, w.chain) && p <= |w.chain|
    requires Standing(groups, w, p, g.st.d, l, src, dst)
    ensures src.HasNext() <==> p < |w.chain|
  {
    FirstLink(groups.links, w.chain);
    if p > 0 {
      LastPage(groups.links, w.chain, p - 1);
    }
  }

  // The iterators move to page p; the destination stays where it is while the run is compacting.
  method NextPages(groups: PageGroupManager, src: PageIterator, dst: PageIterator, l: Locals, ghost w: Job,
                   ghost p: nat, ghost d: nat)
    requires src != dst && NextChain(groups.links, w.chain) && p < |w.chain| && src.HasNext()
    requires Standing(groups, w, p, d, l, src, dst) && (p == 0 ==> !l.started)
    modifies src, dst
    ensures OnPage(src, groups, w.chain, p) && OnPage(dst, groups, w.chain, if l.started then w.m + d else p)
  {
    var ok := src.Next();
    if !l.started {
      ok := dst.Next();
    }
  }

  // One round.
  method Round(self: PageDataManager, src: PageIterator, dst: PageIterator, l: Locals, ghost w: Job, ghost p: nat,
               ghost g: Progress)
    returns (l': Locals, ghost g': Progress)
    requires src != dst && NextChain(self.groups.links, w.chain)
    requires Split(w) && w.cap == self.cap && AllReady(w) && AllLive(w)
    requires p < |w.chain| && src.HasNext()
    requires Passed(w, self.data, p, g, l) && Standing(self.groups, w, p, g.st.d, l, src, dst)
    modifies self`data, src, dst
    ensures Passed(w, self.data, p + 1, g', l') && Standing(self.groups, w, p + 1, g'.st.d, l', src, dst)
  {
    hide Passing, Running, NextChain, AllReady, AllLive, Standing, OnPage, Good, Tracks, Mirror;
    ghost var data := self.data;
    NotStarted(w, data, p, g, l);
    NextPages(self.groups, src, dst, l, w, p, g.st.d);
    ghost var passing := if p < w.m then p in w.blind else p == w.k;
    ghost var chain1, data1, st := w.chain[p..], data, g.st;
    if passing {
      BlindAhead(w, self.groups.links, data, p, g, l);
      OnPageId(src, self.groups, w.chain, p);
    } else if p <= w.m {
      st := RunBegins(self, w, p, if p < w.m then p + 1 else w.k, g.pre, src, dst);
    } else {
      chain1, data1 := w.chain[w.m..], g.data1;
      st := RunGoesOn(self, w, p, g, l, src, dst);
    }
    l', st := VacuumPage(self, src, dst, l, passing, data1, chain1, st);
    if passing {
      g' := PassedBlind(w, data, p, g, l);
      Stand(self.groups, w, p, g'.st.d, l', src, dst);
    } else if p < w.m {
      g' := PassedLive(self, w, data, p, g, st, l', src, dst);
    } else {
      g' := Progress(g.pre, data1, st);
      RunPassed(self, w, data, p, g, g', l', src, dst);
    }
  }

  lemma Stand(groups: PageGroupManager, w: Job, p: nat, d: nat, l: Locals, src: PageIterator, dst: PageIterator)
    requires OnPage(src, groups, w.chain, p) && OnPage(dst, groups, w.chain, if l.started then w.m + d else p)
    ensures Standing(groups, w, p + 1, d, l, src, dst)
  {
  }

  lemma OnPageId(it: PageIterator, groups: PageGroupManager, chain: seq<PageId>, p: nat)
    requires OnPage(it, groups, chain, p)
    ensures p < |chain| && it.currentId == chain[p]
  {
  }

  lemma NotStarted(w: Job, data: map<PageId, PageData>, p: nat, g: Progress, l: Locals)
    requires Split(w) && Passed(w, data, p, g, l)
    ensures p <= w.m ==> l == Locals(false, 0, 0) && |g.pre| == p && Mirror(data, w.data, w.chain, g.pre)
  {
  }

  // ---- a blind page ----

  // The inner loop will not enter.
  lemma BlindAhead(w: Job, links: map<PageId, Links>, data: map<PageId, PageData>, p: nat, g: Progress, l: Locals)
    requires Split(w) && NextChain(links, w.chain) && AllReady(w) && Passed(w, data, p, g, l) && p < |w.chain|
    requires if p < w.m then p in w.blind else p == w.k
    ensures p in w.blind && w.chain[p] in data && data[w.chain[p]].freeStart == 0
    ensures data[w.chain[p]] == PageOf(w.data, w.chain[p])
  {
    hide AllPassed, RunOf, Mirror, Good;
    ChainDistinct(links, w.chain);
    ReadyAt(w, p);
    if p <= w.m {
      MirrorRest(data, w.data, w.chain, g.pre, p);
    } else {
      BehindSize(w, g.st, l);
      SuffixDistinct(w.chain, w.m);
      MirrorRest(g.data1, w.data, w.chain, g.pre, p);
      MirrorRest(data, g.data1, w.chain[w.m..], g.st.ps, p - w.m);
    }
  }

  lemma ReadyAt(w: Job, j: nat)
    requires |w.pages| == |w.chain| && AllReady(w) && j < |w.chain|
    ensures w.chain[j] in w.data && PageOf(w.data, w.chain[j]) == w.data[w.chain[j]]
    ensures Ready(w.cap, PageOf(w.data, w.chain[j]), w.pages[j], j, j in w.blind)
  {
    hide Ready;
  }

  lemma BehindSize(w: Job, st: State, l: Locals)
    requires w.m <= w.k <= |w.chain| == |w.pages| && RunOf(w, st, w.m, w.k) && Bounds(st)
    ensures |st.ps| == w.k - w.m
  {
  }

  lemma SuffixDistinct(chain: seq<PageId>, m: nat)
    requires Distinct(chain) && m <= |chain|
    ensures Distinct(chain[m..])
  {
  }

  // Pages behind those that changed.
  lemma MirrorRest(data: map<PageId, PageData>, data0: map<PageId, PageData>, chain: seq<PageId>, ps: seq<PageData>,
                   j: nat)
    requires Mirror(data, data0, chain, ps) && Distinct(chain) && |ps| <= j < |chain| && chain[j] in data0
    ensures chain[j] in data && data[chain[j]] == data0[chain[j]]
  {
    assert chain[j] !in chain[..|ps|];
  }

  lemma PassedBlind(w: Job, data: map<PageId, PageData>, p: nat, g: Progress, l: Locals) returns (g': Progress)
    requires Split(w) && AllReady(w) && Passed(w, data, p, g, l) && p < |w.chain|
    requires p in w.blind && (p < w.m || p == w.k)
    requires w.chain[p] in data && data[w.chain[p]] == PageOf(w.data, w.chain[p])
    ensures Passed(w, data, p + 1, g', l) && g'.st == g.st
  {
    hide Mirror, RunOf, Behind;
    g' := g;
    if p < w.m {
      g' := g.(pre := g.pre + [PageOf(w.data, w.chain[p])]);
      ReadyAt(w, p);
      MirrorPush(data, w.data, w.chain, g.pre, PageOf(w.data, w.chain[p]));
      hide Scannable, Formed, Entries;
      PassedPush(w, g.pre, PageOf(w.data, w.chain[p]));
    }
  }

  lemma PassedPush(w: Job, pre: seq<PageData>, p: PageData)
    requires |pre| < |w.chain| == |w.pages| && AllPassed(w, pre)
    requires PassedAs(w.cap, p, PageOf(w.data, w.chain[|pre|]), w.pages[|pre|], |pre|, |pre| in w.blind)
    ensures AllPassed(w, pre + [p])
  {
    hide PassedAs;
  }

  lemma MirrorPush(data: map<PageId, PageData>, data0: map<PageId, PageData>, chain: seq<PageId>, ps: seq<PageData>,
                   p: PageData)
    requires Mirror(data, data0, chain, ps) && |ps| < |chain| && chain[|ps|] in data && data[chain[|ps|]] == p
    ensures Mirror(data, data0, chain, ps + [p])
  {
    assert chain[..|ps| + 1] == chain[..|ps|] + [chain[|ps|]];
  }

  // ---- the first page of a run ----

  // One page that is passed, or those that are compacted.
  lemma RunBegins(self: PageDataManager, w: Job, p: nat, k: nat, pre: seq<PageData>, src: PageIterator,
                  dst: PageIterator)
    returns (st: State)
    requires Split(w) && w.cap == self.cap && NextChain(self.groups.links, w.chain) && AllReady(w)
    requires src != dst && |pre| == p < k <= |w.chain| && Mirror(self.data, w.data, w.chain, pre)
    requires forall j :: p <= j < k ==> j !in w.blind
    requires OnPage(src, self.groups, w.chain, p) && OnPage(dst, self.groups, w.chain, p)
    ensures Tracks(self, self.data, w.chain[p..], st, src, dst) && Good(st, Locals(false, 0, 0)) && st.i == st.s == 0
    ensures RunOf(w, st, p, k)
  {
    hide Good, Packed, Scannable, AllReady, Mirror, NextChain, OnPage, Before;
    var ps, es, chain1 := PagesData(w.data, w.chain[p..k]), w.pages[p..k], w.chain[p..];
    ChainDistinct(self.groups.links, w.chain);
    forall j | 0 <= j < |ps|
      ensures |ps[j].contents| == self.cap && Packed(ps[j], es[j]) && (0 < p + j && es[j] == [] ==> ZeroDeleted(ps[j]))
      ensures chain1[j] in self.data && self.data[chain1[j]] == ps[j]
    {
      ReadyAt(w, p + j);
      MirrorRest(self.data, w.data, w.chain, pre, p + j);
    }
    st := State(self.cap, p, ps, es, ps, [[]], 0, 0, 0);
    SizeReady(w, p);
    Begin(self.cap, p, ps, es);
    BeginBounds(st, Locals(false, 0, 0));
    SuffixChain(self.groups.links, w.chain, p);
    SuffixPage(src, self.groups, w.chain, p, 0);
    SuffixPage(dst, self.groups, w.chain, p, 0);
    MirrorSelf(self.data, chain1, ps);
  }

  lemma SizeReady(w: Job, j: nat)
    requires |w.pages| == |w.chain| && AllReady(w) && j < |w.chain|
    ensures SLOT_SIZE <= w.cap < U16_LIMIT
  {
    assert Ready(w.cap, w.data[w.chain[j]], w.pages[j], j, j in w.blind);
  }

  lemma MirrorSelf(data: map<PageId, PageData>, chain: seq<PageId>, ps: seq<PageData>)
    requires |ps| <= |chain| && forall j :: 0 <= j < |ps| ==> chain[j] in data && data[chain[j]] == ps[j]
    ensures Mirror(data, data, chain, ps)
  {
  }

  lemma SuffixChain(links: map<PageId, Links>, chain: seq<PageId>, m: nat)
    requires NextChain(links, chain) && m < |chain|
    ensures NextChain(links, chain[m..])
  {
    forall i | 0 <= i < |chain[m..]|
      ensures NextIn(chain[m..], i) == NextIn(chain, m + i) && chain[m..][i] == chain[m + i]
    {
    }
  }

  lemma SuffixPage(it: PageIterator, groups: PageGroupManager, chain: seq<PageId>, m: nat, j: nat)
    requires m + j < |chain|
    ensures OnPage(it, groups, chain[m..], j) <==> OnPage(it, groups, chain, m + j)
  {
  }

  // ---- a page with nothing to remove ----

  // It was a run of its own, which did not start compacting.
  lemma PassedLive(self: PageDataManager, w: Job, data1: map<PageId, PageData>, p: nat, g: Progress, st: State,
                   l: Locals, src: PageIterator, dst: PageIterator)
    returns (g': Progress)
    requires Split(w) && NextChain(self.groups.links, w.chain) && AllLive(w)
    requires p < w.m && p !in w.blind && Passing(w, data1, p, g, Locals(false, 0, 0))
    requires Tracks(self, data1, w.chain[p..], st, src, dst) && Good(st, l) && RunOf(w, st, p, p + 1)
    requires st.s == 0 && st.i == |st.es0[st.s]|
    ensures Passed(w, self.data, p + 1, g', l) && Standing(self.groups, w, p + 1, g'.st.d, l, src, dst)
  {
    hide Good, Mirror, NextChain, AllPassed;
    g' := g.(pre := g.pre + st.ps);
    assert w.pages[p..p + 1] == [w.pages[p]];
    ChainDistinct(self.groups.links, w.chain);
    LiveRun(st, l, w.pages[p]);
    SuffixPage(src, self.groups, w.chain, p, 0);
    SuffixPage(dst, self.groups, w.chain, p, 0);
    hide Scannable, Formed, Entries, AllLive, OnPage;
    MirrorJoin(self.data, data1, w.data, w.chain, g.pre, st.ps);
    assert st.ps == [st.ps[0]];
    PassedPush(w, g.pre, st.ps[0]);
    Stand(self.groups, w, p, g'.st.d, l, src, dst);
  }

  lemma LiveRun(st: State, l: Locals, es: seq<Entry>)
    requires Good(st, l) && st.es0 == [es] && st.s == 0 && st.i == |es|
    requires forall i :: 0 <= i < |es| ==> Live(es[i])
    ensures l == Locals(false, 0, 0) && |st.ps| == 1 && |st.ps[0].contents| == st.cap && st.d == 0
    ensures Entries(st.ps[0]) == SweptPage(es, false) && Scannable(st.ps[0], st.pos) && Formed(st.ps[0])
  {
    hide Scannable, Formed, Entries;
    StaysIdle(st.cap, [es], 0, |es|);
    LiveSurvive(es, |es|);
    EndPages(st, l);
    EndCursor(st, l);
  }

  lemma {:induction false} LiveSurvive(es: seq<Entry>, n: nat)
    requires n <= |es| && forall i :: 0 <= i < n ==> Live(es[i])
    ensures SurviveTo(es, n) == SweptPage(es[..n], false)
  {
    if n > 0 {
      LiveSurvive(es, n - 1);
      assert SweptPage(es[..n], false) == SweptPage(es[..n - 1], false) + [Cleared(es[n - 1])];
    } else {
      assert es[..0] == [];
    }
  }

  lemma MirrorJoin(data: map<PageId, PageData>, data1: map<PageId, PageData>, data0: map<PageId, PageData>,
                   chain: seq<PageId>, pre: seq<PageData>, ps: seq<PageData>)
    requires |pre| <= |chain| && Mirror(data1, data0, chain, pre) && Mirror(data, data1, chain[|pre|..], ps)
    requires Distinct(chain)
    ensures Mirror(data, data0, chain, pre + ps)
  {
    var m, all := |pre|, pre + ps;
    assert chain[..|all|] == chain[..m] + chain[m..][..|ps|];
    forall j | 0 <= j < |all|
      ensures chain[j] in data && data[chain[j]] == all[j]
    {
      if j < m {
        assert chain[j] !in chain[m..][..|ps|];
      } else {
        assert chain[j] == chain[m..][j - m];
      }
    }
  }

  // ---- the run goes on ----

  lemma RunGoesOn(self: PageDataManager, w: Job, p: nat, g: Progress, l: Locals, src: PageIterator, dst: PageIterator)
    returns (st: State)
    requires Split(w) && w.cap == self.cap && src != dst && NextChain(self.groups.links, w.chain)
    requires w.m < p < w.k && Running(w, self.data, p, g, l)
    requires OnPage(src, self.groups, w.chain, p)
    requires OnPage(dst, self.groups, w.chain, if l.started then w.m + g.st.d else p)
    ensures Tracks(self, g.data1, w.chain[w.m..], st, src, dst) && Good(st, l) && st.i == 0 && st.s == p - w.m
    ensures RunOf(w, st, w.m, w.k)
  {
    BehindSize(w, g.st, l);
    hide Good, AllPassed, Mirror;
    var now := g.st;
    st := if l.started then now.(s := now.s + 1, i := 0)
          else now.(s := now.s + 1, i := 0, d := now.s + 1, outs := now.outs + [[]]);
    NextPage(now, l, st);
    BeginBounds(st, l);
    SuffixChain(self.groups.links, w.chain, w.m);
    SuffixPage(src, self.groups, w.chain, w.m, st.s);
    SuffixPage(dst, self.groups, w.chain, w.m, st.d);
  }

  // A page was the source of the run.
  lemma RunPassed(self: PageDataManager, w: Job, data: map<PageId, PageData>, p: nat, g: Progress, g': Progress,
                  l: Locals, src: PageIterator, dst: PageIterator)
    requires Split(w) && w.m <= p < w.k && g'.pre == g.pre
    requires if p == w.m then exists l0 :: Passing(w, data, p, g, l0) && g'.data1 == data
             else exists l0 :: Running(w, data, p, g, l0) && g'.data1 == g.data1
    requires Tracks(self, g'.data1, w.chain[w.m..], g'.st, src, dst) && Good(g'.st, l)
    requires RunOf(w, g'.st, w.m, w.k) && g'.st.s == p - w.m && g'.st.i == |g'.st.es0[g'.st.s]|
    ensures Passed(w, self.data, p + 1, g', l) && Standing(self.groups, w, p + 1, g'.st.d, l, src, dst)
  {
    hide Good, AllPassed, Mirror, RunOf, NextChain;
    SuffixPage(src, self.groups, w.chain, w.m, p - w.m);
    SuffixPage(dst, self.groups, w.chain, w.m, g'.st.d);
    if !l.started {
      IdleTogether(g'.st, l);
    }
    Stand(self.groups, w, p, g'.st.d, l, src, dst);
  }

  lemma IdleTogether(st: State, l: Locals)
    requires Good(st, l) && !l.started
    ensures st.d == st.s
  {
  }

  lemma BeginBounds(st: State, l: Locals)
    requires Good(st, l)
    ensures Bounds(st)
  {
  }

  lemma FirstLink(links: map<PageId, Links>, chain: seq<PageId>)
    requires NextChain(links, chain)
    ensures |chain| > 0 && chain[0] != NULL_ID && chain[0] in links && links[chain[0]].next == NextIn(chain, 0)
  {
    assert chain[0] in links;
  }

  lemma LastPage(links: map<PageId, Links>, chain: seq<PageId>, s: nat)
    requires NextChain(links, chain) && s < |chain|
    ensures NextIn(chain, s) == NULL_ID <==> s == |chain| - 1
  {
    assert s + 1 < |chain| ==> chain[s + 1] in links;
  }
}
