/** page_data_manager_vacuum: compaction across the pages of a group, then release of the tail. */
module Vacuum {
  import opened Bytes
  import opened SlottedPage
  import opened PageLists
  import opened PageLinks
  import opened PageGroups
  import opened PageStorage
  import opened Compaction
  import opened CompactionRun
  import opened VacuumResult
  import opened VacuumSlots
  import opened VacuumChain

  // ---- releasing the tail ----

  // The pages behind position d leave the chain for the free list, in order.
  function Released(lists: Lists, g: PageId, d: nat): Lists
    requires g in lists && NULL_ID in lists && d < |lists[g]|
  {
    lists[g := lists[g][..d + 1]][NULL_ID := lists[NULL_ID] + lists[g][d + 1..]]
  }

  // After r pages.
  function PartlyReleased(lists: Lists, g: PageId, d: nat, r: nat): Lists
    requires g in lists && NULL_ID in lists && d + 1 + r <= |lists[g]|
  {
    lists[g := lists[g][..d + 1] + lists[g][d + 1 + r..]][NULL_ID := lists[NULL_ID] + lists[g][d + 1..d + 1 + r]]
  }

  lemma ReleaseStart(lists: Lists, g: PageId, d: nat)
    requires g in lists && NULL_ID in lists && d < |lists[g]| && g != NULL_ID
    ensures PartlyReleased(lists, g, d, 0) == lists
    ensures PartlyReleased(lists, g, d, |lists[g]| - d - 1) == Released(lists, g, d)
  {
    assert lists[g][..d + 1] + lists[g][d + 1..] == lists[g];
    assert lists[NULL_ID] + lists[g][d + 1..d + 1] == lists[NULL_ID];
    assert lists[g][..d + 1] + lists[g][|lists[g]|..] == lists[g][..d + 1];
    assert lists[g][d + 1..|lists[g]|] == lists[g][d + 1..];
  }

  lemma ReleaseStep(lists: Lists, g: PageId, d: nat, r: nat)
    requires g in lists && NULL_ID in lists && g != NULL_ID && d + 1 + r < |lists[g]|
    ensures var now := PartlyReleased(lists, g, d, r);
            && d + 1 < |now[g]| == |lists[g]| - r && now[g][d + 1] == lists[g][d + 1 + r] &&
              NextIn(now[g], d + 1) == NextIn(lists[g], d + 1 + r)
            && NULL_ID in now && CutOut(now, g, d + 1) == PartlyReleased(lists, g, d, r + 1)
  {
    var now, chain := PartlyReleased(lists, g, d, r), lists[g];
    assert now[g][..d + 1] + now[g][d + 2..] == chain[..d + 1] + chain[d + 1 + r + 1..];
    assert lists[NULL_ID] + chain[d + 1..d + 1 + r] + [chain[d + 1 + r]] ==
      lists[NULL_ID] + chain[d + 1..d + 1 + r + 1];
  }

  // A forward iterator about to step on page j of the chain of g, or at its end.
  lemma StepReady(groups: PageGroupManager, g: PageId, j: nat, loose: bool, stale: set<PageId>)
    requires groups.Inv(loose, stale) && groups.IsGroup(g) && j < |groups.lists[g]|
    ensures groups.lists[g][j] in groups.links && groups.lists[g][j] != NULL_ID
    ensures groups.links[groups.lists[g][j]].next == NextIn(groups.lists[g], j)
    ensures NULL_ID in groups.lists
  {
    PlaceOf(groups.lists, groups.place, groups.pageAmount, g, j);
  }

  lemma HeadFirst(lists: Lists, place: map<PageId, Place>, n: nat, g: PageId)
    requires Partition(lists, place, n) && g in lists && g != NULL_ID
    ensures |lists[g]| > 0 && lists[g][0] == g
  {
  }

  // The last loop of vacuum. The forward chain ends at page d and the free list takes the rest;
  // the head keeps pointing back to the page that was last.
  method ReleaseTail(groups: PageGroupManager, dst: PageIterator, ghost g: PageId, ghost d: nat,
                     ghost stale: set<PageId>)
    requires groups.Inv(false, stale) && groups.IsGroup(g)
    requires OnPage(dst, groups, groups.lists[g], d)
    modifies groups, dst
    ensures NULL_ID in old(groups.lists) && groups.lists == Released(old(groups.lists), g, d)
    ensures groups.Inv(false, if d + 1 == |old(groups.lists)[g]| then stale else stale + {g})
    ensures g in old(groups.links) && g in groups.links && groups.links[g].previous == old(groups.links)[g].previous
    ensures groups.pageAmount == old(groups.pageAmount)
  {
    hide PageGroupManager.Inv, PartlyReleased, Released;
    ghost var lists, chain, r, loose := groups.lists, groups.lists[g], 0, false;
    StepReady(groups, g, d, false, stale);
    StepReady(groups, g, 0, false, stale);
    PartitionOf(groups, stale);
    HeadFirst(groups.lists, groups.place, groups.pageAmount, g);
    ReleaseStart(lists, g, d);
    if d + 1 < |chain| {
      StepReady(groups, g, d + 1, false, stale);
    }
    while dst.HasNext()
      invariant dst.manager == groups && !dst.inverse && dst.started
      invariant d + 1 + r <= |chain| && groups.lists == PartlyReleased(lists, g, d, r) && groups.IsGroup(g)
      invariant dst.nextId == NextIn(chain, d + r)
      invariant d + 1 + r < |chain| ==> groups.Inv(loose, stale) && dst.nextId != NULL_ID
      invariant d + 1 + r == |chain| ==> groups.Inv(false, if r == 0 then stale else stale + {g})
      invariant g in groups.links && groups.links[g].previous == old(groups.links)[g].previous
      invariant groups.pageAmount == old(groups.pageAmount)
      decreases |chain| - r
    {
      ReleaseStep(lists, g, d, r);
      StepReady(groups, g, d + 1, loose, stale);
      ghost var n := |groups.lists[g]|;
      if d + 2 < n {
        StepReady(groups, g, d + 2, loose, stale);
      }
      var ok := dst.Next();
      ghost var free := groups.lists[NULL_ID];
      groups.FreePageCurrent(dst.currentId, g, d + 1, loose, stale);
      loose := free != [] && d + 2 < n;
      r := r + 1;
    }
  }

  // ---- the whole vacuum ----

  // Where the pages of a chain with wrong pointers are.
  ghost function BlindIn(chain: seq<PageId>, ill: set<PageId>): (s: set<nat>)
    ensures forall j :: j in s <==> 0 <= j < |chain| && chain[j] in ill
  {
    set j: nat | j < |chain| && chain[j] in ill
  }

  ghost function BlindAt(self: PageDataManager, g: PageId, ill: set<PageId>): (s: set<nat>)
    requires g in self.groups.lists
    reads self.groups
  {
    BlindIn(self.groups.lists[g], ill)
  }

  // Their free space starts at 0 and ends there.
  ghost predicate BlindsIn(data: map<PageId, PageData>, chain: seq<PageId>, ill: set<PageId>, ends: map<nat, nat>)
  {
    && ends.Keys == BlindIn(chain, ill)
    && forall j :: j in ends ==>
         && 0 <= j < |chain| && chain[j] in data && data[chain[j]].freeStart == 0 && data[chain[j]].freeEnd == ends[j]
  }

  ghost predicate Blinds(self: PageDataManager, g: PageId, ill: set<PageId>, ends: map<nat, nat>)
    requires g in self.groups.lists
    reads self, self.groups
  {
    BlindsIn(self.data, self.groups.lists[g], ill, ends)
  }

  lemma BlindKeys(self: PageDataManager, g: PageId, ill: set<PageId>, ends: map<nat, nat>)
    requires g in self.groups.lists && Blinds(self, g, ill, ends)
    ensures ends.Keys == BlindIn(self.groups.lists[g], ill)
  {
  }

  // They do not depend on anything else.
  lemma BlindsFrame(data0: map<PageId, PageData>, data: map<PageId, PageData>, chain: seq<PageId>, ill0: set<PageId>,
                    ill: set<PageId>, ends: map<nat, nat>)
    requires BlindsIn(data0, chain, ill0, ends)
    requires forall j :: 0 <= j < |chain| ==> (chain[j] in ill <==> chain[j] in ill0)
    requires forall j :: j in ends && 0 <= j < |chain| && chain[j] in data0 ==>
               && chain[j] in data && data[chain[j]].freeStart == data0[chain[j]].freeStart
               && data[chain[j]].freeEnd == data0[chain[j]].freeEnd
    ensures BlindsIn(data, chain, ill, ends)
  {
  }

  ghost function JobOf(self: PageDataManager, g: PageId, ill: set<PageId>): (w: Job)
    requires g in self.groups.lists
    ensures w.cap == self.cap && w.data == self.data && w.chain == self.groups.lists[g] && w.pages == self.Pages(g)
    ensures w.blind == BlindAt(self, g, ill)
    reads self, self.groups
  {
    var pages, blind := self.Pages(g), BlindAt(self, g, ill);
    var m := if pages == [] then 0 else SeenFrom(|pages|, blind);
    var k := if pages == [] then 0 else m + |SeenPages(pages, blind)|;
    Job(self.cap, self.data, self.groups.lists[g], pages, blind, m, k)
  }

  lemma FormedPacked(p: PageData)
    requires Formed(p)
    ensures Packed(p, Entries(p))
  {
  }

  lemma Snapshot(self: PageDataManager, g: PageId, stale: set<PageId>, ill: set<PageId>, ends: map<nat, nat>)
    requires self.Inv(stale, ill) && self.groups.IsGroup(g) && Blinds(self, g, ill, ends)
    requires |self.Pages(g)| > 0 ==> Sweepable(self.Pages(g), ends.Keys)
    ensures |self.Pages(g)| > 0
    ensures var w := JobOf(self, g, ill);
            && Split(w) && AllReady(w) && AllLive(w) && NextChain(self.groups.links, w.chain)
            && SLOT_SIZE <= self.cap < U16_LIMIT && w.chain[0] == g
  {
    hide PageDataManager.Inv, PageDataManager.Pages, PageGroupManager.Inv, GroupsInv, NextChain, Ready;
    self.GroupsValid(stale, ill);
    self.NotEmpty(g, stale, ill);
    ReadNext(self.groups.Head(), self.groups.lists, self.groups.place, g, stale);
    var w := JobOf(self, g, ill);
    SplitSeen(w);
    forall j | 0 <= j < |w.chain|
      ensures w.chain[j] in w.data && Ready(w.cap, w.data[w.chain[j]], w.pages[j], j, j in w.blind)
      ensures SLOT_SIZE <= self.cap < U16_LIMIT
    {
      ReadyPage(self, g, j, stale, ill, ends);
    }
  }

  lemma ReadyPage(self: PageDataManager, g: PageId, j: nat, stale: set<PageId>, ill: set<PageId>, ends: map<nat, nat>)
    requires self.Inv(stale, ill) && self.groups.IsGroup(g) && Blinds(self, g, ill, ends)
    requires j < |self.groups.lists[g]| && j < |self.Pages(g)|
    ensures var id := self.groups.lists[g][j];
            && id in self.data && Ready(self.cap, self.data[id], self.Pages(g)[j], j, j in BlindAt(self, g, ill))
            && SLOT_SIZE <= self.cap < U16_LIMIT
  {
    hide PageDataManager.Inv, PageDataManager.Pages, Packed, Formed;
    self.PageAt(g, j, stale, ill);
    if j !in BlindAt(self, g, ill) {
      FormedPacked(self.data[self.groups.lists[g][j]]);
    }
    hide Readable, Entries;
  }

  lemma SplitSeen(w: Job)
    requires |w.pages| == |w.chain| > 0 && w.m == SeenFrom(|w.pages|, w.blind)
    requires w.k == w.m + |SeenPages(w.pages, w.blind)|
    ensures Split(w) && w.pages[w.m..w.k] == SeenPages(w.pages, w.blind)
    ensures w.k < |w.pages| <==> w.m < w.k && |w.pages| - 1 in w.blind
  {
  }

  // The first pages of the chain as the vacuum leaves them.
  ghost predicate Leaves(cap: nat, ps: seq<PageData>, outs: seq<seq<Entry>>)
  {
    && 0 < |outs| <= |ps|
    && (forall j :: 0 <= j < |ps| ==> |ps[j].contents| == cap)
    && (forall j :: 0 <= j < |outs| ==> Entries(ps[j]) == outs[j] && Scannable(ps[j], j))
  }

  // Those at `bad` may have wrong pointers.
  ghost predicate FormedBut(ps: seq<PageData>, n: nat, bad: set<nat>)
  {
    n <= |ps| && forall j :: 0 <= j < n && j !in bad ==> Formed(ps[j])
  }

  // Pages of other groups have not changed.
  lemma OthersKeptAt(cap: nat, data0: map<PageId, PageData>, data: map<PageId, PageData>, lists0: Lists,
                     place0: map<PageId, Place>, n: nat, chain: seq<PageId>, ps: seq<PageData>, g: PageId,
                     ill0: set<PageId>, id: PageId)
    requires Partition(lists0, place0, n) && DataInv(cap, data0, place0, ill0)
    requires g in lists0 && lists0[g] == chain && Mirror(data, data0, chain, ps)
    requires id in place0 && place0[id].list != g && id != NULL_ID
    ensures id in data && data[id] == data0[id] && PageInv(cap, data[id], place0[id], id in ill0) && id !in chain
  {
    forall j | 0 <= j < |chain|
      ensures chain[j] != id
    {
      PlaceOf(lists0, place0, n, g, j);
    }
    assert PageInv(cap, data0[id], place0[id], id in ill0);
  }

  // The pages that may have wrong pointers after the release.
  ghost function StillIll(ill0: set<PageId>, chain: seq<PageId>, bad: set<nat>): (s: set<PageId>)
    ensures forall id :: id in s <==>
              (id in ill0 && id !in chain) || exists j :: j in bad && 0 <= j < |chain| && chain[j] == id
  {
    (set id | id in ill0 && id !in chain) + (set j: nat | j in bad && j < |chain| :: chain[j])
  }

  // After the release every page fits its new place; only the pages at `bad` may be malformed.
  lemma ReleasedData(cap: nat, data0: map<PageId, PageData>, data: map<PageId, PageData>, lists0: Lists,
                     place0: map<PageId, Place>, place: map<PageId, Place>, n: nat, ps: seq<PageData>,
                     outs: seq<seq<Entry>>, g: PageId, d: nat, ill0: set<PageId>, bad: set<nat>)
    requires Partition(lists0, place0, n) && DataInv(cap, data0, place0, ill0)
    requires g in lists0 && g != NULL_ID && d < |lists0[g]| && Mirror(data, data0, lists0[g], ps)
    requires Partition(Released(lists0, g, d), place, n)
    requires Leaves(cap, ps, outs) && |outs| == d + 1 && FormedBut(ps, d + 1, bad) && forall j :: j in bad ==> j <= d
    ensures DataInv(cap, data, place, StillIll(ill0, lists0[g], bad))
  {
    hide PageInv, Leaves, FormedBut, Formed, Located, Indexed, Released;
    var ill := StillIll(ill0, lists0[g], bad);
    forall id | id in place
      ensures id in data && PageInv(cap, data[id], place[id], id in ill)
      ensures id in ill ==> place[id].list != NULL_ID
    {
      ReleasedPage(cap, data0, data, lists0, place0, place, n, ps, outs, g, d, ill0, bad, id);
    }
    forall id | id in ill
      ensures id in place
    {
      if id in lists0[g] {
        var j :| 0 <= j < |lists0[g]| && lists0[g][j] == id;
        PlaceOf(lists0, place0, n, g, j);
      }
      SamePages(place0, place, n);
    }
    assert data.Keys == place.Keys;
  }

  lemma SamePages(place0: map<PageId, Place>, place: map<PageId, Place>, n: nat)
    requires (forall id :: id in place0 <==> 1 <= id <= n) && (forall id :: id in place <==> 1 <= id <= n)
    ensures forall id :: id in place0 <==> id in place
  {
  }

  lemma ReleasedPage(cap: nat, data0: map<PageId, PageData>, data: map<PageId, PageData>, lists0: Lists,
                     place0: map<PageId, Place>, place: map<PageId, Place>, n: nat, ps: seq<PageData>,
                     outs: seq<seq<Entry>>, g: PageId, d: nat, ill0: set<PageId>, bad: set<nat>, id: PageId)
    requires Partition(lists0, place0, n) && DataInv(cap, data0, place0, ill0)
    requires g in lists0 && g != NULL_ID && d < |lists0[g]| && Mirror(data, data0, lists0[g], ps)
    requires Partition(Released(lists0, g, d), place, n)
    requires Leaves(cap, ps, outs) && |outs| == d + 1 && FormedBut(ps, d + 1, bad) && forall j :: j in bad ==> j <= d
    requires id in place
    ensures var ill := StillIll(ill0, lists0[g], bad);
            id in data && PageInv(cap, data[id], place[id], id in ill) && (id in ill ==> place[id].list != NULL_ID)
  {
    hide Scannable, Formed, Indexed;
    var chain := lists0[g];
    assert At(Released(lists0, g, d), place[id], id);
    assert At(lists0, place0[id], id);
    if place0[id].list != g {
      OthersKeptAt(cap, data0, data, lists0, place0, n, chain, ps, g, ill0, id);
      OtherPlace(lists0, place0, place, n, g, d, id);
      IllInGroups(cap, data0, place0, ill0);
      hide DataInv;
    } else {
      hide DataInv;
      var j := place0[id].index;
      OwnPlace(lists0, place0, place, n, g, d, id);
      if j < |ps| {
        assert chain[j] == id && data[chain[j]] == ps[j];
        IllAt(lists0, place0, n, g, j, ill0, bad);
      } else {
        SizeKept(cap, data0, data, lists0, place0, n, ps, g, ill0, id);
        IllAt(lists0, place0, n, g, j, ill0, bad);
      }
    }
  }

  lemma IllAt(lists0: Lists, place0: map<PageId, Place>, n: nat, g: PageId, j: nat, ill0: set<PageId>, bad: set<nat>)
    requires Partition(lists0, place0, n) && g in lists0 && j < |lists0[g]|
    ensures lists0[g][j] in StillIll(ill0, lists0[g], bad) <==> j in bad
  {
    forall i | 0 <= i < |lists0[g]| && lists0[g][i] == lists0[g][j]
      ensures i == j
    {
      DistinctPages(lists0, place0, n, g, i, j);
    }
  }

  lemma SizeKept(cap: nat, data0: map<PageId, PageData>, data: map<PageId, PageData>, lists0: Lists,
                 place0: map<PageId, Place>,
                 n: nat, ps: seq<PageData>, g: PageId, ill0: set<PageId>, id: PageId)
    requires Partition(lists0, place0, n) && DataInv(cap, data0, place0, ill0)
    requires g in lists0 && Mirror(data, data0, lists0[g], ps)
    requires id in place0 && place0[id].list == g && place0[id].index >= |ps|
    ensures id in data && |data[id].contents| == cap
  {
    hide Scannable, Formed;
    forall j | 0 <= j < |ps|
      ensures lists0[g][j] != id
    {
      PlaceOf(lists0, place0, n, g, j);
    }
    assert PageInv(cap, data0[id], place0[id], id in ill0);
  }

  lemma OtherPlace(lists0: Lists, place0: map<PageId, Place>, place: map<PageId, Place>, n: nat, g: PageId, d: nat,
                   id: PageId)
    requires Partition(lists0, place0, n) && g in lists0 && g != NULL_ID && d < |lists0[g]|
    requires Partition(Released(lists0, g, d), place, n) && id in place && id in place0 && place0[id].list != g
    ensures place[id] == place0[id]
  {
    var q := place0[id];
    assert At(lists0, q, id);
    assert At(Released(lists0, g, d), q, id);
    PlaceOf(Released(lists0, g, d), place, n, q.list, q.index);
  }

  lemma OwnPlace(lists0: Lists, place0: map<PageId, Place>, place: map<PageId, Place>, n: nat, g: PageId, d: nat,
                 id: PageId)
    requires Partition(lists0, place0, n) && g in lists0 && g != NULL_ID && d < |lists0[g]|
    requires Partition(Released(lists0, g, d), place, n) && id in place && id in place0 && place0[id].list == g
    ensures place[id].list == NULL_ID || (place[id] == place0[id] && place0[id].index <= d)
    ensures place0[id].index <= d ==> place[id] == place0[id]
    ensures id == lists0[g][d] <==> place0[id].index == d
  {
    var q, lists := place0[id], Released(lists0, g, d);
    assert At(lists0, q, id);
    PlaceOf(lists0, place0, n, g, d);
    if q.index <= d {
      PlaceOf(lists, place, n, g, q.index);
    } else {
      var k := |lists0[NULL_ID]| + q.index - d - 1;
      assert lists[NULL_ID][k] == id;
      PlaceOf(lists, place, n, NULL_ID, k);
    }
  }

  lemma ReleasedPages(cap: nat, data0: map<PageId, PageData>, data: map<PageId, PageData>, lists0: Lists,
                      place0: map<PageId, Place>,
                      n: nat, ps: seq<PageData>, outs: seq<seq<Entry>>, g: PageId, d: nat)
    requires Partition(lists0, place0, n)
    requires g in lists0 && g != NULL_ID && d < |lists0[g]| && Mirror(data, data0, lists0[g], ps)
    requires Leaves(cap, ps, outs) && |outs| == d + 1
    ensures var lists := Released(lists0, g, d);
            && PagesOf(data, lists[g]) == outs
            && forall h :: h in lists0 && h != g && h != NULL_ID ==>
              h in lists && lists[h] == lists0[h] && PagesOf(data, lists[h]) == PagesOf(data0, lists0[h])
  {
    hide Partition, Mirror, Leaves, PagesOf;
    FrontPages(cap, data, data0, lists0[g], ps, outs);
    forall h | h in lists0 && h != g && h != NULL_ID
      ensures PagesOf(data, lists0[h]) == PagesOf(data0, lists0[h])
    {
      OtherPages(data0, data, lists0, place0, n, ps, g, h);
    }
  }

  lemma FrontPages(cap: nat, data: map<PageId, PageData>, data0: map<PageId, PageData>, chain: seq<PageId>,
                   ps: seq<PageData>, outs: seq<seq<Entry>>)
    requires Mirror(data, data0, chain, ps) && Leaves(cap, ps, outs)
    ensures PagesOf(data, chain[..|outs|]) == outs
  {
    hide Scannable, Formed;
    var front := chain[..|outs|];
    forall j | 0 <= j < |outs|
      ensures PagesOf(data, front)[j] == outs[j]
    {
      assert front[j] == chain[j] && data[chain[j]] == ps[j];
    }
  }

  lemma OtherPages(data0: map<PageId, PageData>, data: map<PageId, PageData>, lists: Lists, place: map<PageId, Place>,
                   n: nat, ps: seq<PageData>, g: PageId, h: PageId)
    requires Partition(lists, place, n) && g in lists && h in lists && h != g
    requires Mirror(data, data0, lists[g], ps)
    ensures PagesOf(data, lists[h]) == PagesOf(data0, lists[h])
  {
    hide Partition;
    forall i | 0 <= i < |lists[h]|
      ensures lists[h][i] !in lists[g]
    {
      NotInOther(lists, place, n, g, h, i);
    }
    PagesFrame(data0, data, lists[h]);
  }

  lemma NotInOther(lists: Lists, place: map<PageId, Place>, n: nat, g: PageId, h: PageId, i: nat)
    requires Partition(lists, place, n) && g in lists && h in lists && g != h && i < |lists[h]|
    ensures lists[h][i] !in lists[g]
  {
    PlaceOf(lists, place, n, h, i);
    forall j | 0 <= j < |lists[g]|
      ensures lists[g][j] != lists[h][i]
    {
      PlaceOf(lists, place, n, g, j);
    }
  }

  // A page was released and the head was not repaired.
  lemma StaleHead(groups: PageGroupManager, chain: seq<PageId>, g: PageId, d: nat)
    requires d + 1 < |chain| && groups.IsGroup(g) && groups.lists[g] == chain[..d + 1]
    requires g in groups.links && groups.links[g].previous == Last(chain)
    requires Distinct(chain)
    ensures !groups.Valid()
  {
    assert chain[d] != chain[|chain| - 1];
    if groups.Valid() {
      HeadLink(groups, g);
    }
  }

  lemma HeadLink(groups: PageGroupManager, g: PageId)
    requires groups.Valid() && groups.IsGroup(g) && g in groups.links
    ensures groups.links[g].previous == Last(groups.lists[g])
  {
    ReadChain(groups.Head(), groups.lists, groups.place, g, {});
    assert LinkAt(groups.links, groups.lists[g], 0);
  }

  lemma MalformedPage(self: PageDataManager, g: PageId, d: nat)
    requires self.groups.IsGroup(g) && d < |self.groups.lists[g]|
    requires self.groups.lists[g][d] in self.data && !Formed(self.data[self.groups.lists[g][d]])
    ensures !self.Valid()
  {
    if self.Valid() {
      self.PageAt(g, d, {}, {});
    }
  }

  // The result of a vacuum, in terms of the pages before it.
  ghost predicate Compacted(cap: nat, before: seq<seq<Entry>>, after: seq<seq<Entry>>)
  {
    && |before| > 0
    && |after| == FinalPage(cap, before) + 1
    // exactly the survivors, same bytes and order
    && Flat(after) == SurviveAll(before, |before|)
    // no slot is flagged
    && (forall j :: 0 <= j < |after| ==> AllVisible(after[j]))
    // a page kept all its entries, or had no room for the first entry of the next page
    && |after| <= |before|
    && (forall j :: 0 <= j < |after| - 1 ==> PageTight(cap, before, after, j))
  }

  // What the code needs to leave everything right: it ends while compacting, and no page is released.
  predicate KeepsLayout(cap: nat, pages: seq<seq<Entry>>)
    requires |pages| > 0
  {
    FinalPage(cap, pages) == |pages| - 1 && ClosesWell(cap, pages)
  }

  // The last write, which the repair skips when nothing is being compacted.
  function Finished(p: PageData, l: Locals, repaired: bool): PageData
  {
    if l.started || !repaired then FinalWrite(p, l) else p
  }

  // The last page is written, the tail is released, the head repaired if asked for.
  method FinishVacuum(self: PageDataManager, dst: PageIterator, l: Locals, repaired: bool, g: PageId,
                      ghost ps: seq<PageData>, ghost outs: seq<seq<Entry>>, ghost data0: map<PageId, PageData>,
                      ghost bad: set<nat>, ghost stale: set<PageId>, ghost ill: set<PageId>)
    requires self.groups.Inv(false, stale) && self.groups.IsGroup(g) && NULL_ID in self.groups.lists
    requires DataInv(self.cap, data0, self.groups.place, ill)
    requires Mirror(self.data, data0, self.groups.lists[g], ps) && Distinct(self.groups.lists[g])
    requires Leaves(self.cap, ps, outs) && OnPage(dst, self.groups, self.groups.lists[g], |outs| - 1)
    requires FormedBut(ps, |outs| - 1, bad) && forall j :: j in bad ==> j < |outs|
    requires |outs| - 1 in bad || Formed(Finished(ps[|outs| - 1], l, repaired))
    modifies self`data, self.groups, dst
    ensures NULL_ID in old(self.groups.lists) && |outs| <= |old(self.groups.lists)[g]|
    ensures self.groups.lists == Released(old(self.groups.lists), g, |outs| - 1)
    ensures Mirror(self.data, data0, old(self.groups.lists)[g], ps[|outs| - 1 := Finished(ps[|outs| - 1], l, repaired)])
    ensures self.Inv(HeadsAfter(stale, g, |outs| < |old(self.groups.lists)[g]|, repaired),
              StillIll(ill, old(self.groups.lists)[g], bad))
    ensures g in old(self.groups.links) && g in self.groups.links
    ensures !repaired ==> self.groups.links[g].previous == old(self.groups.links)[g].previous
    ensures self.groups.IsGroup(g) && self.Pages(g) == outs
    ensures forall h :: old(self.groups.IsGroup(h)) && h != g ==>
              self.groups.IsGroup(h) && self.groups.lists[h] == old(self.groups.lists)[h] &&
                self.Pages(h) == PagesOf(data0, old(self.groups.lists)[h])
  {
    hide Mirror, DataInv, Leaves, FormedBut, Formed, Released, PageGroupManager.Inv, Finished, Distinct, StillIll,
      PagesOf, Partition;
    ghost var lists0, place0, n, d := self.groups.lists, self.groups.place, self.groups.pageAmount, |outs| - 1;
    LeavesBounds(self.cap, ps, outs);
    FinishedLeaves(self.cap, ps, outs, bad, l, repaired);
    PartitionOf(self.groups, stale);
    var lastId := WriteLast(self, dst, l, repaired, lists0[g], ps, d, data0);
    ghost var ps' := ps[d := Finished(ps[d], l, repaired)];
    ReleaseTail(self.groups, dst, g, d, stale);
    ghost var stale' := if |outs| == |lists0[g]| then stale else stale + {g};
    PartitionOf(self.groups, stale');
    ReleasedData(self.cap, data0, self.data, lists0, place0, self.groups.place, n, ps', outs, g, d, ill, bad);
    ReleasedPages(self.cap, data0, self.data, lists0, place0, n, ps', outs, g, d);
    ReleasedKeys(lists0, g, d);
    if repaired {
      ReleasedChain(lists0, g, d);
      self.groups.RepairHead(g, lastId, stale');
      assert stale' - {g} == stale - {g};
    }
  }

  // The last write of vacuum.
  method WriteLast(self: PageDataManager, dst: PageIterator, l: Locals, repaired: bool, ghost chain: seq<PageId>,
                   ghost ps: seq<PageData>, ghost d: nat, ghost data0: map<PageId, PageData>)
    returns (last: PageId)
    requires d < |ps| && Mirror(self.data, data0, chain, ps) && Distinct(chain) && OnPage(dst, self.groups, chain, d)
    modifies self`data
    ensures last == chain[d] && Mirror(self.data, data0, chain, ps[d := Finished(ps[d], l, repaired)])
  {
    hide Mirror, Distinct;
    MirrorAt(self.data, data0, chain, ps, d);
    last := dst.currentId;
    ghost var data, p := self.data, Finished(ps[d], l, repaired);
    MirrorWrite(data, data0, chain, ps, d, p);
    if l.started || !repaired {
      self.data := self.data[last := FinalWrite(self.data[last], l)];
    }
    assert self.data == data[last := p];
  }

  // The heads that may have a wrong back link.
  function HeadsAfter(stale: set<PageId>, g: PageId, released: bool, repaired: bool): set<PageId>
  {
    if repaired then stale - {g} else if released then stale + {g} else stale
  }

  lemma LeavesBounds(cap: nat, ps: seq<PageData>, outs: seq<seq<Entry>>)
    requires Leaves(cap, ps, outs)
    ensures 0 < |outs| <= |ps|
  {
  }

  lemma FinishedLeaves(cap: nat, ps: seq<PageData>, outs: seq<seq<Entry>>, bad: set<nat>, l: Locals, repaired: bool)
    requires Leaves(cap, ps, outs) && FormedBut(ps, |outs| - 1, bad)
    requires |outs| - 1 in bad || Formed(Finished(ps[|outs| - 1], l, repaired))
    ensures var ps' := ps[|outs| - 1 := Finished(ps[|outs| - 1], l, repaired)];
            Leaves(cap, ps', outs) && FormedBut(ps', |outs|, bad)
  {
    hide Formed, Scannable;
    FinalWriteReads(ps[|outs| - 1], l, |outs| - 1);
  }

  lemma ReleasedKeys(lists: Lists, g: PageId, d: nat)
    requires g in lists && NULL_ID in lists && d < |lists[g]| && g != NULL_ID
    ensures Released(lists, g, d).Keys == lists.Keys
  {
  }

  lemma ReleasedChain(lists: Lists, g: PageId, d: nat)
    requires g in lists && NULL_ID in lists && d < |lists[g]| && g != NULL_ID
    ensures g in Released(lists, g, d) && Released(lists, g, d)[g] == lists[g][..d + 1]
    ensures Last(Released(lists, g, d)[g]) == lists[g][d]
  {
  }

  // ---- the end of the run ----

  // The last page before the last write.
  ghost predicate LastEnds(w: Job, p: PageData, l: Locals, repaired: bool)
    requires |w.pages| == |w.chain| > 0
  {
    var q, fit := Finished(p, l, repaired), FitAfter(w.cap, w.pages, w.blind, repaired);
    && (fit ==> Formed(q))
    && (Formed(q) && |w.pages| - 1 !in w.blind ==> fit)
    && (!fit ==> q.freeStart == 0)
    && (!fit && repaired ==> q == PageOf(w.data, Last(w.chain)))
    && (!fit && !repaired ==> q.freeEnd == EndIndex(w.cap, w.pages, w.blind))
  }

  // The passed pages that are blind are as they were; all others but the last are well formed.
  ghost predicate FrontEnds(w: Job, ps: seq<PageData>, n: nat)
    requires |w.pages| == |w.chain|
  {
    && n <= |ps| && w.m <= |ps| && w.m <= |w.chain|
    && forall j :: 0 <= j < n ==>
         if j < w.m && j in w.blind then ps[j] == PageOf(w.data, w.chain[j]) else Formed(ps[j])
  }

  ghost predicate CoreCompacted(w: Job)
    requires |w.pages| > 0
  {
    var core := SeenPages(w.pages, w.blind);
    core != [] ==> Compacted(w.cap, core, Vacuumed(w.cap, core))
  }

  lemma CoreIsCompacted(w: Job, st: State, l: Locals)
    requires |w.pages| > 0 && AtEnd(st, l) && st.cap == w.cap && st.es0 == SeenPages(w.pages, w.blind)
    ensures CoreCompacted(w)
  {
    hide SeenPages, Compacted;
    EndCompacted(st, l);
    EndCursor(st, l);
    hide AtEnd;
  }

  lemma EndCompacted(st: State, l: Locals)
    requires AtEnd(st, l)
    ensures Compacted(st.cap, st.es0, st.outs)
  {
    hide Good, PageTight, FinalCursor;
    EndCursor(st, l);
    EndContents(st, l);
    BeginBounds(st, l);
  }

  ghost predicate Ends(w: Job, data: map<PageId, PageData>, ps: seq<PageData>, outs: seq<seq<Entry>>, l: Locals)
    requires |w.pages| == |w.chain| > 0
  {
    && outs == AfterVacuum(w.cap, w.pages, w.blind)
    && Leaves(w.cap, ps, outs) && Mirror(data, w.data, w.chain, ps) && FrontEnds(w, ps, |outs| - 1)
    && LastEnds(w, ps[|outs| - 1], l, true) && LastEnds(w, ps[|outs| - 1], l, false)
    && CoreCompacted(w)
  }

  ghost predicate Seen(w: Job)
  {
    && Split(w) && w.m == SeenFrom(|w.pages|, w.blind) && w.pages[w.m..w.k] == SeenPages(w.pages, w.blind)
    && (w.k < |w.pages| <==> w.m < w.k && |w.pages| - 1 in w.blind)
  }

  // Every page was passed: the last one is blind.
  lemma AllPassedEnds(w: Job, data: map<PageId, PageData>, g: Progress, l: Locals)
    requires Seen(w) && w.m == |w.chain| && AllReady(w) && Passing(w, data, |w.chain|, g, l)
    ensures Ends(w, data, g.pre, AfterVacuum(w.cap, w.pages, w.blind), l)
    ensures |AfterVacuum(w.cap, w.pages, w.blind)| == |w.chain|
  {
    hide SeenFrom, SeenPages, Swept, SweptPage, Mirror, AllPassed, AfterVacuum, Leaves, LastEnds, EndsPacking,
      Vacuumed, FrontEnds, AllReady, Distinct, Compacted;
    AfterVacuumIs(w.cap, w.pages, w.blind);
    PassedLeaves(w, g.pre);
    FrontLess(w, g.pre, w.m - 1);
    PassedLast(w, g.pre, l, true);
    PassedLast(w, g.pre, l, false);
  }

  lemma FrontLess(w: Job, ps: seq<PageData>, n: nat)
    requires |w.pages| == |w.chain| && FrontEnds(w, ps, n + 1)
    ensures FrontEnds(w, ps, n)
  {
    hide Formed;
  }

  lemma PassedLast(w: Job, pre: seq<PageData>, l: Locals, repaired: bool)
    requires Seen(w) && w.m == |w.chain| == |pre| && AllReady(w) && AllPassed(w, pre) && l == Locals(false, 0, 0)
    ensures LastEnds(w, pre[|pre| - 1], l, repaired)
  {
    hide SeenFrom, SeenPages, Swept, SweptPage, Formed, Scannable, Entries;
    var n := |w.chain| - 1;
    ReadyAt(w, n);
    assert PassedAs(w.cap, pre[n], PageOf(w.data, w.chain[n]), w.pages[n], n, n in w.blind);
    hide AllReady, AllPassed;
  }

  lemma PassedLeaves(w: Job, pre: seq<PageData>)
    requires 0 < |pre| <= |w.chain| == |w.pages| && |pre| == w.m && AllPassed(w, pre)
    ensures Leaves(w.cap, pre, Swept(w.pages, w.blind, w.m)) && FrontEnds(w, pre, w.m)
  {
    hide SweptPage, Formed, Scannable, Entries;
    forall j | 0 <= j < |pre|
      ensures PassedAs(w.cap, pre[j], PageOf(w.data, w.chain[j]), w.pages[j], j, j in w.blind)
    {
    }
  }

  ghost predicate JoinedAt(w: Job, ps: seq<PageData>, outs: seq<seq<Entry>>, j: nat, last: nat)
    requires w.m <= |w.chain| == |w.pages|
  {
    && j < |ps| && j < |outs| && Entries(ps[j]) == outs[j] && Scannable(ps[j], j)
    && (j < last ==>
          if j < w.m && j in w.blind then ps[j] == PageOf(w.data, w.chain[j]) else Formed(ps[j]))
  }

  lemma JoinAt(w: Job, pre: seq<PageData>, ps: seq<PageData>, outs: seq<seq<Entry>>, j: nat)
    requires |pre| == w.m <= |w.chain| == |w.pages| && AllPassed(w, pre)
    requires 0 < |outs| && Left(w.cap, w.m, ps, outs) && j < w.m + |outs|
    ensures JoinedAt(w, pre + ps, Swept(w.pages, w.blind, w.m) + outs, j, w.m + |outs| - 1)
  {
    hide Swept, SweptPage, Formed, Scannable, Entries;
    if j < w.m {
      hide Left;
      SweptAt(w.pages, w.blind, w.m, j);
      assert PassedAs(w.cap, pre[j], PageOf(w.data, w.chain[j]), w.pages[j], j, j in w.blind);
      hide AllPassed;
      assert (pre + ps)[j] == pre[j];
    } else {
      hide AllPassed, PassedAs;
      var i := j - w.m;
      assert Entries(ps[i]) == outs[i] && Scannable(ps[i], w.m + i) && (i < |outs| - 1 ==> Formed(ps[i]));
      hide Left;
      assert (pre + ps)[j] == ps[i] && (Swept(w.pages, w.blind, w.m) + outs)[j] == outs[i];
    }
  }

  lemma JoinSizes(w: Job, pre: seq<PageData>, ps: seq<PageData>, outs: seq<seq<Entry>>)
    requires |pre| == w.m <= |w.chain| == |w.pages| && AllPassed(w, pre)
    requires 0 < |outs| && Left(w.cap, w.m, ps, outs)
    ensures |outs| <= |ps| && forall j :: 0 <= j < |pre + ps| ==> |(pre + ps)[j].contents| == w.cap
  {
    hide SweptPage, Formed, Scannable, Entries;
    forall j | 0 <= j < |pre + ps|
      ensures |(pre + ps)[j].contents| == w.cap
    {
      if j < w.m {
        assert PassedAs(w.cap, pre[j], PageOf(w.data, w.chain[j]), w.pages[j], j, j in w.blind);
      } else {
        assert (pre + ps)[j] == ps[j - w.m];
      }
    }
  }

  // The passed pages, and those of the run behind them.
  lemma JoinLeaves(w: Job, pre: seq<PageData>, ps: seq<PageData>, outs: seq<seq<Entry>>)
    requires |pre| == w.m <= |w.chain| == |w.pages| && AllPassed(w, pre)
    requires 0 < |outs| && Left(w.cap, w.m, ps, outs)
    ensures Leaves(w.cap, pre + ps, Swept(w.pages, w.blind, w.m) + outs)
    ensures FrontEnds(w, pre + ps, w.m + |outs| - 1)
  {
    hide SeenFrom, SeenPages, SweptPage, Swept, Formed, Scannable, Entries, AllPassed, Left;
    var all, entries, last := pre + ps, Swept(w.pages, w.blind, w.m) + outs, w.m + |outs| - 1;
    JoinSizes(w, pre, ps, outs);
    forall j | 0 <= j < |entries|
      ensures Entries(all[j]) == entries[j] && Scannable(all[j], j)
    {
      JoinAt(w, pre, ps, outs, j);
    }
    forall j | 0 <= j < last
      ensures if j < w.m && j in w.blind then all[j] == PageOf(w.data, w.chain[j]) else Formed(all[j])
    {
      JoinAt(w, pre, ps, outs, j);
    }
  }

  // One page more, behind pages that are right.
  lemma LeavesPush(w: Job, ps: seq<PageData>, outs: seq<seq<Entry>>, p: PageData, es: seq<Entry>)
    requires |w.pages| == |w.chain| && Leaves(w.cap, ps, outs) && |ps| == |outs| && FrontEnds(w, ps, |outs| - 1)
    requires Formed(ps[|ps| - 1]) && w.m < |ps|
    requires |p.contents| == w.cap && Entries(p) == es && Scannable(p, |ps|)
    ensures Leaves(w.cap, ps + [p], outs + [es]) && FrontEnds(w, ps + [p], |outs|)
  {
    hide Formed, Scannable, Entries;
  }

  lemma RunFits(w: Job, st: State, l: Locals)
    requires Seen(w) && AtEnd(st, l) && st.cap == w.cap && st.es0 == SeenPages(w.pages, w.blind)
    ensures FinalCursor(w.cap, st.es0).Packing? == l.started
    ensures EndsPacking(w.cap, w.pages, w.blind) == l.started
    ensures Formed(FinalWrite(st.ps[st.d], l)) <==> ClosesWell(w.cap, st.es0)
    ensures !l.started ==> l.destId == 0 && l.destEnd == EndIndex(w.cap, w.pages, w.blind) && Formed(st.ps[st.d])
    ensures l.started ==> ClosesWell(w.cap, st.es0)
    ensures Left(w.cap, st.pos, st.ps, st.outs) && st.outs == Vacuumed(w.cap, st.es0) && |st.outs| == st.d + 1
  {
    hide SeenFrom, SeenPages, Swept;
    EndBounds(st, l);
    hide AtEnd, Left, Formed, FinalWrite;
    EndPages(st, l);
    EndCursor(st, l);
    FinalWriteForms(st, l);
  }

  lemma EndBounds(st: State, l: Locals)
    requires AtEnd(st, l)
    ensures Bounds(st)
  {
  }

  lemma RunJoined(w: Job, data: map<PageId, PageData>, g: Progress, l: Locals)
    requires Seen(w) && w.m < w.k && Running(w, data, |w.chain|, g, l) && Distinct(w.chain)
    ensures var ps, outs := g.pre + g.st.ps, Swept(w.pages, w.blind, w.m) + g.st.outs;
            && |g.pre| == w.m && |g.st.ps| == w.k - w.m && |g.st.outs| == g.st.d + 1 <= |g.st.ps|
            && Leaves(w.cap, ps, outs) && FrontEnds(w, ps, |outs| - 1) && Mirror(data, w.data, w.chain, ps)
  {
    hide SeenFrom, SeenPages, Swept, SweptPage, Running, Mirror, AtEnd, Left, Vacuumed, AllPassed, Leaves,
      EndsPacking, FinalCursor, FinalWrite, Formed, ClosesWell, EndIndex, FrontEnds, Distinct;
    RunAtEnd(w, data, g, l);
    RunFits(w, g.st, l);
    JoinLeaves(w, g.pre, g.st.ps, g.st.outs);
    MirrorJoin(data, g.data1, w.data, w.chain, g.pre, g.st.ps);
  }

  // The run ends in one of its pages.
  lemma RunEnds(w: Job, data: map<PageId, PageData>, g: Progress, l: Locals)
    requires Seen(w) && w.m < w.k && Running(w, data, |w.chain|, g, l) && Distinct(w.chain)
    requires l.started || w.k == |w.chain|
    ensures Ends(w, data, g.pre + g.st.ps, AfterVacuum(w.cap, w.pages, w.blind), l)
    ensures |AfterVacuum(w.cap, w.pages, w.blind)| == w.m + g.st.d + 1
  {
    hide SeenFrom, SeenPages, Swept, SweptPage, Running, Mirror, AtEnd, Left, Vacuumed, AllPassed, AfterVacuum,
      Leaves, LastEnds, EndsPacking, FinalCursor, FinalWrite, Formed, ClosesWell, EndIndex, FrontEnds, FitAfter,
      AllReady, Ready, CoreCompacted, Entries, Scannable, Distinct;
    var outs := AfterVacuum(w.cap, w.pages, w.blind);
    RunJoined(w, data, g, l);
    RunAtEnd(w, data, g, l);
    RunFits(w, g.st, l);
    CoreIsCompacted(w, g.st, l);
    AfterVacuumIs(w.cap, w.pages, w.blind);
    LastOfRun(w, g.st, l, true);
    LastOfRun(w, g.st, l, false);
    assert outs == Swept(w.pages, w.blind, w.m) + g.st.outs;
    assert (g.pre + g.st.ps)[|outs| - 1] == g.st.ps[g.st.d];
  }

  lemma LastOfRun(w: Job, st: State, l: Locals, repaired: bool)
    requires Seen(w) && AtEnd(st, l) && st.cap == w.cap && st.es0 == SeenPages(w.pages, w.blind)
    requires l.started || w.k == |w.chain|
    ensures LastEnds(w, st.ps[st.d], l, repaired)
  {
    hide SeenFrom, SeenPages, Swept;
    RunFits(w, st, l);
    hide AtEnd, Formed, ClosesWell, Left, FinalCursor, EndIndex;
  }

  lemma BlindLast(w: Job, st: State, l: Locals, p: PageData, repaired: bool)
    requires Seen(w) && AtEnd(st, l) && st.cap == w.cap && st.es0 == SeenPages(w.pages, w.blind)
    requires !l.started && w.m < w.k < |w.chain| && p == PageOf(w.data, Last(w.chain)) && p.freeStart == 0
    ensures LastEnds(w, p, l, repaired)
  {
    hide SeenFrom, SeenPages, Swept;
    RunFits(w, st, l);
    hide AtEnd, Formed, ClosesWell, Left, FinalCursor, EndIndex;
  }

  lemma RunAtEnd(w: Job, data: map<PageId, PageData>, g: Progress, l: Locals)
    requires Seen(w) && w.m < w.k && Running(w, data, |w.chain|, g, l)
    ensures AtEnd(g.st, l) && g.st.cap == w.cap && g.st.es0 == SeenPages(w.pages, w.blind) && g.st.pos == w.m
    ensures |g.pre| == w.m && AllPassed(w, g.pre) && Mirror(g.data1, w.data, w.chain, g.pre)
    ensures Mirror(data, g.data1, w.chain[w.m..], g.st.ps) && |g.st.ps| == w.k - w.m
    ensures Bounds(g.st) && g.st.s == w.k - w.m - 1
  {
    hide SeenFrom, SeenPages, Swept;
    BehindSize(w, g.st, l);
    hide Good, Mirror, AllPassed;
  }

  lemma IdleAtEnd(st: State, l: Locals)
    requires AtEnd(st, l) && !l.started
    ensures st.d == st.s && Bounds(st)
  {
    IdleTogether(st, l);
    BeginBounds(st, l);
    hide Good;
  }

  lemma ReadyLast(w: Job)
    requires Seen(w) && w.k < |w.chain| && AllReady(w)
    ensures var p := PageOf(w.data, Last(w.chain));
            && p.freeStart == 0 && |p.contents| == w.cap && Scannable(p, |w.chain| - 1)
            && Entries(p) == w.pages[|w.chain| - 1] && Last(w.chain) in w.data
  {
    hide Scannable, Entries;
    ReadyAt(w, |w.chain| - 1);
  }

  // A blind last page behind a run that is not compacting.
  lemma BlindIsLast(w: Job, data: map<PageId, PageData>, g: Progress, l: Locals)
    requires Seen(w) && w.m < w.k < |w.chain| && Running(w, data, |w.chain|, g, l) && Distinct(w.chain)
    requires !l.started && AllReady(w)
    ensures var p := PageOf(w.data, Last(w.chain));
            && Last(w.chain) in data && data[Last(w.chain)] == p && LastEnds(w, p, l, true) && LastEnds(w, p, l, false)
    ensures g.st.d == |g.st.ps| - 1 && Formed(g.st.ps[g.st.d]) && g.st.outs == Vacuumed(w.cap, g.st.es0)
    ensures !EndsPacking(w.cap, w.pages, w.blind) && g.st.es0 == SeenPages(w.pages, w.blind)
  {
    hide SeenFrom, SeenPages, Running, Mirror, AtEnd, Left, Vacuumed, AllPassed, LastEnds, EndsPacking, FinalCursor,
      FinalWrite, Formed, ClosesWell, EndIndex, AllReady, Distinct;
    RunAtEnd(w, data, g, l);
    RunFits(w, g.st, l);
    IdleAtEnd(g.st, l);
    ReadyLast(w);
    BlindLast(w, g.st, l, PageOf(w.data, Last(w.chain)), true);
    BlindLast(w, g.st, l, PageOf(w.data, Last(w.chain)), false);
    SuffixDistinct(w.chain, w.m);
    MirrorRest(g.data1, w.data, w.chain, g.pre, |w.chain| - 1);
    MirrorRest(data, g.data1, w.chain[w.m..], g.st.ps, |w.chain| - 1 - w.m);
  }

  // The run ends before a blind last page, not compacting: the page stays.
  lemma RunEndsBlind(w: Job, data: map<PageId, PageData>, g: Progress, l: Locals)
    requires Seen(w) && w.m < w.k < |w.chain| && Running(w, data, |w.chain|, g, l) && Distinct(w.chain)
    requires !l.started && AllReady(w)
    ensures Ends(w, data, g.pre + g.st.ps + [PageOf(w.data, Last(w.chain))], AfterVacuum(w.cap, w.pages, w.blind), l)
    ensures |AfterVacuum(w.cap, w.pages, w.blind)| == |w.chain|
  {
    hide SeenFrom, SeenPages, Swept, SweptPage, Running, Mirror, AtEnd, Left, Vacuumed, AllPassed, AfterVacuum,
      Leaves, LastEnds, EndsPacking, FinalCursor, FinalWrite, Formed, ClosesWell, EndIndex, FrontEnds, FitAfter,
      AllReady, Ready, CoreCompacted, Entries, Scannable, Distinct;
    var outs, p := AfterVacuum(w.cap, w.pages, w.blind), PageOf(w.data, Last(w.chain));
    RunJoined(w, data, g, l);
    BlindIsLast(w, data, g, l);
    RunAtEnd(w, data, g, l);
    CoreIsCompacted(w, g.st, l);
    AfterVacuumIs(w.cap, w.pages, w.blind);
    ReadyLast(w);
    var front := Swept(w.pages, w.blind, w.m) + g.st.outs;
    assert outs == front + [w.pages[|w.pages| - 1]];
    MirrorPush(data, w.data, w.chain, g.pre + g.st.ps, p);
    LeavesPush(w, g.pre + g.st.ps, front, p, w.pages[|w.pages| - 1]);
  }

  // The three ways to end.
  lemma ChainEnds(w: Job, data: map<PageId, PageData>, g: Progress, l: Locals, groups: PageGroupManager,
                  src: PageIterator, dst: PageIterator)
    returns (ps: seq<PageData>, outs: seq<seq<Entry>>)
    requires Seen(w) && AllReady(w) && Distinct(w.chain) && Passed(w, data, |w.chain|, g, l)
    requires Standing(groups, w, |w.chain|, g.st.d, l, src, dst)
    ensures Ends(w, data, ps, outs, l) && 0 < |outs| && OnPage(dst, groups, w.chain, |outs| - 1)
  {
    hide SeenFrom, SeenPages, AfterVacuum, AllReady, Ends, Distinct, AllPassed, Mirror, RunOf;
    outs := AfterVacuum(w.cap, w.pages, w.blind);
    if w.m == |w.chain| {
      ps := g.pre;
      AllPassedEnds(w, data, g, l);
    } else {
      RunLength(w, data, g, l);
      if l.started || w.k == |w.chain| {
        ps := g.pre + g.st.ps;
        RunEnds(w, data, g, l);
      } else {
        ps := g.pre + g.st.ps + [PageOf(w.data, Last(w.chain))];
        RunEndsBlind(w, data, g, l);
      }
    }
  }

  lemma RunLength(w: Job, data: map<PageId, PageData>, g: Progress, l: Locals)
    requires Seen(w) && w.m < w.k && Running(w, data, |w.chain|, g, l)
    ensures !l.started ==> w.m + g.st.d == w.k - 1
  {
    RunAtEnd(w, data, g, l);
    if !l.started {
      IdleTogether(g.st, l) by {
        AtEndGood(g.st, l);
      }
    }
  }

  lemma AtEndGood(st: State, l: Locals)
    requires AtEnd(st, l)
    ensures Good(st, l)
  {
  }

  // The compaction, up to the last write.
  method CompactGroup(self: PageDataManager, g: PageId, ghost stale: set<PageId>, ghost ill: set<PageId>,
                ghost ends: map<nat, nat>)
    returns (dst: PageIterator, l: Locals, ghost ps: seq<PageData>, ghost outs: seq<seq<Entry>>)
    requires self.Inv(stale, ill) && self.groups.IsGroup(g) && Blinds(self, g, ill, ends)
    requires |self.Pages(g)| > 0 ==> Sweepable(self.Pages(g), ends.Keys)
    modifies self`data
    ensures fresh(dst) && Distinct(self.groups.lists[g])
    ensures old(|self.Pages(g)|) == |self.groups.lists[g]| > 0
    ensures Ends(old(JobOf(self, g, ill)), self.data, ps, outs, l)
    ensures 0 < |outs| && OnPage(dst, self.groups, self.groups.lists[g], |outs| - 1)
  {
    hide PageDataManager.Inv, PageGroupManager.Inv, Split, AllReady, AllLive, NextChain, Passed, Ends, Sweepable,
      Seen, Blinds, SeenFrom, SeenPages;
    Snapshot(self, g, stale, ill, ends);
    ghost var w := JobOf(self, g, ill);
    SplitSeen(w);
    JobSeen(w);
    ChainDistinct(self.groups.links, w.chain);
    var src := new PageIterator(self.groups, g, false);
    dst := new PageIterator(self.groups, g, false);
    ghost var p;
    l, p := CompactChain(self, src, dst, w);
    ps, outs := ChainEnds(w, self.data, p, l, self.groups, src, dst);
  }

  lemma JobSeen(w: Job)
    requires Split(w) && w.m == SeenFrom(|w.pages|, w.blind) && w.pages[w.m..w.k] == SeenPages(w.pages, w.blind)
    requires w.k < |w.pages| <==> w.m < w.k && |w.pages| - 1 in w.blind
    ensures Seen(w)
  {
  }

  // The pointers of the last page after the last write, when they are wrong: what they were, as repaired; else 0
  // and what the destination index held.
  ghost predicate LastPointers(p: PageData, old': PageData, index: nat, repaired: bool)
  {
    p.freeStart == 0 && if repaired then p == old' else p.freeEnd == index
  }

  lemma SeenJob(self: PageDataManager, g: PageId, stale: set<PageId>, ill: set<PageId>, ends: map<nat, nat>)
    requires self.Inv(stale, ill) && self.groups.IsGroup(g) && Blinds(self, g, ill, ends)
    requires |self.Pages(g)| > 0 ==> Sweepable(self.Pages(g), ends.Keys)
    ensures |self.Pages(g)| == |self.groups.lists[g]| > 0 && Seen(JobOf(self, g, ill))
  {
    hide PageDataManager.Inv, PageDataManager.Pages, Split, AllReady, AllLive, NextChain, Sweepable, Blinds, SeenFrom,
      SeenPages;
    Snapshot(self, g, stale, ill, ends);
    self.NotEmpty(g, stale, ill);
    SplitSeen(JobOf(self, g, ill));
  }

  // The pages of g that stay with wrong pointers are where they are said to be.
  lemma BlindAtAfter(lists: Lists, place: map<PageId, Place>, n: nat, g: PageId, d: nat, ill: set<PageId>,
                     bad: set<nat>)
    requires Partition(lists, place, n) && g in lists && NULL_ID in lists && g != NULL_ID && d < |lists[g]|
    requires forall j :: j in bad ==> j <= d
    ensures var chain := Released(lists, g, d)[g];
            forall j: nat :: j in bad <==> j < |chain| && chain[j] in StillIll(ill, lists[g], bad)
  {
    ReleasedChain(lists, g, d);
    hide StillIll;
    forall j: nat | j <= d
      ensures j in bad <==> lists[g][j] in StillIll(ill, lists[g], bad)
    {
      IllAt(lists, place, n, g, j, ill, bad);
    }
  }

  // Afterwards: the blind pages that were passed are as they were, the pointers of a last page that is not fit.
  ghost predicate Pointers(w: Job, data: map<PageId, PageData>, n: nat, repaired: bool)
    requires 0 < n <= |w.chain| == |w.pages| && w.m <= |w.chain|
  {
    && (forall j :: 0 <= j < w.m && j < n - 1 && j in w.blind ==>
          w.chain[j] in data && data[w.chain[j]] == PageOf(w.data, w.chain[j]))
    && w.chain[n - 1] in data
    && (!FitAfter(w.cap, w.pages, w.blind, repaired) ==>
          LastPointers(data[w.chain[n - 1]], PageOf(w.data, Last(w.chain)), EndIndex(w.cap, w.pages, w.blind),
            repaired))
    && (|w.pages| - 1 !in w.blind && Formed(data[w.chain[n - 1]]) ==> FitAfter(w.cap, w.pages, w.blind, repaired))
    // no other page changes
    && (forall id :: id in w.data && id !in w.chain ==> id in data && data[id] == w.data[id])
  }

  lemma PointersAre(w: Job, ps: seq<PageData>, outs: seq<seq<Entry>>, l: Locals, repaired: bool,
                    data1: map<PageId, PageData>, data: map<PageId, PageData>)
    requires |w.pages| == |w.chain| > 0 && w.m <= |w.chain| && Ends(w, data1, ps, outs, l)
    requires 0 < |outs| <= |ps|
    requires Mirror(data, w.data, w.chain, ps[|outs| - 1 := Finished(ps[|outs| - 1], l, repaired)])
    ensures |outs| <= |w.chain| && Pointers(w, data, |outs|, repaired)
  {
    hide Leaves, AfterVacuum, FitAfter, Formed, EndIndex, Finished;
    var ps' := ps[|outs| - 1 := Finished(ps[|outs| - 1], l, repaired)];
    forall j | 0 <= j < |outs|
      ensures j < |w.chain| && w.chain[j] in data && data[w.chain[j]] == ps'[j]
    {
      MirrorAt(data, w.data, w.chain, ps', j);
    }
    forall id | id in w.data && id !in w.chain
      ensures id in data && data[id] == w.data[id]
    {
      assert id !in w.chain[..|ps'|];
    }
    hide Mirror;
  }

  lemma BadBounds(cap: nat, pages: seq<seq<Entry>>, blind: set<nat>, repaired: bool)
    requires |pages| > 0
    ensures var outs, bad := AfterVacuum(cap, pages, blind), BlindAfter(cap, pages, blind, repaired);
            && (forall j :: j in bad ==> j < |outs|)
            && (forall j :: 0 <= j < SeenFrom(|pages|, blind) && j in blind ==> j in bad)
            && (!FitAfter(cap, pages, blind, repaired) ==> |outs| - 1 in bad)
  {
    AfterLength(cap, pages, blind);
    hide AfterVacuum, FitAfter, SeenFrom;
  }

  lemma FrontBut(w: Job, ps: seq<PageData>, n: nat, bad: set<nat>)
    requires |w.pages| == |w.chain| && FrontEnds(w, ps, n)
    requires forall j :: 0 <= j < w.m && j in w.blind ==> j in bad
    ensures FormedBut(ps, n, bad)
  {
    hide Formed;
  }

  // Which pages may be wrong afterwards, for the last write and the release.
  lemma BadIs(w: Job, data: map<PageId, PageData>, ps: seq<PageData>, outs: seq<seq<Entry>>, l: Locals, repaired: bool)
    requires Seen(w) && |w.pages| == |w.chain| && Ends(w, data, ps, outs, l)
    ensures var bad := BlindAfter(w.cap, w.pages, w.blind, repaired);
            && Leaves(w.cap, ps, outs) && 0 < |outs| <= |ps| && FormedBut(ps, |outs| - 1, bad)
            && (forall j :: j in bad ==> j < |outs|)
            && (|outs| - 1 in bad || Formed(Finished(ps[|outs| - 1], l, repaired)))
            && Mirror(data, w.data, w.chain, ps) && outs == AfterVacuum(w.cap, w.pages, w.blind) && CoreCompacted(w)
  {
    hide Leaves, AfterVacuum, BlindAfter, FitAfter, Formed, EndIndex, Finished, Mirror, SeenFrom, SeenPages, Split,
      CoreCompacted, FrontEnds;
    LeavesBounds(w.cap, ps, outs);
    BadBounds(w.cap, w.pages, w.blind, repaired);
    FrontBut(w, ps, |outs| - 1, BlindAfter(w.cap, w.pages, w.blind, repaired));
  }

  // Valid again exactly when the head and the pages are right.
  lemma ValidIs(self: PageDataManager, g: PageId, stale: set<PageId>, ill: set<PageId>)
    requires self.Inv(stale, ill) && self.groups.IsGroup(g) && stale <= {g} && ill <= self.PageIds(g)
    ensures self.Valid() <==> Right(self, g)
  {
    if self.Valid() {
      ValidRight(self, g);
    } else if Right(self, g) {
      RightHead(self.groups, g, stale);
      RightPages(self, g, stale, ill);
    }
  }

  lemma ValidRight(self: PageDataManager, g: PageId)
    requires self.Valid() && self.groups.IsGroup(g)
    ensures Right(self, g)
  {
    hide PageDataManager.Inv, PageGroupManager.Inv, PageDataManager.Pages, Formed;
    self.GroupsValid({}, {});
    HeadLink(self.groups, g);
    forall j | 0 <= j < |self.groups.lists[g]|
      ensures self.groups.lists[g][j] in self.data && Formed(self.data[self.groups.lists[g][j]])
    {
      self.PageAt(g, j, {}, {});
    }
  }

  lemma RightHead(groups: PageGroupManager, g: PageId, stale: set<PageId>)
    requires groups.Inv(false, stale) && groups.IsGroup(g) && stale <= {g}
    requires g in groups.links && groups.links[g].previous == Last(groups.lists[g])
    ensures groups.Valid()
  {
    hide Partition;
    HeadPlace(groups.Head(), groups.lists, groups.place, g, stale);
  }

  lemma RightPages(self: PageDataManager, g: PageId, stale: set<PageId>, ill: set<PageId>)
    requires self.Inv(stale, ill) && self.groups.IsGroup(g) && ill <= self.PageIds(g) && Right(self, g)
    ensures DataInv(self.cap, self.data, self.groups.place, {})
  {
    hide Scannable, Formed, PageGroupManager.Inv;
    forall id | id in self.groups.place
      ensures PageInv(self.cap, self.data[id], self.groups.place[id], false)
    {
      assert PageInv(self.cap, self.data[id], self.groups.place[id], id in ill);
      if id in ill {
        var j :| 0 <= j < |self.groups.lists[g]| && self.groups.lists[g][j] == id;
      }
    }
  }

  // The head of g names the last page, and the free-space pointers of every page of g are right.
  ghost predicate Right(self: PageDataManager, g: PageId)
    reads self, self.groups
  {
    && g in self.groups.lists && g in self.groups.links && self.groups.links[g].previous == Last(self.groups.lists[g])
    && forall j :: 0 <= j < |self.groups.lists[g]| ==>
         self.groups.lists[g][j] in self.data && Formed(self.data[self.groups.lists[g][j]])
  }

  lemma HeadBefore(groups: PageGroupManager, g: PageId, stale: set<PageId>)
    requires groups.Inv(false, stale) && groups.IsGroup(g)
    ensures g in groups.links && (g !in stale ==> groups.links[g].previous == Last(groups.lists[g]))
  {
    StepReady(groups, g, 0, false, stale) by {
      HeadFirst(groups.lists, groups.place, groups.pageAmount, g);
    }
    HeadFirst(groups.lists, groups.place, groups.pageAmount, g);
    if g !in stale {
      ReadChain(groups.Head(), groups.lists, groups.place, g, stale);
      assert LinkAt(groups.links, groups.lists[g], 0);
    }
  }

  // The last write and the release, after the compaction of w.
  method FinishGroup(self: PageDataManager, dst: PageIterator, l: Locals, repaired: bool, g: PageId, ghost w: Job,
                     ghost ps: seq<PageData>, ghost outs: seq<seq<Entry>>, ghost stale: set<PageId>,
                     ghost ill: set<PageId>, ghost ends: map<nat, nat>)
    returns (ghost ill': set<PageId>)
    requires EndsIn(w, ends)
    requires self.groups.Inv(false, stale) && self.groups.IsGroup(g) && NULL_ID in self.groups.lists
    requires DataInv(self.cap, w.data, self.groups.place, ill) && w.chain == self.groups.lists[g] && w.cap == self.cap
    requires Seen(w) && |w.pages| == |w.chain| > 0 && w.m <= |w.chain| && Distinct(w.chain)
    requires Ends(w, self.data, ps, outs, l) && 0 < |outs| && OnPage(dst, self.groups, w.chain, |outs| - 1)
    modifies self`data, self.groups, dst
    ensures NULL_ID in old(self.groups.lists) && |outs| <= |w.chain|
    ensures AfterState(self, g, w.pages, ends, repaired, stale, ill') && self.Pages(g) == outs
    ensures self.groups.lists == Released(old(self.groups.lists), g, |outs| - 1) && CoreCompacted(w)
    ensures forall id :: id in ill' ==> id in self.groups.lists[g] || (id in ill && id !in w.chain)
    ensures PointersElse(w.data, self.data, w.chain, ill, ill')
    ensures Pointers(w, self.data, |outs|, repaired)
    ensures g in old(self.groups.links) && g in self.groups.links
    ensures !repaired ==> self.groups.links[g].previous == old(self.groups.links)[g].previous
    ensures forall h :: old(self.groups.IsGroup(h)) && h != g ==>
              self.groups.IsGroup(h) && self.groups.lists[h] == old(self.groups.lists)[h] &&
                self.Pages(h) == PagesOf(w.data, old(self.groups.lists)[h])
  {
    hide PageDataManager.Inv, PageDataManager.Pages, PageGroupManager.Inv, DataInv, Mirror, Leaves, Formed,
      AfterVacuum, BlindAfter, Released, PagesOf, Finished, CoreCompacted, Ends, Pointers, FormedBut, StillIll, Seen,
      Distinct, EndsAfter, Blinds, EndsIn, PointersElse, AfterState,
      Partition, OnPage, HeadsAfter;
    ghost var lists0, place0, n, data1 := self.groups.lists, self.groups.place, self.groups.pageAmount, self.data;
    PartitionOf(self.groups, stale);
    HeadBefore(self.groups, g, stale);
    BadIs(w, self.data, ps, outs, l, repaired);
    ghost var bad := BlindAfter(w.cap, w.pages, w.blind, repaired);
    FinishVacuum(self, dst, l, repaired, g, ps, outs, w.data, bad, stale, ill);
    ill' := StillIll(ill, w.chain, bad);
    PointersAre(w, ps, outs, l, repaired, data1, self.data);
    ReleasedChain(lists0, g, |outs| - 1);
    BlindAtAfter(lists0, place0, n, g, |outs| - 1, ill, bad);
    StillIllOut(ill, w.chain, bad, self.groups.lists[g]);
    ElseIs(w, self.data, |outs|, repaired, ill, ill');
    assert BlindAt(self, g, ill') == bad;
    BlindsAfter(self, g, ill', ends, w, repaired);
    EndsKeys(w, ends);
    AfterStateIs(self, g, w.pages, ends, repaired, stale, ill', w);
  }

  lemma EndsKeys(w: Job, ends: map<nat, nat>)
    requires EndsIn(w, ends)
    ensures ends.Keys == w.blind
  {
  }

  lemma AfterStateIs(self: PageDataManager, g: PageId, pages: seq<seq<Entry>>, ends: map<nat, nat>,
                     repaired: bool, stale: set<PageId>, ill: set<PageId>, w: Job)
    requires self.groups.IsGroup(g) && |pages| > 0
    requires self.Pages(g) == AfterVacuum(self.cap, pages, ends.Keys)
    requires self.Inv(HeadsAfter(stale, g, |self.Pages(g)| < |pages|, repaired), ill)
    requires Blinds(self, g, ill, EndsAfter(self.cap, pages, ends, repaired))
    requires w.pages == pages && w.cap == self.cap && ends.Keys == w.blind && |pages| == |w.chain| && w.m <= |w.chain|
    requires 0 < |self.Pages(g)| <= |pages| && Pointers(w, self.data, |self.Pages(g)|, repaired)
    requires self.groups.lists[g] == w.chain[..|self.Pages(g)|] && Distinct(w.chain) && g in self.groups.links
    requires !repaired && g !in stale ==> self.groups.links[g].previous == Last(w.chain)
    ensures AfterState(self, g, pages, ends, repaired, stale, ill)
  {
    hide AfterVacuum, FitAfter, Formed, Blinds, PageDataManager.Inv, PageDataManager.Pages;
  }

  // A group that was fit for writes is so again exactly in these cases.
  lemma ValidAfter(self: PageDataManager, g: PageId, pages: seq<seq<Entry>>, repaired: bool, ill: set<PageId>)
    requires AfterState(self, g, pages, map[], repaired, {}, ill) && ill <= self.PageIds(g)
    ensures self.Valid() <==> repaired || KeepsLayout(self.cap, pages)
  {
    hide PageDataManager.Inv, PageDataManager.Pages, PageGroupManager.Inv, Formed, AfterVacuum, ClosesWell, Vacuumed,
      FinalCursor, CursorAt, OutsAt, SeenFrom, SeenPages, FitAfter;
    var none: map<nat, nat> := map[];
    assert none.Keys == {};
    NoneBlind(self.cap, pages);
    KeepsLength(self.cap, pages);
    var stale := HeadsAfter({}, g, |self.Pages(g)| < |pages|, repaired);
    self.NotEmpty(g, stale, ill);
    if repaired || KeepsLayout(self.cap, pages) {
      assert BlindAt(self, g, ill) == BlindAfter(self.cap, pages, {}, repaired) == {};
      NoneIll(self, g, ill);
      assert stale == {} && ill == {};
    } else if |self.Pages(g)| < |pages| {
      if self.Valid() {
        self.GroupsValid({}, {});
        HeadLink(self.groups, g);
      }
    } else {
      assert AfterVacuum(self.cap, pages, none.Keys) == Vacuumed(self.cap, pages);
      assert |self.Pages(g)| == |pages| && FinalPage(self.cap, pages) == |pages| - 1;
      assert !FitAfter(self.cap, pages, none.Keys, repaired);
      MalformedPage(self, g, |self.groups.lists[g]| - 1);
    }
  }

  // The group after a vacuum of these pages, the heads and pages that may be wrong, and how.
  ghost predicate AfterState(self: PageDataManager, g: PageId, pages: seq<seq<Entry>>, ends: map<nat, nat>,
                             repaired: bool, stale: set<PageId>, ill: set<PageId>)
    reads self, self.groups
  {
    && self.groups.IsGroup(g) && |pages| > 0
    && self.Pages(g) == AfterVacuum(self.cap, pages, ends.Keys) && |self.Pages(g)| <= |pages|
    && self.Inv(HeadsAfter(stale, g, |self.Pages(g)| < |pages|, repaired), ill)
    && Blinds(self, g, ill, EndsAfter(self.cap, pages, ends, repaired))
    // no fewer
    && g in self.groups.links
    && (!repaired && g !in stale && |self.Pages(g)| < |pages| ==>
          self.groups.links[g].previous != Last(self.groups.lists[g]))
    && Last(self.groups.lists[g]) in self.data
    && (|pages| - 1 !in ends && Formed(self.data[Last(self.groups.lists[g])]) ==>
          FitAfter(self.cap, pages, ends.Keys, repaired))
  }

  lemma AfterPages(self: PageDataManager, g: PageId, pages: seq<seq<Entry>>, ends: map<nat, nat>, repaired: bool,
                   stale: set<PageId>, ill: set<PageId>)
    requires AfterState(self, g, pages, ends, repaired, stale, ill)
    ensures |pages| > 0 && self.groups.IsGroup(g) && self.Pages(g) == AfterVacuum(self.cap, pages, ends.Keys)
  {
  }

  // Outside the chain no pointers change, nor which of them are wrong.
  ghost predicate PointersElse(data0: map<PageId, PageData>, data: map<PageId, PageData>, chain: seq<PageId>,
                               ill0: set<PageId>, ill: set<PageId>)
  {
    forall id :: id in data0 && id !in chain ==>
      && id in data && data[id].freeStart == data0[id].freeStart && data[id].freeEnd == data0[id].freeEnd
      && (id in ill <==> id in ill0)
  }

  lemma ElseIs(w: Job, data: map<PageId, PageData>, n: nat, repaired: bool, ill0: set<PageId>, ill: set<PageId>)
    requires 0 < n <= |w.chain| == |w.pages| && w.m <= |w.chain| && Pointers(w, data, n, repaired)
    requires forall id :: id !in w.chain ==> (id in ill <==> id in ill0)
    ensures PointersElse(w.data, data, w.chain, ill0, ill)
  {
  }

  lemma DataKeys(cap: nat, data: map<PageId, PageData>, place: map<PageId, Place>, ill: set<PageId>)
    requires DataInv(cap, data, place, ill)
    ensures data.Keys == place.Keys && forall id :: id in place ==> id in data
  {
  }

  lemma VacuumStart(self: PageDataManager, g: PageId, stale: set<PageId>, ill: set<PageId>, ends: map<nat, nat>)
    requires self.Inv(stale, ill) && self.groups.IsGroup(g) && Blinds(self, g, ill, ends)
    requires |self.Pages(g)| > 0 ==> Sweepable(self.Pages(g), ends.Keys)
    ensures self.groups.Inv(false, stale) && NULL_ID in self.groups.lists
    ensures DataInv(self.cap, self.data, self.groups.place, ill) && Distinct(self.groups.lists[g])
    ensures Partition(self.groups.lists, self.groups.place, self.groups.pageAmount)
    ensures forall id :: id in self.groups.place ==> id in self.data
    ensures var w := JobOf(self, g, ill);
            Seen(w) && EndsIn(w, ends) && |w.pages| == |w.chain| > 0 && w.m <= |w.chain|
  {
    hide PageDataManager.Inv, PageDataManager.Pages, PageGroupManager.Inv, DataInv, Blinds, Sweepable, EndsIn,
      SeenFrom, SeenPages, GroupsInv;
    self.GroupsValid(stale, ill);
    PartitionOf(self.groups, stale);
    DataKeys(self.cap, self.data, self.groups.place, ill);
    SeenJob(self, g, stale, ill, ends);
    EndsOf(self, g, ill, ends, JobOf(self, g, ill));
    ReadNext(self.groups.Head(), self.groups.lists, self.groups.place, g, stale);
  }

  // page_data_manager_vacuum. With `repaired`, two changes to the code: the final write is skipped
  // when nothing is being compacted, and the head is pointed back to the new last page.
  method Vacuum(self: PageDataManager, g: PageId, repaired: bool, ghost stale: set<PageId>, ghost ill: set<PageId>,
                ghost ends: map<nat, nat>)
    returns (ghost ill': set<PageId>)
    requires self.Inv(stale, ill) && self.groups.IsGroup(g) && Blinds(self, g, ill, ends)
    requires |self.Pages(g)| > 0 ==> Sweepable(self.Pages(g), ends.Keys)
    modifies self`data, self.groups
    ensures var w := old(JobOf(self, g, ill));
            && |w.pages| == |w.chain| > 0
            && AfterState(self, g, w.pages, ends, repaired, stale, ill') && CoreCompacted(w)
            // the tail goes to the end of the free list, in order
            && NULL_ID in old(self.groups.lists) && |self.Pages(g)| <= |w.chain|
            && self.groups.lists == Released(old(self.groups.lists), g, |self.Pages(g)| - 1)
            // which pages may be wrong afterwards
            && (forall id :: id in ill' ==> id in self.groups.lists[g] || (id in ill && id !in w.chain))
            && PointersElse(w.data, self.data, w.chain, ill, ill')
            && w.m <= |w.chain| && Pointers(w, self.data, |self.Pages(g)|, repaired)
    ensures g in old(self.groups.links) && g in self.groups.links
    ensures !repaired ==> self.groups.links[g].previous == old(self.groups.links)[g].previous
    ensures forall h :: old(self.groups.IsGroup(h)) && h != g ==>
              self.groups.IsGroup(h) && self.groups.lists[h] == old(self.groups.lists)[h] &&
                self.Pages(h) == old(self.Pages(h))
    ensures forall h, e :: h in old(self.groups.lists) && h != g ==>
              BlindsIn(old(self.data), old(self.groups.lists)[h], ill, e) ==>
                BlindsIn(self.data, old(self.groups.lists)[h], ill', e)
  {
    hide PageDataManager.Inv, PageGroupManager.Inv, DataInv, AfterVacuum, BlindAfter, Released, PagesOf,
      CoreCompacted, Ends, Pointers, Blinds, Sweepable, Seen, SeenFrom, SeenPages, Distinct, EndsIn, EndsAfter,
      PointersElse, AfterState, BlindsIn, Partition;
    VacuumStart(self, g, stale, ill, ends);
    ghost var w, place0, n0 := JobOf(self, g, ill), self.groups.place, self.groups.pageAmount;
    var dst, l;
    ghost var ps, outs;
    dst, l, ps, outs := CompactGroup(self, g, stale, ill, ends);
    ill' := FinishGroup(self, dst, l, repaired, g, w, ps, outs, stale, ill, ends);
    forall h, e | h in old(self.groups.lists) && h != g && BlindsIn(w.data, old(self.groups.lists)[h], ill, e)
      ensures BlindsIn(self.data, old(self.groups.lists)[h], ill', e)
    {
      OtherBlinds(old(self.groups.lists), place0, n0, g, h, w.data, self.data, ill, ill', e);
    }
  }

  lemma OtherBlinds(lists: Lists, place: map<PageId, Place>, n: nat, g: PageId, h: PageId,
                    data0: map<PageId, PageData>, data: map<PageId, PageData>, ill0: set<PageId>, ill: set<PageId>,
                    ends: map<nat, nat>)
    requires Partition(lists, place, n) && g in lists && h in lists && g != h
    requires (forall id :: id in place ==> id in data0) && PointersElse(data0, data, lists[g], ill0, ill)
    requires BlindsIn(data0, lists[h], ill0, ends)
    ensures BlindsIn(data, lists[h], ill, ends)
  {
    hide BlindsIn, Partition;
    forall j | 0 <= j < |lists[h]|
      ensures lists[h][j] in data0 && lists[h][j] !in lists[g]
    {
      PlaceOf(lists, place, n, h, j);
      NotInOther(lists, place, n, g, h, j);
    }
    BlindsFrame(data0, data, lists[h], ill0, ill, ends);
  }

  // A store that is fit for writes is so again exactly in these cases.
  method VacuumValid(self: PageDataManager, g: PageId, repaired: bool)
    requires self.Valid() && self.groups.IsGroup(g)
    modifies self`data, self.groups
    ensures |old(self.Pages(g))| > 0 && self.groups.IsGroup(g)
    ensures self.Pages(g) == Vacuumed(self.cap, old(self.Pages(g)))
    ensures Compacted(self.cap, old(self.Pages(g)), self.Pages(g))
    // a page has the rows it had, or the first of the next page, with a slot, does not fit behind its own
    ensures |self.Pages(g)| <= |old(self.Pages(g))|
    ensures forall j {:trigger self.Pages(g)[j]} :: 0 <= j < |self.Pages(g)| - 1 ==>
              var es0, es, next := old(self.Pages(g))[j], self.Pages(g)[j], self.Pages(g)[j + 1];
              || (|es| == |es0| && forall i :: 0 <= i < |es| ==>
                    es[i].payload == es0[i].payload && (IsNew(es0[i].flags) || !IsDeleted(es0[i].flags)))
              || (next != [] && SLOT_SIZE * (|es| + 1) + Used(es) + |next[0].payload| > self.cap)
    ensures self.Valid() <==> repaired || KeepsLayout(self.cap, old(self.Pages(g)))
  {
    hide PageDataManager.Inv, PageDataManager.Pages, PageGroupManager.Inv, DataInv, AfterVacuum, BlindAfter, Released,
      Pointers, Compacted, Vacuumed, KeepsLayout, Sweepable, EndsAfter, Seen, SeenFrom, SeenPages, Distinct,
      AfterState, CoreCompacted;
    ghost var w := JobOf(self, g, {});
    ValidStart(self, g);
    ghost var ill := Vacuum(self, g, repaired, {}, {}, map[]);
    NoneBlind(w.cap, w.pages);
    AfterPages(self, g, w.pages, map[], repaired, {}, ill);
    CoreIs(w);
    CompactedTight(w.cap, w.pages, Vacuumed(w.cap, w.pages));
    ValidAfter(self, g, w.pages, repaired, ill);
  }

  lemma CompactedTight(cap: nat, before: seq<seq<Entry>>, after: seq<seq<Entry>>)
    requires Compacted(cap, before, after)
    ensures |after| <= |before|
    ensures forall j {:trigger after[j]} :: 0 <= j < |after| - 1 ==>
              var es0, es, next := before[j], after[j], after[j + 1];
              || (|es| == |es0| && forall i :: 0 <= i < |es| ==>
                    es[i].payload == es0[i].payload && (IsNew(es0[i].flags) || !IsDeleted(es0[i].flags)))
              || (next != [] && SLOT_SIZE * (|es| + 1) + Used(es) + |next[0].payload| > cap)
  {
    forall j {:trigger after[j]} | 0 <= j < |after| - 1
      ensures var es0, es, next := before[j], after[j], after[j + 1];
              || (|es| == |es0| && forall i :: 0 <= i < |es| ==>
                    es[i].payload == es0[i].payload && (IsNew(es0[i].flags) || !IsDeleted(es0[i].flags)))
              || (next != [] && SLOT_SIZE * (|es| + 1) + Used(es) + |next[0].payload| > cap)
    {
      assert PageTight(cap, before, after, j);
      SurviveFull(before[j], |before[j]|);
      if after[j + 1] != [] {
        UsedAppend(after[j], after[j + 1][0]);
      }
    }
  }

  // A page that keeps as many entries as it had keeps these.
  lemma {:induction false} SurviveFull(es: seq<Entry>, n: nat)
    requires n <= |es|
    ensures |SurviveTo(es, n)| <= n
    ensures |SurviveTo(es, n)| == n ==> forall i :: 0 <= i < n ==>
              Live(es[i]) && SurviveTo(es, n)[i].payload == es[i].payload
  {
    if n > 0 {
      SurviveFull(es, n - 1);
    }
  }

  lemma ValidStart(self: PageDataManager, g: PageId)
    requires self.Valid() && self.groups.IsGroup(g)
    ensures |self.Pages(g)| > 0 && Sweepable(self.Pages(g), {}) && Blinds(self, g, {}, map[])
    ensures BlindAt(self, g, {}) == {} && Distinct(self.groups.lists[g]) && NULL_ID in self.groups.lists
    ensures g in self.groups.links && self.groups.links[g].previous == Last(self.groups.lists[g])
  {
    hide PageDataManager.Inv, PageDataManager.Pages, PageGroupManager.Inv, Linked, Partition, Vacuumed;
    self.GroupsValid({}, {});
    self.NotEmpty(g, {}, {});
    ReadNext(self.groups.Head(), self.groups.lists, self.groups.place, g, {});
    HeadLink(self.groups, g);
    NoneBlind(self.cap, self.Pages(g));
  }

  lemma CoreIs(w: Job)
    requires |w.pages| > 0 && w.blind == {} && CoreCompacted(w)
    ensures Compacted(w.cap, w.pages, Vacuumed(w.cap, w.pages))
  {
    NoneBlind(w.cap, w.pages);
  }

  lemma KeepsLength(cap: nat, pages: seq<seq<Entry>>)
    requires |pages| > 0
    ensures |Vacuumed(cap, pages)| == FinalPage(cap, pages) + 1
  {
    OutsLength(cap, pages, |pages| - 1, |pages[|pages| - 1]|);
  }

  lemma NoneIll(self: PageDataManager, g: PageId, ill: set<PageId>)
    requires g in self.groups.lists && BlindAt(self, g, ill) == {}
    requires forall id :: id in ill ==> id in self.groups.lists[g]
    ensures ill == {}
  {
  }

  // The ends of the blind pages, by the pages before.
  ghost predicate EndsIn(w: Job, ends: map<nat, nat>)
  {
    && ends.Keys == w.blind
    && forall j :: j in ends ==>
         j < |w.chain| && PageOf(w.data, w.chain[j]).freeStart == 0 && PageOf(w.data, w.chain[j]).freeEnd == ends[j]
  }

  lemma EndsOf(self: PageDataManager, g: PageId, ill: set<PageId>, ends: map<nat, nat>, w: Job)
    requires g in self.groups.lists && Blinds(self, g, ill, ends) && w == JobOf(self, g, ill)
    ensures EndsIn(w, ends)
  {
  }

  lemma BlindsAfter(self: PageDataManager, g: PageId, ill: set<PageId>, ends: map<nat, nat>, w: Job, repaired: bool)
    requires EndsIn(w, ends) && |w.pages| == |w.chain| > 0 && w.m <= |w.chain| && Seen(w)
    requires g in self.groups.lists && 0 < |self.groups.lists[g]| <= |w.chain|
    requires self.groups.lists[g] == w.chain[..|self.groups.lists[g]|]
    requires |self.groups.lists[g]| == |AfterVacuum(w.cap, w.pages, w.blind)|
    requires BlindAt(self, g, ill) == BlindAfter(w.cap, w.pages, w.blind, repaired)
    requires Pointers(w, self.data, |self.groups.lists[g]|, repaired)
    ensures Blinds(self, g, ill, EndsAfter(w.cap, w.pages, ends, repaired))
  {
    hide AfterVacuum, FitAfter, EndIndex, SeenFrom, SeenPages, Formed, Split;
    var n, ends' := |self.groups.lists[g]|, EndsAfter(w.cap, w.pages, ends, repaired);
    AfterLength(w.cap, w.pages, w.blind);
    RepairedLast(w.cap, w.pages, w.blind);
    forall j | j in ends'
      ensures 0 <= j < n && w.chain[j] in self.data
      ensures self.data[w.chain[j]].freeStart == 0 && self.data[w.chain[j]].freeEnd == ends'[j]
    {
      if j < n - 1 {
        assert j < w.m && j in w.blind;
      } else if SeenPages(w.pages, w.blind) == [] {
        NoneSeen(w.cap, w.pages, w.blind, repaired);
      }
    }
  }

  lemma StillIllOut(ill: set<PageId>, chain: seq<PageId>, bad: set<nat>, chain': seq<PageId>)
    requires |chain'| <= |chain| && chain' == chain[..|chain'|] && forall j :: j in bad ==> j < |chain'|
    ensures forall id :: id in StillIll(ill, chain, bad) ==> id in chain' || (id in ill && id !in chain)
    ensures forall id :: id !in chain ==> (id in StillIll(ill, chain, bad) <==> id in ill)
  {
  }
}
