/** Scans of the table manager that change the group they iterate over. */
module Tables {
  import opened Bytes
  import opened SlottedPage
  import opened PageLists
  import opened PageStorage
  import opened ItemScan
  import opened Compaction
  import opened VacuumResult
  import opened VacuumRows
  import V = Vacuum
  import opened ScanEffects

  // A change at a position the cursor has left leaves the iterator ready, also when the chain grows.
  lemma ReadyAfter(it: ItemIterator, chain: seq<PageId>, pages: seq<seq<Entry>>, chain': seq<PageId>,
                   pages': seq<seq<Entry>>,
                   p: nat, i: nat)
    requires it.Ready(chain, pages) && Touches(pages, pages', p, i) && Beyond(it.Where(), p, i)
    requires chain <= chain' && |chain'| == |pages'|
    ensures it.Ready(chain', pages')
  {
  }

  lemma SetTouches(pages: seq<seq<Entry>>, p: nat, i: nat, x: Entry)
    requires p < |pages| && i < |pages[p]| && (Visible(x) ==> Visible(pages[p][i]))
    ensures Touches(pages, SetEntry(pages, p, i, x), p, i)
  {
  }

  lemma MarkedOnVisible(pred: seq<byte> -> bool)
    ensures OnVisible(Marked(pred))
  {
  }

  // Writing back the entry it finds changes nothing.
  lemma SetSame(pages: seq<seq<Entry>>, j: nat, k: nat)
    requires j < |pages| && k < |pages[j]|
    ensures SetEntry(pages, j, k, pages[j][k]) == pages
  {
    assert pages[j][k := pages[j][k]] == pages[j];
  }

  // The scan of table_manager_delete: matching items are flagged.
  method MarkWhere(self: PageDataManager, g: PageId, pred: seq<byte> -> bool, ghost stale: set<PageId>,
                   ghost ill: set<PageId>)
    requires self.Inv(stale, ill) && self.groups.IsGroup(g)
    modifies self`data
    ensures self.Inv(stale, ill)
    ensures self.Pages(g) == MapPages(Marked(pred), old(self.Pages(g)))
    // entry by entry: what is visible and matches gets the deleted bit
    ensures |self.Pages(g)| == |old(self.Pages(g))|
    ensures forall j :: 0 <= j < |self.Pages(g)| ==> |self.Pages(g)[j]| == |old(self.Pages(g))[j]|
    ensures forall j, k :: 0 <= j < |self.Pages(g)| && 0 <= k < |self.Pages(g)[j]| ==>
              var e := old(self.Pages(g))[j][k];
              self.Pages(g)[j][k] == if !IsDeleted(e.flags) && !IsNew(e.flags) && pred(e.payload)
                                     then Entry(e.flags + DELETED_MASK, e.payload) else e
    ensures forall h :: self.groups.IsGroup(h) && h != g ==> self.Pages(h) == old(self.Pages(h))
    ensures PointersKept(old(self.data), self.data)
  {
    hide PageDataManager.Inv, PageDataManager.Pages, Advanced, Applied, OnVisible, MapPages, Visible, RestAt, Passed,
      VisibleFrom, Touches, Beyond;
    ghost var f, pages0, chain := Marked(pred), self.Pages(g), self.groups.lists[g];
    MarkedOnVisible(pred);
    var it := new ItemIterator(self, g);
    it.Begin(g, stale, ill);
    AppliedStart(f, pages0, it.Where());
    while it.HasNext()
      invariant it.manager == self && fresh(it) && fresh(it.pageIt)
      invariant self.Inv(stale, ill) && it.Ready(chain, self.Pages(g))
      invariant Applied(f, pages0, self.Pages(g), it.Where())
      invariant forall h :: self.groups.IsGroup(h) && h != g ==> self.Pages(h) == old(self.Pages(h))
      invariant PointersKept(old(self.data), self.data)
      decreases |RestAt(self.Pages(g), it.Where())|
    {
      ghost var pages := self.Pages(g);
      var ok, item := it.Next(g, stale, ill);
      ghost var j, k := it.curPos, it.currentIndex;
      AdvancedRest(pages, On(j, k), it.Where());
      AppliedStep(f, pages0, pages, j, k, it.Where(), SetEntry(pages, j, k, f(pages[j][k])));
      if pred(item) {
        it.DeleteItem(g, stale, ill);
        AdvancedBeyond(pages, j, k, it.Where());
        SetTouches(pages, j, k, f(pages[j][k]));
        ReadyAfter(it, chain, pages, chain, self.Pages(g), j, k);
        TouchesRest(pages, self.Pages(g), j, k, it.Where());
      } else {
        SetSame(pages, j, k);
      }
    }
    AppliedEnd(f, pages0, self.Pages(g));
    MarkedAt(pred, pages0);
  }

  lemma MarkedAt(pred: seq<byte> -> bool, pages: seq<seq<Entry>>)
    ensures var pages' := MapPages(Marked(pred), pages);
            && |pages'| == |pages|
            && (forall j :: 0 <= j < |pages'| ==> |pages'[j]| == |pages[j]|)
            && (forall j, k :: 0 <= j < |pages'| && 0 <= k < |pages'[j]| ==>
                  var e := pages[j][k];
                  pages'[j][k] == if !IsDeleted(e.flags) && !IsNew(e.flags) && pred(e.payload)
                                  then Entry(e.flags + DELETED_MASK, e.payload) else e)
  {
  }

  // A scan keeps the pointers of blind pages.
  lemma ScannedBlinds(data0: map<PageId, PageData>, data: map<PageId, PageData>)
    requires PointersKept(data0, data)
    ensures forall chain, ill, ends :: V.BlindsIn(data0, chain, ill, ends) ==> V.BlindsIn(data, chain, ill, ends)
  {
    hide V.BlindsIn;
    forall chain, ill, ends | V.BlindsIn(data0, chain, ill, ends)
      ensures V.BlindsIn(data, chain, ill, ends)
    {
      V.BlindsFrame(data0, data, chain, ill, ill, ends);
    }
  }

  // table_manager_delete: scan, deletion marks and compaction together leave exactly what is
  // pending and what does not match, in the order it was in.
  method DeleteWhere(self: PageDataManager, g: PageId, pred: seq<byte> -> bool, repaired: bool,
                     ghost stale: set<PageId>, ghost ill: set<PageId>, ghost ends: map<nat, nat>)
    returns (ghost ill': set<PageId>, ghost at: seq<nat>)
    requires self.Inv(stale, ill) && self.groups.IsGroup(g) && V.Blinds(self, g, ill, ends)
    requires |self.Pages(g)| > 0 ==> Sweepable(MapPages(Marked(pred), self.Pages(g)), ends.Keys)
    modifies self`data, self.groups
    ensures V.AfterState(self, g, MapPages(Marked(pred), old(self.Pages(g))), ends, repaired, stale, ill')
    ensures LiveRows(self.Pages(g)) + LostRows(self.cap, MapPages(Marked(pred), old(self.Pages(g))), ends.Keys) ==
            KeptAll(pred, old(self.Pages(g)), |old(self.Pages(g))|)
    ensures Settled(old(self.Pages(g))) ==>
              KeptAll(pred, old(self.Pages(g)), |old(self.Pages(g))|) == Reject(pred, LiveRows(old(self.Pages(g))))
    // with nothing pending: row i is the one that was at at[i], and no row that does not match is missing
    ensures Settled(old(self.Pages(g))) ==>
              var before, after := LiveRows(old(self.Pages(g))), LiveRows(self.Pages(g)) +
                LostRows(self.cap, MapPages(Marked(pred), old(self.Pages(g))), ends.Keys);
              && |after| == |at| && (forall i, j :: 0 <= i < j < |at| ==> at[i] < at[j])
              && (forall i :: 0 <= i < |at| ==>
                    at[i] < |before| && !pred(before[at[i]]) && after[i] == before[at[i]])
              && (forall k :: 0 <= k < |before| && !pred(before[k]) ==> k in at)
              && (forall row :: multiset(after)[row] == if pred(row) then 0 else multiset(before)[row])
    ensures ends == map[] ==> Clean(self.Pages(g))
    ensures forall h :: old(self.groups.IsGroup(h)) && h != g ==>
              self.groups.IsGroup(h) && self.groups.lists[h] == old(self.groups.lists)[h] &&
                self.Pages(h) == old(self.Pages(h))
    // fit for writes again exactly when the vacuum leaves it so
    ensures stale == {} && ill == {} ==>
              (self.Valid() <==> repaired || V.KeepsLayout(self.cap, MapPages(Marked(pred), old(self.Pages(g)))))
    ensures forall h, e :: h in old(self.groups.lists) && h != g ==>
              V.BlindsIn(old(self.data), old(self.groups.lists)[h], ill, e) ==>
                V.BlindsIn(self.data, old(self.groups.lists)[h], ill', e)
  {
    hide PageDataManager.Inv, PageDataManager.Pages, MapPages, KeptAll, Sweepable, V.AfterState, V.PointersElse,
      V.Pointers, V.CoreCompacted, V.Released, LiveRows, LostRows, PointersKept, AfterVacuum, V.BlindsIn, Clean,
      Settled, Reject, Marked;
    ghost var pages0, data0 := self.Pages(g), self.data;
    MarkWhere(self, g, pred, stale, ill);
    MappedLength(Marked(pred), pages0);
    self.NotEmpty(g, stale, ill);
    ScannedBlinds(data0, self.data);
    ghost var pages, chain := self.Pages(g), self.groups.lists[g];
    V.BlindKeys(self, g, ill, ends);
    ill' := V.Vacuum(self, g, repaired, stale, ill, ends);
    VacuumRowsKept(self.cap, pages, ends.Keys);
    V.AfterPages(self, g, pages, ends, repaired, stale, ill');
    MarkedRows(pred, pages0);
    at := RejectIs(pred, LiveRows(pages0));
    RejectCount(pred, LiveRows(pages0));
    if ends == map[] {
      CleanAfter(self.cap, pages, ends.Keys);
    }
    if stale == {} && ill == {} {
      NoneBlindEnds(chain, ill, ends);
      V.ValidAfter(self, g, pages, repaired, ill');
    }
  }

  // Nothing is flagged after a vacuum that looked at every page.
  lemma CleanAfter(cap: nat, pages: seq<seq<Entry>>, blind: set<nat>)
    requires |pages| > 0 && blind == {}
    ensures Clean(AfterVacuum(cap, pages, blind))
  {
    NoneBlind(cap, pages);
    LiveVacuumed(cap, pages);
    hide AfterVacuum, Vacuumed;
  }

  lemma NoneBlindEnds(chain: seq<PageId>, ill: set<PageId>, ends: map<nat, nat>)
    requires ill == {} && ends.Keys == V.BlindIn(chain, ill)
    ensures ends == map[]
  {
    assert V.BlindIn(chain, ill) == {};
  }

  lemma MarkedRows(pred: seq<byte> -> bool, pages: seq<seq<Entry>>)
    ensures LiveRows(MapPages(Marked(pred), pages)) == KeptAll(pred, pages, |pages|)
    ensures Settled(pages) ==> KeptAll(pred, pages, |pages|) == Reject(pred, LiveRows(pages))
  {
    SurviveAllMarked(pred, pages, |pages|);
    MappedLength(Marked(pred), pages);
    if Settled(pages) {
      KeptSettled(pred, pages, |pages|);
    }
  }

  lemma MappedLength(f: Entry -> Entry, pages: seq<seq<Entry>>)
    ensures |MapPages(f, pages)| == |pages|
  {
  }

  // ---- UPDATE, in place ----

  // record_serialize_into over one matching item: the bytes go from the start of its payload up.
  function PatchStep(pred: seq<byte> -> bool, upd: seq<byte> -> seq<byte>): ScanStep
  {
    (pages: seq<seq<Entry>>, p: nat, i: nat, row: seq<byte>) =>
      if pred(row) && p < |pages| && i < |pages[p]| then pages[p := Overlaid(pages[p], i, upd(row))] else pages
  }

  // No update runs over the end of its page.
  ghost predicate StaysInPage(pages: seq<seq<Entry>>, pred: seq<byte> -> bool, upd: seq<byte> -> seq<byte>)
  {
    forall j, k :: 0 <= j < |pages| && 0 <= k < |pages[j]| ==>
      var e := pages[j][k]; Visible(e) && pred(e.payload) ==> |upd(e.payload)| <= UsedTo(pages[j], k + 1)
  }

  lemma PatchTouches(pages: seq<seq<Entry>>, p: nat, i: nat, b: seq<byte>)
    requires p < |pages| && i < |pages[p]|
    ensures Touches(pages, pages[p := Overlaid(pages[p], i, b)], p, i)
  {
    forall k | 0 <= k < |pages[p]|
      ensures Overlaid(pages[p], i, b)[k].flags == pages[p][k].flags
      ensures (k > i ==> Overlaid(pages[p], i, b)[k] == pages[p][k])
    {
      OverlaidAt(pages[p], i, b, k);
    }
    hide Overlaid;
  }

  // No payload changes its size.
  ghost predicate SizesKept(pages0: seq<seq<Entry>>, pages: seq<seq<Entry>>)
  {
    && |pages| == |pages0|
    && (forall j :: 0 <= j < |pages| ==> |pages[j]| == |pages0[j]|)
    && (forall j, k :: 0 <= j < |pages| && 0 <= k < |pages[j]| ==> |pages[j][k].payload| == |pages0[j][k].payload|)
  }

  lemma PatchKeepsSizes(pages0: seq<seq<Entry>>, pages: seq<seq<Entry>>, p: nat, i: nat, b: seq<byte>)
    requires SizesKept(pages0, pages) && p < |pages| && i < |pages[p]|
    ensures SizesKept(pages0, pages[p := Overlaid(pages[p], i, b)])
  {
    forall k | 0 <= k < |pages[p]|
      ensures |Overlaid(pages[p], i, b)[k].payload| == |pages[p][k].payload|
    {
      OverlaidAt(pages[p], i, b, k);
    }
    hide Overlaid;
  }

  // The row under the cursor has the room it had at the start.
  lemma RoomAtStart(step: ScanStep, pred: seq<byte> -> bool, upd: seq<byte> -> seq<byte>, pages0: seq<seq<Entry>>,
                    pages: seq<seq<Entry>>, p: nat, i: nat)
    requires Walking(step, pages0, pages, On(p, i)) && SizesKept(pages0, pages) && StaysInPage(pages0, pred, upd)
    requires p < |pages| && i < |pages[p]| && Visible(pages[p][i]) && pred(pages[p][i].payload)
    ensures |upd(pages[p][i].payload)| <= UsedTo(pages[p], i + 1)
  {
    hide Walked;
    assert pages[p][i] == pages0[p][i];
    UsedPrefix(pages[p], pages0[p], i + 1);
  }

  // The scan of table_manager_update with the in-place flag.
  method PatchScan(self: PageDataManager, g: PageId, pred: seq<byte> -> bool, upd: seq<byte> -> seq<byte>,
                   ghost stale: set<PageId>, ghost ill: set<PageId>)
    requires self.Inv(stale, ill) && self.groups.IsGroup(g)
    requires StaysInPage(self.Pages(g), pred, upd)
    modifies self`data
    ensures self.Inv(stale, ill)
    ensures self.Pages(g) == WalkedAll(PatchStep(pred, upd), old(self.Pages(g)))
    ensures forall h :: self.groups.IsGroup(h) && h != g ==> self.Pages(h) == old(self.Pages(h))
    ensures PointersKept(old(self.data), self.data)
  {
    hide PageDataManager.Inv, PageDataManager.Pages, Advanced, Visible, RestAt, VisibleFrom, Walking, StaysInPage,
      SizesKept, Touches, Beyond, Overlaid, UsedTo, Walked;
    ghost var step, pages0, chain := PatchStep(pred, upd), self.Pages(g), self.groups.lists[g];
    SizesSame(pages0);
    var it := new ItemIterator(self, g);
    it.Begin(g, stale, ill);
    WalkingStart(step, pages0, it.Where());
    while it.HasNext()
      invariant it.manager == self && fresh(it) && fresh(it.pageIt)
      invariant self.Inv(stale, ill) && it.Ready(chain, self.Pages(g))
      invariant Walking(step, pages0, self.Pages(g), it.Where()) && SizesKept(pages0, self.Pages(g))
      invariant forall h :: self.groups.IsGroup(h) && h != g ==> self.Pages(h) == old(self.Pages(h))
      invariant PointersKept(old(self.data), self.data)
      decreases |RestAt(self.Pages(g), it.Where())|
    {
      ghost var pages := self.Pages(g);
      var ok, item := it.Next(g, stale, ill);
      ghost var j, k := it.curPos, it.currentIndex;
      AdvancedRest(pages, On(j, k), it.Where());
      AdvancedBeyond(pages, j, k, it.Where());
      if pred(item) {
        RoomAtStart(step, pred, upd, pages0, pages, j, k);
        it.OverwriteItem(upd(item), g, stale, ill);
        PatchTouches(pages, j, k, upd(item));
        PatchKeepsSizes(pages0, pages, j, k, upd(item));
      } else {
        SetTouches(pages, j, k, pages[j][k]);
        SetSame(pages, j, k);
      }
      ReadyAfter(it, chain, pages, chain, self.Pages(g), j, k);
      TouchesRest(pages, self.Pages(g), j, k, it.Where());
      WalkingNext(step, pages0, pages, j, k, it.Where(), self.Pages(g));
    }
    WalkingEnd(step, pages0, self.Pages(g));
  }

  // What it does to the rows.
  method PatchWhere(self: PageDataManager, g: PageId, pred: seq<byte> -> bool, upd: seq<byte> -> seq<byte>,
                    ghost stale: set<PageId>, ghost ill: set<PageId>)
    requires self.Inv(stale, ill) && self.groups.IsGroup(g)
    requires StaysInPage(self.Pages(g), pred, upd)
    modifies self`data
    ensures self.Inv(stale, ill)
    ensures self.Pages(g) == WalkedAll(PatchStep(pred, upd), old(self.Pages(g)))
    // when no row grows, entry by entry: a match starts with its update and ends as it did, the others stay
    ensures |self.Pages(g)| == |old(self.Pages(g))|
    ensures forall j :: 0 <= j < |self.Pages(g)| ==> |self.Pages(g)[j]| == |old(self.Pages(g))[j]|
    ensures (forall j, k :: 0 <= j < |old(self.Pages(g))| && 0 <= k < |old(self.Pages(g))[j]| ==>
               var e := old(self.Pages(g))[j][k];
               !IsDeleted(e.flags) && !IsNew(e.flags) && pred(e.payload) ==> |upd(e.payload)| <= |e.payload|) ==>
              forall j, k :: 0 <= j < |self.Pages(g)| && 0 <= k < |self.Pages(g)[j]| ==>
                var e, e' := old(self.Pages(g))[j][k], self.Pages(g)[j][k];
                if !IsDeleted(e.flags) && !IsNew(e.flags) && pred(e.payload)
                then e'.flags == e.flags && e'.payload == upd(e.payload) + e.payload[|upd(e.payload)|..]
                else e' == e
    // when a single row matches, of any length: what its bytes make of its page
    ensures forall j, k ::
              (0 <= j < |old(self.Pages(g))| && 0 <= k < |old(self.Pages(g))[j]| &&
              (forall x, y :: 0 <= x < |old(self.Pages(g))| && 0 <= y < |old(self.Pages(g))[x]| ==>
                 var e := old(self.Pages(g))[x][y];
                 (!IsDeleted(e.flags) && !IsNew(e.flags) && pred(e.payload) <==> x == j && y == k))) ==>
                self.Pages(g) ==
                old(self.Pages(g))[j := Overlaid(old(self.Pages(g))[j], k, upd(old(self.Pages(g))[j][k].payload))]
    ensures forall h :: self.groups.IsGroup(h) && h != g ==> self.Pages(h) == old(self.Pages(h))
    ensures PointersKept(old(self.data), self.data)
  {
    hide PageDataManager.Inv, PageDataManager.Pages, WalkedAll, PatchStep, StaysInPage, IsDeleted, IsNew, Overlaid;
    ghost var pages0 := self.Pages(g);
    PatchScan(self, g, pred, upd, stale, ill);
    PatchedAlone(pred, upd, pages0);
    PatchedOnce(pred, upd, pages0);
  }

  // ---- what a patching scan comes to ----

  // Entry (j, k) is visible and matches.
  predicate Match(pages: seq<seq<Entry>>, pred: seq<byte> -> bool, j: nat, k: nat)
  {
    j < |pages| && k < |pages[j]| && Visible(pages[j][k]) && pred(pages[j][k].payload)
  }

  // The matching entries before (j, k) are patched one after the other in scan order, each on the pages that the
  // ones before it left.
  lemma {:induction false} PatchedInOrder(pred: seq<byte> -> bool, upd: seq<byte> -> seq<byte>, pages: seq<seq<Entry>>,
                                          j: nat, k: nat)
    returns (at: seq<(nat, nat)>, states: seq<seq<seq<Entry>>>)
    requires j < |pages| && k <= |pages[j]|
    ensures Patchings(pred, upd, pages, at, states, j, k)
    ensures |states| == |at| + 1 && states[|at|] == Walked(PatchStep(pred, upd), pages, j, k)
    decreases j, k
  {
    hide Patchings, Overlaid;
    if k > 0 {
      at, states := PatchedInOrder(pred, upd, pages, j, k - 1);
      PatchOneMore(pred, upd, pages, at, states, j, k - 1);
      if Match(pages, pred, j, k - 1) {
        var now := states[|at|];
        at, states := at + [(j, k - 1)], states + [now[j := Overlaid(now[j], k - 1, upd(pages[j][k - 1].payload))]];
      }
    } else if j > 0 {
      at, states := PatchedInOrder(pred, upd, pages, j - 1, |pages[j - 1]|);
      PatchNextPage(pred, upd, pages, at, states, j - 1);
    } else {
      at, states := [], [pages];
      NonePatched(pred, upd, pages);
    }
  }

  lemma PatchNextPage(pred: seq<byte> -> bool, upd: seq<byte> -> seq<byte>, pages: seq<seq<Entry>>,
                      at: seq<(nat, nat)>, states: seq<seq<seq<Entry>>>, j: nat)
    requires j < |pages| && Patchings(pred, upd, pages, at, states, j, |pages[j]|)
    ensures Patchings(pred, upd, pages, at, states, j + 1, 0)
  {
    hide SizesKept, PatchedAt, Visible;
  }

  lemma NonePatched(pred: seq<byte> -> bool, upd: seq<byte> -> seq<byte>, pages: seq<seq<Entry>>)
    ensures Patchings(pred, upd, pages, [], [pages], 0, 0)
  {
    SizesSame(pages);
  }

  ghost predicate Patchings(pred: seq<byte> -> bool, upd: seq<byte> -> seq<byte>, pages: seq<seq<Entry>>,
                            at: seq<(nat, nat)>, states: seq<seq<seq<Entry>>>, j: nat, k: nat)
  {
    && |states| == |at| + 1 && states[0] == pages && (forall m :: 0 <= m < |states| ==> SizesKept(pages, states[m]))
    // the matching entries, in order, all of them
    && (forall m :: 0 <= m < |at| ==> Match(pages, pred, at[m].0, at[m].1) && Earlier(at[m].0, at[m].1, j, k))
    && (forall m, n :: 0 <= m < n < |at| ==> Earlier(at[m].0, at[m].1, at[n].0, at[n].1))
    && (forall x: nat, y: nat :: Match(pages, pred, x, y) && Earlier(x, y, j, k) ==> (x, y) in at)
    && (forall m :: 0 <= m < |at| ==> PatchedAt(upd, pages, states[m], at[m].0, at[m].1, states[m + 1]))
  }

  lemma PatchOneMore(pred: seq<byte> -> bool, upd: seq<byte> -> seq<byte>, pages: seq<seq<Entry>>,
                     at: seq<(nat, nat)>, states: seq<seq<seq<Entry>>>, j: nat, k: nat)
    requires Patchings(pred, upd, pages, at, states, j, k) && j < |pages| && k < |pages[j]|
    ensures var now := states[|at|];
            && SizesKept(pages, now)
            && if Match(pages, pred, j, k)
               then Patchings(pred, upd, pages, at + [(j, k)],
                      states + [now[j := Overlaid(now[j], k, upd(pages[j][k].payload))]], j, k + 1)
               else Patchings(pred, upd, pages, at, states, j, k + 1)
  {
    var now := states[|at|];
    if Match(pages, pred, j, k) {
      PatchKeepsSizes(pages, now, j, k, upd(pages[j][k].payload));
      assert PatchedAt(upd, pages, now, j, k, now[j := Overlaid(now[j], k, upd(pages[j][k].payload))]);
    }
    hide SizesKept, Overlaid, PatchedAt, Match;
  }

  // The bytes of one update, of any length, go over entry (j, k) and, past its payload, over the entries before it.
  ghost predicate PatchedAt(upd: seq<byte> -> seq<byte>, pages0: seq<seq<Entry>>, pages: seq<seq<Entry>>, j: nat,
                            k: nat, pages': seq<seq<Entry>>)
  {
    && j < |pages0| == |pages| && k < |pages0[j]| == |pages[j]|
    && pages' == pages[j := Overlaid(pages[j], k, upd(pages0[j][k].payload))]
  }

  lemma PatchedOnce(pred: seq<byte> -> bool, upd: seq<byte> -> seq<byte>, pages: seq<seq<Entry>>)
    ensures forall j, k ::
              (0 <= j < |pages| && 0 <= k < |pages[j]| &&
              (forall x, y :: 0 <= x < |pages| && 0 <= y < |pages[x]| ==>
                 var e := pages[x][y];
                 (!IsDeleted(e.flags) && !IsNew(e.flags) && pred(e.payload) <==> x == j && y == k))) ==>
                WalkedAll(PatchStep(pred, upd), pages) ==
                pages[j := Overlaid(pages[j], k, upd(pages[j][k].payload))]
  {
    forall j, k | 0 <= j < |pages| && 0 <= k < |pages[j]| &&
      (forall x, y :: 0 <= x < |pages| && 0 <= y < |pages[x]| ==>
         var e := pages[x][y];
         (!IsDeleted(e.flags) && !IsNew(e.flags) && pred(e.payload) <==> x == j && y == k))
      ensures WalkedAll(PatchStep(pred, upd), pages) ==
              pages[j := Overlaid(pages[j], k, upd(pages[j][k].payload))]
    {
      var at, states := PatchedInOrder(pred, upd, pages, |pages| - 1, |pages[|pages| - 1]|);
      hide Walked, PatchStep, Overlaid;
      assert Match(pages, pred, j, k);
      assert (j, k) in at;
      assert forall m :: 0 <= m < |at| ==> Match(pages, pred, at[m].0, at[m].1) && at[m] == (j, k);
      if |at| > 1 {
        TwoDiffer(at);
      }
      assert PatchedAt(upd, pages, states[0], at[0].0, at[0].1, states[1]);
    }
  }

  lemma TwoDiffer(at: seq<(nat, nat)>)
    requires |at| > 1 && forall m, n :: 0 <= m < n < |at| ==> Earlier(at[m].0, at[m].1, at[n].0, at[n].1)
    ensures at[0] != at[1]
  {
    assert Earlier(at[0].0, at[0].1, at[1].0, at[1].1);
  }

  // When no row grows, what each entry becomes.
  lemma PatchedAlone(pred: seq<byte> -> bool, upd: seq<byte> -> seq<byte>, pages: seq<seq<Entry>>)
    ensures var pages' := WalkedAll(PatchStep(pred, upd), pages);
            && |pages'| == |pages| && (forall j :: 0 <= j < |pages'| ==> |pages'[j]| == |pages[j]|)
            && ((forall j, k :: 0 <= j < |pages| && 0 <= k < |pages[j]| ==>
                   var e := pages[j][k];
                   !IsDeleted(e.flags) && !IsNew(e.flags) && pred(e.payload) ==> |upd(e.payload)| <= |e.payload|) ==>
                  forall j, k :: 0 <= j < |pages'| && 0 <= k < |pages'[j]| ==>
                    var e, e' := pages[j][k], pages'[j][k];
                    if !IsDeleted(e.flags) && !IsNew(e.flags) && pred(e.payload)
                    then e'.flags == e.flags && e'.payload == upd(e.payload) + e.payload[|upd(e.payload)|..]
                    else e' == e)
  {
    if pages != [] {
      var at, states := PatchedInOrder(pred, upd, pages, |pages| - 1, |pages[|pages| - 1]|);
    }
    if NoneGrows(pages, pred, upd) {
      PatchedIsMapped(pred, upd, pages);
      hide WalkedAll, PatchStep;
    }
  }

  lemma SizesSame(pages: seq<seq<Entry>>)
    ensures SizesKept(pages, pages)
  {
  }

  lemma WalkingEnd(step: ScanStep, pages0: seq<seq<Entry>>, pages: seq<seq<Entry>>)
    requires Walking(step, pages0, pages, End)
    ensures pages == WalkedAll(step, pages0)
  {
  }

  // ---- in place, when no row grows ----

  // New bytes in front, what they do not cover stays.
  function Updated(pred: seq<byte> -> bool, upd: seq<byte> -> seq<byte>): Entry -> Entry
  {
    (e: Entry) =>
      if Visible(e) && pred(e.payload) && |upd(e.payload)| <= |e.payload| then WithPatch(e, upd(e.payload)) else e
  }

  ghost predicate NoneGrows(pages: seq<seq<Entry>>, pred: seq<byte> -> bool, upd: seq<byte> -> seq<byte>)
  {
    forall j, k :: 0 <= j < |pages| && 0 <= k < |pages[j]| ==>
      var e := pages[j][k]; Visible(e) && pred(e.payload) ==> |upd(e.payload)| <= |e.payload|
  }

  lemma NoneGrowsStays(pages: seq<seq<Entry>>, pred: seq<byte> -> bool, upd: seq<byte> -> seq<byte>)
    requires NoneGrows(pages, pred, upd)
    ensures StaysInPage(pages, pred, upd)
  {
  }

  // The pages with f applied to every position before (j, k).
  ghost predicate MappedTo(f: Entry -> Entry, pages0: seq<seq<Entry>>, pages: seq<seq<Entry>>, j: nat, k: nat)
  {
    && |pages| == |pages0|
    && (forall x :: 0 <= x < |pages| ==> |pages[x]| == |pages0[x]|)
    && (forall x, y :: 0 <= x < |pages| && 0 <= y < |pages[x]| ==>
          pages[x][y] == if Earlier(x, y, j, k) then f(pages0[x][y]) else pages0[x][y])
  }

  // One position more.
  lemma MappedMore(f: Entry -> Entry, pages0: seq<seq<Entry>>, pages: seq<seq<Entry>>, j: nat, k: nat)
    requires MappedTo(f, pages0, pages, j, k) && j < |pages0| && k < |pages0[j]|
    ensures j < |pages| && k < |pages[j]| && pages[j][k] == pages0[j][k]
    ensures MappedTo(f, pages0, SetEntry(pages, j, k, f(pages[j][k])), j, k + 1)
  {
  }

  // A step of the scan at an entry that does not grow.
  lemma PatchOne(pred: seq<byte> -> bool, upd: seq<byte> -> seq<byte>, pages: seq<seq<Entry>>, j: nat, k: nat)
    requires j < |pages| && k < |pages[j]|
    requires var e := pages[j][k]; Visible(e) && pred(e.payload) ==> |upd(e.payload)| <= |e.payload|
    ensures var e := pages[j][k];
            (if Visible(e) then PatchStep(pred, upd)(pages, j, k, e.payload) else pages) ==
            SetEntry(pages, j, k, Updated(pred, upd)(e))
  {
    var e := pages[j][k];
    if Visible(e) && pred(e.payload) {
      OverlaidShort(pages[j], k, upd(e.payload));
    } else {
      assert pages[j][k := e] == pages[j];
    }
    hide Overlaid;
  }

  lemma {:induction false} PatchedTo(pred: seq<byte> -> bool, upd: seq<byte> -> seq<byte>, pages: seq<seq<Entry>>,
                                     j: nat, k: nat)
    requires NoneGrows(pages, pred, upd) && j < |pages| && k <= |pages[j]|
    ensures MappedTo(Updated(pred, upd), pages, Walked(PatchStep(pred, upd), pages, j, k), j, k)
    decreases j, k
  {
    var step, f := PatchStep(pred, upd), Updated(pred, upd);
    if k > 0 {
      PatchedTo(pred, upd, pages, j, k - 1);
      var now := Walked(step, pages, j, k - 1);
      MappedMore(f, pages, now, j, k - 1);
      PatchOne(pred, upd, now, j, k - 1);
      hide MappedTo, PatchStep, Updated;
    } else if j > 0 {
      PatchedTo(pred, upd, pages, j - 1, |pages[j - 1]|);
    }
  }

  // When no row grows, each matching row is patched by itself.
  lemma PatchedIsMapped(pred: seq<byte> -> bool, upd: seq<byte> -> seq<byte>, pages: seq<seq<Entry>>)
    requires NoneGrows(pages, pred, upd)
    ensures WalkedAll(PatchStep(pred, upd), pages) == MapPages(Updated(pred, upd), pages)
  {
    if pages != [] {
      var after := WalkedAll(PatchStep(pred, upd), pages);
      PatchedTo(pred, upd, pages, |pages| - 1, |pages[|pages| - 1]|);
      forall x | 0 <= x < |pages|
        ensures after[x] == MapPages(Updated(pred, upd), pages)[x]
      {
      }
    }
  }

  // ---- UPDATE, by deleting and reinserting ----

  function UpdateRow(pred: seq<byte> -> bool, upd: seq<byte> -> seq<byte>, row: seq<byte>): seq<byte>
  {
    if pred(row) then upd(row) else row
  }

  // Every matching row replaced by its update.
  function UpdateRows(pred: seq<byte> -> bool, upd: seq<byte> -> seq<byte>, rows: seq<seq<byte>>): seq<seq<byte>>
  {
    Map(row => UpdateRow(pred, upd, row), rows)
  }

  // The item at (p, i) deleted and its update inserted; an update over the item size is lost.
  function ReplacedAt(cap: nat, pages: seq<seq<Entry>>, p: nat, i: nat, row: seq<byte>): seq<seq<Entry>>
    requires p < |pages| && i < |pages[p]|
  {
    var marked := SetEntry(pages, p, i, WithDeleted(pages[p][i]));
    if |row| <= cap then InsertInto(marked, InsertPosition(cap, marked, |row|), NewEntry(row, true)) else marked
  }

  function ReinsertStep(cap: nat, pred: seq<byte> -> bool, upd: seq<byte> -> seq<byte>): ScanStep
  {
    (pages: seq<seq<Entry>>, p: nat, i: nat, row: seq<byte>) =>
      if pred(row) && p < |pages| && i < |pages[p]| then ReplacedAt(cap, pages, p, i, upd(row)) else pages
  }

  lemma ReplacedTouches(cap: nat, pages: seq<seq<Entry>>, p: nat, i: nat, row: seq<byte>)
    requires p < |pages| && i < |pages[p]|
    ensures Touches(pages, ReplacedAt(cap, pages, p, i, row), p, i)
  {
    assert !Visible(WithDeleted(pages[p][i])) && !Visible(NewEntry(row, true));
    hide Roomy, InsertPosition;
  }

  lemma DeletedIsNotLive(e: Entry)
    requires Visible(e)
    ensures !Visible(WithDeleted(e)) && LiveOne(WithDeleted(e)) == multiset{} && LiveOne(e) == multiset{e.payload}
  {
  }

  lemma NewIsLive(item: seq<byte>)
    ensures !Visible(NewEntry(item, true)) && LiveOne(NewEntry(item, true)) == multiset{item}
  {
  }

  // One more row dealt with.
  lemma RowDone(cap: nat, pred: seq<byte> -> bool, upd: seq<byte> -> seq<byte>, done: seq<Entry>, e: Entry)
    ensures Payloads(done + [e]) == Payloads(done) + [e.payload]
    ensures ReinsertedRows(cap, pred, upd, Payloads(done + [e])) ==
            ReinsertedRows(cap, pred, upd, Payloads(done)) + Reinserted(cap, pred, upd, e.payload)
  {
    assert Payloads(done + [e]) == Payloads(done) + [e.payload];
    assert (Payloads(done) + [e.payload])[..|done|] == Payloads(done);
  }

  lemma BalanceKept(now: multiset<seq<byte>>, done: seq<seq<byte>>, before: multiset<seq<byte>>,
                    kept: multiset<seq<byte>>,
                    now': multiset<seq<byte>>, row: seq<byte>, row': multiset<seq<byte>>)
    requires now + multiset(done) == before + kept
    requires now' + multiset{row} == now + row'
    ensures now' + multiset(done + [row]) == before + (kept + row')
  {
    forall x
      ensures (now' + multiset(done + [row]))[x] == (before + (kept + row'))[x]
    {
      assert (now + multiset(done))[x] == (before + kept)[x];
      assert (now' + multiset{row})[x] == (now + row')[x];
    }
  }

  // No page of g has wrong pointers.
  ghost predicate AllRight(self: PageDataManager, g: PageId, ill: set<PageId>)
    requires g in self.groups.lists
    reads self.groups
  {
    forall j :: 0 <= j < |self.groups.lists[g]| ==> self.groups.lists[g][j] !in ill
  }

  ghost predicate IllPointersKept(data0: map<PageId, PageData>, data: map<PageId, PageData>, ill: set<PageId>)
  {
    forall id :: id in ill && id in data0 ==>
      id in data && data[id].freeStart == data0[id].freeStart && data[id].freeEnd == data0[id].freeEnd
  }

  // Delete the current item and insert its update as a new one. The insertion's error is ignored: an
  // update over the item size is lost.
  method ReplaceItem(self: PageDataManager, g: PageId, it: ItemIterator, row: seq<byte>, ghost stale: set<PageId>,
                     ghost ill: set<PageId>)
    requires self.Inv(stale, ill) && self.groups.IsGroup(g) && it.manager == self
    requires g !in stale && AllRight(self, g, ill)
    requires it.Ready(self.groups.lists[g], self.Pages(g)) && it.OnItem(g)
    requires Beyond(it.Where(), it.curPos, it.currentIndex) && Visible(self.Pages(g)[it.curPos][it.currentIndex])
    requires Insertable(self.cap, row)
    modifies self`data, self.groups
    ensures self.Inv(stale, ill) && self.groups.IsGroup(g) && AllRight(self, g, ill)
    ensures IllPointersKept(old(self.data), self.data, ill)
    ensures it.Ready(self.groups.lists[g], self.Pages(g))
    ensures self.Pages(g) == ReplacedAt(self.cap, old(self.Pages(g)), it.curPos, it.currentIndex, row)
    ensures AllLive(self.Pages(g)) + multiset{old(self.Pages(g)[it.curPos][it.currentIndex]).payload} ==
            AllLive(old(self.Pages(g))) + if |row| <= self.cap then multiset{row} else multiset{}
    ensures forall h :: old(self.groups.IsGroup(h)) && h != g ==>
              self.groups.IsGroup(h) && self.groups.lists[h] == old(self.groups.lists[h]) &&
                self.Pages(h) == old(self.Pages(h))
  {
    hide PageDataManager.Inv, PageDataManager.Pages, Visible, RestAt, Beyond, Touches, VisibleFrom, AllLive, LiveOne,
      Live;
    ghost var pages, chain, j, k := self.Pages(g), self.groups.lists[g], it.curPos, it.currentIndex;
    ghost var e := pages[j][k];
    DeletedIsNotLive(e);
    it.DeleteItem(g, stale, ill);
    BagSetEntry(pages, j, k, WithDeleted(e));
    ghost var marked := self.Pages(g);
    ghost var at := InsertPosition(self.cap, marked, |row|);
    NewIsLive(row);
    self.TargetOf(g, |row|, {}, stale, ill);
    var ok := self.Insert(g, row, false, stale, ill);
    assert ok && at < |chain| ==> self.groups.lists[g][at] == chain[at] && chain[at] !in ill;
    assert ok ==> self.Pages(g) == InsertInto(marked, at, NewEntry(row, true));
    self.NotEmpty(g, stale, ill);
    ReplacedTouches(self.cap, pages, j, k, row);
    ReadyAfter(it, chain, pages, self.groups.lists[g], self.Pages(g), j, k);
    if ok {
      BagInsertInto(marked, at, NewEntry(row, true));
      BagReplaced(AllLive(pages), AllLive(marked), AllLive(self.Pages(g)), e.payload, row);
    }
  }

  lemma BagReplaced(a: multiset<seq<byte>>, b: multiset<seq<byte>>, c: multiset<seq<byte>>, row: seq<byte>,
                    row': seq<byte>)
    requires b + multiset{row} == a + multiset{} && c == b + multiset{row'}
    ensures c + multiset{row} == a + multiset{row'}
  {
    assert c + multiset{row} == (b + multiset{row}) + multiset{row'};
    assert a + multiset{} == a;
  }

  // The item limit leaves out the slot: an item between the limit and the room there is breaks its page.
  predicate Insertable(cap: nat, row: seq<byte>)
  {
    |row| + SLOT_SIZE <= cap || |row| > cap
  }

  // What a row becomes: itself, its update, or nothing when the update is over the item size.
  function Reinserted(cap: nat, pred: seq<byte> -> bool, upd: seq<byte> -> seq<byte>,
                      row: seq<byte>): multiset<seq<byte>>
  {
    if !pred(row) then multiset{row} else if |upd(row)| <= cap then multiset{upd(row)} else multiset{}
  }

  function ReinsertedRows(cap: nat, pred: seq<byte> -> bool, upd: seq<byte> -> seq<byte>,
                          rows: seq<seq<byte>>): multiset<seq<byte>>
  {
    if rows == [] then multiset{}
    else ReinsertedRows(cap, pred, upd, rows[..|rows| - 1]) + Reinserted(cap, pred, upd, rows[|rows| - 1])
  }

  // No row is lost exactly when no update of a matching row is over the item size.
  lemma {:induction false} ReinsertedSize(cap: nat, pred: seq<byte> -> bool, upd: seq<byte> -> seq<byte>,
                                          rows: seq<seq<byte>>)
    ensures |ReinsertedRows(cap, pred, upd, rows)| <= |rows|
    ensures |ReinsertedRows(cap, pred, upd, rows)| == |rows| <==>
            forall i :: 0 <= i < |rows| ==> pred(rows[i]) ==> |upd(rows[i])| <= cap
  {
    if rows != [] {
      var n := |rows| - 1;
      ReinsertedSize(cap, pred, upd, rows[..n]);
      ReinsertedOne(cap, pred, upd, rows[n]);
      assert |ReinsertedRows(cap, pred, upd, rows)| ==
             |ReinsertedRows(cap, pred, upd, rows[..n])| + |Reinserted(cap, pred, upd, rows[n])|;
      hide Reinserted, ReinsertedRows;
      assert forall i :: 0 <= i < n ==> rows[..n][i] == rows[i];
    }
  }

  lemma ReinsertedOne(cap: nat, pred: seq<byte> -> bool, upd: seq<byte> -> seq<byte>, row: seq<byte>)
    ensures |Reinserted(cap, pred, upd, row)| == if pred(row) ==> |upd(row)| <= cap then 1 else 0
  {
  }

  lemma UpdateRowsLast(pred: seq<byte> -> bool, upd: seq<byte> -> seq<byte>, rows: seq<seq<byte>>)
    requires rows != []
    ensures UpdateRows(pred, upd, rows) ==
            UpdateRows(pred, upd, rows[..|rows| - 1]) + [UpdateRow(pred, upd, rows[|rows| - 1])]
  {
  }

  // They are the rows at the positions whose update is not over the item size, each with its update put in if it
  // matches.
  lemma ReinsertedIs(cap: nat, pred: seq<byte> -> bool, upd: seq<byte> -> seq<byte>, rows: seq<seq<byte>>)
    returns (at: seq<nat>, after: seq<seq<byte>>)
    ensures multiset(after) == ReinsertedRows(cap, pred, upd, rows)
    ensures |at| == |after| && (forall i, j :: 0 <= i < j < |at| ==> at[i] < at[j])
    ensures forall i :: 0 <= i < |at| ==>
              && at[i] < |rows| && after[i] == if pred(rows[at[i]]) then upd(rows[at[i]]) else rows[at[i]]
    ensures forall k :: 0 <= k < |rows| ==> (k in at <==> (pred(rows[k]) ==> |upd(rows[k])| <= cap))
  {
    at, after := ReinsertedBecame(cap, pred, upd, rows);
    hide ReinsertedRows;
  }

  lemma ReinsertedBecame(cap: nat, pred: seq<byte> -> bool, upd: seq<byte> -> seq<byte>, rows: seq<seq<byte>>)
    returns (at: seq<nat>, after: seq<seq<byte>>)
    ensures multiset(after) == ReinsertedRows(cap, pred, upd, rows)
    ensures Became(cap, pred, upd, rows, |rows|, at, after)
  {
    hide Became, ReinsertedRows;
    at, after := [], [];
    NoneBecame(cap, pred, upd, rows);
    for n := 0 to |rows|
      invariant Became(cap, pred, upd, rows, n, at, after)
      invariant multiset(after) == ReinsertedRows(cap, pred, upd, rows[..n])
    {
      BecameMore(cap, pred, upd, rows, n, at, after);
      ReinsertedLast(cap, pred, upd, rows, n);
      if pred(rows[n]) ==> |upd(rows[n])| <= cap {
        at, after := at + [n], after + [if pred(rows[n]) then upd(rows[n]) else rows[n]];
      }
    }
    assert rows[..|rows|] == rows;
  }

  // The rows before n.
  ghost predicate Became(cap: nat, pred: seq<byte> -> bool, upd: seq<byte> -> seq<byte>, rows: seq<seq<byte>>, n: nat,
                         at: seq<nat>, after: seq<seq<byte>>)
  {
    && n <= |rows| && |at| == |after| && (forall i, j :: 0 <= i < j < |at| ==> at[i] < at[j])
    && (forall i :: 0 <= i < |at| ==>
          at[i] < n && after[i] == if pred(rows[at[i]]) then upd(rows[at[i]]) else rows[at[i]])
    && (forall k :: 0 <= k < n ==> (k in at <==> (pred(rows[k]) ==> |upd(rows[k])| <= cap)))
  }

  lemma NoneBecame(cap: nat, pred: seq<byte> -> bool, upd: seq<byte> -> seq<byte>, rows: seq<seq<byte>>)
    ensures Became(cap, pred, upd, rows, 0, [], []) && ReinsertedRows(cap, pred, upd, rows[..0]) == multiset{}
  {
  }

  lemma BecameMore(cap: nat, pred: seq<byte> -> bool, upd: seq<byte> -> seq<byte>, rows: seq<seq<byte>>, n: nat,
                   at: seq<nat>, after: seq<seq<byte>>)
    requires Became(cap, pred, upd, rows, n, at, after) && n < |rows|
    ensures var row := rows[n];
            if pred(row) ==> |upd(row)| <= cap
            then Became(cap, pred, upd, rows, n + 1, at + [n], after + [if pred(row) then upd(row) else row])
            else Became(cap, pred, upd, rows, n + 1, at, after)
  {
    PlacesMore(at, n);
  }

  lemma ReinsertedLast(cap: nat, pred: seq<byte> -> bool, upd: seq<byte> -> seq<byte>, rows: seq<seq<byte>>, n: nat)
    requires n < |rows|
    ensures ReinsertedRows(cap, pred, upd, rows[..n + 1]) ==
            ReinsertedRows(cap, pred, upd, rows[..n]) +
            if pred(rows[n]) ==> |upd(rows[n])| <= cap
            then multiset{if pred(rows[n]) then upd(rows[n]) else rows[n]} else multiset{}
  {
    assert rows[..n + 1][..n] == rows[..n];
  }

  // Then each matching row is replaced by its update.
  lemma {:induction false} ReinsertedIsUpdate(cap: nat, pred: seq<byte> -> bool, upd: seq<byte> -> seq<byte>,
                                              rows: seq<seq<byte>>)
    requires forall i :: 0 <= i < |rows| ==> pred(rows[i]) ==> |upd(rows[i])| <= cap
    ensures ReinsertedRows(cap, pred, upd, rows) == multiset(UpdateRows(pred, upd, rows))
  {
    if rows != [] {
      var n := |rows| - 1;
      ReinsertedIsUpdate(cap, pred, upd, rows[..n]);
      UpdateRowsLast(pred, upd, rows);
      hide UpdateRows;
      assert pred(rows[n]) ==> |upd(rows[n])| <= cap;
      assert Reinserted(cap, pred, upd, rows[n]) == multiset{UpdateRow(pred, upd, rows[n])};
      hide Reinserted, UpdateRow;
    }
  }

  // The rows an update may meet all leave room for their slot once updated, or are over the limit.
  ghost predicate AllFit(cap: nat, pages: seq<seq<Entry>>, pred: seq<byte> -> bool, upd: seq<byte> -> seq<byte>)
  {
    forall i :: 0 <= i < |VisibleFrom(pages, 0, 0)| ==>
      var row := VisibleFrom(pages, 0, 0)[i].payload; pred(row) ==> Insertable(cap, upd(row))
  }

  // Rows met so far and still to come make up the rows at the start, in order; the rows now
  // differ from those at the start by the updates of the rows met.
  ghost predicate Progress(cap: nat, pred: seq<byte> -> bool, upd: seq<byte> -> seq<byte>, pages0: seq<seq<Entry>>,
                           pages: seq<seq<Entry>>, met: seq<Entry>, c: ScanCursor)
  {
    && VisibleFrom(pages0, 0, 0) == met + RestAt(pages, c)
    && AllLive(pages) + multiset(Payloads(met)) == AllLive(pages0) + ReinsertedRows(cap, pred, upd, Payloads(met))
  }

  lemma ProgressStart(cap: nat, pred: seq<byte> -> bool, upd: seq<byte> -> seq<byte>, pages: seq<seq<Entry>>,
                      c: ScanCursor)
    requires Advanced(pages, Start, c)
    ensures Progress(cap, pred, upd, pages, pages, [], c)
  {
    hide AllLive, VisibleFrom, Advanced;
    AdvancedRest(pages, Start, c);
  }

  lemma ProgressNext(cap: nat, pred: seq<byte> -> bool, upd: seq<byte> -> seq<byte>, pages0: seq<seq<Entry>>,
                     pages: seq<seq<Entry>>, met: seq<Entry>, j: nat, k: nat, c: ScanCursor, pages': seq<seq<Entry>>)
    requires Progress(cap, pred, upd, pages0, pages, met, On(j, k)) && Advanced(pages, On(j, k), c)
    requires j < |pages| && k < |pages[j]| && Visible(pages[j][k])
    requires RestAt(pages', c) == RestAt(pages, c)
    requires AllLive(pages') + multiset{pages[j][k].payload} == AllLive(pages) +
             Reinserted(cap, pred, upd, pages[j][k].payload)
    ensures Progress(cap, pred, upd, pages0, pages', met + [pages[j][k]], c)
  {
    hide AllLive, VisibleFrom, Advanced, Visible, RestAt, ReinsertedRows, Reinserted, Payloads;
    var e := pages[j][k];
    AdvancedRest(pages, On(j, k), c);
    assert met + ([e] + RestAt(pages, c)) == met + [e] + RestAt(pages, c);
    RowDone(cap, pred, upd, met, e);
    BalanceKept(AllLive(pages), Payloads(met), AllLive(pages0), ReinsertedRows(cap, pred, upd, Payloads(met)),
      AllLive(pages'), e.payload, Reinserted(cap, pred, upd, e.payload));
  }

  // The row under the cursor is one of the rows at the start.
  lemma MetFits(cap: nat, pred: seq<byte> -> bool, upd: seq<byte> -> seq<byte>, pages0: seq<seq<Entry>>,
                pages: seq<seq<Entry>>, met: seq<Entry>, j: nat, k: nat, c: ScanCursor)
    requires Progress(cap, pred, upd, pages0, pages, met, On(j, k)) && Advanced(pages, On(j, k), c)
    requires j < |pages| && k < |pages[j]| && Visible(pages[j][k])
    requires AllFit(cap, pages0, pred, upd)
    ensures pred(pages[j][k].payload) ==> Insertable(cap, upd(pages[j][k].payload))
  {
    hide AllLive, VisibleFrom, Advanced, Visible, RestAt;
    AdvancedRest(pages, On(j, k), c);
    assert VisibleFrom(pages0, 0, 0)[|met|] == pages[j][k];
  }

  // The scan of table_manager_update without the in-place flag. Every row visible before is met
  // exactly once, in order; rows inserted meanwhile are never met, although the scan may pass them.
  method ReinsertWhere(self: PageDataManager, g: PageId, pred: seq<byte> -> bool, upd: seq<byte> -> seq<byte>,
                       ghost stale: set<PageId>, ghost ill: set<PageId>)
    returns (ghost met: seq<Entry>)
    requires self.Inv(stale, ill) && self.groups.IsGroup(g) && g !in stale && AllRight(self, g, ill)
    requires AllFit(self.cap, self.Pages(g), pred, upd)
    modifies self`data, self.groups
    ensures self.Inv(stale, ill) && self.groups.IsGroup(g) && AllRight(self, g, ill)
    ensures IllPointersKept(old(self.data), self.data, ill)
    ensures self.Pages(g) == WalkedAll(ReinsertStep(self.cap, pred, upd), old(self.Pages(g)))
    ensures met == VisibleFrom(old(self.Pages(g)), 0, 0)
    ensures AllLive(self.Pages(g)) + multiset(Payloads(met)) ==
            AllLive(old(self.Pages(g))) + ReinsertedRows(self.cap, pred, upd, Payloads(met))
    ensures forall h :: old(self.groups.IsGroup(h)) && h != g ==>
              self.groups.IsGroup(h) && self.groups.lists[h] == old(self.groups.lists)[h] &&
                self.Pages(h) == old(self.Pages(h))
  {
    hide PageDataManager.Inv, PageDataManager.Pages, Advanced, Visible, Beyond, Touches, Walking, Walked, VisibleFrom,
      AllRight, IllPointersKept, AllLive, LiveOne, Live, ReinsertedRows, Payloads, Progress, AllFit, Insertable,
      ReplacedAt;
    ghost var step, pages0 := ReinsertStep(self.cap, pred, upd), self.Pages(g);
    var it := new ItemIterator(self, g);
    it.Begin(g, stale, ill);
    met := [];
    IllKeptSelf(self.data, ill);
    ProgressStart(self.cap, pred, upd, pages0, it.Where());
    WalkingStart(step, pages0, it.Where());
    while it.HasNext()
      invariant it.manager == self && fresh(it) && fresh(it.pageIt)
      invariant self.Inv(stale, ill) && self.groups.IsGroup(g) && it.Ready(self.groups.lists[g], self.Pages(g))
      invariant AllRight(self, g, ill) && IllPointersKept(old(self.data), self.data, ill)
      invariant Progress(self.cap, pred, upd, pages0, self.Pages(g), met, it.Where())
      invariant Walking(step, pages0, self.Pages(g), it.Where())
      invariant forall h :: old(self.groups.IsGroup(h)) && h != g ==>
                  self.groups.IsGroup(h) && self.groups.lists[h] == old(self.groups.lists)[h] &&
                    self.Pages(h) == old(self.Pages(h))
      decreases |RestAt(self.Pages(g), it.Where())|
    {
      ghost var pages := self.Pages(g);
      var ok, item := it.Next(g, stale, ill);
      ghost var j, k, data1 := it.curPos, it.currentIndex, self.data;
      AdvancedRest(pages, On(j, k), it.Where());
      AdvancedBeyond(pages, j, k, it.Where());
      MetFits(self.cap, pred, upd, pages0, pages, met, j, k, it.Where());
      if pred(item) {
        ReplaceItem(self, g, it, upd(item), stale, ill);
        IllKeptAlong(old(self.data), data1, self.data, ill);
        ReplacedTouches(self.cap, pages, j, k, upd(item));
      } else {
        SetTouches(pages, j, k, pages[j][k]);
        SetSame(pages, j, k);
      }
      TouchesRest(pages, self.Pages(g), j, k, it.Where());
      WalkingNext(step, pages0, pages, j, k, it.Where(), self.Pages(g));
      ProgressNext(self.cap, pred, upd, pages0, pages, met, j, k, it.Where(), self.Pages(g));
      met := met + [pages[j][k]];
    }
    ProgressEnd(self.cap, pred, upd, pages0, self.Pages(g), met);
    WalkingEnd(step, pages0, self.Pages(g));
  }

  lemma IllKeptSelf(data: map<PageId, PageData>, ill: set<PageId>)
    ensures IllPointersKept(data, data, ill)
  {
  }

  lemma IllKeptAlong(data0: map<PageId, PageData>, data1: map<PageId, PageData>, data: map<PageId, PageData>,
                     ill: set<PageId>)
    requires IllPointersKept(data0, data1, ill) && IllPointersKept(data1, data, ill)
    ensures IllPointersKept(data0, data, ill)
  {
  }

  lemma ProgressEnd(cap: nat, pred: seq<byte> -> bool, upd: seq<byte> -> seq<byte>, pages0: seq<seq<Entry>>,
                    pages: seq<seq<Entry>>, met: seq<Entry>)
    requires Progress(cap, pred, upd, pages0, pages, met, End)
    ensures met == VisibleFrom(pages0, 0, 0)
    ensures AllLive(pages) + multiset(Payloads(met)) == AllLive(pages0) + ReinsertedRows(cap, pred, upd, Payloads(met))
  {
    hide AllLive, VisibleFrom;
    assert met + [] == met;
  }

  // ---- table_manager_update ----

  // An update written in place keeps the length of the row: what it does not cover stays.
  function InPlace(upd: seq<byte> -> seq<byte>): seq<byte> -> seq<byte>
  {
    (row: seq<byte>) => if |upd(row)| <= |row| then upd(row) + row[|upd(row)|..] else row
  }

  // In place, when no row grows and nothing is pending: the same rows in the same order, each matching one patched.
  lemma InPlaceRows(pred: seq<byte> -> bool, upd: seq<byte> -> seq<byte>, pages: seq<seq<Entry>>)
    requires Settled(pages) && NoneGrows(pages, pred, upd)
    ensures var pages' := WalkedAll(PatchStep(pred, upd), pages);
            Settled(pages') && LiveRows(pages') == UpdateRows(pred, InPlace(upd), LiveRows(pages))
  {
    var f := Updated(pred, upd);
    var r := row => UpdateRow(pred, InPlace(upd), row);
    UpdatedFlagWise(pred, upd, f, r);
    PatchedIsMapped(pred, upd, pages);
    MappedLength(f, pages);
    hide Updated, FlagWise, NoneGrows, WalkedAll;
    MapSettled(f, r, pages, |pages|);
    MapSettles(f, r, pages);
  }

  lemma UpdatedFlagWise(pred: seq<byte> -> bool, upd: seq<byte> -> seq<byte>, f: Entry -> Entry,
                        r: seq<byte> -> seq<byte>)
    requires f == Updated(pred, upd) && forall row :: r(row) == UpdateRow(pred, InPlace(upd), row)
    ensures FlagWise(f, r)
  {
    forall e: Entry
      ensures f(e).flags == e.flags && (Visible(e) ==> f(e).payload == r(e.payload))
    {
      assert f(e) == e || f(e) == WithPatch(e, upd(e.payload));
    }
  }

  lemma NoneGrowsIs(pages: seq<seq<Entry>>, pred: seq<byte> -> bool, upd: seq<byte> -> seq<byte>)
    ensures NoneGrows(pages, pred, upd) <==>
            forall j, k :: 0 <= j < |pages| && 0 <= k < |pages[j]| ==>
              var e := pages[j][k];
              !IsDeleted(e.flags) && !IsNew(e.flags) && pred(e.payload) ==> |upd(e.payload)| <= |e.payload|
  {
  }

  // What is true of the visible entries is true of the rows.
  lemma {:induction false} LiveShort(pred: seq<byte> -> bool, upd: seq<byte> -> seq<byte>, es: seq<Entry>, n: nat)
    requires n <= |es| && forall k :: 0 <= k < n ==> !IsNew(es[k].flags)
    requires forall k :: 0 <= k < n && Visible(es[k]) && pred(es[k].payload) ==>
               |upd(es[k].payload)| <= |es[k].payload|
    ensures forall i :: 0 <= i < |SurviveTo(es, n)| ==>
              var row := SurviveTo(es, n)[i].payload; pred(row) ==> |upd(row)| <= |row|
  {
    if n > 0 {
      LiveShort(pred, upd, es, n - 1);
    }
  }

  lemma {:induction false} LiveAllShort(pred: seq<byte> -> bool, upd: seq<byte> -> seq<byte>, pages: seq<seq<Entry>>,
                                        n: nat)
    requires n <= |pages| && Settled(pages) && NoneGrows(pages, pred, upd)
    ensures forall i :: 0 <= i < |SurviveAll(pages, n)| ==>
              var row := SurviveAll(pages, n)[i].payload; pred(row) ==> |upd(row)| <= |row|
  {
    hide SurviveTo;
    if n > 0 {
      LiveAllShort(pred, upd, pages, n - 1);
      LiveShort(pred, upd, pages[n - 1], |pages[n - 1]|);
    }
  }

  lemma UpdatedInPlace(pred: seq<byte> -> bool, upd: seq<byte> -> seq<byte>, pages: seq<seq<Entry>>)
    requires Settled(pages) && NoneGrows(pages, pred, upd)
    ensures var before, now := LiveRows(pages), UpdateRows(pred, InPlace(upd), LiveRows(pages));
            && |now| == |before|
            && forall i :: 0 <= i < |before| ==>
                 if pred(before[i])
                 then |upd(before[i])| <= |before[i]| && now[i] == upd(before[i]) + before[i][|upd(before[i])|..]
                 else now[i] == before[i]
  {
    LiveAllShort(pred, upd, pages, |pages|);
    hide SurviveAll, NoneGrows;
  }

  // In place no update may run over the end of its page; otherwise every updated row must leave room for
  // its slot or be over the limit.
  ghost predicate Updatable(cap: nat, pages: seq<seq<Entry>>, pred: seq<byte> -> bool, upd: seq<byte> -> seq<byte>,
                            inPlace: bool)
  {
    if inPlace then StaysInPage(pages, pred, upd) else AllFit(cap, pages, pred, upd)
  }

  // What the scan of an update makes of the pages.
  function UpdatedPages(cap: nat, pred: seq<byte> -> bool, upd: seq<byte> -> seq<byte>, inPlace: bool,
                        pages: seq<seq<Entry>>): seq<seq<Entry>>
  {
    WalkedAll(if inPlace then PatchStep(pred, upd) else ReinsertStep(cap, pred, upd), pages)
  }

  // Its scan, in one form or the other.
  method UpdateScan(self: PageDataManager, g: PageId, pred: seq<byte> -> bool, upd: seq<byte> -> seq<byte>,
                    inPlace: bool, ghost stale: set<PageId>, ghost ill: set<PageId>, ghost ends: map<nat, nat>)
    requires self.Inv(stale, ill) && self.groups.IsGroup(g) && V.Blinds(self, g, ill, ends)
    requires !inPlace ==> g !in stale && ends == map[]
    requires Updatable(self.cap, self.Pages(g), pred, upd, inPlace)
    modifies self`data, self.groups
    ensures self.Inv(stale, ill) && self.groups.IsGroup(g) && V.Blinds(self, g, ill, ends)
    ensures self.Pages(g) == UpdatedPages(self.cap, pred, upd, inPlace, old(self.Pages(g)))
    ensures var rows := ScanRows(old(self.Pages(g)));
            !inPlace ==> AllLive(self.Pages(g)) + multiset(rows) ==
                         AllLive(old(self.Pages(g))) + ReinsertedRows(self.cap, pred, upd, rows)
    ensures forall h :: old(self.groups.IsGroup(h)) && h != g ==>
              self.groups.IsGroup(h) && self.groups.lists[h] == old(self.groups.lists)[h] &&
                self.Pages(h) == old(self.Pages(h))
    ensures forall chain, e :: V.BlindsIn(old(self.data), chain, ill, e) ==> V.BlindsIn(self.data, chain, ill, e)
  {
    hide PageDataManager.Inv, PageDataManager.Pages, WalkedAll, UpdatedPages, ReinsertedRows, AllLive, StaysInPage,
      AllFit, Updatable, VisibleFrom, PointersKept, V.BlindsIn, Payloads, AllRight, IllPointersKept;
    ghost var pages0, data0 := self.Pages(g), self.data;
    UpdatedBy(self.cap, pred, upd, inPlace, pages0);
    if inPlace {
      PatchWhere(self, g, pred, upd, stale, ill);
      ScannedBlinds(data0, self.data);
    } else {
      NoneBlindAt(self, g, ill, ends);
      ghost var met := ReinsertWhere(self, g, pred, upd, stale, ill);
      IllBlinds(data0, self.data, ill);
      BlindNone(self, g, ill);
    }
  }

  method UpdateWhere(self: PageDataManager, g: PageId, pred: seq<byte> -> bool, upd: seq<byte> -> seq<byte>,
                     inPlace: bool, repaired: bool, ghost stale: set<PageId>, ghost ill: set<PageId>,
                     ghost ends: map<nat, nat>)
    returns (ghost ill': set<PageId>, ghost at: seq<nat>, ghost after: seq<seq<byte>>)
    requires self.Inv(stale, ill) && self.groups.IsGroup(g) && V.Blinds(self, g, ill, ends)
    requires !inPlace ==> g !in stale && ends == map[]
    requires Updatable(self.cap, self.Pages(g), pred, upd, inPlace)
    requires var pages := UpdatedPages(self.cap, pred, upd, inPlace, self.Pages(g));
             |pages| > 0 ==> Sweepable(pages, ends.Keys)
    modifies self`data, self.groups
    ensures V.AfterState(self, g, UpdatedPages(self.cap, pred, upd, inPlace, old(self.Pages(g))), ends, repaired, stale,
              ill')
    ensures self.groups.IsGroup(g)
    // in place, when no row grows and nothing is pending: the rows in order, each matching one patched
    ensures inPlace && NoneGrows(old(self.Pages(g)), pred, upd) && Settled(old(self.Pages(g))) ==>
              LiveRows(self.Pages(g)) +
                LostRows(self.cap, UpdatedPages(self.cap, pred, upd, inPlace, old(self.Pages(g))), ends.Keys) ==
              UpdateRows(pred, InPlace(upd), LiveRows(old(self.Pages(g))))
    // one by one: a match starts with its update and ends as it did, the others stay
    ensures inPlace && Settled(old(self.Pages(g))) &&
              (forall j, k :: 0 <= j < |old(self.Pages(g))| && 0 <= k < |old(self.Pages(g))[j]| ==>
                 var e := old(self.Pages(g))[j][k];
                 !IsDeleted(e.flags) && !IsNew(e.flags) && pred(e.payload) ==> |upd(e.payload)| <= |e.payload|) ==>
                var before, now := LiveRows(old(self.Pages(g))), LiveRows(self.Pages(g)) +
                  LostRows(self.cap, UpdatedPages(self.cap, pred, upd, inPlace, old(self.Pages(g))), ends.Keys);
                && |now| == |before|
                && forall i :: 0 <= i < |before| ==>
                     if pred(before[i])
                     then |upd(before[i])| <= |before[i]| && now[i] == upd(before[i]) + before[i][|upd(before[i])|..]
                     else now[i] == before[i]
    // rows pending from before join; each row the scan met was replaced by its update if it matched
    ensures var met := VisibleFrom(old(self.Pages(g)), 0, 0);
            !inPlace ==> multiset(LiveRows(self.Pages(g))) + multiset(Payloads(met)) ==
                         AllLive(old(self.Pages(g))) + ReinsertedRows(self.cap, pred, upd, Payloads(met))
    ensures !inPlace && Settled(old(self.Pages(g))) ==>
              multiset(LiveRows(self.Pages(g))) == ReinsertedRows(self.cap, pred, upd, LiveRows(old(self.Pages(g))))
    // one by one: after[i] is what became of the row met at at[i], and a row met is missing only when its update is
    // over the item size
    ensures var rows := ScanRows(old(self.Pages(g)));
            !inPlace ==>
              && multiset(LiveRows(self.Pages(g))) + multiset(rows) == AllLive(old(self.Pages(g))) + multiset(after)
              && (Settled(old(self.Pages(g))) ==> multiset(LiveRows(self.Pages(g))) == multiset(after))
              && |after| == |at| && (forall i, j :: 0 <= i < j < |at| ==> at[i] < at[j])
              && (forall i :: 0 <= i < |at| ==>
                    at[i] < |rows| && after[i] == if pred(rows[at[i]]) then upd(rows[at[i]]) else rows[at[i]])
              && (forall k :: 0 <= k < |rows| ==> (k in at <==> (pred(rows[k]) ==> |upd(rows[k])| <= self.cap)))
    ensures forall h :: old(self.groups.IsGroup(h)) && h != g ==>
              self.groups.IsGroup(h) && self.groups.lists[h] == old(self.groups.lists)[h] &&
                self.Pages(h) == old(self.Pages(h))
    ensures ends == map[] ==> Clean(self.Pages(g))
    // fit for writes again exactly when the vacuum leaves it so
    ensures var pages := UpdatedPages(self.cap, pred, upd, inPlace, old(self.Pages(g)));
            && |pages| > 0
            && (stale == {} && ill == {} ==> (self.Valid() <==> repaired || V.KeepsLayout(self.cap, pages)))
    ensures forall h, e :: h in old(self.groups.lists) && h != g && h != NULL_ID ==>
              V.BlindsIn(old(self.data), old(self.groups.lists)[h], ill, e) ==>
                V.BlindsIn(self.data, old(self.groups.lists)[h], ill', e)
  {
    hide PageDataManager.Inv, PageDataManager.Pages, WalkedAll, UpdatedPages, UpdateRows, ReinsertedRows, AllLive,
      NoneGrows, StaysInPage, AllFit, Updatable, VisibleFrom, Sweepable, V.AfterState, V.PointersElse, V.Pointers,
      V.CoreCompacted, V.Released, LiveRows, LostRows, PointersKept, AfterVacuum, V.BlindsIn, Settled, Payloads,
      AllRight, IllPointersKept, IsDeleted, IsNew, V.KeepsLayout, InPlace;
    ghost var pages0, data0 := self.Pages(g), self.data;
    ghost var pages := UpdatedPages(self.cap, pred, upd, inPlace, pages0);
    UpdatedBy(self.cap, pred, upd, inPlace, pages0);
    UpdateScan(self, g, pred, upd, inPlace, stale, ill, ends);
    self.NotEmpty(g, stale, ill);
    ghost var chain := self.groups.lists[g];
    V.BlindKeys(self, g, ill, ends);
    ill' := V.Vacuum(self, g, repaired, stale, ill, ends);
    V.AfterPages(self, g, pages, ends, repaired, stale, ill');
    if stale == {} && ill == {} {
      NoneBlindEnds(chain, ill, ends);
      V.ValidAfter(self, g, pages, repaired, ill');
    }
    VacuumRowsKept(self.cap, pages, ends.Keys);
    if ends == map[] {
      CleanAfter(self.cap, pages, ends.Keys);
    }
    at, after := [], [];
    if inPlace {
      InPlaceOutcome(pred, upd, pages0);
    } else {
      NoneLost(self.cap, pages, ends.Keys, LiveRows(self.Pages(g)));
      at, after := ReinsertOutcome(self.cap, pred, upd, pages0, pages);
    }
  }

  // What the rows have become, when the scan patched them.
  lemma InPlaceOutcome(pred: seq<byte> -> bool, upd: seq<byte> -> seq<byte>, pages: seq<seq<Entry>>)
    ensures var before, now := LiveRows(pages), LiveRows(WalkedAll(PatchStep(pred, upd), pages));
            && (NoneGrows(pages, pred, upd) && Settled(pages) ==> now == UpdateRows(pred, InPlace(upd), before))
            && ((forall j, k :: 0 <= j < |pages| && 0 <= k < |pages[j]| ==>
                   var e := pages[j][k];
                   !IsDeleted(e.flags) && !IsNew(e.flags) && pred(e.payload) ==> |upd(e.payload)| <= |e.payload|) &&
                Settled(pages) ==>
                  && |now| == |before|
                  && forall i :: 0 <= i < |before| ==>
                       if pred(before[i])
                       then |upd(before[i])| <= |before[i]| && now[i] == upd(before[i]) + before[i][|upd(before[i])|..]
                       else now[i] == before[i])
  {
    NoneGrowsIs(pages, pred, upd);
    if NoneGrows(pages, pred, upd) && Settled(pages) {
      InPlaceRows(pred, upd, pages);
      UpdatedInPlace(pred, upd, pages);
    }
    hide NoneGrows, Settled, LiveRows, UpdateRows, WalkedAll, PatchStep, IsDeleted, IsNew;
  }

  // When it reinserted them.
  lemma ReinsertOutcome(cap: nat, pred: seq<byte> -> bool, upd: seq<byte> -> seq<byte>, pages0: seq<seq<Entry>>,
                        pages: seq<seq<Entry>>)
    returns (at: seq<nat>, after: seq<seq<byte>>)
    requires AllLive(pages) + multiset(ScanRows(pages0)) ==
             AllLive(pages0) + ReinsertedRows(cap, pred, upd, ScanRows(pages0))
    ensures multiset(after) == ReinsertedRows(cap, pred, upd, ScanRows(pages0))
    ensures Settled(pages0) ==> multiset(LiveRows(pages)) == multiset(after) && ScanRows(pages0) == LiveRows(pages0)
    ensures AllLive(pages) == multiset(LiveRows(pages))
    ensures |after| == |at| && (forall i, j :: 0 <= i < j < |at| ==> at[i] < at[j])
    ensures var rows := ScanRows(pages0);
            && (forall i :: 0 <= i < |at| ==>
                  at[i] < |rows| && after[i] == if pred(rows[at[i]]) then upd(rows[at[i]]) else rows[at[i]])
            && (forall k :: 0 <= k < |rows| ==> (k in at <==> (pred(rows[k]) ==> |upd(rows[k])| <= cap)))
  {
    hide VisibleFrom, Payloads, Settled, LiveRows, AllLive;
    at, after := ReinsertedIs(cap, pred, upd, ScanRows(pages0));
    LiveBagIs(pages);
    if Settled(pages0) {
      SettledRows(pages0);
      BagCancel(multiset(LiveRows(pages)), multiset(LiveRows(pages0)), multiset(after));
    }
  }

  lemma UpdatedBy(cap: nat, pred: seq<byte> -> bool, upd: seq<byte> -> seq<byte>, inPlace: bool, pages: seq<seq<Entry>>)
    ensures UpdatedPages(cap, pred, upd, inPlace, pages) ==
            if inPlace then WalkedAll(PatchStep(pred, upd), pages) else WalkedAll(ReinsertStep(cap, pred, upd), pages)
    ensures Updatable(cap, pages, pred, upd, inPlace) <==>
            if inPlace then StaysInPage(pages, pred, upd) else AllFit(cap, pages, pred, upd)
  {
  }

  lemma NoneBlindAt(self: PageDataManager, g: PageId, ill: set<PageId>, ends: map<nat, nat>)
    requires g in self.groups.lists && V.Blinds(self, g, ill, ends) && ends == map[]
    ensures AllRight(self, g, ill)
  {
    forall j | 0 <= j < |self.groups.lists[g]|
      ensures self.groups.lists[g][j] !in ill
    {
      assert j !in V.BlindIn(self.groups.lists[g], ill);
    }
  }

  lemma BlindNone(self: PageDataManager, g: PageId, ill: set<PageId>)
    requires g in self.groups.lists && AllRight(self, g, ill)
    ensures V.Blinds(self, g, ill, map[])
  {
    assert V.BlindIn(self.groups.lists[g], ill) == {};
  }

  // Pages with wrong pointers keep them.
  lemma IllBlinds(data0: map<PageId, PageData>, data: map<PageId, PageData>, ill: set<PageId>)
    requires IllPointersKept(data0, data, ill)
    ensures forall chain, ends :: V.BlindsIn(data0, chain, ill, ends) ==> V.BlindsIn(data, chain, ill, ends)
  {
    forall chain, ends | V.BlindsIn(data0, chain, ill, ends)
      ensures V.BlindsIn(data, chain, ill, ends)
    {
      V.BlindsFrame(data0, data, chain, ill, ill, ends);
    }
  }

  lemma NoneLost(cap: nat, pages: seq<seq<Entry>>, blind: set<nat>, rows: seq<seq<byte>>)
    requires |pages| > 0 && blind == {}
    ensures rows + LostRows(cap, pages, blind) == rows
  {
  }

  lemma LiveBagIs(pages: seq<seq<Entry>>)
    ensures AllLive(pages) == multiset(LiveRows(pages))
  {
    SurviveAllBag(pages, |pages|);
  }

  lemma BagCancel(a: multiset<seq<byte>>, b: multiset<seq<byte>>, c: multiset<seq<byte>>)
    requires a + b == b + c
    ensures a == c
  {
    forall x
      ensures a[x] == c[x]
    {
      assert (a + b)[x] == (b + c)[x];
    }
  }

  // ---- looking for one row ----

  // Index of the first matching row, or the number of rows.
  function FirstMatch(pred: seq<byte> -> bool, rows: seq<seq<byte>>): (i: nat)
    ensures i <= |rows|
    ensures i < |rows| ==> pred(rows[i])
    ensures forall k :: 0 <= k < i ==> !pred(rows[k])
  {
    if rows == [] || pred(rows[0]) then 0 else 1 + FirstMatch(pred, rows[1..])
  }

  lemma {:induction false} FirstMatchIs(pred: seq<byte> -> bool, rows: seq<seq<byte>>, i: nat)
    requires i <= |rows| && forall k :: 0 <= k < i ==> !pred(rows[k])
    requires i < |rows| ==> pred(rows[i])
    ensures FirstMatch(pred, rows) == i
  {
    if i > 0 {
      forall k | 0 <= k < i - 1
        ensures !pred(rows[1..][k])
      {
        assert rows[1..][k] == rows[k + 1];
      }
      FirstMatchIs(pred, rows[1..], i - 1);
    }
  }

  // The rows a scan of g meets.
  ghost function ScanRows(pages: seq<seq<Entry>>): seq<seq<byte>>
  {
    Payloads(VisibleFrom(pages, 0, 0))
  }

  // table_manager_find_one: the first row that matches, or the not-found error.
  method FindOne(self: PageDataManager, g: PageId, pred: seq<byte> -> bool, ghost stale: set<PageId>,
                 ghost ill: set<PageId>)
    returns (found: bool, row: seq<byte>)
    requires self.Inv(stale, ill) && self.groups.IsGroup(g)
    ensures var rows := ScanRows(self.Pages(g));
            var i := FirstMatch(pred, rows);
            found == (i < |rows|) && (found ==> row == rows[i])
  {
    hide PageDataManager.Inv, PageDataManager.Pages, Advanced, Visible, VisibleFrom, FirstMatch;
    ghost var pages, met := self.Pages(g), [];
    var it := new ItemIterator(self, g);
    it.Begin(g, stale, ill);
    AdvancedRest(pages, Start, it.Where());
    while it.HasNext()
      invariant it.manager == self && fresh(it) && fresh(it.pageIt)
      invariant it.Ready(self.groups.lists[g], pages)
      invariant VisibleFrom(pages, 0, 0) == met + RestAt(pages, it.Where())
      invariant forall k :: 0 <= k < |met| ==> !pred(met[k].payload)
      decreases |RestAt(pages, it.Where())|
    {
      var ok, item := it.Next(g, stale, ill);
      ghost var e := pages[it.curPos][it.currentIndex];
      AdvancedRest(pages, On(it.curPos, it.currentIndex), it.Where());
      assert VisibleFrom(pages, 0, 0)[|met|] == e;
      if pred(item) {
        FirstMatchIs(pred, ScanRows(pages), |met|);
        return true, item;
      }
      met := met + [e];
    }
    FirstMatchIs(pred, ScanRows(pages), |ScanRows(pages)|);
    return false, [];
  }
}
