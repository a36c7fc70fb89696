/** The item iterator: every slot that is neither deleted nor new, in chain and slot order. */
module ItemScan {
  import opened Bytes
  import opened SlottedPage
  import opened PageLists
  import opened PageLinks
  import opened PageGroups
  import opened PageStorage

  // Position (j, k) comes before position (p, i) in chain and slot order.
  predicate Earlier(j: nat, k: nat, p: nat, i: nat)
  {
    j < p || (j == p && k < i)
  }

  // Nothing visible from (p, i) up to, but not including, (p', i').
  ghost predicate Skipped(pages: seq<seq<Entry>>, p: nat, i: nat, p': nat, i': nat)
  {
    forall j, k :: 0 <= j < |pages| && 0 <= k < |pages[j]| && !Earlier(j, k, p, i) && Earlier(j, k, p', i') ==>
      !Visible(pages[j][k])
  }

  // The cursor: before the first item, on an item, or past the last one.
  datatype ScanCursor = Start | On(page: nat, slot: nat) | End

  // The cursor moves from one item to the next visible one.
  ghost predicate Advanced(pages: seq<seq<Entry>>, c: ScanCursor, c': ScanCursor)
  {
    var p, i := if c.On? then c.page else 0, if c.On? then c.slot + 1 else 0;
    !c.End? && match c'
    case Start => false
    case On(p', i') => Skipped(pages, p, i, p', i') && !Earlier(p', i', p, i) && p' < |pages| && i' < |pages[p']| &&
      Visible(pages[p'][i'])
    case End => Skipped(pages, p, i, |pages|, 0)
  }

  // Positions the cursor has left behind.
  predicate Passed(c: ScanCursor, j: nat, k: nat)
  {
    match c
    case Start => false
    case On(p, i) => Earlier(j, k, p, i)
    case End => true
  }

  // What is still to come.
  function RestAt(pages: seq<seq<Entry>>, c: ScanCursor): seq<Entry>
  {
    match c
    case Start => VisibleFrom(pages, 0, 0)
    case On(p, i) => VisibleFrom(pages, p, i)
    case End => []
  }

  lemma AdvancedRest(pages: seq<seq<Entry>>, c: ScanCursor, c': ScanCursor)
    requires Advanced(pages, c, c')
    requires (c.On? ==> c.page < |pages| && c.slot < |pages[c.page]| && Visible(pages[c.page][c.slot]))
    ensures RestAt(pages, c) == (if c.On? then [pages[c.page][c.slot]] else []) + RestAt(pages, c')
  {
    var p, i := if c.On? then c.page else 0, if c.On? then c.slot + 1 else 0;
    if c'.On? {
      SkipVisible(pages, p, i, c'.page, c'.slot);
    } else if p < |pages| {
      SkipVisible(pages, p, i, |pages|, 0);
    }
    if c.On? {
      var e := pages[c.page][c.slot];
      assert VisibleIn(pages[c.page], c.slot) == [e] + VisibleIn(pages[c.page], i);
      assert VisibleFrom(pages, c.page, c.slot) == [e] + VisibleFrom(pages, c.page, i);
    } else {
      assert [] + RestAt(pages, c') == RestAt(pages, c');
    }
  }

  // Visible entries of one page from slot i on, and of the chain from (p, i) on.
  function VisibleIn(es: seq<Entry>, i: nat): seq<Entry>
    decreases |es| - i
  {
    if i >= |es| then [] else (if Visible(es[i]) then [es[i]] else []) + VisibleIn(es, i + 1)
  }

  function VisibleFrom(pages: seq<seq<Entry>>, p: nat, i: nat): seq<Entry>
    decreases |pages| - p
  {
    if p >= |pages| then [] else VisibleIn(pages[p], i) + VisibleFrom(pages, p + 1, 0)
  }

  lemma {:induction false} SkipInPage(es: seq<Entry>, i: nat, i': nat)
    requires i <= i' && forall k :: i <= k < i' && k < |es| ==> !Visible(es[k])
    ensures VisibleIn(es, i) == VisibleIn(es, i')
    decreases i' - i
  {
    if i < i' {
      SkipInPage(es, i + 1, i');
    }
  }

  // Skipped positions contribute nothing.
  lemma {:induction false} SkipVisible(pages: seq<seq<Entry>>, p: nat, i: nat, p': nat, i': nat)
    requires Skipped(pages, p, i, p', i') && (p < p' || (p == p' && i <= i'))
    ensures VisibleFrom(pages, p, i) == VisibleFrom(pages, p', i')
    decreases p' - p
  {
    if p == p' {
      if p < |pages| {
        assert forall k :: i <= k < i' && k < |pages[p]| ==> !Visible(pages[p][k]);
        SkipInPage(pages[p], i, i');
      }
    } else if p < |pages| {
      assert forall k :: i <= k < |pages[p]| ==> !Visible(pages[p][k]);
      SkipInPage(pages[p], i, if i < |pages[p]| then |pages[p]| else i);
      SkipVisible(pages, p + 1, 0, p', i');
    }
  }

  // What the flags of a slot say about the entries of its page.
  lemma FlagsOf(p: PageData, index: nat, i: nat)
    requires Scannable(p, index) && (i < p.itemAmount || (index > 0 && i == 0))
    ensures SLOT_SIZE * i + SLOT_SIZE <= |p.contents|
    ensures |Entries(p)| == p.itemAmount
    ensures var flags := SlotAt(p.contents, i).flags;
            if i < p.itemAmount then Visible(Entries(p)[i]) == (!IsDeleted(flags) && !IsNew(flags))
            else IsDeleted(flags)
  {
  }

  class ItemIterator {
    const manager: PageDataManager
    const pageIt: PageIterator
    var isEmpty: bool
    var currentPage: PageId
    var currentIndex: nat
    var nextIndex: int        // -1 stands for SIZE_MAX, the index before the first
    ghost var pos: nat        // position of the current page of pageIt in the chain
    ghost var curPos: nat     // position of currentPage in the chain

    // The page iterator stands on page `pos` of the chain. It may have read the end of the chain
    // before pages were appended, as long as nothing visible was put there.
    ghost predicate OnChain(chain: seq<PageId>, pages: seq<seq<Entry>>)
      reads `pos, pageIt
    {
      && |pages| == |chain| && pos < |chain|
      && pageIt.manager == manager.groups && !pageIt.inverse && pageIt.started
      && pageIt.currentId == chain[pos]
      && (pageIt.nextId == NextIn(chain, pos) || (pageIt.nextId == NULL_ID && Skipped(pages, pos + 1, 0, |pages|, 0)))
    }

    // Between calls: the preloaded item is visible, or there is none.
    ghost predicate Ready(chain: seq<PageId>, pages: seq<seq<Entry>>)
      reads this, pageIt
    {
      && OnChain(chain, pages)
      && (!isEmpty ==> 0 <= nextIndex < |pages[pos]| && Visible(pages[pos][nextIndex]))
    }

    ghost function Where(): ScanCursor
      reads this
    {
      if isEmpty then End else if nextIndex < 0 then Start else On(pos, nextIndex)
    }

    predicate HasNext()
      reads this
    {
      !isEmpty
    }

    // item_iterator_new, up to the first page.
    constructor (manager: PageDataManager, g: PageId)
      ensures this.manager == manager && fresh(pageIt)
      ensures isEmpty && nextIndex == -1 && pos == 0
      ensures pageIt.manager == manager.groups && !pageIt.inverse && pageIt.groupId == g
      ensures pageIt.nextId == g && !pageIt.started
    {
      this.manager := manager;
      pageIt := new PageIterator(manager.groups, g, false);
      nextIndex, currentPage, currentIndex := -1, NULL_ID, 0;
      isEmpty := true;
      pos, curPos := 0, 0;
    }

    // item_iterator_new: step on the first page and preload the first item.
    method Begin(ghost g: PageId, ghost stale: set<PageId>, ghost ill: set<PageId>)
      requires manager.Inv(stale, ill) && manager.groups.IsGroup(g)
      requires isEmpty && nextIndex == -1 && pos == 0
      requires pageIt.manager == manager.groups && !pageIt.inverse && pageIt.groupId == g
      requires pageIt.nextId == g && !pageIt.started
      modifies this, pageIt
      ensures Ready(manager.groups.lists[g], manager.Pages(g))
      ensures Advanced(manager.Pages(g), Start, Where())
    {
      hide PageDataManager.Inv, PageGroupManager.Inv, PageDataManager.Pages, Advanced, Skipped;
      manager.NotEmpty(g, stale, ill);
      manager.NextAt(g, 0, stale, ill);
      if pageIt.HasNext() {
        isEmpty := false;
        var ok := pageIt.Next();
        Preload(g, stale, ill);
      }
    }

    lemma Standing(g: PageId, stale: set<PageId>, ill: set<PageId>)
      requires manager.Inv(stale, ill) && manager.groups.IsGroup(g)
      requires OnChain(manager.groups.lists[g], manager.Pages(g))
      ensures var id, n := pageIt.currentId, |manager.Pages(g)[pos]|;
              && id in manager.data && manager.data[id].itemAmount == n && id == manager.groups.lists[g][pos]
              && Scannable(manager.data[id], pos) && Entries(manager.data[id]) == manager.Pages(g)[pos]
      ensures pageIt.HasNext() ==> pageIt.nextId in manager.groups.links
    {
      hide PageDataManager.Inv, PageGroupManager.Inv, PagesOf, Scannable, Formed, Entries;
      manager.PageAt(g, pos, stale, ill);
      manager.NextAt(g, pos, stale, ill);
    }

    // One round of the preload loop up to the slot it looks at: the next slot of the page,
    // or slot 0 of the next page whatever its item_amount.
    method NextSlot(ghost g: PageId, ghost stale: set<PageId>, ghost ill: set<PageId>)
      requires manager.Inv(stale, ill) && manager.groups.IsGroup(g)
      requires OnChain(manager.groups.lists[g], manager.Pages(g)) && nextIndex >= -1 && !isEmpty
      modifies `isEmpty, `nextIndex, `pos, pageIt
      ensures OnChain(manager.groups.lists[g], manager.Pages(g)) && nextIndex >= 0
      ensures isEmpty ==>
                && old(nextIndex) + 1 >= |manager.Pages(g)[old(pos)]|
                && Skipped(manager.Pages(g), old(pos) + 1, 0, |manager.Pages(g)|, 0)
      ensures !isEmpty ==>
                if old(nextIndex) + 1 < |manager.Pages(g)[old(pos)]|
                then pos == old(pos) && nextIndex == old(nextIndex) + 1
                else pos == old(pos) + 1 && nextIndex == 0
    {
      hide PageDataManager.Inv, PageGroupManager.Inv, PagesOf, Scannable, Formed, Entries;
      Standing(g, stale, ill);
      manager.NextAt(g, pos, stale, ill);
      nextIndex := nextIndex + 1;
      if manager.data[pageIt.currentId].itemAmount <= nextIndex {
        nextIndex := 0;
        if !pageIt.HasNext() {
          isEmpty := true;
          return;
        }
        var ok := pageIt.Next();
        pos := pos + 1;
        manager.NextAt(g, pos, stale, ill);
      }
    }

    // Walk to the next slot that is neither deleted nor new.
    method Preload(ghost g: PageId, ghost stale: set<PageId>, ghost ill: set<PageId>)
      requires manager.Inv(stale, ill) && manager.groups.IsGroup(g)
      requires OnChain(manager.groups.lists[g], manager.Pages(g))
      requires nextIndex >= -1 && !isEmpty && (nextIndex < 0 ==> pos == 0)
      modifies `isEmpty, `nextIndex, `pos, pageIt
      ensures Ready(manager.groups.lists[g], manager.Pages(g))
      ensures Advanced(manager.Pages(g), if old(nextIndex) < 0 then Start else On(old(pos), old(nextIndex)), Where())
    {
      hide PageDataManager.Inv, PageGroupManager.Inv, PageDataManager.Pages, Scannable, Formed, Entries, OnChain,
        Skipped;
      ghost var pages, p0, i0 := manager.Pages(g), pos, nextIndex + 1;
      OnChainPos(manager.groups.lists[g], pages);
      SkippedNothing(pages, p0, i0);
      while true
        invariant manager.Pages(g) == pages && manager.groups.IsGroup(g) && manager.Inv(stale, ill)
        invariant OnChain(manager.groups.lists[g], pages) && pos < |pages| && nextIndex >= -1 && !isEmpty
        invariant Skipped(pages, p0, i0, pos, nextIndex + 1) && !Earlier(pos, nextIndex + 1, p0, i0)
        decreases |pages| - pos, |pages[pos]| - nextIndex
      {
        ghost var p, i := pos, nextIndex + 1;
        NextSlot(g, stale, ill);
        PageEnds(pages, p0, i0, p, i);
        OnChainPos(manager.groups.lists[g], pages);
        if isEmpty {
          return;
        }
        Standing(g, stale, ill);
        FlagsOf(manager.data[pageIt.currentId], pos, nextIndex);
        var flags := SlotAt(manager.data[pageIt.currentId].contents, nextIndex).flags;
        if !(IsDeleted(flags) || IsNew(flags)) {
          return;
        }
        SkipOne(pages, p0, i0, pos, nextIndex);
      }
    }

    lemma OnChainPos(chain: seq<PageId>, pages: seq<seq<Entry>>)
      requires OnChain(chain, pages)
      ensures pos < |pages|
    {
    }

    // The preloaded item becomes the current one, and the next one is preloaded.
    method Advance(ghost g: PageId, ghost stale: set<PageId>, ghost ill: set<PageId>)
      requires manager.Inv(stale, ill) && manager.groups.IsGroup(g)
      requires Ready(manager.groups.lists[g], manager.Pages(g)) && !isEmpty
      modifies this, pageIt
      ensures Ready(manager.groups.lists[g], manager.Pages(g))
      ensures curPos == old(pos) && currentIndex == old(nextIndex) && currentPage == old(pageIt.currentId)
      ensures Advanced(manager.Pages(g), On(curPos, currentIndex), Where())
    {
      hide PageDataManager.Inv, PageGroupManager.Inv, PageDataManager.Pages, OnChain, Advanced;
      OnChainPos(manager.groups.lists[g], manager.Pages(g));
      currentIndex := nextIndex;
      currentPage := pageIt.currentId;
      curPos := pos;
      Preload(g, stale, ill);
    }

    // The preloaded item, and the bytes its slot points to.
    lemma ItemHere(g: PageId, stale: set<PageId>, ill: set<PageId>)
      requires manager.Inv(stale, ill) && manager.groups.IsGroup(g)
      requires Ready(manager.groups.lists[g], manager.Pages(g)) && !isEmpty
      ensures var pages, id := manager.Pages(g), pageIt.currentId;
              && pos < |pages| == |manager.groups.lists[g]| && id == manager.groups.lists[g][pos]
              && 0 <= nextIndex < |pages[pos]| && Visible(pages[pos][nextIndex])
              && id in manager.data && SlotHolds(manager.data[id].contents, nextIndex, pages[pos][nextIndex].payload)
    {
      hide PageDataManager.Inv, PageGroupManager.Inv, PageDataManager.Pages, Scannable, Entries, Visible;
      Standing(g, stale, ill);
      ReadPayload(manager.data[pageIt.currentId], pos, nextIndex);
    }

    // item_iterator_next. False stands for the out-of-range error.
    method Next(ghost g: PageId, ghost stale: set<PageId>, ghost ill: set<PageId>) returns (ok: bool, item: seq<byte>)
      requires manager.Inv(stale, ill) && manager.groups.IsGroup(g)
      requires Ready(manager.groups.lists[g], manager.Pages(g))
      modifies this, pageIt
      ensures ok == old(HasNext())
      ensures Ready(manager.groups.lists[g], manager.Pages(g))
      ensures !ok ==> isEmpty
      // the item returned is the one the cursor was on
      ensures ok ==> old(Where()) == On(curPos, currentIndex)
      ensures ok ==> var pages := manager.Pages(g);
                && curPos < |pages| == |manager.groups.lists[g]| && currentPage == manager.groups.lists[g][curPos]
                && currentIndex < |pages[curPos]| && Visible(pages[curPos][currentIndex])
                && item == pages[curPos][currentIndex].payload
      // the cursor moved from there to the next visible one
      ensures ok ==> Advanced(manager.Pages(g), On(curPos, currentIndex), Where())
    {
      if !HasNext() {
        return false, [];
      }
      hide PageDataManager.Inv, PageDataManager.Pages, ItemIterator.Ready, Advanced, Visible, SlotHolds;
      ItemHere(g, stale, ill);
      SlotHoldsIs(manager.data[pageIt.currentId].contents, nextIndex, manager.Pages(g)[pos][nextIndex].payload);
      Advance(g, stale, ill);
      ok := true;
      item := SlotPayload(manager.data[currentPage].contents, currentIndex);
    }

    // The item returned last, by its slot.
    ghost predicate OnItem(g: PageId)
      reads this, manager, manager.groups
    {
      && manager.groups.IsGroup(g) && curPos < |manager.groups.lists[g]| == |manager.Pages(g)|
      && currentPage == manager.groups.lists[g][curPos]
      && currentIndex < |manager.Pages(g)[curPos]|
    }

    // item_iterator_delete_item: the slot of the current item gets the deleted flag.
    method DeleteItem(ghost g: PageId, ghost stale: set<PageId>, ghost ill: set<PageId>)
      requires manager.Inv(stale, ill) && OnItem(g)
      modifies manager`data
      ensures manager.Inv(stale, ill)
      ensures var pages := old(manager.Pages(g));
              manager.Pages(g) == SetEntry(pages, curPos, currentIndex, WithDeleted(pages[curPos][currentIndex]))
      ensures forall h :: manager.groups.IsGroup(h) && h != g ==> manager.Pages(h) == old(manager.Pages(h))
      ensures PointersKept(old(manager.data), manager.data)
    {
      hide PageDataManager.Inv, PageGroupManager.Inv, GroupsInv, DataInv, PageInv, Scannable, Formed, Entries,
        Flagged, PagesOf;
      manager.GroupsValid(stale, ill);
      manager.PageAt(g, curPos, stale, ill);
      ghost var data0, p0 := manager.data, manager.data[currentPage];
      FlaggedPage(p0, curPos, currentIndex);
      manager.data := manager.data[currentPage := Flagged(manager.data[currentPage], currentIndex)];
      FlaggedInv(manager.cap, p0, Place(g, curPos), currentIndex, currentPage in ill);
      manager.KeepsInv(data0, g, curPos, manager.data[currentPage], stale, ill);
    }

    // record_serialize_into on the item: the bytes go over its payload and, if they are longer, over the
    // payloads above it; the slots stay.
    method OverwriteItem(b: seq<byte>, ghost g: PageId, ghost stale: set<PageId>, ghost ill: set<PageId>)
      requires manager.Inv(stale, ill) && OnItem(g)
      requires |b| <= UsedTo(manager.Pages(g)[curPos], currentIndex + 1)
      modifies manager`data
      ensures manager.Inv(stale, ill)
      ensures var pages := old(manager.Pages(g));
              manager.Pages(g) == pages[curPos := Overlaid(pages[curPos], currentIndex, b)]
      ensures forall h :: manager.groups.IsGroup(h) && h != g ==> manager.Pages(h) == old(manager.Pages(h))
      ensures PointersKept(old(manager.data), manager.data)
    {
      hide PageDataManager.Inv, PageGroupManager.Inv, GroupsInv, DataInv, PageInv, Scannable, Formed, Entries,
        Patched, PagesOf, Overlaid, UsedTo;
      manager.GroupsValid(stale, ill);
      manager.PageAt(g, curPos, stale, ill);
      ghost var data0, p0 := manager.data, manager.data[currentPage];
      PatchedPage(p0, curPos, currentIndex, b);
      manager.data := manager.data[currentPage := Patched(manager.data[currentPage], currentIndex, b)];
      PatchedInv(manager.cap, p0, Place(g, curPos), currentIndex, b, currentPage in ill);
      manager.KeepsInv(data0, g, curPos, manager.data[currentPage], stale, ill);
    }
  }

  // No page appears or goes, and none gets other free-space pointers.
  ghost predicate PointersKept(data: map<PageId, PageData>, data': map<PageId, PageData>)
  {
    && data'.Keys == data.Keys
    && forall id :: id in data ==> data'[id].freeStart == data[id].freeStart && data'[id].freeEnd == data[id].freeEnd
  }

  function SetEntry(pages: seq<seq<Entry>>, j: nat, k: nat, x: Entry): seq<seq<Entry>>
    requires j < |pages| && k < |pages[j]|
  {
    pages[j := pages[j][k := x]]
  }

  lemma FlaggedPage(p: PageData, index: nat, i: nat)
    requires Scannable(p, index) && i < p.itemAmount
    ensures SLOT_SIZE * i + SLOT_SIZE <= |p.contents| && |Entries(p)| == p.itemAmount
    ensures var p' := Flagged(p, i);
            && Scannable(p', index) && Entries(p') == Entries(p)[i := WithDeleted(Entries(p)[i])]
            && (Formed(p) ==> Formed(p'))
  {
    hide Entries, Lays;
    EntryBounds(p, i);
    FlaggedEntries(p, i);
  }

  lemma FlaggedInv(cap: nat, p: PageData, q: Place, i: nat, ill: bool)
    requires |p.contents| == cap && Scannable(p, q.index) && (ill || Formed(p)) && i < p.itemAmount
    requires SLOT_SIZE * i + SLOT_SIZE <= |p.contents|
    ensures PageInv(cap, Flagged(p, i), q, ill)
  {
    hide Scannable, Formed, Entries;
    FlaggedPage(p, q.index, i);
  }

  lemma PatchedPage(p: PageData, index: nat, i: nat, b: seq<byte>)
    requires Scannable(p, index) && i < p.itemAmount && |Entries(p)| == p.itemAmount && |b| <= UsedTo(Entries(p), i + 1)
    ensures SLOT_SIZE * i + SLOT_SIZE <= |p.contents| && SlotAt(p.contents, i).offset + |b| <= |p.contents|
    ensures var p' := Patched(p, i, b);
            && Scannable(p', index) && Entries(p') == Overlaid(Entries(p), i, b)
            && (Formed(p) ==> Formed(p'))
  {
    hide Entries, Lays, Overlaid;
    PatchStaysInPage(p, i, b);
    PatchedOverlays(p, i, b);
  }

  lemma PatchedInv(cap: nat, p: PageData, q: Place, i: nat, b: seq<byte>, ill: bool)
    requires |p.contents| == cap && Scannable(p, q.index) && (ill || Formed(p)) && i < p.itemAmount
    requires |Entries(p)| == p.itemAmount && |b| <= UsedTo(Entries(p), i + 1)
    requires SLOT_SIZE * i + SLOT_SIZE <= |p.contents| && SlotAt(p.contents, i).offset + |b| <= |p.contents|
    ensures PageInv(cap, Patched(p, i, b), q, ill)
  {
    hide Scannable, Formed, Entries, Overlaid;
    PatchedPage(p, q.index, i, b);
  }

  // Slot i points to these bytes.
  predicate SlotHolds(c: seq<byte>, i: nat, payload: seq<byte>)
  {
    SLOT_SIZE * i + SLOT_SIZE <= |c| && var slot := SlotAt(c, i);
    slot.offset + slot.size <= |c| && SlotPayload(c, i) == payload
  }

  lemma SlotHoldsIs(c: seq<byte>, i: nat, payload: seq<byte>)
    requires SlotHolds(c, i, payload)
    ensures SLOT_SIZE * i + SLOT_SIZE <= |c|
    ensures var slot := SlotAt(c, i);
            slot.offset + slot.size <= |c| && SlotPayload(c, i) == payload
  {
  }

  lemma ReadPayload(p: PageData, index: nat, i: nat)
    requires Scannable(p, index) && i < p.itemAmount
    ensures SLOT_SIZE * i + SLOT_SIZE <= |p.contents| && |Entries(p)| == p.itemAmount
    ensures var slot := SlotAt(p.contents, i);
            slot.offset + slot.size <= |p.contents| && SlotPayload(p.contents, i) == Entries(p)[i].payload
  {
    assert Laid(p.contents, Entries(p), i);
    UsedMonotone(Entries(p), i, i + 1);
  }

  lemma SkippedNothing(pages: seq<seq<Entry>>, p: nat, i: nat)
    ensures Skipped(pages, p, i, p, i)
  {
  }

  // Past the last slot of page p, and possibly past the last page.
  lemma PageEnds(pages: seq<seq<Entry>>, p0: nat, i0: nat, p: nat, i: nat)
    requires p < |pages| && Skipped(pages, p0, i0, p, i) && !Earlier(p, i, p0, i0)
    ensures i >= |pages[p]| ==> Skipped(pages, p0, i0, p + 1, 0)
    ensures i >= |pages[p]| && Skipped(pages, p + 1, 0, |pages|, 0) ==> Skipped(pages, p0, i0, |pages|, 0)
  {
  }

  // The slot looked at is not visible, or there is no such slot.
  lemma SkipOne(pages: seq<seq<Entry>>, p0: nat, i0: nat, p: nat, i: nat)
    requires p < |pages| && Skipped(pages, p0, i0, p, i) && (i < |pages[p]| ==> !Visible(pages[p][i]))
    ensures Skipped(pages, p0, i0, p, i + 1)
  {
  }
}
