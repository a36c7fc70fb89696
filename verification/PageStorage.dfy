/** Items in page groups: page_data_manager on top of page_group_manager. */
module PageStorage {
  import opened Bytes
  import opened SlottedPage
  import opened PageLists
  import opened PageLinks
  import opened PageGroups

  // ---- one page ----

  // Slot 0 carries the deleted flag, whatever item_amount says.
  predicate ZeroDeleted(p: PageData)
  {
    SLOT_SIZE <= |p.contents| && IsDeleted(SlotAt(p.contents, 0).flags)
  }

  // A page at position `index` of its chain that a scan can read. The scan looks at slot 0 of a
  // later page before it looks at item_amount, so an empty later page must have slot 0 deleted.
  ghost predicate Scannable(p: PageData, index: nat)
  {
    Readable(p) && (index > 0 && p.itemAmount == 0 ==> ZeroDeleted(p))
  }

  // insert_item: slot first, payload second.
  function Inserted(p: PageData, item: seq<byte>, setNew: bool): (r: PageData)
    requires p.freeStart + SLOT_SIZE <= |p.contents| < U16_LIMIT
    requires |item| <= p.freeEnd <= |p.contents|
    ensures |r.contents| == |p.contents|
  {
    var offset := p.freeEnd - |item|;
    var flags := if setNew then SetNew(0) else 0;
    PageData(p.itemAmount + 1, p.freeStart + SLOT_SIZE, offset,
      Overwrite(Overwrite(p.contents, p.freeStart, SlotBytes(Slot(offset, |item|, flags))), offset, item))
  }

  function NewEntry(item: seq<byte>, setNew: bool): Entry
  {
    Entry(if setNew then SetNew(0) else 0, item)
  }

  lemma SlotWritten(c: seq<byte>, i: nat, s: Slot)
    requires SLOT_SIZE * i + SLOT_SIZE <= |c|
    requires s.offset < U16_LIMIT && s.size < U16_LIMIT && s.flags < U16_LIMIT
    ensures SlotAt(Overwrite(c, SLOT_SIZE * i, SlotBytes(s)), i) == s
  {
    SlotFromBytes(Overwrite(c, SLOT_SIZE * i, SlotBytes(s)), i, SlotBytes(s), 0);
  }

  // The bytes written by an insertion.
  lemma InsertedBytes(p: PageData, item: seq<byte>, setNew: bool, n: nat)
    requires p.freeStart == SLOT_SIZE * n && p.freeEnd <= |p.contents| < U16_LIMIT
    requires SLOT_SIZE + |item| <= p.freeEnd - p.freeStart
    ensures var p' := Inserted(p, item, setNew);
            && SlotAt(p'.contents, n) == Slot(p.freeEnd - |item|, |item|, NewEntry(item, setNew).flags)
            && p'.contents[p.freeEnd - |item|..p.freeEnd] == item
            && forall k :: 0 <= k < p.freeStart || p.freeEnd <= k < |p.contents| ==> p'.contents[k] == p.contents[k]
  {
    hide SlotAt, SlotBytes;
    var slot := Slot(p.freeEnd - |item|, |item|, NewEntry(item, setNew).flags);
    SlotWritten(p.contents, n, slot);
    var c1 := Overwrite(p.contents, p.freeStart, SlotBytes(slot));
    SlotFromBytes(Inserted(p, item, setNew).contents, n, c1, n);
  }

  // With room for slot and payload, exactly one entry is appended and the page stays packed.
  lemma InsertedFormed(p: PageData, item: seq<byte>, setNew: bool)
    requires Formed(p) && |p.contents| < U16_LIMIT
    requires SLOT_SIZE + |item| <= p.freeEnd - p.freeStart
    ensures var p' := Inserted(p, item, setNew);
            Formed(p') && Entries(p') == Entries(p) + [NewEntry(item, setNew)]
  {
    hide Lays, SlotAt, Overwrite, Entries;
    var es, x, p' := Entries(p), NewEntry(item, setNew), Inserted(p, item, setNew);
    InsertedBytes(p, item, setNew, |es|);
    AppendLays(p.contents, es, x, p'.contents);
    UsedAppend(es, x);
    LaysRead(p', es + [x]);
  }

  // Into an empty page the insertion is right exactly when the item leaves room for its slot:
  // a larger payload overlaps the slot that describes it.
  lemma FirstInsert(p: PageData, item: seq<byte>, setNew: bool)
    requires p.itemAmount == 0 && p.freeStart == 0 && p.freeEnd == |p.contents|
    requires SLOT_SIZE <= |p.contents| < U16_LIMIT && |item| <= |p.contents|
    ensures Formed(Inserted(p, item, setNew)) <==> |item| + SLOT_SIZE <= |p.contents|
    ensures |item| + SLOT_SIZE <= |p.contents| ==> Entries(Inserted(p, item, setNew)) == [NewEntry(item, setNew)]
  {
    if |item| + SLOT_SIZE <= |p.contents| {
      InsertedFormed(p, item, setNew);
    }
  }

  // When a vacuum has left free_space_start at 0 but room up to free_space_end, the new slot takes the place
  // of the first entry's.
  lemma FirstEntryOverwritten(p: PageData, item: seq<byte>, setNew: bool)
    requires p.freeStart == 0 < p.itemAmount && SLOT_SIZE * p.itemAmount + SLOT_SIZE <= |p.contents| < U16_LIMIT
    requires SLOT_SIZE + |item| <= p.freeEnd <= |p.contents|
    ensures var es := Entries(Inserted(p, item, setNew));
            |es| == p.itemAmount + 1 && es[0] == NewEntry(item, setNew)
  {
    InsertedBytes(p, item, setNew, 0);
    hide SlotAt;
  }

  // ---- the pages of a group ----

  function PagesOf(data: map<PageId, PageData>, chain: seq<PageId>): (r: seq<seq<Entry>>)
    ensures |r| == |chain|
  {
    seq(|chain|, j requires 0 <= j < |chain| => if chain[j] in data then Entries(data[chain[j]]) else [])
  }

  // Appending an entry to page `at`, or a page of its own behind the last page.
  function InsertInto(pages: seq<seq<Entry>>, at: nat, x: Entry): seq<seq<Entry>>
  {
    if at < |pages| then pages[at := pages[at] + [x]] else pages + [[x]]
  }

  // Every page has the right size; every page of a group can be scanned and, except the pages `ill`,
  // is well formed.
  ghost predicate DataInv(cap: nat, data: map<PageId, PageData>, place: map<PageId, Place>, ill: set<PageId>)
  {
    && SLOT_SIZE <= cap < U16_LIMIT
    && data.Keys == place.Keys
    && (forall id :: id in ill ==> id in place && place[id].list != NULL_ID)
    && forall id :: id in place ==> PageInv(cap, data[id], place[id], id in ill)
  }

  ghost predicate PageInv(cap: nat, p: PageData, q: Place, ill: bool)
  {
    && |p.contents| == cap
    && (q.list != NULL_ID ==> Scannable(p, q.index))
    && (q.list != NULL_ID && !ill ==> Formed(p))
  }

  // ---- which page takes a new item ----

  // The test for room, by the free-space pointers of a page: strictly more than the item needs.
  predicate Takes(p: PageData, size: nat)
  {
    size + SLOT_SIZE < p.freeEnd - p.freeStart
  }

  // insert_item stays in the page.
  predicate Accepts(p: PageData, item: seq<byte>)
  {
    p.freeStart + SLOT_SIZE <= |p.contents| < U16_LIMIT && |item| <= p.freeEnd <= |p.contents|
  }

  // The slot insert_item writes is that of the first entry.
  predicate Overwriting(p: PageData)
  {
    p.freeStart == 0 < p.itemAmount && SLOT_SIZE * p.itemAmount + SLOT_SIZE <= |p.contents|
  }

  lemma FormedEnd(p: PageData)
    requires Formed(p)
    ensures p.freeEnd <= |p.contents|
  {
  }

  // The pages with wrong pointers have not changed.
  ghost predicate IllKept(data0: map<PageId, PageData>, data: map<PageId, PageData>, ill: set<PageId>)
  {
    forall id :: id in ill ==> id in data0 && id in data && data[id] == data0[id]
  }

  lemma SizeOf(cap: nat, data: map<PageId, PageData>, place: map<PageId, Place>, ill: set<PageId>, id: PageId)
    requires DataInv(cap, data, place, ill) && id in data
    ensures |data[id].contents| == cap && SLOT_SIZE <= cap < U16_LIMIT
  {
    assert PageInv(cap, data[id], place[id], id in ill);
  }

  lemma PartitionOf(groups: PageGroupManager, stale: set<PageId>)
    requires groups.Inv(false, stale)
    ensures Partition(groups.lists, groups.place, groups.pageAmount)
  {
  }

  lemma EntriesAt(data: map<PageId, PageData>, chain: seq<PageId>, j: nat)
    requires j < |chain| && chain[j] in data
    ensures PagesOf(data, chain)[j] == Entries(data[chain[j]])
  {
  }

  lemma IllInGroups(cap: nat, data: map<PageId, PageData>, place: map<PageId, Place>, ill: set<PageId>)
    requires DataInv(cap, data, place, ill)
    ensures forall id :: id in ill ==> id in data && id in place && place[id].list != NULL_ID
  {
  }

  // The scan for room wants strictly more room than the item needs.
  predicate Roomy(cap: nat, es: seq<Entry>, size: nat)
  {
    size + SLOT_SIZE < cap - Used(es) - SLOT_SIZE * |es|
  }

  lemma RoomOf(p: PageData, size: nat)
    requires Formed(p)
    ensures Takes(p, size) <==> Roomy(|p.contents|, Entries(p), size)
    ensures SLOT_SIZE + Used(Entries(p)) + p.freeStart <= |p.contents| + SLOT_SIZE
  {
  }

  lemma InsertedFits(p: PageData, item: seq<byte>, setNew: bool)
    requires Formed(p) && SLOT_SIZE <= |p.contents| < U16_LIMIT
    requires SLOT_SIZE + |item| <= p.freeEnd - p.freeStart
    ensures var p' := Inserted(p, item, setNew);
            && Entries(p') == Entries(p) + [NewEntry(item, setNew)]
            && forall q: Place :: PageInv(|p.contents|, p', q, false)
  {
    InsertedFormed(p, item, setNew);
    assert Inserted(p, item, setNew).itemAmount > 0;
  }

  // Only the head and the last page are tried, and pages at `shut` are passed over; |pages| stands for a new page.
  function InsertPositionBut(cap: nat, pages: seq<seq<Entry>>, size: nat, shut: set<nat>): (at: nat)
    requires |pages| > 0
    ensures at <= |pages| && (at in shut ==> at == |pages|)
    ensures at < |pages| ==> Roomy(cap, pages[at], size)
  {
    if 0 !in shut && Roomy(cap, pages[0], size) then 0
    else if |pages| - 1 !in shut && Roomy(cap, pages[|pages| - 1], size) then |pages| - 1
    else |pages|
  }

  function InsertPosition(cap: nat, pages: seq<seq<Entry>>, size: nat): (at: nat)
    requires |pages| > 0
    ensures at <= |pages|
    ensures at < |pages| ==> Roomy(cap, pages[at], size)
  {
    InsertPositionBut(cap, pages, size, {})
  }

  // ---- how the pages of the groups change ----

  lemma PagesFrame(data: map<PageId, PageData>, data': map<PageId, PageData>, chain: seq<PageId>)
    requires forall i :: 0 <= i < |chain| ==> (chain[i] in data <==> chain[i] in data')
    requires forall i :: 0 <= i < |chain| && chain[i] in data ==> data'[chain[i]] == data[chain[i]]
    ensures PagesOf(data', chain) == PagesOf(data, chain)
  {
  }

  // Writing one page changes the entries of that page in its own chain only.
  lemma WriteOnePage(data: map<PageId, PageData>, lists: Lists, place: map<PageId, Place>, n: nat, g: PageId, j: nat,
                     p': PageData)
    requires Partition(lists, place, n) && data.Keys == place.Keys
    requires g in lists && j < |lists[g]|
    ensures var data' := data[lists[g][j] := p'];
            && PagesOf(data', lists[g]) == PagesOf(data, lists[g])[j := Entries(p')]
            && forall h :: h in lists && h != g ==> PagesOf(data', lists[h]) == PagesOf(data, lists[h])
  {
    hide Located;
    var data' := data[lists[g][j] := p'];
    forall i | 0 <= i < |lists[g]| && lists[g][i] == lists[g][j]
      ensures i == j
    {
      DistinctPages(lists, place, n, g, i, j);
    }
    assert PagesOf(data', lists[g]) == PagesOf(data, lists[g])[j := Entries(p')];
    forall h | h in lists && h != g
      ensures PagesOf(data', lists[h]) == PagesOf(data, lists[h])
    {
      forall i | 0 <= i < |lists[h]|
        ensures lists[h][i] != lists[g][j]
      {
        assert place[lists[h][i]] == Place(h, i) && place[lists[g][j]] == Place(g, j);
      }
      PagesFrame(data, data', lists[h]);
    }
  }

  lemma WriteKeepsData(cap: nat, data: map<PageId, PageData>, place: map<PageId, Place>, ill: set<PageId>, id: PageId,
                       p': PageData)
    requires DataInv(cap, data, place, ill) && id in place
    requires PageInv(cap, p', place[id], id in ill)
    ensures DataInv(cap, data[id := p'], place, ill)
  {
    hide PageInv;
  }

  // A page taken for a group of its own (index 0) or behind a chain: the other groups keep their pages.
  lemma TakePageData(cap: nat, data: map<PageId, PageData>, place: map<PageId, Place>, place': map<PageId, Place>,
                     id: PageId, p': PageData, ill: set<PageId>)
    requires DataInv(cap, data, place, ill) && id !in ill
    requires place'.Keys == place.Keys + {id}
    requires forall x :: x in place && x != id ==> (place[x].list == NULL_ID <==> place'[x].list == NULL_ID)
    requires forall x :: x in place && x != id && place[x].list != NULL_ID ==> place'[x] == place[x]
    requires PageInv(cap, p', place'[id], false)
    ensures DataInv(cap, data[id := p'], place', ill)
  {
    hide Scannable, Formed;
  }

  lemma TakePagePages(data: map<PageId, PageData>, lists: Lists, place: map<PageId, Place>, n: nat, id: PageId,
                      p': PageData)
    requires Partition(lists, place, n) && data.Keys == place.Keys
    requires if lists[NULL_ID] == [] then id == n + 1 else id == lists[NULL_ID][0]
    ensures forall h :: h in lists && h != NULL_ID ==> PagesOf(data[id := p'], lists[h]) == PagesOf(data, lists[h])
  {
    hide Located;
    NewPageIsNoGroup(lists, place, n, id);
    forall h | h in lists && h != NULL_ID
      ensures PagesOf(data[id := p'], lists[h]) == PagesOf(data, lists[h])
    {
      forall i | 0 <= i < |lists[h]|
        ensures lists[h][i] != id
      {
        assert place[lists[h][i]] == Place(h, i);
      }
      PagesFrame(data, data[id := p'], lists[h]);
    }
  }

  function EmptyPage(p: PageData): PageData
  {
    p.(freeStart := 0, freeEnd := |p.contents|, itemAmount := 0)
  }

  const DATA_HEADER_SIZE: nat := 6   // item_amount, free_space_start, free_space_end

  lemma FirstInsertInv(p: PageData, item: seq<byte>, setNew: bool, q: Place)
    requires p == EmptyPage(p) && SLOT_SIZE <= |p.contents| < U16_LIMIT && |item| <= |p.contents|
    ensures PageInv(|p.contents|, Inserted(p, item, setNew), q, false) <==>
              q.list == NULL_ID || |item| + SLOT_SIZE <= |p.contents|
    ensures |item| + SLOT_SIZE <= |p.contents| ==> Entries(Inserted(p, item, setNew)) == [NewEntry(item, setNew)]
  {
    FirstInsert(p, item, setNew);
    assert Inserted(p, item, setNew).itemAmount == 1;
  }

  // A chain that grew by one page.
  lemma PagesGrown(data: map<PageId, PageData>, chain: seq<PageId>, id: PageId)
    requires id in data
    ensures PagesOf(data, chain + [id]) == PagesOf(data, chain) + [Entries(data[id])]
  {
  }

  // What is known about a page that has just been taken.
  lemma TakenReady(cap: nat, data: map<PageId, PageData>, h: Headers, lists: Lists, place: map<PageId, Place>,
                   id: PageId, stale: set<PageId>, ill: set<PageId>)
    requires GroupsInv(h, lists, place, false, stale) && DataInv(cap, data, place, ill)
    requires if lists[NULL_ID] == [] then id == h.pageAmount + 1 else id == lists[NULL_ID][0]
    ensures Partition(lists, place, h.pageAmount) && id !in lists && id != NULL_ID
    ensures data.Keys == place.Keys
    ensures id in data ==> |data[id].contents| == cap
  {
    NewPageIsNoGroup(lists, place, h.pageAmount, id);
    assert id in data ==> PageInv(cap, data[id], place[id], id in ill);
  }

  lemma TakenPlace(lists: Lists, place: map<PageId, Place>, id: PageId)
    ensures id in TakeNewPlace(lists, place, id) && TakeNewPlace(lists, place, id)[id] == Place(id, 0)
    ensures TakeNewPlace(lists, place, id)[id := Place(id, 0)] == TakeNewPlace(lists, place, id)
  {
  }

  lemma TakenPlaces(lists: Lists, place: map<PageId, Place>, place': map<PageId, Place>, id: PageId)
    requires id in place' && place' == TakeNewPlace(lists, place, id)[id := place'[id]]
    ensures place'.Keys == place.Keys + {id}
    ensures forall x :: x in place && x != id ==> (place[x].list == NULL_ID <==> place'[x].list == NULL_ID)
    ensures forall x :: x in place && x != id && place[x].list != NULL_ID ==> place'[x] == place[x]
  {
  }

  lemma EmptyPageInv(p: PageData, q: Place)
    requires p == EmptyPage(p) && q.index == 0 && SLOT_SIZE <= |p.contents|
    ensures PageInv(|p.contents|, p, q, false) && Entries(p) == []
  {
  }

  class PageDataManager {
    const groups: PageGroupManager
    const cap: nat                        // bytes behind the page data header
    var data: map<PageId, PageData>       // page data headers and contents, by page id

    // The invariant, except that `previous` of the heads `stale` and the free-space pointers of the pages
    // `ill` may be wrong.
    ghost predicate Inv(stale: set<PageId>, ill: set<PageId>)
      reads this, groups
    {
      && groups.Inv(false, stale)
      && DataInv(cap, data, groups.place, ill)
    }

    ghost predicate Valid()
      reads this, groups
    {
      Inv({}, {})
    }

    // What insertion looks at: the head, and when that does not take the item the page its `previous` names, which
    // a stale head has elsewhere.
    ghost predicate Aimed(g: PageId, size: nat, stale: set<PageId>)
      requires g in groups.lists
      reads this, groups
    {
      && g in groups.links && g in data && data[g].freeEnd <= cap
      && (Takes(data[g], size) || AimedLast(g, stale))
    }

    ghost predicate AimedLast(g: PageId, stale: set<PageId>)
      requires g in groups.lists && g in groups.links
      reads this, groups
    {
      var last := groups.links[g].previous;
      && last in groups.links && last != NULL_ID && last in data && data[last].freeEnd <= cap
      && (g in stale ==> last !in groups.lists[g])
    }

    // The page that takes an item of this size, if one does.
    ghost function Target(g: PageId, size: nat): PageId
      reads this, groups
    {
      if g in data && Takes(data[g], size) then g
      else if g in groups.links then
        var last := groups.links[g].previous;
        if last != g && last in data && Takes(data[last], size) then last else NULL_ID
      else NULL_ID
    }

    // The pages of g.
    ghost function PageIds(g: PageId): set<PageId>
      reads groups
    {
      if g in groups.lists then (set id | id in groups.lists[g]) else {}
    }

    // Entries of the pages of g, in chain order, as found through item_amount.
    ghost function Pages(g: PageId): seq<seq<Entry>>
      reads this, groups
    {
      if g in groups.lists then PagesOf(data, groups.lists[g]) else []
    }

    constructor (cap: nat)
      requires SLOT_SIZE <= cap < U16_LIMIT
      ensures Valid() && this.cap == cap && fresh(groups)
      ensures groups.lists == map[NULL_ID := []]
    {
      this.cap := cap;
      groups := new PageGroupManager();
      data := map[];
    }

    // insert_item on page id.
    method InsertItem(id: PageId, item: seq<byte>, setNew: bool)
      requires id in data
      requires data[id].freeStart + SLOT_SIZE <= |data[id].contents| < U16_LIMIT
      requires |item| <= data[id].freeEnd <= |data[id].contents|
      modifies `data
      ensures data == old(data)[id := Inserted(old(data)[id], item, setNew)]
    {
      var p := data[id];
      var offset := p.freeEnd - |item|;
      var slot := Slot(offset, |item|, if setNew then SetNew(0) else 0);
      data := data[id := p.(freeStart := p.freeStart + SLOT_SIZE, freeEnd := offset, itemAmount := p.itemAmount + 1,
                            contents := Overwrite(p.contents, p.freeStart, SlotBytes(slot)))];
      data := data[id := data[id].(contents := Overwrite(data[id].contents, offset, item))];
    }

    // page_manager_create_page zeroes a page that is minted; a reused page keeps its bytes.
    method ZeroIfMinted(id: PageId)
      modifies `data
      ensures data == if id in old(data) then old(data) else old(data)[id := PageData(0, 0, 0, seq(cap, _ => 0))]
    {
      if id !in data {
        data := data[id := PageData(0, 0, 0, seq(cap, _ => 0))];
      }
    }

    method InitializePage(id: PageId)
      requires id in data && |data[id].contents| == cap
      modifies `data
      ensures data == old(data)[id := EmptyPage(old(data)[id])]
    {
      data := data[id := data[id].(freeStart := 0, freeEnd := cap, itemAmount := 0)];
    }

    lemma GroupsValid(stale: set<PageId>, ill: set<PageId>)
      requires Inv(stale, ill)
      ensures groups.Inv(false, stale) && GroupsInv(groups.Head(), groups.lists, groups.place, false, stale)
      ensures DataInv(cap, data, groups.place, ill)
      ensures NULL_ID in groups.lists
    {
    }

    // The page of a chain, by position.
    lemma PageAt(g: PageId, j: nat, stale: set<PageId>, ill: set<PageId>)
      requires Inv(stale, ill) && groups.IsGroup(g) && j < |groups.lists[g]|
      ensures var id := groups.lists[g][j];
              && id in data && id in groups.place && groups.place[id] == Place(g, j) && id != NULL_ID
              && |data[id].contents| == cap && SLOT_SIZE <= cap < U16_LIMIT
              && Scannable(data[id], j) && (id !in ill ==> Formed(data[id]))
              && Pages(g)[j] == Entries(data[id]) && |Pages(g)[j]| == data[id].itemAmount &&
                |Pages(g)| == |groups.lists[g]|
    {
      PlaceOf(groups.lists, groups.place, groups.pageAmount, g, j);
      var id := groups.lists[g][j];
      assert PageInv(cap, data[id], groups.place[id], id in ill);
    }

    lemma NotEmpty(g: PageId, stale: set<PageId>, ill: set<PageId>)
      requires Inv(stale, ill) && groups.IsGroup(g)
      ensures |groups.lists[g]| > 0 && groups.lists[g][0] == g && |Pages(g)| == |groups.lists[g]|
    {
    }

    lemma NextAt(g: PageId, j: nat, stale: set<PageId>, ill: set<PageId>)
      requires Inv(stale, ill) && groups.IsGroup(g) && j < |groups.lists[g]|
      ensures var id := groups.lists[g][j];
              && id in groups.links && groups.links[id].next == NextIn(groups.lists[g], j)
              && (j + 1 < |groups.lists[g]| ==>
                    groups.lists[g][j + 1] in groups.links && groups.lists[g][j + 1] != NULL_ID)
    {
      hide PageInv, Partition;
      PlaceOf(groups.lists, groups.place, groups.pageAmount, g, j);
      if j + 1 < |groups.lists[g]| {
        PlaceOf(groups.lists, groups.place, groups.pageAmount, g, j + 1);
      }
    }

    // The first loop of page_data_manager_insert: the head and the page its `previous` names are tried for room.
    method FindRoom(g: PageId, size: nat, ghost stale: set<PageId>) returns (found: bool, id: PageId)
      requires groups.IsGroup(g) && Aimed(g, size, stale)
      ensures found == (Target(g, size) != NULL_ID)
      ensures found ==> id == Target(g, size) && id in data && Takes(data[id], size)
      // the head when it has more room than slot and item, or else the page it names when that has
      ensures groups.links[g].previous in data || size + SLOT_SIZE < data[g].freeEnd - data[g].freeStart
      ensures var last := groups.links[g].previous;
              if size + SLOT_SIZE < data[g].freeEnd - data[g].freeStart then found && id == g
              else if size + SLOT_SIZE < data[last].freeEnd - data[last].freeStart then found && id == last
              else !found
    {
      var it := new PageIterator(groups, g, true);
      found, id := false, NULL_ID;
      var counter := 0;
      ghost var last := groups.links[g].previous;
      while it.HasNext()
        invariant it.manager == groups && it.inverse && it.groupId == g
        invariant 0 <= counter <= 2 && it.started == (counter > 0)
        invariant counter == 0 ==> it.nextId == g
        invariant counter == 1 ==> it.nextId == last
        invariant counter > 0 ==> !Takes(data[g], size)
        invariant counter > 1 ==> last == g || !Takes(data[last], size)
        decreases 3 - counter
      {
        counter := counter + 1;
        if counter == 3 {
          break;
        }
        var ok := it.Next();
        if Takes(data[it.currentId], size) {
          return true, it.currentId;
        }
      }
    }

    // A group that is fit for writes: the head and the last page are tried.
    lemma TargetOf(g: PageId, size: nat, shut: set<nat>, stale: set<PageId>, ill: set<PageId>)
      requires Inv(stale, ill) && groups.IsGroup(g)
      requires forall j :: j in shut <==> 0 <= j < |groups.lists[g]| && groups.lists[g][j] in ill
      requires forall j :: j in shut && (j == 0 || j == |groups.lists[g]| - 1) ==>
                 && groups.lists[g][j] in data
                 && data[groups.lists[g][j]].freeEnd <= cap && !Takes(data[groups.lists[g][j]], size)
      requires |Pages(g)| > 0 && g in stale ==> InsertPositionBut(cap, Pages(g), size, shut) == 0
      ensures Aimed(g, size, stale) && |Pages(g)| == |groups.lists[g]| > 0
      ensures var at := InsertPositionBut(cap, Pages(g), size, shut);
              && Target(g, size) == (if at < |groups.lists[g]| then groups.lists[g][at] else NULL_ID)
              && (at < |groups.lists[g]| ==> groups.lists[g][at] != NULL_ID)
    {
      hide PageDataManager.Inv, PageDataManager.Pages, GroupsInv, Scannable, Formed, Entries, Roomy;
      var chain := groups.lists[g];
      GroupsValid(stale, ill);
      NotEmpty(g, stale, ill);
      ReadNext(groups.Head(), groups.lists, groups.place, g, stale);
      TakesAt(g, 0, size, stale, ill);
      TakesAt(g, |chain| - 1, size, stale, ill);
      if g !in stale {
        ReadChain(groups.Head(), groups.lists, groups.place, g, stale);
        assert LinkAt(groups.links, chain, 0) && LinkAt(groups.links, chain, |chain| - 1);
      }
    }

    lemma TakesAt(g: PageId, j: nat, size: nat, stale: set<PageId>, ill: set<PageId>)
      requires Inv(stale, ill) && groups.IsGroup(g) && j < |groups.lists[g]| && j < |Pages(g)|
      ensures groups.lists[g][j] in data
      ensures var id := groups.lists[g][j];
              id !in ill ==> data[id].freeEnd <= cap && (Takes(data[id], size) <==> Roomy(cap, Pages(g)[j], size))
    {
      hide PageDataManager.Inv, PageDataManager.Pages, Scannable, Formed, Roomy;
      PageAt(g, j, stale, ill);
      var id := groups.lists[g][j];
      if id !in ill {
        RoomOf(data[id], size);
        FormedEnd(data[id]);
      }
    }

    // insert_item on page `at` of the chain of g, when its pointers are right.
    lemma InsertedAt(data0: map<PageId, PageData>, g: PageId, at: nat, item: seq<byte>, setNew: bool,
                     stale: set<PageId>, ill: set<PageId>)
      requires groups.Inv(false, stale) && DataInv(cap, data0, groups.place, ill) && groups.IsGroup(g)
      requires at < |groups.lists[g]| && groups.lists[g][at] !in ill
      requires var id := groups.lists[g][at];
               && id in data0 && Takes(data0[id], |item|) && Accepts(data0[id], item)
               && data == data0[id := Inserted(data0[id], item, setNew)]
      ensures Inv(stale, ill) && IllKept(data0, data, ill)
      ensures Pages(g) == InsertInto(PagesOf(data0, groups.lists[g]), at, NewEntry(item, setNew))
      ensures forall h :: groups.IsGroup(h) && h != g ==> Pages(h) == PagesOf(data0, groups.lists[h])
    {
      hide PageDataManager.Inv, GroupsInv, Scannable, Formed, PagesOf, Inserted, Roomy;
      var id := groups.lists[g][at];
      PlaceOf(groups.lists, groups.place, groups.pageAmount, g, at) by {
        PartitionOf(groups, stale);
      }
      assert PageInv(cap, data0[id], groups.place[id], id in ill);
      RoomOf(data0[id], |item|);
      InsertedFits(data0[id], item, setNew);
      IllInGroups(cap, data0, groups.place, ill);
      hide DataInv, PageInv;
      KeepsInv(data0, g, at, data[id], stale, ill);
      EntriesAt(data0, groups.lists[g], at);
    }

    // insert_item on page `at` of the chain of g, when its free space starts at 0.
    lemma OverwrittenAt(data0: map<PageId, PageData>, g: PageId, at: nat, item: seq<byte>, setNew: bool)
      requires groups.IsGroup(g) && at < |groups.lists[g]|
      requires var id := groups.lists[g][at];
               && id in data0 && Takes(data0[id], |item|) && Accepts(data0[id], item) && Overwriting(data0[id])
               && data == data0[id := Inserted(data0[id], item, setNew)]
      ensures at < |Pages(g)| && Pages(g)[at] != [] && Pages(g)[at][0] == NewEntry(item, setNew)
    {
      FirstEntryOverwritten(data0[groups.lists[g][at]], item, setNew);
      hide Entries, Inserted;
    }

    // Replacing page j of the chain of g by a page that fits its place keeps the invariant.
    lemma KeepsInv(data0: map<PageId, PageData>, g: PageId, j: nat, p': PageData, stale: set<PageId>, ill: set<PageId>)
      requires groups.Inv(false, stale) && DataInv(cap, data0, groups.place, ill)
      requires groups.IsGroup(g) && j < |groups.lists[g]| && data == data0[groups.lists[g][j] := p']
      requires PageInv(cap, p', Place(g, j), groups.lists[g][j] in ill)
      ensures Inv(stale, ill)
      ensures Pages(g) == PagesOf(data0, groups.lists[g])[j := Entries(p')]
      ensures forall h :: groups.IsGroup(h) && h != g ==> Pages(h) == PagesOf(data0, groups.lists[h])
    {
      hide PageInv, Linked;
      PlaceOf(groups.lists, groups.place, groups.pageAmount, g, j);
      WriteKeepsData(cap, data0, groups.place, ill, groups.lists[g][j], p');
      WriteOnePage(data0, groups.lists, groups.place, groups.pageAmount, g, j, p');
    }

    // A page taken by the group manager, filled with p', in the place it was given.
    lemma TakenInv(data0: map<PageId, PageData>, lists0: Lists, place0: map<PageId, Place>, n0: nat, id: PageId,
                   p': PageData, stale: set<PageId>, ill: set<PageId>)
      requires Partition(lists0, place0, n0) && DataInv(cap, data0, place0, ill)
      requires if lists0[NULL_ID] == [] then id == n0 + 1 else id == lists0[NULL_ID][0]
      requires groups.Inv(false, stale) && id in groups.place && groups.place[id].list != NULL_ID
      requires groups.place == TakeNewPlace(lists0, place0, id)[id := groups.place[id]]
      requires data == data0[id := p'] && PageInv(cap, p', groups.place[id], false)
      ensures Inv(stale, ill)
      ensures forall h :: h in lists0 && h != NULL_ID ==> PagesOf(data, lists0[h]) == PagesOf(data0, lists0[h])
    {
      hide PageInv, GroupsInv, Partition, TakeNewPlace, PagesOf;
      TakenPlaces(lists0, place0, groups.place, id);
      NewPageIsNoGroup(lists0, place0, n0, id);
      IllInGroups(cap, data0, place0, ill);
      TakePageData(cap, data0, place0, groups.place, id, p', ill);
      TakePagePages(data0, lists0, place0, n0, id, p');
    }

    // A page group starts as one empty page.
    method CreateGroup(ghost stale: set<PageId>, ghost ill: set<PageId>) returns (g: PageId)
      requires Inv(stale, ill)
      modifies `data, groups
      ensures Inv(stale, ill) && groups.IsGroup(g) && g !in old(groups.lists) && g !in stale && g !in ill
      ensures IllKept(old(data), data, ill) && g in groups.lists && groups.lists[g] == [g]
      ensures Pages(g) == [[]]
      ensures groups.lists == TakeNew(old(groups.lists), g)
      ensures forall h :: old(groups.IsGroup(h)) ==>
                groups.IsGroup(h) && groups.lists[h] == old(groups.lists[h]) && Pages(h) == old(Pages(h))
    {
      hide PageDataManager.Inv, GroupsInv, DataInv, PageInv, Partition, TakeNewPlace;
      ghost var data0, h0, lists0, place0 := data, groups.Head(), groups.lists, groups.place;
      GroupsValid(stale, ill);
      g := groups.CreateGroup(stale);
      ZeroIfMinted(g);
      TakenReady(cap, data0, h0, lists0, place0, g, stale, ill);
      InitializePage(g);
      EmptyPageInv(data[g], Place(g, 0));
      TakenPlace(lists0, place0, g);
      NewPageIsNoGroup(lists0, place0, h0.pageAmount, g);
      IllInGroups(cap, data0, place0, ill);
      TakenInv(data0, lists0, place0, h0.pageAmount, g, data[g], stale, ill);
    }

    // The rest of page_data_manager_insert: no page takes the item, so it goes to a new last page. Behind a stale
    // head the new page is on no chain, and the item is lost.
    method InsertIntoNewPage(g: PageId, item: seq<byte>, setNew: bool, ghost stale: set<PageId>, ghost ill: set<PageId>)
      requires Inv(stale, ill) && groups.IsGroup(g) && |item| <= cap && g in groups.links && AimedLast(g, stale)
      modifies `data, groups
      ensures groups.IsGroup(g) && old(groups.lists)[g] <= groups.lists[g]
      ensures g !in stale ==> (Inv(stale, ill) <==> |item| + SLOT_SIZE <= cap) && IllKept(old(data), data, ill)
      ensures g !in stale && |item| + SLOT_SIZE <= cap ==> Pages(g) == old(Pages(g)) + [[NewEntry(item, setNew)]]
      ensures g !in stale ==>
                forall j :: |old(groups.lists)[g]| <= j < |groups.lists[g]| ==> groups.lists[g][j] !in ill
      ensures g !in stale ==>
                forall h :: old(groups.IsGroup(h)) && h != g ==>
                  groups.IsGroup(h) && groups.lists[h] == old(groups.lists[h]) && Pages(h) == old(Pages(h))
      ensures g in stale ==> Pages(g) == old(Pages(g)) && NextChain(groups.links, groups.lists[g])
      ensures g in stale ==> groups.lists[g] == old(groups.lists)[g]
    {
      hide PageDataManager.Inv, GroupsInv, DataInv, PageInv, Partition, TakeNewPlace, Inserted, Entries, PagesOf;
      ghost var data0, h0, lists0, place0 := data, groups.Head(), groups.lists, groups.place;
      GroupsValid(stale, ill);
      var id := groups.AddPage(g, stale);
      TakenReady(cap, data0, h0, lists0, place0, id, stale, ill);
      ZeroIfMinted(id);
      InitializePage(id);
      ghost var q := Place(g, |lists0[g]|);
      FirstInsertInv(data[id], item, setNew, q);
      InsertItem(id, item, setNew);
      if g !in stale {
        NewPageDone(data0, lists0, place0, h0.pageAmount, g, id, data[id], stale, ill);
      } else {
        PagesFrame(data0, data, lists0[g]);
      }
    }

    // A page with p' was taken and put behind the chain of g.
    lemma NewPageDone(data0: map<PageId, PageData>, lists0: Lists, place0: map<PageId, Place>, n0: nat, g: PageId,
                      id: PageId, p': PageData, stale: set<PageId>, ill: set<PageId>)
      requires Partition(lists0, place0, n0) && DataInv(cap, data0, place0, ill) && g in lists0 && g != NULL_ID
      requires data0.Keys == place0.Keys && NULL_ID in lists0
      requires if lists0[NULL_ID] == [] then id == n0 + 1 else id == lists0[NULL_ID][0]
      requires groups.Inv(false, stale) && groups.lists == Attach(TakeNew(lists0, id), g, id) && id !in lists0
      requires groups.place == TakeNewPlace(lists0, place0, id)[id := Place(g, |lists0[g]|)]
      requires data == data0[id := p']
      ensures Inv(stale, ill) <==> PageInv(cap, p', Place(g, |lists0[g]|), false)
      ensures IllKept(data0, data, ill) && g in groups.lists
      ensures forall j :: |lists0[g]| <= j < |groups.lists[g]| ==> groups.lists[g][j] !in ill
      ensures groups.IsGroup(g) && lists0[g] <= groups.lists[g]
      ensures Pages(g) == PagesOf(data0, lists0[g]) + [Entries(p')]
      ensures forall h :: h in lists0 && h != NULL_ID && h != g ==>
                groups.IsGroup(h) && groups.lists[h] == lists0[h] && Pages(h) == PagesOf(data0, lists0[h])
    {
      hide PageGroupManager.Inv, Partition, DataInv, PageInv, TakeNewPlace, Entries, PagesOf;
      TakePagePages(data0, lists0, place0, n0, id, p');
      PagesGrown(data, lists0[g], id);
      NewPageIsNoGroup(lists0, place0, n0, id);
      TakenPlaces(lists0, place0, groups.place, id);
      IllInGroups(cap, data0, place0, ill);
      if PageInv(cap, p', Place(g, |lists0[g]|), false) {
        TakenInv(data0, lists0, place0, n0, id, p', stale, ill);
      } else {
        NotInv(id, stale, ill);
      }
    }

    lemma NotInv(id: PageId, stale: set<PageId>, ill: set<PageId>)
      requires id in groups.place && id in data && id !in ill && !PageInv(cap, data[id], groups.place[id], false)
      ensures !Inv(stale, ill)
    {
    }

    function MaxItemSize(): nat
    {
      cap + DATA_HEADER_SIZE - SLOT_SIZE
    }

    // insert_item on the page that takes the item: a page of the group that is fit for writes gains one entry; a page
    // whose free space starts at 0 loses its first entry to it; a page a stale head names is not of the group.
    method InsertOn(g: PageId, id: PageId, item: seq<byte>, setNew: bool, ghost stale: set<PageId>,
                    ghost ill: set<PageId>)
      requires Inv(stale, ill) && groups.IsGroup(g) && Aimed(g, |item|, stale) && |Pages(g)| == |groups.lists[g]|
      requires id == Target(g, |item|) != NULL_ID
      modifies `data
      ensures id in old(data) && Accepts(old(data)[id], item)
      ensures data == old(data)[id := Inserted(old(data)[id], item, setNew)]
      ensures forall at {:trigger groups.lists[g][at]} :: 0 <= at < |groups.lists[g]| && groups.lists[g][at] == id ==>
                if id !in ill then
                  && Inv(stale, ill) && IllKept(old(data), data, ill)
                  && Pages(g) == InsertInto(old(Pages(g)), at, NewEntry(item, setNew))
                else Overwriting(old(data)[id]) ==>
                  at < |Pages(g)| && Pages(g)[at] != [] && Pages(g)[at][0] == NewEntry(item, setNew)
      ensures id !in groups.lists[g] ==> Pages(g) == old(Pages(g))
      ensures id in groups.lists[g] ==> forall h :: groups.IsGroup(h) && h != g ==> Pages(h) == old(Pages(h))
    {
      hide PageDataManager.Inv, GroupsInv, DataInv, Inserted, Entries, Overwriting, PagesOf;
      ghost var data0 := data;
      GroupsValid(stale, ill);
      SizeOf(cap, data, groups.place, ill, id);
      InsertItem(id, item, setNew);
      forall at {:trigger groups.lists[g][at]} | 0 <= at < |groups.lists[g]| && groups.lists[g][at] == id
        ensures if id !in ill then
                  && Inv(stale, ill) && IllKept(data0, data, ill)
                  && Pages(g) == InsertInto(PagesOf(data0, groups.lists[g]), at, NewEntry(item, setNew))
                else Overwriting(data0[id]) ==>
                  at < |Pages(g)| && Pages(g)[at] != [] && Pages(g)[at][0] == NewEntry(item, setNew)
      {
        if id !in ill {
          InsertedAt(data0, g, at, item, setNew, stale, ill);
        } else if Overwriting(data0[id]) {
          OverwrittenAt(data0, g, at, item, setNew);
        }
      }
      OtherChains(data0, g, id, stale);
    }

    // Writing a page of the chain of g leaves the pages of the other groups, writing another page those of g.
    lemma OtherChains(data0: map<PageId, PageData>, g: PageId, id: PageId, stale: set<PageId>)
      requires groups.Inv(false, stale) && groups.IsGroup(g) && id in data0 && id in data
      requires data == data0[id := data[id]]
      ensures id !in groups.lists[g] ==> Pages(g) == PagesOf(data0, groups.lists[g])
      ensures id in groups.lists[g] ==>
                forall h :: groups.IsGroup(h) && h != g ==> Pages(h) == PagesOf(data0, groups.lists[h])
    {
      hide PagesOf, Linked;
      if id !in groups.lists[g] {
        PagesFrame(data0, data, groups.lists[g]);
      } else {
        var at :| 0 <= at < |groups.lists[g]| && groups.lists[g][at] == id;
        PlaceOf(groups.lists, groups.place, groups.pageAmount, g, at);
        forall h | groups.IsGroup(h) && h != g
          ensures Pages(h) == PagesOf(data0, groups.lists[h])
        {
          forall i | 0 <= i < |groups.lists[h]|
            ensures groups.lists[h][i] != id
          {
            PlaceOf(groups.lists, groups.place, groups.pageAmount, h, i);
          }
          PagesFrame(data0, data, groups.lists[h]);
        }
      }
    }

    // Where an insertion into a group that is fit for writes puts the item.
    lemma FitPlace(g: PageId, item: seq<byte>, setNew: bool, stale: set<PageId>, ill: set<PageId>)
      requires Inv(stale, ill) && groups.IsGroup(g)
      ensures g !in stale && (forall j :: 0 <= j < |groups.lists[g]| ==> groups.lists[g][j] !in ill) ==>
                var pages, x, id := Pages(g), Entry(if setNew then NEW_MASK else 0, item), Target(g, |item|);
                var last := |pages| - 1;
                && |pages| == |groups.lists[g]| > 0
                && x == NewEntry(item, setNew)
                && if SLOT_SIZE * (|pages[0]| + 1) + Used(pages[0]) + |item| < cap
                   then id == groups.lists[g][0] != NULL_ID && InsertInto(pages, 0, x) == pages[0 := pages[0] + [x]]
                   else if SLOT_SIZE * (|pages[last]| + 1) + Used(pages[last]) + |item| < cap
                   then id == groups.lists[g][last] != NULL_ID &&
                     InsertInto(pages, last, x) == pages[last := pages[last] + [x]]
                   else id == NULL_ID
    {
      hide PageDataManager.Inv, PageDataManager.Pages, GroupsInv, Scannable, Formed, Entries, Used;
      if g !in stale && forall j :: 0 <= j < |groups.lists[g]| ==> groups.lists[g][j] !in ill {
        NotEmpty(g, stale, ill);
        TargetOf(g, |item|, {}, stale, ill);
      }
    }

    // page_data_manager_insert. False stands for the item-size error.
    method Insert(g: PageId, item: seq<byte>, immediate: bool, ghost stale: set<PageId>, ghost ill: set<PageId>)
      returns (ok: bool)
      requires Inv(stale, ill) && groups.IsGroup(g) && (|item| <= MaxItemSize() ==> Aimed(g, |item|, stale))
      modifies `data, groups
      ensures ok <==> |item| <= MaxItemSize()
      ensures ok <==> |item| <= cap
      ensures !ok ==> unchanged(`data) && unchanged(groups)
      ensures groups.IsGroup(g) && old(groups.lists)[g] <= groups.lists[g]
      // a page takes the item, and nothing but that page changes
      ensures var id := old(Target(g, |item|));
              ok && id != NULL_ID ==>
                && unchanged(groups) && id in old(data) && Accepts(old(data)[id], item)
                && data == old(data)[id := Inserted(old(data)[id], item, !immediate)]
                && (forall at {:trigger groups.lists[g][at]} ::
                      0 <= at < |groups.lists[g]| && groups.lists[g][at] == id ==>
                        if id !in ill then
                          && Inv(stale, ill) && IllKept(old(data), data, ill)
                          && Pages(g) == InsertInto(old(Pages(g)), at, NewEntry(item, !immediate))
                        // it takes the slot of the first entry of a page whose free space starts at 0
                        else Overwriting(old(data)[id]) ==>
                          at < |Pages(g)| && Pages(g)[at] != [] && Pages(g)[at][0] == NewEntry(item, !immediate))
                // the page a stale head names is not of the group: the item is lost
                && (id !in groups.lists[g] ==> Pages(g) == old(Pages(g)))
      // a new last page: the limit is six bytes too generous, such an item breaks the page
      ensures ok && old(Target(g, |item|)) == NULL_ID && g !in stale ==>
                && (Inv(stale, ill) <==> |item| + SLOT_SIZE <= cap) && IllKept(old(data), data, ill)
                && (forall j :: |old(groups.lists)[g]| <= j < |groups.lists[g]| ==> groups.lists[g][j] !in ill)
                && (|item| + SLOT_SIZE <= cap ==> Pages(g) == old(Pages(g)) + [[NewEntry(item, !immediate)]])
      // on a group that is fit for writes: the head takes the item when it has more room than slot and item, or else
      // the last page when that has, or else and only then the group has one page more
      ensures |item| + SLOT_SIZE <= cap && g !in stale &&
              (forall j :: 0 <= j < |old(groups.lists)[g]| ==> old(groups.lists)[g][j] !in ill) ==>
                var pages, x := old(Pages(g)), Entry(if immediate then 0 else NEW_MASK, item);
                var last := |pages| - 1;
                && |pages| > 0 && Inv(stale, ill)
                && Pages(g) ==
                   if SLOT_SIZE * (|pages[0]| + 1) + Used(pages[0]) + |item| < cap then pages[0 := pages[0] + [x]]
                   else if SLOT_SIZE * (|pages[last]| + 1) + Used(pages[last]) + |item| < cap
                   then pages[last := pages[last] + [x]]
                   else pages + [[x]]
      // behind a stale head it is on no chain: the item is lost
      ensures ok && old(Target(g, |item|)) == NULL_ID && g in stale ==>
                Pages(g) == old(Pages(g)) && groups.lists[g] == old(groups.lists)[g] &&
                NextChain(groups.links, groups.lists[g])
      ensures !ok || (if old(Target(g, |item|)) == NULL_ID then g !in stale
                      else old(Target(g, |item|)) in old(groups.lists)[g]) ==>
                forall h :: old(groups.IsGroup(h)) && h != g ==>
                  groups.IsGroup(h) && groups.lists[h] == old(groups.lists[h]) && Pages(h) == old(Pages(h))
    {
      hide PageDataManager.Inv, PageDataManager.Pages, GroupsInv, PageGroupManager.Inv, PagesOf, Overwriting, Accepts,
        Inserted, NextChain;
      if |item| > MaxItemSize() {
        return false;
      }
      NotEmpty(g, stale, ill);
      FitPlace(g, item, !immediate, stale, ill);
      var found, id := FindRoom(g, |item|, stale);
      if found {
        InsertOn(g, id, item, !immediate, stale, ill);
      } else {
        InsertIntoNewPage(g, item, !immediate, stale, ill);
      }
      return true;
    }

    // page_data_manager_delete_group: the pages go to the free list with their bytes.
    method DeleteGroup(g: PageId, ghost stale: set<PageId>, ghost ill: set<PageId>)
      requires Inv(stale, ill) && groups.IsGroup(g)
      modifies groups
      ensures NULL_ID in old(groups.lists)
      ensures Inv(stale - {g}, ill - old(PageIds(g)))
      ensures forall h :: groups.IsGroup(h) ==>
                h in old(groups.lists) && h != g && groups.lists[h] == old(groups.lists)[h] &&
                  forall id :: id in groups.lists[h] ==> id !in old(PageIds(g))
      ensures groups.lists == Dissolve(old(groups.lists), g)
      ensures forall h :: groups.IsGroup(h) ==> Pages(h) == old(Pages(h))
    {
      hide GroupsInv, DataInv, DissolvePlace;
      GroupsValid(stale, ill);
      ghost var lists0, place0 := groups.lists, groups.place;
      PartitionOf(groups, stale);
      groups.DeleteGroup(g, stale);
      Belongs(lists0, place0, groups.pageAmount, g);
      DissolvedData(cap, data, lists0, place0, g, ill);
      forall h: PageId, id | groups.IsGroup(h) && id in groups.lists[h]
        ensures h in lists0 && h != g && groups.lists[h] == lists0[h] && id !in lists0[g]
      {
        Belongs(lists0, place0, groups.pageAmount, g);
        Belongs(lists0, place0, groups.pageAmount, h);
      }
    }
  }

  lemma Belongs(lists: Lists, place: map<PageId, Place>, n: nat, g: PageId)
    requires Partition(lists, place, n) && g in lists
    ensures forall id :: id in place ==> (place[id].list == g <==> id in lists[g])
  {
    hide Indexed;
    forall id | id in place
      ensures place[id].list == g <==> id in lists[g]
    {
      assert At(lists, place[id], id);
      if id in lists[g] {
        var i :| 0 <= i < |lists[g]| && lists[g][i] == id;
        PlaceOf(lists, place, n, g, i);
      }
    }
  }

  lemma DissolvedData(cap: nat, data: map<PageId, PageData>, lists: Lists, place: map<PageId, Place>, g: PageId,
                      ill: set<PageId>)
    requires DataInv(cap, data, place, ill) && g in lists && NULL_ID in lists
    requires forall id :: id in place ==> (place[id].list == g <==> id in lists[g])
    ensures DataInv(cap, data, DissolvePlace(lists, place, g), ill - (set id | id in lists[g]))
  {
    hide Scannable, Formed;
    var ill' := ill - (set id | id in lists[g]);
    forall id | id in place
      ensures PageInv(cap, data[id], DissolvePlace(lists, place, g)[id], id in ill')
    {
      assert PageInv(cap, data[id], place[id], id in ill);
    }
  }
}
