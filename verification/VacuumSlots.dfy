/** The inner loop of the vacuum: every slot of one source page. */
module VacuumSlots {
  import opened Bytes
  import opened SlottedPage
  import opened PageLists
  import opened PageGroups
  import opened PageStorage
  import opened Compaction
  import opened CompactionRun

  // `ps` are the first pages of the chain now; no other page has changed since data0.
  ghost predicate Mirror(data: map<PageId, PageData>, data0: map<PageId, PageData>, chain: seq<PageId>,
                         ps: seq<PageData>)
  {
    && |ps| <= |chain|
    && data.Keys == data0.Keys
    && (forall j :: 0 <= j < |ps| ==> chain[j] in data && data[chain[j]] == ps[j])
    && (forall id :: id in data && id !in chain[..|ps|] ==> data[id] == data0[id])
  }

  lemma MirrorWrite(data: map<PageId, PageData>, data0: map<PageId, PageData>, chain: seq<PageId>, ps: seq<PageData>,
                    j: nat, p: PageData)
    requires Mirror(data, data0, chain, ps) && Distinct(chain) && j < |ps|
    ensures Mirror(data[chain[j] := p], data0, chain, ps[j := p])
  {
    assert chain[j] == chain[..|ps|][j];
  }

  // A forward iterator on page j of the chain.
  ghost predicate OnPage(it: PageIterator, groups: PageGroupManager, chain: seq<PageId>, j: nat)
    reads it
  {
    && it.manager == groups && !it.inverse && it.started
    && j < |chain| && it.currentId == chain[j] && it.nextId == NextIn(chain, j)
  }

  // The chain and the iterators, while pages change but links do not.
  ghost predicate Tracks(self: PageDataManager, data0: map<PageId, PageData>, chain: seq<PageId>, st: State,
                         src: PageIterator, dst: PageIterator)
    reads self, self.groups, src, dst
  {
    && src != dst
    && st.cap == self.cap && Bounds(st)
    && NextChain(self.groups.links, chain)
    && Mirror(self.data, data0, chain, st.ps)
    && OnPage(src, self.groups, chain, st.s)
    && OnPage(dst, self.groups, chain, st.d)
  }

  lemma NextOnChain(links: map<PageId, Links>, chain: seq<PageId>, j: nat)
    requires NextChain(links, chain) && j + 1 < |chain|
    ensures NextIn(chain, j) == chain[j + 1] != NULL_ID && chain[j + 1] in links
    ensures links[chain[j + 1]].next == NextIn(chain, j + 1)
    ensures Distinct(chain)
  {
    assert chain[j + 1] in links;
  }

  lemma ChainDistinct(links: map<PageId, Links>, chain: seq<PageId>)
    requires NextChain(links, chain)
    ensures Distinct(chain)
  {
  }

  // The three writes of a move, between two pages or within one.
  method MoveItem(self: PageDataManager, srcId: PageId, dstId: PageId, i: nat, k: nat, e: nat)
    requires srcId in self.data && dstId in self.data
    requires MayMove(self.data[srcId].contents, i, if srcId == dstId then i else k, e, |self.data[dstId].contents|)
    requires SLOT_SIZE * k + SLOT_SIZE <= |self.data[dstId].contents|
    modifies self`data
    ensures var c, cd := old(self.data)[srcId].contents, old(self.data)[dstId].contents;
            var z := SlotAt(c, i).size;
            var c1 := MovedData(cd, c, i, e);
            if srcId == dstId then
              self.data == old(self.data)[srcId := old(self.data)[srcId].(contents := MovedSlot(MovedOffset(c1, i,
                e - z), MovedOffset(c1, i, e - z), i, k))]
            else
              self.data == old(self.data)[srcId := old(self.data)[srcId].(contents := MovedOffset(c, i, e - z))]
                                         [dstId := old(self.data)[dstId].(contents := MovedSlot(c1,
                                           MovedOffset(c, i, e - z), i, k))]
  {
    hide MovedOffset, MovedSlot, SlotAt, Overwrite;
    ghost var c := self.data[srcId].contents;
    var slot := SlotAt(self.data[srcId].contents, i);
    var item := self.data[srcId].contents[slot.offset..slot.offset + slot.size];
    self.data := self.data[dstId := self.data[dstId].(contents := Overwrite(self.data[dstId].contents, e - slot.size,
      item))];
    if srcId == dstId {
      WithinKeepsSlot(c, self.data[srcId].contents, i, e);
    }
    self.data := self.data[srcId := self.data[srcId].(contents := MovedOffset(self.data[srcId].contents, i,
      e - slot.size))];
    self.data := self.data[dstId := self.data[dstId].(contents := MovedSlot(self.data[dstId].contents,
      self.data[srcId].contents, i, k))];
  }

  lemma WithinKeepsSlot(c: seq<byte>, c1: seq<byte>, i: nat, e: nat)
    requires MayMove(c, i, i, e, |c|) && c1 == MovedData(c, c, i, e)
    ensures SlotAt(c1, i) == SlotAt(c, i)
  {
    SlotFromBytes(c1, i, c, i);
  }

  // The same run, at the same source page.
  predicate SameRun(st: State, st': State)
  {
    st'.cap == st.cap && st'.pos == st.pos && st'.ps0 == st.ps0 && st'.es0 == st.es0 && st'.s == st.s
  }

  // The new flag is cleared, whatever else is set with it.
  method ClearNew(self: PageDataManager, id: PageId, i: nat)
    requires id in self.data && SLOT_SIZE * i + SLOT_SIZE <= |self.data[id].contents|
    modifies self`data
    ensures var p := old(self.data)[id];
            self.data == old(self.data)[id := p.(contents := ClearedContents(p.contents, i))]
  {
    var flags := SlotAt(self.data[id].contents, i).flags;
    if IsNew(flags) {
      self.data := self.data[id := self.data[id].(contents :=
        Overwrite(self.data[id].contents, SLOT_SIZE * i + 4, U16Bytes(UnsetNew(flags))))];
    }
  }

  // Writing page j of the chain.
  lemma TracksWrite(self: PageDataManager, data: map<PageId, PageData>, data0: map<PageId, PageData>,
                    chain: seq<PageId>,
                    st: State, src: PageIterator, dst: PageIterator, j: nat, st': State)
    requires src != dst && st.cap == self.cap && Bounds(st') && st'.cap == st.cap
    requires NextChain(self.groups.links, chain) && Mirror(data, data0, chain, st.ps) && j < |st.ps|
    requires |st'.ps| == |st.ps| && self.data == data[chain[j] := st'.ps[j]] && st'.ps == st.ps[j := st'.ps[j]]
    requires OnPage(src, self.groups, chain, st'.s) && OnPage(dst, self.groups, chain, st'.d)
    ensures Tracks(self, data0, chain, st', src, dst)
  {
    ChainDistinct(self.groups.links, chain);
    MirrorWrite(data, data0, chain, st.ps, j, st'.ps[j]);
  }

  // First part of a round: look at the slot, clear its new flag.
  method LookAt(self: PageDataManager, src: PageIterator, dst: PageIterator, idIndex: nat, ghost l: Locals,
                ghost data0: map<PageId, PageData>, ghost chain: seq<PageId>, ghost st: State)
    returns (slot: Slot, ghost st': State)
    requires Tracks(self, data0, chain, st, src, dst) && Good(st, l)
    requires idIndex == SLOT_SIZE * st.i && st.i < |st.es0[st.s]|
    modifies self`data
    ensures Tracks(self, data0, chain, st', src, dst) && GoodOn(st', l)
    ensures SameRun(st, st') && st'.i == st.i && st'.d == st.d && st'.outs == st.outs
    ensures SLOT_SIZE * st'.i + SLOT_SIZE <= |st'.ps[st'.s].contents| && slot == SlotAt(st'.ps[st'.s].contents, st'.i)
  {
    hide Good, GoodOn, NextChain, Mirror, SlotAt, ClearedContents;
    GoodSlot(st, l);
    MirrorAt(self.data, data0, chain, st.ps, st.s);
    assert idIndex / SLOT_SIZE == st.i;
    ghost var data := self.data;
    ClearNew(self, src.currentId, idIndex / SLOT_SIZE);
    slot := SlotAt(self.data[src.currentId].contents, idIndex / SLOT_SIZE);
    st' := st.(ps := st.ps[st.s := self.data[src.currentId]]);
    Unset(st, l, st');
    TracksWrite(self, data, data0, chain, st, src, dst, st.s, st');
  }

  lemma GoodSlot(st: State, l: Locals)
    requires Good(st, l) && st.i < |st.es0[st.s]|
    ensures Bounds(st) && SLOT_SIZE * st.i + SLOT_SIZE <= |st.ps[st.s].contents|
  {
    InvHolds(st);
  }

  lemma MirrorAt(data: map<PageId, PageData>, data0: map<PageId, PageData>, chain: seq<PageId>, ps: seq<PageData>,
                 j: nat)
    requires Mirror(data, data0, chain, ps) && j < |ps|
    ensures |ps| <= |chain| && chain[j] in data && data[chain[j]] == ps[j]
  {
  }

  // A deleted slot.
  method DropSlot(self: PageDataManager, src: PageIterator, dst: PageIterator, idIndex: nat, slot: Slot, l: Locals,
                  ghost data0: map<PageId, PageData>, ghost chain: seq<PageId>, ghost st: State)
    returns (l': Locals, ghost st': State)
    requires Tracks(self, data0, chain, st, src, dst) && GoodOn(st, l) && idIndex == SLOT_SIZE * st.i
    requires SLOT_SIZE * st.i + SLOT_SIZE <= |st.ps[st.s].contents| && slot == SlotAt(st.ps[st.s].contents, st.i)
    requires IsDeleted(slot.flags)
    modifies self`data
    ensures Tracks(self, data0, chain, st', src, dst) && Good(st', l')
    ensures SameRun(st, st') && st'.i == st.i + 1
  {
    hide Good, NextChain, Mirror, Mid, Agrees, Tight, EmptiesMarked;
    MirrorAt(self.data, data0, chain, st.ps, st.s);
    SlotFacts(st);
    AmountPositive(st);
    ghost var data := self.data;
    var id := src.currentId;
    self.data := self.data[id := self.data[id].(itemAmount := self.data[id].itemAmount - 1)];
    l' := if l.started then l else Locals(true, idIndex, slot.offset + slot.size);
    st' := st.(ps := st.ps[st.s := self.data[id]], i := st.i + 1);
    Drop(st, l, st', l');
    TracksWrite(self, data, data0, chain, st, src, dst, st.s, st');
  }

  // What a move may rely on: the destination cursor is where the entries placed so far end.
  ghost predicate HasRoom(st: State, destId: nat, destEnd: nat)
    requires Bounds(st) && st.i < |st.es0[st.s]|
  {
    && Holds(st.cap, st.outs[st.d])
    && destId == SLOT_SIZE * |st.outs[st.d]| && destEnd == st.cap - Used(st.outs[st.d])
    && SLOT_SIZE + |st.es0[st.s][st.i].payload| <= destEnd - destId
    && (st.d == st.s ==> |st.outs[st.d]| < st.i)
  }

  lemma RoomToMove(st: State, destId: nat, destEnd: nat)
    requires OnSlot(st) && HasRoom(st, destId, destEnd)
    ensures MayMove(st.ps[st.s].contents, st.i, if st.d == st.s then st.i else |st.outs[st.d]|, destEnd, st.cap)
    ensures |st.ps[st.d].contents| == |st.ps[st.s].contents| == st.cap
    ensures SLOT_SIZE * |st.outs[st.d]| + SLOT_SIZE <= st.cap
    ensures st.d == st.s ==> |MovedData(st.ps[st.s].contents, st.ps[st.s].contents, st.i, destEnd)| == st.cap
  {
    hide Mid, Lays, Unread, Facing;
    SlotFacts(st);
    DestFacts(st);
  }

  ghost function Advanced(st: State, ps: seq<PageData>): State
    requires Bounds(st) && st.i < |st.es0[st.s]|
  {
    st.(ps := ps, outs := st.outs[st.d := st.outs[st.d] + [Cleared(st.es0[st.s][st.i])]], i := st.i + 1)
  }

  // Move the slot to the destination cursor, within its page.
  method PlaceWithin(self: PageDataManager, id: PageId, i: nat, destId: nat, destEnd: nat,
                     ghost data0: map<PageId, PageData>, ghost chain: seq<PageId>, ghost st: State,
                     src: PageIterator, dst: PageIterator)
    returns (ghost st': State)
    requires Tracks(self, data0, chain, st, src, dst) && OnSlot(st) && HasRoom(st, destId, destEnd)
    requires id == src.currentId && i == st.i && st.d == st.s
    modifies self`data
    ensures Tracks(self, data0, chain, st', src, dst) && PlacedIn(st, st') && SameRun(st, st') && st'.i == st.i + 1
    ensures Bounds(st')
  {
    hide NextChain, Mirror, Mid, PlacedIn, MovedData, MovedOffset, MovedSlot;
    MirrorAt(self.data, data0, chain, st.ps, st.s);
    RoomToMove(st, destId, destEnd);
    ghost var data := self.data;
    MoveItem(self, id, id, i, destId / SLOT_SIZE, destEnd);
    st' := Advanced(st, st.ps[st.s := self.data[id]]);
    ghost var c1 := MovedData(st.ps[st.s].contents, st.ps[st.s].contents, i, destEnd);
    ghost var c2 := MovedOffset(c1, i, destEnd - SlotAt(st.ps[st.s].contents, i).size);
    PlacedWithin(st, st', destEnd, c1, c2, MovedSlot(c2, c2, i, destId / SLOT_SIZE));
    TracksWrite(self, data, data0, chain, st, src, dst, st.s, st');
  }

  // Move the slot to the destination cursor in another page, and adjust both item amounts.
  method PlaceAcross(self: PageDataManager, srcId: PageId, dstId: PageId, i: nat, destId: nat, destEnd: nat,
                     ghost data0: map<PageId, PageData>, ghost chain: seq<PageId>, ghost st: State,
                     src: PageIterator, dst: PageIterator)
    returns (ghost st': State)
    requires Tracks(self, data0, chain, st, src, dst) && OnSlot(st) && HasRoom(st, destId, destEnd)
    requires srcId == src.currentId && dstId == dst.currentId && i == st.i && st.d < st.s
    modifies self`data
    ensures Tracks(self, data0, chain, st', src, dst) && PlacedIn(st, st') && SameRun(st, st') && st'.i == st.i + 1
    ensures Bounds(st')
  {
    hide NextChain, Mirror, Mid, PlacedIn, MovedData, MovedOffset, MovedSlot;
    MirrorAt(self.data, data0, chain, st.ps, st.s);
    MirrorAt(self.data, data0, chain, st.ps, st.d);
    RoomToMove(st, destId, destEnd);
    AmountPositive(st);
    ChainDistinct(self.groups.links, chain);
    ghost var data := self.data;
    MoveItem(self, srcId, dstId, i, destId / SLOT_SIZE, destEnd);
    self.data := self.data[dstId := self.data[dstId].(itemAmount := self.data[dstId].itemAmount + 1)];
    self.data := self.data[srcId := self.data[srcId].(itemAmount := self.data[srcId].itemAmount - 1)];
    ghost var pd, p := self.data[dstId], self.data[srcId];
    ghost var data1: map<PageId, PageData> := data[srcId := p];
    assert self.data == data1[dstId := pd];
    st' := Advanced(st, st.ps[st.s := p][st.d := pd]);
    PlacedAcross(st, st', destEnd,
      MovedData(st.ps[st.d].contents, st.ps[st.s].contents, i, destEnd),
      MovedOffset(st.ps[st.s].contents, i, destEnd - SlotAt(st.ps[st.s].contents, i).size), pd.contents);
    MirrorWrite(data, data0, chain, st.ps, st.s, p);
    MirrorWrite(data1, data0, chain, st.ps[st.s := p], st.d, pd);
  }

  lemma AgreesFacts(st: State, l: Locals)
    requires GoodOn(st, l)
    ensures l.started ==> Holds(st.cap, st.outs[st.d])
                          && l.destId == SLOT_SIZE * |st.outs[st.d]| && l.destEnd == st.cap - Used(st.outs[st.d])
                          && l.destId <= l.destEnd <= st.cap
                          && (st.d == st.s ==> |st.outs[st.d]| < st.i)
    ensures !l.started ==> st.d == st.s
  {
  }

  // A live slot while compacting: it goes to the destination cursor, in the same page or another.
  method PlaceSlot(self: PageDataManager, src: PageIterator, dst: PageIterator, idIndex: nat, slot: Slot, destId: nat,
                   destEnd: nat,
                   ghost data0: map<PageId, PageData>, ghost chain: seq<PageId>, ghost st: State)
    returns (ghost st': State)
    requires Tracks(self, data0, chain, st, src, dst) && OnSlot(st) && HasRoom(st, destId, destEnd)
    requires idIndex == SLOT_SIZE * st.i
    modifies self`data
    ensures Tracks(self, data0, chain, st', src, dst) && PlacedIn(st, st') && SameRun(st, st') && st'.i == st.i + 1
  {
    hide NextChain, Mid, PlacedIn, HasRoom;
    RoomPages(self.groups.links, chain, st, destId, destEnd);
    if src.currentId == dst.currentId {
      st' := PlaceWithin(self, src.currentId, idIndex / SLOT_SIZE, destId, destEnd, data0, chain, st, src, dst);
    } else {
      st' := PlaceAcross(self, src.currentId, dst.currentId, idIndex / SLOT_SIZE, destId, destEnd, data0, chain, st,
        src, dst);
    }
  }

  lemma RoomPages(links: map<PageId, Links>, chain: seq<PageId>, st: State, destId: nat, destEnd: nat)
    requires NextChain(links, chain) && Bounds(st) && |st.ps| <= |chain| && st.i < |st.es0[st.s]|
    requires HasRoom(st, destId, destEnd)
    ensures chain[st.s] == chain[st.d] <==> st.s == st.d
    ensures destId % SLOT_SIZE == 0
  {
    ChainDistinct(links, chain);
    hide NextChain;
  }

  // The destination page is full: close it and step to the next one.
  method CloseDest(self: PageDataManager, src: PageIterator, dst: PageIterator, destId: nat, destEnd: nat,
                   ghost data0: map<PageId, PageData>, ghost chain: seq<PageId>, ghost st: State, ghost l: Locals)
    requires Tracks(self, data0, chain, st, src, dst) && GoodOn(st, l) && l == Locals(true, destId, destEnd)
    requires SLOT_SIZE + |st.es0[st.s][st.i].payload| > destEnd - destId
    modifies self`data, dst
    ensures st.d < st.s && Holds(st.cap, st.outs[st.d])
    ensures OnSlot(Closed(st)) && Tracks(self, data0, chain, Closed(st), src, dst)
  {
    hide NextChain, Mirror, Mid, Agrees, Tight, EmptiesMarked;
    NoRoom(st, l);
    AgreesFacts(st, l);
    ClosedOn(st);
    MirrorAt(self.data, data0, chain, st.ps, st.d);
    ghost var data := self.data;
    var id := dst.currentId;
    self.data := self.data[id := self.data[id].(freeStart := destId, freeEnd := destEnd)];
    ChainDistinct(self.groups.links, chain);
    MirrorWrite(data, data0, chain, st.ps, st.d, self.data[id]);
    NextOnChain(self.groups.links, chain, st.d);
    var ok := dst.Next();
  }

  // A live slot.
  method LiveSlot(self: PageDataManager, src: PageIterator, dst: PageIterator, idIndex: nat, slot: Slot, l: Locals,
                  ghost data0: map<PageId, PageData>, ghost chain: seq<PageId>, ghost st: State)
    returns (l': Locals, ghost st': State)
    requires Tracks(self, data0, chain, st, src, dst) && GoodOn(st, l) && idIndex == SLOT_SIZE * st.i
    requires SLOT_SIZE * st.i + SLOT_SIZE <= |st.ps[st.s].contents| && slot == SlotAt(st.ps[st.s].contents, st.i)
    requires !IsDeleted(slot.flags)
    modifies self`data, dst
    ensures Tracks(self, data0, chain, st', src, dst) && Good(st', l')
    ensures SameRun(st, st') && st'.i == st.i + 1
  {
    hide Good, NextChain, Mirror, Mid, Agrees, Tight, EmptiesMarked, PlacedIn, Holds;
    SlotFacts(st);
    AgreesFacts(st, l);
    if !l.started {
      l' := l;
      st' := st.(outs := st.outs[st.d := st.outs[st.d] + [Cleared(st.es0[st.s][st.i])]], i := st.i + 1);
      Keep(st, l, st');
      return;
    }
    if SLOT_SIZE + slot.size > l.destEnd - l.destId {
      l', st' := FullDest(self, src, dst, idIndex, slot, l, data0, chain, st);
    } else {
      st' := PlaceSlot(self, src, dst, idIndex, slot, l.destId, l.destEnd, data0, chain, st);
      l' := Locals(true, l.destId + SLOT_SIZE, l.destEnd - slot.size);
      Moved(st, l, st', l');
    }
  }

  // No more space in the destination page.
  method FullDest(self: PageDataManager, src: PageIterator, dst: PageIterator, idIndex: nat, slot: Slot, l: Locals,
                  ghost data0: map<PageId, PageData>, ghost chain: seq<PageId>, ghost st: State)
    returns (l': Locals, ghost st': State)
    requires Tracks(self, data0, chain, st, src, dst) && GoodOn(st, l) && idIndex == SLOT_SIZE * st.i && l.started
    requires SLOT_SIZE * st.i + SLOT_SIZE <= |st.ps[st.s].contents| && slot == SlotAt(st.ps[st.s].contents, st.i)
    requires Live(st.es0[st.s][st.i]) && slot.size == |st.es0[st.s][st.i].payload|
    requires SLOT_SIZE + slot.size > l.destEnd - l.destId
    modifies self`data, dst
    ensures Tracks(self, data0, chain, st', src, dst) && Good(st', l')
    ensures SameRun(st, st') && st'.i == st.i + 1
  {
    hide Good, NextChain, Mirror, Mid, Agrees, Tight, EmptiesMarked, PlacedIn, CursorAt, OutsAt;
    CloseDest(self, src, dst, l.destId, l.destEnd, data0, chain, st, l);
    ChainDistinct(self.groups.links, chain);
    NoRoom(st, l);
    if idIndex == 0 && src.currentId == dst.currentId {
      // the item did not fit the previous page and this is its own page: nothing to move
      l' := Locals(false, 0, l.destEnd);
      st' := Closed(st).(outs := st.outs + [[Cleared(st.es0[st.s][st.i])]], i := st.i + 1);
      Pause(st, l, st', l');
    } else {
      var cap := self.cap;
      st' := PlaceSlot(self, src, dst, idIndex, slot, 0, cap, data0, chain, Closed(st));
      l' := Locals(true, SLOT_SIZE, cap - slot.size);
      MovedOn(st, l, st', l');
    }
  }

  // One round of the inner loop.
  method VacuumSlot(self: PageDataManager, src: PageIterator, dst: PageIterator, idIndex: nat, l: Locals,
                    ghost data0: map<PageId, PageData>, ghost chain: seq<PageId>, ghost st: State)
    returns (l': Locals, ghost st': State)
    requires Tracks(self, data0, chain, st, src, dst) && Good(st, l)
    requires idIndex == SLOT_SIZE * st.i && st.i < |st.es0[st.s]|
    modifies self`data, dst
    ensures Tracks(self, data0, chain, st', src, dst) && Good(st', l')
    ensures SameRun(st, st') && st'.i == st.i + 1
  {
    hide Good, GoodOn, NextChain, Mirror;
    var slot;
    ghost var mid;
    slot, mid := LookAt(self, src, dst, idIndex, l, data0, chain, st);
    if IsDeleted(slot.flags) {
      l', st' := DropSlot(self, src, dst, idIndex, slot, l, data0, chain, mid);
    } else {
      l', st' := LiveSlot(self, src, dst, idIndex, slot, l, data0, chain, mid);
    }
  }

  // The inner loop: every slot below free_space_start of the source page. A blind page, whose
  // free_space_start is 0 whatever it holds, is passed without a look.
  method VacuumPage(self: PageDataManager, src: PageIterator, dst: PageIterator, l: Locals, ghost blind: bool,
                    ghost data0: map<PageId, PageData>, ghost chain: seq<PageId>, ghost st: State)
    returns (l': Locals, ghost st': State)
    requires !blind ==> Tracks(self, data0, chain, st, src, dst) && Good(st, l) && st.i == 0
    requires blind ==> src.currentId in self.data && self.data[src.currentId].freeStart == 0
    modifies self`data, dst
    ensures !blind ==> Tracks(self, data0, chain, st', src, dst) && Good(st', l')
    ensures !blind ==> SameRun(st, st') && st'.i == |st.es0[st.s]|
    ensures blind ==> unchanged(self`data) && unchanged(dst) && l' == l && st' == st
  {
    hide Good, NextChain, Mirror;
    if !blind {
      MirrorAt(self.data, data0, chain, st.ps, st.s);
      SourceSlots(st, l);
    }
    var iterNum := self.data[src.currentId].freeStart;
    var idIndex := 0;
    l', st' := l, st;
    while idIndex < iterNum
      invariant !blind ==> Tracks(self, data0, chain, st', src, dst) && Good(st', l')
      invariant !blind ==> SameRun(st, st') && idIndex == SLOT_SIZE * st'.i
      invariant blind ==> iterNum == 0 && unchanged(self`data) && unchanged(dst) && l' == l && st' == st
    {
      l', st' := VacuumSlot(self, src, dst, idIndex, l', data0, chain, st');
      idIndex := idIndex + SLOT_SIZE;
    }
  }

  lemma SourceSlots(st: State, l: Locals)
    requires Good(st, l)
    ensures Bounds(st) && st.ps[st.s].freeStart == SLOT_SIZE * |st.es0[st.s]|
  {
  }
}
