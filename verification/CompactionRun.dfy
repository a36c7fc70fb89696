/** One run of the compaction loop, branch by branch, on values. */
module CompactionRun {
  import opened Bytes
  import opened SlottedPage
  import opened PageStorage
  import opened Compaction

  // The pages and entries before the run, the pages now, the entries placed in pages 0..d, and the cursor
  // (s, i) of the source. The run starts at page `pos` of the chain.
  datatype State = State(cap: nat, pos: nat, ps0: seq<PageData>, es0: seq<seq<Entry>>,
                         ps: seq<PageData>, outs: seq<seq<Entry>>, s: nat, i: nat, d: nat)

  // The local variables of the loop: vacuum_started, dest_item_id_index, dest_item_index.
  datatype Locals = Locals(started: bool, destId: nat, destEnd: nat)

  ghost predicate Bounds(st: State)
  {
    && st.d <= st.s < |st.ps| == |st.ps0| == |st.es0| && st.i <= |st.es0[st.s]| && |st.outs| == st.d + 1
    && st.cap < U16_LIMIT && SLOT_SIZE <= st.cap
  }

  ghost predicate AtSlot(st: State)
  {
    Bounds(st) && Inv(st.cap, st.ps0, st.ps, st.es0, st.outs, st.s, st.i, st.d)
  }

  // After the new flag of slot i was cleared.
  ghost predicate OnSlot(st: State)
  {
    Bounds(st) && Mid(st.cap, st.ps0, st.ps, st.es0, st.outs, st.s, st.i, st.d) && st.i < |st.es0[st.s]|
  }

  // The locals say where the entries placed so far end; when nothing is being compacted,
  // every entry so far is still in its own slot.
  ghost predicate Agrees(st: State, l: Locals)
    requires Bounds(st)
  {
    var placed := st.outs[st.d];
    && Holds(st.cap, placed)
    && st.outs == OutsAt(st.cap, st.es0, st.s, st.i)
    && if l.started then
         && CursorAt(st.cap, st.es0, st.s, st.i) == Packing(st.d, |placed|, Used(placed))
         && l.destId == SLOT_SIZE * |placed| && l.destEnd == st.cap - Used(placed)
         && (st.d == st.s ==> |placed| < st.i)
       else
         && CursorAt(st.cap, st.es0, st.s, st.i) == Idle(l.destEnd) && l.destId == 0
         && st.d == st.s && placed == SurviveTo(st.es0[st.s], st.i)
         && |placed| == st.i && Used(placed) == UsedTo(st.es0[st.s], st.i)
  }

  // Page j kept all its entries, or its successor starts with an entry it had no room for.
  ghost predicate PageTight(cap: nat, es0: seq<seq<Entry>>, outs: seq<seq<Entry>>, j: nat)
    requires j < |es0| && j < |outs|
  {
    || (outs[j] == Survive(es0[j]) && |outs[j]| == |es0[j]|)
    || (j + 1 < |outs| && outs[j + 1] != [] && !Holds(cap, outs[j] + [outs[j + 1][0]]))
  }

  ghost predicate Tight(st: State)
    requires Bounds(st)
  {
    forall j :: 0 <= j < st.d ==> PageTight(st.cap, st.es0, st.outs, j)
  }

  // An empty page that is not the head has slot 0 deleted.
  ghost predicate EmptiesMarked(st: State, l: Locals)
    requires Bounds(st)
  {
    && (forall j :: 0 <= j < st.d && 0 < st.pos + j && st.outs[j] == [] ==> ZeroDeleted(st.ps[j]))
    && (l.started && st.outs[st.d] == [] ==> ZeroDeleted(st.ps[st.d]))
    && (st.es0[st.s] == [] ==> st.ps[st.s] == st.ps0[st.s])
    && (forall j :: 0 <= j < |st.ps0| && 0 < st.pos + j && st.es0[j] == [] ==> ZeroDeleted(st.ps0[j]))
  }

  ghost predicate Good(st: State, l: Locals)
  {
    AtSlot(st) && Agrees(st, l) && Tight(st) && EmptiesMarked(st, l)
  }

  ghost predicate GoodOn(st: State, l: Locals)
  {
    OnSlot(st) && Agrees(st, l) && Tight(st) && EmptiesMarked(st, l)
  }

  // ---- before the first page ----

  lemma Begin(cap: nat, pos: nat, ps: seq<PageData>, es: seq<seq<Entry>>)
    requires SLOT_SIZE <= cap < U16_LIMIT && Before(cap, ps, es)
    requires forall j :: 0 <= j < |ps| && 0 < pos + j && es[j] == [] ==> ZeroDeleted(ps[j])
    ensures Good(State(cap, pos, ps, es, ps, [[]], 0, 0, 0), Locals(false, 0, 0))
  {
    Start(cap, ps, es);
  }

  // ---- the branches ----

  // The new flag of slot i is cleared.
  lemma Unset(st: State, l: Locals, st': State)
    requires Good(st, l) && st.i < |st.es0[st.s]|
    requires SLOT_SIZE * st.i + SLOT_SIZE <= |st.ps[st.s].contents|
    requires st' == st.(ps := st.ps[st.s := st.ps[st.s].(contents := ClearedContents(st.ps[st.s].contents, st.i))])
    ensures GoodOn(st', l)
  {
    hide Mid, Inv, Agrees;
    InvHolds(st);
    ClearFlag(st.cap, st.ps0, st.ps, st.es0, st.outs, st.s, st.i, st.d, st'.ps);
    AgreesFrame(st, st', l);
    ZeroKept(st, l, st');
  }

  lemma InvHolds(st: State)
    requires AtSlot(st)
    ensures Holds(st.cap, st.es0[st.s])
    ensures |st.ps[st.s].contents| == st.cap
  {
  }

  lemma AgreesFrame(st: State, st': State, l: Locals)
    requires Bounds(st) && Agrees(st, l) && st' == st.(ps := st'.ps) && |st'.ps| == |st.ps|
    ensures Agrees(st', l)
  {
  }

  // Clearing the flag of a slot cannot unmark slot 0 of an empty page.
  lemma ZeroKept(st: State, l: Locals, st': State)
    requires Bounds(st) && EmptiesMarked(st, l) && Agrees(st, l) && st.i < |st.es0[st.s]|
    requires SLOT_SIZE * st.i + SLOT_SIZE <= |st.ps[st.s].contents|
    requires st' == st.(ps := st.ps[st.s := st.ps[st.s].(contents := ClearedContents(st.ps[st.s].contents, st.i))])
    ensures EmptiesMarked(st', l)
  {
    hide CursorAt, OutsAt;
    if st.i > 0 && SLOT_SIZE <= |st.ps[st.s].contents| {
      SlotFromBytes(st'.ps[st.s].contents, 0, st.ps[st.s].contents, 0);
    }
  }

  // A deleted slot: item_amount drops, and the first one starts the compaction.
  lemma Drop(st: State, l: Locals, st': State, l': Locals)
    requires GoodOn(st, l) && !Live(st.es0[st.s][st.i]) && st.ps[st.s].itemAmount > 0
    requires st' == st.(ps := st.ps[st.s := st.ps[st.s].(itemAmount := st.ps[st.s].itemAmount - 1)], i := st.i + 1)
    requires l' == if l.started then l else Locals(true, SLOT_SIZE * st.i, st.cap - UsedTo(st.es0[st.s], st.i))
    ensures Good(st', l')
  {
    hide Inv, Mid, CursorAt, OutsAt;
    DropDeleted(st.cap, st.ps0, st.ps, st.es0, st.outs, st.s, st.i, st.d, st'.ps);
    DropAgrees(st, l, st', l');
    if !l.started && st.i == 0 {
      ZeroFaced(st);
    }
  }

  lemma ZeroFaced(st: State)
    requires OnSlot(st) && !Live(st.es0[st.s][st.i]) && st.i == 0
    ensures ZeroDeleted(st.ps[st.s])
  {
  }

  lemma DropAgrees(st: State, l: Locals, st': State, l': Locals)
    requires Bounds(st) && Agrees(st, l) && st.i < |st.es0[st.s]| && !Live(st.es0[st.s][st.i])
    requires st' == st.(ps := st'.ps, i := st.i + 1) && |st'.ps| == |st.ps|
    requires l' == if l.started then l else Locals(true, SLOT_SIZE * st.i, st.cap - UsedTo(st.es0[st.s], st.i))
    ensures Bounds(st') && Agrees(st', l')
  {
  }

  lemma AmountPositive(st: State)
    requires OnSlot(st)
    ensures st.ps[st.s].itemAmount > 0
  {
  }

  // A live slot while nothing is being compacted.
  lemma Keep(st: State, l: Locals, st': State)
    requires GoodOn(st, l) && !l.started && Live(st.es0[st.s][st.i])
    requires st' == st.(outs := st.outs[st.d := st.outs[st.d] + [Cleared(st.es0[st.s][st.i])]], i := st.i + 1)
    ensures Good(st', l)
  {
    hide Inv, Mid, CursorAt, OutsAt, PageTight;
    KeepInPlace(st.cap, st.ps0, st.ps, st.es0, st.outs, st.s, st.i, st'.outs);
    HoldsAt(st', st.s);
    KeepAgrees(st, l, st');
    TightFrame(st, st');
  }

  lemma HoldsAt(st: State, j: nat)
    requires AtSlot(st) && j <= st.d
    ensures Holds(st.cap, st.outs[j])
  {
  }

  lemma KeepAgrees(st: State, l: Locals, st': State)
    requires Bounds(st) && Agrees(st, l) && !l.started && st.i < |st.es0[st.s]| && Live(st.es0[st.s][st.i])
    requires st' == st.(outs := st.outs[st.d := st.outs[st.d] + [Cleared(st.es0[st.s][st.i])]], i := st.i + 1)
    requires Holds(st.cap, st'.outs[st.d])
    ensures Bounds(st') && Agrees(st', l)
  {
    UsedAppend(st.outs[st.d], Cleared(st.es0[st.s][st.i]));
  }

  // Appending to the destination page does not disturb what is known about the closed pages.
  lemma TightFrame(st: State, st': State)
    requires Bounds(st) && Bounds(st') && Tight(st) && st'.d == st.d && st'.es0 == st.es0 && st'.cap == st.cap
    requires exists x :: st'.outs == st.outs[st.d := st.outs[st.d] + [x]]
    ensures Tight(st')
  {
    var x :| st'.outs == st.outs[st.d := st.outs[st.d] + [x]];
    forall j | 0 <= j < st.d
      ensures PageTight(st'.cap, st'.es0, st'.outs, j)
    {
      assert PageTight(st.cap, st.es0, st.outs, j);
    }
  }

  // Slot i of page s has been placed behind the entries of page d.
  ghost predicate PlacedIn(st: State, st': State)
    requires Bounds(st) && st.i < |st.es0[st.s]|
  {
    var s, d := st.s, st.d;
    && |st'.ps| == |st.ps|
    && st' == st.(ps := st'.ps, outs := st.outs[d := st.outs[d] + [Cleared(st.es0[s][st.i])]], i := st.i + 1)
    && (forall j :: 0 <= j < |st.ps| && j != s && j != d ==> st'.ps[j] == st.ps[j])
    && |st'.ps[d].contents| == st.cap && Lays(st'.ps[d].contents, st'.outs[d])
    && Unread(st'.ps[s].contents, st.ps0[s].contents, st.es0[s], st.i + 1)
    && st'.ps[s].freeStart == st.ps[s].freeStart && st'.ps[s].freeEnd == st.ps[s].freeEnd
    && (if d == s then st'.ps[s].itemAmount == st.ps[s].itemAmount
        else st'.ps[d].itemAmount == st.ps[d].itemAmount + 1 && st'.ps[s].itemAmount == st.ps[s].itemAmount - 1)
  }

  lemma PlacedAt(st: State, st': State)
    requires OnSlot(st) && Live(st.es0[st.s][st.i]) && PlacedIn(st, st')
    requires st.d == st.s ==> |st.outs[st.d]| < st.i
    ensures AtSlot(st')
  {
    hide Mid, Inv, Lays, Unread;
    PlaceLive(st.cap, st.ps0, st.ps, st.es0, st.outs, st.s, st.i, st.d, st'.ps, st'.outs);
  }

  // A live slot that fits the destination page.
  lemma Moved(st: State, l: Locals, st': State, l': Locals)
    requires GoodOn(st, l) && l.started && Live(st.es0[st.s][st.i]) && PlacedIn(st, st')
    requires SLOT_SIZE + |st.es0[st.s][st.i].payload| <= l.destEnd - l.destId
    requires l' == Locals(true, l.destId + SLOT_SIZE, l.destEnd - |st.es0[st.s][st.i].payload|)
    ensures Good(st', l')
  {
    hide Mid, Inv, CursorAt, OutsAt, PageTight, Lays, Unread;
    PlacedAt(st, st');
    MovedAgrees(st, l, st', l');
    TightFrame(st, st');
  }

  lemma MovedAgrees(st: State, l: Locals, st': State, l': Locals)
    requires Bounds(st) && Agrees(st, l) && l.started && st.i < |st.es0[st.s]| && Live(st.es0[st.s][st.i])
    requires |st'.ps| == |st.ps|
    requires st' == st.(ps := st'.ps, outs := st.outs[st.d := st.outs[st.d] + [Cleared(st.es0[st.s][st.i])]],
             i := st.i + 1)
    requires SLOT_SIZE + |st.es0[st.s][st.i].payload| <= l.destEnd - l.destId
    requires l' == Locals(true, l.destId + SLOT_SIZE, l.destEnd - |st.es0[st.s][st.i].payload|)
    ensures Bounds(st') && Agrees(st', l')
  {
    UsedAppend(st.outs[st.d], Cleared(st.es0[st.s][st.i]));
  }

  // The live slot does not fit: page d is closed and page d + 1 becomes the destination.
  function Closed(st: State): State
    requires st.d < |st.ps| && st.d < |st.outs| && Holds(st.cap, st.outs[st.d])
  {
    var p := st.ps[st.d].(freeStart := SLOT_SIZE * |st.outs[st.d]|, freeEnd := st.cap - Used(st.outs[st.d]));
    st.(ps := st.ps[st.d := p],
        outs := st.outs + [[]], d := st.d + 1)
  }

  // Only an earlier page can be too full for the item; it has entries then.
  lemma NoRoom(st: State, l: Locals)
    requires GoodOn(st, l) && l.started
    requires SLOT_SIZE + |st.es0[st.s][st.i].payload| > l.destEnd - l.destId
    ensures st.d < st.s && st.d < |st.ps| && st.d < |st.outs| && Holds(st.cap, st.outs[st.d])
    ensures st.outs[st.d] != []
    ensures l.destEnd - l.destId == st.cap - Used(st.outs[st.d]) - SLOT_SIZE * |st.outs[st.d]|
    ensures SLOT_SIZE + |st.es0[st.s][st.i].payload| <= st.cap
  {
    hide CursorAt, OutsAt, Live;
    if st.d == st.s {
      FitsInSamePage(st.cap, st.ps0, st.ps, st.es0, st.outs, st.s, st.i);
      assert false;
    }
    EntryFits(st.cap, st.es0[st.s], st.i);
  }

  // An entry of a well-formed page fits an empty page.
  lemma EntryFits(cap: nat, es: seq<Entry>, i: nat)
    requires Holds(cap, es) && i < |es|
    ensures SLOT_SIZE + |es[i].payload| <= cap
  {
    UsedMonotone(es, i + 1, |es|);
  }

  lemma ClosedOn(st: State)
    requires OnSlot(st) && st.d < st.s && Holds(st.cap, st.outs[st.d])
    ensures OnSlot(Closed(st))
    ensures Closed(st).ps[st.d + 1] == st.ps[st.d + 1]
  {
    hide Mid;
    CloseAndAdvance(st.cap, st.ps0, st.ps, st.es0, st.outs, st.s, st.i, st.d, Closed(st).ps);
  }

  // A closed page was too full for the entry its successor starts with.
  lemma ClosedTight(st: State, x: Entry, st': State)
    requires Bounds(st) && Tight(st) && Bounds(st') && st.d < st.s && st.i < |st.es0[st.s]|
    requires Holds(st.cap, st.outs[st.d])
    requires SLOT_SIZE * |st.outs[st.d]| + Used(st.outs[st.d]) + SLOT_SIZE + |x.payload| > st.cap
    requires st'.d == st.d + 1 && st'.es0 == st.es0 && st'.cap == st.cap && st'.outs == st.outs + [[x]]
    ensures Tight(st')
  {
    UsedAppend(st.outs[st.d], x);
    forall j | 0 <= j < st'.d
      ensures PageTight(st'.cap, st'.es0, st'.outs, j)
    {
      assert j < st.d ==> PageTight(st.cap, st.es0, st.outs, j);
    }
  }

  lemma FirstOfNewPage(outs: seq<seq<Entry>>, x: Entry)
    ensures (outs + [[]])[|outs| := (outs + [[]])[|outs|] + [x]] == outs + [[x]]
  {
    assert (outs + [[]])[|outs|] + [x] == [x];
  }

  // The next page is the source page itself, at its first slot: the compaction pauses.
  lemma Pause(st: State, l: Locals, st': State, l': Locals)
    requires GoodOn(st, l) && l.started && Live(st.es0[st.s][st.i])
    requires SLOT_SIZE + |st.es0[st.s][st.i].payload| > l.destEnd - l.destId
    requires st.i == 0 && st.d + 1 == st.s && Holds(st.cap, st.outs[st.d])
    requires st' == Closed(st).(outs := st.outs + [[Cleared(st.es0[st.s][st.i])]], i := st.i + 1)
    requires l' == Locals(false, 0, l.destEnd)
    ensures Good(st', l')
  {
    hide Mid, Inv, CursorAt, OutsAt, PageTight;
    NoRoom(st, l);
    ClosedOn(st);
    var st1 := Closed(st);
    FirstOfNewPage(st.outs, Cleared(st.es0[st.s][st.i]));
    KeepInPlace(st1.cap, st1.ps0, st1.ps, st1.es0, st1.outs, st1.s, st1.i, st'.outs);
    HoldsAt(st', st'.s);
    PauseAgrees(st, l, st', l');
    ClosedTight(st, Cleared(st.es0[st.s][st.i]), st');
  }

  lemma PauseAgrees(st: State, l: Locals, st': State, l': Locals)
    requires Bounds(st) && Agrees(st, l) && l.started && st.i < |st.es0[st.s]| && Live(st.es0[st.s][st.i])
    requires SLOT_SIZE + |st.es0[st.s][st.i].payload| > l.destEnd - l.destId
    requires st.i == 0 && st.d + 1 == st.s && |st'.ps| == |st.ps|
    requires st' == st.(ps := st'.ps, outs := st.outs + [[Cleared(st.es0[st.s][st.i])]], d := st.s, i := st.i + 1)
    requires l' == Locals(false, 0, l.destEnd)
    requires Holds(st'.cap, st'.outs[st'.d])
    ensures Bounds(st') && Agrees(st', l')
  {
    UsedAppend([], Cleared(st.es0[st.s][st.i]));
    assert [] + [Cleared(st.es0[st.s][st.i])] == [Cleared(st.es0[st.s][st.i])];
  }

  // Otherwise the slot moves to the start of the next page.
  lemma MovedOn(st: State, l: Locals, st': State, l': Locals)
    requires GoodOn(st, l) && l.started && Live(st.es0[st.s][st.i])
    requires SLOT_SIZE + |st.es0[st.s][st.i].payload| > l.destEnd - l.destId
    requires !(st.i == 0 && st.d + 1 == st.s) && st.d < st.s && Holds(st.cap, st.outs[st.d])
    requires Bounds(Closed(st)) && PlacedIn(Closed(st), st')
    requires l' == Locals(true, SLOT_SIZE, st.cap - |st.es0[st.s][st.i].payload|)
    ensures Good(st', l')
  {
    hide Mid, Inv, CursorAt, OutsAt, PageTight, Lays, Unread;
    NoRoom(st, l);
    ClosedOn(st);
    PlacedAt(Closed(st), st');
    FirstOfNewPage(st.outs, Cleared(st.es0[st.s][st.i]));
    MovedOnAgrees(st, l, st', l');
    ClosedTight(st, Cleared(st.es0[st.s][st.i]), st');
  }

  lemma MovedOnAgrees(st: State, l: Locals, st': State, l': Locals)
    requires Bounds(st) && Agrees(st, l) && l.started && st.i < |st.es0[st.s]| && Live(st.es0[st.s][st.i])
    requires SLOT_SIZE + |st.es0[st.s][st.i].payload| > l.destEnd - l.destId
    requires SLOT_SIZE + |st.es0[st.s][st.i].payload| <= st.cap
    requires !(st.i == 0 && st.d + 1 == st.s) && st.d < st.s && |st'.ps| == |st.ps|
    requires st' == st.(ps := st'.ps, outs := st.outs + [[Cleared(st.es0[st.s][st.i])]], d := st.d + 1, i := st.i + 1)
    requires l' == Locals(true, SLOT_SIZE, st.cap - |st.es0[st.s][st.i].payload|)
    ensures Bounds(st') && Agrees(st', l')
  {
    UsedAppend([], Cleared(st.es0[st.s][st.i]));
    assert [] + [Cleared(st.es0[st.s][st.i])] == [Cleared(st.es0[st.s][st.i])];
  }

  // ---- from page to page ----

  lemma NextPage(st: State, l: Locals, st': State)
    requires Good(st, l) && st.i == |st.es0[st.s]| && st.s + 1 < |st.ps|
    requires st' == if l.started then st.(s := st.s + 1, i := 0)
                    else st.(s := st.s + 1, i := 0, d := st.s + 1, outs := st.outs + [[]])
    ensures Good(st', l)
  {
    hide Inv;
    if l.started {
      NextSource(st.cap, st.ps0, st.ps, st.es0, st.outs, st.s, st.d);
      NextPageFrame(st);
    } else {
      NextBoth(st.cap, st.ps0, st.ps, st.es0, st.outs, st.s);
      NextPageFrame(st);
      assert st.outs[st.s] == Survive(st.es0[st.s]);
      forall j | 0 <= j < st'.d
        ensures PageTight(st'.cap, st'.es0, st'.outs, j)
      {
        assert j < st.d ==> PageTight(st.cap, st.es0, st.outs, j);
      }
    }
  }

  lemma NextPageFrame(st: State)
    requires AtSlot(st) && st.s + 1 < |st.ps|
    ensures st.ps[st.s + 1] == st.ps0[st.s + 1]
  {
  }

  // ---- what the code reads ----

  // Slot i as the code finds it after clearing its new flag.
  lemma SlotFacts(st: State)
    requires OnSlot(st)
    ensures SLOT_SIZE * st.i + SLOT_SIZE <= |st.ps[st.s].contents| == st.cap
    ensures var sl, x := SlotAt(st.ps[st.s].contents, st.i), st.es0[st.s][st.i];
            && sl.size == |x.payload| && sl.offset + sl.size == st.cap - UsedTo(st.es0[st.s], st.i)
            && IsDeleted(sl.flags) == !Live(x) && sl.flags == Cleared(x).flags
            && SLOT_SIZE * st.i + SLOT_SIZE + sl.size <= st.cap - UsedTo(st.es0[st.s], st.i)
            && SlotPayload(st.ps[st.s].contents, st.i) == x.payload
  {
    UsedMonotone(st.es0[st.s], st.i + 1, |st.es0[st.s]|);
    FacingSlot(st.ps[st.s].contents, st.es0[st.s], st.i);
  }

  lemma DestFacts(st: State)
    requires OnSlot(st)
    ensures |st.ps[st.d].contents| == st.cap && Lays(st.ps[st.d].contents, st.outs[st.d])
    ensures st.d == st.s ==> Used(st.outs[st.d]) <= UsedTo(st.es0[st.s], st.i)
    ensures Unread(st.ps[st.s].contents, st.ps0[st.s].contents, st.es0[st.s], st.i + 1)
    ensures Facing(st.ps[st.s].contents, st.es0[st.s], st.i)
    ensures st.d < st.s ==> st.ps[st.d].itemAmount == |st.outs[st.d]|
  {
  }

  // The bytes written by a move within the page put the entry behind those already placed.
  lemma WithinBytes(st: State, e: nat, c1: seq<byte>, c2: seq<byte>, c3: seq<byte>)
    requires OnSlot(st) && st.d == st.s && |st.outs[st.d]| < st.i
    requires Holds(st.cap, st.outs[st.d]) && e == st.cap - Used(st.outs[st.d])
    requires MayMove(st.ps[st.s].contents, st.i, st.i, e, st.cap)
    requires c1 == MovedData(st.ps[st.s].contents, st.ps[st.s].contents, st.i, e) && |c1| == st.cap
    requires c2 == MovedOffset(c1, st.i, e - SlotAt(st.ps[st.s].contents, st.i).size)
    requires c3 == MovedSlot(c2, c2, st.i, |st.outs[st.d]|)
    ensures |c3| == st.cap
    ensures Lays(c3, st.outs[st.d] + [Cleared(st.es0[st.s][st.i])])
    ensures Unread(c3, st.ps0[st.s].contents, st.es0[st.s], st.i + 1)
  {
    hide Mid, Lays, Unread, Facing, MovedData, MovedOffset, MovedSlot, Untouched, Stored;
    var c, es, placed, x := st.ps[st.s].contents, st.es0[st.s], st.outs[st.d], Cleared(st.es0[st.s][st.i]);
    SlotFacts(st);
    DestFacts(st);
    MoveWithin(c, st.i, |placed|, e, c1, c2, c3);
    assert Unread(c3, st.ps0[st.s].contents, st.es0[st.s], st.i + 1) by {
      UnreadStays(c, st.ps0[st.s].contents, es, st.i, |placed|, e, c3);
    }
    hide OnSlot;
    PlacedKept(c, placed, x, st.i, e, c3);
  }

  lemma PlacedWithin(st: State, st': State, e: nat, c1: seq<byte>, c2: seq<byte>, c3: seq<byte>)
    requires OnSlot(st) && st.d == st.s && |st.outs[st.d]| < st.i
    requires Holds(st.cap, st.outs[st.d]) && e == st.cap - Used(st.outs[st.d])
    requires MayMove(st.ps[st.s].contents, st.i, st.i, e, st.cap)
    requires c1 == MovedData(st.ps[st.s].contents, st.ps[st.s].contents, st.i, e) && |c1| == st.cap
    requires c2 == MovedOffset(c1, st.i, e - SlotAt(st.ps[st.s].contents, st.i).size)
    requires c3 == MovedSlot(c2, c2, st.i, |st.outs[st.d]|)
    requires st' == st.(ps := st.ps[st.s := st.ps[st.s].(contents := c3)],
                        outs := st.outs[st.d := st.outs[st.d] + [Cleared(st.es0[st.s][st.i])]], i := st.i + 1)
    ensures PlacedIn(st, st')
  {
    hide Mid, Lays, Unread, Holds, MayMove, MovedData, MovedOffset, MovedSlot;
    WithinBytes(st, e, c1, c2, c3);
  }

  lemma UnreadStays(c: seq<byte>, c0: seq<byte>, es: seq<Entry>, i: nat, k: nat, e: nat, c': seq<byte>)
    requires k < i < |es| && Unread(c, c0, es, i + 1) && Facing(c, es, i)
    requires |c| - UsedTo(es, i) <= e && Untouched(c, c', i, k, e, |es[i].payload|)
    ensures Unread(c', c0, es, i + 1)
  {
    UnreadKept(c, c0, es, i, k, e, |es[i].payload|, c');
  }

  // The bytes written by a move to another page.
  lemma AcrossBytes(st: State, e: nat, cd1: seq<byte>, cs': seq<byte>, cd': seq<byte>)
    requires OnSlot(st) && st.d < st.s
    requires Holds(st.cap, st.outs[st.d]) && e == st.cap - Used(st.outs[st.d])
    requires MayMove(st.ps[st.s].contents, st.i, |st.outs[st.d]|, e, st.cap) && |st.ps[st.d].contents| == st.cap
    requires cd1 == MovedData(st.ps[st.d].contents, st.ps[st.s].contents, st.i, e)
    requires cs' == MovedOffset(st.ps[st.s].contents, st.i, e - SlotAt(st.ps[st.s].contents, st.i).size)
    requires cd' == MovedSlot(cd1, cs', st.i, |st.outs[st.d]|)
    ensures |cd'| == st.cap
    ensures Lays(cd', st.outs[st.d] + [Cleared(st.es0[st.s][st.i])])
    ensures Unread(cs', st.ps0[st.s].contents, st.es0[st.s], st.i + 1)
  {
    hide Mid, Lays, Unread, Facing, MovedData, MovedOffset, MovedSlot, Untouched, Stored;
    var placed, x := st.outs[st.d], Cleared(st.es0[st.s][st.i]);
    SlotFacts(st);
    DestFacts(st);
    MoveApart(st.ps[st.d].contents, st.ps[st.s].contents, st.i, |placed|, e, cd1, cs', cd');
    UnreadKept(st.ps[st.s].contents, st.ps0[st.s].contents, st.es0[st.s], st.i, st.i, 0, 0, cs');
    PlacedKept(st.ps[st.d].contents, placed, x, |placed|, e, cd');
  }

  lemma PlacedAcross(st: State, st': State, e: nat, cd1: seq<byte>, cs': seq<byte>, cd': seq<byte>)
    requires OnSlot(st) && st.d < st.s
    requires Holds(st.cap, st.outs[st.d]) && e == st.cap - Used(st.outs[st.d])
    requires MayMove(st.ps[st.s].contents, st.i, |st.outs[st.d]|, e, st.cap) && |st.ps[st.d].contents| == st.cap
    requires cd1 == MovedData(st.ps[st.d].contents, st.ps[st.s].contents, st.i, e)
    requires cs' == MovedOffset(st.ps[st.s].contents, st.i, e - SlotAt(st.ps[st.s].contents, st.i).size)
    requires cd' == MovedSlot(cd1, cs', st.i, |st.outs[st.d]|)
    requires st.ps[st.s].itemAmount > 0
    requires st' == st.(ps := st.ps[st.s := st.ps[st.s].(contents := cs', itemAmount := st.ps[st.s].itemAmount - 1)]
                                   [st.d := st.ps[st.d].(contents := cd', itemAmount := st.ps[st.d].itemAmount + 1)],
                        outs := st.outs[st.d := st.outs[st.d] + [Cleared(st.es0[st.s][st.i])]], i := st.i + 1)
    ensures PlacedIn(st, st')
  {
    hide Mid, Lays, Unread, Holds, MayMove, MovedData, MovedOffset, MovedSlot;
    AcrossBytes(st, e, cd1, cs', cd');
  }

  // ---- the end of the run ----

  // The final write puts the free-space pointers of the last page right exactly when the run is
  // still compacting at its end. Otherwise it writes 0 and whatever dest_item_index last held,
  // which suits an empty page only.
  predicate ClosesWell(cap: nat, pages: seq<seq<Entry>>)
    requires |pages| > 0
  {
    match FinalCursor(cap, pages)
    case Packing(_, _, _) => true
    case Idle(stale) => pages[|pages| - 1] == [] && stale == cap
  }

  // Pages 0..d as the run leaves them.
  ghost predicate Left(cap: nat, pos: nat, ps: seq<PageData>, outs: seq<seq<Entry>>)
  {
    && |outs| <= |ps|
    && (forall j :: 0 <= j < |ps| ==> |ps[j].contents| == cap)
    && (forall j :: 0 <= j < |outs| ==> Entries(ps[j]) == outs[j] && Scannable(ps[j], pos + j))
    && (forall j :: 0 <= j < |outs| - 1 ==> Formed(ps[j]))
  }

  ghost predicate AtEnd(st: State, l: Locals)
  {
    Good(st, l) && st.s == |st.ps| - 1 && st.i == |st.es0[st.s]|
  }

  lemma EndPages(st: State, l: Locals)
    requires AtEnd(st, l)
    ensures Left(st.cap, st.pos, st.ps, st.outs)
    ensures !l.started ==> Formed(st.ps[st.d])
  {
    hide CursorAt, OutsAt;
    forall j | 0 <= j <= st.d
      ensures Entries(st.ps[j]) == st.outs[j] && Scannable(st.ps[j], st.pos + j)
      ensures j < st.d || !l.started ==> Formed(st.ps[j])
    {
      EndPage(st, l, j);
    }
  }

  lemma EndPage(st: State, l: Locals, j: nat)
    requires AtEnd(st, l) && j <= st.d
    ensures Entries(st.ps[j]) == st.outs[j] && Scannable(st.ps[j], st.pos + j)
    ensures j < st.d || !l.started ==> Formed(st.ps[j])
  {
    hide CursorAt, OutsAt, PageTight;
    EndCounts(st, l, j);
    LaysRead(st.ps[j], st.outs[j]);
  }

  lemma EndCounts(st: State, l: Locals, j: nat)
    requires AtEnd(st, l) && j <= st.d
    ensures Lays(st.ps[j].contents, st.outs[j]) && st.ps[j].itemAmount == |st.outs[j]|
    ensures st.pos + j > 0 && st.outs[j] == [] ==> ZeroDeleted(st.ps[j])
    ensures j < st.d || !l.started ==>
              && st.ps[j].freeStart == SLOT_SIZE * |st.outs[j]|
              && st.ps[j].freeEnd == |st.ps[j].contents| - Used(st.outs[j])
  {
    hide CursorAt, OutsAt, Lays, PageTight;
    if j == st.d && !l.started {
      IdleEnd(st, l);
    }
  }

  // Not compacting at the end: the last page still has all its slots.
  lemma IdleEnd(st: State, l: Locals)
    requires AtEnd(st, l) && !l.started
    ensures st.d == st.s && |st.outs[st.d]| == |st.es0[st.s]| && Used(st.outs[st.d]) == Used(st.es0[st.s])
    ensures st.ps[st.s].freeStart == SLOT_SIZE * |st.es0[st.s]| && st.ps[st.s].freeEnd == st.cap - Used(st.es0[st.s])
    ensures st.outs[st.d] == [] <==> st.es0[st.s] == []
  {
  }

  lemma EndCursor(st: State, l: Locals)
    requires AtEnd(st, l)
    ensures |st.es0| > 0 && FinalPage(st.cap, st.es0) == st.d && st.outs == Vacuumed(st.cap, st.es0)
    ensures FinalCursor(st.cap, st.es0).Packing? == l.started
    ensures l.started ==> l.destId == SLOT_SIZE * |st.outs[st.d]| && l.destEnd == st.cap - Used(st.outs[st.d])
    ensures !l.started ==> FinalCursor(st.cap, st.es0) == Idle(l.destEnd) && l.destId == 0
  {
  }

  // The page the run ends in, after the final write.
  function FinalWrite(p: PageData, l: Locals): PageData
  {
    p.(freeStart := l.destId, freeEnd := l.destEnd)
  }

  lemma FinalWriteReads(p: PageData, l: Locals, index: nat)
    requires Scannable(p, index)
    ensures Entries(FinalWrite(p, l)) == Entries(p) && Scannable(FinalWrite(p, l), index)
  {
  }

  lemma FinalWriteForms(st: State, l: Locals)
    requires AtEnd(st, l)
    ensures |st.es0| > 0
    ensures Formed(FinalWrite(st.ps[st.d], l)) <==> ClosesWell(st.cap, st.es0)
  {
    hide CursorAt, OutsAt, Lays, PageTight;
    EndCursor(st, l);
    EndPage(st, l, st.d);
    EndCounts(st, l, st.d);
    FinalWriteReads(st.ps[st.d], l, st.d);
    if !l.started {
      IdleEnd(st, l);
    }
  }

  // What survives, in order, and nothing flagged.
  lemma EndContents(st: State, l: Locals)
    requires AtEnd(st, l)
    ensures Flat(st.outs) == SurviveAll(st.es0, |st.es0|)
    ensures forall j :: 0 <= j < |st.outs| ==> AllVisible(st.outs[j])
    ensures forall j :: 0 <= j < |st.outs| - 1 ==> PageTight(st.cap, st.es0, st.outs, j)
  {
    hide CursorAt, OutsAt, PageTight;
  }
}
