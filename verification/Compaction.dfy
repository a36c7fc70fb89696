/** The invariant of the cross-page compaction, on values.
    Pages are numbered along the chain; `ps0`/`es0` are the pages and entries before the run,
    (s, i) is the source cursor, d the destination page, and outs[0..d] the entries already
    placed in pages 0..d. */
module Compaction {
  import opened Bytes
  import opened SlottedPage

  // ---- what survives ----

  // The loop clears the new flag (and with it every other bit) before it looks at the deleted flag.
  predicate Live(e: Entry) { IsNew(e.flags) || !IsDeleted(e.flags) }

  function Cleared(e: Entry): Entry
  {
    if IsNew(e.flags) then Entry(UnsetNew(e.flags), e.payload) else e
  }

  // The survivors among the first n entries, in order.
  function SurviveTo(es: seq<Entry>, n: nat): seq<Entry>
    requires n <= |es|
  {
    if n == 0 then []
    else SurviveTo(es, n - 1) + (if Live(es[n - 1]) then [Cleared(es[n - 1])] else [])
  }

  function Survive(es: seq<Entry>): seq<Entry> { SurviveTo(es, |es|) }

  // The survivors of the first n pages, in chain order.
  function SurviveAll(pages: seq<seq<Entry>>, n: nat): seq<Entry>
    requires n <= |pages|
  {
    if n == 0 then [] else SurviveAll(pages, n - 1) + Survive(pages[n - 1])
  }

  // Position a is before position b.
  predicate InFront(a: (nat, nat), b: (nat, nat))
  {
    a.0 < b.0 || (a.0 == b.0 && a.1 < b.1)
  }

  // es are the entries before (j, k) that are new or not deleted, the new ones without any flag; entry i is from
  // position at[i].
  ghost predicate KeptFrom(pages: seq<seq<Entry>>, j: nat, k: nat, es: seq<Entry>, at: seq<(nat, nat)>)
  {
    && |at| == |es| && (forall m, n :: 0 <= m < n < |at| ==> InFront(at[m], at[n]))
    && (forall m :: 0 <= m < |at| ==> InFront(at[m], (j, k)) && KeptAt(pages, at[m], es[m]))
    && (forall x: nat, y: nat ::
          (x < |pages| && y < |pages[x]| && InFront((x, y), (j, k)) &&
           (IsNew(pages[x][y].flags) || !IsDeleted(pages[x][y].flags))) ==> (x, y) in at)
  }

  predicate KeptAt(pages: seq<seq<Entry>>, p: (nat, nat), e: Entry)
  {
    && p.0 < |pages| && p.1 < |pages[p.0]|
    && var x := pages[p.0][p.1];
       if IsNew(x.flags) then e == Entry(0, x.payload) else !IsDeleted(x.flags) && e == x
  }

  // The survivors are exactly the entries that are new or not deleted, in chain order, with their bytes.
  lemma SurvivorsAre(pages: seq<seq<Entry>>) returns (at: seq<(nat, nat)>)
    ensures KeptFrom(pages, |pages|, 0, SurviveAll(pages, |pages|), at)
  {
    hide KeptFrom, SurviveAll, SurviveTo;
    at := [];
    KeptNone(pages);
    for j := 0 to |pages|
      invariant KeptFrom(pages, j, 0, SurviveAll(pages, j), at)
    {
      SurviveNext(pages, j);
      at := KeptPage(pages, j, SurviveAll(pages, j), at);
    }
  }

  lemma KeptNone(pages: seq<seq<Entry>>)
    ensures KeptFrom(pages, 0, 0, SurviveAll(pages, 0), [])
  {
  }

  lemma SurviveNext(pages: seq<seq<Entry>>, j: nat)
    requires j < |pages|
    ensures SurviveAll(pages, j + 1) == SurviveAll(pages, j) + Survive(pages[j])
  {
  }

  // One page more.
  lemma KeptPage(pages: seq<seq<Entry>>, j: nat, es: seq<Entry>, at0: seq<(nat, nat)>) returns (at: seq<(nat, nat)>)
    requires j < |pages| && KeptFrom(pages, j, 0, es, at0)
    ensures KeptFrom(pages, j + 1, 0, es + Survive(pages[j]), at)
  {
    hide KeptFrom, SurviveTo, IsDeleted, IsNew;
    at := at0;
    SurviveStart(pages[j]);
    assert es + [] == es;
    for k := 0 to |pages[j]|
      invariant KeptFrom(pages, j, k, es + SurviveTo(pages[j], k), at)
    {
      var x := pages[j][k];
      KeptMore(pages, j, k, es + SurviveTo(pages[j], k), at);
      SurviveStep(pages[j], k);
      assert es + SurviveTo(pages[j], k) + [Cleared(x)] == es + (SurviveTo(pages[j], k) + [Cleared(x)]);
      if Live(x) {
        at := at + [(j, k)];
      }
    }
    KeptNextPage(pages, j, es + Survive(pages[j]), at);
  }

  lemma SurviveStart(es: seq<Entry>)
    ensures SurviveTo(es, 0) == []
  {
  }

  lemma SurviveStep(es: seq<Entry>, k: nat)
    requires k < |es|
    ensures SurviveTo(es, k + 1) == if Live(es[k]) then SurviveTo(es, k) + [Cleared(es[k])] else SurviveTo(es, k)
  {
  }

  lemma KeptMore(pages: seq<seq<Entry>>, j: nat, k: nat, es: seq<Entry>, at: seq<(nat, nat)>)
    requires KeptFrom(pages, j, k, es, at) && j < |pages| && k < |pages[j]|
    ensures if IsDeleted(pages[j][k].flags) && !IsNew(pages[j][k].flags) then KeptFrom(pages, j, k + 1, es, at)
            else KeptFrom(pages, j, k + 1, es + [Cleared(pages[j][k])], at + [(j, k)])
  {
    hide IsDeleted, IsNew;
  }

  lemma KeptNextPage(pages: seq<seq<Entry>>, j: nat, es: seq<Entry>, at: seq<(nat, nat)>)
    requires j < |pages| && KeptFrom(pages, j, |pages[j]|, es, at)
    ensures KeptFrom(pages, j + 1, 0, es, at)
  {
  }

  // The entries of the first n pages, in chain order.
  function FlatTo(pages: seq<seq<Entry>>, n: nat): seq<Entry>
    requires n <= |pages|
  {
    if n == 0 then [] else FlatTo(pages, n - 1) + pages[n - 1]
  }

  function Flat(pages: seq<seq<Entry>>): seq<Entry> { FlatTo(pages, |pages|) }

  ghost predicate AllVisible(es: seq<Entry>)
  {
    forall i :: 0 <= i < |es| ==> Visible(es[i])
  }

  // ---- where the destination cursor is ----

  // Idle: not compacting (stale is what dest_item_index still holds).
  // Packing: the next entry goes to slot `count` of page `page`, which holds `used` payload bytes.
  datatype DestCursor = Idle(stale: nat) | Packing(page: nat, count: nat, used: nat)

  // One slot, by sizes and flags alone: what the branches of the loop do to the cursor.
  function StepCursor(cap: nat, c: DestCursor, es: seq<Entry>, s: nat, i: nat): DestCursor
    requires i < |es|
  {
    var x := es[i];
    match c
    case Idle(_) => if Live(x) then c else Packing(s, i, UsedTo(es, i))
    case Packing(d, k, u) =>
      if !Live(x) then c
      else if SLOT_SIZE * k + u + SLOT_SIZE + |x.payload| <= cap then Packing(d, k + 1, u + |x.payload|)
      else if i == 0 && d + 1 == s then Idle(if u <= cap then cap - u else 0)
      else Packing(d + 1, 1, |x.payload|)
  }

  // The cursor after pages 0..s-1 and slots 0..i-1 of page s.
  function CursorAt(cap: nat, pages: seq<seq<Entry>>, s: nat, i: nat): DestCursor
    requires s < |pages| && i <= |pages[s]|
    decreases s, i
  {
    if i > 0 then StepCursor(cap, CursorAt(cap, pages, s, i - 1), pages[s], s, i - 1)
    else if s == 0 then Idle(0)
    else CursorAt(cap, pages, s - 1, |pages[s - 1]|)
  }

  function FinalCursor(cap: nat, pages: seq<seq<Entry>>): DestCursor
    requires |pages| > 0
  {
    CursorAt(cap, pages, |pages| - 1, |pages[|pages| - 1]|)
  }

  // ---- the pages the run leaves ----

  // An entry behind the last page's entries.
  function AppendToLast(outs: seq<seq<Entry>>, x: Entry): seq<seq<Entry>>
    requires |outs| > 0
  {
    outs[|outs| - 1 := outs[|outs| - 1] + [x]]
  }

  // One slot: what the branches of the loop do to the pages up to the destination.
  function StepOuts(cap: nat, c: DestCursor, outs: seq<seq<Entry>>, es: seq<Entry>, i: nat): (r: seq<seq<Entry>>)
    requires i < |es| && |outs| > 0
    ensures |r| > 0
  {
    var x := es[i];
    if !Live(x) then outs
    else if c.Packing? && SLOT_SIZE * c.count + c.used + SLOT_SIZE + |x.payload| > cap then outs + [[Cleared(x)]]
    else AppendToLast(outs, Cleared(x))
  }

  // Pages 0..d after pages 0..s-1 and slots 0..i-1 of page s.
  function OutsAt(cap: nat, pages: seq<seq<Entry>>, s: nat, i: nat): (r: seq<seq<Entry>>)
    requires s < |pages| && i <= |pages[s]|
    ensures |r| > 0
    decreases s, i
  {
    if i > 0 then StepOuts(cap, CursorAt(cap, pages, s, i - 1), OutsAt(cap, pages, s, i - 1), pages[s], i - 1)
    else if s == 0 then [[]]
    else OutsAt(cap, pages, s - 1, |pages[s - 1]|)
         + if CursorAt(cap, pages, s - 1, |pages[s - 1]|).Idle? then [[]] else []
  }

  // A whole run.
  function Vacuumed(cap: nat, pages: seq<seq<Entry>>): (r: seq<seq<Entry>>)
    requires |pages| > 0
    ensures |r| > 0
  {
    OutsAt(cap, pages, |pages| - 1, |pages[|pages| - 1]|)
  }

  // The page where the compacted chain ends.
  function FinalPage(cap: nat, pages: seq<seq<Entry>>): nat
    requires |pages| > 0
  {
    match FinalCursor(cap, pages)
    case Idle(_) => |pages| - 1
    case Packing(d, _, _) => d
  }

  // ---- the invariant ----

  // c still has the slots i.. and the payloads of the entries i.. of the original page.
  ghost predicate Unread(c: seq<byte>, c0: seq<byte>, es: seq<Entry>, i: nat)
    requires i <= |es|
  {
    && |c| == |c0|
    && Holds(|c|, es)
    && forall p: nat ::
         p < |c| && (SLOT_SIZE * i <= p < SLOT_SIZE * |es| || |c| - Used(es) <= p < |c| - UsedTo(es, i)) ==>
           c[p] == c0[p]
  }

  // Slot i is about to be consumed: its new flag is cleared, slot and payload are still readable.
  ghost predicate Facing(c: seq<byte>, es: seq<Entry>, i: nat)
    requires i < |es|
  {
    && Holds(|c|, es)
    && UsedTo(es, i) <= UsedTo(es, i + 1) <= Used(es)
    && SlotAt(c, i) == Slot(|c| - UsedTo(es, i + 1), |es[i].payload|, Cleared(es[i]).flags)
    && c[|c| - UsedTo(es, i + 1)..|c| - UsedTo(es, i)] == es[i].payload
  }

  // Page p is well formed and holds exactly es.
  ghost predicate Packed(p: PageData, es: seq<Entry>)
  {
    && Lays(p.contents, es)
    && p.itemAmount == |es|
    && p.freeStart == SLOT_SIZE * |es|
    && p.freeEnd == |p.contents| - Used(es)
  }

  ghost predicate Before(cap: nat, ps0: seq<PageData>, es0: seq<seq<Entry>>)
  {
    && |es0| == |ps0| > 0
    && forall j :: 0 <= j < |ps0| ==> |ps0[j].contents| == cap && Packed(ps0[j], es0[j])
  }

  // item_amount of the destination and source page, while slot i of page s comes next.
  ghost predicate Accounts(ps: seq<PageData>, es0: seq<seq<Entry>>, outs: seq<seq<Entry>>, s: nat, i: nat, d: nat)
    requires d <= s < |ps| == |es0| && |outs| == d + 1 && i <= |es0[s]|
  {
    && (d == s ==> ps[s].itemAmount == |outs[d]| + |es0[s]| - i)
    && (d < s ==> ps[d].itemAmount == |outs[d]| && ps[s].itemAmount == |es0[s]| - i)
    && (forall j :: d < j < s ==> ps[j].itemAmount == 0)
  }

  // Everything but the unread part of the source page.
  ghost predicate Core(cap: nat, ps0: seq<PageData>, ps: seq<PageData>, es0: seq<seq<Entry>>,
                       outs: seq<seq<Entry>>, s: nat, i: nat, d: nat)
  {
    && Before(cap, ps0, es0)
    && d <= s < |ps| == |ps0| && i <= |es0[s]| && |outs| == d + 1
    && (forall j :: 0 <= j < |ps| ==> |ps[j].contents| == cap)
    // closed pages are well formed
    && (forall j :: 0 <= j < d ==> Packed(ps[j], outs[j]))
    // the destination page holds what was moved there so far
    && Lays(ps[d].contents, outs[d])
    // the destination cursor has not overtaken the source cursor
    && (d == s ==> |outs[d]| <= i && Used(outs[d]) <= UsedTo(es0[s], i))
    && Accounts(ps, es0, outs, s, i, d)
    && ps[s].freeStart == ps0[s].freeStart && ps[s].freeEnd == ps0[s].freeEnd
    && (forall j :: s < j < |ps| ==> ps[j] == ps0[j])
    // nothing lost, nothing reordered
    && FlatTo(outs, d + 1) == SurviveAll(es0, s) + SurviveTo(es0[s], i)
    && (forall j :: 0 <= j <= d ==> AllVisible(outs[j]))
  }

  ghost predicate Inv(cap: nat, ps0: seq<PageData>, ps: seq<PageData>, es0: seq<seq<Entry>>,
                      outs: seq<seq<Entry>>, s: nat, i: nat, d: nat)
  {
    && Core(cap, ps0, ps, es0, outs, s, i, d)
    && Unread(ps[s].contents, ps0[s].contents, es0[s], i)
  }

  // Slot i has been looked at and had its new flag cleared, but has not been dealt with.
  ghost predicate Mid(cap: nat, ps0: seq<PageData>, ps: seq<PageData>, es0: seq<seq<Entry>>,
                      outs: seq<seq<Entry>>, s: nat, i: nat, d: nat)
  {
    && Core(cap, ps0, ps, es0, outs, s, i, d)
    && i < |es0[s]|
    && Unread(ps[s].contents, ps0[s].contents, es0[s], i + 1)
    && Facing(ps[s].contents, es0[s], i)
  }

  // ---- lemmas about the flattened views ----

  lemma {:induction false} FlatPrefix(a: seq<seq<Entry>>, b: seq<seq<Entry>>, n: nat)
    requires n <= |a| && n <= |b|
    requires forall j :: 0 <= j < n ==> a[j] == b[j]
    ensures FlatTo(a, n) == FlatTo(b, n)
  {
    if n > 0 {
      FlatPrefix(a, b, n - 1);
    }
  }

  lemma FlatExtendLast(outs: seq<seq<Entry>>, d: nat, x: Entry)
    requires |outs| == d + 1
    ensures FlatTo(outs[d := outs[d] + [x]], d + 1) == FlatTo(outs, d + 1) + [x]
  {
    FlatPrefix(outs[d := outs[d] + [x]], outs, d);
  }

  lemma FlatNewPage(outs: seq<seq<Entry>>, d: nat)
    requires |outs| == d + 1
    ensures FlatTo(outs + [[]], d + 2) == FlatTo(outs, d + 1)
  {
    FlatPrefix(outs + [[]], outs, d + 1);
  }

  // ---- one step each ----

  // Before anything is read.
  lemma Start(cap: nat, ps: seq<PageData>, es: seq<seq<Entry>>)
    requires Before(cap, ps, es)
    ensures Inv(cap, ps, ps, es, [[]], 0, 0, 0)
  {
  }

  lemma FaceSlot(c: seq<byte>, es: seq<Entry>, i: nat, c': seq<byte>)
    requires i < |es| && Lays(c, es) && |c'| == |c| && Unread(c', c, es, i)
    ensures |c| - UsedTo(es, i) >= |c| - UsedTo(es, i + 1) >= SLOT_SIZE * |es|
    ensures SlotAt(c', i) == Slot(|c| - UsedTo(es, i + 1), |es[i].payload|, es[i].flags)
    ensures c'[|c| - UsedTo(es, i + 1)..|c| - UsedTo(es, i)] == es[i].payload
  {
    assert Laid(c, es, i);
    UsedMonotone(es, i + 1, |es|);
    SlotFromBytes(c', i, c, i);
    assert c'[|c| - UsedTo(es, i + 1)..|c| - UsedTo(es, i)] == c[|c| - UsedTo(es, i + 1)..|c| - UsedTo(es, i)];
  }

  // The bytes after the new flag of slot i was cleared, where it was set.
  function ClearedContents(c: seq<byte>, i: nat): (r: seq<byte>)
    requires SLOT_SIZE * i + SLOT_SIZE <= |c|
    ensures |r| == |c|
  {
    if IsNew(SlotAt(c, i).flags) then Overwrite(c, SLOT_SIZE * i + 4, U16Bytes(UnsetNew(SlotAt(c, i).flags)))
    else c
  }

  lemma ClearedBytes(c: seq<byte>, c0: seq<byte>, es: seq<Entry>, i: nat)
    requires i < |es| && Lays(c0, es) && Unread(c, c0, es, i)
    ensures SLOT_SIZE * i + SLOT_SIZE <= |c|
    ensures Unread(ClearedContents(c, i), c0, es, i + 1) && Facing(ClearedContents(c, i), es, i)
    ensures forall k :: 0 <= k < |c| && !(SLOT_SIZE * i <= k < SLOT_SIZE * i + SLOT_SIZE) ==>
              ClearedContents(c, i)[k] == c[k]
  {
    hide Lays;
    FaceSlot(c0, es, i, c);
    UsedMonotone(es, i, i + 1);
    UsedMonotone(es, i + 1, |es|);
    var c' := ClearedContents(c, i);
    assert SlotAt(c', i) == Slot(SlotAt(c, i).offset, SlotAt(c, i).size, Cleared(es[i]).flags);
    assert c'[|c| - UsedTo(es, i + 1)..|c| - UsedTo(es, i)] == c[|c| - UsedTo(es, i + 1)..|c| - UsedTo(es, i)];
  }

  lemma ClearFlag(cap: nat, ps0: seq<PageData>, ps: seq<PageData>, es0: seq<seq<Entry>>,
                  outs: seq<seq<Entry>>, s: nat, i: nat, d: nat, ps': seq<PageData>)
    requires Inv(cap, ps0, ps, es0, outs, s, i, d) && i < |es0[s]|
    requires Holds(cap, es0[s])
    requires ps' == ps[s := ps[s].(contents := ClearedContents(ps[s].contents, i))]
    ensures Mid(cap, ps0, ps', es0, outs, s, i, d)
  {
    hide Lays, Unread, Facing, ClearedContents;
    ClearedBytes(ps[s].contents, ps0[s].contents, es0[s], i);
    if d == s {
      ClearedPlaced(ps[s].contents, outs[d], es0[s], i);
    }
  }

  // Clearing the flag of slot i does not touch the entries placed in the slots before it.
  lemma ClearedPlaced(c: seq<byte>, placed: seq<Entry>, es: seq<Entry>, i: nat)
    requires i < |es| && |placed| <= i && Lays(c, placed) && Holds(|c|, es) && Used(placed) <= UsedTo(es, i)
    ensures Lays(ClearedContents(c, i), placed)
  {
    hide Lays;
    UsedMonotone(es, i, |es|);
    LaysFrame(c, placed, ClearedContents(c, i));
  }

  // A deleted slot is dropped; only item_amount changes.
  lemma DropDeleted(cap: nat, ps0: seq<PageData>, ps: seq<PageData>, es0: seq<seq<Entry>>,
                    outs: seq<seq<Entry>>, s: nat, i: nat, d: nat, ps': seq<PageData>)
    requires Mid(cap, ps0, ps, es0, outs, s, i, d) && !Live(es0[s][i])
    requires ps[s].itemAmount > 0
    requires ps' == ps[s := ps[s].(itemAmount := ps[s].itemAmount - 1)]
    ensures Inv(cap, ps0, ps', es0, outs, s, i + 1, d)
  {
  }

  // Nothing was dropped before it: a live slot stays where it is.
  lemma KeepInPlace(cap: nat, ps0: seq<PageData>, ps: seq<PageData>, es0: seq<seq<Entry>>,
                    outs: seq<seq<Entry>>, s: nat, i: nat, outs': seq<seq<Entry>>)
    requires Mid(cap, ps0, ps, es0, outs, s, i, s) && Live(es0[s][i])
    requires |outs[s]| == i && Used(outs[s]) == UsedTo(es0[s], i)
    requires outs' == outs[s := outs[s] + [Cleared(es0[s][i])]]
    ensures Inv(cap, ps0, ps, es0, outs', s, i + 1, s)
    ensures |outs'[s]| == i + 1 && Used(outs'[s]) == UsedTo(es0[s], i + 1)
  {
    hide Lays, Unread, SlotAt, Holds;
    var x := Cleared(es0[s][i]);
    UsedAppend(outs[s], x);
    LaidInPlace(ps[s].contents, outs[s], es0[s], i);
    FlatExtendLast(outs, s, x);
    assert AllVisible(outs'[s]);
  }

  lemma LaidInPlace(c: seq<byte>, placed: seq<Entry>, es: seq<Entry>, i: nat)
    requires i < |es| && Lays(c, placed) && Facing(c, es, i)
    requires |placed| == i && Used(placed) == UsedTo(es, i)
    ensures Lays(c, placed + [Cleared(es[i])])
  {
    hide Lays, SlotAt;
    AppendLays(c, placed, Cleared(es[i]), c);
  }

  // The full destination page is closed and the next one becomes the destination.
  lemma CloseAndAdvance(cap: nat, ps0: seq<PageData>, ps: seq<PageData>, es0: seq<seq<Entry>>,
                        outs: seq<seq<Entry>>, s: nat, i: nat, d: nat, ps': seq<PageData>)
    requires Mid(cap, ps0, ps, es0, outs, s, i, d) && d < s
    requires Holds(cap, outs[d])
    requires ps' == ps[d := ps[d].(freeStart := SLOT_SIZE * |outs[d]|, freeEnd := cap - Used(outs[d]))]
    ensures Mid(cap, ps0, ps', es0, outs + [[]], s, i, d + 1)
  {
    FlatNewPage(outs, d);
    assert Packed(ps'[d], outs[d]);
    assert Lays(ps'[d + 1].contents, []);
    assert ps'[s] == ps[s];
  }

  // Inside one page there is always room: the destination cursor trails the source cursor.
  lemma FitsInSamePage(cap: nat, ps0: seq<PageData>, ps: seq<PageData>, es0: seq<seq<Entry>>,
                       outs: seq<seq<Entry>>, s: nat, i: nat)
    requires Mid(cap, ps0, ps, es0, outs, s, i, s)
    ensures SLOT_SIZE * |outs[s]| + Used(outs[s]) + SLOT_SIZE + |es0[s][i].payload| <= cap
  {
  }

  // ---- the bytes of a move ----

  // Bytes outside slot i, slot k and the z bytes below e are the same.
  ghost predicate Untouched(c: seq<byte>, c': seq<byte>, i: nat, k: nat, e: nat, z: nat)
  {
    && |c'| == |c|
    && forall p: nat ::
         (p < |c|
         && !(SLOT_SIZE * i <= p < SLOT_SIZE * i + SLOT_SIZE)
         && !(SLOT_SIZE * k <= p < SLOT_SIZE * k + SLOT_SIZE)
         && !(e - z <= p < e)) ==> c'[p] == c[p]
  }

  // c' has slot k pointing at a copy of `payload` that ends at e.
  ghost predicate Stored(c': seq<byte>, k: nat, e: nat, flags: nat, payload: seq<byte>)
  {
    && SLOT_SIZE * k + SLOT_SIZE <= |c'| && |payload| <= e <= |c'|
    && SlotAt(c', k) == Slot(e - |payload|, |payload|, flags)
    && c'[e - |payload|..e] == payload
  }

  lemma OffsetWritten(c: seq<byte>, i: nat, offset: nat)
    requires SLOT_SIZE * i + SLOT_SIZE <= |c| && offset < U16_LIMIT
    ensures SlotAt(Overwrite(c, SLOT_SIZE * i, U16Bytes(offset)), i) == SlotAt(c, i).(offset := offset)
  {
  }

  // Write 1 of a move: the payload of slot i of cs goes to cd, ending at e.
  function MovedData(cd: seq<byte>, cs: seq<byte>, i: nat, e: nat): (r: seq<byte>)
    requires SLOT_SIZE * i + SLOT_SIZE <= |cs| && e <= |cd|
    requires var sl := SlotAt(cs, i); sl.offset + sl.size <= |cs| && sl.size <= e
    ensures |r| == |cd|
    ensures var sl := SlotAt(cs, i); r[e - sl.size..e] == cs[sl.offset..sl.offset + sl.size]
  {
    var sl := SlotAt(cs, i);
    Overwrite(cd, e - sl.size, cs[sl.offset..sl.offset + sl.size])
  }

  // Write 2: item_offset of slot i.
  function MovedOffset(cs: seq<byte>, i: nat, offset: nat): (r: seq<byte>)
    requires SLOT_SIZE * i + SLOT_SIZE <= |cs| && offset < U16_LIMIT
    ensures |r| == |cs|
    ensures SlotAt(r, i) == SlotAt(cs, i).(offset := offset)
  {
    OffsetWritten(cs, i, offset);
    Overwrite(cs, SLOT_SIZE * i, U16Bytes(offset))
  }

  // Write 3: slot i of cs goes to slot k of cd.
  function MovedSlot(cd: seq<byte>, cs: seq<byte>, i: nat, k: nat): (r: seq<byte>)
    requires SLOT_SIZE * i + SLOT_SIZE <= |cs| && SLOT_SIZE * k + SLOT_SIZE <= |cd|
    ensures |r| == |cd|
    ensures SlotAt(r, k) == SlotAt(cs, i)
  {
    SlotFromBytes(Overwrite(cd, SLOT_SIZE * k, cs[SLOT_SIZE * i..SLOT_SIZE * i + SLOT_SIZE]), k, cs, i);
    Overwrite(cd, SLOT_SIZE * k, cs[SLOT_SIZE * i..SLOT_SIZE * i + SLOT_SIZE])
  }

  // Slot i of c may move to slot k, payload ending at e, without the writes meeting slot i.
  ghost predicate MayMove(c: seq<byte>, i: nat, k: nat, e: nat, room: nat)
  {
    && SLOT_SIZE * i + SLOT_SIZE <= |c| < U16_LIMIT
    && var sl := SlotAt(c, i);
       sl.offset + sl.size <= |c| && SLOT_SIZE * k + SLOT_SIZE + sl.size <= e <= room < U16_LIMIT
  }

  // Moving within one page touches slots i and k and the payload area below e, nothing else.
  lemma MoveWithin(c: seq<byte>, i: nat, k: nat, e: nat, c1: seq<byte>, c2: seq<byte>, c3: seq<byte>)
    requires k < i && MayMove(c, i, i, e, |c|)
    requires c1 == MovedData(c, c, i, e)
    requires c2 == MovedOffset(c1, i, e - SlotAt(c, i).size)
    requires c3 == MovedSlot(c2, c2, i, k)
    ensures Untouched(c, c3, i, k, e, SlotAt(c, i).size)
    ensures Stored(c3, k, e, SlotAt(c, i).flags, SlotPayload(c, i))
  {
    SlotFromBytes(c1, i, c, i);
    var z := SlotAt(c, i).size;
    assert c3[e - z..e] == c1[e - z..e];
    assert Untouched(c, c3, i, k, e, z) by {
      hide SlotAt;
    }
    hide Untouched;
  }

  // Moving to another page: the destination changes in slot k and below e, the source in slot i.
  lemma MoveApart(cd: seq<byte>, cs: seq<byte>, i: nat, k: nat, e: nat, cd1: seq<byte>, cs': seq<byte>, cd': seq<byte>)
    requires MayMove(cs, i, k, e, |cd|)
    requires cd1 == MovedData(cd, cs, i, e)
    requires cs' == MovedOffset(cs, i, e - SlotAt(cs, i).size)
    requires cd' == MovedSlot(cd1, cs', i, k)
    ensures Untouched(cs, cs', i, i, 0, 0)
    ensures Untouched(cd, cd', k, k, e, SlotAt(cs, i).size)
    ensures Stored(cd', k, e, SlotAt(cs, i).flags, SlotPayload(cs, i))
  {
    var z := SlotAt(cs, i).size;
    assert cd'[e - z..e] == cd1[e - z..e];
  }

  // ---- what a move means for the entries ----

  lemma FacingSlot(c: seq<byte>, es: seq<Entry>, i: nat)
    requires i < |es| && Facing(c, es, i)
    ensures SlotAt(c, i).offset + SlotAt(c, i).size == |c| - UsedTo(es, i)
    ensures SlotPayload(c, i) == es[i].payload
  {
    hide Holds, Used;
    assert UsedTo(es, i + 1) == UsedTo(es, i) + |es[i].payload|;
  }

  // What is still unread is not touched.
  lemma UnreadKept(c: seq<byte>, c0: seq<byte>, es: seq<Entry>, i: nat, k: nat, e: nat, z: nat, c': seq<byte>)
    requires k <= i < |es| && Unread(c, c0, es, i + 1) && Facing(c, es, i)
    requires e - z >= |c| - UsedTo(es, i + 1) || e == 0
    requires Untouched(c, c', i, k, e, z)
    ensures Unread(c', c0, es, i + 1)
  {
  }

  // What is already placed is not touched, and the new entry joins it.
  lemma PlacedKept(c: seq<byte>, placed: seq<Entry>, x: Entry, i: nat, e: nat, c': seq<byte>)
    requires |placed| <= i && SLOT_SIZE * i + SLOT_SIZE <= e && Lays(c, placed)
    requires e == |c| - Used(placed) && SLOT_SIZE * |placed| + SLOT_SIZE + |x.payload| <= e
    requires Untouched(c, c', i, |placed|, e, |x.payload|)
    requires Stored(c', |placed|, e, x.flags, x.payload)
    ensures Lays(c', placed + [x])
  {
    AppendLays(c, placed, x, c');
  }

  // A live slot has been placed behind the others in the destination page.
  lemma PlaceLive(cap: nat, ps0: seq<PageData>, ps: seq<PageData>, es0: seq<seq<Entry>>,
                  outs: seq<seq<Entry>>, s: nat, i: nat, d: nat, ps': seq<PageData>, outs': seq<seq<Entry>>)
    requires Mid(cap, ps0, ps, es0, outs, s, i, d) && Live(es0[s][i])
    requires d == s ==> |outs[d]| < i
    requires outs' == outs[d := outs[d] + [Cleared(es0[s][i])]]
    requires |ps'| == |ps|
    requires forall j :: 0 <= j < |ps| && j != s && j != d ==> ps'[j] == ps[j]
    requires |ps'[d].contents| == cap && Lays(ps'[d].contents, outs'[d])
    requires Unread(ps'[s].contents, ps0[s].contents, es0[s], i + 1)
    requires ps'[s].freeStart == ps[s].freeStart && ps'[s].freeEnd == ps[s].freeEnd
    requires if d == s then ps'[s].itemAmount == ps[s].itemAmount
             else ps'[d].itemAmount == ps[d].itemAmount + 1 && ps'[s].itemAmount == ps[s].itemAmount - 1
    ensures Inv(cap, ps0, ps', es0, outs', s, i + 1, d)
  {
    var x := Cleared(es0[s][i]);
    UsedAppend(outs[d], x);
    FlatExtendLast(outs, d, x);
    assert AllVisible(outs'[d]);
    assert forall j :: 0 <= j < d ==> outs'[j] == outs[j];
  }

  // The source moves to the next page and the destination stays.
  lemma NextSource(cap: nat, ps0: seq<PageData>, ps: seq<PageData>, es0: seq<seq<Entry>>,
                   outs: seq<seq<Entry>>, s: nat, d: nat)
    requires s + 1 < |ps| == |es0| && Inv(cap, ps0, ps, es0, outs, s, |es0[s]|, d)
    ensures Inv(cap, ps0, ps, es0, outs, s + 1, 0, d)
  {
  }

  // Not compacting: both cursors move to the next page.
  lemma NextBoth(cap: nat, ps0: seq<PageData>, ps: seq<PageData>, es0: seq<seq<Entry>>,
                 outs: seq<seq<Entry>>, s: nat)
    requires s + 1 < |ps| == |es0| && Inv(cap, ps0, ps, es0, outs, s, |es0[s]|, s)
    requires s < |outs| && |outs[s]| == |es0[s]| && Used(outs[s]) == Used(es0[s])
    ensures Inv(cap, ps0, ps, es0, outs + [[]], s + 1, 0, s + 1)
  {
    FlatNewPage(outs, s);
  }
}
