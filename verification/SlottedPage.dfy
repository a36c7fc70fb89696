/** The layout of one data page: six-byte slots growing up from offset 0 and payloads
    packed downwards from the end of the same byte buffer. */
module SlottedPage {
  import opened Bytes

  const SLOT_SIZE: nat := 6
  const DELETED_MASK: nat := 1
  const NEW_MASK: nat := 2

  datatype Slot = Slot(offset: nat, size: nat, flags: nat)

  // The page header fields and the bytes behind them.
  datatype PageData = PageData(itemAmount: nat, freeStart: nat, freeEnd: nat, contents: seq<byte>)

  // What one slot means to a reader: its flags and the payload it points to.
  datatype Entry = Entry(flags: nat, payload: seq<byte>)

  // ---- flags ----

  predicate IsDeleted(flags: nat) { flags % 2 == 1 }

  predicate IsNew(flags: nat) { flags / 2 % 2 == 1 }

  function SetDeleted(flags: nat): (r: nat)
    ensures IsDeleted(r) && IsNew(r) == IsNew(flags)
  {
    if IsDeleted(flags) then flags else flags + DELETED_MASK
  }

  function SetNew(flags: nat): (r: nat)
    ensures IsNew(r) && IsDeleted(r) == IsDeleted(flags)
  {
    if IsNew(flags) then flags else flags + NEW_MASK
  }

  // `flags &= !MASK` uses the logical negation, so it clears every bit.
  function UnsetNew(flags: nat): nat { 0 }

  predicate Visible(e: Entry) { !IsDeleted(e.flags) && !IsNew(e.flags) }

  // ---- slots ----

  function SlotAt(c: seq<byte>, i: nat): (s: Slot)
    requires SLOT_SIZE * i + SLOT_SIZE <= |c|
  {
    Slot(GetU16(c, SLOT_SIZE * i), GetU16(c, SLOT_SIZE * i + 2), GetU16(c, SLOT_SIZE * i + 4))
  }

  // The bytes slot i points to.
  function SlotPayload(c: seq<byte>, i: nat): seq<byte>
    requires SLOT_SIZE * i + SLOT_SIZE <= |c|
    requires var slot := SlotAt(c, i); slot.offset + slot.size <= |c|
  {
    var slot := SlotAt(c, i);
    c[slot.offset..slot.offset + slot.size]
  }

  function SlotBytes(s: Slot): (b: seq<byte>)
    requires s.offset < U16_LIMIT && s.size < U16_LIMIT && s.flags < U16_LIMIT
    ensures |b| == SLOT_SIZE && SlotAt(b, 0) == s
  {
    U16Bytes(s.offset) + U16Bytes(s.size) + U16Bytes(s.flags)
  }

  // Where the fields of slot i lie, lowest byte first, and which bits are the flags.
  lemma SlotLayout(c: seq<byte>, i: nat)
    requires SLOT_SIZE * i + SLOT_SIZE <= |c|
    ensures var s, at := SlotAt(c, i), 6 * i;
            && s.offset == c[at] as nat + 0x100 * c[at + 1] as nat
            && s.size == c[at + 2] as nat + 0x100 * c[at + 3] as nat
            && s.flags == c[at + 4] as nat + 0x100 * c[at + 5] as nat
            && (IsDeleted(s.flags) <==> c[at + 4] % 2 == 1) && (IsNew(s.flags) <==> c[at + 4] / 2 % 2 == 1)
  {
  }

  lemma SlotFromBytes(c: seq<byte>, i: nat, d: seq<byte>, k: nat)
    requires SLOT_SIZE * i + SLOT_SIZE <= |c| && SLOT_SIZE * k + SLOT_SIZE <= |d|
    requires c[SLOT_SIZE * i..SLOT_SIZE * i + SLOT_SIZE] == d[SLOT_SIZE * k..SLOT_SIZE * k + SLOT_SIZE]
    ensures SlotAt(c, i) == SlotAt(d, k)
  {
    var a := c[SLOT_SIZE * i..SLOT_SIZE * i + SLOT_SIZE];
    var b := d[SLOT_SIZE * k..SLOT_SIZE * k + SLOT_SIZE];
    assert a[0] == b[0] && a[1] == b[1] && a[2] == b[2] && a[3] == b[3] && a[4] == b[4] && a[5] == b[5];
  }

  // ---- entries of a page ----

  function ReadEntry(c: seq<byte>, i: nat): Entry
    requires SLOT_SIZE * i + SLOT_SIZE <= |c|
  {
    var s := SlotAt(c, i);
    Entry(s.flags, if s.offset + s.size <= |c| then c[s.offset..s.offset + s.size] else [])
  }

  // What a reader that trusts item_amount finds: the first itemAmount slots, in slot order.
  function Entries(p: PageData): (es: seq<Entry>)
    ensures SLOT_SIZE * p.itemAmount <= |p.contents| ==> |es| == p.itemAmount
  {
    if SLOT_SIZE * p.itemAmount <= |p.contents| then
      seq(p.itemAmount, i requires 0 <= i < p.itemAmount => ReadEntry(p.contents, i))
    else []
  }

  // Payload bytes of the first n entries.
  function UsedTo(es: seq<Entry>, n: nat): nat
    requires n <= |es|
  {
    if n == 0 then 0 else UsedTo(es, n - 1) + |es[n - 1].payload|
  }

  function Used(es: seq<Entry>): nat { UsedTo(es, |es|) }

  // Slots and payloads of es share a buffer of cap bytes without meeting.
  predicate Holds(cap: nat, es: seq<Entry>)
  {
    SLOT_SIZE * |es| + Used(es) <= cap
  }

  predicate Laid(c: seq<byte>, es: seq<Entry>, i: nat)
    requires i < |es| && Holds(|c|, es)
  {
    UsedMonotone(es, i + 1, |es|);
    && SlotAt(c, i) == Slot(|c| - UsedTo(es, i + 1), |es[i].payload|, es[i].flags)
    && c[|c| - UsedTo(es, i + 1)..|c| - UsedTo(es, i)] == es[i].payload
  }

  // c holds exactly es: slot i at 6*i, its payload packed right below the payload of slot i-1.
  ghost predicate Lays(c: seq<byte>, es: seq<Entry>)
  {
    && Holds(|c|, es)
    && forall i :: 0 <= i < |es| ==> Laid(c, es, i)
  }

  // Readable through item_amount.
  ghost predicate Readable(p: PageData)
  {
    && SLOT_SIZE * p.itemAmount <= |p.contents|
    && Lays(p.contents, Entries(p))
  }

  // Readable, and the free-space pointers delimit exactly the gap between slots and payloads.
  ghost predicate Formed(p: PageData)
  {
    && Readable(p)
    && p.freeStart == SLOT_SIZE * p.itemAmount
    && p.freeEnd == |p.contents| - Used(Entries(p))
  }

  lemma {:induction false} UsedMonotone(es: seq<Entry>, i: nat, j: nat)
    requires i <= j <= |es|
    ensures UsedTo(es, i) <= UsedTo(es, j)
    decreases j
  {
    if i < j {
      UsedMonotone(es, i, j - 1);
    }
  }

  // UsedTo only looks at the sizes of the first n entries.
  lemma {:induction false} UsedPrefix(a: seq<Entry>, b: seq<Entry>, n: nat)
    requires n <= |a| && n <= |b|
    requires forall i :: 0 <= i < n ==> |a[i].payload| == |b[i].payload|
    ensures UsedTo(a, n) == UsedTo(b, n)
  {
    if n > 0 {
      UsedPrefix(a, b, n - 1);
    }
  }

  lemma UsedAppend(es: seq<Entry>, x: Entry)
    ensures Used(es + [x]) == Used(es) + |x.payload|
    ensures forall i :: 0 <= i <= |es| ==> UsedTo(es + [x], i) == UsedTo(es, i)
  {
    forall i | 0 <= i <= |es|
      ensures UsedTo(es + [x], i) == UsedTo(es, i)
    {
      UsedPrefix(es + [x], es, i);
    }
  }

  // Bytes determine the entries: a reader of the first |es| slots finds exactly es.
  lemma LaysRead(p: PageData, es: seq<Entry>)
    requires Lays(p.contents, es) && p.itemAmount == |es|
    ensures Entries(p) == es && Readable(p)
  {
    forall i | 0 <= i < |es|
      ensures Entries(p)[i] == es[i]
    {
      assert Laid(p.contents, es, i);
    }
    assert Entries(p) == es;
  }

  // Writing one slot and one payload into the gap appends one entry and disturbs none.
  lemma AppendLays(c: seq<byte>, es: seq<Entry>, x: Entry, c': seq<byte>)
    requires Lays(c, es) && |c'| == |c|
    requires SLOT_SIZE * |es| + SLOT_SIZE + |x.payload| <= |c| - Used(es)
    requires var e := |c| - Used(es);
             && SlotAt(c', |es|) == Slot(e - |x.payload|, |x.payload|, x.flags)
             && c'[e - |x.payload|..e] == x.payload
    requires forall k :: 0 <= k < SLOT_SIZE * |es| || |c| - Used(es) <= k < |c| ==> c'[k] == c[k]
    ensures Lays(c', es + [x])
  {
    hide SlotAt;
    UsedAppend(es, x);
    var es' := es + [x];
    forall i | 0 <= i < |es'|
      ensures Laid(c', es', i)
    {
      if i < |es| {
        assert Laid(c, es, i);
        UsedMonotone(es, i + 1, |es|);
        assert UsedTo(es', i + 1) == UsedTo(es, i + 1) && UsedTo(es', i) == UsedTo(es, i);
        SlotFromBytes(c', i, c, i);
      } else {
        assert UsedTo(es', i) == Used(es);
      }
    }
  }

  // A page whose entries sit elsewhere in the buffer untouched is still laid out.
  lemma LaysFrame(c: seq<byte>, es: seq<Entry>, c': seq<byte>)
    requires Lays(c, es) && |c'| == |c|
    requires forall k :: 0 <= k < SLOT_SIZE * |es| || |c| - Used(es) <= k < |c| ==> c'[k] == c[k]
    ensures Lays(c', es)
  {
    forall i | 0 <= i < |es|
      ensures Laid(c', es, i)
    {
      assert Laid(c, es, i);
      UsedMonotone(es, i + 1, |es|);
      SlotFromBytes(c', i, c, i);
    }
  }

  // ---- changing one entry in place ----

  // Only slot i and the bytes lo..hi may have changed.
  ghost predicate OnlyEntry(c: seq<byte>, c': seq<byte>, i: nat, lo: int, hi: int)
  {
    && |c'| == |c|
    && forall p: nat :: (p < |c| && !(SLOT_SIZE * i <= p < SLOT_SIZE * i + SLOT_SIZE) && !(lo <= p < hi)) ==>
      c'[p] == c[p]
  }

  // Slot i and its payload are rewritten, to the same size.
  lemma ChangeEntry(c: seq<byte>, es: seq<Entry>, i: nat, x: Entry, c': seq<byte>)
    requires Lays(c, es) && |c'| == |c| && i < |es| && |x.payload| == |es[i].payload|
    requires |c| - UsedTo(es, i) >= |c| - UsedTo(es, i + 1) >= SLOT_SIZE * |es|
    requires OnlyEntry(c, c', i, |c| - UsedTo(es, i + 1), |c| - UsedTo(es, i))
    requires SlotAt(c', i) == Slot(|c| - UsedTo(es, i + 1), |x.payload|, x.flags)
    requires c'[|c| - UsedTo(es, i + 1)..|c| - UsedTo(es, i)] == x.payload
    ensures Lays(c', es[i := x])
  {
    var es' := es[i := x];
    UsedPrefix(es', es, |es|);
    forall k | 0 <= k < |es'|
      ensures Laid(c', es', k)
    {
      ChangeEntryAt(c, es, i, x, c', k);
    }
  }

  lemma ChangeEntryAt(c: seq<byte>, es: seq<Entry>, i: nat, x: Entry, c': seq<byte>, k: nat)
    requires Lays(c, es) && |c'| == |c| && i < |es| && |x.payload| == |es[i].payload| && k < |es|
    requires |c| - UsedTo(es, i) >= |c| - UsedTo(es, i + 1) >= SLOT_SIZE * |es|
    requires OnlyEntry(c, c', i, |c| - UsedTo(es, i + 1), |c| - UsedTo(es, i))
    requires SlotAt(c', i) == Slot(|c| - UsedTo(es, i + 1), |x.payload|, x.flags)
    requires c'[|c| - UsedTo(es, i + 1)..|c| - UsedTo(es, i)] == x.payload
    requires Holds(|c'|, es[i := x])
    ensures Laid(c', es[i := x], k)
  {
    hide SlotAt, GetU16;
    UsedPrefix(es[i := x], es, k);
    UsedPrefix(es[i := x], es, k + 1);
    if k != i {
      OtherEntryKept(c, es, i, c', k);
    }
  }

  // Another entry of the page is where and what it was.
  lemma OtherEntryKept(c: seq<byte>, es: seq<Entry>, i: nat, c': seq<byte>, k: nat)
    requires Lays(c, es) && i < |es| && k < |es| && k != i
    requires OnlyEntry(c, c', i, |c| - UsedTo(es, i + 1), |c| - UsedTo(es, i))
    requires |c| - UsedTo(es, i + 1) >= SLOT_SIZE * |es|
    ensures SLOT_SIZE * k + SLOT_SIZE <= |c| && |c| >= |c| - UsedTo(es, k) >= |c| - UsedTo(es, k + 1) >= 0
    ensures SlotAt(c', k) == Slot(|c| - UsedTo(es, k + 1), |es[k].payload|, es[k].flags)
    ensures c'[|c| - UsedTo(es, k + 1)..|c| - UsedTo(es, k)] == es[k].payload
  {
    hide SlotAt, GetU16;
    assert Laid(c, es, k);
    UsedMonotone(es, k + 1, |es|);
    SlotFromBytes(c', k, c, k);
    if k < i {
      UsedMonotone(es, k + 1, i);
    } else {
      UsedMonotone(es, i + 1, k);
    }
    assert c'[|c| - UsedTo(es, k + 1)..|c| - UsedTo(es, k)] == c[|c| - UsedTo(es, k + 1)..|c| - UsedTo(es, k)];
  }

  lemma LaidBounds(c: seq<byte>, es: seq<Entry>, i: nat)
    requires Lays(c, es) && i < |es|
    ensures SLOT_SIZE * i + SLOT_SIZE <= |c|
    ensures var slot := SlotAt(c, i);
            && slot.offset == |c| - UsedTo(es, i + 1) && slot.size == |es[i].payload| && slot.flags == es[i].flags
            && |c| - UsedTo(es, i) == slot.offset + slot.size <= |c|
            && slot.offset >= SLOT_SIZE * |es|
            && c[slot.offset..slot.offset + slot.size] == es[i].payload
  {
    hide SlotAt;
    assert Laid(c, es, i);
    UsedMonotone(es, i + 1, |es|);
    assert UsedTo(es, i + 1) == UsedTo(es, i) + |es[i].payload|;
  }

  lemma EntryBounds(p: PageData, i: nat)
    requires Readable(p) && i < p.itemAmount
    ensures |Entries(p)| == p.itemAmount
    ensures SLOT_SIZE * i + SLOT_SIZE <= |p.contents|
    ensures var es, slot := Entries(p), SlotAt(p.contents, i);
            && slot.offset == |p.contents| - UsedTo(es, i + 1) && slot.size == |es[i].payload| &&
              slot.flags == es[i].flags
            && |p.contents| - UsedTo(es, i) == slot.offset + slot.size <= |p.contents|
            && slot.offset >= SLOT_SIZE * |es|
            && p.contents[slot.offset..slot.offset + slot.size] == es[i].payload
  {
    hide Lays;
    LaidBounds(p.contents, Entries(p), i);
  }

  // page_item_set_deleted on slot i.
  function Flagged(p: PageData, i: nat): (r: PageData)
    requires SLOT_SIZE * i + SLOT_SIZE <= |p.contents|
    ensures |r.contents| == |p.contents| && r.freeStart == p.freeStart && r.freeEnd == p.freeEnd
  {
    p.(contents := Overwrite(p.contents, SLOT_SIZE * i + 4, U16Bytes(SetDeleted(SlotAt(p.contents, i).flags))))
  }

  function WithDeleted(e: Entry): Entry { e.(flags := SetDeleted(e.flags)) }

  lemma FlaggedEntries(p: PageData, i: nat)
    requires Readable(p) && i < p.itemAmount && SLOT_SIZE * i + SLOT_SIZE <= |p.contents|
    ensures var p' := Flagged(p, i);
            && Readable(p') && |Entries(p)| == p.itemAmount
            && Entries(p') == Entries(p)[i := WithDeleted(Entries(p)[i])]
            && (Formed(p) ==> Formed(p'))
  {
    hide Lays;
    var es, p', x := Entries(p), Flagged(p, i), WithDeleted(Entries(p)[i]);
    EntryBounds(p, i);
    FlaggedBytes(p, i);
    ChangeEntry(p.contents, es, i, x, p'.contents);
    LaysRead(p', es[i := x]);
    UsedPrefix(es[i := x], es, |es|);
  }

  lemma FlaggedBytes(p: PageData, i: nat)
    requires Readable(p) && i < p.itemAmount && SLOT_SIZE * i + SLOT_SIZE <= |p.contents|
    ensures var c, c', es := p.contents, Flagged(p, i).contents, Entries(p);
            && |es| == p.itemAmount
            && OnlyEntry(c, c', i, |c| - UsedTo(es, i + 1), |c| - UsedTo(es, i))
            && SlotAt(c', i) == SlotAt(c, i).(flags := SetDeleted(SlotAt(c, i).flags))
            && |c| - UsedTo(es, i) >= |c| - UsedTo(es, i + 1) >= 0
            && c'[|c| - UsedTo(es, i + 1)..|c| - UsedTo(es, i)] == es[i].payload
  {
    hide Readable;
    EntryBounds(p, i);
    var c, c', es := p.contents, Flagged(p, i).contents, Entries(p);
    assert c'[|c| - UsedTo(es, i + 1)..|c| - UsedTo(es, i)] == c[|c| - UsedTo(es, i + 1)..|c| - UsedTo(es, i)];
  }

  // Bytes written over the payload of slot i; the size in the slot stays.
  function Patched(p: PageData, i: nat, b: seq<byte>): (r: PageData)
    requires SLOT_SIZE * i + SLOT_SIZE <= |p.contents| && SlotAt(p.contents, i).offset + |b| <= |p.contents|
    ensures |r.contents| == |p.contents| && r.itemAmount == p.itemAmount
    ensures r.freeStart == p.freeStart && r.freeEnd == p.freeEnd
  {
    p.(contents := Overwrite(p.contents, SlotAt(p.contents, i).offset, b))
  }

  function WithPatch(e: Entry, b: seq<byte>): Entry
    requires |b| <= |e.payload|
  {
    e.(payload := b + e.payload[|b|..])
  }

  // Entry k after b was written from the start of the payload of entry i on: the bytes go on into the
  // payloads of the entries before i, which lie right above it.
  function OverlaidEntry(es: seq<Entry>, i: nat, b: seq<byte>, k: nat): (x: Entry)
    requires i < |es| && k < |es|
    ensures x.flags == es[k].flags && |x.payload| == |es[k].payload|
  {
    if k > i then es[k]
    else
      UsedMonotone(es, k + 1, i + 1);
      var from := UsedTo(es, i + 1) - UsedTo(es, k + 1);
      Entry(es[k].flags, seq(|es[k].payload|, z requires 0 <= z < |es[k].payload| =>
        if from + z < |b| then b[from + z] else es[k].payload[z]))
  }

  function Overlaid(es: seq<Entry>, i: nat, b: seq<byte>): (r: seq<Entry>)
    requires i < |es|
    ensures |r| == |es|
  {
    seq(|es|, k requires 0 <= k < |es| => OverlaidEntry(es, i, b, k))
  }

  // The bytes stay in the page exactly when they are no more than the payloads from entry i up. For slot 0
  // any longer payload leaves the page.
  lemma PatchStaysInPage(p: PageData, i: nat, b: seq<byte>)
    requires Readable(p) && i < p.itemAmount
    ensures |Entries(p)| == p.itemAmount && SLOT_SIZE * i + SLOT_SIZE <= |p.contents|
    ensures SlotAt(p.contents, i).offset + |b| <= |p.contents| <==> |b| <= UsedTo(Entries(p), i + 1)
    ensures i == 0 ==> UsedTo(Entries(p), i + 1) == |Entries(p)[0].payload|
  {
    hide Readable, SlotAt;
    EntryBounds(p, i);
  }

  lemma OverlaidLaid(c: seq<byte>, es: seq<Entry>, i: nat, b: seq<byte>, k: nat)
    requires Lays(c, es) && i < |es| && k < |es| && |b| <= UsedTo(es, i + 1)
    requires UsedTo(es, i + 1) <= |c| - SLOT_SIZE * |es|
    requires Holds(|c|, Overlaid(es, i, b))
    ensures Laid(Overwrite(c, |c| - UsedTo(es, i + 1), b), Overlaid(es, i, b), k)
  {
    hide SlotAt, GetU16, Overlaid, Lays;
    var c', es', lo := Overwrite(c, |c| - UsedTo(es, i + 1), b), Overlaid(es, i, b), |c| - UsedTo(es, k + 1);
    OverlaidAt(es, i, b, k);
    OverlaidUsed(es, i, b, k);
    OverlaidUsed(es, i, b, k + 1);
    LaidBounds(c, es, k);
    SlotFromBytes(c', k, c, k);
    if k <= i {
      UsedMonotone(es, k + 1, i + 1);
    } else {
      UsedMonotone(es, i + 1, k);
    }
    forall z | 0 <= z < |es[k].payload|
      ensures c'[lo..lo + |es[k].payload|][z] == es'[k].payload[z]
    {
      assert c[lo..lo + |es[k].payload|][z] == es[k].payload[z];
    }
    assert c'[lo..lo + |es[k].payload|] == es'[k].payload;
  }

  lemma OverlaidAt(es: seq<Entry>, i: nat, b: seq<byte>, k: nat)
    requires i < |es| && k < |es|
    ensures Overlaid(es, i, b)[k] == OverlaidEntry(es, i, b, k)
  {
  }

  lemma OverlaidUsed(es: seq<Entry>, i: nat, b: seq<byte>, k: nat)
    requires i < |es| && k <= |es|
    ensures UsedTo(Overlaid(es, i, b), k) == UsedTo(es, k)
  {
    UsedPrefix(Overlaid(es, i, b), es, k);
  }

  // Bytes written over a payload, and perhaps over those above it: the page stays laid out as it was.
  lemma PatchedOverlays(p: PageData, i: nat, b: seq<byte>)
    requires Readable(p) && i < p.itemAmount && |Entries(p)| == p.itemAmount
    requires SLOT_SIZE * i + SLOT_SIZE <= |p.contents| && SlotAt(p.contents, i).offset + |b| <= |p.contents|
    ensures var p' := Patched(p, i, b);
            Readable(p') && Entries(p') == Overlaid(Entries(p), i, b) && (Formed(p) ==> Formed(p'))
  {
    hide SlotAt, Laid, Overlaid, Entries, UsedTo;
    var c, es, p' := p.contents, Entries(p), Patched(p, i, b);
    var es' := Overlaid(es, i, b);
    EntryBounds(p, i);
    OverlaidUsed(es, i, b, |es|);
    forall k | 0 <= k < |es'|
      ensures Laid(p'.contents, es', k)
    {
      OverlaidLaid(c, es, i, b, k);
    }
    LaysRead(p', es');
  }

  lemma OverlaidShort(es: seq<Entry>, i: nat, b: seq<byte>)
    requires i < |es| && |b| <= |es[i].payload|
    ensures Overlaid(es, i, b) == es[i := WithPatch(es[i], b)]
  {
    forall k | 0 <= k < |es|
      ensures Overlaid(es, i, b)[k] == es[i := WithPatch(es[i], b)][k]
    {
      if k < i {
        UsedMonotone(es, k + 1, i);
      }
      assert OverlaidEntry(es, i, b, k).payload == es[i := WithPatch(es[i], b)][k].payload;
    }
  }

  // Bytes that are not longer than the payload change that entry only.
  lemma PatchedEntries(p: PageData, i: nat, b: seq<byte>)
    requires Readable(p) && i < p.itemAmount && |Entries(p)| == p.itemAmount && |b| <= |Entries(p)[i].payload|
    requires SLOT_SIZE * i + SLOT_SIZE <= |p.contents| && SlotAt(p.contents, i).offset + |b| <= |p.contents|
    ensures var p' := Patched(p, i, b);
            && Readable(p') && Entries(p') == Entries(p)[i := WithPatch(Entries(p)[i], b)]
            && (Formed(p) ==> Formed(p'))
  {
    hide Readable, Formed, SlotAt;
    PatchedOverlays(p, i, b);
    OverlaidShort(Entries(p), i, b);
  }

  // The entry, and the place in it, that holds the byte y places above the payload of entry i.
  lemma {:induction false} Above(es: seq<Entry>, i: nat, y: nat) returns (k: nat, z: nat)
    requires i <= |es| && y < UsedTo(es, i)
    ensures k < i && z < |es[k].payload| && UsedTo(es, k + 1) <= UsedTo(es, i)
    ensures UsedTo(es, i) - UsedTo(es, k + 1) + z == y
  {
    if y < |es[i - 1].payload| {
      k, z := i - 1, y;
    } else {
      k, z := Above(es, i - 1, y - |es[i - 1].payload|);
    }
  }

  // No other entry changes.
  ghost predicate Spares(es: seq<Entry>, i: nat, b: seq<byte>)
    requires i < |es|
  {
    forall k :: 0 <= k < |es| && k != i ==> Overlaid(es, i, b)[k] == es[k]
  }

  // Bytes at least as long as the payload spare the other entries exactly when what runs over is what was
  // there before.
  lemma PatchSparesExactly(p: PageData, i: nat, b: seq<byte>)
    requires Readable(p) && i < p.itemAmount && |Entries(p)| == p.itemAmount && |Entries(p)[i].payload| <= |b|
    requires SLOT_SIZE * i + SLOT_SIZE <= |p.contents| && SlotAt(p.contents, i).offset + |b| <= |p.contents|
    ensures |Entries(Patched(p, i, b))| == p.itemAmount
    ensures var n, e := |Entries(p)[i].payload|, SlotAt(p.contents, i).offset + |Entries(p)[i].payload|;
            (forall k :: 0 <= k < p.itemAmount && k != i ==> Entries(Patched(p, i, b))[k] == Entries(p)[k])
            <==> b[n..] == p.contents[e..e + |b| - n]
  {
    hide Readable, SlotAt, Entries, Overlaid;
    PatchedOverlays(p, i, b);
    EntryBounds(p, i);
    var es, n, e := Entries(p), |Entries(p)[i].payload|, SlotAt(p.contents, i).offset + |Entries(p)[i].payload|;
    assert UsedTo(es, i + 1) == UsedTo(es, i) + n;
    if Spares(es, i, b) {
      forall y | 0 <= y < |b| - n
        ensures b[n..][y] == p.contents[e..e + |b| - n][y]
      {
        SparedByte(p, i, b, y);
      }
    }
    if b[n..] == p.contents[e..e + |b| - n] {
      forall k | 0 <= k < |es| && k != i
        ensures Overlaid(es, i, b)[k] == es[k]
      {
        SparedEntry(p, i, b, k);
      }
    }
  }

  lemma SparedByte(p: PageData, i: nat, b: seq<byte>, y: nat)
    requires Readable(p) && i < p.itemAmount && |Entries(p)| == p.itemAmount
    requires y + |Entries(p)[i].payload| < |b| && y < UsedTo(Entries(p), i) <= |p.contents|
    requires Spares(Entries(p), i, b)
    ensures b[|Entries(p)[i].payload| + y] == p.contents[|p.contents| - UsedTo(Entries(p), i) + y]
  {
    hide Readable, SlotAt, Entries, Overlaid, OverlaidEntry, UsedTo;
    var es := Entries(p);
    var k, z := Above(es, i, y);
    UsedNext(es, i);
    PayloadByte(p, k, z);
    OverlaidAt(es, i, b, k);
    OverlaidByte(es, i, b, k, z);
    assert Overlaid(es, i, b)[k] == es[k];
  }

  lemma UsedNext(es: seq<Entry>, i: nat)
    requires i < |es|
    ensures UsedTo(es, i + 1) == UsedTo(es, i) + |es[i].payload|
  {
  }

  lemma PayloadByte(p: PageData, k: nat, z: nat)
    requires Readable(p) && k < p.itemAmount && |Entries(p)| == p.itemAmount && z < |Entries(p)[k].payload|
    ensures UsedTo(Entries(p), k + 1) <= |p.contents|
    ensures |p.contents| - UsedTo(Entries(p), k + 1) + z < |p.contents|
    ensures p.contents[|p.contents| - UsedTo(Entries(p), k + 1) + z] == Entries(p)[k].payload[z]
  {
    hide Readable, SlotAt, Entries;
    EntryBounds(p, k);
    var slot := SlotAt(p.contents, k);
    assert p.contents[slot.offset..slot.offset + slot.size][z] == p.contents[slot.offset + z];
  }

  lemma OverlaidByte(es: seq<Entry>, i: nat, b: seq<byte>, k: nat, z: nat)
    requires k < i < |es| && z < |es[k].payload| && UsedTo(es, k + 1) <= UsedTo(es, i + 1)
    requires UsedTo(es, i + 1) - UsedTo(es, k + 1) + z < |b|
    ensures OverlaidEntry(es, i, b, k).payload[z] == b[UsedTo(es, i + 1) - UsedTo(es, k + 1) + z]
  {
  }

  lemma SparedEntry(p: PageData, i: nat, b: seq<byte>, k: nat)
    requires Readable(p) && i < p.itemAmount && |Entries(p)| == p.itemAmount && k < p.itemAmount && k != i
    requires |Entries(p)[i].payload| <= |b| <= UsedTo(Entries(p), i + 1) && UsedTo(Entries(p), i) <= |p.contents|
    requires var es, n, e := Entries(p), |Entries(p)[i].payload|, |p.contents| - UsedTo(Entries(p), i);
             e + |b| - n <= |p.contents| && b[n..] == p.contents[e..e + |b| - n]
    ensures Overlaid(Entries(p), i, b)[k] == Entries(p)[k]
  {
    hide Readable, SlotAt, Entries, Overlaid;
    var es, n, e := Entries(p), |Entries(p)[i].payload|, |p.contents| - UsedTo(Entries(p), i);
    EntryBounds(p, k);
    OverlaidAt(es, i, b, k);
    if k < i {
      UsedMonotone(es, k + 1, i);
      assert UsedTo(es, i + 1) == UsedTo(es, i) + n;
      var from, slot := UsedTo(es, i + 1) - UsedTo(es, k + 1), SlotAt(p.contents, k);
      forall z | 0 <= z < |es[k].payload|
        ensures OverlaidEntry(es, i, b, k).payload[z] == es[k].payload[z]
      {
        assert p.contents[slot.offset..slot.offset + slot.size][z] == es[k].payload[z];
        if from + z < |b| {
          assert b[n..][from + z - n] == p.contents[e..e + |b| - n][from + z - n];
        }
      }
      assert OverlaidEntry(es, i, b, k).payload == es[k].payload;
    }
  }

  lemma EntryRead(p: PageData, i: nat)
    requires SLOT_SIZE * p.itemAmount <= |p.contents| && i < p.itemAmount
    ensures |Entries(p)| == p.itemAmount && Entries(p)[i] == ReadEntry(p.contents, i)
  {
  }

  lemma FirstPayloadByte(c: seq<byte>, i: nat)
    requires SLOT_SIZE * i + SLOT_SIZE <= |c|
    requires var slot := SlotAt(c, i); slot.offset + slot.size <= |c| && slot.size > 0
    ensures |ReadEntry(c, i).payload| > 0 && ReadEntry(c, i).payload[0] == c[SlotAt(c, i).offset]
  {
  }

  lemma PatchedByte(p: PageData, i: nat, b: seq<byte>, z: nat)
    requires SLOT_SIZE * i + SLOT_SIZE <= |p.contents| && SlotAt(p.contents, i).offset + |b| <= |p.contents|
    requires 0 < i && SLOT_SIZE * i <= SlotAt(p.contents, i).offset && z < |b|
    ensures Patched(p, i, b).contents[SlotAt(p.contents, i).offset + z] == b[z]
    ensures SlotAt(Patched(p, i, b).contents, i - 1) == SlotAt(p.contents, i - 1)
  {
    SlotFromBytes(Patched(p, i, b).contents, i - 1, p.contents, i - 1);
  }

  // Longer bytes run into the payload of the slot before: nothing in the page stops them.
  lemma LongerPatchSpills(p: PageData, i: nat, b: seq<byte>)
    requires Readable(p) && 0 < i < p.itemAmount && |Entries(p)| == p.itemAmount
    requires SLOT_SIZE * i + SLOT_SIZE <= |p.contents| && SlotAt(p.contents, i).offset + |b| <= |p.contents|
    requires |b| > |Entries(p)[i].payload| && |Entries(p)[i - 1].payload| > 0
    requires b[|Entries(p)[i].payload|] != Entries(p)[i - 1].payload[0]
    ensures |Entries(Patched(p, i, b))| == p.itemAmount && Entries(Patched(p, i, b))[i - 1] != Entries(p)[i - 1]
  {
    hide Readable, SlotAt, UsedTo, Entries, ReadEntry, Patched, GetU16;
    EntryBounds(p, i);
    EntryBounds(p, i - 1);
    EntryRead(p, i - 1);
    PatchedByte(p, i, b, |Entries(p)[i].payload|);
    SpillEnd(p, Patched(p, i, b), i);
  }

  lemma SpillEnd(p: PageData, p': PageData, i: nat)
    requires 0 < i < p.itemAmount == p'.itemAmount && |Entries(p)| == p.itemAmount
    requires SLOT_SIZE * p.itemAmount <= |p.contents| == |p'.contents|
    requires SlotAt(p'.contents, i - 1) == SlotAt(p.contents, i - 1)
    requires var slot := SlotAt(p.contents, i - 1);
             && slot.offset + slot.size <= |p.contents| && slot.size > 0
             && p'.contents[slot.offset] != p.contents[slot.offset]
    ensures |Entries(p')| == p.itemAmount && Entries(p')[i - 1] != Entries(p)[i - 1]
  {
    hide SlotAt, Entries, ReadEntry, Overwrite, GetU16;
    EntryRead(p, i - 1);
    EntryRead(p', i - 1);
    FirstPayloadByte(p.contents, i - 1);
    FirstPayloadByte(p'.contents, i - 1);
  }
}
