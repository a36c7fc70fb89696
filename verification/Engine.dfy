/** Whole runs of the storage engine, as the code has them or with the repairs: the pages of each table are a function
    of the run, and each table is the multiset of rows that the operations make it, but for the rows that a vacuum
    loses on a page that an earlier one left blind. */
module Engine {
  import opened Bytes
  import opened SlottedPage
  import opened PageLists
  import opened PageStorage
  import opened Compaction
  import opened VacuumResult
  import opened VacuumRows
  import opened ScanEffects
  import opened Tables
  import V = Vacuum

  type Row = seq<byte>

  // Tables are named by their position among the existing ones.
  datatype Op =
    | Create
    | Drop(t: nat)
    | Insert(t: nat, row: Row)
    | Delete(t: nat, pred: Row -> bool)
    | Update(t: nat, pred: Row -> bool, upd: Row -> Row, inPlace: bool)

  // The rows of each table.
  type State = seq<multiset<Row>>

  type Pages = seq<seq<Entry>>

  // The pages of a table, its blind pages with the end of their free space, and whether the head may name a page
  // that is not its last.
  datatype Table = Table(pages: Pages, ends: map<nat, nat>, stale: bool)

  type Store = seq<Table>

  // What a page can take: rows and updated rows leave room for their slot or are over the item size,
  // and an update in place does not make a row longer.
  ghost predicate Admissible(cap: nat, op: Op)
  {
    match op
    case Insert(_, row) => Insertable(cap, row)
    case Update(_, pred, upd, inPlace) =>
      forall row :: pred(row) ==> if inPlace then |upd(row)| <= |row| else Insertable(cap, upd(row))
    case _ => true
  }

  function Plus(bag: multiset<Row>, row: Row): multiset<Row> { bag + multiset{row} }

  // ---- one operation on the tables as multisets of rows ----

  ghost predicate AbstractStep(cap: nat, op: Op, s: State, s': State)
  {
    match op
    case Create => s' == s + [multiset{}]
    case Drop(t) => s' == if t < |s| then s[..t] + s[t + 1..] else s
    case Insert(t, row) => s' == if t < |s| && |row| <= cap then s[t := Plus(s[t], row)] else s
    case Delete(t, pred) =>
      if t < |s| then Deleted(pred, s, s', t) else s' == s
    case Update(t, pred, upd, inPlace) =>
      if t < |s| then exists rows: seq<Row> :: Replaced(cap, rows, pred, upd, inPlace, s, s', t) else s' == s
  }

  // The matching rows of table t are gone, the others are there as often as before.
  ghost predicate Deleted(pred: Row -> bool, s: State, s': State, t: nat)
    requires t < |s|
  {
    && |s'| == |s| && (forall i :: 0 <= i < |s| && i != t ==> s'[i] == s[i])
    && (forall row :: s'[t][row] == if pred(row) then 0 else s[t][row])
  }

  // The matching rows of table t are replaced by their updates; an update over the item size is lost.
  ghost predicate Replaced(cap: nat, rows: seq<Row>, pred: Row -> bool, upd: Row -> Row, inPlace: bool, s: State,
                           s': State, t: nat)
    requires t < |s|
  {
    multiset(rows) == s[t] && s' == s[t := AfterUpdate(cap, rows, pred, upd, inPlace)]
  }

  function AfterUpdate(cap: nat, rows: seq<Row>, pred: Row -> bool, upd: Row -> Row, inPlace: bool): multiset<Row>
  {
    if inPlace then multiset(UpdateRows(pred, InPlace(upd), rows)) else ReinsertedRows(cap, pred, upd, rows)
  }

  // ---- the order of the rows does not matter ----

  // What the rows become, one by one.
  function BagOf(h: Row -> multiset<Row>, rows: seq<Row>): multiset<Row>
  {
    if rows == [] then multiset{} else BagOf(h, rows[..|rows| - 1]) + h(rows[|rows| - 1])
  }

  lemma {:induction false} BagOfWithout(h: Row -> multiset<Row>, rows: seq<Row>, i: nat)
    requires i < |rows|
    ensures BagOf(h, rows) == BagOf(h, rows[..i] + rows[i + 1..]) + h(rows[i])
  {
    var n := |rows| - 1;
    assert rows == rows[..n] + [rows[n]];
    BagOfMore(h, rows[..n], rows[n]);
    hide BagOf;
    if i == n {
      assert rows[..i] + rows[i + 1..] == rows[..n];
    } else {
      BagOfWithout(h, rows[..n], i);
      var rest := rows[..n][..i] + rows[..n][i + 1..];
      assert rows[..i] + rows[i + 1..] == rest + [rows[n]];
      BagOfMore(h, rest, rows[n]);
    }
  }

  lemma BagOfMore(h: Row -> multiset<Row>, rows: seq<Row>, row: Row)
    ensures BagOf(h, rows + [row]) == BagOf(h, rows) + h(row)
  {
    assert (rows + [row])[..|rows|] == rows;
  }

  lemma {:induction false} BagOfBag(h: Row -> multiset<Row>, a: seq<Row>, b: seq<Row>)
    requires multiset(a) == multiset(b)
    ensures BagOf(h, a) == BagOf(h, b)
    decreases |a|
  {
    if a == [] {
      assert |multiset(b)| == 0;
    } else {
      var n := |a| - 1;
      assert a[n] in multiset(b);
      var i :| 0 <= i < |b| && b[i] == a[n];
      BagWithout(a, n);
      BagWithout(b, i);
      assert a[..n] + a[n + 1..] == a[..n];
      BagOfBag(h, a[..n], b[..i] + b[i + 1..]);
      BagOfWithout(h, b, i);
    }
  }

  lemma BagWithout(rows: seq<Row>, i: nat)
    requires i < |rows|
    ensures multiset(rows[..i] + rows[i + 1..]) == multiset(rows) - multiset{rows[i]}
  {
    assert rows == rows[..i] + [rows[i]] + rows[i + 1..];
  }

  function Put(pred: Row -> bool, upd: Row -> Row): Row -> multiset<Row>
  {
    (row: Row) => multiset{UpdateRow(pred, upd, row)}
  }

  lemma {:induction false} UpdateBag(pred: Row -> bool, upd: Row -> Row, rows: seq<Row>)
    ensures multiset(UpdateRows(pred, upd, rows)) == BagOf(Put(pred, upd), rows)
  {
    if rows != [] {
      var n := |rows| - 1;
      UpdateBag(pred, upd, rows[..n]);
      UpdateRowsLast(pred, upd, rows);
    }
  }

  function Again(cap: nat, pred: Row -> bool, upd: Row -> Row): Row -> multiset<Row>
  {
    (row: Row) => Reinserted(cap, pred, upd, row)
  }

  lemma {:induction false} ReinsertedBag(cap: nat, pred: Row -> bool, upd: Row -> Row, rows: seq<Row>)
    ensures ReinsertedRows(cap, pred, upd, rows) == BagOf(Again(cap, pred, upd), rows)
  {
    if rows != [] {
      ReinsertedBag(cap, pred, upd, rows[..|rows| - 1]);
    }
  }

  lemma SameBag(a: multiset<Row>, b: multiset<Row>)
    requires forall row :: a[row] == b[row]
    ensures a == b
  {
  }

  lemma DeleteByBag(pred: Row -> bool, a: seq<Row>, b: seq<Row>)
    requires multiset(a) == multiset(b)
    ensures multiset(Reject(pred, a)) == multiset(Reject(pred, b))
  {
    RejectCount(pred, a);
    RejectCount(pred, b);
    hide Reject;
    SameBag(multiset(Reject(pred, a)), multiset(Reject(pred, b)));
  }

  lemma UpdateByBag(cap: nat, pred: Row -> bool, upd: Row -> Row, inPlace: bool, a: seq<Row>, b: seq<Row>)
    requires multiset(a) == multiset(b)
    ensures AfterUpdate(cap, a, pred, upd, inPlace) == AfterUpdate(cap, b, pred, upd, inPlace)
  {
    UpdateBag(pred, InPlace(upd), a);
    UpdateBag(pred, InPlace(upd), b);
    BagOfBag(Put(pred, InPlace(upd)), a, b);
    ReinsertedBag(cap, pred, upd, a);
    ReinsertedBag(cap, pred, upd, b);
    BagOfBag(Again(cap, pred, upd), a, b);
  }

  // Row by row: what does not match stays, what matches is replaced, and a row is missing only when its update is
  // over the item size.
  lemma UpdatedIs(cap: nat, rows: seq<Row>, pred: Row -> bool, upd: Row -> Row, inPlace: bool)
    returns (at: seq<nat>, after: seq<Row>)
    ensures multiset(after) == AfterUpdate(cap, rows, pred, upd, inPlace)
    ensures |at| == |after| && (forall i, j :: 0 <= i < j < |at| ==> at[i] < at[j])
    ensures forall i :: 0 <= i < |at| ==>
              && at[i] < |rows| && (!pred(rows[at[i]]) ==> after[i] == rows[at[i]])
              && (pred(rows[at[i]]) && !inPlace ==> after[i] == upd(rows[at[i]]))
              && (pred(rows[at[i]]) && inPlace && |upd(rows[at[i]])| <= |rows[at[i]]| ==>
                    after[i] == upd(rows[at[i]]) + rows[at[i]][|upd(rows[at[i]])|..])
    ensures forall k :: 0 <= k < |rows| ==>
              (k in at <==> (pred(rows[k]) && !inPlace ==> |upd(rows[k])| <= cap))
  {
    if inPlace {
      at, after := seq(|rows|, i => i), UpdateRows(pred, InPlace(upd), rows);
      forall k | 0 <= k < |rows|
        ensures k in at
      {
        assert at[k] == k;
      }
    } else {
      at, after := ReinsertedIs(cap, pred, upd, rows);
    }
  }

  // An operation has one outcome on multisets of rows.
  lemma AbstractStepUnique(cap: nat, op: Op, s: State, s1: State, s2: State)
    requires AbstractStep(cap, op, s, s1) && AbstractStep(cap, op, s, s2)
    ensures s1 == s2
  {
    hide Reject, AfterUpdate;
    if op.Delete? && op.t < |s| {
      SameBag(s1[op.t], s2[op.t]);
    } else if op.Update? && op.t < |s| {
      var a: seq<Row> :| Replaced(cap, a, op.pred, op.upd, op.inPlace, s, s1, op.t);
      var b: seq<Row> :| Replaced(cap, b, op.pred, op.upd, op.inPlace, s, s2, op.t);
      UpdateByBag(cap, op.pred, op.upd, op.inPlace, a, b);
    }
  }

  // ---- one operation on the pages ----

  function InsertionPlace(cap: nat, t: Table, row: Row): nat
    requires t.pages != []
  {
    InsertPositionBut(cap, t.pages, |row|, t.ends.Keys)
  }

  function AfterInsert(cap: nat, t: Table, row: Row): Table
  {
    if t.pages == [] then t
    else t.(pages := InsertInto(t.pages, InsertionPlace(cap, t, row), NewEntry(row, false)))
  }

  // The pages a vacuum is given by a delete or an update.
  function Scanned(cap: nat, op: Op, pages: Pages): Pages
    requires op.Delete? || op.Update?
  {
    if op.Delete? then MapPages(Marked(op.pred), pages) else UpdatedPages(cap, op.pred, op.upd, op.inPlace, pages)
  }

  function AfterScan(cap: nat, op: Op, t: Table, repaired: bool): Table
    requires op.Delete? || op.Update?
  {
    var pages := Scanned(cap, op, t.pages);
    if pages == [] then t
    else
      var after := AfterVacuum(cap, pages, t.ends.Keys);
      Table(after, EndsAfter(cap, pages, t.ends, repaired), !repaired && (t.stale || |after| < |pages|))
  }

  function AfterOp(cap: nat, op: Op, st: Store, repaired: bool): Store
  {
    match op
    case Create => st + [Table([[]], map[], false)]
    case Drop(t) => if t < |st| then st[..t] + st[t + 1..] else st
    case Insert(t, row) => if t < |st| && |row| <= cap then st[t := AfterInsert(cap, st[t], row)] else st
    case _ => if op.t < |st| then st[op.t := AfterScan(cap, op, st[op.t], repaired)] else st
  }

  function AfterOps(cap: nat, ops: seq<Op>, repaired: bool): Store
  {
    if ops == [] then [] else AfterOp(cap, ops[|ops| - 1], AfterOps(cap, ops[..|ops| - 1], repaired), repaired)
  }

  // What the theorem asks of an operation as the code has it. A row goes to the head when that may name a wrong
  // page, and no blind page offers it room. A delete or update removes nothing before a blind page other than the
  // last, and an update that reinserts meets a table that is fit for writes.
  ghost predicate Covered(cap: nat, op: Op, st: Store)
  {
    match op
    case Insert(t, row) => t < |st| && |row| <= cap ==> InsertCovered(cap, st[t], row)
    case Delete(t, _) => t < |st| ==> ScanCovered(cap, op, st[t])
    case Update(t, _, _, _) => t < |st| ==> ScanCovered(cap, op, st[t])
    case _ => true
  }

  ghost predicate InsertCovered(cap: nat, t: Table, row: Row)
  {
    t.pages != [] ==>
      && (t.stale ==> InsertionPlace(cap, t, row) == 0)
      && forall j :: j in t.ends && (j == 0 || j == |t.pages| - 1) ==> t.ends[j] <= |row| + SLOT_SIZE
  }

  ghost predicate ScanCovered(cap: nat, op: Op, t: Table)
    requires op.Delete? || op.Update?
  {
    && (Scanned(cap, op, t.pages) != [] ==> Sweepable(Scanned(cap, op, t.pages), t.ends.Keys))
    && (op.Update? && !op.inPlace ==> t.ends == map[] && !t.stale)
  }

  ghost predicate AllCovered(cap: nat, ops: seq<Op>)
  {
    forall k :: 0 <= k < |ops| ==> Covered(cap, ops[k], AfterOps(cap, ops[..k], false))
  }

  // The rows that a vacuum loses.
  function LostBy(cap: nat, op: Op, t: Table): multiset<Row>
    requires op.Delete? || op.Update?
  {
    var pages := Scanned(cap, op, t.pages);
    if pages == [] then multiset{} else multiset(LostRows(cap, pages, t.ends.Keys))
  }

  // Back with the rows lost.
  function Regained(cap: nat, op: Op, st: Store, s: State): State
  {
    if (op.Delete? || op.Update?) && op.t < |st| && op.t < |s|
    then s[op.t := s[op.t] + LostBy(cap, op, st[op.t])]
    else s
  }

  predicate Loses(cap: nat, op: Op, st: Store)
  {
    (op.Delete? || op.Update?) && op.t < |st| && LostBy(cap, op, st[op.t]) != multiset{}
  }

  // The operation has its outcome on the rows exactly when none is lost.
  lemma LosesExactly(cap: nat, op: Op, st: Store, s: State, s': State)
    requires |s'| == |st| || !(op.Delete? || op.Update?)
    requires AbstractStep(cap, op, s, Regained(cap, op, st, s'))
    ensures AbstractStep(cap, op, s, s') <==> !Loses(cap, op, st)
  {
    hide LostBy, AbstractStep;
    if Loses(cap, op, st) {
      var lost := LostBy(cap, op, st[op.t]);
      assert |s'[op.t] + lost| > |s'[op.t]|;
      if AbstractStep(cap, op, s, s') {
        AbstractStepUnique(cap, op, s, s', Regained(cap, op, st, s'));
      }
    } else if (op.Delete? || op.Update?) && op.t < |st| {
      assert s'[op.t] + multiset{} == s'[op.t];
      assert s'[op.t := s'[op.t]] == s';
    }
  }

  // With the repairs no page is ever blind and no head wrong, so nothing is excluded and nothing lost.
  ghost predicate AllFine(st: Store)
  {
    forall i :: 0 <= i < |st| ==> st[i].ends == map[] && !st[i].stale
  }

  lemma RepairedStep(cap: nat, op: Op, st: Store)
    requires AllFine(st)
    ensures Covered(cap, op, st) && !Loses(cap, op, st) && AllFine(AfterOp(cap, op, st, true))
  {
    hide Scanned, AfterVacuum, FitAfter, Vacuumed, InsertInto;
    if (op.Delete? || op.Update?) && op.t < |st| {
      RepairedScan(cap, op, st[op.t]);
    }
  }

  lemma RepairedScan(cap: nat, op: Op, t: Table)
    requires (op.Delete? || op.Update?) && t.ends == map[] && !t.stale
    ensures ScanCovered(cap, op, t) && LostBy(cap, op, t) == multiset{}
    ensures var t' := AfterScan(cap, op, t, true);
            t'.ends == map[] && !t'.stale
  {
    var pages := Scanned(cap, op, t.pages);
    var none: map<nat, nat> := map[];
    assert none.Keys == {};
    hide Scanned;
    if pages != [] {
      NoneBlind(cap, pages);
      hide AfterVacuum, FitAfter, Vacuumed, SeenFrom, SeenPages;
      assert EndsAfter(cap, pages, none, true).Keys == {};
    }
  }

  lemma {:induction false} RepairedRun(cap: nat, ops: seq<Op>)
    ensures AllFine(AfterOps(cap, ops, true))
  {
    hide AfterOp, Covered, Loses;
    if ops != [] {
      RepairedRun(cap, ops[..|ops| - 1]);
      RepairedStep(cap, ops[|ops| - 1], AfterOps(cap, ops[..|ops| - 1], true));
    }
  }

  // ---- the store ----

  // Group g is this table.
  ghost predicate Holds(self: PageDataManager, g: PageId, t: Table, stale: set<PageId>, ill: set<PageId>)
    reads self, self.groups
  {
    && self.groups.IsGroup(g) && self.Pages(g) == t.pages && Settled(t.pages)
    && V.BlindsIn(self.data, self.groups.lists[g], ill, t.ends)
    && (g in stale ==> t.stale)
  }

  // The tables are distinct groups of the store and hold st.
  ghost predicate Stores(self: PageDataManager, tables: seq<PageId>, st: Store, stale: set<PageId>, ill: set<PageId>)
    reads self, self.groups
  {
    && self.Inv(stale, ill)
    && |tables| == |st|
    && (forall i :: 0 <= i < |tables| ==> Holds(self, tables[i], st[i], stale, ill))
    && Distinct(tables)
  }

  // The rows on the pages: a page that a vacuum left blind may hold deleted ones beside them.
  function Bags(st: Store): (s: State)
    ensures |s| == |st|
  {
    seq(|st|, i requires 0 <= i < |st| => AllLive(st[i].pages))
  }

  // They are what a scan meets.
  lemma BagScanned(pages: Pages)
    requires Settled(pages)
    ensures AllLive(pages) == multiset(ScanRows(pages))
  {
    SettledRows(pages);
  }

  // The table at position t.
  lemma HoldsAt(self: PageDataManager, tables: seq<PageId>, st: Store, t: nat, stale: set<PageId>, ill: set<PageId>)
    requires Stores(self, tables, st, stale, ill) && t < |tables|
    ensures self.Inv(stale, ill) && self.groups.IsGroup(tables[t]) && |tables| == |st|
    ensures Holds(self, tables[t], st[t], stale, ill) && |st[t].pages| > 0
    ensures |st[t].pages| == |self.groups.lists[tables[t]]|
  {
    hide PageDataManager.Inv, PageDataManager.Pages;
    assert Holds(self, tables[t], st[t], stale, ill);
    self.NotEmpty(tables[t], stale, ill);
  }

  // The other tables are other groups.
  lemma OthersBefore(self: PageDataManager, tables: seq<PageId>, st: Store, t: nat, stale: set<PageId>,
                     ill: set<PageId>)
    requires Stores(self, tables, st, stale, ill) && t < |tables|
    ensures |tables| == |st| && Distinct(tables)
    ensures forall i :: 0 <= i < |tables| && i != t ==>
              tables[i] != tables[t] && Holds(self, tables[i], st[i], stale, ill)
  {
  }

  // Only table t has changed.
  lemma OthersHold(self: PageDataManager, tables: seq<PageId>, st: Store, t: nat, table: Table, stale: set<PageId>,
                   ill: set<PageId>)
    requires self.Inv(stale, ill) && t < |tables| == |st| && Holds(self, tables[t], table, stale, ill)
    requires forall i :: 0 <= i < |tables| && i != t ==> Holds(self, tables[i], st[i], stale, ill)
    requires Distinct(tables)
    ensures Stores(self, tables, st[t := table], stale, ill)
  {
  }

  lemma SettledNew()
    ensures Settled([[]]) && AllLive([[]]) == multiset{}
  {
    assert LiveBagAll([[]], 1) == LiveBagAll([[]], 0) + LiveBag([], 0);
  }

  // The pages with wrong pointers that stay where they are.
  lemma BlindsStay(data0: map<PageId, PageData>, data: map<PageId, PageData>, chain: seq<PageId>, ill: set<PageId>,
                   ends: map<nat, nat>)
    requires V.BlindsIn(data0, chain, ill, ends) && IllKept(data0, data, ill)
    ensures V.BlindsIn(data, chain, ill, ends)
  {
    V.BlindsFrame(data0, data, chain, ill, ill, ends);
  }

  method CreateTable(self: PageDataManager, tables: seq<PageId>, ghost st: Store, ghost stale: set<PageId>,
                     ghost ill: set<PageId>)
    returns (tables': seq<PageId>)
    requires Stores(self, tables, st, stale, ill)
    modifies self`data, self.groups
    ensures Stores(self, tables', st + [Table([[]], map[], false)], stale, ill)
  {
    hide PageDataManager.Inv, PageDataManager.Pages, Settled, V.BlindsIn, IllKept;
    ghost var data0, lists0 := self.data, self.groups.lists;
    TablesAreGroups(self, tables, st, stale, ill);
    var g := self.CreateGroup(stale, ill);
    SettledNew();
    tables' := tables + [g];
    NewBlinds(self.data, g, ill);
    forall i | 0 <= i < |tables'|
      ensures Holds(self, tables'[i], (st + [Table([[]], map[], false)])[i], stale, ill)
    {
      if i < |tables| {
        assert old(Holds(self, tables[i], st[i], stale, ill));
        BlindsStay(data0, self.data, lists0[tables[i]], ill, st[i].ends);
      }
    }
  }

  lemma NewBlinds(data: map<PageId, PageData>, g: PageId, ill: set<PageId>)
    requires g !in ill
    ensures V.BlindsIn(data, [g], ill, map[])
  {
    assert V.BlindIn([g], ill) == {};
  }

  lemma TablesAreGroups(self: PageDataManager, tables: seq<PageId>, st: Store, stale: set<PageId>, ill: set<PageId>)
    requires Stores(self, tables, st, stale, ill)
    ensures self.Inv(stale, ill) && |tables| == |st|
    ensures forall i :: 0 <= i < |tables| ==> self.groups.IsGroup(tables[i]) && tables[i] in self.groups.lists
  {
    hide PageDataManager.Inv;
    forall i | 0 <= i < |tables|
      ensures self.groups.IsGroup(tables[i]) && tables[i] in self.groups.lists
    {
      assert Holds(self, tables[i], st[i], stale, ill);
    }
  }

  method DropTable(self: PageDataManager, tables: seq<PageId>, t: nat, ghost st: Store, ghost stale: set<PageId>,
                   ghost ill: set<PageId>)
    returns (tables': seq<PageId>, ghost stale': set<PageId>, ghost ill': set<PageId>)
    requires Stores(self, tables, st, stale, ill) && t < |tables|
    modifies self.groups
    ensures Stores(self, tables', st[..t] + st[t + 1..], stale', ill')
  {
    hide PageDataManager.Inv, PageDataManager.Pages, Settled, V.BlindsIn, PageDataManager.PageIds;
    ghost var lists0 := self.groups.lists;
    TablesAreGroups(self, tables, st, stale, ill);
    stale', ill' := stale - {tables[t]}, ill - self.PageIds(tables[t]);
    self.DeleteGroup(tables[t], stale, ill);
    tables' := tables[..t] + tables[t + 1..];
    forall i | 0 <= i < |tables'|
      ensures Holds(self, tables'[i], (st[..t] + st[t + 1..])[i], stale', ill')
    {
      var k := if i < t then i else i + 1;
      assert tables'[i] == tables[k] && tables[k] != tables[t];
      assert old(Holds(self, tables[k], st[k], stale, ill));
      V.BlindsFrame(self.data, self.data, lists0[tables[k]], ill, ill', st[k].ends);
    }
  }

  method InsertRow(self: PageDataManager, tables: seq<PageId>, t: nat, row: Row, ghost st: Store,
                   ghost stale: set<PageId>, ghost ill: set<PageId>)
    requires Stores(self, tables, st, stale, ill) && t < |tables| && Insertable(self.cap, row)
    requires |row| <= self.cap ==> InsertCovered(self.cap, st[t], row)
    modifies self`data, self.groups
    ensures |tables| == |st|
    ensures var st' := if |row| <= self.cap then st[t := AfterInsert(self.cap, st[t], row)] else st;
            Stores(self, tables, st', stale, ill)
    ensures AllLive(AfterInsert(self.cap, st[t], row).pages) == Plus(AllLive(st[t].pages), row)
  {
    hide PageDataManager.Inv, PageDataManager.Pages, Settled, V.BlindsIn, IllKept, Stores, Distinct, Roomy, Inserted,
      Accepts, Overwriting, InsertInto, AllLive, LiveOne, Takes, InsertCovered, InsertPositionBut;
    HoldsAt(self, tables, st, t, stale, ill);
    OthersBefore(self, tables, st, t, stale, ill);
    ghost var g, table, data0, lists0 := tables[t], st[t], self.data, self.groups.lists;
    ghost var at := InsertionPlace(self.cap, table, row);
    InsertLive(table.pages, at, row);
    if |row| <= self.cap {
      Ready(self, g, table, row, stale, ill);
      InsertSettles(table.pages, at, row);
    }
    var ok := self.Insert(tables[t], row, true, stale, ill);
    if ok {
      assert at < |lists0[g]| ==> self.groups.lists[g][at] == lists0[g][at];
      InsertLast(table.pages, at, NewEntry(row, false));
      assert self.Pages(g) == InsertInto(table.pages, at, NewEntry(row, false));
      InsertedBlinds(data0, self.data, lists0[g], self.groups.lists[g], ill, table.ends);
      forall i | 0 <= i < |tables| && i != t
        ensures Holds(self, tables[i], st[i], stale, ill)
      {
        assert old(Holds(self, tables[i], st[i], stale, ill));
        BlindsStay(data0, self.data, lists0[tables[i]], ill, st[i].ends);
      }
      OthersHold(self, tables, st, t, AfterInsert(self.cap, table, row), stale, ill);
    }
  }

  lemma InsertLive(pages: Pages, at: nat, row: Row)
    ensures AllLive(InsertInto(pages, at, NewEntry(row, false))) == Plus(AllLive(pages), row)
  {
    BagInsertInto(pages, at, NewEntry(row, false));
    hide AllLive;
  }

  lemma InsertLast(pages: Pages, at: nat, x: Entry)
    ensures at >= |pages| ==> InsertInto(pages, at, x) == pages + [[x]]
  {
  }

  lemma InsertSettles(pages: Pages, at: nat, row: Row)
    requires Settled(pages)
    ensures Settled(InsertInto(pages, at, NewEntry(row, false)))
  {
  }

  // Which page takes the row.
  lemma Ready(self: PageDataManager, g: PageId, table: Table, row: Row, stale: set<PageId>, ill: set<PageId>)
    requires self.Inv(stale, ill) && Holds(self, g, table, stale, ill) && table.pages != []
    requires InsertCovered(self.cap, table, row) && |row| + SLOT_SIZE <= self.cap
    requires |table.pages| == |self.groups.lists[g]|
    ensures self.Aimed(g, |row|, stale)
    ensures var at := InsertionPlace(self.cap, table, row);
            && self.Target(g, |row|) == (if at < |self.groups.lists[g]| then self.groups.lists[g][at] else NULL_ID)
            && (at < |self.groups.lists[g]| ==>
                  self.groups.lists[g][at] != NULL_ID && self.groups.lists[g][at] !in ill)
            && (g in stale ==> at == 0)
  {
    hide PageDataManager.Inv, PageDataManager.Pages, Settled, Roomy;
    self.TargetOf(g, |row|, table.ends.Keys, stale, ill);
    assert forall j :: j in table.ends.Keys <==> 0 <= j < |self.groups.lists[g]| && self.groups.lists[g][j] in ill;
  }

  // A new last page is not blind.
  lemma InsertedBlinds(data0: map<PageId, PageData>, data: map<PageId, PageData>, chain0: seq<PageId>,
                       chain: seq<PageId>, ill: set<PageId>, ends: map<nat, nat>)
    requires V.BlindsIn(data0, chain0, ill, ends) && IllKept(data0, data, ill) && chain0 <= chain
    requires forall j :: |chain0| <= j < |chain| ==> chain[j] !in ill
    ensures V.BlindsIn(data, chain, ill, ends)
  {
    assert V.BlindIn(chain, ill) == V.BlindIn(chain0, ill);
  }

  // What a scan with a vacuum behind leaves of a table.
  lemma ScannedHolds(self: PageDataManager, g: PageId, op: Op, table: Table, repaired: bool, stale: set<PageId>,
                     ill': set<PageId>)
    requires (op.Delete? || op.Update?) && Scanned(self.cap, op, table.pages) != []
    requires V.AfterState(self, g, Scanned(self.cap, op, table.pages), table.ends, repaired, stale, ill')
    requires Settled(AfterVacuum(self.cap, Scanned(self.cap, op, table.pages), table.ends.Keys))
    requires g in stale ==> table.stale
    ensures var stale' := HeadsFor(self, g, op, table, repaired, stale);
            self.Inv(stale', ill') && Holds(self, g, AfterScan(self.cap, op, table, repaired), stale', ill')
  {
    hide PageDataManager.Inv, PageDataManager.Pages, Scanned, AfterVacuum, EndsAfter, V.BlindsIn, Settled, Formed,
      FitAfter;
  }

  ghost function HeadsFor(self: PageDataManager, g: PageId, op: Op, table: Table, repaired: bool, stale: set<PageId>)
    : set<PageId>
    requires op.Delete? || op.Update?
    reads self, self.groups
  {
    V.HeadsAfter(stale, g, |self.Pages(g)| < |Scanned(self.cap, op, table.pages)|, repaired)
  }

  lemma DeleteSettles(cap: nat, pred: Row -> bool, table: Table)
    requires Settled(table.pages) && MapPages(Marked(pred), table.pages) != []
    ensures Settled(AfterVacuum(cap, MapPages(Marked(pred), table.pages), table.ends.Keys))
  {
    MarkSettles(pred, table.pages);
    hide AfterVacuum;
    VacuumSettles(cap, MapPages(Marked(pred), table.pages), table.ends.Keys);
  }

  method DeleteRows(self: PageDataManager, tables: seq<PageId>, t: nat, pred: Row -> bool, repaired: bool,
                    ghost st: Store, ghost stale: set<PageId>, ghost ill: set<PageId>)
    returns (ghost stale': set<PageId>, ghost ill': set<PageId>)
    requires Stores(self, tables, st, stale, ill) && t < |tables| == |st|
    requires ScanCovered(self.cap, Delete(t, pred), st[t])
    modifies self`data, self.groups
    ensures Stores(self, tables, st[t := AfterScan(self.cap, Delete(t, pred), st[t], repaired)], stale', ill')
    ensures AllLive(AfterScan(self.cap, Delete(t, pred), st[t], repaired).pages) +
              LostBy(self.cap, Delete(t, pred), st[t]) == multiset(Reject(pred, ScanRows(st[t].pages)))
  {
    hide PageDataManager.Inv, PageDataManager.Pages, Settled, V.BlindsIn, Stores, Distinct, MapPages, AllLive,
      V.AfterState, V.KeepsLayout, AfterVacuum, LiveRows, LostRows, Reject, KeptAll, Sweepable, EndsAfter, ScanRows;
    HoldsAt(self, tables, st, t, stale, ill);
    OthersBefore(self, tables, st, t, stale, ill);
    ghost var table, op, data0, lists0 := st[t], Delete(t, pred), self.data, self.groups.lists;
    ghost var pages := MapPages(Marked(pred), table.pages);
    MappedLength(Marked(pred), table.pages);
    DeleteSettles(self.cap, pred, table);
    ghost var at;
    ill', at := DeleteWhere(self, tables[t], pred, repaired, stale, ill, table.ends);
    stale' := HeadsFor(self, tables[t], op, table, repaired, stale);
    ScannedHolds(self, tables[t], op, table, repaired, stale, ill');
    forall i | 0 <= i < |tables| && i != t
      ensures Holds(self, tables[i], st[i], stale', ill')
    {
      assert old(Holds(self, tables[i], st[i], stale, ill));
    }
    OthersHold(self, tables, st, t, AfterScan(self.cap, op, table, repaired), stale', ill');
    V.AfterPages(self, tables[t], pages, table.ends, repaired, stale, ill');
    DeletedBag(self.cap, pred, table, self.Pages(tables[t]));
  }

  lemma DeletedBag(cap: nat, pred: Row -> bool, table: Table, after: Pages)
    requires Settled(table.pages) && MapPages(Marked(pred), table.pages) != []
    requires LiveRows(after) + LostRows(cap, MapPages(Marked(pred), table.pages), table.ends.Keys) ==
             KeptAll(pred, table.pages, |table.pages|)
    ensures AllLive(after) + multiset(LostRows(cap, MapPages(Marked(pred), table.pages), table.ends.Keys)) ==
            multiset(Reject(pred, ScanRows(table.pages)))
  {
    hide LiveRows, LostRows, MapPages, KeptAll, Reject, Settled, AllLive;
    MarkedRows(pred, table.pages);
    SettledRows(table.pages);
    LiveBagIs(after);
  }

  lemma AdmissibleUpdatable(cap: nat, pages: Pages, pred: Row -> bool, upd: Row -> Row, inPlace: bool, t: nat)
    requires Admissible(cap, Update(t, pred, upd, inPlace))
    ensures Updatable(cap, pages, pred, upd, inPlace)
    ensures inPlace ==> NoneGrows(pages, pred, upd)
  {
    if inPlace {
      NoneGrowsStays(pages, pred, upd);
    }
  }

  lemma UpdateSettles(cap: nat, pred: Row -> bool, upd: Row -> Row, inPlace: bool, table: Table)
    requires Settled(table.pages) && UpdatedPages(cap, pred, upd, inPlace, table.pages) != []
    requires inPlace ==> NoneGrows(table.pages, pred, upd)
    requires !inPlace ==> table.ends == map[]
    ensures Settled(AfterVacuum(cap, UpdatedPages(cap, pred, upd, inPlace, table.pages), table.ends.Keys))
  {
    hide AfterVacuum, NoneGrows, WalkedAll;
    UpdatedBy(cap, pred, upd, inPlace, table.pages);
    if inPlace {
      InPlaceRows(pred, upd, table.pages);
    }
    hide UpdatedPages;
    VacuumSettles(cap, UpdatedPages(cap, pred, upd, inPlace, table.pages), table.ends.Keys);
  }

  method UpdateRowsOf(self: PageDataManager, tables: seq<PageId>, t: nat, pred: Row -> bool, upd: Row -> Row,
                      inPlace: bool, repaired: bool, ghost st: Store, ghost stale: set<PageId>, ghost ill: set<PageId>)
    returns (ghost stale': set<PageId>, ghost ill': set<PageId>)
    requires Stores(self, tables, st, stale, ill) && t < |tables| == |st|
    requires Admissible(self.cap, Update(t, pred, upd, inPlace))
    requires ScanCovered(self.cap, Update(t, pred, upd, inPlace), st[t])
    modifies self`data, self.groups
    ensures Stores(self, tables, st[t := AfterScan(self.cap, Update(t, pred, upd, inPlace), st[t], repaired)], stale',
              ill')
    ensures AllLive(AfterScan(self.cap, Update(t, pred, upd, inPlace), st[t], repaired).pages) +
              LostBy(self.cap, Update(t, pred, upd, inPlace), st[t]) ==
            AfterUpdate(self.cap, ScanRows(st[t].pages), pred, upd, inPlace)
  {
    hide PageDataManager.Inv, PageDataManager.Pages, Settled, V.BlindsIn, Stores, Distinct, UpdatedPages, AllLive,
      V.AfterState, V.KeepsLayout, AfterVacuum, LiveRows, LostRows, Sweepable, EndsAfter, ScanRows, UpdateRows,
      ReinsertedRows, Updatable, NoneGrows, AfterUpdate, Payloads;
    HoldsAt(self, tables, st, t, stale, ill);
    OthersBefore(self, tables, st, t, stale, ill);
    ghost var table, op, data0, lists0 := st[t], Update(t, pred, upd, inPlace), self.data, self.groups.lists;
    ghost var pages := UpdatedPages(self.cap, pred, upd, inPlace, table.pages);
    AdmissibleUpdatable(self.cap, table.pages, pred, upd, inPlace, t);
    ghost var at, after;
    ill', at, after := UpdateWhere(self, tables[t], pred, upd, inPlace, repaired, stale, ill, table.ends);
    UpdateSettles(self.cap, pred, upd, inPlace, table);
    stale' := HeadsFor(self, tables[t], op, table, repaired, stale);
    ScannedHolds(self, tables[t], op, table, repaired, stale, ill');
    forall i | 0 <= i < |tables| && i != t
      ensures Holds(self, tables[i], st[i], stale', ill')
    {
      assert old(Holds(self, tables[i], st[i], stale, ill));
    }
    OthersHold(self, tables, st, t, AfterScan(self.cap, op, table, repaired), stale', ill');
    V.AfterPages(self, tables[t], pages, table.ends, repaired, stale, ill');
    UpdatedBag(self.cap, pred, upd, inPlace, table, self.Pages(tables[t]));
  }

  lemma UpdatedBag(cap: nat, pred: Row -> bool, upd: Row -> Row, inPlace: bool, table: Table, after: Pages)
    requires Settled(table.pages) && UpdatedPages(cap, pred, upd, inPlace, table.pages) != []
    requires !inPlace ==> table.ends == map[] && multiset(LiveRows(after)) ==
                          ReinsertedRows(cap, pred, upd, LiveRows(table.pages))
    requires inPlace ==>
               LiveRows(after) + LostRows(cap, UpdatedPages(cap, pred, upd, inPlace, table.pages), table.ends.Keys) ==
               UpdateRows(pred, InPlace(upd), LiveRows(table.pages))
    ensures var pages := UpdatedPages(cap, pred, upd, inPlace, table.pages);
            AllLive(after) + multiset(LostRows(cap, pages, table.ends.Keys)) ==
            AfterUpdate(cap, ScanRows(table.pages), pred, upd, inPlace)
  {
    hide LiveRows, LostRows, UpdatedPages, UpdateRows, ReinsertedRows, Settled, AllLive;
    SettledRows(table.pages);
    LiveBagIs(after);
    if !inPlace {
      NoneLost(cap, UpdatedPages(cap, pred, upd, inPlace, table.pages), table.ends.Keys, []);
    }
  }

  // ---- what the pages after an operation mean for the rows ----

  lemma BagsSet(st: Store, t: nat, table: Table)
    requires t < |st|
    ensures Bags(st[t := table]) == Bags(st)[t := AllLive(table.pages)]
  {
  }

  // The outcome on the rows, with those lost back.
  ghost predicate Outcome(cap: nat, op: Op, st: Store, st': Store)
  {
    AbstractStep(cap, op, Bags(st), Regained(cap, op, st, Bags(st')))
  }

  lemma CreateBags(cap: nat, st: Store, repaired: bool)
    ensures Outcome(cap, Create, st, AfterOp(cap, Create, st, repaired))
  {
    SettledNew();
  }

  lemma DropBags(cap: nat, t: nat, st: Store, repaired: bool)
    ensures Outcome(cap, Drop(t), st, AfterOp(cap, Drop(t), st, repaired))
  {
  }

  lemma InsertBags(cap: nat, t: nat, row: Row, st: Store, repaired: bool)
    requires t < |st| ==> AllLive(AfterInsert(cap, st[t], row).pages) == Plus(AllLive(st[t].pages), row)
    ensures Outcome(cap, Insert(t, row), st, AfterOp(cap, Insert(t, row), st, repaired))
  {
    hide AfterInsert, AllLive;
    if t < |st| {
      BagsSet(st, t, AfterInsert(cap, st[t], row));
    }
  }

  lemma DeleteBags(cap: nat, t: nat, pred: Row -> bool, st: Store, repaired: bool)
    requires t < |st| ==>
               && Settled(st[t].pages)
               && AllLive(AfterScan(cap, Delete(t, pred), st[t], repaired).pages) + LostBy(cap, Delete(t, pred), st[t])
                  == multiset(Reject(pred, ScanRows(st[t].pages)))
    ensures Outcome(cap, Delete(t, pred), st, AfterOp(cap, Delete(t, pred), st, repaired))
  {
    hide AfterScan, AllLive, Reject, ScanRows, LostBy, Settled;
    if t < |st| {
      var op := Delete(t, pred);
      BagsSet(st, t, AfterScan(cap, op, st[t], repaired));
      BagScanned(st[t].pages);
      RejectCount(pred, ScanRows(st[t].pages));
    }
  }

  lemma UpdateBags(cap: nat, op: Op, st: Store, repaired: bool)
    requires op.Update?
    requires op.t < |st| ==>
               && Settled(st[op.t].pages)
               && AllLive(AfterScan(cap, op, st[op.t], repaired).pages) + LostBy(cap, op, st[op.t]) ==
                  AfterUpdate(cap, ScanRows(st[op.t].pages), op.pred, op.upd, op.inPlace)
    ensures Outcome(cap, op, st, AfterOp(cap, op, st, repaired))
  {
    hide AfterScan, AllLive, AfterUpdate, ScanRows, LostBy, Settled;
    if op.t < |st| {
      BagsSet(st, op.t, AfterScan(cap, op, st[op.t], repaired));
      BagScanned(st[op.t].pages);
      assert Replaced(cap, ScanRows(st[op.t].pages), op.pred, op.upd, op.inPlace, Bags(st),
          Regained(cap, op, st, Bags(AfterOp(cap, op, st, repaired))), op.t);
    }
  }

  // ---- runs ----

  // One operation; an operation on a table that does not exist does nothing.
  method Step(self: PageDataManager, tables: seq<PageId>, op: Op, repaired: bool, ghost st: Store,
              ghost stale: set<PageId>, ghost ill: set<PageId>)
    returns (tables': seq<PageId>, ghost stale': set<PageId>, ghost ill': set<PageId>)
    requires Stores(self, tables, st, stale, ill) && Admissible(self.cap, op) && Covered(self.cap, op, st)
    modifies self`data, self.groups
    ensures Stores(self, tables', AfterOp(self.cap, op, st, repaired), stale', ill')
    ensures Outcome(self.cap, op, st, AfterOp(self.cap, op, st, repaired))
  {
    hide Stores, AllLive, Reject, AfterInsert, AfterScan, AfterUpdate, Admissible, Outcome, InsertCovered,
      ScanCovered, LostBy, ScanRows, Settled;
    TablesAreSettled(self, tables, st, stale, ill);
    tables', stale', ill' := tables, stale, ill;
    match op {
      case Create =>
        tables' := CreateTable(self, tables, st, stale, ill);
        CreateBags(self.cap, st, repaired);
      case Drop(t) =>
        if t < |tables| {
          tables', stale', ill' := DropTable(self, tables, t, st, stale, ill);
        }
        DropBags(self.cap, t, st, repaired);
      case Insert(t, row) =>
        RowInsertable(self.cap, op);
        if t < |tables| {
          InsertRow(self, tables, t, row, st, stale, ill);
        }
        InsertBags(self.cap, t, row, st, repaired);
      case Delete(t, pred) =>
        if t < |tables| {
          stale', ill' := DeleteRows(self, tables, t, pred, repaired, st, stale, ill);
        }
        DeleteBags(self.cap, t, pred, st, repaired);
      case Update(t, pred, upd, inPlace) =>
        if t < |tables| {
          stale', ill' := UpdateRowsOf(self, tables, t, pred, upd, inPlace, repaired, st, stale, ill);
        }
        UpdateBags(self.cap, op, st, repaired);
    }
  }

  lemma RowInsertable(cap: nat, op: Op)
    requires Admissible(cap, op) && op.Insert?
    ensures Insertable(cap, op.row)
  {
  }

  lemma TablesAreSettled(self: PageDataManager, tables: seq<PageId>, st: Store, stale: set<PageId>, ill: set<PageId>)
    requires Stores(self, tables, st, stale, ill)
    ensures |tables| == |st| && forall i :: 0 <= i < |st| ==> Settled(st[i].pages)
  {
    hide Settled, PageDataManager.Inv, PageDataManager.Pages;
    forall i | 0 <= i < |st|
      ensures Settled(st[i].pages)
    {
      assert Holds(self, tables[i], st[i], stale, ill);
    }
  }

  // Each state follows from the one before by its operation, with the rows lost back.
  ghost predicate Trace(cap: nat, ops: seq<Op>, repaired: bool)
  {
    forall k :: 0 <= k < |ops| ==>
      Outcome(cap, ops[k], AfterOps(cap, ops[..k], repaired), AfterOps(cap, ops[..k + 1], repaired))
  }

  // Over every run, as the code has it or with the repairs, the pages of each table are a function of the
  // operations, and each table is the multiset of rows that they make it, but for the rows that vacuums lose.
  method Run(cap: nat, ops: seq<Op>, repaired: bool)
    returns (self: PageDataManager, tables: seq<PageId>, ghost stale: set<PageId>, ghost ill: set<PageId>)
    requires SLOT_SIZE <= cap < U16_LIMIT
    requires forall k :: 0 <= k < |ops| ==> Admissible(cap, ops[k])
    requires repaired || AllCovered(cap, ops)
    ensures Stores(self, tables, AfterOps(cap, ops, repaired), stale, ill)
    ensures Trace(cap, ops, repaired)
  {
    hide PageDataManager.Inv, Admissible, AfterOp, Outcome, Covered, AllFine;
    self := new PageDataManager(cap);
    tables, stale, ill := [], {}, {};
    assert ops[..0] == [];
    for n := 0 to |ops|
      invariant self.cap == cap && fresh(self) && fresh(self.groups)
      invariant forall k :: 0 <= k < n ==>
                  Outcome(cap, ops[k], AfterOps(cap, ops[..k], repaired), AfterOps(cap, ops[..k + 1], repaired))
      invariant Stores(self, tables, AfterOps(cap, ops[..n], repaired), stale, ill)
    {
      assert ops[..n + 1][..n] == ops[..n];
      if repaired {
        RepairedRun(cap, ops[..n]);
        RepairedStep(cap, ops[n], AfterOps(cap, ops[..n], true));
      }
      tables, stale, ill := Step(self, tables, ops[n], repaired, AfterOps(cap, ops[..n], repaired), stale, ill);
    }
    assert ops[..|ops|] == ops;
  }

  // With the repairs the outcome of every operation is that on the multisets of rows; without them it is
  // exactly when no row is lost.
  lemma RunLoses(cap: nat, ops: seq<Op>, repaired: bool, k: nat)
    requires Trace(cap, ops, repaired) && k < |ops|
    ensures var st, st' := AfterOps(cap, ops[..k], repaired), AfterOps(cap, ops[..k + 1], repaired);
            && (AbstractStep(cap, ops[k], Bags(st), Bags(st')) <==> !Loses(cap, ops[k], st))
            && (repaired ==> AbstractStep(cap, ops[k], Bags(st), Bags(st')))
  {
    hide AbstractStep, Loses, AllFine, Regained, Covered;
    var st := AfterOps(cap, ops[..k], repaired);
    assert ops[..k + 1][..k] == ops[..k];
    assert AfterOps(cap, ops[..k + 1], repaired) == AfterOp(cap, ops[k], st, repaired);
    assert Outcome(cap, ops[k], st, AfterOps(cap, ops[..k + 1], repaired));
    LosesExactly(cap, ops[k], st, Bags(st), Bags(AfterOp(cap, ops[k], st, repaired)));
    if repaired {
      RepairedRun(cap, ops[..k]);
      RepairedStep(cap, ops[k], st);
    }
  }
}
