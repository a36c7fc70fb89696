/** The query cursor: it looks one record ahead and swaps two record holders. */
module RecordViews {
  import opened Bytes
  import opened Wrappers
  import opened PageLists
  import opened PageStorage
  import opened ItemScan
  import opened ScanEffects
  import opened Tables

  // A row is the bytes of one record; a joined record is the main row and one row of each joined table.
  type Row = seq<byte>
  type Condition = seq<Row> -> bool

  // A join predicate sees the columns filled so far: the rows up to and including its own table's.
  function OnRow(on: Condition, parts: seq<Row>): Row -> bool
  {
    row => on(parts + [row])
  }

  // ---- what a query means ----

  // The first row of each joined table that matches what was filled before it.
  function Extend(parts: seq<Row>, ons: seq<Condition>, sources: seq<seq<Row>>): Option<seq<Row>>
    requires |ons| == |sources|
    decreases |ons|
  {
    if ons == [] then Some(parts)
    else
      var k := FirstMatch(OnRow(ons[0], parts), sources[0]);
      if k < |sources[0]| then Extend(parts + [sources[0][k]], ons[1..], sources[1..]) else None
  }

  lemma ExtendStep(parts: seq<Row>, ons: seq<Condition>, sources: seq<seq<Row>>, i: nat)
    requires |ons| == |sources| && i < |ons|
    ensures var k := FirstMatch(OnRow(ons[i], parts), sources[i]);
            Extend(parts, ons[i..], sources[i..]) ==
            if k < |sources[i]| then Extend(parts + [sources[i][k]], ons[i + 1..], sources[i + 1..]) else None
  {
    hide FirstMatch;
    assert ons[i..][1..] == ons[i + 1..] && sources[i..][1..] == sources[i + 1..];
  }

  lemma ExtendEnd(parts: seq<Row>, ons: seq<Condition>, sources: seq<seq<Row>>)
    requires ons == [] && sources == []
    ensures Extend(parts, ons, sources) == Some(parts)
  {
  }

  // Every main row has a match in every joined table.
  predicate AllJoin(rows: seq<Row>, ons: seq<Condition>, sources: seq<seq<Row>>)
    requires |ons| == |sources|
  {
    forall k :: 0 <= k < |rows| ==> Extend([rows[k]], ons, sources) != None
  }

  // The main rows before the first without a match, each extended, that satisfy WHERE.
  function Selected(rows: seq<Row>, where: Condition, ons: seq<Condition>, sources: seq<seq<Row>>): seq<seq<Row>>
    requires |ons| == |sources|
  {
    if rows == [] then []
    else
      match Extend([rows[0]], ons, sources)
      case None => []
      case Some(parts) => (if where(parts) then [parts] else []) + Selected(rows[1..], where, ons, sources)
  }

  // ---- looking ahead ----

  datatype Ahead = Found(parts: seq<Row>, rest: seq<Row>) | Ended | Stuck

  // What the loop of record_view_next comes to.
  function LookAhead(rows: seq<Row>, where: Condition, ons: seq<Condition>, sources: seq<seq<Row>>): (a: Ahead)
    requires |ons| == |sources|
    ensures a.Found? ==> |a.rest| < |rows|
  {
    if rows == [] then Ended
    else
      match Extend([rows[0]], ons, sources)
      case None => Stuck
      case Some(parts) => if where(parts) then Found(parts, rows[1..]) else LookAhead(rows[1..], where, ons, sources)
  }

  // One look ahead takes the first selected record and leaves the others.
  lemma {:induction false} LookAheadSelects(rows: seq<Row>, where: Condition, ons: seq<Condition>,
                                            sources: seq<seq<Row>>)
    requires |ons| == |sources|
    ensures match LookAhead(rows, where, ons, sources)
            case Found(parts, rest) =>
              && Selected(rows, where, ons, sources) == [parts] + Selected(rest, where, ons, sources)
              && (AllJoin(rows, ons, sources) <==> AllJoin(rest, ons, sources))
            case Ended => Selected(rows, where, ons, sources) == [] && AllJoin(rows, ons, sources)
            case Stuck => Selected(rows, where, ons, sources) == [] && !AllJoin(rows, ons, sources)
  {
    if rows != [] {
      AllJoinRest(rows, ons, sources);
      hide Extend, AllJoin;
      LookAheadSelects(rows[1..], where, ons, sources);
    }
  }

  lemma AllJoinRest(rows: seq<Row>, ons: seq<Condition>, sources: seq<seq<Row>>)
    requires |ons| == |sources| && rows != []
    ensures AllJoin(rows, ons, sources) <==> Extend([rows[0]], ons, sources) != None && AllJoin(rows[1..], ons, sources)
  {
    hide Extend;
    if AllJoin(rows[1..], ons, sources) {
      forall k | 1 <= k < |rows|
        ensures Extend([rows[k]], ons, sources) != None
      {
        assert rows[1..][k - 1] == rows[k];
      }
    }
  }

  // Row k of the table is the first that matches what was filled before it.
  ghost predicate FirstOf(on: Condition, parts: seq<Row>, source: seq<Row>, k: nat)
  {
    k < |source| && on(parts + [source[k]]) && forall l :: 0 <= l < k ==> !on(parts + [source[l]])
  }

  lemma FirstMatchOf(on: Condition, parts: seq<Row>, source: seq<Row>)
    ensures var k := FirstMatch(OnRow(on, parts), source);
            if k < |source| then FirstOf(on, parts, source, k) else forall l :: 0 <= l < |source| ==>
              !on(parts + [source[l]])
  {
    var f := OnRow(on, parts);
    var k := FirstMatch(f, source);
    forall l | 0 <= l < |source|
      ensures f(source[l]) == on(parts + [source[l]])
    {
    }
  }

  // Every joined row is the first match, on the columns filled before it.
  lemma {:induction false} ExtendTakesFirst(parts: seq<Row>, ons: seq<Condition>, sources: seq<seq<Row>>,
                                            i: nat) returns (k: nat)
    requires |ons| == |sources| && i < |ons| && Extend(parts, ons, sources).Some?
    ensures var r := Extend(parts, ons, sources).value;
            && |r| == |parts| + |ons| && r[..|parts|] == parts
            && FirstOf(ons[i], r[..|parts| + i], sources[i], k) && r[|parts| + i] == sources[i][k]
    decreases |ons|
  {
    var k0 := FirstMatch(OnRow(ons[0], parts), sources[0]);
    FirstMatchOf(ons[0], parts, sources[0]);
    var next := parts + [sources[0][k0]];
    ExtendLength(next, ons[1..], sources[1..]);
    var r := Extend(parts, ons, sources).value;
    assert r[..|parts|] == next[..|parts|] == parts;
    if i == 0 {
      k := k0;
      assert r[|parts|] == next[|parts|];
    } else {
      k := ExtendTakesFirst(next, ons[1..], sources[1..], i - 1);
    }
  }

  lemma {:induction false} ExtendLength(parts: seq<Row>, ons: seq<Condition>, sources: seq<seq<Row>>)
    requires |ons| == |sources| && Extend(parts, ons, sources).Some?
    ensures var r := Extend(parts, ons, sources).value;
            |r| == |parts| + |ons| && r[..|parts|] == parts
    decreases |ons|
  {
    if ons != [] {
      var next := parts + [sources[0][FirstMatch(OnRow(ons[0], parts), sources[0])]];
      ExtendLength(next, ons[1..], sources[1..]);
      var r := Extend(parts, ons, sources).value;
      assert r[..|parts|] == r[..|next|][..|parts|];
    }
  }

  // r joins the main row with the first match of each joined table.
  ghost predicate Joined(row: Row, ons: seq<Condition>, sources: seq<seq<Row>>, r: seq<Row>)
    requires |ons| == |sources|
  {
    && |r| == 1 + |ons| && r[0] == row
    && forall i :: 0 <= i < |ons| ==> JoinedAt(ons, sources, r, i)
  }

  ghost predicate JoinedAt(ons: seq<Condition>, sources: seq<seq<Row>>, r: seq<Row>, i: nat)
    requires |ons| == |sources| && i < |ons| && i + 1 < |r|
  {
    exists k: nat :: FirstOf(ons[i], r[..1 + i], sources[i], k) && r[1 + i] == sources[i][k]
  }

  ghost predicate HasRecord(row: Row, ons: seq<Condition>, sources: seq<seq<Row>>)
    requires |ons| == |sources|
  {
    exists r :: Joined(row, ons, sources, r)
  }

  // Some joined table has no row that matches what was filled before it.
  ghost predicate Unjoined(row: Row, ons: seq<Condition>, sources: seq<seq<Row>>, r: seq<Row>)
    requires |ons| == |sources|
  {
    var i := |r| - 1;
    && 0 <= i < |ons| && Joined(row, ons[..i], sources[..i], r)
    && forall l :: 0 <= l < |sources[i]| ==> !ons[i](r + [sources[i][l]])
  }

  // The tables from i on, behind what was filled from those before.
  lemma {:induction false} ExtendFrom(row: Row, ons: seq<Condition>, sources: seq<seq<Row>>, parts: seq<Row>)
    returns (r: seq<Row>)
    requires |ons| == |sources| && 1 <= |parts| <= 1 + |ons|
    requires Joined(row, ons[..|parts| - 1], sources[..|parts| - 1], parts)
    ensures var x := Extend(parts, ons[|parts| - 1..], sources[|parts| - 1..]);
            if x.Some? then x.value == r && Joined(row, ons, sources, r) else Unjoined(row, ons, sources, r)
    decreases |ons| - |parts|
  {
    var i := |parts| - 1;
    if i == |ons| {
      r := parts;
      assert ons[..i] == ons && sources[..i] == sources;
    } else {
      ExtendStep(parts, ons, sources, i);
      FirstMatchOf(ons[i], parts, sources[i]);
      var k := FirstMatch(OnRow(ons[i], parts), sources[i]);
      hide Extend, FirstMatch;
      if k < |sources[i]| {
        JoinedMore(row, ons, sources, parts, k);
        r := ExtendFrom(row, ons, sources, parts + [sources[i][k]]);
      } else {
        r := parts;
      }
    }
  }

  lemma JoinedMore(row: Row, ons: seq<Condition>, sources: seq<seq<Row>>, parts: seq<Row>, k: nat)
    requires |ons| == |sources| && 1 <= |parts| <= |ons|
    requires Joined(row, ons[..|parts| - 1], sources[..|parts| - 1], parts)
    requires k < |sources[|parts| - 1]| && FirstOf(ons[|parts| - 1], parts, sources[|parts| - 1], k)
    ensures Joined(row, ons[..|parts|], sources[..|parts|], parts + [sources[|parts| - 1][k]])
  {
    hide FirstOf;
    var n, r := |parts| - 1, parts + [sources[|parts| - 1][k]];
    forall i | 0 <= i < |parts|
      ensures JoinedAt(ons[..|parts|], sources[..|parts|], r, i)
    {
      if i < n {
        assert JoinedAt(ons[..n], sources[..n], parts, i);
        assert r[..1 + i] == parts[..1 + i];
      } else {
        assert r[..1 + i] == parts;
      }
    }
  }

  // Each main row has at most one such record.
  lemma {:induction false} JoinedOnce(row: Row, ons: seq<Condition>, sources: seq<seq<Row>>, a: seq<Row>, b: seq<Row>,
                                      n: nat)
    requires |ons| == |sources| && Joined(row, ons, sources, a) && Joined(row, ons, sources, b) && n <= |ons|
    ensures a[..1 + n] == b[..1 + n]
  {
    if n > 0 {
      JoinedOnce(row, ons, sources, a, b, n - 1);
      assert JoinedAt(ons, sources, a, n - 1) && JoinedAt(ons, sources, b, n - 1);
      var k: nat :| FirstOf(ons[n - 1], a[..n], sources[n - 1], k) && a[n] == sources[n - 1][k];
      var l: nat :| FirstOf(ons[n - 1], b[..n], sources[n - 1], l) && b[n] == sources[n - 1][l];
      assert k == l;
      assert a[..1 + n] == a[..n] + [a[n]] && b[..1 + n] == b[..n] + [b[n]];
    }
  }

  lemma RecordIs(row: Row, ons: seq<Condition>, sources: seq<seq<Row>>, a: seq<Row>, b: seq<Row>)
    requires |ons| == |sources| && Joined(row, ons, sources, a) && Joined(row, ons, sources, b)
    ensures a == b
  {
    JoinedOnce(row, ons, sources, a, b, |ons|);
    assert a[..1 + |ons|] == a && b[..1 + |ons|] == b;
  }

  // A row that finds no match somewhere has no record.
  lemma {:induction false} UnjoinedNone(row: Row, ons: seq<Condition>, sources: seq<seq<Row>>, a: seq<Row>, b: seq<Row>)
    requires |ons| == |sources| && Unjoined(row, ons, sources, a)
    ensures !Joined(row, ons, sources, b)
  {
    if Joined(row, ons, sources, b) {
      var i := |a| - 1;
      JoinedFront(row, ons, sources, b, i);
      JoinedOnce(row, ons[..i], sources[..i], a, b[..1 + i], i);
      assert a[..1 + i] == a && b[..1 + i][..1 + i] == b[..1 + i];
      NoneAt(ons, sources, b, i);
    }
  }

  lemma NoneAt(ons: seq<Condition>, sources: seq<seq<Row>>, r: seq<Row>, i: nat)
    requires |ons| == |sources| && i < |ons| && 1 + i < |r|
    requires forall l :: 0 <= l < |sources[i]| ==> !ons[i](r[..1 + i] + [sources[i][l]])
    ensures !JoinedAt(ons, sources, r, i)
  {
  }

  lemma JoinedFront(row: Row, ons: seq<Condition>, sources: seq<seq<Row>>, r: seq<Row>, n: nat)
    requires |ons| == |sources| && Joined(row, ons, sources, r) && n <= |ons|
    ensures Joined(row, ons[..n], sources[..n], r[..1 + n])
  {
    var ons', sources', r' := ons[..n], sources[..n], r[..1 + n];
    forall i | 0 <= i < n
      ensures JoinedAt(ons', sources', r', i)
    {
      assert JoinedAt(ons, sources, r, i);
      assert r'[..1 + i] == r[..1 + i];
    }
  }

  // A main row is extended exactly to its record, and not at all exactly when some joined table has no match.
  lemma ExtendIs(row: Row, ons: seq<Condition>, sources: seq<seq<Row>>)
    requires |ons| == |sources|
    ensures forall r :: Extend([row], ons, sources) == Some(r) <==> Joined(row, ons, sources, r)
    ensures Extend([row], ons, sources) == None <==> exists r :: Unjoined(row, ons, sources, r)
  {
    assert ons[0..] == ons && sources[0..] == sources;
    var x := ExtendFrom(row, ons, sources, [row]);
    hide Extend;
    forall r | Joined(row, ons, sources, r)
      ensures Extend([row], ons, sources) == Some(r)
    {
      if Extend([row], ons, sources).Some? {
        RecordIs(row, ons, sources, x, r);
      } else {
        UnjoinedNone(row, ons, sources, x, r);
      }
    }
    forall r | Unjoined(row, ons, sources, r)
      ensures Extend([row], ons, sources) == None
    {
      if Extend([row], ons, sources).Some? {
        UnjoinedNone(row, ons, sources, r, x);
      }
    }
  }

  // ---- what is selected, said without the recursion ----

  // at are the positions before stop whose record satisfies WHERE, in order, and all rows before stop have a record.
  ghost predicate Chosen(rows: seq<Row>, where: Condition, ons: seq<Condition>, sources: seq<seq<Row>>,
                         records: seq<seq<Row>>, at: seq<nat>, stop: nat)
    requires |ons| == |sources|
  {
    && stop <= |rows| && |at| == |records|
    && (forall k :: 0 <= k < stop ==> Extend([rows[k]], ons, sources).Some?)
    && (forall i, j :: 0 <= i < j < |at| ==> at[i] < at[j])
    && (forall i :: 0 <= i < |at| ==>
          at[i] < stop && Extend([rows[at[i]]], ons, sources) == Some(records[i]) && where(records[i]))
    && (forall k :: 0 <= k < stop && where(Extend([rows[k]], ons, sources).value) ==> k in at)
  }

  lemma SelectedAt(rows: seq<Row>, where: Condition, ons: seq<Condition>, sources: seq<seq<Row>>)
    returns (at: seq<nat>, stop: nat)
    requires |ons| == |sources|
    ensures Chosen(rows, where, ons, sources, Selected(rows, where, ons, sources), at, stop)
    ensures stop < |rows| ==> Extend([rows[stop]], ons, sources) == None
  {
    hide Extend, Selected, Chosen;
    at, stop := [], 0;
    var records: seq<seq<Row>> := [];
    NoneChosen(rows, where, ons, sources);
    assert rows[0..] == rows;
    while stop < |rows| && Extend([rows[stop]], ons, sources).Some?
      invariant stop <= |rows| && Chosen(rows, where, ons, sources, records, at, stop)
      invariant Selected(rows, where, ons, sources) == records + Selected(rows[stop..], where, ons, sources)
    {
      var r := Extend([rows[stop]], ons, sources).value;
      SelectedFirst(rows, where, ons, sources, stop);
      ChosenMore(rows, where, ons, sources, records, at, stop);
      if where(r) {
        at, records := at + [stop], records + [r];
      }
      stop := stop + 1;
    }
    SelectedNone(rows, where, ons, sources, stop);
    assert records + [] == records;
  }

  lemma NoneChosen(rows: seq<Row>, where: Condition, ons: seq<Condition>, sources: seq<seq<Row>>)
    requires |ons| == |sources|
    ensures Chosen(rows, where, ons, sources, [], [], 0)
  {
  }

  lemma ChosenMore(rows: seq<Row>, where: Condition, ons: seq<Condition>, sources: seq<seq<Row>>,
                   records: seq<seq<Row>>, at: seq<nat>, stop: nat)
    requires |ons| == |sources| && Chosen(rows, where, ons, sources, records, at, stop)
    requires stop < |rows| && Extend([rows[stop]], ons, sources).Some?
    ensures var r := Extend([rows[stop]], ons, sources).value;
            if where(r) then Chosen(rows, where, ons, sources, records + [r], at + [stop], stop + 1)
            else Chosen(rows, where, ons, sources, records, at, stop + 1)
  {
    hide Extend;
    PlacesMore(at, stop);
  }

  lemma SelectedFirst(rows: seq<Row>, where: Condition, ons: seq<Condition>, sources: seq<seq<Row>>, n: nat)
    requires |ons| == |sources| && n < |rows| && Extend([rows[n]], ons, sources).Some?
    ensures var r := Extend([rows[n]], ons, sources).value;
            Selected(rows[n..], where, ons, sources) ==
            (if where(r) then [r] else []) + Selected(rows[n + 1..], where, ons, sources)
  {
    hide Extend;
    assert rows[n..][0] == rows[n] && rows[n..][1..] == rows[n + 1..];
  }

  lemma SelectedNone(rows: seq<Row>, where: Condition, ons: seq<Condition>, sources: seq<seq<Row>>, n: nat)
    requires |ons| == |sources| && n <= |rows| && (n < |rows| ==> Extend([rows[n]], ons, sources) == None)
    ensures Selected(rows[n..], where, ons, sources) == []
  {
    hide Extend;
    assert n < |rows| ==> rows[n..][0] == rows[n];
  }

  // Records come from the main rows before `stop`, the first that has no record: those whose record satisfies WHERE.
  lemma SelectedIs(rows: seq<Row>, where: Condition, ons: seq<Condition>, sources: seq<seq<Row>>)
    returns (at: seq<nat>, stop: nat)
    requires |ons| == |sources|
    ensures stop <= |rows| && (AllJoin(rows, ons, sources) <==> stop == |rows|)
    ensures stop < |rows| ==> exists r :: Unjoined(rows[stop], ons, sources, r)
    ensures forall k :: 0 <= k < stop ==> HasRecord(rows[k], ons, sources)
    ensures |at| == |Selected(rows, where, ons, sources)| && forall i, j :: 0 <= i < j < |at| ==> at[i] < at[j]
    ensures forall i :: 0 <= i < |at| ==>
              var r := Selected(rows, where, ons, sources)[i];
              at[i] < stop && Joined(rows[at[i]], ons, sources, r) && where(r)
    ensures forall k, r :: 0 <= k < stop && Joined(rows[k], ons, sources, r) && where(r) ==> k in at
  {
    at, stop := SelectedAt(rows, where, ons, sources);
    hide Extend, Selected, Joined, Unjoined;
    forall k | 0 <= k < |rows|
      ensures forall r :: Extend([rows[k]], ons, sources) == Some(r) <==> Joined(rows[k], ons, sources, r)
      ensures Extend([rows[k]], ons, sources) == None <==> exists r :: Unjoined(rows[k], ons, sources, r)
    {
      ExtendIs(rows[k], ons, sources);
    }
    forall k | 0 <= k < stop
      ensures HasRecord(rows[k], ons, sources)
    {
      var x := Extend([rows[k]], ons, sources);
      assert x == Some(x.value);
      assert Joined(rows[k], ons, sources, x.value);
    }
  }

  // One look ahead passes over the rows whose record fails WHERE, and stops at a record that satisfies it, at the end,
  // or at a row without a record.
  lemma LookAheadIs(rows: seq<Row>, where: Condition, ons: seq<Condition>, sources: seq<seq<Row>>) returns (k: nat)
    requires |ons| == |sources|
    ensures k <= |rows| && forall i :: 0 <= i < k ==> HasRecord(rows[i], ons, sources)
    ensures forall i, r :: 0 <= i < k && Joined(rows[i], ons, sources, r) ==> !where(r)
    ensures match LookAhead(rows, where, ons, sources)
            case Found(parts, rest) =>
              k < |rows| && rest == rows[k + 1..] && Joined(rows[k], ons, sources, parts) && where(parts)
            case Ended => k == |rows|
            case Stuck => k < |rows| && exists r :: Unjoined(rows[k], ons, sources, r)
  {
    hide Extend, LookAhead, Joined, Unjoined;
    k := 0;
    assert rows[0..] == rows;
    while k < |rows| && Extend([rows[k]], ons, sources).Some? &&
          !where(Extend([rows[k]], ons, sources).value)
      invariant k <= |rows| && forall i :: 0 <= i < k ==> HasRecord(rows[i], ons, sources)
      invariant forall i, r :: 0 <= i < k && Joined(rows[i], ons, sources, r) ==> !where(r)
      invariant LookAhead(rows, where, ons, sources) == LookAhead(rows[k..], where, ons, sources)
    {
      LookAheadFirst(rows, where, ons, sources, k);
      ExtendIs(rows[k], ons, sources);
      assert Extend([rows[k]], ons, sources) == Some(Extend([rows[k]], ons, sources).value);
      k := k + 1;
    }
    LookAheadFirst(rows, where, ons, sources, k);
    if k < |rows| {
      ExtendIs(rows[k], ons, sources);
    }
  }

  lemma LookAheadFirst(rows: seq<Row>, where: Condition, ons: seq<Condition>, sources: seq<seq<Row>>, n: nat)
    requires |ons| == |sources| && n <= |rows|
    ensures LookAhead(rows[n..], where, ons, sources) ==
            if n == |rows| then Ended
            else if Extend([rows[n]], ons, sources) == None then Stuck
            else if where(Extend([rows[n]], ons, sources).value)
            then Found(Extend([rows[n]], ons, sources).value, rows[n + 1..])
            else LookAhead(rows[n + 1..], where, ons, sources)
  {
    hide Extend;
    assert n < |rows| ==> rows[n..][0] == rows[n] && rows[n..][1..] == rows[n + 1..];
  }

  // ---- the cursor ----

  class RecordView {
    const manager: PageDataManager
    const mainTable: PageId
    const mainItemIt: ItemIterator
    const where: Condition
    const joinTables: seq<PageId>
    const joinPredicates: seq<Condition>
    var isEmpty: bool
    var currentHolder: array<Row>
    var nextHolder: array<Row>
    // the rows of the joined tables
    ghost const sources: seq<seq<Row>>
    // what a vacuum may have left unrepaired in the storage
    ghost const stale: set<PageId>
    ghost const ill: set<PageId>

    ghost predicate Storage()
      reads manager, manager.groups
    {
      && manager.Inv(stale, ill) && manager.groups.IsGroup(mainTable)
      && |joinTables| == |joinPredicates| == |sources|
      && forall i :: 0 <= i < |joinTables| ==>
           manager.groups.IsGroup(joinTables[i]) && sources[i] == ScanRows(manager.Pages(joinTables[i]))
    }

    ghost predicate Valid()
      reads this, manager, manager.groups, mainItemIt, mainItemIt.pageIt
    {
      && Storage()
      && mainItemIt.manager == manager
      && mainItemIt.Ready(manager.groups.lists[mainTable], manager.Pages(mainTable))
      && |joinPredicates| == |sources|
      && (isEmpty ==> !mainItemIt.HasNext())
      && currentHolder != nextHolder && currentHolder.Length == nextHolder.Length == 1 + |joinTables|
    }

    // The main rows not looked at yet.
    ghost function Rest(): seq<Row>
      requires Valid()
      reads this, manager, manager.groups, mainItemIt, mainItemIt.pageIt
    {
      Payloads(RestAt(manager.Pages(mainTable), mainItemIt.Where()))
    }

    // What is left: the record looked ahead and the main rows behind it.
    ghost function Pending(): Ahead
      requires Valid()
      reads this, nextHolder, manager, manager.groups, mainItemIt, mainItemIt.pageIt
    {
      if isEmpty then Ended else Found(nextHolder[..], Rest())
    }

    ghost function Footprint(): set<object>
      reads this
    {
      {this, mainItemIt, mainItemIt.pageIt, currentHolder, nextHolder}
    }

    predicate HasNext()
      reads this
    {
      !isEmpty
    }

    // table_manager_find_with_joins up to the first look ahead.
    constructor (manager: PageDataManager, mainTable: PageId, where: Condition, joinTables: seq<PageId>,
                 joinPredicates: seq<Condition>, ghost sources: seq<seq<Row>>, ghost stale: set<PageId>,
                 ghost ill: set<PageId>)
      requires manager.Inv(stale, ill) && manager.groups.IsGroup(mainTable)
      requires |joinTables| == |joinPredicates| == |sources|
      requires forall i :: 0 <= i < |joinTables| ==>
                 manager.groups.IsGroup(joinTables[i]) && sources[i] == ScanRows(manager.Pages(joinTables[i]))
      ensures Valid() && !isEmpty && Rest() == ScanRows(manager.Pages(mainTable))
      ensures this.manager == manager && this.mainTable == mainTable && this.where == where
      ensures this.joinTables == joinTables && this.joinPredicates == joinPredicates && this.sources == sources
      ensures fresh(Footprint() - {this})
    {
      hide PageDataManager.Inv, PageDataManager.Pages, Advanced, VisibleFrom;
      this.manager, this.mainTable, this.where := manager, mainTable, where;
      this.joinTables, this.joinPredicates, this.sources := joinTables, joinPredicates, sources;
      this.stale, this.ill := stale, ill;
      isEmpty := false;
      mainItemIt := new ItemIterator(manager, mainTable);
      nextHolder := new Row[1 + |joinTables|](_ => []);
      currentHolder := new Row[1 + |joinTables|](_ => []);
      new;
      mainItemIt.Begin(mainTable, stale, ill);
      AdvancedRest(manager.Pages(mainTable), Start, mainItemIt.Where());
    }

    // The next main row.
    method TakeItem() returns (item: Row)
      requires Valid() && mainItemIt.HasNext()
      modifies mainItemIt, mainItemIt.pageIt
      ensures Valid() && [item] + Rest() == old(Rest())
    {
      hide PageDataManager.Inv, PageDataManager.Pages, VisibleFrom, Advanced;
      ghost var pages := manager.Pages(mainTable);
      var more, bytes := mainItemIt.Next(mainTable, stale, ill);
      AdvancedRest(pages, On(mainItemIt.curPos, mainItemIt.currentIndex), mainItemIt.Where());
      item := bytes;
    }

    // The rows of the joined tables, each found with what is already in the holder.
    method FindJoins() returns (ok: bool)
      requires Storage() && nextHolder.Length == 1 + |joinTables|
      modifies nextHolder
      ensures match Extend([old(nextHolder[0])], joinPredicates, sources)
              case None => !ok
              case Some(parts) => ok && nextHolder[..] == parts
    {
      hide PageDataManager.Inv, PageDataManager.Pages, FirstMatch, ScanRows, Extend;
      ghost var first := nextHolder[0];
      assert nextHolder[..1] == [first];
      assert joinPredicates[0..] == joinPredicates && sources[0..] == sources;
      var index := 0;
      ok := true;
      while index < |joinTables|
        invariant 0 <= index <= |joinTables| && Storage() && ok
        invariant Extend([first], joinPredicates, sources) ==
                  Extend(nextHolder[..1 + index], joinPredicates[index..], sources[index..])
      {
        ExtendStep(nextHolder[..1 + index], joinPredicates, sources, index);
        var found, row := FindOne(manager, joinTables[index], OnRow(joinPredicates[index], nextHolder[..1 + index]),
          stale, ill);
        if !found {
          return false;
        }
        ghost var parts := nextHolder[..1 + index];
        nextHolder[1 + index] := row;
        index := index + 1;
        assert nextHolder[..1 + index] == parts + [row];
      }
      ExtendEnd(nextHolder[..], joinPredicates[index..], sources[index..]);
      assert nextHolder[..1 + index] == nextHolder[..];
    }

    // The loop of record_view_next: main rows are taken until one is joined and satisfies WHERE. False stands
    // for the error of a main row that has no match in a joined table.
    method LookForNext() returns (ok: bool)
      requires Valid()
      modifies `isEmpty, mainItemIt, mainItemIt.pageIt, nextHolder
      ensures Valid() && (old(isEmpty) ==> isEmpty)
      ensures match LookAhead(old(Rest()), where, joinPredicates, sources)
              case Found(parts, rest) => ok && isEmpty == old(isEmpty) && nextHolder[..] == parts && Rest() == rest
              case Ended => ok && isEmpty
              case Stuck => !ok
      ensures ok && !isEmpty ==> where(nextHolder[..])
    {
      hide RecordView.Storage, PageDataManager.Inv, PageDataManager.Pages, VisibleFrom, Extend, ScanRows,
        ItemIterator.Ready;
      while mainItemIt.HasNext()
        invariant Valid() && isEmpty == old(isEmpty)
        invariant LookAhead(Rest(), where, joinPredicates, sources) ==
                  LookAhead(old(Rest()), where, joinPredicates, sources)
        decreases |Rest()|
      {
        var item := TakeItem();
        nextHolder[0] := item;
        var joined := FindJoins();
        if !joined {
          return false;
        }
        if where(nextHolder[..]) {
          return true;
        }
      }
      isEmpty := true;
      ok := true;
    }

    // record_view_next. The holder returned keeps its record until the next call.
    method Next() returns (ok: bool, result: array<Row>, ghost k: nat)
      requires Valid()
      modifies Footprint()
      ensures Valid() && currentHolder == old(nextHolder) && nextHolder == old(currentHolder)
      ensures Footprint() == old(Footprint())
      ensures result == currentHolder && result[..] == old(nextHolder[..])
      ensures match LookAhead(old(Rest()), where, joinPredicates, sources)
              case Found(parts, rest) => ok && Pending() == Found(parts, rest)
              case Ended => ok && isEmpty
              case Stuck => !ok
      // what is looked ahead to is the record of row k, the first one behind that satisfies WHERE
      ensures k <= |old(Rest())| && forall i :: 0 <= i < k ==> HasRecord(old(Rest())[i], joinPredicates, sources)
      ensures forall i, r :: 0 <= i < k && Joined(old(Rest())[i], joinPredicates, sources, r) ==> !where(r)
      ensures ok && !isEmpty ==>
                && k < |old(Rest())| && Rest() == old(Rest())[k + 1..]
                && Joined(old(Rest())[k], joinPredicates, sources, nextHolder[..]) && where(nextHolder[..])
      ensures ok && isEmpty ==> k == |old(Rest())|
      ensures !ok ==> k < |old(Rest())| && exists r :: Unjoined(old(Rest())[k], joinPredicates, sources, r)
    {
      hide RecordView.Storage, PageDataManager.Inv, PageDataManager.Pages, RestAt, LookAhead, ItemIterator.Ready,
        Joined, Unjoined, HasRecord;
      EmptyHasNoRest();
      NoRestEnds(where, joinPredicates, sources);
      currentHolder, nextHolder := nextHolder, currentHolder;
      result := currentHolder;
      k := LookAheadIs(Rest(), where, joinPredicates, sources);
      ok := LookForNext();
    }

    lemma EmptyHasNoRest()
      requires Valid()
      ensures isEmpty ==> Rest() == []
    {
    }
  }

  lemma NoRestEnds(where: Condition, ons: seq<Condition>, sources: seq<seq<Row>>)
    requires |ons| == |sources|
    ensures LookAhead([], where, ons, sources) == Ended
  {
  }

  // What a caller that takes every record gets: while every main row has a match in every joined table,
  // exactly the selected records in scan order; otherwise the error, and of the records selected before
  // the failing row the last one is lost.
  ghost predicate Answers(rows: seq<Row>, where: Condition, ons: seq<Condition>, sources: seq<seq<Row>>,
                          records: seq<seq<Row>>, failed: bool)
    requires |ons| == |sources|
  {
    var selected := Selected(rows, where, ons, sources);
    && (failed <==> !AllJoin(rows, ons, sources))
    && (!failed ==> records == selected)
    && (failed ==> records == if selected == [] then [] else selected[..|selected| - 1])
  }

  method Query(manager: PageDataManager, mainTable: PageId, where: Condition, joinTables: seq<PageId>,
               joinPredicates: seq<Condition>, ghost sources: seq<seq<Row>>, ghost stale: set<PageId>,
               ghost ill: set<PageId>)
    returns (records: seq<seq<Row>>, failed: bool, ghost at: seq<nat>, ghost stop: nat)
    requires manager.Inv(stale, ill) && manager.groups.IsGroup(mainTable)
    requires |joinTables| == |joinPredicates| == |sources|
    requires forall i :: 0 <= i < |joinTables| ==>
               manager.groups.IsGroup(joinTables[i]) && sources[i] == ScanRows(manager.Pages(joinTables[i]))
    ensures Answers(ScanRows(manager.Pages(mainTable)), where, joinPredicates, sources, records, failed)
    // `stop` is the first main row without a record, if there is one, and `at` are the main rows before it whose record
    // satisfies WHERE, in scan order: these records are the answer, but for the last one after a failure
    ensures var rows := ScanRows(manager.Pages(mainTable));
            && stop <= |rows| && (failed <==> stop < |rows|)
            && (forall k :: 0 <= k < stop ==> HasRecord(rows[k], joinPredicates, sources))
            && (failed ==> exists r :: Unjoined(rows[stop], joinPredicates, sources, r))
            && (forall i, j :: 0 <= i < j < |at| ==> at[i] < at[j]) && (forall i :: 0 <= i < |at| ==> at[i] < stop)
            && |records| == (if failed && at != [] then |at| - 1 else |at|)
            && (forall i :: 0 <= i < |records| ==>
                  Joined(rows[at[i]], joinPredicates, sources, records[i]) && where(records[i]))
            && (forall k, r :: 0 <= k < stop && Joined(rows[k], joinPredicates, sources, r) ==>
                  (where(r) <==> k in at))
  {
    hide RecordView.Valid, LookAhead, PageDataManager.Inv, PageDataManager.Pages, ScanRows, Owed, Answers,
      RecordView.Rest, Joined, Unjoined, HasRecord;
    var view := new RecordView(manager, mainTable, where, joinTables, joinPredicates, sources, stale, ill);
    OwedFirst(view.Rest(), where, joinPredicates, sources);
    ghost var rows := view.Rest();
    var ok, holder, k := view.Next();
    if ok {
      records, failed := TakeAll(view, rows);
    } else {
      records, failed := [], true;
    }
    at, stop := AnswersAre(rows, where, joinPredicates, sources, records, failed);
  }

  lemma AnswersAre(rows: seq<Row>, where: Condition, ons: seq<Condition>, sources: seq<seq<Row>>,
                   records: seq<seq<Row>>, failed: bool)
    returns (at: seq<nat>, stop: nat)
    requires |ons| == |sources| && Answers(rows, where, ons, sources, records, failed)
    ensures stop <= |rows| && (failed <==> stop < |rows|)
    ensures forall k :: 0 <= k < stop ==> HasRecord(rows[k], ons, sources)
    ensures failed ==> exists r :: Unjoined(rows[stop], ons, sources, r)
    ensures (forall i, j :: 0 <= i < j < |at| ==> at[i] < at[j]) && forall i :: 0 <= i < |at| ==> at[i] < stop
    ensures |records| == if failed && at != [] then |at| - 1 else |at|
    ensures forall i :: 0 <= i < |records| ==> Joined(rows[at[i]], ons, sources, records[i]) && where(records[i])
    ensures forall k, r :: 0 <= k < stop && Joined(rows[k], ons, sources, r) ==> (where(r) <==> k in at)
  {
    at, stop := SelectedIs(rows, where, ons, sources);
    hide Selected, AllJoin, Joined, Unjoined, HasRecord;
    forall k, r | 0 <= k < stop && Joined(rows[k], ons, sources, r)
      ensures where(r) <==> k in at
    {
      if k in at {
        var i :| 0 <= i < |at| && at[i] == k;
        RecordIs(rows[k], ons, sources, r, Selected(rows, where, ons, sources)[i]);
      }
    }
  }

  // The caller's loop over has_next and next.
  method TakeAll(view: RecordView, ghost rows: seq<Row>) returns (records: seq<seq<Row>>, failed: bool)
    requires view.Valid() && |view.joinPredicates| == |view.sources|
    requires Owed(rows, view.where, view.joinPredicates, view.sources, [], view.Pending())
    modifies view.Footprint()
    ensures Answers(rows, view.where, view.joinPredicates, view.sources, records, failed)
  {
    hide RecordView.Valid, LookAhead, PageDataManager.Inv, PageDataManager.Pages, RecordView.Rest, Owed, Answers,
      Joined, Unjoined, HasRecord;
    records := [];
    while view.HasNext()
      invariant view.Valid() && view.Footprint() == old(view.Footprint())
      invariant Owed(rows, view.where, view.joinPredicates, view.sources, records, view.Pending())
      decreases if view.isEmpty then 0 else 1 + |view.Rest()|
    {
      OwedNext(rows, view.where, view.joinPredicates, view.sources, records, view.nextHolder[..], view.Rest());
      var ok, holder, k := view.Next();
      if !ok {
        return records, true;
      }
      records := records + [holder[..]];
    }
    OwedNothing(rows, view.where, view.joinPredicates, view.sources, records);
    failed := false;
  }

  // The records delivered so far, with what was looked ahead, make up the records selected.
  ghost predicate Owed(rows: seq<Row>, where: Condition, ons: seq<Condition>, sources: seq<seq<Row>>,
                       records: seq<seq<Row>>, ahead: Ahead)
    requires |ons| == |sources|
  {
    match ahead
    case Found(parts, rest) =>
      && Selected(rows, where, ons, sources) == records + [parts] + Selected(rest, where, ons, sources)
      && (AllJoin(rows, ons, sources) <==> AllJoin(rest, ons, sources))
    case Ended => Selected(rows, where, ons, sources) == records && AllJoin(rows, ons, sources)
    case Stuck => Answers(rows, where, ons, sources, records, true)
  }

  lemma OwedFirst(rows: seq<Row>, where: Condition, ons: seq<Condition>, sources: seq<seq<Row>>)
    requires |ons| == |sources|
    ensures Owed(rows, where, ons, sources, [], LookAhead(rows, where, ons, sources))
    ensures LookAhead(rows, where, ons, sources).Stuck? ==> Answers(rows, where, ons, sources, [], true)
  {
    hide Selected, AllJoin, LookAhead;
    LookAheadSelects(rows, where, ons, sources);
  }

  lemma OwedNext(rows: seq<Row>, where: Condition, ons: seq<Condition>, sources: seq<seq<Row>>, records: seq<seq<Row>>,
                 parts: seq<Row>, rest: seq<Row>)
    requires |ons| == |sources| && Owed(rows, where, ons, sources, records, Found(parts, rest))
    ensures var ahead := LookAhead(rest, where, ons, sources);
            && (!ahead.Stuck? ==> Owed(rows, where, ons, sources, records + [parts], ahead))
            && (ahead.Stuck? ==> Answers(rows, where, ons, sources, records, true))
  {
    hide Selected, AllJoin, LookAhead;
    LookAheadSelects(rest, where, ons, sources);
  }

  lemma OwedNothing(rows: seq<Row>, where: Condition, ons: seq<Condition>, sources: seq<seq<Row>>,
                    records: seq<seq<Row>>)
    requires |ons| == |sources| && Owed(rows, where, ons, sources, records, Ended)
    ensures Answers(rows, where, ons, sources, records, false)
  {
  }
}
