/** What a scan that changes what it scans does to the entries of a group, on values. */
module ScanEffects {
  import opened Bytes
  import opened SlottedPage
  import opened PageStorage
  import opened ItemScan
  import opened Compaction

  // ---- entries, payloads, bags ----

  function Payloads(es: seq<Entry>): (r: seq<seq<byte>>)
    ensures |r| == |es|
  {
    seq(|es|, i requires 0 <= i < |es| => es[i].payload)
  }

  // Nothing is flagged: what an immediate insert adds and a vacuum leaves.
  ghost predicate Clean(pages: seq<seq<Entry>>)
  {
    forall j :: 0 <= j < |pages| ==> AllVisible(pages[j])
  }

  // Payloads that would survive a vacuum, as a multiset.
  function LiveBag(es: seq<Entry>, n: nat): multiset<seq<byte>>
    requires n <= |es|
  {
    if n == 0 then multiset{}
    else LiveBag(es, n - 1) + (if Live(es[n - 1]) then multiset{es[n - 1].payload} else multiset{})
  }

  function LiveBagAll(pages: seq<seq<Entry>>, n: nat): multiset<seq<byte>>
    requires n <= |pages|
  {
    if n == 0 then multiset{} else LiveBagAll(pages, n - 1) + LiveBag(pages[n - 1], |pages[n - 1]|)
  }

  lemma PayloadsAppend(a: seq<Entry>, b: seq<Entry>)
    ensures Payloads(a + b) == Payloads(a) + Payloads(b)
    ensures Payloads([]) == []
  {
  }

  lemma {:induction false} SurviveBag(es: seq<Entry>, n: nat)
    requires n <= |es|
    ensures multiset(Payloads(SurviveTo(es, n))) == LiveBag(es, n)
  {
    if n > 0 {
      SurviveBag(es, n - 1);
      var x := Cleared(es[n - 1]);
      if Live(es[n - 1]) {
        PayloadsAppend(SurviveTo(es, n - 1), [x]);
        assert Payloads([x]) == [x.payload];
      } else {
        assert SurviveTo(es, n) == SurviveTo(es, n - 1);
      }
    }
  }

  lemma {:induction false} SurviveAllBag(pages: seq<seq<Entry>>, n: nat)
    requires n <= |pages|
    ensures multiset(Payloads(SurviveAll(pages, n))) == LiveBagAll(pages, n)
  {
    hide SurviveTo, LiveBag, Payloads;
    if n > 0 {
      SurviveAllBag(pages, n - 1);
      SurviveBag(pages[n - 1], |pages[n - 1]|);
      PayloadsAppend(SurviveAll(pages, n - 1), Survive(pages[n - 1]));
    } else {
      PayloadsAppend([], []);
    }
  }

  function LiveOne(x: Entry): multiset<seq<byte>>
  {
    if Live(x) then multiset{x.payload} else multiset{}
  }

  lemma AddBoth(a: multiset<seq<byte>>, b: multiset<seq<byte>>, c: multiset<seq<byte>>, d: multiset<seq<byte>>,
                e: multiset<seq<byte>>)
    requires a + b == c + d
    ensures (a + e) + b == (c + e) + d
  {
    forall x
      ensures ((a + e) + b)[x] == ((c + e) + d)[x]
    {
      assert (a + b)[x] == (c + d)[x];
    }
  }

  lemma {:induction false} BagPrefix(a: seq<Entry>, b: seq<Entry>, n: nat)
    requires n <= |a| && n <= |b| && forall i :: 0 <= i < n ==> a[i] == b[i]
    ensures LiveBag(a, n) == LiveBag(b, n)
  {
    if n > 0 {
      BagPrefix(a, b, n - 1);
    }
  }

  lemma {:induction false} BagSet(es: seq<Entry>, k: nat, x: Entry, n: nat)
    requires k < n <= |es|
    ensures LiveBag(es[k := x], n) + LiveOne(es[k]) == LiveBag(es, n) + LiveOne(x)
  {
    if k == n - 1 {
      BagPrefix(es[k := x], es, n - 1);
    } else {
      BagSet(es, k, x, n - 1);
      AddBoth(LiveBag(es[k := x], n - 1), LiveOne(es[k]), LiveBag(es, n - 1), LiveOne(x), LiveOne(es[n - 1]));
    }
  }

  lemma {:induction false} BagAllPrefix(a: seq<seq<Entry>>, b: seq<seq<Entry>>, n: nat)
    requires n <= |a| && n <= |b| && forall i :: 0 <= i < n ==> a[i] == b[i]
    ensures LiveBagAll(a, n) == LiveBagAll(b, n)
  {
    if n > 0 {
      BagAllPrefix(a, b, n - 1);
    }
  }

  lemma Swap(a: multiset<seq<byte>>, b: multiset<seq<byte>>, c: multiset<seq<byte>>)
    ensures a + b + c == a + c + b
  {
  }

  // Replacing one page changes the bag of the chain by the difference of the two pages.
  lemma {:induction false} BagSetPage(pages: seq<seq<Entry>>, j: nat, es: seq<Entry>, n: nat)
    requires j < n <= |pages|
    ensures LiveBagAll(pages[j := es], n) + LiveBag(pages[j], |pages[j]|) == LiveBagAll(pages, n) + LiveBag(es, |es|)
  {
    hide LiveBag;
    var pages' := pages[j := es];
    assert LiveBagAll(pages', n) == LiveBagAll(pages', n - 1) + LiveBag(pages'[n - 1], |pages'[n - 1]|);
    assert LiveBagAll(pages, n) == LiveBagAll(pages, n - 1) + LiveBag(pages[n - 1], |pages[n - 1]|);
    if j == n - 1 {
      BagAllPrefix(pages', pages, n - 1);
      Swap(LiveBagAll(pages, n - 1), LiveBag(es, |es|), LiveBag(pages[j], |pages[j]|));
    } else {
      BagSetPage(pages, j, es, n - 1);
      AddBoth(LiveBagAll(pages', n - 1), LiveBag(pages[j], |pages[j]|),
        LiveBagAll(pages, n - 1), LiveBag(es, |es|), LiveBag(pages[n - 1], |pages[n - 1]|));
    }
  }

  function AllLive(pages: seq<seq<Entry>>): multiset<seq<byte>> { LiveBagAll(pages, |pages|) }

  lemma BagSetEntry(pages: seq<seq<Entry>>, j: nat, k: nat, x: Entry)
    requires j < |pages| && k < |pages[j]|
    ensures AllLive(SetEntry(pages, j, k, x)) + LiveOne(pages[j][k]) == AllLive(pages) + LiveOne(x)
  {
    BagSet(pages[j], k, x, |pages[j]|);
    BagSetPage(pages, j, pages[j][k := x], |pages|);
    BagDifference(AllLive(SetEntry(pages, j, k, x)), AllLive(pages),
      LiveBag(pages[j][k := x], |pages[j]|), LiveBag(pages[j], |pages[j]|), LiveOne(x), LiveOne(pages[j][k]));
  }

  lemma BagDifference(a': multiset<seq<byte>>, a: multiset<seq<byte>>, b': multiset<seq<byte>>, b: multiset<seq<byte>>,
                      c': multiset<seq<byte>>, c: multiset<seq<byte>>)
    requires a' + b == a + b' && b' + c == b + c'
    ensures a' + c == a + c'
  {
    forall x
      ensures (a' + c)[x] == (a + c')[x]
    {
      assert (a' + b)[x] == (a + b')[x] && (b' + c)[x] == (b + c')[x];
    }
  }

  lemma BagAppend(es: seq<Entry>, x: Entry)
    ensures LiveBag(es + [x], |es + [x]|) == LiveBag(es, |es|) + LiveOne(x)
  {
    BagPrefix(es + [x], es, |es|);
  }

  lemma BagNewPage(pages: seq<seq<Entry>>, es: seq<Entry>)
    ensures AllLive(pages + [es]) == AllLive(pages) + LiveBag(es, |es|)
  {
    BagAllPrefix(pages + [es], pages, |pages|);
  }

  lemma BagInsertInto(pages: seq<seq<Entry>>, at: nat, x: Entry)
    ensures AllLive(InsertInto(pages, at, x)) == AllLive(pages) + LiveOne(x)
  {
    hide LiveBag, LiveOne, LiveBagAll;
    if at < |pages| {
      var es := pages[at] + [x];
      BagAppend(pages[at], x);
      BagSetPage(pages, at, es, |pages|);
      BagDifference(AllLive(InsertInto(pages, at, x)), AllLive(pages), LiveBag(es, |es|),
        LiveBag(pages[at], |pages[at]|), LiveOne(x), multiset{});
    } else {
      BagAppend([], x);
      assert [] + [x] == [x];
      BagNewPage(pages, [x]);
      EmptyBag();
    }
  }

  lemma EmptyBag()
    ensures LiveBag([], 0) == multiset{}
  {
  }

  // ---- a scan that rewrites the visible entries it passes ----

  function Map<T>(f: T -> T, s: seq<T>): (r: seq<T>)
    ensures |r| == |s|
  {
    seq(|s|, i requires 0 <= i < |s| => f(s[i]))
  }

  function MapPages(f: Entry -> Entry, pages: seq<seq<Entry>>): (r: seq<seq<Entry>>)
    ensures |r| == |pages|
  {
    seq(|pages|, j requires 0 <= j < |pages| => Map(f, pages[j]))
  }

  // f applied to everything the cursor has passed, the rest as it was.
  ghost predicate Applied(f: Entry -> Entry, pages0: seq<seq<Entry>>, pages: seq<seq<Entry>>, c: ScanCursor)
  {
    && |pages| == |pages0|
    && (forall j :: 0 <= j < |pages| ==> |pages[j]| == |pages0[j]|)
    && (forall j, k :: 0 <= j < |pages| && 0 <= k < |pages[j]| ==>
          pages[j][k] == if Passed(c, j, k) then f(pages0[j][k]) else pages0[j][k])
  }

  // f rewrites visible entries only.
  ghost predicate OnVisible(f: Entry -> Entry)
  {
    forall e: Entry :: !Visible(e) ==> f(e) == e
  }

  lemma AppliedStart(f: Entry -> Entry, pages: seq<seq<Entry>>, c: ScanCursor)
    requires OnVisible(f) && Advanced(pages, Start, c)
    ensures Applied(f, pages, pages, c)
  {
  }

  lemma AppliedStep(f: Entry -> Entry, pages0: seq<seq<Entry>>, pages: seq<seq<Entry>>, p: nat, i: nat, c: ScanCursor,
                    pages': seq<seq<Entry>>)
    requires OnVisible(f) && Applied(f, pages0, pages, On(p, i)) && Advanced(pages, On(p, i), c)
    requires p < |pages| && i < |pages[p]|
    requires pages' == SetEntry(pages, p, i, f(pages[p][i]))
    ensures Applied(f, pages0, pages', c)
  {
    forall j, k | 0 <= j < |pages'| && 0 <= k < |pages'[j]|
      ensures pages'[j][k] == if Passed(c, j, k) then f(pages0[j][k]) else pages0[j][k]
    {
      if !(j == p && k == i) {
        assert pages'[j][k] == pages[j][k];
      }
    }
  }

  lemma AppliedEnd(f: Entry -> Entry, pages0: seq<seq<Entry>>, pages: seq<seq<Entry>>)
    requires Applied(f, pages0, pages, End)
    ensures pages == MapPages(f, pages0)
  {
    forall j | 0 <= j < |pages|
      ensures pages[j] == Map(f, pages0[j])
    {
      forall k | 0 <= k < |pages[j]|
        ensures pages[j][k] == f(pages0[j][k])
      {
        assert Passed(End, j, k);
      }
    }
  }

  // ---- a scan that changes what it has passed, and appends ----

  // One change at (p, i): nothing behind it changes, what is appended is not visible, and nothing hidden
  // becomes visible.
  ghost predicate Touches(pages: seq<seq<Entry>>, pages': seq<seq<Entry>>, p: nat, i: nat)
  {
    && |pages| <= |pages'|
    && (forall j :: 0 <= j < |pages| ==> |pages[j]| <= |pages'[j]|)
    && (forall j, k :: 0 <= j < |pages'| && 0 <= k < |pages'[j]| ==>
          if j < |pages| && k < |pages[j]| then
            && (!Earlier(j, k, p, i + 1) ==> pages'[j][k] == pages[j][k])
            && (Visible(pages'[j][k]) ==> Visible(pages[j][k]))
          else !Visible(pages'[j][k]))
  }

  // The cursor is behind (p, i).
  predicate Beyond(c: ScanCursor, p: nat, i: nat)
  {
    c.End? || (c.On? && !Earlier(c.page, c.slot, p, i + 1))
  }

  lemma {:induction false} TouchesIn(es: seq<Entry>, es': seq<Entry>, i: nat)
    requires |es| <= |es'| && forall k :: i <= k < |es'| ==> if k < |es| then es'[k] == es[k] else !Visible(es'[k])
    ensures VisibleIn(es', i) == VisibleIn(es, i)
    decreases |es'| - i
  {
    if i < |es'| {
      TouchesIn(es, es', i + 1);
    }
  }

  lemma {:induction false} TouchesFrom(pages: seq<seq<Entry>>, pages': seq<seq<Entry>>, p: nat, i: nat, q: nat, k: nat)
    requires Touches(pages, pages', p, i) && !Earlier(q, k, p, i + 1)
    ensures VisibleFrom(pages', q, k) == VisibleFrom(pages, q, k)
    decreases |pages'| - q
  {
    if q < |pages'| {
      TouchesIn(if q < |pages| then pages[q] else [], pages'[q], k);
      TouchesFrom(pages, pages', p, i, q + 1, 0);
    }
  }

  // What is still to come does not change.
  lemma TouchesRest(pages: seq<seq<Entry>>, pages': seq<seq<Entry>>, p: nat, i: nat, c: ScanCursor)
    requires Touches(pages, pages', p, i) && Beyond(c, p, i)
    ensures RestAt(pages', c) == RestAt(pages, c)
  {
    if c.On? {
      TouchesFrom(pages, pages', p, i, c.page, c.slot);
    }
  }

  lemma AdvancedBeyond(pages: seq<seq<Entry>>, p: nat, i: nat, c: ScanCursor)
    requires Advanced(pages, On(p, i), c)
    ensures Beyond(c, p, i)
  {
  }

  // What a scan does to the pages at a visible position with this payload.
  type ScanStep = (seq<seq<Entry>>, nat, nat, seq<byte>) -> seq<seq<Entry>>

  // The pages after the scan has dealt with every position of pages0 before (j, k).
  function Walked(step: ScanStep, pages0: seq<seq<Entry>>, j: nat, k: nat): seq<seq<Entry>>
    requires j < |pages0| && k <= |pages0[j]|
    decreases j, k
  {
    if k > 0 then
      var now, e := Walked(step, pages0, j, k - 1), pages0[j][k - 1];
      if Visible(e) then step(now, j, k - 1, e.payload) else now
    else if j == 0 then pages0
    else Walked(step, pages0, j - 1, |pages0[j - 1]|)
  }

  function WalkedAll(step: ScanStep, pages0: seq<seq<Entry>>): seq<seq<Entry>>
  {
    if pages0 == [] then pages0 else Walked(step, pages0, |pages0| - 1, |pages0[|pages0| - 1]|)
  }

  // The scan at its cursor: the pages it has made, which are as they were from the cursor on, with nothing
  // visible appended.
  ghost predicate Walking(step: ScanStep, pages0: seq<seq<Entry>>, pages: seq<seq<Entry>>, c: ScanCursor)
  {
    && |pages0| <= |pages|
    && (forall j :: 0 <= j < |pages0| ==> |pages0[j]| <= |pages[j]|)
    && (forall j, k :: 0 <= j < |pages| && 0 <= k < |pages[j]| ==>
          if j < |pages0| && k < |pages0[j]| then !Passed(c, j, k) ==> pages[j][k] == pages0[j][k]
          else !Visible(pages[j][k]))
    && match c
       case Start => pages == pages0
       case On(p, i) => p < |pages0| && i < |pages0[p]| && pages == Walked(step, pages0, p, i)
       case End => pages == WalkedAll(step, pages0)
  }

  // Invisible positions are passed over.
  lemma {:induction false} WalkedOver(step: ScanStep, pages0: seq<seq<Entry>>, j: nat, k: nat, p: nat, i: nat)
    requires j < |pages0| && k <= |pages0[j]| && p < |pages0| && i <= |pages0[p]| && (j < p || (j == p && k <= i))
    requires forall x, y :: 0 <= x < |pages0| && 0 <= y < |pages0[x]| && !Earlier(x, y, j, k) && Earlier(x, y, p, i) ==>
               !Visible(pages0[x][y])
    ensures Walked(step, pages0, p, i) == Walked(step, pages0, j, k)
    decreases p, i
  {
    if p == j && i == k {
    } else if i > 0 {
      assert !Earlier(p, i - 1, j, k) && Earlier(p, i - 1, p, i);
      WalkedOver(step, pages0, j, k, p, i - 1);
    } else {
      WalkedOver(step, pages0, j, k, p - 1, |pages0[p - 1]|);
    }
  }

  lemma WalkingStart(step: ScanStep, pages: seq<seq<Entry>>, c: ScanCursor)
    requires Advanced(pages, Start, c)
    ensures Walking(step, pages, pages, c)
  {
    if c.On? {
      WalkedOver(step, pages, 0, 0, c.page, c.slot);
    } else if pages != [] {
      WalkedOver(step, pages, 0, 0, |pages| - 1, |pages[|pages| - 1]|);
    }
  }

  // One step at the cursor's position, and the cursor on the next visible one.
  lemma WalkingNext(step: ScanStep, pages0: seq<seq<Entry>>, pages: seq<seq<Entry>>, p: nat, i: nat, c: ScanCursor,
                    pages': seq<seq<Entry>>)
    requires Walking(step, pages0, pages, On(p, i)) && Advanced(pages, On(p, i), c)
    requires p < |pages| && i < |pages[p]| && Visible(pages[p][i])
    requires pages' == step(pages, p, i, pages[p][i].payload) && Touches(pages, pages', p, i)
    ensures Walking(step, pages0, pages', c)
  {
    assert pages[p][i] == pages0[p][i];
    assert pages' == Walked(step, pages0, p, i + 1);
    WalkingNextAt(step, pages0, pages, p, i, c);
    forall j, k | 0 <= j < |pages'| && 0 <= k < |pages'[j]|
      ensures if j < |pages0| && k < |pages0[j]| then !Passed(c, j, k) ==> pages'[j][k] == pages0[j][k]
              else !Visible(pages'[j][k])
    {
      if j < |pages| && k < |pages[j]| && !Passed(c, j, k) {
        assert !Earlier(j, k, p, i + 1);
      }
    }
    hide Walked;
  }

  lemma WalkingNextAt(step: ScanStep, pages0: seq<seq<Entry>>, pages: seq<seq<Entry>>, p: nat, i: nat, c: ScanCursor)
    requires Walking(step, pages0, pages, On(p, i)) && Advanced(pages, On(p, i), c)
    ensures p < |pages0| && i < |pages0[p]|
    ensures c.On? ==> c.page < |pages0| && c.slot < |pages0[c.page]|
    ensures c.On? ==> Walked(step, pages0, c.page, c.slot) == Walked(step, pages0, p, i + 1)
    ensures c.End? ==> WalkedAll(step, pages0) == Walked(step, pages0, p, i + 1)
  {
    hide Walked;
    var p', i' := if c.On? then c.page else |pages0| - 1, if c.On? then c.slot else |pages0[|pages0| - 1]|;
    forall x, y | 0 <= x < |pages0| && 0 <= y < |pages0[x]| && !Earlier(x, y, p, i + 1) && Earlier(x, y, p', i')
      ensures !Visible(pages0[x][y])
    {
      assert pages[x][y] == pages0[x][y];
    }
    WalkedOver(step, pages0, p, i + 1, p', i');
  }

  // ---- deleting ----

  function Marked(pred: seq<byte> -> bool): Entry -> Entry
  {
    (e: Entry) => if Visible(e) && pred(e.payload) then WithDeleted(e) else e
  }

  // Payloads left by a deletion, in order: what is pending, and what is visible and does not match.
  function KeptTo(pred: seq<byte> -> bool, es: seq<Entry>, n: nat): seq<seq<byte>>
    requires n <= |es|
  {
    if n == 0 then []
    else
      var e := es[n - 1];
      KeptTo(pred, es, n - 1) + (if IsNew(e.flags) || (!IsDeleted(e.flags) &&
        !pred(e.payload)) then [e.payload] else [])
  }

  function KeptAll(pred: seq<byte> -> bool, pages: seq<seq<Entry>>, n: nat): seq<seq<byte>>
    requires n <= |pages|
  {
    if n == 0 then [] else KeptAll(pred, pages, n - 1) + KeptTo(pred, pages[n - 1], |pages[n - 1]|)
  }

  lemma {:induction false} SurviveMarked(pred: seq<byte> -> bool, es: seq<Entry>, n: nat)
    requires n <= |es|
    ensures Payloads(SurviveTo(Map(Marked(pred), es), n)) == KeptTo(pred, es, n)
  {
    if n > 0 {
      SurviveMarked(pred, es, n - 1);
      var x := Map(Marked(pred), es)[n - 1];
      PayloadsAppend(SurviveTo(Map(Marked(pred), es), n - 1), if Live(x) then [Cleared(x)] else []);
      assert x == Marked(pred)(es[n - 1]) && Cleared(x).payload == es[n - 1].payload;
      assert Payloads([Cleared(x)]) == [es[n - 1].payload];
    }
  }

  lemma {:induction false} SurviveAllMarked(pred: seq<byte> -> bool, pages: seq<seq<Entry>>, n: nat)
    requires n <= |pages|
    ensures Payloads(SurviveAll(MapPages(Marked(pred), pages), n)) == KeptAll(pred, pages, n)
  {
    hide SurviveTo, KeptTo, Payloads, Marked, Map;
    if n > 0 {
      SurviveAllMarked(pred, pages, n - 1);
      SurviveMarked(pred, pages[n - 1], |pages[n - 1]|);
      PayloadsAppend(SurviveAll(MapPages(Marked(pred), pages), n - 1), Survive(Map(Marked(pred), pages[n - 1])));
    } else {
      PayloadsAppend([], []);
    }
  }

  // Rows that do not match, in order.
  function Reject(pred: seq<byte> -> bool, rows: seq<seq<byte>>): seq<seq<byte>>
  {
    if rows == [] then []
    else
      var row := rows[|rows| - 1];
      Reject(pred, rows[..|rows| - 1]) + (if pred(row) then [] else [row])
  }

  lemma {:induction false} RejectAppend(pred: seq<byte> -> bool, a: seq<seq<byte>>, b: seq<seq<byte>>)
    ensures Reject(pred, a + b) == Reject(pred, a) + Reject(pred, b)
    decreases |b|
  {
    if b == [] {
      assert a + b == a;
    } else {
      assert (a + b)[..|a + b| - 1] == a + b[..|b| - 1];
      RejectAppend(pred, a, b[..|b| - 1]);
    }
  }

  // They are the rows at the positions that do not match, in increasing order.
  lemma {:induction false} RejectIs(pred: seq<byte> -> bool, rows: seq<seq<byte>>) returns (at: seq<nat>)
    ensures |at| == |Reject(pred, rows)| && forall i, j :: 0 <= i < j < |at| ==> at[i] < at[j]
    ensures forall i :: 0 <= i < |at| ==>
              at[i] < |rows| && !pred(rows[at[i]]) && Reject(pred, rows)[i] == rows[at[i]]
    ensures forall k :: 0 <= k < |rows| && !pred(rows[k]) ==> k in at
  {
    at := [];
    if rows != [] {
      var n := |rows| - 1;
      at := RejectIs(pred, rows[..n]);
      RejectLast(pred, rows);
      PlacesMore(at, n);
      hide Reject;
      assert forall k :: 0 <= k < n ==> rows[..n][k] == rows[k];
      if !pred(rows[n]) {
        at := at + [n];
      }
    }
  }

  // Each as often as it was there.
  lemma {:induction false} RejectCount(pred: seq<byte> -> bool, rows: seq<seq<byte>>)
    ensures forall row :: multiset(Reject(pred, rows))[row] == if pred(row) then 0 else multiset(rows)[row]
  {
    if rows != [] {
      RejectCount(pred, rows[..|rows| - 1]);
      RejectLast(pred, rows);
      BagLast(rows);
      hide Reject;
    }
  }

  lemma RejectLast(pred: seq<byte> -> bool, rows: seq<seq<byte>>)
    requires rows != []
    ensures var n := |rows| - 1;
            Reject(pred, rows) == Reject(pred, rows[..n]) + if pred(rows[n]) then [] else [rows[n]]
  {
  }

  lemma BagLast(rows: seq<seq<byte>>)
    requires rows != []
    ensures multiset(rows) == multiset(rows[..|rows| - 1]) + multiset{rows[|rows| - 1]}
  {
    assert rows == rows[..|rows| - 1] + [rows[|rows| - 1]];
  }

  // One position more at the end.
  lemma PlacesMore(at: seq<nat>, n: nat)
    requires forall i, j :: 0 <= i < j < |at| ==> at[i] < at[j]
    requires forall i :: 0 <= i < |at| ==> at[i] < n
    ensures forall i, j :: 0 <= i < j < |at + [n]| ==> (at + [n])[i] < (at + [n])[j]
    ensures forall k :: k in at + [n] <==> k in at || k == n
  {
  }

  // ---- groups with nothing flagged ----

  lemma {:induction false} SurviveClean(es: seq<Entry>, n: nat)
    requires n <= |es| && AllVisible(es)
    ensures SurviveTo(es, n) == es[..n]
  {
    if n > 0 {
      SurviveClean(es, n - 1);
      assert Visible(es[n - 1]);
    }
  }

  lemma {:induction false} SurviveAllClean(pages: seq<seq<Entry>>, n: nat)
    requires n <= |pages| && Clean(pages)
    ensures SurviveAll(pages, n) == FlatTo(pages, n)
  {
    if n > 0 {
      SurviveAllClean(pages, n - 1);
      SurviveClean(pages[n - 1], |pages[n - 1]|);
      assert pages[n - 1][..|pages[n - 1]|] == pages[n - 1];
    }
  }

  lemma MapRowsAppend(r: seq<byte> -> seq<byte>, a: seq<seq<byte>>, b: seq<seq<byte>>)
    ensures Map(r, a + b) == Map(r, a) + Map(r, b)
  {
  }
}
