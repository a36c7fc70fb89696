/** The rows of a group before and after a vacuum. */
module VacuumRows {
  import opened Bytes
  import opened SlottedPage
  import opened ItemScan
  import opened Compaction
  import opened VacuumResult
  import opened VacuumLayout
  import opened ScanEffects

  // The rows of a group that a vacuum that looks at every page would keep, in order.
  function LiveRows(pages: seq<seq<Entry>>): seq<seq<byte>>
  {
    Payloads(SurviveAll(pages, |pages|))
  }

  // Nothing is pending: a row is kept exactly when it is visible.
  ghost predicate Settled(pages: seq<seq<Entry>>)
  {
    forall j, i :: 0 <= j < |pages| && 0 <= i < |pages[j]| ==> !IsNew(pages[j][i].flags)
  }

  // The rows of a blind last page, when the vacuum is compacting as it gets there.
  function LostRows(cap: nat, pages: seq<seq<Entry>>, blind: set<nat>): seq<seq<byte>>
    requires |pages| > 0
  {
    if |pages| - 1 in blind && EndsPacking(cap, pages, blind) then Payloads(Survive(pages[|pages| - 1])) else []
  }

  lemma {:induction false} SurviveJoin(a: seq<seq<Entry>>, b: seq<seq<Entry>>, n: nat)
    requires n <= |b|
    ensures SurviveAll(a + b, |a| + n) == SurviveAll(a, |a|) + SurviveAll(b, n)
  {
    hide SurviveTo;
    if n > 0 {
      SurviveJoin(a, b, n - 1);
      assert (a + b)[|a| + n - 1] == b[n - 1];
      assert SurviveAll(a, |a|) + SurviveAll(b, n - 1) + Survive(b[n - 1]) ==
             SurviveAll(a, |a|) + (SurviveAll(b, n - 1) + Survive(b[n - 1]));
    } else {
      SurviveFront(a + b, a, |a|);
    }
  }

  lemma {:induction false} SurviveFront(a: seq<seq<Entry>>, b: seq<seq<Entry>>, n: nat)
    requires n <= |a| && n <= |b| && a[..n] == b[..n]
    ensures SurviveAll(a, n) == SurviveAll(b, n)
  {
    if n > 0 {
      assert a[n - 1] == a[..n][n - 1] == b[n - 1] && a[..n - 1] == a[..n][..n - 1] == b[..n - 1];
      SurviveFront(a, b, n - 1);
    }
  }

  lemma LiveJoin(a: seq<seq<Entry>>, b: seq<seq<Entry>>)
    ensures LiveRows(a + b) == LiveRows(a) + LiveRows(b)
  {
    SurviveJoin(a, b, |b|);
    hide SurviveAll;
    PayloadsAppend(SurviveAll(a, |a|), SurviveAll(b, |b|));
  }

  lemma LiveOnePage(es: seq<Entry>)
    ensures LiveRows([es]) == Payloads(Survive(es))
  {
    hide SurviveTo;
    assert SurviveAll([es], 0) == [];
    assert SurviveAll([es], 1) == SurviveAll([es], 0) + Survive(es) == Survive(es);
  }

  // What the compaction placed is visible.
  lemma {:induction false} OutsVisible(cap: nat, pages: seq<seq<Entry>>, s: nat, i: nat)
    requires s < |pages| && i <= |pages[s]|
    ensures Clean(OutsAt(cap, pages, s, i))
    decreases s, i
  {
    hide CursorAt;
    if i > 0 {
      OutsVisible(cap, pages, s, i - 1);
      var outs, x := OutsAt(cap, pages, s, i - 1), pages[s][i - 1];
      assert AllVisible(outs[|outs| - 1]);
      assert Live(x) ==> Visible(Cleared(x));
    } else if s > 0 {
      OutsVisible(cap, pages, s - 1, |pages[s - 1]|);
    }
  }

  lemma LiveVacuumed(cap: nat, core: seq<seq<Entry>>)
    requires |core| > 0
    ensures LiveRows(Vacuumed(cap, core)) == LiveRows(core) && Clean(Vacuumed(cap, core))
  {
    OutsVisible(cap, core, |core| - 1, |core[|core| - 1]|);
    VacuumedFlat(cap, core);
    SurviveAllClean(Vacuumed(cap, core), |Vacuumed(cap, core)|);
  }

  // Pages that are passed keep their rows.
  lemma {:induction false} LiveSwept(pages: seq<seq<Entry>>, blind: set<nat>, m: nat)
    requires m <= |pages|
    requires forall j, i :: 0 <= j < m && j !in blind && 0 <= i < |pages[j]| ==> Live(pages[j][i])
    ensures LiveRows(Swept(pages, blind, m)) == LiveRows(pages[..m])
  {
    hide LiveRows, SweptPage, SurviveTo, Live;
    if m > 0 {
      var es := SweptPage(pages[m - 1], m - 1 in blind);
      LiveSwept(pages, blind, m - 1);
      assert Swept(pages, blind, m) == Swept(pages, blind, m - 1) + [es];
      assert pages[..m] == pages[..m - 1] + [pages[m - 1]];
      SweptSurvive(pages[m - 1], m - 1 in blind);
      hide Swept;
      LiveJoin(Swept(pages, blind, m - 1), [es]);
      LiveJoin(pages[..m - 1], [pages[m - 1]]);
      LiveOnePage(es);
      LiveOnePage(pages[m - 1]);
    } else {
      assert Swept(pages, blind, 0) == pages[..0];
    }
  }

  lemma SweptSurvive(es: seq<Entry>, blind: bool)
    requires !blind ==> forall i :: 0 <= i < |es| ==> Live(es[i])
    ensures Survive(SweptPage(es, blind)) == Survive(es)
  {
    if !blind {
      SweptLive(es, |es|);
    }
    hide SurviveTo;
  }

  lemma {:induction false} SweptLive(es: seq<Entry>, n: nat)
    requires n <= |es| && forall i :: 0 <= i < |es| ==> Live(es[i])
    ensures SurviveTo(SweptPage(es, false), n) == SurviveTo(es, n)
  {
    if n > 0 {
      SweptLive(es, n - 1);
      var x := es[n - 1];
      assert SweptPage(es, false)[n - 1] == Cleared(x) && Live(Cleared(x)) && Cleared(Cleared(x)) == Cleared(x);
    }
  }

  // A vacuum keeps exactly the rows that are not deleted, in order, but for those of a blind last page that it is
  // compacting up to.
  lemma VacuumRowsKept(cap: nat, pages: seq<seq<Entry>>, blind: set<nat>)
    requires |pages| > 0 && Sweepable(pages, blind)
    ensures LiveRows(AfterVacuum(cap, pages, blind)) + LostRows(cap, pages, blind) == LiveRows(pages)
  {
    hide SeenFrom, SeenPages, Swept, Vacuumed, AfterVacuum, EndsPacking, LiveRows;
    var n, m, core := |pages|, SeenFrom(|pages|, blind), SeenPages(pages, blind);
    var front: seq<seq<Entry>> := Swept(pages, blind, m);
    AfterVacuumIs(cap, pages, blind);
    LiveSwept(pages, blind, m);
    SeenSplit(pages, blind);
    var none: seq<seq<byte>> := [];
    if core == [] {
      assert pages[..m] == pages;
      assert !EndsPacking(cap, pages, blind) by {
        NonePacking(cap, pages, blind);
      }
      assert LiveRows(front) + none == LiveRows(front);
    } else {
      LiveVacuumed(cap, core);
      LiveJoin(front, Vacuumed(cap, core));
      LiveJoin(pages[..m], core);
      if n - 1 in blind {
        LiveJoin(front + Vacuumed(cap, core), [pages[n - 1]]);
        LiveJoin(pages[..m] + core, [pages[n - 1]]);
        LiveOnePage(pages[n - 1]);
      } else {
        var noPages: seq<seq<Entry>> := [];
        assert pages[..m] + core + noPages == pages[..m] + core;
      }
      assert LiveRows(AfterVacuum(cap, pages, blind)) + none == LiveRows(AfterVacuum(cap, pages, blind));
    }
  }

  lemma NonePacking(cap: nat, pages: seq<seq<Entry>>, blind: set<nat>)
    requires |pages| > 0 && SeenPages(pages, blind) == []
    ensures !EndsPacking(cap, pages, blind)
  {
  }

  lemma SeenSplit(pages: seq<seq<Entry>>, blind: set<nat>)
    requires |pages| > 0
    ensures var n, m, core := |pages|, SeenFrom(|pages|, blind), SeenPages(pages, blind);
            && m <= n && (core == [] ==> m == n && n - 1 in blind)
            && (core != [] ==> pages == pages[..m] + core + if n - 1 in blind then [pages[n - 1]] else [])
  {
  }

  // ---- groups where nothing is pending ----

  // The rows a scan meets are those a vacuum would keep.
  lemma {:induction false} VisibleIsLive(es: seq<Entry>, n: nat)
    requires n <= |es| && forall i :: 0 <= i < |es| ==> !IsNew(es[i].flags)
    ensures SurviveTo(es, n) + VisibleIn(es, n) == VisibleIn(es, 0)
  {
    if n > 0 {
      VisibleIsLive(es, n - 1);
      var one := if Visible(es[n - 1]) then [es[n - 1]] else [];
      assert SurviveTo(es, n) == SurviveTo(es, n - 1) + one;
      assert VisibleIn(es, n - 1) == one + VisibleIn(es, n);
      assert SurviveTo(es, n - 1) + one + VisibleIn(es, n) == SurviveTo(es, n - 1) + (one + VisibleIn(es, n));
    } else {
      assert SurviveTo(es, 0) + VisibleIn(es, 0) == VisibleIn(es, 0);
    }
  }

  lemma {:induction false} SettledScan(pages: seq<seq<Entry>>, n: nat)
    requires n <= |pages| && Settled(pages)
    ensures SurviveAll(pages, n) + VisibleFrom(pages, n, 0) == VisibleFrom(pages, 0, 0)
  {
    hide SurviveTo, VisibleIn;
    if n > 0 {
      var es := pages[n - 1];
      SettledScan(pages, n - 1);
      VisibleIsLive(es, |es|);
      VisibleNone(es);
      assert Survive(es) + [] == Survive(es);
      assert SurviveAll(pages, n - 1) + Survive(es) + VisibleFrom(pages, n, 0) ==
             SurviveAll(pages, n - 1) + (Survive(es) + VisibleFrom(pages, n, 0));
    } else {
      assert SurviveAll(pages, 0) + VisibleFrom(pages, 0, 0) == VisibleFrom(pages, 0, 0);
    }
  }

  lemma VisibleNone(es: seq<Entry>)
    ensures VisibleIn(es, |es|) == []
  {
  }

  lemma SettledRows(pages: seq<seq<Entry>>)
    requires Settled(pages)
    ensures Payloads(VisibleFrom(pages, 0, 0)) == LiveRows(pages)
    ensures AllLive(pages) == multiset(LiveRows(pages))
  {
    SettledScan(pages, |pages|);
    assert SurviveAll(pages, |pages|) + [] == SurviveAll(pages, |pages|);
    SurviveAllBag(pages, |pages|);
  }

  lemma {:induction false} KeptSettled(pred: seq<byte> -> bool, pages: seq<seq<Entry>>, n: nat)
    requires n <= |pages| && Settled(pages)
    ensures KeptAll(pred, pages, n) == Reject(pred, Payloads(SurviveAll(pages, n)))
  {
    hide SurviveTo, KeptTo, Payloads, Reject;
    if n > 0 {
      KeptSettled(pred, pages, n - 1);
      KeptSettledPage(pred, pages[n - 1], |pages[n - 1]|);
      PayloadsAppend(SurviveAll(pages, n - 1), Survive(pages[n - 1]));
      RejectAppend(pred, Payloads(SurviveAll(pages, n - 1)), Payloads(Survive(pages[n - 1])));
    } else {
      PayloadsAppend([], []);
      RejectNone(pred);
    }
  }

  lemma RejectNone(pred: seq<byte> -> bool)
    ensures Reject(pred, []) == []
  {
  }

  lemma {:induction false} KeptSettledPage(pred: seq<byte> -> bool, es: seq<Entry>, n: nat)
    requires n <= |es| && forall i :: 0 <= i < |es| ==> !IsNew(es[i].flags)
    ensures KeptTo(pred, es, n) == Reject(pred, Payloads(SurviveTo(es, n)))
  {
    if n > 0 {
      KeptSettledPage(pred, es, n - 1);
      var e := es[n - 1];
      if !IsDeleted(e.flags) {
        PayloadsAppend(SurviveTo(es, n - 1), [e]);
        assert Payloads([e]) == [e.payload];
        RejectAppend(pred, Payloads(SurviveTo(es, n - 1)), [e.payload]);
        assert Reject(pred, [e.payload]) == Reject(pred, []) + if pred(e.payload) then [] else [e.payload];
      } else {
        assert SurviveTo(es, n) == SurviveTo(es, n - 1);
      }
    }
  }

  // f keeps the flags and turns the payload of a visible entry with r.
  ghost predicate FlagWise(f: Entry -> Entry, r: seq<byte> -> seq<byte>)
  {
    forall e: Entry :: f(e).flags == e.flags && (Visible(e) ==> f(e).payload == r(e.payload))
  }

  lemma {:induction false} MapSettled(f: Entry -> Entry, r: seq<byte> -> seq<byte>, pages: seq<seq<Entry>>, n: nat)
    requires n <= |pages| && Settled(pages) && FlagWise(f, r)
    ensures Payloads(SurviveAll(MapPages(f, pages), n)) == Map(r, Payloads(SurviveAll(pages, n)))
  {
    hide SurviveTo, Payloads, FlagWise, Map;
    if n > 0 {
      MapSettled(f, r, pages, n - 1);
      MapSettledPage(f, r, pages[n - 1], |pages[n - 1]|);
      PayloadsAppend(SurviveAll(MapPages(f, pages), n - 1), Survive(Map(f, pages[n - 1])));
      PayloadsAppend(SurviveAll(pages, n - 1), Survive(pages[n - 1]));
      MapRowsAppend(r, Payloads(SurviveAll(pages, n - 1)), Payloads(Survive(pages[n - 1])));
    } else {
      PayloadsAppend([], []);
      MapNone(r);
    }
  }

  lemma MapNone(r: seq<byte> -> seq<byte>)
    ensures Map(r, []) == []
  {
  }

  lemma {:induction false} MapSettledPage(f: Entry -> Entry, r: seq<byte> -> seq<byte>, es: seq<Entry>, n: nat)
    requires n <= |es| && FlagWise(f, r) && forall i :: 0 <= i < |es| ==> !IsNew(es[i].flags)
    ensures Payloads(SurviveTo(Map(f, es), n)) == Map(r, Payloads(SurviveTo(es, n)))
  {
    if n > 0 {
      MapSettledPage(f, r, es, n - 1);
      var e := es[n - 1];
      assert Map(f, es)[n - 1] == f(e) && f(e).flags == e.flags;
      if !IsDeleted(e.flags) {
        PayloadsAppend(SurviveTo(Map(f, es), n - 1), [f(e)]);
        PayloadsAppend(SurviveTo(es, n - 1), [e]);
        assert Payloads([f(e)]) == [r(e.payload)] == Map(r, Payloads([e]));
        MapRowsAppend(r, Payloads(SurviveTo(es, n - 1)), Payloads([e]));
        assert SurviveTo(Map(f, es), n) == SurviveTo(Map(f, es), n - 1) + [f(e)];
        assert SurviveTo(es, n) == SurviveTo(es, n - 1) + [e];
      } else {
        assert SurviveTo(Map(f, es), n) == SurviveTo(Map(f, es), n - 1);
        assert SurviveTo(es, n) == SurviveTo(es, n - 1);
      }
    }
  }

  lemma MarkSettles(pred: seq<byte> -> bool, pages: seq<seq<Entry>>)
    requires Settled(pages)
    ensures Settled(MapPages(Marked(pred), pages))
  {
  }

  lemma MapSettles(f: Entry -> Entry, r: seq<byte> -> seq<byte>, pages: seq<seq<Entry>>)
    requires Settled(pages) && FlagWise(f, r)
    ensures Settled(MapPages(f, pages))
  {
  }

  // A vacuum leaves nothing pending, unless it is on a blind page.
  lemma VacuumSettles(cap: nat, pages: seq<seq<Entry>>, blind: set<nat>)
    requires |pages| > 0
    requires forall j, i :: j in blind && 0 <= j < |pages| && 0 <= i < |pages[j]| ==> !IsNew(pages[j][i].flags)
    ensures Settled(AfterVacuum(cap, pages, blind))
  {
    var n, m, core := |pages|, SeenFrom(|pages|, blind), SeenPages(pages, blind);
    AfterVacuumIs(cap, pages, blind);
    if core != [] {
      LiveVacuumed(cap, core);
    }
    hide AfterVacuum, Vacuumed, SeenPages, SeenFrom, EndsPacking;
    var front: seq<seq<Entry>> := Swept(pages, blind, m);
    forall j: nat, i: nat | j < m && i < |front[j]|
      ensures !IsNew(front[j][i].flags)
    {
    }
    if core != [] {
      CleanSettled(Vacuumed(cap, core));
      SettledJoin(front, Vacuumed(cap, core));
      if n - 1 in blind {
        SettledJoin(front + Vacuumed(cap, core), [pages[n - 1]]);
      }
    }
  }

  lemma CleanSettled(pages: seq<seq<Entry>>)
    requires Clean(pages)
    ensures Settled(pages)
  {
    forall j, i | 0 <= j < |pages| && 0 <= i < |pages[j]|
      ensures !IsNew(pages[j][i].flags)
    {
      assert AllVisible(pages[j]) && Visible(pages[j][i]);
    }
  }

  lemma SettledJoin(a: seq<seq<Entry>>, b: seq<seq<Entry>>)
    requires Settled(a) && Settled(b)
    ensures Settled(a + b)
  {
  }
}
