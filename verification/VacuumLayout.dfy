/** When a vacuum, as the code has it, leaves a group that can be written to again. */
module VacuumLayout {
  import opened SlottedPage
  import opened Compaction
  import opened CompactionRun
  import opened VacuumResult
  import opened Vacuum

  // A vacuum that finds nothing to remove always leaves the last page with no free space recorded:
  // every update in place and every deletion without a match ends like this.
  lemma IdleVacuumBreaksLayout(cap: nat, pages: seq<seq<Entry>>)
    requires |pages| > 0 && cap > 0 && NothingToRemove(pages)
    ensures !KeepsLayout(cap, pages)
  {
    StaysIdle(cap, pages, |pages| - 1, |pages[|pages| - 1]|);
  }

  lemma {:induction false} PackingAfter(cap: nat, pages: seq<seq<Entry>>, s: nat, k: nat, i: nat)
    requires s < |pages| && k < i <= |pages[s]| && !Live(pages[s][k])
    ensures CursorAt(cap, pages, s, i).Packing?
    decreases i
  {
    if i > k + 1 {
      PackingAfter(cap, pages, s, k, i - 1);
    }
  }

  // A deleted slot in the last page makes the final write right.
  lemma LastPageDeletionCloses(cap: nat, pages: seq<seq<Entry>>, k: nat)
    requires |pages| > 0 && k < |pages[|pages| - 1]| && !Live(pages[|pages| - 1][k])
    ensures ClosesWell(cap, pages)
  {
    PackingAfter(cap, pages, |pages| - 1, k, |pages[|pages| - 1]|);
  }

  // Inside the only page the destination cursor trails the source cursor.
  lemma {:induction false} OnePageCursor(cap: nat, pages: seq<seq<Entry>>, i: nat)
    requires |pages| == 1 && Holds(cap, pages[0]) && i <= |pages[0]|
    ensures match CursorAt(cap, pages, 0, i)
            case Idle(stale) => stale == 0 && forall k :: 0 <= k < i ==> Live(pages[0][k])
            case Packing(d, count, used) =>
              && d == 0 && count < i && used <= UsedTo(pages[0], i)
              && exists k :: 0 <= k < i && !Live(pages[0][k])
    decreases i
  {
    if i > 0 {
      OnePageCursor(cap, pages, i - 1);
      UsedMonotone(pages[0], i, |pages[0]|);
      assert CursorAt(cap, pages, 0, i) == StepCursor(cap, CursorAt(cap, pages, 0, i - 1), pages[0], 0, i - 1);
    }
  }

  // A group of one page can be written to again exactly when there was something to remove.
  lemma OnePageLayout(cap: nat, pages: seq<seq<Entry>>)
    requires |pages| == 1 && cap > 0 && Holds(cap, pages[0])
    ensures KeepsLayout(cap, pages) <==> exists k :: 0 <= k < |pages[0]| && !Live(pages[0][k])
  {
    OnePageCursor(cap, pages, |pages[0]|);
  }

  // ---- a page is released ----

  // A removed entry in the first page makes room for the only entry of the second: the last write is right,
  // but the second page is released, and the head still points back to it.
  lemma TwoPagesRelease(cap: nat, x: Entry, y: Entry)
    requires !Live(x) && Live(y) && SLOT_SIZE + |y.payload| <= cap
    ensures var pages := [[x], [y]];
            && Vacuumed(cap, pages) == [[Cleared(y)]] && FinalPage(cap, pages) == 0
            && ClosesWell(cap, pages) && !KeepsLayout(cap, pages)
  {
    var pages := [[x], [y]];
    assert CursorAt(cap, pages, 0, 1) == Packing(0, 0, 0);
    assert CursorAt(cap, pages, 1, 0) == Packing(0, 0, 0);
    assert CursorAt(cap, pages, 1, 1) == Packing(0, 1, |y.payload|);
    assert OutsAt(cap, pages, 0, 1) == [[]];
    var none: seq<seq<Entry>> := [[]];
    assert OutsAt(cap, pages, 1, 0) == none + [] == none;
    assert OutsAt(cap, pages, 1, 1) == AppendToLast(none, Cleared(y));
    assert [] + [Cleared(y)] == [Cleared(y)];
  }

  // ---- a vacuum behind an idle one ----

  lemma {:induction false} OutsFlat(cap: nat, pages: seq<seq<Entry>>, s: nat, i: nat)
    requires s < |pages| && i <= |pages[s]|
    ensures Flat(OutsAt(cap, pages, s, i)) == SurviveAll(pages, s) + SurviveTo(pages[s], i)
    decreases s, i
  {
    hide CursorAt;
    if i > 0 {
      var outs, x := OutsAt(cap, pages, s, i - 1), Cleared(pages[s][i - 1]);
      OutsFlat(cap, pages, s, i - 1);
      FlatAppend(outs, x);
      FlatMore(outs, [x]);
      assert SurviveAll(pages, s) + (SurviveTo(pages[s], i - 1) + [x]) ==
        SurviveAll(pages, s) + SurviveTo(pages[s], i - 1) + [x];
    } else if s > 0 {
      OutsFlat(cap, pages, s - 1, |pages[s - 1]|);
      OutsNextPage(cap, pages, s);
      assert SurviveAll(pages, s) == SurviveAll(pages, s - 1) + Survive(pages[s - 1]);
      assert SurviveAll(pages, s) + SurviveTo(pages[s], 0) == SurviveAll(pages, s);
    } else {
      var none: seq<seq<Entry>> := [[]];
      assert FlatTo(none, 1) == FlatTo(none, 0) + [];
    }
  }

  lemma OutsNextPage(cap: nat, pages: seq<seq<Entry>>, s: nat)
    requires 0 < s < |pages|
    ensures Flat(OutsAt(cap, pages, s, 0)) == Flat(OutsAt(cap, pages, s - 1, |pages[s - 1]|))
  {
    hide CursorAt;
    var outs := OutsAt(cap, pages, s - 1, |pages[s - 1]|);
    FlatMore(outs, []);
    assert outs + [] == outs && Flat(outs) + [] == Flat(outs);
  }

  lemma FlatAppend(outs: seq<seq<Entry>>, x: Entry)
    requires |outs| > 0
    ensures Flat(AppendToLast(outs, x)) == Flat(outs) + [x]
  {
    FlatExtendLast(outs, |outs| - 1, x);
  }

  lemma FlatMore(outs: seq<seq<Entry>>, es: seq<Entry>)
    ensures Flat(outs + [es]) == Flat(outs) + es
  {
    FlatPrefix(outs + [es], outs, |outs|);
  }

  // Exactly the survivors, in order, whatever the sizes.
  lemma VacuumedFlat(cap: nat, pages: seq<seq<Entry>>)
    requires |pages| > 0
    ensures Flat(Vacuumed(cap, pages)) == SurviveAll(pages, |pages|)
  {
    OutsFlat(cap, pages, |pages| - 1, |pages[|pages| - 1]|);
  }

  // A blind last page behind pages that are compacted is not looked into. It keeps its entries, with their flags,
  // exactly when the run is not compacting when it gets there; otherwise it is released with all of them.
  lemma BlindPageLost(cap: nat, pages: seq<seq<Entry>>, blind: set<nat>)
    requires |pages| > 0 && |pages| - 1 in blind && SeenPages(pages, blind) != []
    ensures var n, m, core := |pages|, SeenFrom(|pages|, blind), SeenPages(pages, blind);
            var lost, rest := EndsPacking(cap, pages, blind), Flat(Swept(pages, blind, m)) + SurviveAll(core, |core|);
            && lost == CursorAt(cap, core, |core| - 1, |core[|core| - 1]|).Packing?
            && Flat(AfterVacuum(cap, pages, blind)) == rest + (if lost then [] else pages[n - 1])
            && (pages[n - 1] != [] ==> (!lost <==> Flat(AfterVacuum(cap, pages, blind)) == rest + pages[n - 1]))
  {
    hide CursorAt, Vacuumed, SurviveAll, SeenFrom, SeenPages, Swept;
    var n, core := |pages|, SeenPages(pages, blind);
    var front := Swept(pages, blind, SeenFrom(n, blind));
    AfterVacuumIs(cap, pages, blind);
    VacuumedFlat(cap, core);
    FlatJoin(front, Vacuumed(cap, core));
    FlatMore(front + Vacuumed(cap, core), pages[n - 1]);
    hide AfterVacuum, Flat;
    var rest := Flat(front) + SurviveAll(core, |core|);
    assert rest + [] == rest;
    if pages[n - 1] != [] {
      assert |rest + pages[n - 1]| > |rest|;
    }
  }

  lemma {:induction false} FlatJoin(a: seq<seq<Entry>>, b: seq<seq<Entry>>)
    ensures Flat(a + b) == Flat(a) + Flat(b)
    decreases |b|
  {
    if b == [] {
      assert a + b == a;
    } else {
      var front, es := b[..|b| - 1], b[|b| - 1];
      FlatJoin(a, front);
      FlatMore(a + front, es);
      FlatMore(front, es);
      assert a + b == (a + front) + [es] && b == front + [es];
      assert Flat(a) + Flat(front) + es == Flat(a) + (Flat(front) + es);
    }
  }

  // A removed entry in the first page, a row in the second, which an idle vacuum left blind: the row is lost.
  lemma BlindRowLost(cap: nat, x: Entry, y: Entry)
    requires !Live(x) && Visible(y)
    ensures AfterVacuum(cap, [[x], [y]], {1}) == [[]]
  {
    var pages := [[x], [y]];
    assert pages[0..1] == [[x]] && SeenFrom(2, {1}) == 0 && SeenPages(pages, {1}) == [[x]];
    assert CursorAt(cap, [[x]], 0, 1) == Packing(0, 0, 0);
    assert OutsAt(cap, [[x]], 0, 0) == [[]];
    assert OutsAt(cap, [[x]], 0, 1) == [[]];
    AfterVacuumIs(cap, pages, {1});
    assert Swept(pages, {1}, 0) == [];
  }
}
