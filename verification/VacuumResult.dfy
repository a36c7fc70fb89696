/** The pages a vacuum leaves, as a function of the pages before it. A blind page is one whose free space starts at
    0 whatever it holds: the loop sees no slot of it. */
module VacuumResult {
  import opened SlottedPage
  import opened Compaction
  import opened CompactionRun

  // The first page behind the last blind page among pages 0..n-1.
  function StartTo(blind: set<nat>, n: nat): (m: nat)
    ensures m <= n
    ensures forall j :: m <= j < n ==> j !in blind
    ensures m > 0 ==> m - 1 in blind
  {
    if n == 0 || n - 1 in blind then n else StartTo(blind, n - 1)
  }

  // Where the pages begin that are compacted: behind every blind page but the last of the chain.
  function SeenFrom(n: nat, blind: set<nat>): (m: nat)
    requires n > 0
    ensures m <= n
    ensures forall j :: m <= j < n - 1 ==> j !in blind
    ensures n - 1 in blind ==> m != n - 1
    ensures m == n ==> n - 1 in blind
  {
    var m := StartTo(blind, n - 1);
    if m == n - 1 && m in blind then n else m
  }

  // The pages that are compacted: a blind last page is not among them.
  function SeenPages(pages: seq<seq<Entry>>, blind: set<nat>): (r: seq<seq<Entry>>)
    requires |pages| > 0
    ensures var n, m := |pages|, SeenFrom(|pages|, blind);
            m + |r| + (if m < n && n - 1 in blind then 1 else 0) == n
    ensures r == [] <==> SeenFrom(|pages|, blind) == |pages|
  {
    var n, m := |pages|, SeenFrom(|pages|, blind);
    if m == n then [] else pages[m..if n - 1 in blind then n - 1 else n]
  }

  // A page passed before the compaction: only its new flags are cleared, and not those of a blind page.
  function SweptPage(es: seq<Entry>, blind: bool): (r: seq<Entry>)
    ensures |r| == |es|
  {
    if blind then es else seq(|es|, i requires 0 <= i < |es| => Cleared(es[i]))
  }

  function Swept(pages: seq<seq<Entry>>, blind: set<nat>, m: nat): (r: seq<seq<Entry>>)
    requires m <= |pages|
    ensures |r| == m
  {
    seq(m, j requires 0 <= j < m => SweptPage(pages[j], j in blind))
  }

  lemma SweptAt(pages: seq<seq<Entry>>, blind: set<nat>, m: nat, j: nat)
    requires j < m <= |pages|
    ensures Swept(pages, blind, m)[j] == SweptPage(pages[j], j in blind)
  {
  }

  // Nothing is removed before a blind page other than the last.
  ghost predicate Sweepable(pages: seq<seq<Entry>>, blind: set<nat>)
    requires |pages| > 0
  {
    forall j, i :: 0 <= j < SeenFrom(|pages|, blind) && j !in blind && 0 <= i < |pages[j]| ==> Live(pages[j][i])
  }

  // Is the run still compacting behind the last page it looks into?
  predicate EndsPacking(cap: nat, pages: seq<seq<Entry>>, blind: set<nat>)
    requires |pages| > 0
  {
    SeenPages(pages, blind) != [] && FinalCursor(cap, SeenPages(pages, blind)).Packing?
  }

  // The pages after a vacuum: a blind last page is released with all it holds, or stays as it is.
  function AfterVacuum(cap: nat, pages: seq<seq<Entry>>, blind: set<nat>): (r: seq<seq<Entry>>)
    requires |pages| > 0
    ensures |r| > 0
  {
    var n, core := |pages|, SeenPages(pages, blind);
    Swept(pages, blind, SeenFrom(n, blind))
    + (if core == [] then [] else Vacuumed(cap, core))
    + (if core != [] && n - 1 in blind && !EndsPacking(cap, pages, blind) then [pages[n - 1]] else [])
  }

  lemma AfterVacuumIs(cap: nat, pages: seq<seq<Entry>>, blind: set<nat>)
    requires |pages| > 0
    ensures var n, core, outs := |pages|, SeenPages(pages, blind), AfterVacuum(cap, pages, blind);
            var front := Swept(pages, blind, SeenFrom(n, blind));
            && (core == [] ==> outs == front)
            && (core != [] && (n - 1 !in blind || EndsPacking(cap, pages, blind)) ==>
                  outs == front + Vacuumed(cap, core))
            && (core != [] && n - 1 in blind && !EndsPacking(cap, pages, blind) ==>
                  outs == front + Vacuumed(cap, core) + [pages[n - 1]])
  {
    hide SeenFrom, SeenPages, Swept, Vacuumed, EndsPacking;
    var none: seq<seq<Entry>> := [];
    var front := Swept(pages, blind, SeenFrom(|pages|, blind));
    assert front + none + none == front;
    if SeenPages(pages, blind) != [] {
      assert front + Vacuumed(cap, SeenPages(pages, blind)) + none == front + Vacuumed(cap, SeenPages(pages, blind));
    }
  }

  lemma AfterLength(cap: nat, pages: seq<seq<Entry>>, blind: set<nat>)
    requires |pages| > 0
    ensures var outs, m := AfterVacuum(cap, pages, blind), SeenFrom(|pages|, blind);
            m <= |outs| && (m == |outs| ==> SeenPages(pages, blind) == [])
  {
  }

  // The free-space pointers of the last page are right after the last write.
  predicate FitAfter(cap: nat, pages: seq<seq<Entry>>, blind: set<nat>, repaired: bool)
    requires |pages| > 0
  {
    var core := SeenPages(pages, blind);
    core != [] && if |pages| - 1 in blind then EndsPacking(cap, pages, blind) else repaired || ClosesWell(cap, core)
  }

  // What dest_item_index holds at the end when nothing is being compacted.
  function EndIndex(cap: nat, pages: seq<seq<Entry>>, blind: set<nat>): nat
    requires |pages| > 0
  {
    var core := SeenPages(pages, blind);
    if core != [] && FinalCursor(cap, core).Idle? then FinalCursor(cap, core).stale else 0
  }

  // Where the pages with wrong pointers are afterwards.
  function BlindAfter(cap: nat, pages: seq<seq<Entry>>, blind: set<nat>, repaired: bool): set<nat>
    requires |pages| > 0
  {
    (set j | 0 <= j < SeenFrom(|pages|, blind) && j in blind)
    + if FitAfter(cap, pages, blind, repaired) then {} else {|AfterVacuum(cap, pages, blind)| - 1}
  }

  ghost predicate NothingToRemove(pages: seq<seq<Entry>>)
  {
    forall j, i :: 0 <= j < |pages| && 0 <= i < |pages[j]| ==> Live(pages[j][i])
  }

  lemma {:induction false} StaysIdle(cap: nat, pages: seq<seq<Entry>>, s: nat, i: nat)
    requires NothingToRemove(pages) && s < |pages| && i <= |pages[s]|
    ensures CursorAt(cap, pages, s, i) == Idle(0)
    decreases s, i
  {
    if i > 0 {
      StaysIdle(cap, pages, s, i - 1);
    } else if s > 0 {
      StaysIdle(cap, pages, s - 1, |pages[s - 1]|);
    }
  }

  // With the repair only a blind last page that stays is not fit.
  lemma RepairedLast(cap: nat, pages: seq<seq<Entry>>, blind: set<nat>)
    requires |pages| > 0
    ensures !FitAfter(cap, pages, blind, true) ==>
              |AfterVacuum(cap, pages, blind)| == |pages| && |pages| - 1 in blind
  {
    AfterVacuumIs(cap, pages, blind);
    var core := SeenPages(pages, blind);
    if core != [] {
      OutsLength(cap, core, |core| - 1, |core[|core| - 1]|);
    }
    hide AfterVacuum, CursorAt, OutsAt;
  }

  // The pages up to the destination.
  lemma {:induction false} OutsLength(cap: nat, pages: seq<seq<Entry>>, s: nat, i: nat)
    requires s < |pages| && i <= |pages[s]|
    ensures |OutsAt(cap, pages, s, i)| == match CursorAt(cap, pages, s, i)
                                          case Idle(_) => s + 1
                                          case Packing(d, _, _) => d + 1
    decreases s, i
  {
    if i > 0 {
      OutsLength(cap, pages, s, i - 1);
    } else if s > 0 {
      OutsLength(cap, pages, s - 1, |pages[s - 1]|);
    }
  }

  lemma NoneSeen(cap: nat, pages: seq<seq<Entry>>, blind: set<nat>, repaired: bool)
    requires |pages| > 0 && SeenPages(pages, blind) == []
    ensures !FitAfter(cap, pages, blind, repaired)
  {
  }

  // The free-space ends of the blind pages, by position, afterwards.
  function EndsAfter(cap: nat, pages: seq<seq<Entry>>, ends: map<nat, nat>, repaired: bool): (r: map<nat, nat>)
    requires |pages| > 0
    ensures r.Keys == BlindAfter(cap, pages, ends.Keys, repaired)
  {
    var last := |AfterVacuum(cap, pages, ends.Keys)| - 1;
    map j | j in BlindAfter(cap, pages, ends.Keys, repaired) ::
      if j == last && !repaired then EndIndex(cap, pages, ends.Keys) else if j in ends then ends[j] else 0
  }

  // Without blind pages the whole chain is compacted.
  lemma NoneBlind(cap: nat, pages: seq<seq<Entry>>)
    requires |pages| > 0
    ensures SeenFrom(|pages|, {}) == 0 && SeenPages(pages, {}) == pages && Sweepable(pages, {})
    ensures AfterVacuum(cap, pages, {}) == Vacuumed(cap, pages)
    ensures FitAfter(cap, pages, {}, true)
    ensures FitAfter(cap, pages, {}, false) <==> ClosesWell(cap, pages)
  {
    hide Vacuumed, ClosesWell, FinalCursor;
    assert pages[0..|pages|] == pages;
    var none: seq<seq<Entry>> := [];
    assert none + Vacuumed(cap, pages) + none == Vacuumed(cap, pages);
  }
}
