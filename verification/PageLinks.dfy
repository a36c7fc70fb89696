/** What the link updates of the page group manager do to the lists, on values. */
module PageLinks {
  import opened PageLists

  // The state of the page group manager: page headers and application header.
  datatype Headers = Headers(links: map<PageId, Links>, firstFree: PageId, lastFree: PageId, pageAmount: nat)

  // The invariant, except that `next` of the last free page may be wrong (loose)
  // and `previous` of the heads `stale` may be wrong.
  ghost predicate GroupsInv(h: Headers, lists: Lists, place: map<PageId, Place>, loose: bool, stale: set<PageId>)
  {
    && stale <= lists.Keys
    && Partition(lists, place, h.pageAmount)
    && Linked(h.links, lists, place, loose, stale)
    && h.firstFree == First(lists[NULL_ID])
    && h.lastFree == Last(lists[NULL_ID])
  }

  // ---- what the link updates do to the lists ----

  // Pop the head of the free list: the second page becomes the first.
  function LinksAfterPop(links: map<PageId, Links>, free: seq<PageId>): map<PageId, Links>
    requires |free| > 1 ==> free[1] in links
  {
    if |free| > 1 then links[free[1] := links[free[1]].(previous := NULL_ID)] else links
  }

  // Pop or mint, then reset the header of the page taken.
  function LinksAfterTake(links: map<PageId, Links>, lists: Lists, id: PageId): map<PageId, Links>
    requires NULL_ID in lists
    requires |lists[NULL_ID]| > 1 ==> lists[NULL_ID][1] in links
  {
    LinksAfterPop(links, lists[NULL_ID])[id := Links(NULL_ID, NULL_ID)]
  }

  // What popping needs to know about the head of the free list.
  ghost predicate FreeHead(links: map<PageId, Links>, free: seq<PageId>)
  {
    && (free != [] ==> free[0] != NULL_ID && free[0] in links && links[free[0]].next == NextIn(free, 0))
    && (|free| > 1 ==> free[1] != NULL_ID && free[1] in links)
  }

  lemma FreeHeadOf(links: map<PageId, Links>, lists: Lists, place: map<PageId, Place>, n: nat,
                   stale: set<PageId>)
    requires Partition(lists, place, n) && Linked(links, lists, place, false, stale)
    ensures NULL_ID in lists && FreeHead(links, lists[NULL_ID])
  {
    if lists[NULL_ID] != [] {
      PlaceOf(lists, place, n, NULL_ID, 0);
    }
    if |lists[NULL_ID]| > 1 {
      PlaceOf(lists, place, n, NULL_ID, 1);
    }
  }

  lemma TakeLinked(links: map<PageId, Links>, lists: Lists, place: map<PageId, Place>, n: nat, id: PageId,
                   stale: set<PageId>)
    requires Partition(lists, place, n) && Linked(links, lists, place, false, stale)
    requires if lists[NULL_ID] == [] then id == n + 1 else id == lists[NULL_ID][0]
    requires |lists[NULL_ID]| > 1 ==> lists[NULL_ID][1] in links
    ensures Linked(LinksAfterTake(links, lists, id), TakeNew(lists, id), TakeNewPlace(lists, place, id), false,
            stale + {id})
  {
    NewPageIsNoGroup(lists, place, n, id);
    TakeNewLocated(lists, place, id);
    TakeNextLinked(links, lists, place, id, stale);
    TakePreviousLinked(links, lists, place, id, stale);
  }

  lemma TakeNextLinked(links: map<PageId, Links>, lists: Lists, place: map<PageId, Place>, id: PageId,
                       stale: set<PageId>)
    requires NULL_ID in lists && id != NULL_ID && id !in lists && Located(lists, place)
    requires Linked(links, lists, place, false, stale)
    requires lists[NULL_ID] != [] ==> id == lists[NULL_ID][0]
    requires |lists[NULL_ID]| > 1 ==> lists[NULL_ID][1] in links
    requires Located(TakeNew(lists, id), TakeNewPlace(lists, place, id))
    ensures var links', lists', place' := LinksAfterTake(links, lists, id), TakeNew(lists, id),
            TakeNewPlace(lists, place, id);
            && links'.Keys == place'.Keys
            && forall x :: x in place' ==> At(lists', place'[x], x) && links'[x].next == ExpectedNext(lists', place'[x])
  {
    var links', lists', place' := LinksAfterTake(links, lists, id), TakeNew(lists, id), TakeNewPlace(lists, place, id);
    forall x | x in place'
      ensures At(lists', place'[x], x) && links'[x].next == ExpectedNext(lists', place'[x])
    {
      if x != id {
        assert At(lists, place[x], x);
        assert links[x].next == ExpectedNext(lists, place[x]);
      }
    }
  }

  lemma TakePreviousLinked(links: map<PageId, Links>, lists: Lists, place: map<PageId, Place>, id: PageId,
                           stale: set<PageId>)
    requires NULL_ID in lists && id != NULL_ID && id !in lists && Located(lists, place)
    requires Linked(links, lists, place, false, stale)
    requires lists[NULL_ID] != [] ==> id == lists[NULL_ID][0]
    requires NULL_ID !in place
    requires |lists[NULL_ID]| > 1 ==>
               var second := lists[NULL_ID][1];
               second in links && second in place && place[second] == Place(NULL_ID, 1)
    requires Located(TakeNew(lists, id), TakeNewPlace(lists, place, id))
    ensures var links', lists', place' := LinksAfterTake(links, lists, id), TakeNew(lists, id),
            TakeNewPlace(lists, place, id);
            forall x :: x in place' && x != id && x !in stale && x in links' ==>
              At(lists', place'[x], x) && links'[x].previous == ExpectedPrevious(lists', place'[x])
  {
    var links', lists', place' := LinksAfterTake(links, lists, id), TakeNew(lists, id), TakeNewPlace(lists, place, id);
    forall x | x in place' && x != id && x !in stale && x in links'
      ensures At(lists', place'[x], x) && links'[x].previous == ExpectedPrevious(lists', place'[x])
    {
      assert At(lists, place[x], x);
      assert links[x].previous == ExpectedPrevious(lists, place[x]);
    }
  }

  // Chain the taken page behind the last page of group g, in the order of the code.
  function LinksAfterAttach(links: map<PageId, Links>, g: PageId, id: PageId): map<PageId, Links>
    requires g in links && id in links && links[g].previous in links
  {
    var oldLast := links[g].previous;
    var l1 := links[g := links[g].(previous := id)];
    var l2 := l1[id := Links(oldLast, NULL_ID)];
    l2[oldLast := l2[oldLast].(next := id)]
  }

  // One page other than the new one, by its place.
  lemma AttachLinkedAt(links: map<PageId, Links>, lists: Lists, g: PageId, id: PageId, x: PageId, p: Place)
    requires g in lists && |lists[g]| > 0 && g in links && id in links && x in links
    requires links[g].previous == Last(lists[g]) && Last(lists[g]) in links
    requires x != id && p.list != id && p.list in lists && p.index < |lists[p.list]|
    requires links[x].next == ExpectedNext(lists, p)
    requires g != NULL_ID
    requires x == g <==> p == Place(g, 0)
    requires x == Last(lists[g]) <==> p == Place(g, |lists[g]| - 1)
    ensures var links', lists' := LinksAfterAttach(links, g, id), Attach(lists, g, id);
            && p.list in lists' && p.index < |lists'[p.list]|
            && links'[x].next == ExpectedNext(lists', p)
            && (links[x].previous == ExpectedPrevious(lists, p) ==> links'[x].previous == ExpectedPrevious(lists', p))
  {
  }

  lemma AttachLinked(links: map<PageId, Links>, lists: Lists, place: map<PageId, Place>, n: nat, g: PageId, id: PageId,
                     stale: set<PageId>)
    requires Partition(lists, place, n) && Linked(links, lists, place, false, stale + {id})
    requires g !in stale && id !in stale
    requires g in lists && g != NULL_ID && id in lists && lists[id] == [id] && id != g && id != NULL_ID
    requires g in links && id in links && links[g].previous in links
    ensures Linked(LinksAfterAttach(links, g, id), Attach(lists, g, id), place[id := Place(g, |lists[g]|)], false,
            stale)
  {
    PlaceOf(lists, place, n, g, 0);
    PlaceOf(lists, place, n, g, |lists[g]| - 1);
    PlaceOf(lists, place, n, id, 0);
    AttachLinkedFrom(links, lists, place, g, id, stale);
  }

  lemma AttachLinkedFrom(links: map<PageId, Links>, lists: Lists, place: map<PageId, Place>, g: PageId, id: PageId,
                         stale: set<PageId>)
    requires Linked(links, lists, place, false, stale + {id}) && g !in stale && id !in stale
    requires g in lists && g != NULL_ID && id in lists && lists[id] == [id] && id != g && id != NULL_ID
    requires |lists[g]| > 0 && lists[g][0] == g && lists[g][|lists[g]| - 1] in place
    requires forall x :: x in place ==> (x == g <==> place[x] == Place(g, 0))
    requires forall x :: x in place ==> (x == Last(lists[g]) <==> place[x] == Place(g, |lists[g]| - 1))
    requires forall x :: x in place ==> (x == id <==> place[x] == Place(id, 0))
    requires g in links && id in links && links[g].previous in links
    ensures Linked(LinksAfterAttach(links, g, id), Attach(lists, g, id), place[id := Place(g, |lists[g]|)], false,
            stale)
  {
    var lists', place' := Attach(lists, g, id), place[id := Place(g, |lists[g]|)];
    var links' := LinksAfterAttach(links, g, id);
    assert links[g].previous == Last(lists[g]);
    forall x | x in place'
      ensures At(lists', place'[x], x)
      ensures links'[x].next == ExpectedNext(lists', place'[x])
      ensures x !in stale ==> links'[x].previous == ExpectedPrevious(lists', place'[x])
    {
      if x != id {
        assert At(lists, place[x], x);
        assert place[x].list != id;
        AttachLinkedAt(links, lists, g, id, x, place[x]);
      }
    }
  }

  // Take page x out of the chain it is in.
  function LinksAfterUnlink(links: map<PageId, Links>, x: PageId): map<PageId, Links>
    requires x in links
    requires links[x].previous != NULL_ID ==> links[x].previous in links
    requires links[x].next != NULL_ID ==> links[x].next in links
  {
    var previous, next := links[x].previous, links[x].next;
    var l1 := if previous != NULL_ID then links[previous := links[previous].(next := next)] else links;
    if next != NULL_ID then l1[next := l1[next].(previous := previous)] else l1
  }

  // Append page x to the free list whose last page is lastFree; x keeps its `next`
  // unless the free list was empty.
  function LinksAfterFree(links: map<PageId, Links>, lastFree: PageId, x: PageId): map<PageId, Links>
    requires x in links && (lastFree != NULL_ID ==> lastFree in links)
  {
    if lastFree == NULL_ID then links[x := Links(NULL_ID, NULL_ID)]
    else
      var l1 := links[lastFree := links[lastFree].(next := x)];
      l1[x := l1[x].(previous := lastFree)]
  }

  // The page x at position p of chain g, and a page y other than x with place q before
  // and q' after the cut.
  ghost predicate CutContext(links: map<PageId, Links>, lists: Lists, g: PageId, p: nat, y: PageId, q: Place, q': Place)
  {
    && NULL_ID in lists && g in lists && g != NULL_ID && 1 <= p < |lists[g]| && lists[g][0] == g
    && (var x := lists[g][p];
       && x in links && y in links && y != x && y != NULL_ID && x != NULL_ID
       && links[x].previous == lists[g][p - 1] && links[x].next == NextIn(lists[g], p)
       && lists[g][p - 1] in links && lists[g][p - 1] != NULL_ID
       && (p + 1 < |lists[g]| ==> lists[g][p + 1] in links && lists[g][p + 1] != NULL_ID)
       && (lists[NULL_ID] != [] ==>
             Last(lists[NULL_ID]) in links && Last(lists[NULL_ID]) != NULL_ID && Last(lists[NULL_ID]) != x))
    && At(lists, q, y)
    && (y == lists[g][p - 1] <==> q == Place(g, p - 1))
    && (y == NextIn(lists[g], p) <==> q == Place(g, p + 1))
    && (y == Last(lists[NULL_ID]) <==> IsLastFree(lists, q))
    && q != Place(g, p)
    && q' == if q.list == g && q.index > p then Place(g, q.index - 1) else q
  }

  // What the code does to the header of y.
  lemma CutHeaderOf(links: map<PageId, Links>, lists: Lists, g: PageId, p: nat, y: PageId, q: Place, q': Place)
    requires CutContext(links, lists, g, p, y, q, q')
    ensures var x := lists[g][p];
            var links' := LinksAfterFree(LinksAfterUnlink(links, x), Last(lists[NULL_ID]), x);
            && y in links'
            && links'[y].next == (if IsLastFree(lists, q) then x
                                  else if q == Place(g, p - 1) then NextIn(lists[g], p) else links[y].next)
            && links'[y].previous == (if q == Place(g, p + 1) then lists[g][p - 1] else links[y].previous)
  {
  }

  lemma CutPlaceOf(links: map<PageId, Links>, lists: Lists, g: PageId, p: nat, y: PageId, q: Place, q': Place)
    requires CutContext(links, lists, g, p, y, q, q')
    ensures var lists', x := CutOut(lists, g, p), lists[g][p];
            && At(lists', q', y)
            && ExpectedNext(lists', q') ==
               (if IsLastFree(lists, q) then x
                else if q == Place(g, p - 1) then NextIn(lists[g], p) else ExpectedNext(lists, q))
  {
  }

  lemma CutPreviousOf(links: map<PageId, Links>, lists: Lists, g: PageId, p: nat, y: PageId, q: Place, q': Place)
    requires CutContext(links, lists, g, p, y, q, q') && At(CutOut(lists, g, p), q', y)
    ensures var lists' := CutOut(lists, g, p);
            (y == g && p == |lists[g]| - 1)
            || ExpectedPrevious(lists', q') ==
               (if q == Place(g, p + 1) then lists[g][p - 1] else ExpectedPrevious(lists, q))
  {
    var lists' := CutOut(lists, g, p);
    if q.list == g {
      if q.index > 0 {
        assert q'.index > 0;
        assert lists'[g][q'.index - 1] ==
               if q.index == p + 1 then lists[g][p - 1] else lists[g][q.index - 1];
      } else {
        assert y == g && q' == q;
        assert p != |lists[g]| - 1 ==> Last(lists'[g]) == Last(lists[g]);
      }
    } else if q.list == NULL_ID {
      assert lists'[NULL_ID] == lists[NULL_ID] + [lists[g][p]];
    }
  }

  // The facts about neighbours that CutContext needs, for every page at once.
  ghost predicate Neighbours(links: map<PageId, Links>, lists: Lists, place: map<PageId, Place>, g: PageId, p: nat)
  {
    && NULL_ID in lists && g in lists && g != NULL_ID && 1 <= p < |lists[g]| && lists[g][0] == g
    && NULL_ID !in place && lists[g][p] in place
    && links.Keys == place.Keys
    && lists[g][p - 1] in place
    && (p + 1 < |lists[g]| ==> lists[g][p + 1] in place)
    && (lists[NULL_ID] != [] ==> Last(lists[NULL_ID]) in place && Last(lists[NULL_ID]) != lists[g][p])
    && links[lists[g][p]] == Links(lists[g][p - 1], NextIn(lists[g], p))
    && forall y :: y in place ==>
         && (y == lists[g][p] <==> place[y] == Place(g, p))
         && (y == lists[g][p - 1] <==> place[y] == Place(g, p - 1))
         && (y == NextIn(lists[g], p) <==> place[y] == Place(g, p + 1))
         && (y == Last(lists[NULL_ID]) <==> IsLastFree(lists, place[y]))
  }

  lemma NoPlacePastEnd(lists: Lists, place: map<PageId, Place>, g: PageId, i: nat)
    requires Located(lists, place) && g in lists && i >= |lists[g]|
    ensures forall y :: y in place ==> place[y] != Place(g, i)
  {
    forall y | y in place
      ensures place[y] != Place(g, i)
    {
      assert At(lists, place[y], y);
    }
  }

  lemma FreeEnd(lists: Lists, place: map<PageId, Place>, n: nat)
    requires Partition(lists, place, n)
    ensures forall y :: y in place ==> (y == Last(lists[NULL_ID]) <==> IsLastFree(lists, place[y]))
    ensures lists[NULL_ID] != [] ==> Last(lists[NULL_ID]) in place && place[Last(lists[NULL_ID])].list == NULL_ID
  {
    hide Indexed;
    if lists[NULL_ID] != [] {
      PlaceOf(lists, place, n, NULL_ID, |lists[NULL_ID]| - 1);
    } else {
      forall y | y in place
        ensures !IsLastFree(lists, place[y])
      {
        assert At(lists, place[y], y);
      }
    }
  }

  lemma PartitionNeighbours(links: map<PageId, Links>, lists: Lists, place: map<PageId, Place>, n: nat, g: PageId,
                            p: nat, loose: bool, stale: set<PageId>)
    requires Partition(lists, place, n) && Linked(links, lists, place, loose, stale) && stale <= lists.Keys
    requires g in lists && g != NULL_ID && 1 <= p < |lists[g]|
    ensures Neighbours(links, lists, place, g, p)
  {
    hide Located, Indexed;
    PlaceOf(lists, place, n, g, p);
    PlaceOf(lists, place, n, g, p - 1);
    if p + 1 < |lists[g]| {
      PlaceOf(lists, place, n, g, p + 1);
    } else {
      NoPlacePastEnd(lists, place, g, p + 1);
    }
    FreeEnd(lists, place, n);
    NotAHead(lists, place, n, g, p);
    LinkOfPlace(links, lists, place, g, p, loose, stale);
  }

  // Later pages of a chain are the head of none.
  lemma NotAHead(lists: Lists, place: map<PageId, Place>, n: nat, g: PageId, p: nat)
    requires Partition(lists, place, n) && g in lists && g != NULL_ID && 1 <= p < |lists[g]|
    ensures lists[g][p] !in lists
  {
    PlaceOf(lists, place, n, g, p);
    var x := lists[g][p];
    if x in lists {
      PlaceOf(lists, place, n, x, 0);
    }
  }

  lemma LinkOfPlace(links: map<PageId, Links>, lists: Lists, place: map<PageId, Place>, g: PageId, p: nat, loose: bool,
                    stale: set<PageId>)
    requires Linked(links, lists, place, loose, stale)
    requires g in lists && g != NULL_ID && 1 <= p < |lists[g]| && lists[g][p] !in stale
    requires lists[g][p] in place && place[lists[g][p]] == Place(g, p) && lists[g][p] != NULL_ID
    ensures links[lists[g][p]] == Links(lists[g][p - 1], NextIn(lists[g], p))
  {
  }

  // Every page but the one cut out.
  lemma CutOutOthers(links: map<PageId, Links>, lists: Lists, place: map<PageId, Place>, g: PageId, p: nat, loose: bool,
                     links': map<PageId, Links>, y: PageId, stale: set<PageId>)
    requires Neighbours(links, lists, place, g, p)
    requires Linked(links, lists, place, loose, stale)
    requires links' == LinksAfterFree(LinksAfterUnlink(links, lists[g][p]), Last(lists[NULL_ID]), lists[g][p])
    requires y in place && y != lists[g][p]
    ensures var lists', place' := CutOut(lists, g, p), CutOutPlace(lists, place, g, p);
            && At(lists', place'[y], y)
            && links'[y].next == ExpectedNext(lists', place'[y])
            && ((y == g && p == |lists[g]| - 1) || y in stale ||
                links'[y].previous == ExpectedPrevious(lists', place'[y]))
  {
    CutHeaderOf(links, lists, g, p, y, place[y], CutOutPlace(lists, place, g, p)[y]);
    CutPlaceOf(links, lists, g, p, y, place[y], CutOutPlace(lists, place, g, p)[y]);
    CutPreviousOf(links, lists, g, p, y, place[y], CutOutPlace(lists, place, g, p)[y]);
  }

  // The page cut out. `next` survives when the free list was not empty.
  lemma CutOutSelf(links: map<PageId, Links>, lists: Lists, place: map<PageId, Place>, g: PageId, p: nat,
                   links': map<PageId, Links>)
    requires Neighbours(links, lists, place, g, p)
    requires links' == LinksAfterFree(LinksAfterUnlink(links, lists[g][p]), Last(lists[NULL_ID]), lists[g][p])
    ensures var lists', place', x := CutOut(lists, g, p), CutOutPlace(lists, place, g, p), lists[g][p];
            && At(lists', place'[x], x) && IsLastFree(lists', place'[x])
            && links'.Keys == links.Keys
            && links'[x].previous == ExpectedPrevious(lists', place'[x])
            && links'[x].next == (if lists[NULL_ID] == [] then NULL_ID else NextIn(lists[g], p))
  {
  }

  // Page x is the last free page, every other page is as it should be.
  lemma LinkedWithLast(links: map<PageId, Links>, lists: Lists, place: map<PageId, Place>, x: PageId, loose: bool,
                       stale: set<PageId>)
    requires links.Keys == place.Keys && x in place && At(lists, place[x], x) && IsLastFree(lists, place[x])
    requires links[x].previous == ExpectedPrevious(lists, place[x])
    requires loose || links[x].next == ExpectedNext(lists, place[x])
    requires forall y :: y in place && y != x ==>
               && At(lists, place[y], y)
               && links[y].next == ExpectedNext(lists, place[y])
               && (y in stale || links[y].previous == ExpectedPrevious(lists, place[y]))
    ensures Linked(links, lists, place, loose, stale)
  {
  }

  lemma CutOutLinked(links: map<PageId, Links>, lists: Lists, place: map<PageId, Place>, g: PageId, p: nat, loose: bool,
                     links': map<PageId, Links>, stale: set<PageId>)
    requires Neighbours(links, lists, place, g, p)
    requires Linked(links, lists, place, loose, stale)
    requires links' == LinksAfterFree(LinksAfterUnlink(links, lists[g][p]), Last(lists[NULL_ID]), lists[g][p])
    ensures Linked(links', CutOut(lists, g, p), CutOutPlace(lists, place, g, p),
                   lists[NULL_ID] != [] && p + 1 < |lists[g]|, if p == |lists[g]| - 1 then stale + {g} else stale)
  {
    var lists', place', x := CutOut(lists, g, p), CutOutPlace(lists, place, g, p), lists[g][p];
    var stale' := if p == |lists[g]| - 1 then stale + {g} else stale;
    CutOutSelf(links, lists, place, g, p, links');
    assert place'.Keys == place.Keys;
    hide Neighbours, LinksAfterUnlink, LinksAfterFree;
    forall y | y in place && y != x
      ensures At(lists', place'[y], y)
      ensures links'[y].next == ExpectedNext(lists', place'[y])
      ensures y in stale' || links'[y].previous == ExpectedPrevious(lists', place'[y])
    {
      CutOutOthers(links, lists, place, g, p, loose, links', y, stale);
      hide CutOut, CutOutPlace;
    }
    assert ExpectedNext(lists', place'[x]) == NULL_ID;
    hide CutOut, CutOutPlace;
    LinkedWithLast(links', lists', place', x, lists[NULL_ID] != [] && p + 1 < |lists[g]|, stale');
  }

  // ---- deleting a group: the first r pages of the chain have been freed ----

  ghost predicate DissolvedAt(links: map<PageId, Links>, links0: map<PageId, Links>, lists: Lists, g: PageId, r: nat,
                              id: PageId, q: Place)
    requires g in lists && NULL_ID in lists && id in links && id in links0
  {
    var chain := lists[g];
    if q.list == g && q.index < r <= |chain| then
      && links[id].previous == (if q.index > 0 then chain[q.index - 1] else Last(lists[NULL_ID]))
      && (q.index + 1 < r ==> links[id].next == chain[q.index + 1])
      && (q.index + 1 == r == |chain| ==> links[id].next == NULL_ID)
    else if IsLastFree(lists, q) then
      && links[id].previous == links0[id].previous
      && links[id].next == if r > 0 && chain != [] then chain[0] else links0[id].next
    else links[id] == links0[id]
  }

  ghost predicate PartlyDissolved(links: map<PageId, Links>, links0: map<PageId, Links>, lists: Lists,
                                  place: map<PageId, Place>, g: PageId, r: nat)
    requires g in lists && NULL_ID in lists
  {
    && links.Keys == links0.Keys == place.Keys
    && forall id :: id in place ==> DissolvedAt(links, links0, lists, g, r, id, place[id])
  }

  lemma DissolveStep(links: map<PageId, Links>, links0: map<PageId, Links>, lists: Lists, place: map<PageId, Place>,
                     g: PageId, r: nat, lastFree: PageId, links': map<PageId, Links>)
    requires g in lists && NULL_ID in lists && g != NULL_ID && r < |lists[g]|
    requires PartlyDissolved(links, links0, lists, place, g, r)
    requires lists[g][r] in place && links0[lists[g][r]].next == NextIn(lists[g], r)
    requires lastFree == if r > 0 then lists[g][r - 1] else Last(lists[NULL_ID])
    requires lastFree != NULL_ID ==> lastFree in place
    requires lists[NULL_ID] != [] || r > 0 ==> lastFree != NULL_ID
    requires NULL_ID !in place
    requires forall y :: y in place ==> (y == lists[g][r] <==> place[y] == Place(g, r))
    requires forall y :: y in place ==>
               (y == lastFree <==> if r > 0 then place[y] == Place(g, r - 1) else IsLastFree(lists, place[y]))
    requires links' == LinksAfterFree(links, lastFree, lists[g][r])
    ensures PartlyDissolved(links', links0, lists, place, g, r + 1)
  {
    forall id | id in place
      ensures DissolvedAt(links', links0, lists, g, r + 1, id, place[id])
    {
      assert DissolvedAt(links, links0, lists, g, r, id, place[id]);
    }
  }

  lemma DissolveLinked(links: map<PageId, Links>, links0: map<PageId, Links>, lists: Lists, place: map<PageId, Place>,
                       g: PageId, stale: set<PageId>)
    requires g in lists && NULL_ID in lists && g != NULL_ID && |lists[g]| > 0
    requires PartlyDissolved(links, links0, lists, place, g, |lists[g]|)
    requires Linked(links0, lists, place, false, stale) && NULL_ID !in place
    requires g in place ==> place[g] == Place(g, 0)
    ensures Linked(links, Dissolve(lists, g), DissolvePlace(lists, place, g), false, stale - {g})
  {
    var lists', place' := Dissolve(lists, g), DissolvePlace(lists, place, g);
    forall id | id in place'
      ensures At(lists', place'[id], id)
      ensures links[id].next == ExpectedNext(lists', place'[id])
      ensures id !in stale - {g} ==> links[id].previous == ExpectedPrevious(lists', place'[id])
    {
      assert At(lists, place[id], id);
      assert DissolvedAt(links, links0, lists, g, |lists[g]|, id, place[id]);
    }
  }

  // ---- the operations, on the whole state ----

  lemma AfterTake(h: Headers, lists: Lists, place: map<PageId, Place>, id: PageId, h': Headers,
                  stale: set<PageId>)
    requires GroupsInv(h, lists, place, false, stale) && FreeHead(h.links, lists[NULL_ID])
    requires var free := lists[NULL_ID];
             if free == [] then id == h.pageAmount + 1
             else id == free[0]
    requires var free := lists[NULL_ID];
             h' == if free == [] then Headers(LinksAfterTake(h.links, lists, id), NULL_ID, NULL_ID, id)
                   else Headers(LinksAfterTake(h.links, lists, id), First(free[1..]), Last(free[1..]), h.pageAmount)
    ensures GroupsInv(h', TakeNew(lists, id), TakeNewPlace(lists, place, id), false,
                      stale + {id})
    ensures id !in lists && id != NULL_ID
  {
    NewPageIsNoGroup(lists, place, h.pageAmount, id);
    TakeNewPartition(lists, place, h.pageAmount, id);
    TakeLinked(h.links, lists, place, h.pageAmount, id, stale);
  }

  lemma AfterAttach(h: Headers, lists: Lists, place: map<PageId, Place>, g: PageId, id: PageId, h': Headers,
                    stale: set<PageId>)
    requires GroupsInv(h, lists, place, false, stale + {id}) && g !in stale && id !in stale
    requires g in lists && g != NULL_ID && id in lists && lists[id] == [id] && id != g && id != NULL_ID
    requires g in h.links && id in h.links && h.links[g].previous in h.links
    requires h' == h.(links := LinksAfterAttach(h.links, g, id))
    ensures GroupsInv(h', Attach(lists, g, id), place[id := Place(g, |lists[g]|)], false, stale)
  {
    AttachPartition(lists, place, h.pageAmount, g, id);
    AttachLinked(h.links, lists, place, h.pageAmount, g, id, stale);
  }

  // The two headers that attaching reads and writes exist.
  lemma AttachHeads(h: Headers, lists: Lists, place: map<PageId, Place>, g: PageId, id: PageId, stale: set<PageId>)
    requires GroupsInv(h, lists, place, false, stale + {id}) && g !in stale && id !in stale
    requires g in lists && g != NULL_ID && id in lists && lists[id] == [id] && id != g
    ensures g in h.links && id in h.links && h.links[g].previous in h.links
    ensures h.links[g].previous == Last(lists[g])
  {
    PlaceOf(lists, place, h.pageAmount, g, 0);
    PlaceOf(lists, place, h.pageAmount, g, |lists[g]| - 1);
    PlaceOf(lists, place, h.pageAmount, id, 0);
  }

  // A page of its own starts a group once its `previous` names itself.
  lemma AfterFound(h: Headers, lists: Lists, place: map<PageId, Place>, id: PageId, h': Headers,
                   stale: set<PageId>)
    requires GroupsInv(h, lists, place, false, stale + {id}) && id !in stale
    requires id in lists && lists[id] == [id] && id != NULL_ID && id in h.links
    requires h' == h.(links := h.links[id := h.links[id].(previous := id)])
    ensures GroupsInv(h', lists, place, false, stale)
  {
    PlaceOf(lists, place, h.pageAmount, id, 0);
    FoundLinked(h.links, lists, place, id, stale);
  }

  lemma FoundLinked(links: map<PageId, Links>, lists: Lists, place: map<PageId, Place>, id: PageId,
                    stale: set<PageId>)
    requires Linked(links, lists, place, false, stale + {id})
    requires id in lists && lists[id] == [id] && id != NULL_ID && id in links
    requires id in place && place[id] == Place(id, 0)
    ensures Linked(links[id := links[id].(previous := id)], lists, place, false, stale)
  {
  }

  lemma HeadPlace(h: Headers, lists: Lists, place: map<PageId, Place>, g: PageId, stale: set<PageId>)
    requires GroupsInv(h, lists, place, false, stale)
    requires g in lists && g != NULL_ID
    ensures g in place && g in h.links && place[g] == Place(g, 0)
  {
    PlaceOf(lists, place, h.pageAmount, g, 0);
  }

  // Cutting page p out of the chain of g, in the order of the code.
  function HeadersAfterFree(h: Headers, x: PageId): Headers
    requires x in h.links && (h.lastFree != NULL_ID ==> h.lastFree in h.links)
  {
    Headers(LinksAfterFree(h.links, h.lastFree, x), if h.lastFree == NULL_ID then x else h.firstFree, x, h.pageAmount)
  }

  // The headers that cutting out page x reads and writes exist.
  predicate CutReady(h: Headers, x: PageId)
  {
    && x in h.links && x != NULL_ID
    && (h.links[x].previous != NULL_ID ==> h.links[x].previous in h.links)
    && (h.links[x].next != NULL_ID ==> h.links[x].next in h.links)
    && (h.lastFree != NULL_ID ==> h.lastFree in h.links)
  }

  lemma CutHeads(h: Headers, lists: Lists, place: map<PageId, Place>, g: PageId, p: nat, loose: bool,
                 stale: set<PageId>)
    requires GroupsInv(h, lists, place, loose, stale)
    requires g in lists && g != NULL_ID && 1 <= p < |lists[g]|
    ensures CutReady(h, lists[g][p]) && NULL_ID in lists
  {
    PartitionNeighbours(h.links, lists, place, h.pageAmount, g, p, loose, stale);
  }

  lemma HeadUntouched(h: Headers, x: PageId, g: PageId)
    requires CutReady(h, x) && g in h.links && g != x && h.links[x].next != g
    ensures var h' := HeadersAfterFree(h.(links := LinksAfterUnlink(h.links, x)), x);
            g in h'.links && h'.links[g].previous == h.links[g].previous
  {
  }

  lemma LastOfGroup(links: map<PageId, Links>, lists: Lists, place: map<PageId, Place>, n: nat, g: PageId, loose: bool,
                    stale: set<PageId>)
    requires Partition(lists, place, n) && Linked(links, lists, place, loose, stale)
    requires g in lists && g != NULL_ID && |lists[g]| > 1
    ensures var x := lists[g][|lists[g]| - 1];
            g in links && x in links && g != x && links[x].next == NULL_ID && (g !in stale ==> links[g].previous == x)
  {
    PlaceOf(lists, place, n, g, 0);
    PlaceOf(lists, place, n, g, |lists[g]| - 1);
  }

  lemma HeadNotNext(links: map<PageId, Links>, lists: Lists, place: map<PageId, Place>, n: nat, g: PageId, p: nat,
                    loose: bool, stale: set<PageId>)
    requires Partition(lists, place, n) && Linked(links, lists, place, loose, stale)
    requires g in lists && g != NULL_ID && 1 <= p < |lists[g]|
    ensures var x := lists[g][p];
            g in links && x in links && g != x && links[x].next != g
  {
    PlaceOf(lists, place, n, g, 0);
    PlaceOf(lists, place, n, g, p);
    if p + 1 < |lists[g]| {
      PlaceOf(lists, place, n, g, p + 1);
    }
  }

  lemma AfterCutOut(h: Headers, lists: Lists, place: map<PageId, Place>, g: PageId, p: nat, loose: bool, h': Headers,
                    stale: set<PageId>)
    requires GroupsInv(h, lists, place, loose, stale)
    requires g in lists && g != NULL_ID && 1 <= p < |lists[g]|
    requires CutReady(h, lists[g][p])
    requires h' == HeadersAfterFree(h.(links := LinksAfterUnlink(h.links, lists[g][p])), lists[g][p])
    ensures GroupsInv(h', CutOut(lists, g, p), CutOutPlace(lists, place, g, p),
                      lists[NULL_ID] != [] && p + 1 < |lists[g]|, if p == |lists[g]| - 1 then stale + {g} else stale)
    // the head still points back to the page that was last
    ensures g in h.links && g in h'.links && h'.links[g].previous == h.links[g].previous
    ensures p == |lists[g]| - 1 && g !in stale ==> h'.links[g].previous == lists[g][p]
  {
    hide Partition, Linked;
    if p == |lists[g]| - 1 {
      LastOfGroup(h.links, lists, place, h.pageAmount, g, loose, stale);
    }
    HeadNotNext(h.links, lists, place, h.pageAmount, g, p, loose, stale);
    HeadUntouched(h, lists[g][p], g);
    CutOutPartition(lists, place, h.pageAmount, g, p);
    PartitionNeighbours(h.links, lists, place, h.pageAmount, g, p, loose, stale);
    CutOutLinked(h.links, lists, place, g, p, loose, h'.links, stale);
  }

  lemma DissolveStart(h: Headers, lists: Lists, place: map<PageId, Place>, g: PageId, stale: set<PageId>)
    requires GroupsInv(h, lists, place, false, stale) && g in lists && g != NULL_ID
    ensures NULL_ID in lists && |lists[g]| > 0 && lists[g][0] == g
    ensures PartlyDissolved(h.links, h.links, lists, place, g, 0)
    ensures h.firstFree == First(lists[NULL_ID]) && h.lastFree == Last(lists[NULL_ID])
  {
  }

  // What one round of the deletion loop needs to know about the page it frees.
  lemma DissolveReady(h: Headers, lists: Lists, place: map<PageId, Place>, g: PageId, r: nat,
                      current: PageId, lastFree: PageId, links: map<PageId, Links>, stale: set<PageId>)
    requires GroupsInv(h, lists, place, false, stale) && g in lists && g != NULL_ID
    requires r < |lists[g]| && current == lists[g][r]
    requires PartlyDissolved(links, h.links, lists, place, g, r)
    requires lastFree == if r > 0 then lists[g][r - 1] else Last(lists[NULL_ID])
    ensures current in place && current != NULL_ID && current in links
    ensures links[current].next == h.links[current].next == NextIn(lists[g], r)
    ensures lastFree != NULL_ID ==> lastFree in place && lastFree in links
    ensures lists[NULL_ID] != [] || r > 0 ==> lastFree != NULL_ID
    ensures NULL_ID !in place
    ensures r + 1 < |lists[g]| ==> lists[g][r + 1] != NULL_ID
    ensures forall y :: y in place ==> (y == lists[g][r] <==> place[y] == Place(g, r))
    ensures forall y :: y in place ==>
              (y == lastFree <==> if r > 0 then place[y] == Place(g, r - 1) else IsLastFree(lists, place[y]))
  {
    PlaceOf(lists, place, h.pageAmount, g, r);
    if r > 0 {
      PlaceOf(lists, place, h.pageAmount, g, r - 1);
    } else if lists[NULL_ID] != [] {
      PlaceOf(lists, place, h.pageAmount, NULL_ID, |lists[NULL_ID]| - 1);
    }
    if r + 1 < |lists[g]| {
      PlaceOf(lists, place, h.pageAmount, g, r + 1);
    }
    assert DissolvedAt(links, h.links, lists, g, r, current, place[current]);
  }

  lemma AfterDissolve(h: Headers, lists: Lists, place: map<PageId, Place>, g: PageId, h': Headers,
                      stale: set<PageId>)
    requires GroupsInv(h, lists, place, false, stale) && g in lists && g != NULL_ID
    requires PartlyDissolved(h'.links, h.links, lists, place, g, |lists[g]|)
    requires h'.pageAmount == h.pageAmount
    requires h'.firstFree == First(lists[NULL_ID] + lists[g]) && h'.lastFree == Last(lists[g])
    ensures NULL_ID in lists
    ensures GroupsInv(h', Dissolve(lists, g), DissolvePlace(lists, place, g), false, stale - {g})
  {
    PlaceOf(lists, place, h.pageAmount, g, 0);
    DissolvePartition(lists, place, h.pageAmount, g);
    DissolveLinked(h'.links, h.links, lists, place, g, stale);
  }
}
