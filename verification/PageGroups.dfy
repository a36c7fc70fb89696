/** Page groups and the free list: linked lists threaded through the page headers. */
module PageGroups {
  import opened PageLists
  import opened PageLinks

  class PageGroupManager {
    var links: map<PageId, Links>   // page headers, by page id
    var firstFree: PageId           // application header
    var lastFree: PageId
    var pageAmount: nat             // ids minted so far

    ghost var lists: Lists          // the chains, and the free list under NULL_ID
    ghost var place: map<PageId, Place>

    // The page headers and the application header as one value.
    function Head(): Headers
      reads this
    {
      Headers(links, firstFree, lastFree, pageAmount)
    }

    ghost predicate Inv(loose: bool, stale: set<PageId>)
      reads this
    {
      GroupsInv(Head(), lists, place, loose, stale)
    }

    ghost predicate Valid()
      reads this
    {
      Inv(false, {})
    }

    ghost predicate IsGroup(g: PageId)
      reads this
    {
      g in lists && g != NULL_ID
    }

    constructor ()
      ensures Valid()
      ensures lists == map[NULL_ID := []] && pageAmount == 0
    {
      links, firstFree, lastFree, pageAmount := map[], NULL_ID, NULL_ID, 0;
      lists, place := map[NULL_ID := []], map[];
    }

    // Reuse the first free page, or mint a new id; page_manager_create_page zeroes a minted page.
    method GetNewPage(ghost free: seq<PageId>) returns (id: PageId)
      requires FreeHead(links, free) && firstFree == First(free) && lastFree == Last(free)
      modifies `links, `firstFree, `lastFree, `pageAmount
      ensures if free == [] then
                id == old(pageAmount) + 1 == pageAmount && firstFree == lastFree == NULL_ID
                && links == old(links)[id := Links(NULL_ID, NULL_ID)]
              else
                id == free[0] && pageAmount == old(pageAmount)
                && firstFree == First(free[1..]) && lastFree == Last(free[1..])
                && links == LinksAfterPop(old(links), free)
    {
      if firstFree == NULL_ID {
        pageAmount := pageAmount + 1;
        id := pageAmount;
        links := links[id := Links(NULL_ID, NULL_ID)];
        return;
      }
      id := firstFree;
      firstFree := links[id].next;
      if firstFree == NULL_ID {
        lastFree := NULL_ID;
      } else {
        links := links[firstFree := links[firstFree].(previous := NULL_ID)];
      }
    }

    // A page of its own, with both links reset. It is on no list but its own;
    // its `previous` does not name it yet.
    method CreatePage(ghost stale: set<PageId>) returns (id: PageId)
      requires Inv(false, stale)
      modifies this
      ensures Inv(false, stale + {id}) && id !in stale
      ensures NULL_ID in old(lists) && FreeHead(old(links), old(lists)[NULL_ID])
      ensures links == LinksAfterTake(old(links), old(lists), id)
      ensures lists == TakeNew(old(lists), id) && id !in old(lists) && id != NULL_ID
      ensures place == TakeNewPlace(old(lists), old(place), id)
      // ids are minted only when the free list is empty
      ensures if old(lists)[NULL_ID] == [] then id == pageAmount == old(pageAmount) + 1
              else id == old(lists)[NULL_ID][0] && pageAmount == old(pageAmount)
    {
      hide Partition, Linked;
      ghost var h0 := Head();
      FreeHeadOf(links, lists, place, pageAmount, stale);
      id := GetNewPage(lists[NULL_ID]);
      links := links[id := Links(NULL_ID, NULL_ID)];
      AfterTake(h0, lists, place, id, Head(), stale);
      place := TakeNewPlace(lists, place, id);
      lists := TakeNew(lists, id);
    }

    // The link updates of add_page.
    method AttachPage(g: PageId, id: PageId)
      requires g in links && id in links && links[g].previous in links
      modifies `links
      ensures links == LinksAfterAttach(old(links), g, id)
    {
      var oldLast := links[g].previous;
      links := links[g := links[g].(previous := id)];
      links := links[id := Links(oldLast, NULL_ID)];
      links := links[oldLast := links[oldLast].(next := id)];
    }

    // The new page becomes the last page of the chain. When the head's `previous` is stale, the page it names gets
    // the new page for its next, and the chain stays as it was: the new page is on no chain.
    method AddPage(g: PageId, ghost stale: set<PageId>) returns (id: PageId)
      requires Inv(false, stale) && IsGroup(g)
      requires g in stale ==> g in links && links[g].previous in links && links[g].previous !in lists[g]
      modifies this
      ensures id !in old(lists) && id != NULL_ID
      ensures if old(lists)[NULL_ID] == [] then id == pageAmount == old(pageAmount) + 1
              else id == old(lists)[NULL_ID][0] && pageAmount == old(pageAmount)
      ensures g !in stale ==>
                && Inv(false, stale)
                && lists == Attach(TakeNew(old(lists), id), g, id)
                && place == TakeNewPlace(old(lists), old(place), id)[id := Place(g, |old(lists)[g]|)]
                && lists.Keys == old(lists).Keys && g in old(lists) && lists[g] == old(lists)[g] + [id]
                && (if old(lists)[NULL_ID] == [] then lists[NULL_ID] == []
                    else [id] + lists[NULL_ID] == old(lists)[NULL_ID])
                && forall h :: h in lists && h != g && h != NULL_ID ==> lists[h] == old(lists)[h]
      ensures g in stale ==>
                && IsGroup(g) && lists == TakeNew(old(lists), id) && place == TakeNewPlace(old(lists), old(place), id)
                && id !in lists[g] && NextChain(links, lists[g])
    {
      hide GroupsInv, TakeNew, Attach;
      ghost var links0, lists0 := links, lists;
      HeadNotFree(Head(), lists, place, g, stale);
      id := CreatePage(stale);
      ghost var h := Head();
      TakenLists(lists0, id);
      AttachedLists(lists0, g, id);
      if g !in stale {
        AttachHeads(h, lists, place, g, id, stale);
      } else {
        OtherList(h, lists, place, g, id, stale + {id});
        TakeKeeps(links0, lists0, id, g);
        AttachMisses(links, g, id, lists[g]);
      }
      AttachPage(g, id);
      if g !in stale {
        AfterAttach(h, lists, place, g, id, Head(), stale);
        place := place[id := Place(g, |lists[g]|)];
        lists := Attach(lists, g, id);
      }
    }

    // A group starts as one page, which is its own last page.
    method CreateGroup(ghost stale: set<PageId>) returns (g: PageId)
      requires Inv(false, stale)
      modifies this
      ensures Inv(false, stale) && IsGroup(g)
      ensures g !in old(lists)
      ensures lists == TakeNew(old(lists), g) && place == TakeNewPlace(old(lists), old(place), g)
      ensures lists.Keys == old(lists).Keys + {g} && lists[g] == [g] && NULL_ID in old(lists)
      ensures if old(lists)[NULL_ID] == [] then lists[NULL_ID] == [] else [g] + lists[NULL_ID] == old(lists)[NULL_ID]
      ensures forall h :: h in old(lists) && h != NULL_ID ==> lists[h] == old(lists)[h]
      ensures if old(lists)[NULL_ID] == [] then g == pageAmount == old(pageAmount) + 1
              else g == old(lists)[NULL_ID][0] && pageAmount == old(pageAmount)
    {
      hide TakeNew;
      ghost var lists0 := lists;
      g := CreatePage(stale);
      TakenLists(lists0, g);
      PlaceOf(lists, place, pageAmount, g, 0);
      ghost var h := Head();
      links := links[g := links[g].(previous := g)];
      AfterFound(h, lists, place, g, Head(), stale);
    }

    // page_group_manager_free_page: append a page to the free list, without looking at its chain.
    method FreePage(id: PageId)
      requires id in links && (lastFree != NULL_ID ==> lastFree in links)
      modifies `links, `firstFree, `lastFree
      ensures Head() == HeadersAfterFree(old(Head()), id)
    {
      var oldLast := lastFree;
      lastFree := id;
      if oldLast == NULL_ID {
        firstFree := id;
        links := links[id := links[id].(previous := NULL_ID, next := NULL_ID)];
      } else {
        links := links[oldLast := links[oldLast].(next := id)];
        links := links[id := links[id].(previous := oldLast)];
      }
    }

    // The neighbours of a page point past it.
    method Unlink(current: PageId)
      requires CutReady(Head(), current)
      modifies `links
      ensures links == LinksAfterUnlink(old(links), current)
    {
      var previous, next := links[current].previous, links[current].next;
      if previous != NULL_ID {
        links := links[previous := links[previous].(next := next)];
      }
      if next != NULL_ID {
        links := links[next := links[next].(previous := previous)];
      }
    }

    // Page p of the chain of g, the one an iterator stands on, leaves the chain for the free list.
    // Everything stays right except: the freed page keeps its `next` when the free list was not
    // empty, and the head of the group keeps pointing back to the freed page when that was the last.
    method FreePageCurrent(current: PageId, ghost g: PageId, ghost p: nat, ghost loose: bool, ghost stale: set<PageId>)
      requires Inv(loose, stale) && IsGroup(g)
      requires 1 <= p < |lists[g]| && current == lists[g][p]
      modifies this
      ensures Inv(old(lists)[NULL_ID] != [] && p + 1 < |old(lists)[g]|,
              if p == |old(lists)[g]| - 1 then stale + {g} else stale)
      ensures g in old(links) && g in links && links[g].previous == old(links)[g].previous
      ensures p == |old(lists)[g]| - 1 && g !in stale ==> links[g].previous == current
      ensures NULL_ID in old(lists) && lists == CutOut(old(lists), g, p)
      ensures lists.Keys == old(lists).Keys && lists[g] == old(lists)[g][..p] + old(lists)[g][p + 1..]
      ensures lists[NULL_ID] == old(lists)[NULL_ID] + [current]
      ensures forall h :: h in lists && h != g && h != NULL_ID ==> lists[h] == old(lists)[h]
      ensures place == CutOutPlace(old(lists), old(place), g, p)
      ensures pageAmount == old(pageAmount)
    {
      hide GroupsInv;
      ghost var h := Head();
      CutHeads(h, lists, place, g, p, loose, stale);
      Unlink(current);
      FreePage(current);
      AfterCutOut(h, lists, place, g, p, loose, Head(), stale);
      place := CutOutPlace(lists, place, g, p);
      lists := CutOut(lists, g, p);
    }

    // Not in the code: point the head of a group back to its last page again.
    method RepairHead(g: PageId, last: PageId, ghost stale: set<PageId>)
      requires IsGroup(g) && Inv(false, stale) && last == Last(lists[g])
      modifies `links
      ensures Inv(false, stale - {g}) && links.Keys == old(links.Keys)
    {
      hide Partition;
      HeadPlace(Head(), lists, place, g, stale);
      links := links[g := links[g].(previous := last)];
    }

    // The loop of delete_group: every page of the chain is appended to the free list in turn.
    method FreeChain(g: PageId, ghost h: Headers, ghost stale: set<PageId>)
      requires Inv(false, stale) && IsGroup(g) && h == Head()
      modifies `links, `firstFree, `lastFree
      ensures PartlyDissolved(links, h.links, lists, place, g, |lists[g]|)
      ensures firstFree == First(lists[NULL_ID] + lists[g]) && lastFree == Last(lists[g])
    {
      hide GroupsInv, PartlyDissolved;
      DissolveStart(h, lists, place, g, stale);
      ghost var chain, free, r := lists[g], lists[NULL_ID], 0;
      var current := g;
      while current != NULL_ID
        invariant r <= |chain|
        invariant PartlyDissolved(links, h.links, lists, place, g, r)
        invariant current == if r < |chain| then chain[r] else NULL_ID
        invariant r < |chain| ==> current != NULL_ID
        invariant lastFree == if r > 0 then chain[r - 1] else Last(free)
        invariant firstFree == if r > 0 then First(free + chain) else First(free)
        decreases |chain| - r
      {
        DissolveReady(h, lists, place, g, r, current, lastFree, links, stale);
        var next := links[current].next;
        ghost var before, last := links, lastFree;
        FreePage(current);
        DissolveStep(before, h.links, lists, place, g, r, last, links);
        current := next;
        r := r + 1;
      }
    }

    // Free list F and chain G become exactly F followed by G.
    method DeleteGroup(g: PageId, ghost stale: set<PageId>)
      requires Inv(false, stale) && IsGroup(g)
      modifies this
      ensures Inv(false, stale - {g})
      ensures NULL_ID in old(lists)
      ensures lists == Dissolve(old(lists), g) && place == DissolvePlace(old(lists), old(place), g)
      ensures lists.Keys == old(lists).Keys - {g} && lists[NULL_ID] == old(lists)[NULL_ID] + old(lists)[g]
      ensures forall h :: h in lists && h != NULL_ID ==> lists[h] == old(lists)[h]
      ensures pageAmount == old(pageAmount)
    {
      hide GroupsInv, PartlyDissolved;
      ghost var h := Head();
      FreeChain(g, h, stale);
      AfterDissolve(h, lists, place, g, Head(), stale);
      place := DissolvePlace(lists, place, g);
      lists := Dissolve(lists, g);
    }
  }

  // Follows the links of one group, from the head forward, or head first and then backward.
  class PageIterator {
    const manager: PageGroupManager
    const inverse: bool
    const groupId: PageId
    var started: bool
    var currentId: PageId
    var nextId: PageId

    constructor (manager: PageGroupManager, groupId: PageId, inverse: bool)
      ensures this.manager == manager && this.groupId == groupId && this.inverse == inverse
      ensures !started && currentId == NULL_ID && nextId == groupId
    {
      this.manager, this.groupId, this.inverse := manager, groupId, inverse;
      started, currentId, nextId := false, NULL_ID, groupId;
    }

    predicate HasNext()
      reads this
    {
      (inverse && (!started || nextId != groupId)) || (!inverse && nextId != NULL_ID)
    }

    // False stands for the out-of-range error, which changes nothing.
    method Next() returns (ok: bool)
      requires HasNext() ==> nextId in manager.links
      modifies this
      ensures ok == old(HasNext())
      ensures !ok ==> started == old(started) && currentId == old(currentId) && nextId == old(nextId)
      ensures ok ==> started && currentId == old(nextId)
                     && nextId == if inverse then manager.links[currentId].previous else manager.links[currentId].next
    {
      if !HasNext() {
        return false;
      }
      started := true;
      currentId := nextId;
      nextId := if inverse then manager.links[currentId].previous else manager.links[currentId].next;
      return true;
    }
  }

  // The order in which an iterator visits the pages of a chain.
  function Visits(chain: seq<PageId>, inverse: bool): (r: seq<PageId>)
    ensures |r| == |chain|
  {
    if inverse then seq(|chain|, i requires 0 <= i < |chain| => if i == 0 then chain[0] else chain[|chain| - i])
    else chain
  }

  // The links of one chain, as a reader of the chain sees them.
  ghost predicate LinkAt(links: map<PageId, Links>, chain: seq<PageId>, i: nat)
    requires i < |chain|
  {
    && chain[i] != NULL_ID && chain[i] in links
    && links[chain[i]] == Links(if i > 0 then chain[i - 1] else Last(chain), NextIn(chain, i))
  }

  ghost predicate ChainLinks(links: map<PageId, Links>, chain: seq<PageId>)
  {
    && |chain| > 0
    && (forall i :: 0 <= i < |chain| ==> LinkAt(links, chain, i))
    && (forall i, j :: 0 <= i < |chain| && 0 <= j < |chain| && chain[i] == chain[j] ==> i == j)
  }

  // The forward links of one chain.
  ghost predicate NextChain(links: map<PageId, Links>, chain: seq<PageId>)
  {
    && |chain| > 0
    && (forall i :: 0 <= i < |chain| ==>
          chain[i] != NULL_ID && chain[i] in links && links[chain[i]].next == NextIn(chain, i))
    && Distinct(chain)
  }

  lemma ReadNext(h: Headers, lists: Lists, place: map<PageId, Place>, g: PageId, stale: set<PageId>)
    requires GroupsInv(h, lists, place, false, stale) && g in lists && g != NULL_ID
    ensures NextChain(h.links, lists[g]) && lists[g][0] == g
  {
    hide Linked;
    var chain := lists[g];
    forall i | 0 <= i < |chain|
      ensures chain[i] != NULL_ID && chain[i] in h.links && h.links[chain[i]].next == NextIn(chain, i)
    {
      PlaceOf(lists, place, h.pageAmount, g, i);
      ReadNextLink(h.links, lists, place, g, i, stale);
    }
    forall i, j | 0 <= i < |chain| && 0 <= j < |chain| && chain[i] == chain[j]
      ensures i == j
    {
      DistinctPages(lists, place, h.pageAmount, g, i, j);
    }
  }

  lemma ReadNextLink(links: map<PageId, Links>, lists: Lists, place: map<PageId, Place>, g: PageId, i: nat,
                     stale: set<PageId>)
    requires Linked(links, lists, place, false, stale) && g in lists && g != NULL_ID && i < |lists[g]|
    requires lists[g][i] in place && place[lists[g][i]] == Place(g, i)
    ensures lists[g][i] in links && links[lists[g][i]].next == NextIn(lists[g], i)
  {
  }

  lemma HeadNotFree(h: Headers, lists: Lists, place: map<PageId, Place>, g: PageId, stale: set<PageId>)
    requires GroupsInv(h, lists, place, false, stale) && g in lists && g != NULL_ID
    ensures NULL_ID in lists && g !in lists[NULL_ID]
  {
    PlaceOf(lists, place, h.pageAmount, g, 0);
    forall i | 0 <= i < |lists[NULL_ID]|
      ensures lists[NULL_ID][i] != g
    {
      PlaceOf(lists, place, h.pageAmount, NULL_ID, i);
    }
  }

  lemma TakeKeeps(links: map<PageId, Links>, lists: Lists, id: PageId, x: PageId)
    requires NULL_ID in lists && FreeHead(links, lists[NULL_ID])
    requires x in links && x !in lists[NULL_ID] && x != id
    ensures var links' := LinksAfterTake(links, lists, id);
            x in links' && links'[x] == links[x] && links.Keys <= links'.Keys
  {
  }

  // Attaching a page behind one that is not on the chain does not change the chain.
  lemma AttachMisses(links: map<PageId, Links>, g: PageId, id: PageId, chain: seq<PageId>)
    requires g in links && id in links && links[g].previous in links
    requires NextChain(links, chain) && id !in chain && links[g].previous !in chain
    ensures NextChain(LinksAfterAttach(links, g, id), chain)
  {
  }

  // The page of a list of its own is on no other chain, and links of other chains do not change with it.
  lemma OtherList(h: Headers, lists: Lists, place: map<PageId, Place>, g: PageId, id: PageId, stale: set<PageId>)
    requires GroupsInv(h, lists, place, false, stale) && g in lists && g != NULL_ID
    requires id in lists && lists[id] == [id] && id != g && id != NULL_ID
    ensures id !in lists[g] && id in h.links && NextChain(h.links, lists[g])
  {
    PlaceOf(lists, place, h.pageAmount, id, 0);
    forall i | 0 <= i < |lists[g]|
      ensures lists[g][i] != id
    {
      PlaceOf(lists, place, h.pageAmount, g, i);
    }
    ReadNext(h, lists, place, g, stale);
  }

  lemma ReadChain(h: Headers, lists: Lists, place: map<PageId, Place>, g: PageId, stale: set<PageId>)
    requires GroupsInv(h, lists, place, false, stale) && g in lists && g != NULL_ID && g !in stale
    ensures ChainLinks(h.links, lists[g]) && lists[g][0] == g
  {
    hide Linked;
    var chain := lists[g];
    forall i | 0 <= i < |chain|
      ensures LinkAt(h.links, chain, i)
    {
      PlaceOf(lists, place, h.pageAmount, g, i);
      if i > 0 {
        NotAHead(lists, place, h.pageAmount, g, i);
      }
      ReadLink(h.links, lists, place, g, i, stale);
    }
    forall i, j | 0 <= i < |chain| && 0 <= j < |chain| && chain[i] == chain[j]
      ensures i == j
    {
      DistinctPages(lists, place, h.pageAmount, g, i, j);
    }
  }

  lemma ReadLink(links: map<PageId, Links>, lists: Lists, place: map<PageId, Place>, g: PageId, i: nat,
                 stale: set<PageId>)
    requires Linked(links, lists, place, false, stale) && g in lists && g != NULL_ID && i < |lists[g]|
    requires lists[g][i] !in stale
    requires lists[g][i] in place && place[lists[g][i]] == Place(g, i) && lists[g][i] != NULL_ID
    ensures LinkAt(links, lists[g], i)
  {
  }

  // A has-next/next run: head then tail forward, or head and then the rest in reverse,
  // every page of the group once.
  method VisitGroup(manager: PageGroupManager, g: PageId, inverse: bool) returns (ids: seq<PageId>)
    requires manager.Valid() && manager.IsGroup(g)
    ensures ids == Visits(manager.lists[g], inverse)
    ensures !inverse ==> ids == manager.lists[g]
    ensures inverse ==> |ids| == |manager.lists[g]| && forall i :: 0 <= i < |ids| ==>
              ids[i] == manager.lists[g][if i == 0 then 0 else |ids| - i]
  {
    hide GroupsInv;
    ghost var chain := manager.lists[g];
    ReadChain(manager.Head(), manager.lists, manager.place, g, {});
    var it := new PageIterator(manager, g, inverse);
    ids := [];
    while it.HasNext()
      invariant it.manager == manager && it.inverse == inverse && it.groupId == g
      invariant |ids| <= |chain| && ids == Visits(chain, inverse)[..|ids|]
      invariant it.started == (ids != [])
      invariant it.nextId == if |ids| < |chain| then Visits(chain, inverse)[|ids|] else if inverse then g else NULL_ID
      invariant |ids| < |chain| ==> it.HasNext()
      decreases |chain| - |ids|
    {
      ghost var pos := if !inverse || ids == [] then |ids| else |chain| - |ids|;
      assert LinkAt(manager.links, chain, pos);
      var ok := it.Next();
      ids := ids + [it.currentId];
      if |ids| < |chain| {
        assert LinkAt(manager.links, chain, if inverse then |chain| - |ids| else |ids|);
      }
    }
  }
}
