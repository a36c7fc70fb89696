/** Which list owns each page, on values: one chain per group and the free list. */
module PageLists {
  type PageId = nat

  const NULL_ID: PageId := 0

  // The page header.
  datatype Links = Links(previous: PageId, next: PageId)

  // Position of a page: the chain of group `list`, or the free list when list is NULL_ID.
  datatype Place = Place(list: PageId, index: nat)

  type Lists = map<PageId, seq<PageId>>

  function NextIn(s: seq<PageId>, i: nat): PageId
  {
    if i + 1 < |s| then s[i + 1] else NULL_ID
  }

  function Last(s: seq<PageId>): PageId
  {
    if s == [] then NULL_ID else s[|s| - 1]
  }

  function First(s: seq<PageId>): PageId
  {
    if s == [] then NULL_ID else s[0]
  }

  ghost predicate Distinct(ids: seq<PageId>)
  {
    forall i, j :: 0 <= i < |ids| && 0 <= j < |ids| && ids[i] == ids[j] ==> i == j
  }

  predicate At(lists: Lists, p: Place, id: PageId)
  {
    p.list in lists && p.index < |lists[p.list]| && lists[p.list][p.index] == id
  }

  // Every page is where `place` says ...
  ghost predicate Located(lists: Lists, place: map<PageId, Place>)
  {
    forall id :: id in place ==> At(lists, place[id], id)
  }

  // ... and nowhere else.
  ghost predicate Indexed(lists: Lists, place: map<PageId, Place>)
  {
    forall a, i :: a in lists && 0 <= i < |lists[a]| ==>
      lists[a][i] in place && place[lists[a][i]] == Place(a, i)
  }

  // Every id in 1..n lies on exactly one list, at exactly one index; a group is named by its head.
  ghost predicate Partition(lists: Lists, place: map<PageId, Place>, n: nat)
  {
    && NULL_ID in lists
    && (forall id :: id in place <==> 1 <= id <= n)
    && Located(lists, place)
    && Indexed(lists, place)
    && (forall g :: g in lists && g != NULL_ID ==> |lists[g]| > 0 && lists[g][0] == g)
  }

  function ExpectedNext(lists: Lists, p: Place): PageId
    requires p.list in lists
  {
    NextIn(lists[p.list], p.index)
  }

  // The head of a group points back to the last page of its chain.
  function ExpectedPrevious(lists: Lists, p: Place): PageId
    requires p.list in lists && p.index < |lists[p.list]|
  {
    if p.index > 0 then lists[p.list][p.index - 1]
    else if p.list == NULL_ID then NULL_ID
    else Last(lists[p.list])
  }

  predicate IsLastFree(lists: Lists, p: Place)
  {
    p.list == NULL_ID && NULL_ID in lists && p.index + 1 == |lists[NULL_ID]|
  }

  // All links are right, except possibly `next` of the last free page (loose)
  // and `previous` of the pages `stale`.
  ghost predicate Linked(links: map<PageId, Links>, lists: Lists, place: map<PageId, Place>, loose: bool,
                         stale: set<PageId>)
  {
    && links.Keys == place.Keys
    && (forall id :: id in place ==> At(lists, place[id], id))
    && (forall id :: id in place && !(loose && IsLastFree(lists, place[id])) ==>
          links[id].next == ExpectedNext(lists, place[id]))
    && (forall id :: id in place && id !in stale ==>
          links[id].previous == ExpectedPrevious(lists, place[id]))
  }

  // ---- reading a partition ----

  // Exactly one list, exactly one index.
  lemma OnExactlyOneList(lists: Lists, place: map<PageId, Place>, n: nat, id: PageId)
    requires Partition(lists, place, n) && 1 <= id <= n
    ensures exists p :: At(lists, p, id)
    ensures forall p, q :: At(lists, p, id) && At(lists, q, id) ==> p == q
  {
    assert At(lists, place[id], id);
    forall p, q | At(lists, p, id) && At(lists, q, id)
      ensures p == q
    {
      assert place[lists[p.list][p.index]] == Place(p.list, p.index);
      assert place[lists[q.list][q.index]] == Place(q.list, q.index);
    }
  }

  lemma DistinctPages(lists: Lists, place: map<PageId, Place>, n: nat, a: PageId, i: nat, j: nat)
    requires Partition(lists, place, n) && a in lists && i < |lists[a]| && j < |lists[a]|
    requires lists[a][i] == lists[a][j]
    ensures i == j
  {
    assert place[lists[a][i]] == Place(a, i);
    assert place[lists[a][j]] == Place(a, j);
  }

  lemma PlaceOf(lists: Lists, place: map<PageId, Place>, n: nat, a: PageId, i: nat)
    requires Partition(lists, place, n) && a in lists && i < |lists[a]|
    ensures lists[a][i] in place && place[lists[a][i]] == Place(a, i) && 1 <= lists[a][i] <= n
    ensures forall x :: x in place ==> (x == lists[a][i] <==> place[x] == Place(a, i))
  {
    forall x | x in place && place[x] == Place(a, i)
      ensures x == lists[a][i]
    {
      assert At(lists, place[x], x);
    }
  }

  // ---- how the lists change ----

  // A new page becomes a group of its own, out of the free list when that has pages.
  function TakeNew(lists: Lists, id: PageId): Lists
    requires NULL_ID in lists
  {
    if lists[NULL_ID] == [] then lists[id := [id]]
    else lists[NULL_ID := lists[NULL_ID][1..]][id := [id]]
  }

  lemma TakenLists(lists: Lists, id: PageId)
    requires NULL_ID in lists && id !in lists && id != NULL_ID && (lists[NULL_ID] != [] ==> id == lists[NULL_ID][0])
    ensures var lists' := TakeNew(lists, id);
            && lists'.Keys == lists.Keys + {id} && lists'[id] == [id]
            && (if lists[NULL_ID] == [] then lists'[NULL_ID] == [] else [id] + lists'[NULL_ID] == lists[NULL_ID])
            && forall h :: h in lists && h != NULL_ID ==> lists'[h] == lists[h]
  {
  }

  function TakeNewPlace(lists: Lists, place: map<PageId, Place>, id: PageId): map<PageId, Place>
  {
    map x | x in place.Keys + {id} ::
      if x == id then Place(id, 0)
      else if place[x].list == NULL_ID then Place(NULL_ID, if place[x].index > 0 then place[x].index - 1 else 0)
      else place[x]
  }

  lemma NewPageIsNoGroup(lists: Lists, place: map<PageId, Place>, n: nat, id: PageId)
    requires Partition(lists, place, n)
    requires if lists[NULL_ID] == [] then id == n + 1 else id == lists[NULL_ID][0]
    ensures id !in lists && id != NULL_ID
    ensures if lists[NULL_ID] == [] then id !in place else id in place && place[id] == Place(NULL_ID, 0)
  {
    if lists[NULL_ID] != [] {
      assert place[lists[NULL_ID][0]] == Place(NULL_ID, 0);
    }
  }

  lemma TakeNewIndexed(lists: Lists, place: map<PageId, Place>, n: nat, id: PageId)
    requires Partition(lists, place, n)
    requires if lists[NULL_ID] == [] then id == n + 1 else id == lists[NULL_ID][0]
    ensures Indexed(TakeNew(lists, id), TakeNewPlace(lists, place, id))
  {
    NewPageIsNoGroup(lists, place, n, id);
    var lists', place' := TakeNew(lists, id), TakeNewPlace(lists, place, id);
    forall a, i | a in lists' && 0 <= i < |lists'[a]|
      ensures lists'[a][i] in place' && place'[lists'[a][i]] == Place(a, i)
    {
      if a == NULL_ID {
        assert lists'[a][i] == lists[a][i + 1];
      } else if a != id {
        assert lists'[a][i] == lists[a][i];
      }
    }
  }

  lemma TakeNewLocated(lists: Lists, place: map<PageId, Place>, id: PageId)
    requires NULL_ID in lists && Located(lists, place) && id != NULL_ID
    requires if lists[NULL_ID] == [] then id !in place && id !in lists
             else id == lists[NULL_ID][0] && id in place && id !in lists
    ensures Located(TakeNew(lists, id), TakeNewPlace(lists, place, id))
  {
    var lists', place' := TakeNew(lists, id), TakeNewPlace(lists, place, id);
    forall x | x in place'
      ensures At(lists', place'[x], x)
    {
      assert x != id ==> At(lists, place[x], x);
    }
  }

  lemma TakeNewDomain(lists: Lists, place: map<PageId, Place>, n: nat, id: PageId)
    requires NULL_ID in lists && id !in lists && id != NULL_ID
    requires forall x :: x in place <==> 1 <= x <= n
    requires forall g :: g in lists && g != NULL_ID ==> |lists[g]| > 0 && lists[g][0] == g
    requires if lists[NULL_ID] == [] then id == n + 1 else id in place
    ensures var n' := if lists[NULL_ID] == [] then n + 1 else n;
            forall x :: x in TakeNewPlace(lists, place, id) <==> 1 <= x <= n'
    ensures var lists' := TakeNew(lists, id);
            NULL_ID in lists' && forall g :: g in lists' && g != NULL_ID ==> |lists'[g]| > 0 && lists'[g][0] == g
  {
  }

  lemma TakeNewPartition(lists: Lists, place: map<PageId, Place>, n: nat, id: PageId)
    requires Partition(lists, place, n)
    requires if lists[NULL_ID] == [] then id == n + 1 else id == lists[NULL_ID][0]
    ensures Partition(TakeNew(lists, id), TakeNewPlace(lists, place, id), if lists[NULL_ID] == [] then n + 1 else n)
  {
    NewPageIsNoGroup(lists, place, n, id);
    TakeNewDomain(lists, place, n, id);
    TakeNewLocated(lists, place, id);
    TakeNewIndexed(lists, place, n, id);
  }

  // A page that is a group of its own joins the end of group g.
  function Attach(lists: Lists, g: PageId, id: PageId): Lists
    requires g in lists
  {
    (lists - {id})[g := lists[g] + [id]]
  }

  // A new page behind the chain of g.
  lemma AttachedLists(lists: Lists, g: PageId, id: PageId)
    requires NULL_ID in lists && id !in lists && id != NULL_ID && (lists[NULL_ID] != [] ==> id == lists[NULL_ID][0])
    requires g in lists && g != NULL_ID
    ensures g in TakeNew(lists, id)
    ensures var lists' := Attach(TakeNew(lists, id), g, id);
            && lists'.Keys == lists.Keys && lists'[g] == lists[g] + [id]
            && (if lists[NULL_ID] == [] then lists'[NULL_ID] == [] else [id] + lists'[NULL_ID] == lists[NULL_ID])
            && forall h :: h in lists && h != g && h != NULL_ID ==> lists'[h] == lists[h]
  {
  }

  lemma AttachPartition(lists: Lists, place: map<PageId, Place>, n: nat, g: PageId, id: PageId)
    requires Partition(lists, place, n)
    requires g in lists && g != NULL_ID && id in lists && lists[id] == [id] && id != g && id != NULL_ID
    ensures Partition(Attach(lists, g, id), place[id := Place(g, |lists[g]|)], n)
  {
    var lists', place' := Attach(lists, g, id), place[id := Place(g, |lists[g]|)];
    assert place[lists[id][0]] == Place(id, 0);
    forall x | x in place'
      ensures At(lists', place'[x], x)
    {
      if x != id {
        assert At(lists, place[x], x);
        assert place[x].list != id;
      }
    }
    forall a, i | a in lists' && 0 <= i < |lists'[a]|
      ensures lists'[a][i] in place' && place'[lists'[a][i]] == Place(a, i)
    {
      if !(a == g && i == |lists[g]|) {
        assert lists'[a][i] == lists[a][i];
        assert place[lists[a][i]] == Place(a, i);
      }
    }
  }

  // Page p of chain g is cut out and appended to the free list.
  function CutOut(lists: Lists, g: PageId, p: nat): Lists
    requires g in lists && NULL_ID in lists && p < |lists[g]|
  {
    lists[g := lists[g][..p] + lists[g][p + 1..]][NULL_ID := lists[NULL_ID] + [lists[g][p]]]
  }

  function CutOutPlace(lists: Lists, place: map<PageId, Place>, g: PageId, p: nat): map<PageId, Place>
    requires g in lists && NULL_ID in lists && p < |lists[g]|
  {
    map x | x in place ::
      if x == lists[g][p] then Place(NULL_ID, |lists[NULL_ID]|)
      else if place[x].list == g && place[x].index > p then Place(g, place[x].index - 1)
      else place[x]
  }

  lemma CutOutIndexed(lists: Lists, place: map<PageId, Place>, g: PageId, p: nat)
    requires NULL_ID in lists && Indexed(lists, place)
    requires g in lists && g != NULL_ID && p < |lists[g]|
    ensures Indexed(CutOut(lists, g, p), CutOutPlace(lists, place, g, p))
  {
    var lists', place' := CutOut(lists, g, p), CutOutPlace(lists, place, g, p);
    assert place[lists[g][p]] == Place(g, p);
    forall a, i | a in lists' && 0 <= i < |lists'[a]|
      ensures lists'[a][i] in place' && place'[lists'[a][i]] == Place(a, i)
    {
      if a == g {
        var j := if i < p then i else i + 1;
        assert lists'[a][i] == lists[a][j];
        assert place[lists[a][j]] == Place(a, j);
      } else if !(a == NULL_ID && i == |lists[NULL_ID]|) {
        assert lists'[a][i] == lists[a][i];
      }
    }
  }

  lemma CutOutLocated(lists: Lists, place: map<PageId, Place>, g: PageId, p: nat)
    requires NULL_ID in lists && Located(lists, place)
    requires g in lists && g != NULL_ID && p < |lists[g]|
    ensures Located(CutOut(lists, g, p), CutOutPlace(lists, place, g, p))
  {
    var lists', place' := CutOut(lists, g, p), CutOutPlace(lists, place, g, p);
    forall x | x in place'
      ensures At(lists', place'[x], x)
    {
      assert At(lists, place[x], x);
    }
  }

  lemma CutOutPartition(lists: Lists, place: map<PageId, Place>, n: nat, g: PageId, p: nat)
    requires Partition(lists, place, n)
    requires g in lists && g != NULL_ID && 1 <= p < |lists[g]|
    ensures Partition(CutOut(lists, g, p), CutOutPlace(lists, place, g, p), n)
  {
    CutOutIndexed(lists, place, g, p);
    CutOutLocated(lists, place, g, p);
  }

  // Group g is dissolved: its chain is appended to the free list.
  function Dissolve(lists: Lists, g: PageId): Lists
    requires g in lists && NULL_ID in lists
  {
    (lists - {g})[NULL_ID := lists[NULL_ID] + lists[g]]
  }

  function DissolvePlace(lists: Lists, place: map<PageId, Place>, g: PageId): map<PageId, Place>
    requires g in lists && NULL_ID in lists
  {
    map x | x in place ::
      if place[x].list == g then Place(NULL_ID, |lists[NULL_ID]| + place[x].index) else place[x]
  }

  lemma DissolvePartition(lists: Lists, place: map<PageId, Place>, n: nat, g: PageId)
    requires Partition(lists, place, n) && g in lists && g != NULL_ID
    ensures Partition(Dissolve(lists, g), DissolvePlace(lists, place, g), n)
  {
    var lists', place' := Dissolve(lists, g), DissolvePlace(lists, place, g);
    forall x | x in place'
      ensures At(lists', place'[x], x)
    {
      assert At(lists, place[x], x);
    }
    forall a, i | a in lists' && 0 <= i < |lists'[a]|
      ensures lists'[a][i] in place' && place'[lists'[a][i]] == Place(a, i)
    {
      if a == NULL_ID && i >= |lists[NULL_ID]| {
        assert lists'[a][i] == lists[g][i - |lists[NULL_ID]|];
      } else {
        assert lists'[a][i] == lists[a][i];
        assert place[lists[a][i]] == Place(a, i);
      }
    }
  }
}
