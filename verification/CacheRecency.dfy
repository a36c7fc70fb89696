/** The relevancy counter of the page cache as a least-recently-used clock: exact for pages fetched, and for
    pages created up to the ties that creations in a row cause, which the entry's index decides. */
module CacheRecency {
  import opened PageLists
  import opened PageCache

  // The page a request touches; flush touches none and is left out of these runs.
  function Touched(c: Cache, r: Request): PageId
    requires !r.FlushAll?
  {
    match r
    case Fetch(id) => id
    case Write(id, _) => id
    case New(_) => c.minted + 1
  }

  // Only minted pages are asked for, and nothing is flushed.
  predicate Plays(c: Cache, rs: seq<Request>, zeroes: Page)
    requires |c.entries| > 0
    decreases rs
  {
    rs == [] || (!rs[0].FlushAll? && (rs[0].New? || 1 <= rs[0].id <= c.minted)
                 && Plays(Serve(c, rs[0], zeroes), rs[1..], zeroes))
  }

  // The pages a run touches, apart from p.
  function Others(c: Cache, rs: seq<Request>, zeroes: Page, p: PageId): set<PageId>
    requires |c.entries| > 0 && Plays(c, rs, zeroes)
    decreases rs
  {
    if rs == [] then {}
    else ({Touched(c, rs[0])} - {p}) + Others(Serve(c, rs[0], zeroes), rs[1..], zeroes, p)
  }

  predicate Avoids(c: Cache, rs: seq<Request>, zeroes: Page, p: PageId)
    requires |c.entries| > 0 && Plays(c, rs, zeroes)
    decreases rs
  {
    rs == [] || (Touched(c, rs[0]) != p && Avoids(Serve(c, rs[0], zeroes), rs[1..], zeroes, p))
  }

  // What makes the counter a clock: no entry is ahead of it, and only the page fetched last can carry its
  // current value. After a creation, whose key is the null page, several pages may.
  ghost predicate Clocked(c: Cache)
  {
    && |c.entries| > 0 && c.current > 0 && NoPageTwice(c.entries)
    && (forall j :: 0 <= j < |c.entries| && c.entries[j].relevancy != 0 ==>
          && 1 <= c.entries[j].pageId <= c.minted && c.entries[j].relevancy <= c.current
          && (c.last != NULL_ID && c.entries[j].relevancy == c.current ==> c.entries[j].pageId == c.last))
  }

  // Entry j makes room after entry i: it has the larger value, or the same value and the larger index.
  predicate IsAhead(es: seq<CacheEntry>, i: nat, j: nat)
    requires i < |es| && j < |es|
  {
    es[j].relevancy > es[i].relevancy || (es[j].relevancy == es[i].relevancy && j > i)
  }

  // The pages of the entries ahead of entry i.
  ghost function Ahead(es: seq<CacheEntry>, i: nat): (s: set<PageId>)
    requires i < |es|
  {
    AheadTo(es, i, |es|)
  }

  ghost function AheadTo(es: seq<CacheEntry>, i: nat, n: nat): (s: set<PageId>)
    requires i < |es| && n <= |es|
    ensures forall x :: x in s <==> exists j :: 0 <= j < n && IsAhead(es, i, j) && es[j].pageId == x
  {
    set j | 0 <= j < n && IsAhead(es, i, j) :: es[j].pageId
  }

  // Page p is visible in entry i.
  ghost predicate Sits(c: Cache, i: nat, p: PageId)
  {
    i < |c.entries| && 1 <= p <= c.minted && c.entries[i].relevancy > 0 && c.entries[i].pageId == p
  }

  // The next access of another page gets a larger value than entry i, even if it is a creation.
  ghost predicate Behind(c: Cache, i: nat)
    requires i < |c.entries|
  {
    c.last == NULL_ID ==> c.entries[i].relevancy < c.current
  }

  // The next creation gets a value no visible entry has: it does not follow another creation, or no visible
  // entry carries the current value.
  ghost predicate FreshValue(c: Cache)
  {
    c.last != NULL_ID || forall j :: 0 <= j < |c.entries| && c.entries[j].relevancy != 0 ==>
      c.entries[j].relevancy != c.current
  }

  // ---- one request ----

  // Page q moves into entry s with the current value; the other entries keep their page and value.
  ghost predicate Moved(c: Cache, c': Cache, s: nat, q: PageId)
  {
    && |c'.entries| == |c.entries| && s < |c.entries|
    && (forall j :: 0 <= j < |c.entries| && j != s ==>
          c'.entries[j].relevancy == c.entries[j].relevancy && c'.entries[j].pageId == c.entries[j].pageId)
    && c'.entries[s].pageId == q && c'.entries[s].relevancy == c'.current
    && (c'.last == q || (c'.last == NULL_ID && q == c'.minted == c.minted + 1))
    && c'.current == (if c'.last == c.last then c.current else c.current + 1)
    && c.minted <= c'.minted && 1 <= q <= c'.minted
    && (Find(c.entries, q) == s || (Find(c.entries, q) == |c.entries|
          && forall j :: 0 <= j < |c.entries| && j != s ==> IsAhead(c.entries, s, j)))
  }

  lemma ServeMoves(c: Cache, r: Request, zeroes: Page) returns (s: nat)
    requires Clocked(c) && !r.FlushAll? && (r.New? || 1 <= r.id <= c.minted)
    ensures Moved(c, Serve(c, r, zeroes), s, Touched(c, r))
  {
    hide Get, Slot, Find, NoPageTwice, Victim, CreatePage;
    match r
    case Fetch(id) => s := Slot(c, id); GetMoves(c, id);
    case Write(id, b) => s := Slot(c, id); GetMoves(c, id);
    case New(b) => s := Victim(c.entries); CreateMoves(c, zeroes);
  }

  lemma CreateMoves(c: Cache, zeroes: Page)
    requires Clocked(c)
    ensures Moved(c, CreatePage(c, zeroes), Victim(c.entries), c.minted + 1)
  {
    FindNone(c.entries, c.minted + 1);
    hide Find, NoPageTwice;
  }

  lemma GetMoves(c: Cache, id: PageId)
    requires Clocked(c) && 1 <= id <= c.minted
    ensures Moved(c, Get(c, id), Slot(c, id), id)
  {
  }

  lemma MovedNoPageTwice(c: Cache, c': Cache, s: nat, q: PageId)
    requires Clocked(c) && Moved(c, c', s, q)
    ensures NoPageTwice(c'.entries)
  {
    OnlyAt(c.entries, q);
  }

  lemma MovedClocked(c: Cache, c': Cache, s: nat, q: PageId)
    requires Clocked(c) && Moved(c, c', s, q)
    ensures Clocked(c')
  {
    MovedNoPageTwice(c, c', s, q);
    OnlyAt(c.entries, q);
    hide NoPageTwice, Find;
  }

  // Nothing is ahead of a page just fetched.
  lemma MovedNewest(c: Cache, c': Cache, s: nat, q: PageId)
    requires Clocked(c) && Moved(c, c', s, q) && c'.last == q
    ensures Sits(c', s, q) && Ahead(c'.entries, s) == {}
  {
    MovedClocked(c, c', s, q);
  }

  lemma {:induction false} FlushToClocked(c: Cache, n: nat)
    requires Clocked(c) && n <= |c.entries|
    ensures Clocked(FlushTo(c, n))
  {
    if n > 0 {
      FlushToClocked(c, n - 1);
      hide FlushTo;
    }
  }

  // A cache just built has the clock ...
  lemma BuiltClocked(c: Cache)
    requires |c.entries| > 0 && c.current > 0 && forall i :: 0 <= i < |c.entries| ==> c.entries[i].relevancy == 0
    ensures Clocked(c) && FreshValue(c)
  {
  }

  // ... and every request keeps it, a flush as well.
  lemma ServeClocked(c: Cache, r: Request, zeroes: Page)
    requires Clocked(c) && (r.FlushAll? || r.New? || 1 <= r.id <= c.minted)
    ensures Clocked(Serve(c, r, zeroes))
  {
    if r.FlushAll? {
      FlushToClocked(c, |c.entries|);
    } else {
      var s := ServeMoves(c, r, zeroes);
      MovedClocked(c, Serve(c, r, zeroes), s, Touched(c, r));
    }
    hide Clocked;
  }

  // ---- the pigeonhole: pages ahead of p take one entry each ----

  function CountTo(es: seq<CacheEntry>, i: nat, n: nat): (k: nat)
    requires i < |es| && n <= |es|
    ensures k <= n
  {
    if n == 0 then 0 else CountTo(es, i, n - 1) + if IsAhead(es, i, n - 1) then 1 else 0
  }

  lemma {:induction false} PagesCount(es: seq<CacheEntry>, i: nat, n: nat)
    requires NoPageTwice(es) && i < |es| && es[i].relevancy > 0 && n <= |es|
    ensures |AheadTo(es, i, n)| == CountTo(es, i, n)
  {
    hide NoPageTwice, AheadTo, IsAhead;
    if n > 0 {
      PagesCount(es, i, n - 1);
      PagesStep(es, i, n);
    }
  }

  lemma PagesStep(es: seq<CacheEntry>, i: nat, n: nat)
    requires NoPageTwice(es) && i < |es| && es[i].relevancy > 0 && 0 < n <= |es|
    ensures IsAhead(es, i, n - 1) ==> es[n - 1].pageId !in AheadTo(es, i, n - 1)
    ensures AheadTo(es, i, n) == AheadTo(es, i, n - 1) + if IsAhead(es, i, n - 1) then {es[n - 1].pageId} else {}
  {
  }

  // Entry i is not ahead of itself; the count is short by one exactly when all others are.
  lemma {:induction false} CountBut(es: seq<CacheEntry>, n: nat, i: nat)
    requires i < |es| && n <= |es|
    ensures CountTo(es, i, n) <= if i < n then n - 1 else n
    ensures CountTo(es, i, n) == (if i < n then n - 1 else n) <==>
            forall j :: 0 <= j < n && j != i ==> IsAhead(es, i, j)
  {
    if n > 0 {
      CountBut(es, n - 1, i);
    }
  }

  lemma AheadCount(es: seq<CacheEntry>, i: nat)
    requires NoPageTwice(es) && i < |es| && es[i].relevancy > 0
    ensures |Ahead(es, i)| < |es|
    ensures |Ahead(es, i)| == |es| - 1 <==> forall j :: 0 <= j < |es| && j != i ==> IsAhead(es, i, j)
  {
    PagesCount(es, i, |es|);
    CountBut(es, |es|, i);
  }

  // ---- p stays until, with the pages ahead of it, as many others as there are entries were touched ----

  // The victim is p's entry exactly when every other entry is ahead and holds another page.
  lemma VictimIs(c: Cache, c': Cache, s: nat, q: PageId, i: nat, p: PageId)
    requires Clocked(c) && Moved(c, c', s, q) && Sits(c, i, p) && q != p
    ensures s == i <==> |Ahead(c.entries, i) + {q}| == |c.entries|
    ensures |Ahead(c.entries, i)| < |c.entries|
  {
    var es := c.entries;
    AheadCount(es, i);
    OnlyAt(es, q);
    if s == i {
      assert q !in Ahead(es, i);
    } else if IsAhead(es, i, s) {
      assert !IsAhead(es, s, i);
      assert Find(es, q) == s && q in Ahead(es, i);
      assert Ahead(es, i) + {q} == Ahead(es, i);
    }
  }

  // Another page moves: no page ahead of p leaves its entry, and the page touched is ahead as well, unless a
  // creation gives it the value of p's entry and a smaller index.
  lemma MovedKeeps(c: Cache, c': Cache, s: nat, q: PageId, i: nat, p: PageId)
    requires Clocked(c) && Moved(c, c', s, q) && Sits(c, i, p) && q != p && s != i
    ensures Sits(c', i, p) && Ahead(c'.entries, i) <= Ahead(c.entries, i) + {q}
    ensures i == 0 || c'.last == q || Behind(c, i) ==> Ahead(c'.entries, i) == Ahead(c.entries, i) + {q}
    ensures c'.last == q || Behind(c, i) ==> Behind(c', i)
  {
    var es, es' := c.entries, c'.entries;
    OnlyAt(es, q);
    hide Find, NoPageTwice;
    assert IsAhead(es, s, i) || es[s].pageId == q;
    forall j | 0 <= j < |es| && j != s
      ensures IsAhead(es', i, j) <==> IsAhead(es, i, j)
    {
    }
    forall x | x in Ahead(es', i)
      ensures x in Ahead(es, i) + {q}
    {
      var j :| 0 <= j < |es'| && IsAhead(es', i, j) && es'[j].pageId == x;
    }
    if i == 0 || c'.last == q || Behind(c, i) {
      assert IsAhead(es', i, s) && es'[s].pageId == q;
      forall x | x in Ahead(es, i) && x != q
        ensures x in Ahead(es', i)
      {
        var j :| 0 <= j < |es| && IsAhead(es, i, j) && es[j].pageId == x;
        assert es'[j].pageId == x;
      }
    }
  }

  lemma MovedAway(c: Cache, c': Cache, s: nat, q: PageId, p: PageId)
    requires Clocked(c) && Moved(c, c', s, q) && q != p
    requires Find(c.entries, p) == s || Find(c.entries, p) == |c.entries|
    ensures Find(c'.entries, p) == |c.entries|
  {
    OnlyAt(c.entries, p);
    FindNone(c'.entries, p);
  }

  lemma SitsFind(c: Cache, i: nat, p: PageId)
    requires Clocked(c) && Sits(c, i, p)
    ensures Find(c.entries, p) == i && |Ahead(c.entries, i)| < |c.entries|
  {
    OnlyAt(c.entries, p);
    AheadCount(c.entries, i);
  }

  // ---- runs ----

  lemma {:induction false} StaysAway(c: Cache, p: PageId, rs: seq<Request>, zeroes: Page)
    requires Clocked(c) && Find(c.entries, p) == |c.entries| && Plays(c, rs, zeroes) && Avoids(c, rs, zeroes, p)
    ensures Find(ServeAll(c, rs, zeroes).entries, p) == |c.entries|
    decreases rs
  {
    if rs != [] {
      var s := ServeMoves(c, rs[0], zeroes);
      hide Serve, Touched, Moved, Clocked, Find;
      var c', q := Serve(c, rs[0], zeroes), Touched(c, rs[0]);
      MovedClocked(c, c', s, q);
      MovedAway(c, c', s, q, p);
      StaysAway(c', p, rs[1..], zeroes);
    }
  }

  lemma Fewer(a: set<PageId>, b: set<PageId>)
    requires a <= b
    ensures |a| <= |b|
  {
    assert b == a + (b - a);
  }

  lemma OthersStep(c: Cache, rs: seq<Request>, zeroes: Page, p: PageId, t: set<PageId>)
    requires |c.entries| > 0 && rs != [] && Plays(c, rs, zeroes)
    ensures var q, rest := Touched(c, rs[0]), Others(Serve(c, rs[0], zeroes), rs[1..], zeroes, p);
            && (q != p ==> t + Others(c, rs, zeroes, p) == (t + {q}) + rest)
            && {} + rest <= t + Others(c, rs, zeroes, p)
  {
    hide Serve, Touched;
  }

  // In a run that leaves p alone, p is still cached exactly when the pages ahead of it and those touched are
  // fewer than there are entries. For an entry other than the first the run must not start with a creation
  // that gets the value of p's entry.
  lemma {:induction false} SitsExactly(c: Cache, i: nat, p: PageId, rs: seq<Request>, zeroes: Page)
    requires Clocked(c) && Sits(c, i, p) && Plays(c, rs, zeroes) && Avoids(c, rs, zeroes, p)
    requires i == 0 || Behind(c, i) || rs == [] || !rs[0].New?
    ensures Find(ServeAll(c, rs, zeroes).entries, p) ==
            if |Ahead(c.entries, i) + Others(c, rs, zeroes, p)| < |c.entries| then i else |c.entries|
    decreases rs
  {
    var t := Ahead(c.entries, i);
    var all := t + Others(c, rs, zeroes, p);
    SitsFind(c, i, p);
    if rs == [] {
      assert all == t;
    } else {
      var s := ServeMoves(c, rs[0], zeroes);
      var c', q := Serve(c, rs[0], zeroes), Touched(c, rs[0]);
      OthersStep(c, rs, zeroes, p, t);
      TouchedLast(c, rs[0], zeroes);
      hide Serve, Clocked, Find, Sits, Others, Moved, Plays, Avoids, Ahead;
      MovedClocked(c, c', s, q);
      VictimIs(c, c', s, q, i, p);
      if s == i {
        MovedAway(c, c', s, q, p);
        StaysAway(c', p, rs[1..], zeroes);
        Fewer(t + {q}, all);
      } else {
        MovedKeeps(c, c', s, q, i, p);
        SitsExactly(c', i, p, rs[1..], zeroes);
      }
    }
  }

  // In any run p stays while the pages ahead of it and those touched are fewer than there are entries.
  lemma {:induction false} SitsStays(c: Cache, i: nat, p: PageId, rs: seq<Request>, zeroes: Page)
    requires Clocked(c) && Sits(c, i, p) && Plays(c, rs, zeroes)
    requires |Ahead(c.entries, i) + Others(c, rs, zeroes, p)| < |c.entries|
    ensures Find(ServeAll(c, rs, zeroes).entries, p) == i
    decreases rs
  {
    SitsFind(c, i, p);
    if rs != [] {
      var s := ServeMoves(c, rs[0], zeroes);
      var c', q := Serve(c, rs[0], zeroes), Touched(c, rs[0]);
      var t, rest := Ahead(c.entries, i), Others(c', rs[1..], zeroes, p);
      var all := t + Others(c, rs, zeroes, p);
      OthersStep(c, rs, zeroes, p, t);
      TouchedLast(c, rs[0], zeroes);
      hide Serve, Clocked, Find, Others, Ahead;
      MovedClocked(c, c', s, q);
      if q == p {
        MovedNewest(c, c', s, q);
        Fewer({} + rest, all);
        SitsStays(c', s, p, rs[1..], zeroes);
      } else {
        VictimIs(c, c', s, q, i, p);
        Fewer(t + {q}, all);
        MovedKeeps(c, c', s, q, i, p);
        Fewer(Ahead(c'.entries, i) + rest, all);
        SitsStays(c', i, p, rs[1..], zeroes);
      }
    }
  }

  lemma TouchedLast(c: Cache, r: Request, zeroes: Page)
    requires Clocked(c) && !r.FlushAll?
    ensures Serve(c, r, zeroes).last == if r.New? then NULL_ID else r.id
  {
  }

  // A page returned by get_page stays in its entry through every run that touches fewer other pages
  // than there are entries.
  lemma FetchedStays(c: Cache, p: PageId, rs: seq<Request>, zeroes: Page)
    requires Clocked(c) && 1 <= p <= c.minted && Plays(Get(c, p), rs, zeroes)
    requires |Others(Get(c, p), rs, zeroes, p)| < |c.entries|
    ensures Find(ServeAll(Get(c, p), rs, zeroes).entries, p) == Slot(c, p)
  {
    GetMoves(c, p);
    TouchedLast(c, Fetch(p), zeroes);
    hide Get, Slot, Others, Plays, ServeAll, Find, Clocked, Ahead;
    MovedClocked(c, Get(c, p), Slot(c, p), p);
    MovedNewest(c, Get(c, p), Slot(c, p), p);
    assert {} + Others(Get(c, p), rs, zeroes, p) == Others(Get(c, p), rs, zeroes, p);
    SitsStays(Get(c, p), Slot(c, p), p, rs, zeroes);
  }

  // When the run leaves p alone, p is still cached exactly when fewer other pages were touched than
  // there are entries: the victim is always the least recently used page.
  lemma FetchedStaysExactly(c: Cache, p: PageId, rs: seq<Request>, zeroes: Page)
    requires Clocked(c) && 1 <= p <= c.minted && Plays(Get(c, p), rs, zeroes) && Avoids(Get(c, p), rs, zeroes, p)
    ensures Find(ServeAll(Get(c, p), rs, zeroes).entries, p) < |c.entries| <==>
            |Others(Get(c, p), rs, zeroes, p)| < |c.entries|
  {
    GetMoves(c, p);
    TouchedLast(c, Fetch(p), zeroes);
    hide Get, Slot, Others, Plays, ServeAll, Find, Clocked, Ahead;
    MovedClocked(c, Get(c, p), Slot(c, p), p);
    MovedNewest(c, Get(c, p), Slot(c, p), p);
    assert {} + Others(Get(c, p), rs, zeroes, p) == Others(Get(c, p), rs, zeroes, p);
    SitsExactly(Get(c, p), Slot(c, p), p, rs, zeroes);
  }

  // ---- pages created ----

  lemma CreatedSits(c: Cache, contents: Page, zeroes: Page)
    requires Clocked(c)
    ensures var c', v := Serve(c, New(contents), zeroes), Victim(c.entries);
            && Clocked(c') && Sits(c', v, c.minted + 1) && |c'.entries| == |c.entries|
            && c'.last == NULL_ID && c'.entries[v].relevancy == c'.current
  {
    CreateMoves(c, zeroes);
    hide CreatePage, Find, Victim;
    MovedClocked(c, CreatePage(c, zeroes), Victim(c.entries), c.minted + 1);
  }

  // A page created stays in its entry through every run, further creations among it, while the pages ahead of
  // it and those touched are fewer than there are entries.
  lemma CreatedStays(c: Cache, contents: Page, rs: seq<Request>, zeroes: Page)
    requires Clocked(c) && Plays(Serve(c, New(contents), zeroes), rs, zeroes)
    requires var c' := Serve(c, New(contents), zeroes);
             |Ahead(c'.entries, Victim(c.entries)) + Others(c', rs, zeroes, c.minted + 1)| < |c.entries|
    ensures Find(ServeAll(Serve(c, New(contents), zeroes), rs, zeroes).entries, c.minted + 1) == Victim(c.entries)
  {
    CreatedSits(c, contents, zeroes);
    SitsStays(Serve(c, New(contents), zeroes), Victim(c.entries), c.minted + 1, rs, zeroes);
  }

  // Nothing is ahead of it exactly when no entry behind the one taken over carries its value.
  lemma NothingAhead(c: Cache, contents: Page, zeroes: Page)
    requires Clocked(c)
    ensures var c', v := Serve(c, New(contents), zeroes), Victim(c.entries);
            && (Ahead(c'.entries, v) == {} <==>
                  forall j :: v < j < |c.entries| ==> c.entries[j].relevancy != c'.current)
            && (FreshValue(c) ==> Ahead(c'.entries, v) == {})
  {
    CreatedSits(c, contents, zeroes);
    CreateMoves(c, zeroes);
    hide Victim, Find;
    var c', v := Serve(c, New(contents), zeroes), Victim(c.entries);
    forall j | 0 <= j < |c.entries|
      ensures IsAhead(c'.entries, v, j) <==> v < j && c.entries[j].relevancy == c'.current
    {
    }
    if j :| v < j < |c.entries| && c.entries[j].relevancy == c'.current {
      assert IsAhead(c'.entries, v, j) && c'.entries[j].pageId in Ahead(c'.entries, v);
    }
  }

  // How many creations the run starts with.
  function Creations(rs: seq<Request>): (k: nat)
    ensures k <= |rs|
    ensures forall j :: 0 <= j < k ==> rs[j].New?
    ensures k < |rs| ==> !rs[k].New?
  {
    if rs != [] && rs[0].New? then 1 + Creations(rs[1..]) else 0
  }

  // The page just created, in an entry other than the first, and the next creation in a row.
  ghost predicate Tied(c: Cache, i: nat, p: PageId)
  {
    Clocked(c) && Sits(c, i, p) && 0 < i && c.last == NULL_ID && c.entries[i].relevancy == c.current
  }

  lemma CreationSpares(c: Cache, i: nat, p: PageId, contents: Page, zeroes: Page)
    requires Tied(c, i, p) && p != c.minted + 1
    ensures var c' := Serve(c, New(contents), zeroes);
            Tied(c', i, p) && |c'.entries| == |c.entries|
  {
    CreateMoves(c, zeroes);
    hide Victim, Find;
    var c', v := CreatePage(c, zeroes), Victim(c.entries);
    MovedClocked(c, c', v, c.minted + 1);
    assert !IsAhead(c.entries, i, 0);
    MovedKeeps(c, c', v, c.minted + 1, i, p);
  }

  // Creations in a row share one value and do not evict the page, however many.
  lemma {:induction false} CreationsSpare(c: Cache, i: nat, p: PageId, rs: seq<Request>, k: nat, zeroes: Page)
    requires Tied(c, i, p) && k <= |rs| && forall j :: 0 <= j < k ==> rs[j].New?
    requires Plays(c, rs, zeroes) && Avoids(c, rs, zeroes, p)
    ensures var c' := ServeAll(c, rs[..k], zeroes);
            && Tied(c', i, p) && |c'.entries| == |c.entries|
            && Plays(c', rs[k..], zeroes) && Avoids(c', rs[k..], zeroes, p)
            && ServeAll(c', rs[k..], zeroes) == ServeAll(c, rs, zeroes)
    decreases rs
  {
    if k == 0 {
      assert rs[0..] == rs;
    } else {
      CreationSpares(c, i, p, rs[0].contents, zeroes);
      hide Serve, Tied;
      assert rs[..k][0] == rs[0] && rs[..k][1..] == rs[1..][..k - 1] && rs[1..][k - 1..] == rs[k..];
      CreationsSpare(Serve(c, rs[0], zeroes), i, p, rs[1..], k - 1, zeroes);
    }
  }

  // In a run that leaves the page alone: if it took the first entry, or the run does not start with a creation,
  // the bound is exact. Otherwise the creations at the start do not evict it, and the bound is exact after them.
  lemma CreatedStaysExactly(c: Cache, contents: Page, rs: seq<Request>, zeroes: Page)
    requires Clocked(c) && Plays(Serve(c, New(contents), zeroes), rs, zeroes)
    requires Avoids(Serve(c, New(contents), zeroes), rs, zeroes, c.minted + 1)
    ensures var c', p, v := Serve(c, New(contents), zeroes), c.minted + 1, Victim(c.entries);
            var k := if v == 0 then 0 else Creations(rs);
            var c'' := ServeAll(c', rs[..k], zeroes);
            && |c''.entries| == |c.entries| && Plays(c'', rs[k..], zeroes)
            && Find(c''.entries, p) == v
            && Find(ServeAll(c', rs, zeroes).entries, p) ==
               if |Ahead(c''.entries, v) + Others(c'', rs[k..], zeroes, p)| < |c.entries| then v else |c.entries|
  {
    var c', p, v := Serve(c, New(contents), zeroes), c.minted + 1, Victim(c.entries);
    CreatedSits(c, contents, zeroes);
    var k := if v == 0 then 0 else Creations(rs);
    hide Serve, Victim, Clocked, Plays, Avoids, Others, Find, Ahead, Creations;
    if v == 0 {
      assert rs[..0] == [] && rs[0..] == rs;
    } else {
      CreationsSpare(c', v, p, rs, k, zeroes);
    }
    var c'' := ServeAll(c', rs[..k], zeroes);
    SitsFind(c'', v, p);
    SitsExactly(c'', v, p, rs[k..], zeroes);
  }

  // Four creations in a cache of two entries: the third page, the newest, makes room for the fourth, and the
  // second stays.
  lemma NewestEvicted(a: Page, zeroes: Page)
    ensures var blank := CacheEntry(0, false, NULL_ID, zeroes);
            var c3 := ServeAll(Cache([blank, blank], 1, NULL_ID, map[], 0), [New(a), New(a), New(a)], zeroes);
            && Find(c3.entries, 3) == 0 && Find(c3.entries, 2) == 1
            && Find(Serve(c3, New(a), zeroes).entries, 3) == 2 && Find(Serve(c3, New(a), zeroes).entries, 2) == 1
            && Ahead(c3.entries, 0) == {2}
  {
    var blank := CacheEntry(0, false, NULL_ID, zeroes);
    var c0 := Cache([blank, blank], 1, NULL_ID, map[], 0);
    var c1 := Serve(c0, New(a), zeroes);
    assert c1.entries == [CacheEntry(1, true, 1, a), blank] && c1.current == 1;
    var c2 := Serve(c1, New(a), zeroes);
    assert c2.entries == [CacheEntry(1, true, 1, a), CacheEntry(1, true, 2, a)] && c2.current == 1;
    var c3 := Serve(c2, New(a), zeroes);
    assert c3.entries == [CacheEntry(1, true, 3, a), CacheEntry(1, true, 2, a)] && c3.current == 1;
    var c4 := Serve(c3, New(a), zeroes);
    assert c4.entries == [CacheEntry(1, true, 4, a), CacheEntry(1, true, 2, a)];
    FindIs(c3.entries, 3, 0);
    FindIs(c3.entries, 2, 1);
    FindNone(c4.entries, 3);
    FindIs(c4.entries, 2, 1);
    var rs: seq<Request> := [New(a), New(a), New(a)];
    assert rs[1..] == [New(a), New(a)] && rs[1..][1..] == [New(a)] && rs[1..][1..][1..] == [];
    assert ServeAll(c0, rs, zeroes) == ServeAll(c1, rs[1..], zeroes) == ServeAll(c2, rs[1..][1..], zeroes) == c3;
  }

  // A run that starts with creations may touch as many others as there are entries and spare the page: nothing
  // is ahead of the second page, two others are touched, and the newer of them goes.
  lemma OlderSpared(a: Page, zeroes: Page)
    ensures var blank := CacheEntry(0, false, NULL_ID, zeroes);
            var c2 := ServeAll(Cache([blank, blank], 1, NULL_ID, map[], 0), [New(a), New(a)], zeroes);
            var rs := [New(a), New(a)];
            && |c2.entries| == 2 && Find(c2.entries, 2) == 1 && Ahead(c2.entries, 1) == {}
            && Plays(c2, rs, zeroes) && Others(c2, rs, zeroes, 2) == {3, 4}
            && Find(ServeAll(c2, rs, zeroes).entries, 3) == 2 && Find(ServeAll(c2, rs, zeroes).entries, 2) == 1
  {
    var blank := CacheEntry(0, false, NULL_ID, zeroes);
    var c0 := Cache([blank, blank], 1, NULL_ID, map[], 0);
    var c1 := Serve(c0, New(a), zeroes);
    assert c1.entries == [CacheEntry(1, true, 1, a), blank] && c1.current == 1;
    var c2 := Serve(c1, New(a), zeroes);
    assert c2.entries == [CacheEntry(1, true, 1, a), CacheEntry(1, true, 2, a)] && c2.current == 1;
    var c3 := Serve(c2, New(a), zeroes);
    assert c3.entries == [CacheEntry(1, true, 3, a), CacheEntry(1, true, 2, a)] && c3.current == 1;
    var c4 := Serve(c3, New(a), zeroes);
    assert c4.entries == [CacheEntry(1, true, 4, a), CacheEntry(1, true, 2, a)];
    FindIs(c2.entries, 2, 1);
    FindNone(c4.entries, 3);
    FindIs(c4.entries, 2, 1);
    var rs: seq<Request> := [New(a), New(a)];
    assert rs[1..] == [New(a)] && rs[1..][1..] == [];
    assert ServeAll(c0, rs, zeroes) == ServeAll(c1, rs[1..], zeroes) == c2;
    assert ServeAll(c2, rs, zeroes) == ServeAll(c3, rs[1..], zeroes) == c4;
    assert Others(c3, rs[1..], zeroes, 2) == {4};
  }
}
