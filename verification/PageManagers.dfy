/** The page manager itself: the cache array and the relevancy counter over the page file, changed in place. */
module PageManagers {
  import opened Bytes
  import opened PageLists
  import opened PageCache
  import opened LittleEndian
  import opened PageFile
  import opened Wrappers

  function Zeroes(size: nat): (page: Page)
    ensures |page| == size && forall k :: 0 <= k < size ==> page[k] == 0
  {
    seq(size, _ => 0)
  }

  // The entries of a cache just built.
  function BlankEntries(cacheSize: nat, size: nat): seq<CacheEntry>
  {
    seq(cacheSize, _ => CacheEntry(0, false, NULL_ID, Zeroes(size)))
  }

  // Some entry still has to be written.
  ghost predicate SomeAltered(es: seq<CacheEntry>)
  {
    exists i :: 0 <= i < |es| && es[i].altered
  }

  // Contents fill a page, and what will be written belongs to a minted page.
  ghost predicate Sized(es: seq<CacheEntry>, h: FileHeader)
  {
    forall i :: 0 <= i < |es| ==>
      |es[i].contents| == h.pageSize && (es[i].altered ==> 1 <= es[i].pageId <= h.pageAmount)
  }

  class PageManager {
    const resolver: PageResolver
    const maximum: nat
    const cache: array<CacheEntry>
    var current: nat
    var last: PageId

    // The cache, as the value the theorems speak about.
    ghost function State(): Cache
      reads this, cache, resolver
    {
      Cache(cache[..], current, last, resolver.pages, resolver.header.pageAmount)
    }

    ghost predicate Valid()
      reads this, cache, resolver
    {
      && resolver.Valid() && cache.Length > 0
      && Sized(cache[..], resolver.header)
      && (resolver.header.pageAmount > 0 ==> Addressable(resolver.header, resolver.header.pageAmount))
      // the header on file is current or will be with the next page written
      && (HeaderStored() || SomeAltered(cache[..]))
    }

    ghost predicate HeaderStored()
      reads resolver
    {
      Stored(resolver.file, 0, HeaderBytes(resolver.header))
    }

    // The file holds every minted page and its header, as it does when new and after a flush.
    constructor (resolver: PageResolver, cacheSize: nat, maximum: nat, ghost pages: seq<Page>)
      requires cacheSize > 0 && maximum > 1 && resolver.Valid()
      requires Stored(resolver.file, 0, HeaderBytes(resolver.header)) && resolver.header.pageAmount == |pages|
      requires |pages| > 0 ==> Addressable(resolver.header, |pages|)
      requires forall q :: q in resolver.pages <==> 1 <= q <= |pages|
      requires forall q :: 1 <= q <= |pages| ==> resolver.pages[q] == pages[q - 1]
      ensures Valid() && Holds(State(), pages) && fresh(cache)
      ensures State() == Cache(BlankEntries(cacheSize, resolver.header.pageSize), 1, NULL_ID, resolver.pages, |pages|)
      ensures this.resolver == resolver && this.maximum == maximum
    {
      var blank := Zeroes(resolver.header.pageSize);
      this.resolver, this.maximum := resolver, maximum;
      cache := new CacheEntry[cacheSize](_ => CacheEntry(0, false, NULL_ID, blank));
      current, last := 1, NULL_ID;
      new;
      OpenedHolds(State(), pages);
    }

    method GetLeastRelevantEntry() returns (v: nat)
      requires cache.Length > 0
      ensures v == Victim(cache[..])
      ensures v < cache.Length && forall j :: 0 <= j < cache.Length ==> cache[v].relevancy <= cache[j].relevancy
      ensures forall j :: 0 <= j < v ==> cache[v].relevancy < cache[j].relevancy
    {
      v := 0;
      var i := 1;
      while i < cache.Length
        invariant 1 <= i <= cache.Length && v == VictimTo(cache[..], i)
      {
        if cache[i].relevancy < cache[v].relevancy {
          v := i;
        }
        i := i + 1;
      }
    }

    // flush_entry, and with it the header.
    method FlushOne(i: nat)
      requires Valid() && i < cache.Length
      modifies resolver`file, resolver`wasFileHeaderAltered, resolver`pages
      ensures Valid() && State() == WriteBack(old(State()), i)
      ensures cache[i].altered ==> HeaderStored()
    {
      hide PageResolver.Valid, Sized, Addressable;
      if cache[i].altered {
        EntryFits(this, i);
        resolver.WritePage(cache[i].pageId, cache[i].contents);
        HeaderIsStored(resolver);
      }
    }

    method ResetRelevancyValues()
      modifies `current, cache
      ensures State() == Hidden(old(State())) && current == 1
      ensures forall j :: 0 <= j < cache.Length ==> cache[j] == old(cache[j]).(relevancy := 0)
    {
      var i := 0;
      while i < cache.Length
        invariant 0 <= i <= cache.Length && current == old(current)
        invariant forall j :: 0 <= j < cache.Length ==>
                    cache[j] == if j < i then old(cache[j]).(relevancy := 0) else old(cache[j])
      {
        cache[i] := cache[i].(relevancy := 0);
        i := i + 1;
      }
      current := 1;
      assert cache[..] == Hidden(old(State())).entries;
    }

    // At the maximum the counter starts again, and every entry is hidden.
    method GetRelevancyValue(id: PageId) returns (value: nat)
      modifies `current, `last, cache
      ensures State() == Touch(if old(current) == maximum then Hidden(old(State())) else old(State()), id)
      ensures value == current && last == id
      ensures var start := if old(current) == maximum then 1 else old(current);
              current == if old(last) == id then start else start + 1
    {
      if current == maximum {
        ResetRelevancyValues();
      }
      if last != id {
        current := current + 1;
        last := id;
      }
      value := current;
    }

    // A miss: the least relevant entry is written back if marked, and holds the page from the file.
    method LoadPageFromResolver(id: PageId) returns (i: nat)
      requires Valid() && current < maximum && 1 <= id <= resolver.header.pageAmount && id in resolver.pages
      modifies this, cache, resolver`file, resolver`wasFileHeaderAltered, resolver`pages
      ensures Valid() && i == Victim(old(cache[..])) && State() == Load(old(State()), id)
      // the entry keeps its mark; a marked one was written back first
      ensures i < cache.Length && cache[i].altered == old(cache[..])[i].altered
      ensures cache[i].pageId == id && cache[i].relevancy == current && last == id
      ensures id in resolver.pages && cache[i].contents == resolver.pages[id]
      ensures current == if old(last) == id then old(current) else old(current) + 1
      ensures forall j :: 0 <= j < cache.Length && j != i ==> cache[j] == old(cache[j])
      ensures var e := old(cache[..])[i];
              resolver.pages == if e.altered then old(resolver.pages)[e.pageId := e.contents] else old(resolver.pages)
    {
      hide PageResolver.Valid, Sized, Addressable, SomeAltered;
      i := GetLeastRelevantEntry();
      FlushOne(i);
      var value := GetRelevancyValue(id);
      ghost var es := cache[..];
      var page := resolver.ReadPage(id);
      PageFits(resolver, id);
      cache[i] := cache[i].(relevancy := value, pageId := id);
      cache[i] := cache[i].(contents := page.value);
      EntryTaken(es, resolver.header, i, cache[i]);
      assert cache[..] == Load(old(State()), id).entries;
    }

    method LoadPageFromCache(i: nat, id: PageId)
      requires Valid() && i < cache.Length && current < maximum
      requires cache[i].relevancy != 0 && cache[i].pageId == id && 1 <= id <= resolver.header.pageAmount
      modifies this, cache
      ensures Valid() && State() == Hit(old(State()), i, id)
      // marked for a mere read too
      ensures cache[i] == old(cache[i]).(altered := true, relevancy := current) && last == id
      ensures current == if old(last) == id then old(current) else old(current) + 1
      ensures forall j :: 0 <= j < cache.Length && j != i ==> cache[j] == old(cache[j])
    {
      hide PageResolver.Valid, Sized, Addressable, SomeAltered;
      ghost var es := cache[..];
      cache[i] := cache[i].(altered := true);
      var value := GetRelevancyValue(id);
      cache[i] := cache[i].(relevancy := value);
      SizeAt(es, resolver.header, i);
      EntryTaken(es, resolver.header, i, cache[i]);
      assert cache[..] == Hit(old(State()), i, id).entries;
    }

    // The index stands for the pointer into the cache that the caller receives. The page is in the
    // cache or in the file.
    method GetPage(id: PageId) returns (i: nat)
      requires Valid() && current < maximum && 1 <= id <= resolver.header.pageAmount
      requires Find(cache[..], id) < cache.Length || id in resolver.pages
      modifies this, cache, resolver`file, resolver`wasFileHeaderAltered, resolver`pages
      ensures Valid() && i == Slot(old(State()), id) && State() == Get(old(State()), id)
      // the entry returned is marked exactly when the page was in the cache or the entry taken over was marked
      ensures i < cache.Length && cache[i].pageId == id && cache[i].relevancy == current
      ensures cache[i].altered <==>
                (exists j :: 0 <= j < cache.Length && old(cache[j]).relevancy != 0 && old(cache[j]).pageId == id) ||
                old(cache[..])[i].altered
    {
      hide PageManager.Valid, Hit, Load;
      i := 0;
      while i < cache.Length
        invariant 0 <= i <= cache.Length && Find(cache[..], id) == FindFrom(cache[..], id, i)
        invariant Valid() && State() == old(State()) && current < maximum && resolver.header == old(resolver.header)
      {
        if cache[i].relevancy != 0 && cache[i].pageId == id {
          LoadPageFromCache(i, id);
          return;
        }
        i := i + 1;
      }
      i := LoadPageFromResolver(id);
    }

    // The new page's offset must fit in 32 bits.
    method CreatePage() returns (i: nat, id: PageId)
      requires Valid() && current < maximum && resolver.header.pageAmount + 1 < U64_LIMIT
      requires Addressable(resolver.header, resolver.header.pageAmount + 1)
      modifies this, cache, resolver`file, resolver`header, resolver`wasFileHeaderAltered, resolver`pages
      ensures Valid() && i == Victim(old(cache[..])) && id == old(resolver.header.pageAmount) + 1
      ensures resolver.header == old(resolver.header).(pageAmount := id)
      ensures State() == PageCache.CreatePage(old(State()), Zeroes(resolver.header.pageSize))
      // marked, and every byte is 0
      ensures i < cache.Length && cache[i].altered && cache[i].pageId == id && cache[i].relevancy == current
      ensures |cache[i].contents| == resolver.header.pageSize
      ensures forall k :: 0 <= k < |cache[i].contents| ==> cache[i].contents[k] == 0
      ensures last == NULL_ID && current == if old(last) == NULL_ID then old(current) else old(current) + 1
      ensures forall j :: 0 <= j < cache.Length && j != i ==> cache[j] == old(cache[j])
      ensures var e := old(cache[..])[i];
              resolver.pages == if e.altered then old(resolver.pages)[e.pageId := e.contents] else old(resolver.pages)
    {
      hide PageResolver.Valid, Sized, SomeAltered;
      i := GetLeastRelevantEntry();
      FlushOne(i);
      var value := GetRelevancyValue(NULL_ID);
      ghost var es, h := cache[..], resolver.header;
      var zeroes := Zeroes(resolver.header.pageSize);
      cache[i] := cache[i].(relevancy := value);
      cache[i] := cache[i].(altered := true);
      cache[i] := cache[i].(contents := zeroes);
      id := resolver.GetNewPageId();
      cache[i] := cache[i].(pageId := id);
      SizedMore(es, h, resolver.header);
      EntryTaken(es, resolver.header, i, cache[i]);
      assert cache[..] == PageCache.CreatePage(old(State()), zeroes).entries;
    }

    method Flush()
      requires Valid()
      modifies cache, resolver`file, resolver`wasFileHeaderAltered, resolver`pages
      ensures Valid() && State() == PageCache.Flush(old(State())) && HeaderStored()
      ensures forall j :: 0 <= j < cache.Length ==>
                cache[j] == if old(cache[j]).altered then old(cache[j]).(relevancy := 0, altered := false)
                            else old(cache[j])
    {
      hide PageResolver.Valid, Sized, SomeAltered, Addressable;
      var i := 0;
      while i < cache.Length
        invariant 0 <= i <= cache.Length && State() == FlushTo(old(State()), i)
        invariant Valid()
      {
        ghost var before := State();
        if cache[i].altered {
          FlushOne(i);
          ghost var es := cache[..];
          SizeAt(es, resolver.header, i);
          cache[i] := cache[i].(relevancy := 0, altered := false);
          EntryTaken(es, resolver.header, i, cache[i]);
        }
        assert cache[..] == FlushEntry(before, i).entries;
        i := i + 1;
      }
      NoneAltered(cache[..]);
      FlushToEntries(old(State()), cache.Length);
    }

    // A caller's write through the pointer.
    method Write(i: nat, contents: Page)
      requires Valid() && i < cache.Length && |contents| == resolver.header.pageSize
      modifies cache
      ensures Valid() && State() == Put(old(State()), i, contents)
    {
      hide PageResolver.Valid, Sized, SomeAltered, Addressable;
      ghost var es := cache[..];
      SizeAt(es, resolver.header, i);
      cache[i] := cache[i].(contents := contents);
      EntryTaken(es, resolver.header, i, cache[i]);
      assert cache[..] == Put(old(State()), i, contents).entries;
    }
  }

  // A page of the file fills a page.
  lemma PageFits(r: PageResolver, id: PageId)
    requires r.Valid() && id in r.pages
    ensures |r.pages[id]| == r.header.pageSize
  {
    assert PageStored(r.file, r.header, id, r.pages[id]);
  }

  lemma SizeAt(es: seq<CacheEntry>, h: FileHeader, i: nat)
    requires Sized(es, h) && i < |es|
    ensures |es[i].contents| == h.pageSize
    ensures es[i].altered ==> 1 <= es[i].pageId <= h.pageAmount
  {
  }

  lemma SizedMore(es: seq<CacheEntry>, h: FileHeader, h': FileHeader)
    requires Sized(es, h) && h'.pageSize == h.pageSize && h.pageAmount <= h'.pageAmount
    ensures Sized(es, h')
  {
  }

  lemma NoneAltered(es: seq<CacheEntry>)
    requires forall i :: 0 <= i < |es| ==> !es[i].altered
    ensures !SomeAltered(es)
  {
  }

  // One entry is replaced.
  lemma EntryTaken(es: seq<CacheEntry>, h: FileHeader, i: nat, e: CacheEntry)
    requires Sized(es, h) && i < |es| && |e.contents| == h.pageSize && (e.altered ==> 1 <= e.pageId <= h.pageAmount)
    ensures Sized(es[i := e], h)
    ensures e.altered ==> SomeAltered(es[i := e])
    ensures SomeAltered(es) && (es[i].altered ==> e.altered) ==> SomeAltered(es[i := e])
  {
    if SomeAltered(es) && (es[i].altered ==> e.altered) {
      var j :| 0 <= j < |es| && es[j].altered;
      assert es[i := e][j].altered;
    }
    if e.altered {
      assert es[i := e][i].altered;
    }
  }

  lemma EntryFits(m: PageManager, i: nat)
    requires m.Valid() && i < m.cache.Length && m.cache[i].altered
    ensures var id := m.cache[i].pageId;
            && 1 <= id <= m.resolver.header.pageAmount && Addressable(m.resolver.header, id)
            && |m.cache[i].contents| == m.resolver.header.pageSize
  {
    assert m.cache[..][i] == m.cache[i];
    AddressableBelow(m.resolver.header, m.cache[i].pageId, m.resolver.header.pageAmount);
  }

  lemma AddressableBelow(h: FileHeader, a: PageId, b: PageId)
    requires 1 <= a <= b && Addressable(h, b)
    ensures Addressable(h, a)
  {
    Product(a - 1, b - 1, h.pageSize);
  }

  lemma HeaderIsStored(r: PageResolver)
    requires r.Valid() && !r.wasFileHeaderAltered
    ensures Stored(r.file, 0, HeaderBytes(r.header))
  {
  }

  // ---- updates, sessions and what is on file after them ----

  lemma HoldsCount(c: Cache, pages: seq<Page>)
    requires Holds(c, pages)
    ensures |c.entries| > 0 && c.minted == |pages|
  {
  }

  lemma {:induction false} FlushToCount(c: Cache, n: nat)
    requires n <= |c.entries|
    ensures FlushTo(c, n).current == c.current
  {
    if n > 0 {
      FlushToCount(c, n - 1);
    }
  }

  // The counter grows by one at most.
  lemma ServeCount(c: Cache, r: Request, zeroes: Page)
    requires |c.entries| > 0
    ensures Serve(c, r, zeroes).current <= c.current + 1
  {
    hide Find, Victim;
    if r.FlushAll? {
      FlushToCount(c, |c.entries|);
    }
  }

  lemma HoldsFinds(c: Cache, pages: seq<Page>, id: PageId)
    requires Holds(c, pages) && 1 <= id <= |pages|
    ensures |c.entries| > 0 && (Find(c.entries, id) < |c.entries| || id in c.file)
  {
  }

  // Fetching a page and writing it in place, as the layers above do, keeps the pages exactly when the
  // entry is marked as altered, which a miss does not do, or the write changes nothing.
  lemma HoldsUpdate(c: Cache, pages: seq<Page>, id: PageId, b: Page)
    requires Holds(c, pages) && 1 <= id <= |pages|
    ensures |c.entries| > 0
    ensures Holds(Put(Get(c, id), Slot(c, id), b), pages[id - 1 := b]) <==>
            Get(c, id).entries[Slot(c, id)].altered || b == pages[id - 1]
  {
    hide Get, Slot, Put, Find, Sound, Tracked, Read;
    GetRefines(c, id);
    PutRefines(Get(c, id), Slot(c, id), id, b);
    PutTracked(Get(c, id), Slot(c, id), id, b);
    FetchedInFile(Get(c, id), id, Slot(c, id));
  }

  // An entry that is not marked as altered agrees with the file.
  lemma FetchedInFile(c: Cache, id: PageId, i: nat)
    requires Sound(c) && Tracked(c) && 1 <= id <= c.minted && Find(c.entries, id) == i < |c.entries|
    ensures c.entries[i].altered || (id in c.file && c.file[id] == Read(c, id))
  {
    assert InSync(c, i);
  }

  predicate RequestSized(r: Request, size: nat)
  {
    match r
    case Write(_, b) => |b| == size
    case New(b) => |b| == size
    case _ => true
  }

  // A request on the page manager follows the request on the cache as a value.
  method ServeRequest(m: PageManager, r: Request, ghost pages: seq<Page>)
    requires m.Valid() && Holds(m.State(), pages) && Proper(m.State(), r) && m.current < m.maximum
    requires RequestSized(r, m.resolver.header.pageSize)
    requires r.New? ==> |pages| + 1 < U64_LIMIT && Addressable(m.resolver.header, |pages| + 1)
    modifies m, m.cache, m.resolver`file, m.resolver`header, m.resolver`wasFileHeaderAltered, m.resolver`pages
    ensures m.Valid() && m.State() == Serve(old(m.State()), r, Zeroes(m.resolver.header.pageSize))
    ensures Holds(m.State(), Plain(pages, r))
    ensures m.current <= old(m.current) + 1
    ensures m.resolver.header == old(m.resolver.header).(pageAmount := |Plain(pages, r)|)
  {
    hide PageManager.Valid, Holds, Get, Slot, PageCache.CreatePage, PageCache.Flush, Put, Addressable, Victim;
    HoldsCount(m.State(), pages);
    ServeRefines(m.State(), pages, r, Zeroes(m.resolver.header.pageSize));
    ServeCount(m.State(), r, Zeroes(m.resolver.header.pageSize));
    match r {
      case Fetch(id) =>
        HoldsFinds(m.State(), pages, id);
        var i := m.GetPage(id);
      case Write(id, b) =>
        HoldsFinds(m.State(), pages, id);
        var i := m.GetPage(id);
        m.Write(i, b);
      case New(b) =>
        var i, id := m.CreatePage();
        m.Write(i, b);
      case FlushAll =>
        m.Flush();
    }
    HoldsCount(m.State(), Plain(pages, r));
  }

  lemma PlainGrows(pages: seq<Page>, r: Request)
    ensures |Plain(pages, r)| == |pages| + if r.New? then 1 else 0
  {
  }

  // What the file must hold for everything to be there when it is opened again.
  ghost predicate OnFile(r: PageResolver, pages: seq<Page>)
    reads r
  {
    && Open(r.file, |r.applicationHeader|) == Opened(r.header, r.flushed)
    && r.header.pageAmount == |pages|
    && forall q: PageId :: 1 <= q <= |pages| ==>
         ReadAt(r.file, Offset(r.header, q), r.header.pageSize) == Some(pages[q - 1])
  }

  // page_manager_destroy, up to closing the file: after the flush the file alone holds every page.
  method Close(m: PageManager, ghost pages: seq<Page>)
    requires m.Valid() && Holds(m.State(), pages)
    modifies m.cache, m.resolver`file, m.resolver`wasFileHeaderAltered, m.resolver`pages
    ensures m.Valid() && Holds(m.State(), pages) && OnFile(m.resolver, pages)
  {
    hide PageManager.Valid, OnFile, Sound, Tracked, Read, FlushTo;
    FlushRefines(m.State());
    m.Flush();
    FlushedOnFile(m, pages);
  }

  lemma FlushedOnFile(m: PageManager, pages: seq<Page>)
    requires m.Valid() && m.HeaderStored() && m.resolver.header.pageAmount == |pages|
    requires forall q :: 1 <= q <= |pages| ==> q in m.resolver.pages && m.resolver.pages[q] == pages[q - 1]
    ensures OnFile(m.resolver, pages)
  {
    hide Offset, Open;
    Reopened(m.resolver);
  }

  // A session: requests in any order and a close. Opened again, the file holds exactly the pages the
  // requests make on a plain list, as long as their offsets fit and writes go through marked entries.
  method Session(m: PageManager, rs: seq<Request>, ghost pages: seq<Page>)
    requires m.Valid() && Holds(m.State(), pages) && m.current + |rs| <= m.maximum
    requires m.cache.Length > 0 && AllProper(m.State(), rs, Zeroes(m.resolver.header.pageSize))
    requires forall k :: 0 <= k < |rs| ==> RequestSized(rs[k], m.resolver.header.pageSize)
    requires |PlainAll(pages, rs)| < U64_LIMIT
    requires PlainAll(pages, rs) != [] ==> Addressable(m.resolver.header, |PlainAll(pages, rs)|)
    modifies m, m.cache, m.resolver`file, m.resolver`header, m.resolver`wasFileHeaderAltered, m.resolver`pages
    ensures m.Valid() && Holds(m.State(), PlainAll(pages, rs)) && OnFile(m.resolver, PlainAll(pages, rs))
    ensures m.resolver.header == old(m.resolver.header).(pageAmount := |PlainAll(pages, rs)|)
  {
    hide PageManager.Valid, Holds, Proper, Serve, Plain, Addressable, RequestSized;
    ghost var now, size := pages, m.resolver.header.pageSize;
    var k := 0;
    HoldsCount(m.State(), pages);
    assert rs[0..] == rs;
    while k < |rs|
      invariant 0 <= k <= |rs| && m.Valid() && Holds(m.State(), now) && m.current + (|rs| - k) <= m.maximum
      invariant AllProper(m.State(), rs[k..], Zeroes(size)) && PlainAll(now, rs[k..]) == PlainAll(pages, rs)
      invariant m.resolver.header == old(m.resolver.header).(pageAmount := |now|)
    {
      assert rs[k..][1..] == rs[k + 1..];
      PlainGrows(now, rs[k]);
      assert |Plain(now, rs[k])| <= |PlainAll(pages, rs)|;
      if rs[k].New? {
        Reaches(m.resolver.header, old(m.resolver.header), |Plain(now, rs[k])|, |PlainAll(pages, rs)|);
      }
      ServeRequest(m, rs[k], now);
      now := Plain(now, rs[k]);
      k := k + 1;
    }
    Close(m, now);
  }

  lemma Reaches(h: FileHeader, h0: FileHeader, a: nat, b: nat)
    requires h.offsetToData == h0.offsetToData && h.pageSize == h0.pageSize && 1 <= a <= b && Addressable(h0, b)
    ensures Addressable(h, a)
  {
    AddressableBelow(h0, a, b);
  }

  // ---- session after session ----

  // The list of pages as a map.
  function PagesMap(pages: seq<Page>): (m: map<PageId, Page>)
    ensures forall q :: q in m <==> 1 <= q <= |pages|
    ensures forall q :: 1 <= q <= |pages| ==> m[q] == pages[q - 1]
  {
    if pages == [] then map[] else PagesMap(pages[..|pages| - 1])[|pages| := pages[|pages| - 1]]
  }

  function PlainSessions(pages: seq<Page>, sessions: seq<seq<Request>>): seq<Page>
    decreases sessions
  {
    if sessions == [] then pages else PlainSessions(PlainAll(pages, sessions[0]), sessions[1..])
  }

  // A session over a file that holds these pages may ask for this: writes go through marked entries, contents
  // fill a page, offsets fit in 32 bits, and the counter stays within its maximum.
  predicate Fitting(h: FileHeader, cacheSize: nat, maximum: nat, pages: seq<Page>, rs: seq<Request>)
    requires cacheSize > 0
  {
    && AllProper(Cache(BlankEntries(cacheSize, h.pageSize), 1, NULL_ID, PagesMap(pages), |pages|), rs,
      Zeroes(h.pageSize))
    && (forall k :: 0 <= k < |rs| ==> RequestSized(rs[k], h.pageSize))
    && 1 + |rs| <= maximum && |PlainAll(pages, rs)| < U64_LIMIT
    && (PlainAll(pages, rs) != [] ==> Addressable(h, |PlainAll(pages, rs)|))
  }

  predicate AllFitting(h: FileHeader, cacheSize: nat, maximum: nat, pages: seq<Page>, sessions: seq<seq<Request>>)
    requires cacheSize > 0
    decreases sessions
  {
    sessions == [] || (Fitting(h, cacheSize, maximum, pages, sessions[0])
                       && AllFitting(h, cacheSize, maximum, PlainAll(pages, sessions[0]), sessions[1..]))
  }

  // The resolver is open on a file that holds exactly these pages.
  ghost predicate OpenedOn(r: PageResolver, h: FileHeader, applicationHeader: seq<byte>, pages: seq<Page>)
    reads r
  {
    && r.Valid() && Stored(r.file, 0, HeaderBytes(r.header))
    && r.header == h.(pageAmount := |pages|) && r.applicationHeader == r.flushed == applicationHeader
    && r.pages == PagesMap(pages)
  }

  // The next session finds the file as this one left it.
  method OpenAgain(r: PageResolver, ghost h: FileHeader, ghost pages: seq<Page>) returns (r': PageResolver)
    requires OnFile(r, pages) && r.header == h.(pageAmount := |pages|) && r.flushed == r.applicationHeader
    requires h.pageSize > 0 && h.offsetToData == FILE_HEADER_SIZE + |r.applicationHeader|
    requires pages != [] ==> Addressable(h, |pages|)
    ensures fresh(r') && OpenedOn(r', h, r.applicationHeader, pages)
  {
    hide Offset, Open, PageResolver.Valid, HeaderBytes;
    forall q | 1 <= q <= |pages|
      ensures Addressable(r.header, q)
    {
      Reaches(r.header, h, q, |pages|);
    }
    hide Addressable;
    r' := new PageResolver.Reopen(r.file, |r.applicationHeader|, PagesMap(pages));
  }

  // From a new file on, session after session, each opening the file the one before closed: the bytes left at
  // the end are a file that holds exactly the pages all the requests make on a plain list.
  method Sessions(pageSize: nat, applicationHeader: seq<byte>, cacheSize: nat, maximum: nat,
                  sessions: seq<seq<Request>>)
    returns (r: PageResolver)
    requires 0 < pageSize < U64_LIMIT && FILE_HEADER_SIZE + |applicationHeader| < U32_LIMIT && cacheSize > 0
    requires maximum > 1
    requires AllFitting(FileHeader(FORMAT_TYPE, FILE_HEADER_SIZE + |applicationHeader|, pageSize, 0), cacheSize,
             maximum, [], sessions)
    ensures OpenedOn(r, FileHeader(FORMAT_TYPE, FILE_HEADER_SIZE + |applicationHeader|, pageSize, 0), applicationHeader,
                     PlainSessions([], sessions))
  {
    hide PageResolver.Valid, PageManager.Valid, Addressable, AllProper, PlainAll, OnFile, HeaderBytes;
    ghost var h, pages := FileHeader(FORMAT_TYPE, FILE_HEADER_SIZE + |applicationHeader|, pageSize, 0), [];
    r := new PageResolver.Create(pageSize, applicationHeader);
    var k := 0;
    assert sessions[0..] == sessions;
    while k < |sessions|
      invariant 0 <= k <= |sessions| && fresh(r) && OpenedOn(r, h, applicationHeader, pages)
      invariant pages != [] ==> Addressable(h, |pages|)
      invariant AllFitting(h, cacheSize, maximum, pages, sessions[k..])
      invariant PlainSessions(pages, sessions[k..]) == PlainSessions([], sessions)
    {
      assert sessions[k..][1..] == sessions[k + 1..];
      AddressableSame(h, r.header);
      var m := new PageManager(r, cacheSize, maximum, pages);
      Session(m, sessions[k], pages);
      pages := PlainAll(pages, sessions[k]);
      r := OpenAgain(m.resolver, h, pages);
      k := k + 1;
    }
  }

  lemma AddressableSame(h: FileHeader, h': FileHeader)
    requires h'.offsetToData == h.offsetToData && h'.pageSize == h.pageSize
    ensures forall q: PageId :: Addressable(h, q) <==> Addressable(h', q)
  {
  }
}
