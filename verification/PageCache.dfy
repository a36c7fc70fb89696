/** The write-back page cache, on values: what each operation of the page manager does. */
module PageCache {
  import opened Bytes
  import opened PageLists

  type Page = seq<byte>

  // relevancy 0 hides the entry; a larger value means a later access.
  datatype CacheEntry = CacheEntry(relevancy: nat, altered: bool, pageId: PageId, contents: Page)

  datatype Cache = Cache(entries: seq<CacheEntry>, current: nat, last: PageId, file: map<PageId, Page>, minted: nat)

  // ---- what the code computes ----

  // First visible entry with this id, or the number of entries.
  function Find(es: seq<CacheEntry>, id: PageId): (i: nat)
    ensures i <= |es|
    ensures i < |es| ==> es[i].relevancy != 0 && es[i].pageId == id
    ensures forall j :: 0 <= j < i ==> es[j].relevancy == 0 || es[j].pageId != id
    decreases |es|
  {
    FindFrom(es, id, 0)
  }

  function FindFrom(es: seq<CacheEntry>, id: PageId, n: nat): (i: nat)
    requires n <= |es|
    ensures n <= i <= |es|
    ensures i < |es| ==> es[i].relevancy != 0 && es[i].pageId == id
    ensures forall j :: n <= j < i ==> es[j].relevancy == 0 || es[j].pageId != id
    decreases |es| - n
  {
    if n == |es| || (es[n].relevancy != 0 && es[n].pageId == id) then n else FindFrom(es, id, n + 1)
  }

  // The first of the least relevant among the first n entries.
  function VictimTo(es: seq<CacheEntry>, n: nat): (v: nat)
    requires 0 < n <= |es|
    ensures v < n
    ensures forall j :: 0 <= j < n ==> es[v].relevancy <= es[j].relevancy
    ensures forall j :: 0 <= j < v ==> es[v].relevancy < es[j].relevancy
  {
    if n == 1 then 0
    else
      var v := VictimTo(es, n - 1);
      if es[n - 1].relevancy < es[v].relevancy then n - 1 else v
  }

  function Victim(es: seq<CacheEntry>): (v: nat)
    requires |es| > 0
    ensures v < |es|
    ensures forall j :: 0 <= j < |es| ==> es[v].relevancy <= es[j].relevancy
  {
    VictimTo(es, |es|)
  }

  // get_relevancy_value while the counter is below its maximum: an access to the page accessed
  // last gets the same value again.
  function Touch(c: Cache, id: PageId): Cache
  {
    if c.last == id then c else c.(current := c.current + 1, last := id)
  }

  function WriteBack(c: Cache, i: nat): Cache
    requires i < |c.entries|
  {
    if c.entries[i].altered then c.(file := c.file[c.entries[i].pageId := c.entries[i].contents]) else c
  }

  // A cache hit: the entry counts as altered from now on, even for a mere read.
  function Hit(c: Cache, i: nat, id: PageId): Cache
    requires i < |c.entries|
  {
    var t := Touch(c, id);
    t.(entries := c.entries[i := c.entries[i].(altered := true, relevancy := t.current)])
  }

  // The least relevant entry is written back if altered and taken over by page id.
  function Reuse(c: Cache, id: PageId, key: PageId, altered: bool, contents: Page, minted: nat): (r: Cache)
    requires |c.entries| > 0
    ensures |r.entries| == |c.entries|
  {
    var v := Victim(c.entries);
    var t := Touch(WriteBack(c, v), key);
    t.(entries := c.entries[v := CacheEntry(t.current, altered, id, contents)], minted := minted)
  }

  function FileAfterEviction(c: Cache): map<PageId, Page>
    requires |c.entries| > 0
  {
    WriteBack(c, Victim(c.entries)).file
  }

  // A miss: whether the entry counts as altered does not change.
  function Load(c: Cache, id: PageId): (r: Cache)
    requires |c.entries| > 0
    ensures |r.entries| == |c.entries|
  {
    var file := FileAfterEviction(c);
    Reuse(c, id, id, c.entries[Victim(c.entries)].altered, if id in file then file[id] else [], c.minted)
  }

  function Slot(c: Cache, id: PageId): (i: nat)
    requires |c.entries| > 0
    ensures i < |c.entries|
  {
    if Find(c.entries, id) < |c.entries| then Find(c.entries, id) else Victim(c.entries)
  }

  function Get(c: Cache, id: PageId): (r: Cache)
    requires |c.entries| > 0
    ensures |r.entries| == |c.entries|
  {
    if Find(c.entries, id) < |c.entries| then Hit(c, Find(c.entries, id), id) else Load(c, id)
  }

  function CreatePage(c: Cache, zeroes: Page): (r: Cache)
    requires |c.entries| > 0
    ensures |r.entries| == |c.entries|
  {
    Reuse(c, c.minted + 1, NULL_ID, true, zeroes, c.minted + 1)
  }

  // A write through the pointer that get_page or create_page returned.
  function Put(c: Cache, i: nat, b: Page): Cache
    requires i < |c.entries|
  {
    c.(entries := c.entries[i := c.entries[i].(contents := b)])
  }

  // Entry i written back and hidden if altered.
  function FlushEntry(c: Cache, i: nat): (r: Cache)
    requires i < |c.entries|
    ensures |r.entries| == |c.entries|
    ensures forall j :: 0 <= j < |c.entries| && j != i ==> r.entries[j] == c.entries[j]
    ensures !r.entries[i].altered
  {
    if c.entries[i].altered then
      WriteBack(c, i).(entries := c.entries[i := c.entries[i].(relevancy := 0, altered := false)])
    else c
  }

  function FlushTo(c: Cache, n: nat): (r: Cache)
    requires n <= |c.entries|
    ensures |r.entries| == |c.entries|
    ensures forall j :: 0 <= j < n ==> !r.entries[j].altered
  {
    if n == 0 then c else FlushEntry(FlushTo(c, n - 1), n - 1)
  }

  lemma {:induction false} FlushToEntries(c: Cache, n: nat)
    requires n <= |c.entries|
    ensures forall j :: 0 <= j < |c.entries| ==>
              FlushTo(c, n).entries[j] ==
              if j < n && c.entries[j].altered then c.entries[j].(relevancy := 0, altered := false) else c.entries[j]
  {
    if n > 0 {
      FlushToEntries(c, n - 1);
    }
  }

  function Flush(c: Cache): Cache { FlushTo(c, |c.entries|) }

  // ---- the plain map the cache stands for ----

  function Read(c: Cache, id: PageId): Page
  {
    var i := Find(c.entries, id);
    if i < |c.entries| then c.entries[i].contents else if id in c.file then c.file[id] else []
  }

  ghost predicate NoPageTwice(es: seq<CacheEntry>)
  {
    forall i, j ::
      (0 <= i < |es| && 0 <= j < |es| && es[i].relevancy != 0 && es[j].relevancy != 0 &&
        es[i].pageId == es[j].pageId) ==> i == j
  }

  // No page is visible twice; a page that is not visible is in the file; hidden entries hold
  // nothing that still has to be written.
  ghost predicate Sound(c: Cache)
  {
    && |c.entries| > 0 && c.current > 0
    && (forall i :: 0 <= i < |c.entries| && c.entries[i].relevancy != 0 ==>
          1 <= c.entries[i].pageId <= c.minted && c.entries[i].relevancy <= c.current)
    && NoPageTwice(c.entries)
    && (forall id :: 1 <= id <= c.minted && id !in c.file ==> Find(c.entries, id) < |c.entries|)
    && (forall i :: 0 <= i < |c.entries| && c.entries[i].altered ==> c.entries[i].relevancy != 0)
    && (forall id :: id in c.file ==> 1 <= id <= c.minted)
  }

  // Entry i is marked as altered or agrees with the file.
  ghost predicate InSync(c: Cache, i: nat)
    requires i < |c.entries|
  {
    var e := c.entries[i];
    e.relevancy != 0 && !e.altered ==> e.pageId in c.file && c.file[e.pageId] == e.contents
  }

  // Nothing altered goes unmarked.
  ghost predicate Tracked(c: Cache)
  {
    forall i :: 0 <= i < |c.entries| ==> InSync(c, i)
  }

  lemma FindIs(es: seq<CacheEntry>, id: PageId, i: nat)
    requires i < |es| && es[i].relevancy != 0 && es[i].pageId == id
    requires forall j :: 0 <= j < |es| && es[j].relevancy != 0 && es[j].pageId == id ==> j == i
    ensures Find(es, id) == i
  {
  }

  lemma FindNone(es: seq<CacheEntry>, id: PageId)
    requires forall j :: 0 <= j < |es| ==> es[j].relevancy == 0 || es[j].pageId != id
    ensures Find(es, id) == |es|
  {
  }

  lemma OnlyAt(es: seq<CacheEntry>, id: PageId)
    requires NoPageTwice(es)
    ensures forall j :: 0 <= j < |es| && es[j].relevancy != 0 && es[j].pageId == id ==> j == Find(es, id)
  {
    var i := Find(es, id);
    forall j | 0 <= j < |es| && es[j].relevancy != 0 && es[j].pageId == id
      ensures j == i
    {
      assert i <= j;
    }
  }

  // Two caches that agree on the visible entries of a page and on the file read it alike.
  lemma FindSame(es: seq<CacheEntry>, es': seq<CacheEntry>, id: PageId)
    requires |es| == |es'| && NoPageTwice(es) && NoPageTwice(es')
    requires forall j :: 0 <= j < |es| ==>
               ((es[j].relevancy != 0 && es[j].pageId == id) <==> (es'[j].relevancy != 0 && es'[j].pageId == id))
    ensures Find(es', id) == Find(es, id)
  {
    if Find(es, id) < |es| {
      FindIs(es', id, Find(es, id));
    } else {
      FindNone(es', id);
    }
  }

  // ---- a hit ----

  lemma HitSound(c: Cache, i: nat, id: PageId)
    requires Sound(c) && i < |c.entries| && Find(c.entries, id) == i
    ensures Sound(Hit(c, i, id)) && Hit(c, i, id).entries[i].altered
    ensures Tracked(c) ==> Tracked(Hit(c, i, id))
    ensures forall q :: Read(Hit(c, i, id), q) == Read(c, q)
  {
    var c' := Hit(c, i, id);
    forall q
      ensures Find(c'.entries, q) == Find(c.entries, q)
    {
      FindSame(c.entries, c'.entries, q);
    }
    if Tracked(c) {
      HitTracked(c, i, id);
    }
    hide Find, Tracked;
  }

  lemma HitTracked(c: Cache, i: nat, id: PageId)
    requires i < |c.entries| && Tracked(c)
    ensures Tracked(Hit(c, i, id))
  {
    var c' := Hit(c, i, id);
    forall j | 0 <= j < |c'.entries|
      ensures InSync(c', j)
    {
      assert InSync(c, j);
    }
  }

  // ---- taking over the least relevant entry ----

  // Page id is not in the cache: a page of the file, or a page that is just being minted.
  ghost predicate Reusable(c: Cache, id: PageId, minted: nat)
  {
    && Sound(c) && Find(c.entries, id) == |c.entries|
    && ((minted == c.minted && 1 <= id <= c.minted) || (id == minted == c.minted + 1))
  }

  lemma ReuseEntries(c: Cache, id: PageId, key: PageId, altered: bool, contents: Page, minted: nat)
    requires Reusable(c, id, minted)
    ensures var v, c' := Victim(c.entries), Reuse(c, id, key, altered, contents, minted);
            && c'.minted == minted && c'.current > 0 && c'.file == FileAfterEviction(c)
            && (forall j :: 0 <= j < |c.entries| && j != v ==> c'.entries[j] == c.entries[j])
            && c'.entries[v].pageId == id && c'.entries[v].altered == altered && c'.entries[v].contents == contents
            && c'.entries[v].relevancy == c'.current >= c.current
  {
  }

  // What the victim gives up is in the file.
  lemma EvictedFile(c: Cache)
    requires Sound(c)
    ensures var v, file := Victim(c.entries), FileAfterEviction(c);
            && (forall q :: q in file ==> 1 <= q <= c.minted)
            && (forall q :: q in c.file ==> q in file)
            && (forall q :: q in c.file && !(c.entries[v].altered && q == c.entries[v].pageId) ==> file[q] == c.file[q])
            && (c.entries[v].altered ==>
                  c.entries[v].pageId in file && file[c.entries[v].pageId] == c.entries[v].contents)
  {
  }

  lemma ReuseFind(c: Cache, id: PageId, key: PageId, altered: bool, contents: Page, minted: nat, q: PageId)
    requires Reusable(c, id, minted)
    ensures var v, c' := Victim(c.entries), Reuse(c, id, key, altered, contents, minted);
            && NoPageTwice(c'.entries)
            && (q == id ==> Find(c'.entries, q) == v)
            && (q != id && Find(c.entries, q) == v ==> Find(c'.entries, q) == |c.entries|)
            && (q != id && Find(c.entries, q) != v ==> Find(c'.entries, q) == Find(c.entries, q))
  {
    hide Reuse;
    var v, c' := Victim(c.entries), Reuse(c, id, key, altered, contents, minted);
    ReuseEntries(c, id, key, altered, contents, minted);
    OnlyAt(c.entries, q);
    OnlyAt(c.entries, id);
    if q == id {
      FindIs(c'.entries, q, v);
    } else if Find(c.entries, q) == v {
      FindNone(c'.entries, q);
    } else {
      FindSame(c.entries, c'.entries, q);
    }
  }

  // Eviction loses nothing exactly when the victim is marked as altered or agrees with the file.
  lemma ReuseRead(c: Cache, id: PageId, key: PageId, altered: bool, contents: Page, minted: nat, q: PageId)
    requires Reusable(c, id, minted) && 1 <= q <= c.minted && q != id
    ensures var v, c' := Victim(c.entries), Reuse(c, id, key, altered, contents, minted);
            && (Find(c.entries, q) != v ==> Read(c', q) == Read(c, q))
            && (Find(c.entries, q) == v ==> (Read(c', q) == Read(c, q) <==>
                  c.entries[v].altered || (if q in c.file then c.file[q] else []) == c.entries[v].contents))
  {
    hide Reuse;
    ReuseEntries(c, id, key, altered, contents, minted);
    EvictedFile(c);
    ReuseFind(c, id, key, altered, contents, minted, q);
    OnlyAt(c.entries, q);
  }

  lemma ReuseVisible(c: Cache, id: PageId, key: PageId, altered: bool, contents: Page, minted: nat)
    requires Reusable(c, id, minted)
    ensures var c' := Reuse(c, id, key, altered, contents, minted);
            && (forall i :: 0 <= i < |c'.entries| && c'.entries[i].relevancy != 0 ==>
                  1 <= c'.entries[i].pageId <= c'.minted && c'.entries[i].relevancy <= c'.current)
            && (forall i :: 0 <= i < |c'.entries| && c'.entries[i].altered ==> c'.entries[i].relevancy != 0)
  {
    hide Reuse, Victim, NoPageTwice;
    ReuseEntries(c, id, key, altered, contents, minted);
  }

  // Every page but id is still in the cache or in the file.
  lemma ReuseCovers(c: Cache, id: PageId, key: PageId, altered: bool, contents: Page, minted: nat, q: PageId)
    requires Reusable(c, id, minted) && InSync(c, Victim(c.entries)) && 1 <= q <= minted
    ensures var c' := Reuse(c, id, key, altered, contents, minted);
            q !in c'.file ==> Find(c'.entries, q) < |c.entries|
  {
    hide Reuse;
    ReuseEntries(c, id, key, altered, contents, minted);
    EvictedFile(c);
    ReuseFind(c, id, key, altered, contents, minted, q);
  }

  lemma ReuseSound(c: Cache, id: PageId, key: PageId, altered: bool, contents: Page, minted: nat)
    requires Reusable(c, id, minted) && InSync(c, Victim(c.entries))
    ensures Sound(Reuse(c, id, key, altered, contents, minted))
    ensures forall q :: 1 <= q <= c.minted && q != id ==>
              Read(Reuse(c, id, key, altered, contents, minted), q) == Read(c, q)
  {
    var c' := Reuse(c, id, key, altered, contents, minted);
    ReuseEntries(c, id, key, altered, contents, minted);
    EvictedFile(c);
    ReuseVisible(c, id, key, altered, contents, minted);
    ReuseFind(c, id, key, altered, contents, minted, id);
    forall q | 1 <= q <= minted
      ensures q !in c'.file ==> Find(c'.entries, q) < |c'.entries|
    {
      ReuseCovers(c, id, key, altered, contents, minted, q);
    }
    forall q | 1 <= q <= c.minted && q != id
      ensures Read(c', q) == Read(c, q)
    {
      ReuseReadSame(c, id, key, altered, contents, minted, q);
    }
    hide Reuse, Read, Victim, NoPageTwice, Find, FileAfterEviction;
  }

  lemma ReuseReadSame(c: Cache, id: PageId, key: PageId, altered: bool, contents: Page, minted: nat, q: PageId)
    requires Reusable(c, id, minted) && InSync(c, Victim(c.entries)) && 1 <= q <= c.minted && q != id
    ensures Read(Reuse(c, id, key, altered, contents, minted), q) == Read(c, q)
  {
    hide Reuse;
    ReuseRead(c, id, key, altered, contents, minted, q);
  }

  lemma ReuseTracked(c: Cache, id: PageId, key: PageId, altered: bool, contents: Page, minted: nat)
    requires Reusable(c, id, minted) && Tracked(c)
    requires altered || (id in FileAfterEviction(c) && FileAfterEviction(c)[id] == contents)
    ensures Tracked(Reuse(c, id, key, altered, contents, minted))
  {
    hide Reuse, FileAfterEviction;
    var c' := Reuse(c, id, key, altered, contents, minted);
    ReuseEntries(c, id, key, altered, contents, minted);
    EvictedFile(c);
    forall j | 0 <= j < |c'.entries|
      ensures InSync(c', j)
    {
      assert InSync(c, j);
    }
  }

  // ---- get_page ----

  // The page missed is in the file, as it was.
  lemma LoadFile(c: Cache, id: PageId)
    requires Sound(c) && 1 <= id <= c.minted && Find(c.entries, id) == |c.entries|
    ensures id in c.file && id in FileAfterEviction(c) && FileAfterEviction(c)[id] == c.file[id] == Read(c, id)
  {
    EvictedFile(c);
    OnlyAt(c.entries, id);
  }

  lemma LoadRefines(c: Cache, id: PageId)
    requires Sound(c) && Tracked(c) && 1 <= id <= c.minted && Find(c.entries, id) == |c.entries|
    ensures Sound(Load(c, id)) && Tracked(Load(c, id)) && Load(c, id).minted == c.minted
    ensures Find(Load(c, id).entries, id) == Victim(c.entries)
    ensures Load(c, id).entries[Victim(c.entries)].contents == Read(c, id)
    ensures Load(c, id).entries[Victim(c.entries)].altered == c.entries[Victim(c.entries)].altered
    ensures forall q :: 1 <= q <= c.minted ==> Read(Load(c, id), q) == Read(c, q)
  {
    hide Reuse, FileAfterEviction;
    LoadFile(c, id);
    var altered, contents := c.entries[Victim(c.entries)].altered, c.file[id];
    assert InSync(c, Victim(c.entries));
    ReuseEntries(c, id, id, altered, contents, c.minted);
    ReuseSound(c, id, id, altered, contents, c.minted);
    ReuseTracked(c, id, id, altered, contents, c.minted);
    ReuseFind(c, id, id, altered, contents, c.minted, id);
  }

  // get_page: the page is in the entry returned, and no page reads differently.
  lemma GetRefines(c: Cache, id: PageId)
    requires Sound(c) && Tracked(c) && 1 <= id <= c.minted
    ensures |c.entries| > 0
    ensures Sound(Get(c, id)) && Tracked(Get(c, id)) && Get(c, id).minted == c.minted
    ensures Find(Get(c, id).entries, id) == Slot(c, id)
    ensures Get(c, id).entries[Slot(c, id)].contents == Read(c, id)
    ensures forall q :: 1 <= q <= c.minted ==> Read(Get(c, id), q) == Read(c, q)
  {
    hide Load, Hit;
    var i := Find(c.entries, id);
    if i < |c.entries| {
      HitSound(c, i, id);
      HitFind(c, i, id);
    } else {
      LoadRefines(c, id);
    }
  }

  lemma HitFind(c: Cache, i: nat, id: PageId)
    requires Sound(c) && i < |c.entries| && Find(c.entries, id) == i
    ensures Find(Hit(c, i, id).entries, id) == i && Hit(c, i, id).entries[i].contents == c.entries[i].contents
    ensures Hit(c, i, id).minted == c.minted
  {
    FindIs(Hit(c, i, id).entries, id, i);
  }

  // ---- create_page ----

  lemma UnmintedAbsent(c: Cache)
    requires Sound(c)
    ensures Reusable(c, c.minted + 1, c.minted + 1)
  {
    FindNone(c.entries, c.minted + 1);
  }

  lemma CreateRefines(c: Cache, zeroes: Page)
    requires Sound(c) && Tracked(c)
    ensures |c.entries| > 0
    ensures var c' := CreatePage(c, zeroes);
            && Sound(c') && Tracked(c') && c'.minted == c.minted + 1
            && Find(c'.entries, c.minted + 1) == Victim(c.entries) && c'.entries[Victim(c.entries)].altered
            && Read(c', c.minted + 1) == zeroes
    ensures forall q :: 1 <= q <= c.minted ==> Read(CreatePage(c, zeroes), q) == Read(c, q)
  {
    hide Reuse, FileAfterEviction;
    UnmintedAbsent(c);
    assert InSync(c, Victim(c.entries));
    var id := c.minted + 1;
    ReuseEntries(c, id, NULL_ID, true, zeroes, id);
    ReuseSound(c, id, NULL_ID, true, zeroes, id);
    ReuseTracked(c, id, NULL_ID, true, zeroes, id);
    ReuseFind(c, id, NULL_ID, true, zeroes, id, id);
  }

  // ---- writing through a pointer ----

  lemma PutRefines(c: Cache, i: nat, id: PageId, b: Page)
    requires Sound(c) && i < |c.entries| && Find(c.entries, id) == i
    ensures Sound(Put(c, i, b)) && Put(c, i, b).minted == c.minted
    ensures forall q :: Read(Put(c, i, b), q) == if q == id then b else Read(c, q)
  {
    var c' := Put(c, i, b);
    OnlyAt(c.entries, id);
    forall q
      ensures Find(c'.entries, q) == Find(c.entries, q)
    {
      FindSame(c.entries, c'.entries, q);
    }
  }

  // The write is safe from eviction exactly when the entry is already marked as altered, or the
  // write changes nothing: a miss does not mark the entry, and nothing else does.
  lemma PutTracked(c: Cache, i: nat, id: PageId, b: Page)
    requires Sound(c) && Tracked(c) && i < |c.entries| && Find(c.entries, id) == i
    ensures Tracked(Put(c, i, b)) <==> c.entries[i].altered || (id in c.file && c.file[id] == b)
  {
    var c' := Put(c, i, b);
    forall j | 0 <= j < |c.entries| && j != i
      ensures InSync(c', j)
    {
      assert InSync(c, j);
    }
    if Tracked(c') {
      assert InSync(c', i);
    }
  }

  // ---- flush ----

  lemma FlushEntryRefines(c: Cache, i: nat)
    requires Sound(c) && Tracked(c) && i < |c.entries|
    ensures var c' := FlushEntry(c, i);
            Sound(c') && Tracked(c') && c'.minted == c.minted
    ensures forall q :: 1 <= q <= c.minted ==> Read(FlushEntry(c, i), q) == Read(c, q)
  {
    if c.entries[i].altered {
      FlushAlteredSound(c, i);
      FlushAlteredTracked(c, i);
    }
  }

  lemma FlushAlteredRead(c: Cache, i: nat, q: PageId)
    requires Sound(c) && i < |c.entries| && c.entries[i].altered
    ensures var c' := FlushEntry(c, i);
            && NoPageTwice(c'.entries) && c'.entries[i].relevancy == 0
            && Find(c'.entries, q) == (if Find(c.entries, q) == i then |c.entries| else Find(c.entries, q))
            && c'.file == c.file[c.entries[i].pageId := c.entries[i].contents]
            && (q == c.entries[i].pageId <==> Find(c.entries, q) == i)
            && Read(c', q) == Read(c, q)
  {
    var c' := FlushEntry(c, i);
    OnlyAt(c.entries, q);
    if Find(c.entries, q) == i {
      FindNone(c'.entries, q);
    } else {
      FindSame(c.entries, c'.entries, q);
    }
  }

  lemma FlushAlteredSound(c: Cache, i: nat)
    requires Sound(c) && i < |c.entries| && c.entries[i].altered
    ensures Sound(FlushEntry(c, i))
    ensures forall q :: Read(FlushEntry(c, i), q) == Read(c, q)
  {
    var c' := FlushEntry(c, i);
    FlushAlteredRead(c, i, c.entries[i].pageId);
    forall q: PageId
      ensures Read(c', q) == Read(c, q)
      ensures 1 <= q <= c.minted && q !in c'.file ==> Find(c'.entries, q) < |c'.entries|
    {
      FlushAlteredRead(c, i, q);
    }
  }

  lemma FlushAlteredTracked(c: Cache, i: nat)
    requires Sound(c) && Tracked(c) && i < |c.entries| && c.entries[i].altered
    ensures Tracked(FlushEntry(c, i))
  {
    var c' := FlushEntry(c, i);
    forall j | 0 <= j < |c.entries|
      ensures InSync(c', j)
    {
      assert InSync(c, j);
    }
  }

  lemma {:induction false} FlushToRefines(c: Cache, n: nat)
    requires Sound(c) && Tracked(c) && n <= |c.entries|
    ensures Sound(FlushTo(c, n)) && Tracked(FlushTo(c, n)) && FlushTo(c, n).minted == c.minted
    ensures forall q :: 1 <= q <= c.minted ==> Read(FlushTo(c, n), q) == Read(c, q)
  {
    hide Sound, Tracked, Read, FlushEntry;
    if n > 0 {
      FlushToRefines(c, n - 1);
      FlushEntryRefines(FlushTo(c, n - 1), n - 1);
    }
  }

  // flush: no page reads differently and the file alone is now the map.
  lemma FlushRefines(c: Cache)
    requires Sound(c) && Tracked(c)
    ensures Sound(Flush(c)) && Tracked(Flush(c)) && Flush(c).minted == c.minted
    ensures forall q :: 1 <= q <= c.minted ==> Read(Flush(c), q) == Read(c, q)
    ensures forall q :: q in Flush(c).file <==> 1 <= q <= c.minted
    ensures forall q :: 1 <= q <= c.minted ==> Flush(c).file[q] == Read(c, q)
  {
    FlushToRefines(c, |c.entries|);
    hide FlushTo;
    var f := Flush(c);
    forall q | 1 <= q <= c.minted
      ensures q in f.file && f.file[q] == Read(c, q)
    {
      assert Read(f, q) == Read(c, q);
      var i := Find(f.entries, q);
      if i < |f.entries| {
        assert InSync(f, i);
      }
    }
  }

  // ---- runs ----

  datatype Request = Fetch(id: PageId) | Write(id: PageId, contents: Page) | New(contents: Page) | FlushAll

  // A page is written through the pointer from a get_page, and a new page through the pointer from
  // create_page.
  function Serve(c: Cache, r: Request, zeroes: Page): (c': Cache)
    requires |c.entries| > 0
    ensures |c'.entries| == |c.entries|
  {
    match r
    case Fetch(id) => Get(c, id)
    case Write(id, b) => Put(Get(c, id), Slot(c, id), b)
    case New(b) => Put(CreatePage(c, zeroes), Victim(c.entries), b)
    case FlushAll => Flush(c)
  }

  function ServeAll(c: Cache, rs: seq<Request>, zeroes: Page): (c': Cache)
    requires |c.entries| > 0
    ensures |c'.entries| == |c.entries|
    decreases rs
  {
    if rs == [] then c else ServeAll(Serve(c, rs[0], zeroes), rs[1..], zeroes)
  }

  // The same request on the plain list of pages: page q is pages[q - 1].
  function Plain(pages: seq<Page>, r: Request): (pages': seq<Page>)
    ensures |pages'| >= |pages|
  {
    match r
    case Fetch(id) => pages
    case Write(id, b) => if 1 <= id <= |pages| then pages[id - 1 := b] else pages
    case New(b) => pages + [b]
    case FlushAll => pages
  }

  function PlainAll(pages: seq<Page>, rs: seq<Request>): (pages': seq<Page>)
    ensures |pages'| >= |pages|
    decreases rs
  {
    if rs == [] then pages else PlainAll(Plain(pages, rs[0]), rs[1..])
  }

  // Only minted pages are asked for, and a page is written only through a pointer whose entry is
  // marked as altered, as every hit and every new page is.
  predicate Proper(c: Cache, r: Request)
    requires |c.entries| > 0
  {
    match r
    case Fetch(id) => 1 <= id <= c.minted
    case Write(id, _) => 1 <= id <= c.minted && Get(c, id).entries[Slot(c, id)].altered
    case New(_) => true
    case FlushAll => true
  }

  predicate AllProper(c: Cache, rs: seq<Request>, zeroes: Page)
    requires |c.entries| > 0
    decreases rs
  {
    rs == [] || (Proper(c, rs[0]) && AllProper(Serve(c, rs[0], zeroes), rs[1..], zeroes))
  }

  ghost predicate Holds(c: Cache, pages: seq<Page>)
  {
    && Sound(c) && Tracked(c) && c.minted == |pages|
    && (forall q :: 1 <= q <= |pages| ==> Read(c, q) == pages[q - 1])
  }

  lemma HitsAreProper(c: Cache, id: PageId, b: Page)
    requires Sound(c) && 1 <= id <= c.minted && Find(c.entries, id) < |c.entries|
    ensures Proper(c, Write(id, b))
  {
  }

  // In terms of the cache before the access: a write is safe exactly when the page is in the cache, or the entry it
  // will take over is marked as altered.
  lemma ProperExactly(c: Cache, id: PageId, b: Page)
    requires Sound(c) && 1 <= id <= c.minted
    ensures Proper(c, Write(id, b)) <==>
            Find(c.entries, id) < |c.entries| || c.entries[Victim(c.entries)].altered
  {
  }

  lemma ServeRefines(c: Cache, pages: seq<Page>, r: Request, zeroes: Page)
    requires |c.entries| > 0 && Holds(c, pages) && Proper(c, r)
    ensures Holds(Serve(c, r, zeroes), Plain(pages, r))
    ensures r.Fetch? ==> Serve(c, r, zeroes).entries[Slot(c, r.id)].contents == pages[r.id - 1]
  {
    hide Get, Slot, CreatePage, Flush, Put, Find, Sound, Tracked, Read;
    match r
    case Fetch(id) => GetRefines(c, id);
    case Write(id, b) =>
      GetRefines(c, id);
      PutRefines(Get(c, id), Slot(c, id), id, b);
      PutTracked(Get(c, id), Slot(c, id), id, b);
    case New(b) =>
      CreateRefines(c, zeroes);
      PutRefines(CreatePage(c, zeroes), Victim(c.entries), c.minted + 1, b);
      PutTracked(CreatePage(c, zeroes), Victim(c.entries), c.minted + 1, b);
    case FlushAll => FlushRefines(c);
  }

  // A cache just built over a file that holds every minted page.
  lemma OpenedHolds(c: Cache, pages: seq<Page>)
    requires |c.entries| > 0 && c.current == 1 && c.minted == |pages|
    requires forall i :: 0 <= i < |c.entries| ==> c.entries[i].relevancy == 0 && !c.entries[i].altered
    requires forall q :: q in c.file <==> 1 <= q <= |pages|
    requires forall q :: 1 <= q <= |pages| ==> c.file[q] == pages[q - 1]
    ensures Holds(c, pages)
  {
    forall q: PageId
      ensures Find(c.entries, q) == |c.entries|
    {
      FindNone(c.entries, q);
    }
  }

  // Over every run the cache and its file stand for the plain list of pages.
  lemma {:induction false} RunRefines(c: Cache, pages: seq<Page>, rs: seq<Request>, zeroes: Page)
    requires |c.entries| > 0 && Holds(c, pages) && AllProper(c, rs, zeroes)
    ensures Holds(ServeAll(c, rs, zeroes), PlainAll(pages, rs))
    decreases rs
  {
    hide Holds, Proper, Serve, Plain;
    if rs != [] {
      ServeRefines(c, pages, rs[0], zeroes);
      RunRefines(Serve(c, rs[0], zeroes), Plain(pages, rs[0]), rs[1..], zeroes);
    }
  }

  // ---- a lost write ----

  // A cache of one entry over a new file.
  function Fresh(): Cache { Cache([CacheEntry(0, false, NULL_ID, [])], 1, NULL_ID, map[], 0) }

  // Pages 1 and 2 are created and flushed.
  function TwoFlushed(a: Page, b: Page, zeroes: Page): Cache
  {
    Serve(Serve(Serve(Fresh(), New(a), zeroes), New(b), zeroes), FlushAll, zeroes)
  }

  lemma TwoFlushedIs(a: Page, b: Page, zeroes: Page)
    ensures TwoFlushed(a, b, zeroes) == Cache([CacheEntry(0, false, 2, b)], 1, NULL_ID, map[1 := a, 2 := b], 2)
  {
    var c1 := Serve(Fresh(), New(a), zeroes);
    assert c1.entries == [CacheEntry(1, true, 1, a)] && c1.file == map[];
    var c2 := Serve(c1, New(b), zeroes);
    assert c2.entries == [CacheEntry(1, true, 2, b)] && c2.file == map[1 := a];
    assert Flush(c2) == FlushEntry(FlushTo(c2, 0), 0);
    assert Flush(c2).entries == [CacheEntry(0, false, 2, b)];
  }

  // Then page 1 is fetched and written through the pointer, and page 2 is fetched: page 1 has its old
  // contents back.
  lemma LostWrite(a: Page, b: Page, w: Page, zeroes: Page)
    requires w != a
    ensures var c := TwoFlushed(a, b, zeroes);
            && Holds(c, [a, b]) && !Proper(c, Write(1, w))
            && Read(Serve(Serve(c, Write(1, w), zeroes), Fetch(2), zeroes), 1) == a
            && PlainAll([a, b], [Write(1, w), Fetch(2)]) == [w, b]
  {
    var c3 := TwoFlushed(a, b, zeroes);
    TwoFlushedIs(a, b, zeroes);
    hide TwoFlushed;
    FlushedHolds(c3, [a, b]);
    FindNone(c3.entries, 1);
    var c4 := Serve(c3, Write(1, w), zeroes);
    assert c4.entries == [CacheEntry(2, false, 1, w)] && c4.file == c3.file;
    FindNone(c4.entries, 2);
    var c5 := Serve(c4, Fetch(2), zeroes);
    assert c5.entries == [CacheEntry(3, false, 2, b)] && c5.file == c3.file;
    FindNone(c5.entries, 1);
    assert PlainAll([w, b], [Fetch(2)]) == PlainAll([w, b], []) == [w, b] by {
      assert [Fetch(2)][1..] == [];
    }
    assert [Write(1, w), Fetch(2)][1..] == [Fetch(2)];
  }

  // The same accesses with nothing flushed before: the entry that page 1 takes over is marked, the mark stays, and the
  // write is kept.
  lemma KeptWrite(a: Page, b: Page, w: Page, zeroes: Page)
    ensures var c := Serve(Serve(Fresh(), New(a), zeroes), New(b), zeroes);
            && Proper(c, Write(1, w))
            && Read(Serve(Serve(c, Write(1, w), zeroes), Fetch(2), zeroes), 1) == w
            && Read(Serve(Serve(c, Write(1, w), zeroes), Fetch(2), zeroes), 2) == b
  {
    var c1 := Serve(Fresh(), New(a), zeroes);
    assert c1.entries == [CacheEntry(1, true, 1, a)] && c1.file == map[];
    var c2 := Serve(c1, New(b), zeroes);
    assert c2.entries == [CacheEntry(1, true, 2, b)] && c2.file == map[1 := a];
    FindNone(c2.entries, 1);
    var c3 := Serve(c2, Write(1, w), zeroes);
    assert c3.entries == [CacheEntry(2, true, 1, w)] && c3.file == map[1 := a, 2 := b];
    FindNone(c3.entries, 2);
    var c4 := Serve(c3, Fetch(2), zeroes);
    assert c4.entries == [CacheEntry(3, true, 2, b)] && c4.file == map[1 := w, 2 := b];
    FindNone(c4.entries, 1);
  }

  lemma FlushedHolds(c: Cache, pages: seq<Page>)
    requires c.minted == |pages| == 2 && c.current > 0 && c.entries == [CacheEntry(0, false, 2, pages[1])]
    requires c.file == map[1 := pages[0], 2 := pages[1]]
    ensures Holds(c, pages)
  {
    FindNone(c.entries, 1);
    FindNone(c.entries, 2);
    hide Find;
  }

  // ---- the relevancy counter running out ----

  // reset_relevancy_values: every entry is hidden, nothing is written back.
  function Hidden(c: Cache): Cache
  {
    c.(entries := seq(|c.entries|, i requires 0 <= i < |c.entries| => c.entries[i].(relevancy := 0)), current := 1)
  }

  // The reset keeps every page exactly when every visible entry agrees with the file.
  lemma ResetKeeps(c: Cache)
    requires Sound(c)
    ensures (forall q :: 1 <= q <= c.minted ==> Read(Hidden(c), q) == Read(c, q)) <==>
            (forall i :: 0 <= i < |c.entries| && c.entries[i].relevancy != 0 ==>
               (if c.entries[i].pageId in c.file then c.file[c.entries[i].pageId] else []) == c.entries[i].contents)
  {
    forall q
      ensures Find(Hidden(c).entries, q) == |c.entries|
    {
      FindNone(Hidden(c).entries, q);
    }
    forall i | 0 <= i < |c.entries| && c.entries[i].relevancy != 0
      ensures Read(c, c.entries[i].pageId) == c.entries[i].contents
    {
      OnlyAt(c.entries, c.entries[i].pageId);
    }
  }
}
