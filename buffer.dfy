/** The buffer manager: up to MAX_PAGES_IN_MEMORY pages are meant to be kept
    in memory, in `pageMap`, with an LRU policy choosing which one to write
    back when a page that is not resident is asked for.

    Two quirks of the source are kept.  A page the policy evicts is written
    back but stays in `pageMap`, so the map only grows and a later request
    for that page is a hit.  flushPage on a page that is not resident first
    puts a fresh page into the map, and so overwrites the page on disk.

    The state is given as a `Pool` value (the file, the resident pages and
    the recency list); each operation is specified by a function on it. */
module Buffer {
  import opened Common
  import opened Storage
  import opened Lru

  const MAX_PAGES_IN_MEMORY: nat := 10

  /** The conversion of fix_page's and flushPage's `int` argument to a
      PageID (uint16_t), which keeps the low 16 bits. */
  function PageIdOf(pageId: int): (id: Uint16)
    ensures 0 <= pageId < UINT16_LIMIT ==> id == pageId
    ensures (id - pageId) % UINT16_LIMIT == 0
  {
    pageId % UINT16_LIMIT
  }

  datatype Pool<P> = Pool(disk: seq<P>, cached: map<Uint16, P>, lru: seq<Uint16>)

  /** What the buffer manager keeps true: the recency list is duplicate-free
      and within capacity, it only names resident pages, and every resident
      page is a page of the file. */
  predicate PoolOk<P>(b: Pool<P>) {
    Bounded(b.lru, MAX_PAGES_IN_MEMORY) &&
    Elems(b.lru) <= b.cached.Keys &&
    (forall id :: id in b.cached ==> id < |b.disk|)
  }

  /** What a reader of page `id` gets: the resident copy if there is one,
      else the page in the file; None for a page past the end of the file. */
  function Content<P>(b: Pool<P>, id: Uint16): Option<P> {
    if id in b.cached then Some(b.cached[id])
    else if id < |b.disk| then Some(b.disk[id])
    else None
  }

  /** The eviction step of fix_page: the policy drops its least recently
      used page, which is written back unless evict() returned INVALID. */
  function Evicted<P>(b: Pool<P>, zero: P): Pool<P>
    requires PoolOk(b)
  {
    DropLastFacts(b.lru);
    var v := Victim(b.lru);
    if v != INVALID then Pool(Overwrite(b.disk, v, b.cached[v], zero), b.cached, DropLast(b.lru))
    else b.(lru := DropLast(b.lru))
  }

  /** BufferManager::fix_page on page `id`: the new pool and the page handed
      back.  A failed read ends the process; it is Err(IoAbort) here. */
  function Fix<P>(b: Pool<P>, id: Uint16, zero: P): (Pool<P>, Result<P>)
    requires PoolOk(b)
  {
    if id in b.cached then
      (b.(lru := Touched(b.lru, id, MAX_PAGES_IN_MEMORY)), Ok(b.cached[id]))
    else
      var b1 := if |b.cached| >= MAX_PAGES_IN_MEMORY then Evicted(b, zero) else b;
      if id < |b1.disk| then
        (Pool(b1.disk, b1.cached[id := b1.disk[id]], Touched(b1.lru, id, MAX_PAGES_IN_MEMORY)), Ok(b1.disk[id]))
      else
        (b1, Err(IoAbort))
  }

  /** BufferManager::flushPage on page `id`: a page that is not resident is
      first made resident as a fresh page; then the resident copy is written. */
  function Flushed<P>(b: Pool<P>, id: Uint16, blank: P, zero: P): Pool<P> {
    var cached := if id in b.cached then b.cached else b.cached[id := blank];
    Pool(Overwrite(b.disk, id, cached[id], zero), cached, b.lru)
  }

  lemma EvictedFacts<P>(b: Pool<P>, zero: P)
    requires PoolOk(b)
    ensures PoolOk(Evicted(b, zero))
    ensures Evicted(b, zero).cached == b.cached && |Evicted(b, zero).disk| == |b.disk|
    ensures forall id :: Content(Evicted(b, zero), id) == Content(b, id)
    ensures Victim(b.lru) != INVALID ==> Evicted(b, zero).disk[Victim(b.lru)] == b.cached[Victim(b.lru)]
  {
    DropLastFacts(b.lru);
    var v := Victim(b.lru);
    if v != INVALID {
      OverwriteReads(b.disk, v, b.cached[v], zero);
    }
  }

  /** fix_page keeps the buffer manager's invariant. */
  lemma FixKeepsPool<P>(b: Pool<P>, id: Uint16, zero: P)
    requires PoolOk(b)
    ensures PoolOk(Fix(b, id, zero).0)
  {
    var b1 := if id in b.cached || |b.cached| < MAX_PAGES_IN_MEMORY then b else Evicted(b, zero);
    EvictedFacts(b, zero);
    TouchKeepsBound(b1.lru, id, MAX_PAGES_IN_MEMORY);
    TouchTracks(b1.lru, id, MAX_PAGES_IN_MEMORY);
  }

  /** fix_page hands back what a reader of the page would see, and changes
      what no page reads as, nor the size of the file: writing back the
      victim stores the very copy that stays resident, and a loaded page is
      the one in the file.  It fails exactly for a page past the end of the
      file. */
  lemma FixReadsContent<P>(b: Pool<P>, id: Uint16, zero: P)
    requires PoolOk(b)
    ensures Fix(b, id, zero).1 == if Content(b, id).Some? then Ok(Content(b, id).value) else Err(IoAbort)
    ensures forall q :: Content(Fix(b, id, zero).0, q) == Content(b, q)
    ensures |Fix(b, id, zero).0.disk| == |b.disk|
  {
    EvictedFacts(b, zero);
  }

  /** No page ever leaves pageMap, and no resident copy is changed by fix_page. */
  lemma FixNeverRemoves<P>(b: Pool<P>, id: Uint16, zero: P)
    requires PoolOk(b)
    ensures forall q :: q in b.cached ==> q in Fix(b, id, zero).0.cached && Fix(b, id, zero).0.cached[q] == b.cached[q]
    ensures Fix(b, id, zero).1.Ok? ==> id in Fix(b, id, zero).0.cached
  {
    EvictedFacts(b, zero);
  }

  /** A hit changes neither the resident pages nor the file; only the
      recency list moves. */
  lemma FixHit<P>(b: Pool<P>, id: Uint16, zero: P)
    requires PoolOk(b) && id in b.cached
    ensures Fix(b, id, zero).0.disk == b.disk && Fix(b, id, zero).0.cached == b.cached
    ensures Fix(b, id, zero).0.lru == Touched(b.lru, id, MAX_PAGES_IN_MEMORY)
    ensures Fix(b, id, zero).0.lru[0] == id
  {
    TouchKeepsBound(b.lru, id, MAX_PAGES_IN_MEMORY);
  }

  /** A miss with MAX_PAGES_IN_MEMORY or more resident pages writes the
      policy's victim back to the file, then loads the page asked for from
      the file; the victim stays resident. */
  lemma FixMissWritesVictim<P>(b: Pool<P>, id: Uint16, zero: P)
    requires PoolOk(b) && id !in b.cached && |b.cached| >= MAX_PAGES_IN_MEMORY
    ensures b.lru != [] ==> Victim(b.lru) in Fix(b, id, zero).0.cached
    ensures Victim(b.lru) != INVALID ==>
      Fix(b, id, zero).0.disk == Overwrite(b.disk, Victim(b.lru), b.cached[Victim(b.lru)], zero)
    ensures Victim(b.lru) == INVALID ==> Fix(b, id, zero).0.disk == b.disk
    ensures Fix(b, id, zero).1.Ok? ==>
      Fix(b, id, zero).0.cached[id] == Fix(b, id, zero).0.disk[id] &&
      Fix(b, id, zero).1.value == b.disk[id]
  {
    EvictedFacts(b, zero);
    DropLastFacts(b.lru);
  }

  /** After flushPage the file holds the resident copy of the page. */
  lemma FlushWrites<P>(b: Pool<P>, id: Uint16, blank: P, zero: P)
    ensures id in Flushed(b, id, blank, zero).cached
    ensures Flushed(b, id, blank, zero).disk[id] == Flushed(b, id, blank, zero).cached[id]
    ensures id !in b.cached ==> Flushed(b, id, blank, zero).disk[id] == blank
    ensures forall q :: q in b.cached ==> Flushed(b, id, blank, zero).cached[q] == b.cached[q]
    ensures forall q :: q != id && Content(b, q).Some? ==> Content(Flushed(b, id, blank, zero), q) == Content(b, q)
  {
    var cached := if id in b.cached then b.cached else b.cached[id := blank];
    OverwriteReads(b.disk, id, cached[id], zero);
  }

  /** flushPage keeps the invariant. */
  lemma FlushKeepsPool<P>(b: Pool<P>, id: Uint16, blank: P, zero: P)
    requires PoolOk(b)
    ensures PoolOk(Flushed(b, id, blank, zero))
  {
    var cached := if id in b.cached then b.cached else b.cached[id := blank];
    OverwriteReads(b.disk, id, cached[id], zero);
  }

  class BufferManager<P> {
    const storage: StorageManager<P>
    const policy: LruPolicy
    var pageMap: map<Uint16, P>

    ghost function State(): Pool<P>
      reads this, storage, policy
    {
      Pool(storage.pages, pageMap, policy.lruList)
    }

    ghost predicate Valid()
      reads this, storage, policy
    {
      storage.Valid() && policy.Valid() && policy.cacheSize == MAX_PAGES_IN_MEMORY && PoolOk(State())
    }

    /** BufferManager(truncate_mode): a storage manager, an LRU policy of
        MAX_PAGES_IN_MEMORY pages, and the file extended to MAX_PAGES. */
    constructor (truncate: bool, existing: seq<P>, blank: P, zero: P)
      requires truncate || |existing| <= MAX_PAGES + 1
      ensures Valid() && fresh(storage) && fresh(policy)
      ensures pageMap == map[] && policy.lruList == []
      ensures storage.blank == blank && storage.zero == zero
      ensures storage.numPages == MAX_PAGES + 1 && |storage.pages| == MAX_PAGES + 1
      ensures truncate || existing == [] ==> storage.pages == [blank] + Repeat(zero, MAX_PAGES)
      ensures !truncate && existing != [] ==> storage.pages == existing + Repeat(zero, MAX_PAGES + 1 - |existing|)
    {
      var s := new StorageManager(truncate, existing, blank, zero);
      s.ExtendTill(MAX_PAGES);
      storage := s;
      policy := new LruPolicy(MAX_PAGES_IN_MEMORY);
      pageMap := map[];
    }

    /** BufferManager::fix_page. */
    method FixPage(pageId: int) returns (r: Result<P>)
      requires Valid()
      modifies this, storage, policy
      ensures Valid()
      ensures (State(), r) == Fix(old(State()), PageIdOf(pageId), storage.zero)
      ensures storage.numPages == old(storage.numPages)
    {
      ghost var b := State();
      var id := PageIdOf(pageId);
      if id in pageMap {
        var _ := policy.Touch(id);
        FixKeepsPool(b, id, storage.zero);
        return Ok(pageMap[id]);
      }
      EvictedFacts(b, storage.zero);
      if |pageMap| >= MAX_PAGES_IN_MEMORY {
        DropLastFacts(policy.lruList);
        var victim := policy.Evict();
        if victim != INVALID {
          storage.Flush(victim, pageMap[victim]);
        }
      }
      ghost var b1 := State();
      assert b1 == if |b.cached| >= MAX_PAGES_IN_MEMORY then Evicted(b, storage.zero) else b;
      var loaded := storage.Load(id);
      if loaded.Err? {
        return Err(IoAbort);
      }
      var _ := policy.Touch(id);
      pageMap := pageMap[id := loaded.value];
      FixKeepsPool(b, id, storage.zero);
      r := Ok(loaded.value);
    }

    /** BufferManager::flushPage. */
    method FlushPage(pageId: int)
      requires Valid()
      modifies this, storage
      ensures Valid()
      ensures State() == Flushed(old(State()), PageIdOf(pageId), storage.blank, storage.zero)
      ensures storage.numPages == old(storage.numPages)
    {
      var id := PageIdOf(pageId);
      FlushKeepsPool(State(), id, storage.blank, storage.zero);
      if id !in pageMap {
        pageMap := pageMap[id := storage.blank];
      }
      storage.Flush(id, pageMap[id]);
    }

    /** What callers do with the page fix_page hands out: they change it in
        place. */
    method Update(id: Uint16, p: P)
      requires Valid() && id in pageMap
      modifies this
      ensures Valid()
      ensures pageMap == old(pageMap)[id := p]
    {
      pageMap := pageMap[id := p];
    }

    /** BufferManager::extend. */
    method Extend()
      requires Valid()
      modifies storage
      ensures Valid()
      ensures storage.pages == old(storage.pages) + [storage.blank]
      ensures storage.numPages == old(storage.numPages) + 1
    {
      storage.Extend();
    }

    /** BufferManager::getNumPages. */
    method GetNumPages() returns (n: nat)
      ensures n == storage.numPages
    {
      n := storage.numPages;
    }

    /** ~BufferManager: every resident page is written back, in the map's
        (unspecified) order. */
    method Teardown()
      requires Valid()
      modifies this, storage
      ensures Valid() && pageMap == old(pageMap)
      ensures |storage.pages| == |old(storage.pages)|
      ensures forall id :: id in pageMap ==> storage.pages[id] == pageMap[id]
      ensures forall i :: 0 <= i < |storage.pages| && (i >= UINT16_LIMIT || i !in pageMap) ==>
        storage.pages[i] == old(storage.pages)[i]
    {
      var todo := pageMap.Keys;
      while todo != {}
        invariant Valid() && pageMap == old(pageMap) && todo <= pageMap.Keys
        invariant |storage.pages| == |old(storage.pages)|
        invariant forall id :: id in pageMap && id !in todo ==> storage.pages[id] == pageMap[id]
        invariant forall i :: 0 <= i < |storage.pages| && (i >= UINT16_LIMIT || i !in pageMap || i in todo) ==>
          storage.pages[i] == old(storage.pages)[i]
        decreases todo
      {
        var id :| id in todo;
        OverwriteReads(storage.pages, id, pageMap[id], storage.zero);
        FlushKeepsPool(State(), id, storage.blank, storage.zero);
        FlushPage(id);
        todo := todo - {id};
      }
    }
  }
}
