/** The database file, as the storage manager sees it: a sequence of whole
    pages.  `P` is what a page holds; a fresh slotted page's image and an
    all-zero page are parameters, since the two differ (the first carries an
    initialised slot directory, the second is what extend(till) and the holes
    left by a write past the end of the file hold). */
module Storage {
  import opened Common

  /** MAX_PAGES: the buffer manager extends the file up to this page id. */
  const MAX_PAGES: nat := 1000

  /** `n` copies of `p`. */
  function Repeat<P>(p: P, n: nat): (r: seq<P>)
    ensures |r| == n
    ensures forall i :: 0 <= i < n ==> r[i] == p
  {
    if n == 0 then [] else [p] + Repeat(p, n - 1)
  }

  /** The file after writing page `p` at page `id`: an existing page is
      replaced; a write past the end of the file fills the gap with zero
      pages. */
  function Overwrite<P>(pages: seq<P>, id: nat, p: P, zero: P): (r: seq<P>)
  {
    if id < |pages| then pages[id := p]
    else pages + Repeat(zero, id - |pages|) + [p]
  }

  /** A write puts the page where it was asked to, grows the file only as far
      as that page, and leaves every other page as it was, zero in the gap. */
  lemma OverwriteReads<P>(pages: seq<P>, id: nat, p: P, zero: P)
    ensures |Overwrite(pages, id, p, zero)| == if id < |pages| then |pages| else id + 1
    ensures Overwrite(pages, id, p, zero)[id] == p
    ensures forall i :: 0 <= i < |pages| && i != id ==> Overwrite(pages, id, p, zero)[i] == pages[i]
    ensures forall i :: |pages| <= i < id ==> Overwrite(pages, id, p, zero)[i] == zero
  {
    if id >= |pages| {
      var gap := Repeat(zero, id - |pages|);
      var r := pages + gap + [p];
      forall i | |pages| <= i < id ensures r[i] == zero {
        assert r[i] == gap[i - |pages|];
      }
    }
  }

  /** Writes to two different pages can be done in either order. */
  lemma OverwriteCommutes<P>(pages: seq<P>, a: nat, p: P, b: nat, q: P, zero: P)
    requires a != b
    ensures Overwrite(Overwrite(pages, a, p, zero), b, q, zero) ==
            Overwrite(Overwrite(pages, b, q, zero), a, p, zero)
  {
    var x := Overwrite(Overwrite(pages, a, p, zero), b, q, zero);
    var y := Overwrite(Overwrite(pages, b, q, zero), a, p, zero);
    OverwriteReads(pages, a, p, zero);
    OverwriteReads(pages, b, q, zero);
    OverwriteReads(Overwrite(pages, a, p, zero), b, q, zero);
    OverwriteReads(Overwrite(pages, b, q, zero), a, p, zero);
    assert |x| == |y|;
    forall i | 0 <= i < |x| ensures x[i] == y[i] {
    }
  }

  /** The storage manager: the file's pages and the page count num_pages.
      The two are kept apart because a write past the end of the file grows
      the file without touching num_pages. */
  class StorageManager<P> {
    /** The file's contents, page by page. */
    var pages: seq<P>
    var numPages: nat
    /** The image of a default-constructed slotted page. */
    const blank: P
    /** A page of zero bytes. */
    const zero: P

    ghost predicate Valid()
      reads this
    {
      numPages <= |pages|
    }

    /** StorageManager(truncate_mode): the file starts empty when truncating,
        else with the pages it holds (`existing`); a file without a page is
        extended by one. */
    constructor (truncate: bool, existing: seq<P>, blank: P, zero: P)
      ensures Valid()
      ensures this.blank == blank && this.zero == zero
      ensures var start := if truncate then [] else existing;
        if start == [] then pages == [blank] && numPages == 1
        else pages == start && numPages == |start|
    {
      this.blank := blank;
      this.zero := zero;
      var start := if truncate then [] else existing;
      if |start| == 0 {
        pages, numPages := [blank], 1;
      } else {
        pages, numPages := start, |start|;
      }
    }

    /** StorageManager::load: reading a page that is not in the file fails,
        and the source then ends the process. */
    method Load(id: Uint16) returns (r: Result<P>)
      ensures id < |pages| ==> r == Ok(pages[id])
      ensures id >= |pages| ==> r == Err(IoAbort)
    {
      if id < |pages| {
        r := Ok(pages[id]);
      } else {
        r := Err(IoAbort);
      }
    }

    /** StorageManager::flush. */
    method Flush(id: Uint16, p: P)
      requires Valid()
      modifies this
      ensures Valid()
      ensures pages == Overwrite(old(pages), id, p, zero) && numPages == old(numPages)
    {
      OverwriteReads(pages, id, p, zero);
      pages := Overwrite(pages, id, p, zero);
    }

    /** StorageManager::extend(): one fresh page at the end of the file. */
    method Extend()
      requires Valid()
      modifies this
      ensures Valid()
      ensures pages == old(pages) + [blank] && numPages == old(numPages) + 1
    {
      pages := pages + [blank];
      numPages := numPages + 1;
    }

    /** StorageManager::extend(till_page_id): zero pages at the end of the
        file until num_pages is till + 1. */
    method ExtendTill(till: nat)
      requires Valid() && numPages <= till + 1
      modifies this
      ensures Valid()
      ensures pages == old(pages) + Repeat(zero, till + 1 - old(numPages))
      ensures numPages == till + 1
    {
      var count := till + 1 - numPages;
      if count > 0 {
        pages := pages + Repeat(zero, count);
        numPages := till + 1;
      }
    }
  }
}
