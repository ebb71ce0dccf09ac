/** The pages a tree works on: the pool's latest contents, the free list and the images logged for the
    running transaction (src/btree/free_list_manager.cpp, src/wal/wal_manager.cpp:30-79). */
module Paging {
  import opened Pages

  /** The page that follows page number i of the chain. */
  function NextFree(free: seq<PageId>, i: nat): PageId {
    if i + 1 < |free| then free[i + 1] else NO_FREE_PAGE
  }

  /** The chain that starts at firstFree visits exactly the pages of `free`, in order, and ends. */
  predicate FreeChain(pages: map<PageId, Page>, firstFree: PageId, free: seq<PageId>) {
    && firstFree == (if free == [] then NO_FREE_PAGE else free[0])
    && (forall i :: 0 <= i < |free| ==>
          && HEADER_PAGE_ID < free[i] && free[i] in pages
          && pages[free[i]] == FreeRecord(NextFree(free, i)))
    && (forall i, j :: 0 <= i < j < |free| ==> free[i] != free[j])
  }

  lemma ChainPop(pages: map<PageId, Page>, firstFree: PageId, free: seq<PageId>)
    requires FreeChain(pages, firstFree, free)
    ensures firstFree == NO_FREE_PAGE <==> free == []
    ensures free != [] ==>
              && firstFree == free[0] && firstFree in pages && HEADER_PAGE_ID < firstFree && firstFree !in free[1..]
              && pages[firstFree].FreeRecord? && FreeChain(pages, pages[firstFree].nextFree, free[1..])
  {
    if free != [] {
      var head, rest := free[0], free[1..];
      assert pages[head] == FreeRecord(NextFree(free, 0));
      assert forall j :: 0 <= j < |rest| ==> rest[j] == free[j + 1];
      assert head !in rest;
      forall i: nat | i < |rest|
        ensures HEADER_PAGE_ID < rest[i] && rest[i] in pages
        ensures pages[rest[i]] == FreeRecord(NextFree(rest, i))
      {
        var id := free[i + 1];
        assert pages[id] == FreeRecord(NextFree(free, i + 1));
      }
    }
  }

  lemma ChainPush(pages: map<PageId, Page>, firstFree: PageId, free: seq<PageId>, id: PageId)
    requires FreeChain(pages, firstFree, free) && HEADER_PAGE_ID < id && id !in free
    ensures FreeChain(pages[id := FreeRecord(firstFree)], id, [id] + free)
  {
  }

  lemma ChainFrame(pages: map<PageId, Page>, firstFree: PageId, free: seq<PageId>, id: PageId, page: Page)
    requires FreeChain(pages, firstFree, free) && id !in free
    ensures FreeChain(pages[id := page], firstFree, free)
  {
  }

  /** The keys of the hash table, in some order. */
  method Enumerate(images: map<PageId, Page>, total: nat) returns (order: seq<PageId>)
    requires forall p :: p in images ==> 0 <= p < total
    ensures forall p :: p in images <==> p in order
  {
    order := [];
    for p := 0 to total
      invariant forall q :: q in order <==> q in images && q < p
    {
      if p in images {
        order := order + [p];
      }
    }
  }

  lemma ChainSame(pages: map<PageId, Page>, pages': map<PageId, Page>, firstFree: PageId, free: seq<PageId>)
    requires FreeChain(pages, firstFree, free)
    requires forall p :: p in pages && p != HEADER_PAGE_ID ==> p in pages' && pages'[p] == pages[p]
    ensures FreeChain(pages', firstFree, free)
  {
  }

  /** Page p is as the transaction's log would leave it: its last logged image is its contents, or it
      has no image and has not changed since the transaction began. */
  predicate Redoable(pages: map<PageId, Page>, active: map<PageId, Page>, base: map<PageId, Page>, p: PageId)
    requires p in pages
  {
    if p in active then active[p] == pages[p] else p in base && base[p] == pages[p]
  }

  /** The loop of WALManager::commit and of WALManager::recover: each image replaces its page.  The hash
      table is walked in some order; the result does not depend on it. */
  method CopyBack(pages: map<PageId, Page>, images: map<PageId, Page>, order: seq<PageId>)
    returns (after: map<PageId, Page>)
    requires images.Keys <= pages.Keys
    requires forall p :: p in images <==> p in order
    ensures after.Keys == pages.Keys
    ensures forall p :: p in pages ==> after[p] == if p in images then images[p] else pages[p]
  {
    after := pages;
    for i := 0 to |order|
      invariant after.Keys == pages.Keys
      invariant forall p :: p in pages ==> after[p] == if p in order[..i] then images[p] else pages[p]
    {
      var id := order[i];
      assert order[..i + 1] == order[..i] + [id];
      after := after[id := images[id]];
    }
  }

  /** Replaying a transaction's images on the pages and the free-list head it began with gives these pages
      and this head: what has an image is overwritten by it, everything else was there and is the same; the
      head is read from the header's image, if there is one. */
  predicate Replays(base: map<PageId, Page>, baseFirstFree: PageId, images: map<PageId, Page>,
                    pages: map<PageId, Page>, firstFree: PageId)
  {
    && images.Keys <= pages.Keys && base.Keys <= pages.Keys
    && (forall p :: p in pages ==> if p in images then pages[p] == images[p] else p in base && pages[p] == base[p])
    && (if HEADER_PAGE_ID in images then images[HEADER_PAGE_ID] == Header(firstFree) else firstFree == baseFirstFree)
  }

  /** What the copy-back of a transaction leaves, every changed page having been logged. */
  lemma CopiedBack(pages: map<PageId, Page>, firstFree: PageId, free: seq<PageId>, active: map<PageId, Page>,
                   base: map<PageId, Page>, baseFirstFree: PageId, after: map<PageId, Page>)
    requires FreeChain(pages, firstFree, free) && base.Keys <= pages.Keys && active.Keys <= pages.Keys
    requires HEADER_PAGE_ID in base && pages[HEADER_PAGE_ID] == base[HEADER_PAGE_ID]
    requires if HEADER_PAGE_ID in active then active[HEADER_PAGE_ID] == Header(firstFree) else firstFree == baseFirstFree
    requires forall p :: p in pages && p != HEADER_PAGE_ID ==> Redoable(pages, active, base, p)
    requires after.Keys == pages.Keys && forall p :: p in pages ==> after[p] == if p in active then active[p] else pages[p]
    ensures (forall p :: p in after <==> p in pages) && forall p :: p in after && p != HEADER_PAGE_ID ==> after[p] == pages[p]
    ensures HEADER_PAGE_ID in active ==> after[HEADER_PAGE_ID] == Header(firstFree)
    ensures FreeChain(after, firstFree, free) && Replays(base, baseFirstFree, active, after, firstFree)
    ensures forall p :: p in after ==> Redoable(after, map[], after, p)
  {
    hide FreeChain;
    forall p | p in after && p != HEADER_PAGE_ID ensures after[p] == pages[p] {
      assert Redoable(pages, active, base, p);
    }
    ChainSame(pages, after, firstFree, free);
  }

  class Pager {
    var pages: map<PageId, Page>
    var total: nat
    var firstFree: PageId
    var active: map<PageId, Page>

    ghost var free: seq<PageId>
    ghost var base: map<PageId, Page>
    ghost var baseFirstFree: PageId
    ghost var unlogged: set<PageId>
    // the images of the transaction committed last
    ghost var committed: map<PageId, Page>

    /** The file is full of pages, the free list is a chain in it, and replaying the log on the state the
        transaction began with gives the present pages (those of `unlogged` and the header aside) and the
        present head of the free list. */
    ghost predicate Valid()
      reads this
    {
      && 0 < total
      && (forall p :: p in pages <==> 0 <= p < total)
      && FreeChain(pages, firstFree, free)
      && base.Keys <= pages.Keys && active.Keys <= pages.Keys
      && HEADER_PAGE_ID in base && pages[HEADER_PAGE_ID] == base[HEADER_PAGE_ID]
      && (if HEADER_PAGE_ID in active then active[HEADER_PAGE_ID] == Header(firstFree) else firstFree == baseFirstFree)
      && (forall p :: p in pages && p != HEADER_PAGE_ID && p !in unlogged ==> Redoable(pages, active, base, p))
    }

    /** WALManager::begin. */
    method Begin()
      requires Valid()
      modifies this`active, this`base, this`baseFirstFree, this`unlogged
      ensures Valid() && unlogged == {}
      ensures active == map[] && base == pages && baseFirstFree == firstFree
    {
      active := map[];
      base, baseFirstFree, unlogged := pages, firstFree, {};
    }

    /** A node is rewritten in its frame of the pool. */
    method Put(id: PageId, page: Page)
      requires Valid() && id in pages && id !in free && id != HEADER_PAGE_ID
      modifies this`pages, this`unlogged
      ensures Valid() && pages == old(pages)[id := page] && unlogged == old(unlogged) + {id}
    {
      hide FreeChain;
      ChainFrame(pages, firstFree, free, id, page);
      pages := pages[id := page];
      unlogged := unlogged + {id};
    }

    /** WALManager::write: the page's present contents become its logged image. */
    method Log(id: PageId)
      requires Valid() && id in pages && id != HEADER_PAGE_ID
      modifies this`active, this`unlogged
      ensures Valid() && active == old(active)[id := pages[id]] && unlogged == old(unlogged) - {id}
    {
      hide FreeChain;
      active := active[id := pages[id]];
      unlogged := unlogged - {id};
    }

    /** WALManager::commit, the copy-back of the logged images. */
    method Commit()
      requires Valid() && unlogged == {}
      modifies this`pages, this`active, this`base, this`baseFirstFree, this`committed
      ensures Valid() && pages.Keys == old(pages).Keys && committed == old(active)
      ensures Replays(old(base), old(baseFirstFree), old(active), pages, firstFree)
      // of what the transaction left in the pool, only the header changes
      ensures forall p :: p in pages && p != HEADER_PAGE_ID ==> pages[p] == old(pages)[p]
      ensures HEADER_PAGE_ID in old(active) ==> pages[HEADER_PAGE_ID] == Header(firstFree)
      ensures active == map[] && base == pages
    {
      hide FreeChain, Replays, Redoable;
      var order := Enumerate(active, total);
      var after := CopyBack(pages, active, order);
      CopiedBack(pages, firstFree, free, active, base, baseFirstFree, after);
      pages := after;
      committed := active;
      active := map[];
      base, baseFirstFree := pages, firstFree;
    }

    /** FreeListManager::allocate_page: the head of the free list, or a new page at the end of the file. */
    method Allocate() returns (id: PageId)
      requires Valid()
      modifies this`pages, this`total, this`firstFree, this`active, this`free, this`unlogged
      ensures Valid() && HEADER_PAGE_ID < id < total && id in pages && id !in free && unlogged == old(unlogged) + {id}
      ensures old(free) != [] ==> id == old(free)[0] && free == old(free)[1..] && total == old(total) && pages == old(pages)
      ensures old(free) == [] ==> id == old(total) && free == [] && id !in old(pages) && total == old(total) + 1 && pages == old(pages)[id := Blank]
    {
      hide FreeChain;
      ChainPop(pages, firstFree, free);
      var head := firstFree;
      if head == NO_FREE_PAGE {
        id := total;
        ChainFrame(pages, firstFree, free, id, Blank);
        pages := pages[id := Blank];
        total := total + 1;
      } else {
        var next := pages[head].nextFree;
        firstFree := next;
        active := active[HEADER_PAGE_ID := Header(next)];
        id := head;
        free := free[1..];
      }
      unlogged := unlogged + {id};
    }

    /** FreeListManager::free_page: the page becomes the head of the free list. */
    method Free(id: PageId)
      requires Valid() && id in pages && HEADER_PAGE_ID < id && id !in free
      modifies this`pages, this`total, this`firstFree, this`active, this`free, this`unlogged
      ensures Valid() && free == [id] + old(free) && total == old(total) && unlogged == old(unlogged) - {id}
      ensures pages == old(pages)[id := FreeRecord(old(firstFree))]
    {
      hide FreeChain;
      ChainPush(pages, firstFree, free, id);
      pages := pages[id := FreeRecord(firstFree)];
      active := active[id := pages[id]];
      unlogged := unlogged - {id};
      firstFree := id;
      active := active[HEADER_PAGE_ID := Header(id)];
      free := [id] + free;
    }
  }
}
