/**
  The buffer pool of the paged B+ tree: a table from page id to page,
  created on first fetch, and a page-id allocator that counts up from 1.
  Pages are the in-memory tree nodes of the tree (keys, children, values
  and the parent/sibling links), held here as values: writing through the
  `Page*` a fetch returns is modelled as replacing that page's entry in the table.
*/
module BufferPool {
  /** Page ids are unsigned; 0 is never handed out and marks "no page". */
  type PageId = nat

  const INVALID_PAGE_ID: PageId := 0

  datatype PageType = InternalPage | LeafPage

  /**
    One tree page. `keys` holds the `keyCount` keys in use; an internal page
    uses `children` (one more than its keys), a leaf uses `values` (one per key).
  */
  datatype Node = Node(
    pageType: PageType,
    keys: seq<int>,
    children: seq<PageId>,
    values: seq<int>,
    parentPageId: PageId,
    nextPageId: PageId,
    prevPageId: PageId)

  /** A freshly created page: an empty leaf with every link unset. */
  function DefaultNode(): (n: Node)
    ensures n.pageType == LeafPage && |n.keys| == 0
    ensures n.parentPageId == INVALID_PAGE_ID && n.nextPageId == INVALID_PAGE_ID
    ensures n.prevPageId == INVALID_PAGE_ID
  {
    Node(LeafPage, [], [], [], INVALID_PAGE_ID, INVALID_PAGE_ID, INVALID_PAGE_ID)
  }

  /** The table `fetchPage(id)` leaves: unchanged when `id` is present, else one default page more. */
  function Fetched(table: map<PageId, Node>, id: PageId): (t: map<PageId, Node>)
    ensures id in t && t.Keys == table.Keys + {id}
    ensures id in table ==> t == table
    ensures id !in table ==> t[id] == DefaultNode() && |t| == |table| + 1
    ensures forall p :: p in table ==> p in t && t[p] == table[p]
  {
    if id in table then table else table[id := DefaultNode()]
  }

  class BufferPoolManager {
    var pageTable: map<PageId, Node>
    var nextPageId: PageId

    ghost predicate Valid()
      reads this
    {
      INVALID_PAGE_ID < nextPageId
    }

    constructor()
      ensures Valid()
      ensures pageTable == map[] && nextPageId == 1
    {
      pageTable := map[];
      nextPageId := 1;
    }

    /** `allocatePage`: hands out the next id and counts up; the table is untouched. */
    method AllocatePage() returns (id: PageId)
      requires Valid()
      modifies this`nextPageId
      ensures Valid()
      ensures id == old(nextPageId) && id != INVALID_PAGE_ID
      ensures nextPageId == id + 1
    {
      id := nextPageId;
      nextPageId := nextPageId + 1;
    }

    /** `fetchPage`: the page with this id, created as a default page when absent. */
    method FetchPage(id: PageId) returns (page: Node)
      modifies this`pageTable
      ensures pageTable == Fetched(old(pageTable), id)
      ensures page == pageTable[id]
    {
      if id !in pageTable {
        pageTable := pageTable[id := DefaultNode()];
      }
      page := pageTable[id];
    }

    /** `flushPage`: fetches the page; the text dump it then writes is not modelled. */
    method FlushPage(id: PageId)
      modifies this`pageTable
      ensures pageTable == Fetched(old(pageTable), id)
    {
      var _ := FetchPage(id);
    }

    /** `deletePage`: removes the page when present and does nothing otherwise. */
    method DeletePage(id: PageId)
      modifies this`pageTable
      ensures pageTable == old(pageTable) - {id}
      ensures id in old(pageTable) ==> |pageTable| == |old(pageTable)| - 1
      ensures id !in old(pageTable) ==> pageTable == old(pageTable)
    {
      if id in pageTable {
        pageTable := pageTable - {id};
      }
    }

    /** `getPageCount`: the number of pages in the table. */
    function PageCount(): (n: nat)
      reads this
      ensures n == 0 <==> pageTable == map[]
      ensures forall id :: id in pageTable ==> 0 < n
    {
      |pageTable|
    }
  }

  /** `allocatePage` calls after construction return 1, 2, 3, ...: the k-th call returns k. */
  method AllocateSequence(pool: BufferPoolManager, count: nat) returns (ids: seq<PageId>)
    requires pool.Valid() && pool.nextPageId == 1
    modifies pool`nextPageId
    ensures |ids| == count
    ensures forall i :: 0 <= i < count ==> ids[i] == i + 1
    ensures pool.nextPageId == count + 1
  {
    ids := [];
    while |ids| < count
      invariant pool.Valid() && |ids| <= count
      invariant pool.nextPageId == |ids| + 1
      invariant forall i :: 0 <= i < |ids| ==> ids[i] == i + 1
    {
      var id := pool.AllocatePage();
      ids := ids + [id];
    }
  }
}
