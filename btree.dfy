/**
  The paged B+ tree: keys and values live in leaf pages chained left to
  right, internal pages hold separators and child page ids, and every page
  is reached through the buffer pool by its id. Keys and values are `int`.
*/
module PagedBTree {
  import opened OptionType
  import opened BufferPool
  import opened BTreeView
  import opened BTreeInsert
  import opened LeafSplit
  import opened InternalSplit
  import opened InsertSteps
  import opened InsertWrites

  class PagedBPlusTree {
    const pool: BufferPoolManager
    var rootPageId: PageId
    var firstLeafPageId: PageId
    const order: nat

    /** Proof-only reading of the pages: ranks, key ranges and the leaf chain. */
    ghost var rank: map<PageId, nat>
    ghost var rng: map<PageId, Range>
    ghost var chain: seq<PageId>

    ghost function CurrentView(): View
      reads this, pool
    {
      View(pool.pageTable, rootPageId, pool.nextPageId, rank, rng, chain)
    }

    ghost predicate Valid()
      reads this, pool
    {
      && 2 <= order <= 100
      && pool.Valid()
      && TreeOk(CurrentView(), order, INVALID_PAGE_ID)
      && 0 < |chain| && firstLeafPageId == chain[0]
    }

    /** The key/value pairs the tree stores. */
    ghost function Contents(): map<int, int>
      reads this, pool
    {
      Stored(CurrentView())
    }

    /** A new tree is one empty leaf page, which is both the root and the first leaf. */
    constructor(ord: nat := 3)
      requires 2 <= ord <= 100
      ensures Valid() && fresh(pool)
      ensures order == ord && Contents() == map[]
      ensures rootPageId == firstLeafPageId == 1
    {
      order := ord;
      var bp := new BufferPoolManager();
      var id := bp.AllocatePage();
      var page := bp.FetchPage(id);
      bp.pageTable := bp.pageTable[id := page.(pageType := LeafPage)];
      pool := bp;
      rootPageId := id;
      firstLeafPageId := id;
      rank := map[id := 0];
      rng := map[id := Everything];
      chain := [id];
      new;
      ghost var v := CurrentView();
      assert v.pages.Keys == {id};
      assert LinkOk(v, 0) && LeafOk(v, id);
      assert DownOk(v, id, order, INVALID_PAGE_ID);
      EntriesSingle(v.pages, id);
    }

    /**
      `findLeafPage`: descends from the root, at each internal page taking
      the child after the last separator that is <= key, and stops at a
      leaf. The leaf reached is the one whose key range holds `key`.
    */
    method FindLeafPage(key: int) returns (leafId: PageId)
      requires Valid()
      modifies pool`pageTable
      ensures Valid() && pool.pageTable == old(pool.pageTable)
      ensures leafId in chain && leafId in pool.pageTable && leafId in rng
      ensures pool.pageTable[leafId].pageType == LeafPage
      ensures InRange(rng[leafId], key)
    {
      ghost var v := CurrentView();
      var current := rootPageId;
      while true
        invariant pool.pageTable == v.pages
        invariant current in v.pages && current in v.rank && current in v.rng
        invariant InRange(v.rng[current], key)
        decreases v.rank[current]
      {
        var page := pool.FetchPage(current);
        assert DownOk(v, current, order, INVALID_PAGE_ID);
        if page.pageType == LeafPage {
          return current;
        }
        var pos := 0;
        while pos < |page.keys| && key >= page.keys[pos]
          invariant 0 <= pos <= |page.keys|
          invariant 0 < pos ==> page.keys[pos - 1] <= key
        {
          pos := pos + 1;
        }
        assert ChildOk(v, current, pos);
        current := page.children[pos];
      }
    }

    /**
      `search`: true exactly when the key is stored, and then the value
      stored with it; otherwise `value` is left as the caller passed it.
    */
    method Search(key: int, value0: int) returns (found: bool, value: int)
      requires Valid()
      modifies pool`pageTable
      ensures Valid() && pool.pageTable == old(pool.pageTable)
      ensures found <==> key in Contents()
      ensures found ==> value == Contents()[key]
      ensures !found ==> value == value0
    {
      var leafId := FindLeafPage(key);
      var leaf := pool.FetchPage(leafId);
      ghost var v := CurrentView();
      ghost var ci :| 0 <= ci < |chain| && chain[ci] == leafId;
      LeafDecides(v, ci, key);
      found, value := LookupLeaf(leaf, key, value0);
    }

    /**
      `insert`: in the leaf whose range holds the key, an existing key only
      has its value replaced; a new key goes in at its sorted slot when the
      leaf has room, and otherwise the leaf is split.
    */
    method Insert(key: int, value: int)
      requires Valid()
      modifies this, pool
      ensures Valid() && Contents() == old(Contents())[key := value]
      ensures firstLeafPageId == old(firstLeafPageId)
    {
      var leafId := FindLeafPage(key);
      var leaf := pool.FetchPage(leafId);
      ghost var v := CurrentView();
      ghost var ci :| 0 <= ci < |chain| && chain[ci] == leafId;
      LeafReady(v, order, ci, key);
      var i := 0;
      while i < |leaf.keys| && leaf.keys[i] != key
        invariant i <= |leaf.keys|
        invariant forall k :: 0 <= k < i ==> leaf.keys[k] != key
      {
        i := i + 1;
      }
      if i < |leaf.keys| {
        ghost var f := OverwriteDone(v, order, ci, i, value);
        WriteLeaf(leafId, leaf.(values := leaf.values[i := value]), f);
        return;
      }
      if |leaf.keys| < order - 1 {
        var pos := SlotOf(leaf.keys, key);
        var m := ShiftLeaf(leaf, pos, key, value);
        ghost var f := LeafRoomDone(v, order, ci, pos, key, value);
        WriteLeaf(leafId, m, f);
      } else {
        SplitLeafPage(leafId, key, value, ci);
      }
    }

    /** The write-back of both in-place branches of `insert`: leaf `l` becomes `x`, which makes the tree `f`. */
    method WriteLeaf(l: PageId, x: Node, ghost f: View)
      requires 2 <= order <= 100 && pool.Valid() && 0 < |chain| && firstLeafPageId == chain[0]
      requires f.pages == pool.pageTable[l := x] && f.root == rootPageId && f.nextId == pool.nextPageId
      requires f.rank == rank && f.rng == rng && f.chain == chain
      requires TreeOk(f, order, INVALID_PAGE_ID)
      modifies pool`pageTable
      ensures Valid() && Contents() == Stored(f)
    {
      pool.pageTable := pool.pageTable[l := x];
      pool.FlushPage(l);
      assert CurrentView() == f;
    }

    /**
      `splitLeafPage`: the full leaf takes the new pair, keeps the first
      (order+1)/2 pairs and hands the rest to a new page spliced in after
      it in the leaf chain. The new page's first key goes up to the parent,
      or, when the leaf was the root, into a new root page whose two
      children are the halves.
    */
    method SplitLeafPage(leafId: PageId, key: int, value: int, ghost ci: int)
      requires Valid() && 0 <= ci < |chain| && chain[ci] == leafId
      requires leafId in pool.pageTable && leafId in rng && leafId in rank && InRange(rng[leafId], key)
      requires key !in pool.pageTable[leafId].keys && |pool.pageTable[leafId].keys| + 1 == order
      modifies this, pool
      ensures Valid() && Contents() == old(Contents())[key := value]
      ensures firstLeafPageId == old(firstLeafPageId)
    {
      var leaf := pool.FetchPage(leafId);
      ghost var v := CurrentView();
      LeafReady(v, order, ci, key);
      var n := pool.AllocatePage();
      var right := pool.FetchPage(n);
      right := right.(pageType := LeafPage);
      var pos := SlotOf(leaf.keys, key);
      assert LeafFull(v, order, ci, pos, key);
      var mid := (order + 1) / 2;
      var left;
      left, right := LeafHalves(leaf, right, pos, key, value, mid, n, leafId);
      RelinkNext(leaf.nextPageId, n);
      var sep := right.keys[0];
      if leafId == rootPageId {
        LeafUnderNewRoot(v, ci, pos, key, value, leafId, n, left, right, sep);
      } else {
        LeafUnderParent(v, ci, pos, key, value, leafId, leaf.parentPageId, n, left, right, sep);
      }
      pool.FlushPage(leafId);
      pool.FlushPage(n);
    }

    /** The root branch of `splitLeafPage`: a new root over the halves. */
    method LeafUnderNewRoot(ghost v: View, ghost ci: int, ghost pos: nat, key: int, value: int,
                            leafId: PageId, n: PageId, left: Node, right: Node, sep: int)
      requires 2 <= order <= 100 && LeafFull(v, order, ci, pos, key) && v.chain[ci] == v.root && Writable(v, ci)
      requires leafId == v.chain[ci]
      requires n == v.nextId && rootPageId == v.root && firstLeafPageId == v.chain[0]
      requires pool.Valid() && pool.nextPageId == n + 1
      requires pool.pageTable == Relinked(v.pages, v.pages[v.chain[ci]].nextPageId, n)
      requires var m := LeafWith(v.pages[v.chain[ci]], pos, key, value);
        && left == LeftLeaf(m, (order + 1) / 2, n)
        && right == RightLeaf(m, (order + 1) / 2, v.chain[ci]).(parentPageId := INVALID_PAGE_ID)
        && sep == m.keys[(order + 1) / 2]
      modifies this, pool
      ensures Valid() && Contents() == Stored(v)[key := value] && firstLeafPageId == v.chain[0]
      ensures v.chain[ci] in pool.pageTable && n in pool.pageTable
    {
      ghost var f := LeafRootDone(v, order, ci, pos, key, value, pool.pageTable, n, left, right, sep);
      NewRootOver(leafId, n, left, right, sep, f);
    }

    /** The other branch of `splitLeafPage`: the new page's first key and the new page go up to the parent. */
    method LeafUnderParent(ghost v: View, ghost ci: int, ghost pos: nat, key: int, value: int,
                           leafId: PageId, parent: PageId, n: PageId, left: Node, right: Node, sep: int)
      requires 2 <= order <= 100 && LeafFull(v, order, ci, pos, key) && v.chain[ci] != v.root && Writable(v, ci)
      requires leafId == v.chain[ci] && parent == v.pages[leafId].parentPageId
      requires n == v.nextId && rootPageId == v.root && firstLeafPageId == v.chain[0]
      requires pool.Valid() && pool.nextPageId == n + 1
      requires pool.pageTable == Relinked(v.pages, v.pages[v.chain[ci]].nextPageId, n)
      requires var m := LeafWith(v.pages[v.chain[ci]], pos, key, value);
        && left == LeftLeaf(m, (order + 1) / 2, n)
        && right == RightLeaf(m, (order + 1) / 2, v.chain[ci]).(parentPageId := INVALID_PAGE_ID)
        && sep == m.keys[(order + 1) / 2]
      modifies this, pool
      ensures Valid() && Contents() == Stored(v)[key := value] && firstLeafPageId == v.chain[0]
      ensures v.chain[ci] in pool.pageTable && n in pool.pageTable
    {
      ghost var w, j := LeafBelowDone(v, order, ci, pos, key, value, pool.pageTable, n, left, right, sep);
      UnderParent(leafId, parent, n, left, right, sep, w, j);
    }

    /**
      The new-root step of both splits: the next page id becomes an
      internal root holding `sep` between the split page `l` and new page
      `n`, both of which it adopts. Given the tree `f` that this table
      makes, the tree becomes `f`.
    */
    method NewRootOver(l: PageId, n: PageId, left: Node, right: Node, sep: int, ghost f: View)
      requires 2 <= order <= 100 && pool.Valid() && pool.nextPageId == n + 1 && n + 1 !in pool.pageTable
      requires f.pages == pool.pageTable[n + 1 := DefaultNode()]
        [l := left.(parentPageId := n + 1)][n := right.(parentPageId := n + 1)][n + 1 := NewRoot(sep, l, n)]
      requires TreeOk(f, order, INVALID_PAGE_ID) && 0 < |f.chain| && f.chain[0] == firstLeafPageId
      requires f.root == n + 1 && f.nextId == n + 2
      modifies this, pool
      ensures Valid() && Contents() == Stored(f) && chain == f.chain && firstLeafPageId == old(firstLeafPageId)
      ensures forall q :: q in old(pool.pageTable) ==> q in pool.pageTable
      ensures l in pool.pageTable && n in pool.pageTable
    {
      var r := pool.AllocatePage();
      var root := pool.FetchPage(r);
      root := root.(pageType := InternalPage, keys := [sep], children := [l, n]);
      var l' := left.(parentPageId := r);
      var n' := right.(parentPageId := r);
      rootPageId := r;
      pool.pageTable := pool.pageTable[l := l'][n := n'][r := root];
      rank, rng, chain := f.rank, f.rng, f.chain;
      assert CurrentView() == f;
    }

    /**
      The parent step of both splits: page `l` and new page `n` take their
      halves, `n` under `l`'s parent, and the parent then receives `sep`
      and `n`. Given the pending tree `w` that this table makes, the tree
      ends up storing what `w` stores.
    */
    method UnderParent(l: PageId, parent: PageId, n: PageId, left: Node, right: Node, sep: int,
                       ghost w: View, ghost j: nat)
      requires 2 <= order <= 100 && pool.Valid() && l in pool.pageTable && n in pool.pageTable
      requires w.pages == pool.pageTable[l := left][n := right.(parentPageId := parent)]
      requires w.root == rootPageId && w.nextId == pool.nextPageId && 0 < |w.chain| && w.chain[0] == firstLeafPageId
      requires Pending(w, order, parent, j, sep, n)
      requires parent in w.pages && w.pages[parent].pageType == InternalPage
      requires parent in w.rank && w.root in w.rank && w.rank[parent] <= w.rank[w.root]
      modifies this, pool
      ensures Valid() && Contents() == Stored(w) && chain == w.chain && firstLeafPageId == old(firstLeafPageId)
      ensures forall q :: q in old(pool.pageTable) ==> q in pool.pageTable
      ensures l in pool.pageTable && n in pool.pageTable
      decreases w.rank[w.root] as int - w.rank[parent], 3
    {
      pool.pageTable := pool.pageTable[l := left][n := right.(parentPageId := parent)];
      rank, rng, chain := w.rank, w.rng, w.chain;
      assert CurrentView() == w;
      InsertInternal(sep, parent, n, j);
    }

    /** The relinking step of `splitLeafPage`: the leaf's old successor, if any, gets new page n as predecessor. */
    method RelinkNext(x: PageId, n: PageId)
      requires x != INVALID_PAGE_ID ==> x in pool.pageTable
      modifies pool`pageTable
      ensures x != INVALID_PAGE_ID ==> pool.pageTable == old(pool.pageTable)[x := old(pool.pageTable)[x].(prevPageId := n)]
      ensures x == INVALID_PAGE_ID ==> pool.pageTable == old(pool.pageTable)
    {
      if x != INVALID_PAGE_ID {
        var next := pool.FetchPage(x);
        pool.pageTable := pool.pageTable[x := next.(prevPageId := n)];
      }
    }

    /**
      `insertInternal`: internal page p receives separator `key` and the
      new page `child` after it. With room, both go in at the first slot
      whose separator is not below `key`; a full page is split instead.
    */
    method InsertInternal(key: int, p: PageId, child: PageId, ghost j: nat)
      requires 2 <= order <= 100 && pool.Valid() && 0 < |chain| && firstLeafPageId == chain[0]
      requires Pending(CurrentView(), order, p, j, key, child) && pool.pageTable[p].pageType == InternalPage
      requires p in rank && rootPageId in rank && rank[p] <= rank[rootPageId]
      modifies this, pool
      ensures Valid() && Contents() == old(Contents())
      ensures chain == old(chain) && firstLeafPageId == old(firstLeafPageId)
      ensures forall q :: q in old(pool.pageTable) ==> q in pool.pageTable
      decreases rank[rootPageId] - rank[p], 2
    {
      var page := pool.FetchPage(p);
      if |page.keys| < order - 1 {
        InternalWithRoom(p, key, child, j, page);
      } else {
        PendingSlot(CurrentView(), order, p, j, key, child);
        SplitInternalPage(p, key, child, j);
      }
    }

    /** The room branch of `insertInternal`: p takes the separator and the child in place. */
    method InternalWithRoom(p: PageId, key: int, child: PageId, ghost j: nat, page: Node)
      requires 2 <= order <= 100 && pool.Valid() && 0 < |chain| && firstLeafPageId == chain[0]
      requires Pending(CurrentView(), order, p, j, key, child) && pool.pageTable[p].pageType == InternalPage
      requires page == pool.pageTable[p] && |page.keys| < order - 1
      modifies pool`pageTable
      ensures Valid() && Contents() == old(Contents())
      ensures forall q :: q in old(pool.pageTable) ==> q in pool.pageTable
    {
      ghost var v := CurrentView();
      ghost var f := RoomDone(v, order, p, j, key, child);
      var pos := SlotOf(page.keys, key);
      SlotIsPending(page.keys, key, pos, j);
      var m := ShiftInternal(page, pos, key, child);
      pool.pageTable := pool.pageTable[p := m];
      var c := pool.FetchPage(child);
      pool.pageTable := pool.pageTable[child := c.(parentPageId := p)];
      pool.FlushPage(p);
      assert CurrentView() == f;
    }

    /**
      `splitInternalPage`: the full page takes the new separator and child,
      keeps the separators before the middle one, promotes the middle one,
      and hands the rest to a new page whose children are re-parented to
      it. The promoted separator goes up to the parent, or into a new root
      page when the split page was the root.
    */
    method SplitInternalPage(p: PageId, key: int, child: PageId, ghost j: nat)
      requires 2 <= order <= 100 && pool.Valid() && 0 < |chain| && firstLeafPageId == chain[0]
      requires Pending(CurrentView(), order, p, j, key, child) && pool.pageTable[p].pageType == InternalPage
      requires p in rank && rootPageId in rank && rank[p] <= rank[rootPageId]
      requires |pool.pageTable[p].keys| + 1 == order
      modifies this, pool
      ensures Valid() && Contents() == old(Contents())
      ensures chain == old(chain) && firstLeafPageId == old(firstLeafPageId)
      ensures forall q :: q in old(pool.pageTable) ==> q in pool.pageTable
      decreases rank[rootPageId] - rank[p], 1
    {
      var page := pool.FetchPage(p);
      ghost var v := CurrentView();
      InternalReady(v, order, p, j, key, child);
      var n := pool.AllocatePage();
      var right := pool.FetchPage(n);
      right := right.(pageType := InternalPage);
      var pos := SlotOf(page.keys, key);
      SlotIsPending(page.keys, key, pos, j);
      var mid := (order + 1) / 2;
      var midKey, left;
      midKey, left, right := InternalHalves(page, right, pos, key, child, mid, pool.pageTable);
      ReparentChildren(right.children, n);
      if p == rootPageId {
        InternalUnderNewRoot(v, p, j, key, child, n, left, right, midKey);
      } else {
        InternalUnderParent(v, p, j, key, child, page.parentPageId, n, left, right, midKey);
      }
      pool.FlushPage(p);
      pool.FlushPage(n);
    }

    /** The root branch of `splitInternalPage`: a new root over the halves. */
    method InternalUnderNewRoot(ghost v: View, p: PageId, ghost j: nat, key: int, child: PageId,
                                n: PageId, left: Node, right: Node, midKey: int)
      requires 2 <= order <= 100 && InternalFull(v, order, p, j, key, child) && p == v.root
      requires n == v.nextId && rootPageId == v.root && 0 < |v.chain| && firstLeafPageId == v.chain[0]
      requires pool.Valid() && pool.nextPageId == n + 1
      requires var m := WithChild(v.pages[p], j, key, child);
        var mid := (order + 1) / 2;
        && mid < |m.keys| && |m.children| == |m.keys| + 1
        && pool.pageTable == Reparent(v.pages[n := DefaultNode()], RightHalf(m, mid).children, n)
        && left == LeftHalf(m, mid) && right == RightHalf(m, mid).(parentPageId := INVALID_PAGE_ID)
        && midKey == m.keys[mid]
      modifies this, pool
      ensures Valid() && Contents() == Stored(v) && chain == v.chain && firstLeafPageId == v.chain[0]
      ensures forall q :: q in v.pages ==> q in pool.pageTable
      ensures p in pool.pageTable && n in pool.pageTable
    {
      ghost var f := InternalRootDone(v, order, p, j, key, child, pool.pageTable, n, left, right, midKey);
      NewRootOver(p, n, left, right, midKey, f);
    }

    /** The other branch of `splitInternalPage`: the promoted separator and the new page go up to the parent. */
    method InternalUnderParent(ghost v: View, p: PageId, ghost j: nat, key: int, child: PageId,
                               parent: PageId, n: PageId, left: Node, right: Node, midKey: int)
      requires 2 <= order <= 100 && InternalFull(v, order, p, j, key, child) && p != v.root
      requires parent == v.pages[p].parentPageId
      requires n == v.nextId && rootPageId == v.root && 0 < |v.chain| && firstLeafPageId == v.chain[0]
      requires pool.Valid() && pool.nextPageId == n + 1
      requires var m := WithChild(v.pages[p], j, key, child);
        var mid := (order + 1) / 2;
        && mid < |m.keys| && |m.children| == |m.keys| + 1
        && pool.pageTable == Reparent(v.pages[n := DefaultNode()], RightHalf(m, mid).children, n)
        && left == LeftHalf(m, mid) && right == RightHalf(m, mid).(parentPageId := INVALID_PAGE_ID)
        && midKey == m.keys[mid]
      modifies this, pool
      ensures Valid() && Contents() == Stored(v) && chain == v.chain && firstLeafPageId == v.chain[0]
      ensures forall q :: q in v.pages ==> q in pool.pageTable
      ensures p in pool.pageTable && n in pool.pageTable
      decreases v.rank[v.root] as int - v.rank[p], 0
    {
      ghost var w, j' := InternalBelowDone(v, order, p, j, key, child, pool.pageTable, n, left, right, midKey);
      UnderParent(p, parent, n, left, right, midKey, w, j');
    }

    /** The re-parenting loop of `splitInternalPage`: each listed page gets parent `r`. */
    method ReparentChildren(ids: seq<PageId>, r: PageId)
      requires forall i :: 0 <= i < |ids| ==> ids[i] in pool.pageTable
      modifies pool`pageTable
      ensures pool.pageTable == Reparent(old(pool.pageTable), ids, r)
    {
      ghost var t := pool.pageTable;
      for i := 0 to |ids|
        invariant pool.pageTable == Reparent(t, ids[..i], r)
      {
        var c := pool.FetchPage(ids[i]);
        pool.pageTable := pool.pageTable[ids[i] := c.(parentPageId := r)];
        ReparentStep(t, ids, i, r);
      }
      assert ids[..|ids|] == ids;
    }

    /**
      `rangeQuery`: the stored pairs with startKey <= key <= endKey. The scan
      starts at the leaf that would hold startKey, follows the next links,
      and stops at the first key above endKey.
    */
    method RangeQuery(startKey: int, endKey: int) returns (result: seq<Entry>)
      requires Valid()
      modifies pool`pageTable
      ensures Valid() && pool.pageTable == old(pool.pageTable)
      ensures result == InInterval(Entries(pool.pageTable, chain), startKey, endKey)
      ensures SortedEntries(result)
      ensures forall x :: x in result <==>
                x.key in Contents() && Contents()[x.key] == x.value && startKey <= x.key <= endKey
    {
      var leafId := FindLeafPage(startKey);
      ghost var v := CurrentView();
      ghost var ci0 :| 0 <= ci0 < |chain| && chain[ci0] == leafId;
      ScanPrefix(v, ci0, startKey, endKey);
      result := ScanChain(v, ci0, leafId, startKey, endKey);
      ResultMeaning(v, startKey, endKey, result);
    }

    /** The loop of `rangeQuery`: the leaves from `chain[ci0]` on, scanned up to the first key above endKey. */
    method ScanChain(ghost v: View, ghost ci0: int, leafId0: PageId, startKey: int, endKey: int)
      returns (result: seq<Entry>)
      requires LeavesOk(v) && pool.pageTable == v.pages
      requires 0 <= ci0 < |v.chain| && leafId0 == v.chain[ci0]
      modifies pool`pageTable
      ensures pool.pageTable == v.pages
      ensures result == InInterval(Entries(v.pages, v.chain[ci0..|v.chain|]), startKey, endKey)
    {
      result := [];
      var leafId := leafId0;
      ghost var ci := ci0;
      LeafShape(v, ci0);
      while leafId != INVALID_PAGE_ID
        invariant pool.pageTable == v.pages
        invariant ci0 <= ci <= |v.chain|
        invariant ci < |v.chain| ==> leafId == v.chain[ci]
        invariant leafId == INVALID_PAGE_ID <==> ci == |v.chain|
        invariant result == InInterval(Entries(v.pages, v.chain[ci0..ci]), startKey, endKey)
        decreases |v.chain| - ci
      {
        var stop;
        result, stop, leafId := VisitLeaf(v, ci0, ci, leafId, startKey, endKey, result);
        if stop {
          return;
        }
        ci := ci + 1;
      }
    }

    /** One turn of the `rangeQuery` loop: fetch the leaf, scan it, and read its next link. */
    method VisitLeaf(ghost v: View, ghost ci0: int, ghost ci: int, leafId: PageId, startKey: int, endKey: int,
                     result: seq<Entry>)
      returns (r: seq<Entry>, stop: bool, next: PageId)
      requires LeavesOk(v) && pool.pageTable == v.pages
      requires 0 <= ci0 <= ci < |v.chain| && leafId == v.chain[ci]
      requires result == InInterval(Entries(v.pages, v.chain[ci0..ci]), startKey, endKey)
      modifies pool`pageTable
      ensures pool.pageTable == v.pages
      ensures stop ==> r == InInterval(Entries(v.pages, v.chain[ci0..|v.chain|]), startKey, endKey)
      ensures !stop ==> r == InInterval(Entries(v.pages, v.chain[ci0..ci + 1]), startKey, endKey)
      ensures ci + 1 < |v.chain| ==> next == v.chain[ci + 1]
      ensures next == INVALID_PAGE_ID <==> ci + 1 == |v.chain|
    {
      LeafShape(v, ci);
      var leaf := pool.FetchPage(leafId);
      assert leaf == v.pages[v.chain[ci]];
      ghost var done := Entries(v.pages, v.chain[ci0..ci]);
      ghost var i;
      r, stop, i := ScanLeaf(leaf, startKey, endKey, done, result);
      LeafScanned(v, ci0, ci, leaf, done, stop, i, r, startKey, endKey);
      next := leaf.nextPageId;
    }
  }

  /**
    The inner loop of `rangeQuery` over one leaf: appends the leaf's pairs
    inside [s, e] to `result` and stops at the first key above `e`.
  */
  method ScanLeaf(leaf: Node, s: int, e: int, ghost done: seq<Entry>, result: seq<Entry>)
    returns (r: seq<Entry>, stop: bool, ghost i: int)
    requires |leaf.values| == |leaf.keys|
    requires result == InInterval(done, s, e)
    ensures !stop ==> r == InInterval(done + LeafEntries(leaf), s, e)
    ensures stop ==> 0 <= i < |LeafEntries(leaf)| && e < leaf.keys[i]
    ensures stop ==> r == InInterval(done + LeafEntries(leaf)[..i + 1], s, e)
  {
    ghost var es := LeafEntries(leaf);
    assert done + es[..0] == done;
    r := result;
    for k := 0 to |leaf.keys|
      invariant r == InInterval(done + es[..k], s, e)
    {
      ScanPush(done, es, k, s, e);
      if leaf.keys[k] >= s && leaf.keys[k] <= e {
        r := r + [Entry(leaf.keys[k], leaf.values[k])];
      }
      if leaf.keys[k] > e {
        return r, true, k;
      }
    }
    assert es[..|leaf.keys|] == es;
    return r, false, 0;
  }

  /** The scan of one leaf in `search`: the value in the first slot holding the key. */
  method LookupLeaf(leaf: Node, key: int, value0: int) returns (found: bool, value: int)
    requires |leaf.values| == |leaf.keys|
    ensures found <==> key in leaf.keys
    ensures found ==> exists i :: 0 <= i < |leaf.keys| && leaf.keys[i] == key && value == leaf.values[i]
    ensures !found ==> value == value0
  {
    for i := 0 to |leaf.keys|
      invariant forall j :: 0 <= j < i ==> leaf.keys[j] != key
    {
      if leaf.keys[i] == key {
        return true, leaf.values[i];
      }
    }
    return false, value0;
  }

  /**
    The scan shared by `insert`, `splitLeafPage`, `splitInternalPage` and
    `insertInternal`: the first slot whose key is not below `key`.
  */
  method SlotOf(keys: seq<int>, key: int) returns (pos: nat)
    ensures pos <= |keys|
    ensures forall i :: 0 <= i < pos ==> keys[i] < key
    ensures pos < |keys| ==> key <= keys[pos]
    ensures Sorted(keys) ==> forall i :: pos <= i < |keys| ==> key <= keys[i]
  {
    pos := 0;
    while pos < |keys| && keys[pos] < key
      invariant pos <= |keys|
      invariant forall i :: 0 <= i < pos ==> keys[i] < key
    {
      pos := pos + 1;
    }
  }

  /**
    The halves `splitLeafPage` writes, built from the leaf's pairs with
    the new pair at slot pos: the leaf keeps the first `mid` pairs and
    links to new page n; the new page, fetched as `page`, takes the rest
    and sits between leaf l and l's old successor.
  */
  method LeafHalves(leaf: Node, page: Node, pos: nat, key: int, value: int, mid: nat, n: PageId, l: PageId)
    returns (left: Node, right: Node)
    requires pos <= |leaf.keys| && |leaf.values| == |leaf.keys| && mid <= |leaf.keys|
    requires page == DefaultNode().(pageType := LeafPage)
    ensures var m := LeafWith(leaf, pos, key, value);
      && left == LeftLeaf(m, mid, n)
      && right == RightLeaf(m, mid, l).(parentPageId := INVALID_PAGE_ID)
  {
    var tempKeys := InsertAt(leaf.keys, pos, key);
    var tempValues := InsertAt(leaf.values, pos, value);
    left := leaf.(keys := tempKeys[..mid], values := tempValues[..mid]);
    right := page.(keys := tempKeys[mid..], values := tempValues[mid..]);
    right := right.(nextPageId := leaf.nextPageId, prevPageId := l);
    left := left.(nextPageId := n);
  }

  /**
    The halves `splitInternalPage` writes, built from the page's
    separators and children with `key` at slot pos and `child` after
    child pos: the separator at `mid` is promoted, the page keeps what is
    before it, and the new page, fetched as `page`, takes what is after
    it. Children that are pages of `table` stay so in the new page.
  */
  method InternalHalves(n: Node, page: Node, pos: nat, key: int, child: PageId, mid: nat, ghost table: map<PageId, Node>)
    returns (midKey: int, left: Node, right: Node)
    requires pos <= |n.keys| && |n.children| == |n.keys| + 1 && mid < |n.keys| + 1
    requires page == DefaultNode().(pageType := InternalPage)
    requires var m := WithChild(n, pos, key, child);
      forall i :: 0 <= i < |m.children| ==> m.children[i] in table
    ensures var m := WithChild(n, pos, key, child);
      && midKey == m.keys[mid]
      && left == LeftHalf(m, mid)
      && right == RightHalf(m, mid).(parentPageId := INVALID_PAGE_ID)
    ensures forall i :: 0 <= i < |right.children| ==> right.children[i] in table
  {
    var tempKeys := InsertAt(n.keys, pos, key);
    var tempChildren := InsertAt(n.children, pos + 1, child);
    midKey := tempKeys[mid];
    left := n.(keys := tempKeys[..mid], children := tempChildren[..mid + 1]);
    right := page.(keys := tempKeys[mid + 1..], children := tempChildren[mid + 1..]);
    forall i | 0 <= i < |right.children| ensures right.children[i] in table {
      assert right.children[i] == tempChildren[mid + 1 + i] == WithChild(n, pos, key, child).children[mid + 1 + i];
    }
  }

  /**
    The shifting loop of `insert` on a leaf with room: from the last slot
    down to pos, every pair moves one slot up; then the new pair goes into
    slot pos and the key count grows by one.
  */
  method ShiftLeaf(n: Node, pos: nat, key: int, value: int) returns (m: Node)
    requires pos <= |n.keys| && |n.values| == |n.keys|
    ensures m == LeafWith(n, pos, key, value)
  {
    var ks := n.keys + [key];
    var vs := n.values + [value];
    var i := |n.keys|;
    while i > pos
      invariant pos <= i <= |n.keys| && |ks| == |vs| == |n.keys| + 1
      invariant forall k :: 0 <= k < i ==> ks[k] == n.keys[k] && vs[k] == n.values[k]
      invariant forall k :: i < k <= |n.keys| ==> ks[k] == n.keys[k - 1] && vs[k] == n.values[k - 1]
    {
      ks := ks[i := ks[i - 1]];
      vs := vs[i := vs[i - 1]];
      i := i - 1;
    }
    ks := ks[pos := key];
    vs := vs[pos := value];
    m := n.(keys := ks, values := vs);
  }

  /**
    The shifting loop of `insertInternal` on a page with room: separators
    from pos on and the children after them move one slot up; then `key`
    goes into slot pos and `child` right after child pos.
  */
  method ShiftInternal(n: Node, pos: nat, key: int, child: PageId) returns (m: Node)
    requires pos <= |n.keys| && |n.children| == |n.keys| + 1
    ensures m == WithChild(n, pos, key, child)
  {
    var ks := n.keys + [key];
    var cs := n.children + [child];
    var i := |n.keys|;
    while i > pos
      invariant pos <= i <= |n.keys| && |ks| == |n.keys| + 1 && |cs| == |n.children| + 1
      invariant forall k :: 0 <= k < i ==> ks[k] == n.keys[k]
      invariant forall k :: i < k <= |n.keys| ==> ks[k] == n.keys[k - 1]
      invariant forall k :: 0 <= k <= i ==> cs[k] == n.children[k]
      invariant forall k :: i + 1 < k <= |n.children| ==> cs[k] == n.children[k - 1]
    {
      ks := ks[i := ks[i - 1]];
      cs := cs[i + 1 := cs[i]];
      i := i - 1;
    }
    ks := ks[pos := key];
    cs := cs[pos + 1 := child];
    m := n.(keys := ks, children := cs);
  }
}
