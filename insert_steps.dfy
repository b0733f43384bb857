/**
  The steps of `insert` put together: from a well-formed tree to the tree
  after the leaf write, the leaf split, the internal splits and the new
  root, each stated as the view the step leaves behind and the stored
  pairs it holds.
*/
module InsertSteps {
  import opened OptionType
  import opened BufferPool
  import opened BTreeView
  import opened BTreeInsert
  import opened LeafSplit
  import opened InternalSplit

  /** Ids from the allocator's next id on are not pages yet. */
  lemma FreshId(v: View, order: nat, over: PageId, id: PageId)
    requires TreeOk(v, order, over) && v.nextId <= id
    ensures id !in v.pages && id != INVALID_PAGE_ID
  {
    assert DownOk(v, v.root, order, over);
    forall q | q in v.pages ensures q < v.nextId {
      assert DownOk(v, q, order, over);
    }
  }

  /** The view with internal page p given separator `key` at position j and `child` after child j. */
  ghost function Placed(v: View, p: PageId, j: nat, key: int, child: PageId): View
    requires p in v.pages && j <= |v.pages[p].keys| && j < |v.pages[p].children|
  {
    v.(pages := v.pages[p := WithChild(v.pages[p], j, key, child)])
  }

  /**
    What `insertInternal` reads off a pending tree at internal page p: it
    has room for at most one more separator, the separator belongs at
    position j (after the smaller keys and before the larger ones), and
    the new child already names p as its parent.
  */
  lemma PendingSlot(v: View, order: nat, p: PageId, j: nat, key: int, child: PageId)
    requires Pending(v, order, p, j, key, child) && v.pages[p].pageType == InternalPage
    ensures |v.pages[p].keys| + 1 <= order && |v.pages[p].children| == |v.pages[p].keys| + 1
    ensures forall k :: 0 <= k < j ==> v.pages[p].keys[k] < key
    ensures forall k :: j <= k < |v.pages[p].keys| ==> key < v.pages[p].keys[k]
    ensures child in v.pages && child != p && v.pages[child].parentPageId == p
    ensures p in v.rank && v.root in v.rank && v.rank[p] <= v.rank[v.root]
    ensures v.nextId !in v.pages && v.nextId + 1 !in v.pages
  {
    var w := Placed(v, p, j, key, child);
    var m := w.pages[p];
    var n := v.pages[p];
    assert DownOk(w, p, order, p);
    assert m.children[j + 1] == child;
    assert ChildOk(w, p, j + 1);
    forall k | 0 <= k < j ensures n.keys[k] < key {
      assert m.keys[k] == n.keys[k] && m.keys[j] == key;
    }
    forall k | j <= k < |n.keys| ensures key < n.keys[k] {
      assert m.keys[k + 1] == n.keys[k] && m.keys[j] == key;
    }
    FreshId(w, order, p, v.nextId);
    FreshId(w, order, p, v.nextId + 1);
  }

  /** Placing a separator into an internal page leaves the stored pairs alone. */
  lemma PlacedStored(v: View, order: nat, p: PageId, j: nat, key: int, child: PageId)
    requires Pending(v, order, p, j, key, child) && v.pages[p].pageType == InternalPage
    ensures Stored(Placed(v, p, j, key, child)) == Stored(v)
  {
    var w := Placed(v, p, j, key, child);
    forall i | 0 <= i < |v.chain|
      ensures v.chain[i] in v.pages && v.chain[i] in w.pages
      ensures LeafEntries(w.pages[v.chain[i]]) == LeafEntries(v.pages[v.chain[i]])
    {
      LeafAt(w, i);
    }
    EntriesFrame(v.pages, w.pages, v.chain);
  }

  /**
    The non-full case of `insertInternal`: once the separator and the child
    are placed, the tree is well-formed with the same stored pairs.
  */
  lemma PlaceWithRoom(v: View, order: nat, p: PageId, j: nat, key: int, child: PageId)
    requires Pending(v, order, p, j, key, child) && v.pages[p].pageType == InternalPage
    requires |v.pages[p].keys| < order - 1
    ensures TreeOk(Placed(v, p, j, key, child), order, INVALID_PAGE_ID)
    ensures Stored(Placed(v, p, j, key, child)) == Stored(v)
  {
    Relax(Placed(v, p, j, key, child), order, p);
    PlacedStored(v, order, p, j, key, child);
  }

  /**
    The room branch of `insertInternal`, as the tree code sees it: the
    pending tree with the separator and child placed at slot j of p is a
    well-formed tree storing the same pairs, over the same pages.
  */
  lemma RoomDone(v: View, order: nat, p: PageId, j: nat, key: int, child: PageId) returns (f: View)
    requires Pending(v, order, p, j, key, child) && v.pages[p].pageType == InternalPage
    requires |v.pages[p].keys| < order - 1
    ensures j <= |v.pages[p].keys| && |v.pages[p].children| == |v.pages[p].keys| + 1
    ensures forall k :: 0 <= k < j ==> v.pages[p].keys[k] < key
    ensures forall k :: j <= k < |v.pages[p].keys| ==> key < v.pages[p].keys[k]
    ensures child in v.pages && child != p
    ensures f.pages == v.pages[p := WithChild(v.pages[p], j, key, child)][child := v.pages[child].(parentPageId := p)]
    ensures f.root == v.root && f.nextId == v.nextId && f.rank == v.rank && f.rng == v.rng && f.chain == v.chain
    ensures TreeOk(f, order, INVALID_PAGE_ID) && Stored(f) == Stored(v)
  {
    PendingSlot(v, order, p, j, key, child);
    f := Placed(v, p, j, key, child);
    assert v.pages[child].(parentPageId := p) == v.pages[child];
    PlaceWithRoom(v, order, p, j, key, child);
  }

  // ---------------------------------------------------------------------
  // Re-parenting the children an internal split moves.
  // ---------------------------------------------------------------------

  /** Re-parenting one more id: the table gains that page with its new parent. */
  lemma ReparentStep(pages: map<PageId, Node>, ids: seq<PageId>, i: nat, r: PageId)
    requires i < |ids| && ids[i] in pages
    ensures Reparent(pages, ids[..i + 1], r) == Reparent(pages, ids[..i], r)[ids[i] := pages[ids[i]].(parentPageId := r)]
  {
    assert ids[..i + 1] == ids[..i] + [ids[i]];
  }

  // ---------------------------------------------------------------------
  // Leaf writes.
  // ---------------------------------------------------------------------

  /** The view with leaf chain[ci] holding `key` and `value` at slot pos. */
  ghost function LeafPlaced(v: View, ci: int, pos: nat, key: int, value: int): View
    requires 0 <= ci < |v.chain| && v.chain[ci] in v.pages
    requires pos <= |v.pages[v.chain[ci]].keys| && pos <= |v.pages[v.chain[ci]].values|
  {
    v.(pages := v.pages[v.chain[ci] := LeafWith(v.pages[v.chain[ci]], pos, key, value)])
  }

  /** Where `insert` puts a new key: in the leaf whose range holds it, at its sorted slot. */
  ghost predicate NewKeyAt(v: View, order: nat, ci: int, pos: nat, key: int)
  {
    && TreeOk(v, order, INVALID_PAGE_ID)
    && 0 <= ci < |v.chain| && v.chain[ci] in v.pages && v.chain[ci] in v.rng
    && InRange(v.rng[v.chain[ci]], key)
    && |v.pages[v.chain[ci]].values| == |v.pages[v.chain[ci]].keys|
    && pos <= |v.pages[v.chain[ci]].keys|
    && (forall i :: 0 <= i < pos ==> v.pages[v.chain[ci]].keys[i] < key)
    && (forall i :: pos <= i < |v.pages[v.chain[ci]].keys| ==> key < v.pages[v.chain[ci]].keys[i])
  }

  /**
    A full leaf below an internal parent, split after taking the new key:
    the tree is pending the parent's insertion of the new page's first key
    and of the new page, the new key is stored, and the first leaf is kept.
  */
  lemma LeafSplitBelow(v: View, order: nat, ci: int, pos: nat, key: int, value: int, n: PageId)
    returns (j: nat)
    requires NewKeyAt(v, order, ci, pos, key) && v.chain[ci] != v.root
    requires |v.pages[v.chain[ci]].keys| + 1 == order && v.chain[ci] in v.rank
    requires n == v.nextId
    ensures var v1 := LeafPlaced(v, ci, pos, key, value);
      var m := v1.pages[v1.chain[ci]];
      var w := SplitLeafView(v1, ci, n, (order + 1) / 2);
      && (order + 1) / 2 < |m.keys|
      && m.parentPageId in w.pages && w.pages[m.parentPageId].pageType == InternalPage
      && Pending(w, order, m.parentPageId, j, m.keys[(order + 1) / 2], n)
      && Stored(w) == Stored(v)[key := value]
      && w.chain[0] == v.chain[0]
  {
    var l := v.chain[ci];
    LeafInsertStep(v, order, ci, pos, key, value);
    var v1 := LeafPlaced(v, ci, pos, key, value);
    var p := v1.pages[l].parentPageId;
    assert ParentOk(v1, l);
    assert DownOk(v1, p, order, l);
    j :| 0 <= j < |v1.pages[p].children| && v1.pages[p].children[j] == l;
    FreshId(v1, order, l, n);
    SplitLeafPending(v1, order, ci, n, (order + 1) / 2, j);
  }

  /** Writing a page outside a list of leaves leaves their entries alone. */
  lemma {:induction false} EntriesOutside(pages: map<PageId, Node>, ids: seq<PageId>, q: PageId, m: Node)
    requires forall i :: 0 <= i < |ids| ==> ids[i] != q
    ensures Entries(pages[q := m], ids) == Entries(pages, ids)
    decreases |ids|
  {
    if ids != [] {
      EntriesOutside(pages, ids[..|ids| - 1], q, m);
    }
  }

  /** A page missing from a chain is missing from it after a splice of another page. */
  lemma SpliceMisses(c: seq<PageId>, ci: int, n: PageId, q: PageId)
    requires 0 <= ci < |c| && q != n && forall i :: 0 <= i < |c| ==> c[i] != q
    ensures forall i :: 0 <= i < |SpliceAfter(c, ci, n)| ==> SpliceAfter(c, ci, n)[i] != q
  {
    var c' := SpliceAfter(c, ci, n);
    forall i | 0 <= i < |c'| ensures c'[i] != q {
      if i > ci + 1 {
        assert c'[i] == c[i - 1];
      }
    }
  }

  /** Placing the first separator into a new root off the chain leaves the stored pairs and the chain alone. */
  lemma RootPlacedStored(w: View, r: PageId, key: int, child: PageId, below: PageId)
    requires r in w.pages && w.pages[r] == RootAbove(below)
    requires forall i :: 0 <= i < |w.chain| ==> w.chain[i] != r
    ensures |w.pages[r].children| == 1
    ensures Stored(Placed(w, r, 0, key, child)) == Stored(w) && Placed(w, r, 0, key, child).chain == w.chain
  {
    PlacedEntries(w, r, 0, key, child);
  }

  /** Placing a separator into a page outside the leaf chain leaves the chain's entries alone. */
  lemma PlacedEntries(v: View, p: PageId, j: nat, key: int, child: PageId)
    requires p in v.pages && j <= |v.pages[p].keys| && j < |v.pages[p].children|
    requires forall i :: 0 <= i < |v.chain| ==> v.chain[i] != p
    ensures Entries(Placed(v, p, j, key, child).pages, v.chain) == Entries(v.pages, v.chain)
  {
    EntriesOutside(v.pages, v.chain, p, WithChild(v.pages[p], j, key, child));
  }

  /**
    Leaf chain[ci], the only child of page n+1 and holding one key too
    many, split at `mid`: new page n holds the upper half, and page n+1
    takes the new page's first key as its one separator and the new page
    as its second child.
  */
  ghost function SplitUnderNewRoot(g: View, ci: int, n: PageId, mid: nat): View
    requires 0 <= ci < |g.chain| && g.chain[ci] in g.pages && g.chain[ci] in g.rank && g.chain[ci] in g.rng
    requires mid < |g.pages[g.chain[ci]].keys| && mid <= |g.pages[g.chain[ci]].values|
    requires g.chain[ci] != n + 1 && n + 1 in g.pages && g.pages[n + 1] == RootAbove(g.chain[ci])
  {
    var w := SplitLeafView(g, ci, n, mid);
    Placed(w, n + 1, 0, g.pages[g.chain[ci]].keys[mid], n)
  }

  /** What a leaf under a new root satisfies before it is split. */
  ghost predicate UnderNewRoot(g: View, order: nat, ci: int, n: PageId)
  {
    && LeafSplittable(g, order, ci, n, (order + 1) / 2, 0)
    && g.root == n + 1 && n + 1 in g.pages && g.pages[n + 1] == RootAbove(g.chain[ci])
    && g.pages[g.chain[ci]].parentPageId == n + 1
  }

  /** The root leaf with a new root above it is a leaf `LeafSplittable` applies to, as child 0 of page n+1. */
  lemma RootLeafGrown(v: View, order: nat, ci: int, n: PageId)
    requires TreeOk(v, order, v.root) && 0 <= ci < |v.chain| && v.chain[ci] == v.root
    requires |v.pages[v.root].keys| == order && |v.pages[v.root].values| == order
    requires n == v.nextId
    ensures n + 1 !in v.pages
    ensures var g := Grow(v, n + 1);
      && UnderNewRoot(g, order, ci, n)
      && Stored(g) == Stored(v) && g.chain == v.chain
  {
    FreshId(v, order, v.root, n + 1);
    FreshId(v, order, v.root, n);
    GrowOk(v, order, v.root, n + 1);
  }

  /** Splitting the leaf under a new root leaves the tree well-formed with the same first leaf. */
  lemma UnderNewRootOk(g: View, order: nat, ci: int, n: PageId)
    requires UnderNewRoot(g, order, ci, n)
    ensures var f := SplitUnderNewRoot(g, ci, n, (order + 1) / 2);
      TreeOk(f, order, INVALID_PAGE_ID) && f.chain[0] == g.chain[0]
  {
    var mid := (order + 1) / 2;
    LeafSplitFacts(g, order, ci, n, mid, 0);
    SplitLeafOk(g, order, ci, n, mid, 0);
    Relax(SplitLeafTree(g, order, ci, n, mid, 0), order, n + 1);
  }

  /** Splitting the leaf under a new root keeps the stored pairs. */
  lemma UnderNewRootStored(g: View, order: nat, ci: int, n: PageId)
    requires SpliceFacts(g, ci, n, (order + 1) / 2) && ChainOk(g) && g.chain[ci] != n + 1 && n != n + 1
    requires (forall i :: 0 <= i < |g.chain| ==> g.chain[i] != n + 1)
    requires n + 1 in g.pages && g.pages[n + 1] == RootAbove(g.chain[ci]) && g.pages[g.chain[ci]].parentPageId == n + 1
    ensures Stored(SplitUnderNewRoot(g, ci, n, (order + 1) / 2)) == Stored(g)
  {
    var mid := (order + 1) / 2;
    var w := SplitLeafView(g, ci, n, mid);
    var f := SplitUnderNewRoot(g, ci, n, mid);
    assert Entries(w.pages, w.chain) == Entries(g.pages, g.chain) by {
      SplitLeafEntries(g, order, ci, n, mid, 0);
    }
    assert Entries(f.pages, f.chain) == Entries(w.pages, w.chain) by {
      SpliceMisses(g.chain, ci, n, n + 1);
      PlacedEntries(w, n + 1, 0, g.pages[g.chain[ci]].keys[mid], n);
    }
  }

  /**
    Splitting the leaf under a new root leaves the tree well-formed with
    the same stored pairs and the same first leaf.
  */
  lemma UnderNewRootSplit(g: View, order: nat, ci: int, n: PageId)
    requires UnderNewRoot(g, order, ci, n)
    ensures var f := SplitUnderNewRoot(g, ci, n, (order + 1) / 2);
      && TreeOk(f, order, INVALID_PAGE_ID) && Stored(f) == Stored(g)
      && f.chain[0] == g.chain[0]
  {
    UnderNewRootOk(g, order, ci, n);
    assert Stored(SplitUnderNewRoot(g, ci, n, (order + 1) / 2)) == Stored(g) by {
      LeafSplitFacts(g, order, ci, n, (order + 1) / 2, 0);
      UnderNewRootStored(g, order, ci, n);
    }
  }

  /**
    A full leaf that is the root, split after taking the new key: the tree
    is well-formed with the new key stored, and the first leaf is kept.
  */
  lemma LeafSplitRoot(v: View, order: nat, ci: int, pos: nat, key: int, value: int, n: PageId)
    requires NewKeyAt(v, order, ci, pos, key) && v.chain[ci] == v.root && v.root in v.rank
    requires |v.pages[v.chain[ci]].keys| + 1 == order && n == v.nextId
    ensures n + 1 !in v.pages
    ensures var g := Grow(LeafPlaced(v, ci, pos, key, value), n + 1);
      && UnderNewRoot(g, order, ci, n)
      && Stored(g) == Stored(v)[key := value] && g.chain[0] == v.chain[0]
  {
    LeafInsertStep(v, order, ci, pos, key, value);
    RootLeafGrown(LeafPlaced(v, ci, pos, key, value), order, ci, n);
  }

  // ---------------------------------------------------------------------
  // Internal splits.
  // ---------------------------------------------------------------------

  /**
    A full internal page below an internal parent, split after taking the
    pending separator: the tree is pending the grandparent's insertion of
    the middle separator and of the new page, with the same stored pairs.
  */
  lemma InternalSplitBelow(v: View, order: nat, p: PageId, j: nat, key: int, child: PageId, n: PageId)
    returns (j': nat)
    requires Pending(v, order, p, j, key, child) && v.pages[p].pageType == InternalPage
    requires |v.pages[p].keys| + 1 == order && |v.pages[p].children| == order
    requires p != v.root && p in v.rank && p in v.rng && n == v.nextId
    ensures var v1 := Placed(v, p, j, key, child);
      var m := v1.pages[p];
      var w := SplitInternalView(v1, p, n, (order + 1) / 2);
      && (order + 1) / 2 < |m.keys| && |m.children| == |m.keys| + 1
      && m.parentPageId in w.pages && w.pages[m.parentPageId].pageType == InternalPage
      && m.parentPageId in v.rank && v.rank[p] < v.rank[m.parentPageId]
      && Pending(w, order, m.parentPageId, j', m.keys[(order + 1) / 2], n)
      && Stored(w) == Stored(v) && w.chain == v.chain
  {
    PendingSlot(v, order, p, j, key, child);
    var v1 := Placed(v, p, j, key, child);
    var g := v1.pages[p].parentPageId;
    assert ParentOk(v1, p);
    assert DownOk(v1, g, order, p);
    j' :| 0 <= j' < |v1.pages[g].children| && v1.pages[g].children[j'] == p;
    assert ChildOk(v1, g, j');
    assert DownOk(v1, p, order, p);
    SplitInternalPending(v1, order, p, n, (order + 1) / 2, j');
    PlacedStored(v, order, p, j, key, child);
  }

  /**
    Internal page p, the only child of page n+1 and holding one separator
    too many, split at `mid`: page n+1 takes the promoted separator as its
    one key and the new page n as its second child.
  */
  ghost function SplitInternalUnderNewRoot(g: View, p: PageId, n: PageId, mid: nat): View
    requires p in g.pages && p in g.rng && p in g.rank
    requires mid < |g.pages[p].keys| && |g.pages[p].children| == |g.pages[p].keys| + 1
    requires n + 1 in SplitInternalView(g, p, n, mid).pages
    requires |SplitInternalView(g, p, n, mid).pages[n + 1].children| == 1
  {
    var w := SplitInternalView(g, p, n, mid);
    Placed(w, n + 1, 0, g.pages[p].keys[mid], n)
  }

  /** What an internal page under a new root satisfies before it is split. */
  ghost predicate InternalUnderNewRoot(g: View, order: nat, p: PageId, n: PageId)
  {
    && InternalSplittable(g, order, p, n, (order + 1) / 2, 0)
    && g.root == n + 1 && n + 1 in g.pages && g.pages[n + 1] == RootAbove(p)
    && g.pages[p].parentPageId == n + 1
  }

  /** The split leaves page n+1 as it was: the new root over p alone. */
  lemma InternalUnderNewRootPage(g: View, order: nat, p: PageId, n: PageId, mid: nat)
    requires InternalFacts(g, order, p, n, mid, 0)
    requires n + 1 in g.pages && g.pages[n + 1] == RootAbove(p)
    ensures var w := SplitInternalView(g, p, n, mid);
      n + 1 in w.pages && w.pages[n + 1] == RootAbove(p)
  {
    NotMoved(g, order, p, n, mid, 0, n + 1);
  }

  /** The internal root with a new root above it is a page `InternalSplittable` applies to, as child 0 of page n+1. */
  lemma RootInternalGrown(v: View, order: nat, n: PageId)
    requires TreeOk(v, order, v.root) && v.pages[v.root].pageType == InternalPage
    requires |v.pages[v.root].keys| == order && |v.pages[v.root].children| == order + 1
    requires n == v.nextId
    ensures var g := Grow(v, n + 1);
      && InternalUnderNewRoot(g, order, v.root, n)
      && Stored(g) == Stored(v) && g.chain == v.chain
  {
    FreshId(v, order, v.root, n + 1);
    FreshId(v, order, v.root, n);
    GrowOk(v, order, v.root, n + 1);
  }

  /** Splitting the page under a new root leaves the tree well-formed. */
  lemma InternalUnderNewRootOk(g: View, order: nat, p: PageId, n: PageId)
    requires InternalUnderNewRoot(g, order, p, n) && InternalFacts(g, order, p, n, (order + 1) / 2, 0)
    ensures InternalUnderNewRoot(g, order, p, n)
    ensures TreeOk(SplitInternalUnderNewRoot(g, p, n, (order + 1) / 2), order, INVALID_PAGE_ID)
  {
    var mid := (order + 1) / 2;
    InternalUnderNewRootPage(g, order, p, n, mid);
    SplitInternalOk(g, order, p, n, mid, 0);
    Relax(SplitInternalTree(g, order, p, n, mid, 0), order, n + 1);
  }

  /** Splitting the page under a new root keeps the stored pairs and the chain. */
  lemma InternalUnderNewRootStored(g: View, order: nat, p: PageId, n: PageId, mid: nat)
    requires InternalFacts(g, order, p, n, mid, 0) && ChainOk(g)
    requires n + 1 in g.pages && g.pages[n + 1] == RootAbove(p) && g.pages[p].parentPageId == n + 1
    ensures var w := SplitInternalView(g, p, n, mid);
      && n + 1 in w.pages && |w.pages[n + 1].children| == 1
      && var f := SplitInternalUnderNewRoot(g, p, n, mid);
      Stored(f) == Stored(g) && f.chain == g.chain
  {
    InternalUnderNewRootPage(g, order, p, n, mid);
    SplitInternalEntries(g, order, p, n, mid, 0);
    RootPlacedStored(SplitInternalView(g, p, n, mid), n + 1, g.pages[p].keys[mid], n, p);
  }

  /**
    Splitting the page under a new root leaves the tree well-formed with
    the same stored pairs and the same chain.
  */
  lemma InternalUnderNewRootSplit(g: View, order: nat, p: PageId, n: PageId)
    requires InternalUnderNewRoot(g, order, p, n)
    ensures InternalUnderNewRoot(g, order, p, n)
    ensures var f := SplitInternalUnderNewRoot(g, p, n, (order + 1) / 2);
      && TreeOk(f, order, INVALID_PAGE_ID) && Stored(f) == Stored(g) && f.chain == g.chain
  {
    InternalSplitFacts(g, order, p, n, (order + 1) / 2, 0);
    InternalUnderNewRootOk(g, order, p, n);
    assert ChainOk(g);
    InternalUnderNewRootStored(g, order, p, n, (order + 1) / 2);
  }

  /**
    A full internal root, after taking the pending separator, is a root
    with `order` separators that `SplitRootInternal` applies to.
  */
  lemma InternalSplitRoot(v: View, order: nat, p: PageId, j: nat, key: int, child: PageId)
    requires Pending(v, order, p, j, key, child) && v.pages[p].pageType == InternalPage
    requires |v.pages[p].keys| + 1 == order && p == v.root
    ensures var v1 := Placed(v, p, j, key, child);
      && TreeOk(v1, order, v1.root) && v1.pages[v1.root].pageType == InternalPage
      && |v1.pages[v1.root].keys| == order && |v1.pages[v1.root].children| == order + 1
      && Stored(v1) == Stored(v) && v1.nextId == v.nextId
  {
    PendingSlot(v, order, p, j, key, child);
    PlacedStored(v, order, p, j, key, child);
  }
}
