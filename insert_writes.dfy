/**
  The page writes of the splits, in the order the tree code does them,
  compared with the views the split lemmas are stated on: after the
  writes, the page table is exactly the pages of that view.
*/
module InsertWrites {
  import opened OptionType
  import opened BufferPool
  import opened BTreeView
  import opened BTreeInsert
  import opened LeafSplit
  import opened InternalSplit
  import opened InsertSteps

  /** The table after the new page is fetched and, when the leaf has a successor, its prev link is set. */
  function Relinked(pages: map<PageId, Node>, x: PageId, n: PageId): map<PageId, Node>
    requires x != INVALID_PAGE_ID ==> x in pages
  {
    if x != INVALID_PAGE_ID then pages[n := DefaultNode()][x := pages[x].(prevPageId := n)]
    else pages[n := DefaultNode()]
  }

  /**
    What `insert` reads off the leaf whose range holds `key`: a leaf with
    room for at least one more key; its successor is another page; and
    the next two page ids the allocator hands out are fresh.
  */
  lemma LeafReady(v: View, order: nat, ci: int, key: int)
    requires TreeOk(v, order, INVALID_PAGE_ID) && 0 <= ci < |v.chain| && v.chain[ci] in v.rng
    requires InRange(v.rng[v.chain[ci]], key)
    ensures var l := v.chain[ci];
      && l in v.pages && l in v.rank && v.root in v.rank
      && var n := v.pages[l];
      && n.pageType == LeafPage && |n.values| == |n.keys| && |n.keys| + 1 <= order
    ensures Writable(v, ci)
  {
    var l := v.chain[ci];
    LeafDecides(v, ci, key);
    assert DownOk(v, l, order, INVALID_PAGE_ID);
    assert LinkOk(v, ci);
    if ci + 1 < |v.chain| {
      assert LinkOk(v, ci + 1);
    }
    FreshId(v, order, INVALID_PAGE_ID, v.nextId);
    FreshId(v, order, INVALID_PAGE_ID, v.nextId + 1);
  }

  /**
    The first slot whose key is not below a new key, in the leaf whose
    range holds that key, is the slot the key belongs at: the keys before
    it are smaller and the keys from it on are larger.
  */
  lemma SlotIsNew(v: View, order: nat, ci: int, pos: nat, key: int)
    requires TreeOk(v, order, INVALID_PAGE_ID) && 0 <= ci < |v.chain| && v.chain[ci] in v.rng
    requires InRange(v.rng[v.chain[ci]], key)
    requires v.chain[ci] in v.pages && key !in v.pages[v.chain[ci]].keys
    requires pos <= |v.pages[v.chain[ci]].keys|
    requires forall i :: 0 <= i < pos ==> v.pages[v.chain[ci]].keys[i] < key
    requires pos < |v.pages[v.chain[ci]].keys| ==> key <= v.pages[v.chain[ci]].keys[pos]
    ensures NewKeyAt(v, order, ci, pos, key)
  {
    var ks := v.pages[v.chain[ci]].keys;
    LeafDecides(v, ci, key);
    assert DownOk(v, v.chain[ci], order, INVALID_PAGE_ID);
    forall i | pos <= i < |ks| ensures key < ks[i] {
      assert ks[pos] != key;
      if pos < i {
        assert ks[pos] < ks[i];
      }
    }
  }

  /** The first slot whose separator is not below `key` is the pending slot j. */
  lemma SlotIsPending(ks: seq<int>, key: int, pos: nat, j: nat)
    requires pos <= |ks| && j <= |ks|
    requires forall i :: 0 <= i < pos ==> ks[i] < key
    requires pos < |ks| ==> key <= ks[pos]
    requires forall k :: 0 <= k < j ==> ks[k] < key
    requires forall k :: j <= k < |ks| ==> key < ks[k]
    ensures pos == j
  {
    if j < |ks| {
      assert key < ks[j];
    }
  }

  /** The view with the value at slot i of leaf chain[ci] replaced. */
  ghost function ValueSet(v: View, ci: int, i: int, value: int): View
    requires 0 <= ci < |v.chain| && v.chain[ci] in v.pages && 0 <= i < |v.pages[v.chain[ci]].values|
  {
    var n := v.pages[v.chain[ci]];
    v.(pages := v.pages[v.chain[ci] := n.(values := n.values[i := value])])
  }

  /** Replacing the value of a stored key keeps the tree well-formed and maps that key to the new value. */
  lemma OverwriteTree(v: View, order: nat, ci: int, i: int, value: int)
    requires TreeOk(v, order, INVALID_PAGE_ID)
    requires 0 <= ci < |v.chain| && v.chain[ci] in v.pages && 0 <= i < |v.pages[v.chain[ci]].keys|
    requires |v.pages[v.chain[ci]].values| == |v.pages[v.chain[ci]].keys|
    ensures var w := ValueSet(v, ci, i, value);
      TreeOk(w, order, INVALID_PAGE_ID) && Stored(w) == Stored(v)[v.pages[v.chain[ci]].keys[i] := value]
  {
    OverwriteStep(v, order, ci, i, value);
  }

  /** `OverwriteTree`, stated as the one-page write `insert` makes. */
  lemma OverwriteDone(v: View, order: nat, ci: int, i: int, value: int) returns (f: View)
    requires TreeOk(v, order, INVALID_PAGE_ID)
    requires 0 <= ci < |v.chain| && v.chain[ci] in v.pages && 0 <= i < |v.pages[v.chain[ci]].keys|
    requires |v.pages[v.chain[ci]].values| == |v.pages[v.chain[ci]].keys|
    ensures var n := v.pages[v.chain[ci]];
      f.pages == v.pages[v.chain[ci] := n.(values := n.values[i := value])]
    ensures f.root == v.root && f.nextId == v.nextId && f.rank == v.rank && f.rng == v.rng && f.chain == v.chain
    ensures TreeOk(f, order, INVALID_PAGE_ID) && Stored(f) == Stored(v)[v.pages[v.chain[ci]].keys[i] := value]
  {
    f := ValueSet(v, ci, i, value);
    OverwriteTree(v, order, ci, i, value);
  }

  /**
    A new key placed at its sorted slot of the leaf whose range holds it,
    when the leaf has room: the tree stays well-formed and stores the new
    pair besides the old ones.
  */
  lemma LeafRoomTree(v: View, order: nat, ci: int, pos: nat, key: int, value: int)
    requires TreeOk(v, order, INVALID_PAGE_ID) && 0 <= ci < |v.chain| && v.chain[ci] in v.rng
    requires InRange(v.rng[v.chain[ci]], key)
    requires v.chain[ci] in v.pages && key !in v.pages[v.chain[ci]].keys
    requires |v.pages[v.chain[ci]].keys| + 1 < order
    requires pos <= |v.pages[v.chain[ci]].keys| == |v.pages[v.chain[ci]].values|
    requires forall i :: 0 <= i < pos ==> v.pages[v.chain[ci]].keys[i] < key
    requires pos < |v.pages[v.chain[ci]].keys| ==> key <= v.pages[v.chain[ci]].keys[pos]
    ensures var w := LeafPlaced(v, ci, pos, key, value);
      TreeOk(w, order, INVALID_PAGE_ID) && Stored(w) == Stored(v)[key := value]
  {
    SlotIsNew(v, order, ci, pos, key);
    LeafInsertStep(v, order, ci, pos, key, value);
  }

  /** What the leaf-split writes need: the leaf at chain[ci], a fresh page n, and its successor. */
  ghost predicate LeafWritable(v: View, ci: int, pos: nat, n: PageId, mid: nat)
  {
    && 0 <= ci < |v.chain|
    && var l := v.chain[ci];
    && l in v.pages && l in v.rng && l in v.rank
    && pos <= |v.pages[l].keys| && |v.pages[l].values| == |v.pages[l].keys|
    && mid < |v.pages[l].keys| + 1
    && n !in v.pages
    && var x := v.pages[l].nextPageId;
    && (x != INVALID_PAGE_ID ==> x in v.pages && x != l)
  }

  /**
    A leaf split below an internal parent: writing the left half over the
    leaf and the right half into the new page gives the split view.
  */
  lemma LeafSplitWrites(v: View, ci: int, pos: nat, key: int, value: int, n: PageId, mid: nat)
    requires LeafWritable(v, ci, pos, n, mid)
    ensures var l := v.chain[ci];
      var m := LeafWith(v.pages[l], pos, key, value);
      Relinked(v.pages, v.pages[l].nextPageId, n)[l := LeftLeaf(m, mid, n)][n := RightLeaf(m, mid, l)]
        == SplitLeafView(LeafPlaced(v, ci, pos, key, value), ci, n, mid).pages
  {
  }

  /** The page a new root is written as: internal, one separator, two children. */
  function NewRoot(sep: int, left: PageId, right: PageId): Node
  {
    Node(InternalPage, [sep], [left, right], [], INVALID_PAGE_ID, INVALID_PAGE_ID, INVALID_PAGE_ID)
  }

  /**
    A root leaf split: the halves name the new root n+1 as parent, and the
    new root holds the right half's first key between them. The table
    written is the split of the leaf under a new root.
  */
  lemma LeafRootWrites(v: View, ci: int, pos: nat, key: int, value: int, n: PageId, mid: nat)
    requires LeafWritable(v, ci, pos, n, mid) && v.chain[ci] == v.root
    requires n + 1 !in v.pages
    ensures var l := v.chain[ci];
      var m := LeafWith(v.pages[l], pos, key, value);
      var g := Grow(LeafPlaced(v, ci, pos, key, value), n + 1);
      && l != n + 1 && n + 1 in g.pages && g.pages[n + 1] == RootAbove(l)
      && Relinked(v.pages, v.pages[l].nextPageId, n)[n + 1 := DefaultNode()]
           [l := LeftLeaf(m, mid, n).(parentPageId := n + 1)]
           [n := RightLeaf(m, mid, l).(parentPageId := n + 1)]
           [n + 1 := NewRoot(m.keys[mid], l, n)]
         == SplitUnderNewRoot(g, ci, n, mid).pages
  {
    var l := v.chain[ci];
    var m := LeafWith(v.pages[l], pos, key, value);
    var g := Grow(LeafPlaced(v, ci, pos, key, value), n + 1);
    assert g.pages[l] == m.(parentPageId := n + 1);
    assert WithChild(RootAbove(l), 0, m.keys[mid], n) == NewRoot(m.keys[mid], l, n) by {
      assert InsertAt([l], 1, n) == [l, n];
      assert InsertAt([], 0, m.keys[mid]) == [m.keys[mid]];
    }
  }

  /**
    An internal split below a parent: the children of the right half are
    re-parented to the new page, and the halves are written over the page
    and into the new page. The table written is the split view.
  */
  lemma InternalSplitWrites(v: View, p: PageId, j: nat, key: int, child: PageId, n: PageId, mid: nat)
    requires p in v.pages && p in v.rng && p in v.rank && n !in v.pages
    requires j <= |v.pages[p].keys| && |v.pages[p].children| == |v.pages[p].keys| + 1
    requires mid < |v.pages[p].keys| + 1
    ensures var m := WithChild(v.pages[p], j, key, child);
      Reparent(v.pages[n := DefaultNode()], RightHalf(m, mid).children, n)[p := LeftHalf(m, mid)][n := RightHalf(m, mid)]
        == SplitInternalView(Placed(v, p, j, key, child), p, n, mid).pages
  {
    var m := WithChild(v.pages[p], j, key, child);
    var ids := RightHalf(m, mid).children;
    var a: map<PageId, Node> := Reparent(v.pages[n := DefaultNode()], ids, n);
    var b := Reparent(v.pages[p := m], ids, n);
    assert Placed(v, p, j, key, child).pages == v.pages[p := m];
    forall q | q != p && q != n
      ensures (q in a <==> q in b) && (q in a ==> a[q] == b[q])
    {
    }
    assert a[p := LeftHalf(m, mid)][n := RightHalf(m, mid)] == b[p := LeftHalf(m, mid)][n := RightHalf(m, mid)];
  }

  /**
    What splitting root p at `mid` reads off it: its shape, the fresh ids
    n and n+1, and the children with the new one all pages.
  */
  ghost predicate RootSplittable(v: View, p: PageId, j: nat, key: int, child: PageId, n: PageId, mid: nat)
  {
    && p in v.pages && p in v.rng && p in v.rank && p == v.root && n !in v.pages && n + 1 !in v.pages
    && j <= |v.pages[p].keys| && |v.pages[p].children| == |v.pages[p].keys| + 1
    && mid < |v.pages[p].keys| + 1
    && var m := WithChild(v.pages[p], j, key, child);
    && forall i :: 0 <= i < |m.children| ==> m.children[i] in v.pages
  }

  /** The root with the pending pair placed, grown under n+1, can be split at `mid`. */
  ghost predicate RootGrown(v: View, p: PageId, j: nat, key: int, child: PageId, n: PageId, mid: nat)
  {
    && RootSplittable(v, p, j, key, child, n, mid)
    && var g := Grow(Placed(v, p, j, key, child), n + 1);
    && p in g.pages && p in g.rng && p in g.rank
    && mid < |g.pages[p].keys| && |g.pages[p].children| == |g.pages[p].keys| + 1
    && n + 1 in SplitInternalView(g, p, n, mid).pages
    && |SplitInternalView(g, p, n, mid).pages[n + 1].children| == 1
  }

  /**
    The tree `splitInternalPage` leaves when the full page is the root:
    the page takes the separator and the child and is split at `mid` into
    itself and page n, and new page n+1 becomes the root over the two with
    the middle separator.
  */
  ghost function RootSplitView(v: View, p: PageId, j: nat, key: int, child: PageId, n: PageId, mid: nat): View
    requires RootGrown(v, p, j, key, child, n, mid)
  {
    SplitInternalUnderNewRoot(Grow(Placed(v, p, j, key, child), n + 1), p, n, mid)
  }

  /**
    A root internal split: as below a parent, then the halves name the new
    root n+1 as parent, and the new root holds the promoted separator
    between them.
  */
  lemma InternalRootWrites(v: View, p: PageId, j: nat, key: int, child: PageId, n: PageId, mid: nat)
    requires RootGrown(v, p, j, key, child, n, mid)
    ensures var m := WithChild(v.pages[p], j, key, child);
      Reparent(v.pages[n := DefaultNode()], RightHalf(m, mid).children, n)[n + 1 := DefaultNode()]
        [p := LeftHalf(m, mid).(parentPageId := n + 1)]
        [n := RightHalf(m, mid).(parentPageId := n + 1)]
        [n + 1 := NewRoot(m.keys[mid], p, n)]
      == RootSplitView(v, p, j, key, child, n, mid).pages
  {
    var m := WithChild(v.pages[p], j, key, child);
    var g := Grow(Placed(v, p, j, key, child), n + 1);
    var ids := RightHalf(m, mid).children;
    var sep := m.keys[mid];
    var l := LeftHalf(m, mid).(parentPageId := n + 1);
    var r := RightHalf(m, mid).(parentPageId := n + 1);
    assert g.pages[p] == m.(parentPageId := n + 1);
    assert LeftHalf(g.pages[p], mid) == l && RightHalf(g.pages[p], mid) == r;
    assert n + 1 !in ids;
    var a: map<PageId, Node> := Reparent(v.pages[n := DefaultNode()], ids, n);
    var b: map<PageId, Node> := Reparent(g.pages, ids, n);
    var w := SplitInternalView(g, p, n, mid);
    assert w.pages == b[p := l][n := r];
    assert w.pages[n + 1] == RootAbove(p);
    assert RootSplitView(v, p, j, key, child, n, mid).pages == w.pages[n + 1 := WithChild(RootAbove(p), 0, sep, n)];
    assert WithChild(RootAbove(p), 0, sep, n) == NewRoot(sep, p, n) by {
      assert InsertAt([p], 1, n) == [p, n];
      assert InsertAt([], 0, sep) == [sep];
    }
    forall q | q != p && q != n && q != n + 1
      ensures (q in a <==> q in b) && (q in a ==> a[q] == b[q])
    {
    }
    AgreeOutside(a, b, p, n, n + 1, l, r, NewRoot(sep, p, n), DefaultNode());
  }

  /** Two tables that agree outside pages p, n and x agree once all three are written. */
  lemma AgreeOutside(a: map<PageId, Node>, b: map<PageId, Node>, p: PageId, n: PageId, x: PageId,
                     l: Node, r: Node, nr: Node, d: Node)
    requires forall q :: q != p && q != n && q != x ==> (q in a <==> q in b) && (q in a ==> a[q] == b[q])
    ensures a[x := d][p := l][n := r][x := nr] == b[p := l][n := r][x := nr]
  {
  }

  /** The grown tree of a root internal split has what the split needs: the page and the new root above it. */
  lemma InternalRootGrowOk(v: View, p: PageId, j: nat, key: int, child: PageId, n: PageId, mid: nat)
    requires RootSplittable(v, p, j, key, child, n, mid)
    ensures RootGrown(v, p, j, key, child, n, mid)
  {
    var m := WithChild(v.pages[p], j, key, child);
    var g := Grow(Placed(v, p, j, key, child), n + 1);
    assert g.pages[p] == m.(parentPageId := n + 1);
    assert n + 1 !in RightHalf(m, mid).children;
  }

  // ---------------------------------------------------------------------
  // Each branch of the splits, from the tree before to the table written.
  // ---------------------------------------------------------------------

  /** What a full leaf split starts from: the leaf whose range holds `key`, `key` absent, pos its first slot not below `key`. */
  ghost predicate LeafFull(v: View, order: nat, ci: int, pos: nat, key: int)
  {
    && TreeOk(v, order, INVALID_PAGE_ID) && 0 <= ci < |v.chain|
    && v.chain[ci] in v.pages && v.chain[ci] in v.rng && InRange(v.rng[v.chain[ci]], key)
    && v.chain[ci] in v.rank && v.root in v.rank
    && var ks := v.pages[v.chain[ci]].keys;
    && |v.pages[v.chain[ci]].values| == |ks| && key !in ks && |ks| + 1 == order && v.nextId != INVALID_PAGE_ID
    && pos <= |ks| && (forall i :: 0 <= i < pos ==> ks[i] < key) && (pos < |ks| ==> key <= ks[pos])
  }

  /**
    The tree `splitLeafPage` leaves when the full leaf is the root: with n
    the next id, the leaf takes the new pair and is split at (order+1)/2,
    and new page n+1 becomes the root over the two halves.
  */
  ghost function LeafRootSplit(v: View, order: nat, ci: int, pos: nat, key: int, value: int): View
    requires LeafFull(v, order, ci, pos, key) && v.chain[ci] == v.root
  {
    FreshId(v, order, INVALID_PAGE_ID, v.nextId + 1);
    SplitUnderNewRoot(LeafGrown(v, order, ci, pos, key, value), ci, v.nextId, (order + 1) / 2)
  }

  /**
    Splitting the root leaf leaves a well-formed tree that stores the new
    pair besides the old ones, whose root is the new page n+1, and whose
    chain has the new page n right after the split leaf.
  */
  lemma LeafRootTree(v: View, order: nat, ci: int, pos: nat, key: int, value: int)
    requires LeafFull(v, order, ci, pos, key) && v.chain[ci] == v.root
    ensures var f := LeafRootSplit(v, order, ci, pos, key, value);
      && TreeOk(f, order, INVALID_PAGE_ID) && Stored(f) == Stored(v)[key := value]
      && ci + 1 < |f.chain| && f.chain[0] == v.chain[0] && f.chain[ci] == v.chain[ci] && f.chain[ci + 1] == v.nextId
      && f.root == v.nextId + 1 && f.nextId == v.nextId + 2
  {
    LeafRootSplitOk(v, order, ci, pos, key, value);
    LeafRootShape(v, order, ci, pos, key, value);
  }

  /** The split root tree is well-formed and stores the new pair besides the old ones. */
  lemma LeafRootSplitOk(v: View, order: nat, ci: int, pos: nat, key: int, value: int)
    requires LeafFull(v, order, ci, pos, key) && v.chain[ci] == v.root
    ensures var f := LeafRootSplit(v, order, ci, pos, key, value);
      TreeOk(f, order, INVALID_PAGE_ID) && Stored(f) == Stored(v)[key := value]
  {
    LeafRootGrown(v, order, ci, pos, key, value);
    UnderNewRootSplit(LeafGrown(v, order, ci, pos, key, value), order, ci, v.nextId);
  }

  /** The full root leaf with the new pair, under new root n+1. */
  ghost function LeafGrown(v: View, order: nat, ci: int, pos: nat, key: int, value: int): View
    requires LeafFull(v, order, ci, pos, key) && v.chain[ci] == v.root
  {
    Grow(LeafPlaced(v, ci, pos, key, value), v.nextId + 1)
  }

  /** The full root leaf with the new pair, under new root n+1, is ready to split and stores the new pair besides the old ones. */
  lemma LeafRootGrown(v: View, order: nat, ci: int, pos: nat, key: int, value: int)
    requires LeafFull(v, order, ci, pos, key) && v.chain[ci] == v.root
    ensures var g := LeafGrown(v, order, ci, pos, key, value);
      UnderNewRoot(g, order, ci, v.nextId) && Stored(g) == Stored(v)[key := value]
  {
    SlotIsNew(v, order, ci, pos, key);
    LeafSplitRoot(v, order, ci, pos, key, value, v.nextId);
  }

  /** The split root tree has new page n after the split leaf in its chain, n+1 as root, and n+2 as next id. */
  lemma LeafRootShape(v: View, order: nat, ci: int, pos: nat, key: int, value: int)
    requires LeafFull(v, order, ci, pos, key) && v.chain[ci] == v.root
    ensures var f := LeafRootSplit(v, order, ci, pos, key, value);
      && ci + 1 < |f.chain| && f.chain[0] == v.chain[0] && f.chain[ci] == v.chain[ci] && f.chain[ci + 1] == v.nextId
      && f.root == v.nextId + 1 && f.nextId == v.nextId + 2
  {
  }

  /** The leaf at chain[ci] has as successor no page or another page, and the next two ids are fresh. */
  /** `LeafRoomTree`, stated as the one-page write `insert` makes. */
  lemma LeafRoomDone(v: View, order: nat, ci: int, pos: nat, key: int, value: int) returns (f: View)
    requires TreeOk(v, order, INVALID_PAGE_ID) && 0 <= ci < |v.chain| && v.chain[ci] in v.rng
    requires InRange(v.rng[v.chain[ci]], key)
    requires v.chain[ci] in v.pages && key !in v.pages[v.chain[ci]].keys
    requires |v.pages[v.chain[ci]].keys| + 1 < order
    requires pos <= |v.pages[v.chain[ci]].keys| == |v.pages[v.chain[ci]].values|
    requires forall i :: 0 <= i < pos ==> v.pages[v.chain[ci]].keys[i] < key
    requires pos < |v.pages[v.chain[ci]].keys| ==> key <= v.pages[v.chain[ci]].keys[pos]
    ensures f.pages == v.pages[v.chain[ci] := LeafWith(v.pages[v.chain[ci]], pos, key, value)]
    ensures f.root == v.root && f.nextId == v.nextId && f.rank == v.rank && f.rng == v.rng && f.chain == v.chain
    ensures TreeOk(f, order, INVALID_PAGE_ID) && Stored(f) == Stored(v)[key := value]
  {
    f := LeafPlaced(v, ci, pos, key, value);
    LeafRoomTree(v, order, ci, pos, key, value);
  }

  ghost predicate Writable(v: View, ci: int)
  {
    && 0 <= ci < |v.chain| && v.chain[ci] in v.pages
    && var x := v.pages[v.chain[ci]].nextPageId;
    && (x != INVALID_PAGE_ID ==> x in v.pages && x != v.chain[ci])
    && v.nextId !in v.pages && v.nextId + 1 !in v.pages && v.nextId != INVALID_PAGE_ID
  }

  /**
    The writes of `splitLeafPage` on the root leaf (the successor
    relinked, the halves under new root n+1, the new root over them) give
    the table of the split tree.
  */
  lemma LeafRootTable(v: View, order: nat, ci: int, pos: nat, key: int, value: int)
    requires LeafFull(v, order, ci, pos, key) && v.chain[ci] == v.root && Writable(v, ci)
    ensures var l := v.chain[ci];
      var n := v.nextId;
      var mid := (order + 1) / 2;
      var m := LeafWith(v.pages[l], pos, key, value);
      Relinked(v.pages, v.pages[l].nextPageId, n)[n + 1 := DefaultNode()]
        [l := LeftLeaf(m, mid, n).(parentPageId := n + 1)]
        [n := RightLeaf(m, mid, l).(parentPageId := n + 1)]
        [n + 1 := NewRoot(m.keys[mid], l, n)]
      == LeafRootSplit(v, order, ci, pos, key, value).pages
  {
    LeafRootWrites(v, ci, pos, key, value, v.nextId, (order + 1) / 2);
  }

  /**
    The tree `splitLeafPage` leaves below an internal parent before the
    parent is updated: with n the next id, the leaf takes the new pair
    and is split at (order+1)/2 into itself and page n.
  */
  ghost function LeafBelowSplit(v: View, order: nat, ci: int, pos: nat, key: int, value: int): View
    requires LeafFull(v, order, ci, pos, key) && v.chain[ci] != v.root
  {
    SplitLeafView(LeafPlaced(v, ci, pos, key, value), ci, v.nextId, (order + 1) / 2)
  }

  /**
    Splitting a leaf below internal page p leaves a tree pending p's
    insertion of the new page's first key and of the new page n; it
    stores the new pair besides the old ones and has n right after the
    split leaf in its chain.
  */
  lemma LeafBelowTree(v: View, order: nat, ci: int, pos: nat, key: int, value: int)
    returns (j: nat)
    requires LeafFull(v, order, ci, pos, key) && v.chain[ci] != v.root
    ensures var w := LeafBelowSplit(v, order, ci, pos, key, value);
      var p := v.pages[v.chain[ci]].parentPageId;
      var m := LeafWith(v.pages[v.chain[ci]], pos, key, value);
      && (order + 1) / 2 < |m.keys|
      && p in w.pages && w.pages[p].pageType == InternalPage
      && p in w.rank && w.root in w.rank && w.rank[p] <= w.rank[w.root]
      && Pending(w, order, p, j, m.keys[(order + 1) / 2], v.nextId)
      && Stored(w) == Stored(v)[key := value]
      && ci + 1 < |w.chain| && w.chain[0] == v.chain[0] && w.chain[ci] == v.chain[ci] && w.chain[ci + 1] == v.nextId
      && w.root == v.root && w.nextId == v.nextId + 1
  {
    var n := v.nextId;
    var mid := (order + 1) / 2;
    SlotIsNew(v, order, ci, pos, key);
    j := LeafSplitBelow(v, order, ci, pos, key, value, n);
    var w := LeafBelowSplit(v, order, ci, pos, key, value);
    var m := LeafWith(v.pages[v.chain[ci]], pos, key, value);
    PendingSlot(w, order, m.parentPageId, j, m.keys[mid], n);
  }

  /**
    The writes of `splitLeafPage` below an internal parent (the successor
    relinked, the halves over the leaf and into page n) give the table of
    the split tree.
  */
  lemma LeafBelowTable(v: View, order: nat, ci: int, pos: nat, key: int, value: int)
    requires LeafFull(v, order, ci, pos, key) && v.chain[ci] != v.root && Writable(v, ci)
    ensures var l := v.chain[ci];
      var n := v.nextId;
      var mid := (order + 1) / 2;
      var m := LeafWith(v.pages[l], pos, key, value);
      Relinked(v.pages, v.pages[l].nextPageId, n)[l := LeftLeaf(m, mid, n)][n := RightLeaf(m, mid, l)]
      == LeafBelowSplit(v, order, ci, pos, key, value).pages
  {
    LeafSplitWrites(v, ci, pos, key, value, v.nextId, (order + 1) / 2);
  }

  /** What a full internal split starts from: page p full and pending the separator `key` and page `child` at slot j. */
  ghost predicate InternalFull(v: View, order: nat, p: PageId, j: nat, key: int, child: PageId)
  {
    && Pending(v, order, p, j, key, child) && v.pages[p].pageType == InternalPage
    && |v.pages[p].keys| + 1 == order && |v.pages[p].children| == |v.pages[p].keys| + 1
    && p in v.rank && p in v.rng && v.root in v.rank
  }

  /**
    What `splitInternalPage` reads off full page p before it writes: the
    separator belongs at slot j, the page's children with the new one are
    all pages, and the next two ids are fresh.
  */
  lemma InternalReady(v: View, order: nat, p: PageId, j: nat, key: int, child: PageId)
    requires Pending(v, order, p, j, key, child) && v.pages[p].pageType == InternalPage
    requires |v.pages[p].keys| + 1 == order
    ensures InternalFull(v, order, p, j, key, child)
    ensures forall k :: 0 <= k < j ==> v.pages[p].keys[k] < key
    ensures forall k :: j <= k < |v.pages[p].keys| ==> key < v.pages[p].keys[k]
    ensures v.nextId !in v.pages && v.nextId + 1 !in v.pages && v.nextId != INVALID_PAGE_ID
    ensures var m := WithChild(v.pages[p], j, key, child);
      forall i :: 0 <= i < |m.children| ==> m.children[i] in v.pages
  {
    PendingSlot(v, order, p, j, key, child);
    var v1 := Placed(v, p, j, key, child);
    var m := v1.pages[p];
    assert DownOk(v1, p, order, p);
    forall i | 0 <= i < |m.children| ensures m.children[i] in v.pages {
      assert ChildOk(v1, p, i);
    }
    FreshId(v1, order, p, v.nextId);
  }

  /** Full page p with the pending separator and child placed. */
  ghost function InternalPlaced(v: View, order: nat, p: PageId, j: nat, key: int, child: PageId): View
    requires InternalFull(v, order, p, j, key, child)
  {
    Placed(v, p, j, key, child)
  }

  /** The full root with the pending separator and child placed, under new root n+1. */
  ghost function InternalGrown(v: View, order: nat, p: PageId, j: nat, key: int, child: PageId): View
    requires InternalFull(v, order, p, j, key, child) && p == v.root
  {
    Grow(InternalPlaced(v, order, p, j, key, child), v.nextId + 1)
  }

  /**
    The full root with the pending separator and child placed, under new
    root n+1, is ready to split, with the same stored pairs and chain.
  */
  lemma InternalRootGrown(v: View, order: nat, p: PageId, j: nat, key: int, child: PageId)
    requires InternalFull(v, order, p, j, key, child) && p == v.root
    ensures var g := InternalGrown(v, order, p, j, key, child);
      InternalUnderNewRoot(g, order, p, v.nextId) && Stored(g) == Stored(v) && g.chain == v.chain
  {
    InternalSplitRoot(v, order, p, j, key, child);
    RootInternalGrown(InternalPlaced(v, order, p, j, key, child), order, v.nextId);
  }

  /**
    Splitting the full root leaves a well-formed tree with the same stored
    pairs and leaf chain, whose root is the new page n+1.
  */
  lemma InternalRootTree(v: View, order: nat, p: PageId, j: nat, key: int, child: PageId)
    requires InternalFull(v, order, p, j, key, child) && p == v.root
    requires RootGrown(v, p, j, key, child, v.nextId, (order + 1) / 2)
    ensures var f := RootSplitView(v, p, j, key, child, v.nextId, (order + 1) / 2);
      && TreeOk(f, order, INVALID_PAGE_ID) && Stored(f) == Stored(v) && f.chain == v.chain
      && f.root == v.nextId + 1 && f.nextId == v.nextId + 2
  {
    InternalRootGrown(v, order, p, j, key, child);
    InternalUnderNewRootSplit(InternalGrown(v, order, p, j, key, child), order, p, v.nextId);
    assert InternalGrown(v, order, p, j, key, child) == Grow(Placed(v, p, j, key, child), v.nextId + 1);
  }

  /** The full root pending a separator can be split. */
  lemma InternalRootGrows(v: View, order: nat, p: PageId, j: nat, key: int, child: PageId)
    requires InternalFull(v, order, p, j, key, child) && p == v.root
    ensures RootGrown(v, p, j, key, child, v.nextId, (order + 1) / 2)
  {
    InternalReady(v, order, p, j, key, child);
    InternalRootGrowOk(v, p, j, key, child, v.nextId, (order + 1) / 2);
  }

  /**
    The tree `splitInternalPage` leaves below a parent before the parent
    is updated: with n the next id, the page takes the separator and the
    child and is split at (order+1)/2 into itself and page n.
  */
  ghost function InternalBelowSplit(v: View, order: nat, p: PageId, j: nat, key: int, child: PageId): View
    requires InternalFull(v, order, p, j, key, child) && p != v.root
  {
    SplitInternalView(Placed(v, p, j, key, child), p, v.nextId, (order + 1) / 2)
  }

  /**
    Splitting a full internal page p below its parent g leaves a tree
    pending g's insertion of the middle separator and of the new page n,
    with the same stored pairs and leaf chain; g ranks above p.
  */
  lemma InternalBelowTree(v: View, order: nat, p: PageId, j: nat, key: int, child: PageId)
    returns (j': nat)
    requires InternalFull(v, order, p, j, key, child) && p != v.root
    ensures var w := InternalBelowSplit(v, order, p, j, key, child);
      var m := WithChild(v.pages[p], j, key, child);
      var g := v.pages[p].parentPageId;
      && (order + 1) / 2 < |m.keys|
      && g in w.pages && w.pages[g].pageType == InternalPage
      && g in w.rank && w.root in w.rank && w.rank[g] <= w.rank[w.root]
      && w.rank[w.root] as int - w.rank[g] < v.rank[v.root] as int - v.rank[p]
      && Pending(w, order, g, j', m.keys[(order + 1) / 2], v.nextId)
      && Stored(w) == Stored(v) && w.chain == v.chain
      && w.root == v.root && w.nextId == v.nextId + 1
  {
    j' := InternalBelowPending(v, order, p, j, key, child);
    InternalBelowRank(v, order, p, j, key, child, j');
  }

  /**
    Splitting a full internal page p below its parent g leaves a tree
    pending g's insertion of the middle separator and of the new page n,
    with the same stored pairs and leaf chain; g ranks above p.
  */
  lemma InternalBelowPending(v: View, order: nat, p: PageId, j: nat, key: int, child: PageId)
    returns (j': nat)
    requires InternalFull(v, order, p, j, key, child) && p != v.root
    ensures var w := InternalBelowSplit(v, order, p, j, key, child);
      var m := WithChild(v.pages[p], j, key, child);
      var g := v.pages[p].parentPageId;
      && (order + 1) / 2 < |m.keys|
      && g in w.pages && w.pages[g].pageType == InternalPage
      && g in v.rank && v.rank[p] < v.rank[g]
      && Pending(w, order, g, j', m.keys[(order + 1) / 2], v.nextId)
      && Stored(w) == Stored(v) && w.chain == v.chain
  {
    j' := InternalSplitBelow(v, order, p, j, key, child, v.nextId);
    var v1 := Placed(v, p, j, key, child);
    assert v1.pages[p] == WithChild(v.pages[p], j, key, child);
    assert InternalBelowSplit(v, order, p, j, key, child) == SplitInternalView(v1, p, v.nextId, (order + 1) / 2);
  }

  /** In the split tree the root and the ranks of the old pages are kept, so the parent is nearer the root than p. */
  lemma InternalBelowRank(v: View, order: nat, p: PageId, j: nat, key: int, child: PageId, j': nat)
    requires InternalFull(v, order, p, j, key, child) && p != v.root
    requires var w := InternalBelowSplit(v, order, p, j, key, child);
      var m := WithChild(v.pages[p], j, key, child);
      var g := v.pages[p].parentPageId;
      && (order + 1) / 2 < |m.keys|
      && g in w.pages && w.pages[g].pageType == InternalPage
      && g in v.rank && v.rank[p] < v.rank[g]
      && Pending(w, order, g, j', m.keys[(order + 1) / 2], v.nextId)
    ensures var w := InternalBelowSplit(v, order, p, j, key, child);
      var g := v.pages[p].parentPageId;
      && g in w.rank && w.root in w.rank && w.rank[g] <= w.rank[w.root]
      && w.rank[w.root] as int - w.rank[g] < v.rank[v.root] as int - v.rank[p]
      && w.root == v.root && w.nextId == v.nextId + 1
  {
    var w := InternalBelowSplit(v, order, p, j, key, child);
    var m := WithChild(v.pages[p], j, key, child);
    PendingSlot(w, order, m.parentPageId, j', m.keys[(order + 1) / 2], v.nextId);
    InternalBelowShape(v, order, p, j, key, child);
  }

  /**
    The split tree keeps the root, gives new page n the rank of p and
    takes n+1 as its next id; n is neither the root nor p's parent.
  */
  lemma InternalBelowShape(v: View, order: nat, p: PageId, j: nat, key: int, child: PageId)
    requires InternalFull(v, order, p, j, key, child) && p != v.root
    ensures var w := InternalBelowSplit(v, order, p, j, key, child);
      && w.root == v.root && w.nextId == v.nextId + 1 && w.rank == v.rank[v.nextId := v.rank[p]]
      && v.nextId != v.root && v.nextId != v.pages[p].parentPageId
  {
    var v1 := Placed(v, p, j, key, child);
    FreshId(v1, order, p, v.nextId);
    assert ParentOk(v1, p);
  }

  /**
    The writes of `splitInternalPage` below a parent (the moved children
    re-parented to n, the halves over p and into page n) give the table
    of the split tree.
  */
  lemma InternalBelowTable(v: View, order: nat, p: PageId, j: nat, key: int, child: PageId)
    requires InternalFull(v, order, p, j, key, child) && p != v.root && v.nextId !in v.pages
    ensures var n := v.nextId;
      var mid := (order + 1) / 2;
      var m := WithChild(v.pages[p], j, key, child);
      Reparent(v.pages[n := DefaultNode()], RightHalf(m, mid).children, n)[p := LeftHalf(m, mid)][n := RightHalf(m, mid)]
      == InternalBelowSplit(v, order, p, j, key, child).pages
  {
    InternalSplitWrites(v, p, j, key, child, v.nextId, (order + 1) / 2);
  }

  // ---------------------------------------------------------------------
  // Each branch of the splits, as the tree code sees it: the table it
  // writes is the table of a tree with the promised properties.
  // ---------------------------------------------------------------------

  /**
    The root branch of `splitLeafPage`: given the table t after the
    successor is relinked, and the halves and separator it computed, the
    table it writes is that of a well-formed tree storing the new pair
    besides the old ones, with the same first leaf, rooted at new page n+1.
  */
  lemma LeafRootDone(v: View, order: nat, ci: int, pos: nat, key: int, value: int,
                     t: map<PageId, Node>, n: PageId, left: Node, right: Node, sep: int) returns (f: View)
    requires LeafFull(v, order, ci, pos, key) && v.chain[ci] == v.root && Writable(v, ci)
    requires n == v.nextId
    requires t == Relinked(v.pages, v.pages[v.chain[ci]].nextPageId, n)
    requires var m := LeafWith(v.pages[v.chain[ci]], pos, key, value);
      && left == LeftLeaf(m, (order + 1) / 2, n)
      && right == RightLeaf(m, (order + 1) / 2, v.chain[ci]).(parentPageId := INVALID_PAGE_ID)
      && sep == m.keys[(order + 1) / 2]
    ensures var l := v.chain[ci];
      && n + 1 !in t
      && f.pages == t[n + 1 := DefaultNode()]
        [l := left.(parentPageId := n + 1)][n := right.(parentPageId := n + 1)][n + 1 := NewRoot(sep, l, n)]
    ensures TreeOk(f, order, INVALID_PAGE_ID) && Stored(f) == Stored(v)[key := value]
    ensures 0 < |f.chain| && f.chain[0] == v.chain[0] && f.root == n + 1 && f.nextId == n + 2
  {
    f := LeafRootSplit(v, order, ci, pos, key, value);
    var l := v.chain[ci];
    var mid := (order + 1) / 2;
    var m := LeafWith(v.pages[l], pos, key, value);
    assert n + 1 !in t && f.pages == t[n + 1 := DefaultNode()][l := LeftLeaf(m, mid, n).(parentPageId := n + 1)]
        [n := RightLeaf(m, mid, l).(parentPageId := n + 1)][n + 1 := NewRoot(m.keys[mid], l, n)] by {
      LeafRootTable(v, order, ci, pos, key, value);
    }
    assert right.(parentPageId := n + 1) == RightLeaf(m, mid, l).(parentPageId := n + 1);
    LeafRootTree(v, order, ci, pos, key, value);
  }

  /**
    The other branch of `splitLeafPage`, before the parent is updated:
    given the table t after the successor is relinked, and the halves and
    separator it computed, the table it writes is that of a tree pending
    the parent's insertion of the separator and the new page, storing the
    new pair besides the old ones, with the same root and first leaf.
  */
  lemma LeafBelowDone(v: View, order: nat, ci: int, pos: nat, key: int, value: int,
                      t: map<PageId, Node>, n: PageId, left: Node, right: Node, sep: int) returns (w: View, j: nat)
    requires LeafFull(v, order, ci, pos, key) && v.chain[ci] != v.root && Writable(v, ci)
    requires n == v.nextId
    requires t == Relinked(v.pages, v.pages[v.chain[ci]].nextPageId, n)
    requires var m := LeafWith(v.pages[v.chain[ci]], pos, key, value);
      && left == LeftLeaf(m, (order + 1) / 2, n)
      && right == RightLeaf(m, (order + 1) / 2, v.chain[ci]).(parentPageId := INVALID_PAGE_ID)
      && sep == m.keys[(order + 1) / 2]
    ensures var l := v.chain[ci];
      var g := v.pages[l].parentPageId;
      && w.pages == t[l := left][n := right.(parentPageId := g)]
      && g in w.pages && w.pages[g].pageType == InternalPage
      && g in w.rank && w.root in w.rank && w.rank[g] <= w.rank[w.root]
      && Pending(w, order, g, j, sep, n)
    ensures Stored(w) == Stored(v)[key := value]
    ensures 0 < |w.chain| && w.chain[0] == v.chain[0] && w.root == v.root && w.nextId == n + 1
  {
    w := LeafBelowSplit(v, order, ci, pos, key, value);
    LeafBelowTable(v, order, ci, pos, key, value);
    j := LeafBelowTree(v, order, ci, pos, key, value);
  }

  /**
    The root branch of `splitInternalPage`: given the table t after the
    new page's children are re-parented, and the halves and promoted
    separator it computed, the table it writes is that of a well-formed
    tree storing what the pending tree stores, with the same leaf chain,
    rooted at new page n+1.
  */
  lemma InternalRootDone(v: View, order: nat, p: PageId, j: nat, key: int, child: PageId,
                         t: map<PageId, Node>, n: PageId, left: Node, right: Node, midKey: int) returns (f: View)
    requires InternalFull(v, order, p, j, key, child) && p == v.root
    requires n == v.nextId
    requires var m := WithChild(v.pages[p], j, key, child);
      var mid := (order + 1) / 2;
      && mid < |m.keys| && |m.children| == |m.keys| + 1
      && t == Reparent(v.pages[n := DefaultNode()], RightHalf(m, mid).children, n)
      && left == LeftHalf(m, mid) && right == RightHalf(m, mid).(parentPageId := INVALID_PAGE_ID)
      && midKey == m.keys[mid]
    ensures forall q :: q in v.pages ==> q in t
    ensures n + 1 !in t
    ensures f.pages == t[n + 1 := DefaultNode()]
        [p := left.(parentPageId := n + 1)][n := right.(parentPageId := n + 1)][n + 1 := NewRoot(midKey, p, n)]
    ensures TreeOk(f, order, INVALID_PAGE_ID) && Stored(f) == Stored(v) && f.chain == v.chain
    ensures f.root == n + 1 && f.nextId == n + 2
  {
    InternalRootGrows(v, order, p, j, key, child);
    InternalRootTree(v, order, p, j, key, child);
    f := RootSplitView(v, p, j, key, child, n, (order + 1) / 2);
    InternalRootWrites(v, p, j, key, child, n, (order + 1) / 2);
    var m := WithChild(v.pages[p], j, key, child);
    assert right.(parentPageId := n + 1) == RightHalf(m, (order + 1) / 2).(parentPageId := n + 1);
  }

  /**
    The other branch of `splitInternalPage`, before the parent is updated:
    given the table t after the new page's children are re-parented, and
    the halves and promoted separator it computed, the table it writes is
    that of a tree pending the parent's insertion of the separator and the
    new page, storing what the pending tree stores, with the same root and
    leaf chain, and with the parent closer to the root than p was.
  */
  lemma InternalBelowDone(v: View, order: nat, p: PageId, j: nat, key: int, child: PageId,
                          t: map<PageId, Node>, n: PageId, left: Node, right: Node, midKey: int) returns (w: View, j': nat)
    requires InternalFull(v, order, p, j, key, child) && p != v.root
    requires n == v.nextId
    requires var m := WithChild(v.pages[p], j, key, child);
      var mid := (order + 1) / 2;
      && mid < |m.keys| && |m.children| == |m.keys| + 1
      && t == Reparent(v.pages[n := DefaultNode()], RightHalf(m, mid).children, n)
      && left == LeftHalf(m, mid) && right == RightHalf(m, mid).(parentPageId := INVALID_PAGE_ID)
      && midKey == m.keys[mid]
    ensures forall q :: q in v.pages ==> q in t
    ensures var g := v.pages[p].parentPageId;
      && w.pages == t[p := left][n := right.(parentPageId := g)]
      && g in w.pages && w.pages[g].pageType == InternalPage
      && g in w.rank && w.root in w.rank && w.rank[g] <= w.rank[w.root]
      && w.rank[w.root] as int - w.rank[g] < v.rank[v.root] as int - v.rank[p]
      && Pending(w, order, g, j', midKey, n)
    ensures Stored(w) == Stored(v) && w.chain == v.chain && w.root == v.root && w.nextId == n + 1
  {
    InternalReady(v, order, p, j, key, child);
    w := InternalBelowSplit(v, order, p, j, key, child);
    InternalBelowTable(v, order, p, j, key, child);
    j' := InternalBelowTree(v, order, p, j, key, child);
  }
}
