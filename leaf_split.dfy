/**
  Splitting a leaf that holds one key too many, and growing a new root
  above the old one. After a split the tree is well-formed except that
  the parent still lacks the separator and the new page: the state
  `Pending` describes, which the parent's insertion then completes.
*/
module LeafSplit {
  import opened OptionType
  import opened BufferPool
  import opened BTreeView
  import opened BTreeInsert

  // ---------------------------------------------------------------------
  // Facts about internal pages of a well-formed tree.
  // ---------------------------------------------------------------------

  /** An internal page lists each child once: the children's ranges are disjoint. */
  lemma ChildUnique(v: View, order: nat, over: PageId, p: PageId, i: int, k: int)
    requires TreeOk(v, order, over) && p in v.pages && v.pages[p].pageType == InternalPage
    requires 0 <= i < k < |v.pages[p].children|
    ensures v.pages[p].children[i] != v.pages[p].children[k]
  {
    assert DownOk(v, p, order, over);
    assert ChildOk(v, p, i) && ChildOk(v, p, k);
    var ks := v.pages[p].keys;
    var c := v.pages[p].children[i];
    assert DownOk(v, c, order, over);
    if i == 0 {
      assert ks[0] <= ks[k - 1];
    } else {
      assert ks[i - 1] < ks[k - 1];
    }
    assert ChildRange(ks, v.rng[p], i).lo != ChildRange(ks, v.rng[p], k).lo;
  }

  /** The separators around a child's slot, as its range gives them. */
  lemma ChildRangeInsert(ks: seq<int>, r: Range, j: nat, key: int, i: nat)
    requires j <= |ks| && i <= |ks| + 1
    ensures var ks' := InsertAt(ks, j, key);
      && (i < j ==> ChildRange(ks', r, i) == ChildRange(ks, r, i))
      && (i == j ==> ChildRange(ks', r, i) == Range(ChildRange(ks, r, j).lo, Some(key)))
      && (i == j + 1 ==> ChildRange(ks', r, i) == Range(Some(key), ChildRange(ks, r, j).hi))
      && (j + 1 < i ==> ChildRange(ks', r, i) == ChildRange(ks, r, i - 1))
  {
  }

  /** A key strictly inside child j's range fits between separators j-1 and j. */
  lemma SeparatorFits(ks: seq<int>, r: Range, j: nat, key: int)
    requires Sorted(ks) && j <= |ks|
    requires ChildRange(ks, r, j).lo.Some? ==> ChildRange(ks, r, j).lo.value < key
    requires ChildRange(ks, r, j).hi.Some? ==> key < ChildRange(ks, r, j).hi.value
    ensures forall i :: 0 <= i < j ==> ks[i] < key
    ensures forall i :: j <= i < |ks| ==> key < ks[i]
    ensures Sorted(InsertAt(ks, j, key))
  {
    SortedInsert(ks, j, key);
  }

  // ---------------------------------------------------------------------
  // A new root above the old one.
  // ---------------------------------------------------------------------

  /** The page a new root starts as: internal, no separator, the old root its only child. */
  function RootAbove(below: PageId): Node
  {
    Node(InternalPage, [], [below], [], INVALID_PAGE_ID, INVALID_PAGE_ID, INVALID_PAGE_ID)
  }

  /** The tree with new page `r` put above the root, one rank higher and covering every key. */
  ghost function Grow(v: View, r: PageId): View
    requires v.root in v.pages && v.root in v.rank
  {
    View(v.pages[r := RootAbove(v.root)][v.root := v.pages[v.root].(parentPageId := r)],
         r,
         if r < v.nextId then v.nextId else r + 1,
         v.rank[r := v.rank[v.root] + 1],
         v.rng[r := Everything],
         v.chain)
  }

  ghost predicate Growable(v: View, order: nat, over: PageId, r: PageId)
  {
    TreeOk(v, order, over) && r != INVALID_PAGE_ID && r !in v.pages
  }

  /**
    Putting a new root above the old one keeps the tree well-formed (with
    the same page allowed to be full) and the stored pairs unchanged.
  */
  lemma GrowOk(v: View, order: nat, over: PageId, r: PageId)
    requires Growable(v, order, over, r)
    ensures TreeOk(Grow(v, r), order, over)
    ensures Stored(Grow(v, r)) == Stored(v) && Grow(v, r).chain == v.chain
    ensures Grow(v, r).pages[r] == RootAbove(v.root) && v.root != r
  {
    GrowDown(v, order, over, r);
    GrowParents(v, order, over, r);
    GrowLeaves(v, order, over, r);
    GrowStored(v, order, over, r);
  }

  lemma GrowDown(v: View, order: nat, over: PageId, r: PageId)
    requires Growable(v, order, over, r)
    ensures forall p :: p in Grow(v, r).pages ==> DownOk(Grow(v, r), p, order, over)
  {
    var w := Grow(v, r);
    forall p | p in w.pages ensures DownOk(w, p, order, over) {
      if p == r {
        assert DownOk(v, v.root, order, over);
        assert ChildOk(w, r, 0);
      } else {
        assert DownOk(v, p, order, over);
        assert DownOk(v, v.root, order, over);
        if v.pages[p].pageType == InternalPage {
          forall i | 0 <= i < |w.pages[p].children| ensures ChildOk(w, p, i) {
            assert ChildOk(v, p, i);
          }
        }
      }
    }
  }

  lemma GrowParents(v: View, order: nat, over: PageId, r: PageId)
    requires Growable(v, order, over, r)
    ensures forall p :: p in Grow(v, r).pages && p != Grow(v, r).root ==> ParentOk(Grow(v, r), p)
  {
    var w := Grow(v, r);
    forall p | p in w.pages && p != w.root ensures ParentOk(w, p) {
      if p != v.root {
        assert ParentOk(v, p);
      } else {
        assert w.pages[r].children[0] == p;
      }
    }
  }

  lemma GrowLeaves(v: View, order: nat, over: PageId, r: PageId)
    requires Growable(v, order, over, r)
    ensures LeavesOk(Grow(v, r))
  {
    var w := Grow(v, r);
    forall i | 0 <= i < |w.chain| ensures LinkOk(w, i) {
      assert LinkOk(v, i);
    }
    forall i | 0 <= i < |w.chain| ensures LeafOk(w, w.chain[i]) {
      assert LeafOk(v, v.chain[i]);
    }
  }

  lemma GrowStored(v: View, order: nat, over: PageId, r: PageId)
    requires Growable(v, order, over, r)
    ensures Stored(Grow(v, r)) == Stored(v)
  {
    var w := Grow(v, r);
    forall i | 0 <= i < |v.chain|
      ensures v.chain[i] in v.pages && v.chain[i] in w.pages
      ensures LeafEntries(w.pages[v.chain[i]]) == LeafEntries(v.pages[v.chain[i]])
    {
      LeafShape(v, i);
    }
    EntriesFrame(v.pages, w.pages, v.chain);
  }

  // ---------------------------------------------------------------------
  // Splitting a leaf.
  // ---------------------------------------------------------------------

  /** The left half of a split leaf: its first `mid` pairs, now followed by page `n`. */
  function LeftLeaf(m: Node, mid: nat, n: PageId): Node
    requires mid <= |m.keys| && mid <= |m.values|
  {
    m.(keys := m.keys[..mid], values := m.values[..mid], nextPageId := n)
  }

  /** The right half on new page `n`: the remaining pairs, between the left half `l` and its old successor. */
  function RightLeaf(m: Node, mid: nat, l: PageId): Node
    requires mid <= |m.keys| && mid <= |m.values|
  {
    Node(LeafPage, m.keys[mid..], [], m.values[mid..], m.parentPageId, m.nextPageId, l)
  }

  /** The chain with page `n` spliced in after position ci. */
  function SpliceAfter(c: seq<PageId>, ci: int, n: PageId): (c': seq<PageId>)
    requires 0 <= ci < |c|
    ensures |c'| == |c| + 1 && c'[ci + 1] == n
    ensures forall k :: 0 <= k <= ci ==> c'[k] == c[k]
    ensures forall k :: ci + 2 <= k < |c'| ==> c'[k] == c[k - 1]
  {
    c[..ci + 1] + [n] + c[ci + 1..]
  }

  /**
    Leaf chain[ci], holding one key too many, split at `mid`: it keeps the
    first `mid` pairs and its range up to the separator (the first key of
    the right half); new page `n` takes the rest and the range from the
    separator on, and is spliced into the chain after it.
  */
  ghost function SplitLeafView(v: View, ci: int, n: PageId, mid: nat): View
    requires 0 <= ci < |v.chain| && v.chain[ci] in v.pages && v.chain[ci] in v.rng && v.chain[ci] in v.rank
    requires mid < |v.pages[v.chain[ci]].keys| && mid <= |v.pages[v.chain[ci]].values|
  {
    var l := v.chain[ci];
    var m := v.pages[l];
    var sep := m.keys[mid];
    var x := m.nextPageId;
    var linked := if x != INVALID_PAGE_ID && x in v.pages then v.pages[x := v.pages[x].(prevPageId := n)] else v.pages;
    View(linked[l := LeftLeaf(m, mid, n)][n := RightLeaf(m, mid, l)],
         v.root,
         if n < v.nextId then v.nextId else n + 1,
         v.rank[n := v.rank[l]],
         v.rng[l := Range(v.rng[l].lo, Some(sep))][n := Range(Some(sep), v.rng[l].hi)],
         SpliceAfter(v.chain, ci, n))
  }

  /**
    What a leaf split needs: the tree well-formed with leaf chain[ci]
    holding `order` keys, a non-root leaf listed as child j of its parent,
    a fresh page id `n`, and the split point `mid` = (order+1)/2.
  */
  ghost predicate LeafSplittable(v: View, order: nat, ci: int, n: PageId, mid: nat, j: int)
  {
    && 0 <= ci < |v.chain|
    && TreeOk(v, order, v.chain[ci])
    && v.chain[ci] in v.pages && v.chain[ci] in v.rng && v.chain[ci] in v.rank
    && v.chain[ci] != v.root
    && |v.pages[v.chain[ci]].keys| == order && |v.pages[v.chain[ci]].values| == order
    && mid == (order + 1) / 2
    && n != INVALID_PAGE_ID && n !in v.pages
    && var p := v.pages[v.chain[ci]].parentPageId;
    && p in v.pages && |v.pages[p].children| == |v.pages[p].keys| + 1
    && 0 <= j < |v.pages[p].children| && v.pages[p].children[j] == v.chain[ci]
  }

  /**
    What the steps of a split use about the leaf, its parent and its
    successor, without the rest of the tree: the leaf is well-formed and
    full, its separator lies strictly inside its range, it is child j of
    its internal parent and no other child, and neither the parent nor the
    new page is a leaf of the chain.
  */
  ghost predicate SplitFacts(v: View, order: nat, ci: int, n: PageId, mid: nat, j: int)
  {
    && 0 <= ci < |v.chain|
    && var l := v.chain[ci];
    && l in v.pages && l in v.rng && l in v.rank && l != v.root
    && INVALID_PAGE_ID < l < v.nextId
    && v.root in v.pages && v.root in v.rank && v.rank[l] <= v.rank[v.root]
    && var m := v.pages[l];
    && |m.keys| == order && |m.values| == order
    && 2 <= order && mid == (order + 1) / 2 && 1 <= mid < order
    && n != INVALID_PAGE_ID && n !in v.pages
    && LeafOk(v, l) && LinkOk(v, ci)
    && (v.rng[l].lo.Some? ==> v.rng[l].lo.value < m.keys[mid])
    && (v.rng[l].hi.Some? ==> m.keys[mid] < v.rng[l].hi.value)
    && var p := m.parentPageId;
    && p in v.pages && p in v.rank && p in v.rng && p != l && p != INVALID_PAGE_ID
    && v.pages[p].pageType == InternalPage
    && |v.pages[p].children| == |v.pages[p].keys| + 1
    && 0 <= j < |v.pages[p].children| && v.pages[p].children[j] == l && ChildOk(v, p, j)
    && (forall i :: 0 <= i < |v.pages[p].children| && v.pages[p].children[i] == l ==> i == j)
    && (forall i :: 0 <= i < |v.chain| ==> v.chain[i] != n && v.chain[i] != p)
    && var x := m.nextPageId;
    && (x != INVALID_PAGE_ID ==> ci + 1 < |v.chain| && x == v.chain[ci + 1] && x in v.pages && x != p)
  }

  /**
    What re-reading the chain after a split uses: the leaf's pairs, the
    split point, a new page id outside the chain, and the successor.
  */
  ghost predicate SpliceFacts(v: View, ci: int, n: PageId, mid: nat)
  {
    && 0 <= ci < |v.chain|
    && var l := v.chain[ci];
    && l in v.pages && l in v.rng && l in v.rank
    && var m := v.pages[l];
    && |m.values| == |m.keys| && mid < |m.keys|
    && n !in v.pages
    && (forall i :: 0 <= i < |v.chain| ==> v.chain[i] != n)
    && var x := m.nextPageId;
    && (x != INVALID_PAGE_ID ==> ci + 1 < |v.chain| && x == v.chain[ci + 1] && x in v.pages)
  }

  ghost predicate ChainDistinct(c: seq<PageId>)
  {
    forall a, b :: 0 <= a < b < |c| ==> c[a] != c[b]
  }

  /** The split leaf's view with its parent given the separator and the new page. */
  ghost function SplitLeafTree(v: View, order: nat, ci: int, n: PageId, mid: nat, j: int): View
    requires SplitFacts(v, order, ci, n, mid, j)
  {
    var w := SplitLeafView(v, ci, n, mid);
    var m := v.pages[v.chain[ci]];
    w.(pages := w.pages[m.parentPageId := WithChild(v.pages[m.parentPageId], j, m.keys[mid], n)])
  }

  lemma LeafSplitFacts(v: View, order: nat, ci: int, n: PageId, mid: nat, j: int)
    requires LeafSplittable(v, order, ci, n, mid, j)
    ensures SplitFacts(v, order, ci, n, mid, j) && ChainDistinct(v.chain)
    ensures SpliceFacts(v, ci, n, mid) && ChainOk(v)
  {
    var l := v.chain[ci];
    var m := v.pages[l];
    var p := m.parentPageId;
    assert LinkOk(v, ci) && LeafOk(v, l);
    assert DownOk(v, l, order, l);
    assert ParentOk(v, l);
    assert DownOk(v, p, order, l);
    assert ChildOk(v, p, j);
    forall i | 0 <= i < |v.pages[p].children| && v.pages[p].children[i] == l ensures i == j {
      if i < j { ChildUnique(v, order, l, p, i, j); }
      if j < i { ChildUnique(v, order, l, p, j, i); }
    }
    assert InRange(v.rng[l], m.keys[0]) && InRange(v.rng[l], m.keys[mid]);
    forall i | 0 <= i < |v.chain| ensures v.chain[i] != n && v.chain[i] != p {
      assert LinkOk(v, i);
    }
    if ci + 1 < |v.chain| {
      assert LinkOk(v, ci + 1);
    }
  }

  // The pages of the split view, one by one.

  lemma SplitLeafParentPage(v: View, order: nat, ci: int, n: PageId, mid: nat, j: int)
    requires SplitFacts(v, order, ci, n, mid, j)
    ensures var m := v.pages[v.chain[ci]];
      var p := m.parentPageId;
      var w := SplitLeafTree(v, order, ci, n, mid, j);
      && p in w.pages && p in w.rank && p in w.rng
      && w.pages[p] == WithChild(v.pages[p], j, m.keys[mid], n)
      && w.rank[p] == v.rank[p] && w.rng[p] == v.rng[p]
  {
  }

  /** A page other than the split leaf and its parent keeps its parent, keys, children, rank and range. */
  lemma SplitLeafOther(v: View, order: nat, ci: int, n: PageId, mid: nat, j: int, q: PageId)
    requires SplitFacts(v, order, ci, n, mid, j)
    requires q in v.pages && q != v.chain[ci] && q != v.pages[v.chain[ci]].parentPageId
    ensures var w := SplitLeafTree(v, order, ci, n, mid, j);
      && q in w.pages
      && w.pages[q].pageType == v.pages[q].pageType
      && w.pages[q].parentPageId == v.pages[q].parentPageId
      && w.pages[q].keys == v.pages[q].keys && w.pages[q].children == v.pages[q].children
      && w.pages[q].values == v.pages[q].values
      && (q in v.rank ==> q in w.rank && w.rank[q] == v.rank[q])
      && (q in v.rng ==> q in w.rng && w.rng[q] == v.rng[q])
  {
  }

  lemma SplitLeafRoot(v: View, order: nat, ci: int, n: PageId, mid: nat, j: int)
    requires SplitFacts(v, order, ci, n, mid, j) && RootOk(v)
    ensures RootOk(SplitLeafTree(v, order, ci, n, mid, j))
  {
    var p := v.pages[v.chain[ci]].parentPageId;
    if v.root == p {
      SplitLeafParentPage(v, order, ci, n, mid, j);
    } else {
      SplitLeafOther(v, order, ci, n, mid, j, v.root);
    }
  }

  // Every page routes its keys to the right children.

  lemma SplitLeafParentSelf(v: View, order: nat, ci: int, n: PageId, mid: nat, j: int)
    requires SplitFacts(v, order, ci, n, mid, j)
    requires SelfOk(v, v.pages[v.chain[ci]].parentPageId, order, v.chain[ci])
    ensures var p := v.pages[v.chain[ci]].parentPageId;
      var w := SplitLeafTree(v, order, ci, n, mid, j);
      SelfOk(w, p, order, p) && |w.pages[p].children| == |v.pages[p].children| + 1
  {
    var m := v.pages[v.chain[ci]];
    var p := m.parentPageId;
    SeparatorFits(v.pages[p].keys, v.rng[p], j, m.keys[mid]);
    SplitLeafParentPage(v, order, ci, n, mid, j);
    if v.root != p {
      SplitLeafOther(v, order, ci, n, mid, j, v.root);
    }
  }

  /** Slots j and j+1 of the parent: the left half and the new page, with the ranges either side of the separator. */
  lemma SplitLeafNewChildren(v: View, order: nat, ci: int, n: PageId, mid: nat, j: int)
    requires SplitFacts(v, order, ci, n, mid, j)
    ensures var p := v.pages[v.chain[ci]].parentPageId;
      var w := SplitLeafTree(v, order, ci, n, mid, j);
      ChildOk(w, p, j) && ChildOk(w, p, j + 1)
  {
    var m := v.pages[v.chain[ci]];
    var p := m.parentPageId;
    ChildRangeInsert(v.pages[p].keys, v.rng[p], j, m.keys[mid], j);
    ChildRangeInsert(v.pages[p].keys, v.rng[p], j, m.keys[mid], j + 1);
    SplitLeafParentPage(v, order, ci, n, mid, j);
  }

  /** Any other slot of the parent holds an old child, unchanged, at its old or next position. */
  lemma SplitLeafOldChild(v: View, order: nat, ci: int, n: PageId, mid: nat, j: int, i: int, i0: int)
    requires SplitFacts(v, order, ci, n, mid, j)
    requires var p := v.pages[v.chain[ci]].parentPageId;
      && 0 <= i0 < |v.pages[p].children| && i0 != j && i == (if i0 < j then i0 else i0 + 1)
      && ChildOk(v, p, i0)
    ensures var p := v.pages[v.chain[ci]].parentPageId;
      ChildOk(SplitLeafTree(v, order, ci, n, mid, j), p, i)
  {
    var m := v.pages[v.chain[ci]];
    var p := m.parentPageId;
    ChildRangeInsert(v.pages[p].keys, v.rng[p], j, m.keys[mid], i);
    SplitLeafParentPage(v, order, ci, n, mid, j);
    SplitLeafOther(v, order, ci, n, mid, j, v.pages[p].children[i0]);
  }

  /** The parent, given the separator at slot j and the new page after the split one, routes every key rightly. */
  lemma SplitLeafDownParent(v: View, order: nat, ci: int, n: PageId, mid: nat, j: int)
    requires LeafSplittable(v, order, ci, n, mid, j) && SplitFacts(v, order, ci, n, mid, j)
    ensures var p := v.pages[v.chain[ci]].parentPageId;
      DownOk(SplitLeafTree(v, order, ci, n, mid, j), p, order, p)
  {
    LeafSplitFacts(v, order, ci, n, mid, j);
    var p := v.pages[v.chain[ci]].parentPageId;
    var w := SplitLeafTree(v, order, ci, n, mid, j);
    assert DownOk(v, p, order, v.chain[ci]);
    SplitLeafParentSelf(v, order, ci, n, mid, j);
    SplitLeafNewChildren(v, order, ci, n, mid, j);
    forall i | 0 <= i < |w.pages[p].children| ensures ChildOk(w, p, i) {
      if i < j {
        SplitLeafOldChild(v, order, ci, n, mid, j, i, i);
      } else if j + 1 < i {
        SplitLeafOldChild(v, order, ci, n, mid, j, i, i - 1);
      }
    }
  }

  /** Both halves are well-formed leaves of the right size. */
  lemma SplitLeafDownHalves(v: View, order: nat, ci: int, n: PageId, mid: nat, j: int)
    requires SplitFacts(v, order, ci, n, mid, j)
    ensures var p := v.pages[v.chain[ci]].parentPageId;
      var w := SplitLeafTree(v, order, ci, n, mid, j);
      DownOk(w, v.chain[ci], order, p) && DownOk(w, n, order, p)
  {
    var l := v.chain[ci];
    var w := SplitLeafTree(v, order, ci, n, mid, j);
    assert w.chain[ci] == l && w.chain[ci + 1] == n;
    SplitLeafRootRank(v, order, ci, n, mid, j);
  }

  /** The root keeps its rank, so both halves still rank no higher. */
  lemma SplitLeafRootRank(v: View, order: nat, ci: int, n: PageId, mid: nat, j: int)
    requires SplitFacts(v, order, ci, n, mid, j)
    ensures var w := SplitLeafTree(v, order, ci, n, mid, j);
      v.root in w.rank && w.rank[v.root] == v.rank[v.root] && w.root == v.root
  {
    if v.root == v.pages[v.chain[ci]].parentPageId {
      SplitLeafParentPage(v, order, ci, n, mid, j);
    } else {
      SplitLeafOther(v, order, ci, n, mid, j, v.root);
    }
  }

  /** A child of a page other than the parent keeps its slot. */
  lemma SplitLeafOtherChild(v: View, order: nat, ci: int, n: PageId, mid: nat, j: int, q: PageId, i: nat)
    requires SplitFacts(v, order, ci, n, mid, j)
    requires q in v.pages && q != v.chain[ci] && q != v.pages[v.chain[ci]].parentPageId
    requires ChildOk(v, q, i)
    ensures ChildOk(SplitLeafTree(v, order, ci, n, mid, j), q, i)
  {
    var p := v.pages[v.chain[ci]].parentPageId;
    var c := v.pages[q].children[i];
    SplitLeafOther(v, order, ci, n, mid, j, q);
    if c == p {
      SplitLeafParentPage(v, order, ci, n, mid, j);
    } else {
      SplitLeafOther(v, order, ci, n, mid, j, c);
    }
  }

  /** Every other page keeps its contents, except the successor leaf's back link. */
  lemma SplitLeafDownOther(v: View, order: nat, ci: int, n: PageId, mid: nat, j: int, q: PageId)
    requires SplitFacts(v, order, ci, n, mid, j)
    requires q in v.pages && q != v.chain[ci] && q != v.pages[v.chain[ci]].parentPageId
    requires DownOk(v, q, order, v.chain[ci])
    ensures var p := v.pages[v.chain[ci]].parentPageId;
      DownOk(SplitLeafTree(v, order, ci, n, mid, j), q, order, p)
  {
    var w := SplitLeafTree(v, order, ci, n, mid, j);
    SplitLeafOther(v, order, ci, n, mid, j, q);
    SplitLeafRootRank(v, order, ci, n, mid, j);
    if v.pages[q].pageType == LeafPage {
      var k :| 0 <= k < |v.chain| && v.chain[k] == q;
      if k <= ci { assert w.chain[k] == q; } else { assert w.chain[k + 1] == q; }
    } else {
      forall i | 0 <= i < |w.pages[q].children| ensures ChildOk(w, q, i) {
        assert ChildOk(v, q, i);
        SplitLeafOtherChild(v, order, ci, n, mid, j, q, i);
      }
    }
  }

  lemma SplitLeafDown(v: View, order: nat, ci: int, n: PageId, mid: nat, j: int)
    requires LeafSplittable(v, order, ci, n, mid, j) && SplitFacts(v, order, ci, n, mid, j)
    ensures var p := v.pages[v.chain[ci]].parentPageId;
      var w := SplitLeafTree(v, order, ci, n, mid, j);
      forall q :: q in w.pages ==> DownOk(w, q, order, p)
  {
    LeafSplitFacts(v, order, ci, n, mid, j);
    var l := v.chain[ci];
    var p := v.pages[l].parentPageId;
    var w := SplitLeafTree(v, order, ci, n, mid, j);
    SplitLeafDownParent(v, order, ci, n, mid, j);
    SplitLeafDownHalves(v, order, ci, n, mid, j);
    forall q | q in w.pages ensures DownOk(w, q, order, p) {
      if q != p && q != l && q != n {
        assert DownOk(v, q, order, l);
        SplitLeafDownOther(v, order, ci, n, mid, j, q);
      }
    }
  }

  // Every page but the root is listed by its parent.

  /** An internal page still lists each child it listed. */
  lemma SplitLeafStillLists(v: View, order: nat, ci: int, n: PageId, mid: nat, j: int, g: PageId, q: PageId)
    requires SplitFacts(v, order, ci, n, mid, j)
    requires g in v.pages && v.pages[g].pageType == InternalPage && q in v.pages[g].children
    ensures var w := SplitLeafTree(v, order, ci, n, mid, j);
      g in w.pages && w.pages[g].pageType == InternalPage && q in w.pages[g].children
  {
    var p := v.pages[v.chain[ci]].parentPageId;
    var w := SplitLeafTree(v, order, ci, n, mid, j);
    if g == p {
      SplitLeafParentPage(v, order, ci, n, mid, j);
      var i :| 0 <= i < |v.pages[p].children| && v.pages[p].children[i] == q;
      assert w.pages[p].children[if i <= j then i else i + 1] == q;
    } else {
      SplitLeafOther(v, order, ci, n, mid, j, g);
    }
  }

  lemma SplitLeafParentOf(v: View, order: nat, ci: int, n: PageId, mid: nat, j: int, q: PageId)
    requires SplitFacts(v, order, ci, n, mid, j)
    requires q in v.pages && q != v.chain[ci] && ParentOk(v, q)
    ensures ParentOk(SplitLeafTree(v, order, ci, n, mid, j), q)
  {
    if q == v.pages[v.chain[ci]].parentPageId {
      SplitLeafParentPage(v, order, ci, n, mid, j);
    } else {
      SplitLeafOther(v, order, ci, n, mid, j, q);
    }
    SplitLeafStillLists(v, order, ci, n, mid, j, v.pages[q].parentPageId, q);
  }

  lemma SplitLeafParents(v: View, order: nat, ci: int, n: PageId, mid: nat, j: int)
    requires LeafSplittable(v, order, ci, n, mid, j) && SplitFacts(v, order, ci, n, mid, j)
    ensures var w := SplitLeafTree(v, order, ci, n, mid, j);
      forall q :: q in w.pages && q != w.root ==> ParentOk(w, q)
  {
    LeafSplitFacts(v, order, ci, n, mid, j);
    SplitLeafParentPage(v, order, ci, n, mid, j);
    var l := v.chain[ci];
    var p := v.pages[l].parentPageId;
    var w := SplitLeafTree(v, order, ci, n, mid, j);
    forall q | q in w.pages && q != w.root ensures ParentOk(w, q) {
      if q == n {
        assert w.pages[p].children[j + 1] == n;
      } else if q == l {
        assert w.pages[p].children[j] == l;
      } else {
        assert ParentOk(v, q);
        SplitLeafParentOf(v, order, ci, n, mid, j, q);
      }
    }
  }

  // The leaf chain with the new page spliced in.

  /** A link before the split leaf is unchanged. */
  lemma SplitLeafLinkBefore(v: View, order: nat, ci: int, n: PageId, mid: nat, j: int, k: int)
    requires SplitFacts(v, order, ci, n, mid, j) && ChainDistinct(v.chain)
    requires 0 <= k < ci && LinkOk(v, k)
    ensures LinkOk(SplitLeafTree(v, order, ci, n, mid, j), k)
  {
    SplitLeafOther(v, order, ci, n, mid, j, v.chain[k]);
    if k + 1 < ci {
      assert v.chain[k + 1] != v.chain[ci];
    }
  }

  /** The left half now links forward to the new page, whose range starts at the separator. */
  lemma SplitLeafLinkLeft(v: View, order: nat, ci: int, n: PageId, mid: nat, j: int)
    requires SplitFacts(v, order, ci, n, mid, j)
    ensures LinkOk(SplitLeafTree(v, order, ci, n, mid, j), ci)
  {
  }

  /** The new page links back to the left half and forward to the old successor. */
  lemma SplitLeafLinkNew(v: View, order: nat, ci: int, n: PageId, mid: nat, j: int)
    requires SplitFacts(v, order, ci, n, mid, j) && ChainDistinct(v.chain)
    requires ci + 1 < |v.chain| ==> LinkOk(v, ci + 1)
    ensures LinkOk(SplitLeafTree(v, order, ci, n, mid, j), ci + 1)
  {
    if ci + 1 < |v.chain| {
      SplitLeafOther(v, order, ci, n, mid, j, v.chain[ci + 1]);
    }
  }

  /** The old successor now links back to the new page. */
  lemma SplitLeafLinkNext(v: View, order: nat, ci: int, n: PageId, mid: nat, j: int)
    requires SplitFacts(v, order, ci, n, mid, j) && ChainDistinct(v.chain)
    requires ci + 1 < |v.chain| && LinkOk(v, ci + 1)
    ensures LinkOk(SplitLeafTree(v, order, ci, n, mid, j), ci + 2)
  {
    if ci + 2 < |v.chain| {
      assert v.chain[ci + 2] != v.chain[ci];
    }
  }

  /** A link further on is the old one, one place later. */
  lemma SplitLeafLinkAfter(v: View, order: nat, ci: int, n: PageId, mid: nat, j: int, k: int)
    requires SplitFacts(v, order, ci, n, mid, j) && ChainDistinct(v.chain)
    requires ci + 2 < k <= |v.chain| && LinkOk(v, k - 1)
    ensures LinkOk(SplitLeafTree(v, order, ci, n, mid, j), k)
  {
    SplitLeafOther(v, order, ci, n, mid, j, v.chain[k - 1]);
    if k < |v.chain| {
      assert v.chain[k] != v.chain[ci];
    }
  }

  /** The spliced chain lists pages that exist, each once. */
  lemma SplitLeafChainPages(v: View, order: nat, ci: int, n: PageId, mid: nat, j: int)
    requires SplitFacts(v, order, ci, n, mid, j) && ChainDistinct(v.chain)
    requires forall k :: 0 <= k < |v.chain| ==> v.chain[k] in v.pages && v.chain[k] in v.rng
    ensures var w := SplitLeafTree(v, order, ci, n, mid, j);
      && (forall k :: 0 <= k < |w.chain| ==> w.chain[k] in w.pages && w.chain[k] in w.rng)
      && ChainDistinct(w.chain)
  {
    var w := SplitLeafTree(v, order, ci, n, mid, j);
    forall k | 0 <= k < |w.chain| ensures w.chain[k] in w.pages && w.chain[k] in w.rng {
      if k <= ci { assert w.chain[k] == v.chain[k]; } else if ci + 1 < k { assert w.chain[k] == v.chain[k - 1]; }
    }
    forall a, b | 0 <= a < b < |w.chain| ensures w.chain[a] != w.chain[b] {
      var a' := if a <= ci then a else a - 1;
      var b' := if b <= ci then b else b - 1;
      if a != ci + 1 && b != ci + 1 {
        assert w.chain[a] == v.chain[a'] && w.chain[b] == v.chain[b'];
      }
    }
  }

  /** Every link of the spliced chain holds. */
  lemma SplitLeafLinks(v: View, order: nat, ci: int, n: PageId, mid: nat, j: int)
    requires SplitFacts(v, order, ci, n, mid, j) && ChainDistinct(v.chain)
    requires forall k {:trigger LinkOk(v, k)} :: 0 <= k < |v.chain| ==> LinkOk(v, k)
    ensures var w := SplitLeafTree(v, order, ci, n, mid, j);
      forall k :: 0 <= k < |w.chain| ==> LinkOk(w, k)
  {
    var w := SplitLeafTree(v, order, ci, n, mid, j);
    forall k | 0 <= k < |w.chain| ensures LinkOk(w, k) {
      if k < ci {
        assert LinkOk(v, k);
        SplitLeafLinkBefore(v, order, ci, n, mid, j, k);
      } else if k == ci {
        SplitLeafLinkLeft(v, order, ci, n, mid, j);
      } else if k == ci + 1 {
        if ci + 1 < |v.chain| { assert LinkOk(v, ci + 1); }
        SplitLeafLinkNew(v, order, ci, n, mid, j);
      } else if k == ci + 2 {
        assert LinkOk(v, ci + 1);
        SplitLeafLinkNext(v, order, ci, n, mid, j);
      } else {
        assert LinkOk(v, k - 1);
        SplitLeafLinkAfter(v, order, ci, n, mid, j, k);
      }
    }
  }

  lemma SplitLeafChain(v: View, order: nat, ci: int, n: PageId, mid: nat, j: int)
    requires LeafSplittable(v, order, ci, n, mid, j) && SplitFacts(v, order, ci, n, mid, j)
    ensures ChainOk(SplitLeafTree(v, order, ci, n, mid, j))
  {
    assert ChainOk(v);
    SplitLeafChainPages(v, order, ci, n, mid, j);
    SplitLeafLinks(v, order, ci, n, mid, j);
  }

  /** Each half holds its slice of the pairs, inside its part of the old range. */
  lemma SplitLeafHalves(v: View, order: nat, ci: int, n: PageId, mid: nat, j: int)
    requires SplitFacts(v, order, ci, n, mid, j)
    ensures var w := SplitLeafTree(v, order, ci, n, mid, j);
      LeafOk(w, v.chain[ci]) && LeafOk(w, n)
  {
    var l := v.chain[ci];
    var m := v.pages[l];
    var w := SplitLeafTree(v, order, ci, n, mid, j);
    forall i | 0 <= i < mid ensures InRange(w.rng[l], m.keys[i]) {
      assert InRange(v.rng[l], m.keys[i]);
    }
    var right := m.keys[mid..];
    forall i | 0 <= i < |right| ensures InRange(w.rng[n], right[i]) {
      assert right[i] == m.keys[mid + i];
      assert InRange(v.rng[l], m.keys[mid + i]);
    }
  }

  lemma SplitLeafLeaves(v: View, order: nat, ci: int, n: PageId, mid: nat, j: int)
    requires LeafSplittable(v, order, ci, n, mid, j) && SplitFacts(v, order, ci, n, mid, j)
    ensures var w := SplitLeafTree(v, order, ci, n, mid, j);
      forall k :: 0 <= k < |w.chain| ==> LeafOk(w, w.chain[k])
  {
    LeafSplitFacts(v, order, ci, n, mid, j);
    SplitLeafHalves(v, order, ci, n, mid, j);
    var w := SplitLeafTree(v, order, ci, n, mid, j);
    forall k | 0 <= k < |w.chain| && k != ci && k != ci + 1 ensures LeafOk(w, w.chain[k]) {
      var k' := if k < ci then k else k - 1;
      assert w.chain[k] == v.chain[k'];
      assert LeafOk(v, v.chain[k']);
      SplitLeafOther(v, order, ci, n, mid, j, v.chain[k']);
    }
  }

  /** After a leaf split and the parent's insertion, the tree is well-formed with only the parent possibly full. */
  lemma SplitLeafOk(v: View, order: nat, ci: int, n: PageId, mid: nat, j: int)
    requires LeafSplittable(v, order, ci, n, mid, j) && SplitFacts(v, order, ci, n, mid, j)
    ensures TreeOk(SplitLeafTree(v, order, ci, n, mid, j), order, v.pages[v.chain[ci]].parentPageId)
  {
    LeafSplitFacts(v, order, ci, n, mid, j);
    SplitLeafRoot(v, order, ci, n, mid, j);
    SplitLeafDown(v, order, ci, n, mid, j);
    SplitLeafParents(v, order, ci, n, mid, j);
    SplitLeafChain(v, order, ci, n, mid, j);
    SplitLeafLeaves(v, order, ci, n, mid, j);
  }

  // The stored pairs survive a split.

  /** The two halves' pairs, one after the other, are the split leaf's. */
  lemma HalvesEntries(m: Node, mid: nat, n: PageId, l: PageId)
    requires |m.values| == |m.keys| && mid <= |m.keys|
    ensures LeafEntries(LeftLeaf(m, mid, n)) + LeafEntries(RightLeaf(m, mid, l)) == LeafEntries(m)
  {
  }

  /** The leaves of the chain before the split one, and those after it, hold the same pairs after the split. */
  lemma SplitLeafSameEntries(v: View, order: nat, ci: int, n: PageId, mid: nat, j: int, ids: seq<PageId>)
    requires SpliceFacts(v, ci, n, mid) && ChainOk(v)
    requires ids == v.chain[..ci] || ids == v.chain[ci + 1..]
    ensures Entries(SplitLeafView(v, ci, n, mid).pages, ids) == Entries(v.pages, ids)
  {
    var w := SplitLeafView(v, ci, n, mid);
    forall i | 0 <= i < |ids| ensures ids[i] in v.pages && ids[i] in w.pages
      && LeafEntries(w.pages[ids[i]]) == LeafEntries(v.pages[ids[i]])
    {
      if ids == v.chain[..ci] {
        assert ids[i] == v.chain[i];
      } else {
        assert ids[i] == v.chain[ci + 1 + i];
      }
    }
    EntriesFrame(v.pages, w.pages, ids);
  }

  /** The entries of a chain with page n spliced in after position ci. */
  lemma EntriesSplice(pages: map<PageId, Node>, c: seq<PageId>, ci: int, n: PageId)
    requires 0 <= ci < |c| && c[ci] in pages && n in pages
    ensures Entries(pages, SpliceAfter(c, ci, n))
      == Entries(pages, c[..ci]) + LeafEntries(pages[c[ci]]) + LeafEntries(pages[n]) + Entries(pages, c[ci + 1..])
  {
    var pre := c[..ci];
    var pair := [c[ci], n];
    var post := c[ci + 1..];
    assert SpliceAfter(c, ci, n) == pre + pair + post;
    EntriesAppend(pages, pre + pair, post);
    EntriesAppend(pages, pre, pair);
    assert pair == [c[ci]] + [n];
    EntriesAppend(pages, [c[ci]], [n]);
    EntriesSingle(pages, c[ci]);
    EntriesSingle(pages, n);
  }

  /** The new chain reads the old leaves before the split one, both halves, then the old leaves after it. */
  lemma SplitLeafNewEntries(v: View, order: nat, ci: int, n: PageId, mid: nat, j: int)
    requires SpliceFacts(v, ci, n, mid) && ChainOk(v)
    ensures var m := v.pages[v.chain[ci]];
      var w := SplitLeafView(v, ci, n, mid);
      Entries(w.pages, w.chain)
        == Entries(v.pages, v.chain[..ci]) + LeafEntries(LeftLeaf(m, mid, n))
           + LeafEntries(RightLeaf(m, mid, v.chain[ci])) + Entries(v.pages, v.chain[ci + 1..])
  {
    var c := v.chain;
    var wp := SplitLeafView(v, ci, n, mid).pages;
    EntriesSplice(wp, c, ci, n);
    SplitLeafSameEntries(v, order, ci, n, mid, j, c[..ci]);
    SplitLeafSameEntries(v, order, ci, n, mid, j, c[ci + 1..]);
  }

  lemma SplitLeafEntries(v: View, order: nat, ci: int, n: PageId, mid: nat, j: int)
    requires SpliceFacts(v, ci, n, mid) && ChainOk(v)
    ensures var w := SplitLeafView(v, ci, n, mid);
      Entries(w.pages, w.chain) == Entries(v.pages, v.chain)
  {
    var c := v.chain;
    var m := v.pages[c[ci]];
    EntriesSplit(v.pages, c, ci);
    HalvesEntries(m, mid, n, c[ci]);
    SplitLeafNewEntries(v, order, ci, n, mid, j);
    Regroup(Entries(v.pages, c[..ci]), LeafEntries(LeftLeaf(m, mid, n)),
            LeafEntries(RightLeaf(m, mid, c[ci])), Entries(v.pages, c[ci + 1..]));
  }

  lemma Regroup(a: seq<Entry>, b: seq<Entry>, c: seq<Entry>, d: seq<Entry>)
    ensures a + b + c + d == a + (b + c) + d
  {
  }

  /**
    Splitting full leaf chain[ci] at `mid` leaves the tree pending the
    parent's insertion of the separator (the new page's first key) and
    the new page after the old one, with the same stored pairs.
  */
  lemma SplitLeafPending(v: View, order: nat, ci: int, n: PageId, mid: nat, j: int)
    requires LeafSplittable(v, order, ci, n, mid, j)
    ensures var m := v.pages[v.chain[ci]];
      var w := SplitLeafView(v, ci, n, mid);
      && Pending(w, order, m.parentPageId, j, m.keys[mid], n)
      && w.pages[m.parentPageId] == v.pages[m.parentPageId]
      && Stored(w) == Stored(v)
  {
    LeafSplitFacts(v, order, ci, n, mid, j);
    SplitLeafOk(v, order, ci, n, mid, j);
    SplitLeafEntries(v, order, ci, n, mid, j);
  }
}
