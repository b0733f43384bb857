/**
  Splitting an internal page that holds one separator too many. The left
  half keeps the separators before the middle one and the children up to
  it; the middle separator moves up to the parent and is kept in neither
  half; a new page takes the separators after it and the remaining
  children, which are re-parented to it. Afterwards the tree is again
  `Pending`: the parent still lacks the promoted separator and the new page.
*/
module InternalSplit {
  import opened OptionType
  import opened BufferPool
  import opened BTreeView
  import opened BTreeInsert
  import opened LeafSplit

  /** The page table with every listed page given parent `r`. */
  function Reparent(pages: map<PageId, Node>, ids: seq<PageId>, r: PageId): (t: map<PageId, Node>)
    ensures t.Keys == pages.Keys
    ensures forall q :: q in pages && q in ids ==> t[q] == pages[q].(parentPageId := r)
    ensures forall q :: q in pages && q !in ids ==> t[q] == pages[q]
  {
    map q | q in pages :: if q in ids then pages[q].(parentPageId := r) else pages[q]
  }

  /** The left half of a split internal page: separators before `mid`, children up to `mid`. */
  function LeftHalf(m: Node, mid: nat): Node
    requires mid < |m.keys| && mid + 1 <= |m.children|
  {
    m.(keys := m.keys[..mid], children := m.children[..mid + 1])
  }

  /** The new page: the separators after `mid` and the children after them, under the same parent. */
  function RightHalf(m: Node, mid: nat): Node
    requires mid < |m.keys| && mid + 1 <= |m.children|
  {
    Node(InternalPage, m.keys[mid + 1..], m.children[mid + 1..], [], m.parentPageId, INVALID_PAGE_ID, INVALID_PAGE_ID)
  }

  /** The ranges the children get from each half are those they had from the whole page. */
  lemma ChildRangeHalves(ks: seq<int>, r: Range, mid: nat, i: nat)
    requires mid < |ks| && i <= |ks|
    ensures i <= mid ==> ChildRange(ks[..mid], Range(r.lo, Some(ks[mid])), i) == ChildRange(ks, r, i)
    ensures mid < i ==> ChildRange(ks[mid + 1..], Range(Some(ks[mid]), r.hi), i - mid - 1) == ChildRange(ks, r, i)
  {
  }

  /**
    Internal page p, holding one separator too many, split at `mid`: it
    keeps its range up to the promoted separator keys[mid]; new page `n`
    takes the range from it on, and the children it takes name it as parent.
  */
  ghost function SplitInternalView(v: View, p: PageId, n: PageId, mid: nat): View
    requires p in v.pages && p in v.rng && p in v.rank
    requires mid < |v.pages[p].keys| && |v.pages[p].children| == |v.pages[p].keys| + 1
  {
    var m := v.pages[p];
    var up := m.keys[mid];
    View(Reparent(v.pages, RightHalf(m, mid).children, n)[p := LeftHalf(m, mid)][n := RightHalf(m, mid)],
         v.root,
         if n < v.nextId then v.nextId else n + 1,
         v.rank[n := v.rank[p]],
         v.rng[p := Range(v.rng[p].lo, Some(up))][n := Range(Some(up), v.rng[p].hi)],
         v.chain)
  }

  /**
    What an internal split needs: the tree well-formed with internal page
    p holding `order` separators, p not the root and listed as child j of
    its parent, a fresh page id `n`, and the split point `mid` = (order+1)/2.
  */
  ghost predicate InternalSplittable(v: View, order: nat, p: PageId, n: PageId, mid: nat, j: int)
  {
    && TreeOk(v, order, p)
    && p in v.pages && p in v.rng && p in v.rank && p != v.root
    && v.pages[p].pageType == InternalPage
    && 2 <= order && |v.pages[p].keys| == order && |v.pages[p].children| == order + 1
    && mid == (order + 1) / 2
    && n != INVALID_PAGE_ID && n !in v.pages
    && var g := v.pages[p].parentPageId;
    && g in v.pages && |v.pages[g].children| == |v.pages[g].keys| + 1
    && 0 <= j < |v.pages[g].children| && v.pages[g].children[j] == p
  }

  /**
    What the steps of an internal split use, without the rest of the tree:
    the page, its children, its parent, and that none of them is a leaf of
    the chain.
  */
  ghost predicate InternalFacts(v: View, order: nat, p: PageId, n: PageId, mid: nat, j: int)
  {
    && p in v.pages && p in v.rng && p in v.rank && p != v.root
    && INVALID_PAGE_ID < p < v.nextId
    && v.root in v.pages && v.root in v.rank && v.rank[p] <= v.rank[v.root]
    && var m := v.pages[p];
    && m.pageType == InternalPage
    && |m.keys| == order && |m.children| == order + 1
    && 2 <= order && mid == (order + 1) / 2 && 1 <= mid < order
    && Sorted(m.keys) && NonEmpty(v.rng[p])
    && (v.rng[p].lo.Some? ==> v.rng[p].lo.value < m.keys[mid])
    && (v.rng[p].hi.Some? ==> m.keys[mid] < v.rng[p].hi.value)
    && (forall i :: 0 <= i < |m.children| ==> ChildOk(v, p, i))
    && (forall a, b :: 0 <= a < b < |m.children| ==> m.children[a] != m.children[b])
    && n != INVALID_PAGE_ID && n !in v.pages
    && var g := m.parentPageId;
    && g in v.pages && g in v.rank && g in v.rng && g != p && g != INVALID_PAGE_ID
    && v.pages[g].pageType == InternalPage
    && |v.pages[g].children| == |v.pages[g].keys| + 1
    && 0 <= j < |v.pages[g].children| && v.pages[g].children[j] == p && ChildOk(v, g, j)
    && (forall i :: 0 <= i < |v.pages[g].children| && v.pages[g].children[i] == p ==> i == j)
    && (forall i :: 0 <= i < |v.chain| ==> v.chain[i] != n && v.chain[i] != p && v.chain[i] != g)
  }

  /** The split page's view with its parent given the promoted separator and the new page. */
  ghost function SplitInternalTree(v: View, order: nat, p: PageId, n: PageId, mid: nat, j: int): View
    requires InternalFacts(v, order, p, n, mid, j)
  {
    var w := SplitInternalView(v, p, n, mid);
    var m := v.pages[p];
    w.(pages := w.pages[m.parentPageId := WithChild(v.pages[m.parentPageId], j, m.keys[mid], n)])
  }

  lemma InternalSplitFacts(v: View, order: nat, p: PageId, n: PageId, mid: nat, j: int)
    requires InternalSplittable(v, order, p, n, mid, j)
    ensures InternalFacts(v, order, p, n, mid, j)
  {
    var m := v.pages[p];
    var g := m.parentPageId;
    assert DownOk(v, p, order, p);
    assert ParentOk(v, p);
    assert DownOk(v, g, order, p);
    assert ChildOk(v, g, j);
    assert ChildOk(v, p, 0) && ChildOk(v, p, order);
    assert DownOk(v, m.children[0], order, p) && DownOk(v, m.children[order], order, p);
    forall i | 0 <= i < |v.pages[g].children| && v.pages[g].children[i] == p ensures i == j {
      if i < j { ChildUnique(v, order, p, g, i, j); }
      if j < i { ChildUnique(v, order, p, g, j, i); }
    }
    forall a, b | 0 <= a < b < |m.children| ensures m.children[a] != m.children[b] {
      ChildUnique(v, order, p, p, a, b);
    }
    forall i | 0 <= i < |v.chain| ensures v.chain[i] != n && v.chain[i] != p && v.chain[i] != g {
      assert LinkOk(v, i);
    }
  }

  // The pages of the split view, one by one.

  lemma SplitInternalParentPage(v: View, order: nat, p: PageId, n: PageId, mid: nat, j: int)
    requires InternalFacts(v, order, p, n, mid, j)
    ensures var m := v.pages[p];
      var g := m.parentPageId;
      var w := SplitInternalTree(v, order, p, n, mid, j);
      && g in w.pages && g in w.rank && g in w.rng
      && w.pages[g] == WithChild(v.pages[g], j, m.keys[mid], n)
      && w.rank[g] == v.rank[g] && w.rng[g] == v.rng[g]
  {
  }

  /** The two halves, at p and at n, with the ranks and ranges either side of the promoted separator. */
  lemma SplitInternalHalves(v: View, order: nat, p: PageId, n: PageId, mid: nat, j: int)
    requires InternalFacts(v, order, p, n, mid, j)
    ensures var m := v.pages[p];
      var w := SplitInternalTree(v, order, p, n, mid, j);
      && p in w.pages && n in w.pages && p in w.rank && n in w.rank && p in w.rng && n in w.rng
      && w.pages[p] == LeftHalf(m, mid) && w.pages[n] == RightHalf(m, mid)
      && w.rank[p] == v.rank[p] && w.rank[n] == v.rank[p]
      && w.rng[p] == Range(v.rng[p].lo, Some(m.keys[mid]))
      && w.rng[n] == Range(Some(m.keys[mid]), v.rng[p].hi)
      && w.root == v.root && w.chain == v.chain && p < w.nextId && n < w.nextId
  {
  }

  /**
    Any other page keeps every field but its parent, which becomes `n`
    exactly when it is one of the children the new page takes; its rank
    and range are unchanged.
  */
  lemma SplitInternalOther(v: View, order: nat, p: PageId, n: PageId, mid: nat, j: int, q: PageId)
    requires InternalFacts(v, order, p, n, mid, j)
    requires q in v.pages && q != p && q != v.pages[p].parentPageId
    ensures var m := v.pages[p];
      var w := SplitInternalTree(v, order, p, n, mid, j);
      && q in w.pages
      && w.pages[q].pageType == v.pages[q].pageType
      && w.pages[q].keys == v.pages[q].keys && w.pages[q].children == v.pages[q].children
      && w.pages[q].values == v.pages[q].values
      && w.pages[q].nextPageId == v.pages[q].nextPageId && w.pages[q].prevPageId == v.pages[q].prevPageId
      && w.pages[q].parentPageId == (if q in RightHalf(m, mid).children then n else v.pages[q].parentPageId)
      && (q in v.rank ==> q in w.rank && w.rank[q] == v.rank[q])
      && (q in v.rng ==> q in w.rng && w.rng[q] == v.rng[q])
  {
  }

  /** A page whose parent is not p, or that ranks no lower than p, is not one of the children the new page takes. */
  lemma NotMoved(v: View, order: nat, p: PageId, n: PageId, mid: nat, j: int, q: PageId)
    requires InternalFacts(v, order, p, n, mid, j)
    requires q in v.pages
    requires v.pages[q].parentPageId != p || (q in v.rank && v.rank[p] <= v.rank[q])
    ensures q !in RightHalf(v.pages[p], mid).children
  {
    var m := v.pages[p];
    var right := RightHalf(m, mid).children;
    forall i | 0 <= i < |right| ensures right[i] != q {
      assert right[i] == m.children[mid + 1 + i];
      assert ChildOk(v, p, mid + 1 + i);
    }
  }

  lemma SplitInternalRoot(v: View, order: nat, p: PageId, n: PageId, mid: nat, j: int)
    requires InternalFacts(v, order, p, n, mid, j) && RootOk(v)
    ensures RootOk(SplitInternalTree(v, order, p, n, mid, j))
  {
    var g := v.pages[p].parentPageId;
    if v.root == g {
      SplitInternalParentPage(v, order, p, n, mid, j);
    } else {
      NotMoved(v, order, p, n, mid, j, v.root);
      SplitInternalOther(v, order, p, n, mid, j, v.root);
    }
  }

  /** The root keeps its rank. */
  lemma SplitInternalRootRank(v: View, order: nat, p: PageId, n: PageId, mid: nat, j: int)
    requires InternalFacts(v, order, p, n, mid, j)
    ensures var w := SplitInternalTree(v, order, p, n, mid, j);
      v.root in w.rank && w.rank[v.root] == v.rank[v.root] && w.root == v.root
  {
    if v.root == v.pages[p].parentPageId {
      SplitInternalParentPage(v, order, p, n, mid, j);
    } else {
      SplitInternalOther(v, order, p, n, mid, j, v.root);
    }
  }

  // Every page routes its keys to the right children.

  lemma SplitInternalParentSelf(v: View, order: nat, p: PageId, n: PageId, mid: nat, j: int)
    requires InternalFacts(v, order, p, n, mid, j)
    requires SelfOk(v, v.pages[p].parentPageId, order, p)
    ensures var g := v.pages[p].parentPageId;
      var w := SplitInternalTree(v, order, p, n, mid, j);
      SelfOk(w, g, order, g) && |w.pages[g].children| == |v.pages[g].children| + 1
  {
    var m := v.pages[p];
    var g := m.parentPageId;
    SeparatorFits(v.pages[g].keys, v.rng[g], j, m.keys[mid]);
    SplitInternalParentPage(v, order, p, n, mid, j);
    SplitInternalRootRank(v, order, p, n, mid, j);
  }

  /** Slots j and j+1 of the parent: the left half and the new page. */
  lemma SplitInternalNewChildren(v: View, order: nat, p: PageId, n: PageId, mid: nat, j: int)
    requires InternalFacts(v, order, p, n, mid, j)
    ensures var g := v.pages[p].parentPageId;
      var w := SplitInternalTree(v, order, p, n, mid, j);
      ChildOk(w, g, j) && ChildOk(w, g, j + 1)
  {
    var m := v.pages[p];
    var g := m.parentPageId;
    ChildRangeInsert(v.pages[g].keys, v.rng[g], j, m.keys[mid], j);
    ChildRangeInsert(v.pages[g].keys, v.rng[g], j, m.keys[mid], j + 1);
    SplitInternalParentPage(v, order, p, n, mid, j);
    SplitInternalHalves(v, order, p, n, mid, j);
  }

  /** Any other slot of the parent holds an old child, unchanged, at its old or next position. */
  lemma SplitInternalOldChild(v: View, order: nat, p: PageId, n: PageId, mid: nat, j: int, i: int, i0: int)
    requires InternalFacts(v, order, p, n, mid, j)
    requires var g := v.pages[p].parentPageId;
      && 0 <= i0 < |v.pages[g].children| && i0 != j && i == (if i0 < j then i0 else i0 + 1)
      && ChildOk(v, g, i0)
    ensures var g := v.pages[p].parentPageId;
      ChildOk(SplitInternalTree(v, order, p, n, mid, j), g, i)
  {
    var m := v.pages[p];
    var g := m.parentPageId;
    var c := v.pages[g].children[i0];
    ChildRangeInsert(v.pages[g].keys, v.rng[g], j, m.keys[mid], i);
    SplitInternalParentPage(v, order, p, n, mid, j);
    NotMoved(v, order, p, n, mid, j, c);
    SplitInternalOther(v, order, p, n, mid, j, c);
  }

  lemma SplitInternalDownParent(v: View, order: nat, p: PageId, n: PageId, mid: nat, j: int)
    requires InternalSplittable(v, order, p, n, mid, j) && InternalFacts(v, order, p, n, mid, j)
    ensures var g := v.pages[p].parentPageId;
      DownOk(SplitInternalTree(v, order, p, n, mid, j), g, order, g)
  {
    var g := v.pages[p].parentPageId;
    var w := SplitInternalTree(v, order, p, n, mid, j);
    assert DownOk(v, g, order, p);
    SplitInternalParentSelf(v, order, p, n, mid, j);
    SplitInternalNewChildren(v, order, p, n, mid, j);
    forall i | 0 <= i < |w.pages[g].children| ensures ChildOk(w, g, i) {
      if i < j {
        SplitInternalOldChild(v, order, p, n, mid, j, i, i);
      } else if j + 1 < i {
        SplitInternalOldChild(v, order, p, n, mid, j, i, i - 1);
      }
    }
  }

  /** A child the left half keeps: same slot, same range, same parent. */
  lemma SplitInternalLeftChild(v: View, order: nat, p: PageId, n: PageId, mid: nat, j: int, i: nat)
    requires InternalFacts(v, order, p, n, mid, j) && i <= mid
    ensures ChildOk(SplitInternalTree(v, order, p, n, mid, j), p, i)
  {
    var m := v.pages[p];
    var c := m.children[i];
    assert ChildOk(v, p, i);
    ChildRangeHalves(m.keys, v.rng[p], mid, i);
    SplitInternalHalves(v, order, p, n, mid, j);
    var right := m.children[mid + 1..];
    forall k | 0 <= k < |right| ensures right[k] != c {
      assert right[k] == m.children[mid + 1 + k];
    }
    SplitInternalOther(v, order, p, n, mid, j, c);
  }

  /** A child the new page takes: its slot shifts by mid+1, its range is unchanged, its parent is n. */
  lemma SplitInternalRightChild(v: View, order: nat, p: PageId, n: PageId, mid: nat, j: int, i: nat)
    requires InternalFacts(v, order, p, n, mid, j) && i < |v.pages[p].children| - mid - 1
    ensures ChildOk(SplitInternalTree(v, order, p, n, mid, j), n, i)
  {
    var m := v.pages[p];
    var c := m.children[mid + 1 + i];
    var right := RightHalf(m, mid);
    assert ChildOk(v, p, mid + 1 + i);
    ChildRangeHalves(m.keys, v.rng[p], mid, mid + 1 + i);
    assert ChildRange(right.keys, Range(Some(m.keys[mid]), v.rng[p].hi), i) == v.rng[c];
    SplitInternalHalves(v, order, p, n, mid, j);
    assert right.children[i] == c;
    SplitInternalOther(v, order, p, n, mid, j, c);
  }

  /** Both halves are well-formed internal pages whose children sit in the right slots. */
  lemma SplitInternalDownHalves(v: View, order: nat, p: PageId, n: PageId, mid: nat, j: int)
    requires InternalFacts(v, order, p, n, mid, j)
    ensures var g := v.pages[p].parentPageId;
      var w := SplitInternalTree(v, order, p, n, mid, j);
      DownOk(w, p, order, g) && DownOk(w, n, order, g)
  {
    var w := SplitInternalTree(v, order, p, n, mid, j);
    SplitInternalHalves(v, order, p, n, mid, j);
    SplitInternalRootRank(v, order, p, n, mid, j);
    forall i | 0 <= i < |w.pages[p].children| ensures ChildOk(w, p, i) {
      SplitInternalLeftChild(v, order, p, n, mid, j, i);
    }
    forall i | 0 <= i < |w.pages[n].children| ensures ChildOk(w, n, i) {
      SplitInternalRightChild(v, order, p, n, mid, j, i);
    }
  }

  /** A child of a page other than p and its parent keeps its slot. */
  lemma SplitInternalOtherChild(v: View, order: nat, p: PageId, n: PageId, mid: nat, j: int, q: PageId, i: nat)
    requires InternalFacts(v, order, p, n, mid, j)
    requires q in v.pages && q != p && q != v.pages[p].parentPageId
    requires ChildOk(v, q, i)
    ensures ChildOk(SplitInternalTree(v, order, p, n, mid, j), q, i)
  {
    var g := v.pages[p].parentPageId;
    var c := v.pages[q].children[i];
    SplitInternalOther(v, order, p, n, mid, j, q);
    if c == g {
      SplitInternalParentPage(v, order, p, n, mid, j);
    } else {
      NotMoved(v, order, p, n, mid, j, c);
      SplitInternalOther(v, order, p, n, mid, j, c);
    }
  }

  lemma SplitInternalDownOther(v: View, order: nat, p: PageId, n: PageId, mid: nat, j: int, q: PageId)
    requires InternalFacts(v, order, p, n, mid, j)
    requires q in v.pages && q != p && q != v.pages[p].parentPageId
    requires DownOk(v, q, order, p)
    ensures var g := v.pages[p].parentPageId;
      DownOk(SplitInternalTree(v, order, p, n, mid, j), q, order, g)
  {
    var w := SplitInternalTree(v, order, p, n, mid, j);
    SplitInternalOther(v, order, p, n, mid, j, q);
    SplitInternalRootRank(v, order, p, n, mid, j);
    if v.pages[q].pageType == InternalPage {
      forall i | 0 <= i < |w.pages[q].children| ensures ChildOk(w, q, i) {
        assert ChildOk(v, q, i);
        SplitInternalOtherChild(v, order, p, n, mid, j, q, i);
      }
    }
  }

  lemma SplitInternalDown(v: View, order: nat, p: PageId, n: PageId, mid: nat, j: int)
    requires InternalSplittable(v, order, p, n, mid, j) && InternalFacts(v, order, p, n, mid, j)
    ensures var g := v.pages[p].parentPageId;
      var w := SplitInternalTree(v, order, p, n, mid, j);
      forall q :: q in w.pages ==> DownOk(w, q, order, g)
  {
    var g := v.pages[p].parentPageId;
    var w := SplitInternalTree(v, order, p, n, mid, j);
    SplitInternalDownParent(v, order, p, n, mid, j);
    SplitInternalDownHalves(v, order, p, n, mid, j);
    forall q | q in w.pages ensures DownOk(w, q, order, g) {
      if q != g && q != p && q != n {
        assert DownOk(v, q, order, p);
        SplitInternalDownOther(v, order, p, n, mid, j, q);
      }
    }
  }

  // Every page but the root is listed by its parent.

  /** An internal page other than p still lists each child it listed. */
  lemma SplitInternalStillLists(v: View, order: nat, p: PageId, n: PageId, mid: nat, j: int, q: PageId, c: PageId)
    requires InternalFacts(v, order, p, n, mid, j)
    requires q in v.pages && q != p && v.pages[q].pageType == InternalPage && c in v.pages[q].children
    ensures var w := SplitInternalTree(v, order, p, n, mid, j);
      q in w.pages && w.pages[q].pageType == InternalPage && c in w.pages[q].children
  {
    var g := v.pages[p].parentPageId;
    var w := SplitInternalTree(v, order, p, n, mid, j);
    if q == g {
      SplitInternalParentPage(v, order, p, n, mid, j);
      var i :| 0 <= i < |v.pages[g].children| && v.pages[g].children[i] == c;
      assert w.pages[g].children[if i <= j then i else i + 1] == c;
    } else {
      SplitInternalOther(v, order, p, n, mid, j, q);
    }
  }

  /** A child in a well-formed slot of an internal page is listed by its parent. */
  lemma ChildListedBy(w: View, q: PageId, i: nat, c: PageId)
    requires ChildOk(w, q, i) && w.pages[q].pageType == InternalPage && w.pages[q].children[i] == c
    ensures ParentOk(w, c)
  {
  }

  /** A page that was p's child is listed by the half that now holds it. */
  lemma SplitInternalLeftListed(v: View, order: nat, p: PageId, n: PageId, mid: nat, j: int, i: nat)
    requires InternalFacts(v, order, p, n, mid, j) && i <= mid
    ensures ParentOk(SplitInternalTree(v, order, p, n, mid, j), v.pages[p].children[i])
  {
    var m := v.pages[p];
    var left := LeftHalf(m, mid);
    assert left.children[i] == m.children[i];
    SplitInternalHalves(v, order, p, n, mid, j);
    SplitInternalLeftChild(v, order, p, n, mid, j, i);
    ChildListedBy(SplitInternalTree(v, order, p, n, mid, j), p, i, m.children[i]);
  }

  lemma SplitInternalRightListed(v: View, order: nat, p: PageId, n: PageId, mid: nat, j: int, i: nat)
    requires InternalFacts(v, order, p, n, mid, j) && mid < i < |v.pages[p].children|
    ensures ParentOk(SplitInternalTree(v, order, p, n, mid, j), v.pages[p].children[i])
  {
    var m := v.pages[p];
    var right := RightHalf(m, mid);
    assert right.children[i - mid - 1] == m.children[i];
    SplitInternalHalves(v, order, p, n, mid, j);
    SplitInternalRightChild(v, order, p, n, mid, j, i - mid - 1);
    ChildListedBy(SplitInternalTree(v, order, p, n, mid, j), n, i - mid - 1, m.children[i]);
  }

  /** A page that was p's child is listed by the half that now holds it. */
  lemma SplitInternalChildListed(v: View, order: nat, p: PageId, n: PageId, mid: nat, j: int, c: PageId)
    requires InternalFacts(v, order, p, n, mid, j)
    requires c in v.pages[p].children
    ensures ParentOk(SplitInternalTree(v, order, p, n, mid, j), c)
  {
    var m := v.pages[p];
    var i :| 0 <= i < |m.children| && m.children[i] == c;
    if i <= mid {
      SplitInternalLeftListed(v, order, p, n, mid, j, i);
    } else {
      SplitInternalRightListed(v, order, p, n, mid, j, i);
    }
  }

  lemma SplitInternalParentOf(v: View, order: nat, p: PageId, n: PageId, mid: nat, j: int, q: PageId)
    requires InternalFacts(v, order, p, n, mid, j)
    requires q in v.pages && q != p && ParentOk(v, q)
    ensures ParentOk(SplitInternalTree(v, order, p, n, mid, j), q)
  {
    var g := v.pages[p].parentPageId;
    var gq := v.pages[q].parentPageId;
    if gq == p {
      SplitInternalChildListed(v, order, p, n, mid, j, q);
    } else {
      NotMoved(v, order, p, n, mid, j, q);
      if q == g {
        SplitInternalParentPage(v, order, p, n, mid, j);
      } else {
        SplitInternalOther(v, order, p, n, mid, j, q);
      }
      SplitInternalStillLists(v, order, p, n, mid, j, gq, q);
    }
  }

  lemma SplitInternalParents(v: View, order: nat, p: PageId, n: PageId, mid: nat, j: int)
    requires InternalSplittable(v, order, p, n, mid, j) && InternalFacts(v, order, p, n, mid, j)
    ensures var w := SplitInternalTree(v, order, p, n, mid, j);
      forall q :: q in w.pages && q != w.root ==> ParentOk(w, q)
  {
    var g := v.pages[p].parentPageId;
    var w := SplitInternalTree(v, order, p, n, mid, j);
    SplitInternalParentPage(v, order, p, n, mid, j);
    SplitInternalHalves(v, order, p, n, mid, j);
    forall q | q in w.pages && q != w.root ensures ParentOk(w, q) {
      if q == n {
        assert w.pages[g].children[j + 1] == n;
      } else if q == p {
        assert w.pages[g].children[j] == p;
      } else {
        assert ParentOk(v, q);
        SplitInternalParentOf(v, order, p, n, mid, j, q);
      }
    }
  }

  // The leaf chain is untouched.

  lemma SplitInternalLeaf(v: View, order: nat, p: PageId, n: PageId, mid: nat, j: int, k: int)
    requires InternalFacts(v, order, p, n, mid, j)
    requires 0 <= k < |v.chain| && v.chain[k] in v.pages
    ensures var w := SplitInternalTree(v, order, p, n, mid, j);
      && v.chain[k] in w.pages
      && LeafEntries(w.pages[v.chain[k]]) == LeafEntries(v.pages[v.chain[k]])
      && (LinkOk(v, k) ==> LinkOk(w, k))
      && (LeafOk(v, v.chain[k]) ==> LeafOk(w, v.chain[k]))
  {
    SplitInternalOther(v, order, p, n, mid, j, v.chain[k]);
  }

  lemma SplitInternalLeaves(v: View, order: nat, p: PageId, n: PageId, mid: nat, j: int)
    requires InternalSplittable(v, order, p, n, mid, j) && InternalFacts(v, order, p, n, mid, j)
    ensures LeavesOk(SplitInternalTree(v, order, p, n, mid, j))
  {
    var w := SplitInternalTree(v, order, p, n, mid, j);
    assert ChainOk(v);
    forall k | 0 <= k < |w.chain| ensures w.chain[k] in w.pages && w.chain[k] in w.rng
      && LinkOk(w, k) && LeafOk(w, w.chain[k])
    {
      assert LinkOk(v, k) && LeafOk(v, v.chain[k]);
      SplitInternalLeaf(v, order, p, n, mid, j, k);
    }
  }

  /** After an internal split and the parent's insertion, the tree is well-formed with only the parent possibly full. */
  lemma SplitInternalOk(v: View, order: nat, p: PageId, n: PageId, mid: nat, j: int)
    requires InternalSplittable(v, order, p, n, mid, j) && InternalFacts(v, order, p, n, mid, j)
    ensures TreeOk(SplitInternalTree(v, order, p, n, mid, j), order, v.pages[p].parentPageId)
  {
    SplitInternalRoot(v, order, p, n, mid, j);
    SplitInternalDown(v, order, p, n, mid, j);
    SplitInternalParents(v, order, p, n, mid, j);
    SplitInternalLeaves(v, order, p, n, mid, j);
  }

  lemma SplitInternalEntries(v: View, order: nat, p: PageId, n: PageId, mid: nat, j: int)
    requires InternalFacts(v, order, p, n, mid, j) && ChainOk(v)
    ensures Stored(SplitInternalView(v, p, n, mid)) == Stored(v)
  {
    var w := SplitInternalView(v, p, n, mid);
    forall i | 0 <= i < |v.chain| ensures v.chain[i] in v.pages && v.chain[i] in w.pages
      && LeafEntries(w.pages[v.chain[i]]) == LeafEntries(v.pages[v.chain[i]])
    {
    }
    EntriesFrame(v.pages, w.pages, v.chain);
  }

  /**
    Splitting over-full internal page p at `mid` leaves the tree pending
    the parent's insertion of the promoted separator keys[mid] and the new
    page after p, with the same stored pairs.
  */
  lemma SplitInternalPending(v: View, order: nat, p: PageId, n: PageId, mid: nat, j: int)
    requires InternalSplittable(v, order, p, n, mid, j)
    ensures var m := v.pages[p];
      var w := SplitInternalView(v, p, n, mid);
      && Pending(w, order, m.parentPageId, j, m.keys[mid], n)
      && w.pages[m.parentPageId] == v.pages[m.parentPageId]
      && Stored(w) == Stored(v)
  {
    InternalSplitFacts(v, order, p, n, mid, j);
    NotMoved(v, order, p, n, mid, j, v.pages[p].parentPageId);
    SplitInternalOk(v, order, p, n, mid, j);
    SplitInternalEntries(v, order, p, n, mid, j);
  }
}
