/**
  The abstract reading of the paged B+ tree: which page is the root, which
  pages form the leaf chain, and which key range every page covers. The
  well-formedness predicate `TreeOk` says that the page table really is a
  B+ tree in that reading: internal pages route every key of their range
  to exactly one child (found by comparing against the separators), every
  page's parent link points to the internal page that lists it, ranks
  strictly decrease from parent to child (so descents terminate), leaves
  hold sorted keys within their range and are chained in key order through
  their next/prev links, and no page holds more than order-1 keys.
*/
module BTreeView {
  import opened OptionType
  import opened BufferPool

  /** A half-open key interval [lo, hi); `None` leaves that side unbounded. */
  datatype Range = Range(lo: Option<int>, hi: Option<int>)

  const Everything: Range := Range(None, None)

  predicate InRange(r: Range, k: int)
  {
    (r.lo.Some? ==> r.lo.value <= k) && (r.hi.Some? ==> k < r.hi.value)
  }

  predicate NonEmpty(r: Range)
  {
    r.lo.Some? && r.hi.Some? ==> r.lo.value < r.hi.value
  }

  predicate Sorted(ks: seq<int>)
  {
    forall i, j :: 0 <= i < j < |ks| ==> ks[i] < ks[j]
  }

  function InsertAt<T>(s: seq<T>, i: nat, x: T): (r: seq<T>)
    requires i <= |s|
    ensures |r| == |s| + 1 && r[i] == x
    ensures forall j :: 0 <= j < i ==> r[j] == s[j]
    ensures forall j :: i < j < |r| ==> r[j] == s[j - 1]
  {
    s[..i] + [x] + s[i..]
  }

  /** The range an internal page with these separators gives its i-th child. */
  function ChildRange(keys: seq<int>, r: Range, i: nat): Range
    requires i <= |keys|
  {
    Range(if i == 0 then r.lo else Some(keys[i - 1]),
          if i == |keys| then r.hi else Some(keys[i]))
  }

  /**
    The page table together with the reading of it the proofs use: the
    root, the allocator's next id, a rank per page (0 for leaves' lower
    bound, strictly larger at parents), a key range per page, and the leaf
    chain from the first leaf to the last.
  */
  datatype View = View(
    pages: map<PageId, Node>,
    root: PageId,
    nextId: PageId,
    rank: map<PageId, nat>,
    rng: map<PageId, Range>,
    chain: seq<PageId>)

  /** The page may hold `order` keys when it is the one page being overfilled, else order-1. */
  predicate FitsIn(n: Node, p: PageId, order: nat, over: PageId)
  {
    |n.keys| + (if p == over then 0 else 1) <= order
  }

  /** What a page says about itself: id, rank, range, key count, order, and its arrays. */
  ghost predicate SelfOk(v: View, p: PageId, order: nat, over: PageId)
  {
    && p in v.pages && p in v.rank && p in v.rng
    && INVALID_PAGE_ID < p < v.nextId
    && v.root in v.rank && v.rank[p] <= v.rank[v.root]
    && NonEmpty(v.rng[p])
    && var n := v.pages[p];
    && FitsIn(n, p, order, over)
    && Sorted(n.keys)
    && (n.pageType == LeafPage ==> p in v.chain)
    && (n.pageType == InternalPage ==> |n.children| == |n.keys| + 1)
  }

  /** The i-th child of internal page p exists, points back to p, ranks lower, and covers its slice of p's range. */
  ghost predicate ChildOk(v: View, p: PageId, i: nat)
  {
    && p in v.pages && p in v.rank && p in v.rng
    && i < |v.pages[p].children| && i <= |v.pages[p].keys|
    && var c := v.pages[p].children[i];
    && c in v.pages && c in v.rank && c in v.rng
    && v.rank[c] < v.rank[p]
    && v.pages[c].parentPageId == p
    && v.rng[c] == ChildRange(v.pages[p].keys, v.rng[p], i)
  }

  ghost predicate DownOk(v: View, p: PageId, order: nat, over: PageId)
  {
    && SelfOk(v, p, order, over)
    && (v.pages[p].pageType == InternalPage ==>
          forall i :: 0 <= i < |v.pages[p].children| ==> ChildOk(v, p, i))
  }

  /** A non-root page's parent link names an internal page that lists it as a child. */
  ghost predicate ParentOk(v: View, p: PageId)
  {
    && p in v.pages
    && var q := v.pages[p].parentPageId;
    && q in v.pages && v.pages[q].pageType == InternalPage
    && p in v.pages[q].children
  }

  /** The i-th leaf of the chain: its next/prev links and its range meet its neighbours'. */
  ghost predicate LinkOk(v: View, i: int)
  {
    && 0 <= i < |v.chain|
    && var p := v.chain[i];
    && p != INVALID_PAGE_ID && p in v.pages && p in v.rng
    && v.pages[p].pageType == LeafPage
    && v.pages[p].nextPageId == (if i + 1 < |v.chain| then v.chain[i + 1] else INVALID_PAGE_ID)
    && v.pages[p].prevPageId == (if 0 < i then v.chain[i - 1] else INVALID_PAGE_ID)
    && (i == 0 ==> v.rng[p].lo.None?)
    && (i + 1 == |v.chain| ==> v.rng[p].hi.None?)
    && (i + 1 < |v.chain| ==>
          v.rng[p].hi.Some? && v.chain[i + 1] in v.rng && v.rng[v.chain[i + 1]].lo == v.rng[p].hi)
  }

  ghost predicate ChainOk(v: View)
  {
    && 0 < |v.chain|
    && (forall i :: 0 <= i < |v.chain| ==> v.chain[i] in v.pages && v.chain[i] in v.rng)
    && (forall i, j :: 0 <= i < j < |v.chain| ==> v.chain[i] != v.chain[j])
    && (forall i {:trigger LinkOk(v, i)} :: 0 <= i < |v.chain| ==> LinkOk(v, i))
  }

  ghost predicate RootOk(v: View)
  {
    && v.root in v.pages && v.root in v.rng && v.root in v.rank
    && v.rng[v.root] == Everything
    && v.pages[v.root].parentPageId == INVALID_PAGE_ID
  }

  /** A leaf of the chain: one value per key, keys ascending and inside its range. */
  ghost predicate LeafOk(v: View, p: PageId)
  {
    && p in v.pages && p in v.rng
    && var n := v.pages[p];
    && n.pageType == LeafPage
    && |n.values| == |n.keys| && Sorted(n.keys) && NonEmpty(v.rng[p])
    && forall i :: 0 <= i < |n.keys| ==> InRange(v.rng[p], n.keys[i])
  }

  ghost predicate LeavesOk(v: View)
  {
    && ChainOk(v)
    && forall i {:trigger LeafOk(v, v.chain[i])} :: 0 <= i < |v.chain| ==> LeafOk(v, v.chain[i])
  }

  /**
    The page table is a B+ tree of this order, except that page `over`
    (when it is a page) may hold one key too many.
  */
  ghost predicate TreeOk(v: View, order: nat, over: PageId)
  {
    && 2 <= order
    && RootOk(v)
    && (forall p {:trigger DownOk(v, p, order, over)} :: p in v.pages ==> DownOk(v, p, order, over))
    && (forall p {:trigger ParentOk(v, p)} :: p in v.pages && p != v.root ==> ParentOk(v, p))
    && LeavesOk(v)
  }

  /** Internal page n after `key` is placed at separator position j and `child` right after child j. */
  function WithChild(n: Node, j: nat, key: int, child: PageId): (m: Node)
    requires j <= |n.keys| && j < |n.children|
    ensures m.pageType == n.pageType && m.parentPageId == n.parentPageId
    ensures m.nextPageId == n.nextPageId && m.prevPageId == n.prevPageId && m.values == n.values
  {
    n.(keys := InsertAt(n.keys, j, key), children := InsertAt(n.children, j + 1, child))
  }

  /**
    The state between a split and the insertion into the parent: the tree
    is well-formed once page p receives separator `key` at position j and
    the new page `child` right after its j-th child.
  */
  ghost predicate Pending(v: View, order: nat, p: PageId, j: nat, key: int, child: PageId)
  {
    && p in v.pages
    && j <= |v.pages[p].keys| && j < |v.pages[p].children|
    && TreeOk(v.(pages := v.pages[p := WithChild(v.pages[p], j, key, child)]), order, p)
  }

  // ---------------------------------------------------------------------
  // The stored pairs: the leaves' entries read along the leaf chain.
  // ---------------------------------------------------------------------

  datatype Entry = Entry(key: int, value: int)

  /** A leaf's key/value pairs in slot order. */
  function LeafEntries(n: Node): (es: seq<Entry>)
    ensures |n.values| == |n.keys| ==> |es| == |n.keys|
    ensures |es| <= |n.keys| && |es| <= |n.values|
    ensures forall i :: 0 <= i < |es| ==> es[i] == Entry(n.keys[i], n.values[i])
  {
    if |n.values| < |n.keys| then []
    else seq(|n.keys|, i requires 0 <= i < |n.keys| => Entry(n.keys[i], n.values[i]))
  }

  /** The entries of the listed leaves, in list order. */
  ghost function Entries(pages: map<PageId, Node>, ids: seq<PageId>): seq<Entry>
    decreases |ids|
  {
    if ids == [] then []
    else
      var last := ids[|ids| - 1];
      Entries(pages, ids[..|ids| - 1]) + (if last in pages then LeafEntries(pages[last]) else [])
  }

  predicate SortedEntries(es: seq<Entry>)
  {
    forall i, j :: 0 <= i < j < |es| ==> es[i].key < es[j].key
  }

  predicate AllIn(es: seq<Entry>, r: Range)
  {
    forall i :: 0 <= i < |es| ==> InRange(r, es[i].key)
  }

  /** Every key lies below the bound; with no bound (minus infinity) there are none. */
  predicate AllBelow(es: seq<Entry>, b: Option<int>)
  {
    forall i :: 0 <= i < |es| ==> b.Some? && es[i].key < b.value
  }

  predicate AllAbove(es: seq<Entry>, e: int)
  {
    forall i :: 0 <= i < |es| ==> e < es[i].key
  }

  /** Every key lies at or above the bound; with no bound (plus infinity) there are none. */
  predicate AllAtLeast(es: seq<Entry>, b: Option<int>)
  {
    forall i :: 0 <= i < |es| ==> b.Some? && b.value <= es[i].key
  }

  /** The key-to-value map of a list of entries (a later entry wins). */
  ghost function ContentsOf(es: seq<Entry>): map<int, int>
    decreases |es|
  {
    if es == [] then map[]
    else ContentsOf(es[..|es| - 1])[es[|es| - 1].key := es[|es| - 1].value]
  }

  /** The entries with startKey <= key <= endKey, in order. */
  function InInterval(es: seq<Entry>, startKey: int, endKey: int): (r: seq<Entry>)
    decreases |es|
  {
    if es == [] then []
    else
      var x := es[|es| - 1];
      InInterval(es[..|es| - 1], startKey, endKey) + (if startKey <= x.key <= endKey then [x] else [])
  }

  // ---------------------------------------------------------------------
  // Lemmas about entries, their contents and the interval filter.
  // ---------------------------------------------------------------------

  lemma {:induction false} EntriesAppend(pages: map<PageId, Node>, a: seq<PageId>, b: seq<PageId>)
    ensures Entries(pages, a + b) == Entries(pages, a) + Entries(pages, b)
    decreases |b|
  {
    if b == [] {
      assert a + b == a;
    } else {
      var b' := b[..|b| - 1];
      var last := b[|b| - 1];
      var tail := if last in pages then LeafEntries(pages[last]) else [];
      assert (a + b)[..|a + b| - 1] == a + b';
      assert (a + b)[|a + b| - 1] == last;
      assert Entries(pages, a + b) == Entries(pages, a + b') + tail;
      assert Entries(pages, b) == Entries(pages, b') + tail;
      EntriesAppend(pages, a, b');
    }
  }

  lemma EntriesSingle(pages: map<PageId, Node>, id: PageId)
    requires id in pages
    ensures Entries(pages, [id]) == LeafEntries(pages[id])
  {
    assert [id][..0] == [];
  }

  /** Only the listed leaves' keys and values matter. */
  lemma {:induction false} EntriesFrame(pages: map<PageId, Node>, pages': map<PageId, Node>, ids: seq<PageId>)
    requires forall i :: 0 <= i < |ids| ==> ids[i] in pages && ids[i] in pages'
    requires forall i :: 0 <= i < |ids| ==> LeafEntries(pages'[ids[i]]) == LeafEntries(pages[ids[i]])
    ensures Entries(pages', ids) == Entries(pages, ids)
    decreases |ids|
  {
    if ids != [] {
      EntriesFrame(pages, pages', ids[..|ids| - 1]);
    }
  }

  lemma {:induction false} ContentsOfAppend(a: seq<Entry>, b: seq<Entry>)
    ensures ContentsOf(a + b) == ContentsOf(a) + ContentsOf(b)
    decreases |b|
  {
    if b == [] {
      assert a + b == a;
    } else {
      var b' := b[..|b| - 1];
      assert (a + b)[..|a + b| - 1] == a + b';
      ContentsOfAppend(a, b');
    }
  }

  /** A key is stored exactly when some entry carries it. */
  lemma {:induction false} ContentsOfKeys(es: seq<Entry>, k: int)
    ensures k in ContentsOf(es) <==> exists i :: 0 <= i < |es| && es[i].key == k
    decreases |es|
  {
    if es != [] {
      var es' := es[..|es| - 1];
      ContentsOfKeys(es', k);
      if k in ContentsOf(es') {
        var i :| 0 <= i < |es'| && es'[i].key == k;
        assert es[i].key == k;
      }
      if i :| 0 <= i < |es| && es[i].key == k {
        if i < |es'| { assert es'[i].key == k; }
      }
    }
  }

  /** With keys in ascending order, each entry's key maps to that entry's value. */
  lemma {:induction false} ContentsOfSorted(es: seq<Entry>, i: nat)
    requires SortedEntries(es) && i < |es|
    ensures es[i].key in ContentsOf(es) && ContentsOf(es)[es[i].key] == es[i].value
    decreases |es|
  {
    var es' := es[..|es| - 1];
    if i < |es'| {
      ContentsOfSorted(es', i);
      assert es[i].key < es[|es| - 1].key;
    }
  }

  lemma {:induction false} InIntervalAppend(a: seq<Entry>, b: seq<Entry>, s: int, e: int)
    ensures InInterval(a + b, s, e) == InInterval(a, s, e) + InInterval(b, s, e)
    decreases |b|
  {
    if b == [] {
      assert a + b == a;
    } else {
      var b' := b[..|b| - 1];
      assert (a + b)[..|a + b| - 1] == a + b';
      InIntervalAppend(a, b', s, e);
    }
  }

  /** Entries all outside [s, e] contribute nothing. */
  lemma {:induction false} InIntervalNone(es: seq<Entry>, s: int, e: int)
    requires forall i :: 0 <= i < |es| ==> es[i].key < s || e < es[i].key
    ensures InInterval(es, s, e) == []
    decreases |es|
  {
    if es != [] {
      InIntervalNone(es[..|es| - 1], s, e);
    }
  }

  /** The interval query keeps exactly the in-range entries, in their order. */
  lemma {:induction false} InIntervalMembers(es: seq<Entry>, s: int, e: int, x: Entry)
    ensures x in InInterval(es, s, e) <==> x in es && s <= x.key <= e
    decreases |es|
  {
    if es != [] {
      InIntervalMembers(es[..|es| - 1], s, e, x);
      assert es == es[..|es| - 1] + [es[|es| - 1]];
    }
  }

  lemma {:induction false} InIntervalSorted(es: seq<Entry>, s: int, e: int)
    requires SortedEntries(es)
    ensures SortedEntries(InInterval(es, s, e))
    decreases |es|
  {
    if es != [] {
      var es' := es[..|es| - 1];
      var x := es[|es| - 1];
      InIntervalSorted(es', s, e);
      var r' := InInterval(es', s, e);
      forall y | y in r' ensures y.key < x.key {
        InIntervalMembers(es', s, e, y);
      }
    }
  }

  // ---------------------------------------------------------------------
  // Lemmas about the leaf chain of a well-formed tree.
  // ---------------------------------------------------------------------

  /** The few facts about one leaf of the chain that a scan needs. */
  lemma LeafShape(v: View, i: int)
    requires LeavesOk(v) && 0 <= i < |v.chain|
    ensures v.chain[i] != INVALID_PAGE_ID && v.chain[i] in v.pages
    ensures |v.pages[v.chain[i]].values| == |v.pages[v.chain[i]].keys|
  {
    assert LinkOk(v, i);
    assert LeafOk(v, v.chain[i]);
  }

  /** What the invariant says about the i-th leaf of the chain. */
  lemma LeafAt(v: View, i: int)
    requires LeavesOk(v) && 0 <= i < |v.chain|
    ensures v.chain[i] in v.pages && v.chain[i] in v.rng
    ensures v.pages[v.chain[i]].pageType == LeafPage
    ensures |v.pages[v.chain[i]].values| == |v.pages[v.chain[i]].keys|
    ensures Sorted(v.pages[v.chain[i]].keys)
    ensures AllIn(LeafEntries(v.pages[v.chain[i]]), v.rng[v.chain[i]])
    ensures SortedEntries(LeafEntries(v.pages[v.chain[i]]))
    ensures NonEmpty(v.rng[v.chain[i]]) && LinkOk(v, i)
    ensures v.chain[i] != INVALID_PAGE_ID
  {
    assert LinkOk(v, i);
    assert LeafOk(v, v.chain[i]);
  }

  /** Two ordered runs of entries in adjacent ranges join into one ordered run. */
  lemma JoinRuns(front: seq<Entry>, rf: Range, back: seq<Entry>, rb: Range)
    requires SortedEntries(front) && AllIn(front, rf)
    requires SortedEntries(back) && AllIn(back, rb)
    requires rf.hi.Some? && rb.lo == rf.hi
    requires NonEmpty(rb) && (rf.lo.Some? ==> rf.lo.value < rf.hi.value)
    ensures SortedEntries(front + back) && AllIn(front + back, Range(rf.lo, rb.hi))
  {
    var all := front + back;
    forall i, j | 0 <= i < j < |all| ensures all[i].key < all[j].key {
      if j < |front| {
      } else if i < |front| {
        assert InRange(rf, front[i].key) && InRange(rb, back[j - |front|].key);
      } else {
        assert all[i] == back[i - |front|] && all[j] == back[j - |front|];
      }
    }
    forall i | 0 <= i < |all| ensures InRange(Range(rf.lo, rb.hi), all[i].key) {
      if i < |front| {
        assert InRange(rf, front[i].key);
      } else {
        assert InRange(rb, back[i - |front|].key);
      }
    }
  }

  /** Leaves listed in `ids` are sorted within their ranges. */
  ghost predicate RunLeaves(pages: map<PageId, Node>, rng: map<PageId, Range>, ids: seq<PageId>)
  {
    forall k :: 0 <= k < |ids| ==>
      && ids[k] in pages && ids[k] in rng && NonEmpty(rng[ids[k]])
      && SortedEntries(LeafEntries(pages[ids[k]])) && AllIn(LeafEntries(pages[ids[k]]), rng[ids[k]])
  }

  /** Consecutive leaves listed in `ids` have ranges that meet. */
  ghost predicate RunLinks(rng: map<PageId, Range>, ids: seq<PageId>)
  {
    forall k, l {:trigger ids[k], ids[l]} :: 0 <= k && l == k + 1 && l < |ids| ==>
      ids[k] in rng && ids[l] in rng && rng[ids[k]].hi.Some? && rng[ids[l]].lo == rng[ids[k]].hi
  }

  ghost predicate Run(pages: map<PageId, Node>, rng: map<PageId, Range>, ids: seq<PageId>)
  {
    RunLeaves(pages, rng, ids) && RunLinks(rng, ids)
  }

  lemma {:induction false} RunEntries(pages: map<PageId, Node>, rng: map<PageId, Range>, ids: seq<PageId>)
    requires 0 < |ids| && Run(pages, rng, ids)
    ensures SortedEntries(Entries(pages, ids))
    ensures AllIn(Entries(pages, ids), Range(rng[ids[0]].lo, rng[ids[|ids| - 1]].hi))
    ensures rng[ids[0]].lo.Some? && rng[ids[|ids| - 1]].hi.Some? ==>
              rng[ids[0]].lo.value < rng[ids[|ids| - 1]].hi.value
    decreases |ids|
  {
    var n := |ids|;
    var leaf := LeafEntries(pages[ids[n - 1]]);
    var front := ids[..n - 1];
    assert Entries(pages, ids) == Entries(pages, front) + leaf;
    if n > 1 {
      assert Run(pages, rng, front) by {
        forall k, l | 0 <= k && l == k + 1 && l < |front|
          ensures front[k] in rng && front[l] in rng && rng[front[k]].hi.Some? && rng[front[l]].lo == rng[front[k]].hi
        {
          assert front[k] == ids[k] && front[l] == ids[l];
        }
      }
      RunEntries(pages, rng, front);
      assert ids[n - 1] in rng && ids[n - 2] in rng;
      JoinRuns(Entries(pages, front), Range(rng[ids[0]].lo, rng[ids[n - 2]].hi), leaf, rng[ids[n - 1]]);
    }
  }

  /**
    The entries of leaves m..n-1 of the chain are in ascending key order and
    lie in the range from leaf m's lower bound to leaf n-1's upper bound.
  */
  lemma ChainRunLeaves(v: View, m: int, n: int)
    requires LeavesOk(v) && 0 <= m <= n <= |v.chain|
    ensures RunLeaves(v.pages, v.rng, v.chain[m..n])
  {
    var ids := v.chain[m..n];
    forall k | 0 <= k < |ids|
      ensures ids[k] in v.pages && ids[k] in v.rng && NonEmpty(v.rng[ids[k]])
      ensures SortedEntries(LeafEntries(v.pages[ids[k]])) && AllIn(LeafEntries(v.pages[ids[k]]), v.rng[ids[k]])
    {
      LeafAt(v, m + k);
    }
  }

  lemma ChainRunLinks(v: View, m: int, n: int)
    requires LeavesOk(v) && 0 <= m <= n <= |v.chain|
    ensures RunLinks(v.rng, v.chain[m..n])
  {
    var ids := v.chain[m..n];
    forall k, l | 0 <= k && l == k + 1 && l < |ids|
      ensures ids[k] in v.rng && ids[l] in v.rng && v.rng[ids[k]].hi.Some? && v.rng[ids[l]].lo == v.rng[ids[k]].hi
    {
      assert LinkOk(v, m + k);
    }
  }

  /**
    The entries of leaves m..n-1 of the chain are in ascending key order and
    lie in the range from leaf m's lower bound to leaf n-1's upper bound.
  */
  lemma ChainSegment(v: View, m: int, n: int)
    requires LeavesOk(v) && 0 <= m < n <= |v.chain|
    ensures SortedEntries(Entries(v.pages, v.chain[m..n]))
    ensures AllIn(Entries(v.pages, v.chain[m..n]), Range(v.rng[v.chain[m]].lo, v.rng[v.chain[n - 1]].hi))
  {
    ChainRunLeaves(v, m, n);
    ChainRunLinks(v, m, n);
    RunEntries(v.pages, v.rng, v.chain[m..n]);
  }

  /** The chain's entries are those before leaf ci, then leaf ci's, then those after it. */
  lemma {:induction false} EntriesSplit(pages: map<PageId, Node>, c: seq<PageId>, ci: int)
    requires 0 <= ci < |c| && c[ci] in pages
    ensures Entries(pages, c) == Entries(pages, c[..ci]) + LeafEntries(pages[c[ci]]) + Entries(pages, c[ci + 1..])
  {
    assert c == c[..ci] + [c[ci]] + c[ci + 1..];
    EntriesAppend(pages, c[..ci] + [c[ci]], c[ci + 1..]);
    EntriesAppend(pages, c[..ci], [c[ci]]);
    EntriesSingle(pages, c[ci]);
  }

  lemma BelowUpper(es: seq<Entry>, r: Range)
    requires AllIn(es, r) && r.hi.Some?
    ensures AllBelow(es, r.hi)
  {
    forall i | 0 <= i < |es| ensures es[i].key < r.hi.value {
      assert InRange(r, es[i].key);
    }
  }

  lemma AboveLower(es: seq<Entry>, r: Range)
    requires AllIn(es, r) && r.lo.Some?
    ensures AllAtLeast(es, r.lo)
  {
    forall i | 0 <= i < |es| ensures r.lo.value <= es[i].key {
      assert InRange(r, es[i].key);
    }
  }

  /** Entries of the leaves before leaf ci lie below its range. */
  lemma EntriesBefore(v: View, ci: int)
    requires LeavesOk(v) && 0 <= ci < |v.chain|
    ensures AllBelow(Entries(v.pages, v.chain[..ci]), v.rng[v.chain[ci]].lo)
  {
    if 0 < ci {
      ChainSegment(v, 0, ci);
      assert LinkOk(v, ci - 1);
      assert v.chain[..ci] == v.chain[0..ci];
      BelowUpper(Entries(v.pages, v.chain[0..ci]), Range(v.rng[v.chain[0]].lo, v.rng[v.chain[ci - 1]].hi));
    } else {
      assert v.chain[..ci] == [];
    }
  }

  /** Entries of the leaves after leaf ci lie at or above its range. */
  lemma EntriesAfter(v: View, ci: int)
    requires LeavesOk(v) && 0 <= ci < |v.chain|
    ensures AllAtLeast(Entries(v.pages, v.chain[ci + 1..]), v.rng[v.chain[ci]].hi)
  {
    var n := |v.chain|;
    if ci + 1 < n {
      ChainSegment(v, ci + 1, n);
      assert LinkOk(v, ci);
      assert v.chain[ci + 1..] == v.chain[ci + 1..n];
      AboveLower(Entries(v.pages, v.chain[ci + 1..n]), Range(v.rng[v.chain[ci + 1]].lo, v.rng[v.chain[n - 1]].hi));
    } else {
      assert v.chain[ci + 1..] == [];
    }
  }

  /** All stored entries, read along the chain, are in ascending key order. */
  lemma EntriesSorted(v: View)
    requires LeavesOk(v)
    ensures SortedEntries(Entries(v.pages, v.chain))
  {
    ChainSegment(v, 0, |v.chain|);
    assert v.chain[0..|v.chain|] == v.chain;
  }

  /**
    The chain's entries split around leaf ci: those before it lie below its
    range, those after it at or above its range.
  */
  lemma EntriesAround(v: View, ci: int)
    requires LeavesOk(v) && 0 <= ci < |v.chain|
    ensures Entries(v.pages, v.chain) ==
              Entries(v.pages, v.chain[..ci]) + LeafEntries(v.pages[v.chain[ci]]) + Entries(v.pages, v.chain[ci + 1..])
    ensures AllBelow(Entries(v.pages, v.chain[..ci]), v.rng[v.chain[ci]].lo)
    ensures AllAtLeast(Entries(v.pages, v.chain[ci + 1..]), v.rng[v.chain[ci]].hi)
  {
    EntriesSplit(v.pages, v.chain, ci);
    EntriesBefore(v, ci);
    EntriesAfter(v, ci);
  }

  /** The stored pairs of a well-formed tree. */
  ghost function Stored(v: View): map<int, int>
  {
    ContentsOf(Entries(v.pages, v.chain))
  }

  /** Keys outside every entry of a list are not stored by it. */
  lemma ContentsOfMissing(es: seq<Entry>, k: int)
    requires forall i :: 0 <= i < |es| ==> es[i].key != k
    ensures k !in ContentsOf(es)
  {
    ContentsOfKeys(es, k);
  }

  /** A key missing from the outer parts is stored exactly as the middle part stores it. */
  lemma ContentsMiddle(pre: seq<Entry>, mid: seq<Entry>, post: seq<Entry>, key: int)
    requires forall i :: 0 <= i < |pre| ==> pre[i].key != key
    requires forall i :: 0 <= i < |post| ==> post[i].key != key
    ensures key in ContentsOf(pre + mid + post) <==> key in ContentsOf(mid)
    ensures key in ContentsOf(mid) ==> ContentsOf(pre + mid + post)[key] == ContentsOf(mid)[key]
  {
    ContentsOfAppend(pre + mid, post);
    ContentsOfAppend(pre, mid);
    ContentsOfMissing(pre, key);
    ContentsOfMissing(post, key);
  }

  /** Entries below a key's range, or at or above it, do not carry that key. */
  lemma OutsideBelow(es: seq<Entry>, lo: Option<int>, key: int)
    requires AllBelow(es, lo) && (lo.Some? ==> lo.value <= key)
    ensures forall i :: 0 <= i < |es| ==> es[i].key != key
  {
  }

  lemma OutsideAbove(es: seq<Entry>, hi: Option<int>, key: int)
    requires AllAtLeast(es, hi) && (hi.Some? ==> key < hi.value)
    ensures forall i :: 0 <= i < |es| ==> es[i].key != key
  {
  }

  /**
    A key inside leaf ci's range is stored in the tree exactly when that leaf
    holds it, and then with that leaf's value; the leaf fixes the whole
    answer for that key.
  */
  lemma ContentsAtLeaf(v: View, ci: int, key: int)
    requires LeavesOk(v) && 0 <= ci < |v.chain|
    requires InRange(v.rng[v.chain[ci]], key)
    ensures var leaf := LeafEntries(v.pages[v.chain[ci]]);
      && (key in Stored(v) <==> key in ContentsOf(leaf))
      && (key in Stored(v) ==> Stored(v)[key] == ContentsOf(leaf)[key])
  {
    EntriesAround(v, ci);
    var r := v.rng[v.chain[ci]];
    OutsideBelow(Entries(v.pages, v.chain[..ci]), r.lo, key);
    OutsideAbove(Entries(v.pages, v.chain[ci + 1..]), r.hi, key);
    ContentsMiddle(Entries(v.pages, v.chain[..ci]), LeafEntries(v.pages[v.chain[ci]]),
                   Entries(v.pages, v.chain[ci + 1..]), key);
  }

  /**
    The leaf whose range holds `key` decides it: the key is stored exactly
    when the leaf holds it, and then with the value in the same slot.
  */
  lemma LeafDecides(v: View, ci: int, key: int)
    requires LeavesOk(v) && 0 <= ci < |v.chain|
    requires InRange(v.rng[v.chain[ci]], key)
    ensures v.chain[ci] in v.pages
    ensures var n := v.pages[v.chain[ci]];
      && |n.values| == |n.keys|
      && (key in Stored(v) <==> key in n.keys)
      && forall i :: 0 <= i < |n.keys| && n.keys[i] == key ==> Stored(v)[key] == n.values[i]
  {
    LeafAt(v, ci);
    ContentsAtLeaf(v, ci, key);
    LeafContents(v.pages[v.chain[ci]], key);
  }

  /** A sorted leaf's map: key i maps to value i, and absent keys are absent. */
  lemma LeafContents(n: Node, key: int)
    requires |n.values| == |n.keys| && Sorted(n.keys)
    ensures key in ContentsOf(LeafEntries(n)) <==> key in n.keys
    ensures forall i :: 0 <= i < |n.keys| && n.keys[i] == key ==> ContentsOf(LeafEntries(n))[key] == n.values[i]
  {
    var es := LeafEntries(n);
    ContentsOfKeys(es, key);
    if key in n.keys {
      var i :| 0 <= i < |n.keys| && n.keys[i] == key;
      assert es[i].key == key;
    }
    forall i | 0 <= i < |n.keys| && n.keys[i] == key
      ensures ContentsOf(es)[key] == n.values[i]
    {
      ContentsOfSorted(es, i);
    }
  }

  // ---------------------------------------------------------------------
  // The range scan along the chain.
  // ---------------------------------------------------------------------

  /** Leaves before the one whose range holds startKey contribute nothing. */
  lemma ScanPrefix(v: View, ci: int, s: int, e: int)
    requires LeavesOk(v) && 0 <= ci < |v.chain|
    requires InRange(v.rng[v.chain[ci]], s)
    ensures InInterval(Entries(v.pages, v.chain), s, e) == InInterval(Entries(v.pages, v.chain[ci..|v.chain|]), s, e)
  {
    EntriesBefore(v, ci);
    var c := v.chain;
    var pre := Entries(v.pages, c[..ci]);
    assert c == c[..ci] + c[ci..|c|];
    EntriesAppend(v.pages, c[..ci], c[ci..|c|]);
    InIntervalNone(pre, s, e);
    InIntervalAppend(pre, Entries(v.pages, c[ci..|c|]), s, e);
  }

  /** One more entry of the current leaf scanned. */
  lemma ScanPush(done: seq<Entry>, es: seq<Entry>, i: int, s: int, e: int)
    requires 0 <= i < |es|
    ensures InInterval(done + es[..i + 1], s, e) ==
              InInterval(done + es[..i], s, e) + (if s <= es[i].key <= e then [es[i]] else [])
  {
    assert (done + es[..i + 1])[..|done| + i] == done + es[..i];
  }

  /** One more leaf scanned. */
  lemma ScanStep(pages: map<PageId, Node>, c: seq<PageId>, a: int, b: int)
    requires 0 <= a <= b < |c| && c[b] in pages
    ensures Entries(pages, c[a..b + 1]) == Entries(pages, c[a..b]) + LeafEntries(pages[c[b]])
  {
    assert c[a..b + 1][..b - a] == c[a..b];
  }

  /** Once a key above endKey is met, the entries after it are all above endKey too. */
  lemma StopScan(mid: seq<Entry>, leaf: seq<Entry>, post: seq<Entry>, i: int, s: int, e: int)
    requires 0 <= i < |leaf|
    requires forall j :: i < j < |leaf| ==> e < leaf[j].key
    requires AllAbove(post, e)
    ensures InInterval(mid + leaf + post, s, e) == InInterval(mid + leaf[..i + 1], s, e)
  {
    var rest := leaf[i + 1..] + post;
    assert leaf == leaf[..i + 1] + leaf[i + 1..];
    assert mid + leaf + post == (mid + leaf[..i + 1]) + rest;
    forall j | 0 <= j < |rest| ensures rest[j].key < s || e < rest[j].key {
      if j < |leaf| - i - 1 {
        assert rest[j] == leaf[i + 1 + j];
      } else {
        assert rest[j] == post[j - (|leaf| - i - 1)];
      }
    }
    InIntervalNone(rest, s, e);
    InIntervalAppend(mid + leaf[..i + 1], rest, s, e);
  }

  /** The tail of the chain from leaf a, split around leaf ci. */
  lemma TailSplit(pages: map<PageId, Node>, c: seq<PageId>, a: int, ci: int)
    requires 0 <= a <= ci < |c| && c[ci] in pages
    ensures Entries(pages, c[a..|c|]) == Entries(pages, c[a..ci]) + LeafEntries(pages[c[ci]]) + Entries(pages, c[ci + 1..])
  {
    TailSlices(c, a, ci);
    EntriesSplit(pages, c[a..|c|], ci - a);
  }

  /** The two sides of position ci within the tail c[a..]. */
  lemma TailSlices(c: seq<PageId>, a: int, ci: int)
    requires 0 <= a <= ci < |c|
    ensures c[a..|c|][..ci - a] == c[a..ci] && c[a..|c|][ci - a + 1..] == c[ci + 1..]
  {
    assert c[a..|c|][ci - a + 1..] == c[ci + 1..];
  }

  /** Past a key of leaf ci, every later key of the leaf and of the chain is larger. */
  lemma AboveAfter(v: View, ci: int, i: int, e: int)
    requires LeavesOk(v) && 0 <= ci < |v.chain|
    requires 0 <= i < |v.pages[v.chain[ci]].keys| && e < v.pages[v.chain[ci]].keys[i]
    ensures var leaf := LeafEntries(v.pages[v.chain[ci]]);
      i < |leaf| && forall j :: i < j < |leaf| ==> e < leaf[j].key
    ensures AllAbove(Entries(v.pages, v.chain[ci + 1..]), e)
  {
    LeafAt(v, ci);
    EntriesAfter(v, ci);
    assert InRange(v.rng[v.chain[ci]], v.pages[v.chain[ci]].keys[i]);
  }

  /**
    The scan may stop at the first key of leaf ci above endKey: every
    later entry lies above it too.
  */
  lemma ScanStop(v: View, a: int, ci: int, i: int, s: int, e: int)
    requires LeavesOk(v) && 0 <= a <= ci < |v.chain|
    requires 0 <= i < |v.pages[v.chain[ci]].keys| && e < v.pages[v.chain[ci]].keys[i]
    ensures i < |LeafEntries(v.pages[v.chain[ci]])|
    ensures InInterval(Entries(v.pages, v.chain[a..|v.chain|]), s, e) ==
              InInterval(Entries(v.pages, v.chain[a..ci]) + LeafEntries(v.pages[v.chain[ci]])[..i + 1], s, e)
  {
    var c := v.chain;
    TailSplit(v.pages, c, a, ci);
    AboveAfter(v, ci, i, e);
    StopScan(Entries(v.pages, c[a..ci]), LeafEntries(v.pages[c[ci]]), Entries(v.pages, c[ci + 1..]), i, s, e);
  }

  /**
    One leaf of the chain scanned: either the scan stopped inside it, and the
    whole tail from `chain[a]` is accounted for, or it ran to the leaf's end
    and the next link leads to the following leaf of the chain.
  */
  lemma LeafScanned(v: View, a: int, ci: int, leaf: Node, done: seq<Entry>, stop: bool, i: int, r: seq<Entry>, s: int, e: int)
    requires LeavesOk(v) && 0 <= a <= ci < |v.chain| && v.chain[ci] in v.pages
    requires leaf == v.pages[v.chain[ci]] && done == Entries(v.pages, v.chain[a..ci])
    requires !stop ==> r == InInterval(done + LeafEntries(leaf), s, e)
    requires stop ==> 0 <= i < |LeafEntries(leaf)| && e < leaf.keys[i]
    requires stop ==> r == InInterval(done + LeafEntries(leaf)[..i + 1], s, e)
    ensures stop ==> r == InInterval(Entries(v.pages, v.chain[a..|v.chain|]), s, e)
    ensures !stop ==> r == InInterval(Entries(v.pages, v.chain[a..ci + 1]), s, e)
    ensures leaf.nextPageId == if ci + 1 < |v.chain| then v.chain[ci + 1] else INVALID_PAGE_ID
    ensures ci + 1 < |v.chain| ==> v.chain[ci + 1] != INVALID_PAGE_ID
  {
    if stop {
      assert r == InInterval(Entries(v.pages, v.chain[a..|v.chain|]), s, e) by {
        ScanStop(v, a, ci, i, s, e);
      }
    } else {
      assert r == InInterval(Entries(v.pages, v.chain[a..ci + 1]), s, e) by {
        ScanStep(v.pages, v.chain, a, ci);
      }
    }
    LeafLinked(v, ci);
  }

  /** The next link of the chain's leaf at ci leads to the following leaf, or nowhere at the end. */
  lemma LeafLinked(v: View, ci: int)
    requires LeavesOk(v) && 0 <= ci < |v.chain|
    ensures v.pages[v.chain[ci]].nextPageId == if ci + 1 < |v.chain| then v.chain[ci + 1] else INVALID_PAGE_ID
    ensures ci + 1 < |v.chain| ==> v.chain[ci + 1] != INVALID_PAGE_ID
  {
    LeafAt(v, ci);
    if ci + 1 < |v.chain| {
      LeafAt(v, ci + 1);
    }
  }

  /**
    What the interval query over a well-formed tree means: its entries are
    in ascending key order, and an entry is in it exactly when its key is
    stored with that value and lies in [startKey, endKey].
  */
  lemma IntervalMeaning(v: View, s: int, e: int, x: Entry)
    requires LeavesOk(v)
    ensures SortedEntries(InInterval(Entries(v.pages, v.chain), s, e))
    ensures x in InInterval(Entries(v.pages, v.chain), s, e) <==>
              x.key in Stored(v) && Stored(v)[x.key] == x.value && s <= x.key <= e
  {
    var es := Entries(v.pages, v.chain);
    EntriesSorted(v);
    InIntervalSorted(es, s, e);
    InIntervalMembers(es, s, e, x);
    ContentsOfKeys(es, x.key);
    if x in es {
      var i :| 0 <= i < |es| && es[i] == x;
      ContentsOfSorted(es, i);
    }
    if x.key in Stored(v) && Stored(v)[x.key] == x.value {
      var i :| 0 <= i < |es| && es[i].key == x.key;
      ContentsOfSorted(es, i);
      assert es[i] == x;
    }
  }

  /** `IntervalMeaning` for every entry at once, about a computed result. */
  lemma ResultMeaning(v: View, s: int, e: int, result: seq<Entry>)
    requires LeavesOk(v) && result == InInterval(Entries(v.pages, v.chain), s, e)
    ensures SortedEntries(result)
    ensures forall x :: x in result <==>
              x.key in Stored(v) && Stored(v)[x.key] == x.value && s <= x.key <= e
  {
    forall x
      ensures x in result <==> x.key in Stored(v) && Stored(v)[x.key] == x.value && s <= x.key <= e
    {
      IntervalMeaning(v, s, e, x);
    }
    IntervalMeaning(v, s, e, Entry(s, 0));
  }
}
