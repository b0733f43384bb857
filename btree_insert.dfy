/**
  The steps of an insertion, stated on views: writing a leaf's keys and
  values, splitting an overfull leaf or internal page into two halves,
  growing a new root above the old one, and the parent's pending
  separator. Each lemma says which well-formedness the step keeps or
  leaves behind, and what it does to the stored pairs.
*/
module BTreeInsert {
  import opened OptionType
  import opened BufferPool
  import opened BTreeView

  // ---------------------------------------------------------------------
  // Sorted key lists.
  // ---------------------------------------------------------------------

  /** A key placed between the smaller and the larger keys keeps the list ascending. */
  lemma SortedInsert(ks: seq<int>, pos: nat, key: int)
    requires Sorted(ks) && pos <= |ks|
    requires forall i :: 0 <= i < pos ==> ks[i] < key
    requires forall i :: pos <= i < |ks| ==> key < ks[i]
    ensures Sorted(InsertAt(ks, pos, key))
  {
    var r := InsertAt(ks, pos, key);
    forall i, j | 0 <= i < j < |r| ensures r[i] < r[j] {
      if j < pos {
      } else if j == pos {
      } else if i < pos {
        assert ks[i] < key < ks[j - 1];
      } else if i == pos {
      } else {
        assert r[i] == ks[i - 1] && r[j] == ks[j - 1];
      }
    }
  }

  /** In an ascending list each key sits at one position only. */
  lemma SortedInjective(ks: seq<int>, a: int, b: int)
    requires Sorted(ks) && 0 <= a < |ks| && 0 <= b < |ks| && ks[a] == ks[b]
    ensures a == b
  {
  }

  /** The page keeps its kind and its parent and sibling links. */
  predicate SameLinks(a: Node, b: Node)
  {
    && a.pageType == b.pageType && a.parentPageId == b.parentPageId
    && a.nextPageId == b.nextPageId && a.prevPageId == b.prevPageId
  }

  // ---------------------------------------------------------------------
  // Rewriting one leaf.
  // ---------------------------------------------------------------------

  /**
    Leaf `chain[ci]` may take node `m`: same kind and links, one value per
    key, sorted keys inside its range, and within the size allowed when
    `over'` is the page that may be full.
  */
  ghost predicate Rewritable(v: View, order: nat, over: PageId, ci: int, m: Node, over': PageId)
  {
    && TreeOk(v, order, over) && (over == INVALID_PAGE_ID || over == over')
    && 0 <= ci < |v.chain| && v.chain[ci] in v.pages && v.chain[ci] in v.rng
    && SameLinks(v.pages[v.chain[ci]], m) && m.pageType == LeafPage
    && |m.values| == |m.keys| && Sorted(m.keys)
    && (forall i :: 0 <= i < |m.keys| ==> InRange(v.rng[v.chain[ci]], m.keys[i]))
    && FitsIn(m, v.chain[ci], order, over')
  }

  /** Replacing the keys and values of a leaf as `Rewritable` allows keeps the tree well-formed. */
  lemma LeafRewrite(v: View, order: nat, over: PageId, ci: int, m: Node, over': PageId)
    requires Rewritable(v, order, over, ci, m, over')
    ensures TreeOk(v.(pages := v.pages[v.chain[ci] := m]), order, over')
  {
    RewriteDown(v, order, over, ci, m, over');
    RewriteParents(v, order, over, ci, m, over');
    RewriteLeaves(v, order, over, ci, m, over');
  }

  lemma RewriteDown(v: View, order: nat, over: PageId, ci: int, m: Node, over': PageId)
    requires Rewritable(v, order, over, ci, m, over')
    ensures var w := v.(pages := v.pages[v.chain[ci] := m]);
      forall p :: p in w.pages ==> DownOk(w, p, order, over')
  {
    var l := v.chain[ci];
    var w := v.(pages := v.pages[l := m]);
    forall p | p in w.pages ensures DownOk(w, p, order, over') {
      assert DownOk(v, p, order, over);
      if p != l && v.pages[p].pageType == InternalPage {
        forall i | 0 <= i < |w.pages[p].children| ensures ChildOk(w, p, i) {
          assert ChildOk(v, p, i);
        }
      }
    }
  }

  lemma RewriteParents(v: View, order: nat, over: PageId, ci: int, m: Node, over': PageId)
    requires Rewritable(v, order, over, ci, m, over')
    ensures var w := v.(pages := v.pages[v.chain[ci] := m]);
      forall p :: p in w.pages && p != w.root ==> ParentOk(w, p)
  {
    var w := v.(pages := v.pages[v.chain[ci] := m]);
    forall p | p in w.pages && p != w.root ensures ParentOk(w, p) {
      assert ParentOk(v, p);
    }
  }

  lemma RewriteLeaves(v: View, order: nat, over: PageId, ci: int, m: Node, over': PageId)
    requires Rewritable(v, order, over, ci, m, over')
    ensures LeavesOk(v.(pages := v.pages[v.chain[ci] := m]))
  {
    var w := v.(pages := v.pages[v.chain[ci] := m]);
    assert LeafOk(v, v.chain[ci]);
    forall i | 0 <= i < |w.chain| ensures LinkOk(w, i) {
      assert LinkOk(v, i);
    }
    forall i | 0 <= i < |w.chain| ensures LeafOk(w, w.chain[i]) {
      assert LeafOk(v, v.chain[i]);
    }
  }

  /** A tree whose one overfilled page in fact fits is well-formed outright. */
  lemma Relax(v: View, order: nat, over: PageId)
    requires TreeOk(v, order, over)
    requires over in v.pages ==> FitsIn(v.pages[over], over, order, INVALID_PAGE_ID)
    ensures TreeOk(v, order, INVALID_PAGE_ID)
  {
    forall p | p in v.pages ensures DownOk(v, p, order, INVALID_PAGE_ID) {
      assert DownOk(v, p, order, over);
    }
  }

  // ---------------------------------------------------------------------
  // The stored pairs after a leaf write.
  // ---------------------------------------------------------------------

  /**
    Two sorted leaves whose keys differ at most by `key`, where `m` holds
    `value` for `key` and agrees with `n` elsewhere: m's map is n's with
    key set to value.
  */
  lemma LeafMapUpdate(n: Node, m: Node, key: int, value: int)
    requires |n.values| == |n.keys| && Sorted(n.keys)
    requires |m.values| == |m.keys| && Sorted(m.keys)
    requires forall k :: k in m.keys <==> k in n.keys || k == key
    requires forall i :: 0 <= i < |m.keys| && m.keys[i] == key ==> m.values[i] == value
    requires forall i, i' :: 0 <= i < |m.keys| && 0 <= i' < |n.keys| && m.keys[i] == n.keys[i'] != key ==>
               m.values[i] == n.values[i']
    ensures ContentsOf(LeafEntries(m)) == ContentsOf(LeafEntries(n))[key := value]
  {
    var a := ContentsOf(LeafEntries(m));
    var b := ContentsOf(LeafEntries(n))[key := value];
    forall k ensures k in a <==> k in b {
      LeafContents(n, k);
      LeafContents(m, k);
    }
    forall k | k in a ensures a[k] == b[k] {
      LeafContents(n, k);
      LeafContents(m, k);
      var i :| 0 <= i < |m.keys| && m.keys[i] == k;
      if k != key {
        var i' :| 0 <= i' < |n.keys| && n.keys[i'] == k;
      }
    }
  }

  /** The value at slot i replaced: the key of slot i now maps to the new value. */
  lemma OverwriteMap(n: Node, i: int, value: int)
    requires |n.values| == |n.keys| && Sorted(n.keys) && 0 <= i < |n.keys|
    ensures ContentsOf(LeafEntries(n.(values := n.values[i := value]))) == ContentsOf(LeafEntries(n))[n.keys[i] := value]
  {
    var m := n.(values := n.values[i := value]);
    forall j, j' | 0 <= j < |m.keys| && 0 <= j' < |n.keys| && m.keys[j] == n.keys[j'] != n.keys[i]
      ensures m.values[j] == n.values[j']
    {
      SortedInjective(n.keys, j, j');
    }
    forall j | 0 <= j < |m.keys| && m.keys[j] == n.keys[i] ensures m.values[j] == value {
      SortedInjective(n.keys, j, i);
    }
    LeafMapUpdate(n, m, n.keys[i], value);
  }

  /** Leaf n with `key` and `value` placed at slot pos, later slots moved up by one. */
  function LeafWith(n: Node, pos: nat, key: int, value: int): (m: Node)
    requires pos <= |n.keys| && pos <= |n.values|
    ensures SameLinks(n, m) && m.children == n.children
    ensures m.keys == InsertAt(n.keys, pos, key) && m.values == InsertAt(n.values, pos, value)
  {
    n.(keys := InsertAt(n.keys, pos, key), values := InsertAt(n.values, pos, value))
  }

  /** A new key placed at its sorted position: it now maps to its value and the rest is unchanged. */
  lemma InsertMap(n: Node, pos: nat, key: int, value: int)
    requires |n.values| == |n.keys| && Sorted(n.keys) && pos <= |n.keys|
    requires forall i :: 0 <= i < pos ==> n.keys[i] < key
    requires forall i :: pos <= i < |n.keys| ==> key < n.keys[i]
    ensures Sorted(LeafWith(n, pos, key, value).keys)
    ensures ContentsOf(LeafEntries(LeafWith(n, pos, key, value))) == ContentsOf(LeafEntries(n))[key := value]
  {
    var m := LeafWith(n, pos, key, value);
    SortedInsert(n.keys, pos, key);
    forall k ensures k in m.keys <==> k in n.keys || k == key {
      if k in n.keys {
        var i :| 0 <= i < |n.keys| && n.keys[i] == k;
        if i < pos { assert m.keys[i] == k; } else { assert m.keys[i + 1] == k; }
      }
      if k in m.keys {
        var i :| 0 <= i < |m.keys| && m.keys[i] == k;
        if i < pos { assert n.keys[i] == k; } else if i > pos { assert n.keys[i - 1] == k; }
      }
    }
    forall j, j' | 0 <= j < |m.keys| && 0 <= j' < |n.keys| && m.keys[j] == n.keys[j'] != key
      ensures m.values[j] == n.values[j']
    {
      var t := if j < pos then j else j - 1;
      assert m.keys[j] == n.keys[t] && m.values[j] == n.values[t];
      SortedInjective(n.keys, t, j');
    }
    LeafMapUpdate(n, m, key, value);
  }

  /** The chain's entries after leaf chain[ci] is rewritten: the other leaves contribute as before. */
  lemma EntriesAfterRewrite(v: View, ci: int, m: Node)
    requires LeavesOk(v) && 0 <= ci < |v.chain|
    ensures Entries(v.pages[v.chain[ci] := m], v.chain) ==
              Entries(v.pages, v.chain[..ci]) + LeafEntries(m) + Entries(v.pages, v.chain[ci + 1..])
  {
    var c := v.chain;
    var l := c[ci];
    var pages' := v.pages[l := m];
    EntriesSplit(pages', c, ci);
    forall i | 0 <= i < |c[..ci]| ensures c[..ci][i] in v.pages && c[..ci][i] in pages'
      && LeafEntries(pages'[c[..ci][i]]) == LeafEntries(v.pages[c[..ci][i]])
    {
      assert c[..ci][i] == c[i] && c[i] != l;
      LeafShape(v, i);
    }
    EntriesFrame(v.pages, pages', c[..ci]);
    var post := c[ci + 1..];
    forall i | 0 <= i < |post| ensures post[i] in v.pages && post[i] in pages'
      && LeafEntries(pages'[post[i]]) == LeafEntries(v.pages[post[i]])
    {
      assert post[i] == c[ci + 1 + i] && c[ci + 1 + i] != l;
      LeafShape(v, ci + 1 + i);
    }
    EntriesFrame(v.pages, pages', post);
  }

  /** Updating one key in the middle part updates it in the whole, when the last part lacks that key. */
  lemma ContentsSplice(pre: seq<Entry>, mid: seq<Entry>, mid': seq<Entry>, post: seq<Entry>, key: int, value: int)
    requires ContentsOf(mid') == ContentsOf(mid)[key := value]
    requires forall i :: 0 <= i < |post| ==> post[i].key != key
    ensures ContentsOf(pre + mid' + post) == ContentsOf(pre + mid + post)[key := value]
  {
    ContentsOfMissing(post, key);
    ContentsOfAppend(pre + mid', post);
    ContentsOfAppend(pre, mid');
    ContentsOfAppend(pre + mid, post);
    ContentsOfAppend(pre, mid);
    UnionUpdate(ContentsOf(pre), ContentsOf(mid), key, value);
    UpdateUnion(ContentsOf(pre) + ContentsOf(mid), ContentsOf(post), key, value);
  }

  lemma UnionUpdate(a: map<int, int>, b: map<int, int>, key: int, value: int)
    ensures a + b[key := value] == (a + b)[key := value]
  {
  }

  lemma UpdateUnion(a: map<int, int>, c: map<int, int>, key: int, value: int)
    requires key !in c
    ensures a[key := value] + c == (a + c)[key := value]
  {
  }

  /**
    Rewriting leaf chain[ci] so that its map gains key := value, with key
    inside the leaf's range, sets key := value in the stored pairs.
  */
  lemma StoredAfterLeaf(v: View, ci: int, m: Node, key: int, value: int)
    requires LeavesOk(v) && 0 <= ci < |v.chain| && v.chain[ci] in v.pages && v.chain[ci] in v.rng
    requires InRange(v.rng[v.chain[ci]], key)
    requires ContentsOf(LeafEntries(m)) == ContentsOf(LeafEntries(v.pages[v.chain[ci]]))[key := value]
    ensures Stored(v.(pages := v.pages[v.chain[ci] := m])) == Stored(v)[key := value]
  {
    var c := v.chain;
    var l := c[ci];
    EntriesAround(v, ci);
    EntriesAfterRewrite(v, ci, m);
    var post := Entries(v.pages, c[ci + 1..]);
    OutsideAbove(post, v.rng[l].hi, key);
    ContentsSplice(Entries(v.pages, c[..ci]), LeafEntries(v.pages[l]), LeafEntries(m), post, key, value);
  }

  // ---------------------------------------------------------------------
  // The two leaf writes of `insert`.
  // ---------------------------------------------------------------------

  /** `insert` on a key the leaf already holds: only that key's value changes. */
  lemma OverwriteStep(v: View, order: nat, ci: int, i: int, value: int)
    requires TreeOk(v, order, INVALID_PAGE_ID)
    requires 0 <= ci < |v.chain| && v.chain[ci] in v.pages && 0 <= i < |v.pages[v.chain[ci]].keys|
    requires |v.pages[v.chain[ci]].values| == |v.pages[v.chain[ci]].keys|
    ensures var n := v.pages[v.chain[ci]];
      var w := v.(pages := v.pages[v.chain[ci] := n.(values := n.values[i := value])]);
      TreeOk(w, order, INVALID_PAGE_ID) && Stored(w) == Stored(v)[n.keys[i] := value]
  {
    var n := v.pages[v.chain[ci]];
    var m := n.(values := n.values[i := value]);
    LeafAt(v, ci);
    assert DownOk(v, v.chain[ci], order, INVALID_PAGE_ID);
    assert InRange(v.rng[v.chain[ci]], n.keys[i]);
    LeafRewrite(v, order, INVALID_PAGE_ID, ci, m, INVALID_PAGE_ID);
    OverwriteMap(n, i, value);
    StoredAfterLeaf(v, ci, m, n.keys[i], value);
  }

  /**
    `insert` of a new key into the leaf whose range holds it, at the first
    slot whose key is larger: the leaf may now be full (one key more than
    a page keeps), and key := value is added to the stored pairs. When the
    leaf had room, the tree is well-formed outright.
  */
  lemma LeafInsertStep(v: View, order: nat, ci: int, pos: nat, key: int, value: int)
    requires TreeOk(v, order, INVALID_PAGE_ID)
    requires 0 <= ci < |v.chain| && v.chain[ci] in v.pages && v.chain[ci] in v.rng
    requires InRange(v.rng[v.chain[ci]], key)
    requires |v.pages[v.chain[ci]].values| == |v.pages[v.chain[ci]].keys|
    requires pos <= |v.pages[v.chain[ci]].keys|
    requires forall i :: 0 <= i < pos ==> v.pages[v.chain[ci]].keys[i] < key
    requires forall i :: pos <= i < |v.pages[v.chain[ci]].keys| ==> key < v.pages[v.chain[ci]].keys[i]
    ensures var w := v.(pages := v.pages[v.chain[ci] := LeafWith(v.pages[v.chain[ci]], pos, key, value)]);
      && TreeOk(w, order, v.chain[ci]) && Stored(w) == Stored(v)[key := value]
      && (|v.pages[v.chain[ci]].keys| + 1 < order ==> TreeOk(w, order, INVALID_PAGE_ID))
  {
    var l := v.chain[ci];
    var n := v.pages[l];
    var m := LeafWith(n, pos, key, value);
    var w := v.(pages := v.pages[l := m]);
    LeafAt(v, ci);
    assert DownOk(v, l, order, INVALID_PAGE_ID);
    InsertMap(n, pos, key, value);
    forall i | 0 <= i < |m.keys| ensures InRange(v.rng[l], m.keys[i]) {
      if i < pos { assert m.keys[i] == n.keys[i]; }
      else if i > pos { assert m.keys[i] == n.keys[i - 1]; }
    }
    LeafRewrite(v, order, INVALID_PAGE_ID, ci, m, l);
    StoredAfterLeaf(v, ci, m, key, value);
    if |n.keys| + 1 < order {
      Relax(w, order, l);
    }
  }
}
