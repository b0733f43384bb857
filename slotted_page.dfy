/**
  The slotted page of the storage layer: a 4096-byte buffer holding the
  30-byte header, a directory of 8-byte slots growing up from byte 30, and
  fixed 8-byte records growing down from byte 4096. The in-memory header
  and the buffer are separate state; `SerializeToBuffer` copies the one into
  the other and seals the page with its checksum.
*/
module SlottedPage {
  import opened PageHeaderCodec
  import opened OptionType

  const SLOT_SIZE: nat := 8
  /** Size of both record kinds, `LeafNode` and `InternalNode`. */
  const RECORD_SIZE: nat := 8

  newtype int32 = x: int | -0x8000_0000 <= x < 0x8000_0000

  datatype SlotEntry = SlotEntry(offset: u32, length: u32)
  datatype LeafNode = LeafNode(key: int32, value: int32)
  datatype InternalNode = InternalNode(key: int32, childPageId: u32)

  // ---------------------------------------------------------------------
  // Record and slot encodings
  // ---------------------------------------------------------------------

  /** The signed value of a 32-bit two's complement word. */
  function SignedOf(u: u32): (k: int32)
    ensures k as int % TWO_32 == u as int
  {
    if u < 0x8000_0000 then u as int as int32 else (u as int - TWO_32) as int32
  }

  /** The two's complement word of a signed value. */
  function BitsOf(k: int32): (u: u32)
    ensures u as int % TWO_32 == k as int % TWO_32
  {
    if k >= 0 then k as int as u32 else (k as int + TWO_32) as u32
  }

  lemma SignedBitsRoundTrip(k: int32, u: u32)
    ensures SignedOf(BitsOf(k)) == k
    ensures BitsOf(SignedOf(u)) == u
  {
  }

  /** Byte offset of slot `i` in the page. */
  function SlotPos(i: nat): nat
  {
    HEADER_SIZE + 8 * i
  }

  function EncodeSlot(e: SlotEntry): (r: seq<byte>)
    ensures |r| == SLOT_SIZE
  {
    Le32(e.offset) + Le32(e.length)
  }

  /** The slot stored at index `i` of the directory in `s`. */
  function SlotIn(s: seq<byte>, i: nat): SlotEntry
    requires SlotPos(i) + SLOT_SIZE <= |s|
  {
    SlotEntry(ReadU32(s, SlotPos(i)), ReadU32(s, SlotPos(i) + 4))
  }

  function EncodeLeaf(e: LeafNode): (r: seq<byte>)
    ensures |r| == RECORD_SIZE
  {
    Le32(BitsOf(e.key)) + Le32(BitsOf(e.value))
  }

  function DecodeLeaf(r: seq<byte>): LeafNode
    requires RECORD_SIZE <= |r|
  {
    LeafNode(SignedOf(ReadU32(r, 0)), SignedOf(ReadU32(r, 4)))
  }

  function EncodeInternal(e: InternalNode): (r: seq<byte>)
    ensures |r| == RECORD_SIZE
  {
    Le32(BitsOf(e.key)) + Le32(e.childPageId)
  }

  function DecodeInternal(r: seq<byte>): InternalNode
    requires RECORD_SIZE <= |r|
  {
    InternalNode(SignedOf(ReadU32(r, 0)), ReadU32(r, 4))
  }

  /** Both record kinds keep their key in the first four bytes. */
  function RecordKey(r: seq<byte>): int32
    requires 4 <= |r|
  {
    SignedOf(ReadU32(r, 0))
  }

  lemma SlotRoundTrip(s: seq<byte>, i: nat, e: SlotEntry)
    requires SlotPos(i) + SLOT_SIZE <= |s|
    ensures SlotIn(Splice(s, SlotPos(i), EncodeSlot(e)), i) == e
  {
    var p := SlotPos(i);
    var r := Splice(s, p, EncodeSlot(e));
    ReadLe32(e.offset);
    ReadLe32(e.length);
    assert r[p..p + 8] == Le32(e.offset) + Le32(e.length);
    assert r[p..p + 4] == Le32(e.offset) by { assert r[p..p + 4] == r[p..p + 8][..4]; }
    assert r[p + 4..p + 8] == Le32(e.length) by { assert r[p + 4..p + 8] == r[p..p + 8][4..]; }
    ReadFromSlice32(r, p);
    ReadFromSlice32(r, p + 4);
  }

  lemma LeafRoundTrip(e: LeafNode)
    ensures DecodeLeaf(EncodeLeaf(e)) == e
    ensures RecordKey(EncodeLeaf(e)) == e.key
  {
    var r := EncodeLeaf(e);
    ReadLe32(BitsOf(e.key));
    ReadLe32(BitsOf(e.value));
    assert r[4..8] == Le32(BitsOf(e.value));
    ReadFromSlice32(r, 4);
    SignedBitsRoundTrip(e.key, 0);
    SignedBitsRoundTrip(e.value, 0);
  }

  lemma InternalRoundTrip(e: InternalNode)
    ensures DecodeInternal(EncodeInternal(e)) == e
    ensures RecordKey(EncodeInternal(e)) == e.key
  {
    var r := EncodeInternal(e);
    ReadLe32(BitsOf(e.key));
    ReadLe32(e.childPageId);
    assert r[4..8] == Le32(e.childPageId);
    ReadFromSlice32(r, 4);
    SignedBitsRoundTrip(e.key, 0);
  }

  // ---------------------------------------------------------------------
  // Page layout, read as sequences
  // ---------------------------------------------------------------------

  /** A slot's record lies in the record area, below the page end. */
  ghost predicate InRecordArea(h: PageHeader, e: SlotEntry)
  {
    h.upperPtr as int <= e.offset as int && e.offset as int + RECORD_SIZE <= PAGE_SIZE
  }

  /**
    The layout every page keeps: header, then `keyCount` slots ending at
    `lowerPtr`, free space up to `upperPtr`, and every slot pointing at a
    whole record in the record area.
  */
  ghost predicate LayoutOk(h: PageHeader, s: seq<byte>)
  {
    && |s| == PAGE_SIZE
    && HEADER_SIZE <= h.lowerPtr as int <= h.upperPtr as int <= PAGE_SIZE
    && h.lowerPtr as int == SlotPos(h.keyCount as int)
    && forall i :: 0 <= i < h.keyCount as int ==> InRecordArea(h, SlotIn(s, i))
  }

  /** Slot `i` and the record it points at both lie inside `s`. */
  ghost predicate RecordFits(s: seq<byte>, i: nat)
  {
    SlotPos(i) + SLOT_SIZE <= |s| && SlotIn(s, i).offset as int + RECORD_SIZE <= |s|
  }

  /** The fixed-size record slot `i` points at. */
  ghost function RecordAt(s: seq<byte>, i: nat): (r: seq<byte>)
    requires RecordFits(s, i)
    ensures |r| == RECORD_SIZE
  {
    s[SlotIn(s, i).offset..SlotIn(s, i).offset as int + RECORD_SIZE]
  }

  lemma LayoutFits(h: PageHeader, s: seq<byte>)
    requires LayoutOk(h, s)
    ensures forall i :: 0 <= i < h.keyCount as int ==> RecordFits(s, i)
  {
  }

  /** The key of the record slot `i` points at, read in place. */
  ghost function KeyAt(s: seq<byte>, i: nat): int32
    requires RecordFits(s, i)
  {
    SignedOf(ReadU32(s, SlotIn(s, i).offset as nat))
  }

  /** Reading the key in place is reading it from the record. */
  lemma KeyAtRecord(s: seq<byte>, i: nat)
    requires RecordFits(s, i)
    ensures KeyAt(s, i) == RecordKey(RecordAt(s, i))
  {
    ReadFromSlice32(s, SlotIn(s, i).offset as nat);
    ReadFromSlice32(RecordAt(s, i), 0);
    var o := SlotIn(s, i).offset as int;
    assert RecordAt(s, i)[0..4] == s[o..o + 4];
  }

  /** The first `n` slots of the directory in `s`. */
  ghost function SlotsUpTo(s: seq<byte>, n: nat): (r: seq<SlotEntry>)
    requires SlotPos(n) <= |s|
    ensures |r| == n
  {
    if n == 0 then [] else SlotsUpTo(s, n - 1) + [SlotIn(s, n - 1)]
  }

  /** The records the first `n` slots point at. */
  ghost function RecordsUpTo(s: seq<byte>, n: nat): (r: seq<seq<byte>>)
    requires forall i :: 0 <= i < n ==> RecordFits(s, i)
    ensures |r| == n
    ensures forall i :: 0 <= i < n ==> |r[i]| == RECORD_SIZE
  {
    if n == 0 then [] else RecordsUpTo(s, n - 1) + [RecordAt(s, n - 1)]
  }

  /** The keys of the records the first `n` slots point at. */
  ghost function KeysUpTo(s: seq<byte>, n: nat): (r: seq<int32>)
    requires forall i :: 0 <= i < n ==> RecordFits(s, i)
    ensures |r| == n
  {
    if n == 0 then [] else KeysUpTo(s, n - 1) + [KeyAt(s, n - 1)]
  }

  lemma {:induction false} SlotsUpToIndex(s: seq<byte>, n: nat)
    requires SlotPos(n) <= |s|
    ensures forall i :: 0 <= i < n ==> SlotsUpTo(s, n)[i] == SlotIn(s, i)
  {
    if n > 0 {
      SlotsUpToIndex(s, n - 1);
    }
  }

  lemma {:induction false} RecordsUpToIndex(s: seq<byte>, n: nat)
    requires forall i :: 0 <= i < n ==> RecordFits(s, i)
    ensures forall i :: 0 <= i < n ==> RecordsUpTo(s, n)[i] == RecordAt(s, i)
  {
    if n > 0 {
      RecordsUpToIndex(s, n - 1);
    }
  }

  lemma {:induction false} KeysUpToIndex(s: seq<byte>, n: nat)
    requires forall i :: 0 <= i < n ==> RecordFits(s, i)
    ensures forall i :: 0 <= i < n ==> KeysUpTo(s, n)[i] == KeyAt(s, i)
  {
    if n > 0 {
      KeysUpToIndex(s, n - 1);
    }
  }

  /** The directory of a well-formed page, in slot order. */
  ghost function SlotsOf(h: PageHeader, s: seq<byte>): (r: seq<SlotEntry>)
    requires LayoutOk(h, s)
    ensures |r| == h.keyCount as int
  {
    SlotsUpTo(s, h.keyCount as int)
  }

  /** The fixed-size record each slot points at, in slot order. */
  ghost function RecordsOf(h: PageHeader, s: seq<byte>): (r: seq<seq<byte>>)
    requires LayoutOk(h, s)
    ensures |r| == h.keyCount as int
    ensures forall i :: 0 <= i < |r| ==> |r[i]| == RECORD_SIZE
  {
    LayoutFits(h, s);
    RecordsUpTo(s, h.keyCount as int)
  }

  /** The key of each slot's record, in slot order. */
  ghost function KeysOf(h: PageHeader, s: seq<byte>): (r: seq<int32>)
    requires LayoutOk(h, s)
    ensures |r| == h.keyCount as int
  {
    LayoutFits(h, s);
    KeysUpTo(s, h.keyCount as int)
  }

  /** Element-wise reading of the three views. */
  lemma ViewsIndex(h: PageHeader, s: seq<byte>)
    requires LayoutOk(h, s)
    ensures forall i :: 0 <= i < h.keyCount as int ==> RecordFits(s, i)
    ensures forall i :: 0 <= i < h.keyCount as int ==> SlotsOf(h, s)[i] == SlotIn(s, i)
    ensures forall i :: 0 <= i < h.keyCount as int ==> RecordsOf(h, s)[i] == RecordAt(s, i)
    ensures forall i :: 0 <= i < h.keyCount as int ==> KeysOf(h, s)[i] == KeyAt(s, i)
  {
    LayoutFits(h, s);
    SlotsUpToIndex(s, h.keyCount as int);
    RecordsUpToIndex(s, h.keyCount as int);
    KeysUpToIndex(s, h.keyCount as int);
  }

  /** Keys in non-decreasing order, stated on neighbours. */
  ghost predicate Ascending(ks: seq<int32>)
  {
    |ks| <= 1 || (ks[0] <= ks[1] && Ascending(ks[1..]))
  }

  /** Neighbours in order is the same as every pair in order. */
  lemma {:induction false} AscendingPairs(ks: seq<int32>)
    ensures Ascending(ks) <==> forall i, j :: 0 <= i < j < |ks| ==> ks[i] <= ks[j]
  {
    if |ks| > 1 {
      var tl := ks[1..];
      AscendingPairs(tl);
      if Ascending(ks) {
        forall i, j | 0 <= i < j < |ks|
          ensures ks[i] <= ks[j]
        {
          if 0 < i {
            assert ks[i] == tl[i - 1] && ks[j] == tl[j - 1];
          } else if 1 < j {
            assert ks[1] == tl[0] && ks[j] == tl[j - 1];
          }
        }
      }
      if forall i, j :: 0 <= i < j < |ks| ==> ks[i] <= ks[j] {
        forall i, j | 0 <= i < j < |tl|
          ensures tl[i] <= tl[j]
        {
          assert tl[i] == ks[i + 1] && tl[j] == ks[j + 1];
        }
      }
    }
  }

  /** On ascending keys, a position between a smaller key and a not-smaller one is the lower bound. */
  lemma LowerBound(ks: seq<int32>, r: nat, key: int32)
    requires Ascending(ks) && r <= |ks|
    requires 0 < r ==> ks[r - 1] < key
    requires r < |ks| ==> key <= ks[r]
    ensures forall j :: 0 <= j < r ==> ks[j] < key
    ensures forall j :: r <= j < |ks| ==> key <= ks[j]
  {
    AscendingPairs(ks);
  }

  /**
    A position whose left neighbour is below `key` and whose right neighbour
    is above it splits an ascending run into keys below and keys above, so
    `key` is not in the run.
  */
  lemma SearchGap(ks: seq<int32>, p: nat, key: int32)
    requires Ascending(ks) && p <= |ks|
    requires 0 < p ==> ks[p - 1] < key
    requires p < |ks| ==> key < ks[p]
    ensures forall j :: 0 <= j < p ==> ks[j] < key
    ensures forall j :: p <= j < |ks| ==> key < ks[j]
    ensures key !in ks
  {
    AscendingPairs(ks);
  }

  /** Inserting a key between a smaller left neighbour and a not-smaller right one keeps a run ascending. */
  lemma InsertKeepsAscending(ks: seq<int32>, t: nat, k: int32)
    requires Ascending(ks) && t <= |ks|
    requires 0 < t ==> ks[t - 1] < k
    requires t < |ks| ==> k <= ks[t]
    ensures Ascending(ks[..t] + [k] + ks[t..])
  {
    var r := ks[..t] + [k] + ks[t..];
    AscendingPairs(ks);
    AscendingPairs(r);
    forall i, j | 0 <= i < j < |r|
      ensures r[i] <= r[j]
    {
      if j < t {
        assert r[i] == ks[i] && r[j] == ks[j];
      } else if j == t {
        assert r[i] == ks[i] && ks[i] <= ks[t - 1];
      } else if i == t {
        assert r[j] == ks[j - 1] && ks[t] <= ks[j - 1];
      } else if i < t {
        assert r[i] == ks[i] && r[j] == ks[j - 1];
      } else {
        assert r[i] == ks[i - 1] && r[j] == ks[j - 1];
      }
    }
  }

  /** A slot whose eight bytes are unchanged reads the same. */
  lemma SlotUnchanged(s: seq<byte>, t: seq<byte>, i: nat)
    requires SlotPos(i) + SLOT_SIZE <= |s| && SlotPos(i) + SLOT_SIZE <= |t|
    requires forall j :: SlotPos(i) <= j < SlotPos(i) + SLOT_SIZE ==> t[j] == s[j]
    ensures SlotIn(t, i) == SlotIn(s, i)
  {
  }

  /** A slot whose eight bytes are those of the slot below it in `s` reads as that slot. */
  lemma SlotShifted(s: seq<byte>, t: seq<byte>, i: nat)
    requires 0 < i && SlotPos(i) + SLOT_SIZE <= |s| && SlotPos(i) + SLOT_SIZE <= |t|
    requires forall j :: SlotPos(i) <= j < SlotPos(i) + SLOT_SIZE ==> t[j] == s[j - SLOT_SIZE]
    ensures SlotIn(t, i) == SlotIn(s, i - 1)
  {
  }

  /** Equal bytes make equal slices. */
  lemma RangeUnchanged(s: seq<byte>, t: seq<byte>, lo: nat, hi: nat)
    requires lo <= hi <= |s| && hi <= |t|
    requires forall j :: lo <= j < hi ==> t[j] == s[j]
    ensures t[lo..hi] == s[lo..hi]
  {
    assert forall k :: 0 <= k < hi - lo ==> t[lo..hi][k] == t[lo + k];
  }

  /** Bytes past the header carry the whole directory and every record. */
  lemma LayoutFrame(h: PageHeader, s: seq<byte>, t: seq<byte>)
    requires LayoutOk(h, s) && |t| == |s| && t[HEADER_SIZE..] == s[HEADER_SIZE..]
    ensures LayoutOk(h, t)
    ensures SlotsOf(h, t) == SlotsOf(h, s)
    ensures RecordsOf(h, t) == RecordsOf(h, s)
    ensures KeysOf(h, t) == KeysOf(h, s)
  {
    forall j | HEADER_SIZE <= j < |s|
      ensures t[j] == s[j]
    {
      assert t[j] == t[HEADER_SIZE..][j - HEADER_SIZE];
    }
    forall i | 0 <= i < h.keyCount as int
      ensures SlotIn(t, i) == SlotIn(s, i)
    {
    }
    assert LayoutOk(h, t);
    ViewsIndex(h, s);
    ViewsIndex(h, t);
    forall i | 0 <= i < h.keyCount as int
      ensures RecordAt(t, i) == RecordAt(s, i)
    {
      var o := SlotIn(s, i).offset as int;
      assert t[o..o + RECORD_SIZE] == s[o..o + RECORD_SIZE];
    }
    assert SlotsOf(h, t) == SlotsOf(h, s);
    assert RecordsOf(h, t) == RecordsOf(h, s);
    assert KeysOf(h, t) == KeysOf(h, s);
  }

  // ---------------------------------------------------------------------
  // Insertion, read as sequences
  // ---------------------------------------------------------------------

  /** The header after an item of `size` bytes has been inserted. */
  function HeaderAfterInsert(h: PageHeader, size: nat): (r: PageHeader)
    requires size <= h.upperPtr as int && h.lowerPtr as int + SLOT_SIZE <= h.upperPtr as int
    requires h.keyCount as int + 1 < 0x1_0000
    ensures r.upperPtr as int == h.upperPtr as int - size
    ensures r.lowerPtr as int == h.lowerPtr as int + SLOT_SIZE
    ensures r.keyCount as int == h.keyCount as int + 1
    ensures r.(upperPtr := h.upperPtr, lowerPtr := h.lowerPtr, keyCount := h.keyCount) == h
  {
    h.(upperPtr := (h.upperPtr as int - size) as u16,
       lowerPtr := (h.lowerPtr as int + SLOT_SIZE) as u16,
       keyCount := h.keyCount + 1)
  }

  /** The slot an item of `size` bytes gets when stored below `upper`. */
  function NewSlot(upper: nat, size: nat): SlotEntry
    requires size <= upper < TWO_32
  {
    SlotEntry((upper - size) as u32, size as u32)
  }

  /**
    The page bytes after inserting `item` at slot `t` of a page with `n`
    slots and record area starting at `upper`: the slots from `t` on move up
    by one slot, the new slot is written at `t`, and the item is stored just
    below `upper`. Every other byte is as before.
  */
  function InsertImage(s: seq<byte>, n: nat, t: nat, upper: nat, item: seq<byte>): (r: seq<byte>)
    requires t <= n && SlotPos(n) + SLOT_SIZE + |item| <= upper <= |s|
    requires |item| < TWO_32 && upper < TWO_32
    ensures |r| == |s|
  {
    s[..SlotPos(t)] + EncodeSlot(NewSlot(upper, |item|)) + s[SlotPos(t)..SlotPos(n)]
      + s[SlotPos(n + 1)..upper - |item|] + item + s[upper..]
  }

  /**
    `r` is `s` with an item inserted at slot `t` of `n`, region by region:
    the slots below `t` as they were, the new slot at `t`, the old slots
    `t..n` one slot up, the gap untouched, the item just below `upper`, and
    the records from `upper` on untouched.
  */
  ghost predicate InsertedBytes(s: seq<byte>, r: seq<byte>, n: nat, t: nat, upper: nat, item: seq<byte>)
  {
    && t <= n && SlotPos(n) + SLOT_SIZE + |item| <= upper <= |s| == |r|
    && |item| < TWO_32 && upper < TWO_32
    && (forall j {:trigger r[j]} :: 0 <= j < SlotPos(t) ==> r[j] == s[j])
    && r[SlotPos(t)..SlotPos(t + 1)] == EncodeSlot(NewSlot(upper, |item|))
    && (forall j {:trigger r[j]} :: SlotPos(t + 1) <= j < SlotPos(n + 1) ==> r[j] == s[j - SLOT_SIZE])
    && (forall j {:trigger r[j]} :: SlotPos(n + 1) <= j < upper - |item| ==> r[j] == s[j])
    && r[upper - |item|..upper] == item
    && (forall j {:trigger r[j]} :: upper <= j < |s| ==> r[j] == s[j])
  }

  /** The insertion image has the regions `InsertedBytes` describes. */
  lemma InsertImageBytes(s: seq<byte>, n: nat, t: nat, upper: nat, item: seq<byte>)
    requires t <= n && SlotPos(n) + SLOT_SIZE + |item| <= upper <= |s|
    requires |item| < TWO_32 && upper < TWO_32
    ensures InsertedBytes(s, InsertImage(s, n, t, upper, item), n, t, upper, item)
  {
    var a := s[..SlotPos(t)];
    var b := a + EncodeSlot(NewSlot(upper, |item|));
    var c := b + s[SlotPos(t)..SlotPos(n)];
    var d := c + s[SlotPos(n + 1)..upper - |item|];
    var f := d + item;
    var r := f + s[upper..];
    assert r == InsertImage(s, n, t, upper, item);
    assert |d| == upper - |item|;
    assert r[upper - |item|..upper] == item by { assert r[..upper] == f; }
    assert forall j :: SlotPos(t + 1) <= j < SlotPos(n + 1) ==> r[j] == c[j];
    assert r[SlotPos(t)..SlotPos(t + 1)] == EncodeSlot(NewSlot(upper, |item|)) by {
      assert r[..SlotPos(t + 1)] == b;
    }
  }

  /** The regions determine the bytes. */
  lemma InsertedBytesUnique(s: seq<byte>, r: seq<byte>, r': seq<byte>, n: nat, t: nat, upper: nat, item: seq<byte>)
    requires InsertedBytes(s, r, n, t, upper, item) && InsertedBytes(s, r', n, t, upper, item)
    ensures r == r'
  {
    forall j | 0 <= j < |r|
      ensures r[j] == r'[j]
    {
      if SlotPos(t) <= j < SlotPos(t + 1) {
        assert r[j] == r[SlotPos(t)..SlotPos(t + 1)][j - SlotPos(t)];
        assert r'[j] == r'[SlotPos(t)..SlotPos(t + 1)][j - SlotPos(t)];
      } else if upper - |item| <= j < upper {
        assert r[j] == r[upper - |item|..upper][j - (upper - |item|)];
        assert r'[j] == r'[upper - |item|..upper][j - (upper - |item|)];
      }
    }
  }

  /** A slot reads as the entry whose encoding its eight bytes hold. */
  lemma SlotDecodes(s: seq<byte>, i: nat, e: SlotEntry)
    requires SlotPos(i) + SLOT_SIZE <= |s| && s[SlotPos(i)..SlotPos(i) + SLOT_SIZE] == EncodeSlot(e)
    ensures SlotIn(s, i) == e
  {
    var p := SlotPos(i);
    ReadLe32(e.offset);
    ReadLe32(e.length);
    assert s[p..p + 4] == Le32(e.offset) by { assert s[p..p + 4] == s[p..p + 8][..4]; }
    assert s[p + 4..p + 8] == Le32(e.length) by { assert s[p + 4..p + 8] == s[p..p + 8][4..]; }
    ReadFromSlice32(s, p);
    ReadFromSlice32(s, p + 4);
  }

  /** Slot `i` after insertion: old slot `i` below `t`, the new slot at `t`, old slot `i - 1` above. */
  lemma InsertedSlotAt(h: PageHeader, s: seq<byte>, r: seq<byte>, t: nat, item: seq<byte>, i: nat)
    requires LayoutOk(h, s) && InsertedBytes(s, r, h.keyCount as int, t, h.upperPtr as int, item)
    requires i <= h.keyCount as int
    ensures i < t ==> SlotIn(r, i) == SlotIn(s, i)
    ensures i == t ==> SlotIn(r, i) == NewSlot(h.upperPtr as int, |item|)
    ensures t < i ==> SlotIn(r, i) == SlotIn(s, i - 1)
  {
    if i < t {
      SlotUnchanged(s, r, i);
    } else if i == t {
      SlotDecodes(r, t, NewSlot(h.upperPtr as int, |item|));
    } else {
      SlotShifted(s, r, i);
    }
  }

  /** After insertion the page keeps its layout under the updated header. */
  lemma InsertedLayoutOk(h: PageHeader, s: seq<byte>, r: seq<byte>, t: nat, item: seq<byte>)
    requires LayoutOk(h, s) && InsertedBytes(s, r, h.keyCount as int, t, h.upperPtr as int, item)
    requires RECORD_SIZE <= |item|
    ensures h.keyCount as int + 1 < 0x1_0000
    ensures LayoutOk(HeaderAfterInsert(h, |item|), r)
  {
    var n := h.keyCount as int;
    var h' := HeaderAfterInsert(h, |item|);
    forall i | 0 <= i < n + 1
      ensures InRecordArea(h', SlotIn(r, i))
    {
      InsertedSlotAt(h, s, r, t, item, i);
      if i < t {
        assert InRecordArea(h, SlotIn(s, i));
      } else if t < i {
        assert InRecordArea(h, SlotIn(s, i - 1));
      }
    }
  }

  /** A record's key lies in its first four bytes. */
  lemma RecordKeyPrefix(item: seq<byte>)
    requires RECORD_SIZE <= |item|
    ensures RecordKey(item[..RECORD_SIZE]) == RecordKey(item)
  {
    ReadFromSlice32(item, 0);
    ReadFromSlice32(item[..RECORD_SIZE], 0);
    assert item[..RECORD_SIZE][0..4] == item[0..4];
  }

  /** The record slot `i` points at after insertion: the item at `t`, an old record elsewhere. */
  lemma InsertedRecordAt(h: PageHeader, s: seq<byte>, r: seq<byte>, t: nat, item: seq<byte>, i: nat)
    requires LayoutOk(h, s) && InsertedBytes(s, r, h.keyCount as int, t, h.upperPtr as int, item)
    requires RECORD_SIZE <= |item| && i <= h.keyCount as int
    ensures RecordFits(r, i)
    ensures i == t ==> RecordAt(r, i) == item[..RECORD_SIZE]
    ensures i < t ==> RecordFits(s, i) && RecordAt(r, i) == RecordAt(s, i)
    ensures t < i ==> RecordFits(s, i - 1) && RecordAt(r, i) == RecordAt(s, i - 1)
  {
    var U := h.upperPtr as int;
    InsertedSlotAt(h, s, r, t, item, i);
    if i == t {
      var U' := U - |item|;
      forall k | 0 <= k < RECORD_SIZE
        ensures r[U'..U' + RECORD_SIZE][k] == item[..RECORD_SIZE][k]
      {
        assert r[U' + k] == r[U'..U][k];
      }
    } else {
      var k := if i < t then i else i - 1;
      var o := SlotIn(s, k).offset as int;
      assert InRecordArea(h, SlotIn(s, k));
      RangeUnchanged(s, r, o, o + RECORD_SIZE);
    }
  }

  /** A sequence that agrees with `a` below `t`, holds `x` at `t` and `a` shifted up above is `a` with `x` inserted. */
  lemma InsertedSeq<T>(a: seq<T>, b: seq<T>, t: nat, x: T)
    requires t <= |a| && |b| == |a| + 1 && b[t] == x
    requires forall i :: 0 <= i < t ==> b[i] == a[i]
    requires forall i :: t < i < |b| ==> b[i] == a[i - 1]
    ensures b == a[..t] + [x] + a[t..]
  {
  }

  /** What insertion does to the directory. */
  lemma InsertedSlots(h: PageHeader, s: seq<byte>, r: seq<byte>, t: nat, item: seq<byte>)
    requires LayoutOk(h, s) && InsertedBytes(s, r, h.keyCount as int, t, h.upperPtr as int, item)
    requires RECORD_SIZE <= |item| && LayoutOk(HeaderAfterInsert(h, |item|), r)
    ensures
      var h' := HeaderAfterInsert(h, |item|);
      SlotsOf(h', r) == SlotsOf(h, s)[..t] + [NewSlot(h.upperPtr as int, |item|)] + SlotsOf(h, s)[t..]
  {
    var n := h.keyCount as int;
    var h' := HeaderAfterInsert(h, |item|);
    SlotsUpToIndex(s, n);
    SlotsUpToIndex(r, n + 1);
    var a, b := SlotsOf(h, s), SlotsOf(h', r);
    forall i | 0 <= i < t
      ensures b[i] == a[i]
    {
      InsertedSlotAt(h, s, r, t, item, i);
    }
    forall i | t < i < |b|
      ensures b[i] == a[i - 1]
    {
      InsertedSlotAt(h, s, r, t, item, i);
    }
    InsertedSlotAt(h, s, r, t, item, t);
    InsertedSeq(a, b, t, NewSlot(h.upperPtr as int, |item|));
  }

  /** What insertion does to the records the directory points at. */
  lemma InsertedRecords(h: PageHeader, s: seq<byte>, r: seq<byte>, t: nat, item: seq<byte>)
    requires LayoutOk(h, s) && InsertedBytes(s, r, h.keyCount as int, t, h.upperPtr as int, item)
    requires RECORD_SIZE <= |item| && LayoutOk(HeaderAfterInsert(h, |item|), r)
    ensures
      var h' := HeaderAfterInsert(h, |item|);
      RecordsOf(h', r) == RecordsOf(h, s)[..t] + [item[..RECORD_SIZE]] + RecordsOf(h, s)[t..]
  {
    var a, b := RecordsOf(h, s), RecordsOf(HeaderAfterInsert(h, |item|), r);
    InsertedRecordsBelow(h, s, r, t, item);
    InsertedRecordsAbove(h, s, r, t, item);
    LayoutFits(HeaderAfterInsert(h, |item|), r);
    RecordsUpToIndex(r, h.keyCount as int + 1);
    InsertedRecordAt(h, s, r, t, item, t);
    InsertedSeq(a, b, t, item[..RECORD_SIZE]);
  }

  /** The records of the slots below the insertion point stay where they were. */
  lemma InsertedRecordsBelow(h: PageHeader, s: seq<byte>, r: seq<byte>, t: nat, item: seq<byte>)
    requires LayoutOk(h, s) && InsertedBytes(s, r, h.keyCount as int, t, h.upperPtr as int, item)
    requires RECORD_SIZE <= |item| && LayoutOk(HeaderAfterInsert(h, |item|), r)
    ensures
      var a, b := RecordsOf(h, s), RecordsOf(HeaderAfterInsert(h, |item|), r);
      forall i :: 0 <= i < t ==> b[i] == a[i]
  {
    var a, b := RecordsOf(h, s), RecordsOf(HeaderAfterInsert(h, |item|), r);
    ViewsIndex(h, s);
    ViewsIndex(HeaderAfterInsert(h, |item|), r);
    forall i | 0 <= i < t
      ensures b[i] == a[i]
    {
      InsertedRecordAt(h, s, r, t, item, i);
    }
  }

  /** The records of the slots from the insertion point on move up one slot. */
  lemma InsertedRecordsAbove(h: PageHeader, s: seq<byte>, r: seq<byte>, t: nat, item: seq<byte>)
    requires LayoutOk(h, s) && InsertedBytes(s, r, h.keyCount as int, t, h.upperPtr as int, item)
    requires RECORD_SIZE <= |item| && LayoutOk(HeaderAfterInsert(h, |item|), r)
    ensures
      var a, b := RecordsOf(h, s), RecordsOf(HeaderAfterInsert(h, |item|), r);
      forall i :: t < i < |b| ==> b[i] == a[i - 1]
  {
    var a, b := RecordsOf(h, s), RecordsOf(HeaderAfterInsert(h, |item|), r);
    ViewsIndex(h, s);
    ViewsIndex(HeaderAfterInsert(h, |item|), r);
    forall i | t < i < |b|
      ensures b[i] == a[i - 1]
    {
      InsertedRecordAt(h, s, r, t, item, i);
    }
  }

  /** Each key is the key of the record at the same slot. */
  lemma KeysAreRecordKeys(h: PageHeader, s: seq<byte>)
    requires LayoutOk(h, s)
    ensures forall i :: 0 <= i < h.keyCount as int ==> KeysOf(h, s)[i] == RecordKey(RecordsOf(h, s)[i])
  {
    LayoutFits(h, s);
    RecordsUpToIndex(s, h.keyCount as int);
    KeysUpToIndex(s, h.keyCount as int);
    forall i | 0 <= i < h.keyCount as int {
      KeyAtRecord(s, i);
    }
  }

  /** Records inserted at `t` put their key at `t` of the key sequence. */
  lemma KeysFollowRecords(h: PageHeader, s: seq<byte>, h': PageHeader, s': seq<byte>, t: nat, r: seq<byte>)
    requires LayoutOk(h, s) && LayoutOk(h', s') && t <= h.keyCount as int && |r| == RECORD_SIZE
    requires RecordsOf(h', s') == RecordsOf(h, s)[..t] + [r] + RecordsOf(h, s)[t..]
    ensures KeysOf(h', s') == KeysOf(h, s)[..t] + [RecordKey(r)] + KeysOf(h, s)[t..]
  {
    KeysAreRecordKeys(h, s);
    KeysAreRecordKeys(h', s');
    var a, b := KeysOf(h, s), KeysOf(h', s');
    var ra, rb := RecordsOf(h, s), RecordsOf(h', s');
    forall i | 0 <= i < t
      ensures b[i] == a[i]
    {
      assert rb[i] == ra[i];
    }
    forall i | t < i < |b|
      ensures b[i] == a[i - 1]
    {
      assert rb[i] == ra[i - 1];
    }
    assert rb[t] == r;
    InsertedSeq(a, b, t, RecordKey(r));
  }

  /** What insertion does to the directory, the records and the keys. */
  lemma InsertImageLayout(h: PageHeader, s: seq<byte>, t: nat, item: seq<byte>)
    requires LayoutOk(h, s) && t <= h.keyCount as int
    requires RECORD_SIZE <= |item| && h.lowerPtr as int + SLOT_SIZE + |item| <= h.upperPtr as int
    ensures h.keyCount as int + 1 < 0x1_0000
    ensures
      var h' := HeaderAfterInsert(h, |item|);
      var s' := InsertImage(s, h.keyCount as int, t, h.upperPtr as int, item);
      && LayoutOk(h', s')
      && SlotsOf(h', s') == SlotsOf(h, s)[..t] + [NewSlot(h.upperPtr as int, |item|)] + SlotsOf(h, s)[t..]
      && RecordsOf(h', s') == RecordsOf(h, s)[..t] + [item[..RECORD_SIZE]] + RecordsOf(h, s)[t..]
      && KeysOf(h', s') == KeysOf(h, s)[..t] + [RecordKey(item)] + KeysOf(h, s)[t..]
  {
    var s' := InsertImage(s, h.keyCount as int, t, h.upperPtr as int, item);
    InsertImageBytes(s, h.keyCount as int, t, h.upperPtr as int, item);
    InsertedViews(h, s, s', t, item);
  }

  /** `InsertImageLayout`, for a page already known to hold the insertion image. */
  lemma InsertedPage(h: PageHeader, s: seq<byte>, t: nat, item: seq<byte>, h': PageHeader, r: seq<byte>)
    requires LayoutOk(h, s) && t <= h.keyCount as int
    requires RECORD_SIZE <= |item| && h.lowerPtr as int + SLOT_SIZE + |item| <= h.upperPtr as int
    requires h' == HeaderAfterInsert(h, |item|)
    requires r == InsertImage(s, h.keyCount as int, t, h.upperPtr as int, item)
    ensures LayoutOk(h', r)
    ensures SlotsOf(h', r) == SlotsOf(h, s)[..t] + [NewSlot(h.upperPtr as int, |item|)] + SlotsOf(h, s)[t..]
    ensures RecordsOf(h', r) == RecordsOf(h, s)[..t] + [item[..RECORD_SIZE]] + RecordsOf(h, s)[t..]
    ensures KeysOf(h', r) == KeysOf(h, s)[..t] + [RecordKey(item)] + KeysOf(h, s)[t..]
  {
    InsertImageLayout(h, s, t, item);
  }

  /** The views of any page whose bytes are an insertion image. */
  lemma InsertedViews(h: PageHeader, s: seq<byte>, r: seq<byte>, t: nat, item: seq<byte>)
    requires LayoutOk(h, s) && InsertedBytes(s, r, h.keyCount as int, t, h.upperPtr as int, item)
    requires RECORD_SIZE <= |item|
    ensures h.keyCount as int + 1 < 0x1_0000
    ensures
      var h' := HeaderAfterInsert(h, |item|);
      && LayoutOk(h', r)
      && SlotsOf(h', r) == SlotsOf(h, s)[..t] + [NewSlot(h.upperPtr as int, |item|)] + SlotsOf(h, s)[t..]
      && RecordsOf(h', r) == RecordsOf(h, s)[..t] + [item[..RECORD_SIZE]] + RecordsOf(h, s)[t..]
      && KeysOf(h', r) == KeysOf(h, s)[..t] + [RecordKey(item)] + KeysOf(h, s)[t..]
  {
    InsertedLayoutOk(h, s, r, t, item);
    InsertedSlots(h, s, r, t, item);
    InsertedRecords(h, s, r, t, item);
    RecordKeyPrefix(item);
    KeysFollowRecords(h, s, HeaderAfterInsert(h, |item|), r, t, item[..RECORD_SIZE]);
  }

  /** Zeroing the length field of slot `i` changes that slot's length and no other slot. */
  lemma DeleteImageSlots(h: PageHeader, s: seq<byte>, i: nat)
    requires LayoutOk(h, s) && i < h.keyCount as int
    ensures
      var s' := Splice(s, SlotPos(i) + 4, Le32(0));
      && LayoutOk(h, s')
      && SlotIn(s', i) == SlotIn(s, i).(length := 0)
      && (forall j :: 0 <= j < h.keyCount as int && j != i ==> SlotIn(s', j) == SlotIn(s, j))
  {
    var s' := Splice(s, SlotPos(i) + 4, Le32(0));
    forall j | 0 <= j < h.keyCount as int && j != i
      ensures SlotIn(s', j) == SlotIn(s, j)
    {
      SlotUnchanged(s, s', j);
    }
    assert SlotIn(s', i) == SlotIn(s, i).(length := 0) by {
      ReadAfterWrite32(s, SlotPos(i) + 4, 0);
      assert forall j :: SlotPos(i) <= j < SlotPos(i) + 4 ==> s'[j] == s[j];
    }
    forall j | 0 <= j < h.keyCount as int
      ensures InRecordArea(h, SlotIn(s', j))
    {
      assert InRecordArea(h, SlotIn(s, j));
    }
  }

  /** Zeroing the length field of slot `i` changes that one slot's length and nothing else the views see. */
  lemma DeleteImageLayout(h: PageHeader, s: seq<byte>, i: nat)
    requires LayoutOk(h, s) && i < h.keyCount as int
    ensures
      var s' := Splice(s, SlotPos(i) + 4, Le32(0));
      && LayoutOk(h, s')
      && SlotsOf(h, s') == SlotsOf(h, s)[i := SlotsOf(h, s)[i].(length := 0)]
      && RecordsOf(h, s') == RecordsOf(h, s)
      && KeysOf(h, s') == KeysOf(h, s)
  {
    var n := h.keyCount as int;
    var s' := Splice(s, SlotPos(i) + 4, Le32(0));
    DeleteImageSlots(h, s, i);
    SlotsUpToIndex(s, n);
    SlotsUpToIndex(s', n);
    assert SlotsOf(h, s') == SlotsOf(h, s)[i := SlotsOf(h, s)[i].(length := 0)];
    DeleteImageRecords(h, s, i);
    SameRecordsSameKeys(h, s, h, s');
  }

  /** Zeroing a length field moves no record and changes no record byte. */
  lemma DeleteImageRecords(h: PageHeader, s: seq<byte>, i: nat)
    requires LayoutOk(h, s) && i < h.keyCount as int
    ensures
      var s' := Splice(s, SlotPos(i) + 4, Le32(0));
      && LayoutOk(h, s')
      && RecordsOf(h, s') == RecordsOf(h, s)
  {
    var n := h.keyCount as int;
    var s' := Splice(s, SlotPos(i) + 4, Le32(0));
    DeleteImageSlots(h, s, i);
    LayoutFits(h, s);
    LayoutFits(h, s');
    RecordsUpToIndex(s, n);
    RecordsUpToIndex(s', n);
    forall j | 0 <= j < n
      ensures RecordAt(s', j) == RecordAt(s, j)
    {
      var o := SlotIn(s, j).offset as int;
      assert InRecordArea(h, SlotIn(s, j));
      RangeUnchanged(s, s', o, o + RECORD_SIZE);
    }
  }

  /** Keys are read from the records, so equal records give equal keys. */
  lemma SameRecordsSameKeys(h: PageHeader, s: seq<byte>, h': PageHeader, s': seq<byte>)
    requires LayoutOk(h, s) && LayoutOk(h', s') && RecordsOf(h', s') == RecordsOf(h, s)
    ensures KeysOf(h', s') == KeysOf(h, s)
  {
    KeysAreRecordKeys(h, s);
    KeysAreRecordKeys(h', s');
  }

  /** The delete image, once written out and sealed, has the same views as the delete image itself. */
  lemma DeleteStoredLayout(h: PageHeader, s: seq<byte>, i: nat)
    requires LayoutOk(h, s) && i < h.keyCount as int
    ensures
      var s' := StoredImage(h, Splice(s, SlotPos(i) + 4, Le32(0)));
      && LayoutOk(h, s')
      && SlotsOf(h, s') == SlotsOf(h, s)[i := SlotsOf(h, s)[i].(length := 0)]
      && RecordsOf(h, s') == RecordsOf(h, s)
      && KeysOf(h, s') == KeysOf(h, s)
  {
    var d := Splice(s, SlotPos(i) + 4, Le32(0));
    DeleteImageLayout(h, s, i);
    LayoutFrame(h, d, StoredImage(h, d));
  }

  // ---------------------------------------------------------------------
  // Byte moves on the page buffer
  // ---------------------------------------------------------------------

  /** `memmove` towards higher offsets: copies from the top down so no source byte is overwritten first. */
  method MoveUp(a: array<byte>, dst: nat, src: nat, len: nat)
    requires src <= dst && dst + len <= a.Length
    modifies a
    ensures a[..] == Splice(old(a[..]), dst, old(a[src..src + len]))
  {
    var i := len;
    while i > 0
      invariant 0 <= i <= len
      invariant forall j :: 0 <= j < a.Length && !(dst + i <= j < dst + len) ==> a[j] == old(a[j])
      invariant forall j :: dst + i <= j < dst + len ==> a[j] == old(a[j - dst + src])
    {
      i := i - 1;
      a[dst + i] := a[src + i];
    }
    var w := old(a[src..src + len]);
    var r := Splice(old(a[..]), dst, w);
    forall j | 0 <= j < a.Length
      ensures a[j] == r[j]
    {
      if dst <= j < dst + len {
        assert r[j] == r[dst..dst + len][j - dst];
      }
    }
    assert a[..] == r;
  }

  /** `memcpy` of `w` to offset `p`. */
  method CopyIn(a: array<byte>, p: nat, w: seq<byte>)
    requires p + |w| <= a.Length
    modifies a
    ensures a[..] == Splice(old(a[..]), p, w)
  {
    var i := 0;
    while i < |w|
      invariant i <= |w|
      invariant forall j :: 0 <= j < a.Length && !(p <= j < p + i) ==> a[j] == old(a[j])
      invariant forall j :: 0 <= j < i ==> a[p + j] == w[j]
    {
      a[p + i] := w[i];
      i := i + 1;
    }
    var r := Splice(old(a[..]), p, w);
    forall j | 0 <= j < a.Length
      ensures a[j] == r[j]
    {
      if p <= j < p + |w| {
        assert r[j] == r[p..p + |w|][j - p];
      }
    }
    assert a[..] == r;
  }

  /** The three writes `insert_index_item` performs give the insertion image. */
  lemma InsertSteps(s: seq<byte>, n: nat, t: nat, upper: nat, item: seq<byte>)
    requires t <= n && SlotPos(n) + SLOT_SIZE + |item| <= upper <= |s|
    requires |item| < TWO_32 && upper < TWO_32
    ensures
      var moved := Splice(s, SlotPos(t + 1), s[SlotPos(t)..SlotPos(n)]);
      var stored := Splice(moved, upper - |item|, item);
      Splice(stored, SlotPos(t), EncodeSlot(NewSlot(upper, |item|))) == InsertImage(s, n, t, upper, item)
  {
    var moved := Splice(s, SlotPos(t + 1), s[SlotPos(t)..SlotPos(n)]);
    var stored := Splice(moved, upper - |item|, item);
    var r := Splice(stored, SlotPos(t), EncodeSlot(NewSlot(upper, |item|)));
    InsertStepsBytes(s, n, t, upper, item);
    InsertImageBytes(s, n, t, upper, item);
    InsertedBytesUnique(s, r, InsertImage(s, n, t, upper, item), n, t, upper, item);
  }

  /** The three writes, region by region. */
  lemma InsertStepsBytes(s: seq<byte>, n: nat, t: nat, upper: nat, item: seq<byte>)
    requires t <= n && SlotPos(n) + SLOT_SIZE + |item| <= upper <= |s|
    requires |item| < TWO_32 && upper < TWO_32
    ensures
      var moved := Splice(s, SlotPos(t + 1), s[SlotPos(t)..SlotPos(n)]);
      var stored := Splice(moved, upper - |item|, item);
      InsertedBytes(s, Splice(stored, SlotPos(t), EncodeSlot(NewSlot(upper, |item|))), n, t, upper, item)
  {
    var e := EncodeSlot(NewSlot(upper, |item|));
    var moved := Splice(s, SlotPos(t + 1), s[SlotPos(t)..SlotPos(n)]);
    var stored := Splice(moved, upper - |item|, item);
    var r := Splice(stored, SlotPos(t), e);
    MovedSlots(s, n, t);
    ThreeWrites(s, moved, stored, r, n, t, upper, item);
  }

  /** Moving the slots from t on up by one slot leaves slot bytes t+1..n+1 holding the old slots t..n. */
  lemma MovedSlots(s: seq<byte>, n: nat, t: nat)
    requires t <= n && SlotPos(n) + SLOT_SIZE <= |s|
    ensures var moved := Splice(s, SlotPos(t + 1), s[SlotPos(t)..SlotPos(n)]);
      forall j :: 0 <= j < |s| ==>
        moved[j] == if SlotPos(t + 1) <= j < SlotPos(n + 1) then s[j - SLOT_SIZE] else s[j]
  {
    var moved := Splice(s, SlotPos(t + 1), s[SlotPos(t)..SlotPos(n)]);
    forall j | 0 <= j < |s|
      ensures moved[j] == if SlotPos(t + 1) <= j < SlotPos(n + 1) then s[j - SLOT_SIZE] else s[j]
    {
      SpliceIndex(s, SlotPos(t + 1), s[SlotPos(t)..SlotPos(n)], j);
    }
  }

  /** The regions of `InsertedBytes`, from what each of the three writes leaves byte by byte. */
  lemma ThreeWrites(s: seq<byte>, moved: seq<byte>, stored: seq<byte>, r: seq<byte>,
                    n: nat, t: nat, upper: nat, item: seq<byte>)
    requires t <= n && SlotPos(n) + SLOT_SIZE + |item| <= upper <= |s|
    requires |item| < TWO_32 && upper < TWO_32
    requires |moved| == |s| && |stored| == |s| && |r| == |s|
    requires forall j {:trigger moved[j]} :: 0 <= j < |s| ==>
      moved[j] == if SlotPos(t + 1) <= j < SlotPos(n + 1) then s[j - SLOT_SIZE] else s[j]
    requires forall j {:trigger stored[j]} :: 0 <= j < |s| && !(upper - |item| <= j < upper) ==> stored[j] == moved[j]
    requires stored[upper - |item|..upper] == item
    requires forall j {:trigger r[j]} :: 0 <= j < |s| && !(SlotPos(t) <= j < SlotPos(t + 1)) ==> r[j] == stored[j]
    requires r[SlotPos(t)..SlotPos(t + 1)] == EncodeSlot(NewSlot(upper, |item|))
    ensures InsertedBytes(s, r, n, t, upper, item)
  {
    RangeUnchanged(stored, r, upper - |item|, upper);
  }

  // ---------------------------------------------------------------------
  // The page object
  // ---------------------------------------------------------------------

  /** The header `init_header(pageId, pageType)` sets. */
  function InitialHeader(pageId: u32, pageType: u16): (h: PageHeader)
    ensures h.upperPtr as int == PAGE_SIZE && h.lowerPtr as int == HEADER_SIZE
    ensures h.keyCount == 0 && h.checksum == 0 && h.lsn == 0
    ensures h.magic == PAGE_MAGIC && h.version == 1
    ensures h.pageId == pageId && h.pageType == pageType
  {
    PageHeader(0, PAGE_MAGIC, 1, pageType, 0, pageId, PAGE_SIZE as u16, HEADER_SIZE as u16, 0)
  }

  /**
    The buffer `serialize_to_buffer` leaves: the encoded header in bytes
    [0, 30), then the checksum of bytes [4, 4096) in bytes [0, 4). Loading it
    back gives every header field but the checksum, which becomes the stored one.
  */
  function StoredImage(h: PageHeader, s: seq<byte>): (r: seq<byte>)
    requires |s| == PAGE_SIZE
    ensures |r| == PAGE_SIZE
    ensures r[HEADER_SIZE..] == s[HEADER_SIZE..]
    ensures PageChecksumOk(r)
    ensures DecodeHeader(r) == h.(checksum := ReadU32(r, 0))
  {
    var w := Splice(s, 0, EncodeHeader(h));
    SplicedHeader(h, s);
    FinalizedHeader(w);
    Finalized(w)
  }

  /** Header fields other than upper, lower and the key count do not affect the layout or its views. */
  lemma SameLayout(h: PageHeader, h': PageHeader, s: seq<byte>)
    requires LayoutOk(h, s)
    requires h'.keyCount == h.keyCount && h'.lowerPtr == h.lowerPtr && h'.upperPtr == h.upperPtr
    ensures LayoutOk(h', s)
    ensures SlotsOf(h', s) == SlotsOf(h, s) && RecordsOf(h', s) == RecordsOf(h, s)
    ensures KeysOf(h', s) == KeysOf(h, s)
  {
    assert forall i :: 0 <= i < h.keyCount as int ==> InRecordArea(h', SlotIn(s, i)) == InRecordArea(h, SlotIn(s, i));
  }

  class Page {
    const data: array<byte>
    var header: PageHeader
    var dirty: bool

    ghost predicate Valid()
      reads this
    {
      data.Length == PAGE_SIZE
    }

    /** The buffer is a well-formed slotted page for the in-memory header. */
    ghost predicate Consistent()
      reads this, data
    {
      Valid() && LayoutOk(header, data[..])
    }

    ghost function Slots(): seq<SlotEntry>
      reads this, data
      requires Consistent()
    {
      SlotsOf(header, data[..])
    }

    ghost function Records(): seq<seq<byte>>
      reads this, data
      requires Consistent()
    {
      RecordsOf(header, data[..])
    }

    ghost function Keys(): seq<int32>
      reads this, data
      requires Consistent()
    {
      KeysOf(header, data[..])
    }

    /** `Page()` followed by the header set-up: a zeroed buffer holding a fresh, empty, sealed page. */
    constructor (pageId: u32, pageType: u16)
      ensures Valid() && Consistent() && fresh(data)
      ensures header == InitialHeader(pageId, pageType)
      ensures data[..] == StoredImage(header, seq(PAGE_SIZE, _ => 0 as byte))
      ensures Keys() == [] && FreeSpace() as int == PAGE_SIZE - HEADER_SIZE
      ensures dirty
    {
      data := new byte[PAGE_SIZE](_ => 0 as byte);
      header := InitialHeader(pageId, pageType);
      dirty := false;
      new;
      assert data[..] == seq(PAGE_SIZE, _ => 0 as byte);
      InitHeader(pageId, pageType);
    }

    /** `init_header`: an empty page with the given id and type, written out and sealed. */
    method InitHeader(pageId: u32, pageType: u16)
      requires Valid()
      modifies this, data
      ensures Valid() && Consistent()
      ensures header == InitialHeader(pageId, pageType)
      ensures data[..] == StoredImage(header, old(data[..]))
      ensures Keys() == [] && FreeSpace() as int == PAGE_SIZE - HEADER_SIZE
      ensures PageChecksumOk(data[..])
      ensures dirty
    {
      header := InitialHeader(pageId, pageType);
      SerializeToBuffer();
    }

    /** `serialize_to_buffer`: copies the header into bytes [0, 30) and seals the page. */
    method SerializeToBuffer()
      requires Valid()
      modifies this`dirty, data
      ensures data[..] == StoredImage(header, old(data[..]))
      ensures old(Consistent()) ==> Consistent() && Slots() == old(Slots()) && Records() == old(Records())
      ensures dirty
    {
      ghost var before := data[..];
      SerializeHeader(header, data);
      FinalizePageChecksum(data);
      dirty := true;
      assert data[..] == StoredImage(header, before);
      if LayoutOk(header, before) {
        LayoutFrame(header, before, data[..]);
      }
    }

    /**
      `deserialize_from_buffer`: a page whose checksum fails is refused with
      the in-memory header untouched; otherwise the header is loaded and the
      page is accepted exactly when its magic number is right.
    */
    method DeserializeFromBuffer() returns (ok: bool)
      requires Valid()
      modifies this`header
      ensures !PageChecksumOk(data[..]) ==> !ok && header == old(header)
      ensures PageChecksumOk(data[..]) ==> header == DecodeHeader(data[..])
      ensures ok <==> PageChecksumOk(data[..]) && DecodeHeader(data[..]).magic == PAGE_MAGIC
    {
      var stored := ReadU32(data[..], 0);
      var calculated := SimpleChecksum(data, 4, PAGE_SIZE - 4);
      assert data[4..4 + (PAGE_SIZE - 4)] == data[..][4..];
      if stored != calculated {
        return false;
      }
      header := DecodeHeader(data[..]);
      if header.magic != PAGE_MAGIC {
        return false;
      }
      return true;
    }

    /**
      Writing the page out and loading it back: the load accepts it exactly
      when the magic number is right, and gives back every header field,
      with the checksum field now holding the checksum just stored.
    */
    method StoreLoadRoundTrip() returns (ok: bool)
      requires Valid()
      modifies this, data
      ensures ok == (old(header).magic == PAGE_MAGIC)
      ensures header == old(header).(checksum := ReadU32(data[..], 0))
      ensures PageChecksumOk(data[..])
    {
      SerializeToBuffer();
      ok := DeserializeFromBuffer();
    }

    /** `set_page_id`: changes the id and writes the header out. */
    method SetPageId(pageId: u32)
      requires Valid()
      modifies this, data
      ensures header == old(header).(pageId := pageId)
      ensures data[..] == StoredImage(header, old(data[..]))
      ensures old(Consistent()) ==> Consistent() && Slots() == old(Slots()) && Records() == old(Records())
      ensures dirty
    {
      ghost var h0, s0 := header, data[..];
      header := header.(pageId := pageId);
      if LayoutOk(h0, s0) {
        SameLayout(h0, header, s0);
      }
      SerializeToBuffer();
    }

    function IsLeaf(): bool
      reads this
    {
      header.pageType == LEAF_PAGE
    }

    /** `set_leaf`: the page type becomes LEAF or INTERNAL and the header is written out. */
    method SetLeaf(isLeaf: bool)
      requires Valid()
      modifies this, data
      ensures header == old(header).(pageType := if isLeaf then LEAF_PAGE else INTERNAL_PAGE)
      ensures IsLeaf() == isLeaf
      ensures data[..] == StoredImage(header, old(data[..]))
      ensures old(Consistent()) ==> Consistent() && Slots() == old(Slots()) && Records() == old(Records())
      ensures dirty
    {
      ghost var h0, s0 := header, data[..];
      header := header.(pageType := if isLeaf then LEAF_PAGE else INTERNAL_PAGE);
      if LayoutOk(h0, s0) {
        SameLayout(h0, header, s0);
      }
      SerializeToBuffer();
    }

    /** `set_lsn`: changes the log sequence number and writes the header out. */
    method SetLsn(lsn: u64)
      requires Valid()
      modifies this, data
      ensures header == old(header).(lsn := lsn)
      ensures data[..] == StoredImage(header, old(data[..]))
      ensures old(Consistent()) ==> Consistent() && Slots() == old(Slots()) && Records() == old(Records())
      ensures dirty
    {
      ghost var h0, s0 := header, data[..];
      header := header.(lsn := lsn);
      if LayoutOk(h0, s0) {
        SameLayout(h0, header, s0);
      }
      SerializeToBuffer();
    }

    /** `get_free_space`: the gap between the directory and the records, as a 16-bit difference. */
    function FreeSpace(): (r: u16)
      reads this
      ensures header.lowerPtr <= header.upperPtr ==> r as int + header.lowerPtr as int == header.upperPtr as int
      ensures header.upperPtr < header.lowerPtr ==> r as int == 0x1_0000 + header.upperPtr as int - header.lowerPtr as int
    {
      ((header.upperPtr as int - header.lowerPtr as int) % 0x1_0000) as u16
    }

    /** `get_slot`: the directory entry at `i`, or nothing past the last slot. */
    function GetSlot(i: u16): (r: Option<SlotEntry>)
      reads this, data
      requires Consistent()
      ensures r.Some? <==> i < header.keyCount
      ensures r.Some? ==> r.value == Slots()[i] && InRecordArea(header, r.value)
    {
      ViewsIndex(header, data[..]);
      if i >= header.keyCount then None else Some(SlotIn(data[..], i as nat))
    }

    /** `get_key_at_slot`: the key of the record slot `i` points at, for either page type. */
    function KeyAtSlot(i: u16): (k: int32)
      reads this, data
      requires Consistent() && i < header.keyCount
      ensures k == Keys()[i]
    {
      ViewsIndex(header, data[..]);
      SignedOf(ReadU32(data[..], SlotIn(data[..], i as nat).offset as nat))
    }

    /**
      `get_leaf_entry`: copies the record slot `i` points at; refused past the
      last slot or on an internal page. A slot deleted by `DeleteItem` still
      yields its record.
    */
    function GetLeafEntry(i: u16): (r: Option<LeafNode>)
      reads this, data
      requires Consistent()
      ensures r.Some? <==> i < header.keyCount && IsLeaf()
      ensures r.Some? ==> r.value == DecodeLeaf(Records()[i]) && r.value.key == Keys()[i]
    {
      ViewsIndex(header, data[..]);
      if i >= header.keyCount || !IsLeaf() then None
      else
        var o := SlotIn(data[..], i as nat).offset as int;
        Some(DecodeLeaf(data[o..o + RECORD_SIZE]))
    }

    /** `get_internal_entry`: as `GetLeafEntry`, refused on a leaf page. */
    function GetInternalEntry(i: u16): (r: Option<InternalNode>)
      reads this, data
      requires Consistent()
      ensures r.Some? <==> i < header.keyCount && !IsLeaf()
      ensures r.Some? ==> r.value == DecodeInternal(Records()[i]) && r.value.key == Keys()[i]
    {
      ViewsIndex(header, data[..]);
      if i >= header.keyCount || IsLeaf() then None
      else
        var o := SlotIn(data[..], i as nat).offset as int;
        Some(DecodeInternal(data[o..o + RECORD_SIZE]))
    }

    /**
      `find_insertion_point`: binary search for the first slot whose key is not
      below `key`. On any directory the result sits between a smaller key and a
      key not smaller, which on an ascending one makes it the lower bound
      (`LowerBound`).
    */
    method FindInsertionPoint(key: int32) returns (r: u16)
      requires Consistent()
      ensures r <= header.keyCount
      ensures 0 < r ==> Keys()[r - 1] < key
      ensures r < header.keyCount ==> key <= Keys()[r]
    {
      ghost var keys := Keys();
      var n := header.keyCount as int;
      var left, right := 0, n - 1;
      while left <= right
        invariant 0 <= left <= right + 1 <= n
        invariant 0 < left ==> keys[left - 1] < key
        invariant right + 1 < n ==> key <= keys[right + 1]
      {
        var mid := left + (right - left) / 2;
        var midKey := KeyAtSlot(mid as u16);
        assert midKey == keys[mid];
        if midKey < key {
          left := mid + 1;
        } else {
          right := mid - 1;
        }
      }
      r := left as u16;
    }

    /**
      `search_key`: binary search that returns a slot holding `key` when one
      is found, and otherwise the last slot whose key was seen to exceed `key`,
      or -1. On an ascending directory: a present key is always found, and an
      absent one yields its lower bound, or -1 when every key is smaller.
    */
    method SearchKey(key: int32) returns (r: int)
      requires Consistent()
      ensures -1 <= r < header.keyCount as int
      ensures 0 <= r ==> key <= Keys()[r]
      ensures Ascending(Keys()) && key in Keys() ==> 0 <= r && Keys()[r] == key
      ensures Ascending(Keys()) && key !in Keys() ==>
        (0 <= r ==> forall j :: 0 <= j < r ==> Keys()[j] < key) &&
        (r == -1 <==> forall j :: 0 <= j < |Keys()| ==> Keys()[j] < key)
    {
      ghost var keys := Keys();
      var n := header.keyCount as int;
      var left, right := 0, n - 1;
      var result := -1;
      while left <= right
        invariant 0 <= left <= right + 1 <= n
        invariant result == if right + 1 < n then right + 1 else -1
        invariant 0 < left ==> keys[left - 1] < key
        invariant right + 1 < n ==> key < keys[right + 1]
      {
        var mid := left + (right - left) / 2;
        var found, midKey := EntryKey(mid as u16);
        if !found {
          break;
        }
        if midKey == key {
          return mid;
        } else if midKey < key {
          left := mid + 1;
        } else {
          result := mid;
          right := mid - 1;
        }
      }
      if left > right && Ascending(keys) {
        SearchGap(keys, left, key);
      }
      r := result;
    }

    /**
      The entry read both searches make: `get_leaf_entry` on a leaf page,
      `get_internal_entry` otherwise, giving the entry's key when the slot exists.
    */
    method EntryKey(i: u16) returns (found: bool, k: int32)
      requires Consistent()
      ensures found <==> i < header.keyCount
      ensures found ==> k == Keys()[i]
    {
      k := 0;
      if IsLeaf() {
        var entry := GetLeafEntry(i);
        if entry.None? {
          return false, 0;
        }
        k := entry.value.key;
      } else {
        var entry := GetInternalEntry(i);
        if entry.None? {
          return false, 0;
        }
        k := entry.value.key;
      }
      found := true;
    }

    /** `linear_search_key`: the first slot holding `key`, or -1 when none does. */
    method LinearSearchKey(key: int32) returns (r: int)
      requires Consistent()
      ensures -1 <= r < header.keyCount as int
      ensures r == -1 <==> key !in Keys()
      ensures 0 <= r ==> Keys()[r] == key && forall j :: 0 <= j < r ==> Keys()[j] != key
    {
      ghost var keys := Keys();
      var i: u16 := 0;
      while i < header.keyCount
        invariant i <= header.keyCount
        invariant forall j :: 0 <= j < i as int ==> keys[j] != key
      {
        var found, k := EntryKey(i);
        if found && k == key {
          return i as int;
        }
        i := i + 1;
      }
      return -1;
    }

    /** `write_slot_to_buffer`. */
    method WriteSlot(i: nat, e: SlotEntry)
      requires Valid() && SlotPos(i) + SLOT_SIZE <= PAGE_SIZE
      modifies data
      ensures data[..] == Splice(old(data[..]), SlotPos(i), EncodeSlot(e))
    {
      WriteU32(data, SlotPos(i), e.offset);
      WriteU32(data, SlotPos(i) + 4, e.length);
      assert data[..] == Splice(old(data[..]), SlotPos(i), EncodeSlot(e));
    }

    /**
      `insert_index_item`: stores `item` just below the record area and
      inserts a slot for it at the binary-search position of `key`, shifting
      the later slots up. Refused, changing nothing, when the gap cannot hold
      one slot and the item.
    */
    method InsertIndexItem(item: seq<byte>, key: int32) returns (ok: bool, slotIdx: u16)
      requires Consistent() && RECORD_SIZE <= |item| < 0x1_0000
      modifies this, data
      ensures Consistent()
      ensures ok <==> SLOT_SIZE + |item| <= old(FreeSpace()) as int
      ensures !ok ==> header == old(header) && data[..] == old(data[..]) && dirty == old(dirty)
      ensures ok ==> slotIdx <= old(header.keyCount)
      ensures ok ==> old(header.lowerPtr) as int + SLOT_SIZE + |item| <= old(header.upperPtr) as int
      ensures ok ==> header == HeaderAfterInsert(old(header), |item|)
      ensures ok ==> data[..] == InsertImage(old(data[..]), old(header.keyCount) as int, slotIdx as int,
                                             old(header.upperPtr) as int, item)
      ensures ok ==> FreeSpace() as int == old(FreeSpace()) as int - SLOT_SIZE - |item|
      ensures ok ==> (0 < slotIdx ==> old(Keys())[slotIdx - 1] < key)
      ensures ok ==> (slotIdx < old(header.keyCount) ==> key <= old(Keys())[slotIdx])
      ensures ok ==> Records() == old(Records())[..slotIdx] + [item[..RECORD_SIZE]] + old(Records())[slotIdx..]
      ensures ok ==> Keys() == old(Keys())[..slotIdx] + [RecordKey(item)] + old(Keys())[slotIdx..]
      ensures ok && RecordKey(item) == key && old(Ascending(Keys())) ==> Ascending(Keys())
      ensures ok ==> dirty
    {
      ghost var s0 := data[..];
      ghost var h0 := header;
      var t := FindInsertionPoint(key);
      assert data[..] == s0 && header == h0;
      if header.lowerPtr as int + SLOT_SIZE + |item| > header.upperPtr as int {
        return false, 0;
      }
      dirty := true;
      StoreItem(item, t);
      InsertedPage(h0, s0, t as int, item, header, data[..]);
      slotIdx := t;
      ok := true;
      if RecordKey(item) == key && Ascending(KeysOf(h0, s0)) {
        InsertKeepsAscending(KeysOf(h0, s0), t as int, key);
      }
    }

    /**
      The writes `insert_index_item` makes once slot `t` is chosen and the
      item fits: the slots from `t` on move up one slot, the item goes just
      below the record area, the new slot is written at `t` and the header
      counts one more slot.
    */
    method StoreItem(item: seq<byte>, t: u16)
      requires Valid() && RECORD_SIZE <= |item| && t <= header.keyCount
      requires header.lowerPtr as int == SlotPos(header.keyCount as int)
      requires header.lowerPtr as int + SLOT_SIZE + |item| <= header.upperPtr as int <= PAGE_SIZE
      modifies this`header, data
      ensures old(header).keyCount as int + 1 < 0x1_0000
      ensures header == HeaderAfterInsert(old(header), |item|)
      ensures data[..] == InsertImage(old(data[..]), old(header.keyCount) as int, t as int,
                                      old(header.upperPtr) as int, item)
    {
      var n := header.keyCount as int;
      var upper := header.upperPtr as int;
      ghost var s0 := data[..];
      // Slots [t, n) move up by one slot; with t == n this moves nothing.
      MoveUp(data, SlotPos(t as int + 1), SlotPos(t as int), (n - t as int) * 8);
      CopyIn(data, upper - |item|, item);
      WriteSlot(t as int, NewSlot(upper, |item|));
      header := HeaderAfterInsert(header, |item|);
      InsertSteps(s0, n, t as int, upper, item);
    }

    /**
      `insert_leaf_entry`: inserts the record (key, value) in key order. The
      slot it lands in is returned as a ghost result, where the record then
      reads back.
    */
    method InsertLeafEntry(key: int32, value: int32) returns (ok: bool, ghost slotIdx: u16)
      requires Consistent()
      modifies this, data
      ensures Consistent()
      ensures ok <==> SLOT_SIZE + RECORD_SIZE <= old(FreeSpace()) as int
      ensures !ok ==> header == old(header) && data[..] == old(data[..])
      ensures ok ==> slotIdx <= old(header.keyCount) && header.keyCount == old(header.keyCount) + 1
      ensures ok ==> Records() == old(Records())[..slotIdx] + [EncodeLeaf(LeafNode(key, value))]
                                  + old(Records())[slotIdx..]
      ensures ok ==> Keys() == old(Keys())[..slotIdx] + [key] + old(Keys())[slotIdx..]
      ensures ok && old(Ascending(Keys())) ==> Ascending(Keys())
      ensures ok && IsLeaf() ==> GetLeafEntry(slotIdx) == Some(LeafNode(key, value))
    {
      var item := EncodeLeaf(LeafNode(key, value));
      LeafRoundTrip(LeafNode(key, value));
      assert item[..RECORD_SIZE] == item;
      ok, slotIdx := InsertIndexItem(item, key);
      if ok {
        assert Records()[slotIdx] == item;
      }
    }

    /** `insert_internal_entry`: as `InsertLeafEntry`, for a (key, child page) record. */
    method InsertInternalEntry(key: int32, childPageId: u32) returns (ok: bool, ghost slotIdx: u16)
      requires Consistent()
      modifies this, data
      ensures Consistent()
      ensures ok <==> SLOT_SIZE + RECORD_SIZE <= old(FreeSpace()) as int
      ensures !ok ==> header == old(header) && data[..] == old(data[..])
      ensures ok ==> slotIdx <= old(header.keyCount) && header.keyCount == old(header.keyCount) + 1
      ensures ok ==> Records() == old(Records())[..slotIdx] + [EncodeInternal(InternalNode(key, childPageId))]
                                  + old(Records())[slotIdx..]
      ensures ok ==> Keys() == old(Keys())[..slotIdx] + [key] + old(Keys())[slotIdx..]
      ensures ok && old(Ascending(Keys())) ==> Ascending(Keys())
      ensures ok && !IsLeaf() ==> GetInternalEntry(slotIdx) == Some(InternalNode(key, childPageId))
    {
      var item := EncodeInternal(InternalNode(key, childPageId));
      InternalRoundTrip(InternalNode(key, childPageId));
      assert item[..RECORD_SIZE] == item;
      ok, slotIdx := InsertIndexItem(item, key);
      if ok {
        assert Records()[slotIdx] == item;
      }
    }

    /**
      `delete_item`: a logical delete. The slot's length becomes 0 and the
      header is written out; the slot, its offset and its record stay, so
      searches still see the key.
    */
    method DeleteItem(i: u16) returns (ok: bool)
      requires Consistent()
      modifies this`dirty, data
      ensures Consistent()
      ensures ok <==> i < header.keyCount
      ensures !ok ==> data[..] == old(data[..]) && dirty == old(dirty)
      ensures ok ==> Slots() == old(Slots())[i := old(Slots())[i].(length := 0)]
      ensures ok ==> Records() == old(Records()) && Keys() == old(Keys())
      ensures ok ==> data[..] == StoredImage(header, Splice(old(data[..]), SlotPos(i as int) + 4, Le32(0)))
      ensures ok ==> dirty
    {
      if i >= header.keyCount {
        return false;
      }
      ghost var s0 := data[..];
      WriteU32(data, SlotPos(i as int) + 4, 0);
      ghost var s1 := data[..];
      assert s1 == Splice(s0, SlotPos(i as int) + 4, Le32(0));
      SerializeToBuffer();
      assert data[..] == StoredImage(header, s1);
      DeleteStoredLayout(header, s0, i as int);
      return true;
    }
  }
}
