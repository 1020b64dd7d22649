/**
 Where the source, read to the letter, departs from what it is for.

 The other modules model the intended form.  Here each departure is stated as
 written, with an input on which it fails and the exact condition under which it
 does what is meant.
 */
module LiteralForm {
  import opened KeyOrder
  import opened Layout
  import opened Spec
  import opened Image
  import opened Search
  import opened Packing

  // ---------- layout ----------

  /** The source reserves the value slots of one item only. */
  function LiteralItemHalf(keyCount: nat, maxVer: nat): nat {
    keyCount * ITEM_SIZE + maxVer * VAL_SIZE
  }

  /** The reserved half holds every cell of every item only for a single item, or
      without value slots. */
  lemma LiteralHalfHolds(start: nat, keyCount: nat, maxVer: nat)
    ensures (forall i: nat, c: nat :: i < keyCount && c <= maxVer ==>
               CellAddress(start, maxVer, i, c) + VAL_SIZE <= start + LiteralItemHalf(keyCount, maxVer))
            <==> keyCount <= 1 || maxVer == 0
  {
    var end := start + LiteralItemHalf(keyCount, maxVer);
    if keyCount <= 1 || maxVer == 0 {
      forall i: nat, c: nat | i < keyCount && c <= maxVer
        ensures CellAddress(start, maxVer, i, c) + VAL_SIZE <= end
      {
        CellsFit(start, keyCount, maxVer, i, c, i, c);
        assert keyCount * ItemLen(maxVer) == LiteralItemHalf(keyCount, maxVer) by {
          if keyCount == 0 {
            assert false;
          } else if maxVer == 0 {
            assert ItemLen(maxVer) == ITEM_SIZE;
          } else {
            assert keyCount == 1;
          }
        }
      }
    } else {
      var n := keyCount - 1;
      assert CellAddress(start, maxVer, n, maxVer) + VAL_SIZE == start + n * ItemLen(maxVer) + ItemLen(maxVer);
      assert n * ItemLen(maxVer) == n * ITEM_SIZE + n * (maxVer * VAL_SIZE);
      assert n * (maxVer * VAL_SIZE) >= maxVer * VAL_SIZE by { StepUp(0, n, maxVer * VAL_SIZE); }
      assert CellAddress(start, maxVer, n, maxVer) + VAL_SIZE > end;
    }
  }

  // ---------- strides: an item half as a row of 16-byte cells ----------

  function CellIndex(maxVer: nat, i: nat, c: nat): nat {
    i * (1 + maxVer) + c
  }

  /** The extent field of cell `k`: the key of an item or one of its slots. */
  function CellAt(items: seq<Item>, maxVer: nat, k: nat): Extent
    requires k < |items| * (1 + maxVer)
    requires forall i :: 0 <= i < |items| ==> |items[i].slots| == maxVer
  {
    var i, c := k / (1 + maxVer), k % (1 + maxVer);
    assert i < |items| by {
      if i >= |items| {
        StepMul(|items|, i, 1 + maxVer);
      }
    }
    if c == 0 then items[i].key else items[i].slots[c - 1]
  }

  lemma StepMul(a: nat, b: nat, n: nat)
    requires a <= b
    ensures a * n <= b * n
  {
    assert b * n == a * n + (b - a) * n;
  }

  lemma CellIndexSplits(maxVer: nat, i: nat, c: nat)
    requires c <= maxVer
    ensures CellIndex(maxVer, i, c) / (1 + maxVer) == i && CellIndex(maxVer, i, c) % (1 + maxVer) == c
  {
    var n := 1 + maxVer;
    var k := CellIndex(maxVer, i, c);
    assert k == n * (k / n) + k % n;
    if k / n < i {
      StepUp(k / n, i, n);
    } else if i < k / n {
      StepUp(i, k / n, n);
    }
  }

  /** Key compaction takes cell i for the header of item i: right for all items
      only if there is at most one. */
  lemma LiteralKeyStride(used: nat, maxVer: nat)
    ensures (forall i: nat :: i < used ==> CellIndex(maxVer, i, 0) == i) <==> used <= 1 || maxVer == 0
  {
    if used > 1 && maxVer > 0 {
      assert CellIndex(maxVer, 1, 0) == 1 + maxVer;
    } else if maxVer == 0 {
      assert forall i: nat :: CellIndex(0, i, 0) == i;
    } else if used == 1 {
      assert CellIndex(maxVer, 0, 0) == 0;
    }
  }

  /** With two items and slots, the second "key" it copies is a value of the first. */
  lemma LiteralKeyStrideFails(items: seq<Item>, maxVer: nat)
    requires |items| >= 2 && maxVer >= 1
    requires forall i :: 0 <= i < |items| ==> |items[i].slots| == maxVer
    ensures 1 < |items| * (1 + maxVer) && CellAt(items, maxVer, 1) == items[0].slots[0]
  {
    StepMul(2, |items|, 1 + maxVer);
    CellIndexSplits(maxVer, 0, 1);
  }

  /** The cell of the j-th live slot of an item with `count` values, and the cell
      the value compaction takes for it. */
  function LiveCell(maxVer: nat, count: nat, i: nat, j: nat): nat
    requires count <= maxVer
  {
    CellIndex(maxVer, i, 1 + maxVer - count + j)
  }

  function WalkedCell(i: nat, j: nat): nat {
    i + 16 + 16 * j
  }

  ghost predicate ValueStrideRight(counts: seq<nat>, maxVer: nat)
    requires forall i :: 0 <= i < |counts| ==> 1 <= counts[i] <= maxVer
  {
    forall i: nat, j: nat :: i < |counts| && j < counts[i] ==> LiveCell(maxVer, counts[i], i, j) == WalkedCell(i, j)
  }

  /** That is never right while there are items, but for one lone value in a window
      of sixteen. */
  lemma LiteralValueStride(counts: seq<nat>, maxVer: nat)
    requires forall i :: 0 <= i < |counts| ==> 1 <= counts[i] <= maxVer
    ensures ValueStrideRight(counts, maxVer) <==> counts == [] || (counts == [1] && maxVer == 16)
  {
    if counts != [] {
      assert LiveCell(maxVer, counts[0], 0, 0) == 1 + maxVer - counts[0];
      assert WalkedCell(0, 0) == 16;
      if counts[0] > 1 {
        assert LiveCell(maxVer, counts[0], 0, 1) == 2 + maxVer - counts[0];
        assert WalkedCell(0, 1) == 32;
      }
      if |counts| > 1 {
        assert LiveCell(maxVer, counts[1], 1, 0) == 1 + maxVer + 1 + maxVer - counts[1];
        assert WalkedCell(1, 0) == 17;
      }
      if counts == [1] && maxVer == 16 {
        assert forall i: nat, j: nat :: i < 1 && j < counts[i] ==> LiveCell(16, counts[i], i, j) == WalkedCell(i, j);
      }
    }
  }

  /** Even with the stride mended, the walk covers slots 0 .. count - 1 instead of
      the last `count`.  Once the other half is selected the item is sound only if
      its window is full. */
  lemma LiteralWindow(h: Header, h': Header, total: nat, it: Item, moved: Item)
    requires HeapsTile(h, total) && h.key.Valid() && h.value.Valid() && ItemOk(h, it)
    requires h' == h.(value := h.value.(id := h.value.SnapId(), used := h'.value.used)) && h'.value.Valid()
    requires moved.key == it.key && moved.count == it.count && |moved.slots| == |it.slots|
    requires forall j :: 0 <= j < it.count ==> InHeap(h'.value, moved.slots[j])
    requires forall j :: it.count <= j < |it.slots| ==> moved.slots[j] == it.slots[j]
    ensures ItemOk(h', moved) <==> it.count == h.maxVer
  {
    var last := |it.slots| - 1;
    assert it.Live(last) && moved.Live(last);
    if it.count < h.maxVer {
      assert InHeap(h.value, moved.slots[last]);
      assert !InHeap(h'.value, moved.slots[last]);
    }
  }

  /** Version 0, which the public lookup of the latest value passes, selects the
      cell behind the newest slot: the key of the next item. */
  lemma VersionZeroIsNextKey(items: seq<Item>, maxVer: nat, i: nat)
    requires i + 1 < |items|
    requires forall k :: 0 <= k < |items| ==> |items[k].slots| == maxVer
    ensures var k := CellIndex(maxVer, i, 1 + (maxVer - 0));
            k < |items| * (1 + maxVer) && CellAt(items, maxVer, k) == items[i + 1].key
  {
    assert CellIndex(maxVer, i, 1 + maxVer) == CellIndex(maxVer, i + 1, 0);
    CellIndexSplits(maxVer, i + 1, 0);
    StepUp(i + 1, |items|, 1 + maxVer);
  }

  // ---------- delete ----------

  /** `Undefined` is an overlapping memcpy. */
  datatype Outcome<T> = Undefined | Items(items: seq<T>)

  /** Delete as written: the distance to the item counts cells, not items. */
  function LiteralDelete<T>(items: seq<T>, idx: nat, maxVer: nat): Outcome<T>
    requires idx < |items|
  {
    if CellIndex(maxVer, idx, 0) + 1 < |items| then Undefined else Items(items[..|items| - 1])
  }

  /** It removes the item it found exactly when that is the last one. */
  lemma LiteralDeleteExact<T>(items: seq<T>, idx: nat, maxVer: nat)
    requires idx < |items| && forall i, j :: 0 <= i < j < |items| ==> items[i] != items[j]
    ensures LiteralDelete(items, idx, maxVer) == Items(RemoveAt(items, idx)) <==> idx == |items| - 1
  {
    var n := |items|;
    if idx == n - 1 {
      StepMul(1, 1 + maxVer, idx);
      assert CellIndex(maxVer, idx, 0) >= idx;
      assert RemoveAt(items, idx) == items[..n - 1];
    } else {
      assert RemoveAt(items, idx)[idx] == items[idx + 1] != items[..n - 1][idx];
    }
  }

  /** Deleting the second of three items drops the third. */
  lemma LiteralDeleteFails<T>(a: T, b: T, c: T)
    ensures LiteralDelete([a, b, c], 1, 3) == Items([a, b])
  {
    assert [a, b, c][..2] == [a, b];
  }

  // ---------- the insertion search with unsigned bounds ----------

  datatype Position = Wrapped | At(pos: nat)

  /** The search as written: `high` is unsigned, so 0 - 1 wraps around. */
  function LiteralPosition(mem: Bytes, items: seq<Item>, elt: Item, low: nat, high: nat): Position
    requires KeysInside(mem, items) && elt.key.offset + elt.key.len <= |mem|
    requires low < |items| && high < |items|
    decreases if high < low then 0 else high - low + 1
  {
    if high <= low then
      At(if ItemCompare(mem, InFile(elt.key), items[low]) > 0 then low + 1 else low)
    else
      var mid := (low + high) / 2;
      var ret := ItemCompare(mem, InFile(elt.key), items[mid]);
      if ret == 0 then At(mid + 1)
      else if ret > 0 then LiteralPosition(mem, items, elt, mid + 1, high)
      else if mid == 0 then Wrapped
      else LiteralPosition(mem, items, elt, low, mid - 1)
  }

  /** A search that always goes left from [0, high] comes to the range [0, 1]. */
  predicate ComesToOne(high: nat) {
    high == 1 || (high >= 2 && ComesToOne(high / 2 - 1))
  }

  function Pow2(k: nat): nat {
    if k == 0 then 1 else 2 * Pow2(k - 1)
  }

  ghost predicate WrapBand(high: nat, k: nat) {
    3 * Pow2(k) - 2 <= high <= 4 * Pow2(k) - 3
  }

  /** Those ranges are 1, 4 to 5, 10 to 13, 22 to 29, and so on. */
  lemma {:induction false} WrapBands(high: nat)
    ensures ComesToOne(high) <==> exists k: nat :: WrapBand(high, k)
  {
    if high < 2 {
      assert WrapBand(1, 0);
      if high == 0 {
        forall k: nat
          ensures !WrapBand(high, k)
        {
          Pow2Positive(k);
        }
      }
    } else {
      WrapBands(high / 2 - 1);
      if ComesToOne(high / 2 - 1) {
        var k: nat :| WrapBand(high / 2 - 1, k);
        assert WrapBand(high, k + 1);
      }
      if k: nat :| WrapBand(high, k) {
        assert k > 0;
        assert WrapBand(high / 2 - 1, k - 1);
      }
    }
  }

  lemma {:induction false} Pow2Positive(k: nat)
    ensures Pow2(k) >= 1
  {
    if k > 0 {
      Pow2Positive(k - 1);
    }
  }

  /** Past index 0 the unsigned search is the signed one. */
  lemma {:induction false} LiteralPositionRight(mem: Bytes, items: seq<Item>, elt: Item, low: nat, high: nat)
    requires KeysInside(mem, items) && elt.key.offset + elt.key.len <= |mem|
    requires 0 < low < |items| && low - 1 <= high < |items|
    ensures LiteralPosition(mem, items, elt, low, high) == At(InsertPosition(mem, items, elt, low, high))
    decreases high - low + 1
  {
    hide ItemCompare;
    if low < high {
      var mid := (low + high) / 2;
      LiteralPositionRight(mem, items, elt, mid + 1, high);
      LiteralPositionRight(mem, items, elt, low, mid - 1);
    }
  }

  /** The unsigned search wraps exactly when the new key sorts before every stored
      key and their number is in one of the bands; otherwise it finds the place. */
  lemma {:induction false} LiteralPositionExact(mem: Bytes, items: seq<Item>, count: nat, high: nat)
    requires KeysInside(mem, items) && count < |items| && high <= count
    requires Ordered(Entries(mem, items[..count]))
    requires forall i :: 0 <= i < count ==> Read(mem, items[i].key) != Read(mem, items[count].key)
    ensures LiteralPosition(mem, items, items[count], 0, high)
            == if high > 0 && Less(Read(mem, items[count].key), Read(mem, items[0].key)) && ComesToOne(high)
               then Wrapped
               else At(InsertPosition(mem, items, items[count], 0, high))
    decreases high
  {
    hide Less, ItemCompare, Ordered, Read, InsertPosition;
    if high > 0 {
      var mid := high / 2;
      var key, es := Read(mem, items[count].key), Entries(mem, items[..count]);
      LiteralStep(mem, items, items[count], high);
      InsertPositionStep(mem, items, items[count], 0, high);
      FirstDecides(mem, items, count, mid, key);
      if Less(key, Read(mem, items[mid].key)) {
        if mid > 0 {
          LiteralPositionExact(mem, items, count, mid - 1);
          if mid == 1 {
            OneStep(mem, items, items[count]);
          }
        }
      } else {
        LiteralPositionRight(mem, items, items[count], mid + 1, high);
      }
    } else {
      OneStep(mem, items, items[count]);
    }
  }

  lemma OneStep(mem: Bytes, items: seq<Item>, elt: Item)
    requires KeysInside(mem, items) && elt.key.offset + elt.key.len <= |mem| && items != []
    ensures LiteralPosition(mem, items, elt, 0, 0) == At(InsertPosition(mem, items, elt, 0, 0))
  {
  }

  lemma LiteralStep(mem: Bytes, items: seq<Item>, elt: Item, high: nat)
    requires KeysInside(mem, items) && elt.key.offset + elt.key.len <= |mem|
    requires 0 < high < |items| && Read(mem, items[(0 + high) / 2].key) != Read(mem, elt.key)
    ensures var mid := (0 + high) / 2;
            LiteralPosition(mem, items, elt, 0, high)
            == if !Less(Read(mem, elt.key), Read(mem, items[mid].key)) then LiteralPosition(mem, items, elt, mid + 1, high)
               else if mid == 0 then Wrapped
               else LiteralPosition(mem, items, elt, 0, mid - 1)
  {
    hide Less, ItemCompare, Read;
    var mid := (0 + high) / 2;
    ItemCompareIsOrder(mem, InFile(elt.key), items[mid]);
    LessTrichotomy(Read(mem, elt.key), Read(mem, items[mid].key));
  }

  /** A key above the middle item is not below the first. */
  lemma FirstDecides(mem: Bytes, items: seq<Item>, count: nat, mid: nat, key: Bytes)
    requires KeysInside(mem, items) && mid < count <= |items|
    requires Ordered(Entries(mem, items[..count])) && key != Read(mem, items[mid].key)
    ensures Less(key, Read(mem, items[0].key)) ==> Less(key, Read(mem, items[mid].key))
  {
    hide Less, Read;
    var es := Entries(mem, items[..count]);
    assert es[0].key == Read(mem, items[0].key) && es[mid].key == Read(mem, items[mid].key);
    if mid > 0 && Less(key, es[0].key) {
      LessTransitive(key, es[0].key, es[mid].key);
    }
  }

  // ---------- key compaction and its caller ----------

  /** The bytes the loop of key compaction counts. */
  function CountedLen(items: seq<Item>): (n: nat)
    ensures (forall i :: 0 <= i < |items| ==> items[i].key.len >= 1) ==> n >= |items|
  {
    if items == [] then 0 else CountedLen(items[..|items| - 1]) + items[|items| - 1].key.len
  }

  /** Key compaction as written: the address it hands back, and the key section after
      it, unless the new key does not fit. */
  function LiteralKeyCompaction(s: Section, items: seq<Item>, k: Bytes): Option<(nat, Section)> {
    if |k| + CountedLen(items) > s.size then None
    else Some((s.SnapOffset(), s.(used := CountedLen(items), id := s.SnapId())))
  }

  /** The caller as written: where the key's bytes go, and the extent the item gets
      for them. */
  function LiteralStoreKey(s: Section, items: seq<Item>, k: Bytes): Option<(nat, Extent)> {
    if s.used + |k| > s.size then
      var offset := s.SnapOffset();
      match LiteralKeyCompaction(s, items, k)
      case None => None
      case Some((p, after)) => Some((p, Extent(offset + after.used, |k|)))
    else
      Some((s.Offset() + s.used, Extent(s.Offset() + s.used, |k|)))
  }

  /** The bytes counted are the live key bytes. */
  lemma {:induction false} CountedLenIsSum(h: Header, mem: Bytes, items: seq<Item>)
    requires AllOk(h, items) && h.key.Offset() + h.key.used <= |mem|
    ensures CountedLen(items) == KeySum(Entries(mem, items))
    decreases |items|
  {
    if items != [] {
      var n := |items| - 1;
      CountedLenIsSum(h, mem, items[..n]);
      assert ItemOk(h, items[n]);
      ReadLen(h.key, mem, items[n].key);
      assert Entries(mem, items)[..n] == Entries(mem, items[..n]);
    }
  }

  /** The key is stored exactly when the live keys leave room for it, but in the
      place the item records for it exactly when the free tail was long enough or
      nothing was packed. */
  lemma LiteralKeyAddress(h: Header, mem: Bytes, items: seq<Item>, k: Bytes)
    requires Sound(h, mem, items) && h.key.Offset() + h.key.used <= |mem|
    ensures var r := LiteralStoreKey(h.key, items, k);
            && (r == None <==> KeySum(Entries(mem, items)) + |k| > h.key.size)
            && (r != None ==>
                  (r.value.0 == r.value.1.offset <==> h.key.used + |k| <= h.key.size || items == []))
  {
    hide KeySum, ValueSum, Entries;
    CountedLenIsSum(h, mem, items);
    forall i | 0 <= i < |items|
      ensures items[i].key.len >= 1
    {
      assert ItemOk(h, items[i]);
    }
  }

  /** The packed keys, one after the other. */
  function Block(es: seq<Entry>): (block: Bytes)
    ensures |block| == KeySum(es)
  {
    if es == [] then [] else Block(es[..|es| - 1]) + es[|es| - 1].key
  }

  /** Each of the keys reads back from its place in the block at `target`. */
  ghost predicate BlockReads(mem: Bytes, target: nat, es: seq<Entry>) {
    forall t :: 0 <= t < |es| ==> Read(mem, Extent(target + KeySum(es[..t]), |es[t].key|)) == es[t].key
  }

  lemma BlockReadsSnoc(mem: Bytes, target: nat, es: seq<Entry>)
    requires es != []
    ensures var n := |es| - 1;
            BlockReads(mem, target, es)
            <==> BlockReads(mem, target, es[..n]) && Read(mem, Extent(target + KeySum(es[..n]), |es[n].key|)) == es[n].key
  {
    hide KeySum, Read;
    var n := |es| - 1;
    forall t | 0 <= t <= n
      ensures t < n ==> es[..n][..t] == es[..t] && es[..n][t] == es[t]
    {
    }
  }

  lemma JoinedEqual(whole: Bytes, a: Bytes, b: Bytes, n: nat)
    requires n == |a| && |whole| == |a| + |b|
    ensures whole == a + b <==> whole[..n] == a && whole[n..] == b
  {
    assert whole == whole[..n] + whole[n..];
    assert (a + b)[..n] == a && (a + b)[n..] == b;
  }

  /** That is, the block stands there byte for byte. */
  lemma {:induction false} BlockBytes(mem: Bytes, target: nat, es: seq<Entry>)
    requires target + KeySum(es) <= |mem|
    ensures BlockReads(mem, target, es) <==> mem[target..target + KeySum(es)] == Block(es)
    decreases |es|
  {
    hide BlockReads;
    if es == [] {
      NothingReads(mem, target);
    } else {
      var n := |es| - 1;
      var small, key, mid := es[..n], es[n].key, target + KeySum(es[..n]);
      BlockBytes(mem, target, small);
      BlockReadsSnoc(mem, target, es);
      var whole := mem[target..target + KeySum(es)];
      assert whole[..KeySum(small)] == mem[target..mid] && whole[KeySum(small)..] == mem[mid..mid + |key|];
      JoinedEqual(whole, Block(small), key, KeySum(small));
    }
  }

  lemma NothingReads(mem: Bytes, target: nat)
    ensures BlockReads(mem, target, [])
  {
  }

  /** Written at the start of the target half, the new key leaves every packed key
      in place exactly when it repeats the bytes of the block it falls on. */
  lemma LiteralKeyOverwrites(mem: Bytes, target: nat, es: seq<Entry>, k: Bytes)
    requires target + KeySum(es) <= |mem| && target + |k| <= |mem| && BlockReads(mem, target, es)
    ensures BlockReads(Blit(mem, target, k), target, es)
            <==> forall i :: 0 <= i < |k| && i < KeySum(es) ==> k[i] == Block(es)[i]
  {
    hide KeySum, Block, Blit, BlockReads;
    var after := Blit(mem, target, k);
    BlockBytes(mem, target, es);
    BlockBytes(after, target, es);
    var was, now := mem[target..target + KeySum(es)], after[target..target + KeySum(es)];
    forall i | 0 <= i < KeySum(es)
      ensures now[i] == if i < |k| then k[i] else was[i]
    {
      if i < |k| {
        assert Read(after, Extent(target, |k|))[i] == after[target + i];
      }
    }
  }

  /** The key section after a set whose value did not fit, as written: whatever the
      key did to it stays. */
  function LiteralKeyAfterOverflow(s: Section, live: nat, k: Bytes): Section {
    if s.used + |k| > s.size then s.(id := s.SnapId(), used := live + |k|) else s.(used := s.used + |k|)
  }

  /** That is, as if the value had fit: with a value heap of any size in which it does. */
  lemma LiteralOverflowIsAccepted(base: Image, op: Op, room: nat)
    requires ValidImage(base) && op.Set? && Stored(op.key) !in View(base) && |View(base)| < base.hdr.item.size
    requires KeyBytes(View(base)) + |Stored(op.key)| <= base.hdr.key.size
    requires ValueBytes(View(base)) + |Stored(op.value)| <= room
    ensures var s := LiteralKeyAfterOverflow(base.hdr.key, KeySum(Published(base)), Stored(op.key));
            Heap(s.used, s.id)
            == KeyHeapStep(Capacities(base.hdr).(valueBytes := room), View(base), KeyHeapOf(base.hdr), op).0
  {
    hide Ordered, KeySum, KeyBytes, ValueBytes, Published, MapOf;
    OrderedDistinct(Published(base));
    SumsAreMapSums(Published(base));
  }

  /** After that the map reads as before, but the invariant holds exactly when the
      key did not have to be compacted, or there was no item. */
  lemma LiteralOverflow(base: Image, img: Image, calm: bool, k: Bytes)
    requires ValidImage(base) && Quiet(base, img, calm) && Shape(img)
    requires img.hdr.value == base.hdr.value
    requires img.hdr.key == LiteralKeyAfterOverflow(base.hdr.key, KeySum(Published(base)), k)
    ensures Readable(img) && View(img) == View(base)
    ensures ValidImage(img) <==> base.hdr.item.used == 0 || base.hdr.key.used + |k| <= base.hdr.key.size
  {
    hide Readable, Ordered, KeySum, ValueSum, Published;
    QuietView(base, img, calm);
    if base.hdr.key.used + |k| <= base.hdr.key.size {
      AbandonedValid(base, img, calm);
    } else if base.hdr.item.used == 0 {
      NoItemsValid(base, img);
    } else {
      var it := img.Active()[..img.hdr.item.used][0];
      assert it == base.Active()[..base.hdr.item.used][0] && ItemOk(base.hdr, it);
      assert !ItemOk(img.hdr, it);
    }
  }

  lemma NoItemsValid(base: Image, img: Image)
    requires Shape(img) && img.hdr.item.used == 0
    ensures ValidImage(img)
  {
    assert img.Active()[..0] == [];
    assert Published(img) == [];
  }

  /** What that leads to: the next key compaction takes the half the keys are in for
      its target, and begins by copying the first key of the index to the start of
      it.  The key that lies there, the first one stored, survives exactly when the
      copied key is the beginning of it: for keys without inner NULs, when the two
      are one.  So it is lost after "b" and then "a" were stored. */
  lemma StrandedKeysAreLost(base: Image, img: Image, calm: bool, k: Bytes, t: nat)
    requires ValidImage(base) && Quiet(base, img, calm) && Shape(img)
    requires img.hdr.key == LiteralKeyAfterOverflow(base.hdr.key, KeySum(Published(base)), k)
    requires base.hdr.key.used + |k| > base.hdr.key.size
    requires t < base.hdr.item.used && base.Active()[t].key.offset == base.hdr.key.Offset()
    ensures |Published(base)| == base.hdr.item.used
    ensures var first, target, key := Published(base)[0].key, img.hdr.key.SnapOffset(), img.Active()[t].key;
            && target + |first| <= |img.mem|
            && Read(img.mem, key) == Published(base)[t].key
            && (Read(Blit(img.mem, target, first), key) == Published(base)[t].key
                <==> first <= Published(base)[t].key)
  {
    hide Ordered, KeySum, ValueSum, Blit;
    var es, items := Published(base), base.Active()[..base.hdr.item.used];
    QuietView(base, img, calm);
    SoundAt(base.hdr, base.mem, items, 0);
    SoundAt(base.hdr, base.mem, items, t);
    ReadLen(base.hdr.key, base.mem, items[0].key);
    ReadLen(base.hdr.key, base.mem, items[t].key);
    var first, target, e := es[0].key, img.hdr.key.SnapOffset(), items[t].key;
    assert Published(img)[t] == EntryOf(img.mem, items[t]);
    FirstShortest(es, t);
    StartOverwritten(img.mem, target, e.len, first);
    AgreeIsPrefix(first, es[t].key);
    assert Extent(target, e.len) == e;
  }

  lemma FirstShortest(es: seq<Entry>, t: nat)
    requires Ordered(es) && t < |es|
    ensures |es[0].key| <= |es[t].key|
  {
  }

  /** What is copied to the place where `e` starts leaves it as it was exactly if the
      two agree as far as both go. */
  lemma StartOverwritten(mem: Bytes, at: nat, n: nat, s: Bytes)
    requires at + |s| <= |mem| && at + n <= |mem|
    ensures var was := Read(mem, Extent(at, n));
            Read(Blit(mem, at, s), Extent(at, n)) == was <==> Agree(s, was)
  {
    hide Blit;
    var after := Blit(mem, at, s);
    var was, now := Read(mem, Extent(at, n)), Read(after, Extent(at, n));
    forall i | 0 <= i < n
      ensures now[i] == if i < |s| then s[i] else was[i]
    {
      if i < |s| {
        assert Read(after, Extent(at, |s|))[i] == after[at + i];
      }
    }
    if Agree(s, was) {
      assert now == was;
    }
  }

  ghost predicate Agree(a: Bytes, b: Bytes) {
    forall i :: 0 <= i < |a| && i < |b| ==> a[i] == b[i]
  }

  lemma AgreeIsPrefix(a: Bytes, b: Bytes)
    requires |a| <= |b|
    ensures Agree(a, b) <==> a <= b
  {
    if Agree(a, b) {
      assert a == b[..|a|];
    }
  }

  /** A packed extent that is packed again is copied onto itself. */
  lemma CopyOntoItself(mem: Bytes, e: Extent)
    requires e.offset + e.len <= |mem|
    ensures Blit(mem, e.offset, Read(mem, e)) == mem
  {
  }

  // ---------- values in the wrong half ----------

  /** An index like the one `CachedPointer.SetThenDelete` ends with, published from a
      stale item half: item `i` is dropped, all others are as in `base`, but the value
      half has been switched. */
  ghost predicate StaleIndex(base: Image, img: Image, i: nat) {
    var n := base.hdr.item.used;
    && img.hdr.value.id == base.hdr.value.SnapId()
    && i < n <= |base.Active()| && img.hdr.item.used == n - 1 <= |img.Active()|
    && img.Active()[..n - 1] == RemoveAt(base.Active()[..n], i)
  }

  /** All of its entries still read as they should. */
  lemma StaleIndexReads(base: Image, img: Image, calm: bool, i: nat)
    requires ValidImage(base) && Kept(base, img, calm) && StaleIndex(base, img, i)
    ensures i < |Published(base)| && Published(img) == RemoveAt(Published(base), i)
    ensures forall t :: 0 <= t < img.hdr.item.used ==> ItemOk(base.hdr, img.Active()[t])
  {
    hide Ordered, KeySum, ValueSum, EntryOf, ItemOk, RemoveAt;
    KeptThrough(base, img, calm);
    var items := base.Active()[..base.hdr.item.used];
    EntriesRemove(img.mem, items, i);
    assert img.Half(base.hdr.item.id)[..base.hdr.item.used] == items;
    assert Published(base) == Entries(img.mem, items);
    forall t | 0 <= t < img.hdr.item.used
      ensures ItemOk(base.hdr, img.Active()[t])
    {
      var from := if t < i then t else t + 1;
      assert img.Active()[t] == RemoveAt(items, i)[t] == items[from];
      assert ItemOk(base.hdr, items[from]);
    }
  }

  /** But no value lies in the active half, so the next value compaction begins by
      copying the oldest value of the first item to the start of the half they lie in.
      The value that starts there survives exactly if the two agree as far as both
      go: for values without inner NULs, when they are the same. */
  lemma StrandedValuesAreLost(base: Image, img: Image, calm: bool, i: nat, first: Item, it: Item, v: nat)
    requires ValidImage(base) && Kept(base, img, calm) && Shape(img) && StaleIndex(base, img, i)
    requires img.hdr.item.used > 0 && first == img.Active()[0] && it in img.Active()[..img.hdr.item.used]
    requires v < it.count <= |it.slots| && it.Version(v).offset == base.hdr.value.Offset()
    ensures 1 <= first.count <= |first.slots| && !ItemOk(img.hdr, first)
    ensures var oldest, e := Read(img.mem, first.Version(first.count - 1)), it.Version(v);
            var target := img.hdr.value.SnapOffset();
            && target + |oldest| <= |img.mem|
            && (Read(Blit(img.mem, target, oldest), e) == Read(img.mem, e) <==> Agree(oldest, Read(img.mem, e)))
  {
    hide ItemOk, Ordered, Sound, Blit, Read, Agree;
    StaleIndexReads(base, img, calm, i);
    var n := img.hdr.item.used;
    assert ItemOk(base.hdr, img.Active()[0]);
    assert exists t :: 0 <= t < n && img.Active()[..n][t] == it;
    assert ItemOk(base.hdr, it);
    ItemExtents(base.hdr, first, first.count - 1);
    ItemExtents(base.hdr, it, v);
    var moved, e, target := first.Version(first.count - 1), it.Version(v), img.hdr.value.SnapOffset();
    HalfHolds(base, moved);
    HalfHolds(base, e);
    NotInOther(base, img, first);
    ReadLen(base.hdr.value, img.mem, moved);
    StartOverwritten(img.mem, target, e.len, Read(img.mem, moved));
    assert Extent(target, e.len) == e;
  }

  lemma ItemExtents(h: Header, it: Item, v: int)
    requires ItemOk(h, it)
    ensures 1 <= it.count <= |it.slots|
    ensures 0 <= v < it.count ==> InHeap(h.value, it.Version(v))
  {
    if 0 <= v < it.count {
      assert it.Live(|it.slots| - 1 - v);
    }
  }

  /** An extent of the active value half fits from the start of that half on. */
  lemma HalfHolds(base: Image, e: Extent)
    requires Shape(base) && InHeap(base.hdr.value, e)
    ensures base.hdr.value.Offset() + e.len <= base.hdr.value.Offset() + base.hdr.value.used <= |base.mem|
  {
  }

  lemma NotInOther(base: Image, img: Image, it: Item)
    requires Shape(base) && Shape(img) && ItemOk(base.hdr, it)
    requires img.hdr.value.SameHalves(base.hdr.value) && img.hdr.value.id == base.hdr.value.SnapId()
    ensures !ItemOk(img.hdr, it)
  {
    assert it.Live(|it.slots| - 1);
    assert InHeap(base.hdr.value, it.slots[|it.slots| - 1]);
    assert !InHeap(img.hdr.value, it.slots[|it.slots| - 1]);
  }
}
