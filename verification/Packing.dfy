/**
 What the two compactions do to the snapshot items and the other heap half.
 */
module Packing {
  import opened KeyOrder
  import opened Layout
  import opened Spec
  import opened Image

  // ---------- keys ----------

  /** The items mean `es`; the first `i` of them have had their keys moved to
      `target` and laid one after the other; the other items, and all bytes
      outside the target half, are as before. */
  ghost predicate KeysPacked(es: seq<Entry>, mem0: Bytes, snap0: seq<Item>, mem1: Bytes, snap1: seq<Item>,
                             i: nat, target: nat, size: nat)
    requires i <= |es| <= |snap0|
  {
    && |mem1| == |mem0| && |snap1| == |snap0|
    && (forall t :: 0 <= t < i ==>
          && snap1[t] == snap0[t].(key := Extent(target + KeySum(es[..t]), |es[t].key|))
          && Read(mem1, snap1[t].key) == es[t].key)
    && (forall t :: i <= t < |snap0| ==> snap1[t] == snap0[t])
    && (forall a :: 0 <= a < |mem0| && !(target <= a < target + size) ==> mem1[a] == mem0[a])
  }

  lemma KeysPackedNone(es: seq<Entry>, mem: Bytes, snap: seq<Item>, target: nat, size: nat)
    requires |es| <= |snap|
    ensures KeysPacked(es, mem, snap, mem, snap, 0, target, size)
  {
  }

  /** All of the item's extents lie in the used parts of the active halves, so
      none of them in the snapshot half of the key heap. */
  lemma KeySnapshotApart(h: Header, total: nat, it: Item)
    requires HeapsTile(h, total) && h.key.Valid() && h.value.Valid() && ItemOk(h, it)
    ensures forall a :: it.key.Has(a) ==> !h.key.InSnapshot(a)
    ensures forall j, a :: it.Live(j) && it.slots[j].Has(a) ==> !h.key.InSnapshot(a)
    ensures it.key.offset + it.key.len <= total
  {
  }

  /** The next key to move still reads as it did, and its copy fits behind the
      packed ones inside the target half. */
  lemma NextKey(h: Header, es: seq<Entry>, mem0: Bytes, snap0: seq<Item>, mem1: Bytes, snap1: seq<Item>, i: nat)
    requires HeapsTile(h, |mem0|) && h.key.Valid() && h.value.Valid()
    requires i < |es| <= |snap0| && Sound(h, mem0, snap0[..|es|]) && es == Entries(mem0, snap0[..|es|])
    requires KeysPacked(es, mem0, snap0, mem1, snap1, i, h.key.SnapOffset(), h.key.size)
    ensures |snap1[i].slots| == h.maxVer
    ensures Read(mem1, snap1[i].key) == es[i].key && |es[i].key| == snap1[i].key.len
    ensures KeySum(es[..i + 1]) == KeySum(es[..i]) + |es[i].key| <= h.key.used
    ensures var from, at := snap1[i].key, h.key.SnapOffset() + KeySum(es[..i]);
            && from.offset + from.len <= |mem0| && at + from.len <= h.key.SnapOffset() + h.key.size <= |mem0|
            && (from.offset + from.len <= at || at + from.len <= from.offset)
  {
    hide KeySum, Values, Sound;
    SoundAt(h, mem0, snap0[..|es|], i);
    KeySnapshotApart(h, |mem0|, snap0[i]);
    ReadSame(mem0, mem1, snap0[i].key);
    KeySumSnoc(es, i);
  }

  lemma KeysPackedNext(es: seq<Entry>, mem0: Bytes, snap0: seq<Item>, mem1: Bytes, snap1: seq<Item>,
                       i: nat, target: nat, size: nat)
    requires i < |es| <= |snap0|
    requires KeysPacked(es, mem0, snap0, mem1, snap1, i, target, size)
    requires KeySum(es[..i]) + |es[i].key| <= size && target + size <= |mem0|
    ensures var at := target + KeySum(es[..i]);
            KeysPacked(es, mem0, snap0, Blit(mem1, at, es[i].key),
                       snap1[i := snap1[i].(key := Extent(at, |es[i].key|))], i + 1, target, size)
  {
    hide Blit, KeySum, Read;
    var at := target + KeySum(es[..i]);
    forall t | 0 <= t < i
      ensures Read(Blit(mem1, at, es[i].key), snap1[t].key) == es[t].key
    {
      PackedKeyStands(es, mem1, snap1[t].key, i, t, target);
    }
  }

  lemma PackedKeyStands(es: seq<Entry>, mem1: Bytes, e: Extent, i: nat, t: nat, target: nat)
    requires t < i < |es| && target + KeySum(es[..i]) + |es[i].key| <= |mem1|
    requires e == Extent(target + KeySum(es[..t]), |es[t].key|)
    ensures Read(Blit(mem1, target + KeySum(es[..i]), es[i].key), e) == Read(mem1, e)
  {
    hide Blit, KeySum;
    KeySumSnoc(es, t);
    PrefixSums(es, t + 1, i);
    BlitElsewhere(mem1, target + KeySum(es[..i]), es[i].key, e);
  }

  lemma SoundAt(h: Header, mem: Bytes, items: seq<Item>, i: nat)
    requires Sound(h, mem, items) && i < |items|
    ensures var es := Entries(mem, items);
            && ItemOk(h, items[i])
            && es[i] == EntryOf(mem, items[i])
            && KeySum(es[..i + 1]) <= KeySum(es) <= h.key.used
            && ValueSum(es[..i + 1]) <= ValueSum(es) <= h.value.used
  {
    hide ItemOk, EntryOf, KeySum, ValueSum;
    SumsMonotone(Entries(mem, items), i + 1);
  }

  lemma PrefixSums(es: seq<Entry>, i: nat, j: nat)
    requires i <= j <= |es|
    ensures KeySum(es[..i]) <= KeySum(es[..j])
    ensures ValueSum(es[..i]) <= ValueSum(es[..j])
  {
    SumsMonotone(es[..j], i);
    assert es[..j][..i] == es[..i];
  }

  /** Key compaction changes no meaning: every item decodes to the same entry, and
      all keys lie in the packed prefix of the other half. */
  lemma KeysPackedMeaning(h: Header, es: seq<Entry>, mem0: Bytes, snap0: seq<Item>, mem1: Bytes, snap1: seq<Item>)
    requires HeapsTile(h, |mem0|) && h.key.Valid() && h.value.Valid()
    requires |es| <= |snap0| && Sound(h, mem0, snap0[..|es|]) && es == Entries(mem0, snap0[..|es|])
    requires KeysPacked(es, mem0, snap0, mem1, snap1, |es|, h.key.SnapOffset(), h.key.size)
    ensures |snap1| == |snap0| && Entries(mem1, snap1[..|es|]) == es
    ensures Sound(AfterKeys(h, es), mem1, snap1[..|es|])
  {
    hide Sound, ItemOk, EntryOf, KeySum, ValueSum, KeysPacked, AfterKeys;
    var n := |es|;
    KeysPackedLen(es, mem0, snap0, mem1, snap1, h.key.SnapOffset(), h.key.size);
    forall t | 0 <= t < n
      ensures EntryOf(mem1, snap1[..n][t]) == es[t]
      ensures ItemOk(AfterKeys(h, es), snap1[..n][t])
    {
      PackedKeyMeaning(h, es, mem0, snap0, mem1, snap1, t);
    }
    assert Entries(mem1, snap1[..n]) == es;
    SoundAfterKeys(h, mem0, snap0[..n], mem1, snap1[..n]);
  }

  function AfterKeys(h: Header, es: seq<Entry>): Header {
    h.(key := h.key.(id := h.key.SnapId(), used := KeySum(es)))
  }

  lemma KeysPackedLen(es: seq<Entry>, mem0: Bytes, snap0: seq<Item>, mem1: Bytes, snap1: seq<Item>, target: nat, size: nat)
    requires |es| <= |snap0| && KeysPacked(es, mem0, snap0, mem1, snap1, |es|, target, size)
    ensures |snap1| == |snap0|
  {
  }

  lemma SoundAfterKeys(h: Header, mem0: Bytes, items0: seq<Item>, mem1: Bytes, items1: seq<Item>)
    requires Sound(h, mem0, items0)
    requires Entries(mem1, items1) == Entries(mem0, items0)
    requires AllOk(AfterKeys(h, Entries(mem0, items0)), items1)
    ensures Sound(AfterKeys(h, Entries(mem0, items0)), mem1, items1)
  {
    hide AllOk, Entries, KeySum, ValueSum;
  }

  lemma PackedKeyMeaning(h: Header, es: seq<Entry>, mem0: Bytes, snap0: seq<Item>, mem1: Bytes, snap1: seq<Item>, t: nat)
    requires HeapsTile(h, |mem0|) && h.key.Valid() && h.value.Valid()
    requires t < |es| <= |snap0| && Sound(h, mem0, snap0[..|es|]) && es == Entries(mem0, snap0[..|es|])
    requires KeysPacked(es, mem0, snap0, mem1, snap1, |es|, h.key.SnapOffset(), h.key.size)
    ensures EntryOf(mem1, snap1[t]) == es[t] && ItemOk(AfterKeys(h, es), snap1[t])
  {
    hide Sound, KeySum, ValueSum, Read;
    SoundAt(h, mem0, snap0[..|es|], t);
    KeySnapshotApart(h, |mem0|, snap0[t]);
    ReadLen(h.key, mem0, snap0[t].key);
    KeySumSnoc(es, t);
    var moved := snap0[t].(key := Extent(0, 0));
    EntrySame(mem0, mem1, moved);
    EntryParts(mem0, moved, snap0[t]);
    EntryParts(mem1, moved, snap1[t]);
  }

  /** The values of an entry do not depend on the key extent. */
  lemma EntryParts(mem: Bytes, a: Item, b: Item)
    requires a.count == b.count && a.slots == b.slots
    ensures EntryOf(mem, a).values == EntryOf(mem, b).values
  {
    assert Values(mem, a) == Values(mem, b);
  }

  // ---------- values ----------

  /** The values of version `v` and older have been moved to `at`, the oldest
      first; the newer ones and the key are as before. */
  ghost predicate SlotsPacked(it0: Item, it1: Item, vals: seq<Bytes>, at: nat, v: nat)
    requires v <= |vals|
  {
    && it1.key == it0.key && it1.count == it0.count == |vals| <= |it0.slots| == |it1.slots|
    && (forall w :: v <= w < |vals| ==> it1.Version(w) == Extent(at + ValuesLen(vals[w + 1..]), |vals[w]|))
    && (forall w :: 0 <= w < v ==> it1.Version(w) == it0.Version(w))
    && (forall w :: |vals| <= w < |it0.slots| ==> it1.Version(w) == it0.Version(w))
  }

  ghost predicate ItemMoved(mem0: Bytes, it0: Item, mem1: Bytes, it1: Item, vals: seq<Bytes>, at: nat, v: nat)
    requires v <= |vals|
  {
    && SlotsPacked(it0, it1, vals, at, v)
    && |mem1| == |mem0|
    && (forall w :: v <= w < |vals| ==> Read(mem1, it1.Version(w)) == vals[w])
    && (forall a :: 0 <= a < |mem0| && !(at <= a < at + ValuesLen(vals[v..])) ==> mem1[a] == mem0[a])
  }

  lemma ValuesLenSuffix(vals: seq<Bytes>, i: nat)
    requires i < |vals|
    ensures ValuesLen(vals[i..]) == |vals[i]| + ValuesLen(vals[i + 1..])
  {
    assert vals[i..][1..] == vals[i + 1..];
  }

  lemma {:induction false} ValuesLenSuffixes(vals: seq<Bytes>, i: nat, j: nat)
    requires i <= j <= |vals|
    ensures ValuesLen(vals[j..]) <= ValuesLen(vals[i..])
    decreases j - i
  {
    if i < j {
      ValuesLenSuffix(vals, i);
      ValuesLenSuffixes(vals, i + 1, j);
    }
  }

  lemma SlotsPackedNext(it0: Item, it1: Item, vals: seq<Bytes>, at: nat, v: nat)
    requires v < |vals| && SlotsPacked(it0, it1, vals, at, v + 1)
    ensures var moved := Extent(at + ValuesLen(vals[v + 1..]), |vals[v]|);
            SlotsPacked(it0, it1.(slots := it1.slots[|it1.slots| - 1 - v := moved]), vals, at, v)
  {
    hide ValuesLen;
  }

  /** One value more is moved behind the older ones. */
  lemma ItemMovedNext(mem0: Bytes, it0: Item, mem1: Bytes, it1: Item, vals: seq<Bytes>, at: nat, v: nat)
    requires v < |vals| && ItemMoved(mem0, it0, mem1, it1, vals, at, v + 1)
    requires at + ValuesLen(vals[v..]) <= |mem0|
    ensures var to := at + ValuesLen(vals[v + 1..]);
            && ValuesLen(vals[v..]) == |vals[v]| + ValuesLen(vals[v + 1..])
            && ItemMoved(mem0, it0, Blit(mem1, to, vals[v]),
                         it1.(slots := it1.slots[|it1.slots| - 1 - v := Extent(to, |vals[v]|)]), vals, at, v)
  {
    hide Blit, ValuesLen, Read;
    var to := at + ValuesLen(vals[v + 1..]);
    ValuesLenSuffix(vals, v);
    SlotsPackedNext(it0, it1, vals, at, v);
    var mem2, it2 := Blit(mem1, to, vals[v]), it1.(slots := it1.slots[|it1.slots| - 1 - v := Extent(to, |vals[v]|)]);
    forall w | v <= w < |vals|
      ensures Read(mem2, it2.Version(w)) == vals[w]
    {
      if v < w {
        ValuesLenSuffix(vals, w);
        ValuesLenSuffixes(vals, v + 1, w);
        BlitElsewhere(mem1, to, vals[v], it1.Version(w));
      }
    }
  }

  /** A moved item has the values it had. */
  lemma ItemMovedValues(mem0: Bytes, it0: Item, mem1: Bytes, it1: Item, vals: seq<Bytes>, at: nat)
    requires ItemMoved(mem0, it0, mem1, it1, vals, at, 0)
    ensures Values(mem1, it1) == vals
  {
  }

  /** The items mean `es`; the first `i` have had their values moved to `target`,
      packed item after item and in each item the oldest first; the other items,
      and all bytes outside the target half, are as before. */
  ghost predicate ValuesPacked(es: seq<Entry>, mem0: Bytes, snap0: seq<Item>, mem1: Bytes, snap1: seq<Item>,
                               i: nat, target: nat, size: nat)
    requires i <= |es| <= |snap0|
  {
    && |mem1| == |mem0| && |snap1| == |snap0|
    && (forall t :: 0 <= t < i ==>
          && SlotsPacked(snap0[t], snap1[t], es[t].values, target + ValueSum(es[..t]), 0)
          && Values(mem1, snap1[t]) == es[t].values)
    && (forall t :: i <= t < |snap0| ==> snap1[t] == snap0[t])
    && (forall a :: 0 <= a < |mem0| && !(target <= a < target + size) ==> mem1[a] == mem0[a])
  }

  lemma ValuesPackedNone(es: seq<Entry>, mem: Bytes, snap: seq<Item>, target: nat, size: nat)
    requires |es| <= |snap|
    ensures ValuesPacked(es, mem, snap, mem, snap, 0, target, size)
  {
  }

  lemma ValueSnapshotApart(h: Header, total: nat, it: Item)
    requires HeapsTile(h, total) && h.key.Valid() && h.value.Valid() && ItemOk(h, it)
    ensures forall a :: it.key.Has(a) ==> !h.value.InSnapshot(a)
    ensures forall j, a :: it.Live(j) && it.slots[j].Has(a) ==> !h.value.InSnapshot(a)
    ensures forall j :: it.Live(j) ==> it.slots[j].offset + it.slots[j].len <= total
  {
  }

  /** The next item's values still read as they did, and their copies fit behind
      the packed ones inside the target half. */
  lemma NextValues(h: Header, es: seq<Entry>, mem0: Bytes, snap0: seq<Item>, mem1: Bytes, snap1: seq<Item>, i: nat)
    requires HeapsTile(h, |mem0|) && h.key.Valid() && h.value.Valid()
    requires i < |es| <= |snap0| && Sound(h, mem0, snap0[..|es|]) && es == Entries(mem0, snap0[..|es|])
    requires ValuesPacked(es, mem0, snap0, mem1, snap1, i, h.value.SnapOffset(), h.value.size)
    ensures snap1[i] == snap0[i] && ItemOk(h, snap1[i])
    ensures Values(mem1, snap1[i]) == es[i].values
    ensures ValueSum(es[..i + 1]) == ValueSum(es[..i]) + ValuesLen(es[i].values) <= h.value.used
  {
    hide ValueSum, KeySum, ValuesLen, Sound, Read;
    SoundAt(h, mem0, snap0[..|es|], i);
    ValueSnapshotApart(h, |mem0|, snap0[i]);
    EntrySame(mem0, mem1, snap0[i]);
    ValueSumSnoc(es, i);
  }

  /** Packed values that lie before `at` are not touched by writes from `at` on. */
  lemma PackedUntouched(mem1: Bytes, mem2: Bytes, it0: Item, it1: Item, vals: seq<Bytes>, start: nat, at: nat)
    requires |mem1| == |mem2| && SlotsPacked(it0, it1, vals, start, 0)
    requires start + ValuesLen(vals) <= at
    requires forall a :: 0 <= a < at && a < |mem1| ==> mem1[a] == mem2[a]
    ensures Values(mem2, it1) == Values(mem1, it1)
  {
    hide ValuesLen;
    forall w | 0 <= w < |vals|
      ensures Read(mem2, it1.Version(w)) == Read(mem1, it1.Version(w))
    {
      assert vals[0..] == vals;
      ValuesLenSuffix(vals, w);
      ValuesLenSuffixes(vals, 0, w);
      ReadSame(mem1, mem2, it1.Version(w));
    }
  }

  lemma ItemSize(h: Header, mem: Bytes, it: Item)
    requires ItemOk(h, it)
    ensures |Values(mem, it)| == it.count <= |it.slots|
  {
  }

  lemma ItemMovedNone(mem: Bytes, it: Item, vals: seq<Bytes>, at: nat)
    requires it.count == |vals| <= |it.slots|
    ensures ItemMoved(mem, it, mem, it, vals, at, |vals|) && ValuesLen(vals[|vals|..]) == 0
  {
  }

  /** The next value to move still reads as it did, in the half it is moved from. */
  lemma NextValue(h: Header, mem0: Bytes, it0: Item, mem1: Bytes, it1: Item, vals: seq<Bytes>, at: nat, v: nat)
    requires HeapsTile(h, |mem0|) && h.key.Valid() && h.value.Valid() && ItemOk(h, it0)
    requires vals == Values(mem0, it0) && v < |vals| && ItemMoved(mem0, it0, mem1, it1, vals, at, v + 1)
    requires h.value.SnapOffset() <= at && at + ValuesLen(vals) <= h.value.SnapOffset() + h.value.size
    ensures it1.Version(v) == it0.Version(v) && InHeap(h.value, it1.Version(v))
    ensures Read(mem1, it1.Version(v)) == vals[v] && |vals[v]| == it1.Version(v).len
    ensures |it1.slots| == |it0.slots|
    ensures ValuesLen(vals[v..]) == |vals[v]| + ValuesLen(vals[v + 1..]) <= ValuesLen(vals)
  {
    hide ValuesLen;
    assert it0.Live(|it0.slots| - 1 - v);
    ValueSnapshotApart(h, |mem0|, it0);
    assert vals[0..] == vals;
    ValuesLenSuffix(vals, v);
    ValuesLenSuffixes(vals, 0, v);
    ValuesLenSuffixes(vals, 0, v + 1);
    ReadSame(mem0, mem1, it0.Version(v));
  }

  lemma ValuesPackedNext(es: seq<Entry>, mem0: Bytes, snap0: seq<Item>, mem1: Bytes, snap1: seq<Item>,
                         mem2: Bytes, it: Item, i: nat, target: nat, size: nat)
    requires i < |es| <= |snap0|
    requires ValuesPacked(es, mem0, snap0, mem1, snap1, i, target, size)
    requires ItemMoved(mem1, snap1[i], mem2, it, es[i].values, target + ValueSum(es[..i]), 0)
    requires ValueSum(es[..i]) + ValuesLen(es[i].values) <= size
    ensures ValuesPacked(es, mem0, snap0, mem2, snap1[i := it], i + 1, target, size)
  {
    hide ValueSum, ValuesLen, Values, SlotsPacked;
    var at := target + ValueSum(es[..i]);
    ItemMovedValues(mem1, snap1[i], mem2, it, es[i].values, at);
    assert es[i].values[0..] == es[i].values;
    forall t | 0 <= t < i
      ensures Values(mem2, snap1[t]) == es[t].values
    {
      ValueSumSnoc(es, t);
      PrefixSums(es, t + 1, i);
      PackedUntouched(mem1, mem2, snap0[t], snap1[t], es[t].values, target + ValueSum(es[..t]), at);
    }
  }

  function AfterValues(h: Header, es: seq<Entry>): Header {
    h.(value := h.value.(id := h.value.SnapId(), used := ValueSum(es)))
  }

  /** Value compaction changes no meaning: every item decodes to the same entry,
      and all live values lie in the packed prefix of the other half, whose
      length is the sum of the live value lengths. */
  lemma ValuesPackedMeaning(h: Header, es: seq<Entry>, mem0: Bytes, snap0: seq<Item>, mem1: Bytes, snap1: seq<Item>)
    requires HeapsTile(h, |mem0|) && h.key.Valid() && h.value.Valid()
    requires |es| <= |snap0| && Sound(h, mem0, snap0[..|es|]) && es == Entries(mem0, snap0[..|es|])
    requires ValuesPacked(es, mem0, snap0, mem1, snap1, |es|, h.value.SnapOffset(), h.value.size)
    ensures |snap1| == |snap0| && Entries(mem1, snap1[..|es|]) == es
    ensures Sound(AfterValues(h, es), mem1, snap1[..|es|])
  {
    hide Sound, ItemOk, EntryOf, KeySum, ValueSum, SlotsPacked, AfterValues, Values;
    var n := |es|;
    forall t | 0 <= t < n
      ensures EntryOf(mem1, snap1[..n][t]) == es[t]
      ensures ItemOk(AfterValues(h, es), snap1[..n][t])
    {
      PackedValueMeaning(h, es, mem0, snap0, mem1, snap1, t);
    }
    assert Entries(mem1, snap1[..n]) == es;
    SoundAfterValues(h, mem0, snap0[..n], mem1, snap1[..n]);
  }

  lemma SoundAfterValues(h: Header, mem0: Bytes, items0: seq<Item>, mem1: Bytes, items1: seq<Item>)
    requires Sound(h, mem0, items0)
    requires Entries(mem1, items1) == Entries(mem0, items0)
    requires AllOk(AfterValues(h, Entries(mem0, items0)), items1)
    ensures Sound(AfterValues(h, Entries(mem0, items0)), mem1, items1)
  {
    hide AllOk, Entries, KeySum, ValueSum;
  }

  lemma NonEmptyValue(h: Header, mem: Bytes, it: Item, w: nat)
    requires HeapsTile(h, |mem|) && h.value.Valid() && ItemOk(h, it) && w < it.count
    ensures |Values(mem, it)[w]| >= 1
  {
    assert it.Live(|it.slots| - 1 - w);
    ReadLen(h.value, mem, it.Version(w));
  }

  lemma PackedValueMeaning(h: Header, es: seq<Entry>, mem0: Bytes, snap0: seq<Item>, mem1: Bytes, snap1: seq<Item>, t: nat)
    requires HeapsTile(h, |mem0|) && h.key.Valid() && h.value.Valid()
    requires t < |es| <= |snap0| && Sound(h, mem0, snap0[..|es|]) && es == Entries(mem0, snap0[..|es|])
    requires ValuesPacked(es, mem0, snap0, mem1, snap1, |es|, h.value.SnapOffset(), h.value.size)
    ensures EntryOf(mem1, snap1[t]) == es[t] && ItemOk(AfterValues(h, es), snap1[t])
  {
    hide Sound, KeySum, ValueSum, Values, ValuesLen, Read;
    SoundAt(h, mem0, snap0[..|es|], t);
    ValueSnapshotApart(h, |mem0|, snap0[t]);
    ReadSame(mem0, mem1, snap0[t].key);
    ValueSumSnoc(es, t);
    var it, vals := snap1[t], es[t].values;
    assert vals[0..] == vals;
    forall j | it.Live(j)
      ensures InHeap(AfterValues(h, es).value, it.slots[j])
    {
      var w := |it.slots| - 1 - j;
      assert it.slots[j] == it.Version(w);
      NonEmptyValue(h, mem0, snap0[t], w);
      ValuesLenSuffix(vals, w);
      ValuesLenSuffixes(vals, 0, w);
    }
  }

  // ---------- appending and editing ----------

  /** Items keep their meaning when the used bytes of both heaps stand. */
  lemma SoundFrame(h: Header, mem0: Bytes, mem1: Bytes, items: seq<Item>)
    requires Sound(h, mem0, items) && |mem1| == |mem0|
    requires forall a :: 0 <= a < |mem0| && (h.key.InUse(a) || h.value.InUse(a)) ==> mem1[a] == mem0[a]
    ensures Entries(mem1, items) == Entries(mem0, items)
    ensures Sound(h, mem1, items)
  {
    hide KeySum, ValueSum;
    forall i | 0 <= i < |items|
      ensures EntryOf(mem1, items[i]) == EntryOf(mem0, items[i])
    {
      ItemFrame(h, mem0, mem1, items[i]);
    }
    assert Entries(mem1, items) == Entries(mem0, items);
  }

  lemma ItemFrame(h: Header, mem0: Bytes, mem1: Bytes, it: Item)
    requires ItemOk(h, it) && |mem1| == |mem0|
    requires forall a :: 0 <= a < |mem0| && (h.key.InUse(a) || h.value.InUse(a)) ==> mem1[a] == mem0[a]
    ensures EntryOf(mem1, it) == EntryOf(mem0, it)
  {
    hide EntryOf;
    EntrySame(mem0, mem1, it);
  }

  /** Items stay sound when a section grows in place. */
  lemma SoundGrow(h: Header, h': Header, mem: Bytes, items: seq<Item>)
    requires Sound(h, mem, items) && h'.maxVer == h.maxVer
    requires h'.key == h.key.(used := h'.key.used) && h.key.used <= h'.key.used
    requires h'.value == h.value.(used := h'.value.used) && h.value.used <= h'.value.used
    ensures Sound(h', mem, items)
  {
    hide Entries;
    forall i | 0 <= i < |items|
      ensures ItemOk(h', items[i])
    {
      assert ItemOk(h, items[i]);
    }
  }

  /** `it1` is `it0` with `e` as its newest value: the older ones move one slot to
      the left and the one beyond `maxVer` drops out. */
  ghost predicate Pushed(it0: Item, it1: Item, e: Extent, maxVer: nat) {
    && it1.key == it0.key && |it1.slots| == |it0.slots| == maxVer
    && it1.count == (if it0.count < maxVer then it0.count + 1 else maxVer)
    && 1 <= it1.count <= maxVer
    && it1.Version(0) == e
    && forall w :: 1 <= w < it1.count ==> it1.Version(w) == it0.Version(w - 1)
  }

  /** Slots `from .. from + n - 1` hold what was one slot to their right. */
  ghost predicate SlotsShifted(it0: Item, it1: Item, from: nat, n: nat) {
    && it1.key == it0.key && it1.count == it0.count && |it1.slots| == |it0.slots|
    && forall j {:trigger it1.slots[j]} :: 0 <= j < |it0.slots| ==>
         it1.slots[j] == if from <= j < from + n && j + 1 < |it0.slots| then it0.slots[j + 1] else it0.slots[j]
  }

  lemma SlotsShiftedNone(it: Item, from: nat)
    ensures SlotsShifted(it, it, from, 0)
  {
  }

  lemma SlotsShiftedLen(it0: Item, it1: Item, from: nat, n: nat)
    requires SlotsShifted(it0, it1, from, n)
    ensures |it1.slots| == |it0.slots| && it1.key == it0.key && it1.count == it0.count
  {
  }

  lemma SlotsShiftedNext(it0: Item, it1: Item, from: nat, n: nat)
    requires SlotsShifted(it0, it1, from, n) && from + n + 1 < |it0.slots|
    ensures |it1.slots| == |it0.slots|
    ensures SlotsShifted(it0, it1.(slots := it1.slots[from + n := it1.slots[from + n + 1]]), from, n + 1)
  {
  }

  /** The shift of either branch, then the new extent in the last slot. */
  lemma ShiftedPushed(it0: Item, it1: Item, e: Extent, maxVer: nat)
    requires |it0.slots| == maxVer && 1 <= it0.count <= maxVer
    requires SlotsShifted(it0, it1, if it0.count < maxVer then maxVer - it0.count - 1 else 0,
                                    if it0.count < maxVer then it0.count else it0.count - 1)
    ensures Pushed(it0, it1.(slots := it1.slots[maxVer - 1 := e],
                             count := if it0.count < maxVer then it0.count + 1 else it0.count), e, maxVer)
  {
  }

  lemma PushedValues(mem: Bytes, it0: Item, it1: Item, e: Extent, maxVer: nat)
    requires Pushed(it0, it1, e, maxVer) && it0.count <= maxVer
    ensures EntryOf(mem, it1) == Entry(EntryOf(mem, it0).key, Newest(maxVer, Read(mem, e), EntryOf(mem, it0).values))
  {
    hide Read;
    assert Values(mem, it1) == Newest(maxVer, Read(mem, e), Values(mem, it0));
  }

  lemma PushedOk(h: Header, it0: Item, it1: Item, e: Extent)
    requires Pushed(it0, it1, e, h.maxVer) && ItemOk(h, it0) && InHeap(h.value, e)
    ensures ItemOk(h, it1)
  {
    forall j | it1.Live(j)
      ensures InHeap(h.value, it1.slots[j])
    {
      var w := |it1.slots| - 1 - j;
      assert it1.slots[j] == it1.Version(w);
      if w > 0 {
        assert it0.Live(j + 1) && it0.Version(w - 1) == it0.slots[j + 1];
      }
    }
  }

  lemma {:induction false} UpdateSums(es: seq<Entry>, pos: nat, e: Entry)
    requires pos < |es|
    ensures KeySum(es[pos := e]) == KeySum(es) - |es[pos].key| + |e.key|
    ensures ValueSum(es[pos := e]) == ValueSum(es) - ValuesLen(es[pos].values) + ValuesLen(e.values)
    decreases |es|
  {
    var n := |es| - 1;
    if pos < n {
      UpdateSums(es[..n], pos, e);
      assert es[pos := e][..n] == es[..n][pos := e];
    } else {
      assert es[pos := e][..n] == es[..n];
    }
  }

  /** Replacing one item by its pushed form adds at most the new value's bytes. */
  lemma PushedSound(h0: Header, h1: Header, mem: Bytes, items: seq<Item>, i: nat, it: Item, e: Extent)
    requires Sound(h0, mem, items) && i < |items|
    requires h1 == h0.(value := h0.value.(used := h1.value.used))
    requires ValueSum(Entries(mem, items)) + e.len <= h1.value.used && h0.value.used <= h1.value.used
    requires InHeap(h1.value, e) && h1.value.Offset() + h1.value.used <= |mem|
    requires Pushed(items[i], it, e, h0.maxVer)
    ensures var es := Entries(mem, items);
            && Entries(mem, items[i := it])
               == es[i := Entry(es[i].key, Newest(h0.maxVer, Read(mem, e), es[i].values))]
            && Sound(h1, mem, items[i := it])
  {
    hide EntryOf, KeySum, ValueSum, Pushed, ItemOk, InHeap, ValuesLen, Read;
    SoundGrow(h0, h1, mem, items);
    var es := Entries(mem, items);
    assert ItemOk(h1, items[i]);
    PushedOk(h1, items[i], it, e);
    assert items[i].count <= h0.maxVer by { CountOk(h1, items[i]); }
    PushedValues(mem, items[i], it, e, h0.maxVer);
    var pushed := Entry(es[i].key, Newest(h0.maxVer, Read(mem, e), es[i].values));
    assert Entries(mem, items[i := it]) == es[i := pushed];
    UpdateSums(es, i, pushed);
    NewestLen(h0.maxVer, Read(mem, e), es[i].values);
    assert |Read(mem, e)| == e.len by { ReadLen(h1.value, mem, e); }
  }

  lemma CountOk(h: Header, it: Item)
    requires ItemOk(h, it)
    ensures it.count <= h.maxVer
  {
  }

  lemma ReadLen(s: Section, mem: Bytes, e: Extent)
    requires InHeap(s, e) && s.Offset() + s.used <= |mem|
    ensures |Read(mem, e)| == e.len
  {
  }

  /** One more item behind the others adds its key and value bytes. */
  lemma SnocSound(h: Header, mem: Bytes, items: seq<Item>, it: Item)
    requires AllOk(h, items) && ItemOk(h, it)
    requires KeySum(Entries(mem, items)) + |EntryOf(mem, it).key| <= h.key.used
    requires ValueSum(Entries(mem, items)) + ValuesLen(EntryOf(mem, it).values) <= h.value.used
    ensures Entries(mem, items + [it]) == Entries(mem, items) + [EntryOf(mem, it)]
    ensures Sound(h, mem, items + [it])
  {
    hide EntryOf, ItemOk, ValuesLen;
    var es := Entries(mem, items);
    var all := Entries(mem, items + [it]);
    assert all == es + [EntryOf(mem, it)];
    assert all[..|es|] == es;
  }

  lemma SoundSums(h: Header, mem: Bytes, items: seq<Item>)
    requires Sound(h, mem, items)
    ensures |Entries(mem, items)| == |items|
    ensures KeySum(Entries(mem, items)) <= h.key.used && ValueSum(Entries(mem, items)) <= h.value.used
  {
  }

  /** Writing behind the used bytes of either heap touches no used byte. */
  lemma AppendFrame(h: Header, mem: Bytes, at: nat, s: Bytes)
    requires HeapsTile(h, |mem|) && h.key.Valid() && h.value.Valid()
    requires (at == h.key.Offset() + h.key.used && h.key.used + |s| <= h.key.size)
          || (at == h.value.Offset() + h.value.used && h.value.used + |s| <= h.value.size)
    ensures at + |s| <= |mem|
    ensures forall a :: 0 <= a < |mem| && (h.key.InUse(a) || h.value.InUse(a)) ==> Blit(mem, at, s)[a] == mem[a]
    ensures Read(Blit(mem, at, s), Extent(at, |s|)) == s
  {
  }

  lemma AppendedIn(s0: Section, s1: Section, e: Extent)
    requires s1 == s0.(used := s0.used + e.len) && e.offset == s0.Offset() + s0.used && e.len >= 1
    ensures InHeap(s1, e)
  {
  }

  /** Value compaction leaves the items behind the index and the key heap alone. */
  lemma ValuesPackedRest(es: seq<Entry>, mem0: Bytes, snap0: seq<Item>, mem1: Bytes, snap1: seq<Item>,
                         h: Header, total: nat)
    requires |es| <= |snap0| && |mem0| == total && HeapsTile(h, total) && h.key.Valid() && h.value.Valid()
    requires ValuesPacked(es, mem0, snap0, mem1, snap1, |es|, h.value.SnapOffset(), h.value.size)
    ensures |snap1| == |snap0| && snap1[|es|..] == snap0[|es|..]
    ensures |mem1| == total && forall a :: 0 <= a < total && h.key.InUse(a) ==> mem1[a] == mem0[a]
  {
    hide SlotsPacked, Values;
  }

  lemma KeyStands(s: Section, mem0: Bytes, mem1: Bytes, e: Extent)
    requires |mem0| == |mem1| && InHeap(s, e)
    requires forall a :: 0 <= a < |mem0| && s.InUse(a) ==> mem1[a] == mem0[a]
    ensures Read(mem1, e) == Read(mem0, e)
  {
    ReadSame(mem0, mem1, e);
  }

  /** An item with one value, behind the others. */
  lemma NewItem(h: Header, mem: Bytes, items: seq<Item>, it: Item, k: Bytes, v: Bytes)
    requires Sound(h, mem, items) && h.maxVer >= 1
    requires |it.slots| == h.maxVer && it.count == 1
    requires InHeap(h.key, it.key) && Read(mem, it.key) == k
    requires InHeap(h.value, it.Version(0)) && Read(mem, it.Version(0)) == v
    requires KeySum(Entries(mem, items)) + |k| <= h.key.used
    requires ValueSum(Entries(mem, items)) + |v| <= h.value.used
    ensures Entries(mem, items + [it]) == Entries(mem, items) + [Entry(k, [v])]
    ensures Sound(h, mem, items + [it])
  {
    hide KeySum, ValueSum, Entries, Read, InHeap;
    assert Values(mem, it) == [v];
    assert ValuesLen([v]) == |v|;
    SnocSound(h, mem, items, it);
  }
}
