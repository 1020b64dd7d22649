/**
 The entry list of the index, edited, is the map edited.
 */
module Refinement {
  import opened KeyOrder
  import opened Layout
  import opened Spec
  import opened Image
  import opened Search

  /** Looking a key up in the list is looking it up in the map. */
  lemma LookUpIsMap(es: seq<Entry>, k: Bytes, i: int)
    requires Distinct(es)
    ensures Holds(es, k, i) ==> k in MapOf(es) && MapOf(es)[k] == es[i].values
    ensures Lacks(es, k) ==> k !in MapOf(es)
  {
    if Holds(es, k, i) {
      MapGet(es, i);
    }
  }

  /** The capacities measured on the items are those of the map. */
  lemma FitsIs(c: Config, es: seq<Entry>, i: int, k: Bytes, v: Bytes)
    requires Distinct(es) && (Holds(es, k, i) || Lacks(es, k))
    ensures KeyFits(c, MapOf(es), k) <==> Holds(es, k, i) || (|es| < c.items && KeySum(es) + |k| <= c.keyBytes)
    ensures Fits(c, MapOf(es), k, v) <==> KeyFits(c, MapOf(es), k) && ValueSum(es) + |v| <= c.valueBytes
    ensures ValueBytes(MapOf(es)) == ValueSum(es)
  {
    hide MapOf, KeySum, ValueSum, KeyBytes, ValueBytes;
    LookUpIsMap(es, k, i);
    SumsAreMapSums(es);
  }

  /** The two heaps after a set, measured on the items. */
  lemma HeapsAre(c: Config, es: seq<Entry>, i: int, op: Op, keys: Heap, vals: Heap)
    requires Distinct(es) && op.Set? && (Holds(es, Stored(op.key), i) || Lacks(es, Stored(op.key)))
    ensures var k, v, held := Stored(op.key), Stored(op.value), Holds(es, Stored(op.key), i);
            var room := ValueSum(es) + |v| <= c.valueBytes;
            && KeyHeapStep(c, MapOf(es), keys, op)
               == (if held || |es| >= c.items then (keys, [])
                   else if keys.used + |k| <= c.keyBytes then (Heap(keys.used + |k|, keys.half), [])
                   else if KeySum(es) + |k| <= c.keyBytes && room
                   then (Heap(KeySum(es) + |k|, keys.Other()), [keys.Other()])
                   else (keys, [keys.Other()]))
            && HeapStep(c, MapOf(es), vals, op)
               == if !held && (|es| >= c.items || KeySum(es) + |k| > c.keyBytes) then (vals, [])
                  else if vals.used + |v| <= c.valueBytes then (Heap(vals.used + |v|, vals.half), [])
                  else if room then (Heap(ValueSum(es) + |v|, vals.Other()), [vals.Other()])
                  else (vals, [vals.Other()])
  {
    hide MapOf, KeySum, ValueSum, KeyBytes, ValueBytes, Lacks, Distinct, KeyFits, Fits;
    LookUpIsMap(es, Stored(op.key), i);
    FitsIs(c, es, i, Stored(op.key), Stored(op.value));
    SumsAreMapSums(es);
  }

  lemma InsertIsPut(c: Config, es: seq<Entry>, pos: nat, k: Bytes, v: Bytes)
    requires Distinct(es) && Lacks(es, k) && c.maxVer >= 1
    requires pos <= |es| && Distinct(InsertAt(es, pos, Entry(k, [v])))
    ensures MapOf(InsertAt(es, pos, Entry(k, [v]))) == MapOf(es)[k := Newest(c.maxVer, v, Versions(MapOf(es), k))]
  {
    hide MapOf, InsertAt;
    LookUpIsMap(es, k, -1);
    assert [v] + [] == [v];
    MapInsert(es, pos, Entry(k, [v]));
  }

  lemma UpdateIsPut(c: Config, es: seq<Entry>, i: nat, k: Bytes, v: Bytes)
    requires Ordered(es) && Distinct(es) && Holds(es, k, i)
    ensures var all := es[i := Entry(es[i].key, Newest(c.maxVer, v, es[i].values))];
            && Ordered(all) && Distinct(all)
            && MapOf(all) == MapOf(es)[k := Newest(c.maxVer, v, Versions(MapOf(es), k))]
  {
    hide MapOf, Less, Newest;
    LookUpIsMap(es, k, i);
    MapUpdate(es, i, Entry(es[i].key, Newest(c.maxVer, v, es[i].values)));
  }

  lemma RemoveIsDel(es: seq<Entry>, i: nat, k: Bytes)
    requires Ordered(es) && Distinct(es) && Holds(es, k, i)
    ensures Ordered(RemoveAt(es, i)) && Distinct(RemoveAt(es, i))
    ensures k in MapOf(es) && MapOf(RemoveAt(es, i)) == MapOf(es) - {k}
  {
    hide MapOf, Less, RemoveAt;
    LookUpIsMap(es, k, i);
    RemoveOrdered(es, i);
    MapRemove(es, i);
  }

  // ---------- item lists of a sound index ----------

  lemma SoundInside(h: Header, mem: Bytes, items: seq<Item>)
    requires Sound(h, mem, items) && HeapsTile(h, |mem|) && h.key.Valid() && |mem| <= INT32_MAX
    ensures KeysInside(mem, items)
  {
    forall i | 0 <= i < |items|
      ensures items[i].key.offset + items[i].key.len <= |mem|
    {
      assert ItemOk(h, items[i]);
    }
  }

  lemma EntriesLast(mem: Bytes, items: seq<Item>, es: seq<Entry>, e: Entry)
    requires Entries(mem, items) == es + [e]
    ensures |items| == |es| + 1
    ensures Entries(mem, items[..|es|]) == es
    ensures EntryOf(mem, items[|es|]) == e && Read(mem, items[|es|].key) == e.key
  {
    var n := |es|;
    assert |Entries(mem, items)| == n + 1;
    assert Entries(mem, items)[n] == EntryOf(mem, items[n]);
    assert forall i :: 0 <= i < n ==> Entries(mem, items)[i] == EntryOf(mem, items[i]);
    assert Entries(mem, items[..n]) == es;
  }

  lemma {:induction false} InsertSums(es: seq<Entry>, pos: nat, e: Entry)
    requires pos <= |es|
    ensures KeySum(InsertAt(es, pos, e)) == KeySum(es) + |e.key|
    ensures ValueSum(InsertAt(es, pos, e)) == ValueSum(es) + ValuesLen(e.values)
    decreases |es|
  {
    var all := InsertAt(es, pos, e);
    if pos == |es| {
      assert all[..|es|] == es;
    } else {
      var n := |es| - 1;
      InsertSums(es[..n], pos, e);
      assert all[..n + 1] == InsertAt(es[..n], pos, e);
      assert all[n + 1] == es[n];
    }
  }

  /** Moving the last item to `pos` keeps the index sound. */
  lemma InsertSound(h: Header, mem: Bytes, items: seq<Item>, pos: nat)
    requires Sound(h, mem, items) && items != [] && pos < |items|
    ensures var n := |items| - 1;
            Sound(h, mem, InsertAt(items[..n], pos, items[n]))
  {
    hide EntryOf, ItemOk, KeySum, ValueSum, InsertAt;
    var n := |items| - 1;
    var es, e := Entries(mem, items[..n]), EntryOf(mem, items[n]);
    EntriesInsert(mem, items[..n], pos, items[n]);
    EntriesInsert(mem, items[..n], n, items[n]);
    InsertAtEnd(items[..n], items[n]);
    assert items[..n] + [items[n]] == items;
    InsertSums(es, pos, e);
    InsertSums(es, n, e);
  }

  lemma InsertAtEnd<T>(s: seq<T>, x: T)
    ensures InsertAt(s, |s|, x) == s + [x]
  {
  }

  /** Dropping an item keeps the others sound. */
  lemma RemoveSound(h: Header, mem: Bytes, items: seq<Item>, i: nat)
    requires Sound(h, mem, items) && Distinct(Entries(mem, items)) && i < |items|
    ensures Sound(h, mem, RemoveAt(items, i))
    ensures Entries(mem, RemoveAt(items, i)) == RemoveAt(Entries(mem, items), i)
  {
    hide EntryOf, ItemOk, KeySum, ValueSum, RemoveAt, Distinct;
    EntriesRemove(mem, items, i);
    RemoveSums(Entries(mem, items), i);
  }

  /** What a reader needs to search the active half of a readable image. */
  lemma ReadableSearch(img: Image)
    requires Readable(img)
    ensures KeysInside(img.mem, img.Active()[..img.hdr.item.used])
    ensures |Published(img)| == img.hdr.item.used
    ensures forall i :: 0 <= i < img.hdr.item.used ==>
              Published(img)[i] == EntryOf(img.mem, img.Active()[i])
  {
    hide Ordered, EntryOf;
    forall i | 0 <= i < img.hdr.item.used
      ensures img.Active()[i].key.offset + img.Active()[i].key.len <= |img.mem|
    {
      assert Bounded(img, img.Active()[i]);
    }
  }

  /** In a valid image the live bytes of the map are at most the used bytes of each
      heap, those at most its size, and the items in use are the keys. */
  lemma SpaceConserved(img: Image)
    requires ValidImage(img)
    ensures KeyBytes(View(img)) <= img.hdr.key.used <= img.hdr.key.size
    ensures ValueBytes(View(img)) <= img.hdr.value.used <= img.hdr.value.size
    ensures |View(img)| == img.hdr.item.used <= img.hdr.item.size
  {
    hide MapOf, KeySum, ValueSum, KeyBytes, ValueBytes, Ordered;
    OrderedDistinct(Published(img));
    SumsAreMapSums(Published(img));
  }

  /** What a lookup answers, from the item the search found. */
  lemma LookUpReply(img: Image, k: Bytes, i: int, version: int)
    requires Readable(img) && version <= img.hdr.maxVer
    requires if i < 0 then Lacks(Published(img), k) else Holds(Published(img), k, i)
    ensures k in View(img) <==> i >= 0
    ensures i >= 0 ==> i < |img.Active()| && |img.Active()[i].slots| == img.hdr.maxVer >= img.Active()[i].count
    ensures version >= 1 ==>
              LookUp(Capacities(img.hdr), View(img), k, version)
              == if i < 0 then Reply(NotFound, [])
                 else if img.Active()[i].count < version then Reply(NotFoundValue, [])
                 else Reply(Ok, [Read(img.mem, img.Active()[i].slots[img.hdr.maxVer - version])])
  {
    hide Ordered, MapOf, Read;
    ReadableSearch(img);
    OrderedDistinct(Published(img));
    LookUpIsMap(Published(img), k, i);
    if i >= 0 {
      assert Bounded(img, img.Active()[i]);
    }
  }
}
