/**
 Key comparison inside the file and the binary insertion of a new item.
 */
module Search {
  import opened KeyOrder
  import opened Image

  ghost predicate Holds(es: seq<Entry>, k: Bytes, i: int) {
    0 <= i < |es| && es[i].key == k
  }

  ghost predicate Lacks(es: seq<Entry>, k: Bytes) {
    forall i :: 0 <= i < |es| ==> es[i].key != k
  }

  /** The binary search of the C library, on any list, ordered or not. */
  ghost function Find(es: seq<Entry>, k: Bytes, low: nat, high: nat): (i: int)
    requires low <= high <= |es|
    ensures i < 0 || (low <= i < high && es[i].key == k)
    decreases high - low
  {
    if low == high then -1
    else
      var mid := (low + high) / 2;
      if es[mid].key == k then mid
      else if Less(es[mid].key, k) then Find(es, k, mid + 1, high)
      else Find(es, k, low, mid)
  }

  lemma FindStep(es: seq<Entry>, k: Bytes, low: nat, high: nat)
    requires low < high <= |es|
    ensures var mid := (low + high) / 2;
            Find(es, k, low, high)
            == if es[mid].key == k then mid
               else if Less(es[mid].key, k) then Find(es, k, mid + 1, high)
               else Find(es, k, low, mid)
  {
    hide Less;
  }

  lemma FindNone(es: seq<Entry>, k: Bytes, at: nat)
    requires at <= |es|
    ensures Find(es, k, at, at) == -1
  {
  }

  /** The search of a whole ordered list. */
  lemma FindOrdered(es: seq<Entry>, k: Bytes)
    ensures Ordered(es) ==> if Find(es, k, 0, |es|) < 0 then Lacks(es, k) else Holds(es, k, Find(es, k, 0, |es|))
  {
    hide Less, Ordered, Lacks, Holds, Find;
    if Ordered(es) {
      FindDecides(es, k, 0, |es|);
    }
  }

  /** On an ordered list it finds the key if and only if the list holds it. */
  lemma {:induction false} FindDecides(es: seq<Entry>, k: Bytes, low: nat, high: nat)
    requires Ordered(es) && low <= high <= |es| && AllBelow(es, low, k) && AllAbove(es, high, k)
    ensures if Find(es, k, low, high) < 0 then Lacks(es, k) else Holds(es, k, Find(es, k, low, high))
    decreases high - low
  {
    hide Less, Ordered;
    if low == high {
      AbsentBetween(es, low, k);
    } else {
      var mid := (low + high) / 2;
      LessTrichotomy(es[mid].key, k);
      if Less(es[mid].key, k) {
        BelowSpreads(es, mid, k);
        FindDecides(es, k, mid + 1, high);
      } else if es[mid].key != k {
        AboveSpreads(es, mid, k);
        FindDecides(es, k, low, mid);
      }
    }
  }

  /** What is compared with the items: a key in the caller's memory, or the key
      of an item that is itself in the file. */
  datatype Probe = External(bytes: Bytes) | InFile(key: Extent) {
    function Len(): nat {
      match this
      case External(bytes) => |bytes|
      case InFile(key) => key.len
    }

    function Bytes(mem: Bytes): Bytes {
      match this
      case External(bytes) => bytes
      case InFile(key) => Read(mem, key)
    }
  }

  /** The item comparator: the length fields first, then the bytes each side
      refers to. */
  function ItemCompare(mem: Bytes, p: Probe, it: Item): int
    requires |mem| <= INT32_MAX && p.Len() <= INT32_MAX && it.key.offset + it.key.len <= |mem|
    requires p.InFile? ==> p.key.offset + p.key.len <= |mem|
  {
    var d := ToInt32(p.Len() - it.key.len);
    if d != 0 then d
    else
      LengthSign(p.Len(), it.key.len);
      MemCmp(p.Bytes(mem), Read(mem, it.key))
  }

  /** Both forms compare the same thing, the bytes of the two keys, so lookup and
      insertion use one order. */
  lemma ItemCompareIsOrder(mem: Bytes, p: Probe, it: Item)
    requires |mem| <= INT32_MAX && p.Len() <= INT32_MAX && it.key.offset + it.key.len <= |mem|
    requires p.InFile? ==> p.key.offset + p.key.len <= |mem|
    ensures ItemCompare(mem, p, it) < 0 <==> Less(p.Bytes(mem), Read(mem, it.key))
    ensures ItemCompare(mem, p, it) > 0 <==> Less(Read(mem, it.key), p.Bytes(mem))
    ensures ItemCompare(mem, p, it) == 0 <==> p.Bytes(mem) == Read(mem, it.key)
  {
    LengthSign(p.Len(), it.key.len);
    CompareIsOrder(p.Bytes(mem), Read(mem, it.key));
  }

  ghost predicate KeysInside(mem: Bytes, items: seq<Item>) {
    |mem| <= INT32_MAX && forall i :: 0 <= i < |items| ==> items[i].key.offset + items[i].key.len <= |mem|
  }

  /** The insertion point search.  `high` is signed; the range may include the
      searched item itself. */
  function InsertPosition(mem: Bytes, items: seq<Item>, elt: Item, low: nat, high: int): (pos: nat)
    requires KeysInside(mem, items) && elt.key.offset + elt.key.len <= |mem|
    requires low < |items| && low - 1 <= high < |items|
    ensures low <= pos <= |items|
    decreases high - low + 1
  {
    if high <= low then
      if ItemCompare(mem, InFile(elt.key), items[low]) > 0 then low + 1 else low
    else
      var mid := (low + high) / 2;
      var ret := ItemCompare(mem, InFile(elt.key), items[mid]);
      if ret == 0 then mid + 1
      else if ret > 0 then InsertPosition(mem, items, elt, mid + 1, high)
      else InsertPosition(mem, items, elt, low, mid - 1)
  }

  /** `pos` splits the first `count` items into those below and those above `key`. */
  ghost predicate Splits(mem: Bytes, items: seq<Item>, count: nat, key: Bytes, pos: nat) {
    && pos <= count <= |items|
    && (forall i :: 0 <= i < pos ==> Less(Read(mem, items[i].key), key))
    && (forall i :: pos <= i < count ==> Less(key, Read(mem, items[i].key)))
  }

  ghost predicate AllBelow(es: seq<Entry>, n: int, key: Bytes) {
    forall i :: 0 <= i < n && i < |es| ==> Less(es[i].key, key)
  }

  ghost predicate AllAbove(es: seq<Entry>, n: int, key: Bytes) {
    forall i :: n <= i < |es| && 0 <= i ==> Less(key, es[i].key)
  }

  lemma BelowSpreads(es: seq<Entry>, mid: nat, key: Bytes)
    requires Ordered(es) && mid < |es| && Less(es[mid].key, key)
    ensures AllBelow(es, mid + 1, key)
  {
    hide Less;
    forall i | 0 <= i < mid
      ensures Less(es[i].key, key)
    {
      LessTransitive(es[i].key, es[mid].key, key);
    }
  }

  lemma AboveSpreads(es: seq<Entry>, mid: nat, key: Bytes)
    requires Ordered(es) && mid < |es| && Less(key, es[mid].key)
    ensures AllAbove(es, mid, key)
  {
    hide Less;
    forall i | mid < i < |es|
      ensures Less(key, es[i].key)
    {
      LessTransitive(key, es[mid].key, es[i].key);
    }
  }

  /** On an ordered prefix that lacks the key, with the item itself at index
      `count`, the search ends and finds the one place where the item belongs. */
  lemma {:induction false} InsertPositionSplits(mem: Bytes, items: seq<Item>, count: nat, low: nat, high: int)
    requires KeysInside(mem, items) && count < |items|
    requires Ordered(Entries(mem, items[..count]))
    requires forall i :: 0 <= i < count ==> Read(mem, items[i].key) != Read(mem, items[count].key)
    requires low <= count && low - 1 <= high <= count
    requires AllBelow(Entries(mem, items[..count]), low, Read(mem, items[count].key))
    requires AllAbove(Entries(mem, items[..count]), high + 1, Read(mem, items[count].key))
    ensures Splits(mem, items, count, Read(mem, items[count].key),
                   InsertPosition(mem, items, items[count], low, high))
    decreases high - low + 1
  {
    hide Less, Ordered, Splits, AllBelow, AllAbove, ItemCompare, InsertPosition, Read;
    var elt := items[count];
    var key := Read(mem, elt.key);
    var es := Entries(mem, items[..count]);
    if high <= low {
      LastComparison(mem, items, count, low, high);
    } else {
      var mid := (low + high) / 2;
      assert es[mid].key == Read(mem, items[mid].key);
      InsertPositionStep(mem, items, elt, low, high);
      if Less(key, es[mid].key) {
        AboveSpreads(es, mid, key);
        InsertPositionSplits(mem, items, count, low, mid - 1);
      } else {
        BelowSpreads(es, mid, key);
        InsertPositionSplits(mem, items, count, mid + 1, high);
      }
    }
  }

  /** One halving: the search goes to the side the order says. */
  lemma InsertPositionStep(mem: Bytes, items: seq<Item>, elt: Item, low: nat, high: int)
    requires KeysInside(mem, items) && elt.key.offset + elt.key.len <= |mem|
    requires low < high < |items|
    requires Read(mem, items[(low + high) / 2].key) != Read(mem, elt.key)
    ensures var mid := (low + high) / 2;
            var key, midKey := Read(mem, elt.key), Read(mem, items[mid].key);
            && (Less(key, midKey) || Less(midKey, key))
            && InsertPosition(mem, items, elt, low, high)
               == if Less(key, midKey) then InsertPosition(mem, items, elt, low, mid - 1)
                  else InsertPosition(mem, items, elt, mid + 1, high)
  {
    hide Less, ItemCompare;
    var mid := (low + high) / 2;
    ItemCompareIsOrder(mem, InFile(elt.key), items[mid]);
    LessTrichotomy(Read(mem, elt.key), Read(mem, items[mid].key));
  }

  lemma LastComparison(mem: Bytes, items: seq<Item>, count: nat, low: nat, high: int)
    requires KeysInside(mem, items) && low <= count < |items| && low - 1 <= high <= low
    requires low < count ==> Read(mem, items[low].key) != Read(mem, items[count].key)
    requires AllBelow(Entries(mem, items[..count]), low, Read(mem, items[count].key))
    requires AllAbove(Entries(mem, items[..count]), high + 1, Read(mem, items[count].key))
    ensures Splits(mem, items, count, Read(mem, items[count].key),
                   InsertPosition(mem, items, items[count], low, high))
  {
    hide Less;
    var key := Read(mem, items[count].key);
    var es := Entries(mem, items[..count]);
    var pos := InsertPosition(mem, items, items[count], low, high);
    ItemCompareIsOrder(mem, InFile(items[count].key), items[low]);
    LessTrichotomy(key, Read(mem, items[low].key));
    if low == count {
      assert pos == count;
    } else {
      assert es[low].key == Read(mem, items[low].key);
      assert AllBelow(es, pos, key) && AllAbove(es, pos, key);
    }
    PositionSplits(mem, items, count, key, pos);
  }

  lemma PositionSplits(mem: Bytes, items: seq<Item>, count: nat, key: Bytes, pos: nat)
    requires pos <= count <= |items|
    requires AllBelow(Entries(mem, items[..count]), pos, key)
    requires AllAbove(Entries(mem, items[..count]), pos, key)
    ensures Splits(mem, items, count, key, pos)
  {
    hide Less;
    var es := Entries(mem, items[..count]);
    assert forall i :: 0 <= i < count ==> es[i].key == Read(mem, items[i].key);
  }

  /** The place is unique. */
  lemma SplitUnique(mem: Bytes, items: seq<Item>, count: nat, key: Bytes, p: nat, q: nat)
    requires Splits(mem, items, count, key, p) && Splits(mem, items, count, key, q)
    ensures p == q
  {
    hide Less;
    if p < q {
      LessTrichotomy(key, Read(mem, items[p].key));
    } else if q < p {
      LessTrichotomy(key, Read(mem, items[q].key));
    }
  }

  lemma EntriesInsert(mem: Bytes, items: seq<Item>, pos: nat, it: Item)
    requires pos <= |items|
    ensures Entries(mem, InsertAt(items, pos, it)) == InsertAt(Entries(mem, items), pos, EntryOf(mem, it))
  {
    hide InsertAt, EntryOf;
  }

  lemma EntriesRemove(mem: Bytes, items: seq<Item>, pos: nat)
    requires pos < |items|
    ensures Entries(mem, RemoveAt(items, pos)) == RemoveAt(Entries(mem, items), pos)
  {
    hide RemoveAt, EntryOf;
  }

  /** Inserting at the split keeps the order. */
  lemma InsertOrdered(es: seq<Entry>, pos: nat, e: Entry)
    requires Ordered(es) && pos <= |es|
    requires AllBelow(es, pos, e.key) && AllAbove(es, pos, e.key)
    ensures Ordered(InsertAt(es, pos, e))
  {
    hide Less, InsertAt;
    var all := InsertAt(es, pos, e);
    forall i, j | 0 <= i < j < |all|
      ensures Less(all[i].key, all[j].key)
    {
      assert i != pos ==> all[i] == es[if i < pos then i else i - 1];
      assert j != pos ==> all[j] == es[if j < pos then j else j - 1];
    }
  }

  lemma RemoveOrdered(es: seq<Entry>, pos: nat)
    requires Ordered(es) && pos < |es|
    ensures Ordered(RemoveAt(es, pos))
  {
    hide Less, RemoveAt;
    var all := RemoveAt(es, pos);
    forall i, j | 0 <= i < j < |all|
      ensures Less(all[i].key, all[j].key)
    {
      assert all[i] == es[if i < pos then i else i + 1];
      assert all[j] == es[if j < pos then j else j + 1];
    }
  }

  lemma EntryKey(mem: Bytes, it: Item)
    ensures EntryOf(mem, it).key == Read(mem, it.key)
  {
  }

  lemma AbsentBetween(es: seq<Entry>, n: int, key: Bytes)
    requires AllBelow(es, n, key) && AllAbove(es, n, key)
    ensures forall i :: 0 <= i < |es| ==> es[i].key != key
  {
    forall i | 0 <= i < |es|
      ensures es[i].key != key
    {
      LessTrichotomy(es[i].key, key);
      LessTrichotomy(key, es[i].key);
    }
  }

  /** The whole insertion: the place found for the last item keeps the order. */
  lemma InsertionPlace(mem: Bytes, items: seq<Item>, count: nat)
    requires KeysInside(mem, items) && |items| == count + 1
    requires Ordered(Entries(mem, items[..count]))
    requires forall i :: 0 <= i < count ==> Entries(mem, items[..count])[i].key != Read(mem, items[count].key)
    ensures var pos := InsertPosition(mem, items, items[count], 0, count);
            && pos <= count
            && Splits(mem, items, count, Read(mem, items[count].key), pos)
            && Entries(mem, InsertAt(items[..count], pos, items[count]))
               == InsertAt(Entries(mem, items[..count]), pos, EntryOf(mem, items[count]))
            && Ordered(Entries(mem, InsertAt(items[..count], pos, items[count])))
  {
    hide Less, Ordered, InsertAt, InsertPosition, Read;
    var es, key := Entries(mem, items[..count]), Read(mem, items[count].key);
    forall i | 0 <= i < count
      ensures Read(mem, items[i].key) != key
    {
      assert es[i].key == Read(mem, items[i].key);
    }
    InsertPositionSplits(mem, items, count, 0, count);
    var pos := InsertPosition(mem, items, items[count], 0, count);
    EntriesInsert(mem, items[..count], pos, items[count]);
    forall i | 0 <= i < count
      ensures es[i].key == Read(mem, items[i].key)
    {
    }
    InsertOrdered(es, pos, EntryOf(mem, items[count]));
  }

  // ---------- moving items ----------

  lemma CopyNext(from: seq<Item>, over: seq<Item>, now: seq<Item>, i: nat)
    requires |from| == |over| && i < |from| && now == from[..i] + over[i..]
    ensures now[i := from[i]] == from[..i + 1] + over[i + 1..]
  {
  }

  /** Items `k .. to - 1` have gone one place up. */
  ghost predicate MovedUp(snap0: seq<Item>, snap1: seq<Item>, k: nat, to: nat) {
    && |snap0| == |snap1| && k <= to < |snap0|
    && forall j {:trigger snap1[j]} :: 0 <= j < |snap0| ==> snap1[j] == if k < j <= to then snap0[j - 1] else snap0[j]
  }

  /** Items `from + 1 .. k` have gone one place down. */
  ghost predicate MovedDown(snap0: seq<Item>, snap1: seq<Item>, from: nat, k: nat) {
    && |snap0| == |snap1| && from <= k < |snap0|
    && forall j {:trigger snap1[j]} :: 0 <= j < |snap0| ==> snap1[j] == if from <= j < k then snap0[j + 1] else snap0[j]
  }

  lemma MoveStart(snap: seq<Item>, at: nat)
    requires at < |snap|
    ensures MovedUp(snap, snap, at, at) && MovedDown(snap, snap, at, at)
  {
  }

  lemma MovedUpNext(snap0: seq<Item>, snap1: seq<Item>, k: nat, to: nat)
    requires MovedUp(snap0, snap1, k, to) && k > 0
    ensures |snap1| == |snap0| && to < |snap0| && MovedUp(snap0, snap1[k := snap1[k - 1]], k - 1, to)
  {
  }

  lemma MovedDownNext(snap0: seq<Item>, snap1: seq<Item>, from: nat, k: nat)
    requires MovedDown(snap0, snap1, from, k) && k + 1 < |snap0|
    ensures |snap1| == |snap0| && MovedDown(snap0, snap1[k := snap1[k + 1]], from, k + 1)
  {
  }

  lemma UpInserted(snap0: seq<Item>, snap1: seq<Item>, pos: nat, count: nat)
    requires MovedUp(snap0, snap1, pos, count)
    ensures snap1[pos := snap0[count]][..count + 1] == InsertAt(snap0[..count], pos, snap0[count])
  {
  }

  lemma UpStays(snap: seq<Item>, count: nat)
    requires count < |snap|
    ensures snap[..count + 1] == InsertAt(snap[..count], count, snap[count])
  {
  }

  lemma DownRemoved(snap0: seq<Item>, snap1: seq<Item>, from: nat, to: nat)
    requires MovedDown(snap0, snap1, from, to)
    ensures |snap1| == |snap0| && snap1[..to] == RemoveAt(snap0[..to + 1], from)
  {
  }
}
