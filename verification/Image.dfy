/**
 The mapped file as a value, what it means, and what keeps that meaning.

 An item half is a sequence of item records; `mem` holds the whole file by
 absolute offset, of which only the heap halves are read here.
 */
module Image {
  import opened KeyOrder
  import opened Layout
  import opened Spec

  datatype Extent = Extent(offset: nat, len: nat) {
    predicate Has(a: int) {
      offset <= a < offset + len
    }
  }

  /** The key extent, the number of values, and `maxVer` value slots of which the
      last `count` are live, the newest in the last slot. */
  datatype Item = Item(key: Extent, count: nat, slots: seq<Extent>) {
    /** Slot of version `v + 1`. */
    function Version(v: nat): Extent
      requires v < |slots|
    {
      slots[|slots| - 1 - v]
    }

    predicate Live(j: int) {
      0 <= j < |slots| && |slots| - count <= j
    }
  }

  datatype Option<T> = None | Some(value: T)

  datatype Entry = Entry(key: Bytes, values: seq<Bytes>)

  datatype Image = Image(hdr: Header, half1: seq<Item>, half2: seq<Item>, mem: Bytes) {
    function Half(h: nat): seq<Item> {
      if h == 1 then half1 else half2
    }

    function WithHalf(h: nat, items: seq<Item>): Image {
      if h == 1 then this.(half1 := items) else this.(half2 := items)
    }

    function Active(): seq<Item> {
      Half(hdr.item.id)
    }

    function Snap(): seq<Item> {
      Half(hdr.item.SnapId())
    }
  }

  /** The extent field of 16-byte cell `k`, counted from the first item half: the
      key of an item or one of its slots.  Behind the second half there is none. */
  function CellOf(img: Image, k: nat): Option<Extent> {
    var i, c := k / (1 + img.hdr.maxVer), k % (1 + img.hdr.maxVer);
    var items := img.half1 + img.half2;
    if i >= |items| then None
    else if c == 0 then Some(items[i].key)
    else if c <= |items[i].slots| then Some(items[i].slots[c - 1])
    else None
  }

  /** The cell the lookups read for a version of active item `i`. */
  function VersionCell(img: Image, i: nat, version: int): nat
    requires version <= img.hdr.maxVer
  {
    ((if img.hdr.item.id == 1 then 0 else |img.half1|) + i) * (1 + img.hdr.maxVer) + 1 + img.hdr.maxVer - version
  }

  // ---------- meaning ----------

  function Read(mem: Bytes, e: Extent): Bytes {
    if e.offset + e.len <= |mem| then mem[e.offset..e.offset + e.len] else []
  }

  function Values(mem: Bytes, it: Item): seq<Bytes> {
    seq(it.count, v => if 0 <= v < |it.slots| then Read(mem, it.Version(v)) else [])
  }

  function EntryOf(mem: Bytes, it: Item): Entry {
    Entry(Read(mem, it.key), Values(mem, it))
  }

  function Entries(mem: Bytes, items: seq<Item>): seq<Entry> {
    seq(|items|, i requires 0 <= i < |items| => EntryOf(mem, items[i]))
  }

  ghost predicate Ordered(es: seq<Entry>) {
    forall i, j :: 0 <= i < j < |es| ==> Less(es[i].key, es[j].key)
  }

  lemma OrderedDistinct(es: seq<Entry>)
    requires Ordered(es)
    ensures Distinct(es)
  {
    hide Less;
    forall i, j | 0 <= i < |es| && 0 <= j < |es| && i != j
      ensures es[i].key != es[j].key
    {
      LessTrichotomy(es[i].key, es[j].key);
    }
  }

  ghost predicate Distinct(es: seq<Entry>) {
    forall i, j :: 0 <= i < |es| && 0 <= j < |es| && i != j ==> es[i].key != es[j].key
  }

  ghost function MapOf(es: seq<Entry>): Dict
    requires Distinct(es)
  {
    map i | 0 <= i < |es| :: es[i].key := es[i].values
  }

  /** What a reader finds who goes through item half `h` with `n` items. */
  ghost function Through(img: Image, h: nat, n: nat): seq<Entry> {
    if n <= |img.Half(h)| then Entries(img.mem, img.Half(h)[..n]) else []
  }

  /** What a reader finds who samples the header of `img`. */
  ghost function Published(img: Image): seq<Entry> {
    Through(img, img.hdr.item.id, img.hdr.item.used)
  }

  ghost function View(img: Image): Dict
    requires Ordered(Published(img))
  {
    OrderedDistinct(Published(img));
    MapOf(Published(img))
  }

  function HeapOf(h: Header): Heap {
    Heap(h.value.used, h.value.id)
  }

  function KeyHeapOf(h: Header): Heap {
    Heap(h.key.used, h.key.id)
  }

  function Capacities(h: Header): Config {
    Config(h.item.size, h.key.size, h.value.size, h.maxVer)
  }

  // ---------- invariant ----------

  /** A non-empty extent in the used part of the active half. */
  predicate InHeap(s: Section, e: Extent) {
    s.Offset() <= e.offset && 1 <= e.len && e.offset + e.len <= s.Offset() + s.used
  }

  /** Everything the item refers to lies in the used part of the active heaps. */
  ghost predicate ItemOk(h: Header, it: Item) {
    && |it.slots| == h.maxVer
    && 1 <= it.count <= h.maxVer
    && InHeap(h.key, it.key)
    && forall j :: it.Live(j) ==> InHeap(h.value, it.slots[j])
  }

  ghost predicate AllOk(h: Header, items: seq<Item>) {
    forall i :: 0 <= i < |items| ==> ItemOk(h, items[i])
  }

  function KeySum(es: seq<Entry>): nat {
    if es == [] then 0 else KeySum(es[..|es| - 1]) + |es[|es| - 1].key|
  }

  function ValueSum(es: seq<Entry>): nat {
    if es == [] then 0 else ValueSum(es[..|es| - 1]) + ValuesLen(es[|es| - 1].values)
  }

  /** The items are in the heaps, and the live bytes do not exceed the used ones. */
  ghost predicate Sound(h: Header, mem: Bytes, items: seq<Item>) {
    && AllOk(h, items)
    && KeySum(Entries(mem, items)) <= h.key.used
    && ValueSum(Entries(mem, items)) <= h.value.used
  }

  ghost predicate Shape(img: Image) {
    var h := img.hdr;
    && h.maxVer >= 1
    && h.item.Valid() && h.key.Valid() && h.value.Valid()
    && |img.half1| == |img.half2| == h.item.size
    && HeapsTile(h, |img.mem|) && |img.mem| <= INT32_MAX
    && (forall i :: 0 <= i < h.item.size ==> |img.half1[i].slots| == h.maxVer)
    && (forall i :: 0 <= i < h.item.size ==> |img.half2[i].slots| == h.maxVer)
  }

  /** The plain numbers of a shape. */
  lemma ShapeBounds(img: Image)
    requires Shape(img)
    ensures var h := img.hdr;
            && h.maxVer >= 1 && h.item.Valid() && h.key.Valid() && h.value.Valid()
            && |img.half1| == |img.half2| == |img.Active()| == |img.Snap()| == h.item.size
            && HeapsTile(h, |img.mem|) && |img.mem| <= INT32_MAX
  {
  }

  ghost predicate ValidImage(img: Image) {
    && Shape(img)
    && Sound(img.hdr, img.mem, img.Active()[..img.hdr.item.used])
    && Ordered(Published(img))
  }

  /** What a lookup needs: item fields that stay inside the file and an ordered
      index.  It holds at every step of a write. */
  ghost predicate Readable(img: Image) {
    && (img.hdr.item.id == 1 || img.hdr.item.id == 2) && img.hdr.item.used <= |img.Active()|
    && (forall i :: 0 <= i < img.hdr.item.used ==> Bounded(img, img.Active()[i]))
    && Ordered(Published(img))
    && |img.mem| <= INT32_MAX
  }

  ghost predicate Bounded(img: Image, it: Item) {
    && |it.slots| == img.hdr.maxVer
    && 1 <= it.count <= img.hdr.maxVer
    && it.key.offset + it.key.len <= |img.mem|
    && forall j :: it.Live(j) ==> 1 <= it.slots[j].len && it.slots[j].offset + it.slots[j].len <= |img.mem|
  }

  lemma ValidReadable(img: Image)
    requires ValidImage(img)
    ensures Readable(img)
  {
    forall i | 0 <= i < img.hdr.item.used
      ensures Bounded(img, img.Active()[i])
    {
      assert img.Active()[i] == img.Active()[..img.hdr.item.used][i];
      assert ItemOk(img.hdr, img.Active()[i]);
    }
  }

  // ---------- a write, before it is published ----------

  /** The bytes a write that started from `base` leaves alone: both used heap
      parts, and while it has begun no value compaction (`calm`) the other value
      half as well. */
  predicate Guarded(base: Image, calm: bool, a: int) {
    || base.hdr.key.InUse(a)
    || base.hdr.value.InUse(a)
    || (calm && base.hdr.value.InSnapshot(a))
  }

  /** Everything about `base` a reader may hold still stands in `img`: the item
      half that was active, and the guarded bytes. */
  ghost predicate Kept(base: Image, img: Image, calm: bool) {
    && img.hdr.maxVer == base.hdr.maxVer
    && img.hdr.item.SameHalves(base.hdr.item)
    && img.hdr.key.SameHalves(base.hdr.key)
    && img.hdr.value.SameHalves(base.hdr.value)
    && img.Half(base.hdr.item.id) == base.Active()
    && |img.mem| == |base.mem|
    && forall a :: 0 <= a < |base.mem| && Guarded(base, calm, a) ==> img.mem[a] == base.mem[a]
  }

  /** `img` is a step of a write on `base` that has not been published. */
  ghost predicate Quiet(base: Image, img: Image, calm: bool) {
    Kept(base, img, calm) && img.hdr.item == base.hdr.item
  }

  /** A single write to the file. */
  datatype Write =
    | ItemWrite(half: nat, i: nat, item: Item)
    | ByteWrite(at: nat, b: byte)
    | ItemSectionWrite(s: Section)
    | KeySectionWrite(s: Section)
    | ValueSectionWrite(s: Section)

  predicate Applies(img: Image, w: Write) {
    match w
    case ItemWrite(half, i, item) => (half == 1 || half == 2) && i < |img.Half(half)|
    case ByteWrite(at, b) => at < |img.mem|
    case _ => true
  }

  function Apply(img: Image, w: Write): Image
    requires Applies(img, w)
  {
    match w
    case ItemWrite(half, i, item) => img.WithHalf(half, img.Half(half)[i := item])
    case ByteWrite(at, b) => img.(mem := img.mem[at := b])
    case ItemSectionWrite(s) => img.(hdr := img.hdr.(item := s))
    case KeySectionWrite(s) => img.(hdr := img.hdr.(key := s))
    case ValueSectionWrite(s) => img.(hdr := img.hdr.(value := s))
  }

  /** The two images are one item, one byte or one header section apart. */
  ghost predicate OneWrite(a: Image, b: Image) {
    exists w :: Applies(a, w) && b == Apply(a, w)
  }

  function Latest(base: Image, log: seq<Image>): Image {
    if log == [] then base else log[|log| - 1]
  }

  /** `log` holds the image after each single write on the way from `base` to
      `img`, without a gap. */
  ghost predicate Trace(base: Image, log: seq<Image>, img: Image) {
    && img == Latest(base, log)
    && (log != [] ==>
          var before := log[..|log| - 1];
          OneWrite(Latest(base, before), img) && Trace(base, before, Latest(base, before)))
  }

  lemma TraceNext(base: Image, log: seq<Image>, img: Image, w: Write)
    requires Trace(base, log, img) && Applies(img, w)
    ensures Trace(base, log + [Apply(img, w)], Apply(img, w))
  {
    assert (log + [Apply(img, w)])[..|log|] == log;
    assert OneWrite(img, Apply(img, w));
  }

  lemma {:induction false} TraceJoin(a: Image, l0: seq<Image>, b: Image, l1: seq<Image>, c: Image)
    requires Trace(a, l0, b) && Trace(b, l1, c)
    ensures Trace(a, l0 + l1, c)
    decreases |l1|
  {
    hide OneWrite;
    if l1 == [] {
      assert l0 + l1 == l0;
    } else {
      var before := l1[..|l1| - 1];
      TraceJoin(a, l0, b, before, Latest(b, before));
      assert (l0 + l1)[..|l0 + l1| - 1] == l0 + before;
    }
  }

  /** What a finished write on `base` shows at each of its steps, which are all in
      `log`: whoever sampled the header before finds everything in place
      throughout, and the header changes for readers in one step, the last, if the
      write succeeds. */
  ghost predicate WriteSteps(base: Image, log: seq<Image>, img: Image, calm: bool, done: bool) {
    && Trace(base, log, img)
    && (forall j :: 0 <= j < |log| ==> Kept(base, log[j], calm))
    && (forall j :: 0 <= j < |log| - (if done then 1 else 0) ==> Quiet(base, log[j], calm))
    && (if done then log != [] && log[|log| - 1] == img else Quiet(base, img, calm))
  }

  lemma ReadSame(m0: Bytes, m1: Bytes, e: Extent)
    requires |m0| == |m1|
    requires forall a :: 0 <= a < |m0| && e.Has(a) ==> m0[a] == m1[a]
    ensures Read(m0, e) == Read(m1, e)
  {
  }

  /** An entry depends only on the bytes of its extents. */
  lemma EntrySame(m0: Bytes, m1: Bytes, it: Item)
    requires |m0| == |m1| && it.count <= |it.slots|
    requires forall a :: 0 <= a < |m0| && it.key.Has(a) ==> m0[a] == m1[a]
    requires forall j, a :: it.Live(j) && 0 <= a < |m0| && it.slots[j].Has(a) ==> m0[a] == m1[a]
    ensures EntryOf(m0, it) == EntryOf(m1, it)
  {
    ReadSame(m0, m1, it.key);
    forall v | 0 <= v < it.count
      ensures Values(m0, it)[v] == Values(m1, it)[v]
    {
      assert it.Live(|it.slots| - 1 - v);
      ReadSame(m0, m1, it.Version(v));
    }
    assert Values(m0, it) == Values(m1, it);
  }

  /** A reader who sampled `base` finds the same entries at every later step of
      the write, published or not. */
  lemma KeptThrough(base: Image, img: Image, calm: bool)
    requires ValidImage(base) && Kept(base, img, calm)
    ensures Through(img, base.hdr.item.id, base.hdr.item.used) == Published(base)
  {
    var items := base.Active()[..base.hdr.item.used];
    forall i | 0 <= i < |items|
      ensures EntryOf(img.mem, items[i]) == EntryOf(base.mem, items[i])
    {
      assert ItemOk(base.hdr, items[i]);
      EntrySame(base.mem, img.mem, items[i]);
    }
    assert Entries(img.mem, items) == Entries(base.mem, items);
  }

  lemma KeptTiles(base: Image, img: Image, calm: bool)
    requires Kept(base, img, calm)
    ensures ItemsTile(base.hdr) <==> ItemsTile(img.hdr)
  {
  }

  /** Before publication every lookup gives what it gave before the write. */
  lemma QuietView(base: Image, img: Image, calm: bool)
    requires ValidImage(base) && Quiet(base, img, calm)
    ensures Readable(img)
    ensures Published(img) == Published(base) && View(img) == View(base)
  {
    KeptThrough(base, img, calm);
    ValidReadable(base);
  }

  /** A write that gives up leaves a valid image if it leaves the heap halves
      selected as they were and does not take bytes back. */
  lemma AbandonedValid(base: Image, img: Image, calm: bool)
    requires ValidImage(base) && Quiet(base, img, calm) && Shape(img)
    requires img.hdr.key.id == base.hdr.key.id && base.hdr.key.used <= img.hdr.key.used
    requires img.hdr.value == base.hdr.value
    ensures ValidImage(img) && View(img) == View(base)
  {
    QuietView(base, img, calm);
    var items := base.Active()[..base.hdr.item.used];
    forall i | 0 <= i < |items|
      ensures ItemOk(img.hdr, items[i])
    {
      assert ItemOk(base.hdr, items[i]);
    }
  }

  // ---------- sums ----------

  lemma SumsNone(es: seq<Entry>)
    ensures KeySum(es[..0]) == ValueSum(es[..0]) == 0
  {
  }

  lemma KeySumSnoc(es: seq<Entry>, i: nat)
    requires i < |es|
    ensures KeySum(es[..i + 1]) == KeySum(es[..i]) + |es[i].key|
  {
    assert es[..i + 1][..i] == es[..i];
  }

  lemma ValueSumSnoc(es: seq<Entry>, i: nat)
    requires i < |es|
    ensures ValueSum(es[..i + 1]) == ValueSum(es[..i]) + ValuesLen(es[i].values)
  {
    assert es[..i + 1][..i] == es[..i];
  }

  lemma {:induction false} SumsMonotone(es: seq<Entry>, i: nat)
    requires i <= |es|
    ensures KeySum(es[..i]) <= KeySum(es)
    ensures ValueSum(es[..i]) <= ValueSum(es)
    decreases |es| - i
  {
    if i == |es| {
      assert es[..i] == es;
    } else {
      SumsMonotone(es, i + 1);
      KeySumSnoc(es, i);
      ValueSumSnoc(es, i);
    }
  }

  lemma MapGet(es: seq<Entry>, i: nat)
    requires Distinct(es) && i < |es|
    ensures es[i].key in MapOf(es) && MapOf(es)[es[i].key] == es[i].values
  {
  }

  /** A map is determined by its entries. */
  lemma MapIs(es: seq<Entry>, m: Dict)
    requires Distinct(es)
    requires forall i :: 0 <= i < |es| ==> es[i].key in m && m[es[i].key] == es[i].values
    requires forall k :: k in m ==> exists i :: 0 <= i < |es| && es[i].key == k
    ensures MapOf(es) == m
  {
    forall k | k in m
      ensures k in MapOf(es) && MapOf(es)[k] == m[k]
    {
      var i :| 0 <= i < |es| && es[i].key == k;
      MapGet(es, i);
    }
  }

  lemma DistinctPrefix(es: seq<Entry>)
    requires Distinct(es) && es != []
    ensures var n := |es| - 1;
            && Distinct(es[..n]) && es[n].key !in MapOf(es[..n])
            && MapOf(es) == MapOf(es[..n])[es[n].key := es[n].values]
  {
    var n := |es| - 1;
    var small := es[..n];
    assert forall i :: 0 <= i < n ==> small[i] == es[i];
    var m := MapOf(small)[es[n].key := es[n].values];
    forall i | 0 <= i < |es|
      ensures es[i].key in m && m[es[i].key] == es[i].values
    {
      if i < n {
        MapGet(small, i);
        assert es[i].key != es[n].key;
      }
    }
    forall k | k in m
      ensures exists i :: 0 <= i < |es| && es[i].key == k
    {
      if k == es[n].key {
        assert es[n].key == k;
      } else {
        var i :| 0 <= i < |small| && small[i].key == k;
        assert es[i].key == k;
      }
    }
    MapIs(es, m);
  }

  /** The sums over the items are the sums over the map they mean. */
  lemma {:induction false} SumsAreMapSums(es: seq<Entry>)
    requires Distinct(es)
    ensures KeySum(es) == KeyBytes(MapOf(es))
    ensures ValueSum(es) == ValueBytes(MapOf(es))
    ensures |es| == |MapOf(es)|
    decreases |es|
  {
    if es == [] {
      assert MapOf(es) == map[];
    } else {
      var n := |es| - 1;
      var small, last := MapOf(es[..n]), es[n];
      DistinctPrefix(es);
      SumsAreMapSums(es[..n]);
      SumPut(small, KeyWeight, last.key, last.values);
      SumPut(small, ValueWeight, last.key, last.values);
      SizePut(small, last.key, last.values);
    }
  }

  // ---------- edits of the entry list ----------

  function InsertAt<T>(s: seq<T>, pos: nat, x: T): (r: seq<T>)
    requires pos <= |s|
    ensures |r| == |s| + 1 && r[pos] == x
    ensures forall i {:trigger r[i]} :: 0 <= i <= |s| && i != pos ==> r[i] == if i < pos then s[i] else s[i - 1]
  {
    s[..pos] + [x] + s[pos..]
  }

  function RemoveAt<T>(s: seq<T>, pos: nat): (r: seq<T>)
    requires pos < |s|
    ensures |r| == |s| - 1
    ensures forall i {:trigger r[i]} :: 0 <= i < |s| - 1 ==> r[i] == if i < pos then s[i] else s[i + 1]
  {
    s[..pos] + s[pos + 1..]
  }

  lemma MapInsert(es: seq<Entry>, pos: nat, e: Entry)
    requires Distinct(es) && pos <= |es| && Distinct(InsertAt(es, pos, e))
    ensures e.key !in MapOf(es)
    ensures MapOf(InsertAt(es, pos, e)) == MapOf(es)[e.key := e.values]
  {
    hide InsertAt;
    var all := InsertAt(es, pos, e);
    var m := MapOf(es)[e.key := e.values];
    assert all[pos] == e;
    forall i | 0 <= i < |es|
      ensures es[i].key != e.key
    {
      assert all[if i < pos then i else i + 1] == es[i];
    }
    forall k | k in m
      ensures exists i :: 0 <= i < |all| && all[i].key == k
    {
      if k == e.key {
        assert all[pos].key == k;
      } else {
        var i :| 0 <= i < |es| && es[i].key == k;
        assert all[if i < pos then i else i + 1].key == k;
      }
    }
    forall i | 0 <= i < |all|
      ensures all[i].key in m && m[all[i].key] == all[i].values
    {
      if i != pos {
        MapGet(es, if i < pos then i else i - 1);
        assert all[i] == es[if i < pos then i else i - 1];
      }
    }
    MapIs(all, m);
  }

  lemma MapUpdate(es: seq<Entry>, pos: nat, e: Entry)
    requires Distinct(es) && pos < |es| && e.key == es[pos].key
    ensures Distinct(es[pos := e])
    ensures MapOf(es[pos := e]) == MapOf(es)[e.key := e.values]
  {
    var all, m := es[pos := e], MapOf(es)[e.key := e.values];
    forall i | 0 <= i < |all|
      ensures all[i].key in m && m[all[i].key] == all[i].values
    {
      MapGet(es, i);
    }
    forall k | k in m
      ensures exists i :: 0 <= i < |all| && all[i].key == k
    {
      MapGet(es, pos);
      var i :| 0 <= i < |es| && es[i].key == k;
      assert all[i].key == k;
    }
    MapIs(all, m);
  }

  lemma RemoveDistinct(es: seq<Entry>, pos: nat)
    requires Distinct(es) && pos < |es|
    ensures Distinct(RemoveAt(es, pos))
  {
    hide RemoveAt;
    var all := RemoveAt(es, pos);
    forall i, j | 0 <= i < |all| && 0 <= j < |all| && i != j
      ensures all[i].key != all[j].key
    {
      assert all[i] == es[if i < pos then i else i + 1];
      assert all[j] == es[if j < pos then j else j + 1];
    }
  }

  lemma MapRemove(es: seq<Entry>, pos: nat)
    requires Distinct(es) && pos < |es|
    ensures Distinct(RemoveAt(es, pos))
    ensures MapOf(RemoveAt(es, pos)) == MapOf(es) - {es[pos].key}
  {
    hide RemoveAt;
    RemoveDistinct(es, pos);
    var all, m := RemoveAt(es, pos), MapOf(es) - {es[pos].key};
    forall i | 0 <= i < |all|
      ensures all[i].key in m && m[all[i].key] == all[i].values
    {
      var from := if i < pos then i else i + 1;
      assert all[i] == es[from];
      MapGet(es, from);
    }
    forall k | k in m
      ensures exists i :: 0 <= i < |all| && all[i].key == k
    {
      var i :| 0 <= i < |es| && es[i].key == k;
      var to := if i < pos then i else i - 1;
      assert all[to].key == k;
    }
    MapIs(all, m);
  }

  /** Taking an item out takes its bytes out of both sums. */
  lemma RemoveSums(es: seq<Entry>, pos: nat)
    requires Distinct(es) && pos < |es|
    ensures KeySum(RemoveAt(es, pos)) <= KeySum(es)
    ensures ValueSum(RemoveAt(es, pos)) <= ValueSum(es)
  {
    MapRemove(es, pos);
    SumsAreMapSums(es);
    SumsAreMapSums(RemoveAt(es, pos));
    MapGet(es, pos);
    SumSplit(MapOf(es), KeyWeight, es[pos].key);
    SumSplit(MapOf(es), ValueWeight, es[pos].key);
  }

  // ---------- copying bytes ----------

  /** `mem` with the bytes `s` written at address `at`. */
  function Blit(mem: Bytes, at: nat, s: Bytes): (r: Bytes)
    requires at + |s| <= |mem|
    ensures |r| == |mem|
    ensures Read(r, Extent(at, |s|)) == s
    ensures forall a :: 0 <= a < |mem| && !(at <= a < at + |s|) ==> r[a] == mem[a]
  {
    var r := mem[..at] + s + mem[at + |s|..];
    assert r[at..at + |s|] == s;
    r
  }

  lemma BlitNone(mem: Bytes, at: nat, s: Bytes)
    requires at + |s| <= |mem|
    ensures Blit(mem, at, s[..0]) == mem
  {
  }

  lemma BlitNext(mem: Bytes, at: nat, s: Bytes, i: nat)
    requires at + |s| <= |mem| && i < |s|
    ensures Blit(mem, at, s[..i])[at + i := s[i]] == Blit(mem, at, s[..i + 1])
  {
  }

  /** An extent away from the written range reads as before. */
  lemma BlitElsewhere(mem: Bytes, at: nat, s: Bytes, e: Extent)
    requires at + |s| <= |mem|
    requires e.offset + e.len <= at || at + |s| <= e.offset
    ensures Read(Blit(mem, at, s), e) == Read(mem, e)
  {
    ReadSame(mem, Blit(mem, at, s), e);
  }
}
