/**
 The header and the address map of the mapped file: header, two item halves,
 two key halves, two value halves.
 */
module Layout {

  const HEADER_SIZE := 128
  const ITEM_SIZE := 16
  const VAL_SIZE := 16
  const KEY_AVERAGE_LEN := 64
  const VALUE_AVERAGE_LEN := 256

  /** One section: which half is active, its capacity, how much is in use, and
      where the two halves start. */
  datatype Section = Section(id: nat, size: nat, used: nat, sec1: nat, sec2: nat) {
    predicate Valid() {
      (id == 1 || id == 2) && used <= size
    }

    function SnapId(): nat {
      if id == 1 then 2 else 1
    }

    function Start(half: nat): nat {
      if half == 1 then sec1 else sec2
    }

    function Offset(): nat {
      if id == 1 then sec1 else sec2
    }

    function SnapOffset(): nat {
      if id == 1 then sec2 else sec1
    }

    /** Same halves, whatever is in use. */
    predicate SameHalves(other: Section) {
      size == other.size && sec1 == other.sec1 && sec2 == other.sec2
    }

    /** Address `a` lies in the part of the active half that is in use. */
    predicate InUse(a: int) {
      Offset() <= a < Offset() + used
    }

    predicate InSnapshot(a: int) {
      SnapOffset() <= a < SnapOffset() + size
    }
  }

  datatype Header = Header(maxVer: nat, item: Section, key: Section, value: Section)

  function ItemLen(maxVer: nat): nat {
    ITEM_SIZE + maxVer * VAL_SIZE
  }

  /** The header of a new store and the size of its file. */
  function InitHeader(keyCount: nat, maxVer: nat): (Header, nat) {
    var itemHalf := keyCount * ItemLen(maxVer);
    var keyHalf := keyCount * KEY_AVERAGE_LEN;
    var valueHalf := keyCount * VALUE_AVERAGE_LEN;
    var item1 := HEADER_SIZE;
    var item2 := item1 + itemHalf;
    var key1 := item2 + itemHalf;
    var key2 := key1 + keyHalf;
    var value1 := key2 + keyHalf;
    var value2 := value1 + valueHalf;
    (Header(maxVer,
            Section(1, keyCount, 0, item1, item2),
            Section(1, KEY_AVERAGE_LEN * keyCount, 0, key1, key2),
            Section(1, VALUE_AVERAGE_LEN * keyCount, 0, value1, value2)),
     value2 + valueHalf)
  }

  datatype Region = Region(start: nat, len: nat) {
    predicate Has(a: int) {
      start <= a < start + len
    }
  }

  /** The six halves in address order. */
  function Regions(h: Header): seq<Region> {
    var itemHalf := h.item.size * ItemLen(h.maxVer);
    [Region(h.item.sec1, itemHalf), Region(h.item.sec2, itemHalf),
     Region(h.key.sec1, h.key.size), Region(h.key.sec2, h.key.size),
     Region(h.value.sec1, h.value.size), Region(h.value.sec2, h.value.size)]
  }

  /** The regions follow one another without gaps from `lo` to `hi`. */
  ghost predicate Tile(rs: seq<Region>, lo: nat, hi: nat) {
    if rs == [] then lo == hi
    else rs[0].start == lo && Tile(rs[1..], lo + rs[0].len, hi)
  }

  /** Consecutive regions are disjoint and cover: every address is in exactly one. */
  lemma {:induction false} TileHome(rs: seq<Region>, lo: nat, hi: nat, a: int) returns (home: nat)
    requires Tile(rs, lo, hi) && lo <= a < hi
    ensures home < |rs| && forall r :: 0 <= r < |rs| ==> (rs[r].Has(a) <==> r == home)
  {
    if rs[0].Has(a) {
      home := 0;
      forall r | 0 < r < |rs|
        ensures !rs[r].Has(a)
      {
        TileStarts(rs[1..], lo + rs[0].len, hi, r - 1);
      }
    } else {
      var h := TileHome(rs[1..], lo + rs[0].len, hi, a);
      home := h + 1;
      forall r | 0 <= r < |rs|
        ensures rs[r].Has(a) <==> r == home
      {
        if r > 0 {
          assert rs[r] == rs[1..][r - 1];
        }
      }
    }
  }

  lemma {:induction false} TileStarts(rs: seq<Region>, lo: nat, hi: nat, r: nat)
    requires Tile(rs, lo, hi) && r < |rs|
    ensures lo <= rs[r].start && rs[r].start + rs[r].len <= hi
  {
    if r > 0 {
      TileStarts(rs[1..], lo + rs[0].len, hi, r - 1);
      assert rs[r] == rs[1..][r - 1];
    } else {
      TileEnd(rs[1..], lo + rs[0].len, hi);
    }
  }

  lemma {:induction false} TileEnd(rs: seq<Region>, lo: nat, hi: nat)
    requires Tile(rs, lo, hi)
    ensures lo <= hi
  {
    if rs != [] {
      TileEnd(rs[1..], lo + rs[0].len, hi);
    }
  }

  /** The heaps of a header follow one another and end at `total`. */
  predicate HeapsTile(h: Header, total: nat) {
    && h.key.sec1 + h.key.size == h.key.sec2
    && h.key.sec2 + h.key.size == h.value.sec1
    && h.value.sec1 + h.value.size == h.value.sec2
    && h.value.sec2 + h.value.size == total
  }

  /** The second item half starts where the first ends. */
  predicate ItemsTile(h: Header) {
    h.item.sec1 + h.item.size * ItemLen(h.maxVer) == h.item.sec2
  }

  /** A new store: the six halves tile the file behind the header, and the file
      has the documented size. */
  lemma InitTiles(keyCount: nat, maxVer: nat)
    ensures var (h, total) := InitHeader(keyCount, maxVer);
            && Tile(Regions(h), HEADER_SIZE, total)
            && HeapsTile(h, total) && ItemsTile(h)
            && total == 128 + keyCount * (16 + 16 * maxVer) * 2 + keyCount * 64 * 2 + keyCount * 256 * 2
  {
    var (h, total) := InitHeader(keyCount, maxVer);
    var rs := Regions(h);
    assert ItemLen(maxVer) == 16 + 16 * maxVer;
    var values := rs[1..][1..][1..][1..];
    assert |values| == 2 && values[0] == rs[4] && values[1] == rs[5];
    assert Tile(values[1..], h.value.sec2, total) by { assert values[1..][1..] == []; }
    assert Tile(values, h.value.sec1, total);
    assert Tile(rs[1..][1..], h.key.sec1, total);
    assert Tile(rs, HEADER_SIZE, total);
  }

  /** In a new store every address behind the header lies in exactly one of the
      six halves. */
  lemma InitOneHome(keyCount: nat, maxVer: nat, a: nat) returns (home: nat)
    requires HEADER_SIZE <= a < InitHeader(keyCount, maxVer).1
    ensures var rs := Regions(InitHeader(keyCount, maxVer).0);
            home < |rs| && forall r :: 0 <= r < |rs| ==> (rs[r].Has(a) <==> r == home)
  {
    InitTiles(keyCount, maxVer);
    home := TileHome(Regions(InitHeader(keyCount, maxVer).0), HEADER_SIZE, InitHeader(keyCount, maxVer).1, a);
  }

  /** Address of 16-byte cell `c` of item `i`: cell 0 holds the key extent, cell
      1 + j holds value slot j. */
  function CellAddress(start: nat, maxVer: nat, i: nat, c: nat): nat {
    start + i * ItemLen(maxVer) + c * VAL_SIZE
  }

  /** Every cell of every item lies in its own half, and distinct cells do not
      overlap. */
  lemma CellsFit(start: nat, keyCount: nat, maxVer: nat, i: nat, c: nat, i': nat, c': nat)
    requires i < keyCount && c <= maxVer && i' < keyCount && c' <= maxVer
    ensures start <= CellAddress(start, maxVer, i, c)
    ensures CellAddress(start, maxVer, i, c) + VAL_SIZE <= start + keyCount * ItemLen(maxVer)
    ensures (i, c) == (i', c')
            || CellAddress(start, maxVer, i, c) + VAL_SIZE <= CellAddress(start, maxVer, i', c')
            || CellAddress(start, maxVer, i', c') + VAL_SIZE <= CellAddress(start, maxVer, i, c)
  {
    var n := ItemLen(maxVer);
    assert (c + 1) * VAL_SIZE <= n && (c' + 1) * VAL_SIZE <= n;
    StepUp(i, keyCount, n);
    if i < i' {
      StepUp(i, i', n);
    } else if i' < i {
      StepUp(i', i, n);
    }
  }

  lemma StepUp(i: nat, j: nat, n: nat)
    requires i < j
    ensures i * n + n <= j * n
  {
    assert (j - i - 1) * n >= 0;
    assert j * n == i * n + n + (j - i - 1) * n;
  }
}
