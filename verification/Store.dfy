/**
 The store engine over the mapped file.
 */
module Store {
  import opened KeyOrder
  import opened Layout
  import opened Spec
  import opened Image
  import opened Packing
  import opened Refinement
  import opened Search

  class Store {
    var hdr: Header
    const half1: array<Item>
    const half2: array<Item>
    const mem: array<byte>

    // The image at the start of the current write, the images after each single
    // write to the file since then, and whether no value compaction has begun.
    ghost var base: Image
    ghost var log: seq<Image>
    ghost var calm: bool
    // The value halves that compactions have been copying into, in order.
    ghost var purged: seq<nat>

    ghost function Img(): Image
      reads this, half1, half2, mem
    {
      Image(hdr, half1[..], half2[..], mem[..])
    }

    ghost predicate Formed()
      reads this, half1, half2, mem
    {
      half1 != half2 && ValidImage(Img())
    }

    /** The invariant between operations: a valid image in which every live string ends
        in a NUL, with the item halves one behind the other. */
    ghost predicate Valid()
      reads this, half1, half2, mem
    {
      Formed() && Terminated(View(Img())) && ItemsTile(hdr)
    }

    /** The invariant inside a write: the log is complete, and at every step so far
        the file has shown its readers the image the write started from. */
    ghost predicate Steady()
      reads this, half1, half2, mem
    {
      && half1 != half2
      && ValidImage(base)
      && Shape(Img())
      && Trace(base, log, Img())
      && Quiet(base, Img(), calm)
      && forall j :: 0 <= j < |log| ==> Quiet(base, log[j], calm)
    }

    // ---------- single writes ----------

    method PutItem(i: nat, it: Item)
      requires Steady() && i < hdr.item.size && |it.slots| == hdr.maxVer
      modifies `log, half1, half2
      ensures Steady()
      ensures log == old(log) + [Img()]
      ensures Img() == old(Img()).WithHalf(hdr.item.SnapId(), old(Img()).Snap()[i := it])
    {
      hide Trace;
      if hdr.item.SnapId() == 1 {
        half1[i] := it;
      } else {
        half2[i] := it;
      }
      assert half1[..] == if hdr.item.SnapId() == 1 then old(half1[..])[i := it] else old(half1[..]);
      assert half2[..] == if hdr.item.SnapId() == 1 then old(half2[..]) else old(half2[..])[i := it];
      TraceNext(base, log, old(Img()), ItemWrite(hdr.item.SnapId(), i, it));
      log := log + [Img()];
    }

    method PutByte(a: nat, b: byte)
      requires Steady() && a < mem.Length && !Guarded(base, calm, a)
      modifies `log, mem
      ensures Steady()
      ensures log == old(log) + [Img()]
      ensures mem[..] == old(mem[..])[a := b]
    {
      hide Trace;
      mem[a] := b;
      assert mem[..] == old(mem[..])[a := b];
      TraceNext(base, log, old(Img()), ByteWrite(a, b));
      log := log + [Img()];
    }

    method PutKeySection(s: Section)
      requires Steady() && s.Valid() && s.SameHalves(hdr.key)
      modifies `hdr, `log
      ensures Steady()
      ensures log == old(log) + [Img()]
      ensures Img() == old(Img()).(hdr := old(hdr).(key := s))
    {
      hide Trace;
      hdr := hdr.(key := s);
      TraceNext(base, log, old(Img()), KeySectionWrite(s));
      log := log + [Img()];
    }

    method PutValueSection(s: Section)
      requires Steady() && s.Valid() && s.SameHalves(hdr.value)
      modifies `hdr, `log
      ensures Steady()
      ensures log == old(log) + [Img()]
      ensures Img() == old(Img()).(hdr := old(hdr).(value := s))
    {
      hide Trace;
      hdr := hdr.(value := s);
      TraceNext(base, log, old(Img()), ValueSectionWrite(s));
      log := log + [Img()];
    }

    method ItemAt(half: nat, i: nat) returns (it: Item)
      requires i < |Img().Half(half)|
      ensures it == Img().Half(half)[i]
    {
      if half == 1 {
        it := half1[i];
      } else {
        it := half2[i];
      }
    }

    // ---------- copies ----------

    ghost predicate Free(at: nat, n: nat)
      reads this
    {
      forall a :: at <= a < at + n ==> !Guarded(base, calm, a)
    }

    method CopyBytes(at: nat, from: nat, n: nat)
      requires Steady() && at + n <= mem.Length && from + n <= mem.Length
      requires from + n <= at || at + n <= from
      requires Free(at, n)
      modifies `log, mem
      ensures Steady()
      ensures mem[..] == Blit(old(mem[..]), at, Read(old(mem[..]), Extent(from, n)))
    {
      hide Steady, Blit;
      ghost var before := mem[..];
      ghost var s := Read(before, Extent(from, n));
      var i := 0;
      BlitNone(before, at, s);
      while i < n
        invariant 0 <= i <= n
        invariant Steady()
        invariant mem[..] == Blit(before, at, s[..i])
      {
        assert mem[from + i] == before[from + i] == s[i];
        PutByte(at + i, mem[from + i]);
        BlitNext(before, at, s, i);
        i := i + 1;
      }
      assert s[..n] == s;
    }

    /** Copies a caller's string and ends it with a NUL. */
    method WriteString(at: nat, s: Bytes)
      requires Steady() && at + |s| + 1 <= mem.Length
      requires Free(at, |s| + 1)
      modifies `log, mem
      ensures Steady()
      ensures mem[..] == Blit(old(mem[..]), at, Stored(s))
    {
      hide Steady, Blit;
      ghost var before := mem[..];
      ghost var all := Stored(s);
      var i := 0;
      BlitNone(before, at, all);
      while i < |s|
        invariant 0 <= i <= |s|
        invariant Steady()
        invariant mem[..] == Blit(before, at, all[..i])
      {
        assert all[i] == s[i];
        PutByte(at + i, s[i]);
        BlitNext(before, at, all, i);
        i := i + 1;
      }
      assert !Guarded(base, calm, at + |s|) && all[|s|] == 0;
      PutByte(at + |s|, 0);
      BlitNext(before, at, all, |s|);
      assert all[..|s| + 1] == all;
    }

    /** Starts a write and copies the active items to the snapshot half. */
    method MakeSnapshot()
      requires Valid()
      modifies `base, `calm, `log, half1, half2
      ensures Steady() && base == old(Img()) && calm
      ensures mem[..] == base.mem && hdr == base.hdr
      ensures Img().Snap() == base.Active()[..hdr.item.used] + base.Snap()[hdr.item.used..]
    {
      hide Sound, Ordered, Published, Terminated, HeapsTile, ItemsTile, View;
      base, calm, log := Img(), true, [];
      var i := 0;
      while i < hdr.item.used
        invariant 0 <= i <= hdr.item.used
        invariant Steady() && base == old(Img()) && calm
        invariant Img().Snap() == base.Active()[..i] + base.Snap()[i..]
      {
        var it := ItemAt(hdr.item.id, i);
        assert it == base.Active()[i];
        CopyNext(base.Active(), base.Snap(), Img().Snap(), i);
        PutItem(i, it);
        i := i + 1;
      }
    }

    // ---------- compaction ----------

    /** Moves the key of snapshot item `i` to address `at` of the other key half. */
    method MoveKey(i: nat, at: nat, ghost es: seq<Entry>, ghost mem0: Bytes, ghost snap0: seq<Item>)
      returns (end: nat)
      requires Steady() && hdr.key == base.hdr.key
      requires i < |es| == hdr.item.used && |mem0| == mem.Length && |snap0| == hdr.item.size
      requires Sound(hdr, mem0, snap0[..|es|]) && es == Entries(mem0, snap0[..|es|])
      requires KeysPacked(es, mem0, snap0, mem[..], Img().Snap(), i, hdr.key.SnapOffset(), hdr.key.size)
      requires at == hdr.key.SnapOffset() + KeySum(es[..i])
      modifies `log, half1, half2, mem
      ensures Steady()
      ensures KeysPacked(es, mem0, snap0, mem[..], Img().Snap(), i + 1, hdr.key.SnapOffset(), hdr.key.size)
      ensures end == hdr.key.SnapOffset() + KeySum(es[..i + 1])
    {
      hide ValidImage, Shape, Sound, Quiet, Trace, Blit, KeySum, EntryOf, Values, Entries, KeysPacked, InHeap, ItemOk, Read;
      ShapeBounds(Img());
      ghost var mem1, snap1 := mem[..], Img().Snap();
      ghost var p := hdr.key.SnapOffset();
      KeyTargetFree(base, calm);
      var it := ItemAt(hdr.item.SnapId(), i);
      NextKey(hdr, es, mem0, snap0, mem1, snap1, i);
      KeysPackedNext(es, mem0, snap0, mem1, snap1, i, p, hdr.key.size);
      CopyBytes(at, it.key.offset, it.key.len);
      PutItem(i, it.(key := Extent(at, it.key.len)));
      end := at + it.key.len;
    }

    /** Copies every snapshot item's key to the other key half, in index order, and
        selects that half if a key of this length fits behind them. */
    method KeyCompaction(key: Bytes) returns (ok: bool, address: nat)
      requires Steady() && hdr.key == base.hdr.key
      requires Sound(hdr, mem[..], Img().Snap()[..hdr.item.used])
      modifies `hdr, `log, half1, half2, mem
      ensures Steady()
      ensures var es := Entries(old(mem[..]), old(Img()).Snap()[..old(hdr).item.used]);
              var target := old(hdr).key.SnapOffset();
              && KeysPacked(es, old(mem[..]), old(Img()).Snap(), mem[..], Img().Snap(), |es|, target, old(hdr).key.size)
              && ok == (|key| + 1 + KeySum(es) <= old(hdr).key.size)
              && hdr == (if ok then AfterKeys(old(hdr), es) else old(hdr))
              && (ok ==> address == target + KeySum(es))
    {
      hide ValidImage, Sound, Quiet, Trace, KeySum, EntryOf, KeysPacked;
      ghost var mem0, snap0 := mem[..], Img().Snap();
      ghost var es := Entries(mem0, snap0[..hdr.item.used]);
      var p := hdr.key.SnapOffset();
      var end := p;
      var i := 0;
      SumsNone(es);
      KeysPackedNone(es, mem0, snap0, p, hdr.key.size);
      while i < hdr.item.used
        invariant 0 <= i <= hdr.item.used
        invariant Steady() && hdr == old(hdr)
        invariant KeysPacked(es, mem0, snap0, mem[..], Img().Snap(), i, p, hdr.key.size)
        invariant end == p + KeySum(es[..i])
      {
        end := MoveKey(i, end, es, mem0, snap0);
        i := i + 1;
      }
      assert es[..|es|] == es;
      ok, address := |key| + 1 + (end - p) <= hdr.key.size, end;
      if ok {
        PutKeySection(hdr.key.(id := hdr.key.SnapId(), used := end - p));
      }
    }

    /** Moves version `v + 1` of snapshot item `i` to address `to`, behind the older
        ones. */
    method MoveValue(i: nat, v: nat, to: nat, ghost mem0: Bytes, ghost it0: Item, ghost vals: seq<Bytes>, ghost at: nat)
      returns (end: nat)
      requires Steady() && hdr.value == base.hdr.value && !calm && |mem0| == mem.Length
      requires i < hdr.item.size && ItemOk(hdr, it0) && vals == Values(mem0, it0) && v < it0.count
      requires hdr.value.SnapOffset() <= at && at + ValuesLen(vals) <= hdr.value.SnapOffset() + hdr.value.size
      requires ItemMoved(mem0, it0, mem[..], Img().Snap()[i], vals, at, v + 1) && to == at + ValuesLen(vals[v + 1..])
      modifies `log, half1, half2, mem
      ensures Steady() && Img().Snap() == old(Img()).Snap()[i := Img().Snap()[i]]
      ensures ItemMoved(mem0, it0, mem[..], Img().Snap()[i], vals, at, v) && end == at + ValuesLen(vals[v..])
    {
      hide ValidImage, Sound, Quiet, Trace, Blit, ValuesLen, ItemMoved, Read;
      ValueTargetFree(base);
      var it := ItemAt(hdr.item.SnapId(), i);
      NextValue(hdr, mem0, it0, mem[..], it, vals, at, v);
      ItemMovedNext(mem0, it0, mem[..], it, vals, at, v);
      var j := |it.slots| - 1 - v;
      var slot := it.slots[j];
      CopyBytes(to, slot.offset, slot.len);
      PutItem(i, it.(slots := it.slots[j := Extent(to, slot.len)]));
      end := to + slot.len;
    }

    /** Moves the live values of snapshot item `i` to address `at` of the other
        value half, the oldest first. */
    method MoveValues(i: nat, at: nat, ghost vals: seq<Bytes>) returns (end: nat)
      requires Steady() && hdr.value == base.hdr.value && !calm
      requires i < hdr.item.size && ItemOk(hdr, Img().Snap()[i])
      requires vals == Values(mem[..], Img().Snap()[i])
      requires hdr.value.SnapOffset() <= at && at + ValuesLen(vals) <= hdr.value.SnapOffset() + hdr.value.size
      modifies `log, half1, half2, mem
      ensures Steady()
      ensures Img().Snap() == old(Img()).Snap()[i := Img().Snap()[i]]
      ensures ItemMoved(old(mem[..]), old(Img()).Snap()[i], mem[..], Img().Snap()[i], vals, at, 0)
      ensures end == at + ValuesLen(vals)
    {
      hide ValidImage, Sound, Quiet, Trace, ValuesLen, ItemMoved, Values, ItemOk;
      ghost var mem0, snap0, it0 := mem[..], Img().Snap(), Img().Snap()[i];
      var it := ItemAt(hdr.item.SnapId(), i);
      assert |vals| == it0.count <= |it0.slots| by { ItemSize(hdr, mem0, it0); }
      end := at;
      var v := it.count;
      ItemMovedNone(mem0, it0, vals, at);
      while v > 0
        invariant 0 <= v <= it0.count
        invariant Steady()
        invariant |Img().Snap()| == |snap0| && Img().Snap() == snap0[i := Img().Snap()[i]]
        invariant ItemMoved(mem0, it0, mem[..], Img().Snap()[i], vals, at, v)
        invariant end == at + ValuesLen(vals[v..])
      {
        v := v - 1;
        end := MoveValue(i, v, end, mem0, it0, vals, at);
      }
      assert vals[0..] == vals;
    }

    /** Moves the values of item `i` behind those of the items before it. */
    method MoveNextValues(i: nat, at: nat, ghost es: seq<Entry>, ghost mem0: Bytes, ghost snap0: seq<Item>)
      returns (end: nat)
      requires Steady() && hdr.value == base.hdr.value && !calm
      requires i < |es| == hdr.item.used && |mem0| == mem.Length && |snap0| == hdr.item.size
      requires Sound(hdr, mem0, snap0[..|es|]) && es == Entries(mem0, snap0[..|es|])
      requires ValuesPacked(es, mem0, snap0, mem[..], Img().Snap(), i, hdr.value.SnapOffset(), hdr.value.size)
      requires at == hdr.value.SnapOffset() + ValueSum(es[..i])
      modifies `log, half1, half2, mem
      ensures Steady()
      ensures ValuesPacked(es, mem0, snap0, mem[..], Img().Snap(), i + 1, hdr.value.SnapOffset(), hdr.value.size)
      ensures end == hdr.value.SnapOffset() + ValueSum(es[..i + 1])
    {
      hide ValidImage, Sound, Quiet, Trace, ValueSum, EntryOf, Entries, ValuesPacked, ItemMoved, ItemOk, Values, ValuesLen;
      ghost var mem1, snap1 := mem[..], Img().Snap();
      NextValues(hdr, es, mem0, snap0, mem1, snap1, i);
      end := MoveValues(i, at, es[i].values);
      ValuesPackedNext(es, mem0, snap0, mem1, snap1, mem[..], Img().Snap()[i], i, hdr.value.SnapOffset(), hdr.value.size);
    }

    /** From here on the other value half no longer keeps its bytes. */
    ghost method BeginPurge()
      requires Steady()
      modifies `calm, `purged
      ensures Steady() && !calm && purged == old(purged) + [hdr.value.SnapId()]
    {
      hide ValidImage, Shape;
      calm, purged := false, purged + [hdr.value.SnapId()];
    }

    /** Copies every live value of the snapshot items to the other value half and
        selects that half if a value of this length fits behind them. */
    method ValueCompaction(value: Bytes) returns (ok: bool, address: nat)
      requires Steady() && hdr.value == base.hdr.value
      requires Sound(hdr, mem[..], Img().Snap()[..hdr.item.used])
      modifies `hdr, `log, `calm, `purged, half1, half2, mem
      ensures Steady() && !calm && purged == old(purged) + [old(hdr).value.SnapId()]
      ensures var es := Entries(old(mem[..]), old(Img()).Snap()[..old(hdr).item.used]);
              var target := old(hdr).value.SnapOffset();
              && ValuesPacked(es, old(mem[..]), old(Img()).Snap(), mem[..], Img().Snap(), |es|, target, old(hdr).value.size)
              && ok == (|value| + 1 + ValueSum(es) <= old(hdr).value.size)
              && hdr == (if ok then AfterValues(old(hdr), es) else old(hdr))
              && (ok ==> address == target + ValueSum(es))
    {
      hide ValidImage, Sound, Quiet, Trace, ValueSum, EntryOf, ValuesPacked, ItemMoved;
      BeginPurge();
      ghost var mem0, snap0 := mem[..], Img().Snap();
      ghost var es := Entries(mem0, snap0[..hdr.item.used]);
      var p := hdr.value.SnapOffset();
      var end := p;
      var i := 0;
      SumsNone(es);
      ValuesPackedNone(es, mem0, snap0, p, hdr.value.size);
      while i < hdr.item.used
        invariant 0 <= i <= hdr.item.used
        invariant Steady() && !calm && hdr == old(hdr) && purged == old(purged) + [hdr.value.SnapId()]
        invariant ValuesPacked(es, mem0, snap0, mem[..], Img().Snap(), i, p, hdr.value.size)
        invariant end == p + ValueSum(es[..i])
      {
        end := MoveNextValues(i, end, es, mem0, snap0);
        i := i + 1;
      }
      assert es[..|es|] == es;
      ok, address := |value| + 1 + (end - p) <= hdr.value.size, end;
      if ok {
        PutValueSection(hdr.value.(id := hdr.value.SnapId(), used := end - p));
      }
    }

    // ---------- appending ----------

    /** Writes a key behind the used bytes of the key heap. */
    method AppendKey(key: Bytes, p: nat) returns (e: Extent)
      requires Steady() && p == hdr.key.Offset() + hdr.key.used && Free(p, |key| + 1)
      requires hdr.key.used + |key| + 1 <= hdr.key.size
      requires Sound(hdr, mem[..], Img().Snap()[..hdr.item.used])
      modifies `hdr, `log, mem
      ensures Steady()
      ensures hdr == old(hdr).(key := old(hdr).key.(used := old(hdr).key.used + |key| + 1))
      ensures Entries(mem[..], Img().Snap()[..hdr.item.used]) == Entries(old(mem[..]), Img().Snap()[..hdr.item.used])
      ensures Sound(hdr, mem[..], Img().Snap()[..hdr.item.used])
      ensures InHeap(hdr.key, e) && e.len == |key| + 1 && Read(mem[..], e) == Stored(key)
    {
      hide ValidImage, Sound, Quiet, Trace, Entries, Blit, InHeap, Read;
      ghost var mem1, h1, items := mem[..], hdr, Img().Snap()[..hdr.item.used];
      e := Extent(p, |key| + 1);
      WriteString(p, key);
      AppendFrame(hdr, mem1, p, Stored(key));
      SoundFrame(hdr, mem1, mem[..], items);
      PutKeySection(hdr.key.(used := hdr.key.used + e.len));
      SoundGrow(h1, hdr, mem[..], items);
      AppendedIn(h1.key, hdr.key, e);
    }

    /** Appends a key to the key heap, compacting first if it does not fit behind
        the used bytes. */
    method StoreKey(key: Bytes) returns (ok: bool, e: Extent)
      requires Steady() && hdr.key == base.hdr.key
      requires Sound(hdr, mem[..], Img().Snap()[..hdr.item.used])
      modifies `hdr, `log, half1, half2, mem
      ensures Steady()
      ensures hdr == old(hdr).(key := hdr.key) && hdr.key.SameHalves(old(hdr).key)
      ensures var n, k := hdr.item.used, Stored(key);
              var es := Entries(old(mem[..]), old(Img()).Snap()[..n]);
              && ok == (KeySum(es) + |k| <= old(hdr).key.size)
              && (ok ==>
                    && Entries(mem[..], Img().Snap()[..n]) == es
                    && Sound(hdr, mem[..], Img().Snap()[..n])
                    && KeySum(es) + |k| <= hdr.key.used
                    && InHeap(hdr.key, e) && e.len == |k| && Read(mem[..], e) == k)
              && hdr.key == (if old(hdr).key.used + |k| <= old(hdr).key.size
                             then old(hdr).key.(used := old(hdr).key.used + |k|)
                             else if ok then old(hdr).key.(id := old(hdr).key.SnapId(), used := KeySum(es) + |k|)
                             else old(hdr).key)
    {
      hide ValidImage, Sound, Quiet, Trace, KeySum, Entries, KeysPacked, Blit, InHeap, Read;
      var p: nat;
      ghost var mem0, snap0, n := mem[..], Img().Snap(), hdr.item.used;
      ghost var es := Entries(mem0, snap0[..n]);
      assert |es| == n && KeySum(es) <= hdr.key.used by { SoundSums(hdr, mem0, snap0[..n]); }
      if hdr.key.used + (|key| + 1) > hdr.key.size {
        ok, p := KeyCompaction(key);
        if !ok {
          return false, Extent(0, 0);
        }
        KeysPackedMeaning(old(hdr), es, mem0, snap0, mem[..], Img().Snap());
        KeyTargetFree(base, calm);
      } else {
        ok, p := true, hdr.key.Offset() + hdr.key.used;
        TailFree(base, calm, hdr.key, |key| + 1);
      }
      e := AppendKey(key, p);
    }

    /** Writes a value behind the used bytes of the value heap. */
    method AppendValue(value: Bytes, p: nat) returns (e: Extent)
      requires Steady() && p == hdr.value.Offset() + hdr.value.used && Free(p, |value| + 1)
      requires hdr.value.used + |value| + 1 <= hdr.value.size
      requires Sound(hdr, mem[..], Img().Snap()[..hdr.item.used])
      modifies `hdr, `log, mem
      ensures Steady()
      ensures hdr == old(hdr).(value := old(hdr).value.(used := old(hdr).value.used + |value| + 1))
      ensures forall a :: 0 <= a < mem.Length && hdr.key.InUse(a) ==> mem[a] == old(mem[a])
      ensures Entries(mem[..], Img().Snap()[..hdr.item.used]) == Entries(old(mem[..]), Img().Snap()[..hdr.item.used])
      ensures Sound(hdr, mem[..], Img().Snap()[..hdr.item.used])
      ensures InHeap(hdr.value, e) && e.len == |value| + 1 && Read(mem[..], e) == Stored(value)
    {
      hide ValidImage, Sound, Quiet, Trace, Entries, Blit, InHeap, Read;
      ghost var mem1, h1, items := mem[..], hdr, Img().Snap()[..hdr.item.used];
      e := Extent(p, |value| + 1);
      WriteString(p, value);
      AppendFrame(hdr, mem1, p, Stored(value));
      SoundFrame(hdr, mem1, mem[..], items);
      PutValueSection(hdr.value.(used := hdr.value.used + e.len));
      SoundGrow(h1, hdr, mem[..], items);
      AppendedIn(h1.value, hdr.value, e);
    }

    /** Appends a value to the value heap, compacting first if it does not fit
        behind the used bytes. */
    method StoreValue(value: Bytes) returns (ok: bool, e: Extent)
      requires Steady() && hdr.value == base.hdr.value && calm
      requires Sound(hdr, mem[..], Img().Snap()[..hdr.item.used])
      modifies `hdr, `log, `calm, `purged, half1, half2, mem
      ensures Steady()
      ensures hdr == old(hdr).(value := hdr.value)
      ensures var n, v := hdr.item.used, Stored(value);
              var es := Entries(old(mem[..]), old(Img()).Snap()[..n]);
              && ok == (ValueSum(es) + |v| <= old(hdr).value.size)
              && (ok ==>
                    && Entries(mem[..], Img().Snap()[..n]) == es
                    && Img().Snap()[n..] == old(Img()).Snap()[n..]
                    && Sound(hdr, mem[..], Img().Snap()[..n])
                    && ValueSum(es) + |v| <= hdr.value.used
                    && InHeap(hdr.value, e) && e.len == |v| && Read(mem[..], e) == v)
              && calm == (old(hdr).value.used + |v| <= old(hdr).value.size) && (calm ==> ok)
              && hdr.value == (if calm then old(hdr).value.(used := old(hdr).value.used + |v|)
                               else if ok then old(hdr).value.(id := old(hdr).value.SnapId(), used := ValueSum(es) + |v|)
                               else old(hdr).value)
      ensures forall a :: 0 <= a < mem.Length && hdr.key.InUse(a) ==> mem[a] == old(mem[a])
      ensures purged == if calm then old(purged) else old(purged) + [old(hdr).value.SnapId()]
    {
      hide ValidImage, Sound, Quiet, Trace, ValueSum, Entries, ValuesPacked, Blit, InHeap, Read;
      var p: nat;
      ghost var mem0, snap0, n := mem[..], Img().Snap(), hdr.item.used;
      ghost var es := Entries(mem0, snap0[..n]);
      assert |es| == n && ValueSum(es) <= hdr.value.used by { SoundSums(hdr, mem0, snap0[..n]); }
      if hdr.value.used + (|value| + 1) > hdr.value.size {
        ok, p := ValueCompaction(value);
        ValuesPackedRest(es, mem0, snap0, mem[..], Img().Snap(), old(hdr), mem.Length);
        if !ok {
          return false, Extent(0, 0);
        }
        ValuesPackedMeaning(old(hdr), es, mem0, snap0, mem[..], Img().Snap());
        ValueTargetFree(base);
      } else {
        ok, p := true, hdr.value.Offset() + hdr.value.used;
        TailFree(base, calm, hdr.value, |value| + 1);
      }
      e := AppendValue(value, p);
    }

    // ---------- editing the snapshot ----------

    /** memmove inside one item: slots `from + 1 .. from + n` go one slot left. */
    method ShiftSlots(i: nat, from: nat, n: nat)
      requires Steady() && i < hdr.item.size && from + n < hdr.maxVer
      requires |Img().Snap()[i].slots| == hdr.maxVer
      modifies `log, half1, half2
      ensures Steady()
      ensures Img().Snap() == old(Img()).Snap()[i := Img().Snap()[i]]
      ensures SlotsShifted(old(Img()).Snap()[i], Img().Snap()[i], from, n)
    {
      hide ValidImage, Quiet, Trace, SlotsShifted;
      ghost var snap0, it0 := Img().Snap(), Img().Snap()[i];
      var it := ItemAt(hdr.item.SnapId(), i);
      var k := 0;
      SlotsShiftedNone(it, from);
      while k < n
        invariant 0 <= k <= n
        invariant Steady()
        invariant |Img().Snap()| == |snap0| && it == Img().Snap()[i] && Img().Snap() == snap0[i := it]
        invariant |it.slots| == hdr.maxVer && SlotsShifted(it0, it, from, k)
      {
        SlotsShiftedNext(it0, it, from, k);
        it := it.(slots := it.slots[from + k := it.slots[from + k + 1]]);
        PutItem(i, it);
        k := k + 1;
      }
    }

    /** Makes `e` the newest value of snapshot item `i`. */
    method PushVersion(i: nat, e: Extent)
      requires Steady() && i < hdr.item.size
      requires |Img().Snap()[i].slots| == hdr.maxVer && 1 <= Img().Snap()[i].count <= hdr.maxVer
      modifies `log, half1, half2
      ensures Steady()
      ensures Img().Snap() == old(Img()).Snap()[i := Img().Snap()[i]]
      ensures Pushed(old(Img()).Snap()[i], Img().Snap()[i], e, hdr.maxVer)
    {
      hide ValidImage, Quiet, Trace, Shape, Pushed, SlotsShifted;
      ShapeBounds(Img());
      var it := ItemAt(hdr.item.SnapId(), i);
      ghost var it0 := it;
      var count := it.count;
      var j := 0;
      if hdr.maxVer == 1 {
        SlotsShiftedNone(it0, 0);
      } else if count >= hdr.maxVer {
        // evict the oldest value
        ShiftSlots(i, 0, count - 1);
        it := ItemAt(hdr.item.SnapId(), i);
        j := count - 1;
      } else {
        ShiftSlots(i, hdr.maxVer - count - 1, count);
        it := ItemAt(hdr.item.SnapId(), i);
        j := hdr.maxVer - 1;
      }
      SlotsShiftedLen(it0, it, if count < hdr.maxVer then hdr.maxVer - count - 1 else 0,
                      if count < hdr.maxVer then count else count - 1);
      ShiftedPushed(it0, it, e, hdr.maxVer);
      if count < hdr.maxVer {
        it := it.(count := count + 1);
        PutItem(i, it);
      }
      it := it.(slots := it.slots[j := e]);
      PutItem(i, it);
    }

    /** Gives snapshot item `i` a key. */
    method NameItem(i: nat, e: Extent)
      requires Steady() && i < hdr.item.size
      modifies `log, half1, half2
      ensures Steady()
      ensures |Img().Snap()| == hdr.item.size == |old(Img()).Snap()|
      ensures Img().Snap() == old(Img()).Snap()[i := old(Img()).Snap()[i].(key := e)]
    {
      hide ValidImage, Quiet, Trace;
      var it := ItemAt(hdr.item.SnapId(), i);
      PutItem(i, it.(key := e));
    }

    /** Gives snapshot item `i` its first value. */
    method FillItem(i: nat, e: Extent)
      requires Steady() && i < hdr.item.size
      modifies `log, half1, half2
      ensures Steady()
      ensures |Img().Snap()| == hdr.item.size == |old(Img()).Snap()|
      ensures Img().Snap() == old(Img()).Snap()[i := Img().Snap()[i]]
      ensures var it := Img().Snap()[i];
              && it.key == old(Img()).Snap()[i].key && it.count == 1
              && |it.slots| == hdr.maxVer >= 1 && it.Version(0) == e
    {
      hide ValidImage, Quiet, Trace;
      var it := ItemAt(hdr.item.SnapId(), i);
      it := it.(slots := it.slots[hdr.maxVer - 1 := e]);
      PutItem(i, it);
      it := it.(count := 1);
      PutItem(i, it);
    }

    /** The snapshot is a copy of the active items, and nothing else has changed. */
    ghost predicate Snapshotted()
      reads this, half1, half2, mem
    {
      && Steady() && calm && hdr == base.hdr && mem[..] == base.mem
      && Img().Snap()[..hdr.item.used] == base.Active()[..hdr.item.used]
    }

    lemma SnapshottedFacts()
      requires Snapshotted()
      ensures Shape(Img()) && Distinct(Published(base)) && Ordered(Published(base))
      ensures |Img().Snap()| == hdr.item.size && |Published(base)| == hdr.item.used <= hdr.item.size
      ensures Entries(mem[..], Img().Snap()[..hdr.item.used]) == Published(base)
      ensures Sound(hdr, mem[..], Img().Snap()[..hdr.item.used])
      ensures ValueSum(Published(base)) <= hdr.value.used && KeySum(Published(base)) <= hdr.key.used
    {
      hide Sound, Ordered, Quiet, Trace, ValueSum, KeySum;
      OrderedDistinct(Published(base));
      SoundSums(hdr, mem[..], Img().Snap()[..hdr.item.used]);
    }

    /** Selects the key half again that was active before a key compaction; without
        one the key stays stored. */
    method TakeBackKey(saved: Section)
      requires Steady() && saved.Valid() && saved.SameHalves(hdr.key)
      requires hdr.key.id == saved.id ==> saved.used <= hdr.key.used
      modifies `hdr, `log
      ensures Steady() && hdr == old(hdr).(key := hdr.key)
      ensures hdr.key == if old(hdr).key.id == saved.id then old(hdr).key else saved
    {
      hide ValidImage, Quiet, Trace;
      if hdr.key.id != saved.id {
        PutKeySection(saved);
      }
    }

    /** Gives the named item behind the snapshot items its value. */
    method ValueAdd(value: Bytes, ghost es: seq<Entry>, ghost k: Bytes) returns (ok: bool)
      requires Steady() && hdr.value == base.hdr.value && calm && hdr.item.used < hdr.item.size
      requires Sound(hdr, mem[..], Img().Snap()[..hdr.item.used])
      requires Entries(mem[..], Img().Snap()[..hdr.item.used]) == es
      requires KeySum(es) + |k| <= hdr.key.used
      requires var e := Img().Snap()[hdr.item.used].key; InHeap(hdr.key, e) && Read(mem[..], e) == k
      modifies `hdr, `log, `calm, `purged, half1, half2, mem
      ensures Steady() && hdr == old(hdr).(value := hdr.value)
      ensures ok == (ValueSum(es) + |Stored(value)| <= old(hdr).value.size)
      ensures calm == (old(hdr).value.used + |Stored(value)| <= old(hdr).value.size)
      ensures hdr.value == ValueAfter(old(hdr).value, ValueSum(es), |value| + 1, calm, ok)
      ensures purged == if calm then old(purged) else old(purged) + [old(hdr).value.SnapId()]
      ensures ok ==>
                && Entries(mem[..], Img().Snap()[..hdr.item.used + 1]) == es + [Entry(k, [Stored(value)])]
                && Sound(hdr, mem[..], Img().Snap()[..hdr.item.used + 1])
    {
      hide ValidImage, Sound, Quiet, Trace, KeySum, ValueSum, Entries, InHeap, Read;
      ghost var mem1, snap1, n := mem[..], Img().Snap(), hdr.item.used;
      ghost var keyAt := snap1[n].key;
      var valueAt: Extent;
      ok, valueAt := StoreValue(value);
      if !ok {
        return;
      }
      assert Img().Snap()[n].key == keyAt by { assert Img().Snap()[n..][0] == snap1[n..][0]; }
      ghost var items := Img().Snap()[..n];
      FillItem(hdr.item.used, valueAt);
      KeyStands(hdr.key, mem1, mem[..], keyAt);
      NewItem(hdr, mem[..], items, Img().Snap()[n], k, Stored(value));
      assert Img().Snap()[..n + 1] == items + [Img().Snap()[n]];
    }

    /** Adds an item for a new key behind the snapshot items. */
    method ItemAdd(key: Bytes, value: Bytes) returns (code: Code)
      requires Snapshotted()
      modifies `hdr, `log, `calm, `purged, half1, half2, mem
      ensures Steady() && hdr.item == base.hdr.item
      ensures var n, es, k, v := hdr.item.used, Published(base), Stored(key), Stored(value);
              && code == (if n < hdr.item.size && KeySum(es) + |k| <= hdr.key.size && ValueSum(es) + |v| <= hdr.value.size
                          then Code.Ok else Overflow)
              && (code == Code.Ok ==>
                    && n < hdr.item.size
                    && Entries(mem[..], Img().Snap()[..n + 1]) == es + [Entry(k, [v])]
                    && Sound(hdr, mem[..], Img().Snap()[..n + 1]))
      ensures var es := Published(base);
              calm == !(&& hdr.item.used < hdr.item.size && KeySum(es) + |Stored(key)| <= hdr.key.size
                        && base.hdr.value.used + |Stored(value)| > base.hdr.value.size)
      ensures hdr.key == if hdr.item.used == hdr.item.size then base.hdr.key
                         else KeyAfter(base.hdr.key, KeySum(Published(base)), |key| + 1, code == Code.Ok)
      ensures hdr.value == ValueAfter(base.hdr.value, ValueSum(Published(base)), |value| + 1, calm, code == Code.Ok)
      ensures purged == if calm then old(purged) else old(purged) + [base.hdr.value.SnapId()]
    {
      hide ValidImage, Sound, Quiet, Trace, KeySum, ValueSum, Entries, Published, Ordered, Distinct, InHeap, Read;
      SnapshottedFacts();
      ghost var es, n := Published(base), hdr.item.used;
      if hdr.item.used == hdr.item.size {
        return Overflow;
      }
      var saved := hdr.key;
      var fits, keyAt := StoreKey(key);
      if !fits {
        return Overflow;
      }
      ghost var items := Img().Snap()[..n];
      NameItem(hdr.item.used, keyAt);
      assert Img().Snap()[..n] == items;
      fits := ValueAdd(value, es, Stored(key));
      if !fits {
        TakeBackKey(saved);
        return Overflow;
      }
      code := Code.Ok;
    }

    /** Gives snapshot item `i` a new value. */
    method ItemReplace(i: nat, value: Bytes) returns (code: Code)
      requires Snapshotted() && i < hdr.item.used
      modifies `hdr, `log, `calm, `purged, half1, half2, mem
      ensures Steady() && hdr == base.hdr.(value := hdr.value)
      ensures var n, es, v := hdr.item.used, Published(base), Stored(value);
              && |es| == n
              && code == (if ValueSum(es) + |v| <= hdr.value.size then Code.Ok else Overflow)
              && (code == Code.Ok ==>
                    && Entries(mem[..], Img().Snap()[..n])
                       == es[i := Entry(es[i].key, Newest(hdr.maxVer, v, es[i].values))]
                    && Sound(hdr, mem[..], Img().Snap()[..n]))
      ensures calm == (base.hdr.value.used + |Stored(value)| <= base.hdr.value.size)
      ensures hdr.value == ValueAfter(base.hdr.value, ValueSum(Published(base)), |value| + 1, calm, code == Code.Ok)
      ensures purged == if calm then old(purged) else old(purged) + [base.hdr.value.SnapId()]
    {
      hide ValidImage, Quiet, Trace, KeySum, ValueSum, Entries, Published, Ordered, Distinct, InHeap, Read;
      SnapshottedFacts();
      ghost var es, n := Published(base), hdr.item.used;
      ghost var h0 := hdr;
      var fits, e := StoreValue(value);
      if !fits {
        return Overflow;
      }
      ghost var items := Img().Snap()[..n];
      assert ItemOk(hdr, items[i]);
      PushVersion(i, e);
      assert Img().Snap()[..n] == items[i := Img().Snap()[i]];
      PushedSound(hdr, hdr, mem[..], items, i, Img().Snap()[i], e);
      code := Code.Ok;
    }

    // ---------- searching and sorting ----------

    /** Binary search of item half `half` for a caller's key. */
    method Bsearch(half: nat, key: Bytes) returns (idx: int)
      requires (half == 1 || half == 2) && hdr.item.used <= |Img().Half(half)|
      requires KeysInside(mem[..], Img().Half(half)[..hdr.item.used]) && |key| < INT32_MAX
      ensures var es := Through(Img(), half, hdr.item.used);
              && idx == Find(es, Stored(key), 0, |es|)
              && (Ordered(es) ==> if idx < 0 then Lacks(es, Stored(key)) else Holds(es, Stored(key), idx))
    {
      hide Less, ItemCompare, EntryOf, Ordered, Find, Lacks, Holds;
      ghost var es := Through(Img(), half, hdr.item.used);
      var probe := External(Stored(key));
      var low, high := 0, hdr.item.used;
      FindOrdered(es, Stored(key));
      while low < high
        invariant 0 <= low <= high <= hdr.item.used
        invariant Find(es, Stored(key), low, high) == Find(es, Stored(key), 0, |es|)
      {
        var mid := (low + high) / 2;
        var it := ItemAt(half, mid);
        assert it == Img().Half(half)[..hdr.item.used][mid];
        assert es[mid].key == Read(mem[..], it.key) by { EntryKey(mem[..], it); }
        ItemCompareIsOrder(mem[..], probe, it);
        LessTrichotomy(es[mid].key, Stored(key));
        FindStep(es, Stored(key), low, high);
        var ret := ItemCompare(mem[..], probe, it);
        if ret == 0 {
          return mid;
        } else if ret > 0 {
          low := mid + 1;
        } else {
          high := mid;
        }
      }
      FindNone(es, Stored(key), low);
      idx := -1;
    }

    lemma SteadyShape()
      requires Steady()
      ensures |Img().Snap()| == hdr.item.size
    {
      hide ValidImage, Quiet, Trace;
    }

    /** Copies snapshot item `from` over snapshot item `to`. */
    method MoveItem(to: nat, from: nat)
      requires Steady() && from < hdr.item.size && to < hdr.item.size
      modifies `log, half1, half2
      ensures Steady()
      ensures |Img().Snap()| == |old(Img()).Snap()| == hdr.item.size
      ensures Img().Snap() == old(Img()).Snap()[to := old(Img()).Snap()[from]]
    {
      hide ValidImage, Quiet, Trace;
      var it := ItemAt(hdr.item.SnapId(), from);
      PutItem(to, it);
    }

    /** memmove over items: items `from .. to - 1` go one place up. */
    method MoveUp(from: nat, to: nat)
      requires Steady() && from <= to < hdr.item.size
      modifies `log, half1, half2
      ensures Steady()
      ensures MovedUp(old(Img()).Snap(), Img().Snap(), from, to)
    {
      hide ValidImage, Quiet, Trace, Shape, MovedUp;
      SteadyShape();
      ghost var snap0 := Img().Snap();
      var k := to;
      MoveStart(snap0, to);
      while k > from
        invariant from <= k <= to
        invariant Steady() && MovedUp(snap0, Img().Snap(), k, to)
      {
        MovedUpNext(snap0, Img().Snap(), k, to);
        MoveItem(k, k - 1);
        k := k - 1;
      }
    }

    /** memmove over items: items `from + 1 .. to` go one place down. */
    method MoveDown(from: nat, to: nat)
      requires Steady() && from <= to < hdr.item.size
      modifies `log, half1, half2
      ensures Steady()
      ensures MovedDown(old(Img()).Snap(), Img().Snap(), from, to)
    {
      hide ValidImage, Quiet, Trace, Shape, MovedDown;
      SteadyShape();
      ghost var snap0 := Img().Snap();
      var k := from;
      MoveStart(snap0, from);
      while k < to
        invariant from <= k <= to
        invariant Steady() && MovedDown(snap0, Img().Snap(), from, k)
      {
        MovedDownNext(snap0, Img().Snap(), from, k);
        MoveItem(k, k + 1);
        k := k + 1;
      }
    }

    /** Binary insertion: moves the last of the first `n` snapshot items to its
        place among the others. */
    method Sort(n: nat) returns (ghost pos: nat)
      requires Steady() && 1 <= n <= hdr.item.size
      requires KeysInside(mem[..], Img().Snap()[..n])
      requires Ordered(Entries(mem[..], Img().Snap()[..n - 1]))
      requires Lacks(Entries(mem[..], Img().Snap()[..n - 1]), Read(mem[..], Img().Snap()[n - 1].key))
      modifies `log, half1, half2
      ensures Steady() && pos < n
      ensures Img().Snap()[..n] == InsertAt(old(Img()).Snap()[..n - 1], pos, old(Img()).Snap()[n - 1])
      ensures Ordered(Entries(mem[..], Img().Snap()[..n]))
    {
      hide ValidImage, Quiet, Trace, Ordered, Less, EntryOf, InsertPosition, Splits, Read, InsertAt;
      ghost var snap0 := Img().Snap();
      var count := n - 1;
      var last := ItemAt(hdr.item.SnapId(), count);
      assert snap0[..n][..count] == snap0[..count] && snap0[..n][count] == last;
      InsertionPlace(mem[..], snap0[..n], count);
      var place := InsertPosition(mem[..], if hdr.item.SnapId() == 1 then half1[..n] else half2[..n], last, 0, count);
      pos := place;
      if place < count {
        MoveUp(place, count);
        ghost var snap1 := Img().Snap();
        PutItem(place, last);
        UpInserted(snap0, snap1, place, count);
      } else {
        UpStays(snap0, count);
      }
    }

    /** Puts the item added behind the index in its place. */
    method SortNew(ghost es: seq<Entry>, ghost k: Bytes, ghost v: Bytes) returns (ghost pos: nat)
      requires Steady() && hdr.item.used < hdr.item.size && |es| == hdr.item.used
      requires Entries(mem[..], Img().Snap()[..hdr.item.used + 1]) == es + [Entry(k, [v])]
      requires Sound(hdr, mem[..], Img().Snap()[..hdr.item.used + 1])
      requires Ordered(es) && Lacks(es, k)
      modifies `log, half1, half2
      ensures Steady() && pos <= |es|
      ensures Entries(mem[..], Img().Snap()[..hdr.item.used + 1]) == InsertAt(es, pos, Entry(k, [v]))
      ensures Ordered(InsertAt(es, pos, Entry(k, [v])))
      ensures Sound(hdr, mem[..], Img().Snap()[..hdr.item.used + 1])
    {
      hide ValidImage, Quiet, Trace, Sound, Ordered, Entries, InsertAt, KeysInside, Read;
      ghost var n, items := hdr.item.used, Img().Snap()[..hdr.item.used + 1];
      assert items[..n] == Img().Snap()[..n];
      SoundInside(hdr, mem[..], items);
      EntriesLast(mem[..], items, es, Entry(k, [v]));
      pos := Sort(hdr.item.used + 1);
      EntriesInsert(mem[..], items[..n], pos, items[n]);
      InsertSound(hdr, mem[..], items, pos);
    }

    lemma SnapshotSearchable()
      requires Snapshotted()
      ensures hdr.item.used <= |Img().Snap()| && KeysInside(mem[..], Img().Snap()[..hdr.item.used])
      ensures Through(Img(), hdr.item.SnapId(), hdr.item.used) == Published(base)
    {
      hide Sound, Ordered, Quiet, Trace, Entries, KeysInside;
      SnapshottedFacts();
      SoundInside(hdr, mem[..], Img().Snap()[..hdr.item.used]);
    }

    /** A write that gives up before publishing. */
    lemma Abandon()
      requires Steady()
      requires hdr.key.id == base.hdr.key.id && base.hdr.key.used <= hdr.key.used && hdr.value == base.hdr.value
      ensures Formed() && Contents() == View(base)
      ensures WriteSteps(base, log, Img(), calm, false)
    {
      hide Sound, Ordered, Published;
      AbandonedValid(base, Img(), calm);
    }

    /** Makes the first `used` snapshot items the active ones.  The count and the
        half change in one step. */
    method Publish(used: nat)
      requires Steady() && used <= hdr.item.size
      requires Sound(hdr, mem[..], Img().Snap()[..used]) && Ordered(Entries(mem[..], Img().Snap()[..used]))
      modifies `hdr, `log
      ensures Formed()
      ensures hdr == old(hdr).(item := old(hdr).item.(id := old(hdr).item.SnapId(), used := used))
      ensures Published(Img()) == Entries(mem[..], old(Img()).Snap()[..used])
      ensures WriteSteps(base, log, Img(), calm, true) && Kept(base, Img(), calm)
      ensures Capacities(hdr) == Capacities(old(hdr))
    {
      hide Sound, Ordered, Entries;
      SoundGrow(hdr, hdr.(item := hdr.item.(id := hdr.item.SnapId(), used := used)), mem[..], Img().Snap()[..used]);
      hdr := hdr.(item := hdr.item.(id := hdr.item.SnapId(), used := used));
      TraceNext(base, log, old(Img()), ItemSectionWrite(hdr.item));
      log := log + [Img()];
      assert Kept(base, Img(), calm);
    }

    // ---------- operations ----------

    /** The map this store holds. */
    ghost function Contents(): Dict
      requires Formed()
      reads this, half1, half2, mem
    {
      View(Img())
    }

    /** What every write promises besides its effect on the map: the geometry
        stands; readers see the old image at every step and the new one only from
        the last; and the value halves change as the purges say. */
    ghost predicate Written(base: Image, before: seq<nat>, done: bool)
      reads this, half1, half2, mem
    {
      && Capacities(hdr) == Capacities(base.hdr)
      && WriteSteps(base, log, Img(), calm, done)
      && Kept(base, Img(), calm)
      && purged == (if calm then before else before + [base.hdr.value.SnapId()])
      && (hdr.value.id == base.hdr.value.id ==> base.hdr.value.used <= hdr.value.used)
      && (calm ==> hdr.value.id == base.hdr.value.id)
    }

    lemma AddHeaps(es: seq<Entry>, key: Bytes, value: Bytes, code: Code)
      requires Distinct(es) && Lacks(es, Stored(key)) && |es| == hdr.item.used <= hdr.item.size && hdr.item == base.hdr.item
      requires Capacities(hdr) == Capacities(base.hdr)
      requires code == Code.Ok <==> && |es| < hdr.item.size && KeySum(es) + |Stored(key)| <= hdr.key.size
                                    && ValueSum(es) + |Stored(value)| <= hdr.value.size
      requires calm == !(&& |es| < hdr.item.size && KeySum(es) + |Stored(key)| <= hdr.key.size
                         && base.hdr.value.used + |Stored(value)| > base.hdr.value.size)
      requires KeySum(es) <= base.hdr.key.used && ValueSum(es) <= base.hdr.value.used
      requires hdr.key == if |es| == hdr.item.size then base.hdr.key
                          else KeyAfter(base.hdr.key, KeySum(es), |key| + 1, code == Code.Ok)
      requires hdr.value == ValueAfter(base.hdr.value, ValueSum(es), |value| + 1, calm, code == Code.Ok)
      ensures HeapsDone(base.hdr, MapOf(es), Op.Set(key, value), KeyHeapOf(hdr), HeapOf(hdr), calm)
    {
      hide MapOf, KeySum, ValueSum, HeapStep, KeyHeapStep, Distinct, Lacks;
      HeapsAre(Capacities(base.hdr), es, -1, Op.Set(key, value), KeyHeapOf(base.hdr), HeapOf(base.hdr));
    }

    /** The effect of a set on what `base` held. */
    ghost predicate SetDone(before: seq<nat>, code: Code, key: Bytes, value: Bytes)
      requires ValidImage(base)
      reads this, half1, half2, mem
    {
      && Formed() && Written(base, before, code == Code.Ok)
      && var c, m, k, v := Capacities(base.hdr), View(base), Stored(key), Stored(value);
         && HeapsDone(base.hdr, m, Op.Set(key, value), KeyHeapOf(hdr), HeapOf(hdr), calm)
         && if Fits(c, m, k, v)
            then code == Code.Ok && Contents() == m[k := Newest(c.maxVer, v, Versions(m, k))]
            else code == Overflow && Contents() == m
    }

    method SetNew(key: Bytes, value: Bytes) returns (code: Code)
      requires Snapshotted() && Lacks(Published(base), Stored(key))
      modifies this, half1, half2, mem
      ensures ValidImage(base) && base == old(base) && SetDone(old(purged), code, key, value)
    {
      hide ValidImage, Sound, Quiet, Trace, Ordered, Distinct, Entries, Published, MapOf, KeySum, ValueSum, Fits,
           InsertAt, KeyFits, HeapsDone, Newest, Lacks, Kept, WriteSteps, Shape, Less, Versions;
      SnapshottedFacts();
      ShapeBounds(Img());
      ghost var es, c, k, v := Published(base), Capacities(hdr), Stored(key), Stored(value);
      FitsIs(c, es, -1, k, v);
      code := ItemAdd(key, value);
      SteadyKept();
      AddHeaps(es, key, value, code);
      if code != Code.Ok {
        Abandon();
        return;
      }
      ghost var pos := SortNew(es, k, v);
      OrderedDistinct(InsertAt(es, pos, Entry(k, [v])));
      InsertIsPut(c, es, pos, k, v);
      SteadyKept();
      Publish(hdr.item.used + 1);
    }

    method SetOld(i: nat, key: Bytes, value: Bytes) returns (code: Code)
      requires Snapshotted() && Holds(Published(base), Stored(key), i)
      modifies this, half1, half2, mem
      ensures ValidImage(base) && base == old(base) && SetDone(old(purged), code, key, value)
    {
      hide ValidImage, Sound, Quiet, Trace, Ordered, Distinct, Entries, Published, MapOf, KeySum, ValueSum, Fits, KeyFits,
           HeapStep, KeyHeapStep, Newest, Kept, WriteSteps, Shape, Less;
      SnapshottedFacts();
      ghost var es, c, k, v := Published(base), Capacities(hdr), Stored(key), Stored(value);
      FitsIs(c, es, i, k, v);
      HeapsAre(c, es, i, Op.Set(key, value), KeyHeapOf(hdr), HeapOf(hdr));
      code := ItemReplace(i, value);
      SteadyKept();
      if code != Code.Ok {
        Abandon();
        return;
      }
      UpdateIsPut(c, es, i, k, v);
      Publish(hdr.item.used);
    }

    lemma SteadyKept()
      requires Steady()
      ensures Kept(base, Img(), calm) && Capacities(hdr) == Capacities(base.hdr) && ValidImage(base) && Shape(Img())
    {
      hide ValidImage, Shape;
    }

    method Set(key: Bytes, value: Bytes) returns (code: Code)
      requires Valid() && |key| < INT32_MAX
      modifies this, half1, half2, mem
      ensures Valid() && Written(old(Img()), old(purged), code == Code.Ok)
      ensures (Reply(code, []), Contents()) == Step(Capacities(old(hdr)), old(Contents()), Op.Set(key, value))
      ensures HeapStep(Capacities(old(hdr)), old(Contents()), HeapOf(old(hdr)), Op.Set(key, value))
           == (HeapOf(hdr), if calm then [] else [old(hdr).value.SnapId()])
      ensures KeyHeapStep(Capacities(old(hdr)), old(Contents()), KeyHeapOf(old(hdr)), Op.Set(key, value)).0
           == KeyHeapOf(hdr)
    {
      hide ValidImage, Sound, Quiet, Trace, Ordered, Published, Through, MapOf, Fits, KeyFits, Newest, Kept, WriteSteps;
      TerminatedStep(Capacities(hdr), Contents(), Op.Set(key, value));
      MakeSnapshot();
      SnapshottedFacts();
      SnapshotSearchable();
      var idx := Bsearch(hdr.item.SnapId(), key);
      if idx < 0 {
        code := SetNew(key, value);
      } else {
        code := SetOld(idx, key, value);
      }
      KeptTiles(base, Img(), calm);
    }

    method Del(key: Bytes) returns (code: Code)
      requires Valid() && |key| < INT32_MAX
      modifies this, half1, half2, mem
      ensures Valid() && Written(old(Img()), old(purged), code == Code.Ok)
      ensures (Reply(code, []), Contents()) == Step(Capacities(old(hdr)), old(Contents()), Op.Del(key))
      ensures calm && hdr.key == old(hdr).key && hdr.value == old(hdr).value && mem[..] == old(mem[..])
    {
      hide ValidImage, Sound, Quiet, Trace, Ordered, Distinct, Entries, Published, Through, MapOf, RemoveAt, Kept,
           WriteSteps, Terminated, ItemsTile, Less, Lacks;
      TerminatedStep(Capacities(hdr), Contents(), Op.Del(key));
      MakeSnapshot();
      SnapshottedFacts();
      SnapshotSearchable();
      SteadyKept();
      var idx := Bsearch(hdr.item.SnapId(), key);
      LookUpIsMap(Published(base), Stored(key), idx);
      if idx < 0 {
        Abandon();
        KeptTiles(base, Img(), calm);
        return NotFound;
      }
      RemoveIsDel(Published(base), idx, Stored(key));
      RemoveItem(idx);
      Publish(hdr.item.used - 1);
      KeptTiles(base, Img(), calm);
      code := Code.Ok;
    }

    /** Takes item `i` out of the snapshot: the items behind it move down. */
    method RemoveItem(i: nat)
      requires Snapshotted() && i < hdr.item.used
      modifies `log, half1, half2
      ensures Steady()
      ensures |Img().Snap()| == hdr.item.size && i < |Published(base)| == hdr.item.used <= hdr.item.size
      ensures Entries(mem[..], Img().Snap()[..hdr.item.used - 1]) == RemoveAt(Published(base), i)
      ensures Sound(hdr, mem[..], Img().Snap()[..hdr.item.used - 1])
    {
      hide ValidImage, Sound, Quiet, Trace, Ordered, Distinct, Entries, Published, RemoveAt;
      SnapshottedFacts();
      ghost var n, snap0 := hdr.item.used, Img().Snap();
      MoveStart(snap0, i);
      if i + 1 < hdr.item.used {
        MoveDown(i, hdr.item.used - 1);
      }
      DownRemoved(snap0, Img().Snap(), i, n - 1);
      RemoveSound(hdr, mem[..], snap0[..n], i);
    }

    /** The extent of version `version` of a key, newest first from 1.  It needs no
        more than a readable image, so it may run at any step of a write.  There is
        no test for versions below 1: they read a cell behind the item's slots. */
    method Get(key: Bytes, version: int) returns (code: Code, e: Extent)
      requires Readable(Img()) && |key| < INT32_MAX
      ensures version >= 1 ==>
                Reply(code, if code == Code.Ok then [Read(mem[..], e)] else [])
                == LookUp(Capacities(hdr), View(Img()), Stored(key), version)
      ensures version >= 1 && code == Code.Ok && ValidImage(Img()) ==> InHeap(hdr.value, e)
      ensures version < 1 ==>
                var i := Find(Published(Img()), Stored(key), 0, |Published(Img())|);
                if i < 0 then code == NotFound
                else match CellOf(Img(), VersionCell(Img(), i, version))
                     case Some(cell) => code == Code.Ok && e == cell
                     case None => code == Stray
    {
      hide Ordered, View, Read, ValidImage, CellOf, VersionCell, Find, Lacks, Holds, LookUp, Published;
      e := Extent(0, 0);
      if hdr.maxVer < version {
        BeyondMaximum(Capacities(hdr), View(Img()), Stored(key), version);
        return ExceedMaximum, e;
      }
      var idx := SearchActive(key);
      LookUpReply(Img(), Stored(key), idx, version);
      if idx < 0 {
        return NotFound, e;
      }
      var it := ItemAt(hdr.item.id, idx);
      if it.count < version {
        return NotFoundValue, e;
      }
      if version < 1 {
        code, e := ReadCell(idx, version);
        return;
      }
      e := it.slots[hdr.maxVer - version];
      if ValidImage(Img()) {
        LiveInHeap(Img(), idx, version - 1);
      }
      code := Code.Ok;
    }

    /** Searches the active half, as every lookup begins. */
    method SearchActive(key: Bytes) returns (idx: int)
      requires Readable(Img()) && |key| < INT32_MAX
      ensures var es := Published(Img());
              && idx == Find(es, Stored(key), 0, |es|)
              && (if idx < 0 then Lacks(es, Stored(key)) else Holds(es, Stored(key), idx) && idx < hdr.item.used)
    {
      hide Ordered, Find;
      ReadableSearch(Img());
      idx := Bsearch(hdr.item.id, key);
    }

    /** Reads the cell a version below 1 of active item `i` leads to.  `Stray` is a
        cell behind the item section. */
    method ReadCell(i: nat, version: int) returns (code: Code, e: Extent)
      requires version <= hdr.maxVer
      ensures match CellOf(Img(), VersionCell(Img(), i, version))
              case Some(cell) => code == Code.Ok && e == cell
              case None => code == Stray
    {
      var n := 1 + hdr.maxVer;
      var k := ((if hdr.item.id == 1 then 0 else half1.Length) + i) * n + 1 + hdr.maxVer - version;
      assert k == VersionCell(Img(), i, version);
      var at, c := k / n, k % n;
      if at >= half1.Length + half2.Length {
        return Stray, Extent(0, 0);
      }
      var it := if at < half1.Length then half1[at] else half2[at - half1.Length];
      if c > |it.slots| {
        return Stray, Extent(0, 0);
      }
      code, e := Code.Ok, if c == 0 then it.key else it.slots[c - 1];
    }

    /** The extents of all versions of a key, newest first, into the caller's
        array; its entries beyond the number of versions are not written. */
    method GetValues(key: Bytes, values: array<Extent>) returns (code: Code)
      requires Readable(Img()) && |key| < INT32_MAX
      requires |Versions(View(Img()), Stored(key))| <= values.Length
      modifies values
      ensures var found := Versions(View(Img()), Stored(key));
              && code == (if Stored(key) in View(Img()) then Code.Ok else NotFound)
              && (forall k :: 0 <= k < |found| ==> values[k].len >= 1 && Read(mem[..], values[k]) == found[k])
              && (forall k :: |found| <= k < values.Length ==> values[k] == old(values[k]))
    {
      hide Ordered, MapOf, Read, ValidImage, Find, Less, Distinct;
      ReadableSearch(Img());
      var idx := Bsearch(hdr.item.id, key);
      OrderedDistinct(Published(Img()));
      LookUpIsMap(Published(Img()), Stored(key), idx);
      if idx < 0 {
        return NotFound;
      }
      var it := ItemAt(hdr.item.id, idx);
      assert Bounded(Img(), it);
      CopySlots(it, values);
      assert Published(Img())[idx].values == Values(mem[..], it) by { EntryParts(mem[..], it, it); }
      code := Code.Ok;
    }

    /** Copies the live slots of an item, the newest first. */
    method CopySlots(it: Item, values: array<Extent>)
      requires it.count <= |it.slots| == hdr.maxVer && it.count <= values.Length
      modifies values
      ensures forall k :: 0 <= k < it.count ==> values[k] == it.Version(k)
      ensures forall k :: it.count <= k < values.Length ==> values[k] == old(values[k])
    {
      var i: int := hdr.maxVer - 1;
      while hdr.maxVer - it.count <= i
        invariant hdr.maxVer - it.count - 1 <= i < hdr.maxVer
        invariant forall k :: 0 <= k < hdr.maxVer - 1 - i ==> values[k] == it.Version(k)
        invariant forall k :: hdr.maxVer - 1 - i <= k < values.Length ==> values[k] == old(values[k])
      {
        values[hdr.maxVer - i - 1] := it.slots[i];
        i := i - 1;
      }
    }

    /** The lookup of the latest value, as the public interface makes it: with
        version 0.  For a key with a successor it returns that key, found by `i`. */
    method GetLatest(key: Bytes) returns (code: Code, e: Extent, ghost i: int)
      requires Readable(Img()) && |key| < INT32_MAX
      ensures var es := Published(Img());
              && i == Find(es, Stored(key), 0, |es|)
              && (code == NotFound <==> Stored(key) !in View(Img()))
              && (0 <= i ==> match CellOf(Img(), VersionCell(Img(), i, 0))
                             case Some(cell) => code == Code.Ok && e == cell
                             case None => code == Stray)
              && (0 <= i && i + 1 < |es| ==> code == Code.Ok && Read(mem[..], e) == es[i + 1].key)
    {
      hide Ordered, MapOf, Read, CellOf, VersionCell;
      ghost var es := Published(Img());
      code, e := Get(key, 0);
      i := Find(es, Stored(key), 0, |es|);
      ReadableSearch(Img());
      OrderedDistinct(es);
      FindDecides(es, Stored(key), 0, |es|);
      LookUpIsMap(es, Stored(key), i);
      if 0 <= i && i + 1 < |es| {
        NextHeader(Img(), i);
      }
    }

    // ---------- opening ----------

    /** A new store on an empty file. */
    constructor Create(keyCount: nat, maxVer: nat)
      requires maxVer >= 1 && InitHeader(keyCount, maxVer).1 <= INT32_MAX
      ensures fresh(half1) && fresh(half2) && fresh(mem)
      ensures Valid() && Contents() == map[]
      ensures Capacities(hdr) == Config(keyCount, 64 * keyCount, 256 * keyCount, maxVer)
      ensures mem.Length == InitHeader(keyCount, maxVer).1
    {
      InitTiles(keyCount, maxVer);
      var (h, total) := InitHeader(keyCount, maxVer);
      var blank := Item(Extent(0, 0), 0, seq(maxVer, _ => Extent(0, 0)));
      hdr := h;
      half1 := new Item[keyCount](_ => blank);
      half2 := new Item[keyCount](_ => blank);
      mem := new byte[total](_ => 0);
      new;
      EmptyValid(Img());
    }

    /** The file of `from` opened again: a new mapping of the same bytes. */
    constructor Attach(from: Store)
      requires from.Valid()
      ensures fresh(half1) && fresh(half2) && fresh(mem)
      ensures Valid() && Img() == from.Img() && Contents() == from.Contents()
    {
      hdr := from.hdr;
      half1 := new Item[from.half1.Length](i requires 0 <= i < from.half1.Length reads from.half1 => from.half1[i]);
      half2 := new Item[from.half2.Length](i requires 0 <= i < from.half2.Length reads from.half2 => from.half2[i]);
      mem := new byte[from.mem.Length](i requires 0 <= i < from.mem.Length reads from.mem => from.mem[i]);
      new;
      assert half1[..] == from.half1[..] && half2[..] == from.half2[..] && mem[..] == from.mem[..];
    }
  }

  /** Fill, active half and compactions of both heaps are those that `op` calls for. */
  ghost predicate HeapsDone(before: Header, m: Dict, op: Op, keys: Heap, vals: Heap, calm: bool) {
    var c := Capacities(before);
    && HeapStep(c, m, HeapOf(before), op) == (vals, if calm then [] else [before.value.SnapId()])
    && KeyHeapStep(c, m, KeyHeapOf(before), op).0 == keys
  }

  lemma BeyondMaximum(c: Config, m: Dict, k: Bytes, version: int)
    requires c.maxVer < version
    ensures LookUp(c, m, k, version) == Reply(ExceedMaximum, [])
  {
  }

  /** Version 0 of an item is the header cell of the next. */
  lemma NextHeader(img: Image, i: nat)
    requires i + 1 < |img.Active()| && (img.hdr.item.id == 1 || img.hdr.item.id == 2)
    ensures CellOf(img, VersionCell(img, i, 0)) == Some(img.Active()[i + 1].key)
  {
    var n := 1 + img.hdr.maxVer;
    var at := (if img.hdr.item.id == 1 then 0 else |img.half1|) + i + 1;
    assert VersionCell(img, i, 0) == at * n by {
      assert (at - 1) * n + n == at * n;
    }
    CellDivides(at, n, 0);
    assert (img.half1 + img.half2)[at] == img.Active()[i + 1];
  }

  /** The cell a lookup reads for a version, any version up to the maximum, is the one
      the item's slots lead to by their addresses, counted from the first item half. */
  lemma VersionCellAddress(img: Image, i: nat, version: int)
    requires ItemsTile(img.hdr) && |img.half1| == img.hdr.item.size && version <= img.hdr.maxVer
    requires img.hdr.item.id == 1 || img.hdr.item.id == 2
    ensures img.hdr.item.sec1 + VAL_SIZE * VersionCell(img, i, version)
            == CellAddress(img.hdr.item.Offset(), img.hdr.maxVer, i, 1 + img.hdr.maxVer - version)
  {
    var n, at := 1 + img.hdr.maxVer, if img.hdr.item.id == 1 then 0 else |img.half1|;
    assert ItemLen(img.hdr.maxVer) == 16 * n;
    assert 16 * ((at + i) * n) == at * (16 * n) + i * (16 * n);
  }

  /** At the address of each cell of each item of either half `CellOf` finds just that
      field: the key in cell 0, value slot j in cell 1 + j. */
  lemma CellOfAddress(img: Image, half: nat, i: nat, c: nat, k: nat)
    requires ItemsTile(img.hdr) && |img.half1| == |img.half2| == img.hdr.item.size
    requires (half == 1 || half == 2) && i < img.hdr.item.size
    requires |img.Half(half)[i].slots| == img.hdr.maxVer && c <= img.hdr.maxVer
    requires img.hdr.item.sec1 + VAL_SIZE * k == CellAddress(img.hdr.item.Start(half), img.hdr.maxVer, i, c)
    ensures var it := img.Half(half)[i];
            CellOf(img, k) == Some(if c == 0 then it.key else it.slots[c - 1])
  {
    var n, at := 1 + img.hdr.maxVer, (if half == 1 then 0 else |img.half1|) + i;
    CellNumber(img.hdr, half, i, c, k);
    CellDivides(at, n, c);
    assert (img.half1 + img.half2)[at] == img.Half(half)[i];
  }

  lemma CellNumber(h: Header, half: nat, i: nat, c: nat, k: nat)
    requires ItemsTile(h) && (half == 1 || half == 2)
    requires h.item.sec1 + VAL_SIZE * k == CellAddress(h.item.Start(half), h.maxVer, i, c)
    ensures k == ((if half == 1 then 0 else h.item.size) + i) * (1 + h.maxVer) + c
  {
    var n, from := 1 + h.maxVer, if half == 1 then 0 else h.item.size;
    assert ItemLen(h.maxVer) == 16 * n;
    assert from * (16 * n) == 16 * (from * n) && i * (16 * n) == 16 * (i * n);
    assert (from + i) * n == from * n + i * n;
  }

  /** Behind the second half there is no cell. */
  lemma NoCellBehind(img: Image, k: nat)
    requires ItemsTile(img.hdr) && |img.half1| == |img.half2| == img.hdr.item.size
    requires img.hdr.item.sec1 + VAL_SIZE * k >= img.hdr.item.sec2 + img.hdr.item.size * ItemLen(img.hdr.maxVer)
    ensures CellOf(img, k) == None
  {
    var n, all := 1 + img.hdr.maxVer, |img.half1 + img.half2|;
    assert ItemLen(img.hdr.maxVer) == 16 * n;
    assert img.hdr.item.size * (16 * n) + img.hdr.item.size * (16 * n) == 16 * (all * n);
    assert k >= all * n && k == n * (k / n) + k % n;
    if k / n < all {
      StepUp(k / n, all, n);
    }
  }

  lemma CellDivides(q: nat, n: nat, c: nat)
    requires c < n
    ensures (q * n + c) / n == q && (q * n + c) % n == c
  {
    var k := q * n + c;
    assert k == n * (k / n) + k % n;
    if k / n < q {
      StepUp(k / n, q, n);
    } else if q < k / n {
      StepUp(q, k / n, n);
    }
  }

  lemma LiveInHeap(img: Image, i: nat, v: nat)
    requires ValidImage(img) && i < img.hdr.item.used && v < img.Active()[i].count <= |img.Active()[i].slots|
    ensures InHeap(img.hdr.value, img.Active()[i].Version(v))
  {
    var it := img.Active()[i];
    assert it == img.Active()[..img.hdr.item.used][i] && ItemOk(img.hdr, it);
    assert it.Live(|it.slots| - 1 - v);
  }

  lemma EmptyValid(img: Image)
    requires Shape(img) && img.hdr.item.used == 0
    ensures ValidImage(img) && View(img) == map[]
  {
    assert img.Active()[..0] == [];
    assert Published(img) == [];
    assert MapOf([]) == map[];
  }

  /** The key section after a set of a new key: longer by the key if it was appended,
      whether or not the value found room, in the other half behind the live keys if
      compacted and done. */
  function KeyAfter(s: Section, live: nat, n: nat, done: bool): Section {
    if s.used + n <= s.size then s.(used := s.used + n)
    else if done then s.(id := s.SnapId(), used := live + n)
    else s
  }

  /** The value section after a set: as before if it failed, longer by the value if
      it was appended, in the other half behind the live values if compacted. */
  function ValueAfter(s: Section, live: nat, n: nat, calm: bool, done: bool): Section {
    if !done then s
    else if calm then s.(used := s.used + n)
    else s.(id := s.SnapId(), used := live + n)
  }

  /** What a write may overwrite: the other key half; once a value compaction has
      begun, the other value half; and the free part of the active halves. */
  lemma KeyTargetFree(base: Image, calm: bool)
    requires ValidImage(base)
    ensures forall a :: base.hdr.key.InSnapshot(a) ==> !Guarded(base, calm, a)
  {
    hide Sound, Ordered;
  }

  lemma ValueTargetFree(base: Image)
    requires ValidImage(base)
    ensures forall a :: base.hdr.value.InSnapshot(a) ==> !Guarded(base, false, a)
  {
    hide Sound, Ordered;
  }

  lemma TailFree(base: Image, calm: bool, s: Section, n: nat)
    requires ValidImage(base)
    requires s == base.hdr.key || s == base.hdr.value
    requires s.used + n <= s.size
    ensures forall a :: s.Offset() + s.used <= a < s.Offset() + s.used + n ==> !Guarded(base, calm, a)
  {
    hide Sound, Ordered;
  }
}
