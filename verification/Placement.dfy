/**
 Index items with the heap halves their extents lie in, and what a write as
 written does to them: it may be made from a list whose extents do not lie in the
 active halves.
 */
module Placement {
  import opened KeyOrder
  import opened Spec
  import opened Image
  import opened Search
  import opened Refinement
  import opened EntryList

  // ---------- fill and active half of both heaps ----------

  datatype Heaps = Heaps(key: Heap, value: Heap) {
    predicate Valid() {
      && (key.half == 1 || key.half == 2) && (value.half == 1 || value.half == 2)
    }
  }

  /** The free tail is too short for a new key: the keys are compacted. */
  ghost predicate KeyBegins(c: Config, es: seq<Entry>, h: Heaps, op: Op) {
    && op.Set? && Find(es, Stored(op.key), 0, |es|) < 0 && |es| < c.items
    && h.key.used + |Stored(op.key)| > c.keyBytes
  }

  /** The key of a set is stored already, or an item and bytes for it are found. */
  ghost predicate KeyStored(c: Config, es: seq<Entry>, h: Heaps, op: Op) {
    && op.Set?
    && (Find(es, Stored(op.key), 0, |es|) < 0 ==>
          |es| < c.items && (KeyBegins(c, es, h, op) ==> KeySum(es) + |Stored(op.key)| <= c.keyBytes))
  }

  /** The same for the value; it is stored after the key. */
  ghost predicate ValueBegins(c: Config, es: seq<Entry>, h: Heaps, op: Op) {
    KeyStored(c, es, h, op) && h.value.used + |Stored(op.value)| > c.valueBytes
  }

  /** The branches that give up. */
  ghost predicate GivesUp(c: Config, es: seq<Entry>, h: Heaps, op: Op) {
    match op
    case Set(key, value) =>
      || !KeyStored(c, es, h, op)
      || (ValueBegins(c, es, h, op) && ValueSum(es) + |Stored(value)| > c.valueBytes)
    case Del(key) => Find(es, Stored(key), 0, |es|) < 0
    case _ => false
  }

  /** Live bytes are used bytes. */
  ghost predicate Covers(h: Heaps, es: seq<Entry>) {
    KeySum(es) <= h.key.used && ValueSum(es) <= h.value.used
  }

  /** The branches refuse what the capacities refuse. */
  lemma GivesUpIsRefused(c: Config, es: seq<Entry>, h: Heaps, op: Op)
    requires Covers(h, es)
    ensures GivesUp(c, es, h, op) <==> Refused(c, es, op)
  {
    hide KeySum, ValueSum, Find;
  }

  /** A key stored in the free tail stays used when its value is refused; a key
      compaction whose key or value is refused is taken back. */
  ghost function KeyHeapAfter(c: Config, es: seq<Entry>, h: Heaps, op: Op): Heap {
    if !op.Set? || Find(es, Stored(op.key), 0, |es|) >= 0 || |es| >= c.items then h.key
    else if !KeyBegins(c, es, h, op) then Heap(h.key.used + |Stored(op.key)|, h.key.half)
    else if GivesUp(c, es, h, op) then h.key
    else Heap(KeySum(es) + |Stored(op.key)|, h.key.Other())
  }

  ghost function ValueHeapAfter(c: Config, es: seq<Entry>, h: Heaps, op: Op): Heap {
    if !op.Set? || GivesUp(c, es, h, op) then h.value
    else if !ValueBegins(c, es, h, op) then Heap(h.value.used + |Stored(op.value)|, h.value.half)
    else Heap(ValueSum(es) + |Stored(op.value)|, h.value.Other())
  }

  ghost function HeapsStep(c: Config, es: seq<Entry>, h: Heaps, op: Op): Heaps {
    Heaps(KeyHeapAfter(c, es, h, op), ValueHeapAfter(c, es, h, op))
  }

  /** From a current pointer the value heap is that of the plain map. */
  lemma ValueHeapIsSpec(c: Config, es: seq<Entry>, h: Heaps, op: Op)
    requires Ordered(es) && Distinct(es) && Covers(h, es)
    ensures var step := HeapStep(c, MapOf(es), h.value, op);
            && HeapsStep(c, es, h, op).value == step.0
            && (ValueBegins(c, es, h, op) <==> step.1 != [])
  {
    hide Less, Ordered, Distinct, Find, KeySum, ValueSum, MapOf, KeyFits, Fits, ValueBytes, Lacks;
    var k := Stored(op.key);
    FindOrdered(es, k);
    if op.Set? {
      FitsIs(c, es, Find(es, k, 0, |es|), k, Stored(op.value));
    }
  }

  /** And so is the key heap. */
  lemma KeyHeapIsSpec(c: Config, es: seq<Entry>, h: Heaps, op: Op)
    requires Ordered(es) && Distinct(es) && Covers(h, es)
    ensures var step := KeyHeapStep(c, MapOf(es), h.key, op);
            && HeapsStep(c, es, h, op).key == step.0
            && (KeyBegins(c, es, h, op) <==> step.1 != [])
  {
    hide Less, Ordered, Distinct, Find, KeySum, ValueSum, MapOf, KeyFits, Fits, ValueBytes, KeyBytes, Lacks;
    var k := Stored(op.key);
    FindOrdered(es, k);
    if op.Set? {
      HeapsAre(c, es, Find(es, k, 0, |es|), op, h.key, h.value);
    }
  }

  lemma CoversAfter(c: Config, es: seq<Entry>, h: Heaps, op: Op)
    requires Ordered(es) && Covers(h, es) && h.Valid() && (op.Set? || op.Del?)
    ensures HeapsStep(c, es, h, op).Valid()
    ensures Covers(HeapsStep(c, es, h, op), ListStep(c, es, op).1)
    ensures Refused(c, es, op) ==>
              && Covers(HeapsStep(c, es, h, op), es)
              && HeapsStep(c, es, h, op).key.half == h.key.half && HeapsStep(c, es, h, op).value == h.value
  {
    hide Less, Ordered, KeySum, ValueSum, Find, Newest, InsertAt, RemoveAt, Place;
    GivesUpIsRefused(c, es, h, op);
    RefusedStays(c, es, op);
    if !Refused(c, es, op) {
      SumsAfter(c, es, op);
    }
  }

  // ---------- places ----------

  /** Where the bytes of an extent lie: in a half, or there just as a compaction of
      this very list packed them.  An extent copied from the half a compaction fills
      counts as lost, because an earlier copy may have overwritten it; but from
      where it was packed it is copied onto itself. */
  datatype Spot = In(half: nat) | Packed(half: nat) | Lost {
    function Moved(to: nat): Spot {
      if this == In(to) || Lost? then Lost else Packed(to)
    }

    /** In a list that has been edited since. */
    function Settled(): Spot {
      if Packed? then In(half) else this
    }
  }

  datatype Placed = Placed(entry: Entry, key: Spot, values: seq<Spot>) {
    predicate Valid() {
      |values| == |entry.values| >= 1
    }

    function Moved(keys: bool, vals: bool, h: Heaps): Placed {
      this.(key := if keys then key.Moved(h.key.Other()) else key,
            values := if vals then seq(|values|, j requires 0 <= j < |values| => values[j].Moved(h.value.Other()))
                      else values)
    }

    function Settled(): Placed {
      this.(key := key.Settled(), values := seq(|values|, j requires 0 <= j < |values| => values[j].Settled()))
    }
  }

  function ListOf(ps: seq<Placed>): (es: seq<Entry>)
    ensures |es| == |ps| && forall i :: 0 <= i < |ps| ==> es[i] == ps[i].entry
  {
    seq(|ps|, i requires 0 <= i < |ps| => ps[i].entry)
  }

  /** The items as the compactions of the write leave them. */
  ghost function MovedBy(c: Config, ps: seq<Placed>, h: Heaps, op: Op): (r: seq<Placed>)
    ensures ListOf(r) == ListOf(ps)
  {
    var keys, vals := KeyBegins(c, ListOf(ps), h, op), ValueBegins(c, ListOf(ps), h, op);
    seq(|ps|, i requires 0 <= i < |ps| => ps[i].Moved(keys, vals, h))
  }

  /** The write, where it is accepted, on items that have been moved; the new
      extents lie in the halves active after it. */
  ghost function EditPlaced(c: Config, ps: seq<Placed>, after: Heaps, op: Op): seq<Placed> {
    var k, i := Stored(op.key), Find(ListOf(ps), Stored(op.key), 0, |ps|);
    match op
    case Set(key, value) =>
      if i < 0 then
        InsertAt(ps, Place(ListOf(ps), k),
                 Placed(Entry(k, [Stored(value)]), In(after.key.half), [In(after.value.half)]))
      else
        ps[i := Placed(Entry(ps[i].entry.key, Newest(c.maxVer, Stored(value), ps[i].entry.values)),
                       ps[i].key, Newest(c.maxVer, In(after.value.half), ps[i].values))]
    case Del(key) => if i < 0 then ps else RemoveAt(ps, i)
    case _ => ps
  }

  function SettledAll(ps: seq<Placed>): (r: seq<Placed>)
    ensures ListOf(r) == ListOf(ps)
  {
    seq(|ps|, i requires 0 <= i < |ps| => ps[i].Settled())
  }

  /** The items published by an accepted write. */
  ghost function Written(c: Config, ps: seq<Placed>, h: Heaps, op: Op): seq<Placed> {
    SettledAll(EditPlaced(c, MovedBy(c, ps, h, op), HeapsStep(c, ListOf(ps), h, op), op))
  }

  // ---------- how a list lies ----------

  /** Where the extents of one kind of a list lie: in the active half; in the other
      one, packed there by a refused write; or there by an earlier layout, if they
      are not lost. */
  datatype Lie = Home | Aside | Apart {
    function Moved(): Lie {
      if Apart? then Apart else Aside
    }

    /** An accepted write leaves them in the half that is active after it. */
    predicate Arrives(begins: bool) {
      if begins then !Apart? else Home?
    }
  }

  predicate Lies(s: Spot, lie: Lie, h: Heap) {
    match lie
    case Home => s == In(h.half)
    case Aside => s == Packed(h.Other())
    case Apart => s == In(h.Other()) || s == Lost
  }

  predicate KeyLies(p: Placed, lie: Lie, h: Heap) {
    Lies(p.key, lie, h)
  }

  predicate ValuesLie(p: Placed, lie: Lie, h: Heap) {
    forall j :: 0 <= j < |p.values| ==> Lies(p.values[j], lie, h)
  }

  ghost predicate ItemLies(p: Placed, h: Heaps, keys: Lie, vals: Lie) {
    p.Valid() && KeyLies(p, keys, h.key) && ValuesLie(p, vals, h.value)
  }

  /** The items hold the entries `es`; their keys and values lie as said, and the
      heaps are filled at least with them. */
  ghost predicate Stands(ps: seq<Placed>, es: seq<Entry>, h: Heaps, keys: Lie, vals: Lie) {
    && ListOf(ps) == es && h.Valid() && Covers(h, es)
    && forall i :: 0 <= i < |ps| ==> ItemLies(ps[i], h, keys, vals)
  }

  ghost predicate ItemHome(p: Placed, h: Heaps) {
    KeyLies(p, Home, h.key) && ValuesLie(p, Home, h.value)
  }

  /** All extents lie in the active halves. */
  ghost predicate AllHome(ps: seq<Placed>, h: Heaps) {
    forall i :: 0 <= i < |ps| ==> ItemHome(ps[i], h)
  }

  lemma StandsList(ps: seq<Placed>, es: seq<Entry>, h: Heaps, keys: Lie, vals: Lie)
    requires Stands(ps, es, h, keys, vals)
    ensures ListOf(ps) == es && |ps| == |es| && h.Valid() && Covers(h, es)
    ensures keys == vals == Home ==> AllHome(ps, h)
  {
    hide Covers;
    forall i | 0 <= i < |ps|
      ensures keys == vals == Home ==> ItemHome(ps[i], h)
    {
      assert ItemLies(ps[i], h, keys, vals);
    }
  }

  /** Some key or value from before is still there after an accepted write. */
  predicate KeysRemain(es: seq<Entry>, op: Op) {
    if op.Del? then |es| > 1 else es != []
  }

  ghost predicate ValuesRemain(c: Config, es: seq<Entry>, op: Op) {
    |es| > 1 || (es != [] && op.Set? && (c.maxVer > 1 || Find(es, Stored(op.key), 0, |es|) < 0))
  }

  /** What of the list remains after the write lies in the active halves then. */
  ghost predicate Arrives(c: Config, es: seq<Entry>, h: Heaps, keys: Lie, vals: Lie, op: Op) {
    && (KeysRemain(es, op) ==> keys.Arrives(KeyBegins(c, es, h, op)))
    && (ValuesRemain(c, es, op) ==> vals.Arrives(ValueBegins(c, es, h, op)))
  }

  // ---------- writes on placed items ----------

  /** Moved, a spot is home in the other half exactly if it arrives; unmoved, in the
      half it was. */
  lemma SpotArrives(s: Spot, lie: Lie, h: Heap, begins: bool)
    requires Lies(s, lie, h) && (h.half == 1 || h.half == 2)
    ensures Lies(s.Moved(h.Other()), lie.Moved(), h)
    ensures var r := if begins then s.Moved(h.Other()) else s;
            r.Settled() == In(if begins then h.Other() else h.half) <==> lie.Arrives(begins)
  {
  }

  /** The same for an item: `to` has the halves active after the write. */
  lemma ItemArrives(p: Placed, h: Heaps, keys: Lie, vals: Lie, kb: bool, vb: bool, to: Heaps)
    requires h.Valid() && ItemLies(p, h, keys, vals)
    requires to.key.half == (if kb then h.key.Other() else h.key.half)
    requires to.value.half == if vb then h.value.Other() else h.value.half
    ensures var r := p.Moved(kb, vb, h).Settled();
            && r.Valid() && r.entry == p.entry
            && (KeyLies(r, Home, to.key) <==> keys.Arrives(kb))
            && (ValuesLie(r, Home, to.value) <==> vals.Arrives(vb))
  {
    var r := p.Moved(kb, vb, h).Settled();
    SpotArrives(p.key, keys, h.key, kb);
    forall j | 0 <= j < |p.values|
      ensures Lies(r.values[j], Home, to.value) <==> vals.Arrives(vb)
    {
      SpotArrives(p.values[j], vals, h.value, vb);
    }
    assert Lies(r.values[0], Home, to.value) <==> vals.Arrives(vb);
  }

  /** A replaced item: only its old values may be gone. */
  lemma ReplacedArrives(p: Placed, h: Heaps, keys: Lie, vals: Lie, vb: bool, to: Heaps, maxVer: nat, v: Bytes)
    requires h.Valid() && ItemLies(p, h, keys, vals) && maxVer >= 1
    requires to.key.half == h.key.half && to.value.half == if vb then h.value.Other() else h.value.half
    ensures var m := p.Moved(false, vb, h);
            var r := Placed(Entry(p.entry.key, Newest(maxVer, v, p.entry.values)), m.key,
                            Newest(maxVer, In(to.value.half), m.values)).Settled();
            && r.Valid()
            && (KeyLies(r, Home, to.key) <==> keys.Arrives(false))
            && (ValuesLie(r, Home, to.value) <==> maxVer > 1 ==> vals.Arrives(vb))
  {
    var m := p.Moved(false, vb, h);
    var r := Placed(Entry(p.entry.key, Newest(maxVer, v, p.entry.values)), m.key,
                    Newest(maxVer, In(to.value.half), m.values)).Settled();
    SpotArrives(p.key, keys, h.key, false);
    forall j | 0 < j < |r.values|
      ensures Lies(r.values[j], Home, to.value) <==> vals.Arrives(vb)
    {
      SpotArrives(p.values[j - 1], vals, h.value, vb);
      assert r.values[j] == m.values[j - 1].Settled();
    }
    assert Lies(r.values[0], Home, to.value);
    if maxVer > 1 {
      assert Lies(r.values[1], Home, to.value) <==> vals.Arrives(vb);
    }
  }

  /** A refused write, which leaves the items moved. */
  lemma RefusedStands(c: Config, ps: seq<Placed>, es: seq<Entry>, h: Heaps, keys: Lie, vals: Lie, op: Op)
    requires Stands(ps, es, h, keys, vals) && Ordered(es) && (op.Set? || op.Del?) && Refused(c, es, op)
    ensures Stands(MovedBy(c, ps, h, op), es, HeapsStep(c, es, h, op),
                   if KeyBegins(c, es, h, op) then keys.Moved() else keys,
                   if ValueBegins(c, es, h, op) then vals.Moved() else vals)
  {
    hide Less, Ordered, Covers, Find, KeySum, ValueSum, Refused, KeyBegins, ValueBegins, HeapsStep;
    CoversAfter(c, es, h, op);
    var kb, vb, after := KeyBegins(c, es, h, op), ValueBegins(c, es, h, op), MovedBy(c, ps, h, op);
    forall i | 0 <= i < |after|
      ensures ItemLies(after[i], HeapsStep(c, es, h, op), if kb then keys.Moved() else keys,
                       if vb then vals.Moved() else vals)
    {
      assert ItemLies(ps[i], h, keys, vals);
      SpotArrives(ps[i].key, keys, h.key, kb);
      forall j | 0 <= j < |ps[i].values|
        ensures Lies(ps[i].values[j].Moved(h.value.Other()), vals.Moved(), h.value)
      {
        SpotArrives(ps[i].values[j], vals, h.value, vb);
      }
    }
  }

  /** It leaves the active items where they were. */
  lemma StillStands(c: Config, ps: seq<Placed>, es: seq<Entry>, from: seq<Entry>, h: Heaps, op: Op)
    requires Stands(ps, es, h, Home, Home) && Covers(h, from) && Refused(c, from, op) && (op.Set? || op.Del?)
    ensures Stands(ps, es, HeapsStep(c, from, h, op), Home, Home) && AllHome(ps, HeapsStep(c, from, h, op))
  {
    hide Find, KeySum, ValueSum, Refused;
    GivesUpIsRefused(c, from, h, op);
    var to := HeapsStep(c, from, h, op);
    forall i | 0 <= i < |ps|
      ensures ItemLies(ps[i], to, Home, Home)
    {
      assert ItemLies(ps[i], h, Home, Home);
    }
  }

  /** Where a half and its heap are left alone, or switched. */
  lemma HalvesAfter(c: Config, es: seq<Entry>, h: Heaps, op: Op)
    requires Covers(h, es) && !Refused(c, es, op)
    ensures var to := HeapsStep(c, es, h, op);
            && to.key.half == (if KeyBegins(c, es, h, op) then h.key.Other() else h.key.half)
            && to.value.half == if ValueBegins(c, es, h, op) then h.value.Other() else h.value.half
    ensures KeyBegins(c, es, h, op) ==> op.Set? && Find(es, Stored(op.key), 0, |es|) < 0
    ensures ValueBegins(c, es, h, op) ==> op.Set?
  {
    hide KeySum, ValueSum, Find, Refused;
    GivesUpIsRefused(c, es, h, op);
  }

  /** The items the write does not concern. */
  lemma OthersArrive(c: Config, ps: seq<Placed>, es: seq<Entry>, h: Heaps, keys: Lie, vals: Lie, op: Op)
    requires Stands(ps, es, h, keys, vals) && (op.Set? || op.Del?) && !Refused(c, es, op)
    ensures var ms, to := MovedBy(c, ps, h, op), HeapsStep(c, es, h, op);
            |ms| == |ps|
            && (forall i :: 0 <= i < |ps| ==> ms[i].entry == es[i] && ms[i].Settled().Valid())
            && (forall i :: 0 <= i < |ps| ==>
                  (ItemHome(ms[i].Settled(), to)
                   <==> keys.Arrives(KeyBegins(c, es, h, op)) && vals.Arrives(ValueBegins(c, es, h, op))))
  {
    hide Less, Covers, Find, KeySum, ValueSum, Refused, KeyBegins, ValueBegins, HeapsStep, ValuesLie;
    var ms, to := MovedBy(c, ps, h, op), HeapsStep(c, es, h, op);
    var kb, vb := KeyBegins(c, es, h, op), ValueBegins(c, es, h, op);
    HalvesAfter(c, es, h, op);
    forall i | 0 <= i < |ps|
      ensures ms[i].entry == es[i] && ms[i].Settled().Valid()
      ensures ItemHome(ms[i].Settled(), to) <==> keys.Arrives(kb) && vals.Arrives(vb)
    {
      assert ItemLies(ps[i], h, keys, vals);
      ItemArrives(ps[i], h, keys, vals, kb, vb, to);
    }
  }

  /** The items published are the entries of the list after the write, in order, and
      each has a place for each of its values. */
  ghost predicate Publishable(ws: seq<Placed>, after: seq<Entry>) {
    ListOf(ws) == after && forall i :: 0 <= i < |ws| ==> ws[i].Valid()
  }

  lemma AddStands(c: Config, ps: seq<Placed>, es: seq<Entry>, h: Heaps, keys: Lie, vals: Lie, op: Op)
    requires Stands(ps, es, h, keys, vals) && op.Set? && !Refused(c, es, op) && Find(es, Stored(op.key), 0, |es|) < 0
    ensures Publishable(Written(c, ps, h, op), ListStep(c, es, op).1)
    ensures AllHome(Written(c, ps, h, op), HeapsStep(c, es, h, op)) <==> Arrives(c, es, h, keys, vals, op)
  {
    hide Less, Covers, Find, KeySum, ValueSum, Refused, KeyBegins, ValueBegins, HeapsStep, ItemLies, InsertAt, Place,
         MovedBy;
    OthersArrive(c, ps, es, h, keys, vals, op);
    var ms, to, ws := MovedBy(c, ps, h, op), HeapsStep(c, es, h, op), Written(c, ps, h, op);
    var pos := Place(es, Stored(op.key));
    assert ListOf(ms) == es;
    assert ItemHome(ws[pos], to) && ws[pos].Valid();
    forall i | 0 <= i < |ws| && i != pos
      ensures ws[i] == ms[if i < pos then i else i - 1].Settled()
    {
    }
    assert ListOf(ws) == ListStep(c, es, op).1;
    if es != [] {
      var first := if pos == 0 then 1 else 0;
      assert ws[first] == ms[0].Settled();
    }
  }

  lemma DelStands(c: Config, ps: seq<Placed>, es: seq<Entry>, h: Heaps, keys: Lie, vals: Lie, op: Op)
    requires Stands(ps, es, h, keys, vals) && op.Del? && !Refused(c, es, op)
    ensures Publishable(Written(c, ps, h, op), ListStep(c, es, op).1)
    ensures AllHome(Written(c, ps, h, op), HeapsStep(c, es, h, op)) <==> Arrives(c, es, h, keys, vals, op)
  {
    hide Less, Covers, Find, KeySum, ValueSum, KeyBegins, ValueBegins, HeapsStep, ItemLies, RemoveAt, MovedBy;
    OthersArrive(c, ps, es, h, keys, vals, op);
    var ms, to, ws := MovedBy(c, ps, h, op), HeapsStep(c, es, h, op), Written(c, ps, h, op);
    var at := Find(es, Stored(op.key), 0, |es|);
    assert ListOf(ms) == es;
    forall i | 0 <= i < |ws|
      ensures ws[i] == ms[if i < at then i else i + 1].Settled()
    {
    }
    assert ListOf(ws) == ListStep(c, es, op).1;
    if |es| > 1 {
      assert ws[0] == ms[if 0 < at then 0 else 1].Settled();
    }
  }

  lemma ReplaceStands(c: Config, ps: seq<Placed>, es: seq<Entry>, h: Heaps, keys: Lie, vals: Lie, op: Op)
    requires Stands(ps, es, h, keys, vals) && op.Set? && !Refused(c, es, op) && Find(es, Stored(op.key), 0, |es|) >= 0
    requires c.maxVer >= 1
    ensures Publishable(Written(c, ps, h, op), ListStep(c, es, op).1)
    ensures AllHome(Written(c, ps, h, op), HeapsStep(c, es, h, op)) <==> Arrives(c, es, h, keys, vals, op)
  {
    hide Less, Covers, Find, KeySum, ValueSum, Refused, ValueBegins, HeapsStep, ItemLies, Newest, ValuesLie;
    OthersArrive(c, ps, es, h, keys, vals, op);
    HalvesAfter(c, es, h, op);
    var ms, to, ws := MovedBy(c, ps, h, op), HeapsStep(c, es, h, op), Written(c, ps, h, op);
    var at := Find(es, Stored(op.key), 0, |es|);
    assert ListOf(ms) == es;
    assert ItemLies(ps[at], h, keys, vals);
    ReplacedArrives(ps[at], h, keys, vals, ValueBegins(c, es, h, op), to, c.maxVer, Stored(op.value));
    forall i | 0 <= i < |ws| && i != at
      ensures ws[i] == ms[i].Settled()
    {
    }
    assert ListOf(ws) == ListStep(c, es, op).1;
    assert ItemHome(ws[at], to) <==> keys.Arrives(false) && (c.maxVer > 1 ==> vals.Arrives(ValueBegins(c, es, h, op)));
    if |es| > 1 {
      var other := if at == 0 then 1 else 0;
      assert ws[other] == ms[other].Settled();
    }
  }

  /** What an accepted write publishes: the entries of the list after it, and they
      are all home exactly if what remains arrives. */
  lemma WrittenStands(c: Config, ps: seq<Placed>, es: seq<Entry>, h: Heaps, keys: Lie, vals: Lie, op: Op)
    requires Stands(ps, es, h, keys, vals) && Ordered(es) && (op.Set? || op.Del?) && !Refused(c, es, op)
    requires c.maxVer >= 1
    ensures var ws, to := Written(c, ps, h, op), HeapsStep(c, es, h, op);
            && ListOf(ws) == ListStep(c, es, op).1
            && (AllHome(ws, to) <==> Arrives(c, es, h, keys, vals, op))
            && (Arrives(c, es, h, keys, vals, op) ==> Stands(ws, ListStep(c, es, op).1, to, Home, Home))
  {
    hide Less, Ordered, Covers, Find, KeySum, ValueSum, Refused, Written, Arrives, ValuesLie, KeyLies, HeapsStep, ListStep;
    CoversAfter(c, es, h, op);
    if op.Del? {
      DelStands(c, ps, es, h, keys, vals, op);
    } else if Find(es, Stored(op.key), 0, |es|) < 0 {
      AddStands(c, ps, es, h, keys, vals, op);
    } else {
      ReplaceStands(c, ps, es, h, keys, vals, op);
    }
  }

  /** What lies at home arrives. */
  lemma HomeArrives(c: Config, es: seq<Entry>, h: Heaps, op: Op)
    ensures Arrives(c, es, h, Home, Home, op)
  {
    hide Find, KeyBegins, ValueBegins;
  }

  /** The half that was active before a key was replaced or deleted: a completed
      value compaction leaves its values in what is then the other half. */
  lemma LeftStands(c: Config, ps: seq<Placed>, es: seq<Entry>, h: Heaps, op: Op, n: nat)
    requires Stands(ps, es, h, Home, Home) && (op.Set? || op.Del?) && !Refused(c, es, op) && n <= |es|
    requires Find(es, Stored(op.key), 0, |es|) >= 0
    ensures Stands(ps[..n], es[..n], HeapsStep(c, es, h, op), Home, if ValueBegins(c, es, h, op) then Apart else Home)
  {
    hide Less, Find, KeySum, ValueSum, Refused;
    GivesUpIsRefused(c, es, h, op);
    HalvesAfter(c, es, h, op);
    SumsMonotone(es, n);
    var to, vb := HeapsStep(c, es, h, op), ValueBegins(c, es, h, op);
    forall i | 0 <= i < n
      ensures ItemLies(ps[i], to, Home, if vb then Apart else Home)
    {
      assert ItemLies(ps[i], h, Home, Home);
    }
    assert ListOf(ps[..n]) == es[..n];
  }

  /** The entries an accepted write publishes, wherever they lie. */
  lemma WrittenList(c: Config, ps: seq<Placed>, h: Heaps, op: Op)
    requires (op.Set? || op.Del?) && !Refused(c, ListOf(ps), op)
    ensures ListOf(Written(c, ps, h, op)) == ListStep(c, ListOf(ps), op).1
  {
    hide Less, Find, KeySum, ValueSum, KeyBegins, ValueBegins, HeapsStep, InsertAt, RemoveAt, Place, MovedBy, Newest;
    var ms, ws := MovedBy(c, ps, h, op), Written(c, ps, h, op);
    assert ListOf(ms) == ListOf(ps) && |ms| == |ListOf(ms)|;
    assert forall i :: 0 <= i < |ps| ==> ms[i].entry == ListOf(ps)[i];
  }

  /** A write that gives up takes nothing back. */
  lemma GivesUpGrows(c: Config, es: seq<Entry>, h: Heaps, op: Op)
    requires GivesUp(c, es, h, op)
    ensures HeapsStep(c, es, h, op).key.used >= h.key.used && HeapsStep(c, es, h, op).value == h.value
  {
    hide Find, KeySum, ValueSum;
  }

  /** An accepted write still covers what it was made from, if it did before. */
  lemma SourceCovered(c: Config, es: seq<Entry>, h: Heaps, op: Op, n: nat)
    requires Covers(h, es) && (op.Set? || op.Del?) && !Refused(c, es, op) && n <= |es|
    ensures Covers(HeapsStep(c, es, h, op), es[..n])
  {
    hide Less, Find, KeySum, ValueSum, Refused;
    GivesUpIsRefused(c, es, h, op);
    SumsMonotone(es, n);
  }
}
