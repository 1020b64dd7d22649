/**
 make_snapshot as written: it copies from a pointer in the caller's context that
 only lookups and added keys refresh, not from the half the header selects.

 Two machines run the same operations: the intended one, which is the plain map on
 an ordered list, and the literal one, with two halves of items, the pointer, and
 for each extent the heap half it lies in.  They agree over a run exactly when each
 write of it is safe, which is decided from the operations alone.
 */
module CachedPointer {
  import opened KeyOrder
  import opened Spec
  import opened Image
  import opened Search
  import opened EntryList
  import opened Placement

  // ---------- the literal machine ----------

  /** The two item halves, the header fields, and the half the pointer of the
      context refers to. */
  datatype Index = Index(half1: seq<Placed>, half2: seq<Placed>, id: nat, used: nat, cached: nat, heaps: Heaps) {
    function Half(h: nat): seq<Placed> {
      if h == 1 then half1 else half2
    }

    function Other(): nat {
      if id == 1 then 2 else 1
    }

    predicate Valid(c: Config) {
      && (id == 1 || id == 2) && (cached == 1 || cached == 2) && heaps.Valid()
      && used <= |half1| == |half2| == c.items
    }

    /** The items a write copies.  With a stale pointer source and target are the
        same bytes; such a copy is taken to leave them, in whatever order a memcpy
        moves them, unlike a copy between overlapping places. */
    function Source(): seq<Placed>
      requires used <= |Half(cached)|
    {
      Half(cached)[..used]
    }

    /** The snapshot half filled with `items`, what it held behind them left. */
    function Filled(items: seq<Placed>): Index {
      var whole := items + if |items| <= |Half(Other())| then Half(Other())[|items|..] else [];
      if Other() == 1 then this.(half1 := whole) else this.(half2 := whole)
    }

    function Active(): seq<Placed>
      requires used <= |Half(id)|
    {
      Half(id)[..used]
    }
  }

  /** One operation as written.  A lookup refreshes the pointer, unless its version
      is beyond the maximum: then it returns before.  A write that gives up has
      filled the snapshot half and may have moved the extents in it.  Of the others
      only an added key refreshes the pointer. */
  ghost function LiteralStep(c: Config, x: Index, op: Op): (Reply, Index)
    requires x.Valid(c)
  {
    var from := x.Source();
    var moved, heaps := x.Filled(MovedBy(c, from, x.heaps, op)), HeapsStep(c, ListOf(from), x.heaps, op);
    match op
    case Get(key, version) =>
      (ListStep(c, ListOf(x.Active()), op).0, if version > c.maxVer then x else x.(cached := x.id))
    case GetValues(key) =>
      (ListStep(c, ListOf(x.Active()), op).0, x.(cached := x.id))
    case _ =>
      if GivesUp(c, ListOf(from), x.heaps, op) then
        (Reply(if op.Set? then Overflow else NotFound, []), moved.(heaps := heaps))
      else
        var after := Written(c, from, x.heaps, op);
        (Reply(Code.Ok, []), moved.Filled(after).(id := x.Other(), used := |after|, heaps := heaps,
                                                  cached := if |after| > x.used then x.Other() else x.cached))
  }

  lemma FilledHalves(c: Config, x: Index, items: seq<Placed>)
    requires x.Valid(c) && |items| <= c.items
    ensures x.Filled(items).Valid(c)
    ensures var y := x.Filled(items);
            && y.Half(x.Other())[..|items|] == items && y.Half(x.id) == x.Half(x.id)
            && y.id == x.id && y.used == x.used && y.cached == x.cached && y.heaps == x.heaps
  {
  }

  lemma HeapsStepValid(c: Config, es: seq<Entry>, h: Heaps, op: Op)
    requires h.Valid()
    ensures HeapsStep(c, es, h, op).Valid()
  {
    hide Find, KeySum, ValueSum, GivesUp, KeyBegins, ValueBegins;
  }

  /** The number of items after a write. */
  lemma WrittenSize(c: Config, ps: seq<Placed>, h: Heaps, op: Op)
    requires |ps| <= c.items && (op.Set? || op.Del?) && !GivesUp(c, ListOf(ps), h, op)
    ensures |Written(c, ps, h, op)| <= c.items
  {
    hide Find, KeySum, ValueSum, KeyBegins, ValueBegins;
    assert ListOf(MovedBy(c, ps, h, op)) == ListOf(ps);
    assert |MovedBy(c, ps, h, op)| == |ps|;
  }

  lemma LiteralStepValid(c: Config, x: Index, op: Op)
    requires x.Valid(c)
    ensures LiteralStep(c, x, op).1.Valid(c)
  {
    hide ListStep, HeapsStep, GivesUp, MovedBy, Written;
    var from := x.Source();
    HeapsStepValid(c, ListOf(from), x.heaps, op);
    assert |MovedBy(c, from, x.heaps, op)| == |ListOf(MovedBy(c, from, x.heaps, op))|;
    if (op.Set? || op.Del?) && !GivesUp(c, ListOf(from), x.heaps, op) {
      WrittenSize(c, from, x.heaps, op);
    }
  }

  // ---------- how stale the pointer is ----------

  /** The edit that turned the pointer stale: a key with the values `older` that was
      given `value`, or a deleted entry. */
  datatype Edit = Replaced(key: Bytes, older: seq<Bytes>, value: Bytes) | Deleted(entry: Entry)

  /** Whether the pointer is current, and if not, what list it leads the next write
      to, and where the keys and values of that list lie. */
  datatype Lag = Current | Stale(list: seq<Entry>, edit: Edit, keys: Lie, vals: Lie)

  datatype Track = Track(lag: Lag, heaps: Heaps) {
    function Source(es: seq<Entry>): seq<Entry> {
      if lag.Stale? then lag.list else es
    }
  }

  ghost function LagStep(c: Config, es: seq<Entry>, t: Track, op: Op): Lag {
    var i, kb, vb := Find(es, Stored(op.key), 0, |es|), KeyBegins(c, t.Source(es), t.heaps, op),
                     ValueBegins(c, t.Source(es), t.heaps, op);
    match op
    case Get(key, version) => if version > c.maxVer then t.lag else Current
    case GetValues(key) => Current
    case _ =>
      if t.lag.Stale? then
        if !Refused(c, es, op) then Current
        else t.lag.(keys := if kb then t.lag.keys.Moved() else t.lag.keys,
                    vals := if vb then t.lag.vals.Moved() else t.lag.vals)
      else if Refused(c, es, op) || i < 0 then Current
      else if op.Set? then
        Stale(es, Replaced(es[i].key, es[i].values, Stored(op.value)), Home, if vb then Apart else Home)
      else Stale(es[..|es| - 1], Deleted(es[i]), Home, Home)
  }

  ghost function TrackStep(c: Config, es: seq<Entry>, t: Track, op: Op): Track {
    Track(LagStep(c, es, t, op), HeapsStep(c, t.Source(es), t.heaps, op))
  }

  /** The edit changed something: unless the window was full of the value given, or
      the deleted key was larger than those that remain. */
  ghost predicate EditShows(c: Config, es: seq<Entry>, edit: Edit) {
    match edit
    case Replaced(key, older, value) => !(|older| == c.maxVer && AllAre(older, |older|, value))
    case Deleted(entry) => es != [] && Less(entry.key, es[|es| - 1].key)
  }

  predicate AllAre(vs: seq<Bytes>, n: nat, v: Bytes)
    requires n <= |vs|
  {
    forall t :: 0 <= t < n ==> vs[t] == v
  }

  /** A write on the stale list has the effect meant: the edit before it left things
      as they were; or it is refused with the edit and without it; or it concerns the
      replaced key alone, deleting it, or setting it where all but the last of the
      values retained were the one of the edit. */
  ghost predicate Harmless(c: Config, es: seq<Entry>, stale: seq<Entry>, edit: Edit, op: Op) {
    || !EditShows(c, es, edit)
    || (Refused(c, es, op) && Refused(c, stale, op))
    || (&& edit.Replaced? && Stored(op.key) == edit.key
        && !Refused(c, es, op) && !Refused(c, stale, op)
        && (op.Set? ==> |edit.older| >= c.maxVer - 1 >= 0 && AllAre(edit.older, c.maxVer - 1, edit.value)))
  }

  /** A write from a stale pointer is safe when it has the effect meant and, if it is
      accepted, all it publishes lies in the heap halves active then. */
  ghost predicate SafeWrite(c: Config, es: seq<Entry>, t: Track, op: Op)
    requires t.lag.Stale?
  {
    && Harmless(c, es, t.lag.list, t.lag.edit, op)
    && (Refused(c, t.lag.list, op) || Arrives(c, t.lag.list, t.heaps, t.lag.keys, t.lag.vals, op))
  }

  ghost predicate Safe(c: Config, es: seq<Entry>, t: Track, op: Op) {
    (op.Set? || op.Del?) && t.lag.Stale? ==> SafeWrite(c, es, t, op)
  }

  /** Each entry has from one to the maximal number of values. */
  predicate Windowed(c: Config, es: seq<Entry>) {
    forall i :: 0 <= i < |es| ==> 1 <= |es[i].values| <= c.maxVer
  }

  /** What the stale list is, in terms of the edit. */
  ghost predicate LagIs(c: Config, es: seq<Entry>, lag: Lag) {
    lag.Stale? ==>
      && Ordered(lag.list) && |lag.list| == |es|
      && match lag.edit
         case Replaced(key, older, value) => exists i :: ReplacedAt(c, es, lag.list, key, older, value, i)
         case Deleted(entry) => exists i :: 0 <= i <= |es| && DeletedAt(es, lag.list, entry, i)
  }

  ghost predicate ReplacedAt(c: Config, es: seq<Entry>, list: seq<Entry>, key: Bytes, older: seq<Bytes>, value: Bytes,
                             i: int) {
    && Holds(es, key, i) && 1 <= |older| <= c.maxVer
    && list == es[i := Entry(key, older)] && es[i].values == Newest(c.maxVer, value, older)
  }

  /** `list` is what precedes the last of the entries of `es` and `entry`. */
  ghost predicate DeletedAt(es: seq<Entry>, list: seq<Entry>, entry: Entry, i: int)
    requires 0 <= i <= |es|
  {
    Ordered(InsertAt(es, i, entry)) && list == InsertAt(es, i, entry)[..|es|]
  }

  /** Both lists refuse the write alike, or both make the same of it. */
  ghost predicate SameEffect(c: Config, es: seq<Entry>, stale: seq<Entry>, op: Op) {
    && ListStep(c, stale, op).0 == ListStep(c, es, op).0
    && (!Refused(c, es, op) ==> ListStep(c, stale, op).1 == ListStep(c, es, op).1)
  }

  // ---------- histories ----------

  lemma {:induction false} ShiftedSame(v: Bytes, older: seq<Bytes>, n: nat)
    requires n <= |older|
    ensures ([v] + older)[..n] == older[..n] <==> AllAre(older, n, v)
    decreases n
  {
    var all := [v] + older;
    if n > 0 {
      ShiftedSame(v, older, n - 1);
      assert all[..n] == all[..n - 1] + [all[n - 1]] && older[..n] == older[..n - 1] + [older[n - 1]];
    }
  }

  /** A replaced key looks as before exactly when its window was full of the value
      it got again. */
  lemma SameHistory(maxVer: nat, v: Bytes, older: seq<Bytes>)
    requires 1 <= |older| <= maxVer
    ensures Newest(maxVer, v, older) == older <==> |older| == maxVer && AllAre(older, |older|, v)
  {
    ShiftedSame(v, older, |older|);
    assert older[..|older|] == older;
  }

  /** A further value leaves no trace of the one before it exactly when it pushes
      nothing but that one out of sight. */
  lemma SameNext(maxVer: nat, v: Bytes, w: Bytes, older: seq<Bytes>)
    requires 1 <= |older| <= maxVer
    ensures Newest(maxVer, w, older) == Newest(maxVer, w, Newest(maxVer, v, older))
            <==> |older| >= maxVer - 1 && AllAre(older, maxVer - 1, v)
  {
    var cur := Newest(maxVer, v, older);
    if |older| >= maxVer - 1 {
      ShiftedSame(v, older, maxVer - 1);
      NewestCut(maxVer, w, older);
      NewestCut(maxVer, w, cur);
      assert cur[..maxVer - 1] == ([v] + older)[..maxVer - 1];
      assert ([w] + older[..maxVer - 1])[1..] == older[..maxVer - 1];
      assert ([w] + cur[..maxVer - 1])[1..] == cur[..maxVer - 1];
    } else {
      assert |Newest(maxVer, w, older)| == |older| + 1 < |Newest(maxVer, w, cur)|;
    }
  }

  lemma NewestCut(maxVer: nat, w: Bytes, older: seq<Bytes>)
    requires |older| >= maxVer - 1 >= 0
    ensures Newest(maxVer, w, older) == [w] + older[..maxVer - 1]
  {
  }

  // ---------- when a stale write does no harm ----------

  lemma {:induction false} FindSameKeys(a: seq<Entry>, b: seq<Entry>, k: Bytes, low: nat, high: nat)
    requires |a| == |b| && low <= high <= |a| && forall t :: 0 <= t < |a| ==> a[t].key == b[t].key
    ensures Find(a, k, low, high) == Find(b, k, low, high)
    decreases high - low
  {
    hide Less;
    if low < high {
      var mid := (low + high) / 2;
      FindSameKeys(a, b, k, mid + 1, high);
      FindSameKeys(a, b, k, low, mid);
    }
  }

  lemma {:induction false} PlaceSameKeys(a: seq<Entry>, b: seq<Entry>, k: Bytes)
    requires |a| == |b| && forall t :: 0 <= t < |a| ==> a[t].key == b[t].key
    ensures Place(a, k) == Place(b, k)
  {
    hide Less;
    if a != [] {
      PlaceSameKeys(a[1..], b[1..], k);
    }
  }

  /** After a replaced key: the lists differ in the values at `i` only. */
  lemma ReplacedExact(c: Config, es: seq<Entry>, i: nat, older: seq<Bytes>, op: Op)
    requires Ordered(es) && i < |es| && es[i].values != older && (op.Set? || op.Del?)
    ensures var stale := es[i := Entry(es[i].key, older)];
            SameEffect(c, es, stale, op)
            <==> || (Refused(c, es, op) && Refused(c, stale, op))
                 || (&& Stored(op.key) == es[i].key && !Refused(c, es, op) && !Refused(c, stale, op)
                     && (op.Set? ==> Newest(c.maxVer, Stored(op.value), older)
                                     == Newest(c.maxVer, Stored(op.value), es[i].values)))
  {
    hide Less, Ordered, Find, KeySum, ValueSum, Newest, InsertAt, RemoveAt, Place;
    var stale := es[i := Entry(es[i].key, older)];
    var k := Stored(op.key);
    FindSameKeys(es, stale, k, 0, |es|);
    PlaceSameKeys(es, stale, k);
    FindOrdered(es, k);
    var j := Find(es, k, 0, |es|);
    if !Refused(c, es, op) && !Refused(c, stale, op) {
      if es[i].key == k {
        FindAt(es, k, i);
      } else if op.Del? {
        assert RemoveAt(es, j)[if i < j then i else i - 1] == es[i];
        assert RemoveAt(stale, j)[if i < j then i else i - 1] == stale[i];
      } else if j < 0 {
        var at := if i < Place(es, k) then i else i + 1;
        assert InsertAt(es, Place(es, k), Entry(k, [Stored(op.value)]))[at] == es[i];
        assert InsertAt(stale, Place(es, k), Entry(k, [Stored(op.value)]))[at] == stale[i];
      } else {
        assert Put(c, es, k, Stored(op.value))[i] == es[i];
        assert Put(c, stale, k, Stored(op.value))[i] == stale[i];
      }
    }
    if es[i].key == k && !Refused(c, es, op) && !Refused(c, stale, op) {
      if op.Set? {
        var v := Stored(op.value);
        UpdatedSame(es, i, stale[i], Entry(k, Newest(c.maxVer, v, older)), Entry(k, Newest(c.maxVer, v, es[i].values)));
      } else {
        RemovedSame(es, i, stale[i]);
      }
    }
  }

  lemma UpdatedSame(es: seq<Entry>, i: nat, e: Entry, x: Entry, y: Entry)
    requires i < |es|
    ensures es[i := e][i := x] == es[i := y] <==> x == y
  {
    assert es[i := e][i := x][i] == x && es[i := y][i] == y;
    if x == y {
      assert es[i := e][i := x] == es[i := y];
    }
  }

  lemma RemovedSame(es: seq<Entry>, i: nat, e: Entry)
    requires i < |es|
    ensures RemoveAt(es[i := e], i) == RemoveAt(es, i)
  {
  }

  lemma FindAt(es: seq<Entry>, k: Bytes, i: nat)
    requires Ordered(es) && Holds(es, k, i)
    ensures Find(es, k, 0, |es|) == i
  {
    hide Less, Find;
    FindOrdered(es, k);
    OrderedDistinct(es);
  }

  /** After a deleted entry with a larger one behind it: the list holds the deleted
      key and lacks the last.  Nothing but a refusal comes out alike. */
  lemma DeletedExact(c: Config, es: seq<Entry>, stale: seq<Entry>, entry: Entry, i: nat, op: Op)
    requires Ordered(es) && Ordered(stale) && i < |es| == |stale| && (op.Set? || op.Del?)
    requires DeletedAt(es, stale, entry, i)
    ensures SameEffect(c, es, stale, op) <==> Refused(c, es, op) && Refused(c, stale, op)
  {
    hide Less, Ordered, KeySum, ValueSum, Newest, Place, Find, DeletedAt;
    if !Refused(c, es, op) && !Refused(c, stale, op) {
      var n, k := |es|, Stored(op.key);
      var last := es[n - 1].key;
      LastMissing(es, stale, entry, i);
      FindOrdered(es, k);
      FindOrdered(stale, k);
      HasAfter(c, es, op, last);
      LacksAfter(c, stale, op, last);
    }
  }

  lemma LastMissing(es: seq<Entry>, stale: seq<Entry>, entry: Entry, i: nat)
    requires i < |es| == |stale| && DeletedAt(es, stale, entry, i)
    ensures Lacks(stale, es[|es| - 1].key)
  {
    hide Less, InsertAt;
    var whole := InsertAt(es, i, entry);
    OrderedDistinct(whole);
    assert whole[|es|] == es[|es| - 1];
    forall t | 0 <= t < |stale|
      ensures stale[t].key != es[|es| - 1].key
    {
      assert stale[t] == whole[t];
    }
  }

  /** Unless it deletes `z`, an accepted write keeps it. */
  lemma HasAfter(c: Config, es: seq<Entry>, op: Op, z: Bytes)
    requires es != [] && es[|es| - 1].key == z && (op.Set? || op.Del?) && !Refused(c, es, op)
    ensures op.Set? || Stored(op.key) != z ==> !Lacks(ListStep(c, es, op).1, z)
    ensures op.Set? && Stored(op.key) == z && Find(es, z, 0, |es|) >= 0 ==> |ListStep(c, es, op).1| == |es|
  {
    hide Less, KeySum, ValueSum, Newest, Place, InsertAt, RemoveAt;
    var n, k, after := |es|, Stored(op.key), ListStep(c, es, op).1;
    var j := Find(es, k, 0, |es|);
    if op.Del? {
      if k != z {
        assert after[if n - 1 < j then n - 1 else n - 2] == es[n - 1];
      }
    } else if j < 0 {
      assert after[if n - 1 < Place(es, k) then n - 1 else n] == es[n - 1];
    } else {
      assert after[n - 1].key == es[n - 1].key;
    }
  }

  /** A list that lacks `z` gets it only by adding it. */
  lemma LacksAfter(c: Config, es: seq<Entry>, op: Op, z: Bytes)
    requires Lacks(es, z) && (op.Set? || op.Del?) && !Refused(c, es, op)
    ensures op.Set? && Stored(op.key) == z ==> |ListStep(c, es, op).1| == |es| + 1
    ensures op.Set? && Stored(op.key) != z ==> Lacks(ListStep(c, es, op).1, z)
    ensures op.Del? ==> Stored(op.key) != z && Lacks(ListStep(c, es, op).1, z)
  {
    hide Less, KeySum, ValueSum, Newest, Place, InsertAt, RemoveAt;
  }

  /** A write on the list a stale pointer leads to has the effect meant exactly when
      it is harmless. */
  lemma HarmlessExact(c: Config, es: seq<Entry>, lag: Lag, op: Op)
    requires Ordered(es) && lag.Stale? && LagIs(c, es, lag) && (op.Set? || op.Del?)
    ensures Harmless(c, es, lag.list, lag.edit, op) <==> SameEffect(c, es, lag.list, op)
  {
    hide Less, Ordered, Find, KeySum, ValueSum, Newest, InsertAt, RemoveAt, Place, ListStep, Refused, AllAre;
    match lag.edit {
      case Replaced(key, older, value) =>
        var i: nat :| ReplacedAt(c, es, lag.list, key, older, value, i);
        SameHistory(c.maxVer, value, older);
        if EditShows(c, es, lag.edit) {
          ReplacedExact(c, es, i, older, op);
          if op.Set? {
            SameNext(c.maxVer, value, Stored(op.value), older);
          }
        } else {
          assert lag.list == es;
        }
      case Deleted(entry) =>
        var i: nat :| i <= |es| && DeletedAt(es, lag.list, entry, i);
        DeletedShows(c, es, lag.list, entry, i);
        if i < |es| {
          DeletedExact(c, es, lag.list, entry, i, op);
        }
    }
  }

  lemma DeletedShows(c: Config, es: seq<Entry>, stale: seq<Entry>, entry: Entry, i: nat)
    requires i <= |es| && DeletedAt(es, stale, entry, i)
    ensures EditShows(c, es, Deleted(entry)) <==> i < |es|
    ensures i == |es| ==> stale == es
  {
    hide Less, InsertAt;
    var whole := InsertAt(es, i, entry);
    if i < |es| {
      assert whole[i] == entry && whole[|es|] == es[|es| - 1];
    } else if es != [] {
      assert whole[|es|] == entry && whole[|es| - 1] == es[|es| - 1];
      LessTrichotomy(entry.key, es[|es| - 1].key);
      LessTrichotomy(es[|es| - 1].key, entry.key);
    }
  }

  // ---------- one operation of both machines ----------

  /** While they agree: the index shows the intended list and lies in the active
      halves, the heaps are as tracked, and the lag says where the pointer leads. */
  ghost predicate Together(c: Config, x: Index, es: seq<Entry>, t: Track) {
    && x.Valid(c) && x.heaps == t.heaps && Ordered(es) && Windowed(c, es) && LagIs(c, es, t.lag)
    && Stands(x.Active(), es, t.heaps, Home, Home)
    && match t.lag
       case Current => x.cached == x.id
       case Stale(list, edit, keys, vals) => x.cached == x.Other() && Stands(x.Source(), list, t.heaps, keys, vals)
  }

  /** The machines give the same reply and have the same index after it, all of it
      in the active heap halves. */
  ghost predicate Alike(c: Config, x: Index, es: seq<Entry>, op: Op)
    requires x.Valid(c)
  {
    LiteralStepValid(c, x, op);
    var (reply, y) := LiteralStep(c, x, op);
    && reply == ListStep(c, es, op).0
    && ListOf(y.Active()) == ListStep(c, es, op).1 && AllHome(y.Active(), y.heaps)
  }

  lemma ReplyCode(c: Config, es: seq<Entry>, op: Op)
    requires op.Set? || op.Del?
    ensures ListStep(c, es, op).0
            == Reply(if !Refused(c, es, op) then Code.Ok else if op.Set? then Overflow else NotFound, [])
  {
    hide Find, KeySum, ValueSum, Less;
  }

  /** A write that gives up, from the list the pointer leads to. */
  lemma LiteralRefused(c: Config, x: Index, list: seq<Entry>, op: Op)
    requires x.Valid(c) && (op.Set? || op.Del?) && list == ListOf(x.Source()) && GivesUp(c, list, x.heaps, op)
    ensures var (reply, y) := LiteralStep(c, x, op);
            && y.Valid(c) && reply.code == (if op.Set? then Overflow else NotFound) && reply.values == []
            && y.Active() == x.Active() && y.heaps == HeapsStep(c, list, x.heaps, op)
            && y.cached == x.cached && y.id == x.id
            && (x.cached != x.id ==> y.Source() == MovedBy(c, x.Source(), x.heaps, op))
  {
    hide ListStep, HeapsStep, GivesUp, MovedBy, Written;
    var ms := MovedBy(c, x.Source(), x.heaps, op);
    assert |ms| == |ListOf(ms)| == x.used;
    HeapsStepValid(c, list, x.heaps, op);
    FilledHalves(c, x, ms);
  }

  /** A write that goes through. */
  lemma LiteralWrite(c: Config, x: Index, list: seq<Entry>, op: Op)
    requires x.Valid(c) && (op.Set? || op.Del?) && list == ListOf(x.Source()) && !GivesUp(c, list, x.heaps, op)
    ensures var (reply, y) := LiteralStep(c, x, op);
            && y.Valid(c) && reply == Reply(Code.Ok, [])
            && y.id == x.Other() && y.Active() == Written(c, x.Source(), x.heaps, op)
            && y.Half(y.Other()) == x.Half(x.id) && y.heaps == HeapsStep(c, list, x.heaps, op)
            && y.cached == if y.used > x.used then y.id else x.cached
  {
    hide ListStep, HeapsStep, GivesUp, MovedBy, Written;
    var ms, after := MovedBy(c, x.Source(), x.heaps, op), Written(c, x.Source(), x.heaps, op);
    assert |ms| == |ListOf(ms)| == x.used;
    HeapsStepValid(c, list, x.heaps, op);
    FilledHalves(c, x, ms);
    WrittenSize(c, x.Source(), x.heaps, op);
    FilledHalves(c, x.Filled(ms), after);
  }

  /** What it makes of a list that lies as said. */
  lemma LiteralAccepted(c: Config, x: Index, list: seq<Entry>, h: Heaps, keys: Lie, vals: Lie, op: Op)
    requires x.Valid(c) && x.heaps == h && (op.Set? || op.Del?) && c.maxVer >= 1 && Ordered(list)
    requires Stands(x.Source(), list, h, keys, vals) && !Refused(c, list, op)
    ensures var (reply, y) := LiteralStep(c, x, op);
            var after := ListStep(c, list, op).1;
            && y.Valid(c) && reply == Reply(Code.Ok, []) && y.heaps == HeapsStep(c, list, h, op)
            && y.id == x.Other() && y.used == |after| && ListOf(y.Active()) == after
            && (AllHome(y.Active(), y.heaps) <==> Arrives(c, list, h, keys, vals, op))
            && (Arrives(c, list, h, keys, vals, op) ==> Stands(y.Active(), after, y.heaps, Home, Home))
            && y.Half(y.Other()) == x.Half(x.id)
            && y.cached == if |after| > x.used then y.id else x.cached
  {
    hide Ordered, ListStep, Refused, GivesUp, LiteralStep, Covers, HeapsStep, Written, Stands, AllHome, Arrives;
    StandsList(x.Source(), list, h, keys, vals);
    GivesUpIsRefused(c, list, h, op);
    LiteralWrite(c, x, list, op);
    WrittenStands(c, x.Source(), list, h, keys, vals, op);
    var y := LiteralStep(c, x, op).1;
    assert y.used == |y.Active()| == |ListOf(y.Active())|;
  }

  lemma NoLag(c: Config, es: seq<Entry>)
    ensures LagIs(c, es, Current)
  {
  }

  lemma WindowedAfter(c: Config, es: seq<Entry>, op: Op)
    requires Windowed(c, es) && c.maxVer >= 1
    ensures Windowed(c, ListStep(c, es, op).1)
  {
    hide Less, Find, KeySum, ValueSum, Place;
  }

  /** The lag an edit leaves behind. */
  lemma EditLag(c: Config, es: seq<Entry>, h: Heaps, op: Op)
    requires Ordered(es) && (op.Set? || op.Del?) && !Refused(c, es, op)
    requires Ordered(ListStep(c, es, op).1) && Windowed(c, es)
    ensures var lag, n := LagStep(c, es, Track(Current, h), op), |ListStep(c, es, op).1|;
            && LagIs(c, ListStep(c, es, op).1, lag)
            && (lag.Stale? <==> Find(es, Stored(op.key), 0, |es|) >= 0)
            && (lag.Stale? ==> lag.list == es[..n] && n <= |es| && lag.keys == Home
                               && lag.vals == if ValueBegins(c, es, h, op) then Apart else Home)
            && (lag.Current? ==> n > |es|)
  {
    hide Less, Ordered, KeySum, ValueSum, Place, Newest, KeyBegins, InsertAt;
    var i, after := Find(es, Stored(op.key), 0, |es|), ListStep(c, es, op).1;
    if i >= 0 {
      if op.Set? {
        assert es[..|es|] == es;
        assert es == after[i := Entry(es[i].key, es[i].values)];
        assert ReplacedAt(c, after, es, es[i].key, es[i].values, Stored(op.value), i);
      } else {
        RemoveInsert(es, i);
        PrefixOrdered(es, |es| - 1);
        assert DeletedAt(after, es[..|es| - 1], es[i], i);
      }
    }
  }

  lemma RemoveInsert(es: seq<Entry>, i: nat)
    requires i < |es|
    ensures InsertAt(RemoveAt(es, i), i, es[i]) == es
  {
  }

  lemma PrefixOrdered(es: seq<Entry>, n: nat)
    requires Ordered(es) && n <= |es|
    ensures Ordered(es[..n])
  {
    hide Less;
  }

  lemma CurrentRefused(c: Config, x: Index, es: seq<Entry>, h: Heaps, op: Op)
    requires Together(c, x, es, Track(Current, h)) && (op.Set? || op.Del?) && Refused(c, es, op)
    ensures Alike(c, x, es, op)
    ensures Together(c, LiteralStep(c, x, op).1, ListStep(c, es, op).1, TrackStep(c, es, Track(Current, h), op))
  {
    hide Less, Ordered, Find, ListStep, Refused, GivesUp, LiteralStep, LagIs, Covers, HeapsStep, Written, MovedBy, ItemLies,
         KeyBegins, ValueBegins, ItemHome;
    GivesUpIsRefused(c, es, h, op);
    RefusedStays(c, es, op);
    ReplyCode(c, es, op);
    LiteralRefused(c, x, es, op);
    StillStands(c, x.Active(), es, es, h, op);
    NoLag(c, es);
  }

  lemma CurrentAccepted(c: Config, x: Index, es: seq<Entry>, h: Heaps, op: Op)
    requires Together(c, x, es, Track(Current, h)) && (op.Set? || op.Del?) && c.maxVer >= 1 && !Refused(c, es, op)
    ensures Alike(c, x, es, op)
    ensures Together(c, LiteralStep(c, x, op).1, ListStep(c, es, op).1, TrackStep(c, es, Track(Current, h), op))
  {
    hide Less, Ordered, Find, ListStep, Refused, LiteralStep, LagIs, HeapsStep, KeyBegins, ValueBegins, LagStep, Stands,
         AllHome, Arrives, Windowed, Covers, Distinct, MapOf, Step;
    var n := |ListStep(c, es, op).1|;
    StandsList(x.Active(), es, h, Home, Home);
    OrderedDistinct(es);
    ListStepIsStep(c, es, op);
    ReplyCode(c, es, op);
    HomeArrives(c, es, h, op);
    WindowedAfter(c, es, op);
    LiteralAccepted(c, x, es, h, Home, Home, op);
    EditLag(c, es, h, op);
    if Find(es, Stored(op.key), 0, |es|) >= 0 {
      LeftStands(c, x.Source(), es, h, op, n);
      assert LiteralStep(c, x, op).1.Source() == x.Source()[..n];
    }
  }

  /** A write from a current pointer. */
  lemma CurrentWrite(c: Config, x: Index, es: seq<Entry>, h: Heaps, op: Op)
    requires Together(c, x, es, Track(Current, h)) && (op.Set? || op.Del?) && c.maxVer >= 1
    ensures Alike(c, x, es, op)
    ensures Together(c, LiteralStep(c, x, op).1, ListStep(c, es, op).1, TrackStep(c, es, Track(Current, h), op))
  {
    hide Less, Ordered, Find, ListStep, Refused, LiteralStep, LagIs, HeapsStep, LagStep, Stands, Alike, Together;
    if Refused(c, es, op) {
      CurrentRefused(c, x, es, h, op);
    } else {
      CurrentAccepted(c, x, es, h, op);
    }
  }

  /** A write from a stale pointer that the list it leads to refuses. */
  lemma StaleRefused(c: Config, x: Index, es: seq<Entry>, t: Track, op: Op)
    requires Together(c, x, es, t) && t.lag.Stale? && (op.Set? || op.Del?) && Refused(c, t.lag.list, op)
    ensures Alike(c, x, es, op) <==> Refused(c, es, op)
    ensures Refused(c, es, op) ==>
              Together(c, LiteralStep(c, x, op).1, ListStep(c, es, op).1, TrackStep(c, es, t, op))
  {
    hide Less, Ordered, Find, ListStep, Refused, GivesUp, LiteralStep, Covers, HeapsStep, MovedBy, KeyBegins, ValueBegins,
         Stands, AllHome, Windowed, Lie.Moved, AllAre, ReplacedAt, DeletedAt;
    var list, h := t.lag.list, t.heaps;
    StandsList(x.Active(), es, h, Home, Home);
    StandsList(x.Source(), list, h, t.lag.keys, t.lag.vals);
    GivesUpIsRefused(c, list, h, op);
    RefusedStays(c, es, op);
    ReplyCode(c, es, op);
    LiteralRefused(c, x, list, op);
    StillStands(c, x.Active(), es, list, h, op);
    RefusedStands(c, x.Source(), list, h, t.lag.keys, t.lag.vals, op);
  }

  /** One that this list accepts. */
  lemma StaleAccepted(c: Config, x: Index, es: seq<Entry>, t: Track, op: Op)
    requires Together(c, x, es, t) && t.lag.Stale? && (op.Set? || op.Del?) && c.maxVer >= 1 && !Refused(c, t.lag.list, op)
    ensures Alike(c, x, es, op)
            <==> && SameEffect(c, es, t.lag.list, op)
                 && Arrives(c, t.lag.list, t.heaps, t.lag.keys, t.lag.vals, op)
    ensures Alike(c, x, es, op) ==>
              Together(c, LiteralStep(c, x, op).1, ListStep(c, es, op).1, TrackStep(c, es, t, op))
  {
    hide Less, Ordered, Find, ListStep, Refused, LiteralStep, Covers, HeapsStep, KeyBegins, ValueBegins, Arrives,
         Stands, AllHome, Windowed, Lie.Moved, AllAre, ReplacedAt, DeletedAt, Distinct, MapOf, Step;
    var list, h := t.lag.list, t.heaps;
    OrderedDistinct(es);
    ListStepIsStep(c, es, op);
    ReplyCode(c, es, op);
    ReplyCode(c, list, op);
    WindowedAfter(c, es, op);
    LiteralAccepted(c, x, list, h, t.lag.keys, t.lag.vals, op);
    if !Refused(c, es, op) {
      WriteSize(c, es, op);
      WriteSize(c, list, op);
    }
  }

  /** The exact condition: from where the machines agree, a write from a stale
      pointer keeps them in agreement exactly when it is safe. */
  lemma SafeWriteExact(c: Config, x: Index, es: seq<Entry>, t: Track, op: Op)
    requires Together(c, x, es, t) && t.lag.Stale? && (op.Set? || op.Del?) && c.maxVer >= 1
    ensures Alike(c, x, es, op) <==> SafeWrite(c, es, t, op)
    ensures SafeWrite(c, es, t, op) ==>
              Together(c, LiteralStep(c, x, op).1, ListStep(c, es, op).1, TrackStep(c, es, t, op))
  {
    hide Less, Ordered, Find, ListStep, Refused, LiteralStep, HeapsStep, Arrives, Stands, AllHome, Harmless, LagIs, Alike,
         LagStep, TrackStep;
    HarmlessExact(c, es, t.lag, op);
    if Refused(c, t.lag.list, op) {
      ReplyCode(c, es, op);
      ReplyCode(c, t.lag.list, op);
      StaleRefused(c, x, es, t, op);
    } else {
      StaleAccepted(c, x, es, t, op);
    }
  }

  /** One operation from where the machines agree: they agree after it exactly when
      it is safe. */
  lemma StepExact(c: Config, x: Index, es: seq<Entry>, t: Track, op: Op)
    requires Together(c, x, es, t) && c.maxVer >= 1
    ensures Alike(c, x, es, op) <==> Safe(c, es, t, op)
    ensures Safe(c, es, t, op) ==>
              Together(c, LiteralStep(c, x, op).1, ListStep(c, es, op).1, TrackStep(c, es, t, op))
  {
    hide Less, Ordered, Find, KeySum, ValueSum, ListFits, LagIs, SafeWrite, ReadList, Windowed, Stands, Covers;
    if op.Set? || op.Del? {
      if t.lag.Current? {
        CurrentWrite(c, x, es, t.heaps, op);
      } else {
        SafeWriteExact(c, x, es, t, op);
      }
    } else {
      StandsList(x.Active(), es, t.heaps, Home, Home);
      NoLag(c, es);
    }
  }

  // ---------- whole runs ----------

  function Start(c: Config): (x: Index)
    ensures x.Valid(c)
  {
    var blank := seq(c.items, _ => Placed(Entry([], []), In(1), []));
    Index(blank, blank, 1, 0, 1, Heaps(Heap(0, 1), Heap(0, 1)))
  }

  ghost function LiteralRun(c: Config, ops: seq<Op>): (x: Index)
    ensures x.Valid(c)
  {
    if ops == [] then Start(c)
    else
      var before := LiteralRun(c, ops[..|ops| - 1]);
      LiteralStepValid(c, before, ops[|ops| - 1]);
      LiteralStep(c, before, ops[|ops| - 1]).1
  }

  ghost function IntendedRun(c: Config, ops: seq<Op>): seq<Entry> {
    if ops == [] then [] else ListStep(c, IntendedRun(c, ops[..|ops| - 1]), ops[|ops| - 1]).1
  }

  ghost function TrackAfter(c: Config, ops: seq<Op>): Track {
    if ops == [] then Track(Current, Heaps(Heap(0, 1), Heap(0, 1)))
    else
      var before := ops[..|ops| - 1];
      TrackStep(c, IntendedRun(c, before), TrackAfter(c, before), ops[|ops| - 1])
  }

  /** Operation `i` gets the same reply from both machines and leaves them with the
      same index, all of it in the active heap halves. */
  ghost predicate AgreesAt(c: Config, ops: seq<Op>, i: int) {
    && 0 <= i < |ops|
    && Alike(c, LiteralRun(c, ops[..i]), IntendedRun(c, ops[..i]), ops[i])
  }

  ghost predicate SafeAt(c: Config, ops: seq<Op>, i: int) {
    && 0 <= i < |ops|
    && Safe(c, IntendedRun(c, ops[..i]), TrackAfter(c, ops[..i]), ops[i])
  }

  ghost predicate Agrees(c: Config, ops: seq<Op>) {
    forall i :: 0 <= i < |ops| ==> AgreesAt(c, ops, i)
  }

  ghost predicate SafeRun(c: Config, ops: seq<Op>) {
    forall i :: 0 <= i < |ops| ==> SafeAt(c, ops, i)
  }

  /** The intended machine runs as the plain map does. */
  lemma {:induction false} IntendedIsSpec(c: Config, ops: seq<Op>)
    requires c.maxVer >= 1
    ensures Ordered(IntendedRun(c, ops)) && Distinct(IntendedRun(c, ops))
    ensures MapOf(IntendedRun(c, ops)) == After(c, map[], ops)
    decreases |ops|
  {
    hide ListStep, Step, Ordered, Distinct, Less;
    if ops == [] {
      EmptyList();
    } else {
      IntendedIsSpec(c, ops[..|ops| - 1]);
      ListStepIsStep(c, IntendedRun(c, ops[..|ops| - 1]), ops[|ops| - 1]);
    }
  }

  lemma EmptyList()
    ensures Ordered([]) && Distinct([]) && MapOf([]) == map[]
  {
  }

  /** Over every run the source as written gives the replies and the index it is
      meant to exactly when each of the writes is safe. */
  lemma {:induction false} LiteralRunExact(c: Config, ops: seq<Op>)
    requires c.maxVer >= 1
    ensures Agrees(c, ops) <==> SafeRun(c, ops)
    ensures SafeRun(c, ops) ==> Together(c, LiteralRun(c, ops), IntendedRun(c, ops), TrackAfter(c, ops))
    decreases |ops|
  {
    hide ListStep, LiteralStep, TrackStep, Safe, Alike, Together, Ordered, Less;
    if ops == [] {
      StartTogether(c);
    } else {
      var before, n := ops[..|ops| - 1], |ops| - 1;
      LiteralRunExact(c, before);
      assert forall i :: 0 <= i <= n ==> before[..i] == ops[..i];
      assert forall i :: 0 <= i < n ==> (AgreesAt(c, ops, i) <==> AgreesAt(c, before, i));
      assert forall i :: 0 <= i < n ==> (SafeAt(c, ops, i) <==> SafeAt(c, before, i));
      assert Agrees(c, ops) <==> Agrees(c, before) && AgreesAt(c, ops, n);
      assert SafeRun(c, ops) <==> SafeRun(c, before) && SafeAt(c, ops, n);
      if SafeRun(c, before) {
        StepExact(c, LiteralRun(c, before), IntendedRun(c, before), TrackAfter(c, before), ops[n]);
      }
    }
  }

  lemma StartTogether(c: Config)
    ensures Together(c, LiteralRun(c, []), IntendedRun(c, []), TrackAfter(c, []))
  {
    EmptyList();
  }

  // ---------- what goes wrong ----------

  /** A stored key set from a current pointer: the pointer is left at what was there
      before. */
  lemma SetFromCurrent(c: Config, x: Index, es: seq<Entry>, h: Heaps, i: nat, key: Bytes, v: Bytes)
    requires Together(c, x, es, Track(Current, h)) && Holds(es, Stored(key), i) && c.maxVer >= 1
    requires ListFits(c, es, Stored(key), Stored(v))
    ensures Find(es, Stored(key), 0, |es|) == i && Ordered(es)
    ensures x.Valid(c)
    ensures var (reply, y) := LiteralStep(c, x, Set(key, v));
            && y.Valid(c) && reply == Reply(Code.Ok, []) && y.heaps == HeapsStep(c, es, h, Set(key, v))
            && ListOf(y.Active()) == es[i := Entry(es[i].key, Newest(c.maxVer, Stored(v), es[i].values))]
            && y.cached == y.Other() && y.Source() == x.Active()
            && Stands(y.Source(), es, y.heaps, Home, if ValueBegins(c, es, h, Set(key, v)) then Apart else Home)
  {
    hide Less, Ordered, Find, KeySum, ValueSum, Newest, ListFits, LiteralStep, ItemLies, HeapsStep, AllHome, Arrives,
         Stands, ValueBegins, Covers, LagIs, Windowed;
    FindAt(es, Stored(key), i);
    StandsList(x.Active(), es, h, Home, Home);
    LiteralAccepted(c, x, es, h, Home, Home, Set(key, v));
    LeftStands(c, x.Active(), es, h, Set(key, v), |es|);
    assert x.Active()[..|es|] == x.Active() && es[..|es|] == es;
    var y := LiteralStep(c, x, Set(key, v)).1;
    assert y.Source() == x.Active();
  }

  /** Two sets of a stored key with nothing in between but a lookup beyond the
      maximal version, which does not refresh the pointer: the first is lost. */
  lemma LostUpdate(c: Config, x: Index, es: seq<Entry>, h: Heaps, i: nat, key: Bytes, a: Bytes, b: Bytes)
    requires Together(c, x, es, Track(Current, h)) && Holds(es, Stored(key), i) && c.maxVer >= 1
    requires ListFits(c, es, Stored(key), Stored(a)) && ListFits(c, es, Stored(key), Stored(b))
    ensures var y := LiteralStep(c, x, Set(key, a)).1;
            && y.Valid(c)
            && var z := LiteralStep(c, y, Get(key, c.maxVer + 1)).1;
               && z.Valid(c) && ListOf(y.Active()) == es[i := Entry(es[i].key, Newest(c.maxVer, Stored(a), es[i].values))]
               && LiteralStep(c, z, Set(key, b)).1.Valid(c)
               && ListOf(LiteralStep(c, z, Set(key, b)).1.Active())
                  == es[i := Entry(es[i].key, Newest(c.maxVer, Stored(b), es[i].values))]
  {
    hide Less, Ordered, Find, KeySum, ValueSum, Newest, ListFits, LiteralStep, Together, Stands, HeapsStep, AllHome,
         Arrives, ValueBegins;
    SetFromCurrent(c, x, es, h, i, key, a);
    var y := LiteralStep(c, x, Set(key, a)).1;
    BeyondIsNothing(c, y, key);
    LiteralAccepted(c, y, es, y.heaps, Home, if ValueBegins(c, es, h, Set(key, a)) then Apart else Home, Set(key, b));
  }

  /** Where the two machines are together. */
  lemma TogetherStands(c: Config, x: Index, es: seq<Entry>, t: Track)
    requires Together(c, x, es, t)
    ensures x.Valid(c) && x.heaps == t.heaps && Ordered(es) && Stands(x.Active(), es, t.heaps, Home, Home)
  {
  }

  lemma BeyondIsNothing(c: Config, x: Index, key: Bytes)
    requires x.Valid(c)
    ensures LiteralStep(c, x, Get(key, c.maxVer + 1)).1 == x
  {
    hide MovedBy, Written, HeapsStep;
  }

  /** After the last key is deleted its item is left over behind the index.  The
      next new key raises the count before it flips the half: in between the
      deleted key is back. */
  lemma AddWindowRevives(c: Config, x: Index, es: seq<Entry>, h: Heaps, key: Bytes)
    requires Together(c, x, es, Track(Current, h)) && es != [] && es[|es| - 1].key == Stored(key)
    ensures var y := LiteralStep(c, x, Del(key)).1;
            && y.Valid(c) && y.used == |es| - 1 && ListOf(y.Active()) == es[..|es| - 1]
            && ListOf(y.Half(y.id)[..y.used + 1]) == es
  {
    hide Less, Ordered, Find, LagIs;
    var n := |es|;
    FindAt(es, Stored(key), n - 1);
    LiteralStepValid(c, x, Del(key));
  }

  predicate AllValuesIn(ps: seq<Placed>, half: nat) {
    forall t, j :: 0 <= t < |ps| && 0 <= j < |ps[t].values| ==> ps[t].values[j] == In(half)
  }

  /** A set of a stored key whose value is compacted to the other half, and then its
      deletion: replies and entries are as meant, but the index published is copied
      from the stale half, and every value in it lies in the half that is no longer
      active. */
  lemma SetThenDelete(c: Config, x: Index, es: seq<Entry>, h: Heaps, i: nat, key: Bytes, v: Bytes)
    requires Together(c, x, es, Track(Current, h)) && Holds(es, Stored(key), i) && |es| > 1 && c.maxVer >= 1
    requires ListFits(c, es, Stored(key), Stored(v)) && h.value.used + |Stored(v)| > c.valueBytes
    ensures var y := LiteralStep(c, x, Set(key, v)).1;
            && y.Valid(c)
            && var (reply, z) := LiteralStep(c, y, Del(key));
               && z.Valid(c) && reply == Reply(Code.Ok, []) && ListOf(z.Active()) == RemoveAt(es, i)
               && AllValuesIn(z.Active(), z.heaps.value.Other()) && !AllHome(z.Active(), z.heaps)
  {
    hide Less, Ordered, Find, KeySum, ValueSum, Newest, ListFits, LiteralStep, ItemLies, Together, Stands, Alike, HeapsStep,
         AllHome, Arrives, RemoveAt;
    TogetherStands(c, x, es, Track(Current, h));
    StandsList(x.Active(), es, h, Home, Home);
    SetFromCurrent(c, x, es, h, i, key, v);
    HalvesAfter(c, es, h, Set(key, v));
    var y := LiteralStep(c, x, Set(key, v)).1;
    StandsList(y.Source(), es, y.heaps, Home, Apart);
    GivesUpIsRefused(c, es, y.heaps, Del(key));
    LiteralAccepted(c, y, es, y.heaps, Home, Apart, Del(key));
    DeleteLeaves(c, es, y.heaps, Home, Apart, Del(key));
    LiteralWrite(c, y, es, Del(key));
    ValuesIn(x.Active(), es, h);
    DeleteKeepsPlaces(c, y.Source(), y.heaps, Del(key), h.value.half);
  }

  /** The other way there: a refused set from a stale pointer has its values moved
      in the very items the next write takes.  That deletes the replaced key, and
      publishes values in the half that is not active. */
  lemma RefusedThenDelete(c: Config, x: Index, es: seq<Entry>, t: Track, op: Op, key: Bytes)
    requires Together(c, x, es, t) && t.lag.Stale? && t.lag.edit.Replaced? && Stored(key) == t.lag.edit.key
    requires op.Set? && Refused(c, es, op) && Refused(c, t.lag.list, op) && ValueBegins(c, t.lag.list, t.heaps, op)
    requires c.maxVer >= 1 && |es| > 1
    ensures Safe(c, es, t, op)
    ensures var y := LiteralStep(c, x, op).1;
            && y.Valid(c)
            && var (reply, z) := LiteralStep(c, y, Del(key));
               && z.Valid(c) && reply == Reply(Code.Ok, []) && ListOf(z.Active()) == ListStep(c, es, Del(key)).1
               && !AllHome(z.Active(), z.heaps)
  {
    hide Less, Ordered, Find, KeySum, ValueSum, ListFits, LiteralStep, Stands, Alike, HeapsStep, AllHome, Arrives, ListStep,
         KeyBegins, ValueBegins, LagIs, Together;
    TogetherStale(c, x, es, t);
    SafeWriteExact(c, x, es, t, op);
    RefusedStays(c, es, op);
    AlikeList(c, x, es, op);
    var y, lag, h := LiteralStep(c, x, op).1, LagStep(c, es, t, op), HeapsStep(c, t.lag.list, t.heaps, op);
    TogetherStale(c, y, es, Track(lag, h));
    HoldsReplaced(c, es, lag, Del(key));
    HarmlessExact(c, es, lag, Del(key));
    ReplyCode(c, es, Del(key));
    LiteralAccepted(c, y, lag.list, h, lag.keys, lag.vals, Del(key));
    DeleteLeaves(c, lag.list, h, lag.keys, lag.vals, Del(key));
  }

  lemma HoldsReplaced(c: Config, es: seq<Entry>, lag: Lag, op: Op)
    requires lag.Stale? && lag.edit.Replaced? && LagIs(c, es, lag) && Ordered(es)
    requires op.Del? && Stored(op.key) == lag.edit.key
    ensures !Refused(c, es, op) && !Refused(c, lag.list, op)
  {
    hide Less, Ordered, Find, Newest;
    var i: nat :| ReplacedAt(c, es, lag.list, lag.edit.key, lag.edit.older, lag.edit.value, i);
    FindAt(es, lag.edit.key, i);
    FindAt(lag.list, lag.edit.key, i);
  }

  lemma AlikeList(c: Config, x: Index, es: seq<Entry>, op: Op)
    requires x.Valid(c) && Alike(c, x, es, op)
    ensures LiteralStep(c, x, op).1.Valid(c)
  {
    hide LiteralStep, ListStep;
    LiteralStepValid(c, x, op);
  }

  lemma TogetherStale(c: Config, x: Index, es: seq<Entry>, t: Track)
    requires Together(c, x, es, t) && t.lag.Stale?
    ensures x.Valid(c) && x.heaps == t.heaps && Ordered(es) && Ordered(t.lag.list) && LagIs(c, es, t.lag)
    ensures |t.lag.list| == |es| && Stands(x.Source(), t.lag.list, t.heaps, t.lag.keys, t.lag.vals)
  {
  }

  lemma DeleteLeaves(c: Config, es: seq<Entry>, h: Heaps, keys: Lie, vals: Lie, op: Op)
    requires op.Del? && |es| > 1 && vals != Home
    ensures HeapsStep(c, es, h, op) == h && !Arrives(c, es, h, keys, vals, op)
  {
  }

  lemma ValuesIn(ps: seq<Placed>, es: seq<Entry>, h: Heaps)
    requires Stands(ps, es, h, Home, Home)
    ensures AllValuesIn(ps, h.value.half)
  {
    forall t, j | 0 <= t < |ps| && 0 <= j < |ps[t].values|
      ensures ps[t].values[j] == In(h.value.half)
    {
      assert ItemLies(ps[t], h, Home, Home);
    }
  }

  lemma DeleteKeepsPlaces(c: Config, ps: seq<Placed>, h: Heaps, op: Op, half: nat)
    requires op.Del? && AllValuesIn(ps, half)
    ensures AllValuesIn(Written(c, ps, h, op), half)
  {
    hide Find, RemoveAt;
  }

  /** In general: a refused set has moved the keys or values of the list a stale pointer
      leads to.  The next write agrees exactly if it has the effect meant and, when it is
      accepted, compacts again what was moved, so that it follows it there. */
  lemma AfterRefusedSet(c: Config, x: Index, es: seq<Entry>, t: Track, op: Op, next: Op)
    requires Together(c, x, es, t) && t.lag.Stale? && t.lag.keys == t.lag.vals == Home && c.maxVer >= 1
    requires op.Set? && Refused(c, es, op) && Refused(c, t.lag.list, op) && (next.Set? || next.Del?)
    ensures LiteralStep(c, x, op).1.Valid(c)
    ensures var list, to := t.lag.list, HeapsStep(c, t.lag.list, t.heaps, op);
            Alike(c, LiteralStep(c, x, op).1, es, next)
            <==> && Harmless(c, es, list, t.lag.edit, next)
                 && (!Refused(c, list, next) ==>
                       && (KeysRemain(list, next) && KeyBegins(c, list, t.heaps, op) ==> KeyBegins(c, list, to, next))
                       && (ValuesRemain(c, list, next) && ValueBegins(c, list, t.heaps, op) ==>
                             ValueBegins(c, list, to, next)))
  {
    hide Less, Ordered, Find, ListFits, LiteralStep, Stands, Alike, HeapsStep, ListStep, KeyBegins, ValueBegins, LagIs,
         Together, Harmless, ValuesRemain, KeysRemain, Refused;
    TogetherStale(c, x, es, t);
    HarmlessRefused(c, es, t.lag.list, t.lag.edit, op);
    SafeWriteExact(c, x, es, t, op);
    RefusedStays(c, es, op);
    AlikeList(c, x, es, op);
    SafeWriteExact(c, LiteralStep(c, x, op).1, es, TrackStep(c, es, t, op), next);
  }

  lemma HarmlessRefused(c: Config, es: seq<Entry>, stale: seq<Entry>, edit: Edit, op: Op)
    requires Refused(c, es, op) && Refused(c, stale, op)
    ensures Harmless(c, es, stale, edit, op)
  {
    hide Refused;
  }

  /** And a replaced key: the next write agrees exactly if it has the effect meant and,
      when it is accepted, none of the values of before remains that a compaction by the
      first has left in the other half. */
  lemma AfterSet(c: Config, x: Index, es: seq<Entry>, h: Heaps, op: Op, next: Op)
    requires Together(c, x, es, Track(Current, h)) && c.maxVer >= 1 && op.Set? && (next.Set? || next.Del?)
    requires !Refused(c, es, op) && Find(es, Stored(op.key), 0, |es|) >= 0
    ensures LiteralStep(c, x, op).1.Valid(c)
    ensures var after, e := ListStep(c, es, op).1, es[Find(es, Stored(op.key), 0, |es|)];
            Alike(c, LiteralStep(c, x, op).1, after, next)
            <==> && Harmless(c, after, es, Replaced(e.key, e.values, Stored(op.value)), next)
                 && (Refused(c, es, next) || !ValuesRemain(c, es, next) || !ValueBegins(c, es, h, op))
  {
    hide Less, Ordered, Find, ListFits, LiteralStep, Stands, Alike, HeapsStep, ListStep, KeyBegins, ValueBegins, LagIs,
         Together, Harmless, ValuesRemain, KeysRemain, Refused;
    TogetherStands(c, x, es, Track(Current, h));
    CurrentWrite(c, x, es, h, op);
    AlikeList(c, x, es, op);
    SafeWriteExact(c, LiteralStep(c, x, op).1, ListStep(c, es, op).1, TrackStep(c, es, Track(Current, h), op), next);
  }

  /** After a deleted key the next write agrees exactly if it has the effect meant. */
  lemma AfterDelete(c: Config, x: Index, es: seq<Entry>, h: Heaps, op: Op, next: Op)
    requires Together(c, x, es, Track(Current, h)) && c.maxVer >= 1 && op.Del? && (next.Set? || next.Del?)
    requires Find(es, Stored(op.key), 0, |es|) >= 0
    ensures LiteralStep(c, x, op).1.Valid(c)
    ensures var after, e := ListStep(c, es, op).1, es[Find(es, Stored(op.key), 0, |es|)];
            Alike(c, LiteralStep(c, x, op).1, after, next)
            <==> Harmless(c, after, es[..|es| - 1], Deleted(e), next)
  {
    hide Less, Ordered, Find, ListFits, LiteralStep, Stands, Alike, HeapsStep, ListStep, KeyBegins, ValueBegins, LagIs,
         Together, Harmless, ValuesRemain, KeysRemain;
    TogetherStands(c, x, es, Track(Current, h));
    CurrentWrite(c, x, es, h, op);
    AlikeList(c, x, es, op);
    SafeWriteExact(c, LiteralStep(c, x, op).1, ListStep(c, es, op).1, TrackStep(c, es, Track(Current, h), op), next);
  }
}
