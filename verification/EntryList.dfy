/**
 The operations of the plain map, on the ordered list of entries an index holds.
 */
module EntryList {
  import opened KeyOrder
  import opened Spec
  import opened Image
  import opened Search
  import opened Refinement

  ghost predicate ListFits(c: Config, es: seq<Entry>, k: Bytes, v: Bytes) {
    && (Find(es, k, 0, |es|) >= 0 || (|es| < c.items && KeySum(es) + |k| <= c.keyBytes))
    && ValueSum(es) + |v| <= c.valueBytes
  }

  /** The number of leading entries below `k`: where a new key goes. */
  ghost function Place(es: seq<Entry>, k: Bytes): (pos: nat)
    ensures pos <= |es|
  {
    if es == [] || !Less(es[0].key, k) then 0 else 1 + Place(es[1..], k)
  }

  /** The entry list after a set that fits. */
  ghost function Put(c: Config, es: seq<Entry>, k: Bytes, v: Bytes): seq<Entry> {
    var i := Find(es, k, 0, |es|);
    if i < 0 then InsertAt(es, Place(es, k), Entry(k, [v]))
    else es[i := Entry(es[i].key, Newest(c.maxVer, v, es[i].values))]
  }

  ghost function ReadList(c: Config, es: seq<Entry>, k: Bytes, version: int): Reply {
    var i := Find(es, k, 0, |es|);
    if c.maxVer < version then Reply(ExceedMaximum, [])
    else if i < 0 then Reply(NotFound, [])
    else if |es[i].values| < version then Reply(NotFoundValue, [])
    else if version < 1 then Reply(Stray, [])
    else Reply(Code.Ok, [es[i].values[version - 1]])
  }

  /** A write that the list refuses: a set that does not fit, a delete of an absent
      key. */
  ghost predicate Refused(c: Config, es: seq<Entry>, op: Op) {
    match op
    case Set(key, value) => !ListFits(c, es, Stored(key), Stored(value))
    case Del(key) => Find(es, Stored(key), 0, |es|) < 0
    case _ => false
  }

  /** One operation of the intended machine. */
  ghost function ListStep(c: Config, es: seq<Entry>, op: Op): (Reply, seq<Entry>) {
    var i := Find(es, Stored(op.key), 0, |es|);
    match op
    case Set(key, value) =>
      if Refused(c, es, op) then (Reply(Overflow, []), es)
      else (Reply(Code.Ok, []), Put(c, es, Stored(key), Stored(value)))
    case Del(key) =>
      if Refused(c, es, op) then (Reply(NotFound, []), es) else (Reply(Code.Ok, []), RemoveAt(es, i))
    case Get(key, version) => (ReadList(c, es, Stored(key), version), es)
    case GetValues(key) => (if i < 0 then Reply(NotFound, []) else Reply(Code.Ok, es[i].values), es)
  }

  lemma {:induction false} PlaceSplits(es: seq<Entry>, k: Bytes)
    requires Ordered(es) && Lacks(es, k)
    ensures AllBelow(es, Place(es, k), k) && AllAbove(es, Place(es, k), k)
  {
    hide Less;
    if es != [] {
      LessTrichotomy(es[0].key, k);
      if Less(es[0].key, k) {
        PlaceSplits(es[1..], k);
        forall i | 0 <= i < Place(es, k)
          ensures Less(es[i].key, k)
        {
          assert i > 0 ==> es[i] == es[1..][i - 1];
        }
        forall i | Place(es, k) <= i < |es|
          ensures Less(k, es[i].key)
        {
          assert es[i] == es[1..][i - 1];
        }
      } else {
        AboveSpreads(es, 0, k);
      }
    }
  }

  /** The intended machine is the plain map. */
  lemma ListStepIsStep(c: Config, es: seq<Entry>, op: Op)
    requires Ordered(es) && Distinct(es) && c.maxVer >= 1
    ensures var (reply, after) := ListStep(c, es, op);
            && Ordered(after) && Distinct(after)
            && (reply, MapOf(after)) == Step(c, MapOf(es), op)
  {
    hide Less, Ordered, Distinct, MapOf, Fits, KeyFits, InsertAt, RemoveAt, KeySum, ValueSum, Find, Lacks, Holds, Place;
    var k, i := Stored(op.key), Find(es, Stored(op.key), 0, |es|);
    FindOrdered(es, k);
    LookUpIsMap(es, k, i);
    match op {
      case Set(key, value) =>
        var v := Stored(value);
        FitsIs(c, es, i, k, v);
        if ListFits(c, es, k, v) {
          if i < 0 {
            PlaceSplits(es, k);
            InsertOrdered(es, Place(es, k), Entry(k, [v]));
            OrderedDistinct(InsertAt(es, Place(es, k), Entry(k, [v])));
            InsertIsPut(c, es, Place(es, k), k, v);
          } else {
            UpdateIsPut(c, es, i, k, v);
          }
        }
      case Del(key) =>
        if i >= 0 {
          RemoveIsDel(es, i, k);
        }
      case _ =>
    }
  }

  lemma WriteSize(c: Config, es: seq<Entry>, op: Op)
    requires (op.Set? || op.Del?) && !Refused(c, es, op)
    ensures var i, after := Find(es, Stored(op.key), 0, |es|), ListStep(c, es, op).1;
            |after| == if op.Del? then |es| - 1 else if i < 0 then |es| + 1 else |es|
  {
    hide KeySum, ValueSum, Less;
  }

  lemma RefusedStays(c: Config, es: seq<Entry>, op: Op)
    ensures Refused(c, es, op) ==> ListStep(c, es, op).1 == es
    ensures op.Set? || op.Del? ==> (ListStep(c, es, op).0.code == Code.Ok <==> !Refused(c, es, op))
  {
    hide Less, KeySum, ValueSum, Find;
  }

  /** An accepted write adds at most the bytes it brings. */
  lemma SumsAfter(c: Config, es: seq<Entry>, op: Op)
    requires Ordered(es) && (op.Set? || op.Del?) && !Refused(c, es, op)
    ensures var i, after := Find(es, Stored(op.key), 0, |es|), ListStep(c, es, op).1;
            && KeySum(after) <= KeySum(es) + (if op.Set? && i < 0 then |Stored(op.key)| else 0)
            && ValueSum(after) <= ValueSum(es) + (if op.Set? then |Stored(op.value)| else 0)
  {
    hide Less, Ordered, Find, KeySum, ValueSum, Newest, InsertAt, RemoveAt, Place;
    var k, i := Stored(op.key), Find(es, Stored(op.key), 0, |es|);
    if op.Del? {
      OrderedDistinct(es);
      RemoveSums(es, i);
    } else if i < 0 {
      InsertSums(es, Place(es, k), Entry(k, [Stored(op.value)]));
    } else {
      var v := Stored(op.value);
      ReplaceSums(es, i, Entry(es[i].key, Newest(c.maxVer, v, es[i].values)));
      NewestLen(c.maxVer, v, es[i].values);
    }
  }

  lemma ReplaceSums(es: seq<Entry>, i: nat, e: Entry)
    requires i < |es|
    ensures KeySum(es[i := e]) == KeySum(es) - |es[i].key| + |e.key|
    ensures ValueSum(es[i := e]) == ValueSum(es) - ValuesLen(es[i].values) + ValuesLen(e.values)
  {
    hide KeySum, ValueSum;
    var others := RemoveAt(es, i);
    InsertSums(others, i, e);
    InsertSums(others, i, es[i]);
    assert InsertAt(others, i, e) == es[i := e] && InsertAt(others, i, es[i]) == es;
  }
}
