/**
 What the store means: a map from key to its last values, newest first, with
 three capacities.  Keys and values are in stored form (with their NUL).
 */
module Spec {
  import opened KeyOrder

  type Dict = map<Bytes, seq<Bytes>>

  datatype Config = Config(items: nat, keyBytes: nat, valueBytes: nat, maxVer: nat)

  /** Return codes.  `Stray` marks a lookup whose version is below 1: the source
      then reads a cell outside the item's own slots. */
  datatype Code = Ok | Overflow | NotFound | NotFoundValue | ExceedMaximum | Stray

  datatype Op =
    | Set(key: Bytes, value: Bytes)
    | Del(key: Bytes)
    | Get(key: Bytes, version: int)
    | GetValues(key: Bytes)

  datatype Reply = Reply(code: Code, values: seq<Bytes>)

  /** Bytes taken by a list of values. */
  function ValuesLen(vs: seq<Bytes>): nat {
    if vs == [] then 0 else |vs[0]| + ValuesLen(vs[1..])
  }

  function KeyWeight(key: Bytes, vs: seq<Bytes>): nat {
    |key|
  }

  function ValueWeight(key: Bytes, vs: seq<Bytes>): nat {
    ValuesLen(vs)
  }

  /** The sum of a weight over a map, in any order. */
  ghost function Sum(m: Dict, w: (Bytes, seq<Bytes>) -> nat): nat
    decreases |m|
  {
    if m == map[] then 0
    else
      var k :| k in m;
      w(k, m[k]) + Sum(m - {k}, w)
  }

  /** Any key may be taken out first. */
  lemma {:induction false} SumSplit(m: Dict, w: (Bytes, seq<Bytes>) -> nat, k: Bytes)
    requires k in m
    ensures Sum(m, w) == w(k, m[k]) + Sum(m - {k}, w)
    decreases |m|
  {
    var first :| first in m && Sum(m, w) == w(first, m[first]) + Sum(m - {first}, w);
    if first != k {
      SumSplit(m - {first}, w, k);
      SumSplit(m - {k}, w, first);
      assert m - {first} - {k} == m - {k} - {first};
    }
  }

  /** Replacing the values of a key exchanges its weight. */
  lemma SumPut(m: Dict, w: (Bytes, seq<Bytes>) -> nat, k: Bytes, vs: seq<Bytes>)
    ensures Sum(m[k := vs], w) == Sum(m, w) - (if k in m then w(k, m[k]) else 0) + w(k, vs)
  {
    SumSplit(m[k := vs], w, k);
    assert m[k := vs] - {k} == m - {k};
    if k in m {
      SumSplit(m, w, k);
    } else {
      assert m - {k} == m;
    }
  }

  lemma SizePut(m: Dict, k: Bytes, vs: seq<Bytes>)
    ensures |m[k := vs]| == |m| + if k in m then 0 else 1
  {
    assert m[k := vs].Keys == m.Keys + {k};
    assert |m[k := vs]| == |m[k := vs].Keys| && |m| == |m.Keys|;
  }

  /** Live bytes of the key heap and of the value heap. */
  ghost function KeyBytes(m: Dict): nat {
    Sum(m, KeyWeight)
  }

  ghost function ValueBytes(m: Dict): nat {
    Sum(m, ValueWeight)
  }

  /** A new key needs an item and room beside the live keys. */
  ghost predicate KeyFits(c: Config, m: Dict, k: Bytes) {
    k in m || (|m| < c.items && KeyBytes(m) + |k| <= c.keyBytes)
  }

  /** A set fits when its key does and the value has room beside every retained
      value. */
  ghost predicate Fits(c: Config, m: Dict, k: Bytes, v: Bytes) {
    KeyFits(c, m, k) && ValueBytes(m) + |v| <= c.valueBytes
  }

  /** The newest value in front, the oldest dropped beyond `maxVer`. */
  function Newest<T>(maxVer: nat, v: T, older: seq<T>): seq<T> {
    var all := [v] + older;
    if |all| <= maxVer then all else all[..maxVer]
  }

  function Versions(m: Dict, k: Bytes): seq<Bytes> {
    if k in m then m[k] else []
  }

  ghost function Step(c: Config, m: Dict, op: Op): (Reply, Dict) {
    match op
    case Set(key, value) =>
      var k, v := Stored(key), Stored(value);
      if Fits(c, m, k, v)
      then (Reply(Ok, []), m[k := Newest(c.maxVer, v, Versions(m, k))])
      else (Reply(Overflow, []), m)
    case Del(key) =>
      if Stored(key) in m then (Reply(Ok, []), m - {Stored(key)}) else (Reply(NotFound, []), m)
    case Get(key, version) =>
      (LookUp(c, m, Stored(key), version), m)
    case GetValues(key) =>
      (if Stored(key) in m then Reply(Ok, m[Stored(key)]) else Reply(NotFound, []), m)
  }

  function LookUp(c: Config, m: Dict, k: Bytes, version: int): Reply {
    if c.maxVer < version then Reply(ExceedMaximum, [])
    else if k !in m then Reply(NotFound, [])
    else if |m[k]| < version then Reply(NotFoundValue, [])
    else if version < 1 then Reply(Stray, [])
    else Reply(Ok, [m[k][version - 1]])
  }

  /** The map after a run. */
  ghost function After(c: Config, m: Dict, ops: seq<Op>): Dict {
    if ops == [] then m
    else Step(c, After(c, m, ops[..|ops| - 1]), ops[|ops| - 1]).1
  }

  /** The replies of a run. */
  ghost function Replies(c: Config, m: Dict, ops: seq<Op>): seq<Reply> {
    if ops == [] then []
    else
      var before := ops[..|ops| - 1];
      Replies(c, m, before) + [Step(c, After(c, m, before), ops[|ops| - 1]).0]
  }

  /** A write that succeeds and so is published. */
  ghost predicate Publishes(c: Config, m: Dict, op: Op) {
    match op
    case Set(key, value) => Fits(c, m, Stored(key), Stored(value))
    case Del(key) => Stored(key) in m
    case _ => false
  }

  /** No write among the first `n` operations of a run is published. */
  ghost predicate Unpublished(c: Config, m: Dict, ops: seq<Op>, n: nat)
    requires n <= |ops|
  {
    forall i :: 0 <= i < n ==> !Publishes(c, After(c, m, ops[..i]), ops[i])
  }

  // ---------- the value heap ----------

  /** How much of the active value half is used, and which half that is. */
  datatype Heap = Heap(used: nat, half: nat) {
    function Other(): nat {
      if half == 1 then 2 else 1
    }
  }

  /** The heap after an operation, and the halves a compaction copies into during
      it.  A compaction begins when the free tail is too short for the value; it
      is completed when the live values leave room. */
  ghost function HeapStep(c: Config, m: Dict, h: Heap, op: Op): (Heap, seq<nat>) {
    match op
    case Set(key, value) =>
      var k, v := Stored(key), Stored(value);
      if !KeyFits(c, m, k) then (h, [])
      else if h.used + |v| <= c.valueBytes then (Heap(h.used + |v|, h.half), [])
      else if Fits(c, m, k, v) then (Heap(ValueBytes(m) + |v|, h.Other()), [h.Other()])
      else (h, [h.Other()])
    case _ => (h, [])
  }

  ghost function HeapAfter(c: Config, m: Dict, h: Heap, ops: seq<Op>): Heap {
    if ops == [] then h
    else
      var before := ops[..|ops| - 1];
      HeapStep(c, After(c, m, before), HeapAfter(c, m, h, before), ops[|ops| - 1]).0
  }

  /** The halves the compactions of a run copy into, in order. */
  ghost function Purges(c: Config, m: Dict, h: Heap, ops: seq<Op>): seq<nat> {
    if ops == [] then []
    else
      var before := ops[..|ops| - 1];
      Purges(c, m, h, before) + HeapStep(c, After(c, m, before), HeapAfter(c, m, h, before), ops[|ops| - 1]).1
  }

  // ---------- the key heap ----------

  /** The key heap after an operation, and the halves a compaction copies into during
      it.  A key stored in the free tail stays used when its value is refused; a
      compaction is taken back then. */
  ghost function KeyHeapStep(c: Config, m: Dict, h: Heap, op: Op): (Heap, seq<nat>) {
    match op
    case Set(key, value) =>
      var k, v := Stored(key), Stored(value);
      if k in m || |m| >= c.items then (h, [])
      else if h.used + |k| <= c.keyBytes then (Heap(h.used + |k|, h.half), [])
      else if Fits(c, m, k, v) then (Heap(KeyBytes(m) + |k|, h.Other()), [h.Other()])
      else (h, [h.Other()])
    case _ => (h, [])
  }

  ghost function KeyHeapAfter(c: Config, m: Dict, h: Heap, ops: seq<Op>): Heap {
    if ops == [] then h
    else
      var before := ops[..|ops| - 1];
      KeyHeapStep(c, After(c, m, before), KeyHeapAfter(c, m, h, before), ops[|ops| - 1]).0
  }

  /** The halves the key compactions of a run copy into, in order. */
  ghost function KeyPurges(c: Config, m: Dict, h: Heap, ops: seq<Op>): seq<nat> {
    if ops == [] then []
    else
      var before := ops[..|ops| - 1];
      KeyPurges(c, m, h, before)
      + KeyHeapStep(c, After(c, m, before), KeyHeapAfter(c, m, h, before), ops[|ops| - 1]).1
  }

  lemma KeyHeapSnoc(c: Config, m: Dict, h: Heap, ops: seq<Op>, op: Op)
    ensures var step := KeyHeapStep(c, After(c, m, ops), KeyHeapAfter(c, m, h, ops), op);
            && KeyHeapAfter(c, m, h, ops + [op]) == step.0
            && KeyPurges(c, m, h, ops + [op]) == KeyPurges(c, m, h, ops) + step.1
  {
    hide KeyHeapStep, After;
    assert (ops + [op])[..|ops + [op]| - 1] == ops;
  }

  lemma HeapSnoc(c: Config, m: Dict, h: Heap, ops: seq<Op>, op: Op)
    ensures var step := HeapStep(c, After(c, m, ops), HeapAfter(c, m, h, ops), op);
            && HeapAfter(c, m, h, ops + [op]) == step.0
            && Purges(c, m, h, ops + [op]) == Purges(c, m, h, ops) + step.1
  {
    hide HeapStep, After;
    assert (ops + [op])[..|ops + [op]| - 1] == ops;
  }

  /** Operation `i` of a run begins a compaction while `half` is not the active
      half. */
  ghost predicate PurgedAt(c: Config, m: Dict, h: Heap, ops: seq<Op>, half: nat, i: int) {
    && 0 <= i < |ops|
    && var before := HeapAfter(c, m, h, ops[..i]);
       before.half != half && HeapStep(c, After(c, m, ops[..i]), before, ops[i]).1 != []
  }

  /** Over every run a half is copied into exactly when a compaction begins while it
      is the snapshot half. */
  lemma {:induction false} PurgesExact(c: Config, m: Dict, h: Heap, ops: seq<Op>, half: nat)
    requires (h.half == 1 || h.half == 2) && (half == 1 || half == 2)
    ensures var last := HeapAfter(c, m, h, ops); last.half == 1 || last.half == 2
    ensures half in Purges(c, m, h, ops) <==> exists i :: PurgedAt(c, m, h, ops, half, i)
    decreases |ops|
  {
    hide After, KeyFits, Fits, ValueBytes;
    if ops != [] {
      var before, n := ops[..|ops| - 1], |ops| - 1;
      PurgesExact(c, m, h, before, half);
      assert forall i :: 0 <= i <= n ==> before[..i] == ops[..i];
      forall i
        ensures PurgedAt(c, m, h, ops, half, i)
                <==> PurgedAt(c, m, h, before, half, i) || (i == n && PurgedAt(c, m, h, ops, half, n))
      {
      }
      assert half in HeapStep(c, After(c, m, before), HeapAfter(c, m, h, before), ops[n]).1
        <==> PurgedAt(c, m, h, ops, half, n);
    }
  }

  /** The half active at the start is not among the first compaction's targets. */
  lemma {:induction false} FirstPurge(c: Config, m: Dict, h: Heap, ops: seq<Op>)
    ensures Purges(c, m, h, ops) == [] ==> HeapAfter(c, m, h, ops).half == h.half
    ensures Purges(c, m, h, ops) != [] ==> Purges(c, m, h, ops)[0] == h.Other()
    decreases |ops|
  {
    hide After, KeyFits, Fits, ValueBytes;
    if ops != [] {
      FirstPurge(c, m, h, ops[..|ops| - 1]);
    }
  }

  lemma RunSnoc(c: Config, m: Dict, ops: seq<Op>, op: Op)
    ensures After(c, m, ops + [op]) == Step(c, After(c, m, ops), op).1
    ensures Replies(c, m, ops + [op]) == Replies(c, m, ops) + [Step(c, After(c, m, ops), op).0]
  {
    assert (ops + [op])[..|ops + [op]| - 1] == ops;
  }

  lemma {:induction false} RunJoin(c: Config, m: Dict, ops: seq<Op>, more: seq<Op>)
    ensures After(c, m, ops + more) == After(c, After(c, m, ops), more)
    ensures Replies(c, m, ops + more) == Replies(c, m, ops) + Replies(c, After(c, m, ops), more)
    decreases |more|
  {
    hide Step;
    if more == [] {
      assert ops + more == ops;
    } else {
      var less, last := more[..|more| - 1], more[|more| - 1];
      RunJoin(c, m, ops, less);
      assert more == less + [last] && ops + more == (ops + less) + [last];
      RunSnoc(c, m, ops + less, last);
      RunSnoc(c, After(c, m, ops), less, last);
    }
  }

  /** Every value accepted for `k` since `k` was last inserted, newest first. */
  ghost function Accepted(c: Config, m: Dict, ops: seq<Op>, k: Bytes): seq<Bytes> {
    if ops == [] then []
    else
      var before, op := ops[..|ops| - 1], ops[|ops| - 1];
      var earlier := Accepted(c, m, before, k);
      if op.Set? && Stored(op.key) == k && Fits(c, After(c, m, before), k, Stored(op.value))
      then [Stored(op.value)] + earlier
      else if op.Del? && Stored(op.key) == k then []
      else earlier
  }

  /** Version history over every run: a key holds exactly the most recent
      accepted values since its insertion, at most `maxVer` of them. */
  lemma {:induction false} VersionHistory(c: Config, ops: seq<Op>, k: Bytes)
    requires c.maxVer >= 1
    ensures var all := Accepted(c, map[], ops, k);
            && (k in After(c, map[], ops) <==> all != [])
            && Versions(After(c, map[], ops), k) == if |all| <= c.maxVer then all else all[..c.maxVer]
    decreases |ops|
  {
    if ops != [] {
      var before, op := ops[..|ops| - 1], ops[|ops| - 1];
      VersionHistory(c, before, k);
      var m, earlier := After(c, map[], before), Accepted(c, map[], before, k);
      if op.Set? && Stored(op.key) == k && Fits(c, m, k, Stored(op.value)) {
        var all := [Stored(op.value)] + earlier;
        assert Newest(c.maxVer, Stored(op.value), Versions(m, k)) == if |all| <= c.maxVer then all else all[..c.maxVer];
      } else if op.Set? {
        StoredInjective(op.key, k);
      }
    }
  }

  lemma StoredInjective(a: Bytes, k: Bytes)
    ensures Stored(a) == k ==> k != [] && a == k[..|k| - 1]
  {
    assert Stored(a)[..|Stored(a)| - 1] == a;
  }

  /** After any run, version `v` of a key is its v-th most recent accepted value. */
  lemma VersionIsRecency(c: Config, ops: seq<Op>, key: Bytes, v: int)
    requires c.maxVer >= 1
    ensures var all := Accepted(c, map[], ops, Stored(key));
            var reply := LookUp(c, After(c, map[], ops), Stored(key), v);
            && (1 <= v <= c.maxVer && v <= |all| ==> reply == Reply(Ok, [all[v - 1]]))
            && (reply.code == Ok ==> 1 <= v <= c.maxVer && v <= |all|)
  {
    VersionHistory(c, ops, Stored(key));
  }

  lemma {:induction false} ReplyAt(c: Config, m: Dict, ops: seq<Op>, i: nat)
    requires i < |ops|
    ensures |Replies(c, m, ops)| == |ops|
    ensures Replies(c, m, ops)[i] == Step(c, After(c, m, ops[..i]), ops[i]).0
    decreases |ops|
  {
    hide Step;
    var before, n := ops[..|ops| - 1], |ops| - 1;
    if n > 0 {
      ReplyAt(c, m, before, if i < n then i else 0);
    }
    if i < n {
      assert before[..i] == ops[..i];
    }
  }

  /** Every lookup of every run from an empty store is answered from the accepted
      values before it, the v-th most recent for version v.  Only for versions
      below 1, which name no value, it strays. */
  lemma LookUpAnswers(c: Config, ops: seq<Op>, i: nat)
    requires c.maxVer >= 1 && i < |ops| && ops[i].Get?
    ensures |Replies(c, map[], ops)| == |ops|
    ensures var all, v := Accepted(c, map[], ops[..i], Stored(ops[i].key)), ops[i].version;
            Replies(c, map[], ops)[i]
            == if v > c.maxVer then Reply(ExceedMaximum, [])
               else if all == [] then Reply(NotFound, [])
               else if v > |all| then Reply(NotFoundValue, [])
               else if v < 1 then Reply(Stray, [])
               else Reply(Ok, [all[v - 1]])
  {
    ReplyAt(c, map[], ops, i);
    VersionHistory(c, ops[..i], Stored(ops[i].key));
  }

  /** The reply for all values, at any point of any run from an empty store: the
      values accepted since insertion, newest first and cut at the maximum. */
  lemma ValuesAnswer(c: Config, ops: seq<Op>, i: nat)
    requires c.maxVer >= 1 && i < |ops| && ops[i].GetValues?
    ensures |Replies(c, map[], ops)| == |ops|
    ensures var all := Accepted(c, map[], ops[..i], Stored(ops[i].key));
            Replies(c, map[], ops)[i]
            == if all == [] then Reply(NotFound, []) else Reply(Ok, if |all| <= c.maxVer then all else all[..c.maxVer])
  {
    ReplyAt(c, map[], ops, i);
    VersionHistory(c, ops[..i], Stored(ops[i].key));
  }

  // ---------- trailing NULs ----------

  predicate EndsInNul(s: Bytes) {
    s != [] && s[|s| - 1] == 0
  }

  ghost predicate AllEndInNul(vs: seq<Bytes>) {
    forall i :: 0 <= i < |vs| ==> EndsInNul(vs[i])
  }

  /** Every key and value ends in byte 0. */
  ghost predicate Terminated(m: Dict) {
    forall k :: k in m ==> EndsInNul(k) && AllEndInNul(m[k])
  }

  /** An operation keeps it so, and what it replies ends in byte 0 as well. */
  lemma TerminatedStep(c: Config, m: Dict, op: Op)
    requires Terminated(m)
    ensures Terminated(Step(c, m, op).1) && AllEndInNul(Step(c, m, op).0.values)
  {
    hide Fits;
  }

  /** Over every run, each value of each reply ends in byte 0. */
  lemma {:induction false} TerminatedRun(c: Config, m: Dict, ops: seq<Op>)
    requires Terminated(m)
    ensures Terminated(After(c, m, ops))
    ensures forall i :: 0 <= i < |Replies(c, m, ops)| ==> AllEndInNul(Replies(c, m, ops)[i].values)
    decreases |ops|
  {
    hide Step, Terminated, AllEndInNul;
    if ops != [] {
      TerminatedRun(c, m, ops[..|ops| - 1]);
      TerminatedStep(c, After(c, m, ops[..|ops| - 1]), ops[|ops| - 1]);
    }
  }

  ghost predicate WithinCapacity(c: Config, m: Dict) {
    |m| <= c.items && KeyBytes(m) <= c.keyBytes && ValueBytes(m) <= c.valueBytes
  }

  lemma PutWithin(c: Config, m: Dict, k: Bytes, v: Bytes)
    requires WithinCapacity(c, m) && Fits(c, m, k, v)
    ensures WithinCapacity(c, m[k := Newest(c.maxVer, v, Versions(m, k))])
  {
    var held := Versions(m, k);
    var vs := Newest(c.maxVer, v, held);
    SumPut(m, KeyWeight, k, vs);
    SumPut(m, ValueWeight, k, vs);
    SizePut(m, k, vs);
    NewestLen(c.maxVer, v, held);
  }

  lemma DelWithin(c: Config, m: Dict, k: Bytes)
    requires WithinCapacity(c, m)
    ensures WithinCapacity(c, m - {k})
  {
    if k in m {
      SumSplit(m, KeyWeight, k);
      SumSplit(m, ValueWeight, k);
      assert (m - {k}).Keys == m.Keys - {k};
    } else {
      assert m - {k} == m;
    }
  }

  /** No run overfills a capacity: items, live key bytes and live value bytes all
      stay within the configuration. */
  lemma {:induction false} CapacitiesHold(c: Config, m: Dict, ops: seq<Op>)
    requires WithinCapacity(c, m)
    ensures WithinCapacity(c, After(c, m, ops))
    decreases |ops|
  {
    if ops != [] {
      var before, op := ops[..|ops| - 1], ops[|ops| - 1];
      CapacitiesHold(c, m, before);
      var n := After(c, m, before);
      if op.Set? && Fits(c, n, Stored(op.key), Stored(op.value)) {
        PutWithin(c, n, Stored(op.key), Stored(op.value));
      } else if op.Del? {
        DelWithin(c, n, Stored(op.key));
      }
    }
  }

  lemma NewestLen(maxVer: nat, v: Bytes, older: seq<Bytes>)
    ensures ValuesLen(Newest(maxVer, v, older)) <= |v| + ValuesLen(older)
  {
    var all := [v] + older;
    assert all[1..] == older;
    if |all| > maxVer {
      ValuesLenPrefix(all, maxVer);
    }
  }

  lemma {:induction false} ValuesLenPrefix(vs: seq<Bytes>, n: nat)
    requires n <= |vs|
    ensures ValuesLen(vs[..n]) <= ValuesLen(vs)
  {
    if n > 0 {
      assert vs[..n][1..] == vs[1..][..n - 1];
      ValuesLenPrefix(vs[1..], n - 1);
    }
  }
}
