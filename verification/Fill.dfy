/**
 How full the heaps are, and when they are compacted, over whole runs.
 */
module Fill {
  import opened KeyOrder
  import opened Spec

  // ---------- fill of the value heap ----------

  /** Bytes, NULs included, of the values that the sets of a run bring, and of those
      among them that are accepted. */
  function Offered(ops: seq<Op>): nat {
    if ops == [] then 0
    else
      var op := ops[|ops| - 1];
      Offered(ops[..|ops| - 1]) + if op.Set? then |op.value| + 1 else 0
  }

  ghost function Appended(c: Config, m: Dict, ops: seq<Op>): nat {
    if ops == [] then 0
    else
      var before, op := ops[..|ops| - 1], ops[|ops| - 1];
      Appended(c, m, before)
      + if op.Set? && Step(c, After(c, m, before), op).0.code == Code.Ok then |op.value| + 1 else 0
  }

  lemma AppendedSnoc(c: Config, m: Dict, ops: seq<Op>, op: Op)
    ensures Offered(ops + [op]) == Offered(ops) + if op.Set? then |op.value| + 1 else 0
    ensures Appended(c, m, ops + [op])
            == Appended(c, m, ops)
               + if op.Set? && Step(c, After(c, m, ops), op).0.code == Code.Ok then |op.value| + 1 else 0
  {
    hide Step, After;
    assert (ops + [op])[..|ops|] == ops;
  }

  /** The key of the set is stored, or there is an item and room for it. */
  ghost predicate KeyRoom(c: Config, m: Dict, op: Op) {
    op.Set? && (Stored(op.key) in m || (|m| < c.items && KeyBytes(m) + |op.key| + 1 <= c.keyBytes))
  }

  /** Live bytes are used bytes, in both heaps, after every run. */
  lemma {:induction false} LiveIsUsed(c: Config, m: Dict, keys: Heap, vals: Heap, ops: seq<Op>)
    requires KeyBytes(m) <= keys.used && ValueBytes(m) <= vals.used
    ensures KeyBytes(After(c, m, ops)) <= KeyHeapAfter(c, m, keys, ops).used
    ensures ValueBytes(After(c, m, ops)) <= HeapAfter(c, m, vals, ops).used
    decreases |ops|
  {
    hide Step, HeapStep, KeyHeapStep, KeyBytes, ValueBytes;
    if ops != [] {
      var before := ops[..|ops| - 1];
      LiveIsUsed(c, m, keys, vals, before);
      LiveIsUsedStep(c, After(c, m, before), KeyHeapAfter(c, m, keys, before), HeapAfter(c, m, vals, before),
                     ops[|ops| - 1]);
    }
  }

  lemma LiveIsUsedStep(c: Config, m: Dict, keys: Heap, vals: Heap, op: Op)
    requires KeyBytes(m) <= keys.used && ValueBytes(m) <= vals.used
    ensures KeyBytes(Step(c, m, op).1) <= KeyHeapStep(c, m, keys, op).0.used
    ensures ValueBytes(Step(c, m, op).1) <= HeapStep(c, m, vals, op).0.used
  {
    hide Sum, Newest;
    if op.Set? {
      var k, v := Stored(op.key), Stored(op.value);
      var vs := Newest(c.maxVer, v, Versions(m, k));
      SumPut(m, KeyWeight, k, vs);
      SumPut(m, ValueWeight, k, vs);
      NewestLen(c.maxVer, v, Versions(m, k));
    } else if op.Del? && Stored(op.key) in m {
      SumSplit(m, KeyWeight, Stored(op.key));
      SumSplit(m, ValueWeight, Stored(op.key));
    }
  }

  /** The two heaps after the first part of a run, then the second. */
  lemma {:induction false} HeapJoin(c: Config, m: Dict, h: Heap, ops: seq<Op>, more: seq<Op>)
    ensures var m', h' := After(c, m, ops), HeapAfter(c, m, h, ops);
            && HeapAfter(c, m, h, ops + more) == HeapAfter(c, m', h', more)
            && Purges(c, m, h, ops + more) == Purges(c, m, h, ops) + Purges(c, m', h', more)
    decreases |more|
  {
    hide Step, HeapStep;
    if more == [] {
      assert ops + more == ops;
    } else {
      var less, last := more[..|more| - 1], more[|more| - 1];
      HeapJoin(c, m, h, ops, less);
      RunJoin(c, m, ops, less);
      assert more == less + [last] && ops + more == (ops + less) + [last];
      HeapSnoc(c, m, h, ops + less, last);
      HeapSnoc(c, After(c, m, ops), HeapAfter(c, m, h, ops), less, last);
    }
  }

  /** While no compaction begins, accepted values are appended one behind the other and
      nothing else moves the fill. */
  lemma {:induction false} FillGrows(c: Config, m: Dict, h: Heap, ops: seq<Op>)
    requires ValueBytes(m) <= h.used && Purges(c, m, h, ops) == []
    ensures HeapAfter(c, m, h, ops) == Heap(h.used + Appended(c, m, ops), h.half)
    decreases |ops|
  {
    hide Step, HeapStep, KeyBytes, ValueBytes;
    if ops != [] {
      var before, op := ops[..|ops| - 1], ops[|ops| - 1];
      assert ops == before + [op];
      HeapSnoc(c, m, h, before, op);
      AppendedSnoc(c, m, before, op);
      FillGrows(c, m, h, before);
      LiveIsUsed(c, m, Heap(KeyBytes(m), 1), h, before);
      FillStep(c, After(c, m, before), HeapAfter(c, m, h, before), op);
    }
  }

  /** One operation on a covered heap, by its reply. */
  lemma FillStep(c: Config, m: Dict, h: Heap, op: Op)
    requires ValueBytes(m) <= h.used
    ensures var (after, purges) := HeapStep(c, m, h, op);
            var ok := op.Set? && Step(c, m, op).0.code == Code.Ok;
            && (purges != [] <==> KeyRoom(c, m, op) && h.used + |op.value| + 1 > c.valueBytes)
            && (purges == [] ==> after == if ok then Heap(h.used + |op.value| + 1, h.half) else h)
            && (purges != [] ==> after == if ok then Heap(ValueBytes(m) + |op.value| + 1, h.Other()) else h)
  {
    hide KeyBytes, ValueBytes;
  }

  /** The moment at which the first compaction of a run begins: when a set that its key
      does not stop meets a free tail, as the accepted values have left it, too short for
      its value. */
  lemma CompactionBegins(c: Config, m: Dict, h: Heap, ops: seq<Op>, op: Op)
    requires ValueBytes(m) <= h.used && Purges(c, m, h, ops) == []
    ensures Purges(c, m, h, ops + [op]) != []
            <==> KeyRoom(c, After(c, m, ops), op) && h.used + Appended(c, m, ops) + |op.value| + 1 > c.valueBytes
  {
    hide Step, HeapStep, KeyBytes, ValueBytes;
    FillGrows(c, m, h, ops);
    HeapSnoc(c, m, h, ops, op);
    LiveIsUsed(c, m, Heap(KeyBytes(m), 1), h, ops);
    FillStep(c, After(c, m, ops), HeapAfter(c, m, h, ops), op);
  }

  /** If all values that a run brings have room behind the used bytes, it compacts none:
      decided from the operations alone. */
  lemma {:induction false} NoCompaction(c: Config, m: Dict, h: Heap, ops: seq<Op>)
    requires ValueBytes(m) <= h.used && h.used + Offered(ops) <= c.valueBytes
    ensures Purges(c, m, h, ops) == []
    ensures HeapAfter(c, m, h, ops) == Heap(h.used + Appended(c, m, ops), h.half)
    ensures Appended(c, m, ops) <= Offered(ops)
    decreases |ops|
  {
    hide Step, HeapStep, KeyBytes, ValueBytes;
    if ops != [] {
      var before, op := ops[..|ops| - 1], ops[|ops| - 1];
      assert ops == before + [op];
      AppendedSnoc(c, m, before, op);
      NoCompaction(c, m, h, before);
      CompactionBegins(c, m, h, before, op);
      FillGrows(c, m, h, ops);
    }
  }

  /** From a completed compaction to the next one the fill is what was live then, the
      value that caused it, and the values accepted since. */
  lemma FillSince(c: Config, m: Dict, h: Heap, ops: seq<Op>, op: Op, more: seq<Op>)
    requires ValueBytes(m) <= h.used
    requires KeyRoom(c, After(c, m, ops), op) && HeapAfter(c, m, h, ops).used + |op.value| + 1 > c.valueBytes
    requires Step(c, After(c, m, ops), op).0.code == Code.Ok
    requires Purges(c, After(c, m, ops + [op]), HeapAfter(c, m, h, ops + [op]), more) == []
    ensures HeapAfter(c, m, h, ops + [op] + more)
            == Heap(ValueBytes(After(c, m, ops)) + |op.value| + 1 + Appended(c, After(c, m, ops + [op]), more),
                    HeapAfter(c, m, h, ops).Other())
  {
    hide Step, HeapStep, KeyBytes, ValueBytes;
    LiveIsUsed(c, m, Heap(KeyBytes(m), 1), h, ops);
    LiveIsUsed(c, m, Heap(KeyBytes(m), 1), h, ops + [op]);
    FillStep(c, After(c, m, ops), HeapAfter(c, m, h, ops), op);
    HeapSnoc(c, m, h, ops, op);
    HeapJoin(c, m, h, ops + [op], more);
    FillGrows(c, After(c, m, ops + [op]), HeapAfter(c, m, h, ops + [op]), more);
  }

  // ---------- fill of the key heap ----------

  /** A set that brings a key, and an item for it is free. */
  ghost predicate BringsKey(c: Config, m: Dict, op: Op) {
    op.Set? && Stored(op.key) !in m && |m| < c.items
  }

  /** Bytes, NULs included, of the keys that the sets of a run name, and of those among
      them that are brought. */
  function Named(ops: seq<Op>): nat {
    if ops == [] then 0
    else
      var op := ops[|ops| - 1];
      Named(ops[..|ops| - 1]) + if op.Set? then |op.key| + 1 else 0
  }

  ghost function Brought(c: Config, m: Dict, ops: seq<Op>): nat {
    if ops == [] then 0
    else
      var before, op := ops[..|ops| - 1], ops[|ops| - 1];
      Brought(c, m, before) + if BringsKey(c, After(c, m, before), op) then |op.key| + 1 else 0
  }

  lemma BroughtSnoc(c: Config, m: Dict, ops: seq<Op>, op: Op)
    ensures Named(ops + [op]) == Named(ops) + if op.Set? then |op.key| + 1 else 0
    ensures Brought(c, m, ops + [op])
            == Brought(c, m, ops) + if BringsKey(c, After(c, m, ops), op) then |op.key| + 1 else 0
  {
    hide BringsKey, After;
    assert (ops + [op])[..|ops|] == ops;
  }

  lemma {:induction false} KeyHeapJoin(c: Config, m: Dict, h: Heap, ops: seq<Op>, more: seq<Op>)
    ensures var m', h' := After(c, m, ops), KeyHeapAfter(c, m, h, ops);
            && KeyHeapAfter(c, m, h, ops + more) == KeyHeapAfter(c, m', h', more)
            && KeyPurges(c, m, h, ops + more) == KeyPurges(c, m, h, ops) + KeyPurges(c, m', h', more)
    decreases |more|
  {
    hide Step, KeyHeapStep;
    if more == [] {
      assert ops + more == ops;
    } else {
      var less, last := more[..|more| - 1], more[|more| - 1];
      KeyHeapJoin(c, m, h, ops, less);
      RunJoin(c, m, ops, less);
      assert more == less + [last] && ops + more == (ops + less) + [last];
      KeyHeapSnoc(c, m, h, ops + less, last);
      KeyHeapSnoc(c, After(c, m, ops), KeyHeapAfter(c, m, h, ops), less, last);
    }
  }

  /** One operation on a covered heap.  The key of a set whose value is refused stays
      used if it was appended. */
  lemma KeyFillStep(c: Config, m: Dict, h: Heap, op: Op)
    requires KeyBytes(m) <= h.used
    ensures var (after, purges) := KeyHeapStep(c, m, h, op);
            var ok := op.Set? && Step(c, m, op).0.code == Code.Ok;
            && (purges != [] <==> BringsKey(c, m, op) && h.used + |op.key| + 1 > c.keyBytes)
            && (purges == [] ==> after == if BringsKey(c, m, op) then Heap(h.used + |op.key| + 1, h.half) else h)
            && (purges != [] ==> after == if ok then Heap(KeyBytes(m) + |op.key| + 1, h.Other()) else h)
  {
    hide KeyBytes, ValueBytes;
  }

  /** While no key compaction begins, the keys brought are appended one behind the
      other. */
  lemma {:induction false} KeyFillGrows(c: Config, m: Dict, h: Heap, ops: seq<Op>)
    requires KeyBytes(m) <= h.used && KeyPurges(c, m, h, ops) == []
    ensures KeyHeapAfter(c, m, h, ops) == Heap(h.used + Brought(c, m, ops), h.half)
    decreases |ops|
  {
    hide Step, KeyHeapStep, KeyBytes, ValueBytes, BringsKey;
    if ops != [] {
      var before, op := ops[..|ops| - 1], ops[|ops| - 1];
      assert ops == before + [op];
      KeyHeapSnoc(c, m, h, before, op);
      BroughtSnoc(c, m, before, op);
      KeyFillGrows(c, m, h, before);
      LiveIsUsed(c, m, h, Heap(ValueBytes(m), 1), before);
      KeyFillStep(c, After(c, m, before), KeyHeapAfter(c, m, h, before), op);
    }
  }

  /** The first key compaction begins when a key is brought for which the free tail is
      too short. */
  lemma KeyCompactionBegins(c: Config, m: Dict, h: Heap, ops: seq<Op>, op: Op)
    requires KeyBytes(m) <= h.used && KeyPurges(c, m, h, ops) == []
    ensures KeyPurges(c, m, h, ops + [op]) != []
            <==> BringsKey(c, After(c, m, ops), op) && h.used + Brought(c, m, ops) + |op.key| + 1 > c.keyBytes
  {
    hide Step, KeyHeapStep, KeyBytes, ValueBytes;
    KeyFillGrows(c, m, h, ops);
    KeyHeapSnoc(c, m, h, ops, op);
    LiveIsUsed(c, m, h, Heap(ValueBytes(m), 1), ops);
    KeyFillStep(c, After(c, m, ops), KeyHeapAfter(c, m, h, ops), op);
  }

  /** If all keys that a run names have room behind the used bytes, it compacts none. */
  lemma {:induction false} NoKeyCompaction(c: Config, m: Dict, h: Heap, ops: seq<Op>)
    requires KeyBytes(m) <= h.used && h.used + Named(ops) <= c.keyBytes
    ensures KeyPurges(c, m, h, ops) == []
    ensures KeyHeapAfter(c, m, h, ops) == Heap(h.used + Brought(c, m, ops), h.half)
    ensures Brought(c, m, ops) <= Named(ops)
    decreases |ops|
  {
    hide Step, KeyHeapStep, KeyBytes, ValueBytes;
    if ops != [] {
      var before, op := ops[..|ops| - 1], ops[|ops| - 1];
      assert ops == before + [op];
      BroughtSnoc(c, m, before, op);
      NoKeyCompaction(c, m, h, before);
      KeyCompactionBegins(c, m, h, before, op);
      KeyFillGrows(c, m, h, ops);
    }
  }

  /** From a completed key compaction to the next one the fill is what was live then, the
      key that caused it, and the keys brought since. */
  lemma KeyFillSince(c: Config, m: Dict, h: Heap, ops: seq<Op>, op: Op, more: seq<Op>)
    requires KeyBytes(m) <= h.used
    requires BringsKey(c, After(c, m, ops), op) && KeyHeapAfter(c, m, h, ops).used + |op.key| + 1 > c.keyBytes
    requires Step(c, After(c, m, ops), op).0.code == Code.Ok
    requires KeyPurges(c, After(c, m, ops + [op]), KeyHeapAfter(c, m, h, ops + [op]), more) == []
    ensures KeyHeapAfter(c, m, h, ops + [op] + more)
            == Heap(KeyBytes(After(c, m, ops)) + |op.key| + 1 + Brought(c, After(c, m, ops + [op]), more),
                    KeyHeapAfter(c, m, h, ops).Other())
  {
    hide Step, KeyHeapStep, KeyBytes, ValueBytes;
    LiveIsUsed(c, m, h, Heap(ValueBytes(m), 1), ops);
    LiveIsUsed(c, m, h, Heap(ValueBytes(m), 1), ops + [op]);
    KeyFillStep(c, After(c, m, ops), KeyHeapAfter(c, m, h, ops), op);
    KeyHeapSnoc(c, m, h, ops, op);
    KeyHeapJoin(c, m, h, ops + [op], more);
    KeyFillGrows(c, After(c, m, ops + [op]), KeyHeapAfter(c, m, h, ops + [op]), more);
  }
}
