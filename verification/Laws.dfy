/**
 What the callers of a store can observe, in terms of replies to other operations
 and of bytes written out: laws that fix each reply after every run from an
 empty store.
 */
module Laws {
  import opened KeyOrder
  import opened Spec

  /** The reply of `op` after the run `ops` from an empty store. */
  ghost function Last(c: Config, ops: seq<Op>, op: Op): Reply {
    ReplyAt(c, map[], ops + [op], |ops|);
    Replies(c, map[], ops + [op])[|ops|]
  }

  lemma LastIs(c: Config, ops: seq<Op>, op: Op)
    ensures Last(c, ops, op) == Step(c, After(c, map[], ops), op).0
  {
    hide Step;
    ReplyAt(c, map[], ops + [op], |ops|);
    assert (ops + [op])[..|ops|] == ops;
  }

  /** The same for the operation after `first`. */
  lemma NextIs(c: Config, ops: seq<Op>, first: Op, op: Op)
    ensures Last(c, ops + [first], op) == Step(c, Step(c, After(c, map[], ops), first).1, op).0
  {
    hide Step;
    LastIs(c, ops + [first], op);
    RunSnoc(c, map[], ops, first);
  }

  lemma SameStored(a: Bytes, b: Bytes)
    ensures Stored(a) == Stored(b) ==> a == b
  {
    StoredInjective(a, Stored(b));
  }

  // ---------- replies ----------

  /** An empty store holds nothing. */
  lemma NothingAtFirst(c: Config, key: Bytes, v: int)
    requires 1 <= v <= c.maxVer
    ensures Last(c, [], Get(key, v)) == Reply(NotFound, [])
    ensures Last(c, [], GetValues(key)) == Reply(NotFound, [])
  {
    LastIs(c, [], Get(key, v));
    LastIs(c, [], GetValues(key));
  }

  /** An accepted set puts the value, with a NUL behind it, in front of the versions of
      its key, which all become one older.  It changes no other key, and a refused one
      changes nothing. */
  lemma SetThenGet(c: Config, ops: seq<Op>, key: Bytes, value: Bytes, other: Bytes, v: int)
    requires 1 <= v <= c.maxVer
    ensures var done, before, after := Last(c, ops, Set(key, value)), Last(c, ops, Get(other, v)),
                                       Last(c, ops + [Set(key, value)], Get(other, v));
            && (done == Reply(Code.Ok, []) || done == Reply(Overflow, []))
            && after == if done.code == Overflow || other != key then before
                        else if v == 1 then Reply(Code.Ok, [value + [0]])
                        else var older := Last(c, ops, Get(key, v - 1));
                             if older.code == NotFound then Reply(NotFoundValue, []) else older
  {
    hide Fits, After;
    LastIs(c, ops, Set(key, value));
    LastIs(c, ops, Get(other, v));
    LastIs(c, ops, Get(key, v - 1));
    NextIs(c, ops, Set(key, value), Get(other, v));
    SameStored(other, key);
  }

  /** A delete succeeds exactly if the key has a version; after it the key is not
      found, and no other key has changed. */
  lemma DelThenGet(c: Config, ops: seq<Op>, key: Bytes, other: Bytes, v: int)
    requires 1 <= v <= c.maxVer
    ensures var done, before, after := Last(c, ops, Del(key)), Last(c, ops, Get(other, v)),
                                       Last(c, ops + [Del(key)], Get(other, v));
            && done == Reply(if Last(c, ops, Get(key, 1)).code == Code.Ok then Code.Ok else NotFound, [])
            && after == if other == key then Reply(NotFound, []) else before
  {
    hide After;
    VersionHistory(c, ops, Stored(key));
    LastIs(c, ops, Del(key));
    LastIs(c, ops, Get(other, v));
    LastIs(c, ops, Get(key, 1));
    NextIs(c, ops, Del(key), Get(other, v));
    SameStored(other, key);
  }

  /** What is published is what replies Ok to a write. */
  lemma PublishesIsOk(c: Config, ops: seq<Op>, op: Op)
    ensures Publishes(c, After(c, map[], ops), op)
            <==> (op.Set? || op.Del?) && Last(c, ops, op).code == Code.Ok
  {
    hide After, Fits;
    LastIs(c, ops, op);
  }

  /** Lookups change no reply. */
  lemma LookUpThen(c: Config, ops: seq<Op>, look: Op, op: Op)
    requires look.Get? || look.GetValues?
    ensures Last(c, ops + [look], op) == Last(c, ops, op)
  {
    hide After;
    LastIs(c, ops, op);
    NextIs(c, ops, look, op);
  }

  /** Entry v - 1 of all values is the reply for version v, for just those versions
      that are found. */
  lemma ValuesAreVersions(c: Config, ops: seq<Op>, key: Bytes, v: int)
    requires 1 <= v <= c.maxVer
    ensures var all, one := Last(c, ops, GetValues(key)), Last(c, ops, Get(key, v));
            && (all.code == if Last(c, ops, Get(key, 1)).code == Code.Ok then Code.Ok else NotFound)
            && |all.values| <= c.maxVer
            && (one.code == Code.Ok <==> v <= |all.values|)
            && (one.code == Code.Ok ==> one.values == [all.values[v - 1]])
  {
    hide After;
    VersionHistory(c, ops, Stored(key));
    LastIs(c, ops, GetValues(key));
    LastIs(c, ops, Get(key, v));
    LastIs(c, ops, Get(key, 1));
  }

  // ---------- capacities ----------

  /** Bytes of the keys, each with its NUL. */
  function KeysLen(keys: seq<Bytes>): nat {
    if keys == [] then 0 else KeysLen(keys[..|keys| - 1]) + |keys[|keys| - 1]| + 1
  }

  /** Bytes of all values that the store replies for the keys. */
  ghost function RepliedLen(c: Config, ops: seq<Op>, keys: seq<Bytes>): nat {
    if keys == [] then 0
    else RepliedLen(c, ops, keys[..|keys| - 1]) + ValuesLen(Last(c, ops, GetValues(keys[|keys| - 1])).values)
  }

  /** `keys` are the keys found after a run, each once. */
  ghost predicate Lists(c: Config, ops: seq<Op>, keys: seq<Bytes>) {
    && NoRepeats(keys)
    && forall key :: key in keys <==> Last(c, ops, GetValues(key)).code == Code.Ok
  }

  /** A set is accepted exactly if its key is stored or there is an item and room for
      it beside all stored keys, and its value has room beside all values of all keys,
      the one it may push out included. */
  lemma SetAccepted(c: Config, ops: seq<Op>, keys: seq<Bytes>, key: Bytes, value: Bytes)
    requires Lists(c, ops, keys)
    ensures Last(c, ops, Set(key, value)).code == Code.Ok
            <==> && (key in keys || (|keys| < c.items && KeysLen(keys) + |key| + 1 <= c.keyBytes))
                 && RepliedLen(c, ops, keys) + |value| + 1 <= c.valueBytes
  {
    hide After, KeyBytes, ValueBytes, KeysLen, RepliedLen, HeldLen, Enumerates, Last;
    var m := After(c, map[], ops);
    LastIs(c, ops, Set(key, value));
    LastIs(c, ops, GetValues(key));
    ListsMap(c, ops, keys);
    Measures(m, keys);
    HeldIsReplied(c, ops, keys);
  }

  ghost predicate NoRepeats(keys: seq<Bytes>) {
    forall i, j :: 0 <= i < j < |keys| ==> keys[i] != keys[j]
  }

  ghost predicate IsStored(keys: seq<Bytes>, k: Bytes) {
    exists i :: 0 <= i < |keys| && Stored(keys[i]) == k
  }

  /** `keys` are the callers' forms of the keys of `m`. */
  ghost predicate Enumerates(m: Dict, keys: seq<Bytes>) {
    NoRepeats(keys) && forall k :: k in m <==> IsStored(keys, k)
  }

  lemma IsStoredLast(keys: seq<Bytes>, k: Bytes)
    requires keys != []
    ensures IsStored(keys, k) <==> IsStored(keys[..|keys| - 1], k) || k == Stored(keys[|keys| - 1])
  {
    var n := |keys| - 1;
    if IsStored(keys, k) && k != Stored(keys[n]) {
      var i :| 0 <= i < |keys| && Stored(keys[i]) == k;
      assert Stored(keys[..n][i]) == k;
    }
    if IsStored(keys[..n], k) {
      var i :| 0 <= i < n && Stored(keys[..n][i]) == k;
      assert Stored(keys[i]) == k;
    }
  }

  lemma EnumeratesLess(m: Dict, keys: seq<Bytes>)
    requires Enumerates(m, keys) && keys != []
    ensures Stored(keys[|keys| - 1]) in m
    ensures Enumerates(m - {Stored(keys[|keys| - 1])}, keys[..|keys| - 1])
  {
    hide IsStored;
    var n := |keys| - 1;
    IsStoredLast(keys, Stored(keys[n]));
    forall k
      ensures k in m - {Stored(keys[n])} <==> IsStored(keys[..n], k)
    {
      IsStoredLast(keys, k);
      LastOnce(keys);
    }
  }

  lemma LastOnce(keys: seq<Bytes>)
    requires NoRepeats(keys) && keys != []
    ensures !IsStored(keys[..|keys| - 1], Stored(keys[|keys| - 1]))
  {
    forall i | 0 <= i < |keys| - 1
      ensures Stored(keys[i]) != Stored(keys[|keys| - 1])
    {
      SameStored(keys[i], keys[|keys| - 1]);
    }
  }

  lemma ListsMap(c: Config, ops: seq<Op>, keys: seq<Bytes>)
    requires Lists(c, ops, keys)
    ensures Enumerates(After(c, map[], ops), keys)
  {
    hide After;
    var m := After(c, map[], ops);
    TerminatedRun(c, map[], ops);
    forall k
      ensures k in m <==> IsStored(keys, k)
    {
      if k in m {
        var key := k[..|k| - 1];
        assert Stored(key) == k;
        LastIs(c, ops, GetValues(key));
        var i :| 0 <= i < |keys| && keys[i] == key;
      }
      if IsStored(keys, k) {
        var i :| 0 <= i < |keys| && Stored(keys[i]) == k;
        assert keys[i] in keys;
        LastIs(c, ops, GetValues(keys[i]));
      }
    }
  }

  ghost function HeldLen(m: Dict, keys: seq<Bytes>): nat {
    if keys == [] then 0
    else HeldLen(m, keys[..|keys| - 1]) + ValuesLen(Versions(m, Stored(keys[|keys| - 1])))
  }

  lemma {:induction false} HeldIsReplied(c: Config, ops: seq<Op>, keys: seq<Bytes>)
    ensures HeldLen(After(c, map[], ops), keys) == RepliedLen(c, ops, keys)
    decreases |keys|
  {
    hide After, Last;
    if keys != [] {
      HeldIsReplied(c, ops, keys[..|keys| - 1]);
      LastIs(c, ops, GetValues(keys[|keys| - 1]));
    }
  }

  lemma {:induction false} HeldElsewhere(m: Dict, keys: seq<Bytes>, k: Bytes)
    requires !IsStored(keys, k)
    ensures HeldLen(m - {k}, keys) == HeldLen(m, keys)
    decreases |keys|
  {
    hide IsStored;
    if keys != [] {
      IsStoredLast(keys, k);
      HeldElsewhere(m, keys[..|keys| - 1], k);
    }
  }

  /** The sums of a map, taken over its keys in any order. */
  lemma {:induction false} Measures(m: Dict, keys: seq<Bytes>)
    requires Enumerates(m, keys)
    ensures |m| == |keys| && KeyBytes(m) == KeysLen(keys) && ValueBytes(m) == HeldLen(m, keys)
    decreases |keys|
  {
    hide Enumerates, IsStored, NoRepeats;
    if keys == [] {
      NothingEnumerated(m);
    } else {
      var less, k := keys[..|keys| - 1], Stored(keys[|keys| - 1]);
      EnumeratesLess(m, keys);
      LastOnce(keys) by { EnumeratesOnce(m, keys); }
      HeldElsewhere(m, less, k);
      Measures(m - {k}, less);
      SumSplit(m, KeyWeight, k);
      SumSplit(m, ValueWeight, k);
      assert m.Keys == (m - {k}).Keys + {k};
    }
  }

  lemma NothingEnumerated(m: Dict)
    requires Enumerates(m, [])
    ensures m == map[]
  {
    assert forall k :: k in m ==> IsStored([], k);
  }

  lemma EnumeratesOnce(m: Dict, keys: seq<Bytes>)
    requires Enumerates(m, keys)
    ensures NoRepeats(keys)
  {
  }

  /** After every run the keys found can be listed. */
  lemma KeysListed(c: Config, ops: seq<Op>) returns (keys: seq<Bytes>)
    ensures Lists(c, ops, keys)
  {
    hide After;
    TerminatedRun(c, map[], ops);
    keys := Enumeration(After(c, map[], ops));
    forall key
      ensures key in keys <==> Last(c, ops, GetValues(key)).code == Code.Ok
    {
      LastIs(c, ops, GetValues(key));
      if Stored(key) in After(c, map[], ops) {
        var i :| 0 <= i < |keys| && Stored(keys[i]) == Stored(key);
        SameStored(keys[i], key);
      }
      if key in keys {
        var i :| 0 <= i < |keys| && keys[i] == key;
        assert IsStored(keys, Stored(key));
      }
    }
  }

  lemma {:induction false} Enumeration(m: Dict) returns (keys: seq<Bytes>)
    requires Terminated(m)
    ensures Enumerates(m, keys)
    decreases |m|
  {
    hide AllEndInNul, IsStored;
    if m == map[] {
      keys := [];
      NothingStored();
    } else {
      var k :| k in m;
      var less := Enumeration(m - {k});
      var key := k[..|k| - 1];
      keys := less + [key];
      assert Stored(key) == k && keys[..|less|] == less;
      forall k'
        ensures k' in m <==> IsStored(keys, k')
      {
        IsStoredLast(keys, k');
      }
      NewOnce(m - {k}, less, key);
    }
  }

  lemma NothingStored()
    ensures forall k :: !IsStored([], k)
  {
  }

  lemma NewOnce(m: Dict, less: seq<Bytes>, key: Bytes)
    requires Enumerates(m, less) && Stored(key) !in m
    ensures NoRepeats(less + [key])
  {
    forall i | 0 <= i < |less|
      ensures less[i] != key
    {
      assert IsStored(less, Stored(less[i]));
    }
  }

  /** In numbers: the first set of a store needs one item, and room for the two strings
      with their NULs. */
  lemma FirstSet(c: Config, key: Bytes, value: Bytes)
    requires c.maxVer >= 1
    ensures Last(c, [], Set(key, value)).code == Code.Ok
            <==> 1 <= c.items && |key| + 1 <= c.keyBytes && |value| + 1 <= c.valueBytes
  {
    hide Last;
    forall k
      ensures Last(c, [], GetValues(k)).code != Code.Ok
    {
      NothingAtFirst(c, k, 1);
    }
    SetAccepted(c, [], [], key, value);
  }
}
