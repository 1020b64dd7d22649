/**
 The byte strings kept in the heaps and the order of the index.

 A caller's string is stored with its trailing NUL, so the stored form of `s`
 is `s + [0]`.  Two stored keys are ordered by length first and by their bytes
 second.
 */
module KeyOrder {

  newtype byte = b: int | 0 <= b < 256

  type Bytes = seq<byte>

  const INT32_MAX := 0x7FFF_FFFF
  const TWO_TO_THE_32 := 0x1_0000_0000

  function Stored(s: Bytes): Bytes {
    s + [0]
  }

  /** A uint32 difference read back as an int. */
  function ToInt32(x: int): int {
    var u := x % TWO_TO_THE_32;
    if u <= INT32_MAX then u else u - TWO_TO_THE_32
  }

  /** The sign of memcmp on two buffers of one length. */
  function MemCmp(a: Bytes, b: Bytes): int
    requires |a| == |b|
  {
    if a == [] then 0
    else if a[0] != b[0] then a[0] as int - b[0] as int
    else MemCmp(a[1..], b[1..])
  }

  /** The comparator: a wrapping length difference, then the bytes. */
  function Compare(a: Bytes, b: Bytes): int
    requires |a| < TWO_TO_THE_32 && |b| < TWO_TO_THE_32
  {
    var d := ToInt32(|a| - |b|);
    if d != 0 then d else MemCmp(a, b)
  }

  /** The reference order, written without the comparator. */
  ghost predicate Less(a: Bytes, b: Bytes) {
    || |a| < |b|
    || (|a| == |b| && exists i :: FirstDifference(a, b, i) && a[i] < b[i])
  }

  ghost predicate FirstDifference(a: Bytes, b: Bytes, i: int) {
    0 <= i < |a| && i < |b| && a[i] != b[i] && forall k :: 0 <= k < i ==> a[k] == b[k]
  }

  /** The wrapping subtraction has the sign of the true difference exactly when
      that difference is itself an int. */
  lemma LengthSign(m: nat, n: nat)
    requires m < TWO_TO_THE_32 && n < TWO_TO_THE_32
    ensures ((ToInt32(m - n) < 0 <==> m < n) && (ToInt32(m - n) == 0 <==> m == n))
            <==> -INT32_MAX - 1 <= m - n <= INT32_MAX
  {
    if m < n {
      assert (m - n) % TWO_TO_THE_32 == m - n + TWO_TO_THE_32;
    } else {
      assert (m - n) % TWO_TO_THE_32 == m - n;
    }
  }

  lemma {:induction false} MemCmpZero(a: Bytes, b: Bytes)
    requires |a| == |b|
    ensures MemCmp(a, b) == 0 <==> a == b
  {
    if a == [] {
      assert a == b;
    } else {
      assert a == [a[0]] + a[1..] && b == [b[0]] + b[1..];
      MemCmpZero(a[1..], b[1..]);
    }
  }

  lemma {:induction false} MemCmpDifference(a: Bytes, b: Bytes) returns (i: nat)
    requires |a| == |b| && a != b
    ensures FirstDifference(a, b, i)
    ensures MemCmp(a, b) == a[i] as int - b[i] as int
  {
    assert a == [a[0]] + a[1..] && b == [b[0]] + b[1..];
    if a[0] != b[0] {
      i := 0;
    } else {
      var j := MemCmpDifference(a[1..], b[1..]);
      i := j + 1;
    }
  }

  lemma DifferenceUnique(a: Bytes, b: Bytes, i: nat, j: nat)
    requires FirstDifference(a, b, i) && FirstDifference(a, b, j)
    ensures i == j
  {
  }

  /** For lengths an int can hold the comparator is the reference order, and it
      returns zero only for identical keys. */
  lemma CompareIsOrder(a: Bytes, b: Bytes)
    requires |a| <= INT32_MAX && |b| <= INT32_MAX
    ensures Compare(a, b) < 0 <==> Less(a, b)
    ensures Compare(a, b) > 0 <==> Less(b, a)
    ensures Compare(a, b) == 0 <==> a == b
  {
    LengthSign(|a|, |b|);
    if |a| == |b| {
      MemCmpZero(a, b);
      if a != b {
        var i := MemCmpDifference(a, b);
        assert FirstDifference(b, a, i);
        forall j | FirstDifference(a, b, j) || FirstDifference(b, a, j)
          ensures j == i
        {
          assert FirstDifference(a, b, j);
          DifferenceUnique(a, b, i, j);
        }
      }
    }
  }

  /** Of two strings of one length the first byte in which they differ decides, read
      as an unsigned number. */
  lemma {:induction false} FirstByteDecides(p: Bytes, x: byte, y: byte, s: Bytes, t: Bytes)
    requires |s| == |t| && x != y
    ensures MemCmp(p + [x] + s, p + [y] + t) == x as int - y as int
    ensures |p| + 1 + |s| <= INT32_MAX ==> Compare(p + [x] + s, p + [y] + t) == x as int - y as int
    ensures Less(p + [x] + s, p + [y] + t) <==> x < y
    decreases |p|
  {
    var a, b := p + [x] + s, p + [y] + t;
    assert a[|p|] == x && b[|p|] == y;
    if p != [] {
      FirstByteDecides(p[1..], x, y, s, t);
      assert a[1..] == p[1..] + [x] + s && b[1..] == p[1..] + [y] + t;
    }
    assert forall k :: 0 <= k < |p| ==> a[k] == b[k];
    assert FirstDifference(a, b, |p|);
    forall i | FirstDifference(a, b, i)
      ensures i == |p|
    {
      DifferenceUnique(a, b, i, |p|);
    }
  }

  /** Whatever its bytes, the shorter string comes first. */
  lemma ShorterFirst(a: Bytes, b: Bytes)
    requires |a| < |b|
    ensures Less(a, b) && (|b| <= INT32_MAX ==> Compare(a, b) < 0 < Compare(b, a))
  {
    if |b| <= INT32_MAX {
      CompareIsOrder(a, b);
      CompareIsOrder(b, a);
    }
  }

  lemma LessTransitive(a: Bytes, b: Bytes, c: Bytes)
    requires Less(a, b) && Less(b, c)
    ensures Less(a, c)
  {
    if |a| == |b| == |c| {
      var i :| FirstDifference(a, b, i) && a[i] < b[i];
      var j :| FirstDifference(b, c, j) && b[j] < c[j];
      var k := if i < j then i else j;
      assert FirstDifference(a, c, k) && a[k] < c[k];
    }
  }

  lemma LessTrichotomy(a: Bytes, b: Bytes)
    ensures a == b || Less(a, b) || Less(b, a)
    ensures !(Less(a, b) && Less(b, a))
    ensures Less(a, b) ==> a != b
  {
    if |a| == |b| && a != b {
      var i := MemCmpDifference(a, b);
      assert FirstDifference(b, a, i);
      forall j | FirstDifference(a, b, j) || FirstDifference(b, a, j)
        ensures j == i
      {
        assert FirstDifference(a, b, j);
        DifferenceUnique(a, b, i, j);
      }
    }
  }
}
