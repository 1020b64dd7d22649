/**
 The two header writes of a publication, taken one by one as the source does.

 Between them a reader searches a list of items that no write meant to publish.
 Lookups are the binary search of the readers, on ordered lists or not.
 */
module Windows {
  import opened KeyOrder
  import opened Spec
  import opened Image
  import opened Search
  import opened Refinement
  import opened LiteralForm

  /** What the readers' search answers for a key. */
  ghost function Answer(es: seq<Entry>, k: Bytes): Option<seq<Bytes>> {
    var i := Find(es, k, 0, |es|);
    if i < 0 then None else Some(es[i].values)
  }

  ghost function MapAnswer(m: Dict, k: Bytes): Option<seq<Bytes>> {
    if k in m then Some(m[k]) else None
  }

  /** Every lookup finds just the map `m`.  Stored keys are never empty. */
  ghost predicate Answers(es: seq<Entry>, m: Dict) {
    forall k :: k != [] ==> Answer(es, k) == MapAnswer(m, k)
  }

  lemma AnswersAt(es: seq<Entry>, m: Dict, k: Bytes)
    requires Answers(es, m) && k != []
    ensures Answer(es, k) == MapAnswer(m, k)
  {
  }

  lemma OrderedAnswers(es: seq<Entry>)
    requires Ordered(es) && Distinct(es)
    ensures Answers(es, MapOf(es))
  {
    hide Ordered, MapOf, Find, Distinct;
    forall k | k != []
      ensures Answer(es, k) == MapAnswer(MapOf(es), k)
    {
      FindOrdered(es, k);
      LookUpIsMap(es, k, Find(es, k, 0, |es|));
    }
  }

  // ---------- an ordered list with one item too many ----------

  /** Left of the extra item the search does not notice it. */
  lemma {:induction false} FindWithin(es: seq<Entry>, left: Entry, k: Bytes, low: nat, high: nat)
    requires low <= high <= |es|
    ensures Find(es + [left], k, low, high) == Find(es, k, low, high)
    decreases high - low
  {
    hide Less;
    if low < high {
      var mid := (low + high) / 2;
      assert (es + [left])[mid] == es[mid];
      FindWithin(es, left, k, mid + 1, high);
      FindWithin(es, left, k, low, mid);
    }
  }

  /** A key of the list is found, with one exception: the last key, if halving to
      the right comes to the extra item before it does to the last. */
  lemma {:induction false} FindPresent(es: seq<Entry>, left: Entry, k: Bytes, i: nat, low: nat)
    requires Ordered(es) && Holds(es, k, i) && low <= i
    ensures Find(es + [left], k, low, |es| + 1)
            == if i == |es| - 1 && ComesToOne(|es| - low)
               then (if left.key == k then |es| else if Less(left.key, k) then -1 else i)
               else i
    decreases |es| - low
  {
    hide Less, Ordered, Find;
    var n, seen := |es|, es + [left];
    var mid := (low + n + 1) / 2;
    FindStep(seen, k, low, n + 1);
    OrderedDistinct(es);
    if mid == n {
      assert low == n - 1 && seen[n] == left;
      FindNone(seen, k, n + 1);
      FindOne(seen, k, n - 1);
    } else {
      assert seen[mid] == es[mid] && n - (mid + 1) == (n - low) / 2 - 1;
      OrderedSides(es, k, i, mid);
      if mid < i {
        FindPresent(es, left, k, i, mid + 1);
      } else if i < mid {
        FindWithin(es, left, k, low, mid);
        FindBetween(es, k, i, low, mid);
      }
    }
  }

  lemma FindOne(es: seq<Entry>, k: Bytes, at: nat)
    requires at < |es|
    ensures Find(es, k, at, at + 1) == if es[at].key == k then at else -1
  {
    hide Less;
  }

  lemma OrderedSides(es: seq<Entry>, k: Bytes, i: nat, mid: nat)
    requires Ordered(es) && Holds(es, k, i) && mid < |es|
    ensures es[mid].key == k <==> mid == i
    ensures mid < i ==> Less(es[mid].key, k)
    ensures i < mid ==> !Less(es[mid].key, k)
  {
    hide Less;
    LessTrichotomy(es[mid].key, k);
    LessTrichotomy(k, es[mid].key);
  }

  /** Inside an ordered list a key in the range is found. */
  lemma {:induction false} FindBetween(es: seq<Entry>, k: Bytes, i: nat, low: nat, high: nat)
    requires Ordered(es) && Holds(es, k, i) && low <= i < high <= |es|
    ensures Find(es, k, low, high) == i
    decreases high - low
  {
    hide Less, Ordered, Find;
    var mid := (low + high) / 2;
    FindStep(es, k, low, high);
    OrderedSides(es, k, i, mid);
    if mid < i {
      FindBetween(es, k, i, mid + 1, high);
    } else if i < mid {
      FindBetween(es, k, i, low, mid);
    }
  }

  /** A key that is not in the list is found only in the extra item, and there if it
      is above the whole list, or above all but the last and the search comes to
      the extra item first. */
  lemma {:induction false} FindAbsent(es: seq<Entry>, left: Entry, k: Bytes, low: nat)
    requires Ordered(es) && Lacks(es, k) && low <= |es| && AllBelow(es, low, k)
    ensures Find(es + [left], k, low, |es| + 1)
            == if left.key == k && (AllBelow(es, |es|, k) || (ComesToOne(|es| - low) && AllBelow(es, |es| - 1, k)))
               then |es| else -1
    decreases |es| - low
  {
    hide Less, Ordered, Find, AllBelow;
    var n, seen := |es|, es + [left];
    var mid := (low + n + 1) / 2;
    FindStep(seen, k, low, n + 1);
    if mid == n {
      assert seen[n] == left;
      FindNone(seen, k, n + 1);
      FindLeftOf(es, left, k, low);
    } else {
      assert seen[mid] == es[mid] && n - (mid + 1) == (n - low) / 2 - 1;
      LessTrichotomy(es[mid].key, k);
      if Less(es[mid].key, k) {
        BelowSpreads(es, mid, k);
        FindAbsent(es, left, k, mid + 1);
      } else {
        FindWithin(es, left, k, low, mid);
        FindAbsentWithin(es, k, low, mid);
        NotBelow(es, k, mid);
      }
    }
  }

  lemma FindLeftOf(es: seq<Entry>, left: Entry, k: Bytes, low: nat)
    requires Lacks(es, k) && low <= |es| <= low + 1
    ensures Find(es + [left], k, low, |es|) == -1
  {
    hide Less, Find;
    var seen := es + [left];
    if low == |es| {
      FindNone(seen, k, low);
    } else {
      assert seen[low] == es[low];
      FindOne(seen, k, low);
    }
  }

  lemma {:induction false} FindAbsentWithin(es: seq<Entry>, k: Bytes, low: nat, high: nat)
    requires Lacks(es, k) && low <= high <= |es|
    ensures Find(es, k, low, high) == -1
    decreases high - low
  {
    hide Less;
    if low < high {
      var mid := (low + high) / 2;
      FindAbsentWithin(es, k, mid + 1, high);
      FindAbsentWithin(es, k, low, mid);
    }
  }

  lemma NotBelow(es: seq<Entry>, k: Bytes, mid: nat)
    requires mid < |es| && !Less(es[mid].key, k)
    ensures !AllBelow(es, |es|, k) && (mid < |es| - 1 ==> !AllBelow(es, |es| - 1, k))
  {
    hide Less;
  }

  // ---------- delete ----------

  /** Delete flips the half before it lowers the count.  In between readers see the
      last item twice, or the deleted item if that was the last: every lookup still
      finds just the map of after, or of before. */
  lemma DeleteWindow(es: seq<Entry>, idx: nat)
    requires Ordered(es) && Distinct(es) && idx < |es|
    ensures Answers(RemoveAt(es, idx) + [es[|es| - 1]],
                    if idx + 1 < |es| then MapOf(es) - {es[idx].key} else MapOf(es))
  {
    hide Ordered, MapOf, Find, RemoveAt, Less, Distinct;
    var n, kept := |es|, RemoveAt(es, idx);
    if idx + 1 < n {
      RemoveIsDel(es, idx, es[idx].key);
      assert kept[n - 2] == es[n - 1];
      OrderedAnswers(kept);
      forall k | k != []
        ensures Answer(kept + [es[n - 1]], k) == Answer(kept, k)
      {
        LastTwice(kept, es[n - 1], k);
      }
    } else {
      RemoveLast(es);
      OrderedAnswers(es);
    }
  }

  lemma RemoveLast(es: seq<Entry>)
    requires es != []
    ensures RemoveAt(es, |es| - 1) + [es[|es| - 1]] == es
  {
  }

  lemma LastTwice(es: seq<Entry>, left: Entry, k: Bytes)
    requires Ordered(es) && es != [] && left == es[|es| - 1]
    ensures Answer(es + [left], k) == Answer(es, k)
  {
    hide Ordered, Find, Less;
    FindOrdered(es, k);
    var i := Find(es, k, 0, |es|);
    if i >= 0 {
      FindPresent(es, left, k, i, 0);
    } else {
      FindAbsent(es, left, k, 0);
    }
  }

  /** What a reader sees that loads the half before both writes and the count after
      them: the old half without its last item. */
  lemma DeleteStraddledSees(base: Image, img: Image, calm: bool)
    requires ValidImage(base) && Kept(base, img, calm) && base.hdr.item.used > 0
    ensures |Published(base)| == base.hdr.item.used
    ensures Through(img, base.hdr.item.id, base.hdr.item.used - 1) == Published(base)[..base.hdr.item.used - 1]
  {
    hide Ordered, EntryOf;
    KeptThrough(base, img, calm);
    var n, items := base.hdr.item.used, base.Active();
    assert items[..n][..n - 1] == items[..n - 1];
  }

  /** It misses the last key, and so finds just the map of before or of after exactly
      if that was deleted. */
  lemma DeleteStraddled(es: seq<Entry>, idx: nat)
    requires Ordered(es) && Distinct(es) && idx < |es| && Lacks(es, [])
    ensures var n, m, seen := |es|, MapOf(es), es[..|es| - 1];
            && Answers(seen, m - {es[n - 1].key})
            && (Answers(seen, m) || Answers(seen, m - {es[idx].key}) <==> idx == n - 1)
  {
    hide Answers, Ordered, MapOf, Find, Less, RemoveAt, Answer;
    var n, m := |es|, MapOf(es);
    var seen, last := es[..n - 1], es[n - 1].key;
    RemoveLast(es);
    RemoveIsDel(es, n - 1, last);
    assert seen == RemoveAt(es, n - 1);
    OrderedAnswers(seen);
    MapGet(es, n - 1);
    AnswersAt(seen, m - {last}, last);
    if Answers(seen, m) {
      AnswersAt(seen, m, last);
    }
    if Answers(seen, m - {es[idx].key}) {
      AnswersAt(seen, m - {es[idx].key}, last);
    }
  }

  // ---------- add ----------

  /** Adding raises the count before it flips the half.  In between readers see the
      published items and the one left over behind them. */
  lemma AddWindowSees(base: Image, img: Image, calm: bool)
    requires ValidImage(base) && Quiet(base, img, calm) && base.hdr.item.used < base.hdr.item.size
    ensures Through(img, base.hdr.item.id, base.hdr.item.used + 1)
         == Published(base) + [EntryOf(img.mem, base.Active()[base.hdr.item.used])]
  {
    hide Ordered, EntryOf;
    KeptThrough(base, img, calm);
    var n, items := base.hdr.item.used, base.Active();
    assert items[..n + 1] == items[..n] + [items[n]];
  }

  /** When the item left over does no harm: it is the new item itself, above all
      others; or there is no other item and it is blank; or it repeats the last
      item, in content if the search comes to it first; or it is below the last
      and the search comes to the last one first. */
  ghost predicate WindowSafe(es: seq<Entry>, left: Entry, added: Entry) {
    || (left == added && (es == [] || Less(es[|es| - 1].key, left.key)))
    || (if es == [] then left.key == []
        else
          var last := es[|es| - 1];
          if left.key == last.key then ComesToOne(|es|) ==> left.values == last.values
          else Less(left.key, last.key) && !ComesToOne(|es|))
  }

  /** Lookups find just the map of before, or just the map of after, exactly then.
      The harmful counts are 1, 4 to 5, 10 to 13 and so on, by `WrapBands`. */
  lemma AddWindow(es: seq<Entry>, left: Entry, added: Entry)
    requires Ordered(es) && Distinct(es) && Lacks(es, [])
    requires Lacks(es, added.key) && added.key != []
    ensures Answers(es + [left], MapOf(es)) || Answers(es + [left], MapOf(es)[added.key := added.values])
            <==> WindowSafe(es, left, added)
  {
    hide Answers, WindowSafe, Ordered, MapOf, Find, Less, Distinct, Lacks;
    BeforeExact(es, left);
    AfterExact(es, left, added);
    WindowCases(es, left, added);
  }

  /** The extra item can be found under its own key. */
  ghost predicate Visible(es: seq<Entry>, left: Entry) {
    AllBelow(es, |es|, left.key) || (ComesToOne(|es|) && AllBelow(es, |es| - 1, left.key))
  }

  /** The last key is still found, and with its own values. */
  ghost predicate LastStands(es: seq<Entry>, left: Entry) {
    es != [] && ComesToOne(|es|) ==>
      var last := es[|es| - 1];
      if left.key == last.key then left.values == last.values else !Less(left.key, last.key)
  }

  /** One lookup in the window. */
  lemma WindowAnswer(es: seq<Entry>, left: Entry, k: Bytes)
    requires Ordered(es) && Distinct(es)
    ensures Answer(es + [left], k)
            == if es != [] && k == es[|es| - 1].key && ComesToOne(|es|) && left.key == k then Some(left.values)
               else if es != [] && k == es[|es| - 1].key && ComesToOne(|es|) && Less(left.key, k) then None
               else if k in MapOf(es) then Some(MapOf(es)[k])
               else if left.key == k && Visible(es, left) then Some(left.values)
               else None
  {
    hide Ordered, MapOf, Find, Less, Visible, Distinct, Lacks, Holds;
    FindOrdered(es, k);
    var i := Find(es, k, 0, |es|);
    LookUpIsMap(es, k, i);
    if i >= 0 {
      AnswerPresent(es, left, k, i);
    } else {
      AnswerAbsent(es, left, k);
    }
  }

  lemma AnswerPresent(es: seq<Entry>, left: Entry, k: Bytes, i: nat)
    requires Ordered(es) && Holds(es, k, i)
    ensures i == |es| - 1 <==> es[|es| - 1].key == k
    ensures Answer(es + [left], k)
            == if i < |es| - 1 || !ComesToOne(|es|) then Some(es[i].values)
               else if left.key == k then Some(left.values)
               else if Less(left.key, k) then None
               else Some(es[i].values)
  {
    hide Ordered, Find, Less, ComesToOne;
    FindPresent(es, left, k, i, 0);
    OrderedSides(es, k, i, |es| - 1);
  }

  lemma AnswerAbsent(es: seq<Entry>, left: Entry, k: Bytes)
    requires Ordered(es) && Lacks(es, k)
    ensures es != [] ==> es[|es| - 1].key != k
    ensures Answer(es + [left], k) == if left.key == k && Visible(es, left) then Some(left.values) else None
  {
    hide Ordered, Find, Less, ComesToOne, AllBelow;
    BelowNone(es, k);
    FindAbsent(es, left, k, 0);
  }

  lemma BelowNone(es: seq<Entry>, k: Bytes)
    ensures AllBelow(es, 0, k)
  {
  }

  lemma BeforeExact(es: seq<Entry>, left: Entry)
    requires Ordered(es) && Distinct(es) && Lacks(es, [])
    ensures Answers(es + [left], MapOf(es))
            <==> LastStands(es, left) && (left.key != [] && Lacks(es, left.key) ==> !Visible(es, left))
  {
    hide Ordered, MapOf, Less, Answer, Visible, Distinct;
    var seen := es + [left];
    WindowAnswer(es, left, left.key);
    LacksIs(es, left.key);
    if es != [] {
      WindowAnswer(es, left, es[|es| - 1].key);
      MapGet(es, |es| - 1);
    }
    if Answers(seen, MapOf(es)) {
      if es != [] {
        AnswersAt(seen, MapOf(es), es[|es| - 1].key);
      }
      if left.key != [] {
        AnswersAt(seen, MapOf(es), left.key);
      }
    }
    if LastStands(es, left) && (left.key != [] && Lacks(es, left.key) ==> !Visible(es, left)) {
      forall k | k != []
        ensures Answer(seen, k) == MapAnswer(MapOf(es), k)
      {
        WindowAnswer(es, left, k);
      }
    }
  }

  lemma LacksIs(es: seq<Entry>, k: Bytes)
    requires Distinct(es)
    ensures Lacks(es, k) <==> k !in MapOf(es)
  {
    if !Lacks(es, k) {
      var i :| 0 <= i < |es| && es[i].key == k;
      MapGet(es, i);
    }
  }

  lemma AfterExact(es: seq<Entry>, left: Entry, added: Entry)
    requires Ordered(es) && Distinct(es) && Lacks(es, [])
    requires Lacks(es, added.key) && added.key != []
    ensures Answers(es + [left], MapOf(es)[added.key := added.values])
            <==> LastStands(es, left) && left == added && Visible(es, left)
  {
    hide Ordered, MapOf, Less, Answer, Visible, Distinct;
    var seen, m := es + [left], MapOf(es)[added.key := added.values];
    WindowAnswer(es, left, added.key);
    LacksIs(es, added.key);
    if es != [] {
      WindowAnswer(es, left, es[|es| - 1].key);
      MapGet(es, |es| - 1);
    }
    if Answers(seen, m) {
      if es != [] {
        AnswersAt(seen, m, es[|es| - 1].key);
      }
      AnswersAt(seen, m, added.key);
    }
    if LastStands(es, left) && left == added && Visible(es, left) {
      forall k | k != []
        ensures Answer(seen, k) == MapAnswer(m, k)
      {
        WindowAnswer(es, left, k);
      }
    }
  }

  lemma WindowCases(es: seq<Entry>, left: Entry, added: Entry)
    requires Ordered(es) && Distinct(es) && Lacks(es, [])
    requires Lacks(es, added.key) && added.key != []
    ensures WindowSafe(es, left, added)
            <==> || (LastStands(es, left) && (left.key != [] && Lacks(es, left.key) ==> !Visible(es, left)))
                 || (LastStands(es, left) && left == added && Visible(es, left))
  {
    hide Ordered, Less, Distinct;
    if es != [] {
      var last := es[|es| - 1];
      LessTrichotomy(left.key, last.key);
      LessTrichotomy(last.key, left.key);
      if Less(last.key, left.key) {
        BelowSpreads(es, |es| - 1, left.key);
        AboveIsAbsent(es, left.key);
        ShortestIsEmpty(last.key);
      }
    }
  }

  lemma AboveIsAbsent(es: seq<Entry>, k: Bytes)
    requires AllBelow(es, |es|, k)
    ensures Lacks(es, k)
  {
    hide Less;
    forall i | 0 <= i < |es|
      ensures es[i].key != k
    {
      LessTrichotomy(es[i].key, k);
    }
  }

  lemma ShortestIsEmpty(k: Bytes)
    ensures !Less(k, [])
  {
  }

  /** One stored key and a second one on the way in: behind a blank item the stored
      key is not found. */
  lemma AddWindowHidesKey(e: Entry, blank: Entry)
    requires e.key != [] && blank.key == []
    ensures Answer([e], e.key) == Some(e.values) && Answer([e] + [blank], e.key) == None
  {
    hide Find;
    FindOne([e], e.key, 0);
    FindPresent([e], blank, e.key, 0, 0);
  }
}
