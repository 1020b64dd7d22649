/**
 Whole runs of the store: what the caller gets, what a concurrent reader sees,
 and how long the bytes handed out last.
 */
module Runs {
  import opened KeyOrder
  import opened Layout
  import opened Spec
  import opened Image
  import opened Refinement
  import opened Search
  import opened Fill
  import Store

  /** Key lengths are ints, and so is the stored length. */
  ghost predicate OpsOk(ops: seq<Op>) {
    forall i :: 0 <= i < |ops| ==> |ops[i].key| < INT32_MAX
  }

  // ---------- bytes handed out ----------

  /** Address `a` may belong to a value handed out from value half `half`: the used
      part of the active half, or anything in the other. */
  predicate HandedOut(h: Header, half: nat, a: int) {
    && (half == 1 || half == 2)
    && h.value.Start(half) <= a < h.value.Start(half) + if h.value.id == half then h.value.used else h.value.size
  }

  /** All bytes of `base` that may have been handed out stand in `img`, except in
      the halves in `purges`. */
  ghost predicate BytesStand(base: Image, img: Image, purges: seq<nat>) {
    && |img.mem| == |base.mem|
    && forall half, a :: half !in purges && HandedOut(base.hdr, half, a) && 0 <= a < |base.mem| ==>
         img.mem[a] == base.mem[a]
  }

  /** What could be handed out before still counts as handed out after. */
  ghost predicate HandedOutGrows(base: Image, img: Image, purges: seq<nat>) {
    forall half, a :: half !in purges && HandedOut(base.hdr, half, a) ==> HandedOut(img.hdr, half, a)
  }

  lemma KeptBytes(base: Image, img: Image, calm: bool, purges: seq<nat>)
    requires ValidImage(base) && Kept(base, img, calm)
    requires purges == if calm then [] else [base.hdr.value.SnapId()]
    ensures BytesStand(base, img, purges)
  {
    hide Sound, Ordered;
    forall half, a | half !in purges && HandedOut(base.hdr, half, a) && 0 <= a < |base.mem|
      ensures img.mem[a] == base.mem[a]
    {
      assert !calm ==> base.hdr.value.SnapId() in purges;
      assert Guarded(base, calm, a);
    }
  }

  lemma BytesStandJoin(b0: Image, b1: Image, img: Image, p0: seq<nat>, p1: seq<nat>)
    requires BytesStand(b0, b1, p0) && HandedOutGrows(b0, b1, p0) && BytesStand(b1, img, p1)
    ensures BytesStand(b0, img, p0 + p1)
  {
    hide HandedOut;
    forall half, a | half !in p0 + p1 && HandedOut(b0.hdr, half, a) && 0 <= a < |b0.mem|
      ensures img.mem[a] == b0.mem[a]
    {
      assert half !in p0 && half !in p1;
      assert HandedOut(b1.hdr, half, a);
    }
  }

  lemma HandedOutJoin(b0: Image, b1: Image, img: Image, p0: seq<nat>, p1: seq<nat>)
    requires HandedOutGrows(b0, b1, p0) && HandedOutGrows(b1, img, p1)
    ensures HandedOutGrows(b0, img, p0 + p1)
  {
    hide HandedOut;
  }

  /** The halves that the compactions of a run from `base` copy into. */
  ghost function PurgesFrom(base: Image, ops: seq<Op>): seq<nat>
    requires Ordered(Published(base))
  {
    Purges(Capacities(base.hdr), View(base), HeapOf(base.hdr), ops)
  }

  lemma BytesStandRead(base: Image, img: Image, purges: seq<nat>, e: Extent)
    requires ValidImage(base) && InHeap(base.hdr.value, e)
    requires BytesStand(base, img, purges) && base.hdr.value.id !in purges
    ensures Read(img.mem, e) == Read(base.mem, e)
  {
    hide Sound, Ordered;
    forall a | 0 <= a < |base.mem| && e.Has(a)
      ensures base.mem[a] == img.mem[a]
    {
      assert HandedOut(base.hdr, base.hdr.value.id, a);
    }
    ReadSame(base.mem, img.mem, e);
  }

  /** The bytes of a lookup result stand over a run in which no compaction begins
      while their half is the snapshot half. */
  lemma ResultStands(base: Image, img: Image, ops: seq<Op>, e: Extent)
    requires ValidImage(base) && InHeap(base.hdr.value, e)
    requires BytesStand(base, img, PurgesFrom(base, ops))
    requires forall i :: !PurgedAt(Capacities(base.hdr), View(base), HeapOf(base.hdr), ops, base.hdr.value.id, i)
    ensures Read(img.mem, e) == Read(base.mem, e)
  {
    hide Sound, Ordered, BytesStand, PurgedAt, Purges;
    PurgesExact(Capacities(base.hdr), View(base), HeapOf(base.hdr), ops, base.hdr.value.id);
    BytesStandRead(base, img, PurgesFrom(base, ops), e);
  }

  /** They stand over a run with at most one compaction, completed or not. */
  lemma OneCompactionSurvived(base: Image, img: Image, ops: seq<Op>, e: Extent)
    requires ValidImage(base) && InHeap(base.hdr.value, e)
    requires BytesStand(base, img, PurgesFrom(base, ops)) && |PurgesFrom(base, ops)| <= 1
    ensures Read(img.mem, e) == Read(base.mem, e)
  {
    hide Sound, Ordered, BytesStand, Purges;
    FirstPurge(Capacities(base.hdr), View(base), HeapOf(base.hdr), ops);
    BytesStandRead(base, img, PurgesFrom(base, ops), e);
  }

  /** They stand, too, over every run whose sets bring no more value bytes than are free
      behind the used ones, however often they replace a key. */
  lemma RoomKeepsResults(base: Image, img: Image, ops: seq<Op>, e: Extent)
    requires ValidImage(base) && InHeap(base.hdr.value, e)
    requires BytesStand(base, img, PurgesFrom(base, ops))
    requires base.hdr.value.used + Offered(ops) <= base.hdr.value.size
    ensures Read(img.mem, e) == Read(base.mem, e)
  {
    hide Sound, Ordered, BytesStand, Purges, Published, ValueBytes, KeyBytes;
    SpaceConserved(base);
    NoCompaction(Capacities(base.hdr), View(base), HeapOf(base.hdr), ops);
    BytesStandRead(base, img, PurgesFrom(base, ops), e);
  }

  /** In every image whose map is terminated, so in every valid store and, by
      `StepsTerminated`, at each step of a run, the last byte of each key and of each
      live value in the file is 0. */
  lemma LastBytes(img: Image, i: nat)
    requires Readable(img) && Terminated(View(img)) && i < img.hdr.item.used
    ensures |img.Active()[i].slots| == img.hdr.maxVer >= img.Active()[i].count
    ensures EndsInNul(Read(img.mem, img.Active()[i].key))
    ensures forall v :: 0 <= v < img.Active()[i].count ==> EndsInNul(Read(img.mem, img.Active()[i].Version(v)))
  {
    hide Ordered, Read, EndsInNul, MapOf;
    var it := img.Active()[i];
    ReadableSearch(img);
    OrderedDistinct(Published(img));
    MapGet(Published(img), i);
    EntryKey(img.mem, it);
    assert Bounded(img, it);
    forall v | 0 <= v < it.count
      ensures EndsInNul(Read(img.mem, it.Version(v)))
    {
      assert Published(img)[i].values[v] == Read(img.mem, it.Version(v));
    }
  }

  // ---------- what readers see ----------

  /** Image `img` is readable and shows the map `m`. */
  ghost predicate Shows(img: Image, m: Dict) {
    Readable(img) && View(img) == m
  }

  /** Until the last step of a write a lookup finds the map of before; at the last
      step of a successful write, the map of after. */
  lemma {:induction false} OldThenNew(base: Image, log: seq<Image>, img: Image, calm: bool, done: bool, j: nat)
    requires ValidImage(base) && ValidImage(img) && WriteSteps(base, log, img, calm, done) && j < |log|
    ensures if done && j == |log| - 1 then Shows(log[j], View(img)) else Shows(log[j], View(base))
    ensures Through(log[j], base.hdr.item.id, base.hdr.item.used) == Published(base)
  {
    hide ValidImage, Kept, Readable, Published, Through;
    KeptThrough(base, log[j], calm);
    if done && j == |log| - 1 {
      ValidReadable(img);
    } else {
      QuietView(base, log[j], calm);
    }
  }

  /** The steps of one operation that takes the map from `m0` to `m1`. */
  ghost predicate Stepwise(steps: seq<Image>, m0: Dict, m1: Dict) {
    forall j :: 0 <= j < |steps| ==> Shows(steps[j], m0) || (j == |steps| - 1 && Shows(steps[j], m1))
  }

  ghost predicate StepsStand(base: Image, steps: seq<Image>, purges: seq<nat>) {
    forall j :: 0 <= j < |steps| ==> BytesStand(base, steps[j], purges)
  }

  /** A reader who sampled the header of `base` finds the same entries in `img`. */
  ghost predicate SampledStands(base: Image, img: Image) {
    Through(img, base.hdr.item.id, base.hdr.item.used) == Published(base)
  }

  ghost predicate AllSampledStand(base: Image, steps: seq<Image>) {
    forall j :: 0 <= j < |steps| ==> SampledStands(base, steps[j])
  }

  /** From the contract of a write to the facts a run is put together from. */
  lemma WriteFacts(base: Image, log: seq<Image>, img: Image, calm: bool, done: bool, purges: seq<nat>)
    requires ValidImage(base) && ValidImage(img) && WriteSteps(base, log, img, calm, done) && Kept(base, img, calm)
    requires purges == if calm then [] else [base.hdr.value.SnapId()]
    requires calm ==> img.hdr.value.id == base.hdr.value.id
    requires img.hdr.value.id == base.hdr.value.id ==> base.hdr.value.used <= img.hdr.value.used
    ensures Trace(base, log, img) && Stepwise(log, View(base), View(img))
    ensures StepsStand(base, log, purges) && AllSampledStand(base, log)
    ensures BytesStand(base, img, purges) && HandedOutGrows(base, img, purges)
    ensures SampledStands(base, img) && (!done ==> img.hdr.item == base.hdr.item)
  {
    hide Sound, Ordered, Readable, Published, Shows, BytesStand, Through, Trace;
    forall j | 0 <= j < |log|
      ensures Shows(log[j], View(base)) || (j == |log| - 1 && Shows(log[j], View(img)))
      ensures BytesStand(base, log[j], purges) && SampledStands(base, log[j])
    {
      OldThenNew(base, log, img, calm, done, j);
      KeptBytes(base, log[j], calm, purges);
    }
    KeptBytes(base, img, calm, purges);
    KeptThrough(base, img, calm);
    HandedOutWrite(base, img, calm, purges);
  }

  lemma HandedOutWrite(base: Image, img: Image, calm: bool, purges: seq<nat>)
    requires Shape(base) && Shape(img) && Kept(base, img, calm)
    requires purges == if calm then [] else [base.hdr.value.SnapId()]
    requires calm ==> img.hdr.value.id == base.hdr.value.id
    requires img.hdr.value.id == base.hdr.value.id ==> base.hdr.value.used <= img.hdr.value.used
    ensures HandedOutGrows(base, img, purges)
  {
    forall half, a | half !in purges && HandedOut(base.hdr, half, a)
      ensures HandedOut(img.hdr, half, a)
    {
      assert !calm ==> base.hdr.value.SnapId() in purges;
    }
  }

  /** A lookup whose probes read one image after another: the first image for the
      first probe, and so on. */
  ghost function FindAcross(images: seq<Image>, half: nat, k: Bytes, low: nat, high: nat): int
    requires low <= high <= low + |images|
    requires forall t :: 0 <= t < |images| ==> high <= |images[t].Half(half)|
    decreases high - low
  {
    if low == high then -1
    else
      var mid := (low + high) / 2;
      var key := Read(images[0].mem, images[0].Half(half)[mid].key);
      if key == k then mid
      else if Less(key, k) then FindAcross(images[1..], half, k, mid + 1, high)
      else FindAcross(images[1..], half, k, low, mid)
  }

  /** If the sampled entries stand in each of them, it finds what a lookup in the
      sampled image finds. */
  lemma {:induction false} LookUpAcross(base: Image, images: seq<Image>, k: Bytes, low: nat, high: nat)
    requires low <= high <= low + |images| && high <= |Published(base)|
    requires forall t :: 0 <= t < |images| ==>
               SampledStands(base, images[t]) && |Published(base)| <= |images[t].Half(base.hdr.item.id)|
    ensures FindAcross(images, base.hdr.item.id, k, low, high) == Find(Published(base), k, low, high)
    decreases high - low
  {
    hide Less, Published, SampledStands, Read;
    if low < high {
      var mid := (low + high) / 2;
      SampledEntry(base, images[0], mid);
      FindStep(Published(base), k, low, high);
      if Published(base)[mid].key != k {
        if Less(Published(base)[mid].key, k) {
          LookUpAcross(base, images[1..], k, mid + 1, high);
        } else {
          LookUpAcross(base, images[1..], k, low, mid);
        }
      }
    }
  }

  /** The entry behind the index found is the sampled one, whichever image it is
      then read from. */
  lemma SampledEntry(base: Image, img: Image, i: nat)
    requires SampledStands(base, img) && i < |Published(base)|
    ensures |Published(base)| == base.hdr.item.used <= |img.Half(base.hdr.item.id)|
    ensures EntryOf(img.mem, img.Half(base.hdr.item.id)[i]) == Published(base)[i]
    ensures Read(img.mem, img.Half(base.hdr.item.id)[i].key) == Published(base)[i].key
  {
    hide EntryOf;
    EntryKey(img.mem, img.Half(base.hdr.item.id)[i]);
  }

  /** A lookup whose probes read `images` one after the other answers as the map
      sampled at `base` does, whichever of them the entry found is then read from. */
  ghost predicate AnswersSampled(base: Image, images: seq<Image>, k: Bytes)
    requires Ordered(Published(base))
  {
    var n, half := |Published(base)|, base.hdr.item.id;
    && n <= |images| && (forall t :: 0 <= t < |images| ==> n <= |images[t].Half(half)|)
    && var i := FindAcross(images[..n], half, k, 0, n);
       && (i >= 0 <==> k in View(base))
       && (i >= 0 ==> i < n && forall t :: 0 <= t < |images| ==>
             EntryOf(images[t].mem, images[t].Half(half)[i]) == Entry(k, View(base)[k]))
  }

  /** That is so if the sampled entries stand in each of them. */
  lemma LookUpSampled(base: Image, images: seq<Image>, k: Bytes)
    requires ValidImage(base) && |Published(base)| <= |images|
    requires forall t :: 0 <= t < |images| ==> SampledStands(base, images[t])
    ensures AnswersSampled(base, images, k)
  {
    hide Ordered, Published, SampledStands, Find, MapOf, EntryOf;
    var es := Published(base);
    forall t | 0 <= t < |images|
      ensures |es| <= |images[t].Half(base.hdr.item.id)|
      ensures forall i :: 0 <= i < |es| ==> EntryOf(images[t].mem, images[t].Half(base.hdr.item.id)[i]) == es[i]
    {
      forall i | 0 <= i < |es|
        ensures |es| <= |images[t].Half(base.hdr.item.id)|
        ensures EntryOf(images[t].mem, images[t].Half(base.hdr.item.id)[i]) == es[i]
      {
        SampledEntry(base, images[t], i);
      }
    }
    LookUpAcross(base, images[..|es|], k, 0, |es|);
    FindOrdered(es, k);
    OrderedDistinct(es);
    LookUpIsMap(es, k, Find(es, k, 0, |es|));
  }

  /** So it does while `Do` runs a write: its probes read the image before it or any
      image of its trace. */
  lemma LookUpDuring(base: Image, steps: seq<Image>, images: seq<Image>, k: Bytes)
    requires ValidImage(base) && AllSampledStand(base, steps) && |Published(base)| <= |images|
    requires forall t :: 0 <= t < |images| ==> images[t] == base || images[t] in steps
    ensures AnswersSampled(base, images, k)
  {
    hide ValidImage, Published, SampledStands, AnswersSampled;
    forall t | 0 <= t < |images|
      ensures SampledStands(base, images[t])
    {
      SampledItself(base);
    }
    LookUpSampled(base, images, k);
  }

  /** And while `RunOn` runs any number of operations, up to and with the first
      publication. */
  lemma LookUpInRun(base: Image, steps: seq<Image>, images: seq<Image>, at: seq<nat>, k: Bytes)
    requires ValidImage(base) && SampleLasts(base, steps) && |Published(base)| <= |images| == |at|
    requires forall t :: 0 <= t < |at| ==>
               at[t] < |steps| && images[t] == steps[at[t]] && NotYetPublished(base, steps, at[t])
    ensures AnswersSampled(base, images, k)
  {
    hide ValidImage, Published, SampledStands, AnswersSampled, NotYetPublished;
    LookUpSampled(base, images, k);
  }

  lemma SampledItself(base: Image)
    ensures SampledStands(base, base)
  {
  }

  // ---------- one operation ----------

  /** No key has more versions than an item has slots. */
  lemma VersionsBounded(img: Image, k: Bytes)
    requires Readable(img)
    ensures |Versions(View(img), k)| <= img.hdr.maxVer
  {
    hide Ordered, Read;
    ReadableSearch(img);
    OrderedDistinct(Published(img));
    if k in View(img) {
      var i :| 0 <= i < |Published(img)| && Published(img)[i].key == k;
      LookUpIsMap(Published(img), k, i);
      assert Bounded(img, img.Active()[i]);
    }
  }

  /** All values of a key as a caller collects them: a zeroed array, read up to the
      first entry that has stayed empty. */
  method CollectValues(s: Store.Store, key: Bytes) returns (reply: Reply)
    requires s.Valid() && |key| < INT32_MAX
    ensures s.Valid() && reply == Step(Capacities(s.hdr), s.Contents(), GetValues(key)).0
  {
    hide Ordered, Sound, Published, ValidImage, Read;
    ValidReadable(s.Img());
    VersionsBounded(s.Img(), Stored(key));
    var values := new Extent[s.hdr.maxVer](_ => Extent(0, 0));
    var code := s.GetValues(key, values);
    if code != Code.Ok {
      return Reply(code, []);
    }
    ghost var found := Versions(s.Contents(), Stored(key));
    var got: seq<Bytes> := [];
    var k := 0;
    while k < values.Length && values[k].len != 0
      invariant 0 <= k <= |found|
      invariant got == found[..k]
    {
      got := got + [Read(s.mem[..], values[k])];
      k := k + 1;
    }
    assert found[..k] == found;
    reply := Reply(code, got);
  }

  /** Both readers, called on the same image: entry `version - 1` of all values and
      the extent found for that version. */
  method ReadersAgree(s: Store.Store, key: Bytes, version: nat)
    returns (one: Code, e: Extent, all: Code, values: array<Extent>)
    requires Readable(s.Img()) && |key| < INT32_MAX && 1 <= version <= s.hdr.maxVer
    ensures values.Length == s.hdr.maxVer
    ensures one == Code.Ok <==> all == Code.Ok && values[version - 1].len != 0
    ensures one == Code.Ok ==> Read(s.mem[..], e) == Read(s.mem[..], values[version - 1])
    ensures one == NotFound <==> all == NotFound
  {
    hide Ordered, Published, ValidImage, Read;
    VersionsBounded(s.Img(), Stored(key));
    values := new Extent[s.hdr.maxVer](_ => Extent(0, 0));
    all := s.GetValues(key, values);
    one, e := s.Get(key, version);
  }

  /** One lookup and the bytes it points to.  What a version below 1 of a present key
      leads to depends on neighbouring cells, not on the map alone (`Store.Get`
      says which), and counts as `Stray`. */
  method Ask(s: Store.Store, key: Bytes, version: int) returns (reply: Reply)
    requires s.Valid() && |key| < INT32_MAX
    ensures s.Valid() && reply == LookUp(Capacities(s.hdr), s.Contents(), Stored(key), version)
  {
    hide ValidImage, Sound, Ordered, Published, Read, Readable, CellOf, VersionCell, Find;
    ValidReadable(s.Img());
    ghost var es := Published(s.Img());
    OrderedDistinct(es);
    FindOrdered(es, Stored(key));
    LookUpIsMap(es, Stored(key), Find(es, Stored(key), 0, |es|));
    VersionsBounded(s.Img(), Stored(key));
    var code, e := s.Get(key, version);
    if version < 1 && code != NotFound {
      return Reply(Stray, []);
    }
    reply := Reply(code, if code == Code.Ok then [Read(s.mem[..], e)] else []);
  }

  /** Runs one operation; `steps` are the images of the file after each single
      write of it, `purges` the value halves copied into. */
  method Do(s: Store.Store, op: Op) returns (reply: Reply, ghost steps: seq<Image>, ghost purges: seq<nat>)
    requires s.Valid() && |op.key| < INT32_MAX
    modifies s, s.half1, s.half2, s.mem
    ensures s.Valid() && Capacities(s.hdr) == Capacities(old(s.hdr))
    ensures (reply, s.Contents()) == Step(Capacities(old(s.hdr)), old(s.Contents()), op)
    ensures (HeapOf(s.hdr), purges) == HeapStep(Capacities(old(s.hdr)), old(s.Contents()), HeapOf(old(s.hdr)), op)
    ensures KeyHeapOf(s.hdr) == KeyHeapStep(Capacities(old(s.hdr)), old(s.Contents()), KeyHeapOf(old(s.hdr)), op).0
    ensures Trace(old(s.Img()), steps, s.Img()) && Stepwise(steps, old(s.Contents()), s.Contents())
    ensures StepsStand(old(s.Img()), steps, purges) && AllSampledStand(old(s.Img()), steps)
    ensures BytesStand(old(s.Img()), s.Img(), purges) && HandedOutGrows(old(s.Img()), s.Img(), purges)
    ensures SampledStands(old(s.Img()), s.Img())
    ensures !IsWrite(op) ==> steps == [] && s.Img() == old(s.Img())
    ensures !Publishes(Capacities(old(s.hdr)), old(s.Contents()), op) ==> s.hdr.item == old(s.hdr).item
  {
    hide ValidImage, Sound, Ordered, Published, Read, Kept, WriteSteps, Stepwise, StepsStand, BytesStand, HandedOutGrows,
         Fits, KeyFits, Readable, Trace, SampledStands, AllSampledStand;
    ghost var base := s.Img();
    steps, purges := [], [];
    StandStill(base);
    match op {
      case Set(key, value) =>
        var code := s.Set(key, value);
        reply := Reply(code, []);
        steps, purges := s.log, if s.calm then [] else [base.hdr.value.SnapId()];
        WriteFacts(base, s.log, s.Img(), s.calm, code == Code.Ok, purges);
      case Del(key) =>
        var code := s.Del(key);
        reply := Reply(code, []);
        steps := s.log;
        WriteFacts(base, s.log, s.Img(), s.calm, code == Code.Ok, purges);
      case Get(key, version) =>
        reply := Ask(s, key, version);
      case GetValues(key) =>
        reply := CollectValues(s, key);
    }
  }

  predicate IsWrite(op: Op) {
    op.Set? || op.Del?
  }

  lemma StandStill(img: Image)
    ensures BytesStand(img, img, []) && HandedOutGrows(img, img, []) && SampledStands(img, img)
    ensures Trace(img, [], img) && StepsStand(img, [], []) && AllSampledStand(img, [])
    ensures forall m: Dict, m': Dict :: Stepwise([], m, m')
  {
  }

  // ---------- whole runs ----------

  /** At step j of a run the file shows the map after the first `stage[j]`
      operations, and stages never go back. */
  ghost predicate Serial(c: Config, m: Dict, ops: seq<Op>, steps: seq<Image>, stage: seq<nat>) {
    && |stage| == |steps|
    && (forall j :: 0 <= j < |steps| ==> stage[j] <= |ops| && Shows(steps[j], After(c, m, ops[..stage[j]])))
    && (forall i, j :: 0 <= i < j < |steps| ==> stage[i] <= stage[j])
  }

  /** The stages of the steps of operation `n`. */
  ghost function StagesOf(more: seq<Image>, m0: Dict, n: nat): seq<nat> {
    seq(|more|, j => if 0 <= j < |more| && Shows(more[j], m0) then n else n + 1)
  }

  lemma SerialNext(c: Config, m: Dict, ops: seq<Op>, op: Op, steps: seq<Image>, stage: seq<nat>, more: seq<Image>)
    requires Serial(c, m, ops, steps, stage)
    requires Stepwise(more, After(c, m, ops), After(c, m, ops + [op]))
    ensures Serial(c, m, ops + [op], steps + more, stage + StagesOf(more, After(c, m, ops), |ops|))
  {
    hide Shows, After;
    var all := ops + [op];
    var m0 := After(c, m, ops);
    var late := StagesOf(more, m0, |ops|);
    assert all[..|ops|] == ops && all[..|ops| + 1] == all;
    forall j | 0 <= j < |stage + late|
      ensures (stage + late)[j] <= |all| && Shows((steps + more)[j], After(c, m, all[..(stage + late)[j]]))
    {
      if j < |stage| {
        assert all[..stage[j]] == ops[..stage[j]];
      }
    }
    forall i, j | 0 <= i < j < |stage + late|
      ensures (stage + late)[i] <= (stage + late)[j]
    {
      assert j >= |stage| && i >= |stage| ==> late[i - |stage|] <= late[j - |stage|];
    }
  }

  lemma StepsStandJoin(b0: Image, b1: Image, steps: seq<Image>, more: seq<Image>, p0: seq<nat>, p1: seq<nat>)
    requires StepsStand(b0, steps, p0) && StepsStand(b1, more, p1)
    requires BytesStand(b0, b1, p0) && HandedOutGrows(b0, b1, p0)
    ensures StepsStand(b0, steps + more, p0 + p1)
  {
    hide BytesStand, HandedOutGrows;
    forall j | 0 <= j < |steps + more|
      ensures BytesStand(b0, (steps + more)[j], p0 + p1)
    {
      if j < |steps| {
        MorePurges(b0, steps[j], p0, p1);
      } else {
        BytesStandJoin(b0, b1, more[j - |steps|], p0, p1);
      }
    }
  }

  lemma MorePurges(b0: Image, img: Image, p0: seq<nat>, p1: seq<nat>)
    requires BytesStand(b0, img, p0)
    ensures BytesStand(b0, img, p0 + p1)
  {
    hide HandedOut;
  }

  /** None of the first `n` steps has published anything. */
  ghost predicate NotYetPublished(base: Image, steps: seq<Image>, n: nat)
    requires n <= |steps|
  {
    forall t :: 0 <= t < n ==> steps[t].hdr.item == base.hdr.item
  }

  /** An item half sampled at `base` stands at each step up to the first publication
      and at that one.  The next step is of a write that begins after it. */
  ghost predicate SampleLasts(base: Image, steps: seq<Image>) {
    forall j :: 0 <= j < |steps| && NotYetPublished(base, steps, j) ==> SampledStands(base, steps[j])
  }

  lemma SampleNext(base: Image, steps: seq<Image>, b1: Image, more: seq<Image>)
    requires Trace(base, steps, b1) && SampleLasts(base, steps) && AllSampledStand(b1, more)
    ensures SampleLasts(base, steps + more)
  {
    hide Through, OneWrite;
    var all := steps + more;
    forall j | 0 <= j < |all| && NotYetPublished(base, all, j)
      ensures SampledStands(base, all[j])
    {
      if j < |steps| {
        assert forall t :: 0 <= t < j ==> all[t] == steps[t];
        assert NotYetPublished(base, steps, j);
      } else {
        var n := |steps|;
        if n > 0 {
          assert forall t :: 0 <= t < n ==> all[t] == steps[t];
          assert b1 == all[n - 1] && NotYetPublished(base, steps, n - 1);
        }
        assert b1.hdr.item == base.hdr.item && SampledStands(base, b1);
      }
    }
  }

  /** In the first `n` operations no write begins after another was published: any
      number of failed writes, one that succeeds, then lookups only. */
  ghost predicate NoWriteAfterPublication(c: Config, m: Dict, ops: seq<Op>, n: nat)
    requires n <= |ops|
  {
    forall q :: 0 <= q < n && IsWrite(ops[q]) ==> Unpublished(c, m, ops, q)
  }

  /** How far the sampled half and header still stand after `n` operations. */
  ghost predicate SampleNow(base: Image, img: Image, c: Config, m: Dict, ops: seq<Op>, n: nat)
    requires n <= |ops|
  {
    && (Unpublished(c, m, ops, n) ==> img.hdr.item == base.hdr.item)
    && (NoWriteAfterPublication(c, m, ops, n) ==> SampledStands(base, img))
  }

  lemma SampleNowNext(base: Image, b1: Image, img: Image, c: Config, m: Dict, ops: seq<Op>, n: nat)
    requires n < |ops| && SampleNow(base, b1, c, m, ops, n) && SampledStands(b1, img)
    requires !IsWrite(ops[n]) ==> img == b1
    requires !Publishes(c, After(c, m, ops[..n]), ops[n]) ==> img.hdr.item == b1.hdr.item
    ensures SampleNow(base, img, c, m, ops, n + 1)
  {
    hide Through, After, Publishes;
    if Unpublished(c, m, ops, n) && IsWrite(ops[n]) {
      assert NoWriteAfterPublication(c, m, ops, n);
      assert b1.hdr.item == base.hdr.item && Published(b1) == Published(base);
    }
    if NoWriteAfterPublication(c, m, ops, n + 1) {
      assert NoWriteAfterPublication(c, m, ops, n);
    }
  }

  /** Readers at each step of a run find only strings that end in a NUL. */
  lemma StepsTerminated(c: Config, m: Dict, ops: seq<Op>, steps: seq<Image>, stage: seq<nat>, j: nat)
    requires Serial(c, m, ops, steps, stage) && Terminated(m) && j < |steps|
    ensures Readable(steps[j]) && Terminated(View(steps[j]))
  {
    hide After, Readable, Terminated;
    TerminatedRun(c, m, ops[..stage[j]]);
  }

  /** Every run from every valid store.

      - The replies and the final map are those of the plain map.
      - `steps` are the images after each single write to the file, without a gap;
        at each, readers find the map after a whole number of operations, in order.
      - A byte that could be handed out at the start stands until a value
        compaction copies into its half; the compactions are those the plain map
        and the heap's fill level call for.
      - An item half sampled at the start stands until a write begins after
        another was published. */
  method RunOn(s: Store.Store, ops: seq<Op>)
    returns (replies: seq<Reply>, ghost steps: seq<Image>, ghost stage: seq<nat>)
    requires s.Valid() && OpsOk(ops)
    modifies s, s.half1, s.half2, s.mem
    ensures s.Valid() && Capacities(s.hdr) == Capacities(old(s.hdr))
    ensures replies == Replies(Capacities(old(s.hdr)), old(s.Contents()), ops)
    ensures s.Contents() == After(Capacities(old(s.hdr)), old(s.Contents()), ops)
    ensures Trace(old(s.Img()), steps, s.Img())
    ensures Serial(Capacities(old(s.hdr)), old(s.Contents()), ops, steps, stage)
    ensures HeapOf(s.hdr) == HeapAfter(Capacities(old(s.hdr)), old(s.Contents()), HeapOf(old(s.hdr)), ops)
    ensures KeyHeapOf(s.hdr) == KeyHeapAfter(Capacities(old(s.hdr)), old(s.Contents()), KeyHeapOf(old(s.hdr)), ops)
    ensures StepsStand(old(s.Img()), steps, old(PurgesFrom(s.Img(), ops)))
    ensures BytesStand(old(s.Img()), s.Img(), old(PurgesFrom(s.Img(), ops)))
    ensures SampleLasts(old(s.Img()), steps)
    ensures SampleNow(old(s.Img()), s.Img(), Capacities(old(s.hdr)), old(s.Contents()), ops, |ops|)
  {
    hide ValidImage, Sound, Ordered, Published, Serial, Step, After, Replies, Stepwise, StepsStand, BytesStand,
         HandedOutGrows, Trace, HeapStep, KeyHeapStep, HeapAfter, KeyHeapAfter, Purges, SampleNow, SampleLasts,
         SampledStands, AllSampledStand, Publishes;
    ghost var c, m, h, kh, base := Capacities(s.hdr), s.Contents(), HeapOf(s.hdr), KeyHeapOf(s.hdr), s.Img();
    replies, steps, stage := [], [], [];
    var i := 0;
    StandStill(base);
    RunStart(c, m, h, kh, ops, base);
    while i < |ops|
      invariant 0 <= i <= |ops|
      invariant s.Valid() && Capacities(s.hdr) == c
      invariant replies == Replies(c, m, ops[..i]) && s.Contents() == After(c, m, ops[..i])
      invariant Trace(base, steps, s.Img()) && Serial(c, m, ops[..i], steps, stage)
      invariant HeapOf(s.hdr) == HeapAfter(c, m, h, ops[..i]) && KeyHeapOf(s.hdr) == KeyHeapAfter(c, m, kh, ops[..i])
      invariant StepsStand(base, steps, Purges(c, m, h, ops[..i]))
      invariant BytesStand(base, s.Img(), Purges(c, m, h, ops[..i]))
      invariant HandedOutGrows(base, s.Img(), Purges(c, m, h, ops[..i]))
      invariant SampleNow(base, s.Img(), c, m, ops, i) && SampleLasts(base, steps)
    {
      ghost var img, purges := s.Img(), Purges(c, m, h, ops[..i]);
      var reply, more, late := Do(s, ops[i]);
      RunSnoc(c, m, ops[..i], ops[i]);
      HeapSnoc(c, m, h, ops[..i], ops[i]);
      KeyHeapSnoc(c, m, kh, ops[..i], ops[i]);
      assert ops[..i + 1] == ops[..i] + [ops[i]];
      SampleNext(base, steps, img, more);
      TraceJoin(base, steps, img, more, s.Img());
      SerialNext(c, m, ops[..i], ops[i], steps, stage, more);
      StepsStandJoin(base, img, steps, more, purges, late);
      BytesStandJoin(base, img, s.Img(), purges, late);
      HandedOutJoin(base, img, s.Img(), purges, late);
      SampleNowNext(base, img, s.Img(), c, m, ops, i);
      replies := replies + [reply];
      steps, stage := steps + more, stage + StagesOf(more, After(c, m, ops[..i]), i);
      i := i + 1;
    }
    assert ops[..i] == ops;
  }

  lemma RunStart(c: Config, m: Dict, h: Heap, kh: Heap, ops: seq<Op>, base: Image)
    ensures Replies(c, m, ops[..0]) == [] && After(c, m, ops[..0]) == m
    ensures KeyHeapAfter(c, m, kh, ops[..0]) == kh && HeapAfter(c, m, h, ops[..0]) == h && Purges(c, m, h, ops[..0]) == []
    ensures Serial(c, m, ops[..0], [], [])
    ensures SampleNow(base, base, c, m, ops, 0) && SampleLasts(base, [])
  {
  }

  /** Every run from a new store, closed and opened again at any point: the replies
      are those of one plain map that starts empty. */
  method Run(keyCount: nat, maxVer: nat, ops: seq<Op>, more: seq<Op>) returns (replies: seq<Reply>)
    requires maxVer >= 1 && InitHeader(keyCount, maxVer).1 <= INT32_MAX
    requires OpsOk(ops) && OpsOk(more)
    ensures replies == Replies(Config(keyCount, 64 * keyCount, 256 * keyCount, maxVer), map[], ops + more)
  {
    hide Replies, After, ValidImage, Purges, HeapAfter, SampleNow, SampleLasts, Serial, StepsStand, BytesStand, Trace;
    ghost var c := Config(keyCount, 64 * keyCount, 256 * keyCount, maxVer);
    var s := new Store.Store.Create(keyCount, maxVer);
    var first, steps, stage := RunOn(s, ops);
    var reopened := new Store.Store.Attach(s);
    var second, steps', stage' := RunOn(reopened, more);
    RunJoin(c, map[], ops, more);
    replies := first + second;
  }
}
