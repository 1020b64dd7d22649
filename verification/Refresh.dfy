/**
 The source as written, with its cached item pointer, whether or not it still does as
 meant: what it keeps over every run, what moves the pointer, and what list the next
 write is made from.
 */
module Refresh {
  import opened KeyOrder
  import opened Spec
  import opened Image
  import opened Search
  import opened EntryList
  import opened Placement
  import opened CachedPointer

  // ---------- the literal machine on its own ----------

  /** What the literal machine keeps whether or not it agrees with the intended one:
      the active items and those its pointer leads to are ordered, and the used bytes
      cover both. */
  ghost predicate Coherent(c: Config, x: Index) {
    && x.Valid(c)
    && Ordered(ListOf(x.Active())) && Covers(x.heaps, ListOf(x.Active()))
    && Ordered(ListOf(x.Source())) && Covers(x.heaps, ListOf(x.Source()))
  }

  /** What a write makes of the list the pointer leads to. */
  lemma SourceWrite(c: Config, x: Index, op: Op)
    requires Coherent(c, x) && (op.Set? || op.Del?)
    ensures var (reply, y) := LiteralStep(c, x, op);
            var list := ListOf(x.Source());
            && y.Valid(c) && reply == ListStep(c, list, op).0
            && y.id == (if reply.code == Code.Ok then x.Other() else x.id)
            && ListOf(y.Active()) == if reply.code == Code.Ok then ListStep(c, list, op).1 else ListOf(x.Active())
  {
    hide Ordered, Covers, ListStep, LiteralStep, Refused, GivesUp, HeapsStep, Written, MovedBy;
    var list := ListOf(x.Source());
    GivesUpIsRefused(c, list, x.heaps, op);
    ReplyCode(c, list, op);
    if Refused(c, list, op) {
      LiteralRefused(c, x, list, op);
    } else {
      LiteralWrite(c, x, list, op);
      WrittenList(c, x.Source(), x.heaps, op);
    }
  }

  lemma CoherentRefused(c: Config, x: Index, op: Op)
    requires Coherent(c, x) && (op.Set? || op.Del?) && GivesUp(c, ListOf(x.Source()), x.heaps, op)
    ensures Coherent(c, LiteralStep(c, x, op).1)
  {
    hide Ordered, ListStep, LiteralStep, GivesUp, HeapsStep, Written, MovedBy, KeySum, ValueSum;
    LiteralRefused(c, x, ListOf(x.Source()), op);
    GivesUpGrows(c, ListOf(x.Source()), x.heaps, op);
    assert ListOf(MovedBy(c, x.Source(), x.heaps, op)) == ListOf(x.Source());
  }

  lemma CoherentAccepted(c: Config, x: Index, op: Op)
    requires Coherent(c, x) && (op.Set? || op.Del?) && !GivesUp(c, ListOf(x.Source()), x.heaps, op) && c.maxVer >= 1
    ensures Coherent(c, LiteralStep(c, x, op).1)
  {
    hide Ordered, ListStep, LiteralStep, GivesUp, HeapsStep, Written, MovedBy, Refused, Covers, Distinct, MapOf, Step;
    var list, y := ListOf(x.Source()), LiteralStep(c, x, op).1;
    GivesUpIsRefused(c, list, x.heaps, op);
    LiteralWrite(c, x, list, op);
    WrittenList(c, x.Source(), x.heaps, op);
    OrderedDistinct(list);
    ListStepIsStep(c, list, op);
    CoversAfter(c, list, x.heaps, op);
    assert |y.Active()| == |ListOf(y.Active())|;
    if y.cached != y.id {
      assert x.cached == x.id && y.Source() == x.Source()[..y.used];
      assert ListOf(y.Source()) == list[..y.used];
      PrefixOrdered(list, y.used);
      SourceCovered(c, list, x.heaps, op, y.used);
    }
  }

  lemma {:induction false} LiteralCoherent(c: Config, ops: seq<Op>)
    requires c.maxVer >= 1
    ensures Coherent(c, LiteralRun(c, ops))
    decreases |ops|
  {
    hide LiteralStep, Coherent, GivesUp;
    if ops == [] {
      StartCoherent(c);
    } else {
      var x, op := LiteralRun(c, ops[..|ops| - 1]), ops[|ops| - 1];
      LiteralCoherent(c, ops[..|ops| - 1]);
      CoherentValid(c, x);
      if op.Get? || op.GetValues? {
        CoherentLookUp(c, x, op);
      } else if GivesUp(c, ListOf(x.Source()), x.heaps, op) {
        CoherentRefused(c, x, op);
      } else {
        CoherentAccepted(c, x, op);
      }
    }
  }

  lemma StartCoherent(c: Config)
    ensures Coherent(c, LiteralRun(c, []))
  {
  }

  lemma CoherentValid(c: Config, x: Index)
    requires Coherent(c, x)
    ensures x.Valid(c)
  {
  }

  lemma CoherentLookUp(c: Config, x: Index, op: Op)
    requires Coherent(c, x) && (op.Get? || op.GetValues?)
    ensures Coherent(c, LiteralStep(c, x, op).1)
  {
    hide Ordered, Covers, MovedBy, HeapsStep, Written, GivesUp;
  }

  // ---------- what refreshes the pointer ----------

  /** A lookup that gets past the test of its version. */
  predicate LooksUp(c: Config, op: Op) {
    op.GetValues? || (op.Get? && op.version <= c.maxVer)
  }

  /** Operation `i` of a run moves the pointer: a lookup that gets past the test of its
      version, or a set after which there is one more item. */
  ghost predicate Refreshes(c: Config, ops: seq<Op>, i: nat)
    requires i < |ops|
  {
    LooksUp(c, ops[i]) || (ops[i].Set? && LiteralRun(c, ops[..i + 1]).used > LiteralRun(c, ops[..i]).used)
  }

  ghost predicate NoRefresh(c: Config, ops: seq<Op>, r: nat) {
    forall i :: r <= i < |ops| ==> !Refreshes(c, ops, i)
  }

  lemma RefreshesBefore(c: Config, ops: seq<Op>, i: nat)
    requires i + 1 < |ops|
    ensures Refreshes(c, ops[..|ops| - 1], i) <==> Refreshes(c, ops, i)
  {
    hide LiteralRun;
    assert ops[..|ops| - 1][..i + 1] == ops[..i + 1] && ops[..|ops| - 1][..i] == ops[..i];
  }

  /** Between refreshes the pointer stays: it refers to the half that was active after
      the last one, or at the start. */
  lemma {:induction false} PointerStays(c: Config, ops: seq<Op>, r: nat)
    requires r <= |ops| && (r > 0 ==> Refreshes(c, ops, r - 1)) && NoRefresh(c, ops, r)
    ensures LiteralRun(c, ops).cached == LiteralRun(c, ops[..r]).id
    decreases |ops|
  {
    hide LiteralRun, Refreshes;
    assert ops[..|ops|] == ops;
    if ops == [] {
      LiteralStart(c);
    } else {
      var n := |ops| - 1;
      LastRefresh(c, ops);
      if r < |ops| {
        forall i | 0 <= i < n
          ensures Refreshes(c, ops[..n], i) <==> Refreshes(c, ops, i)
        {
          RefreshesBefore(c, ops, i);
        }
        PointerStays(c, ops[..n], r);
        assert ops[..n][..r] == ops[..r];
      }
    }
  }

  lemma LastRefresh(c: Config, ops: seq<Op>)
    requires ops != []
    ensures LiteralRun(c, ops).cached
            == if Refreshes(c, ops, |ops| - 1) then LiteralRun(c, ops).id else LiteralRun(c, ops[..|ops| - 1]).cached
  {
    hide LiteralRun, LooksUp;
    assert ops[..|ops| - 1 + 1] == ops;
    LiteralNext(c, ops);
    PointerStep(c, LiteralRun(c, ops[..|ops| - 1]), ops[|ops| - 1]);
  }

  lemma LiteralStart(c: Config)
    ensures LiteralRun(c, []).cached == LiteralRun(c, []).id
  {
  }

  lemma LiteralNext(c: Config, ops: seq<Op>)
    requires ops != []
    ensures LiteralRun(c, ops) == LiteralStep(c, LiteralRun(c, ops[..|ops| - 1]), ops[|ops| - 1]).1
  {
    hide LiteralStep;
  }

  /** One operation's effect on the pointer, by its number of items. */
  lemma PointerStep(c: Config, x: Index, op: Op)
    requires x.Valid(c)
    ensures var y := LiteralStep(c, x, op).1;
            y.cached == if LooksUp(c, op) || (op.Set? && y.used > x.used) then y.id else x.cached
  {
    hide LiteralStep, GivesUp, Written, HeapsStep;
    var list := ListOf(x.Source());
    if op.Set? || op.Del? {
      if GivesUp(c, list, x.heaps, op) {
        LiteralRefused(c, x, list, op);
      } else {
        LiteralWrite(c, x, list, op);
        DeletedSize(c, x.Source(), x.heaps, op);
        assert |LiteralStep(c, x, op).1.Active()| == LiteralStep(c, x, op).1.used;
      }
    } else {
      LookUpPointer(c, x, op);
    }
  }

  lemma LookUpPointer(c: Config, x: Index, op: Op)
    requires x.Valid(c) && (op.Get? || op.GetValues?)
    ensures LiteralStep(c, x, op).1 == if LooksUp(c, op) then x.(cached := x.id) else x
  {
    hide GivesUp, MovedBy, Written, HeapsStep;
  }

  lemma DeletedSize(c: Config, ps: seq<Placed>, h: Heaps, op: Op)
    ensures op.Del? ==> |Written(c, ps, h, op)| <= |ps|
  {
    hide Find, KeyBegins, ValueBegins, HeapsStep;
  }

  /** After a refresh, wherever the run has come to, a write is made from the active
      items: reply and index are those of the list operation on them. */
  lemma RefreshedWrite(c: Config, ops: seq<Op>, op: Op)
    requires c.maxVer >= 1 && (ops != [] ==> Refreshes(c, ops, |ops| - 1)) && (op.Set? || op.Del?)
    ensures var x := LiteralRun(c, ops);
            var (reply, y) := LiteralStep(c, x, op);
            y.Valid(c) && (reply, ListOf(y.Active())) == ListStep(c, ListOf(x.Active()), op)
  {
    hide ListStep, LiteralStep, Ordered, Covers, Refreshes, LiteralRun;
    var x := LiteralRun(c, ops);
    LiteralCoherent(c, ops);
    if ops == [] {
      LiteralStart(c);
    } else {
      LastRefresh(c, ops);
    }
    assert x.Source() == x.Active();
    SourceWrite(c, x, op);
    ReplyCode(c, ListOf(x.Active()), op);
    RefusedStays(c, ListOf(x.Active()), op);
  }

  /** A lookup that gets past the test of its version answers from the active items and
      leaves them, so that the next write is made from just these. */
  lemma LookUpRefreshes(c: Config, x: Index, look: Op, op: Op)
    requires Coherent(c, x) && LooksUp(c, look) && (op.Set? || op.Del?)
    ensures var (reply, y) := LiteralStep(c, x, look);
            && y.Valid(c) && reply == ListStep(c, ListOf(x.Active()), look).0 && y.Active() == x.Active()
            && var (done, z) := LiteralStep(c, y, op);
               z.Valid(c) && (done, ListOf(z.Active())) == ListStep(c, ListOf(x.Active()), op)
  {
    hide ListStep, MovedBy, Written, HeapsStep, GivesUp, Ordered, Covers;
    CoherentLookUp(c, x, look);
    var y := LiteralStep(c, x, look).1;
    assert y.Source() == x.Active();
    SourceWrite(c, y, op);
    ReplyCode(c, ListOf(x.Active()), op);
    RefusedStays(c, ListOf(x.Active()), op);
  }

  /** After an accepted write that adds no item the next write is made from the items of
      before, as many as the count says now. */
  lemma EditedWrite(c: Config, ops: seq<Op>, first: Op, op: Op)
    requires c.maxVer >= 1 && (ops != [] ==> Refreshes(c, ops, |ops| - 1))
    requires (first.Set? || first.Del?) && (op.Set? || op.Del?)
    requires LiteralStep(c, LiteralRun(c, ops), first).0.code == Code.Ok
    requires LiteralStep(c, LiteralRun(c, ops), first).1.used <= LiteralRun(c, ops).used
    ensures var x := LiteralRun(c, ops);
            var y := LiteralStep(c, x, first).1;
            && y.Valid(c)
            && var (reply, z) := LiteralStep(c, y, op);
               var was := ListOf(x.Active())[..y.used];
               && z.Valid(c) && reply == ListStep(c, was, op).0
               && ListOf(z.Active()) == if reply.code == Code.Ok then ListStep(c, was, op).1 else ListOf(y.Active())
  {
    hide ListStep, LiteralStep, Ordered, Covers, Refreshes, LiteralRun, GivesUp, Written, MovedBy, HeapsStep;
    var x := LiteralRun(c, ops);
    LiteralCoherent(c, ops);
    if ops == [] {
      LiteralStart(c);
    } else {
      LastRefresh(c, ops);
    }
    var list := ListOf(x.Source());
    if GivesUp(c, list, x.heaps, first) {
      LiteralRefused(c, x, list, first);
    } else {
      LiteralWrite(c, x, list, first);
      CoherentAccepted(c, x, first);
      var y := LiteralStep(c, x, first).1;
      assert y.Source() == x.Active()[..y.used];
      assert ListOf(y.Source()) == ListOf(x.Active())[..y.used];
      SourceWrite(c, y, op);
    }
  }

  /** So a write directly after such a lookup does as the intended machine, whenever
      the run before the lookup did. */
  lemma RefreshedRun(c: Config, ops: seq<Op>, look: Op, op: Op)
    requires c.maxVer >= 1 && LooksUp(c, look) && Agrees(c, ops)
    ensures Agrees(c, ops + [look]) && Agrees(c, ops + [look, op])
  {
    hide Agrees, Safe, SafeRun, TrackStep;
    LiteralRunExact(c, ops);
    AgreesNext(c, ops, look);
    AgreesNext(c, ops + [look], op);
    assert ops + [look] + [op] == ops + [look, op];
    LookUpIsSafe(c, ops, look, op);
  }

  lemma AgreesNext(c: Config, ops: seq<Op>, op: Op)
    requires c.maxVer >= 1
    ensures Agrees(c, ops + [op]) <==> Agrees(c, ops) && Safe(c, IntendedRun(c, ops), TrackAfter(c, ops), op)
  {
    hide Safe, Alike, LiteralRun, IntendedRun, TrackAfter;
    LiteralRunExact(c, ops);
    LiteralRunExact(c, ops + [op]);
    var all, n := ops + [op], |ops|;
    assert all[..n] == ops;
    assert forall i :: 0 <= i < n ==> all[..i] == ops[..i];
    assert forall i :: 0 <= i < n ==> (SafeAt(c, all, i) <==> SafeAt(c, ops, i));
    assert SafeRun(c, all) <==> SafeRun(c, ops) && SafeAt(c, all, n);
  }

  lemma LookUpIsSafe(c: Config, ops: seq<Op>, look: Op, op: Op)
    requires LooksUp(c, look)
    ensures Safe(c, IntendedRun(c, ops), TrackAfter(c, ops), look)
    ensures Safe(c, IntendedRun(c, ops + [look]), TrackAfter(c, ops + [look]), op)
  {
    hide ListStep, HeapsStep, SafeWrite, KeyBegins, ValueBegins;
    assert (ops + [look])[..|ops|] == ops;
  }
}
