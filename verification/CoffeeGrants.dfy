/** Runs of reservations and removals on the device (cfs-coffee.c): when pages can be had, and which. */
module CoffeeGrants {
  import opened Numbers
  import opened CoffeeWalk
  import opened CoffeeCollector
  import opened CoffeeExtents
  import opened CoffeeVolume
  import opened Wrappers

  datatype Operation =
    | Reserves(name: string, pages: pos, allowDuplicates: bool, log: bool)
    | Removes(page: nat)

  /** What it comes to: pages, a name that is taken, no pages, a collection that is not safe; or a removal. */
  datatype Outcome = Granted(page: nat) | Refused | Lacking | Unsafe | Removed | Absent

  /** The device at one moment. */
  datatype Moment = Moment(flash: seq<Page>, nextFree: nat)

  ghost function MomentOf(v: Volume): Moment
    reads v, v.flash
  {
    Moment(v.flash[..], v.nextFree)
  }

  /** A reservation found no pages, and nothing has been removed since. */
  predicate InVain(os: seq<Outcome>) {
    os != [] &&
    var o := os[|os| - 1];
    o == Lacking || (o != Removed && InVain(os[..|os| - 1]))
  }

  lemma InVainMore(os: seq<Outcome>, o: Outcome)
    ensures InVain(os + [o]) <==> o == Lacking || (o != Removed && InVain(os))
  {
    assert (os + [o])[..|os|] == os;
  }

  /** A file of that name. */
  ghost predicate Taken(f: seq<Page>, P: pos, name: string)
    requires Walkable(f, P)
  {
    exists q :: q in Extents(f, P) && Named(f, q, name)
  }

  /**
   * What an operation comes to can be told from the device and from what the ones before came to. A reservation gets
   * pages if the search finds a run; if not, and it is not the first in vain since the last removal, it gets none; and
   * otherwise it does exactly if the image that a greedy collection leaves has a run, unless that is not safe.
   */
  ghost predicate Fair(P: pos, m: Moment, op: Operation, earlier: seq<Outcome>, o: Outcome)
    requires Walkable(m.flash, P)
  {
    match op
    case Removes(page) => o == if page in Extents(m.flash, P) then Removed else Absent
    case Reserves(name, pages, allowDuplicates, _) =>
      if !allowDuplicates && Taken(m.flash, P, name) then o == Refused
      else if HasRun(m.flash, P, m.nextFree, pages) then o.Granted?
      else if InVain(earlier) then o == Lacking
      else if !SafeToCollect(m.flash, P, m.nextFree) then o == Unsafe
      else if RunAfter(m.flash, P, m.nextFree, pages) then o.Granted?
      else o == Lacking
  }

  /** And so can the device that it leaves: its extents, its image and where the next search starts. */
  ghost predicate Changes(P: pos, m: Moment, m': Moment, op: Operation, earlier: seq<Outcome>, o: Outcome) {
    && Walkable(m.flash, P) && Walkable(m'.flash, P)
    && Extents(m'.flash, P) ==
       (if o.Granted? && op.Reserves? then
          Extents(m.flash, P)[o.page := FreshExtent(FileHeader(op.name, op.pages, op.log), op.pages)]
        else if o.Removed? && op.Removes? then Extents(m.flash, P) - {op.page}
        else Extents(m.flash, P))
    && match op
       case Removes(page) =>
         && m'.nextFree == m.nextFree && (o.Removed? ==> page < |m.flash|)
         && m'.flash == if o.Removed? then Discarding(m.flash, page) else m.flash
       case Reserves(name, pages, _, log) =>
         if o.Refused? then m' == m else
         var g := Looked(m.flash, P, m.nextFree, InVain(earlier), pages);
         && Searched(m.flash, P, m.nextFree, InVain(earlier), pages,
                     if o.Granted? then Some(o.page) else None, m'.nextFree)
         && (o.Granted? ==> o.page < |g|)
         && m'.flash == if o.Granted? then g[o.page := g[o.page].(hdr := FileHeader(name, pages, log))] else g
  }

  /** Operation i of a run. */
  ghost predicate Done(P: pos, ms: seq<Moment>, ops: seq<Operation>, os: seq<Outcome>, i: nat)
    requires i < |os| <= |ops| && |os| < |ms|
  {
    Changes(P, ms[i], ms[i + 1], ops[i], os[..i], os[i]) && Fair(P, ms[i], ops[i], os[..i], os[i])
  }

  /** Whether an active extent starts at a page. */
  method Holds(v: Volume, page: nat) returns (r: bool)
    requires v.Valid() && Walkable(v.flash[..], v.P)
    ensures r <==> page in Extents(v.flash[..], v.P)
  {
    ghost var f := v.flash[..];
    ExtentsAre(f, v.P);
    hide Extents;
    var at := 0;
    while at < v.flash.Length && at < page
      invariant at <= |f| && Ok(f, v.P, at, |f|)
      invariant page in Starts(f, v.P, 0, |f|) <==> page in Starts(f, v.P, at, |f|)
      decreases |f| - at
    {
      at := Next(v.flash[at].hdr, at, v.P);
    }
    r := at == page && page < v.flash.Length && v.flash[page].hdr.Active();
  }

  /** One operation. */
  method Perform(v: Volume, op: Operation, ghost earlier: seq<Outcome>) returns (stranded: bool, ghost o: Outcome)
    requires v.Sound() && (v.gcWait <==> InVain(earlier))
    modifies v, v.flash
    ensures Walkable(old(MomentOf(v)).flash, v.P)
    ensures Changes(v.P, old(MomentOf(v)), MomentOf(v), op, earlier, o)
    ensures Fair(v.P, old(MomentOf(v)), op, earlier, o)
    ensures (stranded <==> o == Unsafe) && (stranded <==> !v.Sound())
    ensures !stranded ==> (v.gcWait <==> o == Lacking || (o != Removed && InVain(earlier)))
  {
    hide Ok, Land, Starts, Extents, Walkable, HasRun, RunAfter, SafeToCollect, InVain, Visits, Looked, Searched,
      Discarding, FileHeader;
    v.SoundMeans();
    match op {
      case Reserves(name, pages, allowDuplicates, log) =>
        ghost var may := v.MayHave(name, allowDuplicates);
        var r;
        r, stranded := v.Reserve(name, pages, allowDuplicates, log);
        o := if r.Some? then Granted(r.value) else if !may then Refused else if stranded then Unsafe else Lacking;
      case Removes(page) =>
        stranded := false;
        var there := Holds(v, page);
        if there {
          ActiveStart(v.flash[..], v.P, page);
          var ok := v.RemoveByPage(page, false);
          o := Removed;
        } else {
          o := Absent;
        }
    }
  }

  lemma ActiveStart(f: seq<Page>, P: pos, page: nat)
    requires Walkable(f, P) && page in Extents(f, P)
    ensures page < |f| && f[page].hdr.Active()
  {
    ExtentsAre(f, P);
  }

  lemma NoneInVain()
    ensures !InVain([])
  {}

  lemma DoneNow(P: pos, ms: seq<Moment>, ops: seq<Operation>, os: seq<Outcome>, m: Moment, o: Outcome)
    requires |os| < |ops| && |ms| == |os| + 1
    requires Walkable(ms[|os|].flash, P) && Fair(P, ms[|os|], ops[|os|], os, o)
    requires Changes(P, ms[|os|], m, ops[|os|], os, o)
    ensures Done(P, ms + [m], ops, os + [o], |os|)
  {
    hide Changes, Fair;
    assert (os + [o])[..|os|] == os;
  }

  lemma DoneStill(P: pos, ms: seq<Moment>, ops: seq<Operation>, os: seq<Outcome>, i: nat, m: Moment, o: Outcome)
    requires i < |os| < |ops| && |os| < |ms| && Done(P, ms, ops, os, i)
    ensures Done(P, ms + [m], ops, os + [o], i)
  {
    hide Changes, Fair;
    assert (os + [o])[..i] == os[..i];
  }

  /**
   * Every operation of a run is fair, from a device whose search is not yet in vain, until a collection is not safe.
   * So as long as none is, a reservation finds no pages only if neither the image nor the one a greedy pass would leave
   * has a run, or if one before it failed and nothing has been removed since.
   */
  method Serve(v: Volume, ops: seq<Operation>) returns (ghost os: seq<Outcome>, ghost ms: seq<Moment>)
    requires v.Sound() && !v.gcWait
    modifies v, v.flash
    ensures |os| <= |ops| && |ms| == |os| + 1 && ms[0] == old(MomentOf(v)) && ms[|os|] == MomentOf(v)
    ensures forall i: nat | i < |os| :: Done(v.P, ms, ops, os, i)
    ensures if Unsafe in os then os[|os| - 1] == Unsafe && Unsafe !in os[..|os| - 1] else |os| == |ops| && v.Sound()
  {
    hide *;
    os, ms := [], [MomentOf(v)];
    NoneInVain();
    var i := 0;
    while i < |ops|
      invariant 0 <= i <= |ops| && |os| == i && |ms| == i + 1 && ms[0] == old(MomentOf(v)) && ms[i] == MomentOf(v)
      invariant forall j: nat | j < i :: Done(v.P, ms, ops, os, j)
      invariant v.Sound() && (v.gcWait <==> InVain(os)) && Unsafe !in os
    {
      var stranded;
      ghost var o;
      stranded, o := Perform(v, ops[i], os);
      ghost var ms', os' := ms + [MomentOf(v)], os + [o];
      forall j: nat | j <= i ensures Done(v.P, ms', ops, os', j) {
        if j < i { DoneStill(v.P, ms, ops, os, j, MomentOf(v), o); } else { DoneNow(v.P, ms, ops, os, MomentOf(v), o); }
      }
      InVainMore(os, o);
      os, ms := os', ms';
      if stranded {
        return;
      }
      i := i + 1;
    }
  }
}
