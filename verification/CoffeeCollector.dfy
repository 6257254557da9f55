/** What the garbage collector of the Coffee file system (cfs-coffee.c) does to a flash image. */
module CoffeeCollector {
  import opened Numbers
  import opened CoffeeWalk

  datatype Mode = Greedy | Reluctant

  /** No active extent owns a page of the sector that starts at page b. */
  ghost predicate Idle(f: seq<Page>, P: pos, b: nat)
    requires Walkable(f, P)
  {
    forall q | q in Starts(f, P, 0, |f|) :: q + f[q].hdr.maxPages <= b || b + P <= q
  }

  /** The walk from p to e meets free pages. */
  ghost predicate MeetsFree(f: seq<Page>, P: pos, p: nat, e: nat)
    requires Ok(f, P, p, e)
    decreases e - p
  {
    p < e && (f[p].hdr.Free() || MeetsFree(f, P, Next(f[p].hdr, p, P), e))
  }

  /** The sector at page b is one that a collection in this mode must erase. A greedy collection
      takes every sector without active pages, unless the walk finds it free from its first page
      on; a reluctant one only those without free pages. */
  ghost predicate Due(mode: Mode, f: seq<Page>, P: pos, b: nat)
    requires Walkable(f, P)
  {
    && Boundary(b, P) && b + P <= |f| && Idle(f, P, b)
    && match mode {
         case Greedy => !(Visits(f, P, b) && f[b].hdr.Free())
         case Reluctant => Ok(f, P, 0, b) && Ok(f, P, Land(f, P, 0, b), b + P)
           && !MeetsFree(f, P, Land(f, P, 0, b), b + P)
       }
  }

  ghost predicate AllErased(f: seq<Page>, b: nat, e: nat) {
    e <= |f| && forall q | b <= q < e :: f[q] == Erased()
  }

  /** struct sector_status */
  datatype SectorStatus = SectorStatus(active: nat, obsolete: nat, free: nat)

  /** What the header scan of get_sector_status counts from page p up to page e, and whether
      the last extent it met was active. */
  datatype Tally = Tally(active: nat, obsolete: nat, free: nat, last: bool)

  ghost function Count(f: seq<Page>, P: pos, p: nat, e: nat, last: bool): Tally
    requires Ok(f, P, p, e)
    decreases e - p
  {
    if p >= e then Tally(0, 0, 0, last) else
    var h := f[p].hdr;
    if h.Free() then Tally(0, 0, e - p, false) else
    var t := Count(f, P, Next(h, p, P), e, h.Active());
    if h.Active() then t.(active := t.active + h.maxPages)
    else t.(obsolete := t.obsolete + if h.isolated then 1 else h.maxPages)
  }

  /** The count says how far the walk goes and what it meets. */
  lemma {:induction false} CountMeans(f: seq<Page>, P: pos, p: nat, b: nat, last: bool)
    requires Boundary(b, P) && b <= p <= b + P <= |f| && Ok(f, P, p, b + P)
    ensures var t := Count(f, P, p, b + P, last);
      && Land(f, P, p, b + P) == p + t.active + t.obsolete + t.free
      && (t.active == 0 <==> Starts(f, P, p, b + P) == {})
      && (t.free > 0 <==> MeetsFree(f, P, p, b + P))
      && (t.active + t.obsolete == 0 <==> p == b + P || f[p].hdr.Free())
      && (p == b + P || (if t.last then t.obsolete else t.active) < b + P - p)
      && (p == b + P ==> t == Tally(0, 0, 0, last))
    decreases b + P - p
  {
    var e := b + P;
    if p < e {
      var h := f[p].hdr;
      var n := Next(h, p, P);
      if h.Free() {
        SectorEndIs(b, p, P);
      } else if n <= e {
        CountMeans(f, P, n, b, h.Active());
        assert Starts(f, P, p, e) == (if h.Active() then {p} else {}) + Starts(f, P, n, e);
      } else {
        assert Starts(f, P, n, e) == {};
        assert Starts(f, P, p, e) == if h.Active() then {p} else {};
      }
    }
  }

  lemma FreeToEnd(f: seq<Page>, P: pos, p: nat, b: nat)
    requires Boundary(b, P) && b <= p < b + P <= |f| && NodeOk(f, P, p) && f[p].hdr.Free()
    ensures Next(f[p].hdr, p, P) == b + P && AllErased(f, p, b + P)
  {
    SectorEndIs(b, p, P);
  }

  /** Free pages end the sector, and are blank. */
  lemma {:induction false} CountFree(f: seq<Page>, P: pos, p: nat, b: nat, last: bool)
    requires Boundary(b, P) && b <= p <= b + P <= |f| && Ok(f, P, p, b + P)
    ensures var t := Count(f, P, p, b + P, last);
      t.free > 0 ==> p + t.active + t.obsolete + t.free == b + P && !t.last && AllErased(f, b + P - t.free, b + P)
    decreases b + P - p
  {
    hide AllErased;
    if p < b + P {
      var h := f[p].hdr;
      if h.Free() {
        FreeToEnd(f, P, p, b);
      } else if Next(h, p, P) <= b + P {
        CountFree(f, P, Next(h, p, P), b, h.Active());
      }
    }
  }

  /** It says whether the last extent on the walk is active. */
  lemma {:induction false} CountEnds(f: seq<Page>, P: pos, p: nat, b: nat, last: bool)
    requires Boundary(b, P) && b <= p <= b + P <= |f| && Ok(f, P, p, b + P)
    ensures EndsActive(f, P, p, b + P) || p == b + P || !Count(f, P, p, b + P, last).last
    ensures EndsIn(f, P, p, b + P) || Count(f, P, p, b + P, last).last
    decreases b + P - p
  {
    hide AllErased;
    var e := b + P;
    if p < e {
      var h := f[p].hdr;
      var n := Next(h, p, P);
      if h.Free() {
        FreeToEnd(f, P, p, b);
        assert Starts(f, P, p, e) == Starts(f, P, n, e) == {};
      } else if n < e {
        CountEnds(f, P, n, b, h.Active());
        assert Starts(f, P, p, e) == (if h.Active() then {p} else {}) + Starts(f, P, n, e);
        assert EndsActive(f, P, n, e) ==> EndsActive(f, P, p, e);
      } else {
        assert Starts(f, P, p, e) == if h.Active() then {p} else {};
        assert h.Active() ==> p in Starts(f, P, p, e) && p + h.maxPages == Land(f, P, p, e);
      }
    }
  }

  /** The last extent on the walk from p to e is active. */
  ghost predicate EndsActive(f: seq<Page>, P: pos, p: nat, e: nat)
    requires Ok(f, P, p, e)
  {
    exists q :: q in Starts(f, P, p, e) && q + f[q].hdr.maxPages == Land(f, P, p, e)
  }

  /** No active extent on the walk from p to e reaches beyond e. */
  ghost predicate EndsIn(f: seq<Page>, P: pos, p: nat, e: nat)
    requires Ok(f, P, p, e)
  {
    forall q | q in Starts(f, P, p, e) :: q + f[q].hdr.maxPages <= e
  }

  /** What get_sector_status found out about the sector [b, e): it read headers from page c on,
      `covered` says whether an active extent already reached into the sector, and `skip` and
      `last` are carried over to the next sector. */
  ghost predicate SectorReport(f: seq<Page>, P: pos, b: nat, e: nat, c: nat, covered: bool,
                               stats: SectorStatus, skip: nat, last: bool)
    requires b <= c && b + P == e <= |f| && Ok(f, P, c, e)
  {
    && stats.active + stats.obsolete + stats.free == P
    && (stats.active == 0 <==> !covered && Starts(f, P, c, e) == {})
    && (stats.free > 0 <==> MeetsFree(f, P, c, e))
    && (stats.free > 0 ==> skip == 0 && stats.free <= e && AllErased(f, e - stats.free, e))
    && (stats.active == 0 ==> (stats.obsolete == 0 <==> c == b && f[c].hdr.Free()))
    && (last && skip > 0 ==> if c < e then EndsActive(f, P, c, e) else covered)
    && (!last ==> (covered ==> c < e) && EndsIn(f, P, c, e))
  }

  /** The report that follows from the count of a sector whose first `carried` pages belong to an
      extent of an earlier sector. */
  lemma Report(f: seq<Page>, P: pos, b: nat, c: nat, last: bool, active: nat, obsolete: nat, t: Tally)
    requires Boundary(b, P) && b <= c < b + P <= |f| && Ok(f, P, c, b + P)
    requires t == Count(f, P, c, b + P, last)
    requires active == t.active + if last then c - b else 0
    requires obsolete == t.obsolete + if last then 0 else c - b
    ensures active + obsolete + t.free >= P
    ensures (if t.last then obsolete else active) <= P
    ensures Land(f, P, c, b + P) == b + active + obsolete + t.free
    ensures SectorReport(f, P, b, b + P, c, last && c > b, Stats(active, obsolete, t, P),
                         active + obsolete + t.free - P, t.last)
  {
    CountMeans(f, P, c, b, last);
    CountFree(f, P, c, b, last);
    CountEnds(f, P, c, b, last);
  }

  /** The report on a sector that lies within an extent of an earlier one. */
  lemma ReportCovered(f: seq<Page>, P: pos, b: nat, c: nat, last: bool)
    requires b + P <= c && b + P <= |f| && Ok(f, P, c, b + P)
    ensures Land(f, P, c, b + P) == c
    ensures SectorReport(f, P, b, b + P, c, last && c > b,
      if last then SectorStatus(P, 0, 0) else SectorStatus(0, P, 0),
                         c - b - P, last)
  {}

  /** The pages beyond the end of the sector belong to its last extent. */
  function Stats(active: nat, obsolete: nat, t: Tally, P: pos): SectorStatus
    requires (if t.last then obsolete else active) <= P
  {
    if active + obsolete + t.free <= P then SectorStatus(active, obsolete, t.free)
    else if t.last then SectorStatus(P - obsolete, obsolete, t.free)
    else SectorStatus(active, P - active, t.free)
  }

  /** Page b can be reached from page 0, or an obsolete extent lies over it up to page c, in which case
      its remaining pages are isolated or will all be erased. */
  ghost predicate Bridged(f: seq<Page>, P: pos, b: nat, c: nat, last: bool) {
    && b <= c <= |f|
    && Ok(f, P, 0, b)
    && (|| Land(f, P, 0, b) == c
        || (&& Land(f, P, 0, b) == b
            && !last
            && (b + P <= c || forall q | b <= q < c :: f[q].hdr == ISOLATED_HEADER)))
  }

  /** The scan of image f0 has passed the sectors before page b: c is the first page that it has
      not classified, and `last` says whether the extent before c is active. */
  ghost predicate Scanned(f0: seq<Page>, P: pos, b: nat, c: nat, last: bool) {
    && Boundary(b, P) && b <= |f0|
    && Ok(f0, P, 0, |f0|) && Ok(f0, P, 0, b) && c == Land(f0, P, 0, b)
    && (last && c > b ==> EndsActive(f0, P, 0, b))
    && (!last ==> EndsIn(f0, P, 0, b))
  }

  /** What collection has made of image f0 when the scan is at page c. */
  ghost predicate Collected(f0: seq<Page>, f: seq<Page>, P: pos, b: nat, c: nat, last: bool)
    requires Ok(f0, P, 0, b)
  {
    && Bridged(f, P, b, c, last)
    && Starts(f, P, 0, b) == Starts(f0, P, 0, b)
    && Same(f0, f, c, |f|)
    && (forall q | q in Starts(f0, P, 0, b) :: Same(f0, f, q, q + f0[q].hdr.maxPages))
  }

  ghost predicate Same(f: seq<Page>, g: seq<Page>, lo: nat, hi: nat) {
    |f| == |g| && hi <= |f| && forall q | lo <= q < hi :: f[q] == g[q]
  }

  lemma ScanStep(f0: seq<Page>, f: seq<Page>, P: pos, b: nat, c: nat, last: bool, stats: SectorStatus, c': nat,
                 last': bool)
    requires Scanned(f0, P, b, c, last) && b + P <= |f0| && Same(f0, f, c, |f|)
    requires Ok(f, P, c, b + P) && c' == Land(f, P, c, b + P)
    requires SectorReport(f, P, b, b + P, c, last && c > b, stats, c' - (b + P), last')
    ensures Scanned(f0, P, b + P, c', last')
    ensures Starts(f0, P, 0, b + P) == Starts(f0, P, 0, b) + Starts(f, P, c, b + P)
  {
    var e := b + P;
    NextBoundary(b, P);
    Frame(f, f0, P, c, e);
    Join(f0, P, 0, b, e);
    if last' && c' > e {
      if c < e {
        var q :| q in Starts(f, P, c, e) && q + f[q].hdr.maxPages == Land(f, P, c, e);
        assert q in Starts(f0, P, 0, e);
      } else {
        var q :| q in Starts(f0, P, 0, b) && q + f0[q].hdr.maxPages == Land(f0, P, 0, b);
        assert q in Starts(f0, P, 0, e);
      }
      assert EndsActive(f0, P, 0, e);
    }
    if !last' {
      forall q | q in Starts(f0, P, 0, e) ensures q + f0[q].hdr.maxPages <= e {
        if q in Starts(f0, P, 0, b) {
          EndsBeforeLand(f0, P, 0, b, q);
        } else {
          assert q in Starts(f, P, c, e);
        }
      }
    }
  }

  /** A sector that stays. */
  lemma KeepStep(f0: seq<Page>, f: seq<Page>, P: pos, b: nat, c: nat, last: bool, stats: SectorStatus, c': nat,
                 last': bool)
    requires Scanned(f0, P, b, c, last) && b + P <= |f0| && Collected(f0, f, P, b, c, last)
    requires Ok(f, P, c, b + P) && c' == Land(f, P, c, b + P)
    requires SectorReport(f, P, b, b + P, c, last && c > b, stats, c' - (b + P), last')
    requires stats.active > 0 || stats.free > 0 || stats.obsolete == 0
    ensures Scanned(f0, P, b + P, c', last') && Collected(f0, f, P, b + P, c', last')
  {
    hide Ok, Land, Starts;
    var e := b + P;
    ScanStep(f0, f, P, b, c, last, stats, c', last');
    if Land(f, P, 0, b) != c {
      WalkIsolated(f, P, b, c);
      Join(f, P, b, c, e);
    }
    Join(f, P, 0, b, e);
    forall q | q in Starts(f0, P, 0, e) ensures Same(f0, f, q, q + f0[q].hdr.maxPages) {
      if q !in Starts(f0, P, 0, b) {
        assert q in Starts(f, P, c, e);
      }
    }
  }

  /** The sector [b, b + P) has been erased and `isolation` pages behind it isolated. */
  ghost predicate Reclaimed(f: seq<Page>, g: seq<Page>, P: pos, b: nat, isolation: nat) {
    && |f| == |g| && b + P + isolation <= |f|
    && (forall q | 0 <= q < |f| && !(b <= q < b + P + isolation) :: g[q] == f[q])
    && AllErased(g, b, b + P)
    && (forall q | b + P <= q < b + P + isolation :: g[q] == f[q].(hdr := ISOLATED_HEADER))
  }

  lemma WalkErased(g: seq<Page>, P: pos, b: nat, x: nat)
    requires Boundary(b, P) && AllErased(g, b, b + P) && b <= x
    ensures Ok(g, P, x, b + P) && Starts(g, P, x, b + P) == {}
    ensures Land(g, P, x, b + P) == if x < b + P then b + P else x
  {
    if x < b + P {
      SectorEndIs(b, x, P);
      assert g[x] == Erased();
      assert Next(g[x].hdr, x, P) == b + P;
    }
  }

  /** Unless an active extent reaches beyond b, all of those met so far end before b. */
  lemma EndBefore(f0: seq<Page>, P: pos, b: nat, c: nat, last: bool)
    requires Scanned(f0, P, b, c, last) && !(last && c > b)
    ensures EndsIn(f0, P, 0, b)
  {
    if last {
      forall q | q in Starts(f0, P, 0, b) ensures q + f0[q].hdr.maxPages <= b {
        EndsBeforeLand(f0, P, 0, b, q);
      }
    }
  }

  /** A sector without active pages that is reclaimed. */
  lemma ReclaimStep(f0: seq<Page>, f: seq<Page>, g: seq<Page>, P: pos, b: nat, c: nat, last: bool,
                    stats: SectorStatus, c': nat, last': bool, isolation: nat)
    requires Scanned(f0, P, b, c, last) && b + P <= |f0| && Collected(f0, f, P, b, c, last)
    requires Ok(f, P, c, b + P) && c' == Land(f, P, c, b + P)
    requires SectorReport(f, P, b, b + P, c, last && c > b, stats, c' - (b + P), last')
    requires stats.active == 0
    requires isolation == if last' || c' - (b + P) >= P then 0 else c' - (b + P)
    requires Reclaimed(f, g, P, b, isolation)
    ensures Scanned(f0, P, b + P, c', last') && Collected(f0, g, P, b + P, c', last')
  {
    hide Ok, Land, Starts;
    var e := b + P;
    ScanStep(f0, f, P, b, c, last, stats, c', last');
    Frame(f, g, P, 0, b);
    WalkErased(g, P, b, Land(g, P, 0, b));
    Join(g, P, 0, b, e);
    EndBefore(f0, P, b, c, last);
  }

  /** When no obsolete pages are pending, the collected image can be walked to its end. */
  lemma Finish(f0: seq<Page>, f: seq<Page>, P: pos, b: nat, c: nat, last: bool)
    requires Scanned(f0, P, b, c, last) && Collected(f0, f, P, b, c, last)
    requires Boundary(|f0|, P) && c < b + P
    ensures Walkable(f, P) && Walkable(f0, P) && Extents(f, P) == Extents(f0, P)
  {
    hide Ok, Land, Starts;
    Split(f0, P, 0, b, |f0|);
    Frame(f0, f, P, c, |f|);
    if Land(f, P, 0, b) != c {
      WalkIsolated(f, P, b, c);
      Join(f, P, b, c, |f|);
    }
    Join(f, P, 0, b, |f|);
    SameExtents(f0, f, P);
  }

  lemma SameExtents(f: seq<Page>, g: seq<Page>, P: pos)
    requires Walkable(f, P) && Walkable(g, P) && Starts(f, P, 0, |f|) == Starts(g, P, 0, |g|)
    requires forall q | q in Starts(f, P, 0, |f|) :: Same(f, g, q, q + f[q].hdr.maxPages)
    ensures Extents(f, P) == Extents(g, P)
  {
    hide Ok, Land, Starts;
    forall q | q in Starts(f, P, 0, |f|) ensures f[q..q + f[q].hdr.maxPages] == g[q..q + g[q].hdr.maxPages] {
      assert Same(f, g, q, q + f[q].hdr.maxPages);
    }
  }

  lemma {:induction false} FrameFree(f: seq<Page>, g: seq<Page>, P: pos, p: nat, e: nat)
    requires Ok(f, P, p, e) && Ok(g, P, p, e) && Same(f, g, p, e)
    ensures MeetsFree(f, P, p, e) == MeetsFree(g, P, p, e)
    decreases e - p
  {
    if p < e {
      FrameFree(f, g, P, Next(f[p].hdr, p, P), e);
    }
  }

  /** The test of collect_garbage. */
  predicate Erasable(mode: Mode, stats: SectorStatus) {
    stats.active == 0 && ((mode == Reluctant && stats.free == 0) || (mode == Greedy && stats.obsolete > 0))
  }

  /** The collector erases a sector exactly when it is due. */
  lemma DueMeans(mode: Mode, f0: seq<Page>, f: seq<Page>, P: pos, b: nat, c: nat, last: bool, stats: SectorStatus,
                 c': nat, last': bool)
    requires Scanned(f0, P, b, c, last) && b + P <= |f0| && Same(f0, f, c, |f|)
    requires Ok(f, P, c, b + P) && c' == Land(f, P, c, b + P)
    requires SectorReport(f, P, b, b + P, c, last && c > b, stats, c' - (b + P), last')
    ensures Erasable(mode, stats) <==> Due(mode, f0, P, b)
  {
    hide Land, Starts, Ok, MeetsFree;
    ScanStep(f0, f, P, b, c, last, stats, c', last');
    Split(f0, P, 0, b + P, |f0|);
    NextBoundary(b, P);
    Frame(f, f0, P, c, b + P);
    FrameFree(f, f0, P, c, b + P);
    if stats.active == 0 {
      EndBefore(f0, P, b, c, last);
      assert Idle(f0, P, b);
    }
  }

  /** Page q belongs to an obsolete extent that reaches into its sector from a due one. */
  ghost predicate Overhang(mode: Mode, f0: seq<Page>, P: pos, q: nat)
    requires Walkable(f0, P)
  {
    var s := SectorStart(q, P);
    P <= s && Due(mode, f0, P, s - P) && Ok(f0, P, 0, s) && q < Land(f0, P, 0, s)
  }

  /** What a collection of f0 has made of each page, up to page b: due sectors are erased, obsolete
      pages that have lost their header are isolated, and nothing else is touched. */
  ghost predicate Reworked(mode: Mode, f0: seq<Page>, f: seq<Page>, P: pos, b: nat)
    requires Walkable(f0, P)
  {
    && |f| == |f0|
    && (forall t | 0 <= t <= b - P && Due(mode, f0, P, t) :: AllErased(f, t, t + P))
    && (forall q | 0 <= q < |f| ::
          || f[q] == f0[q]
          || (f[q] == f0[q].(hdr := ISOLATED_HEADER) && Overhang(mode, f0, P, q))
          || (q < b && f[q] == Erased() && Due(mode, f0, P, SectorStart(q, P))))
  }

  /** The obsolete pages that have lost their header are isolated, in sectors up to page b. */
  ghost predicate CutOff(mode: Mode, f0: seq<Page>, f: seq<Page>, P: pos, b: nat)
    requires Walkable(f0, P)
  {
    && |f| == |f0|
    && forall q | 0 <= q < |f| && Overhang(mode, f0, P, q) && SectorStart(q, P) <= b
       && !Due(mode, f0, P, SectorStart(q, P)) ::
         f[q] == f0[q].(hdr := ISOLATED_HEADER)
  }

  /** So the image that a greedy collection leaves is known page by page. */
  ghost function Swept(f0: seq<Page>, P: pos): (f: seq<Page>)
    requires Walkable(f0, P)
    ensures |f| == |f0|
  {
    seq(|f0|, q requires 0 <= q < |f0| =>
      if Due(Greedy, f0, P, SectorStart(q, P)) then Erased()
      else if Overhang(Greedy, f0, P, q) then f0[q].(hdr := ISOLATED_HEADER) else f0[q])
  }

  lemma SweptIs(f0: seq<Page>, f: seq<Page>, P: pos)
    requires Walkable(f0, P) && Boundary(|f0|, P)
    requires Reworked(Greedy, f0, f, P, |f0|) && CutOff(Greedy, f0, f, P, |f0|)
    ensures f == Swept(f0, P)
  {
    hide Due, Overhang, Ok, Land, Starts, Erased;
    forall q: nat | q < |f| ensures f[q] == Swept(f0, P)[q] {
      var s := SectorStart(q, P);
      if Due(Greedy, f0, P, s) {
        SectorInside(q, |f0|, P);
        assert AllErased(f, s, s + P);
      }
    }
  }

  lemma SectorInside(q: nat, end: nat, P: pos)
    requires Boundary(end, P) && q < end
    ensures Boundary(SectorStart(q, P), P) && SectorStart(q, P) <= q < SectorStart(q, P) + P <= end
  {
    MulBoundary(q / P, P);
    SectorEndWithin(q, end, P);
  }

  /** Where the allocator starts its search: at the first due sector before b, if that is lower. */
  ghost predicate SearchStart(mode: Mode, f0: seq<Page>, P: pos, b: nat, nf0: nat, nf: nat)
    requires Walkable(f0, P)
  {
    && nf <= nf0
    && (nf < nf0 ==> Due(mode, f0, P, nf) && nf + P <= |f0|)
    && (forall t | 0 <= t <= b - P && t < nf :: !Due(mode, f0, P, t))
  }

  /** An obsolete extent reaches from the sector at page b into the next one, and ends there. */
  ghost predicate Cuts(f0: seq<Page>, P: pos, b: nat) {
    b + P <= |f0| && Ok(f0, P, 0, b + P) && b + P < Land(f0, P, 0, b + P) < b + P + P
  }

  /** A reluctant pass ends behind the sector at page b if it comes that far. */
  ghost predicate Stops(mode: Mode, f0: seq<Page>, P: pos, b: nat)
    requires Walkable(f0, P)
  {
    mode == Reluctant && Due(mode, f0, P, b) && Cuts(f0, P, b)
  }

  /** None of the sectors below page b ends a pass, except perhaps the last of them. */
  ghost predicate RunsTo(mode: Mode, f0: seq<Page>, P: pos, b: nat)
    requires Walkable(f0, P)
  {
    forall t: nat | t + P < b :: !Stops(mode, f0, P, t)
  }

  lemma NothingStops(mode: Mode, f0: seq<Page>, P: pos)
    requires Walkable(f0, P)
    ensures RunsTo(mode, f0, P, 0)
  {}

  lemma RunsOn(mode: Mode, f0: seq<Page>, P: pos, b: nat)
    requires Walkable(f0, P) && Boundary(b, P) && RunsTo(mode, f0, P, b)
    requires b == 0 || (b >= P && !Stops(mode, f0, P, b - P))
    ensures RunsTo(mode, f0, P, b + P)
  {
    hide Due, Cuts;
    DueApart(mode, f0, P, b);
  }

  /** What collect_garbage keeps from sector to sector. */
  ghost predicate Collecting(mode: Mode, f0: seq<Page>, f: seq<Page>, P: pos, b: nat, c: nat, last: bool, nf0: nat,
                             nf: nat) {
    && Scanned(f0, P, b, c, last)
    && Collected(f0, f, P, b, c, last)
    && Reworked(mode, f0, f, P, b)
    && CutOff(mode, f0, f, P, b)
    && SearchStart(mode, f0, P, b, nf0, nf)
    && (forall q | 0 <= q < nf && q < |f| :: f[q] == f0[q])
  }

  lemma CollectStart(mode: Mode, f0: seq<Page>, P: pos, nf0: nat)
    requires Walkable(f0, P)
    ensures Collecting(mode, f0, f0, P, 0, 0, false, nf0, nf0)
  {}

  lemma CollectScan(mode: Mode, f0: seq<Page>, f: seq<Page>, P: pos, b: nat, c: nat, last: bool, nf0: nat, nf: nat)
    requires Collecting(mode, f0, f, P, b, c, last, nf0, nf)
    ensures |f| == |f0| && b <= c <= |f| && Boundary(b, P)
    ensures b + P <= |f| ==> Ok(f, P, c, b + P)
  {
    hide Ok, Land, Starts, Due;
    if b + P <= |f| {
      NextBoundary(b, P);
      Split(f0, P, 0, b, |f0|);
      Split(f0, P, c, b + P, |f0|);
      Frame(f0, f, P, c, b + P);
    }
  }

  lemma CollectKeep(mode: Mode, f0: seq<Page>, f: seq<Page>, P: pos, b: nat, c: nat, last: bool, nf0: nat, nf: nat,
                    stats: SectorStatus, c': nat, last': bool)
    requires Collecting(mode, f0, f, P, b, c, last, nf0, nf) && b + P <= |f|
    requires Ok(f, P, c, b + P) && c' == Land(f, P, c, b + P)
    requires SectorReport(f, P, b, b + P, c, last && c > b, stats, c' - (b + P), last')
    requires !Erasable(mode, stats)
    requires Boundary(|f0|, P)
    ensures Collecting(mode, f0, f, P, b + P, c', last', nf0, nf)
    ensures !Due(mode, f0, P, b)
  {
    hide Ok, Land, Starts, Due, Reworked, CutOff, SearchStart, SectorReport;
    KeepStep(f0, f, P, b, c, last, stats, c', last');
    DueMeans(mode, f0, f, P, b, c, last, stats, c', last');
    ReworkKept(mode, f0, f, P, b, nf0, nf);
    CutOffKept(mode, f0, f, P, b);
  }

  lemma ReworkKept(mode: Mode, f0: seq<Page>, f: seq<Page>, P: pos, b: nat, nf0: nat, nf: nat)
    requires Walkable(f0, P) && Boundary(b, P) && !Due(mode, f0, P, b)
    requires Reworked(mode, f0, f, P, b) && SearchStart(mode, f0, P, b, nf0, nf)
    ensures Reworked(mode, f0, f, P, b + P) && SearchStart(mode, f0, P, b + P, nf0, nf)
  {
    hide Ok, Land, Starts, Due;
    DueApart(mode, f0, P, b);
  }

  lemma CutOffKept(mode: Mode, f0: seq<Page>, f: seq<Page>, P: pos, b: nat)
    requires Walkable(f0, P) && Boundary(|f0|, P) && Boundary(b, P) && CutOff(mode, f0, f, P, b) && !Due(mode, f0, P, b)
    ensures CutOff(mode, f0, f, P, b + P)
  {
    hide Ok, Land, Starts, Due, SectorStart;
    NextBoundary(b, P);
    forall q: nat | q < |f| && Overhang(mode, f0, P, q) && b < SectorStart(q, P) <= b + P ensures false {
      SectorInside(q, |f0|, P);
      SectorApart(SectorStart(q, P), b, P);
    }
  }

  /** Sectors follow each other at a distance of P pages. */
  lemma DueApart(mode: Mode, f0: seq<Page>, P: pos, b: nat)
    requires Boundary(b, P) && Walkable(f0, P)
    ensures forall t: nat | b - P < t < b :: !Due(mode, f0, P, t)
  {
    hide Ok, Land, Starts;
    forall t: nat | b - P < t < b && Due(mode, f0, P, t) ensures false {
      SectorEndIs(t, t, P);
      SectorEndWithin(t, b, P);
    }
  }

  lemma ReworkStep(mode: Mode, f0: seq<Page>, f: seq<Page>, g: seq<Page>, P: pos, b: nat, isolation: nat)
    requires Walkable(f0, P) && Boundary(b, P) && Reworked(mode, f0, f, P, b) && Due(mode, f0, P, b)
    requires Reclaimed(f, g, P, b, isolation)
    requires Ok(f0, P, 0, b + P) && (isolation > 0 ==> Land(f0, P, 0, b + P) == b + P + isolation < b + P + P)
    ensures Reworked(mode, f0, g, P, b + P)
  {
    hide Ok, Land, Starts, Due, SectorStart, Erased;
    DueApart(mode, f0, P, b);
    forall t | 0 <= t <= b && Due(mode, f0, P, t) ensures AllErased(g, t, t + P) {
      if t != b { assert AllErased(f, t, t + P); }
    }
    forall q | 0 <= q < |g|
      ensures
        || g[q] == f0[q] || (g[q] == f0[q].(hdr := ISOLATED_HEADER) && Overhang(mode, f0, P, q))
        || (q < b + P && g[q] == Erased() && Due(mode, f0, P, SectorStart(q, P)))
    {
      if b <= q < b + P { SectorEndIs(b, q, P); }
      if b + P <= q < b + P + isolation { NextBoundary(b, P); SectorEndIs(b + P, q, P); }
    }
  }

  /** A sector that an obsolete extent covers from a due one on is due too. */
  lemma CoveredDue(mode: Mode, f0: seq<Page>, P: pos, b: nat)
    requires Walkable(f0, P) && Due(mode, f0, P, b) && b + P + P <= |f0|
    requires Ok(f0, P, 0, b + P) && Land(f0, P, 0, b + P) >= b + P + P
    ensures Due(mode, f0, P, b + P)
  {
    hide Starts;
    NextBoundary(b, P);
    Split(f0, P, 0, b + P, |f0|);
    assert Idle(f0, P, b + P);
  }

  lemma CutOffStep(mode: Mode, f0: seq<Page>, f: seq<Page>, g: seq<Page>, P: pos, b: nat, isolation: nat)
    requires Walkable(f0, P) && Boundary(|f0|, P) && Boundary(b, P) && Due(mode, f0, P, b)
    requires Reworked(mode, f0, f, P, b) && CutOff(mode, f0, f, P, b) && Reclaimed(f, g, P, b, isolation)
    requires Ok(f0, P, 0, b + P) && (Cuts(f0, P, b) ==> isolation == Land(f0, P, 0, b + P) - (b + P))
    ensures CutOff(mode, f0, g, P, b + P)
  {
    hide Ok, Land, Starts, Due, SectorStart, Erased;
    forall q: nat | q < |g| && Overhang(mode, f0, P, q) && SectorStart(q, P) <= b + P
      && !Due(mode, f0, P, SectorStart(q, P))
      ensures g[q] == f0[q].(hdr := ISOLATED_HEADER)
    {
      var s := SectorStart(q, P);
      SectorInside(q, |f0|, P);
      if s < b + P {
        SectorApart(s, b, P);
      } else if !Cuts(f0, P, b) {
        CoveredDue(mode, f0, P, b);
      }
    }
  }

  lemma SectorApart(s: nat, b: nat, P: pos)
    requires Boundary(s, P) && Boundary(b, P) && s < b + P
    ensures s == b || s + P <= b
  {
    if s < b {
      SectorEndIs(s, s, P);
      SectorEndWithin(s, b, P);
    } else if b < s {
      SectorEndIs(b, b, P);
      SectorEndWithin(b, s, P);
    }
  }

  lemma CollectReclaim(mode: Mode, f0: seq<Page>, f: seq<Page>, g: seq<Page>, P: pos, b: nat, c: nat, last: bool,
                       nf0: nat, nf: nat, stats: SectorStatus, c': nat, last': bool, isolation: nat)
    requires Collecting(mode, f0, f, P, b, c, last, nf0, nf) && b + P <= |f|
    requires Ok(f, P, c, b + P) && c' == Land(f, P, c, b + P)
    requires SectorReport(f, P, b, b + P, c, last && c > b, stats, c' - (b + P), last')
    requires Erasable(mode, stats) && Reclaimed(f, g, P, b, isolation) && Boundary(|f0|, P)
    requires isolation == if last' || c' - (b + P) >= P then 0 else c' - (b + P)
    ensures Collecting(mode, f0, g, P, b + P, c', last', nf0, if b < nf then b else nf)
    ensures Due(mode, f0, P, b) && Ok(f0, P, 0, b + P) && (isolation > 0 <==> Cuts(f0, P, b))
  {
    hide Ok, Land, Starts, Due;
    ReclaimStep(f0, f, g, P, b, c, last, stats, c', last', isolation);
    DueMeans(mode, f0, f, P, b, c, last, stats, c', last');
    DueApart(mode, f0, P, b);
    if last' && c' > b + P { IdleEndsObsolete(f, P, b, c, last && c > b, stats, c', last'); }
    ReworkStep(mode, f0, f, g, P, b, isolation);
    CutOffStep(mode, f0, f, g, P, b, isolation);
  }

  /** No active extent reaches out of a sector without active pages. */
  lemma IdleEndsObsolete(f: seq<Page>, P: pos, b: nat, c: nat, covered: bool, stats: SectorStatus, c': nat, last: bool)
    requires b <= c && b + P <= |f| && Ok(f, P, c, b + P) && c' == Land(f, P, c, b + P) && c' > b + P
    requires SectorReport(f, P, b, b + P, c, covered, stats, c' - (b + P), last) && stats.active == 0
    ensures !last
  {}

  lemma CollectDone(mode: Mode, f0: seq<Page>, f: seq<Page>, P: pos, b: nat, c: nat, last: bool, nf0: nat, nf: nat)
    requires Collecting(mode, f0, f, P, b, c, last, nf0, nf) && Boundary(|f0|, P) && c < b + P
    ensures Walkable(f, P) && Walkable(f0, P) && Extents(f, P) == Extents(f0, P)
    ensures Reworked(mode, f0, f, P, b) && CutOff(mode, f0, f, P, b) && SearchStart(mode, f0, P, b, nf0, nf)
    ensures nf <= |f| ==> (Visits(f, P, nf) <==> Visits(f0, P, nf))
  {
    hide Ok, Land, Starts, Due;
    Finish(f0, f, P, b, c, last);
    if nf <= |f| {
      if Visits(f0, P, nf) { FrameVisit(f0, f, P, 0, nf); }
      if Visits(f, P, nf) { FrameVisit(f, f0, P, 0, nf); }
    }
  }
}
