/** The garbage collector and the page allocator of the Coffee file system (cfs-coffee.c). */
module CoffeeVolume {
  import opened Numbers
  import opened Bits
  import opened CoffeeWalk
  import opened CoffeeCollector
  import opened CoffeeExtents
  import opened CoffeeSpare
  import opened Wrappers

  /** The header that find_file looks for. */
  predicate Named(f: seq<Page>, q: nat, name: string) {
    q < |f| && !f[q].hdr.log && f[q].hdr.name == name
  }

  /** The header that reserve writes. */
  function FileHeader(name: string, pages: nat, log: bool): Header {
    NO_HEADER.(valid := true, alloc := true, log := log, maxPages := pages, name := name)
  }

  /** The header at the page becomes that of an obsolete extent. */
  function Discarding(f: seq<Page>, page: nat): (g: seq<Page>)
    requires page < |f|
    ensures |g| == |f|
  {
    f[page := f[page].(hdr := f[page].hdr.(obsolete := true, valid := true))]
  }

  lemma FoundInside(f: seq<Page>, P: pos, page: nat, pages: nat)
    requires pages > 0 && Fits(f, P, page, pages)
    ensures page + pages < |f| && f[page] == Erased()
  {
    FreeMeansErased(f, P, page, page + pages);
  }

  function FreshExtent(h: Header, pages: nat): (e: seq<Page>)
    requires pages > 0
  {
    [Erased().(hdr := h)] + seq(pages - 1, _ => Erased())
  }

  /** The sector where a collection would move next_free to starts on the walk: no obsolete extent
      reaches into it. */
  ghost predicate SafeToCollect(f: seq<Page>, P: pos, nf: nat)
    requires Walkable(f, P)
  {
    forall b | 0 <= b < nf && Due(Greedy, f, P, b) && (forall t | 0 <= t < b :: !Due(Greedy, f, P, t)) ::
      Visits(f, P, b)
  }

  /** A greedy collection keeps next_free on the walk exactly when it was safe. */
  lemma SafeExactly(f: seq<Page>, P: pos, nf0: nat, nf: nat)
    requires Walkable(f, P) && (nf0 < |f| ==> Visits(f, P, nf0)) && SearchStart(Greedy, f, P, |f|, nf0, nf)
    ensures (nf < |f| ==> Visits(f, P, nf)) <==> SafeToCollect(f, P, nf0)
  {
    hide Ok, Land, Starts, Due, Visits;
    forall t: nat | Due(Greedy, f, P, t) ensures t <= |f| - P {
      DueInside(Greedy, f, P, t);
    }
  }

  lemma DueInside(mode: Mode, f: seq<Page>, P: pos, t: nat)
    requires Walkable(f, P) && Due(mode, f, P, t)
    ensures t <= |f| - P
  {}

  /** After a greedy collection every sector that no active file uses is blank. */
  lemma IdleIsBlank(f0: seq<Page>, f: seq<Page>, P: pos, b: nat)
    requires Walkable(f0, P) && Reworked(Greedy, f0, f, P, |f0|)
    requires Boundary(b, P) && b + P <= |f0| && Idle(f0, P, b)
    ensures AllErased(f, b, b + P)
  {
    hide Land, Starts;
    if !Due(Greedy, f0, P, b) {
      Split(f0, P, 0, b, |f0|);
      SectorEndIs(b, b, P);
      forall q | b <= q < b + P ensures f[q] == Erased() {
        SectorEndIs(b, q, P);
        assert f0[q] == Erased();
        if f[q] != f0[q] { BlankNoOverhang(f0, P, b, q); }
      }
    }
  }

  lemma BlankNoOverhang(f0: seq<Page>, P: pos, b: nat, q: nat)
    requires Walkable(f0, P) && Visits(f0, P, b) && b == SectorStart(q, P)
    ensures !Overhang(Greedy, f0, P, q)
  {}

  lemma StartSearch(f: seq<Page>, P: pos, nf: nat)
    requires Walkable(f, P) && (nf < |f| ==> Visits(f, P, nf))
    ensures Ok(f, P, nf, |f|)
    ensures forall q: nat | On(f, P, nf, q) && nf < |f| && q <= |f| :: Visits(f, P, q)
  {
    if nf < |f| {
      Split(f, P, 0, nf, |f|);
      forall q: nat | On(f, P, nf, q) && q <= |f| ensures Visits(f, P, q) {
        Join(f, P, 0, nf, q);
      }
    }
  }

  /** The search from page nf finds a run of this many free pages. */
  ghost predicate HasRun(f: seq<Page>, P: pos, nf: nat, pages: nat) {
    exists q: nat :: On(f, P, nf, q) && Fits(f, P, q, pages)
  }

  /** What reserve needs to get this many pages: a run that the search finds, or else a collection that may be made,
      that is safe, and that makes one. */
  ghost predicate Grantable(f: seq<Page>, P: pos, nf: nat, gcWait: bool, pages: nat)
    requires Walkable(f, P)
  {
    HasRun(f, P, nf, pages) || (!gcWait && SafeToCollect(f, P, nf) && RunAfter(f, P, nf, pages))
  }

  /** The image that a greedy collection leaves has a run, from where the search starts then. */
  ghost predicate RunAfter(f: seq<Page>, P: pos, nf: nat, pages: nat)
    requires Walkable(f, P)
  {
    exists nf': nat :: SearchStart(Greedy, f, P, |f|, nf, nf') && HasRun(Swept(f, P), P, nf', pages)
  }

  lemma RunAfterIs(f: seq<Page>, P: pos, nf: nat, nf': nat, pages: nat)
    requires Walkable(f, P) && SearchStart(Greedy, f, P, |f|, nf, nf')
    ensures RunAfter(f, P, nf, pages) <==> HasRun(Swept(f, P), P, nf', pages)
  {
    hide Due, Swept, HasRun, Walkable;
    forall n: nat | SearchStart(Greedy, f, P, |f|, nf, n) ensures n == nf' {}
  }

  /** A run of pages has been found, and next_free is where it will be on the walk once the header is
      written. */
  ghost predicate Found(f: seq<Page>, P: pos, nf: nat, page: nat, pages: nat) {
    && Walkable(f, P) && Visits(f, P, page) && Fits(f, P, page, pages)
    && (nf == page + pages || (nf <= page && Visits(f, P, nf)))
  }

  /** First fit: the first run on the walk from page nf, and next_free moves only if it starts there. */
  ghost predicate FirstFit(f: seq<Page>, P: pos, nf: nat, pages: nat, page: nat, nf': nat) {
    && On(f, P, nf, page) && Fits(f, P, page, pages)
    && (forall q: nat | On(f, P, nf, q) && Fits(f, P, q, pages) :: page <= q)
    && nf' == if page == nf then nf + pages else nf
  }

  /** The image in which reserve finds its pages at last: the one that a greedy collection leaves, if it makes one. */
  ghost function Looked(f: seq<Page>, P: pos, nf: nat, gcWait: bool, pages: nat): (g: seq<Page>)
    requires Walkable(f, P)
    ensures |g| == |f|
  {
    if HasRun(f, P, nf, pages) || gcWait then f else Swept(f, P)
  }

  /** The pages that it finds there, and where next_free is then. */
  ghost predicate Searched(f: seq<Page>, P: pos, nf: nat, gcWait: bool, pages: nat, r: Option<nat>, nf': nat)
    requires Walkable(f, P)
  {
    if HasRun(f, P, nf, pages) then r.Some? && FirstFit(f, P, nf, pages, r.value, nf')
    else if gcWait then r.None? && nf' == nf
    else exists nf1: nat ::
      && SearchStart(Greedy, f, P, |f|, nf, nf1)
      && if r.Some? then FirstFit(Swept(f, P), P, nf1, pages, r.value, nf') else nf' == nf1
  }

  lemma SearchedAt(f: seq<Page>, P: pos, nf: nat, pages: nat, nf1: nat, r: Option<nat>, nf': nat)
    requires Walkable(f, P) && SearchStart(Greedy, f, P, |f|, nf, nf1) && !HasRun(f, P, nf, pages)
    requires if r.Some? then FirstFit(Swept(f, P), P, nf1, pages, r.value, nf') else nf' == nf1
    ensures Searched(f, P, nf, false, pages, r, nf') && Looked(f, P, nf, false, pages) == Swept(f, P)
  {}

  lemma SearchedAtOnce(f: seq<Page>, P: pos, nf: nat, gcWait: bool, pages: nat, r: Option<nat>, nf': nat)
    requires Walkable(f, P) && (if r.Some? then FirstFit(f, P, nf, pages, r.value, nf') else nf' == nf && gcWait)
    requires r.Some? <==> HasRun(f, P, nf, pages)
    ensures Searched(f, P, nf, gcWait, pages, r, nf') && Looked(f, P, nf, gcWait, pages) == f
  {}

  lemma FitFound(f: seq<Page>, P: pos, nf: nat, page: nat, pages: nat)
    requires Walkable(f, P) && (nf < |f| ==> Visits(f, P, nf)) && On(f, P, nf, page) && Fits(f, P, page, pages)
    ensures Found(f, P, if page == nf then nf + pages else nf, page, pages)
  {
    hide Ok, Land, Starts, FreeFrom;
    StartSearch(f, P, nf);
  }

  lemma LandStep(f: seq<Page>, P: pos, p: nat, b: nat)
    requires Ok(f, P, p, b) && p < b <= |f|
    ensures p < Next(f[p].hdr, p, P) <= |f| && Ok(f, P, Next(f[p].hdr, p, P), b)
    ensures Land(f, P, p, b) == Land(f, P, Next(f[p].hdr, p, P), b)
  {}

  class Volume {
    const P: pos                 // COFFEE_PAGES_PER_SECTOR
    const sectors: nat           // COFFEE_SECTOR_COUNT
    const flash: array<Page>
    var nextFree: nat            // *next_free
    var gcWait: bool             // *gc_wait
    var skipPages: nat           // static in get_sector_status
    var lastPagesAreActive: bool // static in get_sector_status

    constructor (P: pos, sectors: nat)
      ensures Valid() && fresh(flash) && this.P == P && this.sectors == sectors
      ensures forall q | 0 <= q < flash.Length :: flash[q] == Erased()
      ensures nextFree == 0 && !gcWait
    {
      this.P, this.sectors := P, sectors;
      flash := new Page[sectors * P](_ => Erased());
      nextFree, gcWait, skipPages, lastPagesAreActive := 0, false, 0, false;
    }

    predicate Valid()
      reads this
    {
      flash.Length == sectors * P
    }

    /** The header loop of get_sector_status. */
    method CountPages(start: nat, end: nat, last: bool, ghost f: seq<Page>) returns (t: Tally)
      requires f == flash[..] && start <= |f| && end <= |f| && Ok(f, P, start, end)
      ensures t == Count(f, P, start, end, last)
    {
      var page, lastPagesAreActive := start, last;
      var active: nat, obsolete: nat, free: nat := 0, 0, 0;
      while page < end
        invariant page <= |f| && Ok(f, P, page, end)
        invariant var rest := Count(f, P, page, end, lastPagesAreActive);
          Count(f, P, start, end, last) == Tally(active + rest.active, obsolete + rest.obsolete, rest.free, rest.last)
      {
        var hdr := flash[page].hdr;
        lastPagesAreActive := false;
        if hdr.Active() {
          lastPagesAreActive := true;
          page := page + hdr.maxPages;
          active := active + hdr.maxPages;
        } else if hdr.isolated {
          page := page + 1;
          obsolete := obsolete + 1;
        } else if hdr.obsolete {
          page := page + hdr.maxPages;
          obsolete := obsolete + hdr.maxPages;
        } else {
          free := end - page;
          break;
        }
      }
      t := Tally(active, obsolete, free, lastPagesAreActive);
    }

    /** get_sector_status: classifies the pages of the sector that starts at page b, carrying over
        from the previous sector the pages of the extent that the scan has not passed yet. Headers
        are read from page c on. */
    method GetSectorStatus(b: nat, ghost c: nat, ghost f: seq<Page>) returns (stats: SectorStatus, isolation: nat)
      requires f == flash[..] && Boundary(b, P) && b + P <= |f| && c == b + if b == 0 then 0 else skipPages
      requires c <= |f| && Ok(f, P, c, b + P)
      modifies this`skipPages, this`lastPagesAreActive
      ensures Land(f, P, c, b + P) == b + P + skipPages
      ensures SectorReport(f, P, b, b + P, c, old(lastPagesAreActive) && c > b, stats, skipPages, lastPagesAreActive)
      ensures isolation == if lastPagesAreActive || skipPages >= P then 0 else skipPages
    {
      hide Ok, Land, Starts, NodeOk, Count, SectorReport;
      if b == 0 {
        skipPages := 0;
        lastPagesAreActive := false;
      }
      if skipPages >= P {
        ReportCovered(f, P, b, c, lastPagesAreActive);
        skipPages := skipPages - P;
        isolation := if lastPagesAreActive || skipPages >= P then 0 else skipPages;
        return if lastPagesAreActive then SectorStatus(P, 0, 0) else SectorStatus(0, P, 0), isolation;
      }
      var active := if lastPagesAreActive then skipPages else 0;
      var obsolete := if lastPagesAreActive then 0 else skipPages;
      var t := CountPages(b + skipPages, b + P, lastPagesAreActive, f);
      Report(f, P, b, c, lastPagesAreActive, active + t.active, obsolete + t.obsolete, t);
      active, obsolete, lastPagesAreActive := active + t.active, obsolete + t.obsolete, t.last;
      skipPages := active + obsolete + t.free - P;
      stats := Stats(active, obsolete, t, P);
      isolation := if lastPagesAreActive || skipPages >= P then 0 else skipPages;
    }

    /** isolate_pages */
    method IsolatePages(start: nat, count: nat, ghost f: seq<Page>)
      requires start + count <= flash.Length && f == flash[..]
      modifies flash
      ensures forall q | 0 <= q < |f| && !(start <= q < start + count) :: flash[q] == f[q]
      ensures forall q | start <= q < start + count :: flash[q] == f[q].(hdr := ISOLATED_HEADER)
    {
      for page := 0 to count
        invariant forall q | 0 <= q < |f| && !(start <= q < start + page) :: flash[q] == f[q]
        invariant forall q | start <= q < start + page :: flash[q] == f[q].(hdr := ISOLATED_HEADER)
      {
        flash[start + page] := flash[start + page].(hdr := ISOLATED_HEADER);
      }
    }

    /** isolate_pages on the sector behind the one at page b, then COFFEE_ERASE on that one. */
    method Reclaim(b: nat, isolation: nat, ghost f: seq<Page>)
      requires b + P + isolation <= flash.Length && f == flash[..]
      modifies flash
      ensures Reclaimed(f, flash[..], P, b, isolation)
    {
      if isolation > 0 {
        IsolatePages(b + P, isolation, f);
      }
      forall q | b <= q < b + P {
        flash[q] := Erased();
      }
    }

    /** collect_garbage. The result is the first page that the pass did not look at. */
    method CollectGarbage(mode: Mode) returns (reached: nat)
      requires Valid() && Walkable(flash[..], P)
      modifies this`nextFree, this`skipPages, this`lastPagesAreActive, flash
      ensures Walkable(flash[..], P) && Extents(flash[..], P) == old(Extents(flash[..], P))
      ensures Reworked(mode, old(flash[..]), flash[..], P, reached)
      ensures CutOff(mode, old(flash[..]), flash[..], P, reached)
      ensures mode == Greedy ==> flash[..] == Swept(old(flash[..]), P)
      ensures SearchStart(mode, old(flash[..]), P, reached, old(nextFree), nextFree)
      ensures nextFree <= flash.Length ==> (Visits(flash[..], P, nextFree) <==> Visits(old(flash[..]), P, nextFree))
      ensures mode == Greedy && old(Sound()) ==> (Sound() <==> old(SafeToCollect(flash[..], P, nextFree)))
      // the pass ends behind the first sector whose last extent a reluctant pass cuts, or else with the device
      ensures Boundary(reached, P) && reached <= flash.Length && RunsTo(mode, old(flash[..]), P, reached)
      ensures reached < flash.Length ==> P <= reached && Stops(mode, old(flash[..]), P, reached - P)
      ensures mode == Greedy ==> reached == flash.Length
    {
      hide Ok, Land, Starts, Scanned, Collected, Reworked, CutOff, SearchStart, SectorReport, NodeOk, Same, Due, Cuts,
        RunsTo, SafeToCollect, Visits, Reclaimed, Swept, Extents, Boundary, Erasable, Walkable;
      ghost var f0, f, nf0 := flash[..], flash[..], nextFree;
      ghost var c, last := 0, false;
      MulBoundary(sectors, P);
      CollectStart(mode, f0, P, nf0);
      var sector := 0;
      reached := 0;
      assert RunsTo(mode, f0, P, 0) by { NothingStops(mode, f0, P); }
      while sector < sectors
        invariant sector <= sectors && reached == sector * P && f == flash[..]
        invariant RunsTo(mode, f0, P, reached) && (reached == 0 || (P <= reached && !Stops(mode, f0, P, reached - P)))
        invariant Collecting(mode, f0, f, P, reached, c, last, nf0, nextFree)
        invariant if reached == 0 then c == 0 else c == reached + skipPages && last == lastPagesAreActive
      {
        var b := sector * P;
        MulMono(sector + 1, sectors, P);
        assert (sector + 1) * P == b + P;
        MulBoundary(sector, P);
        MulBoundary(sector + 1, P);
        RunsOn(mode, f0, P, b);
        CollectScan(mode, f0, f, P, b, c, last, nf0, nextFree);
        var stats, isolation := GetSectorStatus(b, c, f);
        assert f == flash[..];
        ghost var c', last' := Land(f, P, c, b + P), lastPagesAreActive;
        sector, reached := sector + 1, b + P;
        if Erasable(mode, stats) {
          ghost var nf := nextFree;
          if b < nextFree {
            nextFree := b;
          }
          Reclaim(b, isolation, f);
          CollectReclaim(mode, f0, f, flash[..], P, b, c, last, nf0, nf, stats, c', last', isolation);
          f, c, last := flash[..], c', last';
          if mode == Reluctant && isolation > 0 {
            break;
          }
        } else {
          CollectKeep(mode, f0, f, P, b, c, last, nf0, nextFree, stats, c', last');
          c, last := c', last';
        }
      }
      CollectScan(mode, f0, f, P, reached, c, last, nf0, nextFree);
      CollectDone(mode, f0, f, P, reached, c, last, nf0, nextFree);
      if mode == Greedy { SweptIs(f0, f, P); }
      if mode == Greedy && (nf0 < |f0| ==> Visits(f0, P, nf0)) {
        SafeExactly(f0, P, nf0, nextFree);
      }
    }

    /** find_contiguous_pages */
    method FindContiguousPages(amount: nat) returns (r: Option<nat>)
      requires amount > 0 && Searchable(flash[..], P, nextFree, amount)
      modifies this`nextFree
      // first fit on the walk from next_free, leaving the last page of the device unused
      ensures r.Some? ==> On(flash[..], P, old(nextFree), r.value) && Fits(flash[..], P, r.value, amount)
      ensures forall q: nat | On(flash[..], P, old(nextFree), q) && Fits(flash[..], P, q, amount) ::
        r.Some? && r.value <= q
      ensures nextFree == if r == Some(old(nextFree)) then old(nextFree) + amount else old(nextFree)
    {
      hide Ok, Land, FreeFrom, Next;
      ghost var f, nf := flash[..], nextFree;
      ghost var whole, fits := Ok(f, P, nf, |f|), Fits(f, P, nf, amount);
      var start: Option<nat> := None;
      var page := nextFree;
      Here(f, P, nf);
      while page < flash.Length
        invariant f == flash[..] && nextFree == nf && On(f, P, nf, page)
        invariant if whole then Ok(f, P, page, |f|)
          else if fits then page < nf + amount && start == if page == nf then None else Some(nf)
          else page == nf && start.None? && NodeOk(f, P, nf) && f[nf].hdr.Free() && nf + amount >= |f|
        invariant start.Some? ==>
          && On(f, P, nf, start.value) && On(f, P, start.value, page) && FreeFrom(f, P, start.value, page)
          && page < start.value + amount < |f|
        invariant forall q: nat | On(f, P, nf, q) && q < (if start.Some? then start.value else page) ::
          !Fits(f, P, q, amount)
        decreases |f| - page
      {
        var hdr := flash[page].hdr;
        if whole { WalkNode(f, P, page); } else if fits { RunNode(f, P, nf, page, amount); }
        WalkStep(f, P, nf, page);
        Here(f, P, page);
        if hdr.Free() {
          if start.None? {
            start := Some(page);
            if page + amount >= flash.Length {
              break;
            }
          }
          SearchFree(f, P, nf, page, start.value, amount);
          page := Next(hdr, page, P);
          if start.value + amount <= page {
            if start.value == nextFree {
              nextFree := start.value + amount;
            }
            return start;
          }
        } else {
          SearchTaken(f, P, nf, page, if start.Some? then start.value else page, amount);
          start := None;
          page := Next(hdr, page, P);
        }
      }
      r := None;
    }

    /** The header scan of find_file: the first active file of that name that the walk meets. */
    method ScanFile(name: string) returns (r: Option<nat>)
      requires Walkable(flash[..], P)
      ensures r.Some? ==> r.value in Extents(flash[..], P) && Named(flash[..], r.value, name)
      ensures forall q | q in Extents(flash[..], P) && Named(flash[..], q, name) :: r.Some? && r.value <= q
    {
      ghost var f := flash[..];
      var page := 0;
      while page < flash.Length
        invariant page <= |f| && Ok(f, P, page, |f|) && Ok(f, P, 0, page)
        invariant Starts(f, P, 0, |f|) == Starts(f, P, 0, page) + Starts(f, P, page, |f|)
        invariant forall q | q in Starts(f, P, 0, page) :: !Named(f, q, name)
      {
        var hdr := flash[page].hdr;
        if hdr.Active() && !hdr.log && hdr.name == name {
          return Some(page);
        }
        ghost var next := Next(hdr, page, P);
        Split(f, P, 0, next, |f|);
        page := Next(hdr, page, P);
      }
      r := None;
    }

    /** write_header */
    method WriteHeader(h: Header, page: nat)
      requires page < flash.Length
      modifies flash
      ensures flash[..] == old(flash[..])[page := old(flash[page]).(hdr := h.(valid := true))]
    {
      flash[page] := flash[page].(hdr := h.(valid := true));
    }

    /** What the allocator needs to know: the device is walkable and next_free is on the walk. */
    ghost predicate Sound()
      reads this, flash
    {
      Valid() && Walkable(flash[..], P) && (nextFree < flash.Length ==> Visits(flash[..], P, nextFree))
    }

    /** The search from next_free finds no run of this many free pages. */
    ghost predicate NoRun(pages: nat)
      reads this, flash
    {
      !HasRun(flash[..], P, nextFree, pages)
    }

    /** reserve can have this many pages. */
    ghost predicate Grants(pages: nat)
      reads this, flash
      requires Walkable(flash[..], P)
    {
      Grantable(flash[..], P, nextFree, gcWait, pages)
    }

    /** So many pages at the end of the device are erased and not yet behind next_free. */
    ghost function Spare(): nat
      reads this, flash
    {
      SpareOf(flash[..], P, nextFree)
    }

    method Search(pages: nat) returns (r: Option<nat>)
      requires Sound() && pages > 0
      modifies this`nextFree
      ensures if r.Some? then Found(flash[..], P, nextFree, r.value, pages) else nextFree == old(nextFree)
      ensures r.Some? <==> old(!NoRun(pages))
      ensures r.Some? ==> FirstFit(flash[..], P, old(nextFree), pages, r.value, nextFree)
    {
      hide Ok, Land, Starts, Fits, Found, On, NodeOk;
      ghost var f, nf := flash[..], nextFree;
      StartSearch(f, P, nf);
      r := FindContiguousPages(pages);
      assert flash[..] == f;
      if r.Some? {
        assert On(f, P, nf, r.value) && Fits(f, P, r.value, pages);
        FitFound(f, P, nf, r.value, pages);
      }
    }

    /** Whether next_free is on the walk. The file system has no such test; it tells how far the model follows it. */
    method OnWalk() returns (r: bool)
      requires Valid() && Walkable(flash[..], P)
      ensures r <==> Sound()
    {
      hide Ok, Land, Next;
      ghost var f := flash[..];
      if nextFree >= flash.Length {
        return true;
      }
      Split(f, P, 0, nextFree, |f|);
      var page := 0;
      while page < nextFree
        invariant page <= |f| && Ok(f, P, page, nextFree) && Land(f, P, page, nextFree) == Land(f, P, 0, nextFree)
        decreases nextFree - page
      {
        LandStep(f, P, page, nextFree);
        page := Next(flash[page].hdr, page, P);
      }
      r := page == nextFree;
    }

    /** The search finds a run in the erased end of the device at the latest. */
    lemma SpareRuns(pages: nat)
      requires Sound()
      ensures Spare() > pages ==> var q := |flash[..]| - Spare();
        q >= 0 && On(flash[..], P, nextFree, q) && Fits(flash[..], P, q, pages) && !NoRun(pages)
    {
      hide On, Fits, Ok, Land;
      if Spare() > pages {
        MulBoundary(sectors, P);
        SpareIsTail(flash[..], P, nextFree);
        TailFits(flash[..], P, nextFree, Spare(), pages);
      }
    }

    /**
     * The search of reserve, with a greedy collection when the first attempt fails. A collection that is not safe
     * leaves next_free off the walk: what a search from there finds is not part of the model.
     */
    method FindPages(pages: nat) returns (r: Option<nat>, stranded: bool)
      requires Sound() && pages > 0
      modifies this, flash
      ensures Valid() && Walkable(flash[..], P) && Extents(flash[..], P) == old(Extents(flash[..], P))
      ensures stranded <==> old(NoRun(pages) && !gcWait && !SafeToCollect(flash[..], P, nextFree))
      ensures stranded ==> r.None? && !Sound()
      ensures r.Some? <==> old(Grants(pages))
      ensures r.None? && !stranded ==> NoRun(pages) && gcWait
      ensures gcWait <==> old(gcWait) || (r.None? && !stranded)
      ensures old(Spare()) > pages ==>
        r.Some? && flash[..] == old(flash[..]) && r.value <= |flash[..]| - old(Spare())
      ensures !stranded ==> if r.Some? then Found(flash[..], P, nextFree, r.value, pages) else Sound()
      ensures flash[..] == old(Looked(flash[..], P, nextFree, gcWait, pages))
      ensures Searched(old(flash[..]), P, old(nextFree), old(gcWait), pages, r, nextFree)
    {
      hide Ok, Land, Starts, Due, Fits, Reworked, CutOff, Found, On, NodeOk, SafeToCollect, Extents, Swept, HasRun,
        RunAfter, SearchStart, SpareOf, Searched, Looked;
      ghost var f, nf := flash[..], nextFree;
      stranded := false;
      SpareRuns(pages);
      r := Search(pages);
      if r.Some? || gcWait { SearchedAtOnce(f, P, nf, gcWait, pages, r, nextFree); }
      if r.None? && !gcWait {
        var _ := CollectGarbage(Greedy);
        RunAfterIs(f, P, nf, nextFree, pages);
        ghost var nf1 := nextFree;
        var on := OnWalk();
        if !on {
          SearchedAt(f, P, nf, pages, nf1, None, nf1);
          return None, true;
        }
        r := Search(pages);
        SearchedAt(f, P, nf, pages, nf1, r, nextFree);
        if r.None? {
          gcWait := true;
        }
      }
    }

    /** There is no file of that name, or there may be another. */
    ghost predicate MayHave(name: string, allowDuplicates: bool)
      reads this, flash
      requires Walkable(flash[..], P)
    {
      allowDuplicates || forall q | q in Extents(flash[..], P) :: !Named(flash[..], q, name)
    }

    /** reserve; it is stranded exactly if it comes to a collection and that is not safe. */
    method Reserve(name: string, pages: nat, allowDuplicates: bool, log: bool) returns (r: Option<nat>, stranded: bool)
      requires Sound() && pages > 0
      modifies this, flash
      ensures Valid() && Walkable(flash[..], P) && (stranded <==> !Sound())
      ensures stranded <==> old(
        MayHave(name, allowDuplicates) && NoRun(pages) && !gcWait && !SafeToCollect(flash[..], P, nextFree))
      ensures r.Some? <==> old(MayHave(name, allowDuplicates) && Grants(pages))
      ensures r.None? && allowDuplicates && !stranded ==> NoRun(pages) && gcWait
      // the flag is set by a search that was in vain twice, and by nothing else
      ensures gcWait <==> old(gcWait) || (r.None? && !stranded && old(MayHave(name, allowDuplicates)))
      ensures r.None? ==> Extents(flash[..], P) == old(Extents(flash[..], P))
      ensures r.Some? && old(Spare()) > pages ==> Spare() >= old(Spare()) - pages
      ensures allowDuplicates && old(Spare()) > pages ==> r.Some?
      ensures r.Some? ==>
        && !stranded && r.value !in old(Extents(flash[..], P)) && r.value + pages < flash.Length
        && Extents(flash[..], P) ==
           old(Extents(flash[..], P))[r.value := FreshExtent(FileHeader(name, pages, log), pages)]
      // the pages that the search finds get their header, and that is all that happens to the image
      ensures if !old(MayHave(name, allowDuplicates)) then flash[..] == old(flash[..]) && nextFree == old(nextFree)
        else
          var g := old(Looked(flash[..], P, nextFree, gcWait, pages));
          && Searched(old(flash[..]), P, old(nextFree), old(gcWait), pages, r, nextFree)
          && (r.Some? ==> r.value < |g|)
          && flash[..] == if r.None? then g else g[r.value := g[r.value].(hdr := FileHeader(name, pages, log))]
      ensures r.Some? ==>
        var h := flash[r.value].hdr;
        && h.Active() && h.valid && !h.modified && h.name == name && h.maxPages == pages && h.log == log
        && h.logRecordSize == 0 == h.logRecords
      ensures r.Some? && !allowDuplicates ==>
        forall q | q in old(Extents(flash[..], P)) :: !Named(old(flash[..]), q, name)
    {
      hide Ok, Land, Starts, Due, SafeToCollect, Visits, NodeOk, Fits, Erased, Extents, Found, On, Walkable, HasRun,
        RunAfter, Grantable, SpareOf, AllErased, Searched, Looked;
      SoundMeans();
      ghost var n := if Spare() > pages then Spare() else 0;
      SpareMeans();
      stranded := false;
      if !allowDuplicates {
        var found := ScanFile(name);
        if found.Some? {
          return None, false;
        }
      }
      r, stranded := FindPages(pages);
      if r.Some? {
        Occupy(FileHeader(name, pages, log), r.value, pages, n);
      }
    }

    lemma SpareMeans()
      ensures var n := Spare(); n > 0 ==>
        && n <= |flash[..]| && Visits(flash[..], P, |flash[..]| - n)
        && AllErased(flash[..], |flash[..]| - n, |flash[..]|)
    {}

    lemma SoundMeans()
      requires Sound()
      ensures Valid() && Walkable(flash[..], P)
    {}

    /** The end of reserve: the pages that were found get their header. */
    method Occupy(h: Header, page: nat, pages: nat, ghost n: nat)
      requires n > 0 ==>
        n <= flash.Length - page && Visits(flash[..], P, flash.Length - n)
          && AllErased(flash[..], flash.Length - n, flash.Length)
      requires Valid() && Walkable(flash[..], P) && Found(flash[..], P, nextFree, page, pages)
      requires pages > 0 && h.(valid := true).Active() && h.maxPages == pages && h.valid
      modifies flash
      ensures Sound() && page !in old(Extents(flash[..], P)) && page + pages < flash.Length
      ensures Spare() >= n - pages && flash[..] == old(flash[..])[page := old(flash[page]).(hdr := h)]
      ensures Extents(flash[..], P) == old(Extents(flash[..], P))[page := FreshExtent(h, pages)]
    {
      hide Ok, Land, Starts, Visits, NodeOk, Fits, Erased, Extents, SpareOf;
      ghost var f := flash[..];
      FoundInside(f, P, page, pages);
      WriteHeader(h, page);
      MulBoundary(sectors, P);
      Reserved(f, flash[..], P, page, pages);
      if n > 0 { TailReserved(f, flash[..], P, n, page, pages, nextFree); }
      assert flash[..][page..page + pages] == FreshExtent(h, pages);
    }

    /** The page holds no active header, or the header of an active extent. */
    ghost predicate Headed(page: nat)
      requires Walkable(flash[..], P)
      reads this, flash
    {
      page < flash.Length && (flash[page].hdr.Active() ==> page in Extents(flash[..], P))
    }

    /** The header of an active extent gets its obsolete flag, and a collection may help again. */
    method Discard(page: nat)
      requires Valid() && Walkable(flash[..], P) && page in Extents(flash[..], P)
      modifies this`gcWait, flash
      ensures Walkable(flash[..], P) && (old(Sound()) ==> Sound()) && Spare() >= old(Spare()) && !gcWait
      ensures Extents(flash[..], P) == old(Extents(flash[..], P)) - {page}
      ensures page < flash.Length && flash[..] == Discarding(old(flash[..]), page)
    {
      hide Ok, Land, Starts, Extents, Visits, SpareOf, Tail;
      ghost var f := flash[..];
      ExtentsAre(f, P);
      WriteHeader(flash[page].hdr.(obsolete := true), page);
      MulBoundary(sectors, P);
      Discarded(f, flash[..], P, page);
      TailKept(f, flash[..], P, nextFree, page);
      gcWait := false;
    }

    /** remove_by_page */
    method RemoveByPage(page: nat, removeLog: bool) returns (ok: bool)
      requires Valid() && Walkable(flash[..], P) && Headed(page)
      requires removeLog && flash[page].hdr.modified ==>
        flash[page].hdr.logPage != page && Headed(flash[page].hdr.logPage)
      modifies this`gcWait, flash
      ensures Walkable(flash[..], P) && (old(Sound()) ==> Sound()) && Spare() >= old(Spare())
      ensures var hdr := old(flash[page].hdr);
        var withLog := removeLog && hdr.modified;
        && (ok <==> hdr.Active() && (withLog ==> old(flash[hdr.logPage].hdr.Active())))
        && Extents(flash[..], P) == old(Extents(flash[..], P)) -
             (if !ok then {} else if withLog then {page, hdr.logPage} else {page})
        && (gcWait <==> old(gcWait) && !ok)
        && (ok && withLog ==> hdr.logPage < flash.Length)
        && flash[..] ==
           (if !ok then old(flash[..])
            else if withLog then Discarding(Discarding(old(flash[..]), hdr.logPage), page)
            else Discarding(old(flash[..]), page))
      decreases removeLog
    {
      hide Walkable, Extents, Sound, Spare;
      var hdr := flash[page].hdr;
      if !hdr.Active() {
        return false;
      }
      if removeLog && hdr.modified {
        ok := RemoveByPage(hdr.logPage, false);
        if !ok {
          return false;
        }
      }
      Discard(page);
      ok := true;
    }
  }
}
