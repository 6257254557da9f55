/** Writing into a walkable flash image: new extents, removed extents, and file data (cfs-coffee.c). */
module CoffeeExtents {
  import opened Numbers
  import opened CoffeeWalk
  import opened CoffeeCollector
  import opened Wrappers

  /** Page q is on the walk from page p. */
  ghost predicate On(f: seq<Page>, P: pos, p: nat, q: nat) {
    p <= q && Ok(f, P, p, q) && Land(f, P, p, q) == q
  }

  /** The walk from p to e meets nothing but free pages. */
  ghost predicate FreeFrom(f: seq<Page>, P: pos, p: nat, e: nat)
    requires Ok(f, P, p, e)
    decreases e - p
  {
    p < e ==> f[p].hdr.Free() && FreeFrom(f, P, Next(f[p].hdr, p, P), e)
  }

  /** A run of `amount` free pages starts at page q, and at least one page follows it. */
  ghost predicate Fits(f: seq<Page>, P: pos, q: nat, amount: nat) {
    q + amount < |f| && Ok(f, P, q, q + amount) && FreeFrom(f, P, q, q + amount)
  }

  /** The search from nf makes its way: on the walk, or as far as a run that is free at once, or to the device's end. */
  ghost predicate Searchable(f: seq<Page>, P: pos, nf: nat, amount: nat) {
    || Ok(f, P, nf, |f|) || Fits(f, P, nf, amount)
    || (NodeOk(f, P, nf) && f[nf].hdr.Free() && nf + amount >= |f|)
  }

  lemma {:induction false} FreeMeansErased(f: seq<Page>, P: pos, p: nat, e: nat)
    requires Ok(f, P, p, e) && FreeFrom(f, P, p, e) && e <= |f|
    ensures AllErased(f, p, e)
    decreases e - p
  {
    if p < e {
      FreeMeansErased(f, P, Next(f[p].hdr, p, P), e);
    }
  }

  /** Every node inside a free run is free. */
  lemma {:induction false} FreeInside(f: seq<Page>, P: pos, p: nat, m: nat, e: nat)
    requires Ok(f, P, p, e) && FreeFrom(f, P, p, e) && On(f, P, p, m) && m < e
    ensures m < |f| && f[m].hdr.Free() && Ok(f, P, m, e) && FreeFrom(f, P, m, e)
    decreases m - p
  {
    if p < m {
      FreeInside(f, P, Next(f[p].hdr, p, P), m, e);
    }
  }

  /** A free run that grows by the node at its end. */
  lemma {:induction false} FreeGrow(f: seq<Page>, P: pos, p: nat, m: nat, e: nat)
    requires On(f, P, p, m) && FreeFrom(f, P, p, m) && Ok(f, P, m, e) && FreeFrom(f, P, m, e) && m <= e
    ensures Ok(f, P, p, e) && FreeFrom(f, P, p, e)
    decreases m - p
  {
    if p < m {
      FreeGrow(f, P, Next(f[p].hdr, p, P), m, e);
    }
  }

  /** A free run can be cut anywhere: the rest of its last sector stays walkable. */
  lemma {:induction false} FreeCut(f: seq<Page>, P: pos, p: nat, r: nat)
    requires p <= r <= |f| && Ok(f, P, p, |f|) && Ok(f, P, p, r) && FreeFrom(f, P, p, r)
    ensures Ok(f, P, r, |f|) && Starts(f, P, r, |f|) == Starts(f, P, p, |f|)
    decreases r - p
  {
    if p < r {
      var n := Next(f[p].hdr, p, P);
      if n <= r {
        FreeCut(f, P, n, r);
      } else {
        MulBoundary(p / P, P);
        SectorEndIs(SectorStart(p, P), r, P);
        assert f[r] == Erased();
      }
    }
  }

  lemma WalkExtent(g: seq<Page>, P: pos, p: nat, e: nat)
    requires p < e <= |g| && !g[p].hdr.Free() && !g[p].hdr.isolated && g[p].hdr.maxPages == e - p
    ensures Ok(g, P, p, e) && Land(g, P, p, e) == e && Starts(g, P, p, e) == if g[p].hdr.Active() then {p} else {}
  {}

  /** The walk goes on unharmed when a visited page p gets a header that leads back to the old walk
      and nothing outside that extent changes. */
  lemma Replace(f: seq<Page>, g: seq<Page>, P: pos, p: nat, e: nat)
    requires Walkable(f, P) && Visits(f, P, p) && |f| == |g| && Boundary(|f|, P)
    requires p < e <= |f| && Ok(f, P, e, |f|)
    requires Same(f, g, 0, p) && Same(f, g, e, |f|)
    requires !g[p].hdr.Free() && !g[p].hdr.isolated && g[p].hdr.maxPages == e - p
    ensures Walkable(g, P) && Visits(g, P, p) && Visits(g, P, e)
    ensures Starts(g, P, 0, |g|) == Starts(f, P, 0, p) + (if g[p].hdr.Active() then {p} else {}) + Starts(f, P, e, |f|)
  {
    hide Ok, Land, Starts, NodeOk, Next;
    FrameVisit(f, g, P, 0, p);
    Frame(f, g, P, e, |f|);
    WalkExtent(g, P, p, e);
    Join(g, P, 0, p, e);
    Join(g, P, 0, e, |g|);
  }

  /** The extents that Replace leaves alone. */
  lemma Untouched(f: seq<Page>, g: seq<Page>, P: pos, p: nat, e: nat)
    requires Ok(f, P, 0, p) && Land(f, P, 0, p) == p && p <= e <= |f| == |g| && Ok(f, P, e, |f|)
    requires Same(f, g, 0, p) && Same(f, g, e, |f|)
    ensures forall q | q in Starts(f, P, 0, p) + Starts(f, P, e, |f|) ::
      g[q] == f[q] && f[q..q + f[q].hdr.maxPages] == g[q..q + g[q].hdr.maxPages]
  {
    forall q | q in Starts(f, P, 0, p) + Starts(f, P, e, |f|)
      ensures g[q] == f[q] && f[q..q + f[q].hdr.maxPages] == g[q..q + g[q].hdr.maxPages]
    {
      if q in Starts(f, P, 0, p) {
        EndsBeforeLand(f, P, 0, p, q);
      }
    }
  }

  /** An active extent cuts the walk in two. */
  lemma {:induction false} StartSplit(f: seq<Page>, P: pos, p: nat, b: nat, q: nat)
    requires Ok(f, P, p, b) && q in Starts(f, P, p, b)
    ensures On(f, P, p, q) && Ok(f, P, q + f[q].hdr.maxPages, b)
    ensures Starts(f, P, p, b) == Starts(f, P, p, q) + {q} + Starts(f, P, q + f[q].hdr.maxPages, b)
    ensures q !in Starts(f, P, p, q) + Starts(f, P, q + f[q].hdr.maxPages, b)
    decreases b - p
  {
    if p < q {
      StartSplit(f, P, Next(f[p].hdr, p, P), b, q);
    }
  }

  /** Reserving: a header for `amount` pages is written at the start of a free run. */
  lemma Reserved(f: seq<Page>, g: seq<Page>, P: pos, p: nat, amount: nat)
    requires Walkable(f, P) && Boundary(|f|, P) && Visits(f, P, p) && amount > 0 && Fits(f, P, p, amount)
    requires |f| == |g| && (forall q | 0 <= q < |f| && q != p :: g[q] == f[q])
    requires g[p].hdr.Active() && g[p].hdr.maxPages == amount
    ensures AllErased(f, p, p + amount)
    ensures Walkable(g, P) && Visits(g, P, p + amount)
    ensures p !in Extents(f, P) && Extents(g, P) == Extents(f, P)[p := g[p..p + amount]]
    ensures forall q: nat | Visits(f, P, q) && q <= p :: Visits(g, P, q)
  {
    hide Ok, Land, Starts, NodeOk, FreeFrom, Extents, AllErased;
    var e := p + amount;
    FreeMeansErased(f, P, p, e);
    Split(f, P, 0, p, |f|);
    FreeCut(f, P, p, e);
    assert Starts(f, P, 0, |f|) == Starts(f, P, 0, p) + Starts(f, P, e, |f|);
    Replace(f, g, P, p, e);
    Untouched(f, g, P, p, e);
    ExtentsAdded(f, g, P, p);
    forall q: nat | Visits(f, P, q) && q <= p ensures Visits(g, P, q) {
      FrameVisit(f, g, P, 0, q);
    }
  }

  lemma ExtentsAdded(f: seq<Page>, g: seq<Page>, P: pos, p: nat)
    requires Walkable(f, P) && Walkable(g, P) && p < |f| == |g| && 1 <= g[p].hdr.maxPages <= |g| - p
    requires p !in Starts(f, P, 0, |f|) && Starts(g, P, 0, |g|) == Starts(f, P, 0, |f|) + {p}
    requires forall q | q in Starts(f, P, 0, |f|) ::
      g[q] == f[q] && f[q..q + f[q].hdr.maxPages] == g[q..q + g[q].hdr.maxPages]
    ensures p !in Extents(f, P) && Extents(g, P) == Extents(f, P)[p := g[p..p + g[p].hdr.maxPages]]
  {
    hide Starts, Walkable;
  }

  /** Removing: an active extent gets the obsolete flag. */
  lemma Discarded(f: seq<Page>, g: seq<Page>, P: pos, p: nat)
    requires Walkable(f, P) && Boundary(|f|, P) && p in Extents(f, P)
    requires |f| == |g| && (forall q | 0 <= q < |f| && q != p :: g[q] == f[q])
    requires g[p].hdr == f[p].hdr.(obsolete := true, valid := true)
    ensures Walkable(g, P) && Extents(g, P) == Extents(f, P) - {p}
    ensures forall q: nat | Visits(f, P, q) && q <= |f| :: Visits(g, P, q)
  {
    hide Ok, Land, Starts, NodeOk, Next;
    var e := p + f[p].hdr.maxPages;
    StartSplit(f, P, 0, |f|, p);
    Replace(f, g, P, p, e);
    Untouched(f, g, P, p, e);
    SameVisits(f, g, P, p, e);
  }

  /** Writing file data, a log record or a new header that keeps its size: nothing outside the extent
      is affected, whatever the bytes look like. */
  lemma Written(f: seq<Page>, g: seq<Page>, P: pos, p: nat)
    requires Walkable(f, P) && Boundary(|f|, P) && p in Extents(f, P) && |f| == |g|
    requires g[p].hdr.Active() && g[p].hdr.maxPages == f[p].hdr.maxPages
    requires Same(f, g, 0, p) && Same(f, g, p + f[p].hdr.maxPages, |f|)
    ensures Walkable(g, P) && Extents(g, P) == Extents(f, P)[p := g[p..p + f[p].hdr.maxPages]]
    ensures forall q: nat | Visits(f, P, q) && q <= |f| :: Visits(g, P, q)
  {
    hide Ok, Land, Starts, NodeOk, Next;
    var e := p + f[p].hdr.maxPages;
    StartSplit(f, P, 0, |f|, p);
    Replace(f, g, P, p, e);
    Untouched(f, g, P, p, e);
    ExtentsReplaced(f, g, P, p);
    SameVisits(f, g, P, p, e);
  }

  lemma ExtentsReplaced(f: seq<Page>, g: seq<Page>, P: pos, p: nat)
    requires Walkable(f, P) && Walkable(g, P) && p in Starts(f, P, 0, |f|) && |f| == |g|
    requires p + f[p].hdr.maxPages <= |f| && g[p].hdr.maxPages == f[p].hdr.maxPages
    requires Starts(g, P, 0, |g|) == Starts(f, P, 0, |f|)
    requires forall q | q in Starts(f, P, 0, |f|) && q != p ::
      g[q] == f[q] && f[q..q + f[q].hdr.maxPages] == g[q..q + g[q].hdr.maxPages]
    ensures Extents(g, P) == Extents(f, P)[p := g[p..p + f[p].hdr.maxPages]]
  {
    hide Starts, Walkable, Extents;
    var before, after := Extents(f, P), Extents(g, P);
    ExtentsAre(f, P);
    ExtentsAre(g, P);
    assert after.Keys == before.Keys;
    forall q | q in after ensures after[q] == before[p := g[p..p + f[p].hdr.maxPages]][q] {
      if q != p { assert g[q] == f[q]; }
    }
  }

  lemma ExtentsAre(f: seq<Page>, P: pos)
    requires Walkable(f, P)
    ensures Extents(f, P).Keys == Starts(f, P, 0, |f|)
    ensures forall q | q in Starts(f, P, 0, |f|) :: Extents(f, P)[q] == f[q..q + f[q].hdr.maxPages]
  {
    hide Starts, Walkable;
  }

  /** An extent that keeps its size leaves the walk as it was. */
  lemma SameVisits(f: seq<Page>, g: seq<Page>, P: pos, p: nat, e: nat)
    requires Walkable(f, P) && Walkable(g, P) && Visits(f, P, p) && Visits(g, P, p) && |f| == |g| && p < e <= |f|
    requires Same(f, g, 0, p) && Same(f, g, e, |f|)
    requires !f[p].hdr.Free() && !f[p].hdr.isolated && f[p].hdr.maxPages == e - p
    requires !g[p].hdr.Free() && !g[p].hdr.isolated && g[p].hdr.maxPages == e - p
    ensures forall q: nat | Visits(f, P, q) && q <= |f| :: Visits(g, P, q)
  {
    hide Ok, Land, Starts, NodeOk, Next;
    WalkExtent(f, P, p, e);
    WalkExtent(g, P, p, e);
    forall q: nat | Visits(f, P, q) && q <= |f| ensures Visits(g, P, q) {
      if q <= p {
        FrameVisit(f, g, P, 0, q);
      } else {
        Split(f, P, 0, p, q);
        if q < e {
          StepOver(f, P, p, q);
        } else {
          Split(f, P, p, e, q);
          FrameVisit(f, g, P, e, q);
          Join(g, P, p, e, q);
          Join(g, P, 0, p, q);
        }
      }
    }
  }

  lemma StepOver(f: seq<Page>, P: pos, p: nat, q: nat)
    requires p < q <= |f| && Ok(f, P, p, q) && !f[p].hdr.Free() && !f[p].hdr.isolated && q < p + f[p].hdr.maxPages
    ensures Land(f, P, p, q) == p + f[p].hdr.maxPages
  {}

  lemma {:induction false} FreeShrink(f: seq<Page>, P: pos, p: nat, e: nat, e': nat)
    requires e' <= e && Ok(f, P, p, e) && FreeFrom(f, P, p, e)
    ensures Ok(f, P, p, e') && FreeFrom(f, P, p, e')
    decreases e - p
  {
    if p < e' {
      FreeShrink(f, P, Next(f[p].hdr, p, P), e, e');
    }
  }

  lemma Here(f: seq<Page>, P: pos, p: nat)
    ensures On(f, P, p, p) && FreeFrom(f, P, p, p)
  {}

  /** Two pages on the same walk. */
  lemma Between(f: seq<Page>, P: pos, p: nat, q: nat, r: nat)
    requires On(f, P, p, q) && On(f, P, p, r) && q <= r
    ensures On(f, P, q, r)
  {
    Split(f, P, p, q, r);
  }

  /** The walk does not stop between a page and its successor. */
  lemma Neighbours(f: seq<Page>, P: pos, nf: nat, page: nat, q: nat)
    requires On(f, P, nf, page) && page < |f| && On(f, P, nf, q) && page < q
    ensures Next(f[page].hdr, page, P) <= q
  {
    Split(f, P, nf, page, q);
  }

  /** A page that is not free ends every run that reaches it. */
  lemma NoFit(f: seq<Page>, P: pos, nf: nat, page: nat, q: nat, amount: nat)
    requires On(f, P, nf, page) && page < |f| && !f[page].hdr.Free() && On(f, P, nf, q) && q <= page < q + amount
    ensures !Fits(f, P, q, amount)
  {
    Between(f, P, nf, q, page);
    if Fits(f, P, q, amount) {
      FreeInside(f, P, q, page, q + amount);
    }
  }

  /** The walk goes on from page, which is on the walk from nf. */
  lemma WalkStep(f: seq<Page>, P: pos, nf: nat, page: nat)
    requires On(f, P, nf, page) && NodeOk(f, P, page)
    ensures var n := Next(f[page].hdr, page, P);
      && page < n <= |f| && On(f, P, page, n) && On(f, P, nf, n)
      && (f[page].hdr.Free() ==> FreeFrom(f, P, page, n))
      && (Ok(f, P, page, |f|) ==> Ok(f, P, n, |f|))
  {
    Join(f, P, nf, page, Next(f[page].hdr, page, P));
  }

  lemma WalkNode(f: seq<Page>, P: pos, page: nat)
    requires Ok(f, P, page, |f|) && page < |f|
    ensures NodeOk(f, P, page)
  {}

  /** All that the walk meets in a free run is free. */
  lemma RunNode(f: seq<Page>, P: pos, nf: nat, page: nat, amount: nat)
    requires Fits(f, P, nf, amount) && On(f, P, nf, page) && page < nf + amount
    ensures NodeOk(f, P, page) && f[page].hdr.Free()
  {
    var e := nf + amount;
    Split(f, P, nf, page, e);
    FreeInside(f, P, nf, page, e);
  }

  /** The search for a free run passes a free page, having found the run that starts at s. */
  lemma SearchFree(f: seq<Page>, P: pos, nf: nat, page: nat, s: nat, amount: nat)
    requires On(f, P, nf, page) && NodeOk(f, P, page) && f[page].hdr.Free()
    requires On(f, P, nf, s) && On(f, P, s, page) && FreeFrom(f, P, s, page)
    ensures var n := Next(f[page].hdr, page, P);
      && On(f, P, s, n) && FreeFrom(f, P, s, n)
      && (s + amount <= n && s + amount < |f| ==> Fits(f, P, s, amount))
  {
    hide Ok, Land, FreeFrom;
    var n := Next(f[page].hdr, page, P);
    WalkStep(f, P, nf, page);
    Between(f, P, nf, s, n);
    FreeGrow(f, P, s, page, n);
    if s + amount <= n {
      FreeShrink(f, P, s, n, s + amount);
    }
  }

  /** The search passes a page that is not free, after a run from s (or page itself) was too short. */
  lemma SearchTaken(f: seq<Page>, P: pos, nf: nat, page: nat, s: nat, amount: nat)
    requires On(f, P, nf, page) && page < |f| && !f[page].hdr.Free() && s <= page < s + amount
    requires forall q: nat | On(f, P, nf, q) && q < s :: !Fits(f, P, q, amount)
    ensures forall q: nat | On(f, P, nf, q) && q < Next(f[page].hdr, page, P) :: !Fits(f, P, q, amount)
  {
    hide Ok, Land, Fits, Next;
    forall q: nat | On(f, P, nf, q) && q < Next(f[page].hdr, page, P) ensures !Fits(f, P, q, amount) {
      if q > page {
        Neighbours(f, P, nf, page, q);
      } else if s <= q {
        NoFit(f, P, nf, page, q, amount);
      }
    }
  }
}
