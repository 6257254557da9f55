/** The erased end of a Coffee device, which reservations eat up: as long as it lasts they succeed (cfs-coffee.c). */
module CoffeeSpare {
  import opened Numbers
  import opened CoffeeWalk
  import opened CoffeeCollector
  import opened CoffeeExtents

  /** The last n pages are erased, and the search from next_free comes to them. */
  ghost predicate Tail(f: seq<Page>, P: pos, nf: nat, n: nat) {
    n <= |f| && nf <= |f| - n && Visits(f, P, |f| - n) && AllErased(f, |f| - n, |f|)
  }

  ghost function LargestTail(f: seq<Page>, P: pos, nf: nat, n: nat): (r: nat)
    ensures r <= n && (r > 0 ==> Tail(f, P, nf, r))
    ensures forall m: nat | r < m <= n :: !Tail(f, P, nf, m)
  {
    if n == 0 || Tail(f, P, nf, n) then n else LargestTail(f, P, nf, n - 1)
  }

  /** The most pages at the end of the device that are like that. */
  ghost function SpareOf(f: seq<Page>, P: pos, nf: nat): nat {
    LargestTail(f, P, nf, |f|)
  }

  lemma TailSpares(f: seq<Page>, P: pos, nf: nat, n: nat)
    requires Tail(f, P, nf, n)
    ensures n <= SpareOf(f, P, nf) <= |f|
  {}

  lemma SpareIsTail(f: seq<Page>, P: pos, nf: nat)
    requires SpareOf(f, P, nf) > 0
    ensures Tail(f, P, nf, SpareOf(f, P, nf))
  {}

  /** Erased pages are a free run. */
  lemma {:induction false} ErasedFree(f: seq<Page>, P: pos, p: nat, e: nat)
    requires p <= e <= |f| && Boundary(|f|, P) && AllErased(f, p, |f|)
    ensures Ok(f, P, p, e) && FreeFrom(f, P, p, e) && Ok(f, P, p, |f|)
    decreases e - p
  {
    if p < |f| {
      SectorEndWithin(p, |f|, P);
      assert f[p] == Erased();
      ErasedOk(f, P, p);
      if p < e && Next(f[p].hdr, p, P) < e { ErasedFree(f, P, Next(f[p].hdr, p, P), e); }
    }
  }

  lemma {:induction false} ErasedOk(f: seq<Page>, P: pos, p: nat)
    requires p <= |f| && Boundary(|f|, P) && AllErased(f, p, |f|)
    ensures Ok(f, P, p, |f|)
    decreases |f| - p
  {
    if p < |f| {
      SectorEndWithin(p, |f|, P);
      assert f[p] == Erased();
      ErasedOk(f, P, Next(f[p].hdr, p, P));
    }
  }

  /** There is a run for anything that is shorter. */
  lemma TailFits(f: seq<Page>, P: pos, nf: nat, n: nat, pages: nat)
    requires Walkable(f, P) && Boundary(|f|, P) && Tail(f, P, nf, n) && pages < n
    requires Visits(f, P, nf)
    ensures On(f, P, nf, |f| - n) && Fits(f, P, |f| - n, pages)
  {
    hide Ok, Land, FreeFrom, AllErased;
    Split(f, P, 0, nf, |f| - n);
    ErasedFree(f, P, |f| - n, |f| - n + pages);
  }

  /** The walk goes on from the end of a free run that does not end with its sector. */
  lemma {:induction false} RunThrough(f: seq<Page>, P: pos, p: nat, e: nat, t: nat)
    requires p <= e <= t <= |f| && Ok(f, P, p, e) && FreeFrom(f, P, p, e) && On(f, P, p, t)
    ensures On(f, P, e, t)
    decreases e - p
  {
    if p < e {
      var n := Next(f[p].hdr, p, P);
      if n <= e {
        RunThrough(f, P, n, e, t);
      } else {
        MulBoundary(p / P, P);
        SectorEndIs(SectorStart(p, P), e, P);
        assert f[e] == Erased();
      }
    }
  }

  /** The first run that fits is taken, at page p: what is left of the tail. */
  lemma TailReserved(f: seq<Page>, g: seq<Page>, P: pos, n: nat, p: nat, amount: nat, nf: nat)
    requires Walkable(f, P) && Boundary(|f|, P) && Visits(f, P, p) && amount > 0 && Fits(f, P, p, amount)
    requires |f| == |g| && (forall q | 0 <= q < |f| && q != p :: g[q] == f[q])
    requires g[p].hdr.Active() && g[p].hdr.maxPages == amount
    requires n <= |f| && p <= |f| - n && Visits(f, P, |f| - n) && AllErased(f, |f| - n, |f|)
    requires nf <= p + amount
    ensures SpareOf(g, P, nf) >= n - amount
  {
    hide Ok, Land, FreeFrom, Starts, Extents;
    var t, e := |f| - n, p + amount;
    Reserved(f, g, P, p, amount);
    if e <= t {
      Split(f, P, 0, p, t);
      RunThrough(f, P, p, e, t);
      FrameVisit(f, g, P, e, t);
      Join(g, P, 0, e, t);
      TailSpares(g, P, nf, n);
    } else {
      TailSpares(g, P, nf, |f| - e);
    }
  }

  /** An extent that keeps its size leaves the tail alone, whatever is written into it. */
  lemma TailKept(f: seq<Page>, g: seq<Page>, P: pos, nf: nat, p: nat)
    requires Walkable(f, P) && p in Starts(f, P, 0, |f|) && |f| == |g|
    requires Same(f, g, 0, p) && Same(f, g, p + f[p].hdr.maxPages, |f|)
    requires forall q: nat | Visits(f, P, q) && q <= |f| :: Visits(g, P, q)
    ensures SpareOf(g, P, nf) >= SpareOf(f, P, nf)
  {
    hide Ok, Land, Starts;
    var n := SpareOf(f, P, nf);
    if n > 0 {
      var t := |f| - n;
      SpareIsTail(f, P, nf);
      Split(f, P, 0, t, |f|);
      EndsBeforeLand(f, P, 0, t, p);
      assert AllErased(g, t, |g|);
      TailSpares(g, P, nf, n);
    }
  }
}
