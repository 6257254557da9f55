/** Collections that strand next_free, and the files that are lost because of it (cfs-coffee.c). */
module CoffeeLostFile {
  import opened Numbers
  import opened CoffeeWalk
  import opened CoffeeCollector
  import opened CoffeeExtents
  import opened CoffeeVolume
  import opened Wrappers

  /** A header at the start of a sector that the walk skips does not change the walk. */
  lemma WalkSkips(f: seq<Page>, g: seq<Page>, P: pos, x: nat)
    requires Walkable(f, P) && Boundary(|f|, P) && Boundary(x, P) && x < |f| == |g| && !Visits(f, P, x)
    requires forall q | 0 <= q < |f| && q != x :: g[q] == f[q]
    ensures Walkable(g, P) && Starts(g, P, 0, |g|) == Starts(f, P, 0, |f|) && !Visits(g, P, x)
  {
    hide Ok, Land, Starts, NodeOk;
    Split(f, P, 0, x, |f|);
    var c := Land(f, P, 0, x);
    Frame(f, g, P, 0, x);
    Frame(f, g, P, c, |f|);
    Join(g, P, 0, x, |g|);
  }

  /** Nor does it change the extents, if none of them has a page of that sector. */
  lemma ExtentsSkip(f: seq<Page>, g: seq<Page>, P: pos, x: nat)
    requires Walkable(f, P) && Walkable(g, P) && Starts(g, P, 0, |g|) == Starts(f, P, 0, |f|) && x < |f| == |g|
    requires Idle(f, P, x) && forall q | 0 <= q < |f| && q != x :: g[q] == f[q]
    ensures Extents(g, P) == Extents(f, P) && Idle(g, P, x)
  {
    hide Ok, Land, Starts;
    ExtentsAre(f, P);
    ExtentsAre(g, P);
    forall q | q in Starts(f, P, 0, |f|)
      ensures g[q].hdr == f[q].hdr && g[q..q + g[q].hdr.maxPages] == f[q..q + f[q].hdr.maxPages]
    {
      assert q != x;
    }
  }

  lemma SameIdle(f0: seq<Page>, f: seq<Page>, P: pos, x: nat)
    requires Walkable(f0, P) && Walkable(f, P) && Extents(f, P) == Extents(f0, P) && Idle(f0, P, x)
    ensures Idle(f, P, x)
  {
    hide Ok, Land, Starts, Extents;
    ExtentsAre(f0, P);
    ExtentsAre(f, P);
    forall q | q in Starts(f, P, 0, |f|) ensures f[q].hdr.maxPages == f0[q].hdr.maxPages {
      assert q in Extents(f0, P) && |Extents(f, P)[q]| == f[q].hdr.maxPages
        && |Extents(f0, P)[q]| == f0[q].hdr.maxPages;
    }
  }

  /**
   * Whenever a greedy collection of f0 is not safe, it erases a sector that no header scan visits and sends next_free
   * there. Any run of at most a sector fits there; but a file that is reserved there is found by no scan, and its
   * sector is due to be erased by the next collection.
   */
  lemma UnsafeLoses(f0: seq<Page>, f: seq<Page>, P: pos, nf0: nat, nf: nat, h: Header, g: seq<Page>)
    requires Walkable(f0, P) && Boundary(|f0|, P) && !SafeToCollect(f0, P, nf0)
    requires Walkable(f, P) && Extents(f, P) == Extents(f0, P) && Reworked(Greedy, f0, f, P, |f0|)
    requires SearchStart(Greedy, f0, P, |f0|, nf0, nf) && (nf <= |f| ==> (Visits(f, P, nf) <==> Visits(f0, P, nf)))
    requires nf < |f| ==> g == f[nf := f[nf].(hdr := h)]
    ensures nf + P <= |f| && AllErased(f, nf, nf + P)
    ensures forall pages: nat | pages <= P && nf + pages < |f| :: Fits(f, P, nf, pages)
    ensures Walkable(g, P) && Extents(g, P) == Extents(f, P) && nf !in Extents(g, P) && Due(Greedy, g, P, nf)
  {
    hide Ok, Land, Starts, NodeOk, Erased;
    UnsafeStart(f0, P, nf0, nf);
    assert AllErased(f, nf, nf + P);
    WalkSkips(f, g, P, nf);
    SameIdle(f0, f, P, nf);
    ExtentsSkip(f, g, P, nf);
    forall pages: nat | pages <= P && nf + pages < |f| ensures Fits(f, P, nf, pages) {
      ErasedFits(f, P, nf, pages);
    }
  }

  lemma UnsafeStart(f0: seq<Page>, P: pos, nf0: nat, nf: nat)
    requires Walkable(f0, P) && !SafeToCollect(f0, P, nf0) && SearchStart(Greedy, f0, P, |f0|, nf0, nf)
    ensures nf < nf0 && Due(Greedy, f0, P, nf) && nf + P <= |f0| && !Visits(f0, P, nf)
  {
    hide Due, Visits, Walkable;
    forall b: nat | Due(Greedy, f0, P, b) ensures b <= |f0| - P { DueInside(Greedy, f0, P, b); }
  }

  lemma ErasedFits(f: seq<Page>, P: pos, b: nat, pages: nat)
    requires Boundary(b, P) && b + P <= |f| && AllErased(f, b, b + P) && pages <= P && b + pages < |f|
    ensures Fits(f, P, b, pages)
  {
    SectorEndIs(b, b, P);
    assert f[b] == Erased();
  }

  /**
   * On every device that is not safe to collect: a file of at most a sector that is reserved behind a collection gets
   * its pages, unless they are the device's last ones; but it is not found again, and is erased by the next
   * collection, with all other files as they were.
   */
  method LoseFile(v: Volume, name: string, pages: pos) returns (r: Option<nat>)
    requires v.Valid() && Walkable(v.flash[..], v.P) && !SafeToCollect(v.flash[..], v.P, v.nextFree) && pages <= v.P
    modifies v, v.flash
    ensures r.None? ==> pages == v.P && v.nextFree + v.P == v.flash.Length
    ensures r.Some? ==>
      && r.value + v.P <= v.flash.Length && AllErased(v.flash[..], r.value, r.value + v.P)
      && r.value !in old(Extents(v.flash[..], v.P))
    ensures Walkable(v.flash[..], v.P) && Extents(v.flash[..], v.P) == old(Extents(v.flash[..], v.P))
  {
    hide *;
    ghost var f0, nf0, h := v.flash[..], v.nextFree, FileHeader(name, pages, false).(valid := true);
    ghost var P := v.P;
    Whole(v);
    Divided(v);
    var _ := v.CollectGarbage(Greedy);
    ghost var page, f := v.nextFree, v.flash[..];
    Stranded(f0, f, P, nf0, page, pages, h);
    r := v.FindContiguousPages(pages);
    assert v.flash[..] == f;
    if r.None? {
      return;
    }
    AtOnce(f, P, page, r.value, pages);
    v.WriteHeader(FileHeader(name, pages, false), r.value);
    ghost var g := v.flash[..];
    assert g == f[page := f[page].(hdr := h)];
    Divided(v);
    var _ := v.CollectGarbage(Greedy);
    DueErased(g, v.flash[..], P, page);
  }

  lemma Whole(v: Volume)
    requires v.Valid()
    ensures v.flash.Length == v.sectors * v.P
  {}

  lemma Divided(v: Volume)
    requires v.flash.Length == v.sectors * v.P
    ensures v.Valid() && Boundary(v.flash.Length, v.P)
  {
    MulBoundary(v.sectors, v.P);
  }

  /** What there is behind an unsafe collection of f0, and once a header is written there. */
  lemma Stranded(f0: seq<Page>, f: seq<Page>, P: pos, nf0: nat, nf: nat, pages: pos, h: Header)
    requires Walkable(f0, P) && Boundary(|f0|, P) && !SafeToCollect(f0, P, nf0) && pages <= P
    requires Walkable(f, P) && Extents(f, P) == Extents(f0, P) && Reworked(Greedy, f0, f, P, |f0|)
    requires SearchStart(Greedy, f0, P, |f0|, nf0, nf) && (nf <= |f| ==> (Visits(f, P, nf) <==> Visits(f0, P, nf)))
    ensures nf + P <= |f| && AllErased(f, nf, nf + P) && nf !in Extents(f0, P)
    ensures Searchable(f, P, nf, pages) && On(f, P, nf, nf) && (nf + pages < |f| ==> Fits(f, P, nf, pages))
    ensures var g := f[nf := f[nf].(hdr := h)];
      Walkable(g, P) && Extents(g, P) == Extents(f, P) && nf !in Extents(g, P) && Due(Greedy, g, P, nf)
  {
    hide Ok, Land, Starts, Reworked, CutOff, SearchStart, SafeToCollect, Visits, Swept, Extents, AllErased, Fits, Idle,
      RunsTo, Cuts, Erased;
    SameSize(f0, f, P);
    UnsafeStart(f0, P, nf0, nf);
    UnsafeLoses(f0, f, P, nf0, nf, h, f[nf := f[nf].(hdr := h)]);
    FoundAtOnce(f, P, nf, pages);
  }

  lemma SameSize(f0: seq<Page>, f: seq<Page>, P: pos)
    requires Walkable(f0, P) && Reworked(Greedy, f0, f, P, |f0|)
    ensures |f| == |f0|
  {}

  lemma AtOnce(f: seq<Page>, P: pos, nf: nat, q: nat, pages: nat)
    requires On(f, P, nf, q) && Fits(f, P, q, pages) && nf + P <= |f| && pages <= P
    requires nf + pages < |f| ==> q <= nf
    ensures q == nf
  {}

  /** What a search finds that starts at an erased sector. */
  lemma FoundAtOnce(f: seq<Page>, P: pos, nf: nat, pages: nat)
    requires Boundary(nf, P) && nf + P <= |f| && AllErased(f, nf, nf + P) && pages <= P
    ensures Searchable(f, P, nf, pages) && On(f, P, nf, nf) && (nf + pages < |f| ==> Fits(f, P, nf, pages))
  {
    SectorEndIs(nf, nf, P);
    assert f[nf] == Erased();
    if nf + pages < |f| { ErasedFits(f, P, nf, pages); }
  }

  lemma DueErased(f0: seq<Page>, f: seq<Page>, P: pos, b: nat)
    requires Walkable(f0, P) && Reworked(Greedy, f0, f, P, |f0|) && Due(Greedy, f0, P, b)
    ensures AllErased(f, b, b + P)
  {
    hide Ok, Land, Starts, Due, Erased;
    DueInside(Greedy, f0, P, b);
  }

  /** There is such a device, with sectors of two pages: an active file of one page, then an obsolete one of three pages
      that fills the second sector, then a free sector. */
  ghost predicate Straddled(f: seq<Page>) {
    && |f| == 6
    && f[0].hdr.Active() && f[0].hdr.maxPages == 1
    && f[1].hdr == FileHeader("old", 3, false).(obsolete := true)
    && f[4] == Erased() && f[5] == Erased()
  }

  lemma StraddledIsUnsafe(f: seq<Page>)
    requires Straddled(f)
    ensures Walkable(f, 2) && Visits(f, 2, 4) && !SafeToCollect(f, 2, 4)
  {
    assert Next(f[4].hdr, 4, 2) == 6;
    assert Ok(f, 2, 4, 6) && Starts(f, 2, 4, 6) == {};
    assert Ok(f, 2, 1, 6) && Starts(f, 2, 1, 6) == {};
    assert Ok(f, 2, 1, 4) && Land(f, 2, 1, 4) == 4;
    assert Ok(f, 2, 1, 2) && Land(f, 2, 1, 2) == 4;
    assert Idle(f, 2, 2) && !Idle(f, 2, 0);
    assert Due(Greedy, f, 2, 2) && !Due(Greedy, f, 2, 0) && !Due(Greedy, f, 2, 1);
  }
}
