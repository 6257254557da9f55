/**
 The header walk of the Coffee flash file system (cfs-coffee.c).

 Flash is a sequence of pages. A page is seen as the file header that its first bytes
 would decode to, and the bytes after it. Only the first page of an extent holds a real
 header: what the other pages of an extent look like as headers is arbitrary, and no
 correct scan may ever look there.
 */
module CoffeeWalk {
  import opened Numbers
  import opened Bits

  /** struct file_header, its flag byte spelled out bit by bit. */
  datatype Header = Header(
    valid: bool, alloc: bool, obsolete: bool, modified: bool, log: bool, isolated: bool,
    logPage: nat, logRecords: nat, logRecordSize: nat, maxPages: nat, name: string)
  {
    /** HDR_FREE */
    predicate Free() { !alloc }

    /** HDR_ACTIVE */
    predicate Active() { alloc && !obsolete && !isolated }
  }

  /** The header, the bytes it is read from, and those behind them. */
  datatype Page = Page(hdr: Header, head: seq<byte>, body: seq<byte>)

  /** sizeof(struct file_header), and COFFEE_PAGE_SIZE less that */
  const HEADER_SIZE: nat := 30
  const BODY_SIZE: nat := 226

  const NO_HEADER := Header(false, false, false, false, false, false, 0, 0, 0, 0, "")

  /** What COFFEE_ERASE leaves behind. */
  function Erased(): Page { Page(NO_HEADER, seq(HEADER_SIZE, _ => 0 as byte), seq(BODY_SIZE, _ => 0 as byte)) }

  /** The header that isolate_pages writes. */
  const ISOLATED_HEADER := NO_HEADER.(valid := true, alloc := true, isolated := true)

  function SectorStart(p: nat, P: pos): (s: nat)
    ensures s <= p < s + P
  {
    p / P * P
  }

  /** (page + COFFEE_PAGES_PER_SECTOR) & ~(COFFEE_PAGES_PER_SECTOR - 1) */
  function SectorEnd(p: nat, P: pos): nat {
    SectorStart(p, P) + P
  }

  /** Page b is the first page of a sector (or the end of the device). */
  predicate Boundary(b: nat, P: pos) {
    b % P == 0
  }

  lemma SectorEndIs(b: nat, p: nat, P: pos)
    requires Boundary(b, P) && b <= p < b + P
    ensures SectorStart(p, P) == b
  {
    var q, r := p / P, p % P;
    var s := b / P;
    assert p == q * P + r && b == s * P;
    assert (q + 1) * P == q * P + P && (s + 1) * P == s * P + P;
    if q < s { MulMono(q + 1, s, P); }
    if q > s { MulMono(s + 1, q, P); }
  }

  lemma SectorEndWithin(p: nat, b: nat, P: pos)
    requires Boundary(b, P) && p < b
    ensures SectorEnd(p, P) <= b
  {
    var q, s := p / P, b / P;
    assert p == q * P + p % P && b == s * P;
    assert q < s by {
      if q >= s { MulMono(s, q, P); }
    }
    MulMono(q + 1, s, P);
  }

  lemma NextBoundary(b: nat, P: pos)
    requires Boundary(b, P)
    ensures Boundary(b + P, P)
  {
    assert b == b / P * P;
    assert b + P == (b / P + 1) * P;
    MulBoundary(b / P + 1, P);
  }

  lemma MulBoundary(s: nat, P: pos)
    ensures Boundary(s * P, P)
  {
    DivMod(s * P, s, 0, P);
  }

  /** next_file */
  function Next(h: Header, p: nat, P: pos): nat {
    if h.Free() then SectorEnd(p, P)
    else if h.isolated then p + 1
    else p + h.maxPages
  }

  /** A page the walk may stop at: past a free header the sector is erased to its end, and
      an extent has at least one page and stays inside the device. */
  ghost predicate NodeOk(f: seq<Page>, P: pos, p: nat) {
    && p < |f|
    && (f[p].hdr.Free() ==> SectorEnd(p, P) <= |f| && forall q | p <= q < SectorEnd(p, P) :: f[q] == Erased())
    && (!f[p].hdr.Free() && !f[p].hdr.isolated ==> 1 <= f[p].hdr.maxPages <= |f| - p)
  }

  /** Every node that the walk from p visits before page b is well formed. */
  ghost predicate Ok(f: seq<Page>, P: pos, p: nat, b: nat)
    decreases b - p
  {
    p < b ==> NodeOk(f, P, p) && Ok(f, P, Next(f[p].hdr, p, P), b)
  }

  /** The first node at or after page b on the walk from p. */
  ghost function Land(f: seq<Page>, P: pos, p: nat, b: nat): (c: nat)
    requires Ok(f, P, p, b)
    ensures p <= c && b <= c && (b <= |f| && p <= |f| ==> c <= |f|)
    ensures p >= b ==> c == p
    decreases b - p
  {
    if p >= b then p else Land(f, P, Next(f[p].hdr, p, P), b)
  }

  /** The first pages of the active extents met on the walk from p before page b. */
  ghost function Starts(f: seq<Page>, P: pos, p: nat, b: nat): (r: set<nat>)
    requires Ok(f, P, p, b)
    ensures p >= b ==> r == {}
    ensures forall q | q in r :: p <= q < b && q < |f| && f[q].hdr.Active() && 1 <= f[q].hdr.maxPages <= |f| - q
    decreases b - p
  {
    if p >= b then {} else
      (if f[p].hdr.Active() then {p} else {}) + Starts(f, P, Next(f[p].hdr, p, P), b)
  }

  /** A flash image whose headers form a well-formed walk from page 0 to the end of the device. */
  ghost predicate Walkable(f: seq<Page>, P: pos) {
    Ok(f, P, 0, |f|)
  }

  /** The walk from page 0 stops at page p. */
  ghost predicate Visits(f: seq<Page>, P: pos, p: nat) {
    Ok(f, P, 0, p) && Land(f, P, 0, p) == p
  }

  /** The active extents of an image: first page to contents. This is all that the rest of
      the file system can see of the flash. */
  ghost function Extents(f: seq<Page>, P: pos): map<nat, seq<Page>>
    requires Walkable(f, P)
  {
    map q | q in Starts(f, P, 0, |f|) :: f[q..q + f[q].hdr.maxPages]
  }

  /** The walk can be cut at any page b: it goes through the landing page of b. */
  lemma {:induction false} Split(f: seq<Page>, P: pos, p: nat, b: nat, e: nat)
    requires Ok(f, P, p, e) && b <= e
    ensures Ok(f, P, p, b)
    ensures var c := Land(f, P, p, b);
      && Ok(f, P, c, e)
      && Land(f, P, c, e) == Land(f, P, p, e)
      && Starts(f, P, p, e) == Starts(f, P, p, b) + Starts(f, P, c, e)
    decreases b - p
  {
    if p < b {
      Split(f, P, Next(f[p].hdr, p, P), b, e);
    }
  }

  /** The converse of Split. */
  lemma {:induction false} Join(f: seq<Page>, P: pos, p: nat, b: nat, e: nat)
    requires Ok(f, P, p, b) && b <= e && Ok(f, P, Land(f, P, p, b), e)
    ensures Ok(f, P, p, e)
    ensures var c := Land(f, P, p, b);
      && Land(f, P, c, e) == Land(f, P, p, e)
      && Starts(f, P, p, e) == Starts(f, P, p, b) + Starts(f, P, c, e)
    decreases b - p
  {
    if p < b {
      Join(f, P, Next(f[p].hdr, p, P), b, e);
    }
  }

  /** Up to a sector boundary the walk depends on nothing behind that boundary. */
  lemma {:induction false} Frame(f: seq<Page>, g: seq<Page>, P: pos, p: nat, b: nat)
    requires |f| == |g| && b <= |f| && Boundary(b, P) && Ok(f, P, p, b)
    requires forall q | p <= q < b :: f[q] == g[q]
    ensures Ok(g, P, p, b)
    ensures Land(g, P, p, b) == Land(f, P, p, b)
    ensures Starts(g, P, p, b) == Starts(f, P, p, b)
    decreases b - p
  {
    if p < b {
      if f[p].hdr.Free() { SectorEndWithin(p, b, P); }
      Frame(f, g, P, Next(f[p].hdr, p, P), b);
    }
  }

  /** What lies behind a visited page does not matter for visiting it. */
  lemma {:induction false} FrameVisit(f: seq<Page>, g: seq<Page>, P: pos, p: nat, b: nat)
    requires |f| == |g| && b <= |f| && p <= b && Ok(f, P, p, b) && Land(f, P, p, b) == b
    requires forall q | p <= q < b :: f[q] == g[q]
    ensures Ok(g, P, p, b) && Land(g, P, p, b) == b && Starts(g, P, p, b) == Starts(f, P, p, b)
    decreases b - p
  {
    if p < b {
      FrameVisit(f, g, P, Next(f[p].hdr, p, P), b);
    }
  }

  /** Isolated pages are walked one by one. */
  lemma {:induction false} WalkIsolated(f: seq<Page>, P: pos, p: nat, b: nat)
    requires p <= b <= |f| && forall q | p <= q < b :: f[q].hdr == ISOLATED_HEADER
    ensures Ok(f, P, p, b) && Land(f, P, p, b) == b && Starts(f, P, p, b) == {}
    decreases b - p
  {
    if p < b {
      WalkIsolated(f, P, p + 1, b);
    }
  }

  /** Active extents lie one after the other: they never overlap. */
  lemma {:induction false} Disjoint(f: seq<Page>, P: pos, p: nat, b: nat, q: nat, r: nat)
    requires Ok(f, P, p, b)
    requires q in Starts(f, P, p, b) && r in Starts(f, P, p, b) && q < r
    ensures q + f[q].hdr.maxPages <= r
    decreases b - p
  {
    if p == q {
      assert r in Starts(f, P, Next(f[p].hdr, p, P), b);
    } else {
      Disjoint(f, P, Next(f[p].hdr, p, P), b, q, r);
    }
  }

  /** Every active extent met before b ends before the walk goes on. */
  lemma {:induction false} EndsBeforeLand(f: seq<Page>, P: pos, p: nat, b: nat, q: nat)
    requires Ok(f, P, p, b) && q in Starts(f, P, p, b)
    ensures q + f[q].hdr.maxPages <= Land(f, P, p, b)
    decreases b - p
  {
    if p != q {
      EndsBeforeLand(f, P, Next(f[p].hdr, p, P), b, q);
    }
  }
}
