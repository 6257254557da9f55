/**
 The flash below the files (cfs-coffee.c): what CoffeeFile keeps as a table of extents with their bytes is what the
 headers and pages of the device hold, laid out by absolute_offset.
 */
module CoffeeDevice {
  import opened Numbers
  import opened Bits
  import opened Wrappers
  import opened CoffeeWalk
  import opened CoffeeCollector
  import opened CoffeeExtents
  import opened CoffeeSpare
  import opened CoffeeLog
  import opened CoffeeTables
  import opened CoffeeSteps
  import opened CoffeeVolume

  predicate Formed(e: seq<Page>) {
    forall q | 0 <= q < |e| :: |e[q].head| == HEADER_SIZE && |e[q].body| == BODY_SIZE
  }

  /** The byte at an address of these pages. */
  function ByteAt(e: seq<Page>, a: nat): byte
    requires Formed(e) && a / PAGE_SIZE < |e|
  {
    var page, o := e[a / PAGE_SIZE], a % PAGE_SIZE;
    if o < HEADER_SIZE then page.head[o] else page.body[o - HEADER_SIZE]
  }

  /** absolute_offset */
  function AbsoluteOffset(page: nat, offset: nat): nat {
    page * PAGE_SIZE + HEADER_SIZE + offset
  }

  /** The data of an extent: all that lies behind the header in its first page. */
  ghost function DataOf(e: seq<Page>): (s: seq<byte>)
    requires e != [] && Formed(e)
    ensures |s| == Capacity(|e|)
  {
    seq(Capacity(|e|), k requires 0 <= k < Capacity(|e|) => ByteAt(e, AbsoluteOffset(0, k)))
  }

  /** What the page level hands over, as the file level sees it. */
  ghost function Lifted(m: map<nat, seq<Page>>): Flash
    requires Whole(m)
  {
    map p: int | 0 <= p && p in m :: Extent(m[p][0].hdr, DataOf(m[p]))
  }

  ghost predicate Whole(m: map<nat, seq<Page>>) {
    forall p | p in m :: m[p] != [] && Formed(m[p])
  }

  /** Byte k of the extent at page p is at the address that absolute_offset gives. */
  lemma LaidOut(f: seq<Page>, p: nat, n: nat, k: nat)
    requires 0 < n && p + n <= |f| && Formed(f[p..p + n]) && k < Capacity(n)
    ensures var a := AbsoluteOffset(p, k);
      && p <= a / PAGE_SIZE < p + n && a / PAGE_SIZE - p == AbsoluteOffset(0, k) / PAGE_SIZE
      && a % PAGE_SIZE == AbsoluteOffset(0, k) % PAGE_SIZE
    ensures DataOf(f[p..p + n])[k] == ByteAt(f[p..p + n], AbsoluteOffset(p, k) - p * PAGE_SIZE)
  {}

  function BytePut(q: Page, o: nat, b: byte, hdr: Header): (r: Page)
    requires |q.head| == HEADER_SIZE && |q.body| == BODY_SIZE && o < PAGE_SIZE
    ensures |r.head| == HEADER_SIZE && |r.body| == BODY_SIZE
  {
    if o < HEADER_SIZE then Page(hdr, q.head[o := b], q.body) else q.(body := q.body[o - HEADER_SIZE := b])
  }

  /** One byte of the data changes. */
  lemma DataPut(e: seq<Page>, k: nat, b: byte, hdr: Header)
    requires e != [] && Formed(e) && k < Capacity(|e|)
    ensures var a := AbsoluteOffset(0, k); a / PAGE_SIZE < |e|
    ensures var a := AbsoluteOffset(0, k);
      var e' := e[a / PAGE_SIZE := BytePut(e[a / PAGE_SIZE], a % PAGE_SIZE, b, hdr)];
      Formed(e') && DataOf(e') == DataOf(e)[k := b] && e'[0].hdr == e[0].hdr
  {}

  lemma FreshData(h: Header, pages: nat)
    requires pages > 0
    ensures Formed(FreshExtent(h, pages)) && DataOf(FreshExtent(h, pages)) == Zeros(Capacity(pages))
    ensures FreshExtent(h, pages)[0].hdr == h && |FreshExtent(h, pages)| == pages
  {}

  /** An erased device has a free walk and no extents. */
  lemma {:induction false} BlankWalk(f: seq<Page>, P: pos, sectors: nat, s: nat)
    requires |f| == sectors * P && s <= sectors && forall q | 0 <= q < |f| :: f[q] == Erased()
    ensures s * P <= |f| && Ok(f, P, s * P, |f|) && Starts(f, P, s * P, |f|) == {}
    decreases sectors - s
  {
    MulMono(s, sectors, P);
    if s < sectors {
      MulMono(s + 1, sectors, P);
      MulBoundary(s, P);
      SectorEndIs(s * P, s * P, P);
      assert (s + 1) * P == s * P + P;
      BlankWalk(f, P, sectors, s + 1);
    }
  }

  /** Where the extent at a page lies. */
  lemma ExtentOf(f: seq<Page>, P: pos, p: nat)
    requires Walkable(f, P) && Whole(Extents(f, P)) && p in Extents(f, P)
    ensures var n := f[p].hdr.maxPages;
      && p < |f| && f[p].hdr.Active() && 0 < n <= |f| - p && Extents(f, P)[p] == f[p..p + n] && Formed(f[p..p + n])
      && Lifted(Extents(f, P))[p] == Extent(f[p].hdr, DataOf(f[p..p + n]))
  {
    hide Starts, Walkable, Formed, DataOf;
  }

  /** A byte of it is read at its address. */
  lemma ByteThere(f: seq<Page>, p: nat, n: nat, k: nat)
    requires 0 < n <= |f| - p && Formed(f[p..p + n]) && k < Capacity(n)
    ensures var a := AbsoluteOffset(p, k);
      && p <= a / PAGE_SIZE < p + n && |f[a / PAGE_SIZE].head| == HEADER_SIZE && |f[a / PAGE_SIZE].body| == BODY_SIZE
      && DataOf(f[p..p + n])[k] ==
         if a % PAGE_SIZE < HEADER_SIZE then f[a / PAGE_SIZE].head[a % PAGE_SIZE]
         else f[a / PAGE_SIZE].body[a % PAGE_SIZE - HEADER_SIZE]
  {
    LaidOut(f, p, n, k);
  }

  /** A byte of it is written at its address. */
  lemma ByteWritten(f: seq<Page>, p: nat, n: nat, k: nat, b: byte, hdr: Header)
    requires 0 < n <= |f| - p && Formed(f[p..p + n]) && k < Capacity(n)
    ensures var a := AbsoluteOffset(p, k);
      p <= a / PAGE_SIZE < p + n && |f[a / PAGE_SIZE].head| == HEADER_SIZE && |f[a / PAGE_SIZE].body| == BODY_SIZE
    ensures var a := AbsoluteOffset(p, k);
      var g := f[a / PAGE_SIZE := BytePut(f[a / PAGE_SIZE], a % PAGE_SIZE, b, hdr)];
      && Formed(g[p..p + n]) && DataOf(g[p..p + n]) == DataOf(f[p..p + n])[k := b] && g[p].hdr == f[p].hdr
  {
    hide DataOf, BytePut;
    LaidOut(f, p, n, k);
    DataPut(f[p..p + n], k, b, hdr);
    var a := AbsoluteOffset(p, k);
    var q := BytePut(f[a / PAGE_SIZE], a % PAGE_SIZE, b, hdr);
    assert f[a / PAGE_SIZE := q][p..p + n] == f[p..p + n][a / PAGE_SIZE - p := q];
  }

  /** The extent at page p, of n pages, is e. */
  ghost predicate Lies(f: seq<Page>, P: pos, p: nat, n: nat, e: Extent) {
    && Walkable(f, P) && Whole(Extents(f, P)) && p in Extents(f, P)
    && p < |f| && f[p].hdr.Active() && n == f[p].hdr.maxPages && 0 < n <= |f| - p && Formed(f[p..p + n])
    && e == Extent(f[p].hdr, DataOf(f[p..p + n]))
  }

  lemma PutMore(data: seq<byte>, offset: nat, bytes: seq<byte>, i: nat)
    requires offset + |bytes| <= |data| && i <= |bytes|
    ensures i == 0 ==> Put(data, offset, bytes[..i]) == data
    ensures i < |bytes| ==> Put(data, offset, bytes[..i + 1]) == Put(data, offset, bytes[..i])[offset + i := bytes[i]]
  {}

  lemma HeaderOnly(e: seq<Page>, hdr: Header)
    requires e != [] && Formed(e)
    ensures var e' := e[0 := e[0].(hdr := hdr)]; Formed(e') && DataOf(e') == DataOf(e)
  {}

  /** One extent gets other contents. */
  lemma LiftedUpdate(m: map<nat, seq<Page>>, p: nat, e: seq<Page>)
    requires Whole(m) && e != [] && Formed(e)
    ensures Whole(m[p := e]) && Lifted(m[p := e]) == Lifted(m)[p := Extent(e[0].hdr, DataOf(e))]
  {
    hide Formed, DataOf;
  }

  lemma LiftedLess(m: map<nat, seq<Page>>, gone: set<nat>, pages: set<int>)
    requires Whole(m) && forall p: int :: p in pages <==> 0 <= p && p in gone
    ensures Whole(m - gone) && Lifted(m - gone) == Lifted(m) - pages
  {
    hide Formed, DataOf;
  }

  /** All these extents are there. */
  ghost predicate Within(a: Flash, b: Flash) {
    forall p | p in a :: p in b && b[p] == a[p]
  }

  lemma HeaderPages(name: string, pages: nat, log: bool)
    ensures FileHeader(name, pages, log).maxPages == pages
  {}

  /** An extent of zeros that was not there. */
  ghost predicate Appeared(a: Flash, b: Flash, h: Header) {
    h.maxPages > 0 && exists p: nat :: p !in a && b == a[p := Extent(h, Zeros(Capacity(h.maxPages)))]
  }

  lemma AppearedAt(a: Flash, p: nat, h: Header)
    requires p !in a && h.maxPages > 0
    ensures Appeared(a, a[p := Extent(h, Zeros(Capacity(h.maxPages)))], h)
  {}

  lemma WithinAt(a: Flash, b: Flash, p: int)
    requires Within(a, b) && p in a
    ensures p in b && b[p] == a[p]
  {}

  lemma WithinPut(a: Flash, b: Flash, p: int, e: Extent)
    requires Within(a, b)
    ensures Within(a[p := e], b[p := e])
  {}

  lemma WithinNew(a: Flash, b: Flash, p: int, e: Extent)
    requires Within(a, b) && p !in b
    ensures p !in a && Within(a, b[p := e])
  {}

  lemma WithinGrows(a: Flash, b: Flash, p: int)
    requires Within(a, b) && p in b
    ensures Within(a[p := b[p]], b)
  {}

  lemma WithinLess(a: Flash, b: Flash, p: int)
    requires Within(a, b) && p in a
    ensures p in b && WithLog(b, p) == WithLog(a, p) && Within(a - WithLog(a, p), b - WithLog(b, p))
  {}

  class Device {
    const volume: Volume

    /** The walk is in order, and so are the pages of the extents. */
    ghost predicate Held()
      reads volume, volume.flash
    {
      volume.Valid() && Walkable(volume.flash[..], volume.P) && Whole(Extents(volume.flash[..], volume.P))
    }

    /** The extents on the device. */
    ghost function Ext(): Flash
      reads volume, volume.flash
      requires Held()
    {
      Lifted(Extents(volume.flash[..], volume.P))
    }

    /** cfs_coffee_format */
    constructor (P: pos, sectors: nat)
      ensures Held() && volume.Sound() && Ext() == map[] && volume.Spare() == sectors * P
      ensures fresh(volume) && fresh(volume.flash)
    {
      volume := new Volume(P, sectors);
      new;
      BlankWalk(volume.flash[..], P, sectors, 0);
      TailSpares(volume.flash[..], P, 0, sectors * P);
    }

    lemma Opened(page: nat) returns (n: nat)
      requires Held() && page in Ext()
      ensures Lies(volume.flash[..], volume.P, page, n, Ext()[page])
    {
      hide Extents, Formed, DataOf;
      ExtentOf(volume.flash[..], volume.P, page);
      n := volume.flash[page].hdr.maxPages;
    }

    /** The extent at the page was written, and nothing else. */
    lemma Rewritten(f: seq<Page>, page: nat)
      requires volume.Valid() && Walkable(f, volume.P) && Whole(Extents(f, volume.P)) && page in Extents(f, volume.P)
      requires var n := f[page].hdr.maxPages;
        && page < |f| && 0 < n <= |f| - page && |f| == volume.flash.Length
        && Same(f, volume.flash[..], 0, page) && Same(f, volume.flash[..], page + n, |f|)
        && volume.flash[page].hdr.Active() && volume.flash[page].hdr.maxPages == n
           && Formed(volume.flash[..][page..page + n])
      ensures Held() && ((volume.nextFree < |f| ==> Visits(f, volume.P, volume.nextFree)) ==> volume.Sound())
      ensures volume.Spare() >= SpareOf(f, volume.P, volume.nextFree)
      ensures var n := f[page].hdr.maxPages;
        Ext() ==
          Lifted(Extents(f, volume.P))[page := Extent(volume.flash[page].hdr, DataOf(volume.flash[..][page..page + n]))]
    {
      hide Extents, Walkable, Formed, DataOf, Lifted, Whole, Visits, SpareOf;
      var g, n := volume.flash[..], f[page].hdr.maxPages;
      MulBoundary(volume.sectors, volume.P);
      Written(f, g, volume.P, page);
      ExtentsAre(f, volume.P);
      TailKept(f, g, volume.P, volume.nextFree, page);
      LiftedUpdate(Extents(f, volume.P), page, g[page..page + n]);
    }

    /** The pages that reserve finds: an extent of zeros, which overlaps no other. */
    method Reserve(name: string, pages: nat, log: bool) returns (page: Option<nat>, stranded: bool)
      requires Held() && volume.Sound() && pages > 0
      modifies volume, volume.flash
      ensures Held() && (stranded <==> !volume.Sound())
      ensures stranded <==>
        old(volume.NoRun(pages) && !volume.gcWait && !SafeToCollect(volume.flash[..], volume.P, volume.nextFree))
      ensures page.Some? <==> old(volume.Grants(pages))
      ensures page.None? && !stranded ==> volume.NoRun(pages) && volume.gcWait
      ensures volume.gcWait <==> old(volume.gcWait) || (page.None? && !stranded)
      ensures Searched(old(volume.flash[..]), volume.P, old(volume.nextFree), old(volume.gcWait), pages, page,
                       volume.nextFree)
      ensures old(volume.Spare()) > pages ==> page.Some? && volume.Spare() >= old(volume.Spare()) - pages
      ensures page.None? ==> Ext() == old(Ext())
      ensures page.Some? ==>
        && !stranded && page.value !in old(Ext())
        && Ext() == old(Ext())[page.value := Extent(FileHeader(name, pages, log), Zeros(Capacity(pages)))]
    {
      hide Extents, Walkable, Formed, DataOf, FreshExtent, SafeToCollect, Volume.NoRun, Volume.Grants, Volume.Spare,
        Volume.Sound, Searched, Looked;
      ghost var m := Extents(volume.flash[..], volume.P);
      page, stranded := volume.Reserve(name, pages, true, log);
      if page.Some? {
        FreshData(FileHeader(name, pages, log), pages);
        LiftedUpdate(m, page.value, FreshExtent(FileHeader(name, pages, log), pages));
      }
    }

    /** read_header */
    method ReadHeader(page: nat) returns (hdr: Header)
      requires Held() && page in Ext()
      ensures hdr == Ext()[page].hdr
    {
      hide Extents, Walkable, Formed, DataOf, Lifted, Whole;
      ghost var n := Opened(page);
      hdr := volume.flash[page].hdr;
    }

    lemma PagesAreNat(page: int)
      requires Held() && page in Ext()
      ensures page >= 0
    {}

    /** COFFEE_READ of all the data of an extent */
    method ReadAll(page: nat) returns (bytes: seq<byte>)
      requires Held() && page in Ext()
      ensures bytes == Ext()[page].data
    {
      hide Held, Ext, DataOf;
      ghost var n := Opened(page);
      bytes := ReadData(page, 0, Capacity(volume.flash[page].hdr.maxPages));
    }

    /** COFFEE_READ at absolute_offset */
    method ReadData(page: nat, offset: nat, size: nat) returns (bytes: seq<byte>)
      requires Held() && page in Ext() && offset + size <= |Ext()[page].data|
      ensures bytes == Ext()[page].data[offset..offset + size]
    {
      hide Extents, Walkable, Formed, DataOf, Lifted, Whole;
      ghost var n := Opened(page);
      ghost var f, data := volume.flash[..], Ext()[page].data;
      bytes := [];
      while |bytes| < size
        invariant |bytes| <= size && bytes == data[offset..offset + |bytes|]
      {
        var a := AbsoluteOffset(page, offset + |bytes|);
        ByteThere(f, page, n, offset + |bytes|);
        var q, o := volume.flash[a / PAGE_SIZE], a % PAGE_SIZE;
        bytes := bytes + [if o < HEADER_SIZE then q.head[o] else q.body[o - HEADER_SIZE]];
      }
    }

    /** COFFEE_WRITE at absolute_offset: headers that the bytes may look like do not matter. */
    method WriteData(page: nat, offset: nat, bytes: seq<byte>)
      requires Held() && page in Ext() && offset + |bytes| <= |Ext()[page].data|
      modifies volume.flash
      ensures Held() && (old(volume.Sound()) ==> volume.Sound()) && volume.Spare() >= old(volume.Spare())
        && page in old(Ext())
      ensures Ext() == old(Ext())[page := old(Ext())[page].(data := Put(old(Ext())[page].data, offset, bytes))]
    {
      hide Extents, Walkable, Formed, DataOf, Lifted, Whole, Visits, BytePut, Put;
      ghost var n := Opened(page);
      ghost var f, data := volume.flash[..], Ext()[page].data;
      PutMore(data, offset, bytes, 0);
      var i := 0;
      while i < |bytes|
        invariant 0 <= i <= |bytes|
        invariant Same(f, volume.flash[..], 0, page) && Same(f, volume.flash[..], page + n, |f|)
        invariant volume.flash[page].hdr == f[page].hdr && Formed(volume.flash[..][page..page + n])
        invariant DataOf(volume.flash[..][page..page + n]) == Put(data, offset, bytes[..i])
      {
        ghost var g := volume.flash[..];
        var a := AbsoluteOffset(page, offset + i);
        var looks: Header := *;
        ByteWritten(g, page, n, offset + i, bytes[i], looks);
        volume.flash[a / PAGE_SIZE] := BytePut(volume.flash[a / PAGE_SIZE], a % PAGE_SIZE, bytes[i], looks);
        assert volume.flash[..] == g[a / PAGE_SIZE := BytePut(g[a / PAGE_SIZE], a % PAGE_SIZE, bytes[i], looks)];
        PutMore(data, offset, bytes, i);
        i := i + 1;
      }
      assert bytes[..|bytes|] == bytes;
      Rewritten(f, page);
    }

    /** write_header on an extent that is there, which keeps its pages. */
    method SetHeader(page: nat, hdr: Header)
      requires Held() && page in Ext() && hdr.Active() && hdr.valid && hdr.maxPages == Ext()[page].hdr.maxPages
      modifies volume.flash
      ensures Held() && (old(volume.Sound()) ==> volume.Sound()) && volume.Spare() >= old(volume.Spare())
      ensures page in old(Ext()) && Ext() == old(Ext())[page := old(Ext())[page].(hdr := hdr)]
    {
      hide Extents, Walkable, Formed, DataOf, Lifted, Whole, Visits;
      ghost var n := Opened(page);
      ghost var f := volume.flash[..];
      HeaderOnly(f[page..page + n], hdr);
      volume.WriteHeader(hdr, page);
      assert volume.flash[..][page..page + n] == f[page..page + n][0 := f[page].(hdr := hdr)];
      Rewritten(f, page);
    }

    /** remove_by_page, with the log */
    method Remove(page: nat)
      requires Held() && page in Ext()
      requires Ext()[page].hdr.modified ==> Ext()[page].hdr.logPage != page && Ext()[page].hdr.logPage in Ext()
      modifies volume`gcWait, volume.flash
      ensures Held() && (old(volume.Sound()) ==> volume.Sound()) && volume.Spare() >= old(volume.Spare())
      ensures page in old(Ext()) && Ext() == old(Ext()) - WithLog(old(Ext()), page) && !volume.gcWait
    {
      hide Extents, Walkable, Formed, DataOf, Lifted, Whole, Visits;
      ghost var n := Opened(page);
      ghost var hdr, m := volume.flash[page].hdr, Extents(volume.flash[..], volume.P);
      if hdr.modified { n := Opened(hdr.logPage); }
      var _ := volume.RemoveByPage(page, true);
      LiftedLess(m, if hdr.modified then {page, hdr.logPage} else {page},
                 if hdr.modified then {page, hdr.logPage} else {page});
    }
  }
}
