/** Runs of the Coffee file system in which it fails without saying so (cfs-coffee.c). */
module CoffeeFailures {
  import opened Numbers
  import opened CoffeeWalk
  import opened CoffeeLog
  import opened CoffeeTables
  import opened CoffeeSteps
  import opened CoffeeVolume
  import opened CoffeeDevice
  import opened CoffeeFile

  /** A file has just been created on an empty device, through the first descriptor and in some slot. */
  ghost predicate Created(fs: FileSystem, name: string, fd: int, spare: int)
    reads fs, fs.dev.volume, fs.dev.volume.flash
  {
    && fs.Valid() && !fs.stranded && fs.dev.Held() && fs.dev.volume.Spare() > spare
    && fs.FileOk(fd) && fs.fds[fd].readable && fs.fds[fd].writable && fs.fds[fd].offset == 0 && fs.ContentsOf(fd) == []
    && var i := fs.fds[fd].file;
    && fs.files[i] == Loaded(fs.files[i].page, fs.dynPages).(references := 1)
    && (forall d | 0 <= d < |fs.fds| && d != fd :: !fs.fds[d].open)
    && (forall k | 0 <= k < |fs.files| && k != i :: fs.files[k].references == 0)
    && fs.files[i].page in fs.ext && fs.ext[fs.files[i].page].hdr == FileHeader(name, fs.dynPages, false)
    && fs.dev.Ext().Keys == {fs.files[i].page} && fs.dev.Ext()[fs.files[i].page] == fs.ext[fs.files[i].page]
    && fs.ext.Keys == {fs.files[i].page}
  }

  method Create(name: string, slots: pos, descriptors: pos, logSize: nat, dynPages: nat, P: pos, sectors: nat)
      returns (fs: FileSystem, fd: int)
    requires ConfigFits(logSize, dynPages) && dynPages < sectors * P
    ensures fresh(fs) && fresh(fs.dev.volume) && fresh(fs.dev.volume.flash)
    ensures Created(fs, name, fd, sectors * P - dynPages - 1)
    ensures |fs.files| == slots && |fs.fds| == descriptors && fs.logSize == logSize && fs.dynPages == dynPages
  {
    hide *;
    fs := new FileSystem(slots, descriptors, logSize, dynPages, P, sectors);
    Empty(fs, name);
    fs.MeansGrant(dynPages);
    fs.LackMeans(dynPages);
    ghost var files, fds := fs.files, fs.fds;
    NoneOpen(fs);
    var slot;
    fd, slot := fs.Open(name, true, true, false);
    IsCreated(fs, name, fd, slot, files, fds, sectors * P - dynPages - 1);
  }

  lemma NoneOpen(fs: FileSystem)
    requires forall fd :: !fs.FdValid(fd)
    ensures forall d | 0 <= d < |fs.fds| :: !fs.fds[d].open
  {
    forall d | 0 <= d < |fs.fds| ensures !fs.fds[d].open { assert !fs.FdValid(d); }
  }

  lemma IsCreated(fs: FileSystem, name: string, fd: int, slot: int, files: seq<File>, fds: seq<Desc>, spare: int)
    requires fs.Valid() && !fs.stranded && fs.dev.Held() && fs.dev.volume.Spare() > spare
    requires 0 <= fd < |fds| && forall d | 0 <= d < |fds| :: !fds[d].open
    requires fs.fds == fds[fd := Desc(true, true, true, slot, 0)] && IsFile(fs.ext, fs.logSize, fs.files, slot)
    requires 0 <= slot < |files| && forall k | 0 <= k < |files| :: files[k].references == 0
    requires |fs.files| == |files|
      && fs.files == files[slot := Loaded(fs.files[slot].page, fs.dynPages).(references := 1)]
    requires Contents(fs.ext, fs.logSize, fs.files[slot]) == []
    requires var p, e :=
      fs.files[slot].page, Extent(FileHeader(name, fs.dynPages, false), Zeros(Capacity(fs.dynPages)));
      fs.ext == map[][p := e] && fs.dev.Ext() == map[][p := e]
    ensures Created(fs, name, fd, spare)
  {
    hide FileSystem.Valid, Volume.Spare, Device.Held, Device.Ext, Image, FileHeader;
  }

  lemma Empty(fs: FileSystem, name: string)
    requires fs.dev.Held() && fs.dev.Ext() == map[] && (forall fd :: !fs.FdValid(fd))
    requires |fs.files| > 0 && |fs.fds| > 0 && forall i | 0 <= i < |fs.files| :: fs.files[i].references == 0
    ensures fs.Absent(name) && SlotLeft(fs.files) && FdLeft(fs.fds)
  {
    assert fs.files[0].references == 0 && !fs.FdValid(0);
  }

  /** With one slot a second file cannot be created; but its extent stays on the device, and no file knows of it. */
  method LeakRun(a: string, b: string, dynPages: nat, P: pos, sectors: nat) returns (fs: FileSystem, fd: int)
    requires a != b && ConfigFits(PAGE_SIZE, dynPages) && 2 * dynPages < sectors * P
    ensures fs.Valid() && fs.dev.Held() && fd == -1
    ensures exists p :: p in fs.dev.Ext() && p !in fs.ext && fs.dev.Ext()[p].hdr == FileHeader(b, dynPages, false)
  {
    hide *;
    var first, second;
    fs, first := Create(a, 1, 2, PAGE_SIZE, dynPages, P, sectors);
    OneSlot(fs, a, first, b, sectors * P - dynPages - 1);
    ghost var before, ext := fs.dev.Ext(), fs.ext;
    fd, second := fs.Open(b, false, true, false);
    Unknown(before, fs.dev.Ext(), ext, FileHeader(b, dynPages, false));
  }

  lemma OneSlot(fs: FileSystem, a: string, fd: int, b: string, spare: int)
    requires Created(fs, a, fd, spare) && spare >= fs.dynPages && a != b && |fs.files| == 1 && |fs.fds| == 2
    ensures fs.Valid() && !fs.stranded && fs.dev.Held() && fs.Absent(b) && !SlotLeft(fs.files) && FdLeft(fs.fds)
    ensures fs.dev.volume.Grants(fs.dynPages) && !fs.CanReserve(fs.dynPages) && fs.ext.Keys == fs.dev.Ext().Keys
  {
    hide FileSystem.Valid, Volume.Spare, Device.Held, Volume.Grants, Device.Ext;
    fs.MeansGrant(fs.dynPages);
    assert !fs.fds[1 - fd].open;
  }

  lemma Unknown(before: Flash, after: Flash, ext: Flash, h: Header)
    requires Appeared(before, after, h) && ext.Keys == before.Keys
    ensures exists p :: p in after && p !in ext && after[p].hdr == h
  {
    var p: nat :| p !in before && after == before[p := Extent(h, Zeros(Capacity(h.maxPages)))];
    assert p in after;
  }

  /** What a file of its own looks like to cfs_write, with so many bytes in it and pages to be had. */
  ghost predicate Sole(fs: FileSystem, fd: int, contents: seq<byte>, offset: nat, means: int)
    reads fs, fs.dev.volume, fs.dev.volume.flash
  {
    && fs.Valid() && fs.FileOk(fd) && fs.fds[fd].writable && fs.fds[fd].offset == offset
       && fs.ContentsOf(fd) == contents
    && !FdLeft(fs.fds) && fs.Means() > means
    && var f := fs.files[fs.fds[fd].file];
    f.maxPages == fs.dynPages && !f.modified && LogConfig(fs.ext, f) == (0, 0)
  }

  lemma CreatedSole(fs: FileSystem, name: string, fd: int, spare: int)
    requires Created(fs, name, fd, spare) && |fs.files| == 2 && |fs.fds| == 1
    ensures Sole(fs, fd, [], 0, spare)
  {
    hide FileSystem.Valid, Volume.Spare, Device.Held, Device.Ext, Image, Ends, Describes, FileSystem.ContentsOf;
    assert fs.files[1 - fs.fds[fd].file].references == 0;
    HeaderConfig(name, fs.dynPages);
  }

  lemma HeaderConfig(name: string, pages: nat)
    ensures FileHeader(name, pages, false).logRecordSize == 0 && FileHeader(name, pages, false).logRecords == 0
  {}

  /** What cfs_write and cfs_seek need to know of it. */
  lemma SoleMeans(fs: FileSystem, fd: int, contents: seq<byte>, offset: nat, means: int, n: nat)
    requires Sole(fs, fd, contents, offset, means)
    ensures fs.Valid() && fs.FileOk(fd) && fs.FdValid(fd) && 0 <= fd < |fs.fds| && 0 <= fs.fds[fd].file < |fs.files|
    ensures fs.fds[fd].writable && fs.fds[fd].offset == offset && fs.ContentsOf(fd) == contents && !FdLeft(fs.fds)
    ensures fs.Means() > means && fs.files[fs.fds[fd].file].end == |contents|
      && fs.files[fs.fds[fd].file].page in fs.ext
    ensures fs.files[fs.fds[fd].file].maxPages == fs.dynPages && !fs.files[fs.fds[fd].file].modified
    ensures LogConfig(fs.ext, fs.files[fs.fds[fd].file]) == (0, 0) && fs.dynPages > 0
    ensures fs.Grows(fd, n) <==> n + offset > Capacity(fs.dynPages)
    ensures fs.ThroughLog(fd) <==> offset < |contents|
    ensures LogGeometry(fs.ext[fs.files[fs.fds[fd].file].page].hdr, fs.logSize) ==
      Geometry(PAGE_SIZE, fs.logSize / PAGE_SIZE)
  {
    hide FileSystem.Backed, Consistent, Image, FileSystem.Means, FdLeft;
  }

  /** The records that its log will have. */
  lemma SoleSure(fs: FileSystem, fd: int, contents: seq<byte>, offset: nat, means: int, n: nat, records: nat)
    requires records == fs.logSize / PAGE_SIZE && PageCount(records * (2 + PAGE_SIZE)) <= means
    requires Sole(fs, fd, contents, offset, means)
    ensures fs.FileOk(fd) && fs.Sure(fd, n) == Covered(offset, n, PAGE_SIZE, records)
  {
    hide *;
    SoleMeans(fs, fd, contents, offset, means, n);
    fs.SureMeans(fd, n);
    fs.LogSays(fs.fds[fd].file);
    PagesAre(fs, fs.ext[fs.files[fs.fds[fd].file].page].hdr);
    fs.MeansMean();
    fs.MeansGrant(PageCount(fs.logSize / PAGE_SIZE * (2 + PAGE_SIZE)));
  }

  lemma PagesAre(fs: FileSystem, h: Header)
    requires LogGeometry(h, fs.logSize) == Geometry(PAGE_SIZE, fs.logSize / PAGE_SIZE)
    ensures LogPages(h, fs.logSize) == PageCount(fs.logSize / PAGE_SIZE * (2 + PAGE_SIZE))
  {}

  method WriteFirst(fs: FileSystem, fd: int, bytes: seq<byte>, ghost means: int)
    requires Sole(fs, fd, [], 0, means) && |bytes| <= 0xFFFF && |bytes| <= Capacity(fs.dynPages)
    modifies fs, fs.dev.volume, fs.dev.volume.flash
    ensures Sole(fs, fd, bytes, |bytes|, means)
  {
    hide *;
    SoleMeans(fs, fd, [], 0, means, |bytes|);
    SizesFit(|bytes|);
    ghost var ext, files, fds := fs.ext, fs.files, fs.fds;
    var r0, written0 := fs.Write(fd, bytes);
    WholeOver(bytes);
    CarriedSays(ext, files, fds, fs.ext, fs.files, fs.fds, fs.logSize, fd);
    SoleAgain(fs, fd, bytes, |bytes|, means);
  }

  method Rewind(fs: FileSystem, fd: int, contents: seq<byte>, ghost offset: nat, ghost means: int)
    requires Sole(fs, fd, contents, offset, means)
    modifies fs`files, fs`fds
    ensures Sole(fs, fd, contents, 0, means)
  {
    hide FileSystem.Valid, FileSystem.FileOk, FileSystem.ContentsOf, FileSystem.Means, FdLeft, OthersKept, LogConfig,
      Sole, FileSystem.Grows, FileSystem.ThroughLog;
    SoleMeans(fs, fd, contents, offset, means, 0);
    Reopened(fs.fds, fd, 0);
    ghost var files, fds, ext := fs.files, fs.fds, fs.ext;
    var at := fs.Seek(fd, 0, SeekSet);
    assert fs.files == files && contents + Zeros(0) == contents;
    SoleAgain(fs, fd, contents, 0, means);
  }

  /**
   * With one descriptor no log can be merged: a file is written, and then written over. The second write returns its
   * full size, but has only written as many bytes as its log has records for.
   */
  method HalfWrite(name: string, before: seq<byte>, after: seq<byte>, logSize: nat, dynPages: nat, P: pos, sectors: nat)
      returns (fs: FileSystem, fd: int, r: int)
    requires |before| == |after| <= 0xFFFF && ConfigFits(logSize, dynPages)
    requires logSize / PAGE_SIZE * PAGE_SIZE < |after| <= Capacity(dynPages)
    requires dynPages + PageCount(logSize / PAGE_SIZE * (2 + PAGE_SIZE)) < sectors * P
    ensures fs.Valid() && fs.FileOk(fd) && r == |after|
    ensures var n := logSize / PAGE_SIZE * PAGE_SIZE; 0 < n < |after| && fs.ContentsOf(fd) == after[..n] + before[n..]
  {
    hide *;
    ghost var means := sectors * P - dynPages - 1;
    fs, fd := Create(name, 2, 1, logSize, dynPages, P, sectors);
    CreatedSole(fs, name, fd, means);
    SizesFit(|before|);
    ConfigMeans(logSize, dynPages);
    WriteFirst(fs, fd, before, means);
    Rewind(fs, fd, before, |before|, means);
    SoleMeans(fs, fd, before, 0, means, |after|);
    SoleSure(fs, fd, before, 0, means, |after|, fs.logSize / PAGE_SIZE);
    CoveredIs(|after|, fs.logSize / PAGE_SIZE);
    var written;
    r, written := fs.Write(fd, after);
    HalfOver(before, after, written);
  }

  lemma CarriedSays(ext0: Flash, files0: seq<File>, fds0: seq<Desc>, ext: Flash, files: seq<File>, fds: seq<Desc>,
                    logSize: nat, fd: nat)
    requires fd < |fds0| == |fds|
      && Carried(ext0, files0, fds0, fds0[fd].file, ext, files, fds, fds[fd].file, logSize, fd)
    ensures 0 <= fds[fd].file < |files| && 0 <= fds0[fd].file < |files0|
    ensures fds[fd].writable == fds0[fd].writable && (FdLeft(fds) ==> FdLeft(fds0))
    ensures LogConfig(ext, files[fds[fd].file]) == LogConfig(ext0, files0[fds0[fd].file])
  {
    hide Image, Describes, LogConfig;
    if d :| 0 <= d < |fds| && !fds[d].open { assert !fds0[d].open; }
  }

  lemma Reopened(fds: seq<Desc>, fd: nat, offset: nat)
    requires fd < |fds|
    ensures FdLeft(fds[fd := fds[fd].(offset := offset)]) ==> FdLeft(fds)
  {
    var fds' := fds[fd := fds[fd].(offset := offset)];
    if d :| 0 <= d < |fds'| && !fds'[d].open { assert !fds[d].open; }
  }

  lemma SoleAgain(fs: FileSystem, fd: int, contents: seq<byte>, offset: nat, means: int)
    requires fs.Valid() && fs.FileOk(fd) && 0 <= fd < |fs.fds| && 0 <= fs.fds[fd].file < |fs.files|
    requires fs.fds[fd].writable && fs.fds[fd].offset == offset && fs.ContentsOf(fd) == contents
    requires !FdLeft(fs.fds) && fs.Means() > means
    requires var f := fs.files[fs.fds[fd].file];
      f.maxPages == fs.dynPages && !f.modified && LogConfig(fs.ext, f) == (0, 0)
    ensures Sole(fs, fd, contents, offset, means)
  {}

  lemma SizesFit(n: nat)
    requires n <= 0xFFFF
    ensures 2 * (n + 0 + HEADER_SIZE) <= 0xFFFE * PAGE_SIZE
  {}

  lemma CoveredIs(n: nat, records: nat)
    requires records * PAGE_SIZE < n
    ensures Covered(0, n, PAGE_SIZE, records) == records * PAGE_SIZE
  {}

  lemma HalfOver(before: seq<byte>, after: seq<byte>, n: nat)
    requires n <= |before| == |after|
    ensures Overwrite(before, 0, after[..n]) == after[..n] + before[n..]
  {}

  lemma WholeOver(bytes: seq<byte>)
    ensures Overwrite([], 0, bytes[..|bytes|]) == bytes
  {
    assert bytes[..|bytes|] == bytes;
  }
}
