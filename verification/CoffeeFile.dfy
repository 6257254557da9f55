/** Files, descriptors and log merging of the Coffee file system (cfs-coffee.c). */
module CoffeeFile {
  import opened Numbers
  import opened Bits
  import opened CoffeeWalk
  import opened CoffeeLog
  import opened CoffeeTables
  import opened CoffeeSteps
  import opened CoffeeVolume
  import opened CoffeeDevice
  import opened Wrappers

  /** CFS_SEEK_SET, CFS_SEEK_END, CFS_SEEK_CUR and any other */
  datatype Whence = SeekSet | SeekEnd | SeekCur | SeekOther

  class FileSystem {
    const logSize: nat     // COFFEE_LOG_SIZE
    const dynPages: nat    // page_count(COFFEE_DYN_SIZE)
    const dev: Device      // the flash
    ghost var ext: Flash   // the active extents on it that the file system knows of
    var files: seq<File>   // coffee_files
    var fds: seq<Desc>     // coffee_fd_set
    /** A collection has left next_free off the walk (see CoffeeVolume.Volume.Reserve). The C code goes on all the
        same; here no page is reserved any more. */
    var stranded: bool
    ghost var starved: bool // a page run, a slot or a descriptor was asked for in vain

    /** cfs_coffee_format, on a device of this many sectors of P pages */
    constructor (slots: nat, descriptors: nat, logSize: nat, dynPages: nat, P: pos, sectors: nat)
      requires ConfigFits(logSize, dynPages)
      ensures Valid() && ext == map[] && |files| == slots && |fds| == descriptors && !starved && !stranded
      ensures forall fd :: !FdValid(fd)
      ensures this.logSize == logSize && this.dynPages == dynPages
      ensures dev.Held() && dev.Ext() == map[] && dev.volume.Spare() == sectors * P
      ensures forall i | 0 <= i < slots :: files[i].references == 0
      ensures fresh(dev.volume) && fresh(dev.volume.flash)
    {
      this.logSize, this.dynPages := logSize, dynPages;
      dev := new Device(P, sectors);
      ext, files := map[], seq(slots, _ => FREE_FILE);
      fds := seq(descriptors, _ => Desc(false, false, false, -1, 0));
      starved, stranded := false, false;
      new;
      forall i | 0 <= i < slots ensures References(fds, i) == 0 {
        Unreferenced(fds, i);
      }
    }

    /** The device holds the extents, as it does extents that reserve had no slot for, and unless it is stranded
        more can be reserved. */
    ghost predicate Backed()
      reads this`ext, this`stranded, dev.volume, dev.volume.flash
    {
      dev.Held() && Within(ext, dev.Ext()) && (!stranded ==> dev.volume.Sound())
    }

    lemma BackedMeans()
      requires Backed()
      ensures dev.Held() && Within(ext, dev.Ext()) && (!stranded ==> dev.volume.Sound())
    {}

    lemma BackedAgain()
      requires dev.Held() && Within(ext, dev.Ext()) && (!stranded ==> dev.volume.Sound())
      ensures Backed()
    {}

    /** reserve can have this many pages, and a slot for them. */
    ghost predicate CanReserve(pages: nat)
      reads this`stranded, this`files, dev.volume, dev.volume.flash
    {
      !stranded && SlotLeft(files) && dev.Held() && dev.volume.Grants(pages)
    }

    /** What it may lack after it has failed; as long as it does it fails again. */
    ghost predicate Lacks(pages: nat)
      reads this`stranded, this`files, dev.volume, dev.volume.flash
    {
      stranded || !SlotLeft(files) || (dev.volume.NoRun(pages) && dev.volume.gcWait)
    }

    /** So many pages can be had for sure. */
    ghost function Means(): nat
      reads this`stranded, this`files, dev.volume, dev.volume.flash
    {
      if stranded || !SlotLeft(files) then 0 else dev.volume.Spare()
    }

    /** COFFEE_WRITE into an extent */
    method PutData(page: int, at: nat, bytes: seq<byte>)
      requires Backed() && page in ext && at + |bytes| <= |ext[page].data|
      modifies this`ext, dev.volume.flash
      ensures Backed() && page in old(ext) && dev.volume.Spare() >= old(dev.volume.Spare())
      ensures ext == old(ext)[page := old(ext)[page].(data := Put(old(ext)[page].data, at, bytes))]
    {
      hide *;
      BackedMeans();
      WithinAt(ext, dev.Ext(), page);
      dev.PagesAreNat(page);
      ghost var e := ext[page].(data := Put(ext[page].data, at, bytes));
      WithinPut(ext, dev.Ext(), page, e);
      dev.WriteData(page, at, bytes);
      ext := ext[page := e];
      BackedAgain();
    }

    /** write_header for an extent */
    method PutHeader(page: int, hdr: Header)
      requires Backed() && page in ext && hdr.Active() && hdr.valid && hdr.maxPages == ext[page].hdr.maxPages
      modifies this`ext, dev.volume.flash
      ensures Backed() && page in old(ext) && ext == old(ext)[page := old(ext)[page].(hdr := hdr)]
      ensures dev.volume.Spare() >= old(dev.volume.Spare())
    {
      hide *;
      BackedMeans();
      WithinAt(ext, dev.Ext(), page);
      dev.PagesAreNat(page);
      ghost var e := ext[page].(hdr := hdr);
      WithinPut(ext, dev.Ext(), page, e);
      dev.SetHeader(page, hdr);
      ext := ext[page := e];
      BackedAgain();
    }

    /** read_header and COFFEE_READ for all of an extent, of which the callers use parts */
    method Load(page: int) returns (hdr: Header, data: seq<byte>)
      requires Backed() && page in ext
      ensures Extent(hdr, data) == ext[page]
    {
      hide *;
      BackedMeans();
      WithinAt(ext, dev.Ext(), page);
      dev.PagesAreNat(page);
      hdr := dev.ReadHeader(page);
      data := dev.ReadAll(page);
    }

    /** read_header */
    method LoadHeader(page: int) returns (hdr: Header)
      requires Backed() && page in ext
      ensures hdr == ext[page].hdr
    {
      hide *;
      BackedMeans();
      WithinAt(ext, dev.Ext(), page);
      dev.PagesAreNat(page);
      hdr := dev.ReadHeader(page);
    }

    ghost predicate Valid()
      reads this, dev.volume, dev.volume.flash
    {
      ConfigFits(logSize, dynPages)
      && Backed() && Consistent(ext, logSize, files, fds) && (stranded ==> starved)
    }

    predicate FdValid(fd: int)
      reads this
    {
      0 <= fd < |fds| && fds[fd].open
    }

    /** The file of a descriptor is in order, whatever the rest of the flash looks like. */
    ghost predicate FileOk(fd: int)
      reads this
    {
      && FdValid(fd) && 0 <= fds[fd].file < |files|
      && var f := files[fds[fd].file];
      Describes(ext, logSize, f) && Ends(ext, logSize, f) && fds[fd].offset <= f.end
    }

    /** The plain byte array that a descriptor gives access to. */
    ghost function ContentsOf(fd: int): seq<byte>
      requires FileOk(fd)
      reads this
    {
      Contents(ext, logSize, files[fds[fd].file])
    }

    /** cfs_read */
    method Read(fd: int, size: nat) returns (n: int, buf: seq<byte>)
      requires Backed() && (FdValid(fd) ==> FileOk(fd))
      // otherwise the loop never ends (CoffeeLog.EndsExactly)
      requires FdValid(fd) && files[fds[fd].file].modified ==>
        size <= 0xFFFF || files[fds[fd].file].end - fds[fd].offset <= 0xFFFF
      modifies this`fds
      ensures n >= 0 <==> old(FdValid(fd) && fds[fd].readable)
      ensures n < 0 ==> n == -1 && fds == old(fds) && buf == []
      ensures n >= 0 ==> old(FileOk(fd))
      ensures n >= 0 ==>
        var at := old(fds[fd].offset);
        && n == (if at + size > |old(ContentsOf(fd))| then |old(ContentsOf(fd))| - at else size)
        && buf == old(ContentsOf(fd))[at..at + n]
        && fds == old(fds)[fd := old(fds[fd]).(offset := at + n)]
    {
      hide Describes, Ends, Contents, Backed;
      if !(FdValid(fd) && fds[fd].readable) {
        return -1, [];
      }
      FileHere(fd);
      EndsMean(ext, logSize, files[fds[fd].file]);
      var file := files[fds[fd].file];
      var at := fds[fd].offset;
      n := if at + size > file.end then file.end - at else size;
      // If the file is not modified, read directly in its extent.
      if !file.modified {
        buf := ReadPlain(fd, file, n);
      } else {
        buf := ReadModified(fd, file, n);
      }
    }

    /** cfs_read in the extent of a file that is not modified. */
    method ReadPlain(fd: nat, file: File, count: nat) returns (buf: seq<byte>)
      requires Backed() && FileOk(fd) && file == files[fds[fd].file] && !file.modified
        && fds[fd].offset + count <= file.end
      modifies this`fds
      ensures fds == old(fds)[fd := old(fds)[fd].(offset := old(fds)[fd].offset + count)]
      ensures buf == old(ContentsOf(fd))[old(fds)[fd].offset..old(fds)[fd].offset + count]
    {
      hide *;
      BackedMeans();
      FileHere(fd);
      EndsMean(ext, logSize, file);
      PlainImage(ext, logSize, file);
      WithinAt(ext, dev.Ext(), file.page);
      dev.PagesAreNat(file.page);
      var at := fds[fd].offset;
      buf := dev.ReadData(file.page, at, count);
      SubSlice(ext[file.page].data, 0, file.end, at, count);
      fds := fds[fd := fds[fd].(offset := at + count)];
    }

    static ghost predicate Reads(s: seq<byte>, at: nat, p: seq<byte>) {
      at + |p| <= |s| && p == s[at..at + |p|]
    }

    static lemma ReadsMore(s: seq<byte>, at: nat, p: seq<byte>, q: seq<byte>)
      requires Reads(s, at, p) && at + |p| + |q| <= |s| && q == s[at + |p|..at + |p| + |q|]
      ensures Reads(s, at, p + q)
    {}

    static lemma ReadsAre(s: seq<byte>, at: nat, p: seq<byte>, all: seq<byte>, end: nat)
      requires at + |p| <= end <= |s| && all == s[..end]
      ensures Reads(s, at, p) <==> p == all[at..at + |p|]
    {}

    lemma ReadReady(fd: nat, file: File)
      requires FileOk(fd) && file == files[fds[fd].file]
      ensures fd < |fds| && Describes(ext, logSize, file) && file.end <= |Image(ext, logSize, file)|
      ensures ContentsOf(fd) == Image(ext, logSize, file)[..file.end]
    {
      hide Describes, Image;
    }

    /** The loop of cfs_read over the log and the extent of a modified file. */
    method ReadModified(fd: nat, file: File, count: nat) returns (buf: seq<byte>)
      requires Backed() && FileOk(fd) && file == files[fds[fd].file] && file.modified
        && fds[fd].offset + count <= file.end
      requires count <= 0xFFFF
      modifies this`fds
      ensures fds == old(fds)[fd := old(fds)[fd].(offset := old(fds)[fd].offset + count)]
      ensures buf == old(ContentsOf(fd))[old(fds)[fd].offset..old(fds)[fd].offset + count]
    {
      hide *;
      ReadReady(fd, file);
      ghost var image, d, at := Image(ext, logSize, file), fds[fd], fds[fd].offset;
      ImageIsSeen(ext, logSize, file);
      var hdr, base := Load(file.page);
      var _, log := Load(hdr.logPage);
      var g := LogGeometry(hdr, logSize);
      buf := [];
      ReadsAre(image, at, buf, image[..file.end], file.end);
      ghost var rounds: nat := 0;
      while |buf| < count
        invariant |buf| <= count && fds == old(fds)[fd := d.(offset := at + |buf|)]
        invariant Reads(image, at, buf)
        invariant count - |buf| == LeftAfter(count, at, g.size, rounds)
      {
        CutBelow(count - |buf|);
        var chunk := ReadRound(fd, base, log, g, file.recordCount, Cut16(count - |buf|));
        RoundMore(count, at, g.size, rounds, count - |buf|);
        rounds := rounds + 1;
        ReadsMore(image, at, buf, chunk);
        buf := buf + chunk;
      }
      ReadsAre(image, at, buf, image[..file.end], file.end);
    }

    /** One round of it. */
    method ReadRound(fd: nat, base: seq<byte>, log: seq<byte>, g: Geometry, n: nat, size: nat) returns (r: seq<byte>)
      requires fd < |fds| && g.Ok() && n <= g.records && g.Bytes() <= |log|
      requires 0 < size && fds[fd].offset + size <= |base|
      modifies this`fds
      ensures var offset := old(fds[fd].offset);
        && |r| == InRegion(offset, size, g.size) > 0 && r == Seen(base, log, g, n)[offset..offset + |r|]
        && fds == old(fds)[fd := old(fds[fd]).(offset := offset + |r|)]
    {
      hide *;
      r := ReadChunk(base, log, g, n, fds[fd].offset, size);
      fds := fds[fd := fds[fd].(offset := fds[fd].offset + |r|)];
    }

    /** What it reads: from the log in the first place, or else from the file. */
    method ReadChunk(base: seq<byte>, log: seq<byte>, g: Geometry, n: nat, offset: nat, size: nat)
        returns (r: seq<byte>)
      requires g.Ok() && n <= g.records && g.Bytes() <= |log| && 0 < size && offset + size <= |base|
      ensures |r| == InRegion(offset, size, g.size) > 0 && r == Seen(base, log, g, n)[offset..offset + |r|]
    {
      var cut := InRegion(offset, size, g.size);
      var found := ReadLogPage(log, g, n, offset, size);
      if found.Some? {
        r := found.value;
      } else {
        r := Get(base, offset, cut);
      }
      forall k | 0 <= k < |r| ensures r[k] == Seen(base, log, g, n)[offset + k] {
        RegionOf(offset, k, g.size);
      }
    }

    /** get_available_fd */
    method GetAvailableFd() returns (fd: int)
      ensures -1 <= fd < |fds| && (fd >= 0 ==> !fds[fd].open)
      ensures forall d | 0 <= d < if fd < 0 then |fds| else fd :: fds[d].open
    {
      for i := 0 to |fds|
        invariant forall d | 0 <= d < i :: fds[d].open
      {
        if !fds[i].open {
          return i;
        }
      }
      fd := -1;
    }

    /** Slot i caches the file of that name. */
    ghost predicate Caches(i: int, name: string)
      reads this
    {
      0 <= i < |files| && Live(files[i]) && files[i].page in ext && !ext[files[i].page].hdr.log
      && ext[files[i].page].hdr.name == name
    }

    /** The search of find_file through the cached files. */
    method FindCached(name: string) returns (i: int)
      requires Valid()
      ensures -1 <= i && (i >= 0 ==> Caches(i, name))
      ensures forall k | Caches(k, name) :: k == i
    {
      hide Backed;
      for k := 0 to |files|
        invariant forall m | 0 <= m < k :: !Caches(m, name)
      {
        assert SlotOk(ext, logSize, files[k]);
        if files[k].maxPages == 0 {
          continue;
        }
        var hdr := LoadHeader(files[k].page);
        if !hdr.log && hdr.name == name {
          return k;
        }
      }
      i := -1;
    }

    /** load_file: the first slot that caches nothing, or else the last that is not referenced, if there is one. */
    method LoadFile(page: nat, pages: nat) returns (i: int)
      requires forall k | 0 <= k < |files| :: !Live(files[k]) ==> files[k].references == 0
      modifies this`files
      ensures -1 <= i < |files| == |old(files)| && (i >= 0 <==> old(SlotLeft(files)))
      ensures i < 0 ==> files == old(files)
      ensures i >= 0 ==>
        TakenSlot(old(files), i) && old(files)[i].references == 0 && files == old(files)[i := Loaded(page, pages)]
    {
      hide Backed;
      var unreferenced := -1;
      i := 0;
      while i < |files|
        invariant 0 <= i <= |files| && -1 <= unreferenced < i
        invariant unreferenced >= 0 ==> files[unreferenced].references == 0
        invariant forall k | 0 <= k < i :: files[k].maxPages != 0
        invariant forall k | unreferenced < k < i :: files[k].references != 0
      {
        if files[i].maxPages == 0 {
          break;
        } else if files[i].references == 0 {
          unreferenced := i;
        }
        i := i + 1;
      }
      if i == |files| {
        i := unreferenced;
        if i < 0 {
          return;
        }
      }
      files := files[i := File(page, 0, pages, -1, files[i].references, false)];
    }

    /** reserve. There may be no pages to be had, or no slot: then the new extent stays on the device unknown. */
    method Reserve(name: string, pages: nat, log: bool) returns (i: int, page: nat)
      requires Valid() && pages > 0
      modifies this`ext, this`files, this`starved, this`stranded, dev.volume, dev.volume.flash
      ensures Backed() && (stranded ==> starved) && (old(stranded) ==> stranded) && starved == (old(starved) || i < 0)
      ensures stranded <==> old(stranded ||
        (dev.volume.NoRun(pages) && !dev.volume.gcWait
          && !SafeToCollect(dev.volume.flash[..], dev.volume.P, dev.volume.nextFree)))
      ensures (i >= 0 <==> old(CanReserve(pages))) && (i >= 0 ==> !stranded && SlotLeft(files))
      ensures i < 0 ==> ext == old(ext) && files == old(files) && Lacks(pages)
      ensures dev.volume.gcWait <==> old(dev.volume.gcWait) || (!stranded && !old(dev.volume.Grants(pages)))
      ensures old(Means()) > pages ==> i >= 0 && Means() >= old(Means()) - pages
      // pages but no slot
      ensures old(dev.Held()) && dev.Held()
      ensures i < 0 ==>
        if old(!stranded && dev.volume.Grants(pages)) then
          && !old(SlotLeft(files)) && page !in old(dev.Ext())
          && dev.Ext() == old(dev.Ext())[page := Extent(FileHeader(name, pages, log), Zeros(Capacity(pages)))]
        else dev.Ext() == old(dev.Ext())
      ensures i >= 0 ==>
        dev.Ext() == old(dev.Ext())[page := Extent(FileHeader(name, pages, log), Zeros(Capacity(pages)))]
      ensures i < |files| == |old(files)|
      ensures i >= 0 ==> page !in old(ext) && old(files)[i].references == 0 && TakenSlot(old(files), i)
      ensures i >= 0 ==> ext == old(ext)[page := Extent(FileHeader(name, pages, log), Zeros(Capacity(pages)))]
      ensures i >= 0 ==> files == old(files)[i := Loaded(page, pages)]
    {
      hide *;
      FreeSlots();
      BackedMeans();
      MeansMean();
      LackMeans(pages);
      if stranded {
        starved := true;
        return -1, 0;
      }
      var found := TakePages(name, pages, log);
      if found.None? {
        starved := true;
        LackMeans(pages);
        return -1, 0;
      }
      page := found.value;
      i := LoadFile(page, pages);
      if i < 0 {
        starved := true;
        LackMeans(pages);
      } else {
        BackedMeans();
        WithinGrows(ext, dev.Ext(), page);
        ext := ext[page := Extent(FileHeader(name, pages, log), Zeros(Capacity(pages)))];
        BackedAgain();
        SlotFreed(old(files), i, page, pages);
        MeansMean();
      }
    }

    /** What can be had for sure can be had. */
    lemma MeansGrant(pages: nat)
      requires Valid() && !stranded && dev.volume.Spare() > pages
      ensures dev.Held() && dev.volume.Grants(pages) && (SlotLeft(files) ==> CanReserve(pages))
    {
      hide HasRun, SafeToCollect, RunAfter, Consistent, Device.Ext, Volume.Spare, Volume.Sound;
      dev.volume.SpareRuns(pages);
    }

    lemma SlotFreed(files: seq<File>, i: nat, page: int, pages: nat)
      requires i < |files|
      ensures SlotLeft(files[i := Loaded(page, pages)])
    {
      assert files[i := Loaded(page, pages)][i].references == 0;
    }

    lemma MeansMean()
      ensures Means() == if stranded || !SlotLeft(files) then 0 else dev.volume.Spare()
    {}

    lemma LackMeans(pages: nat)
      ensures Lacks(pages) <==> stranded || !SlotLeft(files) || (dev.volume.NoRun(pages) && dev.volume.gcWait)
      ensures Lacks(pages) ==> !CanReserve(pages)
      ensures CanReserve(pages) <==> !stranded && SlotLeft(files) && dev.Held() && dev.volume.Grants(pages)
    {
      hide SlotLeft, Device.Held, HasRun, SafeToCollect, RunAfter;
    }

    ghost function HeldExt(): Flash
      reads dev.volume, dev.volume.flash
    {
      if dev.Held() then dev.Ext() else map[]
    }

    lemma HeldExtIs()
      requires dev.Held()
      ensures HeldExt() == dev.Ext()
    {}

    lemma EmptyFile(slot: nat, page: int)
      requires slot < |files| && IsFile(ext, logSize, files, slot) && files[slot] == Loaded(page, dynPages)
      ensures Describes(ext, logSize, files[slot]) && Ends(ext, logSize, files[slot])
      ensures Contents(ext, logSize, files[slot]) == []
    {}

    lemma SizesFit()
      requires Valid()
      ensures ConfigFits(logSize, dynPages) && 1 <= dynPages
      ensures Consistent(ext, logSize, files, fds)
    {
      hide Consistent, Backed;
    }

    lemma FreeSlots()
      requires Valid()
      ensures Backed() && (stranded ==> starved)
      ensures forall k | 0 <= k < |files| && !Live(files[k]) :: files[k].references == 0
    {
      hide Backed, FlashOk, FdsOk;
      forall k | 0 <= k < |files| && !Live(files[k]) ensures files[k].references == 0 {
        assert SlotOk(ext, logSize, files[k]);
      }
    }

    /** The part of reserve that finds pages and writes their header. */
    method TakePages(name: string, pages: nat, log: bool) returns (page: Option<nat>)
      requires Backed() && !stranded && pages > 0
      modifies this`stranded, dev.volume, dev.volume.flash
      ensures Backed() && (stranded ==> page.None?) && old(dev.Held()) && dev.Held()
      ensures stranded <==>
        old(dev.volume.NoRun(pages) && !dev.volume.gcWait
          && !SafeToCollect(dev.volume.flash[..], dev.volume.P, dev.volume.nextFree))
      ensures page.Some? <==> old(dev.volume.Grants(pages))
      ensures page.None? && !stranded ==> dev.volume.NoRun(pages) && dev.volume.gcWait
      ensures dev.volume.gcWait <==> old(dev.volume.gcWait) || (page.None? && !stranded)
      ensures old(dev.volume.Spare()) > pages ==>
        page.Some? && dev.volume.Spare() >= old(dev.volume.Spare()) - pages
      ensures page.None? ==> dev.Ext() == old(dev.Ext())
      ensures page.Some? ==>
        && page.value !in ext && page.value !in old(dev.Ext())
        && dev.Ext() == old(dev.Ext())[page.value := Extent(FileHeader(name, pages, log), Zeros(Capacity(pages)))]
    {
      hide *;
      BackedMeans();
      ghost var m := dev.Ext();
      page, stranded := dev.Reserve(name, pages, log);
      if page.Some? {
        WithinNew(ext, m, page.value, Extent(FileHeader(name, pages, log), Zeros(Capacity(pages))));
      }
      BackedAgain();
    }

    /** create_log: it fails exactly if there are no pages or no slot for the log. */
    method CreateLog(i: nat) returns (page: int)
      requires Valid() && IsFile(ext, logSize, files, i) && !files[i].modified && files[i].references > 0
      modifies this`ext, this`files, this`starved, this`stranded, dev.volume, dev.volume.flash
      ensures Backed() && (stranded ==> starved) && (old(stranded) ==> stranded)
        && starved == (old(starved) || page < 0)
      ensures i < |files| && old(files[i].page in ext)
      ensures var pages := old(LogPages(ext[files[i].page].hdr, logSize));
        && (page >= 0 <==> old(CanReserve(pages))) && (page < 0 ==> Lacks(pages))
        && (old(Means()) > pages ==> page >= 0 && Means() >= old(Means()) - pages)
        && (dev.volume.gcWait <==> old(dev.volume.gcWait) || (!stranded && !old(dev.volume.Grants(pages))))
      ensures page < 0 ==> ext == old(ext) && files == old(files)
      ensures page >= 0 ==>
        files[i] == old(files[i]).(modified := true) && files[i].page in ext && SlotLeft(files) && !stranded
      ensures page >= 0 ==> Consistent(ext, logSize, files[i := files[i].(recordCount := 0)], fds)
      ensures page >= 0 ==> IsFile(ext, logSize, files[i := files[i].(recordCount := 0)], i)
      ensures page >= 0 ==> Image(ext, logSize, files[i].(recordCount := 0)) == old(Image(ext, logSize, files[i]))
      ensures page >= 0 ==> OthersKept(old(ext), old(files), ext, files, logSize, i)
      ensures page >= 0 ==>
        page == ext[files[i].page].hdr.logPage && LogConfig(ext, files[i]) == old(LogConfig(ext, files[i]))
    {
      hide *;
      CreateReady(i);
      var file := files[i];
      var hdr := LoadHeader(file.page);
      ghost var ext0, files0 := ext, files;
      LogPagesHold(hdr, logSize);
      var slot, lp := Reserve(hdr.name, LogPages(hdr, logSize), true);
      if slot < 0 {
        return -1;
      }
      MeansMean();
      SlotApart(files0, i, slot, lp, LogPages(hdr, logSize));
      LogHeader(ext0, file, hdr, lp);
      PutHeader(file.page, hdr.(valid := true, modified := true, logPage := lp));
      files := files[i := file.(modified := true)];
      LogCreated(ext0, logSize, files0, fds, i, slot, lp, LogPages(hdr, logSize), ext,
        files[i := files[i].(recordCount := 0)]);
      OthersKeptOff(ext0, files0, ext, files[i := files[i].(recordCount := 0)], logSize, i, files0[i], files[i]);
      assert files0[i := files0[i]] == files0 && files[i := files[i].(recordCount := 0)][i := files[i]] == files;
      ConfigByPage(ext, file, files[i]);
      SlotFree(files, slot);
      MeansMean();
      page := lp;
    }

    lemma CreateReady(i: nat)
      requires Valid() && IsFile(ext, logSize, files, i)
      ensures Backed() && (stranded ==> starved) && i < |files| && files[i].page in ext
        && ext[files[i].page].hdr.Active()
      ensures Consistent(ext, logSize, files, fds)
    {
      hide Backed;
    }

    lemma SlotApart(files: seq<File>, i: nat, slot: nat, page: int, pages: nat)
      requires i < |files| && slot < |files| && files[i].references > 0 && files[slot].references == 0
      ensures slot != i && Loaded(page, pages).references == 0
    {}

    lemma SlotFree(files: seq<File>, slot: nat)
      requires slot < |files| && files[slot].references == 0
      ensures SlotLeft(files)
    {}

    /** The part of cfs_open that gives a descriptor to the file in slot i. */
    method OpenSlot(fd: nat, i: nat, read: bool, write: bool, append: bool)
      requires Valid() && fd < |fds| && !fds[fd].open && IsFile(ext, logSize, files, i)
      modifies this`fds, this`files
      ensures Valid()
      ensures fds == old(fds)[fd := Desc(true, read, write, i, if append then old(files)[i].end else 0)]
      ensures files == old(files)[i := old(files)[i].(references := old(files)[i].references + 1)]
      ensures IsFile(ext, logSize, files, i) && Image(ext, logSize, files[i]) == old(Image(ext, logSize, files[i]))
    {
      hide Backed;
      var d := Desc(true, read, write, i, if append then files[i].end else 0);
      DescChanged(ext, logSize, files, fds, fd, d, files[i := files[i].(references := files[i].references + 1)]);
      fds := fds[fd := d];
      files := files[i := files[i].(references := files[i].references + 1)];
    }

    /** cfs_close */
    method Close(fd: int)
      requires Valid()
      modifies this`fds, this`files
      ensures Valid()
      ensures !old(FdValid(fd)) ==> fds == old(fds) && files == old(files)
      ensures old(FdValid(fd)) ==>
        var i := old(fds)[fd].file;
        && 0 <= i < |old(files)| && old(files)[i].references > 0
        && fds == old(fds)[fd := old(fds)[fd].(open := false, file := -1)]
        && files == old(files)[i := old(files)[i].(references := old(files)[i].references - 1)]
      ensures forall k | 0 <= k < |files| && IsFile(ext, logSize, old(files), k) ::
        IsFile(ext, logSize, files, k) && Contents(ext, logSize, files[k]) == Contents(ext, logSize, old(files)[k])
    {
      hide Backed;
      if FdValid(fd) {
        var i := fds[fd].file;
        FileOfDesc(ext, logSize, files, fds, fd);
        var closed := fds[fd].(open := false, file := -1);
        DescChanged(ext, logSize, files, fds, fd, closed, files[i := files[i].(references := files[i].references - 1)]);
        fds := fds[fd := closed];
        files := files[i := files[i].(references := files[i].references - 1)];
      }
    }

    /** The copying loop of merge_log: everything that can be read through fd goes to the extent at page q. */
    method CopyAll(fd: nat, q: int, recordSize: nat) returns (offset: nat)
      requires Backed() && FileOk(fd) && fds[fd].readable && fds[fd].offset == 0 && 0 < recordSize <= 0xFFFF
      requires q in ext && q != files[fds[fd].file].page
      requires var f := files[fds[fd].file]; f.modified ==> q != ext[f.page].hdr.logPage
      requires |ContentsOf(fd)| <= |ext[q].data| && ext[q].data == Zeros(|ext[q].data|)
      modifies this`ext, this`fds, dev.volume.flash
      ensures Backed() && offset == |old(ContentsOf(fd))| && dev.volume.Spare() >= old(dev.volume.Spare())
      ensures fds == old(fds)[fd := old(fds)[fd].(offset := offset)]
      ensures ext == old(ext)[q := old(ext[q]).(data := old(ContentsOf(fd)) + Zeros(|old(ext[q]).data| - offset))]
    {
      hide Describes, Ends, Contents, Put, Image, Backed, Volume.Spare;
      ghost var ext0, f, all, e, size := ext, files[fds[fd].file], ContentsOf(fd), ext[q], |ext[q].data|;
      var n := 1;
      offset := 0;
      assert all[..0] + Zeros(size) == e.data;
      while n != 0
        invariant 0 <= n && offset <= |all| && (n == 0 ==> offset == |all|)
        invariant dev.volume.Spare() >= old(dev.volume.Spare())
        invariant fds == old(fds)[fd := old(fds)[fd].(offset := offset)]
        invariant Backed() && q in ext && ext == ext0[q := e.(data := all[..offset] + Zeros(size - offset))]
        decreases |all| - offset, n
      {
        var buf;
        FileElsewhere(ext0, logSize, f, q, ext[q]);
        n, buf := Read(fd, recordSize);
        if n > 0 {
          CopyMore(all, offset, n, size);
          PutData(q, offset, buf);
          offset := offset + n;
        }
      }
      assert all[..offset] == all;
    }

    /** The loop of merge_log that moves the descriptors of the file in slot i to slot s. */
    method MoveDescriptors(i: nat, s: nat)
      requires i < |files| && s < |files| && i != s
      requires forall d | 0 <= d < |fds| && fds[d].open :: 0 <= fds[d].file < |files| && fds[d].file != s
      requires forall k | 0 <= k < |files| && k != i && files[k].page == files[i].page ::
        forall d | 0 <= d < |fds| && fds[d].open :: fds[d].file != k
      requires files[s].page != files[i].page && files[s].references == 0
      modifies this`fds, this`files
      ensures fds == Redirected(old(fds), i, s)
      ensures files == old(files)[s := old(files)[s].(references := References(old(fds), i))]
    {
      var page := files[i].page;
      ghost var fds0, files0 := fds, files;
      assert Redirected(fds0, i, s) == RedirectedTo(fds0, |fds0|, i, s);
      assert fds0 == RedirectedTo(fds0, 0, i, s) && References(fds0[..0], i) == 0;
      assert forall d | 0 <= d < |fds0| && fds0[d].open :: files0[fds0[d].file].page == page <==> fds0[d].file == i;
      hide Redirected, RedirectedTo, References;
      for d := 0 to |fds|
        invariant fds == RedirectedTo(fds0, d, i, s)
        invariant files == files0[s := files0[s].(references := References(fds0[..d], i))]
      {
        RedirectedMore(fds0, d, i, s);
        if fds[d].open && files[fds[d].file].page == page {
          fds := fds[d := fds[d].(file := s)];
          files := files[s := files[s].(references := files[s].references + 1)];
        }
      }
      assert fds0[..|fds0|] == fds0;
    }

    /** remove_by_page for an extent and its log, with descriptors left alone. */
    method RemoveByPage(page: int)
      requires Backed() && page in ext
      requires ext[page].hdr.modified ==> ext[page].hdr.logPage in ext && ext[page].hdr.logPage != page
      modifies this`ext, this`files, dev.volume`gcWait, dev.volume.flash
      ensures Backed() && page in old(ext) && ext == old(ext) - WithLog(old(ext), page)
      ensures files == DroppedWithLog(old(ext), old(files), page) && dev.volume.Spare() >= old(dev.volume.Spare())
        && !dev.volume.gcWait
    {
      hide Backed, Dropped, Volume.Spare;
      var hdr := LoadHeader(page);
      DropPages(page);
      if hdr.modified {
        files := Dropped(files, hdr.logPage);
      }
      files := Dropped(files, page);
    }

    /** The part of it that marks the headers obsolete. */
    method DropPages(page: int)
      requires Backed() && page in ext
      requires ext[page].hdr.modified ==> ext[page].hdr.logPage in ext && ext[page].hdr.logPage != page
      modifies this`ext, dev.volume`gcWait, dev.volume.flash
      ensures Backed() && page in old(ext) && ext == old(ext) - WithLog(old(ext), page)
      ensures dev.volume.Spare() >= old(dev.volume.Spare()) && !dev.volume.gcWait
    {
      hide *;
      BackedMeans();
      WithinAt(ext, dev.Ext(), page);
      if ext[page].hdr.modified { WithinAt(ext, dev.Ext(), ext[page].hdr.logPage); }
      WithinLess(ext, dev.Ext(), page);
      dev.PagesAreNat(page);
      dev.Remove(page);
      ext := ext - WithLog(ext, page);
      BackedAgain();
    }

    /** There is no file of that name on the device. */
    ghost predicate Absent(name: string)
      reads dev.volume, dev.volume.flash
    {
      dev.Held() ==> forall p | p in dev.Ext() && !dev.Ext()[p].hdr.log :: dev.Ext()[p].hdr.name != name
    }

    lemma NotCached(name: string)
      requires Valid()
      ensures Absent(name) ==> forall p | p in ext && !ext[p].hdr.log :: ext[p].hdr.name != name
      ensures Absent(name) ==> forall i :: !Caches(i, name)
    {}

    /** The part of cfs_open that creates a file. */
    method CreateFile(name: string) returns (slot: int, page: nat)
      requires Valid() && Absent(name)
      modifies this`ext, this`files, this`starved, this`stranded, dev.volume, dev.volume.flash
      ensures Valid() && (old(stranded) ==> stranded) && starved == (old(starved) || slot < 0)
      ensures old(dev.Held()) && dev.Held() && slot < |files| == |old(files)|
      ensures slot >= 0 <==> old(CanReserve(dynPages))
      ensures slot < 0 ==> ext == old(ext) && files == old(files) && Lacks(dynPages)
      ensures slot < 0 ==>
        if old(!stranded && dev.volume.Grants(dynPages)) then
          !SlotLeft(files) && Appeared(old(dev.Ext()), dev.Ext(), FileHeader(name, dynPages, false))
        else dev.Ext() == old(dev.Ext())
      ensures slot >= 0 ==>
        && old(files)[slot].references == 0 && files == old(files)[slot := Loaded(page, dynPages)] && page !in old(ext)
        && TakenSlot(old(files), slot)
        && ext == old(ext)[page := Extent(FileHeader(name, dynPages, false), Zeros(Capacity(dynPages)))]
        && IsFile(ext, logSize, files, slot) && Contents(ext, logSize, files[slot]) == [] && !stranded
        && dev.Ext() == old(dev.Ext())[page := Extent(FileHeader(name, dynPages, false), Zeros(Capacity(dynPages)))]
        && OthersKept(old(ext), old(files), ext, files, logSize, slot)
      ensures old(dev.volume.Spare()) > dynPages ==>
        dev.volume.Spare() >= old(dev.volume.Spare()) - dynPages || slot < 0
    {
      hide *;
      NotCached(name);
      FreeSlots();
      SizesFit();
      BackedMeans();
      HeldExtIs();
      HeaderPages(name, dynPages, false);
      LackMeans(dynPages);
      MeansMean();
      ghost var ext0, files0, device := ext, files, HeldExt();
      slot, page := Reserve(name, dynPages, false);
      LackMeans(dynPages);
      MeansMean();
      if slot < 0 {
        if page !in device { AppearedAt(device, page, FileHeader(name, dynPages, false)); }
      } else {
        FileCreated(ext0, logSize, files0, fds, slot, name, page, dynPages, ext, files);
        EmptyFile(slot, page);
      }
      ValidAgain();
    }

    /** cfs_open, for a file that is cached or does not exist. */
    method Open(name: string, read: bool, write: bool, append: bool) returns (fd: int, slot: int)
      requires Valid() && (read || write || append)
      requires Absent(name) || exists i :: Caches(i, name)
      modifies this`ext, this`files, this`fds, this`starved, this`stranded, dev.volume, dev.volume.flash
      ensures Valid() && -1 <= fd < |fds| && (old(stranded) ==> stranded)
      ensures starved == (old(starved) || (fd < 0 && !(old(Absent(name)) && read && !write && FdLeft(fds))))
      ensures fd < 0 ==> ext == old(ext) && fds == old(fds) && files == old(files)
      // a file that exists is opened if and only if there is a free descriptor, and a new one if pages and a slot can
      // be had, too
      ensures fd >= 0 <==> old(FdLeft(fds) && (Absent(name) ==> !(read && !write) && CanReserve(dynPages)))
      ensures fd < 0 || (0 <= slot < |files| == |old(files)| && |fds| == |old(fds)| && !old(fds)[fd].open
        && IsFile(ext, logSize, files, slot))
      ensures forall d | 0 <= d < fd :: old(fds)[d].open
      ensures fd >= 0 ==> forall k | old(Caches(k, name)) :: k == slot
      ensures !old(Absent(name)) ==> unchanged(dev.volume, dev.volume.flash, this`stranded)
      ensures fd >= 0 && !old(Absent(name)) ==>
        && old(Caches(slot, name) && IsFile(ext, logSize, files, slot)) && ext == old(ext)
        && fds == old(fds)[fd := Desc(true, read, write, slot, if append then old(files)[slot].end else 0)]
        && files == old(files)[slot := old(files)[slot].(references := old(files)[slot].references + 1)]
        && Image(ext, logSize, files[slot]) == old(Image(ext, logSize, files[slot]))
      // otherwise an empty file is created, unless it is only to be read
      ensures fd >= 0 && old(Absent(name)) ==>
        && Contents(ext, logSize, files[slot]) == [] && old(files)[slot].references == 0 && !stranded
        && TakenSlot(old(files), slot)
        && fds == old(fds)[fd := Desc(true, read, write, slot, 0)]
        && files == old(files)[slot := Loaded(files[slot].page, dynPages).(references := 1)]
        && ext == old(ext)[files[slot].page := Extent(FileHeader(name, dynPages, false), Zeros(Capacity(dynPages)))]
        && old(dev.Held()) && dev.Held()
        && dev.Ext() ==
           old(dev.Ext())[files[slot].page := Extent(FileHeader(name, dynPages, false), Zeros(Capacity(dynPages)))]
        && OthersKept(old(ext), old(files), ext, files, logSize, slot)
        && (old(dev.volume.Spare()) > dynPages ==> dev.volume.Spare() >= old(dev.volume.Spare()) - dynPages)
      ensures old(dev.Held()) && dev.Held()
      ensures fd < 0 && old(FdLeft(fds) && Absent(name)) && !(read && !write) ==>
        && Lacks(dynPages)
        && if old(!stranded && dev.volume.Grants(dynPages)) then
             !SlotLeft(files) && Appeared(old(dev.Ext()), dev.Ext(), FileHeader(name, dynPages, false))
           else dev.Ext() == old(dev.Ext())
    {
      hide FlashOk, SlotsOk, FdsOk, Image, LogGeometry, References, Describes, Ends, Zeros, Backed, Absent, Appeared,
        Device.Held, Volume.Spare, CanReserve, Lacks, SlotLeft, Volume.Grants, Device.Ext, FileHeader, TakenSlot;
      slot := -1;
      NotCached(name);
      FreeSlots();
      BackedMeans();
      fd := GetAvailableFd();
      if fd < 0 {
        starved := true;
        return;
      }
      slot := FindCached(name);
      assert forall k | old(Caches(k, name)) :: Caches(k, name);
      if slot >= 0 {
        AnySlot(ext, logSize, files, slot);
      } else {
        assert Absent(name);
        if read && !write {
          return -1, -1;
        }
        var page;
        slot, page := CreateFile(name);
        if slot < 0 {
          return -1, -1;
        }
      }
      OpenSlot(fd, slot, read, write, append);
    }

    /** From the reservation of the new extent in merge_log to its header: the file in slot i moves to
        the extent at page q and to slot s. */
    method MoveFile(i: nat, s: nat, q: int, pages: nat, fd: nat, ghost ext1: Flash, ghost files1: seq<File>)
      requires Consistent(ext1, logSize, files1, fds) && IsFile(ext1, logSize, files1, i) && files1[i].references > 0
      requires s < |files1| && files1[s].references == 0 && q !in ext1 && pages >= files1[i].maxPages
      requires Capacity(pages) <= 0xFFFE * LogGeometry(ext1[files1[i].page].hdr, logSize).size
      requires ext == ext1[q := Extent(FileHeader(ext1[files1[i].page].hdr.name, pages, false), Zeros(Capacity(pages)))]
      requires files == files1[s := Loaded(q, pages)]
      requires Backed() && fd < |fds| && fds[fd] == Desc(true, true, false, i, 0)
      modifies this`ext, this`files, this`fds, dev.volume`gcWait, dev.volume.flash
      ensures Backed() && Consistent(ext, logSize, files, fds) && IsFile(ext, logSize, files, s)
      ensures files[s] == File(q, files1[i].end, pages, -1, files1[i].references, false)
      ensures dev.volume.Spare() >= old(dev.volume.Spare()) && !dev.volume.gcWait
      ensures Contents(ext, logSize, files[s]) == Contents(ext1, logSize, files1[i])
      ensures ext[q].hdr == MergedHeader(ext1[files1[i].page].hdr, pages)
      ensures fds == Redirected(old(fds)[fd := old(fds)[fd].(offset := files1[i].end)], i, s)
      ensures OthersMoved(ext1, files1, ext, files, logSize, i, s)
      ensures forall p | p in WithLog(ext1, files1[i].page) :: p !in ext
    {
      hide Consistent, Ends, Image, LogGeometry, References, Redirected, DroppedWithLog, OthersMoved, Backed,
        Volume.Spare;
      var file := files[i];
      var hdr := LoadHeader(file.page);
      MoveReady(ext1, logSize, files1, fds, i, s, q, ext[q], ext, files);
      FileMeans(ext1, logSize, files1, fds, file);
      var offset := CopyAll(fd, q, if hdr.logRecordSize == 0 then PAGE_SIZE else hdr.logRecordSize);
      ghost var fds2, copied, extA := fds, ext[q], ext;
      MoveDescriptors(i, s);
      ghost var filesA := files;
      RemoveByPage(file.page);
      PutHeader(q, MergedHeader(hdr, pages));
      files := files[s := files[s].(modified := false, end := offset)];
      MoveDone(ext1, logSize, files1, old(fds), fd, i, s, q, pages, copied, extA, filesA, fds2, ext, files);
    }

    /** merge_log, for the file in slot i; it is in slot s afterwards. It fails exactly if there is no descriptor to
        read the file through, or no pages or slot for the new extent. */
    method MergeLog(i: nat, extend: bool) returns (r: int, s: int)
      requires Valid() && IsFile(ext, logSize, files, i) && files[i].references > 0
      requires Capacity(files[i].maxPages * if extend then 2 else 1) <=
        0xFFFE * LogGeometry(ext[files[i].page].hdr, logSize).size
      modifies this`ext, this`files, this`fds, this`starved, this`stranded, dev.volume, dev.volume.flash
      ensures (old(stranded) ==> stranded) && starved == (old(starved) || r < 0)
      ensures Valid() && |files| == |old(files)| && |fds| == |old(fds)|
      ensures r == 0 || r == -1
      ensures var pages := old(files)[i].maxPages * if extend then 2 else 1;
        && (r == 0 <==> old(FdLeft(fds) && CanReserve(pages))) && (r < 0 ==> !FdLeft(fds) || Lacks(pages))
        && (old(FdLeft(fds)) && old(Means()) > pages ==> r == 0 && Means() >= old(Means()) - pages)
        && (r < 0 ==> (dev.volume.gcWait <==>
              old(dev.volume.gcWait) || (old(FdLeft(fds)) && !stranded && !old(dev.volume.Grants(pages)))))
      ensures r == 0 ==> !dev.volume.gcWait
      ensures r < 0 ==> ext == old(ext) && files == old(files) && OpenKept(old(fds), fds)
      // the bytes stay, the log goes, and all descriptors of the file follow it
      ensures r == 0 ==> i < |files| && 0 <= s < |files| && s != i && IsFile(ext, logSize, files, s)
      ensures r == 0 ==> Contents(ext, logSize, files[s]) == old(Contents(ext, logSize, files[i]))
      ensures r == 0 ==>
        files[s] == File(files[s].page, old(files)[i].end, old(files)[i].maxPages * (if extend then 2 else 1),
                         -1, old(files)[i].references, false)
      ensures r == 0 ==> LogConfig(ext, files[s]) == old(LogConfig(ext, files[i]))
      ensures r == 0 ==> OpenKept(Redirected(old(fds), i, s), fds)
      ensures r == 0 ==> OthersMoved(old(ext), old(files), ext, files, logSize, i, s)
      ensures r == 0 ==>
        old(files)[i].page !in ext && (old(files)[i].modified ==> old(ext[files[i].page].hdr.logPage) !in ext)
    {
      hide *;
      MergeReady(i);
      var hdr := LoadHeader(files[i].page);
      ghost var ext0, files0, fds0 := ext, files, fds;
      LackMeans(files[i].maxPages * if extend then 2 else 1);
      MeansMean();
      var fd := Reopen(i, hdr.name);
      if fd < 0 {
        return -1, -1;
      }
      ghost var ext1, files1 := ext, files;
      var pages := files[i].maxPages * if extend then 2 else 1;
      var q;
      SameSlots(files0, i, files1);
      LackMeans(pages);
      MeansMean();
      FreeSlots();
      SizesFit();
      s, q := Reserve(hdr.name, pages, false);
      if s < 0 {
        LackMeans(pages);
        ValidAgain();
        OpenAgain(fd);
        Close(fd);
        LackMeans(pages);
        KeptClosed(fds0, fd, Desc(true, true, false, i, 0), fds);
        return -1, -1;
      }
      MeansMean();
      MoveFile(i, s, q, pages, fd, ext1, files1);
      ghost var files2, fds2 := files, fds;
      GoneWithLog(ext1, files1[i].page);
      OwnRedirected(fds0, fd, i, s, files1[i].end);
      MovedLength(ext1, files1, ext, files, logSize, i, s);
      ValidAgain();
      OpenAgain(fd);
      Close(fd);
      MergeEnds(ext1, logSize, files0, fds0, fd, i, s, files1[i].end, files1, ext, files2, fds2, files, fds);
      MeansMean();
      FilePage(s);
      MergedConfig(ext0, files0[i], pages, ext, files[s]);
      r := 0;
    }

    lemma FilePage(i: nat)
      requires IsFile(ext, logSize, files, i)
      ensures i < |files| && files[i].page in ext
    {}

    lemma MergeReady(i: nat)
      requires Valid() && IsFile(ext, logSize, files, i)
      ensures Backed() && (stranded ==> starved) && i < |files| && files[i].page in ext && files[i].maxPages > 0
      ensures Describes(ext, logSize, files[i]) && Ends(ext, logSize, files[i])
      ensures ext[files[i].page].hdr.modified == files[i].modified && OpenKept(fds, fds)
    {
      hide Consistent, Backed;
    }

    lemma SameSlots(files: seq<File>, i: nat, files1: seq<File>)
      requires i < |files| && files[i].references > 0
      requires files1 == files[i := files[i].(references := files[i].references + 1)]
      ensures SlotLeft(files1) <==> SlotLeft(files)
      ensures files1[i := files1[i].(references := files1[i].references - 1)] == files
    {
      if k :| 0 <= k < |files| && files[k].references == 0 { assert files1[k].references == 0; }
    }

    lemma KeptClosed(fds: seq<Desc>, fd: nat, d: Desc, fds': seq<Desc>)
      requires fd < |fds| && !fds[fd].open && fds' == fds[fd := d][fd := d.(open := false, file := -1)]
      ensures OpenKept(fds, fds')
    {}

    /** The descriptor through which merge_log reads the file. */
    method Reopen(i: nat, name: string) returns (fd: int)
      requires Valid() && IsFile(ext, logSize, files, i) && files[i].references > 0
      requires name == ext[files[i].page].hdr.name
      modifies this`ext, this`files, this`fds, this`starved, this`stranded, dev.volume, dev.volume.flash
      ensures Valid() && ext == old(ext) && -1 <= fd < |fds| == |old(fds)|
      ensures unchanged(dev.volume, dev.volume.flash, this`stranded) && starved == (old(starved) || fd < 0)
      ensures fd >= 0 <==> old(FdLeft(fds))
      ensures fd < 0 ==> fds == old(fds) && files == old(files)
      ensures fd >= 0 ==> !old(fds)[fd].open && fds == old(fds)[fd := Desc(true, true, false, i, 0)]
      ensures fd >= 0 ==>
        && i < |old(files)| && files == old(files)[i := old(files)[i].(references := old(files)[i].references + 1)]
        && IsFile(ext, logSize, files, i) && Contents(ext, logSize, files[i]) == old(Contents(ext, logSize, files[i]))
    {
      hide Consistent, Image, References, Ends, Describes, LogGeometry, Backed, Zeros, SafeToCollect, Volume.NoRun,
        Absent, CanReserve, Lacks, Appeared, FdLeft, SlotLeft, Device.Held, Volume.Grants, Volume.Spare;
      DescribesMeans(ext, logSize, files[i]);
      assert Caches(i, name);
      NotCached(name);
      var slot;
      fd, slot := Open(name, true, false, false);
      assert fd >= 0 ==> slot == i;
    }

    /** The region as it is seen, read for write_log_page from the log or else from the file. */
    method FillRegion(base: seq<byte>, log: seq<byte>, g: Geometry, n: nat, region: nat) returns (copy: seq<byte>)
      requires g.Ok() && n <= g.records && g.Bytes() <= |log|
      ensures region * g.size >= 0 && |copy| == g.size && Agrees(Seen(base, log, g, n), region * g.size, copy)
    {
      hide Seen, Newest;
      var start := region * g.size;
      MulMod(region, g.size);
      MulMono(0, region, g.size);
      var found := ReadLogPage(log, g, n, start, g.size);
      if found.Some? {
        copy := found.value;
      } else {
        copy := Get(base, start, g.size);
      }
      FilledRegion(base, log, g, n, region, copy);
    }

    /** The record that write_log_page writes: the region as it is seen, overlaid with the new bytes. */
    method BuildRecord(base: seq<byte>, log: seq<byte>, g: Geometry, n: nat, offset: nat, bytes: seq<byte>)
        returns (copy: seq<byte>)
      requires g.Ok() && n <= g.records && g.Bytes() <= |log| && offset % g.size + |bytes| <= g.size
      ensures RecordFor(Seen(base, log, g, n), offset, g.size, bytes, copy) && |copy| == g.size
    {
      hide Seen, Agrees, Overlaid, Put;
      var region, within := offset / g.size, offset % g.size;
      copy := Zeros(g.size);
      if within > 0 || |bytes| != g.size {
        copy := FillRegion(base, log, g, n, region);
      }
      PutOverlays(Seen(base, log, g, n), region, g.size, within, bytes, copy);
      copy := Put(copy, within, bytes);
    }

    /** The file in slot i, with the end that cfs_write is about to give it. */
    function Advanced(i: nat, end: nat): seq<File>
      requires i < |files|
      reads this`files
    {
      files[i := files[i].(end := if end > files[i].end then end else files[i].end)]
    }

    /** The end of write_log_page: record n of the log is built and written. */
    method AppendRecord(i: nat, g: Geometry, logPage: int, n: nat, offset: nat, bytes: seq<byte>, file: File)
      requires Backed() && Appending(ext, logSize, files, fds, i, file, n, g, logPage, offset, bytes)
      modifies this`ext, this`files, dev.volume.flash
      ensures Backed() && i < |old(files)| && files == old(files)[i := old(files)[i].(recordCount := n + 1)]
      ensures dev.volume.Spare() >= old(dev.volume.Spare())
      ensures Consistent(ext, logSize, Advanced(i, offset + |bytes|), fds)
      ensures IsFile(ext, logSize, Advanced(i, offset + |bytes|), i) && old(Describes(ext, logSize, file))
      ensures Patched(old(Image(ext, logSize, file)), Image(ext, logSize, Advanced(i, offset + |bytes|)[i]),
                      offset, bytes)
      ensures OthersKept(old(ext), old(files), ext, files, logSize, i)
        && LogConfig(ext, files[i]) == LogConfig(old(ext), file)
    {
      hide *;
      AppendReady(ext, logSize, files, fds, i, file, n, g, logPage, offset, bytes);
      var _, base := Load(file.page);
      var _, log := Load(logPage);
      var copy := BuildRecord(base, log, g, n, offset, bytes);
      AppendDone(ext, logSize, files, fds, i, file, n, g, logPage, offset, bytes, copy);
      TwoWrites(ext, logPage, n, g, offset, copy);
      PutData(logPage, 2 * n, WordBytes(offset / g.size + 1));
      PutData(logPage, g.Slot(n), copy);
      files := files[i := files[i].(recordCount := n + 1)];
      AdvancedIs(i, offset + |bytes|);
    }

    lemma AdvancedIs(i: nat, end: nat)
      requires i < |files|
      ensures Advanced(i, end) == files[i := files[i].(end := if end > files[i].end then end else files[i].end)]
    {}

    /** What write_log_page needs for the file in slot i, if it has to merge its log or create one. */
    ghost predicate CanLog(i: nat)
      requires i < |files| && files[i].page in ext
      reads this, dev.volume, dev.volume.flash
    {
      var f, h := files[i], ext[files[i].page].hdr;
      if !f.modified then CanReserve(LogPages(h, logSize))
      else f.recordCount < LogGeometry(h, logSize).records || (FdLeft(fds) && CanReserve(f.maxPages))
    }

    /** Why it may have failed. */
    ghost predicate CannotLog(i: nat)
      requires i < |files| && files[i].page in ext
      reads this, dev.volume, dev.volume.flash
    {
      var f, h := files[i], ext[files[i].page].hdr;
      if !f.modified then Lacks(LogPages(h, logSize))
      else f.recordCount >= LogGeometry(h, logSize).records && (!FdLeft(fds) || Lacks(f.maxPages))
    }

    /** The pages it takes. */
    ghost function LogCost(i: nat): nat
      requires i < |files| && files[i].page in ext
      reads this
    {
      var f, h := files[i], ext[files[i].page].hdr;
      if !f.modified then LogPages(h, logSize)
      else if f.recordCount < LogGeometry(h, logSize).records then 0 else f.maxPages
    }

    /** write_log_page, for the file in slot i. The result is what the C function returns: the number of
        bytes that went into a record, 0 if the log was merged instead (the file is then in slot s), or -1.
        The caller moves the end of the file. */
    method WriteLogPage(i: nat, offset: nat, buf: seq<byte>) returns (r: int, s: int)
      requires Valid() && IsFile(ext, logSize, files, i) && files[i].references > 0
      requires offset <= files[i].end && offset + |buf| <= Capacity(files[i].maxPages) && 0 < |buf|
      modifies this`ext, this`files, this`fds, this`starved, this`stranded, dev.volume, dev.volume.flash
      ensures Backed() && (stranded ==> starved) && (old(stranded) ==> stranded) && starved == (old(starved) || r < 0)
      ensures |files| == |old(files)| && |fds| == |old(fds)| && i < |files| && old(files)[i].page in old(ext)
      ensures r < 0 ==> Valid() && ext == old(ext) && files == old(files) && OpenKept(old(fds), fds)
      ensures (r >= 0 <==> old(CanLog(i))) && (r < 0 ==> r == -1 && CannotLog(i))
      ensures old(FdLeft(fds)) && old(Means()) > old(LogCost(i)) ==> r >= 0 && Means() >= old(Means()) - old(LogCost(i))
      ensures r == 0 ==>
        && old(files)[i].modified
        && old(files)[i].recordCount >= LogGeometry(old(ext)[old(files)[i].page].hdr, logSize).records
      // merged
      ensures r == 0 ==> Valid() && 0 <= s < |files| && IsFile(ext, logSize, files, s)
      ensures r == 0 ==> Contents(ext, logSize, files[s]) == old(Contents(ext, logSize, files[i]))
      ensures r == 0 ==> !files[s].modified && files[s].maxPages == old(files)[i].maxPages
      ensures r == 0 ==> files[s].references == old(files)[i].references && files[s].end == old(files)[i].end
      ensures r == 0 ==>
        && OpenKept(Redirected(old(fds), i, s), fds)
        && OthersMoved(old(ext), old(files), ext, files, logSize, i, s)
      // written
      ensures r > 0 ==>
        var g := LogGeometry(old(ext)[old(files)[i].page].hdr, logSize);
        r == InRegion(offset, |buf|, g.size) && (old(files)[i].modified ==> old(files)[i].recordCount < g.records)
      ensures r > 0 ==>
        && fds == old(fds) && (old(SlotLeft(files)) ==> SlotLeft(files))
        && files[i] == old(files)[i].(
             recordCount := if old(files)[i].modified then old(files)[i].recordCount + 1 else 1, modified := true)
      ensures r > 0 ==>
        && Consistent(ext, logSize, Advanced(i, offset + r), fds)
        && IsFile(ext, logSize, Advanced(i, offset + r), i)
      ensures r > 0 ==>
        Patched(old(Image(ext, logSize, files[i])), Image(ext, logSize, Advanced(i, offset + r)[i]), offset, buf[..r])
      ensures r > 0 ==> OthersKept(old(ext), old(files), ext, files, logSize, i)
      ensures r >= 0 ==> LogConfig(ext, files[if r == 0 then s else i]) == LogConfig(old(ext), old(files)[i])
    {
      hide *;
      LogReady(i);
      SizesFit();
      var file := files[i];
      var hdr := LoadHeader(file.page);
      var g := LogGeometry(hdr, logSize);
      ghost var files0 := files;
      r, s := InRegion(offset, |buf|, g.size), i;
      MeansMean();
      if hdr.modified {
        if file.recordCount >= g.records {
          LogSays(i);
          r, s := MergeLog(i, false);
          FreeSlots();
          if r < 0 { LogSays(i); }
        } else {
          LogSays(i);
          assert files[i := file] == files;
          AppendsTo(i, file, g, hdr.logPage, offset, buf[..r]);
          AppendRecord(i, g, hdr.logPage, file.recordCount, offset, buf[..r], file);
          SlotRecord(files0, i, file.recordCount + 1);
        }
      } else {
        LogSays(i);
        var logPage := CreateLog(i);
        if logPage < 0 {
          LogSays(i);
          ValidAgain();
          return -1, i;
        }
        ghost var ext1, files1 := ext, files;
        MeansMean();
        SameGeometryBy(ext, files[i], file, old(ext));
        AppendsTo(i, files[i].(recordCount := 0), g, logPage, offset, buf[..r]);
        AppendRecord(i, g, logPage, 0, offset, buf[..r], files[i].(recordCount := 0));
        SlotRecord(files1, i, 1);
        ConfigByPage(ext1, files1[i], files1[i].(recordCount := 0));
        OthersKeptTwice(old(ext), old(files), ext1, files1, ext, files, logSize, i);
      }
      MeansMean();
    }

    lemma SlotRecord(files: seq<File>, i: nat, n: int)
      requires i < |files|
      ensures SlotLeft(files[i := files[i].(recordCount := n)]) <==> SlotLeft(files)
    {
      var files' := files[i := files[i].(recordCount := n)];
      if k :| 0 <= k < |files| && files[k].references == 0 { assert files'[k].references == 0; }
      if k :| 0 <= k < |files'| && files'[k].references == 0 { assert files[k].references == 0; }
    }

    lemma SameGeometryBy(ext: Flash, f: File, f0: File, ext0: Flash)
      requires f.page in ext && f0.page in ext0 && LogConfig(ext, f) == LogConfig(ext0, f0)
      ensures LogGeometry(ext[f.page].hdr, logSize) == LogGeometry(ext0[f0.page].hdr, logSize)
    {}

    lemma LogReady(i: nat)
      requires Valid() && IsFile(ext, logSize, files, i)
      ensures Backed() && (stranded ==> starved) && i < |files| && Consistent(ext, logSize, files, fds)
      ensures Describes(ext, logSize, files[i]) && Ends(ext, logSize, files[i]) && files[i].page in ext
      ensures var f, h := files[i], ext[files[i].page].hdr;
        var g := LogGeometry(h, logSize);
        && h.modified == f.modified && g.size > 0 && g.records > 0 && 0 < f.maxPages
           && Capacity(f.maxPages) <= 0xFFFE * g.size
        && (f.modified ==> 0 <= f.recordCount)
      ensures OpenKept(fds, fds)
    {
      hide Consistent, Backed, LogGeometry;
    }

    lemma AppendsTo(i: nat, file: File, g: Geometry, lp: int, at: nat, bytes: seq<byte>)
      requires i < |files| && file == files[i].(recordCount := file.recordCount) && file.modified
        && 0 <= file.recordCount < g.records
      requires Consistent(ext, logSize, files[i := file], fds) && IsFile(ext, logSize, files[i := file], i)
        && file.page in ext
      requires g == LogGeometry(ext[file.page].hdr, logSize) && lp == ext[file.page].hdr.logPage && g.size > 0
      requires at <= file.end && 0 < file.maxPages && at + |bytes| <= Capacity(file.maxPages)
      requires 0 < |bytes| && at % g.size + |bytes| <= g.size
      ensures Appending(ext, logSize, files, fds, i, file, file.recordCount, g, lp, at, bytes)
    {
      hide Consistent, IsFile, LogGeometry;
    }

    lemma LogSays(i: nat)
      requires i < |files| && files[i].page in ext
      ensures var f, h := files[i], ext[files[i].page].hdr;
        if !f.modified then
          && (CanLog(i) <==> CanReserve(LogPages(h, logSize))) && (CannotLog(i) <==> Lacks(LogPages(h, logSize)))
          && LogCost(i) == LogPages(h, logSize)
        else if f.recordCount < LogGeometry(h, logSize).records then CanLog(i) && LogCost(i) == 0
        else
          && (CanLog(i) <==> FdLeft(fds) && CanReserve(f.maxPages))
             && (CannotLog(i) <==> !FdLeft(fds) || Lacks(f.maxPages))
          && LogCost(i) == f.maxPages
    {
      hide CanReserve, Lacks, FdLeft, LogPages, LogGeometry;
    }

    /** What the steps of a write through fd keep: the file of fd may move and grow, and everything else
        that is open is as it was. */
    ghost predicate Stable(ext0: Flash, files0: seq<File>, fds0: seq<Desc>, fd: int)
      reads this, dev.volume, dev.volume.flash
    {
      && Valid() && FileOk(fd)
      && 0 <= fd < |fds0| == |fds|
         && Carried(ext0, files0, fds0, fds0[fd].file, ext, files, fds, fds[fd].file, logSize, fd)
    }

    lemma StableFd(ext0: Flash, files0: seq<File>, fds0: seq<Desc>, fd: int)
      requires Stable(ext0, files0, fds0, fd)
      ensures FdLeft(fds) <==> FdLeft(fds0)
    {
      hide Consistent, Describes, Image, LogConfig, Backed;
      if d :| 0 <= d < |fds| && !fds[d].open { assert !fds0[d].open; }
      if d :| 0 <= d < |fds0| && !fds0[d].open { assert !fds[d].open; }
    }

    lemma StableMeans(ext0: Flash, files0: seq<File>, fds0: seq<Desc>, fd: int)
      requires Stable(ext0, files0, fds0, fd)
      ensures Valid() && FileOk(fd) && 0 <= fd < |fds| && fds[fd].open && 0 <= fds[fd].file < |files|
      ensures IsFile(ext, logSize, files, fds[fd].file) && files[fds[fd].file].references > 0
      ensures fds[fd].offset <= files[fds[fd].file].end && ContentsOf(fd) == Contents(ext, logSize, files[fds[fd].file])
      ensures files[fds[fd].file].maxPages > 0 && files[fds[fd].file].page in ext
      ensures |ContentsOf(fd)| == files[fds[fd].file].end <= |Image(ext, logSize, files[fds[fd].file])|
      ensures |fds0| == |fds| && Carried(ext0, files0, fds0, fds0[fd].file, ext, files, fds, fds[fd].file, logSize, fd)
    {
      FileOfDesc(ext, logSize, files, fds, fd);
    }

    /** Why a write of so many more bytes through fd may have failed: the file must grow, or else it needs its log. */
    ghost predicate Short(fd: int, left: nat)
      requires FileOk(fd)
      reads this, dev.volume, dev.volume.flash
    {
      var i := fds[fd].file;
      if left + fds[fd].offset + HEADER_SIZE > files[i].maxPages * PAGE_SIZE then
        !FdLeft(fds) || Lacks(files[i].maxPages * 2)
      else CannotLog(i)
    }

    /** The larger of the file and its log. */
    ghost function Bulk(fd: int): nat
      requires FileOk(fd)
      reads this
    {
      BulkOf(ext, logSize, files[fds[fd].file])
    }

    /** The largest of both and of what a file may grow to that takes so many bytes. */
    ghost function Most(fd: int, size: nat): nat
      requires FileOk(fd)
      reads this
    {
      Max(Bulk(fd), 2 * (size + fds[fd].offset + HEADER_SIZE) / PAGE_SIZE)
    }

    lemma BulkIs(fd: int)
      requires FileOk(fd)
      ensures 0 <= fd < |fds| && 0 <= fds[fd].file < |files| && files[fds[fd].file].page in ext
      ensures var f := files[fds[fd].file]; Bulk(fd) == Max(f.maxPages, LogPages(ext[f.page].hdr, logSize))
    {
      hide LogPages, Max;
    }

    lemma BulkWithin(fd: int, m: nat)
      requires FileOk(fd)
      ensures 0 <= fd < |fds| && 0 <= fds[fd].file < |files| && files[fds[fd].file].page in ext
      ensures var f := files[fds[fd].file];
        Bulk(fd) <= m <==> f.maxPages <= m && LogPages(ext[f.page].hdr, logSize) <= m
    {
      hide LogPages;
    }

    lemma MostMeans(fd: int, size: nat)
      requires FileOk(fd)
      ensures 0 <= fd < |fds| && 0 <= fds[fd].file < |files| && files[fds[fd].file].page in ext
      ensures var f := files[fds[fd].file];
        && f.maxPages <= Bulk(fd) <= Most(fd, size) && LogPages(ext[f.page].hdr, logSize) <= Bulk(fd)
        && (Bulk(fd) == f.maxPages || Bulk(fd) == LogPages(ext[f.page].hdr, logSize))
        && 2 * (size + fds[fd].offset + HEADER_SIZE) / PAGE_SIZE <= Most(fd, size)
        && (Most(fd, size) == Bulk(fd) || Most(fd, size) == 2 * (size + fds[fd].offset + HEADER_SIZE) / PAGE_SIZE)
    {
      hide LogPages;
    }

    lemma ShortMeans(fd: int, left: nat)
      requires FileOk(fd)
      ensures 0 <= fd < |fds| && 0 <= fds[fd].file < |files| && files[fds[fd].file].page in ext
      ensures var i := fds[fd].file;
        Short(fd, left) <==>
          if left + fds[fd].offset + HEADER_SIZE > files[i].maxPages * PAGE_SIZE then
            !FdLeft(fds) || Lacks(files[i].maxPages * 2)
          else CannotLog(i)
    {
      hide FdLeft, Lacks, CannotLog;
    }

    ghost predicate Room(fd: int, n: nat)
      reads this
    {
      FileOk(fd) && n + fds[fd].offset <= Capacity(files[fds[fd].file].maxPages)
    }

    lemma RoomMeans(fd: int, n: nat)
      requires Room(fd, n)
      ensures FileOk(fd) && 0 <= fd < |fds| && 0 <= fds[fd].file < |files| && files[fds[fd].file].maxPages > 0
      ensures n + fds[fd].offset <= Capacity(files[fds[fd].file].maxPages)
    {}

    lemma RoomThere(fd: int, n: nat)
      requires FileOk(fd) && 0 <= fd < |fds| && 0 <= fds[fd].file < |files| && files[fds[fd].file].maxPages > 0
      requires n + fds[fd].offset <= Capacity(files[fds[fd].file].maxPages)
      ensures Room(fd, n)
    {}

    lemma CapacityTwice(pages: nat, limit: nat, size: nat)
      requires 0 < pages && pages * PAGE_SIZE < limit && 2 * limit <= 0xFFFE * size
      ensures Capacity(pages * 2) <= 0xFFFE * size && pages < limit
    {}

    lemma TwiceWithin(pages: nat, limit: nat)
      requires pages * PAGE_SIZE < limit
      ensures pages * 2 <= 2 * limit / PAGE_SIZE
    {}

    lemma CapacityMeans(pages: nat)
      requires pages > 0
      ensures Capacity(pages) == pages * PAGE_SIZE - HEADER_SIZE
    {}

    /** The loop of cfs_write that extends the file until the new bytes fit. */
    method Extend(fd: int, size: nat, ghost ext0: Flash, ghost files0: seq<File>, ghost fds0: seq<Desc>)
        returns (ok: bool)
      requires Stable(ext0, files0, fds0, fd) && FdsOk(files0, fds0)
      requires 2 * (size + fds[fd].offset + HEADER_SIZE) <=
        0xFFFE * LogGeometry(ext[files[fds[fd].file].page].hdr, logSize).size
      modifies this, dev.volume, dev.volume.flash
      ensures Stable(ext0, files0, fds0, fd) && (old(stranded) ==> stranded) && starved == (old(starved) || !ok)
      ensures fds[fd].offset == old(fds[fd].offset) && ContentsOf(fd) == old(ContentsOf(fd))
      ensures ok ==> size + fds[fd].offset <= Capacity(files[fds[fd].file].maxPages)
      ensures old(files[fds[fd].file].maxPages) > 0
      ensures ok ==>
        files[fds[fd].file].maxPages == old(Grown(files[fds[fd].file].maxPages, size + fds[fd].offset + HEADER_SIZE))
      ensures !ok ==> Short(fd, size)
      ensures if old(size + fds[fd].offset + HEADER_SIZE <= files[fds[fd].file].maxPages * PAGE_SIZE) then
          ok && unchanged(this, dev.volume, dev.volume.flash)
        else ok ==> old(FdLeft(fds)) && !files[fds[fd].file].modified
      ensures old(GrowsOnce(fd, size)) ==> (ok <==> old(FdLeft(fds) && CanReserve(files[fds[fd].file].maxPages * 2)))
      ensures old(FdLeft(fds)) && old(Means()) > 2 * old(Most(fd, size)) ==>
        ok && Means() >= old(Means()) - 2 * old(Most(fd, size)) && Bulk(fd) <= old(Most(fd, size))
    {
      hide *;
      StableMeans(ext0, files0, fds0, fd);
      MostMeans(fd, size);
      ghost var limit, m, m0 := size + fds[fd].offset + HEADER_SIZE, Most(fd, size), files[fds[fd].file].maxPages;
      ghost var g := LogGeometry(ext[files[fds[fd].file].page].hdr, logSize);
      ghost var st := GrowStart(m0, limit, GrowsOnce(fd, size), FdLeft(fds) && CanReserve(m0 * 2),
                                FdLeft(fds) && Means() > 2 * m, Means());
      OnceMeans(fd, size);
      GrowingStart(st);
      ok := true;
      while ok && size + fds[fd].offset + HEADER_SIZE > files[fds[fd].file].maxPages * PAGE_SIZE
        invariant Stable(ext0, files0, fds0, fd) && (old(stranded) ==> stranded) && starved == (old(starved) || !ok)
        invariant FileOk(fd) && 0 <= fd < |fds| && 0 <= fds[fd].file < |files| && files[fds[fd].file].page in ext
        invariant fds[fd].offset == old(fds[fd].offset) && ContentsOf(fd) == old(ContentsOf(fd))
        invariant files[fds[fd].file].maxPages > 0 && g == LogGeometry(ext[files[fds[fd].file].page].hdr, logSize)
        invariant !ok ==> Short(fd, size)
        invariant Growing(st, ok, files[fds[fd].file].maxPages, FdLeft(fds) && CanReserve(m0 * 2), Means())
        invariant Bulk(fd) <= m && FdLeft(fds) == old(FdLeft(fds))
        invariant if old(limit <= files[fds[fd].file].maxPages * PAGE_SIZE) then
            ok && unchanged(this, dev.volume, dev.volume.flash)
          else (limit <= files[fds[fd].file].maxPages * PAGE_SIZE && ok ==>
            old(FdLeft(fds)) && !files[fds[fd].file].modified)
        decreases ok, limit - files[fds[fd].file].maxPages
      {
        CapacityTwice(files[fds[fd].file].maxPages, limit, g.size);
        TwiceWithin(files[fds[fd].file].maxPages, limit);
        BulkWithin(fd, m);
        ghost var pages, can, means := files[fds[fd].file].maxPages, FdLeft(fds) && CanReserve(m0 * 2), Means();
        ok := Double(fd, ext0, files0, fds0);
        StableMeans(ext0, files0, fds0, fd);
        BulkWithin(fd, m);
        ShortMeans(fd, size);
        GrowingStep(st, pages, can, means, ok, files[fds[fd].file].maxPages, FdLeft(fds) && CanReserve(m0 * 2),
                    Means());
      }
      CapacityMeans(files[fds[fd].file].maxPages);
      GrowingDone(st, ok, files[fds[fd].file].maxPages, FdLeft(fds) && CanReserve(m0 * 2), Means());
      BulkWithin(fd, m);
    }

    /** One round of it. */
    method Double(fd: int, ghost ext0: Flash, ghost files0: seq<File>, ghost fds0: seq<Desc>) returns (ok: bool)
      requires Stable(ext0, files0, fds0, fd) && FdsOk(files0, fds0)
      requires var f := files[fds[fd].file];
        Capacity(f.maxPages * 2) <= 0xFFFE * LogGeometry(ext[f.page].hdr, logSize).size
      modifies this, dev.volume, dev.volume.flash
      ensures Stable(ext0, files0, fds0, fd) && (old(stranded) ==> stranded) && starved == (old(starved) || !ok)
      ensures fds[fd].offset == old(fds[fd].offset) && ContentsOf(fd) == old(ContentsOf(fd))
      ensures FdLeft(fds) == old(FdLeft(fds))
      ensures var pages := old(files[fds[fd].file].maxPages) * 2;
        && (ok <==> old(FdLeft(fds) && CanReserve(pages))) && (!ok ==> !FdLeft(fds) || Lacks(pages))
        && (old(FdLeft(fds)) && old(Means()) > pages ==> ok && Means() >= old(Means()) - pages)
      ensures var f, f0 := files[fds[fd].file], old(files[fds[fd].file]);
        && f.maxPages == (if ok then f0.maxPages * 2 else f0.maxPages) && (ok ==> !f.modified)
        && f.page in ext && LogGeometry(ext[f.page].hdr, logSize) == old(LogGeometry(ext[f0.page].hdr, logSize))
        && LogPages(ext[f.page].hdr, logSize) == old(LogPages(ext[f0.page].hdr, logSize))
    {
      hide *;
      StableMeans(ext0, files0, fds0, fd);
      StableFd(ext0, files0, fds0, fd);
      var i := fds[fd].file;
      ghost var ext1, files1, fds1 := ext, files, fds;
      var r, s := MergeLog(i, true);
      ok := r >= 0;
      if ok {
        MovedOpen(fds1, i, s, fds, fd);
        CarriedMoved(ext0, files0, fds0, fds0[fd].file, ext1, files1, fds1, i, logSize, fd, ext, files, fds, s);
        OpenAgain(fd);
        FilePage(s);
        FileThere(fd);
        SameGeometryBy(ext, files[s], files1[i], ext1);
        SamePages(ext, files[s], files1[i], ext1);
      } else {
        KeptOpen(fds1, fds, fd);
        CarriedSame(ext0, files0, fds0, fds0[fd].file, ext, files, fds1, i, logSize, fd, fds);
        OpenAgain(fd);
        FileThere(fd);
      }
      StableAgain(ext0, files0, fds0, fd);
      StableFd(ext0, files0, fds0, fd);
    }

    lemma SamePages(ext: Flash, f: File, f0: File, ext0: Flash)
      requires f.page in ext && f0.page in ext0 && LogConfig(ext, f) == LogConfig(ext0, f0)
      ensures LogPages(ext[f.page].hdr, logSize) == LogPages(ext0[f0.page].hdr, logSize)
    {}

    /** What cfs_write does after a record has been written: the descriptor and the end of the file move. */
    method Advance(fd: int, r: nat)
      requires FdValid(fd) && 0 <= fds[fd].file < |files|
      requires ConfigFits(logSize, dynPages)
      requires Backed() && (stranded ==> starved)
      requires Consistent(ext, logSize, Advanced(fds[fd].file, fds[fd].offset + r), fds)
      requires IsFile(ext, logSize, Advanced(fds[fd].file, fds[fd].offset + r), fds[fd].file)
      modifies this`files, this`fds
      ensures Valid() && FileOk(fd)
      ensures fds == old(fds)[fd := old(fds)[fd].(offset := old(fds)[fd].offset + r)]
      ensures files == old(Advanced(fds[fd].file, fds[fd].offset + r))
    {
      hide *;
      OpenNow(fd);
      var i := fds[fd].file;
      ghost var end := fds[fd].offset + r;
      ghost var files1 := Advanced(i, end);
      AdvancedIs(i, end);
      var d := fds[fd].(offset := fds[fd].offset + r);
      DescChanged(ext, logSize, files1, fds, fd, d, files1);
      fds := fds[fd := d];
      if fds[fd].offset > files[i].end {
        files := files[i := files[i].(end := fds[fd].offset)];
      }
      assert files == files1;
      ValidAgain();
      OpenAgain(fd);
      FileThere(fd);
    }

    lemma OpenNow(fd: int)
      requires FdValid(fd)
      ensures 0 <= fd < |fds| && fds[fd].open
    {}

    lemma OpenAgain(fd: int)
      requires 0 <= fd < |fds| && fds[fd].open
      ensures FdValid(fd)
    {}

    lemma ValidAgain()
      requires ConfigFits(logSize, dynPages)
      requires Backed() && Consistent(ext, logSize, files, fds) && (stranded ==> starved)
      ensures Valid()
    {}

    /** The bytes, of n from the offset of fd, that fit into records which the log can take without being merged. */
    ghost function Sure(fd: int, n: nat): nat
      requires FileOk(fd)
      reads this, dev.volume, dev.volume.flash
    {
      var f, g := files[fds[fd].file], LogGeometry(ext[files[fds[fd].file].page].hdr, logSize);
      Covered(fds[fd].offset, n, g.size, LeftInLog(fd))
    }

    /** The records that are left in the log, or will be once it is created. */
    ghost function LeftInLog(fd: int): nat
      requires FileOk(fd)
      reads this, dev.volume, dev.volume.flash
    {
      var f, g := files[fds[fd].file], LogGeometry(ext[files[fds[fd].file].page].hdr, logSize);
      if f.modified then g.records - f.recordCount else if CanLog(fds[fd].file) then g.records else 0
    }

    lemma SureMeans(fd: int, n: nat)
      requires FileOk(fd)
      ensures 0 <= fd < |fds| && 0 <= fds[fd].file < |files| && files[fds[fd].file].page in ext
      ensures var i := fds[fd].file;
        var f, g := files[i], LogGeometry(ext[files[i].page].hdr, logSize);
        && g.size > 0 && g.records > 0 && (f.modified ==> 0 <= f.recordCount <= g.records)
        && LeftInLog(fd) == (if f.modified then g.records - f.recordCount else if CanLog(i) then g.records else 0)
        && Sure(fd, n) == Covered(fds[fd].offset, n, g.size, LeftInLog(fd))
        && (!CanLog(i) || CannotLog(i) ==> LeftInLog(fd) == 0)
    {
      hide CanReserve, Lacks, FdLeft, LogPages, LogGeometry, Covered;
      FilePageOf(fd);
      LackMeans(LogPages(ext[files[fds[fd].file].page].hdr, logSize));
    }

    /** What the log loop of cfs_write has done so far, which began like this. */
    ghost predicate Logging(st: LogStart, fd: int, buf: seq<byte>, written: nat, merged: bool,
                            ext0: Flash, files0: seq<File>, fds0: seq<Desc>)
      reads this, dev.volume, dev.volume.flash
    {
      && Stable(ext0, files0, fds0, fd) && FdsOk(files0, fds0) && FileOk(fd)
      && 0 < st.pages && |buf| + st.at <= Capacity(st.pages) && written <= |buf| && fds[fd].offset == st.at + written
      && Overwritten(st.contents, st.at, buf[..written], ContentsOf(fd)) && FdLeft(fds) == st.fdLeft
      && var f, h := files[fds[fd].file], ext[files[fds[fd].file].page].hdr;
      && f.maxPages == st.pages && LogGeometry(h, logSize) == st.g && LogPages(h, logSize) == st.logPages
         && st.g.size > 0
        && st.pages <= st.bulk && st.logPages <= st.bulk
      && Going(st, |buf|, written, LeftInLog(fd), merged, f.modified, Means())
    }

    lemma LoggingMeans(st: LogStart, fd: int, buf: seq<byte>, written: nat, merged: bool,
                       ext0: Flash, files0: seq<File>, fds0: seq<Desc>)
      requires Logging(st, fd, buf, written, merged, ext0, files0, fds0)
      ensures Stable(ext0, files0, fds0, fd) && FdsOk(files0, fds0) && FileOk(fd)
      ensures 0 <= fd < |fds| && 0 <= fds[fd].file < |files| && files[fds[fd].file].page in ext
      ensures 0 < st.pages && |buf| + st.at <= Capacity(st.pages) && written <= |buf|
        && fds[fd].offset == st.at + written
      ensures Overwritten(st.contents, st.at, buf[..written], ContentsOf(fd)) && FdLeft(fds) == st.fdLeft
      ensures var f, h := files[fds[fd].file], ext[files[fds[fd].file].page].hdr;
        && f.maxPages == st.pages && LogGeometry(h, logSize) == st.g && LogPages(h, logSize) == st.logPages
           && st.g.size > 0
        && st.pages <= st.bulk && st.logPages <= st.bulk
        && Going(st, |buf|, written, LeftInLog(fd), merged, f.modified, Means())
    {
      hide Stable, FdsOk, Overwritten, FdLeft, LogGeometry, LogPages, Going, LeftInLog, Means, Capacity, Describes,
        Ends;
      FilePageOf(fd);
    }

    lemma FilePageOf(fd: int)
      requires FileOk(fd)
      ensures 0 <= fd < |fds| && 0 <= fds[fd].file < |files| && files[fds[fd].file].page in ext
    {}

    lemma LoggingAgain(st: LogStart, fd: int, buf: seq<byte>, written: nat, merged: bool,
                       ext0: Flash, files0: seq<File>, fds0: seq<Desc>)
      requires Stable(ext0, files0, fds0, fd) && FdsOk(files0, fds0) && FileOk(fd)
      requires 0 <= fd < |fds| && 0 <= fds[fd].file < |files| && files[fds[fd].file].page in ext
      requires 0 < st.pages && |buf| + st.at <= Capacity(st.pages) && written <= |buf|
        && fds[fd].offset == st.at + written
      requires Overwritten(st.contents, st.at, buf[..written], ContentsOf(fd)) && FdLeft(fds) == st.fdLeft
      requires var f, h := files[fds[fd].file], ext[files[fds[fd].file].page].hdr;
        && f.maxPages == st.pages && LogGeometry(h, logSize) == st.g && LogPages(h, logSize) == st.logPages
           && st.g.size > 0
        && st.pages <= st.bulk && st.logPages <= st.bulk
        && Going(st, |buf|, written, LeftInLog(fd), merged, f.modified, Means())
      ensures Logging(st, fd, buf, written, merged, ext0, files0, fds0)
    {
      hide Stable, FdsOk, Overwritten, FdLeft, LogGeometry, LogPages, Going, LeftInLog, Means, Capacity, Describes,
        Ends;
    }

    /**
     * The branch of cfs_write that goes through the log. What the log can take without being merged is written, and if
     * no descriptor is free that is all.
     */
    method WriteLogged(fd: int, buf: seq<byte>, ghost ext0: Flash, ghost files0: seq<File>, ghost fds0: seq<Desc>)
        returns (written: nat)
      requires Room(fd, |buf|) && Stable(ext0, files0, fds0, fd) && FdsOk(files0, fds0) && |buf| <= 0xFFFF
      modifies this, dev.volume, dev.volume.flash
      ensures FileOk(fd) && Stable(ext0, files0, fds0, fd)
      ensures written <= |buf| && (old(stranded) ==> stranded) && starved == (old(starved) || written < |buf|)
      ensures fds[fd].offset == old(fds[fd].offset) + written
      ensures Overwritten(old(ContentsOf(fd)), old(fds[fd].offset), buf[..written], ContentsOf(fd))
      ensures Bulk(fd) == old(Bulk(fd)) && files[fds[fd].file].maxPages == old(files[fds[fd].file].maxPages)
      ensures written < |buf| ==> Short(fd, |buf| - written)
      ensures written >= old(Sure(fd, |buf|)) && (!old(FdLeft(fds)) ==> written == old(Sure(fd, |buf|)))
      ensures 0 <= old(fds[fd].file) < |old(files)| && old(files[fds[fd].file].page in ext)
      ensures !old(CanLog(fds[fd].file)) ==> written == 0
      ensures old(FdLeft(fds)) && old(Means()) > 2 * old(Bulk(fd)) * |buf| ==>
        written == |buf| && Means() >= old(Means()) - 2 * old(Bulk(fd)) * |buf|
    {
      hide *;
      StableMeans(ext0, files0, fds0, fd);
      RoomMeans(fd, |buf|);
      SureMeans(fd, |buf|);
      MostMeans(fd, 0);
      BulkIs(fd);
      ghost var h := ext[files[fds[fd].file].page].hdr;
      ghost var st := LogStart(ContentsOf(fd), fds[fd].offset, LogGeometry(h, logSize), LeftInLog(fd), FdLeft(fds),
                               files[fds[fd].file].maxPages, LogPages(h, logSize), Bulk(fd), Means());
      written := 0;
      ghost var merged, can := false, CanLog(fds[fd].file);
      NothingWritten(st.contents, st.at);
      assert buf[..0] == [];
      GoingStart(st, |buf|, files[fds[fd].file].modified);
      LoggingAgain(st, fd, buf, 0, false, ext0, files0, fds0);
      while written < |buf|
        invariant Logging(st, fd, buf, written, merged, ext0, files0, fds0) && FileOk(fd)
        invariant written <= |buf| && (old(stranded) ==> stranded) && starved == old(starved)
        invariant 0 <= fd < |fds| && 0 <= fds[fd].file < |files|
        invariant can || (written == 0 && files[fds[fd].file].page in ext && !CanLog(fds[fd].file))
        decreases |buf| - written, files[fds[fd].file].modified
      {
        var r;
        r, merged := LogRound(st, fd, buf, written, merged, ext0, files0, fds0);
        LoggingMeans(st, fd, buf, written + (if r < 0 then 0 else r), merged, ext0, files0, fds0);
        BulkIs(fd);
        if r < 0 {
          StuckCovers(st, |buf|, written, LeftInLog(fd), merged, files[fds[fd].file].modified, Means());
          CapacityMeans(files[fds[fd].file].maxPages);
          ShortMeans(fd, |buf| - written);
          return;
        }
        written := written + r;
      }
      LoggingMeans(st, fd, buf, written, merged, ext0, files0, fds0);
      BulkIs(fd);
      GoingDone(st, |buf|, LeftInLog(fd), merged, files[fds[fd].file].modified, Means());
    }

    /** One round of its loop, and what is known of all of them. */
    method LogRound(ghost st: LogStart, fd: int, buf: seq<byte>, written: nat, ghost merged: bool,
                    ghost ext0: Flash, ghost files0: seq<File>, ghost fds0: seq<Desc>)
        returns (r: int, ghost merged': bool)
      requires Logging(st, fd, buf, written, merged, ext0, files0, fds0) && FileOk(fd) && written < |buf| <= 0xFFFF
      modifies this, dev.volume, dev.volume.flash
      ensures -1 <= r <= |buf| - written && (old(stranded) ==> stranded) && starved == (old(starved) || r < 0)
      ensures Logging(st, fd, buf, written + (if r < 0 then 0 else r), merged', ext0, files0, fds0) && FileOk(fd)
      ensures 0 <= old(fds[fd].file) < |old(files)| && old(files[fds[fd].file].page in ext)
      ensures (r >= 0 <==> old(CanLog(fds[fd].file))) && (r < 0 ==> CannotLog(fds[fd].file))
      ensures r < 0 ==> Stuck(st, |buf|, written, merged')
      ensures r == 0 ==> old(files[fds[fd].file].modified) && !files[fds[fd].file].modified
    {
      hide *;
      LoggingMeans(st, fd, buf, written, merged, ext0, files0, fds0);
      RoomThere(fd, |buf[written..]|);
      SureMeans(fd, |buf|);
      LogSays(fds[fd].file);
      ghost var before, leftNow, modified, means :=
        ContentsOf(fd), LeftInLog(fd), files[fds[fd].file].modified, Means();
      GoingPays(st, |buf|, written, leftNow, merged, modified, means);
      CutIs(buf, written);
      r := WriteStep(fd, buf[written..written + Cut16(|buf| - written)], ext0, files0, fds0);
      StableMeans(ext0, files0, fds0, fd);
      SureMeans(fd, |buf|);
      ghost var n := if r < 0 then 0 else r;
      WrittenTwice(st.contents, st.at, buf[..written], before, buf[written..][..n], ContentsOf(fd));
      assert buf[..written] + buf[written..][..n] == buf[..written + n];
      merged' := merged || r == 0;
      if r < 0 {
        GoingStuck(st, |buf|, written, leftNow, merged, modified, means, Means());
        assert LeftInLog(fd) == 0;
      } else if r == 0 {
        GoingMerge(st, |buf|, written, leftNow, merged, means, LeftInLog(fd), Means());
      } else {
        GoingRecord(st, |buf|, written, leftNow, merged, modified, means, r, Means());
      }
      LoggingAgain(st, fd, buf, written + n, merged', ext0, files0, fds0);
    }

    /** One round of its loop: a negative result ends it, and 0 means that the log has been merged. */
    method WriteStep(fd: int, buf: seq<byte>, ghost ext0: Flash, ghost files0: seq<File>, ghost fds0: seq<Desc>)
        returns (r: int)
      requires Room(fd, |buf|) && Stable(ext0, files0, fds0, fd) && FdsOk(files0, fds0) && 0 < |buf|
      modifies this, dev.volume, dev.volume.flash
      ensures FileOk(fd) && Stable(ext0, files0, fds0, fd) && -1 <= r <= |buf| && FdLeft(fds) == old(FdLeft(fds))
      ensures (old(stranded) ==> stranded) && starved == (old(starved) || r < 0)
      ensures var n := if r < 0 then 0 else r;
        && fds[fd].offset == old(fds[fd].offset) + n
        && Overwritten(old(ContentsOf(fd)), old(fds[fd].offset), buf[..n], ContentsOf(fd))
      ensures old(files[fds[fd].file].page in ext) && 0 <= fds[fd].file < |files| && files[fds[fd].file].page in ext
      ensures var f, f0, g :=
        files[fds[fd].file], old(files[fds[fd].file]), old(LogGeometry(ext[files[fds[fd].file].page].hdr, logSize));
        && f.maxPages == f0.maxPages && g == LogGeometry(ext[f.page].hdr, logSize)
        && LogPages(ext[f.page].hdr, logSize) == old(LogPages(ext[files[fds[fd].file].page].hdr, logSize))
        && (r < 0 ==> f == f0)
        && (r == 0 ==> f0.modified && !f.modified && f0.recordCount >= g.records)
        && (r > 0 ==>
              && (f0.modified ==> f0.recordCount < g.records)
              && r == InRegion(old(fds[fd].offset), |buf|, g.size)
              && f.modified && f.recordCount == if f0.modified then f0.recordCount + 1 else 1)
      ensures (r >= 0 <==> old(CanLog(fds[fd].file))) && (r < 0 ==> CannotLog(fds[fd].file))
      ensures old(FdLeft(fds)) && old(Means()) > old(LogCost(fds[fd].file)) ==>
        r >= 0 && Means() >= old(Means()) - old(LogCost(fds[fd].file))
    {
      hide *;
      StableMeans(ext0, files0, fds0, fd);
      StableFd(ext0, files0, fds0, fd);
      RoomMeans(fd, |buf|);
      var i := fds[fd].file;
      ghost var ext1, files1, fds1, contents, at := ext, files, fds, ContentsOf(fd), fds[fd].offset;
      NothingWritten(contents, at);
      assert buf[..0] == [];
      var s;
      r, s := WriteLogPage(i, fds[fd].offset, buf);
      MeansMean();
      if r < 0 {
        KeptOpen(fds1, fds, fd);
        CarriedSame(ext0, files0, fds0, fds0[fd].file, ext, files, fds1, i, logSize, fd, fds);
        OpenAgain(fd);
        FileThere(fd);
      } else if r == 0 {
        MovedOpen(fds1, i, s, fds, fd);
        CarriedMoved(ext0, files0, fds0, fds0[fd].file, ext1, files1, fds1, i, logSize, fd, ext, files, fds, s);
        OpenAgain(fd);
        FileThere(fd);
        FilePage(s);
        SameGeometryBy(ext, files[s], files1[i], ext1);
        SamePages(ext, files[s], files1[i], ext1);
      } else {
        ghost var files2 := files;
        AdvancedIs(i, at + r);
        OpenAgain(fd);
        Advance(fd, r);
        FileHere(fd);
        ConfigByPage(ext, files2[i], files[i]);
        OthersKeptOff(ext1, files1, ext, files2, logSize, i, files1[i], files[i]);
        assert files1[i := files1[i]] == files1 && files2[i := files[i]] == files;
        PatchedContents(ext1, ext, logSize, files1[i], files[i], at, buf[..r]);
        CarriedKept(ext0, files0, fds0, fds0[fd].file, ext1, files1, fds1, i, logSize, fd, ext, files, fds);
        SlotAdvanced(files2, i, files[i]);
        StableAgain(ext0, files0, fds0, fd);
        StableMeans(ext0, files0, fds0, fd);
        SameGeometryBy(ext, files[i], files1[i], ext1);
        SamePages(ext, files[i], files1[i], ext1);
        MeansMean();
      }
      StableAgain(ext0, files0, fds0, fd);
      StableFd(ext0, files0, fds0, fd);
    }

    lemma SlotAdvanced(files: seq<File>, i: nat, f: File)
      requires i < |files| && f.references == files[i].references
      ensures SlotLeft(files) ==> SlotLeft(files[i := f])
    {
      if k :| 0 <= k < |files| && files[k].references == 0 { assert files[i := f][k].references == 0; }
    }

    lemma FileThere(fd: int)
      requires FdValid(fd) && 0 <= fd < |fds| && IsFile(ext, logSize, files, fds[fd].file)
      requires 0 <= fds[fd].file < |files| && fds[fd].offset <= files[fds[fd].file].end
      ensures FileOk(fd) && ContentsOf(fd) == Contents(ext, logSize, files[fds[fd].file])
    {}

    lemma FileHere(fd: int)
      requires FileOk(fd)
      ensures 0 <= fd < |fds| && 0 <= fds[fd].file < |files|
      ensures Describes(ext, logSize, files[fds[fd].file]) && Ends(ext, logSize, files[fds[fd].file])
      ensures ContentsOf(fd) == Contents(ext, logSize, files[fds[fd].file])
    {}

    lemma StableAgain(ext0: Flash, files0: seq<File>, fds0: seq<Desc>, fd: int)
      requires Valid() && FileOk(fd) && 0 <= fd < |fds0| == |fds|
      requires Carried(ext0, files0, fds0, fds0[fd].file, ext, files, fds, fds[fd].file, logSize, fd)
      ensures Stable(ext0, files0, fds0, fd)
    {}

    lemma CutIs(buf: seq<byte>, written: nat)
      requires written <= |buf| <= 0xFFFF
      ensures Cut16(|buf| - written) == |buf| - written
        && buf[written..written + Cut16(|buf| - written)] == buf[written..]
    {}

    /** The branch of cfs_write that writes behind the end of an unmodified file. */
    method WriteDirect(fd: int, buf: seq<byte>, ghost ext0: Flash, ghost files0: seq<File>, ghost fds0: seq<Desc>)
      requires Room(fd, |buf|) && Stable(ext0, files0, fds0, fd) && FdsOk(files0, fds0)
      requires !files[fds[fd].file].modified && fds[fd].offset == files[fds[fd].file].end
      modifies this`ext, this`files, this`fds, dev.volume.flash
      ensures FileOk(fd) && Stable(ext0, files0, fds0, fd)
      ensures fds[fd].offset == old(fds[fd].offset) + |buf|
      ensures Overwritten(old(ContentsOf(fd)), old(fds[fd].offset), buf, ContentsOf(fd))
      ensures Bulk(fd) == old(Bulk(fd)) && Means() >= old(Means()) && !files[fds[fd].file].modified
      ensures files[fds[fd].file].maxPages == old(files[fds[fd].file].maxPages)
    {
      hide FlashOk, SlotsOk, FdsOk, Overwrite, Carried, Backed, SlotLeft, LogPages, Max, Volume.Spare;
      var i, at := fds[fd].file, fds[fd].offset;
      SlotAdvanced(files, i, Advanced(i, at + |buf|)[i]);
      var page := files[i].page;
      ghost var ext1, files1, fds1 := ext, files, fds;
      ghost var e := Extent(ext[page].hdr, Put(ext[page].data, at, buf));
      ghost var f' := Advanced(i, at + |buf|)[i];
      assert Patched(Image(ext, logSize, files[i]), Image(ext[page := e], logSize, f'), at, buf);
      FileChanged(ext, logSize, files, fds, i, page, e, f');
      PatchedPrefix(Image(ext, logSize, files[i]), Image(ext[page := e], logSize, f'), at, buf, files[i].end, f'.end);
      PutData(page, at, buf);
      Advance(fd, |buf|);
      CarriedKept(ext0, files0, fds0, fds0[fd].file, ext1, files1, fds1, i, logSize, fd, ext, files, fds);
    }

    /** The file must grow to take so many bytes. */
    predicate Grows(fd: int, size: nat)
      requires FdValid(fd) && 0 <= fds[fd].file < |files|
      reads this
    {
      size + fds[fd].offset + HEADER_SIZE > files[fds[fd].file].maxPages * PAGE_SIZE
    }

    /** Once is enough. */
    predicate GrowsOnce(fd: int, size: nat)
      requires FdValid(fd) && 0 <= fds[fd].file < |files|
      reads this
    {
      var limit, pages := size + fds[fd].offset + HEADER_SIZE, files[fds[fd].file].maxPages;
      pages * PAGE_SIZE < limit <= pages * 2 * PAGE_SIZE
    }

    lemma OnceMeans(fd: int, size: nat)
      requires FdValid(fd) && 0 <= fds[fd].file < |files|
      ensures 0 <= fd < |fds| && (AtEnd(fd) <==> fds[fd].offset == files[fds[fd].file].end)
      ensures GrowsOnce(fd, size) ==>
        var limit, pages := size + fds[fd].offset + HEADER_SIZE, files[fds[fd].file].maxPages;
        pages * PAGE_SIZE < limit <= pages * 2 * PAGE_SIZE
    {}

    /** The log has records for so many bytes from the offset of fd, or will have once it is created. */
    ghost predicate LogTakes(fd: int, n: nat)
      requires FileOk(fd)
      reads this
    {
      var f, g := files[fds[fd].file], LogGeometry(ext[files[fds[fd].file].page].hdr, logSize);
      Covered(fds[fd].offset, n, g.size, if f.modified then g.records - f.recordCount else g.records) == n
    }

    lemma TakesMeans(fd: int, n: nat)
      requires FileOk(fd)
      ensures 0 <= fd < |fds| && 0 <= fds[fd].file < |files| && files[fds[fd].file].page in ext
      ensures LogTakes(fd, n) && CanLog(fds[fd].file) ==> Sure(fd, n) == n
    {
      hide CanLog, Covered;
    }

    predicate AtEnd(fd: int)
      requires FdValid(fd) && 0 <= fds[fd].file < |files|
      reads this
    {
      fds[fd].offset == files[fds[fd].file].end
    }

    /** A write goes through the log. */
    predicate ThroughLog(fd: int)
      requires FdValid(fd) && 0 <= fds[fd].file < |files|
      reads this
    {
      files[fds[fd].file].modified || fds[fd].offset < files[fds[fd].file].end
    }

    /** cfs_write. The second result is the number of bytes that really got into the file: when the log
        cannot be written any more, the first one is still the full size. */
    method Write(fd: int, buf: seq<byte>) returns (r: int, written: nat)
      requires Valid()
      requires FdValid(fd) ==>
        2 * (|buf| + fds[fd].offset + HEADER_SIZE) <=
          0xFFFE * LogGeometry(ext[files[fds[fd].file].page].hdr, logSize).size
      // otherwise the loop never ends (CoffeeLog.EndsExactly)
      requires FdValid(fd) && |buf| > 0xFFFF ==>
        fds[fd].offset == files[fds[fd].file].end && (!files[fds[fd].file].modified || Grows(fd, |buf|))
      modifies this, dev.volume, dev.volume.flash
      ensures Valid() && written <= |buf| && |fds| == |old(fds)| && (old(stranded) ==> stranded)
      ensures !old(FdValid(fd) && fds[fd].writable) ==>
        r == -1 && written == 0 && unchanged(this, dev.volume, dev.volume.flash)
      ensures old(FdValid(fd) && fds[fd].writable) ==>
        && old(FileOk(fd)) && FileOk(fd)
        && ContentsOf(fd) == Overwrite(old(ContentsOf(fd)), old(fds[fd].offset), buf[..written])
        && fds[fd].offset == old(fds[fd].offset) + written
        && Carried(old(ext), old(files), old(fds), old(fds[fd].file), ext, files, fds, fds[fd].file, logSize, fd)
        && (r == |buf| || (r == -1 && written == 0))
        && starved == (old(starved) || r == -1 || written < |buf|)
      // the file has doubled until all bytes fit
      ensures old(FdValid(fd) && fds[fd].writable) ==> old(files[fds[fd].file].maxPages) > 0
      ensures old(FdValid(fd) && fds[fd].writable) && r == |buf| ==>
        files[fds[fd].file].maxPages ==
          Grown(old(files[fds[fd].file].maxPages), |buf| + old(fds[fd].offset) + HEADER_SIZE)
      // why it fails
      ensures old(FdValid(fd) && fds[fd].writable) && (r == -1 || written < |buf|) ==> Short(fd, |buf| - written)
      // it does not if there are a descriptor, a slot and pages enough
      ensures
        old(FdValid(fd) && fds[fd].writable && FdLeft(fds)) && old(Means()) > 2 * old(Most(fd, |buf|)) * (|buf| + 1) ==>
        && r == written == |buf| && FdLeft(fds) && Bulk(fd) <= old(Most(fd, |buf|))
        && Means() >= old(Means()) - 2 * old(Most(fd, |buf|)) * (|buf| + 1)
      // nor if the log can take it all; and without a descriptor that is what it writes, whatever it returns
      ensures old(FdValid(fd) && fds[fd].writable) && !old(Grows(fd, |buf|)) ==>
        && (r == -1 <==> written == 0 < |buf|) && files[fds[fd].file].maxPages == old(files[fds[fd].file].maxPages)
        && (if old(ThroughLog(fd)) then
              written >= old(Sure(fd, |buf|)) && (!old(FdLeft(fds)) ==> written == old(Sure(fd, |buf|)))
            else written == |buf| && !files[fds[fd].file].modified && Means() >= old(Means()))
      ensures old(FdValid(fd) && fds[fd].writable) && old(Grows(fd, |buf|)) && !old(FdLeft(fds)) ==> r == -1
      // and exactly when it does if it needs a log, but none to be merged, or one merge at the end of the file
      ensures old(FdValid(fd) && fds[fd].writable) && |buf| > 0 && !old(Grows(fd, |buf|)) && old(ThroughLog(fd)) ==>
        && (!old(CanLog(fds[fd].file)) ==> r == -1)
        && (old(LogTakes(fd, |buf|)) ==> (written == |buf| <==> old(CanLog(fds[fd].file))))
      ensures old(FdValid(fd) && fds[fd].writable && GrowsOnce(fd, |buf|) && AtEnd(fd)) ==>
        (r == written == |buf| <==> old(FdLeft(fds) && CanReserve(files[fds[fd].file].maxPages * 2)))
    {
      hide *;
      if FdValid(fd) { OpenNow(fd); }
      if !(FdValid(fd) && fds[fd].writable) {
        return -1, 0;
      }
      ghost var ext0, files0, fds0 := ext, files, fds;
      WriteReady(fd);
      TakesMeans(fd, |buf|);
      OnceMeans(fd, |buf|);
      ghost var contents, at, m, means := ContentsOf(fd), fds[fd].offset, Most(fd, |buf|), Means();
      assert buf[..0] == [] && buf[..|buf|] == buf;
      StableMeans(ext0, files0, fds0, fd);
      MostMeans(fd, |buf|);
      GrowthMeans(fd, |buf|);
      StableFd(ext0, files0, fds0, fd);
      CostAll(m, |buf|);
      var ok := Extend(fd, |buf|, ext0, files0, fds0);
      StableMeans(ext0, files0, fds0, fd);
      StableFd(ext0, files0, fds0, fd);
      if !ok {
        OverwriteNothing(ContentsOf(fd), fds[fd].offset);
        return -1, 0;
      }
      GrowthMeans(fd, |buf|);
      RoomThere(fd, |buf|);
      assert |buf| > 0xFFFF ==> !ThroughLog(fd);
      CostLess(Bulk(fd), m, |buf|);
      var file := files[fds[fd].file];
      if file.modified || fds[fd].offset < file.end {
        written := WriteLogged(fd, buf, ext0, files0, fds0);
        StableMeans(ext0, files0, fds0, fd);
        StableFd(ext0, files0, fds0, fd);
        OverwrittenIs(contents, at, buf[..written], ContentsOf(fd));
        if written == 0 && |buf| > 0 {
          return -1, 0;
        }
        // Here the C code marks a new end of the file in its extent, but the end is never behind.
        assert fds[fd].offset <= files[fds[fd].file].end;
      } else {
        WriteDirect(fd, buf, ext0, files0, fds0);
        StableMeans(ext0, files0, fds0, fd);
        StableFd(ext0, files0, fds0, fd);
        OverwrittenIs(contents, at, buf, ContentsOf(fd));
        written := |buf|;
      }
      r := |buf|;
    }

    lemma WriteReady(fd: int)
      requires Valid() && FdValid(fd)
      ensures FileOk(fd) && Stable(ext, files, fds, fd) && FdsOk(files, fds)
      ensures 0 <= fd < |fds| && 0 <= fds[fd].file < |files| && files[fds[fd].file].page in ext
    {
      hide Consistent, Carried, Image, Backed, FdsOk;
      WriteBegins(ext, logSize, files, fds, fd);
      FilePageOf(fd);
    }

    lemma GrowthMeans(fd: int, size: nat)
      requires FdValid(fd) && 0 <= fds[fd].file < |files|
      ensures 0 <= fd < |fds|
      ensures Grows(fd, size) <==> size + fds[fd].offset + HEADER_SIZE > files[fds[fd].file].maxPages * PAGE_SIZE
      ensures ThroughLog(fd) <==> files[fds[fd].file].modified || fds[fd].offset < files[fds[fd].file].end
    {}

    lemma CostAll(m: nat, n: nat)
      ensures 2 * m <= 2 * m * (n + 1) == 2 * m + 2 * m * n
    {
      MulMono(1, n + 1, 2 * m);
    }

    lemma CostLess(bulk: nat, m: nat, n: nat)
      ensures bulk <= m ==> 2 * bulk * n <= 2 * m * n
    {
      if bulk <= m { MulMono(2 * bulk, 2 * m, n); }
    }

    lemma OverwrittenIs(s: seq<byte>, at: nat, bytes: seq<byte>, t: seq<byte>)
      requires Overwritten(s, at, bytes, t)
      ensures at <= |s| && t == Overwrite(s, at, bytes)
    {}

    /** cfs_seek */
    method Seek(fd: int, offset: int, whence: Whence) returns (r: int)
      requires Valid()
      modifies this`files, this`fds
      ensures old(FdValid(fd)) ==> old(FileOk(fd))
      // the three origins
      ensures !old(FdValid(fd)) || whence == SeekOther ==> r == -1
      ensures old(FdValid(fd)) ==>
        var d, f := old(fds)[fd], old(files)[old(fds)[fd].file];
        var size := f.maxPages * PAGE_SIZE;
        && (whence == SeekSet ==> r == if 0 <= offset <= size then offset else -1)
        && (whence == SeekEnd ==> r == if 0 <= f.end + offset <= size then f.end + offset else -1)
        && (whence == SeekCur ==> r == if 0 <= d.offset + offset <= size then d.offset + offset else -1)
      ensures r == -1 ==> files == old(files) && fds == old(fds)
      ensures r != -1 ==>
        var i := old(fds)[fd].file;
        && fds == old(fds)[fd := old(fds)[fd].(offset := r)]
        && files == old(files)[i := old(files)[i].(end := if r > old(files)[i].end then r else old(files)[i].end)]
      // up to the capacity of the file, seeking behind the end appends zeros
      ensures r != -1 && r <= Capacity(old(files)[old(fds)[fd].file].maxPages) ==>
        && Valid() && FileOk(fd)
        && ContentsOf(fd) ==
           old(ContentsOf(fd)) + Zeros(if r > |old(ContentsOf(fd))| then r - |old(ContentsOf(fd))| else 0)
        && OthersKept(ext, old(files), ext, files, logSize, fds[fd].file)
      // but the check forgets the header: beyond, the end of the file lies outside its extent
      ensures r != -1 && r > Capacity(old(files)[old(fds)[fd].file].maxPages) ==>
        r > |ext[old(files)[old(fds)[fd].file].page].data|
    {
      hide Consistent, Image, Contents, Ends, OthersKept, Zeros, Backed;
      if !FdValid(fd) {
        return -1;
      }
      WriteBegins(ext, logSize, files, fds, fd);
      var i := fds[fd].file;
      FileMeans(ext, logSize, files, fds, files[i]);
      var newOffset;
      match whence {
        case SeekSet => newOffset := offset;
        case SeekEnd => newOffset := files[i].end + offset;
        case SeekCur => newOffset := fds[fd].offset + offset;
        case SeekOther => return -1;
      }
      if newOffset < 0 || newOffset > files[i].maxPages * PAGE_SIZE {
        return -1;
      }
      if newOffset <= Capacity(files[i].maxPages) {
        SeekKeeps(ext, logSize, files, fds, fd, newOffset);
      }
      if files[i].end < newOffset {
        files := files[i := files[i].(end := newOffset)];
      }
      fds := fds[fd := fds[fd].(offset := newOffset)];
      r := newOffset;
    }
  }
}
