/** How creating a log, appending a record and merging a log change the tables and the contents of the
    open files (cfs-coffee.c). */
module CoffeeSteps {
  import opened Numbers
  import opened Bits
  import opened CoffeeWalk
  import opened CoffeeLog
  import opened CoffeeTables
  import opened CoffeeVolume

  /** Slot i holds a file (not a log). */
  ghost predicate IsFile(ext: Flash, logSize: nat, files: seq<File>, i: int) {
    0 <= i < |files| && Live(files[i]) && Describes(ext, logSize, files[i]) && Ends(ext, logSize, files[i])
  }

  /** The files that are open, other than i, are the same as before, byte for byte. */
  ghost predicate OthersKept(ext: Flash, files: seq<File>, ext': Flash, files': seq<File>, logSize: nat, i: int) {
    && |files'| == |files|
    && forall k | 0 <= k < |files| && k != i && files[k].references > 0 ::
         && files'[k] == files[k] && Describes(ext, logSize, files[k]) && Describes(ext', logSize, files[k])
         && LogConfig(ext', files[k]) == LogConfig(ext, files[k])
         && Image(ext', logSize, files[k]) == Image(ext, logSize, files[k])
  }

  lemma OthersKeptTwice(ext: Flash, files: seq<File>, ext1: Flash, files1: seq<File>, ext2: Flash, files2: seq<File>,
                        logSize: nat, i: int)
    requires OthersKept(ext, files, ext1, files1, logSize, i) && OthersKept(ext1, files1, ext2, files2, logSize, i)
    ensures OthersKept(ext, files, ext2, files2, logSize, i)
  {}

  lemma OthersKeptOff(ext: Flash, files: seq<File>, ext': Flash, files': seq<File>, logSize: nat, i: nat, f: File,
                      f': File)
    requires i < |files| && OthersKept(ext, files, ext', files', logSize, i)
    ensures OthersKept(ext, files[i := f], ext', files'[i := f'], logSize, i)
  {}

  /** Region numbers fit the index table. */
  lemma RegionFits(offset: nat, size: nat, capacity: nat)
    requires size > 0 && offset < capacity <= 0xFFFE * size
    ensures offset / size + 1 < 0x1_0000
  {
    assert offset == offset / size * size + offset % size;
    if offset / size >= 0xFFFE { MulMono(0xFFFE, offset / size, size); }
  }

  /** The same when file i moves to slot s: nothing is left in slot i. */
  ghost predicate OthersMoved(ext: Flash, files: seq<File>, ext': Flash, files': seq<File>, logSize: nat, i: int,
                              s: int) {
    && |files'| == |files|
    && (0 <= i < |files| ==> files'[i].references == 0)
    && (0 <= s < |files| ==> files[s].references == 0)
    && forall k | 0 <= k < |files| && k != i && files[k].references > 0 ::
         && files'[k] == files[k] && Describes(ext, logSize, files[k]) && Describes(ext', logSize, files[k])
         && LogConfig(ext', files[k]) == LogConfig(ext, files[k])
         && Image(ext', logSize, files[k]) == Image(ext, logSize, files[k])
  }

  lemma FileOfDesc(ext: Flash, logSize: nat, files: seq<File>, fds: seq<Desc>, d: nat)
    requires Consistent(ext, logSize, files, fds) && d < |fds| && fds[d].open
    ensures files[fds[d].file].references > 0 && IsFile(ext, logSize, files, fds[d].file)
  {
    Referenced(fds, d, fds[d].file);
    assert SlotOk(ext, logSize, files[fds[d].file]);
  }

  /** A slot whose extent and log stay is as before. */
  lemma OtherSlot(ext: Flash, ext': Flash, logSize: nat, f: File)
    requires SlotOk(ext, logSize, f)
    requires Live(f) && f.page in ext ==>
      && f.page in ext' && ext'[f.page] == ext[f.page]
      && (!ext[f.page].hdr.log && ext[f.page].hdr.modified && ext[f.page].hdr.logPage in ext ==>
            ext[f.page].hdr.logPage in ext' && ext'[ext[f.page].hdr.logPage] == ext[ext[f.page].hdr.logPage])
    ensures SlotOk(ext', logSize, f)
    ensures f.references > 0 ==>
      && Describes(ext, logSize, f) && Describes(ext', logSize, f)
      && LogConfig(ext', f) == LogConfig(ext, f) && Image(ext', logSize, f) == Image(ext, logSize, f)
  {
    if Live(f) { SlotFrame(ext, ext', logSize, f); }
  }

  /** A slot of a log: only the header counts. */
  lemma LogSlot(ext: Flash, ext': Flash, logSize: nat, f: File)
    requires SlotOk(ext, logSize, f) && f.page in ext && ext[f.page].hdr.log && f.page in ext' && ext'[f.page].hdr.log
    ensures SlotOk(ext', logSize, f) && f.references == 0
  {}

  lemma DescribesMeans(ext: Flash, logSize: nat, f: File)
    ensures Describes(ext, logSize, f) ==>
      f.page in ext && !ext[f.page].hdr.log && Live(f) && ext[f.page].hdr.modified == f.modified
  {}

  lemma LiveSlot(ext: Flash, logSize: nat, f: File)
    requires SlotOk(ext, logSize, f)
    ensures Live(f) ==> f.page in ext
  {}

  lemma AnySlot(ext: Flash, logSize: nat, files: seq<File>, k: nat)
    requires SlotsOk(ext, logSize, files) && k < |files|
    ensures SlotOk(ext, logSize, files[k])
  {}

  lemma NewSlot(ext: Flash, logSize: nat, f: File)
    requires Describes(ext, logSize, f) && Ends(ext, logSize, f)
    ensures SlotOk(ext, logSize, f) && Live(f)
  {}

  lemma FreeSlot(ext: Flash, logSize: nat, f: File)
    requires !Live(f) && f.references == 0
    ensures SlotOk(ext, logSize, f)
  {}

  /** The descriptors are of files whose slots did not change much. */
  lemma SameDescs(files: seq<File>, fds: seq<Desc>, files': seq<File>)
    requires FdsOk(files, fds) && |files'| == |files|
    requires forall k | 0 <= k < |files| ::
      && files'[k].references == files[k].references
      && (files[k].references > 0 && Live(files[k]) ==> Live(files'[k]) && files'[k].end >= files[k].end)
    ensures FdsOk(files', fds)
  {
    forall d | 0 <= d < |fds| && fds[d].open ensures DescOk(files', fds[d]) {
      Referenced(fds, d, fds[d].file);
      assert DescOk(files, fds[d]);
    }
  }

  /** The extent of file i, or its log, gets new contents. */
  lemma FileChanged(ext: Flash, logSize: nat, files: seq<File>, fds: seq<Desc>, i: nat, p: int, e: Extent, f': File)
    requires Consistent(ext, logSize, files, fds) && IsFile(ext, logSize, files, i)
    requires p in ext && e.hdr == ext[p].hdr && |e.data| == |ext[p].data|
    requires p == files[i].page || (files[i].modified && p == ext[files[i].page].hdr.logPage)
    requires f'.page == files[i].page && f'.maxPages == files[i].maxPages && f'.references == files[i].references
    requires f'.end >= files[i].end && SlotOk(ext[p := e], logSize, f')
    ensures Consistent(ext[p := e], logSize, files[i := f'], fds)
    ensures OthersKept(ext, files, ext[p := e], files[i := f'], logSize, i)
  {
    hide Describes, Ends, Image, SlotOk, FdsOk, LogGeometry, FlashOk;
    var ext', files' := ext[p := e], files[i := f'];
    DescribesMeans(ext, logSize, files[i]);
    SameFlash(ext, p, e);
    LiveSlot(ext', logSize, f');
    forall k | 0 <= k < |files| && k != i
      ensures SlotOk(ext', logSize, files[k])
      ensures files[k].references > 0 ==>
        && Describes(ext, logSize, files[k]) && Describes(ext', logSize, files[k])
        && LogConfig(ext', files[k]) == LogConfig(ext, files[k])
        && Image(ext', logSize, files[k]) == Image(ext, logSize, files[k])
    {
      LiveSlot(ext, logSize, files[k]);
      if Live(files[k]) && ext[files[k].page].hdr.log {
        LogSlot(ext, ext', logSize, files[k]);
      } else {
        if Live(files[k]) { OtherPage(ext, logSize, files, i, k, p); }
        OtherSlot(ext, ext', logSize, files[k]);
      }
    }
    SameDescs(files, fds, files');
  }

  lemma SameFlash(ext: Flash, p: int, e: Extent)
    requires FlashOk(ext) && p in ext && e.hdr == ext[p].hdr && |e.data| == |ext[p].data|
    ensures FlashOk(ext[p := e])
  {}

  /** Page p, of file i or of its log, is not that of another file or its log. */
  lemma OtherPage(ext: Flash, logSize: nat, files: seq<File>, i: nat, k: nat, p: int)
    requires FlashOk(ext) && SlotsOk(ext, logSize, files) && IsFile(ext, logSize, files, i) && k < |files| && k != i
    requires p == files[i].page || (files[i].modified && p == ext[files[i].page].hdr.logPage)
    requires Live(files[k]) && files[k].page in ext
    ensures ext[files[k].page].hdr.log || p != files[k].page
    ensures !ext[files[k].page].hdr.log && ext[files[k].page].hdr.modified ==> p != ext[files[k].page].hdr.logPage
  {
    hide Ends, Image, SlotOk, LogGeometry;
    assert files[k].page != files[i].page;
  }

  /** The log of file f, which is at page lp, has room for a record of the bytes. */
  ghost predicate Appendable(ext: Flash, logSize: nat, f: File, g: Geometry, lp: int, at: nat, bytes: seq<byte>) {
    && Describes(ext, logSize, f) && f.modified
    && g == LogGeometry(ext[f.page].hdr, logSize) && lp == ext[f.page].hdr.logPage
    && f.recordCount < g.records && at / g.size + 1 < 0x1_0000
    && |bytes| > 0 && at <= f.end && at + |bytes| <= Capacity(f.maxPages) && at % g.size + |bytes| <= g.size
  }

  /** A record with this content can be appended. */
  ghost predicate CanAppend(ext: Flash, logSize: nat, f: File, g: Geometry, lp: int, at: nat, bytes: seq<byte>,
                            content: seq<byte>) {
    && Appendable(ext, logSize, f, g, lp, at, bytes)
    && RecordFor(Image(ext, logSize, f), at, g.size, bytes, content)
  }

  function AppendedLog(ext: Flash, n: int, g: Geometry, lp: int, at: nat, content: seq<byte>): (r: Flash)
    requires lp in ext && g.Ok() && 0 <= n < g.records && g.Bytes() <= |ext[lp].data|
    requires at / g.size + 1 < 0x1_0000 && |content| == g.size
  {
    ext[lp := ext[lp].(data := PutRecord(ext[lp].data, g, n, at / g.size, content))]
  }

  function AppendedFile(f: File, at: nat, count: nat): File {
    f.(recordCount := f.recordCount + 1, end := if at + count > f.end then at + count else f.end)
  }

  /** write_log_page appends a record to a log that has room, and the end of the file is moved. */
  lemma RecordAppended(ext: Flash, logSize: nat, files: seq<File>, fds: seq<Desc>, i: nat, g: Geometry, lp: int,
                       at: nat, bytes: seq<byte>, content: seq<byte>)
    requires Consistent(ext, logSize, files, fds) && IsFile(ext, logSize, files, i)
    requires CanAppend(ext, logSize, files[i], g, lp, at, bytes, content)
    ensures var ext' := AppendedLog(ext, files[i].recordCount, g, lp, at, content);
      var files' := files[i := AppendedFile(files[i], at, |bytes|)];
      && Consistent(ext', logSize, files', fds) && IsFile(ext', logSize, files', i)
      && Patched(Image(ext, logSize, files[i]), Image(ext', logSize, files'[i]), at, bytes)
      && OthersKept(ext, files, ext', files', logSize, i)
  {
    hide PutRecord, Newest, SeenAt;
    var f, f' := files[i], AppendedFile(files[i], at, |bytes|);
    var e := ext[f.page];
    var ext' := AppendedLog(ext, f.recordCount, g, lp, at, content);
    LogWrite(e.data, ext[lp].data, g, f.recordCount, at, bytes, content);
    assert Describes(ext', logSize, f');
    assert Patched(Image(ext, logSize, f), Image(ext', logSize, f'), at, bytes);
    FileChanged(ext, logSize, files, fds, i, lp, ext'[lp], f');
  }

  /** File i, whose log has n records, takes one more. */
  ghost predicate Appending(ext: Flash, logSize: nat, files: seq<File>, fds: seq<Desc>, i: nat, file: File, n: nat,
                            g: Geometry, lp: int, at: nat, bytes: seq<byte>) {
    && i < |files| && file == files[i].(recordCount := n) && file.modified
    && Consistent(ext, logSize, files[i := file], fds) && IsFile(ext, logSize, files[i := file], i)
    && g == LogGeometry(ext[file.page].hdr, logSize) && lp == ext[file.page].hdr.logPage && n < g.records
    && at <= file.end && at + |bytes| <= Capacity(file.maxPages) && 0 < |bytes| && at % g.size + |bytes| <= g.size
  }

  lemma AppendReady(ext: Flash, logSize: nat, files: seq<File>, fds: seq<Desc>, i: nat, file: File, n: nat,
                    g: Geometry, lp: int, at: nat, bytes: seq<byte>)
    requires Appending(ext, logSize, files, fds, i, file, n, g, lp, at, bytes)
    ensures Describes(ext, logSize, file) && file.page in ext && lp in ext && g.Ok() && g.Bytes() <= |ext[lp].data|
    ensures i < |files| && n < g.records && g.size > 0 && at % g.size + |bytes| <= g.size
    ensures Image(ext, logSize, file) == Seen(ext[file.page].data, ext[lp].data, g, n) && at / g.size + 1 < 0x1_0000
  {
    hide Seen, Consistent;
    ImageIsSeen(ext, logSize, file);
    RegionFits(at, g.size, Capacity(file.maxPages));
  }

  lemma AppendDone(ext: Flash, logSize: nat, files: seq<File>, fds: seq<Desc>, i: nat, file: File, n: nat,
                   g: Geometry, lp: int, at: nat, bytes: seq<byte>, content: seq<byte>)
    requires Appending(ext, logSize, files, fds, i, file, n, g, lp, at, bytes)
    requires Describes(ext, logSize, file) && lp in ext && g.Ok() && g.Bytes() <= |ext[lp].data|
      && at / g.size + 1 < 0x1_0000
    requires RecordFor(Image(ext, logSize, file), at, g.size, bytes, content) && |content| == g.size
    ensures var ext', files' := AppendedLog(ext, n, g, lp, at, content), files[i := files[i].(recordCount := n + 1)];
      var end := if at + |bytes| > files'[i].end then at + |bytes| else files'[i].end;
      var advanced := files'[i := files'[i].(end := end)];
      && Consistent(ext', logSize, advanced, fds) && IsFile(ext', logSize, advanced, i)
      && Patched(Image(ext, logSize, file), Image(ext', logSize, advanced[i]), at, bytes)
      && OthersKept(ext, files, ext', files', logSize, i) && LogConfig(ext', files'[i]) == LogConfig(ext, file)
  {
    hide Seen, PutRecord, Consistent, LogGeometry, OthersKept, Describes, Ends, RecordFor, Patched;
    var files1 := files[i := file];
    var files' := files[i := files[i].(recordCount := n + 1)];
    DescribesMeans(ext, logSize, file);
    SameGeometry(ext, lp, file, n, g, at, content);
    assert Appendable(ext, logSize, file, g, lp, at, bytes) by { AppendableMeans(ext, logSize, file); }
    RecordAppended(ext, logSize, files1, fds, i, g, lp, at, bytes, content);
    OthersKeptOff(ext, files1, AppendedLog(ext, n, g, lp, at, content), files1[i := AppendedFile(file, at, |bytes|)],
                  logSize, i, files[i], files'[i]);
    assert files1[i := files[i]] == files;
    assert files1[i := AppendedFile(file, at, |bytes|)][i := files'[i]] == files';
    var end := if at + |bytes| > files'[i].end then at + |bytes| else files'[i].end;
    assert files'[i := files'[i].(end := end)] == files1[i := AppendedFile(file, at, |bytes|)];
  }

  lemma TwoWrites(ext: Flash, lp: int, n: nat, g: Geometry, at: nat, content: seq<byte>)
    requires lp in ext && g.Ok() && n < g.records && g.Bytes() <= |ext[lp].data|
    requires at / g.size + 1 < 0x1_0000 && |content| == g.size
    ensures var log, word := ext[lp].data, WordBytes(at / g.size + 1);
      && 2 * n + |word| <= |log| && g.Slot(n) + |content| <= |log|
      && AppendedLog(ext, n, g, lp, at, content) ==
         ext[lp := ext[lp].(data := Put(log, 2 * n, word))]
            [lp := ext[lp].(data := Put(Put(log, 2 * n, word), g.Slot(n), content))]
  {
    TwoPuts(ext[lp].data, g, n, at / g.size, content);
  }

  lemma AppendableMeans(ext: Flash, logSize: nat, f: File)
    requires Describes(ext, logSize, f) && f.modified
    ensures f.page in ext && ext[f.page].hdr.logPage in ext
  {}

  lemma SameGeometry(ext: Flash, lp: int, f: File, n: nat, g: Geometry, at: nat, content: seq<byte>)
    requires lp in ext && g.Ok() && n < g.records && g.Bytes() <= |ext[lp].data|
    requires at / g.size + 1 < 0x1_0000 && |content| == g.size
    ensures LogConfig(AppendedLog(ext, n, g, lp, at, content), f) == LogConfig(ext, f)
  {
    hide PutRecord;
  }

  /** page_count */
  function PageCount(size: nat): (pages: nat)
    ensures pages > 0 && size <= Capacity(pages) && (pages > 1 ==> size > Capacity(pages - 1))
  {
    (size + HEADER_SIZE + PAGE_SIZE - 1) / PAGE_SIZE
  }

  /** The pages that create_log asks for. */
  function LogPages(h: Header, logSize: nat): nat {
    PageCount(LogGeometry(h, logSize).Bytes())
  }

  /** The pages of a file or of its log, whichever are more. */
  function BulkOf(ext: Flash, logSize: nat, f: File): nat
    requires f.page in ext
  {
    Max(f.maxPages, LogPages(ext[f.page].hdr, logSize))
  }

  lemma LogPagesHold(h: Header, logSize: nat)
    ensures LogPages(h, logSize) > 0 && LogGeometry(h, logSize).Bytes() <= Capacity(LogPages(h, logSize))
  {}

  /** The header that links a log. */
  lemma LogHeader(ext: Flash, f: File, h: Header, lp: nat)
    requires f.page in ext && h == ext[f.page].hdr && lp !in ext
    ensures var h' := h.(valid := true, modified := true, logPage := lp);
      && h'.Active() == h.Active() && h'.valid && h'.maxPages == h.maxPages
      && forall e: Flash | f.page in e && e[f.page].hdr == h' :: LogConfig(e, f) == LogConfig(ext, f)
    ensures f.page != lp
  {}

  /** What reserve and load_file leave in slot s. */
  function Loaded(page: int, pages: nat): File {
    File(page, 0, pages, -1, 0, false)
  }

  /** How the growing loop of cfs_write begins: the pages of the file, the bytes that it must hold, whether one doubling
      is enough and can be had, and whether there are pages for all doublings. */
  datatype GrowStart = GrowStart(pages: nat, limit: nat, once: bool, can: bool, enough: bool, means: nat)

  /** Where it has got to. */
  ghost predicate Growing(st: GrowStart, ok: bool, pages: nat, canNow: bool, means: nat) {
    && 0 < st.pages <= pages
    && (ok ==> Grown(pages, st.limit) == Grown(st.pages, st.limit))
    && (st.once ==>
          if ok && pages == st.pages then st.can == canNow else ok == st.can && (ok ==> pages == st.pages * 2))
    && (st.enough ==> ok && means >= st.means - 2 * (pages - st.pages))
  }

  lemma GrowingStart(st: GrowStart)
    requires st.pages > 0
    ensures Growing(st, true, st.pages, st.can, st.means)
  {}

  /** One doubling. */
  lemma GrowingStep(st: GrowStart, pages: nat, canNow: bool, means: nat, ok: bool, pages': nat, canNext: bool,
                    means': nat)
    requires Growing(st, true, pages, canNow, means) && pages * PAGE_SIZE < st.limit
    requires st.once ==> st.limit <= st.pages * 2 * PAGE_SIZE
    requires st.enough ==> st.means > 4 * pages && (means > 2 * pages ==> ok && means' >= means - 2 * pages)
    requires pages' == (if ok then pages * 2 else pages) && (pages == st.pages ==> ok == canNow)
    ensures Growing(st, ok, pages', canNext, means')
  {
    GrownStep(pages, st.limit);
  }

  lemma GrowingDone(st: GrowStart, ok: bool, pages: nat, canNow: bool, means: nat)
    requires Growing(st, ok, pages, canNow, means)
    ensures ok && pages * PAGE_SIZE >= st.limit ==> pages == Grown(st.pages, st.limit)
    ensures st.once && (!ok || pages > st.pages) ==> ok == st.can
    ensures 0 < st.pages <= pages && (st.enough ==> ok && means >= st.means - 2 * (pages - st.pages))
  {}

  /** The slot that load_file takes: the first that caches nothing, or else the last that is not referenced. */
  predicate TakenSlot(files: seq<File>, i: int) {
    && 0 <= i < |files| && files[i].references == 0
    && if files[i].maxPages == 0 then forall k | 0 <= k < i :: files[k].maxPages != 0
       else
         && (forall k | 0 <= k < |files| :: files[k].maxPages != 0)
         && (forall k | i < k < |files| :: files[k].references != 0)
  }

  /** create_log: a log extent for file i, in slot s of the cache. */
  lemma LogCreated(ext: Flash, logSize: nat, files: seq<File>, fds: seq<Desc>, i: nat, s: nat, lp: nat, pages: nat,
                   ext': Flash, files': seq<File>)
    requires Consistent(ext, logSize, files, fds) && IsFile(ext, logSize, files, i)
    requires s < |files| && files[s].references == 0 && s != i && lp !in ext && !files[i].modified
    requires pages > 0 && LogGeometry(ext[files[i].page].hdr, logSize).Bytes() <= Capacity(pages)
    requires var f := files[i]; var e := ext[f.page];
      && ext' == ext[lp := Extent(FileHeader(e.hdr.name, pages, true), Zeros(Capacity(pages)))]
                    [f.page := e.(hdr := e.hdr.(valid := true, modified := true, logPage := lp))]
      && files' == files[s := Loaded(lp, pages)][i := f.(modified := true, recordCount := 0)]
    ensures Consistent(ext', logSize, files', fds) && IsFile(ext', logSize, files', i)
    ensures Image(ext', logSize, files'[i]) == Image(ext, logSize, files[i])
    ensures OthersKept(ext, files, ext', files', logSize, i)
  {
    hide Describes, Ends, Image, SlotOk, FdsOk, References, FlashOk, LogGeometry;
    var f, f' := files[i], files'[i];
    DescribesMeans(ext, logSize, f);
    LogFlash(ext, f.page, lp, pages, ext');
    LogStarts(ext, logSize, f, lp, pages, ext', f');
    forall k | 0 <= k < |files| && k != i && k != s
      ensures SlotOk(ext', logSize, files[k]) && (Live(files[k]) ==> files[k].page != lp)
      ensures files[k].references > 0 ==>
        && Describes(ext, logSize, files[k]) && Describes(ext', logSize, files[k])
        && LogConfig(ext', files[k]) == LogConfig(ext, files[k])
        && Image(ext', logSize, files[k]) == Image(ext, logSize, files[k])
    {
      hide Describes, LogGeometry;
      LiveSlot(ext, logSize, files[k]);
      OtherSlot(ext, ext', logSize, files[k]);
    }
    NewSlot(ext', logSize, f');
    LogSlotNew(ext', logSize, files'[s]);
    SameDescs(files, fds, files');
  }

  lemma LogSlotNew(ext: Flash, logSize: nat, f: File)
    requires f.page in ext && ext[f.page].hdr.log && f.references == 0
    ensures SlotOk(ext, logSize, f)
  {}

  lemma LogFlash(ext: Flash, p: int, lp: nat, pages: nat, ext': Flash)
    requires FlashOk(ext) && p in ext && !ext[p].hdr.log && lp !in ext && pages > 0
    requires var e := ext[p];
      ext' == ext[lp := Extent(FileHeader(e.hdr.name, pages, true), Zeros(Capacity(pages)))]
                 [p := e.(hdr := e.hdr.(valid := true, modified := true, logPage := lp))]
    ensures FlashOk(ext')
    ensures forall r | r in ext && r != p :: r in ext' && ext'[r] == ext[r]
    ensures lp in ext' && ext'[lp].hdr.log && forall r | r in ext && !ext[r].hdr.log && ext[r].hdr.modified ::
      ext[r].hdr.logPage in ext
    ensures forall r | r in ext && !ext[r].hdr.log && ext[r].hdr.modified :: ext[r].hdr.logPage != p
  {
    var log := Extent(FileHeader(ext[p].hdr.name, pages, true), Zeros(Capacity(pages)));
    LogAdded(ext, lp, log);
    hide FlashOk;
    LogLinked(ext[lp := log], p, lp);
    LogsElsewhere(ext, p);
  }

  lemma LogsElsewhere(ext: Flash, p: int)
    requires FlashOk(ext) && p in ext && !ext[p].hdr.log
    ensures forall r | r in ext && !ext[r].hdr.log && ext[r].hdr.modified ::
      ext[r].hdr.logPage in ext && ext[r].hdr.logPage != p
  {}

  lemma LogAdded(ext: Flash, lp: int, log: Extent)
    requires FlashOk(ext) && lp !in ext && log.hdr.Active() && log.hdr.log
    requires 1 <= log.hdr.maxPages && |log.data| == Capacity(log.hdr.maxPages)
    ensures FlashOk(ext[lp := log])
    ensures forall r | r in ext && !ext[r].hdr.log && ext[r].hdr.modified :: ext[r].hdr.logPage != lp
  {}

  lemma LogLinked(ext: Flash, p: int, lp: nat)
    requires FlashOk(ext) && p in ext && !ext[p].hdr.log && lp in ext && ext[lp].hdr.log
    requires forall r | r in ext && !ext[r].hdr.log && ext[r].hdr.modified :: ext[r].hdr.logPage != lp
    ensures FlashOk(ext[p := ext[p].(hdr := ext[p].hdr.(valid := true, modified := true, logPage := lp))])
  {}

  /** A log without records hides nothing. */
  lemma LogStarts(ext: Flash, logSize: nat, f: File, lp: nat, pages: nat, ext': Flash, f': File)
    requires Describes(ext, logSize, f) && Ends(ext, logSize, f) && !f.modified && lp !in ext
    requires pages > 0 && LogGeometry(ext[f.page].hdr, logSize).Bytes() <= Capacity(pages)
    requires f' == f.(modified := true, recordCount := 0)
    requires var e := ext[f.page];
      ext' == ext[lp := Extent(FileHeader(e.hdr.name, pages, true), Zeros(Capacity(pages)))]
                 [f.page := e.(hdr := e.hdr.(valid := true, modified := true, logPage := lp))]
    ensures Describes(ext', logSize, f') && Image(ext', logSize, f') == Image(ext, logSize, f)
      && Ends(ext', logSize, f')
  {}

  /** What remove_by_page does to a slot that describes the removed extent. */
  function Dropped(files: seq<File>, p: int): (r: seq<File>)
    ensures |r| == |files|
  {
    seq(|files|, k requires 0 <= k < |files| =>
      if files[k].page == p then files[k].(page := -1, references := 0, maxPages := 0) else files[k])
  }

  /** The pages that go when the extent at page p is removed together with its log. */
  function WithLog(ext: Flash, p: int): set<int>
    requires p in ext
  {
    if ext[p].hdr.modified then {p, ext[p].hdr.logPage} else {p}
  }

  function DroppedWithLog(ext: Flash, files: seq<File>, p: int): (r: seq<File>)
    requires p in ext
    ensures |r| == |files|
  {
    Dropped(if ext[p].hdr.modified then Dropped(files, ext[p].hdr.logPage) else files, p)
  }

  /** The header that merge_log gives to the new extent. */
  function MergedHeader(h: Header, pages: nat): Header {
    FileHeader(h.name, pages, false).(logRecords := h.logRecords, logRecordSize := h.logRecordSize)
  }

  /** The flash after merge_log: the new extent at page q holds the bytes that were seen, and the old
      extent at page p is gone with its log. */
  ghost predicate MergedFlash(ext: Flash, p: int, q: int, pages: nat, contents: seq<byte>, ext': Flash) {
    && p in ext && q !in ext && pages > 0 && |contents| <= Capacity(pages)
    && ext' ==
       (ext - WithLog(ext, p))
         [q := Extent(MergedHeader(ext[p].hdr, pages), contents + Zeros(Capacity(pages) - |contents|))]
  }

  lemma MergedFlashOk(ext: Flash, p: int, q: int, pages: nat, contents: seq<byte>, ext': Flash)
    requires FlashOk(ext) && MergedFlash(ext, p, q, pages, contents, ext') && !ext[p].hdr.log
    ensures FlashOk(ext')
    ensures forall r | r in ext' && r != q :: r in ext && ext'[r] == ext[r]
    ensures forall r | r in ext && !ext[r].hdr.log && r != p :: r in ext' && ext'[r] == ext[r]
    ensures forall r | r in ext && !ext[r].hdr.log && r != p && ext[r].hdr.modified ::
      ext[r].hdr.logPage in ext' && ext'[ext[r].hdr.logPage] == ext[ext[r].hdr.logPage]
  {
    var gone := WithLog(ext, p);
    forall r | r in ext && !ext[r].hdr.log && r != p ensures r !in gone {
    }
    forall r | r in ext && !ext[r].hdr.log && r != p && ext[r].hdr.modified
      ensures ext[r].hdr.logPage !in gone && ext[r].hdr.logPage != q
    {
    }
  }

  function DroppedSlot(f: File, gone: set<int>): File {
    if f.page in gone then f.(page := -1, references := 0, maxPages := 0) else f
  }

  /** Another slot keeps its file, unless it described the log that is gone. */
  lemma MergedSlot(ext: Flash, logSize: nat, p: int, q: int, pages: nat, contents: seq<byte>, ext': Flash, f: File,
                   f': File)
    requires FlashOk(ext) && MergedFlash(ext, p, q, pages, contents, ext') && !ext[p].hdr.log
    requires SlotOk(ext, logSize, f) && (Live(f) ==> f.page != p)
    requires f' == DroppedSlot(f, WithLog(ext, p))
    ensures SlotOk(ext', logSize, f') && f'.references == f.references
    ensures f.references > 0 ==>
      && f' == f && Describes(ext, logSize, f) && Describes(ext', logSize, f)
      && LogConfig(ext', f) == LogConfig(ext, f) && Image(ext', logSize, f) == Image(ext, logSize, f)
  {
    hide Describes, Ends, Image;
    DescribesMeans(ext, logSize, f);
    MergedFlashOk(ext, p, q, pages, contents, ext');
    if Live(f) && f.page !in WithLog(ext, p) {
      SlotFrame(ext, ext', logSize, f);
    }
  }

  /** The new extent holds the file. */
  lemma MergedFile(ext: Flash, logSize: nat, f: File, q: int, pages: nat, ext': Flash)
    requires Describes(ext, logSize, f) && Ends(ext, logSize, f) && pages >= f.maxPages
    requires MergedFlash(ext, f.page, q, pages, Contents(ext, logSize, f), ext')
    requires Capacity(pages) <= 0xFFFE * LogGeometry(ext[f.page].hdr, logSize).size
    ensures var f' := File(q, f.end, pages, -1, f.references, false);
      && Describes(ext', logSize, f') && Ends(ext', logSize, f')
      && Contents(ext', logSize, f') == Contents(ext, logSize, f)
  {
    hide Seen;
  }

  /** The slots after merge_log. */
  lemma DroppedFiles(ext: Flash, files: seq<File>, i: nat, s: nat, to: File, files': seq<File>)
    requires i < |files| && s < |files| && s != i && files[i].page in ext && to.page !in WithLog(ext, files[i].page)
    requires files' == DroppedWithLog(ext, files[s := to], files[i].page)
    ensures |files'| == |files| && files'[s] == to && files'[i] == files[i].(page := -1, references := 0, maxPages := 0)
    ensures forall k | 0 <= k < |files| && k != i && k != s ::
      files'[k] == DroppedSlot(files[k], WithLog(ext, files[i].page))
  {}

  /** merge_log moves file i to slot s. */
  lemma Merged(ext: Flash, logSize: nat, files: seq<File>, fds: seq<Desc>, i: nat, s: nat, q: int, pages: nat,
               ext': Flash, files': seq<File>)
    requires Consistent(ext, logSize, files, fds) && IsFile(ext, logSize, files, i)
    requires s < |files| && s != i && files[s].references == 0 && pages >= files[i].maxPages
    requires var f := files[i];
      && MergedFlash(ext, f.page, q, pages, Contents(ext, logSize, f), ext')
      && Capacity(pages) <= 0xFFFE * LogGeometry(ext[f.page].hdr, logSize).size
      && files' == DroppedWithLog(ext, files[s := File(q, f.end, pages, -1, f.references, false)], f.page)
    ensures Consistent(ext', logSize, files', Redirected(fds, i, s)) && IsFile(ext', logSize, files', s)
    ensures Contents(ext', logSize, files'[s]) == Contents(ext, logSize, files[i])
    ensures files'[s] == File(q, files[i].end, pages, -1, files[i].references, false)
    ensures files'[i] ==
      FREE_FILE.(end := files[i].end, recordCount := files[i].recordCount, modified := files[i].modified)
    ensures OthersMoved(ext, files, ext', files', logSize, i, s)
  {
    hide Describes, Ends, Image, FlashOk, FdsOk, LogGeometry, SlotOk, References, DroppedWithLog, WithLog, Redirected;
    var f, to := files[i], files'[s];
    var contents := Contents(ext, logSize, f);
    MergedStart(ext, logSize, f, q, pages, contents, ext');
    DroppedFiles(ext, files, i, s, File(q, f.end, pages, -1, f.references, false), files');
    MergedFlashOk(ext, f.page, q, pages, contents, ext');
    MergedFile(ext, logSize, f, q, pages, ext');
    forall k | 0 <= k < |files| && k != i && k != s
      ensures SlotOk(ext', logSize, files'[k]) && files'[k].references == files[k].references
      ensures Live(files'[k]) ==> files'[k] == files[k] && files[k].page in ext
      ensures files[k].references > 0 ==>
        && files'[k] == files[k] && Describes(ext, logSize, files[k]) && Describes(ext', logSize, files[k])
        && LogConfig(ext', files[k]) == LogConfig(ext, files[k])
        && Image(ext', logSize, files[k]) == Image(ext, logSize, files[k])
    {
      LiveSlot(ext, logSize, files[k]);
      MergedSlot(ext, logSize, f.page, q, pages, contents, ext', files[k], files'[k]);
    }
    MergedDescs(ext, logSize, files, fds, i, s, files');
    NewSlot(ext', logSize, to);
    FreeSlot(ext', logSize, files'[i]);
  }

  lemma MergedStart(ext: Flash, logSize: nat, f: File, q: int, pages: nat, contents: seq<byte>, ext': Flash)
    requires FlashOk(ext) && Describes(ext, logSize, f) && MergedFlash(ext, f.page, q, pages, contents, ext')
    ensures f.page in ext && !ext[f.page].hdr.log && Live(f) && q !in ext && q !in WithLog(ext, f.page)
    ensures ext[f.page].hdr.modified == f.modified
  {}

  /** The descriptors of the moved file follow it, and the counts with them. */
  lemma MergedDescs(ext: Flash, logSize: nat, files: seq<File>, fds: seq<Desc>, i: nat, s: nat, files': seq<File>)
    requires Consistent(ext, logSize, files, fds) && i < |files| == |files'| && s < |files| && s != i
    requires files[s].references == 0 && files'[s].references == files[i].references && files'[i].references == 0
    requires Live(files'[s]) && files'[s].end == files[i].end
    requires forall k | 0 <= k < |files| && k != i && k != s ::
      files'[k].references == files[k].references && (files[k].references > 0 ==> files'[k] == files[k])
    ensures forall k | 0 <= k < |files| :: files'[k].references == References(Redirected(fds, i, s), k)
    ensures forall d | 0 <= d < |fds| :: DescOk(files', Redirected(fds, i, s)[d])
    ensures FdsOk(files', Redirected(fds, i, s))
  {
    var fds' := Redirected(fds, i, s);
    forall k | 0 <= k < |files| ensures files'[k].references == References(fds', k) {
      RedirectedReferences(fds, i, s, k);
    }
    forall d | 0 <= d < |fds| && fds'[d].open ensures DescOk(files', fds'[d]) {
      Referenced(fds, d, fds[d].file);
      assert DescOk(files, fds[d]);
    }
  }

  /** The open descriptors are the same, apart from d. */
  ghost predicate OpenKept(fds: seq<Desc>, fds': seq<Desc>) {
    |fds| == |fds'| && forall d | 0 <= d < |fds| :: fds[d].open == fds'[d].open && (fds[d].open ==> fds'[d] == fds[d])
  }

  /** One descriptor and the reference count of one file change. */
  lemma DescChanged(ext: Flash, logSize: nat, files: seq<File>, fds: seq<Desc>, d: nat, new_: Desc, files': seq<File>)
    requires Consistent(ext, logSize, files, fds) && d < |fds|
    requires |files'| == |files|
    requires forall k | 0 <= k < |files| :: files'[k] == files[k].(references := files[k].references
      - (if fds[d].open && fds[d].file == k then 1 else 0) + (if new_.open && new_.file == k then 1 else 0))
    requires new_.open ==> IsFile(ext, logSize, files, new_.file) && new_.offset <= files[new_.file].end
    ensures Consistent(ext, logSize, files', fds[d := new_])
    ensures forall k | 0 <= k < |files| && IsFile(ext, logSize, files, k) ::
      IsFile(ext, logSize, files', k) && Image(ext, logSize, files'[k]) == Image(ext, logSize, files[k])
  {
    forall k | 0 <= k < |files|
      ensures SlotOk(ext, logSize, files'[k]) && files'[k].references == References(fds[d := new_], k)
      ensures IsFile(ext, logSize, files, k) ==> Image(ext, logSize, files'[k]) == Image(ext, logSize, files[k])
    {
      assert SlotOk(ext, logSize, files[k]);
      ReferencesUpdate(fds, d, new_, k);
      if fds[d].open { FileOfDesc(ext, logSize, files, fds, d); }
      if Live(files[k]) && !ext[files[k].page].hdr.log {
        assert Describes(ext, logSize, files'[k]) && Image(ext, logSize, files'[k]) == Image(ext, logSize, files[k]);
      }
    }
    var fds' := fds[d := new_];
    forall e | 0 <= e < |fds'| ensures DescOk(files', fds'[e]) {
      assert DescOk(files, fds[e]);
    }
  }

  lemma FileAdded(ext: Flash, p: int, e: Extent)
    requires FlashOk(ext) && p !in ext && e.hdr.Active() && !e.hdr.log && !e.hdr.modified
    requires 1 <= e.hdr.maxPages && |e.data| == Capacity(e.hdr.maxPages)
    requires forall q | q in ext && !ext[q].hdr.log :: ext[q].hdr.name != e.hdr.name
    ensures FlashOk(ext[p := e])
  {}

  /** reserve and load_file in cfs_open: a new empty file in slot s. */
  lemma FileCreated(ext: Flash, logSize: nat, files: seq<File>, fds: seq<Desc>, s: nat, name: string, p: int,
                    pages: nat, ext': Flash, files': seq<File>)
    requires Consistent(ext, logSize, files, fds) && s < |files| && files[s].references == 0 && p !in ext
    requires ConfigFits(logSize, pages)
    requires forall q | q in ext && !ext[q].hdr.log :: ext[q].hdr.name != name
    requires ext' == ext[p := Extent(FileHeader(name, pages, false), Zeros(Capacity(pages)))]
    requires files' == files[s := Loaded(p, pages)]
    ensures Consistent(ext', logSize, files', fds) && IsFile(ext', logSize, files', s)
    ensures Image(ext', logSize, files'[s]) == Zeros(Capacity(pages))
    ensures OthersKept(ext, files, ext', files', logSize, s)
  {
    hide SlotOk, FdsOk, References, FlashOk;
    FileAdded(ext, p, ext'[p]);
    assert Describes(ext', logSize, files'[s]);
    NewSlot(ext', logSize, files'[s]);
    forall k | 0 <= k < |files| && k != s
      ensures SlotOk(ext', logSize, files[k]) && (Live(files[k]) ==> files[k].page != p)
      ensures files[k].references > 0 ==>
        && Describes(ext, logSize, files[k]) && Describes(ext', logSize, files[k])
        && LogConfig(ext', files[k]) == LogConfig(ext, files[k])
        && Image(ext', logSize, files[k]) == Image(ext, logSize, files[k])
    {
      LiveSlot(ext, logSize, files[k]);
      OtherSlot(ext, ext', logSize, files[k]);
    }
    SameDescs(files, fds, files');
  }

  /** Writing to an extent that is not the file's or its log's leaves the file alone. */
  lemma FileElsewhere(ext: Flash, logSize: nat, f: File, q: int, e: Extent)
    requires Describes(ext, logSize, f) && Ends(ext, logSize, f) && q != f.page
    requires f.modified ==> q != ext[f.page].hdr.logPage
    ensures Describes(ext[q := e], logSize, f) && Ends(ext[q := e], logSize, f)
    ensures Contents(ext[q := e], logSize, f) == Contents(ext, logSize, f) && |Contents(ext, logSize, f)| == f.end
  {
    hide Seen, LogGeometry;
    assert Image(ext[q := e], logSize, f) == Image(ext, logSize, f);
  }

  /** One more piece of the file is copied. */
  lemma CopyMore(all: seq<byte>, offset: nat, n: nat, size: nat)
    requires offset + n <= |all| <= size
    ensures Put(all[..offset] + Zeros(size - offset), offset, all[offset..offset + n]) ==
      all[..offset + n] + Zeros(size - (offset + n))
  {}

  /** Once merge_log has reserved its new extent, the old file can still be read, and its descriptors moved. */
  lemma MoveReady(ext: Flash, logSize: nat, files: seq<File>, fds: seq<Desc>, i: nat, s: nat, q: int, e: Extent,
                  ext': Flash, files': seq<File>)
    requires Consistent(ext, logSize, files, fds) && IsFile(ext, logSize, files, i) && files[i].references > 0
    requires s < |files| && files[s].references == 0 && q !in ext && ext' == ext[q := e]
    requires files' == files[s := Loaded(q, e.hdr.maxPages)]
    ensures IsFile(ext', logSize, files', i) && Contents(ext', logSize, files'[i]) == Contents(ext, logSize, files[i])
    ensures forall d | 0 <= d < |fds| && fds[d].open :: 0 <= fds[d].file < |files| && fds[d].file != s
    ensures forall k | 0 <= k < |files| && k != i && files'[k].page == files'[i].page ::
      forall d | 0 <= d < |fds| && fds[d].open :: fds[d].file != k
  {
    SlotFrame(ext, ext', logSize, files[i]);
    forall d | 0 <= d < |fds| && fds[d].open
      ensures 0 <= fds[d].file < |files| && files[fds[d].file].references > 0 && Live(files[fds[d].file])
    {
      FileOfDesc(ext, logSize, files, fds, d);
    }
  }

  /** What merge_log has done once the old extent is gone and the new one has its header. */
  lemma MoveDone(ext1: Flash, logSize: nat, files1: seq<File>, fds1: seq<Desc>, fd: nat, i: nat, s: nat, q: int,
                 pages: nat,
                 copied: Extent, extA: Flash, filesA: seq<File>, fds2: seq<Desc>, ext: Flash, files: seq<File>)
    requires Consistent(ext1, logSize, files1, fds1) && IsFile(ext1, logSize, files1, i) && s < |files1| && s != i
    requires fd < |fds1| && fds1[fd] == Desc(true, true, false, i, 0) && files1[s].references == 0
    requires q !in ext1 && pages >= files1[i].maxPages
    requires Capacity(pages) <= 0xFFFE * LogGeometry(ext1[files1[i].page].hdr, logSize).size
    requires fds2 == fds1[fd := fds1[fd].(offset := files1[i].end)]
    requires var contents := Contents(ext1, logSize, files1[i]);
      |contents| <= Capacity(pages) && copied.data == contents + Zeros(Capacity(pages) - |contents|)
    requires extA == ext1[q := copied] && filesA == files1[s := Loaded(q, pages).(references := References(fds2, i))]
    requires ext ==
      (extA - WithLog(extA, files1[i].page))[q := copied.(hdr := MergedHeader(ext1[files1[i].page].hdr, pages))]
    requires var dropped := DroppedWithLog(extA, filesA, files1[i].page);
      files == dropped[s := dropped[s].(modified := false, end := files1[i].end)]
    ensures Consistent(ext, logSize, files, Redirected(fds2, i, s)) && IsFile(ext, logSize, files, s)
    ensures files[s] == File(q, files1[i].end, pages, -1, files1[i].references, false)
    ensures Contents(ext, logSize, files[s]) == Contents(ext1, logSize, files1[i])
    ensures OthersMoved(ext1, files1, ext, files, logSize, i, s)
    ensures forall p | p in WithLog(ext1, files1[i].page) :: p !in ext
  {
    hide Describes, Ends, Image, SlotOk, FlashOk, SlotsOk, LogGeometry, References, Redirected, OthersMoved,
      DroppedWithLog;
    var f := files1[i];
    var to := Loaded(q, pages).(references := References(fds2, i));
    DescribesMeans(ext1, logSize, f);
    DescChanged(ext1, logSize, files1, fds1, fd, fds2[fd], files1);
    assert References(fds2, i) == f.references;
    LogThere(ext1, f.page);
    DroppedFiles(extA, files1, i, s, to, DroppedWithLog(extA, filesA, f.page));
    DroppedFiles(ext1, files1, i, s, to.(end := f.end), DroppedWithLog(ext1, files1[s := to.(end := f.end)], f.page));
    assert files == DroppedWithLog(ext1, files1[s := to.(end := f.end)], f.page);
    assert MergedFlash(ext1, f.page, q, pages, Contents(ext1, logSize, f), ext);
    Merged(ext1, logSize, files1, fds2, i, s, q, pages, ext, files);
  }

  lemma FileMeans(ext: Flash, logSize: nat, files: seq<File>, fds: seq<Desc>, f: File)
    requires Consistent(ext, logSize, files, fds) && Describes(ext, logSize, f) && Ends(ext, logSize, f)
    ensures |Contents(ext, logSize, f)| == f.end <= Capacity(f.maxPages) && Live(f)
    ensures f.page in ext && !ext[f.page].hdr.log && ext[f.page].hdr.modified == f.modified
    ensures f.modified ==> ext[f.page].hdr.logPage in ext && ext[f.page].hdr.logPage != f.page
    ensures var size := ext[f.page].hdr.logRecordSize; 0 < (if size == 0 then PAGE_SIZE else size) <= 0xFFFF
  {}

  lemma GoneWithLog(ext: Flash, p: int)
    requires p in ext
    ensures p in WithLog(ext, p) && (ext[p].hdr.modified ==> ext[p].hdr.logPage in WithLog(ext, p))
  {}

  lemma MergedConfig(ext: Flash, f: File, pages: nat, ext': Flash, f': File)
    requires f.page in ext && f'.page in ext' && ext'[f'.page].hdr == MergedHeader(ext[f.page].hdr, pages)
    ensures LogConfig(ext', f') == LogConfig(ext, f)
  {}

  /** The descriptor that merge_log reads the file through moves with it. */
  lemma OwnRedirected(fds: seq<Desc>, fd: nat, i: nat, s: nat, end: nat)
    requires fd < |fds|
    ensures fds[fd := Desc(true, true, false, i, 0)][fd := Desc(true, true, false, i, end)]
         == fds[fd := Desc(true, true, false, i, end)]
    ensures Redirected(fds[fd := Desc(true, true, false, i, end)], i, s)[fd] == Desc(true, true, false, s, end)
  {}

  lemma MovedLength(ext: Flash, files: seq<File>, ext': Flash, files': seq<File>, logSize: nat, i: int, s: int)
    requires OthersMoved(ext, files, ext', files', logSize, i, s)
    ensures |files'| == |files|
  {}

  /** What merge_log has done once it has closed its descriptor. */
  lemma MergeEnds(ext: Flash, logSize: nat, files: seq<File>, fds: seq<Desc>, fd: nat, i: nat, s: nat, end: nat,
                  files1: seq<File>, ext2: Flash, files2: seq<File>, fds2: seq<Desc>, files3: seq<File>,
                    fds3: seq<Desc>)
    requires fd < |fds| && !fds[fd].open && i < |files| && s < |files| && s != i
    requires files1 == files[i := files[i].(references := files[i].references + 1)]
    requires fds2 == Redirected(fds[fd := Desc(true, true, false, i, end)], i, s)
    requires OthersMoved(ext, files1, ext2, files2, logSize, i, s) && files2[s].references == files1[i].references
    requires |files2| == |files| && files3 == files2[s := files2[s].(references := files2[s].references - 1)]
    requires fds3 == fds2[fd := fds2[fd].(open := false, file := -1)]
    ensures OpenKept(Redirected(fds, i, s), fds3) && |fds3| == |fds|
    ensures OthersMoved(ext, files, ext2, files3, logSize, i, s) && SlotLeft(files3)
    ensures |files3| == |files| && files3[s] == files2[s].(references := files[i].references)
  {
    hide Describes, Image, LogConfig;
    assert files3[i].references == 0;
  }

  lemma LogThere(ext: Flash, p: int)
    requires FlashOk(ext) && p in ext && !ext[p].hdr.log
    ensures forall r | r in WithLog(ext, p) :: r in ext
  {}

  /** A file that stays open keeps its identity: the descriptors of file i0 are now those of slot i, all
      other descriptors are the same, and so are the other open files, byte for byte. */
  ghost predicate Carried(ext0: Flash, files0: seq<File>, fds0: seq<Desc>, i0: int,
                          ext: Flash, files: seq<File>, fds: seq<Desc>, i: int, logSize: nat, fd: int) {
    && |files| == |files0| && |fds| == |fds0| && 0 <= i0 < |files| && 0 <= i < |files| && 0 <= fd < |fds|
    && fds0[fd].open && fds0[fd].file == i0 && fds[fd] == fds0[fd].(file := i, offset := fds[fd].offset)
    && (forall d | 0 <= d < |fds| :: fds[d].open == fds0[d].open)
    && (forall d | 0 <= d < |fds| && fds0[d].open && d != fd ::
          fds[d] == if fds0[d].file == i0 then fds0[d].(file := i) else fds0[d])
    && (forall k | 0 <= k < |files| && k != i0 && files0[k].references > 0 ::
          && k != i && files[k] == files0[k] && Describes(ext0, logSize, files0[k])
             && Describes(ext, logSize, files0[k])
          && LogConfig(ext, files0[k]) == LogConfig(ext0, files0[k])
          && Image(ext, logSize, files0[k]) == Image(ext0, logSize, files0[k]))
    && files[i].references == files0[i0].references && LogConfig(ext, files[i]) == LogConfig(ext0, files0[i0])
  }

  lemma CarriedBegin(ext: Flash, files: seq<File>, fds: seq<Desc>, logSize: nat, fd: int)
    requires Consistent(ext, logSize, files, fds) && 0 <= fd < |fds| && fds[fd].open
    ensures Carried(ext, files, fds, fds[fd].file, ext, files, fds, fds[fd].file, logSize, fd)
  {
    assert DescOk(files, fds[fd]);
    forall k | 0 <= k < |files| && files[k].references > 0 ensures Describes(ext, logSize, files[k]) {
      assert SlotOk(ext, logSize, files[k]);
    }
  }

  /** The file changes in place. */
  lemma CarriedKept(ext0: Flash, files0: seq<File>, fds0: seq<Desc>, i0: int, ext: Flash, files: seq<File>,
                    fds: seq<Desc>, i: int, logSize: nat, fd: int, ext': Flash, files': seq<File>, fds': seq<Desc>)
    requires Carried(ext0, files0, fds0, i0, ext, files, fds, i, logSize, fd)
    requires OthersKept(ext, files, ext', files', logSize, i) && files'[i].references == files[i].references
    requires LogConfig(ext', files'[i]) == LogConfig(ext, files[i])
    requires |fds'| == |fds| && fds' == fds[fd := fds[fd].(offset := fds'[fd].offset)]
    ensures Carried(ext0, files0, fds0, i0, ext', files', fds', i, logSize, fd)
  {}

  /** Only descriptors that are not open change. */
  lemma CarriedSame(ext0: Flash, files0: seq<File>, fds0: seq<Desc>, i0: int, ext: Flash, files: seq<File>,
                    fds: seq<Desc>, i: int, logSize: nat, fd: int, fds': seq<Desc>)
    requires Carried(ext0, files0, fds0, i0, ext, files, fds, i, logSize, fd) && OpenKept(fds, fds')
    ensures Carried(ext0, files0, fds0, i0, ext, files, fds', i, logSize, fd)
  {}

  /** The file moves to slot s. */
  lemma CarriedMoved(ext0: Flash, files0: seq<File>, fds0: seq<Desc>, i0: int, ext: Flash, files: seq<File>,
                     fds: seq<Desc>, i: int,
                     logSize: nat, fd: int, ext': Flash, files': seq<File>, fds': seq<Desc>, s: int)
    requires Carried(ext0, files0, fds0, i0, ext, files, fds, i, logSize, fd)
    requires FdsOk(files0, fds0)
    requires OthersMoved(ext, files, ext', files', logSize, i, s) && 0 <= s < |files|
      && files'[s].references == files[i].references
    requires LogConfig(ext', files'[s]) == LogConfig(ext, files[i])
    requires OpenKept(Redirected(fds, i, s), fds')
    ensures Carried(ext0, files0, fds0, i0, ext', files', fds', s, logSize, fd)
  {
    forall d | 0 <= d < |fds| && fds0[d].open && d != fd
      ensures fds'[d] == if fds0[d].file == i0 then fds0[d].(file := s) else fds0[d]
    {
      Referenced(fds0, d, fds0[d].file);
      assert DescOk(files0, fds0[d]);
      assert Redirected(fds, i, s)[d].open;
    }
  }

  lemma WriteBegins(ext: Flash, logSize: nat, files: seq<File>, fds: seq<Desc>, fd: nat)
    requires Consistent(ext, logSize, files, fds) && fd < |fds| && fds[fd].open
    ensures IsFile(ext, logSize, files, fds[fd].file) && fds[fd].offset <= files[fds[fd].file].end
    ensures Carried(ext, files, fds, fds[fd].file, ext, files, fds, fds[fd].file, logSize, fd)
    ensures FdsOk(files, fds)
  {
    assert DescOk(files, fds[fd]);
    FileOfDesc(ext, logSize, files, fds, fd);
    CarriedBegin(ext, files, fds, logSize, fd);
  }

  /** cfs_seek within the capacity of the file. */
  lemma SeekKeeps(ext: Flash, logSize: nat, files: seq<File>, fds: seq<Desc>, fd: nat, to: nat)
    requires Consistent(ext, logSize, files, fds) && fd < |fds| && fds[fd].open
      && IsFile(ext, logSize, files, fds[fd].file)
    requires to <= Capacity(files[fds[fd].file].maxPages)
    ensures var i := fds[fd].file; var f := files[i];
      var files' := if f.end < to then files[i := f.(end := to)] else files;
      && Consistent(ext, logSize, files', fds[fd := fds[fd].(offset := to)]) && IsFile(ext, logSize, files', i)
      && Contents(ext, logSize, files'[i]) == Contents(ext, logSize, f) + Zeros(if to > f.end then to - f.end else 0)
      && OthersKept(ext, files, ext, files', logSize, i)
  {
    var i := fds[fd].file;
    var f := files[i];
    var f' := if f.end < to then f.(end := to) else f;
    assert ext[f.page := ext[f.page]] == ext && files[i := f] == files;
    assert Describes(ext, logSize, f') && Image(ext, logSize, f') == Image(ext, logSize, f);
    FileChanged(ext, logSize, files, fds, i, f.page, ext[f.page], f');
    DescChanged(ext, logSize, files[i := f'], fds, fd, fds[fd].(offset := to), files[i := f']);
  }

  /** cfs_read only moves a descriptor. */
  lemma ReadKeeps(ext: Flash, logSize: nat, files: seq<File>, fds: seq<Desc>, fd: nat, to: nat)
    requires Consistent(ext, logSize, files, fds) && fd < |fds| && fds[fd].open
      && IsFile(ext, logSize, files, fds[fd].file)
    requires to <= files[fds[fd].file].end
    ensures Consistent(ext, logSize, files, fds[fd := fds[fd].(offset := to)])
    ensures OthersKept(ext, files, ext, files, logSize, fds[fd].file)
  {
    DescChanged(ext, logSize, files, fds, fd, fds[fd].(offset := to), files);
    CarriedBegin(ext, files, fds, logSize, fd);
  }

  lemma EndsMean(ext: Flash, logSize: nat, f: File)
    requires Describes(ext, logSize, f) && Ends(ext, logSize, f)
    ensures f.page in ext && |Contents(ext, logSize, f)| == f.end <= |ext[f.page].data|
  {}

  lemma PlainImage(ext: Flash, logSize: nat, f: File)
    requires Describes(ext, logSize, f) && Ends(ext, logSize, f) && !f.modified
    ensures f.page in ext && f.end <= |ext[f.page].data| && Contents(ext, logSize, f) == ext[f.page].data[..f.end]
  {}

  lemma ConfigByPage(ext: Flash, f: File, f': File)
    requires f'.page == f.page
    ensures LogConfig(ext, f') == LogConfig(ext, f)
  {}

  lemma KeptOpen(fds: seq<Desc>, fds': seq<Desc>, fd: nat)
    requires OpenKept(fds, fds') && fd < |fds| && fds[fd].open
    ensures |fds'| == |fds| && fds'[fd] == fds[fd]
  {}

  lemma MovedOpen(fds: seq<Desc>, i: int, s: int, fds': seq<Desc>, fd: nat)
    requires OpenKept(Redirected(fds, i, s), fds') && fd < |fds| && fds[fd].open && fds[fd].file == i
    ensures |fds'| == |fds| && fds'[fd] == fds[fd].(file := s)
  {}

  /** A change of the bytes, as seen up to the ends of the file. */
  lemma PatchedContents(ext: Flash, ext': Flash, logSize: nat, f: File, f': File, at: nat, bytes: seq<byte>)
    requires Describes(ext, logSize, f) && Ends(ext, logSize, f) && Describes(ext', logSize, f')
      && Ends(ext', logSize, f')
    requires Patched(Image(ext, logSize, f), Image(ext', logSize, f'), at, bytes)
    requires at <= f.end && f'.end == if at + |bytes| > f.end then at + |bytes| else f.end
    ensures Overwritten(Contents(ext, logSize, f), at, bytes, Contents(ext', logSize, f'))
  {
    hide Image, Describes;
    PatchedPrefix(Image(ext, logSize, f), Image(ext', logSize, f'), at, bytes, f.end, f'.end);
  }
}
