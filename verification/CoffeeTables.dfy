/** The tables of open files and descriptors of the Coffee file system (cfs-coffee.c), and what they say
    about the flash: which bytes each open file is seen to hold. */
module CoffeeTables {
  import opened Numbers
  import opened CoffeeWalk
  import opened CoffeeLog

  /** struct file. A slot with maxPages == 0 is free. */
  datatype File = File(page: int, end: nat, maxPages: nat, recordCount: int, references: int, modified: bool)

  const FREE_FILE := File(-1, 0, 0, -1, 0, false)

  /** struct file_desc; flags == COFFEE_FD_FREE is !open. */
  datatype Desc = Desc(open: bool, readable: bool, writable: bool, file: int, offset: nat)

  type Flash = map<int, Extent>

  /** Active extents: sizes, unique file names, and one log of its own for each modified file. */
  ghost predicate FlashOk(ext: Flash) {
    && (forall p | p in ext ::
          ext[p].hdr.Active() && 1 <= ext[p].hdr.maxPages && |ext[p].data| == Capacity(ext[p].hdr.maxPages))
    && (forall p, q | p in ext && q in ext && p != q && !ext[p].hdr.log && !ext[q].hdr.log ::
          ext[p].hdr.name != ext[q].hdr.name)
    && (forall p | p in ext && !ext[p].hdr.log && ext[p].hdr.modified ::
          ext[p].hdr.logPage in ext && ext[ext[p].hdr.logPage].hdr.log)
    && (forall p, q | p in ext && q in ext && p != q && !ext[p].hdr.log && !ext[q].hdr.log
          && ext[p].hdr.modified && ext[q].hdr.modified :: ext[p].hdr.logPage != ext[q].hdr.logPage)
  }

  /** A configuration whose files have no more regions, and whose logs no more records, than 16 bits can count. */
  predicate ConfigFits(logSize: nat, pages: nat) {
    PAGE_SIZE <= logSize && logSize / PAGE_SIZE <= 0x7FFF && 1 <= pages && Capacity(pages) <= 0xFFFE * PAGE_SIZE
  }

  lemma ConfigMeans(logSize: nat, pages: nat)
    requires ConfigFits(logSize, pages)
    ensures PAGE_SIZE <= logSize && 1 <= pages && Capacity(pages) <= 0xFFFE * PAGE_SIZE
  {}

  /** A cached file describes its extent, and its log if it has one. */
  ghost predicate Describes(ext: Flash, logSize: nat, f: File) {
    && f.page in ext && 1 <= f.maxPages
    && var e := ext[f.page];
    && !e.hdr.log && e.hdr.maxPages == f.maxPages && e.hdr.modified == f.modified
    && |e.data| == Capacity(f.maxPages)
    && var g := LogGeometry(e.hdr, logSize);
    && g.Ok() && g.size <= 0xFFFF && Capacity(f.maxPages) <= 0xFFFE * g.size
    && (f.modified ==>
          && e.hdr.logPage in ext && 0 <= f.recordCount <= g.records && g.Bytes() <= |ext[e.hdr.logPage].data|)
  }

  /** The bytes of a file as seen through its log, up to its capacity. */
  ghost function Image(ext: Flash, logSize: nat, f: File): (s: seq<byte>)
    requires Describes(ext, logSize, f)
    ensures |s| == Capacity(f.maxPages)
  {
    var e := ext[f.page];
    if f.modified then Seen(e.data, ext[e.hdr.logPage].data, LogGeometry(e.hdr, logSize), f.recordCount) else e.data
  }

  lemma ImageIsSeen(ext: Flash, logSize: nat, f: File)
    requires Describes(ext, logSize, f) && f.modified
    ensures f.page in ext && ext[f.page].hdr.logPage in ext
    ensures var e := ext[f.page]; var g := LogGeometry(e.hdr, logSize); var log := ext[e.hdr.logPage].data;
      && g.Ok() && 0 <= f.recordCount <= g.records && g.Bytes() <= |log| && |e.data| == Capacity(f.maxPages)
         && f.maxPages > 0
      && Image(ext, logSize, f) == Seen(e.data, log, g, f.recordCount)
  {}

  /** The end of a file lies in its extent, and nothing has been written behind it. */
  ghost predicate Ends(ext: Flash, logSize: nat, f: File)
    requires Describes(ext, logSize, f)
  {
    f.end <= Capacity(f.maxPages) && forall o | f.end <= o < Capacity(f.maxPages) :: Image(ext, logSize, f)[o] == 0
  }

  /** The contents of a file: a plain byte array. */
  ghost function Contents(ext: Flash, logSize: nat, f: File): seq<byte>
    requires Describes(ext, logSize, f) && Ends(ext, logSize, f)
  {
    Image(ext, logSize, f)[..f.end]
  }

  /** The size of the regions of a file, which a log record holds one of. */
  function RegionSize(ext: Flash, f: File): nat {
    ConfiguredSize(LogConfig(ext, f).0)
  }

  function ConfiguredSize(recordSize: nat): nat {
    if recordSize == 0 then PAGE_SIZE else recordSize
  }

  /** What was configured for the log of a file: the size of its records, and how many. */
  function LogConfig(ext: Flash, f: File): (nat, nat) {
    if f.page in ext then (ext[f.page].hdr.logRecordSize, ext[f.page].hdr.logRecords) else (0, 0)
  }

  /** The pages of a file that is doubled until it holds so many bytes: the first doubling that is enough. */
  function Grown(pages: nat, size: nat): (r: nat)
    requires pages > 0
    ensures r * PAGE_SIZE >= size && (r == pages || r * PAGE_SIZE < 2 * size)
    decreases size - pages
  {
    if size <= pages * PAGE_SIZE then pages else Grown(2 * pages, size)
  }

  lemma GrownStep(pages: nat, size: nat)
    requires pages > 0
    ensures Grown(pages, size) == if size <= pages * PAGE_SIZE then pages else Grown(2 * pages, size)
  {}

  predicate Live(f: File) { f.maxPages > 0 }

  ghost predicate SlotOk(ext: Flash, logSize: nat, f: File) {
    if Live(f) then
      f.page in ext &&
      if ext[f.page].hdr.log then f.references == 0 else Describes(ext, logSize, f) && Ends(ext, logSize, f)
    else f.references == 0
  }

  ghost predicate SlotsOk(ext: Flash, logSize: nat, files: seq<File>) {
    && (forall i | 0 <= i < |files| :: SlotOk(ext, logSize, files[i]))
    && (forall i, j | 0 <= i < |files| && 0 <= j < |files| && i != j && Live(files[i]) && Live(files[j]) ::
          files[i].page != files[j].page)
  }

  /** The number of open descriptors of file i. */
  function References(fds: seq<Desc>, i: int): nat {
    if fds == [] then 0
    else References(fds[..|fds| - 1], i) + var d := fds[|fds| - 1]; if d.open && d.file == i then 1 else 0
  }

  ghost predicate DescOk(files: seq<File>, d: Desc) {
    d.open ==> 0 <= d.file < |files| && Live(files[d.file]) && d.offset <= files[d.file].end
  }

  ghost predicate FdsOk(files: seq<File>, fds: seq<Desc>) {
    && (forall d | 0 <= d < |fds| :: DescOk(files, fds[d]))
    && (forall i | 0 <= i < |files| :: files[i].references == References(fds, i))
  }

  ghost predicate Consistent(ext: Flash, logSize: nat, files: seq<File>, fds: seq<Desc>) {
    FlashOk(ext) && SlotsOk(ext, logSize, files) && FdsOk(files, fds)
  }

  /** Not every slot is referred to. */
  ghost predicate SlotLeft(files: seq<File>) {
    exists i :: 0 <= i < |files| && files[i].references == 0
  }

  /** A descriptor is free. */
  ghost predicate FdLeft(fds: seq<Desc>) {
    exists d :: 0 <= d < |fds| && !fds[d].open
  }

  /** An open descriptor counts. */
  lemma {:induction false} Referenced(fds: seq<Desc>, d: nat, i: int)
    requires d < |fds| && fds[d].open && fds[d].file == i
    ensures References(fds, i) > 0
  {
    if d < |fds| - 1 {
      Referenced(fds[..|fds| - 1], d, i);
    }
  }

  lemma {:induction false} Unreferenced(fds: seq<Desc>, i: int)
    requires forall d | 0 <= d < |fds| && fds[d].open :: fds[d].file != i
    ensures References(fds, i) == 0
  {
    if fds != [] {
      Unreferenced(fds[..|fds| - 1], i);
    }
  }

  /** One descriptor changes. */
  lemma {:induction false} ReferencesUpdate(fds: seq<Desc>, d: nat, new_: Desc, i: int)
    requires d < |fds|
    ensures References(fds[d := new_], i) ==
      References(fds, i) - (if fds[d].open && fds[d].file == i then 1 else 0)
        + (if new_.open && new_.file == i then 1 else 0)
  {
    var n := |fds| - 1;
    if d < n {
      assert fds[d := new_][..n] == fds[..n][d := new_];
      ReferencesUpdate(fds[..n], d, new_, i);
    } else {
      assert fds[d := new_][..n] == fds[..n];
    }
  }

  /** Redirecting the descriptors of file i to slot s, which has none. */
  function Redirected(fds: seq<Desc>, i: int, s: int): (r: seq<Desc>)
    ensures |r| == |fds|
  {
    seq(|fds|, d requires 0 <= d < |fds| => if fds[d].open && fds[d].file == i then fds[d].(file := s) else fds[d])
  }

  /** The same for the first n descriptors only. */
  ghost function RedirectedTo(fds: seq<Desc>, n: nat, i: int, s: int): (r: seq<Desc>)
    ensures |r| == |fds|
  {
    seq(|fds|, d requires 0 <= d < |fds| =>
      if d < n && fds[d].open && fds[d].file == i then fds[d].(file := s) else fds[d])
  }

  lemma RedirectedMore(fds: seq<Desc>, d: nat, i: int, s: int)
    requires d < |fds|
    ensures RedirectedTo(fds, d, i, s)[d] == fds[d]
    ensures var hit := fds[d].open && fds[d].file == i;
      && References(fds[..d + 1], i) == References(fds[..d], i) + (if hit then 1 else 0)
      && RedirectedTo(fds, d + 1, i, s) == RedirectedTo(fds, d, i, s)[d := if hit then fds[d].(file := s) else fds[d]]
  {
    assert fds[..d + 1][..d] == fds[..d];
  }

  lemma {:induction false} RedirectedReferences(fds: seq<Desc>, i: int, s: int, k: int)
    requires i != s
    ensures References(Redirected(fds, i, s), k) ==
      if k == i then 0 else if k == s then References(fds, s) + References(fds, i) else References(fds, k)
  {
    if fds != [] {
      var n := |fds| - 1;
      assert Redirected(fds, i, s)[..n] == Redirected(fds[..n], i, s);
      RedirectedReferences(fds[..n], i, s, k);
    }
  }

  /** A slot only depends on its own extent and log. */
  lemma SlotFrame(ext: Flash, ext': Flash, logSize: nat, f: File)
    requires SlotOk(ext, logSize, f) && Live(f) && f.page in ext' && ext'[f.page] == ext[f.page]
    requires !ext[f.page].hdr.log && f.modified ==>
      ext[f.page].hdr.logPage in ext' && ext'[ext[f.page].hdr.logPage] == ext[ext[f.page].hdr.logPage]
    ensures SlotOk(ext', logSize, f)
    ensures !ext[f.page].hdr.log ==> Image(ext', logSize, f) == Image(ext, logSize, f)
  {
    if !ext[f.page].hdr.log {
      assert Describes(ext', logSize, f) && Image(ext', logSize, f) == Image(ext, logSize, f);
    }
  }

  /** Writing bytes into a plain byte array, over what is there and behind its end. */
  function Overwrite(s: seq<byte>, at: nat, bytes: seq<byte>): seq<byte>
    requires at <= |s|
  {
    s[..at] + bytes + if at + |bytes| < |s| then s[at + |bytes|..] else []
  }

  ghost predicate Overwritten(s: seq<byte>, at: nat, bytes: seq<byte>, t: seq<byte>) {
    at <= |s| && t == Overwrite(s, at, bytes)
  }

  lemma OverwriteNothing(s: seq<byte>, at: nat)
    requires at <= |s|
    ensures Overwrite(s, at, []) == s
  {}

  lemma NothingWritten(s: seq<byte>, at: nat)
    requires at <= |s|
    ensures Overwritten(s, at, [], s)
  {}

  lemma WrittenTwice(s: seq<byte>, at: nat, a: seq<byte>, t: seq<byte>, b: seq<byte>, u: seq<byte>)
    requires Overwritten(s, at, a, t) && Overwritten(t, at + |a|, b, u)
    ensures Overwritten(s, at, a + b, u)
  {
    OverwriteTwice(s, at, a, b);
  }

  lemma OverwriteLength(s: seq<byte>, at: nat, bytes: seq<byte>)
    requires at <= |s|
    ensures |Overwrite(s, at, bytes)| == if at + |bytes| > |s| then at + |bytes| else |s|
  {}

  lemma OverwriteTwice(s: seq<byte>, at: nat, a: seq<byte>, b: seq<byte>)
    requires at <= |s|
    ensures Overwrite(Overwrite(s, at, a), at + |a|, b) == Overwrite(s, at, a + b)
  {}

  lemma PatchedPrefix(s: seq<byte>, t: seq<byte>, at: nat, bytes: seq<byte>, end: nat, end': nat)
    requires Patched(s, t, at, bytes) && at <= end <= |s| && end' == if at + |bytes| > end then at + |bytes| else end
    ensures t[..end'] == Overwrite(s[..end], at, bytes)
  {}
}
