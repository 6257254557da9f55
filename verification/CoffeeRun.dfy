/** Any sequence of reads, writes and seeks on open Coffee files behaves like plain byte arrays. */
module CoffeeRun {
  import opened Numbers
  import opened Bits
  import opened CoffeeWalk
  import opened CoffeeLog
  import opened CoffeeTables
  import opened CoffeeSteps
  import opened CoffeeFile

  /** The specification: descriptors with offsets into shared byte arrays, which have some pages each. */
  datatype PlainDesc = PlainDesc(group: int, offset: nat, readable: bool, writable: bool)
  datatype Plain =
    Plain(descs: map<int, PlainDesc>, bytes: map<int, seq<byte>>, regions: map<int, nat>, pages: map<int, pos>)
  {
    ghost predicate Ok() {
      forall d | d in descs ::
        && descs[d].group in bytes && descs[d].group in regions && descs[d].group in pages
        && descs[d].offset <= |bytes[descs[d].group]|
    }
  }

  datatype Op =
    | ReadOp(fd: int, size: nat)
    | WriteOp(fd: int, buf: seq<byte>)
    | SeekOp(fd: int, offset: int, whence: Whence)
  datatype Out = ReadOut(n: int, buf: seq<byte>) | WriteOut(r: int) | SeekOut(r: int)

  /** Where a seek goes. */
  ghost function Target(p: Plain, fd: int, offset: int, whence: Whence): int
    requires p.Ok() && fd in p.descs
  {
    match whence
    case SeekSet => offset
    case SeekEnd => |p.bytes[p.descs[fd].group]| + offset
    case SeekCur => p.descs[fd].offset + offset
    case SeekOther => -1
  }

  /** With zeros behind the end, if it is not as long. */
  ghost function Lengthened(s: seq<byte>, n: nat): (r: seq<byte>)
    ensures |r| == Max(|s|, n)
  {
    s + Zeros(if n > |s| then n - |s| else 0)
  }

  ghost function Step(p: Plain, op: Op): (r: (Plain, Out))
    requires p.Ok() && Allowed(p, op)
    ensures r.0.Ok()
  {
    match op
    case ReadOp(fd, size) =>
      if fd !in p.descs || !p.descs[fd].readable then (p, ReadOut(-1, [])) else
      var d := p.descs[fd];
      var s := p.bytes[d.group];
      var n := if d.offset + size > |s| then |s| - d.offset else size;
      (p.(descs := p.descs[fd := d.(offset := d.offset + n)]), ReadOut(n, s[d.offset..d.offset + n]))
    case WriteOp(fd, buf) =>
      if fd !in p.descs || !p.descs[fd].writable then (p, WriteOut(-1)) else
      var d := p.descs[fd];
      (Plain(p.descs[fd := d.(offset := d.offset + |buf|)],
        p.bytes[d.group := Overwrite(p.bytes[d.group], d.offset, buf)], p.regions,
        p.pages[d.group := Grown(p.pages[d.group], |buf| + d.offset + HEADER_SIZE)]),
       WriteOut(|buf|))
    case SeekOp(fd, offset, whence) =>
      if fd !in p.descs then (p, SeekOut(-1)) else
      var d, to := p.descs[fd], Target(p, fd, offset, whence);
      if to < 0 || to > p.pages[d.group] * PAGE_SIZE then (p, SeekOut(-1)) else
      (p.(descs := p.descs[fd := d.(offset := to)], bytes := p.bytes[d.group := Lengthened(p.bytes[d.group], to)]),
       SeekOut(to))
  }

  /** Sizes are 16 bits wide, no seek goes between the capacity of the file and the end of its last page, and files stay
      below the size where the numbers of their regions, of the size that was configured for them, would wrap even after
      a last doubling. */
  ghost predicate Allowed(p: Plain, op: Op)
    requires p.Ok()
  {
    match op
    case ReadOp(fd, size) => size <= 0xFFFF
      || (fd in p.descs ==> |p.bytes[p.descs[fd].group]| - p.descs[fd].offset <= 0xFFFF)
    case WriteOp(fd, buf) => |buf| <= 0xFFFF && (fd in p.descs ==>
      2 * (|buf| + p.descs[fd].offset + HEADER_SIZE) <= 0xFFFE * p.regions[p.descs[fd].group])
    case SeekOp(fd, offset, whence) => fd in p.descs ==>
      var to, pages := Target(p, fd, offset, whence), p.pages[p.descs[fd].group];
      to <= Capacity(pages) || to > pages * PAGE_SIZE
  }

  ghost predicate AllAllowed(p: Plain, ops: seq<Op>)
    requires p.Ok()
    decreases |ops|
  {
    ops != [] ==> Allowed(p, ops[0]) && AllAllowed(Step(p, ops[0]).0, ops[1..])
  }

  ghost function Run(p: Plain, ops: seq<Op>): (r: (Plain, seq<Out>))
    requires p.Ok() && AllAllowed(p, ops)
    ensures r.0.Ok()
    decreases |ops|
  {
    if ops == [] then (p, []) else
    var first := Step(p, ops[0]);
    var rest := Run(first.0, ops[1..]);
    (rest.0, [first.1] + rest.1)
  }

  /** The descriptors of the file system give access to the byte arrays of the specification, and share
      them in the same way. */
  ghost predicate Represents(ext: Flash, logSize: nat, files: seq<File>, fds: seq<Desc>, p: Plain) {
    && p.Ok()
    && (forall d | d in p.descs :: 0 <= d < |fds| && fds[d].open)
    && (forall d | 0 <= d < |fds| && fds[d].open ::
          && d in p.descs && IsFile(ext, logSize, files, fds[d].file) && files[fds[d].file].references > 0
          && p.descs[d] == PlainDesc(p.descs[d].group, fds[d].offset, fds[d].readable, fds[d].writable)
          && p.bytes[p.descs[d].group] == Contents(ext, logSize, files[fds[d].file])
          && p.regions[p.descs[d].group] == RegionSize(ext, files[fds[d].file])
          && p.pages[p.descs[d].group] == files[fds[d].file].maxPages)
    && (forall d, e | 0 <= d < |fds| && 0 <= e < |fds| && fds[d].open && fds[e].open ::
          fds[d].file == fds[e].file <==> p.descs[d].group == p.descs[e].group)
  }

  /** The byte arrays behind the open descriptors. */
  ghost function Abstract(ext: Flash, logSize: nat, files: seq<File>, fds: seq<Desc>): Plain
    requires Consistent(ext, logSize, files, fds)
  {
    Plain(map d | 0 <= d < |fds| && fds[d].open ::
      PlainDesc(fds[d].file, fds[d].offset, fds[d].readable, fds[d].writable),
          map i | 0 <= i < |files| && IsFile(ext, logSize, files, i) :: Contents(ext, logSize, files[i]),
          map i | 0 <= i < |files| && IsFile(ext, logSize, files, i) :: RegionSize(ext, files[i]),
          map i | 0 <= i < |files| && IsFile(ext, logSize, files, i) :: files[i].maxPages as pos)
  }

  lemma AbstractRepresents(ext: Flash, logSize: nat, files: seq<File>, fds: seq<Desc>)
    requires Consistent(ext, logSize, files, fds)
    ensures Represents(ext, logSize, files, fds, Abstract(ext, logSize, files, fds))
  {
    forall d | 0 <= d < |fds| && fds[d].open
      ensures IsFile(ext, logSize, files, fds[d].file) && files[fds[d].file].references > 0
        && fds[d].offset <= files[fds[d].file].end
    {
      FileOfDesc(ext, logSize, files, fds, d);
      assert DescOk(files, fds[d]);
    }
  }

  /** A write through fd, and a move of its file, as seen from all descriptors. */
  lemma WriteRepresents(ext0: Flash, logSize: nat, files0: seq<File>, fds0: seq<Desc>, p: Plain, fd: nat,
                        ext: Flash, files: seq<File>, fds: seq<Desc>, s: seq<byte>, pages: pos)
    requires Represents(ext0, logSize, files0, fds0, p) && fd < |fds0| == |fds| && fds0[fd].open
    requires Carried(ext0, files0, fds0, fds0[fd].file, ext, files, fds, fds[fd].file, logSize, fd)
    requires IsFile(ext, logSize, files, fds[fd].file) && Contents(ext, logSize, files[fds[fd].file]) == s
    requires fds[fd].offset <= |s| && |s| >= |p.bytes[p.descs[fd].group]| && files[fds[fd].file].maxPages == pages
    ensures Represents(ext, logSize, files, fds,
      Plain(p.descs[fd := p.descs[fd].(offset := fds[fd].offset)], p.bytes[p.descs[fd].group := s], p.regions,
            p.pages[p.descs[fd].group := pages]))
  {
    hide Describes, Ends, Image, Contents, ConfiguredSize, LogConfig;
    forall d | 0 <= d < |fds| && fds[d].open && fds0[d].file != fds0[fd].file
      ensures IsFile(ext, logSize, files, fds[d].file) && files[fds[d].file] == files0[fds0[d].file]
      ensures Contents(ext, logSize, files[fds[d].file]) == Contents(ext0, logSize, files0[fds0[d].file])
    {
      SameContents(ext0, ext, logSize, files0[fds0[d].file]);
    }
  }

  lemma SameContents(ext: Flash, ext': Flash, logSize: nat, f: File)
    requires Describes(ext, logSize, f) && Describes(ext', logSize, f)
      && Image(ext', logSize, f) == Image(ext, logSize, f)
    requires Ends(ext, logSize, f)
    ensures Live(f) && Ends(ext', logSize, f) && Contents(ext', logSize, f) == Contents(ext, logSize, f)
  {
    hide Image;
  }

  /** What a descriptor stands for. */
  lemma RepresentsAt(ext: Flash, logSize: nat, files: seq<File>, fds: seq<Desc>, p: Plain, fd: int)
    requires Represents(ext, logSize, files, fds, p)
    ensures p.Ok() && (fd in p.descs <==> 0 <= fd < |fds| && fds[fd].open)
    ensures fd in p.descs ==>
      && IsFile(ext, logSize, files, fds[fd].file) && p.descs[fd].group in p.bytes && p.descs[fd].group in p.regions
      && p.descs[fd] == PlainDesc(p.descs[fd].group, fds[fd].offset, fds[fd].readable, fds[fd].writable)
      && p.bytes[p.descs[fd].group] == Contents(ext, logSize, files[fds[fd].file])
      && p.regions[p.descs[fd].group] == RegionSize(ext, files[fds[fd].file])
      && p.descs[fd].group in p.pages && p.pages[p.descs[fd].group] == files[fds[fd].file].maxPages
      && fds[fd].offset <= |p.bytes[p.descs[fd].group]|
      && |p.bytes[p.descs[fd].group]| == files[fds[fd].file].end <= Capacity(files[fds[fd].file].maxPages)
      && files[fds[fd].file].page in ext
      && RegionSize(ext, files[fds[fd].file]) == LogGeometry(ext[files[fds[fd].file].page].hdr, logSize).size
  {}

  /** One descriptor moves, and its file may have got longer. */
  lemma OffsetRepresents(ext: Flash, logSize: nat, files: seq<File>, fds: seq<Desc>, p: Plain, fd: nat, offset: nat,
                         files': seq<File>, s: seq<byte>)
    requires Represents(ext, logSize, files, fds, p) && fd < |fds| && fds[fd].open
    requires OthersKept(ext, files, ext, files', logSize, fds[fd].file) && IsFile(ext, logSize, files', fds[fd].file)
    requires files'[fds[fd].file] == files[fds[fd].file].(end := files'[fds[fd].file].end)
    requires Contents(ext, logSize, files'[fds[fd].file]) == s && offset <= |s|
    requires |s| >= |p.bytes[p.descs[fd].group]|
    ensures Represents(ext, logSize, files', fds[fd := fds[fd].(offset := offset)],
                       p.(descs := p.descs[fd := p.descs[fd].(offset := offset)],
                          bytes := p.bytes[p.descs[fd].group := s]))
  {
    hide Describes, Ends, Image, Contents;
    forall d | 0 <= d < |fds| && fds[d].open && fds[d].file != fds[fd].file
      ensures Contents(ext, logSize, files'[fds[d].file]) == Contents(ext, logSize, files[fds[d].file])
    {
      SameContents(ext, ext, logSize, files[fds[d].file]);
    }
  }

  /** No open file, and no log of one, has more than so many pages. */
  ghost predicate Compact(ext: Flash, logSize: nat, files: seq<File>, fds: seq<Desc>, m: nat) {
    forall d | 0 <= d < |fds| && fds[d].open ::
      0 <= fds[d].file < |files| && files[fds[d].file].page in ext && BulkOf(ext, logSize, files[fds[d].file]) <= m
  }

  /** A write does not make its file grow beyond so many pages. */
  ghost predicate Within(p: Plain, op: Op, m: nat) {
    op.WriteOp? && op.fd in p.descs ==> 2 * (|op.buf| + p.descs[op.fd].offset + HEADER_SIZE) / PAGE_SIZE <= m
  }

  ghost predicate AllWithin(p: Plain, ops: seq<Op>, m: nat)
    requires p.Ok() && AllAllowed(p, ops)
    decreases |ops|
  {
    ops != [] ==> Within(p, ops[0], m) && AllWithin(Step(p, ops[0]).0, ops[1..], m)
  }

  /** The pages that are enough for an operation. */
  function CostOf(op: Op, m: nat): nat {
    if op.WriteOp? then 2 * m * (|op.buf| + 1) else 0
  }

  function Cost(ops: seq<Op>, m: nat): nat {
    if ops == [] then 0 else CostOf(ops[0], m) + Cost(ops[1..], m)
  }

  /** A descriptor to merge logs through is free, and there are more pages and a slot to be had than so many. */
  ghost predicate Roomy(fs: FileSystem, m: nat, pages: nat)
    reads fs, fs.dev.volume, fs.dev.volume.flash
  {
    FdLeft(fs.fds) && Compact(fs.ext, fs.logSize, fs.files, fs.fds, m) && fs.Means() > pages
  }

  lemma RoomyMeans(fs: FileSystem, m: nat, pages: nat)
    ensures Roomy(fs, m, pages) <==>
      FdLeft(fs.fds) && Compact(fs.ext, fs.logSize, fs.files, fs.fds, m) && fs.Means() > pages
  {
    hide FdLeft, Compact, FileSystem.Means;
  }

  /** A descriptor and the end of its file move. */
  lemma MovedCompact(ext: Flash, logSize: nat, files: seq<File>, fds: seq<Desc>, fd: nat, d: Desc, files': seq<File>,
                     m: nat)
    requires fd < |fds| && fds[fd].open && d.open && d.file == fds[fd].file && |files'| == |files|
    requires forall i | 0 <= i < |files| :: files'[i] == files[i].(end := files'[i].end)
    ensures Compact(ext, logSize, files, fds, m) ==> Compact(ext, logSize, files', fds[fd := d], m)
    ensures FdLeft(fds) ==> FdLeft(fds[fd := d])
    ensures SlotLeft(files) ==> SlotLeft(files')
  {
    hide LogPages;
    if k :| 0 <= k < |fds| && !fds[k].open { assert !fds[fd := d][k].open; }
    if k :| 0 <= k < |files| && files[k].references == 0 { assert files'[k].references == 0; }
  }

  /** A file that a write may have moved. */
  lemma CarriedCompact(ext0: Flash, files0: seq<File>, fds0: seq<Desc>, ext: Flash, files: seq<File>, fds: seq<Desc>,
                       logSize: nat, fd: nat, m: nat)
    requires fd < |fds0| == |fds| && Compact(ext0, logSize, files0, fds0, m)
    requires Carried(ext0, files0, fds0, fds0[fd].file, ext, files, fds, fds[fd].file, logSize, fd)
    requires forall d | 0 <= d < |fds0| && fds0[d].open ::
      0 <= fds0[d].file < |files0| && files0[fds0[d].file].references > 0
    requires 0 <= fds[fd].file < |files| && files[fds[fd].file].page in ext
      && BulkOf(ext, logSize, files[fds[fd].file]) <= m
    ensures Compact(ext, logSize, files, fds, m)
  {
    hide Image, LogPages, BulkOf;
    forall d | 0 <= d < |fds| && fds[d].open && fds[d].file != fds[fd].file
      ensures 0 <= fds[d].file < |files| && files[fds[d].file].page in ext
        && BulkOf(ext, logSize, files[fds[d].file]) <= m
    {
      assert fds0[d].open && fds0[d].file == fds[d].file != fds0[fd].file;
      DescribesMeans(ext, logSize, files[fds[d].file]);
      SameBulk(ext0, ext, logSize, files[fds[d].file]);
    }
  }

  lemma SameBulk(ext: Flash, ext': Flash, logSize: nat, f: File)
    requires f.page in ext && f.page in ext' && LogConfig(ext', f) == LogConfig(ext, f)
    ensures BulkOf(ext', logSize, f) == BulkOf(ext, logSize, f)
  {}

  method ExecuteRead(fs: FileSystem, fd: int, size: nat, ghost p: Plain, ghost m: nat, ghost pages: nat)
      returns (out: Out)
    requires fs.Valid() && p.Ok() && Represents(fs.ext, fs.logSize, fs.files, fs.fds, p) && Allowed(p, ReadOp(fd, size))
    modifies fs, fs.dev.volume, fs.dev.volume.flash
    ensures fs.Valid() && fs.starved == old(fs.starved)
    ensures out == Step(p, ReadOp(fd, size)).1
    ensures Represents(fs.ext, fs.logSize, fs.files, fs.fds, Step(p, ReadOp(fd, size)).0)
    ensures old(Roomy(fs, m, pages)) ==> Roomy(fs, m, pages)
  {
    hide Consistent, Describes, Ends, Image, Contents, Represents, OthersKept, RegionSize, LogConfig, Carried, Allowed,
      FileSystem.Backed, Compact, FdLeft, FileSystem.Means;
    AllowedRead(p, fd, size);
    RepresentsAt(fs.ext, fs.logSize, fs.files, fs.fds, p, fd);
    ghost var fds := fs.fds;
    var n, buf := fs.Read(fd, size);
    out := ReadOut(n, buf);
    if n >= 0 {
      assert p.bytes[p.descs[fd].group := p.bytes[p.descs[fd].group]] == p.bytes;
      ReadKeeps(fs.ext, fs.logSize, fs.files, fds, fd, fds[fd].offset + n);
      OffsetRepresents(fs.ext, fs.logSize, fs.files, fds, p, fd, fds[fd].offset + n, fs.files,
        p.bytes[p.descs[fd].group]);
      MovedCompact(fs.ext, fs.logSize, fs.files, fds, fd, fds[fd].(offset := fds[fd].offset + n), fs.files, m);
    }
  }

  lemma AllowedRead(p: Plain, fd: int, size: nat)
    requires p.Ok() && Allowed(p, ReadOp(fd, size))
    ensures size <= 0xFFFF || (fd in p.descs ==> |p.bytes[p.descs[fd].group]| - p.descs[fd].offset <= 0xFFFF)
  {}

  /** A write fails for the reason that Short gives, and not if there is enough of everything. */
  method ExecuteWrite(fs: FileSystem, fd: int, buf: seq<byte>, ghost p: Plain, ghost m: nat, ghost pages: nat)
      returns (out: Out, ok: bool, ghost left: nat)
    requires fs.Valid() && p.Ok() && Represents(fs.ext, fs.logSize, fs.files, fs.fds, p) && Allowed(p, WriteOp(fd, buf))
    modifies fs, fs.dev.volume, fs.dev.volume.flash
    ensures fs.Valid() && (!ok ==> fs.starved) && (ok ==> fs.starved == old(fs.starved))
    ensures !ok ==> fs.FileOk(fd) && left <= |buf| && fs.Short(fd, left)
    ensures ok ==> out == Step(p, WriteOp(fd, buf)).1
    ensures ok ==> Represents(fs.ext, fs.logSize, fs.files, fs.fds, Step(p, WriteOp(fd, buf)).0)
    ensures old(Roomy(fs, m, CostOf(WriteOp(fd, buf), m) + pages)) && Within(p, WriteOp(fd, buf), m) ==>
      ok && Roomy(fs, m, pages)
  {
    hide *;
    AllowedWrite(p, fd, buf);
    RepresentsAt(fs.ext, fs.logSize, fs.files, fs.fds, p, fd);
    StepWrite(p, fd, buf);
    RoomyMeans(fs, m, CostOf(WriteOp(fd, buf), m) + pages);
    OpenAre(fs, fd);
    ghost var ext0, files0, fds0 := fs.ext, fs.files, fs.fds;
    var writable := 0 <= fd < |fs.fds| && fs.fds[fd].open && fs.fds[fd].writable;
    if writable {
      FileSaid(fs, fd);
      MostWithin(fs, p, fd, buf, m);
    }
    var r, written := fs.Write(fd, buf);
    out, ok, left := WriteOut(r), !writable || (r == |buf| && written == |buf|), |buf| - written;
    RoomyMeans(fs, m, pages);
    assert buf[..|buf|] == buf;
    if writable && ok {
      FileSaid(fs, fd);
      OverwriteLength(p.bytes[p.descs[fd].group], p.descs[fd].offset, buf);
      WriteRepresents(ext0, fs.logSize, files0, fds0, p, fd, fs.ext, fs.files, fs.fds, fs.ContentsOf(fd),
        fs.files[fs.fds[fd].file].maxPages);
      if Compact(ext0, fs.logSize, files0, fds0, m) && BulkOf(fs.ext, fs.logSize, fs.files[fs.fds[fd].file]) <= m {
        CarriedCompact(ext0, files0, fds0, fs.ext, fs.files, fs.fds, fs.logSize, fd, m);
      }
    }
  }

  lemma AllowedWrite(p: Plain, fd: int, buf: seq<byte>)
    requires p.Ok() && Allowed(p, WriteOp(fd, buf))
    ensures |buf| <= 0xFFFF
    ensures fd in p.descs ==> 2 * (|buf| + p.descs[fd].offset + HEADER_SIZE) <= 0xFFFE * p.regions[p.descs[fd].group]
  {}

  lemma StepWrite(p: Plain, fd: int, buf: seq<byte>)
    requires p.Ok() && Allowed(p, WriteOp(fd, buf))
    ensures Step(p, WriteOp(fd, buf)) ==
      if fd !in p.descs || !p.descs[fd].writable then (p, WriteOut(-1)) else
      var d := p.descs[fd];
      (Plain(p.descs[fd := d.(offset := d.offset + |buf|)],
        p.bytes[d.group := Overwrite(p.bytes[d.group], d.offset, buf)], p.regions,
        p.pages[d.group := Grown(p.pages[d.group], |buf| + d.offset + HEADER_SIZE)]),
       WriteOut(|buf|))
  {
    hide Overwrite, Grown;
  }

  /** What the write needs at the most. */
  lemma MostWithin(fs: FileSystem, p: Plain, fd: int, buf: seq<byte>, m: nat)
    requires fs.FileOk(fd) && fd in p.descs && p.descs[fd].offset == fs.fds[fd].offset
    ensures Within(p, WriteOp(fd, buf), m) && Compact(fs.ext, fs.logSize, fs.files, fs.fds, m) ==>
      fs.Most(fd, |buf|) <= m && 2 * fs.Most(fd, |buf|) * (|buf| + 1) <= CostOf(WriteOp(fd, buf), m)
  {
    hide BulkOf, Describes, Ends;
    if fs.Most(fd, |buf|) <= m { MulMono(2 * fs.Most(fd, |buf|), 2 * m, |buf| + 1); }
  }

  lemma OpenAre(fs: FileSystem, fd: int)
    requires fs.Valid()
    ensures fs.FdValid(fd) <==> 0 <= fd < |fs.fds| && fs.fds[fd].open
    ensures fs.FdValid(fd) ==> fs.FileOk(fd)
    ensures forall d | 0 <= d < |fs.fds| && fs.fds[d].open ::
      0 <= fs.fds[d].file < |fs.files| && fs.files[fs.fds[d].file].references > 0
  {
    hide Image, FileSystem.Backed;
    forall d | 0 <= d < |fs.fds| && fs.fds[d].open
      ensures IsFile(fs.ext, fs.logSize, fs.files, fs.fds[d].file) && fs.files[fs.fds[d].file].references > 0
      ensures fs.fds[d].offset <= fs.files[fs.fds[d].file].end
    {
      FileOfDesc(fs.ext, fs.logSize, fs.files, fs.fds, d);
      assert DescOk(fs.files, fs.fds[d]);
    }
  }

  lemma FileSaid(fs: FileSystem, fd: int)
    requires fs.FileOk(fd)
    ensures 0 <= fd < |fs.fds| && 0 <= fs.fds[fd].file < |fs.files|
      && IsFile(fs.ext, fs.logSize, fs.files, fs.fds[fd].file)
    ensures fs.files[fs.fds[fd].file].page in fs.ext && fs.fds[fd].offset <= |fs.ContentsOf(fd)|
    ensures fs.ContentsOf(fd) == Contents(fs.ext, fs.logSize, fs.files[fs.fds[fd].file])
    ensures fs.Bulk(fd) == BulkOf(fs.ext, fs.logSize, fs.files[fs.fds[fd].file])
  {
    hide Image, BulkOf;
  }

  method ExecuteSeek(fs: FileSystem, fd: int, offset: int, whence: Whence, ghost p: Plain, ghost m: nat,
                     ghost pages: nat)
      returns (out: Out)
    requires fs.Valid() && p.Ok() && Represents(fs.ext, fs.logSize, fs.files, fs.fds, p)
    requires Allowed(p, SeekOp(fd, offset, whence))
    modifies fs, fs.dev.volume, fs.dev.volume.flash
    ensures fs.Valid() && fs.starved == old(fs.starved)
    ensures out == Step(p, SeekOp(fd, offset, whence)).1
    ensures Represents(fs.ext, fs.logSize, fs.files, fs.fds, Step(p, SeekOp(fd, offset, whence)).0)
    ensures old(Roomy(fs, m, pages)) ==> Roomy(fs, m, pages)
  {
    hide Consistent, Describes, Ends, Image, Contents, Represents, OthersKept, RegionSize, LogConfig, Carried, Allowed,
      FileSystem.Backed, Compact, FdLeft, SlotLeft;
    AllowedSeek(p, fd, offset, whence);
    RepresentsAt(fs.ext, fs.logSize, fs.files, fs.fds, p, fd);
    ghost var fds, files := fs.fds, fs.files;
    if fs.FdValid(fd) { CapacityMeans(files[fds[fd].file].maxPages); }
    var r := fs.Seek(fd, offset, whence);
    out := SeekOut(r);
    if r != -1 {
      OffsetRepresents(fs.ext, fs.logSize, files, fds, p, fd, r, fs.files, fs.ContentsOf(fd));
      MovedCompact(fs.ext, fs.logSize, files, fds, fd, fds[fd].(offset := r), fs.files, m);
    }
  }

  lemma AllowedSeek(p: Plain, fd: int, offset: int, whence: Whence)
    requires p.Ok() && Allowed(p, SeekOp(fd, offset, whence))
    ensures fd in p.descs ==>
      var to, pages := Target(p, fd, offset, whence), p.pages[p.descs[fd].group];
      to <= Capacity(pages) || to > pages * PAGE_SIZE
  {}

  lemma CapacityMeans(pages: nat)
    requires pages > 0
    ensures Capacity(pages) < pages * PAGE_SIZE
  {}

  lemma RunStep(p: Plain, ops: seq<Op>, outs: seq<Out>)
    requires p.Ok() && AllAllowed(p, ops) && ops != []
    ensures Allowed(p, ops[0]) && AllAllowed(Step(p, ops[0]).0, ops[1..])
    ensures var first := Step(p, ops[0]); var rest := Run(first.0, ops[1..]);
      Run(p, ops).0 == rest.0 && outs + Run(p, ops).1 == outs + [first.1] + rest.1
  {}

  lemma WithinStep(p: Plain, ops: seq<Op>, m: nat)
    requires p.Ok() && AllAllowed(p, ops) && ops != []
    ensures Allowed(p, ops[0]) && AllAllowed(Step(p, ops[0]).0, ops[1..])
    ensures AllWithin(p, ops, m) <==> Within(p, ops[0], m) && AllWithin(Step(p, ops[0]).0, ops[1..], m)
    ensures Cost(ops, m) == CostOf(ops[0], m) + Cost(ops[1..], m)
    ensures !ops[0].WriteOp? ==> CostOf(ops[0], m) == 0
  {
    hide Within;
  }

  lemma RunNothing(p: Plain, outs: seq<Out>)
    requires p.Ok()
    ensures Run(p, []).0 == p && outs + Run(p, []).1 == outs
  {}

  method ExecuteOne(fs: FileSystem, op: Op, ghost p: Plain, ghost m: nat, ghost pages: nat)
      returns (out: Out, ok: bool, ghost left: nat)
    requires fs.Valid() && p.Ok() && Represents(fs.ext, fs.logSize, fs.files, fs.fds, p) && Allowed(p, op)
    requires !op.WriteOp? ==> CostOf(op, m) == 0
    modifies fs, fs.dev.volume, fs.dev.volume.flash
    ensures fs.Valid() && (!ok ==> fs.starved) && (ok ==> fs.starved == old(fs.starved))
    ensures !ok ==> op.WriteOp? && fs.FileOk(op.fd) && left <= |op.buf| && fs.Short(op.fd, left)
    ensures ok ==> out == Step(p, op).1 && Represents(fs.ext, fs.logSize, fs.files, fs.fds, Step(p, op).0)
    ensures old(Roomy(fs, m, CostOf(op, m) + pages)) && Within(p, op, m) ==> ok && Roomy(fs, m, pages)
  {
    hide *;
    ok, left := true, 0;
    match op {
      case ReadOp(fd, size) =>
        out := ExecuteRead(fs, fd, size, p, m, pages);
      case WriteOp(fd, buf) =>
        out, ok, left := ExecuteWrite(fs, fd, buf, p, m, pages);
      case SeekOp(fd, offset, whence) =>
        out := ExecuteSeek(fs, fd, offset, whence, p, m, pages);
    }
  }

  /**
   * Runs the operations, on the flash with its real allocator and collector, until one of them fails. What comes out is
   * what the byte arrays give; and only a write can fail, for want of a descriptor, a slot or pages, and none does if
   * there is a descriptor and a slot and more than Cost pages at the erased end of the device.
   */
  method Execute(fs: FileSystem, ops: seq<Op>, ghost p0: Plain, ghost m: nat) returns (outs: seq<Out>, ghost left: nat)
    requires fs.Valid() && !fs.starved && p0.Ok()
    requires Represents(fs.ext, fs.logSize, fs.files, fs.fds, p0) && AllAllowed(p0, ops)
    modifies fs, fs.dev.volume, fs.dev.volume.flash
    ensures fs.Valid()
    ensures !fs.starved ==> outs == Run(p0, ops).1 && Represents(fs.ext, fs.logSize, fs.files, fs.fds, Run(p0, ops).0)
    ensures fs.starved ==>
      && |outs| < |ops| && outs <= Run(p0, ops).1 && ops[|outs|].WriteOp?
      && fs.FileOk(ops[|outs|].fd) && left <= |ops[|outs|].buf| && fs.Short(ops[|outs|].fd, left)
    ensures old(Roomy(fs, m, Cost(ops, m))) && AllWithin(p0, ops, m) ==> !fs.starved
  {
    hide *;
    ghost var p := p0;
    outs, left := [], 0;
    var i := 0;
    ghost var roomy := Roomy(fs, m, Cost(ops, m)) && AllWithin(p0, ops, m);
    assert ops[0..] == ops && outs + Run(p, ops).1 == Run(p, ops).1;
    while i < |ops|
      invariant 0 <= i == |outs| <= |ops|
      invariant fs.Valid() && !fs.starved
      invariant p.Ok() && Represents(fs.ext, fs.logSize, fs.files, fs.fds, p) && AllAllowed(p, ops[i..])
      invariant Run(p, ops[i..]).0 == Run(p0, ops).0 && outs + Run(p, ops[i..]).1 == Run(p0, ops).1
      invariant roomy ==> Roomy(fs, m, Cost(ops[i..], m)) && AllWithin(p, ops[i..], m)
    {
      var op := ops[i];
      assert ops[i..][0] == op && ops[i..][1..] == ops[i + 1..];
      RunStep(p, ops[i..], outs);
      WithinStep(p, ops[i..], m);
      var out, ok;
      out, ok, left := ExecuteOne(fs, op, p, m, Cost(ops[i + 1..], m));
      if !ok {
        return;
      }
      p := Step(p, op).0;
      outs := outs + [out];
      i := i + 1;
    }
    assert ops[|ops|..] == [];
    RunNothing(p, outs);
  }
}
