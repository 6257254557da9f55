/**
 Micro logs of the Coffee file system (cfs-coffee.c).

 A modified file has a log: an index table of 16-bit words, then as many records. Record j holds the
 region of the file that index word j names (plus one, as zero means unused). The newest record of a
 region shadows the region in the file's own extent.
 */
module CoffeeLog {
  import opened Numbers
  import opened Bits
  import opened CoffeeWalk
  import opened Wrappers

  /** COFFEE_PAGE_SIZE */
  const PAGE_SIZE: nat := HEADER_SIZE + BODY_SIZE

  /** COFFEE_LOG_TABLE_LIMIT */
  const LOG_TABLE_LIMIT: nat := 16

  /** An active extent: its header and the bytes behind it. */
  datatype Extent = Extent(hdr: Header, data: seq<byte>)

  /** The bytes that an extent has for data. */
  function Capacity(pages: nat): (c: nat)
    requires pages > 0
  {
    pages * PAGE_SIZE - HEADER_SIZE
  }

  function Zeros(n: nat): seq<byte> {
    seq(n, _ => 0 as byte)
  }

  /** COFFEE_WRITE */
  function Put(s: seq<byte>, at: nat, bytes: seq<byte>): (r: seq<byte>)
    requires at + |bytes| <= |s|
    ensures |r| == |s|
    ensures forall k | 0 <= k < |s| :: r[k] == if at <= k < at + |bytes| then bytes[k - at] else s[k]
  {
    s[..at] + bytes + s[at + |bytes|..]
  }

  /** COFFEE_READ. What lies behind the extent is unspecified. */
  method Get(s: seq<byte>, at: nat, n: nat) returns (r: seq<byte>)
    ensures |r| == n
    ensures forall k | 0 <= k < n && at + k < |s| :: r[k] == s[at + k]
  {
    if at + n <= |s| {
      r := s[at..at + n];
    } else if at < |s| {
      r := s[at..] + Zeros(n - (|s| - at));
    } else {
      r := Zeros(n);
    }
  }

  /** The k-th 16-bit word of the index table. */
  function Word(s: seq<byte>, k: nat): (w: nat)
    requires 2 * k + 1 < |s|
  {
    s[2 * k] as nat + 256 * (s[2 * k + 1] as nat)
  }

  function WordBytes(w: nat): (s: seq<byte>)
    requires w < 0x1_0000
    ensures |s| == 2
  {
    [(w % 256) as byte, (w / 256) as byte]
  }

  /** The geometry of a log: record size and number of records, which the code counts in 16 bits with a sign. */
  datatype Geometry = Geometry(size: nat, records: nat) {
    ghost predicate Ok() { 0 < size && 0 < records <= 0x7FFF }

    function Bytes(): nat { records * (2 + size) }

    /** Where record j starts in the log's data. */
    function Slot(j: nat): nat { 2 * records + j * size }
  }

  /** adjust_log_config */
  function LogGeometry(h: Header, logSize: nat): Geometry {
    var size := if h.logRecordSize == 0 then PAGE_SIZE else h.logRecordSize;
    Geometry(size, if h.logRecords == 0 then logSize / size else h.logRecords)
  }

  lemma SlotInside(g: Geometry, j: nat, k: nat)
    requires j < g.records && k <= g.size
    ensures g.Slot(j) + k <= g.Bytes()
    ensures forall i | 0 <= i < j :: g.Slot(i) + g.size <= g.Slot(j)
  {
    assert (j + 1) * g.size <= g.records * g.size by { MulMono(j + 1, g.records, g.size); }
    forall i | 0 <= i < j ensures g.Slot(i) + g.size <= g.Slot(j) {
      MulMono(i + 1, j, g.size);
      assert (i + 1) * g.size == i * g.size + g.size;
    }
    assert g.Bytes() == 2 * g.records + g.records * g.size;
  }

  /** The newest of the first n records that holds the region, or -1. */
  function LastRecord(log: seq<byte>, n: nat, region: nat): (j: int)
    requires 2 * n <= |log|
    ensures -1 <= j < n
    ensures j >= 0 ==> Word(log, j) == region + 1
  {
    if n == 0 then -1
    else if Word(log, n - 1) == region + 1 then n - 1
    else LastRecord(log, n - 1, region)
  }

  lemma {:induction false} LastRecordIsNewest(log: seq<byte>, n: nat, region: nat)
    requires 2 * n <= |log|
    ensures forall i | LastRecord(log, n, region) < i < n :: Word(log, i) != region + 1
  {
    if n > 0 && Word(log, n - 1) != region + 1 {
      LastRecordIsNewest(log, n - 1, region);
    }
  }

  /** get_record_index: the scan runs backwards in batches of index words. */
  method GetRecordIndex(log: seq<byte>, searchRecords: nat, region: nat) returns (match_: int)
    requires 2 * searchRecords <= |log|
    ensures match_ == LastRecord(log, searchRecords, region)
  {
    hide Word;
    var batchSize := if searchRecords > LOG_TABLE_LIMIT then LOG_TABLE_LIMIT else searchRecords;
    var processed := 0;
    match_ := -1;
    while processed < searchRecords && match_ < 0
      invariant -1 <= match_ && 0 <= processed <= searchRecords && (processed < searchRecords ==> batchSize > 0)
      invariant LastRecord(log, searchRecords, region) ==
        if match_ >= 0 then match_ else LastRecord(log, searchRecords - processed, region)
      decreases searchRecords - processed, match_ < 0
    {
      if batchSize + processed > searchRecords {
        batchSize := searchRecords - processed;
      }
      var base := searchRecords - processed - batchSize;
      var i := batchSize;
      while i > 0
        invariant 0 <= i <= batchSize && match_ == -1
        invariant LastRecord(log, searchRecords, region) == LastRecord(log, base + i, region)
      {
        i := i - 1;
        if Word(log, base + i) - 1 == region {
          match_ := searchRecords - processed - (batchSize - i);
          break;
        }
      }
      processed := processed + batchSize;
    }
  }

  /** Record j. */
  function Record(log: seq<byte>, g: Geometry, j: nat): (r: seq<byte>)
    requires j < g.records && g.Bytes() <= |log|
    ensures |r| == g.size
  {
    SlotInside(g, j, g.size);
    log[g.Slot(j)..g.Slot(j) + g.size]
  }

  /** Part of record j, read at its place in the log. */
  function Slice(log: seq<byte>, g: Geometry, j: nat, within: nat, n: nat): (r: seq<byte>)
    requires j < g.records && g.Bytes() <= |log| && within + n <= g.size
    ensures r == Record(log, g, j)[within..within + n]
  {
    SlotInside(g, j, g.size);
    SubSlice(log, g.Slot(j), g.Slot(j) + g.size, within, n);
    var base := g.Slot(j) + within;
    log[base..base + n]
  }

  lemma SubSlice<T>(s: seq<T>, from: nat, to: nat, within: nat, n: nat)
    requires from <= to <= |s| && within + n <= to - from
    ensures s[from..to][within..within + n] == s[from + within..from + within + n]
  {
    var a, b := s[from..to][within..within + n], s[from + within..from + within + n];
    forall i | 0 <= i < n ensures a[i] == b[i] {
      assert a[i] == s[from..to][within + i];
    }
  }

  lemma IndexInside(log: seq<byte>, g: Geometry, n: nat)
    requires n <= g.records && g.Bytes() <= |log|
    ensures 2 * n <= |log|
  {
    MulMono(0, g.records, g.size);
    assert g.Bytes() == 2 * g.records + g.records * g.size;
  }

  /** The newest record for a region. */
  function Newest(log: seq<byte>, g: Geometry, n: nat, region: nat): (r: Option<seq<byte>>)
    requires n <= g.records && g.Bytes() <= |log|
    ensures r.Some? ==> |r.value| == g.size
  {
    IndexInside(log, g, n);
    var j := LastRecord(log, n, region);
    if j < 0 then None else Some(Record(log, g, j))
  }

  /** The byte at offset o of a file, as seen through the first n records of its log. */
  function SeenAt(base: seq<byte>, log: seq<byte>, g: Geometry, n: nat, o: nat): byte
    requires o < |base| && g.Ok() && n <= g.records && g.Bytes() <= |log|
  {
    var r := Newest(log, g, n, o / g.size);
    if r.None? then base[o] else r.value[o % g.size]
  }

  function Seen(base: seq<byte>, log: seq<byte>, g: Geometry, n: nat): (s: seq<byte>)
    requires g.Ok() && n <= g.records && g.Bytes() <= |log|
    ensures |s| == |base|
    ensures forall o | 0 <= o < |s| :: s[o] == SeenAt(base, log, g, n, o)
  {
    seq(|base|, o requires 0 <= o < |base| => SeenAt(base, log, g, n, o))
  }

  /** modify_log_buffer cuts a request at the end of its region. */
  function InRegion(offset: nat, size: nat, recordSize: nat): (n: nat)
    requires recordSize > 0
    ensures n <= size && offset % recordSize + n <= recordSize && (size > 0 ==> n > 0)
  {
    if size > recordSize - offset % recordSize then recordSize - offset % recordSize else size
  }

  /** The size field of struct log_param has 16 bits. */
  function Cut16(size: nat): nat { size % 0x1_0000 }

  /** The bytes that the loops of cfs_read and cfs_write over a log have left after so many rounds that handle bytes:
      each handles what is left, cut to 16 bits and then at the end of the region. */
  function LeftAfter(left: nat, offset: nat, size: nat, rounds: nat): (l: nat)
    requires size > 0
    ensures l <= left && (rounds == 0 ==> l == left)
  {
    if rounds == 0 then left else
    var l := LeftAfter(left, offset, size, rounds - 1);
    l - InRegion(offset + (left - l), Cut16(l), size)
  }

  /** They come to an end if and only if fewer than 65536 bytes are left at the start. */
  lemma EndsExactly(left: nat, offset: nat, size: nat)
    requires size > 0
    ensures (exists n: nat :: LeftAfter(left, offset, size, n) == 0) <==> left < 0x1_0000
  {
    if left < 0x1_0000 {
      ComesDown(left, offset, size, left);
    } else if n: nat :| LeftAfter(left, offset, size, n) == 0 {
      StaysUp(left, offset, size, n);
    }
  }

  lemma {:induction false} ComesDown(left: nat, offset: nat, size: nat, n: nat)
    requires size > 0 && left < 0x1_0000
    ensures LeftAfter(left, offset, size, n) <= if n < left then left - n else 0
  {
    hide Cut16, InRegion;
    if n > 0 {
      ComesDown(left, offset, size, n - 1);
      CutBelow(LeftAfter(left, offset, size, n - 1));
    }
  }

  lemma {:induction false} StaysUp(left: nat, offset: nat, size: nat, n: nat)
    requires size > 0 && left >= 0x1_0000
    ensures LeftAfter(left, offset, size, n) >= 0x1_0000
  {
    hide Cut16, InRegion;
    if n > 0 {
      StaysUp(left, offset, size, n - 1);
      CutBelow(LeftAfter(left, offset, size, n - 1));
    }
  }

  lemma CutBelow(l: nat)
    ensures if l < 0x1_0000 then Cut16(l) == l else l - Cut16(l) >= 0x1_0000
  {}

  lemma RoundMore(left: nat, offset: nat, size: nat, rounds: nat, l: nat)
    requires size > 0 && l == LeftAfter(left, offset, size, rounds)
    ensures LeftAfter(left, offset, size, rounds + 1) == l - InRegion(offset + (left - l), Cut16(l), size)
  {
    hide Cut16, InRegion;
  }

  /** How many of n bytes from an offset so many records take, one region each. */
  function Covered(at: nat, n: nat, size: nat, records: nat): (c: nat)
    requires size > 0
    ensures c <= n
  {
    var end := (at / size + records) * size;
    if end <= at then 0 else Min(n, end - at)
  }

  /** Some bytes have been written into records, so many are left, and they end where those from the start do. */
  ghost predicate OnTrack(at: nat, n: nat, written: nat, size: nat, left: nat, leftNow: nat)
    requires size > 0
  {
    && written <= n && at + written <= (at / size + left) * size
    && (written < n ==>
          (at + written) % size == 0 && ((at + written) / size + leftNow) * size == (at / size + left) * size)
  }

  /** One record more. */
  lemma RecordTaken(at: nat, n: nat, written: nat, size: nat, left: nat, leftNow: nat, r: nat)
    requires size > 0 && written < n && leftNow > 0 && r == InRegion(at + written, n - written, size)
    requires if written == 0 then leftNow == left else OnTrack(at, n, written, size, left, leftNow)
    ensures OnTrack(at, n, written + r, size, left, leftNow - 1)
  {
    hide InRegion;
    var o := at + written;
    var q := o / size;
    RegionEnd(o, size);
    RegionCut(o, n - written, size);
    MulMono(q + 1, q + leftNow, size);
    assert q + 1 + (leftNow - 1) == q + leftNow;
    if r < n - written { MulMod(q + 1, size); }
  }

  lemma RegionEnd(o: nat, size: nat)
    requires size > 0
    ensures (o / size + 1) * size == o + (size - o % size)
  {
    assert o == o / size * size + o % size;
  }

  lemma RegionCut(o: nat, n: nat, size: nat)
    requires size > 0
    ensures InRegion(o, n, size) <= size - o % size
      && (InRegion(o, n, size) < n ==> InRegion(o, n, size) == size - o % size)
  {}

  /** How the log loop of cfs_write begins: the contents of the file and the offset, its log and the records left in
      it, whether a descriptor is free, the pages of the file and of its log, the larger of both, and the pages that
      can be had. */
  datatype LogStart = LogStart(contents: seq<byte>, at: nat, g: Geometry, left: nat, fdLeft: bool,
                               pages: nat, logPages: nat, bulk: nat, means: nat)

  /** What it has used up. */
  ghost predicate Going(st: LogStart, n: nat, written: nat, leftNow: nat, merged: bool, modified: bool, means: nat)
    requires st.g.size > 0
  {
    && written <= n
    && (if merged then st.fdLeft && written >= Covered(st.at, n, st.g.size, st.left)
        else if written == 0 then leftNow == st.left
        else modified && OnTrack(st.at, n, written, st.g.size, st.left, leftNow))
    && (written == n > 0 ==> modified) && (merged ==> n > 0)
    && (Enough(st, n) ==>
          if written == 0 && !merged then means >= st.means
          else means + (if modified then 0 else st.bulk) >= st.means - 2 * st.bulk * written)
  }

  /** There are pages for all that the loop can ask for. */
  ghost predicate Enough(st: LogStart, n: nat) {
    st.fdLeft && st.means > 2 * st.bulk * n
  }

  /** The log can take no more. */
  ghost predicate Stuck(st: LogStart, n: nat, written: nat, merged: bool)
    requires st.g.size > 0
  {
    !Enough(st, n) && if merged then st.fdLeft else written == Covered(st.at, n, st.g.size, st.left)
  }

  lemma GoingStart(st: LogStart, n: nat, modified: bool)
    requires st.g.size > 0
    ensures Going(st, n, 0, st.left, false, modified, st.means)
  {}

  /** Another round is paid for. */
  lemma GoingPays(st: LogStart, n: nat, written: nat, leftNow: nat, merged: bool, modified: bool, means: nat)
    requires st.g.size > 0 && Going(st, n, written, leftNow, merged, modified, means) && written < n
    ensures Enough(st, n) ==> st.fdLeft && means > st.bulk
  {
    CostStep(st.bulk, n, written, 1);
  }

  lemma CostStep(m: nat, n: nat, written: nat, r: nat)
    requires written + r <= n && r > 0
    ensures 2 * m * written + 2 * m <= 2 * m * (written + r) <= 2 * m * n
  {
    MulMono(written + 1, written + r, 2 * m);
    MulMono(written + r, n, 2 * m);
  }

  lemma GoingStuck(st: LogStart, n: nat, written: nat, leftNow: nat, merged: bool, modified: bool, means: nat,
                   means': nat)
    requires st.g.size > 0 && Going(st, n, written, leftNow, merged, modified, means) && written < n && leftNow == 0
    requires !Enough(st, n)
    ensures Going(st, n, written, leftNow, merged, modified, means') && Stuck(st, n, written, merged)
  {
    hide Enough;
    if !merged { StuckNow(st.at, n, written, st.g.size, st.left); }
  }

  /** No records are left: they have taken all they could. */
  lemma StuckNow(at: nat, n: nat, written: nat, size: nat, left: nat)
    requires size > 0 && written < n
    requires if written == 0 then left == 0 else OnTrack(at, n, written, size, left, 0)
    ensures written == Covered(at, n, size, left)
  {
    assert at == at / size * size + at % size;
    if written > 0 {
      var o := at + written;
      assert o == o / size * size + o % size;
    }
  }

  lemma GoingMerge(st: LogStart, n: nat, written: nat, leftNow: nat, merged: bool, means: nat, leftNow': nat,
                   means': nat)
    requires st.g.size > 0 && Going(st, n, written, leftNow, merged, true, means) && written < n && leftNow == 0
      && st.fdLeft
    requires Enough(st, n) ==> means' >= means - st.bulk
    ensures Going(st, n, written, leftNow', true, false, means')
  {
    hide Enough;
    if !merged { StuckNow(st.at, n, written, st.g.size, st.left); }
  }

  lemma GoingRecord(st: LogStart, n: nat, written: nat, leftNow: nat, merged: bool, modified: bool, means: nat,
                    r: nat, means': nat)
    requires st.g.size > 0 && Going(st, n, written, leftNow, merged, modified, means) && written < n && leftNow > 0
    requires r > 0 && r == InRegion(st.at + written, n - written, st.g.size)
    requires Enough(st, n) ==> means' >= means - (if modified then 0 else st.bulk)
    ensures Going(st, n, written + r, leftNow - 1, merged, true, means')
  {
    hide Enough, OnTrack, InRegion, Covered;
    CostStep(st.bulk, n, written, r);
    if !merged { RecordTaken(st.at, n, written, st.g.size, st.left, leftNow, r); }
  }

  lemma GoingDone(st: LogStart, n: nat, leftNow: nat, merged: bool, modified: bool, means: nat)
    requires st.g.size > 0 && Going(st, n, n, leftNow, merged, modified, means)
    ensures n >= Covered(st.at, n, st.g.size, st.left) && (!st.fdLeft ==> n == Covered(st.at, n, st.g.size, st.left))
    ensures st.fdLeft && st.means > 2 * st.bulk * n ==> means >= st.means - 2 * st.bulk * n
  {}

  lemma StuckCovers(st: LogStart, n: nat, written: nat, leftNow: nat, merged: bool, modified: bool, means: nat)
    requires st.g.size > 0 && Going(st, n, written, leftNow, merged, modified, means) && Stuck(st, n, written, merged)
    ensures var c := Covered(st.at, n, st.g.size, st.left); written >= c && (!st.fdLeft ==> written == c)
    ensures !(st.fdLeft && st.means > 2 * st.bulk * n)
  {}

  /** The offsets of one region. */
  lemma RegionOf(offset: nat, k: nat, size: nat)
    requires size > 0 && offset % size + k < size
    ensures (offset + k) / size == offset / size && (offset + k) % size == offset % size + k
  {
    var q, r := offset / size, offset % size;
    assert offset + k == q * size + (r + k);
    DivMod(offset + k, q, r + k, size);
  }

  lemma MulMod(q: nat, d: nat)
    requires d > 0
    ensures q * d / d == q && q * d % d == 0
  {
    DivMod(q * d, q, 0, d);
  }

  /** read_log_page: the newest record for the region of an offset, cut at the region's end. */
  method ReadLogPage(log: seq<byte>, g: Geometry, n: nat, offset: nat, size: nat) returns (r: Option<seq<byte>>)
    requires g.Ok() && n <= g.records && g.Bytes() <= |log|
    ensures var newest := Newest(log, g, n, offset / g.size);
      if newest.None? then r.None?
      else r == Some(newest.value[offset % g.size..offset % g.size + InRegion(offset, size, g.size)])
  {
    hide Record, LastRecord, Slice;
    var region := offset / g.size;
    var cut := InRegion(offset, size, g.size);
    IndexInside(log, g, n);
    var match_ := GetRecordIndex(log, n, region);
    if match_ < 0 {
      return None;
    }
    var within := offset % g.size;
    r := Some(Slice(log, g, match_, within, cut));
  }

  /** The two writes that append record n: its index word, then its bytes. */
  function PutRecord(log: seq<byte>, g: Geometry, n: nat, region: nat, content: seq<byte>): (r: seq<byte>)
    requires n < g.records && g.Bytes() <= |log| && region + 1 < 0x1_0000 && |content| == g.size
    ensures |r| == |log|
  {
    SlotInside(g, n, g.size);
    Put(Put(log, 2 * n, WordBytes(region + 1)), g.Slot(n), content)
  }

  lemma TwoPuts(log: seq<byte>, g: Geometry, n: nat, region: nat, content: seq<byte>)
    requires n < g.records && g.Bytes() <= |log| && region + 1 < 0x1_0000 && |content| == g.size
    ensures 2 * n + |WordBytes(region + 1)| <= |log| && g.Slot(n) + |content| <= |log|
    ensures PutRecord(log, g, n, region, content) == Put(Put(log, 2 * n, WordBytes(region + 1)), g.Slot(n), content)
  {
    SlotInside(g, n, g.size);
  }

  lemma PutRecordWords(log: seq<byte>, g: Geometry, n: nat, region: nat, content: seq<byte>, k: nat)
    requires n < g.records && g.Bytes() <= |log| && region + 1 < 0x1_0000 && |content| == g.size && k <= n
    ensures 2 * k + 1 < |log|
    ensures Word(PutRecord(log, g, n, region, content), k) == if k == n then region + 1 else Word(log, k)
  {
    SlotInside(g, n, g.size);
    MulMono(0, n, g.size);
    assert 2 * k + 1 < 2 * g.records <= g.Slot(n);
  }

  lemma PutRecordContents(log: seq<byte>, g: Geometry, n: nat, region: nat, content: seq<byte>, j: nat)
    requires n < g.records && g.Bytes() <= |log| && region + 1 < 0x1_0000 && |content| == g.size && j <= n
    ensures Record(PutRecord(log, g, n, region, content), g, j) == if j == n then content else Record(log, g, j)
  {
    SlotInside(g, n, g.size);
    MulMono(0, j, g.size);
    var r := PutRecord(log, g, n, region, content);
    var at := g.Slot(j);
    assert 2 * n + 2 <= at;
    if j < n { assert at + g.size <= g.Slot(n); }
    forall k | 0 <= k < g.size ensures r[at + k] == if j == n then content[k] else log[at + k] {}
  }

  lemma {:induction false} LastRecordFrame(log: seq<byte>, log': seq<byte>, n: nat, region: nat)
    requires 2 * n <= |log| && |log| == |log'| && forall k | 0 <= k < n :: Word(log', k) == Word(log, k)
    ensures LastRecord(log', n, region) == LastRecord(log, n, region)
  {
    if n > 0 {
      LastRecordFrame(log, log', n - 1, region);
    }
  }

  /** A new record shadows all older ones of its region and no other region. */
  lemma NewestAfterPut(log: seq<byte>, g: Geometry, n: nat, region: nat, content: seq<byte>, r: nat)
    requires n < g.records && g.Bytes() <= |log| && region + 1 < 0x1_0000 && |content| == g.size
    ensures Newest(PutRecord(log, g, n, region, content), g, n + 1, r) ==
      if r == region then Some(content) else Newest(log, g, n, r)
  {
    hide PutRecord, Record, Word;
    var log' := PutRecord(log, g, n, region, content);
    IndexInside(log, g, n + 1);
    PutRecordWords(log, g, n, region, content, n);
    forall k | 0 <= k < n ensures Word(log', k) == Word(log, k) {
      PutRecordWords(log, g, n, region, content, k);
    }
    LastRecordFrame(log, log', n, r);
    var j := LastRecord(log', n + 1, r);
    if j >= 0 {
      PutRecordContents(log, g, n, region, content, j);
    }
  }

  /** The file as it is seen when `bytes` have been written at `at`. */
  ghost predicate Patched(s: seq<byte>, t: seq<byte>, at: nat, bytes: seq<byte>) {
    && |s| == |t| && at + |bytes| <= |t|
    && forall o | 0 <= o < |t| :: t[o] == if at <= o < at + |bytes| then bytes[o - at] else s[o]
  }

  /** The record that write_log_page builds: the bytes of the region as seen before the write,
      overlaid with the new ones. */
  ghost predicate Overlaid(seen: seq<byte>, region: nat, size: nat, within: nat, bytes: seq<byte>, content: seq<byte>) {
    && |content| == size && within + |bytes| <= size
    && forall k | 0 <= k < size && region * size + k < |seen| ::
         content[k] == if within <= k < within + |bytes| then bytes[k - within] else seen[region * size + k]
  }

  /** The bytes are those of the file from `start` on, as far as it goes. */
  ghost predicate Agrees(file: seq<byte>, start: nat, bytes: seq<byte>) {
    forall k | 0 <= k < |bytes| && start + k < |file| :: bytes[k] == file[start + k]
  }

  lemma PutOverlays(seen: seq<byte>, region: nat, size: nat, within: nat, bytes: seq<byte>, before: seq<byte>)
    requires |before| == size && within + |bytes| <= size
    requires within > 0 || |bytes| != size ==> region * size >= 0 && Agrees(seen, region * size, before)
    ensures Overlaid(seen, region, size, within, bytes, Put(before, within, bytes))
  {
    MulMono(0, region, size);
    var start := region * size;
  }

  /** A region that was read, from the log or else from the file, is what is seen there. */
  lemma FilledRegion(base: seq<byte>, log: seq<byte>, g: Geometry, n: nat, region: nat, copy: seq<byte>)
    requires g.Ok() && n <= g.records && g.Bytes() <= |log|
    requires |copy| == g.size && (Newest(log, g, n, region).Some? ==> copy == Newest(log, g, n, region).value)
    requires region * g.size >= 0
    requires Newest(log, g, n, region).None? ==> Agrees(base, region * g.size, copy)
    ensures Agrees(Seen(base, log, g, n), region * g.size, copy)
  {
    hide Newest;
    MulMod(region, g.size);
    var start := region * g.size;
    forall k | 0 <= k < g.size && start + k < |base|
      ensures copy[k] == Seen(base, log, g, n)[start + k]
    {
      RegionOf(start, k, g.size);
    }
  }

  /** The record for a write at an offset. */
  ghost predicate RecordFor(seen: seq<byte>, at: nat, size: nat, bytes: seq<byte>, content: seq<byte>) {
    size > 0 && Overlaid(seen, at / size, size, at % size, bytes, content)
  }

  /** The region of an offset, and the place in it. */
  function RegionAt(o: nat, size: pos): nat { o / size }

  function PlaceAt(o: nat, size: pos): nat { o % size }

  /** So many bytes from an offset on are in one region, whose number a record can hold. */
  predicate OneRegion(at: nat, n: nat, size: pos) { PlaceAt(at, size) + n <= size && RegionAt(at, size) + 1 < 0x1_0000 }

  lemma SeenAfterPut(base: seq<byte>, log: seq<byte>, g: Geometry, n: nat, at: nat, bytes: seq<byte>,
                     content: seq<byte>, o: nat)
    requires g.Ok() && n < g.records && g.Bytes() <= |log| && o < |base| && g.size > 0
    requires OneRegion(at, |bytes|, g.size) && RecordFor(Seen(base, log, g, n), at, g.size, bytes, content)
    ensures SeenAt(base, PutRecord(log, g, n, RegionAt(at, g.size), content), g, n + 1, o) ==
      if at <= o < at + |bytes| then bytes[o - at] else SeenAt(base, log, g, n, o)
  {
    hide *;
    var region := RegionAt(at, g.size);
    RecordAt(Seen(base, log, g, n), at, g.size, bytes, content, o);
    NewestAfterPut(log, g, n, region, content, RegionAt(o, g.size));
    SeenAtIs(base, log, g, n, o);
    SeenAtIs(base, PutRecord(log, g, n, region, content), g, n + 1, o);
  }

  lemma SeenAtIs(base: seq<byte>, log: seq<byte>, g: Geometry, n: nat, o: nat)
    requires o < |base| && g.Ok() && n <= g.records && g.Bytes() <= |log| && g.size > 0
    ensures PlaceAt(o, g.size) < g.size
    ensures SeenAt(base, log, g, n, o) ==
      var r := Newest(log, g, n, RegionAt(o, g.size));
      if r.None? then base[o] else r.value[PlaceAt(o, g.size)]
  {}

  /** The record of a write holds its bytes, and otherwise those of the file; outside its region there are none. */
  lemma RecordAt(seen: seq<byte>, at: nat, size: pos, bytes: seq<byte>, content: seq<byte>, o: nat)
    requires RecordFor(seen, at, size, bytes, content) && o < |seen| && OneRegion(at, |bytes|, size)
    ensures |content| == size && PlaceAt(o, size) < size && RegionAt(at, size) + 1 < 0x1_0000
    ensures if RegionAt(o, size) == RegionAt(at, size) then
        content[PlaceAt(o, size)] == (if at <= o < at + |bytes| then bytes[o - at] else seen[o])
      else !(at <= o < at + |bytes|)
  {
    if at <= o < at + |bytes| { RegionOf(at, o - at, size); }
    if o / size == at / size {
      SameRegion(at, o, size);
      OverlaidAt(seen, at / size, size, at % size, bytes, content, o % size, o);
    }
  }

  lemma SameRegion(at: nat, o: nat, size: nat)
    requires size > 0 && o / size == at / size
    ensures o == at / size * size + o % size && o - at == o % size - at % size
  {}

  lemma OverlaidAt(seen: seq<byte>, region: nat, size: nat, within: nat, bytes: seq<byte>, content: seq<byte>, k: nat,
                   o: nat)
    requires Overlaid(seen, region, size, within, bytes, content) && k < size && o == region * size + k < |seen|
    ensures content[k] == if within <= k < within + |bytes| then bytes[k - within] else seen[o]
  {}

  /** Appending such a record writes the bytes into the file as seen, and changes nothing else. */
  lemma LogWrite(base: seq<byte>, log: seq<byte>, g: Geometry, n: nat, at: nat, bytes: seq<byte>, content: seq<byte>)
    requires g.Ok() && n < g.records && g.Bytes() <= |log|
    requires at + |bytes| <= |base| && at % g.size + |bytes| <= g.size && at / g.size + 1 < 0x1_0000
    requires RecordFor(Seen(base, log, g, n), at, g.size, bytes, content)
    ensures Patched(Seen(base, log, g, n), Seen(base, PutRecord(log, g, n, at / g.size, content), g, n + 1), at, bytes)
  {
    hide PutRecord, Newest, Agrees, SeenAt;
    var seen, region := Seen(base, log, g, n), at / g.size;
    var seen' := Seen(base, PutRecord(log, g, n, region, content), g, n + 1);
    forall o | 0 <= o < |base| ensures seen'[o] == if at <= o < at + |bytes| then bytes[o - at] else seen[o] {
      SeenAfterPut(base, log, g, n, at, bytes, content, o);
    }
  }
}
