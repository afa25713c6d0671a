/**
 The viewer archive: indexing a ustar archive of sorted regular files. A successful index describes the whole
 archive: every entry has its header and its blocks, one after the other, and two zero blocks end it. Every archive
 the writer lays out indexes back to its files. One header block is the subject of `TarHeader`.
 */
module ViewerArchive {
  import opened Options
  import opened TarHeader
  import opened Utf16

  const MAX_ENTRIES: nat := 16384

  datatype Entry = Entry(path: Bytes, offset: nat, size: nat)

  datatype ArchiveError =
    | Terminator
    | MissingFile(path: Bytes)
    | Header(error: HeaderError)
    | ExceedsArchive
    | Padding
    | Truncated

  datatype Indexed = Indexed(entries: seq<Entry>) | Failed(error: ArchiveError)

  const INDEX_HTML: Bytes := Ascii("index.html")
  const NOTICES: Bytes := Ascii("THIRD_PARTY_NOTICES.txt")
  const BUILD: Bytes := Ascii("viewer-build.json")

  predicate AllZero(bytes: Bytes) { forall i :: 0 <= i < |bytes| ==> bytes[i] == 0 }

  /** The size rounded up to whole blocks. */
  function Padded(size: nat): nat { (size + BLOCK - 1) / BLOCK * BLOCK }

  function SizeOf(entries: seq<Entry>, path: Bytes): nat {
    if entries == [] then 0 else if entries[0].path == path then entries[0].size else SizeOf(entries[1..], path)
  }

  /** The first required file that is missing or empty. */
  function Missing(entries: seq<Entry>): Option<Bytes> {
    if SizeOf(entries, INDEX_HTML) == 0 then Some(INDEX_HTML)
    else if SizeOf(entries, NOTICES) == 0 then Some(NOTICES)
    else if SizeOf(entries, BUILD) == 0 then Some(BUILD)
    else None
  }

  function Previous(entries: seq<Entry>): Bytes { if entries == [] then [] else entries[|entries| - 1].path }

  // ----- scanning

  datatype Scanned = Next(entry: Entry, position: nat) | Done | Stopped(error: ArchiveError)

  /** What one turn of the loop does at a block. */
  function ScanBlock(archive: Bytes, position: nat, entries: seq<Entry>): Scanned
    requires position + 2 * BLOCK <= |archive|
  {
    var header := archive[position..position + BLOCK];
    if AllZero(header) then
      if position + 2 * BLOCK != |archive| || !AllZero(archive[position + BLOCK..position + 2 * BLOCK]) then Stopped(Terminator)
      else if Missing(entries).Some? then Stopped(MissingFile(Missing(entries).value))
      else Done
    else match Decode(header, |entries| < MAX_ENTRIES, Previous(entries))
      case Refused(error) => Stopped(ArchiveError.Header(error))
      case Decoded(path, size) =>
        var offset := position + BLOCK;
        var next := offset + Padded(size);
        if next + 2 * BLOCK > |archive| then Stopped(ExceedsArchive)
        else if !AllZero(archive[offset + size..next]) then Stopped(Padding)
        else Next(Entry(path, offset, size), next)
  }

  lemma PaddedBounds(size: nat)
    ensures size <= Padded(size) < size + BLOCK && Padded(size) % BLOCK == 0
  {
  }

  function Scan(archive: Bytes, position: nat, entries: seq<Entry>): Indexed
    decreases |archive| - position
  {
    if position + 2 * BLOCK > |archive| then Failed(Truncated)
    else match ScanBlock(archive, position, entries)
      case Stopped(error) => Failed(error)
      case Done => Indexed(entries)
      case Next(entry, next) => Scan(archive, next, entries + [entry])
  }

  /** `indexArchive`: the loop terminates on every input. */
  method IndexArchive(archive: Bytes) returns (result: Indexed)
    ensures result == Scan(archive, 0, [])
    ensures forall entries :: result == Indexed(entries) <==> Indexes(archive, entries)
  {
    hide ScanBlock, Indexes;
    forall entries ensures Scan(archive, 0, []) == Indexed(entries) <==> Indexes(archive, entries) { IndexIff(archive, entries); }
    var entries: seq<Entry> := [];
    var position := 0;
    while position + 2 * BLOCK <= |archive|
      invariant Scan(archive, position, entries) == Scan(archive, 0, [])
      decreases |archive| - position
    {
      ScanAdvances(archive, position, entries);
      match ScanBlock(archive, position, entries)
      case Stopped(error) => return Failed(error);
      case Done => return Indexed(entries);
      case Next(entry, next) =>
        entries := entries + [entry];
        position := next;
    }
    result := Failed(Truncated);
  }

  lemma ScanAdvances(archive: Bytes, position: nat, entries: seq<Entry>)
    requires position + 2 * BLOCK <= |archive|
    ensures ScanBlock(archive, position, entries).Next? ==>
      position < ScanBlock(archive, position, entries).position <= |archive|
  {
    hide Decode, AllZero, Missing;
  }

  // ----- what a successful index says

  /** The header before an entry decodes to it, and its padding is zero. */
  ghost predicate Describes(archive: Bytes, e: Entry, previous: Bytes) {
    && e.offset >= BLOCK && e.offset % BLOCK == 0 && e.offset + Padded(e.size) + 2 * BLOCK <= |archive|
    && Decode(archive[e.offset - BLOCK..e.offset], true, previous) == Decoded(e.path, e.size)
    && AllZero(archive[e.offset + e.size..e.offset + Padded(e.size)])
  }

  function PathBefore(entries: seq<Entry>, k: nat): Bytes
    requires k <= |entries|
  {
    if k == 0 then [] else entries[k - 1].path
  }

  function EndBefore(entries: seq<Entry>, k: nat): nat
    requires k <= |entries|
  {
    if k == 0 then 0 else entries[k - 1].offset + Padded(entries[k - 1].size)
  }

  /** Entry k starts where the one before it ends, and its path comes later. */
  ghost predicate Linked(archive: Bytes, entries: seq<Entry>, k: nat)
    requires k < |entries|
  {
    && Describes(archive, entries[k], PathBefore(entries, k))
    && entries[k].offset == EndBefore(entries, k) + BLOCK && Less(PathBefore(entries, k), entries[k].path)
  }

  /** The entries follow each other without gaps from the start of the archive, in strict path order. */
  ghost predicate Chained(archive: Bytes, entries: seq<Entry>, end: nat) {
    && (forall k: nat :: k < |entries| ==> Linked(archive, entries, k))
    && end == EndBefore(entries, |entries|) && |entries| <= MAX_ENTRIES
  }

  lemma DecodedFollows(header: Bytes, room: bool, previous: Bytes)
    requires |header| == BLOCK && Decode(header, room, previous).Decoded?
    ensures room && Less(previous, Decode(header, room, previous).path)
  {
    hide Octal, Field, Checksum, ValidPath, Less;
  }

  lemma NextIsDescribed(archive: Bytes, position: nat, entries: seq<Entry>)
    requires position + 2 * BLOCK <= |archive| && position % BLOCK == 0 && ScanBlock(archive, position, entries).Next?
    ensures var next := ScanBlock(archive, position, entries);
      && Describes(archive, next.entry, Previous(entries)) && Less(Previous(entries), next.entry.path)
      && next.entry.offset == position + BLOCK && next.position == next.entry.offset + Padded(next.entry.size)
      && next.position % BLOCK == 0 && |entries| < MAX_ENTRIES
  {
    hide Decode, Less, Missing, Padded;
    var next := ScanBlock(archive, position, entries);
    DecodedFollows(archive[position..position + BLOCK], |entries| < MAX_ENTRIES, Previous(entries));
    PaddedBounds(next.entry.size);
    assert archive[next.entry.offset - BLOCK..next.entry.offset] == archive[position..position + BLOCK];
  }

  lemma ChainedSnoc(archive: Bytes, entries: seq<Entry>, position: nat, e: Entry)
    requires Chained(archive, entries, position) && |entries| < MAX_ENTRIES
    requires Describes(archive, e, Previous(entries)) && Less(Previous(entries), e.path) && e.offset == position + BLOCK
    ensures Chained(archive, entries + [e], e.offset + Padded(e.size))
  {
    hide Describes, Less, Padded;
    var all := entries + [e];
    assert PathBefore(all, |entries|) == Previous(entries) && EndBefore(all, |entries|) == EndBefore(entries, |entries|);
    forall k: nat | k < |all| ensures Linked(archive, all, k) {
      if k < |entries| {
        assert Linked(archive, entries, k);
        assert PathBefore(all, k) == PathBefore(entries, k) && EndBefore(all, k) == EndBefore(entries, k);
      }
    }
  }

  lemma ChainGrows(archive: Bytes, position: nat, entries: seq<Entry>)
    requires position + 2 * BLOCK <= |archive| && position % BLOCK == 0 && Chained(archive, entries, position)
    requires ScanBlock(archive, position, entries).Next?
    ensures var next := ScanBlock(archive, position, entries);
      next.position % BLOCK == 0 && Chained(archive, entries + [next.entry], next.position)
  {
    hide Chained, Describes, Less, Padded, ScanBlock;
    NextIsDescribed(archive, position, entries);
    ChainedSnoc(archive, entries, position, ScanBlock(archive, position, entries).entry);
  }

  lemma {:induction false} ScanIsChained(archive: Bytes, position: nat, entries: seq<Entry>)
    requires position % BLOCK == 0 && Chained(archive, entries, position)
    ensures Scan(archive, position, entries).Indexed? ==>
      var found := Scan(archive, position, entries).entries;
      |archive| >= 2 * BLOCK && Chained(archive, found, |archive| - 2 * BLOCK)
      && AllZero(archive[|archive| - 2 * BLOCK..]) && Missing(found).None?
    decreases |archive| - position
  {
    hide Chained, Decode, Missing;
    if position + 2 * BLOCK <= |archive| {
      ScanAdvances(archive, position, entries);
      var scanned := ScanBlock(archive, position, entries);
      if scanned.Next? {
        ChainGrows(archive, position, entries);
        ScanIsChained(archive, scanned.position, entries + [scanned.entry]);
      } else if scanned.Done? {
      }
    }
  }

  /** A successful index covers the archive: headers, files and padding follow each other up to the two zero blocks. */
  lemma IndexIsChained(archive: Bytes)
    requires Scan(archive, 0, []).Indexed?
    ensures var entries := Scan(archive, 0, []).entries;
      |archive| >= 2 * BLOCK && Chained(archive, entries, |archive| - 2 * BLOCK)
      && AllZero(archive[|archive| - 2 * BLOCK..]) && Missing(entries).None?
  {
    ScanIsChained(archive, 0, []);
  }

  lemma {:induction false} OffsetsAscend(archive: Bytes, entries: seq<Entry>, end: nat, i: nat, j: nat)
    requires Chained(archive, entries, end) && i < j < |entries|
    ensures entries[i].offset + entries[i].size <= entries[j].offset - BLOCK
    ensures Less(entries[i].path, entries[j].path)
    decreases j
  {
    hide Describes, Less, Padded;
    PaddedBounds(entries[j - 1].size);
    assert Linked(archive, entries, j);
    if i < j - 1 {
      OffsetsAscend(archive, entries, end, i, j - 1);
      LessIsTransitive(entries[i].path, entries[j - 1].path, entries[j].path);
    }
  }

  lemma LessIsTransitive(a: Bytes, b: Bytes, c: Bytes)
    requires Less(a, b) && Less(b, c)
    ensures Less(a, c)
  {
    hide LexLess;
    LexTransitive(a, b, c);
  }

  /** Byte ranges are aligned, inside the archive before its terminator, and pairwise disjoint; paths are strictly sorted. */
  lemma RangesAreDisjoint(archive: Bytes)
    requires Scan(archive, 0, []).Indexed?
    ensures var entries := Scan(archive, 0, []).entries;
      && (forall k :: 0 <= k < |entries| ==>
            entries[k].offset % BLOCK == 0 && BLOCK <= entries[k].offset
            && entries[k].offset + entries[k].size <= |archive| - 2 * BLOCK)
      && (forall i, j :: 0 <= i < j < |entries| ==>
            entries[i].offset + entries[i].size <= entries[j].offset && Less(entries[i].path, entries[j].path))
  {
    hide Scan, Less, Decode, Padded;
    IndexIsChained(archive);
    var entries := Scan(archive, 0, []).entries;
    forall k: nat | k < |entries| ensures entries[k].offset % BLOCK == 0 && BLOCK <= entries[k].offset
      && entries[k].offset + entries[k].size <= |archive| - 2 * BLOCK
    {
      assert Linked(archive, entries, k);
      PaddedBounds(entries[k].size);
    }
    forall i: nat, j: nat | i < j < |entries|
      ensures entries[i].offset + entries[i].size <= entries[j].offset && Less(entries[i].path, entries[j].path)
    {
      OffsetsAscend(archive, entries, |archive| - 2 * BLOCK, i, j);
    }
  }

  // ----- exactly when an archive has an index

  ghost predicate Present(entries: seq<Entry>, path: Bytes) {
    exists k :: 0 <= k < |entries| && entries[k].path == path && entries[k].size > 0
  }

  /** The entries account for the whole archive, and the required files are among them and not empty. */
  ghost predicate Indexes(archive: Bytes, entries: seq<Entry>) {
    && |archive| >= 2 * BLOCK && Chained(archive, entries, |archive| - 2 * BLOCK) && AllZero(archive[|archive| - 2 * BLOCK..])
    && Present(entries, Ascii("index.html")) && Present(entries, Ascii("THIRD_PARTY_NOTICES.txt"))
    && Present(entries, Ascii("viewer-build.json"))
  }

  ghost predicate DistinctPaths(entries: seq<Entry>) { forall i, j :: 0 <= i < j < |entries| ==> entries[i].path != entries[j].path }

  lemma {:induction false} PresentIff(entries: seq<Entry>, path: Bytes)
    requires DistinctPaths(entries)
    ensures Present(entries, path) <==> SizeOf(entries, path) > 0
  {
    if entries == [] {
    } else {
      PresentIff(entries[1..], path);
      assert forall k :: 0 < k < |entries| ==> entries[k] == entries[1..][k - 1];
    }
  }

  /** The file reported missing is the first required one that is not present. */
  lemma MissingIff(entries: seq<Entry>)
    requires DistinctPaths(entries)
    ensures Missing(entries) ==
      if !Present(entries, Ascii("index.html")) then Some(Ascii("index.html"))
      else if !Present(entries, Ascii("THIRD_PARTY_NOTICES.txt")) then Some(Ascii("THIRD_PARTY_NOTICES.txt"))
      else if !Present(entries, Ascii("viewer-build.json")) then Some(Ascii("viewer-build.json"))
      else None
  {
    hide SizeOf, Ascii, DistinctPaths, Present;
    PresentIff(entries, INDEX_HTML);
    PresentIff(entries, NOTICES);
    PresentIff(entries, BUILD);
  }

  lemma ChainedPaths(archive: Bytes, entries: seq<Entry>, end: nat)
    requires Chained(archive, entries, end)
    ensures DistinctPaths(entries)
  {
    hide Chained, Less;
    forall i, j | 0 <= i < j < |entries| ensures entries[i].path != entries[j].path {
      OffsetsAscend(archive, entries, end, i, j);
      LessIsIrreflexive(entries[i].path);
    }
  }

  lemma ChainedBlock(archive: Bytes, entries: seq<Entry>, k: nat)
    requires k < |entries| && Linked(archive, entries, k) && |entries| <= MAX_ENTRIES
    ensures EndBefore(entries, k) + 2 * BLOCK <= |archive|
    ensures ScanBlock(archive, EndBefore(entries, k), entries[..k]) == Next(entries[k], EndBefore(entries, k + 1))
  {
    hide Decode, Missing, Less, Padded, Octal, Field, Checksum, ValidPath, MaskedText;
    var e, position := entries[k], EndBefore(entries, k);
    PaddedBounds(e.size);
    var header := archive[position..position + BLOCK];
    assert archive[e.offset - BLOCK..e.offset] == header;
    DecodeIff(header, true, PathBefore(entries, k), e.path, e.size);
    assert header[156] != 0;
  }

  lemma ChainedEnd(archive: Bytes, entries: seq<Entry>)
    requires Indexes(archive, entries)
    ensures EndBefore(entries, |entries|) + 2 * BLOCK == |archive|
    ensures ScanBlock(archive, EndBefore(entries, |entries|), entries) == Done
  {
    hide Decode, Missing, Less, Present, Padded, Ascii, Linked;
    ChainedPaths(archive, entries, |archive| - 2 * BLOCK);
    MissingIff(entries);
  }

  /** The scan finds the entries of a chain one by one. */
  lemma {:induction false} ChainIsScanned(archive: Bytes, entries: seq<Entry>, k: nat)
    requires k <= |entries| && Indexes(archive, entries)
    ensures Scan(archive, EndBefore(entries, k), entries[..k]) == Indexed(entries)
    decreases |entries| - k
  {
    hide ScanBlock, Linked, AllZero, Present, Ascii;
    if k == |entries| {
      assert entries[..k] == entries;
      ChainedEnd(archive, entries);
    } else {
      assert Linked(archive, entries, k);
      ChainedBlock(archive, entries, k);
      assert entries[..k] + [entries[k]] == entries[..k + 1];
      ChainIsScanned(archive, entries, k + 1);
    }
  }

  /** An archive is accepted with some entries exactly when they account for all of it. */
  lemma IndexIff(archive: Bytes, entries: seq<Entry>)
    ensures Scan(archive, 0, []) == Indexed(entries) <==> Indexes(archive, entries)
  {
    hide Scan, Chained, AllZero, Missing, Present, Ascii;
    if Scan(archive, 0, []) == Indexed(entries) {
      IndexIsChained(archive);
      ChainedPaths(archive, entries, |archive| - 2 * BLOCK);
      MissingIff(entries);
    }
    if Indexes(archive, entries) { ChainIsScanned(archive, entries, 0); }
  }

  // ----- the writer

  datatype File = File(path: Bytes, data: Bytes)

  predicate Writable(f: File) {
    |f.path| <= PATH_BYTES && ValidPath(f.path) && TarHeader.Header(f.path, |f.data|).Some?
  }

  function FileBytes(f: File): Bytes
    requires Writable(f)
  {
    TarHeader.Header(f.path, |f.data|).value + f.data + Repeat(0, (BLOCK - |f.data| % BLOCK) % BLOCK)
  }

  ghost predicate AllWritable(files: seq<File>) { forall k :: 0 <= k < |files| ==> Writable(files[k]) }

  ghost function Body(files: seq<File>): Bytes
    requires AllWritable(files)
  {
    if files == [] then [] else Body(files[..|files| - 1]) + FileBytes(files[|files| - 1])
  }

  /** The archive of the files: their headers, data and padding, then two zero blocks. */
  ghost function Layout(files: seq<File>): Bytes
    requires AllWritable(files)
  {
    Body(files) + Repeat(0, 2 * BLOCK)
  }

  ghost function EntriesOf(files: seq<File>): (r: seq<Entry>)
    requires AllWritable(files)
    ensures |r| == |files|
  {
    if files == [] then []
    else
      var front := files[..|files| - 1];
      EntriesOf(front) + [Entry(files[|files| - 1].path, |Body(front)| + BLOCK, |files[|files| - 1].data|)]
  }

  lemma {:induction false} BodyPrefix(files: seq<File>, k: nat) returns (rest: Bytes)
    requires AllWritable(files) && k <= |files|
    ensures Body(files) == Body(files[..k]) + rest
  {
    hide FileBytes, Writable;
    if k == |files| {
      assert files[..k] == files;
      return [];
    }
    var front := files[..|files| - 1];
    assert front[..k] == files[..k];
    var middle := BodyPrefix(front, k);
    rest := middle + FileBytes(files[|files| - 1]);
  }

  /** Where the next file starts. */
  lemma FileAt(files: seq<File>, k: nat) returns (rest: Bytes)
    requires AllWritable(files) && k < |files|
    ensures Layout(files) == Body(files[..k]) + FileBytes(files[k]) + rest && |rest| >= 2 * BLOCK
    ensures Body(files[..k + 1]) == Body(files[..k]) + FileBytes(files[k])
  {
    hide FileBytes, Writable;
    var tail := BodyPrefix(files, k + 1);
    assert files[..k + 1][..k] == files[..k];
    rest := tail + Repeat(0, 2 * BLOCK);
  }

  lemma {:induction false} LastPath(files: seq<File>, k: nat)
    requires AllWritable(files) && k <= |files|
    ensures Previous(EntriesOf(files[..k])) == if k == 0 then [] else files[k - 1].path
  {
  }

  ghost predicate SortedPaths(files: seq<File>) { forall k :: 0 < k < |files| ==> Less(files[k - 1].path, files[k].path) }

  lemma EntriesNext(files: seq<File>, k: nat)
    requires AllWritable(files) && k < |files|
    ensures EntriesOf(files[..k + 1]) == EntriesOf(files[..k]) + [Entry(files[k].path, |Body(files[..k])| + BLOCK, |files[k].data|)]
  {
    assert files[..k + 1][..k] == files[..k];
  }

  /** The slices the reader takes out of one file's bytes. */
  lemma FileSlices(before: Bytes, f: File, rest: Bytes)
    requires Writable(f)
    ensures var archive, position := before + FileBytes(f) + rest, |before|;
      var next := position + BLOCK + Padded(|f.data|);
      && next + |rest| == |archive|
      && archive[position..position + BLOCK] == TarHeader.Header(f.path, |f.data|).value
      && archive[position + BLOCK..position + BLOCK + |f.data|] == f.data
      && AllZero(archive[position + BLOCK + |f.data|..next])
  {
    hide TarHeader.Header, Writable;
    WritableParts(f);
    PaddedBounds(|f.data|);
    var header := TarHeader.Header(f.path, |f.data|).value;
    var zeros := Repeat(0, (BLOCK - |f.data| % BLOCK) % BLOCK);
    assert FileBytes(f) == header + f.data + zeros;
  }

  lemma ScanFile(files: seq<File>, k: nat)
    requires AllWritable(files) && SortedPaths(files) && k < |files| <= MAX_ENTRIES
    ensures var position := |Body(files[..k])|;
      && position + 2 * BLOCK <= |Layout(files)|
      && ScanBlock(Layout(files), position, EntriesOf(files[..k])) ==
         Next(Entry(files[k].path, position + BLOCK, |files[k].data|), |Body(files[..k + 1])|)
  {
    hide Writable, FileBytes, Body, EntriesOf, Less, Decode, TarHeader.Header, ValidPath, Missing;
    var f, before := files[k], Body(files[..k]);
    var rest := FileAt(files, k);
    assert Writable(f);
    FileSlices(before, f, rest);
    PaddedBounds(|f.data|);
    LastPath(files, k);
    WritableParts(f);
    HeaderIsNotZero(f.path, |f.data|);
    var header := TarHeader.Header(f.path, |f.data|).value;
    assert !AllZero(header);
    assert Less([], f.path) by { EmptyIsLess(f.path); }
    HeaderRoundTrip(f.path, |f.data|, Previous(EntriesOf(files[..k])));
  }

  lemma WritableParts(f: File)
    requires Writable(f)
    ensures |f.path| <= PATH_BYTES && ValidPath(f.path) && f.path != [] && TarHeader.Header(f.path, |f.data|).Some?
    ensures |TarHeader.Header(f.path, |f.data|).value| == BLOCK
  {
  }

  lemma EmptyIsLess(path: Bytes)
    requires path != []
    ensures Less([], path)
  {
  }

  /** The index of an archive that the writer laid out. */
  ghost function Verdict(files: seq<File>): Indexed
    requires AllWritable(files)
  {
    var missing := Missing(EntriesOf(files));
    if missing.Some? then Failed(MissingFile(missing.value)) else Indexed(EntriesOf(files))
  }

  lemma ScanEnd(files: seq<File>)
    requires AllWritable(files)
    ensures |Body(files)| + 2 * BLOCK == |Layout(files)|
    ensures Scan(Layout(files), |Body(files)|, EntriesOf(files)) == Verdict(files)
  {
    hide Body, EntriesOf, Missing, Decode;
    var archive, position := Layout(files), |Body(files)|;
    assert archive[position..position + BLOCK] == Repeat(0, BLOCK);
    assert archive[position + BLOCK..position + 2 * BLOCK] == Repeat(0, BLOCK);
  }

  lemma {:induction false} ScanFrom(files: seq<File>, k: nat)
    requires AllWritable(files) && SortedPaths(files) && k <= |files| <= MAX_ENTRIES
    ensures Scan(Layout(files), |Body(files[..k])|, EntriesOf(files[..k])) == Verdict(files)
    decreases |files| - k
  {
    hide Body, EntriesOf, Verdict, ScanBlock, Layout, Writable, SortedPaths;
    if k == |files| {
      assert files[..k] == files;
      ScanEnd(files);
    } else {
      ScanFile(files, k);
      EntriesNext(files, k);
      ScanFrom(files, k + 1);
    }
  }

  /** The files that the reader requires are there and not empty. */
  ghost predicate RequiredPresent(files: seq<File>) { HasData(files, INDEX_HTML) && HasData(files, NOTICES) && HasData(files, BUILD) }

  ghost predicate HasData(files: seq<File>, path: Bytes) {
    exists k :: 0 <= k < |files| && files[k].path == path && files[k].data != []
  }

  ghost predicate HasPath(entries: seq<Entry>, path: Bytes) { exists k :: 0 <= k < |entries| && entries[k].path == path }

  lemma {:induction false} SizeOfSnoc(entries: seq<Entry>, e: Entry, path: Bytes)
    ensures SizeOf(entries + [e], path) ==
      if HasPath(entries, path) then SizeOf(entries, path) else if e.path == path then e.size else 0
    ensures !HasPath(entries, path) ==> SizeOf(entries, path) == 0
  {
    if entries == [] {
      assert [e][1..] == [];
    } else {
      assert (entries + [e])[1..] == entries[1..] + [e];
      SizeOfSnoc(entries[1..], e, path);
      if HasPath(entries, path) && entries[0].path != path {
        var k :| 0 <= k < |entries| && entries[k].path == path;
        assert entries[1..][k - 1] == entries[k];
      }
      if HasPath(entries[1..], path) {
        var k :| 0 <= k < |entries[1..]| && entries[1..][k].path == path;
        assert entries[k + 1] == entries[1..][k];
      }
    }
  }

  lemma {:induction false} PathsAscend(files: seq<File>, i: nat, j: nat)
    requires SortedPaths(files) && i < j < |files|
    ensures Less(files[i].path, files[j].path) && files[i].path != files[j].path
    decreases j
  {
    hide Less;
    if i < j - 1 {
      PathsAscend(files, i, j - 1);
      LessIsTransitive(files[i].path, files[j - 1].path, files[j].path);
    }
    assert !Less(files[i].path, files[i].path) by { LessIsIrreflexive(files[i].path); }
  }

  lemma LessIsIrreflexive(a: Bytes)
    ensures !Less(a, a)
  {
    LexTrichotomy(a, a);
  }

  /** The size found under a path is that of the file with the path. */
  lemma {:induction false} SizeIff(files: seq<File>, path: Bytes)
    requires AllWritable(files) && SortedPaths(files)
    ensures HasPath(EntriesOf(files), path) <==> exists k :: 0 <= k < |files| && files[k].path == path
    ensures SizeOf(EntriesOf(files), path) > 0 <==> HasData(files, path)
  {
    hide Body, Writable, SizeOf;
    if files == [] {
      NoSize(path);
    } else {
      var n := |files| - 1;
      var front, last := files[..n], files[n];
      var e := Entry(last.path, |Body(front)| + BLOCK, |last.data|);
      SizeIff(front, path);
      SizeOfSnoc(EntriesOf(front), e, path);
      assert EntriesOf(files) == EntriesOf(front) + [e];
      HasPathSnoc(EntriesOf(front), e, path);
      forall k: nat | k < n ensures files[k].path != last.path { PathsAscend(files, k, n); }
      assert forall k :: 0 <= k < n ==> front[k] == files[k];
    }
  }

  lemma NoSize(path: Bytes)
    ensures SizeOf([], path) == 0
  {
  }

  lemma HasPathSnoc(entries: seq<Entry>, e: Entry, path: Bytes)
    ensures HasPath(entries + [e], path) <==> HasPath(entries, path) || e.path == path
  {
    assert (entries + [e])[|entries|] == e;
    if HasPath(entries, path) {
      var k :| 0 <= k < |entries| && entries[k].path == path;
      assert (entries + [e])[k] == entries[k];
    }
  }

  /**
   Every archive the writer lays out for sorted, writable files, at most 16384 of them, indexes back to exactly
   those files if and only if the required ones are present and not empty.
   */
  lemma LayoutIndexesBack(files: seq<File>)
    requires AllWritable(files) && SortedPaths(files) && |files| <= MAX_ENTRIES
    ensures Scan(Layout(files), 0, []).Indexed? <==> RequiredPresent(files)
    ensures RequiredPresent(files) ==> Scan(Layout(files), 0, []) == Indexed(EntriesOf(files))
  {
    hide Scan, Body, Writable, SortedPaths, EntriesOf, Layout, SizeOf, HasData;
    NothingLaidOut();
    assert files[..0] == [];
    ScanFrom(files, 0);
    SizeIff(files, INDEX_HTML);
    SizeIff(files, NOTICES);
    SizeIff(files, BUILD);
  }

  /** The entries name the files in order, and their byte ranges hold the files' data. */
  lemma EntriesHoldFiles(files: seq<File>, k: nat)
    requires AllWritable(files) && k < |files|
    ensures var e := EntriesOf(files)[k];
      e.path == files[k].path && e.offset + e.size <= |Layout(files)| && Layout(files)[e.offset..e.offset + e.size] == files[k].data
  {
    hide Body, Writable, EntriesOf, Layout, FileBytes;
    var rest := FileAt(files, k);
    EntryAt(files, k);
    assert Writable(files[k]);
    FileSlices(Body(files[..k]), files[k], rest);
    PaddedBounds(|files[k].data|);
  }

  lemma NothingLaidOut()
    ensures Body([]) == [] && EntriesOf([]) == []
  {
  }

  lemma {:induction false} EntryAt(files: seq<File>, k: nat)
    requires AllWritable(files) && k < |files|
    ensures EntriesOf(files)[k] == Entry(files[k].path, |Body(files[..k])| + BLOCK, |files[k].data|)
  {
    hide Body;
    var front := files[..|files| - 1];
    if k < |front| {
      assert front[..k] == files[..k];
      EntryAt(front, k);
    } else {
      assert files[..k] == front;
    }
  }
}
