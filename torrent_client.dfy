/**
 * The peer's bookkeeping: which files it seeds, which parts of each it holds,
 * and the checkpoint file (seeding_files.cfg) that keeps this across restarts.
 *
 * A file of `size` bytes is cut into PartCount(size) parts; a ClientFileEntry
 * keeps one flag per part, set once the part is on disk. seedingFiles holds
 * every known file, downloadingFiles the ones still being fetched.
 */
module TorrentClient {
  import opened Wire
  import opened ClientProtocol
  import TrackerProtocol

  const INT32_MIN: int := -0x8000_0000

  /** The largest size whose part count fits in an int. */
  const MAX_COUNTED_SIZE: int := INT32_MAX * PART_SIZE

  // ---------------------------------------------------------------------------
  // Parts

  /**
   * getPartCount: (int) Math.ceil(1.0 * size / PART_SIZE). The ceiling rounds
   * towards zero for negative sizes, and the cast saturates at the int range.
   */
  function PartCount(size: int64): int32
  {
    var n: int := size;
    var q := if n >= 0 then (n + PART_SIZE - 1) / PART_SIZE else -((-n) / PART_SIZE);
    if q > INT32_MAX then INT32_MAX else if q < INT32_MIN then INT32_MIN else q
  }

  /** For the sizes an int can count, the part count is the ceiling of size / PART_SIZE. */
  lemma PartCountIsCeiling(size: int64)
    requires 0 <= size <= MAX_COUNTED_SIZE
    ensures PartCount(size) * PART_SIZE >= size
    ensures size > 0 ==> (PartCount(size) - 1) * PART_SIZE < size
    ensures PartCount(size) == 0 <==> size == 0
  {
  }

  /** `new boolean[getPartCount(size)]` throws exactly for sizes of minus one part or less. */
  lemma NegativePartCount(size: int64)
    ensures PartCount(size) < 0 <==> size <= -(PART_SIZE as int)
  {
  }

  /** Java's `%` on long: the remainder takes the dividend's sign. */
  function JavaRem(a: int, b: int): int
    requires b > 0
  {
    if a >= 0 then a % b else -((-a) % b)
  }

  /** The partSize a download round asks for: PART_SIZE, except for the last part. */
  function ExpectedPartSize(size: int64, partId: int, count: int): int
  {
    if partId == count - 1 then
      var last := JavaRem(size, PART_SIZE);
      if last == 0 then PART_SIZE else last
    else PART_SIZE
  }

  /**
   * Every part but the last is PART_SIZE long, the last one ends the file:
   * part i occupies [i * PART_SIZE, i * PART_SIZE + its length).
   */
  lemma PartLayout(size: int64, partId: int)
    requires 0 <= size <= MAX_COUNTED_SIZE
    requires 0 <= partId < PartCount(size)
    ensures 0 < ExpectedPartSize(size, partId, PartCount(size)) <= PART_SIZE
    ensures partId < PartCount(size) - 1 ==>
              partId * PART_SIZE + ExpectedPartSize(size, partId, PartCount(size)) == (partId + 1) * PART_SIZE
    ensures partId == PartCount(size) - 1 ==>
              partId * PART_SIZE + ExpectedPartSize(size, partId, PartCount(size)) == size
  {
    var count := PartCount(size);
    if partId == count - 1 {
      var r := size % PART_SIZE;
      var q := size / PART_SIZE;
      assert size == q * PART_SIZE + r;
      if r == 0 {
        assert count == q;
      } else {
        assert count == q + 1;
      }
    }
  }

  /** The lengths of parts 0 .. k-1. */
  function PartSizesUpTo(size: int64, k: nat): int
  {
    if k == 0 then 0 else PartSizesUpTo(size, k - 1) + ExpectedPartSize(size, k - 1, PartCount(size))
  }

  lemma {:induction false} PartSizesPrefix(size: int64, k: nat)
    requires 0 <= size <= MAX_COUNTED_SIZE
    requires k <= PartCount(size)
    ensures PartSizesUpTo(size, k) == if k < PartCount(size) then k * PART_SIZE else size
  {
    if k == 0 {
      PartCountIsCeiling(size);
    } else {
      PartSizesPrefix(size, k - 1);
      PartLayout(size, k - 1);
    }
  }

  /** The part lengths add up to the file size. */
  lemma PartSizesSum(size: int64)
    requires 0 <= size <= MAX_COUNTED_SIZE
    ensures PartCount(size) >= 0
    ensures PartSizesUpTo(size, PartCount(size)) == size
  {
    PartSizesPrefix(size, PartCount(size));
  }

  /** A seeder answering GET for part i of the whole file sends exactly that part's bytes. */
  lemma GetAnswerIsPart(content: seq<byte>, partId: int)
    requires |content| <= MAX_COUNTED_SIZE
    requires 0 <= partId < PartCount(|content|)
    ensures partId * PART_SIZE + ExpectedPartSize(|content|, partId, PartCount(|content|)) <= |content|
    ensures FilePart(content, partId * PART_SIZE)
            == content[partId * PART_SIZE .. partId * PART_SIZE + ExpectedPartSize(|content|, partId, PartCount(|content|))]
  {
    var size: int64 := |content|;
    PartLayout(size, partId);
    PartCountIsCeiling(size);
    if partId < PartCount(size) - 1 {
      assert (partId + 1) * PART_SIZE <= (PartCount(size) - 1) * PART_SIZE;
    }
  }

  // ---------------------------------------------------------------------------
  // File entries

  /** The values a ClientFileEntry holds, as the checkpoint stores them. */
  datatype FileRecord = FileRecord(id: int32, name: Utf, size: int64, flags: seq<bool>)

  /** One flag per part. */
  predicate WellFormed(r: FileRecord)
  {
    PartCount(r.size) >= 0 && |r.flags| == PartCount(r.size)
  }

  predicate Complete(flags: seq<bool>)
  {
    forall i :: 0 <= i < |flags| ==> flags[i]
  }

  lemma CompleteSnoc(flags: seq<bool>, b: bool)
    ensures Complete(flags + [b]) <==> Complete(flags) && b
  {
    if Complete(flags) && b {
      forall i | 0 <= i < |flags| + 1 ensures (flags + [b])[i] {
        if i < |flags| {
          assert (flags + [b])[i] == flags[i];
        }
      }
    }
    if Complete(flags + [b]) {
      assert (flags + [b])[|flags|] == b;
      forall i | 0 <= i < |flags| ensures flags[i] {
        assert (flags + [b])[i] == flags[i];
      }
    }
  }

  class ClientFileEntry {
    const id: int32
    const name: Utf
    const size: int64
    const isPartPresent: array<bool>

    ghost predicate Valid()
    {
      isPartPresent.Length == PartCount(size)
    }

    function Record(): (r: FileRecord)
      reads isPartPresent
      ensures r.id == id && r.name == name && r.size == size && r.flags == isPartPresent[..]
    {
      FileRecord(id, name, size, isPartPresent[..])
    }

    /** ClientFileEntry(id, name, size, isFileExists): getPartCount(size) flags, all isFileExists. */
    constructor (id: int32, name: Utf, size: int64, isFileExists: bool)
      requires PartCount(size) >= 0
      ensures this.id == id && this.name == name && this.size == size
      ensures Valid() && fresh(isPartPresent)
      ensures forall i :: 0 <= i < isPartPresent.Length ==> isPartPresent[i] == isFileExists
    {
      this.id := id;
      this.name := name;
      this.size := size;
      var partCount := PartCount(size);
      var flags := new bool[partCount];
      for i := 0 to partCount
        invariant forall k :: 0 <= k < i ==> flags[k] == isFileExists
      {
        flags[i] := isFileExists;
      }
      isPartPresent := flags;
    }

    /** ClientFileEntry(id, name, size, isPartPresent): takes the array as it is. */
    constructor FromFlags(id: int32, name: Utf, size: int64, isPartPresent: array<bool>)
      ensures this.id == id && this.name == name && this.size == size
      ensures this.isPartPresent == isPartPresent
    {
      this.id := id;
      this.name := name;
      this.size := size;
      this.isPartPresent := isPartPresent;
    }
  }

  // ---------------------------------------------------------------------------
  // FileInfo and the STAT answer

  /** FileInfo without the floating-point percentage. */
  datatype FileInfo = FileInfo(fileName: Utf, isFinished: bool, downloadedParts: nat)

  function CountPresent(flags: seq<bool>): (r: nat)
    ensures r <= |flags|
  {
    if flags == [] then 0
    else CountPresent(flags[..|flags| - 1]) + (if flags[|flags| - 1] then 1 else 0)
  }

  /** Counting the present parts finds all of them exactly when the file is complete. */
  lemma {:induction false} CountPresentAll(flags: seq<bool>)
    ensures CountPresent(flags) == |flags| <==> Complete(flags)
  {
    if flags != [] {
      var init := flags[..|flags| - 1];
      CountPresentAll(init);
      if Complete(flags) {
        assert Complete(init) by {
          forall i | 0 <= i < |init| ensures init[i] {
            assert init[i] == flags[i];
          }
        }
      }
      if CountPresent(flags) == |flags| {
        assert CountPresent(init) == |init| by {
          assert CountPresent(init) <= |init|;
        }
        assert flags[|flags| - 1];
        forall i | 0 <= i < |flags| ensures flags[i] {
          if i < |init| {
            assert init[i] == flags[i];
          }
        }
      }
    }
  }

  /** new FileInfo(entry): counts the present parts; finished iff all are. */
  method NewFileInfo(entry: ClientFileEntry) returns (info: FileInfo)
    ensures info.fileName == entry.name
    ensures info.downloadedParts == CountPresent(entry.isPartPresent[..])
    ensures info.isFinished <==> Complete(entry.isPartPresent[..])
  {
    var flags := entry.isPartPresent;
    var downloadedPartCnt := 0;
    for i := 0 to flags.Length
      invariant downloadedPartCnt == CountPresent(flags[..i])
    {
      assert flags[..i + 1][..i] == flags[..i];
      if flags[i] {
        downloadedPartCnt := downloadedPartCnt + 1;
      }
    }
    assert flags[..flags.Length] == flags[..];
    CountPresentAll(flags[..]);
    info := FileInfo(entry.name, downloadedPartCnt == flags.Length, downloadedPartCnt);
  }

  /** The indices of the present parts, in ascending order. */
  function PresentIndices(flags: seq<bool>): seq<int32>
    requires |flags| <= INT32_MAX
  {
    if flags == [] then []
    else PresentIndices(flags[..|flags| - 1]) + (if flags[|flags| - 1] then [|flags| - 1] else [])
  }

  /** The STAT answer lists exactly the present parts, each once, ascending. */
  lemma {:induction false} PresentIndicesMeaning(flags: seq<bool>)
    requires |flags| <= INT32_MAX
    ensures forall i :: i in PresentIndices(flags) <==> 0 <= i < |flags| && flags[i]
    ensures forall a, b :: 0 <= a < b < |PresentIndices(flags)| ==> PresentIndices(flags)[a] < PresentIndices(flags)[b]
    ensures forall a :: 0 <= a < |PresentIndices(flags)| ==> PresentIndices(flags)[a] < |flags|
  {
    if flags != [] {
      var init := flags[..|flags| - 1];
      PresentIndicesMeaning(init);
      forall i ensures i in PresentIndices(flags) <==> 0 <= i < |flags| && flags[i] {
        if 0 <= i < |init| {
          assert init[i] == flags[i];
        }
      }
    }
  }

  /** ClientProcessor's STAT branch: the indices whose flag is set. */
  method AvailableParts(entry: ClientFileEntry) returns (availableParts: seq<int32>)
    requires entry.Valid()
    ensures availableParts == PresentIndices(entry.isPartPresent[..])
  {
    var flags := entry.isPartPresent;
    availableParts := [];
    for i := 0 to PartCount(entry.size)
      invariant availableParts == PresentIndices(flags[..i])
    {
      assert flags[..i + 1][..i] == flags[..i];
      if flags[i] {
        availableParts := availableParts + [i];
      }
    }
    assert flags[..flags.Length] == flags[..];
  }

  // ---------------------------------------------------------------------------
  // The checkpoint: {int32 id, UTF name, int64 size, one boolean per part} per file, no count

  function WriteRecord(r: FileRecord): seq<byte>
  {
    WriteInt(r.id) + WriteUTF(r.name) + WriteLong(r.size) + WriteAll(r.flags, WriteBoolean)
  }

  datatype RecordRead =
    | Record(record: FileRecord, rest: seq<byte>)
      /** EOFException anywhere in a record: the partial record is dropped and loading stops */
    | EndOfFile
      /** NegativeArraySizeException: the client cannot start */
    | Corrupt

  function ReadRecord(s: seq<byte>): RecordRead
  {
    match ReadInt(s)
    case None => EndOfFile
    case Some((id, s1)) =>
      match ReadUTF(s1)
      case None => EndOfFile
      case Some((name, s2)) =>
        match ReadLong(s2)
        case None => EndOfFile
        case Some((size, s3)) =>
          var count := PartCount(size);
          if count < 0 then Corrupt
          else
            match ReadN(s3, count, ReadBoolean)
            case None => EndOfFile
            case Some((flags, rest)) => Record(FileRecord(id, name, size, flags), rest)
  }

  lemma RecordReadShape(s: seq<byte>)
    ensures ReadRecord(s).Record? ==> |ReadRecord(s).rest| < |s| && WellFormed(ReadRecord(s).record)
  {
    var r := ReadRecord(s);
    if r.Record? {
      var s1 := ReadInt(s).value.1;
      var s2 := ReadUTF(s1).value.1;
      var s3 := ReadLong(s2).value.1;
      ReadNShape(s3, PartCount(r.record.size), ReadBoolean);
    }
  }

  /** The records of a checkpoint up to its end; None if the client would fail to start. */
  function LoadCheckpoint(s: seq<byte>): Option<seq<FileRecord>>
    decreases |s|
  {
    match ReadRecord(s)
    case EndOfFile => Some([])
    case Corrupt => None
    case Record(r, rest) =>
      RecordReadShape(s);
      match LoadCheckpoint(rest)
      case None => None
      case Some(rs) => Some([r] + rs)
  }

  /** seedingFiles after loading: every record under its id, a later one replacing an earlier one. */
  function LoadedSeeding(records: seq<FileRecord>): map<int32, FileRecord>
  {
    if records == [] then map[]
    else
      var r := records[|records| - 1];
      LoadedSeeding(records[..|records| - 1])[r.id := r]
  }

  /** downloadingFiles after loading: the records with a missing part; a later complete record does not remove one. */
  function LoadedDownloading(records: seq<FileRecord>): map<int32, FileRecord>
  {
    if records == [] then map[]
    else
      var r := records[|records| - 1];
      var before := LoadedDownloading(records[..|records| - 1]);
      if Complete(r.flags) then before else before[r.id := r]
  }

  /** The files of a map whose download is unfinished. */
  function Incomplete(v: map<int32, FileRecord>): map<int32, FileRecord>
  {
    map id | id in v && !Complete(v[id].flags) :: v[id]
  }

  lemma RecordRoundTrip(r: FileRecord, rest: seq<byte>)
    requires WellFormed(r)
    ensures ReadRecord(WriteRecord(r) + rest) == Record(r, rest)
  {
    var s3 := WriteAll(r.flags, WriteBoolean) + rest;
    var s2 := WriteLong(r.size) + s3;
    var s1 := WriteUTF(r.name) + s2;
    assert WriteRecord(r) + rest == WriteInt(r.id) + s1;
    IntRoundTrip(r.id, s1);
    UTFRoundTrip(r.name, s2);
    LongRoundTrip(r.size, s3);
    forall b, t ensures ReadBoolean(WriteBoolean(b) + t) == Some((b, t)) {
      BooleanRoundTrip(b, t);
    }
    ReadNWriteAll(r.flags, rest, WriteBoolean, ReadBoolean);
  }

  /** Loading what was saved gives back the same records in the same order. */
  lemma {:induction false} CheckpointRoundTrip(records: seq<FileRecord>)
    requires forall i :: 0 <= i < |records| ==> WellFormed(records[i])
    ensures LoadCheckpoint(WriteAll(records, WriteRecord)) == Some(records)
  {
    if records == [] {
      assert ReadInt([]) == None;
    } else {
      var tail := WriteAll(records[1..], WriteRecord);
      assert WriteAll(records, WriteRecord) == WriteRecord(records[0]) + tail;
      RecordRoundTrip(records[0], tail);
      CheckpointRoundTrip(records[1..]);
      assert [records[0]] + records[1..] == records;
    }
  }

  lemma {:induction false} LoadListingSeeding(v: map<int32, FileRecord>, ids: seq<int32>)
    requires forall id :: id in v ==> v[id].id == id
    requires forall i :: 0 <= i < |ids| ==> ids[i] in v
    ensures LoadedSeeding(Listing(v, ids)) == map id | id in v && id in ids :: v[id]
  {
    if ids != [] {
      var init := ids[..|ids| - 1];
      var last := ids[|ids| - 1];
      LoadListingSeeding(v, init);
      var listed := Listing(v, ids);
      assert listed == Listing(v, init) + [v[last]];
      assert listed[..|listed| - 1] == Listing(v, init);
      assert forall id :: id in ids <==> id in init || id == last;
    }
  }

  lemma {:induction false} LoadListingDownloading(v: map<int32, FileRecord>, ids: seq<int32>)
    requires forall id :: id in v ==> v[id].id == id
    requires forall i :: 0 <= i < |ids| ==> ids[i] in v
    ensures LoadedDownloading(Listing(v, ids)) == map id | id in v && id in ids && !Complete(v[id].flags) :: v[id]
  {
    if ids != [] {
      var init := ids[..|ids| - 1];
      var last := ids[|ids| - 1];
      LoadListingDownloading(v, init);
      var listed := Listing(v, ids);
      assert listed == Listing(v, init) + [v[last]];
      assert listed[..|listed| - 1] == Listing(v, init);
      assert forall id :: id in ids <==> id in init || id == last;
    }
  }

  /**
   * close() then a restart: the checkpoint reads back as the saved records,
   * seedingFiles comes back as it was and downloadingFiles as its unfinished files.
   */
  lemma SaveThenLoad(v: map<int32, FileRecord>, ids: seq<int32>)
    requires forall id :: id in v ==> v[id].id == id && WellFormed(v[id])
    requires Enumerates(ids, v.Keys)
    ensures LoadCheckpoint(WriteAll(Listing(v, ids), WriteRecord)) == Some(Listing(v, ids))
    ensures LoadedSeeding(Listing(v, ids)) == v
    ensures LoadedDownloading(Listing(v, ids)) == Incomplete(v)
  {
    var listed := Listing(v, ids);
    forall i | 0 <= i < |listed| ensures WellFormed(listed[i]) {
      ListingAt(v, ids, i);
    }
    CheckpointRoundTrip(listed);
    LoadListingSeeding(v, ids);
    LoadListingDownloading(v, ids);
    ListedKeys(v, ids);
  }

  lemma ListedKeys(v: map<int32, FileRecord>, ids: seq<int32>)
    requires Enumerates(ids, v.Keys)
    ensures (map id | id in v && id in ids :: v[id]) == v
    ensures (map id | id in v && id in ids && !Complete(v[id].flags) :: v[id]) == Incomplete(v)
  {
  }

  /** The records behind a map of entries. */
  function View(m: map<int32, ClientFileEntry>): (v: map<int32, FileRecord>)
    reads set id | id in m :: m[id].isPartPresent
    ensures v.Keys == m.Keys
  {
    map id | id in m :: m[id].Record()
  }

  /** The flag arrays of a map's entries lie in `footprint`. */
  ghost predicate Within(m: map<int32, ClientFileEntry>, footprint: set<array<bool>>)
  {
    forall id :: id in m ==> m[id].isPartPresent in footprint
  }

  /** A map of entries, whose flag arrays lie in `footprint`, holds the records of `v`, entry by entry. */
  ghost predicate Shows(m: map<int32, ClientFileEntry>, v: map<int32, FileRecord>, footprint: set<array<bool>>)
    requires Within(m, footprint)
    reads footprint
  {
    m.Keys == v.Keys && forall id :: id in m ==> m[id].Record() == v[id]
  }

  lemma ShowsPut(m: map<int32, ClientFileEntry>, v: map<int32, FileRecord>, footprint: set<array<bool>>,
                 id: int32, e: ClientFileEntry, x: FileRecord)
    requires Within(m, footprint) && Shows(m, v, footprint) && e.Record() == x
    ensures Within(m[id := e], footprint + {e.isPartPresent})
    ensures Shows(m[id := e], v[id := x], footprint + {e.isPartPresent})
  {
  }

  lemma ShowsMore(m: map<int32, ClientFileEntry>, v: map<int32, FileRecord>, footprint: set<array<bool>>, a: array<bool>)
    requires Within(m, footprint) && Shows(m, v, footprint)
    ensures Within(m, footprint + {a}) && Shows(m, v, footprint + {a})
  {
  }

  /** What the checkpoint loop's two puts do to the records the maps hold. */
  lemma ShowsAdd(seeding: map<int32, ClientFileEntry>, downloading: map<int32, ClientFileEntry>,
                 read: seq<FileRecord>, footprint: set<array<bool>>,
                 r: FileRecord, e: ClientFileEntry, downloaded: bool)
    requires Within(seeding, footprint) && Within(downloading, footprint)
    requires Shows(seeding, LoadedSeeding(read), footprint) && Shows(downloading, LoadedDownloading(read), footprint)
    requires e.Record() == r && (downloaded <==> Complete(r.flags))
    ensures Within(seeding[r.id := e], footprint + {e.isPartPresent})
    ensures Shows(seeding[r.id := e], LoadedSeeding(read + [r]), footprint + {e.isPartPresent})
    ensures downloaded ==> Within(downloading, footprint + {e.isPartPresent})
    ensures downloaded ==> Shows(downloading, LoadedDownloading(read + [r]), footprint + {e.isPartPresent})
    ensures !downloaded ==> Within(downloading[r.id := e], footprint + {e.isPartPresent})
    ensures !downloaded ==> Shows(downloading[r.id := e], LoadedDownloading(read + [r]), footprint + {e.isPartPresent})
  {
    LoadedSnoc(read, r);
    ShowsPut(seeding, LoadedSeeding(read), footprint, r.id, e, r);
    if downloaded {
      ShowsMore(downloading, LoadedDownloading(read), footprint, e.isPartPresent);
    } else {
      ShowsPut(downloading, LoadedDownloading(read), footprint, r.id, e, r);
    }
  }

  /**
   * An incomplete file's downloadingFiles entry is the very object that
   * seedingFiles holds for it, so that the worker's flag updates show in both.
   */
  ghost predicate Shared(seeding: map<int32, ClientFileEntry>, downloading: map<int32, ClientFileEntry>,
                         v: map<int32, FileRecord>)
  {
    forall id :: id in seeding && id in v && !Complete(v[id].flags) ==> id in downloading && downloading[id] == seeding[id]
  }

  lemma ViewIs(m: map<int32, ClientFileEntry>, v: map<int32, FileRecord>, footprint: set<array<bool>>)
    requires Within(m, footprint) && Shows(m, v, footprint)
    ensures View(m) == v
  {
  }

  lemma LoadedSnoc(records: seq<FileRecord>, r: FileRecord)
    ensures LoadedSeeding(records + [r]) == LoadedSeeding(records)[r.id := r]
    ensures LoadedDownloading(records + [r])
            == if Complete(r.flags) then LoadedDownloading(records) else LoadedDownloading(records)[r.id := r]
  {
    assert (records + [r])[..|records|] == records;
  }

  /** getFile's search: the first listed entry with the id. */
  function FindEntry(files: seq<TrackerProtocol.TrackerFileEntry>, id: int32): Option<TrackerProtocol.TrackerFileEntry>
  {
    if files == [] then None
    else if files[0].id == id then Some(files[0])
    else FindEntry(files[1..], id)
  }

  lemma {:induction false} FindEntryIsFirst(files: seq<TrackerProtocol.TrackerFileEntry>, id: int32)
    ensures FindEntry(files, id).None? <==> forall i :: 0 <= i < |files| ==> files[i].id != id
    ensures FindEntry(files, id).Some? ==>
              exists i :: 0 <= i < |files| && files[i] == FindEntry(files, id).value && files[i].id == id
                          && forall j :: 0 <= j < i ==> files[j].id != id
  {
    if files != [] && files[0].id != id {
      FindEntryIsFirst(files[1..], id);
      if FindEntry(files, id).Some? {
        var i :| 0 <= i < |files[1..]| && files[1..][i] == FindEntry(files, id).value && files[1..][i].id == id
                 && forall j :: 0 <= j < i ==> files[1..][j].id != id;
        assert files[i + 1] == files[1..][i];
        forall j | 0 <= j < i + 1 ensures files[j].id != id {
          if j > 0 {
            assert files[j] == files[1..][j - 1];
          }
        }
      } else {
        forall i | 0 <= i < |files| ensures files[i].id != id {
          if i > 0 {
            assert files[i] == files[1..][i - 1];
          }
        }
      }
    }
  }

  // ---------------------------------------------------------------------------
  // The client

  class TorrentClient {
    var seedingFiles: map<int32, ClientFileEntry>
    var downloadingFiles: map<int32, ClientFileEntry>

    /** Every entry sits under its own id and has one flag per part; downloads are seeded files. */
    ghost predicate Valid()
      reads this
    {
      && (forall id :: id in seedingFiles ==> seedingFiles[id].id == id && seedingFiles[id].Valid())
      && (forall id :: id in downloadingFiles ==> downloadingFiles[id].id == id && downloadingFiles[id].Valid())
      && downloadingFiles.Keys <= seedingFiles.Keys
    }

    constructor ()
      ensures seedingFiles == map[] && downloadingFiles == map[]
      ensures Valid()
    {
      seedingFiles := map[];
      downloadingFiles := map[];
    }

    /**
     * The TorrentClient constructor's checkpoint loop: every record goes into
     * seedingFiles, and into downloadingFiles when a part is missing. null
     * when a record's size makes the flag array negative.
     */
    static method Open(checkpoint: seq<byte>) returns (client: TorrentClient?)
      ensures client == null <==> LoadCheckpoint(checkpoint).None?
      ensures client != null ==> fresh(client) && client.Valid()
      ensures client != null ==> View(client.seedingFiles) == LoadedSeeding(LoadCheckpoint(checkpoint).value)
      ensures client != null ==> View(client.downloadingFiles) == LoadedDownloading(LoadCheckpoint(checkpoint).value)
      ensures client != null ==>
                forall id :: id in client.seedingFiles && !Complete(client.seedingFiles[id].isPartPresent[..]) ==>
                  id in client.downloadingFiles && client.downloadingFiles[id] == client.seedingFiles[id]
    {
      client := new TorrentClient();
      var input := checkpoint;
      ghost var read: seq<FileRecord> := [];
      ghost var footprint: set<array<bool>> := {};
      AfterNoRecords(LoadCheckpoint(checkpoint));
      while true
        invariant fresh(client) && client.Valid()
        invariant LoadCheckpoint(checkpoint) == AfterRecords(read, LoadCheckpoint(input))
        invariant Within(client.seedingFiles, footprint) && Within(client.downloadingFiles, footprint)
        invariant Shows(client.seedingFiles, LoadedSeeding(read), footprint)
        invariant Shows(client.downloadingFiles, LoadedDownloading(read), footprint)
        invariant Shared(client.seedingFiles, client.downloadingFiles, LoadedSeeding(read))
        decreases |input|
      {
        var outcome, flags, downloaded := ReadRecordFrom(input);
        RecordReadShape(input);
        if outcome.EndOfFile? {
          assert read + [] == read;
          ViewIs(client.seedingFiles, LoadedSeeding(read), footprint);
          ViewIs(client.downloadingFiles, LoadedDownloading(read), footprint);
          forall id | id in client.seedingFiles && !Complete(client.seedingFiles[id].isPartPresent[..])
            ensures id in client.downloadingFiles && client.downloadingFiles[id] == client.seedingFiles[id]
          {
            assert client.seedingFiles[id].Record() == LoadedSeeding(read)[id];
          }
          return;
        }
        if outcome.Corrupt? {
          return null;
        }
        var r := outcome.record;
        client.AddLoaded(r, flags, downloaded, read, footprint);
        footprint := footprint + {flags};
        assert LoadCheckpoint(input) == AfterRecords([r], LoadCheckpoint(outcome.rest));
        AfterRecordsAppend(read, [r], LoadCheckpoint(outcome.rest));
        read := read + [r];
        input := outcome.rest;
      }
    }

    /** One record of the checkpoint loop goes in; the maps then hold what loading `read + [r]` promises. */
    method AddLoaded(r: FileRecord, flags: array<bool>, downloaded: bool,
                     ghost read: seq<FileRecord>, ghost footprint: set<array<bool>>)
      requires Valid() && WellFormed(r)
      requires flags[..] == r.flags && (downloaded <==> Complete(r.flags))
      requires Within(seedingFiles, footprint) && Within(downloadingFiles, footprint)
      requires Shows(seedingFiles, LoadedSeeding(read), footprint)
      requires Shows(downloadingFiles, LoadedDownloading(read), footprint)
      requires Shared(seedingFiles, downloadingFiles, LoadedSeeding(read))
      modifies this
      ensures Valid()
      ensures Within(seedingFiles, footprint + {flags}) && Within(downloadingFiles, footprint + {flags})
      ensures Shows(seedingFiles, LoadedSeeding(read + [r]), footprint + {flags})
      ensures Shows(downloadingFiles, LoadedDownloading(read + [r]), footprint + {flags})
      ensures Shared(seedingFiles, downloadingFiles, LoadedSeeding(read + [r]))
    {
      ghost var seeding, downloading := seedingFiles, downloadingFiles;
      var entry := PutLoaded(r, flags, downloaded);
      ShowsAdd(seeding, downloading, read, footprint, r, entry, downloaded);
      LoadedSnoc(read, r);
    }

    /** The two puts of the checkpoint loop: always seedingFiles, downloadingFiles when a part is missing. */
    method PutLoaded(r: FileRecord, flags: array<bool>, downloaded: bool) returns (entry: ClientFileEntry)
      requires Valid() && WellFormed(r)
      requires flags[..] == r.flags
      modifies this
      ensures Valid() && fresh(entry)
      ensures entry.isPartPresent == flags && entry.Record() == r
      ensures seedingFiles == old(seedingFiles)[r.id := entry]
      ensures downloadingFiles == if downloaded then old(downloadingFiles) else old(downloadingFiles)[r.id := entry]
    {
      entry := new ClientFileEntry.FromFlags(r.id, r.name, r.size, flags);
      assert entry.Valid() && entry.id == r.id;
      seedingFiles := seedingFiles[r.id := entry];
      if !downloaded {
        downloadingFiles := downloadingFiles[r.id := entry];
      }
    }

    /** One checkpoint record: the three fields, then the flags read one by one into a new array. */
    static method ReadRecordFrom(s: seq<byte>) returns (outcome: RecordRead, flags: array<bool>, downloaded: bool)
      ensures outcome == ReadRecord(s)
      ensures fresh(flags)
      ensures outcome.Record? ==> flags[..] == outcome.record.flags && (downloaded <==> Complete(flags[..]))
    {
      flags := new bool[0];
      downloaded := true;
      var id := ReadInt(s);
      if id.None? {
        return EndOfFile, flags, downloaded;
      }
      var name := ReadUTF(id.value.1);
      if name.None? {
        return EndOfFile, flags, downloaded;
      }
      var size := ReadLong(name.value.1);
      if size.None? {
        return EndOfFile, flags, downloaded;
      }
      var partCount := PartCount(size.value.0);
      if partCount < 0 {
        return Corrupt, flags, downloaded;
      }
      var start := size.value.1;
      var values;
      flags, downloaded, values := ReadFlags(start, partCount);
      if values.None? {
        return EndOfFile, flags, downloaded;
      }
      outcome := Record(FileRecord(id.value.0, name.value.0, size.value.0, flags[..]), values.value.1);
    }

    /** The flag loop of a checkpoint record: partCount readBoolean calls into a new array. */
    static method ReadFlags(start: seq<byte>, partCount: nat) returns (flags: array<bool>, downloaded: bool, values: Read<seq<bool>>)
      ensures values == ReadN(start, partCount, ReadBoolean)
      ensures fresh(flags)
      ensures values.Some? ==> flags[..] == values.value.0 && (downloaded <==> Complete(flags[..]))
    {
      flags := new bool[partCount];
      downloaded := true;
      var input := start;
      PrependNothing(ReadN(start, partCount, ReadBoolean));
      for i := 0 to partCount
        invariant ReadN(start, partCount, ReadBoolean) == Prepend(flags[..i], ReadN(input, partCount - i, ReadBoolean))
        invariant downloaded <==> Complete(flags[..i])
      {
        var b := ReadBoolean(input);
        if b.None? {
          ReadNStop(input, partCount - i, ReadBoolean, flags[..i]);
          return flags, downloaded, None;
        }
        ReadNAdvance(ReadN(start, partCount, ReadBoolean), flags[..i], input, partCount - i, ReadBoolean,
                     b.value.0, b.value.1);
        ghost var before := flags[..i];
        flags[i] := b.value.0;
        assert flags[..i + 1] == before + [b.value.0];
        CompleteSnoc(before, b.value.0);
        if !flags[i] {
          downloaded := false;
        }
        input := b.value.1;
      }
      ReadNDone(input, ReadBoolean, flags[..partCount]);
      assert flags[..partCount] == flags[..];
      values := Some((flags[..], input));
    }

    /** close(): every seeded file's record, in the map's iteration order. */
    method Close() returns (checkpoint: seq<byte>, ghost ids: seq<int32>)
      requires Valid()
      ensures Enumerates(ids, seedingFiles.Keys)
      ensures checkpoint == WriteAll(Listing(View(seedingFiles), ids), WriteRecord)
      ensures forall id :: id in View(seedingFiles) ==> View(seedingFiles)[id].id == id && WellFormed(View(seedingFiles)[id])
    {
      var snapshot := View(seedingFiles);
      checkpoint, ids := WriteValues(snapshot, WriteRecord);
    }

    /**
     * getFile(id) given the tracker's list: the first entry with the id gets a
     * new all-absent entry, shared by both maps. null, with no change, when the
     * list lacks the id or its size makes the flag array negative.
     */
    method GetFile(id: int32, files: seq<TrackerProtocol.TrackerFileEntry>) returns (entry: ClientFileEntry?)
      requires Valid()
      modifies this
      ensures Valid()
      ensures entry == null ==> seedingFiles == old(seedingFiles) && downloadingFiles == old(downloadingFiles)
      ensures entry == null <==> FindEntry(files, id).None? || PartCount(FindEntry(files, id).value.size) < 0
      ensures entry != null ==>
                && fresh(entry) && fresh(entry.isPartPresent)
                && entry.id == id && entry.name == FindEntry(files, id).value.fileName
                && entry.size == FindEntry(files, id).value.size
                && (forall i :: 0 <= i < entry.isPartPresent.Length ==> !entry.isPartPresent[i])
                && seedingFiles == old(seedingFiles)[id := entry]
                && downloadingFiles == old(downloadingFiles)[id := entry]
    {
      for i := 0 to |files|
        invariant FindEntry(files, id) == FindEntry(files[i..], id)
        invariant seedingFiles == old(seedingFiles) && downloadingFiles == old(downloadingFiles)
      {
        assert files[i..][1..] == files[i + 1..];
        var found := files[i];
        if found.id == id {
          if PartCount(found.size) < 0 {
            return null;
          }
          entry := new ClientFileEntry(id, found.fileName, found.size, false);
          downloadingFiles := downloadingFiles[id := entry];
          seedingFiles := seedingFiles[id := entry];
          return;
        }
      }
      assert files[|files|..] == [];
      entry := null;
    }

    /** addFile: the file's size and the id the tracker assigned go in as an all-present entry. */
    method AddFile(fileName: Utf, size: int64, trackerId: int32) returns (id: int32, entry: ClientFileEntry)
      requires Valid()
      requires 0 <= size
      modifies this
      ensures Valid()
      ensures id == trackerId
      ensures fresh(entry) && fresh(entry.isPartPresent)
      ensures entry.id == id && entry.name == fileName && entry.size == size
      ensures forall i :: 0 <= i < entry.isPartPresent.Length ==> entry.isPartPresent[i]
      ensures seedingFiles == old(seedingFiles)[id := entry]
      ensures downloadingFiles == old(downloadingFiles)
    {
      id := trackerId;
      NegativePartCount(size);
      entry := new ClientFileEntry(id, fileName, size, true);
      seedingFiles := seedingFiles[id := entry];
    }
  }

  /** The records a loading loop has read, before what the rest of the file holds. */
  function AfterRecords(read: seq<FileRecord>, rest: Option<seq<FileRecord>>): Option<seq<FileRecord>>
  {
    match rest
    case None => None
    case Some(rs) => Some(read + rs)
  }

  lemma AfterNoRecords(rest: Option<seq<FileRecord>>)
    ensures AfterRecords([], rest) == rest
  {
    match rest
    case None =>
    case Some(rs) => assert [] + rs == rs;
  }

  lemma AfterRecordsAppend(a: seq<FileRecord>, b: seq<FileRecord>, rest: Option<seq<FileRecord>>)
    ensures AfterRecords(a, AfterRecords(b, rest)) == AfterRecords(a + b, rest)
  {
    match rest
    case None =>
    case Some(rs) => assert a + (b + rs) == (a + b) + rs;
  }
}
