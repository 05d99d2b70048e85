/**
 * The disk-image engine: sector arithmetic, the floppy geometry, a zero-filled image,
 * the chunked positional block copy and the trailing-zero trim.
 *
 * Files live in a `FileSystem`: a map from path to the file's bytes. Writing at a
 * position past the end of a file extends it, and the gap reads as zeros.
 */
module Disk {
  import opened Wrappers
  import opened Numerals

  type byte = bv8
  type Path = string
  type Files = map<Path, seq<byte>>

  // A standard IBM double-sided, high-density 3.5" diskette.
  const FloppySideCount: nat := 2
  const FloppyTracksPerSide: nat := 80
  const FloppySectorsPerTrack: nat := 18
  const FloppyBytesPerSector: nat := 512
  const FloppySize: nat := FloppySideCount * FloppyTracksPerSide * FloppySectorsPerTrack * FloppyBytesPerSector

  /** The chunk size of the copy and blank-disk loops. */
  const BufferSize: nat := 4096

  /** Number.MAX_SAFE_INTEGER, the copy length used when none is given. */
  const MaxSafeInteger: nat := 9007199254740991

  function Min(a: int, b: int): int { if a <= b then a else b }

  function Max(a: int, b: int): int { if a >= b then a else b }

  // ---------------------------------------------------------------------------
  // Sector ranges
  // ---------------------------------------------------------------------------

  /** `DiskSectorRange`: a run of `sectorCount` sectors from `startSector`. */
  datatype SectorRange = SectorRange(startSector: nat, sectorCount: nat, bytesPerSector: nat) {
    function EndSector(): int { startSector + sectorCount - 1 }
    function StartAddress(): nat { startSector * bytesPerSector }
    function TotalBytes(): nat { sectorCount * bytesPerSector }
    /** One past the range's last byte. */
    function EndAddress(): nat { StartAddress() + TotalBytes() }
  }

  /** `FloppyDiskSectorRange`: a sector range of 512-byte sectors. */
  type FloppySectorRange = r: SectorRange | r.bytesPerSector == FloppyBytesPerSector
    witness SectorRange(0, 0, FloppyBytesPerSector)

  function FloppyRange(startSector: nat, sectorCount: nat): (r: FloppySectorRange)
    ensures r.startSector == startSector && r.sectorCount == sectorCount
    ensures r.StartAddress() == startSector * 512 && r.TotalBytes() == sectorCount * 512
  {
    SectorRange(startSector, sectorCount, FloppyBytesPerSector)
  }

  /** The bytes of a range are exactly those of its sectors startSector..EndSector. */
  lemma SectorRangeSpan(r: SectorRange)
    ensures r.EndSector() + 1 == r.startSector + r.sectorCount
    ensures r.EndAddress() == (r.EndSector() + 1) * r.bytesPerSector
  {
    calc {
      r.EndAddress();
      r.startSector * r.bytesPerSector + r.sectorCount * r.bytesPerSector;
      { MulDistributes(r.startSector, r.sectorCount, r.bytesPerSector); }
      (r.startSector + r.sectorCount) * r.bytesPerSector;
    }
  }

  /** A range that starts at the sector after another's EndSector starts at the byte after its last byte. */
  lemma FollowingRangeAbuts(a: SectorRange, b: SectorRange)
    requires b.startSector == a.EndSector() + 1 && b.bytesPerSector == a.bytesPerSector
    ensures b.StartAddress() == a.EndAddress()
  {
    SectorRangeSpan(a);
  }

  lemma MulDistributes(x: nat, y: nat, z: nat)
    ensures x * z + y * z == (x + y) * z
  {
  }

  /** `toFriendlySize`: only the floppy size has a friendly name. */
  function ToFriendlySize(sizeInBytes: int): (r: Result<string, string>)
    ensures r.Success? <==> sizeInBytes == 1474560
    ensures r.Success? ==> r.value == "1.44 MB"
    ensures r.Failure? ==> r.error == "Not implemented yet"
  {
    if sizeInBytes == FloppySize then Success("1.44 MB") else Failure("Not implemented yet")
  }

  // ---------------------------------------------------------------------------
  // Errors, the file system and the effect of an operation on it
  // ---------------------------------------------------------------------------

  datatype DiskError =
    | SourceNotFound(path: Path)                 // copyBlock's source is missing
    | SizeExceeded(path: Path, maxSize: nat)     // a floppy payload is larger than its section
    | NoSuchFile(syscall: string, path: Path)    // ENOENT from stat or a whole-file read
  {
    function Message(): string {
      match this
      case SourceNotFound(p) => "Source file '" + p + "' not found."
      case SizeExceeded(p, m) => "The size of '" + p + "' exceeds the maximum size of " + NatToDigits(m, 10) + "."
      case NoSuchFile(call, p) => "ENOENT: no such file or directory, " + call + " '" + p + "'"
    }
  }

  /** What an operation returns and the files it leaves behind (also when it fails part-way). */
  datatype Effect<T> = Effect(result: Result<T, DiskError>, files: Files)

  class FileSystem {
    var files: Files

    constructor (files: Files)
      ensures this.files == files
    {
      this.files := files;
    }
  }

  // ---------------------------------------------------------------------------
  // Bytes
  // ---------------------------------------------------------------------------

  function Zeros(n: nat): (z: seq<byte>)
    ensures |z| == n && forall i :: 0 <= i < n ==> z[i] == 0
  {
    if n == 0 then [] else Zeros(n - 1) + [0]
  }

  lemma ZerosAppend(a: nat, b: nat)
    ensures Zeros(a) + Zeros(b) == Zeros(a + b)
  {
    assert forall i :: 0 <= i < a + b ==> (Zeros(a) + Zeros(b))[i] == 0;
  }

  /** The byte at position `i` after `data` is written at `offset` into `dest`. */
  function ByteAfterWrite(dest: seq<byte>, offset: nat, data: seq<byte>, i: nat): byte {
    if offset <= i < offset + |data| then data[i - offset]
    else if i < |dest| then dest[i]
    else 0
  }

  /** Writes one byte at `offset`, zero-filling any gap between the end of `dest` and `offset`. */
  function WriteByte(dest: seq<byte>, offset: nat, b: byte): (r: seq<byte>)
    ensures |r| == Max(|dest|, offset + 1)
  {
    if offset < |dest| then dest[offset := b] else dest + Zeros(offset - |dest|) + [b]
  }

  lemma WriteByteBytes(dest: seq<byte>, offset: nat, b: byte)
    ensures var r := WriteByte(dest, offset, b);
            forall i :: 0 <= i < |r| ==> r[i] == ByteAfterWrite(dest, offset, [b], i)
  {
  }

  /**
   * A positional write: `data` replaces the bytes at `offset`, the file grows when the
   * write runs past its end, and a gap between the old end and `offset` is zero-filled.
   * Writing nothing changes nothing.
   */
  function Overwrite(dest: seq<byte>, offset: nat, data: seq<byte>): (r: seq<byte>)
    ensures |r| == if |data| == 0 then |dest| else Max(|dest|, offset + |data|)
    decreases |data|
  {
    if |data| == 0 then dest
    else Overwrite(WriteByte(dest, offset, data[0]), offset + 1, data[1..])
  }

  /** Byte by byte, a positional write is ByteAfterWrite. */
  lemma {:induction false} OverwriteBytes(dest: seq<byte>, offset: nat, data: seq<byte>)
    ensures var r := Overwrite(dest, offset, data);
            forall i :: 0 <= i < |r| ==> r[i] == ByteAfterWrite(dest, offset, data, i)
    decreases |data|
  {
    if data != [] {
      var d1 := WriteByte(dest, offset, data[0]);
      WriteByteBytes(dest, offset, data[0]);
      OverwriteBytes(d1, offset + 1, data[1..]);
      var r := Overwrite(dest, offset, data);
      forall i | 0 <= i < |r| ensures r[i] == ByteAfterWrite(dest, offset, data, i) {
        assert r[i] == ByteAfterWrite(d1, offset + 1, data[1..], i);
        if offset + 1 <= i < offset + |data| {
          assert data[1..][i - offset - 1] == data[i - offset];
        } else if i < |d1| {
          assert d1[i] == ByteAfterWrite(dest, offset, [data[0]], i);
        }
      }
    }
  }

  /** A write at the start of a file replaces its head and keeps whatever lies beyond the written bytes. */
  lemma OverwriteFromStart(dest: seq<byte>, data: seq<byte>)
    requires data != []
    ensures Overwrite(dest, 0, data) == data + (if |data| < |dest| then dest[|data|..] else [])
  {
    var r := Overwrite(dest, 0, data);
    var expected := data + (if |data| < |dest| then dest[|data|..] else []);
    OverwriteBytes(dest, 0, data);
    assert |r| == |expected|;
    forall i | 0 <= i < |r| ensures r[i] == expected[i] {
      assert r[i] == ByteAfterWrite(dest, 0, data, i);
    }
  }

  /** Two consecutive writes are one write of the concatenation. */
  lemma {:induction false} OverwriteAppend(dest: seq<byte>, offset: nat, a: seq<byte>, b: seq<byte>)
    ensures Overwrite(Overwrite(dest, offset, a), offset + |a|, b) == Overwrite(dest, offset, a + b)
    decreases |a|
  {
    if |a| == 0 {
      assert a + b == b;
    } else {
      var d1 := WriteByte(dest, offset, a[0]);
      assert (a + b)[0] == a[0] && (a + b)[1..] == a[1..] + b;
      OverwriteAppend(d1, offset + 1, a[1..], b);
    }
  }

  /** The `k` bytes of `s` from `offset`; empty when `k` is 0 whatever the offset. */
  function Segment(s: seq<byte>, offset: nat, k: nat): (r: seq<byte>)
    requires k == 0 || offset + k <= |s|
    ensures |r| == k
  {
    if k == 0 then [] else s[offset..offset + k]
  }

  // ---------------------------------------------------------------------------
  // copyBlock
  // ---------------------------------------------------------------------------

  /** `maxSourceLength || Number.MAX_SAFE_INTEGER`: a missing or zero length means "no limit". */
  function EffectiveLimit(maxSourceLength: Option<nat>): (limit: nat)
    ensures limit > 0
    ensures maxSourceLength.Some? && maxSourceLength.value > 0 ==> limit == maxSourceLength.value
    ensures maxSourceLength.None? || maxSourceLength.value == 0 ==> limit == MaxSafeInteger
  {
    match maxSourceLength
    case Some(n) => if n == 0 then MaxSafeInteger else n
    case None => MaxSafeInteger
  }

  /** The number of bytes a copy moves: the limit, or what the source holds past the offset if that is less. */
  function CopyCount(sourceLength: nat, sourceOffset: nat, limit: nat): (k: nat)
    ensures k <= limit && (k == 0 || sourceOffset + k <= sourceLength)
    ensures k == limit || sourceOffset + k >= sourceLength
  {
    if sourceOffset < sourceLength then Min(limit, sourceLength - sourceOffset) else 0
  }

  /**
   * What `copyBlock` does to the files, reading the source as it was when the copy began:
   * a missing source fails before anything else; a missing destination is created empty;
   * then the copied bytes are written at the destination offset.
   */
  function CopyBlockSpec(files: Files, sourceFilePath: Path, destinationDiskPath: Path,
                         sourceOffset: Option<nat>, maxSourceLength: Option<nat>,
                         destinationOffset: Option<nat>): (e: Effect<nat>)
    ensures sourceFilePath !in files <==> e.result.Failure?
    ensures e.result.Failure? ==> e.result.error == SourceNotFound(sourceFilePath) && e.files == files
    ensures e.result.Success? ==> e.files.Keys == files.Keys + {destinationDiskPath}
  {
    if sourceFilePath !in files then Effect(Failure(SourceNotFound(sourceFilePath)), files)
    else
      var source := files[sourceFilePath];
      var offset := sourceOffset.GetOr(0);
      var k := CopyCount(|source|, offset, EffectiveLimit(maxSourceLength));
      var dest := if destinationDiskPath in files then files[destinationDiskPath] else [];
      var written := Overwrite(dest, destinationOffset.GetOr(0), Segment(source, offset, k));
      Effect(Success(k), files[destinationDiskPath := written])
  }

  /**
   * After `k` bytes from offset `o` of `src` are written at offset `d`, byte d + j is byte
   * o + j of the source for j < k, every other byte is as it was (zero in a gap past the old
   * end), and the file is as long as before or long enough to hold the last byte written.
   */
  lemma CopiedBytes(before: seq<byte>, src: seq<byte>, o: nat, d: nat, k: nat)
    requires k == 0 || o + k <= |src|
    ensures var after := Overwrite(before, d, Segment(src, o, k));
            && |after| == (if k == 0 then |before| else Max(|before|, d + k))
            && (forall i :: d <= i < d + k ==> after[i] == src[o + (i - d)])
            && (forall i :: 0 <= i < |after| && !(d <= i < d + k) ==> after[i] == if i < |before| then before[i] else 0)
  {
    var data := Segment(src, o, k);
    var after := Overwrite(before, d, data);
    OverwriteBytes(before, d, data);
    forall i | d <= i < d + k ensures after[i] == src[o + (i - d)] {
      assert after[i] == ByteAfterWrite(before, d, data, i);
      assert data[i - d] == src[o + (i - d)];
    }
  }

  /**
   * A missing or zero `maxSourceLength` means no limit: the copy moves everything the source
   * holds past the offset (a file is never longer than Number.MAX_SAFE_INTEGER bytes).
   */
  lemma CopyBlockUnlimited(files: Files, sourceFilePath: Path, destinationDiskPath: Path,
                           sourceOffset: Option<nat>, maxSourceLength: Option<nat>, destinationOffset: Option<nat>)
    requires sourceFilePath in files && |files[sourceFilePath]| <= MaxSafeInteger
    requires maxSourceLength.None? || maxSourceLength.value == 0
    ensures var source, o := files[sourceFilePath], sourceOffset.GetOr(0);
            var e := CopyBlockSpec(files, sourceFilePath, destinationDiskPath, sourceOffset, maxSourceLength, destinationOffset);
            && e.result == Success(if o < |source| then |source| - o else 0)
            && e.files[destinationDiskPath]
                 == Overwrite(if destinationDiskPath in files then files[destinationDiskPath] else [],
                              destinationOffset.GetOr(0), if o < |source| then source[o..] else [])
  {
    var source, o := files[sourceFilePath], sourceOffset.GetOr(0);
    var k := CopyCount(|source|, o, EffectiveLimit(maxSourceLength));
    assert k == if o < |source| then |source| - o else 0;
    assert Segment(source, o, k) == if o < |source| then source[o..] else [];
  }

  /**
   * `copyBlock`: copies up to `maxSourceLength` bytes from `sourceOffset` in the source into
   * the destination at `destinationOffset`, 4096 bytes at a time, and returns how many bytes
   * it copied. The source is read as the copy proceeds, so the result is stated for a
   * source and destination that are different files.
   */
  method CopyBlock(fs: FileSystem, sourceFilePath: Path, destinationDiskPath: Path,
                   sourceOffset: Option<nat>, maxSourceLength: Option<nat>,
                   destinationOffset: Option<nat>)
    returns (r: Result<nat, DiskError>)
    modifies fs
    ensures sourceFilePath !in old(fs.files) ==> r == Failure(SourceNotFound(sourceFilePath)) && fs.files == old(fs.files)
    ensures sourceFilePath in old(fs.files) ==> r.Success? && fs.files.Keys == old(fs.files).Keys + {destinationDiskPath}
    ensures forall p :: p in old(fs.files) && p != destinationDiskPath ==> p in fs.files && fs.files[p] == old(fs.files)[p]
    ensures sourceFilePath != destinationDiskPath ==>
      Effect(r, fs.files) == CopyBlockSpec(old(fs.files), sourceFilePath, destinationDiskPath,
                                           sourceOffset, maxSourceLength, destinationOffset)
  {
    // openForRead: a missing source fails before the destination is touched
    if sourceFilePath !in fs.files {
      return Failure(SourceNotFound(sourceFilePath));
    }
    // openForWrite: ensureFileSync creates a missing destination
    ghost var files0 := fs.files;
    if destinationDiskPath !in fs.files {
      fs.files := fs.files[destinationDiskPath := []];
    }
    var totalBytesRead := CopyLoop(fs, sourceFilePath, destinationDiskPath,
                                   sourceOffset.GetOr(0), EffectiveLimit(maxSourceLength), destinationOffset.GetOr(0));
    if destinationDiskPath !in files0 {
      MapUpdateOverride(files0, destinationDiskPath, [], fs.files[destinationDiskPath]);
    }
    r := Success(totalBytesRead);
  }

  /** The first `t` bytes from offset `o` of `source` have been written at offset `d` of `dest0`, giving `now`. */
  ghost predicate CopiedSoFar(source: seq<byte>, dest0: seq<byte>, o: nat, d: nat, t: nat, now: seq<byte>) {
    && (t == 0 || o + t <= |source|)
    && now == Overwrite(dest0, d, Segment(source, o, t))
  }

  /** The read/write loop of `copyBlock`, once both files are open. */
  method CopyLoop(fs: FileSystem, sourceFilePath: Path, destinationDiskPath: Path,
                  sourceOffset: nat, totalBytesToRead: nat, destinationOffset: nat)
    returns (totalBytesRead: nat)
    requires sourceFilePath in fs.files && destinationDiskPath in fs.files
    modifies fs
    ensures destinationDiskPath in fs.files && fs.files == old(fs.files)[destinationDiskPath := fs.files[destinationDiskPath]]
    ensures sourceFilePath != destinationDiskPath ==>
      var source := old(fs.files)[sourceFilePath];
      && totalBytesRead == CopyCount(|source|, sourceOffset, totalBytesToRead)
      && fs.files[destinationDiskPath] == Overwrite(old(fs.files)[destinationDiskPath], destinationOffset,
                                                    Segment(source, sourceOffset, totalBytesRead))
  {
    ghost var source := fs.files[sourceFilePath];
    ghost var dest0 := fs.files[destinationDiskPath];
    ghost var distinct := sourceFilePath != destinationDiskPath;
    ghost var destNow := dest0;
    MapUpdateSame(fs.files, destinationDiskPath);

    var sourcePos := sourceOffset;
    var destPos := destinationOffset;
    totalBytesRead := 0;
    var bytesToRead := Min(totalBytesToRead, BufferSize);

    while bytesToRead > 0
      invariant totalBytesRead <= totalBytesToRead
      invariant bytesToRead == Min(totalBytesToRead - totalBytesRead, BufferSize)
      invariant sourcePos == sourceOffset + totalBytesRead && destPos == destinationOffset + totalBytesRead
      invariant fs.files == old(fs.files)[destinationDiskPath := destNow]
      invariant distinct ==> fs.files[sourceFilePath] == source
      invariant distinct ==> CopiedSoFar(source, dest0, sourceOffset, destinationOffset, totalBytesRead, destNow)
      decreases totalBytesToRead - totalBytesRead
    {
      var bytesRead;
      bytesRead, destNow := CopyTurn(fs, sourceFilePath, destinationDiskPath, sourcePos, destPos, bytesToRead,
                                     old(fs.files), destNow, source, dest0, sourceOffset, destinationOffset, totalBytesRead);
      if bytesRead == 0 {
        break;
      }
      totalBytesRead := totalBytesRead + bytesRead;
      sourcePos := sourcePos + bytesRead;
      destPos := destPos + bytesRead;
      bytesToRead := Min(totalBytesToRead - totalBytesRead, BufferSize);
    }
    if distinct {
      CopyFinished(|source|, sourceOffset, totalBytesToRead, totalBytesRead);
    }
  }

  /**
   * One turn of the copy loop: `readSync` of at most `bytesToRead` bytes at `sourcePos`
   * (fewer at the end of the source), then `writeSync` of what was read at `destPos`.
   */
  method CopyChunk(fs: FileSystem, sourceFilePath: Path, destinationDiskPath: Path,
                   sourcePos: nat, destPos: nat, bytesToRead: nat)
    returns (bytesRead: nat)
    requires sourceFilePath in fs.files && destinationDiskPath in fs.files
    modifies fs
    ensures var source := old(fs.files)[sourceFilePath];
            && bytesRead == (if sourcePos < |source| then Min(bytesToRead, |source| - sourcePos) else 0)
            && fs.files == old(fs.files)[destinationDiskPath :=
                 Overwrite(old(fs.files)[destinationDiskPath], destPos, Segment(source, sourcePos, bytesRead))]
  {
    var sourceBytes := fs.files[sourceFilePath];
    bytesRead := if sourcePos < |sourceBytes| then Min(bytesToRead, |sourceBytes| - sourcePos) else 0;
    if bytesRead > 0 {
      var chunk := sourceBytes[sourcePos..sourcePos + bytesRead];
      fs.files := fs.files[destinationDiskPath := Overwrite(fs.files[destinationDiskPath], destPos, chunk)];
    } else {
      MapUpdateSame(fs.files, destinationDiskPath);
    }
  }

  /**
   * One turn of the copy loop, with what it does to the copy so far: when the source is
   * not the destination, the chunk extends the bytes copied from offset `o` to offset `d`.
   */
  method CopyTurn(fs: FileSystem, sourceFilePath: Path, destinationDiskPath: Path,
                  sourcePos: nat, destPos: nat, bytesToRead: nat,
                  ghost files0: Files, ghost destNow: seq<byte>, ghost source: seq<byte>, ghost dest0: seq<byte>,
                  ghost o: nat, ghost d: nat, ghost t: nat)
    returns (bytesRead: nat, ghost destNext: seq<byte>)
    requires sourceFilePath in fs.files && destinationDiskPath in files0
    requires fs.files == files0[destinationDiskPath := destNow]
    modifies fs
    ensures fs.files == files0[destinationDiskPath := destNext]
    ensures var src := old(fs.files)[sourceFilePath];
            bytesRead == (if sourcePos < |src| then Min(bytesToRead, |src| - sourcePos) else 0)
    ensures bytesRead == 0 ==> destNext == destNow
    ensures sourceFilePath != destinationDiskPath ==> fs.files[sourceFilePath] == old(fs.files)[sourceFilePath]
    ensures sourceFilePath != destinationDiskPath && old(fs.files)[sourceFilePath] == source &&
            sourcePos == o + t && destPos == d + t && bytesRead > 0 &&
            CopiedSoFar(source, dest0, o, d, t, destNow) ==>
              CopiedSoFar(source, dest0, o, d, t + bytesRead, destNext)
  {
    bytesRead := CopyChunk(fs, sourceFilePath, destinationDiskPath, sourcePos, destPos, bytesToRead);
    destNext := fs.files[destinationDiskPath];
    MapUpdateOverride(files0, destinationDiskPath, destNow, destNext);
    if sourceFilePath != destinationDiskPath && old(fs.files)[sourceFilePath] == source &&
       sourcePos == o + t && destPos == d + t && bytesRead > 0 &&
       CopiedSoFar(source, dest0, o, d, t, destNow) {
      CopyAdvance(source, dest0, o, d, t, bytesRead, destNow, destNext);
    }
  }

  /** One chunk of the copy extends what has been copied so far by that chunk. */
  lemma CopyStep(source: seq<byte>, dest0: seq<byte>, o: nat, d: nat, t: nat, n: nat)
    requires o + t + n <= |source|
    ensures Overwrite(Overwrite(dest0, d, Segment(source, o, t)), d + t, Segment(source, o + t, n))
         == Overwrite(dest0, d, Segment(source, o, t + n))
  {
    SegmentAppend(source, o, t, n);
    OverwriteAppendAt(dest0, d, Segment(source, o, t), Segment(source, o + t, n), t);
  }

  /** OverwriteAppend with the length of the first write given as `m`. */
  lemma OverwriteAppendAt(dest: seq<byte>, offset: nat, a: seq<byte>, b: seq<byte>, m: nat)
    requires m == |a|
    ensures Overwrite(Overwrite(dest, offset, a), offset + m, b) == Overwrite(dest, offset, a + b)
  {
    OverwriteAppend(dest, offset, a, b);
  }

  /** The loop invariant of `copyBlock` carried over one chunk. */
  lemma CopyAdvance(source: seq<byte>, dest0: seq<byte>, o: nat, d: nat, t: nat, n: nat,
                    before: seq<byte>, after: seq<byte>)
    requires n > 0 && n == (if o + t < |source| then Min(n, |source| - (o + t)) else 0)
    requires CopiedSoFar(source, dest0, o, d, t, before)
    requires after == Overwrite(before, d + t, Segment(source, o + t, n))
    ensures CopiedSoFar(source, dest0, o, d, t + n, after)
  {
    CopyStep(source, dest0, o, d, t, n);
  }

  /** A segment followed by the bytes right after it is the longer segment. */
  lemma SegmentAppend(s: seq<byte>, offset: nat, k: nat, n: nat)
    requires offset + k + n <= |s|
    ensures Segment(s, offset, k) + Segment(s, offset + k, n) == Segment(s, offset, k + n)
  {
    if k > 0 && n > 0 {
      assert s[offset..offset + k] + s[offset + k..offset + k + n] == s[offset..offset + k + n];
    }
  }

  /** Updating a key with the value it already has changes nothing. */
  lemma MapUpdateSame<K, V>(m: map<K, V>, key: K)
    requires key in m
    ensures m[key := m[key]] == m
  {
  }

  /** A map updated twice at one key holds only the second value. */
  lemma MapUpdateOverride<K, V>(m: map<K, V>, key: K, a: V, b: V)
    ensures m[key := a][key := b] == m[key := b]
  {
  }

  /** When the loop stops, it has copied the limit or everything past the offset. */
  lemma CopyFinished(sourceLength: nat, o: nat, limit: nat, t: nat)
    requires t <= limit && (t == 0 || o + t <= sourceLength)
    requires Min(limit - t, BufferSize) == 0 || o + t >= sourceLength
    ensures t == CopyCount(sourceLength, o, limit)
  {
  }

  // ---------------------------------------------------------------------------
  // createBlankDisk
  // ---------------------------------------------------------------------------

  /** `createBlankDisk`: the file at `outPath` becomes `sizeInBytes` zero bytes, written 4096 at a time. */
  method CreateBlankDisk(fs: FileSystem, outPath: Path, sizeInBytes: nat)
    modifies fs
    ensures fs.files == old(fs.files)[outPath := Zeros(sizeInBytes)]
  {
    // opening with 'w' creates the file or truncates it
    fs.files := fs.files[outPath := []];
    var i := 0;
    while i < sizeInBytes
      invariant fs.files == old(fs.files)[outPath := Zeros(Min(i, sizeInBytes))]
    {
      var count := Min(sizeInBytes - i, BufferSize);
      ZerosAppend(i, count);
      MapUpdateOverride(old(fs.files), outPath, Zeros(i), Zeros(i + count));
      fs.files := fs.files[outPath := fs.files[outPath] + Zeros(count)];
      i := i + BufferSize;
    }
  }

  // ---------------------------------------------------------------------------
  // trimTrailingZerosAndAlignTo16ByteBoundary
  // ---------------------------------------------------------------------------

  /** The index of the last non-zero byte, or -1 when there is none. */
  function LastNonZero(b: seq<byte>): (k: int)
    ensures -1 <= k < |b|
    ensures k >= 0 ==> b[k] != 0
    ensures forall j :: k < j < |b| ==> b[j] == 0
  {
    if |b| == 0 then -1
    else if b[|b| - 1] != 0 then |b| - 1
    else LastNonZero(b[..|b| - 1])
  }

  /** Any index that has the two properties of LastNonZero is LastNonZero. */
  lemma LastNonZeroUnique(b: seq<byte>, k: int)
    requires -1 <= k < |b|
    requires k >= 0 ==> b[k] != 0
    requires forall j :: k < j < |b| ==> b[j] == 0
    ensures LastNonZero(b) == k
  {
  }

  /** The zeros that complete the last 16-byte row of `length` bytes. */
  function PaddingLength(length: nat): (p: nat)
    ensures p < 16 && (length + p) % 16 == 0
  {
    var bytesInLastRow := if length % 16 == 0 then 16 else length % 16;
    16 - bytesInLastRow
  }

  /** The trimmed file: the bytes up to the last non-zero byte, then zeros to a multiple of 16. */
  function TrimAligned(b: seq<byte>): (r: seq<byte>)
    ensures |r| % 16 == 0
    ensures var n := LastNonZero(b) + 1;
            && n <= |r| < n + 16
            && r[..n] == b[..n]
            && forall j :: n <= j < |r| ==> r[j] == 0
  {
    var truncated := b[..LastNonZero(b) + 1];
    truncated + Zeros(PaddingLength(|truncated|))
  }

  /** A file with no non-zero byte (the empty file included) trims to nothing. */
  lemma TrimAllZero(b: seq<byte>)
    requires forall j :: 0 <= j < |b| ==> b[j] == 0
    ensures TrimAligned(b) == []
  {
    LastNonZeroUnique(b, -1);
  }

  /** Trimming keeps the last non-zero byte where it was. */
  lemma TrimKeepsLastNonZero(b: seq<byte>)
    ensures LastNonZero(TrimAligned(b)) == LastNonZero(b)
  {
    var r := TrimAligned(b);
    var k := LastNonZero(b);
    if k >= 0 {
      assert r[..k + 1][k] == b[..k + 1][k];
    }
    LastNonZeroUnique(r, k);
  }

  /** Trimming a trimmed file changes nothing. */
  lemma {:induction false} TrimIdempotent(b: seq<byte>)
    ensures TrimAligned(TrimAligned(b)) == TrimAligned(b)
  {
    var r := TrimAligned(b);
    TrimKeepsLastNonZero(b);
    var n := LastNonZero(b) + 1;
    var r2 := TrimAligned(r);
    assert |r2| == |r| by {
      assert PaddingLength(n) == |r| - n;
    }
    assert r2[..n] == r[..n];
  }

  /** When trimming does not change the length it does not change the bytes. */
  lemma TrimSameLengthUnchanged(b: seq<byte>)
    requires |TrimAligned(b)| == |b|
    ensures TrimAligned(b) == b
  {
    var r := TrimAligned(b);
    var n := LastNonZero(b) + 1;
    assert r[..n] == b[..n];
    forall j | 0 <= j < |b| ensures r[j] == b[j] {
      if j < n {
        assert r[..n][j] == b[..n][j];
      }
    }
  }

  /** What the trim does to the files and what it returns: the old length minus the new one. */
  function TrimSpec(files: Files, filePath: Path): (e: Effect<int>)
    ensures filePath !in files ==> e == Effect(Failure(NoSuchFile("open", filePath)), files)
    ensures filePath in files ==> e.result.Success? && e.files.Keys == files.Keys
  {
    if filePath !in files then Effect(Failure(NoSuchFile("open", filePath)), files)
    else
      var b := files[filePath];
      Effect(Success(|b| - |TrimAligned(b)|), files[filePath := TrimAligned(b)])
  }

  /** A second trim leaves the file as it is and reports 0. */
  lemma TrimTwice(files: Files, filePath: Path)
    requires filePath in files
    ensures var once := TrimSpec(files, filePath);
            TrimSpec(once.files, filePath) == Effect(Success(0), once.files)
  {
    TrimIdempotent(files[filePath]);
    var once := TrimSpec(files, filePath);
    assert once.files[filePath := TrimAligned(once.files[filePath])] == once.files;
  }

  /**
   * `trimTrailingZerosAndAlignTo16ByteBoundary`: scans back from the end for the last
   * non-zero byte, pads the kept bytes with zeros to a multiple of 16, writes the file back
   * only when its length changes, and returns the old length minus the new one.
   */
  method TrimTrailingZerosAndAlignTo16ByteBoundary(fs: FileSystem, filePath: Path) returns (r: Result<int, DiskError>)
    modifies fs
    ensures Effect(r, fs.files) == TrimSpec(old(fs.files), filePath)
  {
    // readFileSync
    if filePath !in fs.files {
      return Failure(NoSuchFile("open", filePath));
    }
    var buffer := fs.files[filePath];

    // buffer[-1] is undefined in JavaScript, so the scan stops at -1 on an all-zero buffer
    var lastZeroIndex := |buffer| - 1;
    while 0 <= lastZeroIndex && buffer[lastZeroIndex] == 0
      invariant -1 <= lastZeroIndex < |buffer|
      invariant forall j :: lastZeroIndex < j < |buffer| ==> buffer[j] == 0
    {
      lastZeroIndex := lastZeroIndex - 1;
    }
    LastNonZeroUnique(buffer, lastZeroIndex);

    var truncatedBuffer := buffer[..lastZeroIndex + 1];
    var bytesInLastRow := if |truncatedBuffer| % 16 == 0 then 16 else |truncatedBuffer| % 16;
    var paddingLength := 16 - bytesInLastRow;
    var paddedBuffer := truncatedBuffer + Zeros(paddingLength);

    if |paddedBuffer| != |buffer| {
      fs.files := fs.files[filePath := paddedBuffer];
    } else {
      TrimSameLengthUnchanged(buffer);
      assert fs.files[filePath := paddedBuffer] == fs.files;
    }
    r := Success(|buffer| - |paddedBuffer|);
  }

  // ---------------------------------------------------------------------------
  // The behaviour the unit tests pin down
  // ---------------------------------------------------------------------------

  lemma SectorRangeExamples()
    ensures SectorRange(4, 4, 10).StartAddress() == 40
    ensures SectorRange(0, 4, 10).EndSector() == 3
    ensures SectorRange(0, 4, 10).TotalBytes() == 40
  {
  }

  /** Copying 3 bytes from offset 4 into offset 1, and copying a whole file over a shorter one. */
  lemma CopyBlockExamples()
    ensures var files := map["in.bin" := [0, 1, 2, 3, 4, 5, 6, 7, 8, 9], "out.bin" := [0xa, 0xb, 0xc, 0xd, 0xe, 0xf]];
            var part := CopyBlockSpec(files, "in.bin", "out.bin", Some(4), Some(3), Some(1));
            var whole := CopyBlockSpec(files, "in.bin", "out.bin", None, None, None);
            && part.result == Success(3) && part.files["out.bin"] == [0xa, 4, 5, 6, 0xe, 0xf]
            && whole.result == Success(10) && whole.files["out.bin"] == files["in.bin"]
  {
    var source: seq<byte> := [0, 1, 2, 3, 4, 5, 6, 7, 8, 9];
    var dest: seq<byte> := [0xa, 0xb, 0xc, 0xd, 0xe, 0xf];
    var part := Overwrite(dest, 1, Segment(source, 4, 3));
    OverwriteBytes(dest, 1, Segment(source, 4, 3));
    assert part == [0xa, 4, 5, 6, 0xe, 0xf] by {
      assert |part| == 6;
      forall i | 0 <= i < 6 ensures part[i] == [0xa, 4, 5, 6, 0xe, 0xf][i] {
        assert part[i] == ByteAfterWrite(dest, 1, Segment(source, 4, 3), i);
      }
    }
    var whole := Overwrite(dest, 0, Segment(source, 0, 10));
    OverwriteBytes(dest, 0, Segment(source, 0, 10));
    assert whole == source by {
      assert |whole| == 10;
      forall i | 0 <= i < 10 ensures whole[i] == source[i] {
        assert whole[i] == ByteAfterWrite(dest, 0, Segment(source, 0, 10), i);
      }
    }
  }

  /** Sixteen bytes ending in a non-zero byte are left alone. */
  lemma TrimFullRowExample()
    ensures var b: seq<byte> := [1, 2, 3, 4, 5, 6, 7, 8, 1, 2, 3, 4, 5, 6, 7, 8];
            TrimAligned(b) == b
  {
    var b: seq<byte> := [1, 2, 3, 4, 5, 6, 7, 8, 1, 2, 3, 4, 5, 6, 7, 8];
    LastNonZeroUnique(b, 15);
    TrimSameLengthUnchanged(b);
  }

  /** Zeros that complete the last row are kept. */
  lemma TrimPaddedRowExample()
    ensures var b: seq<byte> := [1, 2, 3, 4, 5, 6, 7, 8, 1, 2, 3, 0, 0, 0, 0, 0];
            TrimAligned(b) == b
  {
    var b: seq<byte> := [1, 2, 3, 4, 5, 6, 7, 8, 1, 2, 3, 0, 0, 0, 0, 0];
    LastNonZeroUnique(b, 10);
    TrimSameLengthUnchanged(b);
  }

  /** Four bytes are padded to sixteen: the trim reports -12. */
  lemma TrimPadsExample()
    ensures var b: seq<byte> := [1, 2, 3, 4];
            && TrimAligned(b) == [1, 2, 3, 4, 0, 0, 0, 0, 0, 0, 0, 0, 0, 0, 0, 0]
            && |b| - |TrimAligned(b)| == -12
  {
    var b: seq<byte> := [1, 2, 3, 4];
    LastNonZeroUnique(b, 3);
    assert b[..4] == b;
  }

  /** Four rows of which only the second starts with non-zero bytes become two rows: the trim reports 32. */
  lemma TrimDropsRowsExample()
    ensures var b: seq<byte> := [1, 2, 3, 4, 5, 6, 7, 8, 1, 2, 3, 4, 5, 6, 7, 8] + [1, 2, 3] + Zeros(45);
            && TrimAligned(b) == [1, 2, 3, 4, 5, 6, 7, 8, 1, 2, 3, 4, 5, 6, 7, 8] + [1, 2, 3] + Zeros(13)
            && |b| - |TrimAligned(b)| == 32
  {
    var b: seq<byte> := [1, 2, 3, 4, 5, 6, 7, 8, 1, 2, 3, 4, 5, 6, 7, 8] + [1, 2, 3] + Zeros(45);
    LastNonZeroUnique(b, 18);
    var r := TrimAligned(b);
    var expected: seq<byte> := [1, 2, 3, 4, 5, 6, 7, 8, 1, 2, 3, 4, 5, 6, 7, 8] + [1, 2, 3] + Zeros(13);
    assert r == expected by {
      assert |r| == 32;
      forall i | 0 <= i < 32 ensures r[i] == expected[i] {
        if i < 19 {
          assert r[..19][i] == b[..19][i];
        }
      }
    }
  }
}
