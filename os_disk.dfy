/**
 * The RockOS floppy: where each part of the operating system lives on the diskette, how a
 * bootable image is assembled from the part files, and how the assembler's output is
 * pulled back out of an image.
 */
module OsDisk {
  import opened Wrappers
  import opened Disk

  const SectorsFor28K: nat := 56
  const SectorsFor1MB: nat := 2000

  // ---------------------------------------------------------------------------
  // The sector map
  // ---------------------------------------------------------------------------

  /** `OsFloppySectorMap`: the boot sector, kernel, assembler, source file and assembled file. */
  datatype SectorMap = SectorMap(
    bootSector: FloppySectorRange,
    kernelSector: FloppySectorRange,
    assemblerSector: FloppySectorRange,
    sourceFileSector: FloppySectorRange,
    assembledFileSector: FloppySectorRange)
  {
    function Ranges(): seq<FloppySectorRange> {
      [bootSector, kernelSector, assemblerSector, sourceFileSector, assembledFileSector]
    }
  }

  /** The range of `sectorCount` sectors that starts right after `previous`. */
  function Following(previous: SectorRange, sectorCount: nat): (r: FloppySectorRange)
    ensures r.startSector == previous.EndSector() + 1 && r.sectorCount == sectorCount
  {
    FloppyRange((previous.EndSector() + 1) as nat, sectorCount)
  }

  /**
   * The sector map constructor: the boot sector is always sector 0; each section that is not
   * given is placed right after the section before it, with 56 sectors (28K) for the kernel,
   * the assembler and the assembled file and 2000 sectors (1MB) for the source file.
   */
  function NewSectorMap(kernelSector: Option<FloppySectorRange>, assemblerSector: Option<FloppySectorRange>,
                        sourceFileSector: Option<FloppySectorRange>, assembledFileSector: Option<FloppySectorRange>)
    : (m: SectorMap)
    ensures m.bootSector == FloppyRange(0, 1)
    ensures kernelSector.Some? ==> m.kernelSector == kernelSector.value
    ensures kernelSector.None? ==> m.kernelSector == FloppyRange(1, 56)
    ensures assemblerSector.Some? ==> m.assemblerSector == assemblerSector.value
    ensures assemblerSector.None? ==>
      m.assemblerSector.startSector == m.kernelSector.EndSector() + 1 && m.assemblerSector.sectorCount == 56
    ensures sourceFileSector.Some? ==> m.sourceFileSector == sourceFileSector.value
    ensures sourceFileSector.None? ==>
      m.sourceFileSector.startSector == m.assemblerSector.EndSector() + 1 && m.sourceFileSector.sectorCount == 2000
    ensures assembledFileSector.Some? ==> m.assembledFileSector == assembledFileSector.value
    ensures assembledFileSector.None? ==>
      m.assembledFileSector.startSector == m.sourceFileSector.EndSector() + 1 && m.assembledFileSector.sectorCount == 56
  {
    var boot := FloppyRange(0, 1);
    var kernel := kernelSector.GetOr(FloppyRange(1, SectorsFor28K));
    var assembler := assemblerSector.GetOr(Following(kernel, SectorsFor28K));
    var source := sourceFileSector.GetOr(Following(assembler, SectorsFor1MB));
    var assembled := assembledFileSector.GetOr(Following(source, SectorsFor28K));
    SectorMap(boot, kernel, assembler, source, assembled)
  }

  /** `defaultOsFloppySectorMap`. */
  const DefaultSectorMap: SectorMap := NewSectorMap(None, None, None, None)

  /** Sections the constructor places itself start at the byte right after the section before them. */
  lemma NewSectorMapContiguous(kernelSector: Option<FloppySectorRange>, assemblerSector: Option<FloppySectorRange>,
                               sourceFileSector: Option<FloppySectorRange>, assembledFileSector: Option<FloppySectorRange>)
    ensures var m := NewSectorMap(kernelSector, assemblerSector, sourceFileSector, assembledFileSector);
            && (kernelSector.None? ==> m.kernelSector.StartAddress() == m.bootSector.EndAddress())
            && (assemblerSector.None? ==> m.assemblerSector.StartAddress() == m.kernelSector.EndAddress())
            && (sourceFileSector.None? ==> m.sourceFileSector.StartAddress() == m.assemblerSector.EndAddress())
            && (assembledFileSector.None? ==> m.assembledFileSector.StartAddress() == m.sourceFileSector.EndAddress())
  {
    var m := NewSectorMap(kernelSector, assemblerSector, sourceFileSector, assembledFileSector);
    if kernelSector.None? {
      FollowingRangeAbuts(m.bootSector, m.kernelSector);
    }
    if assemblerSector.None? {
      FollowingRangeAbuts(m.kernelSector, m.assemblerSector);
    }
    if sourceFileSector.None? {
      FollowingRangeAbuts(m.assemblerSector, m.sourceFileSector);
    }
    if assembledFileSector.None? {
      FollowingRangeAbuts(m.sourceFileSector, m.assembledFileSector);
    }
  }

  /** Two ranges share no byte. */
  predicate Disjoint(a: SectorRange, b: SectorRange) {
    a.EndAddress() <= b.StartAddress() || b.EndAddress() <= a.StartAddress()
  }

  /** Every section lies on the diskette and no two sections overlap. */
  predicate WellFormed(m: SectorMap) {
    && (forall i :: 0 <= i < 5 ==> m.Ranges()[i].EndAddress() <= FloppySize)
    && (forall i, j :: 0 <= i < j < 5 ==> Disjoint(m.Ranges()[i], m.Ranges()[j]))
  }

  /** Sections in ascending order, each ending before the next starts and the last ending on the diskette, form a well-formed map. */
  lemma AscendingIsWellFormed(m: SectorMap)
    requires m.bootSector.EndAddress() <= m.kernelSector.StartAddress()
    requires m.kernelSector.EndAddress() <= m.assemblerSector.StartAddress()
    requires m.assemblerSector.EndAddress() <= m.sourceFileSector.StartAddress()
    requires m.sourceFileSector.EndAddress() <= m.assembledFileSector.StartAddress()
    requires m.assembledFileSector.EndAddress() <= FloppySize
    ensures WellFormed(m)
  {
    var r := m.Ranges();
    assert forall i :: 0 <= i < 5 ==> r[i].StartAddress() <= r[i].EndAddress();
    assert forall i :: 0 <= i < 4 ==> r[i].EndAddress() <= r[i + 1].StartAddress();
    forall i, j | 0 <= i < j < 5 ensures r[i].EndAddress() <= r[j].StartAddress() {
      var k := i;
      while k < j - 1
        invariant i <= k < j && r[i].EndAddress() <= r[k + 1].StartAddress()
      {
        k := k + 1;
      }
    }
  }

  /** The default layout is the documented one, and it is well formed. */
  lemma DefaultSectorMapLayout()
    ensures var m := DefaultSectorMap;
            && m.bootSector.startSector == 0 && m.bootSector.EndSector() == 0
            && m.kernelSector.startSector == 1 && m.kernelSector.EndSector() == 56
            && m.assemblerSector.startSector == 57 && m.assemblerSector.EndSector() == 112
            && m.sourceFileSector.startSector == 113 && m.sourceFileSector.EndSector() == 2112
            && m.assembledFileSector.startSector == 2113 && m.assembledFileSector.EndSector() == 2168
    ensures var m := DefaultSectorMap;
            && m.bootSector.StartAddress() == 0x000000 && m.bootSector.EndAddress() == 0x000200
            && m.kernelSector.StartAddress() == 0x000200 && m.kernelSector.EndAddress() == 0x007200
            && m.assemblerSector.StartAddress() == 0x007200 && m.assemblerSector.EndAddress() == 0x00E200
            && m.sourceFileSector.StartAddress() == 0x00E200 && m.sourceFileSector.EndAddress() == 0x108200
            && m.assembledFileSector.StartAddress() == 0x108200 && m.assembledFileSector.EndAddress() == 0x10F200
    ensures WellFormed(DefaultSectorMap)
  {
    var m := DefaultSectorMap;
    assert m == SectorMap(FloppyRange(0, 1), FloppyRange(1, 56), FloppyRange(57, 56), FloppyRange(113, 2000), FloppyRange(2113, 56));
    AscendingIsWellFormed(m);
  }

  // ---------------------------------------------------------------------------
  // copyDiskPart
  // ---------------------------------------------------------------------------

  /**
   * What `copyDiskPart` does: a missing part file fails `stat`; a part larger than its
   * section fails before anything is written; otherwise the whole part is copied to the
   * section's first byte.
   */
  function CopyDiskPartSpec(files: Files, destinationFile: Path, sourceBinFile: Path, sectorRange: SectorRange)
    : (e: Effect<()>)
    ensures e.result.Failure? <==> sourceBinFile !in files || |files[sourceBinFile]| > sectorRange.TotalBytes()
    ensures sourceBinFile !in files ==> e == Effect(Failure(NoSuchFile("stat", sourceBinFile)), files)
    ensures sourceBinFile in files && |files[sourceBinFile]| > sectorRange.TotalBytes() ==>
      e == Effect(Failure(SizeExceeded(sourceBinFile, sectorRange.TotalBytes())), files)
  {
    var maxSize := sectorRange.TotalBytes();
    if sourceBinFile !in files then Effect(Failure(NoSuchFile("stat", sourceBinFile)), files)
    else if |files[sourceBinFile]| > maxSize then Effect(Failure(SizeExceeded(sourceBinFile, maxSize)), files)
    else
      var c := CopyBlockSpec(files, sourceBinFile, destinationFile, Some(0), Some(maxSize), Some(sectorRange.StartAddress()));
      Effect(Success(()), c.files)
  }

  /** A part that fits is written, whole, at the start of its section; nothing else changes. */
  lemma CopyDiskPartPlaces(files: Files, destinationFile: Path, sourceBinFile: Path, sectorRange: SectorRange)
    requires sourceBinFile in files && sourceBinFile != destinationFile
    requires |files[sourceBinFile]| <= sectorRange.TotalBytes()
    requires destinationFile in files
    ensures CopyDiskPartSpec(files, destinationFile, sourceBinFile, sectorRange)
         == Effect(Success(()), files[destinationFile :=
              Overwrite(files[destinationFile], sectorRange.StartAddress(), files[sourceBinFile])])
  {
    var content := files[sourceBinFile];
    var k := CopyCount(|content|, 0, EffectiveLimit(Some(sectorRange.TotalBytes())));
    assert k == |content|;
    assert Segment(content, 0, k) == content;
  }

  /** `after` has the paths of `before` and `image`, and the same bytes everywhere but `image`. */
  ghost predicate WritesOnly(before: Files, after: Files, image: Path) {
    && after.Keys == before.Keys + {image}
    && forall p :: p in before && p != image ==> after[p] == before[p]
  }

  /** `copyDiskPart`. */
  method CopyDiskPart(fs: FileSystem, destinationFile: Path, sourceBinFile: Path, sectorRange: SectorRange)
    returns (r: Result<(), DiskError>)
    modifies fs
    ensures r.Failure? <==> sourceBinFile !in old(fs.files) || |old(fs.files)[sourceBinFile]| > sectorRange.TotalBytes()
    ensures r.Failure? ==> fs.files == old(fs.files)
    ensures r.Success? ==> WritesOnly(old(fs.files), fs.files, destinationFile)
    ensures sourceBinFile != destinationFile ==>
      Effect(r, fs.files) == CopyDiskPartSpec(old(fs.files), destinationFile, sourceBinFile, sectorRange)
  {
    var maxSize := sectorRange.TotalBytes();
    // statSync
    if sourceBinFile !in fs.files {
      return Failure(NoSuchFile("stat", sourceBinFile));
    }
    if |fs.files[sourceBinFile]| > maxSize {
      return Failure(SizeExceeded(sourceBinFile, maxSize));
    }
    var destOffset := sectorRange.StartAddress();
    // the source exists, so the copy cannot fail
    var _ := CopyBlock(fs, sourceBinFile, destinationFile, Some(0), Some(maxSize), Some(destOffset));
    r := Success(());
  }

  // ---------------------------------------------------------------------------
  // createBootableOsFloppy
  // ---------------------------------------------------------------------------

  /** `BootableOsFloppyOptions`. */
  datatype FloppyOptions = FloppyOptions(
    destinationFloppyImage: Path,
    bootloadBinFile: Path,
    kernelBinFile: Path,
    assemblerBinFile: Path,
    sourceFileToCompile: Path,
    sectorMap: SectorMap)

  /** A file to place on the image and the section it goes to. */
  datatype Part = Part(file: Path, range: FloppySectorRange)

  /** The four parts in the order they are copied. */
  function Parts(o: FloppyOptions): (ps: seq<Part>)
    ensures |ps| == 4
    ensures forall k :: 0 <= k < 4 ==> ps[k].range == o.sectorMap.Ranges()[k]
  {
    [ Part(o.bootloadBinFile, o.sectorMap.bootSector),
      Part(o.kernelBinFile, o.sectorMap.kernelSector),
      Part(o.assemblerBinFile, o.sectorMap.assemblerSector),
      Part(o.sourceFileToCompile, o.sectorMap.sourceFileSector) ]
  }

  /** No part file is the image being built. */
  predicate NoAlias(o: FloppyOptions) {
    forall k :: 0 <= k < 4 ==> Parts(o)[k].file != o.destinationFloppyImage
  }

  /** Copies the parts in order, stopping at the first that fails. */
  function PlaceParts(files: Files, image: Path, parts: seq<Part>): (e: Effect<()>)
    decreases |parts|
  {
    if parts == [] then Effect(Success(()), files)
    else
      var first := CopyDiskPartSpec(files, image, parts[0].file, parts[0].range);
      if first.result.Failure? then first else PlaceParts(first.files, image, parts[1..])
  }

  /** What `createBootableOsFloppy` does: a blank 1.44 MB image, then the four parts. */
  function CreateBootableOsFloppySpec(files: Files, o: FloppyOptions): Effect<()> {
    PlaceParts(files[o.destinationFloppyImage := Zeros(FloppySize)], o.destinationFloppyImage, Parts(o))
  }

  /** Placing a nonempty list of parts starts with the first. */
  lemma PlacePartsUnfold(files: Files, image: Path, parts: seq<Part>)
    requires parts != []
    ensures var first := CopyDiskPartSpec(files, image, parts[0].file, parts[0].range);
            PlaceParts(files, image, parts) == if first.result.Failure? then first else PlaceParts(first.files, image, parts[1..])
  {
  }

  /** A failed or successful `copyDiskPart` into an existing image keeps the other files of `blank`. */
  lemma WritesOnlyStep(blank: Files, before: Files, after: Files, image: Path)
    requires image in before && WritesOnly(blank, before, image)
    requires after == before || WritesOnly(before, after, image)
    ensures WritesOnly(blank, after, image)
  {
  }

  /** `createBootableOsFloppy`. */
  method CreateBootableOsFloppy(fs: FileSystem, options: FloppyOptions) returns (r: Result<(), DiskError>)
    modifies fs
    ensures WritesOnly(old(fs.files), fs.files, options.destinationFloppyImage)
    ensures NoAlias(options) ==> Effect(r, fs.files) == CreateBootableOsFloppySpec(old(fs.files), options)
  {
    var image := options.destinationFloppyImage;
    CreateBlankDisk(fs, image, FloppySize);
    ghost var files0 := old(fs.files);
    assert WritesOnly(files0, fs.files, image);
    // the parts still to be placed
    ghost var rest := Parts(options);

    ghost var before := fs.files;
    r := CopyDiskPart(fs, image, options.bootloadBinFile, options.sectorMap.bootSector);
    PlacePartsUnfold(before, image, rest);
    WritesOnlyStep(files0, before, fs.files, image);
    if r.Failure? {
      return;
    }
    rest := rest[1..];

    before := fs.files;
    r := CopyDiskPart(fs, image, options.kernelBinFile, options.sectorMap.kernelSector);
    PlacePartsUnfold(before, image, rest);
    WritesOnlyStep(files0, before, fs.files, image);
    if r.Failure? {
      return;
    }
    rest := rest[1..];

    before := fs.files;
    r := CopyDiskPart(fs, image, options.assemblerBinFile, options.sectorMap.assemblerSector);
    PlacePartsUnfold(before, image, rest);
    WritesOnlyStep(files0, before, fs.files, image);
    if r.Failure? {
      return;
    }
    rest := rest[1..];

    before := fs.files;
    r := CopyDiskPart(fs, image, options.sourceFileToCompile, options.sectorMap.sourceFileSector);
    PlacePartsUnfold(before, image, rest);
    assert rest[1..] == [];
    WritesOnlyStep(files0, before, fs.files, image);
  }

  // ---------------------------------------------------------------------------
  // Properties of the image build
  // ---------------------------------------------------------------------------

  /** Whether byte `i` lies in the section `r`. */
  predicate InRange(i: int, r: SectorRange) {
    r.StartAddress() <= i < r.EndAddress()
  }

  /** Every part file exists, is not the image, fits its section, and its section lies in the image. */
  ghost predicate Fits(files: Files, image: Path, parts: seq<Part>) {
    && image in files
    && forall k :: 0 <= k < |parts| ==>
         && parts[k].file != image && parts[k].file in files
         && |files[parts[k].file]| <= parts[k].range.TotalBytes()
         && parts[k].range.EndAddress() <= |files[image]|
  }

  ghost predicate PairwiseDisjoint(parts: seq<Part>) {
    forall k, l :: 0 <= k < l < |parts| ==> Disjoint(parts[k].range, parts[l].range)
  }

  /** `content` appears in `img` from byte `start`. */
  ghost predicate Placed(img: seq<byte>, content: seq<byte>, start: nat) {
    start + |content| <= |img| && forall j :: 0 <= j < |content| ==> img[start + j] == content[j]
  }

  /** Every byte outside the parts' sections is as it was in `before`. */
  ghost predicate Untouched(before: seq<byte>, after: seq<byte>, parts: seq<Part>) {
    forall i :: 0 <= i < |before| && i < |after| && (forall k :: 0 <= k < |parts| ==> !InRange(i, parts[k].range)) ==>
      after[i] == before[i]
  }

  /** Writing a part inside the image keeps the image's size, places the part and changes no other byte. */
  lemma WritePart(img0: seq<byte>, start: nat, content: seq<byte>)
    requires start + |content| <= |img0|
    ensures var img1 := Overwrite(img0, start, content);
            && |img1| == |img0|
            && Placed(img1, content, start)
            && forall i :: 0 <= i < |img0| && !(start <= i < start + |content|) ==> img1[i] == img0[i]
  {
    var img1 := Overwrite(img0, start, content);
    OverwriteBytes(img0, start, content);
    forall j | 0 <= j < |content| ensures img1[start + j] == content[j] {
      assert img1[start + j] == ByteAfterWrite(img0, start, content, start + j);
    }
    forall i | 0 <= i < |img0| && !(start <= i < start + |content|) ensures img1[i] == img0[i] {
      assert img1[i] == ByteAfterWrite(img0, start, content, i);
    }
  }

  /** A part placed in its section stays placed while the parts after it, in other sections, are written. */
  lemma StaysPlaced(img1: seq<byte>, img: seq<byte>, content: seq<byte>, p: Part, rest: seq<Part>)
    requires |content| <= p.range.TotalBytes()
    requires Placed(img1, content, p.range.StartAddress()) && |img| == |img1|
    requires Untouched(img1, img, rest)
    requires forall l :: 0 <= l < |rest| ==> Disjoint(p.range, rest[l].range)
    ensures Placed(img, content, p.range.StartAddress())
  {
    var start := p.range.StartAddress();
    forall j | 0 <= j < |content| ensures img[start + j] == content[j] {
      assert forall l :: 0 <= l < |rest| ==> !InRange(start + j, rest[l].range);
    }
  }

  /** A byte outside the first part's section and outside the later parts' sections keeps its value. */
  lemma StaysUntouched(img0: seq<byte>, img1: seq<byte>, img: seq<byte>, start: nat, content: seq<byte>, parts: seq<Part>)
    requires parts != [] && start == parts[0].range.StartAddress() && |content| <= parts[0].range.TotalBytes()
    requires |img1| == |img0|
    requires forall i :: 0 <= i < |img0| && !(start <= i < start + |content|) ==> img1[i] == img0[i]
    requires Untouched(img1, img, parts[1..])
    ensures Untouched(img0, img, parts)
  {
    forall i | 0 <= i < |img0| && i < |img| && (forall k :: 0 <= k < |parts| ==> !InRange(i, parts[k].range))
      ensures img[i] == img0[i]
    {
      assert !InRange(i, parts[0].range);
      forall l | 0 <= l < |parts[1..]| ensures !InRange(i, parts[1..][l].range) {
        assert parts[1..][l] == parts[l + 1];
      }
    }
  }

  /**
   * When the parts fit and their sections do not overlap, placing them succeeds, keeps the
   * image's size, puts every part at the start of its section and leaves every other byte
   * of the image and every other file alone.
   */
  lemma {:induction false} PlacePartsLayout(files: Files, image: Path, parts: seq<Part>)
    requires Fits(files, image, parts) && PairwiseDisjoint(parts)
    ensures var e := PlaceParts(files, image, parts);
            && e.result.Success?
            && e.files.Keys == files.Keys
            && (forall p :: p in files && p != image ==> e.files[p] == files[p])
            && |e.files[image]| == |files[image]|
            && (forall k :: 0 <= k < |parts| ==> Placed(e.files[image], files[parts[k].file], parts[k].range.StartAddress()))
            && Untouched(files[image], e.files[image], parts)
    decreases |parts|
  {
    if parts != [] {
      var p := parts[0];
      var content := files[p.file];
      var start := p.range.StartAddress();
      var img0 := files[image];
      CopyDiskPartPlaces(files, image, p.file, p.range);
      var img1 := Overwrite(img0, start, content);
      WritePart(img0, start, content);
      var files1 := files[image := img1];
      var rest := parts[1..];
      assert forall k :: 0 <= k < |rest| ==> rest[k] == parts[k + 1];
      assert forall k :: 0 <= k < |rest| ==> files1[rest[k].file] == files[rest[k].file];
      PlacePartsLayout(files1, image, rest);
      var e := PlaceParts(files, image, parts);
      assert e == PlaceParts(files1, image, rest);
      var img := e.files[image];
      StaysPlaced(img1, img, content, p, rest);
      StaysUntouched(img0, img1, img, start, content, parts);
    }
  }

  /** With no part aliasing the image, placing succeeds exactly when every part exists and fits its section. */
  lemma {:induction false} PlacePartsSucceedsIff(files: Files, image: Path, parts: seq<Part>)
    requires forall k :: 0 <= k < |parts| ==> parts[k].file != image
    ensures PlaceParts(files, image, parts).result.Success? <==>
            forall k :: 0 <= k < |parts| ==>
              parts[k].file in files && |files[parts[k].file]| <= parts[k].range.TotalBytes()
    decreases |parts|
  {
    if parts != [] {
      var first := CopyDiskPartSpec(files, image, parts[0].file, parts[0].range);
      if first.result.Success? {
        var rest := parts[1..];
        assert forall k :: 0 <= k < |rest| ==> rest[k] == parts[k + 1];
        PlacePartsSucceedsIff(first.files, image, rest);
        assert forall p :: p != image ==> (p in first.files <==> p in files);
        assert forall p :: p in files && p != image ==> first.files[p] == files[p];
      }
    }
  }

  /**
   * With no aliasing, a failed build reports the first part that is missing or too large,
   * and leaves the files as placing only the parts before it would: no rollback.
   */
  lemma {:induction false} PlacePartsReportsFirstFailure(files: Files, image: Path, parts: seq<Part>, k: nat)
    requires forall l :: 0 <= l < |parts| ==> parts[l].file != image
    requires k < |parts|
    requires forall l :: 0 <= l < k ==> parts[l].file in files && |files[parts[l].file]| <= parts[l].range.TotalBytes()
    requires parts[k].file !in files || |files[parts[k].file]| > parts[k].range.TotalBytes()
    ensures PlaceParts(files, image, parts).result ==
      Failure(if parts[k].file !in files then NoSuchFile("stat", parts[k].file)
              else SizeExceeded(parts[k].file, parts[k].range.TotalBytes()))
    ensures PlaceParts(files, image, parts).files == PlaceParts(files, image, parts[..k]).files
    decreases k
  {
    if k > 0 {
      var first := CopyDiskPartSpec(files, image, parts[0].file, parts[0].range);
      var rest := parts[1..];
      assert parts[..k][1..] == rest[..k - 1];
      assert forall l :: 0 <= l < |rest| ==> rest[l] == parts[l + 1];
      assert forall p :: p != image ==> (p in first.files <==> p in files);
      assert forall p :: p in files && p != image ==> first.files[p] == files[p];
      PlacePartsReportsFirstFailure(first.files, image, rest, k - 1);
    }
  }

  /** Placing parts changes only the image, and creates it if it was missing. */
  lemma {:induction false} PlacePartsFrame(files: Files, image: Path, parts: seq<Part>)
    ensures PlaceParts(files, image, parts).files.Keys <= files.Keys + {image}
    ensures files.Keys <= PlaceParts(files, image, parts).files.Keys
    ensures forall p :: p in files && p != image ==> PlaceParts(files, image, parts).files[p] == files[p]
    decreases |parts|
  {
    if parts != [] {
      var first := CopyDiskPartSpec(files, image, parts[0].file, parts[0].range);
      if first.result.Success? {
        PlacePartsFrame(first.files, image, parts[1..]);
      }
    }
  }

  /**
   * With no part aliasing the image, `createBootableOsFloppy` succeeds exactly when every part
   * exists and fits its section; either way it leaves every other file as it was and the
   * image exists afterwards.
   */
  lemma CreateBootableOsFloppySucceedsIff(files: Files, o: FloppyOptions)
    requires NoAlias(o)
    ensures CreateBootableOsFloppySpec(files, o).result.Success? <==>
      forall k :: 0 <= k < 4 ==> Parts(o)[k].file in files && |files[Parts(o)[k].file]| <= Parts(o)[k].range.TotalBytes()
    ensures CreateBootableOsFloppySpec(files, o).files.Keys == files.Keys + {o.destinationFloppyImage}
    ensures forall p :: p in files && p != o.destinationFloppyImage ==> CreateBootableOsFloppySpec(files, o).files[p] == files[p]
  {
    var image := o.destinationFloppyImage;
    var files0 := files[image := Zeros(FloppySize)];
    PlacePartsSucceedsIff(files0, image, Parts(o));
    PlacePartsFrame(files0, image, Parts(o));
  }

  /**
   * A successful build of a well-formed map yields a 1.44 MB image holding each part at the
   * start of its section and zeros everywhere else, the assembled-file section included.
   */
  lemma CreateBootableOsFloppyLayout(files: Files, o: FloppyOptions)
    requires NoAlias(o) && WellFormed(o.sectorMap)
    requires forall k :: 0 <= k < 4 ==>
      Parts(o)[k].file in files && |files[Parts(o)[k].file]| <= Parts(o)[k].range.TotalBytes()
    ensures var e := CreateBootableOsFloppySpec(files, o);
            && e.result.Success?
            && e.files.Keys == files.Keys + {o.destinationFloppyImage}
            && (forall p :: p in files && p != o.destinationFloppyImage ==> e.files[p] == files[p])
    ensures var img := CreateBootableOsFloppySpec(files, o).files[o.destinationFloppyImage];
            && |img| == FloppySize
            && (forall k :: 0 <= k < 4 ==> Placed(img, files[Parts(o)[k].file], Parts(o)[k].range.StartAddress()))
            && (forall i :: 0 <= i < FloppySize && (forall k :: 0 <= k < 4 ==> !InRange(i, Parts(o)[k].range)) ==> img[i] == 0)
            && (forall i :: 0 <= i < |img| && InRange(i, o.sectorMap.assembledFileSector) ==> img[i] == 0)
  {
    var image := o.destinationFloppyImage;
    var files0 := files[image := Zeros(FloppySize)];
    var parts := Parts(o);
    assert Fits(files0, image, parts) by {
      forall k | 0 <= k < 4 ensures parts[k].range.EndAddress() <= FloppySize {
        assert parts[k].range == o.sectorMap.Ranges()[k];
      }
    }
    assert PairwiseDisjoint(parts) by {
      forall k, l | 0 <= k < l < 4 ensures Disjoint(parts[k].range, parts[l].range) {
        assert parts[k].range == o.sectorMap.Ranges()[k] && parts[l].range == o.sectorMap.Ranges()[l];
      }
    }
    PlacePartsLayout(files0, image, parts);
    var img := CreateBootableOsFloppySpec(files, o).files[image];
    forall i | 0 <= i < |img| && InRange(i, o.sectorMap.assembledFileSector) ensures img[i] == 0 {
      assert o.sectorMap.Ranges()[4] == o.sectorMap.assembledFileSector;
      forall k | 0 <= k < 4 ensures !InRange(i, parts[k].range) {
        assert parts[k].range == o.sectorMap.Ranges()[k];
        assert Disjoint(o.sectorMap.Ranges()[k], o.sectorMap.Ranges()[4]);
      }
    }
  }

  /**
   * When the parts before `k` fit in disjoint sections and part `k` is missing or too large,
   * placing fails with part `k`'s error, writes each earlier part at the start of its section
   * and leaves every other byte of the image and every other file alone.
   */
  lemma PlacePartsStopsAtFirstBad(files: Files, image: Path, parts: seq<Part>, k: nat)
    requires forall l :: 0 <= l < |parts| ==> parts[l].file != image
    requires k < |parts| && Fits(files, image, parts[..k]) && PairwiseDisjoint(parts[..k])
    requires parts[k].file !in files || |files[parts[k].file]| > parts[k].range.TotalBytes()
    ensures var e := PlaceParts(files, image, parts);
            && e.result == Failure(if parts[k].file !in files then NoSuchFile("stat", parts[k].file)
                                   else SizeExceeded(parts[k].file, parts[k].range.TotalBytes()))
            && e.files.Keys == files.Keys
            && (forall q :: q in files && q != image ==> e.files[q] == files[q])
            && |e.files[image]| == |files[image]|
            && (forall l :: 0 <= l < k ==> Placed(e.files[image], files[parts[l].file], parts[l].range.StartAddress()))
            && Untouched(files[image], e.files[image], parts[..k])
  {
    var done := parts[..k];
    assert forall l :: 0 <= l < k ==> done[l] == parts[l];
    PlacePartsReportsFirstFailure(files, image, parts, k);
    PlacePartsLayout(files, image, done);
  }

  /**
   * A build whose part `k` is missing or too large reports that part, and leaves a 1.44 MB
   * image holding the parts before `k` at the start of their sections and zeros everywhere
   * else: the blank image is not rolled back, and no later part is written.
   */
  lemma CreateBootableOsFloppyStopsAtFirstBadPart(files: Files, o: FloppyOptions, k: nat)
    requires NoAlias(o) && WellFormed(o.sectorMap) && k < 4
    requires forall l :: 0 <= l < k ==>
      Parts(o)[l].file in files && |files[Parts(o)[l].file]| <= Parts(o)[l].range.TotalBytes()
    requires Parts(o)[k].file !in files || |files[Parts(o)[k].file]| > Parts(o)[k].range.TotalBytes()
    ensures var e := CreateBootableOsFloppySpec(files, o);
            var p := Parts(o)[k];
            && e.result == Failure(if p.file !in files then NoSuchFile("stat", p.file) else SizeExceeded(p.file, p.range.TotalBytes()))
            && e.files.Keys == files.Keys + {o.destinationFloppyImage}
            && (forall q :: q in files && q != o.destinationFloppyImage ==> e.files[q] == files[q])
    ensures var img := CreateBootableOsFloppySpec(files, o).files[o.destinationFloppyImage];
            && |img| == FloppySize
            && (forall l :: 0 <= l < k ==> Placed(img, files[Parts(o)[l].file], Parts(o)[l].range.StartAddress()))
            && (forall i :: 0 <= i < FloppySize && (forall l :: 0 <= l < k ==> !InRange(i, Parts(o)[l].range)) ==> img[i] == 0)
  {
    var image := o.destinationFloppyImage;
    var files0 := files[image := Zeros(FloppySize)];
    var parts := Parts(o);
    assert forall l :: 0 <= l < 4 ==> parts[l].file != image;
    assert forall l :: 0 <= l < k ==> parts[l].file in files0 && files0[parts[l].file] == files[parts[l].file];
    BlankImageFitsEarlierParts(files0, o, k);
    BlankImageStopsAtFirstBad(files, image, parts, k);
  }

  /** PlaceParts on a blank floppy image, stopping at the first bad part `k`, stated against the files before the blank image was made. */
  lemma BlankImageStopsAtFirstBad(files: Files, image: Path, parts: seq<Part>, k: nat)
    requires forall l :: 0 <= l < |parts| ==> parts[l].file != image
    requires k < |parts| && forall l :: 0 <= l < k ==> parts[l].file in files
    requires var files0 := files[image := Zeros(FloppySize)];
             k < |parts| && Fits(files0, image, parts[..k]) && PairwiseDisjoint(parts[..k])
    requires parts[k].file !in files || |files[parts[k].file]| > parts[k].range.TotalBytes()
    ensures var e := PlaceParts(files[image := Zeros(FloppySize)], image, parts);
            && e.result == Failure(if parts[k].file !in files then NoSuchFile("stat", parts[k].file)
                                   else SizeExceeded(parts[k].file, parts[k].range.TotalBytes()))
            && e.files.Keys == files.Keys + {image}
            && (forall q :: q in files && q != image ==> e.files[q] == files[q])
    ensures var img := PlaceParts(files[image := Zeros(FloppySize)], image, parts).files[image];
            && |img| == FloppySize
            && (forall l :: 0 <= l < k ==> Placed(img, files[parts[l].file], parts[l].range.StartAddress()))
            && (forall i :: 0 <= i < FloppySize && (forall l :: 0 <= l < k ==> !InRange(i, parts[l].range)) ==> img[i] == 0)
  {
    var files0 := files[image := Zeros(FloppySize)];
    var done := parts[..k];
    assert forall l :: 0 <= l < |parts| ==> (parts[l].file in files0 <==> parts[l].file in files);
    PlacePartsStopsAtFirstBad(files0, image, parts, k);
    assert forall l :: 0 <= l < k ==> done[l] == parts[l] && files0[parts[l].file] == files[parts[l].file];
  }

  /** On a blank floppy image the parts before `k` that are present and small enough fit, without overlapping. */
  lemma BlankImageFitsEarlierParts(files0: Files, o: FloppyOptions, k: nat)
    requires NoAlias(o) && WellFormed(o.sectorMap) && k < 4
    requires o.destinationFloppyImage in files0 && |files0[o.destinationFloppyImage]| == FloppySize
    requires forall l :: 0 <= l < k ==>
      Parts(o)[l].file in files0 && |files0[Parts(o)[l].file]| <= Parts(o)[l].range.TotalBytes()
    ensures Fits(files0, o.destinationFloppyImage, Parts(o)[..k]) && PairwiseDisjoint(Parts(o)[..k])
  {
    var done := Parts(o)[..k];
    assert forall l :: 0 <= l < 4 ==> Parts(o)[l].file != o.destinationFloppyImage;
    forall l | 0 <= l < k ensures done[l].range.EndAddress() <= FloppySize {
      assert done[l].range == o.sectorMap.Ranges()[l];
    }
    forall l, m | 0 <= l < m < k ensures Disjoint(done[l].range, done[m].range) {
      assert done[l].range == o.sectorMap.Ranges()[l] && done[m].range == o.sectorMap.Ranges()[m];
    }
  }

  // ---------------------------------------------------------------------------
  // extractAndTrimCompiledFile
  // ---------------------------------------------------------------------------

  /**
   * What `extractAndTrimCompiledFile` does: copies the assembled-file section of the image to
   * the start of the binary (which is not truncated first), then trims the binary.
   */
  function ExtractAndTrimSpec(files: Files, sourceFloppyImage: Path, destinationBinFile: Path, sectorMap: SectorMap)
    : (e: Effect<()>)
    ensures sourceFloppyImage !in files ==> e == Effect(Failure(SourceNotFound(sourceFloppyImage)), files)
    ensures sourceFloppyImage in files ==> e.result.Success? && e.files.Keys == files.Keys + {destinationBinFile}
  {
    var section := sectorMap.assembledFileSector;
    var c := CopyBlockSpec(files, sourceFloppyImage, destinationBinFile, Some(section.StartAddress()), Some(section.TotalBytes()), None);
    if c.result.Failure? then Effect(Failure(c.result.error), c.files)
    else
      // the copy created the binary, so the trim cannot fail
      Effect(Success(()), TrimSpec(c.files, destinationBinFile).files)
  }

  /** `extractAndTrimCompiledFile`. */
  method ExtractAndTrimCompiledFile(fs: FileSystem, sourceFloppyImage: Path, destinationBinFile: Path, sectorMap: SectorMap)
    returns (r: Result<(), DiskError>)
    modifies fs
    ensures r.Failure? <==> sourceFloppyImage !in old(fs.files)
    ensures r.Failure? ==> r == Failure(SourceNotFound(sourceFloppyImage)) && fs.files == old(fs.files)
    ensures r.Success? ==> WritesOnly(old(fs.files), fs.files, destinationBinFile)
    ensures sourceFloppyImage != destinationBinFile ==>
      Effect(r, fs.files) == ExtractAndTrimSpec(old(fs.files), sourceFloppyImage, destinationBinFile, sectorMap)
  {
    var compiledFileOffset := sectorMap.assembledFileSector.StartAddress();
    var maxLength := sectorMap.assembledFileSector.TotalBytes();
    var copied := CopyBlock(fs, sourceFloppyImage, destinationBinFile, Some(compiledFileOffset), Some(maxLength), None);
    if copied.Failure? {
      return Failure(copied.error);
    }
    var _ := TrimTrailingZerosAndAlignTo16ByteBoundary(fs, destinationBinFile);
    r := Success(());
  }

  /**
   * The binary pulled from an image whose assembled-file section lies inside it is that
   * section, trimmed. The binary is not truncated before the copy, so when the old binary
   * was longer than the section its stale tail is kept behind the section.
   */
  lemma ExtractedBinary(files: Files, sourceFloppyImage: Path, destinationBinFile: Path, sectorMap: SectorMap)
    requires sourceFloppyImage in files && sourceFloppyImage != destinationBinFile
    requires sectorMap.assembledFileSector.sectorCount > 0
    requires sectorMap.assembledFileSector.EndAddress() <= |files[sourceFloppyImage]|
    ensures ExtractAndTrimSpec(files, sourceFloppyImage, destinationBinFile, sectorMap).result.Success?
    ensures var r := sectorMap.assembledFileSector;
            var section := files[sourceFloppyImage][r.StartAddress()..r.EndAddress()];
            var staleTail := if destinationBinFile in files && |files[destinationBinFile]| > r.TotalBytes()
                             then files[destinationBinFile][r.TotalBytes()..] else [];
            ExtractAndTrimSpec(files, sourceFloppyImage, destinationBinFile, sectorMap).files
              == files[destinationBinFile := TrimAligned(section + staleTail)]
  {
    var r := sectorMap.assembledFileSector;
    var image := files[sourceFloppyImage];
    var section := image[r.StartAddress()..r.EndAddress()];
    var k := CopyCount(|image|, r.StartAddress(), EffectiveLimit(Some(r.TotalBytes())));
    assert k == r.TotalBytes();
    assert Segment(image, r.StartAddress(), k) == section;
    var oldBin := if destinationBinFile in files then files[destinationBinFile] else [];
    var c := CopyBlockSpec(files, sourceFloppyImage, destinationBinFile, Some(r.StartAddress()), Some(r.TotalBytes()), None);
    assert c.files == files[destinationBinFile := Overwrite(oldBin, 0, section)];
    OverwriteFromStart(oldBin, section);
    assert Overwrite(oldBin, 0, section) == section + (if |section| < |oldBin| then oldBin[|section|..] else []);
    var e := ExtractAndTrimSpec(files, sourceFloppyImage, destinationBinFile, sectorMap);
    var extracted := Overwrite(oldBin, 0, section);
    assert e.files == c.files[destinationBinFile := TrimAligned(extracted)];
    MapUpdateOverride(files, destinationBinFile, extracted, TrimAligned(extracted));
    assert e.files == files[destinationBinFile := TrimAligned(extracted)];
  }

  /**
   * With an empty assembled-file section the copy limit is 0, which `copyBlock` reads as no
   * limit: the binary receives everything from the section's start to the end of the image,
   * then is trimmed.
   */
  lemma ExtractedBinaryFromEmptySection(files: Files, sourceFloppyImage: Path, destinationBinFile: Path, sectorMap: SectorMap)
    requires sourceFloppyImage in files && sourceFloppyImage != destinationBinFile
    requires sectorMap.assembledFileSector.sectorCount == 0
    requires |files[sourceFloppyImage]| <= MaxSafeInteger
    ensures ExtractAndTrimSpec(files, sourceFloppyImage, destinationBinFile, sectorMap).result.Success?
    ensures var start := sectorMap.assembledFileSector.StartAddress();
            var image := files[sourceFloppyImage];
            var tail := if start < |image| then image[start..] else [];
            var oldBin := if destinationBinFile in files then files[destinationBinFile] else [];
            ExtractAndTrimSpec(files, sourceFloppyImage, destinationBinFile, sectorMap).files
              == files[destinationBinFile := TrimAligned(Overwrite(oldBin, 0, tail))]
  {
    var r := sectorMap.assembledFileSector;
    var start := r.StartAddress();
    var image := files[sourceFloppyImage];
    assert EffectiveLimit(Some(r.TotalBytes())) == MaxSafeInteger;
    var k := CopyCount(|image|, start, MaxSafeInteger);
    var tail := if start < |image| then image[start..] else [];
    assert Segment(image, start, k) == tail;
    var oldBin := if destinationBinFile in files then files[destinationBinFile] else [];
    var extracted := Overwrite(oldBin, 0, tail);
    var c := CopyBlockSpec(files, sourceFloppyImage, destinationBinFile, Some(start), Some(r.TotalBytes()), None);
    assert c.files == files[destinationBinFile := extracted];
    MapUpdateOverride(files, destinationBinFile, extracted, TrimAligned(extracted));
  }

}
