/**
Mounting: check_fs and find_volume of fatfs/src/ff.c. A boot sector is looked for in
sector 0 and then in the four partitions of the table there; its parameter block is
turned into the geometry all other operations rely on.
*/
module Mount {
  import opened Wrappers
  import opened Bits
  import opened Layout
  import opened Volume

  /** What check_fs finds: its results 0, 1, 2 and 3. */
  datatype Boot = FatBoot | OtherBoot | NotBoot | DiskError

  // --------------------------------------------------------- the boot sector

  /** The letters FAT at offset o. */
  predicate HasFat(win: Sector, o: nat)
    requires o + 4 <= 512
  {
    And(LdDword(win, o), 0xFF_FFFF) == 0x54_4146
  }

  lemma Low24(w: nat)
    ensures And(w, 0xFF_FFFF) == w % 0x100_0000
  {
    BytePowers();
    PowUp(0x10_0000);
    AndMask(w, 0x100_0000);
  }

  lemma LettersFat(win: Sector, o: nat)
    requires o + 4 <= 512
    ensures HasFat(win, o) <==> win[o] == 0x46 && win[o + 1] == 0x41 && win[o + 2] == 0x54
  {
    var low := win[o] as int + 256 * (win[o + 1] as int) + 0x1_0000 * (win[o + 2] as int);
    Low24(LdDword(win, o));
    DivModUnique(LdDword(win, o), 0x100_0000, win[o + 3], low);
  }

  function BootKind(win: Sector): Boot {
    if LdWord(win, 510) != 0xAA55 then NotBoot
    else if HasFat(win, 54) || HasFat(win, 82) then FatBoot
    else OtherBoot
  }

  datatype Probe = Probe(kind: Boot, win: Sector)

  /**
   * check_fs on an invalidated window holding win: the sector number 0xFFFFFFFF stands for
   * an invalid window, so that sector is never read.
   */
  function CheckFs(disk: Image, win: Sector, sect: nat): Probe {
    if sect == UNKNOWN then Probe(BootKind(win), win)
    else if sect >= |disk| then Probe(DiskError, win)
    else Probe(BootKind(disk[sect]), disk[sect])
  }

  /** Start of partition i in the table of sector mbr, 0 if the entry is unused. */
  function PartitionStart(mbr: Sector, i: nat): nat
    requires i < 4
  {
    if mbr[446 + 16 * i + 4] != 0 then LdDword(mbr, 446 + 16 * i + 8) else 0
  }

  datatype Search = Search(kind: Boot, win: Sector, bsect: nat)

  /** The search through the partitions from i on. */
  function SearchFrom(disk: Image, mbr: Sector, win: Sector, i: nat): Search
    requires i < 4
    decreases 4 - i
  {
    var b := PartitionStart(mbr, i);
    var p := if b != 0 then CheckFs(disk, win, b) else Probe(NotBoot, win);
    if p.kind.FatBoot? || i == 3 then Search(p.kind, p.win, b) else SearchFrom(disk, mbr, p.win, i + 1)
  }

  function Locate(disk: Image): Search
    requires |disk| > 0
  {
    var kind := BootKind(disk[0]);
    if kind.OtherBoot? then SearchFrom(disk, disk[0], disk[0], 0) else Search(kind, disk[0], 0)
  }

  /** A FAT boot sector at a used, readable place. */
  predicate FatAtSector(disk: Image, s: nat) {
    s < |disk| && BootKind(disk[s]).FatBoot?
  }

  /** Partition k is used and holds a FAT boot sector. */
  predicate FatPartition(disk: Image, mbr: Sector, k: nat)
    requires k < 4
  {
    PartitionStart(mbr, k) != 0 && FatAtSector(disk, PartitionStart(mbr, k))
  }

  /** s is the first such partition from i on. */
  predicate FirstFat(disk: Image, mbr: Sector, i: nat, s: nat)
    requires i < 4
    decreases 4 - i
  {
    if FatPartition(disk, mbr, i) then s == PartitionStart(mbr, i) else i < 3 && FirstFat(disk, mbr, i + 1, s)
  }

  lemma {:induction false} SearchFinds(disk: Image, mbr: Sector, win: Sector, i: nat)
    requires i < 4 && |disk| < WORD32 && !BootKind(win).FatBoot?
    ensures var s := SearchFrom(disk, mbr, win, i);
      s.kind.FatBoot? ==> FatAtSector(disk, s.bsect) && s.win == disk[s.bsect] && FirstFat(disk, mbr, i, s.bsect)
    ensures SearchFrom(disk, mbr, win, i).kind.FatBoot? <==> exists k: nat :: i <= k < 4 && FatPartition(disk, mbr, k)
    decreases 4 - i
  {
    hide BootKind, PartitionStart;
    var b := PartitionStart(mbr, i);
    var p := if b != 0 then CheckFs(disk, win, b) else Probe(NotBoot, win);
    assert p.kind.FatBoot? <==> FatPartition(disk, mbr, i);
    hide CheckFs, FatPartition;
    if !p.kind.FatBoot? && i < 3 {
      SearchFinds(disk, mbr, p.win, i + 1);
    }
  }

  /**
   * The volume mounted is the one of sector 0, or else the first partition with a FAT boot
   * sector; one is found exactly when there is one.
   */
  lemma LocateFindsFirst(disk: Image)
    requires 0 < |disk| < WORD32
    ensures var s := Locate(disk);
      s.kind.FatBoot? ==>
        && FatAtSector(disk, s.bsect) && s.win == disk[s.bsect]
        && (if FatAtSector(disk, 0) then s.bsect == 0 else FirstFat(disk, disk[0], 0, s.bsect))
    ensures Locate(disk).kind.FatBoot? <==>
      FatAtSector(disk, 0)
      || (BootKind(disk[0]).OtherBoot? && exists k: nat :: k < 4 && FatPartition(disk, disk[0], k))
  {
    hide BootKind;
    if BootKind(disk[0]).OtherBoot? {
      SearchFinds(disk, disk[0], disk[0], 0);
    }
  }

  // ------------------------------------------------------------ the geometry

  /** The parameter block of a boot sector. */
  datatype Bpb = Bpb(
    bytsPerSec: nat, secPerClus: nat, rsvdSecCnt: nat, numFats: nat, rootEntCnt: nat,
    totSec: nat, fatSz: nat, rootClus: nat, fsInfo: nat
  )

  function BpbOf(win: Sector): (b: Bpb)
    ensures Fields(b) && b.rootClus < WORD32
  {
    Bpb(LdWord(win, 11), win[13], LdWord(win, 14), win[16], LdWord(win, 17),
        if LdWord(win, 19) != 0 then LdWord(win, 19) else LdDword(win, 32),
        if LdWord(win, 22) != 0 then LdWord(win, 22) else LdDword(win, 36),
        LdDword(win, 44), LdWord(win, 48))
  }

  /** A 32-bit unsigned result. */
  function Wrap(x: nat): (r: nat)
    ensures r < WORD32 && (x < WORD32 ==> r == x)
  {
    x % WORD32
  }

  function TypeFor(clusters: nat): FatType {
    if clusters >= 65526 then Fat32 else if clusters >= 4086 then Fat16 else Fat12
  }

  /** Bytes the FAT needs for n entries, as find_volume computes them. */
  function NeededBytes(t: FatType, n: nat): nat {
    match t
    case Fat32 => Wrap(n * 4)
    case Fat16 => n * 2
    case Fat12 => n * 3 / 2 + n % 2
  }

  /** Whole clusters of c sectors in x sectors. */
  function Whole(x: nat, c: nat): nat
    requires c > 0
  {
    x / c
  }

  /** The geometry find_volume derives for a volume at bsect, or nothing if it refuses. */
  function Analyse(b: Bpb, bsect: nat, sectors: nat): Option<Geometry> {
    if b.bytsPerSec != 512 then None
    else if b.numFats != 1 && b.numFats != 2 then None
    else if b.secPerClus == 0 || And(b.secPerClus, b.secPerClus - 1) != 0 then None
    else if b.rootEntCnt % 16 != 0 then None
    else if b.rsvdSecCnt == 0 then None
    else
      var fasize := Wrap(b.fatSz * b.numFats);
      var sysect := Wrap(b.rsvdSecCnt + fasize + b.rootEntCnt / 16);
      if b.totSec < sysect then None
      else
        var nclst := Whole(b.totSec - sysect, b.secPerClus);
        var t, n := TypeFor(nclst), Wrap(nclst + 2);
        if nclst == 0 then None
        else if t.Fat32? != (b.rootEntCnt == 0) then None
        else if b.fatSz < Wrap(NeededBytes(t, n) + 511) / 512 then None
        else
          var fatbase := Wrap(bsect + b.rsvdSecCnt);
          Some(Geometry(t, b.secPerClus, b.numFats, b.rootEntCnt, n, b.fatSz, bsect, fatbase,
                        if t.Fat32? then b.rootClus else Wrap(fatbase + fasize), Wrap(bsect + sysect), sectors))
  }

  /** Sectors before the data area, in plain numbers. */
  function SystemSectors(b: Bpb): nat {
    b.rsvdSecCnt + b.numFats * b.fatSz + b.rootEntCnt / 16
  }

  function Clusters(b: Bpb): nat
    requires b.secPerClus > 0
  {
    if b.totSec < SystemSectors(b) then 0 else Whole(b.totSec - SystemSectors(b), b.secPerClus)
  }

  /** No 32-bit sum over the block wraps, and cluster numbers stay below the FAT32 end mark. */
  predicate NoWrap(b: Bpb) {
    SystemSectors(b) < WORD32 && (b.secPerClus > 0 ==> Clusters(b) + 2 <= MaxEntries(Fat32))
  }

  /** The clusters end on the drive. */
  predicate Within(b: Bpb, bsect: nat, sectors: nat) {
    b.secPerClus > 0 && bsect + SystemSectors(b) + Clusters(b) * b.secPerClus <= sectors
  }

  /** The widths of the fields. */
  predicate Fields(b: Bpb) {
    && b.secPerClus < 256 && b.rsvdSecCnt < 0x1_0000 && b.rootEntCnt < 0x1_0000
    && b.totSec < WORD32 && b.fatSz < WORD32
  }

  /** A sensible parameter block: at least one cluster, and a FAT that holds every entry. */
  predicate Acceptable(b: Bpb) {
    && b.bytsPerSec == 512 && (b.numFats == 1 || b.numFats == 2) && IsPow2(b.secPerClus)
    && b.rootEntCnt % 16 == 0 && b.rsvdSecCnt >= 1
    && SystemSectors(b) + b.secPerClus <= b.totSec
    && (b.rootEntCnt == 0 <==> TypeFor(Clusters(b)).Fat32?)
    && EntryEnd(TypeFor(Clusters(b)), Clusters(b) + 1) <= 512 * b.fatSz
  }

  /** `c & (c - 1)` is zero exactly for the powers of two. */
  lemma {:induction false} LowestBit(c: nat)
    requires c > 0
    ensures And(c, c - 1) == 0 <==> IsPow2(c)
  {
    var h := c / 2;
    if c > 1 {
      if c % 2 == 0 {
        assert (c - 1) / 2 == h - 1 && (c - 1) % 2 == 1;
        LowestBit(h);
      } else {
        assert (c - 1) / 2 == h;
        AndSelf(h);
      }
    }
  }

  lemma {:induction false} AndSelf(x: nat)
    ensures And(x, x) == x
  {
    if x > 0 {
      AndSelf(x / 2);
    }
  }

  /** There is no power of two between one and its double. */
  lemma {:induction false} Pow2Gap(c: nat, d: nat)
    requires IsPow2(c) && IsPow2(d) && c < 2 * d
    ensures c <= d
  {
    if c > 1 && d > 1 {
      Pow2Gap(c / 2, d / 2);
    }
  }

  lemma SmallPow2(c: nat)
    requires IsPow2(c) && c < 256
    ensures 0 < c <= 128
  {
    Pow2Gap(c, 128);
  }

  /** The size formula is tight for every type and parity: it is the end of the last entry. */
  lemma NeededIsTight(t: FatType, n: nat)
    requires 2 <= n <= MaxEntries(t)
    ensures NeededBytes(t, n) == EntryEnd(t, n - 1)
  {
    if t.Fat12? {
      assert n == 2 * (n / 2) + n % 2;
    }
  }

  lemma CeilingFits(bytes: nat, size: nat)
    ensures size < (bytes + 511) / 512 <==> 512 * size < bytes
  {
  }

  lemma AtLeastOne(x: nat, c: nat)
    requires c > 0
    ensures x / c == 0 <==> x < c
  {
    if x < c {
      DivModUnique(x, c, 0, x);
    } else {
      var y := x - c;
      DivModOf(y, c);
      assert (y / c + 1) * c == c * (y / c) + c;
      DivModUnique(x, c, y / c + 1, y % c);
    }
  }

  lemma ProductOfFats(b: Bpb)
    ensures b.fatSz * b.numFats == b.numFats * b.fatSz
  {
  }

  /** find_volume accepts exactly the sensible parameter blocks. */
  lemma AcceptsExactly(b: Bpb, bsect: nat, sectors: nat)
    requires NoWrap(b)
    ensures Analyse(b, bsect, sectors).Some? <==> Acceptable(b)
  {
    hide And, IsPow2, NeededBytes, EntryEnd;
    ProductOfFats(b);
    if b.secPerClus > 0 {
      LowestBit(b.secPerClus);
      var c := Clusters(b);
      if SystemSectors(b) <= b.totSec {
        AtLeastOne(b.totSec - SystemSectors(b), b.secPerClus);
      }
      if c >= 1 {
        NeededIsTight(TypeFor(c), c + 2);
        NeededSmall(TypeFor(c), c + 2);
        CeilingFits(NeededBytes(TypeFor(c), c + 2), b.fatSz);
      }
    } else {
      NotPow2Zero();
    }
  }

  lemma NotPow2Zero()
    ensures !IsPow2(0)
  {
  }

  lemma NeededSmall(t: FatType, n: nat)
    requires n <= MaxEntries(Fat32)
    ensures NeededBytes(t, n) + 511 < WORD32
  {
  }

  /** The geometry in plain numbers. */
  function Plain(b: Bpb, bsect: nat, sectors: nat): Geometry
    requires b.secPerClus > 0
  {
    var t, fatbase := TypeFor(Clusters(b)), bsect + b.rsvdSecCnt;
    Geometry(t, b.secPerClus, b.numFats, b.rootEntCnt, Clusters(b) + 2, b.fatSz, bsect, fatbase,
             if t.Fat32? then b.rootClus else fatbase + b.numFats * b.fatSz, bsect + SystemSectors(b), sectors)
  }

  lemma AnalysePlain(b: Bpb, bsect: nat, sectors: nat)
    requires NoWrap(b) && bsect + SystemSectors(b) < WORD32 && Analyse(b, bsect, sectors).Some?
    ensures b.secPerClus > 0 && Analyse(b, bsect, sectors).value == Plain(b, bsect, sectors)
  {
    hide And, NeededBytes, TypeFor, Whole;
    ProductOfFats(b);
  }

  /**
   * An accepted volume is laid out in order, reserved sectors, FAT copies, root table,
   * clusters, each area starting where the one before ends and the last one ending
   * inside the volume with less than a cluster to spare; the FAT holds all entries.
   */
  lemma MountIsSound(b: Bpb, bsect: nat, sectors: nat)
    requires NoWrap(b) && b.secPerClus < 256 && Analyse(b, bsect, sectors).Some?
    requires Within(b, bsect, sectors) && sectors < WORD32
    ensures var g := Analyse(b, bsect, sectors).value;
      && Sound(g) && g.volbase == bsect && g.fatbase == bsect + b.rsvdSecCnt && g.sectors == sectors
      && g.fsType == TypeFor(g.nFatEnt - 2) && g.nFatEnt == Clusters(b) + 2
      && FatEnd(g) == g.fatbase + b.numFats * b.fatSz
      && g.database == FatEnd(g) + b.rootEntCnt / 16
      && ClusterBase(g, g.nFatEnt) <= bsect + b.totSec < ClusterBase(g, g.nFatEnt) + g.csize
  {
    hide Analyse, And, IsPow2, Sound, FatEnd, EntryEnd, NeededBytes, NoWrap, Whole, SystemSectors, TypeFor, Clusters;
    AcceptsExactly(b, bsect, sectors);
    ProductNat(Clusters(b), b.secPerClus);
    AnalysePlain(b, bsect, sectors);
    SmallPow2(b.secPerClus);
    PlainIsSound(b, bsect, sectors);
  }

  lemma PlainIsSound(b: Bpb, bsect: nat, sectors: nat)
    requires NoWrap(b) && Acceptable(b) && 0 < b.secPerClus <= 128 && Within(b, bsect, sectors) && sectors < WORD32
    ensures var g := Plain(b, bsect, sectors);
      && Sound(g) && FatEnd(g) == g.fatbase + b.numFats * b.fatSz
      && g.database == FatEnd(g) + b.rootEntCnt / 16
      && ClusterBase(g, g.nFatEnt) <= bsect + b.totSec < ClusterBase(g, g.nFatEnt) + g.csize
  {
    hide IsPow2, EntryEnd;
    var x, c := b.totSec - SystemSectors(b), b.secPerClus;
    DivModOf(x, c);
    AtLeastOne(x, c);
    Commute(c, Clusters(b));
  }

  lemma Commute(x: int, y: int)
    ensures x * y == y * x
  {
  }

  /** A volume that ends on the drive has clusters that do. */
  lemma VolumeWithin(b: Bpb, bsect: nat, sectors: nat)
    requires Acceptable(b) && bsect + b.totSec <= sectors
    ensures Within(b, bsect, sectors) && SystemSectors(b) <= b.totSec
  {
    hide IsPow2, EntryEnd;
    NotPow2Zero();
    DivModOf(b.totSec - SystemSectors(b), b.secPerClus);
    Commute(b.secPerClus, Clusters(b));
  }

  /** The areas are in order, and the clusters behind them. */
  predicate InOrder(g: Geometry) {
    g.volbase < g.fatbase && FatEnd(g) <= g.database
  }

  /** The areas of an accepted volume are in order exactly if their plain sum stays below 2^32. */
  lemma InOrderExactly(b: Bpb, bsect: nat, sectors: nat)
    requires Fields(b) && bsect < WORD32 && Analyse(b, bsect, sectors).Some?
    ensures InOrder(Analyse(b, bsect, sectors).value) <==> bsect + SystemSectors(b) < WORD32
  {
    hide And, NeededBytes, TypeFor, Whole;
    ProductOfFats(b);
    var p, root := b.fatSz * b.numFats, b.rootEntCnt / 16;
    assert p == if b.numFats == 2 then 2 * b.fatSz else b.fatSz;
    WrapOnce(bsect + b.rsvdSecCnt);
    WrapOnce(p);
    WrapOnce(b.rsvdSecCnt + Wrap(p) + root);
    WrapOnce(bsect + Wrap(b.rsvdSecCnt + Wrap(p) + root));
  }

  lemma WrapOnce(x: nat)
    requires x < 2 * WORD32
    ensures Wrap(x) == if x < WORD32 then x else x - WORD32
  {
  }

  /** Exactly which accepted volumes have the layout every other operation relies on. */
  lemma SoundExactly(b: Bpb, bsect: nat, sectors: nat)
    requires Fields(b) && bsect < WORD32 && sectors < WORD32 && Analyse(b, bsect, sectors).Some?
    ensures b.secPerClus > 0
    ensures Sound(Analyse(b, bsect, sectors).value) <==>
            Clusters(b) + 2 <= MaxEntries(Fat32) && Within(b, bsect, sectors)
  {
    hide And, NeededBytes, IsPow2, EntryEnd, Whole, FatEnd;
    InOrderExactly(b, bsect, sectors);
    var g := Analyse(b, bsect, sectors).value;
    ProductNat(Clusters(b), b.secPerClus);
    if Clusters(b) + 2 <= MaxEntries(Fat32) && Within(b, bsect, sectors) {
      MountIsSound(b, bsect, sectors);
    }
    if Sound(g) {
      SystemTotal(b, bsect, sectors);
      ClustersFew(b);
      WrapOnce(Clusters(b) + 2);
      assert ClusterBase(g, g.nFatEnt) == bsect + SystemSectors(b) + Clusters(b) * b.secPerClus;
    }
  }

  /** Without a wrapping sum of the areas, data start and entry count are the plain ones. */
  lemma SystemTotal(b: Bpb, bsect: nat, sectors: nat)
    requires Fields(b) && bsect + SystemSectors(b) < WORD32 && Analyse(b, bsect, sectors).Some?
    ensures b.secPerClus > 0
    ensures var g := Analyse(b, bsect, sectors).value;
            g.database == bsect + SystemSectors(b) && g.nFatEnt == Wrap(Clusters(b) + 2)
            && g.csize == b.secPerClus && g.sectors == sectors
  {
    hide And, NeededBytes, TypeFor, Whole;
    ProductOfFats(b);
  }

  lemma ClustersFew(b: Bpb)
    requires b.secPerClus > 0 && b.rsvdSecCnt > 0
    ensures Clusters(b) <= b.totSec && (Clusters(b) > 0 ==> Clusters(b) < b.totSec)
  {
    if b.totSec >= SystemSectors(b) {
      SmallerQuotient(b.totSec - SystemSectors(b), b.secPerClus);
    }
  }

  lemma SmallerQuotient(x: nat, c: nat)
    requires c > 0
    ensures Whole(x, c) <= x
  {
    hide Whole;
    WholeOf(x, c);
    AtLeastFactor(c, Whole(x, c));
  }

  lemma WholeOf(x: nat, c: nat)
    requires c > 0
    ensures c * Whole(x, c) <= x
  {
    DivModOf(x, c);
  }

  lemma AtLeastFactor(c: nat, q: nat)
    requires c > 0
    ensures c * q >= q
  {
  }

  lemma ProductNat(x: nat, y: nat)
    ensures x * y >= 0
  {
  }

  /** With wrapping sums an absurd FAT size is accepted, and the areas overlap. */
  lemma WrappedSumsOverlap()
    ensures var b := Bpb(512, 1, 1, 2, 16, 100, 0x8000_0001, 0, 0);
      && Fields(b) && SystemSectors(b) >= WORD32 && Analyse(b, 0, 100).Some?
      && FatEnd(Analyse(b, 0, 100).value) > Analyse(b, 0, 100).value.database
  {
    assert And(1, 0) == 0;
  }

  // --------------------------------------------------------------- mounting

  datatype MountError = DiskErr | NoFileSystem

  datatype Mounting = Mounted(fs: FatFs) | Refused(error: MountError)

  /** The allocation hints of the FSINFO sector: last allocated cluster and free count. */
  function Hints(info: Sector): (r: (nat, nat))
    ensures r.0 < WORD32 && r.1 < WORD32
  {
    if LdWord(info, 510) == 0xAA55 && LdDword(info, 0) == 0x4161_5252 && LdDword(info, 484) == 0x6141_7272
    then (LdDword(info, 492), LdDword(info, 488))
    else (UNKNOWN, UNKNOWN)
  }

  /** The block found has no wrapping sums and, if it is sensible, clusters that end on the drive. */
  predicate Trusted(disk: Image)
    requires |disk| > 0
  {
    var s := Locate(disk);
    s.kind.FatBoot? ==>
      NoWrap(BpbOf(s.win)) && (Acceptable(BpbOf(s.win)) ==> Within(BpbOf(s.win), s.bsect, |disk|))
  }

  /** The partition loop of find_volume. */
  method SearchPartitions(disk: Image, mbr: Sector) returns (fmt: Boot, win: Sector, bsect: nat)
    ensures Search(fmt, win, bsect) == SearchFrom(disk, mbr, mbr, 0)
  {
    hide BootKind, PartitionStart, CheckFs;
    var i := 0;
    win := mbr;
    while true
      invariant i < 4
      invariant SearchFrom(disk, mbr, mbr, 0) == SearchFrom(disk, mbr, win, i)
      decreases 4 - i
    {
      bsect := PartitionStart(mbr, i);
      if bsect != 0 {
        var p := CheckFs(disk, win, bsect);
        fmt, win := p.kind, p.win;
      } else {
        fmt := NotBoot;
      }
      if fmt.FatBoot? {
        break;
      }
      i := i + 1;
      if i >= 4 {
        break;
      }
    }
  }

  /** find_volume on a drive that is ready. */
  method FindVolume(disk: Image) returns (r: Mounting)
    requires 0 < |disk| < WORD32 && Trusted(disk)
    ensures r == Refused(DiskErr) <==> Locate(disk).kind.DiskError?
    ensures r.Mounted? <==> Locate(disk).kind.FatBoot? && Acceptable(BpbOf(Locate(disk).win))
    ensures r.Mounted? ==>
      var s, b, fs := Locate(disk), BpbOf(Locate(disk).win), r.fs;
      && fresh(fs) && fresh(fs.win) && fs.Valid() && Sound(fs.g) && !fs.wflag && fs.disk == disk
      && Analyse(b, s.bsect, |disk|) == Some(fs.g)
      && (fs.lastClust, fs.freeClust) ==
           (if fs.g.fsType.Fat32? && b.fsInfo == 1 then Hints(disk[s.bsect + 1]) else (UNKNOWN, UNKNOWN))
  {
    hide BootKind, SearchFrom, Analyse, BpbOf, Acceptable, Hints, IsPow2, FatOf;
    var fmt, win, bsect := BootKind(disk[0]), disk[0], 0;
    LocateFindsFirst(disk);
    if fmt.OtherBoot? {
      fmt, win, bsect := SearchPartitions(disk, disk[0]);
    }
    if fmt.DiskError? {
      return Refused(DiskErr);
    }
    if !fmt.FatBoot? {
      return Refused(NoFileSystem);
    }
    var b := BpbOf(win);
    AcceptsExactly(b, bsect, |disk|);
    var geometry := Analyse(b, bsect, |disk|);
    if geometry.None? {
      return Refused(NoFileSystem);
    }
    var g := geometry.value;
    MountIsSound(b, bsect, |disk|);
    var winsect, last, free := bsect, UNKNOWN, UNKNOWN;
    if g.fsType.Fat32? && b.fsInfo == 1 {
      winsect := bsect + 1;
      last, free := Hints(disk[winsect]).0, Hints(disk[winsect]).1;
    }
    var fs := new FatFs(g, disk, winsect, last, free);
    r := Mounted(fs);
  }
}
