/**
Format, then mount: find_volume recovers what f_mkfs laid out, and refuses exactly the
volumes whose alignment has left no room for a cluster.
*/
module FormatMount {
  import opened Wrappers
  import opened Bits
  import opened Layout
  import opened FatMap
  import opened Mount
  import opened FormatPlan
  import opened Format
  import opened FormatBytes
  import opened MountBytes

  /** The parameter block written is the parameter block read. */
  lemma BootRoundTrip(p: Plan, time: nat)
    requires Storable(p)
    ensures BootKind(BootSector(p, time)).FatBoot?
    ensures var b := BpbOf(BootSector(p, time));
      && b.bytsPerSec == 512 && b.secPerClus == p.csize && b.rsvdSecCnt == p.nRsv && b.numFats == 1
      && b.rootEntCnt == 16 * p.nDir && b.totSec == p.nVol && b.fatSz == p.nFat
      && (p.fsType.Fat32? ==> b.rootClus == 2 && b.fsInfo == 1)
  {
    hide BootSector, LdWord, LdDword;
    BootFields(p, time);
    BootBytes(p, time);
    BootInBytes(BootSector(p, time));
    if p.fsType.Fat32? {
      Boot32Fields(p, time);
    } else {
      Boot16Fields(p, time);
    }
  }

  /** Sector 0 of a partitioned drive is no FAT boot sector and leads to sector 63. */
  lemma MasterBootFields(p: Plan)
    requires p.bVol == 63
    ensures BootKind(MasterBoot(p)).OtherBoot? && PartitionStart(MasterBoot(p), 0) == 63
  {
    hide Or, And, StWord, StDword, LdWord, LdDword, PutWord, PutDword, Spliced, PutByte, Zeros, ByteOf, Dword,
      IsPow2;
    var s := MasterBoot(p);
    LettersFat(s, 54);
    LettersFat(s, 82);
    assert s[54] == 0 && s[82] == 0;
    assert LdWord(s, 510) == 0xAA55;
    assert s[450] == SystemId(p);
    SmallId(p);
  }

  lemma SmallId(p: Plan)
    ensures 0 < SystemId(p) < 256
  {
  }

  /** The volume is found where it was put. */
  lemma FoundAgain(disk: Image, img: Image, p: Plan, time: nat)
    requires Formatted(disk, img, p, time) && Storable(p) && OnMedium(p, |disk|) && |disk| < WORD32
    ensures |img| > 0 && p.bVol < |img| && img[p.bVol] == BootSector(p, time)
    ensures Locate(img) == Search(FatBoot, BootSector(p, time), p.bVol)
  {
    hide BootSector, MasterBoot, FatHead, InfoSector, BootKind, PartitionStart;
    BootRoundTrip(p, time);
    assert img[p.bVol] == Expected(disk, p, time, p.bVol);
    if p.bVol == 63 {
      assert img[0] == Expected(disk, p, time, 0);
      MasterBootFields(p);
    }
  }

  // ------------------------------------------------------------- the volume

  /** The parameter block read from the volume. */
  function BlockOf(p: Plan, time: nat): Bpb {
    BpbOf(BootSector(p, time))
  }

  lemma BlockSums(p: Plan, time: nat)
    requires Storable(p)
    ensures var b := BlockOf(p, time);
      && SystemSectors(b) == p.nRsv + p.nFat + p.nDir && b.secPerClus == p.csize && b.totSec == p.nVol
  {
    BootRoundTrip(p, time);
  }

  /** A volume is accepted exactly if there is room for a cluster, and then as planned. */
  lemma AcceptedIffRoomy(bVol: nat, nVol: nat, csize: nat, block: nat, time: nat)
    requires Manageable(bVol, nVol, csize) && (block == 0 || block > 32768 || IsPow2(block))
    requires IsPow2(csize) && csize <= 128 && (bVol == 0 || bVol == 63)
    requires Arrange(bVol, nVol, csize, block).Some?
    ensures var p := Arrange(bVol, nVol, csize, block).value;
      && Storable(p) && NoWrap(BlockOf(p, time)) && (Acceptable(BlockOf(p, time)) <==> Roomy(p))
      && (Roomy(p) ==> Clusters(BlockOf(p, time)) == p.clusters)
  {
    hide IsPow2, Arrange, BootSector, BpbOf, Whole, EntryEnd, BootKind;
    PlanLaws(bVol, nVol, csize, block);
    var p := Arrange(bVol, nVol, csize, block).value;
    BootRoundTrip(p, time);
    BlockSums(p, time);
    if p.nRsv + p.nFat + p.nDir <= nVol {
      WholeMono(nVol - (p.nRsv + p.nFat + p.nDir), nVol, csize);
    }
  }

  /** The geometry the plan stands for. */
  function Planned(p: Plan, sectors: nat): Geometry {
    Geometry(p.fsType, p.csize, 1, 16 * p.nDir, p.clusters + 2, p.nFat, p.bVol, FatStart(p),
             if p.fsType.Fat32? then 2 else FatStart(p) + p.nFat, DataStart(p), sectors)
  }

  lemma GeometryRecovered(p: Plan, time: nat, sectors: nat)
    requires Storable(p) && p.bVol + p.nVol < WORD32
    requires NoWrap(BlockOf(p, time)) && Acceptable(BlockOf(p, time))
    requires Clusters(BlockOf(p, time)) == p.clusters && TypeFor(p.clusters) == p.fsType
    ensures Analyse(BlockOf(p, time), p.bVol, sectors) == Some(Planned(p, sectors))
  {
    hide IsPow2, BootSector, BpbOf, Whole, EntryEnd, Analyse, Clusters, Acceptable, NoWrap;
    AcceptsExactly(BlockOf(p, time), p.bVol, sectors);
    BootRoundTrip(p, time);
    BlockSums(p, time);
    VolumeWithin(BlockOf(p, time), p.bVol, p.bVol + p.nVol);
    AnalysePlain(BlockOf(p, time), p.bVol, sectors);
  }

  // ----------------------------------------------------------------- the FAT

  /** Byte i of the formatted FAT. */
  function FatHeadByte(p: Plan, i: nat): Byte {
    if i < 512 then FatHead(p)[i] else 0
  }

  lemma DwordBytes(s: seq<Byte>, o: nat, v: nat)
    requires o + 4 <= |s| && LdDword(s, o) == v < WORD32
    ensures s[o] == v % 256 && s[o + 1] == v / 256 % 256
         && s[o + 2] == v / 0x1_0000 % 256 && s[o + 3] == v / 0x100_0000
  {
    hide LdDword;
    var a, b, c, d := s[o] as int, s[o + 1] as int, s[o + 2] as int, s[o + 3] as int;
    assert v == a + 256 * b + 0x1_0000 * c + 0x100_0000 * d;
    hide *;
    DivModUnique(v, 256, b + 256 * c + 0x1_0000 * d, a);
    DivModUnique(b + 256 * c + 0x1_0000 * d, 256, c + 256 * d, b);
    DivModUnique(v, 0x1_0000, c + 256 * d, a + 256 * b);
    DivModUnique(c + 256 * d, 256, d, c);
    DivModUnique(v, 0x100_0000, d, a + 256 * b + 0x1_0000 * c);
  }

  /** Bytes from 4 on are zero, on FAT32 from 12 on, and the bytes before those are known. */
  lemma FatHeadBytes(p: Plan, i: nat)
    ensures i >= (if p.fsType.Fat32? then 12 else 4) ==> FatHeadByte(p, i) == 0
    ensures FatHeadByte(p, 0) == Media(p) && FatHeadByte(p, 1) == FatHeadByte(p, 2) == 0xFF
    ensures FatHeadByte(p, 3) == (if p.fsType.Fat12? then 0 else 0xFF)
    ensures p.fsType.Fat32? ==>
      && FatHeadByte(p, 4) == FatHeadByte(p, 5) == FatHeadByte(p, 6) == FatHeadByte(p, 7) == 0xFF
      && FatHeadByte(p, 8) == FatHeadByte(p, 9) == FatHeadByte(p, 10) == 0xFF && FatHeadByte(p, 11) == 0x0F
  {
    hide Or, And, StDword, LdDword, PutDword, Zeros, Dword, Word;
    MediaWord(p);
    var s := FatHead(p);
    if p.fsType.Fat12? {
      DwordBytes(s, 0, 0x00FF_FF00 + Media(p));
    } else if p.fsType.Fat16? {
      DwordBytes(s, 0, 0xFFFF_FF00 + Media(p));
    } else {
      var s0 := PutDword(Zeros(), 0, Or(Media(p), 0xFFFF_FF00));
      var s1 := PutDword(s0, 4, 0xFFFF_FFFF);
      DwordBytes(s0, 0, 0xFFFF_FF00 + Media(p));
      DwordBytes(s1, 4, 0xFFFF_FFFF);
      DwordBytes(s, 8, 0x0FFF_FFFF);
    }
  }

  /** Entry c of a fresh FAT. */
  function FreshEntry(p: Plan, c: nat): nat {
    if c == 0 then Modulus(p.fsType) - 256 + Media(p)
    else if c == 1 then Modulus(p.fsType) - 1
    else if c == 2 && p.fsType.Fat32? then 0x0FFF_FFFF
    else 0
  }

  lemma FreshBytes(disk: Image, img: Image, p: Plan, time: nat, g: Geometry, i: nat)
    requires Formatted(disk, img, p, time) && Storable(p)
    requires OnDrive(g, img) && g.fatbase == FatStart(p) && g.fsize == p.nFat && i < 512 * g.fsize
    ensures FatByte(g, img, i) == FatHeadByte(p, i)
  {
    hide FatHead, Zeros, BootSector, MasterBoot, InfoSector;
    FatInside(g, i);
    var s := FatStart(p) + i / 512;
    assert img[s] == Expected(disk, p, time, s);
  }

  predicate FreshByteAt(p: Plan, g: Geometry, img: Image, i: nat)
    requires OnDrive(g, img)
  {
    i < 512 * g.fsize ==> FatByte(g, img, i) == FatHeadByte(p, i)
  }

  /** The FAT on the drive consists of the bytes written. */
  ghost predicate FreshBytesAt(p: Plan, g: Geometry, img: Image)
    requires OnDrive(g, img)
  {
    g.fsType == p.fsType && forall i: nat :: FreshByteAt(p, g, img, i)
  }

  lemma FreshWords(b: Byte)
    ensures Word(b, 0xFF) % 0x1000 == 0xF00 + b as int && Word(0xFF, 0xFF) / 16 == 0xFFF && Word(0, 0) == 0
  {
    assert Word(b, 0xFF) == 0x1000 * 15 + (0xF00 + b as int);
    DivModUnique(Word(b, 0xFF), 0x1000, 15, 0xF00 + b as int);
  }

  /** Entry c of the head of a FAT12, as a 16-bit word. */
  lemma FreshWord(p: Plan, c: nat)
    requires p.fsType.Fat12?
    ensures var o := EntryStart(Fat12, c);
      var w := Word(FatHeadByte(p, o), FatHeadByte(p, o + 1));
      (c == 0 ==> w % 0x1000 == 0xF00 + Media(p)) && (c == 1 ==> w / 16 == 0xFFF) && (c >= 2 ==> w == 0)
  {
    hide FatHeadByte, Media, Word;
    var o := EntryStart(Fat12, c);
    FatHeadBytes(p, o);
    FatHeadBytes(p, o + 1);
    FreshWords(Media(p));
  }

  lemma FreshEntry12(p: Plan, g: Geometry, img: Image, c: nat)
    requires OnDrive(g, img) && FreshBytesAt(p, g, img) && g.fsType.Fat12? && c < g.nFatEnt
    ensures Entry(g, img, c) == FreshEntry(p, c)
  {
    hide FatByte, FatHeadByte, Media, Entry, RawDword, Word;
    EntryWords(g, img, c);
    var o := EntryStart(g.fsType, c);
    assert FreshByteAt(p, g, img, o) && FreshByteAt(p, g, img, o + 1);
    FreshWord(p, c);
    if c >= 2 {
      assert Word(FatHeadByte(p, o), FatHeadByte(p, o + 1)) == 0;
    }
  }

  lemma FreshEntry16(p: Plan, g: Geometry, img: Image, c: nat)
    requires OnDrive(g, img) && FreshBytesAt(p, g, img) && g.fsType.Fat16? && c < g.nFatEnt
    ensures Entry(g, img, c) == FreshEntry(p, c)
  {
    hide FatByte, FatHeadByte, Media, Entry, RawDword, Dword;
    EntryWords(g, img, c);
    assert FreshByteAt(p, g, img, 2 * c) && FreshByteAt(p, g, img, 2 * c + 1);
    FatHeadBytes(p, 2 * c);
    FatHeadBytes(p, 2 * c + 1);
  }

  /** Entry c of the head of a FAT32, as a 32-bit word. */
  lemma FreshDword(p: Plan, c: nat)
    requires p.fsType.Fat32?
    ensures Dword(FatHeadByte(p, 4 * c), FatHeadByte(p, 4 * c + 1), FatHeadByte(p, 4 * c + 2), FatHeadByte(p, 4 * c + 3))
         == if c == 0 then 0xFFFF_FF00 + Media(p) else if c == 1 then 0xFFFF_FFFF else if c == 2 then 0x0FFF_FFFF else 0
  {
    hide FatHeadByte, Media, Dword, Word;
    FatHeadBytes(p, 4 * c);
    FatHeadBytes(p, 4 * c + 1);
    FatHeadBytes(p, 4 * c + 2);
    FatHeadBytes(p, 4 * c + 3);
    if c == 0 {
      DwordOf(Media(p), 0xFF, 0xFF, 0xFF);
    } else if c == 1 {
      DwordOf(0xFF, 0xFF, 0xFF, 0xFF);
    } else if c == 2 {
      DwordOf(0xFF, 0xFF, 0xFF, 0x0F);
    } else {
      DwordOf(0, 0, 0, 0);
    }
  }

  lemma DwordOf(a: Byte, b: Byte, c: Byte, d: Byte)
    ensures Dword(a, b, c, d) == a as int + 256 * (b as int) + 0x1_0000 * (c as int) + 0x100_0000 * (d as int)
  {
  }

  lemma FreshEntry32(p: Plan, g: Geometry, img: Image, c: nat)
    requires OnDrive(g, img) && FreshBytesAt(p, g, img) && g.fsType.Fat32? && c < g.nFatEnt
    ensures Entry(g, img, c) == FreshEntry(p, c)
  {
    hide FatByte, FatHeadByte, Media, Entry, RawDword, Dword, Word;
    EntryWords(g, img, c);
    RawDwordIs(g, img, 4 * c);
    assert FreshByteAt(p, g, img, 4 * c) && FreshByteAt(p, g, img, 4 * c + 1);
    assert FreshByteAt(p, g, img, 4 * c + 2) && FreshByteAt(p, g, img, 4 * c + 3);
    FreshDword(p, c);
    if c == 0 {
      DivModUnique(0xFFFF_FF00 + Media(p), 0x1000_0000, 15, 0x0FFF_FF00 + Media(p));
    }
  }

  lemma {:induction false} FreshCount(f: Table, k: nat, a: nat)
    requires 2 <= a <= k <= |f|
    requires forall c :: 2 <= c < k ==> (f[c] == 0 <==> c >= a)
    ensures FreeBelow(f, k) == k - a
  {
    if k > a {
      FreshCount(f, k - 1, a);
    } else {
      NoneBelow(f, k);
    }
  }

  lemma {:induction false} NoneBelow(f: Table, k: nat)
    requires k <= |f| && forall c :: 2 <= c < k ==> f[c] != 0
    ensures FreeBelow(f, k) == 0
  {
    if k > 2 {
      NoneBelow(f, k - 1);
    }
  }

  /** The FAT of a formatted volume: reserved entries, a root directory on FAT32, all else free. */
  lemma FreshFat(disk: Image, img: Image, p: Plan, time: nat)
    requires Formatted(disk, img, p, time) && Storable(p) && OnMedium(p, |disk|)
    requires OnDrive(Planned(p, |img|), img)
    ensures var f := FatOf(Planned(p, |img|), img);
      && (forall c {:trigger f[c]} :: 0 <= c < |f| ==> f[c] == FreshEntry(p, c))
      && FreeCount(f) == p.clusters - (if p.fsType.Fat32? then 1 else 0)
  {
    var g := Planned(p, |img|);
    hide FatHead, Zeros, BootSector, MasterBoot, InfoSector, FatOf, Entry;
    forall i: nat
      ensures FreshByteAt(p, g, img, i)
    {
      if i < 512 * g.fsize {
        FreshBytes(disk, img, p, time, g, i);
      }
    }
    var f := FatOf(g, img);
    forall c | 0 <= c < |f|
      ensures f[c] == FreshEntry(p, c)
    {
      FatAt(g, img, c);
      match p.fsType {
        case Fat12 => FreshEntry12(p, g, img, c);
        case Fat16 => FreshEntry16(p, g, img, c);
        case Fat32 => FreshEntry32(p, g, img, c);
      }
    }
    FreshCount(f, |f|, if p.fsType.Fat32? then 3 else 2);
  }

  lemma InfoHints(p: Plan)
    requires 0 < p.clusters < WORD32
    ensures Hints(InfoSector(p)) == (2, p.clusters - 1)
  {
    hide LdWord, LdDword, InfoSector;
    FormatBytes.InfoInBytes(p);
    Signature(InfoSector(p));
    HintsInBytes(InfoSector(p));
  }

  // --------------------------------------------------------- the round trip

  lemma RoomyVolume(disk: Image, img: Image, p: Plan, time: nat)
    requires Formatted(disk, img, p, time) && Storable(p) && OnMedium(p, |disk|) && |disk| < WORD32
    requires p.bVol + p.nVol == |disk| && NoWrap(BlockOf(p, time)) && Acceptable(BlockOf(p, time))
    requires 0 < p.clusters == Clusters(BlockOf(p, time)) < WORD32 && TypeFor(p.clusters) == p.fsType
    ensures var g := Planned(p, |img|);
      && Analyse(BlockOf(p, time), p.bVol, |img|) == Some(g) && Sound(g)
      && FreeCount(FatOf(g, img)) == p.clusters - (if p.fsType.Fat32? then 1 else 0)
      && (p.fsType.Fat32? ==> BlockOf(p, time).fsInfo == 1 && Hints(img[p.bVol + 1]) == (2, p.clusters - 1))
  {
    hide IsPow2, BootSector, BpbOf, EntryEnd, Analyse, Acceptable, NoWrap, FatOf, InfoSector, Hints, Clusters,
      FatHead, MasterBoot;
    GeometryRecovered(p, time, |img|);
    BlockSums(p, time);
    VolumeWithin(BlockOf(p, time), p.bVol, |img|);
    MountIsSound(BlockOf(p, time), p.bVol, |img|);
    FreshFat(disk, img, p, time);
    if p.fsType.Fat32? {
      assert img[p.bVol + 1] == Expected(disk, p, time, p.bVol + 1);
      InfoHints(p);
      BootRoundTrip(p, time);
    }
  }

  /**
   * After f_mkfs reported success a mount looks at the volume just made, accepts it exactly
   * if the alignment left room for a cluster, and then recovers type, cluster size,
   * FAT size, data start and cluster count; the data area starts on an erase block, and
   * the FAT32 information sector tells the number of free clusters.
   */
  lemma FormatThenMount(disk: Image, img: Image, sfd: nat, au: nat, block: nat, time: nat)
    requires 128 <= |disk| < WORD32 && (au == 0 || IsPow2(au)) && Numbered(|disk|, sfd, au)
    requires block == 0 || block > 32768 || IsPow2(block)
    requires PlanFor(|disk|, sfd, au, block).Some?
    requires var p := PlanFor(|disk|, sfd, au, block).value;
      OnMedium(p, |disk|) && Formatted(disk, img, p, time)
    ensures Locate(img).kind.FatBoot? && Trusted(img)
    ensures var p, b := PlanFor(|disk|, sfd, au, block).value, BpbOf(Locate(img).win);
      && Locate(img).bsect == p.bVol
      && (Acceptable(b) <==> Roomy(p))
      && (Roomy(p) ==>
            && Analyse(b, p.bVol, |img|) == Some(Planned(p, |img|)) && Sound(Planned(p, |img|))
            && DataStart(p) % BlockSize(block) == 0
            && FreeCount(FatOf(Planned(p, |img|), img)) == p.clusters - (if p.fsType.Fat32? then 1 else 0)
            && (p.fsType.Fat32? ==> b.fsInfo == 1 && Hints(img[p.bVol + 1]) == (2, p.clusters - 1)))
  {
    hide IsPow2, Arrange, BootSector, BpbOf, Whole, EntryEnd, Analyse, Acceptable, NoWrap, Locate, FatOf, Sound,
      InfoSector, Hints, Clusters, Formatted, UnitSectors, Planned;
    var bVol := if sfd == 1 then 0 else 63;
    var nVol := |disk| - bVol;
    var csize := UnitSectors(au, nVol);
    UnitIsPow2(au, nVol);
    AcceptedIffRoomy(bVol, nVol, csize, block, time);
    PlanLaws(bVol, nVol, csize, block);
    var p := Arrange(bVol, nVol, csize, block).value;
    FoundAgain(disk, img, p, time);
    BlockSums(p, time);
    SameSize(disk, img, p, time);
    if Roomy(p) {
      VolumeWithin(BlockOf(p, time), p.bVol, |img|);
      RoomyVolume(disk, img, p, time);
    }
  }

  lemma SameSize(disk: Image, img: Image, p: Plan, time: nat)
    requires Formatted(disk, img, p, time)
    ensures |img| == |disk|
  {
  }

  /** Cluster sizes are powers of two up to 128 sectors. */
  lemma UnitIsPow2(au: nat, nVol: nat)
    requires au == 0 || IsPow2(au)
    ensures IsPow2(UnitSectors(au, nVol)) && UnitSectors(au, nVol) <= 128
  {
    hide Row;
    var r := Row(nVol / 2000, 0);
    assert CST[r] in CST;
    if au > 0 {
      BytePowers();
      PowUp(32);
      if au >= 512 {
        PowDiv(au, 512);
      }
    }
  }

  lemma {:induction false} PowDiv(x: nat, d: nat)
    requires IsPow2(x) && IsPow2(d) && d <= x
    ensures d > 0 && IsPow2(x / d)
  {
    if d > 1 {
      var h, e := x / 2, d / 2;
      PowDiv(h, e);
      DivModOf(h, e);
      assert d * (h / e) == 2 * (e * (h / e));
      DivModUnique(x, d, h / e, 2 * (h % e));
    }
  }

  /**
   * A drive on which f_mkfs succeeds and leaves nothing to mount: 128 sectors without
   * partition table, clusters of 32 KB, erase blocks of 128 sectors. Alignment
   * turns the whole data area into FAT.
   */
  lemma FormatMayLeaveNoCluster()
    ensures var p := PlanFor(128, 1, 32768, 128);
      p.Some? && OnMedium(p.value, 128) && !Roomy(p.value) && p.value.clusters == 0
  {
    GapOfExample();
  }

  lemma GapOfExample()
    ensures Gap(34, 128) == 94
  {
    assert IsPow2(128);
    GapIs(34, 128, 161, 33);
  }
}
