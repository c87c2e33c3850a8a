/**
What a mount reads from the drive, in byte offsets: which sectors are boot sectors, where the
partitions start, which volume is taken, and the geometry its parameter block stands for.
*/
module MountBytes {
  import opened Wrappers
  import opened Bits
  import opened Layout
  import opened Mount

  /** The signature at 510 makes a boot sector, the letters FAT at 54 or 82 a FAT boot sector. */
  lemma BootInBytes(win: Sector)
    ensures BootKind(win).NotBoot? <==> !(win[510] == 0x55 && win[511] == 0xAA)
    ensures BootKind(win).FatBoot? <==>
      && win[510] == 0x55 && win[511] == 0xAA
      && ((win[54] == 0x46 && win[55] == 0x41 && win[56] == 0x54) || (win[82] == 0x46 && win[83] == 0x41 && win[84] == 0x54))
    ensures !BootKind(win).DiskError?
  {
    hide HasFat;
    LettersFat(win, 54);
    LettersFat(win, 82);
    LittleEndian(win, 508, 0);
  }

  /** An entry of the partition table is used if its type byte is not zero; its start is 8 bytes into it. */
  lemma PartitionInBytes(mbr: Sector)
    ensures PartitionStart(mbr, 0) == if mbr[450] == 0 then 0 else LdDword(mbr, 454)
    ensures PartitionStart(mbr, 1) == if mbr[466] == 0 then 0 else LdDword(mbr, 470)
    ensures PartitionStart(mbr, 2) == if mbr[482] == 0 then 0 else LdDword(mbr, 486)
    ensures PartitionStart(mbr, 3) == if mbr[498] == 0 then 0 else LdDword(mbr, 502)
  {
  }

  /** The hints are taken from a sector with all three signatures: cluster at 492, free count at 488. */
  lemma HintsInBytes(info: Sector)
    ensures Hints(info) ==
      if info[510] == 0x55 && info[511] == 0xAA && LdDword(info, 0) == 0x4161_5252 && LdDword(info, 484) == 0x6141_7272
      then (LdDword(info, 492), LdDword(info, 488)) else (0xFFFF_FFFF, 0xFFFF_FFFF)
  {
    LittleEndian(info, 508, 0);
  }

  // -------------------------------------------------------------- the search

  /** Partition k is of no use: unused, off the drive, or not a FAT volume. */
  predicate Useless(disk: Image, k: nat)
    requires |disk| > 0 && k < 4
  {
    var s := PartitionStart(disk[0], k);
    s == 0 || s >= |disk| || !BootKind(disk[s]).FatBoot?
  }

  lemma {:induction false} FirstUseful(disk: Image, i: nat, s: nat)
    requires |disk| > 0 && i < 4 && FirstFat(disk, disk[0], i, s)
    ensures exists k: nat :: i <= k < 4 && !Useless(disk, k) && s == PartitionStart(disk[0], k)
                             && forall j: nat :: i <= j < k ==> Useless(disk, j)
    decreases 4 - i
  {
    hide BootKind, PartitionStart;
    if FatPartition(disk, disk[0], i) {
      assert !Useless(disk, i);
    } else {
      FirstUseful(disk, i + 1, s);
      var k: nat :| i + 1 <= k < 4 && !Useless(disk, k) && s == PartitionStart(disk[0], k)
                    && forall j: nat :: i + 1 <= j < k ==> Useless(disk, j);
      assert Useless(disk, i);
    }
  }

  /** A drive error ends the search exactly if the last partition starts off the drive. */
  lemma {:induction false} SearchErrs(disk: Image, mbr: Sector, win: Sector, i: nat)
    requires i < 4 && |disk| > 0 && mbr == disk[0] && !BootKind(win).FatBoot? && forall j: nat :: i <= j < 4 ==> Useless(disk, j)
    ensures var s := PartitionStart(mbr, 3);
      SearchFrom(disk, mbr, win, i).kind.DiskError? <==> s >= |disk| && s != 0xFFFF_FFFF
    decreases 4 - i
  {
    hide PartitionStart;
    assert Useless(disk, i);
    var b := PartitionStart(mbr, i);
    var p := if b != 0 then CheckFs(disk, win, b) else Probe(NotBoot, win);
    assert !p.kind.FatBoot? && !BootKind(p.win).FatBoot?;
    BootInBytes(win);
    if i < 3 {
      SearchErrs(disk, mbr, p.win, i + 1);
    }
  }

  /**
  Sector 0 is taken if it is a FAT boot sector; if it is a boot sector of another kind, the first
  partition that starts on the drive with a FAT boot sector is; otherwise there is no volume, and the
  search ends in a drive error only if the last partition starts off the drive.
  */
  lemma SearchInPlain(disk: Image)
    requires 0 < |disk| < WORD32
    ensures BootKind(disk[0]).FatBoot? ==> Locate(disk) == Search(FatBoot, disk[0], 0)
    ensures BootKind(disk[0]).NotBoot? ==> Locate(disk).kind.NotBoot?
    ensures BootKind(disk[0]).OtherBoot? ==>
      (Locate(disk).kind.FatBoot? <==> exists k: nat :: k < 4 && !Useless(disk, k))
    ensures BootKind(disk[0]).OtherBoot? && Locate(disk).kind.FatBoot? ==>
      exists k: nat :: k < 4 && !Useless(disk, k) && (forall j: nat :: j < k ==> Useless(disk, j))
        && Locate(disk).bsect == PartitionStart(disk[0], k) < |disk| && Locate(disk).win == disk[PartitionStart(disk[0], k)]
    ensures BootKind(disk[0]).OtherBoot? && !Locate(disk).kind.FatBoot? ==>
      (Locate(disk).kind.DiskError? <==> PartitionStart(disk[0], 3) >= |disk| && PartitionStart(disk[0], 3) != 0xFFFF_FFFF)
  {
    hide BootKind, PartitionStart, SearchFrom;
    BootInBytes(disk[0]);
    LocateFindsFirst(disk);
    if BootKind(disk[0]).OtherBoot? {
      forall k: nat | k < 4
        ensures FatPartition(disk, disk[0], k) <==> !Useless(disk, k)
      {
      }
      if Locate(disk).kind.FatBoot? {
        FirstUseful(disk, 0, Locate(disk).bsect);
      } else {
        SearchErrs(disk, disk[0], disk[0], 0);
      }
    }
  }

  /** What a mount relies on, for a volume whose sums and cluster numbers fit: its clusters end on the drive. */
  lemma TrustedInBytes(disk: Image)
    requires |disk| > 0
    ensures var win, bsect := Locate(disk).win, Locate(disk).bsect;
      var c: int, fsz := win[13], if LdWord(win, 22) != 0 then LdWord(win, 22) else LdDword(win, 36);
      var sys := LdWord(win, 14) + win[16] as int * fsz + LdWord(win, 17) / 16;
      var tot := if LdWord(win, 19) != 0 then LdWord(win, 19) else LdDword(win, 32);
      (Locate(disk).kind.FatBoot? && c > 0 && sys + c <= tot && sys < 0x1_0000_0000 && (tot - sys) / c + 2 <= 0xFFF_FFF7
        && bsect + sys + (tot - sys) / c * c <= |disk|) ==> Trusted(disk)
  {
    hide Locate, LdWord, LdDword;
  }

  // ------------------------------------------------------------ the geometry

  /** Every field of the geometry from the bytes of the boot sector, all sums modulo 2^32. */
  lemma GeometryInBytes(win: Sector, bsect: nat, sectors: nat, g: Geometry)
    requires Analyse(BpbOf(win), bsect, sectors) == Some(g)
    ensures LdWord(win, 11) == 512 && g.csize == win[13] > 0 && g.nFats == win[16] && (win[16] == 1 || win[16] == 2)
    ensures g.nRootDir == LdWord(win, 17) && g.volbase == bsect && g.sectors == sectors
    ensures g.fsize == if LdWord(win, 22) != 0 then LdWord(win, 22) else LdDword(win, 36)
    ensures g.fatbase == (bsect + LdWord(win, 14)) % 0x1_0000_0000
    ensures var sys := (LdWord(win, 14) + g.fsize * win[16] % 0x1_0000_0000 + LdWord(win, 17) / 16) % 0x1_0000_0000;
      var tot := if LdWord(win, 19) != 0 then LdWord(win, 19) else LdDword(win, 32);
      && sys <= tot && g.database == (bsect + sys) % 0x1_0000_0000
      && g.nFatEnt == ((tot - sys) / win[13] as int + 2) % 0x1_0000_0000
      && (g.fsType.Fat12? <==> (tot - sys) / win[13] as int < 4086)
      && (g.fsType.Fat32? <==> (tot - sys) / win[13] as int >= 65526)
    ensures g.dirbase == if g.fsType.Fat32? then LdDword(win, 44) else (g.fatbase + g.fsize * win[16] % 0x1_0000_0000) % 0x1_0000_0000
  {
    hide And, NeededBytes, LdWord, LdDword;
  }

  /** FSINFO is asked for by the word at 48. */
  lemma InfoInBytes(win: Sector)
    ensures BpbOf(win).fsInfo == LdWord(win, 48)
  {
  }

  lemma {:induction false} ClusterSizes(c: nat)
    requires c < 256
    ensures IsPow2(c) <==> c == 1 || c == 2 || c == 4 || c == 8 || c == 16 || c == 32 || c == 64 || c == 128
  {
    if c > 1 {
      ClusterSizes(c / 2);
    } else {
      NotPow2Zero();
    }
  }

  /**
  Which parameter blocks are accepted, when no sum passes 2^32 and the cluster numbers fit into 28
  bits: 512-byte sectors, one or two FATs, a cluster size from 1 to 128 sectors, whole sectors of root
  entries, a reserved sector, room for a cluster, root entries exactly on FAT12/16, and a FAT that
  is large enough.
  */
  lemma AcceptsInBytes(win: Sector, bsect: nat, sectors: nat)
    requires var fsz := if LdWord(win, 22) != 0 then LdWord(win, 22) else LdDword(win, 36);
      var sys := LdWord(win, 14) + win[16] as int * fsz + LdWord(win, 17) / 16;
      var tot := if LdWord(win, 19) != 0 then LdWord(win, 19) else LdDword(win, 32);
      && sys < 0x1_0000_0000 && (win[13] > 0 && sys <= tot ==> (tot - sys) / win[13] as int + 2 <= 0xFFF_FFF7)
    ensures var c: int, fsz := win[13], if LdWord(win, 22) != 0 then LdWord(win, 22) else LdDword(win, 36);
      var sys := LdWord(win, 14) + win[16] as int * fsz + LdWord(win, 17) / 16;
      var tot := if LdWord(win, 19) != 0 then LdWord(win, 19) else LdDword(win, 32);
      Analyse(BpbOf(win), bsect, sectors).Some? <==>
        && LdWord(win, 11) == 512 && (win[16] == 1 || win[16] == 2)
        && (c == 1 || c == 2 || c == 4 || c == 8 || c == 16 || c == 32 || c == 64 || c == 128)
        && LdWord(win, 17) % 16 == 0 && LdWord(win, 14) > 0 && sys + c <= tot
        && (LdWord(win, 17) == 0 <==> (tot - sys) / c >= 65526)
        && var n := (tot - sys) / c + 2;
           if n < 4088 then 3 * n <= 1024 * fsz else if n < 65528 then 2 * n <= 512 * fsz else 4 * n <= 512 * fsz
  {
    hide And, NeededBytes, LdWord, LdDword, Analyse, IsPow2;
    var b := BpbOf(win);
    ClusterSizes(win[13]);
    AcceptsExactly(b, bsect, sectors);
  }
}
