/**
f_getfree of fatfs/src/ff.c: the scan of the raw FAT sectors, and how it compares
with counting the free clusters.
*/
module FreeScan {
  import opened Bits
  import opened Layout
  import opened Entries
  import opened FatMap
  import opened Volume
  import opened Allocator

  /** Zero entries among 0 .. k - 1, entries 0 and 1 included. */
  function ZerosBelow(f: Table, k: nat): nat
    requires k <= |f|
  {
    if k == 0 then 0 else ZerosBelow(f, k - 1) + if f[k - 1] == 0 then 1 else 0
  }

  /** The scan counts the reserved entries 0 and 1 as well when they are zero. */
  lemma {:induction false} ScanVersusCount(f: Table, k: nat)
    requires 2 <= k <= |f|
    ensures ZerosBelow(f, k) == FreeBelow(f, k) + (if f[0] == 0 then 1 else 0) + (if f[1] == 0 then 1 else 0)
  {
    if k > 2 {
      ScanVersusCount(f, k - 1);
    } else {
      assert ZerosBelow(f, 1) == if f[0] == 0 then 1 else 0;
    }
  }

  function EntryBytes(t: FatType): nat {
    if t.Fat16? then 2 else 4
  }

  /** Entry k of a FAT16 or FAT32 table lies inside one sector. */
  lemma RawSlot(g: Geometry, k: nat)
    requires FatFits(g) && !g.fsType.Fat12? && k < g.nFatEnt
    ensures var u := EntryBytes(g.fsType); u * k + u <= 512 * g.fsize && u * k % 512 + u <= 512
    ensures InFat(g, g.fatbase + EntryBytes(g.fsType) * k / 512)
  {
    WideSlot(g, k);
  }

  /** Is the raw entry at offset p of the window zero? */
  method RawIsZero(fs: FatFs, p: nat, ghost k: nat) returns (z: bool)
    requires fs.Valid() && !fs.g.fsType.Fat12? && k < fs.g.nFatEnt
    requires fs.winsect == fs.g.fatbase + EntryBytes(fs.g.fsType) * k / 512 && p == EntryBytes(fs.g.fsType) * k % 512
    ensures z == (fs.Fat()[k] == 0)
  {
    hide FatOf, And, LdDword, LdWord, MirrorsAgree, WithSector, Entry;
    RawSlot(fs.g, k);
    FatAt(fs.g, fs.Image(), k);
    EntryWords(fs.g, fs.Image(), k);
    fs.WindowContent();
    if fs.g.fsType.Fat16? {
      SectorWord(fs.g, fs.Image(), k);
      z := LdWord(fs.win[..], p) == 0;
    } else {
      SectorDword(fs.g, fs.Image(), k);
      var w := LdDword(fs.win[..], p);
      Low28(w);
      z := And(w, 0x0FFF_FFFF) == 0;
    }
  }

  /** Sector and offset arithmetic of one turn of the scan. */
  lemma ScanStep(u: nat, k: nat)
    requires u == 2 || u == 4
    ensures u * k % 512 + u <= 512
    ensures u * (k + 1) % 512 == (u * k % 512 + u) % 512
    ensures u * k % 512 != 0 ==> u * (k - 1) / 512 == u * k / 512
    ensures u * (k + 1) % 512 != 0 ==> u * (k + 1) / 512 == u * k / 512
    ensures u * (k + 1) % 512 == 0 ==> u * (k + 1) / 512 == u * k / 512 + 1
  {
    SlotInSector(u, k, u - 1);
    assert u * (k + 1) == u * k + u;
    assert u * (k - 1) == u * k - u;
  }

  /** The scan over the FAT sectors: i bytes of the window are left, p is the next offset. */
  method ScanRaw(fs: FatFs) returns (n: nat)
    requires fs.Valid() && !fs.g.fsType.Fat12?
    modifies fs`disk, fs`wflag, fs`winsect, fs`durable, fs.win
    ensures fs.Valid() && fs.Image() == old(fs.Image()) && n == ZerosBelow(fs.Fat(), fs.g.nFatEnt)
  {
    hide FatOf, WithSector, Entry, InFat, FatFits;
    var u := EntryBytes(fs.g.fsType);
    var clst, sect, i, p := fs.g.nFatEnt, fs.g.fatbase, 0, 0;
    n := 0;
    ghost var k := 0;
    while clst > 0
      invariant fs.Valid() && fs.Image() == old(fs.Image())
      invariant k + clst == fs.g.nFatEnt && n == ZerosBelow(fs.Fat(), k)
      invariant i == (if u * k % 512 == 0 then 0 else 512 - u * k % 512)
      invariant if i == 0 then sect == fs.g.fatbase + u * k / 512 else sect == fs.g.fatbase + u * k / 512 + 1
      invariant i != 0 ==> p == u * k % 512 && fs.winsect == fs.g.fatbase + u * k / 512
    {
      RawSlot(fs.g, k);
      ScanStep(u, k);
      if i == 0 {
        FatSectorOnDrive(fs.g, u * k);
        fs.MoveWindow(sect);
        sect := sect + 1;
        p, i := 0, 512;
      }
      var z := RawIsZero(fs, p, k);
      if z {
        n := n + 1;
      }
      p, i := p + u, i - u;
      k, clst := k + 1, clst - 1;
    }
  }

  lemma FatSectorOnDrive(g: Geometry, b: nat)
    requires FatFits(g) && b < 512 * g.fsize
    ensures g.fatbase + b / 512 < g.sectors
  {
  }

  /** FAT12: entry by entry through get_fat, stopping at an error mark. */
  method ScanEntries(fs: FatFs) returns (res: FResult, n: nat, ghost stop: nat)
    requires fs.Valid()
    modifies fs`disk, fs`wflag, fs`winsect, fs`durable, fs.win
    ensures fs.Valid() && fs.Image() == old(fs.Image())
    ensures 2 <= stop <= fs.g.nFatEnt && n == FreeBelow(fs.Fat(), stop)
    ensures forall c :: 2 <= c < stop ==> fs.Fat()[c] != 1
    ensures if res == OK then stop == fs.g.nFatEnt else res == IntErr && stop < fs.g.nFatEnt && fs.Fat()[stop] == 1
  {
    hide FatOf, WithSector, Entry, InFat;
    var clst := 2;
    n, res := 0, OK;
    while clst < fs.g.nFatEnt
      invariant fs.Valid() && fs.Image() == old(fs.Image()) && res == OK
      invariant 2 <= clst <= fs.g.nFatEnt && n == FreeBelow(fs.Fat(), clst)
      invariant forall c :: 2 <= c < clst ==> fs.Fat()[c] != 1
    {
      var stat := fs.GetFat(clst);
      if stat == 1 {
        res := IntErr;
        break;
      }
      if stat == 0 {
        n := n + 1;
      }
      clst := clst + 1;
    }
    stop := clst;
  }

  /**
  f_getfree. A known count is returned as it is. Otherwise the FAT is scanned, even
  while one of its sectors is dirty in the window, and the result is remembered: on
  FAT16 and FAT32 it exceeds the number of free clusters by the zero entries among
  the reserved two, on FAT12 it is exact unless the scan meets an error mark, and
  then the partial count is remembered all the same.
  */
  method GetFree(fs: FatFs) returns (res: FResult, nclst: nat)
    requires fs.Valid()
    modifies fs`disk, fs`wflag, fs`winsect, fs`durable, fs`freeClust, fs`fsiDirty, fs.win
    ensures fs.Valid() && fs.Image() == old(fs.Image()) && fs.freeClust == nclst
    ensures old(fs.freeClust) <= fs.g.nFatEnt - 2 ==> res == OK && nclst == old(fs.freeClust)
    ensures old(fs.freeClust) > fs.g.nFatEnt - 2 && !fs.g.fsType.Fat12? ==>
      res == OK && nclst == FreeCount(fs.Fat()) + (if fs.Fat()[0] == 0 then 1 else 0) + (if fs.Fat()[1] == 0 then 1 else 0)
    ensures old(fs.freeClust) > fs.g.nFatEnt - 2 && fs.g.fsType.Fat12? ==>
      && (res == OK <==> NoErrorMark(fs.Fat())) && (res == OK || res == IntErr)
      && (res == OK ==> nclst == FreeCount(fs.Fat()))
      && (res == IntErr ==> exists e :: 2 <= e < fs.g.nFatEnt && fs.Fat()[e] == 1 && nclst == FreeBelow(fs.Fat(), e)
                                          && forall c :: 2 <= c < e ==> fs.Fat()[c] != 1)
    ensures fs.fsiDirty == (old(fs.fsiDirty) || old(fs.freeClust) > fs.g.nFatEnt - 2)
    ensures res == OK && (old(fs.freeClust) > fs.g.nFatEnt - 2 || old(CountExact(fs))) && fs.Fat()[0] != 0 && fs.Fat()[1] != 0 ==> CountExact(fs)
  {
    hide FatOf, WithSector, Entry, InFat, FreeBelow, ZerosBelow;
    res := OK;
    if fs.freeClust <= fs.g.nFatEnt - 2 {
      nclst := fs.freeClust;
    } else {
      if fs.g.fsType.Fat12? {
        ghost var stop;
        res, nclst, stop := ScanEntries(fs);
      } else {
        nclst := ScanRaw(fs);
        ScanVersusCount(fs.Fat(), fs.g.nFatEnt);
      }
      CountBound(fs.Fat());
      fs.freeClust := nclst;
      fs.fsiDirty := true;
    }
  }

  lemma CountBound(f: Table)
    requires |f| >= 3
    ensures FreeCount(f) <= |f| - 2 && forall k :: 2 <= k <= |f| ==> FreeBelow(f, k) <= |f| - 2
  {
  }
}
