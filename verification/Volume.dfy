/**
The mounted volume: the drive seen through a one-sector write-back window, the
packed FAT stored through it, and the cluster allocator of fatfs/src/ff.c.
*/
module Volume {
  import opened Bits
  import opened Layout
  import opened Entries
  import opened FatMap

  /** The result codes of FRESULT that occur on an error-free drive. */
  datatype FResult = OK | IntErr | NoFile | Denied | NotEnoughCore

  const UNKNOWN := 0xFFFF_FFFF

  /** The end mark as create_chain and f_truncate store it. */
  function EndMark(g: Geometry): nat {
    0x0FFF_FFFF % Modulus(g.fsType)
  }

  lemma Low28(w: nat)
    ensures And(w, 0x0FFF_FFFF) == w % 0x1000_0000
  {
    BytePowers();
    PowUp(0x100_0000);
    AndMask(w, 0x1000_0000);
  }

  lemma Nibbles12(c: nat, w: nat)
    ensures And(c, 1) == c % 2 && And(w, 0xFFF) == w % 0x1000
  {
    AndMask(c, 2);
    BytePowers();
    PowUp(256);
    AndMask(w, 0x1000);
  }

  lemma SplicedWord(sec: Sector, p: nat, w: nat)
    requires p + 2 <= 512
    ensures Spliced(sec, p, [ByteOf(w, 0), ByteOf(w, 1)]) == StWord(sec, p, w)
  {
  }

  lemma SplicedDword(sec: Sector, p: nat, w: nat)
    requires p + 4 <= 512
    ensures Spliced(sec, p, [ByteOf(w, 0), ByteOf(w, 1), ByteOf(w, 2), ByteOf(w, 3)]) == StDword(sec, p, w)
  {
  }

  /** Two media that differ at most in the further FAT copies. */
  ghost predicate SamePrimary(g: Geometry, a: Image, b: Image) {
    && |a| == |b|
    && forall s: nat :: s < |a| && !(g.nFats == 2 && InFat(g, s - g.fsize)) ==> b[s] == a[s]
  }

  class FatFs {
    const g: Geometry
    const win: array<Byte>
    var disk: Image
    var winsect: nat
    var wflag: bool
    var fsiDirty: bool
    var lastClust: nat
    var freeClust: nat
    ghost var trace: seq<Table>    // the FAT after each store into the window
    ghost var durable: seq<Table>  // the FAT on the medium after each sector write

    /** The drive as it will be once the window is written back to every FAT copy. */
    ghost function Image(): (img: Image)
      requires OnDrive(g, disk) && win.Length == 512 && winsect < |disk|
      reads this, win
      ensures OnDrive(g, img)
    {
      if wflag then WithSector(g, disk, winsect, win[..]) else disk
    }

    ghost function Fat(): (f: Table)
      requires OnDrive(g, disk) && win.Length == 512 && winsect < |disk|
      reads this, win
      ensures |f| == g.nFatEnt
    {
      FatOf(g, Image())
    }

    ghost predicate Valid()
      reads this, win
    {
      && OnDrive(g, disk) && win.Length == 512 && winsect < |disk|
      && (!wflag ==> win[..] == disk[winsect])
      && lastClust < WORD32 && freeClust < WORD32
      && Ordered()
    }

    /** Write-back order: the FAT on the medium was always one of the tables stored so far. */
    ghost predicate Ordered()
      requires OnDrive(g, disk) && win.Length == 512 && winsect < |disk|
      reads this, win
    {
      && |trace| > 0 && trace[|trace| - 1] == Fat()
      && FatOf(g, disk) in trace
      && forall i :: 0 <= i < |durable| ==> durable[i] in trace
    }

    /** A volume just mounted: geometry known, window clean. */
    constructor (geo: Geometry, medium: Image, sector: nat, last: nat, free: nat)
      requires OnDrive(geo, medium) && sector < |medium| && last < WORD32 && free < WORD32
      ensures Valid() && fresh(win) && g == geo && disk == medium && winsect == sector && !wflag
      ensures lastClust == last && freeClust == free && !fsiDirty
      ensures trace == [FatOf(geo, medium)] && durable == []
    {
      g := geo;
      disk := medium;
      winsect := sector;
      wflag := false;
      fsiDirty := false;
      lastClust := last;
      freeClust := free;
      var buf: array<Byte> := new Byte[512](i requires 0 <= i < 512 => medium[sector][i]);
      win := buf;
      trace := [FatOf(geo, medium)];
      durable := [];
      new;
      assert win[..] == medium[sector];
    }

    /** The window holds the current content of its sector. */
    lemma WindowContent()
      requires Valid()
      ensures Image()[winsect] == win[..]
    {
    }

    /**
    sync_window: the dirty sector goes to its place and then to every further FAT copy. The
    medium after each of these writes (media) is, up to the further copies, the whole logical image.
    */
    method SyncWindow() returns (ghost media: seq<Image>)
      requires Valid()
      modifies `disk, `wflag, `durable
      ensures Valid() && !wflag
      ensures disk == old(Image()) && |disk| == |old(disk)|
      ensures old(wflag) ==> disk[winsect] == win[..]
      ensures (old(wflag) && g.nFats == 2 && g.fatbase <= winsect < g.fatbase + g.fsize ==>
        winsect + g.fsize < |disk| && disk[winsect + g.fsize] == win[..])
      ensures old(durable) <= durable
      ensures |media| == if !old(wflag) then 0 else if InFat(g, winsect) then g.nFats else 1
      ensures media != [] ==> media[|media| - 1] == disk
      ensures forall i :: 0 <= i < |media| ==> SamePrimary(g, old(Image()), media[i])
    {
      hide FatOf;
      media := [];
      if wflag {
        ghost var img := Image();
        disk := disk[winsect := win[..]];
        FatOfFrame(g, img, disk);
        durable := durable + [FatOf(g, disk)];
        media := [disk];
        if Sub32(winsect, g.fatbase) < g.fsize {
          ghost var copies := ReflectCopies(img);
          media := media + copies;
        }
        assert disk == img;
        wflag := false;
      }
    }

    /** The mirror loop of sync_window. */
    method ReflectCopies(ghost img: Image) returns (ghost media: seq<Image>)
      requires OnDrive(g, disk) && win.Length == 512 && winsect < |disk| && InFat(g, winsect)
      requires OnDrive(g, img) && img == WithSector(g, disk, winsect, win[..]) && disk[winsect] == win[..]
      requires FatOf(g, disk) == FatOf(g, img) && FatOf(g, img) in trace
      requires forall i :: 0 <= i < |durable| ==> durable[i] in trace
      modifies `disk, `durable
      ensures disk == img
      ensures forall i :: 0 <= i < |durable| ==> durable[i] in trace
      ensures old(durable) <= durable
      ensures |media| == g.nFats - 1 && forall i :: 0 <= i < |media| ==> media[i] == img
    {
      hide FatOf;
      var wsect, nf := winsect, g.nFats;
      media := [];
      while nf >= 2
        invariant 1 <= nf <= g.nFats
        invariant nf == g.nFats ==> wsect == winsect && disk == old(disk)
        invariant nf < g.nFats ==> disk == img
        invariant |media| == g.nFats - nf && forall i :: 0 <= i < |media| ==> media[i] == img
        invariant forall i :: 0 <= i < |durable| ==> durable[i] in trace
        invariant old(durable) <= durable
      {
        wsect := wsect + g.fsize;
        disk := disk[wsect := win[..]];
        assert disk == img;
        durable := durable + [FatOf(g, disk)];
        media := media + [disk];
        nf := nf - 1;
      }
      assert g.nFats == 1 ==> disk == img;
    }

    /** move_window: write back if needed, then load the requested sector. */
    method MoveWindow(sector: nat)
      requires Valid() && sector < |disk|
      modifies `disk, `wflag, `winsect, `durable, win
      ensures Valid() && winsect == sector && Image() == old(Image())
      ensures old(durable) <= durable
      ensures sector == old(winsect) ==> disk == old(disk)
    {
      hide FatOf;
      if sector != winsect {
        ghost var media := SyncWindow();
        forall i | 0 <= i < 512 {
          win[i] := disk[sector][i];
        }
        winsect := sector;
        assert win[..] == disk[sector];
      }
    }

    /** The bytes at offset o of the window replaced, and the window marked dirty. */
    method StoreWindow(o: nat, bytes: seq<Byte>)
      requires Valid() && o + |bytes| <= 512
      modifies `wflag, `trace, win
      ensures Valid() && wflag
      ensures Image() == WithSector(g, old(Image()), winsect, Spliced(old(Image())[winsect], o, bytes))
      ensures forall i :: 0 <= i < 512 ==> win[i] == if o <= i < o + |bytes| then bytes[i - o] else old(win[i])
      ensures trace == old(trace) + [Fat()]
    {
      hide FatOf;
      WindowContent();
      ghost var img, was := Image(), win[..];
      forall i | 0 <= i < |bytes| {
        win[o + i] := bytes[i];
      }
      assert win[..] == Spliced(was, o, bytes);
      wflag := true;
      assert Image() == WithSector(g, img, winsect, win[..]);
      trace := trace + [Fat()];
    }

    /** clust2sect: 0 for an invalid cluster number. */
    function Clust2Sect(clst: nat): (sect: nat)
      requires Sound(g) && clst < WORD32
      ensures sect == if 2 <= clst < g.nFatEnt then ClusterBase(g, clst) else 0
      ensures sect != 0 <==> 2 <= clst < g.nFatEnt
    {
      if Sub32(clst, 2) >= g.nFatEnt - 2 then 0
      else
        ClusterInside(g, clst);
        Sub32(clst, 2) * g.csize + g.database
    }

    /** get_fat: 1 for a cluster number out of range. */
    method GetFat(clst: nat) returns (r: nat)
      requires Valid()
      modifies `disk, `wflag, `winsect, `durable, win
      ensures Valid() && Image() == old(Image()) && old(durable) <= durable
      ensures r == if IsCluster(Fat(), clst) then Fat()[clst] else 1
      ensures IsCluster(Fat(), clst) ==> InFat(g, winsect)
      ensures !IsCluster(Fat(), clst) ==> unchanged(this) && unchanged(win)
    {
      if clst < 2 || clst >= g.nFatEnt {
        return 1;
      }
      FatAt(g, Image(), clst);
      match g.fsType
      case Fat12 => r := GetFat12(clst);
      case Fat16 => r := GetFat16(clst);
      case Fat32 => r := GetFat32(clst);
    }

    method GetFat16(clst: nat) returns (r: nat)
      requires Valid() && g.fsType.Fat16? && 2 <= clst < g.nFatEnt
      modifies `disk, `wflag, `winsect, `durable, win
      ensures Valid() && Image() == old(Image()) && old(durable) <= durable
      ensures r == Entry(g, Image(), clst) && InFat(g, winsect)
    {
      hide FatOf;
      EntryWords(g, Image(), clst);
      SectorWord(g, Image(), clst);
      assert clst / 256 == 2 * clst / 512;
      MoveWindow(g.fatbase + clst / 256);
      WindowContent();
      r := LdWord(win[..], clst * 2 % 512);
    }

    method GetFat32(clst: nat) returns (r: nat)
      requires Valid() && g.fsType.Fat32? && 2 <= clst < g.nFatEnt
      modifies `disk, `wflag, `winsect, `durable, win
      ensures Valid() && Image() == old(Image()) && old(durable) <= durable
      ensures r == Entry(g, Image(), clst) && InFat(g, winsect)
    {
      hide FatOf, And, LdDword, Dword, FatByte, MirrorsAgree;
      EntryInside(g, clst);
      SectorDword(g, Image(), clst);
      assert clst / 128 == 4 * clst / 512;
      MoveWindow(g.fatbase + clst / 128);
      WindowContent();
      var w := LdDword(win[..], clst * 4 % 512);
      Low28(w);
      r := And(w, 0x0FFF_FFFF);
    }

    /** Byte i of the FAT, brought into the window. */
    method LoadFatByte(i: nat) returns (b: Byte)
      requires Valid() && i < 512 * g.fsize
      modifies `disk, `wflag, `winsect, `durable, win
      ensures Valid() && Image() == old(Image()) && old(durable) <= durable
      ensures b == FatByte(g, Image(), i) && winsect == g.fatbase + i / 512 && InFat(g, winsect)
    {
      hide FatOf;
      FatInside(g, i);
      MoveWindow(g.fatbase + i / 512);
      WindowContent();
      b := win[i % 512];
    }

    /** The FAT12 branch of get_fat, whose two bytes may lie in two sectors. */
    method GetFat12(clst: nat) returns (r: nat)
      requires Valid() && g.fsType.Fat12? && 2 <= clst < g.nFatEnt
      modifies `disk, `wflag, `winsect, `durable, win
      ensures Valid() && Image() == old(Image()) && old(durable) <= durable
      ensures r == Entry(g, Image(), clst) && InFat(g, winsect)
    {
      hide FatOf, Entry, And, Or;
      EntryWords(g, Image(), clst);
      var bc := clst + clst / 2;
      var lo := LoadFatByte(bc);
      bc := bc + 1;
      var hi := LoadFatByte(bc);
      var wc := Or(lo, hi as int * 256);
      OrTwo(lo, hi);
      Nibbles12(clst, wc);
      r := if And(clst, 1) != 0 then wc / 16 else And(wc, 0xFFF);
    }

    /**
    put_fat: replaces one entry of the table, cut to the width of an entry. On
    FAT16 and FAT32 that is a single store; a FAT12 entry takes two.
    */
    method PutFat(clst: nat, val: nat) returns (res: FResult)
      requires Valid()
      modifies `disk, `wflag, `winsect, `durable, `trace, win
      ensures Valid() && old(durable) <= durable && old(trace) <= trace
      ensures !IsCluster(old(Fat()), clst) ==> res == IntErr && Image() == old(Image()) && trace == old(trace)
      ensures IsCluster(old(Fat()), clst) ==>
        && res == OK && wflag && InFat(g, winsect)
        && Image() == PutEntry(g, old(Image()), clst, val)
        && Fat() == old(Fat())[clst := val % Modulus(g.fsType)]
        && (!g.fsType.Fat12? ==> trace == old(trace) + [Fat()])
      ensures FatOnly(g, old(Image()), Image())
    {
      hide FatOf;
      if clst < 2 || clst >= g.nFatEnt {
        return IntErr;
      }
      PutEntryLaw(g, Image(), clst, val);
      res := OK;
      match g.fsType
      case Fat12 => PutFat12(clst, val);
      case Fat16 => PutFat16(clst, val);
      case Fat32 => PutFat32(clst, val);
    }

    method PutFat12(clst: nat, val: nat)
      requires Valid() && g.fsType.Fat12? && 2 <= clst < g.nFatEnt
      modifies `disk, `wflag, `winsect, `durable, `trace, win
      ensures Valid() && old(durable) <= durable && old(trace) <= trace
      ensures wflag && InFat(g, winsect) && Image() == PutEntry12(g, old(Image()), clst, val)
    {
      hide FatOf;
      PutFirst12(clst, val);
      PutSecond12(clst, val);
    }

    method PutSecond12(clst: nat, val: nat)
      requires Valid() && g.fsType.Fat12? && 2 <= clst < g.nFatEnt
      modifies `disk, `wflag, `winsect, `durable, `trace, win
      ensures Valid() && old(durable) <= durable && old(trace) <= trace
      ensures wflag && InFat(g, winsect) && Image() == PutSecondHalf(g, old(Image()), clst, val)
    {
      hide FatOf;
      EntryInside(g, clst);
      var bc := clst + clst / 2 + 1;
      var b := LoadFatByte(bc);
      StoreFatByte(bc, High12(clst, val, b));
    }

    method PutFirst12(clst: nat, val: nat)
      requires Valid() && g.fsType.Fat12? && 2 <= clst < g.nFatEnt
      modifies `disk, `wflag, `winsect, `durable, `trace, win
      ensures Valid() && old(durable) <= durable && old(trace) <= trace
      ensures Image() == PutFirstHalf(g, old(Image()), clst, val)
    {
      hide FatOf;
      EntryInside(g, clst);
      var bc := clst + clst / 2;
      var b := LoadFatByte(bc);
      StoreFatByte(bc, Low12(clst, val, b));
    }

    /** FAT byte i, which the window shows, replaced. */
    method StoreFatByte(i: nat, b: Byte)
      requires Valid() && i < 512 * g.fsize && winsect == g.fatbase + i / 512
      modifies `wflag, `trace, win
      ensures Valid() && wflag && Image() == WithFatByte(g, old(Image()), i, b)
      ensures trace == old(trace) + [Fat()]
    {
      hide FatOf;
      FatInside(g, i);
      ghost var sec := Image()[winsect];
      assert Spliced(sec, i % 512, [b]) == sec[i % 512 := b];
      StoreWindow(i % 512, [b]);
    }

    method PutFat16(clst: nat, val: nat)
      requires Valid() && g.fsType.Fat16? && 2 <= clst < g.nFatEnt
      modifies `disk, `wflag, `winsect, `durable, `trace, win
      ensures Valid() && old(durable) <= durable && trace == old(trace) + [Fat()]
      ensures wflag && InFat(g, winsect) && Image() == PutEntry16(g, old(Image()), clst, val)
    {
      hide FatOf, MirrorsAgree, FatByte, Entry, And, Or, StWord, LdWord, Word;
      WideSlot(g, clst);
      assert clst / 256 == 2 * clst / 512;
      MoveWindow(g.fatbase + clst / 256);
      ghost var sec := Image()[winsect];
      var p := clst * 2 % 512;
      SplicedWord(sec, p, val);
      StoreWindow(p, [ByteOf(val, 0), ByteOf(val, 1)]);
    }

    method PutFat32(clst: nat, val: nat)
      requires Valid() && g.fsType.Fat32? && 2 <= clst < g.nFatEnt
      modifies `disk, `wflag, `winsect, `durable, `trace, win
      ensures Valid() && old(durable) <= durable && trace == old(trace) + [Fat()]
      ensures wflag && InFat(g, winsect) && Image() == PutEntry32(g, old(Image()), clst, val)
    {
      hide FatOf, And, Or, LdDword, StDword, Dword, Merge32, FatByte, MirrorsAgree;
      WideSlot(g, clst);
      SectorDword(g, Image(), clst);
      assert clst / 128 == 4 * clst / 512;
      MoveWindow(g.fatbase + clst / 128);
      WindowContent();
      ghost var sec := Image()[winsect];
      var p := clst * 4 % 512;
      var w := Merge32(val, LdDword(win[..], p));
      SplicedDword(sec, p, w);
      StoreWindow(p, [ByteOf(w, 0), ByteOf(w, 1), ByteOf(w, 2), ByteOf(w, 3)]);
    }


    /** disk_read of whole sectors, none of which the window holds. */
    method ReadSectors(s: nat, n: nat) returns (d: seq<Byte>)
      requires Valid() && s + n <= |disk| && !(s <= winsect < s + n)
      requires g.database <= s
      ensures d == Raw(Image(), s, n)
    {
      hide FatOf;
      d := Raw(disk, s, n);
      RawFrame(disk, Image(), s, n);
    }

    /** disk_write of whole sectors of the data area, none of which the window holds. */
    method WriteSectors(s: nat, d: seq<Byte>)
      requires Valid() && |d| % 512 == 0 && s + |d| / 512 <= |disk| && !(s <= winsect < s + |d| / 512)
      requires g.database <= s
      modifies `disk
      ensures Valid() && Image() == Blit(old(Image()), s, d) && Fat() == old(Fat())
    {
      hide FatOf;
      ghost var img, was := Image(), disk;
      disk := Blit(disk, s, d);
      BlitFat(g, was, s, d);
      BlitFat(g, img, s, d);
      if wflag {
        BlitWindow(g, was, winsect, win[..], s, d);
      }
    }
  }

  lemma {:induction false} RawFrame(a: Image, b: Image, s: nat, n: nat)
    requires s + n <= |a| == |b| && forall i :: s <= i < s + n ==> a[i] == b[i]
    ensures Raw(a, s, n) == Raw(b, s, n)
  {
    if n > 0 {
      RawFrame(a, b, s, n - 1);
    }
  }

  lemma BlitFat(g: Geometry, img: Image, s: nat, d: seq<Byte>)
    requires OnDrive(g, img) && g.database <= s && |d| % 512 == 0 && s + |d| / 512 <= |img|
    ensures FatOf(g, Blit(img, s, d)) == FatOf(g, img)
    ensures MirrorsAgree(g, img) ==> MirrorsAgree(g, Blit(img, s, d))
  {
    hide FatOf;
    var r := Blit(img, s, d);
    forall i: nat | i < s
      ensures r[i] == img[i]
    {
      BlitAt(img, s, d, i);
    }
    FatOfFrame(g, img, r);
    if MirrorsAgree(g, img) && g.nFats == 2 {
      forall t | InFat(g, t)
        ensures Mirrored(g, r, t)
      {
        assert Mirrored(g, img, t);
      }
    }
  }

  lemma BlitWindow(g: Geometry, img: Image, w: nat, sec: Sector, s: nat, d: seq<Byte>)
    requires OnDrive(g, img) && g.database <= s && |d| % 512 == 0 && s + |d| / 512 <= |img|
    requires w < |img| && !(s <= w < s + |d| / 512)
    ensures Blit(WithSector(g, img, w, sec), s, d) == WithSector(g, Blit(img, s, d), w, sec)
  {
    var a, b := Blit(WithSector(g, img, w, sec), s, d), WithSector(g, Blit(img, s, d), w, sec);
    forall i: nat | i < |img|
      ensures a[i] == b[i]
    {
      BlitAt(WithSector(g, img, w, sec), s, d, i);
      BlitAt(img, s, d, i);
    }
  }
}
