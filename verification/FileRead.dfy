/**
f_read of fatfs/src/ff.c: returns exactly the bytes of the file at the position and
changes none.
*/
module FileRead {
  import opened Bits
  import opened Layout
  import opened FatMap
  import opened Volume
  import opened Allocator
  import opened FileView
  import opened FileObject
  import opened FileWrite

  /** At a cluster boundary below the size: the cluster of the next byte, found through the FAT. */
  method FollowCluster(fp: Fil)
    requires fp.Valid() && fp.fptr < fp.fsize && fp.fptr % 512 == 0 && fp.fptr / 512 % fp.fs.g.csize == 0
    modifies fp`clust, fp.fs`disk, fp.fs`wflag, fp.fs`winsect, fp.fs`durable, fp.fs.win
    ensures fp.Base() && fp.StartOk() && Good(fp.View()) && Positioned(fp)
    ensures fp.View() == old(fp.View()) && Forward(fp.fs.g, old(fp.Around()), fp.Around())
  {
    hide FatOf, HealthOf, Owns, ByteAt, Bytes, InFat, OnDrive, Sound, Mapped, FatFits, Good, Lba, IsPow2;
    HoldsBelow(fp.View(), fp.fptr, fp.fsize);
    ghost var a := fp.Around();
    ForwardRefl(fp.fs.g, a);
    var clst := fp.sclust;
    if fp.fptr == 0 {
      ZeroIndex(fp.fs.g.csize);
    } else {
      BoundaryIndex(fp.fptr, fp.fs.g.csize);
      FatIsClearOnce(fp);
      clst := ReadEntry(fp.fs, fp.clust);
      ForwardWindow(fp.fs.g, a, fp.fs.winsect);
    }
    fp.clust := clst;
  }

  lemma ZeroIndex(c: nat)
    requires c > 0
    ensures 0 / c == 0
  {
  }

  lemma FatIsClearOnce(fp: Fil)
    requires fp.Base()
    ensures forall s :: InFat(fp.fs.g, s) && s >= 0 ==> !Owns(fp.fs.g, fp.chain, s) && s < fp.fs.g.database
  {
    hide Owns, InFat, Mapped;
    forall s: int | InFat(fp.fs.g, s) && s >= 0
      ensures !Owns(fp.fs.g, fp.chain, s) && s < fp.fs.g.database
    {
      FatIsClear(fp.fs.g, fp.chain, s);
    }
  }

  /** The cluster and the sector of the next byte are known. */
  ghost predicate ReadReady(fp: Fil, sect: nat, csect: nat)
    reads fp, fp.buf, fp.fs, fp.fs.win
  {
    && fp.Base() && fp.StartOk() && Good(fp.View()) && Holds(fp.View(), fp.fsize) && Positioned(fp)
    && fp.fptr < fp.fsize && fp.fptr % 512 == 0
    && sect == Lba(fp.fs.g, fp.chain, fp.fptr / 512) && csect == fp.fptr / 512 % fp.fs.g.csize
  }

  method FindSector(fp: Fil) returns (sect: nat, csect: nat)
    requires fp.Valid() && fp.fptr < fp.fsize && fp.fptr % 512 == 0
    modifies fp`clust, fp.fs`disk, fp.fs`wflag, fp.fs`winsect, fp.fs`durable, fp.fs.win
    ensures ReadReady(fp, sect, csect)
    ensures fp.View() == old(fp.View()) && Forward(fp.fs.g, old(fp.Around()), fp.Around())
  {
    hide FatOf, HealthOf, Owns, ByteAt, Bytes, InFat, OnDrive, FatFits, Good, IsPow2, IsChain, Lba;
    csect := SectorInCluster(fp);
    ForwardRefl(fp.fs.g, fp.Around());
    if csect == 0 {
      FollowCluster(fp);
    } else {
      InsideIndex(fp.fptr, fp.fs.g.csize);
      HoldsBelow(fp.View(), fp.fptr, fp.fsize);
    }
    sect := SectorOf(fp, csect);
  }

  method SectorOf(fp: Fil, csect: nat) returns (sect: nat)
    requires fp.Base() && Positioned(fp) && csect == fp.fptr / 512 % fp.fs.g.csize
    ensures sect == Lba(fp.fs.g, fp.chain, fp.fptr / 512)
  {
    hide FatOf, Owns, InFat, OnDrive, IsPow2, IsChain;
    sect := fp.fs.Clust2Sect(fp.clust);
    sect := sect + csect;
  }

  /** Direct read of whole sectors, the dirty one among them replaced from the buffer. */
  method FetchDirect(fp: Fil, sect: nat, csect: nat, cc: nat) returns (d: seq<Byte>)
    requires ReadReady(fp, sect, csect) && cc > 0 && csect + cc <= fp.fs.g.csize && fp.fptr + 512 * cc <= fp.fsize
    ensures d == Bytes(fp.View(), fp.fsize)[fp.fptr..fp.fptr + 512 * cc]
    ensures Settled(fp, fp.fptr + 512 * cc, Bytes(fp.View(), fp.fsize))
  {
    hide FatOf, IsChain, HealthOf, ByteAt, Bytes, InFat, OnDrive, IsPow2, FatFits, Owns, Lba, Mapped, SectorAt,
      Holds, Good;
    ghost var v, p := fp.View(), fp.fptr;
    RunOwned(v.g, v.chain, p / 512, cc);
    FetchedBytes(v, fp.fsize, p, cc);
    LastIndex(p, 512 * cc);
    d := FetchRun(fp, sect, cc);
  }

  method FetchRun(fp: Fil, sect: nat, cc: nat) returns (d: seq<Byte>)
    requires fp.Base() && fp.fs.g.database <= sect && sect + cc <= fp.fs.g.sectors
    requires !(sect <= fp.fs.winsect < sect + cc)
    ensures d == Fetched(fp.View(), sect, cc)
  {
    hide FatOf, IsChain, InFat, IsPow2, Owns, Mapped, Raw, MirrorsAgree;
    d := fp.fs.ReadSectors(sect, cc);
    if fp.dirty && Sub32(fp.dsect, sect) < cc {
      d := Spliced(d, 512 * (fp.dsect - sect), fp.buf[..]);
    }
  }

  /** A sector of the file brought into the buffer, a dirty one being written back first. */
  method SwitchBuffer(fp: Fil, sect: nat)
    requires fp.Base() && fp.StartOk() && Good(fp.View()) && Holds(fp.View(), fp.fsize)
    requires fp.fs.g.database <= sect < fp.fs.g.sectors && Owns(fp.fs.g, fp.chain, sect)
    modifies fp`dirty, fp`dsect, fp.buf, fp.fs`disk
    ensures fp.Base() && fp.StartOk() && Good(fp.View()) && Holds(fp.View(), fp.fsize) && fp.dsect == sect
    ensures fp.View() == Switched(old(fp.View()), sect)
    ensures fp.fs.Fat() == old(fp.fs.Fat())
    ensures Bytes(fp.View(), fp.fsize) == old(Bytes(fp.View(), fp.fsize))
    ensures Forward(fp.fs.g, old(fp.Around()), fp.Around())
  {
    hide FatOf, IsChain, HealthOf, ByteAt, Bytes, InFat, OnDrive, IsPow2, FatFits, Lba, Mapped, Owns, SectorAt,
      Sound, Forward;
    ghost var a := fp.Around();
    ForwardRefl(fp.fs.g, a);
    if fp.dsect != sect {
      ghost var v := fp.View();
      Flush(fp);
      if v.dirty {
        FlushKeeps(v, fp.fsize);
      }
      ghost var w, b := fp.View(), fp.Around();
      LoadKeeps(w, sect, fp.fsize);
      LoadSector(fp, sect);
      fp.dsect := sect;
      ForwardBuffer(fp.fs.g, b, sect);
      ForwardTrans(fp.fs.g, a, b, fp.Around());
      assert fp.View() == Loaded(w, sect);
    }
  }

  /** The bytes taken from the buffer. */
  method TakePart(fp: Fil, btr: nat) returns (d: seq<Byte>)
    requires fp.Base() && fp.StartOk() && Good(fp.View()) && Holds(fp.View(), fp.fsize) && Positioned(fp)
    requires fp.dsect == Lba(fp.fs.g, fp.chain, fp.fptr / 512) && 0 < btr && fp.fptr + btr <= fp.fsize
    ensures 0 < |d| <= btr && d == Bytes(fp.View(), fp.fsize)[fp.fptr..fp.fptr + |d|]
    ensures Settled(fp, fp.fptr + |d|, Bytes(fp.View(), fp.fsize))
  {
    hide FatOf, IsChain, HealthOf, ByteAt, Bytes, InFat, OnDrive, IsPow2, FatFits, Lba, Mapped, Owns, SectorAt,
      Sound, Holds, Good;
    var o := fp.fptr % 512;
    var rcnt := 512 - o;
    if rcnt > btr {
      rcnt := btr;
    }
    BufferedBytes(fp.View(), fp.fsize, fp.fptr, rcnt);
    PartIndex(fp.fptr, rcnt);
    d := fp.buf[o..o + rcnt];
  }

  /** The direct part of a turn: as many whole sectors as the cluster still has. */
  method DirectTurn(fp: Fil, sect: nat, csect: nat, btr: nat) returns (d: seq<Byte>)
    requires ReadReady(fp, sect, csect) && btr / 512 > 0 && fp.fptr + btr <= fp.fsize
    modifies fp`fptr
    ensures 0 < |d| <= btr && fp.Valid() && fp.fptr == old(fp.fptr) + |d|
    ensures fp.Contents() == old(Bytes(fp.View(), fp.fsize))
    ensures d == old(Bytes(fp.View(), fp.fsize))[old(fp.fptr)..old(fp.fptr) + |d|]
    ensures fp.Around() == old(fp.Around())
  {
    hide FatOf, IsChain, HealthOf, ByteAt, Bytes, InFat, OnDrive, IsPow2, FatFits, Lba, Mapped, Owns, SectorAt,
      Holds, Good;
    var cc := btr / 512;
    ModRange(fp.fptr / 512, fp.fs.g.csize);
    if csect + cc > fp.fs.g.csize {
      cc := fp.fs.g.csize - csect;
    }
    d := FetchDirect(fp, sect, csect, cc);
    Advance(fp, 512 * cc, Bytes(fp.View(), fp.fsize));
  }

  /** One turn of f_read's loop. */
  method ReadTurn(fp: Fil, btr: nat) returns (d: seq<Byte>)
    requires fp.Valid() && 0 < btr && fp.fptr + btr <= fp.fsize
    modifies fp`clust, fp`dirty, fp`dsect, fp`fptr, fp.buf, fp.fs`disk, fp.fs`wflag, fp.fs`winsect, fp.fs`durable, fp.fs.win
    ensures 0 < |d| <= btr && fp.Valid() && fp.fptr == old(fp.fptr) + |d|
    ensures fp.Contents() == old(fp.Contents()) && d == old(fp.Contents())[old(fp.fptr)..old(fp.fptr) + |d|]
    ensures Forward(fp.fs.g, old(fp.Around()), fp.Around())
  {
    hide FatOf, IsChain, HealthOf, ByteAt, Bytes, InFat, OnDrive, IsPow2, FatFits, Lba, Mapped, Owns, SectorAt,
      Sound, Forward, Holds, Good;
    ghost var a := fp.Around();
    ForwardRefl(fp.fs.g, a);
    if fp.fptr % 512 == 0 {
      var sect, csect := FindSector(fp);
      if btr / 512 > 0 {
        d := DirectTurn(fp, sect, csect, btr);
        return;
      }
      OwnedSector(fp.fs.g, fp.chain, fp.fptr / 512);
      ghost var b := fp.Around();
      SwitchBuffer(fp, sect);
      ForwardTrans(fp.fs.g, a, b, fp.Around());
    } else {
      InnerIndex(fp.fptr);
    }
    d := TakePart(fp, btr);
    Advance(fp, |d|, Bytes(fp.View(), fp.fsize));
  }

  /** The copy loop: n bytes from the current position on. */
  method ReadLoop(fp: Fil, n: nat) returns (data: seq<Byte>)
    requires fp.Valid() && fp.canRead && fp.err == OK && fp.fptr + n <= fp.fsize
    modifies fp`clust, fp`dirty, fp`dsect, fp`fptr, fp.buf, fp.fs`disk, fp.fs`wflag, fp.fs`winsect, fp.fs`durable, fp.fs.win
    ensures fp.Valid() && fp.fptr == old(fp.fptr) + n && |data| == n
    ensures fp.Contents() == old(fp.Contents())
    ensures data == old(fp.Contents())[old(fp.fptr)..old(fp.fptr) + n]
    ensures Forward(fp.fs.g, old(fp.Around()), fp.Around())
  {
    hide FatOf, IsChain, HealthOf, ByteAt, Bytes, InFat, OnDrive, IsPow2, FatFits, Lba, Mapped, Owns, SectorAt,
      Sound, Forward, Holds, Good;
    data := [];
    ghost var c, p := fp.Contents(), fp.fptr;
    ForwardRefl(fp.fs.g, fp.Around());
    while |data| < n
      invariant fp.Valid() && |data| <= n && fp.fptr == p + |data| && p + n <= fp.fsize
      invariant fp.Contents() == c && data == c[p..p + |data|]
      invariant Forward(fp.fs.g, old(fp.Around()), fp.Around())
    {
      ghost var a := fp.Around();
      var d := ReadTurn(fp, n - |data|);
      ForwardTrans(fp.fs.g, old(fp.Around()), a, fp.Around());
      data := data + d;
    }
  }

  /**
  f_read: the next bytes of the file, as many as asked for or as the file still has.
  The content does not change, nor does anything else on the volume.
  */
  method Read(fp: Fil, size: nat) returns (res: FResult, data: seq<Byte>)
    requires fp.err == OK ==> fp.Valid()
    modifies fp`clust, fp`dirty, fp`dsect, fp`fptr, fp.buf, fp.fs`disk, fp.fs`wflag, fp.fs`winsect, fp.fs`durable, fp.fs.win
    ensures old(fp.err) != OK ==> res == old(fp.err) && data == [] && unchanged(fp, fp.buf, fp.fs, fp.fs.win)
    ensures old(fp.err) == OK && !fp.canRead ==> res == Denied && data == [] && unchanged(fp, fp.buf, fp.fs, fp.fs.win)
    ensures old(fp.err) == OK && fp.canRead ==>
      && res == OK && fp.Valid() && fp.fptr == old(fp.fptr) + |data|
      && fp.Contents() == old(fp.Contents())
      && |data| == (if size <= fp.fsize - old(fp.fptr) then size else fp.fsize - old(fp.fptr))
      && data == old(fp.Contents())[old(fp.fptr)..old(fp.fptr) + |data|]
      && Forward(fp.fs.g, old(fp.Around()), fp.Around())
  {
    hide FatOf, IsChain, HealthOf, ByteAt, Bytes, InFat, OnDrive, IsPow2, FatFits, Lba, Mapped, Owns, SectorAt,
      Sound, Forward, Holds, Good;
    data := [];
    if fp.err != OK {
      return fp.err, [];
    }
    if !fp.canRead {
      return Denied, [];
    }
    var btr := size;
    var remain := fp.fsize - fp.fptr;
    if btr > remain {
      btr := remain;
    }
    ForwardRefl(fp.fs.g, fp.Around());
    data := ReadLoop(fp, btr);
    res := OK;
  }
}
