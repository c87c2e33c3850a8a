/**
f_write of fatfs/src/ff.c: the loop over clusters, whole sectors and the sector
buffer replaces exactly the bytes from the position on.
*/
module FileWrite {
  import opened Bits
  import opened Layout
  import opened FatMap
  import opened FatRuns
  import opened Volume
  import opened Allocator
  import opened FileView
  import opened FileObject

  /** The cluster at the cursor holds byte fptr. */
  ghost predicate Positioned(fp: Fil)
    requires fp.Base()
    reads fp, fp.buf, fp.fs, fp.fs.win
  {
    Reaches(fp.fs.g, fp.chain, fp.fptr / 512) && fp.clust == fp.chain[fp.fptr / 512 / fp.fs.g.csize]
  }

  /** At a cluster boundary the next cluster index is one more than that of the byte before. */
  lemma BoundaryIndex(p: nat, c: nat)
    requires p > 0 && p % 512 == 0 && c > 0 && p / 512 % c == 0
    ensures (p - 1) / 512 == p / 512 - 1 && p / 512 / c == (p - 1) / 512 / c + 1
  {
    var j := p / 512;
    var q := j / c;
    assert j == q * c;
    MulBound(-q, c);
    assert j - 1 == (q - 1) * c + (c - 1);
    DivModUnique(j - 1, c, q - 1, c - 1);
  }

  lemma TopIndex(g: Geometry)
    requires Sound(g)
    ensures g.csize > 0 && 0 / g.csize == 0
  {
  }

  /** Inside a cluster, byte p lies in the same cluster as the byte before. */
  lemma InsideIndex(p: nat, c: nat)
    requires p % 512 == 0 && c > 0 && p / 512 % c != 0
    ensures p > 0 && (p - 1) / 512 == p / 512 - 1 && p / 512 / c == (p - 1) / 512 / c
  {
    var j := p / 512;
    var q, r := j / c, j % c;
    ZeroMod(0, c);
    assert j - 1 == q * c + (r - 1);
    DivModUnique(j - 1, c, q, r - 1);
  }

  /** The volume is full and the position is the end of the last cluster. */
  ghost predicate Clipped(fp: Fil)
    requires fp.fs.Valid() && fp.fs.g.csize > 0
    reads fp, fp.fs, fp.fs.win
  {
    NoneFree(fp.fs.Fat()) && AtEnd(fp.fs.g, fp.chain, fp.fptr)
  }

  /** Position p is the end of the last cluster. */
  predicate AtEnd(g: Geometry, chain: seq<nat>, p: nat) {
    p % 512 == 0 && !Reaches(g, chain, p / 512)
  }

  /** The chain of n clusters has grown by what the position needs and no more. */
  predicate Tight(g: Geometry, n: nat, chain: seq<nat>, p: nat) {
    g.csize > 0 && |chain| == Max(n, ClustersFor(g, p))
  }

  /** The chain of n clusters has grown by what byte p needs and no more. */
  predicate Reached(g: Geometry, n: nat, chain: seq<nat>, p: nat) {
    g.csize > 0 && |chain| == Max(n, ClustersFor(g, p + 1))
  }

  lemma TightTrans(g: Geometry, n: nat, xs: seq<nat>, p: nat, ys: seq<nat>, q: nat)
    requires Tight(g, n, xs, p) && Tight(g, |xs|, ys, q) && p <= q
    ensures Tight(g, n, ys, q)
  {
    ClustersForMore(g, p, q);
  }

  /** For byte 0 one cluster is enough; without one the position 0 is the end. */
  lemma ReachedTop(g: Geometry, n: nat)
    requires g.csize > 0
    ensures forall chain: seq<nat> :: Reached(g, n, chain, 0) <==> |chain| == Max(n, 1)
    ensures AtEnd(g, [], 0)
  {
  }

  /** At the start the chain has all the clusters its position needs. */
  lemma TightStart(fp: Fil)
    requires fp.Live()
    ensures Tight(fp.fs.g, |fp.chain|, fp.chain, fp.fptr)
  {
    hide FatOf, IsChain, Owns, Bytes, InFat, OnDrive, Good;
    TopIndex(fp.fs.g);
  }

  /** Bytes up to the position lie in the cluster that was provided for byte p. */
  lemma TightAfter(fp: Fil, n: nat, p: nat)
    requires fp.Live() && p < fp.fptr && Reached(fp.fs.g, n, fp.chain, p)
    requires Reaches(fp.fs.g, fp.chain, p / 512) && fp.clust == fp.chain[p / 512 / fp.fs.g.csize]
    ensures Tight(fp.fs.g, n, fp.chain, fp.fptr)
  {
    hide FatOf, IsChain, Owns, Bytes, InFat, OnDrive, Good, Sound, Holds;
    assert fp.chain[p / 512 / fp.fs.g.csize] == fp.chain[(fp.fptr - 1) / 512 / fp.fs.g.csize];
  }

  /** Byte count that has a meaning during a write. */
  ghost function Extent(fp: Fil): nat
    reads fp
  {
    Max(fp.fsize, fp.fptr)
  }

  ghost function Meaning(fp: Fil): seq<Byte>
    requires fp.Live()
    reads fp, fp.buf, fp.fs, fp.fs.win
  {
    Bytes(fp.View(), Extent(fp))
  }

  /** The cluster part of a turn, at a cluster boundary: 0 disk full, 1 error mark, else the cluster. */
  method NextCluster(fp: Fil) returns (clst: nat)
    requires fp.Live() && fp.fptr % 512 == 0 && fp.fptr / 512 % fp.fs.g.csize == 0
    modifies fp`chain, fp`clust, fp`sclust, fp.fs, fp.fs.win
    ensures Advanced(fp, clst, old(fp.fs.Fat())) && Bytes(fp.View(), Extent(fp)) == old(Meaning(fp))
    ensures if clst >= 2 then Reached(fp.fs.g, |old(fp.chain)|, fp.chain, fp.fptr) else fp.chain == old(fp.chain)
    ensures Forward(fp.fs.g, old(fp.Around()), fp.Around())
  {
    hide *;
    if fp.fptr == 0 {
      clst := FirstCluster(fp);
    } else {
      clst := FollowingCluster(fp);
    }
  }

  /** Outcome of the cluster part, given the table before it. */
  ghost predicate Advanced(fp: Fil, clst: nat, fat: Table)
    reads fp, fp.buf, fp.fs, fp.fs.win
  {
    && fp.Base() && fp.StartOk() && Good(fp.View()) && Holds(fp.View(), Extent(fp))
    && (clst >= 2 ==> Positioned(fp))
    && (clst == 1 ==> !NoErrorMark(fat))
    && (clst == 0 ==> NoneFree(fat) && AtEnd(fp.fs.g, fp.chain, fp.fptr))
    && (clst < 2 ==> fp.Live() && fp.fs.Fat() == fat)
  }

  /** Top of the file: its start cluster, allocated if there is none. */
  method FirstCluster(fp: Fil) returns (clst: nat)
    requires fp.Live() && fp.fptr == 0
    modifies fp`chain, fp`clust, fp`sclust, fp.fs, fp.fs.win
    ensures Advanced(fp, clst, old(fp.fs.Fat())) && Bytes(fp.View(), Extent(fp)) == old(Meaning(fp))
    ensures if clst >= 2 then Reached(fp.fs.g, |old(fp.chain)|, fp.chain, fp.fptr) else fp.chain == old(fp.chain)
    ensures Forward(fp.fs.g, old(fp.Around()), fp.Around())
  {
    hide FatOf, Sound, IsChain, HealthOf, Forward, Owns, ByteAt, Bytes, InFat, OnDrive, IsPow2, FatFits, SectorAt,
      NoErrorMark, NoneFree, Reached, AtEnd;
    ForwardRefl(fp.fs.g, fp.Around());
    TopIndex(fp.fs.g);
    ReachedTop(fp.fs.g, |fp.chain|);
    clst := fp.sclust;
    if clst == 0 {
      ghost var v := fp.View();
      clst := FollowOrStretch(fp, 0, -1);
      GrowKeeps(v, fp.View(), Extent(fp));
    }
    if clst >= 2 {
      UseCluster(fp, clst);
    }
  }

  /** Middle or end of the file: the cluster after the current one, stretching if it is the last. */
  method FollowingCluster(fp: Fil) returns (clst: nat)
    requires fp.Live() && fp.fptr > 0 && fp.fptr % 512 == 0 && fp.fptr / 512 % fp.fs.g.csize == 0
    modifies fp`chain, fp`clust, fp`sclust, fp.fs, fp.fs.win
    ensures Advanced(fp, clst, old(fp.fs.Fat())) && Bytes(fp.View(), Extent(fp)) == old(Meaning(fp))
    ensures if clst >= 2 then Reached(fp.fs.g, |old(fp.chain)|, fp.chain, fp.fptr) else fp.chain == old(fp.chain)
    ensures Forward(fp.fs.g, old(fp.Around()), fp.Around())
  {
    hide FatOf, Sound, IsChain, HealthOf, Forward, Owns, ByteAt, Bytes, InFat, OnDrive, IsPow2, FatFits, Mapped,
      SectorAt, Lba;
    ghost var v := fp.View();
    BoundaryIndex(fp.fptr, fp.fs.g.csize);
    clst := FollowOrStretch(fp, fp.clust, (fp.fptr - 1) / 512 / fp.fs.g.csize);
    GrowKeeps(v, fp.View(), Extent(fp));
    if clst >= 2 {
      UseCluster(fp, clst);
    }
  }

  /** The cluster found becomes the current one, and the first one if the file had none. */
  method UseCluster(fp: Fil, clst: nat)
    requires fp.Base() && |fp.chain| > 0 && (fp.sclust == fp.chain[0] || (fp.sclust == 0 && clst == fp.chain[0]))
    modifies fp`clust, fp`sclust
    ensures fp.Base() && fp.StartOk() && fp.clust == clst
    ensures fp.View() == old(fp.View()) && fp.Around() == old(fp.Around())
  {
    hide FatOf, Sound, IsChain, HealthOf, Owns, InFat, OnDrive;
    fp.clust := clst;
    if fp.sclust == 0 {
      fp.sclust := clst;
    }
  }

  /** The boundary part of a turn is done: buffer clean, sector number known. */
  ghost predicate Ready(fp: Fil, sect: nat, csect: nat)
    reads fp, fp.buf, fp.fs, fp.fs.win
  {
    && fp.Base() && fp.StartOk() && Good(fp.View()) && Holds(fp.View(), Extent(fp)) && Positioned(fp)
    && !fp.dirty && fp.fptr % 512 == 0
    && sect == Lba(fp.fs.g, fp.chain, fp.fptr / 512) && csect == fp.fptr / 512 % fp.fs.g.csize
  }

  /** Cluster, write-back and sector number at a sector boundary; r as for NextCluster. */
  method ReadySector(fp: Fil) returns (r: nat, sect: nat, csect: nat)
    requires fp.Live() && fp.fptr % 512 == 0
    modifies fp`chain, fp`clust, fp`sclust, fp`dirty, fp.fs, fp.fs.win
    ensures Advanced(fp, r, old(fp.fs.Fat())) && Bytes(fp.View(), Extent(fp)) == old(Meaning(fp))
    ensures r >= 2 ==> Ready(fp, sect, csect)
    ensures if r >= 2 then Reached(fp.fs.g, |old(fp.chain)|, fp.chain, fp.fptr) else fp.chain == old(fp.chain)
    ensures Forward(fp.fs.g, old(fp.Around()), fp.Around())
  {
    hide FatOf, HealthOf, Forward, Owns, ByteAt, Bytes, OnDrive, Good, Holds, Mapped, FatFits, Sound, NoErrorMark,
      IsChain, InFat;
    csect := SectorInCluster(fp);
    sect := 0;
    if csect == 0 {
      r := NextCluster(fp);
      if r < 2 {
        return;
      }
    } else {
      SameClusterStays(fp);
      ForwardRefl(fp.fs.g, fp.Around());
      r := 2;
    }
    ghost var a, n := fp.Around(), Extent(fp);
    sect := CleanAt(fp, csect);
    ForwardTrans(fp.fs.g, old(fp.Around()), a, fp.Around());
  }

  method SectorInCluster(fp: Fil) returns (csect: nat)
    requires fp.Live()
    ensures Mapped(fp.fs.g, fp.chain) && fp.fs.g.csize > 0
    ensures csect == fp.fptr / 512 % fp.fs.g.csize
  {
    AndMask(fp.fptr / 512, fp.fs.g.csize);
    csect := And(fp.fptr / 512, fp.fs.g.csize - 1);
  }

  lemma SameClusterStays(fp: Fil)
    requires fp.Live() && fp.fptr % 512 == 0 && fp.fptr / 512 % fp.fs.g.csize != 0
    ensures Advanced(fp, 2, fp.fs.Fat()) && Bytes(fp.View(), Extent(fp)) == Meaning(fp)
  {
    hide FatOf, HealthOf, Forward, Owns, ByteAt, Bytes, OnDrive, Good, FatFits, NoErrorMark, IsChain, InFat, IsPow2;
    TopIndex(fp.fs.g);
    InsideIndex(fp.fptr, fp.fs.g.csize);
  }

  method CleanAt(fp: Fil, csect: nat) returns (sect: nat)
    requires fp.Base() && fp.StartOk() && Good(fp.View()) && Holds(fp.View(), Extent(fp)) && Positioned(fp)
    requires fp.fptr % 512 == 0 && csect == fp.fptr / 512 % fp.fs.g.csize
    modifies fp`dirty, fp.fs`disk
    ensures Ready(fp, sect, csect) && Bytes(fp.View(), Extent(fp)) == old(Bytes(fp.View(), Extent(fp)))
    ensures Forward(fp.fs.g, old(fp.Around()), fp.Around())
  {
    hide FatOf, IsChain, HealthOf, Forward, Owns, ByteAt, Bytes, InFat, OnDrive;
    ghost var v := fp.View();
    Flush(fp);
    if v.dirty {
      FlushKeeps(v, Extent(fp));
    }
    sect := fp.fs.Clust2Sect(fp.clust);
    sect := sect + csect;
  }

  /** Everything but fptr is as it should be when the position is p and the bytes are m. */
  ghost predicate Settled(fp: Fil, p: nat, m: seq<Byte>)
    reads fp, fp.buf, fp.fs, fp.fs.win
  {
    && fp.Base() && fp.StartOk() && Good(fp.View()) && 0 < p < WORD32
    && Holds(fp.View(), fp.fsize) && Holds(fp.View(), Max(fp.fsize, p)) && Bytes(fp.View(), Max(fp.fsize, p)) == m
    && Reaches(fp.fs.g, fp.chain, (p - 1) / 512) && fp.clust == fp.chain[(p - 1) / 512 / fp.fs.g.csize]
    && (p % 512 != 0 ==> Reaches(fp.fs.g, fp.chain, p / 512) && fp.dsect == Lba(fp.fs.g, fp.chain, p / 512))
  }

  /** The position moved forward by the bytes transferred. */
  method Advance(fp: Fil, n: nat, ghost m: seq<Byte>)
    requires Settled(fp, fp.fptr + n, m)
    modifies fp`fptr
    ensures fp.Live() && fp.fptr == old(fp.fptr) + n && Meaning(fp) == m && fp.Around() == old(fp.Around())
  {
    hide FatOf, IsChain, HealthOf, ByteAt, Bytes, InFat, OnDrive, IsPow2, FatFits, Owns, Lba, Mapped;
    fp.fptr := fp.fptr + n;
  }

  /** Whole sectors up to the end of the cluster, written directly. */
  method WriteDirect(fp: Fil, sect: nat, csect: nat, d: seq<Byte>)
    requires Ready(fp, sect, csect) && |d| % 512 == 0 && |d| > 0
    requires csect + |d| / 512 <= fp.fs.g.csize && fp.fptr + |d| < WORD32
    modifies fp.buf, fp.fs`disk
    ensures Settled(fp, fp.fptr + |d|, Overwrite(old(Bytes(fp.View(), Extent(fp))), fp.fptr, d))
    ensures Forward(fp.fs.g, old(fp.Around()), fp.Around())
  {
    hide FatOf, IsChain, HealthOf, ByteAt, Bytes, InFat, OnDrive, IsPow2, FatFits, Owns, Lba, Mapped, Direct,
      SectorAt, Forward, Elsewhere, NoWorse, Holds, Good, Sound, Overwrite;
    ghost var v, a, size, p := fp.View(), fp.Around(), fp.fsize, fp.fptr;
    RunOwned(v.g, v.chain, p / 512, |d| / 512);
    DirectWrites(v, size, p, d);
    DirectElsewhere(v, p / 512, d);
    LastIndex(p, |d|);
    HoldsLess(v, size, Max(size, p));
    WriteRun(fp, sect, d);
    SameHolds(v, fp.View(), size);
    ForwardData(fp.fs.g, a, fp.Around());
  }

  lemma SameHolds(v: FileView.View, w: FileView.View, n: nat)
    requires v.g == w.g && v.chain == w.chain && Holds(v, n)
    ensures Holds(w, n)
  {
  }

  lemma LastIndex(p: nat, n: nat)
    requires p % 512 == 0 && n % 512 == 0 && n > 0
    ensures (p + n - 1) / 512 == p / 512 + (n / 512 - 1) && (p + n) % 512 == 0
  {
  }

  lemma HoldsLess(v: FileView.View, m: nat, n: nat)
    requires m <= n && Holds(v, n)
    ensures Holds(v, m)
  {
    if m > 0 {
      ReachesBelow(v.g, v.chain, (m - 1) / 512, (n - 1) / 512);
    }
  }

  method WriteRun(fp: Fil, sect: nat, d: seq<Byte>)
    requires fp.Base() && Good(fp.View()) && !fp.dirty && |d| % 512 == 0 && |d| > 0
    requires fp.fs.g.database <= sect && sect + |d| / 512 <= fp.fs.g.sectors
    requires !(sect <= fp.fs.winsect < sect + |d| / 512)
    modifies fp.buf, fp.fs`disk
    ensures fp.Base() && fp.chain == old(fp.chain) && fp.View() == Direct(old(fp.View()), sect, d)
    ensures fp.fs.Fat() == old(fp.fs.Fat()) && NoWorse(old(HealthOf(fp.fs)), HealthOf(fp.fs))
  {
    hide FatOf, IsChain, ByteAt, Bytes, InFat, IsPow2, Owns, AllSafe, FreeCount, Distinct, EntryEnd, EntryStart;
    ghost var img := fp.fs.Image();
    BlitFat(fp.fs.g, img, sect, d);
    fp.fs.WriteSectors(sect, d);
    if Sub32(fp.dsect, sect) < |d| / 512 {
      var o := 512 * (fp.dsect - sect);
      forall i | 0 <= i < 512 {
        fp.buf[i] := d[o + i];
      }
      assert fp.buf[..] == Slice(d, fp.dsect - sect);
    }
  }

  /** The buffer stands for the sector of fptr and shows every byte of it that has a meaning. */
  ghost predicate BufferShows(fp: Fil)
    reads fp, fp.buf, fp.fs, fp.fs.win
  {
    && fp.Base() && fp.StartOk() && Holds(fp.View(), Extent(fp)) && Positioned(fp)
    && fp.dsect == Lba(fp.fs.g, fp.chain, fp.fptr / 512)
    && forall o: nat :: o < 512 && 512 * (fp.fptr / 512) + o < Extent(fp) ==>
         fp.View().buf[o] == SectorAt(fp.View(), fp.fptr / 512)[o]
  }

  /** Cache filling, skipped at the growing edge of the file. */
  method LoadForWrite(fp: Fil, sect: nat, ghost csect: nat)
    requires Ready(fp, sect, csect)
    modifies fp`dsect, fp.buf
    ensures BufferShows(fp) && Bytes(fp.View(), Extent(fp)) == old(Bytes(fp.View(), Extent(fp)))
    ensures Forward(fp.fs.g, old(fp.Around()), fp.Around())
  {
    hide FatOf, IsChain, HealthOf, Bytes, InFat, OnDrive, IsPow2, FatFits, Lba, Mapped, Owns, SectorAt, Sound,
      ByteAt, Holds, Forward;
    ghost var v := fp.View();
    OwnedSector(fp.fs.g, fp.chain, fp.fptr / 512);
    ForwardRefl(fp.fs.g, fp.Around());
    ForwardBuffer(fp.fs.g, fp.Around(), sect);
    if fp.dsect != sect {
      if fp.fptr < fp.fsize {
        LoadSector(fp, sect);
      }
      fp.dsect := sect;
    }
    LoadOutcome(v, fp.fsize, fp.fptr, fp.View());
  }

  lemma LoadOutcome(v: FileView.View, size: nat, p: nat, w: FileView.View)
    requires Good(v) && !v.dirty && p % 512 == 0 && Reaches(v.g, v.chain, p / 512) && Holds(v, Max(size, p))
    requires w == v.(dsect := Lba(v.g, v.chain, p / 512), buf := w.buf)
    requires p < size ==> w.buf == v.img[w.dsect]
    ensures Framed(w) && Holds(w, Max(size, p)) && Bytes(w, Max(size, p)) == Bytes(v, Max(size, p))
    ensures forall o: nat :: o < 512 && 512 * (p / 512) + o < Max(size, p) ==> w.buf[o] == SectorAt(w, p / 512)[o]
  {
    hide Mapped;
    SameSectors(v, w, Max(size, p));
  }

  lemma OwnedSector(g: Geometry, chain: seq<nat>, j: nat)
    requires Mapped(g, chain) && Reaches(g, chain, j)
    ensures Owns(g, chain, Lba(g, chain, j))
  {
  }

  /** disk_read of one data sector into the sector buffer. */
  method LoadSector(fp: Fil, sect: nat)
    requires fp.Base() && fp.fs.g.database <= sect < fp.fs.g.sectors && sect != fp.fs.winsect
    modifies fp.buf
    ensures fp.Base() && fp.buf[..] == fp.fs.Image()[sect]
    ensures fp.Around() == old(fp.Around())
  {
    hide FatOf, IsChain, HealthOf, InFat, IsPow2, FatFits, Lba, Mapped, Owns;
    var d := fp.fs.ReadSectors(sect, 1);
    assert d == fp.fs.Image()[sect];
    forall i | 0 <= i < 512 {
      fp.buf[i] := d[i];
    }
    assert fp.buf[..] == d;
  }

  /** mem_cpy of a partial sector into the buffer, which becomes dirty. */
  method CopyIn(fp: Fil, d: seq<Byte>)
    requires BufferShows(fp) && fp.fptr % 512 + |d| <= 512 && |d| > 0 && fp.fptr + |d| < WORD32
    requires fp.dirty ==> fp.dsect == Lba(fp.fs.g, fp.chain, fp.fptr / 512)
    modifies fp.buf, fp`dirty
    ensures Settled(fp, fp.fptr + |d|, Overwrite(old(Bytes(fp.View(), Extent(fp))), fp.fptr, d))
    ensures fp.Around() == old(fp.Around())
  {
    hide FatOf, IsChain, HealthOf, ByteAt, Bytes, InFat, OnDrive, IsPow2, FatFits, Lba, Mapped, SectorAt, Overwrite,
      Sound, Holds;
    ghost var v, j, o := fp.View(), fp.fptr / 512, fp.fptr % 512;
    CopyWrites(v, fp.fsize, fp.fptr, v.buf, d);
    OwnedSector(v.g, v.chain, j);
    HoldsLess(v, fp.fsize, Extent(fp));
    FillBuffer(fp, fp.fptr % 512, d);
    fp.dirty := true;
    assert fp.View() == Copied(v, j, v.buf, o, d);
    SameHolds(v, fp.View(), fp.fsize);
    PartIndex(fp.fptr, |d|);
  }

  lemma PartIndex(p: nat, n: nat)
    requires n > 0 && p % 512 + n <= 512
    ensures (p + n - 1) / 512 == p / 512 && ((p + n) % 512 != 0 ==> (p + n) / 512 == p / 512)
  {
  }

  method FillBuffer(fp: Fil, o: nat, d: seq<Byte>)
    requires fp.buf.Length == 512 && o + |d| <= 512
    modifies fp.buf
    ensures fp.buf[..] == Spliced(old(fp.buf[..]), o, d)
  {
    forall i | 0 <= i < |d| {
      fp.buf[o + i] := d[i];
    }
  }

  /** Inside a sector the buffer already shows it. */
  lemma BufferStays(fp: Fil)
    requires fp.Live() && fp.fptr % 512 != 0
    ensures BufferShows(fp) && Meaning(fp) == Bytes(fp.View(), Extent(fp))
  {
    hide FatOf, IsChain, HealthOf, ByteAt, Bytes, InFat, OnDrive, IsPow2, FatFits, Owns, Sound;
    InnerIndex(fp.fptr);
  }

  lemma InnerIndex(p: nat)
    requires p % 512 != 0
    ensures p > 0 && (p - 1) / 512 == p / 512
  {
  }

  /** The part of a turn that goes through the buffer. */
  method WritePart(fp: Fil, rest: seq<Byte>) returns (wcnt: nat)
    requires BufferShows(fp) && |rest| > 0 && fp.fptr + |rest| < WORD32
    requires fp.dirty ==> fp.dsect == Lba(fp.fs.g, fp.chain, fp.fptr / 512)
    modifies fp.buf, fp`dirty, fp`fptr
    ensures 0 < wcnt <= |rest| && fp.Live() && fp.fptr == old(fp.fptr) + wcnt
    ensures Meaning(fp) == Overwrite(old(Bytes(fp.View(), Extent(fp))), old(fp.fptr), rest[..wcnt])
    ensures fp.Around() == old(fp.Around())
  {
    hide FatOf, HealthOf, ByteAt, Bytes, OnDrive, Holds, Mapped, FatFits, Sound, IsChain, InFat, Overwrite, SectorAt,
      Lba, IsPow2, Owns;
    wcnt := 512 - fp.fptr % 512;
    if wcnt > |rest| {
      wcnt := |rest|;
    }
    ghost var m := Overwrite(Bytes(fp.View(), Extent(fp)), fp.fptr, rest[..wcnt]);
    CopyIn(fp, rest[..wcnt]);
    Advance(fp, wcnt, m);
  }

  lemma ReadyPositioned(fp: Fil, sect: nat, csect: nat)
    requires Ready(fp, sect, csect)
    ensures Reaches(fp.fs.g, fp.chain, fp.fptr / 512) && fp.clust == fp.chain[fp.fptr / 512 / fp.fs.g.csize]
  {
  }

  lemma ShowsPositioned(fp: Fil)
    requires BufferShows(fp)
    ensures Reaches(fp.fs.g, fp.chain, fp.fptr / 512) && fp.clust == fp.chain[fp.fptr / 512 / fp.fs.g.csize]
  {
  }

  /** The byte at the position already has its cluster. */
  lemma ReachedInside(fp: Fil)
    requires BufferShows(fp)
    ensures Reached(fp.fs.g, |fp.chain|, fp.chain, fp.fptr)
  {
  }

  /** One turn of f_write's loop: r < 2 if the cluster part failed, else n bytes are written. */
  method WriteTurn(fp: Fil, rest: seq<Byte>) returns (r: nat, n: nat)
    requires fp.Live() && |rest| > 0 && fp.fptr + |rest| < WORD32
    modifies fp`chain, fp`clust, fp`sclust, fp`dirty, fp`dsect, fp`fptr, fp.buf, fp.fs, fp.fs.win
    ensures n <= |rest| && fp.Live() && fp.fptr == old(fp.fptr) + n
    ensures old(fp.fptr) <= |old(Meaning(fp))| && Meaning(fp) == Overwrite(old(Meaning(fp)), old(fp.fptr), rest[..n])
    ensures if r < 2 then n == 0 && Advanced(fp, r, old(fp.fs.Fat())) else n > 0
    ensures Tight(fp.fs.g, |old(fp.chain)|, fp.chain, fp.fptr)
    ensures Forward(fp.fs.g, old(fp.Around()), fp.Around())
  {
    hide FatOf, HealthOf, Forward, Owns, ByteAt, Bytes, OnDrive, Good, Holds, Mapped, FatFits, Sound, IsChain, InFat,
      NoErrorMark, Overwrite, SectorAt, Lba, IsPow2, NoneFree, AtEnd, Tight, Reached;
    ghost var m, k, p := Meaning(fp), |fp.chain|, fp.fptr;
    if fp.fptr % 512 == 0 {
      var sect, csect;
      r, sect, csect := ReadySector(fp);
      if r < 2 {
        TightStart(fp);
        OverwriteNothing(m, fp.fptr, rest);
        return r, 0;
      }
      ghost var a := fp.Around();
      var cc := |rest| / 512;
      if cc > 0 {
        ReadyPositioned(fp, sect, csect);
        n := DirectTurn(fp, rest, sect, csect, cc);
        TightAfter(fp, k, p);
        ForwardTrans(fp.fs.g, old(fp.Around()), a, fp.Around());
        return;
      }
      LoadForWrite(fp, sect, csect);
      ForwardTrans(fp.fs.g, old(fp.Around()), a, fp.Around());
    } else {
      BufferStays(fp);
      ReachedInside(fp);
      ForwardRefl(fp.fs.g, fp.Around());
      r := 2;
    }
    ShowsPositioned(fp);
    n := WritePart(fp, rest);
    TightAfter(fp, k, p);
  }

  lemma OverwriteNothing(m: seq<Byte>, p: nat, rest: seq<Byte>)
    requires p <= |m|
    ensures Overwrite(m, p, rest[..0]) == m
  {
  }

  /** The direct part of a turn: as many whole sectors as the cluster still has. */
  method DirectTurn(fp: Fil, rest: seq<Byte>, sect: nat, csect: nat, whole: nat) returns (n: nat)
    requires Ready(fp, sect, csect) && whole == |rest| / 512 > 0 && fp.fptr + |rest| < WORD32
    modifies fp`fptr, fp.buf, fp.fs`disk
    ensures 0 < n <= |rest| && fp.Live() && fp.fptr == old(fp.fptr) + n
    ensures Meaning(fp) == Overwrite(old(Bytes(fp.View(), Extent(fp))), old(fp.fptr), rest[..n])
    ensures Forward(fp.fs.g, old(fp.Around()), fp.Around())
  {
    hide *;
    var cc := whole;
    CsectRange(fp, sect, csect);
    if csect + cc > fp.fs.g.csize {
      cc := fp.fs.g.csize - csect;
    }
    n := 512 * cc;
    ghost var m := Overwrite(Bytes(fp.View(), Extent(fp)), fp.fptr, rest[..n]);
    WriteDirect(fp, sect, csect, rest[..n]);
    Advance(fp, n, m);
  }

  lemma CsectRange(fp: Fil, sect: nat, csect: nat)
    requires Ready(fp, sect, csect)
    ensures csect < fp.fs.g.csize
    ensures fp.Base() && Holds(fp.View(), Extent(fp)) && fp.fptr <= Extent(fp)
  {
  }

  /** After the loop: the size follows the position, and the change is flagged. */
  method Finish(fp: Fil)
    requires fp.Live()
    modifies fp`fsize, fp`written
    ensures fp.Valid() && fp.fsize == old(Extent(fp)) && fp.Contents() == old(Meaning(fp)) && fp.written
    ensures fp.Around() == old(fp.Around())
  {
    hide FatOf, HealthOf, ByteAt, OnDrive, Mapped, FatFits, Sound, IsChain, InFat, SectorAt, Lba, IsPow2, Owns;
    if fp.fptr > fp.fsize {
      fp.fsize := fp.fptr;
    }
    fp.written := true;
  }

  /** One turn, and what it adds to the data written since the start state a with content c at p. */
  method WriteNext(fp: Fil, data: seq<Byte>, bw: nat, ghost c: seq<Byte>, ghost p: nat, ghost a: Setting)
    returns (r: nat, n: nat)
    requires Tight(fp.fs.g, |a.chain|, fp.chain, fp.fptr)
    requires fp.Live() && bw < |data| && p + |data| < WORD32 && fp.fptr == p + bw
    requires p <= |c| && Meaning(fp) == Overwrite(c, p, data[..bw]) && Forward(fp.fs.g, a, fp.Around())
    modifies fp`chain, fp`clust, fp`sclust, fp`dirty, fp`dsect, fp`fptr, fp.buf, fp.fs, fp.fs.win
    ensures bw + n <= |data| && fp.Live() && fp.fptr == p + bw + n
    ensures Meaning(fp) == Overwrite(c, p, data[..bw + n]) && Forward(fp.fs.g, a, fp.Around())
    ensures if r < 2 then n == 0 else n > 0
    ensures r == 1 ==> !NoErrorMark(fp.fs.Fat())
    ensures r == 0 ==> fp.fs.g.csize > 0 && Clipped(fp)
    ensures Tight(fp.fs.g, |a.chain|, fp.chain, fp.fptr)
  {
    hide FatOf, HealthOf, Forward, ByteAt, Bytes, OnDrive, Good, Holds, Mapped, FatFits, Sound, IsChain, InFat,
      NoErrorMark, Overwrite, SectorAt, Lba, IsPow2, Owns, NoneFree, AtEnd;
    ghost var b, q := fp.Around(), fp.fptr;
    r, n := WriteTurn(fp, data[bw..]);
    TightTrans(fp.fs.g, |a.chain|, b.chain, q, fp.chain, fp.fptr);
    ForwardTrans(fp.fs.g, a, b, fp.Around());
    OverwriteTwice(c, p, data[..bw], data[bw..][..n]);
    assert data[..bw] + data[bw..][..n] == data[..bw + n];
  }

  lemma MeaningLength(fp: Fil)
    requires fp.Live()
    ensures |Meaning(fp)| == Extent(fp)
  {
  }

  /** The loop of f_write: r is 0 or 1 when it stopped early, else all btw bytes are written. */
  method WriteLoop(fp: Fil, data: seq<Byte>, btw: nat) returns (r: nat, bw: nat)
    requires fp.Live() && btw <= |data| && fp.fptr + btw < WORD32 && fp.fptr <= fp.fsize
    modifies fp`chain, fp`clust, fp`sclust, fp`dirty, fp`dsect, fp`fptr, fp.buf, fp.fs, fp.fs.win
    ensures bw <= btw && fp.Live() && fp.fptr == old(fp.fptr) + bw
    ensures old(fp.fptr) <= |old(Meaning(fp))| && Meaning(fp) == Overwrite(old(Meaning(fp)), old(fp.fptr), data[..bw])
    ensures r >= 2 ==> bw == btw
    ensures r == 1 ==> !NoErrorMark(fp.fs.Fat())
    ensures r == 0 ==> fp.fs.g.csize > 0 && Clipped(fp)
    ensures Tight(fp.fs.g, |old(fp.chain)|, fp.chain, fp.fptr)
    ensures Forward(fp.fs.g, old(fp.Around()), fp.Around())
  {
    hide FatOf, HealthOf, Forward, ByteAt, Bytes, OnDrive, Good, Holds, Mapped, FatFits, Sound, IsChain, InFat,
      NoErrorMark, Overwrite, SectorAt, Lba, IsPow2, Owns, Tight, Clipped, Fil.Cursor, Fil.StartOk, FatFs.Ordered, Meaning;
    r, bw := 2, 0;
    TightStart(fp);
    ghost var c, p, a := Meaning(fp), fp.fptr, fp.Around();
    MeaningLength(fp);
    OverwriteNothing(c, p, data);
    ForwardRefl(fp.fs.g, fp.Around());
    while bw < btw
      invariant fp.Live() && bw <= btw <= |data| && p + btw < WORD32 && fp.fptr == p + bw && r >= 2
      invariant p <= |c| && Meaning(fp) == Overwrite(c, p, data[..bw])
      invariant Forward(fp.fs.g, a, fp.Around()) && Tight(fp.fs.g, |a.chain|, fp.chain, fp.fptr)
    {
      var n;
      assert data[..btw][..bw] == data[..bw];
      r, n := WriteNext(fp, data[..btw], bw, c, p, a);
      assert data[..btw][..bw + n] == data[..bw + n];
      if r < 2 {
        break;
      }
      bw := bw + n;
    }
  }

  /** Result of f_write on a writable file whose content was c and position p. */
  ghost predicate WriteDone(fp: Fil, res: FResult, bw: nat, c: seq<Byte>, p: nat, data: seq<Byte>)
    reads fp, fp.buf, fp.fs, fp.fs.win
  {
    && fp.fs.Valid() && bw <= |data| && p <= |c|
    && (res == OK || res == IntErr) && fp.err == res
    && (res == IntErr ==> !NoErrorMark(fp.fs.Fat()))
    && (res == OK ==>
         && fp.Valid() && fp.fptr == p + bw && fp.Contents() == Overwrite(c, p, data[..bw])
         && (p + |data| >= WORD32 ==> bw == 0)
         && (bw < |data| ==> p + |data| >= WORD32 || (fp.fs.g.csize > 0 && Clipped(fp))))
  }

  /**
  f_write. The bytes from the position on are replaced and the file grows if they
  pass its end; nothing else of the file or of the volume changes. Fewer bytes than
  given are written only at the end of the last cluster when none is free, or if the position would
  pass 32 bits. The chain gets the clusters the position needs and no more.
  */
  method Write(fp: Fil, data: seq<Byte>) returns (res: FResult, bw: nat)
    requires fp.err == OK ==> fp.Valid()
    requires |data| < WORD32
    modifies fp`chain, fp`clust, fp`sclust, fp`dirty, fp`dsect, fp`fptr, fp`fsize, fp`written, fp`err, fp.buf, fp.fs, fp.fs.win
    ensures old(fp.err) != OK ==> res == old(fp.err) && bw == 0 && unchanged(fp, fp.buf, fp.fs, fp.fs.win)
    ensures old(fp.err) == OK && !fp.canWrite ==> res == Denied && bw == 0 && unchanged(fp, fp.buf, fp.fs, fp.fs.win)
    ensures old(fp.err) == OK && fp.canWrite ==> WriteDone(fp, res, bw, old(fp.Contents()), old(fp.fptr), data)
    ensures old(fp.err) == OK && fp.canWrite ==> fp.Base() && Forward(fp.fs.g, old(fp.Around()), fp.Around())
    ensures old(fp.err) == OK && fp.canWrite ==> Tight(fp.fs.g, |old(fp.chain)|, fp.chain, fp.fptr)
    ensures old(fp.err) == OK && fp.canWrite ==> if res == OK then fp.written else fp.written == old(fp.written)
  {
    hide FatOf, HealthOf, Forward, ByteAt, Bytes, OnDrive, Good, Holds, Mapped, FatFits, Sound, IsChain, InFat,
      NoErrorMark, Overwrite, SectorAt, Lba, IsPow2, Owns, NoneFree, AtEnd, Tight;
    if fp.err != OK {
      return fp.err, 0;
    }
    if !fp.canWrite {
      return Denied, 0;
    }
    var btw := |data|;
    if fp.fptr + btw >= WORD32 {
      btw := 0;
    }
    var r;
    r, bw := WriteLoop(fp, data, btw);
    if r == 1 {
      fp.err := IntErr;
      return IntErr, bw;
    }
    Finish(fp);
    res := OK;
  }
}
