/**
f_lseek of fatfs/src/ff.c, normal mode: from the current or the first cluster the
chain is walked, and in write mode stretched, up to the target position.
*/
module FileSeek {
  import opened Bits
  import opened Layout
  import opened Entries
  import opened FatMap
  import opened Volume
  import opened Allocator
  import opened FileView
  import opened FileObject
  import opened FileWrite
  import opened FileRead

  /** The walk stands at the start of the i-th cluster of the file. */
  ghost predicate WalkAt(fp: Fil, i: nat)
    reads fp, fp.buf, fp.fs, fp.fs.win
  {
    && fp.Base() && fp.StartOk() && Good(fp.View()) && Holds(fp.View(), fp.fsize)
    && i < |fp.chain| && fp.clust == fp.chain[i]
    && fp.fptr % 512 == 0 && fp.fptr / 512 % fp.fs.g.csize == 0 && fp.fptr / 512 / fp.fs.g.csize == i
  }

  /** The chain of n clusters has grown up to the i-th cluster and no further. */
  predicate Walked(n: nat, chain: seq<nat>, i: nat) {
    |chain| == Max(n, i + 1)
  }

  lemma WalkedTop(n: nat)
    ensures forall chain: seq<nat> :: Walked(n, chain, 0) <==> |chain| == Max(n, 1)
  {
  }

  lemma WalkedTrans(n: nat, xs: seq<nat>, i: nat, ys: seq<nat>, j: nat)
    requires Walked(n, xs, i) && Walked(|xs|, ys, j) && i <= j
    ensures Walked(n, ys, j)
  {
  }

  /** Cluster arithmetic of a walk: one cluster further, and positions inside the cluster. */
  lemma NextStart(p: nat, c: nat, i: nat)
    requires c > 0 && p % 512 == 0 && p / 512 % c == 0 && p / 512 / c == i
    ensures (p + 512 * c) % 512 == 0 && (p + 512 * c) / 512 % c == 0 && (p + 512 * c) / 512 / c == i + 1
  {
    var s := p / 512;
    assert (p + 512 * c) / 512 == s + c;
    assert s == i * c;
    DivModUnique(s + c, c, i + 1, 0);
  }

  lemma WithinCluster(p: nat, c: nat, i: nat, o: nat)
    requires c > 0 && p % 512 == 0 && p / 512 % c == 0 && p / 512 / c == i && o < 512 * c
    ensures (p + o) / 512 == p / 512 + o / 512 && (p + o) / 512 / c == i && (p + o) / 512 % c == o / 512 < c
    ensures (p + o) % 512 == o % 512
  {
    var s := p / 512;
    assert s == i * c;
    DivModUnique(s + o / 512, c, i, o / 512);
  }

  /** (p - 1) & ~(bcs - 1) is the start of the cluster that holds byte p - 1. */
  lemma ClusterStart(g: Geometry, p: nat)
    requires Sound(g) && 0 < p < WORD32
    ensures g.csize > 0
    ensures 512 * g.csize <= WORD32
    ensures var b := And(p - 1, WORD32 - 512 * g.csize);
      && b <= p - 1 < b + 512 * g.csize && b % 512 == 0 && b / 512 % g.csize == 0
      && b / 512 / g.csize == (p - 1) / 512 / g.csize
  {
    hide And;
    ClusterBytesPow2(g.csize);
    WordPow2();
    AndHighMask(p - 1, 512 * g.csize, WORD32);
    BlockStart(p - 1, g.csize);
  }

  lemma BlockStart(x: nat, c: nat)
    requires c > 0
    ensures var b := x - x % (512 * c);
      0 <= b <= x < b + 512 * c && b % 512 == 0 && b / 512 % c == 0 && b / 512 / c == x / 512 / c
  {
    var m := 512 * c;
    DivModOf(x, m);
    BlockDigits(x, c, m, x / m, x % m);
  }

  lemma BlockDigits(x: nat, c: nat, m: nat, q: nat, r: nat)
    requires c > 0 && m == 512 * c && x == m * q + r && r < m
    ensures var b := x - r;
      0 <= b <= x < b + m && b % 512 == 0 && b / 512 % c == 0 && b / 512 / c == x / 512 / c
  {
    var b := x - r;
    Regroup(q, c);
    assert b == 512 * (q * c);
    DivModUnique(b, 512, q * c, 0);
    DivModUnique(q * c, c, q, 0);
    WithinCluster(b, c, q, r);
  }

  lemma Regroup(q: int, c: int)
    ensures q * (512 * c) == 512 * (q * c)
  {
  }

  lemma WordPow2()
    ensures IsPow2(WORD32)
  {
    BytePowers();
  }

  lemma ClusterBytesPow2(c: nat)
    requires IsPow2(c) && c <= 128
    ensures IsPow2(512 * c) && 512 * c <= WORD32 && c > 0
  {
    assert IsPow2(2 * c);
    PowUp(2 * c);
    PowUp(32 * c);
  }

  /** Where the walk starts: the current cluster if the target is not before it, else the first one. */
  method SeekStart(fp: Fil, ofs: nat) returns (clst: nat, rest: nat, ghost i: nat)
    requires fp.Valid() && 0 < ofs < WORD32
    modifies fp`chain, fp`clust, fp`sclust, fp`fptr, fp.fs, fp.fs.win
    ensures fp.Base() && Good(fp.View()) && Holds(fp.View(), fp.fsize)
    ensures Bytes(fp.View(), fp.fsize) == old(fp.Contents())
    ensures clst >= 2 ==> WalkAt(fp, i) && rest > 0 && fp.fptr + rest == ofs && Walked(|old(fp.chain)|, fp.chain, i)
    ensures clst == 1 ==> !NoErrorMark(fp.fs.Fat())
    ensures clst == 0 ==> NoneFree(fp.fs.Fat()) && fp.Valid() && fp.fptr == 0 && fp.chain == old(fp.chain) == []
    ensures Forward(fp.fs.g, old(fp.Around()), fp.Around())
  {
    hide FatOf, HealthOf, ByteAt, Bytes, OnDrive, Mapped, FatFits, IsChain, InFat, NoErrorMark, SectorAt, Lba,
      IsPow2, Owns, And, Forward, Good, NoneFree;
    ForwardRefl(fp.fs.g, fp.Around());
    TopIndex(fp.fs.g);
    var bcs := fp.fs.g.csize * 512;
    if fp.fptr > 0 && (ofs - 1) / bcs >= (fp.fptr - 1) / bcs {
      rest, i := SeekCurrent(fp, ofs);
      clst := fp.clust;
    } else {
      fp.fptr := 0;
      rest, i := ofs, 0;
      clst := SeekTop(fp);
      if clst != 1 {
        AtTop(fp);
      }
    }
  }

  lemma AtTop(fp: Fil)
    requires fp.Base() && Good(fp.View()) && Holds(fp.View(), fp.fsize) && fp.fptr == 0 && fp.StartOk()
    ensures |fp.chain| > 0 && fp.clust == fp.chain[0] ==> WalkAt(fp, 0)
    ensures fp.chain == [] ==> fp.Valid()
  {
    hide FatOf, HealthOf, ByteAt, Bytes, OnDrive, FatFits, IsChain, InFat, SectorAt, Lba, IsPow2, Owns, Good;
    TopIndex(fp.fs.g);
    ZeroMod(0, fp.fs.g.csize);
  }

  /** A target in the current cluster or beyond is not before the start of the current cluster. */
  lemma NotBefore(g: Geometry, x: nat, p: nat)
    requires Sound(g) && 0 < p < WORD32 && g.csize > 0 && x / (g.csize * 512) >= (p - 1) / (g.csize * 512)
    ensures 512 * g.csize <= WORD32
    ensures And(p - 1, WORD32 - 512 * g.csize) <= x
  {
    hide And;
    ClusterBytesPow2(g.csize);
    WordPow2();
    AndHighMask(p - 1, 512 * g.csize, WORD32);
    BlockOrder(x, p - 1, 512 * g.csize);
  }

  lemma BlockOrder(x: nat, y: nat, m: nat)
    requires m > 0 && x / m >= y / m
    ensures y - y % m <= x
  {
    var a, b := x / m, y / m;
    assert y - y % m == b * m;
    if a > b {
      ScaleLess(b, a, m);
    }
  }

  /** The walk starts at the current cluster. */
  method SeekCurrent(fp: Fil, ofs: nat) returns (rest: nat, ghost i: nat)
    requires fp.Valid() && 0 < ofs < WORD32 && fp.fptr > 0 && fp.fs.g.csize > 0
    requires (ofs - 1) / (fp.fs.g.csize * 512) >= (fp.fptr - 1) / (fp.fs.g.csize * 512)
    modifies fp`fptr
    ensures WalkAt(fp, i) && rest > 0 && fp.fptr + rest == ofs && fp.clust >= 2 && Walked(|fp.chain|, fp.chain, i)
    ensures Bytes(fp.View(), fp.fsize) == old(fp.Contents()) && fp.Around() == old(fp.Around())
  {
    hide FatOf, HealthOf, ByteAt, Bytes, OnDrive, FatFits, IsChain, InFat, SectorAt, Lba, IsPow2, Owns, And, Good;
    ClusterStart(fp.fs.g, fp.fptr);
    NotBefore(fp.fs.g, ofs - 1, fp.fptr);
    i := (fp.fptr - 1) / 512 / fp.fs.g.csize;
    fp.fptr := And(fp.fptr - 1, WORD32 - 512 * fp.fs.g.csize);
    rest := ofs - fp.fptr;
  }

  /** The first cluster of an empty file, allocated. */
  method TopCluster(fp: Fil) returns (clst: nat)
    requires fp.Base() && Good(fp.View()) && Holds(fp.View(), fp.fsize) && fp.chain == []
    modifies fp`chain, fp.fs, fp.fs.win
    ensures fp.Base() && Good(fp.View()) && Holds(fp.View(), fp.fsize)
    ensures Bytes(fp.View(), fp.fsize) == old(Bytes(fp.View(), fp.fsize))
    ensures clst >= 2 ==> |fp.chain| == 1 && fp.chain[0] == clst
    ensures clst == 1 ==> !NoErrorMark(fp.fs.Fat())
    ensures clst == 0 ==> NoneFree(fp.fs.Fat()) && fp.chain == []
    ensures Forward(fp.fs.g, old(fp.Around()), fp.Around())
  {
    hide FatOf, HealthOf, ByteAt, Bytes, OnDrive, IsChain, FatFits, InFat, NoErrorMark, SectorAt, Lba, IsPow2, Owns,
      Forward, Good, Sound, Holds, NoneFree, Distinct;
    ghost var v := fp.View();
    clst := FollowOrStretch(fp, 0, -1);
    GrowKeeps(v, fp.View(), fp.fsize);
  }

  /** The first cluster becomes the current one; an empty file gets one if the volume has one. */
  method SeekTop(fp: Fil) returns (clst: nat)
    requires fp.Base() && fp.StartOk() && Good(fp.View()) && Holds(fp.View(), fp.fsize)
    modifies fp`chain, fp`clust, fp`sclust, fp.fs, fp.fs.win
    ensures fp.Base() && Good(fp.View()) && Holds(fp.View(), fp.fsize)
    ensures Bytes(fp.View(), fp.fsize) == old(Bytes(fp.View(), fp.fsize))
    ensures fp.StartOk() || clst == 1
    ensures clst >= 2 ==> |fp.chain| > 0 && fp.clust == fp.chain[0] && Walked(|old(fp.chain)|, fp.chain, 0)
    ensures clst == 1 ==> !NoErrorMark(fp.fs.Fat())
    ensures clst == 0 ==> NoneFree(fp.fs.Fat()) && fp.chain == old(fp.chain) == []
    ensures Forward(fp.fs.g, old(fp.Around()), fp.Around())
  {
    hide FatOf, HealthOf, ByteAt, Bytes, OnDrive, IsChain, FatFits, InFat, NoErrorMark, SectorAt, Lba, IsPow2, Owns,
      Forward, Good, Sound, Holds, NoneFree, Distinct, Walked;
    WalkedTop(|fp.chain|);
    ForwardRefl(fp.fs.g, fp.Around());
    clst := fp.sclust;
    if clst == 0 {
      clst := TopCluster(fp);
      if clst == 1 {
        return;
      }
      fp.sclust := clst;
    }
    fp.clust := clst;
  }

  /** In read mode the target is inside the file, so the chain goes on. */
  lemma ChainGoesOn(fp: Fil, i: nat, target: nat)
    requires WalkAt(fp, i) && fp.fptr + 512 * fp.fs.g.csize < target <= fp.fsize
    ensures i + 1 < |fp.chain|
  {
    hide FatOf, HealthOf, OnDrive, FatFits, IsChain, InFat, Lba, Owns, Good, Distinct;
    TopIndex(fp.fs.g);
    NextStart(fp.fptr, fp.fs.g.csize, i);
    HoldsBelow(fp.View(), fp.fptr + 512 * fp.fs.g.csize, fp.fsize);
  }

  /** The cluster-following loop body: 0 disk full, 1 error mark, else one cluster further. */
  method SeekStep(fp: Fil, ghost i: nat, ghost target: nat) returns (clst: nat)
    requires WalkAt(fp, i) && fp.fptr + 512 * fp.fs.g.csize < target < WORD32
    requires !fp.canWrite ==> target <= fp.fsize
    modifies fp`chain, fp`clust, fp`fptr, fp.fs, fp.fs.win
    ensures fp.Base() && Holds(fp.View(), fp.fsize) && Bytes(fp.View(), fp.fsize) == old(Bytes(fp.View(), fp.fsize))
    ensures clst >= 2 ==> WalkAt(fp, i + 1) && fp.fptr == old(fp.fptr) + 512 * fp.fs.g.csize
    ensures clst >= 2 ==> Walked(|old(fp.chain)|, fp.chain, i + 1)
    ensures clst == 1 ==> !NoErrorMark(fp.fs.Fat())
    ensures clst == 0 ==> fp.chain == old(fp.chain) && WalkAt(fp, i) && i + 1 == |fp.chain| && fp.fptr == old(fp.fptr) && NoneFree(fp.fs.Fat())
    ensures Forward(fp.fs.g, old(fp.Around()), fp.Around())
  {
    hide FatOf, HealthOf, ByteAt, Bytes, OnDrive, Mapped, FatFits, IsChain, InFat, NoErrorMark, SectorAt, Lba,
      IsPow2, Owns, Forward, Good, Sound;
    ghost var v := fp.View();
    clst := SeekLink(fp, i, target);
    GrowKeeps(v, fp.View(), fp.fsize);
    if clst >= 2 {
      NextStart(fp.fptr, fp.fs.g.csize, i);
      fp.clust := clst;
      fp.fptr := fp.fptr + fp.fs.g.csize * 512;
    }
  }

  /** Force stretch in write mode, plain following in read mode. */
  method SeekLink(fp: Fil, ghost i: nat, ghost target: nat) returns (clst: nat)
    requires WalkAt(fp, i) && fp.fptr + 512 * fp.fs.g.csize < target < WORD32
    requires !fp.canWrite ==> target <= fp.fsize
    modifies fp`chain, fp.fs, fp.fs.win
    ensures fp.Base() && Good(fp.View()) && fp.fs.g.csize > 0 && old(fp.chain) <= fp.chain
    ensures Grown(old(fp.View()), fp.View()) && SameOutsideFat(fp.fs.g, old(fp.fs.Image()), fp.fs.Image())
    ensures clst >= 2 ==> i + 1 < |fp.chain| && fp.chain[i + 1] == clst && Walked(|old(fp.chain)|, fp.chain, i + 1)
    ensures clst == 1 ==> !NoErrorMark(fp.fs.Fat())
    ensures clst == 0 ==> i + 1 == |fp.chain| && fp.chain == old(fp.chain) && NoneFree(fp.fs.Fat())
    ensures Forward(fp.fs.g, old(fp.Around()), fp.Around())
  {
    hide FatOf, HealthOf, ByteAt, Bytes, OnDrive, FatFits, InFat, NoErrorMark, SectorAt, Lba, IsPow2, Owns, Forward,
      Good, Sound, IsChain;
    TopIndex(fp.fs.g);
    if fp.canWrite {
      clst := FollowOrStretch(fp, fp.clust, i);
    } else {
      ChainGoesOn(fp, i, target);
      clst := FollowLink(fp, i);
    }
  }

  method FollowLink(fp: Fil, ghost i: nat) returns (clst: nat)
    requires fp.Base() && Good(fp.View()) && i + 1 < |fp.chain| && fp.clust == fp.chain[i]
    modifies fp.fs`disk, fp.fs`wflag, fp.fs`winsect, fp.fs`durable, fp.fs.win
    ensures fp.Base() && fp.View() == old(fp.View()) && Forward(fp.fs.g, old(fp.Around()), fp.Around())
    ensures clst == fp.chain[i + 1] >= 2
  {
    hide FatOf, HealthOf, ByteAt, Bytes, OnDrive, FatFits, InFat, SectorAt, Lba, IsPow2, Owns, Good, Sound;
    assert IsCluster(fp.fs.Fat(), fp.chain[i + 1]);
    FatIsClearOnce(fp);
    ghost var a := fp.Around();
    clst := ReadEntry(fp.fs, fp.clust);
    ForwardWindow(fp.fs.g, a, fp.fs.winsect);
  }

  /** The loop: afterwards the target, or the end of the last cluster, lies in the current cluster. */
  method SeekLoop(fp: Fil, ofs: nat, ghost start: nat) returns (clst: nat, rest: nat, ghost i: nat)
    requires WalkAt(fp, start) && ofs > 0 && fp.fptr + ofs < WORD32 && fp.fs.g.csize > 0
    requires !fp.canWrite ==> fp.fptr + ofs <= fp.fsize
    modifies fp`chain, fp`clust, fp`fptr, fp.fs, fp.fs.win
    ensures fp.Base() && Holds(fp.View(), fp.fsize) && Bytes(fp.View(), fp.fsize) == old(Bytes(fp.View(), fp.fsize))
    ensures clst != 1 ==> WalkAt(fp, i) && 0 < rest <= 512 * fp.fs.g.csize && i >= start
    ensures clst != 1 ==> Walked(|old(fp.chain)|, fp.chain, i) && fp.fptr >= old(fp.fptr)
    ensures clst == 1 ==> !NoErrorMark(fp.fs.Fat())
    ensures clst == 0 ==> rest == 512 * fp.fs.g.csize && i + 1 == |fp.chain| && NoneFree(fp.fs.Fat())
    ensures clst == 0 ==> fp.fptr + rest < old(fp.fptr) + ofs
    ensures clst >= 2 ==> fp.fptr + rest == old(fp.fptr) + ofs
    ensures Forward(fp.fs.g, old(fp.Around()), fp.Around())
  {
    hide *;
    ghost var target := fp.fptr + ofs;
    var bcs := fp.fs.g.csize * 512;
    rest, i, clst := ofs, start, 2;
    WalkFacts(fp, i);
    while rest > bcs
      invariant WalkAt(fp, i) && fp.Base() && Holds(fp.View(), fp.fsize) && fp.fptr + rest == target && rest > 0 && clst >= 2
      invariant Bytes(fp.View(), fp.fsize) == old(Bytes(fp.View(), fp.fsize))
      invariant Forward(fp.fs.g, old(fp.Around()), fp.Around()) && i >= start
      invariant Walked(|old(fp.chain)|, fp.chain, i) && fp.fptr >= old(fp.fptr)
    {
      ghost var a, xs := fp.Around(), fp.chain;
      clst := SeekStep(fp, i, target);
      if clst >= 2 {
        WalkedTrans(|old(fp.chain)|, xs, i, fp.chain, i + 1);
      }
      ForwardTrans(fp.fs.g, old(fp.Around()), a, fp.Around());
      if clst == 0 {
        rest := bcs;
        break;
      }
      if clst == 1 {
        break;
      }
      rest := rest - bcs;
      i := i + 1;
    }
  }

  lemma WalkFacts(fp: Fil, i: nat)
    requires WalkAt(fp, i)
    ensures fp.Base() && Holds(fp.View(), fp.fsize) && Forward(fp.fs.g, fp.Around(), fp.Around())
    ensures Walked(|fp.chain|, fp.chain, i)
  {
    hide HealthOf, OthersKept, Elsewhere;
    ForwardRefl(fp.fs.g, fp.Around());
  }

  /** The buffer holds the sector of an unaligned position. */
  method SeekBuffer(fp: Fil, ghost i: nat, o: nat)
    requires fp.Base() && fp.StartOk() && Good(fp.View()) && Holds(fp.View(), fp.fsize)
    requires i < |fp.chain| && fp.clust == fp.chain[i] && fp.fs.g.csize > 0
    requires fp.fptr / 512 / fp.fs.g.csize == i && fp.fptr / 512 % fp.fs.g.csize == o
    modifies fp`dsect, fp`dirty, fp.buf, fp.fs`disk
    ensures fp.Base() && fp.StartOk() && Good(fp.View()) && Holds(fp.View(), fp.fsize)
    ensures Reaches(fp.fs.g, fp.chain, fp.fptr / 512) && fp.dsect == Lba(fp.fs.g, fp.chain, fp.fptr / 512)
    ensures fp.fs.Fat() == old(fp.fs.Fat())
    ensures Bytes(fp.View(), fp.fsize) == old(Bytes(fp.View(), fp.fsize))
    ensures Forward(fp.fs.g, old(fp.Around()), fp.Around())
  {
    hide FatOf, HealthOf, ByteAt, Bytes, OnDrive, FatFits, IsChain, InFat, SectorAt, IsPow2, Owns, Forward, Good,
      Sound, Lba, Holds;
    var nsect := SeekSector(fp, i, o);
    OwnedSector(fp.fs.g, fp.chain, fp.fptr / 512);
    SwitchBuffer(fp, nsect);
  }

  /** Cluster indexes of a position that ends inside cluster i or at its end. */
  lemma EndIndex(g: Geometry, p: nat, i: nat, rest: nat)
    requires g.csize > 0 && p % 512 == 0 && p / 512 % g.csize == 0 && p / 512 / g.csize == i
    requires 0 < rest <= 512 * g.csize
    ensures (p + rest - 1) / 512 / g.csize == i && ClustersFor(g, p + rest) == i + 1
    ensures (p + rest) % 512 != 0 ==> (p + rest) / 512 / g.csize == i && (p + rest) / 512 % g.csize == rest / 512
  {
    WithinCluster(p, g.csize, i, rest - 1);
    if rest < 512 * g.csize {
      WithinCluster(p, g.csize, i, rest);
    }
  }

  /** The position set, and the buffer loaded if the position is inside a sector. */
  method SeekEnd(fp: Fil, rest: nat, ghost i: nat)
    requires WalkAt(fp, i) && fp.fs.g.csize > 0 && 0 < rest <= 512 * fp.fs.g.csize && fp.fptr + rest < WORD32
    modifies fp`fptr, fp`dsect, fp`dirty, fp.buf, fp.fs`disk
    ensures fp.Live() && fp.fptr == old(fp.fptr) + rest && ClustersFor(fp.fs.g, fp.fptr) == i + 1
    ensures fp.fs.Fat() == old(fp.fs.Fat())
    ensures Bytes(fp.View(), fp.fsize) == old(Bytes(fp.View(), fp.fsize))
    ensures Forward(fp.fs.g, old(fp.Around()), fp.Around())
  {
    hide FatOf, HealthOf, ByteAt, Bytes, OnDrive, FatFits, IsChain, InFat, SectorAt, IsPow2, Owns, Forward, Good,
      Sound, Lba, Mapped, Holds, NoWorse, Framed, ClustersFor, FatFs.Ordered;
    ForwardRefl(fp.fs.g, fp.Around());
    EndIndex(fp.fs.g, fp.fptr, i, rest);
    fp.fptr := fp.fptr + rest;
    if fp.fptr % 512 != 0 {
      SeekBuffer(fp, i, rest / 512);
    }
  }

  method SeekSector(fp: Fil, ghost i: nat, o: nat) returns (nsect: nat)
    requires fp.Base() && i < |fp.chain| && fp.clust == fp.chain[i] && fp.fs.g.csize > 0
    requires fp.fptr / 512 / fp.fs.g.csize == i && fp.fptr / 512 % fp.fs.g.csize == o
    ensures Reaches(fp.fs.g, fp.chain, fp.fptr / 512) && nsect == Lba(fp.fs.g, fp.chain, fp.fptr / 512)
  {
    hide FatOf, Owns, InFat, OnDrive, IsPow2, IsChain;
    nsect := fp.fs.Clust2Sect(fp.clust) + o;
  }

  /** Result of f_lseek to `target` on a file whose content was c. */
  ghost predicate SeekDone(fp: Fil, res: FResult, c: seq<Byte>, target: nat)
    reads fp, fp.buf, fp.fs, fp.fs.win
  {
    && fp.fs.Valid() && (res == OK || res == IntErr) && fp.err == res
    && (res == IntErr ==> !NoErrorMark(fp.fs.Fat()))
    && (res == OK ==>
         && fp.Valid() && fp.fptr <= target && (fp.fptr < target ==> Clipped(fp))
         && fp.fsize == Max(|c|, fp.fptr) && fp.Contents()[..|c|] == c)
  }

  /** The size follows the position if the file was extended. */
  method SeekFinish(fp: Fil)
    requires fp.Live()
    modifies fp`fsize, fp`written
    ensures fp.Valid() && fp.fsize == Max(old(fp.fsize), fp.fptr)
    ensures fp.written == (old(fp.written) || fp.fsize > old(fp.fsize))
    ensures fp.Contents()[..old(fp.fsize)] == old(Bytes(fp.View(), fp.fsize))
    ensures fp.Around() == old(fp.Around())
  {
    hide FatOf, HealthOf, ByteAt, Bytes, OnDrive, Mapped, FatFits, Sound, IsChain, InFat, SectorAt, Lba, IsPow2,
      Owns;
    ghost var v, m := fp.View(), fp.fsize;
    if fp.fptr > fp.fsize {
      fp.fsize := fp.fptr;
      fp.written := true;
    }
    BytesPrefix(v, m, fp.fsize);
  }

  /** The part of f_lseek for a target other than 0: r == 1 on an error mark. */
  method SeekTo(fp: Fil, ofs: nat) returns (r: nat)
    requires fp.Valid() && 0 < ofs < WORD32 && (!fp.canWrite ==> ofs <= fp.fsize)
    modifies fp`chain, fp`clust, fp`sclust, fp`fptr, fp`dsect, fp`dirty, fp.buf, fp.fs, fp.fs.win
    ensures fp.Base() && Holds(fp.View(), fp.fsize) && fp.fs.g.csize > 0
    ensures Bytes(fp.View(), fp.fsize) == old(fp.Contents())
    ensures r == 1 ==> !NoErrorMark(fp.fs.Fat())
    ensures r != 1 ==> fp.Live() && fp.fptr <= ofs && (fp.fptr < ofs ==> Clipped(fp))
    ensures r != 1 ==> Tight(fp.fs.g, |old(fp.chain)|, fp.chain, fp.fptr)
    ensures Forward(fp.fs.g, old(fp.Around()), fp.Around())
  {
    hide FatOf, HealthOf, ByteAt, Bytes, OnDrive, Mapped, FatFits, IsChain, InFat, NoErrorMark, SectorAt, Lba,
      IsPow2, Owns, Forward, Good, NoneFree;
    TopIndex(fp.fs.g);
    var rest;
    ghost var i;
    r, rest, i := SeekStart(fp, ofs);
    if r < 2 {
      ZeroMod(0, fp.fs.g.csize);
      return;
    }
    ghost var a, p := fp.Around(), fp.fptr;
    r := SeekWalk(fp, rest, i);
    if r != 1 {
      TightFrom(fp.fs.g, |old(fp.chain)|, a.chain, p, i, fp.chain, fp.fptr);
    }
    ForwardTrans(fp.fs.g, old(fp.Around()), a, fp.Around());
  }

  /** The end of the last cluster is a position without one. */
  lemma WalkEnds(fp: Fil, i: nat)
    requires WalkAt(fp, i) && i + 1 == |fp.chain| && fp.fs.g.csize > 0
    ensures AtEnd(fp.fs.g, fp.chain, fp.fptr + 512 * fp.fs.g.csize)
  {
    hide FatOf, IsChain, Owns, InFat, OnDrive, Good, Sound, Holds, Mapped;
    NextStart(fp.fptr, fp.fs.g.csize, i);
  }

  /** A walk that ends behind the start p of cluster i needed that cluster anyway. */
  lemma TightFrom(g: Geometry, n: nat, xs: seq<nat>, p: nat, i: nat, ys: seq<nat>, q: nat)
    requires g.csize > 0 && p % 512 == 0 && p / 512 / g.csize == i && p < q
    requires Walked(n, xs, i) && Tight(g, |xs|, ys, q)
    ensures Tight(g, n, ys, q)
  {
    ClustersForMore(g, p + 1, q);
  }

  method SeekWalk(fp: Fil, ofs: nat, ghost start: nat) returns (r: nat)
    requires WalkAt(fp, start) && ofs > 0 && fp.fptr + ofs < WORD32 && fp.fs.g.csize > 0
    requires !fp.canWrite ==> fp.fptr + ofs <= fp.fsize
    modifies fp`chain, fp`clust, fp`fptr, fp`dsect, fp`dirty, fp.buf, fp.fs, fp.fs.win
    ensures fp.Base() && Holds(fp.View(), fp.fsize) && Bytes(fp.View(), fp.fsize) == old(Bytes(fp.View(), fp.fsize))
    ensures r != 1 ==> Tight(fp.fs.g, |old(fp.chain)|, fp.chain, fp.fptr) && fp.fptr > old(fp.fptr)
    ensures r == 1 ==> !NoErrorMark(fp.fs.Fat())
    ensures r != 1 ==> fp.Live() && fp.fptr <= old(fp.fptr) + ofs && (fp.fptr < old(fp.fptr) + ofs ==> Clipped(fp))
    ensures Forward(fp.fs.g, old(fp.Around()), fp.Around())
  {
    hide *;
    WalkFacts(fp, start);
    var rest;
    ghost var i;
    r, rest, i := SeekLoop(fp, ofs, start);
    if r != 1 {
      ghost var a, p := fp.Around(), fp.fptr;
      if r == 0 {
        WalkEnds(fp, i);
      }
      SeekEnd(fp, rest, i);
      WalkEnded(fp, |old(fp.chain)|, i);
      ForwardTrans(fp.fs.g, old(fp.Around()), a, fp.Around());
    }
  }

  lemma WalkEnded(fp: Fil, n: nat, i: nat)
    requires fp.Live() && fp.fs.g.csize > 0 && Walked(n, fp.chain, i) && ClustersFor(fp.fs.g, fp.fptr) == i + 1
    ensures Tight(fp.fs.g, n, fp.chain, fp.fptr) && fp.Base() && Holds(fp.View(), fp.fsize)
    ensures NoneFree(fp.fs.Fat()) && AtEnd(fp.fs.g, fp.chain, fp.fptr) ==> Clipped(fp)
  {
    hide FatOf, IsChain, Owns, InFat, OnDrive, Good, Sound, Mapped, NoneFree, AtEnd;
  }

  /**
  f_lseek. In read mode the position is clipped to the size. In write mode the file
  is extended, and keeps the content it had; the position falls short of the target
  only when the volume is full, and then at the end of the last cluster. The chain gets the clusters
  the position needs and no more.
  */
  method Seek(fp: Fil, ofs: nat) returns (res: FResult)
    requires fp.err == OK ==> fp.Valid()
    requires ofs < WORD32
    modifies fp`chain, fp`clust, fp`sclust, fp`fptr, fp`fsize, fp`written, fp`err, fp`dsect, fp`dirty, fp.buf, fp.fs, fp.fs.win
    ensures old(fp.err) != OK ==> res == old(fp.err) && unchanged(fp, fp.buf, fp.fs, fp.fs.win)
    ensures old(fp.err) == OK ==>
      SeekDone(fp, res, old(fp.Contents()), if ofs > old(fp.fsize) && !fp.canWrite then old(fp.fsize) else ofs)
    ensures old(fp.err) == OK ==> fp.Base() && Forward(fp.fs.g, old(fp.Around()), fp.Around())
    ensures old(fp.err) == OK && res == OK ==> Tight(fp.fs.g, |old(fp.chain)|, fp.chain, fp.fptr)
    ensures old(fp.err) == OK ==> fp.written == (old(fp.written) || (res == OK && fp.fsize > old(fp.fsize)))
  {
    hide FatOf, HealthOf, ByteAt, Bytes, OnDrive, Mapped, FatFits, IsChain, InFat, NoErrorMark, SectorAt, Lba,
      IsPow2, Owns, Forward, Good, NoneFree, Sound;
    if fp.err != OK {
      return fp.err;
    }
    var target := ofs;
    if ofs > fp.fsize && !fp.canWrite {
      target := fp.fsize;
    }
    ForwardRefl(fp.fs.g, fp.Around());
    TopIndex(fp.fs.g);
    if target == 0 {
      fp.fptr := 0;
    } else {
      var r := SeekTo(fp, target);
      if r == 1 {
        fp.err := IntErr;
        return IntErr;
      }
    }
    SeekFinish(fp);
    res := OK;
  }
}
