/**
f_truncate of fatfs/src/ff.c: the file is cut at the position and every cluster
behind it is freed.
*/
module FileTruncate {
  import opened Bits
  import opened Layout
  import opened Entries
  import opened FatMap
  import opened FatRuns
  import opened Volume
  import opened Allocator
  import opened FileView
  import opened FileObject
  import opened FileWrite

  /** ClustersFor rounds up the number of bytes to whole clusters. */
  lemma ClustersForIsCeiling(g: Geometry, n: nat)
    requires g.csize > 0
    ensures var k := ClustersFor(g, n);
      n <= 512 * (k * g.csize) && (k > 0 ==> 512 * ((k - 1) * g.csize) < n)
  {
    if n > 0 {
      var c, j := g.csize, (n - 1) / 512;
      var q := j / c;
      ModRange(j, c);
      assert j == q * c + j % c;
      assert (q + 1) * c == q * c + c;
    }
  }

  /** The table after f_truncate: the first k clusters of the chain stay. */
  ghost predicate TailFreed(f: Table, h: Table, xs: seq<nat>, k: nat)
  {
    && |h| == |f| && k <= |xs|
    && (k > 0 ==> IsChain(h, xs[..k]))
    && (forall c :: c in xs[k..] && c < |f| ==> h[c] == 0)
    && (forall c :: 0 <= c < |f| && c !in xs ==> h[c] == f[c])
  }

  lemma CutFrees(f: Table, xs: seq<nat>, k: nat, end: nat)
    requires IsChain(f, xs) && 0 < k <= |xs| && end >= |f|
    ensures TailFreed(f, if k == |xs| then f else FreeFrom(f[xs[k - 1] := end], xs[k]).table, xs, k)
  {
    if k < |xs| {
      CutTable(f, xs, k, end);
    } else {
      assert xs[..k] == xs && xs[k..] == [];
    }
  }

  lemma RemoveFrees(f: Table, xs: seq<nat>)
    requires IsChain(f, xs)
    ensures FreeFrom(f, xs[0]).ok && TailFreed(f, FreeFrom(f, xs[0]).table, xs, 0)
  {
    FreeFromChain(f, xs);
    assert xs[0..] == xs;
  }

  /** The FAT part of f_truncate; the buffer may still be dirty for a sector that is no longer the file's. */
  method CutChain(fp: Fil) returns (res: FResult)
    requires fp.Live() && fp.fs.g.csize > 0 && Reaches(fp.fs.g, fp.chain, fp.fptr / 512)
    modifies fp.fs, fp.fs.win
    ensures fp.fs.Valid() && res == OK && InFat(fp.fs.g, fp.fs.winsect)
    ensures ClustersFor(fp.fs.g, fp.fptr) <= |fp.chain|
    ensures TailFreed(old(fp.fs.Fat()), fp.fs.Fat(), fp.chain, ClustersFor(fp.fs.g, fp.fptr))
    ensures FatOnly(fp.fs.g, old(fp.fs.Image()), fp.fs.Image())
    ensures NoWorseIf(fp.fptr > 0 || NoLinkTo(old(fp.fs.Fat()), fp.sclust), old(HealthOf(fp.fs)), HealthOf(fp.fs))
  {
    hide FatOf, HealthOf, ByteAt, Bytes, OnDrive, FatFits, IsChain, InFat, SectorAt, Lba, IsPow2, Owns, Good,
      NoLinkTo, FreeFrom, FatOnly, EndMark, TailFreed, AllSafe, CountExact, MirrorsAgree;
    ghost var f, k := fp.fs.Fat(), ClustersFor(fp.fs.g, fp.fptr);
    EndMarkEnds(fp.fs.g);
    if fp.fptr == 0 {
      RemoveFrees(f, fp.chain);
      res := DropChain(fp.fs, fp.sclust, fp.chain);
    } else {
      CutFrees(f, fp.chain, k, EndMark(fp.fs.g));
      res := CutTail(fp.fs, fp.clust, fp.chain, k);
    }
  }

  /** remove_chain on a whole chain. */
  method DropChain(fs: FatFs, start: nat, ghost xs: seq<nat>) returns (res: FResult)
    requires fs.Valid() && IsChain(fs.Fat(), xs) && start == xs[0]
    modifies fs, fs.win
    ensures fs.Valid() && res == OK && InFat(fs.g, fs.winsect) && FatOnly(fs.g, old(fs.Image()), fs.Image())
    ensures fs.Fat() == FreeFrom(old(fs.Fat()), start).table
    ensures NoWorseIf(NoLinkTo(old(fs.Fat()), start), old(HealthOf(fs)), HealthOf(fs))
  {
    hide FatOf, FatFits, InFat, NoLinkTo, FreeFrom, FreeSteps, FatOnly, AllSafe, CountExact, MirrorsAgree;
    RemoveFrees(fs.Fat(), xs);
    assert IsCluster(fs.Fat(), start);
    res := RemoveChain(fs, start);
    FatOnlyMirrors(fs.g, old(fs.Image()), fs.Image());
  }

  /** Write-back of the buffer after the cut, wherever its sector now belongs. */
  method FlushAfterCut(fp: Fil)
    requires fp.fs.Valid() && fp.buf.Length == 512 && fp.buf != fp.fs.win && InFat(fp.fs.g, fp.fs.winsect)
    requires fp.dirty ==> fp.fs.g.database <= fp.dsect < fp.fs.g.sectors
    modifies fp`dirty, fp.fs`disk
    ensures fp.fs.Valid() && !fp.dirty && fp.fs.Fat() == old(fp.fs.Fat())
    ensures fp.fs.Image() == if old(fp.dirty) then old(fp.fs.Image())[fp.dsect := fp.buf[..]] else old(fp.fs.Image())
    ensures NoWorse(old(HealthOf(fp.fs)), HealthOf(fp.fs))
  {
    hide FatOf, AllSafe, FreeCount;
    if fp.dirty {
      ghost var img := fp.fs.Image();
      fp.fs.WriteSectors(fp.dsect, fp.buf[..]);
      BlitFat(fp.fs.g, img, fp.dsect, fp.buf[..]);
      BlitOne(img, fp.dsect, fp.buf[..]);
      fp.dirty := false;
    }
  }

  /** What a successful cut leaves: content, chain, table and the rest of the volume. */
  ghost predicate CutDone(fp: Fil, c: seq<Byte>, a: Setting)
    reads fp, fp.buf, fp.fs, fp.fs.win
  {
    && fp.Valid() && fp.fsize == fp.fptr <= |c| && fp.Contents() == c[..fp.fptr]
    && fp.fs.g.csize > 0 && Mapped(fp.fs.g, a.chain) && ClustersFor(fp.fs.g, fp.fptr) <= |a.chain|
    && fp.chain == a.chain[..ClustersFor(fp.fs.g, fp.fptr)]
    && TailFreed(a.fat, fp.fs.Fat(), a.chain, ClustersFor(fp.fs.g, fp.fptr))
    && Elsewhere(fp.fs.g, a.chain, a.img, fp.fs.Image()) && InFat(fp.fs.g, fp.fs.winsect)
  }

  lemma PrefixMapped(g: Geometry, xs: seq<nat>, k: nat)
    requires Mapped(g, xs) && k <= |xs|
    ensures Mapped(g, xs[..k])
  {
    hide Sound;
  }

  /** The cut of a file at a position before its end: the size first, then the clusters. */
  method Cut(fp: Fil) returns (res: FResult)
    requires fp.Valid() && fp.fptr < fp.fsize && fp.err == OK
    modifies fp`chain, fp`sclust, fp`fsize, fp`written, fp`dirty, fp.fs, fp.fs.win
    ensures res == OK && CutDone(fp, old(fp.Contents()), old(fp.Around())) && fp.written
    ensures NoWorseIf(fp.fptr > 0 || NoLinkTo(old(fp.fs.Fat()), old(fp.sclust)), old(HealthOf(fp.fs)), HealthOf(fp.fs))
  {
    hide FatOf, HealthOf, ByteAt, Bytes, OnDrive, FatFits, IsChain, InFat, SectorAt, Lba, IsPow2, Owns, Good,
      NoLinkTo, TailFreed, Elsewhere, Mapped, Sound, CutDone;
    ghost var v, c := fp.View(), fp.Contents();
    TopIndex(fp.fs.g);
    HoldsBelow(v, fp.fptr, fp.fsize);
    BytesPrefix2(v, fp.fptr, fp.fsize);
    fp.fsize := fp.fptr;
    fp.written := true;
    res := FreeClusters(fp, c);
  }

  method FreeClusters(fp: Fil, ghost c: seq<Byte>) returns (res: FResult)
    requires fp.Valid() && fp.fsize == fp.fptr <= |c| && fp.fs.g.csize > 0 && Reaches(fp.fs.g, fp.chain, fp.fptr / 512)
    requires fp.Contents() == c[..fp.fptr]
    modifies fp`chain, fp`sclust, fp`dirty, fp.fs, fp.fs.win
    ensures res == OK && CutDone(fp, c, old(fp.Around()))
    ensures NoWorseIf(fp.fptr > 0 || NoLinkTo(old(fp.fs.Fat()), old(fp.sclust)), old(HealthOf(fp.fs)), HealthOf(fp.fs))
  {
    hide FatOf, HealthOf, ByteAt, Bytes, OnDrive, FatFits, IsChain, InFat, SectorAt, IsPow2, Owns, Good, NoLinkTo,
      FatOnly, TailFreed, Elsewhere, Mapped, Sound, Lba, CutDone, Forward, AllSafe, MirrorsAgree, FreeCount, FatFs.Ordered;
    ghost var v, a := fp.View(), fp.Around();
    res := CutChain(fp);
    if fp.fptr == 0 {
      fp.sclust := 0;
    }
    ghost var img := fp.fs.Image();
    FlushAfterCut(fp);
    fp.chain := fp.chain[..ClustersFor(fp.fs.g, fp.fptr)];
    AfterCut(fp, v, img, a, c);
  }

  lemma BytesPrefix2(v: FileView.View, m: nat, n: nat)
    requires Framed(v) && Holds(v, n) && m <= n
    ensures Holds(v, m) && Bytes(v, m) == Bytes(v, n)[..m]
  {
    HoldsLess(v, m, n);
    BytesPrefix(v, m, n);
  }

  /** Facts at hand after the cut: v and a describe the file before, img the drive before the flush. */
  ghost predicate CutState(fp: Fil, v: FileView.View, img: Image, a: Setting, k: nat)
    reads fp, fp.buf, fp.fs, fp.fs.win
  {
    && fp.fs.Valid() && Sound(fp.fs.g) && fp.buf.Length == 512 && fp.buf != fp.fs.win && InFat(fp.fs.g, fp.fs.winsect)
    && Good(v) && v.g == fp.fs.g && v.chain == a.chain && v.img == a.img && v.dsect == fp.dsect && v.buf == fp.buf[..]
    && OnDrive(v.g, img) && FatOnly(v.g, v.img, img) && !fp.dirty
    && fp.fs.Image() == (if v.dirty then img[v.dsect := v.buf] else img)
    && TailFreed(a.fat, fp.fs.Fat(), a.chain, k) && fp.chain == a.chain[..k]
    && fp.fptr == fp.fsize < WORD32
  }

  lemma CutBase(fp: Fil, v: FileView.View, img: Image, a: Setting, k: nat)
    requires CutState(fp, v, img, a, k)
    ensures fp.Base() && fp.View() == Shrunk(v, fp.chain, img)
  {
    hide FatOf, Owns, InFat, Elsewhere, IsChain, FatFits, Sound;
    PrefixMapped(v.g, v.chain, k);
    FatIsClear(v.g, fp.chain, fp.fs.winsect);
  }

  lemma CutElsewhere(fp: Fil, v: FileView.View, img: Image, a: Setting, k: nat)
    requires CutState(fp, v, img, a, k) && (v.dirty ==> Owns(v.g, v.chain, v.dsect))
    ensures Elsewhere(v.g, v.chain, v.img, fp.fs.Image())
  {
    hide FatOf, Owns, InFat, IsChain, TailFreed;
    FatChangeElsewhere(v.g, v.chain, v.img, img);
  }

  /** The last cluster kept is the current one. */
  lemma CutIndexes(g: Geometry, xs: seq<nat>, p: nat, k: nat)
    requires Mapped(g, xs) && p > 0 && Reaches(g, xs, (p - 1) / 512) && k == ClustersFor(g, p) && k <= |xs|
    ensures Reaches(g, xs[..k], (p - 1) / 512) && xs[..k][(p - 1) / 512 / g.csize] == xs[(p - 1) / 512 / g.csize]
    ensures Mapped(g, xs[..k])
    ensures p % 512 != 0 ==>
      Reaches(g, xs, p / 512) && Reaches(g, xs[..k], p / 512) && Lba(g, xs[..k], p / 512) == Lba(g, xs, p / 512)
  {
    PrefixMapped(g, xs, k);
    if p % 512 != 0 {
      InnerIndex(p);
    }
  }

  lemma AfterCut(fp: Fil, v: FileView.View, img: Image, a: Setting, c: seq<Byte>)
    requires fp.fs.g.csize > 0 && CutState(fp, v, img, a, ClustersFor(fp.fs.g, fp.fptr))
    requires v.dirty ==> Owns(v.g, v.chain, v.dsect)
    requires fp.fptr <= |c| && Holds(v, fp.fptr) && Bytes(v, fp.fptr) == c[..fp.fptr]
    requires fp.fptr > 0 ==> fp.clust == v.chain[(fp.fptr - 1) / 512 / v.g.csize]
    requires fp.fptr % 512 != 0 ==> Reaches(v.g, v.chain, fp.fptr / 512) && fp.dsect == Lba(v.g, v.chain, fp.fptr / 512)
    requires fp.StartOk()
    ensures CutDone(fp, c, a)
  {
    hide FatOf, Owns, InFat, IsChain, Elsewhere, FatFits, Sound, ByteAt, Bytes, Lba, SameOutsideFat;
    var k := ClustersFor(fp.fs.g, fp.fptr);
    CutBase(fp, v, img, a, k);
    CutElsewhere(fp, v, img, a, k);
    if fp.fptr > 0 {
      CutIndexes(v.g, v.chain, fp.fptr, k);
    }
    ShrinkKeeps(v, fp.chain, img, fp.fptr);
  }

  /**
  f_truncate. A file with bytes behind the position loses them and every cluster it
  no longer needs: exactly ClustersFor(fptr) clusters stay in the chain, the others
  are free. A position at the end changes nothing.
  */
  method Truncate(fp: Fil) returns (res: FResult)
    requires fp.err == OK ==> fp.Valid()
    modifies fp`chain, fp`sclust, fp`fsize, fp`written, fp`dirty, fp.fs, fp.fs.win
    ensures old(fp.err) != OK ==> res == old(fp.err) && unchanged(fp, fp.fs, fp.fs.win)
    ensures old(fp.err) == OK && !fp.canWrite ==> res == Denied && unchanged(fp, fp.fs, fp.fs.win)
    ensures old(fp.err) == OK && fp.canWrite && fp.fptr == old(fp.fsize) ==> res == OK && unchanged(fp, fp.fs, fp.fs.win)
    ensures old(fp.err) == OK && fp.canWrite && fp.fptr < old(fp.fsize) ==>
      && res == OK && CutDone(fp, old(fp.Contents()), old(fp.Around())) && fp.written
      && NoWorseIf(fp.fptr > 0 || NoLinkTo(old(fp.fs.Fat()), old(fp.sclust)), old(HealthOf(fp.fs)), HealthOf(fp.fs))
  {
    hide *;
    if fp.err != OK {
      return fp.err;
    }
    if !fp.canWrite {
      return Denied;
    }
    res := OK;
    if fp.fsize > fp.fptr {
      res := Cut(fp);
    } else {
      NotBehind(fp);
    }
  }

  lemma NotBehind(fp: Fil)
    requires fp.Valid()
    ensures fp.fptr <= fp.fsize
  {
  }

  /** After a cut every file in other clusters has its chain and its bytes. */
  lemma OtherFileSurvivesCut(fp: Fil, c: seq<Byte>, a: Setting, v: FileView.View, n: nat)
    requires CutDone(fp, c, a) && Good(v) && v.g == fp.fs.g && v.img == a.img && Holds(v, n)
    requires |a.fat| == v.g.nFatEnt && IsChain(a.fat, v.chain)
    requires forall x :: x in v.chain ==> x !in a.chain
    ensures IsChain(fp.fs.Fat(), v.chain)
    ensures var w := v.(img := fp.fs.Image());
            OnDrive(w.g, w.img) && Holds(w, n) && Bytes(w, n) == Bytes(v, n)
  {
    hide FatOf, Bytes, Holds, Good, Elsewhere, Mapped, Sound;
    OutsideStays(v.g, a.chain, a.fat, fp.fs.Fat(), fp.fs.Image(), v, n);
  }
}
