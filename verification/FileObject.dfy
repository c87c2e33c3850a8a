/**
The open file object FIL of fatfs/src/ff.h and the steps its operations share:
flushing the sector buffer and following or stretching the cluster chain.
*/
module FileObject {
  import opened Bits
  import opened Layout
  import opened Entries
  import opened FatMap
  import opened FatRuns
  import opened Volume
  import opened Allocator
  import opened FileView

  lemma FatIsClear(g: Geometry, chain: seq<nat>, sect: nat)
    requires Mapped(g, chain) && InFat(g, sect)
    ensures !Owns(g, chain, sect) && sect < g.database
  {
  }

  lemma ChainMapped(g: Geometry, f: Table, xs: seq<nat>)
    requires Sound(g) && |f| == g.nFatEnt && (xs == [] || IsChain(f, xs))
    ensures Mapped(g, xs)
  {
    if xs != [] {
      ChainDistinct(f, xs);
    }
  }

  /** Entries of clusters outside the chain are as before. */
  predicate OthersKept(f: Table, h: Table, chain: seq<nat>) {
    |h| == |f| && forall c :: 0 <= c < |f| && c !in chain ==> h[c] == f[c]
  }

  /** Clusters of ys that are not in xs are free. */
  predicate TakenFree(f: Table, xs: seq<nat>, ys: seq<nat>) {
    forall c :: c in ys && c !in xs && 2 <= c < |f| ==> f[c] == 0
  }

  /** What a file operation leaves to the rest of the volume, and where window and sector buffer stand. */
  datatype Setting = Setting(fat: Table, img: Image, health: Health, chain: seq<nat>, window: nat, dsect: nat)

  /** The sector buffer is empty or stands for a sector of the file. */
  ghost predicate AtHome(g: Geometry, s: Setting)
    requires Mapped(g, s.chain)
  {
    s.dsect == 0 || Owns(g, s.chain, s.dsect)
  }

  /** The window stays, or moves into the FAT; the sector buffer stays with the file. */
  ghost predicate Buffered(g: Geometry, a: Setting, b: Setting)
    requires Mapped(g, a.chain) && Mapped(g, b.chain)
  {
    (b.window == a.window || InFat(g, b.window)) && (AtHome(g, a) ==> AtHome(g, b))
  }

  /** The chain only grew, by free clusters, nothing outside the file changed, and nothing standing was lost. */
  ghost predicate Forward(g: Geometry, a: Setting, b: Setting) {
    && |a.fat| == |b.fat| == g.nFatEnt
    && Mapped(g, a.chain) && Mapped(g, b.chain) && a.chain <= b.chain && TakenFree(a.fat, a.chain, b.chain)
    && OthersKept(a.fat, b.fat, b.chain) && Elsewhere(g, b.chain, a.img, b.img) && NoWorse(a.health, b.health)
    && Buffered(g, a, b)
  }

  /** The chain only lost clusters at its end, and nothing outside the file changed. */
  ghost predicate Backward(g: Geometry, a: Setting, b: Setting) {
    && |a.fat| == |b.fat| == g.nFatEnt
    && Mapped(g, a.chain) && Mapped(g, b.chain) && b.chain <= a.chain
    && OthersKept(a.fat, b.fat, a.chain) && Elsewhere(g, a.chain, a.img, b.img)
    && (b.window == a.window || InFat(g, b.window)) && b.dsect == a.dsect
  }

  lemma ForwardRefl(g: Geometry, a: Setting)
    requires Mapped(g, a.chain) && |a.fat| == g.nFatEnt
    ensures Forward(g, a, a)
  {
  }

  /** A store into the file's own sectors. */
  lemma ForwardData(g: Geometry, a: Setting, b: Setting)
    requires Mapped(g, a.chain) && b.chain == a.chain && b.fat == a.fat && |a.fat| == g.nFatEnt
    requires Elsewhere(g, a.chain, a.img, b.img) && NoWorse(a.health, b.health)
    requires b.window == a.window && b.dsect == a.dsect
    ensures Forward(g, a, b)
  {
  }

  /** The sector buffer moved to a sector of the file. */
  lemma ForwardBuffer(g: Geometry, a: Setting, s: nat)
    requires Mapped(g, a.chain) && |a.fat| == g.nFatEnt && Owns(g, a.chain, s)
    ensures Forward(g, a, a.(dsect := s))
  {
  }

  /** The window moved into the FAT. */
  lemma ForwardWindow(g: Geometry, a: Setting, s: nat)
    requires Mapped(g, a.chain) && |a.fat| == g.nFatEnt && InFat(g, s)
    ensures Forward(g, a, a.(window := s))
  {
  }

  lemma ForwardTrans(g: Geometry, a: Setting, b: Setting, c: Setting)
    requires Forward(g, a, b) && Forward(g, b, c)
    ensures Forward(g, a, c)
  {
    hide Mapped, Elsewhere, AtHome, InFat;
    ElsewhereTrans(g, b.chain, c.chain, a.img, b.img, c.img);
    assert forall x :: x in b.chain ==> x in c.chain;
  }

  /**
  Another file, whose clusters the operation does not use, keeps its chain and its
  bytes (v is its view, n its size, xs the clusters the operation uses).
  */
  lemma OutsideStays(g: Geometry, xs: seq<nat>, f: Table, h: Table, img: Image, v: FileView.View, n: nat)
    requires Mapped(g, xs) && OthersKept(f, h, xs) && Elsewhere(g, xs, v.img, img)
    requires Good(v) && v.g == g && OnDrive(g, img) && Holds(v, n)
    requires |f| == g.nFatEnt && IsChain(f, v.chain)
    requires forall c :: c in v.chain ==> c !in xs
    ensures IsChain(h, v.chain)
    ensures Holds(v.(img := img), n) && Bytes(v.(img := img), n) == Bytes(v, n)
  {
    ChainFrame(f, h, v.chain);
    var w := v.(img := img);
    forall j: nat | Reaches(v.g, v.chain, j)
      ensures SectorAt(w, j) == SectorAt(v, j)
    {
      NotOwned(g, xs, v.chain, j);
    }
    SameSectors(v, w, n);
  }

  /** The same for every operation that only lets its own file grow; the files stay apart. */
  lemma OtherFileStays(g: Geometry, a: Setting, b: Setting, v: FileView.View, n: nat)
    requires Forward(g, a, b) && Good(v) && v.g == g && v.img == a.img && OnDrive(g, b.img) && Holds(v, n)
    requires IsChain(a.fat, v.chain)
    requires forall c :: c in v.chain ==> c !in a.chain
    ensures forall c :: c in v.chain ==> c !in b.chain
    ensures IsChain(b.fat, v.chain)
    ensures Holds(v.(img := b.img), n) && Bytes(v.(img := b.img), n) == Bytes(v, n)
  {
    StaysApart(a.fat, a.chain, b.chain, v.chain);
    OutsideStays(g, b.chain, a.fat, b.fat, b.img, v, n);
  }

  /** Free clusters are in no other chain. */
  lemma StaysApart(f: Table, xs: seq<nat>, ys: seq<nat>, zs: seq<nat>)
    requires TakenFree(f, xs, ys) && (zs == [] || IsChain(f, zs))
    requires forall c :: c in zs ==> c !in xs
    ensures forall c :: c in zs ==> c !in ys
  {
    forall c | c in zs
      ensures c !in ys
    {
      ChainMember(f, zs, c);
    }
  }

  lemma NotOwned(g: Geometry, xs: seq<nat>, ys: seq<nat>, j: nat)
    requires Mapped(g, xs) && Mapped(g, ys) && Reaches(g, ys, j)
    requires forall c :: c in ys ==> c !in xs
    ensures !Owns(g, xs, Lba(g, ys, j))
  {
    hide IsPow2, FatFits;
    assert ys[j / g.csize] in ys;
    forall i: nat | Reaches(g, xs, i)
      ensures Lba(g, xs, i) != Lba(g, ys, j)
    {
      ModRange(i, g.csize);
      ModRange(j, g.csize);
      if Lba(g, xs, i) == Lba(g, ys, j) {
        SameCluster(g, xs[i / g.csize], i % g.csize, ys[j / g.csize], j % g.csize);
      }
    }
  }

  /** A clean buffer that shows a sector of the file still does. */
  lemma OutsideGood(xs: seq<nat>, v: FileView.View, img: Image)
    requires Good(v) && Mapped(v.g, xs) && OnDrive(v.g, img) && Elsewhere(v.g, xs, v.img, img)
    requires v.dsect == 0 || Owns(v.g, v.chain, v.dsect)
    requires Disjoint(v.chain, xs)
    ensures Good(v.(img := img))
  {
    hide Mapped, Lba;
    if v.dsect != 0 && !v.dirty {
      var j: nat :| Reaches(v.g, v.chain, j) && Lba(v.g, v.chain, j) == v.dsect;
      NotOwned(v.g, xs, v.chain, j);
    }
  }

  lemma ChainOutside(f: Table, h: Table, xs: seq<nat>, ys: seq<nat>)
    requires OthersKept(f, h, xs) && Disjoint(ys, xs) && (ys == [] || IsChain(f, ys))
    ensures ys == [] || IsChain(h, ys)
  {
    if ys != [] {
      ChainFrame(f, h, ys);
    }
  }

  /** The bytes of a file in other clusters, also of one without any. */
  lemma OutsideBytes(xs: seq<nat>, f: Table, h: Table, v: FileView.View, img: Image, n: nat)
    requires Good(v) && Mapped(v.g, xs) && OnDrive(v.g, img) && Elsewhere(v.g, xs, v.img, img) && Holds(v, n)
    requires |f| == v.g.nFatEnt && OthersKept(f, h, xs) && (v.chain == [] || IsChain(f, v.chain))
    requires Disjoint(v.chain, xs)
    ensures Framed(v.(img := img)) && Holds(v.(img := img), n) && Bytes(v.(img := img), n) == Bytes(v, n)
  {
    hide Mapped, Lba, Elsewhere, OthersKept, IsChain;
    if v.chain == [] {
      assert n == 0;
    } else {
      OutsideStays(v.g, xs, f, h, img, v, n);
    }
  }

  /** What a file is to its user: bytes and position, or an object that reports its error. */
  datatype Content = Open(bytes: seq<Byte>, pos: nat) | Failed(error: FResult)

  /** Clusters needed for n bytes. */
  function ClustersFor(g: Geometry, n: nat): nat
    requires g.csize > 0
  {
    if n == 0 then 0
    else
      var q := (n - 1) / 512 / g.csize;
      DivNonNeg((n - 1) / 512, g.csize);
      q + 1
  }

  lemma DivNonNeg(a: nat, d: nat)
    requires d > 0
    ensures a / d >= 0
  {
  }

  lemma ClustersForMore(g: Geometry, p: nat, q: nat)
    requires g.csize > 0 && p <= q
    ensures ClustersFor(g, p) <= ClustersFor(g, q)
  {
    if p > 0 {
      DivMonotone((p - 1) / 512, (q - 1) / 512, g.csize);
    }
  }

  class Fil {
    const fs: FatFs
    const buf: array<Byte>
    const canRead: bool   // FA_READ
    const canWrite: bool  // FA_WRITE
    var dirty: bool       // FA__DIRTY
    var written: bool     // FA__WRITTEN
    var err: FResult
    var fptr: nat
    var fsize: nat
    var sclust: nat
    var clust: nat
    var dsect: nat
    ghost var chain: seq<nat>

    /** The fields and the drive fit together; says nothing about position, size or buffer content. */
    ghost predicate Base()
      reads this, buf, fs, fs.win
    {
      && fs.Valid() && Sound(fs.g) && buf.Length == 512 && buf != fs.win
      && (chain == [] || IsChain(fs.Fat(), chain)) && Mapped(fs.g, chain)
      && !Owns(fs.g, chain, fs.winsect)
      && (dsect != 0 ==> fs.g.database <= dsect < fs.g.sectors)
      && (dirty ==> dsect != 0 && Owns(fs.g, chain, dsect))
      && fptr < WORD32 && fsize < WORD32
    }

    ghost function View(): (v: FileView.View)
      requires Base()
      reads this, buf, fs, fs.win
      ensures Framed(v)
    {
      FileView.View(fs.g, fs.Image(), chain, dsect, dirty, buf[..])
    }

    ghost function Around(): Setting
      requires Base()
      reads this, buf, fs, fs.win
    {
      Setting(fs.Fat(), fs.Image(), HealthOf(fs), chain, fs.winsect, dsect)
    }

    ghost predicate StartOk()
      reads this
    {
      sclust == if chain == [] then 0 else chain[0]
    }

    /** The cursor is where fptr says: clust holds byte fptr - 1, and the buffer byte fptr inside a sector. */
    ghost predicate Cursor()
      requires Base()
      reads this, buf, fs, fs.win
    {
      && (fptr > 0 ==> Reaches(fs.g, chain, (fptr - 1) / 512) && clust == chain[(fptr - 1) / 512 / fs.g.csize])
      && (fptr % 512 != 0 ==> Reaches(fs.g, chain, fptr / 512) && dsect == Lba(fs.g, chain, fptr / 512))
    }

    /** What holds between the turns of a read or write loop. */
    ghost predicate Live()
      reads this, buf, fs, fs.win
    {
      Base() && StartOk() && Good(View()) && Holds(View(), fsize) && Cursor()
    }

    /** What holds between calls. */
    ghost predicate Valid()
      reads this, buf, fs, fs.win
    {
      Live() && fptr <= fsize
    }

    /** The bytes of the file. */
    ghost function Contents(): (c: seq<Byte>)
      requires Valid()
      reads this, buf, fs, fs.win
      ensures |c| == fsize
    {
      Bytes(View(), fsize)
    }

    /** What the file relies on between calls; one that met an error keeps its clusters only. */
    ghost predicate Standing()
      reads this, buf, fs, fs.win
    {
      Base() && (err == OK ==> Valid()) && AtHome(fs.g, Around())
    }

    ghost function ToUser(): Content
      reads this, buf, fs, fs.win
    {
      if err == OK && Valid() then Open(Contents(), fptr) else Failed(err)
    }

    /** Another call has worked on the clusters xs, which are not this file's. */
    twostate predicate Aside(xs: seq<nat>)
      reads this, buf, fs, fs.win
    {
      && old(fs.Valid()) && fs.Valid() && unchanged(this) && unchanged(buf)
      && Mapped(fs.g, xs) && OthersKept(old(fs.Fat()), fs.Fat(), xs)
      && Elsewhere(fs.g, xs, old(fs.Image()), fs.Image())
      && (fs.winsect == old(fs.winsect) || InFat(fs.g, fs.winsect))
      && Disjoint(chain, xs)
    }

    twostate lemma BaseStays(xs: seq<nat>)
      requires old(Base()) && Aside(xs)
      ensures Base() && View() == old(View()).(img := fs.Image())
      ensures old(AtHome(fs.g, Around())) ==> AtHome(fs.g, Around())
    {
      hide FatOf, Sound, Mapped, Owns, IsChain, OthersKept, Elsewhere, AllSafe, FreeCount, InFat, OnDrive, MirrorsAgree,
        FatFs.Ordered, CountExact;
      ChainOutside(old(fs.Fat()), fs.Fat(), xs, chain);
      if fs.winsect != old(fs.winsect) {
        FatIsClear(fs.g, chain, fs.winsect);
      }
    }

    twostate lemma ValidStays(xs: seq<nat>)
      requires old(Valid()) && old(AtHome(fs.g, Around())) && Aside(xs)
      ensures Valid() && Contents() == old(Contents())
    {
      hide Sound, Owns, IsChain, OthersKept, Elsewhere, InFat, OnDrive, Bytes, Lba, FatOf, AllSafe, MirrorsAgree;
      BaseStays(xs);
      OutsideGood(xs, old(View()), fs.Image());
      OutsideBytes(xs, old(fs.Fat()), fs.Fat(), old(View()), fs.Image(), fsize);
    }

    /** A call on another file leaves this one standing, with the same bytes and position. */
    twostate lemma Undisturbed(xs: seq<nat>)
      requires old(Standing()) && Aside(xs)
      ensures Standing() && ToUser() == old(ToUser())
    {
      hide FatOf, AllSafe, MirrorsAgree;
      BaseStays(xs);
      if err == OK {
        ValidStays(xs);
      }
    }

    /** The same for a call on the open file p that let its chain grow; the chains stay apart. */
    twostate lemma Bystander(p: Fil)
      requires old(Standing()) && unchanged(this) && unchanged(buf) && p.fs == fs
      requires old(p.Base()) && p.Base() && Forward(fs.g, old(p.Around()), p.Around())
      requires Disjoint(chain, old(p.chain))
      ensures Standing() && ToUser() == old(ToUser()) && Disjoint(chain, p.chain)
    {
      hide FatOf, Sound, Mapped, IsChain, OthersKept, Elsewhere, InFat, OnDrive, AllSafe, MirrorsAgree, TakenFree,
        ToUser, Owns;
      StaysApart(old(fs.Fat()), old(p.chain), p.chain, chain);
      Undisturbed(p.chain);
    }

    /** The same for a call that cut the chain of p. */
    twostate lemma CutBystander(p: Fil)
      requires old(Standing()) && unchanged(this) && unchanged(buf) && p.fs == fs
      requires old(p.Base()) && p.Base() && Backward(fs.g, old(p.Around()), p.Around())
      requires Disjoint(chain, old(p.chain))
      ensures Standing() && ToUser() == old(ToUser()) && Disjoint(chain, p.chain)
    {
      hide FatOf, Sound, Mapped, IsChain, OthersKept, Elsewhere, InFat, OnDrive, AllSafe, MirrorsAgree, ToUser, Owns;
      Undisturbed(old(p.chain));
    }

    /** An existing file just opened: position 0, no sector in the buffer. */
    constructor (volume: FatFs, start: nat, size: nat, read: bool, write: bool, ghost xs: seq<nat>)
      requires volume.Valid() && Sound(volume.g) && size < WORD32
      requires xs == [] || IsChain(volume.Fat(), xs)
      requires start == if xs == [] then 0 else xs[0]
      requires size > 0 ==> Reaches(volume.g, xs, (size - 1) / 512)
      requires Mapped(volume.g, xs) ==> !Owns(volume.g, xs, volume.winsect)
      ensures Valid() && Standing() && fs == volume && fptr == 0 && fsize == size && chain == xs && fresh(buf)
      ensures canRead == read && canWrite == write && err == OK && !written
    {
      hide FatOf, MirrorsAgree, AllSafe, FreeCount, FatFits, Owns, IsPow2;
      ChainMapped(volume.g, volume.Fat(), xs);
      fs, canRead, canWrite := volume, read, write;
      var b: array<Byte> := new Byte[512](_ => 0);
      buf := b;
      dirty, written, err := false, false, OK;
      fptr, fsize, sclust, clust, dsect, chain := 0, size, start, 0, 0, xs;
    }
  }

  /** Write-back of a dirty sector buffer. */
  method Flush(fp: Fil)
    requires fp.Base() && Good(fp.View())
    modifies fp`dirty, fp.fs`disk
    ensures fp.Base() && !fp.dirty && fp.fs.Fat() == old(fp.fs.Fat())
    ensures fp.View() == if old(fp.dirty) then Flushed(old(fp.View())) else old(fp.View())
    ensures Forward(fp.fs.g, old(fp.Around()), fp.Around())
  {
    hide FatOf, Mapped, Sound, Owns, AllSafe, FreeCount;
    if fp.dirty {
      ghost var img := fp.fs.Image();
      fp.fs.WriteSectors(fp.dsect, fp.buf[..]);
      BlitFat(fp.fs.g, img, fp.dsect, fp.buf[..]);
      BlitOne(img, fp.dsect, fp.buf[..]);
      fp.dirty := false;
    }
  }

  lemma BlitOne(img: Image, s: nat, d: Sector)
    requires s < |img|
    ensures Blit(img, s, d) == img[s := d]
  {
    forall i: nat | i < |img|
      ensures Blit(img, s, d)[i] == img[s := d][i]
    {
      BlitAt(img, s, d, i);
    }
  }

  /** No cluster is free. */
  ghost predicate NoneFree(f: Table) {
    forall c :: IsCluster(f, c) ==> f[c] != 0
  }

  lemma StretchOutcome(f: Table, xs: seq<nat>, i: int, clst: nat, last: nat, end: nat)
    requires |f| >= 3 && end >= |f| && (xs == [] || IsChain(f, xs))
    requires if i == -1 then xs == [] && clst == 0 else 0 <= i < |xs| && clst == xs[i]
    ensures clst == 0 || IsCluster(f, clst)
    ensures Takes(f, last, clst) ==> CreateResult(f, last, clst) >= 2
    ensures Takes(f, last, clst) ==> var r := CreateResult(f, last, clst);
      i + 1 == |xs| && IsChain(CreateTable(f, last, clst, end), xs + [r]) && OthersKept(f, CreateTable(f, last, clst, end), xs + [r])
      && IsCluster(f, r) && f[r] == 0
    ensures !Takes(f, last, clst) && CreateResult(f, last, clst) >= 2 ==> i + 1 < |xs| && CreateResult(f, last, clst) == xs[i + 1]
    ensures CreateResult(f, last, clst) == 1 ==> !NoErrorMark(f)
    ensures CreateResult(f, last, clst) == 0 ==> i + 1 == |xs| && NoneFree(f)
  {
    hide NewCluster;
    if 0 <= i < |xs| - 1 {
      assert IsCluster(f, xs[i + 1]);
    } else {
      if Takes(f, last, clst) {
        TakesFree(f, last, clst);
        if i >= 0 {
          ChainExtend(f, xs, CreateResult(f, last, clst), end);
        }
      }
      SearchSound(f, if clst == 0 then Hint(f, last) else clst);
    }
  }

  /** The chain as it was, or grown by a free cluster r, and FAT sectors changed. */
  lemma ForwardStretch(g: Geometry, a: Setting, b: Setting, r: nat)
    requires |a.fat| == |b.fat| == g.nFatEnt && Mapped(g, a.chain) && Mapped(g, b.chain)
    requires b.chain == a.chain || (b.chain == a.chain + [r] && (2 <= r < |a.fat| ==> a.fat[r] == 0))
    requires OthersKept(a.fat, b.fat, b.chain) && |a.img| == |b.img| && SameOutsideFat(g, a.img, b.img)
    requires NoWorse(a.health, b.health) && InFat(g, b.window) && a.dsect == b.dsect
    ensures Forward(g, a, b)
  {
    hide Owns, InFat, Mapped;
    FatChangeElsewhere(g, b.chain, a.img, b.img);
    if Owns(g, a.chain, a.dsect) {
      OwnsMore(g, a.chain, b.chain, a.dsect);
    }
  }

  /**
  create_chain as the file operations call it, behind the i-th cluster of the file
  (i == -1: the file has none). The chain is followed, or grown at its end.
  */
  method FollowOrStretch(fp: Fil, clst: nat, ghost i: int) returns (r: nat)
    requires fp.Base() && Good(fp.View())
    requires if i == -1 then fp.chain == [] && clst == 0 else 0 <= i < |fp.chain| && clst == fp.chain[i]
    modifies fp`chain, fp.fs, fp.fs.win
    ensures fp.Base() && Good(fp.View())
    ensures r >= 2 ==> i + 1 < |fp.chain| && fp.chain[i + 1] == r
    ensures fp.chain == if r >= 2 && i + 1 == |old(fp.chain)| then old(fp.chain) + [r] else old(fp.chain)
    ensures r == 1 ==> !NoErrorMark(old(fp.fs.Fat()))
    ensures r == 0 ==> i + 1 == |old(fp.chain)| && NoneFree(old(fp.fs.Fat()))
    ensures r < 2 ==> fp.fs.Fat() == old(fp.fs.Fat())
    ensures Grown(old(fp.View()), fp.View()) && SameOutsideFat(fp.fs.g, old(fp.fs.Image()), fp.fs.Image())
    ensures Forward(fp.fs.g, old(fp.Around()), fp.Around())
  {
    hide FatOf, Sound, AllSafe, FreeCount, CreateResult, CreateTable, Takes, CreateSteps, IsChain, MirrorsAgree,
      Owns, InFat, Distinct, Forward, NoneFree;
    ghost var f, last, v, a := fp.fs.Fat(), fp.fs.lastClust, fp.View(), fp.Around();
    EndMarkEnds(fp.fs.g);
    StretchOutcome(f, fp.chain, i, clst, last, EndMark(fp.fs.g));
    r := CreateChain(fp.fs, clst);
    if Takes(f, last, clst) {
      fp.chain := fp.chain + [r];
    }
    ChainMapped(fp.fs.g, fp.fs.Fat(), fp.chain);
    FatIsClear(fp.fs.g, fp.chain, fp.fs.winsect);
    if fp.dirty {
      OwnsMore(fp.fs.g, v.chain, fp.chain, fp.dsect);
    }
    ForwardStretch(fp.fs.g, a, fp.Around(), r);
    GrowGood(v, FileView.View(fp.fs.g, fp.fs.Image(), fp.chain, fp.dsect, fp.dirty, fp.buf[..]));
  }
}
