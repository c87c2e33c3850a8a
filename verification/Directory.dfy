/**
The directory cursor DIR of fatfs/src/ff.c: set to an index, moved entry by entry,
stretched at the end of the table, and used to reserve a run of blank entries.
*/
module Directory {
  import opened Bits
  import opened Layout
  import opened Entries
  import opened FatMap
  import opened FatRuns
  import opened Volume
  import opened Allocator
  import opened DirTable

  /** c sectors of the cluster at base are cleared, the window being clean and cleared itself. */
  ghost predicate Clearing(fs: FatFs, img: Image, base: nat, c: nat)
    reads fs, fs.win
  {
    && OnDrive(fs.g, img) && OnDrive(fs.g, fs.disk) && fs.win.Length == 512 && !fs.wflag && fs.win[..] == Zeros()
    && fs.winsect == base + c && ClearedTo(img, fs.disk, base, c)
    && fs.lastClust < WORD32 && fs.freeClust < WORD32
    && |fs.trace| > 0 && fs.trace[|fs.trace| - 1] == FatOf(fs.g, img) && FatOf(fs.g, fs.disk) == FatOf(fs.g, img)
    && forall i :: 0 <= i < |fs.durable| ==> fs.durable[i] in fs.trace
  }

  /** b is a with n sectors from s on cleared. */
  ghost predicate ClearedTo(a: Image, b: Image, s: nat, n: nat) {
    |a| == |b| && forall k {:trigger b[k]} :: 0 <= k < |a| ==> b[k] == if s <= k < s + n then Zeros() else a[k]
  }

  lemma ClearedFat(g: Geometry, a: Image, b: Image, s: nat, n: nat)
    requires OnDrive(g, a) && OnDrive(g, b) && ClearedTo(a, b, s, n) && g.database <= s
    ensures FatOf(g, a) == FatOf(g, b) && (MirrorsAgree(g, a) ==> MirrorsAgree(g, b))
  {
    hide FatOf, Zeros;
    FatOfFrame(g, a, b);
    if MirrorsAgree(g, a) && g.nFats == 2 {
      forall t | InFat(g, t)
        ensures Mirrored(g, b, t)
      {
        assert Mirrored(g, a, t);
      }
    }
  }

  /** One turn of the clearing loop of dir_next. */
  method ClearSector(fs: FatFs, ghost img: Image, base: nat, c: nat)
    requires Clearing(fs, img, base, c) && fs.g.database <= base && base + c < fs.g.sectors
    modifies fs`disk, fs`wflag, fs`winsect, fs`durable
    ensures Clearing(fs, img, base, c + 1)
  {
    hide FatOf, Zeros;
    fs.wflag := true;
    ghost var next := fs.disk[fs.winsect := fs.win[..]];
    ClearedFat(fs.g, img, next, base, c + 1);
    assert fs.Image() == next;
    ghost var media := fs.SyncWindow();
    fs.winsect := fs.winsect + 1;
  }

  /** The window written back, cleared, and put on sector base. */
  method StartClearing(fs: FatFs, base: nat)
    requires fs.Valid() && base < fs.g.sectors
    modifies fs`disk, fs`wflag, fs`winsect, fs`durable, fs.win
    ensures Clearing(fs, old(fs.Image()), base, 0)
  {
    hide FatOf, Zeros, EntryEnd, InFat;
    ghost var media := fs.SyncWindow();
    forall i | 0 <= i < 512 {
      fs.win[i] := 0;
    }
    assert fs.win[..] == Zeros();
    fs.winsect := base;
  }

  method FinishClearing(fs: FatFs, ghost img: Image, base: nat, c: nat)
    requires Clearing(fs, img, base, c) && c > 0 && fs.g.database <= base && base + c <= fs.g.sectors
    modifies fs`winsect
    ensures fs.Valid() && fs.winsect == base && fs.Fat() == FatOf(fs.g, img) && fs.Image() == fs.disk
    ensures MirrorsAgree(fs.g, img) ==> MirrorsAgree(fs.g, fs.disk)
  {
    hide FatOf, Zeros, EntryEnd, InFat, MirrorsAgree;
    fs.winsect := fs.winsect - c;
    ClearedFat(fs.g, img, fs.disk, base, c);
  }

  /** The new cluster of a stretched table is cleared sector by sector; the window ends on its first. */
  method ClearCluster(fs: FatFs, clst: nat, ghost start: nat)
    requires fs.Valid() && Sound(fs.g) && IsCluster(fs.Fat(), clst) && start == ClusterBase(fs.g, clst)
    modifies fs`disk, fs`wflag, fs`winsect, fs`durable, fs.win
    ensures fs.Valid() && fs.Fat() == old(fs.Fat())
    ensures ClearedTo(old(fs.Image()), fs.Image(), start, fs.g.csize)
    ensures NoWorse(old(HealthOf(fs)), HealthOf(fs))
  {
    hide FatOf, Zeros, IsPow2, AllSafe, FreeCount, MirrorsAgree, EntryEnd, InFat, ClearedTo;
    CsizePositive(fs.g);
    ghost var img := fs.Image();
    ClusterInside(fs.g, clst);
    var base := fs.Clust2Sect(clst);
    StartClearing(fs, base);
    var c := 0;
    while c < fs.g.csize
      invariant 0 <= c <= fs.g.csize && Clearing(fs, img, base, c)
    {
      ClearSector(fs, img, base, c);
      c := c + 1;
    }
    FinishClearing(fs, img, base, c);
  }

  /** create_chain behind the last cluster of a table. */
  lemma EndOfTable(f: Table, last: nat, clst: nat, end: nat)
    requires |f| >= 3 && end >= |f| && IsCluster(f, clst) && f[clst] >= |f|
    ensures var c := CreateResult(f, last, clst);
      && (Takes(f, last, clst) <==> c >= 2)
      && (c >= 2 ==> IsCluster(f, c) && f[c] == 0 && CreateTable(f, last, clst, end) == f[c := end][clst := c])
      && (c == 1 ==> !NoErrorMark(f))
      && (c == 0 ==> forall d :: IsCluster(f, d) ==> f[d] != 0)
  {
    hide NewCluster;
    SearchSound(f, clst);
  }

  /** create_chain behind the last cluster of a table: 0 if the volume is full. */
  method AppendCluster(fs: FatFs, clst: nat) returns (ncl: nat)
    requires fs.Valid() && IsCluster(fs.Fat(), clst) && fs.Fat()[clst] >= |fs.Fat()|
    modifies fs, fs.win
    ensures fs.Valid() && NoWorse(old(HealthOf(fs)), HealthOf(fs)) && SameOutsideFat(fs.g, old(fs.Image()), fs.Image())
    ensures ncl >= 2 ==> IsCluster(old(fs.Fat()), ncl) && old(fs.Fat())[ncl] == 0
                         && fs.Fat() == old(fs.Fat())[ncl := EndMark(fs.g)][clst := ncl]
    ensures ncl < 2 ==> fs.Fat() == old(fs.Fat()) && fs.Image() == old(fs.Image())
    ensures ncl == 1 ==> !NoErrorMark(fs.Fat())
    ensures ncl == 0 ==> forall d :: IsCluster(fs.Fat(), d) ==> fs.Fat()[d] != 0
  {
    hide FatOf, AllSafe, FreeCount, CreateResult, CreateTable, Takes, CreateSteps, MirrorsAgree, EndMark;
    EndMarkEnds(fs.g);
    EndOfTable(fs.Fat(), fs.lastClust, clst, EndMark(fs.g));
    ncl := CreateChain(fs, clst);
  }

  /** Linking behind the last cluster and clearing make an extension. */
  lemma StretchDone(g: Geometry, a: Medium, m: Medium, b: Medium, last: nat, c: nat, end: nat, start: nat)
    requires Sized(g, a) && Sized(g, m) && Sized(g, b) && OnDrive(g, a.img) && OnDrive(g, m.img)
    requires IsCluster(a.f, last) && a.f[last] >= |a.f| && IsCluster(a.f, c) && a.f[c] == 0
    requires end >= |a.f| && m.f == a.f[c := end][last := c] && start == ClusterBase(g, c)
    requires SameOutsideFat(g, a.img, m.img) && b.f == m.f && ClearedTo(m.img, b.img, start, g.csize)
    ensures Extended(g, a, b, last, c)
  {
    hide Zeros, IsPow2;
    ClusterInside(g, c);
  }

  class Dir {
    const fs: FatFs
    var index: nat
    var sclust: nat
    var clust: nat
    var sect: nat
    var offset: nat

    constructor (volume: FatFs, start: nat)
      ensures fs == volume && sclust == start
    {
      fs := volume;
      sclust := start;
      index, clust, sect, offset := 0, 0, 0, 0;
    }

    function Position(): Cursor
      reads this
    {
      Cursor(index, clust, sect, offset)
    }

    ghost predicate Valid()
      reads this, fs, fs.win
    {
      fs.Valid() && Sound(fs.g) && fs.g.csize > 0 && sclust < WORD32 && fs.g.dirbase < WORD32
    }

    /** The cursor stands on entry i. */
    ghost predicate At(i: nat)
      reads this, fs, fs.win
    {
      Valid() && i < 0x1_0000 && HasEntry(fs.Fat(), fs.g, sclust, i) && Position() == CursorAt(fs.Fat(), fs.g, sclust, i)
    }

    /** dir_sdi */
    method SetIndex(idx: nat) returns (res: FResult)
      requires Valid()
      modifies `index, `clust, `sect, `offset, fs`disk, fs`wflag, fs`winsect, fs`durable, fs.win
      ensures Valid() && fs.Image() == old(fs.Image()) && HealthOf(fs) == old(HealthOf(fs))
      ensures res == if HasEntry(fs.Fat(), fs.g, sclust, idx) then OK else IntErr
      ensures res == OK ==> Position() == CursorAt(fs.Fat(), fs.g, sclust, idx)
    {
      hide FatOf, HealthOf, Sound, InFat, ClusterNo, ClusterIndex, SectorIndex;
      index := idx % 0x1_0000;
      var clst, ofs := sclust, idx;
      if clst == 1 || clst >= fs.g.nFatEnt {
        return IntErr;
      }
      if clst == 0 && fs.g.fsType.Fat32? {
        clst := fs.g.dirbase;
      }
      var base;
      if clst == 0 {
        if idx >= fs.g.nRootDir {
          return IntErr;
        }
        base := fs.g.dirbase;
      } else {
        clst, ofs := FollowTable(clst, idx);
        if clst < 2 {
          return IntErr;
        }
        base := fs.Clust2Sect(clst);
        CsizePositive(fs.g);
      }
      clust := clst;
      if base == 0 {
        return IntErr;
      }
      sect := base + ofs / 16;
      offset := ofs % 16 * 32;
      res := OK;
    }

    /** The walk of dir_sdi: the cluster of entry idx, 1 if there is none, and the entry in it. */
    method FollowTable(start: nat, idx: nat) returns (clst: nat, ofs: nat)
      requires Valid() && 0 < start < WORD32
      modifies fs`disk, fs`wflag, fs`winsect, fs`durable, fs.win
      ensures Valid() && fs.Image() == old(fs.Image()) && HealthOf(fs) == old(HealthOf(fs))
      ensures var c := ClusterNo(fs.Fat(), start, ClusterIndex(idx, fs.g.csize));
        if c != 0 then clst == c && ofs / 16 == SectorIndex(idx, fs.g.csize) && ofs % 16 == idx % 16
        else clst < WORD32 && (clst == 1 || !IsCluster(fs.Fat(), clst))
    {
      hide FatOf, HealthOf, Sound, InFat, ClusterIndex, SectorIndex;
      var ic := 16 * fs.g.csize;
      clst, ofs := start, idx;
      ghost var f, k := fs.Fat(), 0;
      while ofs >= ic
        invariant Valid() && fs.Image() == old(fs.Image()) && HealthOf(fs) == old(HealthOf(fs))
        invariant idx == k * ic + ofs
        invariant if ClusterNo(f, start, k) == 0 then k == 0 && clst == start else clst == ClusterNo(f, start, k)
      {
        clst := ReadEntry(fs, clst);
        if clst < 2 || clst >= fs.g.nFatEnt {
          WalkEnds(f, start, idx, fs.g.csize, k, ofs);
          return 1, ofs;
        }
        ofs := ofs - ic;
        assert (k + 1) * ic == k * ic + ic;
        k := k + 1;
      }
      EntryDigits(idx, fs.g.csize, k, ofs);
    }

    ghost function Around(): Medium
      requires Valid()
      reads this, fs, fs.win
      ensures Sized(fs.g, Around())
    {
      Medium(fs.Fat(), fs.Image())
    }

    /** The current cluster is the one entry index lies in. */
    ghost predicate OnCluster()
      reads this, fs, fs.win
    {
      && Valid() && HasEntry(fs.Fat(), fs.g, sclust, index) && clust != 0
      && clust == ClusterOf(fs.Fat(), fs.g, sclust, index)
    }

    /** clst is the k-th cluster of the table. */
    ghost predicate IsNth(clst: nat, k: nat)
      requires Valid()
      reads this, fs, fs.win
    {
      IsCluster(fs.Fat(), clst) && ClusterNo(fs.Fat(), Start(fs.g, sclust), k) == clst
    }

    /** The cluster-boundary part of dir_next: the next cluster, a new one if the table is stretched. */
    method NextCluster(stretch: bool) returns (res: FResult, clst: nat)
      requires OnCluster() && (index + 1) % 16 == 0 && SectorIndex(index + 1, fs.g.csize) == 0
      modifies fs, fs.win
      ensures Valid() && NoWorse(old(HealthOf(fs)), HealthOf(fs))
      ensures ClusterOutcome(fs.g, sclust, index, stretch, old(Around()), Around(), res)
      ensures res == OK ==> IsCluster(fs.Fat(), clst)
      ensures res == OK ==>
        if IsCluster(old(fs.Fat()), old(fs.Fat())[clust]) then clst == old(fs.Fat())[clust]
        else IsNth(clst, ClusterIndex(index, fs.g.csize) + 1)
    {
      hide FatOf, IsPow2, FatFits, EntryEnd, ClusterIndex, SectorIndex, AllSafe, FreeCount, MirrorsAgree, InFat,
        Zeros, Extended;
      clst := ReadEntry(fs, clust);
      if clst <= 1 {
        return IntErr, clst;
      }
      if clst >= fs.g.nFatEnt {
        if !stretch {
          return NoFile, clst;
        }
        res, clst := StretchTable();
        return;
      }
      res := OK;
    }

    /** The stretching part. */
    method StretchTable() returns (res: FResult, clst: nat)
      requires OnCluster() && fs.Fat()[clust] >= |fs.Fat()|
      modifies fs, fs.win
      ensures Valid() && NoWorse(old(HealthOf(fs)), HealthOf(fs))
      ensures Extension(fs.g, sclust, old(Around()), Around(), ClusterIndex(index, fs.g.csize), res)
      ensures res == OK ==> IsNth(clst, ClusterIndex(index, fs.g.csize) + 1)
    {
      hide FatOf, IsPow2, FatFits, EntryEnd, ClusterIndex, SectorIndex, HealthOf, InFat, Zeros, OnDrive, EndMark,
        Extended, ClusterNo, ClearedTo, SameOutsideFat, Stretch, HasEntry, ClusterOf, Start;
      ghost var a := Around();
      EndMarkEnds(fs.g);
      clst := AppendCluster(fs, clust);
      if clst == 0 {
        return Denied, clst;
      }
      if clst == 1 {
        return IntErr, clst;
      }
      ghost var m := Around();
      ClusterInside(fs.g, clst);
      ClearCluster(fs, clst, ClusterBase(fs.g, clst));
      StretchDone(fs.g, a, m, Around(), clust, clst, EndMark(fs.g), ClusterBase(fs.g, clst));
      StretchExtends(fs.g, sclust, index, a, Around(), clust, clst);
      res := OK;
    }

    /** The sector-boundary part of dir_next. */
    method NextSector(stretch: bool) returns (res: FResult)
      requires At(index) && index + 1 < 0x1_0000 && (index + 1) % 16 == 0
      modifies `clust, `sect, fs, fs.win
      ensures Valid() && NoWorse(old(HealthOf(fs)), HealthOf(fs))
      ensures NextOutcome(fs.g, sclust, index, stretch, old(Around()), Around(), res)
      ensures res == OK ==> HasEntry(fs.Fat(), fs.g, sclust, index + 1)
      ensures res == OK ==> CursorAt(fs.Fat(), fs.g, sclust, index + 1).clust == clust
      ensures res == OK ==> CursorAt(fs.Fat(), fs.g, sclust, index + 1).sect == sect
    {
      hide FatOf, HealthOf, InFat, IsPow2, EntryEnd, ClusterIndex, SectorIndex, ClusterNo, ClusterOf, HasEntry,
        Extension, Start, And, NextOutcome;
      MovedIsNext(fs.Fat(), fs.g, sclust, index);
      NextCases(fs.Fat(), fs.g, sclust, index);
      ghost var a := Around();
      var i := index + 1;
      sect := sect + 1;
      if clust == 0 {
        if i >= fs.g.nRootDir {
          PlainOutcome(fs.g, sclust, index, stretch, a, NoFile);
          return NoFile;
        }
        PlainOutcome(fs.g, sclust, index, stretch, a, OK);
        return OK;
      }
      BoundaryTest(i, fs.g.csize);
      if And(i / 16, fs.g.csize - 1) == 0 {
        res := EnterCluster(stretch);
      } else {
        PlainOutcome(fs.g, sclust, index, stretch, a, OK);
        res := OK;
      }
    }

    method EnterCluster(stretch: bool) returns (res: FResult)
      requires OnCluster() && index + 1 < 0x1_0000 && (index + 1) % 16 == 0 && SectorIndex(index + 1, fs.g.csize) == 0
      modifies `clust, `sect, fs, fs.win
      ensures Valid() && NoWorse(old(HealthOf(fs)), HealthOf(fs))
      ensures NextOutcome(fs.g, sclust, index, stretch, old(Around()), Around(), res)
      ensures res == OK ==> HasEntry(fs.Fat(), fs.g, sclust, index + 1)
      ensures res == OK ==> CursorAt(fs.Fat(), fs.g, sclust, index + 1).clust == clust
      ensures res == OK ==> CursorAt(fs.Fat(), fs.g, sclust, index + 1).sect == sect
    {
      hide FatOf, HealthOf, InFat, IsPow2, EntryEnd, ClusterIndex, SectorIndex, ClusterNo, ClusterOf, HasEntry,
        Extension, Start, And, CursorAt, ClusterOutcome, NextOutcome, FatFs.Ordered, FatFits, MirrorsAgree, AllSafe,
        FreeCount;
      ghost var a := Around();
      NextCases(a.f, fs.g, sclust, index);
      var clst;
      res, clst := NextCluster(stretch);
      BoundaryOutcome(fs.g, sclust, index, stretch, a, Around(), res);
      if res != OK {
        return;
      }
      clust := clst;
      ClusterIsWord(fs.g, Around().f, clst);
      TableStart(a.f, fs.g, sclust, index);
      sect := fs.Clust2Sect(clst);
      if !HasEntry(a.f, fs.g, sclust, index + 1) {
        FirstOfCluster(fs.Fat(), fs.g, sclust, index, clst);
      } else {
        FollowedEntry(fs.Fat(), fs.g, sclust, index);
      }
    }

    /** dir_next: OK, NoFile at the end of the table, Denied if it could not be stretched. */
    method Next(stretch: bool) returns (res: FResult)
      requires At(index)
      modifies `index, `clust, `sect, `offset, fs, fs.win
      ensures Valid() && NoWorse(old(HealthOf(fs)), HealthOf(fs))
      ensures if res == OK then index == old(index) + 1 && At(index) else index == old(index)
      ensures NextOutcome(fs.g, sclust, old(index), stretch, old(Around()), Around(), res)
    {
      hide FatOf, HealthOf, InFat, IsPow2, EntryEnd, ClusterIndex, SectorIndex, ClusterNo, ClusterOf, HasEntry,
        Extension, Start, And, FatFs.Ordered, FatFits, NextOutcome, CursorAt, Moved;
      SameSectorNext(fs.Fat(), fs.g, sclust, index);
      CursorPositive(fs.Fat(), fs.g, sclust, index);
      var i := index + 1;
      if i == 0x1_0000 || sect == 0 {
        LastIndexOutcome(fs.g, sclust, index, stretch, Around());
        return NoFile;
      }
      if i % 16 == 0 {
        res := NextSector(stretch);
        if res != OK {
          return;
        }
      } else {
        PlainOutcome(fs.g, sclust, index, stretch, Around(), OK);
      }
      CursorIndex(fs.Fat(), fs.g, sclust, i);
      index := i;
      offset := i % 16 * 32;
      res := OK;
    }

    /** move_window to the sector of the cursor: is its entry blank? */
    method Look() returns (blank: bool)
      requires At(index)
      modifies fs`disk, fs`wflag, fs`winsect, fs`durable, fs.win
      ensures At(index) && Around() == old(Around()) && HealthOf(fs) == old(HealthOf(fs)) && fs.winsect == sect
      ensures blank == Blank(fs.g, Around(), sclust, index)
    {
      hide FatOf, InFat, IsPow2, EntryEnd, ClusterIndex, SectorIndex, ClusterNo, ClusterOf, HasEntry, FreeCount,
        AllSafe, MirrorsAgree;
      CursorInside(fs.Fat(), fs.g, sclust, index);
      fs.MoveWindow(sect);
      fs.WindowContent();
      var b := fs.win[offset];
      blank := b == 0xE5 || b == 0;
    }

    /** What a search for nent blank entries ends in. */
    ghost predicate Reserved(res: FResult, nent: nat)
      requires nent >= 1
      reads this, fs, fs.win
    {
      && Valid()
      && (res == OK ==>
            && At(index) && fs.winsect == sect && RunAt(fs.g, Around(), sclust, index, nent)
            && forall e: nat :: e < index ==> !RunAt(fs.g, Around(), sclust, e, nent))
      && (res == Denied ==> NoRun(fs.g, Around(), sclust, nent) && NoRoom(fs.g, Around(), sclust, index))
      && (res == IntErr ==>
            !HasEntry(fs.Fat(), fs.g, sclust, 0) || !NoErrorMark(fs.Fat()) || fs.Fat()[ClusterOf(fs.Fat(), fs.g, sclust, index)] < 2)
    }

    /** Moving on after a look. */
    method Step(nent: nat, ghost n: nat, ghost o: Medium) returns (res: FResult)
      requires At(index) && nent >= 1 && Sized(fs.g, o) && Unharmed(fs.g, sclust, o, Around())
      requires Searched(fs.g, Around(), sclust, index + 1, n, nent)
      modifies `index, `clust, `sect, `offset, fs, fs.win
      ensures Valid() && NoWorse(old(HealthOf(fs)), HealthOf(fs)) && Unharmed(fs.g, sclust, o, Around())
      ensures res == OK ==> At(index) && index == old(index) + 1 && Searched(fs.g, Around(), sclust, index, n, nent)
      ensures old(Ends(fs.Fat(), fs.g, sclust)) ==> Ends(fs.Fat(), fs.g, sclust)
      ensures old(NoLonger(fs.g, sclust, o.f, fs.Fat(), index)) ==> NoLonger(fs.g, sclust, o.f, fs.Fat(), index)
      ensures res != OK ==> (res == Denied || res == IntErr) && Reserved(res, nent)
    {
      hide FatOf, HealthOf, InFat, IsPow2, EntryEnd, ClusterIndex, SectorIndex, ClusterNo, ClusterOf, HasEntry,
        CursorAt, FatFits, Unharmed, Searched, NextOutcome, RunAt, Blank, NoErrorMark, NoRun, NoRoom, Ends;
      ghost var a, i := Around(), index;
      res := Next(true);
      SearchKept(fs.g, sclust, o, a, Around(), i, res, n, nent);
      EndsKept(fs.g, sclust, a, Around(), i, res);
      if NoLonger(fs.g, sclust, o.f, a.f, i) {
        NoLongerKept(fs.g, sclust, o.f, a, Around(), i, res);
      }
      if res != OK {
        TurnFails(fs.g, sclust, a, Around(), i, res);
        SearchFails(fs.g, Around(), sclust, i + 1, n, nent);
        if res == NoFile {
          res := Denied;
        }
      }
    }

    /**
     * dir_alloc: the cursor comes to the end of the first run of nent blank entries, the table
     * being stretched as far as needed. Denied means that no run exists and none can be made.
     */
    method Alloc(nent: nat) returns (res: FResult)
      requires Valid() && nent >= 1
      modifies `index, `clust, `sect, `offset, fs, fs.win
      ensures Valid() && NoWorse(old(HealthOf(fs)), HealthOf(fs)) && Unharmed(fs.g, sclust, old(Around()), Around())
      ensures (res == OK || res == Denied || res == IntErr) && Reserved(res, nent)
      ensures old(Ends(fs.Fat(), fs.g, sclust)) ==> Ends(fs.Fat(), fs.g, sclust)
      ensures NoLonger(fs.g, sclust, old(fs.Fat()), fs.Fat(), index)
    {
      hide FatOf, HealthOf, InFat, IsPow2, EntryEnd, ClusterIndex, SectorIndex, ClusterNo, ClusterOf, HasEntry,
        CursorAt, FatFits, Unharmed, Searched, NextOutcome, RunAt, Blank, NoErrorMark, NoRun, NoRoom, Ends, NoLonger;
      ghost var o := Around();
      UnharmedRefl(fs.g, sclust, o);
      CsizePositive(fs.g);
      forall i: nat
        ensures NoLonger(fs.g, sclust, o.f, o.f, i)
      {
        NoLongerRefl(fs.g, sclust, o.f, i);
      }
      res := SetIndex(0);
      if res != OK {
        return;
      }
      FirstIndex(fs.Fat(), fs.g, sclust);
      SearchStarts(fs.g, o, sclust, nent);
      var n := 0;
      while true
        invariant At(index) && NoWorse(old(HealthOf(fs)), HealthOf(fs)) && Unharmed(fs.g, sclust, o, Around())
        invariant old(Ends(fs.Fat(), fs.g, sclust)) ==> Ends(fs.Fat(), fs.g, sclust)
        invariant NoLonger(fs.g, sclust, o.f, fs.Fat(), index)
        invariant Searched(fs.g, Around(), sclust, index, n, nent)
        decreases 0x1_0000 - index
      {
        SearchSaysNo(fs.g, Around(), sclust, index, n, nent);
        SearchMoves(fs.g, Around(), sclust, index, n, nent);
        var blank := Look();
        if blank {
          n := n + 1;
          if n == nent {
            return OK;
          }
        } else {
          n := 0;
        }
        res := Step(nent, n, o);
        if res != OK {
          return;
        }
      }
    }
  }
}
