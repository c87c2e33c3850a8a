/**
The cluster allocator of fatfs/src/ff.c on the mounted volume: remove_chain and
create_chain, tied to what FatMap says they do to the table.
*/
module Allocator {
  import opened Bits
  import opened Layout
  import opened Entries
  import opened FatMap
  import opened FatRuns
  import opened Volume

  /** A known free count is the real one. */
  ghost predicate CountExact(fs: FatFs)
    requires fs.Valid()
    reads fs, fs.win
  {
    fs.freeClust != UNKNOWN ==> fs.freeClust == FreeCount(fs.Fat())
  }

  /** The standing properties of a volume that no operation may lose. */
  datatype Health = Health(counted: bool, safe: bool, mirrored: bool)

  ghost function HealthOf(fs: FatFs): Health
    requires fs.Valid()
    reads fs, fs.win
  {
    Health(CountExact(fs), fs.g.fsType.Fat12? || AllSafe(fs.trace), MirrorsAgree(fs.g, fs.Image()))
  }

  ghost predicate NoWorse(a: Health, b: Health) {
    (a.counted ==> b.counted) && (a.safe ==> b.safe) && (a.mirrored ==> b.mirrored)
  }

  /** The same, the tables staying safe on a condition only. */
  ghost predicate NoWorseIf(tied: bool, a: Health, b: Health) {
    (a.counted ==> b.counted) && (tied && a.safe ==> b.safe) && (a.mirrored ==> b.mirrored)
  }

  /** get_fat as the file operations use it: it may flush the window and changes nothing else. */
  method ReadEntry(fs: FatFs, clst: nat) returns (r: nat)
    requires fs.Valid()
    modifies fs`disk, fs`wflag, fs`winsect, fs`durable, fs.win
    ensures fs.Valid() && fs.Image() == old(fs.Image()) && HealthOf(fs) == old(HealthOf(fs))
    ensures old(fs.durable) <= fs.durable
    ensures r == if IsCluster(fs.Fat(), clst) then fs.Fat()[clst] else 1
    ensures IsCluster(fs.Fat(), clst) ==> InFat(fs.g, fs.winsect)
  {
    hide FatOf, FreeCount, AllSafe, MirrorsAgree, InFat;
    r := fs.GetFat(clst);
  }

  /** If every table stored so far was safe, so is every table create_chain stores. */
  lemma CreateTraceSafe(ts: seq<Table>, last: nat, clst: nat, end: nat)
    requires |ts| > 0 && |ts[|ts| - 1]| >= 3 && end >= |ts[|ts| - 1]|
    ensures AllSafe(ts) ==> AllSafe(ts + CreateSteps(ts[|ts| - 1], last, clst, end))
  {
    if AllSafe(ts) {
      CreateIsSafe(ts[|ts| - 1], last, clst, end);
    }
  }

  lemma FreeTraceSafe(ts: seq<Table>, c: nat)
    requires |ts| > 0 && c >= 2
    ensures AllSafe(ts) && NoLinkTo(ts[|ts| - 1], c) ==> AllSafe(ts + FreeSteps(ts[|ts| - 1], c))
  {
    if AllSafe(ts) && NoLinkTo(ts[|ts| - 1], c) {
      FreeIsSafe(ts[|ts| - 1], c);
    }
  }

  /**
  Ordered write-back: if every table stored so far is safe, so was the table on the
  medium after every sector write, and so it is now, whatever the window still holds.
  */
  lemma MediumIsSafe(fs: FatFs)
    requires fs.Valid() && AllSafe(fs.trace)
    ensures AllSafe(fs.durable) && Safe(FatOf(fs.g, fs.disk))
  {
    hide FatOf, Safe;
    var i :| 0 <= i < |fs.trace| && fs.trace[i] == FatOf(fs.g, fs.disk);
    forall j | 0 <= j < |fs.durable|
      ensures Safe(fs.durable[j])
    {
      var k :| 0 <= k < |fs.trace| && fs.trace[k] == fs.durable[j];
    }
  }

  /** One turn of remove_chain on an entry that is neither free nor an error mark. */
  method ClearEntry(fs: FatFs, clst: nat)
    requires fs.Valid() && IsCluster(fs.Fat(), clst) && fs.Fat()[clst] >= 2
    modifies fs`disk, fs`wflag, fs`winsect, fs`durable, fs`trace, fs`freeClust, fs`fsiDirty, fs.win
    ensures fs.Valid() && old(fs.durable) <= fs.durable && FatOnly(fs.g, old(fs.Image()), fs.Image()) && InFat(fs.g, fs.winsect)
    ensures fs.Fat() == old(fs.Fat())[clst := 0]
    ensures !fs.g.fsType.Fat12? ==> fs.trace == old(fs.trace) + [fs.Fat()]
    ensures old(CountExact(fs)) ==> CountExact(fs)
  {
    hide FatOf, PutEntry, FatOnly, WithSector, InFat;
    ghost var f := fs.Fat();
    var res := fs.PutFat(clst, 0);
    if fs.freeClust != UNKNOWN {
      fs.freeClust := fs.freeClust + 1;
      fs.fsiDirty := true;
    }
    FreeCountUpdate(f, clst, 0);
  }

  /** Freeing from start has come to the table f and the entry c, over these steps. */
  ghost predicate Freeing(f0: Table, start: nat, f: Table, c: nat, steps: seq<Table>) {
    && start >= 2 && c >= 2 && FreeFrom(f0, start).table == FreeFrom(f, c).table
    && FreeFrom(f0, start).ok == FreeFrom(f, c).ok && FreeSteps(f0, start) == steps + FreeSteps(f, c)
  }

  lemma FreeingStep(f0: Table, start: nat, f: Table, c: nat, steps: seq<Table>)
    requires Freeing(f0, start, f, c, steps) && c < |f| && f[c] >= 2
    ensures Freeing(f0, start, f[c := 0], f[c], steps + [f[c := 0]])
  {
    NonZeroUpdate(f, c, |f|);
    assert steps + ([f[c := 0]] + FreeSteps(f[c := 0], f[c])) == steps + [f[c := 0]] + FreeSteps(f[c := 0], f[c]);
  }

  lemma FreeingEnd(f0: Table, start: nat, f: Table, c: nat, steps: seq<Table>)
    requires Freeing(f0, start, f, c, steps) && (c < |f| ==> f[c] < 2)
    ensures FreeFrom(f0, start).table == f && FreeSteps(f0, start) == steps
    ensures FreeFrom(f0, start).ok <==> !(c < |f| && f[c] == 1)
  {
  }

  lemma FreeingStart(f: Table, c: nat)
    requires c >= 2
    ensures Freeing(f, c, f, c, [])
  {
  }

  /** The loop of remove_chain. */
  method FreeLoop(fs: FatFs, start: nat) returns (res: FResult)
    requires fs.Valid() && IsCluster(fs.Fat(), start)
    modifies fs`disk, fs`wflag, fs`winsect, fs`durable, fs`trace, fs`freeClust, fs`fsiDirty, fs.win
    ensures fs.Valid() && old(fs.durable) <= fs.durable && FatOnly(fs.g, old(fs.Image()), fs.Image())
    ensures InFat(fs.g, fs.winsect) && fs.Fat() == FreeFrom(old(fs.Fat()), start).table
    ensures res == (if FreeFrom(old(fs.Fat()), start).ok then OK else IntErr)
    ensures !fs.g.fsType.Fat12? ==> fs.trace == old(fs.trace) + FreeSteps(old(fs.Fat()), start)
    ensures old(CountExact(fs)) ==> CountExact(fs)
  {
    hide FatOf, PutEntry, FatOnly, WithSector, InFat, FatFits, FreeCount, AllSafe, NoLinkTo, Safe, SameOutsideFat,
      MirrorsAgree, Entry, FreeBelow, NonZeroBelow, FreeFrom, FreeSteps, Freeing, FatFs.Ordered;
    FatOnlyRefl(fs.g, fs.Image());
    var clst := start;
    ghost var f0, steps := fs.Fat(), [];
    FreeingStart(f0, start);
    res := OK;
    while clst < fs.g.nFatEnt
      invariant fs.Valid() && old(fs.durable) <= fs.durable && FatOnly(fs.g, old(fs.Image()), fs.Image()) && clst >= 2
      invariant Freeing(f0, start, fs.Fat(), clst, steps)
      invariant !fs.g.fsType.Fat12? ==> fs.trace == old(fs.trace) + steps
      invariant res == OK && (clst == start || InFat(fs.g, fs.winsect))
      invariant old(CountExact(fs)) ==> CountExact(fs)
      decreases NonZeroBelow(fs.Fat(), fs.g.nFatEnt)
    {
      var nxt := fs.GetFat(clst);
      if nxt == 0 {
        break;
      }
      if nxt == 1 {
        res := IntErr;
        break;
      }
      ghost var f, img := fs.Fat(), fs.Image();
      FreeingStep(f0, start, f, clst, steps);
      NonZeroUpdate(f, clst, |f|);
      ClearEntry(fs, clst);
      FatOnlyTrans(fs.g, old(fs.Image()), img, fs.Image());
      steps := steps + [fs.Fat()];
      clst := nxt;
    }
    FreeingEnd(f0, start, fs.Fat(), clst, steps);
  }

  /**
  remove_chain. It ends on every table, cyclic or cross-linked; on the well-formed
  ones FreeFromChain says that it frees exactly the chain.
  */
  method RemoveChain(fs: FatFs, start: nat) returns (res: FResult)
    requires fs.Valid()
    modifies fs`disk, fs`wflag, fs`winsect, fs`durable, fs`trace, fs`freeClust, fs`fsiDirty, fs.win
    ensures fs.Valid() && old(fs.durable) <= fs.durable && FatOnly(fs.g, old(fs.Image()), fs.Image())
    ensures !IsCluster(old(fs.Fat()), start) ==> res == IntErr && unchanged(fs) && unchanged(fs.win)
    ensures IsCluster(old(fs.Fat()), start) ==>
      && InFat(fs.g, fs.winsect)
      && fs.Fat() == FreeFrom(old(fs.Fat()), start).table
      && res == (if FreeFrom(old(fs.Fat()), start).ok then OK else IntErr)
    ensures !fs.g.fsType.Fat12? && start >= 2 ==> fs.trace == old(fs.trace) + FreeSteps(old(fs.Fat()), start)
    ensures old(CountExact(fs)) ==> CountExact(fs)
    ensures !fs.g.fsType.Fat12? && old(AllSafe(fs.trace)) && NoLinkTo(old(fs.Fat()), start) ==> AllSafe(fs.trace)
  {
    hide FatOf, PutEntry, FatOnly, WithSector, InFat, FatFits, FreeCount, AllSafe, NoLinkTo, Safe, SameOutsideFat,
      MirrorsAgree, Entry, FreeBelow;
    FatOnlyRefl(fs.g, fs.Image());
    if start < 2 || start >= fs.g.nFatEnt {
      return IntErr;
    }
    FreeTraceSafe(fs.trace, start);
    res := FreeLoop(fs, start);
  }

  /** The search loop of create_chain, from hint scl on. */
  method FindFree(fs: FatFs, scl: nat) returns (ncl: nat)
    requires fs.Valid() && 1 <= scl < fs.g.nFatEnt
    modifies fs`disk, fs`wflag, fs`winsect, fs`durable, fs.win
    ensures fs.Valid() && fs.Image() == old(fs.Image()) && old(fs.durable) <= fs.durable && InFat(fs.g, fs.winsect)
    ensures ncl == NewCluster(old(fs.Fat()), scl)
  {
    hide FatOf, WithSector, InFat;
    var n := fs.g.nFatEnt;
    ghost var f, k := fs.Fat(), 0;
    ncl := scl;
    while true
      invariant fs.Valid() && fs.Image() == old(fs.Image()) && old(fs.durable) <= fs.durable
      invariant k <= n - 2 && (scl > 1 ==> k < n - 2)
      invariant ncl == if k == 0 then scl else CyclicAt(n, scl, k - 1)
      invariant FirstStop(f, scl, 0) == FirstStop(f, scl, k)
      invariant k > 0 ==> InFat(fs.g, fs.winsect)
      decreases n - k
    {
      ncl := ncl + 1;
      if ncl >= n {
        ncl := 2;
        if ncl > scl {
          return 0;
        }
      }
      assert ncl == CyclicAt(n, scl, k);
      var cs := fs.GetFat(ncl);
      if cs == 0 {
        return;
      }
      if cs == 1 {
        return 1;
      }
      if ncl == scl {
        return 0;
      }
      k := k + 1;
    }
  }

  /** create_chain's two stores: end mark on the new cluster first, then the link to it. */
  method LinkNew(fs: FatFs, clst: nat, ncl: nat)
    requires fs.Valid() && IsCluster(fs.Fat(), ncl) && (clst != 0 ==> IsCluster(fs.Fat(), clst))
    modifies fs`disk, fs`wflag, fs`winsect, fs`durable, fs`trace, fs.win
    ensures fs.Valid() && old(fs.durable) <= fs.durable && FatOnly(fs.g, old(fs.Image()), fs.Image()) && InFat(fs.g, fs.winsect)
    ensures fs.Fat() == Linked(old(fs.Fat()), clst, ncl, EndMark(fs.g))
    ensures !fs.g.fsType.Fat12? ==> fs.trace == old(fs.trace) + LinkSteps(old(fs.Fat()), clst, ncl, EndMark(fs.g))
  {
    hide FatOf, PutEntry, FatOnly, WithSector, InFat;
    ghost var f := fs.Fat();
    var res := fs.PutFat(ncl, 0x0FFF_FFFF);
    if clst != 0 {
      ghost var img := fs.Image();
      SmallFits(fs.g, ncl);
      res := fs.PutFat(clst, ncl);
      FatOnlyTrans(fs.g, old(fs.Image()), img, fs.Image());
    }
  }

  lemma SmallFits(g: Geometry, c: nat)
    requires FatFits(g) && c < g.nFatEnt
    ensures c % Modulus(g.fsType) == c
  {
  }

  /** The end mark has all bits of an entry set, and is no cluster number. */
  lemma EndMarkEnds(g: Geometry)
    requires FatFits(g)
    ensures EndMark(g) >= g.nFatEnt
    ensures EndMark(g) == match g.fsType case Fat12 => 0xFFF case Fat16 => 0xFFFF case Fat32 => 0xFFF_FFFF
  {
  }

  /** The second half of create_chain: search from scl, link, and account for the cluster. */
  method TakeFree(fs: FatFs, clst: nat, scl: nat) returns (ncl: nat)
    requires fs.Valid() && 1 <= scl < fs.g.nFatEnt
    requires clst != 0 ==> IsCluster(fs.Fat(), clst) && fs.Fat()[clst] >= fs.g.nFatEnt
    modifies fs`disk, fs`wflag, fs`winsect, fs`durable, fs`trace, fs`freeClust, fs`fsiDirty, fs`lastClust, fs.win
    ensures fs.Valid() && old(fs.durable) <= fs.durable && FatOnly(fs.g, old(fs.Image()), fs.Image()) && InFat(fs.g, fs.winsect)
    ensures ncl == NewCluster(old(fs.Fat()), scl)
    ensures ncl < 2 ==> fs.Image() == old(fs.Image()) && fs.trace == old(fs.trace) && fs.lastClust == old(fs.lastClust)
    ensures ncl >= 2 ==>
      && IsCluster(old(fs.Fat()), ncl) && fs.lastClust == ncl
      && fs.Fat() == Linked(old(fs.Fat()), clst, ncl, EndMark(fs.g))
      && (!fs.g.fsType.Fat12? ==> fs.trace == old(fs.trace) + LinkSteps(old(fs.Fat()), clst, ncl, EndMark(fs.g)))
      && (old(fs.freeClust) != UNKNOWN ==> fs.fsiDirty)
    ensures old(CountExact(fs)) ==> CountExact(fs)
  {
    hide FatOf, PutEntry, FatOnly, WithSector, InFat, NewCluster, EndMark, CyclicAt;
    ghost var f := fs.Fat();
    FatOnlyRefl(fs.g, fs.Image());
    SearchSound(f, scl);
    ncl := FindFree(fs, scl);
    if ncl >= 2 {
      LinkNew(fs, clst, ncl);
      EndMarkEnds(fs.g);
      LinkedCount(f, clst, ncl, EndMark(fs.g));
      fs.lastClust := ncl;
      CountDown(fs);
    }
  }

  method CountDown(fs: FatFs)
    requires fs.Valid()
    modifies fs`freeClust, fs`fsiDirty
    ensures fs.Valid()
    ensures old(fs.freeClust) == UNKNOWN ==> fs.freeClust == UNKNOWN
    ensures 0 < old(fs.freeClust) < UNKNOWN ==> fs.freeClust == old(fs.freeClust) - 1
    ensures old(fs.freeClust) != UNKNOWN ==> fs.fsiDirty
  {
    if fs.freeClust != UNKNOWN {
      fs.freeClust := Sub32(fs.freeClust, 1);
      fs.fsiDirty := true;
    }
  }

  /** create_chain: 0 no free cluster, 1 bad cluster or error mark, else the next cluster of the chain. */
  method CreateChain(fs: FatFs, clst: nat) returns (ncl: nat)
    requires fs.Valid()
    modifies fs`disk, fs`wflag, fs`winsect, fs`durable, fs`trace, fs`freeClust, fs`fsiDirty, fs`lastClust, fs.win
    ensures fs.Valid() && old(fs.durable) <= fs.durable && FatOnly(fs.g, old(fs.Image()), fs.Image())
    ensures ncl == CreateResult(old(fs.Fat()), old(fs.lastClust), clst)
    ensures fs.Fat() == CreateTable(old(fs.Fat()), old(fs.lastClust), clst, EndMark(fs.g))
    ensures fs.lastClust == if Takes(old(fs.Fat()), old(fs.lastClust), clst) then ncl else old(fs.lastClust)
    ensures Takes(old(fs.Fat()), old(fs.lastClust), clst) && old(fs.freeClust) != UNKNOWN ==> fs.fsiDirty
    ensures !Takes(old(fs.Fat()), old(fs.lastClust), clst) ==> fs.Image() == old(fs.Image()) && fs.trace == old(fs.trace)
    ensures clst == 0 || IsCluster(old(fs.Fat()), clst) ==> InFat(fs.g, fs.winsect)
    ensures !fs.g.fsType.Fat12? ==>
      fs.trace == old(fs.trace) + CreateSteps(old(fs.Fat()), old(fs.lastClust), clst, EndMark(fs.g))
    ensures old(CountExact(fs)) ==> CountExact(fs)
    ensures !fs.g.fsType.Fat12? && old(AllSafe(fs.trace)) ==> AllSafe(fs.trace)
  {
    hide FatOf, PutEntry, FatOnly, WithSector, InFat, NewCluster, EndMark, AllSafe;
    FatOnlyRefl(fs.g, fs.Image());
    EndMarkEnds(fs.g);
    CreateTraceSafe(fs.trace, fs.lastClust, clst, EndMark(fs.g));
    var scl := fs.lastClust;
    if clst == 0 {
      if scl == 0 || scl >= fs.g.nFatEnt {
        scl := 1;
      }
    } else {
      var cs := fs.GetFat(clst);
      if cs < 2 {
        return 1;
      }
      if cs < fs.g.nFatEnt {
        return cs;
      }
      scl := clst;
    }
    ncl := TakeFree(fs, clst, scl);
  }

  /**
  The FAT part of f_truncate inside a file: an end mark on the k-th cluster of the
  chain, then the clusters behind it are freed.
  */
  method CutTail(fs: FatFs, clst: nat, ghost xs: seq<nat>, ghost k: nat) returns (res: FResult)
    requires fs.Valid() && IsChain(fs.Fat(), xs) && 0 < k <= |xs| && clst == xs[k - 1]
    modifies fs`disk, fs`wflag, fs`winsect, fs`durable, fs`trace, fs`freeClust, fs`fsiDirty, fs.win
    ensures fs.Valid() && res == OK && FatOnly(fs.g, old(fs.Image()), fs.Image()) && InFat(fs.g, fs.winsect)
    ensures old(fs.durable) <= fs.durable
    ensures !fs.g.fsType.Fat12? ==> var h := old(fs.Fat())[clst := EndMark(fs.g)];
              fs.trace == old(fs.trace) + if k == |xs| then [] else [h] + FreeSteps(h, xs[k])
    ensures fs.Fat() == if k == |xs| then old(fs.Fat()) else FreeFrom(old(fs.Fat())[clst := EndMark(fs.g)], xs[k]).table
    ensures NoWorse(old(HealthOf(fs)), HealthOf(fs))
  {
    hide FatOf, PutEntry, FatOnly, WithSector, InFat, FatFits, FreeCount, AllSafe, NoLinkTo, Safe, SameOutsideFat,
      MirrorsAgree, EndMark, FreeFrom, FreeSteps, CountExact, IsChain;
    CutIndex(fs.Fat(), xs, k);
    FatOnlyRefl(fs.g, fs.Image());
    var ncl := ReadEntry(fs, clst);
    res := OK;
    if ncl == 1 {
      res := IntErr;
    }
    if res == OK && ncl < fs.g.nFatEnt {
      res := MarkEnd(fs, clst, xs[k]);
      ghost var mid := fs.Image();
      res := RemoveChain(fs, ncl);
      FreeFromTail(old(fs.Fat()), xs, k, EndMark(fs.g));
      FatOnlyTrans(fs.g, old(fs.Image()), mid, fs.Image());
      FatOnlyMirrors(fs.g, old(fs.Image()), fs.Image());
    }
  }

  lemma CutIndex(f: Table, xs: seq<nat>, k: nat)
    requires IsChain(f, xs) && 0 < k <= |xs|
    ensures IsCluster(f, xs[k - 1]) && f[xs[k - 1]] >= 2
    ensures if k == |xs| then f[xs[k - 1]] >= |f| else f[xs[k - 1]] == xs[k] && IsCluster(f, xs[k])
  {
    if k < |xs| {
      assert IsCluster(f, xs[k]);
    }
  }

  lemma FreeFromTail(f: Table, xs: seq<nat>, k: nat, end: nat)
    requires IsChain(f, xs) && 0 < k < |xs| && end >= |f|
    ensures FreeFrom(f[xs[k - 1] := end], xs[k]).ok
  {
    CutTable(f, xs, k, end);
  }

  lemma FatOnlyMirrors(g: Geometry, a: Image, b: Image)
    requires OnDrive(g, a) && OnDrive(g, b) && FatOnly(g, a, b)
    ensures MirrorsAgree(g, a) ==> MirrorsAgree(g, b)
  {
  }

  /** put_fat of the end mark on a cluster that links on; afterwards nothing links to the next one. */
  method MarkEnd(fs: FatFs, clst: nat, ghost next: nat) returns (res: FResult)
    requires fs.Valid() && IsCluster(fs.Fat(), clst) && IsCluster(fs.Fat(), next) && fs.Fat()[clst] == next
    modifies fs`disk, fs`wflag, fs`winsect, fs`durable, fs`trace, fs.win
    ensures fs.Valid() && res == OK && FatOnly(fs.g, old(fs.Image()), fs.Image())
    ensures old(fs.durable) <= fs.durable && (!fs.g.fsType.Fat12? ==> fs.trace == old(fs.trace) + [fs.Fat()])
    ensures fs.Fat() == old(fs.Fat())[clst := EndMark(fs.g)] && EndMark(fs.g) >= fs.g.nFatEnt
    ensures old(CountExact(fs)) ==> CountExact(fs)
    ensures !fs.g.fsType.Fat12? && old(AllSafe(fs.trace)) ==> AllSafe(fs.trace) && NoLinkTo(fs.Fat(), next)
  {
    hide FatOf, PutEntry, FatOnly, WithSector, InFat, FatFits, FreeCount, SameOutsideFat, MirrorsAgree, Safe,
      NoLinkTo, AllSafe;
    ghost var f := fs.Fat();
    EndMarkEnds(fs.g);
    res := fs.PutFat(clst, 0x0FFF_FFFF);
    FreeCountUpdate(f, clst, EndMark(fs.g));
    EndTraceSafe(old(fs.trace), clst, next, EndMark(fs.g));
  }

  lemma EndTraceSafe(ts: seq<Table>, c: nat, next: nat, end: nat)
    requires |ts| > 0 && IsCluster(ts[|ts| - 1], c) && end >= |ts[|ts| - 1]|
    requires IsCluster(ts[|ts| - 1], next) && ts[|ts| - 1][c] == next
    ensures AllSafe(ts) ==> AllSafe(ts + [ts[|ts| - 1][c := end]]) && NoLinkTo(ts[|ts| - 1][c := end], next)
  {
    if AllSafe(ts) {
      EndIsSafe(ts[|ts| - 1], c, end);
    }
  }
}
