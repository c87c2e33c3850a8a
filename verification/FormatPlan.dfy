/**
The arithmetic of f_mkfs in fatfs/src/ff.c: from the size of the drive and the caller's
wishes to a cluster size, a FAT type, and the place of every area of the volume.
*/
module FormatPlan {
  import opened Wrappers
  import opened Bits
  import opened Layout
  import opened Mount

  /** Volume sizes from which each automatic unit applies, in 2000 sectors, and the units in bytes. */
  const VST: seq<nat> := [1024, 512, 256, 128, 64, 32, 16, 8, 4, 2, 0]
  const CST: seq<nat> := [32768, 16384, 8192, 4096, 2048, 16384, 8192, 4096, 2048, 1024, 512]

  /** First row from i on whose volume size does not exceed vs. */
  function Row(vs: nat, i: nat): (r: nat)
    requires i < 11
    ensures i <= r < 11 && VST[r] <= vs && forall j :: i <= j < r ==> vs < VST[j]
    decreases 11 - i
  {
    if i < 10 && vs < VST[i] then Row(vs, i + 1) else i
  }

  /** Sectors per cluster for the wish au in bytes, 0 for automatic. */
  function UnitSectors(au: nat, nVol: nat): nat {
    var sectors := (if au == 0 then CST[Row(nVol / 2000, 0)] else au) / 512;
    if sectors == 0 then 1 else if sectors > 128 then 128 else sectors
  }

  datatype Plan = Plan(
    fsType: FatType,
    bVol: nat,      // volume start sector
    nVol: nat,      // sectors of the volume
    csize: nat,     // sectors per cluster
    nRsv: nat,      // reserved sectors
    nFat: nat,      // sectors of the FAT
    nDir: nat,      // sectors of the root table (FAT12/16)
    clusters: nat   // as computed, wrapped if the areas exceed the volume
  )

  /** Sectors of a FAT for n clusters. */
  function FatSectors(t: FatType, n: nat): nat {
    match t
    case Fat32 => Wrap(Wrap(n * 4) + 8 + 511) / 512
    case Fat16 => (n * 2 + 4 + 511) / 512
    case Fat12 => ((n * 3 + 1) / 2 + 3 + 511) / 512
  }

  function Reserved(t: FatType): nat {
    if t.Fat32? then 32 else 1
  }

  function RootSectors(t: FatType): nat {
    if t.Fat32? then 0 else 32
  }

  /** Erase block size as used: 0 stands for a failed request. */
  function BlockSize(block: nat): (r: nat)
    ensures 1 <= r <= 32768
  {
    if block == 0 || block > 32768 then 1 else block
  }

  /** Sectors to the next multiple of n after b. */
  function Gap(b: nat, n: nat): nat
    requires 1 <= n <= WORD32
  {
    Sub32(And(Wrap(b + n - 1), WORD32 - n), b)
  }

  /** The layout of a volume of nVol sectors at bVol, nothing if it is too small for its type. */
  function Arrange(bVol: nat, nVol: nat, csize: nat, block: nat): Option<Plan>
    requires csize > 0
  {
    var t := TypeFor(Whole(nVol, csize));
    var nFat, nRsv, nDir := FatSectors(t, Whole(nVol, csize)), Reserved(t), RootSectors(t);
    if nVol < nRsv + nFat + nDir + csize then None
    else
      var gap := Gap(bVol + nRsv + nFat + nDir, BlockSize(block));
      var r, f := if t.Fat32? then nRsv + gap else nRsv, if t.Fat32? then nFat else nFat + gap;
      var clusters := Whole(Sub32(nVol, r + f + nDir), csize);
      if (t.Fat16? && clusters < 4086) || (t.Fat32? && clusters < 65526) then None
      else Some(Plan(t, bVol, nVol, csize, r, f, nDir, clusters))
  }

  /** Start of the FAT, of the root table, and of the data area. */
  function FatStart(p: Plan): nat {
    p.bVol + p.nRsv
  }

  function DataStart(p: Plan): nat {
    FatStart(p) + p.nFat + p.nDir
  }

  /** The aligned areas leave room for a cluster. */
  predicate Roomy(p: Plan) {
    p.nRsv + p.nFat + p.nDir + p.csize <= p.nVol
  }

  /** A volume within the cluster limit of FAT32. */
  predicate Manageable(bVol: nat, nVol: nat, csize: nat) {
    csize > 0 && bVol <= 63 && bVol + nVol < WORD32 && Whole(nVol, csize) + 2 <= MaxEntries(Fat32)
  }

  // -------------------------------------------------------------- its laws

  lemma BlockIsPow2(block: nat)
    requires block == 0 || block > 32768 || IsPow2(block)
    ensures IsPow2(BlockSize(block))
  {
  }

  lemma MultipleBelow(x: nat, n: nat, q: nat, r: nat)
    requires n > 0 && x == n * q + r
    ensures (x - r) % n == 0
  {
    DivModUnique(x - r, n, q, 0);
  }

  lemma GapIs(b: nat, n: nat, x: nat, r: nat)
    requires IsPow2(n) && n <= 32768 && b + n < WORD32 && x == b + n - 1 && r == x % n && r < n
    ensures Gap(b, n) == x - r - b
  {
    hide IsPow2, And, Wrap;
    BytePowers();
    AndHighMask(x, n, WORD32);
    SubWord(b, x, r);
  }

  lemma SubWord(b: nat, x: nat, r: nat)
    requires x < WORD32 && b <= x - r
    ensures Sub32(x - r, b) == x - r - b
  {
  }

  /** The gap leads to the next multiple, and is shorter than a block. */
  lemma GapAligns(b: nat, n: nat)
    requires IsPow2(n) && n <= 32768 && b + n < WORD32
    ensures 1 <= n && Gap(b, n) < n && (b + Gap(b, n)) % n == 0
  {
    assert n >= 1;
    hide IsPow2, And, Gap;
    var x := b + n - 1;
    DivModOf(x, n);
    GapIs(b, n, x, x % n);
    MultipleBelow(x, n, x / n, x % n);
  }

  lemma WholeMono(x: nat, y: nat, c: nat)
    requires c > 0 && x <= y
    ensures Whole(x, c) <= Whole(y, c) <= y
  {
    DivModOf(x, c);
    DivModOf(y, c);
    var q, r := Whole(x, c), Whole(y, c);
    if q > r {
      ScaleLess(r, q, c);
    }
    if r > y {
      ScaleLess(y, r, c);
      Times1(y, c);
    }
  }

  lemma Times1(y: nat, c: nat)
    requires c > 0
    ensures y * c >= y
  {
    if c > 1 {
      Times1(y, c - 1);
      assert y * c == y * (c - 1) + y;
    }
  }

  /** The FAT has room for the entries of all clusters it was sized for, and of fewer. */
  lemma FatSectorsSuffice(t: FatType, n: nat, k: nat)
    requires k <= n && n + 2 <= MaxEntries(Fat32)
    ensures EntryEnd(t, k + 1) <= 512 * FatSectors(t, n)
    ensures 1 <= FatSectors(t, n) <= 0x80_0001 && (n <= 65525 && !t.Fat32? ==> FatSectors(t, n) <= 257)
  {
  }

  /** What Arrange promises whenever it yields a plan. */
  lemma PlanLaws(bVol: nat, nVol: nat, csize: nat, block: nat)
    requires Manageable(bVol, nVol, csize) && (block == 0 || block > 32768 || IsPow2(block))
    requires Arrange(bVol, nVol, csize, block).Some?
    ensures var p := Arrange(bVol, nVol, csize, block).value;
      && p.bVol == bVol && p.nVol == nVol && p.csize == csize && p.fsType == TypeFor(Whole(nVol, csize))
      && p.nDir == RootSectors(p.fsType) && 1 <= p.nRsv < 0x1_0000 && 1 <= p.nFat && (!p.fsType.Fat32? ==> p.nFat < 0x1_0000)
      && (p.fsType.Fat32? ==> p.nRsv >= 32) && DataStart(p) < WORD32 && nVol > 0
      && DataStart(p) % BlockSize(block) == 0
    ensures var p := Arrange(bVol, nVol, csize, block).value;
      Roomy(p) ==>
        && 1 <= p.clusters == Whole(nVol - p.nRsv - p.nFat - p.nDir, csize)
        && p.clusters <= nVol && TypeFor(p.clusters) == p.fsType && EntryEnd(p.fsType, p.clusters + 1) <= 512 * p.nFat
    ensures var p := Arrange(bVol, nVol, csize, block).value;
      !Roomy(p) && p.nRsv + p.nFat + p.nDir <= nVol ==> p.clusters == 0 && p.fsType.Fat12?
  {
    hide IsPow2, Gap, Whole, FatSectors, EntryEnd;
    var n := Whole(nVol, csize);
    var t := TypeFor(n);
    FatSectorsSuffice(t, n, n);
    BlockIsPow2(block);
    GapAligns(bVol + Reserved(t) + FatSectors(t, n) + RootSectors(t), BlockSize(block));
    var p := Arrange(bVol, nVol, csize, block).value;
    var used := p.nRsv + p.nFat + p.nDir;
    if used <= nVol {
      AtLeastOne(nVol - used, csize);
      WholeMono(nVol - used, nVol, csize);
      WholeIsQuotient(nVol - used, csize);
      if Roomy(p) {
        FatSectorsSuffice(t, n, p.clusters);
      }
    }
  }

  lemma WholeIsQuotient(x: nat, c: nat)
    requires c > 0
    ensures Whole(x, c) == x / c
  {
  }
}
