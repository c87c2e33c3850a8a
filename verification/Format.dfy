/**
f_mkfs of fatfs/src/ff.c: the sectors it writes, and what a mount finds afterwards.
*/
module Format {
  import opened Wrappers
  import opened Bits
  import opened Layout
  import opened Mount
  import opened FormatPlan

  const OEM_NAME: seq<Byte> := [0xEB, 0xFE, 0x90, 0x4D, 0x53, 0x44, 0x4F, 0x53, 0x35, 0x2E, 0x30]
  const NO_NAME: seq<Byte> := [0x4E, 0x4F, 0x20, 0x4E, 0x41, 0x4D, 0x45, 0x20, 0x20, 0x20, 0x20]
  const FAT32_NAME: seq<Byte> := [0x46, 0x41, 0x54, 0x33, 0x32, 0x20, 0x20, 0x20]
  const FAT_NAME: seq<Byte> := [0x46, 0x41, 0x54, 0x20, 0x20, 0x20, 0x20, 0x20]

  // ------------------------------------------------------------ the sectors

  function PutByte(s: Sector, o: nat, b: nat): (r: Sector)
    requires o < 512
    ensures r[o] == b % 256 && forall i :: 0 <= i < 512 && i != o ==> r[i] == s[i]
  {
    s[o := b % 256]
  }

  function PutWord(s: Sector, o: nat, v: nat): (r: Sector)
    requires o + 2 <= 512
    ensures LdWord(r, o) == v % 0x1_0000
    ensures forall i :: 0 <= i < 512 && !(o <= i < o + 2) ==> r[i] == s[i]
  {
    StWord(s, o, v)
  }

  function PutDword(s: Sector, o: nat, v: nat): (r: Sector)
    requires o + 4 <= 512
    ensures LdDword(r, o) == v % WORD32
    ensures forall i :: 0 <= i < 512 && !(o <= i < o + 4) ==> r[i] == s[i]
  {
    StDword(s, o, v)
  }

  /** System type of the partition. */
  function SystemId(p: Plan): nat {
    if p.fsType.Fat32? then 0x0C
    else if p.fsType.Fat12? && p.nVol < 0x1_0000 then 0x01
    else if p.nVol < 0x1_0000 then 0x04 else 0x06
  }

  /** Sector 0 of a partitioned drive. */
  function MasterBoot(p: Plan): Sector {
    var n := (p.bVol + p.nVol) / 63 / 255;
    var s0 := PutByte(PutByte(PutByte(Zeros(), 447, 1), 448, 1), 449, 0);
    var s1 := PutByte(PutByte(s0, 450, SystemId(p)), 451, 254);
    var s2 := PutByte(PutByte(s1, 452, Or(n / 4, 63)), 453, n);
    PutWord(PutDword(PutDword(s2, 454, 63), 458, p.nVol), 510, 0xAA55)
  }

  /** Media descriptor: 0xF0 without, 0xF8 with a partition table. */
  function Media(p: Plan): Byte {
    if p.bVol == 0 then 0xF0 else 0xF8
  }

  /** The part of the boot sector common to all types. */
  function BootHead(p: Plan): Sector {
    var s0 := PutWord(Spliced(Zeros(), 0, OEM_NAME), 11, 512);
    var s1 := PutByte(PutWord(PutByte(s0, 13, p.csize), 14, p.nRsv), 16, 1);
    var s2 := PutWord(s1, 17, if p.fsType.Fat32? then 0 else 512);
    var s3 := if p.nVol < 0x1_0000 then PutWord(s2, 19, p.nVol) else PutDword(s2, 32, p.nVol);
    PutDword(PutWord(PutWord(PutByte(s3, 21, Media(p)), 24, 63), 26, 255), 28, p.bVol)
  }

  function BootTail32(s: Sector, p: Plan, time: nat): Sector {
    var s0 := PutDword(PutDword(PutDword(s, 67, time), 36, p.nFat), 44, 2);
    var s1 := PutByte(PutByte(PutWord(PutWord(s0, 48, 1), 50, 6), 64, 0x80), 66, 0x29);
    Spliced(Spliced(s1, 71, NO_NAME), 82, FAT32_NAME)
  }

  function BootTail16(s: Sector, p: Plan, time: nat): Sector {
    var s0 := PutWord(PutDword(s, 39, time), 22, p.nFat);
    Spliced(Spliced(PutByte(PutByte(s0, 36, 0x80), 38, 0x29), 43, NO_NAME), 54, FAT_NAME)
  }

  function BootSector(p: Plan, time: nat): Sector {
    var s := BootHead(p);
    PutWord(if p.fsType.Fat32? then BootTail32(s, p, time) else BootTail16(s, p, time), 510, 0xAA55)
  }

  /** First sector of the FAT: the reserved entries and, on FAT32, the root directory's. */
  function FatHead(p: Plan): Sector {
    match p.fsType
    case Fat12 => PutDword(Zeros(), 0, Or(Media(p), 0x00FF_FF00))
    case Fat16 => PutDword(Zeros(), 0, Or(Media(p), 0xFFFF_FF00))
    case Fat32 => PutDword(PutDword(PutDword(Zeros(), 0, Or(Media(p), 0xFFFF_FF00)), 4, 0xFFFF_FFFF), 8, 0x0FFF_FFFF)
  }

  function InfoSector(p: Plan): Sector {
    var s0 := PutDword(PutDword(Zeros(), 0, 0x4161_5252), 484, 0x6141_7272);
    PutWord(PutDword(PutDword(s0, 488, Sub32(p.clusters, 1)), 492, 2), 510, 0xAA55)
  }

  /** Sectors cleared for the root directory. */
  function RootLength(p: Plan): nat {
    if p.fsType.Fat32? then p.csize else p.nDir
  }

  /** Sector s of the drive after a complete run. */
  function Expected(disk: Image, p: Plan, time: nat, s: nat): Sector
    requires s < |disk|
  {
    var b := FatStart(p);
    if p.fsType.Fat32? && (s == p.bVol + 1 || s == p.bVol + 7) then InfoSector(p)
    else if s == b then FatHead(p)
    else if b < s < b + p.nFat + RootLength(p) then Zeros()
    else if s == p.bVol || (p.fsType.Fat32? && s == p.bVol + 6) then BootSector(p, time)
    else if s == 0 then MasterBoot(p)
    else disk[s]
  }

  predicate Formatted(disk: Image, img: Image, p: Plan, time: nat) {
    |img| == |disk| && forall s :: 0 <= s < |img| ==> img[s] == Expected(disk, p, time, s)
  }

  // ------------------------------------------------------------- formatting

  datatype FormatResult = Done | BadParameter | DriveError | Aborted

  /** The loop of f_mkfs over the rows of its size table. */
  method AutoUnit(vs: nat) returns (unit: nat)
    ensures unit == CST[Row(vs, 0)]
  {
    var i := 0;
    while vs < VST[i]
      invariant i < 11 && Row(vs, 0) == Row(vs, i)
    {
      i := i + 1;
    }
    unit := CST[i];
  }

  method ChooseUnit(au: nat, nVol: nat) returns (unit: nat)
    ensures unit == UnitSectors(au, nVol) > 0
  {
    hide Row;
    unit := au;
    if au == 0 {
      unit := AutoUnit(nVol / 2000);
    }
    unit := unit / 512;
    if unit == 0 {
      unit := 1;
    }
    if unit > 128 {
      unit := 128;
    }
  }

  /** n sectors from wsect on cleared, up to the end of the drive. */
  method ClearSectors(disk: Image, wsect: nat, n: nat) returns (ok: bool, img: Image)
    ensures ok <==> n == 0 || wsect + n <= |disk|
    ensures |img| == |disk|
    ensures ok ==> forall s :: 0 <= s < |img| ==> img[s] == if wsect <= s < wsect + n then Zeros() else disk[s]
  {
    img := disk;
    var i := 0;
    while i < n
      invariant i <= n && |img| == |disk| && (i > 0 ==> wsect + i <= |disk|)
      invariant forall s :: 0 <= s < |img| ==> img[s] == if wsect <= s < wsect + i then Zeros() else disk[s]
    {
      if wsect + i >= |img| {
        return false, img;
      }
      img := img[wsect + i := Zeros()];
      i := i + 1;
    }
    ok := true;
  }

  /** The plan f_mkfs follows on a drive of the given size. */
  function PlanFor(size: nat, sfd: nat, au: nat, block: nat): Option<Plan>
    requires size >= 128
  {
    var bVol := if sfd == 1 then 0 else 63;
    Arrange(bVol, size - bVol, UnitSectors(au, size - bVol), block)
  }

  /** The plan has no more clusters than FAT32 can number. */
  predicate Numbered(size: nat, sfd: nat, au: nat)
  {
    var bVol := if sfd == 1 then 0 else 63;
    size >= 128 ==> Manageable(bVol, size - bVol, UnitSectors(au, size - bVol))
  }

  /** The areas lie on the drive. */
  predicate OnMedium(p: Plan, size: nat) {
    FatStart(p) + p.nFat + RootLength(p) <= size
  }

  /** The writing part of f_mkfs; failing writes of backup sectors are ignored. */
  method WriteVolume(disk: Image, p: Plan, time: nat) returns (ok: bool, img: Image)
    requires |disk| >= 128 && (p.bVol == 0 || p.bVol == 63)
    requires 1 <= p.nRsv && 1 <= p.nFat && (p.fsType.Fat32? ==> p.nRsv >= 32)
    requires p.csize > 0 && p.nDir == RootSectors(p.fsType)
    ensures |img| == |disk|
    ensures ok <==> OnMedium(p, |disk|)
    ensures ok ==> Formatted(disk, img, p, time)
  {
    hide MasterBoot, BootSector, FatHead, InfoSector;
    img := disk;
    if p.bVol != 0 {
      img := img[0 := MasterBoot(p)];
    }
    img := img[p.bVol := BootSector(p, time)];
    if p.fsType.Fat32? && p.bVol + 6 < |img| {
      img := img[p.bVol + 6 := BootSector(p, time)];
    }
    var wsect := FatStart(p);
    if wsect >= |img| {
      return false, img;
    }
    img := img[wsect := FatHead(p)];
    ok, img := ClearSectors(img, wsect + 1, p.nFat - 1);
    if !ok {
      return;
    }
    ok, img := ClearSectors(img, wsect + p.nFat, RootLength(p));
    if !ok {
      return;
    }
    if p.fsType.Fat32? {
      img := img[p.bVol + 1 := InfoSector(p)][p.bVol + 7 := InfoSector(p)];
    }
  }

  /** f_mkfs on a drive that is ready; block is the answer to GET_BLOCK_SIZE, 0 for none. */
  method MakeFs(disk: Image, sfd: nat, au: nat, block: nat, time: nat) returns (res: FormatResult, img: Image)
    requires |disk| < WORD32 && au < WORD32 && Numbered(|disk|, sfd, au)
    requires block == 0 || block > 32768 || IsPow2(block)
    ensures |img| == |disk|
    ensures res == BadParameter <==> sfd > 1 || (au > 0 && !IsPow2(au))
    ensures res == BadParameter || res == Aborted ==> img == disk
    ensures res != BadParameter && |disk| < 128 ==> res == DriveError && img == disk
    ensures res != BadParameter && |disk| >= 128 ==>
      match PlanFor(|disk|, sfd, au, block)
      case None => res == Aborted
      case Some(p) => if OnMedium(p, |disk|) then res == Done && Formatted(disk, img, p, time) else res == DriveError
  {
    hide IsPow2, And, Formatted, Expected, Arrange, UnitSectors, Whole, EntryEnd, Roomy;
    img := disk;
    if sfd > 1 {
      return BadParameter, img;
    }
    if au > 0 {
      LowestBit(au);
      if And(au, au - 1) != 0 {
        return BadParameter, img;
      }
    }
    if |disk| < 128 {
      return DriveError, img;
    }
    var bVol := if sfd == 1 then 0 else 63;
    var nVol := |disk| - bVol;
    var unit := ChooseUnit(au, nVol);
    var plan := Arrange(bVol, nVol, unit, block);
    if plan.None? {
      return Aborted, img;
    }
    PlanLaws(bVol, nVol, unit, block);
    var ok;
    ok, img := WriteVolume(disk, plan.value, time);
    res := if ok then Done else DriveError;
  }
}
