/**
The volume on the medium: sectors, the geometry a mount computes, and the FAT as
a table of packed 12-, 16- or 28-bit entries inside the FAT sectors.
*/
module Layout {
  import opened Bits

  type Sector = s: seq<Byte> | |s| == 512 witness seq(512, _ => 0)

  type Image = seq<Sector>

  /** A cleared sector. */
  function Zeros(): (r: Sector)
    ensures forall i :: 0 <= i < 512 ==> r[i] == 0
  {
    seq<Byte>(512, i requires 0 <= i < 512 => 0)
  }

  datatype FatType = Fat12 | Fat16 | Fat32

  /** The FATFS fields that a mount fixes, and the size of the drive. */
  datatype Geometry = Geometry(
    fsType: FatType,
    csize: nat,     // sectors per cluster
    nFats: nat,     // FAT copies
    nRootDir: nat,  // root directory entries (FAT12/16)
    nFatEnt: nat,   // number of clusters + 2
    fsize: nat,     // sectors per FAT
    volbase: nat,
    fatbase: nat,
    dirbase: nat,   // root directory start sector (FAT32: cluster)
    database: nat,
    sectors: nat    // sectors on the drive
  )

  /** Values an entry can hold. FAT32 entries have 28 bits. */
  function Modulus(t: FatType): nat {
    match t
    case Fat12 => 0x1000
    case Fat16 => 0x1_0000
    case Fat32 => 0x1000_0000
  }

  /** Largest n_fatent for which the end mark is not a cluster number. */
  function MaxEntries(t: FatType): nat {
    match t
    case Fat12 => 0xFF7
    case Fat16 => 0xFFF7
    case Fat32 => 0x0FFF_FFF7
  }

  /** First byte of entry c in the FAT, and the byte after its last. */
  function EntryStart(t: FatType, c: nat): nat {
    match t
    case Fat12 => c + c / 2
    case Fat16 => 2 * c
    case Fat32 => 4 * c
  }

  function EntryEnd(t: FatType, c: nat): nat {
    EntryStart(t, c) + match t case Fat12 => 2 case Fat16 => 2 case Fat32 => 4
  }

  /** Sector after the last FAT copy. */
  function FatEnd(g: Geometry): nat {
    if g.nFats == 2 then g.fatbase + 2 * g.fsize else g.fatbase + g.fsize
  }

  predicate InFat(g: Geometry, s: int) {
    g.fatbase <= s < g.fatbase + g.fsize
  }

  /** Start sector of cluster c. */
  function ClusterBase(g: Geometry, c: nat): int {
    g.database + (c - 2) * g.csize
  }

  /** The FAT holds all entries and lies before the data area. */
  predicate FatFits(g: Geometry) {
    && (g.nFats == 1 || g.nFats == 2)
    && 3 <= g.nFatEnt <= MaxEntries(g.fsType)
    && g.volbase < g.fatbase
    && EntryEnd(g.fsType, g.nFatEnt - 1) <= 512 * g.fsize
    && FatEnd(g) <= g.database < g.sectors < WORD32
  }

  /** What a successful mount guarantees about the areas of the volume. */
  predicate Sound(g: Geometry) {
    && FatFits(g)
    && IsPow2(g.csize) && g.csize <= 128
    && (g.fsType.Fat32? || (g.dirbase == FatEnd(g) && g.nRootDir % 16 == 0 && g.dirbase + g.nRootDir / 16 <= g.database))
    && ClusterBase(g, g.nFatEnt) <= g.sectors
  }

  predicate OnDrive(g: Geometry, img: Image) {
    FatFits(g) && |img| == g.sectors
  }

  /** Cluster 2 is the first one behind data start, and clusters follow each other. */
  lemma ClusterInPlain(g: Geometry, c: nat)
    ensures ClusterBase(g, 2) == g.database && ClusterBase(g, c + 1) == ClusterBase(g, c) + g.csize
  {
  }

  lemma ScaleLess(a: int, b: int, k: int)
    requires a < b && k > 0
    ensures a * k + k <= b * k
  {
    var d := b - a - 1;
    assert b * k == a * k + k + d * k;
  }

  /** clust2sect maps distinct clusters to disjoint sector ranges. */
  lemma ClustersDisjoint(g: Geometry, c: nat, d: nat)
    requires c < d && g.csize > 0
    ensures ClusterBase(g, c) + g.csize <= ClusterBase(g, d)
  {
    ScaleLess(c - 2, d - 2, g.csize);
  }

  lemma ClusterInside(g: Geometry, c: nat)
    requires Sound(g) && 2 <= c < g.nFatEnt
    ensures g.database <= ClusterBase(g, c) && ClusterBase(g, c) + g.csize <= g.sectors
  {
    ClustersDisjoint(g, c, g.nFatEnt);
    if c > 2 {
      ClustersDisjoint(g, 2, c);
    }
  }

  /** Byte i of the first FAT copy. */
  function FatByte(g: Geometry, img: Image, i: nat): Byte
    requires OnDrive(g, img) && i < 512 * g.fsize
  {
    FatInside(g, i);
    img[g.fatbase + i / 512][i % 512]
  }

  lemma FatInside(g: Geometry, i: nat)
    requires FatFits(g) && i < 512 * g.fsize
    ensures InFat(g, g.fatbase + i / 512) && g.fatbase + i / 512 < g.sectors
  {
  }

  lemma EntryInside(g: Geometry, c: nat)
    requires FatFits(g) && c < g.nFatEnt
    ensures EntryEnd(g.fsType, c) <= 512 * g.fsize
  {
  }

  /** Entry c of the FAT as the specification packs it. */
  function Entry(g: Geometry, img: Image, c: nat): (r: nat)
    requires OnDrive(g, img) && c < g.nFatEnt
    ensures r < Modulus(g.fsType)
  {
    EntryInside(g, c);
    var o := EntryStart(g.fsType, c);
    match g.fsType
    case Fat12 =>
      Little2(FatByte(g, img, o), FatByte(g, img, o + 1));
      var w := Little([FatByte(g, img, o), FatByte(g, img, o + 1)]);
      if c % 2 == 1 then w / 16 else w % 0x1000
    case Fat16 =>
      Little2(FatByte(g, img, o), FatByte(g, img, o + 1));
      Little([FatByte(g, img, o), FatByte(g, img, o + 1)])
    case Fat32 => RawDword(g, img, o) % 0x1000_0000
  }

  function RawDword(g: Geometry, img: Image, o: nat): (r: nat)
    requires OnDrive(g, img) && o + 4 <= 512 * g.fsize
    ensures r < WORD32
  {
    Little4(FatByte(g, img, o), FatByte(g, img, o + 1), FatByte(g, img, o + 2), FatByte(g, img, o + 3));
    Little([FatByte(g, img, o), FatByte(g, img, o + 1), FatByte(g, img, o + 2), FatByte(g, img, o + 3)])
  }

  /** The entry as 16- and 32-bit words. */
  lemma EntryWords(g: Geometry, img: Image, c: nat)
    requires OnDrive(g, img) && c < g.nFatEnt
    ensures EntryEnd(g.fsType, c) <= 512 * g.fsize
    ensures var o := EntryStart(g.fsType, c);
      match g.fsType
      case Fat12 =>
        var w := Word(FatByte(g, img, o), FatByte(g, img, o + 1));
        Entry(g, img, c) == if c % 2 == 1 then w / 16 else w % 0x1000
      case Fat16 => Entry(g, img, c) == Word(FatByte(g, img, o), FatByte(g, img, o + 1))
      case Fat32 => Entry(g, img, c) == RawDword(g, img, o) % 0x1000_0000
  {
    hide FatByte, Word;
    EntryInside(g, c);
    var o := EntryStart(g.fsType, c);
    Little2(FatByte(g, img, o), FatByte(g, img, o + 1));
  }

  /** Where the bytes of an entry lie on the drive, and how they are read: 12, 16 or the low 28 of 32 bits. */
  lemma EntryInBytes(g: Geometry, img: Image, c: nat)
    requires OnDrive(g, img) && c < g.nFatEnt
    ensures forall i: nat :: i < 512 * g.fsize ==>
      g.fatbase + i / 512 < |img| && FatByte(g, img, i) == img[g.fatbase + i / 512][i % 512]
    ensures g.fsType.Fat12? ==> c + c / 2 + 1 < 512 * g.fsize
    ensures g.fsType.Fat12? && c % 2 == 0 ==>
      FatOf(g, img)[c] == FatByte(g, img, c + c / 2) as int + 256 * (FatByte(g, img, c + c / 2 + 1) as int % 16)
    ensures g.fsType.Fat12? && c % 2 == 1 ==>
      FatOf(g, img)[c] == FatByte(g, img, c + c / 2) as int / 16 + 16 * FatByte(g, img, c + c / 2 + 1) as int
    ensures g.fsType.Fat16? ==> 2 * c + 1 < 512 * g.fsize
    ensures g.fsType.Fat16? ==>
      FatOf(g, img)[c] == FatByte(g, img, 2 * c) as int + 256 * FatByte(g, img, 2 * c + 1) as int
    ensures g.fsType.Fat32? ==> 4 * c + 3 < 512 * g.fsize
    ensures g.fsType.Fat32? ==>
      FatOf(g, img)[c] ==
        FatByte(g, img, 4 * c) as int + 256 * FatByte(g, img, 4 * c + 1) as int
        + 65536 * FatByte(g, img, 4 * c + 2) as int + 16777216 * (FatByte(g, img, 4 * c + 3) as int % 16)
  {
    hide Entry;
    FatAt(g, img, c);
    EntryWords(g, img, c);
    forall i: nat | i < 512 * g.fsize
      ensures g.fatbase + i / 512 < |img|
    {
      FatInside(g, i);
    }
    match g.fsType
    case Fat12 =>
      Pair12(FatByte(g, img, c + c / 2), FatByte(g, img, c + c / 2 + 1));
    case Fat16 =>
    case Fat32 =>
      RawDwordIs(g, img, 4 * c);
      Quad28(FatByte(g, img, 4 * c), FatByte(g, img, 4 * c + 1), FatByte(g, img, 4 * c + 2), FatByte(g, img, 4 * c + 3));
  }

  lemma Pair12(a: Byte, b: Byte)
    ensures Word(a, b) % 0x1000 == a as int + 256 * (b as int % 16)
    ensures Word(a, b) / 16 == a as int / 16 + 16 * b as int
  {
    var q, r := b as int / 16, b as int % 16;
    DivModUnique(Word(a, b), 0x1000, q, a as int + 256 * r);
    DivModUnique(Word(a, b), 16, a as int / 16 + 16 * b as int, a as int % 16);
  }

  lemma Quad28(a: Byte, b: Byte, c: Byte, d: Byte)
    ensures Dword(a, b, c, d) % 0x1000_0000 == a as int + 256 * b as int + 65536 * c as int + 16777216 * (d as int % 16)
  {
    var q, r := d as int / 16, d as int % 16;
    DivModUnique(Dword(a, b, c, d), 0x1000_0000, q, a as int + 256 * b as int + 65536 * c as int + 16777216 * r);
  }

  lemma RawDwordIs(g: Geometry, img: Image, o: nat)
    requires OnDrive(g, img) && o + 4 <= 512 * g.fsize
    ensures RawDword(g, img, o) ==
            Dword(FatByte(g, img, o), FatByte(g, img, o + 1), FatByte(g, img, o + 2), FatByte(g, img, o + 3))
  {
    Little4(FatByte(g, img, o), FatByte(g, img, o + 1), FatByte(g, img, o + 2), FatByte(g, img, o + 3));
  }

  /** The whole FAT: the abstract value of the table. */
  function FatOf(g: Geometry, img: Image): (f: seq<nat>)
    requires OnDrive(g, img)
    ensures |f| == g.nFatEnt
  {
    seq(g.nFatEnt, c requires 0 <= c < g.nFatEnt => Entry(g, img, c))
  }

  lemma FatAt(g: Geometry, img: Image, c: nat)
    requires OnDrive(g, img) && c < g.nFatEnt
    ensures FatOf(g, img)[c] == Entry(g, img, c)
  {
    hide Entry;
  }

  /** Two images with the same entries have the same table. */
  lemma FatExtensional(g: Geometry, a: Image, f: seq<nat>)
    requires OnDrive(g, a) && |f| == g.nFatEnt
    requires forall c: nat :: c < g.nFatEnt ==> f[c] == Entry(g, a, c)
    ensures FatOf(g, a) == f
  {
    forall c: nat | c < g.nFatEnt
      ensures FatOf(g, a)[c] == f[c]
    {
      FatAt(g, a, c);
    }
  }

  /** Only the first FAT copy counts. */
  lemma FatOfFrame(g: Geometry, a: Image, b: Image)
    requires OnDrive(g, a) && OnDrive(g, b)
    requires forall s {:trigger a[s]} {:trigger b[s]} :: InFat(g, s) && s < g.sectors ==> a[s] == b[s]
    ensures FatOf(g, a) == FatOf(g, b)
  {
    forall i: nat | i < 512 * g.fsize
      ensures FatByte(g, a, i) == FatByte(g, b, i)
    {
      FatInside(g, i);
    }
    var f := FatOf(g, a);
    forall c: nat | c < g.nFatEnt
      ensures f[c] == Entry(g, b, c)
    {
      EntryInside(g, c);
      FatAt(g, a, c);
    }
    FatExtensional(g, b, f);
  }

  /** Sector s replaced, in every FAT copy if it is a FAT sector. */
  function WithSector(g: Geometry, img: Image, s: nat, sec: Sector): (r: Image)
    requires OnDrive(g, img) && s < |img|
    ensures OnDrive(g, r) && r[s] == sec
  {
    if g.nFats == 2 && InFat(g, s) then img[s := sec][s + g.fsize := sec] else img[s := sec]
  }

  /** A sector of the first FAT copy is stored in the second one too, every other sector once. */
  lemma WithSectorInPlain(g: Geometry, img: Image, s: nat, sec: Sector, t: nat)
    requires OnDrive(g, img) && s < |img| && t < |img|
    ensures |WithSector(g, img, s, sec)| == |img|
    ensures WithSector(g, img, s, sec)[t] ==
            if t == s || (g.nFats == 2 && g.fatbase <= s < g.fatbase + g.fsize && t == s + g.fsize) then sec else img[t]
  {
  }

  predicate Mirrored(g: Geometry, img: Image, s: int) {
    0 <= s && s + g.fsize < |img| ==> img[s + g.fsize] == img[s]
  }

  /** All FAT copies hold the same sectors. */
  ghost predicate MirrorsAgree(g: Geometry, img: Image)
    requires OnDrive(g, img)
  {
    g.nFats == 2 ==> forall s {:trigger Mirrored(g, img, s)} :: InFat(g, s) ==> Mirrored(g, img, s)
  }

  lemma WithSectorMirrors(g: Geometry, img: Image, s: nat, sec: Sector)
    requires OnDrive(g, img) && s < |img| && MirrorsAgree(g, img)
    requires InFat(g, s) || !(g.fatbase <= s < FatEnd(g))
    ensures MirrorsAgree(g, WithSector(g, img, s, sec))
  {
    if g.nFats == 2 {
        var r := WithSector(g, img, s, sec);
      forall t | InFat(g, t)
        ensures Mirrored(g, r, t)
      {
        assert Mirrored(g, img, t);
      }
    }
  }

  /** The image after FAT byte i has been set, as a store through the window leaves it. */
  function WithFatByte(g: Geometry, img: Image, i: nat, b: Byte): (r: Image)
    requires OnDrive(g, img) && i < 512 * g.fsize
    ensures OnDrive(g, r)
  {
    FatInside(g, i);
    var s := g.fatbase + i / 512;
    WithSector(g, img, s, img[s][i % 512 := b])
  }

  lemma WithFatByteAt(g: Geometry, img: Image, i: nat, b: Byte, j: nat)
    requires OnDrive(g, img) && i < 512 * g.fsize && j < 512 * g.fsize
    ensures FatByte(g, WithFatByte(g, img, i, b), j) == if i == j then b else FatByte(g, img, j)
  {
    FatInside(g, i);
    FatInside(g, j);
  }

  /** Sector i of a transfer buffer. */
  function Slice(data: seq<Byte>, i: nat): Sector
    requires 512 * i + 512 <= |data|
  {
    data[512 * i..512 * i + 512]
  }

  function Patched(img: Image, s: nat, data: seq<Byte>, i: nat): Sector
    requires i < |img| && |data| % 512 == 0
  {
    if s <= i < s + |data| / 512 then Slice(data, i - s) else img[i]
  }

  /** The image after whole sectors have been written from sector s on. */
  function Blit(img: Image, s: nat, data: seq<Byte>): (r: Image)
    requires |data| % 512 == 0 && s + |data| / 512 <= |img|
    ensures |r| == |img|
  {
    seq<Sector>(|img|, i requires 0 <= i < |img| => Patched(img, s, data, i))
  }

  /** The bytes of n sectors from sector s on. */
  function Raw(img: Image, s: nat, n: nat): (d: seq<Byte>)
    requires s + n <= |img|
    ensures |d| == 512 * n
  {
    if n == 0 then [] else Raw(img, s, n - 1) + img[s + n - 1]
  }

  lemma {:induction false} RawAt(img: Image, s: nat, n: nat, k: nat)
    requires s + n <= |img| && k < 512 * n
    ensures Raw(img, s, n)[k] == img[s + k / 512][k % 512]
  {
    if k < 512 * (n - 1) {
      RawAt(img, s, n - 1, k);
    }
  }

  lemma BlitAt(img: Image, s: nat, data: seq<Byte>, i: nat)
    requires |data| % 512 == 0 && s + |data| / 512 <= |img| && i < |img|
    ensures Blit(img, s, data)[i] == if s <= i < s + |data| / 512 then Slice(data, i - s) else img[i]
  {
  }
}
