/**
The FAT entry law: what put_fat does to the image, and that as a change of the
decoded table it replaces one entry and nothing else.
*/
module Entries {
  import opened Bits
  import opened Layout

  /** The two bytes put_fat stores for a FAT12 entry, given the bytes they replace. */
  function Low12(c: nat, v: nat, old0: Byte): Byte {
    if c % 2 == 1 then Or(And(old0, 0x0F), v % 256 * 16) % 256 else v % 256
  }

  function High12(c: nat, v: nat, old1: Byte): Byte {
    if c % 2 == 1 then v / 16 % 256 else MergeNibbles(old1, v / 256 % 256) % 256
  }

  function MergeNibbles(x: nat, n: nat): nat {
    Or(And(x, 0xF0), And(n, 0x0F))
  }

  lemma Low12Meaning(c: nat, v: nat, old0: Byte)
    ensures Low12(c, v, old0) == if c % 2 == 1 then old0 % 16 + v % 16 * 16 else v % 256
  {
    BytePowers();
    AndMask(old0, 16);
    OrDisjoint(old0 as int % 16, v % 256, 16);
    NibbleShift(old0 as int % 16, v);
  }

  lemma NibbleShift(b: nat, v: nat)
    requires b < 16
    ensures (b + v % 256 * 16) % 256 == b + v % 16 * 16
  {
    var w := v % 256;
    SplitMod(v, 16, 16, 256);
    DivModUnique(b + w * 16, 256, w / 16, b + w % 16 * 16);
  }

  lemma High12Meaning(c: nat, v: nat, old1: Byte)
    ensures High12(c, v, old1) == if c % 2 == 1 then v / 16 % 256 else old1 / 16 * 16 + v / 256 % 16
  {
    var n := v / 256 % 256;
    NibbleMerge(old1, n);
    NibbleOfByte(v / 256);
  }

  lemma NibbleOfByte(w: nat)
    ensures w % 256 % 16 == w % 16
  {
  }

  lemma NibbleMerge(x: nat, n: nat)
    requires x < 256
    ensures MergeNibbles(x, n) == x / 16 * 16 + n % 16 < 256
  {
    hide And, Or, IsPow2;
    BytePowers();
    AndHighMask(x, 16, 256);
    AndMask(n, 16);
    OrDisjoint(n % 16, x / 16, 16);
    OrSwap(n % 16, x / 16 * 16);
  }

  lemma {:induction false} OrSwap(a: nat, b: nat)
    ensures Or(a, b) == Or(b, a)
  {
    if a > 0 && b > 0 {
      OrSwap(a / 2, b / 2);
    }
  }

  /** Nibble arithmetic behind the FAT12 packing. */
  lemma Split12(v: nat)
    ensures v % 256 + 256 * (v / 256 % 16) == v % 0x1000
    ensures v % 16 + 16 * (v / 16 % 256) == v % 0x1000
  {
    SplitMod(v, 256, 16, 0x1000);
    SplitMod(v, 16, 256, 0x1000);
  }

  lemma UpperTwelve(b0: nat, n: nat, h: nat)
    requires b0 < 16
    ensures (b0 + n * 16 + 256 * h) / 16 == n + 16 * h
  {
  }

  lemma LowerTwelve(b0: nat, k: nat, n: nat)
    requires b0 < 256 && n < 16
    ensures (b0 + 256 * (k * 16 + n)) % 0x1000 == b0 + 256 * n
  {
  }

  /** The 32-bit word put_fat stores for a FAT32 entry: the reserved top nibble is kept. */
  function Merge32(v: nat, was: nat): nat
    requires was < WORD32
  {
    Or(v, And(was, 0xF000_0000))
  }

  lemma Merge32Meaning(v: nat, was: nat)
    requires was < WORD32
    ensures Merge32(v, was) % 0x1000_0000 == v % 0x1000_0000
    ensures v < 0x1000_0000 ==> Merge32(v, was) == v + was / 0x1000_0000 * 0x1000_0000
  {
    hide And;
    var top := was / 0x1000_0000;
    TopNibbleMask(was);
    OrTopNibble(v, top);
    ModOfSum(v % 0x1000_0000, Or(v / 0x1000_0000, top));
    if v < 0x1000_0000 {
      assert v / 0x1000_0000 == 0;
    }
  }

  lemma TopNibbleMask(was: nat)
    requires was < WORD32
    ensures And(was, 0xF000_0000) == was / 0x1000_0000 * 0x1000_0000
  {
    hide And, IsPow2;
    BytePowers();
    PowUp(0x100_0000);
    AndHighMask(was, 0x1000_0000, WORD32);
  }

  lemma ModOfSum(r: nat, k: nat)
    requires r < 0x1000_0000
    ensures (r + k * 0x1000_0000) % 0x1000_0000 == r
  {
  }

  /** The image put_fat leaves, step by step as the code stores it. */
  function PutEntry(g: Geometry, img: Image, c: nat, v: nat): (r: Image)
    requires OnDrive(g, img) && c < g.nFatEnt
    ensures OnDrive(g, r)
  {
    match g.fsType
    case Fat12 => PutEntry12(g, img, c, v)
    case Fat16 => PutEntry16(g, img, c, v)
    case Fat32 => PutEntry32(g, img, c, v)
  }

  /** FAT12 only: the image between the two byte stores of put_fat. */
  function PutFirstHalf(g: Geometry, img: Image, c: nat, v: nat): (r: Image)
    requires OnDrive(g, img) && c < g.nFatEnt && g.fsType.Fat12?
    ensures OnDrive(g, r)
  {
    EntryInside(g, c);
    var o := EntryStart(g.fsType, c);
    WithFatByte(g, img, o, Low12(c, v, FatByte(g, img, o)))
  }

  function PutEntry12(g: Geometry, img: Image, c: nat, v: nat): (r: Image)
    requires OnDrive(g, img) && c < g.nFatEnt && g.fsType.Fat12?
    ensures OnDrive(g, r)
  {
    PutSecondHalf(g, PutFirstHalf(g, img, c, v), c, v)
  }

  function PutSecondHalf(g: Geometry, half: Image, c: nat, v: nat): (r: Image)
    requires OnDrive(g, half) && c < g.nFatEnt && g.fsType.Fat12?
    ensures OnDrive(g, r)
  {
    EntryInside(g, c);
    var o := EntryStart(g.fsType, c);
    WithFatByte(g, half, o + 1, High12(c, v, FatByte(g, half, o + 1)))
  }

  /** Sector and offset of a 16- or 32-bit entry, which never straddles sectors. */
  lemma WideSlot(g: Geometry, c: nat)
    requires FatFits(g) && c < g.nFatEnt
    ensures g.fsType.Fat16? ==> InFat(g, g.fatbase + 2 * c / 512) && 2 * c % 512 + 2 <= 512 && 2 * c + 2 <= 512 * g.fsize
    ensures g.fsType.Fat32? ==> InFat(g, g.fatbase + 4 * c / 512) && 4 * c % 512 + 4 <= 512 && 4 * c + 4 <= 512 * g.fsize
  {
    EntryInside(g, c);
  }

  function Sector16(g: Geometry, img: Image, c: nat, v: nat): (r: Sector)
    requires OnDrive(g, img) && c < g.nFatEnt && g.fsType.Fat16?
  {
    WideSlot(g, c);
    StWord(img[g.fatbase + 2 * c / 512], 2 * c % 512, v)
  }

  function PutEntry16(g: Geometry, img: Image, c: nat, v: nat): (r: Image)
    requires OnDrive(g, img) && c < g.nFatEnt && g.fsType.Fat16?
    ensures OnDrive(g, r)
  {
    WideSlot(g, c);
    WithSector(g, img, g.fatbase + 2 * c / 512, Sector16(g, img, c, v))
  }

  function Sector32(g: Geometry, img: Image, c: nat, v: nat): (r: Sector)
    requires OnDrive(g, img) && c < g.nFatEnt && g.fsType.Fat32?
  {
    WideSlot(g, c);
    StDword(img[g.fatbase + 4 * c / 512], 4 * c % 512, Merge32(v, RawDword(g, img, 4 * c)))
  }

  function PutEntry32(g: Geometry, img: Image, c: nat, v: nat): (r: Image)
    requires OnDrive(g, img) && c < g.nFatEnt && g.fsType.Fat32?
    ensures OnDrive(g, r)
  {
    WideSlot(g, c);
    WithSector(g, img, g.fatbase + 4 * c / 512, Sector32(g, img, c, v))
  }

  /** Which FAT bytes differ after a store. */
  ghost predicate SameBytesOutside(g: Geometry, a: Image, b: Image, lo: nat, hi: nat)
    requires OnDrive(g, a) && OnDrive(g, b)
  {
    forall i: nat :: i < 512 * g.fsize && !(lo <= i < hi) ==> FatByte(g, b, i) == FatByte(g, a, i)
  }

  lemma PutBytes(g: Geometry, img: Image, c: nat, v: nat)
    requires OnDrive(g, img) && c < g.nFatEnt
    ensures SameBytesOutside(g, img, PutEntry(g, img, c, v), EntryStart(g.fsType, c), EntryEnd(g.fsType, c))
  {
    match g.fsType
    case Fat12 => PutOtherBytes12(g, img, c, v);
    case Fat16 => PutOtherBytes16(g, img, c, v);
    case Fat32 => PutOtherBytes32(g, img, c, v);
  }

  lemma PutOtherBytes16(g: Geometry, img: Image, c: nat, v: nat)
    requires OnDrive(g, img) && c < g.nFatEnt && g.fsType.Fat16?
    ensures SameBytesOutside(g, img, PutEntry16(g, img, c, v), 2 * c, 2 * c + 2)
  {
    WideSlot(g, c);
    StoreBytes(g, img, g.fatbase + 2 * c / 512, Sector16(g, img, c, v), 2 * c, 2 * c + 2);
  }

  lemma PutOtherBytes32(g: Geometry, img: Image, c: nat, v: nat)
    requires OnDrive(g, img) && c < g.nFatEnt && g.fsType.Fat32?
    ensures SameBytesOutside(g, img, PutEntry32(g, img, c, v), 4 * c, 4 * c + 4)
  {
    WideSlot(g, c);
    StoreBytes(g, img, g.fatbase + 4 * c / 512, Sector32(g, img, c, v), 4 * c, 4 * c + 4);
  }

  lemma StoreBytes(g: Geometry, img: Image, s: nat, sec: Sector, lo: nat, hi: nat)
    requires OnDrive(g, img) && InFat(g, s) && s < |img| && lo < hi
    requires lo / 512 == (hi - 1) / 512 == s - g.fatbase
    requires forall k :: 0 <= k < 512 && !(lo % 512 <= k <= (hi - 1) % 512) ==> sec[k] == img[s][k]
    ensures SameBytesOutside(g, img, WithSector(g, img, s, sec), lo, hi)
  {
    var r := WithSector(g, img, s, sec);
    forall i: nat | i < 512 * g.fsize && !(lo <= i < hi)
      ensures FatByte(g, r, i) == FatByte(g, img, i)
    {
      FatInside(g, i);
    }
  }

  lemma PutOtherBytes12(g: Geometry, img: Image, c: nat, v: nat)
    requires OnDrive(g, img) && c < g.nFatEnt && g.fsType.Fat12?
    ensures SameBytesOutside(g, img, PutEntry12(g, img, c, v), EntryStart(g.fsType, c), EntryEnd(g.fsType, c))
  {
    EntryInside(g, c);
    var o := EntryStart(g.fsType, c);
    var half := PutFirstHalf(g, img, c, v);
    var b0, b1 := FatByte(g, img, o), FatByte(g, half, o + 1);
    forall i: nat | i < 512 * g.fsize && !(o <= i < o + 2)
      ensures FatByte(g, PutEntry12(g, img, c, v), i) == FatByte(g, img, i)
    {
      WithFatByteAt(g, img, o, Low12(c, v, b0), i);
      WithFatByteAt(g, half, o + 1, High12(c, v, b1), i);
    }
  }

  lemma PutOwn(g: Geometry, img: Image, c: nat, v: nat)
    requires OnDrive(g, img) && c < g.nFatEnt
    ensures Entry(g, PutEntry(g, img, c, v), c) == v % Modulus(g.fsType)
    ensures Modulus(g.fsType) == if g.fsType.Fat12? then 0x1000 else if g.fsType.Fat16? then 0x1_0000 else 0x1000_0000
  {
    EntryInside(g, c);
    match g.fsType
    case Fat12 => PutOwn12(g, img, c, v);
    case Fat16 => PutOwn16(g, img, c, v);
    case Fat32 => PutOwn32(g, img, c, v);
  }

  lemma PutOwn12(g: Geometry, img: Image, c: nat, v: nat)
    requires OnDrive(g, img) && c < g.nFatEnt && g.fsType.Fat12?
    ensures Entry(g, PutEntry12(g, img, c, v), c) == v % 0x1000
  {
    EntryInside(g, c);
    var o := EntryStart(g.fsType, c);
    PutBytes12(g, img, c, v);
    EntryWords(g, PutEntry12(g, img, c, v), c);
    Pack12(c, v, FatByte(g, img, o), FatByte(g, img, o + 1));
  }

  lemma Pack12(c: nat, v: nat, b0: Byte, b1: Byte)
    ensures var w := Word(Low12(c, v, b0), High12(c, v, b1));
      (if c % 2 == 1 then w / 16 else w % 0x1000) == v % 0x1000
  {
    Low12Meaning(c, v, b0);
    High12Meaning(c, v, b1);
    Split12(v);
    if c % 2 == 1 {
      UpperTwelve(b0 as int % 16, v % 16, v / 16 % 256);
    } else {
      LowerTwelve(v % 256, b1 as int / 16, v / 256 % 16);
    }
  }

  lemma PutOwn16(g: Geometry, img: Image, c: nat, v: nat)
    requires OnDrive(g, img) && c < g.nFatEnt && g.fsType.Fat16?
    ensures Entry(g, PutEntry16(g, img, c, v), c) == v % 0x1_0000
  {
    EntryInside(g, c);
    EntryWords(g, PutEntry16(g, img, c, v), c);
    FatInside(g, 2 * c);
    FatInside(g, 2 * c + 1);
    assert (2 * c + 1) / 512 == 2 * c / 512 && (2 * c + 1) % 512 == 2 * c % 512 + 1;
  }

  /** Entries of u = 2 or 4 bytes do not straddle sectors. */
  lemma SlotInSector(u: nat, c: nat, k: nat)
    requires (u == 2 || u == 4) && k < u
    ensures u * c % 512 + u <= 512
    ensures (u * c + k) / 512 == u * c / 512 && (u * c + k) % 512 == u * c % 512 + k
  {
    if u == 2 {
      var q, r := c / 256, c % 256;
      assert 2 * c == q * 512 + 2 * r;
      DivModUnique(2 * c, 512, q, 2 * r);
      DivModUnique(2 * c + k, 512, q, 2 * r + k);
    } else {
      var q, r := c / 128, c % 128;
      assert 4 * c == q * 512 + 4 * r;
      DivModUnique(4 * c, 512, q, 4 * r);
      DivModUnique(4 * c + k, 512, q, 4 * r + k);
    }
  }

  lemma SectorWord(g: Geometry, img: Image, c: nat)
    requires OnDrive(g, img) && 2 * c + 2 <= 512 * g.fsize
    ensures 2 * c % 512 + 2 <= 512
    ensures InFat(g, g.fatbase + 2 * c / 512) && g.fatbase + 2 * c / 512 < |img|
    ensures LdWord(img[g.fatbase + 2 * c / 512], 2 * c % 512) == Word(FatByte(g, img, 2 * c), FatByte(g, img, 2 * c + 1))
  {
    hide Word, LdWord, IsPow2, EntryEnd;
    SlotInSector(2, c, 1);
    FatInside(g, 2 * c);
    FatInside(g, 2 * c + 1);
  }

  lemma PutRaw32(g: Geometry, img: Image, c: nat, v: nat)
    requires OnDrive(g, img) && c < g.nFatEnt && g.fsType.Fat32?
    ensures 4 * c + 4 <= 512 * g.fsize
    ensures RawDword(g, PutEntry32(g, img, c, v), 4 * c) == Merge32(v, RawDword(g, img, 4 * c)) % WORD32
  {
    EntryInside(g, c);
    SectorDword(g, img, c);
    SectorDword(g, PutEntry32(g, img, c, v), c);
  }

  lemma PutOwn32(g: Geometry, img: Image, c: nat, v: nat)
    requires OnDrive(g, img) && c < g.nFatEnt && g.fsType.Fat32?
    ensures Entry(g, PutEntry32(g, img, c, v), c) == v % 0x1000_0000
  {
    PutRaw32(g, img, c, v);
    var was := RawDword(g, img, 4 * c);
    Merge32Meaning(v, was);
    LowBitsOfWord(Merge32(v, was));
  }

  /** The four reserved bits of a FAT32 entry survive every store of a 28-bit value. */
  lemma PutKeepsReserved32(g: Geometry, img: Image, c: nat, v: nat)
    requires OnDrive(g, img) && c < g.nFatEnt && g.fsType.Fat32? && v < 0x1000_0000
    ensures 4 * c + 4 <= 512 * g.fsize
    ensures RawDword(g, PutEntry32(g, img, c, v), 4 * c) / 0x1000_0000 == RawDword(g, img, 4 * c) / 0x1000_0000
  {
    PutRaw32(g, img, c, v);
    var was := RawDword(g, img, 4 * c);
    Merge32Meaning(v, was);
    TopOfSum(v, was);
  }

  lemma TopOfSum(v: nat, w: nat)
    requires v < 0x1000_0000 && w < WORD32
    ensures (v + w / 0x1000_0000 * 0x1000_0000) % WORD32 / 0x1000_0000 == w / 0x1000_0000
  {
  }

  lemma LowBitsOfWord(m: nat)
    ensures m % WORD32 % 0x1000_0000 == m % 0x1000_0000
  {
  }

  lemma SectorDword(g: Geometry, img: Image, c: nat)
    requires OnDrive(g, img) && 4 * c + 4 <= 512 * g.fsize
    ensures 4 * c % 512 + 4 <= 512
    ensures InFat(g, g.fatbase + 4 * c / 512) && g.fatbase + 4 * c / 512 < |img|
    ensures RawDword(g, img, 4 * c) == LdDword(img[g.fatbase + 4 * c / 512], 4 * c % 512)
  {
    hide Dword, Word, LdDword, RawDword, IsPow2, EntryEnd, Little;
    RawDwordIs(g, img, 4 * c);
    SlotInSector(4, c, 1);
    SlotInSector(4, c, 2);
    SlotInSector(4, c, 3);
    FatInside(g, 4 * c);
    FatInside(g, 4 * c + 1);
    FatInside(g, 4 * c + 2);
    FatInside(g, 4 * c + 3);
  }

  /** Another entry decodes as before, even when it shares a byte with entry c. */
  lemma PutOther(g: Geometry, img: Image, c: nat, v: nat, d: nat)
    requires OnDrive(g, img) && c < g.nFatEnt && d < g.nFatEnt && c != d
    ensures Entry(g, PutEntry(g, img, c, v), d) == Entry(g, img, d)
  {
    EntryInside(g, c);
    EntryInside(g, d);
    PutBytes(g, img, c, v);
    if g.fsType.Fat12? && c / 2 == d / 2 {
      PutNeighbour12(g, img, c, v, d);
    }
  }

  lemma PutNeighbour12(g: Geometry, img: Image, c: nat, v: nat, d: nat)
    requires OnDrive(g, img) && c < g.nFatEnt && d < g.nFatEnt && c != d && c / 2 == d / 2 && g.fsType.Fat12?
    ensures Entry(g, PutEntry12(g, img, c, v), d) == Entry(g, img, d)
  {
    hide Low12, High12, PutEntry12, FatByte, Entry;
    EntryInside(g, c);
    EntryWords(g, img, d);
    EntryWords(g, PutEntry12(g, img, c, v), d);
    var o := EntryStart(g.fsType, c);
    PutBytes12(g, img, c, v);
    PutBytes(g, img, c, v);
    var b0, b1 := FatByte(g, img, o), FatByte(g, img, o + 1);
    if c % 2 == 1 {
      // d is the even neighbour: it owns byte o - 1 and the low nibble of byte o
      assert EntryStart(g.fsType, d) == o - 1;
      KeepLowNibble(c, v, FatByte(g, img, o - 1), b0);
    } else {
      // d is the odd neighbour: it owns the high nibble of byte o + 1 and byte o + 2
      assert EntryStart(g.fsType, d) == o + 1;
      KeepHighNibble(c, v, b1, FatByte(g, img, o + 2));
    }
  }

  lemma KeepLowNibble(c: nat, v: nat, before: Byte, b0: Byte)
    requires c % 2 == 1
    ensures Word(before, Low12(c, v, b0)) % 0x1000 == Word(before, b0) % 0x1000
  {
    Low12Meaning(c, v, b0);
    KeepLower(before, b0, Low12(c, v, b0));
  }

  lemma KeepHighNibble(c: nat, v: nat, b1: Byte, after: Byte)
    requires c % 2 == 0
    ensures Word(High12(c, v, b1), after) / 16 == Word(b1, after) / 16
  {
    High12Meaning(c, v, b1);
    KeepUpper(b1, High12(c, v, b1), after);
  }

  lemma PutBytes12(g: Geometry, img: Image, c: nat, v: nat)
    requires OnDrive(g, img) && c < g.nFatEnt && g.fsType.Fat12?
    ensures c + c / 2 + 2 <= 512 * g.fsize
    ensures FatByte(g, PutEntry12(g, img, c, v), c + c / 2) == Low12(c, v, FatByte(g, img, c + c / 2))
    ensures FatByte(g, PutEntry12(g, img, c, v), c + c / 2 + 1) == High12(c, v, FatByte(g, img, c + c / 2 + 1))
  {
    EntryInside(g, c);
    var o := EntryStart(g.fsType, c);
    var half := PutFirstHalf(g, img, c, v);
    var b0, b1 := FatByte(g, img, o), FatByte(g, half, o + 1);
    WithFatByteAt(g, img, o, Low12(c, v, b0), o);
    WithFatByteAt(g, img, o, Low12(c, v, b0), o + 1);
    WithFatByteAt(g, half, o + 1, High12(c, v, b1), o);
    WithFatByteAt(g, half, o + 1, High12(c, v, b1), o + 1);
  }

  lemma KeepLower(b: Byte, x: Byte, y: Byte)
    requires x % 16 == y % 16
    ensures Word(b, x) % 0x1000 == Word(b, y) % 0x1000
  {
    LowerTwelve(b, x as int / 16, x as int % 16);
    LowerTwelve(b, y as int / 16, y as int % 16);
  }

  lemma KeepUpper(x: Byte, y: Byte, b: Byte)
    requires x / 16 == y / 16
    ensures Word(x, b) / 16 == Word(y, b) / 16
  {
    UpperTwelve(x as int % 16, x as int / 16, b);
    UpperTwelve(y as int % 16, y as int / 16, b);
  }

  /** put_fat as a change of the decoded table, of the FAT copies and of the rest of the drive. */
  lemma PutEntryLaw(g: Geometry, img: Image, c: nat, v: nat)
    requires OnDrive(g, img) && c < g.nFatEnt
    ensures FatOf(g, PutEntry(g, img, c, v)) == FatOf(g, img)[c := v % Modulus(g.fsType)]
    ensures MirrorsAgree(g, img) ==> MirrorsAgree(g, PutEntry(g, img, c, v))
    ensures SameOutsideFat(g, img, PutEntry(g, img, c, v))
  {
    var r, f := PutEntry(g, img, c, v), FatOf(g, img)[c := v % Modulus(g.fsType)];
    PutOwn(g, img, c, v);
    forall d: nat | d < g.nFatEnt
      ensures f[d] == Entry(g, r, d)
    {
      FatAt(g, img, d);
      if d != c {
        PutOther(g, img, c, v, d);
      }
    }
    FatExtensional(g, r, f);
    PutElsewhere(g, img, c, v);
  }

  /** Only FAT sectors differ, and copies that agreed still do. */
  ghost predicate FatOnly(g: Geometry, a: Image, b: Image)
    requires OnDrive(g, a) && OnDrive(g, b)
  {
    SameOutsideFat(g, a, b) && (MirrorsAgree(g, a) ==> MirrorsAgree(g, b))
  }

  lemma FatOnlyRefl(g: Geometry, a: Image)
    requires OnDrive(g, a)
    ensures FatOnly(g, a, a)
  {
  }

  lemma FatOnlyTrans(g: Geometry, a: Image, b: Image, c: Image)
    requires OnDrive(g, a) && OnDrive(g, b) && OnDrive(g, c)
    requires FatOnly(g, a, b) && FatOnly(g, b, c)
    ensures FatOnly(g, a, c)
  {
  }

  ghost predicate SameOutsideFat(g: Geometry, a: Image, b: Image)
    requires |a| == |b|
  {
    forall s {:trigger b[s]} :: 0 <= s < |a| && !(g.fatbase <= s < FatEnd(g)) ==> b[s] == a[s]
  }

  lemma PutElsewhere(g: Geometry, img: Image, c: nat, v: nat)
    requires OnDrive(g, img) && c < g.nFatEnt
    ensures MirrorsAgree(g, img) ==> MirrorsAgree(g, PutEntry(g, img, c, v))
    ensures SameOutsideFat(g, img, PutEntry(g, img, c, v))
  {
    WideSlot(g, c);
    match g.fsType
    case Fat12 => PutElsewhere12(g, img, c, v);
    case Fat16 => SectorElsewhere(g, img, g.fatbase + 2 * c / 512, Sector16(g, img, c, v));
    case Fat32 => SectorElsewhere(g, img, g.fatbase + 4 * c / 512, Sector32(g, img, c, v));
  }

  lemma PutElsewhere12(g: Geometry, img: Image, c: nat, v: nat)
    requires OnDrive(g, img) && c < g.nFatEnt && g.fsType.Fat12?
    ensures MirrorsAgree(g, img) ==> MirrorsAgree(g, PutEntry12(g, img, c, v))
    ensures SameOutsideFat(g, img, PutEntry12(g, img, c, v))
  {
    EntryInside(g, c);
    var half := PutFirstHalf(g, img, c, v);
    FirstHalfElsewhere(g, img, c, v);
    SecondHalfElsewhere(g, half, c, v);
    OutsideChain(g, img, half, PutSecondHalf(g, half, c, v));
  }

  lemma FirstHalfElsewhere(g: Geometry, img: Image, c: nat, v: nat)
    requires OnDrive(g, img) && c < g.nFatEnt && g.fsType.Fat12?
    ensures MirrorsAgree(g, img) ==> MirrorsAgree(g, PutFirstHalf(g, img, c, v))
    ensures SameOutsideFat(g, img, PutFirstHalf(g, img, c, v))
  {
    EntryInside(g, c);
    var o := EntryStart(g.fsType, c);
    StoreElsewhere(g, img, o, Low12(c, v, FatByte(g, img, o)));
  }

  lemma SecondHalfElsewhere(g: Geometry, half: Image, c: nat, v: nat)
    requires OnDrive(g, half) && c < g.nFatEnt && g.fsType.Fat12?
    ensures MirrorsAgree(g, half) ==> MirrorsAgree(g, PutSecondHalf(g, half, c, v))
    ensures SameOutsideFat(g, half, PutSecondHalf(g, half, c, v))
  {
    EntryInside(g, c);
    var o := EntryStart(g.fsType, c);
    StoreElsewhere(g, half, o + 1, High12(c, v, FatByte(g, half, o + 1)));
  }

  lemma OutsideChain(g: Geometry, a: Image, b: Image, c: Image)
    requires |a| == |b| == |c| && SameOutsideFat(g, a, b) && SameOutsideFat(g, b, c)
    ensures SameOutsideFat(g, a, c)
  {
  }

  lemma StoreElsewhere(g: Geometry, img: Image, i: nat, b: Byte)
    requires OnDrive(g, img) && i < 512 * g.fsize
    ensures MirrorsAgree(g, img) ==> MirrorsAgree(g, WithFatByte(g, img, i, b))
    ensures SameOutsideFat(g, img, WithFatByte(g, img, i, b))
  {
    FatInside(g, i);
    var s := g.fatbase + i / 512;
    SectorElsewhere(g, img, s, img[s][i % 512 := b]);
  }

  lemma SectorElsewhere(g: Geometry, img: Image, s: nat, sec: Sector)
    requires OnDrive(g, img) && s < |img| && InFat(g, s)
    ensures MirrorsAgree(g, img) ==> MirrorsAgree(g, WithSector(g, img, s, sec))
    ensures SameOutsideFat(g, img, WithSector(g, img, s, sec))
  {
    if MirrorsAgree(g, img) {
      WithSectorMirrors(g, img, s, sec);
    }
  }
}
