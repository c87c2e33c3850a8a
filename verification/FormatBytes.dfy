/**
What f_mkfs chooses and writes, in plain numbers and byte offsets.
*/
module FormatBytes {
  import opened Bits
  import opened Layout
  import opened Mount
  import opened FormatPlan
  import opened Format

  // ------------------------------------------------------------- the choices

  /** A wish is met within 1 and 128 sectors; without one the volume size decides. */
  lemma UnitInPlain(au: nat, nVol: nat)
    ensures au > 0 ==> UnitSectors(au, nVol) == if au < 1024 then 1 else if au >= 65536 then 128 else au / 512
    ensures au == 0 && nVol >= 2048000 ==> UnitSectors(au, nVol) == 64
    ensures au == 0 && 1024000 <= nVol < 2048000 ==> UnitSectors(au, nVol) == 32
    ensures au == 0 && 512000 <= nVol < 1024000 ==> UnitSectors(au, nVol) == 16
    ensures au == 0 && 256000 <= nVol < 512000 ==> UnitSectors(au, nVol) == 8
    ensures au == 0 && 128000 <= nVol < 256000 ==> UnitSectors(au, nVol) == 4
    ensures au == 0 && 64000 <= nVol < 128000 ==> UnitSectors(au, nVol) == 32
    ensures au == 0 && 32000 <= nVol < 64000 ==> UnitSectors(au, nVol) == 16
    ensures au == 0 && 16000 <= nVol < 32000 ==> UnitSectors(au, nVol) == 8
    ensures au == 0 && 8000 <= nVol < 16000 ==> UnitSectors(au, nVol) == 4
    ensures au == 0 && 4000 <= nVol < 8000 ==> UnitSectors(au, nVol) == 2
    ensures au == 0 && nVol < 4000 ==> UnitSectors(au, nVol) == 1
  {
    if au == 0 {
      var r := Row(nVol / 2000, 0);
      assert VST[r] <= nVol / 2000;
      assert r > 0 ==> nVol / 2000 < VST[r - 1];
    }
  }

  /** The least number that leads from b to a multiple of n. */
  lemma GapInPlain(b: nat, n: nat)
    requires IsPow2(n) && n <= 32768 && b + n < WORD32
    ensures n > 0 && Gap(b, n) == (n - b % n) % n
  {
    assert n >= 1;
    GapAligns(b, n);
    hide IsPow2, Gap;
    DivModOf(b, n);
    GapUnique(b, n, Gap(b, n));
  }

  lemma GapUnique(b: nat, n: nat, k: nat)
    requires n > 0 && k < n && (b + k) % n == 0
    ensures k == (n - b % n) % n
  {
    var q, r := b / n, b % n;
    DivModOf(b, n);
    DivModOf(b + k, n);
    var t := (b + k) / n;
    assert n * t == n * q + r + k;
    if r == 0 {
      SelfMod(n);
      Squeeze(n, t, q, k);
    } else {
      Squeeze(n, t, q, r + k);
      ZeroMod(n - r, n);
    }
  }

  lemma SelfMod(n: nat)
    requires n > 0
    ensures n % n == 0
  {
    DivModUnique(n, n, 1, 0);
  }

  lemma Squeeze(n: nat, t: nat, q: nat, x: nat)
    requires n > 0 && n * t == n * q + x && x < 2 * n
    ensures x == 0 || x == n
  {
    var d := t - q;
    assert d * n == x;
    if d >= 2 {
      ScaleLess(1, d, n);
    } else if d < 0 {
      ScaleLess(d, 0, n);
    }
  }

  /** Sizes that depend on the type alone. */
  lemma SizesInPlain(n: nat)
    requires n + 2 <= MaxEntries(Fat32)
    ensures TypeFor(n) == if n >= 65526 then Fat32 else if n >= 4086 then Fat16 else Fat12
    ensures Reserved(TypeFor(n)) == (if n >= 65526 then 32 else 1) && RootSectors(TypeFor(n)) == (if n >= 65526 then 0 else 32)
    ensures FatSectors(TypeFor(n), n) ==
            if n >= 65526 then (4 * n + 519) / 512 else if n >= 4086 then (2 * n + 515) / 512 else ((3 * n + 1) / 2 + 514) / 512
  {
  }

  /** Areas beyond the volume make the count wrap, which never looks like too few clusters. */
  lemma WrappedIsMany(nVol: nat, used: nat, c: nat)
    requires nVol < used < WORD32 && used - nVol <= 32768 && 0 < c <= 128
    ensures Whole(Sub32(nVol, used), c) >= 65526
  {
    var x := Sub32(nVol, used);
    var q := Whole(x, c);
    DivModOf(x, c);
    if q < 65526 {
      SmallProduct(c, q);
    }
  }

  lemma SmallProduct(c: nat, q: nat)
    requires c <= 128 && q < 65526
    ensures c * q + c <= 128 * 65526
  {
    ProductMono(c, 128, q + 1);
  }

  lemma ProductMono(a: nat, b: nat, k: nat)
    requires a <= b
    ensures a * k <= b * k
  {
  }

  lemma ArrangeCases(bVol: nat, nVol: nat, c: nat, block: nat, n: nat, t: FatType, fat: nat, rsv: nat, dir: nat, gap: nat)
    requires Manageable(bVol, nVol, c) && n == Whole(nVol, c) && t == TypeFor(n)
    requires fat == FatSectors(t, n) && rsv == Reserved(t) && dir == RootSectors(t)
    requires gap == Gap(bVol + rsv + fat + dir, BlockSize(block)) && rsv + fat + dir + gap < WORD32
    requires gap < 32768 && c <= 128
    ensures var used := rsv + fat + dir + gap;
      match Arrange(bVol, nVol, c, block)
      case None =>
        nVol < rsv + fat + dir + c
        || (used <= nVol && ((t.Fat32? && Whole(nVol - used, c) < 65526) || (t.Fat16? && Whole(nVol - used, c) < 4086)))
      case Some(p) =>
        && nVol >= rsv + fat + dir + c && p.bVol == bVol && p.nVol == nVol && p.csize == c && p.nDir == dir && p.fsType == t
        && p.nRsv == (if t.Fat32? then rsv + gap else rsv) && p.nFat == (if t.Fat32? then fat else fat + gap)
        && (used <= nVol ==> p.clusters == Whole(nVol - used, c)
                             && (t.Fat32? ==> p.clusters >= 65526) && (t.Fat16? ==> p.clusters >= 4086))
  {
    hide FatSectors, Gap, Whole, TypeFor, Reserved, RootSectors, BlockSize;
    var used := rsv + fat + dir + gap;
    if used > nVol && nVol >= rsv + fat + dir + c {
      WrappedIsMany(nVol, used, c);
    }
  }

  /**
  The whole plan: the FAT type by the number of clusters the volume would have without any other
  area, the areas by the type, and the gap to the next erase block in the reserved area on FAT32, else in
  the FAT. There is none exactly if the areas and a cluster do not fit, or what is left behind the gap is too
  few clusters for the type. Here n is the number of clusters without any other area, b the data start
  without the gap, bs the size of an erase block, and gap the way from b to the next one.
  */
  lemma PlanInPlain(size: nat, sfd: nat, au: nat, block: nat, n: nat, b: nat, bs: nat, gap: nat)
    requires size >= 128 && sfd <= 1 && Numbered(size, sfd, au) && (block == 0 || block > 32768 || IsPow2(block))
    requires UnitSectors(au, size - if sfd == 1 then 0 else 63) > 0 && bs > 0
    requires n == (size - if sfd == 1 then 0 else 63) / UnitSectors(au, size - if sfd == 1 then 0 else 63)
    requires var fat := if n >= 65526 then (4 * n + 519) / 512 else if n >= 4086 then (2 * n + 515) / 512 else ((3 * n + 1) / 2 + 514) / 512;
      b == (if sfd == 1 then 0 else 63) + (if n >= 65526 then 32 else 1) + fat + (if n >= 65526 then 0 else 32)
    requires bs == (if block == 0 || block > 32768 then 1 else block) && gap == (bs - b % bs) % bs
    ensures var bVol := if sfd == 1 then 0 else 63;
      var nVol, c := size - bVol, UnitSectors(au, size - bVol);
      var fat := if n >= 65526 then (4 * n + 519) / 512 else if n >= 4086 then (2 * n + 515) / 512 else ((3 * n + 1) / 2 + 514) / 512;
      var rsv, dir := if n >= 65526 then 32 else 1, if n >= 65526 then 0 else 32;
      var used := rsv + fat + dir + gap;
      match PlanFor(size, sfd, au, block)
      case None =>
        nVol < rsv + fat + dir + c
        || (used <= nVol && ((n >= 65526 && (nVol - used) / c < 65526) || (4086 <= n < 65526 && (nVol - used) / c < 4086)))
      case Some(p) =>
        && nVol >= rsv + fat + dir + c && p.bVol == bVol && p.nVol == nVol && p.csize == c && p.nDir == dir
        && p.nRsv == (if n >= 65526 then rsv + gap else rsv) && p.nFat == (if n >= 65526 then fat else fat + gap)
        && (p.fsType.Fat12? <==> n < 4086) && (p.fsType.Fat32? <==> n >= 65526)
        && (used <= nVol ==> p.clusters == (nVol - used) / c
                             && (n >= 65526 ==> p.clusters >= 65526) && (4086 <= n < 65526 ==> p.clusters >= 4086))
  {
    hide IsPow2, Gap, UnitSectors, EntryEnd, PlanFor, FatSectors, TypeFor, Reserved, RootSectors;
    BlockIsPow2(block);
    GapOfBlock(size, sfd, au, block, n, b, bs, gap);
    PlanCases(size, sfd, au, block, n, gap);
  }

  lemma GapOfBlock(size: nat, sfd: nat, au: nat, block: nat, n: nat, b: nat, bs: nat, gap: nat)
    requires size >= 128 && sfd <= 1 && Numbered(size, sfd, au) && IsPow2(BlockSize(block))
    requires UnitSectors(au, size - if sfd == 1 then 0 else 63) > 0 && bs > 0
    requires n == Whole(size - if sfd == 1 then 0 else 63, UnitSectors(au, size - if sfd == 1 then 0 else 63))
    requires var fat := if n >= 65526 then (4 * n + 519) / 512 else if n >= 4086 then (2 * n + 515) / 512 else ((3 * n + 1) / 2 + 514) / 512;
      b == (if sfd == 1 then 0 else 63) + (if n >= 65526 then 32 else 1) + fat + (if n >= 65526 then 0 else 32)
    requires bs == BlockSize(block) && gap == (bs - b % bs) % bs
    ensures b == (if sfd == 1 then 0 else 63) + Reserved(TypeFor(n)) + FatSectors(TypeFor(n), n) + RootSectors(TypeFor(n))
    ensures gap == Gap(b, BlockSize(block))
  {
    hide IsPow2, Gap, UnitSectors, EntryEnd, Whole, FatSectors, TypeFor, Reserved, RootSectors, BlockSize;
    SizesInPlain(n);
    GapInPlain(b, bs);
  }

  /** The same for n clusters without any other area, and a gap in front of the data area. */
  lemma PlanCases(size: nat, sfd: nat, au: nat, block: nat, n: nat, gap: nat)
    requires size >= 128 && sfd <= 1 && Numbered(size, sfd, au) && IsPow2(BlockSize(block))
    requires UnitSectors(au, size - if sfd == 1 then 0 else 63) > 0
    requires var bVol := if sfd == 1 then 0 else 63;
      n == Whole(size - bVol, UnitSectors(au, size - bVol))
      && gap == Gap(bVol + Reserved(TypeFor(n)) + FatSectors(TypeFor(n), n) + RootSectors(TypeFor(n)), BlockSize(block))
    ensures var bVol := if sfd == 1 then 0 else 63;
      var nVol, c := size - bVol, UnitSectors(au, size - bVol);
      var fat := if n >= 65526 then (4 * n + 519) / 512 else if n >= 4086 then (2 * n + 515) / 512 else ((3 * n + 1) / 2 + 514) / 512;
      var rsv, dir := if n >= 65526 then 32 else 1, if n >= 65526 then 0 else 32;
      var used := rsv + fat + dir + gap;
      match PlanFor(size, sfd, au, block)
      case None =>
        nVol < rsv + fat + dir + c
        || (used <= nVol && ((n >= 65526 && Whole(nVol - used, c) < 65526) || (4086 <= n < 65526 && Whole(nVol - used, c) < 4086)))
      case Some(p) =>
        && nVol >= rsv + fat + dir + c && p.bVol == bVol && p.nVol == nVol && p.csize == c && p.nDir == dir
        && p.nRsv == (if n >= 65526 then rsv + gap else rsv) && p.nFat == (if n >= 65526 then fat else fat + gap)
        && (p.fsType.Fat12? <==> n < 4086) && (p.fsType.Fat32? <==> n >= 65526)
        && (used <= nVol ==> p.clusters == Whole(nVol - used, c)
                             && (n >= 65526 ==> p.clusters >= 65526) && (4086 <= n < 65526 ==> p.clusters >= 4086))
  {
    hide IsPow2, Gap, UnitSectors, EntryEnd, Arrange, FatSectors, TypeFor, Reserved, RootSectors, BlockSize;
    var bVol := if sfd == 1 then 0 else 63;
    var nVol, c := size - bVol, UnitSectors(au, size - bVol);
    UnitRange(au, nVol);
    var t := TypeFor(n);
    SizesInPlain(n);
    WholeMono(nVol, nVol, c);
    FatSectorsSuffice(t, n, n);
    var b := bVol + Reserved(t) + FatSectors(t, n) + RootSectors(t);
    GapAligns(b, BlockSize(block));
    hide Whole;
    ArrangeCases(bVol, nVol, c, block, n, t, FatSectors(t, n), Reserved(t), RootSectors(t), gap);
  }

  lemma UnitRange(au: nat, nVol: nat)
    ensures 0 < UnitSectors(au, nVol) <= 128
  {
    hide Row;
  }

  // ------------------------------------------------------------- the sectors

  /** Ranges of a plan that fit the fields of a boot sector. */
  predicate Storable(p: Plan) {
    && 0 < p.nRsv < 0x1_0000 && 0 < p.csize <= 128 && 0 < p.nVol < WORD32 && p.bVol < WORD32
    && 0 < p.nFat < (if p.fsType.Fat32? then WORD32 else 0x1_0000)
    && p.nDir == RootSectors(p.fsType) && (p.fsType.Fat32? ==> p.nRsv >= 32)
    && (p.bVol == 0 || p.bVol == 63)
  }

  lemma WordFrame(a: Sector, b: Sector, o: nat)
    requires o + 2 <= 512 && a[o] == b[o] && a[o + 1] == b[o + 1]
    ensures LdWord(a, o) == LdWord(b, o)
  {
  }

  lemma DwordFrame(a: Sector, b: Sector, o: nat)
    requires o + 4 <= 512 && a[o] == b[o] && a[o + 1] == b[o + 1] && a[o + 2] == b[o + 2] && a[o + 3] == b[o + 3]
    ensures LdDword(a, o) == LdDword(b, o)
  {
  }

  lemma MediaWord(p: Plan)
    ensures Or(Media(p), 0xFFFF_FF00) == 0xFFFF_FF00 + Media(p) && Or(Media(p), 0x00FF_FF00) == 0x00FF_FF00 + Media(p)
  {
    BytePowers();
    OrDisjoint(Media(p), 0xFF_FFFF, 256);
    OrDisjoint(Media(p), 0xFFFF, 256);
  }

  lemma ZeroWord(s: Sector, o: nat)
    requires o + 2 <= 512 && s[o] == s[o + 1] == 0
    ensures LdWord(s, o) == 0
  {
  }

  lemma ZeroDword(s: Sector, o: nat)
    requires o + 4 <= 512 && s[o] == s[o + 1] == s[o + 2] == s[o + 3] == 0
    ensures LdDword(s, o) == 0
  {
  }

  /** The fields all boot sectors have. */
  lemma HeadInBytes(p: Plan)
    requires Storable(p)
    ensures var s := BootHead(p);
      && LdWord(s, 11) == 512 && s[13] == p.csize && LdWord(s, 14) == p.nRsv && s[16] == 1
      && LdWord(s, 17) == (if p.fsType.Fat32? then 0 else 512)
      && (p.nVol < 65536 ==> LdWord(s, 19) == p.nVol) && (p.nVol >= 65536 ==> LdDword(s, 32) == p.nVol)
      && s[21] == (if p.bVol == 0 then 0xF0 else 0xF8)
      && LdWord(s, 24) == 63 && LdWord(s, 26) == 255 && LdDword(s, 28) == p.bVol
  {
    hide Or, And, StWord, StDword, LdWord, LdDword, PutWord, PutDword, Spliced, PutByte, Zeros, ByteOf, Dword, Word,
      IsPow2;
  }

  lemma HeadStarts(p: Plan)
    requires Storable(p)
    ensures var s := BootHead(p);
      && s[0] == 0xEB && s[1] == 0xFE && s[2] == 0x90 && s[3] == 0x4D && s[4] == 0x53 && s[5] == 0x44 && s[6] == 0x4F
      && s[7] == 0x53 && s[8] == 0x35 && s[9] == 0x2E && s[10] == 0x30
  {
    hide Or, And, StWord, StDword, LdWord, LdDword, PutWord, PutDword, Spliced, PutByte, Zeros, ByteOf, Dword, Word,
      IsPow2;
  }

  lemma HeadZeros(p: Plan)
    requires Storable(p)
    ensures var s := BootHead(p);
      && s[22] == s[23] == 0 && (forall i :: 36 <= i < 512 ==> s[i] == 0)
      && (p.nVol < 65536 ==> s[32] == s[33] == s[34] == s[35] == 0) && (p.nVol >= 65536 ==> s[19] == s[20] == 0)
  {
    hide Or, And, StWord, StDword, LdWord, LdDword, PutWord, PutDword, Spliced, PutByte, Zeros, ByteOf, Dword, Word,
      IsPow2;
  }

  lemma Tail32InBytes(s: Sector, p: Plan, time: nat)
    requires Storable(p) && p.fsType.Fat32?
    ensures var r := BootTail32(s, p, time);
      && (forall i :: 0 <= i < 36 ==> r[i] == s[i])
      && LdDword(r, 36) == p.nFat && LdDword(r, 44) == 2 && LdWord(r, 48) == 1 && LdWord(r, 50) == 6
      && r[64] == 0x80 && r[66] == 0x29 && LdDword(r, 67) == time % 0x1_0000_0000
      && (forall i :: 40 <= i < 44 || 52 <= i < 64 || i == 65 || 90 <= i < 512 ==> r[i] == s[i])
  {
    hide Or, And, StWord, StDword, LdWord, LdDword, PutWord, PutDword, Spliced, PutByte, Zeros, ByteOf, Dword, Word,
      IsPow2;
  }

  lemma Tail32Names(s: Sector, p: Plan, time: nat)
    requires p.fsType.Fat32?
    ensures var r := BootTail32(s, p, time);
      && r[71] == 0x4E && r[72] == 0x4F && r[73] == 0x20 && r[74] == 0x4E && r[75] == 0x41 && r[76] == 0x4D && r[77] == 0x45
      && r[78] == r[79] == r[80] == r[81] == 0x20
      && r[82] == 0x46 && r[83] == 0x41 && r[84] == 0x54 && r[85] == 0x33 && r[86] == 0x32 && r[87] == r[88] == r[89] == 0x20
  {
    hide Or, And, StWord, StDword, LdWord, LdDword, PutWord, PutDword, Spliced, PutByte, Zeros, ByteOf, Dword, Word,
      IsPow2;
  }

  lemma Tail16InBytes(s: Sector, p: Plan, time: nat)
    requires Storable(p) && !p.fsType.Fat32?
    ensures var r := BootTail16(s, p, time);
      && (forall i :: 0 <= i < 22 || 24 <= i < 36 ==> r[i] == s[i])
      && LdWord(r, 22) == p.nFat && r[36] == 0x80 && r[38] == 0x29 && LdDword(r, 39) == time % 0x1_0000_0000
      && (forall i :: i == 37 || 62 <= i < 512 ==> r[i] == s[i])
  {
    hide Or, And, StWord, StDword, LdWord, LdDword, PutWord, PutDword, Spliced, PutByte, Zeros, ByteOf, Dword, Word,
      IsPow2;
  }

  lemma Tail16Names(s: Sector, p: Plan, time: nat)
    requires !p.fsType.Fat32?
    ensures var r := BootTail16(s, p, time);
      && r[43] == 0x4E && r[44] == 0x4F && r[45] == 0x20 && r[46] == 0x4E && r[47] == 0x41 && r[48] == 0x4D && r[49] == 0x45
      && r[50] == r[51] == r[52] == r[53] == 0x20
      && r[54] == 0x46 && r[55] == 0x41 && r[56] == 0x54 && r[57] == r[58] == r[59] == r[60] == r[61] == 0x20
  {
    hide Or, And, StWord, StDword, LdWord, LdDword, PutWord, PutDword, Spliced, PutByte, Zeros, ByteOf, Dword, Word,
      IsPow2;
  }

  lemma Signature(s: Sector)
    requires LdWord(s, 510) == 0xAA55
    ensures s[510] == 0x55 && s[511] == 0xAA
  {
  }

  /** The boot sector, byte by byte: jump code, OEM name, and the one-byte fields. */
  lemma BootBytes(p: Plan, time: nat)
    requires Storable(p)
    ensures var s := BootSector(p, time);
      && s[0] == 0xEB && s[1] == 0xFE && s[2] == 0x90 && s[3] == 0x4D && s[4] == 0x53 && s[5] == 0x44 && s[6] == 0x4F
      && s[7] == 0x53 && s[8] == 0x35 && s[9] == 0x2E && s[10] == 0x30
      && s[13] == p.csize && s[16] == 1 && s[21] == (if p.bVol == 0 then 0xF0 else 0xF8) && s[510] == 0x55 && s[511] == 0xAA
  {
    hide BootHead, BootTail32, BootTail16, LdWord, LdDword, PutWord, BootSector, Word, Dword;
    HeadInBytes(p);
    HeadStarts(p);
    BootParts(p, time);
    Signature(BootSector(p, time));
  }

  /** The fields of two and four bytes in front of those that depend on the type. */
  lemma BootFields(p: Plan, time: nat)
    requires Storable(p)
    ensures var s := BootSector(p, time);
      && LdWord(s, 11) == 512 && LdWord(s, 14) == p.nRsv && LdWord(s, 17) == (if p.fsType.Fat32? then 0 else 512)
      && LdWord(s, 19) == (if p.nVol < 65536 then p.nVol else 0)
      && LdWord(s, 22) == (if p.fsType.Fat32? then 0 else p.nFat) && LdWord(s, 24) == 63 && LdWord(s, 26) == 255
      && LdDword(s, 28) == p.bVol && LdDword(s, 32) == (if p.nVol < 65536 then 0 else p.nVol)
  {
    hide BootHead, BootTail32, BootTail16, LdWord, LdDword, PutWord, BootSector, Word, Dword;
    var h, s := BootHead(p), BootSector(p, time);
    HeadInBytes(p);
    HeadZeros(p);
    BootParts(p, time);
    if p.fsType.Fat32? {
      WordFrame(s, h, 22);
      ZeroWord(h, 22);
    }
    WordFrame(s, h, 11);
    WordFrame(s, h, 14);
    WordFrame(s, h, 17);
    WordFrame(s, h, 19);
    WordFrame(s, h, 24);
    WordFrame(s, h, 26);
    DwordFrame(s, h, 28);
    DwordFrame(s, h, 32);
    if p.nVol < 65536 {
      ZeroDword(h, 32);
    } else {
      ZeroWord(h, 19);
    }
  }

  lemma BootParts(p: Plan, time: nat)
    requires Storable(p)
    ensures var h, s := BootHead(p), BootSector(p, time);
      && (forall i :: 0 <= i < 22 || 24 <= i < 36 ==> s[i] == h[i])
      && (p.fsType.Fat32? ==> s[22] == h[22] && s[23] == h[23])
      && (!p.fsType.Fat32? ==> LdWord(s, 22) == p.nFat)
      && LdWord(s, 510) == 0xAA55
      && forall i :: 36 <= i < 510 ==> s[i] == (if p.fsType.Fat32? then BootTail32(h, p, time) else BootTail16(h, p, time))[i]
  {
    hide BootHead, BootTail32, BootTail16, LdWord, LdDword, PutWord, Word, Dword;
    var h := BootHead(p);
    var t := if p.fsType.Fat32? then BootTail32(h, p, time) else BootTail16(h, p, time);
    var s := BootSector(p, time);
    if p.fsType.Fat32? {
      Tail32InBytes(h, p, time);
    } else {
      Tail16InBytes(h, p, time);
      assert s[22] == t[22] && s[23] == t[23];
      WordFrame(s, t, 22);
    }
  }

  /** The rest of a FAT32 boot sector. */
  lemma Boot32Fields(p: Plan, time: nat)
    requires Storable(p) && p.fsType.Fat32?
    ensures var s := BootSector(p, time);
      && LdDword(s, 36) == p.nFat && LdDword(s, 44) == 2 && LdWord(s, 48) == 1 && LdWord(s, 50) == 6
      && s[64] == 0x80 && s[66] == 0x29 && LdDword(s, 67) == time % 0x1_0000_0000
      && s[71] == 0x4E && s[72] == 0x4F && s[73] == 0x20 && s[74] == 0x4E && s[75] == 0x41 && s[76] == 0x4D && s[77] == 0x45
      && s[78] == s[79] == s[80] == s[81] == 0x20
      && s[82] == 0x46 && s[83] == 0x41 && s[84] == 0x54 && s[85] == 0x33 && s[86] == 0x32 && s[87] == s[88] == s[89] == 0x20
      && (forall i :: 40 <= i < 44 || 52 <= i < 64 || i == 65 || 90 <= i < 510 ==> s[i] == 0)
  {
    hide BootHead, BootTail32, BootTail16, BootSector, LdWord, LdDword, Word, Dword;
    var h := BootHead(p);
    var t, s := BootTail32(h, p, time), BootSector(p, time);
    HeadZeros(p);
    BootParts(p, time);
    Tail32InBytes(h, p, time);
    Tail32Names(h, p, time);
    DwordFrame(s, t, 36);
    DwordFrame(s, t, 44);
    WordFrame(s, t, 48);
    WordFrame(s, t, 50);
    DwordFrame(s, t, 67);
  }

  /** The rest of a FAT12/16 boot sector. */
  lemma Boot16Fields(p: Plan, time: nat)
    requires Storable(p) && !p.fsType.Fat32?
    ensures var s := BootSector(p, time);
      && s[36] == 0x80 && s[37] == 0 && s[38] == 0x29 && LdDword(s, 39) == time % 0x1_0000_0000
      && s[43] == 0x4E && s[44] == 0x4F && s[45] == 0x20 && s[46] == 0x4E && s[47] == 0x41 && s[48] == 0x4D && s[49] == 0x45
      && s[50] == s[51] == s[52] == s[53] == 0x20
      && s[54] == 0x46 && s[55] == 0x41 && s[56] == 0x54 && s[57] == s[58] == s[59] == s[60] == s[61] == 0x20
      && (forall i :: 62 <= i < 510 ==> s[i] == 0)
  {
    hide BootHead, BootTail32, BootTail16, BootSector, LdWord, LdDword, Word, Dword;
    var h := BootHead(p);
    var t, s := BootTail16(h, p, time), BootSector(p, time);
    HeadZeros(p);
    BootParts(p, time);
    Tail16InBytes(h, p, time);
    Tail16Names(h, p, time);
    DwordFrame(s, t, 39);
  }

  /** The partition sector: one entry for the whole volume, everything else zero. */
  lemma MasterInBytes(p: Plan)
    requires Storable(p)
    ensures var s, n := MasterBoot(p), (p.bVol + p.nVol) / 63 / 255;
      && s[447] == 1 && s[448] == 1 && s[449] == 0
      && s[450] == (if p.fsType.Fat32? then 0x0C else if p.nVol >= 65536 then 0x06 else if p.fsType.Fat12? then 0x01 else 0x04)
      && s[451] == 254 && s[452] == Or(n / 4, 63) % 256 && s[453] == n % 256
      && forall i :: 0 <= i < 447 || 462 <= i < 510 ==> s[i] == 0
  {
    hide Or, And, StWord, StDword, LdWord, LdDword, PutWord, PutDword, Spliced, PutByte, ByteOf, Dword, Word, IsPow2;
  }

  /** Where its volume starts and how long it is. */
  lemma MasterExtent(p: Plan)
    requires Storable(p)
    ensures var s := MasterBoot(p); LdDword(s, 454) == 63 && LdDword(s, 458) == p.nVol && LdWord(s, 510) == 0xAA55
  {
    hide Or, And, StWord, StDword, LdWord, LdDword, PutWord, PutDword, Spliced, PutByte, ByteOf, Dword, Word, IsPow2;
  }

  /** The first sector of the FAT: media byte, reserved entries, and the root directory's end mark on FAT32. */
  lemma FatInBytes(p: Plan)
    ensures var s, md := FatHead(p), if p.bVol == 0 then 0xF0 else 0xF8;
      && LdDword(s, 0) == (if p.fsType.Fat12? then 0xFF_FF00 + md else 0xFFFF_FF00 + md)
      && LdDword(s, 4) == (if p.fsType.Fat32? then 0xFFFF_FFFF else 0) && LdDword(s, 8) == (if p.fsType.Fat32? then 0xFFF_FFFF else 0)
      && forall i :: 12 <= i < 512 ==> s[i] == 0
  {
    hide Or, And, StDword, LdDword, PutDword, ByteOf, Dword, Word;
    MediaWord(p);
    if !p.fsType.Fat32? {
      ZeroDword(FatHead(p), 4);
      ZeroDword(FatHead(p), 8);
    }
  }

  /** The information sector, with the free count one less than the clusters, and cluster 2 as the hint. */
  lemma InfoInBytes(p: Plan)
    requires 0 < p.clusters < WORD32
    ensures var s := InfoSector(p);
      && LdDword(s, 0) == 0x4161_5252 && LdDword(s, 484) == 0x6141_7272 && LdDword(s, 488) == p.clusters - 1
      && LdDword(s, 492) == 2 && LdWord(s, 510) == 0xAA55
      && forall i :: 4 <= i < 484 || 496 <= i < 510 ==> s[i] == 0
  {
    hide Or, And, StWord, StDword, LdWord, LdDword, PutWord, PutDword, ByteOf, Dword, Word;
  }

  /** A plan fits the FAT32 cluster numbers, and its aligned areas leave room for a cluster. */
  lemma NumberedInPlain(size: nat, sfd: nat, au: nat)
    requires size >= 128 && sfd <= 1
    ensures var bVol := if sfd == 1 then 0 else 63;
      var c := UnitSectors(au, size - bVol);
      Numbered(size, sfd, au) <==> c > 0 && size < 0x1_0000_0000 && (size - bVol) / c + 2 <= 0xFFF_FFF7
  {
    hide UnitSectors;
  }

  lemma RoomyInPlain(p: Plan)
    ensures Roomy(p) <==> p.nRsv + p.nFat + p.nDir + p.csize <= p.nVol
  {
  }

  /** The areas that have to be written lie on the drive. */
  lemma AreasInPlain(p: Plan, size: nat)
    requires p.nDir == RootSectors(p.fsType)
    ensures OnMedium(p, size) <==> p.bVol + p.nRsv + p.nFat + (if p.fsType.Fat32? then p.csize else 32) <= size
  {
  }

  /**
  Which sector of the drive holds what after a format: partition sector, boot sector, its backup and the two
  information sectors on FAT32, the FAT, a root directory of zeros behind it, and everything else as it was.
  */
  lemma SectorsInPlain(disk: Image, img: Image, p: Plan, time: nat, s: nat)
    requires Formatted(disk, img, p, time) && Storable(p) && s < |img| == |disk|
    ensures p.bVol == 63 && s == 0 ==> img[s] == MasterBoot(p)
    ensures s == p.bVol || (p.fsType.Fat32? && s == p.bVol + 6) ==> img[s] == BootSector(p, time)
    ensures p.fsType.Fat32? && (s == p.bVol + 1 || s == p.bVol + 7) ==> img[s] == InfoSector(p)
    ensures s == p.bVol + p.nRsv ==> img[s] == FatHead(p)
    ensures p.bVol + p.nRsv < s < p.bVol + p.nRsv + p.nFat + (if p.fsType.Fat32? then p.csize else 32) ==>
              forall i :: 0 <= i < 512 ==> img[s][i] == 0
    ensures (0 < s < p.bVol || s >= p.bVol + p.nRsv + p.nFat + (if p.fsType.Fat32? then p.csize else 32)
             || (p.bVol < s < p.bVol + p.nRsv && !(p.fsType.Fat32? && s - p.bVol in {1, 6, 7}))) ==> img[s] == disk[s]
  {
    hide MasterBoot, BootSector, FatHead, InfoSector;
    assert img[s] == Expected(disk, p, time, s);
  }
}
