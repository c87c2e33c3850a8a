/**
Long names in directory sectors: dir_register reserves entries, cuts the name into them and
puts the short entry behind, dir_read finds them again and puts the name together.
*/
module DirNames {
  import opened Wrappers
  import opened Bits
  import opened Layout
  import opened FatMap
  import opened FatRuns
  import opened Volume
  import opened Allocator
  import opened DirTable
  import opened Directory
  import opened LongName

  // --------------------------------------------------------------- one entry

  /** Entries lie outside the FAT. */
  lemma EntryOutside(f: Table, g: Geometry, sclust: nat, i: nat)
    requires Sound(g) && |f| == g.nFatEnt && g.csize > 0 && HasEntry(f, g, sclust, i)
    ensures CursorAt(f, g, sclust, i).sect >= FatEnd(g) && CursorAt(f, g, sclust, i).sect < g.sectors
  {
    hide IsPow2, EntryEnd, ClusterNo, ClusterIndex, SectorIndex;
    CursorInside(f, g, sclust, i);
    if ClusterOf(f, g, sclust, i) != 0 {
      ClusterInside(g, ClusterOf(f, g, sclust, i));
      SectorIndexBelow(i, g.csize);
    }
  }

  /** Entry i replaced. */
  function PutAt(g: Geometry, m: Medium, sclust: nat, i: nat, bytes: seq<Byte>): (b: Medium)
    requires Sized(g, m) && HasEntry(m.f, g, sclust, i) && |bytes| == 32
    ensures Sized(g, b) && b.f == m.f
  {
    CursorInside(m.f, g, sclust, i);
    var c := CursorAt(m.f, g, sclust, i);
    m.(img := m.img[c.sect := Spliced(m.img[c.sect], c.offset, bytes)])
  }

  lemma PutAtEntries(g: Geometry, m: Medium, sclust: nat, i: nat, bytes: seq<Byte>, j: nat)
    requires Sized(g, m) && HasEntry(m.f, g, sclust, i) && |bytes| == 32 && Ends(m.f, g, sclust) && HasEntry(m.f, g, sclust, j)
    ensures EntryBytes(g, PutAt(g, m, sclust, i, bytes), sclust, j) == if j == i then bytes else EntryBytes(g, m, sclust, j)
  {
    hide Sound, HasEntry, ClusterOf, Ends;
    CursorInside(m.f, g, sclust, i);
    CursorInside(m.f, g, sclust, j);
    CursorIndex(m.f, g, sclust, i);
    CursorIndex(m.f, g, sclust, j);
    if i < j {
      PlacesDiffer(m.f, g, sclust, i, j);
    } else if j < i {
      PlacesDiffer(m.f, g, sclust, j, i);
    }
  }

  /** The entry at the cursor written through the window. */
  method PutEntry(d: Dir, bytes: seq<Byte>)
    requires d.At(d.index) && |bytes| == 32
    modifies d.fs`disk, d.fs`wflag, d.fs`winsect, d.fs`durable, d.fs`trace, d.fs.win
    ensures d.At(d.index) && d.Around() == PutAt(d.fs.g, old(d.Around()), d.sclust, d.index, bytes)
    ensures NoWorse(old(HealthOf(d.fs)), HealthOf(d.fs))
  {
    hide FatOf, IsPow2, EntryEnd, ClusterIndex, SectorIndex, ClusterNo, ClusterOf, HasEntry, FreeCount, Safe;
    EntryOutside(d.fs.Fat(), d.fs.g, d.sclust, d.index);
    CursorInside(d.fs.Fat(), d.fs.g, d.sclust, d.index);
    ghost var img := d.fs.Image();
    d.fs.MoveWindow(d.sect);
    d.fs.StoreWindow(d.offset, bytes);
    FatOfFrame(d.fs.g, img, d.fs.Image());
  }

  // ------------------------------------------------------- the long entries

  /** The first k of the n entries from base on are the segments of s, the last one first. */
  ghost predicate SegmentsAt(g: Geometry, m: Medium, sclust: nat, base: nat, s: seq<nat>, sum: Byte, k: nat)
    requires Sized(g, m) && k <= Segments(s)
  {
    forall j: nat :: base <= j < base + k ==>
      HasEntry(m.f, g, sclust, j) && Segment(EntryBytes(g, m, sclust, j), s, Segments(s) - (j - base), sum)
  }

  /** Only k entries from base on have changed. */
  ghost predicate OthersStay(g: Geometry, a: Medium, b: Medium, sclust: nat, base: nat, k: nat)
    requires Sized(g, a) && Sized(g, b)
  {
    && b.f == a.f
    && forall j: nat {:trigger EntryBytes(g, b, sclust, j)} ::
         HasEntry(a.f, g, sclust, j) && !(base <= j < base + k) ==> EntryBytes(g, b, sclust, j) == EntryBytes(g, a, sclust, j)
  }

  lemma TableStays(g: Geometry, a: Medium, b: Medium, sclust: nat, base: nat, k: nat)
    requires Sized(g, a) && Sized(g, b) && OthersStay(g, a, b, sclust, base, k)
    ensures b.f == a.f
  {
  }

  lemma SegmentPut(g: Geometry, o: Medium, a: Medium, sclust: nat, base: nat, s: seq<nat>, sum: Byte, k: nat, e: seq<Byte>)
    requires Sized(g, o) && Sized(g, a) && k < Segments(s) && Ends(a.f, g, sclust) && HasEntry(a.f, g, sclust, base + k)
    requires SegmentsAt(g, a, sclust, base, s, sum, k) && OthersStay(g, o, a, sclust, base, k)
    requires Segment(e, s, Segments(s) - k, sum)
    ensures |e| == 32
    ensures var b := PutAt(g, a, sclust, base + k, e);
            SegmentsAt(g, b, sclust, base, s, sum, k + 1) && OthersStay(g, o, b, sclust, base, k + 1)
  {
    hide Segment, HasEntry, Sound, PutAt, Ends, EntryBytes;
    SegmentSize(e, s, Segments(s) - k, sum);
    var b := PutAt(g, a, sclust, base + k, e);
    forall j: nat | HasEntry(a.f, g, sclust, j)
      ensures EntryBytes(g, b, sclust, j) == if j == base + k then e else EntryBytes(g, a, sclust, j)
    {
      PutAtEntries(g, a, sclust, base + k, e, j);
    }
  }

  lemma StoreStarts(g: Geometry, o: Medium, sclust: nat, base: nat, s: seq<nat>, sum: Byte)
    requires Sized(g, o)
    ensures SegmentsAt(g, o, sclust, base, s, sum, 0) && OthersStay(g, o, o, sclust, base, 0)
  {
  }

  /** Moving on to an entry there is. */
  lemma NextPlain(g: Geometry, sclust: nat, i: nat, a: Medium, b: Medium, res: FResult)
    requires Sized(g, a) && Sized(g, b) && HasEntry(a.f, g, sclust, i) && NextOutcome(g, sclust, i, false, a, b, res)
    ensures b == a
    ensures i + 1 < 0x1_0000 && HasEntry(a.f, g, sclust, i + 1) <==> res == OK
  {
  }

  /** k of the entries in front of entry e are stored, and the cursor stands on the next one. */
  ghost predicate Storing(d: Dir, o: Medium, e: nat, s: seq<nat>, sum: Byte, k: nat)
    reads d, d.fs, d.fs.win
  {
    && d.Valid() && Sized(d.fs.g, o) && k <= Segments(s) <= e < 0x1_0000
    && d.index == e - Segments(s) + k && d.At(d.index) && HasEntry(o.f, d.fs.g, d.sclust, e) && Ends(o.f, d.fs.g, d.sclust)
    && SegmentsAt(d.fs.g, d.Around(), d.sclust, e - Segments(s), s, sum, k)
    && OthersStay(d.fs.g, o, d.Around(), d.sclust, e - Segments(s), k)
  }

  /** One turn of the loop of dir_register. */
  method StoreNext(d: Dir, lfnbuf: array<nat>, ord: nat, sum: Byte, ghost o: Medium, ghost e: nat, ghost s: seq<nat>)
    requires 1 <= ord <= Segments(s) && Storing(d, o, e, s, sum, Segments(s) - ord)
    requires lfnbuf.Length == MAX_LFN + 1 && IsName(s) && LongName.Holds(lfnbuf[..], s)
    modifies d`index, d`clust, d`sect, d`offset, d.fs, d.fs.win
    ensures Storing(d, o, e, s, sum, Segments(s) - ord + 1)
    ensures NoWorse(old(HealthOf(d.fs)), HealthOf(d.fs))
  {
    hide FatOf, IsPow2, EntryEnd, ClusterIndex, SectorIndex, ClusterNo, ClusterOf, HasEntry, HealthOf, Segment, PutAt,
      Ends, CursorAt, SegmentsAt, FatFits, FatFs.Ordered, NextOutcome, Sound, OnDrive, LongName.Holds, IsName;
    var dir := new Byte[32];
    FitLfn(lfnbuf, dir, ord, sum, s);
    SegmentPut(d.fs.g, o, d.Around(), d.sclust, e - Segments(s), s, sum, Segments(s) - ord, dir[..]);
    PutEntry(d, dir[..]);
    HasEntryBelow(o.f, d.fs.g, d.sclust, e, d.index + 1);
    ghost var a, i := d.Around(), d.index;
    var res := d.Next(false);
    NextPlain(d.fs.g, d.sclust, i, a, d.Around(), res);
  }

  /** The loop of dir_register: the segments of the name in the nent entries in front of entry e. */
  method StoreName(d: Dir, lfnbuf: array<nat>, nent: nat, sum: Byte, e: nat, ghost s: seq<nat>)
    requires d.Valid() && lfnbuf.Length == MAX_LFN + 1 && IsName(s) && LongName.Holds(lfnbuf[..], s)
    requires nent == Segments(s) <= e < 0x1_0000 && HasEntry(d.fs.Fat(), d.fs.g, d.sclust, e) && Ends(d.fs.Fat(), d.fs.g, d.sclust)
    modifies d`index, d`clust, d`sect, d`offset, d.fs, d.fs.win
    ensures Storing(d, old(d.Around()), e, s, sum, nent) && NoWorse(old(HealthOf(d.fs)), HealthOf(d.fs))
  {
    hide FatOf, IsPow2, EntryEnd, ClusterIndex, SectorIndex, ClusterNo, ClusterOf, HasEntry, HealthOf, Segment, PutAt,
      Ends, CursorAt, SegmentsAt, OthersStay, FatFits, FatFs.Ordered, Sound, OnDrive, LongName.Holds, IsName;
    ghost var o := d.Around();
    HasEntryBelow(o.f, d.fs.g, d.sclust, e, e - nent);
    StoreStarts(d.fs.g, o, d.sclust, e - nent, s, sum);
    CursorIndex(o.f, d.fs.g, d.sclust, e - nent);
    var res := d.SetIndex(e - nent);
    var k := nent;
    while k > 0
      invariant 0 <= k <= nent && Storing(d, o, e, s, sum, nent - k) && NoWorse(old(HealthOf(d.fs)), HealthOf(d.fs))
    {
      StoreNext(d, lfnbuf, k, sum, o, e, s);
      k := k - 1;
    }
  }

  // ------------------------------------------------------------ registering

  /** Behind the segments of s stands the short entry e. */
  ghost predicate Registered(g: Geometry, m: Medium, sclust: nat, e: nat, s: seq<nat>, sum: Byte, short: seq<Byte>)
    requires Sized(g, m)
  {
    && Segments(s) <= e < 0x1_0000 && HasEntry(m.f, g, sclust, e)
    && EntryBytes(g, m, sclust, e) == short && SegmentsAt(g, m, sclust, e - Segments(s), s, sum, Segments(s))
  }

  /** Entry j is used, and so is the cluster it lies in. */
  predicate InUse(g: Geometry, a: Medium, sclust: nat, j: nat)
    requires Sized(g, a)
  {
    && HasEntry(a.f, g, sclust, j) && !Blank(g, a, sclust, j)
    && (Start(g, sclust) != 0 ==> a.f[ClusterOf(a.f, g, sclust, j)] != 0)
  }

  lemma UsedKept(g: Geometry, sclust: nat, a: Medium, m: Medium, j: nat)
    requires Sized(g, a) && Sized(g, m) && Unharmed(g, sclust, a, m) && InUse(g, a, sclust, j)
    ensures HasEntry(a.f, g, sclust, j) && !Blank(g, a, sclust, j)
    ensures HasEntry(m.f, g, sclust, j) && EntryBytes(g, m, sclust, j) == EntryBytes(g, a, sclust, j)
  {
    hide Unharmed;
    EntriesKept(g, sclust, a, m, j);
  }

  /** Every entry in use is still in its place, byte for byte. */
  ghost predicate UsedStay(g: Geometry, a: Medium, b: Medium, sclust: nat)
    requires Sized(g, a) && Sized(g, b)
  {
    forall j: nat :: InUse(g, a, sclust, j) ==>
      HasEntry(b.f, g, sclust, j) && EntryBytes(g, b, sclust, j) == EntryBytes(g, a, sclust, j)
  }

  lemma OutsideRun(g: Geometry, m: Medium, sclust: nat, e: nat, n: nat, j: nat)
    requires Sized(g, m) && RunAt(g, m, sclust, e, n) && !Blank(g, m, sclust, j)
    ensures j > e || j + n < e + 1
  {
  }

  lemma ShortPut(g: Geometry, a: Medium, m: Medium, b: Medium, sclust: nat, e: nat, s: seq<nat>, sum: Byte, short: seq<Byte>)
    requires Sized(g, a) && Sized(g, m) && Sized(g, b) && Unharmed(g, sclust, a, m) && Ends(m.f, g, sclust)
    requires RunAt(g, m, sclust, e, Segments(s) + 1) && Segments(s) <= e < 0x1_0000 && |short| == 32
    requires SegmentsAt(g, b, sclust, e - Segments(s), s, sum, Segments(s)) && OthersStay(g, m, b, sclust, e - Segments(s), Segments(s))
    ensures HasEntry(b.f, g, sclust, e)
    ensures Registered(g, PutAt(g, b, sclust, e, short), sclust, e, s, sum, short)
    ensures UsedStay(g, a, PutAt(g, b, sclust, e, short), sclust)
  {
    hide Segment, HasEntry, Sound, PutAt, Ends, EntryBytes, Unharmed, ClusterOf, IsBlank, Start;
    assert Blank(g, m, sclust, e);
    var c := PutAt(g, b, sclust, e, short);
    forall j: nat | HasEntry(b.f, g, sclust, j)
      ensures EntryBytes(g, c, sclust, j) == if j == e then short else EntryBytes(g, b, sclust, j)
    {
      PutAtEntries(g, b, sclust, e, short, j);
    }
    forall j: nat | InUse(g, a, sclust, j)
      ensures HasEntry(c.f, g, sclust, j) && EntryBytes(g, c, sclust, j) == EntryBytes(g, a, sclust, j)
    {
      UsedKept(g, sclust, a, m, j);
      OutsideRun(g, m, sclust, e, Segments(s) + 1, j);
    }
  }

  /** The length of the name in the buffer. */
  method NameLength(lfnbuf: array<nat>, ghost s: seq<nat>) returns (n: nat)
    requires lfnbuf.Length == MAX_LFN + 1 && IsName(s) && LongName.Holds(lfnbuf[..], s)
    ensures n == |s|
  {
    assert forall i :: 0 <= i < |s| ==> lfnbuf[i] == lfnbuf[..][..|s|][i] == s[i] > 0;
    n := 0;
    while lfnbuf[n] != 0
      invariant 0 <= n <= |s|
      decreases |s| - n
    {
      n := n + 1;
    }
  }

  /**
  dir_register for a name that needs long entries: a run of blank entries is reserved, the
  segments and the short entry are stored in it, and every other entry stays as it was. Nothing is
  stored if no run can be had.
  */
  method Register(d: Dir, lfnbuf: array<nat>, sum: Byte, short: seq<Byte>, ghost s: seq<nat>) returns (res: FResult)
    requires d.Valid() && lfnbuf.Length == MAX_LFN + 1 && IsName(s) && LongName.Holds(lfnbuf[..], s) && |short| == 32
    requires Ends(d.fs.Fat(), d.fs.g, d.sclust)
    modifies d`index, d`clust, d`sect, d`offset, d.fs, d.fs.win
    ensures d.Valid() && NoWorse(old(HealthOf(d.fs)), HealthOf(d.fs))
    ensures res == OK ==> d.At(d.index) && Registered(d.fs.g, d.Around(), d.sclust, d.index, s, sum, short)
    ensures res == OK ==> UsedStay(d.fs.g, old(d.Around()), d.Around(), d.sclust)
    ensures res != OK ==> (res == Denied || res == IntErr) && d.Reserved(res, Segments(s) + 1)
    ensures NoLonger(d.fs.g, d.sclust, old(d.fs.Fat()), d.fs.Fat(), d.index)
    ensures res != OK ==> Unharmed(d.fs.g, d.sclust, old(d.Around()), d.Around())
  {
    hide FatOf, IsPow2, EntryEnd, ClusterIndex, SectorIndex, ClusterNo, ClusterOf, HasEntry, HealthOf, Segment, PutAt,
      Ends, CursorAt, SegmentsAt, OthersStay, FatFits, FatFs.Ordered, Sound, OnDrive, LongName.Holds, IsName, Unharmed,
      RunAt, Blank, UsedStay, NoRun, NoRoom, NoErrorMark, NoLonger;
    var n := NameLength(lfnbuf, s);
    var nent := (n + 25) / 13;
    res := d.Alloc(nent);
    if res == OK {
      ghost var m, e := d.Around(), d.index;
      assert m.f == d.fs.Fat();
      RunEnd(d.fs.g, m, d.sclust, d.index, nent);
      StoreName(d, lfnbuf, nent - 1, sum, d.index, s);
      TableStays(d.fs.g, m, d.Around(), d.sclust, e - Segments(s), Segments(s));
      ShortPut(d.fs.g, old(d.Around()), m, d.Around(), d.sclust, e, s, sum, short);
      PutEntry(d, short);
    }
  }

  lemma RunEnd(g: Geometry, m: Medium, sclust: nat, e: nat, n: nat)
    requires Sized(g, m) && RunAt(g, m, sclust, e, n) && n > 0
    ensures n <= e + 1 && HasEntry(m.f, g, sclust, e)
  {
    assert Blank(g, m, sclust, e);
  }

  // ---------------------------------------------------------------- reading

  /** An entry without valid data: deleted, a dot entry, or the volume label. */
  predicate Skipped(e: seq<Byte>)
    requires |e| == 32
  {
    e[0] == 0xE5 || e[0] == 0x2E || And(e[11], 0x3F) == 0x08
  }

  predicate IsLong(e: seq<Byte>)
    requires |e| == 32
  {
    And(e[11], 0x3F) == 0x0F
  }

  /** A short entry that dir_read stops at. */
  predicate IsShort(e: seq<Byte>)
    requires |e| == 32
  {
    e[0] != 0 && !Skipped(e) && !IsLong(e)
  }

  /** Where dir_read stops from entry i on, and with what it has seen of a long name. */
  function ReadFrom(g: Geometry, m: Medium, sclust: nat, i: nat, r: Reader): (x: Option<(nat, Reader)>)
    requires Sized(g, m) && |r.buf| == MAX_LFN + 1
    decreases 0x1_0000 - i
  {
    if i >= 0x1_0000 || !HasEntry(m.f, g, sclust, i) then None
    else
      var e := EntryBytes(g, m, sclust, i);
      if e[0] == 0 then None
      else if Skipped(e) then ReadFrom(g, m, sclust, i + 1, r.(ord := 0xFF))
      else if IsLong(e) then ReadFrom(g, m, sclust, i + 1, Feed(r, e))
      else Some((i, r))
  }

  lemma KindInBytes(e: seq<Byte>)
    requires |e| == 32
    ensures Skipped(e) <==> e[0] == 0xE5 || e[0] == 0x2E || e[11] % 64 == 0x08
    ensures IsLong(e) <==> e[11] % 64 == 0x0F
    ensures IsShort(e) <==>
            e[0] != 0 && e[0] != 0xE5 && e[0] != 0x2E && e[11] % 64 != 0x08 && e[11] % 64 != 0x0F
  {
    hide And;
    Pow64();
    AndMask(e[11], 64);
  }

  /** Entry j is deleted, a dot entry, the volume label, or a long entry. */
  predicate PassedAt(g: Geometry, m: Medium, sclust: nat, j: nat)
    requires Sized(g, m)
  {
    HasEntry(m.f, g, sclust, j) &&
    var e := EntryBytes(g, m, sclust, j);
    e[0] != 0 && (e[0] == 0xE5 || e[0] == 0x2E || e[11] % 64 == 0x08 || e[11] % 64 == 0x0F)
  }

  /** Entry k is the first one from i on that is none of these. */
  ghost predicate StopsAt(g: Geometry, m: Medium, sclust: nat, i: nat, k: nat)
    requires Sized(g, m)
  {
    && i <= k < 0x1_0000 && HasEntry(m.f, g, sclust, k)
    && (var e := EntryBytes(g, m, sclust, k);
        e[0] != 0 && e[0] != 0xE5 && e[0] != 0x2E && e[11] % 64 != 0x08 && e[11] % 64 != 0x0F)
    && forall j: nat :: i <= j < k ==> PassedAt(g, m, sclust, j)
  }

  /** Entry k was never used, or there is none. */
  predicate OverAt(g: Geometry, m: Medium, sclust: nat, k: nat)
    requires Sized(g, m)
  {
    k == 0x1_0000 || !HasEntry(m.f, g, sclust, k) || EntryBytes(g, m, sclust, k)[0] == 0
  }

  /** From i on there are only such entries up to one never used, or up to the end. */
  ghost predicate RunsOut(g: Geometry, m: Medium, sclust: nat, i: nat)
    requires Sized(g, m)
  {
    exists k: nat :: i <= k <= 0x1_0000 && OverAt(g, m, sclust, k)
                     && forall j: nat :: i <= j < k ==> PassedAt(g, m, sclust, j)
  }

  lemma RunsOutHere(g: Geometry, m: Medium, sclust: nat, i: nat)
    requires Sized(g, m) && i <= 0x1_0000
    requires OverAt(g, m, sclust, i)
    ensures RunsOut(g, m, sclust, i)
  {
    hide Sound, HasEntry, EntryBytes, PassedAt, OverAt;
  }

  lemma RunsOutNext(g: Geometry, m: Medium, sclust: nat, i: nat)
    requires Sized(g, m) && i < 0x1_0000 && PassedAt(g, m, sclust, i) && RunsOut(g, m, sclust, i + 1)
    ensures RunsOut(g, m, sclust, i)
  {
    hide Sound, HasEntry, EntryBytes, PassedAt, OverAt;
    var k: nat :|
      && i + 1 <= k <= 0x1_0000
      && OverAt(g, m, sclust, k)
      && forall j: nat :: i + 1 <= j < k ==> PassedAt(g, m, sclust, j);
    assert forall j: nat :: i <= j < k ==> PassedAt(g, m, sclust, j);
  }

  /**
  dir_read passes over deleted entries, dot entries, volume labels and long entries, stops at any other,
  and fails at the first entry never used or behind the last one.
  */
  lemma {:induction false} ReadInBytes(g: Geometry, m: Medium, sclust: nat, i: nat, r: Reader)
    requires Sized(g, m) && |r.buf| == MAX_LFN + 1 && i <= 0x1_0000
    ensures match ReadFrom(g, m, sclust, i, r)
            case Some(x) => StopsAt(g, m, sclust, i, x.0)
            case None => RunsOut(g, m, sclust, i)
    decreases 0x1_0000 - i
  {
    hide Sound, HasEntry, EntryBytes, Skipped, IsLong, Feed;
    if i < 0x1_0000 && HasEntry(m.f, g, sclust, i) {
      var e := EntryBytes(g, m, sclust, i);
      KindInBytes(e);
      if e[0] != 0 && (Skipped(e) || IsLong(e)) {
        var q := if Skipped(e) then r.(ord := 0xFF) else Feed(r, e);
        ReadInBytes(g, m, sclust, i + 1, q);
        assert PassedAt(g, m, sclust, i);
        if ReadFrom(g, m, sclust, i, r).None? {
          RunsOutNext(g, m, sclust, i);
        }
      } else if e[0] == 0 {
        RunsOutHere(g, m, sclust, i);
      }
    } else {
      RunsOutHere(g, m, sclust, i);
    }
  }

  /** The entry at the cursor, brought into the window. */
  method LoadEntry(d: Dir) returns (dir: array<Byte>)
    requires d.At(d.index)
    modifies d.fs`disk, d.fs`wflag, d.fs`winsect, d.fs`durable, d.fs.win
    ensures d.At(d.index) && d.Around() == old(d.Around()) && HealthOf(d.fs) == old(HealthOf(d.fs))
    ensures fresh(dir) && dir.Length == 32 && dir[..] == EntryBytes(d.fs.g, d.Around(), d.sclust, d.index)
  {
    hide FatOf, InFat, IsPow2, EntryEnd, ClusterIndex, SectorIndex, ClusterNo, ClusterOf, HasEntry, FreeCount,
      AllSafe, MirrorsAgree;
    CursorInside(d.fs.Fat(), d.fs.g, d.sclust, d.index);
    d.fs.MoveWindow(d.sect);
    d.fs.WindowContent();
    dir := new Byte[32](i requires 0 <= i < 32 && d.offset + i < d.fs.win.Length reads d, d.fs, d.fs.win => d.fs.win[d.offset + i]);
    assert dir[..] == d.fs.win[d.offset..d.offset + 32];
  }

  /** What dir_read does to a long entry: order and checksum are compared, and the characters taken. */
  method FeedEntry(lfnbuf: array<nat>, dir: array<Byte>, ord: nat, sum: nat) returns (o: nat, c: nat)
    requires lfnbuf.Length == MAX_LFN + 1 && dir.Length == 32
    modifies lfnbuf
    ensures Reader(o, c, lfnbuf[..]) == Feed(Reader(ord, sum, old(lfnbuf[..])), dir[..])
  {
    hide And, Pick;
    var n: nat, a: nat, b: nat := dir[0], ord, sum;
    if And(dir[0], LLE) != 0 {
      b := dir[13];
      n := And(dir[0], 0xBF);
      a := n;
    }
    o, c := 0xFF, b;
    if n == a && b == dir[13] {
      var ok := PickLfn(lfnbuf, dir);
      if ok {
        o := (a + 255) % 256;
      }
    }
  }

  /** dir_read: on to the next short entry, a long name in front of it being put together. */
  method DirRead(d: Dir, lfnbuf: array<nat>) returns (res: FResult, ord: nat, sum: nat)
    requires d.At(d.index) && lfnbuf.Length == MAX_LFN + 1
    modifies d`index, d`clust, d`sect, d`offset, d.fs, d.fs.win, lfnbuf
    ensures d.Valid() && d.Around() == old(d.Around()) && NoWorse(old(HealthOf(d.fs)), HealthOf(d.fs))
    ensures var x := ReadFrom(d.fs.g, old(d.Around()), d.sclust, old(d.index), Reader(0xFF, 0xFF, old(lfnbuf[..])));
            if res == OK then x == Some((d.index, Reader(ord, sum, lfnbuf[..]))) && d.At(d.index) else x == None && d.sect == 0
    ensures if res == OK then StopsAt(d.fs.g, d.Around(), d.sclust, old(d.index), d.index)
            else RunsOut(d.fs.g, d.Around(), d.sclust, old(d.index))
  {
    hide FatOf, IsPow2, EntryEnd, ClusterIndex, SectorIndex, ClusterNo, ClusterOf, HasEntry, HealthOf, CursorAt, Feed,
      EntryBytes, FatFits, FatFs.Ordered, Sound, OnDrive, And, NextOutcome;
    ghost var m := d.Around();
    ghost var x := ReadFrom(d.fs.g, m, d.sclust, d.index, Reader(0xFF, 0xFF, lfnbuf[..]));
    ord, sum, res := 0xFF, 0xFF, OK;
    while true
      invariant d.At(d.index) && d.Around() == m && NoWorse(old(HealthOf(d.fs)), HealthOf(d.fs)) && res == OK
      invariant x == ReadFrom(d.fs.g, m, d.sclust, d.index, Reader(ord, sum, lfnbuf[..]))
      decreases 0x1_0000 - d.index
    {
      var dir := LoadEntry(d);
      if dir[0] == 0 {
        res := NoFile;
        break;
      }
      if dir[0] == 0xE5 || dir[0] == 0x2E || And(dir[11], 0x3F) == 0x08 {
        ord := 0xFF;
      } else if And(dir[11], 0x3F) == 0x0F {
        ord, sum := FeedEntry(lfnbuf, dir, ord, sum);
      } else {
        break;
      }
      ghost var i := d.index;
      res := d.Next(false);
      NextPlain(d.fs.g, d.sclust, i, m, d.Around(), res);
      if res != OK {
        break;
      }
    }
    ReadInBytes(d.fs.g, m, d.sclust, old(d.index), Reader(0xFF, 0xFF, old(lfnbuf[..])));
    if res != OK {
      d.sect := 0;
    }
  }

  // --------------------------------------------------------- the round trip

  /** The n entries from base on. */
  function EntriesAt(g: Geometry, m: Medium, sclust: nat, base: nat, n: nat): (es: seq<seq<Byte>>)
    requires Sized(g, m) && forall j: nat :: base <= j < base + n ==> HasEntry(m.f, g, sclust, j)
    ensures |es| == n && forall t :: 0 <= t < n ==> es[t] == EntryBytes(g, m, sclust, base + t)
  {
    seq(n, t requires 0 <= t < n => EntryBytes(g, m, sclust, base + t))
  }

  lemma Mask6(x: nat)
    requires x < 64
    ensures And(x, 0x3F) == x
  {
    hide And;
    Pow64();
    AndMask(x, 64);
  }

  /** A stored segment is taken for a long entry. */
  lemma SegmentIsLong(e: seq<Byte>, s: seq<nat>, k: nat, sum: Byte)
    requires IsName(s) && 1 <= k <= Segments(s) && Segment(e, s, k, sum)
    ensures |e| == 32 && e[0] != 0 && !Skipped(e) && IsLong(e)
  {
    hide And;
    Mask6(0x0F);
  }

  /** dir_read passes the stored entries one after the other. */
  lemma {:induction false} ReadsOn(g: Geometry, m: Medium, sclust: nat, e: nat, s: seq<nat>, sum: Byte, short: seq<Byte>,
      r: Reader, es: seq<seq<Byte>>, t: nat)
    requires Sized(g, m) && Registered(g, m, sclust, e, s, sum, short) && IsName(s) && |short| == 32 && IsShort(short)
    requires |r.buf| == MAX_LFN + 1 && t <= Segments(s) == |es|
    requires forall i :: 0 <= i < |es| ==> HasEntry(m.f, g, sclust, e - |es| + i) && es[i] == EntryBytes(g, m, sclust, e - |es| + i)
    ensures ReadFrom(g, m, sclust, e - |es| + t, FeedAll(r, es[..t])) == Some((e, FeedAll(r, es)))
    decreases |es| - t
  {
    hide Segment, HasEntry, Sound, EntryBytes, Feed, Skipped, IsLong;
    if t < |es| {
      var j := e - |es| + t;
      assert HasEntry(m.f, g, sclust, e - |es| + t) && es[t] == EntryBytes(g, m, sclust, j);
      SegmentIsLong(es[t], s, Segments(s) - t, sum);
      assert es[..t + 1][..t] == es[..t] && es[..t + 1][t] == es[t];
      ReadsOn(g, m, sclust, e, s, sum, short, r, es, t + 1);
    } else {
      assert es[..t] == es;
    }
  }

  /**
  A name registered in directory sectors, read back from its first entry on, whatever was seen
  before: dir_read stops at the short entry, takes the long name for its own exactly if it has at most 253
  characters, and then the buffer holds it.
  */
  lemma ReadsBack(g: Geometry, m: Medium, sclust: nat, e: nat, s: seq<nat>, sum: Byte, short: seq<Byte>, r: Reader)
    requires Sized(g, m) && Registered(g, m, sclust, e, s, sum, short) && IsName(s) && |short| == 32
    requires short[0] != 0 && short[0] != 0xE5 && short[0] != 0x2E && short[11] % 64 != 0x08 && short[11] % 64 != 0x0F
    requires |r.buf| == MAX_LFN + 1
    ensures var x := ReadFrom(g, m, sclust, e - Segments(s), r);
            && x.Some? && x.value.0 == e
            && (Accepted(x.value.1, sum) <==> |s| <= 253)
            && (|s| <= 253 ==> LongName.Holds(x.value.1.buf, s))
  {
    hide Segment, HasEntry, Sound, EntryBytes, Feed, ReadFrom, IsShort, LongName.Holds, IsName;
    var es := EntriesAt(g, m, sclust, e - Segments(s), Segments(s));
    assert FeedAll(r, es[..0]) == r;
    KindInBytes(short);
    ReadsOn(g, m, sclust, e, s, sum, short, r, es, 0);
    assert Stored(es, s, sum);
    NameRoundTrip(r, es, s, sum);
  }
}
