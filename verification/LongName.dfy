/**
Long file names of fatfs/src/ff.c: up to 255 characters spread over directory entries of 13
characters each (fit_lfn), written in descending order before the short entry, and put
together again (pick_lfn) or compared in place (cmp_lfn).
*/
module LongName {
  import opened Bits

  /** Offsets of the 13 characters in an entry. */
  const LFN_OFS: seq<nat> := [1, 3, 5, 7, 9, 14, 16, 18, 20, 22, 24, 28, 30]
  const MAX_LFN := 255
  const LLE := 0x40

  lemma Offset(j: nat)
    requires j < 13
    ensures |LFN_OFS| == 13 && LFN_OFS[j] == (if j < 5 then 1 else if j < 11 then 4 else 6) + 2 * j
  {
  }

  /** Characters other than the terminator and the filler. */
  predicate IsName(s: seq<nat>) {
    1 <= |s| <= MAX_LFN && forall i :: 0 <= i < |s| ==> 0 < s[i] < 0xFFFF
  }

  /** The name buffer holds s and its terminator. */
  predicate Holds(buf: seq<nat>, s: seq<nat>) {
    |buf| == MAX_LFN + 1 && |s| <= MAX_LFN && buf[..|s|] == s && buf[|s|] == 0
  }

  /** Entries needed for s. */
  function Segments(s: seq<nat>): nat {
    (|s| + 12) / 13
  }

  /** Character j of segment k: of the name, its terminator, or the filler. */
  function SegChar(s: seq<nat>, k: nat, j: nat): nat
    requires k > 0
  {
    var i := (k - 1) * 13 + j;
    if i < |s| then s[i] else if i == |s| then 0 else 0xFFFF
  }

  predicate IsLast(s: seq<nat>, k: nat) {
    k * 13 >= |s|
  }

  /** Entry e is segment k of s. */
  predicate Segment(e: seq<Byte>, s: seq<nat>, k: nat, sum: Byte)
    requires k > 0
  {
    && |e| == 32 && e[0] == (if IsLast(s, k) then k + LLE else k)
    && e[11] == 0x0F && e[12] == 0 && e[13] == sum && e[26] == 0 && e[27] == 0
    && forall j: nat :: j < 13 ==> Char(e, j) == SegChar(s, k, j)
  }

  /** Character j of an entry. */
  function Char(e: seq<Byte>, j: nat): nat
    requires |e| == 32 && j < 13
  {
    Offset(j);
    LdWord(e, LFN_OFS[j])
  }

  lemma OrLast(k: nat)
    requires k < 64
    ensures Or(k, LLE) == k + 64
  {
    Pow64();
    OrDisjoint(k, 1, 64);
  }

  /** Thirteen characters to an entry, and no entry without a character of the name. */
  lemma SegmentsIsCeiling(s: seq<nat>)
    requires IsName(s)
    ensures Segments(s) >= 1 && 13 * (Segments(s) - 1) < |s| <= 13 * Segments(s)
  {
  }

  /**
  Entry k of a name in bytes: its number, with bit 6 set if the name ends in it, the attribute of a long
  entry, the checksum, and 13 characters at 1, 14 and 28, the name followed by one zero and then 0xFFFF.
  */
  lemma SegmentInBytes(e: seq<Byte>, s: seq<nat>, k: nat, sum: Byte, j: nat, i: nat, o: nat)
    requires |e| == 32 && k > 0 && Segment(e, s, k, sum) && j < 13 && i == (k - 1) * 13 + j
    requires o == if j < 5 then 1 + 2 * j else if j < 11 then 14 + 2 * (j - 5) else 28 + 2 * (j - 11)
    ensures e[0] as int == (if k * 13 >= |s| then k + 64 else k)
    ensures e[11] == 0x0F && e[12] == 0 && e[13] == sum && e[26] == 0 && e[27] == 0
    ensures e[o] as int + 256 * e[o + 1] as int == if i < |s| then s[i] else if i == |s| then 0 else 0xFFFF
  {
    hide LdWord, LFN_OFS;
    hide Char;
    CharInBytes(e);
    assert Char(e, j) == SegChar(s, k, j);
  }

  /** fit_lfn: segment ord of the name in lfnbuf put into an entry. */
  method FitLfn(lfnbuf: array<nat>, dir: array<Byte>, ord: nat, sum: Byte, ghost s: seq<nat>)
    requires lfnbuf.Length == MAX_LFN + 1 && IsName(s) && Holds(lfnbuf[..], s)
    requires dir.Length == 32 && 1 <= ord <= Segments(s)
    modifies dir
    ensures Segment(dir[..], s, ord, sum)
    ensures dir[11] == 0x0F && dir[12] == 0 && dir[13] == sum && dir[26] == dir[27] == 0
    ensures dir[0] == if ord * 13 >= |s| then ord + 64 else ord
  {
    hide Or, LdWord;
    dir[13], dir[11], dir[12] := sum, 0x0F, 0;
    dir[26], dir[27] := ByteOf(0, 0), ByteOf(0, 1);
    var i, t, wc := (ord - 1) * 13, 0, 0;
    while t < 13
      invariant 0 <= t <= 13 && i == Min((ord - 1) * 13 + t, |s| + 1)
      invariant wc == 0xFFFF <==> (ord - 1) * 13 + t > |s|
      invariant dir[11] == 0x0F && dir[12] == 0 && dir[13] == sum && dir[26] == dir[27] == 0
      invariant forall j: nat :: j < t ==> Char(dir[..], j) == SegChar(s, ord, j)
    {
      if wc != 0xFFFF {
        wc := lfnbuf[i];
        i := i + 1;
      }
      assert wc == SegChar(s, ord, t);
      PutChar(dir, t, wc);
      if wc == 0 {
        wc := 0xFFFF;
      }
      t := t + 1;
    }
    var last := if wc == 0xFFFF then true else lfnbuf[i] == 0;
    OrLast(ord);
    dir[0] := if last then Or(ord, LLE) else ord;
  }

  function Min(a: nat, b: nat): nat {
    if a <= b then a else b
  }

  /** ST_WORD of a character; the other characters and the fixed bytes stay. */
  method PutChar(dir: array<Byte>, t: nat, wc: nat)
    requires dir.Length == 32 && t < 13 && wc < 0x1_0000
    modifies dir
    ensures Char(dir[..], t) == wc
    ensures forall j: nat :: j < 13 && j != t ==> Char(dir[..], j) == Char(old(dir[..]), j)
    ensures dir[11] == old(dir[11]) && dir[12] == old(dir[12]) && dir[13] == old(dir[13])
    ensures dir[26] == old(dir[26]) && dir[27] == old(dir[27])
  {
    hide LFN_OFS;
    Offset(t);
    var o := LFN_OFS[t];
    ghost var was := dir[..];
    StoreLoad(wc);
    dir[o], dir[o + 1] := ByteOf(wc, 0), ByteOf(wc, 1);
    forall j: nat | j < 13 && j != t
      ensures Char(dir[..], j) == Char(was, j)
    {
      Offset(j);
    }
  }

  // ----------------------------------------------------------------- picking

  datatype Picked = Picked(ok: bool, buf: seq<nat>, i: nat)

  /** The loop of pick_lfn from character t on; done: the terminator has been seen. */
  function PickChars(buf: seq<nat>, e: seq<Byte>, i: nat, t: nat, done: bool): (p: Picked)
    requires |buf| == MAX_LFN + 1 && |e| == 32 && t <= 13
    ensures |p.buf| == |buf|
    decreases 13 - t
  {
    if t == 13 then Picked(true, buf, i)
    else if done then
      if Char(e, t) != 0xFFFF then Picked(false, buf, i) else PickChars(buf, e, i, t + 1, true)
    else if i >= MAX_LFN then Picked(false, buf, i)
    else PickChars(buf[i := Char(e, t)], e, i + 1, t + 1, Char(e, t) == 0)
  }

  /** First buffer index of the entry, as 32-bit arithmetic has it. */
  function BufferStart(c: nat): nat {
    Sub32(c, 1) * 13 % WORD32
  }

  /** pick_lfn */
  function Pick(buf: seq<nat>, e: seq<Byte>): (p: Picked)
    requires |buf| == MAX_LFN + 1 && |e| == 32
    ensures |p.buf| == |buf|
  {
    var p := PickChars(buf, e, BufferStart(And(e[0], 0x3F)), 0, false);
    if !p.ok || And(e[0], LLE) == 0 then p
    else if p.i >= MAX_LFN then p.(ok := false)
    else p.(buf := p.buf[p.i := 0])
  }

  method PickLfn(lfnbuf: array<nat>, dir: array<Byte>) returns (ok: bool)
    requires lfnbuf.Length == MAX_LFN + 1 && dir.Length == 32
    modifies lfnbuf
    ensures ok == Pick(old(lfnbuf[..]), dir[..]).ok
    ensures lfnbuf[..] == Pick(old(lfnbuf[..]), dir[..]).buf
  {
    hide And, Or, LdWord, BufferStart;
    var i: nat := BufferStart(And(dir[0], 0x3F));
    var t, wc := 0, 1;
    ghost var p := PickChars(lfnbuf[..], dir[..], i, 0, false);
    while t < 13
      invariant 0 <= t <= 13 && 0 <= i && p == PickChars(lfnbuf[..], dir[..], i, t, wc == 0)
    {
      Offset(t);
      var uc := LdWord(dir[..], LFN_OFS[t]);
      if wc != 0 {
        if i >= MAX_LFN {
          return false;
        }
        ghost var was := lfnbuf[..];
        lfnbuf[i] := uc;
        assert lfnbuf[..] == was[i := uc];
        wc := uc;
        i := i + 1;
      } else if uc != 0xFFFF {
        return false;
      }
      t := t + 1;
    }
    if And(dir[0], LLE) != 0 {
      if i >= MAX_LFN {
        return false;
      }
      ghost var was := lfnbuf[..];
      lfnbuf[i] := 0;
      assert lfnbuf[..] == was[i := 0];
    }
    ok := true;
  }

  /** Character i of the name with its terminator. */
  function NameChar(s: seq<nat>, i: nat): nat {
    if i < |s| then s[i] else 0
  }

  /** Index behind the last character segment k stores. */
  function Stop(s: seq<nat>, k: nat): nat {
    Min(k * 13, |s| + 1)
  }

  /** The characters of a segment from t on go to their places. */
  lemma {:induction false} PickSegmentChars(buf: seq<nat>, e: seq<Byte>, s: seq<nat>, k: nat, sum: Byte, t: nat)
    requires |buf| == MAX_LFN + 1 && IsName(s) && 1 <= k <= Segments(s) && |e| == 32 && Segment(e, s, k, sum) && t <= 13
    requires Min((k - 1) * 13 + t, |s| + 1) <= MAX_LFN
    ensures var x := (k - 1) * 13 + t;
      var p := PickChars(buf, e, Min(x, |s| + 1), t, x > |s|);
      && (p.ok <==> Stop(s, k) <= MAX_LFN)
      && (p.ok ==> p.i == Stop(s, k) && forall j :: 0 <= j <= MAX_LFN ==>
            p.buf[j] == if x <= j < Stop(s, k) then NameChar(s, j) else buf[j])
    decreases 13 - t
  {
    hide Char, Segment, SegChar;
    if t < 13 {
      var x := (k - 1) * 13 + t;
      SegmentChar(e, s, k, sum, t);
      assert x <= |s| ==> (NameChar(s, x) == 0 <==> x == |s|);
      if x > |s| {
        PickSegmentChars(buf, e, s, k, sum, t + 1);
      } else if x < MAX_LFN {
        PickSegmentChars(buf[x := Char(e, t)], e, s, k, sum, t + 1);
      }
    }
  }

  /** Order byte of an entry: number and last-segment flag. */
  lemma OrderByte(c: nat)
    requires c < 128
    ensures And(c, 0x3F) == And(c, 0xBF) == c % 64 && (And(c, LLE) != 0 <==> c >= 64)
  {
    hide And, IsPow2;
    Pow64();
    var h, r := c / 64, c % 64;
    AndMask(c, 64);
    AndMask(r, 64);
    AndDigits(c, 0xBF, 64, h, r, 2, 63);
    AndDigits(c, LLE, 64, h, r, 1, 0);
    AndZero(r);
    HighBit(h);
  }

  lemma Pow64()
    ensures IsPow2(64)
  {
    PowUp(4);
  }

  lemma AndZero(r: nat)
    ensures And(r, 0) == 0
  {
  }

  lemma HighBit(h: nat)
    requires h < 2
    ensures And(h, 2) == 0 && And(h, 1) == h
  {
    if h == 1 {
      assert And(1, 2) == 0 && And(1, 1) == 1;
    }
  }

  lemma SegmentByte(e: seq<Byte>, s: seq<nat>, k: nat, sum: Byte)
    requires IsName(s) && 1 <= k <= Segments(s) && Segment(e, s, k, sum)
    ensures And(e[0], 0x3F) == And(e[0], 0xBF) == k && BufferStart(k) == (k - 1) * 13
    ensures And(e[0], LLE) != 0 <==> IsLast(s, k)
    ensures IsLast(s, k) <==> k == Segments(s)
  {
    hide And, Char, SegChar;
    OrderByte(e[0]);
    DivModUnique(k + 64, 64, 1, k);
  }

  /** A segment is picked unless it is the last one of a name longer than 253 characters. */
  lemma PickSegment(buf: seq<nat>, e: seq<Byte>, s: seq<nat>, k: nat, sum: Byte)
    requires |buf| == MAX_LFN + 1 && IsName(s) && 1 <= k <= Segments(s) && Segment(e, s, k, sum)
    ensures Pick(buf, e).ok <==> (IsLast(s, k) ==> |s| <= 253)
    ensures Pick(buf, e).ok ==> forall j :: 0 <= j <= MAX_LFN ==>
      Pick(buf, e).buf[j] == if (k - 1) * 13 <= j < Stop(s, k) then NameChar(s, j)
                             else if IsLast(s, k) && j == Stop(s, k) then 0 else buf[j]
  {
    hide And, BufferStart, PickChars;
    SegmentByte(e, s, k, sum);
    PickSegmentChars(buf, e, s, k, sum, 0);
  }

  // ----------------------------------------------------------------- reading

  /** What dir_read carries from entry to entry. */
  datatype Reader = Reader(ord: nat, sum: nat, buf: seq<nat>)

  /** The entry continues the sequence seen so far, or starts one: order and checksum it has to have. */
  function Expected(order: nat, check: nat, e: seq<Byte>): (x: (bool, nat, nat))
    requires |e| == 32
  {
    var first := And(e[0], LLE) != 0;
    var c: nat := if first then And(e[0], 0xBF) else e[0];
    var ord, sum: nat := if first then c else order, if first then e[13] else check;
    (c == ord && sum == e[13], ord, sum)
  }

  /** dir_read at a long-name entry. */
  function Feed(r: Reader, e: seq<Byte>): (q: Reader)
    requires |e| == 32 && |r.buf| == MAX_LFN + 1
    ensures |q.buf| == |r.buf|
  {
    var x := Expected(r.ord, r.sum, e);
    if !x.0 then Reader(0xFF, x.2, r.buf)
    else
      var p := Pick(r.buf, e);
      Reader(if p.ok then (x.1 + 255) % 256 else 0xFF, x.2, p.buf)
  }

  function FeedAll(r: Reader, es: seq<seq<Byte>>): (q: Reader)
    requires |r.buf| == MAX_LFN + 1 && forall i :: 0 <= i < |es| ==> |es[i]| == 32
    ensures |q.buf| == |r.buf|
  {
    if es == [] then r else Feed(FeedAll(r, es[..|es| - 1]), es[|es| - 1])
  }

  /** es are the entries dir_register stores for s: the segments in descending order. */
  predicate Stored(es: seq<seq<Byte>>, s: seq<nat>, sum: Byte) {
    |es| == Segments(s) && forall m :: 0 <= m < |es| ==> Segment(es[m], s, |es| - m, sum)
  }

  /** State of the reader after m of the entries of s. */
  predicate ReadSoFar(r: Reader, s: seq<nat>, sum: Byte, m: nat)
    requires 1 <= m <= Segments(s)
  {
    var k := Segments(s) - m;
    && |r.buf| == MAX_LFN + 1 && r.sum == sum
    && (if |s| <= 253 then r.ord == k && (forall j :: k * 13 <= j <= |s| ==> r.buf[j] == NameChar(s, j)) else r.ord == 0xFF)
  }

  lemma FeedFirst(r: Reader, e: seq<Byte>, s: seq<nat>, sum: Byte)
    requires |r.buf| == MAX_LFN + 1 && IsName(s) && Segment(e, s, Segments(s), sum)
    ensures ReadSoFar(Feed(r, e), s, sum, 1)
  {
    hide And, Pick;
    SegmentByte(e, s, Segments(s), sum);
    PickSegment(r.buf, e, s, Segments(s), sum);
  }

  lemma FeedNext(r: Reader, e: seq<Byte>, s: seq<nat>, sum: Byte, m: nat)
    requires IsName(s) && 1 <= m < Segments(s) && ReadSoFar(r, s, sum, m) && Segment(e, s, Segments(s) - m, sum)
    ensures ReadSoFar(Feed(r, e), s, sum, m + 1)
  {
    hide And, Pick;
    SegmentByte(e, s, Segments(s) - m, sum);
    PickSegment(r.buf, e, s, Segments(s) - m, sum);
  }

  lemma {:induction false} FeedStored(r: Reader, es: seq<seq<Byte>>, s: seq<nat>, sum: Byte, m: nat)
    requires |r.buf| == MAX_LFN + 1 && IsName(s) && Stored(es, s, sum) && 1 <= m <= |es|
    ensures ReadSoFar(FeedAll(r, es[..m]), s, sum, m)
  {
    hide Feed, ReadSoFar, Segment;
    assert forall i :: 0 <= i < |es| ==> |es[i]| == 32 by {
      forall i | 0 <= i < |es|
        ensures |es[i]| == 32
      {
        SegmentSize(es[i], s, |es| - i, sum);
      }
    }
    assert es[..m][..m - 1] == es[..m - 1];
    if m == 1 {
      assert FeedAll(r, es[..0]) == r;
      FeedFirst(r, es[0], s, sum);
    } else {
      FeedStored(r, es, s, sum, m - 1);
      FeedNext(FeedAll(r, es[..m - 1]), es[m - 1], s, sum, m - 1);
    }
  }

  lemma SegmentSize(e: seq<Byte>, s: seq<nat>, k: nat, sum: Byte)
    requires k > 0 && Segment(e, s, k, sum)
    ensures |e| == 32
  {
  }

  /** The reader accepts its name for the short entry that follows. */
  predicate Accepted(r: Reader, sum: Byte) {
    r.ord == 0 && r.sum == sum
  }

  /**
   * Stored and read back: dir_read restores exactly the names of up to 253 characters,
   * whatever it saw before. Names of 254 and 255 characters can be created but are
   * not read back: the terminator the last segment asks for has no place below index 255.
   */
  lemma NameRoundTrip(r: Reader, es: seq<seq<Byte>>, s: seq<nat>, sum: Byte)
    requires |r.buf| == MAX_LFN + 1 && IsName(s) && Stored(es, s, sum)
    requires forall i :: 0 <= i < |es| ==> |es[i]| == 32
    ensures Accepted(FeedAll(r, es), sum) <==> |s| <= 253
    ensures |s| <= 253 ==> Holds(FeedAll(r, es).buf, s)
  {
    hide FeedAll, Segment;
    assert |es| >= 1;
    FeedStored(r, es, s, sum, |es|);
    assert es[..|es|] == es;
  }

  // --------------------------------------------------------------- comparing

  /** The loop of cmp_lfn from character t on; up is ff_wtoupper. */
  function CompareChars(up: nat -> nat, buf: seq<nat>, e: seq<Byte>, i: nat, t: nat, done: bool): (bool, nat, bool)
    requires |buf| == MAX_LFN + 1 && |e| == 32 && t <= 13
    decreases 13 - t
  {
    if t == 13 then (true, i, done)
    else if done then
      if Char(e, t) != 0xFFFF then (false, i, done) else CompareChars(up, buf, e, i, t + 1, true)
    else if i >= MAX_LFN || up(Char(e, t)) != up(buf[i]) then (false, i, done)
    else CompareChars(up, buf, e, i + 1, t + 1, up(Char(e, t)) == 0)
  }

  /** cmp_lfn */
  predicate Compare(up: nat -> nat, buf: seq<nat>, e: seq<Byte>)
    requires |buf| == MAX_LFN + 1 && |e| == 32
  {
    var c := CompareChars(up, buf, e, BufferStart(And(e[0], 0xBF)), 0, false);
    c.0 && !(And(e[0], LLE) != 0 && !c.2 && c.1 <= MAX_LFN && buf[c.1] != 0)
  }

  method CmpLfn(up: nat -> nat, lfnbuf: array<nat>, dir: array<Byte>) returns (matched: bool)
    requires lfnbuf.Length == MAX_LFN + 1 && dir.Length == 32
    ensures matched == Compare(up, lfnbuf[..], dir[..])
  {
    hide And, Or, LdWord, BufferStart;
    var i: nat := BufferStart(And(dir[0], 0xBF));
    var t, wc := 0, 1;
    ghost var c := CompareChars(up, lfnbuf[..], dir[..], i, 0, false);
    while t < 13
      invariant 0 <= t <= 13 && 0 <= i && c == CompareChars(up, lfnbuf[..], dir[..], i, t, wc == 0)
      invariant wc != 0 && t > 0 ==> i <= MAX_LFN
    {
      Offset(t);
      var uc := LdWord(dir[..], LFN_OFS[t]);
      if wc != 0 {
        wc := up(uc);
        if i >= MAX_LFN || wc != up(lfnbuf[i]) {
          return false;
        }
        i := i + 1;
      } else if uc != 0xFFFF {
        return false;
      }
      t := t + 1;
    }
    if And(dir[0], LLE) != 0 && wc != 0 && lfnbuf[i] != 0 {
      return false;
    }
    matched := true;
  }

  /** Only the terminator is folded to the terminator. */
  ghost predicate FoldsCase(up: nat -> nat) {
    forall c: nat :: up(c) == 0 <==> c == 0
  }

  /** Names that differ in case only. */
  predicate SameName(up: nat -> nat, s: seq<nat>, u: seq<nat>) {
    |s| == |u| && forall i :: 0 <= i < |s| ==> up(s[i]) == up(u[i])
  }

  /** Character i of s, or its terminator, agrees with the buffer. */
  predicate AgreesAt(up: nat -> nat, buf: seq<nat>, s: seq<nat>, i: nat)
    requires |buf| == MAX_LFN + 1
  {
    i < MAX_LFN && up(NameChar(s, i)) == up(buf[i])
  }

  predicate Agrees(up: nat -> nat, buf: seq<nat>, s: seq<nat>, from: nat, to: nat)
    requires |buf| == MAX_LFN + 1
  {
    forall i: nat :: from <= i < to ==> AgreesAt(up, buf, s, i)
  }

  /** Segment k of s agrees with the buffer, and so does the end of the name if k fills up with it. */
  predicate SegmentAgrees(up: nat -> nat, buf: seq<nat>, s: seq<nat>, k: nat)
    requires |buf| == MAX_LFN + 1 && k > 0 && IsName(s)
  {
    Agrees(up, buf, s, (k - 1) * 13, Stop(s, k)) && (k * 13 == |s| ==> buf[|s|] == 0)
  }

  lemma {:induction false} CompareSegmentChars(up: nat -> nat, buf: seq<nat>, e: seq<Byte>, s: seq<nat>, k: nat, sum: Byte, t: nat)
    requires |buf| == MAX_LFN + 1 && IsName(s) && FoldsCase(up) && 1 <= k <= Segments(s)
    requires |e| == 32 && Segment(e, s, k, sum) && t <= 13
    ensures var x := (k - 1) * 13 + t;
      var c := CompareChars(up, buf, e, Min(x, |s| + 1), t, x > |s|);
      && (c.0 <==> Agrees(up, buf, s, x, Stop(s, k)))
      && (c.0 ==> c.1 == Stop(s, k) && (c.2 <==> k * 13 > |s|))
    decreases 13 - t
  {
    hide Agrees, Char, Segment, SegChar;
    var x := (k - 1) * 13 + t;
    AgreesNowhere(up, buf, s, x, Stop(s, k));
    AgreesNowhere(up, buf, s, x + 1, Stop(s, k));
    if t < 13 {
      SegmentChar(e, s, k, sum, t);
      assert up(Char(e, t)) == 0 <==> Char(e, t) == 0;
      assert x <= |s| ==> (NameChar(s, x) == 0 <==> x == |s|);
      CompareSegmentChars(up, buf, e, s, k, sum, t + 1);
      if x <= |s| {
        AgreesFrom(up, buf, s, x, Stop(s, k));
      }
    }
  }

  lemma SegmentChar(e: seq<Byte>, s: seq<nat>, k: nat, sum: Byte, t: nat)
    requires k > 0 && IsName(s) && Segment(e, s, k, sum) && t < 13
    ensures |e| == 32
    ensures var x := (k - 1) * 13 + t; Char(e, t) == if x <= |s| then NameChar(s, x) else 0xFFFF
  {
    assert Char(e, t) == SegChar(s, k, t);
  }

  lemma AgreesNowhere(up: nat -> nat, buf: seq<nat>, s: seq<nat>, x: nat, to: nat)
    requires |buf| == MAX_LFN + 1
    ensures x >= to ==> Agrees(up, buf, s, x, to)
  {
  }

  lemma AgreesFrom(up: nat -> nat, buf: seq<nat>, s: seq<nat>, x: nat, to: nat)
    requires |buf| == MAX_LFN + 1 && x < to
    ensures Agrees(up, buf, s, x, to) <==>
      AgreesAt(up, buf, s, x) && Agrees(up, buf, s, x + 1, to)
  {
  }

  lemma CompareSegment(up: nat -> nat, buf: seq<nat>, e: seq<Byte>, s: seq<nat>, k: nat, sum: Byte)
    requires |buf| == MAX_LFN + 1 && IsName(s) && FoldsCase(up) && 1 <= k <= Segments(s) && Segment(e, s, k, sum)
    ensures Compare(up, buf, e) <==> SegmentAgrees(up, buf, s, k)
  {
    hide And, BufferStart, CompareChars;
    SegmentByte(e, s, k, sum);
    CompareSegmentChars(up, buf, e, s, k, sum, 0);
  }

  /** dir_find takes the entries for the name it looks for. */
  predicate Matches(up: nat -> nat, buf: seq<nat>, es: seq<seq<Byte>>)
    requires |buf| == MAX_LFN + 1 && forall i :: 0 <= i < |es| ==> |es[i]| == 32
  {
    forall i :: 0 <= i < |es| ==> Compare(up, buf, es[i])
  }

  /**
   * Looking for u, cmp_lfn accepts all entries stored for s exactly if the names differ in
   * case only and have at most 254 characters.
   */
  lemma FindsExactly(up: nat -> nat, buf: seq<nat>, u: seq<nat>, es: seq<seq<Byte>>, s: seq<nat>, sum: Byte)
    requires FoldsCase(up) && IsName(s) && IsName(u) && Holds(buf, u) && Stored(es, s, sum)
    requires forall i :: 0 <= i < |es| ==> |es[i]| == 32
    ensures Matches(up, buf, es) <==> SameName(up, s, u) && |s| <= 254
  {
    hide Segment, Compare, SegmentAgrees;
    var n := Segments(s);
    forall m | 0 <= m < n
      ensures Compare(up, buf, es[m]) <==> SegmentAgrees(up, buf, s, n - m)
    {
      CompareSegment(up, buf, es[m], s, n - m, sum);
    }
    if Matches(up, buf, es) {
      forall k: nat | 1 <= k <= n
        ensures SegmentAgrees(up, buf, s, k)
      {
        assert Compare(up, buf, es[n - k]);
      }
      MatchImpliesSame(up, buf, u, s);
    }
    if SameName(up, s, u) && |s| <= 254 {
      forall m | 0 <= m < n
        ensures Compare(up, buf, es[m])
      {
        SameAgrees(up, buf, u, s, n - m);
      }
    }
  }

  /** What dir_find carries from entry to entry. */
  datatype Finder = Finder(ord: nat, sum: nat)

  /** dir_find at a long-name entry, looking for the name in buf. */
  function Probe(up: nat -> nat, buf: seq<nat>, f: Finder, e: seq<Byte>): Finder
    requires |e| == 32 && |buf| == MAX_LFN + 1
  {
    var x := Expected(f.ord, f.sum, e);
    Finder(if x.0 && Compare(up, buf, e) then (x.1 + 255) % 256 else 0xFF, x.2)
  }

  function ProbeAll(up: nat -> nat, buf: seq<nat>, f: Finder, es: seq<seq<Byte>>): Finder
    requires |buf| == MAX_LFN + 1 && forall i :: 0 <= i < |es| ==> |es[i]| == 32
  {
    if es == [] then f else Probe(up, buf, ProbeAll(up, buf, f, es[..|es| - 1]), es[|es| - 1])
  }

  lemma ProbeFirst(up: nat -> nat, buf: seq<nat>, f: Finder, e: seq<Byte>, s: seq<nat>, sum: Byte)
    requires |buf| == MAX_LFN + 1 && IsName(s) && Segment(e, s, Segments(s), sum)
    ensures Probe(up, buf, f, e) == Finder(if Compare(up, buf, e) then Segments(s) - 1 else 0xFF, sum)
  {
    hide And, Compare;
    SegmentByte(e, s, Segments(s), sum);
  }

  lemma ProbeNext(up: nat -> nat, buf: seq<nat>, e: seq<Byte>, s: seq<nat>, sum: Byte, k: nat, ord: nat)
    requires |buf| == MAX_LFN + 1 && IsName(s) && 1 <= k < Segments(s) && Segment(e, s, k, sum) && (ord == k || ord == 0xFF)
    ensures Probe(up, buf, Finder(ord, sum), e) == Finder(if ord == k && Compare(up, buf, e) then k - 1 else 0xFF, sum)
  {
    hide And, Compare;
    SegmentByte(e, s, k, sum);
  }

  lemma {:induction false} ProbeStored(up: nat -> nat, buf: seq<nat>, f: Finder, es: seq<seq<Byte>>, s: seq<nat>, sum: Byte, m: nat)
    requires |buf| == MAX_LFN + 1 && IsName(s) && Stored(es, s, sum) && 1 <= m <= |es|
    requires forall i :: 0 <= i < |es| ==> |es[i]| == 32
    ensures ProbeAll(up, buf, f, es[..m]) ==
            Finder(if Matches(up, buf, es[..m]) then Segments(s) - m else 0xFF, sum)
  {
    hide Probe, Segment, Compare;
    assert es[..m][..m - 1] == es[..m - 1] && es[..m][m - 1] == es[m - 1];
    if m == 1 {
      assert ProbeAll(up, buf, f, es[..0]) == f;
      ProbeFirst(up, buf, f, es[0], s, sum);
    } else {
      ProbeStored(up, buf, f, es, s, sum, m - 1);
      ProbeNext(up, buf, es[m - 1], s, sum, Segments(s) - m + 1, ProbeAll(up, buf, f, es[..m - 1]).ord);
    }
    MatchesSnoc(up, buf, es, m);
  }

  lemma MatchesSnoc(up: nat -> nat, buf: seq<nat>, es: seq<seq<Byte>>, m: nat)
    requires |buf| == MAX_LFN + 1 && 1 <= m <= |es| && forall i :: 0 <= i < |es| ==> |es[i]| == 32
    ensures Matches(up, buf, es[..m]) <==> Matches(up, buf, es[..m - 1]) && Compare(up, buf, es[m - 1])
  {
    hide Compare;
    assert forall i :: 0 <= i < m - 1 ==> es[..m][i] == es[..m - 1][i];
    assert es[..m][m - 1] == es[m - 1];
  }

  /**
   * dir_find looking for u, whatever entries it passed before, stops at the short entry behind
   * those stored for s exactly if the names differ in case only and have at most 254
   * characters; a file with a name of 255 characters is never found by it.
   */
  lemma FoundExactly(up: nat -> nat, buf: seq<nat>, f: Finder, u: seq<nat>, es: seq<seq<Byte>>, s: seq<nat>, sum: Byte)
    requires FoldsCase(up) && IsName(s) && IsName(u) && Holds(buf, u) && Stored(es, s, sum)
    requires forall i :: 0 <= i < |es| ==> |es[i]| == 32
    ensures ProbeAll(up, buf, f, es) == Finder(0, sum) <==> SameName(up, s, u) && |s| <= 254
  {
    hide Segment, Compare, ProbeAll, Matches, SameName;
    FindsExactly(up, buf, u, es, s, sum);
    ProbeStored(up, buf, f, es, s, sum, |es|);
    assert es[..|es|] == es;
  }

  lemma SameAgrees(up: nat -> nat, buf: seq<nat>, u: seq<nat>, s: seq<nat>, k: nat)
    requires Holds(buf, u) && IsName(s) && SameName(up, s, u) && |s| <= 254 && k > 0
    ensures SegmentAgrees(up, buf, s, k)
  {
    forall i: nat | (k - 1) * 13 <= i < Stop(s, k)
      ensures AgreesAt(up, buf, s, i)
    {
      if i < |s| {
        assert up(s[i]) == up(u[i]) && buf[i] == buf[..|u|][i];
      }
    }
  }

  /** If the segments agree, so does every character and the terminator. */
  lemma AllAgree(up: nat -> nat, buf: seq<nat>, s: seq<nat>, i: nat)
    requires FoldsCase(up) && |buf| == MAX_LFN + 1 && IsName(s) && i <= |s|
    requires forall k: nat :: 1 <= k <= Segments(s) ==> SegmentAgrees(up, buf, s, k)
    ensures up(NameChar(s, i)) == up(buf[i]) && i < MAX_LFN
  {
    var k := i / 13 + 1;
    if i < |s| || |s| % 13 != 0 {
      assert SegmentAgrees(up, buf, s, k);
      assert AgreesAt(up, buf, s, i);
    } else {
      assert SegmentAgrees(up, buf, s, Segments(s));
      assert |s| % 13 == 0 && |s| == Segments(s) * 13;
    }
  }

  lemma MatchImpliesSame(up: nat -> nat, buf: seq<nat>, u: seq<nat>, s: seq<nat>)
    requires FoldsCase(up) && IsName(s) && IsName(u) && Holds(buf, u)
    requires forall k: nat :: 1 <= k <= Segments(s) ==> SegmentAgrees(up, buf, s, k)
    ensures SameName(up, s, u) && |s| <= 254
  {
    hide SegmentAgrees;
    forall i: nat | i <= |s|
      ensures up(NameChar(s, i)) == up(buf[i]) && i < MAX_LFN
    {
      AllAgree(up, buf, s, i);
    }
    assert up(NameChar(s, |s|)) == up(buf[|s|]);
    assert forall i: nat :: i < |u| ==> buf[i] == u[i] by {
      assert forall i: nat :: i < |u| ==> buf[..|u|][i] == u[i];
    }
    var end := Min(|u|, |s|);
    assert up(NameChar(s, end)) == up(buf[end]);
    forall i | 0 <= i < |s|
      ensures up(s[i]) == up(u[i])
    {
      assert up(NameChar(s, i)) == up(buf[i]);
    }
  }

  // ------------------------------------------------------------ in byte terms

  /** The 13 characters of an entry are the words at these offsets. */
  lemma CharInBytes(e: seq<Byte>)
    requires |e| == 32
    ensures Char(e, 0) == e[1] as int + 256 * e[2] as int && Char(e, 1) == e[3] as int + 256 * e[4] as int
    ensures Char(e, 2) == e[5] as int + 256 * e[6] as int && Char(e, 3) == e[7] as int + 256 * e[8] as int
    ensures Char(e, 4) == e[9] as int + 256 * e[10] as int && Char(e, 5) == e[14] as int + 256 * e[15] as int
    ensures Char(e, 6) == e[16] as int + 256 * e[17] as int && Char(e, 7) == e[18] as int + 256 * e[19] as int
    ensures Char(e, 8) == e[20] as int + 256 * e[21] as int && Char(e, 9) == e[22] as int + 256 * e[23] as int
    ensures Char(e, 10) == e[24] as int + 256 * e[25] as int && Char(e, 11) == e[28] as int + 256 * e[29] as int
    ensures Char(e, 12) == e[30] as int + 256 * e[31] as int
  {
    hide Or;
  }

  /** Bit 6 of the first byte marks the last segment, the other bits number it. */
  lemma OrderBits(c: Byte)
    ensures (And(c, 0x40) != 0 <==> c as int / 64 % 2 == 1) && And(c, 0xBF) == c as int - 64 * (c as int / 64 % 2)
    ensures And(c, 0x3F) == c as int % 64
  {
    hide And, IsPow2;
    Pow64();
    var h, r := c as int / 64, c as int % 64;
    AndMask(c, 64);
    AndMask(r, 64);
    AndDigits(c, 0xBF, 64, h, r, 2, 63);
    AndDigits(c, 0x40, 64, h, r, 1, 0);
    AndZero(r);
    TwoBits(h);
  }

  lemma TwoBits(h: nat)
    requires h < 4
    ensures And(h, 1) == h % 2 && And(h, 2) == h - h % 2
  {
    assert And(1, 1) == 1 && And(0, 1) == 0 && And(1, 0) == 0;
    assert h == 0 || h == 1 || h == 2 || h == 3;
  }

  /**
  dir_read and dir_find at any long entry: the last segment sets order and checksum, every other one must
  have the order expected and the same checksum, and only then are its characters taken or compared. Anything
  else spoils the sequence.
  */
  lemma SequenceInPlain(up: nat -> nat, buf: seq<nat>, r: Reader, f: Finder, e: seq<Byte>)
    requires |e| == 32 && |r.buf| == |buf| == MAX_LFN + 1
    ensures var last, n: int := e[0] as int / 64 % 2 == 1, e[0] as int - 64 * (e[0] as int / 64 % 2);
      && (n == (if last then n else r.ord) && e[13] as int == (if last then e[13] else r.sum) ==>
            Feed(r, e) == Reader(if Pick(r.buf, e).ok then (n + 255) % 256 else 0xFF, e[13], Pick(r.buf, e).buf))
      && (!last && (n != r.ord || e[13] as int != r.sum) ==> Feed(r, e) == Reader(0xFF, r.sum, r.buf))
      && (n == (if last then n else f.ord) && e[13] as int == (if last then e[13] else f.sum) ==>
            Probe(up, buf, f, e) == Finder(if Compare(up, buf, e) then (n + 255) % 256 else 0xFF, e[13]))
      && (!last && (n != f.ord || e[13] as int != f.sum) ==> Probe(up, buf, f, e) == Finder(0xFF, f.sum))
  {
    hide And, Pick, Compare;
    OrderBits(e[0]);
  }

  /** A terminator stands among the characters from t to before u. */
  predicate Ended(e: seq<Byte>, t: nat, u: nat)
    requires |e| == 32 && u <= 13
  {
    exists v: nat :: t <= v < u && Char(e, v) == 0
  }

  lemma EndedFrom(e: seq<Byte>, t: nat)
    requires |e| == 32 && t < 13
    ensures forall u: nat :: t < u <= 13 ==> (Ended(e, t, u) <==> Char(e, t) == 0 || Ended(e, t + 1, u))
  {
    hide Char;
    forall u: nat | t < u <= 13
      ensures Ended(e, t, u) <==> Char(e, t) == 0 || Ended(e, t + 1, u)
    {
      if Ended(e, t, u) && Char(e, t) != 0 {
        var v: nat :| t <= v < u && Char(e, v) == 0;
      }
    }
  }

  /** Character u of an entry is taken to place i, or has to be the filler behind the terminator. */
  predicate TakenTo(p: Picked, e: seq<Byte>, t: nat, u: nat, i: nat, done: bool)
    requires |p.buf| == MAX_LFN + 1 && |e| == 32 && u < 13
  {
    if done || Ended(e, t, u) then Char(e, u) == 0xFFFF && p.i <= i + u - t
    else t <= u && i + u - t < p.i && i + u - t < MAX_LFN && p.buf[i + u - t] == Char(e, u)
  }

  /** Why an entry is refused: a character behind the terminator, or one without a place. */
  predicate Refused(e: seq<Byte>, t: nat, u: nat, i: nat, done: bool)
    requires |e| == 32 && t <= u < 13
  {
    if done || Ended(e, t, u) then Char(e, u) != 0xFFFF else i + u - t >= MAX_LFN
  }

  lemma {:induction false} PickCharsPlain(buf: seq<nat>, e: seq<Byte>, i: nat, t: nat, done: bool)
    requires |buf| == MAX_LFN + 1 && |e| == 32 && t <= 13
    ensures var p := PickChars(buf, e, i, t, done);
      && (p.ok ==> forall u: nat :: t <= u < 13 ==> TakenTo(p, e, t, u, i, done))
      && (p.ok ==> i <= p.i <= i + 13 - t && forall j :: 0 <= j <= MAX_LFN && !(i <= j < p.i) ==> p.buf[j] == buf[j])
      && (p.ok && done ==> p.i == i)
      && (!p.ok ==> exists u: nat :: t <= u < 13 && Refused(e, t, u, i, done))
    decreases 13 - t
  {
    hide Char, Ended;
    EndedNot(e, t);
    if t < 13 {
      EndedFrom(e, t);
      if done {
        if Char(e, t) == 0xFFFF {
          PickCharsPlain(buf, e, i, t + 1, true);
          var p := PickChars(buf, e, i, t + 1, true);
          if !p.ok {
            var u: nat :| t + 1 <= u < 13 && Refused(e, t + 1, u, i, true);
            assert Refused(e, t, u, i, done);
          } else {
            forall u: nat | t <= u < 13
              ensures TakenTo(p, e, t, u, i, done)
            {
              assert u > t ==> TakenTo(p, e, t + 1, u, i, true);
            }
          }
        } else {
          assert Refused(e, t, t, i, done);
        }
      } else if i >= MAX_LFN {
        assert Refused(e, t, t, i, done);
      } else {
        PickCharsNext(buf, e, i, t);
      }
    }
  }

  lemma {:induction false} PickCharsNext(buf: seq<nat>, e: seq<Byte>, i: nat, t: nat)
    requires |buf| == MAX_LFN + 1 && |e| == 32 && t < 13 && i < MAX_LFN
    ensures var p := PickChars(buf, e, i, t, false);
      && (p.ok ==> forall u: nat :: t <= u < 13 ==> TakenTo(p, e, t, u, i, false))
      && (p.ok ==> i <= p.i <= i + 13 - t && forall j :: 0 <= j <= MAX_LFN && !(i <= j < p.i) ==> p.buf[j] == buf[j])
      && (!p.ok ==> exists u: nat :: t <= u < 13 && Refused(e, t, u, i, false))
    decreases 13 - t, 0
  {
    hide Char, Ended;
    EndedNot(e, t);
    EndedFrom(e, t);
    var b, z := buf[i := Char(e, t)], Char(e, t) == 0;
    PickCharsPlain(b, e, i + 1, t + 1, z);
    var p := PickChars(b, e, i + 1, t + 1, z);
    assert PickChars(buf, e, i, t, false) == p;
    if p.ok {
      forall u: nat | t <= u < 13
        ensures TakenTo(p, e, t, u, i, false)
      {
        assert u > t ==> TakenTo(p, e, t + 1, u, i + 1, z);
      }
    } else {
      var u: nat :| t + 1 <= u < 13 && Refused(e, t + 1, u, i + 1, z);
      assert Refused(e, t, u, i, false);
    }
  }

  lemma EndedNot(e: seq<Byte>, t: nat)
    requires |e| == 32 && t <= 13
    ensures !Ended(e, t, t)
  {
  }

  /** Character u of an entry stands in its place of the buffer. */
  predicate PlacedAt(buf: seq<nat>, e: seq<Byte>, base: nat, u: nat)
    requires |buf| == MAX_LFN + 1 && |e| == 32
  {
    base + u < 255 && u < 13 && buf[base + u] == Char(e, u)
  }

  /** The first n characters of an entry run up to its terminator, or it has none and they are all 13. */
  predicate EndsWith(e: seq<Byte>, n: nat)
    requires |e| == 32
  {
    n <= 13 && forall u: nat :: u < 13 ==> (Ended(e, 0, u) <==> n <= u)
  }

  /**
  pick_lfn on any entry: the characters up to the terminator go to the 13 places of the segment, which have to
  lie below index 255, everything behind the terminator has to be filler, and behind the last segment
  a terminator is stored, for which there has to be a place below 255 too.
  */
  lemma PickInPlain(buf: seq<nat>, e: seq<Byte>)
    requires |buf| == MAX_LFN + 1 && |e| == 32
    ensures var n, last, p := e[0] as int % 64, e[0] as int / 64 % 2 == 1, Pick(buf, e);
      var base := if n == 0 then 0xFFFF_FFF3 else 13 * (n - 1);
      && (p.ok ==> base <= p.i && EndsWith(e, p.i - base))
      && (p.ok ==> forall u: nat :: u < p.i - base ==> PlacedAt(p.buf, e, base, u))
      && (p.ok ==> forall u: nat :: p.i - base <= u < 13 ==> Char(e, u) == 0xFFFF)
      && (p.ok && last ==> p.i < 255 && p.buf[p.i] == 0)
      && (p.ok ==> forall j :: 0 <= j <= 255 && !(base <= j < p.i) && !(last && j == p.i) ==> p.buf[j] == buf[j])
      && (!p.ok ==> (exists u: nat :: u < 13 && Refused(e, 0, u, base, false))
                    || (last && exists k: nat :: EndsWith(e, k) && base + k >= 255))
  {
    hide And, Char, Ended, PickChars;
    OrderBits(e[0]);
    var n := e[0] as int % 64;
    var base := if n == 0 then 0xFFFF_FFF3 else 13 * (n - 1);
    assert BufferStart(n) == base;
    var p := PickChars(buf, e, base, 0, false);
    PickCharsPlain(buf, e, base, 0, false);
    if p.ok {
      forall u: nat | u < 13
        ensures Ended(e, 0, u) <==> p.i - base <= u
        ensures if p.i - base <= u then Char(e, u) == 0xFFFF else base + u < 255 && p.buf[base + u] == Char(e, u)
      {
        assert TakenTo(p, e, 0, u, base, false);
      }
      assert EndsWith(e, p.i - base);
      var q := Pick(buf, e);
      if q.ok {
        forall u: nat | u < q.i - base
          ensures PlacedAt(q.buf, e, base, u)
        {
          assert TakenTo(p, e, 0, u, base, false);
        }
      }
    }
  }

  /** From t on all characters agree if the one at t does and so do those from t + 1 on. */
  lemma AgreesAll(up: nat -> nat, buf: seq<nat>, e: seq<Byte>, t: nat, i: nat, done: bool, s: nat, k: nat, z: bool)
    requires |buf| == MAX_LFN + 1 && |e| == 32 && t < 13 && s == t + 1 && AgreesTo(up, buf, e, t, t, i, done)
    requires forall u: nat :: t < u < 13 ==> (AgreesTo(up, buf, e, t, u, i, done) <==> AgreesTo(up, buf, e, s, u, k, z))
    ensures (forall u: nat :: t <= u < 13 ==> AgreesTo(up, buf, e, t, u, i, done))
            <==> forall u: nat :: s <= u < 13 ==> AgreesTo(up, buf, e, s, u, k, z)
  {
    hide AgreesTo;
  }

  lemma {:induction false} CompareCharsPlain(up: nat -> nat, buf: seq<nat>, e: seq<Byte>, i: nat, t: nat, done: bool)
    requires |buf| == MAX_LFN + 1 && |e| == 32 && t <= 13 && FoldsCase(up)
    ensures var c := CompareChars(up, buf, e, i, t, done);
      && (c.0 <==> forall u: nat :: t <= u < 13 ==> AgreesTo(up, buf, e, t, u, i, done))
      && (c.0 ==> (c.2 <==> done || Ended(e, t, 13)) && (!c.2 ==> c.1 == i + 13 - t))
    decreases 13 - t
  {
    hide Char, Ended;
    EndedNot(e, t);
    if t < 13 {
      EndedFrom(e, t);
      var z := done || Char(e, t) == 0;
      var k := if done then i else i + 1;
      CompareCharsPlain(up, buf, e, k, t + 1, z);
      assert up(Char(e, t)) == 0 <==> Char(e, t) == 0;
      if AgreesTo(up, buf, e, t, t, i, done) {
        assert CompareChars(up, buf, e, i, t, done) == CompareChars(up, buf, e, k, t + 1, z);
        forall u: nat | t < u < 13
          ensures AgreesTo(up, buf, e, t, u, i, done) <==> AgreesTo(up, buf, e, t + 1, u, k, z)
        {
        }
        AgreesAll(up, buf, e, t, i, done, t + 1, k, z);
      }
    }
  }

  /** Character u of an entry agrees with the buffer at place i, or is the filler behind the terminator. */
  predicate AgreesTo(up: nat -> nat, buf: seq<nat>, e: seq<Byte>, t: nat, u: nat, i: nat, done: bool)
    requires |buf| == MAX_LFN + 1 && |e| == 32 && t <= u < 13
  {
    if done || Ended(e, t, u) then Char(e, u) == 0xFFFF else i + u - t < MAX_LFN && up(Char(e, u)) == up(buf[i + u - t])
  }

  /**
  cmp_lfn on any entry: the characters up to the terminator agree, case folded, with the name from the place
  of the segment on, everything behind it is filler, and if the last segment has no terminator the name
  ends there too.
  */
  lemma CompareInPlain(up: nat -> nat, buf: seq<nat>, e: seq<Byte>)
    requires |buf| == MAX_LFN + 1 && |e| == 32 && FoldsCase(up)
    ensures var n, last := e[0] as int - 64 * (e[0] as int / 64 % 2), e[0] as int / 64 % 2 == 1;
      var base: nat := if n == 0 then 0xFFFF_FFF3 else 13 * (n - 1);
      Compare(up, buf, e) <==>
        && (forall u: nat :: u < 13 ==> AgreesTo(up, buf, e, 0, u, base, false))
        && (last && !Ended(e, 0, 13) && base + 13 <= 255 ==> buf[base + 13] == 0)
  {
    hide And, Char, Ended, CompareChars, AgreesTo;
    OrderBits(e[0]);
    var n: nat := e[0] as int - 64 * (e[0] as int / 64 % 2);
    var base := if n == 0 then 0xFFFF_FFF3 else 13 * (n - 1);
    assert BufferStart(n) == base;
    CompareCharsPlain(up, buf, e, base, 0, false);
  }
}
