/**
The configuration log of src/config_flash_storage.c: blocks of a header (checksum of
the length, length, checksum of the data) and a payload, one behind the other in a
flash sector. This module says what a sector means and what it means after a power
cut at any byte of an append.
*/
module FlashLog {
  import opened Bits

  const HEADER := 12

  /** The config sector and the readable memory behind it. */
  datatype Memory = Memory(cells: seq<Byte>, beyond: nat -> Byte)

  function At(m: Memory, i: nat): Byte {
    if i < |m.cells| then m.cells[i] else m.beyond(i)
  }

  /** n bytes from address p on. */
  function Range(m: Memory, p: nat, n: nat): (r: seq<Byte>)
    ensures |r| == n
  {
    seq<Byte>(n, k requires 0 <= k < n => At(m, p + k))
  }

  lemma RangeAt(m: Memory, p: nat, n: nat, k: nat)
    requires k < n
    ensures Range(m, p, n)[k] == At(m, p + k)
  {
  }

  function WordAt(m: Memory, p: nat): (w: nat)
    ensures w < WORD32
  {
    Little4(At(m, p), At(m, p + 1), At(m, p + 2), At(m, p + 3));
    Little([At(m, p), At(m, p + 1), At(m, p + 2), At(m, p + 3)])
  }

  lemma WordAtIs(m: Memory, p: nat)
    ensures WordAt(m, p) == Dword(At(m, p), At(m, p + 1), At(m, p + 2), At(m, p + 3))
  {
    Little4(At(m, p), At(m, p + 1), At(m, p + 2), At(m, p + 3));
  }

  /** Little-endian bytes of a 32-bit word. */
  function Le(w: nat): (s: seq<Byte>)
    ensures |s| == 4
  {
    [ByteOf(w, 0), ByteOf(w, 1), ByteOf(w, 2), ByteOf(w, 3)]
  }

  type Checksum = seq<Byte> -> nat

  const ERASED: seq<Byte> := [0xFF, 0xFF, 0xFF, 0xFF]

  /**
  What is assumed of the checksum: 32 bits wide, different on different words, and
  on an erased word not a value whose top byte is erased.
  */
  ghost predicate Suitable(crc: Checksum) {
    && (forall s: seq<Byte> :: crc(s) < WORD32)
    && (forall a: seq<Byte>, b: seq<Byte> :: |a| == 4 && |b| == 4 && crc(a) == crc(b) ==> a == b)
    && crc(ERASED) < 0xFF00_0000
  }

  /** config_block_is_valid */
  predicate BlockValid(crc: Checksum, m: Memory, p: nat) {
    && WordAt(m, p) == crc(Range(m, p + 4, 4))
    && WordAt(m, p + 8) == crc(Range(m, p + HEADER, WordAt(m, p + 4)))
  }

  /** config_block_get_length */
  function BlockLength(m: Memory, p: nat): nat {
    WordAt(m, p + 4)
  }

  /** From address p on the memory holds exactly the blocks with these payloads. */
  ghost predicate Log(crc: Checksum, m: Memory, p: nat, ps: seq<seq<Byte>>)
    decreases |ps|
  {
    if ps == [] then !BlockValid(crc, m, p)
    else
      && BlockValid(crc, m, p) && BlockLength(m, p) == |ps[0]| && Range(m, p + HEADER, |ps[0]|) == ps[0]
      && Log(crc, m, p + HEADER + |ps[0]|, ps[1..])
  }

  /** A memory is read in one way only. */
  lemma {:induction false} LogUnique(crc: Checksum, m: Memory, p: nat, ps: seq<seq<Byte>>, qs: seq<seq<Byte>>)
    requires Log(crc, m, p, ps) && Log(crc, m, p, qs)
    ensures ps == qs
    decreases |ps|
  {
    if ps != [] {
      LogUnique(crc, m, p + HEADER + |ps[0]|, ps[1..], qs[1..]);
      assert ps == [ps[0]] + ps[1..] && qs == [qs[0]] + qs[1..];
    }
  }

  function Extent(ps: seq<seq<Byte>>): nat {
    if ps == [] then 0 else HEADER + |ps[0]| + Extent(ps[1..])
  }

  /** Only the bytes of the blocks and what the address behind them shows matter. */
  lemma {:induction false} LogFrame(crc: Checksum, m: Memory, w: Memory, p: nat, ps: seq<seq<Byte>>, qs: seq<seq<Byte>>)
    requires Log(crc, m, p, ps)
    requires forall i: nat :: p <= i < p + Extent(ps) ==> At(w, i) == At(m, i)
    requires Log(crc, w, p + Extent(ps), qs)
    ensures Log(crc, w, p, ps + qs)
    decreases |ps|
  {
    hide BlockValid, BlockLength, Range, At, Log, Extent;
    LogHead(crc, m, p, ps);
    if ps == [] {
      assert ps + qs == qs;
    } else {
      var n := |ps[0]|;
      BlockFrame(crc, m, w, p);
      SameRange(m, w, p + HEADER, n);
      LogFrame(crc, m, w, p + HEADER + n, ps[1..], qs);
      LogCons(crc, w, p, ps[0], ps[1..] + qs);
      assert ps + qs == [ps[0]] + (ps[1..] + qs);
    }
  }

  lemma LogHead(crc: Checksum, m: Memory, p: nat, ps: seq<seq<Byte>>)
    requires Log(crc, m, p, ps)
    ensures Extent(ps) == if ps == [] then 0 else HEADER + |ps[0]| + Extent(ps[1..])
    ensures BlockValid(crc, m, p) <==> ps != []
    ensures ps != [] ==>
      && BlockValid(crc, m, p) && BlockLength(m, p) == |ps[0]| && Range(m, p + HEADER, |ps[0]|) == ps[0]
      && Log(crc, m, p + HEADER + |ps[0]|, ps[1..])
  {
  }

  lemma SameRange(m: Memory, w: Memory, p: nat, n: nat)
    requires forall i: nat :: p <= i < p + n ==> At(w, i) == At(m, i)
    ensures Range(w, p, n) == Range(m, p, n)
  {
  }

  lemma LogCons(crc: Checksum, m: Memory, p: nat, d: seq<Byte>, qs: seq<seq<Byte>>)
    requires BlockValid(crc, m, p) && BlockLength(m, p) == |d| && Range(m, p + HEADER, |d|) == d
    requires Log(crc, m, p + HEADER + |d|, qs)
    ensures Log(crc, m, p, [d] + qs)
  {
    hide BlockValid;
    var ps := [d] + qs;
    assert ps[0] == d && ps[1..] == qs;
  }

  /** A block is valid or not by its own bytes. */
  lemma BlockFrame(crc: Checksum, m: Memory, w: Memory, p: nat)
    requires forall i: nat :: p <= i < p + HEADER + BlockLength(m, p) ==> At(w, i) == At(m, i)
    ensures BlockLength(w, p) == BlockLength(m, p) && BlockValid(crc, w, p) == BlockValid(crc, m, p)
  {
    assert WordAt(w, p) == WordAt(m, p) && WordAt(w, p + 4) == WordAt(m, p + 4) && WordAt(w, p + 8) == WordAt(m, p + 8);
    assert Range(w, p + 4, 4) == Range(m, p + 4, 4);
    assert Range(w, p + HEADER, BlockLength(m, p)) == Range(m, p + HEADER, BlockLength(m, p));
  }

  // ----------------------------------------------------------- sector states

  /** The memory behind the sector never completes an erased header to a valid block. */
  ghost predicate QuietBehind(crc: Checksum, size: nat, beyond: nat -> Byte) {
    forall p: nat :: p <= size && size < p + 8 ==> !BlockValid(crc, Memory(Erased(size), beyond), p)
  }

  function Erased(n: nat): (s: seq<Byte>)
    ensures |s| == n && forall i :: 0 <= i < n ==> s[i] == 0xFF
  {
    seq(n, _ => 0xFF)
  }

  ghost predicate ErasedFrom(cells: seq<Byte>, p: nat) {
    forall i :: p <= i < |cells| ==> cells[i] == 0xFF
  }

  /** Valid blocks followed by erased bytes only. */
  ghost predicate Sector(crc: Checksum, m: Memory, ps: seq<seq<Byte>>) {
    && Suitable(crc) && |m.cells| < 0x100_0000 && QuietBehind(crc, |m.cells|, m.beyond)
    && Log(crc, m, 0, ps) && Extent(ps) <= |m.cells| && ErasedFrom(m.cells, Extent(ps))
  }

  lemma ErasedWord(m: Memory, p: nat)
    requires At(m, p) == At(m, p + 1) == At(m, p + 2) == At(m, p + 3) == 0xFF
    ensures WordAt(m, p) == 0xFFFF_FFFF && Range(m, p, 4) == ERASED
  {
    WordAtIs(m, p);
  }

  /** Erased bytes up to the end of the sector are no block. */
  lemma ErasedIsNoBlock(crc: Checksum, m: Memory, p: nat)
    requires Suitable(crc) && QuietBehind(crc, |m.cells|, m.beyond) && p <= |m.cells| && ErasedFrom(m.cells, p)
    ensures !BlockValid(crc, m, p)
  {
    if p + 8 <= |m.cells| {
      ErasedWord(m, p);
      ErasedWord(m, p + 4);
    } else {
      var e := Memory(Erased(|m.cells|), m.beyond);
      assert !BlockValid(crc, e, p);
      forall i: nat | p <= i
        ensures At(e, i) == At(m, i)
      {
      }
      BlockFrame(crc, e, m, p);
    }
  }

  /** A block whose header is still erased is no block, whatever its payload bytes. */
  lemma HeaderErasedIsNoBlock(crc: Checksum, m: Memory, p: nat)
    requires Suitable(crc)
    requires forall i: nat :: p <= i < p + 8 ==> At(m, i) == 0xFF
    ensures !BlockValid(crc, m, p)
  {
    ErasedWord(m, p);
    ErasedWord(m, p + 4);
  }

  // -------------------------------------------------------------- the append

  /** The header config_write_block_header stores for a payload. */
  function HeaderOf(crc: Checksum, d: seq<Byte>): (h: seq<Byte>)
    ensures |h| == HEADER
  {
    Le(crc(Le(|d|))) + Le(|d|) + Le(crc(d))
  }

  /** The sector with j payload bytes, and then with k header bytes, programmed at p. */
  function PayloadWritten(cells: seq<Byte>, p: nat, d: seq<Byte>, j: nat): (r: seq<Byte>)
    requires p + HEADER + |d| <= |cells| && j <= |d|
    ensures |r| == |cells|
  {
    Spliced(cells, p + HEADER, d[..j])
  }

  function HeaderWritten(crc: Checksum, cells: seq<Byte>, p: nat, d: seq<Byte>, k: nat): (r: seq<Byte>)
    requires p + HEADER + |d| <= |cells| && k <= HEADER
    ensures |r| == |cells|
  {
    Spliced(PayloadWritten(cells, p, d, |d|), p, HeaderOf(crc, d)[..k])
  }

  /** While the payload is being written the log reads as before. */
  lemma PayloadPrefixIsOld(crc: Checksum, m: Memory, ps: seq<seq<Byte>>, d: seq<Byte>, j: nat)
    requires Sector(crc, m, ps) && Extent(ps) + HEADER + |d| <= |m.cells| && j <= |d|
    ensures Log(crc, m.(cells := PayloadWritten(m.cells, Extent(ps), d, j)), 0, ps)
  {
    hide BlockValid, Range, Extent;
    var p := Extent(ps);
    var w := m.(cells := PayloadWritten(m.cells, p, d, j));
    HeaderErasedIsNoBlock(crc, w, p);
    assert Log(crc, w, p, []);
    LogFrame(crc, m, w, 0, ps, []);
    assert ps + [] == ps;
  }

  lemma LeWord(w: nat)
    requires w < WORD32
    ensures Dword(ByteOf(w, 0), ByteOf(w, 1), ByteOf(w, 2), ByteOf(w, 3)) == w
  {
    StoreLoad(w);
  }

  /** A word part of whose bytes is still erased keeps an erased top byte. */
  lemma PartialWord(m: Memory, p: nat)
    requires At(m, p + 3) == 0xFF
    ensures WordAt(m, p) >= 0xFF00_0000 && Range(m, p, 4)[3] == 0xFF
  {
    WordAtIs(m, p);
  }

  /** While the length checksum or the length are incomplete there is no new block. */
  lemma EarlyHeaderIsNoBlock(crc: Checksum, m: Memory, p: nat, d: seq<Byte>, k: nat)
    requires Suitable(crc) && k < 8 && |d| < 0x100_0000
    requires forall i: nat :: p <= i < p + k ==> At(m, i) == HeaderOf(crc, d)[i - p]
    requires forall i: nat :: p + k <= i < p + 8 ==> At(m, i) == 0xFF
    ensures !BlockValid(crc, m, p)
  {
    hide HeaderOf, Le;
    if k < 4 {
      ErasedWord(m, p + 4);
      PartialWord(m, p);
    } else {
      HeaderWords(crc, d);
      WordOfBytes(m, p, crc(Le(|d|)));
      PartialWord(m, p + 4);
      SmallTopByte(|d|);
    }
  }

  lemma SmallTopByte(n: nat)
    requires n < 0x100_0000
    ensures Le(n)[3] == 0
  {
  }

  lemma HeaderWords(crc: Checksum, d: seq<Byte>)
    ensures forall i :: 0 <= i < 4 ==> HeaderOf(crc, d)[i] == Le(crc(Le(|d|)))[i]
    ensures forall i :: 4 <= i < 8 ==> HeaderOf(crc, d)[i] == Le(|d|)[i - 4]
    ensures forall i :: 8 <= i < 12 ==> HeaderOf(crc, d)[i] == Le(crc(d))[i - 8]
  {
    hide Le;
  }

  lemma WordOfBytes(m: Memory, p: nat, w: nat)
    requires w < WORD32 && forall i: nat :: p <= i < p + 4 ==> At(m, i) == Le(w)[i - p]
    ensures WordAt(m, p) == w && Range(m, p, 4) == Le(w)
  {
    hide Dword;
    WordAtIs(m, p);
    LeWord(w);
    assert At(m, p) == Le(w)[0] && At(m, p + 1) == Le(w)[1] && At(m, p + 2) == Le(w)[2] && At(m, p + 3) == Le(w)[3];
  }

  /** Once the length is complete the block can only be valid with the new payload. */
  lemma LateHeader(crc: Checksum, m: Memory, p: nat, d: seq<Byte>)
    requires Suitable(crc) && |d| < 0x100_0000
    requires forall i: nat :: p <= i < p + 8 ==> At(m, i) == HeaderOf(crc, d)[i - p]
    requires Range(m, p + HEADER, |d|) == d
    ensures BlockLength(m, p) == |d| && (BlockValid(crc, m, p) <==> WordAt(m, p + 8) == crc(d))
  {
    hide HeaderOf, Le, Dword;
    HeaderWords(crc, d);
    WordOfBytes(m, p, crc(Le(|d|)));
    WordOfBytes(m, p + 4, |d|);
  }

  /** The sector while the header is being written. */
  lemma HeaderState(crc: Checksum, m: Memory, p: nat, d: seq<Byte>, k: nat)
    requires p + HEADER + |d| <= |m.cells| && k <= HEADER && ErasedFrom(m.cells, p)
    ensures var w := m.(cells := HeaderWritten(crc, m.cells, p, d, k));
      && (forall i: nat :: p <= i < p + k ==> At(w, i) == HeaderOf(crc, d)[i - p])
      && (forall i: nat :: p + k <= i < p + HEADER ==> At(w, i) == 0xFF)
      && (forall i: nat :: i < p ==> At(w, i) == At(m, i))
      && (forall i: nat :: p + HEADER + |d| <= i ==> At(w, i) == At(m, i))
      && Range(w, p + HEADER, |d|) == d
  {
    hide HeaderOf;
    var w := m.(cells := HeaderWritten(crc, m.cells, p, d, k));
    var r := Range(w, p + HEADER, |d|);
    forall i: nat | i < |d|
      ensures r[i] == d[i]
    {
      RangeAt(w, p + HEADER, |d|, i);
      assert d[..|d|][i] == d[i];
    }
  }

  /**
  Power cut during the header: the log reads as before or with the new payload added,
  and the latter once the header is complete.
  */
  lemma HeaderPrefixIsOldOrNew(crc: Checksum, m: Memory, ps: seq<seq<Byte>>, d: seq<Byte>, k: nat)
    requires Sector(crc, m, ps) && Extent(ps) + HEADER + |d| <= |m.cells| && k <= HEADER
    ensures var w := m.(cells := HeaderWritten(crc, m.cells, Extent(ps), d, k));
      (k < HEADER && Log(crc, w, 0, ps)) || Log(crc, w, 0, ps + [d])
  {
    hide BlockValid, BlockLength, Range, Extent, HeaderOf, HeaderWritten, WordAt, Log;
    var p := Extent(ps);
    var w := m.(cells := HeaderWritten(crc, m.cells, p, d, k));
    HeaderState(crc, m, p, d, k);
    if k < 8 {
      EarlyHeaderIsNoBlock(crc, w, p, d, k);
    } else {
      LateHeader(crc, w, p, d);
    }
    if BlockValid(crc, w, p) {
      NewBlock(crc, m, w, ps, d);
    } else {
      if k == HEADER {
        CompleteHeader(crc, w, p, d);
      }
      LogEmpty(crc, w, p);
      LogFrame(crc, m, w, 0, ps, []);
      assert ps + [] == ps;
    }
  }

  lemma LogEmpty(crc: Checksum, m: Memory, p: nat)
    requires !BlockValid(crc, m, p)
    ensures Log(crc, m, p, [])
  {
  }

  lemma CompleteHeader(crc: Checksum, m: Memory, p: nat, d: seq<Byte>)
    requires Suitable(crc) && forall i: nat :: p <= i < p + HEADER ==> At(m, i) == HeaderOf(crc, d)[i - p]
    ensures WordAt(m, p + 8) == crc(d)
  {
    hide HeaderOf, Le;
    HeaderWords(crc, d);
    WordOfBytes(m, p + 8, crc(d));
  }

  /** A valid block behind the old ones, with erased bytes behind it. */
  lemma NewBlock(crc: Checksum, m: Memory, w: Memory, ps: seq<seq<Byte>>, d: seq<Byte>)
    requires Sector(crc, m, ps) && Extent(ps) + HEADER + |d| <= |m.cells| && |w.cells| == |m.cells| && w.beyond == m.beyond
    requires BlockValid(crc, w, Extent(ps)) && BlockLength(w, Extent(ps)) == |d|
    requires Range(w, Extent(ps) + HEADER, |d|) == d
    requires forall i: nat :: i < Extent(ps) ==> At(w, i) == At(m, i)
    requires forall i: nat :: Extent(ps) + HEADER + |d| <= i ==> At(w, i) == At(m, i)
    ensures Log(crc, w, 0, ps + [d]) && Extent(ps + [d]) == Extent(ps) + HEADER + |d|
    ensures ErasedFrom(w.cells, Extent(ps) + HEADER + |d|)
  {
    hide BlockValid, BlockLength, Range, Log, Extent;
    var p := Extent(ps);
    var q := p + HEADER + |d|;
    assert ErasedFrom(w.cells, q) by {
      forall i | q <= i < |w.cells|
        ensures w.cells[i] == 0xFF
      {
        assert At(w, i) == At(m, i);
      }
    }
    ErasedIsNoBlock(crc, w, q);
    LogEmpty(crc, w, q);
    LogCons(crc, w, p, d, []);
    assert [d] + [] == [d];
    LogFrame(crc, m, w, 0, ps, [d]);
    ExtentAppend(ps, d);
  }

  lemma {:induction false} ExtentAppend(ps: seq<seq<Byte>>, d: seq<Byte>)
    ensures Extent(ps + [d]) == Extent(ps) + HEADER + |d|
    decreases |ps|
  {
    if ps == [] {
      assert ps + [d] == [d];
    } else {
      assert (ps + [d])[1..] == ps[1..] + [d];
      ExtentAppend(ps[1..], d);
    }
  }

  /** The finished append. */
  lemma AppendDone(crc: Checksum, m: Memory, ps: seq<seq<Byte>>, d: seq<Byte>)
    requires Sector(crc, m, ps) && Extent(ps) + HEADER + |d| <= |m.cells|
    ensures Sector(crc, m.(cells := HeaderWritten(crc, m.cells, Extent(ps), d, HEADER)), ps + [d])
    ensures Extent(ps + [d]) == Extent(ps) + HEADER + |d|
  {
    hide BlockValid, BlockLength, Range, Extent, HeaderOf, HeaderWritten, WordAt, Log, QuietBehind;
    var p := Extent(ps);
    var w := m.(cells := HeaderWritten(crc, m.cells, p, d, HEADER));
    HeaderState(crc, m, p, d, HEADER);
    LateHeader(crc, w, p, d);
    CompleteHeader(crc, w, p, d);
    NewBlock(crc, m, w, ps, d);
  }

  /** A freshly erased sector holds no block. */
  lemma ErasedSector(crc: Checksum, size: nat, beyond: nat -> Byte)
    requires Suitable(crc) && size < 0x100_0000 && QuietBehind(crc, size, beyond)
    ensures Sector(crc, Memory(Erased(size), beyond), [])
  {
    ErasedIsNoBlock(crc, Memory(Erased(size), beyond), 0);
  }

  // ------------------------------------------------------------- whole runs

  /** Room for a header with at least one byte behind it, and for the payload d. */
  predicate Fits(size: nat, ps: seq<seq<Byte>>, d: seq<Byte>) {
    Extent(ps) + HEADER < size && Extent(ps) + HEADER + |d| <= size
  }

  /** Payloads in the sector after a save of d: appended if it fits, else alone in an erased sector. */
  function Saved(size: nat, ps: seq<seq<Byte>>, d: seq<Byte>): (qs: seq<seq<Byte>>)
    ensures qs != [] && qs[|qs| - 1] == d
  {
    if ps != [] && Fits(size, ps, d) then ps + [d] else [d]
  }

  // ---------------------------------------------------------- in byte terms

  /** A block is valid if the first word is the checksum of the second and the third that of the data. */
  lemma BlockInBytes(crc: Checksum, m: Memory, p: nat, q: nat, n: nat)
    requires q == p + 12
    requires n == At(m, p + 4) as int + 256 * At(m, p + 5) as int + 65536 * At(m, p + 6) as int + 16777216 * At(m, p + 7) as int
    ensures BlockLength(m, p) == n
    ensures forall k :: 0 <= k < n ==> Range(m, q, n)[k] == At(m, q + k)
    ensures BlockValid(crc, m, p) <==>
      && At(m, p) as int + 256 * At(m, p + 1) as int + 65536 * At(m, p + 2) as int + 16777216 * At(m, p + 3) as int
         == crc([At(m, p + 4), At(m, p + 5), At(m, p + 6), At(m, p + 7)])
      && At(m, p + 8) as int + 256 * At(m, p + 9) as int + 65536 * At(m, p + 10) as int + 16777216 * At(m, p + 11) as int
         == crc(Range(m, q, n))
  {
    hide WordAt;
    WordAtIs(m, p);
    WordAtIs(m, p + 4);
    WordAtIs(m, p + 8);
    assert Range(m, p + 4, 4) == [At(m, p + 4), At(m, p + 5), At(m, p + 6), At(m, p + 7)];
    forall k: nat | k < n
      ensures Range(m, q, n)[k] == At(m, q + k)
    {
      RangeAt(m, q, n, k);
    }
  }

  /** The header of a payload: checksum of the length, length, checksum of the payload. */
  lemma HeaderInBytes(crc: Checksum, d: seq<Byte>)
    requires Suitable(crc) && |d| < WORD32
    ensures var h := HeaderOf(crc, d);
      LdDword(h, 0) == crc(h[4..8]) && LdDword(h, 4) == |d| && LdDword(h, 8) == crc(d)
  {
    hide LdDword, ByteOf, Dword;
    var h := HeaderOf(crc, d);
    assert h[4..8] == Le(|d|);
    LoadLe(h, 0, crc(Le(|d|)));
    LoadLe(h, 4, |d|);
    LoadLe(h, 8, crc(d));
  }

  lemma LoadLe(h: seq<Byte>, o: nat, w: nat)
    requires o + 4 <= |h| && h[o..o + 4] == Le(w) && w < WORD32
    ensures LdDword(h, o) == w
  {
    hide LdDword, ByteOf, Dword;
    StoreLoad(w);
    assert h[o] == Le(w)[0] && h[o + 1] == Le(w)[1] && h[o + 2] == Le(w)[2] && h[o + 3] == Le(w)[3];
  }

  /** The blocks stand one behind the other, 12 bytes and the payload each, and there is none behind the last. */
  lemma {:induction false} LogInPlain(crc: Checksum, m: Memory, p: nat, ps: seq<seq<Byte>>, i: nat)
    requires Log(crc, m, p, ps) && i <= |ps|
    ensures Extent([]) == 0 && (i < |ps| ==> Extent(ps[..i + 1]) == Extent(ps[..i]) + 12 + |ps[i]|)
    ensures i < |ps| ==>
      && BlockValid(crc, m, p + Extent(ps[..i])) && BlockLength(m, p + Extent(ps[..i])) == |ps[i]|
      && Range(m, p + Extent(ps[..i]) + 12, |ps[i]|) == ps[i]
    ensures i == |ps| ==> !BlockValid(crc, m, p + Extent(ps[..i]))
    decreases |ps|
  {
    hide BlockValid, BlockLength, Range, Extent, Log;
    LogHead(crc, m, p, ps);
    LogEnd();
    if i < |ps| {
      ExtentAppend(ps[..i], ps[i]);
      assert ps[..i + 1] == ps[..i] + [ps[i]];
    }
    if i == 0 {
      assert ps[..0] == [];
    } else {
      LogInPlain(crc, m, p + HEADER + |ps[0]|, ps[1..], i - 1);
      assert ps[1..][..i - 1] == ps[..i][1..];
      ExtentFirst(ps[..i]);
    }
  }

  lemma LogEnd()
    ensures Extent([]) == 0
  {
  }

  lemma ExtentFirst(ps: seq<seq<Byte>>)
    requires ps != []
    ensures Extent(ps) == HEADER + |ps[0]| + Extent(ps[1..])
  {
  }
}
