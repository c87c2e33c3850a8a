/**
Saving and loading the configuration, src/config_flash_storage.c over
src/flash/flash.c: byte-wise programming of an erase-once sector.
*/
module ConfigStorage {
  import opened Wrappers
  import opened Bits
  import opened FlashLog

  /** What the reader is handed: the payload of the last block. */
  function Latest(ps: seq<seq<Byte>>): Option<seq<Byte>> {
    if ps == [] then None else Some(ps[|ps| - 1])
  }

  /** The config sector of the flash; programming can only clear bits. */
  class Flash {
    const crc: Checksum
    const beyond: nat -> Byte
    const sector: array<Byte>
    var locked: bool
    ghost var programmed: seq<bool>    // which bytes have been programmed since the last erase
    ghost var history: seq<seq<Byte>>  // the sector after each program and erase operation

    ghost predicate Valid()
      reads this, sector
    {
      && Suitable(crc) && HEADER <= sector.Length < 0x100_0000 && QuietBehind(crc, sector.Length, beyond)
      && |programmed| == sector.Length
      && forall i :: 0 <= i < sector.Length && !programmed[i] ==> sector[i] == 0xFF
    }

    ghost function Memory(): FlashLog.Memory
      reads this, sector
    {
      FlashLog.Memory(sector[..], beyond)
    }

    /** The flash as it is found after a restart; used tells which bytes were programmed since the last erase. */
    constructor (checksum: Checksum, behind: nat -> Byte, cells: array<Byte>, ghost used: seq<bool>)
      requires Suitable(checksum) && HEADER <= cells.Length < 0x100_0000 && QuietBehind(checksum, cells.Length, behind)
      requires |used| == cells.Length && forall i :: 0 <= i < |used| && !used[i] ==> cells[i] == 0xFF
      ensures Valid() && sector == cells && crc == checksum && beyond == behind && history == [] && locked
      ensures programmed == used
    {
      crc, beyond, sector, locked := checksum, behind, cells, true;
      programmed := used;
      history := [];
    }

    /** A read of any address. */
    function Read(i: nat): (b: Byte)
      reads this, sector
      ensures b == At(FlashLog.Memory(sector[..], beyond), i)
    {
      if i < sector.Length then sector[i] else beyond(i)
    }

    /** flash_lock and flash_unlock */
    method Lock()
      modifies `locked
      ensures locked
    {
      locked := true;
    }

    method Unlock()
      modifies `locked
      ensures !locked
    {
      locked := false;
    }

    /** flash_write_byte: bits can only go from 1 to 0, and a byte is programmed once. */
    method WriteByte(addr: nat, byte: Byte)
      requires Valid() && !locked && addr < sector.Length && !programmed[addr]
      modifies `programmed, `history, sector
      ensures Valid() && sector[..] == old(sector[..])[addr := byte]
      ensures programmed == old(programmed)[addr := true] && history == old(history) + [sector[..]]
    {
      hide And;
      ErasedAnd(byte);
      sector[addr] := And(sector[addr], byte);
      programmed := programmed[addr := true];
      history := history + [sector[..]];
    }

    /** flash_write */
    method Write(addr: nat, data: seq<Byte>)
      requires Valid() && !locked && addr + |data| <= sector.Length
      requires forall i :: addr <= i < addr + |data| ==> !programmed[i]
      modifies `programmed, `history, sector
      ensures Valid() && sector[..] == Spliced(old(sector[..]), addr, data)
      ensures forall i :: 0 <= i < sector.Length ==> programmed[i] == (old(programmed)[i] || addr <= i < addr + |data|)
      ensures history == old(history) + Prefixes(old(sector[..]), addr, data)
    {
      var len := 0;
      ghost var was := sector[..];
      assert Spliced(was, addr, data[..0]) == was;
      while len < |data|
        invariant Valid() && len <= |data| && sector[..] == Spliced(was, addr, data[..len])
        invariant forall i :: 0 <= i < sector.Length ==> programmed[i] == (old(programmed)[i] || addr <= i < addr + len)
        invariant history == old(history) + Prefixes(was, addr, data[..len])
      {
        WriteByte(addr + len, data[len]);
        PrefixesGrow(was, addr, data, len);
        len := len + 1;
      }
      assert data[..len] == data;
    }

    /** flash_sector_erase on the config sector. */
    method Erase()
      requires Valid() && !locked
      modifies `programmed, `history, sector
      ensures Valid() && sector[..] == Erased(sector.Length) && programmed == seq(sector.Length, _ => false)
      ensures history == old(history) + [Erased(sector.Length)]
    {
      forall i | 0 <= i < sector.Length {
        sector[i] := 0xFF;
      }
      programmed := seq(sector.Length, _ => false);
      assert sector[..] == Erased(sector.Length);
      history := history + [sector[..]];
    }
  }

  /** Programming an erased byte stores the byte. */
  lemma ErasedAnd(b: Byte)
    ensures And(0xFF, b) == b
  {
    BytePowers();
    AndMask(b, 256);
    AndCommutes(0xFF, b);
  }

  lemma {:induction false} AndCommutes(a: nat, b: nat)
    ensures And(a, b) == And(b, a)
    decreases a + b
  {
    if a > 0 && b > 0 {
      AndCommutes(a / 2, b / 2);
    }
  }

  /** The sector after each byte of a write. */
  function Prefixes(cells: seq<Byte>, addr: nat, data: seq<Byte>): (h: seq<seq<Byte>>)
    requires addr + |data| <= |cells|
    ensures |h| == |data|
    ensures forall k :: 0 <= k < |data| ==> h[k] == Spliced(cells, addr, data[..k + 1])
  {
    seq(|data|, k requires 0 <= k < |data| => Spliced(cells, addr, data[..k + 1]))
  }

  lemma PrefixesGrow(cells: seq<Byte>, addr: nat, data: seq<Byte>, n: nat)
    requires addr + |data| <= |cells| && n < |data|
    ensures Spliced(cells, addr, data[..n])[addr + n := data[n]] == Spliced(cells, addr, data[..n + 1])
    ensures Prefixes(cells, addr, data[..n + 1]) == Prefixes(cells, addr, data[..n]) + [Spliced(cells, addr, data[..n + 1])]
  {
    assert data[..n + 1] == data[..n] + [data[n]];
    var a, b := Prefixes(cells, addr, data[..n]), Prefixes(cells, addr, data[..n + 1]);
    forall k | 0 <= k < n
      ensures a[k] == b[k]
    {
      assert data[..n][..k + 1] == data[..n + 1][..k + 1];
    }
    assert data[..n + 1][..n + 1] == data[..n + 1];
  }

  // ------------------------------------------------------------ the log code

  /** Four bytes read as a word, and n bytes read for a checksum. */
  function ReadWord(f: Flash, p: nat): (w: nat)
    reads f, f.sector
    ensures w == WordAt(f.Memory(), p)
  {
    WordAtIs(f.Memory(), p);
    Dword(f.Read(p), f.Read(p + 1), f.Read(p + 2), f.Read(p + 3))
  }

  method ReadBytes(f: Flash, p: nat, n: nat) returns (d: seq<Byte>)
    ensures d == Range(f.Memory(), p, n)
  {
    d := [];
    while |d| < n
      invariant |d| <= n && forall k :: 0 <= k < |d| ==> d[k] == At(f.Memory(), p + k)
    {
      d := d + [f.Read(p + |d|)];
    }
  }

  /** config_block_is_valid */
  method BlockIsValid(f: Flash, p: nat) returns (ok: bool)
    ensures ok == BlockValid(f.crc, f.Memory(), p)
  {
    hide Dword;
    var lengthBytes := ReadBytes(f, p + 4, 4);
    if ReadWord(f, p) != f.crc(lengthBytes) {
      return false;
    }
    var data := ReadBytes(f, p + HEADER, ReadWord(f, p + 4));
    if ReadWord(f, p + 8) != f.crc(data) {
      return false;
    }
    return true;
  }

  /** config_block_find_last_used: the block behind which the log ends. */
  method FindLastUsed(f: Flash, ghost ps: seq<seq<Byte>>) returns (last: Option<nat>)
    requires Log(f.crc, f.Memory(), 0, ps)
    ensures last == if ps == [] then None else Some(Extent(ps[..|ps| - 1]))
  {
    hide BlockValid, Extent, Range, WordAt;
    var block: nat := 0;
    last := None;
    ghost var k := 0;
    assert ps[0..] == ps;
    ExtentOfPrefix(ps, 0);
    var ok := BlockIsValid(f, block);
    while ok
      invariant k <= |ps| && Log(f.crc, f.Memory(), block, ps[k..]) && block == Extent(ps[..k])
      invariant ok == (k < |ps|)
      invariant last == if k == 0 then None else Some(Extent(ps[..k - 1]))
      decreases |ps| - k
    {
      LogHead(f.crc, f.Memory(), block, ps[k..]);
      ExtentOfPrefix(ps, k);
      last := Some(block);
      block := block + ReadWord(f, block + 4);
      block := block + HEADER;
      assert ps[k..][1..] == ps[k + 1..];
      k := k + 1;
      ok := BlockIsValid(f, block);
    }
    assert ps[..|ps|] == ps;
  }

  lemma ExtentOfPrefix(ps: seq<seq<Byte>>, k: nat)
    requires k <= |ps|
    ensures k == 0 ==> Extent(ps[..k]) == 0
    ensures k < |ps| ==> Extent(ps[..k + 1]) == Extent(ps[..k]) + HEADER + |ps[k]|
  {
    if k < |ps| {
      assert ps[..k + 1] == ps[..k] + [ps[k]];
      ExtentAppend(ps[..k], ps[k]);
    }
  }

  /** config_block_find_first_free: the address behind the last block. */
  method FindFirstFree(f: Flash, ghost ps: seq<seq<Byte>>) returns (block: nat)
    requires Log(f.crc, f.Memory(), 0, ps)
    ensures block == Extent(ps)
  {
    hide BlockValid, Extent, Range, WordAt, Log, Dword;
    block := 0;
    ghost var k := 0;
    assert ps[0..] == ps;
    ExtentOfPrefix(ps, 0);
    LogHead(f.crc, f.Memory(), 0, ps);
    var ok := BlockIsValid(f, block);
    while ok
      invariant k <= |ps| && Log(f.crc, f.Memory(), block, ps[k..]) && block == Extent(ps[..k])
      invariant ok == (k < |ps|)
      decreases |ps| - k
    {
      LogHead(f.crc, f.Memory(), block, ps[k..]);
      ExtentOfPrefix(ps, k);
      block := block + ReadWord(f, block + 4);
      block := block + HEADER;
      assert ps[k..][1..] == ps[k + 1..];
      k := k + 1;
      LogHead(f.crc, f.Memory(), block, ps[k..]);
      ok := BlockIsValid(f, block);
    }
    assert ps[..|ps|] == ps;
  }

  /** config_load up to the call of the reader: what it is handed, if anything. */
  method Load(f: Flash, ghost ps: seq<seq<Byte>>) returns (r: Option<seq<Byte>>)
    requires Log(f.crc, f.Memory(), 0, ps)
    ensures r == Latest(ps)
  {
    hide BlockValid, Extent, WordAt;
    var src := FindLastUsed(f, ps);
    if src == None {
      return None;
    }
    LastBlock(f.crc, f.Memory(), 0, ps);
    var d := ReadBytes(f, src.value + HEADER, ReadWord(f, src.value + 4));
    r := Some(d);
  }

  lemma {:induction false} LastBlock(crc: Checksum, m: FlashLog.Memory, p: nat, ps: seq<seq<Byte>>)
    requires Log(crc, m, p, ps) && ps != []
    ensures var b := p + Extent(ps[..|ps| - 1]);
      WordAt(m, b + 4) == |ps[|ps| - 1]| && Range(m, b + HEADER, |ps[|ps| - 1]|) == ps[|ps| - 1]
    decreases |ps|
  {
    if |ps| > 1 {
      LastBlock(crc, m, p + HEADER + |ps[0]|, ps[1..]);
      assert ps[1..][..|ps| - 2] == ps[..|ps| - 1][1..];
    }
  }

  // ------------------------------------------------------------------ saving

  function Flat(chunks: seq<seq<Byte>>): seq<Byte> {
    if chunks == [] then [] else Flat(chunks[..|chunks| - 1]) + chunks[|chunks| - 1]
  }

  lemma PrefixesJoin(c: seq<Byte>, a: nat, x: seq<Byte>, y: seq<Byte>)
    requires a + |x| + |y| <= |c|
    ensures Spliced(Spliced(c, a, x), a + |x|, y) == Spliced(c, a, x + y)
    ensures Prefixes(c, a, x) + Prefixes(Spliced(c, a, x), a + |x|, y) == Prefixes(c, a, x + y)
  {
    var p, q := Prefixes(c, a, x) + Prefixes(Spliced(c, a, x), a + |x|, y), Prefixes(c, a, x + y);
    forall k | 0 <= k < |x| + |y|
      ensures p[k] == q[k]
    {
      if k < |x| {
        assert (x + y)[..k + 1] == x[..k + 1];
      } else {
        assert (x + y)[..k + 1] == x + y[..k + 1 - |x|];
        assert Spliced(Spliced(c, a, x), a + |x|, y[..k + 1 - |x|]) == Spliced(c, a, x + y[..k + 1 - |x|]);
      }
    }
  }

  /** The bytes [from, to) can still be programmed. */
  ghost predicate Unprogrammed(f: Flash, from: nat, to: nat)
    requires f.Valid() && to <= f.sector.Length
    reads f, f.sector
  {
    forall i :: from <= i < to ==> !f.programmed[i]
  }

  /** What has been written so far from address start on: the bytes flat, one by one. */
  ghost predicate WrittenSoFar(f: Flash, was: seq<Byte>, h: seq<seq<Byte>>, start: nat, size: nat, flat: seq<Byte>)
    reads f, f.sector
  {
    && f.Valid() && |flat| <= size && start + size <= f.sector.Length == |was|
    && f.sector[..] == Spliced(was, start, flat) && f.history == h + Prefixes(was, start, flat)
    && Unprogrammed(f, start + |flat|, start + size)
  }

  /** cmp_flash_writer: a chunk that fits is written behind the others, one that does not is refused. */
  method CmpFlashWriter(f: Flash, start: nat, index: nat, size: nat, data: seq<Byte>,
      ghost was: seq<Byte>, ghost h: seq<seq<Byte>>, ghost flat: seq<Byte>) returns (ok: bool)
    requires WrittenSoFar(f, was, h, start, size, flat) && !f.locked && index == |flat|
    modifies f`programmed, f`history, f.sector
    ensures ok == (index + |data| <= size)
    ensures WrittenSoFar(f, was, h, start, size, if ok then flat + data else flat)
    ensures forall i :: 0 <= i < f.sector.Length && !(start <= i < start + size) ==> f.programmed[i] == old(f.programmed[i])
  {
    hide Suitable, QuietBehind, Spliced, Prefixes;
    ok := index + |data| <= size;
    if ok {
      f.Write(start + index, data);
      PrefixesJoin(was, start, flat, data);
      HistoryJoin(h, Prefixes(was, start, flat), Prefixes(Spliced(was, start, flat), start + |flat|, data));
    }
  }

  lemma HistoryJoin(a: seq<seq<Byte>>, b: seq<seq<Byte>>, c: seq<seq<Byte>>)
    ensures (a + b) + c == a + (b + c)
  {
  }

  /** The MessagePack writer: its chunks go to flash one by one, until one is refused. */
  method WritePayload(f: Flash, start: nat, size: nat, chunks: seq<seq<Byte>>)
    returns (success: bool, index: nat, ghost flat: seq<Byte>)
    requires f.Valid() && !f.locked && start + size <= f.sector.Length && Unprogrammed(f, start, start + size)
    modifies f`programmed, f`history, f.sector
    ensures f.Valid() && old(f.history) <= f.history
    ensures success <==> |Flat(chunks)| <= size
    ensures success ==> index == |Flat(chunks)| && flat == Flat(chunks)
    ensures WrittenSoFar(f, old(f.sector[..]), old(f.history), start, size, flat)
    ensures forall i :: 0 <= i < f.sector.Length && !(start <= i < start + size) ==> f.programmed[i] == old(f.programmed[i])
  {
    hide Suitable, QuietBehind, Spliced, Prefixes;
    index, success, flat := 0, true, [];
    var k := 0;
    ghost var was, h := f.sector[..], f.history;
    NothingWritten(was, start);
    while k < |chunks| && success
      invariant k <= |chunks| && index == |flat| && h <= f.history && WrittenSoFar(f, was, h, start, size, flat)
      invariant if success then flat == Flat(chunks[..k]) else |Flat(chunks)| > size
      invariant forall i :: 0 <= i < f.sector.Length && !(start <= i < start + size) ==> f.programmed[i] == old(f.programmed[i])
      decreases |chunks| - k + if success then 1 else 0
    {
      assert chunks[..k + 1][..k] == chunks[..k];
      FlatMonotone(chunks, k + 1);
      success := CmpFlashWriter(f, start, index, size, chunks[k], was, h, flat);
      if success {
        index := index + |chunks[k]|;
        flat := flat + chunks[k];
        k := k + 1;
      }
    }
    assert chunks[..|chunks|] == chunks;
  }

  lemma NothingWritten(was: seq<Byte>, start: nat)
    requires start <= |was|
    ensures Spliced(was, start, []) == was && Prefixes(was, start, []) == []
  {
  }

  lemma {:induction false} FlatMonotone(chunks: seq<seq<Byte>>, k: nat)
    requires k <= |chunks|
    ensures |Flat(chunks[..k])| <= |Flat(chunks)|
    decreases |chunks|
  {
    if k < |chunks| {
      var n := |chunks| - 1;
      FlatMonotone(chunks[..n], k);
      assert chunks[..n][..k] == chunks[..k];
    } else {
      assert chunks[..k] == chunks;
    }
  }

  /** config_write_block_header, its data checksum taken from what is in flash. */
  method WriteHeader(f: Flash, dst: nat, len: nat)
    requires f.Valid() && !f.locked && dst + HEADER + len <= f.sector.Length && Unprogrammed(f, dst, dst + HEADER)
    modifies f`programmed, f`history, f.sector
    ensures f.Valid()
    ensures var h := HeaderOf(f.crc, old(Range(f.Memory(), dst + HEADER, len)));
      && f.sector[..] == Spliced(old(f.sector[..]), dst, h)
      && f.history == old(f.history) + Prefixes(old(f.sector[..]), dst, h)
    ensures forall i :: 0 <= i < f.sector.Length && !(dst <= i < dst + HEADER) ==> f.programmed[i] == old(f.programmed[i])
  {
    hide Le, Suitable, QuietBehind, And, Spliced, Prefixes, WordAt, BlockValid;
    ghost var was, d := f.sector[..], Range(f.Memory(), dst + HEADER, len);
    var offset := 0;
    var a := Le(f.crc(Le(len)));
    f.Write(dst + offset, a);
    offset := offset + 4;
    var b := Le(len);
    f.Write(dst + offset, b);
    offset := offset + 4;
    PrefixesJoin(was, dst, a, b);
    SameRange(FlashLog.Memory(was, f.beyond), f.Memory(), dst + HEADER, len);
    var data := ReadBytes(f, dst + HEADER, len);
    var c := Le(f.crc(data));
    f.Write(dst + offset, c);
    PrefixesJoin(was, dst, a + b, c);
  }

  /** The sector reads with the blocks ps, and everything behind them can still be programmed. */
  ghost predicate Open(f: Flash, ps: seq<seq<Byte>>)
    reads f, f.sector
  {
    f.Valid() && Sector(f.crc, f.Memory(), ps) && Unprogrammed(f, Extent(ps), f.sector.Length)
  }

  /** The sector in this state holds the blocks ps, so config_load would be handed the last of them. */
  ghost predicate ReadsAs(f: Flash, cells: seq<Byte>, ps: seq<seq<Byte>>) {
    Log(f.crc, Memory(cells, f.beyond), 0, ps)
  }

  /** What config_load would be handed after a power cut in this state: the old or the new payload. */
  ghost predicate OldOrNew(f: Flash, cells: seq<Byte>, ps: seq<seq<Byte>>, d: seq<Byte>) {
    ReadsAs(f, cells, ps) || ReadsAs(f, cells, ps + [d])
  }

  /** Every state from the n-th on reads with the old blocks or with the new one added. */
  ghost predicate AtomicSince(f: Flash, n: nat, ps: seq<seq<Byte>>, d: seq<Byte>)
    reads f
  {
    forall j :: n <= j < |f.history| ==> OldOrNew(f, f.history[j], ps, d)
  }

  /** Every state from the n-th on reads with the old blocks. */
  ghost predicate OldSince(f: Flash, n: nat, ps: seq<seq<Byte>>)
    reads f
  {
    forall j :: n <= j < |f.history| ==> ReadsAs(f, f.history[j], ps)
  }

  ghost predicate Each(f: Flash, states: seq<seq<Byte>>, ps: seq<seq<Byte>>) {
    forall j :: 0 <= j < |states| ==> ReadsAs(f, states[j], ps)
  }

  ghost predicate EachAtomic(f: Flash, states: seq<seq<Byte>>, ps: seq<seq<Byte>>, d: seq<Byte>) {
    forall j :: 0 <= j < |states| ==> OldOrNew(f, states[j], ps, d)
  }

  /** The power-cut theorem on the states an append passes through. */
  lemma AppendIsAtomic(f: Flash, m: FlashLog.Memory, ps: seq<seq<Byte>>, p: nat, d: seq<Byte>)
    requires Sector(f.crc, m, ps) && p == Extent(ps) && p + HEADER + |d| <= |m.cells| && m.beyond == f.beyond
    ensures var h := Prefixes(m.cells, p + HEADER, d) + Prefixes(PayloadWritten(m.cells, p, d, |d|), p, HeaderOf(f.crc, d));
      EachAtomic(f, h, ps, d)
  {
    hide Sector, Extent, HeaderOf, Log, Spliced;
    var a, b := Prefixes(m.cells, p + HEADER, d), Prefixes(PayloadWritten(m.cells, p, d, |d|), p, HeaderOf(f.crc, d));
    forall j | 0 <= j < |a| + |b|
      ensures OldOrNew(f, (a + b)[j], ps, d)
    {
      if j < |a| {
        PayloadPrefixIsOld(f.crc, m, ps, d, j + 1);
        assert m.(cells := a[j]) == Memory(a[j], f.beyond);
      } else {
        var k := j - |a|;
        HeaderPrefixIsOldOrNew(f.crc, m, ps, d, k + 1);
        assert m.(cells := b[k]) == Memory(b[k], f.beyond);
      }
    }
  }

  /** A payload refused on the way leaves every state with the old blocks. */
  lemma PayloadIsOld(f: Flash, m: FlashLog.Memory, ps: seq<seq<Byte>>, p: nat, flat: seq<Byte>)
    requires Sector(f.crc, m, ps) && p == Extent(ps) && p + HEADER + |flat| <= |m.cells| && m.beyond == f.beyond
    ensures Each(f, Prefixes(m.cells, p + HEADER, flat), ps)
  {
    hide Sector, Extent, Log, Spliced;
    var h := Prefixes(m.cells, p + HEADER, flat);
    forall j | 0 <= j < |h|
      ensures ReadsAs(f, h[j], ps)
    {
      PayloadPrefixIsOld(f.crc, m, ps, flat, j + 1);
      assert m.(cells := h[j]) == Memory(h[j], f.beyond);
    }
  }

  lemma OldJoined(f: Flash, h: seq<seq<Byte>>, p: seq<seq<Byte>>, ps: seq<seq<Byte>>)
    requires f.history == h + p && Each(f, p, ps)
    ensures OldSince(f, |h|, ps)
  {
    hide ReadsAs;
    assert forall j :: |h| <= j < |f.history| ==> f.history[j] == p[j - |h|];
  }

  lemma AtomicJoined(f: Flash, h: seq<seq<Byte>>, p: seq<seq<Byte>>, ps: seq<seq<Byte>>, d: seq<Byte>)
    requires f.history == h + p && EachAtomic(f, p, ps, d)
    ensures AtomicSince(f, |h|, ps, d)
  {
    hide OldOrNew;
    assert forall j :: |h| <= j < |f.history| ==> f.history[j] == p[j - |h|];
  }

  /** Payload, then header, behind the blocks ps; fails exactly when there is no room. */
  method Append(f: Flash, chunks: seq<seq<Byte>>, dst: nat, len: nat, ghost ps: seq<seq<Byte>>) returns (success: bool)
    requires Open(f, ps) && !f.locked && dst == Extent(ps) && len == f.sector.Length - dst >= HEADER
    modifies f`programmed, f`history, f.sector
    ensures f.Valid() && old(f.history) <= f.history
    ensures success <==> HEADER + |Flat(chunks)| <= len
    ensures success ==> Open(f, ps + [Flat(chunks)])
    ensures success ==> AtomicSince(f, |old(f.history)|, ps, Flat(chunks))
    ensures !success ==> OldSince(f, |old(f.history)|, ps)
  {
    hide Suitable, QuietBehind, Spliced, Prefixes, HeaderOf, Log, Range, Extent, Each, EachAtomic, AtomicSince, OldSince;
    ghost var m, d, h := f.Memory(), Flat(chunks), f.history;
    var index;
    ghost var flat;
    success, index, flat := WritePayload(f, dst + HEADER, len - HEADER, chunks);
    if success {
      ghost var mid := f.Memory();
      WholePayload(f.crc, m, dst, d);
      WriteHeader(f, dst, index);
      AppendDone(f.crc, m, ps, d);
      AppendIsAtomic(f, m, ps, dst, d);
      HistoryJoin(h, Prefixes(m.cells, dst + HEADER, d), Prefixes(mid.cells, dst, HeaderOf(f.crc, d)));
      AtomicJoined(f, h, Prefixes(m.cells, dst + HEADER, d) + Prefixes(mid.cells, dst, HeaderOf(f.crc, d)), ps, d);
    } else {
      PayloadIsOld(f, m, ps, dst, flat);
      OldJoined(f, h, Prefixes(m.cells, dst + HEADER, flat), ps);
    }
  }

  lemma WholePayload(crc: Checksum, m: FlashLog.Memory, p: nat, d: seq<Byte>)
    requires p + HEADER + |d| <= |m.cells|
    ensures Spliced(m.cells, p + HEADER, d) == PayloadWritten(m.cells, p, d, |d|)
    ensures Range(Memory(Spliced(m.cells, p + HEADER, d), m.beyond), p + HEADER, |d|) == d
    ensures Spliced(PayloadWritten(m.cells, p, d, |d|), p, HeaderOf(crc, d)) == HeaderWritten(crc, m.cells, p, d, HEADER)
  {
    hide HeaderOf;
    assert d[..|d|] == d;
    assert HeaderOf(crc, d)[..HEADER] == HeaderOf(crc, d);
    var w := Memory(Spliced(m.cells, p + HEADER, d), m.beyond);
    var r := Range(w, p + HEADER, |d|);
    forall i: nat | i < |d|
      ensures r[i] == d[i]
    {
      RangeAt(w, p + HEADER, |d|, i);
    }
  }

  /** A sector config_save can be called on: no valid block, or blocks with an unprogrammed rest. */
  ghost predicate Ready(f: Flash, ps: seq<seq<Byte>>)
    reads f, f.sector
  {
    && f.Valid() && Log(f.crc, f.Memory(), 0, ps)
    && (ps != [] ==> Extent(ps) <= f.sector.Length && Unprogrammed(f, Extent(ps), f.sector.Length))
  }

  lemma ReadyIsOpen(f: Flash, ps: seq<seq<Byte>>)
    requires Ready(f, ps) && ps != []
    ensures Open(f, ps)
  {
    hide Log, Suitable, QuietBehind;
  }

  lemma OpenIsReady(f: Flash, ps: seq<seq<Byte>>)
    requires Open(f, ps)
    ensures Ready(f, ps)
  {
    hide Log, Suitable, QuietBehind;
  }

  /** Erasing leaves an open sector without blocks. */
  method EraseSector(f: Flash)
    requires f.Valid() && !f.locked
    modifies f`programmed, f`history, f.sector
    ensures Open(f, []) && f.history == old(f.history) + [Erased(f.sector.Length)]
    ensures Log(f.crc, Memory(Erased(f.sector.Length), f.beyond), 0, [])
  {
    hide Log;
    f.Erase();
    ErasedSector(f.crc, f.sector.Length, f.beyond);
  }

  /** Every state from the n-th on reads as before a save of d, as after it, or empty. */
  ghost predicate KnownSince(f: Flash, n: nat, ps: seq<seq<Byte>>, d: seq<Byte>)
    reads f
  {
    forall j :: n <= j < |f.history| ==> Known(f, f.history[j], ps, d)
  }

  ghost predicate Known(f: Flash, cells: seq<Byte>, ps: seq<seq<Byte>>, d: seq<Byte>) {
    ReadsAs(f, cells, ps) || ReadsAs(f, cells, Saved(f.sector.Length, ps, d)) || ReadsAs(f, cells, [])
  }

  /** An erased sector at some point since the n-th state. */
  ghost predicate ErasedSince(f: Flash, n: nat)
    reads f
  {
    exists j :: n <= j < |f.history| && ReadsAs(f, f.history[j], [])
  }

  /** If there were blocks, an erased sector is neither the old nor the new content. */
  lemma ErasedIsNotAtomic(f: Flash, n: nat, ps: seq<seq<Byte>>, d: seq<Byte>)
    requires ps != [] && ErasedSince(f, n)
    ensures !AtomicSince(f, n, ps, d)
  {
    hide Log;
    var j :| n <= j < |f.history| && ReadsAs(f, f.history[j], []);
    if OldOrNew(f, f.history[j], ps, d) {
      var m := Memory(f.history[j], f.beyond);
      if Log(f.crc, m, 0, ps) {
        LogUnique(f.crc, m, 0, ps, []);
      } else {
        LogUnique(f.crc, m, 0, ps + [d], []);
      }
    }
  }

  /** Bytes at hand for the block of the next save. */
  function Room(size: nat, ps: seq<seq<Byte>>): nat {
    if Extent(ps) + HEADER < size then size - Extent(ps) else size
  }

  /** One pass of config_save, without the retry; a payload that fits no empty sector never succeeds. */
  method SaveOnce(f: Flash, chunks: seq<seq<Byte>>, ghost ps: seq<seq<Byte>>) returns (success: bool)
    requires Ready(f, ps) && !f.locked
    modifies f`programmed, f`history, f.sector
    ensures f.Valid() && old(f.history) <= f.history
    ensures success <==> HEADER + |Flat(chunks)| <= Room(f.sector.Length, ps)
    ensures success ==> Open(f, Saved(f.sector.Length, ps, Flat(chunks)))
    ensures KnownSince(f, |old(f.history)|, ps, Flat(chunks))
    ensures success && (ps == [] || Fits(f.sector.Length, ps, Flat(chunks))) ==> AtomicSince(f, |old(f.history)|, ps, Flat(chunks))
    ensures success && ps != [] && !Fits(f.sector.Length, ps, Flat(chunks)) ==> ErasedSince(f, |old(f.history)|)
  {
    hide Suitable, QuietBehind, Log, Extent, Sector, OldOrNew;
    ghost var h, d := f.history, Flat(chunks);
    EmptyExtent();
    var last := FindLastUsed(f, ps);
    if last == None {
      EraseSector(f);
    } else {
      ReadyIsOpen(f, ps);
    }
    SectorLog(f, ps);
    var dst := FindFirstFree(f, ps);
    var len := f.sector.Length - dst;
    ghost var qs := ps;
    if len <= HEADER {
      EraseSector(f);
      dst, len, qs := 0, f.sector.Length, [];
    }
    ghost var n := |f.history|;
    success := Append(f, chunks, dst, len, qs);
    if success {
      AfterAppend(f, |h|, n, ps, qs, d);
      assert qs + [d] == Saved(f.sector.Length, ps, d);
      AppendKnown(f, |h|, n, ps, qs, d);
    } else {
      RefusalKnown(f, |h|, n, ps, qs, d);
    }
  }

  lemma EmptyExtent()
    ensures Extent([]) == 0
  {
  }

  lemma SectorLog(f: Flash, ps: seq<seq<Byte>>)
    requires Open(f, ps)
    ensures Log(f.crc, f.Memory(), 0, ps) && Extent(ps) <= f.sector.Length
  {
  }

  /** The states of a pass: perhaps erased ones, then those of the append. */
  lemma AfterAppend(f: Flash, h: nat, n: nat, ps: seq<seq<Byte>>, qs: seq<seq<Byte>>, d: seq<Byte>)
    requires h <= n <= |f.history| && (qs == ps || qs == [])
    requires forall j :: h <= j < n ==> ReadsAs(f, f.history[j], [])
    requires AtomicSince(f, n, qs, d)
    ensures qs == ps && (h == n || ps == []) ==> AtomicSince(f, h, ps, d)
    ensures h < n ==> ErasedSince(f, h)
  {
    hide Log;
    assert h < n ==> ReadsAs(f, f.history[h], []);
  }

  lemma AppendKnown(f: Flash, h: nat, n: nat, ps: seq<seq<Byte>>, qs: seq<seq<Byte>>, d: seq<Byte>)
    requires h <= n <= |f.history| && (qs == ps || qs == [])
    requires forall j :: h <= j < n ==> ReadsAs(f, f.history[j], [])
    requires AtomicSince(f, n, qs, d) && qs + [d] == Saved(f.sector.Length, ps, d)
    ensures KnownSince(f, h, ps, d)
  {
    hide Log, Saved;
  }

  lemma RefusalKnown(f: Flash, h: nat, n: nat, ps: seq<seq<Byte>>, qs: seq<seq<Byte>>, d: seq<Byte>)
    requires h <= n <= |f.history| && (qs == ps || qs == [])
    requires forall j :: h <= j < n ==> ReadsAs(f, f.history[j], [])
    requires OldSince(f, n, qs)
    ensures KnownSince(f, h, ps, d)
  {
    hide Log, Saved;
  }

  /** After a refusal the sector is erased, and the payload goes into the empty sector. */
  lemma RetryKnown(f: Flash, h: nat, n: nat, ps: seq<seq<Byte>>, d: seq<Byte>)
    requires h < n <= |f.history| && !Fits(f.sector.Length, ps, d)
    requires forall j :: h <= j < n - 1 ==> Known(f, f.history[j], ps, d)
    requires ReadsAs(f, f.history[n - 1], []) && KnownSince(f, n, [], d)
    ensures KnownSince(f, h, ps, d)
  {
    hide Log, Fits;
  }

  /** A block fits behind the others if its header and one byte more do, and then the whole of it. */
  lemma SavedInPlain(size: nat, ps: seq<seq<Byte>>, d: seq<Byte>)
    ensures Fits(size, ps, d) <==> Extent(ps) + 12 < size && Extent(ps) + 12 + |d| <= size
    ensures ps != [] && Extent(ps) + 12 < size && Extent(ps) + 12 + |d| <= size ==> Saved(size, ps, d) == ps + [d]
    ensures !(ps != [] && Extent(ps) + 12 < size && Extent(ps) + 12 + |d| <= size) ==> Saved(size, ps, d) == [d]
    ensures Room(size, ps) == if Extent(ps) + 12 < size then size - Extent(ps) else size
  {
  }

  lemma RoomEnough(size: nat, ps: seq<seq<Byte>>, d: seq<Byte>)
    requires HEADER + |d| <= size
    ensures HEADER + |d| > Room(size, ps) ==> ps != [] && !Fits(size, ps, d)
  {
  }

  /**
  config_save. Afterwards the sector holds the payload last: appended if it fits, else
  alone, after at most one retry. A power cut at any byte leaves the old or the new
  payload to be loaded exactly when there was no block or the new one fits behind
  the others; otherwise the sector is erased before the new payload is written.
  */
  method Save(f: Flash, chunks: seq<seq<Byte>>, ghost ps: seq<seq<Byte>>) returns (ghost retries: nat)
    requires Ready(f, ps) && HEADER + |Flat(chunks)| <= f.sector.Length
    modifies f, f.sector
    ensures Open(f, Saved(f.sector.Length, ps, Flat(chunks))) && f.locked && retries <= if ps == [] then 0 else 1
    ensures old(f.history) <= f.history && KnownSince(f, |old(f.history)|, ps, Flat(chunks))
    ensures AtomicSince(f, |old(f.history)|, ps, Flat(chunks)) <==> ps == [] || Fits(f.sector.Length, ps, Flat(chunks))
    ensures ps == [] || Fits(f.sector.Length, ps, Flat(chunks)) || ErasedSince(f, |old(f.history)|)
    ensures ps != [] && Extent(ps) + 12 < f.sector.Length && Extent(ps) + 12 + |Flat(chunks)| <= f.sector.Length ==>
              Open(f, ps + [Flat(chunks)]) && AtomicSince(f, |old(f.history)|, ps, Flat(chunks))
    ensures !(ps != [] && Extent(ps) + 12 < f.sector.Length && Extent(ps) + 12 + |Flat(chunks)| <= f.sector.Length) ==>
              Open(f, [Flat(chunks)]) && (ps != [] ==> ErasedSince(f, |old(f.history)|))
    decreases |ps|
  {
    hide Suitable, QuietBehind, Log, Extent, Sector, OldOrNew, Fits;
    ghost var h := f.history;
    f.Unlock();
    var success := SaveOnce(f, chunks, ps);
    RoomEnough(f.sector.Length, ps, Flat(chunks));
    retries := 0;
    if !success {
      EraseSector(f);
      f.Lock();
      ghost var n := |f.history|;
      OpenIsReady(f, []);
      retries := Save(f, chunks, []);
      retries := retries + 1;
      RetryKnown(f, |h|, n, ps, Flat(chunks));
    }
    SavedInPlain(f.sector.Length, ps, Flat(chunks));
    if ps != [] && !Fits(f.sector.Length, ps, Flat(chunks)) {
      ErasedIsNotAtomic(f, |h|, ps, Flat(chunks));
    }
    f.Lock();
  }

  // ---------------------------------------------------------- runs of saves

  /** The blocks after a whole run of saves. */
  function RunSaves(size: nat, ps: seq<seq<Byte>>, ds: seq<seq<Byte>>): seq<seq<Byte>>
    decreases |ds|
  {
    if ds == [] then ps else Saved(size, RunSaves(size, ps, ds[..|ds| - 1]), ds[|ds| - 1])
  }

  function Payloads(cs: seq<seq<seq<Byte>>>): (ds: seq<seq<Byte>>)
    ensures |ds| == |cs| && forall k :: 0 <= k < |cs| ==> ds[k] == Flat(cs[k])
  {
    seq(|cs|, k requires 0 <= k < |cs| => Flat(cs[k]))
  }

  /** The k-th save of the run needs no erasing. */
  predicate Appends(size: nat, ps: seq<seq<Byte>>, ds: seq<seq<Byte>>, k: nat)
    requires k < |ds|
  {
    RunSaves(size, ps, ds[..k]) == [] || Fits(size, RunSaves(size, ps, ds[..k]), ds[k])
  }

  /**
  The states the sector passes through during the k-th save of a run: each reads as before this save, as
  after it, or empty; empty never exactly if the save fits behind the blocks before.
  */
  ghost predicate SaveStates(f: Flash, states: seq<seq<Byte>>, ps: seq<seq<Byte>>, ds: seq<seq<Byte>>, k: nat)
    requires k < |ds|
  {
    var before, after := RunSaves(f.sector.Length, ps, ds[..k]), RunSaves(f.sector.Length, ps, ds[..k + 1]);
    && (forall j :: 0 <= j < |states| ==>
          ReadsAs(f, states[j], before) || ReadsAs(f, states[j], after) || ReadsAs(f, states[j], []))
    && (if Appends(f.sector.Length, ps, ds, k) then
          forall j :: 0 <= j < |states| ==> ReadsAs(f, states[j], before) || ReadsAs(f, states[j], after)
        else
          before != [] && exists j :: 0 <= j < |states| && ReadsAs(f, states[j], []))
  }

  /** The states of several saves, one save after the other. */
  function Joined(spans: seq<seq<seq<Byte>>>): seq<seq<Byte>> {
    if spans == [] then [] else Joined(spans[..|spans| - 1]) + spans[|spans| - 1]
  }

  lemma JoinedMore(h: seq<seq<Byte>>, spans: seq<seq<seq<Byte>>>, was: seq<seq<Byte>>, span: seq<seq<Byte>>)
    requires was == h + Joined(spans)
    ensures was + span == h + Joined(spans + [span])
  {
    assert (spans + [span])[..|spans|] == spans;
  }

  /** What the k-th save of a run does to the blocks, and that it needs no erasing exactly if it appends or finds none. */
  lemma RunInPlain(size: nat, ps: seq<seq<Byte>>, ds: seq<seq<Byte>>, k: nat)
    requires k < |ds|
    ensures var a, d := RunSaves(size, ps, ds[..k]), ds[k];
      && (a != [] && Extent(a) + 12 < size && Extent(a) + 12 + |d| <= size ==> RunSaves(size, ps, ds[..k + 1]) == a + [d])
      && (!(a != [] && Extent(a) + 12 < size && Extent(a) + 12 + |d| <= size) ==> RunSaves(size, ps, ds[..k + 1]) == [d])
      && (Appends(size, ps, ds, k) <==> a == [] || (Extent(a) + 12 < size && Extent(a) + 12 + |d| <= size))
    ensures RunSaves(size, ps, ds[..0]) == ps
  {
    hide RunSaves, Fits, Saved;
    RunStart(size, ps, ds);
    RunStep(size, ps, ds, k);
    SavedInPlain(size, RunSaves(size, ps, ds[..k]), ds[k]);
  }

  lemma RunStep(size: nat, ps: seq<seq<Byte>>, ds: seq<seq<Byte>>, k: nat)
    requires k < |ds|
    ensures RunSaves(size, ps, ds[..k + 1]) == Saved(size, RunSaves(size, ps, ds[..k]), ds[k])
  {
    assert ds[..k + 1][..k] == ds[..k];
  }

  lemma SpanOfSave(f: Flash, n: nat, ps: seq<seq<Byte>>, ds: seq<seq<Byte>>, k: nat)
    requires k < |ds| && n <= |f.history|
    requires var qs := RunSaves(f.sector.Length, ps, ds[..k]);
      && KnownSince(f, n, qs, ds[k])
      && (AtomicSince(f, n, qs, ds[k]) <==> qs == [] || Fits(f.sector.Length, qs, ds[k]))
      && (qs == [] || Fits(f.sector.Length, qs, ds[k]) || ErasedSince(f, n))
    ensures SaveStates(f, f.history[n..], ps, ds, k)
  {
    hide ReadsAs, RunSaves, Fits;
    var span, qs := f.history[n..], RunSaves(f.sector.Length, ps, ds[..k]);
    RunStep(f.sector.Length, ps, ds, k);
    assert forall j :: 0 <= j < |span| ==> span[j] == f.history[n + j];
    if ErasedSince(f, n) {
      var j :| n <= j < |f.history| && ReadsAs(f, f.history[j], []);
      assert span[j - n] == f.history[j];
    }
  }

  /**
  Any run of config_save calls, then config_load: the sector holds the blocks the run
  leads to, and the last payload is the one loaded. A power cut at any byte of the k-th save leaves
  the blocks before it or those after it, or none at all; the latter happens
  exactly when the save does not fit behind the blocks before.
  */
  method SaveAll(f: Flash, cs: seq<seq<seq<Byte>>>, ghost ps: seq<seq<Byte>>)
    returns (r: Option<seq<Byte>>, ghost spans: seq<seq<seq<Byte>>>)
    requires Ready(f, ps) && forall k :: 0 <= k < |cs| ==> HEADER + |Flat(cs[k])| <= f.sector.Length
    modifies f, f.sector
    ensures Ready(f, RunSaves(f.sector.Length, ps, Payloads(cs)))
    ensures cs != [] ==> Open(f, RunSaves(f.sector.Length, ps, Payloads(cs)))
    ensures r == if cs == [] then Latest(ps) else Some(Flat(cs[|cs| - 1]))
    ensures |spans| == |cs| && f.history == old(f.history) + Joined(spans)
    ensures forall k :: 0 <= k < |cs| ==> SaveStates(f, spans[k], ps, Payloads(cs), k)
  {
    hide Suitable, QuietBehind, Log, Extent, Sector, OldOrNew, Fits, ReadsAs, RunSaves, SaveStates, Flat, Ready,
      AtomicSince, KnownSince, ErasedSince;
    ghost var h, ds, size := f.history, Payloads(cs), f.sector.Length;
    RunStart(size, ps, ds);
    spans := [];
    for i := 0 to |cs|
      invariant Ready(f, RunSaves(size, ps, ds[..i])) && (i > 0 ==> Open(f, RunSaves(size, ps, ds[..i])))
      invariant |spans| == i && f.history == h + Joined(spans)
      invariant forall k :: 0 <= k < i ==> SaveStates(f, spans[k], ps, ds, k)
    {
      ghost var qs, was := RunSaves(size, ps, ds[..i]), f.history;
      ghost var retries := Save(f, cs[i], qs);
      RunStep(size, ps, ds, i);
      OpenIsReady(f, Saved(size, qs, ds[i]));
      SpanOfSave(f, |was|, ps, ds, i);
      JoinedMore(h, spans, was, f.history[|was|..]);
      spans := spans + [f.history[|was|..]];
      assert f.history == was + f.history[|was|..];
    }
    assert ds[..|cs|] == ds;
    ReadyLog(f, RunSaves(size, ps, ds));
    r := Load(f, RunSaves(size, ps, ds));
    if cs != [] {
      RunYieldsLast(size, ps, ds);
    }
  }

  lemma ReadyLog(f: Flash, ps: seq<seq<Byte>>)
    requires Ready(f, ps)
    ensures Log(f.crc, f.Memory(), 0, ps)
  {
  }

  lemma RunStart(size: nat, ps: seq<seq<Byte>>, ds: seq<seq<Byte>>)
    ensures RunSaves(size, ps, ds[..0]) == ps && RunSaves(size, ps, []) == ps
  {
    assert ds[..0] == [];
  }

  /** Whatever was saved before, the last payload is the last block. */
  lemma RunYieldsLast(size: nat, ps: seq<seq<Byte>>, ds: seq<seq<Byte>>)
    requires ds != []
    ensures Latest(RunSaves(size, ps, ds)) == Some(ds[|ds| - 1])
  {
  }
}
