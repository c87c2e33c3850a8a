/**
What calls on open files do, seen from outside: contents, clusters and the FAT, without windows,
buffers and cursors. Runs of such calls, and what follows from them.
*/
module FileWorld {
  import opened Bits
  import opened Layout
  import opened FatMap
  import opened FatRuns
  import opened Volume
  import opened FileView
  import opened FileObject
  import opened FileWrite
  import opened FileTruncate

  datatype Call = Reading(size: nat) | Writing(data: seq<Byte>) | Seeking(ofs: nat) | Cutting

  /** Result code, data read, and number of bytes written. */
  datatype Answer = Answer(res: FResult, data: seq<Byte>, count: nat)

  datatype Part = Part(content: Content, chain: seq<nat>, canRead: bool, canWrite: bool)

  datatype World = World(files: seq<Part>, fat: Table)

  /** Sizes and offsets are 32-bit numbers. */
  predicate InWord(c: Call) {
    match c
    case Reading(_) => true
    case Writing(data) => |data| < WORD32
    case Seeking(ofs) => ofs < WORD32
    case Cutting => true
  }

  /** The clusters hold the bytes, and the position is one of them or behind the last. */
  predicate Covered(g: Geometry, a: Part) {
    a.content.Open? && g.csize > 0 && a.content.pos <= |a.content.bytes|
    && ClustersFor(g, |a.content.bytes|) <= |a.chain|
  }

  /** The chain grew by free clusters, and no entry of another cluster changed. */
  ghost predicate Stretched(f: Table, xs: seq<nat>, h: Table, ys: seq<nat>) {
    && |h| == |f| && xs <= ys && TakenFree(f, xs, ys) && OthersKept(f, h, ys)
    && (xs == [] || IsChain(f, xs)) && (ys == [] || IsChain(h, ys))
  }

  predicate Reads(a: Part, b: Part, size: nat, ans: Answer)
    requires a.content.Open? && a.content.pos <= |a.content.bytes|
  {
    var c, rest := a.content, |a.content.bytes| - a.content.pos;
    var n := if !a.canRead then 0 else if size <= rest then size else rest;
    && ans == Answer(if a.canRead then OK else Denied, c.bytes[c.pos..c.pos + n], 0)
    && b == a.(content := c.(pos := c.pos + n))
  }

  /** An error mark was met; the file reports it from now on. */
  ghost predicate Fails(a: Part, b: Part, h: Table, ans: Answer) {
    ans.res == IntErr && ans.data == [] && !NoErrorMark(h) && b == a.(content := Failed(IntErr), chain := b.chain)
  }

  /** A position at which the volume has no more room for the file. */
  ghost predicate Stuck(g: Geometry, b: Part, h: Table, p: nat) {
    NoneFree(h) && AtEnd(g, b.chain, p)
  }

  /** All bytes have been written, or as many as there was room for. */
  ghost predicate Writes(g: Geometry, a: Part, h: Table, b: Part, data: seq<Byte>, ans: Answer)
    requires a.content.Open? && a.content.pos <= |a.content.bytes|
  {
    var c, n := a.content, ans.count;
    && ans == Answer(OK, [], n) && n <= |data|
    && b == a.(content := Open(Overwrite(c.bytes, c.pos, data[..n]), c.pos + n), chain := b.chain)
    && Tight(g, |a.chain|, b.chain, c.pos + n)
    && (n < |data| ==> (c.pos + |data| >= WORD32 && n == 0) || Stuck(g, b, h, c.pos + n))
  }

  /** Where f_lseek is to go. */
  function Target(a: Part, ofs: nat): nat
    requires a.content.Open?
  {
    if ofs > |a.content.bytes| && !a.canWrite then |a.content.bytes| else ofs
  }

  /** The bytes are kept and reach up to the position, which is the target if there is room for it. */
  ghost predicate Moves(g: Geometry, a: Part, h: Table, b: Part, ofs: nat, ans: Answer)
    requires a.content.Open?
  {
    var c, d := a.content, b.content;
    && ans == Answer(OK, [], 0) && d.Open? && b == a.(content := d, chain := b.chain)
    && c.bytes <= d.bytes && |d.bytes| == Max(|c.bytes|, d.pos) && d.pos <= Target(a, ofs)
    && Tight(g, |a.chain|, b.chain, d.pos)
    && (d.pos < Target(a, ofs) ==> |c.bytes| < Target(a, ofs) && Stuck(g, b, h, d.pos))
  }

  /** The bytes behind the position are gone, and so are the clusters not needed any more. */
  ghost predicate Cuts(g: Geometry, f: Table, a: Part, h: Table, b: Part, ans: Answer)
    requires a.content.Open? && a.content.pos <= |a.content.bytes| && g.csize > 0
  {
    var c, k := a.content, ClustersFor(g, a.content.pos);
    ans == Answer(if a.canWrite then OK else Denied, [], 0)
    && if !a.canWrite || c.pos == |c.bytes| then h == f && b == a
       else
         && TailFreed(f, h, a.chain, k) && (a.chain == [] || IsChain(f, a.chain))
         && b == a.(content := Open(c.bytes[..c.pos], c.pos), chain := a.chain[..k])
  }

  /** What a call does to a file, and to the FAT, that is f before and h afterwards. */
  ghost predicate Does(g: Geometry, c: Call, f: Table, a: Part, h: Table, b: Part, ans: Answer) {
    if a.content.Failed? then h == f && b == a && ans == Answer(a.content.error, [], 0)
    else
      && Covered(g, a)
      && match c
         case Reading(size) => h == f && Reads(a, b, size, ans)
         case Writing(data) =>
           if !a.canWrite then h == f && b == a && ans == Answer(Denied, [], 0)
           else Stretched(f, a.chain, h, b.chain) && (Fails(a, b, h, ans) || Writes(g, a, h, b, data, ans))
         case Seeking(ofs) =>
           Stretched(f, a.chain, h, b.chain) && (Fails(a, b, h, ans) || Moves(g, a, h, b, ofs, ans))
         case Cutting => Cuts(g, f, a, h, b, ans)
  }

  // ------------------------------------------------------------------- runs

  /** A call on the k-th file. */
  datatype Event = Event(k: nat, call: Call)

  /** The event does to its own file what it would do to a file alone, and nothing to the others. */
  ghost predicate Happens(g: Geometry, e: Event, a: World, b: World, ans: Answer) {
    && e.k < |a.files| == |b.files| && b.files == a.files[e.k := b.files[e.k]]
    && Does(g, e.call, a.fat, a.files[e.k], b.fat, b.files[e.k], ans)
  }

  ghost predicate History(g: Geometry, es: seq<Event>, hist: seq<World>, answers: seq<Answer>) {
    && |answers| <= |es| && |hist| == |answers| + 1
    && forall t :: 0 <= t < |answers| ==> Happens(g, es[t], hist[t], hist[t + 1], answers[t])
  }

  // ----------------------------------------------------------- free clusters

  lemma {:induction false} SameZeros(f: Table, h: Table, k: nat)
    requires |f| == |h| && k <= |f| && forall c :: IsCluster(f, c) ==> (f[c] == 0 <==> h[c] == 0)
    ensures FreeBelow(f, k) == FreeBelow(h, k)
  {
    if k > 2 {
      SameZeros(f, h, k - 1);
    }
  }

  /** Every cluster taken is one less that is free. */
  lemma {:induction false} TakenCount(f: Table, h: Table, zs: seq<nat>)
    requires |f| == |h| && Distinct(zs) && forall c :: c in zs ==> IsCluster(f, c) && f[c] == 0 && h[c] != 0
    requires forall c :: IsCluster(f, c) && c !in zs ==> (f[c] == 0 <==> h[c] == 0)
    ensures FreeCount(f) == FreeCount(h) + |zs|
    decreases |zs|
  {
    if zs == [] {
      SameZeros(f, h, |f|);
    } else {
      var n := |zs| - 1;
      var z := zs[n];
      assert z in zs;
      FreeCountUpdate(f, z, 2);
      assert forall c :: c in zs[..n] ==> c in zs && c != z;
      assert forall c :: c in zs && c != z ==> c in zs[..n];
      TakenCount(f[z := 2], h, zs[..n]);
    }
  }

  lemma StretchCount(f: Table, xs: seq<nat>, h: Table, ys: seq<nat>)
    requires Stretched(f, xs, h, ys)
    ensures FreeCount(f) == FreeCount(h) + (|ys| - |xs|)
  {
    var zs := ys[|xs|..];
    assert ys == xs + zs;
    if ys != [] {
      ChainDistinct(h, ys);
    }
    forall c | c in ys
      ensures IsCluster(h, c) && h[c] != 0
    {
      ChainMember(h, ys, c);
    }
    forall c | c in xs
      ensures IsCluster(f, c) && f[c] != 0
    {
      ChainMember(f, xs, c);
    }
    TakenCount(f, h, zs);
  }

  lemma CutCount(f: Table, h: Table, xs: seq<nat>, k: nat)
    requires TailFreed(f, h, xs, k) && (xs == [] || IsChain(f, xs))
    ensures FreeCount(h) == FreeCount(f) + (|xs| - k)
  {
    var zs := xs[k..];
    assert xs == xs[..k] + zs;
    if xs != [] {
      ChainDistinct(f, xs);
    }
    forall c | c in xs
      ensures IsCluster(f, c) && f[c] != 0
    {
      ChainMember(f, xs, c);
    }
    forall c | c in xs[..k]
      ensures h[c] != 0
    {
      ChainMember(h, xs[..k], c);
    }
    TakenCount(h, f, zs);
  }

  /** A call moves clusters between the file and the free ones. */
  lemma CallConserves(g: Geometry, c: Call, f: Table, a: Part, h: Table, b: Part, ans: Answer)
    requires Does(g, c, f, a, h, b, ans)
    ensures FreeCount(f) + |a.chain| == FreeCount(h) + |b.chain|
  {
    hide FreeCount;
    if a.content.Open? {
      if (c.Writing? && a.canWrite) || c.Seeking? {
        StretchCount(f, a.chain, h, b.chain);
      } else if c.Cutting? && h != f {
        CutCount(f, h, a.chain, ClustersFor(g, a.content.pos));
      }
    }
  }

  // --------------------------------------------------- how far a call gets

  /** No call makes an error mark. */
  lemma NoMarkStays(g: Geometry, c: Call, f: Table, a: Part, h: Table, b: Part, ans: Answer)
    requires Does(g, c, f, a, h, b, ans) && NoErrorMark(f)
    ensures NoErrorMark(h)
  {
    forall c | IsCluster(h, c)
      ensures h[c] != 1
    {
      if c in b.chain && h != f {
        ChainMember(h, b.chain, c);
      } else if c in a.chain && h != f {
        assert a.chain == b.chain + a.chain[|b.chain|..];
      }
    }
  }

  /** A file that cannot go on at p needs more clusters for any position behind p than it has. */
  lemma StuckNeedsMore(g: Geometry, b: Part, h: Table, p: nat, q: nat)
    requires g.csize > 0 && Stuck(g, b, h, p) && p < q
    ensures FreeCount(h) == 0 && ClustersFor(g, q) > |b.chain|
  {
    ClustersForMore(g, p + 1, q);
    DivNonNeg(p / 512, g.csize);
    NoneCounted(h, |h|);
  }

  lemma {:induction false} NoneCounted(h: Table, k: nat)
    requires NoneFree(h) && k <= |h|
    ensures FreeBelow(h, k) == 0
  {
    if k > 2 {
      NoneCounted(h, k - 1);
    }
  }

  /**
  On a volume without error marks f_write writes all bytes exactly if the file's clusters and the
  free ones are enough for them.
  */
  lemma WriteCompletes(g: Geometry, data: seq<Byte>, f: Table, a: Part, h: Table, b: Part, ans: Answer)
    requires Does(g, Writing(data), f, a, h, b, ans) && a.content.Open? && a.canWrite && NoErrorMark(f)
    requires a.content.pos + |data| < WORD32
    ensures g.csize > 0 && ans.res == OK
    ensures ans.count == |data| <==> ClustersFor(g, a.content.pos + |data|) <= |a.chain| + FreeCount(f)
  {
    hide Stuck, ClustersFor, FreeCount, Stretched, Overwrite;
    var p := a.content.pos;
    NoMarkStays(g, Writing(data), f, a, h, b, ans);
    CallConserves(g, Writing(data), f, a, h, b, ans);
    if ans.count < |data| {
      StuckNeedsMore(g, b, h, p + ans.count, p + |data|);
    }
  }

  /** Likewise f_lseek reaches its target exactly if there are clusters enough up to it. */
  lemma SeekCompletes(g: Geometry, ofs: nat, f: Table, a: Part, h: Table, b: Part, ans: Answer)
    requires Does(g, Seeking(ofs), f, a, h, b, ans) && a.content.Open? && NoErrorMark(f)
    ensures g.csize > 0 && ans.res == OK && b.content.Open?
    ensures b.content.pos == Target(a, ofs) <==> ClustersFor(g, Target(a, ofs)) <= |a.chain| + FreeCount(f)
  {
    hide Stuck, ClustersFor, FreeCount, Stretched;
    NoMarkStays(g, Seeking(ofs), f, a, h, b, ans);
    CallConserves(g, Seeking(ofs), f, a, h, b, ans);
    if b.content.pos < Target(a, ofs) {
      StuckNeedsMore(g, b, h, b.content.pos, Target(a, ofs));
    }
  }

  // ------------------------------------------------------------- whole runs

  function Chains(files: seq<Part>): (cs: seq<seq<nat>>)
    ensures |cs| == |files| && forall i :: 0 <= i < |files| ==> cs[i] == files[i].chain
  {
    seq(|files|, i requires 0 <= i < |files| => files[i].chain)
  }

  /** Clusters free or in an open file. */
  function Room(w: World): nat {
    FreeCount(w.fat) + Total(Chains(w.files))
  }

  lemma EventConserves(g: Geometry, e: Event, a: World, b: World, ans: Answer)
    requires Happens(g, e, a, b, ans)
    ensures Room(b) == Room(a)
  {
    hide FreeCount, Total, Does;
    var k := e.k;
    CallConserves(g, e.call, a.fat, a.files[k], b.fat, b.files[k], ans);
    TotalUpdate(Chains(a.files), k, b.files[k].chain);
    assert Chains(b.files) == Chains(a.files)[k := b.files[k].chain];
  }

  /** Over a whole history no cluster is lost or made. */
  lemma {:induction false} HistoryConserves(g: Geometry, es: seq<Event>, hist: seq<World>, answers: seq<Answer>, t: nat)
    requires History(g, es, hist, answers) && t <= |answers|
    ensures Room(hist[t]) == Room(hist[0])
  {
    hide Happens, Room;
    if t > 0 {
      HistoryConserves(g, es, hist, answers, t - 1);
      EventConserves(g, es[t - 1], hist[t - 1], hist[t], answers[t - 1]);
    }
  }

  predicate NoneFailed(files: seq<Part>) {
    forall i :: 0 <= i < |files| ==> files[i].content.Open?
  }

  /** Without error marks no call of a history fails. */
  lemma {:induction false} HistoryNeverFails(g: Geometry, es: seq<Event>, hist: seq<World>, answers: seq<Answer>, t: nat)
    requires History(g, es, hist, answers) && t <= |answers| && NoErrorMark(hist[0].fat) && NoneFailed(hist[0].files)
    ensures NoErrorMark(hist[t].fat) && NoneFailed(hist[t].files)
  {
    hide NoErrorMark, Stretched, Writes, Moves, Cuts;
    if t > 0 {
      HistoryNeverFails(g, es, hist, answers, t - 1);
      var e, a, b, ans := es[t - 1], hist[t - 1], hist[t], answers[t - 1];
      assert Happens(g, e, a, b, ans);
      NoMarkStays(g, e.call, a.fat, a.files[e.k], b.fat, b.files[e.k], ans);
      StaysOpen(g, e.call, a.fat, a.files[e.k], b.fat, b.files[e.k], ans);
    }
  }

  lemma StaysOpen(g: Geometry, c: Call, f: Table, a: Part, h: Table, b: Part, ans: Answer)
    requires Does(g, c, f, a, h, b, ans) && NoErrorMark(h) && a.content.Open?
    ensures b.content.Open?
  {
    hide NoErrorMark, Stretched;
  }
}
