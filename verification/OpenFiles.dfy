/**
Several files open on one volume: in whatever order they are read, written, sought and cut,
each file behaves as if it were alone.
*/
module OpenFiles {
  import opened Bits
  import opened Layout
  import opened FatMap
  import opened FatRuns
  import opened Volume
  import opened Allocator
  import opened FileView
  import opened FileObject
  import opened FileWrite
  import opened FileRead
  import opened FileSeek
  import opened FileTruncate
  import opened FileWorld

  ghost function PartOf(q: Fil): Part
    reads q, q.buf, q.fs, q.fs.win
  {
    Part(q.ToUser(), q.chain, q.canRead, q.canWrite)
  }

  lemma Opens(q: Fil)
    requires q.Standing()
    ensures Forward(q.fs.g, q.Around(), q.Around()) && q.Base()
    ensures if q.err != OK then q.ToUser() == Failed(q.err)
            else q.Valid() && q.ToUser() == Open(q.Contents(), q.fptr) && Covered(q.fs.g, PartOf(q))
  {
    hide FatOf, HealthOf, Forward, Bytes, OnDrive, Good, Sound, IsChain, InFat, Owns, AtHome;
    ForwardRefl(q.fs.g, q.Around());
    TopIndex(q.fs.g);
  }

  /** The FAT can only change where its history does. */
  lemma FatIsLast(fs: FatFs)
    requires fs.Valid()
    ensures |fs.trace| > 0 && fs.Fat() == fs.trace[|fs.trace| - 1]
  {
    hide FatOf;
  }

  lemma ForwardStretched(q: Fil, s: Setting)
    requires q.Base() && Forward(q.fs.g, s, q.Around()) && (s.chain == [] || IsChain(s.fat, s.chain))
    ensures Stretched(s.fat, s.chain, q.fs.Fat(), q.chain)
  {
    hide FatOf, Mapped, OthersKept, TakenFree, Elsewhere, InFat, IsChain, Owns;
  }

  lemma HomeStays(g: Geometry, a: Setting, b: Setting)
    requires Forward(g, a, b)
    ensures Mapped(g, a.chain) && Mapped(g, b.chain) && (AtHome(g, a) ==> AtHome(g, b))
  {
  }

  // --------------------------------------------------------------- one file

  lemma WriteDoes(q: Fil, f: Table, a: Part, data: seq<Byte>, res: FResult, bw: nat)
    requires q.Base() && Covered(q.fs.g, a) && a.canWrite == q.canWrite == true && a.canRead == q.canRead
    requires WriteDone(q, res, bw, a.content.bytes, a.content.pos, data)
    requires Tight(q.fs.g, |a.chain|, q.chain, q.fptr) && Stretched(f, a.chain, q.fs.Fat(), q.chain)
    ensures Does(q.fs.g, Writing(data), f, a, q.fs.Fat(), PartOf(q), Answer(res, [], bw))
  {
    hide Overwrite, Fil.Valid, Stretched, NoneFree, NoErrorMark, FatOf, AtEnd, ClustersFor;
    if res == OK {
      assert q.ToUser() == Open(Overwrite(a.content.bytes, a.content.pos, data[..bw]), a.content.pos + bw);
    }
  }

  lemma SeekDoes(q: Fil, f: Table, a: Part, ofs: nat, res: FResult)
    requires q.Base() && Covered(q.fs.g, a) && a.canWrite == q.canWrite && a.canRead == q.canRead
    requires SeekDone(q, res, a.content.bytes, Target(a, ofs))
    requires res == OK ==> Tight(q.fs.g, |a.chain|, q.chain, q.fptr)
    requires Stretched(f, a.chain, q.fs.Fat(), q.chain)
    ensures Does(q.fs.g, Seeking(ofs), f, a, q.fs.Fat(), PartOf(q), Answer(res, [], 0))
  {
    hide FatOf, Sound, IsChain, Owns, InFat, Bytes, Stretched, NoneFree, NoErrorMark, ClustersFor;
    if res == OK && q.fptr < q.fsize {
      HoldsBelow(q.View(), q.fptr, q.fsize);
    }
  }

  method TurnRead(q: Fil, size: nat) returns (ans: Answer)
    requires q.Standing() && InWord(Reading(size))
    modifies q, q.buf, q.fs, q.fs.win
    ensures q.Standing() && Forward(q.fs.g, old(q.Around()), q.Around())
    ensures Does(q.fs.g, Reading(size), old(q.fs.Fat()), old(PartOf(q)), q.fs.Fat(), PartOf(q), ans)
  {
    hide FatOf, HealthOf, Forward, ByteAt, Bytes, OnDrive, Good, Holds, Mapped, FatFits, Sound, IsChain, InFat,
      NoErrorMark, Overwrite, SectorAt, Lba, IsPow2, Owns, NoneFree, Clipped, AtHome, FatFs.Ordered, Stretched, Tight, Covered;
    Opens(q);
    ghost var f, a, s := q.fs.Fat(), PartOf(q), q.Around();
    FatIsLast(q.fs);
    var res, data := Read(q, size);
    ans := Answer(res, data, 0);
    FatIsLast(q.fs);
    HomeStays(q.fs.g, s, q.Around());
  }

  method TurnWrite(q: Fil, data: seq<Byte>) returns (ans: Answer)
    requires q.Standing() && InWord(Writing(data))
    modifies q, q.buf, q.fs, q.fs.win
    ensures q.Standing() && Forward(q.fs.g, old(q.Around()), q.Around())
    ensures Does(q.fs.g, Writing(data), old(q.fs.Fat()), old(PartOf(q)), q.fs.Fat(), PartOf(q), ans)
  {
    hide FatOf, HealthOf, Forward, ByteAt, Bytes, OnDrive, Good, Holds, Mapped, FatFits, Sound, IsChain, InFat,
      NoErrorMark, Overwrite, SectorAt, Lba, IsPow2, Owns, NoneFree, Clipped, AtHome, FatFs.Ordered, Stretched, Tight, Covered;
    Opens(q);
    ghost var f, a, s := q.fs.Fat(), PartOf(q), q.Around();
    ghost var on := q.err == OK && q.canWrite;
    var res, bw := Write(q, data);
    ans := Answer(res, [], bw);
    if on {
      ForwardStretched(q, s);
      WriteDoes(q, f, a, data, res, bw);
    }
    HomeStays(q.fs.g, s, q.Around());
  }

  method TurnSeek(q: Fil, ofs: nat) returns (ans: Answer)
    requires q.Standing() && InWord(Seeking(ofs))
    modifies q, q.buf, q.fs, q.fs.win
    ensures q.Standing() && Forward(q.fs.g, old(q.Around()), q.Around())
    ensures Does(q.fs.g, Seeking(ofs), old(q.fs.Fat()), old(PartOf(q)), q.fs.Fat(), PartOf(q), ans)
  {
    hide FatOf, HealthOf, Forward, ByteAt, Bytes, OnDrive, Good, Holds, Mapped, FatFits, Sound, IsChain, InFat,
      NoErrorMark, Overwrite, SectorAt, Lba, IsPow2, Owns, NoneFree, Clipped, AtHome, FatFs.Ordered, Stretched, Tight, Covered;
    Opens(q);
    ghost var f, a, s := q.fs.Fat(), PartOf(q), q.Around();
    ghost var on := q.err == OK;
    var res := Seek(q, ofs);
    ans := Answer(res, [], 0);
    if on {
      ForwardStretched(q, s);
      SeekDoes(q, f, a, ofs, res);
    }
    HomeStays(q.fs.g, s, q.Around());
  }

  /** One read, write or seek on one file. */
  method Turn(q: Fil, c: Call) returns (ans: Answer)
    requires q.Standing() && InWord(c) && !c.Cutting?
    modifies q, q.buf, q.fs, q.fs.win
    ensures q.Standing() && Forward(q.fs.g, old(q.Around()), q.Around())
    ensures Does(q.fs.g, c, old(q.fs.Fat()), old(PartOf(q)), q.fs.Fat(), PartOf(q), ans)
  {
    hide *;
    match c
    case Reading(size) => ans := TurnRead(q, size);
    case Writing(data) => ans := TurnWrite(q, data);
    case Seeking(ofs) => ans := TurnSeek(q, ofs);
  }

  lemma BackwardRefl(g: Geometry, a: Setting)
    requires Mapped(g, a.chain) && |a.fat| == g.nFatEnt
    ensures Backward(g, a, a)
  {
  }

  lemma CutBackward(q: Fil, c: seq<Byte>, a: Setting)
    requires CutDone(q, c, a) && a.dsect == q.dsect && |a.fat| == q.fs.g.nFatEnt
    ensures Backward(q.fs.g, a, q.Around())
  {
    hide FatOf, Sound, IsChain, Elsewhere, InFat, Bytes, Owns;
  }

  lemma CutDoes(q: Fil, a: Part, s: Setting)
    requires Covered(q.fs.g, a) && a.canWrite == q.canWrite == true && a.canRead == q.canRead
    requires CutDone(q, a.content.bytes, s) && s.chain == a.chain && (s.chain == [] || IsChain(s.fat, s.chain))
    requires q.err == OK && q.fptr == a.content.pos < |a.content.bytes|
    ensures Does(q.fs.g, Cutting, s.fat, a, q.fs.Fat(), PartOf(q), Answer(OK, [], 0))
  {
    hide FatOf, Sound, IsChain, Elsewhere, InFat, Bytes, Owns, Mapped, TailFreed, ClustersFor;
  }

  /** A buffer not in use, or for a position inside a sector, is a buffer of the file. */
  lemma HomeCases(q: Fil)
    requires q.Base()
    ensures q.dsect == 0 || (q.Valid() && q.fptr % 512 != 0) ==> AtHome(q.fs.g, q.Around())
  {
    hide FatOf, Sound, IsChain, InFat, Bytes;
  }

  /** A cut at a sector boundary: the buffer may stand for a sector that was given up. */
  predicate Boundary(a: Part, b: Part) {
    a.content.Open? && b.content.Open? && |b.content.bytes| < |a.content.bytes| && b.content.pos % 512 == 0
  }

  /** Nothing links to the first cluster of a file that is cut to nothing. */
  ghost predicate Unlinked(c: Call, f: Table, a: Part) {
    c.Cutting? && a.content.Open? && a.content.pos == 0 && a.chain != [] ==> NoLinkTo(f, a.chain[0])
  }

  /** f_truncate on one file; home: the buffer is the file's for certain. */
  method TurnCut(q: Fil) returns (ans: Answer, home: bool)
    requires q.Standing()
    modifies q, q.fs, q.fs.win
    ensures q.Base() && (q.err == OK ==> q.Valid()) && Backward(q.fs.g, old(q.Around()), q.Around())
    ensures if home then AtHome(q.fs.g, q.Around()) else Boundary(old(PartOf(q)), PartOf(q))
    ensures Does(q.fs.g, Cutting, old(q.fs.Fat()), old(PartOf(q)), q.fs.Fat(), PartOf(q), ans)
    ensures NoWorseIf(Unlinked(Cutting, old(q.fs.Fat()), old(PartOf(q))), old(HealthOf(q.fs)), HealthOf(q.fs))
  {
    hide FatOf, HealthOf, ByteAt, Bytes, OnDrive, Good, Holds, Mapped, FatFits, Sound, IsChain, InFat, Lba, IsPow2, Owns,
      TailFreed, Elsewhere, Forward, FatFs.Ordered, Backward, AtHome, NoLinkTo;
    Opens(q);
    ghost var a, s := PartOf(q), q.Around();
    BackwardRefl(q.fs.g, s);
    var cut := q.err == OK && q.canWrite && q.fptr < q.fsize;
    var res := Truncate(q);
    ans := Answer(res, [], 0);
    home := !cut || q.fptr % 512 != 0 || q.dsect == 0;
    if cut {
      CutBackward(q, a.content.bytes, s);
      CutDoes(q, a, s);
      HomeCases(q);
    }
  }

  // ---------------------------------------------------------- several files

  /** Open files of one volume, each with clusters and a buffer of its own. */
  ghost predicate Apart(fs: FatFs, files: seq<Fil>)
    reads files, set q | q in files :: q.buf, fs, fs.win
  {
    && fs.Valid() && (forall i :: 0 <= i < |files| ==> files[i].fs == fs && files[i].Standing())
    && Distinctly(files)
  }

  ghost predicate Distinctly(files: seq<Fil>)
    reads files
  {
    forall i, j :: 0 <= i < |files| && 0 <= j < |files| && i != j ==>
      files[i] != files[j] && files[i].buf != files[j].buf && Disjoint(files[i].chain, files[j].chain)
  }

  /** The same, but the buffer of the k-th file may stand for a sector it gave up. */
  ghost predicate ApartBut(fs: FatFs, files: seq<Fil>, k: nat)
    reads files, set q | q in files :: q.buf, fs, fs.win
  {
    && fs.Valid() && k < |files| && (forall i :: 0 <= i < |files| ==> files[i].fs == fs)
    && (forall i :: 0 <= i < |files| && i != k ==> files[i].Standing())
    && files[k].Base() && (files[k].err == OK ==> files[k].Valid())
    && Distinctly(files)
  }

  lemma DisjointAgain(xs: seq<nat>, ys: seq<nat>)
    requires Disjoint(xs, ys)
    ensures Disjoint(ys, xs)
  {
  }

  lemma ForwardHealth(g: Geometry, a: Setting, b: Setting)
    requires Forward(g, a, b)
    ensures NoWorseIf(true, a.health, b.health)
  {
  }

  /** A read, write or seek on the k-th of several files: the others do not notice. */
  method Go(fs: FatFs, files: seq<Fil>, k: nat, c: Call) returns (ans: Answer)
    requires Apart(fs, files) && k < |files| && InWord(c) && !c.Cutting?
    modifies files[k], files[k].buf, fs, fs.win
    ensures Apart(fs, files)
    ensures Does(fs.g, c, old(fs.Fat()), old(PartOf(files[k])), fs.Fat(), PartOf(files[k]), ans)
    ensures forall i :: 0 <= i < |files| && i != k ==> PartOf(files[i]) == old(PartOf(files[i]))
    ensures NoWorseIf(true, old(HealthOf(fs)), HealthOf(fs))
  {
    hide FatOf, Sound, Mapped, IsChain, OthersKept, Elsewhere, InFat, OnDrive, AllSafe, MirrorsAgree, Owns, AtHome,
      Forward, Fil.ToUser, Fil.Valid, HealthOf, Disjoint, Does, InWord, NoWorseIf;
    ghost var a := files[k].Around();
    ans := Turn(files[k], c);
    ForwardHealth(fs.g, a, files[k].Around());
    forall i | 0 <= i < |files| && i != k
      ensures files[i].Standing() && PartOf(files[i]) == old(PartOf(files[i]))
      ensures Disjoint(files[i].chain, files[k].chain) && Disjoint(files[k].chain, files[i].chain)
    {
      files[i].Bystander(files[k]);
      DisjointAgain(files[i].chain, files[k].chain);
    }
  }

  /** f_truncate on the k-th of several files: the others do not notice. */
  method Cut(fs: FatFs, files: seq<Fil>, k: nat) returns (ans: Answer, home: bool)
    requires Apart(fs, files) && k < |files|
    modifies files[k], fs, fs.win
    ensures ApartBut(fs, files, k)
    ensures if home then Apart(fs, files) else Boundary(old(PartOf(files[k])), PartOf(files[k]))
    ensures Does(fs.g, Cutting, old(fs.Fat()), old(PartOf(files[k])), fs.Fat(), PartOf(files[k]), ans)
    ensures forall i :: 0 <= i < |files| && i != k ==> PartOf(files[i]) == old(PartOf(files[i]))
    ensures NoWorseIf(Unlinked(Cutting, old(fs.Fat()), old(PartOf(files[k]))), old(HealthOf(fs)), HealthOf(fs))
  {
    hide FatOf, Sound, Mapped, IsChain, OthersKept, Elsewhere, InFat, OnDrive, AllSafe, MirrorsAgree, Owns, AtHome,
      Backward, Fil.ToUser, Fil.Valid, HealthOf, Disjoint, Does, NoWorseIf, Unlinked, Boundary;
    ans, home := TurnCut(files[k]);
    forall i | 0 <= i < |files| && i != k
      ensures files[i].Standing() && PartOf(files[i]) == old(PartOf(files[i]))
      ensures Disjoint(files[i].chain, files[k].chain) && Disjoint(files[k].chain, files[i].chain)
    {
      files[i].CutBystander(files[k]);
      DisjointAgain(files[i].chain, files[k].chain);
    }
  }

  /** One call on the k-th of several files. */
  method Step(fs: FatFs, files: seq<Fil>, k: nat, c: Call) returns (ans: Answer, home: bool)
    requires Apart(fs, files) && k < |files| && InWord(c)
    modifies files[k], files[k].buf, fs, fs.win
    ensures ApartBut(fs, files, k)
    ensures if home then Apart(fs, files) else c.Cutting? && Boundary(old(PartOf(files[k])), PartOf(files[k]))
    ensures Does(fs.g, c, old(fs.Fat()), old(PartOf(files[k])), fs.Fat(), PartOf(files[k]), ans)
    ensures forall i :: 0 <= i < |files| && i != k ==> PartOf(files[i]) == old(PartOf(files[i]))
    ensures NoWorseIf(Unlinked(c, old(fs.Fat()), old(PartOf(files[k]))), old(HealthOf(fs)), HealthOf(fs))
  {
    hide FatOf, OnDrive, HealthOf, Does, Disjoint, PartOf, Fil.Valid, FatFs.Ordered, Fil.Base, Boundary, AtHome, NoLinkTo;
    if c.Cutting? {
      ans, home := Cut(fs, files, k);
    } else {
      ans := Go(fs, files, k, c);
      home := true;
    }
  }

  // ------------------------------------------------------------------- runs

  ghost predicate Shows(fs: FatFs, files: seq<Fil>, w: World)
    requires fs.Valid()
    reads files, set q | q in files :: q.buf, set q | q in files :: q.fs, set q | q in files :: q.fs.win, fs, fs.win
  {
    w.fat == fs.Fat() && |w.files| == |files| && forall i :: 0 <= i < |files| ==> PartOf(files[i]) == w.files[i]
  }

  /** No file is cut to nothing while something links to its first cluster. */
  ghost predicate AllUnlinked(es: seq<Event>, hist: seq<World>, n: nat)
    requires n <= |es| && n <= |hist|
  {
    forall t :: 0 <= t < n ==> es[t].k < |hist[t].files| && Unlinked(es[t].call, hist[t].fat, hist[t].files[es[t].k])
  }

  lemma NoWorseTrans(x: bool, y: bool, z: bool, a: Health, b: Health, c: Health)
    requires NoWorseIf(x, a, b) && NoWorseIf(y, b, c) && (z ==> x && y)
    ensures NoWorseIf(z, a, c)
  {
  }

  ghost predicate CutAtBoundary(es: seq<Event>, hist: seq<World>, t: nat) {
    && t < |es| && t + 1 < |hist| && es[t].call.Cutting?
    && es[t].k < |hist[t].files| == |hist[t + 1].files|
    && Boundary(hist[t].files[es[t].k], hist[t + 1].files[es[t].k])
  }

  /** The history grows by the step just made. */
  lemma HistoryGrows(g: Geometry, es: seq<Event>, hist: seq<World>, answers: seq<Answer>, b: World, ans: Answer)
    requires History(g, es, hist, answers) && |answers| < |es|
    requires Happens(g, es[|answers|], hist[|answers|], b, ans)
    ensures History(g, es, hist + [b], answers + [ans])
    ensures AllUnlinked(es, hist + [b], |answers| + 1) <==>
              AllUnlinked(es, hist, |answers|) && Unlinked(es[|answers|].call, hist[|answers|].fat, hist[|answers|].files[es[|answers|].k])
  {
    hide Does, Unlinked;
    var n := |answers|;
    forall t | 0 <= t < n + 1
      ensures Happens(g, es[t], (hist + [b])[t], (hist + [b])[t + 1], (answers + [ans])[t])
    {
    }
    assert es[n].k < |hist[n].files|;
    assert forall t :: 0 <= t < n + 1 ==> (hist + [b])[t] == hist[t];
  }

  /** What has been done so far: the calls of es answered, the history they show, and where it stands. */
  ghost predicate Running(fs: FatFs, files: seq<Fil>, es: seq<Event>, answers: seq<Answer>, hist: seq<World>, home: bool,
      health: Health)
    reads files, set q | q in files :: q.buf, set q | q in files :: q.fs, set q | q in files :: q.fs.win, fs, fs.win
  {
    && fs.Valid() && History(fs.g, es, hist, answers) && Shows(fs, files, hist[|answers|])
    && (if home then Apart(fs, files) else |answers| > 0 && CutAtBoundary(es, hist, |answers| - 1))
    && (|answers| > 0 ==> ApartBut(fs, files, es[|answers| - 1].k))
    && NoWorseIf(AllUnlinked(es, hist, |answers|), health, HealthOf(fs))
  }

  /** The next call of a run. */
  method RunNext(fs: FatFs, files: seq<Fil>, es: seq<Event>, answers: seq<Answer>, ghost hist: seq<World>, ghost health: Health)
    returns (ans: Answer, home: bool, ghost b: World)
    requires Running(fs, files, es, answers, hist, true, health) && |answers| < |es|
    requires es[|answers|].k < |files| && InWord(es[|answers|].call)
    modifies files, set q | q in files :: q.buf, fs, fs.win
    ensures Running(fs, files, es, answers + [ans], hist + [b], home, health)
  {
    hide Fil.Standing, PartOf, HealthOf, Does, FatOf, Disjoint, OnDrive, FatFs.Ordered, AllUnlinked, Unlinked,
      Boundary, NoWorseIf, Fil.Base, Fil.Valid;
    var e := es[|answers|];
    ghost var a, m := hist[|answers|], HealthOf(fs);
    ans, home := Step(fs, files, e.k, e.call);
    b := World(a.files[e.k := PartOf(files[e.k])], fs.Fat());
    HistoryGrows(fs.g, es, hist, answers, b, ans);
    NoWorseTrans(AllUnlinked(es, hist, |answers|), Unlinked(e.call, a.fat, a.files[e.k]),
      AllUnlinked(es, hist + [b], |answers| + 1), health, m, HealthOf(fs));
  }

  /**
  Any interleaving of reads, writes, seeks and truncations on any number of open files. It shows a
  history in which every call changes its own file as if it were alone, and no other, and
  which ends in the contents, clusters and FAT the volume has. It stops early only behind a cut at a
  sector boundary, when the buffer of the file cut is not to be trusted any more.
  */
  method Run(fs: FatFs, files: seq<Fil>, es: seq<Event>, ghost start: World)
    returns (answers: seq<Answer>, ghost hist: seq<World>)
    requires Apart(fs, files) && Shows(fs, files, start)
    requires forall t :: 0 <= t < |es| ==> es[t].k < |files| && InWord(es[t].call)
    modifies files, set q | q in files :: q.buf, fs, fs.win
    ensures fs.Valid() && History(fs.g, es, hist, answers) && hist[0] == start && Shows(fs, files, hist[|answers|])
    ensures Apart(fs, files) || (|answers| > 0 && CutAtBoundary(es, hist, |answers| - 1))
    ensures |answers| < |es| ==> |answers| > 0 && CutAtBoundary(es, hist, |answers| - 1)
    ensures |answers| > 0 ==> ApartBut(fs, files, es[|answers| - 1].k)
    ensures NoWorseIf(AllUnlinked(es, hist, |answers|), old(HealthOf(fs)), HealthOf(fs))
  {
    hide Shows, HealthOf, Happens, FatOf, AllUnlinked, CutAtBoundary, Apart, ApartBut, NoWorseIf, InWord, FatFs.Valid;
    answers, hist := [], [start];
    ghost var h := RunStarts(fs, files, es, start);
    var home := true;
    while |answers| < |es| && home
      invariant Running(fs, files, es, answers, hist, home, h)
      invariant |answers| <= |es| && |hist| == |answers| + 1 && hist[0] == start
      decreases |es| - |answers|
    {
      var ans;
      ghost var b;
      ans, home, b := RunNext(fs, files, es, answers, hist, h);
      answers, hist := answers + [ans], hist + [b];
    }
  }

  lemma RunStarts(fs: FatFs, files: seq<Fil>, es: seq<Event>, start: World) returns (h: Health)
    requires Apart(fs, files) && Shows(fs, files, start)
    ensures fs.Valid() && h == HealthOf(fs) && Running(fs, files, es, [], [start], true, h)
  {
    hide HealthOf, Fil.Standing, PartOf, FatOf, Disjoint;
    h := HealthOf(fs);
    HistoryStart(fs.g, es, start, h);
  }

  lemma HistoryStart(g: Geometry, es: seq<Event>, start: World, h: Health)
    ensures History(g, es, [start], []) && AllUnlinked(es, [start], 0) && NoWorseIf(true, h, h)
  {
  }

  // ------------------------------------------------------- the stale buffer

  /** A FAT12 volume with two clusters of one sector, numbers 3 and 4 of the drive. */
  function SmallVolume(): Geometry {
    Geometry(Fat12, 1, 1, 16, 4, 1, 0, 1, 2, 3, 5)
  }

  /**
  Why a run may have to stop behind a cut at a sector boundary: a file of one cluster is cut to
  nothing, another file gets the cluster, writes d there and gives it back, and the first file gets it
  again. Its buffer still stands for the sector, so it is not loaded, and reads as the old sector z.
  */
  lemma StaleRead(z: Sector, d: Sector)
    requires z != d
    ensures var g, img := SmallVolume(), seq(5, _ => z);
      var whole := FileView.View(g, img, [2], 3, false, z);
      var cut := whole.(chain := []);
      var back := whole.(img := img[3 := d]);
      && Good(whole) && Good(cut) && !Owns(g, [], cut.dsect) && Elsewhere(g, [2], img, img[3 := d])
      && Framed(back) && Reaches(g, back.chain, 0) && Lba(g, back.chain, 0) == 3
      && SectorAt(back, 0) == d && Switched(back, 3).buf == z
  {
    var g, img := SmallVolume(), seq(5, _ => z);
    assert Sound(g) && Mapped(g, [2]) && Mapped(g, []);
    assert Reaches(g, [2], 0) && Lba(g, [2], 0) == 3;
    assert Owns(g, [2], 3);
  }
}
