/**
Directory tables of fatfs/src/ff.c: 32-byte entries in the fixed root area of FAT12/16 or
in a cluster chain, where entry i stands, and what stretching the chain leaves alone.
*/
module DirTable {
  import opened Wrappers
  import opened Bits
  import opened Layout
  import opened FatMap
  import opened Volume

  // ------------------------------------------------------------- the cursor

  /** Index, cluster, sector, and offset of the entry in the window. */
  datatype Cursor = Cursor(index: nat, clust: nat, sect: nat, offset: nat)

  /** First cluster of a table: 0 stands for the root directory, which FAT32 keeps in clusters. */
  function Start(g: Geometry, sclust: nat): nat {
    if sclust == 0 && g.fsType.Fat32? then g.dirbase else sclust
  }

  /** The k-th cluster behind start on any FAT, 0 if the walk leaves the cluster numbers. */
  function ClusterNo(f: Table, start: nat, k: nat): (c: nat)
    ensures c == 0 || IsCluster(f, c)
  {
    if k == 0 then (if IsCluster(f, start) then start else 0)
    else
      var c := ClusterNo(f, start, k - 1);
      if c != 0 && IsCluster(f, f[c]) then f[c] else 0
  }

  lemma {:induction false} ClusterNoEnds(f: Table, start: nat, k: nat, m: nat)
    requires k <= m && ClusterNo(f, start, k) == 0
    ensures ClusterNo(f, start, m) == 0
  {
    if k < m {
      ClusterNoEnds(f, start, k, m - 1);
    }
  }

  /** Which cluster of a table entry i lies in, c sectors each, and which sector of it. */
  function ClusterIndex(i: nat, c: nat): nat
    requires c > 0
  {
    i / 16 / c
  }

  function SectorIndex(i: nat, c: nat): nat
    requires c > 0
  {
    i / 16 % c
  }

  /** The cluster entry i lies in, 0 for the fixed root area. */
  function ClusterOf(f: Table, g: Geometry, sclust: nat, i: nat): (c: nat)
    requires g.csize > 0
    ensures c == 0 || IsCluster(f, c)
  {
    if Start(g, sclust) == 0 then 0 else ClusterNo(f, Start(g, sclust), ClusterIndex(i, g.csize))
  }

  /** Does the table have an entry i? */
  predicate HasEntry(f: Table, g: Geometry, sclust: nat, i: nat)
    requires g.csize > 0
  {
    && (sclust == 0 || IsCluster(f, sclust))
    && if Start(g, sclust) == 0 then i < g.nRootDir && g.dirbase != 0 else ClusterOf(f, g, sclust, i) != 0
  }

  function CursorAt(f: Table, g: Geometry, sclust: nat, i: nat): Cursor
    requires Sound(g) && |f| == g.nFatEnt && g.csize > 0 && HasEntry(f, g, sclust, i)
  {
    var c := ClusterOf(f, g, sclust, i);
    if c == 0 then Cursor(i % 0x1_0000, 0, g.dirbase + i / 16, i % 16 * 32)
    else
      ClusterInside(g, c);
      Cursor(i % 0x1_0000, c, ClusterBase(g, c) + SectorIndex(i, g.csize), i % 16 * 32)
  }

  lemma CsizePositive(g: Geometry)
    requires Sound(g)
    ensures g.csize > 0
  {
  }

  /** Entry ofs of the k-th cluster, ic = 16 csize entries each. */
  lemma EntryDigits(i: nat, c: nat, k: nat, ofs: nat)
    requires c > 0 && i == k * (16 * c) + ofs && ofs < 16 * c
    ensures ClusterIndex(i, c) == k && SectorIndex(i, c) == ofs / 16 && i % 16 == ofs % 16
  {
    var q, r := ofs / 16, ofs % 16;
    assert k * (16 * c) == 16 * (k * c) by { Regroup16(k, c); }
    DivModUnique(i, 16, k * c + q, r);
    DivModUnique(k * c + q, c, k, q);
  }

  lemma Regroup16(k: nat, c: nat)
    ensures k * (16 * c) == 16 * (k * c)
  {
  }

  /** Sector j + 1 of a table: the next of the same cluster, or the first of the next cluster. */
  lemma NextDigits(j: nat, c: nat)
    requires c > 0
    ensures if (j + 1) % c == 0 then (j + 1) / c == j / c + 1 && j % c == c - 1
            else (j + 1) / c == j / c && (j + 1) % c == j % c + 1
  {
    DivModOf(j, c);
    var q, r := j / c, j % c;
    if r + 1 < c {
      DivModUnique(j + 1, c, q, r + 1);
    } else {
      assert c * (q + 1) == c * q + c;
      DivModUnique(j + 1, c, q + 1, 0);
    }
  }

  /** No entry beyond a cluster whose successor is no cluster. */
  lemma WalkEnds(f: Table, start: nat, idx: nat, c: nat, k: nat, ofs: nat)
    requires c > 0 && idx == k * (16 * c) + ofs && ofs >= 16 * c && ClusterNo(f, start, k + 1) == 0
    ensures ClusterNo(f, start, ClusterIndex(idx, c)) == 0
  {
    var ic, y := 16 * c, ofs - 16 * c;
    DivModOf(y, ic);
    var q := y / ic;
    assert (k + 1 + q) * ic == k * ic + ic + ic * q by { SpreadSum(k, q, ic); }
    EntryDigits(idx, c, k + 1 + q, y % ic);
    ClusterNoEnds(f, start, k + 1, k + 1 + q);
  }

  lemma SpreadSum(k: nat, q: nat, ic: nat)
    ensures (k + 1 + q) * ic == k * ic + ic + ic * q
  {
  }

  lemma CursorPositive(f: Table, g: Geometry, sclust: nat, i: nat)
    requires Sound(g) && |f| == g.nFatEnt && g.csize > 0 && HasEntry(f, g, sclust, i)
    ensures CursorAt(f, g, sclust, i).sect > 0
  {
    hide IsPow2, EntryEnd;
    var c := ClusterOf(f, g, sclust, i);
    if c != 0 {
      ClusterInside(g, c);
    }
  }

  // --------------------------------------------------------- the next entry

  /** What moving on from entry i comes to, without stretching. */
  function NextResult(f: Table, g: Geometry, sclust: nat, i: nat): FResult
    requires g.csize > 0 && HasEntry(f, g, sclust, i)
  {
    if i + 1 >= 0x1_0000 then NoFile
    else if HasEntry(f, g, sclust, i + 1) then OK
    else if Start(g, sclust) == 0 then NoFile
    else if f[ClusterOf(f, g, sclust, i)] >= |f| then NoFile
    else IntErr
  }

  /** The cursor moved on to index i, as dir_next moves it. */
  function Moved(f: Table, g: Geometry, c: Cursor, i: nat): Option<Cursor>
    requires Sound(g) && |f| == g.nFatEnt && g.csize > 0
  {
    if i % 16 != 0 then Some(c.(index := i % 0x1_0000, offset := i % 16 * 32))
    else if c.clust == 0 then
      if i < g.nRootDir then Some(Cursor(i % 0x1_0000, 0, c.sect + 1, 0)) else None
    else if SectorIndex(i, g.csize) != 0 then Some(Cursor(i % 0x1_0000, c.clust, c.sect + 1, 0))
    else if IsCluster(f, c.clust) && IsCluster(f, f[c.clust]) then
      ClusterInside(g, f[c.clust]);
      Some(Cursor(i % 0x1_0000, f[c.clust], ClusterBase(g, f[c.clust]), 0))
    else None
  }

  lemma NextIndices(i: nat, c: nat)
    requires c > 0
    ensures (i + 1) % 16 != 0 ==>
      (i + 1) / 16 == i / 16 && ClusterIndex(i + 1, c) == ClusterIndex(i, c) && SectorIndex(i + 1, c) == SectorIndex(i, c)
    ensures (i + 1) % 16 == 0 ==> (i + 1) / 16 == i / 16 + 1
    ensures (i + 1) % 16 == 0 && SectorIndex(i + 1, c) != 0 ==>
      ClusterIndex(i + 1, c) == ClusterIndex(i, c) && SectorIndex(i + 1, c) == SectorIndex(i, c) + 1
    ensures (i + 1) % 16 == 0 && SectorIndex(i + 1, c) == 0 ==> ClusterIndex(i + 1, c) == ClusterIndex(i, c) + 1
  {
    NextDigits(i / 16, c);
  }

  /** Moving on entry by entry comes to where the index leads directly. */
  lemma MovedIsNext(f: Table, g: Geometry, sclust: nat, i: nat)
    requires Sound(g) && |f| == g.nFatEnt && g.csize > 0 && HasEntry(f, g, sclust, i)
    ensures Moved(f, g, CursorAt(f, g, sclust, i), i + 1) ==
            if HasEntry(f, g, sclust, i + 1) then Some(CursorAt(f, g, sclust, i + 1)) else None
  {
    assert Start(g, sclust) == 0 && g.dirbase != 0 ==> g.nRootDir % 16 == 0;
    hide Sound, ClusterIndex, SectorIndex;
    NextIndices(i, g.csize);
  }

  /** The test for a cluster boundary. */
  lemma BoundaryTest(i: nat, c: nat)
    requires IsPow2(c)
    ensures c > 0 && And(i / 16, c - 1) == SectorIndex(i, c)
  {
    AndMask(i / 16, c);
  }

  /** When there is a next entry. */
  lemma NextCases(f: Table, g: Geometry, sclust: nat, i: nat)
    requires Sound(g) && |f| == g.nFatEnt && g.csize > 0 && HasEntry(f, g, sclust, i)
    ensures var c := ClusterOf(f, g, sclust, i);
      && (c == 0 <==> Start(g, sclust) == 0)
      && ((i + 1) % 16 != 0 || (c != 0 && SectorIndex(i + 1, g.csize) != 0) ==> HasEntry(f, g, sclust, i + 1))
      && ((i + 1) % 16 == 0 && c == 0 ==> (HasEntry(f, g, sclust, i + 1) <==> i + 1 < g.nRootDir))
      && ((i + 1) % 16 == 0 && c != 0 && SectorIndex(i + 1, g.csize) == 0 ==>
            (HasEntry(f, g, sclust, i + 1) <==> IsCluster(f, f[c])))
  {
    MovedIsNext(f, g, sclust, i);
  }

  /** The first entry of the cluster after that of entry i. */
  lemma FirstOfCluster(f: Table, g: Geometry, sclust: nat, i: nat, c: nat)
    requires Sound(g) && |f| == g.nFatEnt && g.csize > 0 && Start(g, sclust) != 0 && (sclust == 0 || IsCluster(f, sclust))
    requires (i + 1) % 16 == 0 && SectorIndex(i + 1, g.csize) == 0
    requires IsCluster(f, c) && c == ClusterNo(f, Start(g, sclust), ClusterIndex(i, g.csize) + 1)
    ensures HasEntry(f, g, sclust, i + 1)
    ensures CursorAt(f, g, sclust, i + 1).clust == c && CursorAt(f, g, sclust, i + 1).sect == ClusterBase(g, c)
  {
    hide IsPow2, EntryEnd, ClusterNo, ClusterIndex, SectorIndex;
    NextIndices(i, g.csize);
    ClusterInside(g, c);
  }

  lemma ClusterIsWord(g: Geometry, f: Table, c: nat)
    requires Sound(g) && |f| == g.nFatEnt && IsCluster(f, c)
    ensures c < WORD32
  {
  }

  lemma TableStart(f: Table, g: Geometry, sclust: nat, i: nat)
    requires g.csize > 0 && HasEntry(f, g, sclust, i)
    ensures sclust == 0 || IsCluster(f, sclust)
  {
  }

  lemma CursorIndex(f: Table, g: Geometry, sclust: nat, i: nat)
    requires Sound(g) && |f| == g.nFatEnt && g.csize > 0 && HasEntry(f, g, sclust, i)
    ensures CursorAt(f, g, sclust, i).index == i % 0x1_0000 && CursorAt(f, g, sclust, i).offset == i % 16 * 32
  {
    hide IsPow2, EntryEnd;
  }

  /** Inside a sector only the offset moves. */
  lemma SameSectorNext(f: Table, g: Geometry, sclust: nat, i: nat)
    requires Sound(g) && |f| == g.nFatEnt && g.csize > 0 && HasEntry(f, g, sclust, i)
    ensures (i + 1) % 16 != 0 ==>
      && HasEntry(f, g, sclust, i + 1)
      && CursorAt(f, g, sclust, i + 1).clust == CursorAt(f, g, sclust, i).clust
      && CursorAt(f, g, sclust, i + 1).sect == CursorAt(f, g, sclust, i).sect
  {
    hide IsPow2, EntryEnd, ClusterIndex, SectorIndex;
    MovedIsNext(f, g, sclust, i);
    NextCases(f, g, sclust, i);
  }

  lemma FollowedEntry(f: Table, g: Geometry, sclust: nat, i: nat)
    requires Sound(g) && |f| == g.nFatEnt && g.csize > 0 && HasEntry(f, g, sclust, i) && HasEntry(f, g, sclust, i + 1)
    requires (i + 1) % 16 == 0 && SectorIndex(i + 1, g.csize) == 0 && ClusterOf(f, g, sclust, i) != 0
    ensures var c := f[ClusterOf(f, g, sclust, i)];
      IsCluster(f, c) && CursorAt(f, g, sclust, i + 1).clust == c && CursorAt(f, g, sclust, i + 1).sect == ClusterBase(g, c)
  {
    hide IsPow2, EntryEnd, ClusterIndex, SectorIndex;
    MovedIsNext(f, g, sclust, i);
  }

  /** On a well-formed FAT the table is the chain from its start. */
  lemma {:induction false} ChainIsTable(f: Table, xs: seq<nat>, k: nat)
    requires IsChain(f, xs)
    ensures ClusterNo(f, xs[0], k) == if k < |xs| then xs[k] else 0
  {
    if k > 0 {
      ChainIsTable(f, xs, k - 1);
    }
  }

  // ---------------------------------------------------------------- content

  /** The drive and its FAT. */
  datatype Medium = Medium(f: Table, img: Image)

  predicate Sized(g: Geometry, m: Medium) {
    Sound(g) && |m.f| == g.nFatEnt && |m.img| == g.sectors && g.csize > 0
  }

  /** The 32 bytes of entry i. */
  function EntryBytes(g: Geometry, m: Medium, sclust: nat, i: nat): (e: seq<Byte>)
    requires Sized(g, m) && HasEntry(m.f, g, sclust, i)
    ensures |e| == 32
  {
    CursorInside(m.f, g, sclust, i);
    var c := CursorAt(m.f, g, sclust, i);
    m.img[c.sect][c.offset..c.offset + 32]
  }

  lemma CursorInside(f: Table, g: Geometry, sclust: nat, i: nat)
    requires Sound(g) && |f| == g.nFatEnt && g.csize > 0 && HasEntry(f, g, sclust, i)
    ensures CursorAt(f, g, sclust, i).sect < g.sectors && CursorAt(f, g, sclust, i).offset + 32 <= 512
  {
    hide IsPow2, EntryEnd;
    var c := ClusterOf(f, g, sclust, i);
    if c != 0 {
      ClusterInside(g, c);
    }
  }

  /** Deleted or never used. */
  predicate IsBlank(e: seq<Byte>)
    requires |e| == 32
  {
    e[0] == 0xE5 || e[0] == 0
  }

  predicate Blank(g: Geometry, m: Medium, sclust: nat, i: nat)
    requires Sized(g, m)
  {
    HasEntry(m.f, g, sclust, i) && IsBlank(EntryBytes(g, m, sclust, i))
  }

  /** The n entries up to and including e are blank. */
  predicate RunAt(g: Geometry, m: Medium, sclust: nat, e: nat, n: nat)
    requires Sized(g, m)
  {
    n <= e + 1 && forall j: nat :: e + 1 - n <= j <= e ==> Blank(g, m, sclust, j)
  }

  // ------------------------------------------------------------- stretching

  predicate InCluster(g: Geometry, c: nat, s: int) {
    ClusterBase(g, c) <= s < ClusterBase(g, c) + g.csize
  }

  /** Cluster c, free before, is linked behind last and cleared; nothing else changed outside the FAT. */
  ghost predicate Extended(g: Geometry, a: Medium, b: Medium, last: nat, c: nat)
    requires Sized(g, a) && Sized(g, b)
  {
    && IsCluster(a.f, c) && a.f[c] == 0 && IsCluster(a.f, last) && a.f[last] >= |a.f|
    && b.f[last] == c && b.f[c] >= |b.f|
    && (forall d {:trigger b.f[d]} :: IsCluster(a.f, d) && d != c && d != last ==> b.f[d] == a.f[d])
    && (forall s {:trigger b.img[s]} :: 0 <= s < g.sectors && !(g.fatbase <= s < FatEnd(g)) && !InCluster(g, c, s)
          ==> b.img[s] == a.img[s])
    && (forall s {:trigger b.img[s]} :: 0 <= s < g.sectors && InCluster(g, c, s) ==> b.img[s] == Zeros())
  }

  /** A walk passes no free cluster, and ends at the first end mark. */
  lemma {:induction false} WalkUsed(f: Table, start: nat, k: nat)
    requires k > 0 && ClusterNo(f, start, k) != 0
    ensures ClusterNo(f, start, k - 1) != 0 && f[ClusterNo(f, start, k - 1)] == ClusterNo(f, start, k)
  {
  }

  /** The walk reaches the old clusters as before, and then the new one. */
  lemma {:induction false} WalkStretched(g: Geometry, a: Medium, b: Medium, start: nat, k: nat, last: nat, c: nat, j: nat)
    requires Sized(g, a) && Sized(g, b) && Extended(g, a, b, last, c) && ClusterNo(a.f, start, k) == last
    requires IsCluster(a.f, start)
    ensures j <= k ==> ClusterNo(b.f, start, j) == ClusterNo(a.f, start, j) != 0
    ensures j == k + 1 ==> ClusterNo(b.f, start, j) == c && ClusterNo(a.f, start, j) == 0
    ensures j > k + 1 ==> ClusterNo(b.f, start, j) == ClusterNo(a.f, start, j) == 0
  {
    if j > 0 {
      WalkStretched(g, a, b, start, k, last, c, j - 1);
      if j <= k {
        if ClusterNo(a.f, start, j) == 0 {
          ClusterNoEnds(a.f, start, j, k);
        }
        WalkUsed(a.f, start, j);
      }
    }
  }

  ghost predicate OnTable(f: Table, start: nat, c: nat) {
    exists k: nat :: ClusterNo(f, start, k) == c
  }

  /**
   * What searching and stretching a table leave alone: its clusters and their order, the
   * sectors and links of every cluster in use, and everything before the data area but the FAT.
   * Clusters that came to the table were free and are cleared.
   */
  ghost predicate Unharmed(g: Geometry, sclust: nat, a: Medium, b: Medium)
    requires Sized(g, a) && Sized(g, b)
  {
    && TableKept(a.f, b.f, Start(g, sclust)) && LinksKept(a.f, b.f, Start(g, sclust))
    && SectorsKept(g, a, b) && NewCleared(g, a, b, Start(g, sclust))
  }

  ghost predicate TableKept(a: Table, b: Table, start: nat) {
    forall k: nat {:trigger ClusterNo(b, start, k)} :: ClusterNo(a, start, k) != 0 ==> ClusterNo(b, start, k) == ClusterNo(a, start, k)
  }

  ghost predicate LinksKept(a: Table, b: Table, start: nat)
    requires |a| == |b|
  {
    forall c: nat {:trigger b[c]} :: IsCluster(a, c) && a[c] != 0 ==>
      b[c] != 0 && (b[c] == a[c] || (a[c] >= |a| && OnTable(a, start, c)))
  }

  ghost predicate SectorsKept(g: Geometry, a: Medium, b: Medium)
    requires Sized(g, a) && Sized(g, b)
  {
    && (forall s {:trigger b.img[s]} :: 0 <= s < g.database && !(g.fatbase <= s < FatEnd(g)) ==> b.img[s] == a.img[s])
    && forall c: nat, s {:trigger a.f[c], b.img[s]} :: IsCluster(a.f, c) && a.f[c] != 0 && 0 <= s < g.sectors && InCluster(g, c, s)
         ==> b.img[s] == a.img[s]
  }

  /** Sector s, if it is of the k-th cluster and that one is new, is cleared. */
  ghost predicate ClearedAt(g: Geometry, a: Medium, b: Medium, start: nat, k: nat, s: nat)
    requires Sized(g, a) && Sized(g, b)
  {
    var c := ClusterNo(b.f, start, k);
    ClusterNo(a.f, start, k) == 0 && c != 0 && s < g.sectors && InCluster(g, c, s) ==> a.f[c] == 0 && b.img[s] == Zeros()
  }

  ghost predicate NewCleared(g: Geometry, a: Medium, b: Medium, start: nat)
    requires Sized(g, a) && Sized(g, b)
  {
    forall k: nat, s: nat :: ClearedAt(g, a, b, start, k, s)
  }

  lemma UnharmedRefl(g: Geometry, sclust: nat, a: Medium)
    requires Sized(g, a)
    ensures Unharmed(g, sclust, a, a)
  {
  }

  /** Entry i is the last of a table in clusters that ends with an end mark. */
  predicate Extendable(f: Table, g: Geometry, sclust: nat, i: nat)
    requires g.csize > 0 && HasEntry(f, g, sclust, i)
  {
    && i + 1 < 0x1_0000 && !HasEntry(f, g, sclust, i + 1) && Start(g, sclust) != 0
    && f[ClusterOf(f, g, sclust, i)] >= |f|
  }

  lemma InOneCluster(g: Geometry, c: nat, d: nat, s: int)
    requires g.csize > 0 && c != d && InCluster(g, c, s)
    ensures !InCluster(g, d, s)
  {
    if c < d {
      ClustersDisjoint(g, c, d);
    } else {
      ClustersDisjoint(g, d, c);
    }
  }

  /** The situation of a stretch: the table has k + 1 clusters, the last one being last. */
  ghost predicate Stretch(g: Geometry, sclust: nat, a: Medium, b: Medium, k: nat, last: nat, c: nat)
    requires Sized(g, a) && Sized(g, b)
  {
    && Extended(g, a, b, last, c) && IsCluster(a.f, Start(g, sclust))
    && ClusterNo(a.f, Start(g, sclust), k) == last
  }

  /** The outcomes of stretching a table of k + 1 clusters. */
  ghost predicate Extension(g: Geometry, sclust: nat, a: Medium, b: Medium, k: nat, res: FResult)
    requires Sized(g, a) && Sized(g, b)
  {
    || (res == OK && exists last: nat, c: nat :: Stretch(g, sclust, a, b, k, last, c))
    || (res == Denied && b == a && forall c :: IsCluster(a.f, c) ==> a.f[c] != 0)
    || (res == IntErr && b == a && !NoErrorMark(a.f))
  }

  lemma ExtendedLast(g: Geometry, a: Medium, b: Medium, last: nat, c: nat)
    requires Sized(g, a) && Sized(g, b) && Extended(g, a, b, last, c)
    ensures IsCluster(a.f, last)
  {
  }

  lemma {:induction false} StartIsCluster(f: Table, start: nat, k: nat)
    requires ClusterNo(f, start, k) != 0
    ensures IsCluster(f, start)
  {
    if k > 0 {
      StartIsCluster(f, start, k - 1);
    }
  }

  /** The outcomes of dir_next from entry i, the medium going from a to b. */
  ghost predicate NextOutcome(g: Geometry, sclust: nat, i: nat, stretch: bool, a: Medium, b: Medium, res: FResult)
    requires Sized(g, a) && Sized(g, b) && HasEntry(a.f, g, sclust, i)
  {
    if stretch && Extendable(a.f, g, sclust, i) then Extension(g, sclust, a, b, ClusterIndex(i, g.csize), res)
    else b == a && res == NextResult(a.f, g, sclust, i)
  }

  /** What following or stretching the chain at a cluster boundary comes to. */
  ghost predicate ClusterOutcome(g: Geometry, sclust: nat, i: nat, stretch: bool, a: Medium, b: Medium, res: FResult)
    requires Sized(g, a) && Sized(g, b) && HasEntry(a.f, g, sclust, i) && ClusterOf(a.f, g, sclust, i) != 0
  {
    var v := a.f[ClusterOf(a.f, g, sclust, i)];
    if IsCluster(a.f, v) then res == OK && b == a
    else if v <= 1 then res == IntErr && b == a
    else if !stretch then res == NoFile && b == a
    else Extension(g, sclust, a, b, ClusterIndex(i, g.csize), res)
  }

  /** At a cluster boundary that is the outcome of dir_next. */
  lemma BoundaryOutcome(g: Geometry, sclust: nat, i: nat, stretch: bool, a: Medium, b: Medium, res: FResult)
    requires Sized(g, a) && Sized(g, b) && HasEntry(a.f, g, sclust, i) && ClusterOf(a.f, g, sclust, i) != 0
    requires i + 1 < 0x1_0000 && (i + 1) % 16 == 0 && SectorIndex(i + 1, g.csize) == 0
    requires ClusterOutcome(g, sclust, i, stretch, a, b, res)
    ensures NextOutcome(g, sclust, i, stretch, a, b, res)
    ensures HasEntry(a.f, g, sclust, i + 1) <==> IsCluster(a.f, a.f[ClusterOf(a.f, g, sclust, i)])
    ensures HasEntry(a.f, g, sclust, i + 1) ==> b == a
  {
    hide Sound, ClusterNo, ClusterIndex, SectorIndex, ClusterOf, HasEntry, Extension;
    NextCases(a.f, g, sclust, i);
  }

  /** Inside a cluster or the fixed area too. */
  lemma PlainOutcome(g: Geometry, sclust: nat, i: nat, stretch: bool, a: Medium, res: FResult)
    requires Sized(g, a) && HasEntry(a.f, g, sclust, i)
    requires i + 1 < 0x1_0000
    requires if HasEntry(a.f, g, sclust, i + 1) then res == OK else res == NoFile && Start(g, sclust) == 0
    ensures NextOutcome(g, sclust, i, stretch, a, a, res)
  {
  }

  lemma LastIndexOutcome(g: Geometry, sclust: nat, i: nat, stretch: bool, a: Medium)
    requires Sized(g, a) && HasEntry(a.f, g, sclust, i) && i + 1 >= 0x1_0000
    ensures NextOutcome(g, sclust, i, stretch, a, a, NoFile)
  {
  }

  lemma StretchExtends(g: Geometry, sclust: nat, i: nat, a: Medium, b: Medium, last: nat, c: nat)
    requires Sized(g, a) && Sized(g, b) && Extended(g, a, b, last, c)
    requires HasEntry(a.f, g, sclust, i) && last == ClusterOf(a.f, g, sclust, i)
    ensures Extension(g, sclust, a, b, ClusterIndex(i, g.csize), OK)
    ensures ClusterNo(b.f, Start(g, sclust), ClusterIndex(i, g.csize) + 1) == c
  {
    hide Sound, Extended, ClusterIndex;
    assert last != 0 by { ExtendedLast(g, a, b, last, c); }
    var k, start := ClusterIndex(i, g.csize), Start(g, sclust);
    StartIsCluster(a.f, start, k);
    WalkStretched(g, a, b, start, k, last, c, k + 1);
    assert Stretch(g, sclust, a, b, k, last, c);
  }

  lemma StretchTable(g: Geometry, sclust: nat, o: Medium, a: Medium, b: Medium, k: nat, last: nat, c: nat)
    requires Sized(g, o) && Sized(g, a) && Sized(g, b) && Stretch(g, sclust, a, b, k, last, c)
    requires TableKept(o.f, a.f, Start(g, sclust))
    ensures TableKept(o.f, b.f, Start(g, sclust)) && TableKept(a.f, b.f, Start(g, sclust))
  {
    hide Extended, Sized;
    var start := Start(g, sclust);
    forall j: nat
      ensures ClusterNo(a.f, start, j) != 0 ==> ClusterNo(b.f, start, j) == ClusterNo(a.f, start, j)
    {
      WalkStretched(g, a, b, start, k, last, c, j);
    }
    forall j: nat | ClusterNo(o.f, start, j) != 0
      ensures ClusterNo(b.f, start, j) == ClusterNo(o.f, start, j)
    {
      assert ClusterNo(a.f, start, j) == ClusterNo(o.f, start, j);
    }
  }

  lemma StretchLinks(g: Geometry, sclust: nat, o: Medium, a: Medium, b: Medium, k: nat, last: nat, c: nat)
    requires Sized(g, o) && Sized(g, a) && Sized(g, b) && Stretch(g, sclust, a, b, k, last, c)
    requires Unharmed(g, sclust, o, a)
    ensures LinksKept(o.f, b.f, Start(g, sclust))
  {
    hide IsPow2, SectorsKept, Sound, ClusterNo;
    var start := Start(g, sclust);
    forall x: nat | IsCluster(o.f, x) && o.f[x] != 0
      ensures b.f[x] != 0 && (b.f[x] == o.f[x] || (o.f[x] >= |o.f| && OnTable(o.f, start, x)))
    {
      assert a.f[x] != 0;
      if x == last {
        if ClusterNo(o.f, start, k) == 0 {
          NewWasFree(g, o, a, start, k);
        }
        assert ClusterNo(o.f, start, k) == x;
      }
    }
  }

  lemma ClusterStarts(g: Geometry, c: nat)
    requires Sound(g) && 2 <= c < g.nFatEnt && g.csize > 0
    ensures 0 < g.database <= ClusterBase(g, c) < g.sectors && InCluster(g, c, ClusterBase(g, c))
  {
    ClusterInside(g, c);
  }

  lemma NewWasFree(g: Geometry, o: Medium, a: Medium, start: nat, k: nat)
    requires Sized(g, o) && Sized(g, a) && NewCleared(g, o, a, start)
    requires ClusterNo(o.f, start, k) == 0 && ClusterNo(a.f, start, k) != 0
    ensures o.f[ClusterNo(a.f, start, k)] == 0
  {
    hide IsPow2;
    var c := ClusterNo(a.f, start, k);
    ClusterStarts(g, c);
    assert ClearedAt(g, o, a, start, k, ClusterBase(g, c));
  }

  lemma StretchSectors(g: Geometry, sclust: nat, o: Medium, a: Medium, b: Medium, k: nat, last: nat, c: nat)
    requires Sized(g, o) && Sized(g, a) && Sized(g, b) && Stretch(g, sclust, a, b, k, last, c)
    requires Unharmed(g, sclust, o, a)
    ensures SectorsKept(g, o, b)
  {
    hide IsPow2, TableKept, NewCleared, ClusterNo;
    ClusterInside(g, c);
    forall x: nat, s | IsCluster(o.f, x) && o.f[x] != 0 && 0 <= s < g.sectors && InCluster(g, x, s)
      ensures b.img[s] == o.img[s]
    {
      assert a.f[x] != 0 && a.img[s] == o.img[s];
      InOneCluster(g, x, c, s);
      ClusterInside(g, x);
    }
  }

  lemma StretchCleared(g: Geometry, sclust: nat, o: Medium, a: Medium, b: Medium, k: nat, last: nat, c: nat)
    requires Sized(g, o) && Sized(g, a) && Sized(g, b) && Stretch(g, sclust, a, b, k, last, c)
    requires Unharmed(g, sclust, o, a)
    ensures NewCleared(g, o, b, Start(g, sclust))
  {
    hide IsPow2, SectorsKept, Sound, Extended, LinksKept, TableKept, InCluster, ClusterNo;
    var start := Start(g, sclust);
    forall j: nat, s: nat
      ensures ClearedAt(g, o, b, start, j, s)
    {
      WalkStretched(g, a, b, start, k, last, c, j);
      var d := ClusterNo(b.f, start, j);
      if d != 0 && s < g.sectors && InCluster(g, d, s) {
        assert ClearedAt(g, o, a, start, j, s);
        if j <= k {
          OldStaysCleared(g, a, b, start, k, last, c, j, s);
        } else {
          NewIsCleared(g, o, a, b, start, last, c, s);
        }
      }
    }
  }

  lemma OldStaysCleared(g: Geometry, a: Medium, b: Medium, start: nat, k: nat, last: nat, c: nat, j: nat, s: nat)
    requires Sized(g, a) && Sized(g, b) && Extended(g, a, b, last, c) && ClusterNo(a.f, start, k) == last && j <= k
    requires ClusterNo(a.f, start, j) != 0 && s < g.sectors && InCluster(g, ClusterNo(a.f, start, j), s)
    ensures b.img[s] == a.img[s]
  {
    hide IsPow2;
    var d := ClusterNo(a.f, start, j);
    UsedOnWalk(a.f, start, j, k);
    InOneCluster(g, d, c, s);
    ClusterInside(g, d);
  }

  lemma NewIsCleared(g: Geometry, o: Medium, a: Medium, b: Medium, start: nat, last: nat, c: nat, s: nat)
    requires Sized(g, o) && Sized(g, a) && Sized(g, b) && Extended(g, a, b, last, c) && s < g.sectors && InCluster(g, c, s)
    requires LinksKept(o.f, a.f, start)
    ensures o.f[c] == 0 && b.img[s] == Zeros()
  {
  }

  /** Clusters of a table that ends are in use. */
  lemma UsedOnWalk(f: Table, start: nat, j: nat, k: nat)
    requires j <= k && ClusterNo(f, start, k) != 0 && f[ClusterNo(f, start, k)] != 0
    ensures ClusterNo(f, start, j) != 0 && f[ClusterNo(f, start, j)] != 0
  {
    if ClusterNo(f, start, j) == 0 {
      ClusterNoEnds(f, start, j, k);
    }
    if j < k {
      if ClusterNo(f, start, j + 1) == 0 {
        ClusterNoEnds(f, start, j + 1, k);
      }
      WalkUsed(f, start, j + 1);
    }
  }

  lemma StretchUnharmed(g: Geometry, sclust: nat, o: Medium, a: Medium, b: Medium, k: nat, last: nat, c: nat)
    requires Sized(g, o) && Sized(g, a) && Sized(g, b) && Stretch(g, sclust, a, b, k, last, c)
    requires Unharmed(g, sclust, o, a)
    ensures Unharmed(g, sclust, o, b)
  {
    StretchTable(g, sclust, o, a, b, k, last, c);
    StretchLinks(g, sclust, o, a, b, k, last, c);
    StretchSectors(g, sclust, o, a, b, k, last, c);
    StretchCleared(g, sclust, o, a, b, k, last, c);
  }

  /** Every entry there was is still in its place, byte for byte. */
  lemma EntriesKept(g: Geometry, sclust: nat, a: Medium, b: Medium, i: nat)
    requires Sized(g, a) && Sized(g, b) && Unharmed(g, sclust, a, b) && HasEntry(a.f, g, sclust, i)
    requires Start(g, sclust) != 0 ==> a.f[ClusterOf(a.f, g, sclust, i)] != 0
    ensures HasEntry(b.f, g, sclust, i) && CursorAt(b.f, g, sclust, i) == CursorAt(a.f, g, sclust, i)
    ensures EntryBytes(g, b, sclust, i) == EntryBytes(g, a, sclust, i)
  {
    hide IsPow2, LinksKept, NewCleared;
    var start := Start(g, sclust);
    CursorInside(a.f, g, sclust, i);
    if start != 0 {
      var k := ClusterIndex(i, g.csize);
      assert ClusterNo(b.f, start, k) == ClusterNo(a.f, start, k);
      var c := ClusterNo(a.f, start, k);
      SectorIndexBelow(i, g.csize);
      assert InCluster(g, c, CursorAt(a.f, g, sclust, i).sect);
    } else {
      assert CursorAt(a.f, g, sclust, i).sect < g.database;
    }
  }

  lemma SectorIndexBelow(i: nat, c: nat)
    requires c > 0
    ensures 0 <= SectorIndex(i, c) < c
  {
  }

  /** So no entry of a directory in a well-formed chain is lost by reserving entries in it. */
  lemma ChainEntriesKept(g: Geometry, sclust: nat, a: Medium, b: Medium, xs: seq<nat>, i: nat)
    requires Sized(g, a) && Sized(g, b) && Unharmed(g, sclust, a, b)
    requires IsChain(a.f, xs) && Start(g, sclust) == xs[0] && (sclust == 0 || sclust == xs[0]) && i / 16 / g.csize < |xs|
    ensures HasEntry(a.f, g, sclust, i) && HasEntry(b.f, g, sclust, i)
    ensures CursorAt(b.f, g, sclust, i) == CursorAt(a.f, g, sclust, i) && EntryBytes(g, b, sclust, i) == EntryBytes(g, a, sclust, i)
  {
    hide Unharmed, Sound, ClusterNo;
    var k := ClusterIndex(i, g.csize);
    ChainIsTable(a.f, xs, k);
    assert xs[k] in xs;
    ChainMember(a.f, xs, xs[k]);
    EntriesKept(g, sclust, a, b, i);
  }

  /** Entries a stretch added are empty. */
  lemma NewEntriesEmpty(g: Geometry, sclust: nat, a: Medium, b: Medium, i: nat)
    requires Sized(g, a) && Sized(g, b) && Unharmed(g, sclust, a, b) && (sclust == 0 || IsCluster(a.f, sclust))
    requires !HasEntry(a.f, g, sclust, i) && HasEntry(b.f, g, sclust, i)
    ensures EntryBytes(g, b, sclust, i) == seq<Byte>(32, k requires 0 <= k < 32 => 0)
  {
    hide IsPow2, LinksKept, SectorsKept;
    var start, k := Start(g, sclust), ClusterIndex(i, g.csize);
    CursorInside(b.f, g, sclust, i);
    SectorIndexBelow(i, g.csize);
    var s := CursorAt(b.f, g, sclust, i).sect;
    assert start != 0;
    assert ClusterNo(a.f, start, k) == 0 && ClusterNo(b.f, start, k) != 0;
    assert InCluster(g, ClusterNo(b.f, start, k), s);
    assert ClearedAt(g, a, b, start, k, s);
  }

  // --------------------------------------------------------------- searching

  /** A table has no gaps. */
  lemma HasEntryBelow(f: Table, g: Geometry, sclust: nat, i: nat, j: nat)
    requires g.csize > 0 && HasEntry(f, g, sclust, i) && j <= i
    ensures HasEntry(f, g, sclust, j)
  {
    var start := Start(g, sclust);
    ClusterIndexMono(j, i, g.csize);
    if start != 0 && ClusterNo(f, start, ClusterIndex(j, g.csize)) == 0 {
      ClusterNoEnds(f, start, ClusterIndex(j, g.csize), ClusterIndex(i, g.csize));
    }
  }

  lemma ClusterIndexMono(j: nat, i: nat, c: nat)
    requires c > 0 && j <= i
    ensures ClusterIndex(j, c) <= ClusterIndex(i, c)
  {
    DivModOf(j / 16, c);
    DivModOf(i / 16, c);
    QuotientMono(j / 16, i / 16, c, j / 16 / c, i / 16 / c);
  }

  lemma QuotientMono(a: nat, b: nat, c: nat, q: nat, p: nat)
    requires c > 0 && a <= b && c * q <= a && b < c * p + c
    ensures q <= p
  {
    if q > p {
      ScaleLess(p, q, c);
    }
  }

  /** What a turn of the search does to the table: old entries stay, blank or not. */
  lemma TurnKeeps(g: Geometry, sclust: nat, o: Medium, a: Medium, b: Medium, i: nat, res: FResult, j: nat)
    requires Sized(g, o) && Sized(g, a) && Sized(g, b) && Unharmed(g, sclust, o, a)
    requires HasEntry(a.f, g, sclust, i) && NextOutcome(g, sclust, i, true, a, b, res)
    ensures Unharmed(g, sclust, o, b)
    ensures j <= i ==> (Blank(g, b, sclust, j) <==> Blank(g, a, sclust, j))
  {
    hide Unharmed, Sound, Extended, ClusterNo, ClusterIndex, IsBlank;
    if res == OK && a != b {
      var k := ClusterIndex(i, g.csize);
      var last: nat, c: nat :| Stretch(g, sclust, a, b, k, last, c);
      StretchUnharmed(g, sclust, o, a, b, k, last, c);
      UnharmedRefl(g, sclust, a);
      StretchUnharmed(g, sclust, a, a, b, k, last, c);
      ExtendedLast(g, a, b, last, c);
      if j <= i {
        HasEntryBelow(a.f, g, sclust, i, j);
        ClusterIndexMono(j, i, g.csize);
        UsedOnWalk(a.f, Start(g, sclust), ClusterIndex(j, g.csize), k);
        EntriesKept(g, sclust, a, b, j);
      }
    }
  }

  /** No run ends before entry i, and the blank entries before it are exactly the last n. */
  ghost predicate Searched(g: Geometry, m: Medium, sclust: nat, i: nat, n: nat, nent: nat)
    requires Sized(g, m)
  {
    && n < nent && n <= i && (forall j: nat :: i - n <= j < i ==> Blank(g, m, sclust, j))
    && (n < i ==> !Blank(g, m, sclust, i - n - 1))
    && forall e: nat :: e < i ==> !RunAt(g, m, sclust, e, nent)
  }

  lemma SearchStarts(g: Geometry, m: Medium, sclust: nat, nent: nat)
    requires Sized(g, m) && nent >= 1
    ensures Searched(g, m, sclust, 0, 0, nent)
  {
  }

  /** Entry i is looked at. */
  lemma SearchMoves(g: Geometry, m: Medium, sclust: nat, i: nat, n: nat, nent: nat)
    requires Sized(g, m) && Searched(g, m, sclust, i, n, nent)
    ensures Blank(g, m, sclust, i) && n + 1 == nent ==> RunAt(g, m, sclust, i, nent)
    ensures Blank(g, m, sclust, i) && n + 1 < nent ==> Searched(g, m, sclust, i + 1, n + 1, nent)
    ensures !Blank(g, m, sclust, i) ==> Searched(g, m, sclust, i + 1, 0, nent)
  {
    hide Blank;
    if n < i && n + 1 < nent {
      var j: nat := i - n - 1;
      assert !Blank(g, m, sclust, j);
    }
  }

  lemma SearchSaysNo(g: Geometry, m: Medium, sclust: nat, i: nat, n: nat, nent: nat)
    requires Sized(g, m) && Searched(g, m, sclust, i, n, nent)
    ensures n < nent && forall e: nat :: e < i ==> !RunAt(g, m, sclust, e, nent)
  {
  }

  lemma FirstIndex(f: Table, g: Geometry, sclust: nat)
    requires Sound(g) && |f| == g.nFatEnt && g.csize > 0 && HasEntry(f, g, sclust, 0)
    ensures CursorAt(f, g, sclust, 0).index == 0
  {
    CursorIndex(f, g, sclust, 0);
  }

  lemma SearchKept(g: Geometry, sclust: nat, o: Medium, a: Medium, b: Medium, i: nat, res: FResult, n: nat, nent: nat)
    requires Sized(g, o) && Sized(g, a) && Sized(g, b) && Unharmed(g, sclust, o, a)
    requires HasEntry(a.f, g, sclust, i) && NextOutcome(g, sclust, i, true, a, b, res) && Searched(g, a, sclust, i + 1, n, nent)
    ensures Unharmed(g, sclust, o, b) && Searched(g, b, sclust, i + 1, n, nent)
  {
    hide Unharmed, Sound, NextOutcome, Blank;
    forall j: nat
      ensures j <= i ==> (Blank(g, b, sclust, j) <==> Blank(g, a, sclust, j))
    {
      TurnKeeps(g, sclust, o, a, b, i, res, j);
    }
    TurnKeeps(g, sclust, o, a, b, i, res, 0);
    forall e: nat | e < i + 1
      ensures !RunAt(g, b, sclust, e, nent)
    {
      RunTransfer(g, sclust, b, a, e, nent);
    }
  }

  lemma RunTransfer(g: Geometry, sclust: nat, a: Medium, b: Medium, e: nat, n: nat)
    requires Sized(g, a) && Sized(g, b)
    requires forall j: nat :: j <= e ==> (Blank(g, a, sclust, j) <==> Blank(g, b, sclust, j))
    ensures RunAt(g, a, sclust, e, n) ==> RunAt(g, b, sclust, e, n)
  {
    hide Blank, Sound;
  }

  /** No run of n blank entries ends below index 65536. */
  ghost predicate NoRun(g: Geometry, m: Medium, sclust: nat, n: nat)
    requires Sized(g, m)
  {
    forall e: nat :: e < 0x1_0000 ==> !RunAt(g, m, sclust, e, n)
  }

  /** The search ended without success: there is no run anywhere. */
  lemma SearchFails(g: Geometry, m: Medium, sclust: nat, i: nat, n: nat, nent: nat)
    requires Sized(g, m) && Searched(g, m, sclust, i, n, nent) && (i >= 0x1_0000 || !HasEntry(m.f, g, sclust, i))
    ensures NoRun(g, m, sclust, nent)
  {
    hide Sound;
    forall e: nat | e < 0x1_0000
      ensures !RunAt(g, m, sclust, e, nent)
    {
      if e >= i && RunAt(g, m, sclust, e, nent) {
        assert Blank(g, m, sclust, e);
        HasEntryBelow(m.f, g, sclust, e, i);
      }
    }
  }

  /** Why a table cannot be stretched any further. */
  ghost predicate NoRoom(g: Geometry, m: Medium, sclust: nat, i: nat) {
    i + 1 >= 0x1_0000 || Start(g, sclust) == 0 || forall c :: IsCluster(m.f, c) ==> m.f[c] != 0
  }

  /** A turn that did not succeed. */
  lemma TurnFails(g: Geometry, sclust: nat, a: Medium, b: Medium, i: nat, res: FResult)
    requires Sized(g, a) && Sized(g, b) && HasEntry(a.f, g, sclust, i) && NextOutcome(g, sclust, i, true, a, b, res) && res != OK
    ensures b == a && (i + 1 >= 0x1_0000 || !HasEntry(a.f, g, sclust, i + 1))
    ensures res == NoFile || res == Denied || res == IntErr
    ensures res != IntErr ==> NoRoom(g, a, sclust, i)
    ensures res == IntErr ==> !NoErrorMark(a.f) || a.f[ClusterOf(a.f, g, sclust, i)] < 2
  {
    hide Sound, Stretch, ClusterNo, ClusterIndex;
    NextCases(a.f, g, sclust, i);
  }

  // ------------------------------------------------------------ the end

  /** The table is the fixed root area, or its walk comes to an end. */
  ghost predicate Ends(f: Table, g: Geometry, sclust: nat) {
    Start(g, sclust) == 0 || exists k: nat :: ClusterNo(f, Start(g, sclust), k) == 0
  }

  /** Stretching moves the end on. */
  lemma EndsKept(g: Geometry, sclust: nat, a: Medium, b: Medium, i: nat, res: FResult)
    requires Sized(g, a) && Sized(g, b) && HasEntry(a.f, g, sclust, i) && NextOutcome(g, sclust, i, true, a, b, res)
    ensures Ends(a.f, g, sclust) ==> Ends(b.f, g, sclust)
  {
    hide Sound, Extended, ClusterNo, ClusterIndex;
    if res == OK && a != b {
      var k := ClusterIndex(i, g.csize);
      var last: nat, c: nat :| Stretch(g, sclust, a, b, k, last, c);
      WalkStretched(g, a, b, Start(g, sclust), k, last, c, k + 2);
    }
  }

  /** No cluster came to the table behind that of entry i. */
  ghost predicate NoLonger(g: Geometry, sclust: nat, a: Table, b: Table, i: nat) {
    g.csize > 0 && forall k: nat :: k > ClusterIndex(i, g.csize) && ClusterNo(b, Start(g, sclust), k) != 0 ==> ClusterNo(a, Start(g, sclust), k) != 0
  }

  lemma NoLongerRefl(g: Geometry, sclust: nat, a: Table, i: nat)
    requires g.csize > 0
    ensures NoLonger(g, sclust, a, a, i)
  {
  }

  lemma NoLongerKept(g: Geometry, sclust: nat, o: Table, a: Medium, b: Medium, i: nat, res: FResult)
    requires Sized(g, a) && Sized(g, b) && HasEntry(a.f, g, sclust, i) && NextOutcome(g, sclust, i, true, a, b, res)
    requires NoLonger(g, sclust, o, a.f, i)
    ensures NoLonger(g, sclust, o, b.f, if res == OK then i + 1 else i)
  {
    hide Sound, Extended, ClusterNo, ClusterIndex;
    NextCluster(i, g.csize);
    var s := Start(g, sclust);
    if res == OK && a != b {
      var k := ClusterIndex(i, g.csize);
      var last: nat, c: nat :| Stretch(g, sclust, a, b, k, last, c);
      NotExtendableInside(a.f, g, sclust, i);
      forall j: nat | j > ClusterIndex(i + 1, g.csize)
        ensures ClusterNo(b.f, s, j) == 0
      {
        WalkStretched(g, a, b, s, k, last, c, j);
      }
    }
  }

  lemma NextCluster(i: nat, c: nat)
    requires c > 0
    ensures ClusterIndex(i, c) <= ClusterIndex(i + 1, c) <= ClusterIndex(i, c) + 1
  {
    NextIndices(i, c);
  }

  /** Only the last entry of a cluster leads to a stretch. */
  lemma NotExtendableInside(f: Table, g: Geometry, sclust: nat, i: nat)
    requires Sound(g) && |f| == g.nFatEnt && g.csize > 0 && HasEntry(f, g, sclust, i) && Extendable(f, g, sclust, i)
    ensures ClusterIndex(i + 1, g.csize) == ClusterIndex(i, g.csize) + 1
  {
    hide Sound, ClusterIndex, SectorIndex, ClusterNo;
    NextIndices(i, g.csize);
    NextCases(f, g, sclust, i);
  }

  /** If a walk came back to a cluster it would never end. */
  lemma {:induction false} WalkRepeats(f: Table, start: nat, i: nat, j: nat, t: nat)
    requires ClusterNo(f, start, i) == ClusterNo(f, start, j)
    ensures ClusterNo(f, start, i + t) == ClusterNo(f, start, j + t)
  {
    if t > 0 {
      WalkRepeats(f, start, i, j, t - 1);
    }
  }

  lemma {:induction false} WalkDistinct(f: Table, start: nat, i: nat, j: nat, k: nat)
    requires i < j && ClusterNo(f, start, j) != 0 && ClusterNo(f, start, k) == 0
    ensures ClusterNo(f, start, i) != ClusterNo(f, start, j)
    decreases k
  {
    if ClusterNo(f, start, i) == ClusterNo(f, start, j) {
      if k <= j {
        ClusterNoEnds(f, start, k, j);
      } else {
        WalkRepeats(f, start, i, j, k - j);
        WalkDistinct(f, start, i, j, k - (j - i));
      }
    }
  }

  lemma IndexDigits(i: nat, c: nat)
    requires c > 0
    ensures i == 16 * (c * ClusterIndex(i, c) + SectorIndex(i, c)) + i % 16
  {
    DivModOf(i / 16, c);
  }

  /** Different entries of a table that ends stand in different places. */
  lemma PlacesDiffer(f: Table, g: Geometry, sclust: nat, i: nat, j: nat)
    requires Sound(g) && |f| == g.nFatEnt && g.csize > 0 && Ends(f, g, sclust)
    requires HasEntry(f, g, sclust, i) && HasEntry(f, g, sclust, j) && i < j
    ensures CursorAt(f, g, sclust, i).sect != CursorAt(f, g, sclust, j).sect
            || CursorAt(f, g, sclust, i).offset != CursorAt(f, g, sclust, j).offset
  {
    hide Sound, ClusterNo, ClusterIndex, SectorIndex;
    var start := Start(g, sclust);
    IndexDigits(i, g.csize);
    IndexDigits(j, g.csize);
    SectorIndexBelow(i, g.csize);
    SectorIndexBelow(j, g.csize);
    if start != 0 && CursorAt(f, g, sclust, i).sect == CursorAt(f, g, sclust, j).sect {
      var c, d := ClusterOf(f, g, sclust, i), ClusterOf(f, g, sclust, j);
      var s: int := CursorAt(f, g, sclust, i).sect;
      if c != d {
        assert InCluster(g, c, s) && InCluster(g, d, s);
        InOneCluster(g, c, d, s);
      } else {
        var k: nat :| ClusterNo(f, start, k) == 0;
        var p, q := ClusterIndex(i, g.csize), ClusterIndex(j, g.csize);
        if p < q {
          WalkDistinct(f, start, p, q, k);
        } else if q < p {
          WalkDistinct(f, start, q, p, k);
        }
      }
    }
  }

  // ----------------------------------------------------------- in plain terms

  /** The fixed root area of FAT12/16: entry after entry from its first sector on, 16 to a sector. */
  lemma RootInPlain(f: Table, g: Geometry, i: nat)
    requires Sound(g) && |f| == g.nFatEnt && g.csize > 0 && !g.fsType.Fat32? && i < 65536
    ensures HasEntry(f, g, 0, i) <==> i < g.nRootDir
    ensures i < g.nRootDir ==> CursorAt(f, g, 0, i) == Cursor(i, 0, g.dirbase + i / 16, i % 16 * 32)
  {
    hide IsPow2, EntryEnd;
  }

  /**
  A directory in the clusters xs, on FAT32 also the root directory, which starts at the mounted root
  cluster: 16 entries to a sector, csize sectors to a cluster, cluster after cluster of the chain.
  */
  lemma ChainInPlain(f: Table, g: Geometry, sclust: nat, xs: seq<nat>, i: nat)
    requires Sound(g) && |f| == g.nFatEnt && g.csize > 0 && IsChain(f, xs) && i < 65536
    requires if sclust == 0 then g.fsType.Fat32? && g.dirbase == xs[0] else sclust == xs[0]
    ensures var k, r := i / 16 / g.csize, i / 16 % g.csize;
      && k >= 0 && (HasEntry(f, g, sclust, i) <==> k < |xs|)
      && (k < |xs| ==> ClusterBase(g, xs[k]) + r >= 0
                       && CursorAt(f, g, sclust, i) == Cursor(i, xs[k], ClusterBase(g, xs[k]) + r, i % 16 * 32))
  {
    hide Sound, ClusterNo, ClusterIndex, SectorIndex, ClusterBase;
    var k, r := ClusterIndex(i, g.csize), SectorIndex(i, g.csize);
    ClusterIndexIs(i, g.csize);
    ChainIsTable(f, xs, k);
    assert IsCluster(f, xs[0]);
    if k < |xs| {
      assert IsCluster(f, xs[k]);
      ClusterInside(g, xs[k]);
      SectorIndexBelow(i, g.csize);
    }
  }

  /** The walk through a chain on any FAT, sound or not: cluster after cluster while the entry is a cluster number. */
  lemma WalkInPlain(f: Table, start: nat, k: nat)
    ensures ClusterNo(f, start, 0) == if 2 <= start < |f| then start else 0
    ensures var c := ClusterNo(f, start, k);
      ClusterNo(f, start, k + 1) == if 2 <= c < |f| && 2 <= f[c] < |f| then f[c] else 0
  {
  }

  /**
  What follows entry i in a cluster chain: the next entry of the cluster, the first one of the next
  cluster, the end of the table at an end mark or after 65536 entries, or an error at a damaged link.
  */
  lemma NextInPlain(f: Table, g: Geometry, sclust: nat, i: nat)
    requires Sound(g) && |f| == g.nFatEnt && g.csize > 0 && HasEntry(f, g, sclust, i)
    ensures i >= 65535 ==> NextResult(f, g, sclust, i) == NoFile
    ensures i < 65535 && (sclust != 0 || g.fsType.Fat32?) && (i + 1) % (16 * g.csize) != 0 ==> NextResult(f, g, sclust, i) == OK
    ensures i < 65535 && sclust == 0 && !g.fsType.Fat32? ==>
      NextResult(f, g, sclust, i) == if i + 1 < g.nRootDir then OK else NoFile
    ensures i < 65535 && (sclust != 0 || g.fsType.Fat32?) && (i + 1) % (16 * g.csize) == 0 ==>
      var c := ClusterOf(f, g, sclust, i);
      2 <= c < |f| && NextResult(f, g, sclust, i) == if f[c] < 2 then IntErr else if f[c] < |f| then OK else NoFile
  {
    hide IsPow2, EntryEnd, ClusterNo, ClusterIndex, SectorIndex;
    NextCases(f, g, sclust, i);
    BoundaryIs(i, g.csize);
  }

  /** The last entry of a cluster. */
  lemma BoundaryIs(i: nat, c: nat)
    requires c > 0
    ensures (i + 1) % (16 * c) == 0 <==> (i + 1) % 16 == 0 && SectorIndex(i + 1, c) == 0
  {
    var n := 16 * c;
    DivModOf(i + 1, n);
    EntryDigits(i + 1, c, (i + 1) / n, (i + 1) % n);
  }

  lemma ClusterIndexIs(i: nat, c: nat)
    requires c > 0
    ensures ClusterIndex(i, c) == i / 16 / c >= 0 && SectorIndex(i, c) == i / 16 % c >= 0
  {
  }

  /** A run of n blank entries ends at entry e, by the first bytes of its entries. */
  lemma RunInPlain(g: Geometry, m: Medium, sclust: nat, e: nat, n: nat)
    requires Sized(g, m)
    ensures RunAt(g, m, sclust, e, n) <==>
      n <= e + 1 && forall j: nat :: e + 1 - n <= j <= e ==>
        HasEntry(m.f, g, sclust, j) && (EntryBytes(g, m, sclust, j)[0] == 0 || EntryBytes(g, m, sclust, j)[0] == 0xE5)
  {
    hide HasEntry, EntryBytes;
    assert forall j: nat :: Blank(g, m, sclust, j) <==>
      HasEntry(m.f, g, sclust, j) && (EntryBytes(g, m, sclust, j)[0] == 0 || EntryBytes(g, m, sclust, j)[0] == 0xE5);
  }

  /** An entry is blank if it was deleted or never used; its bytes are those at its place. */
  lemma BlankInBytes(g: Geometry, m: Medium, sclust: nat, i: nat)
    requires Sized(g, m) && HasEntry(m.f, g, sclust, i)
    ensures CursorAt(m.f, g, sclust, i).sect < |m.img| && CursorAt(m.f, g, sclust, i).offset + 32 <= 512
    ensures forall k :: 0 <= k < 32 ==>
      EntryBytes(g, m, sclust, i)[k] == m.img[CursorAt(m.f, g, sclust, i).sect][CursorAt(m.f, g, sclust, i).offset + k]
    ensures Blank(g, m, sclust, i) <==> EntryBytes(g, m, sclust, i)[0] == 0xE5 || EntryBytes(g, m, sclust, i)[0] == 0
  {
    hide Sound, HasEntry, CursorAt;
    CursorInside(m.f, g, sclust, i);
  }
}
