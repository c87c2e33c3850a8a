/**
The cluster link map of fatfs/src/ff.c: f_lseek(CREATE_LINKMAP) compresses a chain
into fragments of consecutive clusters, clmt_clust looks a cluster up in them.
*/
module LinkMap {
  import opened Layout
  import opened FatMap
  import opened Volume

  /** Length of the longest run of consecutive cluster numbers at the front. */
  function RunLength(xs: seq<nat>): (n: nat)
    ensures n <= |xs| && (xs != [] ==> n > 0)
  {
    if |xs| <= 1 then |xs|
    else if xs[1] == xs[0] + 1 then RunLength(xs[1..]) + 1
    else 1
  }

  /** The clusters of a run are consecutive, and the one behind it is not. */
  lemma {:induction false} RunIsMaximal(xs: seq<nat>)
    requires xs != []
    ensures forall k :: 0 <= k < RunLength(xs) ==> xs[k] == xs[0] + k
    ensures RunLength(xs) < |xs| ==> xs[RunLength(xs)] != xs[RunLength(xs) - 1] + 1
    decreases |xs|
  {
    if |xs| > 1 && xs[1] == xs[0] + 1 {
      var ys := xs[1..];
      RunIsMaximal(ys);
      forall k | 1 <= k < RunLength(xs)
        ensures xs[k] == xs[0] + k
      {
        assert xs[k] == ys[k - 1];
      }
    }
  }

  /** The map of a chain: length and first cluster of each maximal fragment. */
  function Fragments(xs: seq<nat>): (t: seq<nat>)
    ensures |t| % 2 == 0
  {
    if xs == [] then []
    else [RunLength(xs), xs[0]] + Fragments(xs[RunLength(xs)..])
  }

  lemma {:induction false} FragmentsUnfold(xs: seq<nat>)
    requires xs != []
    ensures Fragments(xs) == [RunLength(xs), xs[0]] + Fragments(xs[RunLength(xs)..])
  {
  }

  /** A run of consecutive clusters extends the run behind it. */
  lemma {:induction false} RunGrows(xs: seq<nat>, i: nat, j: nat)
    requires i <= j < |xs| - 1 && xs[j + 1] == xs[j] + 1
    requires RunLength(xs[i..]) == j - i + RunLength(xs[j..])
    ensures RunLength(xs[i..]) == j + 1 - i + RunLength(xs[j + 1..])
  {
    assert xs[j..][1..] == xs[j + 1..];
  }

  lemma {:induction false} RunEnds(xs: seq<nat>, j: nat)
    requires j < |xs| && (j + 1 < |xs| ==> xs[j + 1] != xs[j] + 1)
    ensures RunLength(xs[j..]) == 1
  {
  }

  /** The chain can be mapped: its end mark is not taken for the next cluster number. */
  predicate Mappable(f: Table, xs: seq<nat>)
    requires IsChain(f, xs)
  {
    f[xs[|xs| - 1]] != xs[|xs| - 1] + 1
  }

  /**
  Only the last cluster of the volume, with the number behind it for an end mark, spoils a
  map; a genuine end mark lies above the entry count and never does.
  */
  lemma MappableExactly(t: FatType, f: Table, xs: seq<nat>)
    requires IsChain(f, xs) && |f| <= MaxEntries(t)
    ensures Mappable(f, xs) <==> xs[|xs| - 1] + 1 < |f| || f[xs[|xs| - 1]] > |f|
    ensures f[xs[|xs| - 1]] > MaxEntries(t) ==> Mappable(f, xs)
  {
    LinkOf(f, xs, |xs| - 1);
  }

  /** A damaged table of one cluster whose file cannot be mapped. */
  lemma DamagedEndFails()
    ensures IsChain([0, 0, 3], [2]) && !Mappable([0, 0, 3], [2])
  {
  }

  /**
  One fragment: from the i-th cluster on as long as the numbers are consecutive. The
  result cl is the entry that broke the run; on a chain that cannot be mapped the
  last fragment runs past the end and meets an invalid cluster number.
  */
  method GetFragment(fs: FatFs, start: nat, ghost xs: seq<nat>, ghost i: nat) returns (cl: nat, ncl: nat)
    requires fs.Valid() && IsChain(fs.Fat(), xs) && i < |xs| && start == xs[i]
    modifies fs`disk, fs`wflag, fs`winsect, fs`durable, fs.win
    ensures fs.Valid() && fs.Image() == old(fs.Image())
    ensures cl <= 1 <==> !Mappable(fs.Fat(), xs) && i + RunLength(xs[i..]) == |xs|
    ensures cl > 1 ==> ncl == RunLength(xs[i..]) && i + ncl <= |xs|
    ensures cl > 1 ==> if i + ncl < |xs| then cl == xs[i + ncl] < fs.g.nFatEnt else cl >= fs.g.nFatEnt
  {
    hide FatOf, WithSector, InFat, MirrorsAgree, FatFits;
    cl, ncl := start, 0;
    ghost var j := i;
    while true
      invariant fs.Valid() && fs.Image() == old(fs.Image())
      invariant i <= j <= |xs| && ncl == j - i
      invariant j < |xs| ==> cl == xs[j] && RunLength(xs[i..]) == j - i + RunLength(xs[j..])
      invariant j == |xs| ==> cl == fs.g.nFatEnt && !Mappable(fs.Fat(), xs) && i + RunLength(xs[i..]) == |xs|
      decreases |xs| - j
    {
      var pcl := cl;
      ncl := ncl + 1;
      ghost var inside := j < |xs|;
      LinkOf(fs.Fat(), xs, j);
      cl := fs.GetFat(cl);
      if cl <= 1 || cl != pcl + 1 {
        if inside {
          RunEnds(xs, j);
        }
        break;
      }
      if j + 1 < |xs| {
        RunGrows(xs, i, j);
      } else {
        RunEnds(xs, j);
      }
      j := j + 1;
    }
  }

  lemma {:induction false} LinkOf(f: Table, xs: seq<nat>, j: nat)
    requires IsChain(f, xs)
    ensures j < |xs| ==> IsCluster(f, xs[j])
    ensures j + 1 < |xs| ==> f[xs[j]] == xs[j + 1] && IsCluster(f, xs[j + 1])
    ensures j + 1 == |xs| ==> f[xs[j]] >= |f|
  {
  }

  lemma {:induction false} FragmentsStep(xs: seq<nat>, i: nat, d: seq<nat>)
    requires i < |xs| && Fragments(xs) == d + Fragments(xs[i..])
    ensures i + RunLength(xs[i..]) <= |xs|
    ensures Fragments(xs) == d + [RunLength(xs[i..]), xs[i]] + Fragments(xs[i + RunLength(xs[i..])..])
  {
    hide RunLength, Fragments;
    var n := RunLength(xs[i..]);
    FragmentsUnfold(xs[i..]);
    assert xs[i..][n..] == xs[i + n..];
    Regroup(d, [n, xs[i]], Fragments(xs[i + n..]));
  }

  lemma {:induction false} Regroup(a: seq<nat>, b: seq<nat>, c: seq<nat>)
    ensures a + (b + c) == a + b + c
  {
  }

  /**
  f_lseek(CREATE_LINKMAP): cltbl[0] is the size of the given table on entry and the
  number of items the map takes on exit. The map is stored if it fits. The function
  fails on a chain that cannot be mapped, and then only.
  */
  method CreateLinkMap(fs: FatFs, sclust: nat, cltbl: array<nat>, ghost xs: seq<nat>) returns (res: FResult)
    requires fs.Valid() && (xs == [] || IsChain(fs.Fat(), xs)) && sclust == if xs == [] then 0 else xs[0]
    requires cltbl.Length > 0 && cltbl[0] <= cltbl.Length
    modifies fs`disk, fs`wflag, fs`winsect, fs`durable, fs.win, cltbl
    ensures fs.Valid() && fs.Image() == old(fs.Image())
    ensures res == IntErr <==> xs != [] && !Mappable(fs.Fat(), xs)
    ensures res != IntErr ==> cltbl[0] == 2 + |Fragments(xs)|
    ensures res != IntErr ==> (res == OK <==> cltbl[0] <= old(cltbl[0]))
    ensures res == OK || res == IntErr || res == NotEnoughCore
    ensures res == OK ==> 2 + |Fragments(xs)| <= cltbl.Length && cltbl[1..2 + |Fragments(xs)|] == Fragments(xs) + [0]
  {
    hide FatOf, WithSector, InFat, RunLength, Fragments, Mappable, IsChain;
    EmptyMap();
    var tbl, tlen, ulen := 1, cltbl[0], 2;
    var cl := sclust;
    ghost var d, i := [], 0;
    assert xs[0..] == xs;
    if xs != [] {
      LinkOf(fs.Fat(), xs, 0);
    }
    if cl != 0 {
      while true
        invariant fs.Valid() && fs.Image() == old(fs.Image())
        invariant i < |xs| && cl == xs[i] && Fragments(xs) == d + Fragments(xs[i..])
        invariant ulen == 2 + |d| && tlen == old(cltbl[0]) == cltbl[0]
        invariant ulen <= tlen ==> tbl == 1 + |d| && cltbl[1..tbl] == d
        decreases |xs| - i
      {
        var tcl := cl;
        ulen := ulen + 2;
        FragmentsStep(xs, i, d);
        ghost var n := RunLength(xs[i..]);
        var ncl;
        cl, ncl := GetFragment(fs, cl, xs, i);
        if cl <= 1 {
          return IntErr;
        }
        if ulen <= tlen {
          StorePair(cltbl, tbl, ncl, tcl);
          tbl := tbl + 2;
        }
        d, i := d + [n, xs[i]], i + n;
        if cl >= fs.g.nFatEnt {
          break;
        }
      }
    }
    assert xs[|xs|..] == [];
    assert Fragments(xs) == d;
    cltbl[0] := ulen;
    if ulen <= tlen {
      cltbl[tbl] := 0;
      res := OK;
    } else {
      res := NotEnoughCore;
    }
  }

  /** The pair of items stored for a fragment. */
  method StorePair(cltbl: array<nat>, tbl: nat, ncl: nat, tcl: nat)
    requires 0 < tbl && tbl + 2 <= cltbl.Length
    modifies cltbl
    ensures cltbl[0] == old(cltbl[0]) && cltbl[1..tbl + 2] == old(cltbl[1..tbl]) + [ncl, tcl]
  {
    cltbl[tbl], cltbl[tbl + 1] := ncl, tcl;
  }

  /** Lookup in the stored map: at item p of the table starts the map of ys. */
  ghost predicate MapAt(t: seq<nat>, p: nat, ys: seq<nat>) {
    p + |Fragments(ys)| < |t| && t[p..p + |Fragments(ys)|] == Fragments(ys) && t[p + |Fragments(ys)|] == 0
  }

  lemma EmptyMap()
    ensures Fragments([]) == []
  {
  }

  lemma {:induction false} MapHead(t: seq<nat>, p: nat, ys: seq<nat>)
    requires MapAt(t, p, ys)
    ensures p < |t| && t[p] == (if ys == [] then 0 else RunLength(ys))
    ensures ys != [] ==> RunLength(ys) > 0 && p + 1 < |t| && t[p + 1] == ys[0] && MapAt(t, p + 2, ys[RunLength(ys)..])
  {
    hide RunLength, Fragments;
    EmptyMap();
    if ys != [] {
      var f, n := Fragments(ys), RunLength(ys);
      var zs := ys[n..];
      FragmentsUnfold(ys);
      assert t[p..p + |f|][0] == f[0] && t[p..p + |f|][1] == f[1];
      assert t[p + 2..p + 2 + |Fragments(zs)|] == t[p..p + |f|][2..] == Fragments(zs);
    }
  }

  /** clmt_clust: the cluster that holds byte ofs, 0 behind the end of the chain. */
  method ClmtClust(g: Geometry, cltbl: array<nat>, ofs: nat, ghost xs: seq<nat>) returns (clst: nat)
    requires g.csize > 0 && MapAt(cltbl[..], 1, xs)
    ensures ofs / 512 / g.csize >= 0
    ensures clst == if ofs / 512 / g.csize < |xs| then xs[ofs / 512 / g.csize] else 0
  {
    hide RunLength, Fragments;
    var tbl := 1;
    var cl := ofs / 512 / g.csize;
    assert cl >= 0;
    ghost var ys, k := xs, 0;
    while true
      invariant MapAt(cltbl[..], tbl, ys) && k <= |xs| && ys == xs[k..] && cl == ofs / 512 / g.csize - k >= 0
      decreases |ys|
    {
      MapHead(cltbl[..], tbl, ys);
      if ys != [] {
        RunIsMaximal(ys);
      }
      var ncl := cltbl[tbl];
      tbl := tbl + 1;
      if ncl == 0 {
        return 0;
      }
      if cl < ncl {
        assert ys[cl] == xs[k + cl];
        break;
      }
      cl := cl - ncl;
      tbl := tbl + 1;
      ys, k := ys[ncl..], k + ncl;
    }
    clst := cl + cltbl[tbl];
  }

  /** A stored map is where clmt_clust looks for it. */
  lemma {:induction false} StoredMap(t: seq<nat>, xs: seq<nat>)
    requires 2 + |Fragments(xs)| <= |t| && t[1..2 + |Fragments(xs)|] == Fragments(xs) + [0]
    ensures MapAt(t, 1, xs)
  {
    var f := Fragments(xs);
    assert t[1..1 + |f|] == t[1..2 + |f|][..|f|] == f;
    assert t[1 + |f|] == t[1..2 + |f|][|f|];
  }

  /** The number of items is 2 more than twice the number of breaks between consecutive clusters plus one. */
  function Breaks(xs: seq<nat>): nat {
    if |xs| <= 1 then |xs| else Breaks(xs[1..]) + if xs[1] == xs[0] + 1 then 0 else 1
  }

  lemma {:induction false} MapSize(xs: seq<nat>)
    ensures |Fragments(xs)| == 2 * Breaks(xs)
    decreases |xs|
  {
    if xs != [] {
      MapSize(xs[RunLength(xs)..]);
      BreaksOfRun(xs);
    }
  }

  lemma {:induction false} BreaksOfRun(xs: seq<nat>)
    requires xs != []
    ensures Breaks(xs) == 1 + Breaks(xs[RunLength(xs)..])
    decreases |xs|
  {
    if |xs| > 1 && xs[1] == xs[0] + 1 {
      BreaksOfRun(xs[1..]);
      assert xs[1..][RunLength(xs[1..])..] == xs[RunLength(xs)..];
    } else if |xs| > 1 {
      assert RunLength(xs) == 1;
    } else {
      assert xs[RunLength(xs)..] == [];
    }
  }
}
