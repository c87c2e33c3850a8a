/**
Invariants of the FAT over whole runs of the allocator: chains stay disjoint and
acyclic, clusters are neither lost nor handed out twice, and the table on the
medium is safe after every single sector write.
*/
module FatRuns {
  import opened FatMap

  // ---------------------------------------------------------- crash safety

  /** No link points at a free cluster and no cluster has two predecessors. */
  ghost predicate Safe(f: Table) {
    && (forall c :: IsCluster(f, c) && IsCluster(f, f[c]) ==> f[f[c]] != 0)
    && (forall c, d :: IsCluster(f, c) && IsCluster(f, d) && c != d && IsCluster(f, f[c]) ==> f[c] != f[d])
  }

  ghost predicate AllSafe(ts: seq<Table>) {
    forall i :: 0 <= i < |ts| ==> Safe(ts[i])
  }

  ghost predicate NoLinkTo(f: Table, t: nat) {
    forall c :: IsCluster(f, c) && t < |f| ==> f[c] != t
  }

  lemma EndIsSafe(f: Table, c: nat, end: nat)
    requires Safe(f) && IsCluster(f, c) && end >= |f|
    ensures Safe(f[c := end])
    ensures IsCluster(f, f[c]) ==> NoLinkTo(f[c := end], f[c])
  {
  }

  /** create_chain: the end mark reaches the table before the link does. */
  lemma CreateIsSafe(f: Table, last: nat, clst: nat, end: nat)
    requires |f| >= 3 && Safe(f) && end >= |f|
    ensures AllSafe(CreateSteps(f, last, clst, end))
    ensures Safe(CreateTable(f, last, clst, end))
  {
    if Takes(f, last, clst) {
      TakesFree(f, last, clst);
      var r := CreateResult(f, last, clst);
      var h := f[r := end];
      assert NoLinkTo(f, r);
      EndIsSafe(f, r, end);
      if clst != 0 {
        assert NoLinkTo(h, r) && h[clst] >= |h|;
        LinkIsSafe(h, clst, r);
      }
    }
  }

  lemma LinkIsSafe(f: Table, c: nat, t: nat)
    requires Safe(f) && IsCluster(f, c) && IsCluster(f, t) && f[t] >= 2 && NoLinkTo(f, t) && f[c] >= |f|
    ensures Safe(f[c := t])
  {
  }

  /** remove_chain from a cluster nothing links to: every intermediate table is safe. */
  lemma {:induction false} FreeIsSafe(f: Table, c: nat)
    requires Safe(f) && c >= 2 && NoLinkTo(f, c)
    ensures AllSafe(FreeSteps(f, c)) && Safe(FreeFrom(f, c).table)
    decreases NonZeroBelow(f, |f|)
  {
    if c < |f| && f[c] >= 2 {
      var h := f[c := 0];
      NonZeroUpdate(f, c, |f|);
      assert Safe(h) && NoLinkTo(h, f[c]);
      FreeIsSafe(h, f[c]);
    }
  }

  /** f_truncate's cut: end mark first, then the tail is freed from the front. */
  lemma CutIsSafe(f: Table, c: nat, end: nat)
    requires Safe(f) && IsCluster(f, c) && IsCluster(f, f[c]) && end >= |f|
    ensures AllSafe([f[c := end]] + FreeSteps(f[c := end], f[c]))
  {
    EndIsSafe(f, c, end);
    FreeIsSafe(f[c := end], f[c]);
  }

  // ------------------------------------------------- chains over whole runs

  /** The allocator's state and the chains it has handed out. */
  datatype State = State(table: Table, last: nat, chains: seq<seq<nat>>)

  datatype Request =
    | Create                       // create_chain(0)
    | Extend(i: nat)               // create_chain at the end of chain i
    | Remove(i: nat)               // remove_chain of the whole chain i
    | Cut(i: nat, k: nat)          // f_truncate: keep k clusters of chain i

  ghost predicate Disjoint(xs: seq<nat>, ys: seq<nat>) {
    forall c :: c in xs ==> c !in ys
  }

  /** Every chain is one, and no cluster is in two. */
  ghost predicate Family(s: State) {
    && |s.table| >= 3
    && (forall i :: 0 <= i < |s.chains| ==> IsChain(s.table, s.chains[i]))
    && (forall i, j :: 0 <= i < j < |s.chains| ==> Disjoint(s.chains[i], s.chains[j]))
  }

  /** Every cluster in use is in a chain. */
  ghost predicate NoLeak(s: State) {
    forall c :: IsCluster(s.table, c) && s.table[c] != 0 ==> Owned(s.chains, c)
  }

  ghost predicate Owned(cs: seq<seq<nat>>, c: nat) {
    exists i :: 0 <= i < |cs| && c in cs[i]
  }

  function Total(cs: seq<seq<nat>>): nat {
    if cs == [] then 0 else Total(cs[..|cs| - 1]) + |cs[|cs| - 1]|
  }

  function LastOf(xs: seq<nat>): nat
    requires |xs| > 0
  {
    xs[|xs| - 1]
  }

  function Without(cs: seq<seq<nat>>, i: nat): seq<seq<nat>>
    requires i < |cs|
  {
    cs[..i] + cs[i + 1..]
  }

  /** What the C code does to the table; the chains are bookkeeping. */
  ghost function Apply(s: State, q: Request, end: nat): (r: State)
    requires Family(s) && end >= |s.table|
    ensures |r.table| == |s.table|
  {
    match q
    case Create =>
      var c := CreateResult(s.table, s.last, 0);
      if !Takes(s.table, s.last, 0) then s
      else State(CreateTable(s.table, s.last, 0, end), c, s.chains + [[c]])
    case Extend(i) =>
      if i >= |s.chains| || !Takes(s.table, s.last, LastOf(s.chains[i])) then s
      else
        var c := CreateResult(s.table, s.last, LastOf(s.chains[i]));
        State(CreateTable(s.table, s.last, LastOf(s.chains[i]), end), c, s.chains[i := s.chains[i] + [c]])
    case Remove(i) =>
      if i >= |s.chains| then s
      else State(FreeFrom(s.table, s.chains[i][0]).table, s.last, Without(s.chains, i))
    case Cut(i, k) =>
      if i >= |s.chains| || k == 0 || k >= |s.chains[i]| then s
      else
        var xs := s.chains[i];
        State(FreeFrom(s.table[xs[k - 1] := end], xs[k]).table, s.last, s.chains[i := xs[..k]])
  }

  /** Clusters free or in some chain. */
  function Clusters(s: State): nat {
    FreeCount(s.table) + Total(s.chains)
  }

  // ---- one request at a time

  lemma CreateFamily(s: State, end: nat)
    requires Family(s) && end >= |s.table| && Takes(s.table, s.last, 0)
    ensures Family(Apply(s, Create, end))
  {
    hide CreateResult, CreateTable;
    var f, r, c := s.table, Apply(s, Create, end), CreateResult(s.table, s.last, 0);
    CreateFacts(f, s.last, end);
    forall i | 0 <= i < |s.chains|
      ensures IsChain(r.table, s.chains[i]) && Disjoint(s.chains[i], [c])
    {
      NotFree(f, s.chains[i]);
      OthersUntouched(f, r.table, s.chains[i], c, c);
    }
    assert IsChain(r.table, [c]);
  }

  lemma CreateFacts(f: Table, last: nat, end: nat)
    requires |f| >= 3 && end >= |f| && Takes(f, last, 0)
    ensures var c := CreateResult(f, last, 0);
      IsCluster(f, c) && f[c] == 0 && CreateTable(f, last, 0, end) == f[c := end]
  {
    TakesFree(f, last, 0);
  }

  lemma CreateCount(s: State, end: nat)
    requires Family(s) && end >= |s.table| && Takes(s.table, s.last, 0)
    ensures Clusters(Apply(s, Create, end)) == Clusters(s)
  {
    var c, r := CreateResult(s.table, s.last, 0), Apply(s, Create, end);
    TakesFree(s.table, s.last, 0);
    LinkedCount(s.table, 0, c, end);
    assert r.chains[..|s.chains|] == s.chains;
  }

  lemma CreateLeak(s: State, end: nat)
    requires Family(s) && end >= |s.table| && Takes(s.table, s.last, 0) && NoLeak(s)
    ensures NoLeak(Apply(s, Create, end))
  {
    var c, r := CreateResult(s.table, s.last, 0), Apply(s, Create, end);
    CreateFacts(s.table, s.last, end);
    forall d | IsCluster(r.table, d) && r.table[d] != 0
      ensures Owned(r.chains, d)
    {
      if d == c {
        assert d in r.chains[|s.chains|];
      } else {
        OwnedIn(s.chains, r.chains, d);
      }
    }
  }

  /** A chain survives stores to a cluster c it has and c2 it has not when both stay out of it. */
  lemma OthersUntouched(f: Table, h: Table, xs: seq<nat>, c: nat, c2: nat)
    requires IsChain(f, xs) && |h| == |f| && c2 !in xs && IsCluster(f, c) && f[c] == 0
    requires forall d :: IsCluster(f, d) && d != c && d != c2 ==> h[d] == f[d]
    ensures IsChain(h, xs) && c !in xs
  {
    if c in xs {
      ChainMember(f, xs, c);
    }
    forall d | d in xs && d < |f|
      ensures h[d] == f[d]
    {
      ChainMember(f, xs, d);
    }
    ChainFrame(f, h, xs);
  }

  lemma OwnedIn(cs: seq<seq<nat>>, ds: seq<seq<nat>>, c: nat)
    requires Owned(cs, c) && |cs| <= |ds|
    requires forall i :: 0 <= i < |cs| ==> forall d :: d in cs[i] ==> d in ds[i]
    ensures Owned(ds, c)
  {
    var i :| 0 <= i < |cs| && c in cs[i];
    assert c in ds[i];
  }

  lemma {:induction false} TotalUpdate(cs: seq<seq<nat>>, i: nat, xs: seq<nat>)
    requires i < |cs|
    ensures Total(cs[i := xs]) == Total(cs) - |cs[i]| + |xs|
    decreases |cs|
  {
    var n := |cs| - 1;
    var ds := cs[i := xs];
    if i == n {
      assert ds[..n] == cs[..n];
    } else {
      assert ds[..n] == cs[..n][i := xs];
      TotalUpdate(cs[..n], i, xs);
    }
  }

  lemma {:induction false} TotalWithout(cs: seq<seq<nat>>, i: nat)
    requires i < |cs|
    ensures Total(Without(cs, i)) == Total(cs) - |cs[i]|
    decreases |cs|
  {
    var n := |cs| - 1;
    var ds := Without(cs, i);
    if i == n {
      assert ds == cs[..n];
    } else {
      assert ds[..n - 1] == Without(cs[..n], i);
      TotalWithout(cs[..n], i);
    }
  }

  lemma ExtendFamily(s: State, i: nat, end: nat)
    requires Family(s) && end >= |s.table| && i < |s.chains| && Takes(s.table, s.last, LastOf(s.chains[i]))
    ensures Family(Apply(s, Extend(i), end))
  {
    hide CreateResult;
    var f, r, xs := s.table, Apply(s, Extend(i), end), s.chains[i];
    var t := LastOf(xs);
    var c := CreateResult(f, s.last, t);
    TakesFree(f, s.last, t);
    ChainExtend(f, xs, c, end);
    assert t in xs;
    forall j | 0 <= j < |s.chains| && j != i
      ensures IsChain(r.table, s.chains[j]) && Disjoint(s.chains[j], xs + [c]) && Disjoint(xs + [c], s.chains[j])
    {
      DisjointBoth(s, i, j);
      OthersUntouched(f, r.table, s.chains[j], c, t);
    }
  }

  lemma ExtendCount(s: State, i: nat, end: nat)
    requires Family(s) && end >= |s.table| && i < |s.chains| && Takes(s.table, s.last, LastOf(s.chains[i]))
    ensures Clusters(Apply(s, Extend(i), end)) == Clusters(s)
  {
    var xs := s.chains[i];
    var c := CreateResult(s.table, s.last, LastOf(xs));
    TakesFree(s.table, s.last, LastOf(xs));
    LinkedCount(s.table, LastOf(xs), c, end);
    TotalUpdate(s.chains, i, xs + [c]);
  }

  lemma ExtendLeak(s: State, i: nat, end: nat)
    requires Family(s) && end >= |s.table| && i < |s.chains| && Takes(s.table, s.last, LastOf(s.chains[i])) && NoLeak(s)
    ensures NoLeak(Apply(s, Extend(i), end))
  {
    var r, t := Apply(s, Extend(i), end), LastOf(s.chains[i]);
    var c := CreateResult(s.table, s.last, t);
    TakesFree(s.table, s.last, t);
    forall d | IsCluster(r.table, d) && r.table[d] != 0
      ensures Owned(r.chains, d)
    {
      if d == c {
        assert d in r.chains[i];
      } else {
        OwnedIn(s.chains, r.chains, d);
      }
    }
  }

  lemma DisjointBoth(s: State, i: nat, j: nat)
    requires Family(s) && i < |s.chains| && j < |s.chains| && i != j
    ensures Disjoint(s.chains[i], s.chains[j]) && Disjoint(s.chains[j], s.chains[i])
  {
    var a, b := if i < j then i else j, if i < j then j else i;
    assert Disjoint(s.chains[a], s.chains[b]);
  }

  lemma RemoveFamily(s: State, i: nat, end: nat)
    requires Family(s) && end >= |s.table| && i < |s.chains|
    ensures Family(Apply(s, Remove(i), end))
  {
    hide FreeFrom;
    var f, r := s.table, Apply(s, Remove(i), end);
    FreeFromChain(f, s.chains[i]);
    forall j | 0 <= j < |r.chains|
      ensures IsChain(r.table, r.chains[j])
    {
      var k := if j < i then j else j + 1;
      DisjointBoth(s, k, i);
      ChainFrame(f, r.table, s.chains[k]);
    }
  }

  lemma RemoveCount(s: State, i: nat, end: nat)
    requires Family(s) && end >= |s.table| && i < |s.chains|
    ensures Clusters(Apply(s, Remove(i), end)) == Clusters(s)
  {
    hide FreeFrom;
    FreeFromChain(s.table, s.chains[i]);
    FreeFromCount(s.table, s.chains[i][0]);
    TotalWithout(s.chains, i);
  }

  lemma RemoveLeak(s: State, i: nat, end: nat)
    requires Family(s) && end >= |s.table| && i < |s.chains| && NoLeak(s)
    ensures NoLeak(Apply(s, Remove(i), end))
  {
    hide FreeFrom;
    var r := Apply(s, Remove(i), end);
    FreeFromChain(s.table, s.chains[i]);
    forall d | IsCluster(r.table, d) && r.table[d] != 0
      ensures Owned(r.chains, d)
    {
      assert d !in s.chains[i] && s.table[d] != 0;
      OwnedWithout(s.chains, i, d);
    }
  }

  lemma OwnedWithout(chains: seq<seq<nat>>, i: nat, d: nat)
    requires Owned(chains, d) && i < |chains| && d !in chains[i]
    ensures Owned(Without(chains, i), d)
  {
    var k :| 0 <= k < |chains| && d in chains[k];
    var r := Without(chains, i);
    if k < i {
      assert r[k] == chains[k];
    } else {
      assert r[k - 1] == chains[k];
    }
  }

  lemma CutFamily(s: State, i: nat, k: nat, end: nat)
    requires Family(s) && end >= |s.table| && i < |s.chains| && 0 < k < |s.chains[i]|
    ensures Family(Apply(s, Cut(i, k), end))
  {
    hide FreeFrom;
    var f, r, xs := s.table, Apply(s, Cut(i, k), end), s.chains[i];
    CutTable(f, xs, k, end);
    assert forall c :: c in xs[..k] ==> c in xs;
    forall j | 0 <= j < |s.chains| && j != i
      ensures IsChain(r.table, s.chains[j]) && Disjoint(s.chains[j], xs[..k]) && Disjoint(xs[..k], s.chains[j])
    {
      DisjointBoth(s, i, j);
      ChainFrame(f, r.table, s.chains[j]);
    }
  }

  lemma CutCount(s: State, i: nat, k: nat, end: nat)
    requires Family(s) && end >= |s.table| && i < |s.chains| && 0 < k < |s.chains[i]|
    ensures Clusters(Apply(s, Cut(i, k), end)) == Clusters(s)
  {
    hide FreeFrom;
    var f, xs := s.table, s.chains[i];
    CutTable(f, xs, k, end);
    ChainMember(f, xs, xs[k - 1]);
    FreeCountUpdate(f, xs[k - 1], end);
    FreeFromCount(f[xs[k - 1] := end], xs[k]);
    TotalUpdate(s.chains, i, xs[..k]);
  }

  lemma CutLeak(s: State, i: nat, k: nat, end: nat)
    requires Family(s) && end >= |s.table| && i < |s.chains| && 0 < k < |s.chains[i]| && NoLeak(s)
    ensures NoLeak(Apply(s, Cut(i, k), end))
  {
    hide FreeFrom, Owned, IsChain;
    var f, r, xs := s.table, Apply(s, Cut(i, k), end), s.chains[i];
    CutTable(f, xs, k, end);
    forall d | IsCluster(r.table, d) && r.table[d] != 0
      ensures Owned(r.chains, d)
    {
      if d in xs {
        assert d in xs[..k] by { assert xs == xs[..k] + xs[k..]; }
        OwnedBy(r.chains, i, d);
      } else {
        OwnedApart(s.chains, i, xs[..k], d);
      }
    }
  }

  lemma OwnedBy(chains: seq<seq<nat>>, i: nat, d: nat)
    requires i < |chains| && d in chains[i]
    ensures Owned(chains, d)
  {
  }

  lemma OwnedApart(chains: seq<seq<nat>>, i: nat, x: seq<nat>, d: nat)
    requires Owned(chains, d) && i < |chains| && d !in chains[i]
    ensures Owned(chains[i := x], d)
  {
    var j :| 0 <= j < |chains| && d in chains[j];
    assert chains[i := x][j] == chains[j];
  }

  /** The table after a cut: the kept part is a chain, the tail is free, the rest is as before. */
  lemma CutTable(f: Table, xs: seq<nat>, k: nat, end: nat)
    requires IsChain(f, xs) && 0 < k < |xs| && end >= |f|
    ensures var r := FreeFrom(f[xs[k - 1] := end], xs[k]);
      && r.ok && r.count == |xs| - k && IsChain(r.table, xs[..k])
      && (forall c :: c in xs[k..] && c < |f| ==> r.table[c] == 0)
      && (forall c :: 0 <= c < |f| && c !in xs ==> r.table[c] == f[c])
  {
    var h := f[xs[k - 1] := end];
    ChainDistinct(f, xs);
    ChainCut(f, xs, k, end);
    FreeFromChain(h, xs[k..]);
    var r := FreeFrom(h, xs[k]).table;
    forall c | c in xs[..k] && c < |f|
      ensures r[c] == h[c]
    {
      var i :| 0 <= i < k && xs[i] == c;
      assert c !in xs[k..];
    }
    ChainFrame(h, r, xs[..k]);
    forall c | 0 <= c < |f| && c !in xs
      ensures r[c] == f[c]
    {
      assert c !in xs[k..] && c != xs[k - 1];
    }
  }

  ghost function Run(s: State, qs: seq<Request>, end: nat): (r: State)
    requires Family(s) && end >= |s.table|
    ensures |r.table| == |s.table|
    decreases |qs|
  {
    if qs == [] then s
    else
      StepKeeps(s, qs[0], end);
      Run(Apply(s, qs[0], end), qs[1..], end)
  }

  lemma StepKeeps(s: State, q: Request, end: nat)
    requires Family(s) && end >= |s.table|
    ensures Family(Apply(s, q, end)) && Clusters(Apply(s, q, end)) == Clusters(s)
    ensures NoLeak(s) ==> NoLeak(Apply(s, q, end))
  {
    hide Family, NoLeak, Clusters;
    if Apply(s, q, end) != s {
      match q
      case Create => CreateFamily(s, end); CreateCount(s, end);
        if NoLeak(s) { CreateLeak(s, end); }
      case Extend(i) => ExtendFamily(s, i, end); ExtendCount(s, i, end);
        if NoLeak(s) { ExtendLeak(s, i, end); }
      case Remove(i) => RemoveFamily(s, i, end); RemoveCount(s, i, end);
        if NoLeak(s) { RemoveLeak(s, i, end); }
      case Cut(i, k) => CutFamily(s, i, k, end); CutCount(s, i, k, end);
        if NoLeak(s) { CutLeak(s, i, k, end); }
    }
  }

  /** Over every run: disjoint acyclic chains, clusters conserved, no cluster lost. */
  lemma {:induction false} RunKeeps(s: State, qs: seq<Request>, end: nat)
    requires Family(s) && end >= |s.table|
    ensures Family(Run(s, qs, end)) && Clusters(Run(s, qs, end)) == Clusters(s)
    ensures NoLeak(s) ==> NoLeak(Run(s, qs, end))
    decreases |qs|
  {
    hide Family, NoLeak, Clusters, Apply;
    if qs != [] {
      StepKeeps(s, qs[0], end);
      RunKeeps(Apply(s, qs[0], end), qs[1..], end);
    }
  }

  /** A chain a request does not name keeps its clusters and its links. */
  lemma UnnamedChainsStay(s: State, q: Request, end: nat, j: nat)
    requires Family(s) && end >= |s.table| && j < |s.chains|
    requires q.Create? || q.i != j
    ensures s.chains[j] in Apply(s, q, end).chains
    ensures forall c :: c in s.chains[j] && c < |s.table| ==> Apply(s, q, end).table[c] == s.table[c]
  {
    hide FreeFrom, CreateResult;
    var f, r, ys := s.table, Apply(s, q, end), s.chains[j];
    if r != s {
      match q
      case Create =>
        CreateFacts(f, s.last, end);
        assert r.chains[j] == ys;
        NotFree(f, ys);
      case Extend(i) =>
        TakesFree(f, s.last, LastOf(s.chains[i]));
        assert r.chains[j] == ys;
        NotFree(f, ys);
        DisjointBoth(s, i, j);
        assert LastOf(s.chains[i]) in s.chains[i];
      case Remove(i) =>
        FreeFromChain(f, s.chains[i]);
        DisjointBoth(s, i, j);
        assert r.chains[if j < i then j else j - 1] == ys;
      case Cut(i, k) =>
        CutTable(f, s.chains[i], k, end);
        DisjointBoth(s, i, j);
        assert r.chains[j] == ys;
    }
  }

  lemma NotFree(f: Table, xs: seq<nat>)
    requires IsChain(f, xs)
    ensures forall c :: c in xs && c < |f| ==> f[c] != 0
  {
    forall c | c in xs && c < |f|
      ensures f[c] != 0
    {
      ChainMember(f, xs, c);
    }
  }

  /** When no cluster is lost, nothing links to the first cluster of a chain. */
  lemma HeadHasNoPredecessor(s: State, i: nat)
    requires Family(s) && NoLeak(s) && i < |s.chains|
    ensures NoLinkTo(s.table, s.chains[i][0])
  {
    var f, head := s.table, s.chains[i][0];
    assert IsCluster(f, head);
    forall c | IsCluster(f, c)
      ensures f[c] != head
    {
      if f[c] == head {
        NoPredecessorIn(s, i, c);
      }
    }
  }

  lemma NoPredecessorIn(s: State, i: nat, c: nat)
    requires Family(s) && NoLeak(s) && i < |s.chains| && IsCluster(s.table, c) && IsCluster(s.table, s.chains[i][0])
    ensures s.table[c] != s.chains[i][0]
  {
    var f, head := s.table, s.chains[i][0];
    assert head in s.chains[i];
    if f[c] == head {
      assert Owned(s.chains, c);
      var j: nat :| j < |s.chains| && c in s.chains[j];
      SuccessorInside(f, s.chains[j], c);
      if j != i {
        DisjointBoth(s, i, j);
      }
    }
  }

  /** A link from a cluster of a chain leads to a later cluster of it, never to its first. */
  lemma SuccessorInside(f: Table, ys: seq<nat>, c: nat)
    requires IsChain(f, ys) && c in ys && IsCluster(f, c) && f[c] < |f|
    ensures f[c] in ys && f[c] != ys[0]
  {
    ChainDistinct(f, ys);
    var p :| 0 <= p < |ys| && ys[p] == c;
    assert f[c] == ys[p + 1];
  }

  // ------------------------------------------- crash safety over whole runs

  /** When no cluster is lost, disjoint chains are a safe table. */
  lemma FamilySafe(s: State)
    requires Family(s) && NoLeak(s)
    ensures Safe(s.table)
  {
    var f := s.table;
    forall c | IsCluster(f, c) && IsCluster(f, f[c])
      ensures f[f[c]] != 0 && forall d :: IsCluster(f, d) && f[d] == f[c] ==> d == c
    {
      assert Owned(s.chains, c);
      var i: nat :| i < |s.chains| && c in s.chains[i];
      SuccessorInside(f, s.chains[i], c);
      NotFree(f, s.chains[i]);
      forall d | IsCluster(f, d) && f[d] == f[c]
        ensures d == c
      {
        assert Owned(s.chains, d);
        var j: nat :| j < |s.chains| && d in s.chains[j];
        SuccessorInside(f, s.chains[j], d);
        if i != j {
          DisjointBoth(s, i, j);
        }
        SuccessorUnique(f, s.chains[i], c, d);
      }
    }
  }

  lemma SuccessorUnique(f: Table, ys: seq<nat>, c: nat, d: nat)
    requires IsChain(f, ys) && c in ys && d in ys && c < |f| && d < |f| && f[c] == f[d] < |f|
    ensures c == d
  {
    ChainDistinct(f, ys);
    var p :| 0 <= p < |ys| && ys[p] == c;
    var q :| 0 <= q < |ys| && ys[q] == d;
    assert ys[p + 1] == ys[q + 1];
  }

  /** The tables a request stores, one after the other. */
  ghost function Stores(s: State, q: Request, end: nat): seq<Table>
    requires Family(s) && end >= |s.table|
  {
    match q
    case Create => CreateSteps(s.table, s.last, 0, end)
    case Extend(i) => if i >= |s.chains| then [] else CreateSteps(s.table, s.last, LastOf(s.chains[i]), end)
    case Remove(i) => if i >= |s.chains| then [] else FreeSteps(s.table, s.chains[i][0])
    case Cut(i, k) =>
      if i >= |s.chains| || k == 0 || k >= |s.chains[i]| then []
      else
        var h := s.table[s.chains[i][k - 1] := end];
        [h] + FreeSteps(h, s.chains[i][k])
  }

  /** Every table one request stores is safe; the chain removed needs no assumption of its own. */
  lemma StepIsSafe(s: State, q: Request, end: nat)
    requires Family(s) && NoLeak(s) && end >= |s.table|
    ensures AllSafe(Stores(s, q, end))
  {
    hide Safe, AllSafe, FreeSteps, CreateSteps, NoLeak;
    FamilySafe(s);
    NoneSafe();
    match q
    case Create => CreateIsSafe(s.table, s.last, 0, end);
    case Extend(i) =>
      if i < |s.chains| {
        CreateIsSafe(s.table, s.last, LastOf(s.chains[i]), end);
      }
    case Remove(i) =>
      if i < |s.chains| {
        HeadHasNoPredecessor(s, i);
        FreeIsSafe(s.table, s.chains[i][0]);
      }
    case Cut(i, k) =>
      if i < |s.chains| && 0 < k < |s.chains[i]| {
        assert IsCluster(s.table, s.chains[i][k]) && s.table[s.chains[i][k - 1]] == s.chains[i][k];
        CutIsSafe(s.table, s.chains[i][k - 1], end);
      }
  }

  lemma NoneSafe()
    ensures AllSafe([])
  {
  }

  /** The tables a whole run stores. */
  ghost function RunStores(s: State, qs: seq<Request>, end: nat): seq<Table>
    requires Family(s) && end >= |s.table|
    decreases |qs|
  {
    if qs == [] then []
    else
      StepKeeps(s, qs[0], end);
      Stores(s, qs[0], end) + RunStores(Apply(s, qs[0], end), qs[1..], end)
  }

  /**
  Over every run of requests every table stored on the way is safe: at no single store does a
  link lead to a free cluster or do two chains run into each other.
  */
  lemma {:induction false} RunIsSafe(s: State, qs: seq<Request>, end: nat)
    requires Family(s) && NoLeak(s) && end >= |s.table|
    ensures Safe(s.table) && AllSafe(RunStores(s, qs, end))
    decreases |qs|
  {
    hide Family, NoLeak, Safe, Apply, Stores, Clusters;
    FamilySafe(s);
    if qs != [] {
      StepKeeps(s, qs[0], end);
      StepIsSafe(s, qs[0], end);
      RunIsSafe(Apply(s, qs[0], end), qs[1..], end);
    }
  }
}
