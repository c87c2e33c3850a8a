/**
The decoded FAT as a table from cluster numbers to entries: cluster chains, the
allocation search, freeing, and the invariants of the table over whole runs.
Entry 0 means free, 1 is an error mark, 2 to |f| - 1 link to the next cluster and
anything from |f| on ends a chain.
*/
module FatMap {

  type Table = seq<nat>

  predicate IsCluster(f: Table, c: int) {
    2 <= c < |f|
  }

  /** xs is the whole chain that starts at xs[0]. */
  predicate IsChain(f: Table, xs: seq<nat>) {
    && |xs| > 0
    && (forall i :: 0 <= i < |xs| ==> IsCluster(f, xs[i]))
    && (forall i :: 0 <= i < |xs| - 1 ==> f[xs[i]] == xs[i + 1])
    && f[xs[|xs| - 1]] >= |f|
  }

  predicate Distinct(xs: seq<nat>) {
    forall i, j :: 0 <= i < j < |xs| ==> xs[i] != xs[j]
  }

  /** A chain that ends never visits a cluster twice. */
  lemma ChainDistinct(f: Table, xs: seq<nat>)
    requires IsChain(f, xs)
    ensures Distinct(xs)
  {
    forall i, j | 0 <= i < j < |xs|
      ensures xs[i] != xs[j]
    {
      NoRevisit(f, xs, i, j);
    }
  }

  lemma {:induction false} NoRevisit(f: Table, xs: seq<nat>, i: nat, j: nat)
    requires IsChain(f, xs) && i < j < |xs|
    ensures xs[i] != xs[j]
    decreases |xs| - j
  {
    assert IsCluster(f, xs[i + 1]) && f[xs[i]] == xs[i + 1];
    if j < |xs| - 1 {
      NoRevisit(f, xs, i + 1, j + 1);
    }
  }

  /** A chain is determined by its first cluster. */
  lemma {:induction false} ChainUnique(f: Table, xs: seq<nat>, ys: seq<nat>)
    requires IsChain(f, xs) && IsChain(f, ys) && xs[0] == ys[0]
    ensures xs == ys
  {
    assert |xs| > 1 ==> IsCluster(f, xs[1]) && f[xs[0]] == xs[1];
    assert |ys| > 1 ==> IsCluster(f, ys[1]) && f[ys[0]] == ys[1];
    if |xs| > 1 {
      ChainTail(f, xs, 1);
      ChainTail(f, ys, 1);
      ChainUnique(f, xs[1..], ys[1..]);
      assert xs == [xs[0]] + xs[1..] && ys == [ys[0]] + ys[1..];
    }
  }

  lemma ChainTail(f: Table, xs: seq<nat>, k: nat)
    requires IsChain(f, xs) && k < |xs|
    ensures IsChain(f, xs[k..])
  {
  }

  /** Only the entries of its own clusters matter to a chain. */
  lemma ChainFrame(f: Table, h: Table, xs: seq<nat>)
    requires IsChain(f, xs) && |h| == |f|
    requires forall c :: c in xs && c < |f| ==> h[c] == f[c]
    ensures IsChain(h, xs)
  {
    forall i | 0 <= i < |xs|
      ensures IsCluster(h, xs[i]) && h[xs[i]] == f[xs[i]]
    {
      assert xs[i] in xs;
    }
  }

  lemma ChainMember(f: Table, xs: seq<nat>, c: nat)
    requires IsChain(f, xs) && c in xs
    ensures IsCluster(f, c) && f[c] >= 2
  {
    var i :| 0 <= i < |xs| && xs[i] == c;
    if i < |xs| - 1 {
      assert IsCluster(f, xs[i + 1]);
    }
  }

  /** A cluster appended to a chain, as create_chain links it. */
  lemma ChainExtend(f: Table, xs: seq<nat>, c: nat, end: nat)
    requires IsChain(f, xs) && IsCluster(f, c) && f[c] == 0 && end >= |f|
    ensures IsChain(f[c := end][xs[|xs| - 1] := c], xs + [c])
  {
    var h, ys := f[c := end][xs[|xs| - 1] := c], xs + [c];
    ChainDistinct(f, xs);
    forall i | 0 <= i < |xs|
      ensures ys[i] == xs[i] != c
    {
      ChainMember(f, xs, xs[i]);
    }
    forall i | 0 <= i < |xs| - 1
      ensures h[ys[i]] == ys[i + 1]
    {
      assert xs[i] != xs[|xs| - 1];
    }
  }

  /** A chain cut after its k-th cluster falls into two chains. */
  lemma ChainCut(f: Table, xs: seq<nat>, k: nat, end: nat)
    requires IsChain(f, xs) && 0 < k < |xs| && end >= |f|
    ensures IsChain(f[xs[k - 1] := end], xs[..k]) && IsChain(f[xs[k - 1] := end], xs[k..])
  {
    ChainDistinct(f, xs);
    var h := f[xs[k - 1] := end];
    forall i | 0 <= i < |xs| && i != k - 1
      ensures h[xs[i]] == f[xs[i]]
    {
    }
  }

  // ---------------------------------------------------------------- counting

  /** Number of free clusters among 2 .. k - 1. */
  function FreeBelow(f: Table, k: nat): (r: nat)
    requires k <= |f|
    ensures r <= if k < 2 then 0 else k - 2
  {
    if k <= 2 then 0 else FreeBelow(f, k - 1) + if f[k - 1] == 0 then 1 else 0
  }

  function FreeCount(f: Table): nat {
    FreeBelow(f, |f|)
  }

  /** The count is that of the set of free clusters. */
  lemma {:induction false} FreeBelowIsSize(f: Table, k: nat)
    requires k <= |f|
    ensures FreeBelow(f, k) == |set c: nat | 2 <= c < k && f[c] == 0|
  {
    var free := set c: nat | 2 <= c < k && f[c] == 0;
    if k > 2 {
      FreeBelowIsSize(f, k - 1);
      var fewer := set c: nat | 2 <= c < k - 1 && f[c] == 0;
      assert free == if f[k - 1] == 0 then fewer + {k - 1} else fewer;
    } else {
      assert free == {};
    }
  }

  lemma FreeCountInPlain(f: Table)
    ensures FreeCount(f) == |set c: nat | 2 <= c < |f| && f[c] == 0|
  {
    FreeBelowIsSize(f, |f|);
  }

  lemma {:induction false} FreeBelowUpdate(f: Table, c: nat, v: nat, k: nat)
    requires IsCluster(f, c) && k <= |f|
    ensures FreeBelow(f[c := v], k) == FreeBelow(f, k)
              + (if c < k && v == 0 then 1 else 0) - (if c < k && f[c] == 0 then 1 else 0)
  {
    if k > 2 {
      FreeBelowUpdate(f, c, v, k - 1);
    }
  }

  lemma FreeCountUpdate(f: Table, c: nat, v: nat)
    requires IsCluster(f, c)
    ensures FreeCount(f[c := v]) == FreeCount(f) + (if v == 0 then 1 else 0) - (if f[c] == 0 then 1 else 0)
  {
    FreeBelowUpdate(f, c, v, |f|);
  }

  // ------------------------------------------------------- allocation search

  /** The cluster create_chain looks at after k others when it starts from hint scl. */
  function CyclicAt(n: nat, scl: nat, k: nat): nat {
    if scl + 1 + k < n then scl + 1 + k else scl + 3 + k - n
  }

  /** How many clusters are looked at before cluster c. */
  function Turn(n: nat, scl: nat, c: nat): int {
    if c > scl then c - scl - 1 else n - scl - 1 + c - 2
  }

  lemma TurnInverse(n: nat, scl: nat, c: nat)
    requires 1 <= scl < n && 2 <= c < n
    ensures 0 <= Turn(n, scl, c) < n - 2 && CyclicAt(n, scl, Turn(n, scl, c)) == c
  {
  }

  lemma CyclicInRange(n: nat, scl: nat, k: nat)
    requires 1 <= scl < n && k < n - 2
    ensures 2 <= CyclicAt(n, scl, k) < n && Turn(n, scl, CyclicAt(n, scl, k)) == k
  {
  }

  /** First turn from k on whose cluster has an entry below 2; |f| - 2 if there is none. */
  function FirstStop(f: Table, scl: nat, k: nat): (r: nat)
    requires 1 <= scl < |f| && |f| >= 3 && k <= |f| - 2
    ensures k <= r <= |f| - 2
    ensures r < |f| - 2 ==> f[CyclicAt(|f|, scl, r)] < 2
    ensures forall j :: k <= j < r ==> f[CyclicAt(|f|, scl, j)] >= 2
    decreases |f| - 2 - k
  {
    if k == |f| - 2 || f[CyclicAt(|f|, scl, k)] < 2 then k else FirstStop(f, scl, k + 1)
  }

  /** Result of the search: 0 if it comes round, 1 if it meets an error mark, else a free cluster. */
  function NewCluster(f: Table, scl: nat): nat
    requires 1 <= scl < |f| && |f| >= 3
  {
    var k := FirstStop(f, scl, 0);
    if k == |f| - 2 then 0 else if f[CyclicAt(|f|, scl, k)] == 0 then CyclicAt(|f|, scl, k) else 1
  }

  /** Start of the search for a new chain: the last allocated cluster if it is one. */
  function Hint(f: Table, last: nat): (scl: nat)
    requires |f| >= 3
    ensures 1 <= scl < |f|
  {
    if last == 0 || last >= |f| then 1 else last
  }

  ghost predicate NoErrorMark(f: Table) {
    forall c :: IsCluster(f, c) ==> f[c] != 1
  }

  /**
  The search is complete: without error marks it fails exactly when no cluster is
  free, and otherwise takes the first free cluster in cyclic order after the hint.
  */
  lemma SearchComplete(f: Table, scl: nat)
    requires 1 <= scl < |f| && |f| >= 3 && NoErrorMark(f)
    ensures NewCluster(f, scl) == 0 <==> (forall c :: IsCluster(f, c) ==> f[c] != 0)
    ensures NewCluster(f, scl) != 0 ==>
      && IsCluster(f, NewCluster(f, scl)) && f[NewCluster(f, scl)] == 0
      && forall c :: IsCluster(f, c) && f[c] == 0 ==> Turn(|f|, scl, NewCluster(f, scl)) <= Turn(|f|, scl, c)
  {
    var k := FirstStop(f, scl, 0);
    if k < |f| - 2 {
      CyclicInRange(|f|, scl, k);
    }
    forall c | IsCluster(f, c) && f[c] == 0
      ensures k <= Turn(|f|, scl, c) < |f| - 2
    {
      TurnInverse(|f|, scl, c);
    }
  }

  /** Whatever the table holds, a result of 2 or more is a free cluster and 1 means an error mark. */
  lemma SearchSound(f: Table, scl: nat)
    requires 1 <= scl < |f| && |f| >= 3
    ensures NewCluster(f, scl) >= 2 ==> IsCluster(f, NewCluster(f, scl)) && f[NewCluster(f, scl)] == 0
    ensures NewCluster(f, scl) == 1 ==> !NoErrorMark(f)
    ensures NewCluster(f, scl) == 0 ==> forall c :: IsCluster(f, c) ==> f[c] >= 2
  {
    var k := FirstStop(f, scl, 0);
    if k < |f| - 2 {
      CyclicInRange(|f|, scl, k);
    } else {
      forall c | IsCluster(f, c)
        ensures f[c] >= 2
      {
        TurnInverse(|f|, scl, c);
      }
    }
  }

  // ------------------------------------------------------------ create_chain

  /** Does create_chain only follow (or reject) instead of searching? */
  predicate Follows(f: Table, clst: nat) {
    clst != 0 && (!IsCluster(f, clst) || f[clst] < |f|)
  }

  function CreateResult(f: Table, last: nat, clst: nat): nat
    requires |f| >= 3
  {
    if Follows(f, clst) then
      if !IsCluster(f, clst) || f[clst] < 2 then 1 else f[clst]
    else
      NewCluster(f, if clst == 0 then Hint(f, last) else clst)
  }

  /** Did create_chain take a free cluster? */
  predicate Takes(f: Table, last: nat, clst: nat)
    requires |f| >= 3
  {
    !Follows(f, clst) && CreateResult(f, last, clst) >= 2
  }

  /** Cluster ncl marked as end of chain and, if clst is a cluster, linked behind it. */
  function Linked(f: Table, clst: nat, ncl: nat, end: nat): (h: Table)
    requires IsCluster(f, ncl) && (clst != 0 ==> IsCluster(f, clst))
    ensures |h| == |f|
  {
    if clst == 0 then f[ncl := end] else f[ncl := end][clst := ncl]
  }

  function LinkSteps(f: Table, clst: nat, ncl: nat, end: nat): seq<Table>
    requires IsCluster(f, ncl) && (clst != 0 ==> IsCluster(f, clst))
  {
    if clst == 0 then [f[ncl := end]] else [f[ncl := end], f[ncl := end][clst := ncl]]
  }

  lemma LinkedCount(f: Table, clst: nat, ncl: nat, end: nat)
    requires IsCluster(f, ncl) && f[ncl] == 0 && end >= |f|
    requires clst != 0 ==> IsCluster(f, clst) && f[clst] >= |f|
    ensures FreeCount(Linked(f, clst, ncl, end)) == FreeCount(f) - 1
  {
    FreeCountUpdate(f, ncl, end);
    if clst != 0 {
      FreeCountUpdate(f[ncl := end], clst, ncl);
    }
  }

  function CreateTable(f: Table, last: nat, clst: nat, end: nat): (h: Table)
    requires |f| >= 3
    ensures |h| == |f|
  {
    if !Takes(f, last, clst) then f
    else
      TakesFree(f, last, clst);
      Linked(f, clst, CreateResult(f, last, clst), end)
  }

  lemma TakesFree(f: Table, last: nat, clst: nat)
    requires |f| >= 3 && Takes(f, last, clst)
    ensures IsCluster(f, CreateResult(f, last, clst)) && f[CreateResult(f, last, clst)] == 0
  {
    SearchSound(f, if clst == 0 then Hint(f, last) else clst);
  }

  /**
  create_chain in plain terms, for a new chain (clst 0) or behind the last cluster clst of one. The search
  starts behind clst, or behind the last cluster allocated if that is a cluster number, else at
  cluster 2, goes up to the end of the table and on from cluster 2, and takes the first free cluster it
  comes to, unless it meets an error mark before. That one gets the end mark and is linked behind clst; nothing else changes.
  */
  lemma CreateInPlain(f: Table, last: nat, clst: nat, end: nat, s: nat, r: nat, h: Table)
    requires |f| >= 3 && (clst == 0 || (IsCluster(f, clst) && f[clst] >= |f|))
    requires s == if clst != 0 then clst else if 1 <= last < |f| then last else 1
    requires r == CreateResult(f, last, clst) && h == CreateTable(f, last, clst, end)
    ensures r >= 2 ==> r < |f| && f[r] == 0
    ensures r >= 2 && r > s ==> forall c :: 2 <= c < |f| && s < c < r ==> f[c] >= 2
    ensures r >= 2 && r <= s ==> forall c :: 2 <= c < |f| && (s < c || c < r) ==> f[c] >= 2
    ensures r >= 2 ==> h == if clst == 0 then f[r := end] else f[r := end][clst := r]
    ensures r == 1 ==>
      exists e :: 2 <= e < |f| && f[e] == 1 && forall c :: 2 <= c < |f| && (if e > s then s < c < e else s < c || c < e) ==> f[c] >= 2
    ensures r == 0 ==> forall c :: 2 <= c < |f| ==> f[c] >= 2
    ensures r < 2 ==> h == f
  {
    SearchSound(f, s);
    var k := FirstStop(f, s, 0);
    if r != 0 {
      CyclicInRange(|f|, s, k);
      var e := CyclicAt(|f|, s, k);
      forall c | 2 <= c < |f| && if e > s then s < c < e else s < c || c < e
        ensures f[c] >= 2
      {
        TurnInverse(|f|, s, c);
        assert f[CyclicAt(|f|, s, Turn(|f|, s, c))] >= 2;
      }
    }
  }

  /** A cluster that is not the last of its chain is followed; no or a broken cluster number is refused. */
  lemma FollowInPlain(f: Table, last: nat, clst: nat, end: nat)
    requires |f| >= 3 && clst != 0 && (clst == 1 || clst >= |f| || f[clst] < |f|)
    ensures CreateResult(f, last, clst) == if 2 <= clst < |f| && f[clst] >= 2 then f[clst] else 1
    ensures CreateTable(f, last, clst, end) == f
  {
  }

  /** The tables create_chain stores, one after the other. */
  function CreateSteps(f: Table, last: nat, clst: nat, end: nat): seq<Table>
    requires |f| >= 3
  {
    if !Takes(f, last, clst) then []
    else
      TakesFree(f, last, clst);
      LinkSteps(f, clst, CreateResult(f, last, clst), end)
  }

  // ------------------------------------------------------------ remove_chain

  datatype Freed = Freed(table: Table, ok: bool, count: nat)

  function NonZeroBelow(f: Table, k: nat): nat
    requires k <= |f|
  {
    if k == 0 then 0 else NonZeroBelow(f, k - 1) + if f[k - 1] != 0 then 1 else 0
  }

  lemma {:induction false} NonZeroUpdate(f: Table, c: nat, k: nat)
    requires c < |f| && k <= |f| && f[c] != 0
    ensures NonZeroBelow(f[c := 0], k) == NonZeroBelow(f, k) - if c < k then 1 else 0
  {
    if k > 0 {
      NonZeroUpdate(f, c, k - 1);
    }
  }

  /**
  What remove_chain does to any table: it terminates on a cyclic or cross-linked
  one because each turn clears an entry. `count` is the number of entries cleared.
  */
  function FreeFrom(f: Table, c: nat): (r: Freed)
    requires c >= 2
    ensures |r.table| == |f|
    ensures forall d :: 0 <= d < |f| ==> r.table[d] == f[d] || r.table[d] == 0
    decreases NonZeroBelow(f, |f|)
  {
    if c >= |f| || f[c] == 0 then Freed(f, true, 0)
    else if f[c] == 1 then Freed(f, false, 0)
    else
      NonZeroUpdate(f, c, |f|);
      var r := FreeFrom(f[c := 0], f[c]);
      r.(count := r.count + 1)
  }

  /**
  remove_chain in plain terms, on any table: it is done at a number outside the table or at a free
  cluster, fails at an error mark, and otherwise clears the entry and goes on where that led.
  */
  lemma FreeFromInPlain(f: Table, c: nat)
    requires c >= 2
    ensures c >= |f| || f[c] == 0 ==> FreeFrom(f, c) == Freed(f, true, 0) && FreeSteps(f, c) == []
    ensures c < |f| && f[c] == 1 ==> FreeFrom(f, c) == Freed(f, false, 0) && FreeSteps(f, c) == []
    ensures c < |f| && f[c] >= 2 ==>
      var r := FreeFrom(f[c := 0], f[c]);
      FreeFrom(f, c) == Freed(r.table, r.ok, r.count + 1) && FreeSteps(f, c) == [f[c := 0]] + FreeSteps(f[c := 0], f[c])
  {
  }

  /** The tables remove_chain stores, one after the other. */
  function FreeSteps(f: Table, c: nat): seq<Table>
    requires c >= 2
    decreases NonZeroBelow(f, |f|)
  {
    if c >= |f| || f[c] < 2 then []
    else
      NonZeroUpdate(f, c, |f|);
      [f[c := 0]] + FreeSteps(f[c := 0], f[c])
  }

  /** Each cleared entry is one more free cluster. */
  lemma {:induction false} FreeFromCount(f: Table, c: nat)
    requires c >= 2
    ensures FreeCount(FreeFrom(f, c).table) == FreeCount(f) + FreeFrom(f, c).count
    decreases NonZeroBelow(f, |f|)
  {
    if c < |f| && f[c] >= 2 {
      NonZeroUpdate(f, c, |f|);
      FreeCountUpdate(f, c, 0);
      FreeFromCount(f[c := 0], f[c]);
    }
  }

  /** The table with every cluster of xs free. */
  function Zeroed(f: Table, xs: seq<nat>): (h: Table)
    ensures |h| == |f|
    ensures forall c :: 0 <= c < |f| ==> h[c] == if c in xs then 0 else f[c]
  {
    seq(|f|, c requires 0 <= c < |f| => if c in xs then 0 else f[c])
  }

  /** On a chain remove_chain frees exactly the clusters of that chain. */
  lemma {:induction false} FreeFromChain(f: Table, xs: seq<nat>)
    requires IsChain(f, xs)
    ensures FreeFrom(f, xs[0]) == Freed(Zeroed(f, xs), true, |xs|)
    decreases xs
  {
    ChainMember(f, xs, xs[0]);
    ChainDistinct(f, xs);
    var h := f[xs[0] := 0];
    if |xs| > 1 {
      var ys := xs[1..];
      ChainTail(f, xs, 1);
      assert xs[0] !in ys;
      ChainFrame(f, h, ys);
      FreeFromChain(h, ys);
      assert Zeroed(h, ys) == Zeroed(f, xs);
    } else {
      assert h == Zeroed(f, xs);
    }
  }
}
