/**
Whole runs of create_chain, remove_chain and the cut of f_truncate on a mounted volume: they
do what the runs on tables do, and every FAT the medium ever holds is safe.
*/
module AllocatorRuns {
  import opened Layout
  import opened FatMap
  import opened FatRuns
  import opened Volume
  import opened Allocator

  ghost function StateOf(fs: FatFs, chains: seq<seq<nat>>): State
    requires fs.Valid()
    reads fs, fs.win
  {
    State(fs.Fat(), fs.lastClust, chains)
  }

  /** Taking a cluster behind the last one of a chain, or for a new chain, is told by the result. */
  lemma TakesTold(s: State, i: int)
    requires Family(s) && -1 <= i < |s.chains|
    ensures var clst := if i < 0 then 0 else LastOf(s.chains[i]);
            (Takes(s.table, s.last, clst) <==> CreateResult(s.table, s.last, clst) >= 2)
            && (i >= 0 ==> IsCluster(s.table, clst))
  {
    hide NewCluster;
  }

  /** One request; chains are the chains handed out so far. */
  method Serve(fs: FatFs, chains: seq<seq<nat>>, q: Request) returns (after: seq<seq<nat>>)
    requires fs.Valid() && Family(StateOf(fs, chains))
    modifies fs, fs.win
    ensures fs.Valid() && old(fs.durable) <= fs.durable && EndMark(fs.g) >= fs.g.nFatEnt
    ensures StateOf(fs, after) == Apply(old(StateOf(fs, chains)), q, EndMark(fs.g))
    ensures !fs.g.fsType.Fat12? ==> fs.trace == old(fs.trace) + Stores(old(StateOf(fs, chains)), q, EndMark(fs.g))
    ensures old(CountExact(fs)) ==> CountExact(fs)
  {
    hide FatOf, InFat, FatFits, FreeCount, FreeFrom, FreeSteps, CreateResult, CreateTable, CreateSteps, Takes,
      FatFs.Ordered, EndMark, CountExact, AllSafe, MirrorsAgree;
    EndMarkEnds(fs.g);
    ghost var s := StateOf(fs, chains);
    after := chains;
    match q {
      case Create =>
        TakesTold(s, -1);
        var c := CreateChain(fs, 0);
        if c >= 2 {
          after := chains + [[c]];
        }
      case Extend(i) =>
        if i < |chains| {
          TakesTold(s, i);
          var c := CreateChain(fs, LastOf(chains[i]));
          if c >= 2 {
            after := chains[i := chains[i] + [c]];
          }
        }
      case Remove(i) =>
        if i < |chains| {
          assert IsChain(s.table, chains[i]);
          var res := RemoveChain(fs, chains[i][0]);
          after := Without(chains, i);
        }
      case Cut(i, k) =>
        if i < |chains| && 0 < k < |chains[i]| {
          var res := CutTail(fs, chains[i][k - 1], chains[i], k);
          after := chains[i := chains[i][..k]];
        }
    }
  }

  lemma RunUnfold(s: State, qs: seq<Request>, end: nat, i: nat)
    requires Family(s) && end >= |s.table| && i < |qs|
    ensures Family(Apply(s, qs[i], end))
    ensures Run(s, qs[i..], end) == Run(Apply(s, qs[i], end), qs[i + 1..], end)
    ensures RunStores(s, qs[i..], end) == Stores(s, qs[i], end) + RunStores(Apply(s, qs[i], end), qs[i + 1..], end)
  {
    hide Family, Apply, Stores;
    StepKeeps(s, qs[i], end);
    assert qs[i..][0] == qs[i] && qs[i..][1..] == qs[i + 1..];
  }

  lemma Joins(a: seq<Table>, b: seq<Table>, c: seq<Table>)
    ensures a + (b + c) == a + b + c
  {
  }

  /**
  A whole run of requests. The table, the hint and the chains end as the run on tables says, and
  every table stored on the way is one of that run. If no cluster in use was lost before, all of them
  are safe, and so is every FAT that was on the medium after any sector write, and the one that is there now.
  */
  method ServeAll(fs: FatFs, chains: seq<seq<nat>>, qs: seq<Request>) returns (after: seq<seq<nat>>)
    requires fs.Valid() && Family(StateOf(fs, chains))
    modifies fs, fs.win
    ensures fs.Valid() && old(fs.durable) <= fs.durable && EndMark(fs.g) >= fs.g.nFatEnt
    ensures StateOf(fs, after) == Run(old(StateOf(fs, chains)), qs, EndMark(fs.g))
    ensures !fs.g.fsType.Fat12? ==> fs.trace == old(fs.trace) + RunStores(old(StateOf(fs, chains)), qs, EndMark(fs.g))
    ensures old(CountExact(fs)) ==> CountExact(fs)
    ensures !fs.g.fsType.Fat12? && old(AllSafe(fs.trace)) && old(NoLeak(StateOf(fs, chains))) ==>
              AllSafe(fs.trace) && AllSafe(fs.durable) && Safe(FatOf(fs.g, fs.disk))
  {
    hide FatOf, Family, Apply, Stores, Run, RunStores, CountExact, EndMark, AllSafe, Safe, NoLeak, FatFs.Ordered;
    EndMarkEnds(fs.g);
    ghost var s, end, done := StateOf(fs, chains), EndMark(fs.g), [];
    RunNothing(s, qs, end);
    after := chains;
    for i := 0 to |qs|
      invariant fs.Valid() && Family(StateOf(fs, after)) && old(fs.durable) <= fs.durable
      invariant Run(s, qs, end) == Run(StateOf(fs, after), qs[i..], end)
      invariant RunStores(s, qs, end) == done + RunStores(StateOf(fs, after), qs[i..], end)
      invariant !fs.g.fsType.Fat12? ==> fs.trace == old(fs.trace) + done
      invariant old(CountExact(fs)) ==> CountExact(fs)
    {
      ghost var a := StateOf(fs, after);
      RunUnfold(a, qs, end, i);
      after := Serve(fs, after, qs[i]);
      Joins(done, Stores(a, qs[i], end), RunStores(StateOf(fs, after), qs[i + 1..], end));
      Joins(old(fs.trace), done, Stores(a, qs[i], end));
      done := done + Stores(a, qs[i], end);
    }
    RunNothing(StateOf(fs, after), qs, end);
    if !fs.g.fsType.Fat12? && old(AllSafe(fs.trace)) && NoLeak(s) {
      RunIsSafe(s, qs, end);
      assert RunStores(s, qs, end) == done;
      SafeJoin(old(fs.trace), done);
      MediumIsSafe(fs);
    }
  }

  lemma RunNothing(s: State, qs: seq<Request>, end: nat)
    requires Family(s) && end >= |s.table|
    ensures qs[0..] == qs && qs[|qs|..] == [] && Run(s, [], end) == s && RunStores(s, [], end) == []
  {
  }

  lemma SafeJoin(a: seq<Table>, b: seq<Table>)
    requires AllSafe(a) && AllSafe(b)
    ensures AllSafe(a + b)
  {
    hide Safe;
  }
}
