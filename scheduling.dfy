/**
 * The job-scheduling problem that the annealing engine is exercised on
 * (hw2/scheduling.h).
 *
 * A solution assigns each of W works to one of P processors: `schedule` is a
 * P x W boolean matrix (row p, column w is true when processor p runs work w)
 * and `times` holds the duration of every work. Solutions are values: the
 * mutation copies its input and edits the copy, so a datatype is exact here.
 */
module Scheduling {
  import opened Wrappers

  /** DBL_MAX, the largest finite double, is the integer 2^1024 - 2^971. */
  const DoubleMax: nat := 0xfffffffffffff800000000000000000000000000000000000000000000000000000000000000000000000000000000000000000000000000000000000000000000000000000000000000000000000000000000000000000000000000000000000000000000000000000000000000000000000000000000000000000000

  /** Durations are C++ `unsigned`, so every one of them is below 2^32. */
  const UnsignedLimit: nat := 0x1_0000_0000

  datatype Solution = Solution(schedule: seq<seq<bool>>, times: seq<nat>)

  predicate Unsigned(times: seq<nat>) {
    forall w :: 0 <= w < |times| ==> times[w] < UnsignedLimit
  }

  /** Every row has one cell per work, and the durations fit in `unsigned`. */
  predicate WellFormed(s: Solution) {
    && Unsigned(s.times)
    && forall p :: 0 <= p < |s.schedule| ==> |s.schedule[p]| == |s.times|
  }

  /** The processors that hold work `w`. */
  function Holders(rows: seq<seq<bool>>, w: nat): set<nat>
    requires forall p :: 0 <= p < |rows| ==> w < |rows[p]|
  {
    set p: nat | p < |rows| && rows[p][w]
  }

  /** Each work is held by exactly one processor. */
  predicate Partition(s: Solution) {
    && WellFormed(s)
    && forall w :: 0 <= w < |s.times| ==> |Holders(s.schedule, w)| == 1
  }

  function Max(a: nat, b: nat): nat { if a < b then b else a }
  function Min(a: nat, b: nat): nat { if b < a then b else a }

  // ---------------------------------------------------------------------------
  // Construction
  // ---------------------------------------------------------------------------

  /**
   * The solution both constructors build: `nProc` rows of one cell per work,
   * row `proc` all true and every other row all false.
   */
  function Initial(nProc: nat, times: seq<nat>, proc: nat): Solution {
    Solution(seq(nProc, p => seq(|times|, w => p == proc)), times)
  }

  lemma InitialIsPartition(nProc: nat, times: seq<nat>, proc: nat)
    requires proc < nProc && Unsigned(times)
    ensures Partition(Initial(nProc, times, proc))
    ensures forall w :: 0 <= w < |times| ==> Holders(Initial(nProc, times, proc).schedule, w) == {proc}
  {
    var s := Initial(nProc, times, proc);
    forall w | 0 <= w < |times|
      ensures Holders(s.schedule, w) == {proc}
    {
      assert proc in Holders(s.schedule, w);
    }
  }

  /**
   * `Solution(n_proc, work_times)`: every work goes to the randomly drawn
   * processor `proc`. With no works the draw is never used; otherwise it
   * must name an existing row.
   */
  method NewSolution(nProc: nat, workTimes: seq<nat>, proc: nat) returns (s: Solution)
    requires proc < nProc || |workTimes| == 0
    ensures s == Initial(nProc, workTimes, proc)
  {
    var schedule := seq(nProc, p => seq(|workTimes|, w => false));
    for work := 0 to |workTimes|
      invariant |schedule| == nProc
      invariant forall p :: 0 <= p < nProc ==> |schedule[p]| == |workTimes|
      invariant forall p, w :: 0 <= p < nProc && 0 <= w < |workTimes| ==>
                  schedule[p][w] == (p == proc && w < work)
    {
      schedule := schedule[proc := schedule[proc][work := true]];
    }
    forall p | 0 <= p < nProc
      ensures schedule[p] == seq(|workTimes|, w => p == proc)
    {
    }
    s := Solution(schedule, workTimes);
  }

  /** The input file: it could not be opened, or its numbers after parsing. */
  datatype SolutionFile = Unopened | Tokens(nProc: nat, times: seq<nat>)

  /**
   * `Solution(path)`: the first number is the processor count, every further
   * number a work that is appended to row `proc`; rows left empty are then
   * padded with `false` cells.
   */
  method FromFile(file: SolutionFile, proc: nat) returns (r: Result<Solution, string>)
    requires file.Tokens? ==> (proc < file.nProc || |file.times| == 0) && Unsigned(file.times)
    ensures file.Unopened? <==> r.Failure?
    ensures file.Unopened? ==> r.error == "can't open file"
    ensures file.Tokens? ==> r == Success(Initial(file.nProc, file.times, proc))
  {
    if file.Unopened? {
      return Failure("can't open file");
    }
    var nProc, tokens := file.nProc, file.times;
    var schedule: seq<seq<bool>> := seq(nProc, p => []);
    var times: seq<nat> := [];
    for k := 0 to |tokens|
      invariant times == tokens[..k]
      invariant |schedule| == nProc
      invariant forall p :: 0 <= p < nProc ==> schedule[p] == if p == proc then seq(k, w => true) else []
    {
      times := times + [tokens[k]];
      schedule := schedule[proc := schedule[proc] + [true]];
    }
    assert times == tokens;
    var p := 0;
    while p < nProc
      invariant p <= nProc && |schedule| == nProc
      invariant forall q :: 0 <= q < p ==> schedule[q] == seq(|times|, w => q == proc)
      invariant forall q :: p <= q < nProc ==> schedule[q] == if q == proc then seq(|times|, w => true) else []
    {
      if schedule[p] == [] {
        schedule := schedule[p := seq(|times|, w => false)];
      }
      p := p + 1;
    }
    assert schedule == Initial(nProc, times, proc).schedule;
    r := Success(Solution(schedule, times));
  }

  // ---------------------------------------------------------------------------
  // Criterion
  // ---------------------------------------------------------------------------

  /** Summed duration of the works marked among the first `n` cells of a row. */
  function Load(row: seq<bool>, times: seq<nat>, n: nat): nat
    requires n <= |row| && n <= |times|
  {
    if n == 0 then 0 else Load(row, times, n - 1) + (if row[n - 1] then times[n - 1] else 0)
  }

  /** Largest duration marked among the first `n` cells, 0 when none is. */
  function Heaviest(row: seq<bool>, times: seq<nat>, n: nat): nat
    requires n <= |row| && n <= |times|
  {
    if n == 0 then 0 else Max(Heaviest(row, times, n - 1), if row[n - 1] then times[n - 1] else 0)
  }

  /** Largest row load among the first `k` rows (0 when there are none). */
  function MaxLoad(rows: seq<seq<bool>>, times: seq<nat>, k: nat): nat
    requires k <= |rows|
    requires forall p :: 0 <= p < |rows| ==> |rows[p]| == |times|
  {
    if k == 0 then 0 else Max(MaxLoad(rows, times, k - 1), Load(rows[k - 1], times, |times|))
  }

  /** Smallest heaviest item among the first `k` rows (DBL_MAX when there are none). */
  function MinHeaviest(rows: seq<seq<bool>>, times: seq<nat>, k: nat): nat
    requires k <= |rows|
    requires forall p :: 0 <= p < |rows| ==> |rows[p]| == |times|
  {
    if k == 0 then DoubleMax else Min(MinHeaviest(rows, times, k - 1), Heaviest(rows[k - 1], times, |times|))
  }

  /**
   * The cost the optimiser minimises: the largest processor load minus the
   * smallest "largest work" over all processors.
   */
  function CriterionOf(s: Solution): int
    requires WellFormed(s)
  {
    MaxLoad(s.schedule, s.times, |s.schedule|) - MinHeaviest(s.schedule, s.times, |s.schedule|)
  }

  /** `Solution::criterion`: two nested accumulation loops over the matrix. */
  method Criterion(s: Solution) returns (c: int)
    requires WellFormed(s)
    ensures c == CriterionOf(s)
  {
    var min := DoubleMax;
    var max := 0;
    for p := 0 to |s.schedule|
      invariant min == MinHeaviest(s.schedule, s.times, p)
      invariant max == MaxLoad(s.schedule, s.times, p)
    {
      var proc := s.schedule[p];
      var curMin := 0;
      var curMax := 0;
      for work := 0 to |proc|
        invariant curMin == Heaviest(proc, s.times, work)
        invariant curMax == Load(proc, s.times, work)
      {
        if !proc[work] {
          continue;
        }
        if s.times[work] > curMin {
          curMin := s.times[work];
        }
        curMax := curMax + s.times[work];
      }
      if curMin < min {
        min := curMin;
      }
      if curMax > max {
        max := curMax;
      }
    }
    c := max as int - min;
  }

  /** A row's largest marked duration never exceeds the row's load. */
  lemma {:induction false} HeaviestAtMostLoad(row: seq<bool>, times: seq<nat>, n: nat)
    requires n <= |row| && n <= |times|
    ensures Heaviest(row, times, n) <= Load(row, times, n)
  {
    if n > 0 {
      HeaviestAtMostLoad(row, times, n - 1);
    }
  }

  /** Every marked duration is bounded by the row's heaviest item. */
  lemma {:induction false} HeaviestIsLargest(row: seq<bool>, times: seq<nat>, n: nat)
    requires n <= |row| && n <= |times|
    ensures forall w :: 0 <= w < n && row[w] ==> times[w] <= Heaviest(row, times, n)
    ensures Heaviest(row, times, n) == 0 || exists w :: 0 <= w < n && row[w] && times[w] == Heaviest(row, times, n)
  {
    if n > 0 {
      HeaviestIsLargest(row, times, n - 1);
    }
  }

  /** `MaxLoad` is the largest load of any row, and some row attains it. */
  lemma {:induction false} MaxLoadIsLargest(rows: seq<seq<bool>>, times: seq<nat>, k: nat)
    requires k <= |rows|
    requires forall p :: 0 <= p < |rows| ==> |rows[p]| == |times|
    ensures forall p :: 0 <= p < k ==> Load(rows[p], times, |times|) <= MaxLoad(rows, times, k)
    ensures k > 0 ==> exists p :: 0 <= p < k && Load(rows[p], times, |times|) == MaxLoad(rows, times, k)
  {
    if k > 0 {
      MaxLoadIsLargest(rows, times, k - 1);
    }
  }

  /**
   * `MinHeaviest` is the smallest heaviest item of any row, and some row
   * attains it (durations fit in `unsigned`, far below DBL_MAX).
   */
  lemma {:induction false} MinHeaviestIsSmallest(rows: seq<seq<bool>>, times: seq<nat>, k: nat)
    requires k <= |rows| && Unsigned(times)
    requires forall p :: 0 <= p < |rows| ==> |rows[p]| == |times|
    ensures forall p :: 0 <= p < k ==> MinHeaviest(rows, times, k) <= Heaviest(rows[p], times, |times|)
    ensures k > 0 ==> exists p :: 0 <= p < k && Heaviest(rows[p], times, |times|) == MinHeaviest(rows, times, k)
  {
    if k > 0 {
      MinHeaviestIsSmallest(rows, times, k - 1);
      var h := Heaviest(rows[k - 1], times, |times|);
      HeaviestIsLargest(rows[k - 1], times, |times|);
      assert h < DoubleMax;
    }
  }

  /** With at least one processor the criterion is never negative. */
  lemma CriterionNonNegative(s: Solution)
    requires WellFormed(s) && |s.schedule| > 0
    ensures CriterionOf(s) >= 0
  {
    MinHeaviestIsSmallest(s.schedule, s.times, |s.schedule|);
    MaxLoadIsLargest(s.schedule, s.times, |s.schedule|);
    var p :| 0 <= p < |s.schedule| && Heaviest(s.schedule[p], s.times, |s.times|) == MinHeaviest(s.schedule, s.times, |s.schedule|);
    HeaviestAtMostLoad(s.schedule[p], s.times, |s.times|);
  }

  /** With no processor at all the criterion is 0 - DBL_MAX. */
  lemma CriterionWithoutRows(s: Solution)
    requires WellFormed(s) && |s.schedule| == 0
    ensures CriterionOf(s) == -(DoubleMax as int)
  {
  }

  // ---------------------------------------------------------------------------
  // get_schedule
  // ---------------------------------------------------------------------------

  /** The works marked among the first `n` cells of a row, in index order. */
  function Marked(row: seq<bool>, n: nat): seq<nat>
    requires n <= |row|
  {
    if n == 0 then [] else Marked(row, n - 1) + (if row[n - 1] then [n - 1] else [])
  }

  lemma {:induction false} MarkedExactly(row: seq<bool>, n: nat)
    requires n <= |row|
    ensures forall w :: w in Marked(row, n) <==> 0 <= w < n && row[w]
    ensures forall i, j :: 0 <= i < j < |Marked(row, n)| ==> Marked(row, n)[i] < Marked(row, n)[j]
  {
    if n > 0 {
      MarkedExactly(row, n - 1);
      var m := Marked(row, n - 1);
      assert forall i :: 0 <= i < |m| ==> m[i] in m;
    }
  }

  /** Every index names a work and durations never increase along the list. */
  predicate ByTimeDescending(ws: seq<nat>, times: seq<nat>) {
    && (forall i :: 0 <= i < |ws| ==> ws[i] < |times|)
    && (forall i, j :: 0 <= i < j < |ws| ==> times[ws[i]] >= times[ws[j]])
  }

  /** Inserts `w` after every work at least as long as it. */
  method InsertByTime(sorted: seq<nat>, w: nat, times: seq<nat>) returns (r: seq<nat>)
    requires w < |times| && ByTimeDescending(sorted, times)
    ensures multiset(r) == multiset(sorted) + multiset{w}
    ensures ByTimeDescending(r, times)
  {
    var k := 0;
    while k < |sorted| && times[sorted[k]] >= times[w]
      invariant 0 <= k <= |sorted|
      invariant forall i :: 0 <= i < k ==> times[sorted[i]] >= times[w]
    {
      k := k + 1;
    }
    r := sorted[..k] + [w] + sorted[k..];
    InsertAddsOne(sorted, w, k);
    InsertKeepsOrder(sorted, w, k, times);
  }

  /** Inserting `w` anywhere adds exactly one occurrence of it. */
  lemma InsertAddsOne(sorted: seq<nat>, w: nat, k: nat)
    requires k <= |sorted|
    ensures multiset(sorted[..k] + [w] + sorted[k..]) == multiset(sorted) + multiset{w}
  {
    assert sorted == sorted[..k] + sorted[k..];
    assert multiset(sorted) == multiset(sorted[..k]) + multiset(sorted[k..]);
  }

  lemma InsertKeepsOrder(sorted: seq<nat>, w: nat, k: nat, times: seq<nat>)
    requires w < |times| && k <= |sorted| && ByTimeDescending(sorted, times)
    requires forall i :: 0 <= i < k ==> times[sorted[i]] >= times[w]
    requires k < |sorted| ==> times[sorted[k]] < times[w]
    ensures ByTimeDescending(sorted[..k] + [w] + sorted[k..], times)
  {
    var r := sorted[..k] + [w] + sorted[k..];
    assert forall i :: 0 <= i < k ==> r[i] == sorted[i];
    assert forall i :: k < i < |r| ==> r[i] == sorted[i - 1];
    forall i, j | 0 <= i < j < |r|
      ensures times[r[i]] >= times[r[j]]
    {
      if j < k {
      } else if j == k {
      } else if i < k {
        assert times[sorted[i]] >= times[sorted[j - 1]];
      } else if i == k {
        assert times[sorted[k]] >= times[sorted[j - 1]];
      } else {
        assert times[sorted[i - 1]] >= times[sorted[j - 1]];
      }
    }
  }

  /** The `std::sort` call with comparator `times[i] > times[j]`. */
  method SortByTime(ws: seq<nat>, times: seq<nat>) returns (r: seq<nat>)
    requires forall i :: 0 <= i < |ws| ==> ws[i] < |times|
    ensures multiset(r) == multiset(ws)
    ensures ByTimeDescending(r, times)
  {
    r := [];
    for i := 0 to |ws|
      invariant multiset(r) == multiset(ws[..i])
      invariant ByTimeDescending(r, times)
    {
      r := InsertByTime(r, ws[i], times);
      assert ws[..i + 1] == ws[..i] + [ws[i]];
    }
    assert ws[..|ws|] == ws;
  }

  /**
   * `Solution::get_schedule`: per processor, the indices of its works,
   * longest first.
   */
  method GetSchedule(s: Solution) returns (sched: seq<seq<nat>>)
    requires WellFormed(s)
    ensures |sched| == |s.schedule|
    ensures forall p :: 0 <= p < |sched| ==> ListsRow(sched[p], s.schedule[p], s.times)
  {
    sched := [];
    for p := 0 to |s.schedule|
      invariant |sched| == p
      invariant forall q :: 0 <= q < p ==> ListsRow(sched[q], s.schedule[q], s.times)
    {
      var works := ProcessorWorks(s.schedule[p], s.times);
      sched := sched + [works];
    }
  }

  /**
   * `ws` lists the works of `row`: exactly the marked indices, each once,
   * longest first.
   */
  ghost predicate ListsRow(ws: seq<nat>, row: seq<bool>, times: seq<nat>)
    requires |row| == |times|
  {
    && multiset(ws) == multiset(Marked(row, |times|))
    && ByTimeDescending(ws, times)
    && forall w :: w in ws <==> 0 <= w < |times| && row[w]
  }

  /** The body of `get_schedule` for one processor: collect its works, then sort them. */
  method ProcessorWorks(proc: seq<bool>, times: seq<nat>) returns (works: seq<nat>)
    requires |proc| == |times|
    ensures ListsRow(works, proc, times)
  {
    works := [];
    for work := 0 to |proc|
      invariant works == Marked(proc, work)
    {
      if proc[work] {
        works := works + [work];
      }
    }
    MarkedExactly(proc, |proc|);
    assert forall i :: 0 <= i < |works| ==> works[i] in works;
    works := SortByTime(works, times);
    SameWorksAsMarked(works, proc, |times|);
  }

  /** A list with the same multiset as `Marked(row, n)` holds exactly the marked works. */
  lemma SameWorksAsMarked(ws: seq<nat>, row: seq<bool>, n: nat)
    requires n <= |row| && multiset(ws) == multiset(Marked(row, n))
    ensures forall w :: w in ws <==> 0 <= w < n && row[w]
  {
    MarkedExactly(row, n);
    forall w ensures w in ws <==> w in Marked(row, n) {
      assert w in ws <==> w in multiset(ws);
      assert w in Marked(row, n) <==> w in multiset(Marked(row, n));
    }
  }

  // ---------------------------------------------------------------------------
  // Mutation
  // ---------------------------------------------------------------------------

  /** The first row at or after `from` that holds work `w`, or |rows| if none does. */
  function FirstHolder(rows: seq<seq<bool>>, w: nat, from: nat): (src: nat)
    requires forall p :: 0 <= p < |rows| ==> w < |rows[p]|
    requires from <= |rows|
    ensures from <= src <= |rows|
    ensures src < |rows| ==> rows[src][w]
    ensures forall q :: from <= q < src ==> !rows[q][w]
    decreases |rows| - from
  {
    if from == |rows| then |rows|
    else if rows[from][w] then from
    else FirstHolder(rows, w, from + 1)
  }

  /**
   * `Mutation::mutate`: copies `s`; with two or more processors it takes the
   * randomly drawn `work` away from the first processor holding it and gives
   * it to the randomly drawn `dst`, which the retry loop keeps different
   * from that processor.
   */
  method Mutate(s: Solution, work: nat, dst: nat) returns (ans: Solution)
    requires WellFormed(s)
    requires |s.schedule| > 1 ==>
               && work < |s.times|
               && FirstHolder(s.schedule, work, 0) < |s.schedule|
               && dst < |s.schedule|
               && dst != FirstHolder(s.schedule, work, 0)
    ensures ans.times == s.times && |ans.schedule| == |s.schedule|
    ensures |s.schedule| <= 1 ==> ans == s
    ensures |s.schedule| > 1 ==>
              var src := FirstHolder(s.schedule, work, 0);
              && WellFormed(ans)
              && !ans.schedule[src][work] && ans.schedule[dst][work]
              && forall p, w :: 0 <= p < |s.schedule| && 0 <= w < |s.times| && (w != work || (p != src && p != dst)) ==>
                   ans.schedule[p][w] == s.schedule[p][w]
    ensures Partition(s) ==> Partition(ans)
  {
    ans := s;
    if |ans.schedule| <= 1 {
      return;
    }
    var rows := ans.schedule;
    var src := |rows|;
    var proc := 0;
    while proc < src
      invariant proc <= |rows| && src <= |rows|
      invariant src == |rows| ==> forall q :: 0 <= q < proc ==> !rows[q][work]
      invariant src < |rows| ==> src == FirstHolder(rows, work, 0)
    {
      if rows[proc][work] {
        src := proc;
      }
      proc := proc + 1;
    }
    rows := rows[src := rows[src][work := false]];
    rows := rows[dst := rows[dst][work := true]];
    ans := ans.(schedule := rows);
    if Partition(s) {
      PartitionAfterMove(s, ans, work, src, dst);
    }
  }

  lemma SingletonHolder(holders: set<nat>, p: nat)
    requires |holders| == 1 && p in holders
    ensures holders == {p}
  {
    var rest := holders - {p};
    assert |rest| == 0;
  }

  /** Moving one work between two distinct rows keeps every work in exactly one row. */
  lemma PartitionAfterMove(s: Solution, t: Solution, work: nat, src: nat, dst: nat)
    requires Partition(s) && WellFormed(t)
    requires t.times == s.times && |t.schedule| == |s.schedule|
    requires work < |s.times| && src < |s.schedule| && dst < |s.schedule| && src != dst
    requires s.schedule[src][work] && !t.schedule[src][work] && t.schedule[dst][work]
    requires forall p, w :: 0 <= p < |s.schedule| && 0 <= w < |s.times| && (w != work || (p != src && p != dst)) ==>
               t.schedule[p][w] == s.schedule[p][w]
    ensures Partition(t)
  {
    forall w | 0 <= w < |t.times|
      ensures |Holders(t.schedule, w)| == 1
    {
      if w == work {
        var before := Holders(s.schedule, w);
        assert src in before;
        SingletonHolder(before, src);
        assert Holders(t.schedule, w) == {dst} by {
          forall p: nat ensures p in Holders(t.schedule, w) <==> p == dst {
            if p < |t.schedule| && p != src && p != dst {
              assert p !in before;
            }
          }
        }
      } else {
        assert Holders(t.schedule, w) == Holders(s.schedule, w);
      }
    }
  }
}
