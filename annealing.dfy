/**
 * The simulated-annealing engine (hw2/annealing.h).
 *
 * The engine is generic over the solution type `S`. What is random or
 * numeric in the source is handed in through a `Strategy`: the criterion
 * (integer valued here, as the scheduling criterion is), the mutation and
 * the Metropolis coin are oracles that receive the worker's random source
 * (`Seed`) and the iteration number, and the natural logarithm is a
 * parameter `ln`. Worker threads run one after the other.
 */
module Annealing {
  import opened Wrappers

  /** Identifies one worker's private random source: its generation and its slot. */
  datatype Seed = Seed(generation: nat, worker: nat)

  // ---------------------------------------------------------------------------
  // Cooldown laws
  // ---------------------------------------------------------------------------

  datatype Cooldown = Boltzmann(temp0: real) | Cauchy(temp0: real) | LogCauchy(temp0: real)

  /** What the model needs of the logarithm: it is positive above 1. */
  ghost predicate LogPositive(ln: real -> real) {
    forall x: real :: x > 1.0 ==> ln(x) > 0.0
  }

  /**
   * `Cooldown::get_temp`: the initial temperature at iteration 0; afterwards
   * temp0 / ln(1 + it), temp0 / (1 + it) or temp0 * ln(1 + it) / (1 + it).
   */
  function GetTemp(cd: Cooldown, it: nat, ln: real -> real): (temp: real)
    requires LogPositive(ln)
    ensures it == 0 ==> temp == cd.temp0
    ensures cd.temp0 > 0.0 ==> temp > 0.0
  {
    if it == 0 then cd.temp0
    else
      var itp1 := 1.0 + it as real;
      assert ln(itp1) > 0.0;
      match cd
      case Boltzmann(t0) => t0 / ln(itp1)
      case Cauchy(t0) => t0 / itp1
      case LogCauchy(t0) => t0 * ln(itp1) / itp1
  }

  /** Dividing a positive number by a larger positive divisor gives less. */
  lemma DivideByLarger(t0: real, a: real, b: real)
    requires t0 > 0.0 && 0.0 < a < b
    ensures t0 / b < t0 / a
  {
  }

  /** The Cauchy temperature strictly decreases after iteration 0. */
  lemma CauchyDecreasing(t0: real, i: nat, j: nat, ln: real -> real)
    requires LogPositive(ln) && t0 > 0.0 && i < j
    ensures GetTemp(Cauchy(t0), j, ln) < GetTemp(Cauchy(t0), i, ln)
  {
    if i == 0 {
      DivideByLarger(t0, 1.0, 1.0 + j as real);
      assert t0 / 1.0 == t0;
    } else {
      DivideByLarger(t0, 1.0 + i as real, 1.0 + j as real);
    }
  }

  /** The Boltzmann temperature strictly decreases after iteration 0 when `ln` grows. */
  lemma BoltzmannDecreasing(t0: real, i: nat, j: nat, ln: real -> real)
    requires LogPositive(ln) && t0 > 0.0 && 0 < i < j
    requires ln(1.0 + i as real) < ln(1.0 + j as real)
    ensures GetTemp(Boltzmann(t0), j, ln) < GetTemp(Boltzmann(t0), i, ln)
  {
    assert ln(1.0 + i as real) > 0.0;
    DivideByLarger(t0, ln(1.0 + i as real), ln(1.0 + j as real));
  }

  /**
   * The log-Cauchy temperature is not monotone: since 2 ln 3 > 3 ln 2
   * (9 > 8), it is higher at iteration 2 than at iteration 1.
   */
  lemma LogCauchyRisesAtTwo(t0: real, ln: real -> real)
    requires LogPositive(ln) && t0 > 0.0
    requires 3.0 * ln(2.0) < 2.0 * ln(3.0)
    ensures GetTemp(LogCauchy(t0), 1, ln) < GetTemp(LogCauchy(t0), 2, ln)
  {
    var a, b := ln(2.0), ln(3.0);
    var ta, tb := t0 * a, t0 * b;
    assert 3.0 * ta < 2.0 * tb by {
      assert t0 * (2.0 * b - 3.0 * a) > 0.0;
    }
    assert GetTemp(LogCauchy(t0), 1, ln) == ta / 2.0;
    assert GetTemp(LogCauchy(t0), 2, ln) == tb / 3.0;
  }

  // ---------------------------------------------------------------------------
  // One worker trajectory (thread_payload)
  // ---------------------------------------------------------------------------

  /**
   * The collaborators of the engine. `mutate(seed, it, s)` is the neighbour
   * that `Mutation::mutate` draws at iteration `it`; `coin(seed, it, diff,
   * temp)` is whether the uniform draw of that iteration falls below
   * exp(diff / temp).
   */
  datatype Strategy<!S> = Strategy(
    criterion: S -> nat,
    mutate: (Seed, nat, S) -> S,
    cooldown: Cooldown,
    ln: real -> real,
    coin: (Seed, nat, int, real) -> bool)

  ghost predicate ValidStrategy<S>(st: Strategy<S>) {
    LogPositive(st.ln)
  }

  /** The variables of `thread_payload`'s loop. */
  datatype Walk<S> = Walk(cur: S, critCur: nat, best: S, critBest: nat, notImproved: nat, it: nat)

  /** The cached criteria are those of the solutions, and the best is no worse than the current one. */
  ghost predicate Coherent<S>(st: Strategy<S>, w: Walk<S>) {
    && w.critCur == st.criterion(w.cur)
    && w.critBest == st.criterion(w.best)
    && w.critBest <= w.critCur
  }

  /** The walk a worker starts from: current and best are the engine's best. */
  function StartWalk<S>(st: Strategy<S>, s: S): (w: Walk<S>)
    ensures w.cur == s && w.best == s && w.it == 0
    ensures Coherent(st, w) && w.notImproved == 0
  {
    Walk(s, st.criterion(s), s, st.criterion(s), 0, 0)
  }

  /** The candidate that iteration `w.it` proposes. */
  function Candidate<S>(st: Strategy<S>, seed: Seed, w: Walk<S>): S {
    st.mutate(seed, w.it, w.cur)
  }

  /** One pass of the loop body: mutate, accept or reject, track the best. */
  function Step<S>(st: Strategy<S>, seed: Seed, w: Walk<S>): (r: Walk<S>)
    requires ValidStrategy(st)
    ensures Coherent(st, w) ==> Coherent(st, r)
    ensures r.it == w.it + 1
    ensures st.criterion(Candidate(st, seed, w)) <= w.critCur ==> r.cur == Candidate(st, seed, w)
    ensures r.cur == w.cur || r.cur == Candidate(st, seed, w)
    ensures r.critBest <= w.critBest
    ensures r.notImproved == (if r.critBest < w.critBest then 0 else w.notImproved + 1)
    ensures r.critBest < w.critBest ==> r.best == r.cur
    ensures r.critBest == w.critBest ==> r.best == w.best
  {
    var solNew := Candidate(st, seed, w);
    var critNew := st.criterion(solNew);
    var temp := GetTemp(st.cooldown, w.it, st.ln);
    var diff: int := w.critCur - critNew;
    var accepted := diff >= 0 || st.coin(seed, w.it, diff, temp);
    var cur := if accepted then solNew else w.cur;
    var critCur := if accepted then critNew else w.critCur;
    if critCur < w.critBest then Walk(cur, critCur, cur, critCur, 0, w.it + 1)
    else Walk(cur, critCur, w.best, w.critBest, w.notImproved + 1, w.it + 1)
  }

  /** The loop run to its end: it stops once `notImproved` reaches 10. */
  function Trajectory<S>(st: Strategy<S>, seed: Seed, w: Walk<S>): Walk<S>
    requires ValidStrategy(st) && Coherent(st, w) && w.notImproved <= 10
    decreases w.critBest, 10 - w.notImproved
  {
    if w.notImproved >= 10 then w else Trajectory(st, seed, Step(st, seed, w))
  }

  /** The solution one worker contributes to `locals`. */
  function WorkerBest<S>(st: Strategy<S>, seed: Seed, s: S): S
    requires ValidStrategy(st)
  {
    Trajectory(st, seed, StartWalk(st, s)).best
  }

  /** A trajectory ends with 10 non-improving steps and never loses ground. */
  lemma {:induction false} TrajectoryEnd<S>(st: Strategy<S>, seed: Seed, w: Walk<S>)
    requires ValidStrategy(st) && Coherent(st, w) && w.notImproved <= 10
    ensures Trajectory(st, seed, w).notImproved == 10
    ensures Coherent(st, Trajectory(st, seed, w))
    ensures Trajectory(st, seed, w).critBest <= w.critBest
    decreases w.critBest, 10 - w.notImproved
  {
    if w.notImproved < 10 {
      TrajectoryEnd(st, seed, Step(st, seed, w));
    }
  }

  /** A worker never reports a solution worse than the one it started from. */
  lemma WorkerNoWorse<S>(st: Strategy<S>, seed: Seed, s: S)
    requires ValidStrategy(st)
    ensures st.criterion(WorkerBest(st, seed, s)) <= st.criterion(s)
  {
    TrajectoryEnd(st, seed, StartWalk(st, s));
  }

  // ---------------------------------------------------------------------------
  // Generations (run)
  // ---------------------------------------------------------------------------

  /**
   * `std::min_element` with comparator `criterion(a) < criterion(b)`: the
   * first element whose criterion is minimal.
   */
  function MinElement<S>(xs: seq<S>, criterion: S -> nat): (k: nat)
    requires |xs| > 0
    ensures k < |xs|
    ensures forall j :: 0 <= j < |xs| ==> criterion(xs[k]) <= criterion(xs[j])
    ensures forall j :: 0 <= j < k ==> criterion(xs[j]) > criterion(xs[k])
  {
    if |xs| == 1 then 0
    else
      var k := MinElement(xs[..|xs| - 1], criterion);
      assert forall j :: 0 <= j < |xs| - 1 ==> xs[..|xs| - 1][j] == xs[j];
      if criterion(xs[|xs| - 1]) < criterion(xs[k]) then |xs| - 1 else k
  }

  /** What the first `k` workers of generation `g` leave in `locals`. */
  function Locals<S>(st: Strategy<S>, s: S, g: nat, k: nat): (locals: seq<S>)
    requires ValidStrategy(st)
    ensures |locals| == k
  {
    if k == 0 then [] else Locals(st, s, g, k - 1) + [WorkerBest(st, Seed(g, k - 1), s)]
  }

  /** Entry `j` of `locals` is what worker `j` of the generation found; the workers run one after the other. */
  lemma {:induction false} LocalsAreWorkerBests<S>(st: Strategy<S>, s: S, g: nat, k: nat)
    requires ValidStrategy(st)
    ensures |Locals(st, s, g, k)| == k
    ensures forall j :: 0 <= j < k ==> Locals(st, s, g, k)[j] == WorkerBest(st, Seed(g, j), s)
  {
    if k > 0 {
      LocalsAreWorkerBests(st, s, g, k - 1);
    }
  }

  /** The variables of `run`'s loop, plus the generation that numbers the random sources. */
  datatype Engine<S> = Engine(best: S, critBest: nat, notImproved: nat, generation: nat)

  /** One generation: `nProc` workers, reduction, and the strict-improvement update. */
  function Generation<S>(st: Strategy<S>, nProc: nat, e: Engine<S>): (r: Engine<S>)
    requires ValidStrategy(st) && nProc > 0 && e.critBest == st.criterion(e.best)
    ensures r.critBest == st.criterion(r.best)
    ensures r.generation == e.generation + 1
    ensures r.critBest <= e.critBest
    ensures r.notImproved == (if r.critBest < e.critBest then 0 else e.notImproved + 1)
    ensures r.critBest == e.critBest ==> r.best == e.best
    ensures r.critBest < e.critBest ==> r.best in Locals(st, e.best, e.generation, nProc)
    ensures forall j :: 0 <= j < nProc ==> r.critBest <= st.criterion(Locals(st, e.best, e.generation, nProc)[j])
  {
    var locals := Locals(st, e.best, e.generation, nProc);
    var cur := locals[MinElement(locals, st.criterion)];
    var critCur := st.criterion(cur);
    if critCur < e.critBest then Engine(cur, critCur, 0, e.generation + 1)
    else Engine(e.best, e.critBest, e.notImproved + 1, e.generation + 1)
  }

  /** Generations until 10 in a row bring no improvement. */
  function Converge<S>(st: Strategy<S>, nProc: nat, e: Engine<S>): Engine<S>
    requires ValidStrategy(st) && nProc > 0 && e.critBest == st.criterion(e.best) && e.notImproved <= 10
    decreases e.critBest, 10 - e.notImproved
  {
    if e.notImproved >= 10 then e else Converge(st, nProc, Generation(st, nProc, e))
  }

  /** What `run(init)` returns. */
  function Anneal<S>(st: Strategy<S>, nProc: nat, init: S): S
    requires ValidStrategy(st) && nProc > 0
  {
    Converge(st, nProc, Engine(init, st.criterion(init), 0, 0)).best
  }

  /** The engine stops after 10 non-improving generations and never loses ground. */
  lemma {:induction false} ConvergeEnd<S>(st: Strategy<S>, nProc: nat, e: Engine<S>)
    requires ValidStrategy(st) && nProc > 0 && e.critBest == st.criterion(e.best) && e.notImproved <= 10
    ensures Converge(st, nProc, e).notImproved == 10
    ensures Converge(st, nProc, e).critBest == st.criterion(Converge(st, nProc, e).best)
    ensures Converge(st, nProc, e).critBest <= e.critBest
    decreases e.critBest, 10 - e.notImproved
  {
    if e.notImproved < 10 {
      ConvergeEnd(st, nProc, Generation(st, nProc, e));
    }
  }

  /** `run` never returns a solution worse than the one it was given. */
  lemma AnnealNoWorse<S>(st: Strategy<S>, nProc: nat, init: S)
    requires ValidStrategy(st) && nProc > 0
    ensures st.criterion(Anneal(st, nProc, init)) <= st.criterion(init)
  {
    ConvergeEnd(st, nProc, Engine(init, st.criterion(init), 0, 0));
  }

  // ---------------------------------------------------------------------------
  // The engine object
  // ---------------------------------------------------------------------------

  class Annealer<S> {
    const nProc: nat
    const strategy: Strategy<S>
    var locals: seq<S>
    var best: Option<S>

    /** `Annealing(n_proc, mut, cd)`: no best solution yet, no results collected. */
    constructor (nProc: nat, strategy: Strategy<S>)
      ensures this.nProc == nProc && this.strategy == strategy
      ensures locals == [] && best == None
    {
      this.nProc := nProc;
      this.strategy := strategy;
      locals := [];
      best := None;
    }

    /** `thread_payload`: one trajectory from `best`, whose result is appended to `locals`. */
    method ThreadPayload(seed: Seed)
      requires best.Some? && ValidStrategy(strategy)
      modifies this`locals
      ensures locals == old(locals) + [WorkerBest(strategy, seed, best.value)]
    {
      var st := strategy;
      var solBest := best.value;
      var critBest := st.criterion(solBest);
      var solCur := best.value;
      var critCur := critBest;
      var notImproved := 0;
      var it := 0;
      while notImproved < 10
        invariant notImproved <= 10
        invariant Coherent(st, Walk(solCur, critCur, solBest, critBest, notImproved, it))
        invariant Trajectory(st, seed, Walk(solCur, critCur, solBest, critBest, notImproved, it))
                  == Trajectory(st, seed, StartWalk(st, best.value))
        decreases critBest, 10 - notImproved
      {
        ghost var w := Walk(solCur, critCur, solBest, critBest, notImproved, it);
        var solNew := st.mutate(seed, it, solCur);
        var critNew := st.criterion(solNew);
        var temp := GetTemp(st.cooldown, it, st.ln);
        var diff: int := critCur as int - critNew as int;
        if diff >= 0 || st.coin(seed, it, diff, temp) {
          solCur := solNew;
          critCur := critNew;
        }
        if critCur < critBest {
          solBest := solCur;
          critBest := critCur;
          notImproved := 0;
        } else {
          notImproved := notImproved + 1;
        }
        it := it + 1;
        assert Walk(solCur, critCur, solBest, critBest, notImproved, it) == Step(st, seed, w);
      }
      locals := locals + [solBest];
    }

    /**
     * `run(init)`: generations of `nProc` workers from the current best until
     * 10 generations in a row bring no strict improvement.
     */
    method Run(init: S) returns (result: S)
      requires nProc > 0 && ValidStrategy(strategy) && locals == []
      modifies this
      ensures result == Anneal(strategy, nProc, init)
      ensures best == Some(result) && locals == []
    {
      var st := strategy;
      best := Some(init);
      var critBest := st.criterion(init);
      var notImproved := 0;
      var generation := 0;
      while notImproved < 10
        invariant best.Some? && critBest == st.criterion(best.value) && notImproved <= 10
        invariant locals == []
        invariant Converge(st, nProc, Engine(best.value, critBest, notImproved, generation))
                  == Converge(st, nProc, Engine(init, st.criterion(init), 0, 0))
        decreases critBest, 10 - notImproved
      {
        ghost var e := Engine(best.value, critBest, notImproved, generation);
        for k := 0 to nProc
          invariant best == Some(e.best) && locals == Locals(st, e.best, generation, k)
        {
          ThreadPayload(Seed(generation, k));
        }
        var cur := locals[MinElement(locals, st.criterion)];
        var critCur := st.criterion(cur);
        if critCur < critBest {
          best := Some(cur);
          critBest := critCur;
          notImproved := 0;
        } else {
          notImproved := notImproved + 1;
        }
        locals := [];
        generation := generation + 1;
        assert Engine(best.value, critBest, notImproved, generation) == Generation(st, nProc, e);
      }
      result := best.value;
    }
  }
}
