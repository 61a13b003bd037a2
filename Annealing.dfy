// SimulatedAnnealingForGabac (python_api/gabac_sa.py): simulated annealing
// over configurations. The state type is a parameter; the neighbour
// generator, the energy (the compressed size run_gabac reports) and the
// random acceptance test of an uphill move are oracles passed in.
module Annealing {

  /** The random choices of one run: the neighbour taken in iteration k from
      state s, the energy of a state, and whether an uphill move by dE at
      temperature T is taken in iteration k. */
  datatype Oracles<!S> = Oracles(neighbor: (S, nat) -> S, energy: S -> real, accept: (nat, real, real) -> bool)

  /** One row of the result matrix: new_E, best_E and E after iteration k. */
  datatype Row = Row(newE: real, bestE: real, e: real)

  /** The loop variables s, E, best_s and best_E, and the rows written so far. */
  datatype Search<S> = Search(s: S, e: real, bestS: S, bestE: real, rows: seq<Row>)

  /** _temperature(k): falls linearly from kt at k = 0 to 0 at k = kmax. */
  function Temperature(kmax: nat, kt: real, k: nat): (t: real)
    requires kmax > 0
    ensures k == 0 ==> t == kt
    ensures k == kmax ==> t == 0.0
  {
    (1.0 - (k as real) / (kmax as real)) * kt
  }

  /** With kt > 0 the temperature stays in (0, kt] while the loop runs. */
  lemma TemperatureBounds(kmax: nat, kt: real, k: nat)
    requires kmax > 0 && kt > 0.0 && k < kmax
    ensures 0.0 < Temperature(kmax, kt, k) <= kt
  {
    var f := (k as real) / (kmax as real);
    var n := kmax as real;
    assert f * n == k as real;
    assert f < 1.0 by {
      assert (kmax - k) as real > 0.0;
      assert n - f * n == (kmax - k) as real;
      assert (1.0 - f) * n > 0.0;
    }
    assert kt - (1.0 - f) * kt == f * kt;
  }

  /** Iteration k of start(), from the state `st` left by the iterations
      before it. */
  function Step<S>(kmax: nat, kt: real, o: Oracles<S>, st: Search<S>, k: nat): (r: Search<S>)
    requires k < kmax
    ensures |r.rows| == |st.rows| + 1 && r.rows[..|st.rows|] == st.rows
  {
    var newS := o.neighbor(st.s, k);
    var newE := o.energy(newS);
    var dE := newE - st.e;
    var moved := if dE > 0.0 then o.accept(k, dE, Temperature(kmax, kt, k)) else true;
    var s := if moved then newS else st.s;
    var e := if moved then newE else st.e;
    var bestS := if e < st.bestE then s else st.bestS;
    var bestE := if e < st.bestE then e else st.bestE;
    Search(s, e, bestS, bestE, st.rows + [Row(newE, bestE, e)])
  }

  /** The loop state after the first n iterations, starting from s0 with
      energy e0. */
  function Run<S>(kmax: nat, kt: real, o: Oracles<S>, s0: S, e0: real, n: nat): (r: Search<S>)
    requires n <= kmax
    ensures |r.rows| == n
  {
    if n == 0 then Search(s0, e0, s0, e0, [])
    else Step(kmax, kt, o, Run(kmax, kt, o, s0, e0, n - 1), n - 1)
  }

  /** The lower of two energies. */
  function Min(a: real, b: real): real
  {
    if b < a then b else a
  }

  /** Reference for best_E: the least of E0 and every E the rows record. */
  function MinEnergy(e0: real, rows: seq<Row>): (m: real)
    ensures m <= e0 && forall i :: 0 <= i < |rows| ==> m <= rows[i].e
    ensures m == e0 || exists i :: 0 <= i < |rows| && m == rows[i].e
  {
    if rows == [] then e0 else Min(MinEnergy(e0, rows[..|rows| - 1]), rows[|rows| - 1].e)
  }

  /** The temperature falls by kt / kmax per iteration. */
  lemma TemperatureLinear(kmax: nat, kt: real, j: nat, k: nat)
    requires kmax > 0 && j <= k
    ensures Temperature(kmax, kt, j) - Temperature(kmax, kt, k) == ((k - j) as real) * kt / (kmax as real)
    ensures kt > 0.0 && j < k ==> Temperature(kmax, kt, k) < Temperature(kmax, kt, j)
  {
    var n := kmax as real;
    assert (1.0 - (j as real) / n) * kt - (1.0 - (k as real) / n) * kt == ((k as real) / n - (j as real) / n) * kt;
    assert (k as real) / n - (j as real) / n == ((k - j) as real) / n;
    if kt > 0.0 && j < k {
      assert ((k - j) as real) * kt > 0.0;
    }
  }

  /** One iteration: a move that does not raise the energy is always taken;
      one that does is taken exactly when the acceptance test says so;
      best_E becomes the lower of itself and the new E, and best_s follows
      it only when it changes. */
  lemma StepMoves<S>(kmax: nat, kt: real, o: Oracles<S>, st: Search<S>, k: nat)
    requires k < kmax
    ensures var newS := o.neighbor(st.s, k); var newE := o.energy(newS); var r := Step(kmax, kt, o, st, k);
            && (newE <= st.e ==> r.s == newS && r.e == newE)
            && (newE > st.e && o.accept(k, newE - st.e, Temperature(kmax, kt, k)) ==> r.s == newS && r.e == newE)
            && (newE > st.e && !o.accept(k, newE - st.e, Temperature(kmax, kt, k)) ==> r.s == st.s && r.e == st.e)
            && r.bestE == Min(st.bestE, r.e)
            && (r.bestE != st.bestE ==> r.bestS == r.s && r.bestE < st.bestE)
            && (r.bestE == st.bestE ==> r.bestS == st.bestS)
            && r.rows[|st.rows|] == Row(newE, r.bestE, r.e)
  {
  }

  /** Rows once written are never rewritten: the rows of n iterations begin
      the rows of any longer run, and row i is new_E, best_E and E of
      iteration i. */
  lemma {:induction false} RunRows<S>(kmax: nat, kt: real, o: Oracles<S>, s0: S, e0: real, n: nat, m: nat)
    requires n <= m <= kmax
    decreases m - n
    ensures Run(kmax, kt, o, s0, e0, m).rows[..n] == Run(kmax, kt, o, s0, e0, n).rows
    ensures n < m ==>
              var before := Run(kmax, kt, o, s0, e0, n);
              var after := Run(kmax, kt, o, s0, e0, n + 1);
              Run(kmax, kt, o, s0, e0, m).rows[n] == Row(o.energy(o.neighbor(before.s, n)), after.bestE, after.e)
  {
    if n < m {
      RunRows(kmax, kt, o, s0, e0, n + 1, m);
      var rows := Run(kmax, kt, o, s0, e0, m).rows;
      assert rows[..n] == rows[..n + 1][..n];
      assert rows[n] == rows[..n + 1][n];
    }
  }

  /** best_E is the least of E0 and the energies accepted so far, and the
      last row records it. */
  lemma {:induction false} RunBest<S>(kmax: nat, kt: real, o: Oracles<S>, s0: S, e0: real, n: nat)
    requires n <= kmax
    ensures var r := Run(kmax, kt, o, s0, e0, n);
            && r.bestE == MinEnergy(e0, r.rows)
            && (n > 0 ==> r.rows[n - 1].bestE == r.bestE)
  {
    if n > 0 {
      RunBest(kmax, kt, o, s0, e0, n - 1);
      var r := Run(kmax, kt, o, s0, e0, n);
      assert r.rows[..n - 1] == Run(kmax, kt, o, s0, e0, n - 1).rows;
    }
  }

  /** best_E never increases from one iteration to a later one. */
  lemma {:induction false} RunBestNeverIncreases<S>(kmax: nat, kt: real, o: Oracles<S>, s0: S, e0: real, n: nat, m: nat)
    requires n <= m <= kmax
    ensures Run(kmax, kt, o, s0, e0, m).bestE <= Run(kmax, kt, o, s0, e0, n).bestE
  {
    if n < m {
      RunBestNeverIncreases(kmax, kt, o, s0, e0, n, m - 1);
    }
  }

  /** The best_E column of the result never increases. */
  lemma BestColumn<S>(kmax: nat, kt: real, o: Oracles<S>, s0: S, e0: real, m: nat, i: nat, j: nat)
    requires i <= j < m <= kmax
    ensures Run(kmax, kt, o, s0, e0, m).rows[j].bestE <= Run(kmax, kt, o, s0, e0, m).rows[i].bestE
  {
    RunRows(kmax, kt, o, s0, e0, i, m);
    RunRows(kmax, kt, o, s0, e0, j, m);
    RunBestNeverIncreases(kmax, kt, o, s0, e0, i + 1, j + 1);
  }

  /** When E0 is the energy of s0, E is always the energy of s and best_E
      the energy of best_s. */
  lemma {:induction false} RunEnergies<S>(kmax: nat, kt: real, o: Oracles<S>, s0: S, e0: real, n: nat)
    requires n <= kmax && o.energy(s0) == e0
    ensures var r := Run(kmax, kt, o, s0, e0, n);
            o.energy(r.s) == r.e && o.energy(r.bestS) == r.bestE
  {
    if n > 0 {
      RunEnergies(kmax, kt, o, s0, e0, n - 1);
    }
  }

  class SimulatedAnnealing<S> {
    var kmax: nat
    var kt: real
    var s0: S
    var e0: real
    var result: array2<real>

    /** __init__: the hyperparameters and the initial state with its
        energy; the state is drawn by generate_random_config and its energy
        measured by run_gabac outside the model. */
    constructor (kmax: nat, kt: real, s0: S, e0: real)
      ensures this.kmax == kmax && this.kt == kt && this.s0 == s0 && this.e0 == e0
      ensures result.Length0 == 0 && result.Length1 == 3
    {
      this.kmax := kmax;
      this.kt := kt;
      this.s0 := s0;
      this.e0 := e0;
      result := new real[0, 3];
    }

    /** start(): kmax iterations; row k of the new result matrix holds
        new_E, best_E and E after iteration k; returns best_s and best_E. */
    method Start(o: Oracles<S>) returns (bestS: S, bestE: real)
      modifies this
      ensures kmax == old(kmax) && kt == old(kt) && s0 == old(s0) && e0 == old(e0)
      ensures fresh(result) && result.Length0 == kmax && result.Length1 == 3
      ensures var r := Run(kmax, kt, o, s0, e0, kmax);
              && bestS == r.bestS && bestE == r.bestE
              && forall k :: 0 <= k < kmax ==>
                   result[k, 0] == r.rows[k].newE && result[k, 1] == r.rows[k].bestE && result[k, 2] == r.rows[k].e
    {
      var st := Search(s0, e0, s0, e0, []);
      var table := new real[kmax, 3];
      for k := 0 to kmax
        invariant st == Run(kmax, kt, o, s0, e0, k)
        invariant forall i :: 0 <= i < k ==>
                    table[i, 0] == st.rows[i].newE && table[i, 1] == st.rows[i].bestE && table[i, 2] == st.rows[i].e
        modifies table
      {
        st := Iteration(kmax, kt, o, table, st, k);
      }
      result := table;
      return st.bestS, st.bestE;
    }
  }

  /** The body of the loop of start(): iteration k from the loop state
      `st`, writing row k of `table`. */
  method Iteration<S>(kmax: nat, kt: real, o: Oracles<S>, table: array2<real>, st: Search<S>, k: nat)
      returns (r: Search<S>)
    requires k < kmax && |st.rows| == k && table.Length0 == kmax && table.Length1 == 3
    modifies table
    ensures r == Step(kmax, kt, o, st, k)
    ensures table[k, 0] == r.rows[k].newE && table[k, 1] == r.rows[k].bestE && table[k, 2] == r.rows[k].e
    ensures forall i, j :: 0 <= i < kmax && i != k && 0 <= j < 3 ==> table[i, j] == old(table[i, j])
  {
    var s, e, bestS, bestE := st.s, st.e, st.bestS, st.bestE;
    var t := Temperature(kmax, kt, k);
    var newS := o.neighbor(s, k);
    var newE := o.energy(newS);
    var dE := newE - e;
    table[k, 0] := newE;
    if dE > 0.0 {
      if o.accept(k, dE, t) {
        s := newS;
        e := newE;
      }
    } else {
      s := newS;
      e := newE;
    }
    table[k, 2] := e;
    if e < bestE {
      bestS := s;
      bestE := e;
    }
    table[k, 1] := bestE;
    r := Search(s, e, bestS, bestE, st.rows + [Row(newE, bestE, e)]);
  }
}
