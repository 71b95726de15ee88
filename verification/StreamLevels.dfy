/** The change-triggered event stream tells every level of the three drivers: what
    a reader of the rows sees at any instant is what the gates were doing. */
module StreamLevels {
  import opened GateStream
  import opened Legs
  import D = GateDriver
  import R = Repair

  /** The dead levels are those of the driver's two dead modes, and no others. */
  lemma DeadLevelsExactly(m: D.Mode)
    ensures R.IsDead(D.Vector(m)) <==> m == D.PosDead || m == D.NegDead
  {}

  ghost predicate Rising(times: seq<real>) {
    forall i, j :: 0 <= i < j < |times| ==> times[i] < times[j]
  }

  /** Row `j` is the last one not after `x`. */
  predicate IsLastBy(rows: seq<R.Row>, x: real, j: int) {
    0 <= j < |rows| && rows[j].t <= x && (j + 1 < |rows| ==> x < rows[j + 1].t)
  }

  /** No row is there by `x`. */
  predicate NoneBy(rows: seq<R.Row>, x: real) { rows != [] ==> x < rows[0].t }

  /** The last row by `x` holds these levels, column by column; without one they are
      all off. */
  ghost predicate Tells(rows: seq<R.Row>, x: real, v: Vectors) {
    && (NoneBy(rows, x) ==> v == Vectors(0, 0, 0))
    && forall j :: IsLastBy(rows, x, j) ==> rows[j].a == v.a && rows[j].b == v.b && rows[j].c == v.c
  }

  lemma {:induction false} RowsByStep(vs: seq<Vectors>, times: seq<real>, n: nat)
    requires n <= |vs| <= |times| && Rising(times)
    ensures forall j :: 0 <= j < |Captured(vs, times, n)| ==> n > 0 && Captured(vs, times, n)[j].t <= times[n - 1]
  {
    if n == 0 {
      assert Captured(vs, times, n) == [];
    } else {
      RowsByStep(vs, times, n - 1);
      assert n > 1 ==> times[n - 2] < times[n - 1];
    }
  }

  /** The rows of later steps come behind, at later instants. */
  lemma {:induction false} RowsAfterStep(vs: seq<Vectors>, times: seq<real>, m: nat, n: nat)
    requires m <= n <= |vs| <= |times| && Rising(times)
    ensures Captured(vs, times, m) <= Captured(vs, times, n)
    ensures forall j :: |Captured(vs, times, m)| <= j < |Captured(vs, times, n)| ==>
              m < n && Captured(vs, times, n)[j].t >= times[m]
    decreases n
  {
    if m < n {
      RowsAfterStep(vs, times, m, n - 1);
      assert m < n - 1 ==> times[m] < times[n - 1];
    }
  }

  /** The last row by an instant between two steps carries the levels of the step
      before it; until there is a row, everything is off. */
  lemma RowTellsVectors(vs: seq<Vectors>, times: seq<real>, k: nat, x: real)
    requires k < |vs| <= |times| && Rising(times)
    requires times[k] <= x && (k + 1 < |times| ==> x < times[k + 1])
    ensures Tells(Captured(vs, times, |vs|), x, vs[k])
  {
    var rows, part := Captured(vs, times, |vs|), Captured(vs, times, k + 1);
    RowsByStep(vs, times, k + 1);
    RowsAfterStep(vs, times, k + 1, |vs|);
    LastRow(vs, times, k + 1);
    forall j | IsLastBy(rows, x, j)
      ensures rows[j].a == vs[k].a && rows[j].b == vs[k].b && rows[j].c == vs[k].c
    {
      if j < |part| - 1 { assert false; }
      assert j == |part| - 1 && rows[j] == part[j];
    }
    if NoneBy(rows, x) && part != [] { assert false; }
  }

  lemma TicksRise(n: nat, tick: real)
    requires tick > 0.0
    ensures Rising(Ticks(n, tick))
  {
    forall i, j | 0 <= i < j < n
      ensures Ticks(n, tick)[i] < Ticks(n, tick)[j]
    {
      FewerTicks(j - i - 1, j - i, tick);
      TicksApart(n, tick, i, j);
      assert (j - i) as real * tick >= tick by { FewerTicks(1, j - i, tick); }
    }
  }

  /** One leg's own inputs. */
  function InputsA(ins: seq<Inputs>): (one: seq<D.Input>) {
    seq(|ins|, k requires 0 <= k < |ins| => ins[k].a)
  }

  function InputsB(ins: seq<Inputs>): (one: seq<D.Input>) {
    seq(|ins|, k requires 0 <= k < |ins| => ins[k].b)
  }

  function InputsC(ins: seq<Inputs>): (one: seq<D.Input>) {
    seq(|ins|, k requires 0 <= k < |ins| => ins[k].c)
  }

  /** What the three drivers put out at step `k`, each from its own inputs. */
  function OutputsAt(ins: seq<Inputs>, p: D.Params, k: nat): Vectors
    requires k < |ins|
  {
    Vectors(D.Outputs(InputsA(ins), p)[k], D.Outputs(InputsB(ins), p)[k], D.Outputs(InputsC(ins), p)[k])
  }

  lemma DrivenIsOutputs(ins: seq<Inputs>, p: D.Params, k: nat)
    requires k < |ins|
    ensures Driven(ins, p)[k] == OutputsAt(ins, p, k)
  {
    assert LegInputs(ins, A) == InputsA(ins);
    assert LegInputs(ins, B) == InputsB(ins);
    assert LegInputs(ins, C) == InputsC(ins);
  }

  /** From the instant of step `k` up to the next, the last row captured holds the
      outputs of the three drivers at step `k`, column by column; as long as there
      is no row, all of them are off. */
  lemma StreamTellsLevels(ins: seq<Inputs>, p: D.Params, tick: real, k: nat, x: real)
    requires tick > 0.0 && k < |ins|
    requires k as real * tick <= x < (k + 1) as real * tick
    ensures Tells(Stream(ins, p, tick), x, OutputsAt(ins, p, k))
  {
    TicksRise(|ins|, tick);
    DrivenIsOutputs(ins, p, k);
    RowTellsVectors(Driven(ins, p), Ticks(|ins|, tick), k, x);
  }
}
