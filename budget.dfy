/** The budget that steers generation toward the configured workload mix:
    how many reads, writes and creates are still wanted, and the weight the
    dispatcher gives each kind of property. Arithmetic is over `real`. */
module Budget {
  import Model
  import opened Environment

  datatype Remaining = Remaining(read: real, write: real, create: real)

  /** The share of the interaction budget a category should receive. */
  function Target(opts: SimulatorOpts, percent: real): real
  {
    opts.maxInteractions as real * percent / 100.0
  }

  /** `max(target - observed, 0)`. */
  function Quota(target: real, observed: nat): (q: real)
    ensures q >= 0.0 && q >= target - observed as real
    ensures q == 0.0 || q == target - observed as real
  {
    if target - observed as real > 0.0 then target - observed as real else 0.0
  }

  /** What is left of each category's target, never below zero. */
  function RemainingBudget(env: Env, stats: InteractionStats): (r: Remaining)
    ensures r.read >= 0.0 && r.write >= 0.0 && r.create >= 0.0
    ensures var gap := Target(env.opts, env.opts.readPercent) - stats.readCount as real;
      (gap > 0.0 ==> r.read == gap) && (gap <= 0.0 ==> r.read == 0.0)
    ensures var gap := Target(env.opts, env.opts.writePercent) - stats.writeCount as real;
      (gap > 0.0 ==> r.write == gap) && (gap <= 0.0 ==> r.write == 0.0)
    ensures var gap := Target(env.opts, env.opts.createPercent) - stats.createCount as real;
      (gap > 0.0 ==> r.create == gap) && (gap <= 0.0 ==> r.create == 0.0)
  {
    Remaining(
      Quota(Target(env.opts, env.opts.readPercent), stats.readCount),
      Quota(Target(env.opts, env.opts.writePercent), stats.writeCount),
      Quota(Target(env.opts, env.opts.createPercent), stats.createCount))
  }

  /** Counting more interactions never raises what remains. */
  lemma RemainingShrinksAsStatsGrow(env: Env, before: InteractionStats, after: InteractionStats)
    requires before.readCount <= after.readCount
    requires before.writeCount <= after.writeCount
    requires before.createCount <= after.createCount
    ensures var r0, r1 := RemainingBudget(env, before), RemainingBudget(env, after);
      r1.read <= r0.read && r1.write <= r0.write && r1.create <= r0.create
  {
  }

  /** With non-negative shares, nothing remains beyond the target, and the
      whole target remains before anything has been counted. */
  lemma RemainingAtMostTarget(env: Env, stats: InteractionStats)
    requires env.opts.readPercent >= 0.0 && env.opts.writePercent >= 0.0 && env.opts.createPercent >= 0.0
    ensures var r := RemainingBudget(env, stats);
      && r.read <= Target(env.opts, env.opts.readPercent)
      && r.write <= Target(env.opts, env.opts.writePercent)
      && r.create <= Target(env.opts, env.opts.createPercent)
    ensures stats == InteractionStats(0, 0, 0) ==>
      RemainingBudget(env, stats) == Remaining(
        Target(env.opts, env.opts.readPercent),
        Target(env.opts, env.opts.writePercent),
        Target(env.opts, env.opts.createPercent))
  {
    var n := env.opts.maxInteractions as real;
    assert n * env.opts.readPercent >= 0.0;
    assert n * env.opts.writePercent >= 0.0;
    assert n * env.opts.createPercent >= 0.0;
  }

  datatype PropertyKind = InsertSelectKind | DoubleCreateFailureKind

  /** An Insert-Select both reads and writes: the scarcer budget bounds it. */
  function InsertSelectWeight(r: Remaining): (w: real)
    ensures w <= r.read && w <= r.write
    ensures w == r.read || w == r.write
  {
    if r.read <= r.write then r.read else r.write
  }

  /** A Double-Create-Failure issues two creates. */
  function DoubleCreateFailureWeight(r: Remaining): (w: real)
    ensures w + w == r.create
  {
    r.create / 2.0
  }

  /** The (weight, generator) list handed to the weighted draw. Every
      weight is non-negative, whatever the counters say. */
  function Weights(env: Env, stats: InteractionStats): (ws: seq<(real, PropertyKind)>)
    ensures |ws| == 2
    ensures ws[0].1 == InsertSelectKind && ws[1].1 == DoubleCreateFailureKind
    ensures forall i | 0 <= i < |ws| :: ws[i].0 >= 0.0
    ensures var r := RemainingBudget(env, stats);
      && ws[0].0 <= r.read && ws[0].0 <= r.write
      && (ws[0].0 == r.read || ws[0].0 == r.write)
    ensures ws[1].0 + ws[1].0 == RemainingBudget(env, stats).create
  {
    var r := RemainingBudget(env, stats);
    [(InsertSelectWeight(r), InsertSelectKind), (DoubleCreateFailureWeight(r), DoubleCreateFailureKind)]
  }

  /** Insert-Select is weighted out exactly when reads or writes are spent;
      Double-Create-Failure exactly when creates are. */
  lemma WeightZeroWhenSpent(env: Env, stats: InteractionStats)
    ensures var r, ws := RemainingBudget(env, stats), Weights(env, stats);
      && (ws[0].0 == 0.0 <==> r.read == 0.0 || r.write == 0.0)
      && (ws[1].0 == 0.0 <==> r.create == 0.0)
  {
  }

  /** Worked example: ten interactions split evenly between reads and
      writes, none counted yet: five reads and five writes remain, no
      creates, so only Insert-Select has weight. */
  lemma EvenSplitExample(tables: seq<Model.Table>)
    ensures var env := Env(tables, SimulatorOpts(10, 50.0, 50.0, 0.0));
      var stats := InteractionStats(0, 0, 0);
      && RemainingBudget(env, stats) == Remaining(5.0, 5.0, 0.0)
      && Weights(env, stats) == [(5.0, InsertSelectKind), (0.0, DoubleCreateFailureKind)]
  {
  }
}
