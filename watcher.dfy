/**
 * One round of the update-watcher's `main` loop: the newest snapshot is put at the front of
 * the history, the history is cut back to three entries, and the round reports `finished`
 * when the three are stable and the newest one has peers. The loop itself never ends: the
 * flag is only reported, and polling goes on.
 */
module UpdateWatcher {
  import opened Counters

  /** `num_stats`: the number of snapshots compared. */
  const NUM_STATS: nat := 3

  function Min(a: nat, b: nat): nat {
    if a <= b then a else b
  }

  /** The history after `m` arrives: `m` first, then the previous entries, at most `NUM_STATS` in all. */
  function Window(history: seq<Counter>, m: Counter): (w: seq<Counter>)
    ensures |w| == Min(|history| + 1, NUM_STATS)
    ensures w[0] == m
    ensures w[1..] == history[..|w| - 1]
  {
    ([m] + history)[..Min(|history| + 1, NUM_STATS)]
  }

  /** Three rounds that observe the same table leave a history of three copies of it, whatever came before. */
  lemma WindowFillsWithRepeats(history: seq<Counter>, m: Counter)
    ensures Window(Window(Window(history, m), m), m) == [m, m, m]
  {
    var w1 := Window(history, m);
    var w2 := Window(w1, m);
    var w3 := Window(w2, m);
    assert w2[1] == w1[0];
    assert w3[1] == w2[0] && w3[2] == w2[1];
  }

  /**
   * What a round reports, from the history it starts with: finished exactly when the
   * history is full, the newest table has peers, and the window is stable.
   */
  predicate Finished(history: seq<Counter>, m: Counter) {
    var w := Window(history, m);
    |w| == NUM_STATS && |m.inner| > 0 && Stabilized(w)
  }

  /**
   * A round is finished exactly when at least two snapshots were already kept and the newest
   * table, with peers and every counter started, equals the two kept just before it.
   */
  lemma FinishedIff(history: seq<Counter>, m: Counter)
    ensures Finished(history, m) <==>
              |history| >= 2 && |m.inner| > 0 && AllStarted(m) && history[0] == m && history[1] == m
  {
    var w := Window(history, m);
    if |history| >= 2 {
      assert w[1] == history[0] && w[2] == history[1];
      StabilizedIff(w);
    }
  }

  /** Three rounds in a row that observe the same started table with peers end finished. */
  lemma RepeatedObservationFinishes(history: seq<Counter>, m: Counter)
    requires |m.inner| > 0 && AllStarted(m)
    ensures Finished(Window(Window(history, m), m), m)
  {
    WindowFillsWithRepeats(history, m);
    FinishedIff(Window(Window(history, m), m), m);
    var w2 := Window(Window(history, m), m);
    assert w2[0] == m && w2[1] == Window(history, m)[0];
  }

  /** A table with a zero counter never finishes a round, however often it repeats. */
  lemma ZeroCounterNeverFinishes(history: seq<Counter>, m: Counter)
    requires !AllStarted(m)
    ensures !Finished(history, m)
  {
    FinishedIff(history, m);
  }

  /** The `stats` vector of `main`. */
  class Watcher {
    var stats: seq<Counter>

    ghost predicate Valid()
      reads this
    {
      |stats| <= NUM_STATS
    }

    constructor ()
      ensures stats == [] && Valid()
    {
      stats := [];
    }

    /**
     * One round after `get_counter` returns `m`: `stats.insert(0, m)`, `pop` while longer than
     * `num_stats`, then the `finished` test.
     */
    method Observe(m: Counter) returns (finished: bool)
      modifies this
      ensures stats == Window(old(stats), m) && Valid()
      ensures finished == Finished(old(stats), m)
    {
      var numPeers := |m.inner|;
      stats := [m] + stats;
      ghost var inserted := stats;
      while |stats| > NUM_STATS
        invariant NUM_STATS <= |stats| <= |inserted| || stats == inserted
        invariant stats == inserted[..|stats|]
      {
        stats := stats[..|stats| - 1];
      }
      assert stats == Window(old(stats), m);
      if |stats| == NUM_STATS && numPeers > 0 {
        finished := IsStabilized(stats);
      } else {
        finished := false;
      }
    }
  }
}
