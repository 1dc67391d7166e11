/** Crash points of a run of calls: where in the log each call ends, and what the store holds in between. */
module Journals {
  import opened Pages

  /** Cut anywhere between two points, the log leaves a store that holds one value or the other. */
  ghost predicate Either<V>(holds: (Store, V) -> bool, log: seq<Image>, from: nat, to: nat, v: V, v': V) {
    forall n :: from <= n <= to && n <= |log| ==> holds(Apply(map[], log[..n]), v) || holds(Apply(map[], log[..n]), v')
  }

  /** `values[j]` is what the store holds after `j` calls and `ends[j]` the length of the log at that point; between two of
      them a crash shows the value from before the call or the value from after it. */
  ghost predicate Journal<V>(holds: (Store, V) -> bool, log: seq<Image>, ends: seq<nat>, values: seq<V>) {
    && |ends| == |values| > 0
    && (forall j :: 0 <= j < |ends| ==> ends[j] <= |log|)
    && Either(holds, log, ends[0], ends[0], values[0], values[0])
    && (forall j: nat :: j + 1 < |ends| ==> Entry(holds, log, ends, values, j))
  }

  /** The crash points of call `j`. */
  ghost predicate Entry<V>(holds: (Store, V) -> bool, log: seq<Image>, ends: seq<nat>, values: seq<V>, j: nat)
    requires j + 1 < |ends| == |values|
  {
    ends[j] <= ends[j + 1] && Either(holds, log, ends[j], ends[j + 1], values[j], values[j + 1])
  }

  lemma EitherLater<V>(holds: (Store, V) -> bool, log: seq<Image>, log': seq<Image>, from: nat, to: nat, v: V, v': V)
    requires Either(holds, log, from, to, v, v') && log <= log' && to <= |log|
    ensures Either(holds, log', from, to, v, v')
  {
    hide Apply;
    forall n | from <= n <= to && n <= |log'|
      ensures holds(Apply(map[], log'[..n]), v) || holds(Apply(map[], log'[..n]), v')
    {
      assert log'[..n] == log[..n];
    }
  }

  lemma JournalStarts<V>(holds: (Store, V) -> bool, log: seq<Image>, v: V)
    requires Either(holds, log, |log|, |log|, v, v)
    ensures Journal(holds, log, [|log|], [v])
  {
    hide Either;
  }

  /** One call more. */
  lemma JournalMore<V>(holds: (Store, V) -> bool, log: seq<Image>, log': seq<Image>, ends: seq<nat>, values: seq<V>, v: V)
    requires Journal(holds, log, ends, values) && ends[|ends| - 1] == |log| && log <= log'
    requires Either(holds, log', |log|, |log'|, values[|values| - 1], v)
    ensures Journal(holds, log', ends + [|log'|], values + [v])
  {
    hide Either;
    var ends', values' := ends + [|log'|], values + [v];
    EitherLater(holds, log, log', ends[0], ends[0], values[0], values[0]);
    forall j: nat | j + 1 < |ends'|
      ensures Entry(holds, log', ends', values', j)
    {
      if j + 1 < |ends| {
        assert Entry(holds, log, ends, values, j);
        EitherLater(holds, log, log', ends[j], ends[j + 1], values[j], values[j + 1]);
      }
    }
  }

  /** The store holds one of the values. */
  ghost predicate HoldsOne<V>(holds: (Store, V) -> bool, now: Store, values: seq<V>) {
    exists j :: 0 <= j < |values| && holds(now, values[j])
  }

  /** Every crash point from the first call on shows the value after some of the calls. */
  lemma JournalCovers<V>(holds: (Store, V) -> bool, log: seq<Image>, ends: seq<nat>, values: seq<V>, n: nat)
    requires Journal(holds, log, ends, values) && ends[0] <= n <= ends[|ends| - 1]
    ensures HoldsOne(holds, Apply(map[], log[..n]), values)
  {
    hide Apply;
    if n > ends[0] {
      var j: nat := 0;
      while ends[j + 1] < n
        invariant j + 1 < |ends| && ends[j] <= n
        decreases |ends| - j
      {
        j := j + 1;
      }
      assert Entry(holds, log, ends, values, j);
    }
  }
}
