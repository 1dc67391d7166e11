/** The least recently used frame: along every run of the pool the LRU list is in order of last use. */
module PoolRecency {
  import opened Pages
  import opened PoolModel
  import opened PoolRuns

  // ---------- a list ordered by time ----------

  /** `when` gives the time of each frame's last use; the list runs from newest to oldest. */
  ghost predicate ByRecency(lru: seq<nat>, when: map<nat, nat>) {
    && (forall f <- lru :: f in when)
    && forall i, j :: 0 <= i < j < |lru| ==> when[lru[i]] > when[lru[j]]
  }

  lemma RecencyTail(lru: seq<nat>, when: map<nat, nat>)
    requires ByRecency(lru, when) && lru != []
    ensures ByRecency(lru[1..], when) && forall g <- lru[1..] :: when[g] < when[lru[0]]
    ensures forall g :: g in lru <==> g == lru[0] || g in lru[1..]
  {
    assert lru == [lru[0]] + lru[1..];
  }

  lemma RecencyCons(f: nat, rest: seq<nat>, when: map<nat, nat>)
    requires ByRecency(rest, when) && f in when && forall g <- rest :: when[g] < when[f]
    ensures ByRecency([f] + rest, when)
  {
    var all := [f] + rest;
    forall i, j | 0 <= i < j < |all|
      ensures when[all[i]] > when[all[j]]
    {
      assert all[j] == rest[j - 1] && rest[j - 1] in rest;
      assert i > 0 ==> all[i] == rest[i - 1];
    }
  }

  lemma {:induction false} WithoutKeepsOrder(lru: seq<nat>, when: map<nat, nat>, f: nat)
    requires ByRecency(lru, when)
    ensures ByRecency(Without(lru, f), when)
    ensures forall g <- Without(lru, f) :: g in lru && g != f
  {
    if lru == [] {
    } else {
      RecencyTail(lru, when);
      if lru[0] != f {
        WithoutKeepsOrder(lru[1..], when, f);
        RecencyCons(lru[0], Without(lru[1..], f), when);
      }
    }
  }

  /** Touching a frame now makes it the newest and keeps the order of the others. */
  lemma TouchKeepsRecency(lru: seq<nat>, when: map<nat, nat>, f: nat, now: nat)
    requires ByRecency(lru, when) && forall g <- lru :: when[g] < now
    ensures ByRecency(Touch(lru, f), when[f := now])
  {
    WithoutKeepsOrder(lru, when, f);
    var rest := Without(lru, f);
    assert forall i :: 0 <= i < |rest| ==> rest[i] in rest;
    assert ByRecency(rest, when[f := now]);
    RecencyCons(f, rest, when[f := now]);
  }

  /** The search from the tail finds the unpinned frame with the earliest time. */
  lemma {:induction false} VictimIsEarliest(frames: seq<Frame>, lru: seq<nat>, when: map<nat, nat>)
    requires ByRecency(lru, when)
    ensures var v := Victim(frames, lru);
            v.Some? ==> v.value in lru && forall f <- lru :: Unpinned(frames, f) && f != v.value ==> when[v.value] < when[f]
  {
    if lru == [] {
    } else {
      var n := |lru| - 1;
      RecencyInit(lru, when);
      VictimIsEarliest(frames, lru[..n], when);
    }
  }

  lemma RecencyInit(lru: seq<nat>, when: map<nat, nat>)
    requires ByRecency(lru, when) && lru != []
    ensures ByRecency(lru[..|lru| - 1], when) && forall g <- lru[..|lru| - 1] :: when[g] > when[lru[|lru| - 1]]
    ensures forall g :: g in lru <==> g == lru[|lru| - 1] || g in lru[..|lru| - 1]
  {
    var n := |lru| - 1;
    assert lru == lru[..n] + [lru[n]];
    forall g | g in lru[..n]
      ensures when[g] > when[lru[n]]
    {
      var i :| 0 <= i < n && lru[i] == g;
    }
  }

  // ---------- times along a run ----------

  /** The frame a step hands out: the one a fetch or a new page pins. */
  function Taken(s: Pool, op: Op): Option<nat> {
    match op
    case Fetch(id) => FetchPage(s, id).frame
    case New => NewPage(s).frame
    case _ => None
  }

  /** The frames handed out by the steps of a run, in order. */
  function Trace(s: Pool, ops: seq<Op>): seq<Option<nat>>
    decreases |ops|
  {
    if ops == [] then [] else [Taken(s, ops[0])] + Trace(Step(s, ops[0]), ops[1..])
  }

  /** Step `k` is the last that handed out frame `f`. */
  ghost predicate LastTaken(trace: seq<Option<nat>>, f: nat, k: nat) {
    k < |trace| && trace[k] == Some(f) && forall j :: k < j < |trace| ==> trace[j] != Some(f)
  }

  function Times(trace: seq<Option<nat>>): map<nat, nat>
    decreases |trace|
  {
    if trace == [] then map[]
    else
      var n := |trace| - 1;
      if trace[n].Some? then Times(trace[..n])[trace[n].value := n] else Times(trace[..n])
  }

  lemma {:induction false} TimesAreLast(trace: seq<Option<nat>>, f: nat)
    ensures f in Times(trace) ==> LastTaken(trace, f, Times(trace)[f])
    ensures forall k: nat :: LastTaken(trace, f, k) ==> f in Times(trace) && Times(trace)[f] == k
    decreases |trace|
  {
    if trace != [] {
      var n := |trace| - 1;
      var before := trace[..n];
      assert forall k :: 0 <= k < n ==> before[k] == trace[k];
      TimesAreLast(before, f);
      forall k: nat | LastTaken(trace, f, k)
        ensures f in Times(trace) && Times(trace)[f] == k
      {
        if k < n {
          assert trace[n] != Some(f);
          assert LastTaken(before, f, k);
        }
      }
    }
  }

  lemma TimesBelow(trace: seq<Option<nat>>)
    ensures forall f <- Times(trace) :: Times(trace)[f] < |trace|
  {
    forall f | f in Times(trace)
      ensures Times(trace)[f] < |trace|
    {
      TimesAreLast(trace, f);
    }
  }

  lemma TimesMore(trace: seq<Option<nat>>, taken: Option<nat>)
    ensures Times(trace + [taken]) == if taken.Some? then Times(trace)[taken.value := |trace|] else Times(trace)
  {
    assert (trace + [taken])[..|trace|] == trace;
  }

  // ---------- the list of a pool along a run ----------

  lemma SearchKeepsRecency(s: Pool, when: map<nat, nat>)
    requires ByRecency(s.lru, when)
    ensures ByRecency(FindVictimFrame(s).pool.lru, when) && forall g <- FindVictimFrame(s).pool.lru :: g in s.lru
  {
    var v := Victim(s.frames, s.lru);
    if v.Some? {
      WithoutKeepsOrder(s.lru, when, v.value);
    }
  }

  /** One step keeps the list in order of last use, evictions included. */
  lemma StepKeepsRecency(s: Pool, op: Op, trace: seq<Option<nat>>)
    requires ByRecency(s.lru, Times(trace))
    ensures ByRecency(Step(s, op).lru, Times(trace + [Taken(s, op)]))
  {
    hide ByRecency, Times, Victim;
    var when, now := Times(trace), |trace|;
    TimesBelow(trace);
    TimesMore(trace, Taken(s, op));
    TimesCover(s.lru, when, now);
    SearchKeepsRecency(s, when);
    if Taken(s, op).Some? {
      var f := Taken(s, op).value;
      TouchKeepsRecency(s.lru, when, f, now);
      TouchKeepsRecency(FindVictimFrame(s).pool.lru, when, f, now);
    }
  }

  lemma TimesCover(lru: seq<nat>, when: map<nat, nat>, now: nat)
    requires ByRecency(lru, when) && forall f <- when :: when[f] < now
    ensures forall f <- lru :: f in when && when[f] < now
  {
  }

  lemma {:induction false} RunKeepsRecency(s: Pool, ops: seq<Op>, trace: seq<Option<nat>>)
    requires ByRecency(s.lru, Times(trace))
    ensures ByRecency(Run(s, ops).lru, Times(trace + Trace(s, ops)))
    decreases |ops|
  {
    hide ByRecency, Times, Step, Taken;
    if ops == [] {
      assert trace + Trace(s, ops) == trace;
    } else {
      StepKeepsRecency(s, ops[0], trace);
      RunKeepsRecency(Step(s, ops[0]), ops[1..], trace + [Taken(s, ops[0])]);
      assert trace + [Taken(s, ops[0])] + Trace(Step(s, ops[0]), ops[1..]) == trace + Trace(s, ops);
    }
  }

  /** Frame `v` was handed out, and every other unpinned frame was handed out later. */
  ghost predicate LeastRecent(trace: seq<Option<nat>>, frames: seq<Frame>, v: nat) {
    exists k: nat :: LastTaken(trace, v, k)
                && forall f: nat :: f < |frames| && Unpinned(frames, f) && f != v ==> TakenAfter(trace, f, k)
  }

  ghost predicate TakenAfter(trace: seq<Option<nat>>, f: nat, k: nat) {
    exists j: nat :: LastTaken(trace, f, j) && k < j
  }

  lemma VictimFromList(s: Pool, trace: seq<Option<nat>>)
    requires ListsOk(s) && s.freeList == [] && ByRecency(s.lru, Times(trace)) && Victim(s.frames, s.lru).Some?
    ensures var v := Victim(s.frames, s.lru).value; Unpinned(s.frames, v) && LeastRecent(trace, s.frames, v)
  {
    hide Times, LastTaken, Victim;
    var v, when := Victim(s.frames, s.lru).value, Times(trace);
    VictimFacts(s.frames, s.lru);
    VictimIsEarliest(s.frames, s.lru, when);
    TimesAreLast(trace, v);
    var k := when[v];
    forall f: nat | f < |s.frames| && Unpinned(s.frames, f) && f != v
      ensures TakenAfter(trace, f, k)
    {
      assert f !in s.freeList;
      assert f in s.lru;
      TimesAreLast(trace, f);
    }
  }

  /** In every state that any run from a fresh pool reaches, the frame given up when none is free is the unpinned one
      handed out longest ago. */
  lemma VictimIsOldest(s: Pool, ops: seq<Op>)
    requires Inv(s) && s.lru == [] && Runs(s, ops)
    ensures var s' := Run(s, ops);
            var v := FindVictimFrame(s').frame;
            s'.freeList == [] && v.Some? ==> Unpinned(s'.frames, v.value) && LeastRecent(Trace(s, ops), s'.frames, v.value)
  {
    hide Times, Step, Taken, Runs, Run, Trace, ByRecency, LeastRecent, LogOk, ListsOk, Victim, Evict, Unpinned, TableOk;
    var s', trace := Run(s, ops), Trace(s, ops);
    NothingUsed();
    RunKeepsRecency(s, ops, []);
    assert [] + trace == trace;
    RunKeeps(s, ops);
    if s'.freeList == [] && Victim(s'.frames, s'.lru).Some? {
      VictimFromList(s', trace);
    }
  }

  lemma NothingUsed()
    ensures ByRecency([], Times([]))
  {
  }
}
