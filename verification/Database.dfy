/** Whole histories of one tree: any sequence of inserts and deletes, a crash after any logged image, and a
    reopen that recovers and scans. */
module Databases {
  import opened Pages
  import opened Cells
  import opened Trees
  import opened TreeStages
  import opened TreeTop
  import opened TreeDelete
  import opened LogClosed
  import opened HalfSplits
  import opened Wal
  import opened Recovery
  import opened PoolModel
  import opened Buffers
  import opened BTrees
  import opened Journals
  import opened TreeShape

  datatype Op = PutOp(key: Key, value: Bytes) | RemoveOp(rkey: Key)

  /** A settled database: its pages, its tree, and the next page id. */
  datatype State = State(s: Store, t: Tree, h: nat, free: PageId)

  /** A value that does not fit a cell is refused; the tree is as before. */
  predicate Refused(op: Op) {
    op.PutOp? && |op.value| > VALUE_SIZE
  }

  function MapAfter(m: map<Key, Bytes>, op: Op): map<Key, Bytes> {
    match op
    case PutOp(key, value) => if Refused(op) then m else m[key := value]
    case RemoveOp(key) => m - {key}
  }

  /** The ordered map after a sequence of operations. */
  function MapAfterAll(m: map<Key, Bytes>, ops: seq<Op>): map<Key, Bytes>
    decreases |ops|
  {
    if ops == [] then m else MapAfterAll(MapAfter(m, ops[0]), ops[1..])
  }

  ghost predicate Ok(d: State, slot: Option<nat>) {
    Settled(d.s, slot, d.t, d.h, d.free)
  }

  ghost function MapOf(d: State): map<Key, Bytes> {
    ToMap(Contents(d.t))
  }

  /** The images one operation logs. */
  ghost function WritesOf(d: State, op: Op, slot: Option<nat>): seq<Image>
    requires Ok(d, slot)
  {
    match op
    case PutOp(key, value) => if Refused(op) then [] else InsertTop(d.t, key, value, d.free, slot, d.s[ANCHOR]).writes
    case RemoveOp(key) => DeleteFrom(d.t, key, INVALID_PAGE_ID).writes
  }

  ghost function Next(d: State, op: Op, slot: Option<nat>): State
    requires Ok(d, slot)
  {
    match op
    case PutOp(key, value) =>
      var out := InsertTop(d.t, key, value, d.free, slot, d.s[ANCHOR]);
      if Refused(op) then d else State(Apply(d.s, out.writes), out.tree, HeightAfter(d.t, d.h, key, value, d.free), out.next)
    case RemoveOp(key) =>
      var out := DeleteFrom(d.t, key, INVALID_PAGE_ID);
      State(Apply(d.s, out.writes), out.tree, d.h, d.free)
  }

  /** The operation does not run out of page ids. */
  ghost predicate HasRoom(d: State, op: Op, slot: Option<nat>)
    requires Ok(d, slot)
  {
    op.PutOp? && !Refused(op) ==> InsertTop(d.t, op.key, op.value, d.free, slot, d.s[ANCHOR]).next <= INVALID_PAGE_ID
  }

  lemma NextOk(d: State, op: Op, slot: Option<nat>)
    requires Ok(d, slot) && HasRoom(d, op, slot)
    ensures Ok(Next(d, op, slot), slot) && MapOf(Next(d, op, slot)) == MapAfter(MapOf(d), op)
    ensures Next(d, op, slot).s == Apply(d.s, WritesOf(d, op, slot))
  {
    hide HoldsTree, Balanced, Contents, ToMap, InsertTop, DeleteFrom, Apply, HeightAfter;
    match op
    case PutOp(key, value) =>
      if Refused(op) {
        ApplyEmpty(d.s);
      } else {
        InsertSettled(d.s, slot, d.t, d.h, d.free, key, value);
      }
    case RemoveOp(key) => DeleteSettled(d.s, slot, d.t, d.h, d.free, key);
  }

  lemma NextCrash(d: State, op: Op, slot: Option<nat>, now: Store)
    requires Ok(d, slot) && HasRoom(d, op, slot) && Visits(d.s, WritesOf(d, op, slot), now)
    ensures HoldsMap(now, slot, MapOf(d)) || HoldsMap(now, slot, MapAfter(MapOf(d), op))
  {
    match op
    case PutOp(key, value) =>
      if Refused(op) {
        ApplyEmpty(d.s);
        assert HoldsTree(now, slot, d.t);
      } else {
        SettledReady(d.s, slot, d.t, d.h, d.free, key);
        InsertCrash(d.s, slot, d.t, d.free, key, value, now);
      }
    case RemoveOp(key) => DeleteCrash(d.s, slot, d.t, d.free, key, now);
  }

  /** A run that never runs out of page ids. */
  ghost predicate Runs(d: State, ops: seq<Op>, slot: Option<nat>)
    requires Ok(d, slot)
    decreases |ops|
  {
    ops == [] || (HasRoom(d, ops[0], slot) && (Ok(Next(d, ops[0], slot), slot) ==> Runs(Next(d, ops[0], slot), ops[1..], slot)))
  }

  /** Everything the run logs, in order. */
  ghost function LogOf(d: State, ops: seq<Op>, slot: Option<nat>): seq<Image>
    requires Ok(d, slot)
    decreases |ops|
  {
    if ops == [] || !Ok(Next(d, ops[0], slot), slot) then []
    else WritesOf(d, ops[0], slot) + LogOf(Next(d, ops[0], slot), ops[1..], slot)
  }

  /** How many operations lie completely within the first `n` logged images. */
  ghost function Completed(d: State, ops: seq<Op>, slot: Option<nat>, n: nat): nat
    requires Ok(d, slot)
    decreases |ops|
  {
    if ops == [] || n < |WritesOf(d, ops[0], slot)| || !Ok(Next(d, ops[0], slot), slot) then 0
    else 1 + Completed(Next(d, ops[0], slot), ops[1..], slot, n - |WritesOf(d, ops[0], slot)|)
  }

  /** For every run and every crash point, the recovered pages hold the ordered map after the completely logged
      operations, or after those and the one that was interrupted: never a mixture. */
  lemma {:induction false} EveryCrashPoint(d: State, ops: seq<Op>, slot: Option<nat>, n: nat) returns (done: nat)
    requires Ok(d, slot) && Runs(d, ops, slot) && n <= |LogOf(d, ops, slot)|
    ensures done == Completed(d, ops, slot, n) || done == Completed(d, ops, slot, n) + 1
    ensures done <= |ops| && HoldsMap(Apply(d.s, LogOf(d, ops, slot)[..n]), slot, MapAfterAll(MapOf(d), ops[..done]))
    decreases |ops|
  {
    hide Ok, HoldsMap, WritesOf, Next, MapOf, Apply, MapAfter, HasRoom;
    if ops == [] {
      done := 0;
      NothingLogged(d, slot);
      assert LogOf(d, ops, slot)[..n] == [];
    } else {
      NextOk(d, ops[0], slot);
      var w := WritesOf(d, ops[0], slot);
      var rest := LogOf(Next(d, ops[0], slot), ops[1..], slot);
      assert LogOf(d, ops, slot) == w + rest;
      if n < |w| {
        assert (w + rest)[..n] == w[..n];
        assert Visits(d.s, w, Apply(d.s, w[..n]));
        NextCrash(d, ops[0], slot, Apply(d.s, w[..n]));
        assert ops[..1][1..] == [] && ops[..0] == [];
        assert MapAfterAll(MapOf(d), ops[..1]) == MapAfterAll(MapAfter(MapOf(d), ops[0]), ops[..1][1..]);
        done := if HoldsMap(Apply(d.s, w[..n]), slot, MapOf(d)) then 0 else 1;
      } else {
        var k := EveryCrashPoint(Next(d, ops[0], slot), ops[1..], slot, n - |w|);
        assert (w + rest)[..n] == w + rest[..n - |w|];
        ApplyAppend(d.s, w, rest[..n - |w|]);
        assert ops[..k + 1][1..] == ops[1..][..k];
        done := k + 1;
      }
    }
  }

  /** The same for the log itself, in which the pool repeats unchanged images: whatever covers the run's images, cut
      anywhere, recovers to the map after some of the operations. */
  lemma RealLogCrash(d: State, ops: seq<Op>, slot: Option<nat>, log: seq<Image>, log': seq<Image>, n: nat) returns (done: nat)
    requires Ok(d, slot) && Runs(d, ops, slot) && Apply(map[], log) == d.s
    requires Extends(log, log', LogOf(d, ops, slot)) && |log| <= n <= |log'|
    ensures done <= |ops| && HoldsMap(Apply(map[], log'[..n]), slot, MapAfterAll(MapOf(d), ops[..done]))
  {
    hide Ok, Runs, HoldsMap, MapOf, Apply, Extends, MapAfterAll;
    var writes := LogOf(d, ops, slot);
    CrashPoints(log, log', writes, n);
    var k :| 0 <= k <= |writes| && Apply(map[], log'[..n]) == Apply(d.s, writes[..k]);
    done := EveryCrashPoint(d, ops, slot, k);
  }

  lemma NothingLogged(d: State, slot: Option<nat>)
    requires Ok(d, slot)
    ensures HoldsMap(Apply(d.s, []), slot, MapOf(d))
  {
    assert HoldsTree(d.s, slot, d.t);
  }

  // ---------- runs of calls on the object ----------

  ghost function StateOf(b: BTree): State
    requires b.pool.Valid()
    reads b, b.pool, b.pool.disk, b.pool.wal
  {
    State(b.pool.View(), b.tree, b.height, b.pool.disk.nextPageId)
  }

  /** What it means for a store to hold a map under the root that `slot` records. */
  ghost function Holds(slot: Option<nat>): (Store, map<Key, Bytes>) -> bool {
    (s, m) => HoldsMap(s, slot, m)
  }

  /** The maps before the first operation and after each of them. */
  ghost function MapsAfter(m: map<Key, Bytes>, ops: seq<Op>): (ms: seq<map<Key, Bytes>>)
    ensures |ms| == |ops| + 1 && forall j: nat :: j <= |ops| ==> ms[j] == MapAfterAll(m, ops[..j])
  {
    seq(|ops| + 1, j requires 0 <= j <= |ops| => MapAfterAll(m, ops[..j]))
  }

  lemma MapsMore(m: map<Key, Bytes>, ops: seq<Op>, i: nat)
    requires i < |ops|
    ensures MapsAfter(m, ops[..i])[i] == MapAfterAll(m, ops[..i])
    ensures MapsAfter(m, ops[..i + 1]) == MapsAfter(m, ops[..i]) + [MapAfter(MapAfterAll(m, ops[..i]), ops[i])]
  {
    hide MapAfter, MapAfterAll;
    MapAfterOne(m, ops, i);
    forall j: nat | j <= i + 1
      ensures ops[..i + 1][..j] == ops[..j] && (j <= i ==> ops[..i][..j] == ops[..j])
    {
    }
  }

  lemma StillHolds(log: seq<Image>, slot: Option<nat>, d: State)
    requires Ok(d, slot) && Apply(map[], log) == d.s
    ensures Either(Holds(slot), log, |log|, |log|, MapOf(d), MapOf(d))
  {
    assert log[..|log|] == log;
    assert HoldsTree(d.s, slot, d.t);
  }

  /** One call. */
  method RunOp(b: BTree, op: Op)
    requires b.Valid() && Roomy(|b.pool.frames|, b.pool.disk.nextPageId, 1)
    modifies b, b.pool, b.pool.disk, b.pool.wal
    ensures b.Valid() && |b.pool.frames| == old(|b.pool.frames|)
    ensures StateOf(b) == Next(old(StateOf(b)), op, b.slot)
    ensures Extends(old(b.pool.Log()), b.pool.Log(), WritesOf(old(StateOf(b)), op, b.slot))
    ensures Either(Holds(b.slot), b.pool.Log(), old(|b.pool.Log()|), |b.pool.Log()|, old(b.Entries()), b.Entries())
    ensures b.pool.disk.nextPageId <= old(b.pool.disk.nextPageId) + MOST_FRAMES
    ensures old(ClosedLog(b.pool.Log())) ==> ClosedLog(b.pool.Log())
  {
    hide BufferPool.Valid, BufferPool.View, BufferPool.Pins, BufferPool.Log, BufferPool.State, Apply, Extends, HoldsMap, Contents, ToMap,
         InsertTop, DeleteFrom, HeightAfter, ClosedLog, Rep, Ordered, Distinct, Ids, Balanced, FramesSuffice;
    RoomyInsert(b.tree, b.height, |b.pool.frames|, b.pool.disk.nextPageId);
    RoomIsRoom(StateOf(b), op, b.slot);
    match op {
      case PutOp(key, value) =>
        b.ValidWritable();
        var ok := b.Insert(key, value);
        if !ok {
          ExtendsNothing(b.pool.Log());
          StillHolds(b.pool.Log(), b.slot, StateOf(b));
        }
      case RemoveOp(key) =>
        var _ := b.Delete(key);
    }
  }

  lemma MapAfterOne(m: map<Key, Bytes>, ops: seq<Op>, j: nat)
    requires j < |ops|
    ensures MapAfterAll(m, ops[..j + 1]) == MapAfter(MapAfterAll(m, ops[..j]), ops[j])
  {
    MapAfterSnoc(m, ops[..j], ops[j]);
    assert ops[..j + 1] == ops[..j] + [ops[j]];
  }

  lemma {:induction false} MapAfterSnoc(m: map<Key, Bytes>, ops: seq<Op>, op: Op)
    ensures MapAfterAll(m, ops + [op]) == MapAfter(MapAfterAll(m, ops), op)
    decreases |ops|
  {
    hide MapAfter;
    if ops == [] {
      assert ops + [op] == [op] && [op][1..] == [];
    } else {
      assert (ops + [op])[1..] == ops[1..] + [op];
      MapAfterSnoc(MapAfter(m, ops[0]), ops[1..], op);
    }
  }

  /** Every sequence of inserts and deletes, called one after the other: the tree ends with the ordered map after all of
      them, and a crash at any point of the log the pool wrote recovers the map after the completed ones, or after one
      more. */
  method RunOps(b: BTree, ops: seq<Op>) returns (ghost ends: seq<nat>)
    requires b.Valid() && Roomy(|b.pool.frames|, b.pool.disk.nextPageId, |ops|)
    modifies b, b.pool, b.pool.disk, b.pool.wal
    ensures b.Valid() && b.Entries() == MapAfterAll(old(b.Entries()), ops)
    ensures Journal(Holds(b.slot), b.pool.Log(), ends, MapsAfter(old(b.Entries()), ops))
    ensures ends[0] == old(|b.pool.Log()|) && ends[|ops|] == |b.pool.Log()|
    ensures Extends(old(b.pool.Log()), b.pool.Log(), LogOf(old(StateOf(b)), ops, b.slot))
    ensures old(ClosedLog(b.pool.Log())) ==> ClosedLog(b.pool.Log())
  {
    hide BufferPool.Valid, BufferPool.View, BufferPool.Pins, BufferPool.Log, BufferPool.State, Apply, Extends, HoldsMap, Holds,
         WritesOf, Next, MapAfter, MapAfterAll, MapsAfter, Journal, Either, HoldsTree, Balanced, ClosedLog, Contents, ToMap, Roomy;
    ghost var d0, log0, m, slot, writes := StateOf(b), b.pool.Log(), b.Entries(), b.slot, [];
    ends := [|log0|];
    var i := 0;
    RunStarts(d0, ops, slot, log0);
    while i < |ops|
      invariant i <= |ops| && |ends| == i + 1 && ends[0] == |log0| && ends[i] == |b.pool.Log()|
      invariant b.Valid() && Ok(StateOf(b), slot) && Roomy(|b.pool.frames|, b.pool.disk.nextPageId, |ops| - i)
      invariant b.Entries() == MapAfterAll(m, ops[..i])
      invariant Journal(Holds(slot), b.pool.Log(), ends, MapsAfter(m, ops[..i]))
      invariant Extends(log0, b.pool.Log(), writes)
      invariant LogOf(d0, ops, slot) == writes + LogOf(StateOf(b), ops[i..], slot)
      invariant old(ClosedLog(b.pool.Log())) ==> ClosedLog(b.pool.Log())
    {
      ghost var d, log := StateOf(b), b.pool.Log();
      RoomyNow(|b.pool.frames|, b.pool.disk.nextPageId, |ops| - i);
      RunContinues(d, ops, i, slot, m);
      RunOp(b, ops[i]);
      RoomyNext(|b.pool.frames|, d.free, b.pool.disk.nextPageId, |ops| - i);
      ExtendsGrows(log, b.pool.Log(), WritesOf(d, ops[i], slot));
      ExtendsAppend(log0, log, b.pool.Log(), writes, WritesOf(d, ops[i], slot));
      MapsMore(m, ops, i);
      JournalMore(Holds(slot), log, b.pool.Log(), ends, MapsAfter(m, ops[..i]), b.Entries());
      writes := writes + WritesOf(d, ops[i], slot);
      ends := ends + [|b.pool.Log()|];
      i := i + 1;
    }
    assert ops[..i] == ops && ops[i..] == [];
    assert writes + [] == writes;
  }

  lemma RunStarts(d: State, ops: seq<Op>, slot: Option<nat>, log: seq<Image>)
    requires Ok(d, slot) && Apply(map[], log) == d.s
    ensures ops[0..] == ops && [] + LogOf(d, ops, slot) == LogOf(d, ops, slot) && Extends(log, log, [])
    ensures MapOf(d) == MapAfterAll(MapOf(d), ops[..0]) && Journal(Holds(slot), log, [|log|], MapsAfter(MapOf(d), ops[..0]))
  {
    ExtendsNothing(log);
    StillHolds(log, slot, d);
    JournalStarts(Holds(slot), log, MapOf(d));
    assert MapsAfter(MapOf(d), ops[..0]) == [MapOf(d)];
  }

  lemma RunContinues(d: State, ops: seq<Op>, i: nat, slot: Option<nat>, m: map<Key, Bytes>)
    requires Ok(d, slot) && i < |ops| && d.free + MOST_FRAMES <= INVALID_PAGE_ID && MapOf(d) == MapAfterAll(m, ops[..i])
    ensures Ok(Next(d, ops[i], slot), slot) && MapOf(Next(d, ops[i], slot)) == MapAfterAll(m, ops[..i + 1])
    ensures MapAfterAll(m, ops[..i + 1]) == MapAfter(MapAfterAll(m, ops[..i]), ops[i])
    ensures LogOf(d, ops[i..], slot) == WritesOf(d, ops[i], slot) + LogOf(Next(d, ops[i], slot), ops[i + 1..], slot)
  {
    hide Ok, MapOf, WritesOf, Next, MapAfter, MapAfterAll;
    assert ops[i..][0] == ops[i] && ops[i..][1..] == ops[i + 1..];
    RoomIsRoom(d, ops[i], slot);
    NextOk(d, ops[i], slot);
    MapAfterOne(m, ops, i);
  }

  /** Whatever the tree, 22 page ids are enough for one operation. */
  lemma RoomIsRoom(d: State, op: Op, slot: Option<nat>)
    requires Ok(d, slot) && d.free + MOST_FRAMES <= INVALID_PAGE_ID
    ensures HasRoom(d, op, slot) && Next(d, op, slot).free <= d.free + MOST_FRAMES
  {
    hide Rep, Ordered, Distinct, Balanced, InsertTop, DeleteFrom, Apply;
    HeightBound(d.s, slot, d.t, d.h, d.free);
    if op.PutOp? {
      BalancedFits(d.t, d.h, 1);
      TopNextBound(d.t, d.h, op.key, op.value, d.free, slot, d.s[ANCHOR]);
    }
  }

  /** The life of one database from its first page on: every log prefix that names the metadata page holds the map after
      some of the operations, and no prefix at all has a dangling pointer. */
  method RunFromEmpty(pool: BufferPool, ops: seq<Op>) returns (b: BTree)
    requires pool.Valid() && pool.View() == pool.Durable() == map[] && pool.Pins() == map[] && pool.disk.nextPageId == 0
    requires Roomy(|pool.frames|, 2, |ops|)
    modifies pool, pool.disk, pool.wal
    ensures fresh(b) && b.pool == pool && b.Valid() && b.Entries() == MapAfterAll(map[], ops)
    ensures ClosedLog(pool.Log())
    ensures forall n :: 0 <= n <= |pool.Log()| && ANCHOR in Apply(map[], pool.Log()[..n]) ==>
                          HoldsOne(Holds(None), Apply(map[], pool.Log()[..n]), MapsAfter(map[], ops))
  {
    hide BufferPool.Valid, BufferPool.View, BufferPool.Pins, BufferPool.Log, BufferPool.State, Apply, Extends, HoldsMap, ClosedLog,
         HoldsTree, Balanced, Contents, ToMap, Journal, HoldsOne, MapAfterAll, MapsAfter, LogOf, Holds, Pow3;
    EmptyLogClosed(pool.Log());
    b := CreateTree(pool);
    ghost var log, d := pool.Log(), StateOf(b);
    var ends := RunOps(b, ops);
    ExtendsGrows(log, pool.Log(), LogOf(d, ops, None));
    forall n | 0 <= n <= |pool.Log()| && ANCHOR in Apply(map[], pool.Log()[..n])
      ensures HoldsOne(Holds(None), Apply(map[], pool.Log()[..n]), MapsAfter(map[], ops))
    {
      if n <= |log| {
        assert pool.Log()[..n] == log[..n];
        NoneDone(Apply(map[], log[..n]), ops);
      } else {
        EndsOf(Holds(None), pool.Log(), ends, MapsAfter(map[], ops));
        JournalCovers(Holds(None), pool.Log(), ends, MapsAfter(map[], ops), n);
      }
    }
  }

  lemma EndsOf(holds: (Store, map<Key, Bytes>) -> bool, log: seq<Image>, ends: seq<nat>, values: seq<map<Key, Bytes>>)
    requires Journal(holds, log, ends, values)
    ensures |ends| == |values| > 0
  {
  }

  lemma NoneDone(now: Store, ops: seq<Op>)
    requires HoldsMap(now, None, map[])
    ensures HoldsOne(Holds(None), now, MapsAfter(map[], ops))
  {
    hide HoldsMap;
    assert ops[..0] == [];
    assert MapAfterAll(map[], ops[..0]) == map[];
    assert MapsAfter(map[], ops)[0] == map[];
  }

  /** Start again after a crash: open the log and cut its torn tail, replay it over whatever the data file holds, and open
      the tree `t` that the surviving log holds. */
  method Reopen(file: seq<Slot>, contents: Store, length: nat, poolSize: nat, ghost t: Tree) returns (b: BTree)
    requires Increasing(ValidPrefix(file)) && poolSize > 0
    requires (forall p <- contents :: p < length) && (length > 0 ==> length - 1 in contents)
    requires forall p <- contents :: p in Apply(map[], Images(ValidPrefix(file)))
    requires HoldsTree(Apply(map[], Images(ValidPrefix(file))), None, t)
    ensures fresh(b) && fresh(b.pool) && fresh(b.pool.disk) && fresh(b.pool.wal) && b.slot == None && |b.pool.frames| == poolSize
    ensures b.Readable() && b.tree == t && b.height == Height(t) && b.pool.View() == Apply(map[], Images(ValidPrefix(file)))
    ensures b.pool.disk.nextPageId > 0 && b.pool.disk.nextPageId - 1 in b.pool.View()
    ensures ClosedLog(Images(ValidPrefix(file))) ==> b.Writable() && ClosedLog(b.pool.Log())
  {
    hide HoldsTree, Contents, ToMap, Apply, ValidPrefix, Images, Open, ClosedLog, Extends, Balanced, BufferPool.View, BufferPool.Pins,
         PoolModel.Inv, Fits, Below;
    var wal := new WALManager(file);
    var disk := new DiskManager(contents, length);
    RunRecovery(disk, wal);
    ReplayForgetsDisk(contents, contents, Images(wal.validRecords));
    var pool := new BufferPool(poolSize, disk, wal);
    assert pool.View() == pool.Durable();
    AnchorThere(pool.View(), t);
    if ClosedLog(Images(ValidPrefix(file))) {
      ClosedNow(Images(ValidPrefix(file)));
      FoundReady(pool.View(), t, disk.nextPageId);
    }
    b := OpenTree(pool, None, t, Height(t));
  }

  lemma AnchorThere(s: Store, t: Tree)
    requires HoldsTree(s, None, t)
    ensures s != map[]
  {
  }

  lemma FoundReady(s: Store, t: Tree, free: PageId)
    requires HoldsTree(s, None, t) && Closed(s) && forall p <- s :: p < free
    ensures Below(t, free) && ANCHOR < free && Fits(t, Height(t))
  {
    FoundWritable(s, None, t, free);
  }

  /** And scan: if the surviving log holds a map, that map is what the scan returns. */
  method ReopenAndScan(file: seq<Slot>, contents: Store, length: nat, poolSize: nat, low: Key, high: Key, ghost m: map<Key, Bytes>)
    returns (rows: seq<Cell>)
    requires Increasing(ValidPrefix(file)) && poolSize > 0
    requires (forall p <- contents :: p < length) && (length > 0 ==> length - 1 in contents)
    requires forall p <- contents :: p in Apply(map[], Images(ValidPrefix(file)))
    requires HoldsMap(Apply(map[], Images(ValidPrefix(file))), None, m)
    ensures IsRange(rows, m, low, high)
  {
    hide HoldsTree, Contents, ToMap, Apply, ValidPrefix, Images, ClosedLog, Extends, IsRange, InRange, Balanced,
         BufferPool.View, BufferPool.Pins, BTree.Readable;
    ghost var t :| HoldsTree(Apply(map[], Images(ValidPrefix(file))), None, t) && ToMap(Contents(t)) == m;
    var b := Reopen(file, contents, length, poolSize, t);
    rows := b.RangeScan(low, high);
  }

  /** And insert, with a split half done perhaps: the map is kept exactly for the keys that `Passed` does not rule out. */
  method ReopenAndInsert(file: seq<Slot>, contents: Store, length: nat, poolSize: nat, key: Key, value: Bytes, ghost t: Tree)
    returns (b: BTree)
    requires Increasing(ValidPrefix(file)) && |value| <= VALUE_SIZE
    requires (forall p <- contents :: p < length) && (length > 0 ==> length - 1 in contents)
    requires forall p <- contents :: p in Apply(map[], Images(ValidPrefix(file)))
    requires HoldsTree(Apply(map[], Images(ValidPrefix(file))), None, t) && ClosedLog(Images(ValidPrefix(file)))
    requires Height(t) + 2 <= poolSize && forall p <- Apply(map[], Images(ValidPrefix(file))) :: p + Height(t) + 3 <= INVALID_PAGE_ID
    ensures fresh(b) && b.Synced() && ClosedLog(b.pool.Log())
    ensures HoldsMap(b.pool.View(), None, ToMap(Contents(t))[key := value]) <==> !Passed(t, key)
    ensures !Passed(t, key) ==> b.Writable() && b.Entries() == ToMap(Contents(t))[key := value]
  {
    hide HoldsTree, Contents, ToMap, Apply, ValidPrefix, Images, ClosedLog, Extends, Balanced, InsertTop, TreeAfter, HeightAfter,
         BufferPool.View, BufferPool.Pins, BTree.Readable, Fits, Below, Passed, HoldsMap;
    b := Reopen(file, contents, length, poolSize, t);
    var _ := b.Insert(key, value);
  }
}
