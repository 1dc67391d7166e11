/** Runs of changes to a whole catalog: tables created, entries put and removed, rows counted, with a crash anywhere. */
module CatalogRuns {
  import opened Pages
  import opened Cells
  import opened Trees
  import opened TreeUpdate
  import opened TreeStages
  import opened TreeDelete
  import opened TreeTop
  import opened LogClosed
  import opened CatalogModel
  import opened Journals

  // ---------- what a store says about its tables ----------

  /** A table as the store holds it: its schema and its entries. */
  datatype TableValue = TableValue(name: string, columns: seq<ColumnDef>, entries: map<Key, Bytes>)

  /** The tables in use, by slot. */
  type Tables = map<nat, TableValue>

  /** The store names exactly these tables, each with its schema, and holds their entries. */
  ghost predicate HoldsCatalog(now: Store, v: Tables) {
    && ANCHOR in now && now[ANCHOR].CatalogPage? && |now[ANCHOR].tables| == MAX_CATALOG_TABLES
    && (forall i: nat :: i in v <==> InUse(now, i))
    && (forall i: nat :: i in v ==> HoldsTable(now, i, v[i]))
  }

  ghost predicate HoldsTable(now: Store, i: nat, v: TableValue)
    requires InUse(now, i)
  {
    now[ANCHOR].tables[i].name == v.name && now[ANCHOR].tables[i].columns == v.columns && HoldsMap(now, Some(i), v.entries)
  }

  datatype CatalogState = CatalogState(s: Store, trees: seq<TableTree>, free: PageId)

  ghost predicate Good(c: CatalogState) {
    Catalogued(c.s, c.trees, c.free)
  }

  ghost function ValueOf(c: CatalogState): Tables
    requires Good(c)
  {
    map i: nat | i < MAX_CATALOG_TABLES && InUse(c.s, i) ::
      TableValue(c.s[ANCHOR].tables[i].name, c.s[ANCHOR].tables[i].columns, ToMap(Contents(c.trees[i].tree)))
  }

  lemma GoodHolds(c: CatalogState)
    requires Good(c)
    ensures HoldsCatalog(c.s, ValueOf(c))
  {
    hide Rep, Ordered, Distinct, Ids, Balanced, Contents, ToMap;
    forall i: nat | i in ValueOf(c)
      ensures HoldsTable(c.s, i, ValueOf(c)[i])
    {
      assert HoldsTree(c.s, Some(i), c.trees[i].tree);
    }
  }

  // ---------- changes ----------

  datatype Change =
    | MakeTable(slot: nat, name: string, columns: seq<ColumnDef>)
    | PutEntry(slot: nat, key: Key, value: Bytes)
    | RemoveEntry(slot: nat, key: Key)
    | CountRow(slot: nat)

  ghost predicate Enabled(c: CatalogState, ch: Change)
    requires Good(c)
  {
    match ch
    case MakeTable(i, _, _) => i < MAX_CATALOG_TABLES && !InUse(c.s, i) && c.free < INVALID_PAGE_ID
    case PutEntry(i, key, value) => InUse(c.s, i) && InsertOut(c.s, c.trees, c.free, i, key, value).next <= INVALID_PAGE_ID
    case RemoveEntry(i, _) => InUse(c.s, i)
    case CountRow(i) => InUse(c.s, i)
  }

  ghost function WritesOf(c: CatalogState, ch: Change): seq<Image>
    requires Good(c) && Enabled(c, ch)
  {
    match ch
    case MakeTable(i, name, columns) => CreateWrites(c.s[ANCHOR].tables, i, name, columns, c.free)
    case PutEntry(i, key, value) => InsertOut(c.s, c.trees, c.free, i, key, value).writes
    case RemoveEntry(i, key) => DeleteFrom(c.trees[i].tree, key, INVALID_PAGE_ID).writes
    case CountRow(i) => [Image(ANCHOR, Bumped(c.s[ANCHOR], i))]
  }

  ghost function Next(c: CatalogState, ch: Change): CatalogState
    requires Good(c) && Enabled(c, ch)
  {
    var s' := Apply(c.s, WritesOf(c, ch));
    match ch
    case MakeTable(i, _, _) => CatalogState(s', c.trees[i := TableTree(Leaf(c.free, []), 0)], c.free + 1)
    case PutEntry(i, key, value) =>
      var out, t := InsertOut(c.s, c.trees, c.free, i, key, value), c.trees[i];
      CatalogState(s', c.trees[i := TableTree(out.tree, HeightAfter(t.tree, t.height, key, value, c.free))], out.next)
    case RemoveEntry(i, key) =>
      CatalogState(s', c.trees[i := TableTree(DeleteFrom(c.trees[i].tree, key, INVALID_PAGE_ID).tree, c.trees[i].height)], c.free)
    case CountRow(i) => c.(s := s')
  }

  /** What each change means to the tables. */
  function After(v: Tables, ch: Change): Tables {
    match ch
    case MakeTable(i, name, columns) => v[i := TableValue(name, columns, map[])]
    case PutEntry(i, key, value) => if i in v then v[i := v[i].(entries := v[i].entries[key := value])] else v
    case RemoveEntry(i, key) => if i in v then v[i := v[i].(entries := v[i].entries - {key})] else v
    case CountRow(_) => v
  }

  /** Apart from slot `i` the two states hold the same tables. */
  ghost predicate SameBut(c: CatalogState, c': CatalogState, i: nat)
    requires Good(c) && Good(c')
  {
    forall j: nat :: j < MAX_CATALOG_TABLES && j != i ==>
                       && (InUse(c.s, j) <==> InUse(c'.s, j))
                       && c'.s[ANCHOR].tables[j].name == c.s[ANCHOR].tables[j].name
                       && c'.s[ANCHOR].tables[j].columns == c.s[ANCHOR].tables[j].columns
                       && c'.trees[j].tree == c.trees[j].tree
  }

  lemma ValueIs(c: CatalogState, c': CatalogState, i: nat)
    requires Good(c) && Good(c') && SameBut(c, c', i) && i < MAX_CATALOG_TABLES && InUse(c'.s, i)
    ensures var e := c'.s[ANCHOR].tables[i];
            ValueOf(c') == ValueOf(c)[i := TableValue(e.name, e.columns, ToMap(Contents(c'.trees[i].tree)))]
  {
    hide Settled, Contents, ToMap, Ids;
  }

  lemma MakeStep(c: CatalogState, ch: Change)
    requires Good(c) && Enabled(c, ch) && ch.MakeTable?
    ensures Good(Next(c, ch)) && ValueOf(Next(c, ch)) == After(ValueOf(c), ch)
  {
    hide Apply, Contents, ToMap, Settled, Ids, ValueOf;
    CreateKeeps(c.s, c.trees, c.free, ch.slot, ch.name, ch.columns);
    ValueIs(c, Next(c, ch), ch.slot);
  }

  lemma PutStep(c: CatalogState, ch: Change)
    requires Good(c) && Enabled(c, ch) && ch.PutEntry?
    ensures Good(Next(c, ch)) && ValueOf(Next(c, ch)) == After(ValueOf(c), ch)
  {
    hide Apply, InsertTop, HeightAfter, Contents, ToMap, Settled, Ids;
    InsertKeeps(c.s, c.trees, c.free, ch.slot, ch.key, ch.value);
    ValueIs(c, Next(c, ch), ch.slot);
  }

  lemma RemoveStep(c: CatalogState, ch: Change)
    requires Good(c) && Enabled(c, ch) && ch.RemoveEntry?
    ensures Good(Next(c, ch)) && ValueOf(Next(c, ch)) == After(ValueOf(c), ch)
  {
    hide Apply, DeleteFrom, Contents, ToMap, Settled, Ids;
    RemoveKeeps(c.s, c.trees, c.free, ch.slot, ch.key);
    ValueIs(c, Next(c, ch), ch.slot);
  }

  lemma CountStep(c: CatalogState, ch: Change)
    requires Good(c) && Enabled(c, ch) && ch.CountRow?
    ensures Good(Next(c, ch)) && ValueOf(Next(c, ch)) == ValueOf(c)
  {
    hide Apply, Contents, ToMap, Settled, Ids;
    BumpKeeps(c.s, c.trees, c.free, ch.slot);
    ApplyOne(c.s, WritesOf(c, ch)[0]);
    ValueIs(c, Next(c, ch), ch.slot);
  }

  /** Each change keeps the catalog in order and means what it should to every table. */
  lemma StepKeeps(c: CatalogState, ch: Change)
    requires Good(c) && Enabled(c, ch)
    ensures Good(Next(c, ch)) && ValueOf(Next(c, ch)) == After(ValueOf(c), ch)
  {
    hide Good, Enabled, Next, ValueOf;
    match ch
    case MakeTable(_, _, _) => MakeStep(c, ch);
    case PutEntry(_, _, _) => PutStep(c, ch);
    case RemoveEntry(_, _) => RemoveStep(c, ch);
    case CountRow(_) => CountStep(c, ch);
  }

  // ---------- crash points ----------

  /** The stores agree on which slots are in use, and under which schema. */
  ghost predicate SameSchemas(s: Store, now: Store) {
    && ANCHOR in s && s[ANCHOR].CatalogPage? && ANCHOR in now && now[ANCHOR].CatalogPage?
    && |now[ANCHOR].tables| == |s[ANCHOR].tables|
    && forall j :: 0 <= j < |s[ANCHOR].tables| ==>
                     var e, e' := s[ANCHOR].tables[j], now[ANCHOR].tables[j];
                     e'.inUse == e.inUse && e'.name == e.name && e'.columns == e.columns
  }

  /** Same schemas, and every table but `i` holds its own map. */
  lemma HoldsOthers(c: CatalogState, now: Store, i: nat, entries: map<Key, Bytes>)
    requires Good(c) && SameSchemas(c.s, now) && InUse(c.s, i) && HoldsMap(now, Some(i), entries)
    requires forall j: nat :: j != i && InUse(c.s, j) ==> HoldsTree(now, Some(j), c.trees[j].tree)
    ensures i in ValueOf(c) && HoldsCatalog(now, ValueOf(c)[i := ValueOf(c)[i].(entries := entries)])
  {
    hide HoldsTree, Contents, ToMap, Balanced, Ids;
    var v := ValueOf(c);
    var v' := v[i := v[i].(entries := entries)];
    forall j: nat
      ensures j in v' <==> InUse(now, j)
      ensures j in v' ==> HoldsTable(now, j, v'[j])
    {
      if j != i && InUse(c.s, j) {
        assert HoldsTree(now, Some(j), c.trees[j].tree);
        assert HoldsMap(now, Some(j), v[j].entries);
      }
    }
  }

  lemma PutCrash(c: CatalogState, ch: Change, now: Store)
    requires Good(c) && Enabled(c, ch) && ch.PutEntry? && Visits(c.s, WritesOf(c, ch), now)
    ensures HoldsCatalog(now, ValueOf(c)) || HoldsCatalog(now, After(ValueOf(c), ch))
  {
    hide Apply, InsertTop, HeightAfter, Contents, ToMap, Ids, HoldsMap, Balanced, HoldsTree;
    var i, writes, v := ch.slot, WritesOf(c, ch), ValueOf(c);
    var k :| 0 <= k <= |writes| && now == Apply(c.s, writes[..k]);
    InsertOwn(c.s, i, c.trees[i].tree, c.trees[i].height, c.free, ch.key, ch.value);
    assert forall r <- writes[..k] :: r in writes;
    InUseAnchor(c.s, c.trees, c.free, i);
    AnchorAfter(c.s, i, c.trees[i].tree, writes[..k], c.free);
    forall j: nat | j != i && InUse(c.s, j)
      ensures HoldsTree(now, Some(j), c.trees[j].tree)
    {
      OthersAtEveryCrash(c.s, c.trees, c.free, i, ch.key, ch.value, j, now);
    }
    SettledReady(c.s, Some(i), c.trees[i].tree, c.trees[i].height, c.free, ch.key);
    InsertCrash(c.s, Some(i), c.trees[i].tree, c.free, ch.key, ch.value, now);
    assert v[i := v[i].(entries := v[i].entries)] == v;
    if HoldsMap(now, Some(i), v[i].entries) {
      HoldsOthers(c, now, i, v[i].entries);
    } else {
      HoldsOthers(c, now, i, v[i].entries[ch.key := ch.value]);
    }
  }

  lemma RemoveCrash(c: CatalogState, ch: Change, now: Store)
    requires Good(c) && Enabled(c, ch) && ch.RemoveEntry? && Visits(c.s, WritesOf(c, ch), now)
    ensures HoldsCatalog(now, ValueOf(c)) || HoldsCatalog(now, After(ValueOf(c), ch))
  {
    hide Apply, DeleteFrom, Contents, ToMap, Ids, HoldsMap, Balanced, HoldsTree;
    var i, writes, v := ch.slot, WritesOf(c, ch), ValueOf(c);
    var k :| 0 <= k <= |writes| && now == Apply(c.s, writes[..k]);
    DeleteSettled(c.s, Some(i), c.trees[i].tree, c.trees[i].height, c.free, ch.key);
    assert forall r <- writes[..k] :: r in writes;
    InUseAnchor(c.s, c.trees, c.free, i);
    ApplyFrame(c.s, writes[..k], ANCHOR);
    forall j: nat | j != i && InUse(c.s, j)
      ensures HoldsTree(now, Some(j), c.trees[j].tree)
    {
      RemoveOther(c.s, c.trees, c.free, i, ch.key, j, writes[..k]);
    }
    DeleteCrash(c.s, Some(i), c.trees[i].tree, c.free, ch.key, now);
    assert v[i := v[i].(entries := v[i].entries)] == v;
    if HoldsMap(now, Some(i), v[i].entries) {
      HoldsOthers(c, now, i, v[i].entries);
    } else {
      HoldsOthers(c, now, i, v[i].entries - {ch.key});
    }
  }

  lemma MakeCrash(c: CatalogState, ch: Change, now: Store)
    requires Good(c) && Enabled(c, ch) && ch.MakeTable? && Visits(c.s, WritesOf(c, ch), now)
    ensures HoldsCatalog(now, ValueOf(c)) || HoldsCatalog(now, After(ValueOf(c), ch))
  {
    hide Apply, Contents, ToMap, Ids, HoldsMap, Balanced, HoldsTree;
    var writes, v := WritesOf(c, ch), ValueOf(c);
    var k :| 0 <= k <= |writes| && now == Apply(c.s, writes[..k]);
    if k == 2 {
      assert writes[..k] == writes;
      MakeStep(c, ch);
      GoodHolds(Next(c, ch));
    } else {
      MakeHalf(c, ch, k);
      forall j: nat | j in v
        ensures HoldsTable(now, j, v[j])
      {
        CreateAtEveryCrash(c.s, c.trees, c.free, ch.slot, ch.name, ch.columns, j, now);
        TreeIsMap(now, j, c.trees[j].tree);
      }
    }
  }

  lemma TreeIsMap(now: Store, j: nat, t: Tree)
    requires HoldsTree(now, Some(j), t)
    ensures HoldsMap(now, Some(j), ToMap(Contents(t)))
  {
  }

  lemma MakeHalf(c: CatalogState, ch: Change, k: nat)
    requires Good(c) && Enabled(c, ch) && ch.MakeTable? && k < 2
    ensures var now := Apply(c.s, WritesOf(c, ch)[..k]); ANCHOR in now && now[ANCHOR] == c.s[ANCHOR]
  {
    ApplyFrame(c.s, WritesOf(c, ch)[..k], ANCHOR);
  }

  lemma CountCrash(c: CatalogState, ch: Change, now: Store)
    requires Good(c) && Enabled(c, ch) && ch.CountRow? && Visits(c.s, WritesOf(c, ch), now)
    ensures HoldsCatalog(now, ValueOf(c))
  {
    hide Contents, ToMap, Ids, HoldsMap, Balanced, HoldsTree, HoldsCatalog, ValueOf;
    var writes := WritesOf(c, ch);
    var k :| 0 <= k <= |writes| && now == Apply(c.s, writes[..k]);
    if k == 0 {
      assert writes[..k] == [];
      ApplyEmpty(c.s);
      GoodHolds(c);
    } else {
      assert writes[..k] == writes;
      CountStep(c, ch);
      GoodHolds(Next(c, ch));
    }
  }

  /** Whatever part of a change reached the log, the recovered store holds all the tables from before it, or all from
      after it. */
  lemma StepCrash(c: CatalogState, ch: Change, now: Store)
    requires Good(c) && Enabled(c, ch) && Visits(c.s, WritesOf(c, ch), now)
    ensures HoldsCatalog(now, ValueOf(c)) || HoldsCatalog(now, After(ValueOf(c), ch))
  {
    hide Good, Enabled, WritesOf, ValueOf, HoldsCatalog, Visits;
    match ch
    case MakeTable(_, _, _) => MakeCrash(c, ch, now);
    case PutEntry(_, _, _) => PutCrash(c, ch, now);
    case RemoveEntry(_, _) => RemoveCrash(c, ch, now);
    case CountRow(_) => CountCrash(c, ch, now);
  }

  /** The images of a change are in pointer order. */
  lemma StepInOrder(c: CatalogState, ch: Change)
    requires Good(c) && Enabled(c, ch) && Closed(c.s)
    ensures InOrder(c.s.Keys, WritesOf(c, ch))
  {
    hide Apply, InsertTop, DeleteFrom, Contents, ToMap, Ids, Balanced, Rep, Ordered, Distinct, InOrder, Closed;
    match ch
    case MakeTable(i, name, columns) => CreateInOrder(c.s, i, name, columns, c.free);
    case PutEntry(i, key, value) =>
      InsertTopInOrder(c.s, Some(i), c.trees[i].tree, c.free, key, value);
    case RemoveEntry(i, key) => DeleteInOrder(c.s, c.trees[i].tree, key, INVALID_PAGE_ID);
    case CountRow(i) => BumpInOrder(c.s, i);
  }

  // ---------- whole runs ----------

  ghost predicate Runs(c: CatalogState, chs: seq<Change>)
    requires Good(c)
    decreases |chs|
  {
    chs == [] || (Enabled(c, chs[0]) && (Good(Next(c, chs[0])) ==> Runs(Next(c, chs[0]), chs[1..])))
  }

  /** Everything the run means to log, in order. */
  ghost function LogOf(c: CatalogState, chs: seq<Change>): seq<Image>
    requires Good(c) && Runs(c, chs)
    decreases |chs|
  {
    if chs == [] || !Good(Next(c, chs[0])) then [] else WritesOf(c, chs[0]) + LogOf(Next(c, chs[0]), chs[1..])
  }

  function AfterAll(v: Tables, chs: seq<Change>): Tables
    decreases |chs|
  {
    if chs == [] then v else AfterAll(After(v, chs[0]), chs[1..])
  }

  /** The store holds the tables after some of the changes. */
  ghost predicate HoldsSome(now: Store, v: Tables, chs: seq<Change>) {
    exists done: nat :: done <= |chs| && HoldsCatalog(now, AfterAll(v, chs[..done]))
  }

  lemma SomeFirst(now: Store, v: Tables, chs: seq<Change>)
    requires chs != [] && (HoldsCatalog(now, v) || HoldsCatalog(now, After(v, chs[0])))
    ensures HoldsSome(now, v, chs)
  {
    hide HoldsCatalog, After;
    assert chs[..0] == [] && chs[..1][1..] == [];
    assert AfterAll(v, chs[..0]) == v;
    assert AfterAll(v, chs[..1]) == AfterAll(After(v, chs[0]), []);
  }

  lemma SomeLater(now: Store, v: Tables, chs: seq<Change>)
    requires chs != [] && HoldsSome(now, After(v, chs[0]), chs[1..])
    ensures HoldsSome(now, v, chs)
  {
    hide HoldsCatalog, After;
    var done: nat :| done <= |chs| - 1 && HoldsCatalog(now, AfterAll(After(v, chs[0]), chs[1..][..done]));
    assert chs[..done + 1][1..] == chs[1..][..done];
    assert AfterAll(v, chs[..done + 1]) == AfterAll(After(v, chs[0]), chs[1..][..done]);
  }

  lemma VisitsSplit(s: Store, a: seq<Image>, b: seq<Image>, now: Store)
    requires Visits(s, a + b, now)
    ensures Visits(s, a, now) || Visits(Apply(s, a), b, now)
  {
    hide Apply;
    var k :| 0 <= k <= |a + b| && now == Apply(s, (a + b)[..k]);
    if k <= |a| {
      assert (a + b)[..k] == a[..k];
    } else {
      assert (a + b)[..k] == a + b[..k - |a|];
      ApplyAppend(s, a, b[..k - |a|]);
    }
  }

  /** For every run and every crash point the recovered store holds the tables after some number of changes. */
  lemma {:induction false} RunCrash(c: CatalogState, chs: seq<Change>, now: Store)
    requires Good(c) && Runs(c, chs) && Visits(c.s, LogOf(c, chs), now)
    ensures HoldsSome(now, ValueOf(c), chs)
    decreases |chs|
  {
    hide Good, Enabled, WritesOf, ValueOf, HoldsCatalog, Visits, After, AfterAll, HoldsSome;
    if chs == [] {
      NothingVisited(c.s, now);
      GoodHolds(c);
      NoneDone(now, ValueOf(c));
    } else {
      StepKeeps(c, chs[0]);
      var c' := Next(c, chs[0]);
      NextStore(c, chs[0]);
      VisitsSplit(c.s, WritesOf(c, chs[0]), LogOf(c', chs[1..]), now);
      if Visits(c.s, WritesOf(c, chs[0]), now) {
        StepCrash(c, chs[0], now);
        SomeFirst(now, ValueOf(c), chs);
      } else {
        RunCrash(c', chs[1..], now);
        SomeLater(now, ValueOf(c), chs);
      }
    }
  }

  lemma NextStore(c: CatalogState, ch: Change)
    requires Good(c) && Enabled(c, ch)
    ensures Next(c, ch).s == Apply(c.s, WritesOf(c, ch))
  {
    hide Good, Enabled, WritesOf, Apply, InsertOut;
  }

  lemma NothingVisited(s: Store, now: Store)
    requires Visits(s, [], now)
    ensures now == s
  {
  }

  lemma NoneDone(now: Store, v: Tables)
    requires HoldsCatalog(now, v)
    ensures HoldsSome(now, v, [])
  {
    hide HoldsCatalog;
    var none: seq<Change> := [];
    assert none[..0] == [] && AfterAll(v, none[..0]) == v;
  }

  /** A whole run logs its images in pointer order. */
  lemma {:induction false} RunInOrder(c: CatalogState, chs: seq<Change>)
    requires Good(c) && Runs(c, chs) && Closed(c.s)
    ensures InOrder(c.s.Keys, LogOf(c, chs))
    decreases |chs|
  {
    hide Good, Enabled, WritesOf, InOrder, Closed, Apply, Written;
    if chs == [] {
      InOrderNone(c.s.Keys);
    } else {
      StepKeeps(c, chs[0]);
      NextStore(c, chs[0]);
      var w := WritesOf(c, chs[0]);
      StepInOrder(c, chs[0]);
      InOrderCloses(c.s, w, |w|);
      assert w[..|w|] == w;
      ApplyKeys(c.s, w);
      RunInOrder(Next(c, chs[0]), chs[1..]);
      InOrderAppend(c.s.Keys, w, LogOf(Next(c, chs[0]), chs[1..]));
    }
  }

  /** The log the pool wrote for a run, with images repeated: no prefix has a dangling pointer, and every prefix that
      holds the whole of the log from before the run holds the tables after some number of changes. */
  lemma {:induction false} RealLog(c: CatalogState, chs: seq<Change>, log: seq<Image>, log': seq<Image>)
    requires Good(c) && Runs(c, chs) && Apply(map[], log) == c.s && ClosedLog(log) && Extends(log, log', LogOf(c, chs))
    ensures ClosedLog(log')
    ensures forall n :: |log| <= n <= |log'| ==> HoldsSome(Apply(map[], log'[..n]), ValueOf(c), chs)
  {
    hide Good, Runs, LogOf, ValueOf, HoldsSome, Extends, Apply, Closed, InOrder, ClosedLog;
    ClosedNow(log);
    RunInOrder(c, chs);
    ClosedGrows(log, log', LogOf(c, chs));
    forall n | |log| <= n <= |log'|
      ensures HoldsSome(Apply(map[], log'[..n]), ValueOf(c), chs)
    {
      CrashPoints(log, log', LogOf(c, chs), n);
      RunCrash(c, chs, Apply(map[], log'[..n]));
    }
  }

  // ---------- what one call does to the catalog and its log ----------

  ghost function RunTo(c: CatalogState, chs: seq<Change>): CatalogState
    requires Good(c) && Runs(c, chs)
    decreases |chs|
  {
    if chs == [] || !Good(Next(c, chs[0])) then c else RunTo(Next(c, chs[0]), chs[1..])
  }

  /** The changes led from one state to the other, and the growth of the log covers their images. */
  ghost predicate Changes(log: seq<Image>, log': seq<Image>, c: CatalogState, c': CatalogState, chs: seq<Change>) {
    Good(c) && Runs(c, chs) && c' == RunTo(c, chs) && Extends(log, log', LogOf(c, chs))
  }

  lemma NoMore(c: CatalogState, chs: seq<Change>)
    requires Good(c) && chs == []
    ensures Runs(c, chs) && RunTo(c, chs) == c && LogOf(c, chs) == []
  {
  }

  lemma OneChange(c: CatalogState, a: Change, log: seq<Image>, log': seq<Image>)
    requires Good(c) && Enabled(c, a) && Extends(log, log', WritesOf(c, a))
    ensures Changes(log, log', c, Next(c, a), [a])
  {
    hide Good, Enabled, WritesOf, Extends, Next;
    StepKeeps(c, a);
    NoMore(Next(c, a), [a][1..]);
    assert WritesOf(c, a) + [] == WritesOf(c, a);
  }

  lemma TwoChanges(c: CatalogState, a: Change, b: Change, log: seq<Image>, log': seq<Image>, log'': seq<Image>)
    requires Good(c) && Enabled(c, a) && Extends(log, log', WritesOf(c, a)) && Good(Next(c, a)) && Enabled(Next(c, a), b)
    requires Extends(log', log'', WritesOf(Next(c, a), b))
    ensures Changes(log, log'', c, Next(Next(c, a), b), [a, b])
  {
    hide Good, Enabled, WritesOf, Extends, Next;
    var c' := Next(c, a);
    StepKeeps(c', b);
    OneChange(c', b, log', log'');
    assert [a, b][1..] == [b];
    assert LogOf(c, [a, b]) == WritesOf(c, a) + LogOf(c', [b]);
    ExtendsAppend(log, log', log'', WritesOf(c, a), LogOf(c', [b]));
  }

  lemma ValueAfter(c: CatalogState, chs: seq<Change>)
    requires Good(c) && Runs(c, chs) && (|chs| == 1 || (|chs| == 2 && chs[1].CountRow?))
    ensures Good(RunTo(c, chs)) && ValueOf(RunTo(c, chs)) == After(ValueOf(c), chs[0])
  {
    hide Good, Enabled, WritesOf, ValueOf, Next;
    StepKeeps(c, chs[0]);
    var c1 := Next(c, chs[0]);
    assert Runs(c1, chs[1..]) && RunTo(c, chs) == RunTo(c1, chs[1..]);
    if |chs| == 2 {
      assert chs[1..][0] == chs[1];
      StepKeeps(c1, chs[1]);
      NoMore(Next(c1, chs[1]), chs[1..][1..]);
      assert RunTo(c1, chs[1..]) == RunTo(Next(c1, chs[1]), chs[1..][1..]);
    } else {
      NoMore(c1, chs[1..]);
    }
  }

  /** A call that logs one change, and perhaps a count after it, is atomic at every crash point. */
  lemma ChangesAtomic(log: seq<Image>, log': seq<Image>, c: CatalogState, c': CatalogState, chs: seq<Change>)
    requires Changes(log, log', c, c', chs) && Apply(map[], log) == c.s
    requires |chs| == 1 || (|chs| == 2 && chs[1].CountRow?)
    ensures Good(c') && ValueOf(c') == After(ValueOf(c), chs[0])
    ensures Either(HoldsCatalog, log', |log|, |log'|, ValueOf(c), ValueOf(c'))
    ensures log <= log' && (ClosedLog(log) ==> ClosedLog(log'))
  {
    ExtendsGrows(log, log', LogOf(c, chs));
    hide *;
    assert Good(c) && Runs(c, chs) && c' == RunTo(c, chs) && Extends(log, log', LogOf(c, chs)) by {
      ChangesMeans(log, log', c, c', chs);
    }
    ValueAfter(c, chs);
    EitherOfTwo(log, log', c, chs);
    if ClosedLog(log) {
      ClosedNow(log);
      RunInOrder(c, chs);
      ClosedGrows(log, log', LogOf(c, chs));
    }
  }

  lemma ChangesMeans(log: seq<Image>, log': seq<Image>, c: CatalogState, c': CatalogState, chs: seq<Change>)
    requires Changes(log, log', c, c', chs)
    ensures Good(c) && Runs(c, chs) && c' == RunTo(c, chs) && Extends(log, log', LogOf(c, chs))
  {
  }

  lemma EitherOfTwo(log: seq<Image>, log': seq<Image>, c: CatalogState, chs: seq<Change>)
    requires Good(c) && Runs(c, chs) && Apply(map[], log) == c.s && Extends(log, log', LogOf(c, chs))
    requires |chs| == 1 || (|chs| == 2 && chs[1].CountRow?)
    ensures Either(HoldsCatalog, log', |log|, |log'|, ValueOf(c), After(ValueOf(c), chs[0]))
  {
    hide Good, Runs, LogOf, ValueOf, HoldsCatalog, After, Extends, Apply, HoldsSome;
    forall n | |log| <= n <= |log'|
      ensures HoldsCatalog(Apply(map[], log'[..n]), ValueOf(c)) || HoldsCatalog(Apply(map[], log'[..n]), After(ValueOf(c), chs[0]))
    {
      CrashPoints(log, log', LogOf(c, chs), n);
      RunCrash(c, chs, Apply(map[], log'[..n]));
      SomeOfTwo(Apply(map[], log'[..n]), ValueOf(c), chs);
    }
  }

  lemma SomeOfTwo(now: Store, v: Tables, chs: seq<Change>)
    requires HoldsSome(now, v, chs) && (|chs| == 1 || (|chs| == 2 && chs[1].CountRow?))
    ensures HoldsCatalog(now, v) || HoldsCatalog(now, After(v, chs[0]))
  {
    hide HoldsCatalog;
    var done: nat :| done <= |chs| && HoldsCatalog(now, AfterAll(v, chs[..done]));
    if done == 0 {
      assert chs[..done] == [];
    } else {
      var rest, v' := chs[..done][1..], After(v, chs[0]);
      assert AfterAll(v, chs[..done]) == AfterAll(v', rest);
      if done == 2 {
        assert rest == [chs[1]] && rest[1..] == [];
        assert AfterAll(v', rest) == AfterAll(After(v', chs[1]), rest[1..]);
      } else {
        assert rest == [];
      }
    }
  }

  // ---------- from the first page on ----------

  const EMPTY_ENTRY := TableEntry(false, "", [], INVALID_PAGE_ID, 0)
  const EMPTY_CATALOG := CatalogPage(seq(MAX_CATALOG_TABLES, _ => EMPTY_ENTRY))
  const FIRST_CATALOG := Image(ANCHOR, EMPTY_CATALOG)

  /** A new database: an empty catalog page and nothing else. */
  function Fresh(): (c: CatalogState)
    ensures Good(c)
  {
    CatalogState(map[ANCHOR := EMPTY_CATALOG], seq(MAX_CATALOG_TABLES, _ => TableTree(Leaf(0, []), 0)), 1)
  }

  lemma FreshGood()
    ensures ValueOf(Fresh()) == map[] && Apply(map[], [FIRST_CATALOG]) == Fresh().s && Closed(Fresh().s)
  {
    ApplyOne(map[], FIRST_CATALOG);
  }

  lemma {:induction false} FirstClosed(log: seq<Image>)
    requires Extends([], log, [FIRST_CATALOG])
    ensures ClosedLog(log) && Apply(map[], log) == Fresh().s
  {
    hide Covers, ClosedLog;
    FreshGood();
    ExtendsDurable([], log, [FIRST_CATALOG]);
    NothingClosed();
    CatalogInOrder();
    ClosedGrows([], log, [FIRST_CATALOG]);
  }

  lemma CatalogInOrder()
    ensures var none: Store := map[]; InOrder(none.Keys, [FIRST_CATALOG])
  {
    var none: Store := map[];
    InOrderOne(none.Keys, FIRST_CATALOG);
  }

  lemma NothingClosed()
    ensures ClosedLog([])
  {
  }

  lemma FirstPrefix(first: seq<Image>, n: nat, chs: seq<Change>)
    requires Extends([], first, [FIRST_CATALOG]) && n <= |first| && ANCHOR in Apply(map[], first[..n])
    ensures HoldsSome(Apply(map[], first[..n]), map[], chs)
  {
    hide Extends, HoldsCatalog, ValueOf;
    var none: Store, now := map[], Apply(map[], first[..n]);
    CrashPoints([], first, [FIRST_CATALOG], n);
    FreshGood();
    assert [FIRST_CATALOG][..0] == [] && [FIRST_CATALOG][..1] == [FIRST_CATALOG];
    assert now == Fresh().s;
    GoodHolds(Fresh());
    assert chs[..0] == [];
    assert HoldsCatalog(now, AfterAll(map[], chs[..0]));
  }

  /** The whole life of a database: no log prefix has a dangling pointer, and every prefix that holds the catalog page
      holds the tables after some number of changes. */
  lemma FromEmpty(first: seq<Image>, log: seq<Image>, chs: seq<Change>)
    requires Runs(Fresh(), chs)
    requires Extends([], first, [FIRST_CATALOG]) && Extends(first, log, LogOf(Fresh(), chs))
    ensures ClosedLog(log)
    ensures forall n :: 0 <= n <= |log| && ANCHOR in Apply(map[], log[..n]) ==> HoldsSome(Apply(map[], log[..n]), map[], chs)
  {
    ExtendsGrows(first, log, LogOf(Fresh(), chs));
    hide Good, Runs, LogOf, HoldsSome, Extends, ClosedLog, ValueOf, Apply;
    FreshGood();
    FirstClosed(first);
    RealLog(Fresh(), chs, first, log);
    forall n | 0 <= n <= |log| && ANCHOR in Apply(map[], log[..n])
      ensures HoldsSome(Apply(map[], log[..n]), map[], chs)
    {
      if n < |first| {
        assert log[..n] == first[..n];
        FirstPrefix(first, n, chs);
      }
    }
  }
}
