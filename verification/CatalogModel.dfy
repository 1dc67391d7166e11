/** Many trees in one page store, their roots recorded in the slots of one catalog page. */
module CatalogModel {
  import opened Pages
  import opened Cells
  import opened Trees
  import opened TreeUpdate
  import opened TreeStages
  import opened TreeDelete
  import opened TreeTop
  import opened LogClosed

  const MAX_CATALOG_TABLES := 8

  /** The tree of one table, and its height. */
  datatype TableTree = TableTree(tree: Tree, height: nat)

  ghost predicate InUse(s: Store, i: nat) {
    ANCHOR in s && s[ANCHOR].CatalogPage? && i < |s[ANCHOR].tables| && s[ANCHOR].tables[i].inUse
  }

  /** Every table in use has a settled tree under its recorded root, and no two of them share a page. */
  ghost predicate Catalogued(s: Store, trees: seq<TableTree>, free: PageId) {
    && ANCHOR in s && s[ANCHOR].CatalogPage? && |trees| == |s[ANCHOR].tables| == MAX_CATALOG_TABLES && ANCHOR < free
    && (forall i: nat :: InUse(s, i) ==> Settled(s, Some(i), trees[i].tree, trees[i].height, free))
    && (forall i: nat, j: nat :: i != j && InUse(s, i) && InUse(s, j) ==> Ids(trees[i].tree) !! Ids(trees[j].tree))
  }

  /** The least a reader needs: every table in use has a tree under its recorded root, half-done splits included. */
  ghost predicate Held(s: Store, trees: seq<TableTree>) {
    && ANCHOR in s && s[ANCHOR].CatalogPage? && |trees| == |s[ANCHOR].tables| == MAX_CATALOG_TABLES
    && (forall i: nat :: InUse(s, i) ==> HoldsTree(s, Some(i), trees[i].tree))
  }

  function InsertOut(s: Store, trees: seq<TableTree>, free: PageId, i: nat, key: Key, value: Bytes): Outcome
    requires i < |trees| && ANCHOR in s && AnchorOk(s[ANCHOR], Some(i))
  {
    InsertTop(trees[i].tree, key, value, free, Some(i), s[ANCHOR])
  }

  /** A store that keeps the pages of a tree and its recorded root keeps the tree. */
  lemma TreeKept(s: Store, s': Store, i: nat, t: Tree)
    requires HoldsTree(s, Some(i), t)
    requires forall p <- Ids(t) :: p in s ==> p in s' && s'[p] == s[p]
    requires ANCHOR in s' && AnchorOk(s'[ANCHOR], Some(i)) && s'[ANCHOR].tables[i].root == s[ANCHOR].tables[i].root
    ensures HoldsTree(s', Some(i), t)
  {
    RepFrame(s, s', t, INVALID_PAGE_ID);
  }

  /** The writes of an insert touch the tree itself, fresh pages, and the tree's own catalog slot. */
  ghost predicate OwnWrites(s: Store, i: nat, t: Tree, writes: seq<Image>, free: PageId)
    requires ANCHOR in s && AnchorOk(s[ANCHOR], Some(i))
  {
    forall r <- writes :: r.id in Ids(t) || free <= r.id
                          || (r.id == ANCHOR && exists root :: r.page == SetRoot(s[ANCHOR], Some(i), root))
  }

  lemma InsertOwn(s: Store, i: nat, t: Tree, h: nat, free: PageId, key: Key, value: Bytes)
    requires Settled(s, Some(i), t, h, free)
    ensures OwnWrites(s, i, t, InsertTop(t, key, value, free, Some(i), s[ANCHOR]).writes, free)
  {
    hide InsertInto, Balanced, Distinct, Ids, NodePage, SetRoot, Rep, Ordered;
    InsertGrown(t, key, value, free, INVALID_PAGE_ID);
  }

  /** After any of these writes the catalog still differs only in the root of slot `i`. */
  lemma {:induction false} AnchorAfter(s: Store, i: nat, t: Tree, writes: seq<Image>, free: PageId)
    requires ANCHOR in s && AnchorOk(s[ANCHOR], Some(i)) && OwnWrites(s, i, t, writes, free) && ANCHOR !in Ids(t) && ANCHOR < free
    ensures var s' := Apply(s, writes); ANCHOR in s' && exists root :: s'[ANCHOR] == SetRoot(s[ANCHOR], Some(i), root)
    decreases |writes|
  {
    hide Ids;
    if writes == [] {
      var tables := s[ANCHOR].tables;
      assert tables[i := tables[i].(root := tables[i].root)] == tables;
      assert s[ANCHOR] == SetRoot(s[ANCHOR], Some(i), tables[i].root);
    } else {
      var n := |writes| - 1;
      assert forall r <- writes[..n] :: r in writes;
      assert writes[n] in writes;
      AnchorAfter(s, i, t, writes[..n], free);
    }
  }

  /** Such writes leave every other table's tree where it was. */
  lemma OtherKept(s: Store, trees: seq<TableTree>, free: PageId, i: nat, j: nat, writes: seq<Image>)
    requires Catalogued(s, trees, free) && InUse(s, i) && InUse(s, j) && i != j
    requires OwnWrites(s, i, trees[i].tree, writes, free)
    ensures HoldsTree(Apply(s, writes), Some(j), trees[j].tree)
  {
    hide Rep, Ordered, Distinct, Ids, Balanced, Apply;
    var s' := Apply(s, writes);
    AnchorAfter(s, i, trees[i].tree, writes, free);
    var t := trees[j].tree;
    forall p | p in Ids(t)
      ensures p in s ==> p in s' && s'[p] == s[p]
    {
      ApplyFrame(s, writes, p);
    }
    TreeKept(s, s', j, t);
  }

  /** Isolation at every crash point: whatever part of an insert into table `i` reached the log, every other table in
      use still has its own tree. */
  lemma OthersAtEveryCrash(s: Store, trees: seq<TableTree>, free: PageId, i: nat, key: Key, value: Bytes, j: nat, now: Store)
    requires Catalogued(s, trees, free) && InUse(s, i) && InUse(s, j) && i != j
    requires Visits(s, InsertOut(s, trees, free, i, key, value).writes, now)
    ensures HoldsTree(now, Some(j), trees[j].tree)
  {
    hide Rep, Ordered, Distinct, Ids, Balanced, Apply, InsertTop, HoldsTree;
    var writes := InsertOut(s, trees, free, i, key, value).writes;
    var k :| 0 <= k <= |writes| && now == Apply(s, writes[..k]);
    InsertOwn(s, i, trees[i].tree, trees[i].height, free, key, value);
    assert forall r <- writes[..k] :: r in writes;
    OtherKept(s, trees, free, i, j, writes[..k]);
  }

  /** An insert keeps the catalog in order, changes one table's map at one key, and nothing else about any table. */
  lemma InsertKeeps(s: Store, trees: seq<TableTree>, free: PageId, i: nat, key: Key, value: Bytes)
    requires Catalogued(s, trees, free) && InUse(s, i)
    requires InsertOut(s, trees, free, i, key, value).next <= INVALID_PAGE_ID
    ensures var out := InsertOut(s, trees, free, i, key, value);
            var s', trees' := Apply(s, out.writes), trees[i := TableTree(out.tree, HeightAfter(trees[i].tree, trees[i].height, key, value, free))];
            && Catalogued(s', trees', out.next)
            && s'[ANCHOR] == SetRoot(s[ANCHOR], Some(i), RootId(out.tree))
            && ToMap(Contents(out.tree)) == ToMap(Contents(trees[i].tree))[key := value]
  {
    hide Rep, Ordered, Distinct, Ids, Balanced, Apply, InsertTop, HeightAfter, Contents, ToMap;
    var t, h := trees[i].tree, trees[i].height;
    var out := InsertOut(s, trees, free, i, key, value);
    var s' := Apply(s, out.writes);
    InsertSettled(s, Some(i), t, h, free, key, value);
    InsertOwn(s, i, t, h, free, key, value);
    AnchorAfter(s, i, t, out.writes, free);
    InsertTopPages(t, key, value, free, Some(i), s[ANCHOR]);
    InsertTopIds(t, key, value, free, Some(i), s[ANCHOR]);
    forall j: nat | j != i && InUse(s, j)
      ensures Settled(s', Some(j), trees[j].tree, trees[j].height, out.next) && Ids(trees[j].tree) !! Ids(out.tree)
    {
      OtherKept(s, trees, free, i, j, out.writes);
    }
  }

  lemma InsertTopIds(t: Tree, key: Key, value: Bytes, free: PageId, slot: Option<nat>, anchor: Page)
    requires AnchorOk(anchor, slot) && Distinct(t) && Below(t, free)
    ensures var all := InsertTop(t, key, value, free, slot, anchor); forall p <- Ids(all.tree) :: p in Ids(t) || free <= p
  {
    hide InsertInto, Balanced, Distinct, NodePage;
    InsertGrown(t, key, value, free, INVALID_PAGE_ID);
    var out := InsertInto(t, key, value, free, INVALID_PAGE_ID);
    if out.split.Some? {
      var kids := [out.tree.left, out.tree.right];
      assert forall p <- Ids(InsertTop(t, key, value, free, slot, anchor).tree) :: p == out.next || p in Ids(kids[0]) || p in Ids(kids[1]);
    }
  }

  // ---------- a new table ----------

  function CreateWrites(tables: seq<TableEntry>, i: nat, name: string, columns: seq<ColumnDef>, free: PageId): seq<Image>
    requires i < |tables|
  {
    [Image(free, LeafPage([], INVALID_PAGE_ID)),
     Image(ANCHOR, CatalogPage(tables[i := TableEntry(true, name, columns, free, 0)]))]
  }

  lemma ApplyCreate(s: Store, i: nat, name: string, columns: seq<ColumnDef>, free: PageId)
    requires ANCHOR in s && AnchorOk(s[ANCHOR], Some(i)) && ANCHOR < free
    ensures Apply(s, CreateWrites(s[ANCHOR].tables, i, name, columns, free))
         == s[free := LeafPage([], INVALID_PAGE_ID)][ANCHOR := CatalogPage(s[ANCHOR].tables[i := TableEntry(true, name, columns, free, 0)])]
  {
    var w := CreateWrites(s[ANCHOR].tables, i, name, columns, free);
    ApplyTwo(s, w[0], w[1]);
  }

  lemma EmptyTree(s: Store, i: nat, free: PageId)
    requires ANCHOR in s && AnchorOk(s[ANCHOR], Some(i)) && s[ANCHOR].tables[i].root == free && ANCHOR < free < INVALID_PAGE_ID
    requires free in s && s[free] == LeafPage([], INVALID_PAGE_ID)
    ensures Settled(s, Some(i), Leaf(free, []), 0, free + 1) && ToMap(Contents(Leaf(free, []))) == map[]
  {
  }

  /** Settled trees stay settled when other pages are added or changed. */
  lemma SettledKept(s: Store, s': Store, i: nat, t: Tree, h: nat, free: PageId, free': PageId)
    requires Settled(s, Some(i), t, h, free) && free <= free'
    requires forall p <- Ids(t) :: p in s ==> p in s' && s'[p] == s[p]
    requires ANCHOR in s' && AnchorOk(s'[ANCHOR], Some(i)) && s'[ANCHOR].tables[i].root == s[ANCHOR].tables[i].root
    ensures Settled(s', Some(i), t, h, free')
  {
    hide Rep, Ordered, Distinct, Ids, Balanced;
    TreeKept(s, s', i, t);
  }

  /** A new table starts empty on a page of its own; the other tables are as before. */
  lemma CreateKeeps(s: Store, trees: seq<TableTree>, free: PageId, i: nat, name: string, columns: seq<ColumnDef>)
    requires Catalogued(s, trees, free) && i < MAX_CATALOG_TABLES && !InUse(s, i) && free < INVALID_PAGE_ID
    ensures var s' := Apply(s, CreateWrites(s[ANCHOR].tables, i, name, columns, free));
            && Catalogued(s', trees[i := TableTree(Leaf(free, []), 0)], free + 1)
            && s'[ANCHOR] == CatalogPage(s[ANCHOR].tables[i := TableEntry(true, name, columns, free, 0)])
            && ToMap(Contents(Leaf(free, []))) == map[]
  {
    hide Rep, Ordered, Distinct, Balanced, Apply, Contents, ToMap, HoldsTree;
    var s' := Apply(s, CreateWrites(s[ANCHOR].tables, i, name, columns, free));
    ApplyCreate(s, i, name, columns, free);
    EmptyTree(s', i, free);
    forall j: nat | j != i && InUse(s, j)
      ensures Settled(s', Some(j), trees[j].tree, trees[j].height, free + 1) && Ids(trees[j].tree) !! Ids(Leaf(free, []))
    {
      InUseAnchor(s, trees, free, j);
      SettledKept(s, s', j, trees[j].tree, trees[j].height, free, free + 1);
    }
  }

  /** At every crash point of a CREATE TABLE every table already in use has its own tree. */
  lemma CreateAtEveryCrash(s: Store, trees: seq<TableTree>, free: PageId, i: nat, name: string, columns: seq<ColumnDef>, j: nat, now: Store)
    requires Catalogued(s, trees, free) && i < MAX_CATALOG_TABLES && !InUse(s, i) && InUse(s, j) && free < INVALID_PAGE_ID
    requires Visits(s, CreateWrites(s[ANCHOR].tables, i, name, columns, free), now)
    ensures HoldsTree(now, Some(j), trees[j].tree)
  {
    hide Rep, Ordered, Distinct, Balanced, Apply, Contents, ToMap, Ids;
    var w := CreateWrites(s[ANCHOR].tables, i, name, columns, free);
    var k :| 0 <= k <= 2 && now == Apply(s, w[..k]);
    InUseAnchor(s, trees, free, j);
    if k == 0 {
      assert w[..k] == [];
      ApplyEmpty(s);
    } else if k == 1 {
      assert w[..k] == [w[0]];
      ApplyOne(s, w[0]);
      TreeKept(s, now, j, trees[j].tree);
    } else {
      assert w[..k] == w;
      CreateKeeps(s, trees, free, i, name, columns);
      assert InUse(now, j);
    }
  }

  lemma InUseAnchor(s: Store, trees: seq<TableTree>, free: PageId, j: nat)
    requires Catalogued(s, trees, free) && InUse(s, j)
    ensures ANCHOR !in Ids(trees[j].tree) && Below(trees[j].tree, free)
  {
  }

  /** The root page is logged before the catalog names it. */
  lemma CreateInOrder(s: Store, i: nat, name: string, columns: seq<ColumnDef>, free: PageId)
    requires Closed(s) && ANCHOR in s && AnchorOk(s[ANCHOR], Some(i))
    ensures InOrder(s.Keys, CreateWrites(s[ANCHOR].tables, i, name, columns, free))
  {
    var w := CreateWrites(s[ANCHOR].tables, i, name, columns, free);
    ClosedAt(s, ANCHOR);
    var now := w[1].page;
    forall p | p in Pointers(now)
      ensures p in s.Keys + {free}
    {
      var j :| 0 <= j < |now.tables| && now.tables[j].inUse && now.tables[j].root == p;
      assert j != i ==> s[ANCHOR].tables[j] == now.tables[j] && p in Pointers(s[ANCHOR]);
    }
    TwoInOrder(s.Keys, w[0], w[1]);
  }

  /** Whatever part of a CREATE TABLE reached the log, the recovered store has no dangling pointer. */
  lemma CreateClosed(s: Store, i: nat, name: string, columns: seq<ColumnDef>, free: PageId, now: Store)
    requires Closed(s) && ANCHOR in s && AnchorOk(s[ANCHOR], Some(i))
    requires Visits(s, CreateWrites(s[ANCHOR].tables, i, name, columns, free), now)
    ensures Closed(now)
  {
    CreateInOrder(s, i, name, columns, free);
    VisitsClosed(s, CreateWrites(s[ANCHOR].tables, i, name, columns, free), now);
  }

  // ---------- the row count ----------

  function Bumped(page: Page, i: nat): Page
    requires AnchorOk(page, Some(i))
  {
    CatalogPage(page.tables[i := page.tables[i].(rowCount := page.tables[i].rowCount + 1)])
  }

  lemma BumpPointers(page: Page, i: nat)
    requires AnchorOk(page, Some(i))
    ensures Pointers(Bumped(page, i)) == Pointers(page)
  {
    var now := Bumped(page, i);
    forall j | 0 <= j < |page.tables|
      ensures now.tables[j].inUse == page.tables[j].inUse && now.tables[j].root == page.tables[j].root
    {
    }
    forall p
      ensures p in Pointers(now) <==> p in Pointers(page)
    {
    }
  }

  /** Counting a row names no new page. */
  lemma BumpClosed(s: Store, i: nat, now: Store)
    requires Closed(s) && ANCHOR in s && AnchorOk(s[ANCHOR], Some(i))
    requires Visits(s, [Image(ANCHOR, Bumped(s[ANCHOR], i))], now)
    ensures Closed(now)
  {
    BumpInOrder(s, i);
    VisitsClosed(s, [Image(ANCHOR, Bumped(s[ANCHOR], i))], now);
  }

  lemma BumpInOrder(s: Store, i: nat)
    requires Closed(s) && ANCHOR in s && AnchorOk(s[ANCHOR], Some(i))
    ensures InOrder(s.Keys, [Image(ANCHOR, Bumped(s[ANCHOR], i))])
  {
    ClosedAt(s, ANCHOR);
    BumpPointers(s[ANCHOR], i);
    InOrderOne(s.Keys, Image(ANCHOR, Bumped(s[ANCHOR], i)));
  }

  lemma BumpKeeps(s: Store, trees: seq<TableTree>, free: PageId, i: nat)
    requires Catalogued(s, trees, free) && InUse(s, i)
    ensures Catalogued(s[ANCHOR := Bumped(s[ANCHOR], i)], trees, free)
  {
    hide Rep, Ordered, Distinct, Balanced, HoldsTree, Ids;
    var s' := s[ANCHOR := Bumped(s[ANCHOR], i)];
    forall j: nat | InUse(s', j)
      ensures Settled(s', Some(j), trees[j].tree, trees[j].height, free)
    {
      assert InUse(s, j);
      InUseAnchor(s, trees, free, j);
      SettledKept(s, s', j, trees[j].tree, trees[j].height, free, free);
    }
  }

  // ---------- a delete ----------

  /** A delete keeps the catalog in order, changes one table's map at one key, and nothing else about any table. */
  lemma RemoveKeeps(s: Store, trees: seq<TableTree>, free: PageId, i: nat, key: Key)
    requires Catalogued(s, trees, free) && InUse(s, i)
    ensures var out := DeleteFrom(trees[i].tree, key, INVALID_PAGE_ID);
            var s', trees' := Apply(s, out.writes), trees[i := TableTree(out.tree, trees[i].height)];
            && Catalogued(s', trees', free) && s'[ANCHOR] == s[ANCHOR]
            && ToMap(Contents(out.tree)) == ToMap(Contents(trees[i].tree)) - {key}
  {
    hide Rep, Ordered, Distinct, Balanced, Apply, DeleteFrom, Contents, ToMap, Ids;
    var t, h := trees[i].tree, trees[i].height;
    var out := DeleteFrom(t, key, INVALID_PAGE_ID);
    var s' := Apply(s, out.writes);
    DeleteSettled(s, Some(i), t, h, free, key);
    DeleteIds(t, h, 1, key, INVALID_PAGE_ID);
    ApplyFrame(s, out.writes, ANCHOR);
    forall j: nat | j != i && InUse(s, j)
      ensures Settled(s', Some(j), trees[j].tree, trees[j].height, free) && Ids(trees[j].tree) !! Ids(out.tree)
    {
      RemoveOther(s, trees, free, i, key, j, out.writes);
    }
  }

  lemma RemoveOther(s: Store, trees: seq<TableTree>, free: PageId, i: nat, key: Key, j: nat, writes: seq<Image>)
    requires Catalogued(s, trees, free) && InUse(s, i) && InUse(s, j) && i != j
    requires forall r <- writes :: r.id in Ids(trees[i].tree)
    ensures Settled(Apply(s, writes), Some(j), trees[j].tree, trees[j].height, free)
  {
    hide Rep, Ordered, Distinct, Balanced, Apply, Ids;
    InUseAnchor(s, trees, free, i);
    ApplyFrame(s, writes, ANCHOR);
    forall p | p in Ids(trees[j].tree)
      ensures p in s ==> p in Apply(s, writes) && Apply(s, writes)[p] == s[p]
    {
      ApplyFrame(s, writes, p);
    }
    SettledKept(s, Apply(s, writes), j, trees[j].tree, trees[j].height, free, free);
  }

  /** A delete uses the same pages. */
  lemma {:induction false} DeleteIds(t: Tree, h: nat, least: nat, key: Key, next: PageId)
    requires Balanced(t, h, least)
    ensures Ids(DeleteFrom(t, key, next).tree) == Ids(t)
    decreases t
  {
    match t
    case Leaf(_, _) =>
    case Node(_, keys, kids) =>
      var i := ChildIndex(keys, key);
      DeleteIds(kids[i], h - 1, 2, key, NextOf(kids, i, next));
      var kid := DeleteFrom(kids[i], key, NextOf(kids, i, next)).tree;
      var out := DeleteFrom(t, key, next).tree;
      var kids' := kids[i := kid];
      assert out == Node(t.id, keys, kids');
      forall p
        ensures p in Ids(out) <==> p in Ids(t)
      {
        if j :| 0 <= j < |kids| && p in Ids(kids[j]) {
          assert p in Ids(kids'[j]);
        }
        if j :| 0 <= j < |kids'| && p in Ids(kids'[j]) {
          assert p in Ids(kids[j]);
        }
      }
  }
}
