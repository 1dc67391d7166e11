/** How fast a tree fills out, and what a lookup misses right after a crash in the middle of a split. */
module TreeShape {
  import opened Pages
  import opened Cells
  import opened Trees
  import opened TreeUpdate
  import opened TreeStages
  import opened TreeScan
  import opened TreeTop
  import opened Buffers
  import opened BTrees
  import opened HalfSplits

  function Pow3(n: nat): nat {
    if n == 0 then 1 else 3 * Pow3(n - 1)
  }

  lemma {:induction false} LeavesAtLeast(ts: seq<Tree>, each: nat)
    requires forall i :: 0 <= i < |ts| ==> |Leaves(ts[i])| >= each
    ensures |LeavesAll(ts)| >= |ts| * each
  {
    hide Leaves;
    if ts != [] {
      assert forall i :: 0 <= i < |ts[1..]| ==> ts[1..][i] == ts[i + 1];
      LeavesAtLeast(ts[1..], each);
      assert |ts| * each == each + (|ts| - 1) * each;
    }
  }

  lemma Widen(n: nat, m: nat, each: nat)
    requires n >= m
    ensures n * each >= m * each
  {
  }

  /** A non-root subtree with `h` internal levels has at least 3^h leaves. */
  lemma {:induction false} SubtreeLeaves(t: Tree, h: nat, least: nat)
    requires Balanced(t, h, least) && least >= 2
    ensures |Leaves(t)| >= Pow3(h)
    decreases t
  {
    if t.Node? {
      forall i | 0 <= i < |t.kids|
        ensures |Leaves(t.kids[i])| >= Pow3(h - 1)
      {
        SubtreeLeaves(t.kids[i], h - 1, 2);
      }
      LeavesAtLeast(t.kids, Pow3(h - 1));
      Widen(|t.kids|, 3, Pow3(h - 1));
    }
  }

  /** A tree with h > 0 internal levels has at least 2 * 3^(h-1) leaves. */
  lemma TreeLeaves(t: Tree, h: nat)
    requires Balanced(t, h, 1) && h > 0
    ensures |Leaves(t)| >= 2 * Pow3(h - 1)
  {
    forall i | 0 <= i < |t.kids|
      ensures |Leaves(t.kids[i])| >= Pow3(h - 1)
    {
      SubtreeLeaves(t.kids[i], h - 1, 2);
    }
    LeavesAtLeast(t.kids, Pow3(h - 1));
    Widen(|t.kids|, 2, Pow3(h - 1));
  }

  // ---------- how high a tree can be ----------

  ghost function KidPages(kids: seq<Tree>): set<PageId> {
    set i, p | 0 <= i < |kids| && p in Ids(kids[i]) :: p
  }

  lemma {:induction false} KidPagesSplit(kids: seq<Tree>)
    requires kids != [] && forall j :: 0 < j < |kids| ==> Ids(kids[0]) !! Ids(kids[j])
    ensures KidPages(kids) == Ids(kids[0]) + KidPages(kids[1..]) && Ids(kids[0]) !! KidPages(kids[1..])
  {
    hide Ids;
    var rest := kids[1..];
    assert forall i :: 0 <= i < |rest| ==> rest[i] == kids[i + 1];
    forall p
      ensures p in KidPages(kids) <==> p in Ids(kids[0]) || p in KidPages(rest)
    {
      if p in KidPages(rest) {
        var i :| 0 <= i < |rest| && p in Ids(rest[i]);
        assert p in Ids(kids[i + 1]);
      }
      if p in KidPages(kids) {
        var i :| 0 <= i < |kids| && p in Ids(kids[i]);
        assert i > 0 ==> p in Ids(rest[i - 1]);
      }
    }
  }

  lemma UnionSize(a: set<PageId>, b: set<PageId>)
    requires a !! b
    ensures |a + b| == |a| + |b|
  {
  }

  lemma OneMore(n: nat, each: nat)
    ensures (n + 1) * each == n * each + each
  {
  }

  /** Disjoint kids add up. */
  lemma {:induction false} KidsAtLeast(kids: seq<Tree>, each: nat)
    requires forall i, j :: 0 <= i < j < |kids| ==> Ids(kids[i]) !! Ids(kids[j])
    requires forall i :: 0 <= i < |kids| ==> |Ids(kids[i])| >= each
    ensures |KidPages(kids)| >= |kids| * each
  {
    hide Ids, KidPages;
    if kids != [] {
      var rest := kids[1..];
      assert forall i :: 0 <= i < |rest| ==> rest[i] == kids[i + 1];
      KidsAtLeast(rest, each);
      KidPagesSplit(kids);
      UnionSize(Ids(kids[0]), KidPages(rest));
      OneMore(|rest|, each);
    }
  }

  lemma NodeAtLeast(t: Tree, each: nat, n: nat)
    requires t.Node? && Distinct(t) && |t.kids| >= n && forall i :: 0 <= i < |t.kids| ==> |Ids(t.kids[i])| >= each
    ensures |Ids(t)| >= n * each
  {
    KidsAtLeast(t.kids, each);
    Widen(|t.kids|, n, each);
    assert KidPages(t.kids) <= Ids(t);
    SubsetSize(KidPages(t.kids), Ids(t));
  }

  lemma {:induction false} SubsetSize(a: set<PageId>, b: set<PageId>)
    requires a <= b
    ensures |a| <= |b|
  {
    assert b == a + (b - a);
  }

  /** A non-root subtree with `h` internal levels uses at least 3^h pages. */
  lemma {:induction false} SubtreePages(t: Tree, h: nat)
    requires Balanced(t, h, 2) && Distinct(t)
    ensures |Ids(t)| >= Pow3(h)
    decreases t
  {
    if t.Node? {
      forall i | 0 <= i < |t.kids|
        ensures |Ids(t.kids[i])| >= Pow3(h - 1)
      {
        SubtreePages(t.kids[i], h - 1);
      }
      NodeAtLeast(t, Pow3(h - 1), 3);
    }
  }

  /** A tree with h > 0 internal levels uses at least 2 * 3^(h-1) pages. */
  lemma TreePages(t: Tree, h: nat)
    requires Balanced(t, h, 1) && Distinct(t) && h > 0
    ensures |Ids(t)| >= 2 * Pow3(h - 1)
  {
    forall i | 0 <= i < |t.kids|
      ensures |Ids(t.kids[i])| >= Pow3(h - 1)
    {
      SubtreePages(t.kids[i], h - 1);
    }
    NodeAtLeast(t, Pow3(h - 1), 2);
  }

  lemma {:induction false} IdsUpTo(ids: set<PageId>, free: nat)
    requires forall p <- ids :: p < free
    ensures |ids| <= free
    decreases free
  {
    if free == 0 {
      assert ids == {};
    } else {
      IdsUpTo(ids - {free - 1}, free - 1);
      SubsetSize(ids, (ids - {free - 1}) + {free - 1});
    }
  }

  lemma {:induction false} Pow3Grows(m: nat, n: nat)
    requires m <= n
    ensures Pow3(m) <= Pow3(n)
  {
    if m < n {
      Pow3Grows(m, n - 1);
    }
  }

  /** With `frames` frames a tree among the first `ids` page ids is never too high to insert into. */
  predicate FramesSuffice(frames: nat, ids: nat) {
    frames >= 2 && ids < 2 * Pow3(frames - 2)
  }

  lemma PagesBelow(t: Tree, ids: nat)
    requires Below(t, ids)
    ensures |Ids(t)| <= ids
  {
    hide Ids;
    IdsUpTo(Ids(t), ids);
  }

  /** A tree is low: its pages would not fit below `ids` otherwise. */
  lemma HeightFits(t: Tree, h: nat, frames: nat, ids: nat)
    requires Balanced(t, h, 1) && Distinct(t) && Below(t, ids) && FramesSuffice(frames, ids)
    ensures h + 2 <= frames
  {
    hide Balanced, Distinct, Ids, Pow3, Below;
    if h > 0 {
      TreePages(t, h);
      PagesBelow(t, ids);
      if h + 2 > frames {
        Pow3Grows(frames - 2, h - 1);
      }
    }
  }

  /** The most frames an operation on a tree can need, whatever the tree. */
  const MOST_FRAMES: nat := 22

  lemma MostFrames(frames: nat, ids: nat)
    requires frames >= MOST_FRAMES && ids <= INVALID_PAGE_ID
    ensures FramesSuffice(frames, ids)
  {
    Pow3Grows(20, frames - 2);
    assert Pow3(5) == 243;
    assert Pow3(10) == 59049 by {
      assert Pow3(7) == 2187;
    }
    assert Pow3(15) == 14348907 by {
      assert Pow3(12) == 531441;
    }
    assert Pow3(20) == 3486784401 by {
      assert Pow3(17) == 129140163;
    }
  }

  /** Enough frames and page ids for `n` operations that start with `free` as the next page id: a check for the caller. */
  predicate Roomy(frames: nat, free: PageId, n: nat) {
    free + MOST_FRAMES * n <= INVALID_PAGE_ID && FramesSuffice(frames, free + MOST_FRAMES * n)
  }

  lemma RoomyNow(frames: nat, free: PageId, n: nat)
    requires Roomy(frames, free, n) && n > 0
    ensures Roomy(frames, free, 1) && free + MOST_FRAMES <= INVALID_PAGE_ID
  {
    hide Pow3;
  }

  lemma RoomyNext(frames: nat, free: PageId, free': PageId, n: nat)
    requires Roomy(frames, free, n) && n > 0 && free' <= free + MOST_FRAMES
    ensures Roomy(frames, free', n - 1)
  {
    hide Pow3;
  }

  /** An insert never runs out of frames or page ids where there is room for one. */
  lemma RoomyInsert(t: Tree, h: nat, frames: nat, free: PageId)
    requires Balanced(t, h, 1) && Distinct(t) && Below(t, free) && Roomy(frames, free, 1)
    ensures h + 2 <= frames && h + 2 <= MOST_FRAMES && free + h + 2 <= INVALID_PAGE_ID
  {
    hide Balanced, Distinct, Ids, Pow3;
    HeightFits(t, h, frames, free + MOST_FRAMES);
    MostFrames(MOST_FRAMES, INVALID_PAGE_ID);
    HeightFits(t, h, MOST_FRAMES, INVALID_PAGE_ID);
  }

  /** No tree has more than 20 internal levels. */
  lemma HeightBound(s: Store, slot: Option<nat>, t: Tree, h: nat, free: PageId)
    requires Settled(s, slot, t, h, free)
    ensures h + 2 <= MOST_FRAMES
  {
    hide Ordered, Rep, Balanced, Distinct, Ids, Pow3;
    MostFrames(MOST_FRAMES, INVALID_PAGE_ID);
    HeightFits(t, h, MOST_FRAMES, INVALID_PAGE_ID);
  }

  /** With 22 frames, none of them pinned between operations, no insert ever runs out of frames. */
  lemma FramesNeverRunOut(b: BTree)
    requires b.Valid() && |b.pool.frames| >= MOST_FRAMES
    ensures b.pool.Pins() == map[] && b.height + 2 <= |b.pool.frames|
  {
    hide Settled;
    HeightBound(b.pool.View(), b.slot, b.tree, b.height, b.pool.disk.nextPageId);
  }

  // ---------- a crash in the middle of a split ----------

  function Filled(keys: seq<Key>): seq<Cell> {
    seq(|keys|, i requires 0 <= i < |keys| => Cell(keys[i], []))
  }

  /** A leaf of four keys under a lone root, about to split. */
  function FullLeaf(): Tree {
    Leaf(1, Filled([10, 20, 30, 40]))
  }

  /** The same tree once the insert of 50 has logged both halves of the leaf and nothing else. */
  function SplitLeaf(): Tree {
    Half(Leaf(1, Filled([10, 20])), 30, Leaf(2, Filled([30, 40, 50])))
  }

  lemma {:induction false} FilledPut(keys: seq<Key>, key: Key)
    requires forall k <- keys :: k < key
    ensures Put(Filled(keys), key, []) == Filled(keys + [key])
  {
    if keys == [] {
      assert [Cell(key, [])] + Filled([]) == Filled([key]);
    } else {
      assert keys[0] in keys && forall k <- keys[1..] :: k in keys;
      FilledPut(keys[1..], key);
      assert Filled(keys)[1..] == Filled(keys[1..]);
      assert keys + [key] == [keys[0]] + (keys[1..] + [key]);
      assert Filled(keys + [key]) == [Cell(keys[0], [])] + Filled(keys[1..] + [key]);
    }
  }

  /** A lone leaf takes one more key. */
  lemma LeafTakes(keys: seq<Key>, key: Key, anchor: Page)
    requires |keys| < LEAF_MAX_KEYS && (forall k <- keys :: k < key) && anchor.MetaPage?
    ensures InsertTop(Leaf(1, Filled(keys)), key, [], 2, None, anchor)
            == Outcome(Leaf(1, Filled(keys + [key])), [Image(1, LeafPage(Filled(keys + [key]), INVALID_PAGE_ID))], 2, None)
    ensures HeightAfter(Leaf(1, Filled(keys)), 0, key, [], 2) == 0
  {
    FilledPut(keys, key);
  }

  /** The four images that inserting 50 logs. */
  function SplitWrites(): seq<Image> {
    [Image(2, LeafPage(Filled([30, 40, 50]), INVALID_PAGE_ID)), Image(1, LeafPage(Filled([10, 20]), 2)),
     Image(3, NodePage([30], [Leaf(1, Filled([10, 20])), Leaf(2, Filled([30, 40, 50]))])), Image(0, MetaPage(3))]
  }

  lemma FullLeafSplits(anchor: Page)
    requires anchor.MetaPage?
    ensures InsertTop(FullLeaf(), 50, [], 2, None, anchor).writes == SplitWrites()
    ensures InsertTop(FullLeaf(), 50, [], 2, None, anchor).next == 4
    ensures StageTop(FullLeaf(), 50, [], 2, 2) == SplitLeaf()
  {
    var five := Filled([10, 20, 30, 40, 50]);
    assert [10, 20, 30, 40] + [50] == [10, 20, 30, 40, 50];
    FilledPut([10, 20, 30, 40], 50);
    assert five[..2] == Filled([10, 20]) && five[2..] == Filled([30, 40, 50]);
    assert InsertInto(FullLeaf(), 50, [], 2, INVALID_PAGE_ID) == LeafOutcome(1, five, 2, INVALID_PAGE_ID);
  }

  /** Of the half-split leaf a scan sees all five keys, and descent does not see the last three. */
  lemma SplitLeafHides()
    ensures Contents(SplitLeaf()) == Filled([10, 20, 30, 40, 50]) && Hidden(SplitLeaf()) == Filled([30, 40, 50])
  {
    assert Filled([10, 20]) + Filled([30, 40, 50]) == Filled([10, 20, 30, 40, 50]);
    assert Filled([30, 40, 50]) == [] + Filled([30, 40, 50]);
  }

  /** An insert into that tree keeps the map exactly when the key lies below the hidden part; 30 would be stored twice and
      35 ahead of 30. */
  lemma SplitLeafInserts(s: Store, free: PageId, key: Key, value: Bytes)
    requires HoldsTree(s, None, SplitLeaf()) && 2 < free && free + 2 <= INVALID_PAGE_ID
    ensures HoldsMap(Apply(s, InsertTop(SplitLeaf(), key, value, free, None, s[ANCHOR]).writes), None,
                     ToMap(Contents(SplitLeaf()))[key := value])
            <==> key < 30
  {
    hide HoldsMap, Apply, InsertTop, ToMap, Rep, Ordered, Distinct;
    var hidden := Filled([30, 40, 50]);
    assert hidden[0] in hidden && hidden[0].key == 30;
    assert Passed(SplitLeaf(), key) <==> key >= 30;
    assert Ids(SplitLeaf()) == {1, 2};
    TopNextBound(SplitLeaf(), 0, key, value, free, None, s[ANCHOR]);
    InsertKeepsMap(s, None, SplitLeaf(), free, key, value);
  }

  /** Each of the four images changes its page. */
  lemma SplitChanges(s: Store)
    requires 1 in s && s[1] == LeafPage(FullLeaf().cells, INVALID_PAGE_ID) && 0 in s && s[0] == MetaPage(1)
    requires 2 !in s && 3 !in s
    ensures Changing(s, SplitWrites())
  {
    assert |FullLeaf().cells| != |Filled([10, 20])|;
  }

  /** Inserting 50 into the full leaf: some prefix of the log holds the half-split leaf. */
  lemma LookupMissesMidSplit(log: seq<Image>, log': seq<Image>, s: Store) returns (n: nat)
    requires s == Apply(map[], log) && Settled(s, None, FullLeaf(), 0, 2) && 2 !in s && 3 !in s
    requires Extends(log, log', InsertTop(FullLeaf(), 50, [], 2, None, s[ANCHOR]).writes)
    ensures |log| <= n <= |log'| && HoldsTree(Apply(map[], log'[..n]), None, SplitLeaf())
  {
    hide Apply, Extends, InsertTop, StageTop, Contents, Put, CommitPoint, Changing;
    FullLeafSplits(s[ANCHOR]);
    SettledReady(s, None, FullLeaf(), 0, 2, 50);
    InsertStages(s, None, FullLeaf(), 2, 50, [], 2);
    SplitChanges(s);
    n := EveryStage(log, log', SplitWrites(), 2);
  }

  /** One more key into the lone leaf of a tree. */
  method TakeOne(b: BTree, ghost keys: seq<Key>, key: Key)
    requires b.Valid() && b.slot == None && |b.pool.frames| >= 2 && b.pool.disk.nextPageId == 2
    requires |keys| < LEAF_MAX_KEYS && (forall k <- keys :: k < key) && b.tree == Leaf(1, Filled(keys)) && b.height == 0
    requires b.pool.View().Keys == {0, 1}
    modifies b, b.pool, b.pool.disk, b.pool.wal
    ensures b.Valid() && |b.pool.frames| == old(|b.pool.frames|) && b.pool.disk.nextPageId == 2
    ensures b.tree == Leaf(1, Filled(keys + [key])) && b.height == 0 && b.pool.View().Keys == {0, 1}
  {
    hide BufferPool.Valid, BufferPool.View, BufferPool.Pins, BufferPool.Log, BufferPool.State, Extends, InsertTop, HeightAfter,
         Rep, Ordered, Distinct, Contents, ToMap, HoldsMap, LogClosed.ClosedLog;
    LeafTakes(keys, key, b.pool.View()[ANCHOR]);
    ApplyOne(b.pool.View(), Image(1, LeafPage(Filled(keys + [key]), INVALID_PAGE_ID)));
    var ok := b.Insert(key, []);
    assert ok;
  }

  /** Four inserts into an empty database fill its leaf. */
  method FillLeaf(pool: BufferPool) returns (b: BTree)
    requires pool.Valid() && pool.View() == pool.Durable() == map[] && pool.Pins() == map[] && pool.disk.nextPageId == 0
    requires |pool.frames| >= 2
    modifies pool, pool.disk, pool.wal
    ensures fresh(b) && b.pool == pool && b.slot == None && b.Valid() && |pool.frames| == old(|pool.frames|)
    ensures b.tree == FullLeaf() && b.height == 0 && pool.View().Keys == {0, 1} && pool.disk.nextPageId == 2
  {
    hide BufferPool.Valid, BufferPool.View, BufferPool.Pins, BufferPool.Log, BufferPool.State, Apply, BTree.Valid, Settled, LogClosed.ClosedLog,
         Contents, ToMap, HoldsMap;
    b := CreateTree(pool);
    assert Filled([]) == [] && [] + [10] == [10] && [10] + [20] == [10, 20] && [10, 20] + [30] == [10, 20, 30];
    assert [10, 20, 30] + [40] == [10, 20, 30, 40];
    TakeOne(b, [], 10);
    TakeOne(b, [10], 20);
    TakeOne(b, [10, 20], 30);
    TakeOne(b, [10, 20, 30], 40);
  }

  lemma FiveKeys()
    ensures ToMap(Contents(FullLeaf()))[50 := []] == ToMap(Filled([10, 20, 30, 40, 50]))
  {
    hide ToMap, Put;
    var four := Filled([10, 20, 30, 40]);
    assert [10, 20, 30, 40] + [50] == [10, 20, 30, 40, 50];
    FilledPut([10, 20, 30, 40], 50);
    PutMap(four, 50, []);
  }

  /** From an empty database five inserts reach it: a crash at point `n` leaves the half-split leaf, where scans find all five
      keys (SplitLeafHides) and a lookup of 50 finds nothing. */
  method CrashMidSplit(pool: BufferPool) returns (b: BTree, ghost n: nat)
    requires pool.Valid() && pool.View() == pool.Durable() == map[] && pool.Pins() == map[] && pool.disk.nextPageId == 0
    requires |pool.frames| >= 2
    modifies pool, pool.disk, pool.wal
    ensures fresh(b) && b.pool == pool && b.Valid() && b.Entries() == ToMap(Filled([10, 20, 30, 40, 50]))
    ensures n <= |pool.Log()| && HoldsTree(Apply(map[], pool.Log()[..n]), None, SplitLeaf())
  {
    hide BufferPool.Valid, BufferPool.View, BufferPool.Pins, BufferPool.Log, BufferPool.State, Apply, Extends, InsertTop, HeightAfter,
         HoldsTree, Balanced, Below, Contents, ToMap, HoldsMap, LogClosed.ClosedLog, Filled;
    b := FillLeaf(pool);
    ghost var s, log := pool.View(), pool.Log();
    FiveKeys();
    b.ValidWritable();
    var _ := b.Insert(50, []);
    n := LookupMissesMidSplit(log, pool.Log(), s);
  }
}
