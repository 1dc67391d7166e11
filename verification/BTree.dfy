/** The B+tree object: every page it touches goes through the buffer pool. */
module BTrees {
  import opened Pages
  import opened Cells
  import opened Trees
  import opened TreeUpdate
  import opened TreeStages
  import opened TreeScan
  import opened TreeDelete
  import opened TreeTop
  import opened LogClosed
  import opened HalfSplits
  import opened PoolModel
  import opened Buffers

  datatype SplitResult = SplitResult(promotedKey: Key, newRightPageId: PageId)

  /** The split an outcome reports to the parent. */
  function SplitOf(out: Outcome): Option<SplitResult>
    requires SplitsInHalf(out)
  {
    if out.split.Some? then Some(SplitResult(out.split.value, RootId(out.tree.right))) else None
  }

  lemma {:induction false} ChildIndexIs(keys: seq<Key>, key: Key, i: nat)
    requires i <= |keys| && forall j :: 0 <= j < i ==> keys[j] <= key
    requires i < |keys| ==> key < keys[i]
    ensures i == ChildIndex(keys, key)
  {
  }

  /** The descent loop over the separators of one node. */
  method FindChild(seps: seq<Sep>, key: Key) returns (idx: nat)
    ensures idx <= |seps|
    ensures forall j :: 0 <= j < idx ==> seps[j].key <= key
    ensures idx < |seps| ==> key < seps[idx].key
  {
    idx := 0;
    while idx < |seps| && key >= seps[idx].key
      invariant idx <= |seps|
      invariant forall j :: 0 <= j < idx ==> seps[j].key <= key
    {
      idx := idx + 1;
    }
  }

  /** Find the place of a key among sorted cells, then overwrite or shift and insert. */
  method PutCell(cells: seq<Cell>, key: Key, value: Bytes) returns (cells': seq<Cell>, found: bool)
    ensures cells' == Put(cells, key, value)
    ensures |cells'| == if found then |cells| else |cells| + 1
  {
    var idx := 0;
    while idx < |cells| && cells[idx].key < key
      invariant idx <= |cells|
      invariant forall c <- cells[..idx] :: c.key < key
    {
      idx := idx + 1;
    }
    assert cells == cells[..idx] + cells[idx..];
    PutLeft(cells[..idx], cells[idx..], key, value);
    assert Put(cells[idx..], key, value)
        == [Cell(key, value)] + if idx < |cells| && cells[idx].key == key then cells[idx..][1..] else cells[idx..];
    hide Put;
    if idx < |cells| && cells[idx].key == key {
      cells', found := cells[idx := Cell(key, value)], true;
      assert cells' == cells[..idx] + ([Cell(key, value)] + cells[idx..][1..]);
    } else {
      cells', found := cells[..idx] + [Cell(key, value)] + cells[idx..], false;
      assert cells' == cells[..idx] + ([Cell(key, value)] + cells[idx..]);
    }
  }

  /** Naming both parts of a split kid: the separators shift right by one. */
  lemma SepsWith(keys: seq<Key>, kids: seq<Tree>, i: nat, left: Tree, sep: Key, right: Tree)
    requires |kids| == |keys| + 1 && i < |kids| && RootId(left) == RootId(kids[i])
    ensures NodePage(KeysWith(keys, i, sep), KidsWith(kids, i, left, right))
         == InternalPage(RootId(kids[0]), Seps(keys, kids)[..i] + [Sep(sep, RootId(right))] + Seps(keys, kids)[i..])
  {
    hide RootId, Seps;
    var seps := Seps(keys, kids);
    var keys', kids' := KeysWith(keys, i, sep), KidsWith(kids, i, left, right);
    var seps' := seps[..i] + [Sep(sep, RootId(right))] + seps[i..];
    forall j | 0 <= j < |seps'|
      ensures Seps(keys', kids')[j] == seps'[j]
    {
      assert j < i ==> kids'[j + 1] == if j + 1 < i then kids[j + 1] else left;
      assert j > i ==> kids'[j + 1] == kids[j] && keys'[j] == keys[j - 1] && seps'[j] == seps[j - 1];
    }
    assert Seps(keys', kids') == seps';
    assert RootId(kids'[0]) == RootId(kids[0]);
  }

  /** The pages of the two halves, cut from the separators of the whole. */
  lemma SepsHalves(keys: seq<Key>, kids: seq<Tree>, m: nat)
    requires |kids| == |keys| + 1 && m < |keys|
    ensures var seps := Seps(keys, kids);
            && NodePage(keys[..m], kids[..m + 1]) == InternalPage(RootId(kids[0]), seps[..m])
            && NodePage(keys[m + 1..], kids[m + 1..]) == InternalPage(seps[m].child, seps[m + 1..])
            && seps[m].key == keys[m]
  {
    var seps := Seps(keys, kids);
    assert Seps(keys[..m], kids[..m + 1]) == seps[..m];
    assert Seps(keys[m + 1..], kids[m + 1..]) == seps[m + 1..];
    assert kids[m + 1..][0] == kids[m + 1];
  }

  lemma LeafWrites(id: PageId, cells: seq<Cell>, free: PageId, next: PageId)
    ensures var w := LeafOutcome(id, cells, free, next).writes; w != [] && w[|w| - 1] in w && w[|w| - 1].id == id
  {
  }

  lemma LeafFits(id: PageId, cells: seq<Cell>, free: PageId, next: PageId, s: Store, log: seq<Image>)
    requires |cells| <= LEAF_MAX_KEYS
    ensures var out := LeafOutcome(id, cells, free, next);
            && out == Outcome(Leaf(id, cells), [Image(id, LeafPage(cells, next))], free, None)
            && Apply(s, out.writes) == s[id := LeafPage(cells, next)]
            && Extends(log, log, out.writes[..|out.writes| - 1])
  {
    var out := LeafOutcome(id, cells, free, next);
    ApplyOne(s, out.writes[0]);
    assert out.writes[..0] == [];
    ExtendsNothing(log);
  }

  lemma NodeWrites(id: PageId, keys: seq<Key>, kids: seq<Tree>, free: PageId)
    requires |kids| == |keys| + 1
    ensures var w := NodeOutcome(id, keys, kids, free).writes; w != [] && w[|w| - 1] in w && w[|w| - 1].id == id
  {
  }

  /** The facts about kid `i` that a recursive insert relies on. */
  lemma KidReady(s: Store, t: Tree, h: nat, next: PageId, free: PageId, i: nat)
    requires t.Node? && Rep(s, t, next) && Distinct(t) && Fits(t, h) && Below(t, free) && i < |t.kids|
    ensures h > 0 && Rep(s, t.kids[i], NextOf(t.kids, i, next)) && Distinct(t.kids[i]) && Fits(t.kids[i], h - 1)
    ensures Below(t.kids[i], free) && t.id !in Ids(t.kids[i]) && Ids(t.kids[i]) <= Ids(t)
    ensures |t.kids| == |t.keys| + 1 && t.id in s && s[t.id] == NodePage(t.keys, t.kids)
  {
    KidIds(t, i);
  }

  /** Inserting below a kid leaves the page of the node itself alone. */
  lemma OwnPageKept(s: Store, t: Tree, i: nat, key: Key, value: Bytes, free: PageId, next: PageId)
    requires t.Node? && i < |t.kids| && t.id in s && t.id < free && t.id !in Ids(t.kids[i])
    requires Distinct(t.kids[i]) && Below(t.kids[i], free)
    ensures var s' := Apply(s, InsertInto(t.kids[i], key, value, free, next).writes);
            t.id in s' && s'[t.id] == s[t.id]
    ensures var out := InsertInto(t.kids[i], key, value, free, next);
            free <= out.next && (out.split.Some? ==> RootId(out.tree.left) == RootId(t.kids[i]))
  {
    InsertGrown(t.kids[i], key, value, free, next);
    ApplyFrame(s, InsertInto(t.kids[i], key, value, free, next).writes, t.id);
  }

  /** The node a descent takes, read off the page. */
  lemma ChildOnPage(keys: seq<Key>, kids: seq<Tree>, key: Key, idx: nat)
    requires |kids| == |keys| + 1 && idx <= |keys|
    requires forall j :: 0 <= j < idx ==> Seps(keys, kids)[j].key <= key
    requires idx < |keys| ==> key < Seps(keys, kids)[idx].key
    ensures idx == ChildIndex(keys, key)
    ensures RootId(kids[idx]) == if idx == 0 then RootId(kids[0]) else Seps(keys, kids)[idx - 1].child
  {
    assert forall j :: 0 <= j < |keys| ==> Seps(keys, kids)[j].key == keys[j];
    forall j | 0 <= j < idx
      ensures keys[j] <= key
    {
      assert Seps(keys, kids)[j].key <= key;
    }
    ChildIndexIs(keys, key, idx);
  }

  /** The lookup loop inside one leaf. */
  method FindCell(cells: seq<Cell>, key: Key) returns (found: Option<Bytes>)
    ensures found == Lookup(cells, key)
  {
    var i := 0;
    while i < |cells|
      invariant i <= |cells|
      invariant Lookup(cells, key) == Lookup(cells[i..], key)
    {
      if cells[i].key == key {
        return Some(cells[i].value);
      }
      assert cells[i..][1..] == cells[i + 1..];
      i := i + 1;
    }
    return None;
  }

  /** The removal loop inside one leaf. */
  method RemoveCell(cells: seq<Cell>, key: Key) returns (cells': seq<Cell>, removed: bool)
    ensures cells' == Del(cells, key)
    ensures removed <==> Lookup(cells, key).Some?
  {
    var i := 0;
    while i < |cells|
      invariant i <= |cells|
      invariant forall c <- cells[..i] :: c.key != key
    {
      if cells[i].key == key {
        assert cells == cells[..i] + cells[i..];
        DelSkip(cells[..i], cells[i..], key);
        return cells[..i] + cells[i + 1..], true;
      }
      i := i + 1;
    }
    assert cells == cells[..i] + [];
    DelSkip(cells[..i], [], key);
    return cells, false;
  }

  /** The scan loop inside one leaf, which stops at the first key above the range. */
  method ScanLeaf(cells: seq<Cell>, low: Key, high: Key) returns (rows: seq<Cell>, pastHigh: bool)
    requires Sorted(cells)
    ensures rows == InRange(cells, low, high)
    ensures pastHigh <==> exists c <- cells :: c.key > high && low <= c.key
  {
    rows, pastHigh := [], false;
    var i := 0;
    while i < |cells|
      invariant i <= |cells|
      invariant InRange(cells, low, high) == rows + InRange(cells[i..], low, high)
      invariant forall c <- cells[..i] :: c.key < low || c.key <= high
    {
      assert cells[i..][1..] == cells[i + 1..];
      if cells[i].key < low {
        i := i + 1;
        continue;
      }
      if cells[i].key > high {
        assert forall c <- cells[i..] :: cells[i].key <= c.key;
        InRangeNone(cells[i..], low, high);
        assert cells[i] in cells;
        return rows, true;
      }
      rows := rows + [cells[i]];
      i := i + 1;
    }
    assert cells[..i] == cells;
  }

  class BTree {
    const pool: BufferPool
    /** None: the tree owns metadata page 0.  Some(i): slot i of the catalog page records the root. */
    const slot: Option<nat>
    var root: PageId
    ghost var tree: Tree
    ghost var height: nat

    constructor (p: BufferPool, s: Option<nat>, r: PageId, ghost t: Tree, ghost h: nat)
      ensures pool == p && slot == s && root == r && tree == t && height == h
    {
      pool, slot, root, tree, height := p, s, r, t, h;
    }

    /** Enough for reading: the store holds a tree under this root, perhaps with a split half done. */
    ghost predicate Readable()
      reads this, pool, pool.disk, pool.wal
    {
      && Synced() && pool.Pins() == map[] && |pool.frames| > 0
      && HoldsTree(pool.View(), slot, tree) && root == RootId(tree)
    }

    /** Enough for writing as well: page ids from the counter on are unused, and `height` bounds the way down. */
    ghost predicate Writable()
      reads this, pool, pool.disk, pool.wal
    {
      Readable() && Below(tree, pool.disk.nextPageId) && ANCHOR < pool.disk.nextPageId && Fits(tree, height)
    }

    /** Between operations, with every split finished. */
    ghost predicate Valid()
      reads this, pool, pool.disk, pool.wal
    {
      Readable() && Settled(pool.View(), slot, tree, height, pool.disk.nextPageId)
    }

    lemma ValidWritable()
      requires Valid()
      ensures Writable()
    {
      BalancedFits(tree, height, 1);
    }

    /** The ordered map this tree stands for. */
    ghost function Entries(): map<Key, Bytes>
      reads this
    {
      ToMap(Contents(tree))
    }

    /** Between page accesses everything a reader sees is also what recovery would see. */
    ghost predicate Synced()
      reads pool, pool.disk, pool.wal
    {
      pool.Valid() && pool.View() == pool.Durable()
    }

    ghost predicate Live(guard: Guard)
      requires pool.Valid()
      reads pool, pool.disk, pool.wal
    {
      guard.pageId in pool.Pins() && pool.Pins()[guard.pageId].frame == guard.frame
    }

    /** Split an overfull leaf.  The new right page is released, and so logged, before this returns. */
    method SplitLeafIfNeeded(guard: Guard, ghost cells: seq<Cell>, ghost next: PageId) returns (split: Option<SplitResult>)
      requires pool.Valid() && Live(guard) && guard.pageId in pool.View() && pool.View()[guard.pageId] == LeafPage(cells, next)
      requires |pool.Pins()| < |pool.frames|
      modifies pool, pool.disk, pool.wal
      ensures pool.Valid() && pool.Pins() == old(pool.Pins()) && |pool.frames| == old(|pool.frames|)
      ensures var out := LeafOutcome(guard.pageId, cells, old(pool.disk.nextPageId), next);
              && split == SplitOf(out) && pool.disk.nextPageId == out.next
              && pool.View() == Apply(old(pool.View()), out.writes)
              && pool.Durable() == Apply(old(pool.Durable()), out.writes[..|out.writes| - 1])
              && Extends(old(pool.Log()), pool.Log(), out.writes[..|out.writes| - 1])
    {
      hide BufferPool.Valid, BufferPool.View, BufferPool.Pins, BufferPool.Log, BufferPool.State, Apply, Extends,
           PoolModel.NewPage, PoolModel.Write, PoolModel.Release, PoolModel.FetchPage, PoolModel.FindVictimFrame;
      ghost var out := LeafOutcome(guard.pageId, cells, pool.disk.nextPageId, next);
      ghost var v0, d0, log0, pins0 := pool.View(), pool.Durable(), pool.Log(), pool.Pins();
      var page := pool.Read(guard);
      var num := |page.cells|;
      if num <= LEAF_MAX_KEYS {
        assert out.writes[..0] == [];
        ApplyEmpty(d0);
        ApplyOne(v0, out.writes[0]);
        assert v0[guard.pageId := LeafPage(cells, next)] == v0;
        ExtendsNothing(log0);
        return None;
      }
      var ok, right := pool.NewPage();
      assert ok;
      var splitPoint := num / 2;
      pool.WritePage(right, LeafPage(page.cells[splitPoint..], page.next));
      pool.WritePage(guard, LeafPage(page.cells[..splitPoint], right.pageId));
      DropAdded(pins0, right.pageId, right.frame);
      pool.Release(right);
      assert out.writes[..1] == [out.writes[0]];
      ApplyTwo(v0, out.writes[0], out.writes[1]);
      ApplyOne(d0, out.writes[0]);
      ExtendsRelease(log0, pool.Log(), out.writes[0]);
      return Some(SplitResult(page.cells[splitPoint].key, right.pageId));
    }

    /** Split an overfull internal node; its middle key moves up.  The right page is logged before this returns. */
    method SplitInternalIfNeeded(guard: Guard, ghost keys: seq<Key>, ghost kids: seq<Tree>) returns (split: Option<SplitResult>)
      requires |kids| == |keys| + 1
      requires pool.Valid() && Live(guard) && guard.pageId in pool.View() && pool.View()[guard.pageId] == NodePage(keys, kids)
      requires |pool.Pins()| < |pool.frames|
      modifies pool, pool.disk, pool.wal
      ensures pool.Valid() && pool.Pins() == old(pool.Pins()) && |pool.frames| == old(|pool.frames|)
      ensures var out := NodeOutcome(guard.pageId, keys, kids, old(pool.disk.nextPageId));
              && split == SplitOf(out) && pool.disk.nextPageId == out.next
              && pool.View() == Apply(old(pool.View()), out.writes)
              && pool.Durable() == Apply(old(pool.Durable()), out.writes[..|out.writes| - 1])
              && Extends(old(pool.Log()), pool.Log(), out.writes[..|out.writes| - 1])
    {
      hide BufferPool.Valid, BufferPool.View, BufferPool.Pins, BufferPool.Log, BufferPool.State, Apply, Extends,
           PoolModel.NewPage, PoolModel.Write, PoolModel.Release, PoolModel.FetchPage, PoolModel.FindVictimFrame;
      ghost var out := NodeOutcome(guard.pageId, keys, kids, pool.disk.nextPageId);
      ghost var v0, d0, log0, pins0 := pool.View(), pool.Durable(), pool.Log(), pool.Pins();
      var page := pool.Read(guard);
      var num := |page.seps|;
      if num <= INTERNAL_MAX_KEYS {
        assert out.writes[..0] == [];
        ApplyEmpty(d0);
        ApplyOne(v0, out.writes[0]);
        assert v0[guard.pageId := NodePage(keys, kids)] == v0;
        ExtendsNothing(log0);
        return None;
      }
      var ok, right := pool.NewPage();
      assert ok;
      var splitPoint := num / 2;
      SepsHalves(keys, kids, splitPoint);
      pool.WritePage(right, InternalPage(page.seps[splitPoint].child, page.seps[splitPoint + 1..]));
      pool.WritePage(guard, InternalPage(page.leftmost, page.seps[..splitPoint]));
      DropAdded(pins0, right.pageId, right.frame);
      pool.Release(right);
      assert out.writes[..1] == [out.writes[0]];
      ApplyTwo(v0, out.writes[0], out.writes[1]);
      ApplyOne(d0, out.writes[0]);
      ExtendsRelease(log0, pool.Log(), out.writes[0]);
      return Some(SplitResult(page.seps[splitPoint].key, right.pageId));
    }

    /** Release a changed page: it is the last image of an outcome. */
    method Finish(guard: Guard, ghost v0: Store, ghost log0: seq<Image>, ghost writes: seq<Image>)
      requires writes != [] && writes[|writes| - 1].id == guard.pageId
      requires pool.Valid() && Live(guard)
      requires v0 == Apply(map[], log0)
      requires pool.View() == Apply(v0, writes)
      requires Extends(log0, pool.Log(), writes[..|writes| - 1])
      modifies pool, pool.wal
      ensures pool.Valid() && pool.Pins() == DropPin(old(pool.Pins()), guard.pageId) && |pool.frames| == old(|pool.frames|)
      ensures pool.View() == pool.Durable() == Apply(v0, writes)
      ensures Extends(log0, pool.Log(), writes)
    {
      hide BufferPool.Valid, BufferPool.View, BufferPool.Pins, BufferPool.Log, BufferPool.State, Extends,
           PoolModel.Release;
      var n := |writes| - 1;
      ghost var log1 := pool.Log();
      ExtendsDurable(log0, log1, writes[..n]);
      assert writes == writes[..n] + [writes[n]];
      assert pool.View()[guard.pageId] == writes[n].page;
      pool.Release(guard);
      ExtendsRelease(log1, pool.Log(), writes[n]);
      ExtendsAppend(log0, log1, pool.Log(), writes[..n], [writes[n]]);
    }

    /** The leaf case of an insert. */
    method InsertIntoLeaf(guard: Guard, key: Key, value: Bytes, ghost t: Tree, ghost next: PageId) returns (split: Option<SplitResult>)
      requires pool.Valid() && Live(guard) && pool.View() == pool.Durable()
      requires t.Leaf? && guard.pageId == t.id && Rep(pool.View(), t, next) && |t.cells| <= LEAF_MAX_KEYS
      requires |pool.Pins()| < |pool.frames|
      modifies pool, pool.disk, pool.wal
      ensures pool.Valid() && pool.Pins() == DropPin(old(pool.Pins()), guard.pageId) && |pool.frames| == old(|pool.frames|)
      ensures var out := LeafOutcome(t.id, Put(t.cells, key, value), old(pool.disk.nextPageId), next);
              && split == SplitOf(out) && pool.disk.nextPageId == out.next
              && pool.View() == pool.Durable() == Apply(old(pool.View()), out.writes)
              && Extends(old(pool.Log()), pool.Log(), out.writes)
    {
      hide BufferPool.Valid, BufferPool.View, BufferPool.Pins, BufferPool.Log, BufferPool.State, Apply, Extends,
           PoolModel.NewPage, PoolModel.Write, PoolModel.Release, PoolModel.FetchPage, PoolModel.FindVictimFrame, Put, LeafOutcome;
      ghost var v0, log0 := pool.View(), pool.Log();
      var page := pool.Read(guard);
      var cells, found := PutCell(page.cells, key, value);
      ghost var out := LeafOutcome(t.id, cells, pool.disk.nextPageId, next);
      LeafWrites(t.id, cells, pool.disk.nextPageId, next);
      pool.WritePage(guard, LeafPage(cells, page.next));
      ApplyOverwrites(v0, t.id, LeafPage(cells, next), out.writes);
      split := None;
      if !found {
        split := SplitLeafIfNeeded(guard, cells, next);
      } else {
        LeafFits(t.id, cells, pool.disk.nextPageId, next, v0, log0);
      }
      Finish(guard, v0, log0, out.writes);
    }

    /** A child split: name its right part here, then split this node if it is now overfull. */
    method AbsorbSplit(guard: Guard, idx: nat, split: SplitResult, ghost t: Tree, ghost below: Outcome) returns (up: Option<SplitResult>)
      requires t.Node? && |t.kids| == |t.keys| + 1 && idx < |t.kids| && SplitsInHalf(below) && below.split.Some?
      requires guard.pageId == t.id && RootId(below.tree.left) == RootId(t.kids[idx]) && SplitOf(below) == Some(split)
      requires pool.Valid() && Live(guard) && pool.View() == pool.Durable()
      requires t.id in pool.View() && pool.View()[t.id] == NodePage(t.keys, t.kids)
      requires |pool.Pins()| < |pool.frames|
      modifies pool, pool.disk, pool.wal
      ensures pool.Valid() && pool.Pins() == DropPin(old(pool.Pins()), guard.pageId) && |pool.frames| == old(|pool.frames|)
      ensures var out := NodeOutcome(t.id, KeysWith(t.keys, idx, below.split.value),
                                     KidsWith(t.kids, idx, below.tree.left, below.tree.right), old(pool.disk.nextPageId));
              && up == SplitOf(out) && pool.disk.nextPageId == out.next
              && pool.View() == pool.Durable() == Apply(old(pool.View()), out.writes)
              && Extends(old(pool.Log()), pool.Log(), out.writes)
    {
      hide BufferPool.Valid, BufferPool.View, BufferPool.Pins, BufferPool.Log, BufferPool.State, Apply, Extends,
           PoolModel.NewPage, PoolModel.Write, PoolModel.Release, PoolModel.FetchPage, PoolModel.FindVictimFrame, NodeOutcome, KeysWith, KidsWith;
      ghost var v0, log0 := pool.View(), pool.Log();
      ghost var keys, kids := KeysWith(t.keys, idx, split.promotedKey), KidsWith(t.kids, idx, below.tree.left, below.tree.right);
      WithLengths(t.keys, t.kids, idx, split.promotedKey, below.tree);
      ghost var out := NodeOutcome(t.id, keys, kids, pool.disk.nextPageId);
      var page := pool.Read(guard);
      SepsWith(t.keys, t.kids, idx, below.tree.left, split.promotedKey, below.tree.right);
      var seps := page.seps[..idx] + [Sep(split.promotedKey, split.newRightPageId)] + page.seps[idx..];
      pool.WritePage(guard, InternalPage(page.leftmost, seps));
      NodeWrites(t.id, keys, kids, pool.disk.nextPageId);
      ApplyOverwrites(v0, t.id, NodePage(keys, kids), out.writes);
      up := SplitInternalIfNeeded(guard, keys, kids);
      Finish(guard, v0, log0, out.writes);
    }

    /** Insert below `node`.  The node stays pinned while its child is worked on, so its frame cannot be taken;
        as many frames as there are levels, plus one, are enough. */
    method InsertRecursive(node: PageId, key: Key, value: Bytes, ghost t: Tree, ghost h: nat, ghost next: PageId)
      returns (split: Option<SplitResult>)
      requires pool.Valid() && pool.View() == pool.Durable()
      requires RootId(t) == node && Rep(pool.View(), t, next) && Distinct(t) && Fits(t, h)
      requires Below(t, pool.disk.nextPageId) && Ids(t) !! pool.Pins().Keys
      requires |pool.Pins()| + h + 2 <= |pool.frames|
      modifies pool, pool.disk, pool.wal
      ensures pool.Valid() && pool.Pins() == old(pool.Pins()) && |pool.frames| == old(|pool.frames|)
      ensures var out := InsertInto(t, key, value, old(pool.disk.nextPageId), next);
              && split == SplitOf(out) && pool.disk.nextPageId == out.next
              && pool.View() == pool.Durable() == Apply(old(pool.View()), out.writes)
              && Extends(old(pool.Log()), pool.Log(), out.writes)
      decreases t, 1
    {
      hide BufferPool.Valid, BufferPool.View, BufferPool.Pins, BufferPool.Log, BufferPool.State, Apply, Extends,
           PoolModel.NewPage, PoolModel.Write, PoolModel.Release, PoolModel.FetchPage, PoolModel.FindVictimFrame, NodeOutcome, KeysWith, KidsWith, LeafOutcome, Put, Fits, Distinct, NodePage,
           InsertInto, Rep, Ids, RootId, Seps, NextOf, Below, AddPin, DropPin;
      ghost var v0, log0, pins0, free := pool.View(), pool.Log(), pool.Pins(), pool.disk.nextPageId;
      ghost var e, nxt := InsertEntry(v0, t, h, next, key, value, free);
      RepIds(v0, e, nxt);
      RootIsId(e);
      IdsBelow(e, free);
      var ok, guard := pool.FetchPage(node);
      assert ok;
      PinOne(pins0, node, guard.frame);
      var page := pool.Read(guard);
      if page.LeafPage? {
        LeafCase(v0, e, h, nxt, key, value, free);
        split := InsertIntoLeaf(guard, key, value, e, nxt);
        return;
      }
      NodeCase(v0, e, h, nxt);
      split := InsertIntoNode(guard, page, key, value, e, h, nxt);
    }

    /** The internal case of an insert; the node is already pinned. */
    method InsertIntoNode(guard: Guard, page: Page, key: Key, value: Bytes, ghost t: Tree, ghost h: nat, ghost next: PageId)
      returns (split: Option<SplitResult>)
      requires pool.Valid() && pool.View() == pool.Durable() && Live(guard)
      requires t.Node? && |t.kids| == |t.keys| + 1 && t.id == guard.pageId && page == InternalPage(RootId(t.kids[0]), Seps(t.keys, t.kids))
      requires Rep(pool.View(), t, next) && Distinct(t) && Fits(t, h)
      requires t.id < pool.disk.nextPageId && Below(t, pool.disk.nextPageId) && Ids(t) !! pool.Pins().Keys - {t.id}
      requires |pool.Pins()| + h + 1 <= |pool.frames|
      modifies pool, pool.disk, pool.wal
      ensures pool.Valid() && pool.Pins() == DropPin(old(pool.Pins()), t.id) && |pool.frames| == old(|pool.frames|)
      ensures var out := InsertInto(t, key, value, old(pool.disk.nextPageId), next);
              && split == SplitOf(out) && pool.disk.nextPageId == out.next
              && pool.View() == pool.Durable() == Apply(old(pool.View()), out.writes)
              && Extends(old(pool.Log()), pool.Log(), out.writes)
      decreases t, 0
    {
      hide BufferPool.Valid, BufferPool.View, BufferPool.Pins, BufferPool.Log, BufferPool.State, Apply, Extends,
           PoolModel.Release, NodeOutcome, KeysWith, KidsWith, Fits, Distinct, NodePage,
           InsertInto, Rep, Ids, RootId, Seps, NextOf, Below, DropPin;
      ghost var v0, log0, free := pool.View(), pool.Log(), pool.disk.nextPageId;
      var idx := FindChild(page.seps, key);
      var child := if idx == 0 then page.leftmost else page.seps[idx - 1].child;
      ChildOnPage(t.keys, t.kids, key, idx);
      KidReady(v0, t, h, next, free, idx);
      ghost var nxt := NextOf(t.kids, idx, next);
      OwnPageKept(v0, t, idx, key, value, free, nxt);
      InsertNodeIs(t, key, value, free, next);
      var sub := InsertRecursive(child, key, value, t.kids[idx], h - 1, nxt);
      ghost var below := InsertInto(t.kids[idx], key, value, free, nxt);
      ghost var log1 := pool.Log();
      if sub.None? {
        pool.Release(guard);
        ExtendsRelease(log1, pool.Log(), Image(t.id, NodePage(t.keys, t.kids)));
        ExtendsAppend(log0, log1, pool.Log(), below.writes, []);
        assert below.writes + [] == below.writes;
        return None;
      }
      WithLengths(t.keys, t.kids, idx, sub.value.promotedKey, below.tree);
      split := AbsorbSplit(guard, idx, sub.value, t, below);
      ghost var own := NodeOutcome(t.id, KeysWith(t.keys, idx, below.split.value),
                                   KidsWith(t.kids, idx, below.tree.left, below.tree.right), below.next);
      ApplyAppend(v0, below.writes, own.writes);
      ExtendsAppend(log0, log1, pool.Log(), below.writes, own.writes);
    }

    /** Record the root page id, in the metadata page or through the catalog's callback. */
    method RecordRoot(newRoot: PageId)
      requires Synced() && pool.Pins() == map[] && |pool.frames| > 0
      requires ANCHOR in pool.View() && AnchorOk(pool.View()[ANCHOR], slot)
      modifies pool, pool.disk, pool.wal
      ensures Synced() && pool.Pins() == map[] && |pool.frames| == old(|pool.frames|)
      ensures pool.disk.nextPageId == old(pool.disk.nextPageId)
      ensures pool.View() == old(pool.View())[ANCHOR := SetRoot(old(pool.View())[ANCHOR], slot, newRoot)]
      ensures Extends(old(pool.Log()), pool.Log(), [Image(ANCHOR, SetRoot(old(pool.View())[ANCHOR], slot, newRoot))])
    {
      hide BufferPool.Valid, BufferPool.View, BufferPool.Pins, BufferPool.Log, BufferPool.State, Apply, Extends,
           PoolModel.NewPage, PoolModel.Write, PoolModel.Release, PoolModel.FetchPage, PoolModel.FindVictimFrame, AddPin, DropPin, SetRoot;
      ghost var log0 := pool.Log();
      var ok, guard := pool.FetchPage(ANCHOR);
      assert ok;
      PinOne(map[], ANCHOR, guard.frame);
      var page := pool.Read(guard);
      pool.WritePage(guard, SetRoot(page, slot, newRoot));
      pool.Release(guard);
      ExtendsRelease(log0, pool.Log(), Image(ANCHOR, SetRoot(page, slot, newRoot)));
    }

    /** The root split: write a new root over both parts, then record it. */
    method GrowRoot(split: SplitResult, ghost below: Outcome)
      requires Synced() && pool.Pins() == map[] && |pool.frames| > 0
      requires SplitsInHalf(below) && SplitOf(below) == Some(split) && root == RootId(below.tree.left)
      requires ANCHOR in pool.View() && AnchorOk(pool.View()[ANCHOR], slot)
      modifies this, pool, pool.disk, pool.wal
      ensures Synced() && pool.Pins() == map[] && |pool.frames| == old(|pool.frames|)
      ensures pool.disk.nextPageId == old(pool.disk.nextPageId) + 1
      ensures root == old(pool.disk.nextPageId) && tree == old(tree) && height == old(height)
      ensures var writes := [Image(root, NodePage([split.promotedKey], [below.tree.left, below.tree.right])),
                             Image(ANCHOR, SetRoot(old(pool.View())[ANCHOR], slot, root))];
              pool.View() == Apply(old(pool.View()), writes) && Extends(old(pool.Log()), pool.Log(), writes)
    {
      hide BufferPool.Valid, BufferPool.View, BufferPool.Pins, BufferPool.Log, BufferPool.State, Apply, Extends,
           PoolModel.NewPage, PoolModel.Write, PoolModel.Release, PoolModel.FetchPage, PoolModel.FindVictimFrame, AddPin, DropPin, SetRoot, NodePage, Seps;
      ghost var v0, log0 := pool.View(), pool.Log();
      var ok, guard := pool.NewPage();
      assert ok;
      PinOne(map[], guard.pageId, guard.frame);
      RootPage(split.promotedKey, below.tree);
      pool.WritePage(guard, InternalPage(root, [Sep(split.promotedKey, split.newRightPageId)]));
      ghost var log1 := pool.Log();
      pool.Release(guard);
      ghost var top := Image(guard.pageId, NodePage([split.promotedKey], [below.tree.left, below.tree.right]));
      ExtendsRelease(log1, pool.Log(), top);
      ghost var log2 := pool.Log();
      root := guard.pageId;
      RecordRoot(root);
      ghost var anchor := Image(ANCHOR, SetRoot(v0[ANCHOR], slot, root));
      ExtendsAppend(log0, log2, pool.Log(), [top], [anchor]);
      assert [top] + [anchor] == [top, anchor];
      ApplyTwo(v0, top, anchor);
    }

    /** Insert a value, or overwrite the one already stored under the key.  At any crash point in between, recovery
        sees the map from before or from after.  On a tree recovered in the middle of a split this holds exactly for the
        keys that `Passed` does not rule out. */
    method Insert(key: Key, value: Bytes) returns (ok: bool)
      requires Writable()
      requires height + 2 <= |pool.frames| && pool.disk.nextPageId + height + 2 <= INVALID_PAGE_ID
      modifies this, pool, pool.disk, pool.wal
      ensures Synced() && pool.Pins() == map[] && |pool.frames| == old(|pool.frames|) && height <= old(height) + 1
      ensures ok <==> |value| <= VALUE_SIZE
      ensures !ok ==>
                && pool.State() == old(pool.State()) && tree == old(tree) && root == old(root) && height == old(height)
                && pool.View() == old(pool.View()) && pool.Log() == old(pool.Log()) && pool.disk.nextPageId == old(pool.disk.nextPageId)
      ensures ok ==>
                var out := InsertTop(old(tree), key, value, old(pool.disk.nextPageId), slot, old(pool.View()[ANCHOR]));
                && tree == TreeAfter(old(tree), key, value, old(pool.disk.nextPageId), slot, old(pool.View()[ANCHOR]))
                && height == HeightAfter(old(tree), old(height), key, value, old(pool.disk.nextPageId))
                && pool.disk.nextPageId == out.next && pool.View() == Apply(old(pool.View()), out.writes)
                && Extends(old(pool.Log()), pool.Log(), out.writes)
      ensures old(ClosedLog(pool.Log())) ==> ClosedLog(pool.Log())
      ensures ok ==> (HoldsMap(pool.View(), slot, old(Entries())[key := value]) <==> !Passed(old(tree), key))
      ensures ok && !Passed(old(tree), key) ==> Writable() && Entries() == old(Entries())[key := value]
      ensures ok && !Passed(old(tree), key) ==>
                forall n :: old(|pool.Log()|) <= n <= |pool.Log()| ==>
                              || HoldsMap(Apply(map[], pool.Log()[..n]), slot, old(Entries()))
                              || HoldsMap(Apply(map[], pool.Log()[..n]), slot, Entries())
      ensures old(Valid()) ==> Valid() && Open(old(tree), key) && !Passed(old(tree), key)
    {
      hide BufferPool.Valid, BufferPool.View, BufferPool.Pins, BufferPool.Log, BufferPool.State, Apply, Extends,
           PoolModel.NewPage, PoolModel.Write, PoolModel.Release, PoolModel.FetchPage, PoolModel.FindVictimFrame,
           Rep, Ordered, RootId, Distinct, Ids, Balanced, Fits, Open, Passed, Contents, ToMap, InsertInto, TreeAfter, HoldsMap, NodePage, SetRoot,
           ClosedLog;
      ghost var v0, log0, t0, h0, free := pool.View(), pool.Log(), tree, height, pool.disk.nextPageId;
      if Valid() {
        SettledInsert(v0, slot, t0, h0, free, key, value);
      }
      if |value| > VALUE_SIZE {
        return false;
      }
      ghost var below := InsertInto(tree, key, value, free, INVALID_PAGE_ID);
      ghost var out := InsertTop(tree, key, value, free, slot, v0[ANCHOR]);
      InsertNextBound(tree, height, key, value, free, INVALID_PAGE_ID);
      AnchorKept(v0, slot, tree, free, key, value);
      TopRoot(tree, key, value, free, slot, v0[ANCHOR]);
      InsertLeaves(v0, slot, tree, height, free, key, value);
      InsertKeepsMap(v0, slot, tree, free, key, value);
      var split := InsertRecursive(root, key, value, tree, height, INVALID_PAGE_ID);
      ghost var log1 := pool.Log();
      tree, height := TreeAfter(t0, key, value, free, slot, v0[ANCHOR]), HeightAfter(t0, h0, key, value, free);
      if split.Some? {
        GrowRoot(split.value, below);
        ghost var last := out.writes[|below.writes|..];
        assert out.writes == below.writes + last;
        ApplyAppend(v0, below.writes, last);
        ExtendsAppend(log0, log1, pool.Log(), below.writes, last);
      }
      if ClosedLog(log0) {
        InsertLogClosed(log0, pool.Log(), v0, slot, t0, free, key, value);
      }
      if !Passed(t0, key) {
        forall n | |log0| <= n <= |pool.Log()|
          ensures HoldsMap(Apply(map[], pool.Log()[..n]), slot, ToMap(Contents(t0)))
               || HoldsMap(Apply(map[], pool.Log()[..n]), slot, ToMap(Contents(t0))[key := value])
        {
          CrashPoints(log0, pool.Log(), out.writes, n);
          InsertKeepsCrash(v0, slot, t0, free, key, value, Apply(map[], pool.Log()[..n]));
        }
      }
      return true;
    }

    // ---------- reading ----------

    /** Fetch and drop one page without changing it; a page still marked dirty may be logged once more. */
    method ReadOnce(id: PageId) returns (page: Page)
      requires Synced() && id in pool.View() && pool.Pins() == map[] && |pool.frames| > 0
      modifies pool, pool.disk, pool.wal
      ensures Synced() && pool.View() == old(pool.View()) && pool.Pins() == map[] && |pool.frames| == old(|pool.frames|)
      ensures pool.disk.nextPageId == old(pool.disk.nextPageId)
      ensures Extends(old(pool.Log()), pool.Log(), []) && page == pool.View()[id]
    {
      hide BufferPool.Valid, BufferPool.View, BufferPool.Pins, BufferPool.Log, BufferPool.State, Apply, Extends,
           PoolModel.NewPage, PoolModel.Write, PoolModel.Release, PoolModel.FetchPage, PoolModel.FindVictimFrame, AddPin, DropPin;
      ghost var log0 := pool.Log();
      var ok, guard := pool.FetchPage(id);
      assert ok;
      PinOne(map[], id, guard.frame);
      page := pool.Read(guard);
      pool.Release(guard);
      ExtendsRelease(log0, pool.Log(), Image(id, page));
    }

    /** Walk from the root to the leaf a key belongs to. */
    method FindLeafPageId(key: Key, ghost t: Tree, ghost next: PageId, ghost lo: int, ghost hi: int) returns (cur: PageId)
      requires Synced() && pool.Pins() == map[] && |pool.frames| > 0
      requires root == RootId(t) && Rep(pool.View(), t, next) && Ordered(t, lo, hi)
      modifies pool, pool.disk, pool.wal
      ensures Synced() && pool.View() == old(pool.View()) && pool.Pins() == map[] && |pool.frames| == old(|pool.frames|)
      ensures pool.disk.nextPageId == old(pool.disk.nextPageId)
      ensures Extends(old(pool.Log()), pool.Log(), [])
      ensures Descend(t, key).Leaf? && cur == Descend(t, key).id && cur in pool.View()
      ensures pool.View()[cur].LeafPage? && pool.View()[cur].cells == Descend(t, key).cells
    {
      hide BufferPool.Valid, BufferPool.View, BufferPool.Pins, BufferPool.Log, BufferPool.State, Apply, Extends,
           PoolModel.NewPage, PoolModel.Write, PoolModel.Release, PoolModel.FetchPage, PoolModel.FindVictimFrame,
           Rep, Ordered, Descend, RootId, Seps, NextOf, Lo, Hi;
      ghost var v0, log0 := pool.View(), pool.Log();
      cur := root;
      ghost var sub, nxt, l, r := t, next, lo, hi;
      ExtendsNothing(log0);
      while true
        invariant Synced() && pool.View() == v0 && pool.Pins() == map[] && |pool.frames| == old(|pool.frames|)
        invariant pool.disk.nextPageId == old(pool.disk.nextPageId)
        invariant Extends(log0, pool.Log(), [])
        invariant cur == RootId(sub) && Rep(v0, sub, nxt) && Ordered(sub, l, r)
        invariant Descend(sub, key) == Descend(t, key)
        decreases sub
      {
        sub, nxt, l, r := Entry(v0, sub, nxt, l, r, key);
        ghost var log1 := pool.Log();
        var page := ReadOnce(cur);
        ExtendsQuietly(log0, log1, pool.Log(), []);
        if page.LeafPage? {
          return;
        }
        var idx := FindChild(page.seps, key);
        ChildOnPage(sub.keys, sub.kids, key, idx);
        StepDown(v0, sub, nxt, l, r, key, idx);
        cur := if idx == 0 then page.leftmost else page.seps[idx - 1].child;
        nxt, l, r := NextOf(sub.kids, idx, nxt), Lo(sub.keys, idx, l), Hi(sub.keys, idx, r);
        sub := sub.kids[idx];
      }
    }

    /** The value stored under a key, if any. */
    method Get(key: Key) returns (found: Option<Bytes>)
      requires Readable()
      modifies pool, pool.disk, pool.wal
      ensures Readable() && pool.View() == old(pool.View()) && Extends(old(pool.Log()), pool.Log(), [])
      ensures old(Valid()) ==> Valid() && found == MapLookup(Entries(), key)
      ensures old(ClosedLog(pool.Log())) ==> ClosedLog(pool.Log())
      ensures found.Some? <==> HasKey(Contents(tree), key) && !HasKey(Hidden(tree), key)
      ensures found.Some? ==> found == MapLookup(Entries(), key)
    {
      hide BufferPool.Valid, BufferPool.View, BufferPool.Pins, BufferPool.Log, BufferPool.State, Apply, Extends,
           PoolModel.NewPage, PoolModel.Write, PoolModel.Release, PoolModel.FetchPage, PoolModel.FindVictimFrame,
           Rep, Ordered, Descend, RootId, Distinct, Ids, Balanced, Hidden, Contents, Lookup, ToMap, ClosedLog;
      ghost var log0 := pool.Log();
      if ClosedLog(log0) {
        ReadsClosed(log0);
      }
      var leaf := FindLeafPageId(key, tree, INVALID_PAGE_ID, KEY_MIN, KEY_MAX + 1);
      ghost var log1 := pool.Log();
      var page := ReadOnce(leaf);
      ExtendsQuietly(log0, log1, pool.Log(), []);
      found := FindCell(page.cells, key);
      DescendFinds(tree, key, KEY_MIN, KEY_MAX + 1);
      DescendHolds(tree, key);
      LookupKey(page.cells, key);
      if old(Valid()) {
        DescendExact(tree, height, 1, key, KEY_MIN, KEY_MAX + 1);
        OrderedContents(tree, KEY_MIN, KEY_MAX + 1);
        LookupMap(Contents(tree), key);
      }
    }

    /** Every entry with low <= key <= high, in key order: descend once, then follow the leaf chain. */
    method RangeScan(low: Key, high: Key) returns (results: seq<Cell>)
      requires Readable()
      modifies pool, pool.disk, pool.wal
      ensures Readable() && pool.View() == old(pool.View()) && Extends(old(pool.Log()), pool.Log(), [])
      ensures old(Valid()) ==> Valid()
      ensures |pool.frames| == old(|pool.frames|) && pool.disk.nextPageId == old(pool.disk.nextPageId)
      ensures old(ClosedLog(pool.Log())) ==> ClosedLog(pool.Log())
      ensures results == if low > high then [] else InRange(Contents(tree), low, high)
      ensures IsRange(results, Entries(), low, high)
    {
      hide BufferPool.Valid, BufferPool.View, BufferPool.Pins, BufferPool.Log, BufferPool.State, Apply, Extends,
           PoolModel.NewPage, PoolModel.Write, PoolModel.Release, PoolModel.FetchPage, PoolModel.FindVictimFrame,
           Rep, Ordered, Descend, RootId, Distinct, Ids, Balanced, Contents, ContentsAll, ToMap, Leaves, Chain, InRange, ClosedLog;
      ghost var v0, log0, leaves := pool.View(), pool.Log(), Leaves(tree);
      if ClosedLog(log0) {
        ReadsClosed(log0);
      }
      OrderedContents(tree, KEY_MIN, KEY_MAX + 1);
      InRangeMap(Contents(tree), low, high);
      results := [];
      if low > high {
        EmptyRange(Contents(tree), low, high);
        ExtendsNothing(log0);
        return;
      }
      var leafId := FindLeafPageId(low, tree, INVALID_PAGE_ID, KEY_MIN, KEY_MAX + 1);
      ghost var j := ScanStart(v0, tree, low, high);
      while leafId != INVALID_PAGE_ID
        invariant Synced() && pool.View() == v0 && pool.Pins() == map[] && |pool.frames| == old(|pool.frames|)
        invariant pool.disk.nextPageId == old(pool.disk.nextPageId)
        invariant Extends(log0, pool.Log(), [])
        invariant j <= |leaves| && leafId == ChainId(leaves, j)
        invariant results == InRange(ContentsAll(leaves[..j]), low, high)
        decreases |leaves| - j
      {
        ghost var log1 := pool.Log();
        ScanStep(v0, tree, low, high, j);
        var page := ReadOnce(leafId);
        ExtendsQuietly(log0, log1, pool.Log(), []);
        var rows, pastHigh := ScanLeaf(page.cells, low, high);
        results := results + rows;
        j := j + 1;
        if pastHigh {
          ScanStop(v0, tree, low, high, j);
          return;
        }
        leafId := page.next;
      }
      ScanEnd(v0, tree, low, high, j);
    }

    /** Remove a key; tells whether descent found it, which it does unless a half-done split hides it.  Nodes are never
        merged. */
    method Delete(key: Key) returns (removed: bool)
      requires Readable()
      modifies this, pool, pool.disk, pool.wal
      ensures Readable() && root == old(root) && height == old(height) && |pool.frames| == old(|pool.frames|)
      ensures removed <==> key in old(Entries()) && !HasKey(Hidden(old(tree)), key)
      ensures Entries() == old(Entries()) - (if HasKey(Hidden(old(tree)), key) then {} else {key})
      ensures var out := DeleteFrom(old(tree), key, INVALID_PAGE_ID);
              && tree == out.tree && pool.disk.nextPageId == old(pool.disk.nextPageId)
              && pool.View() == Apply(old(pool.View()), out.writes) && Extends(old(pool.Log()), pool.Log(), out.writes)
      ensures old(ClosedLog(pool.Log())) ==> ClosedLog(pool.Log())
      ensures forall n :: old(|pool.Log()|) <= n <= |pool.Log()| ==>
                            || HoldsMap(Apply(map[], pool.Log()[..n]), slot, old(Entries()))
                            || HoldsMap(Apply(map[], pool.Log()[..n]), slot, Entries())
      ensures old(Writable()) ==> Writable()
      ensures old(Valid()) ==> Valid() && !HasKey(Hidden(old(tree)), key)
    {
      hide BufferPool.Valid, BufferPool.View, BufferPool.Pins, BufferPool.Log, BufferPool.State, Apply, Extends,
           PoolModel.NewPage, PoolModel.Write, PoolModel.Release, PoolModel.FetchPage, PoolModel.FindVictimFrame,
           Rep, Ordered, Descend, RootId, Distinct, Ids, Balanced, Fits, Hidden, Contents, Lookup, ToMap, DeleteFrom, Del, HoldsMap,
           AddPin, DropPin, ClosedLog, HasKey;
      ghost var v0, log0, t0, free := pool.View(), pool.Log(), tree, pool.disk.nextPageId;
      ghost var out := DeleteFrom(tree, key, INVALID_PAGE_ID);
      ghost var writable, valid := Writable(), Valid();
      var leaf := FindLeafPageId(key, tree, INVALID_PAGE_ID, KEY_MIN, KEY_MAX + 1);
      ghost var log1 := pool.Log();
      DeleteReady(v0, slot, tree, height, free, key);
      DeleteWrites(v0, tree, key, INVALID_PAGE_ID);
      DescendFinds(tree, key, KEY_MIN, KEY_MAX + 1);
      LookupKey(v0[leaf].cells, key);
      OrderedContents(tree, KEY_MIN, KEY_MAX + 1);
      LookupMap(Contents(tree), key);
      LookupKey(Contents(tree), key);
      removed := RemoveFromLeaf(leaf, key, v0[leaf].cells, v0[leaf].next, out.writes);
      ExtendsQuietly(log0, log1, pool.Log(), out.writes);
      tree := out.tree;
      if ClosedLog(log0) {
        DeleteLogClosed(log0, pool.Log(), v0, slot, t0, key);
      }
      forall n | |log0| <= n <= |pool.Log()|
        ensures HoldsMap(Apply(map[], pool.Log()[..n]), slot, ToMap(Contents(t0)))
             || HoldsMap(Apply(map[], pool.Log()[..n]), slot, Entries())
      {
        CrashPoints(log0, pool.Log(), out.writes, n);
        DeleteCrash(v0, slot, t0, INVALID_PAGE_ID, key, Apply(map[], pool.Log()[..n]));
      }
    }

    /** Rewrite one leaf without the key, if it holds it. */
    method RemoveFromLeaf(leaf: PageId, key: Key, ghost cells: seq<Cell>, ghost next: PageId, ghost writes: seq<Image>) returns (removed: bool)
      requires Synced() && pool.Pins() == map[] && |pool.frames| > 0
      requires leaf in pool.View() && pool.View()[leaf] == LeafPage(cells, next)
      requires writes == if Lookup(cells, key).Some? then [Image(leaf, LeafPage(Del(cells, key), next))] else []
      modifies pool, pool.disk, pool.wal
      ensures Synced() && pool.Pins() == map[] && |pool.frames| == old(|pool.frames|)
      ensures pool.disk.nextPageId == old(pool.disk.nextPageId)
      ensures removed <==> Lookup(cells, key).Some?
      ensures pool.View() == Apply(old(pool.View()), writes) && Extends(old(pool.Log()), pool.Log(), writes)
    {
      hide BufferPool.Valid, BufferPool.View, BufferPool.Pins, BufferPool.Log, BufferPool.State, Apply, Extends,
           PoolModel.Write, PoolModel.Release, PoolModel.FetchPage, PoolModel.FindVictimFrame, Lookup, Del, AddPin, DropPin;
      ghost var v0, log0 := pool.View(), pool.Log();
      var ok, guard := pool.FetchPage(leaf);
      assert ok;
      PinOne(map[], leaf, guard.frame);
      var page := pool.Read(guard);
      var cells';
      cells', removed := RemoveCell(page.cells, key);
      if removed {
        pool.WritePage(guard, LeafPage(cells', page.next));
        ApplyOne(v0, writes[0]);
      } else {
        ApplyEmpty(v0);
      }
      pool.Release(guard);
      DelAbsent(cells, key);
      ExtendsRelease(log0, pool.Log(), Image(leaf, LeafPage(cells', page.next)));
    }
  }

  /** First use of an empty database: page 0 for metadata, page 1 for an empty root leaf.  The guards are dropped in
      reverse order, so the leaf is logged before the page that names it. */
  method CreateTree(pool: BufferPool) returns (b: BTree)
    requires pool.Valid() && pool.View() == pool.Durable() == map[] && pool.Pins() == map[] && pool.disk.nextPageId == 0
    requires |pool.frames| >= 2
    modifies pool, pool.disk, pool.wal
    ensures fresh(b) && b.pool == pool && b.slot == None && b.Valid()
    ensures b.Entries() == map[] && b.height == 0 && |pool.frames| == old(|pool.frames|) && pool.disk.nextPageId == 2
    ensures b.tree == Leaf(1, []) && pool.View() == map[1 := FIRST_LEAF.page, 0 := FIRST_META.page]
    ensures forall n :: old(|pool.Log()|) <= n <= |pool.Log()| && ANCHOR in Apply(map[], pool.Log()[..n]) ==>
                          HoldsMap(Apply(map[], pool.Log()[..n]), None, map[])
    ensures ClosedLog(pool.Log())
  {
    hide BufferPool.Valid, BufferPool.View, BufferPool.Pins, BufferPool.Log, BufferPool.State, Apply, Extends, HoldsMap, ClosedLog;
    ghost var log0 := pool.Log();
    WriteFirstPages(pool);
    FreshTree();
    FirstLogClosed(log0, pool.Log());
    b := new BTree(pool, None, 1, Leaf(1, []), 0);
    forall n | |log0| <= n <= |pool.Log()| && ANCHOR in Apply(map[], pool.Log()[..n])
      ensures HoldsMap(Apply(map[], pool.Log()[..n]), None, map[])
    {
      CrashPoints(log0, pool.Log(), [FIRST_LEAF, FIRST_META], n);
      FreshCrash(Apply(map[], pool.Log()[..n]));
    }
  }

  lemma EmptyLogClosed(log: seq<Image>)
    requires Apply(map[], log) == map[]
    ensures log == [] && ClosedLog(log)
  {
    ApplyKeys(map[], log);
    SomeWritten(log);
  }

  lemma SomeWritten(log: seq<Image>)
    ensures log == [] <==> Written(log) == {}
  {
    if log != [] {
      assert log[0] in log;
      assert log[0].id in Written(log);
    }
  }

  lemma ReadsClosed(log: seq<Image>)
    requires ClosedLog(log)
    ensures forall log' :: Extends(log, log', []) ==> ClosedLog(log')
  {
    hide Extends, ClosedLog;
    forall log' | Extends(log, log', [])
      ensures ClosedLog(log')
    {
      ClosedQuietly(log, log');
    }
  }

  lemma FirstLogClosed(log: seq<Image>, log': seq<Image>)
    requires Apply(map[], log) == map[] && Extends(log, log', [FIRST_LEAF, FIRST_META])
    ensures ClosedLog(log')
  {
    hide Apply, Extends, ClosedLog;
    EmptyLogClosed(log);
    var none: Store := map[];
    TwoInOrder(none.Keys, FIRST_LEAF, FIRST_META);
    ClosedGrows(log, log', [FIRST_LEAF, FIRST_META]);
  }

  lemma InsertLogClosed(log: seq<Image>, log': seq<Image>, s: Store, slot: Option<nat>, t: Tree, free: PageId, key: Key, value: Bytes)
    requires ClosedLog(log) && Apply(map[], log) == s && HoldsTree(s, slot, t)
    requires Extends(log, log', InsertTop(t, key, value, free, slot, s[ANCHOR]).writes)
    ensures ClosedLog(log')
  {
    hide Apply, Extends, InsertTop, ClosedLog, Closed, InOrder, Rep, Ordered, Distinct, Ids;
    ClosedNow(log);
    InsertTopInOrder(s, slot, t, free, key, value);
    ClosedGrows(log, log', InsertTop(t, key, value, free, slot, s[ANCHOR]).writes);
  }

  lemma DeleteLogClosed(log: seq<Image>, log': seq<Image>, s: Store, slot: Option<nat>, t: Tree, key: Key)
    requires ClosedLog(log) && Apply(map[], log) == s && HoldsTree(s, slot, t)
    requires Extends(log, log', DeleteFrom(t, key, INVALID_PAGE_ID).writes)
    ensures ClosedLog(log')
  {
    hide Apply, Extends, DeleteFrom, ClosedLog, Closed, InOrder, Ordered, Distinct, Ids;
    ClosedNow(log);
    DeleteInOrder(s, t, key, INVALID_PAGE_ID);
    ClosedGrows(log, log', DeleteFrom(t, key, INVALID_PAGE_ID).writes);
  }

  const FIRST_LEAF := Image(1, LeafPage([], INVALID_PAGE_ID))
  const FIRST_META := Image(0, MetaPage(1))

  method WriteFirstPages(pool: BufferPool)
    requires pool.Valid() && pool.View() == pool.Durable() == map[] && pool.Pins() == map[] && pool.disk.nextPageId == 0
    requires |pool.frames| >= 2
    modifies pool, pool.disk, pool.wal
    ensures pool.Valid() && pool.View() == pool.Durable() == map[1 := FIRST_LEAF.page, 0 := FIRST_META.page] && pool.Pins() == map[]
    ensures |pool.frames| == old(|pool.frames|) && pool.disk.nextPageId == 2
    ensures Extends(old(pool.Log()), pool.Log(), [FIRST_LEAF, FIRST_META])
  {
    hide BufferPool.Valid, BufferPool.View, BufferPool.Pins, BufferPool.Log, BufferPool.State, Apply, Extends, AddPin, DropPin,
         PoolModel.NewPage, PoolModel.Write, PoolModel.Release, PoolModel.FetchPage, PoolModel.FindVictimFrame;
    ghost var log0 := pool.Log();
    var ok, meta := pool.NewPage();
    assert ok;
    PinOne(map[], 0, meta.frame);
    ghost var pins1 := pool.Pins();
    var ok', leaf := pool.NewPage();
    assert ok';
    PinOne(pins1, 1, leaf.frame);
    pool.WritePage(leaf, LeafPage([], INVALID_PAGE_ID));
    pool.WritePage(meta, MetaPage(leaf.pageId));
    pool.Release(leaf);
    ghost var log1 := pool.Log();
    ExtendsRelease(log0, log1, FIRST_LEAF);
    pool.Release(meta);
    ExtendsRelease(log1, pool.Log(), FIRST_META);
    ExtendsAppend(log0, log1, pool.Log(), [FIRST_LEAF], [FIRST_META]);
    assert [FIRST_LEAF] + [FIRST_META] == [FIRST_LEAF, FIRST_META];
  }

  lemma FreshTree()
    ensures var s := map[1 := LeafPage([], INVALID_PAGE_ID), 0 := MetaPage(1)];
            Settled(s, None, Leaf(1, []), 0, 2) && ToMap(Contents(Leaf(1, []))) == map[]
  {
  }

  lemma FreshCrash(now: Store)
    requires Visits(map[], [FIRST_LEAF, FIRST_META], now) && ANCHOR in now
    ensures HoldsMap(now, None, map[])
  {
    var w := [FIRST_LEAF, FIRST_META];
    var none: Store := map[];
    var k :| 0 <= k <= 2 && now == Apply(none, w[..k]);
    ApplyOne(none, w[0]);
    ApplyTwo(none, w[0], w[1]);
    assert w[..0] == [] && w[..1] == [w[0]] && w[..2] == w;
    FreshTree();
    assert HoldsTree(now, None, Leaf(1, []));
  }

  /** Open an existing database: read the recorded root. */
  method OpenTree(pool: BufferPool, slot: Option<nat>, ghost t: Tree, ghost h: nat) returns (b: BTree)
    requires pool.Valid() && pool.View() == pool.Durable() && pool.Pins() == map[] && |pool.frames| > 0
    requires HoldsTree(pool.View(), slot, t)
    modifies pool, pool.disk, pool.wal
    ensures fresh(b) && b.pool == pool && b.slot == slot && b.tree == t && b.height == h && b.Readable()
    ensures pool.View() == old(pool.View()) && Extends(old(pool.Log()), pool.Log(), [])
    ensures pool.disk.nextPageId == old(pool.disk.nextPageId) && |pool.frames| == old(|pool.frames|)
    ensures old(ClosedLog(pool.Log())) ==> ClosedLog(pool.Log())
    ensures Below(t, pool.disk.nextPageId) && ANCHOR < pool.disk.nextPageId && Fits(t, h) ==> b.Writable()
    ensures Settled(old(pool.View()), slot, t, h, old(pool.disk.nextPageId)) ==> b.Valid()
  {
    hide BufferPool.Valid, BufferPool.View, BufferPool.Pins, BufferPool.Log, BufferPool.State, Apply, Extends,
         PoolModel.FetchPage, Rep, Ordered, RootId, Distinct, Ids, Balanced, ClosedLog;
    if ClosedLog(pool.Log()) {
      ReadsClosed(pool.Log());
    }
    b := new BTree(pool, slot, INVALID_PAGE_ID, t, h);
    var page := b.ReadOnce(ANCHOR);
    b.root := RootOf(page, slot);
  }

  lemma DelAbsent(cells: seq<Cell>, key: Key)
    ensures Lookup(cells, key).None? ==> Del(cells, key) == cells
  {
    DelLength(cells, key);
  }

  lemma {:induction false} StepDown(s: Store, t: Tree, next: PageId, lo: int, hi: int, key: Key, i: nat)
    requires t.Node? && |t.kids| == |t.keys| + 1 && Rep(s, t, next) && Ordered(t, lo, hi) && i == ChildIndex(t.keys, key)
    ensures Rep(s, t.kids[i], NextOf(t.kids, i, next)) && Ordered(t.kids[i], Lo(t.keys, i, lo), Hi(t.keys, i, hi))
    ensures Descend(t, key) == Descend(t.kids[i], key)
  {
  }

  /** From above only the left part of a half is visible. */
  lemma {:induction false} Entry(s: Store, t: Tree, next: PageId, lo: int, hi: int, key: Key)
    returns (e: Tree, next': PageId, lo': int, hi': int)
    requires Rep(s, t, next) && Ordered(t, lo, hi)
    ensures !e.Half? && RootId(e) == RootId(t) == e.id && Rep(s, e, next') && Ordered(e, lo', hi')
    ensures Descend(e, key) == Descend(t, key) && (e == t || e < t)
    ensures e.id in s && (s[e.id].LeafPage? <==> e.Leaf?) && (e.Leaf? ==> s[e.id].cells == e.cells && Descend(e, key) == e)
    ensures e.Node? ==> |e.kids| == |e.keys| + 1 && s[e.id] == InternalPage(RootId(e.kids[0]), Seps(e.keys, e.kids))
    decreases t
  {
    e, next', lo', hi' := t, next, lo, hi;
    if t.Half? {
      e, next', lo', hi' := Entry(s, t.left, FirstLeaf(t.right), lo, t.sep, key);
    }
  }

  lemma WithLengths(keys: seq<Key>, kids: seq<Tree>, i: nat, sep: Key, half: Tree)
    requires |kids| == |keys| + 1 && i < |kids| && half.Half?
    ensures |KidsWith(kids, i, half.left, half.right)| == |KeysWith(keys, i, sep)| + 1
  {
  }

  /** The part of a tree that an insert enters: what it does there it does to the whole. */
  lemma {:induction false} InsertEntry(s: Store, t: Tree, h: nat, next: PageId, key: Key, value: Bytes, free: PageId)
    returns (e: Tree, next': PageId)
    requires Rep(s, t, next) && Distinct(t) && Fits(t, h) && Below(t, free)
    ensures !e.Half? && RootId(e) == RootId(t) && Rep(s, e, next') && Distinct(e) && Fits(e, h) && Below(e, free)
    ensures Ids(e) <= Ids(t) && (e == t || e < t)
    ensures var out, all := InsertInto(e, key, value, free, next'), InsertInto(t, key, value, free, next);
            all.writes == out.writes && all.next == out.next && SplitOf(all) == SplitOf(out)
    decreases t
  {
    e, next' := t, next;
    if t.Half? {
      HalfFacts(t, free);
      assert Ids(t) == Ids(t.left) + Ids(t.right);
      e, next' := InsertEntry(s, t.left, h, FirstLeaf(t.right), key, value, free);
    }
  }

  lemma RootIsId(t: Tree)
    requires !t.Half?
    ensures RootId(t) in Ids(t) && RootId(t) == t.id
  {
  }

  lemma IdsBelow(t: Tree, free: PageId)
    requires Below(t, free) && !t.Half?
    ensures t.id < free
  {
    assert t.id in Ids(t);
  }

  lemma LeafCase(s: Store, t: Tree, h: nat, next: PageId, key: Key, value: Bytes, free: PageId)
    requires Rep(s, t, next) && Fits(t, h) && !t.Half? && t.id in s && s[t.id].LeafPage?
    ensures t.Leaf? && |t.cells| <= LEAF_MAX_KEYS
    ensures InsertInto(t, key, value, free, next) == LeafOutcome(t.id, Put(t.cells, key, value), free, next)
  {
  }

  lemma NodeCase(s: Store, t: Tree, h: nat, next: PageId)
    requires Rep(s, t, next) && Fits(t, h) && !t.Half? && t.id in s && !s[t.id].LeafPage?
    ensures t.Node? && h > 0 && |t.kids| == |t.keys| + 1 && s[t.id] == NodePage(t.keys, t.kids)
    ensures s[t.id] == InternalPage(RootId(t.kids[0]), Seps(t.keys, t.kids))
  {
  }

  /** Pinning one more page takes one more frame, and unpinning it gives that frame back. */
  lemma PinOne(pins: map<PageId, Pin>, p: PageId, f: nat)
    requires p !in pins
    ensures AddPin(pins, p, f) == pins[p := Pin(f, 1)] && |AddPin(pins, p, f)| == |pins| + 1
    ensures DropPin(AddPin(pins, p, f), p) == pins
  {
    assert AddPin(pins, p, f).Keys == pins.Keys + {p};
    DropAdded(pins, p, f);
  }

  /** Whatever a lookup finds, half-done splits or not, is what the ordered map holds. */
  lemma DescendHolds(t: Tree, key: Key)
    requires Ordered(t, KEY_MIN, KEY_MAX + 1) && KEY_MIN <= key <= KEY_MAX
    ensures Descend(t, key).Leaf?
    ensures var found := Lookup(Descend(t, key).cells, key);
            found.Some? ==> found == MapLookup(ToMap(Contents(t)), key)
  {
    hide Ordered, Descend, Lookup, ToMap, Contents, Leaves;
    var pos := DescendLands(t, key, KEY_MIN, KEY_MAX + 1);
    LeafSorted(t, pos);
    LeavesContents(t);
    CellsOfLeaf(Leaves(t), pos);
    OrderedContents(t, KEY_MIN, KEY_MAX + 1);
    FoundIn(Descend(t, key).cells, Contents(t), key);
  }

  lemma CellsOfLeaf(leaves: seq<Tree>, pos: nat)
    requires pos < |leaves| && leaves[pos].Leaf?
    ensures forall c <- leaves[pos].cells :: c in ContentsAll(leaves)
  {
    LeafInContents(leaves, pos);
  }

  lemma FoundIn(cells: seq<Cell>, all: seq<Cell>, key: Key)
    requires Sorted(all) && Sorted(cells) && forall c <- cells :: c in all
    ensures Lookup(cells, key).Some? ==> Lookup(cells, key) == MapLookup(ToMap(all), key)
  {
    hide Lookup, ToMap;
    LookupMembers(cells, key);
    ToMapHas(all);
  }

  lemma {:induction false} EmptyRange(cells: seq<Cell>, low: Key, high: Key)
    requires low > high
    ensures InRange(cells, low, high) == []
  {
    InRangeNone(cells, low, high);
  }

  function ChainId(leaves: seq<Tree>, j: nat): PageId {
    if j < |leaves| then FirstLeaf(leaves[j]) else INVALID_PAGE_ID
  }

  /** The scan starts where descent lands: nothing before that leaf is in range. */
  lemma {:induction false} ScanStart(s: Store, t: Tree, low: Key, high: Key) returns (j: nat)
    requires Rep(s, t, INVALID_PAGE_ID) && Ordered(t, KEY_MIN, KEY_MAX + 1)
    ensures j <= |Leaves(t)| && Descend(t, low).Leaf? && Descend(t, low).id == ChainId(Leaves(t), j)
    ensures InRange(ContentsAll(Leaves(t)[..j]), low, high) == []
  {
    j := DescendLands(t, low, KEY_MIN, KEY_MAX + 1);
    LeafShape(t, KEY_MIN, KEY_MAX + 1, j);
    InRangeNone(ContentsAll(Leaves(t)[..j]), low, high);
  }

  /** One leaf of the chain: its page, its successor, and what it adds to the result. */
  lemma {:induction false} ScanStep(s: Store, t: Tree, low: Key, high: Key, j: nat)
    requires Rep(s, t, INVALID_PAGE_ID) && Ordered(t, KEY_MIN, KEY_MAX + 1) && Below(t, INVALID_PAGE_ID)
    requires j <= |Leaves(t)| && ChainId(Leaves(t), j) != INVALID_PAGE_ID
    ensures var leaves := Leaves(t);
            && j < |leaves| && leaves[j].Leaf? && leaves[j].id == ChainId(leaves, j)
            && leaves[j].id in s && s[leaves[j].id] == LeafPage(leaves[j].cells, ChainId(leaves, j + 1))
            && Sorted(leaves[j].cells)
            && InRange(ContentsAll(leaves[..j + 1]), low, high)
               == InRange(ContentsAll(leaves[..j]), low, high) + InRange(leaves[j].cells, low, high)
  {
    var leaves := Leaves(t);
    RepChain(s, t, INVALID_PAGE_ID);
    assert Rep(s, leaves[j], NextOf(leaves, j, INVALID_PAGE_ID));
    LeafSorted(t, j);
    ScanAdds(leaves, low, high, j);
  }

  lemma ScanAdds(leaves: seq<Tree>, low: Key, high: Key, j: nat)
    requires j < |leaves| && leaves[j].Leaf?
    ensures InRange(ContentsAll(leaves[..j + 1]), low, high)
         == InRange(ContentsAll(leaves[..j]), low, high) + InRange(leaves[j].cells, low, high)
  {
    assert leaves[..j + 1] == leaves[..j] + [leaves[j]];
    ContentsAppend(leaves[..j], [leaves[j]]);
    assert [leaves[j]][1..] == [];
    assert ContentsAll([leaves[j]]) == Contents(leaves[j]) == leaves[j].cells;
    InRangeAppend(ContentsAll(leaves[..j]), leaves[j].cells, low, high);
  }

  lemma LeafSorted(t: Tree, j: nat)
    requires Ordered(t, KEY_MIN, KEY_MAX + 1) && j < |Leaves(t)|
    ensures Leaves(t)[j].Leaf? && Sorted(Leaves(t)[j].cells)
    ensures forall c <- Leaves(t)[j].cells, d <- ContentsAll(Leaves(t)[j + 1..]) :: c.key < d.key
  {
    var leaves := Leaves(t);
    LeafShape(t, KEY_MIN, KEY_MAX + 1, j);
    LeavesContents(t);
    OrderedContents(t, KEY_MIN, KEY_MAX + 1);
    ContentsSplit(leaves, j);
    SortedPieces(ContentsAll(leaves[..j]), leaves[j].cells, ContentsAll(leaves[j + 1..]));
  }

  lemma SortedPieces(a: seq<Cell>, b: seq<Cell>, c: seq<Cell>)
    requires Sorted(a + b + c)
    ensures Sorted(b) && forall x <- b, y <- c :: x.key < y.key
  {
    var all := a + b + c;
    forall i | 0 <= i < |b|
      ensures all[|a| + i] == b[i]
    {
    }
    forall i | 0 <= i < |c|
      ensures all[|a| + |b| + i] == c[i]
    {
    }
    forall x, y | x in b && y in c
      ensures x.key < y.key
    {
      var i :| 0 <= i < |b| && b[i] == x;
      var j :| 0 <= j < |c| && c[j] == y;
      assert all[|a| + i].key < all[|a| + |b| + j].key;
    }
  }

  /** Past the upper bound nothing further can be in range. */
  lemma {:induction false} ScanStop(s: Store, t: Tree, low: Key, high: Key, j: nat)
    requires Rep(s, t, INVALID_PAGE_ID) && Ordered(t, KEY_MIN, KEY_MAX + 1)
    requires 0 < j <= |Leaves(t)| && Leaves(t)[j - 1].Leaf? && exists c <- Leaves(t)[j - 1].cells :: c.key > high && low <= c.key
    ensures InRange(ContentsAll(Leaves(t)[..j]), low, high) == InRange(Contents(t), low, high)
  {
    var leaves := Leaves(t);
    LeafSorted(t, j - 1);
    LeavesContents(t);
    assert leaves == leaves[..j] + leaves[j..];
    ContentsAppend(leaves[..j], leaves[j..]);
    InRangeAppend(ContentsAll(leaves[..j]), ContentsAll(leaves[j..]), low, high);
    InRangeNone(ContentsAll(leaves[j..]), low, high);
  }

  lemma {:induction false} ScanEnd(s: Store, t: Tree, low: Key, high: Key, j: nat)
    requires Rep(s, t, INVALID_PAGE_ID) && Ordered(t, KEY_MIN, KEY_MAX + 1) && Below(t, INVALID_PAGE_ID)
    requires j <= |Leaves(t)| && ChainId(Leaves(t), j) == INVALID_PAGE_ID
    ensures InRange(ContentsAll(Leaves(t)[..j]), low, high) == InRange(Contents(t), low, high)
  {
    LeavesContents(t);
    if j < |Leaves(t)| {
      LeafShape(t, KEY_MIN, KEY_MAX + 1, j);
      LeafIsId(t, KEY_MIN, KEY_MAX + 1, j);
    } else {
      assert Leaves(t)[..j] == Leaves(t);
    }
  }

  /** Every leaf of the chain is a page of the tree. */
  lemma {:induction false} LeafIsId(t: Tree, lo: int, hi: int, pos: nat)
    requires Ordered(t, lo, hi) && pos < |Leaves(t)|
    ensures Leaves(t)[pos].Leaf? && Leaves(t)[pos].id in Ids(t)
    decreases t, 1
  {
    match t
    case Leaf(_, _) =>
    case Node(_, keys, kids) =>
      assert kids[0..] == kids;
      LeafIsIdKids(t, lo, hi, 0, pos);
    case Half(left, sep, right) =>
      if pos < |Leaves(left)| {
        LeafIsId(left, lo, sep, pos);
      } else {
        LeafIsId(right, sep, hi, pos - |Leaves(left)|);
      }
  }

  lemma {:induction false} LeafIsIdKids(t: Tree, lo: int, hi: int, i: nat, pos: nat)
    requires t.Node? && Ordered(t, lo, hi) && i <= |t.kids| && pos < |LeavesAll(t.kids[i..])|
    ensures LeavesAll(t.kids[i..])[pos].Leaf? && LeavesAll(t.kids[i..])[pos].id in Ids(t)
    decreases t, 0, |t.kids| - i
  {
    var n := |Leaves(t.kids[i])|;
    assert t.kids[i..][1..] == t.kids[i + 1..];
    if pos < n {
      LeafIsId(t.kids[i], Lo(t.keys, i, lo), Hi(t.keys, i, hi), pos);
      KidIds(t, i);
    } else {
      LeafIsIdKids(t, lo, hi, i + 1, pos - n);
    }
  }

  /** A delete writes the leaf that descent finds. */
  lemma {:induction false} DeleteWrites(s: Store, t: Tree, key: Key, next: PageId)
    requires Rep(s, t, next)
    ensures var leaf := Descend(t, key);
            && leaf.Leaf? && leaf.id in s && s[leaf.id].LeafPage? && s[leaf.id].cells == leaf.cells
            && DeleteFrom(t, key, next).writes
               == if Lookup(leaf.cells, key).Some? then [Image(leaf.id, LeafPage(Del(leaf.cells, key), s[leaf.id].next))] else []
    decreases t
  {
    match t
    case Leaf(_, _) =>
    case Node(_, keys, kids) =>
      var i := ChildIndex(keys, key);
      DeleteWrites(s, kids[i], key, NextOf(kids, i, next));
    case Half(left, _, right) =>
      DeleteWrites(s, left, key, FirstLeaf(right));
  }

  /** What a delete leaves of a tree fit for reading, for writing, or between operations. */
  lemma DeleteReady(s: Store, slot: Option<nat>, t: Tree, h: nat, free: PageId, key: Key)
    requires HoldsTree(s, slot, t)
    ensures var out := DeleteFrom(t, key, INVALID_PAGE_ID);
            && HoldsTree(Apply(s, out.writes), slot, out.tree) && RootId(out.tree) == RootId(t)
            && ToMap(Contents(out.tree)) == ToMap(Contents(t)) - (if HasKey(Hidden(t), key) then {} else {key})
            && (Below(t, free) ==> Below(out.tree, free)) && (Fits(t, h) ==> Fits(out.tree, h))
            && (Settled(s, slot, t, h, free) ==> Settled(Apply(s, out.writes), slot, out.tree, h, free) && !HasKey(Hidden(t), key))
  {
    hide DeleteFrom, Apply, Rep, Ordered, Distinct, Ids, Below, Balanced, Fits, Contents, ToMap, Hidden;
    DeleteHolds(s, slot, t, INVALID_PAGE_ID, key);
    if Below(t, free) {
      DeleteHolds(s, slot, t, free, key);
    }
    if Fits(t, h) {
      DeleteFits(t, h, key, INVALID_PAGE_ID);
    }
    if Settled(s, slot, t, h, free) {
      DeleteSettled(s, slot, t, h, free, key);
      BalancedHidden(t, h, 1);
    }
  }

  /** Between operations nothing is hidden, and an insert ends between operations. */
  lemma SettledInsert(s: Store, slot: Option<nat>, t: Tree, h: nat, free: PageId, key: Key, value: Bytes)
    requires Settled(s, slot, t, h, free)
    ensures Open(t, key) && !Passed(t, key) && Fits(t, h)
    ensures var out := InsertTop(t, key, value, free, slot, s[ANCHOR]);
            && out.tree == TreeAfter(t, key, value, free, slot, s[ANCHOR])
            && (out.next <= INVALID_PAGE_ID ==> Settled(Apply(s, out.writes), slot, out.tree, HeightAfter(t, h, key, value, free), out.next))
  {
    BalancedOpen(t, h, 1, key);
    OpenNotPassed(t, key, KEY_MIN, KEY_MAX + 1);
    BalancedFits(t, h, 1);
    hide Rep, Ordered, Distinct, Ids, Balanced, Fits, Open, Passed, Contents, ToMap, Apply, InsertTop, HeightAfter;
    if InsertTop(t, key, value, free, slot, s[ANCHOR]).next <= INVALID_PAGE_ID {
      InsertSettled(s, slot, t, h, free, key, value);
    }
  }

  lemma RootPage(sep: Key, half: Tree)
    requires half.Half?
    ensures NodePage([sep], [half.left, half.right]) == InternalPage(RootId(half.left), [Sep(sep, RootId(half.right))])
  {
  }

  /** One insert allocates at most one page per level. */
  lemma {:induction false} InsertNextBound(t: Tree, h: nat, key: Key, value: Bytes, free: PageId, next: PageId)
    requires Fits(t, h)
    ensures free <= InsertInto(t, key, value, free, next).next <= free + h + 1
    decreases t
  {
    match t
    case Leaf(_, _) =>
    case Node(_, keys, kids) =>
      var i := ChildIndex(keys, key);
      if |kids| == |keys| + 1 {
        InsertNextBound(kids[i], h - 1, key, value, free, NextOf(kids, i, next));
      }
    case Half(left, _, right) =>
      InsertNextBound(left, h, key, value, free, FirstLeaf(right));
  }

  lemma TopNextBound(t: Tree, h: nat, key: Key, value: Bytes, free: PageId, slot: Option<nat>, anchor: Page)
    requires AnchorOk(anchor, slot) && Fits(t, h)
    ensures InsertTop(t, key, value, free, slot, anchor).next <= free + h + 2
  {
    hide InsertInto, Fits;
    InsertNextBound(t, h, key, value, free, INVALID_PAGE_ID);
  }

  /** The recursive part of an insert does not touch the page that records the root. */
  lemma AnchorKept(s: Store, slot: Option<nat>, t: Tree, free: PageId, key: Key, value: Bytes)
    requires StoresTree(s, slot, t) && Below(t, free) && ANCHOR < free
    ensures var out := InsertInto(t, key, value, free, INVALID_PAGE_ID);
            && ANCHOR in Apply(s, out.writes) && Apply(s, out.writes)[ANCHOR] == s[ANCHOR]
            && RootId(out.tree) == RootId(t) && (out.split.Some? ==> RootId(out.tree.left) == RootId(t))
  {
    InsertGrown(t, key, value, free, INVALID_PAGE_ID);
    ApplyFrame(s, InsertInto(t, key, value, free, INVALID_PAGE_ID).writes, ANCHOR);
  }

  lemma TopRoot(t: Tree, key: Key, value: Bytes, free: PageId, slot: Option<nat>, anchor: Page)
    requires AnchorOk(anchor, slot)
    ensures var below := InsertInto(t, key, value, free, INVALID_PAGE_ID);
            RootId(InsertTop(t, key, value, free, slot, anchor).tree) == if below.split.Some? then below.next else RootId(below.tree)
  {
  }
}
