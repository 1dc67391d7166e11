/** No dangling pointers: in every prefix of the log, each page names only pages that the prefix also holds, and no leaf is
    overfull. */
module LogClosed {
  import opened Pages
  import opened Cells
  import opened Trees
  import opened TreeUpdate
  import opened TreeStages
  import opened TreeDelete
  import opened TreeTop

  /** The pages a page names: children, next leaf, tree root, table roots. */
  ghost function Pointers(page: Page): set<PageId> {
    match page
    case Blank => {}
    case LeafPage(_, next) => if next == INVALID_PAGE_ID then {} else {next}
    case InternalPage(leftmost, seps) => {leftmost} + set i | 0 <= i < |seps| :: seps[i].child
    case MetaPage(root) => {root}
    case CatalogPage(tables) => set i | 0 <= i < |tables| && tables[i].inUse :: tables[i].root
  }

  /** No leaf keeps more cells than the split threshold. */
  predicate PageFits(page: Page) {
    page.LeafPage? ==> |page.cells| <= LEAF_MAX_KEYS
  }

  ghost predicate Closed(s: Store) {
    forall p <- s :: Pointers(s[p]) <= s.Keys && PageFits(s[p])
  }

  ghost function Written(writes: seq<Image>): set<PageId> {
    set r <- writes :: r.id
  }

  /** Each image names only itself, pages already present, or pages written before it; none is an overfull leaf. */
  ghost predicate InOrder(present: set<PageId>, writes: seq<Image>) {
    forall k :: 0 <= k < |writes| ==> Pointers(writes[k].page) <= present + Written(writes[..k + 1]) && PageFits(writes[k].page)
  }

  lemma {:induction false} ApplyKeys(s: Store, writes: seq<Image>)
    ensures Apply(s, writes).Keys == s.Keys + Written(writes)
    decreases |writes|
  {
    if writes != [] {
      var n := |writes| - 1;
      ApplyKeys(s, writes[..n]);
      assert writes == writes[..n] + [writes[n]];
      assert Written(writes) == Written(writes[..n]) + {writes[n].id};
    }
  }

  /** Images in pointer order keep every prefix closed. */
  lemma {:induction false} InOrderCloses(s: Store, writes: seq<Image>, k: nat)
    requires Closed(s) && InOrder(s.Keys, writes) && k <= |writes|
    ensures Closed(Apply(s, writes[..k]))
  {
    if k == 0 {
      assert writes[..0] == [];
    } else {
      InOrderCloses(s, writes, k - 1);
      assert writes[..k][..k - 1] == writes[..k - 1];
      ApplyKeys(s, writes[..k]);
      ApplyKeys(s, writes[..k - 1]);
      var s1, s2 := Apply(s, writes[..k - 1]), Apply(s, writes[..k]);
      assert s1.Keys <= s2.Keys by {
        assert forall r <- writes[..k - 1] :: r in writes[..k];
      }
      assert Pointers(writes[k - 1].page) <= s2.Keys;
    }
  }

  lemma InOrderAppend(present: set<PageId>, a: seq<Image>, b: seq<Image>)
    requires InOrder(present, a) && InOrder(present + Written(a), b)
    ensures InOrder(present, a + b)
  {
    forall k | 0 <= k < |a + b|
      ensures Pointers((a + b)[k].page) <= present + Written((a + b)[..k + 1]) && PageFits((a + b)[k].page)
    {
      if k < |a| {
        assert (a + b)[..k + 1] == a[..k + 1];
      } else {
        var j := k - |a|;
        assert (a + b)[..k + 1] == a + b[..j + 1];
        assert Written(a + b[..j + 1]) == Written(a) + Written(b[..j + 1]);
      }
    }
  }

  lemma WrittenAppend(a: seq<Image>, b: seq<Image>)
    ensures Written(a + b) == Written(a) + Written(b)
  {
  }

  lemma NodePointers(keys: seq<Key>, kids: seq<Tree>)
    requires |kids| == |keys| + 1
    ensures forall p <- Pointers(NodePage(keys, kids)) :: exists i :: 0 <= i < |kids| && p == RootId(kids[i])
  {
    forall p | p in Pointers(NodePage(keys, kids))
      ensures exists i :: 0 <= i < |kids| && p == RootId(kids[i])
    {
      if p != RootId(kids[0]) {
        var i :| 0 <= i < |keys| && Seps(keys, kids)[i].child == p;
        assert p == RootId(kids[i + 1]);
      }
    }
  }

  ghost predicate RootsIn(kids: seq<Tree>, present: set<PageId>) {
    forall i :: 0 <= i < |kids| ==> RootId(kids[i]) in present
  }

  lemma NodePointersIn(keys: seq<Key>, kids: seq<Tree>, present: set<PageId>)
    requires |kids| == |keys| + 1 && RootsIn(kids, present)
    ensures Pointers(NodePage(keys, kids)) <= present
  {
    NodePointers(keys, kids);
  }

  lemma NodeOutcomeInOrder(id: PageId, keys: seq<Key>, kids: seq<Tree>, free: PageId, present: set<PageId>)
    requires |kids| == |keys| + 1 && RootsIn(kids, present)
    ensures InOrder(present, NodeOutcome(id, keys, kids, free).writes)
  {
    if |keys| <= INTERNAL_MAX_KEYS {
      NodePointersIn(keys, kids, present);
    } else {
      var m := |keys| / 2;
      assert RootsIn(kids[..m + 1], present) && RootsIn(kids[m + 1..], present);
      NodePointersIn(keys[..m], kids[..m + 1], present);
      NodePointersIn(keys[m + 1..], kids[m + 1..], present);
    }
  }

  lemma KidsWithRoots(kids: seq<Tree>, i: nat, left: Tree, right: Tree, present: set<PageId>)
    requires i < |kids| && RootsIn(kids, present) && RootId(left) in present && RootId(right) in present
    ensures RootsIn(KidsWith(kids, i, left, right), present)
  {
    var now := KidsWith(kids, i, left, right);
    forall j | 0 <= j < |now|
      ensures RootId(now[j]) in present
    {
      assert j < i ==> now[j] == kids[j];
      assert j > i + 1 ==> now[j] == kids[j - 1];
    }
  }

  /** The entry pages of the result are old pages or pages the insert wrote. */
  lemma {:induction false} ResultRoots(t: Tree, key: Key, value: Bytes, free: PageId, next: PageId)
    ensures var out := InsertInto(t, key, value, free, next);
            RootId(out.tree) == RootId(t) && (out.split.Some? ==> RootId(out.tree.right) in Written(out.writes))
    decreases t
  {
    match t
    case Leaf(_, _) =>
      LeafResult(t, key, value, free, next);
    case Node(_, keys, kids) =>
      if |kids| == |keys| + 1 {
        var i := ChildIndex(keys, key);
        var below := InsertInto(kids[i], key, value, free, NextOf(kids, i, next));
        if below.split.Some? {
          var own := NodeOutcome(t.id, KeysWith(keys, i, below.split.value), KidsWith(kids, i, below.tree.left, below.tree.right), below.next);
          WrittenAppend(below.writes, own.writes);
          if own.split.Some? {
            assert own.writes[0].id == RootId(own.tree.right);
            assert own.writes[0] in own.writes;
          }
        }
      }
    case Half(left, _, right) =>
      ResultRoots(left, key, value, free, FirstLeaf(right));
  }

  lemma LeafResult(t: Tree, key: Key, value: Bytes, free: PageId, next: PageId)
    requires t.Leaf?
    ensures var out := InsertInto(t, key, value, free, next);
            RootId(out.tree) == RootId(t) && (out.split.Some? ==> RootId(out.tree.right) in Written(out.writes))
  {
    var out := InsertInto(t, key, value, free, next);
    if out.split.Some? {
      assert out.writes[0] in out.writes;
    }
  }

  lemma LeafInOrder(id: PageId, cells: seq<Cell>, free: PageId, next: PageId, present: set<PageId>)
    requires (next == INVALID_PAGE_ID || next in present) && |cells| <= LEAF_MAX_KEYS + 1
    ensures InOrder(present, LeafOutcome(id, cells, free, next).writes)
  {
    var w := LeafOutcome(id, cells, free, next).writes;
    assert |w| > 1 ==> w[0] in w[..2];
  }

  /** An insert logs every page before the first page that names it. */
  lemma {:induction false} InsertInOrder(s: Store, t: Tree, key: Key, value: Bytes, free: PageId, next: PageId, present: set<PageId>)
    requires Rep(s, t, next) && Ids(t) <= present && (next == INVALID_PAGE_ID || next in present) && forall p <- s :: PageFits(s[p])
    ensures InOrder(present, InsertInto(t, key, value, free, next).writes)
    decreases t
  {
    match t
    case Leaf(id, cells) =>
      PutLength(cells, key, value);
      LeafInOrder(id, Put(cells, key, value), free, next, present);
    case Node(id, keys, kids) =>
      hide InOrder, Written;
      var i := ChildIndex(keys, key);
      var nxt := NextOf(kids, i, next);
      KidIds(t, i);
      KidEntries(s, t, next, present);
      InsertInOrder(s, kids[i], key, value, free, nxt, present);
      var below := InsertInto(kids[i], key, value, free, nxt);
      if below.split.Some? {
        ResultRoots(kids[i], key, value, free, nxt);
        var all := present + Written(below.writes);
        KidsWithRoots(kids, i, below.tree.left, below.tree.right, all);
        var own := NodeOutcome(id, KeysWith(keys, i, below.split.value), KidsWith(kids, i, below.tree.left, below.tree.right), below.next);
        NodeOutcomeInOrder(id, KeysWith(keys, i, below.split.value), KidsWith(kids, i, below.tree.left, below.tree.right), below.next, all);
        InOrderAppend(present, below.writes, own.writes);
      }
    case Half(left, _, right) =>
      EntriesAreIds(s, right, next);
      InsertInOrder(s, left, key, value, free, FirstLeaf(right), present);
  }

  lemma {:induction false} KidEntries(s: Store, t: Tree, next: PageId, present: set<PageId>)
    requires t.Node? && Rep(s, t, next) && Ids(t) <= present
    ensures RootsIn(t.kids, present) && forall i :: 0 <= i < |t.kids| ==> FirstLeaf(t.kids[i]) in present
  {
    forall i | 0 <= i < |t.kids|
      ensures RootId(t.kids[i]) in present && FirstLeaf(t.kids[i]) in present
    {
      KidIds(t, i);
      EntriesAreIds(s, t.kids[i], NextOf(t.kids, i, next));
    }
  }

  lemma {:induction false} EntriesAreIds(s: Store, t: Tree, next: PageId)
    requires Rep(s, t, next)
    ensures RootId(t) in Ids(t) && FirstLeaf(t) in Ids(t)
    decreases t
  {
    match t
    case Leaf(_, _) =>
    case Node(_, _, kids) =>
      EntriesAreIds(s, kids[0], NextOf(kids, 0, next));
      KidIds(t, 0);
    case Half(left, _, right) =>
      EntriesAreIds(s, left, FirstLeaf(right));
  }

  /** The images of an insert, root growth included, are in pointer order. */
  lemma {:induction false} InsertTopInOrder(s: Store, slot: Option<nat>, t: Tree, free: PageId, key: Key, value: Bytes)
    requires HoldsTree(s, slot, t) && Closed(s)
    ensures InOrder(s.Keys, InsertTop(t, key, value, free, slot, s[ANCHOR]).writes)
  {
    hide InOrder, Closed, Written, InsertInto, Rep, Ordered, Distinct, Ids;
    var out := InsertInto(t, key, value, free, INVALID_PAGE_ID);
    RepIds(s, t, INVALID_PAGE_ID);
    IdsPresent(s, t);
    ClosedFits(s);
    InsertInOrder(s, t, key, value, free, INVALID_PAGE_ID, s.Keys);
    if out.split.Some? {
      ResultRoots(t, key, value, free, INVALID_PAGE_ID);
      EntriesAreIds(s, t, INVALID_PAGE_ID);
      ClosedAt(s, ANCHOR);
      RootInOrder(s, slot, out);
    }
  }

  /** Whatever part of an insert reached the log, the recovered store has no dangling pointer. */
  lemma InsertClosed(s: Store, slot: Option<nat>, t: Tree, free: PageId, key: Key, value: Bytes, now: Store)
    requires HoldsTree(s, slot, t) && Closed(s)
    requires Visits(s, InsertTop(t, key, value, free, slot, s[ANCHOR]).writes, now)
    ensures Closed(now)
  {
    hide InOrder, Closed, InsertTop, Rep, Ordered, Distinct, Ids;
    InsertTopInOrder(s, slot, t, free, key, value);
    VisitsClosed(s, InsertTop(t, key, value, free, slot, s[ANCHOR]).writes, now);
  }

  lemma VisitsClosed(s: Store, writes: seq<Image>, now: Store)
    requires Closed(s) && InOrder(s.Keys, writes) && Visits(s, writes, now)
    ensures Closed(now)
  {
    hide Closed, InOrder, Apply;
    var k :| 0 <= k <= |writes| && now == Apply(s, writes[..k]);
    InOrderCloses(s, writes, k);
  }

  // ---------- the log itself ----------

  /** Every prefix of the log, replayed, leaves no dangling pointer. */
  ghost predicate ClosedLog(log: seq<Image>) {
    forall n :: 0 <= n <= |log| ==> Closed(Apply(map[], log[..n]))
  }

  /** Images in pointer order keep the log closed, however often unchanged images are repeated in between. */
  lemma ClosedGrows(log: seq<Image>, log': seq<Image>, writes: seq<Image>)
    requires ClosedLog(log) && Extends(log, log', writes) && InOrder(Apply(map[], log).Keys, writes)
    ensures ClosedLog(log')
  {
    hide Closed, InOrder, Apply, Covers, Visits;
    assert log[..|log|] == log;
    forall n | 0 <= n <= |log'|
      ensures Closed(Apply(map[], log'[..n]))
    {
      if n <= |log| {
        assert log'[..n] == log[..n];
      } else {
        CrashPoints(log, log', writes, n);
        VisitsClosed(Apply(map[], log), writes, Apply(map[], log'[..n]));
      }
    }
  }

  lemma ClosedQuietly(log: seq<Image>, log': seq<Image>)
    requires ClosedLog(log) && Extends(log, log', [])
    ensures ClosedLog(log')
  {
    InOrderNone(Apply(map[], log).Keys);
    ClosedGrows(log, log', []);
  }

  lemma ClosedNow(log: seq<Image>)
    requires ClosedLog(log)
    ensures Closed(Apply(map[], log))
  {
    assert log[..|log|] == log;
  }

  lemma ClosedAt(s: Store, p: PageId)
    requires Closed(s) && p in s
    ensures Pointers(s[p]) <= s.Keys && PageFits(s[p])
  {
  }

  lemma ClosedFits(s: Store)
    requires Closed(s)
    ensures forall p <- s :: PageFits(s[p])
  {
  }

  lemma IdsPresent(s: Store, t: Tree)
    requires forall p <- Ids(t) :: p in s
    ensures Ids(t) <= s.Keys
  {
  }

  /** The new root names both parts; the anchor names the new root. */
  lemma RootInOrder(s: Store, slot: Option<nat>, out: Outcome)
    requires out.split.Some? && SplitsInHalf(out) && ANCHOR in s && AnchorOk(s[ANCHOR], slot) && InOrder(s.Keys, out.writes)
    requires RootId(out.tree) in s && RootId(out.tree.right) in Written(out.writes)
    requires Pointers(s[ANCHOR]) <= s.Keys
    ensures InOrder(s.Keys, WithRoot(out, slot, s[ANCHOR]).writes)
  {
    var half := out.tree;
    var all := s.Keys + Written(out.writes);
    assert RootsIn([half.left, half.right], all);
    NodePointersIn([out.split.value], [half.left, half.right], all);
    var r := Image(out.next, NodePage([out.split.value], [half.left, half.right]));
    var a := Image(ANCHOR, SetRoot(s[ANCHOR], slot, out.next));
    AnchorPointers(s[ANCHOR], slot, out.next);
    TwoInOrder(all, r, a);
    InOrderAppend(s.Keys, out.writes, [r, a]);
  }

  lemma TwoInOrder(present: set<PageId>, r: Image, a: Image)
    requires Pointers(r.page) <= present && Pointers(a.page) <= present + {r.id} && PageFits(r.page) && PageFits(a.page)
    ensures InOrder(present, [r, a])
  {
    assert [r, a][..2] == [r, a];
    assert r in [r, a];
  }

  lemma AnchorPointers(page: Page, slot: Option<nat>, root: PageId)
    requires AnchorOk(page, slot)
    ensures Pointers(SetRoot(page, slot, root)) <= Pointers(page) + {root}
  {
    if slot.Some? {
      var now := SetRoot(page, slot, root);
      forall p | p in Pointers(now)
        ensures p in Pointers(page) || p == root
      {
        var i :| 0 <= i < |now.tables| && now.tables[i].inUse && now.tables[i].root == p;
        assert i != slot.value ==> now.tables[i] == page.tables[i];
      }
    }
  }

  /** Whatever part of a delete reached the log, the recovered store has no dangling pointer. */
  lemma DeleteClosed(s: Store, slot: Option<nat>, t: Tree, key: Key, now: Store)
    requires HoldsTree(s, slot, t) && Closed(s)
    requires Visits(s, DeleteFrom(t, key, INVALID_PAGE_ID).writes, now)
    ensures Closed(now)
  {
    DeleteInOrder(s, t, key, INVALID_PAGE_ID);
    VisitsClosed(s, DeleteFrom(t, key, INVALID_PAGE_ID).writes, now);
  }

  /** A delete rewrites one leaf and keeps its pointer. */
  lemma {:induction false} DeleteInOrder(s: Store, t: Tree, key: Key, next: PageId)
    requires Rep(s, t, next) && Closed(s)
    ensures InOrder(s.Keys, DeleteFrom(t, key, next).writes)
    decreases t
  {
    hide InOrder;
    match t
    case Leaf(_, cells) =>
      ClosedAt(s, t.id);
      DelLength(cells, key);
      InOrderNone(s.Keys);
      InOrderOne(s.Keys, Image(t.id, LeafPage(Del(cells, key), next)));
    case Node(_, keys, kids) =>
      hide Closed;
      var i := ChildIndex(keys, key);
      DeleteInOrder(s, kids[i], key, NextOf(kids, i, next));
    case Half(left, _, right) =>
      hide Closed;
      DeleteInOrder(s, left, key, FirstLeaf(right));
  }

  lemma InOrderNone(present: set<PageId>)
    ensures InOrder(present, [])
  {
  }

  lemma InOrderOne(present: set<PageId>, r: Image)
    requires Pointers(r.page) <= present && PageFits(r.page)
    ensures InOrder(present, [r])
  {
  }
}
