/** A whole tree together with the page that records its root, and every state an insert or delete
    passes through in the log. */
module TreeTop {
  import opened Pages
  import opened Cells
  import opened Trees
  import opened TreeUpdate
  import opened TreeStages
  import opened TreeScan
  import opened TreeDelete

  /** Page 0 records the root: a private metadata page, or one slot of the catalog page. */
  const ANCHOR: PageId := 0

  predicate AnchorOk(page: Page, slot: Option<nat>) {
    match slot
    case None => page.MetaPage?
    case Some(i) => page.CatalogPage? && i < |page.tables|
  }

  function RootOf(page: Page, slot: Option<nat>): PageId
    requires AnchorOk(page, slot)
  {
    match slot
    case None => page.root
    case Some(i) => page.tables[i].root
  }

  function SetRoot(page: Page, slot: Option<nat>, root: PageId): Page
    requires AnchorOk(page, slot)
  {
    match slot
    case None => MetaPage(root)
    case Some(i) => CatalogPage(page.tables[i := page.tables[i].(root := root)])
  }

  /** The store holds `t` under the recorded root, with every page used once. */
  ghost predicate StoresTree(s: Store, slot: Option<nat>, t: Tree) {
    && ANCHOR in s && AnchorOk(s[ANCHOR], slot) && RootOf(s[ANCHOR], slot) == RootId(t)
    && Rep(s, t, INVALID_PAGE_ID)
    && Distinct(t)
    && ANCHOR !in Ids(t) && Below(t, INVALID_PAGE_ID)
  }

  /** The tree under the recorded root is `t`, and its keys are in order. */
  ghost predicate HoldsTree(s: Store, slot: Option<nat>, t: Tree) {
    StoresTree(s, slot, t) && Ordered(t, KEY_MIN, KEY_MAX + 1)
  }

  /** The store holds some tree with the given entries. */
  ghost predicate HoldsMap(s: Store, slot: Option<nat>, m: map<Key, Bytes>) {
    exists t :: HoldsTree(s, slot, t) && ToMap(Contents(t)) == m
  }

  /** A tree between operations: no half-done split, equal leaf depth `h`, fanout within bounds. */
  ghost predicate Settled(s: Store, slot: Option<nat>, t: Tree, h: nat, free: PageId) {
    HoldsTree(s, slot, t) && Balanced(t, h, 1) && Below(t, free) && ANCHOR < free
  }

  /** An insert of this key meets no half-done split that hides the place it belongs to. */
  ghost predicate Ready(s: Store, slot: Option<nat>, t: Tree, free: PageId, key: Key) {
    HoldsTree(s, slot, t) && Open(t, key) && Below(t, free) && ANCHOR < free
  }

  lemma SettledReady(s: Store, slot: Option<nat>, t: Tree, h: nat, free: PageId, key: Key)
    requires Settled(s, slot, t, h, free)
    ensures Ready(s, slot, t, free, key)
  {
    BalancedOpen(t, h, 1, key);
  }

  /** A root that split gets a new root above it, written first and recorded last. */
  function WithRoot(out: Outcome, slot: Option<nat>, anchor: Page): (all: Outcome)
    requires out.split.Some? && SplitsInHalf(out) && AnchorOk(anchor, slot)
  {
    var keys, kids := [out.split.value], [out.tree.left, out.tree.right];
    Outcome(Node(out.next, keys, kids),
            out.writes + [Image(out.next, NodePage(keys, kids)), Image(ANCHOR, SetRoot(anchor, slot, out.next))],
            out.next + 1, None)
  }

  /** Insert at the root. */
  function InsertTop(t: Tree, key: Key, value: Bytes, free: PageId, slot: Option<nat>, anchor: Page): Outcome
    requires AnchorOk(anchor, slot)
  {
    var out := InsertInto(t, key, value, free, INVALID_PAGE_ID);
    if out.split.Some? then WithRoot(out, slot, anchor) else out
  }

  function HeightAfter(t: Tree, h: nat, key: Key, value: Bytes, free: PageId): nat {
    if InsertInto(t, key, value, free, INVALID_PAGE_ID).split.Some? then h + 1 else h
  }

  /** The tree in the log after the first `k` images of an insert. */
  function StageTop(t: Tree, key: Key, value: Bytes, free: PageId, k: nat): Tree {
    var out := InsertInto(t, key, value, free, INVALID_PAGE_ID);
    if k <= |out.writes| + 1 || out.split.None? then
      Stage(t, key, value, free, INVALID_PAGE_ID, if k <= |out.writes| then k else |out.writes|)
    else Node(out.next, [out.split.value], [out.tree.left, out.tree.right])
  }

  /** A new root over the two parts of the old one. */
  lemma {:induction false} NewRoot(s: Store, half: Tree, sep: Key, top: PageId, lo: int, hi: int)
    requires half.Half? && half.sep == sep && Rep(s, half, INVALID_PAGE_ID) && Distinct(half) && top !in Ids(half)
    ensures var t := Node(top, [sep], [half.left, half.right]);
            && Rep(s[top := NodePage(t.keys, t.kids)], t, INVALID_PAGE_ID)
            && Distinct(t) && Ids(t) == Ids(half) + {top}
            && (Ordered(half, lo, hi) ==> Ordered(t, lo, hi))
            && Contents(t) == Contents(half)
  {
    var t := Node(top, [sep], [half.left, half.right]);
    var s' := s[top := NodePage(t.keys, t.kids)];
    RepFrame(s, s', half, INVALID_PAGE_ID);
    assert NextOf(t.kids, 0, INVALID_PAGE_ID) == FirstLeaf(half.right);
    assert [half.left, half.right][1..] == [half.right];
    assert ContentsAll([half.right]) == Contents(half.right) by {
      assert [half.right][1..] == [];
    }
    assert t.kids[0] == half.left && t.kids[1] == half.right;
    assert Ids(t) == Ids(half) + {top};
  }

  /** The stages below the root keep the recorded root valid. */
  lemma {:induction false} StageStored(s: Store, slot: Option<nat>, t: Tree, free: PageId, key: Key, value: Bytes, k: nat)
    requires StoresTree(s, slot, t) && Below(t, free) && ANCHOR < free
    requires var out := InsertInto(t, key, value, free, INVALID_PAGE_ID);
             k <= |out.writes| && out.next <= INVALID_PAGE_ID
    ensures var out := InsertInto(t, key, value, free, INVALID_PAGE_ID);
            StoresTree(Apply(s, out.writes[..k]), slot, Stage(t, key, value, free, INVALID_PAGE_ID, k))
  {
    hide InsertInto, Stage, Apply, Rep, Distinct, Ids;
    var out := InsertInto(t, key, value, free, INVALID_PAGE_ID);
    StageRep(s, t, key, value, free, INVALID_PAGE_ID, k);
    StageGrown(t, key, value, free, INVALID_PAGE_ID, k);
    InsertGrown(t, key, value, free, INVALID_PAGE_ID);
    ApplyFrame(s, out.writes[..k], ANCHOR);
    assert forall r <- out.writes[..k] :: r in out.writes;
  }

  /** Stages of the last two images of a root split. */
  lemma {:induction false} RootStored(s: Store, slot: Option<nat>, half: Tree, sep: Key, top: PageId)
    requires half.Half? && half.sep == sep && StoresTree(s, slot, half) && top !in Ids(half) && ANCHOR < top < INVALID_PAGE_ID
    ensures var r := Image(top, NodePage([sep], [half.left, half.right]));
            var a := Image(ANCHOR, SetRoot(s[ANCHOR], slot, top));
            && StoresTree(Apply(s, [r]), slot, half)
            && StoresTree(Apply(s, [r, a]), slot, Node(top, [sep], [half.left, half.right]))
  {
    var r := Image(top, NodePage([sep], [half.left, half.right]));
    var a := Image(ANCHOR, SetRoot(s[ANCHOR], slot, top));
    ApplyOne(s, r);
    ApplyTwo(s, r, a);
    RepFrame(s, s[top := r.page], half, INVALID_PAGE_ID);
    NewRoot(s, half, sep, top, KEY_MIN, KEY_MAX + 1);
    RepFrame(s[top := r.page], s[top := r.page][ANCHOR := a.page], Node(top, [sep], [half.left, half.right]), INVALID_PAGE_ID);
  }

  lemma {:induction false} LastImages(s: Store, slot: Option<nat>, out: Outcome, all: Outcome, free: PageId, t: Tree, k: nat)
    requires ANCHOR in s && AnchorOk(s[ANCHOR], slot) && ANCHOR < free <= out.next < INVALID_PAGE_ID
    requires out.split.Some? && SplitsInHalf(out) && StoresTree(Apply(s, out.writes), slot, out.tree)
    requires Grown(out.tree, t, free, out.next) && Below(t, free)
    requires forall r <- out.writes :: r.id != ANCHOR
    requires all == WithRoot(out, slot, s[ANCHOR])
    requires |out.writes| < k <= |all.writes|
    ensures StoresTree(Apply(s, all.writes[..k]), slot, if k == |all.writes| then all.tree else out.tree)
    ensures Contents(all.tree) == Contents(out.tree)
    ensures Ordered(out.tree, KEY_MIN, KEY_MAX + 1) ==> Ordered(all.tree, KEY_MIN, KEY_MAX + 1)
  {
    var s1 := Apply(s, out.writes);
    var half := out.tree;
    ApplyFrame(s, out.writes, ANCHOR);
    NewRoot(s1, half, out.split.value, out.next, KEY_MIN, KEY_MAX + 1);
    RootStored(s1, slot, half, out.split.value, out.next);
    var r := Image(out.next, NodePage([out.split.value], [half.left, half.right]));
    var a := Image(ANCHOR, SetRoot(s[ANCHOR], slot, out.next));
    if k == |all.writes| {
      assert all.writes[..k] == out.writes + [r, a];
      ApplyAppend(s, out.writes, [r, a]);
    } else {
      assert all.writes[..k] == out.writes + [r];
      ApplyAppend(s, out.writes, [r]);
    }
  }

  /** After any prefix of an insert's images the store holds the stage tree; the new root changes neither its contents
      nor their order. */
  lemma {:induction false} TopStored(s: Store, slot: Option<nat>, t: Tree, free: PageId, key: Key, value: Bytes, k: nat)
    requires StoresTree(s, slot, t) && Below(t, free) && ANCHOR < free
    requires var out := InsertTop(t, key, value, free, slot, s[ANCHOR]);
             k <= |out.writes| && out.next <= INVALID_PAGE_ID
    ensures var out := InsertInto(t, key, value, free, INVALID_PAGE_ID);
            var below := Stage(t, key, value, free, INVALID_PAGE_ID, if k <= |out.writes| then k else |out.writes|);
            var stage := StageTop(t, key, value, free, k);
            && StoresTree(Apply(s, InsertTop(t, key, value, free, slot, s[ANCHOR]).writes[..k]), slot, stage)
            && Contents(stage) == Contents(below)
            && (Ordered(below, KEY_MIN, KEY_MAX + 1) ==> Ordered(stage, KEY_MIN, KEY_MAX + 1))
  {
    hide InsertInto, Stage, Apply, Rep, Ordered, Distinct, Ids, Contents, NodePage, SetRoot;
    var out := InsertInto(t, key, value, free, INVALID_PAGE_ID);
    var all := InsertTop(t, key, value, free, slot, s[ANCHOR]);
    var n := |out.writes|;
    InsertGrown(t, key, value, free, INVALID_PAGE_ID);
    StageStored(s, slot, t, free, key, value, if k <= n then k else n);
    if k <= n {
      assert all.writes[..k] == out.writes[..k];
    } else {
      StageLast(t, key, value, free, INVALID_PAGE_ID);
      assert out.writes[..n] == out.writes;
      LastImages(s, slot, out, all, free, t, k);
    }
  }

  /** Crash atomicity: after any prefix of an insert's images the store holds a tree whose contents are all of
      the old ones or all of the new ones. */
  lemma {:induction false} InsertStages(s: Store, slot: Option<nat>, t: Tree, free: PageId, key: Key, value: Bytes, k: nat)
    requires Ready(s, slot, t, free, key)
    requires var out := InsertTop(t, key, value, free, slot, s[ANCHOR]);
             k <= |out.writes| && out.next <= INVALID_PAGE_ID
    ensures var out := InsertTop(t, key, value, free, slot, s[ANCHOR]);
            var stage := StageTop(t, key, value, free, k);
            && HoldsTree(Apply(s, out.writes[..k]), slot, stage)
            && Contents(stage) == if k < CommitPoint(t, key, value, free, INVALID_PAGE_ID) then Contents(t) else Put(Contents(t), key, value)
  {
    hide InsertInto, InsertTop, Stage, StageTop, Apply, Rep, Ordered, Distinct, Ids, Open, Contents, Put, CommitPoint;
    var n := |InsertInto(t, key, value, free, INVALID_PAGE_ID).writes|;
    var j := if k <= n then k else n;
    TopStored(s, slot, t, free, key, value, k);
    StageOrdered(t, key, value, free, INVALID_PAGE_ID, j, KEY_MIN, KEY_MAX + 1);
    StageContents(t, key, value, free, INVALID_PAGE_ID, j, KEY_MIN, KEY_MAX + 1);
    CommitPointBound(t, key, value, free, INVALID_PAGE_ID);
  }

  lemma StageTopLast(t: Tree, key: Key, value: Bytes, free: PageId, slot: Option<nat>, anchor: Page)
    requires AnchorOk(anchor, slot)
    ensures var all := InsertTop(t, key, value, free, slot, anchor);
            StageTop(t, key, value, free, |all.writes|) == all.tree
  {
    StageLast(t, key, value, free, INVALID_PAGE_ID);
  }

  /** Which pages an insert writes, and which its result uses. */
  lemma {:induction false} InsertTopPages(t: Tree, key: Key, value: Bytes, free: PageId, slot: Option<nat>, anchor: Page)
    requires AnchorOk(anchor, slot) && Distinct(t) && Below(t, free)
    ensures var all := InsertTop(t, key, value, free, slot, anchor);
            && free <= all.next && Below(all.tree, all.next)
            && forall r <- all.writes :: r.id == ANCHOR || r.id in Ids(t) || free <= r.id < all.next
  {
    hide InsertInto, Distinct, Ids, NodePage;
    InsertGrown(t, key, value, free, INVALID_PAGE_ID);
    var out := InsertInto(t, key, value, free, INVALID_PAGE_ID);
    if out.split.Some? {
      RootBelow(out.tree, out.split.value, out.next);
    }
  }

  lemma RootBelow(half: Tree, sep: Key, top: PageId)
    requires half.Half? && Below(half, top)
    ensures Below(Node(top, [sep], [half.left, half.right]), top + 1)
  {
    var t := Node(top, [sep], [half.left, half.right]);
    assert t.kids[0] == half.left && t.kids[1] == half.right;
    assert Ids(half) == Ids(half.left) + Ids(half.right);
  }

  lemma {:induction false} InsertTopBalanced(t: Tree, h: nat, key: Key, value: Bytes, free: PageId, slot: Option<nat>, anchor: Page)
    requires AnchorOk(anchor, slot) && Balanced(t, h, 1)
    ensures Balanced(InsertTop(t, key, value, free, slot, anchor).tree, HeightAfter(t, h, key, value, free), 1)
  {
    hide InsertInto, Balanced, NodePage;
    InsertBalanced(t, h, 1, key, value, free, INVALID_PAGE_ID);
    var out := InsertInto(t, key, value, free, INVALID_PAGE_ID);
    if out.split.Some? {
      RootOverHalf(out.tree, out.split.value, h, out.next);
    }
  }

  lemma {:induction false} RootOverHalf(half: Tree, sep: Key, h: nat, top: PageId)
    requires half.Half? && Balanced(half.left, h, 2) && Balanced(half.right, h, 2)
    ensures Balanced(Node(top, [sep], [half.left, half.right]), h + 1, 1)
  {
    var t := Node(top, [sep], [half.left, half.right]);
    assert t.kids[0] == half.left && t.kids[1] == half.right;
  }

  lemma CommitBeforeEnd(t: Tree, key: Key, value: Bytes, free: PageId, slot: Option<nat>, anchor: Page)
    requires AnchorOk(anchor, slot) && Open(t, key)
    ensures CommitPoint(t, key, value, free, INVALID_PAGE_ID) <= |InsertTop(t, key, value, free, slot, anchor).writes|
  {
    CommitPointBound(t, key, value, free, INVALID_PAGE_ID);
  }

  /** Whatever part of an insert reached the log, even with unchanged images logged again in between, a scan
      sees the map from before the insert or the map from after it. */
  lemma {:induction false} InsertCrash(s: Store, slot: Option<nat>, t: Tree, free: PageId, key: Key, value: Bytes, now: Store)
    requires Ready(s, slot, t, free, key)
    requires InsertTop(t, key, value, free, slot, s[ANCHOR]).next <= INVALID_PAGE_ID
    requires Visits(s, InsertTop(t, key, value, free, slot, s[ANCHOR]).writes, now)
    ensures HoldsMap(now, slot, ToMap(Contents(t))) || HoldsMap(now, slot, ToMap(Contents(t))[key := value])
  {
    hide InsertInto, InsertTop, StageTop, Apply, Rep, Ordered, Distinct, Ids, Open, Put, CommitPoint, ToMap, Contents;
    var writes := InsertTop(t, key, value, free, slot, s[ANCHOR]).writes;
    var k :| 0 <= k <= |writes| && now == Apply(s, writes[..k]);
    InsertStages(s, slot, t, free, key, value, k);
    OrderedContents(t, KEY_MIN, KEY_MAX + 1);
    PutMap(Contents(t), key, value);
    assert HoldsTree(now, slot, StageTop(t, key, value, free, k));
  }

  /** A completed insert leaves a tree with exactly one entry added or replaced. */
  lemma {:induction false} InsertHolds(s: Store, slot: Option<nat>, t: Tree, free: PageId, key: Key, value: Bytes)
    requires Ready(s, slot, t, free, key)
    requires InsertTop(t, key, value, free, slot, s[ANCHOR]).next <= INVALID_PAGE_ID
    ensures var all := InsertTop(t, key, value, free, slot, s[ANCHOR]);
            HoldsTree(Apply(s, all.writes), slot, all.tree) && ToMap(Contents(all.tree)) == ToMap(Contents(t))[key := value]
  {
    hide InsertInto, InsertTop, StageTop, Apply, Rep, Ordered, Distinct, Ids, Open, Put, CommitPoint, ToMap, Contents;
    var all := InsertTop(t, key, value, free, slot, s[ANCHOR]);
    InsertStages(s, slot, t, free, key, value, |all.writes|);
    assert all.writes[..|all.writes|] == all.writes;
    StageTopLast(t, key, value, free, slot, s[ANCHOR]);
    CommitBeforeEnd(t, key, value, free, slot, s[ANCHOR]);
    OrderedContents(t, KEY_MIN, KEY_MAX + 1);
    PutMap(Contents(t), key, value);
  }

  /** A completed insert leaves a settled tree with exactly one entry added or replaced. */
  lemma {:induction false} InsertSettled(s: Store, slot: Option<nat>, t: Tree, h: nat, free: PageId, key: Key, value: Bytes)
    requires Settled(s, slot, t, h, free)
    requires InsertTop(t, key, value, free, slot, s[ANCHOR]).next <= INVALID_PAGE_ID
    ensures var all := InsertTop(t, key, value, free, slot, s[ANCHOR]);
            && Settled(Apply(s, all.writes), slot, all.tree, HeightAfter(t, h, key, value, free), all.next)
            && ToMap(Contents(all.tree)) == ToMap(Contents(t))[key := value]
  {
    hide InsertInto, InsertTop, Apply, Rep, Ordered, Distinct, Ids, Balanced, Contents, ToMap, HeightAfter;
    SettledReady(s, slot, t, h, free, key);
    InsertHolds(s, slot, t, free, key, value);
    InsertTopBalanced(t, h, key, value, free, slot, s[ANCHOR]);
    InsertTopPages(t, key, value, free, slot, s[ANCHOR]);
  }

  /** A completed delete leaves a tree without the key, unless a half-done split hides it; it writes one page if it
      found the key, else none. */
  lemma {:induction false} DeleteHolds(s: Store, slot: Option<nat>, t: Tree, free: PageId, key: Key)
    requires HoldsTree(s, slot, t) && Below(t, free)
    ensures var out := DeleteFrom(t, key, INVALID_PAGE_ID);
            && HoldsTree(Apply(s, out.writes), slot, out.tree) && Below(out.tree, free)
            && ToMap(Contents(out.tree)) == ToMap(Contents(t)) - (if HasKey(Hidden(t), key) then {} else {key})
            && |out.writes| == (if key in ToMap(Contents(t)) && !HasKey(Hidden(t), key) then 1 else 0)
            && RootId(out.tree) == RootId(t)
            && forall r <- out.writes :: r.id in Ids(t)
  {
    hide DeleteFrom, Apply, Rep, Ordered, Distinct, Ids, Contents, Del, ToMap, Hidden, HasKey;
    var out := DeleteFrom(t, key, INVALID_PAGE_ID);
    DeleteLength(t, key, INVALID_PAGE_ID);
    DeleteContents(t, key, INVALID_PAGE_ID, KEY_MIN, KEY_MAX + 1);
    DeleteRep(s, t, key, INVALID_PAGE_ID, free);
    OrderedContents(t, KEY_MIN, KEY_MAX + 1);
    DelMap(Contents(t), key);
    LookupMap(Contents(t), key);
    LookupKey(Contents(t), key);
    ApplyFrame(s, out.writes, ANCHOR);
  }

  lemma {:induction false} DeleteSettled(s: Store, slot: Option<nat>, t: Tree, h: nat, free: PageId, key: Key)
    requires Settled(s, slot, t, h, free)
    ensures var out := DeleteFrom(t, key, INVALID_PAGE_ID);
            && Settled(Apply(s, out.writes), slot, out.tree, h, free)
            && ToMap(Contents(out.tree)) == ToMap(Contents(t)) - {key}
            && |out.writes| == (if key in ToMap(Contents(t)) then 1 else 0)
            && RootId(out.tree) == RootId(t)
            && forall r <- out.writes :: r.id in Ids(t)
  {
    hide DeleteFrom, Apply, Rep, Ordered, Distinct, Ids, Balanced, Contents, ToMap, Hidden;
    DeleteHolds(s, slot, t, free, key);
    BalancedHidden(t, h, 1);
    DeleteBalanced(t, h, 1, key, INVALID_PAGE_ID);
  }

  lemma {:induction false} DeleteCrash(s: Store, slot: Option<nat>, t: Tree, free: PageId, key: Key, now: Store)
    requires HoldsTree(s, slot, t) && Below(t, free)
    requires Visits(s, DeleteFrom(t, key, INVALID_PAGE_ID).writes, now)
    ensures HoldsMap(now, slot, ToMap(Contents(t))) || (!HasKey(Hidden(t), key) && HoldsMap(now, slot, ToMap(Contents(t)) - {key}))
  {
    hide DeleteFrom, Apply, HoldsTree, ToMap, Contents, Hidden, HasKey;
    var out := DeleteFrom(t, key, INVALID_PAGE_ID);
    var k :| 0 <= k <= |out.writes| && now == Apply(s, out.writes[..k]);
    DeleteHolds(s, slot, t, free, key);
    if k == |out.writes| {
      assert out.writes[..k] == out.writes;
      assert HoldsTree(now, slot, out.tree);
      if HasKey(Hidden(t), key) {
        assert ToMap(Contents(t)) - {} == ToMap(Contents(t));
      }
    } else {
      assert out.writes[..k] == [];
      ApplyEmpty(s);
      assert HoldsTree(now, slot, t);
    }
  }

  lemma ApplyEmpty(s: Store)
    ensures Apply(s, []) == s
  {
  }
}
