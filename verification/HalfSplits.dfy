/** Writing to a tree that a crash left in the middle of a split: which inserts keep the map, and which do not. */
module HalfSplits {
  import opened Pages
  import opened Cells
  import opened Trees
  import opened TreeUpdate
  import opened TreeStages
  import opened TreeScan
  import opened TreeDelete
  import opened TreeTop
  import opened LogClosed

  // ---------- a store holds one map ----------

  lemma {:induction false} SameFirstLeaf(s: Store, t: Tree, next: PageId, u: Tree, next': PageId)
    requires Rep(s, t, next) && Rep(s, u, next') && RootId(t) == RootId(u)
    ensures FirstLeaf(t) == FirstLeaf(u)
    decreases t, u
  {
    if t.Half? {
      SameFirstLeaf(s, t.left, FirstLeaf(t.right), u, next');
    } else if u.Half? {
      SameFirstLeaf(s, t, next, u.left, FirstLeaf(u.right));
    } else if t.Node? {
      SameFirstLeaf(s, t.kids[0], NextOf(t.kids, 0, next), u.kids[0], NextOf(u.kids, 0, next'));
    }
  }

  /** The leaves are pages of the tree, each on a page of its own. */
  lemma {:induction false} LeavesApart(s: Store, t: Tree, next: PageId)
    requires Rep(s, t, next) && Distinct(t)
    ensures Apart(Leaves(t)) && forall l <- Leaves(t) :: l.Leaf? && l.id in Ids(t)
    decreases t, 1
  {
    match t
    case Leaf(_, _) =>
    case Node(_, _, kids) =>
      assert kids[0..] == kids;
      LeavesApartKids(s, t, next, 0);
    case Half(left, _, right) =>
      LeavesApart(s, left, FirstLeaf(right));
      LeavesApart(s, right, next);
      assert Ids(t) == Ids(left) + Ids(right);
      ApartAppend(Leaves(left), Leaves(right), Ids(left), Ids(right));
  }

  ghost predicate Apart(leaves: seq<Tree>) {
    forall i, j :: 0 <= i < j < |leaves| ==> RootId(leaves[i]) != RootId(leaves[j])
  }

  lemma ApartAppend(a: seq<Tree>, b: seq<Tree>, ids: set<PageId>, ids': set<PageId>)
    requires Apart(a) && Apart(b) && ids !! ids'
    requires (forall l <- a :: RootId(l) in ids) && forall l <- b :: RootId(l) in ids'
    ensures Apart(a + b)
  {
    hide RootId;
    forall i, j | 0 <= i < j < |a + b|
      ensures RootId((a + b)[i]) != RootId((a + b)[j])
    {
      assert i < |a| ==> (a + b)[i] in a;
      assert j >= |a| ==> (a + b)[j] in b;
    }
  }

  lemma {:induction false} LeavesApartKids(s: Store, t: Tree, next: PageId, i: nat)
    requires t.Node? && Rep(s, t, next) && Distinct(t) && i <= |t.kids|
    ensures Apart(LeavesAll(t.kids[i..])) && forall l <- LeavesAll(t.kids[i..]) :: l.Leaf? && l.id in IdsFrom(t.kids, i)
    ensures IdsFrom(t.kids, i) <= Ids(t)
    decreases t, 0, |t.kids| - i
  {
    var kids := t.kids;
    if i < |kids| {
      LeavesApart(s, kids[i], NextOf(kids, i, next));
      LeavesApartKids(s, t, next, i + 1);
      assert kids[i..][1..] == kids[i + 1..];
      hide Rep, LeavesAll, Leaves;
      ApartAppend(Leaves(kids[i]), LeavesAll(kids[i + 1..]), Ids(kids[i]), IdsFrom(kids, i + 1));
      assert LeavesAll(kids[i..]) == Leaves(kids[i]) + LeavesAll(kids[i + 1..]) by {
        LeavesFirst(kids, i);
      }
    }
  }

  lemma LeavesFirst(kids: seq<Tree>, i: nat)
    requires i < |kids|
    ensures LeavesAll(kids[i..]) == Leaves(kids[i]) + LeavesAll(kids[i + 1..])
  {
    assert kids[i..][1..] == kids[i + 1..];
  }

  ghost function IdsFrom(kids: seq<Tree>, i: nat): set<PageId> {
    set j, p | i <= j < |kids| && p in Ids(kids[j]) :: p
  }

  lemma ChainTail(s: Store, leaves: seq<Tree>, next: PageId)
    requires Chain(s, leaves, next) && leaves != []
    ensures Chain(s, leaves[1..], next)
  {
    var rest := leaves[1..];
    forall i | 0 <= i < |rest|
      ensures rest[i].Leaf? && Rep(s, rest[i], NextOf(rest, i, next))
    {
      assert rest[i] == leaves[i + 1] && NextOf(rest, i, next) == NextOf(leaves, i + 1, next);
    }
  }

  lemma ChainHeads(s: Store, a: seq<Tree>, b: seq<Tree>)
    requires Chain(s, a, INVALID_PAGE_ID) && Chain(s, b, INVALID_PAGE_ID) && a != [] && b != [] && RootId(a[0]) == RootId(b[0])
    requires (forall l <- a :: RootId(l) < INVALID_PAGE_ID) && forall l <- b :: RootId(l) < INVALID_PAGE_ID
    ensures a[0] == b[0] && (|a| == 1 <==> |b| == 1) && (|a| > 1 ==> RootId(a[1]) == RootId(b[1]))
  {
    assert a[0].Leaf? && Rep(s, a[0], NextOf(a, 0, INVALID_PAGE_ID)) && b[0].Leaf? && Rep(s, b[0], NextOf(b, 0, INVALID_PAGE_ID));
    assert |a| > 1 ==> a[1] in a && a[1].Leaf?;
    assert |b| > 1 ==> b[1] in b && b[1].Leaf?;
  }

  /** The chain that starts at one page is fixed by the pages. */
  lemma {:induction false} ChainsAgree(s: Store, a: seq<Tree>, b: seq<Tree>)
    requires Chain(s, a, INVALID_PAGE_ID) && Chain(s, b, INVALID_PAGE_ID) && a != [] && b != [] && RootId(a[0]) == RootId(b[0])
    requires (forall l <- a :: RootId(l) < INVALID_PAGE_ID) && forall l <- b :: RootId(l) < INVALID_PAGE_ID
    ensures a == b
  {
    hide Rep, Chain, RootId;
    ChainHeads(s, a, b);
    if |a| > 1 {
      ChainTail(s, a, INVALID_PAGE_ID);
      ChainTail(s, b, INVALID_PAGE_ID);
      ChainsAgree(s, a[1..], b[1..]);
    }
    assert a == [a[0]] + a[1..] && b == [b[0]] + b[1..];
  }

  /** Whatever tree is read into the pages of a store, its cells are the same. */
  lemma StoredContents(s: Store, slot: Option<nat>, t: Tree, u: Tree)
    requires StoresTree(s, slot, t) && StoresTree(s, slot, u)
    ensures Contents(t) == Contents(u)
  {
    RepChain(s, t, INVALID_PAGE_ID);
    RepChain(s, u, INVALID_PAGE_ID);
    LeavesApart(s, t, INVALID_PAGE_ID);
    LeavesApart(s, u, INVALID_PAGE_ID);
    SameFirstLeaf(s, t, INVALID_PAGE_ID, u, INVALID_PAGE_ID);
    hide Rep, Leaves, Contents, ContentsAll;
    ChainsAgree(s, Leaves(t), Leaves(u));
    LeavesContents(t);
    LeavesContents(u);
  }

  /** A store holds at most one map. */
  lemma MapUnique(s: Store, slot: Option<nat>, m: map<Key, Bytes>, m': map<Key, Bytes>)
    requires HoldsMap(s, slot, m) && HoldsMap(s, slot, m')
    ensures m == m'
  {
    hide Rep, Distinct, Ids, Ordered, Contents, ToMap;
    var t :| HoldsTree(s, slot, t) && ToMap(Contents(t)) == m;
    var u :| HoldsTree(s, slot, u) && ToMap(Contents(u)) == m';
    StoredContents(s, slot, t, u);
  }

  // ---------- an insert depends on the pages only ----------

  /** The same images, next free page and promoted separator. */
  ghost predicate SameWork(a: Outcome, b: Outcome)
    requires SplitsInHalf(a) && SplitsInHalf(b)
  {
    && a.writes == b.writes && a.next == b.next && a.split == b.split
    && RootId(a.tree) == RootId(b.tree)
    && (a.split.Some? ==> RootId(a.tree.right) == RootId(b.tree.right))
  }

  ghost predicate SameRoots(kids: seq<Tree>, kids': seq<Tree>) {
    |kids| == |kids'| && forall j :: 0 <= j < |kids| ==> RootId(kids[j]) == RootId(kids'[j])
  }

  lemma NodePageReads(keys: seq<Key>, kids: seq<Tree>, kids': seq<Tree>)
    requires SameRoots(kids, kids') && |kids| == |keys| + 1
    ensures NodePage(keys, kids) == NodePage(keys, kids')
  {
    assert Seps(keys, kids) == Seps(keys, kids');
  }

  lemma NodeOutcomeReads(id: PageId, keys: seq<Key>, kids: seq<Tree>, kids': seq<Tree>, free: PageId)
    requires SameRoots(kids, kids') && |kids| == |keys| + 1
    ensures SameWork(NodeOutcome(id, keys, kids, free), NodeOutcome(id, keys, kids', free))
  {
    NodePageReads(keys, kids, kids');
    if |keys| > INTERNAL_MAX_KEYS {
      var m := |keys| / 2;
      NodePageReads(keys[..m], kids[..m + 1], kids'[..m + 1]);
      NodePageReads(keys[m + 1..], kids[m + 1..], kids'[m + 1..]);
    }
  }

  lemma KidsWithReads(kids: seq<Tree>, kids': seq<Tree>, i: nat, half: Tree, half': Tree)
    requires SameRoots(kids, kids') && i < |kids| && half.Half? && half'.Half?
    requires RootId(half) == RootId(half') && RootId(half.right) == RootId(half'.right)
    ensures SameRoots(KidsWith(kids, i, half.left, half.right), KidsWith(kids', i, half'.left, half'.right))
  {
    var now, now' := KidsWith(kids, i, half.left, half.right), KidsWith(kids', i, half'.left, half'.right);
    forall j | 0 <= j < |now|
      ensures RootId(now[j]) == RootId(now'[j])
    {
      assert j < i ==> now[j] == kids[j] && now'[j] == kids'[j];
      assert j > i + 1 ==> now[j] == kids[j - 1] && now'[j] == kids'[j - 1];
    }
  }

  lemma SamePage(keys: seq<Key>, kids: seq<Tree>, keys': seq<Key>, kids': seq<Tree>)
    requires |kids| == |keys| + 1 && |kids'| == |keys'| + 1 && NodePage(keys, kids) == NodePage(keys', kids')
    ensures keys == keys' && SameRoots(kids, kids')
  {
    var seps, seps' := Seps(keys, kids), Seps(keys', kids');
    forall j | 0 <= j < |keys|
      ensures keys[j] == keys'[j]
    {
      assert seps[j] == seps'[j];
    }
    forall j | 0 <= j < |kids|
      ensures RootId(kids[j]) == RootId(kids'[j])
    {
      if j > 0 {
        assert seps[j - 1] == seps'[j - 1];
      }
    }
  }

  /** Two trees read into the same pages lead an insert to the same images. */
  lemma {:induction false} InsertReads(s: Store, t: Tree, next: PageId, u: Tree, next': PageId, key: Key, value: Bytes, free: PageId)
    requires Rep(s, t, next) && Rep(s, u, next') && RootId(t) == RootId(u)
    ensures SameWork(InsertInto(t, key, value, free, next), InsertInto(u, key, value, free, next'))
    decreases t, u
  {
    hide LeafOutcome, NodeOutcome, Absorbed, Put;
    if t.Half? {
      InsertReads(s, t.left, FirstLeaf(t.right), u, next', key, value, free);
    } else if u.Half? {
      InsertReads(s, t, next, u.left, FirstLeaf(u.right), key, value, free);
    } else if t.Node? {
      SamePage(t.keys, t.kids, u.keys, u.kids);
      var i := ChildIndex(t.keys, key);
      var n, n' := NextOf(t.kids, i, next), NextOf(u.kids, i, next');
      InsertReads(s, t.kids[i], n, u.kids[i], n', key, value, free);
      NodeWork(t, u, i, InsertInto(t.kids[i], key, value, free, n), InsertInto(u.kids[i], key, value, free, n'));
      hide Rep, InsertInto;
      InsertNodeIs(t, key, value, free, next);
      InsertNodeIs(u, key, value, free, next');
    }
  }

  lemma NodeWork(t: Tree, u: Tree, i: nat, below: Outcome, below': Outcome)
    requires t.Node? && u.Node? && t.id == u.id && t.keys == u.keys && SameRoots(t.kids, u.kids) && |t.kids| == |t.keys| + 1 && i < |t.kids|
    requires SplitsInHalf(below) && SplitsInHalf(below') && SameWork(below, below')
    ensures SameWork(Absorbed(t, i, below), Absorbed(u, i, below'))
  {
    if below.split.Some? {
      KidsWithReads(t.kids, u.kids, i, below.tree, below'.tree);
      NodeOutcomeReads(t.id, KeysWith(t.keys, i, below.split.value), KidsWith(t.kids, i, below.tree.left, below.tree.right),
                       KidsWith(u.kids, i, below'.tree.left, below'.tree.right), below.next);
    }
  }

  // ---------- out of order ----------

  /** Descent passes a half-done split whose hidden part holds a key at or below this one. */
  ghost predicate Passed(t: Tree, key: Key)
    decreases t
  {
    match t
    case Leaf(_, _) => false
    case Node(_, keys, kids) => |kids| == |keys| + 1 && Passed(kids[ChildIndex(keys, key)], key)
    case Half(left, _, right) => Passed(left, key) || exists c <- Contents(right) :: c.key <= key
  }

  lemma {:induction false} OpenNotPassed(t: Tree, key: Key, lo: int, hi: int)
    requires Ordered(t, lo, hi) && Open(t, key)
    ensures !Passed(t, key)
    decreases t
  {
    match t
    case Leaf(_, _) =>
    case Node(_, keys, kids) =>
      var i := ChildIndex(keys, key);
      OpenNotPassed(kids[i], key, Lo(keys, i, lo), Hi(keys, i, hi));
    case Half(left, sep, right) =>
      OpenNotPassed(left, key, lo, sep);
      OrderedContents(right, sep, hi);
  }

  lemma {:induction false} InsertHasKey(t: Tree, key: Key, value: Bytes, free: PageId, next: PageId, lo: int, hi: int)
    requires Ordered(t, lo, hi)
    ensures HasKey(Contents(InsertInto(t, key, value, free, next).tree), key)
    decreases t
  {
    hide LeafOutcome, NodeOutcome, Absorbed, Put;
    match t
    case Leaf(id, cells) =>
      PutMembers(cells, key, value);
      assert Cell(key, value) in Put(cells, key, value);
      LeafOutcomeContents(id, Put(cells, key, value), free, next);
    case Node(_, keys, kids) =>
      var i := ChildIndex(keys, key);
      InsertHasKey(kids[i], key, value, free, NextOf(kids, i, next), Lo(keys, i, lo), Hi(keys, i, hi));
      AbsorbedContents(t, i, InsertInto(kids[i], key, value, free, NextOf(kids, i, next)));
    case Half(left, sep, right) =>
      InsertHasKey(left, key, value, free, FirstLeaf(right), lo, sep);
      HalfContents(t, key, value, free, next);
  }

  lemma HalfContents(t: Tree, key: Key, value: Bytes, free: PageId, next: PageId)
    requires t.Half?
    ensures Contents(InsertInto(t, key, value, free, next).tree)
         == Contents(InsertInto(t.left, key, value, free, FirstLeaf(t.right)).tree) + Contents(t.right)
  {
    var below := InsertInto(t.left, key, value, free, FirstLeaf(t.right));
    if below.split.Some? {
      BesideContents(below.tree, t.sep, t.right);
    }
  }

  lemma SortedMiddle(a: seq<Cell>, b: seq<Cell>, c: seq<Cell>)
    requires Sorted(a + b + c)
    ensures Sorted(b)
  {
    assert forall i :: 0 <= i < |b| ==> b[i] == (a + b + c)[|a| + i];
  }

  lemma NotSorted(a: seq<Cell>, b: seq<Cell>, key: Key)
    requires HasKey(a, key) && exists c <- b :: c.key <= key
    ensures !Sorted(a + b)
  {
    var i :| 0 <= i < |a| && a[i].key == key;
    var j :| 0 <= j < |b| && b[j].key <= key;
    assert (a + b)[i] == a[i] && (a + b)[|a| + j] == b[j];
  }

  /** An insert that passes a smaller hidden key leaves the keys out of order. */
  lemma {:induction false} PassedUnsorted(t: Tree, key: Key, value: Bytes, free: PageId, next: PageId, lo: int, hi: int)
    requires Ordered(t, lo, hi) && Passed(t, key)
    ensures !Sorted(Contents(InsertInto(t, key, value, free, next).tree))
    decreases t
  {
    hide LeafOutcome, NodeOutcome, Absorbed, Sorted;
    match t
    case Node(_, keys, kids) =>
      var i := ChildIndex(keys, key);
      var below := InsertInto(kids[i], key, value, free, NextOf(kids, i, next));
      PassedUnsorted(kids[i], key, value, free, NextOf(kids, i, next), Lo(keys, i, lo), Hi(keys, i, hi));
      AbsorbedContents(t, i, below);
      if Sorted(Contents(InsertInto(t, key, value, free, next).tree)) {
        SortedMiddle(ContentsAll(kids[..i]), Contents(below.tree), ContentsAll(kids[i + 1..]));
      }
    case Half(left, sep, right) =>
      var below := InsertInto(left, key, value, free, FirstLeaf(right));
      HalfContents(t, key, value, free, next);
      if Passed(left, key) {
        PassedUnsorted(left, key, value, free, FirstLeaf(right), lo, sep);
        if Sorted(Contents(below.tree) + Contents(right)) {
          assert [] + Contents(below.tree) + Contents(right) == Contents(below.tree) + Contents(right);
          SortedMiddle([], Contents(below.tree), Contents(right));
        }
      } else {
        InsertHasKey(left, key, value, free, FirstLeaf(right), lo, sep);
        NotSorted(Contents(below.tree), Contents(right), key);
      }
  }

  // ---------- the same pages, read as another tree ----------

  function AfterLeaf(leaf: Tree, lo: int): int {
    if leaf.Leaf? && leaf.cells != [] then leaf.cells[|leaf.cells| - 1].key + 1 else lo
  }

  /** Leaves that no internal node names: each follows the one before it in the chain. */
  function Strung(leaves: seq<Tree>, lo: int): Tree
    requires leaves != []
  {
    if |leaves| == 1 then leaves[0]
    else Half(leaves[0], AfterLeaf(leaves[0], lo), Strung(leaves[1..], AfterLeaf(leaves[0], lo)))
  }

  lemma SortedParts(a: seq<Cell>, b: seq<Cell>)
    requires Sorted(a + b)
    ensures Sorted(a) && Sorted(b)
  {
    assert [] + a + b == a + b && a + b + [] == a + b;
    SortedMiddle([], a, b);
    SortedMiddle(a, b, []);
  }

  lemma LastCell(a: seq<Cell>, b: seq<Cell>)
    requires Sorted(a + b) && a != []
    ensures (forall c <- a :: c.key <= a[|a| - 1].key) && forall c <- b :: a[|a| - 1].key < c.key
  {
    var n := |a| - 1;
    assert (a + b)[n] == a[n];
    forall c | c in a
      ensures c.key <= a[n].key
    {
      var j :| 0 <= j < |a| && a[j] == c;
      assert (a + b)[j] == c;
    }
    forall c | c in b
      ensures a[n].key < c.key
    {
      var j :| 0 <= j < |b| && b[j] == c;
      assert (a + b)[|a| + j] == c;
    }
  }

  /** Sorted cells cut in two, with a bound in between. */
  lemma CutCells(a: seq<Cell>, b: seq<Cell>, lo: int, hi: int)
    requires Sorted(a + b) && Within(a + b, lo, hi) && lo <= hi
    ensures var mid := if a == [] then lo else a[|a| - 1].key + 1;
            lo <= mid <= hi && Sorted(a) && Within(a, lo, mid) && Sorted(b) && Within(b, mid, hi)
  {
    SortedParts(a, b);
    assert (forall c <- a :: c in a + b) && forall c <- b :: c in a + b;
    if a != [] {
      LastCell(a, b);
      hide Sorted;
      assert a[|a| - 1] in a;
    }
  }

  lemma {:induction false} StrungOrdered(leaves: seq<Tree>, lo: int, hi: int)
    requires leaves != [] && (forall l <- leaves :: l.Leaf?) && lo <= hi
    requires Sorted(ContentsAll(leaves)) && Within(ContentsAll(leaves), lo, hi)
    ensures Ordered(Strung(leaves, lo), lo, hi)
  {
    hide Sorted, Within;
    assert leaves[0] in leaves && forall l <- leaves[1..] :: l in leaves;
    CutCells(leaves[0].cells, ContentsAll(leaves[1..]), lo, hi);
    if |leaves| == 1 {
      assert leaves[0].cells + ContentsAll(leaves[1..]) == leaves[0].cells;
    } else {
      StrungOrdered(leaves[1..], AfterLeaf(leaves[0], lo), hi);
    }
  }

  lemma {:induction false} StrungRep(s: Store, leaves: seq<Tree>, lo: int, next: PageId)
    requires leaves != [] && Chain(s, leaves, next)
    ensures var t := Strung(leaves, lo);
            && Rep(s, t, next) && RootId(t) == RootId(leaves[0]) && FirstLeaf(t) == FirstLeaf(leaves[0])
            && Contents(t) == ContentsAll(leaves)
  {
    assert Rep(s, leaves[0], NextOf(leaves, 0, next));
    if |leaves| == 1 {
      assert leaves[1..] == [];
    } else {
      ChainTail(s, leaves, next);
      StrungRep(s, leaves[1..], AfterLeaf(leaves[0], lo), next);
    }
  }

  lemma {:induction false} StrungIds(leaves: seq<Tree>, lo: int, ids: set<PageId>)
    requires leaves != [] && Apart(leaves) && forall l <- leaves :: l.Leaf? && l.id in ids
    ensures Distinct(Strung(leaves, lo)) && Ids(Strung(leaves, lo)) <= ids
    ensures forall p <- Ids(Strung(leaves, lo)) :: exists l <- leaves :: l.id == p
  {
    assert leaves[0] in leaves;
    if |leaves| > 1 {
      var rest := leaves[1..];
      assert forall l <- rest :: l in leaves;
      StrungIds(rest, AfterLeaf(leaves[0], lo), ids);
      forall l | l in rest
        ensures l.id != leaves[0].id
      {
        var j :| 0 <= j < |rest| && rest[j] == l;
        assert leaves[j + 1] == l;
      }
    }
  }

  /** The pages of `t` with the hidden parts that `key` is above read as loose leaves, all bounded below by `key`. */
  function Unhidden(t: Tree, key: Key): Tree
    decreases t
  {
    match t
    case Leaf(_, _) => t
    case Node(id, keys, kids) =>
      var i := ChildIndex(keys, key);
      if i < |kids| then Node(id, keys, kids[i := Unhidden(kids[i], key)]) else t
    case Half(left, sep, right) =>
      if key < sep || Leaves(right) == [] then Half(Unhidden(left, key), sep, right)
      else Half(Unhidden(left, key), key + 1, Strung(Leaves(right), key + 1))
  }

  lemma {:induction false} OrderedWider(t: Tree, lo: int, hi: int, hi': int)
    requires Ordered(t, lo, hi) && hi <= hi'
    ensures Ordered(t, lo, hi')
    decreases t
  {
    match t
    case Leaf(_, _) =>
    case Node(_, keys, kids) =>
      var n := |keys|;
      OrderedWider(kids[n], Lo(keys, n, lo), Hi(keys, n, hi), Hi(keys, n, hi'));
    case Half(_, sep, right) =>
      OrderedWider(right, sep, hi, hi');
  }

  /** `u` is another reading of the pages of `t`, with the same cells, and open to `key`. */
  ghost predicate Rereads(s: Store, u: Tree, t: Tree, next: PageId, key: Key, lo: int, hi: int, free: PageId) {
    Grown(u, t, free, free) && Rep(s, u, next) && Ordered(u, lo, hi) && Open(u, key) && Contents(u) == Contents(t)
  }

  lemma {:induction false} UnhiddenRereads(s: Store, t: Tree, next: PageId, key: Key, lo: int, hi: int, free: PageId)
    requires Rep(s, t, next) && Distinct(t) && Below(t, free) && Ordered(t, lo, hi) && lo <= key < hi && !Passed(t, key)
    ensures Rereads(s, Unhidden(t, key), t, next, key, lo, hi, free)
    decreases t
  {
    match t
    case Leaf(_, _) =>
    case Node(_, keys, kids) =>
      var i := ChildIndex(keys, key);
      KidFacts(t, i, free);
      ChildBounds(keys, key, lo, hi);
      UnhiddenRereads(s, kids[i], NextOf(kids, i, next), key, Lo(keys, i, lo), Hi(keys, i, hi), free);
      KidRereads(s, t, i, Unhidden(kids[i], key), next, key, lo, hi, free);
    case Half(left, sep, right) =>
      HalfFacts(t, free);
      if key < sep {
        UnhiddenRereads(s, left, FirstLeaf(right), key, lo, sep, free);
        LeftGrown(t, Unhidden(left, key), free, free);
      } else {
        OrderedWider(left, lo, sep, key + 1);
        UnhiddenRereads(s, left, FirstLeaf(right), key, lo, key + 1, free);
        HalfRereads(s, t, Unhidden(left, key), next, key, lo, hi, free);
      }
  }

  lemma KidRereads(s: Store, t: Tree, i: nat, kid: Tree, next: PageId, key: Key, lo: int, hi: int, free: PageId)
    requires t.Node? && Rep(s, t, next) && Distinct(t) && Below(t, free) && Ordered(t, lo, hi) && i == ChildIndex(t.keys, key)
    requires Rereads(s, kid, t.kids[i], NextOf(t.kids, i, next), key, Lo(t.keys, i, lo), Hi(t.keys, i, hi), free)
    ensures Rereads(s, Node(t.id, t.keys, t.kids[i := kid]), t, next, key, lo, hi, free)
  {
    ReplaceKidGrown(t, i, kid, free, free);
    ReplaceKidRep(s, s, t, i, kid, next, free, free);
    ReplaceKidOrdered(t, i, kid, lo, hi);
    ContentsSplit(t.kids, i);
    ReplaceKidContents(t.kids, i, kid);
  }

  /** A part above `key`, read as loose leaves. */
  lemma StrungHolds(s: Store, t: Tree, next: PageId, key: Key, lo: int, hi: int)
    requires Rep(s, t, next) && Distinct(t) && Ordered(t, lo, hi) && key < hi && forall c <- Contents(t) :: key < c.key
    ensures Leaves(t) != []
    ensures var u := Strung(Leaves(t), key + 1);
            && Rep(s, u, next) && FirstLeaf(u) == FirstLeaf(t) && Contents(u) == Contents(t)
            && Distinct(u) && Ids(u) <= Ids(t) && Ordered(u, key + 1, hi)
  {
    RepChain(s, t, next);
    LeavesContents(t);
    LeavesApart(s, t, next);
    OrderedContents(t, lo, hi);
    assert Within(Contents(t), key + 1, hi);
    hide Rep, Leaves, Strung, Chain, Apart, Ordered, Distinct, Ids, Contents, ContentsAll, Sorted, Within;
    StrungRep(s, Leaves(t), key + 1, next);
    StrungIds(Leaves(t), key + 1, Ids(t));
    StrungOrdered(Leaves(t), key + 1, hi);
  }

  lemma HalfRereads(s: Store, t: Tree, left: Tree, next: PageId, key: Key, lo: int, hi: int, free: PageId)
    requires t.Half? && Rep(s, t, next) && Distinct(t) && Below(t, free) && Ordered(t, lo, hi) && lo <= key < hi && t.sep <= key
    requires forall c <- Contents(t.right) :: key < c.key
    requires Rereads(s, left, t.left, FirstLeaf(t.right), key, lo, key + 1, free)
    ensures Leaves(t.right) != []
    ensures Rereads(s, Half(left, key + 1, Strung(Leaves(t.right), key + 1)), t, next, key, lo, hi, free)
  {
    HalfFacts(t, free);
    StrungHolds(s, t.right, next, key, t.sep, hi);
    var right := Strung(Leaves(t.right), key + 1);
    hide Leaves, Strung;
    assert Ids(t) == Ids(t.left) + Ids(t.right);
    assert Ids(Half(left, key + 1, right)) == Ids(left) + Ids(right);
  }

  lemma UnhiddenReady(s: Store, slot: Option<nat>, t: Tree, free: PageId, key: Key)
    requires HoldsTree(s, slot, t) && Below(t, free) && ANCHOR < free && !Passed(t, key)
    ensures Ready(s, slot, Unhidden(t, key), free, key) && Contents(Unhidden(t, key)) == Contents(t)
  {
    hide Rep, Ordered, Distinct, Ids, Contents, Passed, Unhidden, RootId, FirstLeaf, Open;
    UnhiddenRereads(s, t, INVALID_PAGE_ID, key, KEY_MIN, KEY_MAX + 1, free);
  }

  lemma TopReads(s: Store, slot: Option<nat>, t: Tree, u: Tree, free: PageId, key: Key, value: Bytes)
    requires StoresTree(s, slot, t) && StoresTree(s, slot, u)
    ensures var a, b := InsertTop(t, key, value, free, slot, s[ANCHOR]), InsertTop(u, key, value, free, slot, s[ANCHOR]);
            a.writes == b.writes && a.next == b.next && RootId(a.tree) == RootId(b.tree)
    ensures forall h: nat :: HeightAfter(t, h, key, value, free) == HeightAfter(u, h, key, value, free)
  {
    hide Rep, Distinct, Ids;
    InsertReads(s, t, INVALID_PAGE_ID, u, INVALID_PAGE_ID, key, value, free);
    hide InsertInto;
    var a, b := InsertInto(t, key, value, free, INVALID_PAGE_ID), InsertInto(u, key, value, free, INVALID_PAGE_ID);
    if a.split.Some? {
      NodePageReads([a.split.value], [a.tree.left, a.tree.right], [b.tree.left, b.tree.right]);
    }
  }

  // ---------- exactly when ----------

  /** After an insert that passes a smaller hidden key the store holds no map at all: a scan would return keys out of order
      or twice. */
  lemma InsertLosesOrder(s: Store, slot: Option<nat>, t: Tree, free: PageId, key: Key, value: Bytes)
    requires HoldsTree(s, slot, t) && Below(t, free) && ANCHOR < free && Passed(t, key)
    requires InsertTop(t, key, value, free, slot, s[ANCHOR]).next <= INVALID_PAGE_ID
    ensures forall m :: !HoldsMap(Apply(s, InsertTop(t, key, value, free, slot, s[ANCHOR]).writes), slot, m)
  {
    hide Rep, Ordered, Distinct, Ids, Passed, Contents, ToMap, Apply, Sorted, InsertTop, InsertInto, Stage, StageTop;
    var all := InsertTop(t, key, value, free, slot, s[ANCHOR]);
    var now := Apply(s, all.writes);
    PassedUnsorted(t, key, value, free, INVALID_PAGE_ID, KEY_MIN, KEY_MAX + 1);
    TopStored(s, slot, t, free, key, value, |all.writes|);
    assert all.writes[..|all.writes|] == all.writes;
    StageTopLast(t, key, value, free, slot, s[ANCHOR]);
    StageLast(t, key, value, free, INVALID_PAGE_ID);
    TopLonger(t, key, value, free, slot, s[ANCHOR]);
    forall m
      ensures !HoldsMap(now, slot, m)
    {
      if HoldsMap(now, slot, m) {
        var u :| HoldsTree(now, slot, u) && ToMap(Contents(u)) == m;
        StoredContents(now, slot, all.tree, u);
        OrderedContents(u, KEY_MIN, KEY_MAX + 1);
      }
    }
  }

  lemma TopLonger(t: Tree, key: Key, value: Bytes, free: PageId, slot: Option<nat>, anchor: Page)
    requires AnchorOk(anchor, slot)
    ensures |InsertInto(t, key, value, free, INVALID_PAGE_ID).writes| <= |InsertTop(t, key, value, free, slot, anchor).writes|
  {
  }

  /** Exactly when an insert keeps the map of a tree that a crash left in the middle of a split: it must not pass, on its way
      down, a part that no parent names yet and that holds a key at or below the one inserted. */
  lemma InsertKeepsMap(s: Store, slot: Option<nat>, t: Tree, free: PageId, key: Key, value: Bytes)
    requires HoldsTree(s, slot, t) && Below(t, free) && ANCHOR < free
    requires InsertTop(t, key, value, free, slot, s[ANCHOR]).next <= INVALID_PAGE_ID
    ensures HoldsMap(Apply(s, InsertTop(t, key, value, free, slot, s[ANCHOR]).writes), slot, ToMap(Contents(t))[key := value])
            <==> !Passed(t, key)
  {
    hide Rep, Ordered, Distinct, Ids, Passed, Contents, ToMap, Apply, InsertTop;
    if Passed(t, key) {
      InsertLosesOrder(s, slot, t, free, key, value);
    } else {
      UnhiddenReady(s, slot, t, free, key);
      TopReads(s, slot, t, Unhidden(t, key), free, key, value);
      InsertHolds(s, slot, Unhidden(t, key), free, key, value);
    }
  }

  /** Such an insert is also atomic at every crash point. */
  lemma InsertKeepsCrash(s: Store, slot: Option<nat>, t: Tree, free: PageId, key: Key, value: Bytes, now: Store)
    requires HoldsTree(s, slot, t) && Below(t, free) && ANCHOR < free && !Passed(t, key)
    requires InsertTop(t, key, value, free, slot, s[ANCHOR]).next <= INVALID_PAGE_ID
    requires Visits(s, InsertTop(t, key, value, free, slot, s[ANCHOR]).writes, now)
    ensures HoldsMap(now, slot, ToMap(Contents(t))) || HoldsMap(now, slot, ToMap(Contents(t))[key := value])
  {
    hide Rep, Ordered, Distinct, Ids, Passed, Contents, ToMap, Apply, InsertTop, Visits, HoldsMap;
    UnhiddenReady(s, slot, t, free, key);
    TopReads(s, slot, t, Unhidden(t, key), free, key, value);
    InsertCrash(s, slot, Unhidden(t, key), free, key, value, now);
  }

  // ---------- the tree afterwards ----------

  /** The tree to read into the pages after an insert. */
  ghost function TreeAfter(t: Tree, key: Key, value: Bytes, free: PageId, slot: Option<nat>, anchor: Page): Tree
    requires AnchorOk(anchor, slot)
  {
    InsertTop(if Open(t, key) || Passed(t, key) then t else Unhidden(t, key), key, value, free, slot, anchor).tree
  }

  /** An insert leaves a tree that further inserts, lookups and scans can use. */
  lemma InsertLeaves(s: Store, slot: Option<nat>, t: Tree, h: nat, free: PageId, key: Key, value: Bytes)
    requires HoldsTree(s, slot, t) && Below(t, free) && ANCHOR < free && Fits(t, h)
    requires InsertTop(t, key, value, free, slot, s[ANCHOR]).next <= INVALID_PAGE_ID
    ensures var all := InsertTop(t, key, value, free, slot, s[ANCHOR]);
            var now := TreeAfter(t, key, value, free, slot, s[ANCHOR]);
            && RootId(now) == RootId(all.tree)
            && (!Passed(t, key) ==>
                  && HoldsTree(Apply(s, all.writes), slot, now) && ToMap(Contents(now)) == ToMap(Contents(t))[key := value]
                  && Below(now, all.next) && ANCHOR < all.next && Fits(now, HeightAfter(t, h, key, value, free)))
  {
    hide Rep, Ordered, Distinct, Ids, Passed, Open, Contents, ToMap, Apply, InsertTop, HeightAfter, Fits, Below, RootId;
    if !Passed(t, key) {
      var u := if Open(t, key) then t else Unhidden(t, key);
      if !Open(t, key) {
        UnhiddenReady(s, slot, t, free, key);
        UnhiddenFits(s, t, INVALID_PAGE_ID, h, key);
        TopReads(s, slot, t, u, free, key, value);
      }
      InsertHolds(s, slot, u, free, key, value);
      InsertTopPages(u, key, value, free, slot, s[ANCHOR]);
      InsertTopFits(u, h, key, value, free, slot, s[ANCHOR]);
    }
  }

  lemma {:induction false} LeavesFit(s: Store, t: Tree, next: PageId, h: nat)
    requires Rep(s, t, next) && Fits(t, h)
    ensures forall l <- Leaves(t), h': nat :: Fits(l, h')
    decreases t, 1
  {
    match t
    case Leaf(_, _) =>
    case Node(_, _, kids) =>
      assert kids[0..] == kids;
      LeavesFitKids(s, t, next, h, 0);
    case Half(left, _, right) =>
      LeavesFit(s, left, FirstLeaf(right), h);
      LeavesFit(s, right, next, h);
  }

  lemma {:induction false} LeavesFitKids(s: Store, t: Tree, next: PageId, h: nat, i: nat)
    requires t.Node? && Rep(s, t, next) && Fits(t, h) && i <= |t.kids|
    ensures forall l <- LeavesAll(t.kids[i..]), h': nat :: Fits(l, h')
    decreases t, 0, |t.kids| - i
  {
    if i < |t.kids| {
      LeavesFit(s, t.kids[i], NextOf(t.kids, i, next), h - 1);
      LeavesFitKids(s, t, next, h, i + 1);
      LeavesFirst(t.kids, i);
    }
  }

  lemma {:induction false} StrungFits(leaves: seq<Tree>, lo: int, h: nat)
    requires leaves != [] && forall l <- leaves :: Fits(l, h)
    ensures Fits(Strung(leaves, lo), h)
  {
    if |leaves| > 1 {
      StrungFits(leaves[1..], AfterLeaf(leaves[0], lo), h);
    }
  }

  lemma {:induction false} UnhiddenFits(s: Store, t: Tree, next: PageId, h: nat, key: Key)
    requires Rep(s, t, next) && Fits(t, h)
    ensures Fits(Unhidden(t, key), h)
    decreases t
  {
    match t
    case Leaf(_, _) =>
    case Node(_, keys, kids) =>
      UnhiddenFits(s, kids[ChildIndex(keys, key)], NextOf(kids, ChildIndex(keys, key), next), h - 1, key);
    case Half(left, _, right) =>
      UnhiddenFits(s, left, FirstLeaf(right), h, key);
      LeavesFit(s, right, next, h);
      if Leaves(right) != [] {
        StrungFits(Leaves(right), key + 1, h);
      }
  }

  ghost predicate SplitFits(out: Outcome, h: nat)
    requires SplitsInHalf(out)
  {
    if out.split.Some? then Fits(out.tree.left, h) && Fits(out.tree.right, h) else Fits(out.tree, h)
  }

  lemma {:induction false} InsertFits(t: Tree, h: nat, key: Key, value: Bytes, free: PageId, next: PageId)
    requires Fits(t, h)
    ensures SplitFits(InsertInto(t, key, value, free, next), h)
    decreases t
  {
    match t
    case Leaf(_, cells) =>
      PutLength(cells, key, value);
    case Node(_, keys, kids) =>
      if |kids| == |keys| + 1 {
        var i := ChildIndex(keys, key);
        var below := InsertInto(kids[i], key, value, free, NextOf(kids, i, next));
        InsertFits(kids[i], h - 1, key, value, free, NextOf(kids, i, next));
        AbsorbedFits(t, i, below, h);
      }
    case Half(left, _, right) =>
      InsertFits(left, h, key, value, free, FirstLeaf(right));
  }

  lemma AbsorbedFits(t: Tree, i: nat, below: Outcome, h: nat)
    requires t.Node? && |t.kids| == |t.keys| + 1 && i < |t.kids| && SplitsInHalf(below) && Fits(t, h) && SplitFits(below, h - 1)
    ensures SplitFits(Absorbed(t, i, below), h)
  {
    if below.split.Some? {
      var now := KidsWith(t.kids, i, below.tree.left, below.tree.right);
      forall j | 0 <= j < |now|
        ensures Fits(now[j], h - 1)
      {
        assert j < i ==> now[j] == t.kids[j];
        assert j > i + 1 ==> now[j] == t.kids[j - 1];
      }
    }
  }

  lemma InsertTopFits(t: Tree, h: nat, key: Key, value: Bytes, free: PageId, slot: Option<nat>, anchor: Page)
    requires AnchorOk(anchor, slot) && Fits(t, h)
    ensures Fits(InsertTop(t, key, value, free, slot, anchor).tree, HeightAfter(t, h, key, value, free))
  {
    InsertFits(t, h, key, value, free, INVALID_PAGE_ID);
    var out := InsertInto(t, key, value, free, INVALID_PAGE_ID);
    if out.split.Some? {
      var kids := [out.tree.left, out.tree.right];
      assert Fits(kids[0], h) && Fits(kids[1], h);
    }
  }

  lemma {:induction false} DeleteFits(t: Tree, h: nat, key: Key, next: PageId)
    requires Fits(t, h)
    ensures Fits(DeleteFrom(t, key, next).tree, h)
    decreases t
  {
    match t
    case Leaf(_, cells) =>
      DelLength(cells, key);
    case Node(_, keys, kids) =>
      if |kids| == |keys| + 1 {
        DeleteFits(kids[ChildIndex(keys, key)], h - 1, key, NextOf(kids, ChildIndex(keys, key), next));
      }
    case Half(left, _, right) =>
      DeleteFits(left, h, key, FirstLeaf(right));
  }

  /** No leaf of a tree in a closed store is overfull. */
  lemma {:induction false} FitsHeight(s: Store, t: Tree, next: PageId)
    requires Rep(s, t, next) && forall p <- s :: PageFits(s[p])
    ensures Fits(t, Height(t))
    decreases t
  {
    match t
    case Leaf(_, _) =>
    case Node(_, _, kids) =>
      forall i | 0 <= i < |kids|
        ensures Fits(kids[i], Height(t) - 1)
      {
        FitsHeight(s, kids[i], NextOf(kids, i, next));
        HeightKid(kids, i);
        FitsHigher(kids[i], Height(kids[i]), Height(t) - 1);
      }
    case Half(left, _, right) =>
      FitsHeight(s, left, FirstLeaf(right));
      FitsHeight(s, right, next);
      FitsHigher(left, Height(left), Height(t));
      FitsHigher(right, Height(right), Height(t));
  }

  /** A tree found in a closed store can be written to when new pages come after all its pages. */
  lemma FoundWritable(s: Store, slot: Option<nat>, t: Tree, free: PageId)
    requires StoresTree(s, slot, t) && Closed(s) && forall p <- s :: p < free
    ensures Below(t, free) && ANCHOR < free && Fits(t, Height(t))
  {
    RepIds(s, t, INVALID_PAGE_ID);
    FitsHeight(s, t, INVALID_PAGE_ID);
  }
}
