/** What one insert or delete does to a tree and which page images it writes, in log order.

    Each clause mirrors a recursive call: a child's writes come before its parent's, a new right
    sibling is written before the left part that links to it, and a new root before the page that
    records it. */
module TreeUpdate {
  import opened Pages
  import opened Cells
  import opened Trees

  /** `split` is the separator the parent must take up when the root of the tree split. */
  datatype Outcome = Outcome(tree: Tree, writes: seq<Image>, next: PageId, split: Option<Key>)

  /** The kid to descend into: keys at or above a separator go right. */
  function ChildIndex(keys: seq<Key>, key: Key): (i: nat)
    ensures i <= |keys|
    ensures forall j :: 0 <= j < i ==> keys[j] <= key
    ensures i < |keys| ==> key < keys[i]
  {
    if keys == [] || key < keys[0] then 0 else 1 + ChildIndex(keys[1..], key)
  }

  function KeysWith(keys: seq<Key>, i: nat, sep: Key): seq<Key>
    requires i <= |keys|
  {
    keys[..i] + [sep] + keys[i..]
  }

  function KidsWith(kids: seq<Tree>, i: nat, left: Tree, right: Tree): seq<Tree>
    requires i < |kids|
  {
    kids[..i] + [left, right] + kids[i + 1..]
  }

  ghost predicate SplitsInHalf(out: Outcome) {
    out.split.Some? ==> out.tree.Half? && out.tree.sep == out.split.value
  }

  /** A leaf that now holds `cells`, split when it holds too many. */
  function LeafOutcome(id: PageId, cells: seq<Cell>, free: PageId, next: PageId): (out: Outcome)
    ensures SplitsInHalf(out)
  {
    if |cells| <= LEAF_MAX_KEYS then
      Outcome(Leaf(id, cells), [Image(id, LeafPage(cells, next))], free, None)
    else
      var m := |cells| / 2;
      Outcome(Half(Leaf(id, cells[..m]), cells[m].key, Leaf(free, cells[m..])),
              [Image(free, LeafPage(cells[m..], next)), Image(id, LeafPage(cells[..m], free))],
              free + 1, Some(cells[m].key))
  }

  /** An internal node that now holds `keys` and `kids`, split when it holds too many; the middle key moves up. */
  function NodeOutcome(id: PageId, keys: seq<Key>, kids: seq<Tree>, free: PageId): (out: Outcome)
    requires |kids| == |keys| + 1
    ensures SplitsInHalf(out)
  {
    if |keys| <= INTERNAL_MAX_KEYS then
      Outcome(Node(id, keys, kids), [Image(id, NodePage(keys, kids))], free, None)
    else
      var m := |keys| / 2;
      Outcome(Half(Node(id, keys[..m], kids[..m + 1]), keys[m], Node(free, keys[m + 1..], kids[m + 1..])),
              [Image(free, NodePage(keys[m + 1..], kids[m + 1..])), Image(id, NodePage(keys[..m], kids[..m + 1]))],
              free + 1, Some(keys[m]))
  }

  /** A node after an insert below its kid `i`: a split kid is absorbed, which may split the node. */
  function Absorbed(t: Tree, i: nat, below: Outcome): (out: Outcome)
    requires t.Node? && |t.kids| == |t.keys| + 1 && i < |t.kids| && SplitsInHalf(below)
    ensures SplitsInHalf(out)
  {
    if below.split.Some? then
      var own := NodeOutcome(t.id, KeysWith(t.keys, i, below.split.value),
                             KidsWith(t.kids, i, below.tree.left, below.tree.right), below.next);
      Outcome(own.tree, below.writes + own.writes, own.next, own.split)
    else
      Outcome(Node(t.id, t.keys, t.kids[i := below.tree]), below.writes, below.next, None)
  }

  /** Both parts of a split, the right one followed by a part that an earlier split left hidden. */
  function Beside(half: Tree, sep: int, right: Tree): Tree
    requires half.Half?
  {
    Half(half.left, half.sep, Half(half.right, sep, right))
  }

  /** Insert below `t`, whose last leaf points at `next`, allocating pages from `free` on.  A half is entered
      on the left, for that is the part its parent names. */
  function InsertInto(t: Tree, key: Key, value: Bytes, free: PageId, next: PageId): (out: Outcome)
    ensures SplitsInHalf(out)
    decreases t
  {
    match t
    case Leaf(id, cells) => LeafOutcome(id, Put(cells, key, value), free, next)
    case Node(id, keys, kids) =>
      var i := ChildIndex(keys, key);
      if |kids| != |keys| + 1 then Outcome(t, [], free, None)
      else
        Absorbed(t, i, InsertInto(kids[i], key, value, free, NextOf(kids, i, next)))
    case Half(left, sep, right) =>
      var below := InsertInto(left, key, value, free, FirstLeaf(right));
      below.(tree := if below.split.Some? then Beside(below.tree, sep, right) else Half(below.tree, sep, right))
  }

  lemma InsertNodeIs(t: Tree, key: Key, value: Bytes, free: PageId, next: PageId)
    requires t.Node? && |t.kids| == |t.keys| + 1
    ensures var i := ChildIndex(t.keys, key);
            InsertInto(t, key, value, free, next) == Absorbed(t, i, InsertInto(t.kids[i], key, value, free, NextOf(t.kids, i, next)))
  {
  }

  /** The key belongs to the parts a descent can reach: it lies below the bound of every half on its way. */
  ghost predicate Open(t: Tree, key: Key)
    decreases t
  {
    match t
    case Leaf(_, _) => true
    case Node(_, keys, kids) => |kids| == |keys| + 1 && Open(kids[ChildIndex(keys, key)], key)
    case Half(left, sep, _) => key < sep && Open(left, key)
  }

  lemma {:induction false} BalancedOpen(t: Tree, h: nat, least: nat, key: Key)
    requires Balanced(t, h, least)
    ensures Open(t, key)
    decreases t
  {
    if t.Node? {
      BalancedOpen(t.kids[ChildIndex(t.keys, key)], h - 1, 2, key);
    }
  }

  // ---------- separators keep their meaning ----------

  lemma ChildBounds(keys: seq<Key>, key: Key, lo: int, hi: int)
    requires lo <= key < hi
    ensures var i := ChildIndex(keys, key); Lo(keys, i, lo) <= key < Hi(keys, i, hi)
  {
  }

  lemma {:induction false} ReplaceKidOrdered(t: Tree, i: nat, kid: Tree, lo: int, hi: int)
    requires t.Node? && Ordered(t, lo, hi) && i < |t.kids|
    requires Ordered(kid, Lo(t.keys, i, lo), Hi(t.keys, i, hi))
    ensures Ordered(Node(t.id, t.keys, t.kids[i := kid]), lo, hi)
  {
  }

  lemma {:induction false} SplitKidOrdered(t: Tree, i: nat, left: Tree, sep: Key, right: Tree, lo: int, hi: int)
    requires t.Node? && Ordered(t, lo, hi) && i < |t.kids|
    requires Ordered(Half(left, sep, right), Lo(t.keys, i, lo), Hi(t.keys, i, hi))
    ensures Ordered(Node(t.id, KeysWith(t.keys, i, sep), KidsWith(t.kids, i, left, right)), lo, hi)
  {
    var keys := KeysWith(t.keys, i, sep);
    var kids := KidsWith(t.kids, i, left, right);
    forall j | 0 <= j < |kids|
      ensures Ordered(kids[j], Lo(keys, j, lo), Hi(keys, j, hi))
    {
      if j < i {
        assert kids[j] == t.kids[j];
      } else if j > i + 1 {
        assert kids[j] == t.kids[j - 1];
      }
    }
  }

  lemma {:induction false} LeftOrdered(t: Tree, m: nat, lo: int, hi: int)
    requires t.Node? && Ordered(t, lo, hi) && m < |t.keys|
    ensures Ordered(Node(t.id, t.keys[..m], t.kids[..m + 1]), lo, t.keys[m])
  {
    var l := Node(t.id, t.keys[..m], t.kids[..m + 1]);
    OrderedKids(t, 0, m + 1, lo, hi);
    forall j | 0 <= j < |l.kids|
      ensures Ordered(l.kids[j], Lo(l.keys, j, lo), Hi(l.keys, j, t.keys[m]))
    {
      assert l.kids[j] == t.kids[j];
      assert Lo(l.keys, j, lo) == Lo(t.keys, j, lo);
      assert Hi(l.keys, j, t.keys[m]) == Hi(t.keys, j, hi);
    }
  }

  lemma {:induction false} RightOrdered(t: Tree, m: nat, free: PageId, lo: int, hi: int)
    requires t.Node? && Ordered(t, lo, hi) && m < |t.keys|
    ensures Ordered(Node(free, t.keys[m + 1..], t.kids[m + 1..]), t.keys[m], hi)
  {
    var r := Node(free, t.keys[m + 1..], t.kids[m + 1..]);
    OrderedKids(t, m + 1, |t.kids|, lo, hi);
    forall j | 0 <= j < |r.kids|
      ensures Ordered(r.kids[j], Lo(r.keys, j, t.keys[m]), Hi(r.keys, j, hi))
    {
      assert r.kids[j] == t.kids[m + 1 + j];
      assert Lo(r.keys, j, t.keys[m]) == Lo(t.keys, m + 1 + j, lo);
      assert Hi(r.keys, j, hi) == Hi(t.keys, m + 1 + j, hi);
    }
  }

  lemma {:induction false} HalveOrdered(id: PageId, keys: seq<Key>, kids: seq<Tree>, free: PageId, lo: int, hi: int)
    requires Ordered(Node(id, keys, kids), lo, hi)
    ensures Ordered(NodeOutcome(id, keys, kids, free).tree, lo, hi)
  {
    if |keys| > INTERNAL_MAX_KEYS {
      LeftOrdered(Node(id, keys, kids), |keys| / 2, lo, hi);
      RightOrdered(Node(id, keys, kids), |keys| / 2, free, lo, hi);
    }
  }

  lemma LeafOutcomeContents(id: PageId, cells: seq<Cell>, free: PageId, next: PageId)
    ensures Contents(LeafOutcome(id, cells, free, next).tree) == cells
  {
  }

  lemma LeafOutcomeOrdered(id: PageId, cells: seq<Cell>, free: PageId, next: PageId, lo: int, hi: int)
    requires Ordered(Leaf(id, cells), lo, hi)
    ensures Ordered(LeafOutcome(id, cells, free, next).tree, lo, hi)
  {
    if |cells| > LEAF_MAX_KEYS {
      var m := |cells| / 2;
      assert cells[m] in cells;
      assert forall c <- cells[..m] :: c in cells;
      assert forall c <- cells[m..] :: c in cells;
    }
  }

  lemma BesideOrdered(half: Tree, sep: int, right: Tree, lo: int, hi: int)
    requires half.Half? && Ordered(Half(half, sep, right), lo, hi)
    ensures Ordered(Beside(half, sep, right), lo, hi)
  {
    assert Ordered(half.left, lo, half.sep) && Ordered(half.right, half.sep, sep) && Ordered(right, sep, hi);
    assert Ordered(Half(half.right, sep, right), half.sep, hi);
  }

  /** Insert keeps every separator's meaning. */
  lemma {:induction false} InsertOrdered(t: Tree, key: Key, value: Bytes, free: PageId, next: PageId, lo: int, hi: int)
    requires Ordered(t, lo, hi) && Open(t, key) && lo <= key < hi
    ensures Ordered(InsertInto(t, key, value, free, next).tree, lo, hi)
    decreases t
  {
    match t
    case Leaf(id, cells) =>
      PutMembers(cells, key, value);
      LeafOutcomeOrdered(id, Put(cells, key, value), free, next, lo, hi);
    case Node(id, keys, kids) =>
      var i := ChildIndex(keys, key);
      ChildBounds(keys, key, lo, hi);
      InsertOrdered(kids[i], key, value, free, NextOf(kids, i, next), Lo(keys, i, lo), Hi(keys, i, hi));
      var below := InsertInto(kids[i], key, value, free, NextOf(kids, i, next));
      if below.split.Some? {
        SplitKidOrdered(t, i, below.tree.left, below.split.value, below.tree.right, lo, hi);
        HalveOrdered(id, KeysWith(keys, i, below.split.value),
                     KidsWith(kids, i, below.tree.left, below.tree.right), below.next, lo, hi);
      } else {
        ReplaceKidOrdered(t, i, below.tree, lo, hi);
      }
    case Half(left, sep, right) =>
      InsertOrdered(left, key, value, free, FirstLeaf(right), lo, sep);
      var below := InsertInto(left, key, value, free, FirstLeaf(right));
      if below.split.Some? {
        BesideOrdered(below.tree, sep, right, lo, hi);
      }
  }

  // ---------- contents ----------

  /** Around the kid a key descends to, everything to the left is smaller and everything to the right larger. */
  lemma Surroundings(t: Tree, key: Key, lo: int, hi: int)
    requires t.Node? && Ordered(t, lo, hi) && lo <= key < hi
    ensures var i := ChildIndex(t.keys, key);
            && (forall c <- ContentsAll(t.kids[..i]) :: c.key < key)
            && (forall c <- ContentsAll(t.kids[i + 1..]) :: key < c.key)
  {
    var i := ChildIndex(t.keys, key);
    if i > 0 {
      OrderedKids(t, 0, i, lo, hi);
      assert t.kids[0..i] == t.kids[..i];
    }
    if i + 1 < |t.kids| {
      OrderedKids(t, i + 1, |t.kids|, lo, hi);
      assert t.kids[i + 1..|t.kids|] == t.kids[i + 1..];
    }
  }

  lemma NodeOutcomeContents(id: PageId, keys: seq<Key>, kids: seq<Tree>, free: PageId)
    requires |kids| == |keys| + 1
    ensures Contents(NodeOutcome(id, keys, kids, free).tree) == ContentsAll(kids)
  {
    if |keys| > INTERNAL_MAX_KEYS {
      var m := |keys| / 2;
      assert kids == kids[..m + 1] + kids[m + 1..];
      ContentsAppend(kids[..m + 1], kids[m + 1..]);
    }
  }

  lemma ReplaceKidContents(kids: seq<Tree>, i: nat, kid: Tree)
    requires i < |kids|
    ensures ContentsAll(kids[i := kid]) == ContentsAll(kids[..i]) + Contents(kid) + ContentsAll(kids[i + 1..])
  {
    var now := kids[i := kid];
    ContentsSplit(now, i);
    assert now[..i] == kids[..i] && now[i + 1..] == kids[i + 1..];
  }

  lemma KidsWithContents(kids: seq<Tree>, i: nat, left: Tree, right: Tree)
    requires i < |kids|
    ensures ContentsAll(KidsWith(kids, i, left, right))
         == ContentsAll(kids[..i]) + (Contents(left) + Contents(right)) + ContentsAll(kids[i + 1..])
  {
    ContentsAppend(kids[..i] + [left, right], kids[i + 1..]);
    ContentsAppend(kids[..i], [left, right]);
    assert [left, right][1..] == [right];
    assert ContentsAll([right]) == Contents(right);
  }

  lemma AbsorbedContents(t: Tree, i: nat, below: Outcome)
    requires t.Node? && |t.kids| == |t.keys| + 1 && i < |t.kids| && SplitsInHalf(below)
    ensures Contents(Absorbed(t, i, below).tree) == ContentsAll(t.kids[..i]) + Contents(below.tree) + ContentsAll(t.kids[i + 1..])
  {
    if below.split.Some? {
      KidsWithContents(t.kids, i, below.tree.left, below.tree.right);
      NodeOutcomeContents(t.id, KeysWith(t.keys, i, below.split.value),
                          KidsWith(t.kids, i, below.tree.left, below.tree.right), below.next);
    } else {
      ReplaceKidContents(t.kids, i, below.tree);
    }
  }

  lemma BesideContents(half: Tree, sep: int, right: Tree)
    requires half.Half?
    ensures Contents(Beside(half, sep, right)) == Contents(half) + Contents(right)
  {
  }

  /** Insert puts exactly one cell among the contents. */
  lemma {:induction false} InsertContents(t: Tree, key: Key, value: Bytes, free: PageId, next: PageId, lo: int, hi: int)
    requires Ordered(t, lo, hi) && Open(t, key) && lo <= key < hi
    ensures Contents(InsertInto(t, key, value, free, next).tree) == Put(Contents(t), key, value)
    decreases t
  {
    match t
    case Leaf(id, cells) =>
      LeafOutcomeContents(id, Put(cells, key, value), free, next);
    case Node(id, keys, kids) =>
      var i := ChildIndex(keys, key);
      ChildBounds(keys, key, lo, hi);
      InsertContents(kids[i], key, value, free, NextOf(kids, i, next), Lo(keys, i, lo), Hi(keys, i, hi));
      var below := InsertInto(kids[i], key, value, free, NextOf(kids, i, next));
      Surroundings(t, key, lo, hi);
      ContentsSplit(kids, i);
      PutMiddle(ContentsAll(kids[..i]), Contents(kids[i]), ContentsAll(kids[i + 1..]), key, value);
      AbsorbedContents(t, i, below);
    case Half(left, sep, right) =>
      InsertContents(left, key, value, free, FirstLeaf(right), lo, sep);
      var below := InsertInto(left, key, value, free, FirstLeaf(right));
      OrderedContents(right, sep, hi);
      PutRight(Contents(left), Contents(right), key, value);
      if below.split.Some? {
        BesideContents(below.tree, sep, right);
      }
  }

  // ---------- height and fanout ----------

  /** Five keys split two and two around the key that moves up. */
  lemma {:induction false} NodeOutcomeBalanced(id: PageId, keys: seq<Key>, kids: seq<Tree>, free: PageId, h: nat, least: nat)
    requires |kids| == |keys| + 1 && least <= |keys| <= INTERNAL_MAX_KEYS + 1
    requires h > 0 && forall j :: 0 <= j < |kids| ==> Balanced(kids[j], h - 1, 2)
    ensures SplitBalanced(NodeOutcome(id, keys, kids, free), h, least)
  {
    if |keys| > INTERNAL_MAX_KEYS {
      var m := |keys| / 2;
      var r := kids[m + 1..];
      assert forall j :: 0 <= j < |r| ==> r[j] == kids[m + 1 + j];
    }
  }

  ghost predicate SplitBalanced(out: Outcome, h: nat, least: nat)
    requires SplitsInHalf(out)
  {
    if out.split.Some? then Balanced(out.tree.left, h, 2) && Balanced(out.tree.right, h, 2) else Balanced(out.tree, h, least)
  }

  lemma {:induction false} KidsWithBalanced(kids: seq<Tree>, i: nat, left: Tree, right: Tree, h: nat)
    requires i < |kids| && forall j :: 0 <= j < |kids| ==> Balanced(kids[j], h, 2)
    requires Balanced(left, h, 2) && Balanced(right, h, 2)
    ensures var now := KidsWith(kids, i, left, right); forall j :: 0 <= j < |now| ==> Balanced(now[j], h, 2)
  {
    var now := KidsWith(kids, i, left, right);
    forall j | 0 <= j < |now|
      ensures Balanced(now[j], h, 2)
    {
      assert j < i ==> now[j] == kids[j];
      assert j > i + 1 ==> now[j] == kids[j - 1];
    }
  }

  /** Insert keeps all leaves at one depth; a split leaves two parts that are both at least half full. */
  lemma {:induction false} InsertBalanced(t: Tree, h: nat, least: nat, key: Key, value: Bytes, free: PageId, next: PageId)
    requires Balanced(t, h, least)
    ensures SplitBalanced(InsertInto(t, key, value, free, next), h, least)
    decreases t
  {
    match t
    case Leaf(id, cells) =>
      PutLength(cells, key, value);
    case Node(id, keys, kids) =>
      var i := ChildIndex(keys, key);
      InsertBalanced(kids[i], h - 1, 2, key, value, free, NextOf(kids, i, next));
      var below := InsertInto(kids[i], key, value, free, NextOf(kids, i, next));
      if below.split.Some? {
        KidsWithBalanced(kids, i, below.tree.left, below.tree.right, h - 1);
        NodeOutcomeBalanced(id, KeysWith(keys, i, below.split.value),
                            KidsWith(kids, i, below.tree.left, below.tree.right), below.next, h, least);
      }
  }

  lemma {:induction false} PutLength(cells: seq<Cell>, key: Key, value: Bytes)
    ensures |cells| <= |Put(cells, key, value)| <= |cells| + 1
  {
    if cells != [] && cells[0].key < key {
      PutLength(cells[1..], key, value);
    }
  }
}
