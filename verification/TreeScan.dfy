/** Where descent lands and what the leaf chain holds, for whole and half-split trees alike. */
module TreeScan {
  import opened Pages
  import opened Cells
  import opened Trees
  import opened TreeUpdate

  /** The leaves in chain order. */
  function Leaves(t: Tree): seq<Tree>
    decreases t, 1
  {
    match t
    case Leaf(_, _) => [t]
    case Node(_, _, kids) => LeavesAll(kids)
    case Half(left, _, right) => Leaves(left) + Leaves(right)
  }

  function LeavesAll(ts: seq<Tree>): seq<Tree>
    decreases ts, 0
  {
    if ts == [] then [] else Leaves(ts[0]) + LeavesAll(ts[1..])
  }

  /** The leaf that descent for `key` ends at; only the left part of a half is visible from above. */
  function Descend(t: Tree, key: Key): Tree
    decreases t
  {
    match t
    case Leaf(_, _) => t
    case Node(_, keys, kids) =>
      if |kids| != |keys| + 1 then t else Descend(kids[ChildIndex(keys, key)], key)
    case Half(left, _, _) => Descend(left, key)
  }

  lemma {:induction false} LeavesAppend(a: seq<Tree>, b: seq<Tree>)
    ensures LeavesAll(a + b) == LeavesAll(a) + LeavesAll(b)
  {
    if a == [] {
      assert a + b == b;
    } else {
      assert (a + b)[1..] == a[1..] + b;
      LeavesAppend(a[1..], b);
    }
  }

  lemma LeavesSplit(kids: seq<Tree>, i: nat)
    requires i < |kids|
    ensures LeavesAll(kids) == LeavesAll(kids[..i]) + Leaves(kids[i]) + LeavesAll(kids[i + 1..])
  {
    assert kids == kids[..i] + kids[i..];
    LeavesAppend(kids[..i], kids[i..]);
    assert kids[i..][1..] == kids[i + 1..];
  }

  /** Leaves hold exactly the contents. */
  lemma {:induction false} LeavesContents(t: Tree)
    ensures ContentsAll(Leaves(t)) == Contents(t)
    decreases t, 1
  {
    match t
    case Leaf(_, _) =>
      assert [t][1..] == [];
    case Node(_, _, kids) =>
      LeavesAllContents(kids);
    case Half(left, _, right) =>
      LeavesContents(left);
      LeavesContents(right);
      ContentsAppend(Leaves(left), Leaves(right));
  }

  lemma {:induction false} LeavesAllContents(ts: seq<Tree>)
    ensures ContentsAll(LeavesAll(ts)) == ContentsAll(ts)
    decreases ts, 0
  {
    if ts != [] {
      LeavesContents(ts[0]);
      LeavesAllContents(ts[1..]);
      ContentsAppend(Leaves(ts[0]), LeavesAll(ts[1..]));
    }
  }

  /** The leaf pages, linked in order and ending at `next`. */
  ghost predicate Chain(s: Store, leaves: seq<Tree>, next: PageId) {
    forall i :: 0 <= i < |leaves| ==> leaves[i].Leaf? && Rep(s, leaves[i], NextOf(leaves, i, next))
  }

  lemma ChainAppend(s: Store, a: seq<Tree>, b: seq<Tree>, next: PageId)
    requires b != [] && Chain(s, a, FirstLeaf(b[0])) && Chain(s, b, next)
    ensures Chain(s, a + b, next)
  {
    var c := a + b;
    forall i | 0 <= i < |c|
      ensures c[i].Leaf? && Rep(s, c[i], NextOf(c, i, next))
    {
      if i < |a| {
        assert NextOf(c, i, next) == NextOf(a, i, FirstLeaf(b[0]));
      } else {
        assert c[i] == b[i - |a|] && NextOf(c, i, next) == NextOf(b, i - |a|, next);
      }
    }
  }

  /** A represented tree has its leaves chained, starting at its first leaf. */
  lemma {:induction false} RepChain(s: Store, t: Tree, next: PageId)
    requires Rep(s, t, next)
    ensures Leaves(t) != [] && FirstLeaf(Leaves(t)[0]) == FirstLeaf(t)
    ensures Chain(s, Leaves(t), next)
    decreases t, 1
  {
    match t
    case Leaf(_, _) =>
    case Node(_, _, kids) =>
      assert kids[0..] == kids;
      RepChainKids(s, t, next, 0);
    case Half(left, _, right) =>
      RepChain(s, left, FirstLeaf(right));
      RepChain(s, right, next);
      ChainAppend(s, Leaves(left), Leaves(right), next);
  }

  lemma {:induction false} RepChainKids(s: Store, t: Tree, next: PageId, i: nat)
    requires t.Node? && Rep(s, t, next) && i < |t.kids|
    ensures var ls := LeavesAll(t.kids[i..]);
            ls != [] && FirstLeaf(ls[0]) == FirstLeaf(t.kids[i]) && Chain(s, ls, next)
    decreases t, 0, |t.kids| - i
  {
    var kids := t.kids;
    RepChain(s, kids[i], NextOf(kids, i, next));
    assert kids[i..][1..] == kids[i + 1..];
    if i + 1 < |kids| {
      RepChainKids(s, t, next, i + 1);
      ChainAppend(s, Leaves(kids[i]), LeavesAll(kids[i + 1..]), next);
    } else {
      assert LeavesAll(kids[i..]) == Leaves(kids[i]);
    }
  }

  /** Descent lands on a leaf of the chain with only smaller keys before it, even if a split is half done. */
  lemma {:induction false} DescendLands(t: Tree, key: Key, lo: int, hi: int) returns (pos: nat)
    requires Ordered(t, lo, hi)
    ensures pos < |Leaves(t)| && Leaves(t)[pos] == Descend(t, key)
    ensures lo <= key ==> forall c <- ContentsAll(Leaves(t)[..pos]) :: c.key < key
    decreases t
  {
    match t
    case Leaf(_, _) =>
      pos := 0;
    case Node(_, keys, kids) =>
      var i := ChildIndex(keys, key);
      var p := DescendLands(kids[i], key, Lo(keys, i, lo), Hi(keys, i, hi));
      LeavesSplit(kids, i);
      var before := LeavesAll(kids[..i]);
      pos := |before| + p;
      assert Leaves(t)[..pos] == before + Leaves(kids[i])[..p];
      ContentsAppend(before, Leaves(kids[i])[..p]);
      LeavesAllContents(kids[..i]);
      if i > 0 {
        OrderedKids(t, 0, i, lo, hi);
        assert kids[0..i] == kids[..i];
      }
    case Half(left, sep, right) =>
      pos := DescendLands(left, key, lo, sep);
      assert Leaves(t)[..pos] == Leaves(left)[..pos];
  }

  /** In a tree with no half-done split the leaf reached is the only one that can hold the key. */
  lemma {:induction false} DescendExact(t: Tree, h: nat, least: nat, key: Key, lo: int, hi: int)
    requires Ordered(t, lo, hi) && Balanced(t, h, least) && lo <= key < hi
    ensures Descend(t, key).Leaf?
    ensures Lookup(Descend(t, key).cells, key) == Lookup(Contents(t), key)
    decreases t
  {
    match t
    case Leaf(_, _) =>
    case Node(_, keys, kids) =>
      var i := ChildIndex(keys, key);
      ChildBounds(keys, key, lo, hi);
      DescendExact(kids[i], h - 1, 2, key, Lo(keys, i, lo), Hi(keys, i, hi));
      Surroundings(t, key, lo, hi);
      ContentsSplit(kids, i);
      DelMiddle(ContentsAll(kids[..i]), Contents(kids[i]), ContentsAll(kids[i + 1..]), key);
  }

  /** Cells that descent cannot reach because a parent does not name their part yet. */
  function Hidden(t: Tree): seq<Cell>
    decreases t, 1
  {
    match t
    case Leaf(_, _) => []
    case Node(_, _, kids) => HiddenAll(kids)
    case Half(left, _, right) => Hidden(left) + Contents(right)
  }

  function HiddenAll(ts: seq<Tree>): seq<Cell>
    decreases ts, 0
  {
    if ts == [] then [] else Hidden(ts[0]) + HiddenAll(ts[1..])
  }

  lemma {:induction false} HiddenAppend(a: seq<Tree>, b: seq<Tree>)
    ensures HiddenAll(a + b) == HiddenAll(a) + HiddenAll(b)
  {
    if a == [] {
      assert a + b == b;
    } else {
      assert (a + b)[1..] == a[1..] + b;
      HiddenAppend(a[1..], b);
    }
  }

  lemma {:induction false} HiddenInContents(t: Tree)
    ensures forall c <- Hidden(t) :: c in Contents(t)
    decreases t, 1
  {
    match t
    case Leaf(_, _) =>
    case Node(_, _, kids) => HiddenAllInContents(kids);
    case Half(left, _, right) => HiddenInContents(left);
  }

  lemma {:induction false} HiddenAllInContents(ts: seq<Tree>)
    ensures forall c <- HiddenAll(ts) :: c in ContentsAll(ts)
    decreases ts, 0
  {
    if ts != [] {
      HiddenInContents(ts[0]);
      HiddenAllInContents(ts[1..]);
    }
  }

  lemma {:induction false} BalancedHidden(t: Tree, h: nat, least: nat)
    requires Balanced(t, h, least)
    ensures Hidden(t) == []
    decreases t, 1
  {
    if t.Node? {
      assert t.kids[0..] == t.kids;
      BalancedHiddenKids(t, h, least, 0);
    }
  }

  lemma {:induction false} BalancedHiddenKids(t: Tree, h: nat, least: nat, i: nat)
    requires t.Node? && Balanced(t, h, least) && i <= |t.kids|
    ensures HiddenAll(t.kids[i..]) == []
    decreases t, 0, |t.kids| - i
  {
    if i < |t.kids| {
      BalancedHidden(t.kids[i], h - 1, 2);
      BalancedHiddenKids(t, h, least, i + 1);
      assert t.kids[i..][1..] == t.kids[i + 1..];
    }
  }

  ghost predicate HasKey(cells: seq<Cell>, key: Key) {
    exists c <- cells :: c.key == key
  }

  lemma {:induction false} LookupKey(cells: seq<Cell>, key: Key)
    ensures Lookup(cells, key).Some? <==> HasKey(cells, key)
  {
    if cells != [] && cells[0].key != key {
      LookupKey(cells[1..], key);
      assert forall c <- cells :: c == cells[0] || c in cells[1..];
    }
  }

  /** Only the kid that descent takes can hold the key, hidden or not. */
  lemma KeyInKid(t: Tree, i: nat, key: Key)
    requires t.Node? && i < |t.kids|
    requires forall c <- ContentsAll(t.kids[..i]) :: c.key != key
    requires forall c <- ContentsAll(t.kids[i + 1..]) :: c.key != key
    ensures HasKey(Hidden(t), key) <==> HasKey(Hidden(t.kids[i]), key)
    ensures HasKey(Contents(t), key) <==> HasKey(Contents(t.kids[i]), key)
  {
    var kids := t.kids;
    ContentsSplit(kids, i);
    assert kids == kids[..i] + [kids[i]] + kids[i + 1..];
    HiddenAppend(kids[..i] + [kids[i]], kids[i + 1..]);
    HiddenAppend(kids[..i], [kids[i]]);
    assert [kids[i]][1..] == [];
    HiddenAllInContents(kids[..i]);
    HiddenAllInContents(kids[i + 1..]);
  }

  /** A lookup through descent finds a key exactly when the tree holds it in a part that is not hidden;
      so lookups agree with scans for every key if and only if nothing is hidden. */
  lemma {:induction false} DescendFinds(t: Tree, key: Key, lo: int, hi: int)
    requires Ordered(t, lo, hi) && lo <= key < hi
    ensures Descend(t, key).Leaf?
    ensures HasKey(Descend(t, key).cells, key) <==> HasKey(Contents(t), key) && !HasKey(Hidden(t), key)
    decreases t
  {
    match t
    case Leaf(_, _) =>
    case Node(_, keys, kids) =>
      var i := ChildIndex(keys, key);
      ChildBounds(keys, key, lo, hi);
      DescendFinds(kids[i], key, Lo(keys, i, lo), Hi(keys, i, hi));
      Surroundings(t, key, lo, hi);
      KeyInKid(t, i, key);
    case Half(left, sep, right) =>
      DescendFindsHalf(t, key, lo, hi);
  }

  lemma {:induction false} DescendFindsHalf(t: Tree, key: Key, lo: int, hi: int)
    requires t.Half? && Ordered(t, lo, hi) && lo <= key < hi
    ensures Descend(t, key).Leaf?
    ensures HasKey(Descend(t, key).cells, key) <==> HasKey(Contents(t), key) && !HasKey(Hidden(t), key)
    decreases t, 0
  {
    OrderedContents(t.left, lo, t.sep);
    OrderedContents(t.right, t.sep, hi);
    HiddenInContents(t.left);
    if key < t.sep {
      DescendFinds(t.left, key, lo, t.sep);
    } else {
      var pos := DescendLands(t.left, key, lo, t.sep);
      LeavesContents(t.left);
      LeafInContents(Leaves(t.left), pos);
      LeafShape(t.left, lo, t.sep, pos);
    }
  }

  lemma LeafInContents(leaves: seq<Tree>, pos: nat)
    requires pos < |leaves|
    ensures forall c <- Contents(leaves[pos]) :: c in ContentsAll(leaves)
  {
    ContentsSplit(leaves, pos);
  }

  lemma {:induction false} LeafShape(t: Tree, lo: int, hi: int, pos: nat)
    requires Ordered(t, lo, hi) && pos < |Leaves(t)|
    ensures Leaves(t)[pos].Leaf?
    decreases t, 1
  {
    match t
    case Leaf(_, _) =>
    case Node(_, keys, kids) =>
      assert kids[0..] == kids;
      LeafShapeKids(t, lo, hi, 0, pos);
    case Half(left, sep, right) =>
      if pos < |Leaves(left)| {
        LeafShape(left, lo, sep, pos);
      } else {
        LeafShape(right, sep, hi, pos - |Leaves(left)|);
      }
  }

  lemma {:induction false} LeafShapeKids(t: Tree, lo: int, hi: int, i: nat, pos: nat)
    requires t.Node? && Ordered(t, lo, hi) && i <= |t.kids| && pos < |LeavesAll(t.kids[i..])|
    ensures LeavesAll(t.kids[i..])[pos].Leaf?
    decreases t, 0, |t.kids| - i
  {
    var n := |Leaves(t.kids[i])|;
    assert t.kids[i..][1..] == t.kids[i + 1..];
    if pos < n {
      LeafShape(t.kids[i], Lo(t.keys, i, lo), Hi(t.keys, i, hi), pos);
    } else {
      LeafShapeKids(t, lo, hi, i + 1, pos - n);
    }
  }
}
