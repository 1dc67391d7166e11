/** Deletion: one cell leaves one leaf, and nodes are never merged. */
module TreeDelete {
  import opened Pages
  import opened Cells
  import opened Trees
  import opened TreeUpdate
  import opened TreeStages
  import opened TreeScan

  datatype Removal = Removal(tree: Tree, writes: seq<Image>)

  function DeleteFrom(t: Tree, key: Key, next: PageId): Removal
    decreases t
  {
    match t
    case Leaf(id, cells) =>
      if Lookup(cells, key).Some? then
        Removal(Leaf(id, Del(cells, key)), [Image(id, LeafPage(Del(cells, key), next))])
      else Removal(t, [])
    case Node(id, keys, kids) =>
      var i := ChildIndex(keys, key);
      if |kids| != |keys| + 1 then Removal(t, [])
      else
        var below := DeleteFrom(kids[i], key, NextOf(kids, i, next));
        Removal(Node(id, keys, kids[i := below.tree]), below.writes)
    case Half(left, sep, right) =>
      var below := DeleteFrom(left, key, FirstLeaf(right));
      Removal(Half(below.tree, sep, right), below.writes)
  }

  lemma {:induction false} DelLength(cells: seq<Cell>, key: Key)
    ensures |Del(cells, key)| <= |cells|
    ensures Lookup(cells, key).None? ==> Del(cells, key) == cells
  {
    if cells != [] && cells[0].key != key {
      DelLength(cells[1..], key);
    }
  }

  /** At most one page is written. */
  lemma {:induction false} DeleteLength(t: Tree, key: Key, next: PageId)
    ensures |DeleteFrom(t, key, next).writes| <= 1
    decreases t
  {
    match t
    case Leaf(_, _) =>
    case Node(_, keys, kids) =>
      if |kids| == |keys| + 1 {
        DeleteLength(kids[ChildIndex(keys, key)], key, NextOf(kids, ChildIndex(keys, key), next));
      }
    case Half(left, _, right) =>
      DeleteLength(left, key, FirstLeaf(right));
  }

  lemma {:induction false} DeleteBalanced(t: Tree, h: nat, least: nat, key: Key, next: PageId)
    requires Balanced(t, h, least)
    ensures Balanced(DeleteFrom(t, key, next).tree, h, least)
    decreases t
  {
    match t
    case Leaf(_, cells) =>
      DelLength(cells, key);
    case Node(_, keys, kids) =>
      var i := ChildIndex(keys, key);
      DeleteBalanced(kids[i], h - 1, 2, key, NextOf(kids, i, next));
  }

  /** Delete removes exactly the cell with the key, unless a half-done split hides that cell, and keeps the order. */
  lemma {:induction false} DeleteContents(t: Tree, key: Key, next: PageId, lo: int, hi: int)
    requires Ordered(t, lo, hi) && lo <= key < hi
    ensures var out := DeleteFrom(t, key, next);
            && Ordered(out.tree, lo, hi)
            && Contents(out.tree) == (if HasKey(Hidden(t), key) then Contents(t) else Del(Contents(t), key))
            && (out.writes != [] <==> HasKey(Contents(t), key) && !HasKey(Hidden(t), key))
    decreases t, 1
  {
    match t
    case Leaf(_, cells) =>
      DelMembers(cells, key);
      DelLength(cells, key);
      LookupKey(cells, key);
    case Node(_, keys, kids) =>
      DeleteNodeContents(t, key, next, lo, hi);
    case Half(left, sep, right) =>
      DeleteHalfContents(t, key, next, lo, hi);
  }

  lemma {:induction false} DeleteNodeContents(t: Tree, key: Key, next: PageId, lo: int, hi: int)
    requires t.Node? && Ordered(t, lo, hi) && lo <= key < hi
    ensures var out := DeleteFrom(t, key, next);
            && Ordered(out.tree, lo, hi)
            && Contents(out.tree) == (if HasKey(Hidden(t), key) then Contents(t) else Del(Contents(t), key))
            && (out.writes != [] <==> HasKey(Contents(t), key) && !HasKey(Hidden(t), key))
    decreases t, 0
  {
    var keys, kids, i := t.keys, t.kids, ChildIndex(t.keys, key);
    ChildBounds(keys, key, lo, hi);
    DeleteContents(kids[i], key, NextOf(kids, i, next), Lo(keys, i, lo), Hi(keys, i, hi));
    var below := DeleteFrom(kids[i], key, NextOf(kids, i, next));
    ReplaceKidOrdered(t, i, below.tree, lo, hi);
    Surroundings(t, key, lo, hi);
    ContentsSplit(kids, i);
    KeyInKid(t, i, key);
    DelMiddle(ContentsAll(kids[..i]), Contents(kids[i]), ContentsAll(kids[i + 1..]), key);
    ReplaceKidContents(kids, i, below.tree);
  }

  lemma {:induction false} DeleteHalfContents(t: Tree, key: Key, next: PageId, lo: int, hi: int)
    requires t.Half? && Ordered(t, lo, hi) && lo <= key < hi
    ensures var out := DeleteFrom(t, key, next);
            && Ordered(out.tree, lo, hi)
            && Contents(out.tree) == (if HasKey(Hidden(t), key) then Contents(t) else Del(Contents(t), key))
            && (out.writes != [] <==> HasKey(Contents(t), key) && !HasKey(Hidden(t), key))
    decreases t, 0
  {
    OrderedContents(t.left, lo, t.sep);
    OrderedContents(t.right, t.sep, hi);
    HiddenInContents(t.left);
    if key < t.sep {
      DeleteContents(t.left, key, FirstLeaf(t.right), lo, t.sep);
      DelStop(Contents(t.left), Contents(t.right), key);
    } else {
      DeleteAbsent(t.left, key, FirstLeaf(t.right), lo, t.sep);
      LookupKey(Contents(t), key);
      DelLength(Contents(t), key);
    }
  }

  /** Nothing is written for a key that lies above the whole tree. */
  lemma {:induction false} DeleteAbsent(t: Tree, key: Key, next: PageId, lo: int, hi: int)
    requires Ordered(t, lo, hi) && hi <= key
    ensures DeleteFrom(t, key, next) == Removal(t, [])
    decreases t
  {
    match t
    case Leaf(_, cells) =>
      LookupKey(cells, key);
    case Node(id, keys, kids) =>
      var i := ChildIndex(keys, key);
      LastKid(t, key, lo, hi);
      DeleteAbsent(kids[i], key, NextOf(kids, i, next), Lo(keys, i, lo), Hi(keys, i, hi));
      assert kids[i := kids[i]] == kids;
    case Half(left, sep, right) =>
      DeleteAbsent(left, key, FirstLeaf(right), lo, sep);
  }

  lemma LastKid(t: Tree, key: Key, lo: int, hi: int)
    requires t.Node? && Ordered(t, lo, hi) && hi <= key
    ensures Hi(t.keys, ChildIndex(t.keys, key), hi) <= key
  {
    var i := ChildIndex(t.keys, key);
    if i < |t.keys| {
      OrderedKids(t, i + 1, |t.kids|, lo, hi);
    }
  }

  /** Writing the one changed leaf leaves the new tree in the store. */
  lemma {:induction false} DeleteRep(s: Store, t: Tree, key: Key, next: PageId, free: PageId)
    requires Rep(s, t, next) && Distinct(t) && Below(t, free)
    ensures var out := DeleteFrom(t, key, next);
            && Grown(out.tree, t, free, free)
            && WritesWithin(out.writes, t, free, free)
            && Rep(Apply(s, out.writes), out.tree, next)
    decreases t
  {
    match t
    case Leaf(id, cells) =>
      if Lookup(cells, key).Some? {
        ApplyOne(s, Image(id, LeafPage(Del(cells, key), next)));
      }
    case Node(_, keys, kids) =>
      var i := ChildIndex(keys, key);
      KidIds(t, i);
      DeleteRep(s, kids[i], key, NextOf(kids, i, next), free);
      var below := DeleteFrom(kids[i], key, NextOf(kids, i, next));
      ReplaceKidGrown(t, i, below.tree, free, free);
      ApplySameOutside(s, below.writes, kids[i], free, free);
      ReplaceKidRep(s, Apply(s, below.writes), t, i, below.tree, next, free, free);
    case Half(left, sep, right) =>
      HalfFacts(t, free);
      DeleteRep(s, left, key, FirstLeaf(right), free);
      var below := DeleteFrom(left, key, FirstLeaf(right));
      LeftGrown(t, below.tree, free, free);
      ApplySameOutside(s, below.writes, left, free, free);
      RepFrame(s, Apply(s, below.writes), right, next);
  }
}
