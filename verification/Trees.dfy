/** Shape of a B+tree laid out in a page store.

    `Half(left, sep, right)` is a node whose split has been written but whose parent still
    names only the left part: descent sees `left`, the leaf chain runs through both parts.  No page
    records `sep`; any bound between the keys of the two parts will do.
    A tree between operations has no `Half`; a tree recovered from a crash may have one. */
module Trees {
  import opened Pages
  import opened Cells

  datatype Tree =
    | Leaf(id: PageId, cells: seq<Cell>)
    | Node(id: PageId, keys: seq<Key>, kids: seq<Tree>)
    | Half(left: Tree, sep: int, right: Tree)

  /** The page a parent names to reach this tree. */
  function RootId(t: Tree): PageId {
    match t
    case Leaf(id, _) => id
    case Node(id, _, _) => id
    case Half(left, _, _) => RootId(left)
  }

  function FirstLeaf(t: Tree): PageId {
    match t
    case Leaf(id, _) => id
    case Node(_, _, kids) => if kids == [] then INVALID_PAGE_ID else FirstLeaf(kids[0])
    case Half(left, _, _) => FirstLeaf(left)
  }

  /** The leaf that follows kid `i` in the chain. */
  function NextOf(kids: seq<Tree>, i: nat, next: PageId): PageId {
    if i + 1 < |kids| then FirstLeaf(kids[i + 1]) else next
  }

  ghost function Ids(t: Tree): set<PageId> {
    match t
    case Leaf(id, _) => {id}
    case Node(id, _, kids) => {id} + set i, p | 0 <= i < |kids| && p in Ids(kids[i]) :: p
    case Half(left, _, right) => Ids(left) + Ids(right)
  }

  /** No page is used twice. */
  ghost predicate Distinct(t: Tree) {
    match t
    case Leaf(_, _) => true
    case Node(id, _, kids) =>
      && (forall i :: 0 <= i < |kids| ==> Distinct(kids[i]) && id !in Ids(kids[i]))
      && (forall i, j :: 0 <= i < j < |kids| ==> Ids(kids[i]) !! Ids(kids[j]))
    case Half(left, _, right) => Distinct(left) && Distinct(right) && Ids(left) !! Ids(right)
  }

  /** Every cell of the tree, in leaf-chain order. */
  function Contents(t: Tree): seq<Cell>
    decreases t, 1
  {
    match t
    case Leaf(_, cells) => cells
    case Node(_, _, kids) => ContentsAll(kids)
    case Half(left, _, right) => Contents(left) + Contents(right)
  }

  function ContentsAll(ts: seq<Tree>): seq<Cell>
    decreases ts, 0
  {
    if ts == [] then [] else Contents(ts[0]) + ContentsAll(ts[1..])
  }

  function Lo(keys: seq<Key>, i: nat, lo: int): int
    requires i <= |keys|
  {
    if i == 0 then lo else keys[i - 1]
  }

  function Hi(keys: seq<Key>, i: nat, hi: int): int
    requires i <= |keys|
  {
    if i == |keys| then hi else keys[i]
  }

  /** Keys lie in [lo, hi); a separator bounds the kid on its left from above (strictly) and the kid
      on its right from below. */
  ghost predicate Ordered(t: Tree, lo: int, hi: int) {
    && lo <= hi
    && match t
       case Leaf(_, cells) => Sorted(cells) && Within(cells, lo, hi)
       case Node(_, keys, kids) =>
         && |kids| == |keys| + 1
         && forall i :: 0 <= i < |kids| ==> Ordered(kids[i], Lo(keys, i, lo), Hi(keys, i, hi))
       case Half(left, sep, right) => Ordered(left, lo, sep) && Ordered(right, sep, hi)
  }

  function Seps(keys: seq<Key>, kids: seq<Tree>): (s: seq<Sep>)
    requires |kids| == |keys| + 1
    ensures |s| == |keys|
    ensures forall i :: 0 <= i < |s| ==> s[i] == Sep(keys[i], RootId(kids[i + 1]))
  {
    seq(|keys|, i requires 0 <= i < |keys| => Sep(keys[i], RootId(kids[i + 1])))
  }

  function NodePage(keys: seq<Key>, kids: seq<Tree>): Page
    requires |kids| == |keys| + 1
  {
    InternalPage(RootId(kids[0]), Seps(keys, kids))
  }

  /** The store holds this tree, and the last leaf of the tree points at `next`. */
  ghost predicate Rep(store: Store, t: Tree, next: PageId) {
    match t
    case Leaf(id, cells) => id in store && store[id] == LeafPage(cells, next)
    case Node(id, keys, kids) =>
      && |kids| == |keys| + 1
      && id in store && store[id] == NodePage(keys, kids)
      && forall i :: 0 <= i < |kids| ==> Rep(store, kids[i], NextOf(kids, i, next))
    case Half(left, _, right) => Rep(store, left, FirstLeaf(right)) && Rep(store, right, next)
  }

  /** All leaves at depth `h`; nodes hold at most four keys, and internal nodes below the root at least two. */
  ghost predicate Balanced(t: Tree, h: nat, least: nat) {
    match t
    case Leaf(_, cells) => h == 0 && |cells| <= LEAF_MAX_KEYS
    case Node(_, keys, kids) =>
      && h > 0
      && least <= |keys| <= INTERNAL_MAX_KEYS && |kids| == |keys| + 1
      && forall i :: 0 <= i < |kids| ==> Balanced(kids[i], h - 1, 2)
    case Half(_, _, _) => false
  }

  /** At most `h` levels of internal nodes on any way down, and no leaf with more cells than a page takes. */
  ghost predicate Fits(t: Tree, h: nat) {
    match t
    case Leaf(_, cells) => |cells| <= LEAF_MAX_KEYS
    case Node(_, _, kids) => h > 0 && forall i :: 0 <= i < |kids| ==> Fits(kids[i], h - 1)
    case Half(left, _, right) => Fits(left, h) && Fits(right, h)
  }

  ghost function Height(t: Tree): nat
    decreases t, 1
  {
    match t
    case Leaf(_, _) => 0
    case Node(_, _, kids) => 1 + HeightAll(kids)
    case Half(left, _, right) => Max(Height(left), Height(right))
  }

  ghost function HeightAll(ts: seq<Tree>): nat
    decreases ts, 0
  {
    if ts == [] then 0 else Max(Height(ts[0]), HeightAll(ts[1..]))
  }

  function Max(a: nat, b: nat): nat {
    if a < b then b else a
  }

  lemma {:induction false} HeightKid(ts: seq<Tree>, i: nat)
    requires i < |ts|
    ensures Height(ts[i]) <= HeightAll(ts)
  {
    if i > 0 {
      HeightKid(ts[1..], i - 1);
    }
  }

  lemma {:induction false} FitsHigher(t: Tree, h: nat, h': nat)
    requires Fits(t, h) && h <= h'
    ensures Fits(t, h')
    decreases t
  {
    match t
    case Leaf(_, _) =>
    case Node(_, _, kids) =>
      forall i | 0 <= i < |kids|
        ensures Fits(kids[i], h' - 1)
      {
        FitsHigher(kids[i], h - 1, h' - 1);
      }
    case Half(left, _, right) =>
      FitsHigher(left, h, h');
      FitsHigher(right, h, h');
  }

  lemma {:induction false} BalancedFits(t: Tree, h: nat, least: nat)
    requires Balanced(t, h, least)
    ensures Fits(t, h)
    decreases t
  {
    if t.Node? {
      forall i | 0 <= i < |t.kids|
        ensures Fits(t.kids[i], h - 1)
      {
        BalancedFits(t.kids[i], h - 1, 2);
      }
    }
  }

  // ---------- framing ----------

  /** A tree stays represented while none of its own pages change. */
  lemma {:induction false} RepFrame(s: Store, s': Store, t: Tree, next: PageId)
    requires Rep(s, t, next)
    requires forall p <- Ids(t) :: p in s ==> p in s' && s'[p] == s[p]
    ensures Rep(s', t, next)
    decreases t
  {
    match t
    case Leaf(_, _) =>
    case Node(_, _, kids) =>
      forall i | 0 <= i < |kids|
        ensures Rep(s', kids[i], NextOf(kids, i, next))
      {
        assert Ids(kids[i]) <= Ids(t);
        RepFrame(s, s', kids[i], NextOf(kids, i, next));
      }
    case Half(left, _, right) =>
      RepFrame(s, s', left, FirstLeaf(right));
      RepFrame(s, s', right, next);
  }

  /** Every page of a represented tree is in the store. */
  lemma {:induction false} RepIds(s: Store, t: Tree, next: PageId)
    requires Rep(s, t, next)
    ensures forall p <- Ids(t) :: p in s
    decreases t
  {
    match t
    case Leaf(_, _) =>
    case Node(_, _, kids) =>
      forall p | p in Ids(t)
        ensures p in s
      {
        if p != t.id {
          var i :| 0 <= i < |kids| && p in Ids(kids[i]);
          RepIds(s, kids[i], NextOf(kids, i, next));
        }
      }
    case Half(left, _, right) =>
      RepIds(s, left, FirstLeaf(right));
      RepIds(s, right, next);
  }

  // ---------- contents ----------

  lemma {:induction false} ContentsAppend(a: seq<Tree>, b: seq<Tree>)
    ensures ContentsAll(a + b) == ContentsAll(a) + ContentsAll(b)
  {
    if a == [] {
      assert a + b == b;
    } else {
      assert (a + b)[1..] == a[1..] + b;
      ContentsAppend(a[1..], b);
    }
  }

  lemma ContentsSplit(kids: seq<Tree>, i: nat)
    requires i < |kids|
    ensures ContentsAll(kids) == ContentsAll(kids[..i]) + Contents(kids[i]) + ContentsAll(kids[i + 1..])
  {
    assert kids == kids[..i] + kids[i..];
    ContentsAppend(kids[..i], kids[i..]);
    assert kids[i..][1..] == kids[i + 1..];
  }

  /** Contents of an ordered tree are sorted and stay in its bounds. */
  lemma {:induction false} OrderedContents(t: Tree, lo: int, hi: int)
    requires Ordered(t, lo, hi)
    ensures Sorted(Contents(t)) && Within(Contents(t), lo, hi)
    decreases t, 1
  {
    match t
    case Leaf(_, _) =>
    case Node(_, keys, kids) =>
      assert kids[0..|kids|] == kids;
      OrderedKids(t, 0, |kids|, lo, hi);
    case Half(left, sep, right) =>
      OrderedContents(left, lo, sep);
      OrderedContents(right, sep, hi);
      SortedAppend(Contents(left), Contents(right), lo, sep, hi);
  }

  /** The kids from `a` to `b` hold sorted keys between the separators around them. */
  lemma {:induction false} OrderedKids(t: Tree, a: nat, b: nat, lo: int, hi: int)
    requires t.Node? && Ordered(t, lo, hi)
    requires a < b <= |t.kids|
    ensures Lo(t.keys, a, lo) <= Hi(t.keys, b - 1, hi)
    ensures Sorted(ContentsAll(t.kids[a..b]))
    ensures Within(ContentsAll(t.kids[a..b]), Lo(t.keys, a, lo), Hi(t.keys, b - 1, hi))
    decreases t, 0, b - a
  {
    var kids, keys := t.kids, t.keys;
    OrderedContents(kids[a], Lo(keys, a, lo), Hi(keys, a, hi));
    assert kids[a..b][1..] == kids[a + 1..b];
    if a + 1 == b {
      assert ContentsAll(kids[a..b]) == Contents(kids[a]);
    } else {
      OrderedKids(t, a + 1, b, lo, hi);
      SortedAppend(Contents(kids[a]), ContentsAll(kids[a + 1..b]),
                   Lo(keys, a, lo), keys[a], Hi(keys, b - 1, hi));
    }
  }
}
