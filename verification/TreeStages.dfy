/** Every store an insert passes through on its way to the log holds a tree.

    `Stage(..., k)` is that tree after the first `k` page images: before the left half of a split
    leaf is written it still has the old contents, from then on it has the new contents, and at
    most one node on the descent path is a `Half`. */
module TreeStages {
  import opened Pages
  import opened Cells
  import opened Trees
  import opened TreeUpdate

  function Stage(t: Tree, key: Key, value: Bytes, free: PageId, next: PageId, k: nat): Tree
    decreases t
  {
    match t
    case Leaf(id, cells) =>
      var out := LeafOutcome(id, Put(cells, key, value), free, next);
      if k < |out.writes| then t else out.tree
    case Node(id, keys, kids) =>
      var i := ChildIndex(keys, key);
      if |kids| != |keys| + 1 then t
      else
        var below := InsertInto(kids[i], key, value, free, NextOf(kids, i, next));
        if k <= |below.writes| then
          Node(id, keys, kids[i := Stage(kids[i], key, value, free, NextOf(kids, i, next), k)])
        else if k < |InsertInto(t, key, value, free, next).writes| then
          Node(id, keys, kids[i := below.tree])
        else
          InsertInto(t, key, value, free, next).tree
    case Half(left, sep, right) =>
      if k < |InsertInto(t, key, value, free, next).writes| then Half(Stage(left, key, value, free, FirstLeaf(right), k), sep, right)
      else InsertInto(t, key, value, free, next).tree
  }

  /** The number of images after which the new contents are visible to a scan: one, or two when the leaf splits. */
  function CommitPoint(t: Tree, key: Key, value: Bytes, free: PageId, next: PageId): nat
    decreases t
  {
    match t
    case Leaf(id, cells) => |LeafOutcome(id, Put(cells, key, value), free, next).writes|
    case Node(id, keys, kids) =>
      var i := ChildIndex(keys, key);
      if |kids| != |keys| + 1 then 0
      else CommitPoint(kids[i], key, value, free, NextOf(kids, i, next))
    case Half(left, _, right) => CommitPoint(left, key, value, free, FirstLeaf(right))
  }

  lemma {:induction false} StageLast(t: Tree, key: Key, value: Bytes, free: PageId, next: PageId)
    ensures Stage(t, key, value, free, next, |InsertInto(t, key, value, free, next).writes|)
         == InsertInto(t, key, value, free, next).tree
    decreases t
  {
    match t
    case Leaf(id, cells) =>
    case Node(id, keys, kids) =>
      if |kids| == |keys| + 1 {
        var i := ChildIndex(keys, key);
        StageLast(kids[i], key, value, free, NextOf(kids, i, next));
      }
    case Half(_, _, _) =>
  }

  lemma {:induction false} StageOrdered(t: Tree, key: Key, value: Bytes, free: PageId, next: PageId, k: nat, lo: int, hi: int)
    requires Ordered(t, lo, hi) && Open(t, key) && lo <= key < hi
    ensures Ordered(Stage(t, key, value, free, next, k), lo, hi)
    decreases t
  {
    InsertOrdered(t, key, value, free, next, lo, hi);
    match t
    case Leaf(id, cells) =>
    case Node(id, keys, kids) =>
      hide Sorted, Within;
      var i := ChildIndex(keys, key);
      ChildBounds(keys, key, lo, hi);
      StageOrdered(kids[i], key, value, free, NextOf(kids, i, next), k, Lo(keys, i, lo), Hi(keys, i, hi));
      InsertOrdered(kids[i], key, value, free, NextOf(kids, i, next), Lo(keys, i, lo), Hi(keys, i, hi));
      ReplaceKidOrdered(t, i, InsertInto(kids[i], key, value, free, NextOf(kids, i, next)).tree, lo, hi);
      ReplaceKidOrdered(t, i, Stage(kids[i], key, value, free, NextOf(kids, i, next), k), lo, hi);
    case Half(left, sep, right) =>
      StageOrdered(left, key, value, free, FirstLeaf(right), k, lo, sep);
  }

  lemma {:induction false} CommitPointBound(t: Tree, key: Key, value: Bytes, free: PageId, next: PageId)
    requires Open(t, key)
    ensures 0 < CommitPoint(t, key, value, free, next) <= |InsertInto(t, key, value, free, next).writes|
    decreases t
  {
    match t
    case Leaf(_, _) =>
    case Node(id, keys, kids) =>
      var i := ChildIndex(keys, key);
      CommitPointBound(kids[i], key, value, free, NextOf(kids, i, next));
    case Half(left, _, right) =>
      CommitPointBound(left, key, value, free, FirstLeaf(right));
  }

  /** The contents change once, all at the commit point. */
  lemma {:induction false} StageContents(t: Tree, key: Key, value: Bytes, free: PageId, next: PageId, k: nat, lo: int, hi: int)
    requires Ordered(t, lo, hi) && Open(t, key) && lo <= key < hi
    ensures Contents(Stage(t, key, value, free, next, k))
         == if k < CommitPoint(t, key, value, free, next) then Contents(t) else Put(Contents(t), key, value)
    decreases t, 1
  {
    InsertContents(t, key, value, free, next, lo, hi);
    CommitPointBound(t, key, value, free, next);
    match t
    case Leaf(id, cells) =>
    case Node(_, _, _) =>
      NodeStageContents(t, key, value, free, next, k, lo, hi);
    case Half(left, sep, right) =>
      HalfStageContents(t, key, value, free, next, k, lo, hi);
  }

  lemma NodeStageIs(t: Tree, key: Key, value: Bytes, free: PageId, next: PageId, k: nat, lo: int, hi: int)
    requires t.Node? && Ordered(t, lo, hi) && Open(t, key) && lo <= key < hi
    ensures |t.kids| == |t.keys| + 1
    ensures var i := ChildIndex(t.keys, key);
            var nxt := NextOf(t.kids, i, next);
            var below := InsertInto(t.kids[i], key, value, free, nxt);
            && Open(t.kids[i], key) && Ordered(t.kids[i], Lo(t.keys, i, lo), Hi(t.keys, i, hi))
            && Lo(t.keys, i, lo) <= key < Hi(t.keys, i, hi)
            && CommitPoint(t, key, value, free, next) == CommitPoint(t.kids[i], key, value, free, nxt)
            && |below.writes| <= |InsertInto(t, key, value, free, next).writes|
            && var stage := Stage(t, key, value, free, next, k);
               || (k <= |below.writes| && stage == Node(t.id, t.keys, t.kids[i := Stage(t.kids[i], key, value, free, nxt, k)]))
               || (k > |below.writes| && stage == Node(t.id, t.keys, t.kids[i := below.tree]))
               || (k > |below.writes| && stage == InsertInto(t, key, value, free, next).tree)
  {
    hide Contents, ContentsAll, Put, Sorted, Within;
    ChildBounds(t.keys, key, lo, hi);
  }

  lemma {:induction false} NodeStageContents(t: Tree, key: Key, value: Bytes, free: PageId, next: PageId, k: nat, lo: int, hi: int)
    requires t.Node? && Ordered(t, lo, hi) && Open(t, key) && lo <= key < hi
    ensures Contents(Stage(t, key, value, free, next, k))
         == if k < CommitPoint(t, key, value, free, next) then Contents(t) else Put(Contents(t), key, value)
    decreases t, 0
  {
    hide *;
    var i := ChildIndex(t.keys, key);
    var nxt := NextOf(t.kids, i, next);
    NodeStageIs(t, key, value, free, next, k, lo, hi);
    InsertContents(t, key, value, free, next, lo, hi);
    StageContents(t.kids[i], key, value, free, nxt, k, Lo(t.keys, i, lo), Hi(t.keys, i, hi));
    InsertContents(t.kids[i], key, value, free, nxt, Lo(t.keys, i, lo), Hi(t.keys, i, hi));
    CommitPointBound(t.kids[i], key, value, free, nxt);
    Surroundings(t, key, lo, hi);
    KidContents(t, i, key, value, Stage(t.kids[i], key, value, free, nxt, k));
    KidContents(t, i, key, value, InsertInto(t.kids[i], key, value, free, nxt).tree);
  }

  lemma HalfStageIs(t: Tree, key: Key, value: Bytes, free: PageId, next: PageId, k: nat, lo: int, hi: int)
    requires t.Half? && Ordered(t, lo, hi) && Open(t, key)
    ensures var stage := Stage(t.left, key, value, free, FirstLeaf(t.right), k);
            var below := InsertInto(t.left, key, value, free, FirstLeaf(t.right));
            && InsertInto(t, key, value, free, next).writes == below.writes
            && Stage(t, key, value, free, next, k) == (if k < |below.writes| then Half(stage, t.sep, t.right) else InsertInto(t, key, value, free, next).tree)
            && Contents(Half(stage, t.sep, t.right)) == Contents(stage) + Contents(t.right)
    ensures CommitPoint(t, key, value, free, next) == CommitPoint(t.left, key, value, free, FirstLeaf(t.right))
    ensures Ordered(t.left, lo, t.sep) && Ordered(t.right, t.sep, hi) && Open(t.left, key) && key < t.sep
    ensures Contents(t) == Contents(t.left) + Contents(t.right)
  {
    hide ContentsAll, Put, Sorted, Within;
  }

  lemma {:induction false} HalfStageContents(t: Tree, key: Key, value: Bytes, free: PageId, next: PageId, k: nat, lo: int, hi: int)
    requires t.Half? && Ordered(t, lo, hi) && Open(t, key) && lo <= key < hi
    ensures Contents(Stage(t, key, value, free, next, k))
         == if k < CommitPoint(t, key, value, free, next) then Contents(t) else Put(Contents(t), key, value)
    decreases t, 0
  {
    hide *;
    InsertContents(t, key, value, free, next, lo, hi);
    HalfStageIs(t, key, value, free, next, k, lo, hi);
    StageContents(t.left, key, value, free, FirstLeaf(t.right), k, lo, t.sep);
    CommitPointBound(t.left, key, value, free, FirstLeaf(t.right));
    OrderedContents(t.right, t.sep, hi);
    assert forall c <- Contents(t.right) :: key < c.key by {
      WithinBound(Contents(t.right), t.sep, hi);
    }
    PutRight(Contents(t.left), Contents(t.right), key, value);
  }

  lemma WithinBound(cells: seq<Cell>, lo: int, hi: int)
    requires Within(cells, lo, hi)
    ensures forall c <- cells :: lo <= c.key < hi
  {
  }

  /** Changing one kid's contents changes the node's contents the same way. */
  lemma {:induction false} KidContents(t: Tree, i: nat, key: Key, value: Bytes, kid: Tree)
    requires t.Node? && i < |t.kids|
    requires forall c <- ContentsAll(t.kids[..i]) :: c.key < key
    requires forall c <- ContentsAll(t.kids[i + 1..]) :: key < c.key
    ensures var now := Node(t.id, t.keys, t.kids[i := kid]);
            && (Contents(kid) == Contents(t.kids[i]) ==> Contents(now) == Contents(t))
            && (Contents(kid) == Put(Contents(t.kids[i]), key, value) ==> Contents(now) == Put(Contents(t), key, value))
  {
    ContentsSplit(t.kids, i);
    PutMiddle(ContentsAll(t.kids[..i]), Contents(t.kids[i]), ContentsAll(t.kids[i + 1..]), key, value);
    ReplaceKidContents(t.kids, i, kid);
  }

  // ---------- pages ----------

  /** `now` replaces `was`: same entry page, same first leaf, and only pages of `was` or newly allocated ones. */
  ghost predicate Grown(now: Tree, was: Tree, free: PageId, free': PageId) {
    && Distinct(now)
    && RootId(now) == RootId(was)
    && FirstLeaf(now) == FirstLeaf(was)
    && forall p <- Ids(now) :: p in Ids(was) || free <= p < free'
  }

  ghost predicate Below(t: Tree, free: PageId) {
    forall p <- Ids(t) :: p < free
  }

  lemma KidIds(t: Tree, i: nat)
    requires t.Node? && i < |t.kids|
    ensures Ids(t.kids[i]) <= Ids(t)
  {
  }

  lemma ReplaceKidGrown(t: Tree, i: nat, kid: Tree, free: PageId, free': PageId)
    requires t.Node? && i < |t.kids| && Distinct(t) && Below(t, free)
    requires Grown(kid, t.kids[i], free, free')
    ensures Grown(Node(t.id, t.keys, t.kids[i := kid]), t, free, free')
  {
    var kids := t.kids[i := kid];
    KidIds(t, i);
    forall a, b | 0 <= a < b < |kids|
      ensures Ids(kids[a]) !! Ids(kids[b])
    {
      KidIds(t, a);
      KidIds(t, b);
    }
  }

  lemma SplitKidGrown(t: Tree, i: nat, left: Tree, sep: Key, right: Tree, free: PageId, free': PageId)
    requires t.Node? && |t.kids| == |t.keys| + 1 && i < |t.kids| && Distinct(t) && Below(t, free)
    requires Grown(Half(left, sep, right), t.kids[i], free, free')
    ensures Grown(Node(t.id, KeysWith(t.keys, i, sep), KidsWith(t.kids, i, left, right)), t, free, free')
  {
    var kids := KidsWith(t.kids, i, left, right);
    SplitKidEach(t, i, left, sep, right, free, free');
    SplitKidPages(t, i, kids);
    assert Ids(left) !! Ids(right) && FirstLeaf(kids[0]) == FirstLeaf(t) && t.id in Ids(t);
    hide Ids, Distinct;
    forall a, b | 0 <= a < b < |kids|
      ensures Ids(kids[a]) !! Ids(kids[b])
    {
      assert kids[i] == left && kids[i + 1] == right;
    }
    KidsGrown(Node(t.id, KeysWith(t.keys, i, sep), kids), t, free, free');
  }

  /** Another kid shares no page with what kid `i` grew into. */
  lemma OtherKid(t: Tree, i: nat, j: nat, now: set<PageId>, free: PageId)
    requires t.Node? && i < |t.kids| && j < |t.kids| && i != j && Distinct(t) && Below(t, free)
    requires forall p <- now :: p in Ids(t.kids[i]) || free <= p
    ensures Distinct(t.kids[j]) && Ids(t.kids[j]) !! now && t.id !in Ids(t.kids[j]) && Ids(t.kids[j]) <= Ids(t)
  {
    KidIds(t, j);
    assert Ids(t.kids[i]) !! Ids(t.kids[j]);
  }

  lemma SplitKidEach(t: Tree, i: nat, left: Tree, sep: Key, right: Tree, free: PageId, free': PageId)
    requires t.Node? && |t.kids| == |t.keys| + 1 && i < |t.kids| && Distinct(t) && Below(t, free)
    requires Grown(Half(left, sep, right), t.kids[i], free, free')
    ensures var kids := KidsWith(t.kids, i, left, right);
            && (forall j :: 0 <= j < i ==> kids[j] == t.kids[j]) && kids[i] == left && kids[i + 1] == right
            && (forall j :: i + 1 < j < |kids| ==> kids[j] == t.kids[j - 1])
            && (forall j :: 0 <= j < |kids| ==> Distinct(kids[j]) && t.id !in Ids(kids[j]))
            && (forall j, p :: 0 <= j < |kids| && p in Ids(kids[j]) ==> p in Ids(t) || free <= p < free')
            && (forall j :: 0 <= j < |kids| && j != i && j != i + 1 ==> Ids(kids[j]) !! Ids(left) && Ids(kids[j]) !! Ids(right))
  {
    var kids := KidsWith(t.kids, i, left, right);
    KidIds(t, i);
    var both := Ids(left) + Ids(right);
    assert Ids(Half(left, sep, right)) == both && Distinct(left) && Distinct(right);
    assert t.id in Ids(t) && t.id !in Ids(t.kids[i]);
    hide Ids, Distinct;
    forall j | 0 <= j < |kids| && j != i && j != i + 1
      ensures Distinct(kids[j]) && Ids(kids[j]) !! both && t.id !in Ids(kids[j]) && Ids(kids[j]) <= Ids(t)
    {
      var j' := if j < i then j else j - 1;
      assert kids[j] == t.kids[j'];
      OtherKid(t, i, j', both, free);
    }
  }

  /** Kids on either side of the two parts were kids before, so they share no page. */
  lemma SplitKidPages(t: Tree, i: nat, kids: seq<Tree>)
    requires t.Node? && i < |t.kids| && Distinct(t) && |kids| == |t.kids| + 1
    requires forall j :: 0 <= j < i ==> kids[j] == t.kids[j]
    requires forall j :: i + 1 < j < |kids| ==> kids[j] == t.kids[j - 1]
    ensures forall a, b :: 0 <= a < b < |kids| && a != i && a != i + 1 && b != i && b != i + 1 ==> Ids(kids[a]) !! Ids(kids[b])
  {
    hide Ids;
    forall a, b | 0 <= a < b < |kids| && a != i && a != i + 1 && b != i && b != i + 1
      ensures Ids(kids[a]) !! Ids(kids[b])
    {
      var a', b' := if a < i then a else a - 1, if b < i then b else b - 1;
      assert kids[a] == t.kids[a'] && kids[b] == t.kids[b'] && a' < b';
    }
  }

  lemma KidsGrown(now: Tree, was: Tree, free: PageId, free': PageId)
    requires now.Node? && RootId(was) == now.id && now.kids != [] && FirstLeaf(now.kids[0]) == FirstLeaf(was) && now.id in Ids(was)
    requires forall i :: 0 <= i < |now.kids| ==> Distinct(now.kids[i]) && now.id !in Ids(now.kids[i])
    requires forall i, j :: 0 <= i < j < |now.kids| ==> Ids(now.kids[i]) !! Ids(now.kids[j])
    requires forall i, p :: 0 <= i < |now.kids| && p in Ids(now.kids[i]) ==> p in Ids(was) || free <= p < free'
    ensures Grown(now, was, free, free')
  {
  }

  /** The kids of a node divide between a left node that keeps the page and a right node on a new page. */
  lemma LeftPart(t: Tree, m: nat)
    requires t.Node? && |t.kids| == |t.keys| + 1 && Distinct(t) && m < |t.keys|
    ensures var l := Node(t.id, t.keys[..m], t.kids[..m + 1]);
            && Distinct(l) && Ids(l) <= Ids(t)
            && forall j, p :: m < j < |t.kids| && p in Ids(t.kids[j]) ==> p !in Ids(l)
  {
    var kids := t.kids[..m + 1];
    assert forall j :: 0 <= j < |kids| ==> kids[j] == t.kids[j];
    var l := Node(t.id, t.keys[..m], kids);
    forall p | p in Ids(l) && p != t.id
      ensures exists j :: 0 <= j <= m && p in Ids(t.kids[j])
    {
      var j :| 0 <= j < |kids| && p in Ids(kids[j]);
      assert p in Ids(t.kids[j]);
    }
  }

  lemma RightPart(t: Tree, m: nat, free: PageId)
    requires t.Node? && |t.kids| == |t.keys| + 1 && Distinct(t) && m < |t.keys| && Below(t, free)
    ensures var r := Node(free, t.keys[m + 1..], t.kids[m + 1..]);
            && Distinct(r)
            && forall p :: p in Ids(r) ==> p == free || exists j :: m < j < |t.kids| && p in Ids(t.kids[j])
  {
    var kids := t.kids[m + 1..];
    assert forall j :: 0 <= j < |kids| ==> kids[j] == t.kids[m + 1 + j];
    var r := Node(free, t.keys[m + 1..], kids);
    forall p | p in Ids(r) && p != free
      ensures exists j :: m < j < |t.kids| && p in Ids(t.kids[j])
    {
      var j :| 0 <= j < |kids| && p in Ids(kids[j]);
      assert p in Ids(t.kids[m + 1 + j]);
    }
    forall j | 0 <= j < |kids|
      ensures free !in Ids(kids[j])
    {
      KidIds(t, m + 1 + j);
    }
  }

  lemma HalvesGrown(t: Tree, m: nat, was: Tree, free: PageId, free': PageId)
    requires t.Node? && |t.kids| == |t.keys| + 1 && m < |t.keys|
    requires Grown(t, was, free, free') && free <= free' && Below(was, free)
    ensures Grown(Half(Node(t.id, t.keys[..m], t.kids[..m + 1]), t.keys[m], Node(free', t.keys[m + 1..], t.kids[m + 1..])),
                  was, free, free' + 1)
  {
    var l, r := Node(t.id, t.keys[..m], t.kids[..m + 1]), Node(free', t.keys[m + 1..], t.kids[m + 1..]);
    LeftPart(t, m);
    RightPart(t, m, free');
    forall p | p in Ids(r)
      ensures p !in Ids(l) && (p == free' || p in Ids(t))
    {
      if p == free' {
        assert free' !in Ids(t);
      } else {
        var j :| m < j < |t.kids| && p in Ids(t.kids[j]);
        KidIds(t, j);
      }
    }
    assert t.kids[..m + 1][0] == t.kids[0];
    var half := Half(l, t.keys[m], r);
    assert Distinct(half);
    assert FirstLeaf(half) == FirstLeaf(l) == FirstLeaf(t.kids[0]) == FirstLeaf(t);
    assert RootId(half) == RootId(l) == t.id == RootId(t);
    assert forall p <- Ids(half) :: p in Ids(was) || free <= p < free' + 1;
  }

  lemma NodeOutcomeGrown(id: PageId, keys: seq<Key>, kids: seq<Tree>, was: Tree, free: PageId, free': PageId)
    requires |kids| == |keys| + 1
    requires Grown(Node(id, keys, kids), was, free, free')
    requires free <= free' && Below(was, free)
    ensures Grown(NodeOutcome(id, keys, kids, free').tree, was, free, NodeOutcome(id, keys, kids, free').next)
  {
    if |keys| > INTERNAL_MAX_KEYS {
      HalvesGrown(Node(id, keys, kids), |keys| / 2, was, free, free');
    }
  }

  lemma LeafOutcomeGrown(id: PageId, cells: seq<Cell>, cells': seq<Cell>, free: PageId, next: PageId)
    requires id < free
    ensures Grown(LeafOutcome(id, cells', free, next).tree, Leaf(id, cells), free, LeafOutcome(id, cells', free, next).next)
  {
  }

  lemma BesideIds(half: Tree, sep: int, right: Tree)
    requires half.Half? && Distinct(Half(half, sep, right))
    ensures var t := Beside(half, sep, right);
            && Distinct(t) && Ids(t) == Ids(half) + Ids(right)
            && RootId(t) == RootId(half) && FirstLeaf(t) == FirstLeaf(half)
  {
  }

  lemma HalfFacts(t: Tree, free: PageId)
    requires t.Half? && Distinct(t) && Below(t, free)
    ensures Distinct(t.left) && Below(t.left, free) && Below(t.right, free) && Ids(t.left) !! Ids(t.right)
  {
    assert Ids(t) == Ids(t.left) + Ids(t.right);
  }

  /** A part that an earlier split left hidden shares no page with what grows beside it. */
  lemma LeftGrown(t: Tree, left: Tree, free: PageId, free': PageId)
    requires t.Half? && Distinct(t) && Below(t, free) && Grown(left, t.left, free, free')
    ensures Grown(Half(left, t.sep, t.right), t, free, free')
  {
    assert Ids(t) == Ids(t.left) + Ids(t.right);
  }

  ghost predicate WritesWithin(writes: seq<Image>, t: Tree, free: PageId, free': PageId) {
    forall r <- writes :: r.id in Ids(t) || free <= r.id < free'
  }

  lemma KidFacts(t: Tree, i: nat, free: PageId)
    requires t.Node? && i < |t.kids| && Distinct(t) && Below(t, free)
    ensures Distinct(t.kids[i]) && Below(t.kids[i], free)
  {
    KidIds(t, i);
  }

  /** Insert uses the pages it was given and the next free ones, each once. */
  lemma {:induction false} InsertGrown(t: Tree, key: Key, value: Bytes, free: PageId, next: PageId)
    requires Distinct(t) && Below(t, free)
    ensures var out := InsertInto(t, key, value, free, next);
            && free <= out.next
            && Grown(out.tree, t, free, out.next)
            && WritesWithin(out.writes, t, free, out.next)
    decreases t
  {
    match t
    case Leaf(id, cells) =>
      assert id in Ids(t);
      LeafOutcomeGrown(id, cells, Put(cells, key, value), free, next);
    case Node(id, keys, kids) =>
      if |kids| == |keys| + 1 {
        var i := ChildIndex(keys, key);
        KidFacts(t, i, free);
        hide Ids, Distinct, RootId, FirstLeaf, Grown, WritesWithin;
        InsertGrown(kids[i], key, value, free, NextOf(kids, i, next));
        InsertKidGrown(t, i, InsertInto(kids[i], key, value, free, NextOf(kids, i, next)), free);
      }
    case Half(left, sep, right) =>
      HalfFacts(t, free);
      hide Ids, Distinct, RootId, Grown, WritesWithin;
      InsertGrown(left, key, value, free, FirstLeaf(right));
      InsertLeftGrown(t, InsertInto(left, key, value, free, FirstLeaf(right)), free);
  }

  lemma InsertKidGrown(t: Tree, i: nat, below: Outcome, free: PageId)
    requires t.Node? && |t.kids| == |t.keys| + 1 && i < |t.kids| && Distinct(t) && Below(t, free) && SplitsInHalf(below)
    requires free <= below.next && Grown(below.tree, t.kids[i], free, below.next) && WritesWithin(below.writes, t.kids[i], free, below.next)
    ensures var out := Absorbed(t, i, below);
            below.next <= out.next && Grown(out.tree, t, free, out.next) && WritesWithin(out.writes, t, free, out.next)
  {
    KidIds(t, i);
    hide Ids, Distinct;
    if below.split.Some? {
      SplitKidGrown(t, i, below.tree.left, below.split.value, below.tree.right, free, below.next);
      NodeOutcomeGrown(t.id, KeysWith(t.keys, i, below.split.value),
                       KidsWith(t.kids, i, below.tree.left, below.tree.right), t, free, below.next);
      NodeIds(t);
    } else {
      ReplaceKidGrown(t, i, below.tree, free, below.next);
    }
  }

  lemma NodeIds(t: Tree)
    requires t.Node?
    ensures t.id in Ids(t)
  {
  }

  lemma InsertLeftGrown(t: Tree, below: Outcome, free: PageId)
    requires t.Half? && Distinct(t) && Below(t, free) && SplitsInHalf(below)
    requires Grown(below.tree, t.left, free, below.next) && WritesWithin(below.writes, t.left, free, below.next)
    ensures Grown(if below.split.Some? then Beside(below.tree, t.sep, t.right) else Half(below.tree, t.sep, t.right), t, free, below.next)
    ensures WritesWithin(below.writes, t, free, below.next)
  {
    LeftGrown(t, below.tree, free, below.next);
    if below.split.Some? {
      BesideIds(below.tree, t.sep, t.right);
    }
  }

  lemma GrownLater(now: Tree, was: Tree, free: PageId, free': PageId, free'': PageId)
    requires Grown(now, was, free, free') && free' <= free''
    ensures Grown(now, was, free, free'')
  {
  }

  lemma {:induction false} StageGrown(t: Tree, key: Key, value: Bytes, free: PageId, next: PageId, k: nat)
    requires Distinct(t) && Below(t, free)
    ensures Grown(Stage(t, key, value, free, next, k), t, free, InsertInto(t, key, value, free, next).next)
    decreases t
  {
    InsertGrown(t, key, value, free, next);
    match t
    case Leaf(id, cells) =>
    case Node(id, keys, kids) =>
      if |kids| == |keys| + 1 {
        var i := ChildIndex(keys, key);
        var nxt := NextOf(kids, i, next);
        KidFacts(t, i, free);
        hide Ids, Distinct, RootId, FirstLeaf, Grown;
        StageGrown(kids[i], key, value, free, nxt, k);
        InsertGrown(kids[i], key, value, free, nxt);
        var below := InsertInto(kids[i], key, value, free, nxt);
        var after := InsertInto(t, key, value, free, next).next;
        ReplaceKidGrown(t, i, below.tree, free, below.next);
        ReplaceKidGrown(t, i, Stage(kids[i], key, value, free, nxt, k), free, below.next);
        GrownLater(Node(id, keys, kids[i := below.tree]), t, free, below.next, after);
        GrownLater(Node(id, keys, kids[i := Stage(kids[i], key, value, free, nxt, k)]), t, free, below.next, after);
      }
    case Half(left, sep, right) =>
      HalfFacts(t, free);
      hide Ids, Distinct, RootId, FirstLeaf, Grown, WritesWithin;
      StageGrown(left, key, value, free, FirstLeaf(right), k);
      LeftGrown(t, Stage(left, key, value, free, FirstLeaf(right), k), free, InsertInto(t, key, value, free, next).next);
  }

  // ---------- representation ----------

  ghost predicate RepKids(s: Store, kids: seq<Tree>, next: PageId) {
    forall i :: 0 <= i < |kids| ==> Rep(s, kids[i], NextOf(kids, i, next))
  }

  ghost predicate SameOutside(s: Store, s': Store, t: Tree, free: PageId) {
    forall p <- s :: p < free && p !in Ids(t) ==> p in s' && s'[p] == s[p]
  }

  lemma ApplySameOutside(s: Store, writes: seq<Image>, t: Tree, free: PageId, free': PageId)
    requires WritesWithin(writes, t, free, free')
    ensures SameOutside(s, Apply(s, writes), t, free)
  {
    forall p | p in s && p < free && p !in Ids(t)
      ensures p in Apply(s, writes) && Apply(s, writes)[p] == s[p]
    {
      ApplyFrame(s, writes, p);
    }
  }

  /** Rewriting one kid, with its entry page and first leaf unchanged, leaves the node represented. */
  lemma {:induction false} ReplaceKidRep(s: Store, s': Store, t: Tree, i: nat, kid: Tree, next: PageId, free: PageId, free': PageId)
    requires t.Node? && i < |t.kids| && Rep(s, t, next) && Distinct(t) && Below(t, free)
    requires Grown(kid, t.kids[i], free, free')
    requires Rep(s', kid, NextOf(t.kids, i, next))
    requires SameOutside(s, s', t.kids[i], free)
    ensures Rep(s', Node(t.id, t.keys, t.kids[i := kid]), next)
  {
    var kids := t.kids[i := kid];
    assert t.id in Ids(t) && t.id !in Ids(t.kids[i]);
    assert NodePage(t.keys, kids) == NodePage(t.keys, t.kids) by {
      assert Seps(t.keys, kids) == Seps(t.keys, t.kids);
    }
    forall j | 0 <= j < |kids|
      ensures Rep(s', kids[j], NextOf(kids, j, next))
    {
      assert NextOf(kids, j, next) == NextOf(t.kids, j, next);
      if j != i {
        KidIds(t, j);
        RepIds(s, t.kids[j], NextOf(t.kids, j, next));
        RepFrame(s, s', t.kids[j], NextOf(t.kids, j, next));
      }
    }
  }

  /** Naming both parts of a split kid keeps every kid represented. */
  lemma {:induction false} SplitKidRep(s: Store, kids: seq<Tree>, i: nat, left: Tree, sep: Key, right: Tree, next: PageId)
    requires i < |kids| && RepKids(s, kids[i := Half(left, sep, right)], next)
    requires FirstLeaf(left) == FirstLeaf(kids[i])
    ensures RepKids(s, KidsWith(kids, i, left, right), next)
  {
    var was := kids[i := Half(left, sep, right)];
    var now := KidsWith(kids, i, left, right);
    assert was[i] == Half(left, sep, right);
    assert Rep(s, left, FirstLeaf(right)) && Rep(s, right, NextOf(was, i, next));
    forall j | 0 <= j < |now|
      ensures Rep(s, now[j], NextOf(now, j, next))
    {
      if j < i {
        assert now[j] == was[j];
        assert NextOf(now, j, next) == NextOf(was, j, next);
      } else if j == i {
        assert NextOf(now, j, next) == FirstLeaf(right);
      } else if j == i + 1 {
        assert NextOf(now, j, next) == NextOf(was, i, next);
      } else {
        assert now[j] == was[j - 1];
        assert NextOf(now, j, next) == NextOf(was, j - 1, next);
      }
    }
  }

  lemma RepKidsFrame(s: Store, s': Store, kids: seq<Tree>, next: PageId)
    requires RepKids(s, kids, next)
    requires forall i, p :: 0 <= i < |kids| && p in Ids(kids[i]) && p in s ==> p in s' && s'[p] == s[p]
    ensures RepKids(s', kids, next)
  {
    forall i | 0 <= i < |kids|
      ensures Rep(s', kids[i], NextOf(kids, i, next))
    {
      RepFrame(s, s', kids[i], NextOf(kids, i, next));
    }
  }

  lemma {:induction false} LeftRep(s: Store, kids: seq<Tree>, next: PageId, m: nat)
    requires RepKids(s, kids, next) && m + 1 < |kids|
    ensures RepKids(s, kids[..m + 1], FirstLeaf(kids[m + 1]))
  {
    hide Rep, FirstLeaf;
    var lk := kids[..m + 1];
    forall j | 0 <= j < |lk|
      ensures Rep(s, lk[j], NextOf(lk, j, FirstLeaf(kids[m + 1])))
    {
      assert lk[j] == kids[j] && NextOf(kids, j, next) == NextOf(lk, j, FirstLeaf(kids[m + 1]));
    }
  }

  lemma {:induction false} RightRep(s: Store, kids: seq<Tree>, next: PageId, m: nat)
    requires RepKids(s, kids, next) && m + 1 < |kids|
    ensures RepKids(s, kids[m + 1..], next)
  {
    hide Rep, FirstLeaf;
    var rk := kids[m + 1..];
    forall j | 0 <= j < |rk|
      ensures Rep(s, rk[j], NextOf(rk, j, next))
    {
      assert rk[j] == kids[m + 1 + j] && NextOf(kids, m + 1 + j, next) == NextOf(rk, j, next);
    }
  }

  lemma {:induction false} HalvesRep(s: Store, id: PageId, keys: seq<Key>, kids: seq<Tree>, free: PageId, next: PageId, m: nat)
    requires |kids| == |keys| + 1 && RepKids(s, kids, next) && m < |keys|
    requires id in s && s[id] == NodePage(keys[..m], kids[..m + 1])
    requires free in s && s[free] == NodePage(keys[m + 1..], kids[m + 1..])
    ensures Rep(s, Half(Node(id, keys[..m], kids[..m + 1]), keys[m], Node(free, keys[m + 1..], kids[m + 1..])), next)
  {
    hide Seps, NodePage;
    LeftRep(s, kids, next, m);
    RightRep(s, kids, next, m);
    var r := Node(free, keys[m + 1..], kids[m + 1..]);
    assert FirstLeaf(r) == FirstLeaf(kids[m + 1]);
    assert Rep(s, r, next);
  }

  ghost predicate Clear(kids: seq<Tree>, p: PageId) {
    forall i :: 0 <= i < |kids| ==> p !in Ids(kids[i])
  }

  lemma RepKidsUpdate(s: Store, kids: seq<Tree>, next: PageId, p: PageId, page: Page)
    requires RepKids(s, kids, next) && Clear(kids, p)
    ensures RepKids(s[p := page], kids, next)
  {
    RepKidsFrame(s, s[p := page], kids, next);
  }

  /** Writing the images of a node, in order, turns represented kids into a represented node or pair of nodes. */
  lemma {:induction false} NodeOutcomeRep(s: Store, id: PageId, keys: seq<Key>, kids: seq<Tree>, free: PageId, next: PageId)
    requires |kids| == |keys| + 1 && RepKids(s, kids, next)
    requires Clear(kids, id) && Clear(kids, free) && id != free
    ensures Rep(Apply(s, NodeOutcome(id, keys, kids, free).writes), NodeOutcome(id, keys, kids, free).tree, next)
  {
    if |keys| <= INTERNAL_MAX_KEYS {
      ApplyOne(s, Image(id, NodePage(keys, kids)));
      RepKidsUpdate(s, kids, next, id, NodePage(keys, kids));
    } else {
      var m := |keys| / 2;
      var lp, rp := NodePage(keys[..m], kids[..m + 1]), NodePage(keys[m + 1..], kids[m + 1..]);
      ApplyTwo(s, Image(free, rp), Image(id, lp));
      RepKidsUpdate(s, kids, next, free, rp);
      RepKidsUpdate(s[free := rp], kids, next, id, lp);
      HalvesRep(s[free := rp][id := lp], id, keys, kids, free, next, m);
    }
  }

  /** The first image of a split writes only the new page. */
  lemma {:induction false} NodeOutcomeFirst(s: Store, keys: seq<Key>, kids: seq<Tree>, t: Tree, free: PageId, next: PageId)
    requires |kids| == |keys| + 1 && |keys| > INTERNAL_MAX_KEYS
    requires Rep(s, t, next) && free !in Ids(t)
    ensures Rep(Apply(s, NodeOutcome(RootId(t), keys, kids, free).writes[..1]), t, next)
  {
    var w := NodeOutcome(RootId(t), keys, kids, free).writes;
    assert w[..1] == [w[0]];
    ApplyOne(s, w[0]);
    RepFrame(s, Apply(s, w[..1]), t, next);
  }

  /** Main stage result: whatever prefix of an insert's images reaches the log, the store holds the stage tree. */
  lemma {:induction false} StageRep(s: Store, t: Tree, key: Key, value: Bytes, free: PageId, next: PageId, k: nat)
    requires Rep(s, t, next) && Distinct(t) && Below(t, free)
    requires k <= |InsertInto(t, key, value, free, next).writes|
    ensures Rep(Apply(s, InsertInto(t, key, value, free, next).writes[..k]), Stage(t, key, value, free, next, k), next)
    decreases t, 1
  {
    var w := InsertInto(t, key, value, free, next).writes;
    match t
    case Leaf(id, cells) =>
      assert id in Ids(t);
      LeafStageRep(s, id, cells, Put(cells, key, value), free, next, k);
    case Node(id, keys, kids) =>
      var i := ChildIndex(keys, key);
      KidIds(t, i);
      var below := InsertInto(kids[i], key, value, free, NextOf(kids, i, next));
      if k <= |below.writes| {
        assert w[..k] == below.writes[..k];
        NodeStageBelow(s, t, key, value, free, next, k);
      } else {
        NodeStageBelow(s, t, key, value, free, next, |below.writes|);
        StageLast(kids[i], key, value, free, NextOf(kids, i, next));
        assert below.writes[..|below.writes|] == below.writes;
        NodeStageAbove(s, t, key, value, free, next, k, i, below);
      }
    case Half(left, sep, right) =>
      HalfStageRep(s, t, key, value, free, next, k);
  }

  lemma BesideRep(s: Store, half: Tree, sep: int, right: Tree, next: PageId)
    requires half.Half? && Rep(s, Half(half, sep, right), next)
    ensures Rep(s, Beside(half, sep, right), next)
  {
    assert Rep(s, half.left, FirstLeaf(half.right)) && Rep(s, half.right, FirstLeaf(right)) && Rep(s, right, next);
    assert Rep(s, Half(half.right, sep, right), next);
  }

  /** A hidden part stays as it is while the insert works on the part its parent names. */
  lemma {:induction false} HalfStageRep(s: Store, t: Tree, key: Key, value: Bytes, free: PageId, next: PageId, k: nat)
    requires t.Half? && Rep(s, t, next) && Distinct(t) && Below(t, free)
    requires k <= |InsertInto(t, key, value, free, next).writes|
    ensures Rep(Apply(s, InsertInto(t, key, value, free, next).writes[..k]), Stage(t, key, value, free, next, k), next)
    decreases t, 0
  {
    hide Apply, Ids;
    var below := InsertInto(t.left, key, value, free, FirstLeaf(t.right));
    var s' := Apply(s, below.writes[..k]);
    HalfFacts(t, free);
    StageRep(s, t.left, key, value, free, FirstLeaf(t.right), k);
    InsertGrown(t.left, key, value, free, FirstLeaf(t.right));
    assert WritesWithin(below.writes[..k], t.left, free, below.next);
    ApplySameOutside(s, below.writes[..k], t.left, free, below.next);
    RepFrame(s, s', t.right, next);
    assert Rep(s', Half(Stage(t.left, key, value, free, FirstLeaf(t.right), k), t.sep, t.right), next);
    if k == |below.writes| {
      StageLast(t.left, key, value, free, FirstLeaf(t.right));
      if below.split.Some? {
        BesideRep(s', below.tree, t.sep, t.right, next);
      }
    }
  }


  lemma LeafStageRep(s: Store, id: PageId, cells: seq<Cell>, cells': seq<Cell>, free: PageId, next: PageId, k: nat)
    requires Rep(s, Leaf(id, cells), next) && id < free
    requires k <= |LeafOutcome(id, cells', free, next).writes|
    ensures var out := LeafOutcome(id, cells', free, next);
            Rep(Apply(s, out.writes[..k]), if k < |out.writes| then Leaf(id, cells) else out.tree, next)
  {
    var w := LeafOutcome(id, cells', free, next).writes;
    if k == 0 {
      assert w[..0] == [];
    } else if k == 1 {
      assert w[..1] == [w[0]];
      ApplyOne(s, w[0]);
    } else {
      assert w[..2] == [w[0], w[1]];
      ApplyTwo(s, w[0], w[1]);
    }
  }

  lemma {:induction false} NodeStageBelow(s: Store, t: Tree, key: Key, value: Bytes, free: PageId, next: PageId, k: nat)
    requires t.Node? && Rep(s, t, next) && Distinct(t) && Below(t, free)
    requires var i := ChildIndex(t.keys, key);
             k <= |InsertInto(t.kids[i], key, value, free, NextOf(t.kids, i, next)).writes|
    ensures var i := ChildIndex(t.keys, key);
            var nxt := NextOf(t.kids, i, next);
            Rep(Apply(s, InsertInto(t.kids[i], key, value, free, nxt).writes[..k]),
                Node(t.id, t.keys, t.kids[i := Stage(t.kids[i], key, value, free, nxt, k)]), next)
    decreases t, 0
  {
    var i := ChildIndex(t.keys, key);
    var nxt := NextOf(t.kids, i, next);
    var below := InsertInto(t.kids[i], key, value, free, nxt);
    KidIds(t, i);
    StageRep(s, t.kids[i], key, value, free, nxt, k);
    StageGrown(t.kids[i], key, value, free, nxt, k);
    InsertGrown(t.kids[i], key, value, free, nxt);
    assert WritesWithin(below.writes[..k], t.kids[i], free, below.next);
    ApplySameOutside(s, below.writes[..k], t.kids[i], free, below.next);
    ReplaceKidRep(s, Apply(s, below.writes[..k]), t, i, Stage(t.kids[i], key, value, free, nxt, k), next, free, below.next);
  }

  lemma StageAboveIs(t: Tree, key: Key, value: Bytes, free: PageId, next: PageId, k: nat, i: nat, below: Outcome, own: Outcome)
    requires t.Node? && |t.kids| == |t.keys| + 1 && i == ChildIndex(t.keys, key)
    requires below == InsertInto(t.kids[i], key, value, free, NextOf(t.kids, i, next)) && below.split.Some?
    requires own == NodeOutcome(t.id, KeysWith(t.keys, i, below.split.value),
                                KidsWith(t.kids, i, below.tree.left, below.tree.right), below.next)
    requires |below.writes| < k <= |below.writes| + |own.writes|
    ensures InsertInto(t, key, value, free, next).writes[..k] == below.writes + own.writes[..k - |below.writes|]
    ensures Stage(t, key, value, free, next, k)
         == if k - |below.writes| < |own.writes| then Node(t.id, t.keys, t.kids[i := below.tree]) else own.tree
  {
  }

  lemma AboveIsHalf(t: Tree, key: Key, value: Bytes, free: PageId, next: PageId, k: nat, i: nat, below: Outcome)
    requires t.Node? && |t.kids| == |t.keys| + 1 && i == ChildIndex(t.keys, key)
    requires below == InsertInto(t.kids[i], key, value, free, NextOf(t.kids, i, next))
    requires |below.writes| < k <= |InsertInto(t, key, value, free, next).writes|
    ensures below.split.Some? && SplitsInHalf(below)
    ensures k <= |below.writes| + |NodeOutcome(t.id, KeysWith(t.keys, i, below.split.value),
                                               KidsWith(t.kids, i, below.tree.left, below.tree.right), below.next).writes|
  {
  }

  lemma {:induction false} NodeStageAbove(s: Store, t: Tree, key: Key, value: Bytes, free: PageId, next: PageId, k: nat,
                                          i: nat, below: Outcome)
    requires t.Node? && |t.kids| == |t.keys| + 1 && Rep(s, t, next) && Distinct(t) && Below(t, free)
    requires i == ChildIndex(t.keys, key)
    requires below == InsertInto(t.kids[i], key, value, free, NextOf(t.kids, i, next))
    requires |below.writes| < k <= |InsertInto(t, key, value, free, next).writes|
    requires Rep(Apply(s, below.writes), Node(t.id, t.keys, t.kids[i := below.tree]), next)
    ensures Rep(Apply(s, InsertInto(t, key, value, free, next).writes[..k]), Stage(t, key, value, free, next, k), next)
  {
    hide InsertInto, Stage, Apply, Rep, Distinct, Ids, Below, Grown, NodeOutcome, RootId, FirstLeaf;
    AboveIsHalf(t, key, value, free, next, k, i, below);
    KidFacts(t, i, free);
    var n := |below.writes|;
    var own := NodeOutcome(t.id, KeysWith(t.keys, i, below.split.value),
                           KidsWith(t.kids, i, below.tree.left, below.tree.right), below.next);
    StageAboveIs(t, key, value, free, next, k, i, below, own);
    ApplyAppend(s, below.writes, own.writes[..k - n]);
    InsertGrown(t.kids[i], key, value, free, NextOf(t.kids, i, next));
    OwnImages(Apply(s, below.writes), t, i, below.tree, below.split.value, free, below.next, next, k - n);
  }

  /** A node whose kid is a represented half absorbs it image by image. */
  lemma {:induction false} OwnImages(s: Store, t: Tree, i: nat, half: Tree, sep: Key, free: PageId, free': PageId, next: PageId, j: nat)
    requires t.Node? && |t.kids| == |t.keys| + 1 && i < |t.kids| && Distinct(t) && Below(t, free) && free <= free'
    requires half.Half? && half.sep == sep && Grown(half, t.kids[i], free, free')
    requires Rep(s, Node(t.id, t.keys, t.kids[i := half]), next)
    requires var own := NodeOutcome(t.id, KeysWith(t.keys, i, sep), KidsWith(t.kids, i, half.left, half.right), free');
             1 <= j <= |own.writes|
    ensures var own := NodeOutcome(t.id, KeysWith(t.keys, i, sep), KidsWith(t.kids, i, half.left, half.right), free');
            Rep(Apply(s, own.writes[..j]), if j < |own.writes| then Node(t.id, t.keys, t.kids[i := half]) else own.tree, next)
  {
    var mid := Node(t.id, t.keys, t.kids[i := half]);
    var keys, kids := KeysWith(t.keys, i, sep), KidsWith(t.kids, i, half.left, half.right);
    var own := NodeOutcome(t.id, keys, kids, free');
    if j < |own.writes| {
      ReplaceKidGrown(t, i, half, free, free');
      assert free' !in Ids(mid);
      NodeOutcomeFirst(s, keys, kids, mid, free', next);
    } else {
      assert own.writes[..j] == own.writes;
      assert RepKids(s, mid.kids, next);
      SplitKidRep(s, t.kids, i, half.left, sep, half.right, next);
      SplitKidGrown(t, i, half.left, sep, half.right, free, free');
      GrownClear(Node(t.id, keys, kids), t, free, free');
      NodeOutcomeRep(s, t.id, keys, kids, free', next);
    }
  }

  lemma GrownClear(t: Tree, was: Tree, free: PageId, free': PageId)
    requires t.Node? && Grown(t, was, free, free') && Below(was, free) && free <= free'
    ensures Clear(t.kids, t.id) && Clear(t.kids, free') && t.id != free'
  {
    forall i | 0 <= i < |t.kids|
      ensures free' !in Ids(t.kids[i])
    {
      KidIds(t, i);
    }
    assert t.id in Ids(t);
  }
}
