/** Page contents and the records the write-ahead log keeps.  A page is a structured
    value (leaf, internal node, metadata, catalog) rather than 4096 raw bytes. */
module Pages {
  type PageId = nat

  const INVALID_PAGE_ID: PageId := 0xFFFF_FFFF

  const KEY_MIN: int := -0x8000_0000_0000_0000
  const KEY_MAX: int := 0x7FFF_FFFF_FFFF_FFFF

  /** A 64-bit signed key. */
  type Key = k: int | KEY_MIN <= k <= KEY_MAX witness 0

  type Byte = b: int | 0 <= b < 256 witness 0
  type Bytes = seq<Byte>

  const VALUE_SIZE := 120
  const LEAF_MAX_KEYS := 4
  const INTERNAL_MAX_KEYS := 4

  datatype Option<+T> = None | Some(value: T)

  datatype Cell = Cell(key: Key, value: Bytes)

  /** A separator of an internal node: keys >= `key` are routed to `child` or further right. */
  datatype Sep = Sep(key: Key, child: PageId)

  datatype ColumnType = IntegerType | TextType

  datatype ColumnDef = ColumnDef(name: string, ctype: ColumnType, isPrimaryKey: bool)

  datatype TableEntry = TableEntry(inUse: bool, name: string, columns: seq<ColumnDef>, root: PageId, rowCount: nat)

  datatype Page =
    | Blank
    | LeafPage(cells: seq<Cell>, next: PageId)
    | InternalPage(leftmost: PageId, seps: seq<Sep>)
    | MetaPage(root: PageId)
    | CatalogPage(tables: seq<TableEntry>)

  type Store = map<PageId, Page>

  /** One full after-image of a page. */
  datatype Image = Image(id: PageId, page: Page)

  /** The pages left behind when a sequence of after-images is applied in order to a store. */
  function Apply(store: Store, images: seq<Image>): Store {
    if images == [] then store
    else
      var last := images[|images| - 1];
      Apply(store, images[..|images| - 1])[last.id := last.page]
  }

  lemma {:induction false} ApplyAppend(store: Store, a: seq<Image>, b: seq<Image>)
    ensures Apply(store, a + b) == Apply(Apply(store, a), b)
    decreases |b|
  {
    if b == [] {
      assert a + b == a;
    } else {
      var n := |b| - 1;
      assert (a + b)[..|a + b| - 1] == a + b[..n];
      ApplyAppend(store, a, b[..n]);
    }
  }

  lemma ApplyOne(store: Store, r: Image)
    ensures Apply(store, [r]) == store[r.id := r.page]
  {
    assert [r][..0] == [];
  }

  lemma ApplyTwo(store: Store, r: Image, q: Image)
    ensures Apply(store, [r, q]) == store[r.id := r.page][q.id := q.page]
  {
    assert [r, q][..1] == [r];
    ApplyOne(store, r);
  }

  /** A page that no image names is left alone; a page that some image names is present. */
  lemma {:induction false} ApplyFrame(store: Store, images: seq<Image>, id: PageId)
    ensures (forall r <- images :: r.id != id) ==>
              (id in Apply(store, images) <==> id in store)
              && (id in store ==> Apply(store, images)[id] == store[id])
    ensures id in Apply(store, images) <==> id in store || exists r <- images :: r.id == id
    decreases |images|
  {
    if images != [] {
      var n := |images| - 1;
      ApplyFrame(store, images[..n], id);
      assert images == images[..n] + [images[n]];
      assert forall r <- images[..n] :: r in images;
    }
  }

  /** `s` is the store after some prefix of `writes`. */
  ghost predicate Visits(store: Store, writes: seq<Image>, s: Store) {
    exists k :: 0 <= k <= |writes| && s == Apply(store, writes[..k])
  }

  /** `delta` visits only the stores that the prefixes of `writes` visit, and ends where `writes` ends.
      This is how a log that repeats unchanged images relates to the images an operation intends. */
  ghost predicate Covers(store: Store, delta: seq<Image>, writes: seq<Image>) {
    && Apply(store, delta) == Apply(store, writes)
    && forall n :: 0 <= n <= |delta| ==> Visits(store, writes, Apply(store, delta[..n]))
  }

  lemma VisitsEarlier(store: Store, w1: seq<Image>, w2: seq<Image>, s: Store)
    requires Visits(store, w1, s)
    ensures Visits(store, w1 + w2, s)
  {
    var k :| 0 <= k <= |w1| && s == Apply(store, w1[..k]);
    assert (w1 + w2)[..k] == w1[..k];
  }

  lemma VisitsLater(store: Store, w1: seq<Image>, w2: seq<Image>, s: Store)
    requires Visits(Apply(store, w1), w2, s)
    ensures Visits(store, w1 + w2, s)
  {
    var k :| 0 <= k <= |w2| && s == Apply(Apply(store, w1), w2[..k]);
    assert (w1 + w2)[..|w1| + k] == w1 + w2[..k];
    ApplyAppend(store, w1, w2[..k]);
  }

  lemma CoversAppend(store: Store, d1: seq<Image>, w1: seq<Image>, d2: seq<Image>, w2: seq<Image>)
    requires Covers(store, d1, w1)
    requires Covers(Apply(store, w1), d2, w2)
    ensures Covers(store, d1 + d2, w1 + w2)
  {
    hide Apply, Visits;
    ApplyAppend(store, d1, d2);
    ApplyAppend(store, w1, w2);
    forall n | 0 <= n <= |d1 + d2|
      ensures Visits(store, w1 + w2, Apply(store, (d1 + d2)[..n]))
    {
      if n <= |d1| {
        assert (d1 + d2)[..n] == d1[..n];
        VisitsEarlier(store, w1, w2, Apply(store, d1[..n]));
      } else {
        var m := n - |d1|;
        assert (d1 + d2)[..n] == d1 + d2[..m];
        ApplyAppend(store, d1, d2[..m]);
        VisitsLater(store, w1, w2, Apply(Apply(store, w1), d2[..m]));
      }
    }
  }

  lemma VisitsStart(store: Store, writes: seq<Image>)
    ensures Visits(store, writes, store)
  {
    assert store == Apply(store, writes[..0]);
  }

  lemma VisitsEnd(store: Store, writes: seq<Image>)
    ensures Visits(store, writes, Apply(store, writes))
  {
    assert writes[..|writes|] == writes;
  }

  /** An empty log extension covers writes that end where they began. */
  lemma CoversNothing(store: Store, writes: seq<Image>)
    requires Apply(store, writes) == store
    ensures Covers(store, [], writes)
  {
    VisitsStart(store, writes);
  }

  /** Logging one image covers writing it. */
  lemma CoversOne(store: Store, r: Image)
    ensures Covers(store, [r], [r])
  {
    VisitsStart(store, [r]);
    VisitsEnd(store, [r]);
    assert [r][..1] == [r];
    assert Apply(store, [r][..0]) == store;
  }

  /** Logging an image the store already holds covers doing nothing. */
  lemma CoversStutter(store: Store, r: Image)
    requires r.id in store && store[r.id] == r.page
    ensures Covers(store, [r], [])
  {
    assert [r][..1] == [r];
    assert Apply(store, [r]) == Apply(store, [r][..0])[r.id := r.page] == store;
    VisitsStart(store, []);
  }

  /** The log grew, and the growth covers `writes` on top of what the log already made durable. */
  ghost predicate Extends(log: seq<Image>, log': seq<Image>, writes: seq<Image>) {
    log <= log' && Covers(Apply(map[], log), log'[|log|..], writes)
  }

  lemma ExtendsGrows(log: seq<Image>, log': seq<Image>, writes: seq<Image>)
    requires Extends(log, log', writes)
    ensures log <= log'
  {
  }

  lemma ExtendsDurable(log: seq<Image>, log': seq<Image>, writes: seq<Image>)
    requires Extends(log, log', writes)
    ensures Apply(map[], log') == Apply(Apply(map[], log), writes)
  {
    assert log' == log + log'[|log|..];
    ApplyAppend(map[], log, log'[|log|..]);
  }

  lemma ExtendsAppend(log: seq<Image>, log': seq<Image>, log'': seq<Image>, w1: seq<Image>, w2: seq<Image>)
    requires Extends(log, log', w1) && Extends(log', log'', w2)
    ensures Extends(log, log'', w1 + w2)
  {
    hide Covers, Apply;
    ExtendsDurable(log, log', w1);
    CoversAppend(Apply(map[], log), log'[|log|..], w1, log''[|log'|..], w2);
    assert log''[|log|..] == log'[|log|..] + log''[|log'|..];
  }

  lemma ExtendsNothing(log: seq<Image>)
    ensures Extends(log, log, [])
  {
    assert log[|log|..] == [];
    CoversNothing(Apply(map[], log), []);
  }

  lemma ExtendsQuietly(log: seq<Image>, log': seq<Image>, log'': seq<Image>, writes: seq<Image>)
    requires Extends(log, log', []) && Extends(log', log'', writes)
    ensures Extends(log, log'', writes)
  {
    ExtendsAppend(log, log', log'', [], writes);
    assert [] + writes == writes;
  }

  /** What releasing one page adds to the log. */
  lemma ExtendsRelease(log: seq<Image>, log': seq<Image>, r: Image)
    requires log' == log || log' == log + [r]
    requires Apply(map[], log') == Apply(map[], log)[r.id := r.page]
    ensures Extends(log, log', [r])
    ensures r.id in Apply(map[], log) && Apply(map[], log)[r.id] == r.page ==> Extends(log, log', [])
  {
    var d := Apply(map[], log);
    ApplyOne(d, r);
    if log' == log {
      assert log'[|log|..] == [];
      CoversNothing(d, [r]);
      CoversNothing(d, []);
    } else {
      assert log'[|log|..] == [r];
      CoversOne(d, r);
      if r.id in d && d[r.id] == r.page {
        CoversStutter(d, r);
      }
    }
  }

  /** Every crash point of a log that covers some writes leaves a store those writes visit. */
  lemma CrashPoints(log: seq<Image>, log': seq<Image>, writes: seq<Image>, n: nat)
    requires Extends(log, log', writes) && |log| <= n <= |log'|
    ensures Visits(Apply(map[], log), writes, Apply(map[], log'[..n]))
  {
    var delta := log'[|log|..];
    assert log'[..n] == log + delta[..n - |log|];
    ApplyAppend(map[], log, delta[..n - |log|]);
  }

  // ---------- a log that repeats images skips no store ----------

  /** The images name different pages, and each changes its page. */
  ghost predicate Changing(store: Store, writes: seq<Image>) {
    && (forall i, j :: 0 <= i < j < |writes| ==> writes[i].id != writes[j].id)
    && (forall i :: 0 <= i < |writes| ==> !Shown(store, writes[i]))
  }

  ghost predicate Shown(store: Store, r: Image) {
    r.id in store && store[r.id] == r.page
  }

  lemma {:induction false} ShownAfter(store: Store, writes: seq<Image>, k: nat, j: nat)
    requires Changing(store, writes) && k <= |writes| && j < |writes|
    ensures Shown(Apply(store, writes[..k]), writes[j]) <==> j < k
  {
    if k == 0 {
      assert writes[..0] == [];
    } else {
      ShownAfter(store, writes, k - 1, j);
      assert writes[..k][..k - 1] == writes[..k - 1];
      assert writes[k - 1].id == writes[j].id ==> j == k - 1;
    }
  }

  /** One image takes the store at most one write further. */
  lemma OneFurther(store: Store, writes: seq<Image>, i: nat, j: nat, r: Image)
    requires Changing(store, writes) && i < j <= |writes|
    requires Apply(store, writes[..j]) == Apply(store, writes[..i])[r.id := r.page]
    ensures j == i + 1
  {
    hide Apply, Changing;
    ShownAfter(store, writes, i, i);
    ShownAfter(store, writes, j, i);
    if j > i + 1 {
      IdsDiffer(store, writes, i);
      ShownAfter(store, writes, i, i + 1);
      ShownAfter(store, writes, j, i + 1);
    }
  }

  lemma IdsDiffer(store: Store, writes: seq<Image>, i: nat)
    requires Changing(store, writes) && i + 1 < |writes|
    ensures writes[i].id != writes[i + 1].id
  {
  }

  /** The first prefix that shows write `k` holds exactly the store after write `k`. */
  lemma {:induction false} StageReached(store: Store, delta: seq<Image>, writes: seq<Image>, k: nat, n: nat) returns (m: nat)
    requires Covers(store, delta, writes) && Changing(store, writes)
    requires k < |writes| && n <= |delta| && Shown(Apply(store, delta[..n]), writes[k])
    ensures m <= |delta| && Apply(store, delta[..m]) == Apply(store, writes[..k + 1])
  {
    hide Changing, Apply;
    if n == 0 {
      assert delta[..0] == writes[..0];
      ShownAfter(store, writes, 0, k);
      assert false;
    } else if Shown(Apply(store, delta[..n - 1]), writes[k]) {
      m := StageReached(store, delta, writes, k, n - 1);
    } else {
      assert Visits(store, writes, Apply(store, delta[..n - 1])) && Visits(store, writes, Apply(store, delta[..n]));
      var i :| 0 <= i <= |writes| && Apply(store, delta[..n - 1]) == Apply(store, writes[..i]);
      var j :| 0 <= j <= |writes| && Apply(store, delta[..n]) == Apply(store, writes[..j]);
      ShownAfter(store, writes, i, k);
      ShownAfter(store, writes, j, k);
      assert delta[..n] == delta[..n - 1] + [delta[n - 1]];
      ApplyAppend(store, delta[..n - 1], [delta[n - 1]]);
      ApplyOne(Apply(store, delta[..n - 1]), delta[n - 1]);
      OneFurther(store, writes, i, j, delta[n - 1]);
      m := n;
    }
  }

  /** However often the log repeats images, some prefix of it holds each store the intended images pass through. */
  lemma EveryStage(log: seq<Image>, log': seq<Image>, writes: seq<Image>, k: nat) returns (n: nat)
    requires Extends(log, log', writes) && Changing(Apply(map[], log), writes) && k <= |writes|
    ensures |log| <= n <= |log'| && Apply(map[], log'[..n]) == Apply(Apply(map[], log), writes[..k])
  {
    hide Changing, Apply;
    var d, delta := Apply(map[], log), log'[|log|..];
    var m := 0;
    if k == 0 {
      assert delta[..0] == writes[..0];
    } else {
      ShownAfter(d, writes, |writes|, k - 1);
      assert writes[..|writes|] == writes && delta[..|delta|] == delta;
      m := StageReached(d, delta, writes, k - 1, |delta|);
    }
    n := |log| + m;
    assert log'[..n] == log + delta[..m];
    ApplyAppend(map[], log, delta[..m]);
  }

  /** The stores differ at most at page `p`. */
  ghost predicate SameExcept(s: Store, s': Store, p: PageId) {
    forall q :: q != p ==> (q in s <==> q in s') && (q in s ==> s[q] == s'[q])
  }

  lemma {:induction false} ApplyExcept(s: Store, s': Store, p: PageId, images: seq<Image>)
    requires SameExcept(s, s', p)
    ensures SameExcept(Apply(s, images), Apply(s', images), p)
    decreases |images|
  {
    if images != [] {
      ApplyExcept(s, s', p, images[..|images| - 1]);
    }
  }

  /** A page that the images rewrite may hold anything beforehand. */
  lemma {:induction false} ApplyOverwrites(s: Store, p: PageId, page: Page, images: seq<Image>)
    requires exists r <- images :: r.id == p
    ensures Apply(s[p := page], images) == Apply(s, images)
    decreases |images|
  {
    var n := |images| - 1;
    if images[n].id == p {
      ApplyExcept(s, s[p := page], p, images[..n]);
    } else {
      assert images == images[..n] + [images[n]];
      ApplyOverwrites(s, p, page, images[..n]);
    }
  }
}
