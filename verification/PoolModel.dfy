/** The buffer pool as a state machine: frames, page table, free list and LRU list in front of a disk,
    with every dirty release appended to the log. */
module PoolModel {
  import opened Pages

  datatype Frame = Frame(page: Page, pageId: PageId, pinCount: nat, dirty: bool)

  datatype Pool = Pool(frames: seq<Frame>, table: map<PageId, nat>, freeList: seq<nat>, lru: seq<nat>,
                       disk: Store, nextId: PageId, log: seq<Image>)

  /** A pinned page: the frame it sits in and how often it is pinned. */
  datatype Pin = Pin(frame: nat, count: nat)

  datatype Fetched = Fetched(pool: Pool, frame: Option<nat>)

  // ---------- abstract views ----------

  /** What a reader sees: the cached page if there is one, else the page on disk. */
  ghost function View(s: Pool): Store
    requires TableOk(s)
  {
    map p | p in s.table.Keys + s.disk.Keys :: if p in s.table then s.frames[s.table[p]].page else s.disk[p]
  }

  /** The last logged image of every page. */
  ghost function Durable(s: Pool): Store {
    Apply(map[], s.log)
  }

  ghost function Pins(s: Pool): map<PageId, Pin>
    requires TableOk(s)
  {
    map p | p in s.table && s.frames[s.table[p]].pinCount > 0 :: Pin(s.table[p], s.frames[s.table[p]].pinCount)
  }

  // ---------- invariant ----------

  ghost predicate NoDup(xs: seq<nat>) {
    forall i, j :: 0 <= i < j < |xs| ==> xs[i] != xs[j]
  }

  /** The page table is a bijection between cached page ids and the frames that hold them. */
  ghost predicate TableOk(s: Pool) {
    forall p <- s.table :: s.table[p] < |s.frames| && s.frames[s.table[p]].pageId == p
  }

  /** Every frame is in exactly one of the free list and the LRU list; the LRU list holds the cached frames. */
  ghost predicate ListsOk(s: Pool) {
    && NoDup(s.freeList) && NoDup(s.lru)
    && (forall f <- s.freeList :: f < |s.frames|)
    && (forall f <- s.lru :: f < |s.frames|)
    && (forall f :: 0 <= f < |s.frames| ==> (f in s.freeList <==> f !in s.lru))
    && (forall f <- s.lru :: s.frames[f].pageId in s.table && s.table[s.frames[f].pageId] == f)
    && (forall p <- s.table :: s.table[p] in s.lru)
  }

  /** Write-ahead: what is on disk was logged; what is not cached, or cached and clean, or cached and
      unpinned, is exactly the last logged image. */
  ghost predicate LogOk(s: Pool)
    requires TableOk(s)
  {
    && (forall p <- s.disk :: DiskOk(Durable(s), s.log, s.disk, p) && p < s.nextId)
    && (forall p <- s.disk :: p !in s.table ==> s.disk[p] == Durable(s)[p])
    && (forall p <- Durable(s) :: p in s.disk || p in s.table)
    && (forall p <- s.table :: FrameOk(Durable(s), s.disk, s.frames[s.table[p]]) && p < s.nextId)
  }

  ghost predicate DiskOk(d: Store, log: seq<Image>, disk: Store, p: PageId)
    requires p in disk
  {
    p in d && Image(p, disk[p]) in log
  }

  ghost predicate FrameOk(d: Store, disk: Store, f: Frame) {
    && (!f.dirty ==> f.pageId in d && f.pageId in disk && disk[f.pageId] == d[f.pageId] == f.page)
    && (f.pinCount == 0 ==> f.pageId in d && d[f.pageId] == f.page)
  }

  ghost predicate Inv(s: Pool) {
    TableOk(s) && ListsOk(s) && LogOk(s)
  }

  // ---------- operations ----------

  function Without(xs: seq<nat>, x: nat): seq<nat> {
    if xs == [] then [] else if xs[0] == x then xs[1..] else [xs[0]] + Without(xs[1..], x)
  }

  function Touch(lru: seq<nat>, f: nat): seq<nat> {
    [f] + Without(lru, f)
  }

  predicate Unpinned(frames: seq<Frame>, f: nat) {
    f < |frames| && frames[f].pinCount == 0
  }

  /** The unpinned frame nearest the tail of the LRU list. */
  function Victim(frames: seq<Frame>, lru: seq<nat>): Option<nat> {
    if lru == [] then None
    else
      var last := lru[|lru| - 1];
      if Unpinned(frames, last) then Some(last) else Victim(frames, lru[..|lru| - 1])
  }

  /** Give up a cached page, writing it to disk first if it is dirty. */
  function Evict(s: Pool, f: nat): Pool
    requires f < |s.frames|
  {
    var fr := s.frames[f];
    s.(lru := Without(s.lru, f),
       disk := if fr.dirty then s.disk[fr.pageId := fr.page] else s.disk,
       table := s.table - {fr.pageId})
  }

  /** Take a frame out of circulation: a free one, else the least recently used unpinned one. */
  function FindVictimFrame(s: Pool): Fetched {
    if s.freeList != [] then
      var n := |s.freeList| - 1;
      Fetched(s.(freeList := s.freeList[..n]), Some(s.freeList[n]))
    else
      match Victim(s.frames, s.lru)
      case None => Fetched(s, None)
      case Some(f) =>
        if f < |s.frames| then Fetched(Evict(s, f), Some(f)) else Fetched(s, None)
  }

  function Install(s: Pool, f: nat, fr: Frame): Pool
    requires f < |s.frames|
  {
    s.(frames := s.frames[f := fr], table := s.table[fr.pageId := f], lru := Touch(s.lru, f))
  }

  function FetchPage(s: Pool, p: PageId): Fetched {
    if p in s.table then
      var f := s.table[p];
      if f < |s.frames| then
        Fetched(s.(frames := s.frames[f := s.frames[f].(pinCount := s.frames[f].pinCount + 1)], lru := Touch(s.lru, f)), Some(f))
      else Fetched(s, None)
    else
      var v := FindVictimFrame(s);
      if v.frame.None? || v.frame.value >= |s.frames| || p !in v.pool.disk then Fetched(v.pool, None)
      else Fetched(Install(v.pool, v.frame.value, Frame(v.pool.disk[p], p, 1, false)), v.frame)
  }

  function NewPage(s: Pool): Fetched {
    var v := FindVictimFrame(s);
    if v.frame.None? || v.frame.value >= |s.frames| then Fetched(v.pool, None)
    else Fetched(Install(v.pool.(nextId := s.nextId + 1), v.frame.value, Frame(Blank, s.nextId, 1, true)), v.frame)
  }

  /** Change the page in a pinned frame and mark it dirty. */
  function Write(s: Pool, f: nat, page: Page): Pool
    requires f < |s.frames|
  {
    s.(frames := s.frames[f := s.frames[f].(page := page, dirty := true)])
  }

  /** Unpin; a dirty page is logged first. */
  function Unpin(s: Pool, p: PageId, isDirty: bool): Pool {
    if p in s.table && s.table[p] < |s.frames| then
      var f := s.table[p];
      var fr := s.frames[f];
      s.(frames := s.frames[f := fr.(dirty := fr.dirty || isDirty,
                                     pinCount := if fr.pinCount > 0 then fr.pinCount - 1 else 0)],
         log := if isDirty then s.log + [Image(p, fr.page)] else s.log)
    else s
  }

  /** Dropping a guard unpins with the frame's own dirty flag, which stays set until eviction or flush. */
  function Release(s: Pool, p: PageId, f: nat): Pool
    requires f < |s.frames|
  {
    Unpin(s, p, s.frames[f].dirty)
  }

  function FlushPage(s: Pool, p: PageId): Pool {
    if p in s.table && s.table[p] < |s.frames| then
      var f := s.table[p];
      s.(disk := s.disk[p := s.frames[f].page], frames := s.frames[f := s.frames[f].(dirty := false)])
    else s
  }

  /** The dirty pages of a list go to disk, pinned or not, and are then clean. */
  function FlushAll(s: Pool, ps: seq<PageId>): Pool
    decreases |ps|
  {
    if ps == [] then s
    else
      var n := |ps| - 1;
      var m, p := FlushAll(s, ps[..n]), ps[n];
      if p in m.table && m.table[p] < |m.frames| && m.frames[m.table[p]].dirty then FlushPage(m, p) else m
  }

  // ---------- list facts ----------

  lemma {:induction false} WithoutFacts(xs: seq<nat>, x: nat)
    requires NoDup(xs)
    ensures forall y :: y in Without(xs, x) <==> y in xs && y != x
    ensures NoDup(Without(xs, x))
  {
    if xs != [] {
      assert xs == [xs[0]] + xs[1..];
      if xs[0] != x {
        WithoutFacts(xs[1..], x);
        var rest := Without(xs[1..], x);
        assert xs[0] !in rest;
      }
    }
  }

  lemma TouchFacts(xs: seq<nat>, x: nat)
    requires NoDup(xs)
    ensures NoDup(Touch(xs, x))
    ensures forall y :: y in Touch(xs, x) <==> y in xs || y == x
  {
    WithoutFacts(xs, x);
    var rest := Without(xs, x);
    forall i, j | 0 <= i < j < |[x] + rest|
      ensures ([x] + rest)[i] != ([x] + rest)[j]
    {
      assert ([x] + rest)[j] == rest[j - 1] && rest[j - 1] in rest;
      assert i > 0 ==> ([x] + rest)[i] == rest[i - 1];
    }
  }

  lemma {:induction false} VictimFacts(frames: seq<Frame>, lru: seq<nat>)
    ensures var v := Victim(frames, lru);
            && (v.Some? ==> v.value in lru && Unpinned(frames, v.value))
            && (v.None? ==> forall f <- lru :: !Unpinned(frames, f))
  {
    if lru != [] {
      var n := |lru| - 1;
      VictimFacts(frames, lru[..n]);
      assert lru == lru[..n] + [lru[n]];
    }
  }

  lemma {:induction false} NoDupFits<T>(xs: seq<T>, s: set<T>)
    requires forall i, j :: 0 <= i < j < |xs| ==> xs[i] != xs[j]
    requires forall x <- xs :: x in s
    ensures |xs| <= |s|
  {
    if xs != [] {
      assert forall i :: 0 < i < |xs| ==> xs[1..][i - 1] == xs[i];
      assert xs[0] in xs;
      forall x | x in xs[1..]
        ensures x in s - {xs[0]}
      {
        var i :| 0 <= i < |xs[1..]| && xs[1..][i] == x;
        assert xs[i + 1] == x && xs[0] != xs[i + 1];
      }
      NoDupFits(xs[1..], s - {xs[0]});
    }
  }

  /** When every frame is pinned there are as many pinned pages as frames. */
  lemma AllPinned(s: Pool)
    requires Inv(s)
    requires forall f :: 0 <= f < |s.frames| ==> f in s.lru && s.frames[f].pinCount > 0
    ensures |Pins(s)| >= |s.frames|
  {
    var ids := seq(|s.frames|, f requires 0 <= f < |s.frames| => s.frames[f].pageId);
    forall f | 0 <= f < |s.frames|
      ensures ids[f] in Pins(s) && s.table[ids[f]] == f
    {
      assert f in s.lru;
    }
    NoDupFits(ids, Pins(s).Keys);
    assert |Pins(s).Keys| == |Pins(s)|;
  }

  // ---------- what each operation does to the abstract views ----------

  /** The lists after a frame was taken out of circulation: frame `f` is in neither. */
  ghost predicate SpareLists(s: Pool, f: nat) {
    && f < |s.frames|
    && NoDup(s.freeList) && NoDup(s.lru)
    && (forall g <- s.freeList :: g < |s.frames|)
    && (forall g <- s.lru :: g < |s.frames|)
    && (forall g :: 0 <= g < |s.frames| && g != f ==> (g in s.freeList <==> g !in s.lru))
    && f !in s.freeList && f !in s.lru
    && (forall g <- s.lru :: s.frames[g].pageId in s.table && s.table[s.frames[g].pageId] == g)
    && (forall p <- s.table :: s.table[p] in s.lru)
  }

  ghost predicate Spare(s: Pool, f: nat) {
    TableOk(s) && LogOk(s) && SpareLists(s, f)
  }

  ghost predicate SameViews(s: Pool, s': Pool)
    requires TableOk(s) && TableOk(s')
  {
    View(s') == View(s) && Pins(s') == Pins(s) && s'.log == s.log && s'.nextId == s.nextId && s'.frames == s.frames
  }

  lemma TakeFree(s: Pool)
    requires Inv(s) && s.freeList != []
    ensures var n := |s.freeList| - 1; Spare(s.(freeList := s.freeList[..n]), s.freeList[n])
  {
    var n := |s.freeList| - 1;
    assert s.freeList[n] in s.freeList;
    assert s.freeList == s.freeList[..n] + [s.freeList[n]];
    assert forall g <- s.freeList[..n] :: g in s.freeList;
  }

  lemma EvictLists(s: Pool, f: nat)
    requires TableOk(s) && ListsOk(s) && f in s.lru
    ensures TableOk(Evict(s, f)) && SpareLists(Evict(s, f), f)
  {
    WithoutFacts(s.lru, f);
  }

  lemma EvictLog(s: Pool, f: nat)
    requires Inv(s) && f in s.lru && Unpinned(s.frames, f) && TableOk(Evict(s, f))
    ensures LogOk(Evict(s, f))
  {
    var fr, s' := s.frames[f], Evict(s, f);
    assert FrameOk(Durable(s), s.disk, fr);
    LoggedImage(map[], s.log, fr.pageId);
    forall p | p in s'.disk
      ensures DiskOk(Durable(s'), s'.log, s'.disk, p) && p < s'.nextId
      ensures p !in s'.table ==> s'.disk[p] == Durable(s')[p]
    {
      if p != fr.pageId {
        assert p in s.disk && DiskOk(Durable(s), s.log, s.disk, p);
      }
    }
    forall p | p in s'.table
      ensures FrameOk(Durable(s'), s'.disk, s'.frames[s'.table[p]]) && p < s'.nextId
    {
      assert p in s.table && FrameOk(Durable(s), s.disk, s.frames[s.table[p]]);
    }
  }

  lemma EvictView(s: Pool, f: nat)
    requires TableOk(s) && f < |s.frames| && TableOk(Evict(s, f))
    requires s.frames[f].pageId in s.table && s.table[s.frames[f].pageId] == f
    requires s.frames[f].dirty || (s.frames[f].pageId in s.disk && s.disk[s.frames[f].pageId] == s.frames[f].page)
    ensures View(Evict(s, f)) == View(s)
  {
    var v, v' := View(s), View(Evict(s, f));
    assert v.Keys == v'.Keys;
  }

  lemma EvictPins(s: Pool, f: nat)
    requires TableOk(s) && Unpinned(s.frames, f) && TableOk(Evict(s, f))
    requires s.frames[f].pageId in s.table && s.table[s.frames[f].pageId] == f
    ensures Pins(Evict(s, f)) == Pins(s)
  {
    var v, v' := Pins(s), Pins(Evict(s, f));
    assert v.Keys == v'.Keys;
  }

  lemma EvictViews(s: Pool, f: nat)
    requires Inv(s) && f in s.lru && Unpinned(s.frames, f) && TableOk(Evict(s, f))
    ensures SameViews(s, Evict(s, f))
  {
    hide View, Pins, Durable;
    assert FrameOk(Durable(s), s.disk, s.frames[f]);
    EvictView(s, f);
    EvictPins(s, f);
  }

  /** Taking a frame changes nothing that a reader, a pin holder or recovery can see, and fails only when all
      frames are pinned. */
  lemma EvictKeeps(s: Pool)
    requires Inv(s)
    ensures var v := FindVictimFrame(s);
            && (v.frame.Some? ==> Spare(v.pool, v.frame.value) && SameViews(s, v.pool))
            && (v.frame.None? ==> v.pool == s && forall f :: 0 <= f < |s.frames| ==> f in s.lru && s.frames[f].pinCount > 0)
  {
    VictimFacts(s.frames, s.lru);
    if s.freeList != [] {
      TakeFree(s);
    } else if Victim(s.frames, s.lru).Some? {
      EvictLists(s, Victim(s.frames, s.lru).value);
      EvictLog(s, Victim(s.frames, s.lru).value);
      EvictViews(s, Victim(s.frames, s.lru).value);
    }
  }

  /** A page that some image names holds an image from the log. */
  lemma {:induction false} LoggedImage(store: Store, log: seq<Image>, p: PageId)
    requires p in Apply(store, log) && p !in store
    ensures Image(p, Apply(store, log)[p]) in log
    decreases |log|
  {
    var n := |log| - 1;
    if log[n].id != p {
      LoggedImage(store, log[..n], p);
    }
  }

  lemma InstallLists(s: Pool, f: nat, fr: Frame)
    requires TableOk(s) && SpareLists(s, f) && fr.pageId !in s.table
    ensures TableOk(Install(s, f, fr)) && ListsOk(Install(s, f, fr))
  {
    TouchFacts(s.lru, f);
    assert forall p <- s.table :: s.table[p] != f;
  }

  lemma InstallLog(s: Pool, f: nat, fr: Frame)
    requires Spare(s, f) && fr.pageId !in s.table && fr.pageId < s.nextId && fr.pinCount > 0
    requires !fr.dirty ==> fr.pageId in s.disk && s.disk[fr.pageId] == fr.page
    requires TableOk(Install(s, f, fr))
    ensures LogOk(Install(s, f, fr))
  {
    var s' := Install(s, f, fr);
    forall p | p in s'.table
      ensures FrameOk(Durable(s'), s'.disk, s'.frames[s'.table[p]]) && p < s'.nextId
    {
      if p != fr.pageId {
        assert p in s.table && s.table[p] != f && FrameOk(Durable(s), s.disk, s.frames[s.table[p]]);
      } else if !fr.dirty {
        assert DiskOk(Durable(s), s.log, s.disk, p);
      }
    }
  }

  ghost predicate Unused(s: Pool, f: nat) {
    f < |s.frames| && forall p <- s.table :: s.table[p] != f
  }

  lemma InstallView(s: Pool, f: nat, fr: Frame)
    requires TableOk(s) && Unused(s, f) && TableOk(Install(s, f, fr))
    ensures View(Install(s, f, fr)) == View(s)[fr.pageId := fr.page]
  {
    var v, v' := View(s)[fr.pageId := fr.page], View(Install(s, f, fr));
    assert v.Keys == v'.Keys;
  }

  lemma InstallPins(s: Pool, f: nat, fr: Frame)
    requires TableOk(s) && Unused(s, f) && TableOk(Install(s, f, fr)) && fr.pinCount > 0
    ensures Pins(Install(s, f, fr)) == Pins(s)[fr.pageId := Pin(f, fr.pinCount)]
  {
    var v, v' := Pins(s)[fr.pageId := Pin(f, fr.pinCount)], Pins(Install(s, f, fr));
    assert v.Keys == v'.Keys;
  }

  lemma InstallKeeps(s: Pool, f: nat, fr: Frame)
    requires Spare(s, f) && fr.pageId !in s.table && fr.pageId < s.nextId && fr.pinCount > 0
    requires !fr.dirty ==> fr.pageId in s.disk && s.disk[fr.pageId] == fr.page
    ensures Inv(Install(s, f, fr))
    ensures View(Install(s, f, fr)) == View(s)[fr.pageId := fr.page]
    ensures Pins(Install(s, f, fr)) == Pins(s)[fr.pageId := Pin(f, fr.pinCount)]
  {
    InstallLists(s, f, fr);
    InstallLog(s, f, fr);
    assert Unused(s, f);
    InstallView(s, f, fr);
    InstallPins(s, f, fr);
  }

  // ---------- the four operations ----------

  ghost function AddPin(pins: map<PageId, Pin>, p: PageId, f: nat): map<PageId, Pin> {
    pins[p := Pin(f, if p in pins then pins[p].count + 1 else 1)]
  }

  ghost function DropPin(pins: map<PageId, Pin>, p: PageId): map<PageId, Pin> {
    if p in pins && pins[p].count > 1 then pins[p := pins[p].(count := pins[p].count - 1)] else pins - {p}
  }

  /** A guard is live: its frame holds its page and is pinned. */
  ghost predicate Holds(s: Pool, p: PageId, f: nat) {
    p in s.table && s.table[p] == f && f < |s.frames| && s.frames[f].pinCount > 0
  }

  /** Replacing the contents of one cached frame. */
  function SetFrame(s: Pool, f: nat, fr: Frame): Pool
    requires f < |s.frames|
  {
    s.(frames := s.frames[f := fr])
  }

  lemma SetFrameTable(s: Pool, p: PageId, fr: Frame)
    requires TableOk(s) && ListsOk(s) && p in s.table && fr.pageId == p
    ensures var s' := SetFrame(s, s.table[p], fr);
            && TableOk(s') && ListsOk(s')
            && forall q <- s.table :: q != p ==> s.table[q] != s.table[p] && s'.frames[s.table[q]] == s.frames[s.table[q]]
  {
    assert forall q <- s.table :: s.table[q] == s.table[p] ==> q == p;
  }

  lemma SetFrameView(s: Pool, p: PageId, fr: Frame)
    requires TableOk(s) && ListsOk(s) && p in s.table && fr.pageId == p
    ensures var s' := SetFrame(s, s.table[p], fr);
            TableOk(s') && View(s') == View(s)[p := fr.page]
  {
    SetFrameTable(s, p, fr);
    hide ListsOk;
    var v, v' := View(s)[p := fr.page], View(SetFrame(s, s.table[p], fr));
    assert v.Keys == v'.Keys;
  }

  lemma SetFramePins(s: Pool, p: PageId, fr: Frame)
    requires TableOk(s) && ListsOk(s) && p in s.table && fr.pageId == p
    ensures var s' := SetFrame(s, s.table[p], fr);
            && TableOk(s')
            && Pins(s') == if fr.pinCount > 0 then Pins(s)[p := Pin(s.table[p], fr.pinCount)] else Pins(s) - {p}
  {
    SetFrameTable(s, p, fr);
    hide ListsOk;
    var v' := Pins(SetFrame(s, s.table[p], fr));
    var v := if fr.pinCount > 0 then Pins(s)[p := Pin(s.table[p], fr.pinCount)] else Pins(s) - {p};
    assert v.Keys == v'.Keys;
  }

  /** A cached frame may change freely while it is pinned and dirty. */
  lemma SetFrameLog(s: Pool, p: PageId, fr: Frame)
    requires Inv(s) && p in s.table && fr.pageId == p && FrameOk(Durable(s), s.disk, fr)
    ensures Inv(SetFrame(s, s.table[p], fr))
  {
    SetFrameTable(s, p, fr);
    var s' := SetFrame(s, s.table[p], fr);
    forall q | q in s'.table
      ensures FrameOk(Durable(s'), s'.disk, s'.frames[s'.table[q]]) && q < s'.nextId
    {
      if q != p {
        assert FrameOk(Durable(s), s.disk, s.frames[s.table[q]]);
      }
    }
  }

  lemma TouchKeeps(s: Pool, f: nat)
    requires Inv(s) && f in s.lru
    ensures var s' := s.(lru := Touch(s.lru, f)); Inv(s') && View(s') == View(s) && Pins(s') == Pins(s)
  {
    TouchFacts(s.lru, f);
  }

  lemma CachedFacts(s: Pool, p: PageId)
    requires Inv(s) && p in s.table
    ensures FrameOk(Durable(s), s.disk, s.frames[s.table[p]]) && p < s.nextId && s.table[p] in s.lru
    ensures p in View(s) && View(s)[p] == s.frames[s.table[p]].page
  {
  }

  ghost predicate Fetches(s: Pool, p: PageId, r: Fetched)
    requires Inv(s) && p in View(s)
  {
    && r.frame.Some? && Inv(r.pool) && Holds(r.pool, p, r.frame.value)
    && r.pool.frames[r.frame.value].page == View(s)[p]
    && View(r.pool) == View(s) && Pins(r.pool) == AddPin(Pins(s), p, r.frame.value)
    && r.pool.log == s.log && r.pool.nextId == s.nextId && |r.pool.frames| == |s.frames|
  }

  lemma FetchHit(s: Pool, p: PageId)
    requires Inv(s) && p in s.table
    ensures p in View(s) && Fetches(s, p, FetchPage(s, p))
  {
    hide ListsOk, LogOk, Durable;
    CachedFacts(s, p);
    var f := s.table[p];
    var fr := s.frames[f].(pinCount := s.frames[f].pinCount + 1);
    SetFrameLog(s, p, fr);
    SetFrameView(s, p, fr);
    SetFramePins(s, p, fr);
    assert View(s)[p := fr.page] == View(s);
    CachedFacts(SetFrame(s, f, fr), p);
    TouchKeeps(SetFrame(s, f, fr), f);
  }

  /** An uncached page is read from disk. */
  lemma UncachedFacts(s: Pool, p: PageId)
    requires TableOk(s) && LogOk(s) && p in View(s) && p !in s.table
    ensures p in s.disk && s.disk[p] == View(s)[p] && p < s.nextId && p !in Pins(s)
  {
  }

  lemma EvictedStaysUncached(s: Pool, p: PageId)
    requires p !in s.table
    ensures p !in FindVictimFrame(s).pool.table
  {
  }

  /** A spare frame exists while fewer pages are pinned than there are frames. */
  lemma RoomMeansVictim(s: Pool)
    requires Inv(s) && |Pins(s)| < |s.frames|
    ensures FindVictimFrame(s).frame.Some?
  {
    hide ListsOk, LogOk, View, Pins;
    EvictKeeps(s);
    if FindVictimFrame(s).frame.None? {
      AllPinned(s);
    }
  }

  lemma FetchMiss(s: Pool, p: PageId)
    requires Inv(s) && p in View(s) && p !in s.table && FindVictimFrame(s).frame.Some?
    ensures Fetches(s, p, FetchPage(s, p))
    ensures var v := FindVictimFrame(s);
            FetchPage(s, p).frame == v.frame && v.frame.value < |v.pool.frames| && p in v.pool.disk
  {
    hide ListsOk, LogOk, SpareLists, Durable, FindVictimFrame, View, Pins, TableOk;
    EvictKeeps(s);
    var v := FindVictimFrame(s);
    EvictedStaysUncached(s, p);
    UncachedFacts(v.pool, p);
    var f := v.frame.value;
    SpareBound(v.pool, f);
    var fr := Frame(v.pool.disk[p], p, 1, false);
    InstallKeeps(v.pool, f, fr);
    assert View(s)[p := fr.page] == View(s);
  }

  lemma SpareBound(s: Pool, f: nat)
    requires Spare(s, f)
    ensures f < |s.frames|
  {
  }

  /** Fetching returns the page a reader sees, pins it, and changes nothing else that is visible;
      it fails only when the page is not cached and every frame is pinned. */
  lemma FetchEffect(s: Pool, p: PageId)
    requires Inv(s) && p in View(s)
    ensures var r := FetchPage(s, p);
            && (r.frame.Some? <==> p in s.table || FindVictimFrame(s).frame.Some?)
            && (p in Pins(s) || |Pins(s)| < |s.frames| ==> r.frame.Some?)
            && (r.frame.Some? ==> Fetches(s, p, r))
            && (r.frame.None? ==> r.pool == s && forall f :: 0 <= f < |s.frames| ==> s.frames[f].pinCount > 0)
  {
    hide ListsOk, LogOk, View, Durable, FindVictimFrame, TableOk;
    EvictKeeps(s);
    if p in s.table {
      FetchHit(s, p);
    } else if FindVictimFrame(s).frame.Some? {
      FetchMiss(s, p);
    } else if |Pins(s)| < |s.frames| {
      RoomMeansVictim(s);
    }
  }

  lemma NextIdUnused(s: Pool)
    requires Inv(s)
    ensures s.nextId !in View(s) && s.nextId !in Pins(s) && s.nextId !in Durable(s) && s.nextId !in s.table
  {
  }

  lemma BumpNextId(s: Pool, f: nat)
    requires Spare(s, f)
    ensures var s' := s.(nextId := s.nextId + 1); Spare(s', f) && View(s') == View(s) && Pins(s') == Pins(s)
  {
  }

  ghost predicate Creates(s: Pool, r: Fetched)
    requires Inv(s)
  {
    && r.frame.Some? && Inv(r.pool) && Holds(r.pool, s.nextId, r.frame.value)
    && s.nextId !in View(s) && s.nextId !in Pins(s) && s.nextId !in Durable(s)
    && View(r.pool) == View(s)[s.nextId := Blank]
    && Pins(r.pool) == AddPin(Pins(s), s.nextId, r.frame.value)
    && r.pool.log == s.log && r.pool.nextId == s.nextId + 1 && |r.pool.frames| == |s.frames|
  }

  /** A new page appears blank under an id nothing used before. */
  lemma NewEffect(s: Pool)
    requires Inv(s)
    ensures var r := NewPage(s);
            && (|Pins(s)| < |s.frames| ==> r.frame.Some?)
            && r.frame == FindVictimFrame(s).frame
            && (r.frame.Some? ==> Creates(s, r) && r.frame.value < |FindVictimFrame(s).pool.frames|
                                  && FindVictimFrame(s).pool.nextId == s.nextId)
            && (r.frame.None? ==> r.pool == s)
  {
    hide ListsOk, LogOk, SpareLists, Durable, FindVictimFrame, View, Pins, TableOk;
    NextIdUnused(s);
    EvictKeeps(s);
    var v := FindVictimFrame(s);
    if v.frame.Some? {
      EvictedStaysUncached(s, s.nextId);
      SpareBound(v.pool, v.frame.value);
      BumpNextId(v.pool, v.frame.value);
      InstallKeeps(v.pool.(nextId := s.nextId + 1), v.frame.value, Frame(Blank, s.nextId, 1, true));
    } else if |Pins(s)| < |s.frames| {
      RoomMeansVictim(s);
    }
  }

  lemma WriteEffect(s: Pool, p: PageId, f: nat, page: Page)
    requires Inv(s) && Holds(s, p, f)
    ensures var s' := Write(s, f, page);
            && Inv(s') && Holds(s', p, f) && s'.frames[f].page == page
            && View(s') == View(s)[p := page] && Pins(s') == Pins(s)
  {
    hide ListsOk, LogOk, View, Durable;
    var fr := s.frames[f].(page := page, dirty := true);
    SetFrameLog(s, p, fr);
    SetFrameView(s, p, fr);
    SetFramePins(s, p, fr);
    assert Pins(s)[p := Pin(f, fr.pinCount)] == Pins(s);
  }

  lemma UnpinKeeps(s: Pool, p: PageId, f: nat)
    requires Inv(s) && Holds(s, p, f) && p in Durable(s) && Durable(s)[p] == s.frames[f].page
    ensures var fr := s.frames[f];
            var s' := SetFrame(s, f, fr.(pinCount := fr.pinCount - 1));
            Inv(s') && View(s') == View(s) && Pins(s') == DropPin(Pins(s), p)
  {
    hide ListsOk, LogOk;
    CachedFacts(s, p);
    var fr := s.frames[f];
    var fr' := fr.(pinCount := fr.pinCount - 1);
    SetFrameLog(s, p, fr');
    SetFrameView(s, p, fr');
    SetFramePins(s, p, fr');
    assert View(s)[p := fr'.page] == View(s);
  }

  /** Releasing a guard makes the page it sees durable. */
  lemma ReleaseEffect(s: Pool, p: PageId, f: nat)
    requires Inv(s) && Holds(s, p, f)
    ensures var s' := Release(s, p, f);
            && Inv(s') && View(s') == View(s) && Pins(s') == DropPin(Pins(s), p)
            && s'.log == s.log + (if s.frames[f].dirty then [Image(p, View(s)[p])] else [])
            && Durable(s') == Durable(s)[p := View(s)[p]]
            && s'.nextId == s.nextId && |s'.frames| == |s.frames|
  {
    hide ListsOk, LogOk, FrameOk;
    CachedFacts(s, p);
    var fr := s.frames[f];
    if fr.dirty {
      var s1 := s.(log := s.log + [Image(p, fr.page)]);
      AppendKeeps(s, p);
      assert View(s1) == View(s) && Pins(s1) == Pins(s);
      UnpinKeeps(s1, p, f);
      assert Release(s, p, f) == SetFrame(s1, f, fr.(pinCount := fr.pinCount - 1));
    } else {
      UnpinKeeps(s, p, f);
      assert Durable(s)[p := fr.page] == Durable(s);
      assert s.log + [] == s.log;
      assert Release(s, p, f) == SetFrame(s, f, fr.(pinCount := fr.pinCount - 1));
    }
  }

  /** Logging the current image of a cached page keeps the invariant. */
  lemma AppendKeeps(s: Pool, p: PageId)
    requires Inv(s) && p in s.table && s.frames[s.table[p]].dirty
    ensures var s' := s.(log := s.log + [Image(p, s.frames[s.table[p]].page)]);
            Inv(s') && Durable(s') == Durable(s)[p := s.frames[s.table[p]].page]
  {
    var r := Image(p, s.frames[s.table[p]].page);
    var s' := s.(log := s.log + [r]);
    assert s'.log[..|s'.log| - 1] == s.log;
    assert Durable(s') == Durable(s)[p := r.page];
    forall q | q in s'.disk
      ensures DiskOk(Durable(s'), s'.log, s'.disk, q)
    {
      assert DiskOk(Durable(s), s.log, s.disk, q);
    }
    forall q | q in s'.table
      ensures FrameOk(Durable(s'), s'.disk, s'.frames[s'.table[q]])
    {
      assert FrameOk(Durable(s), s.disk, s.frames[s.table[q]]);
    }
  }

  lemma DropAdded(pins: map<PageId, Pin>, p: PageId, f: nat)
    requires p in pins ==> pins[p].count > 0 && pins[p].frame == f
    ensures DropPin(AddPin(pins, p, f), p) == pins
  {
  }
}
