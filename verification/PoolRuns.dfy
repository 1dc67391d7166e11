/** Whole runs of the buffer pool: fetches, new pages, changes, releases and flushes in any order, with a
    crash and a replay at any point. */
module PoolRuns {
  import opened Pages
  import opened PoolModel
  import opened Recovery

  datatype Op =
    | Fetch(id: PageId)
    | New
    | Change(cid: PageId, page: Page)
    | Drop(did: PageId)
    | Flush(fid: PageId)

  /** No pinned page holds changes that are not in the log. */
  ghost predicate Logged(s: Pool, p: PageId)
    requires TableOk(s)
  {
    p in s.table ==> p in Durable(s) && Durable(s)[p] == s.frames[s.table[p]].page
  }

  /** What a caller may do: read pages that exist, change and drop pages it has pinned, flush pages whose
      changes are logged. */
  ghost predicate Enabled(s: Pool, op: Op)
    requires Inv(s)
  {
    match op
    case Fetch(id) => id in View(s)
    case New => true
    case Change(id, _) => id in Pins(s)
    case Drop(id) => id in Pins(s)
    case Flush(id) => Logged(s, id)
  }

  function Step(s: Pool, op: Op): Pool {
    match op
    case Fetch(id) => FetchPage(s, id).pool
    case New => NewPage(s).pool
    case Change(id, page) => if id in s.table && s.table[id] < |s.frames| then Write(s, s.table[id], page) else s
    case Drop(id) => if id in s.table && s.table[id] < |s.frames| then Release(s, id, s.table[id]) else s
    case Flush(id) => FlushPage(s, id)
  }

  ghost predicate Runs(s: Pool, ops: seq<Op>)
    requires Inv(s)
    decreases |ops|
  {
    ops == [] || (Enabled(s, ops[0]) && (Inv(Step(s, ops[0])) ==> Runs(Step(s, ops[0]), ops[1..])))
  }

  function Run(s: Pool, ops: seq<Op>): Pool
    decreases |ops|
  {
    if ops == [] then s else Run(Step(s, ops[0]), ops[1..])
  }

  // ---------- one step ----------

  lemma FlushKeeps(s: Pool, p: PageId)
    requires Inv(s) && Logged(s, p)
    ensures Inv(FlushPage(s, p)) && View(FlushPage(s, p)) == View(s)
  {
    if p in s.table {
      var f := s.table[p];
      var fr := s.frames[f].(dirty := false);
      var s1 := s.(disk := s.disk[p := fr.page]);
      CachedFacts(s, p);
      LoggedImage(map[], s.log, p);
      DiskWriteKeeps(s, p, fr.page);
      SetFrameLog(s1, p, fr);
      SetFrameView(s1, p, fr);
      FlushView(s, s1, p, fr);
    }
  }

  lemma FlushView(s: Pool, s1: Pool, p: PageId, fr: Frame)
    requires TableOk(s) && p in s.table && fr.page == s.frames[s.table[p]].page && s1 == s.(disk := s.disk[p := fr.page])
    ensures TableOk(s1) && View(s1)[p := fr.page] == View(s)
  {
    assert View(s1)[p := fr.page].Keys == View(s).Keys;
  }

  /** Writing the last logged image of a cached page to disk is always safe. */
  lemma DiskWriteKeeps(s: Pool, p: PageId, page: Page)
    requires Inv(s) && p in s.table && p in Durable(s) && Durable(s)[p] == page && Image(p, page) in s.log
    ensures Inv(s.(disk := s.disk[p := page]))
  {
    var s' := s.(disk := s.disk[p := page]);
    forall q | q in s'.disk
      ensures DiskOk(Durable(s'), s'.log, s'.disk, q) && q < s'.nextId
      ensures q !in s'.table ==> s'.disk[q] == Durable(s')[q]
    {
      if q != p {
        assert DiskOk(Durable(s), s.log, s.disk, q);
      }
    }
    forall q | q in s'.table
      ensures FrameOk(Durable(s'), s'.disk, s'.frames[s'.table[q]])
    {
      assert FrameOk(Durable(s), s.disk, s.frames[s.table[q]]);
    }
  }

  ghost predicate Clean(s: Pool, p: PageId)
    requires TableOk(s)
  {
    p in s.table ==> !s.frames[s.table[p]].dirty
  }

  /** A clean page is on disk as readers see it. */
  lemma CleanOnDisk(s: Pool, p: PageId)
    requires Inv(s) && Clean(s, p) && p in s.table
    ensures p in s.disk && s.disk[p] == View(s)[p]
  {
    CachedFacts(s, p);
    assert FrameOk(Durable(s), s.disk, s.frames[s.table[p]]);
  }

  lemma LoggedMoves(s: Pool, m: Pool, p: PageId)
    requires Inv(s) && Inv(m) && View(m) == View(s) && m.table == s.table && m.log == s.log && Logged(s, p)
    ensures Logged(m, p)
  {
    if p in s.table {
      CachedFacts(s, p);
      CachedFacts(m, p);
      assert View(s)[p] == s.frames[s.table[p]].page && View(m)[p] == m.frames[m.table[p]].page;
    }
  }

  lemma FlushCleans(s: Pool, p: PageId, q: PageId)
    requires TableOk(s) && TableOk(FlushPage(s, p)) && (Clean(s, q) || q == p)
    ensures Clean(FlushPage(s, p), q)
  {
  }

  /** Flushing cached pages one after the other, all of them logged, loses nothing, changes nothing that a reader sees,
      and leaves each of them clean. */
  lemma {:induction false} FlushAllKeeps(s: Pool, ps: seq<PageId>)
    requires Inv(s) && forall p <- ps :: Logged(s, p)
    ensures var s' := FlushAll(s, ps);
            && Inv(s') && View(s') == View(s) && s'.table == s.table && s'.log == s.log
            && forall p <- ps :: Clean(s', p)
    decreases |ps|
  {
    hide ListsOk, LogOk, View, Durable, Logged;
    if ps != [] {
      var n := |ps| - 1;
      var before, p := ps[..n], ps[n];
      assert ps == before + [p];
      assert forall q <- before :: q in ps;
      FlushAllKeeps(s, before);
      var m := FlushAll(s, before);
      LoggedMoves(s, m, p);
      FlushKeeps(m, p);
      hide Clean;
      forall q | q in ps
        ensures Clean(FlushAll(s, ps), q)
      {
        FlushCleans(m, p, q);
        NotDirty(m, p);
      }
    }
  }

  /** Flushing every cached page, all changes being logged, leaves the disk as readers see it. */
  lemma FlushAllOnDisk(s: Pool, ps: seq<PageId>)
    requires Inv(s) && (forall p :: p in ps <==> p in s.table) && forall p <- ps :: Logged(s, p)
    ensures FlushAll(s, ps).disk == View(s)
  {
    hide ListsOk, LogOk, Durable, Logged, Clean;
    var s' := FlushAll(s, ps);
    FlushAllKeeps(s, ps);
    forall p | p in s'.table
      ensures p in s'.disk && s'.disk[p] == View(s')[p]
    {
      assert p in ps;
      CleanOnDisk(s', p);
    }
    assert s'.disk == View(s');
  }

  lemma NotDirty(s: Pool, p: PageId)
    requires TableOk(s)
    ensures p in s.table && !s.frames[s.table[p]].dirty ==> Clean(s, p)
    ensures p !in s.table ==> Clean(s, p) && FlushPage(s, p) == s
  {
  }

  /** Every enabled step keeps the invariant, never shortens the log, and never resizes the pool. */
  lemma StepKeeps(s: Pool, op: Op)
    requires Inv(s) && Enabled(s, op)
    ensures Inv(Step(s, op)) && s.log <= Step(s, op).log && |Step(s, op).frames| == |s.frames|
    ensures s.nextId <= Step(s, op).nextId
  {
    hide ListsOk, LogOk, View, Durable, FindVictimFrame;
    match op
    case Fetch(id) => FetchEffect(s, id);
    case New => NewEffect(s);
    case Change(id, page) => WriteEffect(s, id, s.table[id], page);
    case Drop(id) => ReleaseEffect(s, id, s.table[id]);
    case Flush(id) => FlushKeeps(s, id);
  }

  /** The flat page store a caller thinks it is using. */
  datatype Flat = Flat(pages: Store, nextId: PageId)

  /** What each step means to the flat store.  A new page only appears if a frame was free for it. */
  function FlatStep(m: Flat, op: Op, created: bool): Flat {
    match op
    case Change(id, page) => m.(pages := m.pages[id := page])
    case New => if created then Flat(m.pages[m.nextId := Blank], m.nextId + 1) else m
    case _ => m
  }

  ghost function FlatOf(s: Pool): Flat
    requires Inv(s)
  {
    Flat(View(s), s.nextId)
  }

  /** The cache is invisible: only changes and new pages alter what readers see. */
  lemma StepRefines(s: Pool, op: Op)
    requires Inv(s) && Enabled(s, op)
    ensures Inv(Step(s, op)) && FlatOf(Step(s, op)) == FlatStep(FlatOf(s), op, NewPage(s).frame.Some?)
  {
    StepKeeps(s, op);
    hide ListsOk, LogOk, View, Durable, FindVictimFrame;
    match op
    case Fetch(id) => FetchEffect(s, id);
    case New => NewEffect(s);
    case Change(id, page) => WriteEffect(s, id, s.table[id], page);
    case Drop(id) => ReleaseEffect(s, id, s.table[id]);
    case Flush(id) => FlushKeeps(s, id);
  }

  // ---------- whole runs ----------

  ghost function FlatRun(s: Pool, m: Flat, ops: seq<Op>): Flat
    decreases |ops|
  {
    if ops == [] then m
    else FlatRun(Step(s, ops[0]), FlatStep(m, ops[0], NewPage(s).frame.Some?), ops[1..])
  }

  /** Over every run the invariant holds, the log only grows, and readers see exactly the flat store. */
  lemma {:induction false} RunKeeps(s: Pool, ops: seq<Op>)
    requires Inv(s) && Runs(s, ops)
    ensures Inv(Run(s, ops)) && s.log <= Run(s, ops).log && |Run(s, ops).frames| == |s.frames|
    ensures FlatOf(Run(s, ops)) == FlatRun(s, FlatOf(s), ops)
    decreases |ops|
  {
    hide Inv, Step, FlatStep;
    if ops != [] {
      StepKeeps(s, ops[0]);
      StepRefines(s, ops[0]);
      RunKeeps(Step(s, ops[0]), ops[1..]);
    }
  }

  /** Any state of any run can crash: replaying the log over whatever evictions and flushes left on disk gives
      every page its last logged image, and gives nothing else. */
  lemma RunCrash(s: Pool, ops: seq<Op>)
    requires Inv(s) && Runs(s, ops)
    ensures var s' := Run(s, ops);
            && Apply(s'.disk, s'.log) == Durable(s')
            && forall p <- s'.disk :: Image(p, s'.disk[p]) in s'.log
  {
    RunKeeps(s, ops);
    var s' := Run(s, ops);
    assert LogOk(s');
    forall p | p in s'.disk
      ensures p in Durable(s') && Image(p, s'.disk[p]) in s'.log
    {
      assert DiskOk(Durable(s'), s'.log, s'.disk, p);
    }
    ReplayForgetsDisk(s'.disk, s'.disk, s'.log);
  }

  /** Two runs that logged the same images recover to the same pages, whatever each of them evicted. */
  lemma EvictionsDoNotMatter(s: Pool, ops: seq<Op>, t: Pool, ops': seq<Op>)
    requires Inv(s) && Runs(s, ops) && Inv(t) && Runs(t, ops')
    requires Run(s, ops).log == Run(t, ops').log
    ensures Apply(Run(s, ops).disk, Run(s, ops).log) == Apply(Run(t, ops').disk, Run(t, ops').log)
  {
    RunCrash(s, ops);
    RunCrash(t, ops');
  }

  // ---------- flushing a page with unlogged changes ----------

  /** A page on disk is one whose image was logged. */
  ghost predicate WriteAhead(s: Pool) {
    forall p <- s.disk :: Image(p, s.disk[p]) in s.log
  }

  /** What a flush puts on disk obeys the write-ahead rule when that image was logged at some time, perhaps long ago. */
  lemma FlushWritesAhead(s: Pool, p: PageId)
    requires Inv(s) && p in s.table
    ensures WriteAhead(FlushPage(s, p)) <==> Image(p, s.frames[s.table[p]].page) in s.log
  {
    var s' := FlushPage(s, p);
    assert s'.disk == s.disk[p := s.frames[s.table[p]].page];
    if Image(p, s.frames[s.table[p]].page) in s.log {
      forall q | q in s'.disk
        ensures Image(q, s'.disk[q]) in s'.log
      {
        if q != p {
          assert DiskOk(Durable(s), s.log, s.disk, q);
        }
      }
    } else {
      assert p in s'.disk && Image(p, s'.disk[p]) !in s'.log;
    }
  }

  /** A flush of a cached page keeps the invariant if and only if the page's last logged image is what the frame holds. */
  lemma FlushIffLogged(s: Pool, p: PageId)
    requires Inv(s) && p in s.table
    ensures Inv(FlushPage(s, p)) <==> Logged(s, p)
  {
    var s' := FlushPage(s, p);
    if Inv(s') {
      assert FrameOk(Durable(s'), s'.disk, s'.frames[s'.table[p]]);
    }
    if Logged(s, p) {
      FlushKeeps(s, p);
    }
  }

  /** Flush a pinned page, then drop its guard: recovery gives what readers saw if and only if the change was logged
      before the flush, since the drop then logs nothing. */
  lemma FlushThenRelease(s: Pool, p: PageId)
    requires Inv(s) && p in Pins(s)
    ensures var s' := Release(FlushPage(s, p), p, s.table[p]);
            && s'.log == s.log && s'.frames[s.table[p]].page == View(s)[p]
            && (p in Durable(s') && Durable(s')[p] == View(s)[p] <==> Logged(s, p))
  {
    CachedFacts(s, p);
  }

  /** A dirty page stays as readers and the log see it while other pages are flushed. */
  lemma {:induction false} FlushAllOther(s: Pool, ps: seq<PageId>, p: PageId)
    requires TableOk(s)
    ensures var s' := FlushAll(s, ps);
            && TableOk(s') && s'.table == s.table && s'.log == s.log && |s'.frames| == |s.frames|
            && (p in s.table ==> s'.frames[s.table[p]].page == s.frames[s.table[p]].page)
            && (p in s.table && p in ps ==> !s'.frames[s.table[p]].dirty)
            && (p in s.table && !s.frames[s.table[p]].dirty ==> !s'.frames[s.table[p]].dirty)
    decreases |ps|
  {
    if ps != [] {
      var n := |ps| - 1;
      assert ps == ps[..n] + [ps[n]];
      FlushAllOther(s, ps[..n], p);
    }
  }

  /** The same for any list of flushes: the invariant is kept if and only if every flushed page's change was logged. */
  lemma FlushAllIffLogged(s: Pool, ps: seq<PageId>)
    requires Inv(s)
    ensures Inv(FlushAll(s, ps)) <==> forall p <- ps :: Logged(s, p)
  {
    hide ListsOk;
    var s' := FlushAll(s, ps);
    if Inv(s') {
      forall p | p in ps
        ensures Logged(s, p)
      {
        FlushAllOther(s, ps, p);
        if p in s.table {
          CachedFacts(s', p);
          assert FrameOk(Durable(s'), s'.disk, s'.frames[s'.table[p]]);
        }
      }
    }
    if forall p <- ps :: Logged(s, p) {
      FlushAllKeeps(s, ps);
    }
  }

  /** Flush a list of pages, then drop the guard of a pinned one of them: again the change survives if and only if it was
      logged before. */
  lemma FlushAllThenRelease(s: Pool, ps: seq<PageId>, p: PageId)
    requires Inv(s) && p in Pins(s) && p in ps
    ensures var m := FlushAll(s, ps);
            && |m.frames| == |s.frames|
            && var s' := Release(m, p, s.table[p]);
               && s'.log == s.log
               && (p in Durable(s') && Durable(s')[p] == View(s)[p] <==> Logged(s, p))
  {
    FlushAllOther(s, ps, p);
    CachedFacts(s, p);
  }

  /** A page logged with two images in turn, on disk as last logged, and then changed back to the first without logging:
      a flush obeys the write-ahead rule, and the change is lost. */
  lemma FlushStale(a: Page, b: Page)
    requires a != b
    ensures var s := Pool([Frame(a, 0, 1, true)], map[0 := 0], [], [0], map[0 := b], 1, [Image(0, a), Image(0, b)]);
            && Inv(s) && 0 in Pins(s) && WriteAhead(FlushPage(s, 0)) && !Inv(FlushPage(s, 0))
            && View(s)[0] == a && Durable(Release(FlushPage(s, 0), 0, 0)) == map[0 := b]
  {
    var s := Pool([Frame(a, 0, 1, true)], map[0 := 0], [], [0], map[0 := b], 1, [Image(0, a), Image(0, b)]);
    ApplyTwo(map[], Image(0, a), Image(0, b));
    assert Durable(s) == map[0 := b];
    assert Image(0, b) == s.log[1] && Image(0, a) == s.log[0];
    assert Inv(s);
    FlushWritesAhead(s, 0);
    FlushIffLogged(s, 0);
  }

  /** Flushing a freshly created, still pinned page puts an unlogged page on disk, and dropping its guard then logs
      nothing: the page is lost to recovery. */
  lemma FlushHazard()
    ensures var s0 := Pool([Frame(Blank, INVALID_PAGE_ID, 0, false)], map[], [0], [], map[], 0, []);
            && Inv(s0)
            && var s1 := NewPage(s0).pool;
               Inv(s1) && 0 in Pins(s1) && !WriteAhead(FlushPage(s1, 0))
               && Release(FlushPage(s1, 0), 0, 0).log == []
  {
    var s0 := Pool([Frame(Blank, INVALID_PAGE_ID, 0, false)], map[], [0], [], map[], 0, []);
    NewEffect(s0);
    var s1 := NewPage(s0).pool;
    assert FindVictimFrame(s0) == Fetched(s0.(freeList := []), Some(0));
    assert s1.frames == [Frame(Blank, 0, 1, true)];
    assert s1.table == map[0 := 0];
    FlushWritesAhead(s1, 0);
  }
}
