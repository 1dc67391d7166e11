/** The buffer pool object: frames updated in place in front of a data file and a log. */
module Buffers {
  import opened Pages
  import opened Wal
  import opened Recovery
  import opened PoolModel

  /** A handle on a pinned page. */
  datatype Guard = Guard(pageId: PageId, frame: nat)

  class BufferPool {
    var frames: seq<Frame>
    var pageTable: map<PageId, nat>
    var freeList: seq<nat>
    var lruList: seq<nat>
    const disk: DiskManager
    const wal: WALManager

    ghost function State(): Pool
      reads this, disk, wal
    {
      Pool(frames, pageTable, freeList, lruList, disk.pages, disk.nextPageId, Images(wal.validRecords))
    }

    ghost predicate Valid()
      reads this, disk, wal
    {
      disk.Valid() && wal.Valid() && Inv(State())
    }

    // What the layers above may rely on.

    ghost function View(): Store
      requires Valid()
      reads this, disk, wal
    {
      PoolModel.View(State())
    }

    ghost function Pins(): map<PageId, Pin>
      requires Valid()
      reads this, disk, wal
    {
      PoolModel.Pins(State())
    }

    ghost function Log(): seq<Image>
      reads wal
    {
      Images(wal.validRecords)
    }

    ghost function Durable(): Store
      reads wal
    {
      Apply(map[], Log())
    }

    /** A pool over a file and a log that agree, as they do after recovery. */
    constructor (poolSize: nat, d: DiskManager, w: WALManager)
      requires d.Valid() && w.Valid()
      requires d.pages == Apply(map[], Images(w.validRecords))
      requires forall p <- d.pages :: p < d.nextPageId
      ensures disk == d && wal == w
      ensures Valid() && |frames| == poolSize
      ensures View() == d.pages && Pins() == map[]
    {
      disk, wal := d, w;
      frames := seq(poolSize, _ => Frame(Blank, INVALID_PAGE_ID, 0, false));
      pageTable, lruList := map[], [];
      new;
      freeList := [];
      for i := 0 to poolSize
        invariant freeList == seq(i, j requires 0 <= j < i => j)
        invariant frames == seq(poolSize, _ => Frame(Blank, INVALID_PAGE_ID, 0, false))
        invariant pageTable == map[] && lruList == []
      {
        freeList := freeList + [i];
      }
      FreshPoolOk(State(), poolSize);
    }

    /** Evict if need be.  The loop walks the LRU list from its tail. */
    method FindVictimFrame() returns (found: Option<nat>)
      requires Valid()
      modifies this, disk
      ensures disk.Valid()
      ensures State() == PoolModel.FindVictimFrame(old(State())).pool
      ensures found == PoolModel.FindVictimFrame(old(State())).frame
    {
      hide ListsOk, LogOk, Without;
      if freeList != [] {
        var n := |freeList| - 1;
        found := Some(freeList[n]);
        freeList := freeList[..n];
        return;
      }
      var i := |lruList|;
      assert lruList[..i] == lruList;
      while i > 0
        invariant 0 <= i <= |lruList|
        invariant Victim(frames, lruList) == Victim(frames, lruList[..i])
      {
        i := i - 1;
        var candidate := lruList[i];
        assert lruList[..i + 1][..i] == lruList[..i];
        if Unpinned(frames, candidate) {
          var frame := frames[candidate];
          lruList := Without(lruList, candidate);
          if frame.dirty {
            disk.WritePage(frame.pageId, frame.page);
          }
          pageTable := pageTable - {frame.pageId};
          return Some(candidate);
        }
      }
      return None;
    }

    method TouchLRU(f: nat)
      modifies this`lruList
      ensures lruList == Touch(old(lruList), f)
    {
      lruList := [f] + Without(lruList, f);
    }

    /** Bring a page in and pin it.  Fails only if the page is not cached and every frame is pinned. */
    method FetchPage(id: PageId) returns (ok: bool, guard: Guard)
      requires Valid() && id in View()
      modifies this, disk
      ensures Valid()
      ensures State() == PoolModel.FetchPage(old(State()), id).pool
      ensures ok <==> old(id in pageTable || PoolModel.FindVictimFrame(State()).frame.Some?)
      ensures old(id in Pins() || |Pins()| < |frames|) ==> ok
      ensures View() == old(View()) && Log() == old(Log())
      ensures disk.nextPageId == old(disk.nextPageId) && |frames| == old(|frames|)
      ensures !ok ==> State() == old(State())
      ensures ok ==>
                && guard.pageId == id
                && Pins() == AddPin(old(Pins()), id, guard.frame)
                && guard.frame < |frames| && frames[guard.frame].page == View()[id]
    {
      hide ListsOk, LogOk, PoolModel.Durable, PoolModel.FindVictimFrame, PoolModel.View, PoolModel.Pins, Without;
      ghost var s := State();
      FetchEffect(s, id);
      if id !in pageTable && PoolModel.FindVictimFrame(s).frame.Some? {
        FetchMiss(s, id);
      }
      if id in pageTable {
        var f := pageTable[id];
        frames := frames[f := frames[f].(pinCount := frames[f].pinCount + 1)];
        TouchLRU(f);
        return true, Guard(id, f);
      }
      var found := FindVictimFrame();
      if found.None? {
        return false, Guard(INVALID_PAGE_ID, 0);
      }
      var f := found.value;
      var page := disk.ReadPage(id);
      frames := frames[f := Frame(page, id, 1, false)];
      pageTable := pageTable[id := f];
      TouchLRU(f);
      return true, Guard(id, f);
    }

    /** Allocate a blank page and pin it. */
    method NewPage() returns (ok: bool, guard: Guard)
      requires Valid()
      modifies this, disk
      ensures Valid()
      ensures State() == PoolModel.NewPage(old(State())).pool
      ensures old(|Pins()| < |frames|) ==> ok
      ensures !ok ==> State() == old(State())
      ensures Log() == old(Log()) && |frames| == old(|frames|)
      ensures ok ==>
                && guard.pageId == old(disk.nextPageId) && disk.nextPageId == guard.pageId + 1
                && guard.pageId !in old(View()) && guard.pageId !in old(Pins()) && guard.pageId !in old(Durable())
                && View() == old(View())[guard.pageId := Blank]
                && Pins() == AddPin(old(Pins()), guard.pageId, guard.frame)
    {
      hide ListsOk, LogOk, PoolModel.FindVictimFrame, PoolModel.View, PoolModel.Pins, Without, TableOk;
      ghost var s := State();
      NewEffect(s);
      var found := FindVictimFrame();
      if found.None? {
        return false, Guard(INVALID_PAGE_ID, 0);
      }
      var f := found.value;
      var id := disk.AllocatePage();
      frames := frames[f := Frame(Blank, id, 1, true)];
      pageTable := pageTable[id := f];
      TouchLRU(f);
      return true, Guard(id, f);
    }

    /** Change a pinned page and mark it dirty. */
    method WritePage(guard: Guard, page: Page)
      requires Valid()
      requires guard.pageId in Pins() && Pins()[guard.pageId].frame == guard.frame
      modifies this
      ensures Valid()
      ensures State() == Write(old(State()), guard.frame, page)
      ensures View() == old(View())[guard.pageId := page]
      ensures Pins() == old(Pins()) && |frames| == old(|frames|)
    {
      hide ListsOk, LogOk, PoolModel.View, PoolModel.Pins;
      HoldsPinned(State(), guard.pageId);
      WriteEffect(State(), guard.pageId, guard.frame, page);
      frames := frames[guard.frame := frames[guard.frame].(page := page, dirty := true)];
    }

    /** The page a live guard sees. */
    method Read(guard: Guard) returns (page: Page)
      requires Valid()
      requires guard.pageId in Pins() && Pins()[guard.pageId].frame == guard.frame
      ensures guard.pageId in View() && page == View()[guard.pageId]
    {
      page := frames[guard.frame].page;
    }

    /** Unpin; when dirty, log the page before the pin is dropped. */
    method UnpinPage(id: PageId, isDirty: bool)
      requires disk.Valid() && wal.Valid() && TableOk(State())
      modifies this, wal
      ensures disk.Valid() && wal.Valid()
      ensures State() == Unpin(old(State()), id, isDirty)
    {
      if id !in pageTable {
        return;
      }
      var f := pageTable[id];
      if isDirty {
        frames := frames[f := frames[f].(dirty := true)];
        var _ := wal.AppendRecord(id, frames[f].page);
      }
      if frames[f].pinCount > 0 {
        frames := frames[f := frames[f].(pinCount := frames[f].pinCount - 1)];
      }
    }

    /** Drop a guard.  Whatever the page now holds becomes durable. */
    method Release(guard: Guard)
      requires Valid()
      requires guard.pageId in Pins() && Pins()[guard.pageId].frame == guard.frame
      modifies this, wal
      ensures Valid()
      ensures State() == PoolModel.Release(old(State()), guard.pageId, guard.frame)
      ensures View() == old(View()) && Pins() == DropPin(old(Pins()), guard.pageId)
      ensures guard.pageId in View()
      ensures Log() == old(Log()) || Log() == old(Log()) + [Image(guard.pageId, View()[guard.pageId])]
      ensures Durable() == old(Durable())[guard.pageId := View()[guard.pageId]]
      ensures |frames| == old(|frames|)
    {
      ReleaseEffect(State(), guard.pageId, guard.frame);
      UnpinPage(guard.pageId, frames[guard.frame].dirty);
    }

    /** Write one cached page to disk and call it clean, pinned or not. */
    method FlushPage(id: PageId) returns (ok: bool)
      requires disk.Valid() && wal.Valid() && TableOk(State())
      modifies this, disk
      ensures disk.Valid() && wal.Valid()
      ensures ok <==> id in old(pageTable)
      ensures State() == PoolModel.FlushPage(old(State()), id)
    {
      if id !in pageTable {
        return false;
      }
      var f := pageTable[id];
      disk.WritePage(id, frames[f].page);
      frames := frames[f := frames[f].(dirty := false)];
      return true;
    }

    /** Write every dirty cached page to disk and call it clean, pinned or not, in some order. */
    method FlushAll() returns (ghost order: seq<PageId>)
      requires disk.Valid() && wal.Valid() && TableOk(State())
      modifies this, disk
      ensures disk.Valid() && wal.Valid()
      ensures forall p :: p in order <==> p in old(pageTable)
      ensures State() == PoolModel.FlushAll(old(State()), order)
    {
      order := [];
      var rest := pageTable.Keys;
      while rest != {}
        invariant rest <= pageTable.Keys && pageTable == old(pageTable) && disk.Valid() && wal.Valid() && TableOk(State())
        invariant forall p :: p in order <==> p in pageTable && p !in rest
        invariant State() == PoolModel.FlushAll(old(State()), order)
      {
        var p :| p in rest;
        var f := pageTable[p];
        assert (order + [p])[..|order|] == order;
        if frames[f].dirty {
          disk.WritePage(p, frames[f].page);
          frames := frames[f := frames[f].(dirty := false)];
        }
        rest := rest - {p};
        order := order + [p];
      }
    }
  }

  lemma HoldsPinned(s: Pool, p: PageId)
    requires Inv(s) && p in PoolModel.Pins(s)
    ensures Holds(s, p, PoolModel.Pins(s)[p].frame)
    ensures p in PoolModel.View(s) && s.frames[PoolModel.Pins(s)[p].frame].page == PoolModel.View(s)[p]
  {
  }

  lemma FreshPoolOk(s: Pool, n: nat)
    requires |s.frames| == n && s.table == map[] && s.lru == [] && s.freeList == seq(n, j requires 0 <= j < n => j)
    requires s.disk == PoolModel.Durable(s) && forall p <- s.disk :: p < s.nextId
    ensures Inv(s) && PoolModel.View(s) == s.disk && PoolModel.Pins(s) == map[]
  {
    assert forall f :: 0 <= f < n ==> s.freeList[f] == f;
    forall f | 0 <= f < n
      ensures f in s.freeList
    {
      assert s.freeList[f] == f;
    }
    forall p | p in s.disk
      ensures DiskOk(PoolModel.Durable(s), s.log, s.disk, p)
    {
      LoggedImage(map[], s.log, p);
    }
  }
}
