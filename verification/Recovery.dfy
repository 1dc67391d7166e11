/** The data file and the replay that brings it up to the log. */
module Recovery {
  import opened Pages
  import opened Wal

  class DiskManager {
    var pages: Store
    /** File length in pages. */
    var size: nat
    var nextPageId: PageId

    ghost predicate Valid()
      reads this
    {
      && (forall p <- pages :: p < size)
      && (size > 0 ==> size - 1 in pages)
    }

    /** Open a data file that holds `contents`. */
    constructor (contents: Store, length: nat)
      requires forall p <- contents :: p < length
      requires length > 0 ==> length - 1 in contents
      ensures Valid() && pages == contents && size == length && nextPageId == length
    {
      pages, size, nextPageId := contents, length, length;
    }

    method ReadPage(id: PageId) returns (page: Page)
      requires id in pages
      ensures page == pages[id]
    {
      page := pages[id];
    }

    method WritePage(id: PageId, page: Page)
      requires Valid()
      modifies this
      ensures Valid() && pages == old(pages)[id := page] && nextPageId == old(nextPageId)
    {
      pages := pages[id := page];
      if id >= size {
        size := id + 1;
      }
    }

    method AllocatePage() returns (id: PageId)
      modifies this
      ensures id == old(nextPageId) && nextPageId == id + 1
      ensures pages == old(pages) && size == old(size)
    {
      id := nextPageId;
      nextPageId := nextPageId + 1;
    }

    /** The next id to allocate is past the end of the file. */
    method RefreshNextPageIdAfterRecovery()
      requires Valid()
      modifies this
      ensures Valid() && pages == old(pages) && size == old(size)
      ensures forall p <- pages :: p < nextPageId
      ensures pages == map[] ==> nextPageId == 0
      ensures pages != map[] ==> nextPageId > 0 && nextPageId - 1 in pages
    {
      nextPageId := size;
    }
  }

  /** The record with the highest sequence number for each page, as the replay loop keeps it. */
  function Latest(records: seq<Record>): map<PageId, Record> {
    if records == [] then map[]
    else
      var before, r := Latest(records[..|records| - 1]), records[|records| - 1];
      if r.id !in before || r.lsn > before[r.id].lsn then before[r.id := r] else before
  }

  /** Under rising sequence numbers the highest one for a page is the last one in the file. */
  lemma {:induction false} HighestIsLast(records: seq<Record>)
    requires Increasing(records)
    ensures Latest(records).Keys == Apply(map[], Images(records)).Keys
    ensures forall p <- Latest(records) :: Latest(records)[p].page == Apply(map[], Images(records))[p]
    ensures forall p <- Latest(records) :: Latest(records)[p] in records && Latest(records)[p].id == p
  {
    if records == [] {
      assert Images(records) == [];
    } else {
      var n := |records| - 1;
      HighestIsLast(records[..n]);
      assert Images(records)[..n] == Images(records[..n]);
      assert records == records[..n] + [records[n]];
      forall r | r in records[..n]
        ensures r.lsn < records[n].lsn
      {
        var i :| 0 <= i < n && records[i] == r;
      }
    }
  }

  /** Pages on top of other pages. */
  lemma {:induction false} ApplyIsOverlay(store: Store, images: seq<Image>)
    ensures Apply(store, images) == store + Apply(map[], images)
    decreases |images|
  {
    if images != [] {
      ApplyIsOverlay(store, images[..|images| - 1]);
    }
  }

  /** First loop of the replay. */
  method LatestPerPage(records: seq<Record>) returns (latest: map<PageId, Record>)
    ensures latest == Latest(records)
  {
    latest := map[];
    var n := 0;
    while n < |records|
      invariant 0 <= n <= |records|
      invariant latest == Latest(records[..n])
    {
      var record := records[n];
      assert records[..n + 1][..n] == records[..n];
      if record.id !in latest || record.lsn > latest[record.id].lsn {
        latest := latest[record.id := record];
      }
      n := n + 1;
    }
    assert records[..n] == records;
  }

  ghost function PagesOf(latest: map<PageId, Record>): Store {
    map p | p in latest :: latest[p].page
  }

  /** Second loop of the replay. */
  method WriteBack(disk: DiskManager, latest: map<PageId, Record>)
    requires disk.Valid()
    modifies disk
    ensures disk.Valid() && disk.pages == old(disk.pages) + PagesOf(latest)
  {
    ghost var was := disk.pages;
    var todo := latest.Keys;
    while todo != {}
      invariant disk.Valid()
      invariant todo <= latest.Keys
      invariant disk.pages == was + map p | p in latest && p !in todo :: latest[p].page
      decreases todo
    {
      var id :| id in todo;
      disk.WritePage(id, latest[id].page);
      todo := todo - {id};
    }
  }

  lemma LatestPages(records: seq<Record>)
    requires Increasing(records)
    ensures PagesOf(Latest(records)) == Apply(map[], Images(records))
  {
    HighestIsLast(records);
  }

  lemma ReplayedIds(store: Store, records: seq<Record>)
    ensures forall r <- records :: r.id in Apply(store, Images(records))
  {
    forall r | r in records
      ensures r.id in Apply(store, Images(records))
    {
      var i :| 0 <= i < |records| && records[i] == r;
      assert Images(records)[i] in Images(records);
      ApplyFrame(store, Images(records), r.id);
    }
  }

  /** Replay: reduce the log to the latest record per page, write those pages, and move the allocation
      counter past everything on disk. */
  method RunRecovery(disk: DiskManager, wal: WALManager)
    requires disk.Valid() && wal.Valid()
    modifies disk
    ensures disk.Valid()
    ensures disk.pages == Apply(old(disk.pages), Images(wal.validRecords))
    ensures forall p <- disk.pages :: p < disk.nextPageId
    ensures forall r <- wal.validRecords :: r.id < disk.nextPageId
    ensures disk.pages == map[] ==> disk.nextPageId == 0
    ensures disk.pages != map[] ==> disk.nextPageId > 0 && disk.nextPageId - 1 in disk.pages
  {
    hide Apply, Latest, PagesOf, Increasing, Images;
    ghost var was := disk.pages;
    var latest := LatestPerPage(wal.validRecords);
    WriteBack(disk, latest);
    LatestPages(wal.validRecords);
    ApplyIsOverlay(was, Images(wal.validRecords));
    ReplayedIds(was, wal.validRecords);
    disk.RefreshNextPageIdAfterRecovery();
  }

  /** Replaying twice is replaying once. */
  lemma ReplayIdempotent(store: Store, images: seq<Image>)
    ensures Apply(Apply(store, images), images) == Apply(store, images)
  {
    ApplyIsOverlay(store, images);
    ApplyIsOverlay(Apply(store, images), images);
  }

  /** Whatever subset of pages evictions wrote, and however stale, replay gives the last logged images,
      as long as no page reached the disk that the log does not name. */
  lemma ReplayForgetsDisk(disk: Store, disk': Store, images: seq<Image>)
    requires forall p <- disk :: p in Apply(map[], images)
    requires forall p <- disk' :: p in Apply(map[], images)
    ensures Apply(disk, images) == Apply(disk', images) == Apply(map[], images)
  {
    ApplyIsOverlay(disk, images);
    ApplyIsOverlay(disk', images);
  }
}
