/** The write-ahead log file: a sequence of record slots, the last of which a crash may have torn. */
module Wal {
  import opened Pages

  datatype Record = Record(lsn: nat, id: PageId, page: Page)

  /** A slot either passes the magic number and checksum tests or does not. */
  datatype Slot = Whole(rec: Record) | Torn

  function Images(records: seq<Record>): (r: seq<Image>)
    ensures |r| == |records|
    ensures forall i :: 0 <= i < |r| ==> r[i] == Image(records[i].id, records[i].page)
  {
    seq(|records|, i requires 0 <= i < |records| => Image(records[i].id, records[i].page))
  }

  function Slots(records: seq<Record>): (r: seq<Slot>)
    ensures |r| == |records|
    ensures forall i :: 0 <= i < |r| ==> r[i] == Whole(records[i])
  {
    seq(|records|, i requires 0 <= i < |records| => Whole(records[i]))
  }

  /** The records before the first slot that fails its test. */
  function ValidPrefix(file: seq<Slot>): seq<Record> {
    if file == [] || file[0].Torn? then [] else [file[0].rec] + ValidPrefix(file[1..])
  }

  ghost predicate Increasing(records: seq<Record>) {
    forall i, j :: 0 <= i < j < |records| ==> records[i].lsn < records[j].lsn
  }

  ghost predicate AllBelow(records: seq<Record>, lsn: nat) {
    forall r <- records :: r.lsn < lsn
  }

  lemma {:induction false} ValidPrefixOf(records: seq<Record>, tail: seq<Slot>)
    requires tail == [] || tail[0].Torn?
    ensures ValidPrefix(Slots(records) + tail) == records
  {
    if records == [] {
      assert Slots(records) + tail == tail;
    } else {
      assert (Slots(records) + tail)[1..] == Slots(records[1..]) + tail;
      ValidPrefixOf(records[1..], tail);
    }
  }

  class WALManager {
    var file: seq<Slot>
    var nextOffset: nat
    var nextLsn: nat
    var validRecords: seq<Record>

    /** The open file holds the valid records and nothing else. */
    ghost predicate Clean()
      reads this
    {
      file == Slots(validRecords) && nextOffset == |file| && AllBelow(validRecords, nextLsn)
    }

    /** Besides, log sequence numbers rise in file order, as they do in every file this class wrote. */
    ghost predicate Valid()
      reads this
    {
      Clean() && Increasing(validRecords)
    }

    /** The file, the next number and the records, as one value. */
    ghost function State(): LogState
      reads this
    {
      LogState(file, nextLsn, validRecords)
    }

    /** Open a log file: keep the records before the first bad slot and cut the rest away. */
    constructor (contents: seq<Slot>)
      ensures Clean()
      ensures validRecords == ValidPrefix(contents) && State() == Open(contents)
    {
      hide NextLsn, AllBelow, Slots, ValidPrefix, Read;
      var offset := 0;
      var records: seq<Record> := [];
      NothingRead(contents);
      var lsn: nat := 0;
      while offset < |contents| && contents[offset].Whole?
        invariant offset <= |contents| && Read(contents, offset, records)
        invariant lsn == NextLsn(records)
      {
        var rec := contents[offset].rec;
        OneMoreRead(contents, offset, records);
        NextLsnGrows(records, rec);
        records := records + [rec];
        lsn := if rec.lsn + 1 > lsn then rec.lsn + 1 else lsn;
        offset := offset + 1;
      }
      AllRead(contents, offset, records);
      NextLsnAbove(records);
      file, nextOffset, nextLsn, validRecords := contents[..offset], offset, lsn, records;
    }

    /** Append one after-image under the next log sequence number. */
    method AppendRecord(id: PageId, page: Page) returns (lsn: nat)
      requires Valid()
      modifies this
      ensures Valid()
      ensures lsn == old(nextLsn) && nextLsn == lsn + 1
      ensures validRecords == old(validRecords) + [Record(lsn, id, page)]
      ensures file == old(file) + [Whole(Record(lsn, id, page))]
      ensures Images(validRecords) == old(Images(validRecords)) + [Image(id, page)]
      ensures State() == Step(old(State()), Append(id, page))
    {
      lsn := nextLsn;
      nextLsn := nextLsn + 1;
      var rec := Record(lsn, id, page);
      file := file[..nextOffset] + [Whole(rec)];
      nextOffset := nextOffset + 1;
      validRecords := validRecords + [rec];
    }
  }

  // ---------- every history of appends, crashes and reopens ----------

  /** What a crash in the middle of an append leaves in the last slot. */
  datatype Crash = Nothing | Partial | Complete

  datatype Event = Append(id: PageId, page: Page) | CrashIn(aid: PageId, apage: Page, left: Crash) | Reopen

  datatype LogState = LogState(file: seq<Slot>, nextLsn: nat, records: seq<Record>)

  function Open(file: seq<Slot>): LogState {
    var records := ValidPrefix(file);
    LogState(Slots(records), NextLsn(records), records)
  }

  function NextLsn(records: seq<Record>): nat {
    if records == [] then 0
    else
      var before := NextLsn(records[..|records| - 1]);
      if records[|records| - 1].lsn + 1 > before then records[|records| - 1].lsn + 1 else before
  }

  /** The file a crash in the middle of an append leaves. */
  function LeftIn(file: seq<Slot>, rec: Record, left: Crash): seq<Slot> {
    match left
    case Nothing => file
    case Partial => file + [Torn]
    case Complete => file + [Whole(rec)]
  }

  function Step(s: LogState, e: Event): LogState {
    match e
    case Append(id, page) =>
      var rec := Record(s.nextLsn, id, page);
      LogState(s.file + [Whole(rec)], s.nextLsn + 1, s.records + [rec])
    case CrashIn(id, page, left) =>
      Open(LeftIn(s.file, Record(s.nextLsn, id, page), left))
    case Reopen => Open(s.file)
  }

  function Run(s: LogState, events: seq<Event>): LogState
    decreases |events|
  {
    if events == [] then s else Run(Step(s, events[0]), events[1..])
  }

  /** The images that must survive: every completed append, in order, and an interrupted one only if all of it
      had reached the file. */
  function Survivors(events: seq<Event>): seq<Image> {
    if events == [] then [] else Surviving(events[0]) + Survivors(events[1..])
  }

  function Surviving(e: Event): seq<Image> {
    match e
    case Append(id, page) => [Image(id, page)]
    case CrashIn(id, page, left) => if left.Complete? then [Image(id, page)] else []
    case Reopen => []
  }

  ghost predicate LogInv(s: LogState) {
    s.file == Slots(s.records) && Increasing(s.records) && AllBelow(s.records, s.nextLsn)
  }

  lemma {:induction false} NextLsnAbove(records: seq<Record>)
    ensures AllBelow(records, NextLsn(records))
  {
    if records != [] {
      var n := |records| - 1;
      NextLsnAbove(records[..n]);
      assert records == records[..n] + [records[n]];
    }
  }

  lemma NextLsnGrows(records: seq<Record>, rec: Record)
    ensures NextLsn(records + [rec]) == if rec.lsn + 1 > NextLsn(records) then rec.lsn + 1 else NextLsn(records)
  {
    assert (records + [rec])[..|records|] == records;
  }

  /** The first `offset` slots hold `records`, and the rest of the file is still to be read. */
  ghost predicate Read(contents: seq<Slot>, offset: nat, records: seq<Record>) {
    && offset == |records| <= |contents| && contents[..offset] == Slots(records)
    && ValidPrefix(contents) == records + ValidPrefix(contents[offset..])
  }

  lemma NothingRead(contents: seq<Slot>)
    ensures Read(contents, 0, []) && NextLsn([]) == 0
  {
    assert contents[0..] == contents;
  }

  lemma OneMoreRead(contents: seq<Slot>, offset: nat, records: seq<Record>)
    requires Read(contents, offset, records) && offset < |contents| && contents[offset].Whole?
    ensures Read(contents, offset + 1, records + [contents[offset].rec])
  {
    assert contents[offset..][1..] == contents[offset + 1..];
    assert contents[..offset + 1] == contents[..offset] + [contents[offset]];
  }

  lemma AllRead(contents: seq<Slot>, offset: nat, records: seq<Record>)
    requires Read(contents, offset, records) && (offset < |contents| ==> contents[offset].Torn?)
    ensures ValidPrefix(contents) == records && contents[..offset] == Slots(records)
  {
  }

  lemma OpenKeeps(records: seq<Record>, tail: seq<Slot>)
    requires Increasing(records) && (tail == [] || tail[0].Torn?)
    ensures var s := Open(Slots(records) + tail); LogInv(s) && s.records == records
  {
    ValidPrefixOf(records, tail);
    NextLsnAbove(records);
  }

  lemma AppendKeeps(records: seq<Record>, lsn: nat, id: PageId, page: Page)
    requires Increasing(records) && AllBelow(records, lsn)
    ensures var now := records + [Record(lsn, id, page)];
            && Increasing(now) && AllBelow(now, lsn + 1)
            && Slots(now) == Slots(records) + [Whole(Record(lsn, id, page))]
            && Images(now) == Images(records) + [Image(id, page)]
  {
    assert forall i :: 0 <= i < |records| ==> records[i] in records;
  }

  lemma StepKeeps(s: LogState, e: Event)
    requires LogInv(s)
    ensures LogInv(Step(s, e))
    ensures Images(Step(s, e).records) == Images(s.records) + Surviving(e)
  {
    hide Increasing, AllBelow, ValidPrefix, NextLsn, Open, Slots, Images;
    assert Images(s.records) + [] == Images(s.records);
    assert s.file == Slots(s.records) + [];
    match e
    case Append(id, page) =>
      AppendKeeps(s.records, s.nextLsn, id, page);
    case CrashIn(id, page, left) =>
      match left {
        case Nothing =>
          OpenKeeps(s.records, []);
        case Partial =>
          OpenKeeps(s.records, [Torn]);
        case Complete =>
          AppendKeeps(s.records, s.nextLsn, id, page);
          var records := s.records + [Record(s.nextLsn, id, page)];
          assert Slots(records) + [] == Slots(records);
          OpenKeeps(records, []);
      }
    case Reopen =>
      OpenKeeps(s.records, []);
  }

  /** After any history the log holds exactly the surviving images, in order, under rising sequence numbers. */
  lemma {:induction false} HistorySurvives(s: LogState, events: seq<Event>)
    requires LogInv(s)
    ensures LogInv(Run(s, events))
    ensures Images(Run(s, events).records) == Images(s.records) + Survivors(events)
    decreases |events|
  {
    hide Step, Images, LogInv, Surviving;
    if events == [] {
      assert Images(s.records) + [] == Images(s.records);
    } else {
      StepKeeps(s, events[0]);
      HistorySurvives(Step(s, events[0]), events[1..]);
      var a, b, c := Images(s.records), Surviving(events[0]), Survivors(events[1..]);
      assert (a + b) + c == a + (b + c);
    }
  }

  /** Any history, from an empty file on: after it the open log holds exactly the surviving images. */
  method PlayHistory(events: seq<Event>) returns (w: WALManager)
    ensures fresh(w) && w.Valid() && Images(w.validRecords) == Survivors(events)
  {
    hide Open, Survivors, Images, Increasing, ValidPrefix;
    w := new WALManager([]);
    EmptyLog();
    HistorySurvives(w.State(), events);
    var i := 0;
    while i < |events|
      invariant i <= |events| && fresh(w) && w.Clean() && LogInv(w.State())
      invariant Run(w.State(), events[i..]) == Run(Open([]), events)
    {
      ghost var s := w.State();
      StepKeeps(s, events[i]);
      assert events[i..][1..] == events[i + 1..];
      match events[i] {
        case Append(id, page) =>
          var _ := w.AppendRecord(id, page);
        case CrashIn(id, page, left) =>
          w := new WALManager(LeftIn(w.file, Record(w.nextLsn, id, page), left));
        case Reopen =>
          w := new WALManager(w.file);
      }
      i := i + 1;
    }
    assert events[i..] == [];
  }

  lemma EmptyLog()
    ensures LogInv(Open([])) && Images(Open([]).records) == []
  {
  }
}
