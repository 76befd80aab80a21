/** The report index of `mlat_server` (apps/mlat_server.py): the dict
    `_reports` from payload to the sorted list of its stamps, and what
    ingesting decoded messages does to it and to `_lastreport`. */
module ReportIndex {
  import opened Stamps
  import opened Bisect

  /** A decoded report as a station sends it: payload, seconds and
      fractional seconds. */
  datatype Message = Message(data: int, secs: int, frac: real)

  type Reports = map<int, seq<Stamp>>

  /** Every stored list is non-empty and sorted. */
  predicate IndexValid(reports: Reports)
  {
    forall d :: d in reports ==> |reports[d]| > 0 && Sorted(reports[d])
  }

  /** The list stored for `d`, or the empty list a new key starts with. */
  function Get(reports: Reports, d: int): seq<Stamp>
  {
    if d in reports then reports[d] else []
  }

  /** The stamp built for a message from station `addr`. */
  function StampOf(addr: Station, m: Message): Stamp
  {
    Stamp(addr, m.secs, m.frac)
  }

  /** One step of the ingest loop: create the key if missing, then insert
      the stamp in order into its list. */
  function Ingest(reports: Reports, data: int, st: Stamp): (r: Reports)
    ensures r.Keys == reports.Keys + {data}
    ensures forall d :: d in reports && d != data ==> r[d] == reports[d]
    ensures multiset(r[data]) == multiset(Get(reports, data)) + multiset{st}
  {
    reports[data := OrderedInsert(Get(reports, data), st)]
  }

  /** Ingesting keeps every list non-empty and sorted. */
  lemma IngestValid(reports: Reports, data: int, st: Stamp)
    requires IndexValid(reports)
    ensures IndexValid(Ingest(reports, data, st))
  {
    OrderedInsertSorted(Get(reports, data), st);
  }

  /** The whole `for msg in msglist` loop over a batch from station `addr`. */
  function IngestAll(reports: Reports, addr: Station, msgs: seq<Message>): Reports
  {
    if msgs == [] then reports
    else
      var m := msgs[|msgs| - 1];
      Ingest(IngestAll(reports, addr, msgs[..|msgs| - 1]), m.data, StampOf(addr, m))
  }

  /** The stamps a batch adds under payload `d`, in batch order. */
  function StampsFor(addr: Station, msgs: seq<Message>, d: int): seq<Stamp>
  {
    if msgs == [] then []
    else
      var m := msgs[|msgs| - 1];
      StampsFor(addr, msgs[..|msgs| - 1], d) + (if m.data == d then [StampOf(addr, m)] else [])
  }

  /** `_lastreport` after a batch: the time of its last stamp, not the
      latest time seen; unchanged by an empty batch. */
  function LastReportAfter(last: real, addr: Station, msgs: seq<Message>): real
  {
    if msgs == [] then last else ToFloat(StampOf(addr, msgs[|msgs| - 1]))
  }

  /** A batch keeps every list non-empty and sorted. */
  lemma {:induction false} IngestAllValid(reports: Reports, addr: Station, msgs: seq<Message>)
    requires IndexValid(reports)
    ensures IndexValid(IngestAll(reports, addr, msgs))
  {
    if msgs != [] {
      var m := msgs[|msgs| - 1];
      IngestAllValid(reports, addr, msgs[..|msgs| - 1]);
      IngestValid(IngestAll(reports, addr, msgs[..|msgs| - 1]), m.data, StampOf(addr, m));
    }
  }

  /** No loss: after a batch, every payload's list holds what it held
      before plus exactly the batch's stamps for that payload. */
  lemma {:induction false} IngestAllNoLoss(reports: Reports, addr: Station, msgs: seq<Message>, d: int)
    ensures multiset(Get(IngestAll(reports, addr, msgs), d)) ==
      multiset(Get(reports, d)) + multiset(StampsFor(addr, msgs, d))
  {
    if msgs != [] {
      var m := msgs[|msgs| - 1];
      var init := msgs[..|msgs| - 1];
      var st := StampOf(addr, m);
      IngestAllNoLoss(reports, addr, init, d);
      var before := IngestAll(reports, addr, init);
      IngestStep(before, m.data, st, d);
      var added := if m.data == d then [st] else [];
      assert StampsFor(addr, msgs, d) == StampsFor(addr, init, d) + added;
      AddUp(Get(Ingest(before, m.data, st), d), Get(before, d), Get(reports, d), StampsFor(addr, init, d), added);
    }
  }

  /** Adding stamps in two steps adds their concatenation. */
  lemma AddUp(now: seq<Stamp>, mid: seq<Stamp>, start: seq<Stamp>, first: seq<Stamp>, second: seq<Stamp>)
    requires multiset(mid) == multiset(start) + multiset(first)
    requires multiset(now) == multiset(mid) + multiset(second)
    ensures multiset(now) == multiset(start) + multiset(first + second)
  {
  }

  /** A payload has a key after a batch exactly when it had one before or
      the batch mentions it. */
  lemma {:induction false} IngestAllKeys(reports: Reports, addr: Station, msgs: seq<Message>, d: int)
    ensures d in IngestAll(reports, addr, msgs) <==> d in reports || StampsFor(addr, msgs, d) != []
  {
    if msgs != [] {
      var m := msgs[|msgs| - 1];
      var init := msgs[..|msgs| - 1];
      var st := StampOf(addr, m);
      IngestAllKeys(reports, addr, init, d);
      IngestStep(IngestAll(reports, addr, init), m.data, st, d);
      assert StampsFor(addr, msgs, d) == StampsFor(addr, init, d) + (if m.data == d then [st] else []);
    }
  }

  /** One ingest, seen from payload `d`: its list gains `st` exactly when
      `d` is the ingested payload. */
  lemma IngestStep(reports: Reports, data: int, st: Stamp, d: int)
    ensures multiset(Get(Ingest(reports, data, st), d)) ==
      multiset(Get(reports, d)) + multiset(if data == d then [st] else [])
    ensures d in Ingest(reports, data, st) <==> d in reports || data == d
  {
    var after := Ingest(reports, data, st);
    if data != d && d in reports {
      assert after[d] == reports[d];
    }
  }

  /** A batch from one station whose second report is 10 s older than its
      first. */
  function OutOfOrderBatch(): seq<Message>
  {
    [Message(1, 10, 0.0), Message(2, 0, 0.0)]
  }

  /** A payload seen for the first time gets a list holding just its stamp. */
  lemma IngestNewKey(reports: Reports, data: int, st: Stamp)
    requires data !in reports
    ensures Ingest(reports, data, st) == reports[data := [st]]
  {
    assert InsertionPoint([], st) == 0;
    assert [] + [st] + [] == [st];
  }

  /** `_lastreport` is overwritten, not maximised: after the out-of-order
      batch, ingested into an empty index, it stands 10 s below the newest
      stamp the index holds. */
  lemma LastReportCanGoBack()
    ensures var r := IngestAll(map[], "a", OutOfOrderBatch());
      && IndexValid(r)
      && r == map[1 := [Stamp("a", 10, 0.0)], 2 := [Stamp("a", 0, 0.0)]]
      && LastReportAfter(0.0, "a", OutOfOrderBatch()) == 0.0
      && ToFloat(r[1][0]) - LastReportAfter(0.0, "a", OutOfOrderBatch()) == 10.0
  {
    var msgs := OutOfOrderBatch();
    var st1, st2 := Stamp("a", 10, 0.0), Stamp("a", 0, 0.0);
    var none: Reports := map[];
    assert msgs[..1][..0] == [];
    assert IngestAll(none, "a", msgs[..1]) == Ingest(none, 1, st1);
    IngestNewKey(none, 1, st1);
    var r1 := none[1 := [st1]];
    assert IngestAll(none, "a", msgs) == Ingest(r1, 2, st2);
    IngestNewKey(r1, 2, st2);
    IngestAllValid(none, "a", msgs);
  }
}
