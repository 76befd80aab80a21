/** `mlat_server.prune` (apps/mlat_server.py): drop payload entries by
    comparing each entry's newest stamp with `_lastreport`.  Three readings
    are modelled: the code as it stands (it raises, because a dict has no
    `remove`), the code with `remove` read as deletion (the comparison as
    written), and the policy its comment states (drop entries more than
    five seconds older than `_lastreport`). */
module Pruning {
  import opened Stamps
  import opened Wrappers
  import opened ReportIndex

  /** The `5` of the comparison, in seconds. */
  const StaleSeconds: real := 5.0

  /** `self._reports[report][-1]`: the newest stamp of a sorted list. */
  function Newest(s: seq<Stamp>): Stamp
    requires |s| > 0
  {
    s[|s| - 1]
  }

  /** The keys the comparison as written selects:
      newest time minus `_lastreport` above five seconds. */
  function AgedKeysAsWritten(reports: Reports, last: real): set<int>
    requires IndexValid(reports)
  {
    set d | d in reports && ToFloat(Newest(reports[d])) - last > StaleSeconds
  }

  /** The keys the comment means: newest time more than five seconds
      before `_lastreport`. */
  function StaleKeys(reports: Reports, last: real): set<int>
    requires IndexValid(reports)
  {
    set d | d in reports && last - ToFloat(Newest(reports[d])) > StaleSeconds
  }

  /** The index after `prune` with `remove` read as deleting the key:
      exactly the keys the written comparison selects are gone. */
  function Pruned(reports: Reports, last: real): (r: Reports)
    requires IndexValid(reports)
    ensures IndexValid(r)
    ensures forall d :: d in r <==> d in reports && ToFloat(Newest(reports[d])) - last <= StaleSeconds
    ensures forall d :: d in r ==> r[d] == reports[d]
  {
    reports - AgedKeysAsWritten(reports, last)
  }

  /** The exception the code raises. */
  datatype PruneError = AttributeError

  /** `prune` exactly as written: the first selected key reaches
      `self._reports.remove(report)`, which a dict does not have, so the
      call raises before anything is deleted. */
  function PruneAsWritten(reports: Reports, last: real): Result<Reports, PruneError>
    requires IndexValid(reports)
  {
    if AgedKeysAsWritten(reports, last) == {} then Success(reports) else Failure(AttributeError)
  }

  /** As written, `prune` never deletes anything: it either leaves the
      index as it was or raises, and it raises exactly when the deleting
      reading would have deleted something. */
  lemma PruneAsWrittenNeverDeletes(reports: Reports, last: real)
    requires IndexValid(reports)
    ensures PruneAsWritten(reports, last).Success? ==> PruneAsWritten(reports, last).value == reports
    ensures PruneAsWritten(reports, last).Failure? <==> Pruned(reports, last) != reports
  {
    var aged := AgedKeysAsWritten(reports, last);
    assert aged <= reports.Keys;
    assert Pruned(reports, last).Keys == reports.Keys - aged;
  }

  /** The index after pruning as the comment intends. */
  function PrunedStale(reports: Reports, last: real): (r: Reports)
    requires IndexValid(reports)
    ensures IndexValid(r)
    ensures forall d :: d in r ==> d in reports && r[d] == reports[d]
    ensures forall d :: d in r ==> last - ToFloat(Newest(r[d])) <= StaleSeconds
    ensures forall d :: d in reports && last - ToFloat(Newest(reports[d])) <= StaleSeconds ==> d in r
  {
    reports - StaleKeys(reports, last)
  }

  /** The written comparison has the opposite sign: an entry that is stale
      in the comment's sense is never selected, so it survives `prune`. */
  lemma AsWrittenKeepsStaleEntries(reports: Reports, last: real)
    requires IndexValid(reports)
    ensures forall d :: d in StaleKeys(reports, last) ==>
      d in Pruned(reports, last) && d !in PrunedStale(reports, last)
  {
  }

  /** An entry last heard 100 s before `_lastreport` is kept by the written
      comparison and dropped by the intended one; an entry 10 s newer than
      `_lastreport` is dropped by the written comparison and kept by the
      intended one. */
  lemma PruneSignExample()
    ensures var reports := map[7 := [Stamp("a", 0, 0.0)], 8 := [Stamp("b", 110, 0.0)]];
      && IndexValid(reports)
      && Pruned(reports, 100.0) == map[7 := [Stamp("a", 0, 0.0)]]
      && PrunedStale(reports, 100.0) == map[8 := [Stamp("b", 110, 0.0)]]
      && PruneAsWritten(reports, 100.0) == Failure(AttributeError)
  {
    var reports := map[7 := [Stamp("a", 0, 0.0)], 8 := [Stamp("b", 110, 0.0)]];
    assert AgedKeysAsWritten(reports, 100.0) == {8};
    assert StaleKeys(reports, 100.0) == {7};
  }

  /** The out-of-order batch alone makes `prune` raise: `_lastreport` ends
      10 s below the stored entry for payload 1, which the written
      comparison selects. */
  lemma OutOfOrderBatchMakesPruneRaise()
    ensures var r := IngestAll(map[], "a", OutOfOrderBatch());
      && IndexValid(r)
      && AgedKeysAsWritten(r, LastReportAfter(0.0, "a", OutOfOrderBatch())) == {1}
      && PruneAsWritten(r, LastReportAfter(0.0, "a", OutOfOrderBatch())) == Failure(AttributeError)
  {
    LastReportCanGoBack();
    var r := IngestAll(map[], "a", OutOfOrderBatch());
    assert 1 in AgedKeysAsWritten(r, 0.0);
  }
}
