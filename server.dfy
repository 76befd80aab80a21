/** The correlation state of `mlat_server` (apps/mlat_server.py): the
    payload index `_reports`, the aging clock `_lastreport`, and the
    operations that ingest decoded reports, scan for eligible groups and
    prune the index.  Sockets, the client handshake and decoding are not
    part of this model. */
module Server {
  import opened Stamps
  import opened Wrappers
  import opened Bisect
  import opened Windowing
  import opened ReportIndex
  import opened Pruning

  /** The candidate windows of every payload, visiting the keys in `order`
      (the dict's iteration order, which Python does not fix). */
  function AllCandidates(reports: Reports, order: seq<int>): seq<Group>
    requires forall k :: 0 <= k < |order| ==> order[k] in reports
  {
    if order == [] then []
    else
      var d := order[|order| - 1];
      AllCandidates(reports, order[..|order| - 1]) + PayloadCandidates(d, reports[d])
  }

  /** `order` lists every key of `keys` exactly once. */
  predicate Enumerates(order: seq<int>, keys: set<int>)
  {
    && (forall k :: 0 <= k < |order| ==> order[k] in keys)
    && (forall d :: d in keys ==> d in order)
    && (forall k, l :: 0 <= k < l < |order| ==> order[k] != order[l])
  }

  /** A set with no member is empty (set extensionality, stated so that
      the loops below can pick a member of a non-empty set). */
  lemma NoMemberMeansEmpty(s: set<int>)
    requires forall x :: x !in s
    ensures s == {}
  {
    assert forall x :: x in s <==> x in {};
  }

  /** A non-empty set of keys has a member to visit next. */
  lemma HasMember(s: set<int>)
    requires s != {}
    ensures exists x :: x in s
  {
    if forall x :: x !in s {
      NoMemberMeansEmpty(s);
      assert false;
    }
  }

  /** The keys of a dict in its iteration order, which Python does not
      fix: any order that lists each key once. */
  method KeysInSomeOrder(keys: set<int>) returns (order: seq<int>)
    ensures Enumerates(order, keys)
  {
    order := [];
    var todo := keys;
    while todo != {}
      invariant todo <= keys
      invariant forall k :: 0 <= k < |order| ==> order[k] in keys - todo
      invariant forall d :: d in keys - todo ==> d in order
      invariant forall k, l :: 0 <= k < l < |order| ==> order[k] != order[l]
      decreases |todo|
    {
      HasMember(todo);
      var d :| d in todo;
      order := order + [d];
      todo := todo - {d};
    }
  }

  /** Whatever the iteration order, a scan yields exactly the eligible
      windows of each payload, tagged with that payload's key. */
  lemma {:induction false} AllCandidatesMembers(reports: Reports, order: seq<int>)
    requires forall k :: 0 <= k < |order| ==> order[k] in reports
    ensures forall g :: g in AllCandidates(reports, order) <==>
      g.data in order && g in PayloadCandidates(g.data, reports[g.data])
  {
    if order != [] {
      var d := order[|order| - 1];
      var init := order[..|order| - 1];
      AllCandidatesMembers(reports, init);
      PayloadCandidatesMembers(d, reports[d]);
      assert order == init + [d];
      forall g | g in PayloadCandidates(d, reports[d])
        ensures g.data == d
      {
      }
    }
  }

  /** A scan finds nothing exactly when no payload has a window with more
      than two stations (and so `get_eligible_reports` returns `None`). */
  lemma NoCandidatesIffNoEligibleWindow(reports: Reports, order: seq<int>)
    requires Enumerates(order, reports.Keys)
    ensures AllCandidates(reports, order) == [] <==>
      forall d :: d in reports ==> PayloadCandidates(d, reports[d]) == []
  {
    AllCandidatesMembers(reports, order);
    if AllCandidates(reports, order) != [] {
      var g := AllCandidates(reports, order)[0];
      assert g in AllCandidates(reports, order);
    }
    forall d | d in reports && PayloadCandidates(d, reports[d]) != []
      ensures AllCandidates(reports, order) != []
    {
      var g := PayloadCandidates(d, reports[d])[0];
      assert g in PayloadCandidates(d, reports[d]);
      PayloadCandidatesMembers(d, reports[d]);
      assert g in AllCandidates(reports, order);
    }
  }

  /** Every group a whole scan returns belongs to a stored payload, has
      more than two stamps, all from distinct stations and all stored
      under that payload. */
  lemma {:induction false} EligibleReportsAreGroups(reports: Reports, order: seq<int>, gs: seq<Group>)
    requires Enumerates(order, reports.Keys)
    requires Deduplicates(gs, AllCandidates(reports, order))
    ensures forall k :: 0 <= k < |gs| ==>
      && gs[k].data in reports
      && |gs[k].stamps| > 2
      && DistinctStations(gs[k].stamps)
      && (forall x :: x in gs[k].stamps ==> x in reports[gs[k].data])
    ensures IndexValid(reports) && (forall d :: d in reports ==> AllWellFormed(reports[d])) ==>
      forall k, x, y :: 0 <= k < |gs| && x in gs[k].stamps && y in gs[k].stamps ==>
        ToFloat(x) - ToFloat(y) < WindowSeconds
  {
    var cs := AllCandidates(reports, order);
    AllCandidatesMembers(reports, order);
    if IndexValid(reports) && (forall d :: d in reports ==> AllWellFormed(reports[d])) {
      EligibleReportsWithinWidth(reports, order, gs);
    }
    forall k | 0 <= k < |gs|
      ensures gs[k].data in reports && |gs[k].stamps| > 2
      ensures forall x :: x in gs[k].stamps ==> x in reports[gs[k].data]
    {
      assert cs[k] in cs;
      var d := cs[k].data;
      var s := reports[d];
      PayloadCandidatesMembers(d, s);
      WindowMembers(s, 0);
      DistinctStationsCount(gs[k].stamps);
      forall x | x in gs[k].stamps
        ensures x in s
      {
        var m :| 0 <= m < |gs[k].stamps| && gs[k].stamps[m] == x;
        assert IsLatest(cs[k].stamps, x);
        var i :| 0 <= i < |Windows(s)| && Windows(s)[i] == cs[k].stamps;
      }
    }
  }

  /** On a valid index of well-formed stamps, the stamps of any group of a
      whole scan lie less than one window width apart. */
  lemma EligibleReportsWithinWidth(reports: Reports, order: seq<int>, gs: seq<Group>)
    requires Enumerates(order, reports.Keys)
    requires Deduplicates(gs, AllCandidates(reports, order))
    requires IndexValid(reports) && forall d :: d in reports ==> AllWellFormed(reports[d])
    ensures forall k, x, y :: 0 <= k < |gs| && x in gs[k].stamps && y in gs[k].stamps ==>
      ToFloat(x) - ToFloat(y) < WindowSeconds
  {
    var cs := AllCandidates(reports, order);
    AllCandidatesMembers(reports, order);
    forall k, x, y | 0 <= k < |gs| && x in gs[k].stamps && y in gs[k].stamps
      ensures ToFloat(x) - ToFloat(y) < WindowSeconds
    {
      assert cs[k] in cs;
      var d := cs[k].data;
      var s := reports[d];
      var w := cs[k].stamps;
      PayloadCandidatesMembers(d, s);
      WindowsWithinWidth(s, 0);
      var mx :| 0 <= mx < |gs[k].stamps| && gs[k].stamps[mx] == x;
      var my :| 0 <= my < |gs[k].stamps| && gs[k].stamps[my] == y;
      assert IsLatest(w, x) && IsLatest(w, y);
      assert w[LastIndex(w, x.addr)] in w && w[LastIndex(w, y.addr)] in w;
      var i :| 0 <= i < |Windows(s)| && Windows(s)[i] == w;
    }
  }

  /** What a whole scan's result means, whatever the iteration order: it is
      empty exactly when no payload has an eligible window, and each of its
      groups is a proper group of a stored payload. */
  lemma ScanOutcome(reports: Reports, order: seq<int>, gs: seq<Group>)
    requires Enumerates(order, reports.Keys)
    requires Deduplicates(gs, AllCandidates(reports, order))
    ensures |gs| == 0 <==> AllCandidates(reports, order) == []
    ensures |gs| == 0 <==> forall d :: d in reports ==> PayloadCandidates(d, reports[d]) == []
    ensures forall g :: g in gs ==> g.data in reports && |g.stamps| > 2 && DistinctStations(g.stamps)
    ensures IndexValid(reports) && (forall d :: d in reports ==> AllWellFormed(reports[d])) ==>
      forall g, x, y :: g in gs && x in g.stamps && y in g.stamps ==> ToFloat(x) - ToFloat(y) < WindowSeconds
  {
    NoCandidatesIffNoEligibleWindow(reports, order);
    EligibleReportsAreGroups(reports, order, gs);
    forall g | g in gs
      ensures g.data in reports && |g.stamps| > 2 && DistinctStations(g.stamps)
      ensures IndexValid(reports) && (forall d :: d in reports ==> AllWellFormed(reports[d])) ==>
        forall x, y :: x in g.stamps && y in g.stamps ==> ToFloat(x) - ToFloat(y) < WindowSeconds
    {
      var k :| 0 <= k < |gs| && gs[k] == g;
    }
  }

  class MlatServer {
    /** `_reports`: payload to its stamps, each list sorted. */
    var reports: Reports
    /** `_lastreport`: the time of the stamp ingested last. */
    var lastReport: real

    ghost predicate Valid()
      reads this
    {
      IndexValid(reports)
    }

    /** The correlation state `__init__` sets up. */
    constructor ()
      ensures Valid()
      ensures reports == map[] && lastReport == 0.0
    {
      reports := map[];
      lastReport := 0.0;
    }

    /** One pass of the ingest loop of `get_messages`: build the stamp,
        create the payload's list if missing, insert in order, and
        overwrite `_lastreport`. */
    method InsertReport(data: int, addr: Station, secs: int, frac: real)
      requires Valid()
      modifies this
      ensures Valid()
      ensures reports == Ingest(old(reports), data, Stamp(addr, secs, frac))
      ensures reports[data] == OrderedInsert(Get(old(reports), data), Stamp(addr, secs, frac))
      ensures data !in old(reports) ==> reports[data] == [Stamp(addr, secs, frac)]
      ensures lastReport == ToFloat(Stamp(addr, secs, frac))
    {
      var st := Stamp(addr, secs, frac);
      if data !in reports {
        reports := reports[data := []];
      }
      var a := reports[data];
      assert a == Get(old(reports), data);
      var p := BisectRight(a, st);
      reports := reports[data := a[..p] + [st] + a[p..]];
      lastReport := ToFloat(st);
      IngestValid(old(reports), data, st);
    }

    /** The `for msg in msglist` loop over one decoded batch from station
        `addr`. */
    method IngestBatch(addr: Station, msgs: seq<Message>)
      requires Valid()
      modifies this
      ensures Valid()
      ensures reports == IngestAll(old(reports), addr, msgs)
      ensures lastReport == LastReportAfter(old(lastReport), addr, msgs)
    {
      for i := 0 to |msgs|
        invariant Valid()
        invariant reports == IngestAll(old(reports), addr, msgs[..i])
        invariant lastReport == LastReportAfter(old(lastReport), addr, msgs[..i])
      {
        var msg := msgs[i];
        InsertReport(msg.data, addr, msg.secs, msg.frac);
        assert msgs[..i + 1][..i] == msgs[..i];
      }
      assert msgs[..|msgs|] == msgs;
    }

    /** `get_eligible_reports`: scan every payload (in the dict's iteration
        order, returned as `order`) and return the groups found, or `None`
        when there are none.  The state is left unchanged. */
    method GetEligibleReports() returns (result: Option<seq<Group>>, ghost order: seq<int>)
      ensures Enumerates(order, reports.Keys)
      ensures result.None? <==> forall d :: d in reports ==> PayloadCandidates(d, reports[d]) == []
      ensures result.Some? ==> |result.value| > 0
      ensures result.Some? ==> forall g :: g in result.value ==>
        g.data in reports && |g.stamps| > 2 && DistinctStations(g.stamps)
      ensures result.Some? && IndexValid(reports) && (forall d :: d in reports ==> AllWellFormed(reports[d])) ==>
        forall g, x, y :: g in result.value && x in g.stamps && y in g.stamps ==> ToFloat(x) - ToFloat(y) < WindowSeconds
      ensures result.None? <==> AllCandidates(reports, order) == []
      ensures result.Some? ==> Deduplicates(result.value, AllCandidates(reports, order))
    {
      var index := reports;
      var groups: seq<Group> := [];
      var keys := KeysInSomeOrder(index.Keys);
      order := keys;
      for i := 0 to |keys|
        invariant Deduplicates(groups, AllCandidates(index, keys[..i]))
      {
        var data := keys[i];
        var gs := ScanPayload(data, index[data]);
        DeduplicatesAppend(groups, AllCandidates(index, keys[..i]), gs, PayloadCandidates(data, index[data]));
        groups := groups + gs;
        assert keys[..i + 1][..i] == keys[..i];
      }
      assert keys[..|keys|] == keys;
      ScanOutcome(index, keys, groups);
      if |groups| > 0 {
        result := Some(groups);
      } else {
        result := None;
      }
    }

    /** `prune` with `self._reports.remove(report)` read as deleting the
        key, over a snapshot of the keys: removes exactly the entries whose
        newest time exceeds `_lastreport` by more than five seconds (the
        comparison as written). */
    method Prune()
      requires Valid()
      modifies this
      ensures Valid()
      ensures reports == Pruned(old(reports), lastReport)
      ensures lastReport == old(lastReport)
    {
      var todo := reports.Keys;
      while todo != {}
        invariant todo <= old(reports).Keys
        invariant lastReport == old(lastReport)
        invariant reports == old(reports) - (AgedKeysAsWritten(old(reports), lastReport) - todo)
        decreases |todo|
      {
        HasMember(todo);
        var report :| report in todo;
        if ToFloat(Newest(reports[report])) - lastReport > StaleSeconds {
          reports := reports - {report};
        }
        todo := todo - {report};
      }
    }

    /** `prune` as its comment intends: removes exactly the entries whose
        newest time is more than five seconds before `_lastreport`. */
    method PruneStale()
      requires Valid()
      modifies this
      ensures Valid()
      ensures reports == PrunedStale(old(reports), lastReport)
      ensures lastReport == old(lastReport)
    {
      var todo := reports.Keys;
      while todo != {}
        invariant todo <= old(reports).Keys
        invariant lastReport == old(lastReport)
        invariant reports == old(reports) - (StaleKeys(old(reports), lastReport) - todo)
        decreases |todo|
      {
        HasMember(todo);
        var report :| report in todo;
        if lastReport - ToFloat(Newest(reports[report])) > StaleSeconds {
          reports := reports - {report};
        }
        todo := todo - {report};
      }
    }
  }
}
