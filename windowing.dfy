/** The per-payload part of `mlat_server.get_eligible_reports`
    (apps/mlat_server.py): cut a payload's sorted stamp list into 1 ms
    windows, keep the latest stamp of each station in a window, and emit
    the window as a group when more than two stations remain. */
module Windowing {
  import opened Stamps

  /** Width of a window in seconds (the `0.001` of the inner loop). */
  const WindowSeconds: real := 0.001

  /** The distinct stations that reported stamps in `s`. */
  function Stations(s: seq<Stamp>): set<Station>
  {
    set st | st in s :: st.addr
  }

  lemma StationsOfSlice(s: seq<Stamp>, i: int, j: int)
    requires 0 <= i <= j <= |s|
    ensures Stations(s[i..j]) <= Stations(s)
  {
    forall a | a in Stations(s[i..j])
      ensures a in Stations(s)
    {
      var st :| st in s[i..j] && st.addr == a;
      assert st in s;
    }
  }

  // ---------------------------------------------------------------------
  // Windows

  /** The end of the run of stamps from `i` on whose time is below
      `ref + WindowSeconds`: the inner `while` stops at the first stamp that
      fails the test, or at the end of the list. */
  function RunEnd(s: seq<Stamp>, i: nat, ref: real): (j: nat)
    requires i <= |s|
    ensures i <= j <= |s|
    ensures forall k :: i <= k < j ==> ToFloat(s[k]) < ref + WindowSeconds
    ensures j < |s| ==> ToFloat(s[j]) >= ref + WindowSeconds
    decreases |s| - i
  {
    if i < |s| && ToFloat(s[i]) < ref + WindowSeconds then RunEnd(s, i + 1, ref) else i
  }

  /** The windows of `s[i..]`: each is anchored at its first stamp and holds
      the run that starts there; the next window starts where it ends. */
  function WindowsFrom(s: seq<Stamp>, i: nat): seq<seq<Stamp>>
    requires i <= |s|
    decreases |s| - i
  {
    if i == |s| then []
    else
      var j := RunEnd(s, i, ToFloat(s[i]));
      [s[i..j]] + WindowsFrom(s, j)
  }

  function Windows(s: seq<Stamp>): seq<seq<Stamp>>
  {
    WindowsFrom(s, 0)
  }

  function Flatten(ws: seq<seq<Stamp>>): seq<Stamp>
  {
    if ws == [] then [] else ws[0] + Flatten(ws[1..])
  }

  /** The windows are non-empty, each starts at the first stamp not yet
      consumed, holds exactly the run of stamps below that stamp's time plus
      one window width, and together they cover the list exactly once, in
      order. */
  lemma {:induction false} WindowsPartition(s: seq<Stamp>, i: nat)
    requires i <= |s|
    ensures Flatten(WindowsFrom(s, i)) == s[i..]
    ensures forall k :: 0 <= k < |WindowsFrom(s, i)| ==> |WindowsFrom(s, i)[k]| > 0
    ensures forall k, x :: 0 <= k < |WindowsFrom(s, i)| && x in WindowsFrom(s, i)[k] ==>
      ToFloat(x) < ToFloat(WindowsFrom(s, i)[k][0]) + WindowSeconds
    ensures forall k :: 0 <= k < |WindowsFrom(s, i)| - 1 ==>
      ToFloat(WindowsFrom(s, i)[k + 1][0]) >= ToFloat(WindowsFrom(s, i)[k][0]) + WindowSeconds
    decreases |s| - i
  {
    if i < |s| {
      var j := RunEnd(s, i, ToFloat(s[i]));
      var ws := WindowsFrom(s, i);
      var rest := WindowsFrom(s, j);
      WindowsPartition(s, j);
      assert ws == [s[i..j]] + rest;
      assert ws[1..] == rest;
      assert s[i..] == s[i..j] + s[j..];
      forall x | x in s[i..j]
        ensures ToFloat(x) < ToFloat(s[i]) + WindowSeconds
      {
        var k :| 0 <= k < j - i && s[i..j][k] == x;
        assert s[i + k] == x;
      }
      if rest != [] {
        assert rest[0][0] == s[j];
      }
    }
  }

  /** On a sorted list of well-formed stamps a window holds every remaining
      stamp below its anchor's time plus the width, and every stamp of the
      window lies in [anchor, anchor + width). */
  lemma {:induction false} WindowsAreTimeRanges(s: seq<Stamp>, i: nat)
    requires Sorted(s) && AllWellFormed(s)
    requires i < |s|
    ensures var j := RunEnd(s, i, ToFloat(s[i]));
      && (forall k :: i <= k < j ==> ToFloat(s[i]) <= ToFloat(s[k]) < ToFloat(s[i]) + WindowSeconds)
      && (forall k :: j <= k < |s| ==> ToFloat(s[k]) >= ToFloat(s[i]) + WindowSeconds)
  {
    var j := RunEnd(s, i, ToFloat(s[i]));
    forall k | i <= k < |s|
      ensures ToFloat(s[i]) <= ToFloat(s[k])
      ensures j <= k ==> ToFloat(s[k]) >= ToFloat(s[i]) + WindowSeconds
    {
      SortedTimesNondecreasing(s, i, k);
      if j <= k {
        SortedTimesNondecreasing(s, j, k);
      }
    }
  }

  // ---------------------------------------------------------------------
  // Keeping one stamp per station

  /** The index of the last stamp of station `a` in `w`, -1 if it has none:
      what the backward scan `for st in reps[::-1]` finds first. */
  function LastIndex(w: seq<Stamp>, a: Station): (r: int)
    ensures -1 <= r < |w|
    ensures r >= 0 ==> w[r].addr == a
    ensures forall m :: r < m < |w| ==> w[m].addr != a
  {
    if |w| == 0 then -1
    else if w[|w| - 1].addr == a then |w| - 1
    else LastIndex(w[..|w| - 1], a)
  }

  /** `x` is the latest stamp of its station in `w`. */
  predicate IsLatest(w: seq<Stamp>, x: Stamp)
  {
    var r := LastIndex(w, x.addr);
    0 <= r && w[r] == x
  }

  predicate DistinctStations(d: seq<Stamp>)
  {
    forall k, l :: 0 <= k < l < |d| ==> d[k].addr != d[l].addr
  }

  /** `d` is a deduplication of window `w`: one stamp per station of `w`,
      each the latest of its station in `w`. */
  predicate DedupOf(d: seq<Stamp>, w: seq<Stamp>)
  {
    && DistinctStations(d)
    && Stations(d) == Stations(w)
    && forall k :: 0 <= k < |d| ==> IsLatest(w, d[k])
  }

  /** A list with distinct stations has exactly as many elements as stations. */
  lemma {:induction false} DistinctStationsCount(d: seq<Stamp>)
    requires DistinctStations(d)
    ensures |d| == |Stations(d)|
  {
    if d != [] {
      var t := d[..|d| - 1];
      var x := d[|d| - 1];
      assert d == t + [x];
      assert DistinctStations(t) by {
        forall k, l | 0 <= k < l < |t|
          ensures t[k].addr != t[l].addr
        {
          assert t[k] == d[k] && t[l] == d[l];
        }
      }
      DistinctStationsCount(t);
      StationsAppend(t, x);
      forall m | 0 <= m < |t|
        ensures t[m].addr != x.addr
      {
        assert t[m] == d[m];
      }
      LastIndexUnique(t, x.addr, -1);
      LastIndexFinds(t, x.addr);
    }
  }

  /** Deduplication fixes the members of a group up to their order. */
  lemma DedupDeterminesMembers(d1: seq<Stamp>, d2: seq<Stamp>, w: seq<Stamp>)
    requires DedupOf(d1, w) && DedupOf(d2, w)
    ensures (set x | x in d1) == (set x | x in d2)
    ensures |d1| == |d2| == |Stations(w)|
  {
    DistinctStationsCount(d1);
    DistinctStationsCount(d2);
    forall x | x in d1
      ensures x in d2
    {
      assert x.addr in Stations(d2);
      var y :| y in d2 && y.addr == x.addr;
    }
    forall y | y in d2
      ensures y in d1
    {
      assert y.addr in Stations(d1);
      var x :| x in d1 && x.addr == y.addr;
    }
  }

  /** A scan that stops at `r` from the right end meets the last stamp of `a`. */
  lemma LastIndexUnique(w: seq<Stamp>, a: Station, r: int)
    requires -1 <= r < |w|
    requires r >= 0 ==> w[r].addr == a
    requires forall m :: r < m < |w| ==> w[m].addr != a
    ensures LastIndex(w, a) == r
  {
  }

  lemma StationsAppend(d: seq<Stamp>, x: Stamp)
    ensures Stations(d + [x]) == Stations(d) + {x.addr}
  {
    assert x in d + [x];
    forall st | st in d + [x]
      ensures st in d || st == x
    {
    }
  }

  /** `a` is a station of `w` exactly when a backward scan finds it. */
  lemma LastIndexFinds(w: seq<Stamp>, a: Station)
    ensures LastIndex(w, a) >= 0 <==> a in Stations(w)
  {
    var r := LastIndex(w, a);
    if r >= 0 {
      assert w[r] in w;
    } else {
      forall st | st in w
        ensures st.addr != a
      {
        var m :| 0 <= m < |w| && w[m] == st;
      }
    }
  }

  /** The inner loop `for st in reps[::-1]`: the index of the first stamp of
      station `addr` met scanning from the end, or -1. */
  method ScanBack(reps: seq<Stamp>, addr: Station) returns (r: int)
    ensures r == LastIndex(reps, addr)
  {
    var j := |reps|;
    while j > 0
      invariant 0 <= j <= |reps|
      invariant forall m :: j <= m < |reps| ==> reps[m].addr != addr
    {
      j := j - 1;
      if reps[j].addr == addr {
        LastIndexUnique(reps, addr, j);
        return j;
      }
    }
    LastIndexUnique(reps, addr, -1);
    return -1;
  }

  /** One pass of the dedup loop keeps its invariant. */
  lemma DedupStep(reps: seq<Stamp>, stations: set<Station>, todo: set<Station>, deduped: seq<Stamp>, addr: Station)
    requires addr in todo && todo <= stations
    requires DistinctStations(deduped)
    requires Stations(deduped) == (stations - todo) * Stations(reps)
    requires forall k :: 0 <= k < |deduped| ==> IsLatest(reps, deduped[k])
    ensures var r := LastIndex(reps, addr);
      var next := if r >= 0 then deduped + [reps[r]] else deduped;
      && DistinctStations(next)
      && Stations(next) == (stations - (todo - {addr})) * Stations(reps)
      && forall k :: 0 <= k < |next| ==> IsLatest(reps, next[k])
  {
    var r := LastIndex(reps, addr);
    LastIndexFinds(reps, addr);
    if r >= 0 {
      StationsAppend(deduped, reps[r]);
      var next := deduped + [reps[r]];
      assert IsLatest(reps, reps[r]);
      forall k | 0 <= k < |next|
        ensures IsLatest(reps, next[k])
      {
        if k < |deduped| {
          assert next[k] == deduped[k];
        }
      }
    }
  }

  /** The dedup loop: for each station of the payload, scan the window from
      its end and keep the first stamp of that station found. */
  method Dedup(reps: seq<Stamp>, stations: set<Station>) returns (deduped: seq<Stamp>)
    ensures DistinctStations(deduped)
    ensures Stations(deduped) == stations * Stations(reps)
    ensures forall k :: 0 <= k < |deduped| ==> IsLatest(reps, deduped[k])
  {
    deduped := [];
    var todo := stations;
    while todo != {}
      invariant todo <= stations
      invariant DistinctStations(deduped)
      invariant Stations(deduped) == (stations - todo) * Stations(reps)
      invariant forall k :: 0 <= k < |deduped| ==> IsLatest(reps, deduped[k])
      decreases |todo|
    {
      var addr :| addr in todo;
      var r := ScanBack(reps, addr);
      DedupStep(reps, stations, todo, deduped, addr);
      if r >= 0 {
        deduped := deduped + [reps[r]];
      }
      todo := todo - {addr};
    }
  }

  // ---------------------------------------------------------------------
  // Groups

  /** A group handed to the solver: `{"data": data, "stamps": deduped}`. */
  datatype Group = Group(data: int, stamps: seq<Stamp>)

  /** The windows of payload `data` that hold more than two stations, as
      groups whose stamps are still the whole window. */
  function Eligible(data: int, ws: seq<seq<Stamp>>): seq<Group>
  {
    if ws == [] then []
    else (if |Stations(ws[0])| > 2 then [Group(data, ws[0])] else []) + Eligible(data, ws[1..])
  }

  lemma {:induction false} EligibleAppend(data: int, a: seq<seq<Stamp>>, b: seq<seq<Stamp>>)
    ensures Eligible(data, a + b) == Eligible(data, a) + Eligible(data, b)
  {
    if a != [] {
      assert (a + b)[0] == a[0];
      assert (a + b)[1..] == a[1..] + b;
      EligibleAppend(data, a[1..], b);
    } else {
      assert a + b == b;
    }
  }

  /** The windows a scan of payload `data` turns into groups, after the
      quick checks on the number of stamps and of stations. */
  function PayloadCandidates(data: int, s: seq<Stamp>): seq<Group>
  {
    if |s| > 2 && |Stations(s)| > 2 then Eligible(data, Windows(s)) else []
  }

  /** A list has no more stations than stamps. */
  lemma {:induction false} StationsCount(s: seq<Stamp>)
    ensures |Stations(s)| <= |s|
  {
    if s != [] {
      var t := s[..|s| - 1];
      StationsCount(t);
      assert s == t + [s[|s| - 1]];
      StationsAppend(t, s[|s| - 1]);
    }
  }

  /** Every stamp of every window is a stamp of the list. */
  lemma {:induction false} WindowMembers(s: seq<Stamp>, i: nat)
    requires i <= |s|
    ensures forall k, x :: 0 <= k < |WindowsFrom(s, i)| && x in WindowsFrom(s, i)[k] ==> x in s
    decreases |s| - i
  {
    if i < |s| {
      var j := RunEnd(s, i, ToFloat(s[i]));
      WindowMembers(s, j);
      assert WindowsFrom(s, i) == [s[i..j]] + WindowsFrom(s, j);
      forall x | x in s[i..j]
        ensures x in s
      {
        var m :| 0 <= m < j - i && s[i..j][m] == x;
        assert s[i + m] == x;
      }
    }
  }

  /** A window never has more stations than its payload. */
  lemma WindowStations(s: seq<Stamp>)
    ensures forall k :: 0 <= k < |Windows(s)| ==> Stations(Windows(s)[k]) <= Stations(s)
  {
    WindowMembers(s, 0);
    forall k, a | 0 <= k < |Windows(s)| && a in Stations(Windows(s)[k])
      ensures a in Stations(s)
    {
      var st :| st in Windows(s)[k] && st.addr == a;
      assert st in s;
    }
  }

  /** Windows drawn from at most two stations never become groups. */
  lemma {:induction false} EligibleNeedsThreeStations(data: int, ws: seq<seq<Stamp>>, bound: set<Station>)
    requires |bound| <= 2
    requires forall k :: 0 <= k < |ws| ==> Stations(ws[k]) <= bound
    ensures Eligible(data, ws) == []
  {
    if ws != [] {
      assert Stations(ws[0]) <= bound;
      SubsetCardinality(Stations(ws[0]), bound);
      EligibleNeedsThreeStations(data, ws[1..], bound);
    }
  }

  lemma SubsetCardinality<T>(a: set<T>, b: set<T>)
    requires a <= b
    ensures |a| <= |b|
  {
    assert b == a + (b - a);
  }

  /** The quick checks on the number of stamps and of stations only save
      work: without them the windows would yield no group either. So no
      payload with two or fewer stamps, or two or fewer stations, ever
      yields a group. */
  lemma QuickRejectSound(data: int, s: seq<Stamp>)
    ensures PayloadCandidates(data, s) == Eligible(data, Windows(s))
    ensures |s| <= 2 || |Stations(s)| <= 2 ==> PayloadCandidates(data, s) == []
  {
    if |s| <= 2 || |Stations(s)| <= 2 {
      StationsCount(s);
      WindowStations(s);
      EligibleNeedsThreeStations(data, Windows(s), Stations(s));
    }
  }

  /** A group comes out of `Eligible` exactly when it is one of the windows,
      tagged with the payload, and that window holds more than two stations. */
  lemma {:induction false} EligibleMembers(data: int, ws: seq<seq<Stamp>>)
    ensures forall g :: g in Eligible(data, ws) <==> g.data == data && g.stamps in ws && |Stations(g.stamps)| > 2
  {
    if ws != [] {
      EligibleMembers(data, ws[1..]);
      assert ws == [ws[0]] + ws[1..];
    }
  }

  /** The candidate groups of a payload are exactly its windows with more
      than two stations, each tagged with the payload's key. */
  lemma PayloadCandidatesMembers(data: int, s: seq<Stamp>)
    ensures forall g :: g in PayloadCandidates(data, s) <==>
      g.data == data && g.stamps in Windows(s) && |Stations(g.stamps)| > 2
  {
    QuickRejectSound(data, s);
    EligibleMembers(data, Windows(s));
  }

  /** `gs` is `cs` with every window deduplicated to one stamp per station. */
  predicate Deduplicates(gs: seq<Group>, cs: seq<Group>)
  {
    && |gs| == |cs|
    && forall k :: 0 <= k < |gs| ==> gs[k].data == cs[k].data && DedupOf(gs[k].stamps, cs[k].stamps)
  }

  lemma DeduplicatesAppend(g1: seq<Group>, c1: seq<Group>, g2: seq<Group>, c2: seq<Group>)
    requires Deduplicates(g1, c1) && Deduplicates(g2, c2)
    ensures Deduplicates(g1 + g2, c1 + c2)
  {
    forall k | 0 <= k < |g1 + g2|
      ensures (g1 + g2)[k].data == (c1 + c2)[k].data
      ensures DedupOf((g1 + g2)[k].stamps, (c1 + c2)[k].stamps)
    {
      if k >= |g1| {
        assert (g1 + g2)[k] == g2[k - |g1|] && (c1 + c2)[k] == c2[k - |c1|];
      }
    }
  }

  /** The inner `while` of the scan: collect the run of stamps from `i` on
      that lie below `stamps[i]`'s time plus one window width. */
  method TakeWindow(stamps: seq<Stamp>, i: nat) returns (reps: seq<Stamp>, next: nat)
    requires i < |stamps|
    ensures next == RunEnd(stamps, i, ToFloat(stamps[i]))
    ensures i < next && reps == stamps[i..next]
  {
    var refstamp := ToFloat(stamps[i]);
    reps := [];
    next := i;
    while next < |stamps| && ToFloat(stamps[next]) < refstamp + WindowSeconds
      invariant i <= next <= |stamps|
      invariant reps == stamps[i..next]
      invariant RunEnd(stamps, next, refstamp) == RunEnd(stamps, i, refstamp)
      decreases |stamps| - next
    {
      reps := reps + [stamps[next]];
      next := next + 1;
    }
  }

  /** Consuming the window at `start` moves it from the windows still to
      come to the windows done. */
  lemma WindowStep(s: seq<Stamp>, done: seq<seq<Stamp>>, start: nat, next: nat)
    requires start < |s| && next == RunEnd(s, start, ToFloat(s[start]))
    requires done + WindowsFrom(s, start) == Windows(s)
    ensures (done + [s[start..next]]) + WindowsFrom(s, next) == Windows(s)
  {
    assert WindowsFrom(s, start) == [s[start..next]] + WindowsFrom(s, next);
  }

  /** One pass of the outer loop keeps the groups emitted so far in step
      with the windows consumed so far. */
  lemma EmitStep(data: int, gs: seq<Group>, done: seq<seq<Stamp>>, reps: seq<Stamp>, deduped: seq<Stamp>)
    requires Deduplicates(gs, Eligible(data, done))
    requires DedupOf(deduped, reps)
    ensures Deduplicates(gs + (if |deduped| > 2 then [Group(data, deduped)] else []),
                         Eligible(data, done + [reps]))
  {
    DistinctStationsCount(deduped);
    EligibleAppend(data, done, [reps]);
    var found := if |Stations(reps)| > 2 then [Group(data, reps)] else [];
    assert Eligible(data, [reps]) == found by {
      assert [reps][1..] == [];
    }
    DeduplicatesAppend(gs, Eligible(data, done), if |deduped| > 2 then [Group(data, deduped)] else [], found);
  }

  /** The scan of one payload: the nested `while` loops over the sorted
      list, the dedup loop, and the `len(deduped) > 2` test. */
  method ScanPayload(data: int, stamps: seq<Stamp>) returns (gs: seq<Group>)
    ensures Deduplicates(gs, PayloadCandidates(data, stamps))
  {
    gs := [];
    if |stamps| > 2 {
      var stations := Stations(stamps);
      if |stations| > 2 {
        var i := 0;
        ghost var done: seq<seq<Stamp>> := [];
        while i < |stamps|
          invariant 0 <= i <= |stamps|
          invariant done + WindowsFrom(stamps, i) == Windows(stamps)
          invariant Deduplicates(gs, Eligible(data, done))
          decreases |stamps| - i
        {
          ghost var start := i;
          var reps;
          reps, i := TakeWindow(stamps, i);
          WindowStep(stamps, done, start, i);
          var deduped := Dedup(reps, stations);
          StationsOfSlice(stamps, start, i);
          EmitStep(data, gs, done, reps, deduped);
          if |deduped| > 2 {
            gs := gs + [Group(data, deduped)];
          }
          done := done + [reps];
        }
        assert done == Windows(stamps);
      }
    }
  }

  /** On a sorted list of well-formed stamps any two stamps of one window
      are less than one window width apart. */
  lemma {:induction false} WindowsWithinWidth(s: seq<Stamp>, i: nat)
    requires Sorted(s) && AllWellFormed(s)
    requires i <= |s|
    ensures forall k, x, y :: 0 <= k < |WindowsFrom(s, i)| && x in WindowsFrom(s, i)[k] && y in WindowsFrom(s, i)[k] ==>
      ToFloat(x) - ToFloat(y) < WindowSeconds
    decreases |s| - i
  {
    if i < |s| {
      var j := RunEnd(s, i, ToFloat(s[i]));
      WindowsWithinWidth(s, j);
      WindowsAreTimeRanges(s, i);
      assert WindowsFrom(s, i) == [s[i..j]] + WindowsFrom(s, j);
      forall x | x in s[i..j]
        ensures ToFloat(s[i]) <= ToFloat(x) < ToFloat(s[i]) + WindowSeconds
      {
        var m :| 0 <= m < j - i && s[i..j][m] == x;
        assert s[i + m] == x;
      }
    }
  }

  /** What a scan of one payload hands to the solver: every group carries
      the payload's key and more than two stamps, all from distinct
      stations and all stored under that payload; on a sorted list of
      well-formed stamps they also lie within one window width of each
      other. */
  lemma ScannedGroupsAreEligible(data: int, s: seq<Stamp>, gs: seq<Group>)
    requires Deduplicates(gs, PayloadCandidates(data, s))
    ensures forall k :: 0 <= k < |gs| ==>
      && gs[k].data == data
      && |gs[k].stamps| > 2
      && DistinctStations(gs[k].stamps)
      && (forall x :: x in gs[k].stamps ==> x in s)
    ensures Sorted(s) && AllWellFormed(s) ==>
      forall k, x, y :: 0 <= k < |gs| && x in gs[k].stamps && y in gs[k].stamps ==>
        ToFloat(x) - ToFloat(y) < WindowSeconds
  {
    var cs := PayloadCandidates(data, s);
    PayloadCandidatesMembers(data, s);
    WindowMembers(s, 0);
    if Sorted(s) && AllWellFormed(s) {
      WindowsWithinWidth(s, 0);
    }
    forall k | 0 <= k < |gs|
      ensures gs[k].data == data && |gs[k].stamps| > 2
      ensures forall x :: x in gs[k].stamps ==> x in cs[k].stamps
    {
      assert cs[k] in cs;
      DistinctStationsCount(gs[k].stamps);
      forall x | x in gs[k].stamps
        ensures x in cs[k].stamps
      {
        var m :| 0 <= m < |gs[k].stamps| && gs[k].stamps[m] == x;
        assert IsLatest(cs[k].stamps, x);
      }
    }
  }

  /** Four stations hear one payload at 0, 0.3, 0.7 and 1.5 ms. */
  function FourStations(): seq<Stamp>
  {
    [Stamp("A", 0, 0.0), Stamp("B", 0, 0.0003), Stamp("C", 0, 0.0007), Stamp("D", 0, 0.0015)]
  }

  /** The scan cuts them into two windows, {0, 0.3, 0.7} and {1.5}. */
  lemma FourStationWindows()
    ensures Windows(FourStations()) == [FourStations()[..3], FourStations()[3..]]
  {
    var s := FourStations();
    assert RunEnd(s, 4, 0.0015) == 4;
    assert RunEnd(s, 3, 0.0015) == 4;
    assert RunEnd(s, 2, 0.0) == 3;
    assert RunEnd(s, 0, 0.0) == 3;
    assert s[3..4] == s[3..] && s[0..3] == s[..3];
    assert WindowsFrom(s, 3) == [s[3..]] + WindowsFrom(s, 4);
  }

  /** Only the first window, with three stations, becomes a group. */
  lemma FourStationExample()
    ensures PayloadCandidates(7, FourStations()) == [Group(7, FourStations()[..3])]
  {
    var s := FourStations();
    FourStationWindows();
    DistinctStationsCount(s);
    DistinctStationsCount(s[..3]);
    StationsCount(s[3..]);
    var ws := [s[..3], s[3..]];
    assert ws[1..] == [s[3..]] && [s[3..]][1..] == [];
    assert Eligible(7, [s[3..]]) == [];
  }

  /** A station that reports twice inside one window, at 0 and 0.5 ms, is
      represented by its later report only. */
  lemma DedupKeepsLaterReport(d: seq<Stamp>)
    requires DedupOf(d, [Stamp("A", 0, 0.0), Stamp("B", 0, 0.0002), Stamp("A", 0, 0.0005)])
    ensures Stamp("A", 0, 0.0005) in d
    ensures Stamp("A", 0, 0.0) !in d
  {
    var w := [Stamp("A", 0, 0.0), Stamp("B", 0, 0.0002), Stamp("A", 0, 0.0005)];
    assert w[0] in w;
    assert "A" in Stations(d);
    var x :| x in d && x.addr == "A";
    var k :| 0 <= k < |d| && d[k] == x;
    assert IsLatest(w, d[k]);
    assert LastIndex(w, "A") == 2;
    forall y | y in d
      ensures y != Stamp("A", 0, 0.0)
    {
      var m :| 0 <= m < |d| && d[m] == y;
      assert IsLatest(w, d[m]);
    }
  }
}
