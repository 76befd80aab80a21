# mlat_server correlation core in Dafny

This project models the correlation engine of the multilateration server in
`apps/mlat_server.py`. Ground receivers send Mode S reports, and each report
carries a message payload and the time it was heard. The server keeps one
list of time stamps per payload in the dict `_reports`, and keeps each list
sorted with `ordered_insert`. It also remembers the time of the stamp it
ingested last, in `_lastreport`. `get_eligible_reports` cuts every payload's
list into 1 ms windows, keeps the latest stamp of each station in a window,
and returns every window heard by more than two distinct stations as a
group for the solver. `prune` is meant to drop old payload entries.

The modules follow the parts of the source:

- `Stamps` (stamps.dfy): the `stamp` value, its four comparisons and
  `tofloat`. Times are exact reals: whole seconds plus a fractional part.
- `Bisect` (bisect.dfy): `bisect.bisect_right` as a binary-search method,
  proved against a recursive specification of the insertion point, and
  `ordered_insert` as a function on sequences.
- `Windowing` (windowing.dfy): the per-payload scan of
  `get_eligible_reports`. This covers the quick checks, the nested `while`
  loops that cut windows, the dedup loop and the `len(deduped) > 2` test.
  The loops are methods, proved against the functions `Windows`,
  `PayloadCandidates` and `DedupOf`.
- `ReportIndex` (report_index.dfy): the index `_reports` as a
  `map<int, seq<Stamp>>`, and the ingest loop as functions on it.
- `Pruning` (pruning.dfy): `prune` as written, and the policy its comment
  states.
- `Server` (server.dfy): the class `MlatServer`, whose fields `reports` and
  `lastReport` are updated in place by the ingest and prune methods; the
  scan only reads them.
- `Wrappers` (wrappers.dfy): `Option` and `Result`.

Python does not fix the iteration order of a dict or a set. Where the source
iterates over one, the model visits the keys in an arbitrary order chosen
with `:|`. `GetEligibleReports` returns the order it used as a ghost
out-parameter, and its contract holds for every order.

`_lastreport` is not the latest time seen: line 130 overwrites it with the
time of the stamp ingested last, so it can move backwards. The model follows
the code (`LastReportAfter`, `ReportIndex.LastReportCanGoBack`), and
`Pruning.OutOfOrderBatchMakesPruneRaise` shows that one out-of-order batch is
then enough to make `prune` select an entry.

## Model

| member | source | states |
|---|---|---|
| Stamps.Less | apps/mlat_server.py:60-64 | `stamp.__lt__`: seconds first, fractional seconds on a tie; its properties are stated by `Trichotomy` and `LessIsStrictOrder`. |
| Stamps.Greater | apps/mlat_server.py:65-69 | `stamp.__gt__`, the same comparison the other way round; `Trichotomy` proves it is `Less` with the arguments swapped. |
| Stamps.Same | apps/mlat_server.py:70-71 | `stamp.__eq__`: equal seconds and fractions, station ignored. |
| Stamps.Differ | apps/mlat_server.py:72-73 | `stamp.__ne__`; `Trichotomy` proves it is the negation of `Same`. |
| Stamps.ToFloat | apps/mlat_server.py:75-76 | `stamp.tofloat`: seconds plus fraction, exact; `OrderMatchesToFloat` relates it to `Less`. |
| Stamps.Trichotomy | apps/mlat_server.py:60-73 | `<` is lexicographic on (secs, frac_secs). `<`, `>` and `==` are mutually exclusive and exhaustive. `!=` is the negation of `==`, and `>` is `<` with its arguments swapped. |
| Stamps.LessIsStrictOrder | apps/mlat_server.py:60-64 | `<` is irreflexive and transitive, and "not `<`" is transitive too. |
| Stamps.OrderIgnoresStation | apps/mlat_server.py:60-76 | Changing a stamp's station changes no comparison and not `tofloat`. |
| Stamps.OrderMatchesToFloat | apps/mlat_server.py:60-76 | When fractions lie in [0, 1), `a < b` holds exactly when `a.tofloat() < b.tofloat()`, and `==` is equality of `tofloat`. |
| Stamps.OrderNeedsWellFormedFraction | apps/mlat_server.py:60-76 | Without that bound the two orders can disagree, so the bound is needed. |
| Stamps.SortedTimesNondecreasing | apps/mlat_server.py:75-79 | In a sorted list of well-formed stamps, `tofloat` never decreases. |
| Bisect.InsertionPoint | apps/mlat_server.py:79 | The insertion point is within the list. Every element after it is greater than `x`, and the element just before it is not. |
| Bisect.InsertionPointSplits | apps/mlat_server.py:79 | In a sorted list, every element before the insertion point is not greater than `x`. |
| Bisect.InsertionPointUnique | apps/mlat_server.py:79 | Any index that splits the list into "not greater than x" and "greater than x" is the insertion point. |
| Bisect.BisectRight | apps/mlat_server.py:79 | The binary search returns the bisect_right position: after every element not greater than `x`, before every greater one. |
| Bisect.OrderedInsert | apps/mlat_server.py:78-79 | The result is one longer than the list and is a permutation of the list plus `x`. |
| Bisect.OrderedInsertPlacement | apps/mlat_server.py:78-79 | `x` lands after all elements equal to it. The elements before it are unchanged, and the elements after it are shifted by one. |
| Bisect.OrderedInsertSorted | apps/mlat_server.py:78-79 | Inserting into a sorted list keeps it sorted. |
| Windowing.Stations | apps/mlat_server.py:164 | `set([st.addr for st in stamps])`: the distinct stations of a list; `StationsCount`, `StationsOfSlice` and `StationsAppend` state its properties. |
| Windowing.StationsOfSlice | apps/mlat_server.py:164 | A slice has no station that the whole list lacks. |
| Windowing.RunEnd | apps/mlat_server.py:172-174 | The inner `while` stops at the first stamp at or after `ref + 0.001`, or at the end of the list. Every stamp it takes is below that bound. |
| Windowing.WindowsFrom | apps/mlat_server.py:169-174 | The windows the outer `while` cuts from index `i` on, each anchored at its first stamp; characterised by `WindowsPartition` and `WindowsAreTimeRanges`. |
| Windowing.Windows | apps/mlat_server.py:166-174 | The windows of a whole payload list, starting at `i = 0`. |
| Windowing.WindowsPartition | apps/mlat_server.py:169-174 | The windows cover the list exactly once, in order, and none is empty. Every stamp lies within 1 ms after its window's first stamp. Each window starts at least 1 ms after the previous window's start. |
| Windowing.WindowsAreTimeRanges | apps/mlat_server.py:167-174 | On a sorted list of well-formed stamps, a window holds every remaining stamp in [anchor, anchor + 0.001) and no later stamp. |
| Windowing.LastIndex | apps/mlat_server.py:177-180 | Returns the last position of station `a` in the window, or -1. No later stamp belongs to `a`. |
| Windowing.DistinctStationsCount | apps/mlat_server.py:175-181 | A list with distinct stations has as many stamps as stations, so `len(deduped)` counts stations. |
| Windowing.DedupDeterminesMembers | apps/mlat_server.py:175-180 | Any two dedups of a window have the same members and the same length, namely the window's station count. |
| Windowing.LastIndexUnique | apps/mlat_server.py:177-180 | A backward scan that stops at the first match from the right has found the last stamp of `a`. |
| Windowing.StationsAppend | apps/mlat_server.py:179 | Appending a stamp adds its station. |
| Windowing.LastIndexFinds | apps/mlat_server.py:176-180 | The backward scan finds a stamp exactly when the station occurs in the window. |
| Windowing.ScanBack | apps/mlat_server.py:177-180 | The loop over `reps[::-1]` with `break` returns the last stamp of the station, if there is one. |
| Windowing.DedupStep | apps/mlat_server.py:176-180 | One pass of the dedup loop keeps its invariant: distinct stations, the stations handled so far, latest stamps only. |
| Windowing.Dedup | apps/mlat_server.py:175-180 | The result has distinct stations. They are the payload's stations present in the window. Each member is that station's latest stamp in the window. |
| Windowing.Eligible | apps/mlat_server.py:181-182 | The `len(deduped) > 2` selection applied to a list of windows: each window with more than two stations, tagged with the payload; characterised by `EligibleMembers`. |
| Windowing.EligibleAppend | apps/mlat_server.py:169-183 | The selection of windows distributes over concatenation. |
| Windowing.StationsCount | apps/mlat_server.py:163-164 | A list has no more stations than stamps. |
| Windowing.WindowMembers | apps/mlat_server.py:169-174 | Every stamp of a window is a stamp of the payload. |
| Windowing.WindowStations | apps/mlat_server.py:164-174 | A window has no station outside the payload's station set. |
| Windowing.EligibleNeedsThreeStations | apps/mlat_server.py:181-182 | Windows drawn from at most two stations never become groups. |
| Windowing.PayloadCandidates | apps/mlat_server.py:162-182 | The windows of one payload that become groups, after the two quick checks; characterised by `PayloadCandidatesMembers` and `QuickRejectSound`. |
| Windowing.QuickRejectSound | apps/mlat_server.py:163-165 | The `len(stamps) > 2` and `len(stations) > 2` checks only save work: without them the result is the same. |
| Windowing.EligibleMembers | apps/mlat_server.py:169-182 | A group is selected exactly when it is a window tagged with the payload and holding more than two stations. |
| Windowing.PayloadCandidatesMembers | apps/mlat_server.py:162-182 | A payload's candidates are exactly its windows with more than two stations, tagged with its key. |
| Windowing.DeduplicatesAppend | apps/mlat_server.py:161-182 | Deduplication of group lists distributes over concatenation. |
| Windowing.TakeWindow | apps/mlat_server.py:170-174 | The inner `while` collects exactly the run from `i` to `RunEnd` and stops there. It always consumes at least one stamp. |
| Windowing.WindowStep | apps/mlat_server.py:169-174 | Consuming one window moves it from the windows to come to the windows done. |
| Windowing.EmitStep | apps/mlat_server.py:175-182 | One pass of the outer loop keeps the emitted groups in step with the windows consumed. |
| Windowing.ScanPayload | apps/mlat_server.py:162-182 | The scan of one payload emits, in time order, one group per candidate window. Each group is that window deduplicated to the latest stamp per station. |
| Windowing.WindowsWithinWidth | apps/mlat_server.py:169-174 | On a sorted list of well-formed stamps, any two stamps of one window are less than 0.001 s apart. |
| Windowing.ScannedGroupsAreEligible | apps/mlat_server.py:151-182 | Every emitted group carries the payload's key and more than two stamps. Its stations are distinct and its stamps are drawn from the payload. On a sorted list of well-formed stamps they are within 0.001 s of each other. |
| Windowing.FourStationWindows | apps/mlat_server.py:169-174 | Stamps at 0, 0.3, 0.7 and 1.5 ms are cut into the windows {0, 0.3, 0.7} and {1.5}. |
| Windowing.FourStationExample | apps/mlat_server.py:162-182 | Only the first of those windows becomes a group. |
| Windowing.DedupKeepsLaterReport | apps/mlat_server.py:177-180 | A station heard at 0 and 0.5 ms in one window is represented by its 0.5 ms stamp only. |
| ReportIndex.StampOf | apps/mlat_server.py:124 | The stamp built for a message from station `addr`: that station with the message's seconds and fraction. |
| ReportIndex.Ingest | apps/mlat_server.py:124-129 | Ingesting adds the payload's key and leaves other keys untouched. The payload's list gains exactly the new stamp. |
| ReportIndex.IngestNewKey | apps/mlat_server.py:125-129 | A payload seen for the first time gets a list holding just its stamp. |
| ReportIndex.IngestValid | apps/mlat_server.py:125-129 | Ingesting keeps every list non-empty and sorted. |
| ReportIndex.IngestStep | apps/mlat_server.py:125-129 | One ingest, seen from any payload: its list gains the new stamp exactly when it is the ingested payload, and it has a key exactly when it had one or is that payload. |
| ReportIndex.IngestAll | apps/mlat_server.py:122-129 | The index after the whole `for msg in msglist` loop; `IngestAllValid` and `IngestAllNoLoss` state what it keeps. |
| ReportIndex.LastReportAfter | apps/mlat_server.py:122-130 | `_lastreport` after a batch: the time of its last stamp, unchanged by an empty batch. |
| ReportIndex.IngestAllValid | apps/mlat_server.py:122-129 | A whole batch keeps every list non-empty and sorted. |
| ReportIndex.IngestAllNoLoss | apps/mlat_server.py:122-129 | After a batch, each payload's list holds its old stamps plus exactly the batch's stamps for it. |
| ReportIndex.IngestAllKeys | apps/mlat_server.py:122-129 | After a batch, a payload has a key exactly when it had one before or the batch mentions it. |
| ReportIndex.LastReportCanGoBack | apps/mlat_server.py:122-130 | A batch whose reports for payloads 1 and 2 come at 10 s and then 0 s leaves a valid index holding both, with `_lastreport` at 0 s, 10 s below the stored entry for payload 1. |
| Pruning.Newest | apps/mlat_server.py:148 | `self._reports[report][-1]`: the last, and on a sorted list the newest, stamp of an entry. |
| Pruning.AgedKeysAsWritten | apps/mlat_server.py:147-148 | The keys the written comparison selects: newest time minus `_lastreport` above 5 s. |
| Pruning.PruneAsWritten | apps/mlat_server.py:146-149 | `prune` as it stands: unchanged when no key is selected, otherwise `AttributeError` from `dict.remove`; characterised by `PruneAsWrittenNeverDeletes`. |
| Pruning.StaleKeys | apps/mlat_server.py:141 | The keys the comment means to drop: newest time more than 5 s before `_lastreport`; `PrunedStale` and `AsWrittenKeepsStaleEntries` use it. |
| Pruning.Pruned | apps/mlat_server.py:146-149 | With `remove` read as deletion, the index keeps exactly the entries whose newest time minus `_lastreport` is at most 5 s. Their lists are unchanged, and the index stays valid. |
| Pruning.PruneAsWrittenNeverDeletes | apps/mlat_server.py:146-149 | `prune` as written either returns the index unchanged or raises. It raises exactly when the deleting reading would delete something. |
| Pruning.PrunedStale | apps/mlat_server.py:141-149 | The intended prune keeps exactly the entries whose newest time is no more than 5 s before `_lastreport`, with their lists unchanged. |
| Pruning.AsWrittenKeepsStaleEntries | apps/mlat_server.py:148 | Every entry that is stale in the comment's sense survives the comparison as written. |
| Pruning.PruneSignExample | apps/mlat_server.py:148-149 | With entries heard at 0 s and 110 s and `_lastreport` at 100 s, the code drops the 110 s entry and the intended policy drops the 0 s entry. The code as it stands raises. |
| Pruning.OutOfOrderBatchMakesPruneRaise | apps/mlat_server.py:122-149 | After that out-of-order batch the written comparison selects exactly payload 1, so `prune` as written raises `AttributeError`. |
| Server.AllCandidates | apps/mlat_server.py:160-183 | The candidate windows of every payload, visiting the keys in the dict's iteration order; characterised by `AllCandidatesMembers`. |
| Server.KeysInSomeOrder | apps/mlat_server.py:162 | A dict iteration visits every key exactly once, in some order. |
| Server.AllCandidatesMembers | apps/mlat_server.py:160-183 | Whatever the order, the scan's candidates are exactly the eligible windows of each payload, tagged with its key. |
| Server.NoCandidatesIffNoEligibleWindow | apps/mlat_server.py:184-186 | The scan finds nothing exactly when no payload has a window with more than two stations. |
| Server.EligibleReportsAreGroups | apps/mlat_server.py:151-186 | Every group of a whole scan belongs to a stored payload and has more than two stamps. Its stations are distinct, and its stamps are stored under that payload. On a valid index of well-formed stamps, any two of its stamps are less than 0.001 s apart. |
| Server.EligibleReportsWithinWidth | apps/mlat_server.py:151-186 | On a valid index of well-formed stamps, any two stamps of one group of a whole scan are less than 0.001 s apart. |
| Server.ScanOutcome | apps/mlat_server.py:151-186 | A whole scan's result is empty exactly when no payload has an eligible window, whatever the order. Each of its groups belongs to a stored payload and has more than two stamps from distinct stations, less than 0.001 s apart on a valid index of well-formed stamps. |
| Server.MlatServer.constructor | apps/mlat_server.py:104-105 | The server starts with an empty index and `_lastreport` at 0. |
| Server.MlatServer.InsertReport | apps/mlat_server.py:124-130 | One ingest step creates the list if it is missing and inserts the stamp at the bisect_right position. It keeps the index valid and sets `_lastreport` to the stamp's time. |
| Server.MlatServer.IngestBatch | apps/mlat_server.py:122-130 | A batch leaves the index equal to `IngestAll`, which is valid and loses nothing. `_lastreport` becomes the time of the batch's last stamp. |
| Server.MlatServer.GetEligibleReports | apps/mlat_server.py:160-186 | Returns `None` exactly when no payload has a window with more than two stations, whatever the iteration order. Otherwise it returns a non-empty list holding each eligible window, deduplicated and tagged with its payload. Every returned group belongs to a stored payload and has more than two stamps from distinct stations, less than 0.001 s apart when the index is valid and its stamps well-formed. The state is unchanged. |
| Server.MlatServer.Prune | apps/mlat_server.py:146-149 | With `remove` read as deletion, removes exactly the entries the written comparison selects. `_lastreport` is unchanged. |
| Server.MlatServer.PruneStale | apps/mlat_server.py:141-149 | Removes exactly the entries more than 5 s older than `_lastreport`, as the comment intends. |

## Left out

- Sockets, the listening socket, the connection list and `recv`: the model starts from a decoded batch of messages and the name of the station that sent it (`IngestBatch`). The `break` on an empty packet and the removal of a failed connection are not modelled.
- `pickle` decoding of a packet and the `air_modes` parser are left out. A message is the datatype `Message(data, secs, frac)`, and a payload is an `int` key.
- The client handshake, `client_info`, positions and clock offsets are not modelled, nor is `output`. Nothing in the modelled core uses them.
- Floating point: times are exact reals, so `tofloat` and `refstamp + 0.001` have no rounding. The source comment says `tofloat` is good to within a millisecond, and the model does not capture that rounding.
- Termination of the window loop under floating point: with exact reals every anchor passes its own test `t < t + 0.001`, so each window takes at least one stamp and the scan ends. With floats a NaN fraction, or a time so large that adding 0.001 is absorbed, makes the inner `while` take nothing and the outer `while` never advance. The model does not capture that hang.
- Dict and set iteration order: the model visits keys and stations in an arbitrary order, and each contract holds for every order.
- Windowing.Dedup: group members are specified up to their order (distinct stations, and the latest stamp of each). The order in which Python's set iteration appends them is not fixed.
- Server.MlatServer.Prune: reads `self._reports.remove(report)` as deleting the key, and iterates over a snapshot of the keys. The code as written raises `AttributeError` at that call, which `Pruning.PruneAsWritten` models. Deleting from a dict while iterating over it would raise `RuntimeError` in Python, and that is not modelled.
- The inner loops of `get_eligible_reports` are written as separate methods (`TakeWindow`, `Dedup`, `ScanBack`, `ScanPayload`) that the outer loops call. The loop structure is the source's.
- A stamp's fraction is not required to lie in [0, 1). The lemmas that relate the stamp order to `tofloat` assume it (`WellFormed`), as a receiver's fractional seconds do.
- Dict keys are payloads of type `int` here. In the source they are whatever payload object the decoder produced. Only equality is used.

## Findings

| source | as written | input that shows it | evidently intended | confidence | as-written member | corrected member |
|---|---|---|---|---|---|---|
| apps/mlat_server.py:148 | `newest.tofloat() - _lastreport > 5` selects entries more than 5 s newer than `_lastreport` | `_reports = {7: [stamp at 0 s], 8: [stamp at 110 s]}`, `_lastreport = 100`: entry 8 is selected, and the 100 s old entry 7 is kept | `_lastreport - newest.tofloat() > 5`, dropping entries more than 5 s old, as the comment above `prune` says | high; not executed | Pruning.AsWrittenKeepsStaleEntries, Pruning.PruneSignExample, Server.MlatServer.Prune | Pruning.PrunedStale, Server.MlatServer.PruneStale |
| apps/mlat_server.py:149 | `self._reports.remove(report)` calls a method a dict does not have, so `prune` raises `AttributeError` whenever any key is selected | the same input: key 8 is selected and the call raises, so nothing is ever pruned; one batch from one station with payload 1 at 10 s and then payload 2 at 0 s is enough to reach the call | `del self._reports[report]`, over a copy of the keys | high; not executed | Pruning.PruneAsWritten, Pruning.PruneAsWrittenNeverDeletes, Pruning.PruneSignExample, Pruning.OutOfOrderBatchMakesPruneRaise | Pruning.Pruned, Server.MlatServer.Prune |
