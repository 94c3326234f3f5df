/** What every sequence of imports keeps true of the report tables, and what the tables then hold. */
module ReportTheorems {
  import opened Common
  import opened ReportStore

  // ----- the invariant -----

  /** Ids are a primary key, and no path is stored twice. */
  predicate Distinct(reports: seq<Report>) {
    DistinctIds(reports) && forall i, j | 0 <= i < j < |reports| :: reports[i].path != reports[j].path
  }

  predicate DistinctIds(reports: seq<Report>) {
    forall i, j | 0 <= i < j < |reports| :: reports[i].id != reports[j].id
  }

  predicate Live(reports: seq<Report>, id: nat) {
    exists i :: 0 <= i < |reports| && reports[i].id == id
  }

  predicate Owned<Item>(rows: seq<Row<Item>>, reports: seq<Report>) {
    forall k :: 0 <= k < |rows| ==> Live(reports, rows[k].reportId)
  }

  predicate AllOwned<Item>(t: Tables<Item>) {
    Owned(t.rows.findings, t.reports) && Owned(t.rows.actors, t.reports) && Owned(t.rows.iocs, t.reports)
    && Owned(t.rows.sessions, t.reports)
  }

  predicate IdsBelow(reports: seq<Report>, nextId: nat) {
    forall i :: 0 <= i < |reports| ==> reports[i].id < nextId
  }

  predicate CountsRight<Item>(t: Tables<Item>) {
    forall i :: 0 <= i < |t.reports| ==> t.reports[i].counts == Counts(AllChildren(t.rows, t.reports[i].id))
  }

  /** One report per path, no orphans, and every report's four counts are those of its rows. */
  predicate Consistent<Item>(t: Tables<Item>) {
    Distinct(t.reports) && IdsBelow(t.reports, t.nextId) && AllOwned(t) && CountsRight(t)
  }

  // ----- deleting -----

  /** `kept` is what is left of `reports` once the reports with these ids are gone. */
  ghost predicate IsLeft(kept: seq<Report>, reports: seq<Report>, ids: seq<nat>) {
    && (forall r {:trigger r in kept} {:trigger r in reports} :: r in kept <==> r in reports && r.id !in ids)
    && (DistinctIds(reports) ==> DistinctIds(kept))
    && (Distinct(reports) ==> Distinct(kept))
  }

  ghost predicate RowsLeft<Item>(kept: seq<Row<Item>>, rows: seq<Row<Item>>, ids: seq<nat>) {
    && (forall r {:trigger r in kept} :: r in kept ==> r in rows && r.reportId !in ids)
    && (forall id {:trigger Children(kept, id)} :: Children(kept, id) == if id in ids then [] else Children(rows, id))
  }

  lemma {:induction false} WithoutReportElements(reports: seq<Report>, id: nat)
    ensures forall r {:trigger r in WithoutReport(reports, id)} {:trigger r in reports} ::
              r in WithoutReport(reports, id) <==> r in reports && r.id != id
  {
    if reports != [] {
      var front, last := reports[..|reports| - 1], reports[|reports| - 1];
      WithoutReportElements(front, id);
      assert reports == front + [last];
    }
  }

  lemma {:induction false} WithoutReportDistinct(reports: seq<Report>, id: nat)
    ensures DistinctIds(reports) ==> DistinctIds(WithoutReport(reports, id))
    ensures Distinct(reports) ==> Distinct(WithoutReport(reports, id))
  {
    if reports != [] {
      var front, last := reports[..|reports| - 1], reports[|reports| - 1];
      WithoutReportDistinct(front, id);
      WithoutReportElements(front, id);
      var kept := WithoutReport(front, id);
      forall i | 0 <= i < |kept|
        ensures kept[i] in front
      {
        assert kept[i] in kept;
      }
    }
  }

  lemma WithoutReportLeft(reports: seq<Report>, id: nat)
    ensures IsLeft(WithoutReport(reports, id), reports, [id])
  {
    hide WithoutReport, Distinct, DistinctIds;
    WithoutReportElements(reports, id);
    WithoutReportDistinct(reports, id);
  }

  lemma WithoutLeft<Item>(rows: seq<Row<Item>>, id: nat)
    ensures RowsLeft(Without(rows, id), rows, [id])
  {
    forall other
      ensures Children(Without(rows, id), other) == if other in [id] then [] else Children(rows, other)
    {
      ChildrenWithout(rows, id, other);
    }
    ChildrenWithout(rows, id, id);
  }

  lemma LeftTwice(reports: seq<Report>, mid: seq<Report>, kept: seq<Report>, ids: seq<nat>, id: nat)
    requires IsLeft(mid, reports, ids) && IsLeft(kept, mid, [id])
    ensures IsLeft(kept, reports, ids + [id])
  {
    forall r
      ensures r in kept <==> r in reports && r.id !in ids + [id]
    {
      assert r in kept <==> r in mid && r.id !in [id];
    }
  }

  lemma RowsLeftTwice<Item>(rows: seq<Row<Item>>, mid: seq<Row<Item>>, kept: seq<Row<Item>>,
                            ids: seq<nat>, id: nat)
    requires RowsLeft(mid, rows, ids) && RowsLeft(kept, mid, [id])
    ensures RowsLeft(kept, rows, ids + [id])
  {
    forall other
      ensures Children(kept, other) == if other in ids + [id] then [] else Children(rows, other)
    {
      assert Children(kept, other) == if other in [id] then [] else Children(mid, other);
    }
  }

  ghost predicate TablesLeft<Item>(kept: Tables<Item>, t: Tables<Item>, ids: seq<nat>) {
    && kept.nextId == t.nextId
    && IsLeft(kept.reports, t.reports, ids)
    && RowsLeft(kept.rows.findings, t.rows.findings, ids)
    && RowsLeft(kept.rows.actors, t.rows.actors, ids)
    && RowsLeft(kept.rows.iocs, t.rows.iocs, ids)
    && RowsLeft(kept.rows.sessions, t.rows.sessions, ids)
  }

  lemma {:induction false} DeleteReportsLeft<Item>(t: Tables<Item>, ids: seq<nat>)
    ensures TablesLeft(DeleteReports(t, ids), t, ids)
  {
    if ids != [] {
      var front, id := ids[..|ids| - 1], ids[|ids| - 1];
      DeleteReportsLeft(t, front);
      var mid := DeleteReports(t, front);
      assert front + [id] == ids;
      WithoutReportLeft(mid.reports, id);
      LeftTwice(t.reports, mid.reports, WithoutReport(mid.reports, id), front, id);
      DeletedRows(t.rows.findings, mid.rows.findings, front, id);
      DeletedRows(t.rows.actors, mid.rows.actors, front, id);
      DeletedRows(t.rows.iocs, mid.rows.iocs, front, id);
      DeletedRows(t.rows.sessions, mid.rows.sessions, front, id);
    }
  }

  lemma DeletedRows<Item>(rows: seq<Row<Item>>, mid: seq<Row<Item>>, ids: seq<nat>, id: nat)
    requires RowsLeft(mid, rows, ids)
    ensures RowsLeft(Without(mid, id), rows, ids + [id])
  {
    WithoutLeft(mid, id);
    RowsLeftTwice(rows, mid, Without(mid, id), ids, id);
  }

  lemma {:induction false} IdsAtPath(reports: seq<Report>, path: string, id: nat)
    ensures id in IdsAt(reports, path)
            <==> exists i :: 0 <= i < |reports| && reports[i].id == id && reports[i].path == path
  {
    if reports != [] {
      var n := |reports| - 1;
      IdsAtPath(reports[..n], path, id);
      if i :| 0 <= i < n && reports[..n][i].id == id && reports[..n][i].path == path {
        assert reports[i].id == id && reports[i].path == path;
      }
      if i :| 0 <= i < |reports| && reports[i].id == id && reports[i].path == path && i != n {
        assert reports[..n][i].id == id && reports[..n][i].path == path;
      }
    }
  }

  /** Under a primary key, the ids deleted for a path are those of its reports and of no other. */
  lemma OldIds(reports: seq<Report>, path: string, r: Report)
    requires DistinctIds(reports) && r in reports
    ensures r.id in IdsAt(reports, path) <==> r.path == path
  {
    IdsAtPath(reports, path, r.id);
  }

  // ----- importing -----

  /** What is stored for a path, apart from the id and the time of import. */
  datatype Snapshot<+Item> = Snapshot(source: string, modifiedAt: string, eventCount: int, counts: Quad<nat>,
                                      items: Quad<seq<Item>>)

  function ReportAt(reports: seq<Report>, path: string): (r: Option<Report>)
    ensures r.Some? ==> r.value in reports && r.value.path == path
    ensures r.None? ==> forall i :: 0 <= i < |reports| ==> reports[i].path != path
  {
    if reports == [] then None
    else if reports[|reports| - 1].path == path then Some(reports[|reports| - 1])
    else ReportAt(reports[..|reports| - 1], path)
  }

  function Lookup<Item>(t: Tables<Item>, path: string): Option<Snapshot<Item>> {
    var r := ReportAt(t.reports, path);
    if r.None? then None
    else Some(Snapshot(r.value.source, r.value.modifiedAt, r.value.eventCount, r.value.counts,
                       AllChildren(t.rows, r.value.id)))
  }

  lemma ReportAtIs(reports: seq<Report>, r: Report)
    requires Distinct(reports) && r in reports
    ensures ReportAt(reports, r.path) == Some(r)
  {}

  /** Everything an import does to the four child tables, seen from one report. */
  lemma ImportedChildren<Item>(t: Tables<Item>, source: string, path: string, modifiedAt: string,
                               importedAt: string, payload: Payload<Item>, id: nat)
    requires AllOwned(t) && IdsBelow(t.reports, t.nextId)
    ensures AllChildren(Imported(t, source, path, modifiedAt, importedAt, payload).rows, id)
            == if id == t.nextId then payload.items
               else if id in IdsAt(t.reports, path) then Quad([], [], [], [])
               else AllChildren(t.rows, id)
  {
    var ids := IdsAt(t.reports, path);
    DeleteReportsLeft(t, ids);
    var kept := DeleteReports(t, ids);
    OneTable(t.rows.findings, kept.rows.findings, t.reports, ids, t.nextId, payload.items.findings, id);
    OneTable(t.rows.actors, kept.rows.actors, t.reports, ids, t.nextId, payload.items.actors, id);
    OneTable(t.rows.iocs, kept.rows.iocs, t.reports, ids, t.nextId, payload.items.iocs, id);
    OneTable(t.rows.sessions, kept.rows.sessions, t.reports, ids, t.nextId, payload.items.sessions, id);
  }

  lemma OneTable<Item>(rows: seq<Row<Item>>, kept: seq<Row<Item>>, reports: seq<Report>,
                       ids: seq<nat>, next: nat, items: seq<Item>, id: nat)
    requires RowsLeft(kept, rows, ids) && Owned(rows, reports) && IdsBelow(reports, next)
    ensures Children(kept + RowsOf(next, items), id)
            == if id == next then items else if id in ids then [] else Children(rows, id)
  {
    ChildrenAppended(kept, next, items, id);
    if id == next {
      assert forall r <- rows :: r.reportId != next;
      NoChildren(kept, next);
    }
  }

  /** An import keeps the other paths' reports, with their ids and all their rows in order, exactly as they were. */
  lemma OthersUntouched<Item>(t: Tables<Item>, source: string, path: string, modifiedAt: string,
                              importedAt: string, payload: Payload<Item>, r: Report)
    requires Consistent(t) && r in t.reports && r.path != path
    ensures var after := Imported(t, source, path, modifiedAt, importedAt, payload);
            r in after.reports && AllChildren(after.rows, r.id) == AllChildren(t.rows, r.id)
  {
    OldIds(t.reports, path, r);
    DeleteReportsLeft(t, IdsAt(t.reports, path));
    ImportedChildren(t, source, path, modifiedAt, importedAt, payload, r.id);
  }

  lemma ReportsAfter<Item>(t: Tables<Item>, source: string, path: string, modifiedAt: string,
                           importedAt: string, payload: Payload<Item>, r: Report)
    requires DistinctIds(t.reports)
    ensures var added := Report(t.nextId, source, path, modifiedAt, importedAt, payload.eventCount,
                                Counts(payload.items));
            r in Imported(t, source, path, modifiedAt, importedAt, payload).reports
            <==> r == added || (r in t.reports && r.path != path)
  {
    DeleteReportsLeft(t, IdsAt(t.reports, path));
    if r in t.reports {
      OldIds(t.reports, path, r);
    }
  }

  /** Even where a path was stored several times, an import leaves it stored once, and no row of the old reports. */
  lemma ImportHeals<Item>(t: Tables<Item>, source: string, path: string, modifiedAt: string,
                          importedAt: string, payload: Payload<Item>, r: Report)
    requires DistinctIds(t.reports) && IdsBelow(t.reports, t.nextId) && AllOwned(t)
    requires r in t.reports && r.path == path
    ensures var after := Imported(t, source, path, modifiedAt, importedAt, payload);
            && (forall q <- after.reports :: q.path == path ==> q.id == t.nextId)
            && AllChildren(after.rows, r.id) == Quad([], [], [], [])
  {
    forall q | q in Imported(t, source, path, modifiedAt, importedAt, payload).reports
      ensures q.path == path ==> q.id == t.nextId
    {
      ReportsAfter(t, source, path, modifiedAt, importedAt, payload, q);
    }
    OldIds(t.reports, path, r);
    ImportedChildren(t, source, path, modifiedAt, importedAt, payload, r.id);
  }

  // ----- the invariant is kept -----

  lemma ImportKeepsDistinct<Item>(t: Tables<Item>, source: string, path: string, modifiedAt: string,
                                  importedAt: string, payload: Payload<Item>)
    requires Distinct(t.reports) && IdsBelow(t.reports, t.nextId)
    ensures var after := Imported(t, source, path, modifiedAt, importedAt, payload);
            Distinct(after.reports) && IdsBelow(after.reports, after.nextId)
  {
    var ids := IdsAt(t.reports, path);
    DeleteReportsLeft(t, ids);
    var kept := DeleteReports(t, ids).reports;
    forall i | 0 <= i < |kept|
      ensures kept[i].id < t.nextId && kept[i].path != path
    {
      assert kept[i] in kept;
      OldIds(t.reports, path, kept[i]);
    }
  }

  lemma ImportKeepsCounts<Item>(t: Tables<Item>, source: string, path: string, modifiedAt: string,
                                importedAt: string, payload: Payload<Item>)
    requires Consistent(t)
    ensures CountsRight(Imported(t, source, path, modifiedAt, importedAt, payload))
  {
    var after := Imported(t, source, path, modifiedAt, importedAt, payload);
    forall i | 0 <= i < |after.reports|
      ensures after.reports[i].counts == Counts(AllChildren(after.rows, after.reports[i].id))
    {
      var r := after.reports[i];
      ReportsAfter(t, source, path, modifiedAt, importedAt, payload, r);
      ImportedChildren(t, source, path, modifiedAt, importedAt, payload, r.id);
      if r in t.reports && r.path != path {
        OldIds(t.reports, path, r);
      }
    }
  }

  lemma LiveAfter<Item>(t: Tables<Item>, source: string, path: string, modifiedAt: string,
                        importedAt: string, payload: Payload<Item>, id: nat)
    requires DistinctIds(t.reports)
    requires id == t.nextId || (Live(t.reports, id) && id !in IdsAt(t.reports, path))
    ensures Live(Imported(t, source, path, modifiedAt, importedAt, payload).reports, id)
  {
    var after := Imported(t, source, path, modifiedAt, importedAt, payload);
    if id == t.nextId {
      DeleteReportsLeft(t, IdsAt(t.reports, path));
      assert after.reports[|after.reports| - 1].id == id;
    } else {
      var i :| 0 <= i < |t.reports| && t.reports[i].id == id;
      OldIds(t.reports, path, t.reports[i]);
      ReportsAfter(t, source, path, modifiedAt, importedAt, payload, t.reports[i]);
      var k :| 0 <= k < |after.reports| && after.reports[k] == t.reports[i];
    }
  }

  lemma OneTableOwned<Item>(rows: seq<Row<Item>>, kept: seq<Row<Item>>, reports: seq<Report>,
                            after: seq<Report>, ids: seq<nat>, next: nat, items: seq<Item>)
    requires RowsLeft(kept, rows, ids) && Owned(rows, reports) && Live(after, next)
    requires forall id {:trigger Live(reports, id)} :: Live(reports, id) && id !in ids ==> Live(after, id)
    ensures Owned(kept + RowsOf(next, items), after)
  {
    var all := kept + RowsOf(next, items);
    forall k | 0 <= k < |all|
      ensures Live(after, all[k].reportId)
    {
      if k < |kept| {
        assert kept[k] in kept;
      }
    }
  }

  lemma ImportKeepsOwned<Item>(t: Tables<Item>, source: string, path: string, modifiedAt: string,
                               importedAt: string, payload: Payload<Item>)
    requires Consistent(t)
    ensures AllOwned(Imported(t, source, path, modifiedAt, importedAt, payload))
  {
    var ids, next := IdsAt(t.reports, path), t.nextId;
    var after := Imported(t, source, path, modifiedAt, importedAt, payload).reports;
    forall id | id == next || (Live(t.reports, id) && id !in ids)
      ensures Live(after, id)
    {
      LiveAfter(t, source, path, modifiedAt, importedAt, payload, id);
    }
    DeleteReportsLeft(t, ids);
    var kept := DeleteReports(t, ids).rows;
    OneTableOwned(t.rows.findings, kept.findings, t.reports, after, ids, next, payload.items.findings);
    OneTableOwned(t.rows.actors, kept.actors, t.reports, after, ids, next, payload.items.actors);
    OneTableOwned(t.rows.iocs, kept.iocs, t.reports, after, ids, next, payload.items.iocs);
    OneTableOwned(t.rows.sessions, kept.sessions, t.reports, after, ids, next, payload.items.sessions);
  }

  lemma ImportKeeps<Item>(t: Tables<Item>, source: string, path: string, modifiedAt: string,
                          importedAt: string, payload: Payload<Item>)
    requires Consistent(t)
    ensures Consistent(Imported(t, source, path, modifiedAt, importedAt, payload))
  {
    ImportKeepsDistinct(t, source, path, modifiedAt, importedAt, payload);
    ImportKeepsCounts(t, source, path, modifiedAt, importedAt, payload);
    ImportKeepsOwned(t, source, path, modifiedAt, importedAt, payload);
  }

  // ----- the tables as a map from paths -----

  /** Seen by path, an import is an assignment: it sets its own path and leaves every other as it was. */
  lemma ImportAssigns<Item>(t: Tables<Item>, source: string, path: string, modifiedAt: string,
                            importedAt: string, payload: Payload<Item>, p: string)
    requires Consistent(t)
    ensures Lookup(Imported(t, source, path, modifiedAt, importedAt, payload), p)
            == if p == path
               then Some(Snapshot(source, modifiedAt, payload.eventCount, Counts(payload.items), payload.items))
               else Lookup(t, p)
  {
    var after := Imported(t, source, path, modifiedAt, importedAt, payload);
    ImportKeepsDistinct(t, source, path, modifiedAt, importedAt, payload);
    if p == path {
      var added := after.reports[|after.reports| - 1];
      DeleteReportsLeft(t, IdsAt(t.reports, path));
      ReportAtIs(after.reports, added);
      ImportedChildren(t, source, path, modifiedAt, importedAt, payload, t.nextId);
    } else if ReportAt(t.reports, p).Some? {
      var r := ReportAt(t.reports, p).value;
      OthersUntouched(t, source, path, modifiedAt, importedAt, payload, r);
      ReportAtIs(after.reports, r);
    } else if ReportAt(after.reports, p).Some? {
      ReportsAfter(t, source, path, modifiedAt, importedAt, payload, ReportAt(after.reports, p).value);
      assert false;
    }
  }

  /** Importing the same file again changes nothing but the id and the time of import. */
  lemma ReimportIdempotent<Item>(t: Tables<Item>, source: string, path: string, modifiedAt: string,
                                 first: string, second: string, payload: Payload<Item>, p: string)
    requires Consistent(t)
    ensures var once := Imported(t, source, path, modifiedAt, first, payload);
            var twice := Imported(once, source, path, modifiedAt, second, payload);
            Consistent(twice) && Lookup(twice, p) == Lookup(once, p)
  {
    var once := Imported(t, source, path, modifiedAt, first, payload);
    ImportKeeps(t, source, path, modifiedAt, first, payload);
    ImportKeeps(once, source, path, modifiedAt, second, payload);
    ImportAssigns(t, source, path, modifiedAt, first, payload, p);
    ImportAssigns(once, source, path, modifiedAt, second, payload, p);
  }

  // ----- every sequence of imports -----

  /** One call of the importer, with what the world answered; a failing call may use up `skipped` ids. */
  datatype Call<+Item> = Call(payload: Option<Payload<Item>>, source: string, path: string, modifiedAt: string,
                              now: string, commits: bool, skipped: nat)
  {
    predicate Succeeds() {
      payload.Some? && commits
    }
  }

  function After<Item>(t: Tables<Item>, call: Call<Item>): Tables<Item> {
    if call.Succeeds() then Imported(t, call.source, call.path, call.modifiedAt, call.now, call.payload.value)
    else t.(nextId := t.nextId + call.skipped)
  }

  function AfterAll<Item>(calls: seq<Call<Item>>): Tables<Item> {
    if calls == [] then Tables([], Quad([], [], [], []), 1)
    else After(AfterAll(calls[..|calls| - 1]), calls[|calls| - 1])
  }

  /** What the last successful import of a path brought. */
  function LastImport<Item>(calls: seq<Call<Item>>, path: string): Option<Snapshot<Item>> {
    if calls == [] then None
    else
      var call := calls[|calls| - 1];
      if call.path == path && call.Succeeds() then
        var payload := call.payload.value;
        Some(Snapshot(call.source, call.modifiedAt, payload.eventCount, Counts(payload.items), payload.items))
      else LastImport(calls[..|calls| - 1], path)
  }

  /** After any sequence of imports, failed ones among them, the tables are consistent. */
  lemma {:induction false} AlwaysConsistent<Item>(calls: seq<Call<Item>>)
    ensures Consistent(AfterAll(calls))
  {
    if calls != [] {
      var t, call := AfterAll(calls[..|calls| - 1]), calls[|calls| - 1];
      AlwaysConsistent(calls[..|calls| - 1]);
      if call.Succeeds() {
        ImportKeeps(t, call.source, call.path, call.modifiedAt, call.now, call.payload.value);
      }
    }
  }

  /** And for each path they hold exactly what its last successful import brought. */
  lemma {:induction false} LastImportStands<Item>(calls: seq<Call<Item>>, path: string)
    ensures Lookup(AfterAll(calls), path) == LastImport(calls, path)
  {
    if calls != [] {
      var t, call := AfterAll(calls[..|calls| - 1]), calls[|calls| - 1];
      LastImportStands(calls[..|calls| - 1], path);
      AlwaysConsistent(calls[..|calls| - 1]);
      if call.Succeeds() {
        ImportAssigns(t, call.source, call.path, call.modifiedAt, call.now, call.payload.value, path);
      } else {
        assert After(t, call).reports == t.reports && After(t, call).rows == t.rows;
      }
    }
  }

  function OfReport<Item>(id: nat): Row<Item> -> bool {
    (row: Row<Item>) => row.reportId == id
  }

  lemma {:induction false} ChildrenCounted<Item>(rows: seq<Row<Item>>, id: nat)
    ensures |Children(rows, id)| == |Positions(rows, OfReport(id))|
  {
    if rows == [] {
      NoPositions(rows, OfReport(id));
    } else {
      ChildrenCounted(rows[..|rows| - 1], id);
      OnePositionMore(rows, OfReport(id));
    }
  }

  /** The four counts stored with a report are the numbers of its rows in the four tables. */
  lemma CountsStored<Item>(calls: seq<Call<Item>>, r: Report)
    requires r in AfterAll(calls).reports
    ensures var rows := AfterAll(calls).rows;
            && r.counts.findings == |Positions(rows.findings, OfReport(r.id))|
            && r.counts.actors == |Positions(rows.actors, OfReport(r.id))|
            && r.counts.iocs == |Positions(rows.iocs, OfReport(r.id))|
            && r.counts.sessions == |Positions(rows.sessions, OfReport(r.id))|
  {
    hide Children, DistinctIds, Distinct;
    var rows := AfterAll(calls).rows;
    AlwaysConsistent(calls);
    ChildrenCounted(rows.findings, r.id);
    ChildrenCounted(rows.actors, r.id);
    ChildrenCounted(rows.iocs, r.id);
    ChildrenCounted(rows.sessions, r.id);
  }

  /** Whether the dashboard queues an import of the latest report file; `running` is the import flag. */
  predicate RefreshQueues<Item>(t: Tables<Item>, running: bool, path: string, modifiedAt: string) {
    if running then false
    else
      var r := ReportAt(t.reports, path);
      !(r.Some? && r.value.modifiedAt == modifiedAt)
  }

  /**
    A refresh passes a file by exactly if an import is under way or the file's last successful import carried its
    modification time.
  */
  lemma RefreshQueuesIff<Item>(calls: seq<Call<Item>>, running: bool, path: string, modifiedAt: string)
    ensures !RefreshQueues(AfterAll(calls), running, path, modifiedAt)
            <==> running || (LastImport(calls, path).Some? && LastImport(calls, path).value.modifiedAt == modifiedAt)
  {
    LastImportStands(calls, path);
  }
}
