/**
  The report tables and the import that replaces whatever is stored for a path. Each import is one atomic transaction
  and imports are serial; a table is the sequence of its rows in insertion order.
*/
module ReportStore {
  import opened Common

  /** One thing for each of the four child tables. */
  datatype Quad<+T> = Quad(findings: T, actors: T, iocs: T, sessions: T)

  datatype Report = Report(id: nat, source: string, path: string, modifiedAt: string, importedAt: string,
                           eventCount: int, counts: Quad<nat>)

  datatype Row<+Item> = Row(reportId: nat, item: Item)

  datatype Payload<+Item> = Payload(eventCount: int, items: Quad<seq<Item>>)

  datatype Tables<+Item> = Tables(reports: seq<Report>, rows: Quad<seq<Row<Item>>>, nextId: nat)

  // ----- what the statements do -----

  /** DELETE FROM a child table WHERE report_id = `id`. */
  function Without<Item>(rows: seq<Row<Item>>, id: nat): seq<Row<Item>> {
    if rows == [] then []
    else
      var front, last := Without(rows[..|rows| - 1], id), rows[|rows| - 1];
      if last.reportId == id then front else front + [last]
  }

  /** DELETE FROM reports WHERE id = `id`. */
  function WithoutReport(reports: seq<Report>, id: nat): seq<Report> {
    if reports == [] then []
    else
      var front, last := WithoutReport(reports[..|reports| - 1], id), reports[|reports| - 1];
      if last.id == id then front else front + [last]
  }

  /** SELECT id FROM reports WHERE report_path = `path`. */
  function IdsAt(reports: seq<Report>, path: string): seq<nat> {
    if reports == [] then []
    else
      var front, last := IdsAt(reports[..|reports| - 1], path), reports[|reports| - 1];
      if last.path == path then front + [last.id] else front
  }

  function DeleteReport<Item>(t: Tables<Item>, id: nat): Tables<Item> {
    t.(reports := WithoutReport(t.reports, id),
       rows := Quad(Without(t.rows.findings, id), Without(t.rows.actors, id), Without(t.rows.iocs, id),
                    Without(t.rows.sessions, id)))
  }

  function DeleteReports<Item>(t: Tables<Item>, ids: seq<nat>): Tables<Item> {
    if ids == [] then t else DeleteReport(DeleteReports(t, ids[..|ids| - 1]), ids[|ids| - 1])
  }

  function RowsOf<Item>(id: nat, items: seq<Item>): (rows: seq<Row<Item>>)
    ensures |rows| == |items|
  {
    seq(|items|, i requires 0 <= i < |items| => Row(id, items[i]))
  }

  function Counts<Item>(items: Quad<seq<Item>>): Quad<nat> {
    Quad(|items.findings|, |items.actors|, |items.iocs|, |items.sessions|)
  }

  function InsertReport<Item>(t: Tables<Item>, source: string, path: string, modifiedAt: string, importedAt: string,
                              payload: Payload<Item>): Tables<Item>
  {
    var id := t.nextId;
    Tables(
      t.reports + [Report(id, source, path, modifiedAt, importedAt, payload.eventCount, Counts(payload.items))],
      Quad(t.rows.findings + RowsOf(id, payload.items.findings), t.rows.actors + RowsOf(id, payload.items.actors),
           t.rows.iocs + RowsOf(id, payload.items.iocs), t.rows.sessions + RowsOf(id, payload.items.sessions)),
      id + 1)
  }

  function Imported<Item>(t: Tables<Item>, source: string, path: string, modifiedAt: string, importedAt: string,
                          payload: Payload<Item>): Tables<Item>
  {
    InsertReport(DeleteReports(t, IdsAt(t.reports, path)), source, path, modifiedAt, importedAt, payload)
  }

  class Database<Item> {
    var reports: seq<Report>
    var findings: seq<Row<Item>>
    var actors: seq<Row<Item>>
    var iocs: seq<Row<Item>>
    var sessions: seq<Row<Item>>
    var nextId: nat

    function Contents(): Tables<Item>
      reads this
    {
      Tables(reports, Quad(findings, actors, iocs, sessions), nextId)
    }

    constructor ()
      ensures Contents() == Tables([], Quad([], [], [], []), 1)
    {
      reports, findings, actors, iocs, sessions, nextId := [], [], [], [], [], 1;
    }

    /**
      Imports one report file. `payload` is what parsing the file gave, if it could be parsed, and `commits` says
      whether the transaction goes through. A failing import changes no table, though it may use up an id.
    */
    method ImportReportFile(payload: Option<Payload<Item>>, source: string, path: string, modifiedAt: string,
                            now: string, commits: bool) returns (ok: bool)
      modifies this
      ensures ok == (payload.Some? && commits)
      ensures ok ==> Contents() == Imported(old(Contents()), source, path, modifiedAt, now, payload.value)
      ensures !ok ==> old(nextId) <= nextId && Contents() == old(Contents()).(nextId := nextId)
    {
      hide Without, WithoutReport, IdsAt, RowsOf, Counts;
      if payload.None? {
        return false;
      }
      var kept, f, a, i, s := reports, findings, actors, iocs, sessions;
      var oldIds := IdsAt(reports, path);
      var k := 0;
      while k < |oldIds|
        invariant k <= |oldIds|
        invariant Tables(kept, Quad(f, a, i, s), nextId) == DeleteReports(Contents(), oldIds[..k])
      {
        var id := oldIds[k];
        f, a, i, s := Without(f, id), Without(a, id), Without(i, id), Without(s, id);
        kept := WithoutReport(kept, id);
        assert oldIds[..k + 1][..k] == oldIds[..k];
        k := k + 1;
      }
      assert oldIds[..k] == oldIds;
      var id := nextId;
      nextId := nextId + 1;
      var items := payload.value.items;
      kept := kept + [Report(id, source, path, modifiedAt, now, payload.value.eventCount, Counts(items))];
      f := InsertRows(f, id, items.findings);
      a := InsertRows(a, id, items.actors);
      i := InsertRows(i, id, items.iocs);
      s := InsertRows(s, id, items.sessions);
      if !commits {
        return false;
      }
      reports, findings, actors, iocs, sessions := kept, f, a, i, s;
      return true;
    }
  }

  method InsertRows<Item>(rows: seq<Row<Item>>, id: nat, items: seq<Item>) returns (more: seq<Row<Item>>)
    ensures more == rows + RowsOf(id, items)
  {
    more := rows;
    for k := 0 to |items|
      invariant more == rows + RowsOf(id, items)[..k]
    {
      more := more + [Row(id, items[k])];
    }
  }

  // ----- rows of one report -----

  /** The items stored for a report, in order. */
  function Children<Item>(rows: seq<Row<Item>>, id: nat): seq<Item> {
    if rows == [] then []
    else
      var front, last := Children(rows[..|rows| - 1], id), rows[|rows| - 1];
      if last.reportId == id then front + [last.item] else front
  }

  function AllChildren<Item>(rows: Quad<seq<Row<Item>>>, id: nat): Quad<seq<Item>> {
    Quad(Children(rows.findings, id), Children(rows.actors, id), Children(rows.iocs, id), Children(rows.sessions, id))
  }

  lemma {:induction false} ChildrenWithout<Item>(rows: seq<Row<Item>>, id: nat, other: nat)
    ensures Children(Without(rows, id), other) == if other == id then [] else Children(rows, other)
    ensures forall r <- Without(rows, id) :: r in rows && r.reportId != id
  {
    if rows != [] {
      var front, last := rows[..|rows| - 1], rows[|rows| - 1];
      ChildrenWithout(front, id, other);
      var kept := Without(front, id);
      assert (kept + [last])[..|kept|] == kept;
      assert forall r <- front :: r in rows;
    }
  }

  lemma {:induction false} ChildrenAppended<Item>(rows: seq<Row<Item>>, id: nat, items: seq<Item>, other: nat)
    ensures Children(rows + RowsOf(id, items), other) == Children(rows, other) + if other == id then items else []
  {
    if items == [] {
      assert rows + RowsOf(id, items) == rows;
    } else {
      hide *;
      var n := |items| - 1;
      ChildrenAppended(rows, id, items[..n], other);
      LastRow(rows, id, items);
      OneMoreChild(rows + RowsOf(id, items[..n]), Row(id, items[n]), other);
      assert items[..n] + [items[n]] == items;
    }
  }

  lemma LastRow<Item>(rows: seq<Row<Item>>, id: nat, items: seq<Item>)
    requires items != []
    ensures rows + RowsOf(id, items) == rows + RowsOf(id, items[..|items| - 1]) + [Row(id, items[|items| - 1])]
  {}

  lemma OneMoreChild<Item>(rows: seq<Row<Item>>, row: Row<Item>, other: nat)
    ensures Children(rows + [row], other) == Children(rows, other) + if row.reportId == other then [row.item] else []
  {
    assert (rows + [row])[..|rows|] == rows;
  }

  lemma {:induction false} NoChildren<Item>(rows: seq<Row<Item>>, id: nat)
    requires forall r <- rows :: r.reportId != id
    ensures Children(rows, id) == []
  {
    if rows != [] {
      var front := rows[..|rows| - 1];
      assert forall r <- front :: r in rows;
      NoChildren(front, id);
    }
  }
}
