/**
 * How `api_metrics_post` turns a batch of metrics into rows of the `metrics`
 * table: metric names are resolved to ids through a map filled from one lookup
 * and, for names still missing, from one conflict-guarded insert each.
 */
module ServerIngest {
  import opened Agent

  /**
   * The `metric_names` table: each name's id, and the id its sequence hands out
   * next. Names are unique (the insert's `ON CONFLICT (name)` relies on it).
   */
  datatype NameTable = NameTable(ids: map<string, int>, nextId: int)
  {
    /** Ids are positive, below the next one, and never shared. */
    predicate Valid() {
      && nextId > 0
      && (forall n :: n in ids ==> 0 < ids[n] < nextId)
      && (forall a, b :: a in ids && b in ids && a != b ==> ids[a] != ids[b])
    }
  }

  /** A row of the existing-name lookup. */
  datatype NameRow = NameRow(id: int, name: string)

  /** A row written to the `metrics` table. */
  datatype MetricRow = MetricRow(metricId: int, value: real, recordedAt: int)

  /** The batch's names, in input order. */
  function Names(metrics: seq<Metric>): (names: seq<string>)
    ensures |names| == |metrics|
    ensures forall i :: 0 <= i < |metrics| ==> names[i] == metrics[i].name
  {
    if |metrics| == 0 then [] else [metrics[0].name] + Names(metrics[1..])
  }

  /**
   * `SELECT id, name FROM metric_names WHERE name = ANY($1)`: one row per
   * stored name that occurs in the batch, with its stored id. The order the
   * database returns them in is not fixed; the model takes them in batch order.
   */
  function Matching(table: NameTable, names: seq<string>): (rows: seq<NameRow>)
    ensures forall r :: r in rows ==> r.name in names && r.name in table.ids && r.id == table.ids[r.name]
    ensures forall n :: n in names && n in table.ids ==> NameRow(table.ids[n], n) in rows
    ensures forall i, j :: 0 <= i < j < |rows| ==> rows[i].name != rows[j].name
  {
    if |names| == 0 then []
    else
      var rest := Matching(table, names[1..]);
      if names[0] in table.ids && names[0] !in names[1..] then [NameRow(table.ids[names[0]], names[0])] + rest
      else rest
  }

  /** The lookup's result, `unwrap_or(Vec::new())`: no rows when the query fails. */
  function Lookup(table: NameTable, names: seq<string>, ok: bool): seq<NameRow> {
    if ok then Matching(table, names) else []
  }

  /** What one insert returns, and the table after it. */
  datatype Inserted = Inserted(id: int, table: NameTable)

  /**
   * `INSERT … ON CONFLICT (name) DO NOTHING RETURNING id` with `fetch_one` and
   * `unwrap_or((0,))`: a name already stored returns no row, and a failing
   * statement returns an error; both give id 0 and leave the table as it was.
   * Otherwise the name is stored under a fresh id.
   */
  function InsertName(table: NameTable, name: string, fails: bool): (r: Inserted)
    requires table.Valid()
    ensures r.table.Valid()
    ensures r.id != 0 <==> name !in table.ids && !fails
    ensures r.id == 0 ==> r.table == table
    ensures r.id != 0 ==> r.table.ids == table.ids[name := r.id]
    ensures r.id != 0 ==> forall n :: n in table.ids ==> table.ids[n] != r.id
  {
    if name in table.ids || fails then Inserted(0, table)
    else Inserted(table.nextId, NameTable(table.ids[name := table.nextId], table.nextId + 1))
  }

  /** A name the lookup returned: stored before the batch, and the lookup did not fail. */
  predicate Found(table: NameTable, lookupOk: bool, n: string) {
    lookupOk && n in table.ids
  }

  /**
   * The map after the lookup rows and the first `i` names: found names carry
   * their stored ids, every key is a batch name that was found or got an insert,
   * every name seen has an entry, and a name that got an insert maps to 0
   * exactly when the insert failed or met a stored name.
   */
  ghost predicate MapSoFar(table: NameTable, lookupOk: bool, failing: set<string>, names: seq<string>, i: nat,
                           m: map<string, int>, attempted: seq<string>)
    requires i <= |names|
  {
    && (forall n :: n in names && Found(table, lookupOk, n) ==> n in m && m[n] == table.ids[n])
    && (forall n :: n in m ==> n in names && (Found(table, lookupOk, n) || n in attempted))
    && (forall j :: 0 <= j < i ==> names[j] in m)
    && (forall n :: n in attempted ==> n in m && (m[n] == 0 <==> n in failing || n in table.ids))
  }

  /** The inserts issued for the first `i` names: each name seen and not found, once, in order. */
  ghost predicate AttemptsSoFar(table: NameTable, lookupOk: bool, names: seq<string>, i: nat, attempted: seq<string>)
    requires i <= |names|
  {
    && (forall n :: n in attempted <==> n in names[..i] && !Found(table, lookupOk, n))
    && (forall a, b :: 0 <= a < b < |attempted| ==> attempted[a] != attempted[b])
  }

  /** The table so far: the old names unchanged, plus the names whose insert returned an id. */
  ghost predicate TableSoFar(table: NameTable, m: map<string, int>, attempted: seq<string>, t: NameTable) {
    && t.Valid()
    && (forall n :: n in t.ids <==> n in table.ids || (n in attempted && n in m && m[n] != 0))
    && (forall n :: n in table.ids ==> t.ids[n] == table.ids[n])
    && (forall n :: n in attempted && n in m && m[n] != 0 ==> t.ids[n] == m[n])
  }

  /** The loop state of name resolution after the lookup rows and the first `i` names. */
  ghost predicate Resolving(table: NameTable, lookupOk: bool, failing: set<string>, names: seq<string>, i: nat,
                            m: map<string, int>, attempted: seq<string>, t: NameTable)
    requires i <= |names|
  {
    && MapSoFar(table, lookupOk, failing, names, i, m, attempted)
    && AttemptsSoFar(table, lookupOk, names, i, attempted)
    && TableSoFar(table, m, attempted, t)
  }

  /** Before any name is seen: the map holds exactly the rows the lookup returned. */
  lemma ResolveStart(table: NameTable, lookupOk: bool, failing: set<string>, names: seq<string>, m: map<string, int>)
    requires table.Valid()
    requires forall n :: n in m ==> n in names && Found(table, lookupOk, n) && m[n] == table.ids[n]
    requires forall n :: n in names && Found(table, lookupOk, n) ==> n in m
    ensures Resolving(table, lookupOk, failing, names, 0, m, [], table)
  {
  }

  /** A name already in the map is passed over. */
  lemma ResolveSeen(table: NameTable, lookupOk: bool, failing: set<string>, names: seq<string>, i: nat,
                    m: map<string, int>, attempted: seq<string>, t: NameTable)
    requires i < |names| && Resolving(table, lookupOk, failing, names, i, m, attempted, t)
    requires names[i] in m
    ensures Resolving(table, lookupOk, failing, names, i + 1, m, attempted, t)
  {
    assert names[..i + 1] == names[..i] + [names[i]];
  }

  lemma InsertMap(table: NameTable, lookupOk: bool, failing: set<string>, names: seq<string>, i: nat,
                  m: map<string, int>, attempted: seq<string>, id: int)
    requires i < |names| && MapSoFar(table, lookupOk, failing, names, i, m, attempted)
    requires names[i] !in m && !Found(table, lookupOk, names[i])
    requires id == 0 <==> names[i] in failing || names[i] in table.ids
    ensures MapSoFar(table, lookupOk, failing, names, i + 1, m[names[i] := id], attempted + [names[i]])
  {
  }

  lemma InsertAttempts(table: NameTable, lookupOk: bool, names: seq<string>, i: nat, attempted: seq<string>)
    requires i < |names| && AttemptsSoFar(table, lookupOk, names, i, attempted)
    requires names[i] !in attempted && !Found(table, lookupOk, names[i])
    ensures AttemptsSoFar(table, lookupOk, names, i + 1, attempted + [names[i]])
  {
    var attempted' := attempted + [names[i]];
    assert names[..i + 1] == names[..i] + [names[i]];
    forall a, b | 0 <= a < b < |attempted'|
      ensures attempted'[a] != attempted'[b]
    {
      if b == |attempted| {
        assert attempted'[a] == attempted[a];
      }
    }
  }

  lemma InsertTable(table: NameTable, m: map<string, int>, attempted: seq<string>, t: NameTable, name: string, fails: bool)
    requires TableSoFar(table, m, attempted, t)
    requires name !in attempted && name !in m
    ensures var r := InsertName(t, name, fails);
      TableSoFar(table, m[name := r.id], attempted + [name], r.table)
  {
    var r := InsertName(t, name, fails);
    var m', attempted' := m[name := r.id], attempted + [name];
    forall n
      ensures n in r.table.ids <==> n in table.ids || (n in attempted' && n in m' && m'[n] != 0)
      ensures n in table.ids ==> r.table.ids[n] == table.ids[n]
      ensures n in attempted' && n in m' && m'[n] != 0 ==> r.table.ids[n] == m'[n]
    {
      if n != name {
        assert n in attempted' <==> n in attempted;
        assert n in m' <==> n in m;
      }
    }
    assert r.table.Valid();
  }

  /** A name missing from the map gets one insert, and its result goes into the map. */
  lemma ResolveInsert(table: NameTable, lookupOk: bool, failing: set<string>, names: seq<string>, i: nat,
                      m: map<string, int>, attempted: seq<string>, t: NameTable)
    requires i < |names| && Resolving(table, lookupOk, failing, names, i, m, attempted, t)
    requires names[i] !in m
    ensures var name := names[i];
      var r := InsertName(t, name, name in failing);
      Resolving(table, lookupOk, failing, names, i + 1, m[name := r.id], attempted + [name], r.table)
  {
    var name := names[i];
    var r := InsertName(t, name, name in failing);
    assert name !in attempted && !Found(table, lookupOk, name);
    assert name in t.ids <==> name in table.ids;
    InsertMap(table, lookupOk, failing, names, i, m, attempted, r.id);
    InsertAttempts(table, lookupOk, names, i, attempted);
    InsertTable(table, m, attempted, t, name, name in failing);
  }

  /**
   * Name resolution once every name has been seen: every batch name, and no
   * other, has an entry; names the lookup returned keep their stored id and get
   * no insert; every other name gets exactly one insert, which yields 0 when it
   * fails or meets a stored name; and the table keeps its names and gains the
   * names inserted, under the ids they were given.
   */
  ghost predicate Resolved(table: NameTable, lookupOk: bool, failing: set<string>, names: seq<string>,
                           resolved: map<string, int>, attempted: seq<string>, table': NameTable)
  {
    && table'.Valid()
    && (forall n :: n in resolved <==> n in names)
    && (forall n :: n in resolved && Found(table, lookupOk, n) ==> resolved[n] == table.ids[n] && n !in attempted)
    && (forall n :: n in attempted <==> n in names && !Found(table, lookupOk, n))
    && (forall a, b :: 0 <= a < b < |attempted| ==> attempted[a] != attempted[b])
    && (forall n :: n in attempted ==> n in resolved && (resolved[n] == 0 <==> n in failing || n in table.ids))
    && (forall n :: n in table'.ids <==> n in table.ids || (n in attempted && n in resolved && resolved[n] != 0))
    && (forall n :: n in table.ids ==> table'.ids[n] == table.ids[n])
    && (forall n :: n in attempted && n in resolved && resolved[n] != 0 ==> table'.ids[n] == resolved[n])
  }

  /** Once every name has been seen, resolution is complete. */
  lemma ResolveDone(table: NameTable, lookupOk: bool, failing: set<string>, names: seq<string>,
                    m: map<string, int>, attempted: seq<string>, t: NameTable)
    requires Resolving(table, lookupOk, failing, names, |names|, m, attempted, t)
    ensures Resolved(table, lookupOk, failing, names, m, attempted, t)
  {
    assert names[..|names|] == names;
    forall n | n in names
      ensures n in m
    {
      var j :| 0 <= j < |names| && names[j] == n;
    }
  }

  /**
   * What the ids written mean: a nonzero id is the name's id in the table
   * afterwards, so no two names share one; and when the lookup failed, every
   * name that was already stored meets the conflict guard and is written with
   * id 0.
   */
  lemma ResolvedIds(table: NameTable, lookupOk: bool, failing: set<string>, names: seq<string>,
                    resolved: map<string, int>, attempted: seq<string>, table': NameTable)
    requires table.Valid()
    requires Resolved(table, lookupOk, failing, names, resolved, attempted, table')
    ensures forall n :: n in resolved && resolved[n] != 0 ==> n in table'.ids && table'.ids[n] == resolved[n]
    ensures forall a, b :: a in resolved && b in resolved && a != b && resolved[a] != 0 ==> resolved[a] != resolved[b]
    ensures !lookupOk ==> forall n :: n in resolved && n in table.ids ==> resolved[n] == 0
  {
    forall n | n in resolved && resolved[n] != 0
      ensures n in table'.ids && table'.ids[n] == resolved[n]
    {
      if !Found(table, lookupOk, n) {
        assert n in attempted;
      }
    }
  }

  /** The first loop: each lookup row puts its name and id into the map. */
  method FillFromRows(rows: seq<NameRow>) returns (m: map<string, int>)
    ensures forall r :: r in rows ==> r.name in m
    ensures forall n :: n in m ==> NameRow(m[n], n) in rows
  {
    m := map[];
    for i := 0 to |rows|
      invariant forall j :: 0 <= j < i ==> rows[j].name in m
      invariant forall n :: n in m ==> NameRow(m[n], n) in rows
    {
      m := m[rows[i].name := rows[i].id];
    }
  }

  /**
   * The second loop: each batch name not yet in the map gets one insert, whose
   * id (0 when it returns nothing) goes into the map at once.
   */
  method InsertMissing(table: NameTable, lookupOk: bool, failing: set<string>, names: seq<string>, m0: map<string, int>)
    returns (m: map<string, int>, attempted: seq<string>, t: NameTable)
    requires table.Valid()
    requires forall n :: n in m0 ==> n in names && Found(table, lookupOk, n) && m0[n] == table.ids[n]
    requires forall n :: n in names && Found(table, lookupOk, n) ==> n in m0
    ensures Resolved(table, lookupOk, failing, names, m, attempted, t)
  {
    m, attempted, t := m0, [], table;
    ResolveStart(table, lookupOk, failing, names, m);
    for i := 0 to |names|
      invariant Resolving(table, lookupOk, failing, names, i, m, attempted, t)
    {
      var name := names[i];
      if name in m {
        ResolveSeen(table, lookupOk, failing, names, i, m, attempted, t);
      } else {
        ResolveInsert(table, lookupOk, failing, names, i, m, attempted, t);
        var r := InsertName(t, name, name in failing);
        m := m[name := r.id];
        attempted := attempted + [name];
        t := r.table;
      }
    }
    ResolveDone(table, lookupOk, failing, names, m, attempted, t);
  }

  /**
   * `api_metrics_post` up to the final insert: the name→id map, the names an
   * insert was issued for, the name table afterwards, and the rows written,
   * one per metric in input order, all stamped with the same `now`. The lookup
   * may fail (`lookupOk` false), and so may the insert of each name in
   * `failing`.
   */
  method PostMetrics(table: NameTable, metrics: seq<Metric>, lookupOk: bool, failing: set<string>, now: int)
    returns (resolved: map<string, int>, attempted: seq<string>, table': NameTable, rows: seq<MetricRow>)
    requires table.Valid()
    ensures Resolved(table, lookupOk, failing, Names(metrics), resolved, attempted, table')
    ensures |rows| == |metrics|
    ensures forall i :: 0 <= i < |metrics| ==>
      metrics[i].name in resolved && rows[i] == MetricRow(resolved[metrics[i].name], metrics[i].value, now)
  {
    var names := Names(metrics);
    var found := Lookup(table, names, lookupOk);
    var m := FillFromRows(found);
    assert forall n :: n in names && Found(table, lookupOk, n) ==> NameRow(table.ids[n], n) in found;
    resolved, attempted, table' := InsertMissing(table, lookupOk, failing, names, m);
    assert forall i :: 0 <= i < |metrics| ==> metrics[i].name in names;
    var ids := seq(|metrics|, i requires 0 <= i < |metrics| => resolved[metrics[i].name]);
    var values := seq(|metrics|, i requires 0 <= i < |metrics| => metrics[i].value);
    rows := seq(|metrics|, i requires 0 <= i < |metrics| => MetricRow(ids[i], values[i], now));
  }
}
