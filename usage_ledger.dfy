/** The usage ledger of the server: the `tool_usage` table, one row per tool
    id with an auto-increment `id` and a `usage_count`, changed only by the
    insert-or-increment upsert of `POST /api/usage/:toolId` and read back
    whole by `GET /api/usage`. Each request runs as one atomic step. */
module UsageLedger {

  /** One row of `tool_usage`. */
  datatype Row = Row(id: nat, toolId: string, usageCount: nat)

  /** The table as a value: the rows keyed by their unique `tool_id`, and
      the largest `id` ever handed out. The model advances it only on an
      actual insert. */
  datatype Table = Table(rows: map<string, Row>, lastId: nat)

  /** What the schema and the upsert guarantee together: each row sits
      under its own `tool_id` (the UNIQUE constraint), was created with count
      1 and only incremented since, and holds an `id` of its own that the
      sequence has already passed. */
  predicate Consistent(tb: Table) {
    && (forall t :: t in tb.rows ==>
          tb.rows[t].toolId == t && tb.rows[t].usageCount >= 1 && 1 <= tb.rows[t].id <= tb.lastId)
    && (forall t, u :: t in tb.rows && u in tb.rows && tb.rows[t].id == tb.rows[u].id ==> t == u)
  }

  const Empty := Table(map[], 0)

  /** The count the table holds for `t`, 0 when it has no row. */
  function Count(tb: Table, t: string): nat {
    if t in tb.rows then tb.rows[t].usageCount else 0
  }

  /** `INSERT INTO tool_usage (tool_id, usage_count) VALUES (t, 1)
      ON CONFLICT(tool_id) DO UPDATE SET usage_count = usage_count + 1`. */
  function Upsert(tb: Table, t: string): (r: Table)
    ensures r.rows.Keys == tb.rows.Keys + {t}
    ensures Count(r, t) == Count(tb, t) + 1
    ensures r.lastId >= tb.lastId
  {
    if t in tb.rows then
      Table(tb.rows[t := tb.rows[t].(usageCount := tb.rows[t].usageCount + 1)], tb.lastId)
    else
      Table(tb.rows[t := Row(tb.lastId + 1, t, 1)], tb.lastId + 1)
  }

  /** An upsert keeps the table consistent. */
  lemma UpsertConsistent(tb: Table, t: string)
    requires Consistent(tb)
    ensures Consistent(Upsert(tb, t))
  {
    var tb' := Upsert(tb, t);
    assert forall u :: u in tb'.rows && u != t ==> u in tb.rows && tb'.rows[u] == tb.rows[u];
    assert t in tb.rows ==> tb'.rows[t].id == tb.rows[t].id;
    assert t !in tb.rows ==> tb'.rows[t].id == tb.lastId + 1;
  }

  /** One upsert: a new id gets exactly one row with count 1 and an `id`
      above every existing one; an existing row gains exactly 1 and keeps its
      `id`; no other row changes. */
  lemma UpsertEffect(tb: Table, t: string)
    requires Consistent(tb)
    ensures var tb' := Upsert(tb, t);
      && t in tb'.rows
      && Count(tb', t) == Count(tb, t) + 1
      && (t !in tb.rows ==> tb'.rows[t].usageCount == 1 && |tb'.rows| == |tb.rows| + 1
                            && forall u :: u in tb.rows ==> tb.rows[u].id < tb'.rows[t].id)
      && (t in tb.rows ==> tb'.rows[t].id == tb.rows[t].id && |tb'.rows| == |tb.rows|)
      && tb'.rows.Keys == tb.rows.Keys + {t}
      && (forall u :: u != t && u in tb.rows ==> tb'.rows[u] == tb.rows[u])
  {
    var tb' := Upsert(tb, t);
    if t !in tb.rows {
      assert tb'.rows.Keys == tb.rows.Keys + {t};
      assert |tb'.rows.Keys| == |tb.rows.Keys| + 1;
    } else {
      assert tb'.rows.Keys == tb.rows.Keys;
    }
  }

  /** An upsert adds one to the count of its id and no other. */
  lemma UpsertCounts(tb: Table, t: string)
    ensures Count(Upsert(tb, t), t) == Count(tb, t) + 1
    ensures forall u :: u != t ==> Count(Upsert(tb, t), u) == Count(tb, u)
  {
  }

  /** The table after the POSTs `ts`, in order. */
  function Replay(tb: Table, ts: seq<string>): Table
    decreases |ts|
  {
    if ts == [] then tb else Replay(Upsert(tb, ts[0]), ts[1..])
  }

  /** Any run of POSTs keeps the table consistent. */
  lemma {:induction false} ReplayConsistent(tb: Table, ts: seq<string>)
    requires Consistent(tb)
    ensures Consistent(Replay(tb, ts))
    decreases |ts|
  {
    if ts != [] {
      UpsertConsistent(tb, ts[0]);
      ReplayConsistent(Upsert(tb, ts[0]), ts[1..]);
    }
  }

  /** Any run of POSTs adds to each id's count exactly the number of POSTs
      for it, so no count ever goes down. */
  lemma {:induction false} ReplayCounts(tb: Table, ts: seq<string>)
    ensures forall t :: Count(Replay(tb, ts), t) == Count(tb, t) + multiset(ts)[t]
    decreases |ts|
  {
    if ts != [] {
      var t0, rest := ts[0], ts[1..];
      var tb1 := Upsert(tb, t0);
      ReplayCounts(tb1, rest);
      assert Replay(tb, ts) == Replay(tb1, rest);
      assert multiset(ts) == multiset{t0} + multiset(rest) by {
        assert ts == [t0] + rest;
      }
      UpsertCounts(tb, t0);
      forall t ensures Count(Replay(tb, ts), t) == Count(tb, t) + multiset(ts)[t] {
        assert Count(Replay(tb, ts), t) == Count(tb1, t) + multiset(rest)[t];
      }
    }
  }

  /** Any run of POSTs gives a row to exactly the ids it posts besides the
      ones already there, and never changes the `id` of an existing row. */
  lemma {:induction false} ReplayRows(tb: Table, ts: seq<string>)
    ensures Replay(tb, ts).rows.Keys == tb.rows.Keys + (set t | t in ts)
    ensures forall t :: t in tb.rows ==> Replay(tb, ts).rows[t].id == tb.rows[t].id
    decreases |ts|
  {
    if ts != [] {
      var t0 := ts[0];
      var tb1 := Upsert(tb, t0);
      assert tb1.rows.Keys == tb.rows.Keys + {t0};
      ReplayRows(tb1, ts[1..]);
      var tb' := Replay(tb, ts);
      assert tb' == Replay(tb1, ts[1..]);
      assert (set t | t in ts) == {t0} + set t | t in ts[1..];
      assert tb'.rows.Keys == tb1.rows.Keys + set t | t in ts[1..];
      forall t | t in tb.rows ensures tb'.rows[t].id == tb.rows[t].id {
        assert tb1.rows[t].id == tb.rows[t].id;
      }
    }
  }

  /** k POSTs for an id with no row leave exactly one row for it, with
      count k. */
  lemma RepeatedPosts(tb: Table, t: string, k: nat)
    requires Consistent(tb) && t !in tb.rows
    ensures var tb' := Replay(tb, seq(k, _ => t));
      k >= 1 ==> t in tb'.rows && tb'.rows[t].usageCount == k && tb'.rows[t].toolId == t
  {
    var ts := seq(k, _ => t);
    ReplayCounts(tb, ts);
    ReplayRows(tb, ts);
    ReplayConsistent(tb, ts);
    assert multiset(ts)[t] == k by { MultisetOfCopies(t, k); }
    if k >= 1 { assert t in ts; }
  }

  lemma {:induction false} MultisetOfCopies(t: string, k: nat)
    ensures multiset(seq(k, _ => t))[t] == k
  {
    if k > 0 {
      MultisetOfCopies(t, k - 1);
      assert seq(k, _ => t) == seq(k - 1, _ => t) + [t];
    }
  }

  /** An HTTP request reaching the API routes. */
  datatype Request = Get(path: string) | Post(path: string)

  /** The JSON bodies the routes answer with; `NotHandled` stands for a
      request that falls through to the static or development server. */
  datatype Response =
    | Health(status: string)
    | Rows(rows: seq<Row>)
    | Success(success: bool)
    | NotHandled

  const UsagePrefix := "/api/usage/"

  /** The tool id of a `POST /api/usage/:toolId` path, taken as already
      percent-decoded: what follows the prefix. */
  function ToolIdOf(path: string): (r: string)
    requires UsagePrefix <= path
    ensures path == UsagePrefix + r
  {
    path[|UsagePrefix|..]
  }

  predicate IsToolPath(path: string) {
    UsagePrefix <= path && |path| > |UsagePrefix| && '/' !in ToolIdOf(path)
  }

  /** The rows of `rows`, each once, in whatever order the keys are taken;
      each row sits under its own `toolId`. */
  method RowsOf(rows: map<string, Row>) returns (r: seq<Row>)
    requires forall t :: t in rows ==> rows[t].toolId == t
    ensures |r| == |rows|
    ensures forall i :: 0 <= i < |r| ==> r[i].toolId in rows && rows[r[i].toolId] == r[i]
    ensures forall t :: t in rows ==> rows[t] in r
    ensures forall i, j :: 0 <= i < j < |r| ==> r[i].toolId != r[j].toolId
  {
    r := [];
    var left := rows.Keys;
    while left != {}
      invariant left <= rows.Keys
      invariant |r| + |left| == |rows|
      invariant forall i :: 0 <= i < |r| ==> r[i].toolId in rows.Keys - left && rows[r[i].toolId] == r[i]
      invariant forall t :: t in rows.Keys - left ==> rows[t] in r
      invariant forall i, j :: 0 <= i < j < |r| ==> r[i].toolId != r[j].toolId
      decreases left
    {
      var t :| t in left;
      r := r + [rows[t]];
      left := left - {t};
    }
  }

  /** The live `tool_usage` table. */
  class UsageStore {
    var rows: map<string, Row>
    var lastId: nat

    function Snapshot(): Table
      reads this
    {
      Table(rows, lastId)
    }

    ghost predicate Valid()
      reads this
    {
      Consistent(Snapshot())
    }

    /** `CREATE TABLE IF NOT EXISTS tool_usage`, on a new database. */
    constructor ()
      ensures Valid() && Snapshot() == Empty
    {
      rows := map[];
      lastId := 0;
    }

    /** `POST /api/usage/:toolId`: one atomic upsert. */
    method RecordUsage(toolId: string)
      requires Valid()
      modifies this
      ensures Valid()
      ensures Snapshot() == Upsert(old(Snapshot()), toolId)
      ensures Count(Snapshot(), toolId) == Count(old(Snapshot()), toolId) + 1
      ensures forall u :: u != toolId ==> Count(Snapshot(), u) == Count(old(Snapshot()), u)
    {
      ghost var before := Snapshot();
      if toolId in rows {
        rows := rows[toolId := rows[toolId].(usageCount := rows[toolId].usageCount + 1)];
      } else {
        lastId := lastId + 1;
        rows := rows[toolId := Row(lastId, toolId, 1)];
      }
      assert Snapshot() == Upsert(before, toolId);
      UpsertConsistent(before, toolId);
      UpsertCounts(before, toolId);
    }

    /** `SELECT * FROM tool_usage`: every row exactly once, in no particular
        order; nothing changes. */
    method ListUsage() returns (r: seq<Row>)
      requires Valid()
      ensures |r| == |rows|
      ensures forall i :: 0 <= i < |r| ==> r[i].toolId in rows && rows[r[i].toolId] == r[i]
      ensures forall t :: t in rows ==> rows[t] in r
      ensures forall i, j :: 0 <= i < j < |r| ==> r[i].toolId != r[j].toolId
    {
      r := RowsOf(rows);
    }

    /** The three API routes. */
    method Handle(req: Request) returns (resp: Response)
      requires Valid()
      modifies this
      ensures Valid()
      ensures req == Get("/api/health") ==> resp == Health("ok") && Snapshot() == old(Snapshot())
      ensures req == Get("/api/usage") ==>
        resp.Rows? && Snapshot() == old(Snapshot()) && |resp.rows| == |rows|
        && (forall t :: t in rows ==> rows[t] in resp.rows)
        && (forall i :: 0 <= i < |resp.rows| ==> resp.rows[i] in rows.Values)
      ensures req.Post? && IsToolPath(req.path) ==>
        resp == Success(true) && Snapshot() == Upsert(old(Snapshot()), ToolIdOf(req.path))
      ensures !(req.Post? && IsToolPath(req.path)) ==> Snapshot() == old(Snapshot())
      ensures req.Get? && req.path != "/api/health" && req.path != "/api/usage" ==> resp == NotHandled
      ensures req.Post? && !IsToolPath(req.path) ==> resp == NotHandled
    {
      match req
      case Get(path) =>
        if path == "/api/health" {
          resp := Health("ok");
        } else if path == "/api/usage" {
          var all := ListUsage();
          resp := Rows(all);
        } else {
          resp := NotHandled;
        }
      case Post(path) =>
        if IsToolPath(path) {
          RecordUsage(ToolIdOf(path));
          resp := Success(true);
        } else {
          resp := NotHandled;
        }
    }
  }
}
