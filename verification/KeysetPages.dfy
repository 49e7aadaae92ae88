/** The three keyset walks of the repositories, as instances of one walk. */
module KeysetPages {
  import opened Wrappers
  import opened Keyset

  // ---------- the database side ----------

  ghost predicate Fetches(dir: Direction, rows: set<Row>, limit: nat, batch: seq<Row>) {
    var all := Order(dir, rows);
    batch == if |all| <= limit then all else all[..limit]
  }

  predicate IsFirst(dir: Direction, rows: set<Row>, r: Row) {
    r in rows && forall x | x in rows :: x == r || Ahead(dir, r, x)
  }

  // ORDER BY .. LIMIT: takes the first remaining row until the limit is reached.
  method Select(dir: Direction, rows: set<Row>, limit: nat) returns (batch: seq<Row>)
    ensures Fetches(dir, rows, limit, batch)
  {
    batch := [];
    var rest := rows;
    ghost var all := Order(dir, rows);
    while rest != {} && |batch| < limit
      invariant rest <= rows
      invariant |batch| <= limit && |batch| <= |all| && batch == all[..|batch|]
      invariant forall x :: x in rest <==> x in all[|batch|..]
      decreases rest
    {
      ghost var witness' := FirstExists(dir, rest);
      assert IsFirst(dir, rest, witness');
      var r :| IsFirst(dir, rest, r);
      FirstIsNext(dir, all, |batch|, rest, r);
      batch := batch + [r];
      rest := rest - {r};
    }
    RestEmpty(all, |batch|, rest);
  }

  lemma RestEmpty(all: seq<Row>, n: nat, rest: set<Row>)
    requires n <= |all|
    requires forall x :: x in rest <==> x in all[n..]
    ensures n == |all| <==> rest == {}
  {
    if n < |all| {
      assert all[n..][0] in rest;
    }
  }

  lemma FirstIsNext(dir: Direction, all: seq<Row>, n: nat, rest: set<Row>, r: Row)
    requires Sorted(dir, all) && n <= |all|
    requires forall x :: x in rest <==> x in all[n..]
    requires IsFirst(dir, rest, r)
    ensures n < |all| && all[n] == r
    ensures forall x :: x in rest - {r} <==> x in all[n + 1..]
  {
    var k :| 0 <= k < |all[n..]| && all[n..][k] == r;
    assert all[n..][0] in rest;
    assert k > 0 ==> Ahead(dir, all[n], all[n + k]);
    forall x ensures x in rest - {r} <==> x in all[n + 1..] {
      if x in rest - {r} {
        var m :| 0 <= m < |all[n..]| && all[n..][m] == x;
        assert all[n + 1..][m - 1] == x;
      }
      if x in all[n + 1..] {
        var m :| 0 <= m < |all[n + 1..]| && all[n + 1..][m] == x;
        assert all[n..][m + 1] == x && Ahead(dir, all[n], all[n + 1 + m]);
      }
    }
  }

  // ---------- notifications ----------

  // Times count from Go's zero time, so 0 is the time whose cursor reads as "no cursor".
  const ZERO_TIME := 0

  function PageSize(first: int): nat {
    if first <= 0 || first > 100 then 50 else first
  }

  function Notifications(first: int): Paging {
    Paging(Descending, PageSize(first), true, (r: Row) => r.key == ZERO_TIME)
  }

  // Repository.List: one row more than the page is fetched; if it came, the page's last row is the next cursor.
  method ListPage(table: set<Row>, first: int, after: Option<Row>, ghost before: seq<Row>)
    returns (page: seq<Row>, next: Option<Row>)
    ensures var p := Notifications(first);
            var turn := Turn(p, Eligible(p, table, after), Walk(after, before, false));
            before + page == turn.visited && next == if turn.done then None else turn.cursor
  {
    var size := PageSize(first);
    var eligible := if after.Some? && after.value.key != ZERO_TIME
                    then set r | r in table && Beyond(Descending, after.value, r) else table;
    page := Select(Descending, eligible, size + 1);
    next := None;
    if |page| > size {
      page := page[..size];
      next := Some(page[|page| - 1]);
    }
  }

  // A page that is not the last ends at a notification of time zero.
  ghost predicate EndsAtZero(size: nat, rows: seq<Row>) {
    exists j: nat :: 0 < Start(size, j) < |rows| && rows[Start(size, j) - 1].key == ZERO_TIME
  }

  // Following the cursors shows every notification once and newest first, unless that happens.
  lemma ListVisitsAll(first: int, table: set<Row>)
    ensures var p := Notifications(first);
            var rows := Order(Descending, table);
            && ((exists steps: nat :: After(p, table, steps).done) <==> !EndsAtZero(p.size, rows))
            && (!EndsAtZero(p.size, rows) ==>
                After(p, table, |table| + 1).done && After(p, table, |table| + 1).visited == rows)
  {
    var p := Notifications(first);
    var rows := Order(Descending, table);
    WalkCompletesIff(p, table);
    if EndsAtZero(p.size, rows) {
      var j: nat :| 0 < Start(p.size, j) < |rows| && rows[Start(p.size, j) - 1].key == ZERO_TIME;
      assert Boundary(p, |rows|, j) && VoidAt(p, rows, j);
    }
    if Stuck(p, rows) {
      var j: nat :| Boundary(p, |rows|, j) && VoidAt(p, rows, j);
      assert 0 < Start(p.size, j) < |rows| && rows[Start(p.size, j) - 1].key == ZERO_TIME;
    }
  }

  // ---------- records ----------

  // The repository's own contract, for a caller that hands back the last row's very
  // sort value and URI; RecordConnection states what the API's cursors make of it.
  // Text ranks: 0 is the empty string, the least text.  The cursor is ignored only
  // when its sort value and its URI are both empty.
  function Records(dir: Direction, pageSize: nat): Paging {
    Paging(dir, pageSize, true, (r: Row) => r.key == 0 && r.id == 0)
  }

  ghost predicate ByText(table: set<Row>) {
    forall r | r in table :: r.key >= 0 && r.id >= 0
  }

  // The one table the walk never gets through: ascending pages of one record, the
  // first of several having both an empty sort value and an empty URI.
  ghost predicate StartsVoid(dir: Direction, pageSize: nat, table: set<Row>) {
    dir.Ascending? && pageSize == 1 && |table| > 1 && Row(0, 0) in table
  }

  lemma FirstAhead(dir: Direction, rows: seq<Row>, i: nat)
    requires Sorted(dir, rows) && i < |rows|
    ensures i == 0 || Ahead(dir, rows[0], rows[i])
  {
  }

  lemma StartsVoidIffStuck(dir: Direction, pageSize: nat, table: set<Row>)
    requires pageSize >= 1 && ByText(table)
    ensures StartsVoid(dir, pageSize, table) <==> Stuck(Records(dir, pageSize), Order(dir, table))
  {
    var p := Records(dir, pageSize);
    var rows := Order(dir, table);
    if StartsVoid(dir, pageSize, table) {
      var k :| 0 <= k < |rows| && rows[k] == Row(0, 0);
      assert rows[0] in table;
      FirstAhead(dir, rows, k);
      assert Start(p.size, 1) == Start(p.size, 0) + 1 == 1;
      assert Boundary(p, |rows|, 1) && VoidAt(p, rows, 1);
    }
    if Stuck(p, rows) {
      var j: nat :| Boundary(p, |rows|, j) && VoidAt(p, rows, j);
      var i := Start(p.size, j) - 1;
      assert rows[i] == Row(0, 0) && rows[i] in table && rows[i + 1] in table && Ahead(dir, rows[i], rows[i + 1]);
      assert rows[0] in table;
      FirstAhead(dir, rows, i);
      StartGrows(p.size, j);
      assert Start(p.size, 1) == Start(p.size, 0) + p.size == p.size;
      StartMonotone(p.size, 1, j);
    }
  }

  // Every record with a sort value is visited once and in order, in either
  // direction and for any page size, exactly when that is not the case.
  lemma {:induction false} RecordsVisitAllIff(dir: Direction, pageSize: nat, table: set<Row>)
    requires pageSize >= 1 && ByText(table)
    ensures var p := Records(dir, pageSize);
            && ((exists steps: nat :: After(p, table, steps).done) <==> !StartsVoid(dir, pageSize, table))
            && (!StartsVoid(dir, pageSize, table) ==>
                After(p, table, |table| + 1).done && After(p, table, |table| + 1).visited == Order(dir, table))
  {
    StartsVoidIffStuck(dir, pageSize, table);
    WalkCompletesIff(Records(dir, pageSize), table);
  }

  // ---------- IterateAll ----------

  const DEFAULT_ITERATE_BATCH_SIZE: nat := 1000

  function BatchSize(batchSize: int): nat {
    if batchSize <= 0 then DEFAULT_ITERATE_BATCH_SIZE else batchSize
  }

  // Ordered by URI alone; it stops on a short batch and never looks ahead.
  function AllRecords(batchSize: int): Paging {
    Paging(Ascending, BatchSize(batchSize), false, (r: Row) => r.id == 0)
  }

  ghost predicate ByUri(table: set<Row>) {
    forall r | r in table :: r.key == 0 && r.id >= 0
  }

  // The one table IterateAll never gets through: batch size 1 and a record with the empty URI.
  ghost predicate Loops(batchSize: int, table: set<Row>) {
    BatchSize(batchSize) == 1 && Row(0, 0) in table
  }

  lemma LeastFirst(rows: seq<Row>, k: nat)
    requires Sorted(Ascending, rows) && k < |rows| && rows[0].key == rows[k].key
    ensures rows[0].id <= rows[k].id && (rows[0].id == rows[k].id ==> k == 0)
  {
    if k > 0 {
      assert Ahead(Ascending, rows[0], rows[k]);
    }
  }

  lemma LoopsIffStuck(batchSize: int, table: set<Row>)
    requires ByUri(table)
    ensures Loops(batchSize, table) <==> Stuck(AllRecords(batchSize), Order(Ascending, table))
  {
    var p := AllRecords(batchSize);
    var rows := Order(Ascending, table);
    if Loops(batchSize, table) {
      var k :| 0 <= k < |rows| && rows[k] == Row(0, 0);
      LeastFirst(rows, k);
      assert rows[0] in table;
      assert Start(p.size, 1) == Start(p.size, 0) + 1 == 1;
      assert Boundary(p, |rows|, 1) && VoidAt(p, rows, 1);
    }
    if Stuck(p, rows) {
      var j: nat :| Boundary(p, |rows|, j) && VoidAt(p, rows, j);
      var i := Start(p.size, j) - 1;
      assert rows[i] in table && rows[i].id == 0;
      LeastFirst(rows, i);
      assert rows[0] in table;
      StartGrows(p.size, j);
      assert Start(p.size, 1) == Start(p.size, 0) + p.size == p.size;
      StartMonotone(p.size, 1, j);
    }
  }

  // For every other table it ends, having handed each record once, in URI order.
  lemma IterateAllTerminatesIff(batchSize: int, table: set<Row>)
    requires ByUri(table)
    ensures var p := AllRecords(batchSize);
            && ((exists steps: nat :: After(p, table, steps).done) <==> !Loops(batchSize, table))
            && (!Loops(batchSize, table) ==> After(p, table, |table| + 1).visited == Order(Ascending, table))
  {
    LoopsIffStuck(batchSize, table);
    WalkCompletesIff(AllRecords(batchSize), table);
  }

  // The inner loop: the caller's function on each record of a batch, up to the first error.
  method Process(records: seq<Row>, fails: Row -> bool) returns (count: nat, failed: bool)
    ensures count <= |records| && forall i | 0 <= i < count :: !fails(records[i])
    ensures if failed then count < |records| && fails(records[count]) else count == |records|
  {
    count, failed := 0, false;
    while count < |records|
      invariant count <= |records|
      invariant forall i | 0 <= i < count :: !fails(records[i])
    {
      if fails(records[count]) {
        return count, true;
      }
      count := count + 1;
    }
  }

  // WHERE r.uri > lastURI, or no condition while lastURI is empty.
  function Following(table: set<Row>, lastUri: int): set<Row> {
    if lastUri == 0 then table else (set r | r in table && Beyond(Ascending, Row(0, lastUri), r))
  }

  // The batch fetched after the first `from` records of the list.
  lemma NextBatch(table: set<Row>, from: nat, lastUri: int, size: nat, records: seq<Row>)
    requires ByUri(table) && from <= |table|
    requires var rows := Order(Ascending, table);
             if from == 0 then lastUri == 0 else lastUri == rows[from - 1].id && lastUri != 0
    requires Fetches(Ascending, Following(table, lastUri), size, records)
    ensures var rows := Order(Ascending, table);
            records == if from + size <= |rows| then rows[from..from + size] else rows[from..]
  {
    var rows := Order(Ascending, table);
    if from > 0 {
      assert rows[from - 1] in table;
      BeyondIsRest(Ascending, table, from);
    }
    assert rows[0..] == rows;
    if from + size <= |rows| {
      assert rows[from..][..size] == rows[from..from + size];
    }
  }

  // A full batch never ends in the empty URI unless the table loops.
  lemma FullBatchGoesOn(table: set<Row>, batchSize: int, rows: seq<Row>, k: nat)
    requires ByUri(table) && !Loops(batchSize, table) && rows == Order(Ascending, table)
    requires BatchSize(batchSize) <= k <= |rows| && k > 0
    ensures rows[k - 1].id != 0
  {
    assert rows[k - 1] in table && rows[0] in table;
    LeastFirst(rows, k - 1);
  }

  // What one round of the loop may rely on.
  lemma Round(table: set<Row>, batchSize: int, rows: seq<Row>, from: nat, lastUri: int, records: seq<Row>)
    requires ByUri(table) && !Loops(batchSize, table) && rows == Order(Ascending, table) && from <= |rows|
    requires if from == 0 then lastUri == 0 else lastUri == rows[from - 1].id && lastUri != 0
    requires Fetches(Ascending, Following(table, lastUri), BatchSize(batchSize), records)
    ensures from + |records| <= |rows| && records == rows[from..from + |records|]
    ensures |records| < BatchSize(batchSize) ==> from + |records| == |rows|
    ensures |records| >= BatchSize(batchSize) ==> rows[from + |records| - 1].id != 0
  {
    var size := BatchSize(batchSize);
    NextBatch(table, from, lastUri, size, records);
    if from + size <= |rows| {
      FullBatchGoesOn(table, batchSize, rows, from + size);
    } else {
      assert rows[from..] == rows[from..|rows|];
    }
  }

  lemma TakeMore(rows: seq<Row>, from: nat, records: seq<Row>, count: nat)
    requires count <= |records| && from + |records| <= |rows| && records == rows[from..from + |records|]
    ensures rows[..from] + records[..count] == rows[..from + count]
  {
  }

  // The loop itself.  `fails` tells on which record the caller's function returns an error.
  method IterateAll(table: set<Row>, batchSize: int, fails: Row -> bool)
    returns (visited: seq<Row>, totalProcessed: nat, failed: bool)
    requires ByUri(table) && !Loops(batchSize, table)
    ensures totalProcessed == |visited| && forall i | 0 <= i < |visited| :: !fails(visited[i])
    ensures var rows := Order(Ascending, table);
            if failed then |visited| < |rows| && visited == rows[..|visited|] && fails(rows[|visited|])
            else visited == rows
  {
    var size := BatchSize(batchSize);
    ghost var rows := Order(Ascending, table);
    visited, totalProcessed, failed := [], 0, false;
    var lastUri := 0;
    var more := true;
    while more
      invariant totalProcessed == |visited| <= |rows| && visited == rows[..|visited|]
      invariant forall i | 0 <= i < |visited| :: !fails(visited[i])
      invariant more ==> if |visited| == 0 then lastUri == 0 else lastUri == rows[|visited| - 1].id && lastUri != 0
      invariant !more ==> |visited| == |rows|
      decreases more, |rows| - |visited|
    {
      var records := Select(Ascending, Following(table, lastUri), size);
      Round(table, batchSize, rows, |visited|, lastUri, records);
      var count, error := Process(records, fails);
      ghost var from := |visited|;
      visited, totalProcessed := visited + records[..count], totalProcessed + count;
      TakeMore(rows, from, records, count);
      if error {
        return visited, totalProcessed, true;
      }
      if |records| > 0 {
        lastUri := records[|records| - 1].id;
      }
      more := |records| >= size;
    }
  }
}
