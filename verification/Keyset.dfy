/**
 Walking a fixed table page by page with a keyset cursor.  Sort values and
 identifiers are ranks: the model uses only how the database orders them.
 */
module Keyset {
  import opened Wrappers

  datatype Row = Row(key: int, id: int)

  datatype Direction = Ascending | Descending

  predicate Less(a: Row, b: Row) {
    a.key < b.key || (a.key == b.key && a.id < b.id)
  }

  // In the result order, a stands before b.
  predicate Ahead(dir: Direction, a: Row, b: Row) {
    if dir.Ascending? then Less(a, b) else Less(b, a)
  }

  // The SQL predicate of the next page:
  // (k < c.k OR (k = c.k AND id < c.id)) descending, with > ascending.
  predicate Beyond(dir: Direction, c: Row, r: Row) {
    if dir.Descending? then r.key < c.key || (r.key == c.key && r.id < c.id)
    else r.key > c.key || (r.key == c.key && r.id > c.id)
  }

  ghost predicate Sorted(dir: Direction, rows: seq<Row>) {
    forall i, j | 0 <= i < j < |rows| :: Ahead(dir, rows[i], rows[j])
  }

  lemma {:induction false} FirstExists(dir: Direction, rows: set<Row>) returns (first: Row)
    requires rows != {}
    ensures first in rows && forall r | r in rows && r != first :: Ahead(dir, first, r)
  {
    var some :| some in rows;
    var rest := rows - {some};
    if rest == {} {
      first := some;
      assert rows == {some};
    } else {
      var best := FirstExists(dir, rest);
      first := if Ahead(dir, best, some) then best else some;
      forall r | r in rows && r != first ensures Ahead(dir, first, r) {
        assert r == some || r in rest;
        assert r == best || r == some || Ahead(dir, best, r);
      }
    }
  }

  // The result list of ORDER BY over a set of rows.
  ghost predicate Lists(dir: Direction, rows: set<Row>, r: seq<Row>) {
    Sorted(dir, r) && |r| == |rows| && forall x :: x in r <==> x in rows
  }

  lemma {:induction false} ListExists(dir: Direction, rows: set<Row>) returns (r: seq<Row>)
    ensures Lists(dir, rows, r)
  {
    if rows == {} {
      r := [];
    } else {
      var first := FirstExists(dir, rows);
      var rest := ListExists(dir, rows - {first});
      r := [first] + rest;
      forall i, j | 0 <= i < j < |r| ensures Ahead(dir, r[i], r[j]) {
        assert r[j] == rest[j - 1] && rest[j - 1] in rows - {first};
      }
    }
  }

  lemma SomeList(dir: Direction, rows: set<Row>)
    ensures exists r :: Lists(dir, rows, r)
  {
    var r := ListExists(dir, rows);
  }

  ghost function Order(dir: Direction, rows: set<Row>): (r: seq<Row>)
    ensures Lists(dir, rows, r)
  {
    SomeList(dir, rows);
    var r :| Lists(dir, rows, r);
    r
  }

  lemma SameEmptiness(a: seq<Row>, b: seq<Row>)
    requires forall x :: x in a <==> x in b
    ensures a == [] <==> b == []
  {
    assert a != [] ==> a[0] in a;
    assert b != [] ==> b[0] in b;
  }

  // A sorted list is determined by its rows.
  lemma {:induction false} SortedUnique(dir: Direction, a: seq<Row>, b: seq<Row>)
    requires Sorted(dir, a) && Sorted(dir, b)
    requires forall x :: x in a <==> x in b
    ensures a == b
    decreases |a|
  {
    if a == [] || b == [] {
      SameEmptiness(a, b);
    } else {
      assert a[0] in b && b[0] in a;
      var i :| 0 <= i < |b| && b[i] == a[0];
      var j :| 0 <= j < |a| && a[j] == b[0];
      assert a[0] == b[0];
      forall x ensures x in a[1..] <==> x in b[1..] {
        if x in a[1..] {
          var k :| 0 <= k < |a[1..]| && a[1..][k] == x;
          assert Ahead(dir, a[0], a[k + 1]) && a[k + 1] in b;
          var m :| 0 <= m < |b| && b[m] == x;
          assert b[1..][m - 1] == x;
        }
        if x in b[1..] {
          var k :| 0 <= k < |b[1..]| && b[1..][k] == x;
          assert Ahead(dir, b[0], b[k + 1]) && b[k + 1] in a;
          var m :| 0 <= m < |a| && a[m] == x;
          assert a[1..][m - 1] == x;
        }
      }
      SortedUnique(dir, a[1..], b[1..]);
    }
  }

  // How a repository pages: its page size, whether it fetches one row more to see
  // if there is a next page, and which cursors its code takes for "no cursor".
  datatype Paging = Paging(dir: Direction, size: nat, peek: bool, void: Row -> bool)

  // SELECT .. WHERE .. ORDER BY, before LIMIT.
  ghost function Eligible(p: Paging, table: set<Row>, cursor: Option<Row>): seq<Row> {
    if cursor.None? || p.void(cursor.value) then Order(p.dir, table)
    else Order(p.dir, set r | r in table && Beyond(p.dir, cursor.value, r))
  }

  datatype Walk = Walk(cursor: Option<Row>, visited: seq<Row>, done: bool)

  // One request: `rows` are the eligible rows, of which the first page is taken.
  function Turn(p: Paging, rows: seq<Row>, w: Walk): Walk {
    var page := if |rows| <= p.size then rows else rows[..p.size];
    var more := if p.peek then |rows| > p.size else |page| > 0 && |page| >= p.size;
    Walk(if page == [] then w.cursor else Some(page[|page| - 1]), w.visited + page, !more)
  }

  ghost function Next(p: Paging, table: set<Row>, w: Walk): Walk {
    if w.done then w else Turn(p, Eligible(p, table, w.cursor), w)
  }

  ghost function After(p: Paging, table: set<Row>, steps: nat): Walk {
    if steps == 0 then Walk(None, [], false) else Next(p, table, After(p, table, steps - 1))
  }

  // Where the j-th page starts.
  function Start(size: nat, j: nat): nat {
    if j == 0 then 0 else Start(size, j - 1) + size
  }

  // The j-th page start ends an earlier page and is gone on from.
  predicate Boundary(p: Paging, count: nat, j: nat) {
    j >= 1 && if p.peek then Start(p.size, j) < count else Start(p.size, j) <= count
  }

  // Some page that is gone on from ends in a row whose cursor the code ignores.
  ghost predicate Stuck(p: Paging, rows: seq<Row>) {
    exists j: nat :: Boundary(p, |rows|, j) && VoidAt(p, rows, j)
  }

  predicate VoidAt(p: Paging, rows: seq<Row>, j: nat) {
    0 < Start(p.size, j) <= |rows| && p.void(rows[Start(p.size, j) - 1])
  }

  // The rows beyond the i-th are the rest of the list.
  lemma BeyondIsRest(dir: Direction, table: set<Row>, i: nat)
    requires 0 < i <= |table|
    ensures var rows := Order(dir, table);
            Order(dir, set r | r in table && Beyond(dir, rows[i - 1], r)) == rows[i..]
  {
    var rows := Order(dir, table);
    var c := rows[i - 1];
    var beyond := set r | r in table && Beyond(dir, c, r);
    forall x ensures x in rows[i..] <==> x in beyond {
      if x in rows[i..] {
        var k :| 0 <= k < |rows[i..]| && rows[i..][k] == x;
        assert Ahead(dir, c, rows[i + k]);
      }
      if x in beyond {
        var k :| 0 <= k < |rows| && rows[k] == x;
        assert k < i - 1 ==> Ahead(dir, rows[k], c);
        assert rows[i..][k - i] == x;
      }
    }
    SortedUnique(dir, Order(dir, beyond), rows[i..]);
  }

  // The walk stands at row `i`: there is no usable cursor at 0, and the row before `i` is the cursor elsewhere.
  predicate StandsAt(p: Paging, rows: seq<Row>, w: Walk, i: nat) {
    && !w.done && i <= |rows|
    && if i == 0 then w.cursor.None? || p.void(w.cursor.value)
       else w.cursor == Some(rows[i - 1]) && !p.void(rows[i - 1])
  }

  lemma EligibleIsRest(p: Paging, table: set<Row>, w: Walk, i: nat)
    requires StandsAt(p, Order(p.dir, table), w, i)
    ensures Eligible(p, table, w.cursor) == Order(p.dir, table)[i..]
  {
    if i > 0 {
      BeyondIsRest(p.dir, table, i);
    }
  }

  predicate GoesOn(p: Paging, count: nat, i: nat) {
    if p.peek then i + p.size < count else i + p.size <= count
  }

  // One page from row `i`: the next stretch of the list, and the end when nothing may follow.
  lemma OnePage(p: Paging, table: set<Row>, w: Walk, i: nat)
    requires p.size >= 1
    requires StandsAt(p, Order(p.dir, table), w, i)
    ensures var rows := Order(p.dir, table);
            var next := Next(p, table, w);
            if GoesOn(p, |rows|, i)
            then next == Walk(Some(rows[i + p.size - 1]), w.visited + rows[i..i + p.size], false)
            else next.done && next.visited == w.visited + rows[i..]
  {
    EligibleIsRest(p, table, w, i);
    var rows := Order(p.dir, table);
    if i + p.size <= |rows| {
      assert rows[i..][..p.size] == rows[i..i + p.size];
    }
    if i + p.size == |rows| {
      assert rows[i..] == rows[i..i + p.size];
    }
  }

  // The same, from the start of a page; the walk stands again unless the page ends in an ignored cursor.
  lemma OneStep(p: Paging, table: set<Row>, rows: seq<Row>, w: Walk, j: nat)
    requires p.size >= 1 && rows == Order(p.dir, table)
    requires StandsAt(p, rows, w, Start(p.size, j))
    ensures Boundary(p, |rows|, j + 1) ==>
            && Next(p, table, w) == Walk(Some(rows[Start(p.size, j + 1) - 1]),
                                         w.visited + rows[Start(p.size, j)..Start(p.size, j + 1)], false)
            && (if VoidAt(p, rows, j + 1) then StandsAt(p, rows, Next(p, table, w), 0)
                else StandsAt(p, rows, Next(p, table, w), Start(p.size, j + 1)))
    ensures !Boundary(p, |rows|, j + 1) ==>
            Next(p, table, w).done && Next(p, table, w).visited == w.visited + rows[Start(p.size, j)..]
  {
    OnePage(p, table, w, Start(p.size, j));
    assert Start(p.size, j + 1) == Start(p.size, j) + p.size;
  }

  predicate Forward(p: Paging, rows: seq<Row>, w: Walk, j: nat) {
    if j == 0 || Boundary(p, |rows|, j)
    then StandsAt(p, rows, w, Start(p.size, j)) && w.visited == rows[..Start(p.size, j)]
    else w.done && w.visited == rows
  }

  lemma ForwardStep(p: Paging, table: set<Row>, rows: seq<Row>, w: Walk, j: nat)
    requires p.size >= 1 && rows == Order(p.dir, table)
    requires Forward(p, rows, w, j)
    requires Boundary(p, |rows|, j + 1) ==> !VoidAt(p, rows, j + 1)
    ensures Forward(p, rows, Next(p, table, w), j + 1)
  {
    if j == 0 || Boundary(p, |rows|, j) {
      OneStep(p, table, rows, w, j);
      Stretch(rows, Start(p.size, j), if Boundary(p, |rows|, j + 1) then Start(p.size, j + 1) else |rows|);
    } else {
      BoundaryBefore(p, |rows|, j);
    }
  }

  lemma Stretch(rows: seq<Row>, i: nat, k: nat)
    requires i <= k <= |rows|
    ensures rows[..i] + rows[i..k] == rows[..k] && rows[..i] + rows[i..] == rows
  {
  }

  lemma BoundaryBefore(p: Paging, count: nat, j: nat)
    requires j >= 1 && !Boundary(p, count, j)
    ensures !Boundary(p, count, j + 1)
  {
    assert Start(p.size, j + 1) == Start(p.size, j) + p.size;
  }

  // Before the first ignored cursor, the pages seen so far are the front of the list.
  lemma {:induction false} Advances(p: Paging, table: set<Row>, rows: seq<Row>, j: nat)
    requires p.size >= 1 && rows == Order(p.dir, table)
    requires forall k: nat | k <= j && Boundary(p, |rows|, k) :: !VoidAt(p, rows, k)
    ensures Forward(p, rows, After(p, table, j), j)
    decreases j
  {
    if j > 0 {
      Advances(p, table, rows, j - 1);
      ForwardStep(p, table, rows, After(p, table, j - 1), j - 1);
    }
  }

  lemma {:induction false} StartGrows(size: nat, j: nat)
    requires size >= 1
    ensures Start(size, j) >= j
  {
    if j > 0 {
      StartGrows(size, j - 1);
    }
  }

  // Without an ignored cursor the walk ends, having visited every row once, in order.
  lemma WalkCompletes(p: Paging, table: set<Row>)
    requires p.size >= 1 && !Stuck(p, Order(p.dir, table))
    ensures var w := After(p, table, |table| + 1);
            w.done && w.visited == Order(p.dir, table)
  {
    StartGrows(p.size, |table| + 1);
    Advances(p, table, Order(p.dir, table), |table| + 1);
  }

  // Otherwise it starts over at the first ignored cursor, again and again.
  lemma {:induction false} NeverDone(p: Paging, table: set<Row>, rows: seq<Row>, m: nat, steps: nat) returns (j: nat)
    requires p.size >= 1 && rows == Order(p.dir, table)
    requires Boundary(p, |rows|, m) && VoidAt(p, rows, m)
    requires forall k: nat | k < m && Boundary(p, |rows|, k) :: !VoidAt(p, rows, k)
    ensures j < m && StandsAt(p, rows, After(p, table, steps), Start(p.size, j))
    decreases steps
  {
    if steps == 0 {
      j := 0;
    } else {
      var k := NeverDone(p, table, rows, m, steps - 1);
      j := NeverStep(p, table, rows, m, After(p, table, steps - 1), k);
    }
  }

  lemma NeverStep(p: Paging, table: set<Row>, rows: seq<Row>, m: nat, w: Walk, k: nat) returns (j: nat)
    requires p.size >= 1 && rows == Order(p.dir, table)
    requires Boundary(p, |rows|, m) && VoidAt(p, rows, m)
    requires k + 1 < m && Boundary(p, |rows|, k + 1) ==> !VoidAt(p, rows, k + 1)
    requires k < m && StandsAt(p, rows, w, Start(p.size, k))
    ensures j < m && StandsAt(p, rows, Next(p, table, w), Start(p.size, j))
  {
    StartMonotone(p.size, k + 1, m);
    BoundaryBelow(p, |rows|, k + 1, m);
    OneStep(p, table, rows, w, k);
    j := if k + 1 == m then 0 else k + 1;
  }

  lemma BoundaryBelow(p: Paging, count: nat, k: nat, m: nat)
    requires 1 <= k && Start(p.size, k) <= Start(p.size, m) && Boundary(p, count, m)
    ensures Boundary(p, count, k)
  {
  }

  lemma {:induction false} StartMonotone(size: nat, a: nat, b: nat)
    requires a <= b
    ensures Start(size, a) <= Start(size, b)
    decreases b
  {
    if a < b {
      StartMonotone(size, a, b - 1);
    }
  }

  // Exactly when no page with a successor ends at an ignored cursor does the walk
  // ever finish, and then it has visited every row exactly once and in order.
  lemma WalkCompletesIff(p: Paging, table: set<Row>)
    requires p.size >= 1
    ensures (exists steps: nat :: After(p, table, steps).done) <==> !Stuck(p, Order(p.dir, table))
    ensures !Stuck(p, Order(p.dir, table)) ==>
            After(p, table, |table| + 1).done && After(p, table, |table| + 1).visited == Order(p.dir, table)
  {
    var rows := Order(p.dir, table);
    if Stuck(p, rows) {
      var j: nat :| Boundary(p, |rows|, j) && VoidAt(p, rows, j);
      var m := FirstVoid(p, rows, j);
      forall steps: nat ensures !After(p, table, steps).done {
        var at := NeverDone(p, table, rows, m, steps);
      }
    } else {
      WalkCompletes(p, table);
    }
  }

  lemma {:induction false} FirstVoid(p: Paging, rows: seq<Row>, j: nat) returns (m: nat)
    requires Boundary(p, |rows|, j) && VoidAt(p, rows, j)
    ensures Boundary(p, |rows|, m) && VoidAt(p, rows, m)
    ensures forall k: nat | k < m && Boundary(p, |rows|, k) :: !VoidAt(p, rows, k)
    decreases j
  {
    if k: nat :| k < j && Boundary(p, |rows|, k) && VoidAt(p, rows, k) {
      m := FirstVoid(p, rows, k);
    } else {
      m := j;
    }
  }
}
