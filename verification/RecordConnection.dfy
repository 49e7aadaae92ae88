/**
 The record connection of the GraphQL API: it fetches one record more than the page,
 leaves out records that cannot be shown, and forms the cursors itself.  A cursor
 need not stand where its record stands; here it is stated what paging then shows.
 */
module RecordConnection {
  import opened Wrappers
  import opened Keyset
  import KeysetPages

  const DEFAULT_PAGE_SIZE := 20
  const MAX_PAGE_SIZE := 100

  // `mark`: the position that the next request reads from a record's cursor, None
  // when it reads as no cursor.  `shown`: the record makes a node.
  datatype Connection = Connection(dir: Direction, size: nat, mark: Row -> Option<Row>, shown: Row -> bool)

  function ClampPageSize(first: int): (size: nat)
    ensures 1 <= size <= MAX_PAGE_SIZE
  {
    if first <= 0 then DEFAULT_PAGE_SIZE else if first > MAX_PAGE_SIZE then MAX_PAGE_SIZE else first
  }

  // ---------- one request ----------

  ghost function RowsBeyond(dir: Direction, table: set<Row>, cursor: Option<Row>): seq<Row> {
    if cursor.None? then Order(dir, table) else Order(dir, set r | r in table && Beyond(dir, cursor.value, r))
  }

  function Kept(c: Connection, rows: seq<Row>): seq<Row> {
    if rows == [] then []
    else Kept(c, rows[..|rows| - 1]) + if c.shown(rows[|rows| - 1]) then [rows[|rows| - 1]] else []
  }

  function Page(c: Connection, rows: seq<Row>): seq<Row> {
    if |rows| <= c.size then rows else rows[..c.size]
  }

  // The position the next request starts from, after these edges.
  function Resume(c: Connection, kept: seq<Row>): Option<Row> {
    if kept == [] then None else c.mark(kept[|kept| - 1])
  }

  function Reversed(rows: seq<Row>): (r: seq<Row>)
    ensures |r| == |rows| && forall i | 0 <= i < |rows| :: r[i] == rows[|rows| - 1 - i]
  {
    if rows == [] then [] else [rows[|rows| - 1]] + Reversed(rows[..|rows| - 1])
  }

  // A page and its page info.  A cursor is named by its record; None is the empty string.
  datatype Response = Response(edges: seq<Row>, start: Option<Row>, end: Option<Row>, next: bool, previous: bool)

  // resolveRecordConnection, between its arguments and its edges.
  method Resolve(c: Connection, table: set<Row>, cursor: Option<Row>, backward: bool, hasCursor: bool)
    returns (r: Response)
    ensures var rows := RowsBeyond(c.dir, table, cursor);
            var kept := Kept(c, Page(c, rows));
            && r.edges == (if backward then Reversed(kept) else kept)
            && (if backward then r.start else r.end) == (if kept == [] then None else Some(kept[|kept| - 1]))
            && (if backward then r.previous else r.next) == (|rows| > c.size)
            && (if backward then r.next else r.previous) == hasCursor
  {
    var eligible := if cursor.None? then table else (set r | r in table && Beyond(c.dir, cursor.value, r));
    var records := KeysetPages.Select(c.dir, eligible, c.size + 1);
    var hasMore := |records| > c.size;
    if hasMore {
      records := records[..c.size];
    }
    ghost var page := records;
    assert page == Page(c, RowsBeyond(c.dir, table, cursor));
    if backward {
      records := ReverseInPlace(records);
      KeptReversed(c, page);
    }
    var edges, start, end := Edges(c, records);
    r := if backward then Response(edges, start, end, hasCursor, hasMore)
         else Response(edges, start, end, hasMore, hasCursor);
  }

  // The loop that makes nodes and cursors.
  method Edges(c: Connection, records: seq<Row>) returns (edges: seq<Row>, start: Option<Row>, end: Option<Row>)
    ensures edges == Kept(c, records)
    ensures if edges == [] then start.None? && end.None?
            else start == Some(edges[0]) && end == Some(edges[|edges| - 1])
  {
    edges, start, end := [], None, None;
    for i := 0 to |records|
      invariant edges == Kept(c, records[..i])
      invariant start == if edges == [] then None else Some(edges[0])
      invariant end == if edges == [] then None else Some(edges[|edges| - 1])
    {
      assert records[..i + 1][..i] == records[..i];
      if !c.shown(records[i]) {
        continue;
      }
      if start.None? {
        start := Some(records[i]);
      }
      end := Some(records[i]);
      edges := edges + [records[i]];
    }
    assert records[..|records|] == records;
  }

  // The swap loop of backward pagination.
  method ReverseInPlace(rows: seq<Row>) returns (r: seq<Row>)
    ensures r == Reversed(rows)
  {
    r := rows;
    var i, j := 0, |rows| - 1;
    while i < j
      invariant 0 <= i && j == |rows| - 1 - i && |r| == |rows| && i <= j + 2
      invariant forall k | 0 <= k < i :: r[k] == rows[|rows| - 1 - k] && r[|rows| - 1 - k] == rows[k]
      invariant forall k | i <= k <= j :: r[k] == rows[k]
    {
      r := r[i := r[j]][j := r[i]];
      i, j := i + 1, j - 1;
    }
  }

  lemma {:induction false} KeptConcat(c: Connection, a: seq<Row>, b: seq<Row>)
    ensures Kept(c, a + b) == Kept(c, a) + Kept(c, b)
  {
    if b == [] {
      assert a + b == a;
    } else {
      KeptConcat(c, a, b[..|b| - 1]);
      assert (a + b)[..|a + b| - 1] == a + b[..|b| - 1];
    }
  }

  lemma {:induction false} KeptReversed(c: Connection, rows: seq<Row>)
    ensures Kept(c, Reversed(rows)) == Reversed(Kept(c, rows))
  {
    if rows != [] {
      var init, last := rows[..|rows| - 1], rows[|rows| - 1];
      KeptReversed(c, init);
      KeptConcat(c, [last], Reversed(init));
      var kept := Kept(c, init);
      assert Kept(c, [last]) == if c.shown(last) then [last] else [] by {
        assert [last][..0] == [];
      }
      assert c.shown(last) ==> (kept + [last])[..|kept|] == kept;
    }
  }

  // ---------- following the cursors ----------

  datatype Visit = Visit(cursor: Option<Row>, seen: seq<Row>, done: bool)

  function Serve(c: Connection, rows: seq<Row>, v: Visit): Visit {
    var kept := Kept(c, Page(c, rows));
    Visit(Resume(c, kept), v.seen + kept, |rows| <= c.size)
  }

  ghost function Follow(c: Connection, table: set<Row>, v: Visit): Visit {
    if v.done then v else Serve(c, RowsBeyond(c.dir, table, v.cursor), v)
  }

  ghost function Repeated(step: Visit -> Visit, steps: nat): Visit {
    if steps == 0 then Visit(None, [], false) else step(Repeated(step, steps - 1))
  }

  ghost function Followed(c: Connection, table: set<Row>, steps: nat): Visit {
    Repeated(v => Follow(c, table, v), steps)
  }

  // The client gets to the end, having seen every record to show exactly once and in order.
  ghost predicate ShowsAll(c: Connection, table: set<Row>) {
    exists steps: nat :: Complete(c, Order(c.dir, table), Followed(c, table, steps))
  }

  predicate Complete(c: Connection, rows: seq<Row>, v: Visit) {
    v.done && v.seen == Kept(c, rows)
  }

  // ---------- where a cursor stands in the list ----------

  // The first row beyond the cursor.
  function Begin(dir: Direction, rows: seq<Row>, cursor: Option<Row>): (b: nat)
    ensures b <= |rows|
  {
    if cursor.None? || rows == [] || Beyond(dir, cursor.value, rows[0]) then 0
    else 1 + Begin(dir, rows[1..], cursor)
  }

  lemma {:induction false} BeginSplits(dir: Direction, rows: seq<Row>, cursor: Option<Row>)
    requires cursor.Some? && Sorted(dir, rows)
    ensures var b := Begin(dir, rows, cursor);
            && (forall i | 0 <= i < b :: !Beyond(dir, cursor.value, rows[i]))
            && (forall i | b <= i < |rows| :: Beyond(dir, cursor.value, rows[i]))
  {
    if rows != [] {
      if Beyond(dir, cursor.value, rows[0]) {
        forall i | 0 <= i < |rows| ensures Beyond(dir, cursor.value, rows[i]) {
          assert i > 0 ==> Ahead(dir, rows[0], rows[i]);
        }
      } else {
        BeginSplits(dir, rows[1..], cursor);
        forall i | 0 <= i < |rows|
          ensures i < Begin(dir, rows, cursor) <==> !Beyond(dir, cursor.value, rows[i])
        {
          assert i > 0 ==> rows[i] == rows[1..][i - 1];
        }
      }
    }
  }

  // Whatever the cursor, the eligible rows are an end of the list.
  lemma BeyondIsEnd(dir: Direction, table: set<Row>, cursor: Option<Row>)
    ensures RowsBeyond(dir, table, cursor) == Order(dir, table)[Begin(dir, Order(dir, table), cursor)..]
  {
    var rows := Order(dir, table);
    if cursor.Some? {
      BeginSplits(dir, rows, cursor);
      var b := Begin(dir, rows, cursor);
      var beyond := set r | r in table && Beyond(dir, cursor.value, r);
      forall x ensures x in Order(dir, beyond) <==> x in rows[b..] {
        if x in rows[b..] {
          var i :| 0 <= i < |rows| - b && rows[b..][i] == x;
          assert rows[b + i] == x;
        }
        if x in Order(dir, beyond) {
          assert x in rows;
          var i :| 0 <= i < |rows| && rows[i] == x;
          assert rows[b..][i - b] == x;
        }
      }
      SortedUnique(dir, Order(dir, beyond), rows[b..]);
    }
  }

  // ---------- the condition ----------

  // The first row to show at or after i, or the length.
  function FirstShown(c: Connection, rows: seq<Row>, i: nat): (k: nat)
    ensures i <= |rows| ==> i <= k <= |rows|
    ensures i > |rows| ==> k == i
    ensures k < |rows| ==> c.shown(rows[k])
    decreases |rows| - i
  {
    if i >= |rows| || c.shown(rows[i]) then i else FirstShown(c, rows, i + 1)
  }

  lemma {:induction false} AtMost(c: Connection, rows: seq<Row>, i: nat, k: nat)
    requires i <= k < |rows| && c.shown(rows[k])
    ensures FirstShown(c, rows, i) <= k
    decreases k - i
  {
    if i < k {
      AtMost(c, rows, i + 1, k);
    }
  }

  lemma {:induction false} HiddenBefore(c: Connection, rows: seq<Row>, i: nat, k: nat)
    requires i <= k < |rows| && k < FirstShown(c, rows, i)
    ensures !c.shown(rows[k])
    decreases k - i
  {
    if i < k {
      HiddenBefore(c, rows, i + 1, k);
    }
  }

  function PageAt(c: Connection, rows: seq<Row>, i: nat): seq<Row> {
    if i >= |rows| then [] else if i + c.size <= |rows| then rows[i..i + c.size] else rows[i..]
  }

  // Where the page after the one at i begins.
  function NextBegin(c: Connection, rows: seq<Row>, i: nat): nat {
    Begin(c.dir, rows, Resume(c, Kept(c, PageAt(c, rows, i))))
  }

  function PageBegin(c: Connection, rows: seq<Row>, j: nat): nat {
    if j == 0 then 0 else NextBegin(c, rows, PageBegin(c, rows, j - 1))
  }

  predicate AsksOn(c: Connection, rows: seq<Row>, i: nat) {
    i + c.size < |rows|
  }

  // The page at i has an edge, and the next record shown from where its end cursor
  // stands is the next one to show.
  predicate Carries(c: Connection, rows: seq<Row>, i: nat) {
    Kept(c, PageAt(c, rows, i)) != [] && FirstShown(c, rows, NextBegin(c, rows, i)) == FirstShown(c, rows, i + c.size)
  }

  // The first j pages are all gone on from.
  predicate Reaches(c: Connection, rows: seq<Row>, j: nat) {
    j == 0 || (Reaches(c, rows, j - 1) && AsksOn(c, rows, PageBegin(c, rows, j - 1)))
  }

  // The j-th page carries, if it is asked for and gone on from.
  predicate CarriesAt(c: Connection, rows: seq<Row>, j: nat) {
    Reaches(c, rows, j + 1) ==> Carries(c, rows, PageBegin(c, rows, j))
  }

  ghost predicate AllCarry(c: Connection, rows: seq<Row>) {
    forall j: nat :: CarriesAt(c, rows, j)
  }

  // ---------- what is kept of a stretch ----------

  lemma {:induction false} KeptRange(c: Connection, rows: seq<Row>, i: nat, k: nat)
    requires i <= k <= |rows|
    ensures var kept, f := Kept(c, rows[i..k]), FirstShown(c, rows, i);
            if f < k then kept != [] && kept[0] == rows[f] else kept == []
    decreases k
  {
    if i < k {
      KeptRange(c, rows, i, k - 1);
      assert rows[i..k][..k - 1 - i] == rows[i..k - 1];
      if k - 1 < FirstShown(c, rows, i) {
        HiddenBefore(c, rows, i, k - 1);
      } else if c.shown(rows[k - 1]) {
        AtMost(c, rows, i, k - 1);
      }
    }
  }

  lemma KeptTo(c: Connection, rows: seq<Row>, i: nat, k: nat)
    requires i <= k <= |rows|
    ensures Kept(c, rows[..k]) == Kept(c, rows[..i]) + Kept(c, rows[i..k])
  {
    KeptConcat(c, rows[..i], rows[i..k]);
    assert rows[..k] == rows[..i] + rows[i..k];
  }

  // Between two places with the same next record to show there is nothing to show.
  lemma {:induction false} SameFirst(c: Connection, rows: seq<Row>, i: nat, k: nat)
    requires i <= |rows| && k <= |rows| && FirstShown(c, rows, i) == FirstShown(c, rows, k)
    ensures Kept(c, rows[..i]) == Kept(c, rows[..k])
  {
    var lo, hi := if i <= k then i else k, if i <= k then k else i;
    KeptTo(c, rows, lo, hi);
    KeptRange(c, rows, lo, hi);
  }

  // The next visit, by where the walk stands.
  function Onward(c: Connection, rows: seq<Row>, v: Visit): Visit {
    if v.done then v
    else
      var i := Begin(c.dir, rows, v.cursor);
      var kept := Kept(c, PageAt(c, rows, i));
      Visit(Resume(c, kept), v.seen + kept, !AsksOn(c, rows, i))
  }

  // The walk, by where it stands in the ordered list.
  ghost function Trip(c: Connection, rows: seq<Row>, steps: nat): Visit {
    Repeated(v => Onward(c, rows, v), steps)
  }

  lemma {:induction false} SameSteps(f: Visit -> Visit, g: Visit -> Visit, steps: nat)
    requires forall v :: f(v) == g(v)
    ensures Repeated(f, steps) == Repeated(g, steps)
  {
    if steps > 0 {
      SameSteps(f, g, steps - 1);
    }
  }

  lemma FollowAt(c: Connection, table: set<Row>, v: Visit)
    ensures Follow(c, table, v) == Onward(c, Order(c.dir, table), v)
  {
    BeyondIsEnd(c.dir, table, v.cursor);
    var rows := Order(c.dir, table);
    var i := Begin(c.dir, rows, v.cursor);
    assert Page(c, rows[i..]) == PageAt(c, rows, i);
  }

  lemma FollowedIsTrip(c: Connection, table: set<Row>, steps: nat)
    ensures Followed(c, table, steps) == Trip(c, Order(c.dir, table), steps)
  {
    var rows := Order(c.dir, table);
    forall v ensures Follow(c, table, v) == Onward(c, rows, v) {
      FollowAt(c, table, v);
    }
    SameSteps(v => Follow(c, table, v), v => Onward(c, rows, v), steps);
  }

  // ---------- the condition suffices ----------

  // After j pages that carried: the walk stands at the j-th page, or has shown everything.
  predicate OnTrack(c: Connection, rows: seq<Row>, v: Visit, j: nat) {
    var i := PageBegin(c, rows, j);
    if Reaches(c, rows, j)
    then !v.done && Begin(c.dir, rows, v.cursor) == i && j <= i <= |rows| && v.seen == Kept(c, rows[..i])
    else v.done && v.seen == Kept(c, rows)
  }

  ghost predicate CarryBelow(c: Connection, rows: seq<Row>, j: nat) {
    forall k: nat | k < j :: CarriesAt(c, rows, k)
  }

  lemma {:induction false} Invariant(step: Visit -> Visit, holds: (Visit, nat) -> bool, j: nat)
    requires holds(Visit(None, [], false), 0)
    requires forall v, k: nat | k < j && holds(v, k) :: holds(step(v), k + 1)
    ensures holds(Repeated(step, j), j)
  {
    if j > 0 {
      Invariant(step, holds, j - 1);
      assert holds(step(Repeated(step, j - 1)), j - 1 + 1);
    }
  }

  lemma StaysOnTrack(c: Connection, rows: seq<Row>, j: nat)
    requires CarryBelow(c, rows, j)
    ensures OnTrack(c, rows, Trip(c, rows, j), j)
  {
    var holds := (v: Visit, k: nat) => OnTrack(c, rows, v, k);
    var step := v => Onward(c, rows, v);
    TrackStart(c, rows);
    forall v, k: nat | k < j && holds(v, k) ensures holds(step(v), k + 1) {
      assert CarriesAt(c, rows, k);
      TrackStep(c, rows, v, k);
    }
    Invariant(step, holds, j);
  }

  lemma TrackStart(c: Connection, rows: seq<Row>)
    ensures OnTrack(c, rows, Visit(None, [], false), 0)
  {
    assert rows[..0] == [];
  }

  // A page that carries hands on to a later place, with nothing to show in between.
  lemma CarriesOn(c: Connection, rows: seq<Row>, i: nat)
    requires AsksOn(c, rows, i) && Carries(c, rows, i)
    ensures var next := NextBegin(c, rows, i);
            i < next <= |rows| && Kept(c, rows[..i]) + Kept(c, PageAt(c, rows, i)) == Kept(c, rows[..next])
  {
    KeptTo(c, rows, i, i + c.size);
    KeptRange(c, rows, i, i + c.size);
    SameFirst(c, rows, NextBegin(c, rows, i), i + c.size);
    if NextBegin(c, rows, i) <= i {
      AtMost(c, rows, NextBegin(c, rows, i), FirstShown(c, rows, i));
    }
  }

  lemma LastPage(c: Connection, rows: seq<Row>, i: nat)
    requires i <= |rows| && !AsksOn(c, rows, i)
    ensures Kept(c, rows[..i]) + Kept(c, PageAt(c, rows, i)) == Kept(c, rows)
  {
    KeptTo(c, rows, i, |rows|);
    assert rows[i..|rows|] == PageAt(c, rows, i) && rows[..|rows|] == rows;
  }

  lemma ReachesNext(c: Connection, rows: seq<Row>, j: nat)
    ensures Reaches(c, rows, j + 1) <==> Reaches(c, rows, j) && AsksOn(c, rows, PageBegin(c, rows, j))
  {
  }

  lemma TrackStep(c: Connection, rows: seq<Row>, v: Visit, j: nat)
    requires OnTrack(c, rows, v, j)
    requires CarriesAt(c, rows, j)
    ensures OnTrack(c, rows, Onward(c, rows, v), j + 1)
  {
    ReachesNext(c, rows, j);
    if Reaches(c, rows, j) {
      var i := PageBegin(c, rows, j);
      assert PageBegin(c, rows, j + 1) == NextBegin(c, rows, i);
      if AsksOn(c, rows, i) {
        CarriesOn(c, rows, i);
      } else {
        LastPage(c, rows, i);
      }
    }
  }

  // ---------- and it is needed ----------

  // No continuation can be complete.
  ghost predicate Wrong(c: Connection, rows: seq<Row>, v: Visit) {
    var all := Kept(c, rows);
    (v.done && v.seen != all) || !(v.seen <= all)
  }

  lemma {:induction false} WrongForEver(c: Connection, rows: seq<Row>, m: nat, steps: nat)
    requires Wrong(c, rows, Trip(c, rows, m))
    ensures !Complete(c, rows, Trip(c, rows, steps))
    ensures steps >= m ==> Wrong(c, rows, Trip(c, rows, steps))
    decreases steps + m
  {
    if steps > m {
      WrongForEver(c, rows, m, steps - 1);
    } else if steps < m {
      if Complete(c, rows, Trip(c, rows, steps)) {
        DoneStays(c, rows, steps, m);
      }
    }
  }

  lemma {:induction false} DoneStays(c: Connection, rows: seq<Row>, steps: nat, later: nat)
    requires steps <= later && Trip(c, rows, steps).done
    ensures Trip(c, rows, later) == Trip(c, rows, steps)
    decreases later
  {
    if steps < later {
      DoneStays(c, rows, steps, later - 1);
    }
  }

  // What is seen next is not what comes next.
  lemma SeesAnother(c: Connection, rows: seq<Row>, m: nat, k: nat, more: seq<Row>)
    requires Sorted(c.dir, rows)
    requires m <= |rows| && k < |rows| && k != FirstShown(c, rows, m) && more != [] && more[0] == rows[k]
    ensures !(Kept(c, rows[..m]) + more <= Kept(c, rows))
  {
    var seen := Kept(c, rows[..m]);
    KeptTo(c, rows, m, |rows|);
    KeptRange(c, rows, m, |rows|);
    assert rows[..|rows|] == rows;
    var f := FirstShown(c, rows, m);
    assert (seen + more)[|seen|] == rows[k];
    if f < |rows| {
      assert Kept(c, rows)[|seen|] == rows[f];
      assert if f < k then Ahead(c.dir, rows[f], rows[k]) else Ahead(c.dir, rows[k], rows[f]);
    }
  }

  // The walk has shown the records of the first m rows, and starting over would show some of them again.
  predicate HasShown(c: Connection, rows: seq<Row>, v: Visit, m: nat) {
    && !v.done && m <= |rows| && v.seen == Kept(c, rows[..m])
    && FirstShown(c, rows, 0) < c.size && FirstShown(c, rows, 0) < m
  }

  lemma PageFrom(c: Connection, rows: seq<Row>, i: nat)
    requires i <= |rows|
    ensures var kept, f := Kept(c, PageAt(c, rows, i)), FirstShown(c, rows, i);
            && (kept != [] ==> f < |rows| && kept[0] == rows[f])
            && (kept == [] && !AsksOn(c, rows, i) ==> f == |rows|)
            && (kept == [] ==> f >= i + c.size || f == |rows|)
  {
    var end := if i + c.size <= |rows| then i + c.size else |rows|;
    KeptRange(c, rows, i, end);
    assert PageAt(c, rows, i) == rows[i..end];
  }

  ghost predicate WrongSoon(c: Connection, rows: seq<Row>, v: Visit) {
    Wrong(c, rows, Onward(c, rows, v)) || Wrong(c, rows, Onward(c, rows, Onward(c, rows, v)))
  }

  // If it does not stand before the next record to show, it is lost within two requests.
  lemma {:induction false} Derailed(c: Connection, rows: seq<Row>, v: Visit, m: nat)
    requires Sorted(c.dir, rows) && HasShown(c, rows, v, m)
    requires FirstShown(c, rows, Begin(c.dir, rows, v.cursor)) != FirstShown(c, rows, m)
    ensures WrongSoon(c, rows, v)
  {
    var b := Begin(c.dir, rows, v.cursor);
    var kept := Kept(c, PageAt(c, rows, b));
    PageFrom(c, rows, b);
    if kept != [] {
      SeesAnother(c, rows, m, FirstShown(c, rows, b), kept);
    } else if !AsksOn(c, rows, b) {
      MoreToShow(c, rows, m);
    } else {
      assert Onward(c, rows, v) == Visit(None, v.seen, false);
      StartsOver(c, rows, Onward(c, rows, v), m);
    }
  }

  lemma MoreToShow(c: Connection, rows: seq<Row>, m: nat)
    requires m <= |rows| && FirstShown(c, rows, m) < |rows|
    ensures Kept(c, rows[..m]) != Kept(c, rows)
  {
    KeptTo(c, rows, m, |rows|);
    KeptRange(c, rows, m, |rows|);
    assert rows[..|rows|] == rows;
  }

  lemma StartsOver(c: Connection, rows: seq<Row>, v: Visit, m: nat)
    requires Sorted(c.dir, rows) && HasShown(c, rows, v, m) && v.cursor.None?
    ensures Wrong(c, rows, Onward(c, rows, v))
  {
    PageFrom(c, rows, 0);
    SeesAnother(c, rows, m, FirstShown(c, rows, 0), Kept(c, PageAt(c, rows, 0)));
  }

  lemma {:induction false} LoopsAtOnce(c: Connection, rows: seq<Row>, steps: nat)
    requires AsksOn(c, rows, 0) && Kept(c, PageAt(c, rows, 0)) == []
    ensures Trip(c, rows, steps) == Visit(None, [], false)
  {
    if steps > 0 {
      LoopsAtOnce(c, rows, steps - 1);
    }
  }

  // The first page that does not carry.
  lemma {:induction false} FirstFailure(c: Connection, rows: seq<Row>, j: nat) returns (first: nat)
    requires !CarriesAt(c, rows, j)
    ensures !CarriesAt(c, rows, first)
    ensures CarryBelow(c, rows, first)
    decreases j
  {
    if k: nat :| k < j && !CarriesAt(c, rows, k) {
      first := FirstFailure(c, rows, k);
    } else {
      first := j;
    }
  }

  lemma FailureShows(c: Connection, rows: seq<Row>, j: nat)
    requires Sorted(c.dir, rows) && !CarriesAt(c, rows, j) && CarryBelow(c, rows, j)
    ensures forall steps: nat :: !Complete(c, rows, Trip(c, rows, steps))
  {
    ReachesNext(c, rows, j);
    if j == 0 && Kept(c, PageAt(c, rows, 0)) == [] {
      forall steps: nat ensures !Complete(c, rows, Trip(c, rows, steps)) {
        LoopsAtOnce(c, rows, steps);
      }
    } else {
      var at := DerailedAfter(c, rows, j);
      forall steps: nat ensures !Complete(c, rows, Trip(c, rows, steps)) {
        WrongForEver(c, rows, at, steps);
      }
    }
  }

  lemma DerailedAfter(c: Connection, rows: seq<Row>, j: nat) returns (at: nat)
    requires Sorted(c.dir, rows) && !CarriesAt(c, rows, j) && CarryBelow(c, rows, j)
    requires j == 0 ==> Kept(c, PageAt(c, rows, 0)) != []
    ensures Wrong(c, rows, Trip(c, rows, at))
  {
    StaysOnTrack(c, rows, j);
    FirstPageShows(c, rows, j);
    DerailedPage(c, rows, Trip(c, rows, j), j);
    at := Within(v => Onward(c, rows, v), v => Wrong(c, rows, v), j);
  }

  lemma Within(step: Visit -> Visit, wrong: Visit -> bool, j: nat) returns (at: nat)
    requires var v := step(step(Repeated(step, j))); wrong(v) || wrong(step(v))
    ensures wrong(Repeated(step, at))
  {
    assert Repeated(step, j + 2) == step(Repeated(step, j + 1));
    at := if wrong(Repeated(step, j + 2)) then j + 2 else j + 3;
  }

  lemma DerailedPage(c: Connection, rows: seq<Row>, v: Visit, j: nat)
    requires Sorted(c.dir, rows) && OnTrack(c, rows, v, j) && !CarriesAt(c, rows, j)
    requires FirstShown(c, rows, 0) < c.size
    ensures WrongSoon(c, rows, Onward(c, rows, v))
  {
    ReachesNext(c, rows, j);
    PageFails(c, rows, v, PageBegin(c, rows, j));
  }

  // The walk stands at i with everything before it shown, and goes on.
  ghost predicate ShownTo(c: Connection, rows: seq<Row>, v: Visit, i: nat) {
    !v.done && Begin(c.dir, rows, v.cursor) == i && AsksOn(c, rows, i) && v.seen == Kept(c, rows[..i])
  }

  lemma PageFails(c: Connection, rows: seq<Row>, v: Visit, i: nat)
    requires Sorted(c.dir, rows) && ShownTo(c, rows, v, i) && !Carries(c, rows, i) && FirstShown(c, rows, 0) < c.size
    ensures WrongSoon(c, rows, Onward(c, rows, v))
  {
    PageDone(c, rows, v, i);
    NextOfEmpty(c, rows, i);
    Derailed(c, rows, Onward(c, rows, v), i + c.size);
  }

  // A page without an edge leads back to the start, where a record to show was shown already.
  lemma NextOfEmpty(c: Connection, rows: seq<Row>, i: nat)
    ensures Kept(c, PageAt(c, rows, i)) == [] ==> NextBegin(c, rows, i) == 0
    ensures !Carries(c, rows, i) && i + c.size <= |rows| && FirstShown(c, rows, 0) < c.size ==>
            FirstShown(c, rows, NextBegin(c, rows, i)) != FirstShown(c, rows, i + c.size)
  {
  }

  lemma {:induction false} ReachesFirst(c: Connection, rows: seq<Row>, j: nat)
    requires Reaches(c, rows, j + 1)
    ensures Reaches(c, rows, 1) && AsksOn(c, rows, 0)
  {
    if j > 0 {
      ReachesFirst(c, rows, j - 1);
    } else {
      assert PageBegin(c, rows, 0) == 0 && Reaches(c, rows, 0);
    }
  }

  lemma FirstPageShows(c: Connection, rows: seq<Row>, j: nat)
    requires Reaches(c, rows, j + 1) && CarryBelow(c, rows, j)
    requires j == 0 ==> Kept(c, PageAt(c, rows, 0)) != []
    ensures FirstShown(c, rows, 0) < c.size
  {
    ReachesFirst(c, rows, j);
    assert j > 0 ==> CarriesAt(c, rows, 0);
    ReachesNext(c, rows, 0);
    PageFrom(c, rows, 0);
    KeptRange(c, rows, 0, c.size);
    assert rows[0..c.size] == PageAt(c, rows, 0);
  }

  lemma PageDone(c: Connection, rows: seq<Row>, v: Visit, i: nat)
    requires ShownTo(c, rows, v, i) && FirstShown(c, rows, 0) < c.size
    ensures HasShown(c, rows, Onward(c, rows, v), i + c.size)
    ensures Begin(c.dir, rows, Onward(c, rows, v).cursor) == NextBegin(c, rows, i)
  {
    KeptTo(c, rows, i, i + c.size);
  }

  // For any way of forming cursors and any records left out: a client that follows
  // the cursors sees every record to show exactly once, in order, and comes to the
  // end, if and only if every page that is gone on from has an edge, and the next
  // record shown beyond its end cursor is the next one to show.
  lemma ShowsAllIff(c: Connection, table: set<Row>)
    ensures ShowsAll(c, table) <==> AllCarry(c, Order(c.dir, table))
  {
    var rows := Order(c.dir, table);
    forall steps: nat ensures Followed(c, table, steps) == Trip(c, rows, steps) {
      FollowedIsTrip(c, table, steps);
    }
    TripCompleteIff(c, rows);
  }

  lemma TripCompleteIff(c: Connection, rows: seq<Row>)
    requires Sorted(c.dir, rows)
    ensures (exists steps: nat :: Complete(c, rows, Trip(c, rows, steps))) <==> AllCarry(c, rows)
  {
    if AllCarry(c, rows) {
      StaysOnTrack(c, rows, |rows| + 1);
      assert Complete(c, rows, Trip(c, rows, |rows| + 1));
    } else {
      var j: nat :| !CarriesAt(c, rows, j);
      var first := FirstFailure(c, rows, j);
      FailureShows(c, rows, first);
    }
  }

  // ---------- when every record is shown ----------

  ghost predicate Everything(c: Connection) {
    forall r :: c.shown(r)
  }

  // The cursor of the record before i stands between that record and the next.
  predicate Exact(c: Connection, rows: seq<Row>, i: nat)
    requires 0 < i < |rows|
  {
    var cursor := c.mark(rows[i - 1]);
    cursor.Some? && !Beyond(c.dir, cursor.value, rows[i - 1]) && Beyond(c.dir, cursor.value, rows[i])
  }

  lemma {:induction false} KeepsEverything(c: Connection, rows: seq<Row>)
    requires Everything(c)
    ensures Kept(c, rows) == rows
  {
    if rows != [] {
      KeepsEverything(c, rows[..|rows| - 1]);
    }
  }

  lemma FullPageCarriesIff(c: Connection, rows: seq<Row>, i: nat)
    requires Everything(c) && c.size >= 1 && Sorted(c.dir, rows) && AsksOn(c, rows, i)
    ensures Carries(c, rows, i) <==> Exact(c, rows, i + c.size)
    ensures Carries(c, rows, i) ==> NextBegin(c, rows, i) == i + c.size
  {
    var page := PageAt(c, rows, i);
    KeepsEverything(c, page);
    var cursor := c.mark(rows[i + c.size - 1]);
    assert page[|page| - 1] == rows[i + c.size - 1];
    if cursor.Some? {
      BeginSplits(c.dir, rows, cursor);
    }
  }

  // The cursor stands right at every page start that is gone on from.
  ghost predicate AllExact(c: Connection, rows: seq<Row>) {
    forall j: nat :: ExactAt(c, rows, j)
  }

  predicate ExactAt(c: Connection, rows: seq<Row>, j: nat) {
    0 < Start(c.size, j) < |rows| ==> Exact(c, rows, Start(c.size, j))
  }

  // The walk stands at the j-th even page start, or the list ends before it.
  predicate Even(c: Connection, rows: seq<Row>, j: nat) {
    if Reaches(c, rows, j) then PageBegin(c, rows, j) == Start(c.size, j) else Start(c.size, j) >= |rows|
  }

  lemma EvenStep(c: Connection, rows: seq<Row>, j: nat)
    requires Everything(c) && c.size >= 1 && Sorted(c.dir, rows) && Even(c, rows, j)
    ensures CarriesAt(c, rows, j) <==> ExactAt(c, rows, j + 1)
    ensures CarriesAt(c, rows, j) ==> Even(c, rows, j + 1)
  {
    ReachesNext(c, rows, j);
    if Reaches(c, rows, j + 1) {
      EvenPage(c, rows, j);
    } else {
      EvenEnd(c, rows, j);
    }
  }

  lemma EvenPage(c: Connection, rows: seq<Row>, j: nat)
    requires Everything(c) && c.size >= 1 && Sorted(c.dir, rows) && Reaches(c, rows, j + 1)
    requires PageBegin(c, rows, j) == Start(c.size, j) && AsksOn(c, rows, Start(c.size, j))
    ensures CarriesAt(c, rows, j) <==> ExactAt(c, rows, j + 1)
    ensures CarriesAt(c, rows, j) ==> PageBegin(c, rows, j + 1) == Start(c.size, j + 1)
  {
    var i := Start(c.size, j);
    assert Start(c.size, j + 1) == i + c.size;
    FullPageCarriesIff(c, rows, i);
    assert CarriesAt(c, rows, j) <==> Carries(c, rows, i);
    assert PageBegin(c, rows, j + 1) == NextBegin(c, rows, i);
  }

  lemma EvenEnd(c: Connection, rows: seq<Row>, j: nat)
    requires Even(c, rows, j) && !Reaches(c, rows, j + 1)
    requires Reaches(c, rows, j) ==> !AsksOn(c, rows, PageBegin(c, rows, j))
    ensures CarriesAt(c, rows, j) && ExactAt(c, rows, j + 1) && Start(c.size, j + 1) >= |rows|
  {
    assert Start(c.size, j + 1) == Start(c.size, j) + c.size;
  }

  predicate Steps(c: Connection, rows: seq<Row>, j: nat) {
    CarriesAt(c, rows, j) || ExactAt(c, rows, j + 1)
  }

  lemma EvenPages(c: Connection, rows: seq<Row>, j: nat)
    requires Everything(c) && c.size >= 1 && Sorted(c.dir, rows)
    requires forall k: nat | k < j :: Steps(c, rows, k)
    ensures Even(c, rows, j)
  {
    var even := (k: nat) => Even(c, rows, k);
    forall k: nat | k < j && even(k) ensures even(k + 1) {
      assert Steps(c, rows, k);
      EvenStep(c, rows, k);
    }
    Upward(even, j);
  }

  lemma {:induction false} Upward(holds: nat -> bool, j: nat)
    requires holds(0) && forall k: nat | k < j && holds(k) :: holds(k + 1)
    ensures holds(j)
  {
    if j > 0 {
      Upward(holds, j - 1);
      assert holds(j - 1 + 1);
    }
  }

  // With no record left out: every record is seen once and in order, and the walk
  // ends, exactly when at each page start the cursor stands between its two neighbours.
  lemma AllShownIff(c: Connection, table: set<Row>)
    requires Everything(c) && c.size >= 1
    ensures ShowsAll(c, table) <==> AllExact(c, Order(c.dir, table))
  {
    ShowsAllIff(c, table);
    AllExactIff(c, Order(c.dir, table));
  }

  lemma AllExactIff(c: Connection, rows: seq<Row>)
    requires Everything(c) && c.size >= 1 && Sorted(c.dir, rows)
    ensures AllCarry(c, rows) <==> AllExact(c, rows)
  {
    if AllCarry(c, rows) {
      forall j: nat ensures ExactAt(c, rows, j) {
        if j > 0 {
          EvenPages(c, rows, j - 1);
          EvenStep(c, rows, j - 1);
        }
      }
    }
    if AllExact(c, rows) {
      forall j: nat ensures CarriesAt(c, rows, j) {
        EvenPages(c, rows, j);
        EvenStep(c, rows, j);
      }
    }
  }

  // ---------- cursors cut to the second ----------

  // Times in microseconds.  The connection prints a record's indexed_at without its fraction of a second.
  const MICROS := 1_000_000

  function Second(time: int): int {
    time - time % MICROS
  }

  function ByIndexedAt(dir: Direction, first: int): Connection {
    Connection(dir, ClampPageSize(first), (r: Row) => Some(Row(Second(r.key), r.id)), (r: Row) => true)
  }

  // The next record is older than the whole second that the last one is printed as.
  predicate InAnEarlierSecond(last: Row, next: Row) {
    next.key < Second(last.key) || (next.key == Second(last.key) && next.id < last.id)
  }

  predicate SplitsDown(c: Connection, rows: seq<Row>, j: nat) {
    var i := Start(c.size, j);
    0 < i < |rows| ==> InAnEarlierSecond(rows[i - 1], rows[i])
  }

  predicate SplitsUp(c: Connection, rows: seq<Row>, j: nat) {
    var i := Start(c.size, j);
    0 < i < |rows| ==> rows[i - 1].key % MICROS == 0
  }

  // Newest first, records are lost unless each page starts in an earlier second than the page before it ends in.
  lemma NewestFirstIff(first: int, table: set<Row>)
    ensures var c := ByIndexedAt(Descending, first);
            ShowsAll(c, table) <==> forall j: nat :: SplitsDown(c, Order(Descending, table), j)
  {
    var c := ByIndexedAt(Descending, first);
    var rows := Order(Descending, table);
    AllShownIff(c, table);
    forall j: nat ensures ExactAt(c, rows, j) <==> SplitsDown(c, rows, j) {}
  }

  // Oldest first, records come again unless each page ends on the second.
  lemma OldestFirstIff(first: int, table: set<Row>)
    ensures var c := ByIndexedAt(Ascending, first);
            ShowsAll(c, table) <==> forall j: nat :: SplitsUp(c, Order(Ascending, table), j)
  {
    var c := ByIndexedAt(Ascending, first);
    var rows := Order(Ascending, table);
    AllShownIff(c, table);
    forall j: nat ensures ExactAt(c, rows, j) <==> SplitsUp(c, rows, j) {
      var i := Start(c.size, j);
      assert 0 < i < |rows| ==> Ahead(Ascending, rows[i - 1], rows[i]);
    }
  }

  // Two records of one second, one to a page: in neither direction are both seen once.
  lemma OneSecondTwoPages(time: int, a: int, b: int)
    requires time % MICROS == 0
    ensures var table := {Row(time + 700_000, a), Row(time + 500_000, b)};
            !ShowsAll(ByIndexedAt(Descending, 1), table) && !ShowsAll(ByIndexedAt(Ascending, 1), table)
  {
    var newer, older := Row(time + 700_000, a), Row(time + 500_000, b);
    var table := {newer, older};
    assert Start(1, 1) == Start(1, 0) + 1 == 1;
    SortedUnique(Descending, Order(Descending, table), [newer, older]);
    SortedUnique(Ascending, Order(Ascending, table), [older, newer]);
    NewestFirstIff(1, table);
    assert !SplitsDown(ByIndexedAt(Descending, 1), [newer, older], 1);
    OldestFirstIff(1, table);
    assert !SplitsUp(ByIndexedAt(Ascending, 1), [older, newer], 1);
  }

  // ---------- other sort fields ----------

  // For any other sort field the cursor still carries the indexed_at text where the
  // sort value belongs.  Keys and stamps are ranks of texts.
  function ByField(dir: Direction, first: int, stamp: Row -> int): Connection {
    Connection(dir, ClampPageSize(first), (r: Row) => Some(Row(stamp(r), r.id)), (r: Row) => true)
  }

  ghost predicate StampsFirst(table: set<Row>, stamp: Row -> int) {
    forall r, x | r in table && x in table :: stamp(r) < x.key
  }

  // Where every sort value comes after every date, as words do, only a single page is ever shown right.
  lemma WordsShowOnePage(dir: Direction, first: int, stamp: Row -> int, table: set<Row>)
    requires StampsFirst(table, stamp)
    ensures ShowsAll(ByField(dir, first, stamp), table) <==> |table| <= ClampPageSize(first)
  {
    var c := ByField(dir, first, stamp);
    var rows := Order(dir, table);
    AllShownIff(c, table);
    assert Start(c.size, 1) == Start(c.size, 0) + c.size == c.size;
    if |table| > c.size {
      assert rows[c.size - 1] in table && rows[c.size] in table;
      assert !ExactAt(c, rows, 1);
    } else {
      forall j: nat ensures ExactAt(c, rows, j) {
        if j > 0 {
          StartMonotone(c.size, 1, j);
        }
      }
    }
  }

  // ---------- records left out ----------

  function Filtered(dir: Direction, first: int, shown: Row -> bool): Connection {
    Connection(dir, ClampPageSize(first), (r: Row) => Some(r), shown)
  }

  // The page at i is gone on from without an edge.
  predicate Barren(c: Connection, rows: seq<Row>, i: nat) {
    AsksOn(c, rows, i) && Kept(c, PageAt(c, rows, i)) == []
  }

  // Even with exact cursors, a page whose records are all left out has no end cursor;
  // a client that goes on from it starts over.  Everything is shown exactly when no page is such.
  lemma LeftOutIff(dir: Direction, first: int, shown: Row -> bool, table: set<Row>)
    ensures var c, rows := Filtered(dir, first, shown), Order(dir, table);
            ShowsAll(c, table) <==> forall j: nat :: FruitfulAt(c, rows, j)
  {
    var c, rows := Filtered(dir, first, shown), Order(dir, table);
    ShowsAllIff(c, table);
    forall j: nat ensures CarriesAt(c, rows, j) <==> FruitfulAt(c, rows, j) {
      FruitfulPage(c, rows, j);
    }
  }

  // The j-th page, if it is asked for, has an edge or ends the walk.
  predicate FruitfulAt(c: Connection, rows: seq<Row>, j: nat) {
    Reaches(c, rows, j) ==> !Barren(c, rows, PageBegin(c, rows, j))
  }

  lemma FruitfulPage(c: Connection, rows: seq<Row>, j: nat)
    requires Sorted(c.dir, rows) && (forall r :: c.mark(r) == Some(r))
    ensures CarriesAt(c, rows, j) <==> FruitfulAt(c, rows, j)
  {
    ReachesNext(c, rows, j);
    if Reaches(c, rows, j + 1) {
      FruitfulCarries(c, rows, PageBegin(c, rows, j));
    }
  }

  lemma FruitfulCarries(c: Connection, rows: seq<Row>, i: nat)
    requires Sorted(c.dir, rows) && AsksOn(c, rows, i) && (forall r :: c.mark(r) == Some(r))
    ensures Carries(c, rows, i) <==> Kept(c, PageAt(c, rows, i)) != []
  {
    var page := PageAt(c, rows, i);
    if Kept(c, page) != [] {
      var q := LastKept(c, page);
      var last := rows[i + q];
      BeginAfter(c.dir, rows, i + q);
      assert NextBegin(c, rows, i) == i + q + 1;
      forall k | i + q + 1 <= k < i + c.size ensures !c.shown(rows[k]) {
        assert page[k - i] == rows[k];
      }
      NoneShown(c, rows, i + q + 1, i + c.size);
    }
  }

  // The rows beyond a row of the list begin right after it.
  lemma BeginAfter(dir: Direction, rows: seq<Row>, q: nat)
    requires Sorted(dir, rows) && q < |rows|
    ensures Begin(dir, rows, Some(rows[q])) == q + 1
  {
    BeginSplits(dir, rows, Some(rows[q]));
    assert !Beyond(dir, rows[q], rows[q]);
    if q + 1 < |rows| {
      assert Ahead(dir, rows[q], rows[q + 1]);
    }
  }

  lemma {:induction false} LastKept(c: Connection, rows: seq<Row>) returns (q: nat)
    requires Kept(c, rows) != []
    ensures q < |rows| && rows[q] == Kept(c, rows)[|Kept(c, rows)| - 1]
    ensures forall k | q < k < |rows| :: !c.shown(rows[k])
  {
    var n := |rows| - 1;
    if c.shown(rows[n]) {
      q := n;
    } else {
      q := LastKept(c, rows[..n]);
    }
  }

  lemma {:induction false} NoneShown(c: Connection, rows: seq<Row>, i: nat, k: nat)
    requires i <= k <= |rows| && forall j | i <= j < k :: !c.shown(rows[j])
    ensures FirstShown(c, rows, i) == FirstShown(c, rows, k)
    decreases k - i
  {
    if i < k {
      NoneShown(c, rows, i + 1, k);
    }
  }
}
