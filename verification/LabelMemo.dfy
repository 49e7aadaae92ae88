/** The bounded memo of label definitions known to be in the database, under interleaved calls. */
module LabelMemo {

  const MAX_KNOWN_VALS: nat := 10_000
  const SEPARATOR: char := 0 as char

  function MemoKey(src: string, val: string): string {
    src + [SEPARATOR] + val
  }

  // A PostgreSQL text value holds no zero byte: an insert with one fails.
  predicate Storable(src: string, val: string) {
    SEPARATOR !in src && SEPARATOR !in val
  }

  // Where a call of ensureDefinition stands between its critical sections.
  datatype Phase = Looking | Inserting | Remembering | Done | Failed

  datatype Call = Call(src: string, val: string, phase: Phase)

  // The two memo fields, the label_definition rows, and the calls in flight.
  datatype State = State(known: set<string>, order: seq<string>, rows: set<(string, string)>, calls: seq<Call>)

  // One step of the schedule: a call arrives, or call `id` runs its next section,
  // its insert reaching the database or not.
  datatype Event = Arrive(src: string, val: string) | Advance(id: nat, dbOk: bool)

  const INITIAL := State({}, [], {}, [])

  function Remembered(s: State, key: string): State {
    if key in s.known then s
    else if |s.known| >= MAX_KNOWN_VALS && |s.order| > 0 then
      s.(known := s.known - {s.order[0]} + {key}, order := s.order[1..] + [key])
    else
      s.(known := s.known + {key}, order := s.order + [key])
  }

  function AdvanceCall(s: State, id: nat, dbOk: bool): State
    requires id < |s.calls|
  {
    var call := s.calls[id];
    var key := MemoKey(call.src, call.val);
    match call.phase
    case Looking =>
      s.(calls := s.calls[id := call.(phase := if key in s.known then Done else Inserting)])
    case Inserting =>
      if dbOk && Storable(call.src, call.val) then
        s.(rows := s.rows + {(call.src, call.val)}, calls := s.calls[id := call.(phase := Remembering)])
      else
        s.(calls := s.calls[id := call.(phase := Failed)])
    case Remembering =>
      Remembered(s, key).(calls := s.calls[id := call.(phase := Done)])
    case _ => s
  }

  function Step(s: State, e: Event): State {
    match e
    case Arrive(src, val) => s.(calls := s.calls + [Call(src, val, Looking)])
    case Advance(id, dbOk) => if id < |s.calls| then AdvanceCall(s, id, dbOk) else s
  }

  function Run(events: seq<Event>): State {
    if events == [] then INITIAL else Step(Run(events[..|events| - 1]), events[|events| - 1])
  }

  class Memo {
    var known: set<string>
    var order: seq<string>
    var rows: set<(string, string)>
    var calls: seq<Call>

    function Contents(): State
      reads this
    {
      State(known, order, rows, calls)
    }

    constructor ()
      ensures Contents() == INITIAL
    {
      known, order, rows, calls := {}, [], {}, [];
    }

    method Arrive(src: string, val: string) returns (id: nat)
      modifies this
      ensures id == old(|calls|) && Contents() == Step(old(Contents()), Event.Arrive(src, val))
    {
      id := |calls|;
      calls := calls + [Call(src, val, Looking)];
    }

    // The first critical section.
    method Look(id: nat)
      requires id < |calls| && calls[id].phase.Looking?
      modifies this`calls
      ensures forall dbOk :: Contents() == Step(old(Contents()), Advance(id, dbOk))
    {
      var call := calls[id];
      if MemoKey(call.src, call.val) in known {
        calls := calls[id := call.(phase := Done)];
        return;
      }
      calls := calls[id := call.(phase := Inserting)];
    }

    // INSERT ... ON CONFLICT DO NOTHING, outside any lock.
    method Insert(id: nat, dbOk: bool)
      requires id < |calls| && calls[id].phase.Inserting?
      modifies this`rows, this`calls
      ensures Contents() == Step(old(Contents()), Advance(id, dbOk))
    {
      var call := calls[id];
      if !dbOk || !Storable(call.src, call.val) {
        calls := calls[id := call.(phase := Failed)];
        return;
      }
      rows := rows + {(call.src, call.val)};
      calls := calls[id := call.(phase := Remembering)];
    }

    // The second critical section.
    method Remember(id: nat)
      requires id < |calls| && calls[id].phase.Remembering?
      modifies this`known, this`order, this`calls
      ensures forall dbOk :: Contents() == Step(old(Contents()), Advance(id, dbOk))
    {
      var call := calls[id];
      var key := MemoKey(call.src, call.val);
      calls := calls[id := call.(phase := Done)];
      if key in known {
        return;
      }
      if |known| >= MAX_KNOWN_VALS && |order| > 0 {
        var oldest := order[0];
        order := order[1..];
        known := known - {oldest};
      }
      known := known + {key};
      order := order + [key];
    }
  }

  // ---------- the key ----------

  lemma OneSeparator(src: string, val: string, i: nat)
    requires Storable(src, val) && i < |MemoKey(src, val)|
    ensures MemoKey(src, val)[i] == SEPARATOR <==> i == |src|
  {
    assert i != |src| ==> MemoKey(src, val)[i] in src || MemoKey(src, val)[i] in val;
  }

  // A key of a storable pair is the key of no other pair, storable or not.
  lemma {:induction false} KeyNamesOnePair(src: string, val: string, src': string, val': string)
    requires Storable(src, val) && MemoKey(src, val) == MemoKey(src', val')
    ensures src == src' && val == val'
  {
    var key := MemoKey(src, val);
    assert key[|src'|] == SEPARATOR;
    OneSeparator(src, val, |src'|);
    assert src == key[..|src|] && src' == key[..|src|];
    assert val == key[|src| + 1..] && val' == key[|src| + 1..];
  }

  // Without that property of the database, two pairs could share a key.
  lemma KeysCanCollide()
    ensures MemoKey("a" + [SEPARATOR] + "b", "c") == MemoKey("a", "b" + [SEPARATOR] + "c")
  {
  }

  // ---------- every reachable state ----------

  ghost predicate NoDuplicates(order: seq<string>) {
    forall i, j | 0 <= i < j < |order| :: order[i] != order[j]
  }

  ghost predicate Elements(known: set<string>, order: seq<string>) {
    && (forall key :: key in known <==> key in order)
    && |known| == |order|
  }

  predicate HasRow(s: State, key: string) {
    exists row | row in s.rows :: MemoKey(row.0, row.1) == key
  }

  ghost predicate Inv(s: State) {
    && NoDuplicates(s.order) && Elements(s.known, s.order) && |s.known| <= MAX_KNOWN_VALS
    && (forall key | key in s.known :: HasRow(s, key))
    && (forall row | row in s.rows :: Storable(row.0, row.1))
    && (forall call | call in s.calls && (call.phase.Remembering? || call.phase.Done?) ::
        (call.src, call.val) in s.rows)
  }

  // Evicting the oldest key leaves the memo and its order in agreement.
  lemma EvictionAgrees(known: set<string>, order: seq<string>)
    requires NoDuplicates(order) && Elements(known, order) && |order| > 0
    ensures NoDuplicates(order[1..]) && Elements(known - {order[0]}, order[1..])
  {
    var rest := order[1..];
    assert order == [order[0]] + rest;
    assert order[0] in known;
    assert order[0] !in rest;
    assert |known - {order[0]}| == |known| - 1;
  }

  lemma AdditionAgrees(known: set<string>, order: seq<string>, key: string)
    requires NoDuplicates(order) && Elements(known, order) && key !in known
    ensures NoDuplicates(order + [key]) && Elements(known + {key}, order + [key])
  {
    assert key !in order;
    assert |known + {key}| == |known| + 1;
  }

  lemma RememberedKeepsInv(s: State, src: string, val: string)
    requires Inv(s) && (src, val) in s.rows
    ensures Inv(Remembered(s, MemoKey(src, val)))
    ensures MemoKey(src, val) in Remembered(s, MemoKey(src, val)).known
  {
    var key := MemoKey(src, val);
    var s' := Remembered(s, key);
    if key !in s.known {
      if |s.known| >= MAX_KNOWN_VALS && |s.order| > 0 {
        EvictionAgrees(s.known, s.order);
        AdditionAgrees(s.known - {s.order[0]}, s.order[1..], key);
      } else {
        AdditionAgrees(s.known, s.order, key);
      }
    }
    RowsCover(s, s', src, val);
  }

  lemma RowsCover(s: State, s': State, src: string, val: string)
    requires forall key | key in s.known :: HasRow(s, key)
    requires (src, val) in s.rows && s.rows <= s'.rows && s'.known <= s.known + {MemoKey(src, val)}
    ensures forall key | key in s'.known :: HasRow(s', key)
  {
    forall key | key in s'.known ensures HasRow(s', key) {
      if key in s.known {
        assert HasRow(s, key);
        var row :| row in s.rows && MemoKey(row.0, row.1) == key;
        assert row in s'.rows;
      } else {
        assert MemoKey((src, val).0, (src, val).1) == key;
      }
    }
  }

  // A hit means that this very pair has its definition row already.
  lemma HitHasRow(s: State, src: string, val: string)
    requires Inv(s) && MemoKey(src, val) in s.known
    ensures (src, val) in s.rows
  {
    assert HasRow(s, MemoKey(src, val));
    var row :| row in s.rows && MemoKey(row.0, row.1) == MemoKey(src, val);
    KeyNamesOnePair(row.0, row.1, src, val);
  }

  lemma StepKeepsInv(s: State, e: Event)
    requires Inv(s)
    ensures Inv(Step(s, e)) && s.rows <= Step(s, e).rows
  {
    if e.Advance? && e.id < |s.calls| {
      var call := s.calls[e.id];
      var s' := Step(s, e);
      if call.phase.Looking? && MemoKey(call.src, call.val) in s.known {
        HitHasRow(s, call.src, call.val);
      }
      if call.phase.Remembering? {
        RememberedKeepsInv(s, call.src, call.val);
        forall k | k in s'.known ensures HasRow(s', k) {
          assert HasRow(Remembered(s, MemoKey(call.src, call.val)), k);
        }
      } else {
        forall k | k in s'.known ensures HasRow(s', k) {
          assert HasRow(s, k);
          var row :| row in s.rows && MemoKey(row.0, row.1) == k;
          assert row in s'.rows;
        }
      }
    }
  }

  // Under any interleaving: the memo and its order agree, stay bounded, and whatever
  // call has returned without an error has its definition row, by a hit or by its insert.
  lemma {:induction false} RunKeepsInv(events: seq<Event>)
    ensures Inv(Run(events))
  {
    if events != [] {
      RunKeepsInv(events[..|events| - 1]);
      StepKeepsInv(Run(events[..|events| - 1]), events[|events| - 1]);
    }
  }

  lemma {:induction false} MemoHitNeverSkipsAnInsert(events: seq<Event>, src: string, val: string)
    ensures MemoKey(src, val) in Run(events).known ==> (src, val) in Run(events).rows
    ensures forall call | call in Run(events).calls && call.phase.Done? :: (call.src, call.val) in Run(events).rows
  {
    RunKeepsInv(events);
    if MemoKey(src, val) in Run(events).known {
      HitHasRow(Run(events), src, val);
    }
  }

  // ---------- first in, first out ----------

  // The keys added so far, in the order they were added.
  function Added(events: seq<Event>): seq<string> {
    if events == [] then []
    else
      var before := Run(events[..|events| - 1]);
      Added(events[..|events| - 1]) + Additions(before, events[|events| - 1])
  }

  function Additions(s: State, e: Event): seq<string> {
    if e.Advance? && e.id < |s.calls| && s.calls[e.id].phase.Remembering?
       && MemoKey(s.calls[e.id].src, s.calls[e.id].val) !in s.known
    then [MemoKey(s.calls[e.id].src, s.calls[e.id].val)] else []
  }

  function LastOf(log: seq<string>, n: nat): seq<string> {
    if |log| <= n then log else log[|log| - n..]
  }

  // The memo holds exactly the last MAX_KNOWN_VALS keys added: it evicts the oldest, and only when full.
  lemma {:induction false} MemoIsTheLatest(events: seq<Event>)
    ensures Run(events).order == LastOf(Added(events), MAX_KNOWN_VALS)
  {
    if events != [] {
      var prefix, e := events[..|events| - 1], events[|events| - 1];
      MemoIsTheLatest(prefix);
      RunKeepsInv(prefix);
      var s, log := Run(prefix), Added(prefix);
      LastAfterAppend(log, Additions(s, e), MAX_KNOWN_VALS);
    }
  }

  lemma LastAfterAppend(log: seq<string>, more: seq<string>, n: nat)
    requires |more| <= 1 && n > 0
    ensures more == [] ==> LastOf(log + more, n) == LastOf(log, n)
    ensures |more| == 1 && |LastOf(log, n)| < n ==> LastOf(log + more, n) == LastOf(log, n) + more
    ensures |more| == 1 && |LastOf(log, n)| == n ==> LastOf(log + more, n) == LastOf(log, n)[1..] + more
  {
    if more == [] {
      assert log + more == log;
    }
  }
}
