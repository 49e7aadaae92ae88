/** Whole runs of applying and deleting, replays, and the repository itself. */
module NotificationRuns {
  import opened Wrappers
  import opened NotificationTables
  import opened NotificationAgreement
  import opened NotificationStops

  // ---------- runs ----------

  // An application of which `writes` statements were carried out (three are all of them),
  // a delete, or a delete that stopped.
  datatype Op =
    | ApplyOp(n: Notification, writes: nat)
    | DeleteOp(uri: string)
    | PartOfDelete(uri: string, done: set<int>, half: Option<int>)

  ghost function Do(s: State, op: Op): State {
    match op
    case ApplyOp(n, writes) => ApplyStopped(s, n, writes)
    case DeleteOp(uri) => Delete(s, uri)
    case PartOfDelete(uri, done, half) => DeleteStopped(s, uri, done, half)
  }

  // No stray replay, and no stop but a harmless one.
  ghost predicate Fine(s: State, op: Op) {
    match op
    case ApplyOp(n, writes) => HarmlessStop(s, n, writes)
    case DeleteOp(_) => true
    case PartOfDelete(uri, done, half) => Possible(s, uri, done, half) && HarmlessDeleteStop(s, uri, done, half)
  }

  ghost predicate Possible(s: State, uri: string, done: set<int>, half: Option<int>) {
    AllTouched(s, uri, done) && (half.Some? ==> half.value !in done && Touched(s.participants, uri, half.value))
  }

  ghost predicate Run(states: seq<State>, ops: seq<Op>) {
    && |states| == |ops| + 1 && states[0].envelopes == map[] && states[0].participants == map[]
    && forall i | 0 <= i < |ops| :: Fine(states[i], ops[i]) && states[i + 1] == Do(states[i], ops[i])
  }

  lemma FineKeepsAgreement(s: State, op: Op)
    requires Inv(s) && Fine(s, op)
    ensures Inv(Do(s, op))
  {
    match op
    case ApplyOp(n, writes) => StoppedApplyIff(s, n, writes);
    case DeleteOp(uri) => DeleteKeepsAgreement(s, uri);
    case PartOfDelete(uri, done, half) => StoppedDeleteIff(s, uri, done, half);
  }

  // After any sequence of applications and deletions, every envelope agrees with its participants.
  lemma {:induction false} RunAgrees(states: seq<State>, ops: seq<Op>, i: nat)
    requires Run(states, ops) && i < |states|
    ensures Inv(states[i])
  {
    if i > 0 {
      RunAgrees(states, ops, i - 1);
      assert Fine(states[i - 1], ops[i - 1]) && states[i] == Do(states[i - 1], ops[i - 1]);
      FineKeepsAgreement(states[i - 1], ops[i - 1]);
    }
  }

  // ---------- replays ----------

  // A further application of n would leave both tables alone.
  predicate Settled(s: State, n: Notification) {
    Used(s.participants, n.uri, n.recipient) && (n.groupKey != "" ==> HasGroup(s.envelopes, n.recipient, n.groupKey))
  }

  lemma ApplySettles(s: State, n: Notification)
    requires Keyed(s)
    ensures Settled(ApplyOne(s, n), n)
  {
    TargetIs(s, n);
    var s' := ApplyOne(s, n);
    var id := Target(s, n);
    if !Used(s.participants, n.uri, n.recipient) {
      var p := s'.participants[s.nextParticipant];
      assert p.uri == n.uri && p.recipient == n.recipient;
    }
    if n.groupKey != "" {
      assert InGroup(s'.envelopes[id], n.recipient, n.groupKey);
    }
  }

  lemma ApplyKeepsSettled(s: State, m: Notification, n: Notification)
    requires Keyed(s) && Settled(s, n)
    ensures Settled(ApplyOne(s, m), n)
  {
    TargetIs(s, m);
    var s' := ApplyOne(s, m);
    var p :| p in s.participants && s.participants[p].uri == n.uri && s.participants[p].recipient == n.recipient;
    assert s'.participants[p] == s.participants[p];
    if n.groupKey != "" {
      var id :| id in s.envelopes && InGroup(s.envelopes[id], n.recipient, n.groupKey);
      assert InGroup(s'.envelopes[id], n.recipient, n.groupKey);
    }
  }

  lemma SettledIsNoOp(s: State, n: Notification)
    requires Settled(s, n)
    ensures SameTables(ApplyOne(s, n), s)
  {
  }

  ghost predicate AllSettled(s: State, ns: seq<Notification>) {
    forall i | 0 <= i < |ns| :: Settled(s, ns[i])
  }

  lemma {:induction false} ApplyAllKeepsSettled(s: State, ms: seq<Notification>, n: Notification)
    requires Keyed(s) && Settled(s, n)
    ensures Keyed(Apply(s, ms)) && Settled(Apply(s, ms), n)
    decreases |ms|
  {
    if ms != [] {
      ApplyKeepsKeys(s, ms[0]);
      ApplyKeepsSettled(s, ms[0], n);
      ApplyAllKeepsSettled(ApplyOne(s, ms[0]), ms[1..], n);
    }
  }

  lemma {:induction false} ApplyAllSettles(s: State, ns: seq<Notification>)
    requires Keyed(s)
    ensures Keyed(Apply(s, ns)) && AllSettled(Apply(s, ns), ns)
    decreases |ns|
  {
    if ns != [] {
      ApplyKeepsKeys(s, ns[0]);
      ApplySettles(s, ns[0]);
      ApplyAllKeepsSettled(ApplyOne(s, ns[0]), ns[1..], ns[0]);
      ApplyAllSettles(ApplyOne(s, ns[0]), ns[1..]);
      forall i | 0 <= i < |ns| ensures Settled(Apply(s, ns), ns[i]) {
        assert i > 0 ==> ns[i] == ns[1..][i - 1];
      }
    }
  }

  lemma {:induction false} AllSettledIsNoOp(s: State, ns: seq<Notification>)
    requires AllSettled(s, ns)
    ensures SameTables(Apply(s, ns), s)
    decreases |ns|
  {
    if ns != [] {
      var s' := ApplyOne(s, ns[0]);
      SettledIsNoOp(s, ns[0]);
      forall i | 0 <= i < |ns[1..]| ensures Settled(s', ns[1..][i]) {
        assert Settled(s, ns[i + 1]);
      }
      AllSettledIsNoOp(s', ns[1..]);
    }
  }

  // Applying the same notifications again changes neither table.
  lemma {:induction false} ApplyTwice(s: State, ns: seq<Notification>)
    requires Keyed(s)
    ensures SameTables(Apply(Apply(s, ns), ns), Apply(s, ns))
  {
    ApplyAllSettles(s, ns);
    AllSettledIsNoOp(Apply(s, ns), ns);
  }

  // ---------- deleting what was applied ----------

  ghost predicate NoneStray(s: State, ns: seq<Notification>)
    decreases |ns|
  {
    ns == [] || (!Stray(s, ns[0]) && NoneStray(ApplyOne(s, ns[0]), ns[1..]))
  }

  // Every envelope of a keeps its identity in b.
  ghost predicate KeepsEnvelopes(a: State, b: State) {
    forall id | id in a.envelopes :: id in b.envelopes && SameFixed(b.envelopes[id], a.envelopes[id])
  }

  lemma {:induction false} ApplyAddsOnly(s: State, ns: seq<Notification>, uri: string)
    requires Inv(s) && NoneStray(s, ns) && forall i | 0 <= i < |ns| :: ns[i].uri == uri
    ensures var t := Apply(s, ns);
            Inv(t) && KeepsEnvelopes(s, t) && Others(t.participants, uri) == Others(s.participants, uri)
    decreases |ns|
  {
    if ns != [] {
      ApplyKeepsAgreement(s, ns[0]);
      TargetIs(s, ns[0]);
      var s' := ApplyOne(s, ns[0]);
      assert KeepsEnvelopes(s, s');
      assert Others(s'.participants, uri) == Others(s.participants, uri);
      forall i | 0 <= i < |ns[1..]| ensures ns[1..][i].uri == uri {
        assert ns[1..][i] == ns[i + 1];
      }
      ApplyAddsOnly(s', ns[1..], uri);
    }
  }

  // Given the participants, an envelope that agrees with them is determined by its fixed fields.
  lemma AgreementDetermines(a: Envelope, b: Envelope, ps: Participants, id: int)
    requires Agrees(a, ps, id) && Agrees(b, ps, id) && SameFixed(a, b)
    ensures a == b
  {
    var p :| Newest(ps, Members(ps, id), p) && ShowsLatest(a, ps[p]);
    var q :| Newest(ps, Members(ps, id), q) && ShowsLatest(b, ps[q]);
    NewestUnique(ps, Members(ps, id), p, q);
  }

  lemma EveryEnvelopeHasMember(s: State, id: int) returns (p: int)
    requires Inv(s) && id in s.envelopes
    ensures p in s.participants && s.participants[p].envelope == id
  {
    assert Agrees(s.envelopes[id], s.participants, id);
    p :| Newest(s.participants, Members(s.participants, id), p) && ShowsLatest(s.envelopes[id], s.participants[p]);
  }

  // For a record nobody was told about before, deleting after applying restores both tables exactly.
  lemma {:induction false} DeleteUndoesApply(s: State, ns: seq<Notification>, uri: string)
    requires Inv(s) && NoneStray(s, ns)
    requires forall i | 0 <= i < |ns| :: ns[i].uri == uri
    requires forall p | p in s.participants :: s.participants[p].uri != uri
    ensures SameTables(Delete(Apply(s, ns), uri), s)
  {
    ApplyAddsOnly(s, ns, uri);
    DeleteOfAdded(s, Apply(s, ns), uri);
  }

  lemma DeleteOfAdded(s: State, t: State, uri: string)
    requires Inv(s) && Inv(t) && KeepsEnvelopes(s, t)
    requires Others(t.participants, uri) == Others(s.participants, uri)
    requires forall p | p in s.participants :: s.participants[p].uri != uri
    ensures SameTables(Delete(t, uri), s)
  {
    DeleteKeepsAgreement(t, uri);
    var u := Delete(t, uri);
    OthersAll(s.participants, uri);
    forall id | id in s.envelopes && id in u.envelopes ensures SameFixed(u.envelopes[id], s.envelopes[id]) {
      assert SameFixed(u.envelopes[id], t.envelopes[id]) && SameFixed(t.envelopes[id], s.envelopes[id]);
    }
    SameParticipantsSameTables(s, u);
  }

  lemma OthersAll(ps: Participants, uri: string)
    requires forall p | p in ps :: ps[p].uri != uri
    ensures Others(ps, uri) == ps
  {
    forall p | p in ps ensures p in Others(ps, uri) && Others(ps, uri)[p] == ps[p] {
      assert ps[p].uri != uri;
    }
  }

  lemma SameParticipantsSameTables(s: State, u: State)
    requires Inv(s) && Inv(u) && u.participants == s.participants
    requires forall id | id in s.envelopes && id in u.envelopes :: SameFixed(u.envelopes[id], s.envelopes[id])
    ensures SameTables(u, s)
  {
    forall id | id in u.envelopes ensures id in s.envelopes {
      var p := EveryEnvelopeHasMember(u, id);
    }
    forall id | id in s.envelopes ensures id in u.envelopes && u.envelopes[id] == s.envelopes[id] {
      var p := EveryEnvelopeHasMember(s, id);
      AgreementDetermines(u.envelopes[id], s.envelopes[id], s.participants, id);
    }
  }

  // ---------- the service ----------

  datatype Operation = Create | Update | Remove

  const MAX_FAN_OUT_PER_RECORD := 100

  function Capped(ns: seq<Notification>): seq<Notification> {
    if |ns| > MAX_FAN_OUT_PER_RECORD then ns[..MAX_FAN_OUT_PER_RECORD] else ns
  }

  // Service.process for a registered collection: `extracted` is what the
  // notifier made of the record, None when it was too large or unreadable.
  ghost function Process(s: State, op: Operation, uri: string, extracted: Option<seq<Notification>>): State {
    if op.Remove? then Delete(s, uri)
    else
      var cleaned := if op.Update? then Delete(s, uri) else s;
      if extracted.None? then cleaned else Apply(cleaned, Capped(extracted.value))
  }

  // An update after a create leaves what the update alone would have left on the
  // tables before the create, up to where the id sequences stand.
  lemma {:induction false} UpdateReplacesCreate(s: State, uri: string, first: seq<Notification>,
                                                second: seq<Notification>)
    requires Inv(s) && NoneStray(s, Capped(first))
    requires forall i | 0 <= i < |first| :: first[i].uri == uri
    requires forall p | p in s.participants :: s.participants[p].uri != uri
    ensures var created := Process(s, Create, uri, Some(first));
            Process(created, Update, uri, Some(second))
            == Apply(s.(nextEnvelope := created.nextEnvelope, nextParticipant := created.nextParticipant),
                     Capped(second))
  {
    DeleteUndoesApply(s, Capped(first), uri);
  }

  // Creating and then removing a record leaves no trace in the tables.
  lemma {:induction false} RemoveUndoesCreate(s: State, uri: string, ns: seq<Notification>)
    requires Inv(s) && NoneStray(s, Capped(ns))
    requires forall i | 0 <= i < |ns| :: ns[i].uri == uri
    requires forall p | p in s.participants :: s.participants[p].uri != uri
    ensures SameTables(Process(Process(s, Create, uri, Some(ns)), Remove, uri, None), s)
  {
    DeleteUndoesApply(s, Capped(ns), uri);
  }

  // ---------- the repository ----------

  class Repository {
    var envelopes: Envelopes
    var participants: Participants
    var nextEnvelope: int
    var nextParticipant: int

    function Tables(): State
      reads this
    {
      State(envelopes, participants, nextEnvelope, nextParticipant)
    }

    constructor ()
      ensures Inv(Tables()) && envelopes == map[] && participants == map[]
    {
      envelopes, participants, nextEnvelope, nextParticipant := map[], map[], 1, 1;
    }

    // The upsert of an aggregated envelope or the insert of a new one; returns its id.
    method UpsertEnvelope(n: Notification) returns (id: int)
      requires Keyed(Tables())
      modifies this
      ensures id == Target(old(Tables()), n) && id in envelopes
      ensures envelopes == if NewGroup(old(Tables()), n) then old(envelopes)[id := Blank(n)] else old(envelopes)
      ensures participants == old(participants) && nextParticipant == old(nextParticipant)
      ensures nextEnvelope == old(nextEnvelope) + 1
    {
      ghost var s := Tables();
      TargetIs(s, n);
      id := nextEnvelope;
      nextEnvelope := nextEnvelope + 1;
      if n.groupKey != "" && exists i | i in envelopes :: InGroup(envelopes[i], n.recipient, n.groupKey) {
        id :| id in envelopes && InGroup(envelopes[id], n.recipient, n.groupKey);
        assert SameGroup(s.envelopes[id], s.envelopes[Target(s, n)]);
      } else {
        envelopes := envelopes[id := Blank(n)];
      }
    }

    // applyOne; the process stops, or a statement fails, after `writes` statements.  The
    // statement that removes a replay's new envelope may fail unnoticed.
    method ApplyOne(n: Notification, writes: nat, undone: bool) returns (ok: bool)
      requires Keyed(Tables())
      modifies this
      ensures Tables() == ApplyPart(old(Tables()), n, writes, undone)
      ensures writes >= 3 ==> ok
      ensures ok ==> Tables() == ApplyUndoing(old(Tables()), n, undone)
    {
      ghost var s := Tables();
      TargetIs(s, n);
      if writes == 0 {
        return false;
      }
      var id := UpsertEnvelope(n);
      if writes == 1 {
        return false;
      }
      var pid := nextParticipant;
      nextParticipant := nextParticipant + 1;
      if Used(participants, n.uri, n.recipient) {
        if n.groupKey == "" {
          if writes == 2 {
            return false;
          }
          if undone {
            RemoveBlank(id);
            assert envelopes == s.envelopes;
          }
        }
        return true;
      }
      participants := participants[pid := Participant(id, n.uri, n.cid, n.recipient, n.author, n.sortAt)];
      if writes == 2 {
        return false;
      }
      envelopes := envelopes[id := Bumped(envelopes[id], n)];
      return true;
    }

    // DELETE .. WHERE id = $1 AND count = 0
    method RemoveBlank(id: int)
      modifies this`envelopes
      ensures envelopes == old(envelopes)
                           - (if id in old(envelopes) && old(envelopes)[id].count == 0 then {id} else {})
    {
      if id in envelopes && envelopes[id].count == 0 {
        envelopes := envelopes - {id};
      }
    }

    // The loop over a batch ends at the first error that is noticed: `full` notifications get
    // through, and `writes` statements of the next.
    method Apply(ns: seq<Notification>, undone: seq<bool>, full: nat, writes: nat) returns (ok: bool)
      requires Keyed(Tables()) && |undone| == |ns|
      modifies this
      ensures Keyed(Tables()) && Tables() == ApplyUntil(old(Tables()), ns, undone, full, writes)
      ensures ok <==> full >= |ns|
      ensures ok && (forall i | 0 <= i < |undone| :: undone[i]) ==>
              Tables() == NotificationTables.Apply(old(Tables()), ns)
    {
      ghost var s := Tables();
      assert ns[0..] == ns && undone[0..] == undone;
      for i := 0 to |ns|
        invariant Keyed(Tables()) && i <= full && StillToApply(s, Tables(), ns, undone, i, full, writes)
      {
        ghost var t := Tables();
        ApplyNext(s, t, ns, undone, i, full, writes);
        PartKeepsKeys(t, ns[i], if i == full then writes else 3, undone[i]);
        if i == full {
          ok := ApplyOne(ns[i], writes, undone[i]);
          return false;
        }
        ok := ApplyOne(ns[i], 3, undone[i]);
      }
      assert ns[|ns|..] == [] && undone[|ns|..] == [];
      if forall i | 0 <= i < |undone| :: undone[i] {
        UndoneIsApplied(s, ns, undone, full, writes);
      }
      return true;
    }

    // DELETE .. RETURNING notification_id: the envelopes of the removed participants, in some order.
    method RemoveParticipants(uri: string) returns (ids: seq<int>)
      requires Keyed(Tables())
      modifies this
      ensures participants == Others(old(participants), uri)
      ensures envelopes == old(envelopes) && nextEnvelope == old(nextEnvelope)
              && nextParticipant == old(nextParticipant)
      ensures forall id :: id in ids <==> Touched(old(participants), uri, id)
      ensures forall i, j | 0 <= i < j < |ids| :: ids[i] != ids[j]
    {
      ghost var ps := participants;
      var rest := set p | p in participants && participants[p].uri == uri;
      ghost var all := rest;
      ids := [];
      ghost var taken: seq<int> := [];
      while rest != {}
        invariant rest <= all && all == set p | p in ps && ps[p].uri == uri
        invariant |taken| == |ids|
        invariant forall i | 0 <= i < |ids| :: taken[i] in all && taken[i] !in rest && ids[i] == ps[taken[i]].envelope
        invariant forall i, j | 0 <= i < j < |taken| :: taken[i] != taken[j]
        invariant forall p | p in all :: p in rest || ps[p].envelope in ids
        invariant envelopes == old(envelopes) && nextEnvelope == old(nextEnvelope)
                  && nextParticipant == old(nextParticipant)
        invariant participants == ps
        decreases rest
      {
        var p := PickOne(rest);
        rest := rest - {p};
        taken := taken + [p];
        ids := ids + [participants[p].envelope];
      }
      forall i, j | 0 <= i < j < |ids| ensures ids[i] != ids[j] {
        OnePerEnvelope(old(Tables()), uri, taken[i], taken[j]);
      }
      forall id ensures id in ids <==> Touched(ps, uri, id) {
        if id in ids {
          var i :| 0 <= i < |ids| && ids[i] == id;
          var p := taken[i];
          assert p in all;
          assert p in ps && ps[p].uri == uri && ps[p].envelope == id;
        }
        if Touched(ps, uri, id) {
          var p :| p in ps && ps[p].uri == uri && ps[p].envelope == id;
          assert p in all;
        }
      }
      participants := map p | p in participants && participants[p].uri != uri :: participants[p];
    }

    // The recompute: the newest remaining participant, if any.
    method Recompute(id: int)
      requires id in envelopes
      modifies this
      ensures envelopes == old(envelopes)[id := Recomputed(old(envelopes)[id], participants, id)]
      ensures participants == old(participants) && nextEnvelope == old(nextEnvelope)
              && nextParticipant == old(nextParticipant)
    {
      if p :| p in participants && Newest(participants, Members(participants, id), p) {
        var latest := participants[p];
        ghost var q :| Newest(participants, Members(participants, id), q)
          && Recomputed(envelopes[id], participants, id)
             == envelopes[id].(sortAt := participants[q].sortAt, latestUri := participants[q].uri,
                               latestCid := participants[q].cid, latestAuthor := participants[q].author);
        NewestUnique(participants, Members(participants, id), p, q);
        envelopes := envelopes[id := envelopes[id].(sortAt := latest.sortAt, latestUri := latest.uri,
                                                    latestCid := latest.cid, latestAuthor := latest.author)];
      }
    }

    method Decrement(id: int)
      requires id in envelopes
      modifies this`envelopes
      ensures envelopes == old(envelopes)[id := old(envelopes)[id].(count := old(envelopes)[id].count - 1)]
    {
      envelopes := envelopes[id := envelopes[id].(count := envelopes[id].count - 1)];
    }

    // One round of the loop: decrement, delete at zero with what it still holds, recompute otherwise.
    method DropOne(id: int)
      requires id in envelopes
      modifies this
      ensures Tables() == Dropped(old(Tables()), id)
    {
      ghost var before := envelopes;
      Decrement(id);
      var e := envelopes[id];
      if e.count <= 0 {
        envelopes := envelopes - {id};
        participants := map p | p in participants && participants[p].envelope != id :: participants[p];
        assert envelopes == before - {id};
        return;
      }
      Recompute(id);
      assert envelopes == before[id := Recomputed(e, participants, id)];
    }

    // The delete and the loop over its envelopes.  The process stops before the first
    // statement, or after `full` envelopes, possibly with the next one's count decremented.
    method DeleteByRecordURI(uri: string, started: bool, full: nat, halfway: bool)
      returns (ok: bool, ghost done: set<int>, ghost half: Option<int>)
      requires Keyed(Tables())
      modifies this
      ensures Keyed(Tables())
      ensures !started ==> !ok && Tables() == old(Tables())
      ensures started ==> Possible(old(Tables()), uri, done, half)
                          && Tables() == DeleteStopped(old(Tables()), uri, done, half)
      ensures started && !ok ==> |done| == full && (half.Some? <==> halfway)
      ensures ok ==> Tables() == Delete(old(Tables()), uri)
      ensures ok && old(Inv(Tables())) ==> Inv(Tables())
    {
      ok, done, half := false, {}, None;
      if !started {
        return;
      }
      ghost var s := Tables();
      var ids := RemoveParticipants(uri);
      TouchedExist(s, uri);
      ok, done, half := DropAll(s, uri, ids, full, halfway);
      StoppedDeleteKeys(s, uri, done, half);
      if ok {
        DeleteDone(s, uri, done);
        if Inv(s) {
          DeleteKeepsAgreement(s, uri);
        }
      }
    }

    method DropAll(ghost s: State, uri: string, ids: seq<int>, full: nat, halfway: bool)
      returns (ok: bool, ghost done: set<int>, ghost half: Option<int>)
      requires Tables() == s.(participants := Others(s.participants, uri))
      requires forall id | id in ids :: id in s.envelopes
      requires forall i, j | 0 <= i < j < |ids| :: ids[i] != ids[j]
      modifies this
      ensures LeftBy(s, uri, done, half, Tables())
      ensures done <= SetOf(ids) && (half.Some? ==> half.value in ids && half.value !in done)
      ensures if ok then done == SetOf(ids) && half.None? else |done| == full && (half.Some? <==> halfway)
    {
      var n := if full < |ids| then full else |ids|;
      done := DropFirst(s, uri, ids, n);
      half := None;
      ok := full >= |ids|;
      if !ok {
        SetOfNext(ids, n);
        DropNext(s, uri, done, ids[n], Tables());
        if halfway {
          half := Some(ids[n]);
          Decrement(ids[n]);
        }
      } else {
        assert ids[..n] == ids;
      }
    }

    method DropFirst(ghost s: State, uri: string, ids: seq<int>, n: nat) returns (ghost done: set<int>)
      requires Tables() == s.(participants := Others(s.participants, uri)) && n <= |ids|
      requires forall id | id in ids :: id in s.envelopes
      requires forall i, j | 0 <= i < j < |ids| :: ids[i] != ids[j]
      modifies this
      ensures LeftBy(s, uri, done, None, Tables()) && done == SetOf(ids[..n]) && |done| == n
    {
      done := {};
      for i := 0 to n
        invariant done == SetOf(ids[..i]) && |done| == i
        invariant LeftBy(s, uri, done, None, Tables())
      {
        SetOfNext(ids, i);
        DropNext(s, uri, done, ids[i], Tables());
        DropOne(ids[i]);
        done := done + {ids[i]};
      }
    }
  }

  // With the first i notifications of the batch passed, the tables went from s to t.
  ghost predicate StillToApply(s: State, t: State, ns: seq<Notification>, undone: seq<bool>, i: nat, full: nat,
                               writes: nat)
    requires i <= |ns| == |undone| && i <= full
  {
    ApplyUntil(t, ns[i..], undone[i..], full - i, writes) == ApplyUntil(s, ns, undone, full, writes)
  }

  lemma ApplyNext(s: State, t: State, ns: seq<Notification>, undone: seq<bool>, i: nat, full: nat, writes: nat)
    requires i < |ns| == |undone| && i <= full && StillToApply(s, t, ns, undone, i, full, writes)
    ensures i == full ==> ApplyUntil(s, ns, undone, full, writes) == ApplyPart(t, ns[i], writes, undone[i])
    ensures i < full ==> StillToApply(s, ApplyUndoing(t, ns[i], undone[i]), ns, undone, i + 1, full, writes)
  {
    assert ns[i..][0] == ns[i] && ns[i..][1..] == ns[i + 1..];
    assert undone[i..][0] == undone[i] && undone[i..][1..] == undone[i + 1..];
  }

  lemma {:induction false} UndoneIsApplied(s: State, ns: seq<Notification>, undone: seq<bool>, full: nat, writes: nat)
    requires |ns| == |undone| && full >= |ns| && forall i | 0 <= i < |undone| :: undone[i]
    ensures ApplyUntil(s, ns, undone, full, writes) == Apply(s, ns)
    decreases |ns|
  {
    if ns != [] {
      UndoneIsApplied(ApplyOne(s, ns[0]), ns[1..], undone[1..], full - 1, writes);
    }
  }

  ghost function SetOf(ids: seq<int>): set<int> {
    set id | id in ids
  }

  lemma SetOfNext(ids: seq<int>, i: nat)
    requires i < |ids| && forall k, l | 0 <= k < l < |ids| :: ids[k] != ids[l]
    ensures SetOf(ids[..i + 1]) == SetOf(ids[..i]) + {ids[i]} && ids[i] !in SetOf(ids[..i]) && ids[i] in ids
    ensures SetOf(ids[..i]) <= SetOf(ids)
  {
    assert ids[..i + 1] == ids[..i] + [ids[i]];
  }

  method PickOne<T(==)>(s: set<T>) returns (x: T)
    requires s != {}
    ensures x in s
  {
    x :| x in s;
  }

  // The next envelope of the loop, after those in `done`.
  ghost predicate LeftBy(s: State, uri: string, done: set<int>, half: Option<int>, t: State) {
    t == DeleteStopped(s, uri, done, half)
  }

  lemma DropNext(s: State, uri: string, done: set<int>, id: int, t: State)
    requires id in s.envelopes && id !in done && LeftBy(s, uri, done, None, t)
    ensures id in t.envelopes
    ensures LeftBy(s, uri, done + {id}, None, Dropped(t, id))
    ensures LeftBy(s, uri, done, Some(id),
                   t.(envelopes := t.envelopes[id := t.envelopes[id].(count := t.envelopes[id].count - 1)]))
  {
    var e := t.envelopes[id].(count := t.envelopes[id].count - 1);
    SameMembersSameRecompute(e, t.participants, Others(s.participants, uri), id);
    assert Dropped(t, id).participants == DeleteStopped(s, uri, done + {id}, None).participants;
    assert Dropped(t, id).envelopes == DeleteStopped(s, uri, done + {id}, None).envelopes;
  }

  // The recompute looks at the envelope's own participants only.
  lemma SameMembersSameRecompute(e: Envelope, a: Participants, b: Participants, id: int)
    requires Members(a, id) == Members(b, id) && forall p | p in Members(a, id) :: a[p] == b[p]
    ensures Recomputed(e, a, id) == Recomputed(e, b, id)
  {
    var members := Members(a, id);
    forall p ensures Newest(a, members, p) <==> Newest(b, members, p) {
      if p in members {
        forall q | q in members ensures NotBefore(a, p, q) <==> NotBefore(b, p, q) {}
      }
    }
    if p :| Newest(a, members, p) {
      forall q | Newest(a, members, q) ensures q == p {
        NewestUnique(a, members, p, q);
      }
    }
  }

  lemma TouchedExist(s: State, uri: string)
    requires Keyed(s)
    ensures forall id :: Touched(s.participants, uri, id) ==> id in s.envelopes
  {
  }

  lemma OnePerEnvelope(s: State, uri: string, p: int, q: int)
    requires Keyed(s) && p in s.participants && q in s.participants && p != q
    requires s.participants[p].uri == uri && s.participants[q].uri == uri
    ensures s.participants[p].envelope != s.participants[q].envelope
  {
    assert !SameUse(s.participants[p], s.participants[q]);
  }
}
