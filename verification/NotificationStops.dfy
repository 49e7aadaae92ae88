/**
 What a stop between two statements leaves behind.  No transaction spans the
 statements, so each stop is stated: what the tables are then, whether they still
 agree, and whether doing it again puts them right.
 */
module NotificationStops {
  import opened Wrappers
  import opened NotificationTables
  import opened NotificationAgreement

  // ---------- applying ----------

  // After how many statements a stop does no harm.
  predicate HarmlessStop(s: State, n: Notification, writes: nat) {
    || writes == 0
    || (writes == 1 && !NewGroup(s, n))
    || (writes == 2 && !NewGroup(s, n) && Used(s.participants, n.uri, n.recipient))
    || (writes >= 3 && !Stray(s, n))
  }

  // An envelope that nobody takes part in agrees with nothing.
  lemma BlankIsWrong(s: State, id: int)
    requires id in s.envelopes && Members(s.participants, id) == {}
    ensures !Inv(s)
  {
    assert !Agrees(s.envelopes[id], s.participants, id);
  }

  // A participant added without its count leaves the count one short.
  lemma UncountedIsWrong(s: State, n: Notification)
    requires Inv(s) && !NewGroup(s, n) && !Used(s.participants, n.uri, n.recipient)
    ensures !Inv(ApplyStopped(s, n, 2))
  {
    TargetIs(s, n);
    var id, s' := Target(s, n), ApplyStopped(s, n, 2);
    var before, after := Members(s.participants, id), Members(s'.participants, id);
    assert Agrees(s.envelopes[id], s.participants, id);
    assert after == before + {s.nextParticipant} && s.nextParticipant !in before;
    assert |after| == |before| + 1;
    assert !Agrees(s'.envelopes[id], s'.participants, id);
  }

  lemma SequencesDoNotMatter(s: State, t: State)
    requires Inv(s) && SameTables(s, t) && t.nextEnvelope >= s.nextEnvelope && t.nextParticipant >= s.nextParticipant
    ensures Inv(t)
  {
  }

  // A new envelope without its participant, or with one it does not count.
  lemma NewGroupStopIsWrong(s: State, n: Notification, writes: nat)
    requires Inv(s) && NewGroup(s, n) && 1 <= writes <= 2
    ensures !Inv(ApplyStopped(s, n, writes))
  {
    TargetIs(s, n);
    var id, s' := s.nextEnvelope, ApplyStopped(s, n, writes);
    assert s'.envelopes[id] == Blank(n);
    if writes == 1 || Used(s.participants, n.uri, n.recipient) {
      assert Members(s'.participants, id) == {};
      BlankIsWrong(s', id);
    } else {
      assert Members(s'.participants, id) == {s.nextParticipant};
      assert !Agrees(s'.envelopes[id], s'.participants, id);
    }
  }

  // The exact condition for a stop inside one application to leave the tables in agreement.
  lemma StoppedApplyIff(s: State, n: Notification, writes: nat)
    requires Inv(s)
    ensures Inv(ApplyStopped(s, n, writes)) <==> HarmlessStop(s, n, writes)
  {
    var s' := ApplyStopped(s, n, writes);
    if writes >= 3 {
      ApplyKeepsAgreementIff(s, n);
    } else if writes > 0 {
      if NewGroup(s, n) {
        NewGroupStopIsWrong(s, n, writes);
      } else if writes == 2 && !Used(s.participants, n.uri, n.recipient) {
        UncountedIsWrong(s, n);
      } else {
        SequencesDoNotMatter(s, s');
      }
    }
  }

  // When applying the notification again puts the tables right: not once the participant is
  // there uncounted, because the replay then counts nobody, and not for an envelope of its own.
  predicate RetryHeals(s: State, n: Notification, writes: nat) {
    || (writes == 0 && !Stray(s, n))
    || (writes == 1 && n.groupKey != "" && !Stray(s, n))
    || (writes == 2 && !NewGroup(s, n) && Used(s.participants, n.uri, n.recipient))
    || (writes >= 3 && !Stray(s, n))
  }

  // After a stop the group, if the notification has one, has its envelope.
  lemma GroupStands(s: State, n: Notification, writes: nat)
    requires Keyed(s) && writes >= 1 && n.groupKey != ""
    ensures HasGroup(ApplyStopped(s, n, writes).envelopes, n.recipient, n.groupKey)
  {
    TargetIs(s, n);
    var id, s' := Target(s, n), ApplyStopped(s, n, writes);
    assert id in s'.envelopes && InGroup(s'.envelopes[id], n.recipient, n.groupKey);
  }

  lemma StoppedKeepsKeys(s: State, n: Notification, writes: nat)
    requires Keyed(s)
    ensures Keyed(ApplyStopped(s, n, writes))
  {
    TargetIs(s, n);
    if writes >= 3 {
      ApplyKeepsKeys(s, n);
    } else if writes > 0 {
      var s', id := ApplyStopped(s, n, writes), Target(s, n);
      forall i | i in s'.envelopes && i != id ensures i in s.envelopes && s'.envelopes[i] == s.envelopes[i] {}
      assert s'.envelopes[id].did == n.recipient;
    }
  }

  lemma PartKeepsKeys(s: State, n: Notification, writes: nat, undone: bool)
    requires Keyed(s)
    ensures Keyed(ApplyPart(s, n, writes, undone))
  {
    StoppedKeepsKeys(s, n, if writes >= 3 && Undoes(s, n) && !undone then 2 else writes);
  }

  // Everything but the notification's own envelope is as it was after stopping and applying again.
  lemma RetryAfterEnvelope(s: State, n: Notification)
    requires Inv(s) && n.groupKey != "" && !Stray(s, n)
    ensures Inv(ApplyOne(ApplyStopped(s, n, 1), n))
  {
    var t := ApplyStopped(s, n, 1);
    TargetIs(s, n);
    StoppedKeepsKeys(s, n, 1);
    GroupStands(s, n, 1);
    TargetIs(t, n);
    var id, u := Target(t, n), ApplyOne(t, n);
    assert SameGroup(t.envelopes[id], t.envelopes[Target(s, n)]);
    ApplyKeepsKeys(t, n);
    if !NewGroup(s, n) {
      SequencesDoNotMatter(s, t);
      ApplyKeepsAgreement(t, n);
    } else {
      var added := u.participants[t.nextParticipant];
      forall i | i in u.envelopes ensures Agrees(u.envelopes[i], u.participants, i) {
        if i == id {
          BumpAgrees(Blank(n), s.participants, id, n, t.nextParticipant);
        } else {
          OtherEnvelopeAgrees(s.envelopes[i], s.participants, i, t.nextParticipant, added);
        }
      }
    }
  }

  lemma RetryHealsIff(s: State, n: Notification, writes: nat)
    requires Inv(s)
    ensures Inv(ApplyOne(ApplyStopped(s, n, writes), n)) <==> RetryHeals(s, n, writes)
  {
    var t := ApplyStopped(s, n, writes);
    StoppedApplyIff(s, n, writes);
    if HarmlessStop(s, n, writes) {
      ApplyKeepsAgreementIff(t, n);
      HarmlessRetry(s, n, writes);
    } else if writes == 1 && n.groupKey != "" && !Stray(s, n) {
      RetryAfterEnvelope(s, n);
    } else {
      RetryFails(s, n, writes);
    }
  }

  lemma HarmlessRetry(s: State, n: Notification, writes: nat)
    requires Inv(s) && HarmlessStop(s, n, writes)
    ensures Stray(ApplyStopped(s, n, writes), n) <==> !RetryHeals(s, n, writes)
  {
    if writes >= 3 {
      if n.groupKey != "" {
        GroupStands(s, n, writes);
      }
    }
  }

  // The envelope that the stop left wrong is still wrong after another application.
  lemma RetryFails(s: State, n: Notification, writes: nat)
    requires Inv(s) && !HarmlessStop(s, n, writes) && !RetryHeals(s, n, writes)
    ensures !Inv(ApplyOne(ApplyStopped(s, n, writes), n))
  {
    TargetIs(s, n);
    var t := ApplyStopped(s, n, writes);
    StoppedKeepsKeys(s, n, writes);
    TargetIs(t, n);
    var id, u := Target(s, n), ApplyOne(t, n);
    if n.groupKey != "" {
      GroupStands(s, n, writes);
      assert SameGroup(t.envelopes[Target(t, n)], t.envelopes[id]);
    }
    if writes == 2 && !Used(s.participants, n.uri, n.recipient) {
      assert SameUse(t.participants[s.nextParticipant], Participant(id, n.uri, n.cid, n.recipient, n.author, n.sortAt));
    }
    if Used(t.participants, n.uri, n.recipient) {
      assert SameTables(u, t);
      assert id in t.envelopes && !Agrees(t.envelopes[id], t.participants, id) by {
        WrongAtTarget(s, n, writes);
      }
    } else {
      assert writes == 1 && n.groupKey == "";
      assert Members(u.participants, id) == {} && id in u.envelopes;
      BlankIsWrong(u, id);
    }
  }

  lemma WrongAtTarget(s: State, n: Notification, writes: nat)
    requires Inv(s) && !HarmlessStop(s, n, writes)
    requires Used(ApplyStopped(s, n, writes).participants, n.uri, n.recipient)
    ensures var id, t := Target(s, n), ApplyStopped(s, n, writes);
            id in t.envelopes && !Agrees(t.envelopes[id], t.participants, id)
  {
    TargetIs(s, n);
    var id, t := Target(s, n), ApplyStopped(s, n, writes);
    if NewGroup(s, n) {
      assert t.envelopes[id] == Blank(n);
      assert Members(t.participants, id) <= {s.nextParticipant};
      if !Used(s.participants, n.uri, n.recipient) {
        assert Members(t.participants, id) == {s.nextParticipant};
      }
    } else {
      assert Agrees(s.envelopes[id], s.participants, id);
      assert Members(t.participants, id) == Members(s.participants, id) + {s.nextParticipant};
      assert |Members(t.participants, id)| == |Members(s.participants, id)| + 1;
    }
  }

  // When only the removal of the envelope fails, the batch goes on and the envelope stays, counting nobody:
  // the stop after two statements, which does harm exactly there and which no retry repairs.
  lemma FailedUndoIff(s: State, n: Notification)
    requires Inv(s) && !Stray(s, n)
    ensures Inv(ApplyUndoing(s, n, false)) <==> !Undoes(s, n)
    ensures Undoes(s, n) ==> !Inv(ApplyOne(ApplyUndoing(s, n, false), n))
  {
    if Undoes(s, n) {
      StoppedApplyIff(s, n, 2);
      RetryHealsIff(s, n, 2);
    } else {
      ApplyKeepsAgreement(s, n);
    }
  }

  // ---------- deleting ----------

  ghost predicate AllTouched(s: State, uri: string, ids: set<int>) {
    forall id | id in ids :: Touched(s.participants, uri, id)
  }

  // What the loop still owes this envelope: nothing, if it has dealt with it, or if only its
  // recompute is missing and the removed participant was neither the last nor the latest.
  predicate NothingOwed(s: State, uri: string, done: set<int>, half: Option<int>, id: int)
    requires id in s.envelopes
  {
    id in done || (half == Some(id) && s.envelopes[id].count > 1 && s.envelopes[id].latestUri != uri)
  }

  ghost predicate HarmlessDeleteStop(s: State, uri: string, done: set<int>, half: Option<int>) {
    forall id | id in s.envelopes && Touched(s.participants, uri, id) :: NothingOwed(s, uri, done, half, id)
  }

  lemma StoppedDeleteKeys(s: State, uri: string, done: set<int>, half: Option<int>)
    requires Keyed(s)
    ensures Keyed(DeleteStopped(s, uri, done, half))
  {
    ShrinkKeepsKeys(s, DeleteStopped(s, uri, done, half));
  }

  lemma StoppedDeleteKeepsOthers(s: State, uri: string, done: set<int>, half: Option<int>)
    requires Inv(s) && AllTouched(s, uri, done)
    ensures DeleteStopped(s, uri, done, half).participants == Others(s.participants, uri)
  {
    forall p | p in Others(s.participants, uri) ensures p in DeleteStopped(s, uri, done, half).participants {
      if s.participants[p].envelope in done {
        NobodyFalls(s, uri, p);
      }
    }
  }

  // The exact condition for a stop inside a delete: every envelope of a removed participant has been dealt
  // with, but for one that is counted down, still counts somebody, and whose latest record stays.
  lemma StoppedDeleteIff(s: State, uri: string, done: set<int>, half: Option<int>)
    requires Inv(s) && AllTouched(s, uri, done)
    requires half.Some? ==> half.value !in done && Touched(s.participants, uri, half.value)
    ensures Inv(DeleteStopped(s, uri, done, half)) <==> HarmlessDeleteStop(s, uri, done, half)
  {
    var t := DeleteStopped(s, uri, done, half);
    StoppedDeleteKeys(s, uri, done, half);
    forall id | id in s.envelopes
      ensures (id in t.envelopes ==> Agrees(t.envelopes[id], t.participants, id)) <==>
              (Touched(s.participants, uri, id) ==> NothingOwed(s, uri, done, half, id))
    {
      StoppedEnvelope(s, uri, done, half, id);
    }
    forall id | id in t.envelopes ensures id in s.envelopes {}
  }

  lemma StoppedEnvelope(s: State, uri: string, done: set<int>, half: Option<int>, id: int)
    requires Inv(s) && AllTouched(s, uri, done) && id in s.envelopes
    requires half.Some? ==> half.value !in done && Touched(s.participants, uri, half.value)
    ensures var t := DeleteStopped(s, uri, done, half);
            (id in t.envelopes ==> Agrees(t.envelopes[id], t.participants, id)) <==>
            (Touched(s.participants, uri, id) ==> NothingOwed(s, uri, done, half, id))
  {
    var e, ps := s.envelopes[id], Others(s.participants, uri);
    StoppedDeleteKeepsOthers(s, uri, done, half);
    MembersAfterDelete(s, uri, id);
    assert Agrees(e, s.participants, id);
    if !Touched(s.participants, uri, id) {
      StillAgrees(e, s.participants, ps, id);
    } else if id in done {
      if e.count > 1 {
        RecomputedAgrees(e.(count := e.count - 1), ps, id);
      }
    } else if half == Some(id) {
      HalfwayAgreesIff(s, uri, id);
    } else {
      assert !Agrees(e, ps, id);
    }
  }

  // An envelope that is counted down and not recomputed.
  lemma HalfwayAgreesIff(s: State, uri: string, id: int)
    requires Inv(s) && id in s.envelopes && Touched(s.participants, uri, id)
    ensures var e := s.envelopes[id];
            Agrees(e.(count := e.count - 1), Others(s.participants, uri), id) <==> e.count > 1 && e.latestUri != uri
  {
    var e, ps := s.envelopes[id], Others(s.participants, uri);
    var before, after := Members(s.participants, id), Members(ps, id);
    MembersAfterDelete(s, uri, id);
    assert Agrees(e, s.participants, id);
    var p :| Newest(s.participants, before, p) && ShowsLatest(e, s.participants[p]);
    if e.latestUri != uri {
      assert p in after;
      forall q | q in after ensures NotBefore(ps, p, q) {
        assert NotBefore(s.participants, p, q);
      }
      assert Newest(ps, after, p) && ShowsLatest(e.(count := e.count - 1), ps[p]);
    }
  }

  // Such a stop can do harm: the latest of two records goes, the envelope is counted down, and shows it still.
  lemma HalfwayBreaks() returns (s: State, uri: string, id: int)
    ensures Inv(s) && id in s.envelopes && s.envelopes[id].count > 1 && Touched(s.participants, uri, id)
    ensures !Inv(DeleteStopped(s, uri, {}, Some(id)))
  {
    var empty := State(map[], map[], 0, 0);
    var first := Notification("alice", "bob", "at://1", "c", "endorsement", None, 5, "g");
    var second := first.(author := "carol", uri := "at://2", sortAt := 6);
    ApplyKeepsAgreement(empty, first);
    TargetIs(empty, first);
    var one := ApplyOne(empty, first);
    assert InGroup(one.envelopes[0], "alice", "g") && one.participants.Keys == {0};
    ApplyKeepsAgreement(one, second);
    TargetIs(one, second);
    s, uri, id := ApplyOne(one, second), "at://2", 0;
    assert Target(one, second) == 0 && !Used(one.participants, "at://2", "alice");
    assert s.participants[1].uri == uri && s.participants[1].envelope == id;
    assert s.envelopes[0].latestUri == "at://2";
    StoppedDeleteIff(s, uri, {}, Some(id));
    assert !NothingOwed(s, uri, {}, Some(id), id);
  }

  // Deleting again finds no participants of the record and so repairs nothing.
  lemma DeleteAgainDoesNothing(s: State, uri: string, done: set<int>, half: Option<int>)
    ensures SameTables(Delete(DeleteStopped(s, uri, done, half), uri), DeleteStopped(s, uri, done, half))
  {
    var t := DeleteStopped(s, uri, done, half);
    forall id ensures !Touched(t.participants, uri, id) {}
    assert Others(t.participants, uri) == t.participants;
  }

  // With every envelope dealt with it is the whole delete.
  lemma DeleteDone(s: State, uri: string, done: set<int>)
    requires forall id :: id in done <==> Touched(s.participants, uri, id)
    ensures DeleteStopped(s, uri, done, None) == Delete(s, uri)
  {
  }
}
