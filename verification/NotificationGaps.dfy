/**
 What later deletes do to an envelope whose count a stop left wrong.  The gap between
 the participants an envelope has and those it counts stays as it is until the
 envelope falls, and what it still holds then falls with it.
 */
module NotificationGaps {
  import opened Wrappers
  import opened NotificationTables
  import opened NotificationAgreement
  import opened NotificationStops

  function Gap(s: State, id: int): int
    requires id in s.envelopes
  {
    |Members(s.participants, id)| - s.envelopes[id].count
  }

  // ---------- the gaps that stops leave ----------

  // A participant added uncounted leaves one more than is counted.
  lemma ApplyStopGap(s: State, n: Notification, writes: nat)
    requires Inv(s) && 1 <= writes <= 2
    ensures var t := ApplyStopped(s, n, writes);
            && Target(s, n) in t.envelopes
            && Gap(t, Target(s, n)) == if writes == 2 && !Used(s.participants, n.uri, n.recipient) then 1 else 0
  {
    TargetIs(s, n);
    var id := Target(s, n);
    var added := Participant(id, n.uri, n.cid, n.recipient, n.author, n.sortAt);
    if !NewGroup(s, n) {
      assert Agrees(s.envelopes[id], s.participants, id);
    }
    OneMoreMember(s.participants, id, s.nextParticipant, added);
  }

  lemma OneMoreMember(ps: Participants, id: int, p: int, added: Participant)
    requires p !in ps && added.envelope == id
    ensures |Members(ps[p := added], id)| == |Members(ps, id)| + 1
  {
    assert Members(ps[p := added], id) == Members(ps, id) + {p};
  }

  // A participant removed and still counted leaves one fewer.
  lemma DeleteStopGap(s: State, uri: string, done: set<int>, half: Option<int>, id: int)
    requires Inv(s) && AllTouched(s, uri, done)
    requires id in s.envelopes && Touched(s.participants, uri, id) && id !in done
    ensures var t := DeleteStopped(s, uri, done, half);
            id in t.envelopes && Gap(t, id) == if half == Some(id) then 0 else -1
  {
    StoppedDeleteKeepsOthers(s, uri, done, half);
    MembersAfterDelete(s, uri, id);
    assert Agrees(s.envelopes[id], s.participants, id);
  }

  // ---------- deletes from there on ----------

  ghost function DeleteAll(s: State, uris: seq<string>): State
    decreases |uris|
  {
    if uris == [] then s else DeleteAll(Delete(s, uris[0]), uris[1..])
  }

  // The envelope's participants whose records are not deleted.
  function Spared(s: State, uris: seq<string>, id: int): set<int> {
    set p | p in Members(s.participants, id) && s.participants[p].uri !in uris
  }

  ghost predicate ShowsNewest(s: State, id: int)
    requires id in s.envelopes
  {
    exists p :: Newest(s.participants, Members(s.participants, id), p)
                && ShowsLatest(s.envelopes[id], s.participants[p])
  }

  // Where one delete leaves the envelope.
  lemma OneDelete(s: State, uri: string, id: int)
    requires Keyed(s) && id in s.envelopes
    ensures var t, others := Delete(s, uri), Spared(s, [uri], id);
            && (id in t.envelopes <==> others == Members(s.participants, id) || |others| > Gap(s, id))
            && (id in t.envelopes ==> Members(t.participants, id) == others && Gap(t, id) == Gap(s, id))
            && (id !in t.envelopes ==> Members(t.participants, id) == {})
            && (id in t.envelopes && others != {} && (others != Members(s.participants, id) || ShowsNewest(s, id)) ==>
                ShowsNewest(t, id))
  {
    var t, ps, others := Delete(s, uri), Others(s.participants, uri), Spared(s, [uri], id);
    MembersAfterDelete(s, uri, id);
    assert others == Members(ps, id);
    if Touched(s.participants, uri, id) {
      assert others != Members(s.participants, id);
    } else {
      assert others == Members(s.participants, id);
    }
    if id in t.envelopes {
      assert Members(t.participants, id) == others;
      if Touched(s.participants, uri, id) {
        assert RecomputedFrom(t.envelopes[id], s.envelopes[id], ps, id);
        if others != {} {
          var p := NewestExists(ps, others);
          RecomputeShows(s.envelopes[id].(count := s.envelopes[id].count - 1), ps, t.participants, id);
        }
      } else if ShowsNewest(s, id) {
        var p :| Newest(s.participants, others, p) && ShowsLatest(s.envelopes[id], s.participants[p]);
        forall q | q in others ensures NotBefore(t.participants, p, q) {
          assert NotBefore(s.participants, p, q);
        }
        assert Newest(t.participants, others, p) && ShowsLatest(t.envelopes[id], t.participants[p]);
      }
    }
  }

  ghost predicate RecomputedFrom(after: Envelope, before: Envelope, ps: Participants, id: int) {
    after == Recomputed(before.(count := before.count - 1), ps, id)
  }

  lemma RecomputeShows(e: Envelope, ps: Participants, ps': Participants, id: int)
    requires Members(ps, id) != {} && Members(ps', id) == Members(ps, id)
    requires forall p | p in Members(ps, id) :: p in ps' && ps'[p] == ps[p]
    ensures Recomputed(e, ps, id).count == e.count
    ensures exists p :: Newest(ps', Members(ps', id), p) && ShowsLatest(Recomputed(e, ps, id), ps'[p])
  {
    var members := Members(ps, id);
    var p := NewestExists(ps, members);
    var e' := Recomputed(e, ps, id);
    var q :| Newest(ps, members, q) && e' ==
      e.(sortAt := ps[q].sortAt, latestUri := ps[q].uri, latestCid := ps[q].cid, latestAuthor := ps[q].author);
    forall r | r in members ensures NotBefore(ps', q, r) {
      assert NotBefore(ps, q, r);
    }
    assert Newest(ps', members, q) && ShowsLatest(e', ps'[q]);
  }

  // After any deletes the envelope stands exactly if none concerned it or more participants are spared
  // than its gap; its gap is then the same.  When it falls, the participants spared so far fall with it.
  lemma {:induction false} GapDecides(s: State, uris: seq<string>, id: int)
    requires Keyed(s) && id in s.envelopes
    ensures var t, spared := DeleteAll(s, uris), Spared(s, uris, id);
            && (id in t.envelopes <==> spared == Members(s.participants, id) || |spared| > Gap(s, id))
            && (id in t.envelopes ==> Members(t.participants, id) == spared && Gap(t, id) == Gap(s, id))
            && (id !in t.envelopes ==> Members(t.participants, id) == {})
            && (id in t.envelopes && spared != {} && (spared != Members(s.participants, id) || ShowsNewest(s, id)) ==>
                ShowsNewest(t, id))
    decreases |uris|
  {
    var spared := Spared(s, uris, id);
    if uris == [] {
      assert spared == Members(s.participants, id);
    } else {
      var s', others := Delete(s, uris[0]), Spared(s, [uris[0]], id);
      assert uris == [uris[0]] + uris[1..];
      DeleteKeepsKeys(s, uris[0]);
      OneDelete(s, uris[0], id);
      assert spared <= others;
      if id in s'.envelopes {
        GapDecides(s', uris[1..], id);
        forall p | p in others ensures s'.participants[p] == s.participants[p] {
          assert p in Members(s'.participants, id);
        }
        assert Spared(s', uris[1..], id) == spared;
      } else {
        GoneStaysGone(s', uris[1..], id);
        Fewer(spared, others);
      }
    }
  }

  lemma Fewer(a: set<int>, b: set<int>)
    requires a <= b
    ensures |a| <= |b|
  {
    assert b == a + (b - a);
  }

  lemma {:induction false} GoneStaysGone(s: State, uris: seq<string>, id: int)
    requires id !in s.envelopes && Members(s.participants, id) == {}
    ensures id !in DeleteAll(s, uris).envelopes && Members(DeleteAll(s, uris).participants, id) == {}
    decreases |uris|
  {
    if uris != [] {
      assert Members(Delete(s, uris[0]).participants, id) <= Members(s.participants, id);
      GoneStaysGone(Delete(s, uris[0]), uris[1..], id);
    }
  }
}
