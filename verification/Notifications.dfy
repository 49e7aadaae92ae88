/**
 Notification envelopes and their participants.  An envelope's count, sort time
 and latest record are kept up to date step by step; here they are compared
 with what its participants say.
 */
module NotificationTables {
  import opened Wrappers

  datatype Notification = Notification(
    recipient: string, author: string, uri: string, cid: string,
    reason: string, reasonSubject: Option<string>, sortAt: int, groupKey: string)

  datatype Envelope = Envelope(
    did: string, reason: string, reasonSubject: Option<string>, groupKey: Option<string>,
    sortAt: int, count: int, latestUri: string, latestCid: string, latestAuthor: string)

  datatype Participant = Participant(
    envelope: int, uri: string, cid: string, recipient: string, author: string, sortAt: int)

  type Envelopes = map<int, Envelope>
  type Participants = map<int, Participant>

  // The two tables and their id sequences.
  datatype State = State(envelopes: Envelopes, participants: Participants, nextEnvelope: int, nextParticipant: int)

  predicate SameTables(a: State, b: State) {
    a.envelopes == b.envelopes && a.participants == b.participants
  }

  // ---------- what must agree ----------

  function Members(ps: Participants, id: int): set<int> {
    set p | p in ps && ps[p].envelope == id
  }

  // ORDER BY sort_at DESC, id DESC puts a first.
  predicate NotBefore(ps: Participants, a: int, b: int)
    requires a in ps && b in ps
  {
    ps[b].sortAt < ps[a].sortAt || (ps[b].sortAt == ps[a].sortAt && b <= a)
  }

  predicate Newest(ps: Participants, members: set<int>, p: int) {
    p in members && members <= ps.Keys && forall q | q in members :: NotBefore(ps, p, q)
  }

  predicate ShowsLatest(e: Envelope, p: Participant) {
    e.sortAt == p.sortAt && e.latestUri == p.uri && e.latestCid == p.cid && e.latestAuthor == p.author
  }

  // Recomputing from the participants would change nothing.
  ghost predicate Agrees(e: Envelope, ps: Participants, id: int) {
    var members := Members(ps, id);
    e.count == |members| && exists p :: Newest(ps, members, p) && ShowsLatest(e, ps[p])
  }

  predicate Used(ps: Participants, uri: string, recipient: string) {
    exists p | p in ps :: ps[p].uri == uri && ps[p].recipient == recipient
  }

  predicate SameGroup(a: Envelope, b: Envelope) {
    a.groupKey.Some? && a.groupKey == b.groupKey && a.did == b.did
  }

  predicate SameUse(a: Participant, b: Participant) {
    a.uri == b.uri && a.recipient == b.recipient
  }

  // Ids come from the sequences, the two unique indexes hold, and participants belong to their recipient's envelope.
  ghost predicate Keyed(s: State) {
    && (forall id | id in s.envelopes :: id < s.nextEnvelope)
    && (forall p | p in s.participants :: p < s.nextParticipant)
    && (forall i, j | i in s.envelopes && j in s.envelopes && SameGroup(s.envelopes[i], s.envelopes[j]) :: i == j)
    && (forall p, q | p in s.participants && q in s.participants && SameUse(s.participants[p], s.participants[q]) ::
        p == q)
    && (forall p | p in s.participants :: s.participants[p].envelope in s.envelopes
          && s.envelopes[s.participants[p].envelope].did == s.participants[p].recipient)
  }

  ghost predicate Inv(s: State) {
    Keyed(s) && forall id | id in s.envelopes :: Agrees(s.envelopes[id], s.participants, id)
  }

  // ---------- applyOne ----------

  predicate InGroup(e: Envelope, recipient: string, groupKey: string) {
    e.did == recipient && e.groupKey == Some(groupKey)
  }

  predicate HasGroup(es: Envelopes, recipient: string, groupKey: string) {
    exists id | id in es :: InGroup(es[id], recipient, groupKey)
  }

  // The row the partial unique index (did, group_key) leads to, or the next id.
  ghost function Target(s: State, n: Notification): int {
    if n.groupKey != "" && HasGroup(s.envelopes, n.recipient, n.groupKey)
    then var id :| id in s.envelopes && InGroup(s.envelopes[id], n.recipient, n.groupKey); id
    else s.nextEnvelope
  }

  predicate NewGroup(s: State, n: Notification) {
    n.groupKey == "" || !HasGroup(s.envelopes, n.recipient, n.groupKey)
  }

  function Blank(n: Notification): Envelope {
    Envelope(n.recipient, n.reason, n.reasonSubject, if n.groupKey == "" then None else Some(n.groupKey),
             n.sortAt, 0, n.uri, n.cid, n.author)
  }

  function Bumped(e: Envelope, n: Notification): Envelope {
    var newer := n.sortAt >= e.sortAt;
    e.(count := e.count + 1,
       sortAt := if newer then n.sortAt else e.sortAt,
       latestUri := if newer then n.uri else e.latestUri,
       latestCid := if newer then n.cid else e.latestCid,
       latestAuthor := if newer then n.author else e.latestAuthor)
  }

  ghost function ApplyOne(s: State, n: Notification): State {
    var id := Target(s, n);
    var es := if NewGroup(s, n) then s.envelopes[id := Blank(n)] else s.envelopes;
    if Used(s.participants, n.uri, n.recipient) then
      State(if n.groupKey == "" then s.envelopes else es, s.participants, s.nextEnvelope + 1, s.nextParticipant + 1)
    else
      State(if id in es then es[id := Bumped(es[id], n)] else es,
            s.participants[s.nextParticipant := Participant(id, n.uri, n.cid, n.recipient, n.author, n.sortAt)],
            s.nextEnvelope + 1, s.nextParticipant + 1)
  }

  ghost function Apply(s: State, ns: seq<Notification>): State
    decreases |ns|
  {
    if ns == [] then s else Apply(ApplyOne(s, ns[0]), ns[1..])
  }

  // The tables when a stop lets only the first statements of applyOne through: the
  // envelope, the participant, and then the count or the removal of the envelope.
  ghost function ApplyStopped(s: State, n: Notification, writes: nat): State {
    var id := Target(s, n);
    var es := if NewGroup(s, n) then s.envelopes[id := Blank(n)] else s.envelopes;
    if writes == 0 then s
    else if writes == 1 then s.(envelopes := es, nextEnvelope := s.nextEnvelope + 1)
    else if writes == 2 then
      State(es,
            if Used(s.participants, n.uri, n.recipient) then s.participants
            else s.participants[s.nextParticipant := Participant(id, n.uri, n.cid, n.recipient, n.author, n.sortAt)],
            s.nextEnvelope + 1, s.nextParticipant + 1)
    else ApplyOne(s, n)
  }

  // The replay of a notification without a group: its new envelope is to be removed again.
  predicate Undoes(s: State, n: Notification) {
    n.groupKey == "" && Used(s.participants, n.uri, n.recipient)
  }

  // The removal's error is ignored, so a notification is passed even when it fails.
  ghost function ApplyUndoing(s: State, n: Notification, undone: bool): State {
    if Undoes(s, n) && !undone then ApplyStopped(s, n, 2) else ApplyOne(s, n)
  }

  ghost function ApplyPart(s: State, n: Notification, writes: nat, undone: bool): State {
    if writes >= 3 then ApplyUndoing(s, n, undone) else ApplyStopped(s, n, writes)
  }

  // A batch of which `full` notifications were passed, and `writes` statements of the next
  // carried out; `undone` says whose removals would work.
  ghost function ApplyUntil(s: State, ns: seq<Notification>, undone: seq<bool>, full: nat, writes: nat): State
    requires |undone| == |ns|
    decreases |ns|
  {
    if ns == [] then s
    else if full == 0 then ApplyPart(s, ns[0], writes, undone[0])
    else ApplyUntil(ApplyUndoing(s, ns[0], undone[0]), ns[1..], undone[1..], full - 1, writes)
  }

  // A replay of a known (record, recipient) under a group that has no envelope.
  predicate Stray(s: State, n: Notification) {
    n.groupKey != "" && Used(s.participants, n.uri, n.recipient) && !HasGroup(s.envelopes, n.recipient, n.groupKey)
  }

  // ---------- DeleteByRecordURI ----------

  function Others(ps: Participants, uri: string): Participants {
    map p | p in ps && ps[p].uri != uri :: ps[p]
  }

  predicate Touched(ps: Participants, uri: string, id: int) {
    exists p | p in ps :: ps[p].uri == uri && ps[p].envelope == id
  }

  ghost function Recomputed(e: Envelope, ps: Participants, id: int): Envelope {
    if exists p :: Newest(ps, Members(ps, id), p) then
      var p :| Newest(ps, Members(ps, id), p);
      e.(sortAt := ps[p].sortAt, latestUri := ps[p].uri, latestCid := ps[p].cid, latestAuthor := ps[p].author)
    else e
  }

  // A decrement leaves the envelope without a count, and it is deleted.
  predicate Falls(s: State, id: int) {
    id in s.envelopes && s.envelopes[id].count <= 1
  }

  // ON DELETE CASCADE: an envelope's participants go with it.
  function Without(ps: Participants, id: int): Participants {
    map p | p in ps && ps[p].envelope != id :: ps[p]
  }

  // One envelope of the loop over deleted participants.
  ghost function Dropped(s: State, id: int): State {
    if Falls(s, id) then s.(envelopes := s.envelopes - {id}, participants := Without(s.participants, id))
    else if id in s.envelopes then
      var e := s.envelopes[id].(count := s.envelopes[id].count - 1);
      s.(envelopes := s.envelopes[id := Recomputed(e, s.participants, id)])
    else s
  }

  ghost function Delete(s: State, uri: string): State {
    var ps := Others(s.participants, uri);
    s.(participants := map p | p in ps && !(Touched(s.participants, uri, ps[p].envelope) && Falls(s, ps[p].envelope)) ::
         ps[p],
       envelopes := map id | id in s.envelopes && !(Touched(s.participants, uri, id) && Falls(s, id)) ::
         if Touched(s.participants, uri, id)
         then Recomputed(s.envelopes[id].(count := s.envelopes[id].count - 1), ps, id)
         else s.envelopes[id])
  }

  // The tables when DeleteByRecordURI has removed the participants and dealt with the
  // envelopes in `done`, and, if `half` names one, has only decremented its count.
  ghost function DeleteStopped(s: State, uri: string, done: set<int>, half: Option<int>): State {
    var ps := Others(s.participants, uri);
    s.(participants := map p | p in ps && !(ps[p].envelope in done && Falls(s, ps[p].envelope)) :: ps[p],
       envelopes := map id | id in s.envelopes && !(id in done && Falls(s, id)) ::
         if id in done then Recomputed(s.envelopes[id].(count := s.envelopes[id].count - 1), ps, id)
         else if half == Some(id) then s.envelopes[id].(count := s.envelopes[id].count - 1)
         else s.envelopes[id])
  }
}

module NotificationAgreement {
  import opened Wrappers
  import opened NotificationTables

  lemma NewestUnique(ps: Participants, members: set<int>, p: int, q: int)
    requires Newest(ps, members, p) && Newest(ps, members, q)
    ensures p == q
  {
    assert NotBefore(ps, p, q) && NotBefore(ps, q, p);
  }

  lemma Pick<T>(members: set<T>) returns (q: T)
    requires members != {}
    ensures q in members
  {
    q :| q in members;
  }

  lemma {:induction false} NewestExists(ps: Participants, members: set<int>) returns (p: int)
    requires members != {} && members <= ps.Keys
    ensures Newest(ps, members, p)
  {
    var q := Pick(members);
    if members == {q} {
      p := q;
    } else {
      var r := NewestExists(ps, members - {q});
      p := if NotBefore(ps, q, r) then q else r;
      forall x | x in members ensures NotBefore(ps, p, x) {
        assert x == q || x in members - {q};
        assert x != q ==> NotBefore(ps, r, x);
      }
    }
  }

  // ---------- applying ----------

  // The new participant has the greatest id, so `>=` on the sort time is the recompute's order.
  lemma BumpAgrees(e: Envelope, ps: Participants, id: int, n: Notification, new': int)
    requires new' !in ps && (forall p | p in ps :: p < new')
    requires Agrees(e, ps, id) || (e == Blank(n) && Members(ps, id) == {})
    ensures Agrees(Bumped(e, n), ps[new' := Participant(id, n.uri, n.cid, n.recipient, n.author, n.sortAt)], id)
  {
    var ps' := ps[new' := Participant(id, n.uri, n.cid, n.recipient, n.author, n.sortAt)];
    var members, members' := Members(ps, id), Members(ps', id);
    assert members' == members + {new'};
    if Agrees(e, ps, id) {
      var p :| Newest(ps, members, p) && ShowsLatest(e, ps[p]);
      var top := if n.sortAt >= e.sortAt then new' else p;
      forall q | q in members' ensures NotBefore(ps', top, q) {
        assert q in members ==> NotBefore(ps, p, q);
      }
      assert Newest(ps', members', top) && ShowsLatest(Bumped(e, n), ps'[top]);
    } else {
      assert Newest(ps', members', new') && ShowsLatest(Bumped(e, n), ps'[new']);
    }
  }

  lemma OtherEnvelopeAgrees(e: Envelope, ps: Participants, id: int, new': int, added: Participant)
    requires new' !in ps && added.envelope != id && Agrees(e, ps, id)
    ensures Agrees(e, ps[new' := added], id)
  {
    var ps' := ps[new' := added];
    assert Members(ps', id) == Members(ps, id);
    var p :| Newest(ps, Members(ps, id), p) && ShowsLatest(e, ps[p]);
    assert Newest(ps', Members(ps', id), p) && ShowsLatest(e, ps'[p]);
  }

  lemma TargetIs(s: State, n: Notification)
    requires Keyed(s)
    ensures NewGroup(s, n) ==> Target(s, n) == s.nextEnvelope && s.nextEnvelope !in s.envelopes
                               && Members(s.participants, s.nextEnvelope) == {}
    ensures !NewGroup(s, n) ==>
            Target(s, n) in s.envelopes && InGroup(s.envelopes[Target(s, n)], n.recipient, n.groupKey)
  {
    forall p | p in s.participants ensures s.participants[p].envelope != s.nextEnvelope {
      assert s.participants[p].envelope in s.envelopes;
    }
  }

  lemma ApplyKeepsKeys(s: State, n: Notification)
    requires Keyed(s)
    ensures Keyed(ApplyOne(s, n))
  {
    TargetIs(s, n);
    var s' := ApplyOne(s, n);
    var id := Target(s, n);
    forall i | i in s'.envelopes && i != id ensures i in s.envelopes && s'.envelopes[i] == s.envelopes[i] {}
    if id in s'.envelopes {
      assert s'.envelopes[id].did == n.recipient;
    }
  }

  lemma ApplyKeepsAgreement(s: State, n: Notification)
    requires Inv(s) && !Stray(s, n)
    ensures Inv(ApplyOne(s, n))
  {
    ApplyKeepsKeys(s, n);
    TargetIs(s, n);
    var s' := ApplyOne(s, n);
    var id := Target(s, n);
    if !Used(s.participants, n.uri, n.recipient) {
      var added := s'.participants[s.nextParticipant];
      forall i | i in s'.envelopes ensures Agrees(s'.envelopes[i], s'.participants, i) {
        if i == id {
          BumpAgrees(if NewGroup(s, n) then Blank(n) else s.envelopes[id], s.participants, id, n, s.nextParticipant);
        } else {
          OtherEnvelopeAgrees(s.envelopes[i], s.participants, i, s.nextParticipant, added);
        }
      }
    }
  }

  // The exact condition: one application keeps count, sort time and latest record
  // right unless it replays a known (record, recipient) under a group without an envelope.
  lemma ApplyKeepsAgreementIff(s: State, n: Notification)
    requires Inv(s)
    ensures Inv(ApplyOne(s, n)) <==> !Stray(s, n)
  {
    if Stray(s, n) {
      TargetIs(s, n);
      var s' := ApplyOne(s, n);
      assert s'.envelopes[s.nextEnvelope] == Blank(n);
      assert Members(s'.participants, s.nextEnvelope) == {};
      assert !Agrees(s'.envelopes[s.nextEnvelope], s'.participants, s.nextEnvelope);
    } else {
      ApplyKeepsAgreement(s, n);
    }
  }

  // A replay that carries the group key it had before, as the source's comment expects, is not stray.
  lemma SameGroupIsNotStray(s: State, n: Notification, p: int)
    requires Inv(s) && p in s.participants && s.participants[p].uri == n.uri
            && s.participants[p].recipient == n.recipient
    requires n.groupKey != "" ==> s.envelopes[s.participants[p].envelope].groupKey == Some(n.groupKey)
    ensures !Stray(s, n)
  {
    assert n.groupKey != "" ==> InGroup(s.envelopes[s.participants[p].envelope], n.recipient, n.groupKey);
  }

  // And it exists: a state and a replay under another group leave an envelope that counts nobody.
  lemma StrayBreaks() returns (s: State, n: Notification)
    ensures Inv(s) && Stray(s, n) && !Inv(ApplyOne(s, n))
  {
    var empty := State(map[], map[], 0, 0);
    var first := Notification("alice", "bob", "at://r", "c", "endorsement", None, 5, "g1");
    n := first.(groupKey := "g2");
    ApplyKeepsAgreement(empty, first);
    s := ApplyOne(empty, first);
    TargetIs(empty, first);
    assert s.participants == map[0 := Participant(0, "at://r", "c", "alice", "bob", 5)];
    assert s.envelopes.Keys == {0};
    assert s.participants[0].uri == n.uri && s.participants[0].recipient == n.recipient;
    ApplyKeepsAgreementIff(s, n);
  }

  // ---------- deleting ----------

  lemma RecomputedAgrees(e: Envelope, ps: Participants, id: int)
    requires e.count == |Members(ps, id)| > 0
    ensures Agrees(Recomputed(e, ps, id), ps, id)
  {
    var p := NewestExists(ps, Members(ps, id));
    assert exists q :: Newest(ps, Members(ps, id), q);
    var e' := Recomputed(e, ps, id);
    var q :| Newest(ps, Members(ps, id), q) && e' ==
      e.(sortAt := ps[q].sortAt, latestUri := ps[q].uri, latestCid := ps[q].cid, latestAuthor := ps[q].author);
    assert ShowsLatest(e', ps[q]);
  }

  // A record has at most one participant in an envelope, because all of them have the envelope's recipient.
  lemma MembersAfterDelete(s: State, uri: string, id: int)
    requires Keyed(s) && id in s.envelopes
    ensures var ps := Others(s.participants, uri);
            |Members(ps, id)| == |Members(s.participants, id)| - (if Touched(s.participants, uri, id) then 1 else 0)
    ensures !Touched(s.participants, uri, id) ==>
            Members(Others(s.participants, uri), id) == Members(s.participants, id)
  {
    var ps := Others(s.participants, uri);
    var before, after := Members(s.participants, id), Members(ps, id);
    if Touched(s.participants, uri, id) {
      var p :| p in s.participants && s.participants[p].uri == uri && s.participants[p].envelope == id;
      forall q | q in before && q != p ensures q in after {
        assert s.participants[q].recipient == s.envelopes[id].did == s.participants[p].recipient;
        assert SameUse(s.participants[q], s.participants[p]) ==> q == p;
      }
      assert after == before - {p};
    } else {
      forall q | q in before ensures q in after {}
      assert after == before;
    }
  }

  // Where the counts are right, an envelope that falls has nobody left to take along.
  lemma NobodyFalls(s: State, uri: string, p: int)
    requires Inv(s) && p in Others(s.participants, uri)
    requires Touched(s.participants, uri, s.participants[p].envelope)
    ensures !Falls(s, s.participants[p].envelope)
  {
    var id := s.participants[p].envelope;
    MembersAfterDelete(s, uri, id);
    assert p in Members(Others(s.participants, uri), id);
    assert Agrees(s.envelopes[id], s.participants, id);
  }

  lemma DeleteKeepsOthers(s: State, uri: string)
    requires Inv(s)
    ensures Delete(s, uri).participants == Others(s.participants, uri)
  {
    forall p | p in Others(s.participants, uri) ensures p in Delete(s, uri).participants {
      if Touched(s.participants, uri, s.participants[p].envelope) {
        NobodyFalls(s, uri, p);
      }
    }
  }

  lemma DeleteKeepsAgreement(s: State, uri: string)
    requires Inv(s)
    ensures Inv(Delete(s, uri)) && Delete(s, uri).participants == Others(s.participants, uri)
    ensures forall id | id in Delete(s, uri).envelopes :: SameFixed(Delete(s, uri).envelopes[id], s.envelopes[id])
  {
    var s' := Delete(s, uri);
    DeleteKeepsOthers(s, uri);
    forall id | id in s'.envelopes
      ensures Agrees(s'.envelopes[id], s'.participants, id) && SameFixed(s'.envelopes[id], s.envelopes[id])
    {
      DeleteKeepsEnvelope(s, uri, id);
    }
    DeleteKeepsKeys(s, uri);
  }

  lemma DeleteKeepsEnvelope(s: State, uri: string, id: int)
    requires Inv(s) && id in Delete(s, uri).envelopes
    ensures Agrees(Delete(s, uri).envelopes[id], Delete(s, uri).participants, id)
    ensures SameFixed(Delete(s, uri).envelopes[id], s.envelopes[id])
  {
    var ps := Others(s.participants, uri);
    DeleteKeepsOthers(s, uri);
    MembersAfterDelete(s, uri, id);
    assert Agrees(s.envelopes[id], s.participants, id);
    if Touched(s.participants, uri, id) {
      RecomputedAgrees(s.envelopes[id].(count := s.envelopes[id].count - 1), ps, id);
    } else {
      StillAgrees(s.envelopes[id], s.participants, ps, id);
    }
  }

  // Rows are only removed, and never a participant's envelope before it.
  ghost predicate Shrunk(s: State, t: State) {
    && t.nextEnvelope == s.nextEnvelope && t.nextParticipant == s.nextParticipant
    && (forall p | p in t.participants :: p in s.participants && t.participants[p] == s.participants[p])
    && (forall p | p in t.participants :: t.participants[p].envelope in t.envelopes)
    && (forall id | id in t.envelopes :: id in s.envelopes && SameFixed(t.envelopes[id], s.envelopes[id]))
  }

  lemma ShrinkKeepsKeys(s: State, t: State)
    requires Keyed(s) && Shrunk(s, t)
    ensures Keyed(t)
  {
    forall i, j | i in t.envelopes && j in t.envelopes && SameGroup(t.envelopes[i], t.envelopes[j]) ensures i == j {
      assert SameGroup(s.envelopes[i], s.envelopes[j]);
    }
    forall p, q | p in t.participants && q in t.participants && SameUse(t.participants[p], t.participants[q])
      ensures p == q
    {
      assert SameUse(s.participants[p], s.participants[q]);
    }
    forall p | p in t.participants
      ensures t.participants[p].envelope in t.envelopes
              && t.envelopes[t.participants[p].envelope].did == t.participants[p].recipient
    {
      assert SameFixed(t.envelopes[t.participants[p].envelope], s.envelopes[t.participants[p].envelope]);
    }
  }

  lemma DeleteKeepsKeys(s: State, uri: string)
    requires Keyed(s)
    ensures Keyed(Delete(s, uri)) && Shrunk(s, Delete(s, uri))
  {
    ShrinkKeepsKeys(s, Delete(s, uri));
  }

  lemma StillAgrees(e: Envelope, ps: Participants, ps': Participants, id: int)
    requires Agrees(e, ps, id) && Members(ps', id) == Members(ps, id)
    requires forall p | p in Members(ps, id) :: p in ps' && ps'[p] == ps[p]
    ensures Agrees(e, ps', id)
  {
    var p :| Newest(ps, Members(ps, id), p) && ShowsLatest(e, ps[p]);
    forall q | q in Members(ps', id) ensures NotBefore(ps', p, q) {
      assert NotBefore(ps, p, q);
    }
    assert Newest(ps', Members(ps', id), p) && ShowsLatest(e, ps'[p]);
  }

  // The fields that neither applying nor deleting ever changes.
  predicate SameFixed(a: Envelope, b: Envelope) {
    a.did == b.did && a.reason == b.reason && a.reasonSubject == b.reasonSubject && a.groupKey == b.groupKey
  }
}
