/**
 An update of a record some time after its creation.  Whatever was applied and deleted
 for other records in between, the tables show what they would show had the record
 never been announced before; only the numbering of the rows differs.
 */
module NotificationUpdates {
  import opened Wrappers
  import opened NotificationTables
  import opened NotificationAgreement
  import opened NotificationRuns

  // ---------- what the tables say, apart from numbering ----------

  datatype Entry = Entry(
    uri: string, cid: string, recipient: string, author: string, sortAt: int, group: Option<string>)

  function EntryOf(s: State, p: int): Entry
    requires p in s.participants && s.participants[p].envelope in s.envelopes
  {
    var x := s.participants[p];
    Entry(x.uri, x.cid, x.recipient, x.author, x.sortAt, s.envelopes[x.envelope].groupKey)
  }

  // The participants other than those of the record that is looked past.
  function Visible(s: State, past: Option<string>): set<int> {
    set p | p in s.participants && Some(s.participants[p].uri) != past
  }

  // f pairs the participants of s with the visible ones of t, in order and entry by entry.
  ghost predicate Pairs(s: State, t: State, past: Option<string>, f: map<int, int>) {
    && f.Keys == s.participants.Keys && Ascends(f) && Onto(f, Visible(t, past))
    && (forall p | p in f :: SameEntry(s, p, t, f[p]))
  }

  ghost predicate Ascends(f: map<int, int>) {
    forall p, q | p in f && q in f && p < q :: f[p] < f[q]
  }

  predicate Hit(f: map<int, int>, x: int) {
    exists p | p in f :: f[p] == x
  }

  ghost predicate Onto(f: map<int, int>, xs: set<int>) {
    (forall p | p in f :: f[p] in xs) && forall x | x in xs :: Hit(f, x)
  }

  ghost predicate SameEntry(s: State, p: int, t: State, q: int) {
    && p in s.participants && s.participants[p].envelope in s.envelopes
    && q in t.participants && t.participants[q].envelope in t.envelopes
    && EntryOf(s, p) == EntryOf(t, q)
  }

  // An envelope of its own has one participant.
  ghost predicate Lone(s: State) {
    forall p, q | p in s.participants && q in s.participants :: AloneIn(s, p, q)
  }

  ghost predicate AloneIn(s: State, p: int, q: int)
    requires p in s.participants && q in s.participants
  {
    var id := s.participants[p].envelope;
    id == s.participants[q].envelope && id in s.envelopes && s.envelopes[id].groupKey.None? ==> p == q
  }

  // ---------- steps on both sides ----------

  lemma PairIsUsed(s: State, t: State, past: Option<string>, f: map<int, int>, uri: string, recipient: string)
    requires Pairs(s, t, past, f) && Some(uri) != past
    ensures Used(s.participants, uri, recipient) <==> Used(t.participants, uri, recipient)
  {
    if p :| p in s.participants && s.participants[p].uri == uri && s.participants[p].recipient == recipient {
      assert SameEntry(s, p, t, f[p]);
      assert t.participants[f[p]].uri == uri && t.participants[f[p]].recipient == recipient;
    }
    if q :| q in t.participants && t.participants[q].uri == uri && t.participants[q].recipient == recipient {
      assert q in Visible(t, past) && Hit(f, q);
      var p :| p in f && f[p] == q;
      assert SameEntry(s, p, t, q);
      assert s.participants[p].uri == uri && s.participants[p].recipient == recipient;
    }
  }

  // What applying does to the participants and to the groups of those there are.
  lemma ApplyShape(s: State, n: Notification)
    requires Keyed(s)
    ensures var s' := ApplyOne(s, n);
            && KeepsGroups(s, s')
            && (Used(s.participants, n.uri, n.recipient) ==> s'.participants == s.participants)
            && (!Used(s.participants, n.uri, n.recipient) ==>
                  && s'.participants == s.participants[s.nextParticipant := s'.participants[s.nextParticipant]]
                  && s'.participants[s.nextParticipant].envelope in s'.envelopes
                  && EntryOf(s', s.nextParticipant) == NewEntry(n))
  {
    TargetIs(s, n);
  }

  function NewEntry(n: Notification): Entry {
    Entry(n.uri, n.cid, n.recipient, n.author, n.sortAt, if n.groupKey == "" then None else Some(n.groupKey))
  }

  lemma PairsApply(s: State, t: State, past: Option<string>, f: map<int, int>, n: Notification)
    returns (f': map<int, int>)
    requires Keyed(s) && Keyed(t) && Pairs(s, t, past, f) && Some(n.uri) != past
    ensures Pairs(ApplyOne(s, n), ApplyOne(t, n), past, f')
  {
    PairIsUsed(s, t, past, f, n.uri, n.recipient);
    ApplyShape(s, n);
    ApplyShape(t, n);
    if Used(s.participants, n.uri, n.recipient) {
      f' := f;
      PairsStay(s, t, past, f, ApplyOne(s, n), ApplyOne(t, n));
    } else {
      f' := f[s.nextParticipant := t.nextParticipant];
      PairsGrow(s, t, past, f, ApplyOne(s, n), ApplyOne(t, n), s.nextParticipant, t.nextParticipant);
    }
  }

  // Every envelope keeps its group.
  ghost predicate KeepsGroups(s: State, s': State) {
    forall id | id in s.envelopes :: id in s'.envelopes && s'.envelopes[id].groupKey == s.envelopes[id].groupKey
  }

  lemma PairsStay(s: State, t: State, past: Option<string>, f: map<int, int>, s': State, t': State)
    requires Pairs(s, t, past, f) && KeepsGroups(s, s') && KeepsGroups(t, t')
    requires s'.participants == s.participants && t'.participants == t.participants
    ensures Pairs(s', t', past, f)
  {
    assert Visible(t', past) == Visible(t, past);
    forall p | p in f ensures SameEntry(s', p, t', f[p]) {
      assert SameEntry(s, p, t, f[p]);
    }
  }

  lemma Grows(f: map<int, int>, xs: set<int>, k: int, v: int)
    requires Ascends(f) && Onto(f, xs) && (forall p | p in f :: p < k) && (forall x | x in xs :: x < v)
    ensures Ascends(f[k := v]) && Onto(f[k := v], xs + {v})
  {
    var g := f[k := v];
    forall x | x in xs + {v} ensures Hit(g, x) {
      if x in xs {
        var p :| p in f && f[p] == x;
        assert p in g && g[p] == x;
      } else {
        assert k in g && g[k] == x;
      }
    }
  }

  // One more participant on each side, after all that were there.
  ghost predicate Newcomer(s: State, s': State, k: int) {
    && (forall p | p in s.participants :: p < k)
    && k in s'.participants && s'.participants == s.participants[k := s'.participants[k]]
  }

  lemma PairsGrow(s: State, t: State, past: Option<string>, f: map<int, int>, s': State, t': State, k: int, v: int)
    requires Pairs(s, t, past, f) && Newcomer(s, s', k) && Newcomer(t, t', v) && Extends(s, s') && Extends(t, t')
    requires SameEntry(s', k, t', v) && Some(t'.participants[v].uri) != past
    ensures Pairs(s', t', past, f[k := v])
  {
    var f' := f[k := v];
    Grows(f, Visible(t, past), k, v);
    VisibleGrows(t, t', past, v);
    assert f'.Keys == s'.participants.Keys;
    EntriesGrow(s, t, f, f', s', t', k, v);
  }

  lemma EntriesGrow(s: State, t: State, f: map<int, int>, f': map<int, int>, s': State, t': State, k: int, v: int)
    requires f' == f[k := v]
    requires forall p | p in f :: SameEntry(s, p, t, f[p])
    requires Extends(s, s') && Extends(t, t') && SameEntry(s', k, t', v) && k !in f
    ensures forall p | p in f' :: SameEntry(s', p, t', f'[p])
  {
    forall p | p in f ensures SameEntry(s', p, t', f[p]) {
      SameEntryGrows(s, p, t, f[p], s', t');
    }
  }

  // Rows that were there stand as they were.
  ghost predicate Extends(s: State, s': State) {
    KeepsGroups(s, s') && forall p | p in s.participants ::
        p in s'.participants && s'.participants[p] == s.participants[p]
  }

  lemma SameEntryGrows(s: State, p: int, t: State, q: int, s': State, t': State)
    requires SameEntry(s, p, t, q) && Extends(s, s') && Extends(t, t')
    ensures SameEntry(s', p, t', q)
  {
  }

  lemma VisibleGrows(t: State, t': State, past: Option<string>, v: int)
    requires v in t'.participants && t'.participants == t.participants[v := t'.participants[v]]
    requires v !in t.participants && Some(t'.participants[v].uri) != past
    ensures Visible(t', past) == Visible(t, past) + {v}
  {
  }

  lemma DeleteShape(s: State, uri: string)
    requires Inv(s)
    ensures var s' := Delete(s, uri);
            && s'.participants == Others(s.participants, uri) && Inv(s')
            && KeepsEntries(s, s')
  {
    DeleteKeepsAgreement(s, uri);
  }

  lemma PairsDelete(s: State, t: State, past: Option<string>, f: map<int, int>, uri: string) returns (f': map<int, int>)
    requires Inv(s) && Inv(t) && Pairs(s, t, past, f) && Some(uri) != past
    ensures Pairs(Delete(s, uri), Delete(t, uri), past, f')
  {
    DeleteShape(s, uri);
    DeleteShape(t, uri);
    f' := map p | p in f && s.participants[p].uri != uri :: f[p];
    PairsShrink(s, t, past, f, f', uri, Delete(s, uri), Delete(t, uri));
  }

  ghost predicate KeepsEntries(s: State, s': State) {
    forall p | p in s'.participants :: SameEntry(s', p, s, p)
  }

  lemma PairsShrink(s: State, t: State, past: Option<string>, f: map<int, int>, f': map<int, int>, uri: string,
                    s': State, t': State)
    requires Pairs(s, t, past, f) && KeepsEntries(s, s') && KeepsEntries(t, t')
    requires s'.participants == Others(s.participants, uri) && t'.participants == Others(t.participants, uri)
    requires f' == map p | p in f && s.participants[p].uri != uri :: f[p]
    ensures Pairs(s', t', past, f')
  {
    forall p | p in f' ensures SameEntry(s', p, t', f'[p]) && f'[p] in Visible(t', past) {
      assert SameEntry(s, p, t, f[p]) && f[p] in Visible(t, past);
      assert p in s'.participants && SameEntry(s', p, s, p);
      assert f[p] in t'.participants && SameEntry(t', f[p], t, f[p]);
    }
    forall x | x in Visible(t', past) ensures Hit(f', x) {
      assert x in Visible(t, past) && Hit(f, x);
      var p :| p in f && f[p] == x;
      assert SameEntry(s, p, t, x);
      assert p in f' && f'[p] == x;
    }
  }

  // Deleting the record that was looked past brings everything into view.
  lemma PairsReveal(s: State, t: State, uri: string, f: map<int, int>)
    requires Inv(t) && Pairs(s, t, Some(uri), f)
    ensures Pairs(s, Delete(t, uri), None, f)
  {
    var t' := Delete(t, uri);
    DeleteShape(t, uri);
    assert Visible(t', None) == Visible(t, Some(uri));
    forall p | p in f ensures SameEntry(s, p, t', f[p]) {
      assert SameEntry(s, p, t, f[p]) && f[p] in Visible(t', None);
      assert SameEntry(t', f[p], t, f[p]);
    }
  }

  // At first the two differ by the record's own participants.
  lemma PairsStart(s: State, ns: seq<Notification>, uri: string) returns (f: map<int, int>)
    requires Inv(s) && NoneStray(s, ns) && forall i | 0 <= i < |ns| :: ns[i].uri == uri
    requires forall p | p in s.participants :: s.participants[p].uri != uri
    ensures Pairs(s, Apply(s, ns), Some(uri), f)
  {
    ApplyAddsOnly(s, ns, uri);
    OthersAll(s.participants, uri);
    f := map p | p in s.participants :: p;
    PairsSelf(s, Apply(s, ns), uri, f);
  }

  lemma PairsSelf(s: State, t: State, uri: string, f: map<int, int>)
    requires Keyed(s) && KeepsEnvelopes(s, t) && Others(t.participants, uri) == s.participants
    requires f == map p | p in s.participants :: p
    ensures Pairs(s, t, Some(uri), f)
  {
    assert Visible(t, Some(uri)) == Others(t.participants, uri).Keys;
    forall p | p in f ensures SameEntry(s, p, t, f[p]) && Hit(f, p) {
      assert Others(t.participants, uri)[p] == t.participants[p];
      assert SameFixed(t.envelopes[s.participants[p].envelope], s.envelopes[s.participants[p].envelope]);
      assert f[p] == p;
    }
  }

  // ---------- runs on both sides ----------

  // The operation is about another record.
  predicate Elsewhere(op: Op, uri: string) {
    (op.ApplyOp? && op.n.uri != uri) || (op.DeleteOp? && op.uri != uri)
  }

  ghost predicate RunFrom(s: State, states: seq<State>, ops: seq<Op>) {
    && |states| == |ops| + 1 && states[0] == s
    && forall i | 0 <= i < |ops| :: Fine(states[i], ops[i]) && states[i + 1] == Do(states[i], ops[i])
  }

  // The two sides, before a step and after.
  ghost predicate Alike(s: State, t: State, uri: string) {
    Inv(s) && Inv(t) && Lone(s) && Lone(t) && exists f :: Pairs(s, t, Some(uri), f)
  }

  lemma PairsStep(s: State, t: State, uri: string, op: Op)
    requires Alike(s, t, uri) && Elsewhere(op, uri) && Fine(s, op) && Fine(t, op)
    ensures Alike(Do(s, op), Do(t, op), uri)
  {
    FineKeepsAgreement(s, op);
    FineKeepsAgreement(t, op);
    LoneStep(s, op);
    LoneStep(t, op);
    var f :| Pairs(s, t, Some(uri), f);
    if op.DeleteOp? {
      var f' := PairsDelete(s, t, Some(uri), f, op.uri);
    } else if op.writes >= 3 {
      var f' := PairsApply(s, t, Some(uri), f, op.n);
    } else {
      PairsStay(s, t, Some(uri), f, Do(s, op), Do(t, op));
    }
  }

  lemma LoneStep(s: State, op: Op)
    requires Inv(s) && Fine(s, op)
    ensures Lone(s) ==> Lone(Do(s, op))
  {
    if Lone(s) {
      match op
      case ApplyOp(n, writes) =>
        if writes >= 3 {
          ApplyKeepsLone(s, n);
        } else {
          LoneShrinks(s, Do(s, op));
        }
      case DeleteOp(uri) => DeleteKeepsLone(s, uri);
      case PartOfDelete(uri, done, half) =>
        FineKeepsAgreement(s, op);
        LoneShrinks(s, Do(s, op));
    }
  }

  lemma LoneShrinks(s: State, s': State)
    requires Lone(s)
    requires forall p | p in s'.participants :: p in s.participants && s'.participants[p] == s.participants[p]
    requires forall id | id in s'.envelopes ::
               id in s.envelopes && s'.envelopes[id].groupKey == s.envelopes[id].groupKey
    ensures Lone(s')
  {
    forall p, q | p in s'.participants && q in s'.participants ensures AloneIn(s', p, q) {
      assert AloneIn(s, p, q);
    }
  }

  // In every run an envelope of its own has one participant.
  lemma {:induction false} LoneAlways(states: seq<State>, ops: seq<Op>, i: nat)
    requires Run(states, ops) && i < |states|
    ensures Lone(states[i])
  {
    if i > 0 {
      LoneAlways(states, ops, i - 1);
      RunAgrees(states, ops, i - 1);
      assert Fine(states[i - 1], ops[i - 1]) && states[i] == Do(states[i - 1], ops[i - 1]);
      LoneStep(states[i - 1], ops[i - 1]);
    }
  }

  lemma ApplyKeepsLone(s: State, n: Notification)
    requires Keyed(s) && Lone(s)
    ensures Lone(ApplyOne(s, n))
  {
    TargetIs(s, n);
    var s', id := ApplyOne(s, n), Target(s, n);
    if n.groupKey == "" && !Used(s.participants, n.uri, n.recipient) {
      assert forall p | p in s.participants :: p !in Members(s.participants, id);
    }
  }

  lemma DeleteKeepsLone(s: State, uri: string)
    requires Inv(s) && Lone(s)
    ensures Lone(Delete(s, uri))
  {
    DeleteKeepsKeys(s, uri);
    LoneShrinks(s, Delete(s, uri));
  }

  lemma {:induction false} PairsRun(uri: string, ss: seq<State>, ts: seq<State>, ops: seq<Op>, i: nat)
    requires |ss| == |ts| == |ops| + 1 && i <= |ops|
    requires RunFrom(ss[0], ss, ops) && RunFrom(ts[0], ts, ops) && Alike(ss[0], ts[0], uri)
    requires forall k | 0 <= k < |ops| :: Elsewhere(ops[k], uri)
    ensures Alike(ss[i], ts[i], uri)
    decreases i
  {
    if i > 0 {
      PairsRun(uri, ss, ts, ops, i - 1);
      PairsStep(ss[i - 1], ts[i - 1], uri, ops[i - 1]);
    }
  }

  lemma {:induction false} PairsBatch(s: State, t: State, f: map<int, int>, ns: seq<Notification>)
    returns (f': map<int, int>)
    requires Inv(s) && Inv(t) && Lone(s) && Lone(t) && Pairs(s, t, None, f) && NoneStray(s, ns) && NoneStray(t, ns)
    ensures var s', t' := Apply(s, ns), Apply(t, ns);
            Pairs(s', t', None, f') && Inv(s') && Inv(t') && Lone(s') && Lone(t')
    decreases |ns|
  {
    if ns == [] {
      f' := f;
    } else {
      ApplyKeepsAgreement(s, ns[0]);
      ApplyKeepsAgreement(t, ns[0]);
      ApplyKeepsLone(s, ns[0]);
      ApplyKeepsLone(t, ns[0]);
      var g := PairsApply(s, t, None, f, ns[0]);
      f' := PairsBatch(ApplyOne(s, ns[0]), ApplyOne(t, ns[0]), g, ns[1..]);
    }
  }

  lemma {:induction false} BatchKeepsLone(s: State, ns: seq<Notification>)
    requires Inv(s) && Lone(s) && NoneStray(s, ns)
    ensures Lone(Apply(s, ns))
    decreases |ns|
  {
    if ns != [] {
      ApplyKeepsAgreement(s, ns[0]);
      ApplyKeepsLone(s, ns[0]);
      BatchKeepsLone(ApplyOne(s, ns[0]), ns[1..]);
    }
  }

  // ---------- the same entries show the same envelopes ----------

  // The members of a participant's envelope, told from the entries alone.
  lemma MembersByEntry(s: State, p: int, q: int)
    requires Keyed(s) && Lone(s) && p in s.participants && q in s.participants
    ensures s.participants[q].envelope == s.participants[p].envelope <==>
            if EntryOf(s, p).group.None? then q == p
            else EntryOf(s, q).group == EntryOf(s, p).group && EntryOf(s, q).recipient == EntryOf(s, p).recipient
  {
    var a, b := s.participants[p].envelope, s.participants[q].envelope;
    if EntryOf(s, p).group.Some? && EntryOf(s, q).group == EntryOf(s, p).group
       && EntryOf(s, q).recipient == EntryOf(s, p).recipient {
      assert SameGroup(s.envelopes[a], s.envelopes[b]);
    }
  }

  predicate ShowsSame(a: Envelope, b: Envelope) {
    && a.did == b.did && a.groupKey == b.groupKey && a.count == b.count && a.sortAt == b.sortAt
    && a.latestUri == b.latestUri && a.latestCid == b.latestCid && a.latestAuthor == b.latestAuthor
  }

  lemma PairsKeepMembers(s: State, t: State, f: map<int, int>, p: int)
    requires Keyed(s) && Lone(s) && Keyed(t) && Lone(t) && Pairs(s, t, None, f) && p in f
    ensures f[p] in t.participants
    ensures forall q | q in f :: q in Members(s.participants, s.participants[p].envelope) <==>
                                 f[q] in Members(t.participants, t.participants[f[p]].envelope)
  {
    assert SameEntry(s, p, t, f[p]);
    forall q | q in f
      ensures q in Members(s.participants, s.participants[p].envelope) <==>
              f[q] in Members(t.participants, t.participants[f[p]].envelope)
    {
      assert SameEntry(s, q, t, f[q]);
      MembersByEntry(s, p, q);
      MembersByEntry(t, f[p], f[q]);
      assert f[q] == f[p] ==> q == p;
    }
  }

  lemma {:induction false} SameSize(a: set<int>, b: set<int>, f: map<int, int>)
    requires a <= f.Keys && Ascends(f)
    requires (forall p | p in a :: f[p] in b) && (forall x | x in b :: exists p :: p in a && f[p] == x)
    ensures |a| == |b|
    decreases |a|
  {
    if a == {} {
      assert b == {} by {
        forall x ensures x !in b {}
      }
    } else {
      var p := Pick(a);
      forall x | x in b - {f[p]} ensures exists q :: q in a - {p} && f[q] == x {
        var q :| q in a && f[q] == x;
        assert q != p;
      }
      forall q | q in a - {p} ensures f[q] in b - {f[p]} {
        assert if q < p then f[q] < f[p] else f[p] < f[q];
      }
      SameSize(a - {p}, b - {f[p]}, f);
    }
  }

  lemma PairsShowSame(s: State, t: State, f: map<int, int>, p: int)
    requires Inv(s) && Lone(s) && Inv(t) && Lone(t) && Pairs(s, t, None, f) && p in f
    ensures f[p] in t.participants
    ensures ShowsSame(s.envelopes[s.participants[p].envelope], t.envelopes[t.participants[f[p]].envelope])
  {
    PairsKeepMembers(s, t, f, p);
    assert SameEntry(s, p, t, f[p]);
    var a, b := s.participants[p].envelope, t.participants[f[p]].envelope;
    MembersOnto(s, t, f, a, b);
    SameSize(Members(s.participants, a), Members(t.participants, b), f);
    LatestPaired(s, t, f, a, b);
  }

  lemma MembersOnto(s: State, t: State, f: map<int, int>, a: int, b: int)
    requires Pairs(s, t, None, f)
    requires forall q | q in f :: q in Members(s.participants, a) <==> f[q] in Members(t.participants, b)
    ensures forall x | x in Members(t.participants, b) :: exists q :: q in Members(s.participants, a) && f[q] == x
  {
    forall x | x in Members(t.participants, b) ensures exists q :: q in Members(s.participants, a) && f[q] == x {
      assert x in Visible(t, None) && Hit(f, x);
      var q :| q in f && f[q] == x;
      assert q in Members(s.participants, a);
    }
  }

  lemma LatestPaired(s: State, t: State, f: map<int, int>, a: int, b: int)
    requires Inv(s) && Inv(t) && Pairs(s, t, None, f) && a in s.envelopes && b in t.envelopes
    requires forall q | q in f :: q in Members(s.participants, a) <==> f[q] in Members(t.participants, b)
    requires forall x | x in Members(t.participants, b) :: exists q :: q in Members(s.participants, a) && f[q] == x
    ensures exists p :: p in s.participants && ShowsLatest(s.envelopes[a], s.participants[p])
                        && ShowsLatest(t.envelopes[b], s.participants[p])
  {
    var ms, mt := Members(s.participants, a), Members(t.participants, b);
    assert Agrees(s.envelopes[a], s.participants, a) && Agrees(t.envelopes[b], t.participants, b);
    var newest :| Newest(s.participants, ms, newest) && ShowsLatest(s.envelopes[a], s.participants[newest]);
    NewestPaired(s, t, f, ms, mt, newest);
    var newest' :| Newest(t.participants, mt, newest') && ShowsLatest(t.envelopes[b], t.participants[newest']);
    NewestUnique(t.participants, mt, newest', f[newest]);
    assert SameEntry(s, newest, t, f[newest]);
  }

  lemma NewestPaired(s: State, t: State, f: map<int, int>, ms: set<int>, mt: set<int>, newest: int)
    requires Pairs(s, t, None, f) && Newest(s.participants, ms, newest) && mt <= t.participants.Keys
    requires (forall q | q in f :: q in ms <==> f[q] in mt) && (forall x | x in mt :: exists q :: q in ms && f[q] == x)
    ensures Newest(t.participants, mt, f[newest])
  {
    assert SameEntry(s, newest, t, f[newest]);
    forall x | x in mt ensures NotBefore(t.participants, f[newest], x) {
      var q :| q in ms && f[q] == x;
      assert SameEntry(s, q, t, x) && NotBefore(s.participants, newest, q);
      assert q < newest ==> f[q] < f[newest];
    }
  }

  // ---------- the theorem ----------

  // Both tables list the same participants in the same order, and their envelopes show the same.
  ghost predicate SameUpToNumbering(s: State, t: State) {
    exists f :: Pairs(s, t, None, f) && forall p | p in f ::
      ShowsSame(s.envelopes[s.participants[p].envelope], t.envelopes[t.participants[f[p]].envelope])
  }

  // A record is created, other records come and go, and then it is updated.  The tables end up,
  // but for numbering, as if the update had been its first announcement.
  lemma {:induction false} UpdateForgetsCreate(s: State, uri: string, first: seq<Notification>,
                                               second: seq<Notification>,
                                              ops: seq<Op>, ss: seq<State>, ts: seq<State>)
    requires Inv(s) && Lone(s) && NoneStray(s, Capped(first))
    requires forall p | p in s.participants :: s.participants[p].uri != uri
    requires forall i | 0 <= i < |first| :: first[i].uri == uri
    requires forall k | 0 <= k < |ops| :: Elsewhere(ops[k], uri)
    requires RunFrom(s, ss, ops) && RunFrom(Process(s, Create, uri, Some(first)), ts, ops)
    requires NoneStray(ss[|ops|], Capped(second)) && NoneStray(Delete(ts[|ops|], uri), Capped(second))
    ensures SameUpToNumbering(Process(ss[|ops|], Create, uri, Some(second)),
                              Process(ts[|ops|], Update, uri, Some(second)))
  {
    CreateIsAlike(s, uri, first);
    PairsRun(uri, ss, ts, ops, |ops|);
    var g :| Pairs(ss[|ops|], ts[|ops|], Some(uri), g);
    UpdatePairs(ss[|ops|], ts[|ops|], uri, g, Capped(second));
  }

  lemma {:induction false} CreateIsAlike(s: State, uri: string, first: seq<Notification>)
    requires Inv(s) && Lone(s) && NoneStray(s, Capped(first))
    requires forall p | p in s.participants :: s.participants[p].uri != uri
    requires forall i | 0 <= i < |first| :: first[i].uri == uri
    ensures Alike(s, Process(s, Create, uri, Some(first)), uri)
  {
    var ns := Capped(first);
    assert forall i | 0 <= i < |ns| :: ns[i] == first[i];
    ApplyAddsOnly(s, ns, uri);
    BatchKeepsLone(s, ns);
    var f := PairsStart(s, ns, uri);
  }

  lemma {:induction false} UpdatePairs(s: State, t: State, uri: string, f: map<int, int>, ns: seq<Notification>)
    requires Inv(s) && Lone(s) && Inv(t) && Lone(t) && Pairs(s, t, Some(uri), f)
    requires NoneStray(s, ns) && NoneStray(Delete(t, uri), ns)
    ensures SameUpToNumbering(Apply(s, ns), Apply(Delete(t, uri), ns))
  {
    DeleteKeepsAgreement(t, uri);
    DeleteKeepsLone(t, uri);
    PairsReveal(s, t, uri, f);
    var g := PairsBatch(s, Delete(t, uri), f, ns);
    var s', t' := Apply(s, ns), Apply(Delete(t, uri), ns);
    forall p | p in g
      ensures ShowsSame(s'.envelopes[s'.participants[p].envelope], t'.envelopes[t'.participants[g[p]].envelope]) {
      PairsShowSame(s', t', g, p);
    }
  }
}
