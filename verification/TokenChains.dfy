/**
 Chains of refresh tokens over whole runs.  A history is the tables together
 with bookkeeping the server does not keep: which chain a token belongs to, what
 its first token was, and how many rotations stopped before their revoke.
 */
module TokenChains {
  import opened TokenTables

  // A chain starts at an authorization code or at a token older than the run.
  datatype Chain = FromCode(code: string) | Legacy(token: string)

  datatype History = History(
    t: Tables,
    issued: set<string>,              // codes ever issued
    origin: map<string, Chain>,       // the chain of each refresh token
    first: map<Chain, RefreshToken>,  // the first token of each chain
    starts: map<string, nat>,         // how often each code started a chain
    interrupted: map<Chain, nat>,     // rotations that inserted but did not revoke
    revoked: set<Chain>)              // chains touched by an explicit revoke

  datatype Event =
    | IssueCode(code: string, row: AuthCode)
    | DoExchange(e: Exchange, writes: nat)
    | DoRotate(r: Rotation, writes: nat)
    | DoRevoke(token: string, accessOk: bool, refreshOk: bool)
    | DoCleanup(now: int)

  function Count<K(==)>(m: map<K, nat>, k: K): nat {
    if k in m then m[k] else 0
  }

  predicate Added(before: Tables, after: Tables, token: string) {
    token in after.refresh && token !in before.refresh
  }

  function Next(c: Config, h: History, ev: Event): History {
    match ev
    case IssueCode(code, row) =>
      h.(t := h.t.(codes := h.t.codes[code := row.(used := false)]), issued := h.issued + {code})
    case DoExchange(e, writes) =>
      var t := AfterExchange(c, h.t, e, writes);
      if Added(h.t, t, e.newRefresh) then
        h.(t := t, origin := h.origin[e.newRefresh := FromCode(e.code)],
           first := h.first[FromCode(e.code) := Scan(t.refresh[e.newRefresh])],
           starts := h.starts[e.code := Count(h.starts, e.code) + 1])
      else h.(t := t)
    case DoRotate(r, writes) =>
      var t := AfterRotation(c, h.t, r, writes);
      if Added(h.t, t, r.newRefresh) && r.token in h.origin && r.token in t.refresh then
        var chain := h.origin[r.token];
        h.(t := t, origin := h.origin[r.newRefresh := chain],
           interrupted := if t.refresh[r.token].revoked then h.interrupted
                          else h.interrupted[chain := Count(h.interrupted, chain) + 1])
      else h.(t := t)
    case DoRevoke(token, accessOk, refreshOk) =>
      h.(t := AfterRevoke(h.t, token, accessOk, refreshOk),
         revoked := if token in h.origin then h.revoked + {h.origin[token]} else h.revoked)
    case DoCleanup(now) => h.(t := AfterCleanup(h.t, now))
  }

  // What the environment guarantees: code strings are random and never issued
  // again, and the clock reads a positive time.
  predicate Possible(h: History, ev: Event) {
    match ev
    case IssueCode(code, _) => code !in h.issued
    case DoExchange(e, _) => e.now > 0
    case DoRotate(r, _) => r.now > 0
    case _ => true
  }

  // A run starts from any tables whose refresh tokens have positive dates; each of them is its own chain.
  ghost predicate Initial(h: History) {
    && (forall k | k in h.t.refresh :: Scan(h.t.refresh[k]).originalIssuedAt > 0)
    && h.issued == h.t.codes.Keys
    && h.origin == (map k | k in h.t.refresh :: Legacy(k))
    && h.first.Keys == (set k | k in h.t.refresh :: Legacy(k))
    && (forall k | k in h.t.refresh :: h.first[Legacy(k)] == Scan(h.t.refresh[k]))
    && h.starts == map[] && h.interrupted == map[] && h.revoked == {}
  }

  // ---------- what every history keeps ----------

  predicate SameGrant(a: RefreshToken, b: RefreshToken) {
    && a.clientId == b.clientId && a.userId == b.userId && a.scope == b.scope
    && a.dpopJkt == b.dpopJkt && a.originalIssuedAt == b.originalIssuedAt
  }

  // Every token belongs to a chain and agrees with the chain's first token.
  ghost predicate ChainsAgree(h: History) {
    && h.origin.Keys == h.t.refresh.Keys
    && forall k | k in h.t.refresh ::
         h.origin[k] in h.first && SameGrant(Scan(h.t.refresh[k]), h.first[h.origin[k]])
         && h.first[h.origin[k]].originalIssuedAt > 0
  }

  // A code that started a chain did so once, and cannot be exchanged again.
  ghost predicate CodesSpent(h: History) {
    && h.t.codes.Keys <= h.issued
    && (forall code | FromCode(code) in h.first :: code in h.issued && Count(h.starts, code) == 1
                      && (code in h.t.codes ==> h.t.codes[code].used))
    && (forall code | FromCode(code) !in h.first :: Count(h.starts, code) == 0)
  }

  function LiveIn(rows: map<string, RefreshRow>, origin: map<string, Chain>, chain: Chain): set<string> {
    set k | k in rows && k in origin && origin[k] == chain && !rows[k].revoked
  }

  function Live(h: History, chain: Chain): set<string> {
    LiveIn(h.t.refresh, h.origin, chain)
  }

  lemma LiveAdded(rows: map<string, RefreshRow>, origin: map<string, Chain>, token: string, row: RefreshRow,
                  chain: Chain, other: Chain)
    requires token !in rows && !row.revoked
    ensures LiveIn(rows[token := row], origin[token := chain], other) ==
            LiveIn(rows, origin, other) + if other == chain then {token} else {}
  {
  }

  lemma LiveRevoked(rows: map<string, RefreshRow>, origin: map<string, Chain>, token: string, other: Chain)
    requires token in rows
    ensures LiveIn(rows[token := rows[token].(revoked := true)], origin, other) == LiveIn(rows, origin, other) - {token}
  {
  }

  // A chain begins with one unrevoked token, unless its first token is an old revoked one.
  function StartLive(h: History, chain: Chain): nat
    requires chain in h.first
  {
    if h.first[chain].revoked then 0 else 1
  }

  predicate CountOk(h: History, chain: Chain)
    requires chain in h.first
  {
    && |Live(h, chain)| <= StartLive(h, chain) + Count(h.interrupted, chain)
    && (chain !in h.revoked ==> |Live(h, chain)| == StartLive(h, chain) + Count(h.interrupted, chain))
  }

  ghost predicate LiveCounted(h: History) {
    h.interrupted.Keys <= h.first.Keys && forall chain | chain in h.first :: CountOk(h, chain)
  }

  // A chain that has started at a code started unrevoked.
  ghost predicate CodesStartLive(h: History) {
    forall code | FromCode(code) in h.first :: !h.first[FromCode(code)].revoked
  }

  ghost predicate Inv(h: History) {
    ChainsAgree(h) && CodesSpent(h) && LiveCounted(h) && CodesStartLive(h)
  }

  lemma InitialInv(h: History)
    requires Initial(h)
    ensures Inv(h)
  {
    forall chain | chain in h.first ensures |Live(h, chain)| == StartLive(h, chain) {
      var k := chain.token;
      assert Live(h, chain) == if h.t.refresh[k].revoked then {} else {k};
    }
  }

  lemma IssueKeeps(c: Config, h: History, ev: Event)
    requires Inv(h) && Possible(h, ev) && ev.IssueCode?
    ensures Inv(Next(c, h, ev))
  {
    UnchangedTokens(h, Next(c, h, ev));
  }

  lemma CleanupKeeps(c: Config, h: History, ev: Event)
    requires Inv(h) && ev.DoCleanup?
    ensures Inv(Next(c, h, ev))
  {
    UnchangedTokens(h, Next(c, h, ev));
  }

  lemma RevokeShape(t: Tables, token: string, accessOk: bool, refreshOk: bool)
    ensures var t' := AfterRevoke(t, token, accessOk, refreshOk);
            && t'.codes == t.codes
            && t'.refresh == if token != "" && refreshOk && token in t.refresh
                             then t.refresh[token := t.refresh[token].(revoked := true)] else t.refresh
  {
  }

  lemma RevokeKeeps(c: Config, h: History, ev: Event)
    requires Inv(h) && ev.DoRevoke?
    ensures Inv(Next(c, h, ev))
  {
    RevokeShape(h.t, ev.token, ev.accessOk, ev.refreshOk);
    RevokedKeeps(h, Next(c, h, ev), ev.token);
  }

  lemma RevokedKeeps(h: History, h': History, token: string)
    requires Inv(h) && h'.t.codes == h.t.codes
    requires h'.t.refresh == h.t.refresh
             || (token in h.t.refresh && h'.t.refresh == h.t.refresh[token := h.t.refresh[token].(revoked := true)])
    requires h' == h.(t := h'.t, revoked := if token in h.origin then h.revoked + {h.origin[token]} else h.revoked)
    ensures Inv(h')
  {
    if h'.t.refresh == h.t.refresh {
      UnchangedTokens(h, h');
    } else {
      RevokeAgrees(h, h', token);
      RevokeCounts(h, h', token);
    }
  }

  lemma RevokeAgrees(h: History, h': History, token: string)
    requires ChainsAgree(h) && token in h.t.refresh
    requires h'.t.refresh == h.t.refresh[token := h.t.refresh[token].(revoked := true)]
    requires h'.origin == h.origin && h'.first == h.first
    ensures ChainsAgree(h')
  {
  }

  lemma RevokeCounts(h: History, h': History, token: string)
    requires ChainsAgree(h) && LiveCounted(h) && token in h.t.refresh
    requires h'.t.refresh == h.t.refresh[token := h.t.refresh[token].(revoked := true)]
    requires h' == h.(t := h'.t, revoked := h.revoked + {h.origin[token]})
    ensures LiveCounted(h')
  {
    forall chain | chain in h'.first
      ensures |Live(h', chain)| <= |Live(h, chain)|
      ensures chain !in h'.revoked ==> Live(h', chain) == Live(h, chain)
    {
      LiveRevoked(h.t.refresh, h.origin, token, chain);
    }
  }

  // A step that leaves refresh tokens, chains and counts alone keeps what is said of them.
  lemma UnchangedTokens(h: History, h': History)
    requires ChainsAgree(h) && LiveCounted(h)
    requires h'.t.refresh == h.t.refresh && h'.origin == h.origin && h'.first == h.first
    requires h'.interrupted == h.interrupted && h.revoked <= h'.revoked
    ensures ChainsAgree(h') && LiveCounted(h')
  {
    forall chain ensures Live(h', chain) == Live(h, chain) {}
  }

  // ---------- the two handlers ----------

  lemma ExchangeShape(c: Config, t: Tables, e: Exchange, writes: nat)
    ensures var t' := AfterExchange(c, t, e, writes);
            && t'.codes.Keys == t.codes.Keys
            && (forall code | code in t.codes :: t.codes[code].used ==> t'.codes[code].used)
            && (if Added(t, t', e.newRefresh) then
                  && e.code in t.codes && !t.codes[e.code].used && t'.codes[e.code].used
                  && t'.refresh == t.refresh[e.newRefresh := ToRow(FirstToken(c, t.codes[e.code], e))]
                else t'.refresh == t.refresh)
  {
  }

  lemma ExchangeKeeps(c: Config, h: History, ev: Event)
    requires Inv(h) && Possible(h, ev) && ev.DoExchange?
    ensures Inv(Next(c, h, ev))
  {
    ExchangeShape(c, h.t, ev.e, ev.writes);
    ExchangedKeeps(c, h, Next(c, h, ev), ev.e, AfterExchange(c, h.t, ev.e, ev.writes));
  }

  // What ExchangeShape says of the new tables is enough.
  lemma ExchangedKeeps(c: Config, h: History, h': History, e: Exchange, t: Tables)
    requires Inv(h) && e.now > 0
    requires t.codes.Keys == h.t.codes.Keys
    requires forall code | code in h.t.codes :: h.t.codes[code].used ==> t.codes[code].used
    requires Added(h.t, t, e.newRefresh) ==>
               && e.code in h.t.codes && !h.t.codes[e.code].used && t.codes[e.code].used
               && t.refresh == h.t.refresh[e.newRefresh := ToRow(FirstToken(c, h.t.codes[e.code], e))]
               && h' == h.(t := t, origin := h.origin[e.newRefresh := FromCode(e.code)],
                           first := h.first[FromCode(e.code) := Scan(t.refresh[e.newRefresh])],
                           starts := h.starts[e.code := Count(h.starts, e.code) + 1])
    requires !Added(h.t, t, e.newRefresh) ==> t.refresh == h.t.refresh && h' == h.(t := t)
    ensures Inv(h')
  {
    if Added(h.t, t, e.newRefresh) {
      StartKeeps(h, h', e, ToRow(FirstToken(c, h.t.codes[e.code], e)));
    } else {
      UnchangedTokens(h, h');
    }
  }

  lemma StartKeeps(h: History, h': History, e: Exchange, row: RefreshRow)
    requires Inv(h) && e.code in h.t.codes && !h.t.codes[e.code].used && e.newRefresh !in h.t.refresh
    requires Scan(row).originalIssuedAt > 0 && !row.revoked
    requires h'.t.codes.Keys == h.t.codes.Keys && h'.t.codes[e.code].used && h'.issued == h.issued
    requires forall code | code in h.t.codes :: h.t.codes[code].used ==> h'.t.codes[code].used
    requires h'.t.refresh == h.t.refresh[e.newRefresh := row] && h'.origin == h.origin[e.newRefresh := FromCode(e.code)]
    requires h'.first == h.first[FromCode(e.code) := Scan(row)]
    requires h'.starts == h.starts[e.code := Count(h.starts, e.code) + 1]
    requires h'.interrupted == h.interrupted && h'.revoked == h.revoked
    ensures Inv(h')
  {
    StartAgrees(h, h', e.newRefresh, row, FromCode(e.code));
    StartCounts(h, h', e.newRefresh, row, FromCode(e.code));
    StartSpends(h, h', e, row);
  }

  lemma StartAgrees(h: History, h': History, token: string, row: RefreshRow, chain: Chain)
    requires ChainsAgree(h) && token !in h.t.refresh && chain !in h.first && Scan(row).originalIssuedAt > 0
    requires h'.t.refresh == h.t.refresh[token := row] && h'.origin == h.origin[token := chain]
    requires h'.first == h.first[chain := Scan(row)]
    ensures ChainsAgree(h')
  {
  }

  lemma StartCounts(h: History, h': History, token: string, row: RefreshRow, chain: Chain)
    requires ChainsAgree(h) && LiveCounted(h) && token !in h.t.refresh && chain !in h.first && !row.revoked
    requires h'.t.refresh == h.t.refresh[token := row] && h'.origin == h.origin[token := chain]
    requires h'.first == h.first[chain := Scan(row)]
    requires h'.interrupted == h.interrupted && h'.revoked == h.revoked
    ensures LiveCounted(h')
  {
    NoneLive(h, chain);
    forall other | other in h'.first ensures CountOk(h', other) {
      LiveAdded(h.t.refresh, h.origin, token, row, chain, other);
      assert Live(h', other) == if other == chain then {token} else Live(h, other);
      if other != chain {
        assert CountOk(h, other);
      }
    }
  }

  lemma NoneLive(h: History, chain: Chain)
    requires ChainsAgree(h) && LiveCounted(h) && chain !in h.first
    ensures Live(h, chain) == {} && chain !in h.interrupted
  {
  }

  lemma StartSpends(h: History, h': History, e: Exchange, row: RefreshRow)
    requires CodesSpent(h) && CodesStartLive(h) && e.code in h.t.codes && FromCode(e.code) !in h.first && !row.revoked
    requires h'.t.codes.Keys == h.t.codes.Keys && h'.t.codes[e.code].used && h'.issued == h.issued
    requires forall code | code in h.t.codes :: h.t.codes[code].used ==> h'.t.codes[code].used
    requires h'.first == h.first[FromCode(e.code) := Scan(row)]
    requires h'.starts == h.starts[e.code := Count(h.starts, e.code) + 1]
    ensures CodesSpent(h') && CodesStartLive(h')
  {
  }

  function RotatedRows(c: Config, rows: map<string, RefreshRow>, r: Rotation, writes: nat): map<string, RefreshRow>
    requires r.token in rows
  {
    var both := rows[r.newRefresh := ToRow(NextToken(c, Scan(rows[r.token]), r))];
    if writes == 2 then both else both[r.token := both[r.token].(revoked := true)]
  }

  lemma RotationShape(c: Config, t: Tables, r: Rotation, writes: nat)
    ensures var t' := AfterRotation(c, t, r, writes);
            && t'.codes == t.codes
            && (if Added(t, t', r.newRefresh) then
                  && RotationError(c, t, r).None? && r.token != r.newRefresh
                  && t'.refresh == RotatedRows(c, t.refresh, r, writes)
                else t'.refresh == t.refresh)
  {
  }

  lemma RotateKeeps(c: Config, h: History, ev: Event)
    requires Inv(h) && Possible(h, ev) && ev.DoRotate?
    ensures Inv(Next(c, h, ev))
  {
    var h' := Next(c, h, ev);
    RotateCases(c, h, ev.r, ev.writes);
    if Added(h.t, h'.t, ev.r.newRefresh) {
      RotatedAgree(c, h, h', ev.r, ev.writes, h.origin[ev.r.token]);
      RotatedLive(c, h, h', ev.r, ev.writes, h.origin[ev.r.token]);
    } else {
      UnchangedTokens(h, h');
    }
  }

  lemma RotateCases(c: Config, h: History, r: Rotation, writes: nat)
    requires h.origin.Keys == h.t.refresh.Keys
    ensures var h' := Next(c, h, DoRotate(r, writes));
            && h'.t.codes == h.t.codes && h'.first == h.first && h'.starts == h.starts && h'.issued == h.issued
            && if Added(h.t, h'.t, r.newRefresh)
               then r.token in h.origin && Rotated(c, h, h', r, writes, h.origin[r.token])
               else h' == h.(t := h'.t) && h'.t.refresh == h.t.refresh
  {
    RotationShape(c, h.t, r, writes);
  }

  // The history after a rotation that stored its refresh token.
  ghost predicate Rotated(c: Config, h: History, h': History, r: Rotation, writes: nat, chain: Chain) {
    && RotationError(c, h.t, r).None? && r.newRefresh !in h.t.refresh && r.token != r.newRefresh
    && r.token in h.origin && chain == h.origin[r.token]
    && h'.t.refresh == RotatedRows(c, h.t.refresh, r, writes)
    && h' == h.(t := h'.t, origin := h.origin[r.newRefresh := chain],
                interrupted := if writes == 2 then h.interrupted[chain := Count(h.interrupted, chain) + 1]
                               else h.interrupted)
  }

  lemma RotatedAgree(c: Config, h: History, h': History, r: Rotation, writes: nat, chain: Chain)
    requires ChainsAgree(h) && r.now > 0 && Rotated(c, h, h', r, writes, chain)
    ensures ChainsAgree(h')
  {
    var stored := Scan(h.t.refresh[r.token]);
    assert SameGrant(Scan(ToRow(NextToken(c, stored, r))), stored);
  }

  // An interrupted rotation leaves one token more, a complete one trades old for new.
  lemma RotatedLive(c: Config, h: History, h': History, r: Rotation, writes: nat, chain: Chain)
    requires ChainsAgree(h) && LiveCounted(h) && Rotated(c, h, h', r, writes, chain)
    ensures LiveCounted(h')
  {
    assert chain in h.first;
    forall other | other in h'.first ensures CountOk(h', other) {
      RotatedCountOk(c, h, h', r, writes, chain, other);
    }
  }

  lemma RotatedCountOk(c: Config, h: History, h': History, r: Rotation, writes: nat, chain: Chain, other: Chain)
    requires Rotated(c, h, h', r, writes, chain) && other in h.first && CountOk(h, other)
    ensures CountOk(h', other)
  {
    RotatedCount(c, h, h', r, writes, chain, other);
    assert h'.first == h.first && h'.revoked == h.revoked;
    assert Count(h'.interrupted, other) == Count(h.interrupted, other) + if other == chain && writes == 2 then 1 else 0;
  }

  lemma RotatedCount(c: Config, h: History, h': History, r: Rotation, writes: nat, chain: Chain, other: Chain)
    requires Rotated(c, h, h', r, writes, chain)
    ensures |Live(h', other)| == |Live(h, other)| + if other == chain && writes == 2 then 1 else 0
  {
    RotatedSet(c, h.t.refresh, h.origin, r, writes, other);
    var before := Live(h, other);
    assert r.newRefresh !in before;
    assert r.token in before <==> other == chain;
    if other == chain {
      assert |before + {r.newRefresh}| == |before| + 1;
      assert |before + {r.newRefresh} - {r.token}| == |before|;
    } else {
      assert Live(h', other) == before;
    }
  }

  lemma RotatedSet(c: Config, rows: map<string, RefreshRow>, origin: map<string, Chain>, r: Rotation, writes: nat,
                   other: Chain)
    requires r.token in rows && r.token in origin && r.newRefresh !in rows && r.token != r.newRefresh
    ensures LiveIn(RotatedRows(c, rows, r, writes), origin[r.newRefresh := origin[r.token]], other) ==
            LiveIn(rows, origin, other) + (if other == origin[r.token] then {r.newRefresh} else {})
            - if writes == 2 then {} else {r.token}
  {
    var row := ToRow(NextToken(c, Scan(rows[r.token]), r));
    LiveAdded(rows, origin, r.newRefresh, row, origin[r.token], other);
    LiveRevoked(rows[r.newRefresh := row], origin[r.newRefresh := origin[r.token]], r.token, other);
  }

  lemma NextKeeps(c: Config, h: History, ev: Event)
    requires Inv(h) && Possible(h, ev)
    ensures Inv(Next(c, h, ev))
  {
    match ev
    case IssueCode(_, _) => IssueKeeps(c, h, ev);
    case DoExchange(_, _) => ExchangeKeeps(c, h, ev);
    case DoRotate(_, _) => RotateKeeps(c, h, ev);
    case DoRevoke(_, _, _) => RevokeKeeps(c, h, ev);
    case DoCleanup(_) => CleanupKeeps(c, h, ev);
  }

  // ---------- whole runs ----------

  ghost predicate Run(c: Config, states: seq<History>, events: seq<Event>) {
    && |states| == |events| + 1 && Initial(states[0])
    && forall i | 0 <= i < |events| :: Possible(states[i], events[i]) && states[i + 1] == Next(c, states[i], events[i])
  }

  lemma {:induction false} RunKeeps(c: Config, states: seq<History>, events: seq<Event>, i: nat)
    requires Run(c, states, events) && i < |states|
    ensures Inv(states[i])
  {
    if i == 0 {
      InitialInv(states[0]);
    } else {
      RunKeeps(c, states, events, i - 1);
      NextKeeps(c, states[i - 1], events[i - 1]);
    }
  }

  // Each authorization code starts at most one chain, in every run with any stops.
  lemma OneChainPerCode(c: Config, states: seq<History>, events: seq<Event>, i: nat, code: string)
    requires Run(c, states, events) && i < |states|
    ensures Count(states[i].starts, code) <= 1
  {
    RunKeeps(c, states, events, i);
  }

  // Two tokens of one chain agree on client, user, scope, key and first issue date.
  lemma ChainKeepsGrant(c: Config, states: seq<History>, events: seq<Event>, i: nat, a: string, b: string)
    requires Run(c, states, events) && i < |states|
    requires a in states[i].t.refresh && b in states[i].t.refresh
    ensures a in states[i].origin && b in states[i].origin
    ensures states[i].origin[a] == states[i].origin[b] ==>
            SameGrant(Scan(states[i].t.refresh[a]), Scan(states[i].t.refresh[b]))
  {
    RunKeeps(c, states, events, i);
  }

  // A chain started by a code and never explicitly revoked has exactly one
  // unrevoked token more than it has rotations that stopped short of the revoke;
  // with explicit revokes it has at most that many.
  lemma LiveTokensOfChain(c: Config, states: seq<History>, events: seq<Event>, i: nat, code: string)
    requires Run(c, states, events) && i < |states| && FromCode(code) in states[i].first
    ensures var h := states[i];
            var chain := FromCode(code);
            && |Live(h, chain)| <= 1 + Count(h.interrupted, chain)
            && (chain !in h.revoked ==> |Live(h, chain)| == 1 + Count(h.interrupted, chain))
  {
    RunKeeps(c, states, events, i);
  }

  // At any depth of rotation: a token that is really refreshed carries the binding
  // of its chain's first token, and the proof or the cutoff is checked against that.
  lemma RefreshNeedsOriginalBinding(c: Config, states: seq<History>, events: seq<Event>, i: nat, r: Rotation,
                                    writes: nat)
    requires Run(c, states, events) && i < |events| && events[i] == DoRotate(r, writes)
    requires Added(states[i].t, states[i + 1].t, r.newRefresh)
    ensures r.token in states[i].origin && states[i].origin[r.token] in states[i].first
    ensures var first := states[i].first[states[i].origin[r.token]];
            if first.dpopJkt != "" then r.proof == Key(first.dpopJkt) else first.originalIssuedAt < c.legacyCutoff
  {
    RunKeeps(c, states, events, i);
    RotationShape(c, states[i].t, r, writes);
    BindingOfFirst(c, states[i], r);
  }

  lemma BindingOfFirst(c: Config, h: History, r: Rotation)
    requires ChainsAgree(h) && RotationError(c, h.t, r).None?
    ensures var first := h.first[h.origin[r.token]];
            if first.dpopJkt != "" then r.proof == Key(first.dpopJkt) else first.originalIssuedAt < c.legacyCutoff
  {
  }
}
