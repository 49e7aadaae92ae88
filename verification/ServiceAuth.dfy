/**
 Verification of service-auth tokens: the claim windows, the replay key, and
 the guarantee that the bounded cache gives over a whole run.  Times are in
 nanoseconds, claims in seconds, as in the source.
 */
module ServiceAuthSpec {
  import opened Wrappers
  import opened ReplaySpec

  const SECOND := 1_000_000_000
  const MAX_LIFETIME := 60 * SECOND
  const MAX_SKEW := 30 * SECOND
  const CACHE_CAPACITY: nat := 100_000

  // A token whose signature the JWT library has checked, or its reason to refuse.
  // `synth` stands for the key built from the claims and the signature bytes.
  datatype Token = Token(
    libraryError: Option<AuthError>,
    iss: string, aud: string, exp: int, iat: int, jti: string, lxm: string, synth: string)

  datatype AuthError =
    | LibraryRefused | BadAudience | Expired | FutureIat | BadLxm | MissingJti | Replay | NoLxmConfigured

  datatype Verdict = Accepted | Rejected(e: AuthError)

  // Everything Verify checks before the replay step, in order.
  function ClaimError(t: Token, audience: string, expectedLxm: string, now: int): Option<AuthError> {
    if expectedLxm == "" then Some(NoLxmConfigured)
    else if t.libraryError.Some? then t.libraryError
    else if t.aud != audience then Some(BadAudience)
    else if t.exp == 0 then Some(Expired)
    else if t.exp * SECOND <= now - MAX_SKEW then Some(Expired)
    else if t.exp * SECOND > now + MAX_LIFETIME + MAX_SKEW then Some(Expired)
    else if t.iat != 0 && t.iat * SECOND > now + MAX_SKEW then Some(FutureIat)
    else if t.lxm != expectedLxm then Some(BadLxm)
    else if t.jti == "" && t.iat == 0 then Some(MissingJti)
    else None
  }

  function Nonce(t: Token): string {
    if t.jti != "" then t.jti else t.synth
  }

  function ReplayKey(t: Token): string {
    t.iss + "|" + Nonce(t)
  }

  function EntryExpiry(t: Token): int {
    t.exp * SECOND + MAX_SKEW
  }

  function FirstBar(s: string): nat {
    if s == "" || s[0] == '|' then 0 else 1 + FirstBar(s[1..])
  }

  lemma {:induction false} FirstBarAfter(iss: string, rest: string)
    requires '|' !in iss
    ensures FirstBar(iss + "|" + rest) == |iss|
  {
    if iss == "" {
      assert ("" + "|" + rest)[0] == '|';
    } else {
      assert (iss + "|" + rest)[1..] == iss[1..] + "|" + rest;
      FirstBarAfter(iss[1..], rest);
    }
  }

  // Issuers are DIDs, which have no bar in them; so the composite keys do not collide.
  lemma KeysDoNotCollide(a: Token, b: Token)
    requires '|' !in a.iss && '|' !in b.iss && ReplayKey(a) == ReplayKey(b)
    ensures a.iss == b.iss && Nonce(a) == Nonce(b)
  {
    FirstBarAfter(a.iss, Nonce(a));
    FirstBarAfter(b.iss, Nonce(b));
    var k, n := ReplayKey(a), |a.iss|;
    assert a.iss == k[..n] && b.iss == k[..n];
    assert Nonce(a) == k[n + 1..] && Nonce(b) == k[n + 1..];
  }

  ghost predicate VerifyStep(capacity: nat, m: Cache, m': Cache, audience: string, e: Event) {
    var refused := ClaimError(e.token, audience, e.lxm, e.now);
    if refused.Some? then m' == m && e.verdict == Rejected(refused.value)
    else
      var isNew := e.verdict.Accepted?;
      && CheckStep(m, m', ReplayKey(e.token), EntryExpiry(e.token), e.now, capacity, isNew)
      && (!isNew ==> e.verdict == Rejected(Replay))
  }

  // ---------- runs ----------

  datatype Event = Event(token: Token, lxm: string, now: int, verdict: Verdict)

  // The cache before each call and after the last one.
  ghost predicate Run(capacity: nat, audience: string, events: seq<Event>, caches: seq<Cache>) {
    && |caches| == |events| + 1 && caches[0] == map[]
    && forall i | 0 <= i < |events| :: VerifyStep(capacity, caches[i], caches[i + 1], audience, events[i])
  }

  ghost predicate ClockNeverRunsBack(events: seq<Event>) {
    forall i, j | 0 <= i < j < |events| :: events[i].now <= events[j].now
  }

  function AcceptedIn(events: seq<Event>, from: int, to: int): set<nat> {
    set i: nat | i < |events| && events[i].verdict.Accepted? && from < events[i].now <= to
  }

  // No more than n acceptances in any 120 seconds.
  ghost predicate WithinCapacity(n: nat, events: seq<Event>) {
    forall from: int, to: int | to - from == 120 * SECOND :: |AcceptedIn(events, from, to)| <= n
  }

  // Every accepted token is remembered with its own expiry, or has run out by the last call.
  ghost predicate Remembers(events: seq<Event>, i: nat, m: Cache)
    requires i <= |events|
  {
    forall j | 0 <= j < i && events[j].verdict.Accepted? ::
      Kept(events, j, m) || EntryExpiry(events[j].token) <= events[i - 1].now
  }

  predicate Kept(events: seq<Event>, j: nat, m: Cache)
    requires j < |events|
  {
    var k := ReplayKey(events[j].token);
    k in m && m[k] == EntryExpiry(events[j].token)
  }

  predicate Source(events: seq<Event>, j: nat, k: string, expiry: int)
    requires j < |events|
  {
    events[j].verdict.Accepted? && ReplayKey(events[j].token) == k && EntryExpiry(events[j].token) == expiry
  }

  // Every entry comes from an accepted token.
  ghost predicate Justified(events: seq<Event>, i: nat, m: Cache)
    requires i <= |events|
  {
    forall k | k in m :: exists j: nat :: j < i && Source(events, j, k, m[k])
  }

  // Keys that name distinct indices are no more than the indices.
  lemma {:induction false} FewerKeys(events: seq<Event>, keys: set<string>, indices: set<nat>)
    requires forall j | j in indices :: j < |events|
    requires forall k | k in keys :: exists j :: j in indices && ReplayKey(events[j].token) == k
    ensures |keys| <= |indices|
    decreases |indices|
  {
    if indices == {} {
      assert keys == {} by {
        forall k ensures k !in keys {}
      }
    } else {
      var j :| j in indices;
      var k := ReplayKey(events[j].token);
      FewerKeys(events, keys - {k}, indices - {j});
      SubsetSize(keys, (keys - {k}) + {k});
    }
  }

  // The window arithmetic: an accepted token's entry lives at most 120 seconds.
  lemma EntryLifetime(audience: string, e: Event)
    requires ClaimError(e.token, audience, e.lxm, e.now).None?
    ensures e.now < EntryExpiry(e.token) <= e.now + 120 * SECOND
  {
  }

  lemma AcceptedLifetime(capacity: nat, audience: string, events: seq<Event>, caches: seq<Cache>, i: nat)
    requires Run(capacity, audience, events, caches) && i < |events| && events[i].verdict.Accepted?
    ensures events[i].now < EntryExpiry(events[i].token) <= events[i].now + 120 * SECOND
  {
    assert VerifyStep(capacity, caches[i], caches[i + 1], audience, events[i]);
    EntryLifetime(audience, events[i]);
  }

  function Recent(events: seq<Event>, i: nat, now: int): set<nat>
    requires i <= |events|
  {
    set j: nat | j < i && events[j].verdict.Accepted? && now - 120 * SECOND < events[j].now
  }

  lemma LiveKeyIsRecent(capacity: nat, audience: string, events: seq<Event>, caches: seq<Cache>, i: nat, now: int,
                        k: string)
    returns (j: nat)
    requires Run(capacity, audience, events, caches) && i <= |events| && Justified(events, i, caches[i])
    requires k in caches[i] && caches[i][k] > now
    ensures j in Recent(events, i, now) && ReplayKey(events[j].token) == k
  {
    j :| j < i && Source(events, j, k, caches[i][k]);
    assert VerifyStep(capacity, caches[j], caches[j + 1], audience, events[j]);
    EntryLifetime(audience, events[j]);
  }

  lemma RecentFitsWindow(events: seq<Event>, i: nat, capacity: nat)
    requires i < |events| && events[i].verdict.Accepted?
    requires ClockNeverRunsBack(events) && WithinCapacity(capacity, events)
    ensures |Recent(events, i, events[i].now)| < capacity
  {
    var now := events[i].now;
    var window := AcceptedIn(events, now - 120 * SECOND, now);
    var recent := Recent(events, i, now);
    assert recent + {i} <= window;
    SubsetSize(recent + {i}, window);
    assert i !in recent;
  }

  // So the live entries at the i-th call all come from the last 120 seconds.
  lemma LiveEntriesAreFew(capacity: nat, audience: string, events: seq<Event>, caches: seq<Cache>, i: nat)
    requires Run(capacity, audience, events, caches) && ClockNeverRunsBack(events)
    requires WithinCapacity(capacity, events)
    requires i < |events| && events[i].verdict.Accepted? && Justified(events, i, caches[i])
    ensures |Purged(caches[i], events[i].now)| < capacity
  {
    var now := events[i].now;
    var live := Purged(caches[i], now);
    forall k | k in live.Keys ensures exists j :: j in Recent(events, i, now) && ReplayKey(events[j].token) == k {
      var j := LiveKeyIsRecent(capacity, audience, events, caches, i, now, k);
    }
    FewerKeys(events, live.Keys, Recent(events, i, now));
    RecentFitsWindow(events, i, capacity);
    assert |live| == |live.Keys|;
  }

  lemma {:induction false} Remembered(capacity: nat, audience: string, events: seq<Event>, caches: seq<Cache>, i: nat)
    requires Run(capacity, audience, events, caches) && ClockNeverRunsBack(events)
    requires WithinCapacity(capacity, events) && i <= |events|
    ensures Justified(events, i, caches[i]) && Remembers(events, i, caches[i])
    decreases i
  {
    if i > 0 {
      var h := i - 1;
      Remembered(capacity, audience, events, caches, h);
      assert VerifyStep(capacity, caches[h], caches[i], audience, events[h]);
      if events[h].verdict.Accepted? {
        LiveEntriesAreFew(capacity, audience, events, caches, h);
      }
      OneCheck(capacity, audience, events, h, caches[h], caches[i]);
    }
  }

  lemma KeepsJustified(events: seq<Event>, h: nat, m: Cache, m': Cache)
    requires h < |events| && Justified(events, h, m)
    requires forall k | k in m' :: (k in m && m'[k] == m[k]) || Source(events, h, k, m'[k])
    ensures Justified(events, h + 1, m')
  {
    forall k | k in m' ensures exists j: nat :: j < h + 1 && Source(events, j, k, m'[k]) {
      if k in m && m'[k] == m[k] {
        var j: nat :| j < h && Source(events, j, k, m[k]);
        assert j < h + 1 && Source(events, j, k, m'[k]);
      } else {
        assert h < h + 1 && Source(events, h, k, m'[k]);
      }
    }
  }

  lemma KeepsRemembers(events: seq<Event>, h: nat, m: Cache, m': Cache)
    requires h < |events| && ClockNeverRunsBack(events) && Remembers(events, h, m)
    requires forall k | k in m && m[k] > events[h].now :: k in m' && m'[k] == m[k]
    requires events[h].verdict.Accepted? ==> Kept(events, h, m')
    ensures Remembers(events, h + 1, m')
  {
    var now := events[h].now;
    forall j | 0 <= j < h && events[j].verdict.Accepted? && EntryExpiry(events[j].token) > now
      ensures Kept(events, j, m')
    {
      assert events[h - 1].now <= now;
      assert Kept(events, j, m);
    }
  }

  lemma OneCheck(capacity: nat, audience: string, events: seq<Event>, h: nat, m: Cache, m': Cache)
    requires h < |events| && ClockNeverRunsBack(events)
    requires VerifyStep(capacity, m, m', audience, events[h])
    requires Justified(events, h, m) && Remembers(events, h, m)
    requires events[h].verdict.Accepted? ==> |Purged(m, events[h].now)| < capacity
    ensures Justified(events, h + 1, m') && Remembers(events, h + 1, m')
  {
    OneCheckEntries(capacity, audience, events[h], m, m');
    KeepsJustified(events, h, m, m');
    KeepsRemembers(events, h, m, m');
  }

  lemma OneCheckEntries(capacity: nat, audience: string, e: Event, m: Cache, m': Cache)
    requires VerifyStep(capacity, m, m', audience, e)
    requires e.verdict.Accepted? ==> |Purged(m, e.now)| < capacity
    ensures forall k | k in m' :: (k in m && m'[k] == m[k])
              || (e.verdict.Accepted? && k == ReplayKey(e.token) && m'[k] == EntryExpiry(e.token))
    ensures forall k | k in m && m[k] > e.now :: k in m' && m'[k] == m[k]
    ensures e.verdict.Accepted? ==> ReplayKey(e.token) in m' && m'[ReplayKey(e.token)] == EntryExpiry(e.token)
  {
    if ClaimError(e.token, audience, e.lxm, e.now).None? {
      CheckAddsOnly(m, m', ReplayKey(e.token), EntryExpiry(e.token), e.now, capacity, e.verdict.Accepted?);
      CheckKeepsLive(m, m', ReplayKey(e.token), EntryExpiry(e.token), e.now, capacity, e.verdict.Accepted?);
    }
  }

  // Within capacity, a token that was accepted and has not run out is still in the cache.
  lemma NoLiveEntryIsEvicted(capacity: nat, audience: string, events: seq<Event>, caches: seq<Cache>, i: nat, j: nat)
    requires Run(capacity, audience, events, caches) && ClockNeverRunsBack(events)
    requires WithinCapacity(capacity, events)
    requires i < j <= |events| && events[i].verdict.Accepted? && EntryExpiry(events[i].token) > events[j - 1].now
    ensures Kept(events, i, caches[j])
  {
    Remembered(capacity, audience, events, caches, j);
  }

  // ---------- how many acceptances a replay takes ----------

  // The h-th call lets go of an entry.
  predicate Lost(caches: seq<Cache>, h: nat, k: string, expiry: int)
    requires h + 1 < |caches|
  {
    && k in caches[h] && caches[h][k] == expiry
    && !(k in caches[h + 1] && caches[h + 1][k] == expiry)
  }

  lemma {:induction false} KeptOrLost(capacity: nat, audience: string, events: seq<Event>, caches: seq<Cache>,
                                      i: nat, j: nat)
    requires Run(capacity, audience, events, caches) && i < j <= |events| && events[i].verdict.Accepted?
    ensures var k, expiry := ReplayKey(events[i].token), EntryExpiry(events[i].token);
            (k in caches[j] && caches[j][k] == expiry) || exists h: nat :: i < h < j && Lost(caches, h, k, expiry)
    decreases j
  {
    var k, expiry := ReplayKey(events[i].token), EntryExpiry(events[i].token);
    assert VerifyStep(capacity, caches[j - 1], caches[j], audience, events[j - 1]);
    if j == i + 1 {
      assert k in caches[j] && caches[j][k] == expiry;
    } else {
      KeptOrLost(capacity, audience, events, caches, i, j - 1);
      if k in caches[j - 1] && caches[j - 1][k] == expiry && !(k in caches[j] && caches[j][k] == expiry) {
        assert Lost(caches, j - 1, k, expiry);
      }
    }
  }

  // An entry lost before its time was of least expiry in a full cache.
  lemma LostWhenFull(capacity: nat, audience: string, e: Event, m: Cache, m': Cache, k: string)
    requires VerifyStep(capacity, m, m', audience, e)
    requires k in m && m[k] > e.now && !(k in m' && m'[k] == m[k])
    ensures e.verdict.Accepted? && |Purged(m, e.now)| >= capacity
    ensures forall l | l in m && m[l] > e.now :: m[k] <= m[l]
  {
    var live := Purged(m, e.now);
    assert k in live && live[k] == m[k];
    forall l | l in m && m[l] > e.now ensures m[k] <= m[l] {
      assert l in live && live[l] == m[l];
    }
  }

  // The acceptances before the h-th call that came after `from`.
  function AcceptedSince(events: seq<Event>, h: nat, from: int): set<nat>
    requires h <= |events|
  {
    set j: nat | j < h && events[j].verdict.Accepted? && from < events[j].now
  }

  // If entry k is lost at the h-th call while its token would still pass at a later
  // one, the window that ends there holds an acceptance for every slot of the cache.
  lemma LossNeedsFullWindow(capacity: nat, audience: string, events: seq<Event>, caches: seq<Cache>, h: nat,
                            k: string, later: int)
    requires Run(capacity, audience, events, caches) && h < |events|
    requires k in caches[h] && caches[h][k] > later >= events[h].now
    requires !(k in caches[h + 1] && caches[h + 1][k] == caches[h][k])
    ensures events[h].verdict.Accepted?
    ensures |AcceptedSince(events, h, later - 120 * SECOND)| >= capacity
  {
    var m := caches[h];
    assert VerifyStep(capacity, m, caches[h + 1], audience, events[h]);
    LostWhenFull(capacity, audience, events[h], m, caches[h + 1], k);
    AllJustified(capacity, audience, events, caches, h);
    var live := Purged(m, events[h].now);
    var since := AcceptedSince(events, h, later - 120 * SECOND);
    forall l | l in live.Keys ensures exists j :: j in since && ReplayKey(events[j].token) == l {
      var j: nat :| j < h && Source(events, j, l, m[l]);
      AcceptedLifetime(capacity, audience, events, caches, j);
      assert j in since && ReplayKey(events[j].token) == l;
    }
    FewerKeys(events, live.Keys, since);
    assert |live| == |live.Keys|;
  }

  lemma LostBetween(capacity: nat, audience: string, events: seq<Event>, caches: seq<Cache>, i: nat, j: nat)
    returns (h: nat)
    requires Run(capacity, audience, events, caches) && ClockNeverRunsBack(events)
    requires i < j < |events| && events[i].verdict.Accepted? && events[j].verdict.Accepted?
    requires SameToken(events[i].token, events[j].token)
    ensures i < h < j && Lost(caches, h, ReplayKey(events[i].token), EntryExpiry(events[i].token))
    ensures events[i].now <= events[h].now <= events[j].now
  {
    assert VerifyStep(capacity, caches[j], caches[j + 1], audience, events[j]);
    EntryLifetime(audience, events[j]);
    KeptOrLost(capacity, audience, events, caches, i, j);
    h :| i < h < j && Lost(caches, h, ReplayKey(events[i].token), EntryExpiry(events[i].token));
  }

  // A replay takes two more acceptances than the cache has slots, all inside 120 seconds:
  // the entries of the full cache, the one that evicts, and the replay itself.
  lemma ReplayNeedsFullWindow(capacity: nat, audience: string, events: seq<Event>, caches: seq<Cache>, i: nat, j: nat)
    requires Run(capacity, audience, events, caches) && ClockNeverRunsBack(events)
    requires i < j < |events| && events[i].verdict.Accepted? && events[j].verdict.Accepted?
    requires SameToken(events[i].token, events[j].token)
    ensures |AcceptedIn(events, events[j].now - 120 * SECOND, events[j].now)| >= capacity + 2
  {
    var k, expiry, now := ReplayKey(events[i].token), EntryExpiry(events[i].token), events[j].now;
    AcceptedLifetime(capacity, audience, events, caches, i);
    AcceptedLifetime(capacity, audience, events, caches, j);
    var h := LostBetween(capacity, audience, events, caches, i, j);
    LossNeedsFullWindow(capacity, audience, events, caches, h, k, now);
    WindowCount(events, h, j, now - 120 * SECOND);
  }

  // So no token (issuer, nonce, expiry) is accepted twice in a run.
  lemma NoReplay(capacity: nat, audience: string, events: seq<Event>, caches: seq<Cache>, i: nat, j: nat)
    requires Run(capacity, audience, events, caches) && ClockNeverRunsBack(events)
    requires WithinCapacity(capacity + 1, events)
    requires i < j < |events| && events[i].verdict.Accepted? && SameToken(events[i].token, events[j].token)
    ensures events[j].verdict.Rejected?
  {
    var now := events[j].now;
    assert |AcceptedIn(events, now - 120 * SECOND, now)| <= capacity + 1;
    if events[j].verdict.Accepted? {
      ReplayNeedsFullWindow(capacity, audience, events, caches, i, j);
    }
  }

  lemma WindowCount(events: seq<Event>, h: nat, j: nat, from: int)
    requires ClockNeverRunsBack(events) && h < j < |events| && from < events[h].now
    requires events[h].verdict.Accepted? && events[j].verdict.Accepted?
    ensures |AcceptedIn(events, from, events[j].now)| >= |AcceptedSince(events, h, from)| + 2
  {
    var since := AcceptedSince(events, h, from);
    var all := since + {h} + {j};
    assert |all| == |since| + 2;
    forall x | x in all ensures x in AcceptedIn(events, from, events[j].now) {
      assert x < j ==> events[x].now <= events[j].now;
    }
    SubsetSize(all, AcceptedIn(events, from, events[j].now));
  }

  predicate SameToken(a: Token, b: Token) {
    ReplayKey(a) == ReplayKey(b) && a.exp == b.exp
  }

  ghost predicate AcceptedTwice(events: seq<Event>) {
    exists i: nat, j: nat :: i < j < |events| && events[i].verdict.Accepted? && events[j].verdict.Accepted?
                             && SameToken(events[i].token, events[j].token)
  }

  // And no token is turned away as a replay unless its issuer's nonce really was
  // accepted before and that acceptance has not run out.
  lemma {:induction false} OnlyReplaysRejected(capacity: nat, audience: string, events: seq<Event>,
                                               caches: seq<Cache>, j: nat)
    requires Run(capacity, audience, events, caches)
    requires j < |events| && events[j].verdict == Rejected(Replay)
    requires events[j].token.libraryError != Some(Replay)
    ensures exists i: nat ::
            i < j && events[i].verdict.Accepted? && ReplayKey(events[i].token) == ReplayKey(events[j].token)
                             && EntryExpiry(events[i].token) > events[j].now
  {
    AllJustified(capacity, audience, events, caches, j);
    assert VerifyStep(capacity, caches[j], caches[j + 1], audience, events[j]);
    var k := ReplayKey(events[j].token);
    assert k in Purged(caches[j], events[j].now);
    var i: nat :| i < j && Source(events, i, k, caches[j][k]);
  }

  lemma {:induction false} AllJustified(capacity: nat, audience: string, events: seq<Event>, caches: seq<Cache>,
                                        i: nat)
    requires Run(capacity, audience, events, caches) && i <= |events|
    ensures Justified(events, i, caches[i])
    decreases i
  {
    if i > 0 {
      AllJustified(capacity, audience, events, caches, i - 1);
      assert VerifyStep(capacity, caches[i - 1], caches[i], audience, events[i - 1]);
      var e := events[i - 1];
      if ClaimError(e.token, audience, e.lxm, e.now).None? {
        CheckAddsOnly(caches[i - 1], caches[i], ReplayKey(e.token), EntryExpiry(e.token), e.now, capacity,
            e.verdict.Accepted?);
      }
      KeepsJustified(events, i - 1, caches[i - 1], caches[i]);
    }
  }

  // ---------- one acceptance more is enough ----------

  // Token 0 runs out first; it fills the cache together with the next ones, is evicted, and comes again.
  function Sample(n: nat): Token {
    Token(None, "did:a", "aud", if n == 0 then 1000 else 1010, 970, seq(n + 1, _ => 'x'), "l", "")
  }

  const SAMPLE_TIME := 970 * SECOND

  function Presented(n: nat): Event {
    Event(Sample(n), "l", SAMPLE_TIME, Accepted)
  }

  function SampleKey(n: nat): string {
    ReplayKey(Sample(n))
  }

  function SampleExpiry(k: string): int {
    if k == SampleKey(0) then 1030 * SECOND else 1040 * SECOND
  }

  lemma SampleLength(n: nat)
    ensures |SampleKey(n)| == n + 7
    ensures SampleExpiry(SampleKey(n)) == EntryExpiry(Sample(n))
    ensures ClaimError(Sample(n), "aud", "l", SAMPLE_TIME).None?
  {
    assert n > 0 ==> |SampleKey(n)| != |SampleKey(0)|;
  }

  // The cache that holds these keys.
  function Holding(keys: set<string>): Cache {
    map k | k in keys :: SampleExpiry(k)
  }

  // The keys of the first n tokens.
  function FirstKeys(n: nat): set<string> {
    if n == 0 then {} else FirstKeys(n - 1) + {SampleKey(n - 1)}
  }

  lemma {:induction false} FirstKeysAreNew(n: nat)
    ensures |FirstKeys(n)| == n && SampleKey(n) !in FirstKeys(n)
    ensures forall k | k in FirstKeys(n) :: |k| < n + 7
    ensures n > 0 ==> SampleKey(0) in FirstKeys(n)
  {
    SampleLength(n);
    if n > 0 {
      FirstKeysAreNew(n - 1);
      SampleLength(n - 1);
    }
  }

  // Nothing has run out at the time of the run.
  lemma AllLive(keys: set<string>)
    ensures Purged(Holding(keys), SAMPLE_TIME) == Holding(keys) && |Holding(keys)| == |keys|
  {
    assert Holding(keys).Keys == keys;
    assert |Holding(keys)| == |Holding(keys).Keys|;
  }

  lemma Fills(capacity: nat, keys: set<string>, n: nat)
    requires |keys| < capacity && SampleKey(n) !in keys
    ensures VerifyStep(capacity, Holding(keys), Holding(keys + {SampleKey(n)}), "aud", Presented(n))
  {
    AllLive(keys);
    SampleLength(n);
    assert Holding(keys + {SampleKey(n)}) == Holding(keys)[SampleKey(n) := EntryExpiry(Sample(n))];
  }

  // A further token in a full cache puts out an entry of least expiry.
  lemma Replaces(capacity: nat, keys: set<string>, victim: string, n: nat)
    requires |keys| == capacity && SampleKey(n) !in keys && victim in keys
    requires forall k | k in keys :: SampleExpiry(victim) <= SampleExpiry(k)
    ensures VerifyStep(capacity, Holding(keys), Holding(keys - {victim} + {SampleKey(n)}), "aud", Presented(n))
  {
    AllLive(keys);
    SampleLength(n);
    var m := Holding(keys);
    assert Earliest(m, victim);
    assert Holding(keys - {victim} + {SampleKey(n)}) == (m - {victim})[SampleKey(n) := EntryExpiry(Sample(n))];
  }

  function SampleEvents(capacity: nat): seq<Event> {
    seq(capacity + 2, i requires 0 <= i < capacity + 2 => Presented(if i <= capacity then i else 0))
  }

  function SampleKeys(capacity: nat, i: nat): set<string> {
    if i <= capacity then FirstKeys(i)
    else if i == capacity + 1 then FirstKeys(capacity) - {SampleKey(0)} + {SampleKey(capacity)}
    else FirstKeys(capacity) - {SampleKey(0)} + {SampleKey(capacity)} - {SampleKey(capacity)} + {SampleKey(0)}
  }

  lemma SampleStep(capacity: nat, i: nat)
    requires capacity >= 1 && i < capacity + 2
    ensures VerifyStep(capacity, Holding(SampleKeys(capacity, i)), Holding(SampleKeys(capacity, i + 1)), "aud",
                       SampleEvents(capacity)[i])
  {
    var full := FirstKeys(capacity);
    FirstKeysAreNew(capacity);
    if i < capacity {
      FirstKeysAreNew(i);
      Fills(capacity, FirstKeys(i), i);
    } else if i == capacity {
      Replaces(capacity, full, SampleKey(0), capacity);
    } else {
      var later := full - {SampleKey(0)} + {SampleKey(capacity)};
      assert |full - {SampleKey(0)}| == capacity - 1;
      Replaces(capacity, later, SampleKey(capacity), 0);
    }
  }

  // A run of capacity + 2 acceptances in which the first token is accepted twice.
  lemma ReplayBeyond(capacity: nat) returns (events: seq<Event>, caches: seq<Cache>)
    requires capacity >= 1
    ensures Run(capacity, "aud", events, caches) && ClockNeverRunsBack(events) && |events| == capacity + 2
    ensures AcceptedTwice(events)
  {
    events := SampleEvents(capacity);
    caches := seq(capacity + 3, i requires 0 <= i < capacity + 3 => Holding(SampleKeys(capacity, i)));
    forall i: nat | i < |events| ensures VerifyStep(capacity, caches[i], caches[i + 1], "aud", events[i]) {
      SampleStep(capacity, i);
    }
    forall i: nat | i < |events| ensures events[i].now == SAMPLE_TIME && events[i].verdict.Accepted? {
      assert events[i] == Presented(if i <= capacity then i else 0);
    }
    assert events[0].token == events[capacity + 1].token;
    assert SameToken(events[0].token, events[capacity + 1].token);
  }

  lemma {:induction false} IndicesBelow(indices: set<nat>, n: nat)
    requires forall i | i in indices :: i < n
    ensures |indices| <= n
  {
    if n == 0 {
      assert indices == {};
    } else {
      IndicesBelow(indices - {n - 1}, n - 1);
      SubsetSize(indices, (indices - {n - 1}) + {n - 1});
    }
  }

  ghost predicate Admissible(capacity: nat, n: nat, audience: string, events: seq<Event>, caches: seq<Cache>) {
    Run(capacity, audience, events, caches) && ClockNeverRunsBack(events) && WithinCapacity(n, events)
  }

  // The exact condition, for every capacity: no run with at most n acceptances in any
  // 120 seconds accepts a token twice, if and only if n is at most the capacity plus one.
  lemma NoReplayIff(capacity: nat, n: nat)
    requires capacity >= 1
    ensures (forall audience: string, events: seq<Event>, caches: seq<Cache> |
               Admissible(capacity, n, audience, events, caches) :: !AcceptedTwice(events))
            <==> n <= capacity + 1
  {
    if n <= capacity + 1 {
      forall audience: string, events: seq<Event>, caches: seq<Cache> |
        Admissible(capacity, n, audience, events, caches)
        ensures !AcceptedTwice(events)
      {
        WithinMore(n, capacity + 1, events);
        forall i: nat, j: nat |
          i < j < |events| && events[i].verdict.Accepted? && SameToken(events[i].token, events[j].token)
          ensures events[j].verdict.Rejected?
        {
          NoReplay(capacity, audience, events, caches, i, j);
        }
      }
    } else {
      var events, caches := ReplayBeyond(capacity);
      forall from: int, to: int | to - from == 120 * SECOND ensures |AcceptedIn(events, from, to)| <= n {
        IndicesBelow(AcceptedIn(events, from, to), capacity + 2);
      }
      assert Admissible(capacity, n, "aud", events, caches);
    }
  }

  lemma WithinMore(n: nat, more: nat, events: seq<Event>)
    requires WithinCapacity(n, events) && n <= more
    ensures WithinCapacity(more, events)
  {
    forall from: int, to: int | to - from == 120 * SECOND ensures |AcceptedIn(events, from, to)| <= more {
      assert |AcceptedIn(events, from, to)| <= n;
    }
  }
}

module ServiceAuth {
  import opened Wrappers
  import opened JtiCache
  import opened ServiceAuthSpec

  class ServiceAuthVerifier {
    const audience: string
    const jtiCache: JtiReplayCache

    ghost predicate Valid()
      reads this, jtiCache, jtiCache.heap
    {
      jtiCache.Valid()
    }

    constructor (audience: string)
      ensures Valid() && fresh(jtiCache) && fresh(set x | x in jtiCache.heap)
      ensures this.audience == audience && jtiCache.capacity == CACHE_CAPACITY && jtiCache.Model() == map[]
    {
      this.audience := audience;
      jtiCache := new JtiReplayCache(CACHE_CAPACITY);
    }

    // One call of Verify at clock reading `now`; every call is one step of a run.
    method Verify(t: Token, expectedLxm: string, now: int) returns (verdict: Verdict)
      requires Valid()
      modifies jtiCache, set x | x in jtiCache.heap
      ensures Valid()
      ensures VerifyStep(jtiCache.capacity, old(jtiCache.Model()), jtiCache.Model(), audience,
                         Event(t, expectedLxm, now, verdict))
      ensures fresh((set x | x in jtiCache.heap) - old(set x | x in jtiCache.heap))
    {
      if expectedLxm == "" {
        return Rejected(NoLxmConfigured);
      }
      if t.libraryError.Some? {
        return Rejected(t.libraryError.value);
      }
      if t.aud != audience {
        return Rejected(BadAudience);
      }
      if t.exp == 0 {
        return Rejected(Expired);
      }
      var exp := t.exp * SECOND;
      if exp <= now - MAX_SKEW {
        return Rejected(Expired);
      }
      if exp > now + MAX_LIFETIME + MAX_SKEW {
        return Rejected(Expired);
      }
      if t.iat != 0 {
        var iat := t.iat * SECOND;
        if iat > now + MAX_SKEW {
          return Rejected(FutureIat);
        }
      }
      if t.lxm != expectedLxm {
        return Rejected(BadLxm);
      }
      if t.jti == "" && t.iat == 0 {
        return Rejected(MissingJti);
      }
      var replayKey := t.jti;
      if replayKey == "" {
        replayKey := t.synth;
      }
      replayKey := t.iss + "|" + replayKey;
      var isNew := jtiCache.CheckAndSet(replayKey, exp + MAX_SKEW, now);
      verdict := if isNew then Accepted else Rejected(Replay);
    }
  }
}
