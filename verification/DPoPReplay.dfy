/**
 DPoP proofs (RFC 9449, sections 4.3 and 11.1) against the worker that cleans
 up the table of used proof identifiers.  Times are Unix seconds.
 */
module DPoPReplay {
  import opened Wrappers

  const DEFAULT_MAX_DPOP_AGE := 300
  const DPOP_JTI_CLEANUP_SKEW_SECONDS := 30
  const FUTURE_SKEW := 60
  // What the cleanup worker keeps rows for.
  const RETENTION := DEFAULT_MAX_DPOP_AGE + DPOP_JTI_CLEANUP_SKEW_SECONDS

  type Table = map<string, int>

  // A verified proof presented at a clock reading to an endpoint with its own age limit, or a cleanup tick.
  datatype Event =
    | Proof(jti: string, iat: int, maxAge: int, now: int, accepted: bool)
    | Cleanup(now: int)

  datatype ProofError = TooOld | InFuture | ReplayDetected

  predicate AgeOk(iat: int, now: int, maxAge: int) {
    now - iat <= maxAge && iat <= now + FUTURE_SKEW
  }

  function Kept(m: Table, before: int): Table {
    map k | k in m && m[k] >= before :: m[k]
  }

  ghost predicate Step(m: Table, m': Table, e: Event) {
    match e
    case Proof(jti, iat, maxAge, now, accepted) =>
      accepted == (AgeOk(iat, now, maxAge) && jti !in m) && m' == if accepted then m[jti := iat] else m
    case Cleanup(now) => m' == Kept(m, now - RETENTION)
  }

  // ---------- the handlers ----------

  class JtiTable {
    var rows: Table

    constructor ()
      ensures rows == map[]
    {
      rows := map[];
    }

    // INSERT .. ON CONFLICT DO NOTHING, reporting whether a row was added.
    method InsertIfNew(jti: string, iat: int) returns (inserted: bool)
      modifies this
      ensures inserted == (jti !in old(rows))
      ensures rows == if inserted then old(rows)[jti := iat] else old(rows)
    {
      inserted := jti !in rows;
      if inserted {
        rows := rows[jti := iat];
      }
    }

    method DeleteOlderThan(before: int)
      modifies this
      ensures rows == Kept(old(rows), before)
    {
      rows := map k | k in rows && rows[k] >= before :: rows[k];
    }

    // The age checks of VerifyDPoPProof, then the replay check of validateDPoP and of the middleware.
    method ValidateDPoP(jti: string, iat: int, maxAge: int, now: int) returns (r: Result<(), ProofError>)
      modifies this
      ensures Step(old(rows), rows, Proof(jti, iat, maxAge, now, r.Ok?))
      ensures r.Err? ==> r.error == if now - iat > maxAge then TooOld
                                    else if iat > now + FUTURE_SKEW then InFuture else ReplayDetected
    {
      if now - iat > maxAge {
        return Err(TooOld);
      }
      if iat > now + FUTURE_SKEW {
        return Err(InFuture);
      }
      var inserted := InsertIfNew(jti, iat);
      if !inserted {
        return Err(ReplayDetected);
      }
      r := Ok(());
    }

    // One tick of the cleanup worker.
    method CleanupTick(now: int)
      modifies this
      ensures Step(old(rows), rows, Cleanup(now))
    {
      DeleteOlderThan(now - DEFAULT_MAX_DPOP_AGE - DPOP_JTI_CLEANUP_SKEW_SECONDS);
    }
  }

  // ---------- runs ----------

  ghost predicate Run(events: seq<Event>, tables: seq<Table>) {
    && |tables| == |events| + 1 && tables[0] == map[]
    && forall i | 0 <= i < |events| :: Step(tables[i], tables[i + 1], events[i])
  }

  // Clock readings never fall more than `drift` behind an earlier one.
  ghost predicate DriftsAtMost(events: seq<Event>, drift: nat) {
    forall i, j | 0 <= i < j < |events| :: events[j].now >= events[i].now - drift
  }

  ghost predicate AgesAtMost(events: seq<Event>, maxAge: nat) {
    forall i | 0 <= i < |events| && events[i].Proof? :: events[i].maxAge <= maxAge
  }

  predicate Accepts(events: seq<Event>, i: nat, jti: string, iat: int)
    requires i < |events|
  {
    events[i].Proof? && events[i].accepted && events[i].jti == jti && events[i].iat == iat
  }

  predicate Cleaned(events: seq<Event>, i: nat, iat: int)
    requires i < |events|
  {
    events[i].Cleanup? && iat < events[i].now - RETENTION
  }

  // An accepted proof stays in the table until a tick that was entitled to remove it.
  lemma {:induction false} StaysUntilCleaned(events: seq<Event>, tables: seq<Table>, i: nat, j: nat, jti: string,
                                             iat: int)
    requires Run(events, tables) && i < j <= |events| && Accepts(events, i, jti, iat)
    ensures (jti in tables[j] && tables[j][jti] == iat) || exists c: nat :: i < c < j && Cleaned(events, c, iat)
    decreases j
  {
    assert Step(tables[j - 1], tables[j], events[j - 1]);
    if i < j - 1 {
      StaysUntilCleaned(events, tables, i, j - 1, jti, iat);
      if jti in tables[j - 1] && tables[j - 1][jti] == iat && !(jti in tables[j] && tables[j][jti] == iat) {
        assert Cleaned(events, j - 1, iat);
      }
    }
  }

  ghost predicate AcceptedTwice(events: seq<Event>) {
    exists i: nat, j: nat, jti: string, iat: int ::
      i < j < |events| && Accepts(events, i, jti, iat) && Accepts(events, j, jti, iat)
  }

  // No proof is accepted twice while age limit and clock drift together stay within the retention.
  lemma NoReplay(events: seq<Event>, tables: seq<Table>, maxAge: nat, drift: nat)
    requires Run(events, tables) && DriftsAtMost(events, drift) && AgesAtMost(events, maxAge)
    requires maxAge + drift <= RETENTION
    ensures !AcceptedTwice(events)
  {
    forall i: nat, j: nat, jti: string, iat: int | i < j < |events| && Accepts(events, i, jti, iat)
      ensures !Accepts(events, j, jti, iat)
    {
      StaysUntilCleaned(events, tables, i, j, jti, iat);
      assert Step(tables[j], tables[j + 1], events[j]);
      if c: nat :| i < c < j && Cleaned(events, c, iat) {
        assert events[j].now >= events[c].now - drift;
        assert events[j].Proof? ==> events[j].maxAge <= maxAge;
      }
    }
  }

  // One second more, and a tick between two presentations lets the proof through again.
  lemma ReplayBeyond(maxAge: nat, drift: nat) returns (events: seq<Event>, tables: seq<Table>)
    requires maxAge + drift > RETENTION
    ensures Run(events, tables) && DriftsAtMost(events, drift) && AgesAtMost(events, maxAge)
    ensures AcceptedTwice(events)
  {
    var tick := RETENTION + 1;
    var late := if tick <= maxAge then tick else maxAge;
    events := [Proof("j", 0, maxAge, 0, true), Cleanup(tick), Proof("j", 0, maxAge, late, true)];
    tables := [map[], map["j" := 0], map[], map["j" := 0]];
    assert Kept(map["j" := 0], tick - RETENTION) == map[];
    assert Step(tables[0], tables[1], events[0]);
    assert Step(tables[1], tables[2], events[1]);
    assert Step(tables[2], tables[3], events[2]);
    assert Accepts(events, 0, "j", 0) && Accepts(events, 2, "j", 0);
  }

  // The exact condition, for all runs: age limit plus drift at most 330 seconds.
  lemma NoReplayIff(maxAge: nat, drift: nat)
    ensures (forall events: seq<Event>, tables: seq<Table> |
               Run(events, tables) && DriftsAtMost(events, drift) && AgesAtMost(events, maxAge) ::
                   !AcceptedTwice(events))
            <==> maxAge + drift <= DEFAULT_MAX_DPOP_AGE + DPOP_JTI_CLEANUP_SKEW_SECONDS
  {
    if maxAge + drift <= RETENTION {
      forall events: seq<Event>, tables: seq<Table> |
        Run(events, tables) && DriftsAtMost(events, drift) && AgesAtMost(events, maxAge)
        ensures !AcceptedTwice(events)
      {
        NoReplay(events, tables, maxAge, drift);
      }
    } else {
      var events, tables := ReplayBeyond(maxAge, drift);
    }
  }

  // With the constants of the source, the clock may run back by up to 30 seconds.
  lemma DefaultsAllowThirtySeconds(events: seq<Event>, tables: seq<Table>)
    requires Run(events, tables) && DriftsAtMost(events, 30) && AgesAtMost(events, DEFAULT_MAX_DPOP_AGE)
    ensures !AcceptedTwice(events)
  {
    NoReplay(events, tables, DEFAULT_MAX_DPOP_AGE, 30);
  }
}
