/**
 Authorization codes, access tokens and refresh tokens as tables, and the two
 grant handlers as fixed sequences of writes.  A handler may stop, or be
 stopped by a failing insert, between any two writes.
 */
module TokenTables {
  import opened Wrappers

  datatype AuthCode = AuthCode(
    clientId: string, userId: string, redirectUri: string, scope: Option<string>, expiresAt: int, used: bool)

  datatype AccessRow = AccessRow(clientId: string, userId: string, scope: Option<string>, expiresAt: int,
                                  dpopJkt: Option<string>, revoked: bool)

  // A row of oauth_refresh_token; the last two columns are nullable.
  datatype RefreshRow = RefreshRow(
    accessToken: string, clientId: string, userId: string, scope: Option<string>, createdAt: int,
    expiresAt: Option<int>, revoked: bool, dpopJkt: Option<string>, originalIssuedAt: Option<int>)

  // The struct that rows are scanned into; an empty dpopJkt is an unbound token.
  datatype RefreshToken = RefreshToken(
    accessToken: string, clientId: string, userId: string, scope: Option<string>, createdAt: int,
    expiresAt: Option<int>, revoked: bool, dpopJkt: string, originalIssuedAt: int)

  datatype Tables = Tables(
    clients: set<string>,
    codes: map<string, AuthCode>,
    access: map<string, AccessRow>,
    refresh: map<string, RefreshRow>)

  // scanRefreshTokenRow: a NULL original_issued_at falls back to created_at.
  function Scan(row: RefreshRow): RefreshToken {
    RefreshToken(row.accessToken, row.clientId, row.userId, row.scope, row.createdAt, row.expiresAt, row.revoked,
                 if row.dpopJkt.Some? then row.dpopJkt.value else "",
                 if row.originalIssuedAt.Some? then row.originalIssuedAt.value else row.createdAt)
  }

  // Insert: a zero OriginalIssuedAt becomes created_at, an empty JKT becomes NULL.
  function ToRow(t: RefreshToken): RefreshRow {
    RefreshRow(t.accessToken, t.clientId, t.userId, t.scope, t.createdAt, t.expiresAt, t.revoked,
               if t.dpopJkt == "" then None else Some(t.dpopJkt),
               Some(if t.originalIssuedAt == 0 then t.createdAt else t.originalIssuedAt))
  }

  datatype Config = Config(accessLifetime: int, refreshLifetime: int, legacyCutoff: int)

  // The outcome of validateDPoP: no header, a verified key thumbprint, or an error.
  datatype Proof = NoProof | Key(jkt: string) | BadProof

  datatype GrantError = InvalidRequest | InvalidClient | InvalidGrant | InvalidProof | BindingFailed | Stopped

  datatype Exchange = Exchange(
    code: string, clientId: string, redirectUri: string, pkceOk: bool, proof: Proof, now: int,
    newAccess: string, newRefresh: string)

  datatype Rotation = Rotation(
    token: string, clientId: string, proof: Proof, now: int, newAccess: string, newRefresh: string)

  function Jkt(p: Proof): Option<string> {
    if p.Key? then Some(p.jkt) else None
  }

  function RefreshExpiry(c: Config, now: int): Option<int> {
    if c.refreshLifetime > 0 then Some(now + c.refreshLifetime) else None
  }

  predicate Expired(expiresAt: Option<int>, now: int) {
    expiresAt.Some? && now > expiresAt.value
  }

  // checkRefreshTokenDPoPBinding.
  predicate BindingOk(t: RefreshToken, incoming: Option<string>, cutoff: int) {
    var jkt := if incoming.Some? then incoming.value else "";
    if t.dpopJkt != "" then jkt != "" && jkt == t.dpopJkt else t.originalIssuedAt < cutoff
  }

  // Everything the code exchange checks before its first write.
  function ExchangeError(t: Tables, e: Exchange): Option<GrantError> {
    if e.code == "" || e.clientId == "" || e.redirectUri == "" then Some(InvalidRequest)
    else if e.clientId !in t.clients then Some(InvalidClient)
    else if e.code !in t.codes then Some(InvalidGrant)
    else
      var code := t.codes[e.code];
      if code.used || e.now > code.expiresAt || code.clientId != e.clientId
         || code.redirectUri != e.redirectUri || !e.pkceOk
      then Some(InvalidGrant)
      else if e.proof.BadProof? then Some(InvalidProof)
      else None
  }

  function FirstAccess(c: Config, code: AuthCode, e: Exchange): AccessRow {
    AccessRow(e.clientId, code.userId, code.scope, e.now + c.accessLifetime, Jkt(e.proof), false)
  }

  function FirstToken(c: Config, code: AuthCode, e: Exchange): RefreshToken {
    RefreshToken(e.newAccess, e.clientId, code.userId, code.scope, e.now, RefreshExpiry(c, e.now), false,
                 if e.proof.Key? then e.proof.jkt else "", e.now)
  }

  function MarkUsed(t: Tables, code: string): Tables {
    if code in t.codes then t.(codes := t.codes[code := t.codes[code].(used := true)]) else t
  }

  function Revoke(t: Tables, token: string): Tables {
    if token in t.refresh then t.(refresh := t.refresh[token := t.refresh[token].(revoked := true)]) else t
  }

  // The tables after an exchange of which `writes` writes were carried out.
  function AfterExchange(c: Config, t: Tables, e: Exchange, writes: nat): Tables {
    if ExchangeError(t, e).Some? || writes == 0 then t
    else
      var used := MarkUsed(t, e.code);
      if writes == 1 || e.newAccess in t.access then used
      else
        var granted := used.(access := used.access[e.newAccess := FirstAccess(c, t.codes[e.code], e)]);
        if writes == 2 || e.newRefresh in t.refresh then granted
        else granted.(refresh := granted.refresh[e.newRefresh := ToRow(FirstToken(c, t.codes[e.code], e))])
  }

  function RotationError(c: Config, t: Tables, r: Rotation): Option<GrantError> {
    if r.token == "" || r.clientId == "" then Some(InvalidRequest)
    else if r.clientId !in t.clients then Some(InvalidClient)
    else if r.token !in t.refresh then Some(InvalidGrant)
    else
      var stored := Scan(t.refresh[r.token]);
      if stored.revoked || Expired(stored.expiresAt, r.now) || stored.clientId != r.clientId then Some(InvalidGrant)
      else if r.proof.BadProof? then Some(InvalidProof)
      else if !BindingOk(stored, Jkt(r.proof), c.legacyCutoff) then Some(BindingFailed)
      else None
  }

  function NextAccess(c: Config, stored: RefreshToken, r: Rotation): AccessRow {
    AccessRow(r.clientId, stored.userId, stored.scope, r.now + c.accessLifetime, Jkt(r.proof), false)
  }

  function NextToken(c: Config, stored: RefreshToken, r: Rotation): RefreshToken {
    RefreshToken(r.newAccess, r.clientId, stored.userId, stored.scope, r.now, RefreshExpiry(c, r.now), false,
                 stored.dpopJkt, stored.originalIssuedAt)
  }

  // The new tokens are stored first; the old one is revoked last.
  function AfterRotation(c: Config, t: Tables, r: Rotation, writes: nat): Tables {
    if RotationError(c, t, r).Some? || writes == 0 || r.newAccess in t.access then t
    else
      var stored := Scan(t.refresh[r.token]);
      var granted := t.(access := t.access[r.newAccess := NextAccess(c, stored, r)]);
      if writes == 1 || r.newRefresh in t.refresh then granted
      else
        var both := granted.(refresh := granted.refresh[r.newRefresh := ToRow(NextToken(c, stored, r))]);
        if writes == 2 then both else Revoke(both, r.token)
  }

  // DeleteExpired on codes and access tokens; refresh tokens are not cleaned up.
  function AfterCleanup(t: Tables, now: int): Tables {
    t.(codes := map k | k in t.codes && t.codes[k].expiresAt >= now :: t.codes[k],
       access := map k | k in t.access && t.access[k].expiresAt >= now :: t.access[k])
  }

  function RevokeAccess(t: Tables, token: string): Tables {
    if token in t.access then t.(access := t.access[token := t.access[token].(revoked := true)]) else t
  }

  // The token is tried as an access token and as a refresh token; either write may fail unnoticed.
  function AfterRevoke(t: Tables, token: string, accessOk: bool, refreshOk: bool): Tables {
    if token == "" then t
    else
      var first := if accessOk then RevokeAccess(t, token) else t;
      if refreshOk then Revoke(first, token) else first
  }

  // ---------- the handlers themselves ----------

  class TokenServer {
    const config: Config
    const clients: set<string>
    var codes: map<string, AuthCode>
    var access: map<string, AccessRow>
    var refresh: map<string, RefreshRow>

    constructor (config: Config, clients: set<string>)
      ensures this.config == config && this.clients == clients && Contents() == Tables(clients, map[], map[], map[])
    {
      this.config, this.clients := config, clients;
      codes, access, refresh := map[], map[], map[];
    }

    function Contents(): Tables
      reads this
    {
      Tables(clients, codes, access, refresh)
    }

    // handleAuthorizationCodeGrant; the process stops after `writes` writes.
    method HandleAuthorizationCodeGrant(e: Exchange, writes: nat) returns (r: Result<string, GrantError>)
      modifies this
      ensures Contents() == AfterExchange(config, old(Contents()), e, writes)
      ensures var refused := ExchangeError(old(Contents()), e);
              if refused.Some? then r == Err(refused.value)
              else r.Ok? <==> writes >= 3 && e.newAccess !in old(access) && e.newRefresh !in old(refresh)
      ensures r.Ok? ==> r.value == e.newRefresh && e.newRefresh in refresh && e.newRefresh !in old(refresh)
    {
      if e.code == "" || e.clientId == "" || e.redirectUri == "" {
        return Err(InvalidRequest);
      }
      if e.clientId !in clients {
        return Err(InvalidClient);
      }
      if e.code !in codes {
        return Err(InvalidGrant);
      }
      var authCode := codes[e.code];
      if authCode.used {
        return Err(InvalidGrant);
      }
      if e.now > authCode.expiresAt {
        return Err(InvalidGrant);
      }
      if authCode.clientId != e.clientId || authCode.redirectUri != e.redirectUri || !e.pkceOk {
        return Err(InvalidGrant);
      }
      if e.proof.BadProof? {
        return Err(InvalidProof);
      }
      if writes == 0 {
        return Err(Stopped);
      }
      codes := codes[e.code := authCode.(used := true)];
      if writes == 1 || e.newAccess in access {
        return Err(Stopped);
      }
      access := access[e.newAccess := FirstAccess(config, authCode, e)];
      if writes == 2 || e.newRefresh in refresh {
        return Err(Stopped);
      }
      refresh := refresh[e.newRefresh := ToRow(FirstToken(config, authCode, e))];
      r := Ok(e.newRefresh);
    }

    // handleRefreshTokenGrant.
    method HandleRefreshTokenGrant(q: Rotation, writes: nat) returns (r: Result<string, GrantError>)
      modifies this
      ensures Contents() == AfterRotation(config, old(Contents()), q, writes)
      ensures var refused := RotationError(config, old(Contents()), q);
              if refused.Some? then r == Err(refused.value)
              else r.Ok? <==> writes >= 3 && q.newAccess !in old(access) && q.newRefresh !in old(refresh)
      ensures r.Ok? ==> r.value == q.newRefresh && q.newRefresh in refresh && q.newRefresh !in old(refresh)
                        && q.token in refresh && refresh[q.token].revoked
    {
      if q.token == "" || q.clientId == "" {
        return Err(InvalidRequest);
      }
      if q.clientId !in clients {
        return Err(InvalidClient);
      }
      if q.token !in refresh {
        return Err(InvalidGrant);
      }
      var stored := Scan(refresh[q.token]);
      if stored.revoked || Expired(stored.expiresAt, q.now) || stored.clientId != q.clientId {
        return Err(InvalidGrant);
      }
      if q.proof.BadProof? {
        return Err(InvalidProof);
      }
      if !BindingOk(stored, Jkt(q.proof), config.legacyCutoff) {
        return Err(BindingFailed);
      }
      if writes == 0 || q.newAccess in access {
        return Err(Stopped);
      }
      access := access[q.newAccess := NextAccess(config, stored, q)];
      if writes == 1 || q.newRefresh in refresh {
        return Err(Stopped);
      }
      refresh := refresh[q.newRefresh := ToRow(NextToken(config, stored, q))];
      if writes == 2 {
        return Err(Stopped);
      }
      refresh := refresh[q.token := refresh[q.token].(revoked := true)];
      r := Ok(q.newRefresh);
    }

    method HandleRevoke(token: string, accessOk: bool, refreshOk: bool) returns (r: Result<(), GrantError>)
      modifies this
      ensures Contents() == AfterRevoke(old(Contents()), token, accessOk, refreshOk)
      ensures r == if token == "" then Err(InvalidRequest) else Ok(())
    {
      if token == "" {
        return Err(InvalidRequest);
      }
      if accessOk && token in access {
        access := access[token := access[token].(revoked := true)];
      }
      if refreshOk && token in refresh {
        refresh := refresh[token := refresh[token].(revoked := true)];
      }
      r := Ok(());
    }

    method CleanupTick(now: int)
      modifies this
      ensures Contents() == AfterCleanup(old(Contents()), now)
    {
      codes := map k | k in codes && codes[k].expiresAt >= now :: codes[k];
      access := map k | k in access && access[k].expiresAt >= now :: access[k];
    }
  }

  // ---------- OriginalIssuedAt through insert and scan ----------

  // What is read back is what was inserted, unless a zero met the default on Insert.
  lemma ScanOfInsert(t: RefreshToken)
    ensures Scan(ToRow(t)) ==
            t.(originalIssuedAt := if t.originalIssuedAt == 0 then t.createdAt else t.originalIssuedAt)
  {
  }

  // A rotation keeps OriginalIssuedAt exactly when the value read is not zero,
  // or the rotation itself happens at time zero; otherwise it moves to `now`.
  lemma RotationKeepsOriginalIff(c: Config, stored: RefreshToken, r: Rotation)
    ensures Scan(ToRow(NextToken(c, stored, r))).originalIssuedAt == stored.originalIssuedAt
            <==> stored.originalIssuedAt != 0 || r.now == 0
  {
  }
}
