/** The revocation list of access tokens: rows are kept until the token has expired anyway, and pruned when the
    next token is revoked. Instants are milliseconds of one clock. */
module TokenRevocation {
  import opened Wrappers

  type Jti = string

  /** `exp` of every token that was issued, in seconds (RFC 7519 section 4.1.4 allows fractions). */
  type Expiry = Jti -> real

  predicate Whole(x: real) {
    x == x.Floor as real
  }

  /** The token verifier compares `exp` with the current second. */
  predicate ValidAt(exp: real, now: int) {
    exp > (now / 1_000) as real
  }

  function Truncated(x: real): int {
    if x >= 0.0 then x.Floor else -((-x).Floor)
  }

  /** `new Date(exp * 1000)` */
  function RowExpiry(exp: real): int {
    Truncated(exp * 1_000.0)
  }

  type Rows = map<Jti, int>

  /** `delete ... where expires_at <= now` */
  function Pruned(rows: Rows, now: int): Rows {
    map jti | jti in rows && rows[jti] > now :: rows[jti]
  }

  /** Insert, or update of the expiry on conflict. */
  function Upserted(rows: Rows, jti: Jti, exp: real): Rows {
    rows[jti := RowExpiry(exp)]
  }

  predicate Listed(rows: Rows, jti: Jti, now: int) {
    jti in rows && rows[jti] > now
  }

  /** The last step of an authentication. */
  predicate Active(rows: Rows, jti: Jti, activeSession: bool, asOf: int) {
    activeSession && !Listed(rows, jti, asOf)
  }

  function Later(a: int, b: int): int {
    if a < b then b else a
  }

  /** The claims that `persistAccessTokenRevocation` needs; None when one is missing or of the wrong type. */
  datatype Claims = Claims(jti: Jti, exp: real)

  class RevocationList {
    var rows: Rows
    /** Every revocation that was ever asked for, with the expiry it was asked for last. */
    ghost var revoked: map<Jti, int>
    /** The latest moment as of which rows have been pruned, if any. */
    ghost var prunedAt: Option<int>

    /** The table is what is left of the revocations: only those are missing whose time had come at some pruning. */
    ghost predicate Valid()
      reads this
    {
      && (forall jti | jti in rows :: jti in revoked && rows[jti] == revoked[jti])
      && (forall jti | jti in revoked && jti !in rows :: prunedAt.Some? && revoked[jti] <= prunedAt.value)
    }

    ghost predicate WasRevoked(claims: Claims)
      reads this
    {
      claims.jti in revoked && revoked[claims.jti] == RowExpiry(claims.exp)
    }

    constructor ()
      ensures Valid() && rows == map[] && revoked == map[] && prunedAt == None
    {
      rows, revoked, prunedAt := map[], map[], None;
    }

    method PersistAccessTokenRevocation(payload: Option<Claims>, now: int)
      requires Valid()
      modifies this
      ensures Valid()
      ensures payload.None? ==> rows == old(rows) && revoked == old(revoked) && prunedAt == old(prunedAt)
      ensures payload.Some? ==>
        && rows == Upserted(Pruned(old(rows), now), payload.value.jti, payload.value.exp)
        && revoked == old(revoked)[payload.value.jti := RowExpiry(payload.value.exp)]
        && prunedAt == Some(if old(prunedAt).Some? then Later(old(prunedAt).value, now) else now)
    {
      hide RowExpiry;
      if payload.None? {
        return;
      }
      rows := map jti | jti in rows && rows[jti] > now :: rows[jti];
      rows := rows[payload.value.jti := RowExpiry(payload.value.exp)];
      prunedAt := Some(if prunedAt.Some? then Later(prunedAt.value, now) else now);
      revoked := revoked[payload.value.jti := RowExpiry(payload.value.exp)];
    }

    /** The second half of `authenticateResourceAccessToken`, in terms of all revocations there ever were: the missing
        rows make no difference to a lookup as of the last pruning or later. A lookup with an older time may overlook
        a revocation only when its time has come meanwhile. */
    method IsActive(jti: Jti, activeSession: bool, asOf: int) returns (active: bool)
      requires Valid()
      ensures active == Active(rows, jti, activeSession, asOf)
      ensures (prunedAt.Some? ==> prunedAt.value <= asOf) ==>
        (active <==> activeSession && !(jti in revoked && asOf < revoked[jti]))
      ensures active && jti in revoked && asOf < revoked[jti] ==> prunedAt.Some? && revoked[jti] <= prunedAt.value
    {
      var revocation := jti in rows && rows[jti] > asOf;
      active := activeSession && !revocation;
    }

    /** `authenticateResourceAccessToken` for a token with these claims: a token that was revoked is accepted only
        when it expires after its verification and no later than the lookup or the last pruning. */
    method AuthenticateResourceAccessToken(claims: Option<Claims>, activeSession: bool, verifiedAt: int, asOf: int)
      returns (accepted: bool)
      requires Valid()
      ensures accepted ==> claims.Some? && activeSession && ValidAt(claims.value.exp, verifiedAt)
      ensures accepted && Whole(claims.value.exp) && WasRevoked(claims.value) ==>
        && verifiedAt < RowExpiry(claims.value.exp)
        && (RowExpiry(claims.value.exp) <= asOf
            || (prunedAt.Some? && RowExpiry(claims.value.exp) <= prunedAt.value))
      ensures claims.Some? && activeSession && ValidAt(claims.value.exp, verifiedAt) && claims.value.jti !in revoked ==>
        accepted
    {
      if claims.None? || !ValidAt(claims.value.exp, verifiedAt) {
        return false;
      }
      accepted := IsActive(claims.value.jti, activeSession, asOf);
      if Whole(claims.value.exp) {
        WholeExpiry(claims.value.exp);
      }
      hide RowExpiry, ValidAt, Whole;
    }
  }

  // ----- the seam between the row and the expiry of the token -----

  lemma WholeExpiry(exp: real)
    requires Whole(exp)
    ensures RowExpiry(exp) == 1_000 * exp.Floor
    ensures forall t :: ValidAt(exp, t) <==> t < RowExpiry(exp)
  {
    var n := exp.Floor;
    WholeMilliseconds(n);
    forall t
      ensures ValidAt(exp, t) <==> t < 1_000 * n
    {
      assert t == 1_000 * (t / 1_000) + t % 1_000;
    }
  }

  lemma WholeMilliseconds(n: int)
    ensures RowExpiry(n as real) == 1_000 * n
  {
    var x := n as real * 1_000.0;
    assert x == (1_000 * n) as real;
    assert -x == (-1_000 * n) as real;
  }

  lemma FractionLeavesGap(exp: real)
    requires exp > 0.0 && !Whole(exp)
    ensures var t := 1_000 * exp.Floor + 999; ValidAt(exp, t) && t >= RowExpiry(exp)
  {
    var n := exp.Floor;
    assert (1_000 * n + 999) / 1_000 == n;
    assert exp < n as real + 1.0;
    assert exp * 1_000.0 < (1_000 * n + 1_000) as real;
  }

  /** As long as a token can be verified its row has not expired, if and only if `exp` is a whole number of seconds. */
  lemma NoGapExactly(exp: real)
    requires exp > 0.0
    ensures (forall t | ValidAt(exp, t) :: t < RowExpiry(exp)) <==> Whole(exp)
  {
    if Whole(exp) {
      WholeExpiry(exp);
    } else {
      FractionLeavesGap(exp);
    }
  }

  // ----- requests and revocations in any interleaving -----

  type RequestId = string

  /** A request verifies the token, takes the time for its lookup, and is decided when the database answers. */
  datatype Phase =
    | Verified(jti: Jti, revokedBefore: bool, verifiedAt: int)
    | Asked(jti: Jti, revokedBefore: bool, verifiedAt: int, asOf: int)
    | Decided(jti: Jti, revokedBefore: bool, verifiedAt: int, asOf: int, decidedAt: int, accepted: bool)

  datatype State = State(rows: Rows, now: int, revoked: set<Jti>, requests: map<RequestId, Phase>)

  datatype Event =
    | Tick(milliseconds: nat)
    | Prune(asOf: int)
    | Revoke(jti: Jti)
    | Verify(request: RequestId, jti: Jti)
    | Ask(request: RequestId)
    | Decide(request: RequestId, activeSession: bool)

  /** A statement may run later than the moment that it was given. */
  predicate Enabled(issued: Expiry, s: State, e: Event) {
    match e
    case Tick(_) => true
    case Prune(asOf) => asOf <= s.now
    case Revoke(_) => true
    case Verify(r, jti) => r !in s.requests && ValidAt(issued(jti), s.now)
    case Ask(r) => r in s.requests && s.requests[r].Verified?
    case Decide(r, _) => r in s.requests && s.requests[r].Asked?
  }

  function Step(issued: Expiry, s: State, e: Event): State
    requires Enabled(issued, s, e)
  {
    match e
    case Tick(ms) => s.(now := s.now + ms)
    case Prune(asOf) => s.(rows := Pruned(s.rows, asOf))
    case Revoke(jti) => s.(rows := Upserted(s.rows, jti, issued(jti)), revoked := s.revoked + {jti})
    case Verify(r, jti) => s.(requests := s.requests[r := Verified(jti, jti in s.revoked, s.now)])
    case Ask(r) =>
      var p := s.requests[r];
      s.(requests := s.requests[r := Asked(p.jti, p.revokedBefore, p.verifiedAt, s.now)])
    case Decide(r, activeSession) =>
      var p := s.requests[r];
      var accepted := Active(s.rows, p.jti, activeSession, p.asOf);
      s.(requests := s.requests[r := Decided(p.jti, p.revokedBefore, p.verifiedAt, p.asOf, s.now, accepted)])
  }

  /** The row of a revoked token is there until the token's time has come. */
  ghost predicate RowsLast(issued: Expiry, s: State) {
    && (forall jti | jti in s.rows :: s.rows[jti] == RowExpiry(issued(jti)))
    && forall jti | jti in s.revoked ::
      (jti in s.rows && s.rows[jti] == RowExpiry(issued(jti))) || RowExpiry(issued(jti)) <= s.now
  }

  predicate GoodRequest(issued: Expiry, s: State, p: Phase) {
    && p.verifiedAt <= s.now && ValidAt(issued(p.jti), p.verifiedAt)
    && (p.revokedBefore ==> p.jti in s.revoked)
    && (p.Asked? || p.Decided? ==> p.verifiedAt <= p.asOf <= s.now)
    && (p.Decided? ==> p.asOf <= p.decidedAt <= s.now)
    && (p.Decided? && p.revokedBefore && p.accepted ==> RowExpiry(issued(p.jti)) <= p.decidedAt)
  }

  ghost predicate Inv(issued: Expiry, s: State) {
    && RowsLast(issued, s)
    && forall r | r in s.requests :: GoodRequest(issued, s, s.requests[r])
  }

  lemma StepKeepsInv(issued: Expiry, s: State, e: Event)
    requires Inv(issued, s) && Enabled(issued, s, e)
    ensures Inv(issued, Step(issued, s, e))
  {
    hide RowExpiry, ValidAt;
  }

  ghost predicate IsRun(issued: Expiry, states: seq<State>, events: seq<Event>) {
    && |states| == |events| + 1
    && states[0].rows == map[] && states[0].revoked == {} && states[0].requests == map[]
    && forall i | 0 <= i < |events| ::
      Enabled(issued, states[i], events[i]) && states[i + 1] == Step(issued, states[i], events[i])
  }

  lemma {:induction false} RunKeepsInv(issued: Expiry, states: seq<State>, events: seq<Event>, i: nat)
    requires IsRun(issued, states, events) && i < |states|
    ensures Inv(issued, states[i])
  {
    if i > 0 {
      hide Inv, Step, Enabled;
      RunKeepsInv(issued, states, events, i - 1);
      StepKeepsInv(issued, states[i - 1], events[i - 1]);
    }
  }

  lemma {:induction false} RevokedStays(issued: Expiry, states: seq<State>, events: seq<Event>, i: nat, j: nat,
      jti: Jti)
    requires IsRun(issued, states, events) && i <= j < |states| && jti in states[i].revoked
    ensures jti in states[j].revoked
  {
    if i < j {
      RevokedStays(issued, states, events, i, j - 1, jti);
    }
  }

  lemma {:induction false} VerificationIsRemembered(issued: Expiry, states: seq<State>, events: seq<Event>, j: nat,
      m: nat)
    requires IsRun(issued, states, events) && j < m < |states| && events[j].Verify?
    ensures var r := events[j].request;
      && r in states[m].requests
      && states[m].requests[r].jti == events[j].jti
      && states[m].requests[r].revokedBefore == (events[j].jti in states[j].revoked)
      && states[m].requests[r].verifiedAt == states[j].now
  {
    if j + 1 < m {
      VerificationIsRemembered(issued, states, events, j, m - 1);
      assert Enabled(issued, states[m - 1], events[m - 1]);
    }
  }

  /** Although the list is pruned, a request that begins after a token was revoked is accepted only if the token
      expires, to the millisecond, while the request is under way: it was still valid when it was verified, and its
      time had come when the lookup was answered. In particular no single instant accepts a revoked token. */
  lemma RevokedTokensStayRevoked(issued: Expiry, states: seq<State>, events: seq<Event>, i: nat, j: nat, m: nat)
    requires IsRun(issued, states, events) && i < j < m < |states|
    requires events[i].Revoke? && events[j].Verify? && events[j].jti == events[i].jti
    requires Whole(issued(events[i].jti))
    requires events[j].request in states[m].requests
    requires states[m].requests[events[j].request].Decided? && states[m].requests[events[j].request].accepted
    ensures var p := states[m].requests[events[j].request];
      p.verifiedAt < RowExpiry(issued(p.jti)) <= p.decidedAt
  {
    hide RowExpiry, ValidAt, Whole;
    var jti := events[i].jti;
    assert jti in states[i + 1].revoked;
    RevokedStays(issued, states, events, i + 1, j, jti);
    VerificationIsRemembered(issued, states, events, j, m);
    RunKeepsInv(issued, states, events, m);
    WholeExpiry(issued(jti));
    assert GoodRequest(issued, states[m], states[m].requests[events[j].request]);
  }

  /** The last step in detail: a revoked token is accepted exactly when its time has come as of the lookup, or its
      row has been pruned before the lookup was answered, which happens only after its time; when the lookup is
      answered at once, exactly when its time has come. */
  lemma DecisionExactly(issued: Expiry, s: State, r: RequestId)
    requires Inv(issued, s) && Enabled(issued, s, Decide(r, true)) && s.requests[r].jti in s.revoked
    ensures var p, q := s.requests[r], Step(issued, s, Decide(r, true)).requests[r];
      && (q.accepted <==> RowExpiry(issued(p.jti)) <= p.asOf || p.jti !in s.rows)
      && (q.accepted ==> RowExpiry(issued(p.jti)) <= s.now)
      && (p.asOf == s.now ==> (q.accepted <==> RowExpiry(issued(p.jti)) <= s.now))
  {
    hide RowExpiry, ValidAt;
    assert GoodRequest(issued, s, s.requests[r]);
  }

  /** And it happens: a token that expires at ten seconds is revoked and verified one millisecond before; the lookup of
      the same request, one millisecond later, no longer counts the revocation. */
  lemma ExpiringRequestIsAccepted(issued: Expiry) returns (states: seq<State>, events: seq<Event>)
    requires issued("t") == 10.0
    ensures IsRun(issued, states, events)
    ensures events == [Revoke("t"), Verify("r", "t"), Tick(1), Ask("r"), Decide("r", true)]
    ensures states[1].now == 9_999 && "r" in states[5].requests
    ensures states[5].requests["r"] == Decided("t", true, 9_999, 10_000, 10_000, true)
  {
    WholeMilliseconds(10);
    assert 10 as real == 10.0 && RowExpiry(10.0) == 10_000;
    assert ValidAt(10.0, 9_999);
    hide RowExpiry, ValidAt;
    events := [Revoke("t"), Verify("r", "t"), Tick(1), Ask("r"), Decide("r", true)];
    var rows := map["t" := 10_000];
    var s0 := State(map[], 9_999, {}, map[]);
    var s1 := State(rows, 9_999, {"t"}, map[]);
    var s2 := s1.(requests := map["r" := Verified("t", true, 9_999)]);
    var s3 := s2.(now := 10_000);
    var s4 := s3.(requests := map["r" := Asked("t", true, 9_999, 10_000)]);
    var s5 := s3.(requests := map["r" := Decided("t", true, 9_999, 10_000, 10_000, true)]);
    assert Step(issued, s0, events[0]) == s1;
    assert Step(issued, s1, events[1]) == s2;
    assert Step(issued, s2, events[2]) == s3;
    assert Step(issued, s3, events[3]) == s4;
    assert Step(issued, s4, events[4]) == s5;
    states := [s0, s1, s2, s3, s4, s5];
  }
}
